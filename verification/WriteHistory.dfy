// Retaining flushed write buffers as write history
// (advanced_options.h:185-224, max_write_buffer_size_to_maintain).
module WriteHistory {

  // Sizes in bytes; lists are oldest first.
  datatype Memory = Memory(active: nat, unflushed: seq<nat>, flushed: seq<nat>)

  function Total(sizes: seq<nat>): nat {
    if sizes == [] then 0 else sizes[0] + Total(sizes[1..])
  }

  function InMemory(m: Memory): nat {
    m.active + Total(m.unflushed) + Total(m.flushed)
  }

  predicate CanTrim(m: Memory, target: nat) {
    m.flushed != [] && InMemory(m) - m.flushed[0] >= target
  }

  datatype Step =
    | Write(bytes: nat)
    | Rotate            // the mutable buffer becomes immutable
    | Flush(count: nat) // the oldest `count` unflushed buffers
    | Trim              // drop the oldest flushed buffer, if allowed

  function Apply(m: Memory, target: nat, step: Step): Memory {
    match step
    case Write(n) => m.(active := m.active + n)
    case Rotate => m.(active := 0, unflushed := m.unflushed + [m.active])
    case Flush(k) =>
      var n := if k <= |m.unflushed| then k else |m.unflushed|;
      m.(unflushed := m.unflushed[n..], flushed := m.flushed + m.unflushed[..n])
    case Trim => if CanTrim(m, target) then m.(flushed := m.flushed[1..]) else m
  }

  // ----- whole runs, with what was ever written -----

  function Run(target: nat, steps: seq<Step>): Memory {
    if steps == [] then Memory(0, [], [])
    else Apply(Run(target, steps[..|steps| - 1]), target, steps[|steps| - 1])
  }

  function Written(steps: seq<Step>): nat {
    if steps == [] then 0
    else
      var s := steps[|steps| - 1];
      Written(steps[..|steps| - 1]) + if s.Write? then s.bytes else 0
  }

  // ----- what should be in memory, from the steps alone -----

  // The bytes written since the last rotation, every buffer ever made
  // immutable, oldest first, and how many of them have been flushed and
  // trimmed so far. No buffer ever leaves the record.
  datatype Record = Record(active: nat, rotated: seq<nat>, flushCount: nat, trimCount: nat)

  // A flush covers as many buffers as it asks for, as far as there are any. A
  // trim takes effect if a flushed buffer is left to trim and what comes
  // after it reaches the target.
  function Extend(r: Record, target: nat, step: Step): Record {
    match step
    case Write(n) => r.(active := r.active + n)
    case Rotate => r.(active := 0, rotated := r.rotated + [r.active])
    case Flush(k) => r.(flushCount := if r.flushCount + k <= |r.rotated| then r.flushCount + k else |r.rotated|)
    case Trim => if TrimTakesEffect(r, target) then r.(trimCount := r.trimCount + 1) else r
  }

  predicate TrimTakesEffect(r: Record, target: nat) {
    r.trimCount < r.flushCount <= |r.rotated| && r.active + Total(r.rotated[r.trimCount + 1..]) >= target
  }

  function RecordOf(target: nat, steps: seq<Step>): Record {
    if steps == [] then Record(0, [], 0, 0)
    else Extend(RecordOf(target, steps[..|steps| - 1]), target, steps[|steps| - 1])
  }

  lemma {:induction false} TotalConcat(a: seq<nat>, b: seq<nat>)
    ensures Total(a + b) == Total(a) + Total(b)
  {
    if a == [] {
      assert a + b == b;
    } else {
      assert (a + b)[1..] == a[1..] + b;
      TotalConcat(a[1..], b);
    }
  }

  // What one step does to the bytes in memory.
  lemma StepBytes(m: Memory, target: nat, step: Step)
    ensures var m2 := Apply(m, target, step);
            InMemory(m2) == InMemory(m)
              + (if step.Write? then step.bytes else 0)
              - (if step.Trim? && CanTrim(m, target) then m.flushed[0] else 0)
  {
    match step {
      case Write(_) =>
      case Rotate => TotalConcat(m.unflushed, [m.active]);
      case Flush(k) =>
        var n := if k <= |m.unflushed| then k else |m.unflushed|;
        TotalConcat(m.unflushed[..n], m.unflushed[n..]);
        assert m.unflushed == m.unflushed[..n] + m.unflushed[n..];
        TotalConcat(m.flushed, m.unflushed[..n]);
      case Trim =>
    }
  }

  // At every moment memory holds the target, or everything ever written.
  lemma {:induction false} NeverBelowTargetOrWritten(target: nat, steps: seq<Step>)
    ensures InMemory(Run(target, steps)) <= Written(steps)
    ensures InMemory(Run(target, steps)) >= target || InMemory(Run(target, steps)) == Written(steps)
  {
    if steps != [] {
      var n := |steps| - 1;
      NeverBelowTargetOrWritten(target, steps[..n]);
      StepBytes(Run(target, steps[..n]), target, steps[n]);
    }
  }

  lemma StepKeepsTarget(m: Memory, target: nat, step: Step)
    requires InMemory(m) >= target
    ensures InMemory(Apply(m, target, step)) >= target
  {
    StepBytes(m, target, step);
  }

  lemma RunUnfold(target: nat, steps: seq<Step>, j: nat)
    requires 0 < j <= |steps|
    ensures Run(target, steps[..j]) == Apply(Run(target, steps[..j - 1]), target, steps[j - 1])
  {
    assert steps[..j][..j - 1] == steps[..j - 1] && steps[..j][j - 1] == steps[j - 1];
  }

  // Once the target has been reached it is never undershot again.
  lemma {:induction false} ReachedTargetIsKept(target: nat, steps: seq<Step>, i: nat, j: nat)
    requires i <= j <= |steps|
    requires InMemory(Run(target, steps[..i])) >= target
    ensures InMemory(Run(target, steps[..j])) >= target
    decreases j
  {
    if i < j {
      ReachedTargetIsKept(target, steps, i, j - 1);
      RunUnfold(target, steps, j);
      StepKeepsTarget(Run(target, steps[..j - 1]), target, steps[j - 1]);
    }
  }

  // Memory holds the active bytes, every buffer not flushed, and every
  // flushed one not trimmed, in order.
  ghost predicate Holds(m: Memory, r: Record) {
    && r.trimCount <= r.flushCount <= |r.rotated|
    && m == Memory(r.active, r.rotated[r.flushCount..], r.rotated[r.trimCount..r.flushCount])
  }

  lemma RotateHolds(m: Memory, target: nat, r: Record)
    requires Holds(m, r)
    ensures Holds(Apply(m, target, Rotate), Extend(r, target, Rotate))
  {
    var f := r.flushCount;
    assert (r.rotated + [r.active])[f..] == r.rotated[f..] + [r.active];
    assert (r.rotated + [r.active])[r.trimCount..f] == r.rotated[r.trimCount..f];
  }

  lemma FlushHolds(m: Memory, target: nat, r: Record, k: nat)
    requires Holds(m, r)
    ensures Holds(Apply(m, target, Flush(k)), Extend(r, target, Flush(k)))
  {
    var f, g := r.flushCount, Extend(r, target, Flush(k)).flushCount;
    assert r.rotated[f..][..g - f] == r.rotated[f..g] && r.rotated[f..][g - f..] == r.rotated[g..];
    assert r.rotated[r.trimCount..f] + r.rotated[f..g] == r.rotated[r.trimCount..g];
  }

  lemma SplitTail(sizes: seq<nat>, i: nat, f: nat)
    requires i <= f <= |sizes|
    ensures sizes[i..] == sizes[i..f] + sizes[f..]
  {}

  lemma TrimHolds(m: Memory, target: nat, r: Record)
    requires Holds(m, r)
    ensures Holds(Apply(m, target, Trim), Extend(r, target, Trim))
  {
    var n, f := r.trimCount, r.flushCount;
    if n < f {
      TotalConcat(r.rotated[n + 1..f], r.rotated[f..]);
      SplitTail(r.rotated, n + 1, f);
      assert m.flushed[1..] == r.rotated[n + 1..f];
    }
  }

  // Over every run, memory holds exactly what the steps say: no unflushed
  // buffer is ever dropped, and of the flushed ones only the oldest, by trims
  // that leave the target.
  lemma {:induction false} HistoryIsLatest(target: nat, steps: seq<Step>)
    ensures Holds(Run(target, steps), RecordOf(target, steps))
  {
    if steps != [] {
      var before := steps[..|steps| - 1];
      HistoryIsLatest(target, before);
      var m, r := Run(target, before), RecordOf(target, before);
      match steps[|steps| - 1] {
        case Write(_) =>
        case Rotate => RotateHolds(m, target, r);
        case Flush(k) => FlushHolds(m, target, r, k);
        case Trim => TrimHolds(m, target, r);
      }
    }
  }

  // A flush turns the oldest unflushed buffers into the latest flushed ones.
  lemma FlushMovesOldest(m: Memory, target: nat, k: nat)
    ensures var t := Apply(m, target, Flush(k));
            && t.flushed + t.unflushed == m.flushed + m.unflushed
            && |t.unflushed| == (if k <= |m.unflushed| then |m.unflushed| - k else 0)
            && t.active == m.active
  {
    var n := if k <= |m.unflushed| then k else |m.unflushed|;
    assert m.unflushed == m.unflushed[..n] + m.unflushed[n..];
  }

  // ----- exhaustive trimming -----

  function TrimAll(m: Memory, target: nat): Memory
    decreases |m.flushed|
  {
    if CanTrim(m, target) then TrimAll(Apply(m, target, Trim), target) else m
  }

  // Trimming removes the longest run of oldest flushed buffers that leaves
  // the target: removing d of them is possible exactly up to where it stops.
  lemma {:induction false} TrimAllExact(m: Memory, target: nat) returns (d: nat)
    requires InMemory(m) >= target
    ensures d <= |m.flushed| && TrimAll(m, target) == m.(flushed := m.flushed[d..])
    ensures forall k | 0 <= k <= |m.flushed| :: InMemory(m.(flushed := m.flushed[k..])) >= target <==> k <= d
    decreases |m.flushed|
  {
    assert m.flushed[0..] == m.flushed;
    if CanTrim(m, target) {
      var next := Apply(m, target, Trim);
      var e := TrimAllExact(next, target);
      d := e + 1;
      assert next.flushed[e..] == m.flushed[d..];
      forall k | 0 <= k <= |m.flushed| ensures InMemory(m.(flushed := m.flushed[k..])) >= target <==> k <= d {
        if k > 0 { assert next.flushed[k - 1..] == m.flushed[k..]; }
      }
    } else {
      d := 0;
      forall k | 0 < k <= |m.flushed| ensures InMemory(m.(flushed := m.flushed[k..])) < target {
        SuffixTotal(m.flushed, 1, k);
        assert Total(m.flushed) == m.flushed[0] + Total(m.flushed[1..]);
      }
    }
  }

  // With a target of 0 every flushed buffer is freed, and nothing else.
  lemma {:induction false} ZeroTargetKeepsNoHistory(m: Memory)
    ensures TrimAll(m, 0) == m.(flushed := [])
    decreases |m.flushed|
  {
    if m.flushed != [] { ZeroTargetKeepsNoHistory(m.(flushed := m.flushed[1..])); }
  }

  lemma {:induction false} SuffixTotal(sizes: seq<nat>, i: nat, k: nat)
    requires i <= k <= |sizes|
    ensures Total(sizes[k..]) <= Total(sizes[i..])
  {
    SplitTail(sizes, i, k);
    TotalConcat(sizes[i..k], sizes[k..]);
  }

  // ----- the mutable list of buffers -----

  class MemtableList {
    const target: nat
    var active: nat
    var unflushed: seq<nat>
    var flushed: seq<nat>

    // max_write_buffer_size_to_maintain, where -1 asks for as much as the
    // mutable and immutable buffers may hold.
    constructor (sizeToMaintain: int, maxWriteBufferNumber: nat, writeBufferSize: nat)
      requires sizeToMaintain >= -1
      ensures target == if sizeToMaintain == -1 then maxWriteBufferNumber * writeBufferSize else sizeToMaintain
      ensures State() == Run(target, [])
    {
      target := if sizeToMaintain == -1 then maxWriteBufferNumber * writeBufferSize else sizeToMaintain;
      active, unflushed, flushed := 0, [], [];
    }

    function State(): Memory
      reads this
    {
      Memory(active, unflushed, flushed)
    }

    method Add(bytes: nat)
      modifies this`active
      ensures State() == Apply(old(State()), target, Write(bytes))
    {
      active := active + bytes;
    }

    method SwitchMemtable()
      modifies this`active, this`unflushed
      ensures State() == Apply(old(State()), target, Rotate)
    {
      unflushed := unflushed + [active];
      active := 0;
    }

    // A finished flush of the oldest buffers, one at a time.
    method FlushOldest(count: nat)
      requires count <= |unflushed|
      modifies this`unflushed, this`flushed
      ensures State() == Apply(old(State()), target, Flush(count))
    {
      var i := 0;
      while i < count
        invariant i <= count
        invariant unflushed == old(unflushed)[i..] && flushed == old(flushed) + old(unflushed)[..i]
      {
        flushed := flushed + [unflushed[0]];
        unflushed := unflushed[1..];
        i := i + 1;
      }
    }

    method TrimHistory()
      modifies this`flushed
      ensures State() == TrimAll(old(State()), target)
      ensures !CanTrim(State(), target)
    {
      while CanTrim(State(), target)
        invariant active == old(active) && unflushed == old(unflushed)
        invariant TrimAll(State(), target) == TrimAll(old(State()), target)
        decreases |flushed|
      {
        flushed := flushed[1..];
      }
    }
  }

  // The three documented situations for a target of 32 (in megabytes).
  lemma DocumentedExamples()
    ensures !CanTrim(Memory(64, [64], []), 32)
    ensures !CanTrim(Memory(16, [], [64]), 32)
    ensures TrimAll(Memory(24, [16], [16]), 32) == Memory(24, [16], [])
  {
    assert Total([64]) == 64 && Total([16]) == 16;
    assert CanTrim(Memory(24, [16], [16]), 32);
  }
}
