// Where each documented kind of segment ends, for every input
// (experimental.h:124-143).
module SegmentKinds {
  import opened Bytes
  import opened KeySegments
  import opened SegmentParsers
  import opened Wrappers

  // What a short parse takes: by prior choice nothing, or all that is left.
  function Short(shortIsEmpty: bool, rest: Slice): nat {
    if shortIsEmpty then 0 else |rest|
  }

  lemma {:induction false} FirstCut(cut: Cut, prev: seq<Slice>, rest: Slice, n: nat)
    requires n <= |rest| && cut(prev, rest[..n]) && forall m: nat | m < n :: !cut(prev, rest[..m])
    ensures CutLength(cut, prev, rest, 0) == Some(n)
  {
    var c := CutLength(cut, prev, rest, 0);
    assert c.Some? && c.value <= n;
  }

  lemma {:induction false} NoCut(cut: Cut, prev: seq<Slice>, rest: Slice)
    requires forall m: nat | m <= |rest| :: !cut(prev, rest[..m])
    ensures CutLength(cut, prev, rest, 0) == None
  {
    var c := CutLength(cut, prev, rest, 0);
  }

  // A fixed number of bytes.
  lemma {:induction false} FixedLengthEnds(n: nat, shortIsEmpty: bool, prev: seq<Slice>, rest: Slice)
    ensures SegmentLength(RuleOf(SegmentSpec(FixedLength(n), shortIsEmpty)), prev, rest) ==
        if n <= |rest| then n else Short(shortIsEmpty, rest)
  {
    var cut := CutOf(FixedLength(n));
    if n <= |rest| { FirstCut(cut, prev, rest, n); } else { NoCut(cut, prev, rest); }
  }

  ghost predicate OccursUpTo(w: Slice, rest: Slice, m: nat) {
    |w| <= m <= |rest| && rest[m - |w|..m] == w
  }

  // Up to and including the first occurrence of the delimiter.
  lemma {:induction false} DelimiterEnds(w: Slice, shortIsEmpty: bool, prev: seq<Slice>, rest: Slice, m: nat)
    requires OccursUpTo(w, rest, m) && forall j: nat | j < m :: !OccursUpTo(w, rest, j)
    ensures SegmentLength(RuleOf(SegmentSpec(EndsIn(w), shortIsEmpty)), prev, rest) == m
  {
    forall j: nat | j <= m ensures CutOf(EndsIn(w))(prev, rest[..j]) <==> OccursUpTo(w, rest, j) {
      DelimiterCut(w, prev, rest, j);
    }
    FirstCut(CutOf(EndsIn(w)), prev, rest, m);
  }

  lemma {:induction false} NoDelimiterEnds(w: Slice, shortIsEmpty: bool, prev: seq<Slice>, rest: Slice)
    requires forall j: nat :: !OccursUpTo(w, rest, j)
    ensures SegmentLength(RuleOf(SegmentSpec(EndsIn(w), shortIsEmpty)), prev, rest) == Short(shortIsEmpty, rest)
  {
    forall j: nat | j <= |rest| ensures !CutOf(EndsIn(w))(prev, rest[..j]) {
      DelimiterCut(w, prev, rest, j);
    }
    NoCut(CutOf(EndsIn(w)), prev, rest);
  }

  lemma DelimiterCut(w: Slice, prev: seq<Slice>, rest: Slice, j: nat)
    requires j <= |rest|
    ensures CutOf(EndsIn(w))(prev, rest[..j]) <==> OccursUpTo(w, rest, j)
  {
    if |w| <= j { assert rest[..j][j - |w|..] == rest[j - |w|..j]; }
  }

  // A length byte and then that many bytes, whatever they are.
  lemma {:induction false} LengthPrefixedEnds(n: Byte, body: Slice, r: Slice, shortIsEmpty: bool, prev: seq<Slice>)
    requires |body| == n
    ensures SegmentLength(RuleOf(SegmentSpec(LengthPrefixed, shortIsEmpty)), prev, [n] + body + r) == n + 1
  {
    FirstCut(CutOf(LengthPrefixed), prev, [n] + body + r, n + 1);
  }

  lemma {:induction false} LengthPrefixedShort(n: Byte, body: Slice, shortIsEmpty: bool, prev: seq<Slice>)
    requires |body| < n
    ensures var rule := RuleOf(SegmentSpec(LengthPrefixed, shortIsEmpty));
            && SegmentLength(rule, prev, [n] + body) == Short(shortIsEmpty, [n] + body)
            && SegmentLength(rule, prev, []) == 0
  {
    NoCut(CutOf(LengthPrefixed), prev, [n] + body);
    NoCut(CutOf(LengthPrefixed), prev, []);
  }

  // As many bytes as the first byte of an earlier segment says; none where
  // there is no such byte.
  lemma {:induction false} LengthFromEnds(index: nat, shortIsEmpty: bool, prev: seq<Slice>, rest: Slice)
    ensures var n := if index < |prev| && prev[index] != [] then prev[index][0] else 0;
            SegmentLength(RuleOf(SegmentSpec(LengthFrom(index), shortIsEmpty)), prev, rest) ==
              if n <= |rest| then n else Short(shortIsEmpty, rest)
  {
    var cut, n := CutOf(LengthFrom(index)), FirstByteOf(prev, index);
    if n <= |rest| { FirstCut(cut, prev, rest, n); } else { NoCut(cut, prev, rest); }
  }

  // Everything that is left.
  lemma {:induction false} RestEnds(shortIsEmpty: bool, prev: seq<Slice>, rest: Slice)
    ensures SegmentLength(RuleOf(SegmentSpec(Rest, shortIsEmpty)), prev, rest) == |rest|
  {
    NoCut(CutOf(Rest), prev, rest);
  }

  // ----- the reported ends -----

  lemma {:induction false} ReportedAt(rules: seq<Rule>, key: Slice, i: nat, j: nat)
    requires j < i <= |rules|
    ensures Segment(SplitBy(rules, key), j) == SegmentsOf(rules, i, key)[j]
  {
    SegmentAt(rules, key, j);
    FewerSegments(rules, i, j + 1, key);
    assert SegmentsOf(rules, i, key)[..j + 1][j] == SegmentsOf(rules, i, key)[j];
  }

  lemma {:induction false} ReportedBefore(rules: seq<Rule>, key: Slice, i: nat, prev: seq<Slice>)
    requires i <= |rules| && |prev| == i
    requires forall j: nat | j < i :: prev[j] == Segment(SplitBy(rules, key), j)
    ensures prev == SegmentsOf(rules, i, key)
  {
    forall j: nat | j < i ensures prev[j] == SegmentsOf(rules, i, key)[j] {
      ReportedAt(rules, key, i, j);
    }
  }

  lemma {:induction false} StartBehind(rules: seq<Rule>, key: Slice, i: nat)
    requires i <= |rules|
    ensures SplitBy(rules, key).Start(i) == |Flatten(SegmentsOf(rules, i, key))|
  {
    SplitBySegments(rules, key);
    StartOf(SplitBy(rules, key), SegmentsOf(rules, |rules|, key), i);
    FewerSegments(rules, |rules|, i, key);
  }

  // Segment i of a key, as reported, is what its kind takes from where
  // segment i - 1 ends, given the segments reported before it.
  lemma {:induction false} ReportedSegment(specs: seq<SegmentSpec>, key: Slice, i: nat, prev: seq<Slice>)
    requires i < |specs| && |prev| == i
    requires forall j: nat | j < i :: prev[j] == Segment(SplitBy(RulesOf(specs), key), j)
    ensures var p := SplitBy(RulesOf(specs), key);
            var rest := key[p.Start(i)..];
            Segment(p, i) == rest[..SegmentLength(RuleOf(specs[i]), prev, rest)]
  {
    ReportedBefore(RulesOf(specs), key, i, prev);
    StartBehind(RulesOf(specs), key, i);
    SegmentAt(RulesOf(specs), key, i);
  }

  // ----- the four-segment example on keys that have all four -----

  lemma {:induction false} ColonFirst(a: Slice)
    requires COLON !in a
    ensures CutLength(CutOf(EndsIn([COLON])), [], a + [COLON], 0) == Some(|a| + 1)
  {
    var key := a + [COLON];
    forall j: nat | j <= |key| ensures CutOf(EndsIn([COLON]))([], key[..j]) <==> j == |key| {
      DelimiterCut([COLON], [], key, j);
      if j > 0 { assert key[j - 1..j] == [key[j - 1]]; }
    }
    FirstCut(CutOf(EndsIn([COLON])), [], key, |key|);
  }

  lemma {:induction false} WholeCompletes(rules: seq<Rule>, ss: seq<Slice>, j: nat, kind: Kind)
    requires j < |rules| && j < |ss| && rules[j].cut == CutOf(kind) && kind != Rest
    requires match kind
             case FixedLength(n) => |ss[j]| == n
             case EndsIn(w) =>
               w == [COLON] && j == 0 && ss[j] != [] && ss[j][|ss[j]| - 1] == COLON && COLON !in ss[j][..|ss[j]| - 1]
             case LengthPrefixed => ss[j] != [] && |ss[j]| - 1 == ss[j][0]
             case LengthFrom(_) => false
    ensures Completes(rules, ss, j)
  {
    var s := ss[j];
    if kind.EndsIn? {
      ColonFirst(s[..|s| - 1]);
      assert s == s[..|s| - 1] + [COLON] && ss[..0] == [];
    } else {
      FirstCut(CutOf(kind), ss[..j], s, |s|);
    }
  }

  lemma {:induction false} ThreeComplete(specs: seq<SegmentSpec>, allOrNothing: bool, ss: seq<Slice>)
    requires specs == FourSegments(allOrNothing) && |ss| == 3
    requires ss[0] != [] && ss[0][|ss[0]| - 1] == COLON && COLON !in ss[0][..|ss[0]| - 1]
    requires |ss[1]| == 4 && ss[2] != [] && |ss[2]| - 1 == ss[2][0]
    ensures forall j | 0 <= j < |ss| :: Completes(RulesOf(specs), ss, j)
  {
    WholeCompletes(RulesOf(specs), ss, 0, EndsIn([COLON]));
    WholeCompletes(RulesOf(specs), ss, 1, FixedLength(4));
    WholeCompletes(RulesOf(specs), ss, 2, LengthPrefixed);
  }

  // Bytes up to the first colon, four bytes, a length byte with its bytes,
  // and the rest: the documented segments, in both readings of the second.
  lemma {:induction false} FourSegmentsReported(
      specs: seq<SegmentSpec>, allOrNothing: bool, a: Slice, b: Slice, n: Byte, body: Slice, r: Slice)
    requires specs == FourSegments(allOrNothing) && COLON !in a && |b| == 4 && |body| == n
    ensures var p := SplitBy(RulesOf(specs), a + [COLON] + b + [n] + body + r);
            && Segment(p, 0) == a + [COLON] && Segment(p, 1) == b && Segment(p, 2) == [n] + body
            && Segment(p, 3) == r && forall i: nat | i > 3 :: Segment(p, i) == []
  {
    var rules, ss: seq<Slice> := RulesOf(specs), [a + [COLON], b, [n] + body];
    var key: Slice := a + [COLON] + b + [n] + body + r;
    ThreeComplete(specs, allOrNothing, ss);
    FlattenThree(ss);
    assert key == Flatten(ss) + r;
    SegmentsAfterComplete(rules, ss, r);
    RestEnds(false, ss, r);
    SplitBySegments(rules, key);
    FewerSegments(rules, 4, 3, key);
    var all := SegmentsOf(rules, 4, key);
    assert all[..3] == ss && all[0] == all[..3][0] && all[1] == all[..3][1] && all[2] == all[..3][2];
    forall i: nat ensures Segment(SplitBy(rules, key), i) == if i < 4 then all[i] else [] {
      SegmentOf(SplitBy(rules, key), all, i);
    }
  }

  lemma {:induction false} FlattenThree(ss: seq<Slice>)
    requires |ss| == 3
    ensures Flatten(ss) == ss[0] + ss[1] + ss[2]
  {
    assert ss[..2] + [ss[2]] == ss && ss[..1] + [ss[1]] == ss[..2] && [] + [ss[0]] == ss[..1];
    OneMore([], ss[0]);
    OneMore(ss[..1], ss[1]);
    OneMore(ss[..2], ss[2]);
  }
}
