// Any number of Cleanables under any interleaving of registering,
// delegating, resetting and destroying (cleanable.h:22-77).
module CleanableRuns {
  import opened Cleanables
  import opened ListBags

  // Destroying a holder runs its callbacks like Reset and never uses it again.
  datatype Op =
    | Register(holder: nat, cb: Callback)
    | Delegate(from: nat, to: nat)
    | ResetOrDestroy(holder: nat)

  // What each holder still has to run, and what has run so far.
  datatype World = World(pending: seq<seq<Callback>>, ran: seq<Callback>)

  predicate OpOk(n: nat, op: Op) {
    match op
    case Register(i, cb) => i < n && cb.fn != NULL_FUNCTION
    case Delegate(i, j) => i < n && j < n && i != j
    case ResetOrDestroy(i) => i < n
  }

  function Step(w: World, op: Op): World
    requires OpOk(|w.pending|, op)
  {
    match op
    case Register(i, cb) => w.(pending := w.pending[i := Insert(w.pending[i], cb)])
    case Delegate(i, j) => w.(pending := w.pending[i := []][j := InsertAll(w.pending[j], w.pending[i])])
    case ResetOrDestroy(i) => World(w.pending[i := []], w.ran + w.pending[i])
  }

  ghost predicate OpsOk(n: nat, ops: seq<Op>) {
    forall k | 0 <= k < |ops| :: OpOk(n, ops[k])
  }

  function Run(w: World, ops: seq<Op>): (r: World)
    requires OpsOk(|w.pending|, ops)
    ensures |r.pending| == |w.pending|
    decreases ops
  {
    if ops == [] then w else Run(Step(w, ops[0]), ops[1..])
  }

  // ----- conservation -----

  function RegisteredBag(ops: seq<Op>): multiset<Callback>
    decreases ops
  {
    if ops == [] then multiset{}
    else (if ops[0].Register? then multiset{ops[0].cb} else multiset{}) + RegisteredBag(ops[1..])
  }

  lemma {:induction false} InsertAllBag(contents: seq<Callback>, cbs: seq<Callback>)
    ensures multiset(InsertAll(contents, cbs)) == multiset(contents) + multiset(cbs)
    decreases cbs
  {
    if cbs != [] {
      InsertBag(contents, cbs[0]);
      InsertAllBag(Insert(contents, cbs[0]), cbs[1..]);
      assert cbs == [cbs[0]] + cbs[1..];
    }
  }

  ghost function Bag(w: World): multiset<Callback> {
    multiset(w.ran) + PendingBag(w.pending)
  }

  lemma DelegateConserves(pending: seq<seq<Callback>>, i: nat, j: nat)
    requires i < |pending| && j < |pending| && i != j
    ensures PendingBag(pending[i := []][j := InsertAll(pending[j], pending[i])]) == PendingBag(pending)
  {
    var emptied, all := pending[i := []], InsertAll(pending[j], pending[i]);
    PendingUpdate(pending, i, []);
    PendingUpdate(emptied, j, all);
    InsertAllBag(pending[j], pending[i]);
    assert emptied[j] == pending[j];
    var x, y, z, u, v := PendingBag(pending), PendingBag(emptied), PendingBag(emptied[j := all]),
        multiset(pending[i]), multiset(pending[j]);
    assert y + u == x && z + v == y + (v + u);
    BagCancel(z, v, y + u);
  }

  lemma BagCancel(z: multiset<Callback>, v: multiset<Callback>, x: multiset<Callback>)
    requires z + v == x + v
    ensures z == x
  {
    assert (z + v) - v == z && (x + v) - v == x;
  }

  lemma StepConserves(w: World, op: Op)
    requires OpOk(|w.pending|, op)
    ensures Bag(Step(w, op)) == Bag(w) + if op.Register? then multiset{op.cb} else multiset{}
  {
    match op {
      case Register(i, cb) =>
        PendingUpdate(w.pending, i, Insert(w.pending[i], cb));
        InsertBag(w.pending[i], cb);
        BagCancel(PendingBag(Step(w, op).pending), multiset(w.pending[i]), PendingBag(w.pending) + multiset{cb});
      case Delegate(i, j) =>
        DelegateConserves(w.pending, i, j);
      case ResetOrDestroy(i) =>
        PendingUpdate(w.pending, i, []);
        var ran, here, rest := multiset(w.ran), multiset(w.pending[i]), PendingBag(w.pending[i := []]);
        assert (ran + here) + rest == ran + (rest + here);
    }
  }

  // Executed plus pending is always what was registered.
  lemma {:induction false} RunConserves(w: World, ops: seq<Op>)
    requires OpsOk(|w.pending|, ops)
    ensures Bag(Run(w, ops)) == Bag(w) + RegisteredBag(ops)
    decreases ops
  {
    if ops != [] {
      StepConserves(w, ops[0]);
      RunConserves(Step(w, ops[0]), ops[1..]);
    }
  }

  function Start(n: nat): (w: World)
    ensures |w.pending| == n && w.ran == [] && forall i | 0 <= i < n :: w.pending[i] == []
  {
    if n == 0 then World([], []) else Start(n - 1).(pending := Start(n - 1).pending + [[]])
  }

  // Destroying the holders, one after the other.
  function DestroyAll(w: World, k: nat): (r: World)
    requires k <= |w.pending|
    ensures |r.pending| == |w.pending|
    ensures forall i | 0 <= i < k :: r.pending[i] == []
    ensures Bag(r) == Bag(w)
  {
    if k == 0 then w
    else
      var before := DestroyAll(w, k - 1);
      StepConserves(before, ResetOrDestroy(k - 1));
      Step(before, ResetOrDestroy(k - 1))
  }

  // Whatever was done before, once every holder is gone each registered
  // callback has run exactly as often as it was registered.
  lemma DestroyingAllRunsEachOnce(n: nat, ops: seq<Op>)
    requires OpsOk(n, ops)
    ensures multiset(DestroyAll(Run(Start(n), ops), n).ran) == RegisteredBag(ops)
  {
    AllEmptyBag(Start(n).pending);
    RunConserves(Start(n), ops);
    AllEmptyBag(DestroyAll(Run(Start(n), ops), n).pending);
  }

  // ----- the same on the heap -----

  // Distinct, valid objects that share no record; `all` holds every record.
  ghost predicate Separate(cs: seq<Cleanable>, all: set<Cleanup>)
    reads cs, all
  {
    && (forall i | 0 <= i < |cs| :: cs[i].records <= all && cs[i].Valid())
    && (forall i, j | 0 <= i < |cs| && 0 <= j < |cs| && i != j :: cs[i] != cs[j] && cs[i].records !! cs[j].records)
  }

  ghost function Pending(cs: seq<Cleanable>): seq<seq<Callback>>
    reads cs
  {
    seq(|cs|, i requires 0 <= i < |cs| reads cs => cs[i].contents)
  }

  method Perform(cs: seq<Cleanable>, log: CallLog, op: Op, ghost all: set<Cleanup>) returns (ghost all2: set<Cleanup>)
    requires Separate(cs, all) && OpOk(|cs|, op)
    modifies cs, all, log
    ensures Separate(cs, all2) && all <= all2 && fresh(all2 - all)
    ensures World(Pending(cs), log.ran) == Step(World(old(Pending(cs)), old(log.ran)), op)
  {
    match op {
      case Register(i, cb) =>
        cs[i].RegisterCleanup(cb);
        all2 := all + cs[i].records;
      case Delegate(i, j) =>
        all2 := PerformDelegate(cs, i, j, all);
      case ResetOrDestroy(i) =>
        cs[i].Reset(log);
        all2 := all;
    }
  }

  method PerformDelegate(cs: seq<Cleanable>, i: nat, j: nat, ghost all: set<Cleanup>) returns (ghost all2: set<Cleanup>)
    requires Separate(cs, all) && i < |cs| && j < |cs| && i != j
    modifies cs, all
    ensures Separate(cs, all2) && all <= all2 && fresh(all2 - all)
    ensures Pending(cs) == old(Pending(cs))[i := []][j := InsertAll(old(Pending(cs))[j], old(Pending(cs))[i])]
  {
    cs[i].DelegateCleanupsTo(cs[j]);
    all2 := all + cs[j].records;
  }

  method PerformAll(cs: seq<Cleanable>, log: CallLog, ops: seq<Op>, ghost all: set<Cleanup>)
      returns (ghost all2: set<Cleanup>)
    requires Separate(cs, all) && OpsOk(|cs|, ops)
    modifies cs, all, log
    ensures Separate(cs, all2) && fresh(all2 - all)
    ensures World(Pending(cs), log.ran) == Run(World(old(Pending(cs)), old(log.ran)), ops)
  {
    ghost var w := World(Pending(cs), log.ran);
    var k := 0;
    all2 := all;
    while k < |ops|
      invariant 0 <= k <= |ops| && Separate(cs, all2) && fresh(all2 - all)
      invariant OpsOk(|cs|, ops[k..]) && Run(World(Pending(cs), log.ran), ops[k..]) == Run(w, ops)
    {
      assert ops[k..][0] == ops[k] && ops[k..][1..] == ops[k + 1..];
      all2 := Perform(cs, log, ops[k], all2);
      k := k + 1;
    }
  }
}
