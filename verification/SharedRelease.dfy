// What is left when every reference is given up (cleanable.h:80-88).
module SharedRelease {
  import opened Cleanables
  import opened ListBags
  import opened SharedCleanables
  import opened SharedConservation
  import opened SharedCounts
  import opened Wrappers

  // ----- reference cycles -----

  // No reference cycle: objects can be ranked so that registered copies only
  // point down.
  ghost predicate RankedBy(s: State, rank: seq<nat>) {
    && |rank| == |s.impls|
    && forall i: nat, j: nat | Alive(s, i) && Alive(s, j) && Unref(j) in s.impls[i].value.list :: rank[j] < rank[i]
  }

  ghost predicate Acyclic(s: State) {
    exists rank: seq<nat> :: RankedBy(s, rank)
  }

  lemma {:induction false} BagHasList(lists: seq<seq<Item>>, x: Item) returns (k: nat)
    requires PendingBag(lists)[x] > 0
    ensures k < |lists| && x in lists[k]
    decreases |lists|
  {
    var n := |lists| - 1;
    if x in lists[n] {
      k := n;
    } else {
      assert multiset(lists[n])[x] == 0;
      k := BagHasList(lists[..n], x);
    }
  }

  lemma {:induction false} OwnerRanksHigher(s: State, rank: seq<nat>, i: nat) returns (k: nat)
    requires Inv(s, []) && Quiescent(s) && RankedBy(s, rank) && Alive(s, i)
    ensures Alive(s, k) && rank[k] > rank[i]
  {
    QuiescentOccurs(s, Unref(i));
    k := BagHasList(ImplLists(s.impls), Unref(i));
  }

  lemma {:induction false} NoHighest(s: State, rank: seq<nat>, i: nat, bound: nat)
    requires Inv(s, []) && Quiescent(s) && RankedBy(s, rank) && Alive(s, i)
    requires forall k | 0 <= k < |rank| :: rank[k] <= bound
    ensures false
    decreases bound - rank[i]
  {
    var k := OwnerRanksHigher(s, rank, i);
    NoHighest(s, rank, k, bound);
  }

  function Highest(rank: seq<nat>): (r: nat)
    ensures forall k | 0 <= k < |rank| :: rank[k] <= r
  {
    if rank == [] then 0
    else
      var r := Highest(rank[1..]);
      assert forall k | 1 <= k < |rank| :: rank[k] == rank[1..][k - 1];
      if rank[0] > r then rank[0] else r
  }

  function Zeros(n: nat): (r: seq<nat>)
    ensures |r| == n
  {
    if n == 0 then [] else [0] + Zeros(n - 1)
  }

  // Once no pointer and no other Cleanable owns anything, every object has
  // been deleted exactly when there is no reference cycle.
  lemma NothingLeftExactlyIfAcyclic(s: State)
    requires Inv(s, []) && Quiescent(s)
    ensures (forall i: nat :: !Alive(s, i)) <==> Acyclic(s)
  {
    if Acyclic(s) {
      var rank :| RankedBy(s, rank);
      forall i: nat ensures !Alive(s, i) {
        if Alive(s, i) { NoHighest(s, rank, i, Highest(rank)); }
      }
    }
    if forall i: nat :: !Alive(s, i) {
      assert RankedBy(s, Zeros(|s.impls|));
    }
  }

  // ----- cycles are settled before the release -----

  ghost predicate HoldsCopy(s: State, k: nat, i: nat) {
    Alive(s, k) && Unref(i) in s.impls[k].value.list
  }

  // Ranking depends only on which objects are alive and whose copies they
  // hold.
  lemma RankSurvives(s: State, t: State, rank: seq<nat>)
    requires RankedBy(s, rank) && |t.impls| == |s.impls|
    requires forall i: nat | Alive(t, i) :: Alive(s, i)
    requires forall i: nat, j: nat | HoldsCopy(t, i, j) :: HoldsCopy(s, i, j)
    ensures RankedBy(t, rank)
  {
    forall i: nat, j: nat | Alive(t, i) && Alive(t, j) && Unref(j) in t.impls[i].value.list ensures rank[j] < rank[i] {
      assert HoldsCopy(t, i, j);
      assert HoldsCopy(s, i, j);
    }
  }

  lemma RunItemsRanked(s: State, items: seq<Item>, rank: seq<nat>)
    requires RankedBy(s, rank)
    ensures RankedBy(RunItems(s, items), rank)
  {
    var t := RunItems(s, items);
    forall i: nat | Alive(t, i) ensures Alive(s, i) && t.impls[i].value.list == s.impls[i].value.list {
      SurvivorsUntouched(s, items, i);
    }
    RankSurvives(s, t, rank);
  }

  // An object about to be deleted is held by no other, so it can be ranked
  // above all of them.
  lemma DeletedRankedAbove(s: State, i: nat, rest: seq<Item>, rank: seq<nat>)
    requires Inv(s, [Unref(i)] + rest) && s.impls[i].value.refs == 1
    requires Alive(s, i) && RankedBy(DropRef(s, i), rank)
    ensures RankedBy(s, rank[i := Highest(rank) + 1])
  {
    var t, high := DropRef(s, i), rank[i := Highest(rank) + 1];
    DropRefInv(s, i, rest);
    assert Refs(t, i) == Occurs(t, Unref(i)) + Times(SetOff(s, i) + rest, Unref(i));
    assert multiset(SetOff(s, i) + rest) == multiset(SetOff(s, i)) + multiset(rest);
    forall k: nat, j: nat | Alive(s, k) && Alive(s, j) && Unref(j) in s.impls[k].value.list ensures high[j] < high[k] {
      HolderCounts(s, t, i, k);
    }
  }

  lemma HolderCounts(s: State, t: State, i: nat, k: nat)
    requires Alive(s, i) && Alive(s, k) && s.impls[i].value.refs == 1 && t == DropRef(s, i)
    requires Occurs(t, Unref(i)) == 0 && Times(s.impls[i].value.list, Unref(i)) == 0
    ensures Unref(i) !in s.impls[k].value.list
  {
    if k != i { HeldOccurs(t, k, i); }
  }

  // What a live object holds is among what is held anywhere.
  lemma HeldOccurs(s: State, k: nat, i: nat)
    requires Alive(s, k)
    ensures Times(s.impls[k].value.list, Unref(i)) <= Occurs(s, Unref(i))
  {
    ImplUpdate(s, k, None, Unref(i));
  }

  lemma KeptRanked(s: State, i: nat, rank: seq<nat>)
    requires Alive(s, i) && s.impls[i].value.refs > 1 && RankedBy(DropRef(s, i), rank)
    ensures RankedBy(s, rank)
  {
    var t := DropRef(s, i);
    RankSurvives(t, s, rank);
  }

  lemma DropRefAcyclic(s: State, i: nat, rest: seq<Item>)
    requires Inv(s, [Unref(i)] + rest) && Acyclic(DropRef(s, i))
    ensures Acyclic(s)
  {
    DropRefInv(s, i, rest);
    var rank :| RankedBy(DropRef(s, i), rank);
    if s.impls[i].value.refs == 1 {
      DeletedRankedAbove(s, i, rest, rank);
    } else {
      KeptRanked(s, i, rank);
    }
  }

  lemma SameObjectsAcyclic(s: State, t: State)
    requires Acyclic(s) && t.impls == s.impls
    ensures Acyclic(t)
  {
    var rank :| RankedBy(s, rank);
    RankSurvives(s, t, rank);
  }

  // A pass breaks no cycle.
  lemma RunItemsAcyclic(s: State, items: seq<Item>)
    requires Inv(s, items) && Acyclic(RunItems(s, items))
    ensures Acyclic(s)
  {
    var p := (t: State, running: seq<Item>) => Inv(t, running) && !Acyclic(t);
    forall t, cb, rest ensures CallKeeps(t, cb, rest, p) {
      var u := t.(ran := t.ran + [cb]);
      if Inv(t, [User(cb)] + rest) { UserInv(t, cb, rest); }
      if Acyclic(u) { SameObjectsAcyclic(u, t); }
    }
    forall t, i, rest ensures DropKeeps(t, i, rest, p) {
      if Inv(t, [Unref(i)] + rest) {
        DropRefInv(t, i, rest);
        if Acyclic(DropRef(t, i)) { DropRefAcyclic(t, i, rest); }
      }
    }
    assert items + [] == items;
    if !Acyclic(s) { PassKeeps(s, items, [], p); }
  }

  // Giving up references: resetting or destroying pointers and Cleanables
  // that are not themselves shared.
  predicate GivesUp(op: Op) {
    op.ResetPtr? || (op.ResetTarget? && op.target.Holder?)
  }

  // The state in which the pass of such an operation starts, and its list.
  function PassStart(s: State, op: Op): (State, seq<Item>)
    requires OpOk(s, op) && GivesUp(op)
  {
    match op
    case ResetPtr(p) => (s.(ptrs := s.ptrs[p := None]), PtrItems(s.ptrs[p]))
    case ResetTarget(t) => (s.(holders := s.holders[t.k := []]), s.holders[t.k])
  }

  lemma PassStartInv(s: State, op: Op)
    requires Inv(s, []) && OpOk(s, op) && GivesUp(op)
    ensures var (t, items) := PassStart(s, op); Inv(t, items) && Step(s, op) == RunItems(t, items)
  {
    var (t, items) := PassStart(s, op);
    match op {
      case ResetPtr(p) =>
        forall j: nat ensures Balanced(s, [], t, items, j) { DropPtrBalanced(s, p, j); }
        assert s.ptrs[p].None? ==> t == s;
      case ResetTarget(target) =>
        forall j: nat ensures Balanced(s, [], t, items, j) { TakeListBalanced(s, AtHolder(target.k), j); }
    }
    BalancedKeepsInv(s, [], t, items);
  }

  lemma GivingUpKeepsCycles(s: State, op: Op)
    requires Inv(s, []) && OpOk(s, op) && GivesUp(op)
    ensures Acyclic(Step(s, op)) <==> Acyclic(s)
  {
    var (t, items) := PassStart(s, op);
    PassStartInv(s, op);
    if Acyclic(s) {
      SameObjectsAcyclic(s, t);
      var rank :| RankedBy(t, rank);
      RunItemsRanked(t, items, rank);
    }
    if Acyclic(Step(s, op)) {
      RunItemsAcyclic(t, items);
      SameObjectsAcyclic(t, s);
    }
  }

  ghost predicate AllGiveUp(ops: seq<Op>) {
    forall k | 0 <= k < |ops| :: GivesUp(ops[k])
  }

  lemma {:induction false} GivingAllUpKeepsCycles(s: State, ops: seq<Op>)
    requires Inv(s, []) && RunOk(s, ops) && AllGiveUp(ops)
    ensures Acyclic(Run(s, ops)) <==> Acyclic(s)
    decreases ops
  {
    if ops != [] {
      assert GivesUp(ops[0]);
      GivingUpKeepsCycles(s, ops[0]);
      StepKeepsInv(s, ops[0]);
      GivingAllUpKeepsCycles(Step(s, ops[0]), ops[1..]);
    }
  }

  // Giving up every pointer and every other Cleanable, in any order, deletes
  // every shared object exactly when there was no reference cycle before.
  lemma ReleasedExactlyIfAcyclic(s: State, ops: seq<Op>)
    requires Inv(s, []) && RunOk(s, ops) && AllGiveUp(ops) && Quiescent(Run(s, ops))
    ensures (forall i: nat :: !Alive(Run(s, ops), i)) <==> Acyclic(s)
  {
    RunKeepsCounts(s, ops);
    GivingAllUpKeepsCycles(s, ops);
    NothingLeftExactlyIfAcyclic(Run(s, ops));
  }

  // Object k of the cycle holds a copy of a pointer to the one after it.
  ghost predicate HoldsNext(s: State, cycle: seq<nat>, k: nat) {
    k < |cycle| && HoldsCopy(s, cycle[k], cycle[if k + 1 < |cycle| then k + 1 else 0])
  }

  ghost predicate IsCycle(s: State, cycle: seq<nat>) {
    forall k: nat | k < |cycle| :: HoldsNext(s, cycle, k)
  }

  lemma HeldTwice(s: State, i: nat, rest: seq<Item>, k: nat)
    requires Inv(s, [Unref(i)] + rest) && HoldsCopy(s, k, i)
    ensures Alive(s, i) && s.impls[i].value.refs >= 2
  {
    HeldOccurs(s, k, i);
    TimesHead([Unref(i)], rest, Unref(i));
    assert Refs(s, i) >= 2;
  }

  lemma DropRefKeepsLink(s: State, i: nat, rest: seq<Item>, cycle: seq<nat>, k: nat)
    requires Inv(s, [Unref(i)] + rest) && IsCycle(s, cycle) && k < |cycle|
    ensures HoldsNext(DropRef(s, i), cycle, k)
  {
    assert HoldsNext(s, cycle, k);
    if cycle[k] == i {
      var before: nat := if k == 0 then |cycle| - 1 else k - 1;
      assert HoldsNext(s, cycle, before);
      HeldTwice(s, i, rest, cycle[before]);
    }
  }

  lemma PassKeepsCycle(s: State, items: seq<Item>, cycle: seq<nat>)
    requires Inv(s, items) && IsCycle(s, cycle)
    ensures IsCycle(RunItems(s, items), cycle)
  {
    var p := (t: State, running: seq<Item>) => Inv(t, running) && IsCycle(t, cycle);
    forall t, cb, rest ensures CallKeeps(t, cb, rest, p) {
      if p(t, [User(cb)] + rest) {
        UserInv(t, cb, rest);
        SameObjectsKeepCycle(t, t.(ran := t.ran + [cb]), cycle);
      }
    }
    forall t, i, rest ensures DropKeeps(t, i, rest, p) {
      if p(t, [Unref(i)] + rest) {
        DropRefInv(t, i, rest);
        forall k: nat | k < |cycle| ensures HoldsNext(DropRef(t, i), cycle, k) {
          DropRefKeepsLink(t, i, rest, cycle, k);
        }
      }
    }
    assert items + [] == items;
    PassKeeps(s, items, [], p);
  }

  lemma SameObjectsKeepCycle(s: State, t: State, cycle: seq<nat>)
    requires t.impls == s.impls && IsCycle(s, cycle)
    ensures IsCycle(t, cycle)
  {
    forall k: nat | k < |cycle| ensures HoldsNext(t, cycle, k) {
      assert HoldsNext(s, cycle, k);
    }
  }

  // Objects on a cycle outlive every pointer and every other Cleanable.
  lemma {:induction false} CycleNeverReleased(s: State, ops: seq<Op>, cycle: seq<nat>)
    requires Inv(s, []) && RunOk(s, ops) && AllGiveUp(ops) && IsCycle(s, cycle)
    ensures IsCycle(Run(s, ops), cycle)
    ensures forall i | i in cycle :: Alive(Run(s, ops), i)
    decreases ops
  {
    if ops != [] {
      assert GivesUp(ops[0]);
      var (t, items) := PassStart(s, ops[0]);
      PassStartInv(s, ops[0]);
      SameObjectsKeepCycle(s, t, cycle);
      PassKeepsCycle(t, items, cycle);
      StepKeepsInv(s, ops[0]);
      CycleNeverReleased(Step(s, ops[0]), ops[1..], cycle);
    } else {
      forall k: nat | k < |cycle| ensures Alive(s, cycle[k]) { assert HoldsNext(s, cycle, k); }
    }
  }

  // ----- resetting shared objects as well -----

  predicate Resets(op: Op) {
    op.ResetPtr? || op.ResetTarget?
  }

  ghost predicate AllReset(ops: seq<Op>) {
    forall k | 0 <= k < |ops| :: Resets(ops[k])
  }

  lemma ResetKeepsAcyclic(s: State, op: Op)
    requires OpOk(s, op) && Resets(op) && Acyclic(s)
    ensures Acyclic(Step(s, op))
  {
    var rank :| RankedBy(s, rank);
    match op {
      case ResetPtr(p) =>
        if s.ptrs[p].Some? {
          var t := s.(ptrs := s.ptrs[p := None]);
          RankSurvives(s, t, rank);
          RunItemsRanked(t, [Unref(s.ptrs[p].value)], rank);
        }
      case ResetTarget(target) =>
        var a := Resolve(s, target);
        EmptiedRanked(s, a, rank);
        RunItemsRanked(SetList(s, a, []), ListAt(s, a), rank);
    }
  }

  lemma EmptiedRanked(s: State, a: Place, rank: seq<nat>)
    requires PlaceOk(s, a) && RankedBy(s, rank)
    ensures RankedBy(SetList(s, a, []), rank)
  {
    var t := SetList(s, a, []);
    forall i: nat, j: nat | HoldsCopy(t, i, j) ensures HoldsCopy(s, i, j) {}
    RankSurvives(s, t, rank);
  }

  // Without a cycle, resetting pointers, other Cleanables and shared objects
  // in any order leaves nothing once no pointer and no other Cleanable owns
  // anything.
  lemma {:induction false} AcyclicReleased(s: State, ops: seq<Op>)
    requires Inv(s, []) && RunOk(s, ops) && AllReset(ops) && Quiescent(Run(s, ops)) && Acyclic(s)
    ensures forall i: nat :: !Alive(Run(s, ops), i)
    decreases ops
  {
    if ops == [] {
      NothingLeftExactlyIfAcyclic(s);
    } else {
      assert Resets(ops[0]);
      ResetKeepsAcyclic(s, ops[0]);
      StepKeepsInv(s, ops[0]);
      AcyclicReleased(Step(s, ops[0]), ops[1..]);
    }
  }

  lemma NoRegistrations(ops: seq<Op>, cb: Callback)
    requires AllReset(ops)
    ensures Registrations(ops, cb) == 0
    decreases ops
  {
    if ops != [] {
      assert Resets(ops[0]);
      NoRegistrations(ops[1..], cb);
    }
  }

  // Build up anything without a cycle, then release everything: each callback
  // has run exactly as often as it was registered.
  lemma ReleasedRunsEachOnce(s: State, build: seq<Op>, release: seq<Op>, cb: Callback)
    requires Initial(s) && RunOk(s, build) && Acyclic(Run(s, build))
    requires RunOk(Run(s, build), release) && AllReset(release) && Quiescent(Run(Run(s, build), release))
    ensures multiset(Run(Run(s, build), release).ran)[cb] == Registrations(build, cb)
  {
    var t := Run(s, build);
    var u := Run(t, release);
    InitialInv(s);
    RunKeepsCounts(s, build);
    AcyclicReleased(t, release);
    RunConservesCallbacks(s, build, cb);
    RunConservesCallbacks(t, release, cb);
    NoRegistrations(release, cb);
    NothingOccurs(s, User(cb));
    NothingOccurs(u, User(cb));
  }

  // ----- the documented cycle -----

  // A pointer, not copied anywhere else, with one callback registered at its
  // object, and one other, empty Cleanable.
  function OneShared(a: Callback): State {
    State([Some(Impl(1, [User(a)]))], [Some(0)], [[]], [])
  }

  lemma InsertSecond(x: Item, y: Item)
    ensures Insert([x], y) == [x, y]
  {}

  // The documented cycle: an object that holds a copy of a pointer to itself
  // outlives every pointer, and its callbacks never run.
  lemma SelfCopyNeverReleased(a: Callback)
    requires a.fn != NULL_FUNCTION
    ensures var s := Step(OneShared(a), RegisterCopyWith(0, PointeeOf(0)));
            var t := Step(s, ResetPtr(0));
            Quiescent(t) && Alive(t, 0) && t.ran == [] && !Acyclic(t)
  {
    var o := OneShared(a);
    var s := Step(o, RegisterCopyWith(0, PointeeOf(0)));
    var t := Step(s, ResetPtr(0));
    InsertSecond(User(a), Unref(0));
    assert o.impls[0 := Some(Impl(2, [User(a)]))][0 := Some(Impl(2, [User(a), Unref(0)]))] ==
        [Some(Impl(2, [User(a), Unref(0)]))];
    assert s.impls == [Some(Impl(2, [User(a), Unref(0)]))];
    assert s.ptrs[0 := None] == [None];
    UnrefOnly(s.(ptrs := [None]), 0);
    assert t.impls == [Some(Impl(1, [User(a), Unref(0)]))];
    forall rank: seq<nat> ensures !RankedBy(t, rank) {
      assert Unref(0) in t.impls[0].value.list;
    }
  }

  // A cycle can still be broken by resetting one of its objects through a
  // pointer: that is why the exact condition is about giving up the others.
  lemma ResettingPointeeBreaksCycle(a: Callback)
    requires a.fn != NULL_FUNCTION
    ensures var s := State([Some(Impl(2, [User(a), Unref(0)]))], [Some(0)], [[]], []);
            var t := Step(s, ResetTarget(PointeeOf(0)));
            !Acyclic(s) && !Alive(Step(t, ResetPtr(0)), 0) && Step(t, ResetPtr(0)).ran == [a]
  {
    var s := State([Some(Impl(2, [User(a), Unref(0)]))], [Some(0)], [[]], []);
    var emptied := s.(impls := [Some(Impl(2, []))]);
    assert SetList(s, AtImpl(0), []) == emptied;
    assert [User(a), Unref(0)] == [User(a)] + [Unref(0)];
    RunItemsSplit(emptied, [User(a)], [Unref(0)]);
    RunUser(emptied, a);
    UnrefOnly(emptied.(ran := [a]), 0);
    var t := Step(s, ResetTarget(PointeeOf(0)));
    assert t.impls == [Some(Impl(1, []))] && t.ran == [a];
    LastUnref(t.(ptrs := t.ptrs[0 := None]), 0);
    forall rank: seq<nat> ensures !RankedBy(s, rank) {
      assert Unref(0) in s.impls[0].value.list;
    }
  }

  lemma LastUnref(s: State, i: nat)
    requires Alive(s, i) && s.impls[i].value == Impl(1, [])
    ensures RunItems(s, [Unref(i)]) == s.(impls := s.impls[i := None])
  {}
}
