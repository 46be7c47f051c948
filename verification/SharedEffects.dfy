// What each operation leaves in the pointers, in the counts and in the
// Cleanables that are not shared (cleanable.h:89-122).
module SharedEffects {
  import opened ListBags
  import opened SharedCleanables
  import opened SharedConservation
  import opened SharedCounts
  import opened SharedReach
  import opened SharedRelease
  import opened Wrappers

  // ----- pointers -----

  // An operation changes the pointers it is called on and no other; a copy
  // leaves its source, registering one leaves the pointer, and moving empties
  // it.
  lemma StepPointers(s: State, op: Op)
    requires OpOk(s, op)
    ensures Step(s, op).ptrs ==
        match op
        case Allocate(p) => s.ptrs[p := Some(|s.impls|)]
        case ResetPtr(p) => s.ptrs[p := None]
        case CopyAssign(p, q) => s.ptrs[p := s.ptrs[q]]
        case MoveAssign(p, q) => s.ptrs[p := s.ptrs[q]][q := None]
        case MoveAsCleanupTo(p, _) => s.ptrs[p := None]
        case RegisterCleanup(_, _) => s.ptrs
        case RegisterCopyWith(_, _) => s.ptrs
        case ResetTarget(_) => s.ptrs
  {
    match op {
      case CopyAssign(p, q) => assert p == q || s.ptrs[q].None? ==> s.ptrs[p := s.ptrs[q]] == Step(s, op).ptrs;
      case MoveAsCleanupTo(p, t) => assert s.ptrs[p].None? ==> s.ptrs[p := None] == s.ptrs;
      case _ =>
    }
  }

  // ----- counts after a copy -----

  predicate KeepsItem(before: seq<seq<Item>>, after: seq<seq<Item>>, x: Item, k: nat)
    requires k < |before| == |after|
  {
    x in before[k] ==> after[k] == before[k]
  }

  // Lists of which some have been emptied hold an item as often as before
  // exactly when none of the emptied ones held it.
  lemma {:induction false} EmptiedLists(before: seq<seq<Item>>, after: seq<seq<Item>>, x: Item)
    requires |after| == |before|
    requires forall k: nat | k < |before| :: after[k] == before[k] || after[k] == []
    ensures PendingBag(after)[x] <= PendingBag(before)[x]
    ensures PendingBag(after)[x] == PendingBag(before)[x] <==>
            forall k: nat | k < |before| :: KeepsItem(before, after, x, k)
    decreases |before|
  {
    if before != [] {
      var n: nat := |before| - 1;
      forall k: nat | k < n
        ensures KeepsItem(before[..n], after[..n], x, k) <==> KeepsItem(before, after, x, k)
      {}
      EmptiedLists(before[..n], after[..n], x);
      assert x in before[n] <==> multiset(before[n])[x] > 0;
      assert KeepsItem(before, after, x, n) <==> multiset(after[n])[x] == multiset(before[n])[x];
    }
  }

  // How often shared objects hold an item.
  function HeldByObjects(s: State, x: Item): nat {
    PendingBag(ImplLists(s.impls))[x]
  }

  ghost predicate CopiesSurvive(s: State, t: State, i: nat) {
    forall k: nat | HoldsCopy(s, k, i) :: Alive(t, k)
  }

  // Every object that holds a copy of i is reached.
  ghost predicate CopiesReached(s: State, i: nat) {
    forall k: nat | HoldsCopy(s, k, i) :: Reached(s, [], k)
  }

  // A pass leaves as many copies of i with the shared objects exactly when
  // every object that holds one survives.
  lemma PassKeepsCopies(s: State, items: seq<Item>, i: nat)
    ensures HeldByObjects(RunItems(s, items), Unref(i)) == HeldByObjects(s, Unref(i)) <==>
            CopiesSurvive(s, RunItems(s, items), i)
  {
    var t := RunItems(s, items);
    var before, after := ImplLists(s.impls), ImplLists(t.impls);
    forall k: nat | k < |before| ensures after[k] == if Alive(t, k) then before[k] else [] {
      SurvivorsUntouched(s, items, k);
    }
    EmptiedLists(before, after, Unref(i));
    forall k: nat | k < |before|
      ensures KeepsItem(before, after, Unref(i), k) <==> (HoldsCopy(s, k, i) ==> Alive(t, k))
    {}
    if k: nat :| HoldsCopy(s, k, i) && !Alive(t, k) { assert !KeepsItem(before, after, Unref(i), k); }
  }

  lemma SurviveIfReached(s: State, items: seq<Item>, i: nat)
    requires Inv(s, items)
    ensures CopiesSurvive(s, RunItems(s, items), i) <==> CopiesReached(s, i)
  {
    assert items + [] == items;
    forall k: nat ensures Alive(RunItems(s, items), k) <==> Reached(s, [], k) {
      SurvivesExactlyIfReached(s, items, [], k);
    }
  }

  // Resetting p takes from i the reference p holds, and one for each copy that
  // goes with the objects the reset deletes.
  lemma ResetTakes(s: State, p: nat, i: nat)
    requires Inv(s, []) && p < |s.ptrs|
    ensures var u := DoReset(s, p);
            Refs(u, i) + (if s.ptrs[p] == Some(i) then 1 else 0) + HeldByObjects(s, Unref(i)) ==
              Refs(s, i) + HeldByObjects(u, Unref(i))
  {
    var u := DoReset(s, p);
    PtrUpdate(s, p, None, Unref(i));
    DoResetInv(s, p);
    assert Refs(u, i) == Occurs(u, Unref(i)) + Times([], Unref(i));
    assert Refs(s, i) == Occurs(s, Unref(i)) + Times([], Unref(i));
    assert Times(PtrItems(s.ptrs[p]), Unref(i)) == if s.ptrs[p] == Some(i) then 1 else 0;
  }

  lemma ResetKeepsCountExactly(s: State, p: nat, i: nat)
    requires Inv(s, []) && p < |s.ptrs|
    ensures Refs(DoReset(s, p), i) + (if s.ptrs[p] == Some(i) then 1 else 0) == Refs(s, i) <==>
            CopiesReached(s.(ptrs := s.ptrs[p := None]), i)
  {
    var t, items := s.(ptrs := s.ptrs[p := None]), PtrItems(s.ptrs[p]);
    PassStartInv(s, ResetPtr(p));
    ResetTakes(s, p, i);
    PassKeepsCopies(t, items, i);
    SurviveIfReached(t, items, i);
  }

  // A copy assignment resets p and then shares the object of q: it is alive
  // and has one reference more, nothing else is different.
  lemma CopySharesObject(s: State, p: nat, q: nat)
    requires Inv(s, []) && OpOk(s, CopyAssign(p, q)) && p != q && s.ptrs[q].Some?
    ensures var t, u, i := Step(s, CopyAssign(p, q)), Step(s, ResetPtr(p)), s.ptrs[q].value;
            && t.ptrs == s.ptrs[p := Some(i)] && t.ptrs[q] == s.ptrs[q]
            && Alive(t, i) && Refs(t, i) == Refs(u, i) + 1 && t.impls[i].value.list == u.impls[i].value.list
            && |t.impls| == |u.impls| && (forall j: nat | j < |u.impls| && j != i :: t.impls[j] == u.impls[j])
            && t.holders == s.holders && t.ran == u.ran
  {
    DoResetInv(s, p);
    PtrAlive(DoReset(s, p), q);
  }

  // So the count is one more than before, or the same where p shared the
  // object already, exactly when every object that holds a copy of it is
  // still reached without p.
  lemma CopyCountExactly(s: State, p: nat, q: nat, i: nat)
    requires Inv(s, []) && OpOk(s, CopyAssign(p, q)) && p != q && s.ptrs[q] == Some(i)
    ensures Refs(Step(s, CopyAssign(p, q)), i) == Refs(s, i) + (if s.ptrs[p] == Some(i) then 0 else 1) <==>
            CopiesReached(s.(ptrs := s.ptrs[p := None]), i)
  {
    CopySharesObject(s, p, q);
    ResetKeepsCountExactly(s, p, i);
  }

  lemma ResetShared(s: State, p: nat, j: nat)
    requires Inv(s, []) && p < |s.ptrs| && (s.ptrs[p].Some? ==> Refs(s, s.ptrs[p].value) > 1)
    ensures var t := DoReset(s, p);
            && t.ran == s.ran && (Alive(t, j) <==> Alive(s, j))
            && Refs(t, j) + (if s.ptrs[p] == Some(j) then 1 else 0) == Refs(s, j)
  {
    if s.ptrs[p].Some? {
      PtrAlive(s, p);
      UnrefOnly(s.(ptrs := s.ptrs[p := None]), s.ptrs[p].value);
    }
  }

  // Where p is empty or shares its object, a copy runs nothing, deletes
  // nothing, and moves one reference.
  lemma CopyOverShared(s: State, p: nat, q: nat, i: nat, j: nat)
    requires Inv(s, []) && OpOk(s, CopyAssign(p, q)) && p != q && s.ptrs[q] == Some(i)
    requires s.ptrs[p].Some? ==> Refs(s, s.ptrs[p].value) > 1
    ensures var t := Step(s, CopyAssign(p, q));
            && t.ran == s.ran && (Alive(t, j) <==> Alive(s, j))
            && Refs(t, j) + (if s.ptrs[p] == Some(j) then 1 else 0) == Refs(s, j) + if j == i then 1 else 0
  {
    ResetShared(s, p, j);
    ResetShared(s, p, i);
    PtrAlive(s, q);
  }

  lemma TwoAllocated(a: State) returns (s: State)
    requires Initial(a) && |a.ptrs| == 2 && a.holders == []
    ensures Inv(s, []) && s == State([Some(Impl(1, [])), Some(Impl(1, []))], [Some(0), Some(1)], [], [])
  {
    InitialInv(a);
    AllocateInv(a, 0);
    s := Allocated(a, 0);
    AllocateInv(s, 1);
    s := Allocated(s, 1);
  }

  lemma CopyRegistered(shared: State, i: nat, k: nat) returns (s: State)
    requires Inv(shared, []) && i != k && Alive(shared, i) && Alive(shared, k)
    requires shared.impls[i].value == Impl(1, []) && shared.impls[k].value.list == []
    ensures Inv(s, []) && s.ptrs == shared.ptrs && s.holders == shared.holders && s.ran == shared.ran
    ensures s.impls ==
        shared.impls[i := Some(Impl(2, []))][k := Some(Impl(shared.impls[k].value.refs, [Unref(i)]))]
  {
    RegisterCopyInv(shared, i, AtImpl(k));
    s := AddItem(AddRef(shared, i), AtImpl(k), Unref(i));
  }

  // Pointer 0 holds the only reference to object 0, which holds a copy of
  // pointer 1's object.
  lemma CopyBehindPointer(a: State) returns (s: State)
    requires Initial(a) && |a.ptrs| == 2 && a.holders == []
    ensures Inv(s, []) && s == State([Some(Impl(1, [Unref(1)])), Some(Impl(2, []))], [Some(0), Some(1)], [], [])
  {
    var shared := TwoAllocated(a);
    s := CopyRegistered(shared, 1, 0);
  }

  lemma CopyGoesWithPointer(s: State)
    requires s.impls == [Some(Impl(1, [Unref(1)])), Some(Impl(2, []))] && s.ptrs == [Some(0), Some(1)]
    ensures Refs(DoReset(s, 0), 1) == 1
  {
    var t := s.(ptrs := s.ptrs[0 := None]);
    RunUnref(t, 0, []);
    assert [Unref(0)] + [] == [Unref(0)];
    UnrefOnly(DropRef(t, 0), 1);
  }

  // The copy assignment deletes object 0 with its copy, so the count of
  // object 1 stays at two.
  lemma CopyCountMayStay()
    ensures exists s: State ::
      && Inv(s, []) && s.ptrs == [Some(0), Some(1)]
      && Refs(s, 1) == 2 && Refs(Step(s, CopyAssign(0, 1)), 1) == 2
  {
    var s := CopyBehindPointer(State([], [None, None], [], []));
    CopySharesObject(s, 0, 1);
    CopyGoesWithPointer(s);
  }

  // ----- the other Cleanables -----

  lemma AddItemHolder(s: State, a: Place, item: Item, k: nat, x: Item)
    requires PlaceOk(s, a) && k < |s.holders|
    ensures |AddItem(s, a, item).holders| == |s.holders|
    ensures Times(AddItem(s, a, item).holders[k], x) ==
        Times(s.holders[k], x) + if a == AtHolder(k) && x == item then 1 else 0
  {
    InsertBag(ListAt(s, a), item);
  }

  // A Cleanable that is reset ends empty; any other keeps what it has and
  // gains exactly what is registered with it.
  lemma StepHolders(s: State, op: Op, k: nat, x: Item)
    requires OpOk(s, op) && k < |s.holders|
    ensures |Step(s, op).holders| == |s.holders|
    ensures Times(Step(s, op).holders[k], x) ==
        if op == ResetTarget(Holder(k)) then 0 else Times(s.holders[k], x) + Added(s, op, AtHolder(k), x)
  {
    match op {
      case RegisterCleanup(t, cb) => AddItemHolder(s, Resolve(s, t), User(cb), k, x);
      case RegisterCopyWith(p, t) =>
        if s.ptrs[p].Some? {
          var i := s.ptrs[p].value;
          AddItemHolder(AddRef(s, i), Resolve(s, t), Unref(i), k, x);
        }
      case MoveAsCleanupTo(p, t) =>
        if s.ptrs[p].Some? { AddItemHolder(s, Resolve(s, t), Unref(s.ptrs[p].value), k, x); }
      case _ =>
    }
  }
}
