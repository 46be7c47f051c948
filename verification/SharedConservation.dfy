// Callbacks registered with shared objects are neither lost nor run twice,
// and wait for the last reference (cleanable.h:80-82).
module SharedConservation {
  import opened Cleanables
  import opened ListBags
  import opened SharedCleanables
  import opened SharedCounts
  import opened Wrappers

  // ----- conservation of the users' callbacks -----

  // How often a callback is still registered or has run.
  function Accounted(s: State, cb: Callback): nat {
    Occurs(s, User(cb)) + multiset(s.ran)[cb]
  }

  lemma {:induction false} RunItemsConserves(s: State, items: seq<Item>, cb: Callback)
    ensures Accounted(RunItems(s, items), cb) == Accounted(s, cb) + Times(items, User(cb))
    decreases LiveCount(s.impls), |items|
  {
    if items != [] {
      TimesHead(items, [], User(cb));
      assert items + [] == items && items[1..] + [] == items[1..];
      match items[0] {
        case User(c) =>
          RunItemsConserves(s.(ran := s.ran + [c]), items[1..], cb);
        case Unref(i) =>
          if Alive(s, i) {
            DropRefOccurs(s, i, User(cb));
            LiveCountUpdate(s.impls, i, DropRef(s, i).impls[i]);
            RunItemsConserves(DropRef(s, i), SetOff(s, i), cb);
            RunItemsConserves(RunItems(DropRef(s, i), SetOff(s, i)), items[1..], cb);
          } else {
            RunItemsConserves(s, items[1..], cb);
          }
      }
    }
  }

  lemma DoResetConserves(s: State, p: nat, cb: Callback)
    requires p < |s.ptrs|
    ensures Accounted(DoReset(s, p), cb) == Accounted(s, cb)
  {
    if s.ptrs[p].Some? {
      PtrUpdate(s, p, None, User(cb));
      RunItemsConserves(s.(ptrs := s.ptrs[p := None]), [Unref(s.ptrs[p].value)], cb);
    }
  }

  lemma CopyConserves(t: State, p: nat, q: nat, cb: Callback)
    requires p < |t.ptrs| && q < |t.ptrs| && t.ptrs[p].None? && t.ptrs[q].Some?
    ensures Accounted(AddRef(t, t.ptrs[q].value).(ptrs := t.ptrs[p := t.ptrs[q]]), cb) == Accounted(t, cb)
  {
    AddRefOccurs(t, t.ptrs[q].value, User(cb));
    PtrUpdate(AddRef(t, t.ptrs[q].value), p, t.ptrs[q], User(cb));
  }

  lemma CopyItemConserves(s: State, i: nat, a: Place, cb: Callback)
    requires PlaceOk(s, a)
    ensures Accounted(AddItem(AddRef(s, i), a, Unref(i)), cb) == Accounted(s, cb)
  {
    AddRefOccurs(s, i, User(cb));
    AddItemOccurs(AddRef(s, i), a, Unref(i), User(cb));
  }

  lemma ResetTargetConserves(s: State, a: Place, cb: Callback)
    requires PlaceOk(s, a)
    ensures Accounted(RunItems(SetList(s, a, []), ListAt(s, a)), cb) == Accounted(s, cb)
  {
    SetListUpdate(s, a, [], User(cb));
    RunItemsConserves(SetList(s, a, []), ListAt(s, a), cb);
  }

  lemma StepConservesCallbacks(s: State, op: Op, cb: Callback)
    requires OpOk(s, op)
    ensures Accounted(Step(s, op), cb) == Accounted(s, cb) + if op.RegisterCleanup? && op.cb == cb then 1 else 0
  {
    match op {
      case Allocate(p) =>
        DoResetConserves(s, p, cb);
        AllocateOccurs(DoReset(s, p), p, User(cb));
      case ResetPtr(p) => DoResetConserves(s, p, cb);
      case CopyAssign(p, q) =>
        DoResetConserves(s, p, cb);
        if p != q && s.ptrs[q].Some? { CopyConserves(DoReset(s, p), p, q, cb); }
      case MoveAssign(p, q) =>
        DoResetConserves(s, p, cb);
        MoveOccurs(DoReset(s, p), p, q, User(cb));
      case RegisterCleanup(t, c) => AddItemOccurs(s, Resolve(s, t), User(c), User(cb));
      case RegisterCopyWith(p, t) => if s.ptrs[p].Some? { CopyItemConserves(s, s.ptrs[p].value, Resolve(s, t), cb); }
      case MoveAsCleanupTo(p, t) => if s.ptrs[p].Some? { MoveAsCleanupOccurs(s, p, Resolve(s, t), User(cb)); }
      case ResetTarget(t) => ResetTargetConserves(s, Resolve(s, t), cb);
    }
  }

  function Registrations(ops: seq<Op>, cb: Callback): nat
    decreases ops
  {
    if ops == [] then 0
    else (if ops[0].RegisterCleanup? && ops[0].cb == cb then 1 else 0) + Registrations(ops[1..], cb)
  }

  lemma {:induction false} RunConservesCallbacks(s: State, ops: seq<Op>, cb: Callback)
    requires RunOk(s, ops)
    ensures Accounted(Run(s, ops), cb) == Accounted(s, cb) + Registrations(ops, cb)
    decreases ops
  {
    if ops != [] {
      StepConservesCallbacks(s, ops[0], cb);
      RunConservesCallbacks(Step(s, ops[0]), ops[1..], cb);
    }
  }

  // ----- an object that stays alive loses no cleanup -----

  // An object that a pass leaves alive has lost none of its cleanups, and
  // what has run stays run.
  lemma {:induction false} SurvivorsUntouched(s: State, items: seq<Item>, i: nat)
    ensures s.ran <= RunItems(s, items).ran
    ensures Alive(RunItems(s, items), i) ==>
        Alive(s, i) && RunItems(s, items).impls[i].value.list == s.impls[i].value.list
    decreases LiveCount(s.impls), |items|
  {
    if items != [] {
      match items[0] {
        case User(cb) => SurvivorsUntouched(s.(ran := s.ran + [cb]), items[1..], i);
        case Unref(j) =>
          if Alive(s, j) {
            LiveCountUpdate(s.impls, j, DropRef(s, j).impls[j]);
            SurvivorsUntouched(DropRef(s, j), SetOff(s, j), i);
            SurvivorsUntouched(RunItems(DropRef(s, j), SetOff(s, j)), items[1..], i);
          } else {
            SurvivorsUntouched(s, items[1..], i);
          }
      }
    }
  }

  // How often an operation registers x at a place.
  function Added(s: State, op: Op, a: Place, x: Item): nat
    requires OpOk(s, op)
  {
    var registers := match op
      case RegisterCleanup(t, cb) => Resolve(s, t) == a && x == User(cb)
      case RegisterCopyWith(p, t) => s.ptrs[p].Some? && Resolve(s, t) == a && x == Unref(s.ptrs[p].value)
      case MoveAsCleanupTo(p, t) => s.ptrs[p].Some? && Resolve(s, t) == a && x == Unref(s.ptrs[p].value)
      case _ => false;
    if registers then 1 else 0
  }

  predicate ResetsObject(s: State, op: Op, i: nat)
    requires OpOk(s, op)
  {
    op.ResetTarget? && Resolve(s, op.target) == AtImpl(i)
  }

  // How often x is registered with object i, which may be gone.
  function Registered(s: State, i: nat, x: Item): nat {
    if Alive(s, i) then Times(s.impls[i].value.list, x) else 0
  }

  lemma DoResetSurvivors(s: State, p: nat, i: nat, x: Item)
    requires p < |s.ptrs| && Alive(DoReset(s, p), i)
    ensures Alive(s, i) && Registered(DoReset(s, p), i, x) == Registered(s, i, x)
  {
    if s.ptrs[p].Some? {
      SurvivorsUntouched(s.(ptrs := s.ptrs[p := None]), [Unref(s.ptrs[p].value)], i);
    }
  }

  lemma AddItemRegistered(s: State, a: Place, item: Item, i: nat, x: Item)
    requires PlaceOk(s, a) && Alive(s, i)
    ensures Alive(AddItem(s, a, item), i)
    ensures Registered(AddItem(s, a, item), i, x) == Registered(s, i, x) + if a == AtImpl(i) && x == item then 1 else 0
  {
    InsertBag(ListAt(s, a), item);
  }

  lemma AddRefRegistered(s: State, j: nat, i: nat, x: Item)
    ensures Alive(AddRef(s, j), i) <==> Alive(s, i)
    ensures Registered(AddRef(s, j), i, x) == Registered(s, i, x)
  {}

  // An object that stays alive, and is not itself reset, keeps all its
  // cleanups and gains exactly those registered with it.
  lemma StepKeepsCleanups(s: State, op: Op, i: nat, x: Item)
    requires OpOk(s, op) && i < |s.impls| && !ResetsObject(s, op, i) && Alive(Step(s, op), i)
    ensures Alive(s, i) && Registered(Step(s, op), i, x) == Registered(s, i, x) + Added(s, op, AtImpl(i), x)
  {
    match op {
      case Allocate(p) => DoResetSurvivors(s, p, i, x);
      case ResetPtr(p) => DoResetSurvivors(s, p, i, x);
      case CopyAssign(p, q) =>
        if p != q {
          var t := DoReset(s, p);
          if t.ptrs[q].Some? { AddRefRegistered(t, t.ptrs[q].value, i, x); }
          DoResetSurvivors(s, p, i, x);
        }
      case MoveAssign(p, q) => DoResetSurvivors(s, p, i, x);
      case RegisterCleanup(t, cb) => AddItemRegistered(s, Resolve(s, t), User(cb), i, x);
      case RegisterCopyWith(p, t) =>
        if s.ptrs[p].Some? {
          var j := s.ptrs[p].value;
          AddRefRegistered(s, j, i, x);
          AddItemRegistered(AddRef(s, j), Resolve(s, t), Unref(j), i, x);
        }
      case MoveAsCleanupTo(p, t) =>
        if s.ptrs[p].Some? { AddItemRegistered(s, Resolve(s, t), Unref(s.ptrs[p].value), i, x); }
      case ResetTarget(t) =>
        var a := Resolve(s, t);
        SurvivorsUntouched(SetList(s, a, []), ListAt(s, a), i);
    }
  }

  ghost predicate NeverReset(s: State, ops: seq<Op>, i: nat)
    requires RunOk(s, ops)
    decreases ops
  {
    ops == [] || (!ResetsObject(s, ops[0], i) && NeverReset(Step(s, ops[0]), ops[1..], i))
  }

  function AddedOver(s: State, ops: seq<Op>, i: nat, x: Item): nat
    requires RunOk(s, ops)
    decreases ops
  {
    if ops == [] then 0 else Added(s, ops[0], AtImpl(i), x) + AddedOver(Step(s, ops[0]), ops[1..], i, x)
  }

  lemma {:induction false} RunKeepsCleanups(s: State, ops: seq<Op>, i: nat, x: Item)
    requires RunOk(s, ops) && i < |s.impls| && NeverReset(s, ops, i) && Alive(Run(s, ops), i)
    ensures Alive(s, i) && Registered(Run(s, ops), i, x) == Registered(s, i, x) + AddedOver(s, ops, i, x)
    decreases ops
  {
    if ops != [] {
      var t := Step(s, ops[0]);
      StepGrows(s, ops[0]);
      RunKeepsCleanups(t, ops[1..], i, x);
      StepKeepsCleanups(s, ops[0], i, x);
    }
  }

  lemma StepGrows(s: State, op: Op)
    requires OpOk(s, op)
    ensures |Step(s, op).impls| >= |s.impls|
  {}

  lemma AliveExactlyIfReferenced(s: State, i: nat)
    requires Inv(s, [])
    ensures Alive(s, i) <==> Occurs(s, Unref(i)) > 0
  {
    assert Refs(s, i) == Occurs(s, Unref(i)) + Times([], Unref(i));
  }

  // Over every run in which it is not itself reset, an object waits for its
  // last reference: it is there, with every cleanup ever registered with it,
  // exactly as long as some pointer or registered copy refers to it.
  lemma CleanupsWaitForLastReference(s: State, ops: seq<Op>, i: nat, x: Item)
    requires Inv(s, []) && RunOk(s, ops) && Alive(s, i) && NeverReset(s, ops, i)
    ensures var t := Run(s, ops);
            && (Alive(t, i) <==> Occurs(t, Unref(i)) > 0)
            && (Alive(t, i) ==> Registered(t, i, x) == Registered(s, i, x) + AddedOver(s, ops, i, x))
  {
    RunKeepsCounts(s, ops);
    AliveExactlyIfReferenced(Run(s, ops), i);
    if Alive(Run(s, ops), i) { RunKeepsCleanups(s, ops, i, x); }
  }
}
