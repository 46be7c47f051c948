// Every reference count equals the live pointers plus the registered copies,
// over every run (cleanable.h:80-122).
module SharedCounts {
  import opened Cleanables
  import opened ListBags
  import opened SharedCleanables
  import opened Wrappers

  // ----- counting references -----

  // A pointer variable owns one reference, as a registered copy does.
  function PtrItems(v: Option<nat>): seq<Item> {
    if v.Some? then [Unref(v.value)] else []
  }

  function ImplItems(v: Option<Impl>): seq<Item> {
    if v.Some? then v.value.list else []
  }

  function PtrLists(ptrs: seq<Option<nat>>): (r: seq<seq<Item>>) {
    seq(|ptrs|, k requires 0 <= k < |ptrs| => PtrItems(ptrs[k]))
  }

  function ImplLists(impls: seq<Option<Impl>>): (r: seq<seq<Item>>) {
    seq(|impls|, k requires 0 <= k < |impls| => ImplItems(impls[k]))
  }

  // How often an item is registered or held anywhere.
  function Occurs(s: State, x: Item): nat {
    PendingBag(PtrLists(s.ptrs))[x] + PendingBag(s.holders)[x] + PendingBag(ImplLists(s.impls))[x]
  }

  function Times(items: seq<Item>, x: Item): nat {
    multiset(items)[x]
  }

  // Every reference count equals the live pointers plus the registered
  // copies, counting those a pass in progress has still to run; so nothing
  // refers to a deleted object.
  ghost predicate Inv(s: State, running: seq<Item>) {
    && (forall i: nat :: Refs(s, i) == Occurs(s, Unref(i)) + Times(running, Unref(i)))
    && forall i: nat | Alive(s, i) :: s.impls[i].value.refs >= 1
  }

  // References and what owns them change by the same amount.
  ghost predicate Balanced(s: State, running: seq<Item>, t: State, next: seq<Item>, j: nat) {
    Refs(t, j) + Occurs(s, Unref(j)) + Times(running, Unref(j)) ==
        Refs(s, j) + Occurs(t, Unref(j)) + Times(next, Unref(j))
  }

  lemma BalancedKeepsInv(s: State, running: seq<Item>, t: State, next: seq<Item>)
    requires Inv(s, running)
    requires forall j: nat :: Balanced(s, running, t, next, j)
    requires forall j: nat | Alive(t, j) :: t.impls[j].value.refs >= 1
    ensures Inv(t, next)
  {
    forall j: nat ensures Refs(t, j) == Occurs(t, Unref(j)) + Times(next, Unref(j)) {
      assert Balanced(s, running, t, next, j);
    }
  }

  lemma TimesHead(items: seq<Item>, rest: seq<Item>, x: Item)
    requires items != []
    ensures Times(items + rest, x) == (if items[0] == x then 1 else 0) + Times(items[1..] + rest, x)
  {
    assert items + rest == [items[0]] + (items[1..] + rest);
  }

  lemma ListUpdate(lists: seq<seq<Item>>, k: nat, v: seq<Item>, x: Item)
    requires k < |lists|
    ensures PendingBag(lists[k := v])[x] + Times(lists[k], x) == PendingBag(lists)[x] + Times(v, x)
  {
    PendingUpdate(lists, k, v);
    assert (PendingBag(lists[k := v]) + multiset(lists[k]))[x] == (PendingBag(lists) + multiset(v))[x];
  }

  lemma PtrUpdate(s: State, p: nat, v: Option<nat>, x: Item)
    requires p < |s.ptrs|
    ensures Occurs(s.(ptrs := s.ptrs[p := v]), x) + Times(PtrItems(s.ptrs[p]), x) ==
        Occurs(s, x) + Times(PtrItems(v), x)
  {
    ListUpdate(PtrLists(s.ptrs), p, PtrItems(v), x);
    assert PtrLists(s.ptrs[p := v]) == PtrLists(s.ptrs)[p := PtrItems(v)];
  }

  lemma ImplUpdate(s: State, i: nat, v: Option<Impl>, x: Item)
    requires i < |s.impls|
    ensures Occurs(s.(impls := s.impls[i := v]), x) + Times(ImplItems(s.impls[i]), x) ==
        Occurs(s, x) + Times(ImplItems(v), x)
  {
    ListUpdate(ImplLists(s.impls), i, ImplItems(v), x);
    assert ImplLists(s.impls[i := v]) == ImplLists(s.impls)[i := ImplItems(v)];
  }

  lemma SetListUpdate(s: State, a: Place, list: seq<Item>, x: Item)
    requires PlaceOk(s, a)
    ensures Occurs(SetList(s, a, list), x) + Times(ListAt(s, a), x) == Occurs(s, x) + Times(list, x)
  {
    match a {
      case AtHolder(k) => ListUpdate(s.holders, k, list, x);
      case AtImpl(i) => ImplUpdate(s, i, Some(s.impls[i].value.(list := list)), x);
    }
  }

  lemma AddItemOccurs(s: State, a: Place, item: Item, x: Item)
    requires PlaceOk(s, a)
    ensures Occurs(AddItem(s, a, item), x) == Occurs(s, x) + if item == x then 1 else 0
  {
    SetListUpdate(s, a, Insert(ListAt(s, a), item), x);
    InsertBag(ListAt(s, a), item);
  }

  lemma AddRefOccurs(s: State, i: nat, x: Item)
    ensures Occurs(AddRef(s, i), x) == Occurs(s, x)
  {
    if Alive(s, i) { ImplUpdate(s, i, AddRef(s, i).impls[i], x); }
  }

  lemma DropRefOccurs(s: State, i: nat, x: Item)
    ensures Occurs(DropRef(s, i), x) + Times(SetOff(s, i), x) == Occurs(s, x)
  {
    if Alive(s, i) { ImplUpdate(s, i, DropRef(s, i).impls[i], x); }
  }

  // ----- running keeps the counts right -----

  lemma DropRefAt(s: State, i: nat, rest: seq<Item>, j: nat)
    requires Alive(s, i) && s.impls[i].value.refs >= 1
    requires Refs(s, j) == Occurs(s, Unref(j)) + Times([Unref(i)] + rest, Unref(j))
    ensures Refs(DropRef(s, i), j) == Occurs(DropRef(s, i), Unref(j)) + Times(SetOff(s, i) + rest, Unref(j))
  {
    TimesHead([Unref(i)], rest, Unref(j));
    assert [Unref(i)][1..] + rest == rest;
    DropRefOccurs(s, i, Unref(j));
    assert Times(SetOff(s, i) + rest, Unref(j)) == Times(SetOff(s, i), Unref(j)) + Times(rest, Unref(j));
    assert Refs(DropRef(s, i), j) == Refs(s, j) - if j == i then 1 else 0;
  }

  lemma DropRefInv(s: State, i: nat, rest: seq<Item>)
    requires Inv(s, [Unref(i)] + rest)
    ensures Alive(s, i) && Inv(DropRef(s, i), SetOff(s, i) + rest)
  {
    TimesHead([Unref(i)], rest, Unref(i));
    assert Refs(s, i) >= 1;
    forall j: nat
      ensures Refs(DropRef(s, i), j) == Occurs(DropRef(s, i), Unref(j)) + Times(SetOff(s, i) + rest, Unref(j))
    {
      DropRefAt(s, i, rest, j);
    }
  }

  lemma UserInv(s: State, cb: Callback, rest: seq<Item>)
    requires Inv(s, [User(cb)] + rest)
    ensures Inv(s.(ran := s.ran + [cb]), rest)
  {
    var t := s.(ran := s.ran + [cb]);
    forall j: nat ensures Refs(t, j) == Occurs(t, Unref(j)) + Times(rest, Unref(j)) {
      TimesHead([User(cb)], rest, Unref(j));
      assert [User(cb)][1..] + rest == rest;
      assert Refs(t, j) == Refs(s, j);
    }
  }

  lemma InvKeptByItems()
    ensures KeptByItems((s, running) => Inv(s, running))
  {
    var p := (s, running) => Inv(s, running);
    forall s, cb, rest ensures CallKeeps(s, cb, rest, p) {
      if Inv(s, [User(cb)] + rest) { UserInv(s, cb, rest); }
    }
    forall s, i, rest ensures DropKeeps(s, i, rest, p) {
      if Inv(s, [Unref(i)] + rest) { DropRefInv(s, i, rest); }
    }
  }

  lemma RunKeepsInv(s: State, items: seq<Item>, rest: seq<Item>)
    requires Inv(s, items + rest)
    ensures Inv(RunItems(s, items), rest)
  {
    InvKeptByItems();
    PassKeeps(s, items, rest, (t, running) => Inv(t, running));
  }

  lemma RunAllKeepsInv(s: State, items: seq<Item>)
    requires Inv(s, items)
    ensures Inv(RunItems(s, items), [])
  {
    assert items + [] == items;
    RunKeepsInv(s, items, []);
  }

  // ----- every operation keeps the counts right -----

  // A pointer never dangles.
  lemma PtrAlive(s: State, p: nat)
    requires Inv(s, []) && p < |s.ptrs| && s.ptrs[p].Some?
    ensures Alive(s, s.ptrs[p].value)
  {
    PtrUpdate(s, p, None, Unref(s.ptrs[p].value));
    assert Refs(s, s.ptrs[p].value) >= 1;
  }

  lemma PtrAliveIfSome(s: State, p: nat)
    requires Inv(s, []) && p < |s.ptrs|
    ensures s.ptrs[p].Some? ==> Alive(s, s.ptrs[p].value)
  {
    if s.ptrs[p].Some? { PtrAlive(s, p); }
  }

  // A registered copy never dangles either.
  lemma CopyAlive(s: State, a: Place, i: nat)
    requires Inv(s, []) && PlaceOk(s, a) && Unref(i) in ListAt(s, a)
    ensures Alive(s, i)
  {
    SetListUpdate(s, a, [], Unref(i));
    assert Refs(s, i) >= 1;
  }

  lemma DropPtrBalanced(s: State, p: nat, j: nat)
    requires p < |s.ptrs|
    ensures Balanced(s, [], s.(ptrs := s.ptrs[p := None]), PtrItems(s.ptrs[p]), j)
  {
    PtrUpdate(s, p, None, Unref(j));
  }

  lemma DoResetInv(s: State, p: nat)
    requires Inv(s, []) && p < |s.ptrs|
    ensures Inv(DoReset(s, p), [])
  {
    if s.ptrs[p].Some? {
      var items, t := PtrItems(s.ptrs[p]), s.(ptrs := s.ptrs[p := None]);
      forall j: nat ensures Balanced(s, [], t, items, j) { DropPtrBalanced(s, p, j); }
      BalancedKeepsInv(s, [], t, items);
      RunAllKeepsInv(t, items);
    }
  }

  lemma TakeRefBalanced(s: State, p: nat, i: nat, j: nat)
    requires p < |s.ptrs| && s.ptrs[p].None? && Alive(s, i)
    ensures Balanced(s, [], AddRef(s, i).(ptrs := s.ptrs[p := Some(i)]), [], j)
  {
    AddRefOccurs(s, i, Unref(j));
    PtrUpdate(AddRef(s, i), p, Some(i), Unref(j));
  }

  // One more reference, owned by the pointer variable p.
  lemma TakeRefInv(s: State, p: nat, i: nat)
    requires Inv(s, []) && p < |s.ptrs| && s.ptrs[p].None? && Alive(s, i)
    ensures Inv(AddRef(s, i).(ptrs := s.ptrs[p := Some(i)]), [])
  {
    var t := AddRef(s, i).(ptrs := s.ptrs[p := Some(i)]);
    forall j: nat ensures Balanced(s, [], t, [], j) { TakeRefBalanced(s, p, i, j); }
    BalancedKeepsInv(s, [], t, []);
  }

  lemma NewImplOccurs(s: State, x: Item)
    ensures Occurs(s.(impls := s.impls + [Some(Impl(1, []))]), x) == Occurs(s, x)
  {
    var before, after := ImplLists(s.impls), ImplLists(s.impls + [Some(Impl(1, []))]);
    assert after[..|after| - 1] == before && after[|after| - 1] == [];
  }

  lemma AllocateOccurs(s: State, p: nat, x: Item)
    requires p < |s.ptrs| && s.ptrs[p].None?
    ensures Occurs(Allocated(s, p), x) == Occurs(s, x) + if x == Unref(|s.impls|) then 1 else 0
  {
    NewImplOccurs(s, x);
    PtrUpdate(s.(impls := s.impls + [Some(Impl(1, []))]), p, Some(|s.impls|), x);
  }

  lemma AllocateInv(s: State, p: nat)
    requires Inv(s, []) && p < |s.ptrs| && s.ptrs[p].None?
    ensures Inv(Allocated(s, p), [])
  {
    var t := Allocated(s, p);
    forall j: nat ensures Balanced(s, [], t, [], j) {
      AllocateOccurs(s, p, Unref(j));
      assert Refs(t, j) == if j == |s.impls| then 1 else Refs(s, j);
    }
    BalancedKeepsInv(s, [], t, []);
  }

  lemma MoveOccurs(s: State, p: nat, q: nat, x: Item)
    requires p < |s.ptrs| && q < |s.ptrs| && p != q && s.ptrs[p].None?
    ensures Occurs(Moved(s, p, q), x) == Occurs(s, x)
  {
    var t := s.(ptrs := s.ptrs[p := s.ptrs[q]]);
    PtrUpdate(s, p, s.ptrs[q], x);
    PtrUpdate(t, q, None, x);
  }

  lemma MoveInv(s: State, p: nat, q: nat)
    requires Inv(s, []) && p < |s.ptrs| && q < |s.ptrs| && p != q && s.ptrs[p].None?
    ensures Inv(Moved(s, p, q), [])
  {
    forall j: nat ensures Balanced(s, [], Moved(s, p, q), [], j) { MoveOccurs(s, p, q, Unref(j)); }
    BalancedKeepsInv(s, [], Moved(s, p, q), []);
  }

  lemma AddUserBalanced(s: State, a: Place, cb: Callback, j: nat)
    requires PlaceOk(s, a)
    ensures Balanced(s, [], AddItem(s, a, User(cb)), [], j)
  {
    AddItemOccurs(s, a, User(cb), Unref(j));
    SameRefs(s, a, Insert(ListAt(s, a), User(cb)), j);
  }

  lemma AddUserInv(s: State, a: Place, cb: Callback)
    requires Inv(s, []) && PlaceOk(s, a)
    ensures Inv(AddItem(s, a, User(cb)), [])
  {
    var t := AddItem(s, a, User(cb));
    forall j: nat ensures Balanced(s, [], t, [], j) { AddUserBalanced(s, a, cb, j); }
    BalancedKeepsInv(s, [], t, []);
  }

  lemma SameRefs(s: State, a: Place, list: seq<Item>, j: nat)
    requires PlaceOk(s, a)
    ensures Refs(SetList(s, a, list), j) == Refs(s, j)
  {}

  lemma RegisterCopyBalanced(s: State, i: nat, a: Place, j: nat)
    requires Alive(s, i) && PlaceOk(s, a)
    ensures Balanced(s, [], AddItem(AddRef(s, i), a, Unref(i)), [], j)
  {
    AddRefOccurs(s, i, Unref(j));
    AddItemOccurs(AddRef(s, i), a, Unref(i), Unref(j));
    SameRefs(AddRef(s, i), a, Insert(ListAt(AddRef(s, i), a), Unref(i)), j);
  }

  lemma RegisterCopyInv(s: State, i: nat, a: Place)
    requires Inv(s, []) && Alive(s, i) && PlaceOk(s, a)
    ensures Inv(AddItem(AddRef(s, i), a, Unref(i)), [])
  {
    var t := AddItem(AddRef(s, i), a, Unref(i));
    forall j: nat ensures Balanced(s, [], t, [], j) { RegisterCopyBalanced(s, i, a, j); }
    BalancedKeepsInv(s, [], t, []);
  }

  lemma MoveAsCleanupOccurs(s: State, p: nat, a: Place, x: Item)
    requires p < |s.ptrs| && s.ptrs[p].Some? && PlaceOk(s, a)
    ensures Occurs(MovedIn(s, p, a), x) == Occurs(s, x)
  {
    AddItemOccurs(s, a, Unref(s.ptrs[p].value), x);
    PtrUpdate(AddItem(s, a, Unref(s.ptrs[p].value)), p, None, x);
  }

  lemma MoveAsCleanupBalanced(s: State, p: nat, a: Place, j: nat)
    requires p < |s.ptrs| && s.ptrs[p].Some? && PlaceOk(s, a)
    ensures Balanced(s, [], MovedIn(s, p, a), [], j)
  {
    MoveAsCleanupOccurs(s, p, a, Unref(j));
    SameRefs(s, a, Insert(ListAt(s, a), Unref(s.ptrs[p].value)), j);
  }

  lemma MoveAsCleanupInv(s: State, p: nat, a: Place)
    requires Inv(s, []) && p < |s.ptrs| && s.ptrs[p].Some? && PlaceOk(s, a)
    ensures Inv(MovedIn(s, p, a), [])
  {
    var t := MovedIn(s, p, a);
    forall j: nat ensures Balanced(s, [], t, [], j) { MoveAsCleanupBalanced(s, p, a, j); }
    BalancedKeepsInv(s, [], t, []);
  }

  lemma TakeListBalanced(s: State, a: Place, j: nat)
    requires PlaceOk(s, a)
    ensures Balanced(s, [], SetList(s, a, []), ListAt(s, a), j)
  {
    SetListUpdate(s, a, [], Unref(j));
  }

  lemma ResetTargetInv(s: State, a: Place)
    requires Inv(s, []) && PlaceOk(s, a)
    ensures Inv(RunItems(SetList(s, a, []), ListAt(s, a)), [])
  {
    var t, items := SetList(s, a, []), ListAt(s, a);
    forall j: nat ensures Balanced(s, [], t, items, j) { TakeListBalanced(s, a, j); }
    BalancedKeepsInv(s, [], t, items);
    RunAllKeepsInv(t, items);
  }

  lemma StepKeepsInv(s: State, op: Op)
    requires Inv(s, []) && OpOk(s, op)
    ensures Inv(Step(s, op), [])
  {
    match op {
      case Allocate(p) => DoResetInv(s, p); AllocateInv(DoReset(s, p), p);
      case ResetPtr(p) => DoResetInv(s, p);
      case CopyAssign(p, q) =>
        var t := DoReset(s, p);
        DoResetInv(s, p);
        if p != q && t.ptrs[q].Some? {
          PtrAlive(t, q);
          TakeRefInv(t, p, t.ptrs[q].value);
        }
      case MoveAssign(p, q) => DoResetInv(s, p); MoveInv(DoReset(s, p), p, q);
      case RegisterCleanup(t, cb) => AddUserInv(s, Resolve(s, t), cb);
      case RegisterCopyWith(p, t) =>
        if s.ptrs[p].Some? {
          PtrAlive(s, p);
          RegisterCopyInv(s, s.ptrs[p].value, Resolve(s, t));
        }
      case MoveAsCleanupTo(p, t) => if s.ptrs[p].Some? { MoveAsCleanupInv(s, p, Resolve(s, t)); }
      case ResetTarget(t) => ResetTargetInv(s, Resolve(s, t));
    }
  }

  // ----- every run does -----

  lemma {:induction false} RunKeepsCounts(s: State, ops: seq<Op>)
    requires Inv(s, []) && RunOk(s, ops)
    ensures Inv(Run(s, ops), [])
    decreases ops
  {
    if ops != [] {
      StepKeepsInv(s, ops[0]);
      RunKeepsCounts(Step(s, ops[0]), ops[1..]);
    }
  }

  lemma QuiescentOccurs(s: State, x: Item)
    requires Quiescent(s)
    ensures Occurs(s, x) == PendingBag(ImplLists(s.impls))[x]
  {
    AllEmptyBag(PtrLists(s.ptrs));
    AllEmptyBag(s.holders);
  }

  lemma NothingOccurs(s: State, x: Item)
    requires Quiescent(s) && forall i: nat :: !Alive(s, i)
    ensures Occurs(s, x) == 0
  {
    QuiescentOccurs(s, x);
    forall k | 0 <= k < |s.impls| ensures ImplLists(s.impls)[k] == [] {
      assert !Alive(s, k);
    }
    AllEmptyBag(ImplLists(s.impls));
  }

  lemma InitialInv(s: State)
    requires Initial(s)
    ensures Inv(s, [])
  {
    forall i: nat ensures Occurs(s, Unref(i)) == 0 {
      NothingOccurs(s, Unref(i));
    }
  }
}
