// Shared pointers and their targets as state updated in place
// (cleanable.h:89-122).
module SharedCleanableObjects {
  import opened Cleanables
  import opened ListBags
  import opened SharedCleanables
  import opened SharedCounts
  import opened Wrappers

  class SharedCleanableState {
    var impls: seq<Option<Impl>>
    var ptrs: seq<Option<nat>>
    var holders: seq<seq<Item>>
    var ran: seq<Callback>

    function Value(): State
      reads this
    {
      State(impls, ptrs, holders, ran)
    }

    constructor (ptrCount: nat, holderCount: nat)
      ensures Initial(Value()) && |ptrs| == ptrCount && |holders| == holderCount
    {
      impls, ran := [], [];
      ptrs := seq(ptrCount, _ => None);
      holders := seq(holderCount, _ => []);
    }

    // Decrement a count; the last reference deletes the object, whose
    // cleanups run first.
    method Release(i: nat)
      requires Alive(Value(), i)
      modifies this
      ensures Value() == RunItems(old(Value()), [Unref(i)])
      decreases LiveCount(impls), 0
    {
      ghost var s := Value();
      RunUnref(s, i, []);
      assert [Unref(i)] + [] == [Unref(i)];
      LiveCountUpdate(impls, i, DropRef(s, i).impls[i]);
      var x := impls[i].value;
      if x.refs <= 1 {
        impls := impls[i := None];
        RunCleanups(x.list);
      } else {
        impls := impls[i := Some(x.(refs := x.refs - 1))];
      }
    }

    // One pass over a list of cleanups.
    method RunCleanups(items: seq<Item>)
      modifies this
      ensures Value() == RunItems(old(Value()), items)
      decreases LiveCount(impls), 1
    {
      var k := 0;
      assert items[0..] == items;
      while k < |items|
        invariant 0 <= k <= |items|
        invariant RunItems(Value(), items[k..]) == RunItems(old(Value()), items)
        invariant LiveCount(impls) <= LiveCount(old(impls))
      {
        assert items[k..] == [items[k]] + items[k + 1..];
        RunItemsSplit(Value(), [items[k]], items[k + 1..]);
        match items[k] {
          case User(cb) => RunUser(Value(), cb); ran := ran + [cb];
          case Unref(i) => if Alive(Value(), i) { Release(i); }
        }
        k := k + 1;
      }
    }

    // Reset a pointer variable to empty.
    method ResetPointer(p: nat)
      requires p < |ptrs|
      requires ptrs[p].Some? ==> Alive(Value(), ptrs[p].value)
      modifies this
      ensures Value() == DoReset(old(Value()), p)
    {
      if ptrs[p].Some? {
        var i := ptrs[p].value;
        ptrs := ptrs[p := None];
        Release(i);
      }
    }

    method AssignCopy(p: nat, q: nat)
      requires Inv(Value(), []) && OpOk(Value(), CopyAssign(p, q))
      modifies this
      ensures Value() == Step(old(Value()), CopyAssign(p, q))
    {
      if p != q {
        PtrAliveIfSome(Value(), p);
        DoResetInv(Value(), p);
        PtrAliveIfSome(DoReset(Value(), p), q);
        ResetPointer(p);
        if ptrs[q].Some? {
          AddReference(ptrs[q].value);
          ptrs := ptrs[p := ptrs[q]];
        }
      }
    }

    // Register the destruction of a copy of a pointer.
    method RegisterCopy(p: nat, t: Target)
      requires Inv(Value(), []) && OpOk(Value(), RegisterCopyWith(p, t))
      modifies this
      ensures Value() == Step(old(Value()), RegisterCopyWith(p, t))
    {
      if ptrs[p].Some? {
        var i, a := ptrs[p].value, Resolve(Value(), t);
        PtrAliveIfSome(Value(), p);
        AddReference(i);
        AddTo(a, Unref(i));
      }
    }

    method Perform(op: Op)
      requires Inv(Value(), []) && OpOk(Value(), op)
      modifies this
      ensures Value() == Step(old(Value()), op) && Inv(Value(), [])
    {
      ghost var s := Value();
      StepKeepsInv(s, op);
      match op {
        case Allocate(p) =>
          PtrAliveIfSome(s, p);
          ResetPointer(p);
          impls, ptrs := impls + [Some(Impl(1, []))], ptrs[p := Some(|impls|)];
        case ResetPtr(p) =>
          PtrAliveIfSome(s, p);
          ResetPointer(p);
        case CopyAssign(p, q) =>
          AssignCopy(p, q);
        case MoveAssign(p, q) =>
          PtrAliveIfSome(s, p);
          ResetPointer(p);
          ptrs := ptrs[p := ptrs[q]][q := None];
        case RegisterCleanup(t, cb) =>
          AddTo(Resolve(Value(), t), User(cb));
        case RegisterCopyWith(p, t) =>
          RegisterCopy(p, t);
        case MoveAsCleanupTo(p, t) =>
          if ptrs[p].Some? {
            AddTo(Resolve(Value(), t), Unref(ptrs[p].value));
            ptrs := ptrs[p := None];
          }
        case ResetTarget(t) =>
          var a := Resolve(Value(), t);
          var list := ListAt(Value(), a);
          PutList(a, []);
          RunCleanups(list);
      }
    }

    method AddReference(i: nat)
      requires Alive(Value(), i)
      modifies this`impls
      ensures Value() == AddRef(old(Value()), i)
    {
      impls := impls[i := Some(impls[i].value.(refs := impls[i].value.refs + 1))];
    }

    method PutList(a: Place, list: seq<Item>)
      requires PlaceOk(Value(), a)
      modifies this`impls, this`holders
      ensures Value() == SetList(old(Value()), a, list)
    {
      match a {
        case AtHolder(k) => holders := holders[k := list];
        case AtImpl(i) => impls := impls[i := Some(impls[i].value.(list := list))];
      }
    }

    method AddTo(a: Place, item: Item)
      requires PlaceOk(Value(), a)
      modifies this`impls, this`holders
      ensures Value() == AddItem(old(Value()), a, item)
    {
      PutList(a, Insert(ListAt(Value(), a), item));
    }
  }
}
