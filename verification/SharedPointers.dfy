// Copying, moving and allocating shared pointers (cleanable.h:93-121).
module SharedPointers {
  import opened SharedCleanables
  import opened SharedCounts
  import opened Wrappers

  lemma AddItemKeepsRefs(s: State, a: Place, item: Item, i: nat)
    requires PlaceOk(s, a)
    ensures Refs(AddItem(s, a, item), i) == Refs(s, i) && AddItem(s, a, item).ptrs == s.ptrs
    ensures AddItem(s, a, item).ran == s.ran && (Alive(s, i) ==> Alive(AddItem(s, a, item), i))
  {}

  lemma MovedInKeeps(s: State, p: nat, a: Place)
    requires p < |s.ptrs| && s.ptrs[p].Some? && PlaceOk(s, a)
    ensures var t := MovedIn(s, p, a);
            t.ran == s.ran && t.ptrs[p].None? && (Alive(s, s.ptrs[p].value) ==> Alive(t, s.ptrs[p].value))
  {
    AddItemKeepsRefs(s, a, Unref(s.ptrs[p].value), s.ptrs[p].value);
  }

  // One reference more and one less, around adding an item.
  lemma AddThenDrop(s: State, i: nat, a: Place)
    requires Alive(s, i) && Refs(s, i) >= 1 && PlaceOk(s, a)
    ensures var t := AddItem(AddRef(s, i), a, Unref(i));
            Alive(t, i) && t.impls[i].value.refs > 1 && DropRef(t, i).impls == AddItem(s, a, Unref(i)).impls
  {
    AddItemKeepsRefs(AddRef(s, i), a, Unref(i), i);
  }

  lemma CopyThenDrop(s: State, p: nat, i: nat, a: Place)
    requires p < |s.ptrs| && s.ptrs[p] == Some(i) && Alive(s, i) && Refs(s, i) >= 1 && PlaceOk(s, a)
    ensures DoReset(AddItem(AddRef(s, i), a, Unref(i)), p) == MovedIn(s, p, a)
  {
    var t := AddItem(AddRef(s, i), a, Unref(i));
    AddThenDrop(s, i, a);
    AddItemKeepsRefs(AddRef(s, i), a, Unref(i), i);
    UnrefOnly(t.(ptrs := t.ptrs[p := None]), i);
  }

  // Moving a pointer into a target is registering a copy and dropping the
  // pointer: the object outlives the pointer and nothing runs.
  lemma MoveAsCleanupIsCopyAndReset(s: State, p: nat, target: Target)
    requires Inv(s, []) && OpOk(s, MoveAsCleanupTo(p, target))
    ensures Step(Step(s, RegisterCopyWith(p, target)), ResetPtr(p)) == Step(s, MoveAsCleanupTo(p, target))
    ensures var t := Step(s, MoveAsCleanupTo(p, target));
            t.ran == s.ran && t.ptrs[p].None? && (s.ptrs[p].Some? ==> Alive(t, s.ptrs[p].value))
  {
    if s.ptrs[p].Some? {
      PtrAlive(s, p);
      CopyThenDrop(s, p, s.ptrs[p].value, Resolve(s, target));
      MovedInKeeps(s, p, Resolve(s, target));
    }
  }

  lemma ShareThenDrop(s: State, p: nat, q: nat, i: nat)
    requires p < |s.ptrs| && q < |s.ptrs| && p != q && s.ptrs[q] == Some(i) && Alive(s, i) && Refs(s, i) >= 1
    ensures DoReset(AddRef(s, i).(ptrs := s.ptrs[p := Some(i)]), q) == Moved(s, p, q)
  {
    var t := AddRef(s, i).(ptrs := s.ptrs[p := Some(i)]);
    assert Refs(t, i) == Refs(s, i) + 1;
    UnrefOnly(t.(ptrs := t.ptrs[q := None]), i);
    assert DoReset(t, q).impls == s.impls;
  }

  lemma MoveIntoEmpty(t: State, p: nat, q: nat)
    requires Inv(t, []) && p < |t.ptrs| && q < |t.ptrs| && p != q && t.ptrs[p].None?
    ensures var shared :=
              if t.ptrs[q].Some? then AddRef(t, t.ptrs[q].value).(ptrs := t.ptrs[p := t.ptrs[q]]) else t;
            DoReset(shared, q) == Moved(t, p, q)
  {
    if t.ptrs[q].Some? {
      PtrAlive(t, q);
      ShareThenDrop(t, p, q, t.ptrs[q].value);
    } else {
      assert t.ptrs[p := t.ptrs[q]][q := None] == t.ptrs;
    }
  }

  lemma MovedPtrs(s: State, t: State, p: nat, q: nat)
    requires p < |s.ptrs| && q < |s.ptrs| && p != q && t.ptrs == s.ptrs[p := None]
    ensures Moved(t, p, q).ptrs == s.ptrs[p := s.ptrs[q]][q := None]
  {}

  // Move assignment is copy assignment and dropping the source.
  lemma MoveIsCopyAndReset(s: State, p: nat, q: nat)
    requires Inv(s, []) && OpOk(s, MoveAssign(p, q))
    ensures Step(Step(s, CopyAssign(p, q)), ResetPtr(q)) == Step(s, MoveAssign(p, q))
    ensures Step(s, MoveAssign(p, q)).ptrs == s.ptrs[p := s.ptrs[q]][q := None]
  {
    DoResetInv(s, p);
    MoveIntoEmpty(DoReset(s, p), p, q);
    MovedPtrs(s, DoReset(s, p), p, q);
  }

  // Allocation gives the pointer an object of its own.
  lemma AllocateGivesFresh(s: State, p: nat)
    requires Inv(s, []) && OpOk(s, Allocate(p))
    ensures var t, i := Step(s, Allocate(p)), |s.impls|;
            && t.ptrs == s.ptrs[p := Some(i)] && Alive(t, i) && t.impls[i].value == Impl(1, [])
            && forall q | 0 <= q < |t.ptrs| && q != p :: t.ptrs[q] != Some(i)
  {
    forall q | 0 <= q < |s.ptrs| ensures s.ptrs[q] != Some(|s.impls|) {
      PtrAliveIfSome(s, q);
    }
  }
}
