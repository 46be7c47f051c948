// What clients of a cache may rely on, over single operations and whole runs
// (advanced_cache.h:190-416).
module CacheRuns {
  import opened Caches
  import opened Wrappers

  // ----- charge -----

  // Insert fails exactly when the limit is strict and the charge does not
  // fit beside what is in use; a strict success leaves usage within capacity.
  lemma InsertFailsExactly(s: State, op: Op)
    requires Inv(s) && op.Insert? && OpOk(s, op)
    ensures Apply(s, op).1 == MemoryLimit <==> s.strict && s.pinned + op.charge > s.capacity
    ensures s.strict && Apply(s, op).1 != MemoryLimit ==> Apply(s, op).0.usage <= s.capacity
  {
    var t := Evict(s, op.victims, op.charge);
    EvictCore(s, op.victims, op.charge);
    RoomExactly(t, op.charge);
    if !(t.strict && !Fits(t, op.charge)) {
      DoInsertCore(t, op.key, op.obj, op.charge);
      var u := DoInsert(t, op.key, op.obj, op.charge);
      ReleaseUsage(u, |u.entries| - 1, false);
    }
  }

  // CreateStandalone fails only if it may not go uncharged; going uncharged
  // it costs nothing.
  lemma StandaloneFailsExactly(s: State, op: Op)
    requires Inv(s) && op.CreateStandalone? && OpOk(s, op)
    ensures var tooMuch := s.strict && s.pinned + op.charge > s.capacity;
            && (Apply(s, op).1 == MemoryLimit <==> tooMuch && !op.allowUncharged)
            && (Apply(s, op).1.Handle? ==>
                  var t, id := Apply(s, op).0, Apply(s, op).1.id;
                  Resident(t, id) && !Findable(t, id) && t.entries[id].value.charge == if tooMuch then 0 else op.charge)
  {
    EvictCore(s, op.victims, op.charge);
    var t := Evict(s, op.victims, op.charge);
    RoomExactly(t, op.charge);
    assert |t.entries| !in t.table.Values by {
      forall k | k in t.table ensures t.table[k] != |t.entries| {
        assert Resident(t, t.table[k]);
      }
    }
  }

  lemma RoomExactly(t: State, charge: nat)
    requires Core(t) && (Fits(t, charge) || AllReferenced(t))
    ensures Fits(t, charge) <==> t.pinned + charge <= t.capacity
  {
    PinnedWithin(t.entries);
    if AllReferenced(t) {
      assert forall id | 0 <= id < |t.entries| :: t.entries[id].Some? ==> !Evictable(t, id);
    }
  }

  lemma ReleaseUsage(s: State, id: Id, eraseIfLast: bool)
    requires Resident(s, id) && s.entries[id].value.refs > 0
    ensures DoRelease(s, id, eraseIfLast).usage <= s.usage
  {}

  // After lowering the capacity, usage fits or everything left is in use.
  lemma SetCapacityBounds(s: State, op: Op)
    requires Inv(s) && op.SetCapacity? && OpOk(s, op)
    ensures var t := Apply(s, op).0;
            && t.capacity == op.capacity && t.pinned == s.pinned
            && (t.usage <= t.capacity || AllReferenced(t))
            && (t.usage <= t.capacity <==> s.pinned <= op.capacity)
  {
    SetCapacityCore(s, op.capacity);
    EvictCore(s.(capacity := op.capacity), op.victims, 0);
    RoomExactly(Apply(s, op).0, 0);
  }

  // ----- lifetime -----

  ghost predicate SameEntry(s: State, t: State, id: Id) {
    && Resident(s, id) && Resident(t, id)
    && t.entries[id].value.(refs := 0) == s.entries[id].value.(refs := 0)
  }

  lemma DeletesKeep(s: State, t: State, id: Id)
    requires OnlyDeletes(s, t) && Refs(s, id) > 0
    ensures Refs(t, id) > 0 && SameEntry(s, t, id)
  {
    assert !Evictable(s, id);
    assert t.entries[id] == s.entries[id];
  }

  lemma ReleaseKeeps(s: State, released: Id, eraseIfLast: bool, id: Id)
    requires Refs(s, released) > 0 && Refs(s, id) > (if released == id then 1 else 0)
    ensures SameEntry(s, DoRelease(s, released, eraseIfLast), id)
  {
    var t := Relinquish(s, released);
    assert Refs(t, id) > 0 && SameEntry(s, t, id);
  }

  lemma InsertKeeps(s: State, key: Key, obj: Object, charge: nat, id: Id)
    requires Core(s) && Refs(s, id) > 0
    ensures var u := DoInsert(s, key, obj, charge);
            SameEntry(s, u, id) && SameEntry(s, DoRelease(u, |u.entries| - 1, false), id)
  {
    HideCore(s, key);
    DeletesKeep(s, Hide(s, key), id);
    var u := DoInsert(s, key, obj, charge);
    assert u.entries[id] == Hide(s, key).entries[id];
    ReleaseKeeps(u, |u.entries| - 1, false, id);
  }

  lemma PurgeKeeps(s: State, op: Op, id: Id)
    requires Inv(s) && OpOk(s, op) && (op.SetCapacity? || op.EraseUnRefEntries? || op.Erase?) && Refs(s, id) > 0
    ensures SameEntry(s, Apply(s, op).0, id)
  {
    if op.SetCapacity? {
      SetCapacityCore(s, op.capacity);
      EvictCore(s.(capacity := op.capacity), op.victims, 0);
      DeletesKeep(s.(capacity := op.capacity), Apply(s, op).0, id);
    } else if op.Erase? {
      HideCore(s, op.key);
      DeletesKeep(s, Hide(s, op.key), id);
    } else {
      EraseUnRefCore(s);
      DeletesKeep(s, Apply(s, op).0, id);
    }
  }

  lemma InsertionKeeps(s: State, op: Op, id: Id)
    requires Inv(s) && OpOk(s, op) && op.Insert? && Refs(s, id) > 0
    ensures SameEntry(s, Apply(s, op).0, id)
  {
    var t := Evict(s, op.victims, op.charge);
    EvictCore(s, op.victims, op.charge);
    DeletesKeep(s, t, id);
    InsertKeeps(t, op.key, op.obj, op.charge, id);
  }

  lemma CreationKeeps(s: State, op: Op, id: Id)
    requires Inv(s) && OpOk(s, op) && op.CreateStandalone? && Refs(s, id) > 0
    ensures SameEntry(s, Apply(s, op).0, id)
  {
    EvictCore(s, op.victims, op.charge);
    DeletesKeep(s, Evict(s, op.victims, op.charge), id);
  }

  // An entry in use outlives every operation but its own last release.
  lemma InUseKept(s: State, op: Op, id: Id)
    requires Inv(s) && OpOk(s, op) && Refs(s, id) > (if op.Release? && op.id == id then 1 else 0)
    ensures SameEntry(s, Apply(s, op).0, id)
  {
    if op.Insert? {
      InsertionKeeps(s, op, id);
    } else if op.CreateStandalone? {
      CreationKeeps(s, op, id);
    } else if op.SetCapacity? || op.EraseUnRefEntries? || op.Erase? {
      PurgeKeeps(s, op, id);
    } else if op.Release? {
      ReleaseKeeps(s, op.id, op.eraseIfLast, id);
    }
  }

  // While a handle is outstanding its entry is resident, and its object, if
  // handed over only once, has not been deleted.
  lemma HeldObjectNotDeleted(s: State, id: Id)
    requires Inv(s) && s.handles[id] > 0
    ensures Resident(s, id)
    ensures var o := s.entries[id].value.obj; multiset(s.taken)[o] <= 1 ==> o !in s.deleted
  {
    assert Refs(s, id) > 0;
    var o := s.entries[id].value.obj;
    TotalAtLeast(s.entries, id, Copies(o));
    assert multiset(s.deleted)[o] + Total(s.entries, Copies(o)) == multiset(s.taken)[o];
  }

  // No object is deleted more often than it was handed over.
  lemma DeletedAtMostTaken(s: State, o: Object)
    requires Inv(s)
    ensures multiset(s.deleted)[o] <= multiset(s.taken)[o]
  {
    assert multiset(s.deleted)[o] + Total(s.entries, Copies(o)) == multiset(s.taken)[o];
  }

  // A failed Insert leaves the object with the caller, undeleted.
  lemma FailedInsertKeepsOwnership(s: State, op: Op)
    requires Inv(s) && op.Insert? && OpOk(s, op) && Apply(s, op).1 == MemoryLimit
    ensures Apply(s, op).0.taken == s.taken
    ensures op.obj !in s.taken ==> op.obj !in Apply(s, op).0.deleted
  {
    EvictCore(s, op.victims, op.charge);
    ApplyKeepsInv(s, op);
    DeletedAtMostTaken(Apply(s, op).0, op.obj);
  }

  lemma RelinquishEffects(s: State, id: Id)
    requires Refs(s, id) > 0
    ensures var u := Relinquish(s, id);
            && Refs(u, id) == Refs(s, id) - 1 && (forall j: Id | j != id :: Refs(u, j) == Refs(s, j))
            && Resident(u, id) && u.entries[id].value.obj == s.entries[id].value.obj
            && (Findable(u, id) <==> Findable(s, id)) && u.usage == s.usage && u.deleted == s.deleted
  {}

  // Release erases exactly the last reference's entry, and only when asked
  // to, hidden already, or over capacity; its object is then deleted once.
  lemma ReleaseErasesExactly(s: State, op: Op)
    requires Inv(s) && op.Release? && OpOk(s, op)
    ensures var (t, answer) := Apply(s, op);
            var erased := Refs(s, op.id) == 1 && (op.eraseIfLast || !Findable(s, op.id) || s.usage > s.capacity);
            && answer == Flag(erased)
            && t.deleted == s.deleted + (if erased then [s.entries[op.id].value.obj] else [])
            && (forall j: Id | j != op.id :: Refs(t, j) == Refs(s, j))
            && Refs(t, op.id) == Refs(s, op.id) - 1
  {
    RelinquishEffects(s, op.id);
  }

  // The handles outstanding are those given out and not yet released.
  ghost predicate HandlesFollow(s: State, op: Op, t: State, answer: Answer) {
    t.handles ==
      match op
      case Release(id, _) => s.handles - multiset{id}
      case Ref(id) => if answer == Flag(true) then s.handles + multiset{id} else s.handles
      case _ => if answer.Handle? then s.handles + multiset{answer.id} else s.handles
  }

  lemma HandlesFollowAnswers(s: State, op: Op)
    requires Inv(s) && OpOk(s, op)
    ensures HandlesFollow(s, op, Apply(s, op).0, Apply(s, op).1)
    ensures op.Ref? ==> Apply(s, op).1 == Flag(Resident(s, op.id)) && (s.handles[op.id] > 0 ==> Resident(s, op.id))
  {
    if op.Insert? {
      InsertHandles(s, op);
    } else if op.CreateStandalone? {
      CreationHandles(s, op);
    } else if op.SetCapacity? || op.EraseUnRefEntries? || op.Erase? {
      PurgeHandles(s, op);
    } else if op.Release? {
      ReleaseHandles(s, op.id, op.eraseIfLast);
    } else if op.Ref? {
      assert Refs(s, op.id) == s.handles[op.id];
    }
  }

  lemma CreationHandles(s: State, op: Op)
    requires Inv(s) && OpOk(s, op) && op.CreateStandalone?
    ensures HandlesFollow(s, op, Apply(s, op).0, Apply(s, op).1)
  {
    EvictCore(s, op.victims, op.charge);
  }

  lemma PurgeHandles(s: State, op: Op)
    requires Inv(s) && OpOk(s, op) && (op.SetCapacity? || op.EraseUnRefEntries? || op.Erase?)
    ensures Apply(s, op).0.handles == s.handles && Apply(s, op).1 == Done
  {
    if op.SetCapacity? {
      SetCapacityCore(s, op.capacity);
      EvictCore(s.(capacity := op.capacity), op.victims, 0);
    } else if op.EraseUnRefEntries? {
      EraseUnRefCore(s);
    } else {
      HideCore(s, op.key);
    }
  }

  lemma ReleaseHandles(s: State, id: Id, eraseIfLast: bool)
    requires Refs(s, id) > 0
    ensures DoRelease(s, id, eraseIfLast).handles == s.handles - multiset{id}
  {}

  lemma DoInsertHandles(s: State, key: Key, obj: Object, charge: nat)
    requires Core(s)
    ensures var u, id := DoInsert(s, key, obj, charge), |s.entries|;
            && |u.entries| == id + 1 && u.handles == s.handles + multiset{id}
            && DoRelease(u, id, false).handles == s.handles
  {
    HideCore(s, key);
    var u, id := DoInsert(s, key, obj, charge), |s.entries|;
    ReleaseHandles(u, id, false);
    assert (s.handles + multiset{id}) - multiset{id} == s.handles;
  }

  lemma InsertHandles(s: State, op: Op)
    requires Inv(s) && OpOk(s, op) && op.Insert?
    ensures HandlesFollow(s, op, Apply(s, op).0, Apply(s, op).1)
  {
    EvictCore(s, op.victims, op.charge);
    DoInsertHandles(Evict(s, op.victims, op.charge), op.key, op.obj, op.charge);
  }

  // ----- visibility -----

  // No key becomes findable.
  ghost predicate TableShrinks(s: State, t: State) {
    forall k | k in t.table :: k in s.table
  }

  lemma ReleaseShrinksTable(s: State, id: Id, eraseIfLast: bool)
    requires Refs(s, id) > 0
    ensures TableShrinks(s, DoRelease(s, id, eraseIfLast))
  {}

  lemma InsertAddsOnlyItsKey(s: State, key: Key, obj: Object, charge: nat, k: Key)
    requires Core(s) && k !in s.table && k != key
    ensures var u := DoInsert(s, key, obj, charge);
            k !in u.table && k !in DoRelease(u, |u.entries| - 1, false).table
  {
    HideCore(s, key);
    var u := DoInsert(s, key, obj, charge);
    assert k !in u.table;
    ReleaseShrinksTable(u, |u.entries| - 1, false);
  }

  // Only its own insertion makes a key findable.
  lemma OnlyInsertMakesFindable(s: State, op: Op, k: Key)
    requires Inv(s) && OpOk(s, op) && k !in s.table && !(op.Insert? && op.key == k)
    ensures k !in Apply(s, op).0.table
  {
    match op {
      case Insert(key, obj, charge, wantHandle, victims) =>
        EvictCore(s, victims, charge);
        InsertAddsOnlyItsKey(Evict(s, victims, charge), key, obj, charge, k);
      case CreateStandalone(key, obj, charge, allowUncharged, victims) => EvictCore(s, victims, charge);
      case Lookup(key) =>
      case Ref(id) =>
      case Release(id, eraseIfLast) => ReleaseShrinksTable(s, id, eraseIfLast);
      case Erase(key) => HideCore(s, key);
      case SetCapacity(c, victims) =>
        SetCapacityCore(s, c);
        EvictCore(s.(capacity := c), victims, 0);
      case SetStrictCapacityLimit(b) =>
      case EraseUnRefEntries => EraseUnRefCore(s);
    }
  }

  // In use, and what Lookup finds for its key.
  ghost predicate Held(s: State, id: Id) {
    Findable(s, id) && Refs(s, id) > 0
  }

  lemma EvictOneKeepsHeld(s: State, v: Id, id: Id)
    requires Core(s) && Evictable(s, v) && Held(s, id)
    ensures Held(EvictOne(s, v), id)
  {
    assert Findable(s, v) && v != id;
    assert s.entries[v].value.key != s.entries[id].value.key;
  }

  lemma {:induction false} EvictKeepsHeld(s: State, victims: seq<Id>, charge: nat, id: Id)
    requires Core(s) && EvictPath(s, victims, charge) && Held(s, id)
    ensures Held(Evict(s, victims, charge), id)
    decreases victims
  {
    if victims != [] {
      EvictOneCore(s, victims[0]);
      EvictOneKeepsHeld(s, victims[0], id);
      EvictKeepsHeld(EvictOne(s, victims[0]), victims[1..], charge, id);
    }
  }

  lemma SweepKeepsHeld(s: State, id: Id)
    requires Core(s) && Held(s, id)
    ensures Held(Apply(s, EraseUnRefEntries).0, id)
  {
    var p := (t: State, i: nat) => Core(t) && Held(t, id);
    forall t: State, i: nat | p(t, i) && i < |s.entries| ensures p(EraseIfUnRef(t, i), i + 1) {
      if Evictable(t, i) {
        EvictOneCore(t, i);
        EvictOneKeepsHeld(t, i, id);
      }
    }
    SweepKeeps(s, |s.entries|, p);
  }

  lemma HideKeepsHeld(s: State, key: Key, id: Id)
    requires Core(s) && Held(s, id) && s.entries[id].value.key != key
    ensures Held(Hide(s, key), id)
  {}

  lemma InsertionKeepsHeld(s: State, key: Key, obj: Object, charge: nat, id: Id)
    requires Core(s) && Held(s, id) && s.entries[id].value.key != key
    ensures var u := DoInsert(s, key, obj, charge);
            Held(u, id) && Held(DoRelease(u, |u.entries| - 1, false), id)
  {
    HideCore(s, key);
    HideKeepsHeld(s, key, id);
    DeletesKeep(s, Hide(s, key), id);
    var u := DoInsert(s, key, obj, charge);
    assert u.entries[id] == Hide(s, key).entries[id] && Held(u, id);
    ReleaseKeepsHeld(u, |u.entries| - 1, false, id);
  }

  lemma ReleaseKeepsHeld(s: State, released: Id, eraseIfLast: bool, id: Id)
    requires Refs(s, released) > 0 && Held(s, id) && Refs(s, id) > (if released == id then 1 else 0)
    ensures Held(DoRelease(s, released, eraseIfLast), id)
  {
    var t := Relinquish(s, released);
    assert Held(t, id);
  }

  lemma InsertOpKeepsHeld(s: State, op: Op, id: Id)
    requires Inv(s) && OpOk(s, op) && Held(s, id) && op.Insert? && op.key != s.entries[id].value.key
    ensures Held(Apply(s, op).0, id)
  {
    var t := Evict(s, op.victims, op.charge);
    EvictCore(s, op.victims, op.charge);
    EvictKeepsHeld(s, op.victims, op.charge, id);
    DeletesKeep(s, t, id);
    InsertionKeepsHeld(t, op.key, op.obj, op.charge, id);
  }

  lemma PurgeKeepsHeld(s: State, op: Op, id: Id)
    requires Inv(s) && OpOk(s, op) && Held(s, id)
    requires op.SetCapacity? || op.EraseUnRefEntries? || op.CreateStandalone?
    ensures Held(Apply(s, op).0, id)
  {
    if op.SetCapacity? {
      SetCapacityCore(s, op.capacity);
      EvictKeepsHeld(s.(capacity := op.capacity), op.victims, 0, id);
    } else if op.EraseUnRefEntries? {
      SweepKeepsHeld(s, id);
    } else {
      EvictKeepsHeld(s, op.victims, op.charge, id);
    }
  }

  // While it is in use, only its own key's erasure or replacement hides an
  // entry.
  lemma HeldStaysFindable(s: State, op: Op, id: Id)
    requires Inv(s) && OpOk(s, op) && Held(s, id)
    requires Refs(s, id) > (if op.Release? && op.id == id then 1 else 0)
    requires !((op.Insert? || op.Erase?) && op.key == s.entries[id].value.key)
    ensures Held(Apply(s, op).0, id)
  {
    if op.Insert? {
      InsertOpKeepsHeld(s, op, id);
    } else if op.SetCapacity? || op.EraseUnRefEntries? || op.CreateStandalone? {
      PurgeKeepsHeld(s, op, id);
    } else if op.Release? {
      ReleaseKeepsHeld(s, op.id, op.eraseIfLast, id);
    } else if op.Erase? {
      HideKeepsHeld(s, op.key, id);
    }
  }

  // ----- whole runs -----

  ghost predicate RunOk(s: State, ops: seq<Op>)
    decreases ops
  {
    ops == [] || (OpOk(s, ops[0]) && RunOk(Apply(s, ops[0]).0, ops[1..]))
  }

  function Run(s: State, ops: seq<Op>): State
    requires RunOk(s, ops)
    decreases ops
  {
    if ops == [] then s else Run(Apply(s, ops[0]).0, ops[1..])
  }

  function Empty(capacity: nat, strict: bool): State {
    State([], map[], capacity, strict, 0, 0, [], [], multiset{})
  }

  lemma {:induction false} RunKeepsInv(s: State, ops: seq<Op>)
    requires Inv(s) && RunOk(s, ops)
    ensures Inv(Run(s, ops))
    decreases ops
  {
    if ops != [] {
      ApplyKeepsInv(s, ops[0]);
      RunKeepsInv(Apply(s, ops[0]).0, ops[1..]);
    }
  }

  // An erased key stays hidden from Lookup until it is inserted again.
  lemma {:induction false} HiddenUntilInserted(s: State, ops: seq<Op>, k: Key)
    requires Inv(s) && RunOk(s, ops) && k !in s.table
    requires forall i | 0 <= i < |ops| :: !(ops[i].Insert? && ops[i].key == k)
    ensures Apply(Run(s, ops), Lookup(k)).1 == NotFound
    decreases ops
  {
    if ops != [] {
      assert !(ops[0].Insert? && ops[0].key == k);
      OnlyInsertMakesFindable(s, ops[0], k);
      ApplyKeepsInv(s, ops[0]);
      HiddenUntilInserted(Apply(s, ops[0]).0, ops[1..], k);
    }
  }

  lemma ErasedIsHidden(s: State, k: Key, ops: seq<Op>)
    requires Inv(s) && RunOk(Apply(s, Erase(k)).0, ops)
    requires forall i | 0 <= i < |ops| :: !(ops[i].Insert? && ops[i].key == k)
    ensures Apply(Run(Apply(s, Erase(k)).0, ops), Lookup(k)).1 == NotFound
    ensures forall id: Id | Refs(s, id) > 0 :: SameEntry(s, Apply(s, Erase(k)).0, id)
  {
    HideCore(s, k);
    ApplyKeepsInv(s, Erase(k));
    HiddenUntilInserted(Apply(s, Erase(k)).0, ops, k);
    forall id: Id | Refs(s, id) > 0 ensures SameEntry(s, Apply(s, Erase(k)).0, id) {
      InUseKept(s, Erase(k), id);
    }
  }

  // No step gives up the last handle on the entry, or erases or replaces
  // its key.
  ghost predicate LeavesHeld(s: State, ops: seq<Op>, id: Id)
    requires RunOk(s, ops)
    decreases ops
  {
    ops == [] ||
    (Refs(s, id) > (if ops[0].Release? && ops[0].id == id then 1 else 0)
     && (Resident(s, id) ==> !((ops[0].Insert? || ops[0].Erase?) && ops[0].key == s.entries[id].value.key))
     && LeavesHeld(Apply(s, ops[0]).0, ops[1..], id))
  }

  // Until then every Lookup of the key returns that entry, unchanged.
  lemma {:induction false} LookupFindsHeld(s: State, ops: seq<Op>, id: Id)
    requires Inv(s) && RunOk(s, ops) && Held(s, id) && LeavesHeld(s, ops, id)
    ensures Apply(Run(s, ops), Lookup(s.entries[id].value.key)).1 == Handle(id)
    ensures SameEntry(s, Run(s, ops), id)
    decreases ops
  {
    if ops != [] {
      var t := Apply(s, ops[0]).0;
      HeldStaysFindable(s, ops[0], id);
      InUseKept(s, ops[0], id);
      ApplyKeepsInv(s, ops[0]);
      assert t.entries[id].value.key == s.entries[id].value.key;
      LookupFindsHeld(t, ops[1..], id);
    }
  }

  lemma DoInsertHolds(s: State, key: Key, obj: Object, charge: nat)
    requires Core(s)
    ensures var t, id := DoInsert(s, key, obj, charge), |s.entries|;
            && |t.entries| == id + 1 && Held(t, id) && t.entries[id].value == Entry(key, obj, charge, 1)
            && Core(t)
  {
    HideCore(s, key);
    DoInsertCore(s, key, obj, charge);
  }

  lemma HeldIsFound(t: State, id: Id)
    requires Core(t) && Held(t, id)
    ensures Apply(t, Lookup(t.entries[id].value.key)).1 == Handle(id) && t.handles[id] == Refs(t, id)
  {}

  // What a successful Insert stored is what Lookup then returns.
  lemma InsertThenLookup(s: State, op: Op)
    requires Inv(s) && op.Insert? && op.wantHandle && OpOk(s, op) && Apply(s, op).1 != MemoryLimit
    ensures var (t, answer) := Apply(s, op);
            && answer.Handle? && Held(t, answer.id) && t.handles[answer.id] == 1
            && t.entries[answer.id].value.obj == op.obj && t.entries[answer.id].value.charge == op.charge
            && Apply(t, Lookup(op.key)).1 == answer
  {
    var u := Evict(s, op.victims, op.charge);
    EvictCore(s, op.victims, op.charge);
    DoInsertHolds(u, op.key, op.obj, op.charge);
    HeldIsFound(DoInsert(u, op.key, op.obj, op.charge), |u.entries|);
  }

  // With no handle outstanding, removing the unreferenced entries empties
  // the cache, as its destructor does.
  lemma {:induction false} NothingResident(entries: seq<Option<Entry>>, m: Measure)
    requires forall id | 0 <= id < |entries| :: entries[id].None?
    ensures Total(entries, m) == 0
    decreases |entries|
  {
    if entries != [] { NothingResident(entries[..|entries| - 1], m); }
  }

  lemma EraseUnRefEmpties(s: State)
    requires Inv(s) && s.handles == multiset{}
    ensures var t := Apply(s, EraseUnRefEntries).0;
            && t.usage == 0 && t.table == map[]
            && multiset(t.deleted) == multiset(s.taken)
  {
    var t := Apply(s, EraseUnRefEntries).0;
    EraseUnRefCore(s);
    forall id | 0 <= id < |t.entries| ensures t.entries[id].None? {
      assert !Evictable(t, id) && Refs(t, id) == t.handles[id];
    }
    NothingResident(t.entries, Charges);
    forall k: Key ensures k !in t.table {
      assert k in t.table ==> Resident(t, t.table[k]);
    }
    forall o: Object ensures multiset(t.deleted)[o] == multiset(s.taken)[o] {
      NothingResident(t.entries, Copies(o));
    }
  }

  // Whatever happens in between, once every handle is released and the
  // cache destroyed, each object has been deleted as often as handed over.
  lemma EveryObjectDeletedOnce(capacity: nat, strict: bool, ops: seq<Op>)
    requires RunOk(Empty(capacity, strict), ops)
    requires Run(Empty(capacity, strict), ops).handles == multiset{}
    ensures var s := Run(Empty(capacity, strict), ops);
            multiset(Apply(s, EraseUnRefEntries).0.deleted) == multiset(s.taken)
  {
    assert Inv(Empty(capacity, strict));
    RunKeepsInv(Empty(capacity, strict), ops);
    EraseUnRefEmpties(Run(Empty(capacity, strict), ops));
  }
}
