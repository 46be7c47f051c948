// What each cache operation answers, takes, keeps and lets go, and what Lookup
// finds after any run (advanced_cache.h:223-344, cache.h:140-145).
module CacheEffects {
  import opened CacheRuns
  import opened Caches
  import opened Wrappers

  // ----- which victims make room -----

  function ChargeAt(s: State, id: Id): nat {
    if Resident(s, id) then s.entries[id].value.charge else 0
  }

  function ChargeOf(s: State, ids: seq<Id>): nat
    decreases ids
  {
    if ids == [] then 0 else ChargeAt(s, ids[0]) + ChargeOf(s, ids[1..])
  }

  predicate DistinctIds(ids: seq<Id>) {
    forall a, b | 0 <= a < b < |ids| :: ids[a] != ids[b]
  }

  // Distinct unreferenced entries, each needed, and together enough unless
  // nothing else is unreferenced.
  ghost predicate JustEnough(s: State, victims: seq<Id>, charge: nat) {
    && DistinctIds(victims)
    && (forall v | v in victims :: Evictable(s, v))
    && (victims != [] ==> s.usage - ChargeOf(s, victims[..|victims| - 1]) + charge > s.capacity)
    && (s.usage - ChargeOf(s, victims) + charge <= s.capacity || forall id: Id | Evictable(s, id) :: id in victims)
  }

  lemma {:induction false} ChargeWithout(s: State, v: Id, ids: seq<Id>)
    requires Evictable(s, v) && v !in ids
    ensures ChargeOf(EvictOne(s, v), ids) == ChargeOf(s, ids)
    decreases ids
  {
    if ids != [] {
      assert ids[0] != v;
      ChargeWithout(s, v, ids[1..]);
    }
  }

  // Evicting takes away exactly the victims and their charges.
  lemma {:induction false} EvictsExactly(s: State, victims: seq<Id>, charge: nat, id: Id)
    requires EvictPath(s, victims, charge)
    ensures var t := Evict(s, victims, charge);
            && t.usage == s.usage - ChargeOf(s, victims) && |t.entries| == |s.entries|
            && DistinctIds(victims) && (forall v | v in victims :: Evictable(s, v))
            && (id < |s.entries| ==> t.entries[id] == if id in victims then None else s.entries[id])
            && t.capacity == s.capacity && t.strict == s.strict && t.taken == s.taken
    decreases victims
  {
    if victims != [] {
      var v, rest, u := victims[0], victims[1..], EvictOne(s, victims[0]);
      EvictsExactly(u, rest, charge, id);
      assert !Evictable(u, v);
      assert v !in rest;
      ChargeWithout(s, v, rest);
      forall w | w in victims ensures Evictable(s, w) {
        assert w != v ==> w in rest;
      }
    }
  }

  lemma {:induction false} PathExactly(s: State, victims: seq<Id>, charge: nat)
    ensures EvictPath(s, victims, charge) <==>
        && DistinctIds(victims)
        && (forall v | v in victims :: Evictable(s, v))
        && (victims != [] ==> s.usage - ChargeOf(s, victims[..|victims| - 1]) + charge > s.capacity)
    decreases victims
  {
    if victims != [] && Evictable(s, victims[0]) && victims[0] !in victims[1..] {
      var v, rest, u := victims[0], victims[1..], EvictOne(s, victims[0]);
      PathExactly(u, rest, charge);
      EvictOneOthers(s, v);
      if rest != [] {
        assert victims[..|victims| - 1] == [v] + rest[..|rest| - 1];
        ChargeWithout(s, v, rest[..|rest| - 1]);
      }
      assert DistinctIds(victims) <==> DistinctIds(rest) by { DistinctAfter(victims); }
      assert (forall w | w in victims :: Evictable(s, w)) <==> (forall w | w in rest :: Evictable(u, w));
    } else if EvictPath(s, victims, charge) && victims != [] {
      EvictsExactly(s, victims, charge, 0);
      RepeatsFirst(victims);
    }
  }

  lemma DistinctAfter(ids: seq<Id>)
    requires ids != [] && ids[0] !in ids[1..]
    ensures DistinctIds(ids) <==> DistinctIds(ids[1..])
  {
    if DistinctIds(ids[1..]) {
      forall a, b | 0 <= a < b < |ids| ensures ids[a] != ids[b] {
        assert ids[b] == ids[1..][b - 1];
        if a > 0 { assert ids[a] == ids[1..][a - 1]; }
      }
    }
    if DistinctIds(ids) {
      forall a, b | 0 <= a < b < |ids[1..]| ensures ids[1..][a] != ids[1..][b] {
        assert ids[a + 1] != ids[b + 1];
      }
    }
  }

  lemma RepeatsFirst(ids: seq<Id>)
    requires ids != [] && DistinctIds(ids)
    ensures ids[0] !in ids[1..]
  {}

  // Eviction may take any unreferenced entries, but no more than the charge
  // needs and no fewer while there are some left.
  lemma EvictOkExactly(s: State, victims: seq<Id>, charge: nat)
    ensures EvictOk(s, victims, charge) <==> JustEnough(s, victims, charge)
  {
    PathExactly(s, victims, charge);
    if EvictPath(s, victims, charge) {
      var t := Evict(s, victims, charge);
      EvictsExactly(s, victims, charge, 0);
      forall id: Id ensures Evictable(t, id) <==> Evictable(s, id) && id !in victims {
        EvictsExactly(s, victims, charge, id);
      }
      if !AllReferenced(t) {
        var id :| 0 <= id < |t.entries| && Evictable(t, id);
        assert Evictable(s, id) && id !in victims;
      }
    }
  }

  // ----- answers and settings -----

  ghost predicate Succeeds(s: State, op: Op)
    requires OpOk(s, op)
  {
    (op.Insert? || op.CreateStandalone?) && Apply(s, op).1 != MemoryLimit
  }

  // The settings, the number of entries, and what the cache has taken over.
  ghost predicate Grows(s: State, t: State, created: seq<Object>) {
    && t.capacity == s.capacity && t.strict == s.strict
    && |t.entries| == |s.entries| + |created| && t.taken == s.taken + created
  }

  lemma DoInsertGrows(u: State, key: Key, obj: Object, charge: nat)
    requires Core(u)
    ensures var t := DoInsert(u, key, obj, charge);
            Grows(u, t, [obj]) && Grows(u, DoRelease(t, |u.entries|, false), [obj])
  {
    HideCore(u, key);
  }

  lemma InsertGrows(s: State, op: Op)
    requires Inv(s) && OpOk(s, op) && op.Insert?
    ensures Grows(s, Apply(s, op).0, if Succeeds(s, op) then [op.obj] else [])
    ensures Succeeds(s, op) ==> Apply(s, op).1 == if op.wantHandle then Handle(|s.entries|) else Done
  {
    EvictCore(s, op.victims, op.charge);
    DoInsertGrows(Evict(s, op.victims, op.charge), op.key, op.obj, op.charge);
  }

  lemma StandaloneGrows(s: State, op: Op)
    requires Inv(s) && OpOk(s, op) && op.CreateStandalone?
    ensures Grows(s, Apply(s, op).0, if Succeeds(s, op) then [op.obj] else [])
    ensures Succeeds(s, op) ==> Apply(s, op).1 == Handle(|s.entries|)
  {
    EvictCore(s, op.victims, op.charge);
  }

  // SetCapacity and SetStrictCapacityLimit set what they are given, and
  // nothing else does.
  lemma SettingsFollow(s: State, op: Op)
    requires Inv(s) && OpOk(s, op)
    ensures var t := Apply(s, op).0;
            && t.capacity == (if op.SetCapacity? then op.capacity else s.capacity)
            && t.strict == (if op.SetStrictCapacityLimit? then op.strict else s.strict)
  {
    match op {
      case Insert(_, _, _, _, _) => InsertGrows(s, op);
      case CreateStandalone(_, _, _, _, _) => StandaloneGrows(s, op);
      case SetCapacity(c, victims) => EvictsExactly(s.(capacity := c), victims, 0, 0);
      case EraseUnRefEntries => EraseUnRefCore(s);
      case Erase(key) => HideCore(s, key);
      case _ =>
    }
  }

  // The next Insert answers for the limit just set, whatever held before.
  lemma StrictDecidesInsert(s: State, strict: bool, op: Op)
    requires Inv(s) && op.Insert?
    requires OpOk(Apply(s, SetStrictCapacityLimit(strict)).0, op)
    ensures Apply(Apply(s, SetStrictCapacityLimit(strict)).0, op).1 ==
        if strict && s.pinned + op.charge > s.capacity then MemoryLimit
        else if op.wantHandle then Handle(|s.entries|)
        else Done
  {
    var t := Apply(s, SetStrictCapacityLimit(strict)).0;
    ApplyKeepsInv(s, SetStrictCapacityLimit(strict));
    InsertFailsExactly(t, op);
    CreationTakes(t, op);
  }

  lemma PurgeTakesNothing(s: State, op: Op)
    requires Inv(s) && OpOk(s, op) && (op.SetCapacity? || op.EraseUnRefEntries? || op.Erase?)
    ensures |Apply(s, op).0.entries| == |s.entries| && Apply(s, op).0.taken == s.taken
  {
    match op {
      case SetCapacity(c, victims) => EvictsExactly(s.(capacity := c), victims, 0, 0);
      case EraseUnRefEntries => EraseUnRefCore(s);
      case Erase(key) => HideCore(s, key);
    }
  }

  lemma ReferencesTakeNothing(s: State, op: Op)
    requires OpOk(s, op) && (op.Lookup? || op.Ref? || op.Release? || op.SetStrictCapacityLimit?)
    ensures |Apply(s, op).0.entries| == |s.entries| && Apply(s, op).0.taken == s.taken
  {}

  // What an operation that succeeds creates is the next entry; the cache
  // takes its object over, and no other.
  lemma CreationTakes(s: State, op: Op)
    requires Inv(s) && OpOk(s, op)
    ensures var (t, answer) := Apply(s, op);
            && |t.entries| == |s.entries| + (if Succeeds(s, op) then 1 else 0)
            && t.taken == s.taken + (if Succeeds(s, op) then [op.obj] else [])
            && (Succeeds(s, op) ==> answer == if op.Insert? && !op.wantHandle then Done else Handle(|s.entries|))
  {
    if op.Insert? {
      InsertGrows(s, op);
    } else if op.CreateStandalone? {
      StandaloneGrows(s, op);
    } else if op.SetCapacity? || op.EraseUnRefEntries? || op.Erase? {
      PurgeTakesNothing(s, op);
    } else {
      ReferencesTakeNothing(s, op);
    }
  }

  lemma RoomAfterInsert(u: State, key: Key, obj: Object, charge: nat)
    requires Core(u) && (Fits(u, charge) || AllReferenced(u))
    ensures var t := DoInsert(u, key, obj, charge);
            t.usage <= t.capacity <==> u.pinned + charge <= u.capacity
  {
    RoomExactly(u, charge);
    HideCore(u, key);
    if AllReferenced(u) && key in u.table { assert !Evictable(u, u.table[key]); }
  }

  lemma LastReference(t: State, id: Id)
    requires Findable(t, id) && Refs(t, id) == 1
    ensures var r := DoRelease(t, id, false);
            && (Resident(r, id) <==> t.usage <= t.capacity)
            && (Resident(r, id) ==> Findable(r, id) && r.entries[id] == Some(t.entries[id].value.(refs := 0)))
            && (!Resident(r, id) ==> t.entries[id].value.key !in r.table)
  {}

  lemma FindableIsFound(t: State, id: Id)
    requires Findable(t, id)
    ensures Apply(t, Lookup(t.entries[id].value.key)).1 == Handle(id)
  {}

  // An entry that stays is the one described, and what Lookup finds.
  ghost predicate StoredAs(t: State, id: Id, stays: bool, e: Entry) {
    && (Resident(t, id) <==> stays)
    && (stays ==> t.entries[id] == Some(e))
    && Apply(t, Lookup(e.key)).1 == if stays then Handle(id) else NotFound
  }

  lemma InsertIntoStores(u: State, key: Key, obj: Object, charge: nat, wantHandle: bool)
    requires Core(u) && (Fits(u, charge) || AllReferenced(u)) && (u.strict ==> Fits(u, charge))
    ensures var t, id := InsertInto(u, key, obj, charge, wantHandle).0, |u.entries|;
            if wantHandle then StoredAs(t, id, true, Entry(key, obj, charge, 1))
            else StoredAs(t, id, u.pinned + charge <= u.capacity, Entry(key, obj, charge, 0))
  {
    var id := |u.entries|;
    var d := DoInsert(u, key, obj, charge);
    DoInsertHolds(u, key, obj, charge);
    if wantHandle {
      FindableIsFound(d, id);
    } else {
      RoomAfterInsert(u, key, obj, charge);
      LastReference(d, id);
      if Resident(DoRelease(d, id, false), id) { FindableIsFound(DoRelease(d, id, false), id); }
    }
  }

  // Insert stores the key, object and charge it was given. Without a handle
  // the entry stays, ready for Lookup, exactly when there is room beside what
  // is in use.
  lemma InsertStores(s: State, op: Op)
    requires Inv(s) && OpOk(s, op) && op.Insert? && Succeeds(s, op)
    ensures var stays := op.wantHandle || s.pinned + op.charge <= s.capacity;
            StoredAs(Apply(s, op).0, |s.entries|, stays,
              Entry(op.key, op.obj, op.charge, if op.wantHandle then 1 else 0))
  {
    EvictCore(s, op.victims, op.charge);
    InsertIntoStores(Evict(s, op.victims, op.charge), op.key, op.obj, op.charge, op.wantHandle);
  }

  // Leaving out the handle is releasing it at once.
  lemma InsertWithoutHandle(s: State, op: Op)
    requires Inv(s) && OpOk(s, op) && op.Insert? && op.wantHandle && Succeeds(s, op)
    ensures OpOk(Apply(s, op).0, Release(|s.entries|, false))
    ensures Apply(s, op.(wantHandle := false)).0 == Apply(Apply(s, op).0, Release(|s.entries|, false)).0
  {
    EvictCore(s, op.victims, op.charge);
    DoInsertHolds(Evict(s, op.victims, op.charge), op.key, op.obj, op.charge);
  }

  // CreateStandalone stores what it is given too, but for the charge, which is
  // given up where it does not fit; what it creates has one reference and is not found.
  lemma StandaloneStores(s: State, op: Op)
    requires Inv(s) && OpOk(s, op) && op.CreateStandalone? && Succeeds(s, op)
    ensures var t, id := Apply(s, op).0, |s.entries|;
            && Resident(t, id) && !Findable(t, id)
            && t.entries[id].value.key == op.key && t.entries[id].value.obj == op.obj && Refs(t, id) == 1
  {
    EvictsExactly(s, op.victims, op.charge, 0);
    StandaloneFailsExactly(s, op);
  }

  // ----- which entries stay -----

  // The entries that an operation removes: victims, what Erase hides or
  // Insert replaces if nothing refers to it, the last reference's entry when
  // it must go, and in a sweep all that nothing refers to.
  ghost predicate Leaves(s: State, op: Op, id: Id)
    requires OpOk(s, op) && Resident(s, id)
  {
    var e := s.entries[id].value;
    match op
    case Insert(key, _, _, _, victims) => id in victims || (Succeeds(s, op) && e.key == key && e.refs == 0)
    case CreateStandalone(_, _, _, _, victims) => id in victims
    case Release(i, eraseIfLast) =>
      i == id && e.refs == 1 && (eraseIfLast || !Findable(s, id) || s.usage > s.capacity)
    case Erase(key) => e.key == key && e.refs == 0
    case SetCapacity(_, victims) => id in victims
    case EraseUnRefEntries => e.refs == 0
    case _ => false
  }

  // The entry is gone if it leaves, and else the same but for its count.
  ghost predicate GoneIf(s: State, t: State, id: Id, leaves: bool) {
    Resident(s, id) && if leaves then !Resident(t, id) else SameEntry(s, t, id)
  }

  lemma HideRemoves(u: State, key: Key, id: Id)
    requires Core(u) && Resident(u, id)
    ensures Resident(Hide(u, key), id) <==> !(u.entries[id].value.key == key && u.entries[id].value.refs == 0)
    ensures Resident(Hide(u, key), id) ==> Hide(u, key).entries[id] == u.entries[id]
  {
    if Evictable(u, id) { assert Findable(u, id); }
  }

  lemma InsertRemoves(u: State, key: Key, obj: Object, charge: nat, id: Id)
    requires Core(u) && Resident(u, id)
    ensures var e := u.entries[id].value;
            GoneIf(u, DoInsert(u, key, obj, charge), id, e.key == key && e.refs == 0)
  {
    HideRemoves(u, key, id);
    HideCore(u, key);
  }

  lemma InsertBringsNoneBack(u: State, key: Key, obj: Object, charge: nat, id: Id)
    requires Core(u) && id < |u.entries| && !Resident(u, id)
    ensures !Resident(DoInsert(u, key, obj, charge), id)
  {
    HideCore(u, key);
  }

  lemma ReleaseLeavesOthers(t: State, released: Id, id: Id)
    requires Refs(t, released) > 0 && id != released
    ensures Resident(DoRelease(t, released, false), id) <==> Resident(t, id)
    ensures Resident(t, id) ==> SameEntry(t, DoRelease(t, released, false), id)
  {}

  lemma IntoRemoves(u: State, key: Key, obj: Object, charge: nat, wantHandle: bool, id: Id)
    requires Core(u) && id < |u.entries|
    ensures var (t, answer) := InsertInto(u, key, obj, charge, wantHandle);
            if Resident(u, id) then
              var e := u.entries[id].value;
              GoneIf(u, t, id, answer != MemoryLimit && e.key == key && e.refs == 0)
            else !Resident(t, id)
  {
    DoInsertHolds(u, key, obj, charge);
    ReleaseLeavesOthers(DoInsert(u, key, obj, charge), |u.entries|, id);
    if Resident(u, id) {
      InsertRemoves(u, key, obj, charge, id);
    } else {
      InsertBringsNoneBack(u, key, obj, charge, id);
    }
  }

  lemma InsertStays(s: State, op: Op, id: Id)
    requires Inv(s) && OpOk(s, op) && op.Insert? && Resident(s, id)
    ensures GoneIf(s, Apply(s, op).0, id, Leaves(s, op, id))
  {
    EvictCore(s, op.victims, op.charge);
    EvictsExactly(s, op.victims, op.charge, id);
    IntoRemoves(Evict(s, op.victims, op.charge), op.key, op.obj, op.charge, op.wantHandle, id);
  }

  lemma VictimsStay(s: State, op: Op, id: Id)
    requires Inv(s) && OpOk(s, op) && (op.CreateStandalone? || op.SetCapacity?) && Resident(s, id)
    ensures GoneIf(s, Apply(s, op).0, id, id in op.victims)
  {
    match op {
      case CreateStandalone(_, _, charge, _, victims) => EvictsExactly(s, victims, charge, id);
      case SetCapacity(c, victims) => EvictsExactly(s.(capacity := c), victims, 0, id);
    }
  }

  lemma SweepStays(s: State, id: Id)
    requires Inv(s) && Resident(s, id)
    ensures GoneIf(s, Apply(s, EraseUnRefEntries).0, id, s.entries[id].value.refs == 0)
  {
    EraseUnRefCore(s);
    assert !Evictable(Apply(s, EraseUnRefEntries).0, id);
  }

  lemma ReleaseStays(s: State, op: Op, id: Id)
    requires Inv(s) && OpOk(s, op) && op.Release? && Resident(s, id)
    ensures GoneIf(s, Apply(s, op).0, id, Leaves(s, op, id))
  {}

  // Every operation removes exactly those, and changes nothing else of any
  // other entry.
  lemma StaysExactly(s: State, op: Op, id: Id)
    requires Inv(s) && OpOk(s, op) && Resident(s, id)
    ensures GoneIf(s, Apply(s, op).0, id, Leaves(s, op, id))
  {
    match op {
      case Insert(_, _, _, _, _) => InsertStays(s, op, id);
      case CreateStandalone(_, _, _, _, _) => VictimsStay(s, op, id);
      case SetCapacity(_, _) => VictimsStay(s, op, id);
      case EraseUnRefEntries => SweepStays(s, id);
      case Erase(key) => HideRemoves(s, key, id);
      case Release(_, _) => ReleaseStays(s, op, id);
      case _ =>
    }
  }

  // ----- what Lookup finds -----

  datatype Stored = Stored(id: Id, obj: Object, charge: nat)

  // Lookup would find exactly `last` under the key, for as long as that entry
  // is resident.
  ghost predicate LinkOk(s: State, k: Key, last: Option<Stored>) {
    && (last.Some? ==> last.value.id < |s.entries|)
    && (k in s.table <==> last.Some? && Resident(s, last.value.id))
    && (k in s.table ==>
          && s.table[k] == last.value.id
          && s.entries[last.value.id].value.(refs := 0) == Entry(k, last.value.obj, last.value.charge, 0))
  }

  // Only entries go, and a key is hidden only with its entry.
  ghost predicate KeepsLink(s: State, t: State, k: Key) {
    OnlyDeletes(s, t) && (k in s.table && Resident(t, s.table[k]) ==> k in t.table)
  }

  lemma LinkKept(s: State, t: State, k: Key, last: Option<Stored>)
    requires LinkOk(s, k, last) && KeepsLink(s, t, k) && TableOk(t)
    ensures LinkOk(t, k, last)
  {
    if k in s.table { assert t.entries[s.table[k]] == s.entries[s.table[k]] || t.entries[s.table[k]].None?; }
    if k in t.table { assert k in s.table && Resident(t, t.table[k]); }
    if last.Some? && Resident(t, last.value.id) {
      assert t.entries[last.value.id] == s.entries[last.value.id];
    }
  }

  lemma EvictOneKeepsLink(s: State, id: Id, k: Key)
    requires Core(s) && Evictable(s, id)
    ensures KeepsLink(s, EvictOne(s, id), k)
  {
    EvictOneCore(s, id);
    assert Findable(s, id);
  }

  lemma {:induction false} EvictKeepsLink(s: State, victims: seq<Id>, charge: nat, k: Key, last: Option<Stored>)
    requires Core(s) && EvictPath(s, victims, charge) && LinkOk(s, k, last)
    ensures LinkOk(Evict(s, victims, charge), k, last)
    decreases victims
  {
    if victims != [] {
      EvictOneKeepsLink(s, victims[0], k);
      EvictOneCore(s, victims[0]);
      LinkKept(s, EvictOne(s, victims[0]), k, last);
      EvictKeepsLink(EvictOne(s, victims[0]), victims[1..], charge, k, last);
    }
  }

  lemma SweepKeepsLink(s: State, k: Key, last: Option<Stored>)
    requires Core(s) && LinkOk(s, k, last)
    ensures LinkOk(EraseUnRefBelow(s, |s.entries|), k, last)
  {
    var p := (t: State, i: nat) => Core(t) && LinkOk(t, k, last);
    forall t: State, i: nat | p(t, i) && i < |s.entries| ensures p(EraseIfUnRef(t, i), i + 1) {
      if Evictable(t, i) {
        EvictOneKeepsLink(t, i, k);
        EvictOneCore(t, i);
        LinkKept(t, EvictOne(t, i), k, last);
      }
    }
    SweepKeeps(s, |s.entries|, p);
  }

  lemma HideLink(s: State, key: Key, k: Key, last: Option<Stored>)
    requires Core(s) && LinkOk(s, k, last)
    ensures LinkOk(Hide(s, key), k, if k == key then None else last)
  {
    HideCore(s, key);
    if k != key {
      assert KeepsLink(s, Hide(s, key), k);
      LinkKept(s, Hide(s, key), k, last);
    }
  }

  lemma DoInsertLink(s: State, key: Key, obj: Object, charge: nat, k: Key, last: Option<Stored>)
    requires Core(s) && LinkOk(s, k, last)
    ensures LinkOk(DoInsert(s, key, obj, charge), k, if k == key then Some(Stored(|s.entries|, obj, charge)) else last)
  {
    HideLink(s, key, k, last);
    HideCore(s, key);
  }

  lemma AcquireLink(s: State, id: Id, k: Key, last: Option<Stored>)
    requires Resident(s, id) && LinkOk(s, k, last)
    ensures LinkOk(Acquire(s, id), k, last)
  {}

  lemma RelinquishLink(s: State, id: Id, k: Key, last: Option<Stored>)
    requires Resident(s, id) && Refs(s, id) > 0 && LinkOk(s, k, last)
    ensures LinkOk(Relinquish(s, id), k, last)
  {}

  lemma GoneLink(t: State, id: Id, k: Key, last: Option<Stored>)
    requires TableOk(t) && Evictable(t, id) && LinkOk(t, k, last)
    ensures LinkOk(if Findable(t, id) then EvictOne(t, id) else Drop(t, id), k, last)
  {
    if k in t.table { assert Resident(t, t.table[k]) && t.entries[t.table[k]].value.key == k; }
  }

  lemma DoReleaseLink(s: State, id: Id, eraseIfLast: bool, k: Key, last: Option<Stored>)
    requires TableOk(s) && Refs(s, id) > 0 && LinkOk(s, k, last)
    ensures LinkOk(DoRelease(s, id, eraseIfLast), k, last)
  {
    var t := Relinquish(s, id);
    RelinquishLink(s, id, k, last);
    if Evictable(t, id) { GoneLink(t, id, k, last); }
  }

  // The last entry inserted under the key and not erased since.
  function Relinked(s: State, op: Op, k: Key, last: Option<Stored>): Option<Stored>
    requires OpOk(s, op)
  {
    match op
    case Insert(key, obj, charge, _, _) =>
      if key == k && Apply(s, op).1 != MemoryLimit then Some(Stored(|s.entries|, obj, charge)) else last
    case Erase(key) => if key == k then None else last
    case _ => last
  }

  lemma InsertIntoLink(
      u: State, key: Key, obj: Object, charge: nat, wantHandle: bool, k: Key, last: Option<Stored>)
    requires Core(u) && LinkOk(u, k, last)
    ensures var (t, answer) := InsertInto(u, key, obj, charge, wantHandle);
            LinkOk(t, k, if key == k && answer != MemoryLimit then Some(Stored(|u.entries|, obj, charge)) else last)
  {
    DoInsertLink(u, key, obj, charge, k, last);
    DoInsertHolds(u, key, obj, charge);
    DoReleaseLink(DoInsert(u, key, obj, charge), |u.entries|, false, k,
      if k == key then Some(Stored(|u.entries|, obj, charge)) else last);
  }

  lemma InsertLink(s: State, op: Op, k: Key, last: Option<Stored>)
    requires Inv(s) && OpOk(s, op) && op.Insert? && LinkOk(s, k, last)
    ensures LinkOk(Apply(s, op).0, k, Relinked(s, op, k, last))
  {
    EvictCore(s, op.victims, op.charge);
    EvictKeepsLink(s, op.victims, op.charge, k, last);
    InsertIntoLink(Evict(s, op.victims, op.charge), op.key, op.obj, op.charge, op.wantHandle, k, last);
  }

  lemma ApplyLink(s: State, op: Op, k: Key, last: Option<Stored>)
    requires Inv(s) && OpOk(s, op) && LinkOk(s, k, last)
    ensures LinkOk(Apply(s, op).0, k, Relinked(s, op, k, last))
  {
    match op {
      case Insert(_, _, _, _, _) => InsertLink(s, op, k, last);
      case CreateStandalone(_, _, charge, _, victims) => EvictKeepsLink(s, victims, charge, k, last);
      case Lookup(key) => if key in s.table { AcquireLink(s, s.table[key], k, last); }
      case Ref(id) => if Resident(s, id) { AcquireLink(s, id, k, last); }
      case Release(id, eraseIfLast) => DoReleaseLink(s, id, eraseIfLast, k, last);
      case Erase(key) => HideLink(s, key, k, last);
      case SetCapacity(c, victims) =>
        SetCapacityCore(s, c);
        EvictKeepsLink(s.(capacity := c), victims, 0, k, last);
      case SetStrictCapacityLimit(_) =>
      case EraseUnRefEntries => SweepKeepsLink(s, k, last);
    }
  }

  function LastStored(s: State, ops: seq<Op>, k: Key, last: Option<Stored>): Option<Stored>
    requires RunOk(s, ops)
    decreases ops
  {
    if ops == [] then last else LastStored(Apply(s, ops[0]).0, ops[1..], k, Relinked(s, ops[0], k, last))
  }

  lemma {:induction false} RunLink(s: State, ops: seq<Op>, k: Key, last: Option<Stored>)
    requires Inv(s) && RunOk(s, ops) && LinkOk(s, k, last)
    ensures LinkOk(Run(s, ops), k, LastStored(s, ops, k, last))
    decreases ops
  {
    if ops != [] {
      ApplyLink(s, ops[0], k, last);
      ApplyKeepsInv(s, ops[0]);
      RunLink(Apply(s, ops[0]).0, ops[1..], k, Relinked(s, ops[0], k, last));
    }
  }

  // After any run Lookup finds the last entry inserted under the key and not
  // erased since, exactly as long as it is resident, with what was inserted.
  lemma LookupExactly(capacity: nat, strict: bool, ops: seq<Op>, k: Key)
    requires RunOk(Empty(capacity, strict), ops)
    ensures var s, last := Run(Empty(capacity, strict), ops), LastStored(Empty(capacity, strict), ops, k, None);
            var found := last.Some? && Resident(s, last.value.id);
            && Apply(s, Lookup(k)).1 == (if found then Handle(last.value.id) else NotFound)
            && (found ==>
                  s.entries[last.value.id].value.(refs := 0) == Entry(k, last.value.obj, last.value.charge, 0))
  {
    assert Inv(Empty(capacity, strict));
    RunLink(Empty(capacity, strict), ops, k, None);
  }

  lemma {:induction false} NotRelinked(s: State, ops: seq<Op>, k: Key, last: Option<Stored>)
    requires RunOk(s, ops)
    requires forall i | 0 <= i < |ops| :: !((ops[i].Insert? || ops[i].Erase?) && ops[i].key == k)
    ensures LastStored(s, ops, k, last) == last
    decreases ops
  {
    if ops != [] {
      assert !((ops[0].Insert? || ops[0].Erase?) && ops[0].key == k);
      NotRelinked(Apply(s, ops[0]).0, ops[1..], k, last);
    }
  }

  // An entry that Lookup finds it keeps finding, referred to or not, until its
  // key is inserted or erased or the entry is gone.
  lemma FoundWhileResident(s: State, ops: seq<Op>, id: Id)
    requires Inv(s) && RunOk(s, ops) && Findable(s, id)
    requires forall i | 0 <= i < |ops| ::
               !((ops[i].Insert? || ops[i].Erase?) && ops[i].key == s.entries[id].value.key)
    ensures Apply(Run(s, ops), Lookup(s.entries[id].value.key)).1 ==
        if Resident(Run(s, ops), id) then Handle(id) else NotFound
  {
    var e := s.entries[id].value;
    RunLink(s, ops, e.key, Some(Stored(id, e.obj, e.charge)));
    NotRelinked(s, ops, e.key, Some(Stored(id, e.obj, e.charge)));
  }

  // A released entry that was not erased is what the next Lookup returns,
  // even when nothing refers to it any more.
  lemma ReleasedThenLookup(s: State, id: Id, eraseIfLast: bool)
    requires Inv(s) && Findable(s, id) && OpOk(s, Release(id, eraseIfLast))
    ensures var (t, answer) := Apply(s, Release(id, eraseIfLast));
            Apply(t, Lookup(s.entries[id].value.key)).1 == if answer == Flag(false) then Handle(id) else NotFound
  {
    FoundWhileResident(s, [Release(id, eraseIfLast)], id);
  }
}
