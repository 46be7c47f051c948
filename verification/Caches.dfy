// Lifetime and charge accounting of cache entries (advanced_cache.h:190-416,
// cache.h:140-145). Each operation is one atomic step; which unreferenced
// entries are evicted is left open.
module Caches {
  import opened Bytes
  import opened Wrappers

  type Key = Slice
  type Id = nat      // entries are numbered in order of creation; a handle is an entry's number
  type Object = nat

  datatype Entry = Entry(key: Key, obj: Object, charge: nat, refs: nat)

  datatype State = State(
    entries: seq<Option<Entry>>,   // None once deleted
    table: map<Key, Id>,           // what Lookup can find
    capacity: nat,
    strict: bool,
    usage: int,
    pinned: int,
    deleted: seq<Object>,          // deleter calls made
    taken: seq<Object>,            // objects the cache took ownership of
    handles: multiset<Id>)         // handles clients have yet to release

  predicate Resident(s: State, id: Id) {
    id < |s.entries| && s.entries[id].Some?
  }

  function Refs(s: State, id: Id): nat {
    if Resident(s, id) then s.entries[id].value.refs else 0
  }

  predicate Evictable(s: State, id: Id) {
    Resident(s, id) && s.entries[id].value.refs == 0
  }

  predicate AllReferenced(s: State) {
    forall id | 0 <= id < |s.entries| :: !Evictable(s, id)
  }

  predicate Fits(s: State, charge: nat) {
    s.usage + charge <= s.capacity
  }

  // ----- the primitive changes -----

  function Unlink(s: State, key: Key): State {
    s.(table := s.table - {key})
  }

  // Delete an entry that nothing refers to.
  function Drop(s: State, id: Id): State
    requires Evictable(s, id)
  {
    var e := s.entries[id].value;
    s.(entries := s.entries[id := None], usage := s.usage - e.charge, deleted := s.deleted + [e.obj])
  }

  function Acquire(s: State, id: Id): State
    requires Resident(s, id)
  {
    var e := s.entries[id].value;
    s.(entries := s.entries[id := Some(e.(refs := e.refs + 1))],
       pinned := s.pinned + if e.refs == 0 then e.charge else 0,
       handles := s.handles + multiset{id})
  }

  function Relinquish(s: State, id: Id): State
    requires Resident(s, id) && s.entries[id].value.refs > 0
  {
    var e := s.entries[id].value;
    s.(entries := s.entries[id := Some(e.(refs := e.refs - 1))],
       pinned := s.pinned - if e.refs == 1 then e.charge else 0,
       handles := s.handles - multiset{id})
  }

  // A new entry with one reference, not yet findable.
  function Append(s: State, key: Key, obj: Object, charge: nat): State {
    s.(entries := s.entries + [Some(Entry(key, obj, charge, 1))],
       usage := s.usage + charge, pinned := s.pinned + charge,
       taken := s.taken + [obj], handles := s.handles + multiset{|s.entries|})
  }

  // Make the key unfindable; its entry goes now if nothing refers to it.
  function Hide(s: State, key: Key): State {
    if key !in s.table then s
    else if Evictable(s, s.table[key]) then Drop(Unlink(s, key), s.table[key])
    else Unlink(s, key)
  }

  function EvictOne(s: State, id: Id): State
    requires Evictable(s, id)
  {
    Drop(Unlink(s, s.entries[id].value.key), id)
  }

  // Victims evicted one after the other: never one more than needed to make
  // room for `charge`, and never an entry in use.
  predicate EvictPath(s: State, victims: seq<Id>, charge: nat)
    decreases victims
  {
    victims == [] ||
    (!Fits(s, charge) && Evictable(s, victims[0]) && EvictPath(EvictOne(s, victims[0]), victims[1..], charge))
  }

  function Evict(s: State, victims: seq<Id>, charge: nat): State
    requires EvictPath(s, victims, charge)
    decreases victims
  {
    if victims == [] then s else Evict(EvictOne(s, victims[0]), victims[1..], charge)
  }

  // Nor is stopping early allowed.
  predicate EvictOk(s: State, victims: seq<Id>, charge: nat) {
    && EvictPath(s, victims, charge)
    && (Fits(Evict(s, victims, charge), charge) || AllReferenced(Evict(s, victims, charge)))
  }

  // ----- operations -----

  datatype Op =
    | Insert(key: Key, obj: Object, charge: nat, wantHandle: bool, victims: seq<Id>)
    | CreateStandalone(key: Key, obj: Object, charge: nat, allowUncharged: bool, victims: seq<Id>)
    | Lookup(key: Key)
    | Ref(id: Id)
    | Release(id: Id, eraseIfLast: bool)
    | Erase(key: Key)
    | SetCapacity(capacity: nat, victims: seq<Id>)
    | SetStrictCapacityLimit(strict: bool)
    | EraseUnRefEntries

  datatype Answer = Done | MemoryLimit | Handle(id: Id) | NotFound | Flag(yes: bool)

  // What the caller must see to: handles are used only while not released.
  predicate OpOk(s: State, op: Op) {
    match op
    case Insert(_, _, charge, _, victims) => EvictOk(s, victims, charge)
    case CreateStandalone(_, _, charge, _, victims) => EvictOk(s, victims, charge)
    case Ref(id) => id < |s.entries|
    case Release(id, _) => Resident(s, id) && s.entries[id].value.refs > 0
    case SetCapacity(c, victims) => EvictOk(s.(capacity := c), victims, 0)
    case _ => true
  }

  function DoInsert(s: State, key: Key, obj: Object, charge: nat): State {
    var t := Append(Hide(s, key), key, obj, charge);
    t.(table := t.table[key := |t.entries| - 1])
  }

  // An entry with no reference left stays only if it can still be found,
  // need not go, and there is room.
  function DoRelease(s: State, id: Id, eraseIfLast: bool): State
    requires Resident(s, id) && s.entries[id].value.refs > 0
  {
    var t := Relinquish(s, id);
    if Evictable(t, id) && (!Findable(t, id) || eraseIfLast || t.usage > t.capacity) then
      if Findable(t, id) then EvictOne(t, id) else Drop(t, id)
    else t
  }

  // What Insert does once there is all the room there can be.
  function InsertInto(s: State, key: Key, obj: Object, charge: nat, wantHandle: bool): (State, Answer) {
    if s.strict && !Fits(s, charge) then (s, MemoryLimit)
    else
      var t := DoInsert(s, key, obj, charge);
      var id := |t.entries| - 1;
      if wantHandle then (t, Handle(id)) else (DoRelease(t, id, false), Done)
  }

  predicate Findable(s: State, id: Id) {
    Resident(s, id) && s.entries[id].value.key in s.table && s.table[s.entries[id].value.key] == id
  }

  function EraseUnRefBelow(s: State, n: nat): (t: State)
    requires n <= |s.entries|
    ensures |t.entries| == |s.entries|
  {
    if n == 0 then s
    else EraseIfUnRef(EraseUnRefBelow(s, n - 1), n - 1)
  }

  function EraseIfUnRef(s: State, id: Id): (t: State)
    ensures |t.entries| == |s.entries|
  {
    if Evictable(s, id) then EvictOne(s, id) else s
  }

  lemma {:induction false} EraseNext(s: State, n: nat)
    requires n < |s.entries|
    ensures EraseUnRefBelow(s, n + 1) == EraseIfUnRef(EraseUnRefBelow(s, n), n)
  {}

  function Apply(s: State, op: Op): (State, Answer)
    requires OpOk(s, op)
  {
    match op
    case Insert(key, obj, charge, wantHandle, victims) =>
      InsertInto(Evict(s, victims, charge), key, obj, charge, wantHandle)
    case CreateStandalone(key, obj, charge, allowUncharged, victims) =>
      var t := Evict(s, victims, charge);
      if t.strict && !Fits(t, charge) then
        if allowUncharged then (Append(t, key, obj, 0), Handle(|t.entries|)) else (t, MemoryLimit)
      else (Append(t, key, obj, charge), Handle(|t.entries|))
    case Lookup(key) =>
      if key in s.table && Resident(s, s.table[key]) then (Acquire(s, s.table[key]), Handle(s.table[key]))
      else (s, NotFound)
    case Ref(id) =>
      if Resident(s, id) then (Acquire(s, id), Flag(true)) else (s, Flag(false))
    case Release(id, eraseIfLast) =>
      var t := DoRelease(s, id, eraseIfLast);
      (t, Flag(!Resident(t, id)))
    case Erase(key) => (Hide(s, key), Done)
    case SetCapacity(c, victims) => (Evict(s.(capacity := c), victims, 0), Done)
    case SetStrictCapacityLimit(b) => (s.(strict := b), Done)
    case EraseUnRefEntries => (EraseUnRefBelow(s, |s.entries|), Done)
  }

  // ----- what is counted -----

  datatype Measure = Charges | PinnedCharges | Copies(obj: Object)

  function Weigh(e: Option<Entry>, m: Measure): nat {
    if e.None? then 0
    else match m
      case Charges => e.value.charge
      case PinnedCharges => if e.value.refs > 0 then e.value.charge else 0
      case Copies(o) => if e.value.obj == o then 1 else 0
  }

  function Total(entries: seq<Option<Entry>>, m: Measure): nat {
    if entries == [] then 0 else Total(entries[..|entries| - 1], m) + Weigh(entries[|entries| - 1], m)
  }

  lemma {:induction false} TotalUpdate(entries: seq<Option<Entry>>, id: Id, e: Option<Entry>, m: Measure)
    requires id < |entries|
    ensures Total(entries[id := e], m) + Weigh(entries[id], m) == Total(entries, m) + Weigh(e, m)
    decreases |entries|
  {
    var n := |entries| - 1;
    var updated := entries[id := e];
    if id < n {
      TotalUpdate(entries[..n], id, e, m);
      assert updated[..n] == entries[..n][id := e];
    } else {
      assert updated[..n] == entries[..n];
    }
  }

  lemma TotalAppend(entries: seq<Option<Entry>>, e: Option<Entry>, m: Measure)
    ensures Total(entries + [e], m) == Total(entries, m) + Weigh(e, m)
  {
    assert (entries + [e])[..|entries|] == entries;
  }

  lemma {:induction false} TotalAtLeast(entries: seq<Option<Entry>>, id: Id, m: Measure)
    requires id < |entries|
    ensures Total(entries, m) >= Weigh(entries[id], m)
  {
    TotalUpdate(entries, id, None, m);
  }

  lemma {:induction false} PinnedWithin(entries: seq<Option<Entry>>)
    ensures Total(entries, PinnedCharges) <= Total(entries, Charges)
    ensures (forall id | 0 <= id < |entries| :: entries[id].Some? ==> entries[id].value.refs > 0)
            ==> Total(entries, PinnedCharges) == Total(entries, Charges)
    decreases |entries|
  {
    if entries != [] { PinnedWithin(entries[..|entries| - 1]); }
  }

  // ----- the invariant -----

  ghost predicate TableOk(s: State) {
    forall k | k in s.table :: Resident(s, s.table[k]) && s.entries[s.table[k]].value.key == k
  }

  ghost predicate CountsOk(s: State) {
    && s.usage == Total(s.entries, Charges)
    && s.pinned == Total(s.entries, PinnedCharges)
    && (forall o: Object :: multiset(s.deleted)[o] + Total(s.entries, Copies(o)) == multiset(s.taken)[o])
    && (forall id: Id :: Refs(s, id) == s.handles[id])
  }

  // An entry without references is one that Lookup can find.
  ghost predicate UnreferencedFindable(s: State) {
    forall id: Id | Evictable(s, id) :: Findable(s, id)
  }

  ghost predicate Inv(s: State) {
    && TableOk(s) && CountsOk(s) && UnreferencedFindable(s)
    && (s.usage <= s.capacity || AllReferenced(s))
  }

  ghost predicate Core(s: State) {
    TableOk(s) && CountsOk(s) && UnreferencedFindable(s)
  }

  // ----- the primitive changes keep the counts -----

  lemma DropCounts(s: State, id: Id)
    requires CountsOk(s) && Evictable(s, id)
    ensures CountsOk(Drop(s, id))
  {
    var t, e := Drop(s, id), s.entries[id].value;
    TotalUpdate(s.entries, id, None, Charges);
    TotalUpdate(s.entries, id, None, PinnedCharges);
    forall o: Object ensures multiset(t.deleted)[o] + Total(t.entries, Copies(o)) == multiset(t.taken)[o] {
      TotalUpdate(s.entries, id, None, Copies(o));
    }
    forall j: Id ensures Refs(t, j) == t.handles[j] {
      assert Refs(s, j) == s.handles[j];
    }
  }

  // Every total moves by what the entry's own weight does.
  ghost predicate TotalMoves(s: State, id: Id, t: State, m: Measure)
    requires id < |s.entries| && id < |t.entries|
  {
    Total(t.entries, m) + Weigh(s.entries[id], m) == Total(s.entries, m) + Weigh(t.entries[id], m)
  }

  lemma {:induction false} SetRefsTotals(s: State, id: Id, t: State, m: Measure)
    requires Resident(s, id)
    requires (t == Acquire(s, id)) || (s.entries[id].value.refs > 0 && t == Relinquish(s, id))
    ensures TotalMoves(s, id, t, m)
  {
    TotalUpdate(s.entries, id, t.entries[id], m);
  }

  lemma {:induction false} SetRefsCounts(s: State, id: Id, t: State)
    requires CountsOk(s) && Resident(s, id)
    requires (t == Acquire(s, id)) || (s.entries[id].value.refs > 0 && t == Relinquish(s, id))
    ensures CountsOk(t)
  {
    SetRefsTotals(s, id, t, Charges);
    SetRefsTotals(s, id, t, PinnedCharges);
    forall o: Object ensures multiset(t.deleted)[o] + Total(t.entries, Copies(o)) == multiset(t.taken)[o] {
      SetRefsTotals(s, id, t, Copies(o));
    }
    forall j: Id ensures Refs(t, j) == t.handles[j] {
      assert Refs(s, j) == s.handles[j];
    }
  }

  lemma AppendCounts(s: State, key: Key, obj: Object, charge: nat)
    requires CountsOk(s)
    ensures CountsOk(Append(s, key, obj, charge))
  {
    var t, e := Append(s, key, obj, charge), Some(Entry(key, obj, charge, 1));
    TotalAppend(s.entries, e, Charges);
    TotalAppend(s.entries, e, PinnedCharges);
    forall o: Object ensures multiset(t.deleted)[o] + Total(t.entries, Copies(o)) == multiset(t.taken)[o] {
      TotalAppend(s.entries, e, Copies(o));
    }
    forall j: Id ensures Refs(t, j) == t.handles[j] {
      assert Refs(s, j) == s.handles[j];
    }
  }

  // ----- and the rest of the invariant -----

  // What an operation may not touch: entries in use, and all bookkeeping
  // but deletions.
  ghost predicate OnlyDeletes(s: State, t: State) {
    && |t.entries| == |s.entries|
    && (forall id: Id | id < |s.entries| :: t.entries[id] == s.entries[id] || (t.entries[id].None? && Evictable(s, id)))
    && t.capacity == s.capacity && t.strict == s.strict && t.pinned == s.pinned
    && t.taken == s.taken && t.handles == s.handles
    && (forall k | k in t.table :: k in s.table && t.table[k] == s.table[k])
  }

  lemma OnlyDeletesTransitive(s: State, t: State, u: State)
    requires OnlyDeletes(s, t) && OnlyDeletes(t, u)
    ensures OnlyDeletes(s, u)
  {
    forall id: Id | id < |s.entries|
      ensures u.entries[id] == s.entries[id] || (u.entries[id].None? && Evictable(s, id))
    {
      assert u.entries[id] == t.entries[id] || (u.entries[id].None? && Evictable(t, id));
    }
  }

  lemma OnlyDeletesReferenced(s: State, t: State)
    requires OnlyDeletes(s, t) && AllReferenced(s)
    ensures AllReferenced(t)
  {
    forall id: Id | id < |t.entries| ensures !Evictable(t, id) {
      assert !Evictable(s, id);
      assert t.entries[id] == s.entries[id];
    }
  }

  lemma EvictOneCore(s: State, id: Id)
    requires Core(s) && Evictable(s, id)
    ensures Core(EvictOne(s, id)) && OnlyDeletes(s, EvictOne(s, id))
  {
    var u := Unlink(s, s.entries[id].value.key);
    assert Findable(s, id);
    assert CountsOk(u);
    DropCounts(u, id);
    var t := EvictOne(s, id);
    forall j: Id | Evictable(t, j) ensures Findable(t, j) {
      assert Evictable(s, j) && Findable(s, j);
    }
  }

  lemma EvictOneOthers(s: State, id: Id)
    requires Evictable(s, id)
    ensures forall j: Id :: Evictable(EvictOne(s, id), j) <==> Evictable(s, j) && j != id
  {}

  lemma {:induction false} EvictCore(s: State, victims: seq<Id>, charge: nat)
    requires Core(s) && EvictPath(s, victims, charge)
    ensures Core(Evict(s, victims, charge)) && OnlyDeletes(s, Evict(s, victims, charge))
    decreases victims
  {
    if victims != [] {
      EvictOneCore(s, victims[0]);
      EvictCore(EvictOne(s, victims[0]), victims[1..], charge);
      OnlyDeletesTransitive(s, EvictOne(s, victims[0]), Evict(s, victims, charge));
    }
  }

  lemma {:induction false} EvictAppend(s: State, victims: seq<Id>, charge: nat, v: Id)
    requires EvictPath(s, victims, charge)
    requires !Fits(Evict(s, victims, charge), charge) && Evictable(Evict(s, victims, charge), v)
    ensures EvictPath(s, victims + [v], charge)
    ensures Evict(s, victims + [v], charge) == EvictOne(Evict(s, victims, charge), v)
    decreases victims
  {
    if victims == [] {
      assert victims + [v] == [v] && [v][1..] == [];
      assert EvictPath(EvictOne(s, v), [], charge);
    } else {
      EvictAppend(EvictOne(s, victims[0]), victims[1..], charge, v);
      assert (victims + [v])[1..] == victims[1..] + [v];
    }
  }

  lemma HideCore(s: State, key: Key)
    requires Core(s)
    ensures Core(Hide(s, key)) && OnlyDeletes(s, Hide(s, key)) && key !in Hide(s, key).table
    ensures Hide(s, key).usage <= s.usage
    ensures AllReferenced(s) ==> AllReferenced(Hide(s, key))
  {
    if key in s.table {
      var id := s.table[key];
      if Evictable(s, id) {
        EvictOneCore(s, id);
      } else {
        var t := Unlink(s, key);
        forall j: Id | Evictable(t, j) ensures Findable(t, j) {
          assert Evictable(s, j) && Findable(s, j);
        }
      }
    }
    if AllReferenced(s) { OnlyDeletesReferenced(s, Hide(s, key)); }
  }

  lemma AcquireInv(s: State, id: Id)
    requires Inv(s) && Resident(s, id)
    ensures Inv(Acquire(s, id))
  {
    var t := Acquire(s, id);
    SetRefsCounts(s, id, t);
    forall j: Id | Evictable(t, j) ensures Findable(t, j) && Evictable(s, j) {
      assert Evictable(s, j) && Findable(s, j);
    }
  }

  // All of the invariant but for one entry, just released for the last time.
  ghost predicate CoreExcept(t: State, id: Id) {
    && TableOk(t) && CountsOk(t)
    && (forall j: Id | Evictable(t, j) && j != id :: Findable(t, j))
    && (t.usage <= t.capacity || forall j: Id | Evictable(t, j) :: j == id)
  }

  lemma RelinquishCore(s: State, id: Id)
    requires Inv(s) && Resident(s, id) && s.entries[id].value.refs > 0
    ensures CoreExcept(Relinquish(s, id), id)
  {
    var t := Relinquish(s, id);
    SetRefsCounts(s, id, t);
    forall j: Id | Evictable(t, j) && j != id ensures Findable(t, j) && Evictable(s, j) {
      assert Evictable(s, j) && Findable(s, j);
    }
  }

  lemma DoReleaseInv(s: State, id: Id, eraseIfLast: bool)
    requires Inv(s) && Resident(s, id) && s.entries[id].value.refs > 0
    ensures Inv(DoRelease(s, id, eraseIfLast))
  {
    RelinquishCore(s, id);
    ReleasedInv(Relinquish(s, id), id, eraseIfLast);
  }

  lemma CoreExceptFindable(t: State, id: Id)
    requires CoreExcept(t, id) && Findable(t, id)
    ensures Core(t)
  {}

  lemma ReleasedInv(t: State, id: Id, eraseIfLast: bool)
    requires CoreExcept(t, id) && Resident(t, id)
    ensures var gone := Evictable(t, id) && (!Findable(t, id) || eraseIfLast || t.usage > t.capacity);
            Inv(if !gone then t else if Findable(t, id) then EvictOne(t, id) else Drop(t, id))
  {
    if Evictable(t, id) {
      if Findable(t, id) {
        CoreExceptFindable(t, id);
        EvictOneCore(t, id);
        assert forall j: Id | Evictable(EvictOne(t, id), j) :: Evictable(t, j) && j != id;
      } else {
        DropUnfindable(t, id);
      }
    }
  }

  lemma DropUnfindable(t: State, id: Id)
    requires TableOk(t) && CountsOk(t) && Evictable(t, id) && !Findable(t, id)
    requires forall j: Id | Evictable(t, j) && j != id :: Findable(t, j)
    ensures Core(Drop(t, id))
    ensures forall j: Id | Evictable(Drop(t, id), j) :: Evictable(t, j) && j != id
  {
    DropCounts(t, id);
    var u := Drop(t, id);
    forall j: Id | Evictable(u, j) ensures Findable(u, j) && Evictable(t, j) && j != id {
      assert Evictable(t, j) && j != id;
    }
  }

  lemma AppendCore(s: State, key: Key, obj: Object, charge: nat)
    requires Core(s)
    ensures Core(Append(s, key, obj, charge))
    ensures AllReferenced(s) ==> AllReferenced(Append(s, key, obj, charge))
  {
    AppendCounts(s, key, obj, charge);
    var t := Append(s, key, obj, charge);
    forall j: Id | Evictable(t, j) ensures Findable(t, j) && Evictable(s, j) {
      assert Evictable(s, j) && Findable(s, j);
    }
  }

  lemma DoInsertCore(s: State, key: Key, obj: Object, charge: nat)
    requires Core(s)
    ensures Core(DoInsert(s, key, obj, charge))
    ensures AllReferenced(s) ==> AllReferenced(DoInsert(s, key, obj, charge))
    ensures DoInsert(s, key, obj, charge).usage <= s.usage + charge
  {
    HideCore(s, key);
    AppendCore(Hide(s, key), key, obj, charge);
    LinkCore(Append(Hide(s, key), key, obj, charge), key, |Hide(s, key).entries|);
  }

  lemma LinkCore(t: State, key: Key, id: Id)
    requires Core(t) && key !in t.table
    requires Resident(t, id) && t.entries[id].value.key == key && t.entries[id].value.refs > 0
    ensures Core(t.(table := t.table[key := id]))
    ensures AllReferenced(t) ==> AllReferenced(t.(table := t.table[key := id]))
  {
    var u := t.(table := t.table[key := id]);
    forall j: Id | Evictable(u, j) ensures Findable(u, j) && Evictable(t, j) {
      assert Evictable(t, j) && Findable(t, j);
    }
    assert forall j: Id :: Refs(u, j) == Refs(t, j);
  }

  ghost predicate ErasedBelow(s: State, t: State, n: nat) {
    Core(t) && OnlyDeletes(s, t) && n <= |t.entries| && forall id | 0 <= id < n :: !Evictable(t, id)
  }

  // Induction over the sweep, for any property of the state and position.
  lemma {:induction false} SweepKeeps(s: State, n: nat, p: (State, nat) -> bool)
    requires n <= |s.entries| && p(s, 0)
    requires forall t: State, i: nat | p(t, i) && i < n :: p(EraseIfUnRef(t, i), i + 1)
    ensures p(EraseUnRefBelow(s, n), n)
  {
    if n > 0 {
      SweepKeeps(s, n - 1, p);
      assert p(EraseIfUnRef(EraseUnRefBelow(s, n - 1), n - 1), n);
    }
  }

  lemma EraseUnRefCore(s: State)
    requires Core(s)
    ensures ErasedBelow(s, EraseUnRefBelow(s, |s.entries|), |s.entries|)
  {
    var p := (t: State, i: nat) => i <= |s.entries| && ErasedBelow(s, t, i);
    ErasedNothing(s);
    forall t: State, i: nat | p(t, i) && i < |s.entries| ensures p(EraseIfUnRef(t, i), i + 1) {
      EraseUnRefStep(s, t, i);
    }
    SweepKeeps(s, |s.entries|, p);
  }

  lemma ErasedNothing(s: State)
    requires Core(s)
    ensures ErasedBelow(s, s, 0)
  {}

  lemma EraseUnRefStep(s: State, t: State, n: nat)
    requires ErasedBelow(s, t, n) && n < |t.entries|
    ensures ErasedBelow(s, EraseIfUnRef(t, n), n + 1)
  {
    if Evictable(t, n) {
      var u := EvictOne(t, n);
      EvictOneCore(t, n);
      OnlyDeletesTransitive(s, t, u);
      assert forall id: Id | Evictable(u, id) :: Evictable(t, id) && id != n;
    }
  }

  lemma SetCapacityCore(s: State, c: nat)
    requires Core(s)
    ensures Core(s.(capacity := c))
  {
    var t := s.(capacity := c);
    forall j: Id | Evictable(t, j) ensures Findable(t, j) {
      assert Evictable(s, j) && Findable(s, j);
    }
    assert forall j: Id :: Refs(t, j) == Refs(s, j);
  }

  lemma SetStrictInv(s: State, b: bool)
    requires Inv(s)
    ensures Inv(s.(strict := b))
  {
    var t := s.(strict := b);
    forall j: Id | Evictable(t, j) ensures Findable(t, j) && Evictable(s, j) {
      assert Evictable(s, j) && Findable(s, j);
    }
    assert forall j: Id :: Refs(t, j) == Refs(s, j);
  }

  // Every operation keeps the invariant.
  lemma ApplyKeepsInv(s: State, op: Op)
    requires Inv(s) && OpOk(s, op)
    ensures Inv(Apply(s, op).0)
  {
    match op {
      case Insert(key, obj, charge, wantHandle, victims) =>
        EvictCore(s, victims, charge);
        InsertRest(Evict(s, victims, charge), key, obj, charge);
      case CreateStandalone(key, obj, charge, allowUncharged, victims) =>
        EvictCore(s, victims, charge);
        AppendCore(Evict(s, victims, charge), key, obj, charge);
        AppendCore(Evict(s, victims, charge), key, obj, 0);
      case Lookup(key) => if key in s.table { AcquireInv(s, s.table[key]); }
      case Ref(id) => if Resident(s, id) { AcquireInv(s, id); }
      case Release(id, eraseIfLast) => DoReleaseInv(s, id, eraseIfLast);
      case Erase(key) => HideCore(s, key);
      case SetCapacity(c, victims) =>
        SetCapacityCore(s, c);
        EvictCore(s.(capacity := c), victims, 0);
      case SetStrictCapacityLimit(b) => SetStrictInv(s, b);
      case EraseUnRefEntries => EraseUnRefCore(s);
    }
  }

  lemma InsertRest(t: State, key: Key, obj: Object, charge: nat)
    requires Core(t) && (Fits(t, charge) || AllReferenced(t))
    ensures var u := DoInsert(t, key, obj, charge);
            Inv(u) && Inv(DoRelease(u, |u.entries| - 1, false))
  {
    DoInsertCore(t, key, obj, charge);
    var u := DoInsert(t, key, obj, charge);
    DoReleaseInv(u, |u.entries| - 1, false);
  }
}
