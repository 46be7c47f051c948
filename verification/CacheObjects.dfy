// The cache as an object that its operations update in place
// (advanced_cache.h:190-416). Every method refines the matching step of
// Caches.Apply and keeps its invariant.
module CacheObjects {
  import opened Caches
  import opened Wrappers

  class Cache {
    var entries: seq<Option<Entry>>
    var table: map<Key, Id>
    var capacity: nat
    var strict: bool
    var usage: int
    var pinned: int
    var deleted: seq<Object>
    ghost var taken: seq<Object>
    ghost var handles: multiset<Id>

    ghost function State(): State
      reads this
    {
      Caches.State.State(entries, table, capacity, strict, usage, pinned, deleted, taken, handles)
    }

    ghost predicate Valid()
      reads this
    {
      Inv(State())
    }

    constructor (capacity: nat, strict: bool)
      ensures Valid() && State() == Caches.State.State([], map[], capacity, strict, 0, 0, [], [], multiset{})
    {
      entries, table := [], map[];
      this.capacity, this.strict := capacity, strict;
      usage, pinned, deleted, taken, handles := 0, 0, [], [], multiset{};
    }

    // GetUsage is the sum of the resident charges, GetPinnedUsage that of
    // the entries in use.
    function GetUsage(): (u: int)
      requires Valid()
      reads this
      ensures u == Total(entries, Charges)
    {
      usage
    }

    function GetPinnedUsage(): (u: int)
      requires Valid()
      reads this
      ensures u == Total(entries, PinnedCharges) <= GetUsage()
    {
      PinnedWithin(entries);
      pinned
    }

    // ----- steps shared by the operations -----

    method DropEntry(id: Id)
      requires Evictable(State(), id)
      modifies this
      ensures State() == Drop(old(State()), id)
    {
      var e := entries[id].value;
      entries := entries[id := None];
      usage := usage - e.charge;
      deleted := deleted + [e.obj];
    }

    method EvictEntry(id: Id)
      requires Evictable(State(), id)
      modifies this
      ensures State() == EvictOne(old(State()), id)
    {
      table := table - {entries[id].value.key};
      DropEntry(id);
    }

    method SweepEntry(id: Id)
      requires id < |entries|
      modifies this
      ensures State() == EraseIfUnRef(old(State()), id)
    {
      if entries[id].Some? && entries[id].value.refs == 0 {
        EvictEntry(id);
      }
    }

    method Sweep()
      modifies this
      ensures State() == EraseUnRefBelow(old(State()), |old(entries)|)
    {
      var n := |entries|;
      for i := 0 to n
        invariant |entries| == n && State() == EraseUnRefBelow(old(State()), i)
      {
        EraseNext(old(State()), i);
        SweepEntry(i);
      }
    }

    method HideKey(key: Key)
      requires TableOk(State())
      modifies this
      ensures State() == Hide(old(State()), key)
    {
      if key in table {
        var id := table[key];
        assert Resident(State(), id);
        table := table - {key};
        if entries[id].value.refs == 0 {
          DropEntry(id);
        }
      }
    }

    // Evict entries not in use, in whatever order, until `charge` fits.
    method MakeRoom(charge: nat) returns (ghost victims: seq<Id>)
      modifies this
      ensures EvictOk(old(State()), victims, charge)
      ensures State() == Evict(old(State()), victims, charge)
    {
      victims := [];
      var candidates: set<Id> := set id: Id | id < |entries| && entries[id].Some? && entries[id].value.refs == 0;
      while usage + charge > capacity && candidates != {}
        invariant EvictPath(old(State()), victims, charge) && State() == Evict(old(State()), victims, charge)
        invariant forall id: Id :: id in candidates <==> Evictable(State(), id)
        decreases |candidates|
      {
        var id: Id :| id in candidates;
        EvictAppend(old(State()), victims, charge, id);
        EvictOneOthers(State(), id);
        EvictEntry(id);
        victims := victims + [id];
        candidates := candidates - {id};
      }
    }

    method AcquireEntry(id: Id)
      requires Resident(State(), id)
      modifies this
      ensures State() == Acquire(old(State()), id)
    {
      var e := entries[id].value;
      pinned := pinned + if e.refs == 0 then e.charge else 0;
      entries := entries[id := Some(e.(refs := e.refs + 1))];
      handles := handles + multiset{id};
    }

    method AppendEntry(key: Key, obj: Object, charge: nat) returns (id: Id)
      modifies this
      ensures id == |old(entries)| && State() == Append(old(State()), key, obj, charge)
    {
      id := |entries|;
      entries := entries + [Some(Entry(key, obj, charge, 1))];
      usage, pinned := usage + charge, pinned + charge;
      taken, handles := taken + [obj], handles + multiset{id};
    }

    method LinkEntry(key: Key, obj: Object, charge: nat) returns (id: Id)
      requires TableOk(State())
      modifies this
      ensures State() == DoInsert(old(State()), key, obj, charge) && id == |entries| - 1
    {
      HideKey(key);
      id := AppendEntry(key, obj, charge);
      table := table[key := id];
    }

    method DropReference(id: Id)
      requires Resident(State(), id) && entries[id].value.refs > 0
      modifies this
      ensures State() == Relinquish(old(State()), id)
    {
      var e := entries[id].value;
      handles := handles - multiset{id};
      pinned := pinned - if e.refs == 1 then e.charge else 0;
      entries := entries[id := Some(e.(refs := e.refs - 1))];
    }

    method ReleaseEntry(id: Id, eraseIfLast: bool) returns (erased: bool)
      requires Refs(State(), id) > 0
      modifies this
      ensures State() == DoRelease(old(State()), id, eraseIfLast) && erased == !Resident(State(), id)
    {
      DropReference(id);
      var e := entries[id].value;
      var findable := e.key in table && table[e.key] == id;
      erased := e.refs == 0 && (!findable || eraseIfLast || usage > capacity);
      if erased {
        if findable {
          EvictEntry(id);
        } else {
          DropEntry(id);
        }
      }
    }

    method InsertIfFits(key: Key, obj: Object, charge: nat, wantHandle: bool) returns (answer: Answer)
      requires TableOk(State())
      modifies this
      ensures (State(), answer) == InsertInto(old(State()), key, obj, charge, wantHandle)
    {
      if strict && usage + charge > capacity {
        answer := MemoryLimit;
      } else {
        var id := LinkEntry(key, obj, charge);
        answer := Handle(id);
        if !wantHandle {
          var _ := ReleaseEntry(id, false);
          answer := Done;
        }
      }
    }

    // ----- the operations -----

    method Insert(key: Key, obj: Object, charge: nat, wantHandle: bool)
      returns (answer: Answer, ghost victims: seq<Id>)
      requires Valid()
      modifies this
      ensures OpOk(old(State()), Op.Insert(key, obj, charge, wantHandle, victims)) && Valid()
      ensures (State(), answer) == Apply(old(State()), Op.Insert(key, obj, charge, wantHandle, victims))
    {
      victims := MakeRoom(charge);
      EvictCore(old(State()), victims, charge);
      ApplyKeepsInv(old(State()), Op.Insert(key, obj, charge, wantHandle, victims));
      answer := InsertIfFits(key, obj, charge, wantHandle);
    }

    method CreateStandalone(key: Key, obj: Object, charge: nat, allowUncharged: bool)
      returns (answer: Answer, ghost victims: seq<Id>)
      requires Valid()
      modifies this
      ensures OpOk(old(State()), Op.CreateStandalone(key, obj, charge, allowUncharged, victims)) && Valid()
      ensures (State(), answer) == Apply(old(State()), Op.CreateStandalone(key, obj, charge, allowUncharged, victims))
    {
      victims := MakeRoom(charge);
      ApplyKeepsInv(old(State()), Op.CreateStandalone(key, obj, charge, allowUncharged, victims));
      var tooMuch := strict && usage + charge > capacity;
      if tooMuch && !allowUncharged {
        answer := MemoryLimit;
      } else {
        var id := AppendEntry(key, obj, if tooMuch then 0 else charge);
        answer := Handle(id);
      }
    }

    method Lookup(key: Key) returns (answer: Answer)
      requires Valid()
      modifies this
      ensures (State(), answer) == Apply(old(State()), Op.Lookup(key)) && Valid()
    {
      ApplyKeepsInv(State(), Op.Lookup(key));
      if key in table {
        assert Resident(State(), table[key]);
        answer := Handle(table[key]);
        AcquireEntry(table[key]);
      } else {
        answer := NotFound;
      }
    }

    method Ref(id: Id) returns (answer: Answer)
      requires Valid() && OpOk(State(), Op.Ref(id))
      modifies this
      ensures (State(), answer) == Apply(old(State()), Op.Ref(id)) && Valid()
    {
      ApplyKeepsInv(State(), Op.Ref(id));
      answer := Flag(entries[id].Some?);
      if entries[id].Some? {
        AcquireEntry(id);
      }
    }

    method Release(id: Id, eraseIfLast: bool) returns (answer: Answer)
      requires Valid() && OpOk(State(), Op.Release(id, eraseIfLast))
      modifies this
      ensures (State(), answer) == Apply(old(State()), Op.Release(id, eraseIfLast)) && Valid()
    {
      ApplyKeepsInv(State(), Op.Release(id, eraseIfLast));
      var erased := ReleaseEntry(id, eraseIfLast);
      answer := Flag(erased);
    }

    method Erase(key: Key) returns (answer: Answer)
      requires Valid()
      modifies this
      ensures (State(), answer) == Apply(old(State()), Op.Erase(key)) && Valid()
    {
      ApplyKeepsInv(State(), Op.Erase(key));
      HideKey(key);
      answer := Done;
    }

    method SetCapacity(capacity: nat) returns (answer: Answer, ghost victims: seq<Id>)
      requires Valid()
      modifies this
      ensures OpOk(old(State()), Op.SetCapacity(capacity, victims)) && Valid()
      ensures (State(), answer) == Apply(old(State()), Op.SetCapacity(capacity, victims))
    {
      this.capacity := capacity;
      victims := MakeRoom(0);
      ApplyKeepsInv(old(State()), Op.SetCapacity(capacity, victims));
      answer := Done;
    }

    method SetStrictCapacityLimit(strict: bool) returns (answer: Answer)
      requires Valid()
      modifies this
      ensures (State(), answer) == Apply(old(State()), Op.SetStrictCapacityLimit(strict)) && Valid()
    {
      ApplyKeepsInv(State(), Op.SetStrictCapacityLimit(strict));
      this.strict := strict;
      answer := Done;
    }

    method EraseUnRefEntries() returns (answer: Answer)
      requires Valid()
      modifies this
      ensures (State(), answer) == Apply(old(State()), Op.EraseUnRefEntries) && Valid()
    {
      ApplyKeepsInv(State(), Op.EraseUnRefEntries);
      Sweep();
      answer := Done;
    }
  }
}
