// Which shared objects a pass deletes, known before it starts
// (cleanable.h:80-116).
module SharedReach {
  import opened ListBags
  import opened SharedCleanables
  import opened SharedConservation
  import opened SharedCounts
  import opened SharedRelease

  // A pointer, a Cleanable that is not itself shared, or a cleanup of `rest`
  // refers to the object.
  predicate Rooted(s: State, rest: seq<Item>, i: nat) {
    PendingBag(PtrLists(s.ptrs))[Unref(i)] + PendingBag(s.holders)[Unref(i)] + Times(rest, Unref(i)) > 0
  }

  // ----- sets of objects that keep each other -----

  ghost predicate KeptBy(s: State, rest: seq<Item>, c: set<nat>, i: nat) {
    Alive(s, i) && (Rooted(s, rest, i) || exists k :: k in c && HoldsCopy(s, k, i))
  }

  // Everything in the set is referred to from outside the shared objects, or
  // by an object in the set.
  ghost predicate Supported(s: State, rest: seq<Item>, c: set<nat>) {
    forall i: nat {:trigger KeptBy(s, rest, c, i)} | i in c :: KeptBy(s, rest, c, i)
  }

  // Counting the reference about to be dropped, there are two.
  lemma KeptHasTwo(s: State, i: nat, r: seq<Item>, rest: seq<Item>, c: set<nat>)
    requires Inv(s, [Unref(i)] + (r + rest)) && KeptBy(s, rest, c, i)
    ensures s.impls[i].value.refs >= 2
  {
    TimesHead([Unref(i)], r + rest, Unref(i));
    assert Times(r + rest, Unref(i)) == Times(r, Unref(i)) + Times(rest, Unref(i));
    if !Rooted(s, rest, i) {
      var k :| k in c && HoldsCopy(s, k, i);
      HeldOccurs(s, k, i);
    }
    assert Refs(s, i) >= 2;
  }

  lemma DropRefSupported(s: State, i: nat, r: seq<Item>, rest: seq<Item>, c: set<nat>)
    requires Inv(s, [Unref(i)] + (r + rest)) && Supported(s, rest, c)
    ensures Supported(DropRef(s, i), rest, c)
  {
    var t := DropRef(s, i);
    forall j: nat | j in c ensures KeptBy(t, rest, c, j) {
      assert KeptBy(s, rest, c, j);
      if j == i { KeptHasTwo(s, i, r, rest, c); }
      if !Rooted(s, rest, j) {
        var k :| k in c && HoldsCopy(s, k, j);
        assert KeptBy(s, rest, c, k);
        if k == i { KeptHasTwo(s, i, r, rest, c); }
        assert HoldsCopy(t, k, j);
      }
    }
  }

  lemma CallSupported(s: State, t: State, rest: seq<Item>, c: set<nat>)
    requires Supported(s, rest, c) && t.impls == s.impls && t.ptrs == s.ptrs && t.holders == s.holders
    ensures Supported(t, rest, c)
  {
    forall j: nat | j in c ensures KeptBy(t, rest, c, j) {
      assert KeptBy(s, rest, c, j);
      if !Rooted(s, rest, j) {
        var k :| k in c && HoldsCopy(s, k, j);
        assert HoldsCopy(t, k, j);
      }
    }
  }

  lemma SupportedSurvives(s: State, items: seq<Item>, rest: seq<Item>, c: set<nat>)
    requires Inv(s, items + rest) && Supported(s, rest, c)
    ensures Supported(RunItems(s, items), rest, c)
  {
    var p := (t: State, running: seq<Item>) => Inv(t, running + rest) && Supported(t, rest, c);
    forall t, cb, r ensures CallKeeps(t, cb, r, p) {
      if p(t, [User(cb)] + r) {
        Associative([User(cb)], r, rest);
        UserInv(t, cb, r + rest);
        CallSupported(t, t.(ran := t.ran + [cb]), rest, c);
      }
    }
    forall t, i, r ensures DropKeeps(t, i, r, p) {
      if p(t, [Unref(i)] + r) {
        Associative([Unref(i)], r, rest);
        DropRefInv(t, i, r + rest);
        Associative(SetOff(t, i), r, rest);
        DropRefSupported(t, i, r, rest, c);
      }
    }
    assert items + [] == items && [] + rest == rest;
    PassKeeps(s, items, [], p);
  }

  function Survivors(t: State): set<nat> {
    set i: nat | i < |t.impls| && Alive(t, i)
  }

  lemma SurvivorKept(s: State, items: seq<Item>, rest: seq<Item>, i: nat)
    requires Inv(s, items + rest) && Alive(RunItems(s, items), i)
    ensures KeptBy(s, rest, Survivors(RunItems(s, items)), i)
  {
    var t := RunItems(s, items);
    RunKeepsInv(s, items, rest);
    SurvivorsUntouched(s, items, i);
    assert Refs(t, i) == Occurs(t, Unref(i)) + Times(rest, Unref(i));
    if !Rooted(s, rest, i) {
      var k := BagHasList(ImplLists(t.impls), Unref(i));
      SurvivorsUntouched(s, items, k);
      assert k in Survivors(t) && HoldsCopy(s, k, i);
    }
  }

  // A pass leaves exactly what some such set contains.
  lemma SurvivesExactlyIfSupported(s: State, items: seq<Item>, rest: seq<Item>, i: nat)
    requires Inv(s, items + rest)
    ensures Alive(RunItems(s, items), i) <==> exists c: set<nat> :: i in c && Supported(s, rest, c)
  {
    var t := RunItems(s, items);
    if Alive(t, i) {
      forall j: nat | j in Survivors(t) ensures KeptBy(s, rest, Survivors(t), j) {
        SurvivorKept(s, items, rest, j);
      }
      assert i in Survivors(t) && Supported(s, rest, Survivors(t));
    }
    if c: set<nat> :| i in c && Supported(s, rest, c) {
      SupportedSurvives(s, items, rest, c);
      assert KeptBy(t, rest, c, i);
    }
  }

  // ----- paths -----

  // Object k of the path holds a copy of a pointer to the one after it.
  ghost predicate HoldsAfter(s: State, path: seq<nat>, k: nat) {
    k + 1 < |path| && HoldsCopy(s, path[k], path[k + 1])
  }

  // From path[0], through objects that each hold a copy of a pointer to the
  // next, to a live object.
  ghost predicate IsPath(s: State, path: seq<nat>) {
    && path != [] && Alive(s, path[|path| - 1])
    && forall k: nat | k + 1 < |path| :: HoldsAfter(s, path, k)
  }

  ghost predicate OnCycle(s: State, i: nat) {
    exists cycle: seq<nat> :: IsCycle(s, cycle) && i in cycle
  }

  ghost predicate LeadsTo(s: State, rest: seq<Item>, path: seq<nat>, i: nat) {
    IsPath(s, path) && path[|path| - 1] == i && (Rooted(s, rest, path[0]) || OnCycle(s, path[0]))
  }

  // A path of copies leads to the object from one that a pointer, another
  // Cleanable or `rest` refers to, or from one on a reference cycle.
  ghost predicate Reached(s: State, rest: seq<Item>, i: nat) {
    exists path: seq<nat> :: LeadsTo(s, rest, path, i)
  }

  lemma CycleKept(s: State, rest: seq<Item>, cycle: seq<nat>, c: set<nat>, i: nat)
    requires IsCycle(s, cycle) && (forall j | j in cycle :: j in c) && i in cycle
    ensures KeptBy(s, rest, c, i)
  {
    var k: nat :| k < |cycle| && cycle[k] == i;
    var before: nat := if k == 0 then |cycle| - 1 else k - 1;
    assert HoldsNext(s, cycle, k) && HoldsNext(s, cycle, before);
    assert cycle[before] in c && HoldsCopy(s, cycle[before], i);
  }

  lemma PathKept(s: State, rest: seq<Item>, path: seq<nat>, c: set<nat>, k: nat)
    requires IsPath(s, path) && (forall j | j in path :: j in c) && 0 < k < |path|
    ensures KeptBy(s, rest, c, path[k])
  {
    assert HoldsAfter(s, path, k - 1) && path[k - 1] in c;
    assert HoldsCopy(s, path[k - 1], path[k]);
    if k + 1 < |path| { assert HoldsAfter(s, path, k); }
  }

  lemma StartAlive(s: State, path: seq<nat>)
    requires IsPath(s, path)
    ensures Alive(s, path[0])
  {
    if |path| > 1 { assert HoldsAfter(s, path, 0); }
  }

  lemma ReachedIsSupported(s: State, rest: seq<Item>, path: seq<nat>, i: nat) returns (c: set<nat>)
    requires LeadsTo(s, rest, path, i)
    ensures i in c && Supported(s, rest, c)
  {
    StartAlive(s, path);
    var cycle: seq<nat> := [];
    if !Rooted(s, rest, path[0]) { cycle :| IsCycle(s, cycle) && path[0] in cycle; }
    assert IsCycle(s, cycle);
    c := set j | j in path + cycle;
    forall j: nat | j in c ensures KeptBy(s, rest, c, j) {
      if j in cycle {
        CycleKept(s, rest, cycle, c, j);
      } else {
        var k: nat :| k < |path| && path[k] == j;
        if k > 0 { PathKept(s, rest, path, c, k); }
      }
    }
  }

  ghost predicate Distinct(path: seq<nat>) {
    forall a, b | 0 <= a < b < |path| :: path[a] != path[b]
  }

  lemma {:induction false} DistinctFits(path: seq<nat>, c: set<nat>)
    requires Distinct(path) && forall j | j in path :: j in c
    ensures |path| <= |c|
    decreases |path|
  {
    if path != [] {
      forall j | j in path[1..] ensures j in c - {path[0]} {
        assert j in path;
      }
      DistinctFits(path[1..], c - {path[0]});
    }
  }

  lemma CloseCycle(s: State, path: seq<nat>, m: nat)
    requires IsPath(s, path) && m < |path| && HoldsCopy(s, path[m], path[0])
    ensures IsCycle(s, path[..m + 1]) && path[0] in path[..m + 1]
  {
    var cycle := path[..m + 1];
    forall k: nat | k < |cycle| ensures HoldsNext(s, cycle, k) {
      if k < m { assert HoldsAfter(s, path, k); }
    }
    assert cycle[0] == path[0];
  }

  lemma ExtendPath(s: State, k: nat, path: seq<nat>)
    requires IsPath(s, path) && HoldsCopy(s, k, path[0])
    ensures IsPath(s, [k] + path)
  {
    var longer := [k] + path;
    forall j: nat | j + 1 < |longer| ensures HoldsAfter(s, longer, j) {
      if j > 0 { assert HoldsAfter(s, path, j - 1); }
    }
  }

  // Climb from holder to holder: in a finite set this ends outside the shared
  // objects, or comes back to an object seen before.
  lemma {:induction false} Climb(s: State, rest: seq<Item>, c: set<nat>, path: seq<nat>, i: nat)
    requires Supported(s, rest, c) && IsPath(s, path) && path[|path| - 1] == i
    requires Distinct(path) && forall j | j in path :: j in c
    ensures Reached(s, rest, i)
    decreases |c| - |path|
  {
    DistinctFits(path, c);
    assert path[0] in path;
    assert KeptBy(s, rest, c, path[0]);
    if Rooted(s, rest, path[0]) {
      assert LeadsTo(s, rest, path, i);
    } else {
      var k :| k in c && HoldsCopy(s, k, path[0]);
      if m: nat :| m < |path| && path[m] == k {
        CloseCycle(s, path, m);
        assert OnCycle(s, path[0]);
        assert LeadsTo(s, rest, path, i);
      } else {
        ExtendPath(s, k, path);
        DistinctFits([k] + path, c);
        Climb(s, rest, c, [k] + path, i);
      }
    }
  }

  // A pass over `items`, with `rest` still to run, leaves exactly the objects
  // reached before it.
  lemma SurvivesExactlyIfReached(s: State, items: seq<Item>, rest: seq<Item>, i: nat)
    requires Inv(s, items + rest)
    ensures Alive(RunItems(s, items), i) <==> Reached(s, rest, i)
  {
    SurvivesExactlyIfSupported(s, items, rest, i);
    if Alive(RunItems(s, items), i) {
      var c: set<nat> :| i in c && Supported(s, rest, c);
      assert KeptBy(s, rest, c, i);
      Climb(s, rest, c, [i], i);
    }
    if Reached(s, rest, i) {
      var path :| LeadsTo(s, rest, path, i);
      var c := ReachedIsSupported(s, rest, path, i);
    }
  }

  // ----- without cycles -----

  lemma {:induction false} RanksFall(s: State, rank: seq<nat>, cycle: seq<nat>, k: nat)
    requires RankedBy(s, rank) && IsCycle(s, cycle) && k < |cycle|
    ensures Alive(s, cycle[0]) && Alive(s, cycle[k])
    ensures rank[cycle[k]] + k <= rank[cycle[0]]
  {
    assert HoldsNext(s, cycle, 0) && HoldsNext(s, cycle, k);
    if k > 0 {
      RanksFall(s, rank, cycle, k - 1);
      assert HoldsNext(s, cycle, k - 1);
    }
  }

  lemma RankedHasNoCycle(s: State, rank: seq<nat>, cycle: seq<nat>)
    requires RankedBy(s, rank) && IsCycle(s, cycle)
    ensures cycle == []
  {
    if cycle != [] {
      assert HoldsNext(s, cycle, 0) && HoldsNext(s, cycle, |cycle| - 1);
      RanksFall(s, rank, cycle, |cycle| - 1);
    }
  }

  // Where there is no cycle, only what refers to the object from outside
  // counts.
  lemma AcyclicHasNoCycle(s: State, i: nat)
    requires Acyclic(s)
    ensures !OnCycle(s, i)
  {
    var rank :| RankedBy(s, rank);
    forall cycle: seq<nat> | IsCycle(s, cycle) ensures i !in cycle {
      RankedHasNoCycle(s, rank, cycle);
    }
  }

  ghost predicate ReachedFromOutside(s: State, rest: seq<Item>, i: nat) {
    exists path: seq<nat> :: IsPath(s, path) && path[|path| - 1] == i && Rooted(s, rest, path[0])
  }

  lemma AcyclicSurvivesExactly(s: State, items: seq<Item>, rest: seq<Item>, i: nat)
    requires Inv(s, items + rest) && Acyclic(s)
    ensures Alive(RunItems(s, items), i) <==> ReachedFromOutside(s, rest, i)
  {
    SurvivesExactlyIfReached(s, items, rest, i);
    if Reached(s, rest, i) {
      var path :| LeadsTo(s, rest, path, i);
      AcyclicHasNoCycle(s, path[0]);
      assert IsPath(s, path) && path[|path| - 1] == i && Rooted(s, rest, path[0]);
    }
    if ReachedFromOutside(s, rest, i) {
      var path :| IsPath(s, path) && path[|path| - 1] == i && Rooted(s, rest, path[0]);
      assert LeadsTo(s, rest, path, i);
    }
  }

  // ----- operations -----

  // Giving up a pointer or another Cleanable deletes exactly the objects no
  // longer reached without it.
  lemma GivingUpDeletesExactly(s: State, op: Op, i: nat)
    requires Inv(s, []) && OpOk(s, op) && GivesUp(op)
    ensures Alive(Step(s, op), i) <==> Reached(PassStart(s, op).0, [], i)
  {
    var (t, items) := PassStart(s, op);
    PassStartInv(s, op);
    assert items + [] == items;
    SurvivesExactlyIfReached(t, items, [], i);
  }
}
