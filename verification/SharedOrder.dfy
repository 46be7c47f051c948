// In which order the cleanups of a target and of a shared object registered
// with it run (cleanable.h:111-116).
module SharedOrder {
  import opened Cleanables
  import opened ListBags
  import opened SharedCleanables
  import opened SharedConservation
  import opened SharedCounts
  import opened SharedReach
  import opened SharedRelease
  import opened Wrappers

  // When a pass reaches a registered copy, the object is alive with all its
  // cleanups: none of them can have run before.
  lemma CopyReachedFirst(s: State, pre: seq<Item>, i: nat, after: seq<Item>)
    requires Inv(s, pre + ([Unref(i)] + after))
    ensures var t := RunItems(s, pre);
            Alive(s, i) && Alive(t, i) && t.impls[i].value.list == s.impls[i].value.list
  {
    RunKeepsInv(s, pre, [Unref(i)] + after);
    DropRefInv(RunItems(s, pre), i, after);
    SurvivorsUntouched(s, pre, i);
  }

  // If the copy was the last reference, the object's cleanups run right
  // there, between those before the copy and those after it.
  lemma ReleaseRunsInPlace(s: State, pre: seq<Item>, i: nat, post: seq<Item>)
    requires Alive(RunItems(s, pre), i)
    ensures var t := RunItems(s, pre);
            RunItems(s, pre + ([Unref(i)] + post)) == RunItems(RunItems(DropRef(t, i), SetOff(t, i)), post)
  {
    RunItemsSplit(s, pre, [Unref(i)] + post);
    RunUnref(RunItems(s, pre), i, post);
  }

  // ----- whose cleanups run when -----

  // A callback of the target's own list, or of an object deleted in its pass.
  datatype Owner = OfTarget | OfObject(i: nat)

  datatype Event = Event(owner: Owner, cb: Callback)

  // The callbacks a pass runs, in order, each with whose it is.
  function Events(s: State, items: seq<Item>, owner: Owner): seq<Event>
    decreases LiveCount(s.impls), |items|
  {
    if items == [] then []
    else match items[0]
      case User(cb) => [Event(owner, cb)] + Events(s.(ran := s.ran + [cb]), items[1..], owner)
      case Unref(i) =>
        if Alive(s, i) then
          LiveCountUpdate(s.impls, i, DropRef(s, i).impls[i]);
          var t := DropRef(s, i);
          Events(t, SetOff(s, i), OfObject(i)) + Events(RunItems(t, SetOff(s, i)), items[1..], owner)
        else Events(s, items[1..], owner)
  }

  function Callbacks(es: seq<Event>): seq<Callback> {
    seq(|es|, k requires 0 <= k < |es| => es[k].cb)
  }

  lemma RanConcat(ran: seq<Callback>, a: seq<Event>, b: seq<Event>)
    ensures ran + Callbacks(a) + Callbacks(b) == ran + Callbacks(a + b)
  {
    assert Callbacks(a + b) == Callbacks(a) + Callbacks(b);
    Associative(ran, Callbacks(a), Callbacks(b));
  }

  lemma CallbackOf(e: Event)
    ensures Callbacks([e]) == [e.cb]
  {}

  lemma {:induction false} EventsAreWhatRan(s: State, items: seq<Item>, owner: Owner)
    ensures RunItems(s, items).ran == s.ran + Callbacks(Events(s, items, owner))
    decreases LiveCount(s.impls), |items|
  {
    if items != [] {
      match items[0] {
        case User(cb) =>
          var t := s.(ran := s.ran + [cb]);
          EventsAreWhatRan(t, items[1..], owner);
          CallbackOf(Event(owner, cb));
          RanConcat(s.ran, [Event(owner, cb)], Events(t, items[1..], owner));
        case Unref(i) =>
          if Alive(s, i) {
            var t := DropRef(s, i);
            var u := RunItems(t, SetOff(s, i));
            LiveCountUpdate(s.impls, i, t.impls[i]);
            EventsAreWhatRan(t, SetOff(s, i), OfObject(i));
            EventsAreWhatRan(u, items[1..], owner);
            RanConcat(s.ran, Events(t, SetOff(s, i), OfObject(i)), Events(u, items[1..], owner));
          } else {
            EventsAreWhatRan(s, items[1..], owner);
          }
      }
    }
  }

  lemma {:induction false} EventsSplit(s: State, a: seq<Item>, b: seq<Item>, owner: Owner)
    ensures Events(s, a + b, owner) == Events(s, a, owner) + Events(RunItems(s, a), b, owner)
    decreases LiveCount(s.impls), |a|
  {
    if a == [] {
      assert a + b == b;
    } else {
      assert (a + b)[1..] == a[1..] + b && (a + b)[0] == a[0];
      var last := Events(RunItems(s, a), b, owner);
      match a[0] {
        case User(cb) =>
          var t := s.(ran := s.ran + [cb]);
          EventsSplit(t, a[1..], b, owner);
          Associative([Event(owner, cb)], Events(t, a[1..], owner), last);
        case Unref(i) =>
          if Alive(s, i) {
            var t := DropRef(s, i);
            var u := RunItems(t, SetOff(s, i));
            LiveCountUpdate(s.impls, i, t.impls[i]);
            EventsSplit(u, a[1..], b, owner);
            Associative(Events(t, SetOff(s, i), OfObject(i)), Events(u, a[1..], owner), last);
          } else {
            EventsSplit(s, a[1..], b, owner);
          }
      }
    }
  }

  ghost predicate Has(es: seq<Event>, owner: Owner) {
    exists k :: 0 <= k < |es| && es[k].owner == owner
  }

  lemma HasConcat(a: seq<Event>, b: seq<Event>, owner: Owner)
    ensures Has(a + b, owner) <==> Has(a, owner) || Has(b, owner)
  {
    if Has(a, owner) {
      var k :| 0 <= k < |a| && a[k].owner == owner;
      assert (a + b)[k].owner == owner;
    }
    if Has(b, owner) {
      var k :| 0 <= k < |b| && b[k].owner == owner;
      assert (a + b)[|a| + k].owner == owner;
    }
  }

  predicate HasUser(items: seq<Item>) {
    exists k :: 0 <= k < |items| && items[k].User?
  }

  lemma HasUserTail(items: seq<Item>)
    requires items != []
    ensures HasUser(items) <==> items[0].User? || HasUser(items[1..])
  {
    if HasUser(items) && !items[0].User? {
      var k :| 0 <= k < |items| && items[k].User?;
      assert items[1..][k - 1].User?;
    }
    if HasUser(items[1..]) {
      var k :| 0 <= k < |items[1..]| && items[1..][k].User?;
      assert items[k + 1].User?;
    }
  }

  // An object contributes nothing to a pass that it outlives, or that starts
  // after it is gone; nor does the target to passes other than its own.
  ghost predicate SitsOut(s: State, items: seq<Item>, who: Owner) {
    who == OfTarget || !Alive(s, who.i) || Alive(RunItems(s, items), who.i)
  }

  lemma {:induction false} NoneOf(s: State, items: seq<Item>, owner: Owner, who: Owner)
    requires owner != who && SitsOut(s, items, who)
    ensures !Has(Events(s, items, owner), who)
    decreases LiveCount(s.impls), |items|
  {
    if items != [] {
      match items[0] {
        case User(cb) =>
          var t := s.(ran := s.ran + [cb]);
          NoneOf(t, items[1..], owner, who);
          HasConcat([Event(owner, cb)], Events(t, items[1..], owner), who);
        case Unref(i) =>
          if Alive(s, i) {
            var t := DropRef(s, i);
            var u := RunItems(t, SetOff(s, i));
            LiveCountUpdate(s.impls, i, t.impls[i]);
            SitsOutParts(s, items, i, who);
            if who == OfObject(i) {
              assert SetOff(s, i) == [];
            } else {
              NoneOf(t, SetOff(s, i), OfObject(i), who);
            }
            NoneOf(u, items[1..], owner, who);
            HasConcat(Events(t, SetOff(s, i), OfObject(i)), Events(u, items[1..], owner), who);
          } else {
            NoneOf(s, items[1..], owner, who);
          }
      }
    }
  }

  lemma SitsOutParts(s: State, items: seq<Item>, i: nat, who: Owner)
    requires items != [] && items[0] == Unref(i) && Alive(s, i) && SitsOut(s, items, who)
    ensures SitsOut(DropRef(s, i), SetOff(s, i), who)
    ensures SitsOut(RunItems(DropRef(s, i), SetOff(s, i)), items[1..], who)
    ensures who == OfObject(i) ==> SetOff(s, i) == []
  {
    if who.OfObject? {
      var t := DropRef(s, i);
      SurvivorsUntouched(t, SetOff(s, i), who.i);
      SurvivorsUntouched(RunItems(t, SetOff(s, i)), items[1..], who.i);
    }
  }

  // The owner of a list contributes exactly the list's own callbacks.
  lemma {:induction false} OwnEvents(s: State, items: seq<Item>, owner: Owner)
    requires owner == OfTarget || !Alive(s, owner.i)
    ensures Has(Events(s, items, owner), owner) <==> HasUser(items)
    decreases LiveCount(s.impls), |items|
  {
    if items != [] {
      HasUserTail(items);
      match items[0] {
        case User(cb) => assert Events(s, items, owner)[0].owner == owner;
        case Unref(i) =>
          if Alive(s, i) {
            var t := DropRef(s, i);
            var u := RunItems(t, SetOff(s, i));
            LiveCountUpdate(s.impls, i, t.impls[i]);
            NoneOf(t, SetOff(s, i), OfObject(i), owner);
            if owner.OfObject? { SurvivorsUntouched(t, SetOff(s, i), owner.i); }
            OwnEvents(u, items[1..], owner);
            HasConcat(Events(t, SetOff(s, i), OfObject(i)), Events(u, items[1..], owner), owner);
          } else {
            OwnEvents(s, items[1..], owner);
          }
      }
    }
  }

  // An object deleted in a pass contributes exactly its own callbacks.
  lemma {:induction false} DeletedEvents(s: State, items: seq<Item>, owner: Owner, i: nat)
    requires owner != OfObject(i) && Alive(s, i) && !Alive(RunItems(s, items), i)
    ensures Has(Events(s, items, owner), OfObject(i)) <==> HasUser(s.impls[i].value.list)
    decreases LiveCount(s.impls), |items|
  {
    match items[0] {
      case User(cb) =>
        var t := s.(ran := s.ran + [cb]);
        DeletedEvents(t, items[1..], owner, i);
        HasConcat([Event(owner, cb)], Events(t, items[1..], owner), OfObject(i));
      case Unref(j) =>
        if Alive(s, j) {
          var t := DropRef(s, j);
          var u := RunItems(t, SetOff(s, j));
          LiveCountUpdate(s.impls, j, t.impls[j]);
          HasConcat(Events(t, SetOff(s, j), OfObject(j)), Events(u, items[1..], owner), OfObject(i));
          SurvivorsUntouched(t, SetOff(s, j), i);
          if Alive(u, i) {
            DeletedEvents(u, items[1..], owner, i);
            if j != i { NoneOf(t, SetOff(s, j), OfObject(j), OfObject(i)); }
          } else {
            NoneOf(u, items[1..], owner, OfObject(i));
            if j == i {
              OwnEvents(t, SetOff(s, i), OfObject(i));
            } else {
              DeletedEvents(t, SetOff(s, j), OfObject(j), i);
            }
          }
        } else {
          DeletedEvents(s, items[1..], owner, i);
        }
    }
  }

  // ----- when the target's cleanups all run first -----

  // No cleanup of the object runs before one of the target's.
  ghost predicate TargetFirst(es: seq<Event>, i: nat) {
    forall a, b | 0 <= a < b < |es| :: es[a].owner == OfObject(i) ==> es[b].owner != OfTarget
  }

  lemma TargetFirstParts(a: seq<Event>, x: seq<Event>, b: seq<Event>, i: nat)
    requires !Has(a, OfObject(i)) && !Has(x, OfTarget) && !Has(b, OfObject(i))
    ensures TargetFirst(a + (x + b), i) <==> !Has(x, OfObject(i)) || !Has(b, OfTarget)
  {
    var es := a + (x + b);
    assert forall k | 0 <= k < |es| ::
        es[k] == if k < |a| then a[k] else if k < |a| + |x| then x[k - |a|] else b[k - |a| - |x|];
    if Has(x, OfObject(i)) && Has(b, OfTarget) {
      var k :| 0 <= k < |x| && x[k].owner == OfObject(i);
      var l :| 0 <= l < |b| && b[l].owner == OfTarget;
      assert es[|a| + k].owner == OfObject(i) && es[|a| + |x| + l].owner == OfTarget;
    }
  }

  // How much of the list a pass has run when the object is gone.
  function GoneAfter(s: State, items: seq<Item>, i: nat): (n: nat)
    requires Alive(s, i) && !Alive(RunItems(s, items), i)
    ensures 0 < n <= |items|
    ensures Alive(RunItems(s, items[..n - 1]), i) && !Alive(RunItems(s, items[..n]), i)
  {
    if !Alive(RunItems(s, items[..|items| - 1]), i) then
      var m := GoneAfter(s, items[..|items| - 1], i);
      assert items[..|items| - 1][..m - 1] == items[..m - 1] && items[..|items| - 1][..m] == items[..m];
      m
    else
      assert items[..|items|] == items;
      |items|
  }

  lemma OneItemTargetless(t: State, x: Item, i: nat)
    requires Alive(t, i) && !Alive(RunItems(t, [x]), i)
    ensures !Has(Events(t, [x], OfTarget), OfTarget)
  {
    OwnEvents(t, [x], OfTarget);
    if x.User? { RunUser(t, x.cb); }
  }

  lemma SplitAt(items: seq<Item>, n: nat)
    requires 0 < n <= |items|
    ensures items[..n - 1] + ([items[n - 1]] + items[n..]) == items
    ensures items[..n - 1] + [items[n - 1]] == items[..n]
  {}

  // In terms of where the pass deletes the object.
  lemma TargetFirstByDeletion(s: State, items: seq<Item>, i: nat)
    requires Alive(s, i)
    ensures TargetFirst(Events(s, items, OfTarget), i) <==>
              || Alive(RunItems(s, items), i)
              || !HasUser(s.impls[i].value.list)
              || !HasUser(items[GoneAfter(s, items, i)..])
  {
    if Alive(RunItems(s, items), i) {
      NoneOf(s, items, OfTarget, OfObject(i));
    } else {
      var n := GoneAfter(s, items, i);
      SplitAt(items, n);
      GoneAtExactly(s, items[..n - 1], items[n - 1], items[n..], i);
    }
  }

  lemma GoneAtExactly(s: State, pre: seq<Item>, x: Item, post: seq<Item>, i: nat)
    requires Alive(s, i) && Alive(RunItems(s, pre), i) && !Alive(RunItems(s, pre + [x]), i)
    ensures TargetFirst(Events(s, pre + ([x] + post), OfTarget), i) <==>
              !HasUser(s.impls[i].value.list) || !HasUser(post)
  {
    var t := RunItems(s, pre);
    var u := RunItems(t, [x]);
    RunItemsSplit(s, pre, [x]);
    EventsSplit(s, pre, [x] + post, OfTarget);
    EventsSplit(t, [x], post, OfTarget);
    SurvivorsUntouched(s, pre, i);
    NoneOf(s, pre, OfTarget, OfObject(i));
    OneItemTargetless(t, x, i);
    DeletedEvents(t, [x], OfTarget, i);
    NoneOf(u, post, OfTarget, OfObject(i));
    OwnEvents(u, post, OfTarget);
    TargetFirstParts(Events(s, pre, OfTarget), Events(t, [x], OfTarget), Events(u, post, OfTarget), i);
  }

  lemma AliveEarlier(s: State, items: seq<Item>, m: nat, n: nat, i: nat)
    requires m <= n <= |items| && Alive(RunItems(s, items[..n]), i)
    ensures Alive(RunItems(s, items[..m]), i)
  {
    assert items[..n] == items[..m] + items[m..n];
    RunItemsSplit(s, items[..m], items[m..n]);
    SurvivorsUntouched(RunItems(s, items[..m]), items[m..n], i);
  }

  // The object is still there after the target's callback k.
  ghost predicate Outlives(s: State, items: seq<Item>, i: nat, k: nat) {
    k < |items| && items[k].User? ==> Alive(RunItems(s, items[..k + 1]), i)
  }

  lemma NotGoneByCallback(s: State, items: seq<Item>, n: nat, i: nat)
    requires 0 < n <= |items|
    requires Alive(RunItems(s, items[..n - 1]), i) && !Alive(RunItems(s, items[..n]), i)
    ensures items[n - 1].Unref?
  {
    SplitAt(items, n);
    RunItemsSplit(s, items[..n - 1], [items[n - 1]]);
    if items[n - 1].User? { RunUser(RunItems(s, items[..n - 1]), items[n - 1].cb); }
  }

  lemma UserBehind(items: seq<Item>, n: nat, k: nat)
    requires n <= k < |items| && items[k].User?
    ensures HasUser(items[n..])
  {
    assert items[n..][k - n].User?;
  }

  lemma NoUserBehindOutlives(s: State, items: seq<Item>, n: nat, i: nat, k: nat)
    requires 0 < n <= |items| && items[n - 1].Unref? && !HasUser(items[n..])
    requires Alive(RunItems(s, items[..n - 1]), i)
    ensures Outlives(s, items, i, k)
  {
    if k < |items| && items[k].User? {
      if k < n - 1 {
        AliveEarlier(s, items, k + 1, n - 1, i);
      } else if k >= n {
        UserBehind(items, n, k);
      }
    }
  }

  lemma UserBehindNotOutlived(s: State, items: seq<Item>, n: nat, i: nat) returns (k: nat)
    requires n <= |items| && HasUser(items[n..]) && !Alive(RunItems(s, items[..n]), i)
    ensures !Outlives(s, items, i, k)
  {
    var l: nat :| l < |items[n..]| && items[n..][l].User?;
    k := n + l;
    assert items[k].User?;
    if Alive(RunItems(s, items[..k + 1]), i) { AliveEarlier(s, items, n, k + 1, i); }
  }

  lemma TargetFirstIfOutlived(s: State, items: seq<Item>, i: nat)
    requires Alive(s, i)
    ensures TargetFirst(Events(s, items, OfTarget), i) <==>
              !HasUser(s.impls[i].value.list) || forall k: nat :: Outlives(s, items, i, k)
  {
    TargetFirstByDeletion(s, items, i);
    if Alive(RunItems(s, items), i) {
      assert items[..|items|] == items;
      forall k: nat ensures Outlives(s, items, i, k) {
        if k < |items| { AliveEarlier(s, items, k + 1, |items|, i); }
      }
    } else {
      var n := GoneAfter(s, items, i);
      if HasUser(items[n..]) {
        var k := UserBehindNotOutlived(s, items, n, i);
      } else {
        NotGoneByCallback(s, items, n, i);
        forall k: nat ensures Outlives(s, items, i, k) { NoUserBehindOutlives(s, items, n, i, k); }
      }
    }
  }

  // Without the target's list up to its callback k, copies still lead to the
  // object.
  ghost predicate ReachedBehind(s: State, items: seq<Item>, i: nat, k: nat) {
    k < |items| && items[k].User? ==> Reached(s, items[k + 1..], i)
  }

  lemma OutlivesExactlyIfReached(s: State, items: seq<Item>, i: nat, k: nat)
    requires Inv(s, items)
    ensures Outlives(s, items, i, k) <==> ReachedBehind(s, items, i, k)
  {
    if k < |items| {
      assert items[..k + 1] + items[k + 1..] == items;
      SurvivesExactlyIfReached(s, items[..k + 1], items[k + 1..], i);
    }
  }

  ghost predicate ReachedBehindCallbacks(s: State, items: seq<Item>, i: nat) {
    forall k: nat :: ReachedBehind(s, items, i, k)
  }

  // Known before the pass, for any lists and copies nested to any depth, with
  // or without cycles: the target's cleanups all run before the object's
  // exactly when the object has no callbacks or, for each callback of the
  // target, the object is reached without what comes before it in the list.
  lemma TargetFirstExactly(s: State, items: seq<Item>, i: nat)
    requires Inv(s, items) && Alive(s, i)
    ensures TargetFirst(Events(s, items, OfTarget), i) <==>
              !HasUser(s.impls[i].value.list) || ReachedBehindCallbacks(s, items, i)
  {
    TargetFirstIfOutlived(s, items, i);
    forall k: nat ensures Outlives(s, items, i, k) <==> ReachedBehind(s, items, i, k) {
      OutlivesExactlyIfReached(s, items, i, k);
    }
  }

  lemma {:induction false} RefsOnlyFall(s: State, items: seq<Item>, i: nat)
    ensures Refs(RunItems(s, items), i) <= Refs(s, i)
    decreases LiveCount(s.impls), |items|
  {
    if items != [] {
      match items[0] {
        case User(cb) => RefsOnlyFall(s.(ran := s.ran + [cb]), items[1..], i);
        case Unref(j) =>
          if Alive(s, j) {
            LiveCountUpdate(s.impls, j, DropRef(s, j).impls[j]);
            RefsOnlyFall(DropRef(s, j), SetOff(s, j), i);
            RefsOnlyFall(RunItems(DropRef(s, j), SetOff(s, j)), items[1..], i);
          } else {
            RefsOnlyFall(s, items[1..], i);
          }
      }
    }
  }

  lemma LastDropDeletes(t: State, i: nat)
    requires Alive(t, i) && t.impls[i].value.refs <= 1
    ensures !Alive(RunItems(t, [Unref(i)]), i)
  {
    RunUnref(t, i, []);
    assert [Unref(i)] + [] == [Unref(i)];
    SurvivorsUntouched(DropRef(t, i), SetOff(t, i), i);
  }

  // Known before the pass: when the copy is the only reference to the object,
  // the target's cleanups all run first exactly when the object has none, or
  // the target has none behind the copy.
  lemma SoleCopyTargetFirstExactly(s: State, pre: seq<Item>, i: nat, post: seq<Item>)
    requires Inv(s, pre + ([Unref(i)] + post)) && Refs(s, i) == 1
    ensures TargetFirst(Events(s, pre + ([Unref(i)] + post), OfTarget), i) <==>
              !HasUser(s.impls[i].value.list) || !HasUser(post)
  {
    CopyReachedFirst(s, pre, i, post);
    RefsOnlyFall(s, pre, i);
    LastDropDeletes(RunItems(s, pre), i);
    RunItemsSplit(s, pre, [Unref(i)]);
    GoneAtExactly(s, pre, Unref(i), post, i);
  }

  // Known before the pass, too: as long as a pointer or another Cleanable
  // refers to the object, none of its cleanups runs.
  lemma HeldElsewhereTargetFirst(s: State, items: seq<Item>, i: nat)
    requires Inv(s, items)
    requires PendingBag(PtrLists(s.ptrs))[Unref(i)] + PendingBag(s.holders)[Unref(i)] > 0
    ensures Alive(RunItems(s, items), i) && !Has(Events(s, items, OfTarget), OfObject(i))
    ensures TargetFirst(Events(s, items, OfTarget), i)
  {
    var t := RunItems(s, items);
    RunAllKeepsInv(s, items);
    assert Refs(t, i) == Occurs(t, Unref(i)) + Times([], Unref(i));
    SurvivorsUntouched(s, items, i);
    NoneOf(s, items, OfTarget, OfObject(i));
  }

  lemma ResetTargetInvariant(s: State, a: Place)
    requires Inv(s, []) && PlaceOk(s, a)
    ensures Inv(SetList(s, a, []), ListAt(s, a))
  {
    var t, items := SetList(s, a, []), ListAt(s, a);
    forall j: nat ensures Balanced(s, [], t, items, j) { TakeListBalanced(s, a, j); }
    BalancedKeepsInv(s, [], t, items);
  }

  // The same for resetting or destroying a target, in any reachable state and
  // for any shared object: what runs when, what is left, and whether the
  // target comes first, all known from the state with the target's list taken
  // out.
  lemma ResetTargetOrder(s: State, target: Target, i: nat)
    requires Inv(s, []) && OpOk(s, ResetTarget(target)) && Alive(s, i)
    ensures var t, items := SetList(s, Resolve(s, target), []), ListAt(s, Resolve(s, target));
            var es := Events(t, items, OfTarget);
            && Step(s, ResetTarget(target)).ran == s.ran + Callbacks(es)
            && (Alive(Step(s, ResetTarget(target)), i) <==> Reached(t, [], i))
            && Alive(t, i)
            && (TargetFirst(es, i) <==> !HasUser(t.impls[i].value.list) || ReachedBehindCallbacks(t, items, i))
  {
    var a := Resolve(s, target);
    var t, items := SetList(s, a, []), ListAt(s, a);
    ResetTargetInvariant(s, a);
    EventsAreWhatRan(t, items, OfTarget);
    assert items + [] == items;
    SurvivesExactlyIfReached(t, items, [], i);
    TargetFirstExactly(t, items, i);
  }

  // ----- lists of callbacks only -----

  predicate Plain(items: seq<Item>) {
    forall k | 0 <= k < |items| :: items[k].User?
  }

  function Calls(items: seq<Item>): seq<Callback>
    requires Plain(items)
  {
    seq(|items|, k requires 0 <= k < |items| => items[k].cb)
  }

  lemma {:induction false} PlainRuns(s: State, items: seq<Item>)
    requires Plain(items)
    ensures RunItems(s, items) == s.(ran := s.ran + Calls(items))
    decreases |items|
  {
    if items == [] {
      assert s.ran + Calls(items) == s.ran;
    } else {
      PlainRuns(s.(ran := s.ran + [items[0].cb]), items[1..]);
      assert s.ran + [items[0].cb] + Calls(items[1..]) == s.ran + Calls(items);
    }
  }

  // What runs, in order: the target's callbacks before the copy, the object's
  // exactly if the copy was the last reference, and the target's behind it.
  lemma PlainPassRuns(s: State, pre: seq<Item>, i: nat, post: seq<Item>)
    requires Alive(s, i) && Plain(pre) && Plain(post) && Plain(s.impls[i].value.list)
    ensures RunItems(s, pre + ([Unref(i)] + post)).ran ==
              s.ran + Calls(pre)
              + (if s.impls[i].value.refs <= 1 then Calls(s.impls[i].value.list) else [])
              + Calls(post)
  {
    PlainRuns(s, pre);
    var t := RunItems(s, pre);
    ReleaseRunsInPlace(s, pre, i, post);
    PlainRuns(DropRef(t, i), SetOff(t, i));
    PlainRuns(RunItems(DropRef(t, i), SetOff(t, i)), post);
  }

  // So the target comes first exactly when another reference is left, the
  // object has no callbacks, or the target has none behind the copy.
  lemma PlainTargetFirstExactly(s: State, pre: seq<Item>, i: nat, post: seq<Item>)
    requires Alive(s, i) && Plain(pre) && Plain(post) && Plain(s.impls[i].value.list)
    ensures TargetFirst(Events(s, pre + ([Unref(i)] + post), OfTarget), i) <==>
              s.impls[i].value.refs > 1 || s.impls[i].value.list == [] || post == []
  {
    var items := pre + ([Unref(i)] + post);
    PlainRuns(s, pre);
    var t := RunItems(s, pre);
    RunItemsSplit(s, pre, [Unref(i)]);
    if s.impls[i].value.refs > 1 {
      UnrefOnly(t, i);
      RunItemsSplit(s, pre, [Unref(i)] + post);
      RunItemsSplit(t, [Unref(i)], post);
      PlainRuns(DropRef(t, i), post);
      NoneOf(s, items, OfTarget, OfObject(i));
    } else {
      LastDropDeletes(t, i);
      GoneAtExactly(s, pre, Unref(i), post, i);
      PlainHasUser(s.impls[i].value.list);
      PlainHasUser(post);
    }
  }

  lemma PlainHasUser(items: seq<Item>)
    requires Plain(items)
    ensures HasUser(items) <==> items != []
  {
    if items != [] { assert items[0].User?; }
  }

  // ----- a documented remark, examined -----

  // "Only after the cleanups in the target are run" holds copy by copy, not
  // for the target as a whole: a callback registered with the target behind
  // the copy runs after the object's own.
  lemma TargetMayRunLater(a: Callback, b: Callback)
    requires a.fn != NULL_FUNCTION && b.fn != NULL_FUNCTION
    ensures var ops :=
              [RegisterCopyWith(0, Holder(0)), RegisterCleanup(Holder(0), b), ResetPtr(0), ResetTarget(Holder(0))];
            RunOk(OneShared(a), ops) && Run(OneShared(a), ops).ran == [a, b]
  {
    var ops := [RegisterCopyWith(0, Holder(0)), RegisterCleanup(Holder(0), b), ResetPtr(0), ResetTarget(Holder(0))];
    var s1 := State([Some(Impl(2, [User(a)]))], [Some(0)], [[Unref(0)]], []);
    var s2 := s1.(holders := [[Unref(0), User(b)]]);
    var s3 := State([Some(Impl(1, [User(a)]))], [None], [[Unref(0), User(b)]], []);
    var s4 := State([None], [None], [[]], [a, b]);
    assert Step(OneShared(a), ops[0]) == s1 by {
      assert OneShared(a).impls[0 := Some(Impl(2, [User(a)]))] == s1.impls && [[]][0 := [Unref(0)]] == s1.holders;
    }
    assert Step(s1, ops[1]) == s2 by {
      InsertSecond(Unref(0), User(b));
      assert s1.holders[0 := [Unref(0), User(b)]] == s2.holders;
    }
    assert Step(s2, ops[2]) == s3 by {
      assert s2.ptrs[0 := None] == s3.ptrs && s2.impls[0 := Some(Impl(1, [User(a)]))] == s3.impls;
      UnrefOnly(s2.(ptrs := s3.ptrs), 0);
    }
    assert Step(s3, ops[3]) == s4 by {
      assert s3.holders[0 := []] == s4.holders && s3.ran + [a, b] == s4.ran;
      ReleaseThenUser(s3.(holders := s4.holders), a, b);
    }
    RunFour(OneShared(a), ops, s1, s2, s3, s4);
  }

  lemma ReleaseThenUser(s: State, a: Callback, b: Callback)
    requires s.impls == [Some(Impl(1, [User(a)]))]
    ensures RunItems(s, [Unref(0), User(b)]) == s.(impls := [None], ran := s.ran + [a, b])
  {
    var t := DropRef(s, 0);
    assert [Unref(0), User(b)] == [Unref(0)] + [User(b)];
    RunUnref(s, 0, [User(b)]);
    RunUser(t, a);
    RunUser(t.(ran := t.ran + [a]), b);
    assert s.ran + [a] + [b] == s.ran + [a, b];
  }

  lemma RunFour(s: State, ops: seq<Op>, s1: State, s2: State, s3: State, s4: State)
    requires |ops| == 4
    requires OpOk(s, ops[0]) && Step(s, ops[0]) == s1
    requires OpOk(s1, ops[1]) && Step(s1, ops[1]) == s2
    requires OpOk(s2, ops[2]) && Step(s2, ops[2]) == s3
    requires OpOk(s3, ops[3]) && Step(s3, ops[3]) == s4
    ensures RunOk(s, ops) && Run(s, ops) == s4
  {
    assert ops[3..] == [ops[3]];
    assert RunOk(s3, ops[3..]) && Run(s3, ops[3..]) == s4;
    assert ops[2..][1..] == ops[3..];
    assert RunOk(s2, ops[2..]) && Run(s2, ops[2..]) == s4;
    assert ops[1..][1..] == ops[2..];
    assert RunOk(s1, ops[1..]) && Run(s1, ops[1..]) == s4;
  }
}
