// Reference-counted pointers to Cleanables, whose destruction can itself be
// registered as a cleanup (cleanable.h:80-126, SharedCleanablePtr).
module SharedCleanables {
  import opened Cleanables
  import opened ListBags
  import opened Wrappers

  // A registered cleanup: a user's callback, or the destruction of a virtual
  // copy of a shared pointer.
  datatype Item = User(cb: Callback) | Unref(impl: nat)

  // The pointed-to object: a reference count and the Cleanable's cleanups.
  datatype Impl = Impl(refs: nat, list: seq<Item>)

  datatype State = State(
    impls: seq<Option<Impl>>,     // every allocation so far; None once deleted
    ptrs: seq<Option<nat>>,       // the SharedCleanablePtr variables
    holders: seq<seq<Item>>,      // other Cleanables
    ran: seq<Callback>)

  predicate Alive(s: State, i: nat) {
    i < |s.impls| && s.impls[i].Some?
  }

  function Refs(s: State, i: nat): nat {
    if Alive(s, i) then s.impls[i].value.refs else 0
  }

  function LiveCount(impls: seq<Option<Impl>>): nat {
    if impls == [] then 0
    else LiveCount(impls[..|impls| - 1]) + if impls[|impls| - 1].Some? then 1 else 0
  }

  lemma {:induction false} LiveCountUpdate(impls: seq<Option<Impl>>, i: nat, v: Option<Impl>)
    requires i < |impls|
    ensures LiveCount(impls[i := v]) + (if impls[i].Some? then 1 else 0) ==
        LiveCount(impls) + (if v.Some? then 1 else 0)
    decreases |impls|
  {
    var n := |impls| - 1;
    if i < n {
      LiveCountUpdate(impls[..n], i, v);
      assert impls[i := v][..n] == impls[..n][i := v];
    } else {
      assert impls[i := v][..n] == impls[..n];
    }
  }

  // ----- running cleanups -----

  // Drop one reference; the last one deletes the object.
  function DropRef(s: State, i: nat): State {
    if !Alive(s, i) then s
    else
      var x := s.impls[i].value;
      s.(impls := s.impls[i := if x.refs <= 1 then None else Some(x.(refs := x.refs - 1))])
  }

  // The cleanups that deletion sets off.
  function SetOff(s: State, i: nat): seq<Item> {
    if Alive(s, i) && s.impls[i].value.refs <= 1 then s.impls[i].value.list else []
  }

  // Run cleanups in list order; a deleted object's cleanups run in place,
  // before what is left of the list.
  function RunItems(s: State, items: seq<Item>): (r: State)
    ensures LiveCount(r.impls) <= LiveCount(s.impls)
    ensures |r.impls| == |s.impls| && r.ptrs == s.ptrs && r.holders == s.holders
    decreases LiveCount(s.impls), |items|
  {
    if items == [] then s
    else match items[0]
      case User(cb) => RunItems(s.(ran := s.ran + [cb]), items[1..])
      case Unref(i) =>
        if Alive(s, i) then
          LiveCountUpdate(s.impls, i, DropRef(s, i).impls[i]);
          RunItems(RunItems(DropRef(s, i), SetOff(s, i)), items[1..])
        else RunItems(s, items[1..])
  }

  lemma RunUser(s: State, cb: Callback)
    ensures RunItems(s, [User(cb)]) == s.(ran := s.ran + [cb])
  {}

  lemma RunUnref(t: State, i: nat, post: seq<Item>)
    requires Alive(t, i)
    ensures RunItems(t, [Unref(i)] + post) == RunItems(RunItems(DropRef(t, i), SetOff(t, i)), post)
  {
    assert ([Unref(i)] + post)[1..] == post;
  }

  lemma UnrefOnly(s: State, i: nat)
    requires Alive(s, i) && s.impls[i].value.refs > 1
    ensures RunItems(s, [Unref(i)]) == DropRef(s, i)
  {}

  lemma {:induction false} RunItemsSplit(s: State, a: seq<Item>, b: seq<Item>)
    ensures RunItems(s, a + b) == RunItems(RunItems(s, a), b)
    decreases LiveCount(s.impls), |a|
  {
    if a == [] {
      assert a + b == b;
    } else {
      assert (a + b)[1..] == a[1..] + b && (a + b)[0] == a[0];
      match a[0] {
        case User(cb) => RunItemsSplit(s.(ran := s.ran + [cb]), a[1..], b);
        case Unref(i) =>
          if Alive(s, i) {
            LiveCountUpdate(s.impls, i, DropRef(s, i).impls[i]);
            RunItemsSplit(RunItems(DropRef(s, i), SetOff(s, i)), a[1..], b);
          } else {
            RunItemsSplit(s, a[1..], b);
          }
      }
    }
  }

  // Induction over a pass, for any property of the state and the cleanups
  // still to run.
  ghost predicate CallKeeps(s: State, cb: Callback, rest: seq<Item>, p: (State, seq<Item>) -> bool) {
    p(s, [User(cb)] + rest) ==> p(s.(ran := s.ran + [cb]), rest)
  }

  ghost predicate DropKeeps(s: State, i: nat, rest: seq<Item>, p: (State, seq<Item>) -> bool) {
    p(s, [Unref(i)] + rest) ==> p(DropRef(s, i), SetOff(s, i) + rest)
  }

  ghost predicate KeptByItems(p: (State, seq<Item>) -> bool) {
    && (forall s, cb, rest :: CallKeeps(s, cb, rest, p))
    && (forall s, i, rest :: DropKeeps(s, i, rest, p))
  }

  lemma {:induction false} PassKeeps(s: State, items: seq<Item>, rest: seq<Item>, p: (State, seq<Item>) -> bool)
    requires KeptByItems(p) && p(s, items + rest)
    ensures p(RunItems(s, items), rest)
    decreases LiveCount(s.impls), |items|
  {
    if items == [] {
      assert items + rest == rest;
    } else {
      var after := items[1..] + rest;
      assert items + rest == [items[0]] + after;
      match items[0] {
        case User(cb) =>
          assert CallKeeps(s, cb, after, p);
          PassKeeps(s.(ran := s.ran + [cb]), items[1..], rest, p);
        case Unref(i) =>
          assert DropKeeps(s, i, after, p);
          if Alive(s, i) {
            LiveCountUpdate(s.impls, i, DropRef(s, i).impls[i]);
            PassKeeps(DropRef(s, i), SetOff(s, i), after, p);
            PassKeeps(RunItems(DropRef(s, i), SetOff(s, i)), items[1..], rest, p);
          } else {
            assert SetOff(s, i) + after == after;
            PassKeeps(s, items[1..], rest, p);
          }
      }
    }
  }

  // ----- operations -----

  // A Cleanable named by the caller: another one, or the one a pointer
  // points to.
  datatype Target = Holder(k: nat) | PointeeOf(p: nat)

  datatype Op =
    | Allocate(p: nat)
    | ResetPtr(p: nat)                       // also the destructor
    | CopyAssign(p: nat, q: nat)
    | MoveAssign(p: nat, q: nat)
    | RegisterCleanup(target: Target, cb: Callback)
    | RegisterCopyWith(p: nat, target: Target)
    | MoveAsCleanupTo(p: nat, target: Target)
    | ResetTarget(target: Target)            // for a holder also its destruction

  // A resolved target.
  datatype Place = AtHolder(k: nat) | AtImpl(i: nat)

  predicate TargetOk(s: State, t: Target) {
    match t
    case Holder(k) => k < |s.holders|
    case PointeeOf(p) => p < |s.ptrs| && s.ptrs[p].Some? && Alive(s, s.ptrs[p].value)
  }

  // Dereferencing an empty pointer and moving a pointer onto itself are the
  // caller's errors.
  predicate OpOk(s: State, op: Op) {
    match op
    case Allocate(p) => p < |s.ptrs|
    case ResetPtr(p) => p < |s.ptrs|
    case CopyAssign(p, q) => p < |s.ptrs| && q < |s.ptrs|
    case MoveAssign(p, q) => p < |s.ptrs| && q < |s.ptrs| && p != q
    case RegisterCleanup(t, cb) => TargetOk(s, t) && cb.fn != NULL_FUNCTION
    case RegisterCopyWith(p, t) => p < |s.ptrs| && TargetOk(s, t)
    case MoveAsCleanupTo(p, t) => p < |s.ptrs| && TargetOk(s, t)
    case ResetTarget(t) => TargetOk(s, t)
  }

  predicate PlaceOk(s: State, a: Place) {
    match a
    case AtHolder(k) => k < |s.holders|
    case AtImpl(i) => Alive(s, i)
  }

  function Resolve(s: State, t: Target): (a: Place)
    requires TargetOk(s, t)
    ensures PlaceOk(s, a)
  {
    match t
    case Holder(k) => AtHolder(k)
    case PointeeOf(p) => AtImpl(s.ptrs[p].value)
  }

  function ListAt(s: State, a: Place): seq<Item>
    requires PlaceOk(s, a)
  {
    match a
    case AtHolder(k) => s.holders[k]
    case AtImpl(i) => s.impls[i].value.list
  }

  function SetList(s: State, a: Place, list: seq<Item>): State
    requires PlaceOk(s, a)
  {
    match a
    case AtHolder(k) => s.(holders := s.holders[k := list])
    case AtImpl(i) => s.(impls := s.impls[i := Some(s.impls[i].value.(list := list))])
  }

  function AddItem(s: State, a: Place, item: Item): State
    requires PlaceOk(s, a)
  {
    SetList(s, a, Insert(ListAt(s, a), item))
  }

  function AddRef(s: State, i: nat): State {
    if Alive(s, i) then s.(impls := s.impls[i := Some(s.impls[i].value.(refs := s.impls[i].value.refs + 1))]) else s
  }

  function DoReset(s: State, p: nat): (r: State)
    requires p < |s.ptrs|
    ensures r.ptrs == s.ptrs[p := None] && |r.impls| == |s.impls| && r.holders == s.holders
  {
    match s.ptrs[p]
    case None => assert s.ptrs[p := None] == s.ptrs; s
    case Some(i) => RunItems(s.(ptrs := s.ptrs[p := None]), [Unref(i)])
  }

  function Allocated(s: State, p: nat): State
    requires p < |s.ptrs|
  {
    s.(impls := s.impls + [Some(Impl(1, []))], ptrs := s.ptrs[p := Some(|s.impls|)])
  }

  function Moved(s: State, p: nat, q: nat): State
    requires p < |s.ptrs| && q < |s.ptrs|
  {
    s.(ptrs := s.ptrs[p := s.ptrs[q]][q := None])
  }

  function MovedIn(s: State, p: nat, a: Place): State
    requires p < |s.ptrs| && s.ptrs[p].Some? && PlaceOk(s, a)
  {
    AddItem(s, a, Unref(s.ptrs[p].value)).(ptrs := s.ptrs[p := None])
  }

  function Step(s: State, op: Op): State
    requires OpOk(s, op)
  {
    match op
    case Allocate(p) =>
      var t := DoReset(s, p);
      Allocated(t, p)
    case ResetPtr(p) => DoReset(s, p)
    case CopyAssign(p, q) =>
      if p == q then s
      else
        var t := DoReset(s, p);
        if t.ptrs[q].Some? then AddRef(t, t.ptrs[q].value).(ptrs := t.ptrs[p := t.ptrs[q]]) else t
    case MoveAssign(p, q) =>
      var t := DoReset(s, p);
      Moved(t, p, q)
    case RegisterCleanup(t, cb) => AddItem(s, Resolve(s, t), User(cb))
    case RegisterCopyWith(p, t) =>
      if s.ptrs[p].Some? then
        var i := s.ptrs[p].value;
        AddItem(AddRef(s, i), Resolve(s, t), Unref(i))
      else s
    case MoveAsCleanupTo(p, t) =>
      if s.ptrs[p].Some? then MovedIn(s, p, Resolve(s, t)) else s
    case ResetTarget(t) =>
      var a := Resolve(s, t);
      RunItems(SetList(s, a, []), ListAt(s, a))
  }

  // ----- whole runs -----

  ghost predicate RunOk(s: State, ops: seq<Op>)
    decreases ops
  {
    ops == [] || (OpOk(s, ops[0]) && RunOk(Step(s, ops[0]), ops[1..]))
  }

  function Run(s: State, ops: seq<Op>): State
    requires RunOk(s, ops)
    decreases ops
  {
    if ops == [] then s else Run(Step(s, ops[0]), ops[1..])
  }

  ghost predicate Initial(s: State) {
    && s.impls == [] && s.ran == []
    && (forall p | 0 <= p < |s.ptrs| :: s.ptrs[p].None?)
    && (forall k | 0 <= k < |s.holders| :: s.holders[k] == [])
  }

  // No pointer variable and no other Cleanable owns anything any more.
  ghost predicate Quiescent(s: State) {
    && (forall p | 0 <= p < |s.ptrs| :: s.ptrs[p].None?)
    && (forall k | 0 <= k < |s.holders| :: s.holders[k] == [])
  }
}
