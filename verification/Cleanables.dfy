// An object that owns callbacks to run when it goes away, kept as one
// inline record and a heap-linked list (cleanable.h, Cleanable).
module Cleanables {
  import opened ListBags

  const NULL_FUNCTION: nat := 0

  // A function with its two arguments.
  datatype Callback = Callback(fn: nat, arg1: nat, arg2: nat)

  // What the callbacks do is only that they are seen to run, in order.
  class CallLog {
    var ran: seq<Callback>

    constructor ()
      ensures ran == []
    {
      ran := [];
    }

    method Call(cb: Callback)
      requires cb.fn != NULL_FUNCTION
      modifies this
      ensures ran == old(ran) + [cb]
    {
      ran := ran + [cb];
    }
  }

  // A heap record. Once deleted it must not be read or deleted again.
  class Cleanup {
    var callback: Callback
    var next: Cleanup?
    ghost var freed: bool

    constructor (callback: Callback, next: Cleanup?)
      ensures this.callback == callback && this.next == next && !freed
    {
      this.callback := callback;
      this.next := next;
      freed := false;
    }

    method Read() returns (cb: Callback, n: Cleanup?)
      requires !freed
      ensures cb == callback && n == next
    {
      cb, n := callback, next;
    }

    method Delete()
      requires !freed
      modifies this`freed
      ensures freed
    {
      freed := true;
    }
  }

  // The list from `first` runs through exactly these records, all live and
  // different, and they hold these callbacks.
  ghost predicate Chain(first: Cleanup?, nodes: seq<Cleanup>, cbs: seq<Callback>)
    reads nodes
    decreases nodes
  {
    if nodes == [] then first == null && cbs == []
    else
      var n := nodes[0];
      && first == n && !n.freed && n !in nodes[1..]
      && cbs != [] && n.callback == cbs[0] && cbs[0].fn != NULL_FUNCTION
      && Chain(n.next, nodes[1..], cbs[1..])
  }

  class Cleanable {
    var head: Callback          // the inline record; unused while its function is null
    var next: Cleanup?
    ghost var nodes: seq<Cleanup>       // the heap records, in list order
    ghost var records: set<Cleanup>     // the same as a set
    ghost var contents: seq<Callback>   // all callbacks, in the order they will run

    ghost predicate Valid()
      reads this, records
    {
      && records == (set n | n in nodes)
      && if head.fn == NULL_FUNCTION then nodes == [] && contents == []
         else contents != [] && contents[0] == head && Chain(next, nodes, contents[1..])
    }

    constructor ()
      ensures Valid() && contents == [] && records == {}
    {
      head := Callback(NULL_FUNCTION, 0, 0);
      next := null;
      nodes, records, contents := [], {}, [];
    }

    method HasCleanups() returns (b: bool)
      requires Valid()
      ensures b <==> contents != []
    {
      b := head.fn != NULL_FUNCTION;
    }

    // Runs every callback once, in order, and frees every heap record once.
    // The pointers are left dangling.
    method DoCleanup(log: CallLog)
      requires Valid()
      modifies log, records
      ensures log.ran == old(log.ran) + contents
      ensures forall n | n in records :: n.freed
    {
      if head.fn != NULL_FUNCTION {
        log.Call(head);
        var c := next;
        ghost var rest, todo := nodes, contents[1..];
        while c != null
          invariant Chain(c, rest, todo)
          invariant forall n | n in records :: n in rest || n.freed
          invariant forall n | n in rest :: n in records
          invariant log.ran + todo == old(log.ran) + contents
          decreases |rest|
        {
          assert c == rest[0];
          var cb, n := c.Read();
          log.Call(cb);
          c.Delete();
          c, rest, todo := n, rest[1..], todo[1..];
        }
      }
    }

    // Leaves an empty object, ready for reuse.
    method Reset(log: CallLog)
      requires Valid()
      modifies this, records, log
      ensures Valid() && contents == [] && records == {}
      ensures log.ran == old(log.ran) + old(contents)
      ensures forall n | n in old(records) :: n.freed
    {
      DoCleanup(log);
      head := head.(fn := NULL_FUNCTION);
      next := null;
      nodes, records, contents := [], {}, [];
    }

    method RegisterCleanup(cb: Callback)
      requires Valid() && cb.fn != NULL_FUNCTION
      modifies this
      ensures Valid() && contents == Insert(old(contents), cb)
      ensures old(records) <= records && fresh(records - old(records))
    {
      if head.fn == NULL_FUNCTION {
        head := cb;
        next := null;
        contents := [cb];
      } else {
        var c := new Cleanup(cb, next);
        next := c;
        nodes, records := [c] + nodes, {c} + records;
        contents := Insert(contents, cb);
        assert nodes[1..] == old(nodes) && contents[1..][1..] == old(contents)[1..];
      }
    }

    // Takes over ownership of a record that some other object held.
    method RegisterNode(c: Cleanup)
      requires Valid() && !c.freed && c.callback.fn != NULL_FUNCTION && c !in records
      modifies this, c
      ensures Valid() && contents == Insert(old(contents), old(c.callback))
      ensures old(records) <= records <= old(records) + {c} && (c in records || c.freed)
    {
      if head.fn == NULL_FUNCTION {
        head := c.callback;
        next := null;
        contents := [c.callback];
        c.Delete();
      } else {
        c.next := next;
        next := c;
        nodes, records := [c] + nodes, {c} + records;
        contents := Insert(contents, c.callback);
        assert nodes[1..] == old(nodes) && contents[1..][1..] == old(contents)[1..];
      }
    }

    // Takes over a whole chain of records, one at a time.
    method RegisterChain(first: Cleanup?, ghost chain: seq<Cleanup>, ghost cbs: seq<Callback>)
      requires Valid() && Chain(first, chain, cbs)
      requires forall n | n in chain :: n !in records
      modifies this, chain
      ensures Valid() && contents == InsertAll(old(contents), cbs)
      ensures old(records) <= records <= old(records) + set n | n in chain
      ensures forall n | n in chain :: n in records || n.freed
    {
      var c := first;
      ghost var rest, todo := chain, cbs;
      while c != null
        invariant Valid() && Chain(c, rest, todo)
        invariant InsertAll(contents, todo) == InsertAll(old(contents), cbs)
        invariant forall n | n in rest :: n in chain && n !in records
        invariant old(records) <= records <= old(records) + set n | n in chain
        invariant forall n | n in chain :: n in rest || n in records || n.freed
        decreases |rest|
      {
        assert c == rest[0] && c in chain;
        var _, n := c.Read();
        RegisterNode(c);
        c, rest, todo := n, rest[1..], todo[1..];
      }
    }

    method DelegateCleanupsTo(other: Cleanable)
      requires other != this && Valid() && other.Valid() && records !! other.records
      modifies this, other, records
      ensures Valid() && contents == [] && records == {}
      ensures other.Valid() && other.contents == InsertAll(old(other.contents), old(contents))
      ensures old(other.records) <= other.records && fresh(other.records - old(other.records) - old(records))
      ensures forall n | n in old(records) :: n in other.records || n.freed
    {
      if head.fn == NULL_FUNCTION {
        return;
      }
      other.RegisterCleanup(head);
      other.RegisterChain(next, nodes, contents[1..]);
      head := head.(fn := NULL_FUNCTION);
      next := null;
      nodes, records, contents := [], {}, [];
    }
  }
}
