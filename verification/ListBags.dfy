// Adding to lists of cleanups, and counting what several of them hold.
module ListBags {

  // A new cleanup goes right behind the inline one.
  function Insert<T>(contents: seq<T>, cb: T): seq<T> {
    if contents == [] then [cb] else [contents[0], cb] + contents[1..]
  }

  function InsertAll<T>(contents: seq<T>, cbs: seq<T>): seq<T>
    decreases cbs
  {
    if cbs == [] then contents else InsertAll(Insert(contents, cbs[0]), cbs[1..])
  }

  lemma Associative<T>(a: seq<T>, b: seq<T>, c: seq<T>)
    ensures (a + b) + c == a + (b + c)
  {}

  // The elements of all the lists, each as often as it occurs.
  function PendingBag<T(==)>(pending: seq<seq<T>>): multiset<T> {
    if pending == [] then multiset{}
    else PendingBag(pending[..|pending| - 1]) + multiset(pending[|pending| - 1])
  }

  lemma BagAddBoth<T>(a: multiset<T>, b: multiset<T>, x: multiset<T>, y: multiset<T>, z: multiset<T>)
    requires a + b == x + y
    ensures (a + z) + b == (x + z) + y
  {
    assert (a + z) + b == (a + b) + z;
    assert (x + z) + y == (x + y) + z;
  }

  lemma {:induction false} PendingUpdate<T>(pending: seq<seq<T>>, i: nat, c: seq<T>)
    requires i < |pending|
    ensures PendingBag(pending[i := c]) + multiset(pending[i]) == PendingBag(pending) + multiset(c)
    decreases |pending|
  {
    var n := |pending| - 1;
    var updated := pending[i := c];
    assert PendingBag(updated) == PendingBag(updated[..n]) + multiset(updated[n]);
    if i < n {
      PendingUpdate(pending[..n], i, c);
      assert updated[..n] == pending[..n][i := c] && pending[..n][i] == pending[i];
      BagAddBoth(PendingBag(updated[..n]), multiset(pending[i]), PendingBag(pending[..n]), multiset(c),
          multiset(pending[n]));
    } else {
      assert updated[..n] == pending[..n];
    }
  }

  lemma InsertBag<T>(contents: seq<T>, cb: T)
    ensures multiset(Insert(contents, cb)) == multiset(contents) + multiset{cb}
  {
    if contents != [] { assert contents == [contents[0]] + contents[1..]; }
  }

  lemma {:induction false} AllEmptyBag<T>(pending: seq<seq<T>>)
    requires forall i | 0 <= i < |pending| :: pending[i] == []
    ensures PendingBag(pending) == multiset{}
    decreases |pending|
  {
    if pending != [] { AllEmptyBag(pending[..|pending| - 1]); }
  }
}
