// Byte strings and the bytewise comparator order (slice.h).
module Bytes {

  type Byte = x: int | 0 <= x < 256
  type Slice = seq<Byte>

  // The length of the longest common prefix.
  function Common(a: Slice, b: Slice): (p: nat)
    ensures p <= |a| && p <= |b|
    ensures a[..p] == b[..p]
    ensures p < |a| && p < |b| ==> a[p] != b[p]
  {
    if |a| > 0 && |b| > 0 && a[0] == b[0] then
      var p := Common(a[1..], b[1..]);
      assert a[..p + 1] == [a[0]] + a[1..][..p];
      assert b[..p + 1] == [b[0]] + b[1..][..p];
      p + 1
    else
      0
  }

  // Strict bytewise order: unsigned bytes, a proper prefix comes first.
  predicate Less(a: Slice, b: Slice) {
    var p := Common(a, b);
    p < |b| && (p == |a| || a[p] < b[p])
  }

  predicate LessEq(a: Slice, b: Slice) {
    a == b || Less(a, b)
  }

  // p is where a and b first differ (or a ends).
  ghost predicate DiffersAt(a: Slice, b: Slice, p: nat) {
    p <= |a| && p < |b| && a[..p] == b[..p] && (p == |a| || a[p] < b[p])
  }

  lemma PrefixesAgree(a: Slice, b: Slice, p: nat)
    requires p <= |a| && p <= |b| && a[..p] == b[..p]
    ensures forall i | 0 <= i < p :: a[i] == b[i]
  {
    forall i | 0 <= i < p ensures a[i] == b[i] {
      assert a[i] == a[..p][i];
    }
  }

  lemma CommonIsLongest(a: Slice, b: Slice, p: nat)
    requires p <= |a| && p <= |b| && a[..p] == b[..p]
    ensures p <= Common(a, b)
  {
    PrefixesAgree(a, b, p);
  }

  lemma LessAt(a: Slice, b: Slice, p: nat)
    requires DiffersAt(a, b, p)
    ensures Less(a, b) && Common(a, b) == p
  {
    CommonIsLongest(a, b, p);
    PrefixesAgree(a, b, Common(a, b));
  }

  // Less exactly if it is a proper prefix, or has the smaller byte where the
  // two first differ.
  lemma LessExactly(a: Slice, b: Slice)
    ensures Less(a, b) <==>
      exists p: nat :: p < |b| && p <= |a| && (p == |a| || a[p] < b[p]) && forall i | 0 <= i < p :: a[i] == b[i]
  {
    PrefixesAgree(a, b, Common(a, b));
    if p: nat :| p < |b| && p <= |a| && (p == |a| || a[p] < b[p]) && forall i | 0 <= i < p :: a[i] == b[i] {
      LessByIndices(a, b, p);
    }
  }

  lemma LessByIndices(a: Slice, b: Slice, p: nat)
    requires p <= |a| && p < |b|
    requires (forall i | 0 <= i < p :: a[i] == b[i]) && (p == |a| || a[p] < b[p])
    ensures Less(a, b)
  {
    assert a[..p] == b[..p];
    LessAt(a, b, p);
  }

  lemma LessTotal(a: Slice, b: Slice)
    ensures a == b || Less(a, b) || Less(b, a)
    ensures !(Less(a, b) && Less(b, a))
    ensures !Less(a, a)
  {
    CommonSymmetric(a, b);
    CommonIsLongest(a, a, |a|);
    var p := Common(a, b);
    if p == |a| == |b| {
      assert a == a[..p] == b[..p] == b;
    }
  }

  lemma CommonSymmetric(a: Slice, b: Slice)
    ensures Common(a, b) == Common(b, a)
  {
    CommonIsLongest(a, b, Common(b, a));
    CommonIsLongest(b, a, Common(a, b));
  }

  lemma LessTransitive(a: Slice, b: Slice, c: Slice)
    requires Less(a, b) && Less(b, c)
    ensures Less(a, c)
  {
    var p, q := Common(a, b), Common(b, c);
    var m := if p < q then p else q;
    assert a[..m] == b[..p][..m];
    assert a[..m] == a[..p][..m];
    assert b[..m] == b[..q][..m];
    assert c[..m] == c[..q][..m];
    PrefixesAgree(a, b, p);
    PrefixesAgree(b, c, q);
    LessAt(a, c, m);
  }

  lemma LessEqTransitive(a: Slice, b: Slice, c: Slice)
    requires LessEq(a, b) && LessEq(b, c)
    ensures LessEq(a, c)
  {
    if Less(a, b) && Less(b, c) { LessTransitive(a, b, c); }
  }

  lemma EmptyLeast(a: Slice)
    ensures LessEq([], a)
  {}

  // A shared prefix does not affect the order.
  lemma LessAfterPrefix(x: Slice, a: Slice, b: Slice)
    ensures Less(x + a, x + b) <==> Less(a, b)
  {
    if Less(a, b) { LessUnderPrefix(x, a, b); }
    if Less(b, a) { LessUnderPrefix(x, b, a); }
    LessTotal(a, b);
    LessTotal(x + a, x + b);
  }

  lemma LessUnderPrefix(x: Slice, a: Slice, b: Slice)
    requires Less(a, b)
    ensures Less(x + a, x + b)
  {
    var p := Common(a, b);
    assert (x + a)[..|x| + p] == x + a[..p];
    assert (x + b)[..|x| + p] == x + b[..p];
    LessAt(x + a, x + b, |x| + p);
  }

  // ----- the executable comparison -----

  method DifferenceOffset(a: Slice, b: Slice) returns (off: nat)
    ensures off == Common(a, b)
  {
    off := 0;
    var len := if |a| < |b| then |a| else |b|;
    while off < len
      invariant off <= len && a[..off] == b[..off]
    {
      if a[off] != b[off] {
        break;
      }
      assert a[..off + 1] == a[..off] + [a[off]];
      assert b[..off + 1] == b[..off] + [b[off]];
      off := off + 1;
    }
    CommonIsLongest(a, b, off);
    PrefixesAgree(a, b, Common(a, b));
  }

  // Three-way comparison: the sign of the result is the order.
  method Compare(a: Slice, b: Slice) returns (r: int)
    ensures r < 0 <==> Less(a, b)
    ensures r == 0 <==> a == b
    ensures r > 0 <==> Less(b, a)
  {
    var minLen := if |a| < |b| then |a| else |b|;
    var off := DifferenceOffset(a, b);
    CommonSymmetric(a, b);
    LessTotal(a, b);
    if off < minLen {
      r := if a[off] < b[off] then -1 else 1;
    } else if |a| < |b| {
      r := -1;
    } else if |a| > |b| {
      r := 1;
    } else {
      r := 0;
    }
  }
}
