// Splitting keys into segments, and how the order of keys relates to the
// order of their segments (experimental.h, KeySegmentsExtractor).
module KeySegments {
  import opened Bytes

  // 0..63 are usable; the top three values are error signals.
  type Category = c: int | 0 <= c <= 63 || 253 <= c <= 255 witness 0

  const DEFAULT_CATEGORY: Category := 0
  const MAX_USABLE_CATEGORY: Category := 63
  const ERROR_FILTER_SCOPE: Category := 253
  const ERROR_FILE_SCOPE: Category := 254
  const ERROR_DB_SCOPE: Category := 255

  datatype KeyKind = FullUserKey | InclusiveLowerBound | ExclusiveUpperBound

  datatype Input = Input(key: Slice, kind: KeyKind)

  datatype Result = Result(segmentEnds: seq<nat>, category: Category)

  type Extractor = Input -> Result

  // A key together with the ends of its represented segments.
  datatype RawSplit = Split(key: Slice, ends: seq<nat>) {
    ghost predicate WellFormed() {
      && (forall i | 0 <= i < |ends| :: ends[i] <= |key|)
      && forall i, j | 0 <= i < j < |ends| :: ends[i] <= ends[j]
    }

    // Segments are numbered without bound: past the represented ones there
    // is an infinite tail of empty segments.
    function End(i: nat): nat {
      if i < |ends| then ends[i] else if ends == [] then 0 else ends[|ends| - 1]
    }

    function Start(i: nat): nat {
      if i == 0 then 0 else End(i - 1)
    }
  }

  type Split = p: RawSplit | p.WellFormed() witness RawSplit.Split([], [])

  function Segment(p: Split, i: nat): Slice {
    assert p.Start(i) <= p.End(i) <= |p.key|;
    p.key[p.Start(i)..p.End(i)]
  }

  // What the segments leave over at the end of the key.
  function Remainder(p: Split): Slice {
    p.key[p.End(|p.ends|)..]
  }

  // ----- lexicographic order on infinite segment sequences -----

  ghost predicate SameBefore(p: Split, q: Split, n: nat) {
    forall i: nat | i < n :: Segment(p, i) == Segment(q, i)
  }

  ghost predicate SameSegments(p: Split, q: Split) {
    forall i: nat :: Segment(p, i) == Segment(q, i)
  }

  ghost predicate LessFrom(p: Split, q: Split, n: nat) {
    SameBefore(p, q, n) && Less(Segment(p, n), Segment(q, n))
  }

  ghost predicate SegmentsLess(p: Split, q: Split) {
    exists n: nat :: LessFrom(p, q, n)
  }

  ghost predicate SegmentsLessEq(p: Split, q: Split) {
    SameSegments(p, q) || SegmentsLess(p, q)
  }

  lemma {:induction false} LeastDifference(p: Split, q: Split, m: nat) returns (n: nat)
    requires Segment(p, m) != Segment(q, m)
    ensures n <= m && SameBefore(p, q, n) && Segment(p, n) != Segment(q, n)
  {
    n := 0;
    while Segment(p, n) == Segment(q, n)
      invariant n <= m && SameBefore(p, q, n)
      decreases m - n
    {
      n := n + 1;
    }
  }

  lemma SegmentsTotal(p: Split, q: Split)
    ensures SegmentsLess(p, q) || SameSegments(p, q) || SegmentsLess(q, p)
  {
    if m: nat :| Segment(p, m) != Segment(q, m) {
      var n := LeastDifference(p, q, m);
      LessTotal(Segment(p, n), Segment(q, n));
      assert LessFrom(p, q, n) || LessFrom(q, p, n);
    }
  }

  lemma SegmentsAntisymmetric(p: Split, q: Split)
    requires SegmentsLess(p, q)
    ensures !SegmentsLessEq(q, p)
  {
    var n: nat :| LessFrom(p, q, n);
    LessTotal(Segment(p, n), Segment(q, n));
    forall m: nat ensures !LessFrom(q, p, m) {
      LessTotal(Segment(p, m), Segment(q, m));
    }
  }

  lemma SameBeforeSameEnds(p: Split, q: Split, n: nat)
    requires SameBefore(p, q, n)
    ensures p.Start(n) == q.Start(n)
    ensures forall i: nat | i < n :: p.End(i) == q.End(i)
    ensures p.key[..p.Start(n)] == q.key[..q.Start(n)]
  {
    if n > 0 {
      SameBeforeSameEnds(p, q, n - 1);
      var s := p.Start(n - 1);
      assert Segment(p, n - 1) == Segment(q, n - 1);
      assert |Segment(p, n - 1)| == p.End(n - 1) - s;
      assert |Segment(q, n - 1)| == q.End(n - 1) - s;
      assert p.key[..p.End(n - 1)] == p.key[..s] + Segment(p, n - 1);
      assert q.key[..q.End(n - 1)] == q.key[..s] + Segment(q, n - 1);
    }
  }

  // ----- the segment prefix property -----

  // If segment n of p stops before the end of its key, then any key that
  // starts with everything up to there has the same segments 0..n.
  ghost predicate PrefixPair(p: Split, q: Split) {
    forall n: nat | p.End(n) < |p.key| && p.key[..p.End(n)] <= q.key :: SameBefore(p, q, n + 1)
  }

  lemma DifferingSegmentNotShared(p: Split, q: Split, n: nat)
    requires PrefixPair(p, q) && Segment(p, n) != Segment(q, n)
    ensures p.End(n) == |p.key| || !(p.key[..p.End(n)] <= q.key)
  {}

  // The heart of the theorem: at the first segment where two splits differ,
  // the split of the smaller key has the smaller segment.
  lemma FirstDifferenceFollowsKeys(p: Split, q: Split, n: nat)
    requires PrefixPair(p, q) && PrefixPair(q, p)
    requires Less(p.key, q.key)
    requires SameBefore(p, q, n) && Segment(p, n) != Segment(q, n)
    ensures Less(Segment(p, n), Segment(q, n))
  {
    SameBeforeSameEnds(p, q, n);
    var s, d := p.Start(n), Common(p.key, q.key);
    CommonIsLongest(p.key, q.key, s);
    PrefixesAgree(p.key, q.key, d);
    DifferingSegmentNotShared(p, q, n);
    DifferingSegmentNotShared(q, p, n);
    CutAfterDifference(p.key, q.key, s, d, p.End(n), q.End(n));
  }

  // Pieces cut from the same place, each running past the first difference
  // of the two keys or to the end of its own key.
  lemma CutAfterDifference(k: Slice, l: Slice, s: nat, d: nat, ke: nat, le: nat)
    requires s <= d <= |k| && d < |l| && s <= ke <= |k| && s <= le <= |l|
    requires (forall i | 0 <= i < d :: k[i] == l[i]) && (d == |k| || k[d] < l[d])
    requires (ke == |k| || d < ke) && (le == |l| || d < le)
    ensures Less(k[s..ke], l[s..le])
  {
    LessByIndices(k[s..ke], l[s..le], d - s);
  }

  lemma PrefixPairOrders(p: Split, q: Split)
    requires PrefixPair(p, q) && PrefixPair(q, p)
    requires Less(p.key, q.key)
    ensures SegmentsLessEq(p, q)
  {
    if m: nat :| Segment(p, m) != Segment(q, m) {
      var n := LeastDifference(p, q, m);
      FirstDifferenceFollowsKeys(p, q, n);
      assert LessFrom(p, q, n);
    }
  }

  lemma PrefixPairSameKey(p: Split, q: Split)
    requires PrefixPair(p, q) && PrefixPair(q, p)
    requires p.key == q.key
    ensures SameSegments(p, q)
  {
    if m: nat :| Segment(p, m) != Segment(q, m) {
      var n := LeastDifference(p, q, m);
      SameBeforeSameEnds(p, q, n);
      DifferingSegmentNotShared(p, q, n);
      DifferingSegmentNotShared(q, p, n);
      assert false;
    }
  }

  // The strong form: taking what is left of the key as one more segment,
  // segment order is exactly key order.
  ghost predicate StronglyLess(p: Split, q: Split) {
    SegmentsLess(p, q) || (SameSegments(p, q) && Less(Remainder(p), Remainder(q)))
  }

  lemma StrongOrderIsKeyOrder(p: Split, q: Split)
    requires PrefixPair(p, q) && PrefixPair(q, p)
    ensures Less(p.key, q.key) <==> StronglyLess(p, q)
  {
    LessTotal(p.key, q.key);
    if p.key == q.key {
      PrefixPairSameKey(p, q);
    } else if Less(p.key, q.key) {
      PrefixPairOrders(p, q);
    } else {
      PrefixPairOrders(q, p);
    }
    if SegmentsLess(p, q) { SegmentsAntisymmetric(p, q); }
    if SegmentsLess(q, p) { SegmentsAntisymmetric(q, p); }
    if SameSegments(p, q) { SameSegmentsRemainder(p, q); }
  }

  lemma SameSegmentsRemainder(p: Split, q: Split)
    requires SameSegments(p, q)
    ensures Less(p.key, q.key) <==> Less(Remainder(p), Remainder(q))
  {
    var n := if |p.ends| < |q.ends| then |q.ends| + 1 else |p.ends| + 1;
    assert SameBefore(p, q, n);
    SameBeforeSameEnds(p, q, n);
    var t := p.Start(n);
    assert t == p.End(|p.ends|) && t == q.End(|q.ends|);
    assert p.key == p.key[..t] + Remainder(p);
    assert q.key == q.key[..t] + Remainder(q);
    LessAfterPrefix(p.key[..t], Remainder(p), Remainder(q));
  }

  // ----- properties of a whole extractor -----

  // The positions an extractor reports are ordered and inside the key.
  ghost predicate ValidExtractor(e: Extractor) {
    forall x: Input :: RawSplit.Split(x.key, e(x).segmentEnds).WellFormed()
  }

  ghost function SplitOf(e: Extractor, x: Input): Split
    requires ValidExtractor(e)
  {
    RawSplit.Split(x.key, e(x).segmentEnds)
  }

  // All properties are relative to a scope: the categories considered together.
  ghost predicate InScope(e: Extractor, scope: set<Category>, x: Input) {
    e(x).category in scope
  }

  ghost predicate SegmentPrefixProperty(e: Extractor, scope: set<Category>)
    requires ValidExtractor(e)
  {
    forall x: Input, y: Input | InScope(e, scope, x) && InScope(e, scope, y) ::
      PrefixPair(SplitOf(e, x), SplitOf(e, y))
  }

  ghost predicate WeakSegmentOrdering(e: Extractor, scope: set<Category>)
    requires ValidExtractor(e)
  {
    forall x: Input, y: Input | InScope(e, scope, x) && InScope(e, scope, y) && Less(x.key, y.key) ::
      SegmentsLessEq(SplitOf(e, x), SplitOf(e, y))
  }

  ghost predicate CategoryContiguous(e: Extractor, c: Category) {
    forall x: Input, y: Input, z: Input |
      InScope(e, {c}, x) && InScope(e, {c}, z) && Less(x.key, y.key) && Less(y.key, z.key) ::
      e(y).category == c
  }

  lemma PrefixImpliesOrdering(e: Extractor, scope: set<Category>)
    requires ValidExtractor(e) && SegmentPrefixProperty(e, scope)
    ensures WeakSegmentOrdering(e, scope)
  {
    forall x: Input, y: Input | InScope(e, scope, x) && InScope(e, scope, y) && Less(x.key, y.key)
      ensures SegmentsLessEq(SplitOf(e, x), SplitOf(e, y))
    {
      PrefixPairOrders(SplitOf(e, x), SplitOf(e, y));
    }
  }

  lemma PrefixImpliesStrongOrdering(e: Extractor, scope: set<Category>, x: Input, y: Input)
    requires ValidExtractor(e) && SegmentPrefixProperty(e, scope)
    requires InScope(e, scope, x) && InScope(e, scope, y)
    ensures Less(x.key, y.key) <==> StronglyLess(SplitOf(e, x), SplitOf(e, y))
  {
    StrongOrderIsKeyOrder(SplitOf(e, x), SplitOf(e, y));
  }

  // Keys of one category that generate the same segments are contiguous.
  lemma EqualSegmentsContiguous(e: Extractor, c: Category, x: Input, y: Input, z: Input)
    requires ValidExtractor(e) && WeakSegmentOrdering(e, {c}) && CategoryContiguous(e, c)
    requires InScope(e, {c}, x) && InScope(e, {c}, z)
    requires Less(x.key, y.key) && Less(y.key, z.key)
    requires SameSegments(SplitOf(e, x), SplitOf(e, z))
    ensures SameSegments(SplitOf(e, x), SplitOf(e, y))
  {
    var p, q, r := SplitOf(e, x), SplitOf(e, y), SplitOf(e, z);
    assert SegmentsLessEq(p, q) && SegmentsLessEq(q, r);
    if SegmentsLess(p, q) {
      if n: nat :| LessFrom(p, q, n) {
        assert LessFrom(r, q, n);
      }
      SegmentsAntisymmetric(r, q);
      assert false;
    }
  }

  // ----- why the details matter -----

  // Read over finite segment lists only, the prefix property does not give
  // the order: here no represented segment of one key contradicts another.
  ghost predicate FinitePrefixPair(p: Split, q: Split) {
    forall n: nat | n < |p.ends| && p.End(n) < |p.key| && p.key[..p.End(n)] <= q.key ::
      n < |q.ends| && SameBefore(p, q, n + 1)
  }

  lemma FiniteReadingIsTooWeak(x: Byte, y: Byte) returns (p: Split, q: Split)
    requires x < y
    ensures FinitePrefixPair(p, q) && FinitePrefixPair(q, p)
    ensures Less(p.key, q.key) && SegmentsLess(q, p)
  {
    var k, l := [x, x], [x, y];
    p, q := RawSplit.Split(k, [1, 2]), RawSplit.Split(l, [1]);
    LessByIndices(k, l, 1);
    assert Segment(p, 0) == [x] == Segment(q, 0);
    assert Segment(p, 1) == [x] && Segment(q, 1) == [];
    assert SameBefore(p, q, 1) && SameBefore(q, p, 1);
    assert LessFrom(q, p, 1);
    assert q.End(0) == 1 == p.End(0) && p.End(1) == 2;
  }

  // ----- delimiters left out of the segment before them -----

  // A word ends before the first delimiter.
  function WordLength(ds: set<Byte>, k: Slice): (n: nat)
    ensures n <= |k| && forall i | 0 <= i < n :: k[i] !in ds
    ensures n < |k| ==> k[n] in ds
  {
    if k == [] || k[0] in ds then 0 else 1 + WordLength(ds, k[1..])
  }

  // The end of the delimiter behind the word, if there is one.
  function DelimiterEnd(ds: set<Byte>, k: Slice): (n: nat)
    ensures WordLength(ds, k) <= n <= |k|
  {
    if WordLength(ds, k) < |k| then WordLength(ds, k) + 1 else |k|
  }

  // The word, its delimiter as a segment of its own, and the rest.
  function DelimitedSplit(ds: set<Byte>, k: Slice): Split {
    RawSplit.Split(k, [WordLength(ds, k), DelimiterEnd(ds, k), |k|])
  }

  function DelimitedExtractor(ds: set<Byte>): Extractor {
    (x: Input) => Result(DelimitedSplit(ds, x.key).ends, DEFAULT_CATEGORY)
  }

  // Every byte smaller than a delimiter is one too.
  ghost predicate DownwardClosed(ds: set<Byte>) {
    forall lo: Byte, hi: Byte | lo < hi && hi in ds :: lo in ds
  }

  lemma DelimitedSegments(ds: set<Byte>, k: Slice)
    ensures var p, n, e := DelimitedSplit(ds, k), WordLength(ds, k), DelimiterEnd(ds, k);
            Segment(p, 0) == k[0..n] && Segment(p, 1) == k[n..e] && Segment(p, 2) == k[e..|k|]
  {}

  lemma DifferentWords(ds: set<Byte>, k: Slice, l: Slice)
    requires DownwardClosed(ds) && Less(k, l)
    requires WordLength(ds, k) != WordLength(ds, l) || WordLength(ds, k) > Common(k, l)
    ensures Less(k[0..WordLength(ds, k)], l[0..WordLength(ds, l)])
  {
    var n, m, d := WordLength(ds, k), WordLength(ds, l), Common(k, l);
    PrefixesAgree(k, l, d);
    WordsReach(ds, k, l, d);
    CutNotBefore(k, l, d, n, m);
  }

  // Words that differ, or run past the first difference: the smaller key's
  // reaches it and the larger key's runs past it.
  lemma WordsReach(ds: set<Byte>, k: Slice, l: Slice, d: nat)
    requires DownwardClosed(ds)
    requires d <= |k| && d < |l| && (forall i | 0 <= i < d :: k[i] == l[i]) && (d == |k| || k[d] < l[d])
    requires WordLength(ds, k) != WordLength(ds, l) || WordLength(ds, k) > d
    ensures WordLength(ds, k) >= d && WordLength(ds, l) > d
  {}

  lemma CutNotBefore(k: Slice, l: Slice, d: nat, n: nat, m: nat)
    requires d <= n <= |k| && d < m <= |l|
    requires (forall i | 0 <= i < d :: k[i] == l[i]) && (d == |k| || k[d] < l[d])
    ensures Less(k[0..n], l[0..m])
  {
    LessByIndices(k[0..n], l[0..m], d);
  }

  lemma SameWords(ds: set<Byte>, k: Slice, l: Slice)
    requires Less(k, l)
    requires WordLength(ds, k) == WordLength(ds, l) <= Common(k, l)
    ensures var n, e, f := WordLength(ds, k), DelimiterEnd(ds, k), DelimiterEnd(ds, l);
            && k[0..n] == l[0..n]
            && (Less(k[n..e], l[n..f]) || (k[n..e] == l[n..f] && Less(k[e..|k|], l[f..|l|])))
  {
    PrefixesAgree(k, l, Common(k, l));
    assert DelimiterEnd(ds, l) == WordLength(ds, k) + 1;
    OneByteThenRest(k, l, WordLength(ds, k), Common(k, l));
  }

  // Cut one byte from place n, then the rest.
  lemma OneByteThenRest(k: Slice, l: Slice, n: nat, d: nat)
    requires n <= d <= |k| && d < |l|
    requires (forall i | 0 <= i < d :: k[i] == l[i]) && (d == |k| || k[d] < l[d])
    ensures var e := if n < |k| then n + 1 else n;
            && k[0..n] == l[0..n]
            && (Less(k[n..e], l[n..n + 1]) || (k[n..e] == l[n..n + 1] && Less(k[e..|k|], l[n + 1..|l|])))
  {
    if n == d {
      CutAfterDifference(k, l, n, d, if n < |k| then n + 1 else n, n + 1);
    } else {
      assert k[n..n + 1] == [k[n]] && l[n..n + 1] == [l[n]];
      CutAfterDifference(k, l, n + 1, d, |k|, |l|);
    }
  }

  lemma DelimitedOrdered(ds: set<Byte>, k: Slice, l: Slice)
    requires DownwardClosed(ds) && Less(k, l)
    ensures SegmentsLess(DelimitedSplit(ds, k), DelimitedSplit(ds, l))
  {
    var p, q := DelimitedSplit(ds, k), DelimitedSplit(ds, l);
    DelimitedSegments(ds, k);
    DelimitedSegments(ds, l);
    if WordLength(ds, k) == WordLength(ds, l) <= Common(k, l) {
      SameWords(ds, k, l);
      assert LessFrom(p, q, 1) || LessFrom(p, q, 2);
    } else {
      DifferentWords(ds, k, l);
      assert LessFrom(p, q, 0);
    }
  }

  // A delimiter above a byte that is none: the key of the delimiter alone is
  // larger, but its first segment is empty.
  lemma DelimiterAboveBreaksOrder(ds: set<Byte>, lo: Byte, hi: Byte)
    requires lo < hi && hi in ds && lo !in ds
    ensures Less([lo], [hi]) && SegmentsLess(DelimitedSplit(ds, [hi]), DelimitedSplit(ds, [lo]))
  {
    LessByIndices([lo], [hi], 0);
    assert WordLength(ds, [lo]) == 1 && WordLength(ds, [hi]) == 0;
    DelimitedSegments(ds, [lo]);
    DelimitedSegments(ds, [hi]);
    assert LessFrom(DelimitedSplit(ds, [hi]), DelimitedSplit(ds, [lo]), 0);
  }

  lemma DelimitedPrefixPair(ds: set<Byte>, k: Slice, l: Slice)
    requires ds == {} || forall b: Byte :: b in ds
    ensures PrefixPair(DelimitedSplit(ds, k), DelimitedSplit(ds, l))
  {
    DelimitedSegments(ds, k);
    DelimitedSegments(ds, l);
    if ds != {} && k != [] && k[..1] <= l { assert k[..1][0] == l[0]; }
  }

  lemma WordNotPrefixCode(ds: set<Byte>, a: Byte, b: Byte)
    requires a !in ds && b in ds
    ensures !PrefixPair(DelimitedSplit(ds, [a, b]), DelimitedSplit(ds, [a, a]))
  {
    var p, q := DelimitedSplit(ds, [a, b]), DelimitedSplit(ds, [a, a]);
    assert WordLength(ds, p.key) == 1 && WordLength(ds, q.key) == 2;
    assert p.End(0) == 1 && p.key[..1] <= q.key && |Segment(p, 0)| != |Segment(q, 0)|;
    assert !SameBefore(p, q, 1);
  }

  lemma DelimitedExtractorValid(ds: set<Byte>)
    ensures ValidExtractor(DelimitedExtractor(ds))
    ensures forall x: Input :: SplitOf(DelimitedExtractor(ds), x) == DelimitedSplit(ds, x.key)
  {
    var e := DelimitedExtractor(ds);
    forall x: Input ensures RawSplit.Split(x.key, e(x).segmentEnds) == DelimitedSplit(ds, x.key) {}
  }

  lemma OrderedExactlyIfDownwardClosed(ds: set<Byte>, scope: set<Category>)
    requires DEFAULT_CATEGORY in scope && ValidExtractor(DelimitedExtractor(ds))
    ensures WeakSegmentOrdering(DelimitedExtractor(ds), scope) <==> DownwardClosed(ds)
  {
    var e := DelimitedExtractor(ds);
    DelimitedExtractorValid(ds);
    if DownwardClosed(ds) {
      forall x: Input, y: Input | Less(x.key, y.key) ensures SegmentsLessEq(SplitOf(e, x), SplitOf(e, y)) {
        DelimitedOrdered(ds, x.key, y.key);
      }
    } else {
      var lo: Byte, hi: Byte :| lo < hi && hi in ds && lo !in ds;
      DelimiterAboveBreaksOrder(ds, lo, hi);
      var x, y := Input([lo], FullUserKey), Input([hi], FullUserKey);
      SegmentsAntisymmetric(SplitOf(e, y), SplitOf(e, x));
      assert InScope(e, scope, x) && InScope(e, scope, y);
    }
  }

  lemma PrefixPropertyExactlyIfTrivial(ds: set<Byte>, scope: set<Category>)
    requires DEFAULT_CATEGORY in scope && ValidExtractor(DelimitedExtractor(ds))
    ensures SegmentPrefixProperty(DelimitedExtractor(ds), scope) <==> ds == {} || forall b: Byte :: b in ds
  {
    var e := DelimitedExtractor(ds);
    DelimitedExtractorValid(ds);
    if ds == {} || forall b: Byte :: b in ds {
      forall x: Input, y: Input ensures PrefixPair(SplitOf(e, x), SplitOf(e, y)) {
        DelimitedPrefixPair(ds, x.key, y.key);
      }
    } else {
      var a: Byte, b: Byte :| a !in ds && b in ds;
      WordNotPrefixCode(ds, a, b);
      var x, y := Input([a, b], FullUserKey), Input([a, a], FullUserKey);
      assert InScope(e, scope, x) && InScope(e, scope, y) && !PrefixPair(SplitOf(e, x), SplitOf(e, y));
    }
  }

  // Leaving the delimiters out of the segment before them keeps the order
  // exactly when every byte smaller than a delimiter is one too, and has the
  // prefix property only if no byte or every byte is a delimiter.
  lemma ExcludedDelimitersExactly(ds: set<Byte>, scope: set<Category>)
    requires DEFAULT_CATEGORY in scope
    ensures ValidExtractor(DelimitedExtractor(ds))
    ensures WeakSegmentOrdering(DelimitedExtractor(ds), scope) <==> DownwardClosed(ds)
    ensures SegmentPrefixProperty(DelimitedExtractor(ds), scope) <==> ds == {} || forall b: Byte :: b in ds
  {
    DelimitedExtractorValid(ds);
    OrderedExactlyIfDownwardClosed(ds, scope);
    PrefixPropertyExactlyIfTrivial(ds, scope);
  }

  lemma WordOf(ds: set<Byte>, k: Slice, n: nat)
    requires n < |k| && k[n] in ds && forall i | 0 <= i < n :: k[i] !in ds
    ensures WordLength(ds, k) == n && Segment(DelimitedSplit(ds, k), 0) == k[..n]
  {
    DelimitedSegments(ds, k);
    assert k[0..n] == k[..n];
  }

  // '4' used as a delimiter but left out of the segment before it:
  // "123456" < "124536" < "125436" have the first segments "123", "12", "125".
  lemma DocumentedDelimiter(ds: set<Byte>, a: Slice, b: Slice, c: Slice)
    requires ds == {52}
    requires a == [49, 50, 51, 52, 53, 54] && b == [49, 50, 52, 53, 51, 54] && c == [49, 50, 53, 52, 51, 54]
    ensures Less(a, b) && Less(b, c)
    ensures var p, q, r := DelimitedSplit(ds, a), DelimitedSplit(ds, b), DelimitedSplit(ds, c);
            && Segment(p, 0) == [49, 50, 51] && Segment(q, 0) == [49, 50] && Segment(r, 0) == [49, 50, 53]
            && SegmentsLess(q, p) && SegmentsLess(q, r)
  {
    WordOf(ds, a, 3);
    WordOf(ds, b, 2);
    WordOf(ds, c, 3);
    LongerSecond(a, b, c, DelimitedSplit(ds, a), DelimitedSplit(ds, b), DelimitedSplit(ds, c));
  }

  lemma LongerSecond(a: Slice, b: Slice, c: Slice, p: Split, q: Split, r: Split)
    requires |a| == |b| == |c| == 6 && a[..2] == b[..2] == c[..2] && a[2] < b[2] < c[2]
    requires Segment(p, 0) == a[..3] && Segment(q, 0) == b[..2] && Segment(r, 0) == c[..3]
    ensures Less(a, b) && Less(b, c) && SegmentsLess(q, p) && SegmentsLess(q, r)
  {
    LessAt(a, b, 2);
    LessAt(b, c, 2);
    assert a[..3][..2] == a[..2] && c[..3][..2] == c[..2] && b[..2][..2] == b[..2];
    LessAt(b[..2], a[..3], 2);
    LessAt(b[..2], c[..3], 2);
    assert LessFrom(q, p, 0) && LessFrom(q, r, 0);
  }
}
