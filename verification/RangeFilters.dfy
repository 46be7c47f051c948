// The bytewise min/max filter over a selected part of the key, and when it
// may skip a file for a range query (experimental.h:267-332).
module RangeFilters {
  import opened Bytes
  import opened KeySegments
  import opened SmallEnumSets
  import opened SegmentParsers
  import opened Wrappers

  datatype FilterInput =
    | SelectWholeKey
    | SelectKeySegment(index: nat)
    | SelectKeySegmentRange(from: nat, to: nat)   // inclusive

  // `categories` is the state word of a KeyCategorySet.
  datatype MinMaxConfig = MinMaxConfig(select: FilterInput, categories: nat)

  datatype Bounds = Bounds(min: Slice, max: Slice)

  // The empty input is kept out of the bounds and remembered separately.
  datatype Summary = Summary(bounds: Option<Bounds>, hasEmpty: bool)

  datatype Built = Filter(summary: Summary) | NoFilter | FileAborted

  // ----- what is selected from a key -----

  function FirstSelected(select: FilterInput): nat {
    match select
    case SelectWholeKey => 0
    case SelectKeySegment(i) => i
    case SelectKeySegmentRange(from, _) => from
  }

  // A range of segments is one substring of the key.
  function Selected(select: FilterInput, p: Split): Slice {
    match select
    case SelectWholeKey => p.key
    case SelectKeySegment(i) => Segment(p, i)
    case SelectKeySegmentRange(from, to) =>
      if to < from then [] else
        EndsMonotone(p, from, to);
        p.key[p.Start(from)..p.End(to)]
  }

  lemma EndsMonotone(p: Split, i: nat, j: nat)
    requires i <= j
    ensures p.Start(i) <= p.End(i) <= p.End(j) <= |p.key|
  {}

  // ----- building -----

  function NoInputs(): Summary {
    Summary(None, false)
  }

  function AddInput(f: Summary, v: Slice): Summary {
    if v == [] then f.(hasEmpty := true)
    else match f.bounds
      case None => f.(bounds := Some(Bounds(v, v)))
      case Some(b) =>
        f.(bounds := Some(Bounds(if Less(v, b.min) then v else b.min, if Less(b.max, v) then v else b.max)))
  }

  function KeyOf(e: Extractor, key: Slice): Split
    requires ValidExtractor(e)
  {
    var x := Input(key, FullUserKey);
    assert RawSplit.Split(x.key, e(x).segmentEnds).WellFormed();
    RawSplit.Split(key, e(x).segmentEnds)
  }

  function CategoryOf(e: Extractor, key: Slice): Category {
    e(Input(key, FullUserKey)).category
  }

  predicate Covered(categories: nat, c: Category) {
    c <= MAX_USABLE_CATEGORY && Contains(categories, c)
  }

  // Entries outside the configured categories are ignored.
  function Summarize(cfg: MinMaxConfig, e: Extractor, keys: seq<Slice>): Summary
    requires ValidExtractor(e)
  {
    if keys == [] then NoInputs()
    else
      var f := Summarize(cfg, e, keys[..|keys| - 1]);
      var key := keys[|keys| - 1];
      if Covered(cfg.categories, CategoryOf(e, key)) then AddInput(f, Selected(cfg.select, KeyOf(e, key))) else f
  }

  function Build(cfg: MinMaxConfig, e: Extractor, keys: seq<Slice>): Built
    requires ValidExtractor(e)
  {
    if exists i :: 0 <= i < |keys| && CategoryOf(e, keys[i]) >= ERROR_FILE_SCOPE then FileAborted
    else if exists i :: 0 <= i < |keys| && CategoryOf(e, keys[i]) == ERROR_FILTER_SCOPE then NoFilter
    else Filter(Summarize(cfg, e, keys))
  }

  // ----- querying [lower, upper) -----

  predicate OutOfRange(f: Summary, low: Slice, high: Slice) {
    && (f.bounds.None? || Less(f.bounds.value.max, low) || Less(high, f.bounds.value.min))
    && (!f.hasEmpty || low != [])
  }

  predicate SameLeadup(p: Split, q: Split, n: nat) {
    forall i | 0 <= i < n :: Segment(p, i) == Segment(q, i)
  }

  predicate CoversAll(categories: nat) {
    forall c | 0 <= c <= MAX_USABLE_CATEGORY :: Contains(categories, c)
  }

  // The test of the word against KeyCategorySet::All().
  lemma CoversAllIsAll(max: nat, categories: nat)
    requires max == MAX_USABLE_CATEGORY && InRange(max, categories)
    ensures CoversAll(categories) <==> categories == All(max)
  {
    forall c: nat | c <= max ensures Contains(categories, c) <==> c in Elements(categories) {
      ContainsIsMembership(categories, c);
    }
    EqualityIsSetEquality(max, categories, All(max));
    if CoversAll(categories) {
      forall c: nat ensures c in Elements(categories) <==> c in Elements(All(max)) {
        if c <= max { assert Contains(categories, c); }
      }
    }
  }

  // A word for the set of all categories puts no limit on the bounds'
  // categories; any other needs both bounds in one covered category.
  predicate BoundsUsable(categories: nat, low: Category, high: Category) {
    && low <= MAX_USABLE_CATEGORY && high <= MAX_USABLE_CATEGORY
    && (CoversAll(categories) || (low == high && Covered(categories, low)))
  }

  function BoundSplit(e: Extractor, x: Input): Split
    requires ValidExtractor(e)
  {
    assert RawSplit.Split(x.key, e(x).segmentEnds).WellFormed();
    RawSplit.Split(x.key, e(x).segmentEnds)
  }

  predicate CanSkip(cfg: MinMaxConfig, e: Extractor, built: Built, lower: Slice, upper: Slice)
    requires ValidExtractor(e)
  {
    var l, u := Input(lower, InclusiveLowerBound), Input(upper, ExclusiveUpperBound);
    var p, q := BoundSplit(e, l), BoundSplit(e, u);
    && built.Filter?
    && BoundsUsable(cfg.categories, e(l).category, e(u).category)
    && SameLeadup(p, q, FirstSelected(cfg.select))
    && OutOfRange(built.summary, Selected(cfg.select, p), Selected(cfg.select, q))
  }

  // ----- what a summary stands for -----

  ghost predicate Admits(f: Summary, v: Slice) {
    if v == [] then f.hasEmpty
    else f.bounds.Some? && LessEq(f.bounds.value.min, v) && LessEq(v, f.bounds.value.max)
  }

  ghost predicate Proper(f: Summary) {
    f.bounds.Some? ==>
      f.bounds.value.min != [] && LessEq(f.bounds.value.min, f.bounds.value.max)
  }

  lemma AddInputAdmits(f: Summary, v: Slice, w: Slice)
    requires Proper(f) && (w == v || Admits(f, w))
    ensures Proper(AddInput(f, v)) && Admits(AddInput(f, v), w)
  {
    if f.bounds.Some? {
      var b := f.bounds.value;
      LessTotal(v, b.min);
      LessTotal(v, b.max);
      if Less(v, b.min) {
        LessEqTransitive(v, b.min, b.max);
        if w != v && w != [] { LessEqTransitive(v, b.min, w); }
      } else if Less(b.max, v) {
        LessEqTransitive(b.min, b.max, v);
        if w != v && w != [] { LessEqTransitive(w, b.max, v); }
      }
    }
  }

  ghost predicate Recorded(cfg: MinMaxConfig, e: Extractor, keys: seq<Slice>, v: Slice)
    requires ValidExtractor(e)
  {
    exists i :: 0 <= i < |keys| && Covered(cfg.categories, CategoryOf(e, keys[i]))
                && Selected(cfg.select, KeyOf(e, keys[i])) == v
  }

  lemma RecordedStep(cfg: MinMaxConfig, e: Extractor, keys: seq<Slice>, v: Slice)
    requires ValidExtractor(e) && keys != []
    ensures var n := |keys| - 1;
            Recorded(cfg, e, keys, v) <==>
              || Recorded(cfg, e, keys[..n], v)
              || (Covered(cfg.categories, CategoryOf(e, keys[n])) && Selected(cfg.select, KeyOf(e, keys[n])) == v)
  {
    var n := |keys| - 1;
    assert forall i | 0 <= i < n :: keys[..n][i] == keys[i];
  }

  // The summary is exact: the minimum and maximum are inputs of covered
  // keys, every covered input lies between them, and the empty flag is set
  // exactly when some covered input is empty.
  lemma {:induction false} SummaryExact(cfg: MinMaxConfig, e: Extractor, keys: seq<Slice>)
    requires ValidExtractor(e)
    ensures var f := Summarize(cfg, e, keys);
            && Proper(f)
            && (forall v :: Recorded(cfg, e, keys, v) ==> Admits(f, v))
            && (f.hasEmpty ==> Recorded(cfg, e, keys, []))
            && (f.bounds.Some? ==>
                  Recorded(cfg, e, keys, f.bounds.value.min) && Recorded(cfg, e, keys, f.bounds.value.max))
  {
    if keys != [] {
      var n := |keys| - 1;
      SummaryExact(cfg, e, keys[..n]);
      var f, v := Summarize(cfg, e, keys[..n]), Selected(cfg.select, KeyOf(e, keys[n]));
      AddInputAdmits(f, v, v);
      forall w ensures Admits(f, w) ==> Admits(AddInput(f, v), w) {
        if Admits(f, w) { AddInputAdmits(f, v, w); }
      }
      forall w ensures Recorded(cfg, e, keys, w) <==>
          Recorded(cfg, e, keys[..n], w) || (Covered(cfg.categories, CategoryOf(e, keys[n])) && v == w) {
        RecordedStep(cfg, e, keys, w);
      }
    }
  }

  // The skip test is the best one can do with a summary: it fires exactly
  // when no input the summary admits lies between the bounds' inputs.
  lemma OutOfRangeExact(f: Summary, low: Slice, high: Slice)
    requires Proper(f) && LessEq(low, high)
    ensures OutOfRange(f, low, high) <==> forall v :: LessEq(low, v) && LessEq(v, high) ==> !Admits(f, v)
  {
    EmptyLeast(low);
    EmptyLeast(high);
    LessTotal(low, []);
    if OutOfRange(f, low, high) {
      forall v | LessEq(low, v) && LessEq(v, high) ensures !Admits(f, v) {
        NotAdmitted(f, low, high, v);
      }
    } else if f.hasEmpty && low == [] {
      assert Admits(f, []);
    } else {
      var b := f.bounds.value;
      LessTotal(b.max, low);
      LessTotal(high, b.min);
      LessTotal(b.min, low);
      var v := if Less(b.min, low) then low else b.min;
      assert LessEq(low, v) && LessEq(v, high);
      assert Admits(f, v) by { LessTotal(b.min, []); EmptyLeast(b.min); }
    }
  }

  lemma NotAdmitted(f: Summary, low: Slice, high: Slice, v: Slice)
    requires OutOfRange(f, low, high) && LessEq(low, v) && LessEq(v, high)
    ensures !Admits(f, v)
  {
    LessTotal(low, []);
    EmptyLeast(low);
    if v != [] && f.bounds.Some? {
      var b := f.bounds.value;
      LessTotal(b.max, low);
      LessTotal(high, b.min);
      if LessEq(v, b.max) { LessEqTransitive(low, v, b.max); }
      if LessEq(b.min, v) { LessEqTransitive(b.min, v, high); }
    }
  }

  // ----- soundness -----

  // A split between two splits agrees with them as far as they agree with
  // each other, and its next segment lies between theirs.
  lemma SandwichedSegments(p: Split, r: Split, q: Split, n: nat)
    requires SegmentsLessEq(p, r) && SegmentsLessEq(r, q) && SameBefore(p, q, n)
    ensures SameBefore(p, r, n)
    ensures LessEq(Segment(p, n), Segment(r, n)) && LessEq(Segment(r, n), Segment(q, n))
  {
    forall m: nat | LessFrom(p, r, m) ensures m >= n {
      LessTotal(Segment(p, m), Segment(r, m));
      if j: nat :| LessFrom(r, q, j) {
        LessTotal(Segment(r, j), Segment(q, j));
        if j == m && m < n { LessTotal(Segment(p, m), Segment(q, m)); }
      }
    }
    assert SameBefore(p, r, n);
    forall j: nat | LessFrom(r, q, j) ensures j >= n {
      LessTotal(Segment(r, j), Segment(q, j));
    }
  }

  lemma RangeSelectedOrdered(p: Split, q: Split, from: nat, to: nat)
    requires PrefixPair(p, q) && PrefixPair(q, p) && LessEq(p.key, q.key)
    requires from <= to && SameBefore(p, q, from)
    ensures LessEq(Selected(SelectKeySegmentRange(from, to), p), Selected(SelectKeySegmentRange(from, to), q))
  {
    EndsMonotone(p, from, to);
    EndsMonotone(q, from, to);
    SameBeforeSameEnds(p, q, from);
    var s, d, pe, qe := p.Start(from), Common(p.key, q.key), p.End(to), q.End(to);
    if p.key == q.key {
      PrefixPairSameKey(p, q);
      assert SameBefore(p, q, to + 1);
      SameBeforeSameEnds(p, q, to + 1);
    } else if (pe < |p.key| && pe <= d) || (qe < |q.key| && qe <= d) {
      var m := if pe < |p.key| && pe <= d then pe else qe;
      SameSlice(p.key, q.key, d, 0, m);
      assert SameBefore(p, q, to + 1);
      SameBeforeSameEnds(p, q, to + 1);
      SameSlice(p.key, q.key, d, s, pe);
    } else {
      CommonIsLongest(p.key, q.key, s);
      PrefixesAgree(p.key, q.key, d);
      CutAfterDifference(p.key, q.key, s, d, pe, qe);
    }
  }

  // "Should generally be handled the same as a full user key."
  ghost predicate LowerBoundsAsKeys(e: Extractor) {
    forall k: Slice :: e(Input(k, InclusiveLowerBound)) == e(Input(k, FullUserKey))
  }

  // What each kind of input needs from the extractor: a range of several
  // segments needs the prefix property, one segment only the weak order.
  ghost predicate OrderedFor(select: FilterInput, e: Extractor, scope: set<Category>)
    requires ValidExtractor(e)
  {
    match select
    case SelectWholeKey => true
    case SelectKeySegment(_) => WeakSegmentOrdering(e, scope)
    case SelectKeySegmentRange(from, to) =>
      if from < to then SegmentPrefixProperty(e, scope) else WeakSegmentOrdering(e, scope)
  }

  ghost function CategoriesUpTo(n: nat): (s: set<Category>)
    requires n <= MAX_USABLE_CATEGORY
    ensures forall c: Category :: c in s <==> c <= n
  {
    if n == 0 then {0} else CategoriesUpTo(n - 1) + {n}
  }

  // The categories a query can touch: a single one, or all usable ones for
  // an unrestricted filter.
  ghost function QueryScope(cfg: MinMaxConfig, c: Category): set<Category> {
    if CoversAll(cfg.categories) then CategoriesUpTo(MAX_USABLE_CATEGORY) else {c}
  }

  ghost predicate FilterAssumptions(cfg: MinMaxConfig, e: Extractor)
    requires ValidExtractor(e)
  {
    && LowerBoundsAsKeys(e)
    && forall c: Category | Covered(cfg.categories, c) ::
         && OrderedFor(cfg.select, e, QueryScope(cfg, c))
         && (!CoversAll(cfg.categories) ==> CategoryContiguous(e, c))
  }

  // Every key inside usable bounds is in the query's scope and covered.
  lemma KeyInScope(cfg: MinMaxConfig, e: Extractor, lower: Slice, key: Slice, upper: Slice)
    requires ValidExtractor(e) && FilterAssumptions(cfg, e)
    requires LessEq(lower, key) && Less(key, upper)
    requires CategoryOf(e, key) <= MAX_USABLE_CATEGORY
    requires BoundsUsable(cfg.categories, e(Input(lower, InclusiveLowerBound)).category,
        e(Input(upper, ExclusiveUpperBound)).category)
    ensures var c := e(Input(lower, InclusiveLowerBound)).category;
            var scope := QueryScope(cfg, c);
            && Covered(cfg.categories, c) && OrderedFor(cfg.select, e, scope)
            && Covered(cfg.categories, CategoryOf(e, key))
            && InScope(e, scope, Input(lower, InclusiveLowerBound))
            && InScope(e, scope, Input(key, FullUserKey))
            && InScope(e, scope, Input(upper, ExclusiveUpperBound))
  {
    var l, x, u := Input(lower, InclusiveLowerBound), Input(key, FullUserKey), Input(upper, ExclusiveUpperBound);
    var c := e(l).category;
    if CoversAll(cfg.categories) {
      assert Contains(cfg.categories, c) && Contains(cfg.categories, CategoryOf(e, key));
    } else if lower == key {
      assert e(l) == e(x);
    } else {
      assert CategoryContiguous(e, c);
      assert InScope(e, {c}, l) && InScope(e, {c}, u) && Less(l.key, x.key) && Less(x.key, u.key);
    }
  }

  lemma SelectedBetween(select: FilterInput, e: Extractor, scope: set<Category>, l: Input, x: Input, u: Input)
    requires ValidExtractor(e) && OrderedFor(select, e, scope)
    requires InScope(e, scope, l) && InScope(e, scope, x) && InScope(e, scope, u)
    requires Less(x.key, u.key)
    requires Less(l.key, x.key) || (l.key == x.key && e(l) == e(x))
    requires SameBefore(SplitOf(e, l), SplitOf(e, u), FirstSelected(select))
    ensures LessEq(Selected(select, SplitOf(e, l)), Selected(select, SplitOf(e, x)))
    ensures LessEq(Selected(select, SplitOf(e, x)), Selected(select, SplitOf(e, u)))
  {
    if !select.SelectWholeKey? {
      var p, r, q, n := SplitOf(e, l), SplitOf(e, x), SplitOf(e, u), FirstSelected(select);
      if select.SelectKeySegmentRange? && select.from < select.to {
        PrefixImpliesOrdering(e, scope);
      }
      assert SegmentsLessEq(r, q);
      assert SegmentsLessEq(p, r);
      SandwichedSegments(p, r, q, n);
      if select.SelectKeySegmentRange? {
        if select.from < select.to {
          RangeSelectedOrdered(p, r, n, select.to);
          RangeSelectedOrdered(r, q, n, select.to);
        } else if select.from == select.to {
          assert Selected(select, p) == Segment(p, n) && Selected(select, r) == Segment(r, n)
              && Selected(select, q) == Segment(q, n);
        }
      }
    }
  }

  // A skipped file holds no key of the range.
  lemma FilterNeverSkipsMatchingFile(
      cfg: MinMaxConfig, e: Extractor, keys: seq<Slice>, lower: Slice, upper: Slice, i: nat)
    requires ValidExtractor(e) && FilterAssumptions(cfg, e)
    requires i < |keys| && LessEq(lower, keys[i]) && Less(keys[i], upper)
    ensures !CanSkip(cfg, e, Build(cfg, e, keys), lower, upper)
  {
    if CanSkip(cfg, e, Build(cfg, e, keys), lower, upper) {
      var p, q := SplitOf(e, Input(lower, InclusiveLowerBound)), SplitOf(e, Input(upper, ExclusiveUpperBound));
      SummaryExact(cfg, e, keys);
      InputBetweenBounds(cfg, e, keys, lower, upper, i);
      NotAdmitted(Summarize(cfg, e, keys), Selected(cfg.select, p), Selected(cfg.select, q),
          Selected(cfg.select, KeyOf(e, keys[i])));
      assert false;
    }
  }

  lemma InputBetweenBounds(cfg: MinMaxConfig, e: Extractor, keys: seq<Slice>, lower: Slice, upper: Slice, i: nat)
    requires ValidExtractor(e) && FilterAssumptions(cfg, e)
    requires i < |keys| && LessEq(lower, keys[i]) && Less(keys[i], upper)
    requires CanSkip(cfg, e, Build(cfg, e, keys), lower, upper)
    ensures var v := Selected(cfg.select, KeyOf(e, keys[i]));
            && Recorded(cfg, e, keys, v)
            && LessEq(Selected(cfg.select, SplitOf(e, Input(lower, InclusiveLowerBound))), v)
            && LessEq(v, Selected(cfg.select, SplitOf(e, Input(upper, ExclusiveUpperBound))))
  {
    var l, x, u := Input(lower, InclusiveLowerBound), Input(keys[i], FullUserKey), Input(upper, ExclusiveUpperBound);
    assert CategoryOf(e, keys[i]) < ERROR_FILE_SCOPE && CategoryOf(e, keys[i]) != ERROR_FILTER_SCOPE;
    KeyInScope(cfg, e, lower, keys[i], upper);
    assert e(Input(lower, InclusiveLowerBound)) == e(Input(lower, FullUserKey));
    SelectedBetween(cfg.select, e, QueryScope(cfg, e(l).category), l, x, u);
  }

  // ----- the weak order is not enough for a range of several segments -----

  const PIVOT: Slice := [1, 1, 1]

  function AtMost(k: Slice, n: nat): Slice {
    if |k| <= n then k else k[..n]
  }

  function Repeat(x: nat, n: nat): (s: seq<nat>)
    ensures |s| == n && forall i | 0 <= i < n :: s[i] == x
  {
    if n == 0 then [] else [x] + Repeat(x, n - 1)
  }

  // Below the pivot: segment `from` is the first byte, segment `to` the
  // rest of the key. From the pivot on: segment `from` is the first two
  // bytes, and nothing follows.
  function PivotEnds(from: nat, to: nat, k: Slice): (ends: seq<nat>)
    requires from < to
    ensures RawSplit.Split(k, ends).WellFormed()
  {
    if Less(k, PIVOT) then Repeat(0, from) + Repeat(|AtMost(k, 1)|, to - from) + [|k|]
    else Repeat(0, from) + [|AtMost(k, 2)|]
  }

  function PivotExtractor(from: nat, to: nat, c: Category): Extractor
    requires from < to
  {
    (x: Input) => Result(PivotEnds(from, to, x.key), c)
  }

  lemma AtMostOrdered(k: Slice, l: Slice, n: nat)
    requires Less(k, l)
    ensures LessEq(AtMost(k, n), AtMost(l, n))
  {
    var d := Common(k, l);
    PrefixesAgree(k, l, d);
    if d < n {
      LessByIndices(AtMost(k, n), AtMost(l, n), d);
    } else {
      assert AtMost(k, n) == AtMost(l, n);
    }
  }

  lemma PivotExtractorValid(from: nat, to: nat, c: Category)
    requires from < to
    ensures ValidExtractor(PivotExtractor(from, to, c))
  {
    forall x: Input ensures RawSplit.Split(x.key, PivotExtractor(from, to, c)(x).segmentEnds).WellFormed() {
      var ends := PivotEnds(from, to, x.key);
    }
  }

  function PivotSplit(from: nat, to: nat, k: Slice): Split
    requires from < to
  {
    RawSplit.Split(k, PivotEnds(from, to, k))
  }

  // Only two segments are not empty: `from` is a and `to` is b.
  ghost predicate TwoSegments(p: Split, from: nat, to: nat, a: Slice, b: Slice) {
    forall i: nat :: Segment(p, i) == if i == from then a else if i == to then b else []
  }

  function PivotHead(k: Slice): Slice {
    AtMost(k, if Less(k, PIVOT) then 1 else 2)
  }

  function PivotTail(k: Slice): Slice {
    if Less(k, PIVOT) then k[|AtMost(k, 1)|..] else []
  }

  lemma PivotEnd(from: nat, to: nat, k: Slice, i: nat)
    requires from < to
    ensures PivotSplit(from, to, k).End(i) ==
              if i < from then 0 else if i < to then |PivotHead(k)| else |PivotHead(k)| + |PivotTail(k)|
  {}

  lemma PivotSegment(from: nat, to: nat, k: Slice, i: nat)
    requires from < to
    ensures Segment(PivotSplit(from, to, k), i) ==
              if i == from then PivotHead(k) else if i == to then PivotTail(k) else []
  {
    PivotEnd(from, to, k, i);
    if i > 0 { PivotEnd(from, to, k, i - 1); }
    PivotParts(k);
  }

  lemma PivotParts(k: Slice)
    ensures |PivotHead(k)| + |PivotTail(k)| <= |k| && k[0..|PivotHead(k)|] == PivotHead(k)
    ensures k[|PivotHead(k)|..|PivotHead(k)| + |PivotTail(k)|] == PivotTail(k)
  {}

  lemma PivotSegments(from: nat, to: nat, k: Slice)
    requires from < to
    ensures TwoSegments(PivotSplit(from, to, k), from, to, PivotHead(k), PivotTail(k))
  {
    forall i: nat
      ensures Segment(PivotSplit(from, to, k), i) ==
                if i == from then PivotHead(k) else if i == to then PivotTail(k) else []
    {
      PivotSegment(from, to, k, i);
    }
  }

  lemma TwoSegmentsOrdered(p: Split, q: Split, from: nat, to: nat, a: Slice, b: Slice, c: Slice, d: Slice)
    requires from < to && TwoSegments(p, from, to, a, b) && TwoSegments(q, from, to, c, d)
    requires Less(a, c) || (a == c && LessEq(b, d))
    ensures SegmentsLessEq(p, q)
  {
    if Less(a, c) {
      assert LessFrom(p, q, from);
    } else if Less(b, d) {
      assert LessFrom(p, q, to);
    } else {
      assert SameSegments(p, q);
    }
  }

  lemma PivotOrdered(from: nat, to: nat, k: Slice, l: Slice)
    requires from < to && Less(k, l)
    ensures SegmentsLessEq(PivotSplit(from, to, k), PivotSplit(from, to, l))
  {
    PivotPartsOrdered(k, l);
    PivotSegments(from, to, k);
    PivotSegments(from, to, l);
    TwoSegmentsOrdered(PivotSplit(from, to, k), PivotSplit(from, to, l), from, to,
      PivotHead(k), PivotTail(k), PivotHead(l), PivotTail(l));
  }

  lemma PivotPartsOrdered(k: Slice, l: Slice)
    requires Less(k, l)
    ensures Less(PivotHead(k), PivotHead(l)) || (PivotHead(k) == PivotHead(l) && LessEq(PivotTail(k), PivotTail(l)))
  {
    if Less(l, PIVOT) {
      LessTransitive(k, l, PIVOT);
      AtMostOrdered(k, l, 1);
      if AtMost(k, 1) == AtMost(l, 1) {
        var n := |AtMost(k, 1)|;
        assert k == AtMost(k, 1) + k[n..] && l == AtMost(l, 1) + l[n..];
        LessAfterPrefix(AtMost(k, 1), k[n..], l[n..]);
      }
    } else if Less(k, PIVOT) {
      AcrossPivot(k, l);
    } else {
      AtMostOrdered(k, l, 2);
    }
  }

  lemma AcrossPivot(k: Slice, l: Slice)
    requires Less(k, PIVOT) && !Less(l, PIVOT)
    ensures Less(AtMost(k, 1), AtMost(l, 2))
  {
    var d := Common(k, PIVOT);
    PrefixesAgree(k, PIVOT, d);
    LessTotal(l, PIVOT);
    assert l != [] && l[0] >= 1 && (l[0] == 1 ==> |l| >= 2) by {
      var c := Common(PIVOT, l);
      PrefixesAgree(PIVOT, l, c);
    }
    assert k != [] ==> k[0] <= 1;
    if k == [] || k[0] < l[0] {
      LessByIndices(AtMost(k, 1), AtMost(l, 2), 0);
    } else {
      LessByIndices(AtMost(k, 1), AtMost(l, 2), 1);
    }
  }

  // For every range of two or more segments there is an extractor with the
  // weak segment ordering, and a file, for which the filter would skip a
  // file that holds a key of the queried range.
  lemma WeakOrderMissesRange(from: nat, to: nat, c: Category, cfg: MinMaxConfig)
    returns (e: Extractor, keys: seq<Slice>, lower: Slice, upper: Slice)
    requires from < to && cfg.select == SelectKeySegmentRange(from, to) && Covered(cfg.categories, c)
    ensures ValidExtractor(e) && LowerBoundsAsKeys(e)
    ensures forall scope: set<Category> :: WeakSegmentOrdering(e, scope)
    ensures forall x: Input :: e(x).category == c
    ensures lower in keys && Less(lower, upper)
    ensures CanSkip(cfg, e, Build(cfg, e, keys), lower, upper)
  {
    e := PivotExtractor(from, to, c);
    PivotWeaklyOrdered(from, to, c);
    lower, upper := PivotSelected(from, to);
    keys := [lower];
    SingleKeySkipped(cfg, e, c, lower, upper, PivotSplit(from, to, lower), PivotSplit(from, to, upper));
  }

  lemma PivotWeaklyOrdered(from: nat, to: nat, c: Category)
    requires from < to
    ensures ValidExtractor(PivotExtractor(from, to, c))
    ensures forall scope: set<Category> :: WeakSegmentOrdering(PivotExtractor(from, to, c), scope)
  {
    var e := PivotExtractor(from, to, c);
    PivotExtractorValid(from, to, c);
    forall scope: set<Category>, x: Input, y: Input | InScope(e, scope, x) && InScope(e, scope, y) && Less(x.key, y.key)
      ensures SegmentsLessEq(SplitOf(e, x), SplitOf(e, y)) {
      PivotOrdered(from, to, x.key, y.key);
    }
  }

  // A file whose one key selects something above what the upper bound does.
  lemma SingleKeySkipped(
      cfg: MinMaxConfig, e: Extractor, c: Category, lower: Slice, upper: Slice, p: Split, q: Split)
    requires ValidExtractor(e) && Covered(cfg.categories, c)
    requires forall x: Input :: e(x).category == c
    requires p == KeyOf(e, lower) == SplitOf(e, Input(lower, InclusiveLowerBound))
    requires q == SplitOf(e, Input(upper, ExclusiveUpperBound))
    requires SameLeadup(p, q, FirstSelected(cfg.select))
    requires Selected(cfg.select, p) != [] && Less(Selected(cfg.select, q), Selected(cfg.select, p))
    ensures CanSkip(cfg, e, Build(cfg, e, [lower]), lower, upper)
  {
    var keys := [lower];
    assert keys[..0] == [] && Summarize(cfg, e, keys[..0]) == NoInputs();
    assert Summarize(cfg, e, keys) == AddInput(NoInputs(), Selected(cfg.select, p));
  }

  lemma PivotSelected(from: nat, to: nat) returns (lower: Slice, upper: Slice)
    requires from < to
    ensures Less(lower, upper) && lower != []
    ensures var p, q, select := PivotSplit(from, to, lower), PivotSplit(from, to, upper),
        SelectKeySegmentRange(from, to);
            && SameLeadup(p, q, from)
            && Selected(select, p) == lower
            && Less(Selected(select, q), lower)
  {
    lower, upper := [1, 1, 0], PIVOT;
    LessByIndices(lower, upper, 2);
    LessTotal(PIVOT, PIVOT);
    PivotSegments(from, to, lower);
    PivotSegments(from, to, upper);
    var q := PivotSplit(from, to, upper);
    EndsMonotone(q, from, to);
    assert q.Start(from) == 0 && q.End(to) == 2;
    LessByIndices([1, 1], lower, 2);
  }

  // The documented assumptions on an extractor, with the weak order only.
  ghost predicate WeaklyOrderedExtractor(e: Extractor) {
    && ValidExtractor(e) && LowerBoundsAsKeys(e)
    && (forall scope: set<Category> :: WeakSegmentOrdering(e, scope))
    && forall c: Category :: CategoryContiguous(e, c)
  }

  ghost predicate NeverSkipsMatch(cfg: MinMaxConfig, e: Extractor)
    requires ValidExtractor(e)
  {
    forall keys: seq<Slice>, lower: Slice, upper: Slice, i: nat |
      i < |keys| && LessEq(lower, keys[i]) && Less(keys[i], upper) ::
      !CanSkip(cfg, e, Build(cfg, e, keys), lower, upper)
  }

  lemma ShortRangeSound(cfg: MinMaxConfig, from: nat, to: nat, e: Extractor)
    requires cfg.select == SelectKeySegmentRange(from, to) && to <= from && WeaklyOrderedExtractor(e)
    ensures NeverSkipsMatch(cfg, e)
  {
    forall keys: seq<Slice>, lower: Slice, upper: Slice, i: nat |
      i < |keys| && LessEq(lower, keys[i]) && Less(keys[i], upper)
      ensures !CanSkip(cfg, e, Build(cfg, e, keys), lower, upper)
    {
      FilterNeverSkipsMatchingFile(cfg, e, keys, lower, upper, i);
    }
  }

  lemma OneCategoryContiguous(e: Extractor, c: Category)
    requires forall x: Input :: e(x).category == c
    ensures forall d: Category :: CategoryContiguous(e, d)
  {
    forall d: Category ensures CategoryContiguous(e, d) {
      forall x: Input, y: Input, z: Input | InScope(e, {d}, x) && InScope(e, {d}, z) ensures e(y).category == d {}
    }
  }

  lemma LongRangeUnsound(cfg: MinMaxConfig, from: nat, to: nat, c: Category) returns (e: Extractor)
    requires from < to && cfg.select == SelectKeySegmentRange(from, to) && Covered(cfg.categories, c)
    ensures WeaklyOrderedExtractor(e) && !NeverSkipsMatch(cfg, e)
  {
    var keys, lower, upper;
    e, keys, lower, upper := WeakOrderMissesRange(from, to, c, cfg);
    OneCategoryContiguous(e, c);
    var i: nat :| i < |keys| && keys[i] == lower;
    assert LessEq(lower, keys[i]) && Less(keys[i], upper);
  }

  ghost predicate NothingCovered(categories: nat) {
    forall c: Category :: !Covered(categories, c)
  }

  lemma NothingCoveredNeverSkips(cfg: MinMaxConfig, e: Extractor)
    requires ValidExtractor(e) && NothingCovered(cfg.categories)
    ensures NeverSkipsMatch(cfg, e)
  {
    assert !Covered(cfg.categories, DEFAULT_CATEGORY);
  }

  // Skipping on a range of segments is safe for every weakly ordered
  // extractor exactly when the range is at most one segment, or the filter
  // covers nothing and so never skips.
  lemma RangeSoundUnderWeakOrderExactly(cfg: MinMaxConfig, from: nat, to: nat)
    requires cfg.select == SelectKeySegmentRange(from, to)
    ensures (forall e: Extractor | WeaklyOrderedExtractor(e) :: NeverSkipsMatch(cfg, e))
            <==> to <= from || NothingCovered(cfg.categories)
  {
    if to <= from {
      forall e: Extractor | WeaklyOrderedExtractor(e) ensures NeverSkipsMatch(cfg, e) {
        ShortRangeSound(cfg, from, to, e);
      }
    } else if NothingCovered(cfg.categories) {
      forall e: Extractor | WeaklyOrderedExtractor(e) ensures NeverSkipsMatch(cfg, e) {
        NothingCoveredNeverSkips(cfg, e);
      }
    } else {
      var c: Category :| Covered(cfg.categories, c);
      var e := LongRangeUnsound(cfg, from, to, c);
    }
  }
}
