// The min/max filter in terms of the segments of keys and bounds: what is
// selected, when a filter is built, and exactly which files are skipped
// (experimental.h:185-332).
module FilterParts {
  import opened Bytes
  import opened KeySegments
  import opened RangeFilters
  import opened SegmentParsers
  import opened SmallEnumSets

  // ----- what is selected -----

  lemma {:induction false} FlattenTwo(a: seq<Slice>, b: seq<Slice>)
    ensures Flatten(a + b) == Flatten(a) + Flatten(b)
    decreases |b|
  {
    if b == [] {
      assert a + b == a;
    } else {
      var n := |b| - 1;
      assert (a + b)[..|a + b| - 1] == a + b[..n];
      FlattenTwo(a, b[..n]);
    }
  }

  // The substring from one end to another is the segments in between.
  lemma {:induction false} SliceOfSegments(key: Slice, ss: seq<Slice>, i: nat, j: nat)
    requires Flatten(ss) <= key && i <= j <= |ss|
    ensures |Flatten(ss[..i])| <= |Flatten(ss[..j])| <= |key|
    ensures key[|Flatten(ss[..i])|..|Flatten(ss[..j])|] == Flatten(ss[i..j])
  {
    assert ss[..i] + ss[i..j] == ss[..j];
    FlattenTwo(ss[..i], ss[i..j]);
    FlattenPrefix(ss, j);
    SliceBehind(key, Flatten(ss[..i]), Flatten(ss[i..j]));
  }

  // One past the last segment of a range up to and including `to`, of n
  // segments in all.
  function RangeEnd(to: nat, n: nat): (end: nat)
    ensures end <= n && end <= to + 1 && (end == n || end == to + 1)
  {
    if to < n then to + 1 else n
  }

  // The whole key, one segment, or the bytes of a range of segments; segments
  // past the end are empty.
  function PartOf(select: FilterInput, key: Slice, ss: seq<Slice>): Slice {
    match select
    case SelectWholeKey => key
    case SelectKeySegment(i) => if i < |ss| then ss[i] else []
    case SelectKeySegmentRange(from, to) =>
      if to < from || |ss| <= from then [] else Flatten(ss[from..RangeEnd(to, |ss|)])
  }

  lemma {:induction false} RangeSelected(from: nat, to: nat, p: Split, ss: seq<Slice>)
    requires SplitsInto(p, ss) && from <= to
    ensures Selected(SelectKeySegmentRange(from, to), p) ==
              if |ss| <= from then [] else Flatten(ss[from..RangeEnd(to, |ss|)])
  {
    StartOf(p, ss, from);
    EndOf(p, ss, to);
    EndsMonotone(p, from, to);
    assert ss[..|ss|] == ss;
    if from < |ss| { SliceOfSegments(p.key, ss, from, RangeEnd(to, |ss|)); }
  }

  // What a filter selects from a key is that part of the key's segments.
  lemma {:induction false} SelectsSegments(select: FilterInput, p: Split, ss: seq<Slice>)
    requires SplitsInto(p, ss)
    ensures Selected(select, p) ==
              match select
              case SelectWholeKey => p.key
              case SelectKeySegment(i) => if i < |ss| then ss[i] else []
              case SelectKeySegmentRange(from, to) =>
                if to < from || |ss| <= from then [] else Flatten(ss[from..RangeEnd(to, |ss|)])
  {
    match select {
      case SelectWholeKey =>
      case SelectKeySegment(i) => SegmentOf(p, ss, i);
      case SelectKeySegmentRange(from, to) => if from <= to { RangeSelected(from, to, p, ss); }
    }
  }

  // The represented segments of a split.
  function SegmentList(p: Split): seq<Slice> {
    seq(|p.ends|, i requires 0 <= i < |p.ends| => Segment(p, i))
  }

  lemma UpToEnd(p: Split, i: nat)
    ensures p.Start(i) <= p.Start(i + 1) <= |p.key|
    ensures p.key[..p.Start(i + 1)] == p.key[..p.Start(i)] + Segment(p, i)
  {
    EndsMonotone(p, i, i);
  }

  lemma {:induction false} FirstSegments(p: Split, i: nat)
    requires i <= |p.ends|
    ensures p.Start(i) <= |p.key| && Flatten(SegmentList(p)[..i]) == p.key[..p.Start(i)]
    decreases i
  {
    if i > 0 {
      FirstSegments(p, i - 1);
      var ss := SegmentList(p);
      assert ss[..i] == ss[..i - 1] + [ss[i - 1]];
      OneMore(ss[..i - 1], ss[i - 1]);
      UpToEnd(p, i - 1);
    }
  }

  lemma {:induction false} BoundIsEnd(p: Split, i: nat)
    requires i < |p.ends|
    ensures SegmentParsers.Bounds(SegmentList(p))[i] == p.ends[i]
  {
    BoundAt(SegmentList(p), i);
    FirstSegments(p, i + 1);
  }

  // Every split is made of its segments.
  lemma {:induction false} ListSplits(p: Split)
    ensures SplitsInto(p, SegmentList(p))
  {
    var n := |p.ends|;
    FirstSegments(p, n);
    assert SegmentList(p)[..n] == SegmentList(p);
    forall i: nat | i < n ensures SegmentParsers.Bounds(SegmentList(p))[i] == p.ends[i] {
      BoundIsEnd(p, i);
    }
  }

  lemma {:induction false} SelectedIsPart(select: FilterInput, p: Split)
    ensures Selected(select, p) == PartOf(select, p.key, SegmentList(p))
  {
    ListSplits(p);
    SelectsSegments(select, p, SegmentList(p));
  }

  // ----- which filter is built -----

  // A key of file or database scope aborts the file; otherwise one of filter
  // scope drops the filter.
  lemma BuiltExactly(cfg: MinMaxConfig, e: Extractor, keys: seq<Slice>)
    requires ValidExtractor(e)
    ensures var built := Build(cfg, e, keys);
            var aborts := exists k :: k in keys && CategoryOf(e, k) in {ERROR_FILE_SCOPE, ERROR_DB_SCOPE};
            && (built.FileAborted? <==> aborts)
            && (built.NoFilter? <==> !aborts && exists k :: k in keys && CategoryOf(e, k) == ERROR_FILTER_SCOPE)
            && (built.Filter? <==> forall k | k in keys :: CategoryOf(e, k) <= MAX_USABLE_CATEGORY)
            && (built.Filter? ==> built.summary == Summarize(cfg, e, keys))
  {
    forall k | k in keys ensures exists i :: 0 <= i < |keys| && keys[i] == k {}
  }

  lemma {:induction false} SummarizeNext(cfg: MinMaxConfig, e: Extractor, keys: seq<Slice>, key: Slice)
    requires ValidExtractor(e)
    ensures var f := Summarize(cfg, e, keys);
            Summarize(cfg, e, keys + [key]) ==
              if Covered(cfg.categories, CategoryOf(e, key)) then AddInput(f, Selected(cfg.select, KeyOf(e, key)))
              else f
  {
    assert (keys + [key])[..|keys|] == keys;
  }

  // A key outside the configured categories, wherever it is in the file,
  // leaves the summary as it was.
  lemma {:induction false} OutsideIgnored(
      cfg: MinMaxConfig, e: Extractor, before: seq<Slice>, key: Slice, after: seq<Slice>)
    requires ValidExtractor(e) && CategoryOf(e, key) !in Elements(cfg.categories)
    ensures Summarize(cfg, e, before + [key] + after) == Summarize(cfg, e, before + after)
    decreases |after|
  {
    if after == [] {
      assert before + [key] + after == before + [key] && before + after == before;
      SummarizeNext(cfg, e, before, key);
      if CategoryOf(e, key) <= MAX_USABLE_CATEGORY { ContainsIsMembership(cfg.categories, CategoryOf(e, key)); }
    } else {
      var init, last := after[..|after| - 1], after[|after| - 1];
      assert before + [key] + after == (before + [key] + init) + [last] && before + after == (before + init) + [last];
      OutsideIgnored(cfg, e, before, key, init);
      SummarizeNext(cfg, e, before + [key] + init, last);
      SummarizeNext(cfg, e, before + init, last);
    }
  }

  // ----- which files are skipped -----

  // What the filter takes from a key or bound.
  ghost function InputOf(cfg: MinMaxConfig, e: Extractor, x: Input): Slice
    requires ValidExtractor(e)
  {
    PartOf(cfg.select, x.key, SegmentList(SplitOf(e, x)))
  }

  ghost predicate InSet(categories: nat, c: Category) {
    c <= MAX_USABLE_CATEGORY && c in Elements(categories)
  }

  // Some key of the file, of a configured category, has this input.
  ghost predicate Holds(cfg: MinMaxConfig, e: Extractor, keys: seq<Slice>, v: Slice)
    requires ValidExtractor(e)
  {
    exists k :: k in keys && InSet(cfg.categories, CategoryOf(e, k)) && InputOf(cfg, e, Input(k, FullUserKey)) == v
  }

  // A filter on all categories takes any usable bounds, even of different
  // categories; any other only bounds of one category in its set.
  ghost predicate BoundsTaken(categories: nat, low: Category, high: Category) {
    && low <= MAX_USABLE_CATEGORY && high <= MAX_USABLE_CATEGORY
    && ((forall c: Category | c <= MAX_USABLE_CATEGORY :: c in Elements(categories))
        || (low == high && low in Elements(categories)))
  }

  // The bounds have the same segments before the first one selected, and only
  // those need agree.
  ghost predicate LeadingAgree(select: FilterInput, p: Split, q: Split) {
    match select
    case SelectWholeKey => true
    case SelectKeySegment(i) => forall j: nat | j < i :: Segment(p, j) == Segment(q, j)
    case SelectKeySegmentRange(from, _) => forall j: nat | j < from :: Segment(p, j) == Segment(q, j)
  }

  // All nonempty inputs of the file are below the lower bound's, or all are
  // above the upper bound's; and an empty one is not what the lower bound has.
  ghost predicate Apart(cfg: MinMaxConfig, e: Extractor, keys: seq<Slice>, low: Slice, high: Slice)
    requires ValidExtractor(e)
  {
    && ((forall v | v != [] && Holds(cfg, e, keys, v) :: Less(v, low))
        || (forall v | v != [] && Holds(cfg, e, keys, v) :: Less(high, v)))
    && (Holds(cfg, e, keys, []) ==> low != [])
  }

  lemma {:induction false} HoldsIsRecorded(cfg: MinMaxConfig, e: Extractor, keys: seq<Slice>, v: Slice)
    requires ValidExtractor(e)
    ensures Holds(cfg, e, keys, v) <==> Recorded(cfg, e, keys, v)
  {
    forall k: Slice
      ensures InSet(cfg.categories, CategoryOf(e, k)) <==> Covered(cfg.categories, CategoryOf(e, k))
      ensures InputOf(cfg, e, Input(k, FullUserKey)) == Selected(cfg.select, KeyOf(e, k))
    {
      if CategoryOf(e, k) <= MAX_USABLE_CATEGORY { ContainsIsMembership(cfg.categories, CategoryOf(e, k)); }
      SelectedIsPart(cfg.select, KeyOf(e, k));
    }
    if Holds(cfg, e, keys, v) {
      var k :| k in keys && InSet(cfg.categories, CategoryOf(e, k)) && InputOf(cfg, e, Input(k, FullUserKey)) == v;
      var i :| 0 <= i < |keys| && keys[i] == k;
      assert Covered(cfg.categories, CategoryOf(e, keys[i])) && Selected(cfg.select, KeyOf(e, keys[i])) == v;
    }
    if Recorded(cfg, e, keys, v) {
      var i :| 0 <= i < |keys| && Covered(cfg.categories, CategoryOf(e, keys[i]))
               && Selected(cfg.select, KeyOf(e, keys[i])) == v;
      assert InSet(cfg.categories, CategoryOf(e, keys[i]));
      assert InputOf(cfg, e, Input(keys[i], FullUserKey)) == v && keys[i] in keys;
    }
  }

  lemma {:induction false} SummaryHolds(cfg: MinMaxConfig, e: Extractor, keys: seq<Slice>)
    requires ValidExtractor(e)
    ensures var f := Summarize(cfg, e, keys);
            && Proper(f) && (f.hasEmpty <==> Holds(cfg, e, keys, []))
            && (forall v | Holds(cfg, e, keys, v) :: Admits(f, v))
            && (f.bounds.Some? ==> Holds(cfg, e, keys, f.bounds.value.min) && Holds(cfg, e, keys, f.bounds.value.max))
  {
    SummaryExact(cfg, e, keys);
    forall v ensures Holds(cfg, e, keys, v) <==> Recorded(cfg, e, keys, v) { HoldsIsRecorded(cfg, e, keys, v); }
  }

  lemma {:induction false} ApartExactly(cfg: MinMaxConfig, e: Extractor, keys: seq<Slice>, low: Slice, high: Slice)
    requires ValidExtractor(e)
    ensures OutOfRange(Summarize(cfg, e, keys), low, high) <==> Apart(cfg, e, keys, low, high)
  {
    SummaryHolds(cfg, e, keys);
    NonemptyApart(Summarize(cfg, e, keys), low, high, v => Holds(cfg, e, keys, v));
  }

  // Where the bounds are two of the inputs and all others lie between them,
  // comparing the bounds compares all.
  lemma NonemptyApart(f: Summary, low: Slice, high: Slice, recorded: Slice -> bool)
    requires Proper(f) && forall v | recorded(v) :: Admits(f, v)
    requires f.bounds.Some? ==> recorded(f.bounds.value.min) && recorded(f.bounds.value.max)
    ensures f.bounds.None? || Less(f.bounds.value.max, low) <==> forall v | v != [] && recorded(v) :: Less(v, low)
    ensures f.bounds.None? || Less(high, f.bounds.value.min) <==> forall v | v != [] && recorded(v) :: Less(high, v)
  {
    if f.bounds.Some? {
      var b := f.bounds.value;
      LessTotal(b.min, []);
      LessTotal(b.max, []);
      EmptyLeast(b.min);
      forall v | v != [] && recorded(v)
        ensures Less(b.max, low) ==> Less(v, low)
        ensures Less(high, b.min) ==> Less(high, v)
      {
        assert Admits(f, v);
        if Less(b.max, low) && v != b.max { LessTransitive(v, b.max, low); }
        if Less(high, b.min) && v != b.min { LessTransitive(high, b.min, v); }
      }
    } else {
      forall v | v != [] ensures !recorded(v) { assert recorded(v) ==> Admits(f, v); }
    }
  }

  lemma {:induction false} BoundsTakenExactly(categories: nat, low: Category, high: Category)
    ensures BoundsUsable(categories, low, high) <==> BoundsTaken(categories, low, high)
  {
    forall c: Category | c <= MAX_USABLE_CATEGORY ensures Contains(categories, c) <==> c in Elements(categories) {
      ContainsIsMembership(categories, c);
    }
  }

  lemma LeadingExactly(select: FilterInput, p: Split, q: Split)
    ensures SameLeadup(p, q, FirstSelected(select)) <==> LeadingAgree(select, p, q)
  {}

  // A file is skipped exactly when it has a filter, the filter takes the
  // bounds, they agree before the selected part, and the file's inputs are
  // apart from theirs.
  lemma {:induction false} SkipsExactly(
      cfg: MinMaxConfig, e: Extractor, keys: seq<Slice>, lower: Slice, upper: Slice)
    requires ValidExtractor(e)
    ensures CanSkip(cfg, e, Build(cfg, e, keys), lower, upper) <==>
            var l, u := Input(lower, InclusiveLowerBound), Input(upper, ExclusiveUpperBound);
            && (forall k | k in keys :: CategoryOf(e, k) <= MAX_USABLE_CATEGORY)
            && BoundsTaken(cfg.categories, e(l).category, e(u).category)
            && LeadingAgree(cfg.select, SplitOf(e, l), SplitOf(e, u))
            && Apart(cfg, e, keys, InputOf(cfg, e, l), InputOf(cfg, e, u))
  {
    var l, u := Input(lower, InclusiveLowerBound), Input(upper, ExclusiveUpperBound);
    BuiltExactly(cfg, e, keys);
    BoundsTakenExactly(cfg.categories, e(l).category, e(u).category);
    LeadingExactly(cfg.select, SplitOf(e, l), SplitOf(e, u));
    SelectedIsPart(cfg.select, SplitOf(e, l));
    SelectedIsPart(cfg.select, SplitOf(e, u));
    ApartExactly(cfg, e, keys, InputOf(cfg, e, l), InputOf(cfg, e, u));
  }

  // So the filter is of use: with bounds it takes, a file whose inputs are all
  // below the lower bound's, or all above the upper bound's, is skipped.
  lemma {:induction false} DisjointFileSkipped(
      cfg: MinMaxConfig, e: Extractor, keys: seq<Slice>, lower: Slice, upper: Slice)
    requires ValidExtractor(e)
    requires forall k | k in keys :: CategoryOf(e, k) <= MAX_USABLE_CATEGORY
    requires var l, u := Input(lower, InclusiveLowerBound), Input(upper, ExclusiveUpperBound);
             && BoundsTaken(cfg.categories, e(l).category, e(u).category)
             && LeadingAgree(cfg.select, SplitOf(e, l), SplitOf(e, u))
             && ((forall v | Holds(cfg, e, keys, v) :: Less(v, InputOf(cfg, e, l)))
                 || (forall v | Holds(cfg, e, keys, v) :: Less(InputOf(cfg, e, u), v)))
    ensures CanSkip(cfg, e, Build(cfg, e, keys), lower, upper)
  {
    var low := InputOf(cfg, e, Input(lower, InclusiveLowerBound));
    var high := InputOf(cfg, e, Input(upper, ExclusiveUpperBound));
    SkipsExactly(cfg, e, keys, lower, upper);
    if Holds(cfg, e, keys, []) {
      LessTotal(low, []);
      EmptyLeast(high);
      LessTotal(high, []);
    }
  }
}
