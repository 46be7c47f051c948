// Building extractors from per-segment parsers (experimental.h:116-143).
module SegmentParsers {
  import opened Bytes
  import opened KeySegments
  import opened Wrappers

  // Decides, after each byte of a segment, whether to end the segment there.
  // It sees the finished segments before it and the bytes of this one so
  // far, and nothing beyond: no look-ahead.
  type Cut = (seq<Slice>, Slice) -> bool

  datatype Rule = Rule(cut: Cut, shortIsEmpty: bool)

  // The shortest prefix of `rest`, from length `from` on, that the rule cuts.
  function CutLength(cut: Cut, prev: seq<Slice>, rest: Slice, from: nat): (r: Option<nat>)
    requires from <= |rest|
    ensures r.Some? ==> from <= r.value <= |rest| && cut(prev, rest[..r.value])
    ensures forall m | from <= m < (if r.Some? then r.value else |rest| + 1) :: !cut(prev, rest[..m])
    decreases |rest| - from
  {
    if cut(prev, rest[..from]) then Some(from)
    else if from == |rest| then None
    else CutLength(cut, prev, rest, from + 1)
  }

  // A parse that meets the end of the key first is short: by the rule's
  // prior choice it takes the whole rest of the key, or nothing.
  function SegmentLength(rule: Rule, prev: seq<Slice>, rest: Slice): (n: nat)
    ensures n <= |rest|
  {
    match CutLength(rule.cut, prev, rest, 0)
    case Some(n) => n
    case None => if rule.shortIsEmpty then 0 else |rest|
  }

  // ----- segments and their ends -----

  function Flatten(ss: seq<Slice>): Slice {
    if ss == [] then [] else Flatten(ss[..|ss| - 1]) + ss[|ss| - 1]
  }

  // The running lengths of the segments.
  function Bounds(ss: seq<Slice>): (ends: seq<nat>)
    ensures |ends| == |ss|
  {
    if ss == [] then [] else Bounds(ss[..|ss| - 1]) + [|Flatten(ss)|]
  }

  lemma {:induction false} OneMore(ss: seq<Slice>, s: Slice)
    ensures Flatten(ss + [s]) == Flatten(ss) + s
    ensures Bounds(ss + [s]) == Bounds(ss) + [|Flatten(ss)| + |s|]
  {
    assert (ss + [s])[..|ss|] == ss;
  }

  lemma RestAfter(a: Slice, r: Slice)
    ensures a <= a + r && (a + r)[|a|..] == r
  {}

  lemma {:induction false} FlattenPrefix(ss: seq<Slice>, i: nat)
    requires i <= |ss|
    ensures Flatten(ss[..i]) <= Flatten(ss)
    decreases |ss|
  {
    if i < |ss| {
      FlattenPrefix(ss[..|ss| - 1], i);
      assert ss[..|ss| - 1][..i] == ss[..i];
    } else {
      assert ss[..i] == ss;
    }
  }

  lemma {:induction false} BoundAt(ss: seq<Slice>, i: nat)
    requires i < |ss|
    ensures Bounds(ss)[i] == |Flatten(ss[..i + 1])|
    decreases |ss|
  {
    if i < |ss| - 1 {
      BoundAt(ss[..|ss| - 1], i);
      assert ss[..|ss| - 1][..i + 1] == ss[..i + 1];
    } else {
      assert ss[..i + 1] == ss;
    }
  }

  ghost predicate OrderedWithin(ends: seq<nat>, high: nat) {
    && (forall i | 0 <= i < |ends| :: ends[i] <= high)
    && forall i, j | 0 <= i < j < |ends| :: ends[i] <= ends[j]
  }

  lemma {:induction false} BoundsOrdered(ss: seq<Slice>)
    ensures OrderedWithin(Bounds(ss), |Flatten(ss)|)
  {
    forall i: nat | i < |ss| ensures Bounds(ss)[i] <= |Flatten(ss)| {
      BoundAt(ss, i);
      FlattenPrefix(ss, i + 1);
    }
    forall i: nat, j: nat | i < j < |ss| ensures Bounds(ss)[i] <= Bounds(ss)[j] {
      BoundAt(ss, i);
      BoundAt(ss, j);
      FlattenPrefix(ss[..j + 1], i + 1);
      assert ss[..j + 1][..i + 1] == ss[..i + 1];
    }
  }

  // The segment that a rule cuts behind the segments prev.
  function NextSegment(rule: Rule, prev: seq<Slice>, key: Slice): (s: Slice)
    requires Flatten(prev) <= key
    ensures Flatten(prev) + s <= key
  {
    var rest := key[|Flatten(prev)|..];
    assert key == Flatten(prev) + rest;
    rest[..SegmentLength(rule, prev, rest)]
  }

  // The first n segments of a key, each cut behind the ones before it.
  function SegmentsOf(rules: seq<Rule>, n: nat, key: Slice): (ss: seq<Slice>)
    requires n <= |rules|
    ensures |ss| == n && Flatten(ss) <= key
  {
    if n == 0 then []
    else
      var prev := SegmentsOf(rules, n - 1, key);
      var s := NextSegment(rules[n - 1], prev, key);
      OneMore(prev, s);
      prev + [s]
  }

  lemma {:induction false} FewerSegments(rules: seq<Rule>, n: nat, m: nat, key: Slice)
    requires m <= n <= |rules|
    ensures SegmentsOf(rules, n, key)[..m] == SegmentsOf(rules, m, key)
    decreases n
  {
    if m < n {
      FewerSegments(rules, n - 1, m, key);
      assert SegmentsOf(rules, n, key)[..m] == SegmentsOf(rules, n - 1, key)[..m];
    }
  }

  function SegmentEnds(rules: seq<Rule>, key: Slice): (ends: seq<nat>)
    ensures |ends| == |rules|
  {
    Bounds(SegmentsOf(rules, |rules|, key))
  }

  lemma EndsOrdered(rules: seq<Rule>, key: Slice)
    ensures OrderedWithin(SegmentEnds(rules, key), |key|)
  {
    BoundsOrdered(SegmentsOf(rules, |rules|, key));
  }

  function RuleExtractor(rules: seq<Rule>): Extractor {
    (x: Input) => Result(SegmentEnds(rules, x.key), DEFAULT_CATEGORY)
  }

  lemma RuleExtractorValid(rules: seq<Rule>)
    ensures ValidExtractor(RuleExtractor(rules))
  {
    forall x: Input ensures RawSplit.Split(x.key, RuleExtractor(rules)(x).segmentEnds).WellFormed() {
      EndsOrdered(rules, x.key);
    }
  }

  // ----- the executable extractor -----

  // The caller's result object, passed in default-initialized.
  class ResultObject {
    var segmentEnds: seq<nat>
    var category: Category

    constructor ()
      ensures segmentEnds == [] && category == DEFAULT_CATEGORY
    {
      segmentEnds := [];
      category := DEFAULT_CATEGORY;
    }
  }

  // Reads one segment byte by byte.
  method ScanSegment(rule: Rule, prev: seq<Slice>, rest: Slice) returns (len: nat)
    ensures len == SegmentLength(rule, prev, rest)
  {
    len := 0;
    while !rule.cut(prev, rest[..len])
      invariant len <= |rest|
      invariant CutLength(rule.cut, prev, rest, 0) == CutLength(rule.cut, prev, rest, len)
      decreases |rest| - len
    {
      if len == |rest| {
        return if rule.shortIsEmpty then 0 else len;
      }
      len := len + 1;
    }
  }

  method Extract(rules: seq<Rule>, key: Slice, result: ResultObject)
    requires result.segmentEnds == []
    modifies result
    ensures result.segmentEnds == SegmentEnds(rules, key)
    ensures result.category == old(result.category)
  {
    var i: nat, pos: nat, prev: seq<Slice> := 0, 0, [];
    while i < |rules|
      invariant i <= |rules| && prev == SegmentsOf(rules, i, key) && pos == |Flatten(prev)|
      invariant result.segmentEnds == Bounds(prev)
      invariant result.category == old(result.category)
    {
      var len := ScanSegment(rules[i], prev, key[pos..]);
      var s := key[pos..][..len];
      OneMore(prev, s);
      i, pos, prev := i + 1, pos + len, prev + [s];
      result.segmentEnds := result.segmentEnds + [pos];
    }
  }

  // ----- without the empty option, any rules satisfy the prefix property -----

  ghost predicate NeverShortEmpty(rules: seq<Rule>) {
    forall i | 0 <= i < |rules| :: !rules[i].shortIsEmpty
  }

  lemma {:induction false} CutLengthLocal(cut: Cut, prev: seq<Slice>, r: Slice, s: Slice, n: nat)
    requires CutLength(cut, prev, r, 0) == Some(n)
    requires n <= |s| && r[..n] == s[..n]
    ensures CutLength(cut, prev, s, 0) == Some(n)
  {
    assert forall m | 0 <= m <= n :: r[..m] == r[..n][..m] && s[..m] == s[..n][..m];
    var c := CutLength(cut, prev, s, 0);
    assert cut(prev, s[..n]);
  }

  lemma SameSlice(k: Slice, l: Slice, e: nat, pos: nat, end: nat)
    requires pos <= end <= e <= |k| && e <= |l| && k[..e] == l[..e]
    ensures k[pos..end] == l[pos..end]
    ensures k[pos..][..end - pos] == k[pos..end] && l[pos..][..end - pos] == l[pos..end]
  {
    assert k[pos..end] == k[..e][pos..end];
    assert l[pos..end] == l[..e][pos..end];
  }

  // The rule's choice of length is settled by the bytes of the segment, as
  // long as the segment does not reach the end of the key.
  lemma {:induction false} SegmentLengthLocal(rule: Rule, prev: seq<Slice>, k: Slice, l: Slice, pos: nat, e: nat)
    requires !rule.shortIsEmpty
    requires pos <= |k| && pos <= |l| && e < |k| && e <= |l| && k[..e] == l[..e]
    requires pos + SegmentLength(rule, prev, k[pos..]) <= e
    ensures SegmentLength(rule, prev, l[pos..]) == SegmentLength(rule, prev, k[pos..])
  {
    var len := SegmentLength(rule, prev, k[pos..]);
    SameSlice(k, l, e, pos, pos + len);
    CutLengthLocal(rule.cut, prev, k[pos..], l[pos..], len);
  }

  // As long as they end before the end of the first key, and the second key
  // starts with all of their bytes, two keys have the same segments.
  lemma {:induction false} SegmentsAgree(rules: seq<Rule>, n: nat, k: Slice, l: Slice)
    requires NeverShortEmpty(rules) && n <= |rules|
    requires |Flatten(SegmentsOf(rules, n, k))| < |k| && Flatten(SegmentsOf(rules, n, k)) <= l
    ensures SegmentsOf(rules, n, l) == SegmentsOf(rules, n, k)
    decreases n
  {
    if n > 0 {
      var prev := SegmentsOf(rules, n - 1, k);
      var s := NextSegment(rules[n - 1], prev, k);
      OneMore(prev, s);
      RestAfter(Flatten(prev), s);
      SegmentsAgree(rules, n - 1, k, l);
      NextAgrees(rules[n - 1], prev, k, l);
    }
  }

  lemma {:induction false} NextAgrees(rule: Rule, prev: seq<Slice>, k: Slice, l: Slice)
    requires !rule.shortIsEmpty && Flatten(prev) <= k && Flatten(prev) <= l
    requires var s := NextSegment(rule, prev, k); |Flatten(prev) + s| < |k| && Flatten(prev) + s <= l
    ensures NextSegment(rule, prev, l) == NextSegment(rule, prev, k)
  {
    var pos, e := |Flatten(prev)|, |Flatten(prev) + NextSegment(rule, prev, k)|;
    assert k[..e] == l[..e];
    SegmentLengthLocal(rule, prev, k, l, pos, e);
    SameSlice(k, l, e, pos, e);
  }

  function SplitBy(rules: seq<Rule>, key: Slice): Split {
    EndsOrdered(rules, key);
    RawSplit.Split(key, SegmentEnds(rules, key))
  }

  // Running lengths as ends stand for exactly the segments, and nothing behind
  // them.
  ghost predicate SplitsInto(p: Split, ss: seq<Slice>) {
    Flatten(ss) <= p.key && p.ends == Bounds(ss)
  }

  lemma {:induction false} EndOf(p: Split, ss: seq<Slice>, i: nat)
    requires SplitsInto(p, ss)
    ensures p.End(i) == |Flatten(if i < |ss| then ss[..i + 1] else ss)|
  {
    if i < |ss| {
      BoundAt(ss, i);
    } else if ss != [] {
      BoundAt(ss, |ss| - 1);
      assert ss[..|ss|] == ss;
    }
  }

  lemma {:induction false} StartOf(p: Split, ss: seq<Slice>, i: nat)
    requires SplitsInto(p, ss)
    ensures p.Start(i) == |Flatten(if i < |ss| then ss[..i] else ss)|
  {
    if i > 0 {
      EndOf(p, ss, i - 1);
      assert ss[..|ss|] == ss;
    }
  }

  lemma SliceBehind(k: Slice, a: Slice, s: Slice)
    requires a + s <= k
    ensures k[|a|..|a| + |s|] == s
  {
    assert k[..|a + s|] == a + s;
  }

  lemma {:induction false} SegmentOf(p: Split, ss: seq<Slice>, i: nat)
    requires SplitsInto(p, ss)
    ensures Segment(p, i) == if i < |ss| then ss[i] else []
  {
    StartOf(p, ss, i);
    EndOf(p, ss, i);
    if i < |ss| {
      assert ss[..i] + [ss[i]] == ss[..i + 1];
      OneMore(ss[..i], ss[i]);
      FlattenPrefix(ss, i + 1);
      SliceBehind(p.key, Flatten(ss[..i]), ss[i]);
    }
  }

  lemma {:induction false} SplitBySegments(rules: seq<Rule>, key: Slice)
    ensures SplitsInto(SplitBy(rules, key), SegmentsOf(rules, |rules|, key))
  {}

  // Equal first segments, and no others up to n, give equal splits up to n.
  lemma {:induction false} SameSegmentsBefore(rules: seq<Rule>, m: nat, k: Slice, l: Slice, n: nat)
    requires m <= |rules| && (n <= m || m == |rules|)
    requires SegmentsOf(rules, m, k) == SegmentsOf(rules, m, l)
    ensures SameBefore(SplitBy(rules, k), SplitBy(rules, l), n)
  {
    FewerSegments(rules, |rules|, m, k);
    FewerSegments(rules, |rules|, m, l);
    SplitBySegments(rules, k);
    SplitBySegments(rules, l);
    forall i: nat | i < n ensures Segment(SplitBy(rules, k), i) == Segment(SplitBy(rules, l), i) {
      SegmentOf(SplitBy(rules, k), SegmentsOf(rules, |rules|, k), i);
      SegmentOf(SplitBy(rules, l), SegmentsOf(rules, |rules|, l), i);
      if i < m {
        assert SegmentsOf(rules, |rules|, k)[i] == SegmentsOf(rules, |rules|, k)[..m][i];
        assert SegmentsOf(rules, |rules|, l)[i] == SegmentsOf(rules, |rules|, l)[..m][i];
      }
    }
  }

  lemma {:induction false} RulesPrefixAt(rules: seq<Rule>, k: Slice, l: Slice, n: nat)
    requires NeverShortEmpty(rules)
    requires var e := SplitBy(rules, k).End(n); e < |k| && k[..e] <= l
    ensures SameBefore(SplitBy(rules, k), SplitBy(rules, l), n + 1)
  {
    var m := if n < |rules| then n + 1 else |rules|;
    SplitBySegments(rules, k);
    EndOf(SplitBy(rules, k), SegmentsOf(rules, |rules|, k), n);
    FewerSegments(rules, |rules|, m, k);
    SegmentsAgree(rules, m, k, l);
    SameSegmentsBefore(rules, m, k, l, n + 1);
  }

  lemma {:induction false} RulesPrefixPair(rules: seq<Rule>, k: Slice, l: Slice)
    requires NeverShortEmpty(rules)
    ensures PrefixPair(SplitBy(rules, k), SplitBy(rules, l))
  {
    var p, q := SplitBy(rules, k), SplitBy(rules, l);
    forall n: nat | p.End(n) < |k| && k[..p.End(n)] <= l ensures SameBefore(p, q, n + 1) {
      RulesPrefixAt(rules, k, l, n);
    }
  }

  lemma {:induction false} RulesHavePrefixProperty(rules: seq<Rule>, scope: set<Category>)
    requires NeverShortEmpty(rules)
    ensures ValidExtractor(RuleExtractor(rules))
    ensures SegmentPrefixProperty(RuleExtractor(rules), scope)
  {
    var e := RuleExtractor(rules);
    RuleExtractorValid(rules);
    forall x: Input, y: Input ensures PrefixPair(SplitOf(e, x), SplitOf(e, y)) {
      RulesPrefixPair(rules, x.key, y.key);
    }
  }

  // ----- parsing a key made of complete segments -----

  // Rule j, after the segments before it, cuts exactly ss[j].
  ghost predicate Completes(rules: seq<Rule>, ss: seq<Slice>, j: nat)
    requires j < |rules| && j < |ss|
  {
    CutLength(rules[j].cut, ss[..j], ss[j], 0) == Some(|ss[j]|)
  }

  lemma {:induction false} CompleteStep(rule: Rule, prev: seq<Slice>, s: Slice, k: Slice)
    requires CutLength(rule.cut, prev, s, 0) == Some(|s|)
    requires Flatten(prev) + s <= k
    ensures Flatten(prev) <= k && NextSegment(rule, prev, k) == s
  {
    var before := Flatten(prev);
    assert k[..|before|] == (before + s)[..|before|] == before;
    assert k[|before|..][..|s|] == k[..|before| + |s|][|before|..] == s;
    assert s[..|s|] == s;
    CutLengthLocal(rule.cut, prev, s, k[|before|..], |s|);
  }

  lemma CompletesShorter(rules: seq<Rule>, ss: seq<Slice>, n: nat)
    requires n <= |ss| <= |rules| && forall j | 0 <= j < |ss| :: Completes(rules, ss, j)
    ensures forall j | 0 <= j < n :: Completes(rules, ss[..n], j)
  {
    forall j | 0 <= j < n ensures Completes(rules, ss[..n], j) {
      assert ss[..n][..j] == ss[..j];
      assert Completes(rules, ss, j);
    }
  }

  // Any key that starts with complete segments is cut into exactly those,
  // whatever follows.
  lemma {:induction false} CompleteSegmentsParse(rules: seq<Rule>, ss: seq<Slice>, k: Slice)
    requires |ss| <= |rules| && forall j | 0 <= j < |ss| :: Completes(rules, ss, j)
    requires Flatten(ss) <= k
    ensures SegmentsOf(rules, |ss|, k) == ss
    decreases |ss|
  {
    if ss != [] {
      var n := |ss| - 1;
      FlattenPrefix(ss, n);
      CompletesShorter(rules, ss, n);
      CompleteSegmentsParse(rules, ss[..n], k);
      assert Completes(rules, ss, n);
      CompleteStep(rules[n], ss[..n], ss[n], k);
      assert ss[..n] + [ss[n]] == ss;
    }
  }

  lemma {:induction false} SegmentAt(rules: seq<Rule>, key: Slice, i: nat)
    requires i < |rules|
    ensures Segment(SplitBy(rules, key), i) == SegmentsOf(rules, i + 1, key)[i]
  {
    SplitBySegments(rules, key);
    SegmentOf(SplitBy(rules, key), SegmentsOf(rules, |rules|, key), i);
    FewerSegments(rules, |rules|, i + 1, key);
  }

  // The first segments of a key made of complete segments and a remainder r.
  lemma {:induction false} SegmentsAfterComplete(rules: seq<Rule>, ss: seq<Slice>, r: Slice)
    requires |ss| < |rules| && forall j | 0 <= j < |ss| :: Completes(rules, ss, j)
    ensures SegmentsOf(rules, |ss|, Flatten(ss) + r) == ss
    ensures Segment(SplitBy(rules, Flatten(ss) + r), |ss|) == r[..SegmentLength(rules[|ss|], ss, r)]
  {
    RestAfter(Flatten(ss), r);
    CompleteSegmentsParse(rules, ss, Flatten(ss) + r);
    SegmentAt(rules, Flatten(ss) + r, |ss|);
  }

  // Two keys over the same complete segments; rule i reads nothing from the
  // first and a nonempty segment from the second.
  lemma {:induction false} DifferAfterComplete(rules: seq<Rule>, ss: seq<Slice>, r: Slice, s: Slice)
    requires |ss| < |rules| && forall j | 0 <= j < |ss| :: Completes(rules, ss, j)
    requires SegmentLength(rules[|ss|], ss, r) == 0 && SegmentLength(rules[|ss|], ss, s) == |s| > 0
    ensures var p, q := SplitBy(rules, Flatten(ss) + r), SplitBy(rules, Flatten(ss) + s);
            SegmentsLess(p, q) && Segment(p, |ss|) == [] && Segment(q, |ss|) == s
  {
    SegmentsAfterComplete(rules, ss, r);
    SegmentsAfterComplete(rules, ss, s);
    assert s[..|s|] == s && r[..0] == [];
    SameSegmentsBefore(rules, |ss|, Flatten(ss) + r, Flatten(ss) + s, |ss|);
    EmptyFirst(SplitBy(rules, Flatten(ss) + r), SplitBy(rules, Flatten(ss) + s), |ss|);
  }

  lemma EmptyFirst(p: Split, q: Split, i: nat)
    requires SameBefore(p, q, i) && Segment(p, i) == [] && Segment(q, i) != []
    ensures SegmentsLess(p, q)
  {
    assert LessFrom(p, q, i);
  }

  // ----- the documented kinds of segment -----

  datatype Kind =
    | FixedLength(n: nat)
    | EndsIn(codeword: Slice)          // up to and including a delimiter
    | LengthPrefixed                   // a length byte, then that many bytes
    | LengthFrom(index: nat)           // length given by the first byte of an earlier segment
    | Rest                             // everything to the end of the key

  datatype SegmentSpec = SegmentSpec(kind: Kind, shortIsEmpty: bool)

  function FirstByteOf(prev: seq<Slice>, index: nat): Byte {
    if index < |prev| && prev[index] != [] then prev[index][0] else 0
  }

  function CutOf(kind: Kind): Cut {
    match kind
    case FixedLength(n) => (prev: seq<Slice>, cur: Slice) => |cur| == n
    case EndsIn(w) => (prev: seq<Slice>, cur: Slice) => |cur| >= |w| && cur[|cur| - |w|..] == w
    case LengthPrefixed => (prev: seq<Slice>, cur: Slice) => cur != [] && |cur| - 1 == cur[0]
    case LengthFrom(index) => (prev: seq<Slice>, cur: Slice) => |cur| == FirstByteOf(prev, index)
    case Rest => (prev: seq<Slice>, cur: Slice) => false
  }

  // A rest-of-key segment is never a short parse.
  function RuleOf(s: SegmentSpec): Rule {
    Rule(CutOf(s.kind), s.shortIsEmpty && !s.kind.Rest?)
  }

  function RulesOf(specs: seq<SegmentSpec>): (rules: seq<Rule>)
    ensures |rules| == |specs|
    ensures forall i | 0 <= i < |specs| :: rules[i] == RuleOf(specs[i])
  {
    if specs == [] then [] else [RuleOf(specs[0])] + RulesOf(specs[1..])
  }

  function SpecExtractor(specs: seq<SegmentSpec>): Extractor {
    RuleExtractor(RulesOf(specs))
  }

  // Segment i is empty in every key, whatever the key: checkable from the
  // specs alone.
  predicate AlwaysEmpty(specs: seq<SegmentSpec>, i: nat)
    requires i < |specs|
  {
    match specs[i].kind
    case FixedLength(n) => n == 0
    case EndsIn(w) => w == []
    case LengthPrefixed => false
    case LengthFrom(index) => index >= i || AlwaysEmpty(specs, index)
    case Rest => false
  }

  // Segment i uses the empty option, and some key can leave it a nonempty
  // remainder too short to parse.
  predicate CanStrandBytes(specs: seq<SegmentSpec>, i: nat)
    requires i < |specs|
  {
    && specs[i].shortIsEmpty
    && (forall j | 0 <= j < i :: specs[j].kind != Rest)
    && match specs[i].kind
       case FixedLength(n) => n >= 2
       case EndsIn(w) => w != []
       case LengthPrefixed => true
       case LengthFrom(index) => !AlwaysEmpty(specs, i)
       case Rest => false
  }

  predicate NothingStranded(specs: seq<SegmentSpec>) {
    forall i | 0 <= i < |specs| :: !CanStrandBytes(specs, i)
  }

  // ----- sufficiency: then the empty option makes no difference -----

  function Extending(rules: seq<Rule>): (r: seq<Rule>)
    ensures |r| == |rules| && NeverShortEmpty(r)
    ensures forall i | 0 <= i < |rules| :: r[i] == rules[i].(shortIsEmpty := false)
  {
    if rules == [] then [] else [rules[0].(shortIsEmpty := false)] + Extending(rules[1..])
  }

  // What is known after parsing the first i segments of a key.
  ghost predicate Progress(specs: seq<SegmentSpec>, i: nat, prev: seq<Slice>, atEnd: bool) {
    && i <= |specs| == |specs| && |prev| == i
    && (forall j | 0 <= j < i :: AlwaysEmpty(specs, j) ==> prev[j] == [])
    && ((exists j :: 0 <= j < i && specs[j].kind == Rest) ==> atEnd)
  }

  lemma {:induction false} FlagIrrelevantHere(specs: seq<SegmentSpec>, i: nat, prev: seq<Slice>, rest: Slice)
    requires i < |specs| && Progress(specs, i, prev, rest == []) && !CanStrandBytes(specs, i)
    ensures var rule := RuleOf(specs[i]);
            SegmentLength(rule, prev, rest) == SegmentLength(rule.(shortIsEmpty := false), prev, rest)
    ensures AlwaysEmpty(specs, i) ==> SegmentLength(RuleOf(specs[i]), prev, rest) == 0
    ensures specs[i].kind == Rest ==> SegmentLength(RuleOf(specs[i]), prev, rest) == |rest|
  {
    var rule := RuleOf(specs[i]);
    var c := CutLength(rule.cut, prev, rest, 0);
    assert rest[..0] == [];
    match specs[i].kind {
      case FixedLength(n) =>
        if n <= |rest| { assert rule.cut(prev, rest[..n]); }
      case EndsIn(w) =>
        if w == [] { assert rule.cut(prev, rest[..0]); }
      case LengthFrom(index) =>
        if AlwaysEmpty(specs, i) { assert rule.cut(prev, rest[..0]); }
      case _ =>
    }
  }

  // After n segments the flags have made no difference.
  ghost predicate NoDifference(specs: seq<SegmentSpec>, rules: seq<Rule>, ext: seq<Rule>, n: nat, key: Slice)
    requires n <= |rules| == |ext|
  {
    var ss := SegmentsOf(rules, n, key);
    SegmentsOf(ext, n, key) == ss && Progress(specs, n, ss, |Flatten(ss)| == |key|)
  }

  lemma {:induction false} NoDifferenceStep(
      specs: seq<SegmentSpec>, rules: seq<Rule>, ext: seq<Rule>, i: nat, key: Slice)
    requires |rules| == |ext| == |specs| && i < |specs| && !CanStrandBytes(specs, i)
    requires rules[i] == RuleOf(specs[i]) && ext[i] == rules[i].(shortIsEmpty := false)
    requires NoDifference(specs, rules, ext, i, key)
    ensures NoDifference(specs, rules, ext, i + 1, key)
  {
    var prev := SegmentsOf(rules, i, key);
    NextFlagIrrelevant(specs, i, prev, key);
    OneMore(prev, NextSegment(rules[i], prev, key));
  }

  lemma {:induction false} UpTo(n: nat, p: nat -> bool)
    requires p(0) && forall m: nat {:trigger p(m)} | m < n && p(m) :: p(m + 1)
    ensures p(n)
  {
    if n > 0 { UpTo(n - 1, p); }
  }

  lemma {:induction false} FlagsIrrelevant(specs: seq<SegmentSpec>, rules: seq<Rule>, ext: seq<Rule>, key: Slice)
    requires |rules| == |ext| == |specs| && NothingStranded(specs)
    requires forall j | 0 <= j < |specs| :: rules[j] == RuleOf(specs[j]) && ext[j] == rules[j].(shortIsEmpty := false)
    ensures SegmentEnds(rules, key) == SegmentEnds(ext, key)
  {
    var p := (n: nat) => n <= |specs| && NoDifference(specs, rules, ext, n, key);
    forall m: nat | m < |specs| && p(m) ensures p(m + 1) { NoDifferenceStep(specs, rules, ext, m, key); }
    NoDifferenceAtStart(specs, rules, ext, key);
    UpTo(|specs|, p);
  }

  lemma {:induction false} NoDifferenceAtStart(
      specs: seq<SegmentSpec>, rules: seq<Rule>, ext: seq<Rule>, key: Slice)
    requires |rules| == |ext| == |specs|
    ensures NoDifference(specs, rules, ext, 0, key)
  {}

  lemma {:induction false} NextFlagIrrelevant(specs: seq<SegmentSpec>, i: nat, prev: seq<Slice>, key: Slice)
    requires i < |specs| && Flatten(prev) <= key && !CanStrandBytes(specs, i)
    requires Progress(specs, i, prev, |Flatten(prev)| == |key|)
    ensures var rule := RuleOf(specs[i]); var s := NextSegment(rule, prev, key);
            && NextSegment(rule.(shortIsEmpty := false), prev, key) == s
            && Progress(specs, i + 1, prev + [s], |Flatten(prev)| + |s| == |key|)
  {
    FlagIrrelevantHere(specs, i, prev, key[|Flatten(prev)|..]);
    ProgressStep(specs, i, prev, NextSegment(RuleOf(specs[i]), prev, key), |Flatten(prev)|, |key|);
  }

  lemma ProgressStep(specs: seq<SegmentSpec>, i: nat, prev: seq<Slice>, s: Slice, pos: nat, high: nat)
    requires pos + |s| <= high && i < |specs| && Progress(specs, i, prev, pos == high)
    requires AlwaysEmpty(specs, i) ==> s == []
    requires specs[i].kind == Rest ==> pos + |s| == high
    ensures Progress(specs, i + 1, prev + [s], pos + |s| == high)
  {}

  lemma {:induction false} NothingStrandedSuffices(specs: seq<SegmentSpec>, scope: set<Category>)
    requires NothingStranded(specs)
    ensures ValidExtractor(SpecExtractor(specs)) && SegmentPrefixProperty(SpecExtractor(specs), scope)
  {
    var e, rules := SpecExtractor(specs), RulesOf(specs);
    var ext := Extending(rules);
    RuleExtractorValid(rules);
    forall x: Input, y: Input ensures PrefixPair(SplitOf(e, x), SplitOf(e, y)) {
      FlagsIrrelevant(specs, rules, ext, x.key);
      FlagsIrrelevant(specs, rules, ext, y.key);
      RulesPrefixPair(ext, x.key, y.key);
    }
  }

  // ----- necessity: stranded bytes break even the weak order -----

  function Twos(n: nat): (s: Slice)
    ensures |s| == n && forall i | 0 <= i < n :: s[i] == 2
  {
    if n == 0 then [] else [2] + Twos(n - 1)
  }

  // A complete segment of the given kind. If it is not empty its first byte
  // is between 2 and 254.
  function Sample(kind: Kind, prev: seq<Slice>): (s: Slice)
    requires kind != Rest
    ensures s != [] ==> 2 <= s[0] <= 254
  {
    match kind
    case FixedLength(n) => Twos(n)
    case EndsIn(w) => if w == [] || 2 <= w[0] <= 254 then w else [2] + w
    case LengthPrefixed => [2, 2, 2]
    case LengthFrom(index) => Twos(FirstByteOf(prev, index))
  }

  lemma {:induction false} SampleCuts(kind: Kind, prev: seq<Slice>)
    requires kind != Rest
    ensures var s := Sample(kind, prev); CutLength(CutOf(kind), prev, s, 0) == Some(|s|)
  {
    var s := Sample(kind, prev);
    assert s[..|s|] == s;
    if kind.EndsIn? { CodewordCuts(kind.codeword, prev); }
  }

  lemma {:induction false} CodewordCuts(w: Slice, prev: seq<Slice>)
    ensures var s := Sample(EndsIn(w), prev); CutLength(CutOf(EndsIn(w)), prev, s, 0) == Some(|s|)
  {
    var s, cut := Sample(EndsIn(w), prev), CutOf(EndsIn(w));
    assert s[..|s|] == s && s[|s| - |w|..] == w;
    forall m: nat | m < |s| ensures !cut(prev, s[..m]) { ShorterNotCut(w, prev, m); }
    OnlyWhole(cut, prev, s);
  }

  // No shorter part of the sample ends in the codeword.
  lemma {:induction false} ShorterNotCut(w: Slice, prev: seq<Slice>, m: nat)
    requires m < |Sample(EndsIn(w), prev)|
    ensures !CutOf(EndsIn(w))(prev, Sample(EndsIn(w), prev)[..m])
  {
    var s := Sample(EndsIn(w), prev);
    if m == |w| && w != [] {
      assert s[..m][0] == 2 && s[..m][m - |w|..] == s[..m];
    }
  }

  lemma {:induction false} OnlyWhole(cut: Cut, prev: seq<Slice>, s: Slice)
    requires cut(prev, s[..|s|]) && forall m: nat | m < |s| :: !cut(prev, s[..m])
    ensures CutLength(cut, prev, s, 0) == Some(|s|)
  {
    var r := CutLength(cut, prev, s, 0);
  }

  // Sample segments for the first i specs, each parsed after the ones before.
  function Samples(specs: seq<SegmentSpec>, i: nat): (ss: seq<Slice>)
    requires i <= |specs| && NoRestBefore(specs, i)
    ensures |ss| == i
    ensures forall j | 0 <= j < i && ss[j] != [] :: 2 <= ss[j][0] <= 254
  {
    if i == 0 then [] else
      var prev := Samples(specs, i - 1);
      prev + [Sample(specs[i - 1].kind, prev)]
  }

  predicate NoRestBefore(specs: seq<SegmentSpec>, i: nat)
    requires i <= |specs|
  {
    forall j | 0 <= j < i :: specs[j].kind != Rest
  }

  lemma {:induction false} SampleNotEmpty(specs: seq<SegmentSpec>, i: nat, j: nat)
    requires j < i <= |specs| && NoRestBefore(specs, i) && !AlwaysEmpty(specs, j)
    ensures Samples(specs, i)[j] != []
    decreases i
  {
    if j < i - 1 {
      SampleNotEmpty(specs, i - 1, j);
    } else if specs[j].kind.LengthFrom? {
      SampleNotEmpty(specs, j, specs[j].kind.index);
    }
  }

  lemma {:induction false} SamplesPrefix(specs: seq<SegmentSpec>, i: nat, j: nat)
    requires j < i <= |specs| && NoRestBefore(specs, i)
    ensures Samples(specs, i)[..j] == Samples(specs, j)
    ensures Samples(specs, i)[j] == Sample(specs[j].kind, Samples(specs, j))
  {
    var prev := Samples(specs, i - 1);
    assert Samples(specs, i) == prev + [Sample(specs[i - 1].kind, prev)];
    if j < i - 1 {
      SamplesPrefix(specs, i - 1, j);
      assert Samples(specs, i)[..j] == prev[..j];
    } else {
      assert Samples(specs, i)[..j] == prev;
    }
  }

  lemma {:induction false} SamplesComplete(specs: seq<SegmentSpec>, i: nat)
    requires i <= |specs| && NoRestBefore(specs, i)
    ensures forall j | 0 <= j < i :: Completes(RulesOf(specs), Samples(specs, i), j)
  {
    forall j | 0 <= j < i ensures Completes(RulesOf(specs), Samples(specs, i), j) {
      SamplesPrefix(specs, i, j);
      SampleCuts(specs[j].kind, Samples(specs, j));
    }
  }

  // One byte, above the first byte of the sample, that the kind cannot cut.
  function Stub(kind: Kind): Byte {
    if kind == EndsIn([255]) then 254 else 255
  }

  lemma {:induction false} StubIsShort(kind: Kind, prev: seq<Slice>)
    requires kind != Rest && Sample(kind, prev) != [] && kind != FixedLength(1)
    requires kind.LengthFrom? ==> |Sample(kind, prev)| > 1
    ensures CutLength(CutOf(kind), prev, [Stub(kind)], 0) == None
    ensures Sample(kind, prev)[0] < Stub(kind)
  {
    StubNotCut(kind, prev);
    OneByteNotCut(CutOf(kind), prev, Stub(kind));
  }

  lemma {:induction false} OneByteNotCut(cut: Cut, prev: seq<Slice>, b: Byte)
    requires !cut(prev, []) && !cut(prev, [b])
    ensures CutLength(cut, prev, [b], 0) == None
  {
    assert [b][..0] == [] && [b][..1] == [b];
  }

  lemma StubNotCut(kind: Kind, prev: seq<Slice>)
    requires kind != Rest && Sample(kind, prev) != [] && kind != FixedLength(1)
    requires kind.LengthFrom? ==> |Sample(kind, prev)| > 1
    ensures !CutOf(kind)(prev, []) && !CutOf(kind)(prev, [Stub(kind)])
  {
    if kind.EndsIn? && |kind.codeword| == 1 {
      assert kind.codeword == [kind.codeword[0]];
      assert [Stub(kind)][0..] == [Stub(kind)];
    }
  }

  lemma StrandedSample(specs: seq<SegmentSpec>, i: nat)
    requires i < |specs| && CanStrandBytes(specs, i)
    ensures NoRestBefore(specs, i) && specs[i].kind != Rest && specs[i].kind != FixedLength(1)
    ensures Sample(specs[i].kind, Samples(specs, i)) != []
    ensures specs[i].kind.LengthFrom? ==> |Sample(specs[i].kind, Samples(specs, i))| > 1
  {
    var kind := specs[i].kind;
    if kind.LengthFrom? { SampleNotEmpty(specs, i, kind.index); }
  }

  ghost predicate OrderReversed(rules: seq<Rule>, k: Slice, l: Slice) {
    Less(l, k) && SegmentsLess(SplitBy(rules, k), SplitBy(rules, l))
  }

  // Two keys that agree on segments before i; segment i of the larger key is
  // empty because its parse was short, that of the smaller key is not.
  lemma {:induction false} StrandedBytesBreakOrder(specs: seq<SegmentSpec>, i: nat)
    requires i < |specs| && CanStrandBytes(specs, i)
    ensures exists k: Slice, l: Slice :: OrderReversed(RulesOf(specs), k, l)
  {
    var rules, prev := RulesOf(specs), Samples(specs, i);
    StrandedSample(specs, i);
    var s, stub := Sample(specs[i].kind, prev), [Stub(specs[i].kind)];
    StubIsShort(specs[i].kind, prev);
    SampleCuts(specs[i].kind, prev);
    SamplesComplete(specs, i);
    DifferAfterComplete(rules, prev, stub, s);
    LessAt(s, stub, 0);
    LessAfterPrefix(Flatten(prev), s, stub);
    assert OrderReversed(rules, Flatten(prev) + stub, Flatten(prev) + s);
  }

  // The exact condition under which a list of documented segment kinds may
  // be used for range filtering.
  lemma SpecsOrderedExactly(specs: seq<SegmentSpec>)
    ensures ValidExtractor(SpecExtractor(specs))
    ensures WeakSegmentOrdering(SpecExtractor(specs), {DEFAULT_CATEGORY}) <==> NothingStranded(specs)
    ensures SegmentPrefixProperty(SpecExtractor(specs), {DEFAULT_CATEGORY}) <==> NothingStranded(specs)
  {
    var e := SpecExtractor(specs);
    RuleExtractorValid(RulesOf(specs));
    if NothingStranded(specs) {
      NothingStrandedSuffices(specs, {DEFAULT_CATEGORY});
      PrefixImpliesOrdering(e, {DEFAULT_CATEGORY});
    } else {
      var i :| 0 <= i < |specs| && CanStrandBytes(specs, i);
      StrandedBytesBreakOrder(specs, i);
      var k: Slice, l: Slice :| OrderReversed(RulesOf(specs), k, l);
      ReversedNotOrdered(RulesOf(specs), k, l);
    }
  }

  lemma {:induction false} ReversedNotOrdered(rules: seq<Rule>, k: Slice, l: Slice)
    requires OrderReversed(rules, k, l) && ValidExtractor(RuleExtractor(rules))
    ensures !WeakSegmentOrdering(RuleExtractor(rules), {DEFAULT_CATEGORY})
    ensures !SegmentPrefixProperty(RuleExtractor(rules), {DEFAULT_CATEGORY})
  {
    var e := RuleExtractor(rules);
    var x, y := Input(l, FullUserKey), Input(k, FullUserKey);
    assert InScope(e, {DEFAULT_CATEGORY}, x) && InScope(e, {DEFAULT_CATEGORY}, y);
    assert SplitOf(e, x) == SplitBy(rules, l) && SplitOf(e, y) == SplitBy(rules, k);
    SegmentsAntisymmetric(SplitOf(e, y), SplitOf(e, x));
    if SegmentPrefixProperty(e, {DEFAULT_CATEGORY}) { PrefixImpliesOrdering(e, {DEFAULT_CATEGORY}); }
  }

  // ----- the four-segment example -----

  const COLON: Byte := 58

  function FourSegments(allOrNothing: bool): seq<SegmentSpec> {
    [ SegmentSpec(EndsIn([COLON]), false),
      SegmentSpec(FixedLength(4), allOrNothing),
      SegmentSpec(LengthPrefixed, false),
      SegmentSpec(Rest, false) ]
  }

  lemma FourSegmentsStranded(allOrNothing: bool)
    ensures NothingStranded(FourSegments(allOrNothing)) <==> !allOrNothing
  {
    if allOrNothing { assert CanStrandBytes(FourSegments(true), 1); }
  }

  // As documented, with "all or nothing" for its second segment, the example
  // does not have the order it illustrates; with a short second segment
  // extending to the end of the key it does.
  lemma FourSegmentExample(specs: seq<SegmentSpec>, allOrNothing: bool)
    requires specs == FourSegments(allOrNothing)
    ensures ValidExtractor(SpecExtractor(specs))
    ensures WeakSegmentOrdering(SpecExtractor(specs), {DEFAULT_CATEGORY}) <==> !allOrNothing
  {
    FourSegmentsStranded(allOrNothing);
    SpecsOrderedExactly(specs);
  }

  // In the documented form of the example "a:wxyz" is the smaller key, its
  // segment 1 is "wxyz", and that of "a:xy" is empty.
  lemma FourSegmentCounterexample(specs: seq<SegmentSpec>, k: Slice, l: Slice)
    requires specs == FourSegments(true)
    requires k == [97, COLON, 120, 121] && l == [97, COLON, 119, 120, 121, 122]
    ensures var p, q := SplitBy(RulesOf(specs), k), SplitBy(RulesOf(specs), l);
            && Less(l, k) && SegmentsLess(p, q)
            && Segment(p, 1) == [] && Segment(q, 1) == [119, 120, 121, 122]
  {
    LessByIndices(l, k, 2);
    assert [97, COLON] + k[2..] == k && [97, COLON] + l[2..] == l;
    AllOrNothingReversed(RulesOf(specs), [97, COLON], k[2..], l[2..]);
  }

  lemma {:induction false} AllOrNothingReversed(rules: seq<Rule>, first: Slice, r: Slice, s: Slice)
    requires |rules| > 1 && rules[0].cut == CutOf(EndsIn([COLON])) && first == [97, COLON]
    requires rules[1] == Rule(CutOf(FixedLength(4)), true) && |r| == 2 && |s| == 4
    ensures var p, q := SplitBy(rules, first + r), SplitBy(rules, first + s);
            SegmentsLess(p, q) && Segment(p, 1) == [] && Segment(q, 1) == s
  {
    var ss := [first];
    FirstSegmentCompletes(rules, ss);
    AllOrNothing(rules[1], ss, r, s);
    assert ss[..|ss| - 1] == [] && Flatten(ss) == first;
    DifferAfterComplete(rules, ss, r, s);
  }

  lemma FirstSegmentCompletes(rules: seq<Rule>, ss: seq<Slice>)
    requires |rules| > 0 && rules[0].cut == CutOf(EndsIn([COLON])) && ss == [[97, COLON]]
    ensures Completes(rules, ss, 0)
  {
    var cut, s := rules[0].cut, ss[0];
    assert s[..0] == [] && s[..1] == [97] && s[..2] == s;
    assert [97][0..] == [97] && s[1..] == [COLON];
    assert !cut([], s[..0]) && !cut([], s[..1]) && cut([], s[..2]);
  }

  lemma AllOrNothing(rule: Rule, prev: seq<Slice>, r: Slice, s: Slice)
    requires rule == Rule(CutOf(FixedLength(4)), true) && |r| == 2 && |s| == 4
    ensures SegmentLength(rule, prev, r) == 0 && SegmentLength(rule, prev, s) == 4
  {
    assert rule.cut(prev, s[..4]);
  }
}
