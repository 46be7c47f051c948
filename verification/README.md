# RocksDB header models

A Dafny model of the parts of the RocksDB headers under
`rocksdb_dumpandload/include/rocksdb/` that hold an algorithm, or that state an
algorithm, a theorem or a state protocol exactly, with proofs of what those
headers promise. `dafny verify dfyconfig.toml` checks everything.

## What is modelled

**Key segments and query filters** (`experimental.h`). Keys are byte strings in
bytewise order (`Bytes`, which also has the comparison loops of `slice.h`). An
extractor maps a key or bound to segment ends and a category. A key's segments
form an infinite sequence with an empty tail, and segment sequences are ordered
lexicographically (`KeySegments`). The main results are that the segment prefix
property implies the segment ordering property, weak and strong; which lists of
documented segment parsers have the property (`SegmentParsers`), and where each
kind of segment ends (`SegmentKinds`); that a min/max filter never skips a file
with a key in the queried range (`RangeFilters`), and exactly which files it
does skip (`FilterParts`); and which configuration a name and version select,
and what adding and retiring versions may change (`FilterConfigs`).

**Sets of small enumerators** (`data_structure.h`, `SmallEnumSets`). One word
of bits, refined to a mathematical set for every largest enumerator from 0 to
63, with an iterator that re-reads the live word on each step. Category sets of
the filters are such words.

**Cleanups** (`cleanable.h`). `Cleanables` is the inline record and heap-linked
list, with every heap record tracked as live or freed; `CleanableRuns` is any
number of such objects under any interleaving; `SharedCleanables` adds
reference-counted pointers whose destruction is itself registered as a cleanup.
About them, `SharedCounts` proves the reference counts, `SharedConservation`
that cleanups wait for the last reference and none is lost, `SharedRelease`
what reference cycles do, `SharedReach` which objects a pass deletes,
`SharedOrder` in which order cleanups run, `SharedPointers` how copies and moves
relate, and `SharedEffects` what each operation leaves in the pointers, the
counts and the other Cleanables; `SharedCleanableObjects` is the same as state
updated in place.

**Cache entries** (`advanced_cache.h`, `cache.h`). `Caches` is the state machine
of entries, references, charges and ownership, each operation one atomic step,
with the choice among unreferenced eviction victims left open. `CacheRuns` holds
what clients may rely on over single operations and whole runs, `CacheEffects`
exactly what each operation stores and removes and what Lookup finds.
`CacheObjects` is the cache as an object updated in place, proved to refine the
state machine.

**Sizing and retention** (`advanced_options.h`). `LevelTargets` chooses the base
level and level targets; `WriteHistory` retains flushed write buffers.

**Block preallocation** (`env.h`, `Preallocation`). `PrepareWrite` with `size_t`
arithmetic that wraps, compared with unbounded arithmetic.

Where a header gives only a contract (the cache, `RegisterCleanup`,
`DelegateCleanupsTo`, the shared pointers, the filter, the configuration
manager, the level and history rules), the bodies here are written to meet it;
the `.cc` files that implement them are not part of this model.

## Where the headers are not exact

* `experimental.h:133-135` lets a short parse become an empty segment, and the
  example at line 140 uses that. It breaks the ordering property: "a:xy" has
  segment 1 empty and "a:wxyz" has "wxyz", although the first key is the larger
  one (`SegmentParsers.FourSegmentCounterexample`). `SegmentParsers.SpecsOrderedExactly` gives the exact condition on a list
  of segment kinds, checkable from the list alone: the empty option is harmless
  exactly where no remainder can be left stranded.
* `experimental.h:78-82` asks only for the weak ordering property. For a filter
  over a range of two or more segments that is not enough;
  `RangeFilters.RangeSoundUnderWeakOrderExactly` shows that it suffices exactly
  when the range is at most one segment or the filter covers nothing, and
  `RangeFilters.FilterNeverSkipsMatchingFile` that the prefix property does
  suffice for every range.
* The prefix property must be read over infinite segment sequences
  (`experimental.h:158-162`); over the represented segments alone it does not
  give the order (`KeySegments.FiniteReadingIsTooWeak`).
* `cleanable.h:111-114` says that the shared object's cleanups run only after
  the target's. That holds for the cleanups before the copy in the target's
  list, not always for the target as a whole (`SharedOrder.TargetMayRunLater`).
  `SharedOrder.TargetFirstExactly` gives the exact condition, known before the
  pass, for any lists; `SharedOrder.SoleCopyTargetFirstExactly`,
  `PlainTargetFirstExactly` and `HeldElsewhereTargetFirst` are simpler forms of
  it for common cases.
* `advanced_options.h:483-484` equates the last level's target with the size of
  the largest level, while the example at lines 497-502 starts an empty DB with
  the base size. The model follows the example: the larger of the two.

## Model

| member | source | states |
|---|---|---|
| Bytes.DifferenceOffset | rocksdb_dumpandload/include/rocksdb/slice.h:255-262 | the loop returns the length of the longest common prefix |
| Bytes.Compare | rocksdb_dumpandload/include/rocksdb/slice.h:242-253 | the sign of the result is the strict bytewise order, in all three cases |
| Bytes.LessTotal | rocksdb_dumpandload/include/rocksdb/slice.h:242-253 | bytewise order is total, antisymmetric and irreflexive |
| Bytes.LessTransitive | rocksdb_dumpandload/include/rocksdb/slice.h:242-253 | bytewise order is transitive |
| Bytes.LessExactly | rocksdb_dumpandload/include/rocksdb/slice.h:242-253 | a key is smaller if and only if it is a proper prefix of the other or has the smaller byte where they first differ |
| Bytes.LessAfterPrefix | rocksdb_dumpandload/include/rocksdb/slice.h:242-253 | putting the same prefix before two keys keeps their order, both ways |
| KeySegments.SegmentsTotal | rocksdb_dumpandload/include/rocksdb/experimental.h:158-162 | any two infinite segment sequences are equal or ordered |
| KeySegments.SegmentsAntisymmetric | rocksdb_dumpandload/include/rocksdb/experimental.h:158-162 | lexicographic segment order never holds both ways |
| KeySegments.FirstDifferenceFollowsKeys | rocksdb_dumpandload/include/rocksdb/experimental.h:109-122 | at the first segment where two keys with the prefix property differ, the smaller key has the smaller segment |
| KeySegments.PrefixImpliesOrdering | rocksdb_dumpandload/include/rocksdb/experimental.h:98-122 | for any extractor and set of categories, the segment prefix property implies the weak segment ordering property |
| KeySegments.PrefixImpliesStrongOrdering | rocksdb_dumpandload/include/rocksdb/experimental.h:93-97 | with the rest of the key as one more segment, segment order is exactly key order |
| KeySegments.StrongOrderIsKeyOrder | rocksdb_dumpandload/include/rocksdb/experimental.h:93-97 | the same for any two splits with the prefix property between them, as an equivalence |
| KeySegments.EqualSegmentsContiguous | rocksdb_dumpandload/include/rocksdb/experimental.h:90-93 | within a contiguous category, keys that generate the same segments are contiguous in key order |
| KeySegments.FiniteReadingIsTooWeak | rocksdb_dumpandload/include/rocksdb/experimental.h:158-162 | two keys that satisfy the prefix property on represented segments only, in the wrong segment order |
| KeySegments.DocumentedDelimiter | rocksdb_dumpandload/include/rocksdb/experimental.h:145-154 | the three documented keys, their first segments, and the segment order that contradicts the key order |
| KeySegments.ExcludedDelimitersExactly | rocksdb_dumpandload/include/rocksdb/experimental.h:101-107 | for every set of delimiters left out of the segment before them, the weak order holds if and only if every byte smaller than a delimiter is one, and the prefix property if and only if no byte or every byte is |
| SegmentParsers.CutLength | rocksdb_dumpandload/include/rocksdb/experimental.h:116-122 | a parse stops at the first place its no-look-ahead rule cuts, or finds none |
| SegmentParsers.ScanSegment | rocksdb_dumpandload/include/rocksdb/experimental.h:118-122 | reading byte by byte gives the segment length the rule defines, with the short-parse choice at the end of the key |
| SegmentParsers.Extract | rocksdb_dumpandload/include/rocksdb/experimental.h:257-264 | fills a default-initialized result with the segment ends and leaves its category |
| SegmentParsers.EndsOrdered | rocksdb_dumpandload/include/rocksdb/experimental.h:216-230 | segment ends are ordered and inside the key |
| SegmentParsers.SegmentAt | rocksdb_dumpandload/include/rocksdb/experimental.h:216-230 | each segment that the reported ends stand for is the one that was cut |
| SegmentParsers.RulesHavePrefixProperty | rocksdb_dumpandload/include/rocksdb/experimental.h:109-131 | any list of no-look-ahead rules whose short parses extend to the end of the key yields an extractor with the segment prefix property |
| SegmentParsers.CompleteSegmentsParse | rocksdb_dumpandload/include/rocksdb/experimental.h:109-122 | a key that starts with concatenated complete segments is cut back into exactly those, whatever follows |
| SegmentParsers.NothingStrandedSuffices | rocksdb_dumpandload/include/rocksdb/experimental.h:124-135 | fixed-length, delimited, length-prefixed, length-from-earlier and rest-of-key segments in any mix, with short parses either way, have the prefix property when no segment with the empty option can strand bytes |
| SegmentParsers.StrandedBytesBreakOrder | rocksdb_dumpandload/include/rocksdb/experimental.h:133-135 | for every list where one can, two keys whose segment order is the reverse of their key order |
| SegmentParsers.SpecsOrderedExactly | rocksdb_dumpandload/include/rocksdb/experimental.h:124-135 | weak ordering, the prefix property and the check on the list are equivalent |
| SegmentParsers.FourSegmentExample | rocksdb_dumpandload/include/rocksdb/experimental.h:137-143 | the four-segment example is ordered if and only if its second segment is not "all or nothing" |
| SegmentParsers.FourSegmentCounterexample | rocksdb_dumpandload/include/rocksdb/experimental.h:137-143 | in its documented form "a:wxyz" is smaller than "a:xy", with segments 1 "wxyz" and empty, so their segment order is the reverse |
| SegmentKinds.FixedLengthEnds | rocksdb_dumpandload/include/rocksdb/experimental.h:124-135 | a fixed-length segment takes its n bytes; where fewer are left, nothing or all of them, by prior choice |
| SegmentKinds.DelimiterEnds | rocksdb_dumpandload/include/rocksdb/experimental.h:126-128 | a delimited segment ends with the first occurrence of its delimiter |
| SegmentKinds.NoDelimiterEnds | rocksdb_dumpandload/include/rocksdb/experimental.h:126-135 | without one it takes nothing or the rest of the key, by prior choice |
| SegmentKinds.LengthPrefixedEnds | rocksdb_dumpandload/include/rocksdb/experimental.h:129-130 | a length byte n takes n more bytes, whatever they are and whatever follows |
| SegmentKinds.LengthPrefixedShort | rocksdb_dumpandload/include/rocksdb/experimental.h:129-135 | with fewer than n bytes behind it, nothing or the rest of the key |
| SegmentKinds.LengthFromEnds | rocksdb_dumpandload/include/rocksdb/experimental.h:129-135 | a segment whose length comes from an earlier one has as many bytes as the first byte of that says |
| SegmentKinds.RestEnds | rocksdb_dumpandload/include/rocksdb/experimental.h:131-132 | a rest-of-key segment takes everything left |
| SegmentKinds.ReportedSegment | rocksdb_dumpandload/include/rocksdb/experimental.h:116-135 | every reported segment is what its kind takes where the one before ends, given those reported before it |
| SegmentKinds.FourSegmentsReported | rocksdb_dumpandload/include/rocksdb/experimental.h:137-143 | a key with all four documented segments is reported as those four and nothing behind them |
| RangeFilters.SummaryExact | rocksdb_dumpandload/include/rocksdb/experimental.h:320-328 | every covered input is admitted by the summary, its minimum and maximum are inputs of covered keys, and the empty flag is set only for an empty input |
| RangeFilters.OutOfRangeExact | rocksdb_dumpandload/include/rocksdb/experimental.h:320-324 | the skip test fires exactly when no input the summary admits lies between the bounds' inputs |
| RangeFilters.CoversAllIsAll | rocksdb_dumpandload/include/rocksdb/experimental.h:326-332 | covering each usable category is the same as equality with the All() word |
| RangeFilters.KeyInScope | rocksdb_dumpandload/include/rocksdb/experimental.h:326-332 | a key between usable bounds has a covered category, the bounds' own unless the filter is for All |
| RangeFilters.RangeSelectedOrdered | rocksdb_dumpandload/include/rocksdb/experimental.h:277-291 | under the prefix property the substring made of a range of segments follows key order among keys that agree before the range |
| RangeFilters.SelectedBetween | rocksdb_dumpandload/include/rocksdb/experimental.h:267-294 | what is selected from a key between the bounds lies between what is selected from the bounds, for each kind of input |
| RangeFilters.FilterNeverSkipsMatchingFile | rocksdb_dumpandload/include/rocksdb/experimental.h:320-332 | for whole keys, one segment and ranges of segments, a file with a key in [lower, upper) is never skipped |
| RangeFilters.WeakOrderMissesRange | rocksdb_dumpandload/include/rocksdb/experimental.h:78-82 | for every range of two or more segments and every covered category, a weakly ordered extractor and a file that is skipped although it holds a key in range |
| RangeFilters.RangeSoundUnderWeakOrderExactly | rocksdb_dumpandload/include/rocksdb/experimental.h:78-82 | under the weak order alone, skipping on a range is sound if and only if the range is at most one segment or the filter covers no category |
| FilterParts.SelectsSegments | rocksdb_dumpandload/include/rocksdb/experimental.h:267-294 | for a key that starts with given segments: one segment or empty past the end, the bytes of a range cut at the end, or the whole key |
| FilterParts.ListSplits | rocksdb_dumpandload/include/rocksdb/experimental.h:216-230 | any reported ends are the running lengths of the segments they stand for |
| FilterParts.BuiltExactly | rocksdb_dumpandload/include/rocksdb/experimental.h:185-196 | a key of file or database error scope aborts the file, else one of filter error scope drops the filter, else there is one |
| FilterParts.OutsideIgnored | rocksdb_dumpandload/include/rocksdb/experimental.h:326-327 | a key outside the configured categories, anywhere in the file, leaves the summary as it was |
| FilterParts.SkipsExactly | rocksdb_dumpandload/include/rocksdb/experimental.h:320-332 | a file is skipped if and only if no key signals an error, the bounds are usable and of one configured category unless the filter is for All, their segments before the selected ones agree, and the nonempty selected parts of its covered keys are all below the lower or all above the upper bound's, with no empty one where the lower bound's is empty |
| FilterParts.DisjointFileSkipped | rocksdb_dumpandload/include/rocksdb/experimental.h:320-332 | with such bounds, a file whose covered keys' selected parts are all below or all above the bounds' is skipped |
| FilterConfigs.ToMap | rocksdb_dumpandload/include/rocksdb/experimental.h:360-362 | a list of named configurations becomes a mapping exactly when no name is given twice |
| FilterConfigs.MakeShared | rocksdb_dumpandload/include/rocksdb/experimental.h:360-424 | accepts exactly the data whose versions are positive and without gaps and give no name twice, and then stands for exactly that data |
| FilterConfigs.SupportedExactly | rocksdb_dumpandload/include/rocksdb/experimental.h:476-477 | the supported range is version 0 and exactly the versions of the data |
| FilterConfigs.MakeSharedFactory | rocksdb_dumpandload/include/rocksdb/experimental.h:476-483 | a factory is made exactly for version 0 and the versions of the data |
| FilterConfigs.Factory.constructor | rocksdb_dumpandload/include/rocksdb/experimental.h:476-483 | starts with the given name and supported version |
| FilterConfigs.Factory.SetFilteringVersion | rocksdb_dumpandload/include/rocksdb/experimental.h:452-454 | changes the version exactly when it is 0 or one of the data, and reports which |
| FilterConfigs.Factory.GetConfigs | rocksdb_dumpandload/include/rocksdb/experimental.h:460-479 | the backward search returns the resolution of the name and version; version 0 is always empty |
| FilterConfigs.ResolvesToNewest | rocksdb_dumpandload/include/rocksdb/experimental.h:400-404 | empty exactly when no version at or below defines the name, otherwise exactly the newest such definition |
| FilterConfigs.AppendKeepsResolutions | rocksdb_dumpandload/include/rocksdb/experimental.h:406-411 | new versions change no earlier resolution |
| FilterConfigs.RetireKeepsResolutionsExactly | rocksdb_dumpandload/include/rocksdb/experimental.h:413-424 | replacing the two oldest versions by one keeps every remaining resolution if and only if it carries forward what the second did not redefine and changes nothing else |
| FilterConfigs.RetireManyKeepsResolutions | rocksdb_dumpandload/include/rocksdb/experimental.h:413-424 | retiring any number of versions this way keeps every remaining resolution and leaves no gap |
| Words.CountTrailingZeroBits | rocksdb_dumpandload/include/rocksdb/data_structure.h:18-20 | the position of the lowest set bit of a nonzero word |
| SmallEnumSets.InRangeFitsWord | rocksdb_dumpandload/include/rocksdb/data_structure.h:26-32 | a word with no bit above the maximum fits 64 bits |
| SmallEnumSets.ContainsIsMembership | rocksdb_dumpandload/include/rocksdb/data_structure.h:60-65 | the mask test is membership |
| SmallEnumSets.EqualityIsSetEquality | rocksdb_dumpandload/include/rocksdb/data_structure.h:52-55 | equal words exactly for equal sets |
| SmallEnumSets.With | rocksdb_dumpandload/include/rocksdb/data_structure.h:148-152 | adds exactly the value and keeps the high bits clear |
| SmallEnumSets.Without | rocksdb_dumpandload/include/rocksdb/data_structure.h:160-164 | removes exactly the value and keeps the high bits clear |
| SmallEnumSets.WithAll | rocksdb_dumpandload/include/rocksdb/data_structure.h:153-157 | the variadic form adds exactly the listed values |
| SmallEnumSets.WithoutAll | rocksdb_dumpandload/include/rocksdb/data_structure.h:165-169 | the variadic form removes exactly the listed values |
| SmallEnumSets.FromList | rocksdb_dumpandload/include/rocksdb/data_structure.h:39-42 | variadic construction holds exactly the listed values |
| SmallEnumSets.VariadicOrderIndependent | rocksdb_dumpandload/include/rocksdb/data_structure.h:39-169 | construction, With and Without give the same word for any order and repetition of the same values |
| SmallEnumSets.All | rocksdb_dumpandload/include/rocksdb/data_structure.h:44-49 | exactly the values 0 to the maximum, also for 63 |
| SmallEnumSets.SkipUnset | rocksdb_dumpandload/include/rocksdb/data_structure.h:172-179 | the first element at or after a position, or the end, with nothing skipped |
| SmallEnumSets.WalkVisitsElements | rocksdb_dumpandload/include/rocksdb/data_structure.h:70-121 | under any changes between steps, each visited position is an element at that moment |
| SmallEnumSets.WalkIncreases | rocksdb_dumpandload/include/rocksdb/data_structure.h:90-98 | visited positions strictly increase under any changes between steps |
| SmallEnumSets.WalkEnds | rocksdb_dumpandload/include/rocksdb/data_structure.h:90-121 | a walk ends after at most maximum + 1 elements |
| SmallEnumSets.StableElementVisitedOnce | rocksdb_dumpandload/include/rocksdb/data_structure.h:70-121 | an element present throughout a finished walk is visited exactly once |
| SmallEnumSets.SmallEnumSet.constructor | rocksdb_dumpandload/include/rocksdb/data_structure.h:36-37 | a new set is empty |
| SmallEnumSets.SmallEnumSet.Add | rocksdb_dumpandload/include/rocksdb/data_structure.h:125-133 | adds exactly the value; true exactly when it was absent |
| SmallEnumSets.SmallEnumSet.Remove | rocksdb_dumpandload/include/rocksdb/data_structure.h:135-143 | removes exactly the value; true exactly when it was present |
| SmallEnumSets.ConstIterator.constructor | rocksdb_dumpandload/include/rocksdb/data_structure.h:119-119 | begin() is at the first element of the live set |
| SmallEnumSets.ConstIterator.Increment | rocksdb_dumpandload/include/rocksdb/data_structure.h:90-98 | steps as a walk does, on the set's current word |
| Cleanables.Cleanable.constructor | rocksdb_dumpandload/include/rocksdb/cleanable.h:22-22 | a new object has no cleanups |
| Cleanables.Cleanable.HasCleanups | rocksdb_dumpandload/include/rocksdb/cleanable.h:50-50 | true exactly when some cleanup is registered |
| Cleanables.Cleanable.DoCleanup | rocksdb_dumpandload/include/rocksdb/cleanable.h:64-77 | runs the inline record and every heap record once in list order, frees each heap record once, reads none after it is freed, and terminates |
| Cleanables.Cleanable.Reset | rocksdb_dumpandload/include/rocksdb/cleanable.h:43-48 | runs everything and leaves an empty object ready for reuse |
| Cleanables.Cleanable.RegisterCleanup | rocksdb_dumpandload/include/rocksdb/cleanable.h:30-37 | adds one cleanup and loses none |
| Cleanables.Cleanable.RegisterNode | rocksdb_dumpandload/include/rocksdb/cleanable.h:60-61 | takes over a record: it is linked in or freed, never both or neither |
| Cleanables.Cleanable.DelegateCleanupsTo | rocksdb_dumpandload/include/rocksdb/cleanable.h:39-41 | moves every cleanup to the other object, keeps the two lists disjoint and leaks no record |
| CleanableRuns.StepConserves | rocksdb_dumpandload/include/rocksdb/cleanable.h:29-48 | registering, delegating, resetting or destroying changes executed plus pending by exactly what was registered |
| CleanableRuns.RunConserves | rocksdb_dumpandload/include/rocksdb/cleanable.h:29-77 | over any interleaving on any number of objects, executed plus pending is the multiset registered |
| CleanableRuns.DestroyingAllRunsEachOnce | rocksdb_dumpandload/include/rocksdb/cleanable.h:22-30 | after any run, destroying all holders has run each cleanup exactly as often as it was registered |
| CleanableRuns.PerformAll | rocksdb_dumpandload/include/rocksdb/cleanable.h:22-77 | on the heap, any sequence of operations does what the run on values does and keeps all lists disjoint and valid |
| SharedCounts.StepKeepsInv | rocksdb_dumpandload/include/rocksdb/cleanable.h:89-122 | every operation keeps each reference count equal to the pointers plus the registered copies |
| SharedCounts.RunKeepsCounts | rocksdb_dumpandload/include/rocksdb/cleanable.h:80-122 | the same over every run |
| SharedCounts.RunKeepsInv | rocksdb_dumpandload/include/rocksdb/cleanable.h:80-122 | running cleanups, with the deletions they set off, keeps the counts right at every point of a pass |
| SharedCounts.PtrAlive | rocksdb_dumpandload/include/rocksdb/cleanable.h:80-82 | a pointer never dangles |
| SharedCounts.CopyAlive | rocksdb_dumpandload/include/rocksdb/cleanable.h:111-116 | a registered copy never dangles |
| SharedConservation.RunConservesCallbacks | rocksdb_dumpandload/include/rocksdb/cleanable.h:80-82 | over every run, each callback is registered or has run exactly as often as it was registered |
| SharedConservation.StepKeepsCleanups | rocksdb_dumpandload/include/rocksdb/cleanable.h:80-82 | under every operation but its own reset, an object that stays alive keeps each of its cleanups and gains exactly those registered with it |
| SharedConservation.RunKeepsCleanups | rocksdb_dumpandload/include/rocksdb/cleanable.h:80-82 | the same over every run: an object that is still there has every cleanup it had and every one registered since |
| SharedConservation.CleanupsWaitForLastReference | rocksdb_dumpandload/include/rocksdb/cleanable.h:80-82 | over every run in which it is not reset, an object is there, with all its cleanups, exactly as long as some pointer or registered copy refers to it |
| SharedOrder.CopyReachedFirst | rocksdb_dumpandload/include/rocksdb/cleanable.h:111-114 | when a target's pass reaches a registered copy, none of the object's cleanups has run yet |
| SharedOrder.EventsAreWhatRan | rocksdb_dumpandload/include/rocksdb/cleanable.h:111-116 | the record of which callback of whose list runs when is what has run, for any pass |
| SharedReach.SurvivesExactlyIfReached | rocksdb_dumpandload/include/rocksdb/cleanable.h:80-88 | a pass, with its whole cascade, leaves exactly the shared objects to which copies lead, before it starts, from something a pointer, another Cleanable or a cleanup behind it refers to, or from a reference cycle |
| SharedReach.AcyclicSurvivesExactly | rocksdb_dumpandload/include/rocksdb/cleanable.h:80-88 | without a cycle, exactly those led to from outside the shared objects |
| SharedReach.GivingUpDeletesExactly | rocksdb_dumpandload/include/rocksdb/cleanable.h:98-104 | giving up a pointer or another Cleanable deletes exactly the objects no longer reached without it |
| SharedOrder.TargetFirstExactly | rocksdb_dumpandload/include/rocksdb/cleanable.h:111-114 | known before the pass, for any lists, copies nested to any depth and cycles: the target's cleanups all run before the object's if and only if the object has no callbacks or is reached, for each callback of the target, without the list up to there |
| SharedOrder.ResetTargetOrder | rocksdb_dumpandload/include/rocksdb/cleanable.h:111-114 | the same for resetting or destroying a target in any reachable state and for any shared object, together with what runs and whether the object is left |
| SharedOrder.SoleCopyTargetFirstExactly | rocksdb_dumpandload/include/rocksdb/cleanable.h:111-114 | when the copy is the only reference, the target comes first if and only if the object has no callbacks or the target has none behind the copy |
| SharedOrder.HeldElsewhereTargetFirst | rocksdb_dumpandload/include/rocksdb/cleanable.h:111-114 | while a pointer or another Cleanable refers to the object, the pass runs none of its cleanups |
| SharedOrder.PlainPassRuns | rocksdb_dumpandload/include/rocksdb/cleanable.h:111-116 | over lists of callbacks, what runs is the target's before the copy, the object's exactly if the copy was the last reference, and the target's behind it |
| SharedOrder.PlainTargetFirstExactly | rocksdb_dumpandload/include/rocksdb/cleanable.h:111-114 | so the target comes first if and only if another reference is left, the object has no callbacks, or the target has none behind the copy |
| SharedPointers.MoveAsCleanupIsCopyAndReset | rocksdb_dumpandload/include/rocksdb/cleanable.h:111-121 | MoveAsCleanupTo is RegisterCopyWith followed by resetting the pointer: nothing runs and the object outlives the pointer |
| SharedPointers.MoveIsCopyAndReset | rocksdb_dumpandload/include/rocksdb/cleanable.h:93-97 | move assignment is copy assignment followed by resetting the source |
| SharedPointers.AllocateGivesFresh | rocksdb_dumpandload/include/rocksdb/cleanable.h:100-102 | Allocate gives the pointer an empty object that no other pointer points to |
| SharedEffects.StepPointers | rocksdb_dumpandload/include/rocksdb/cleanable.h:93-121 | every operation changes the pointers it is called on and no other; a copy and a registered copy leave their source, a move empties it |
| SharedEffects.CopySharesObject | rocksdb_dumpandload/include/rocksdb/cleanable.h:93-96 | copy assignment resets the target pointer and then shares: the object is alive with one reference more and its cleanups, and nothing else differs |
| SharedEffects.CopyCountExactly | rocksdb_dumpandload/include/rocksdb/cleanable.h:93-99 | its count is one more than before, or the same if the target pointer shared it already, if and only if every object that holds a copy of it is still reached without the target pointer |
| SharedEffects.CopyOverShared | rocksdb_dumpandload/include/rocksdb/cleanable.h:93-96 | over an empty or shared pointer a copy runs and deletes nothing and moves exactly one reference |
| SharedEffects.CopyCountMayStay | rocksdb_dumpandload/include/rocksdb/cleanable.h:93-99 | a state in which the reset deletes an object that held a copy, so that the count does not grow |
| SharedEffects.StepHolders | rocksdb_dumpandload/include/rocksdb/cleanable.h:111-121 | a Cleanable that is reset ends empty, and any other keeps its cleanups and gains exactly those registered with it |
| SharedRelease.ReleasedExactlyIfAcyclic | rocksdb_dumpandload/include/rocksdb/cleanable.h:80-88 | giving up every pointer and every other Cleanable, in any order, deletes every shared object if and only if there was no reference cycle before |
| SharedRelease.GivingAllUpKeepsCycles | rocksdb_dumpandload/include/rocksdb/cleanable.h:84-88 | giving up references neither makes nor breaks a cycle |
| SharedRelease.CycleNeverReleased | rocksdb_dumpandload/include/rocksdb/cleanable.h:84-88 | every object on a cycle, of any length, outlives every pointer and every other Cleanable |
| SharedRelease.AcyclicReleased | rocksdb_dumpandload/include/rocksdb/cleanable.h:80-88 | without a cycle before, nothing is left either when shared objects are reset as well |
| SharedRelease.ResettingPointeeBreaksCycle | rocksdb_dumpandload/include/rocksdb/cleanable.h:84-88 | a cycle that resetting one of its objects through a pointer does break |
| SharedRelease.ReleasedRunsEachOnce | rocksdb_dumpandload/include/rocksdb/cleanable.h:80-88 | after any run that builds no cycle, releasing everything has run each callback exactly as often as it was registered |
| SharedOrder.TargetMayRunLater | rocksdb_dumpandload/include/rocksdb/cleanable.h:111-114 | a run in which a cleanup of the target runs after the shared object's |
| SharedRelease.SelfCopyNeverReleased | rocksdb_dumpandload/include/rocksdb/cleanable.h:84-88 | the documented cycle: the object outlives every pointer and its cleanup never runs |
| SharedCleanableObjects.SharedCleanableState.RunCleanups | rocksdb_dumpandload/include/rocksdb/cleanable.h:67-77 | the pass with in-place updates does what running the list does, and the release cascade terminates |
| SharedCleanableObjects.SharedCleanableState.Release | rocksdb_dumpandload/include/rocksdb/cleanable.h:98-104 | dropping a reference in place, with what its last drop sets off |
| SharedCleanableObjects.SharedCleanableState.Perform | rocksdb_dumpandload/include/rocksdb/cleanable.h:89-122 | every operation in place does what the step on values does and keeps the counts right |
| Caches.EvictCore | rocksdb_dumpandload/include/rocksdb/cache.h:140-144 | evicting any victims only deletes entries not in use and keeps the accounting |
| Caches.ApplyKeepsInv | rocksdb_dumpandload/include/rocksdb/advanced_cache.h:190-416 | every operation keeps: usage and pinned usage are the sums of charges, references equal handles, deleted plus resident equals taken, and over capacity only when everything is in use |
| CacheRuns.InsertFailsExactly | rocksdb_dumpandload/include/rocksdb/cache.h:140-145 | Insert fails exactly under the strict limit when the charge does not fit beside what is in use; a strict success leaves usage within capacity |
| CacheRuns.StandaloneFailsExactly | rocksdb_dumpandload/include/rocksdb/advanced_cache.h:266-277 | CreateStandalone fails exactly then and without allow_uncharged; its entry is unfindable, and uncharged exactly when it does not fit |
| CacheRuns.SetCapacityBounds | rocksdb_dumpandload/include/rocksdb/advanced_cache.h:336-340 | afterwards usage fits or everything left is in use; it fits exactly when what is in use does |
| CacheRuns.InUseKept | rocksdb_dumpandload/include/rocksdb/advanced_cache.h:306-329 | an entry in use survives, unchanged, every operation but its own last release |
| CacheRuns.HeldObjectNotDeleted | rocksdb_dumpandload/include/rocksdb/advanced_cache.h:236-237 | while a handle is outstanding its entry is resident and its object not deleted |
| CacheRuns.ReleaseErasesExactly | rocksdb_dumpandload/include/rocksdb/advanced_cache.h:306-317 | Release erases exactly the last reference's entry, when asked to, hidden already or over capacity; then its object is deleted once, and true is returned |
| CacheRuns.HandlesFollowAnswers | rocksdb_dumpandload/include/rocksdb/advanced_cache.h:232-317 | for every operation, the handles outstanding are those given out and not yet released; Ref succeeds while a handle is held |
| CacheRuns.DeletedAtMostTaken | rocksdb_dumpandload/include/rocksdb/advanced_cache.h:226-229 | no object is deleted more often than it was handed over |
| CacheRuns.FailedInsertKeepsOwnership | rocksdb_dumpandload/include/rocksdb/advanced_cache.h:228-230 | a failed Insert takes no ownership and deletes nothing of the caller's |
| CacheRuns.OnlyInsertMakesFindable | rocksdb_dumpandload/include/rocksdb/advanced_cache.h:223-329 | a hidden key becomes findable only by its own insertion |
| CacheRuns.ErasedIsHidden | rocksdb_dumpandload/include/rocksdb/advanced_cache.h:326-329 | an erased key is not found in any run until inserted again, while entries in use stay |
| CacheRuns.HeldStaysFindable | rocksdb_dumpandload/include/rocksdb/advanced_cache.h:279-329 | an entry in use is hidden only by erasing or replacing its own key |
| CacheRuns.LookupFindsHeld | rocksdb_dumpandload/include/rocksdb/advanced_cache.h:279-293 | in any run that leaves it so, Lookup returns the same, unchanged entry |
| CacheRuns.InsertThenLookup | rocksdb_dumpandload/include/rocksdb/advanced_cache.h:223-293 | what a successful Insert stored is what Lookup returns, and the caller holds exactly one handle |
| CacheRuns.RunKeepsInv | rocksdb_dumpandload/include/rocksdb/advanced_cache.h:190-416 | the accounting and ownership invariant holds over every run |
| CacheRuns.EraseUnRefEmpties | rocksdb_dumpandload/include/rocksdb/advanced_cache.h:414-416 | with no handle outstanding, removing all entries leaves no charge, no key and no undeleted object |
| CacheRuns.EveryObjectDeletedOnce | rocksdb_dumpandload/include/rocksdb/advanced_cache.h:190-191 | after any run that releases every handle, the final removal has deleted each object exactly as often as it was handed over |
| CacheEffects.EvictOkExactly | rocksdb_dumpandload/include/rocksdb/cache.h:140-144 | the victims are any distinct unreferenced entries whose charges just make room, unless every unreferenced entry goes |
| CacheEffects.SettingsFollow | rocksdb_dumpandload/include/rocksdb/advanced_cache.h:336-344 | SetCapacity and SetStrictCapacityLimit set what they are given and nothing else does |
| CacheEffects.StrictDecidesInsert | rocksdb_dumpandload/include/rocksdb/advanced_cache.h:342-344 | the next Insert answers for the limit just set |
| CacheEffects.CreationTakes | rocksdb_dumpandload/include/rocksdb/advanced_cache.h:223-277 | what succeeds creates one entry, the next number, and takes over its object and no other |
| CacheEffects.InsertStores | rocksdb_dumpandload/include/rocksdb/advanced_cache.h:223-243 | Insert stores the key, object and charge given; without a handle the entry stays, to be found, exactly when there is room beside what is in use |
| CacheEffects.InsertWithoutHandle | rocksdb_dumpandload/include/rocksdb/advanced_cache.h:240-243 | Insert without a handle is Insert with one and an immediate Release |
| CacheEffects.StandaloneStores | rocksdb_dumpandload/include/rocksdb/advanced_cache.h:266-277 | CreateStandalone stores the key and object given, with one reference, not to be found |
| CacheEffects.StaysExactly | rocksdb_dumpandload/include/rocksdb/advanced_cache.h:223-416 | every operation removes exactly the entries described for it and changes nothing of the others but their counts |
| CacheEffects.LookupExactly | rocksdb_dumpandload/include/rocksdb/advanced_cache.h:279-329 | after any run Lookup finds the last entry inserted under the key and not erased since, exactly as long as it is resident, with the object and charge inserted |
| CacheEffects.FoundWhileResident | rocksdb_dumpandload/include/rocksdb/advanced_cache.h:306-308 | an entry that Lookup finds it keeps finding, in use or not, until its key is inserted or erased or the entry is gone |
| CacheEffects.ReleasedThenLookup | rocksdb_dumpandload/include/rocksdb/advanced_cache.h:306-313 | a released entry is what the next Lookup returns, with no reference left too, exactly if Release answered that it was not erased |
| CacheObjects.Cache.constructor | rocksdb_dumpandload/include/rocksdb/cache.h:126-145 | a new cache is empty and satisfies the invariant |
| CacheObjects.Cache.GetUsage | rocksdb_dumpandload/include/rocksdb/advanced_cache.h:353-354 | the counter is the sum of the resident charges |
| CacheObjects.Cache.GetPinnedUsage | rocksdb_dumpandload/include/rocksdb/advanced_cache.h:369-370 | the counter is the sum of the charges in use, at most the usage |
| CacheObjects.Cache.MakeRoom | rocksdb_dumpandload/include/rocksdb/cache.h:140-144 | the eviction loop, with any choice of victims, stops exactly when the charge fits or everything is in use |
| CacheObjects.Cache.Insert | rocksdb_dumpandload/include/rocksdb/advanced_cache.h:223-264 | refines the Insert step, for some victims, and keeps the invariant |
| CacheObjects.Cache.CreateStandalone | rocksdb_dumpandload/include/rocksdb/advanced_cache.h:266-277 | refines the CreateStandalone step and keeps the invariant |
| CacheObjects.Cache.Lookup | rocksdb_dumpandload/include/rocksdb/advanced_cache.h:279-293 | refines the Lookup step and keeps the invariant |
| CacheObjects.Cache.Ref | rocksdb_dumpandload/include/rocksdb/advanced_cache.h:300-304 | refines the Ref step and keeps the invariant |
| CacheObjects.Cache.Release | rocksdb_dumpandload/include/rocksdb/advanced_cache.h:306-317 | refines the Release step, with true exactly when the entry was erased, and keeps the invariant |
| CacheObjects.Cache.Erase | rocksdb_dumpandload/include/rocksdb/advanced_cache.h:326-329 | refines the Erase step and keeps the invariant |
| CacheObjects.Cache.SetCapacity | rocksdb_dumpandload/include/rocksdb/advanced_cache.h:336-340 | refines the SetCapacity step, for some victims, and keeps the invariant |
| CacheObjects.Cache.SetStrictCapacityLimit | rocksdb_dumpandload/include/rocksdb/advanced_cache.h:342-344 | refines the step and keeps the invariant |
| CacheObjects.Cache.EraseUnRefEntries | rocksdb_dumpandload/include/rocksdb/advanced_cache.h:414-416 | the sweep over all entries refines the step and keeps the invariant |
| LevelTargets.BaseLevelUnique | rocksdb_dumpandload/include/rocksdb/advanced_options.h:477-482 | at most one level qualifies as the base level |
| LevelTargets.BaseLevelMovesUp | rocksdb_dumpandload/include/rocksdb/advanced_options.h:489-495 | as data grows the base level never moves deeper |
| LevelTargets.EnoughLevelsExactly | rocksdb_dumpandload/include/rocksdb/advanced_options.h:479-485 | some level qualifies exactly when the last level's target, scaled up to level 1, is at most the base size |
| LevelTargets.PlanLevels | rocksdb_dumpandload/include/rocksdb/advanced_options.h:476-495 | the search from the last level finds a plan exactly when a base level exists, and the plan meets the documented rule |
| LevelTargets.RuleDeterminesPlan | rocksdb_dumpandload/include/rocksdb/advanced_options.h:477-485 | at most one plan meets the documented rule |
| LevelTargets.PlanIsTheRule | rocksdb_dumpandload/include/rocksdb/advanced_options.h:477-485 | the search returns a plan if and only if it meets the documented rule |
| LevelTargets.DocumentedExamples | rocksdb_dumpandload/include/rocksdb/advanced_options.h:497-519 | the base level and all target sizes of the worked example, for any levels with the given largest size |
| WriteHistory.NeverBelowTargetOrWritten | rocksdb_dumpandload/include/rocksdb/advanced_options.h:193-197 | at every moment memory holds the target, or everything ever written |
| WriteHistory.ReachedTargetIsKept | rocksdb_dumpandload/include/rocksdb/advanced_options.h:194-197 | once reached, the target is never undershot again |
| WriteHistory.HistoryIsLatest | rocksdb_dumpandload/include/rocksdb/advanced_options.h:185-197 | over every run, memory holds exactly the active bytes, all buffers not among those flushed so far, and of the flushed ones all but the oldest that trims took, each leaving the target; so no unflushed buffer is dropped |
| WriteHistory.FlushMovesOldest | rocksdb_dumpandload/include/rocksdb/advanced_options.h:185-188 | a flush turns the given number of oldest unflushed buffers into the latest flushed ones and keeps their order |
| WriteHistory.TrimAllExact | rocksdb_dumpandload/include/rocksdb/advanced_options.h:195-197 | trimming removes exactly as many oldest flushed buffers as can go without dropping below the target |
| WriteHistory.ZeroTargetKeepsNoHistory | rocksdb_dumpandload/include/rocksdb/advanced_options.h:222-223 | with a target of 0 all flushed buffers are freed and nothing else |
| WriteHistory.DocumentedExamples | rocksdb_dumpandload/include/rocksdb/advanced_options.h:199-210 | the three documented situations |
| WriteHistory.MemtableList.constructor | rocksdb_dumpandload/include/rocksdb/advanced_options.h:193-223 | starts with no history and the given target, or for -1 the number of write buffers times their size |
| WriteHistory.MemtableList.Add | rocksdb_dumpandload/include/rocksdb/advanced_options.h:185-188 | refines the write step |
| WriteHistory.MemtableList.SwitchMemtable | rocksdb_dumpandload/include/rocksdb/advanced_options.h:185-188 | refines the rotation step |
| WriteHistory.MemtableList.FlushOldest | rocksdb_dumpandload/include/rocksdb/advanced_options.h:186-188 | the loop refines the flush step: oldest first, none lost |
| WriteHistory.MemtableList.TrimHistory | rocksdb_dumpandload/include/rocksdb/advanced_options.h:195-197 | the loop refines exhaustive trimming |
| Preallocation.WritableFile.constructor | rocksdb_dumpandload/include/rocksdb/env.h:874-877 | a new file has preallocated nothing and has no block size |
| Preallocation.WritableFile.SetPreallocationBlockSize | rocksdb_dumpandload/include/rocksdb/env.h:1018-1020 | changes only the block size |
| Preallocation.WritableFile.Allocate | rocksdb_dumpandload/include/rocksdb/env.h:1081-1083 | one more request on record |
| Preallocation.WritableFile.PrepareWrite | rocksdb_dumpandload/include/rocksdb/env.h:1059-1078 | the machine step, every sum and product wrapping, in any state; with block size 0 nothing changes |
| Preallocation.MachineBlocksFit | rocksdb_dumpandload/include/rocksdb/env.h:1066-1069 | the block count is the sum modulo 2^64, divided by the block size, and its product fits |
| Preallocation.MachineNeverOverflowsProducts | rocksdb_dumpandload/include/rocksdb/env.h:1066-1076 | in every reachable state no product or difference overflows, even when the sum wrapped |
| Preallocation.MachineIsIdealExactly | rocksdb_dumpandload/include/rocksdb/env.h:1066-1076 | a call agrees with unbounded arithmetic if and only if its rounded-up end fits size_t or its range was covered already |
| Preallocation.CoveredIffEnoughBlocks | rocksdb_dumpandload/include/rocksdb/env.h:1063-1068 | n blocks cover a range exactly when n is at least the rounded-up count |
| Preallocation.RunInvariant | rocksdb_dumpandload/include/rocksdb/env.h:1059-1078 | over any run, wrapped sums included, the requests tile [0, block size * last) end to end |
| Preallocation.TilesHoldOnce | rocksdb_dumpandload/include/rocksdb/env.h:1072-1075 | so every byte below the end is in exactly one request and none beyond is in any |
| Preallocation.RunIsIdealExactly | rocksdb_dumpandload/include/rocksdb/env.h:1063-1077 | over any run, the machine agrees with unbounded arithmetic after every call if and only if each call's rounded-up end fits size_t or its range was covered by the calls before |
| Preallocation.RunReachesMax | rocksdb_dumpandload/include/rocksdb/env.h:1063-1077 | under that condition last is the maximum of the blocks each call needs |
| Preallocation.RunCovers | rocksdb_dumpandload/include/rocksdb/env.h:1063-1077 | under that condition every prepared range is allocated |
| Preallocation.RunOrderIndependent | rocksdb_dumpandload/include/rocksdb/env.h:1063-1077 | when the sums fit, how far a file is allocated does not depend on the order of the calls |

## Left out

- SegmentParsers.Extract: segment ends are unbounded naturals, not `uint32_t`, and segment indexes in filters are not `uint16_t` or `uint8_t`, because no arithmetic is done on them. It models extractors built from per-segment rules, all in the default category; the ordering and filter theorems are about arbitrary extractors.
- FilterConfigs.MakeShared: accepts a first version above 1, which retiring the oldest versions needs, although the header says numbering starts with 1. That a name given twice in one version is rejected is this model's reading of "mapping"; the header does not say.
- FilterConfigs.AppendKeepsResolutions: that SST files written with a retired version's extractor are gone is the user's duty and not modelled.
- SmallEnumSets.With: words are naturals with digit-wise operators rather than 64-bit vectors; that they fit 64 bits and that every shift amount is below 64 is proved.
- Cleanables.Cleanable.RegisterCleanup: the header does not say where a new cleanup goes; here it goes behind the inline record. Callbacks only leave a record that they ran, and may not re-enter the object being cleaned.
- CleanableRuns.PerformAll: move construction and move assignment of a Cleanable are not modelled.
- SharedCleanableObjects.SharedCleanableState.Perform: shared objects are numbered allocations in one mutable state and their lists are sequences, so pointer aliasing inside the lists is covered by Cleanables only. Moving a pointer onto itself and dereferencing an empty one are excluded as the caller's errors. The reference count is unbounded and changes one operation at a time, without threads.
- CacheObjects.Cache.Insert: the secondary cache, asynchronous lookups, tiering, compressed copies, priorities, hashing, sharding, null deleters and thread interleavings; each operation is one atomic step. DisownData and ApplyToAllEntries are left out. Which entries are evicted is left open, but never more than needed.
- CacheObjects.Cache.Ref: handles are entry numbers that are never reused, so a call with the handle of an erased entry answers false rather than being undefined.
- LevelTargets.PlanLevels: sizes are reals, so rounding to whole bytes is not modelled; nor are level0 interactions and the compactions that move data.
- WriteHistory.MemtableList.FlushOldest: flushes finish in order, oldest first; memory overhead of buffers and `max_write_buffer_number_to_maintain` are not modelled.
- Preallocation.RunInvariant: changing the block size after the first preallocation, where the stored count is in units of the old size. PrepareWrite itself is modelled for that case too.
- Preallocation.WritableFile.Allocate: its status is ignored, as the code does.
- RangeFilters.FilterNeverSkipsMatchingFile: lower bounds are split like full keys, as the header says they should generally be. The legacy prefix, timestamp, column and value inputs are marked unsupported in the header and not modelled, nor is how a filter is stored.
- GetId and Name of extractors, and the lifetime of configuration objects.
- Option parsing, environments, encryption, checksums, compression settings and the command-line tools: no body to prove anything about, or only easy members.
