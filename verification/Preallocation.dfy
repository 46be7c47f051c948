// Block preallocation ahead of writes (env.h, WritableFile::PrepareWrite).
module Preallocation {

  const SIZE_LIMIT := 0x1_0000_0000_0000_0000

  // size_t: unsigned, 64 bits, arithmetic wraps around.
  type SizeT = x: int | 0 <= x < SIZE_LIMIT

  function SizeAdd(a: SizeT, b: SizeT): SizeT {
    if a + b < SIZE_LIMIT then a + b else a + b - SIZE_LIMIT
  }

  function SizeSub(a: SizeT, b: SizeT): SizeT {
    if a >= b then a - b else a - b + SIZE_LIMIT
  }

  function SizeMul(a: nat, b: nat): SizeT {
    (a * b) % SIZE_LIMIT
  }

  datatype Request = Request(offset: nat, len: nat)

  datatype Call = Call(offset: SizeT, len: SizeT)

  datatype FileState = FileState(last: nat, blockSize: SizeT, requests: seq<Request>)

  class WritableFile {
    var lastPreallocatedBlock: SizeT
    var preallocationBlockSize: SizeT
    // The Allocate calls made, in order; their status is ignored.
    var requests: seq<Request>

    constructor ()
      ensures State() == FileState(0, 0, [])
    {
      lastPreallocatedBlock := 0;
      preallocationBlockSize := 0;
      requests := [];
    }

    function State(): FileState
      reads this
    {
      FileState(lastPreallocatedBlock, preallocationBlockSize, requests)
    }

    method SetPreallocationBlockSize(size: SizeT)
      modifies this
      ensures State() == old(State()).(blockSize := size)
    {
      preallocationBlockSize := size;
    }

    method Allocate(offset: SizeT, len: SizeT)
      modifies this`requests
      ensures requests == old(requests) + [Request(offset, len)]
    {
      requests := requests + [Request(offset, len)];
    }

    method PrepareWrite(offset: SizeT, len: SizeT)
      modifies this
      ensures State() == MachineStep(old(State()), Call(offset, len))
      ensures old(preallocationBlockSize) == 0 ==> State() == old(State())
    {
      if preallocationBlockSize == 0 {
        return;
      }
      var blockSize := preallocationBlockSize;
      var newLast: SizeT := SizeSub(SizeAdd(SizeAdd(offset, len), blockSize), 1) / blockSize;
      if newLast > lastPreallocatedBlock {
        var numSpanned := SizeSub(newLast, lastPreallocatedBlock);
        Allocate(SizeMul(blockSize, lastPreallocatedBlock), SizeMul(blockSize, numSpanned));
        lastPreallocatedBlock := newLast;
      }
    }
  }

  // ----- the two readings of a call -----

  // Extend the allocation to `blocks` if that is further than it reaches.
  function ExtendTo(s: FileState, blocks: nat): FileState {
    if blocks <= s.last then s
    else s.(last := blocks, requests := s.requests + [Request(s.blockSize * s.last, s.blockSize * (blocks - s.last))])
  }

  // Unbounded arithmetic: the number of blocks needed to cover offset + len.
  function BlocksNeeded(c: Call, blockSize: nat): nat
    requires blockSize > 0
  {
    (c.offset + c.len + blockSize - 1) / blockSize
  }

  function IdealStep(s: FileState, c: Call): FileState {
    if s.blockSize == 0 then s else ExtendTo(s, BlocksNeeded(c, s.blockSize))
  }

  // Machine arithmetic, where every sum and product wraps around.
  function MachineStep(s: FileState, c: Call): FileState {
    if s.blockSize == 0 then s
    else
      var blocks := MachineBlocks(c, s.blockSize);
      if blocks <= s.last then s
      else
        var request := Request(SizeMul(s.blockSize, s.last), SizeMul(s.blockSize, blocks - s.last));
        s.(last := blocks, requests := s.requests + [request])
  }

  function MachineBlocks(c: Call, blockSize: SizeT): SizeT
    requires blockSize > 0
  {
    SizeSub(SizeAdd(SizeAdd(c.offset, c.len), blockSize), 1) / blockSize
  }

  // The state in which no product formed from it leaves size_t.
  ghost predicate NoProductOverflow(s: FileState) {
    s.blockSize * s.last < SIZE_LIMIT
  }

  lemma DivBounds(x: nat, d: nat)
    requires d > 0
    ensures d * (x / d) <= x < d * (x / d) + d
  {}

  lemma MulMonotone(d: nat, a: nat, b: nat)
    requires a <= b
    ensures d * a <= d * b
    ensures d * (b - a) == d * b - d * a
  {
    assert d * b == d * (a + (b - a)) == d * a + d * (b - a);
    assert d * (b - a) >= 0;
  }

  lemma WrappedSum(offset: SizeT, len: SizeT, blockSize: SizeT)
    requires blockSize > 0
    ensures SizeSub(SizeAdd(SizeAdd(offset, len), blockSize), 1) == (offset + len + blockSize - 1) % SIZE_LIMIT
  {}

  lemma MachineBlocksFit(c: Call, blockSize: SizeT)
    requires blockSize > 0
    ensures MachineBlocks(c, blockSize) == ((c.offset + c.len + blockSize - 1) % SIZE_LIMIT) / blockSize
    ensures blockSize * MachineBlocks(c, blockSize) < SIZE_LIMIT
  {
    var x := (c.offset + c.len + blockSize - 1) % SIZE_LIMIT;
    WrappedSum(c.offset, c.len, blockSize);
    DivBounds(x, blockSize);
  }

  lemma ProductsFit(blockSize: nat, last: nat, blocks: nat)
    requires last < blocks && blockSize * blocks < SIZE_LIMIT
    ensures SizeMul(blockSize, last) == blockSize * last
    ensures SizeMul(blockSize, blocks - last) == blockSize * (blocks - last)
  {
    MulMonotone(blockSize, last, blocks);
    var p, q := blockSize * last, blockSize * (blocks - last);
    assert 0 <= p < SIZE_LIMIT && 0 <= q < SIZE_LIMIT;
  }

  // Once the sum has wrapped, or not, nothing else does.
  lemma MachineExtends(s: FileState, c: Call)
    requires NoProductOverflow(s) && s.blockSize > 0
    ensures MachineStep(s, c) == ExtendTo(s, MachineBlocks(c, s.blockSize))
  {
    MachineBlocksFit(c, s.blockSize);
    var blocks := MachineBlocks(c, s.blockSize);
    if blocks > s.last { ProductsFit(s.blockSize, s.last, blocks); }
  }

  // No product handed to Allocate overflows, and none formed from the new
  // state will.
  lemma MachineNeverOverflowsProducts(s: FileState, c: Call)
    requires NoProductOverflow(s)
    ensures var t := MachineStep(s, c);
            && NoProductOverflow(t)
            && t == (if s.blockSize == 0 then s else ExtendTo(s, MachineBlocks(c, s.blockSize)))
            && forall k | |s.requests| <= k < |t.requests| :: t.requests[k].offset + t.requests[k].len < SIZE_LIMIT
  {
    if s.blockSize > 0 {
      MachineExtends(s, c);
      MachineBlocksFit(c, s.blockSize);
      var blocks := MachineBlocks(c, s.blockSize);
      if blocks > s.last { MulMonotone(s.blockSize, s.last, blocks); }
    }
  }

  // ----- when the machine computes what is meant -----

  lemma QuotientStrict(d: nat, p: nat, q: nat, x: nat, y: nat)
    requires d * p <= x && y < d * q + d && x + d <= y
    ensures p < q
  {
    if q <= p { MulMonotone(d, q, p); }
  }

  lemma DivStrict(x: nat, y: nat, d: nat)
    requires d > 0 && x + d <= y
    ensures x / d < y / d
  {
    DivBounds(x, d);
    DivBounds(y, d);
    QuotientStrict(d, x / d, y / d, x, y);
  }

  // A sum that wrapped gives fewer blocks than are needed.
  lemma WrappedFallsShort(c: Call, d: SizeT)
    requires d > 0 && c.offset + c.len + d - 1 >= SIZE_LIMIT
    ensures MachineBlocks(c, d) < BlocksNeeded(c, d)
  {
    var x := c.offset + c.len + d - 1;
    MachineBlocksFit(c, d);
    WrappedBelow(x, d);
    DivStrict(x % SIZE_LIMIT, x, d);
  }

  lemma WrappedBelow(x: nat, d: SizeT)
    requires x >= SIZE_LIMIT
    ensures x % SIZE_LIMIT + d <= x
  {
    assert x % SIZE_LIMIT + SIZE_LIMIT <= x;
  }

  // One call agrees with unbounded arithmetic exactly when the rounded-up
  // end fits in size_t, or the range was covered already.
  lemma MachineIsIdealExactly(s: FileState, c: Call)
    requires NoProductOverflow(s) && s.blockSize > 0
    ensures MachineStep(s, c) == IdealStep(s, c) <==>
              c.offset + c.len + s.blockSize - 1 < SIZE_LIMIT || c.offset + c.len <= s.blockSize * s.last
  {
    MachineExtends(s, c);
    CoveredIffEnoughBlocks(c, s.blockSize, s.last);
    if c.offset + c.len + s.blockSize - 1 >= SIZE_LIMIT {
      WrappedFallsShort(c, s.blockSize);
    } else {
      MachineBlocksFit(c, s.blockSize);
    }
  }

  // n blocks cover the range exactly when n is at least the count needed.
  lemma CoveredIffEnoughBlocks(c: Call, d: nat, n: nat)
    requires d > 0
    ensures BlocksNeeded(c, d) <= n <==> c.offset + c.len <= d * n
  {
    var b := BlocksNeeded(c, d);
    DivBounds(c.offset + c.len + d - 1, d);
    if b <= n { MulMonotone(d, b, n); }
    if n < b {
      MulMonotone(d, n + 1, b);
      assert d * (n + 1) == d * n + d;
    }
  }

  // ----- whole runs -----

  function Run(s: FileState, calls: seq<Call>): FileState {
    if calls == [] then s else MachineStep(Run(s, calls[..|calls| - 1]), calls[|calls| - 1])
  }

  function Fresh(blockSize: SizeT): FileState {
    FileState(0, blockSize, [])
  }

  // The guard under which the sum of each call fits.
  ghost predicate SumsFit(calls: seq<Call>, blockSize: nat) {
    forall i | 0 <= i < |calls| :: calls[i].offset + calls[i].len + blockSize - 1 < SIZE_LIMIT
  }

  // Requests placed end to end from 0 to `end`, none empty.
  ghost predicate Tiles(requests: seq<Request>, end: nat) {
    if requests == [] then end == 0
    else
      var n := |requests| - 1;
      requests[n].len > 0 && requests[n].offset + requests[n].len == end && Tiles(requests[..n], requests[n].offset)
  }

  lemma ExtendTiles(s: FileState, blocks: nat)
    requires s.blockSize > 0 && Tiles(s.requests, s.blockSize * s.last)
    ensures Tiles(ExtendTo(s, blocks).requests, s.blockSize * ExtendTo(s, blocks).last)
  {
    if blocks > s.last {
      var t := ExtendTo(s, blocks);
      MulMonotone(s.blockSize, s.last, blocks);
      PositiveProduct(s.blockSize, blocks - s.last);
      assert t.requests[..|s.requests|] == s.requests;
    }
  }

  lemma {:induction false} RunInvariant(blockSize: SizeT, calls: seq<Call>)
    ensures var s := Run(Fresh(blockSize), calls);
            && s.blockSize == blockSize && NoProductOverflow(s)
            && Tiles(s.requests, blockSize * s.last)
  {
    if calls != [] {
      var n := |calls| - 1;
      RunInvariant(blockSize, calls[..n]);
      var s := Run(Fresh(blockSize), calls[..n]);
      MachineNeverOverflowsProducts(s, calls[n]);
      if blockSize > 0 { ExtendTiles(s, MachineBlocks(calls[n], blockSize)); }
    }
  }

  lemma PositiveProduct(a: nat, b: nat)
    requires a > 0 && b > 0
    ensures a * b > 0
  {}

  // Tiling, spelled out: every byte below the end is in exactly one request,
  // and none beyond the end is in any.
  ghost predicate Holds(r: Request, x: nat) {
    r.offset <= x < r.offset + r.len
  }

  lemma {:induction false} TilesHoldOnce(requests: seq<Request>, end: nat, x: nat)
    requires Tiles(requests, end)
    ensures x < end <==> exists i :: 0 <= i < |requests| && Holds(requests[i], x)
    ensures forall i, j | 0 <= i < j < |requests| :: !(Holds(requests[i], x) && Holds(requests[j], x))
  {
    if requests != [] {
      var n := |requests| - 1;
      TilesHoldOnce(requests[..n], requests[n].offset, x);
      assert forall i | 0 <= i < n :: requests[..n][i] == requests[i];
      if x < requests[n].offset {
        var i :| 0 <= i < |requests[..n]| && Holds(requests[..n][i], x);
        assert Holds(requests[i], x);
      } else if x < end {
        assert Holds(requests[n], x);
      }
    }
  }

  // The furthest block any of the calls needs.
  function MaxBlocks(calls: seq<Call>, blockSize: nat): (m: nat)
    requires blockSize > 0
    ensures forall i | 0 <= i < |calls| :: BlocksNeeded(calls[i], blockSize) <= m
    ensures m == 0 || exists i :: 0 <= i < |calls| && BlocksNeeded(calls[i], blockSize) == m
  {
    if calls == [] then 0
    else
      var n := |calls| - 1;
      var before, here := MaxBlocks(calls[..n], blockSize), BlocksNeeded(calls[n], blockSize);
      assert forall i | 0 <= i < n :: calls[..n][i] == calls[i];
      if here > before then here else before
  }

  // The same run in unbounded arithmetic.
  function IdealRun(s: FileState, calls: seq<Call>): FileState {
    if calls == [] then s else IdealStep(IdealRun(s, calls[..|calls| - 1]), calls[|calls| - 1])
  }

  lemma {:induction false} IdealReachesMax(blockSize: SizeT, calls: seq<Call>)
    requires blockSize > 0
    ensures var s := IdealRun(Fresh(blockSize), calls);
            s.blockSize == blockSize && s.last == MaxBlocks(calls, blockSize)
  {
    if calls != [] { IdealReachesMax(blockSize, calls[..|calls| - 1]); }
  }

  // The rounded-up end of call n fits in size_t, or the calls before it have
  // covered its range.
  ghost predicate FitsOrCovered(blockSize: SizeT, calls: seq<Call>, n: nat)
    requires blockSize > 0
  {
    n < |calls| ==>
      || calls[n].offset + calls[n].len + blockSize - 1 < SIZE_LIMIT
      || BlocksNeeded(calls[n], blockSize) <= MaxBlocks(calls[..n], blockSize)
  }

  ghost predicate AgreeAfter(blockSize: SizeT, calls: seq<Call>, n: nat) {
    n <= |calls| ==> Run(Fresh(blockSize), calls[..n]) == IdealRun(Fresh(blockSize), calls[..n])
  }

  lemma AgreeStep(blockSize: SizeT, calls: seq<Call>, n: nat)
    requires blockSize > 0 && n < |calls| && AgreeAfter(blockSize, calls, n)
    ensures AgreeAfter(blockSize, calls, n + 1) <==> FitsOrCovered(blockSize, calls, n)
  {
    var s := Run(Fresh(blockSize), calls[..n]);
    assert calls[..n + 1][..n] == calls[..n];
    RunInvariant(blockSize, calls[..n]);
    IdealReachesMax(blockSize, calls[..n]);
    MachineIsIdealExactly(s, calls[n]);
    CoveredIffEnoughBlocks(calls[n], blockSize, s.last);
  }

  lemma {:induction false} AgreesUpTo(blockSize: SizeT, calls: seq<Call>, n: nat)
    requires blockSize > 0 && forall k: nat :: FitsOrCovered(blockSize, calls, k)
    ensures AgreeAfter(blockSize, calls, n)
  {
    if 0 < n <= |calls| {
      AgreesUpTo(blockSize, calls, n - 1);
      AgreeStep(blockSize, calls, n - 1);
    }
  }

  // Over any run, the machine agrees with unbounded arithmetic after every
  // call exactly when each call's rounded-up end fits or its range was
  // covered before.
  lemma RunIsIdealExactly(blockSize: SizeT, calls: seq<Call>)
    requires blockSize > 0
    ensures (forall n: nat :: AgreeAfter(blockSize, calls, n)) <==>
              forall n: nat :: FitsOrCovered(blockSize, calls, n)
  {
    if forall n: nat :: FitsOrCovered(blockSize, calls, n) {
      forall n: nat ensures AgreeAfter(blockSize, calls, n) { AgreesUpTo(blockSize, calls, n); }
    }
    if forall n: nat :: AgreeAfter(blockSize, calls, n) {
      forall n: nat ensures FitsOrCovered(blockSize, calls, n) {
        if n < |calls| {
          assert AgreeAfter(blockSize, calls, n) && AgreeAfter(blockSize, calls, n + 1);
          AgreeStep(blockSize, calls, n);
        }
      }
    }
  }

  lemma RunReachesMax(blockSize: SizeT, calls: seq<Call>)
    requires blockSize > 0 && forall n: nat :: FitsOrCovered(blockSize, calls, n)
    ensures Run(Fresh(blockSize), calls).last == MaxBlocks(calls, blockSize)
  {
    AgreesUpTo(blockSize, calls, |calls|);
    assert calls[..|calls|] == calls;
    IdealReachesMax(blockSize, calls);
  }

  // Every range that was prepared is allocated.
  lemma RunCovers(blockSize: SizeT, calls: seq<Call>, i: nat)
    requires blockSize > 0 && (forall n: nat :: FitsOrCovered(blockSize, calls, n)) && i < |calls|
    ensures calls[i].offset + calls[i].len <= blockSize * Run(Fresh(blockSize), calls).last
  {
    RunReachesMax(blockSize, calls);
    CoveredIffEnoughBlocks(calls[i], blockSize, MaxBlocks(calls, blockSize));
  }

  // How far a file is allocated does not depend on the order of the calls.
  lemma RunOrderIndependent(blockSize: SizeT, calls: seq<Call>, other: seq<Call>)
    requires blockSize > 0 && SumsFit(calls, blockSize) && multiset(calls) == multiset(other)
    ensures Run(Fresh(blockSize), calls).last == Run(Fresh(blockSize), other).last
  {
    forall c: Call ensures c in calls <==> c in other {
      assert c in multiset(calls) <==> c in multiset(other);
    }
    forall i | 0 <= i < |other| ensures other[i].offset + other[i].len + blockSize - 1 < SIZE_LIMIT {
      assert other[i] in calls;
    }
    assert forall n: nat :: FitsOrCovered(blockSize, calls, n) && FitsOrCovered(blockSize, other, n);
    RunReachesMax(blockSize, calls);
    RunReachesMax(blockSize, other);
    SameMax(calls, other, blockSize);
    SameMax(other, calls, blockSize);
  }

  lemma SameMax(calls: seq<Call>, other: seq<Call>, blockSize: nat)
    requires blockSize > 0 && forall c: Call :: c in calls ==> c in other
    ensures MaxBlocks(calls, blockSize) <= MaxBlocks(other, blockSize)
  {
    var m := MaxBlocks(calls, blockSize);
    if m > 0 {
      var i :| 0 <= i < |calls| && BlocksNeeded(calls[i], blockSize) == m;
      assert calls[i] in other;
    }
  }
}
