/** Grouping register addresses into bounded read requests, and splitting ranges and payloads
    into request-sized chunks (registers/read_planner.py). */
module ReadPlanner {
  import opened Common

  // Firmware limit on the words of one request (const.py).
  const MAX_REGS_PER_REQUEST := 16

  datatype Block = Block(start: int, length: int) {
    predicate Covers(a: int) {
      start <= a < start + length
    }
  }

  /** Words to be written from `start` upwards. */
  datatype WordChunk = WordChunk(start: int, words: seq<int>) {
    predicate Covers(a: int) {
      start <= a < start + |words|
    }
  }

  /** The largest block a limit allows: never more than the firmware takes, never less than one word. */
  function RequestCap(maxBlockSize: Option<int>): (cap: int)
    ensures 1 <= cap <= MAX_REGS_PER_REQUEST
    ensures maxBlockSize.Some? && 1 <= maxBlockSize.value ==> cap <= maxBlockSize.value
  {
    match maxBlockSize
    case None => MAX_REGS_PER_REQUEST
    case Some(m) => Max(1, Min(m, MAX_REGS_PER_REQUEST))
  }

  function BoundarySet(boundaries: Option<set<int>>): set<int> {
    if boundaries.Some? then boundaries.value else {}
  }

  // ---------------------------------------------------------------- sorted(set(addresses))

  predicate StrictlyIncreasing(s: seq<int>) {
    forall i, j :: 0 <= i < j < |s| ==> s[i] < s[j]
  }

  ghost function Elements(s: seq<int>): set<int> {
    set a | a in s
  }

  function InsertSorted(s: seq<int>, a: int): (r: seq<int>)
    requires StrictlyIncreasing(s)
    ensures StrictlyIncreasing(r)
    ensures Elements(r) == Elements(s) + {a}
  {
    if s == [] then [a]
    else if a < s[0] then assert Elements([a] + s) == Elements([a]) + Elements(s); [a] + s
    else if a == s[0] then s
    else
      var rest := InsertSorted(s[1..], a);
      HeadStaysFirst(s, rest, a);
      [s[0]] + rest
  }

  lemma HeadStaysFirst(s: seq<int>, rest: seq<int>, a: int)
    requires s != [] && StrictlyIncreasing(s) && StrictlyIncreasing(rest) && s[0] < a
    requires Elements(rest) == Elements(s[1..]) + {a}
    ensures StrictlyIncreasing([s[0]] + rest)
    ensures Elements([s[0]] + rest) == Elements(s) + {a}
  {
    forall k | 0 <= k < |rest| ensures s[0] < rest[k] {
      assert rest[k] in Elements(rest);
      assert rest[k] == a || rest[k] in s[1..];
    }
    assert s == [s[0]] + s[1..];
    assert Elements([s[0]] + rest) == {s[0]} + Elements(rest);
    assert Elements(s) == {s[0]} + Elements(s[1..]);
  }

  function SortedDistinct(addresses: seq<int>): (r: seq<int>)
    ensures StrictlyIncreasing(r)
    ensures Elements(r) == Elements(addresses)
  {
    if addresses == [] then [] else InsertSorted(SortedDistinct(addresses[1..]), addresses[0])
  }

  // ---------------------------------------------------------------- what a read plan must satisfy

  /** A request the device accepts and the caller asked for: bounded, only requested addresses, and
      no batch boundary strictly inside. */
  ghost predicate LegalBlock(b: Block, cap: int, requested: set<int>, boundaries: set<int>) {
    && 1 <= b.length <= cap
    && (forall a :: b.Covers(a) ==> a in requested)
    && (forall a :: b.start < a && b.Covers(a) ==> a !in boundaries)
  }

  ghost predicate Reaches(blocks: seq<Block>, a: int) {
    exists i :: 0 <= i < |blocks| && blocks[i].Covers(a)
  }

  /** Legal blocks, possibly overlapping, that together reach every requested address. */
  ghost predicate LegalCover(blocks: seq<Block>, cap: int, requested: set<int>, boundaries: set<int>) {
    && (forall i :: 0 <= i < |blocks| ==> LegalBlock(blocks[i], cap, requested, boundaries))
    && (forall a :: a in requested ==> Reaches(blocks, a))
  }

  ghost predicate Ordered(blocks: seq<Block>) {
    forall i, j :: 0 <= i < j < |blocks| ==> blocks[i].start + blocks[i].length <= blocks[j].start
  }

  /** No legal request can fetch both addresses. */
  ghost predicate Separated(x: int, y: int, cap: int, requested: set<int>, boundaries: set<int>) {
    forall b :: LegalBlock(b, cap, requested, boundaries) && b.Covers(x) ==> !b.Covers(y)
  }

  function Starts(blocks: seq<Block>): (r: seq<int>)
    ensures |r| == |blocks| && forall i :: 0 <= i < |r| ==> r[i] == blocks[i].start
  {
    seq(|blocks|, i requires 0 <= i < |blocks| => blocks[i].start)
  }

  ghost predicate GreedyStarts(starts: seq<int>, cap: int, requested: set<int>, boundaries: set<int>) {
    forall i :: 0 < i < |starts| ==>
      starts[i - 1] < starts[i] && Separated(starts[i - 1], starts[i], cap, requested, boundaries)
  }

  /** A block that cannot be stretched by one more word. */
  ghost predicate Stretched(b: Block, cap: int, requested: set<int>, boundaries: set<int>) {
    !LegalBlock(Block(b.start, b.length + 1), cap, requested, boundaries)
  }

  // ---------------------------------------------------------------- the greedy plan is a minimum

  lemma {:induction false} StartsSeparated(starts: seq<int>, i: nat, j: nat, cap: int, requested: set<int>,
      boundaries: set<int>)
    requires i < j < |starts|
    requires GreedyStarts(starts, cap, requested, boundaries)
    ensures starts[i] < starts[j]
    ensures Separated(starts[i], starts[j], cap, requested, boundaries)
    decreases j - i
  {
    if i + 1 < j {
      StartsSeparated(starts, i + 1, j, cap, requested, boundaries);
      assert starts[i] < starts[i + 1];
    }
  }

  lemma {:induction false} DistinctIndicesFit(indices: seq<int>, bound: nat)
    requires forall i :: 0 <= i < |indices| ==> 0 <= indices[i] < bound
    requires forall i, j :: 0 <= i < j < |indices| ==> indices[i] != indices[j]
    ensures |indices| <= bound
    decreases |indices|
  {
    if |indices| > 0 {
      // drop the last index and send the slot `bound - 1` to the place it frees
      var last := indices[|indices| - 1];
      var rest := seq(|indices| - 1, i requires 0 <= i < |indices| - 1 =>
        if indices[i] == bound - 1 then last else indices[i]);
      DistinctIndicesFit(rest, bound - 1);
    }
  }

  /** Pairwise inseparable addresses force every cover to spend one block on each of them. */
  lemma {:induction false} GreedyIsMinimal(starts: seq<int>, cover: seq<Block>, cap: int, requested: set<int>,
      boundaries: set<int>)
    requires GreedyStarts(starts, cap, requested, boundaries)
    requires forall i :: 0 <= i < |starts| ==> starts[i] in requested
    requires LegalCover(cover, cap, requested, boundaries)
    ensures |starts| <= |cover|
  {
    var pick: seq<int> := [];
    while |pick| < |starts|
      invariant |pick| <= |starts|
      invariant forall i :: 0 <= i < |pick| ==> 0 <= pick[i] < |cover| && cover[pick[i]].Covers(starts[i])
    {
      assert Reaches(cover, starts[|pick|]);
      var k :| 0 <= k < |cover| && cover[k].Covers(starts[|pick|]);
      pick := pick + [k];
    }
    forall i, j | 0 <= i < j < |pick| ensures pick[i] != pick[j] {
      StartsSeparated(starts, i, j, cap, requested, boundaries);
    }
    DistinctIndicesFit(pick, |cover|);
  }

  /** What the grouping loop has established when `sorted[..k]` is behind it and a block that starts
      at `start` is still open. */
  ghost predicate Grouping(groups: seq<Block>, start: int, prev: int, sorted: seq<int>, k: nat, cap: int,
      cuts: set<int>)
    requires 0 < k <= |sorted|
  {
    var requested := Elements(sorted);
    var open := Block(start, prev - start + 1);
    && StrictlyIncreasing(sorted) && prev == sorted[k - 1]
    && LegalBlock(open, cap, requested, cuts)
    && ClosedBlocks(groups, start, cap, requested, cuts)
    && GreedyStarts(Starts(groups) + [start], cap, requested, cuts)
    && (forall i :: 0 <= i < k && sorted[i] < start ==> Reaches(groups, sorted[i]))
  }

  ghost predicate ClosedBlocks(groups: seq<Block>, end: int, cap: int, requested: set<int>, cuts: set<int>) {
    && Ordered(groups)
    && (forall i :: 0 <= i < |groups| ==>
          && LegalBlock(groups[i], cap, requested, cuts)
          && Stretched(groups[i], cap, requested, cuts)
          && groups[i].start + groups[i].length <= end)
  }

  lemma GroupingStarts(sorted: seq<int>, cap: int, cuts: set<int>)
    requires StrictlyIncreasing(sorted) && sorted != [] && 1 <= cap
    ensures Grouping([], sorted[0], sorted[0], sorted, 1, cap, cuts)
  {
    assert forall a :: Block(sorted[0], 1).Covers(a) ==> a == sorted[0];
  }

  lemma BlockCloses(groups: seq<Block>, open: Block, cap: int, requested: set<int>, cuts: set<int>)
    requires ClosedBlocks(groups, open.start, cap, requested, cuts)
    requires LegalBlock(open, cap, requested, cuts) && Stretched(open, cap, requested, cuts)
    ensures ClosedBlocks(groups + [open], open.start + open.length, cap, requested, cuts)
  {
    assert forall i :: 0 <= i < |groups| ==> (groups + [open])[i] == groups[i];
  }

  lemma GroupingExtends(groups: seq<Block>, start: int, prev: int, sorted: seq<int>, k: nat, cap: int, cuts: set<int>)
    requires 0 < k < |sorted| && Grouping(groups, start, prev, sorted, k, cap, cuts)
    requires sorted[k] !in cuts && sorted[k] == prev + 1 && sorted[k] - start + 1 <= cap
    ensures Grouping(groups, start, sorted[k], sorted, k + 1, cap, cuts)
  {
    var requested := Elements(sorted);
    var open, longer := Block(start, prev - start + 1), Block(start, sorted[k] - start + 1);
    assert LegalBlock(longer, cap, requested, cuts) by {
      assert forall a :: longer.Covers(a) ==> open.Covers(a) || a == sorted[k];
    }
  }

  lemma GroupingSplits(groups: seq<Block>, start: int, prev: int, sorted: seq<int>, k: nat, cap: int, cuts: set<int>)
    requires 0 < k < |sorted| && 1 <= cap && Grouping(groups, start, prev, sorted, k, cap, cuts)
    requires sorted[k] in cuts || sorted[k] != prev + 1 || sorted[k] - start + 1 > cap
    ensures Grouping(groups + [Block(start, prev - start + 1)], sorted[k], sorted[k], sorted, k + 1, cap, cuts)
  {
    var requested := Elements(sorted);
    var open, next := Block(start, prev - start + 1), Block(sorted[k], 1);
    NextStartIsForced(sorted, k, start, cap, requested, cuts);
    ReachesMore(groups, open);
    BlockCloses(groups, open, cap, requested, cuts);
    assert next.start == sorted[k] && forall a :: next.Covers(a) ==> a == sorted[k];
    assert Starts(groups + [open]) == Starts(groups) + [start];
  }

  /** Nothing follows the last address, so the last block cannot be stretched. */
  lemma LastStretched(start: int, prev: int, sorted: seq<int>, cap: int, cuts: set<int>)
    requires sorted != [] && StrictlyIncreasing(sorted) && prev == sorted[|sorted| - 1] && start <= prev
    ensures Stretched(Block(start, prev - start + 1), cap, Elements(sorted), cuts)
  {
    assert Block(start, prev - start + 2).Covers(prev + 1) && prev + 1 !in sorted;
  }

  lemma NoCoverSmaller(plan: seq<Block>, cover: seq<Block>, cap: int, requested: set<int>, cuts: set<int>)
    requires GreedyStarts(Starts(plan), cap, requested, cuts)
    requires forall i :: 0 <= i < |plan| ==> LegalBlock(plan[i], cap, requested, cuts)
    requires LegalCover(cover, cap, requested, cuts)
    ensures |plan| <= |cover|
  {
    forall i | 0 <= i < |plan| ensures Starts(plan)[i] in requested {
      assert plan[i].Covers(plan[i].start);
    }
    GreedyIsMinimal(Starts(plan), cover, cap, requested, cuts);
  }

  lemma GroupingFinishes(groups: seq<Block>, start: int, prev: int, sorted: seq<int>, cap: int, cuts: set<int>)
    requires 0 < |sorted| && Grouping(groups, start, prev, sorted, |sorted|, cap, cuts)
    ensures IsMinimalPlan(groups + [Block(start, prev - start + 1)], Elements(sorted), cap, cuts)
  {
    hide Stretched, LegalBlock, GreedyStarts, Ordered;
    var requested := Elements(sorted);
    var open := Block(start, prev - start + 1);
    var plan := groups + [open];
    assert open.length >= 1 by {
      OpenIsLegal(groups, start, prev, sorted, cap, cuts);
    }
    LastStretched(start, prev, sorted, cap, cuts);
    BlockCloses(groups, open, cap, requested, cuts);
    ReachesMore(groups, open);
    assert Starts(plan) == Starts(groups) + [start];
    forall cover | LegalCover(cover, cap, requested, cuts) ensures |plan| <= |cover| {
      NoCoverSmaller(plan, cover, cap, requested, cuts);
    }
  }

  lemma OpenIsLegal(groups: seq<Block>, start: int, prev: int, sorted: seq<int>, cap: int, cuts: set<int>)
    requires 0 < |sorted| && Grouping(groups, start, prev, sorted, |sorted|, cap, cuts)
    ensures start <= prev
  {
  }

  /** An exact, disjoint, ordered cover in which no block could be longer, and than which no legal
      cover uses fewer requests. */
  ghost predicate IsMinimalPlan(groups: seq<Block>, requested: set<int>, cap: int, boundaries: set<int>) {
    && LegalCover(groups, cap, requested, boundaries)
    && Ordered(groups)
    && (forall i :: 0 <= i < |groups| ==> Stretched(groups[i], cap, requested, boundaries))
    && (forall cover :: LegalCover(cover, cap, requested, boundaries) ==> |groups| <= |cover|)
  }

  method GroupReads(addresses: seq<int>, maxBlockSize: Option<int>, boundaries: Option<set<int>>)
    returns (groups: seq<Block>)
    ensures IsMinimalPlan(groups, Elements(addresses), RequestCap(maxBlockSize), BoundarySet(boundaries))
  {
    var limit := Min(if maxBlockSize.None? then MAX_REGS_PER_REQUEST else maxBlockSize.value, MAX_REGS_PER_REQUEST);
    var sorted := SortedDistinct(addresses);
    if sorted == [] {
      return [];
    }
    ghost var cap, cuts := RequestCap(maxBlockSize), BoundarySet(boundaries);
    GroupingStarts(sorted, cap, cuts);
    groups := [];
    var start, prev := sorted[0], sorted[0];
    for k := 1 to |sorted|
      invariant Grouping(groups, start, prev, sorted, k, cap, cuts)
    {
      var addr := sorted[k];
      var forceSplit := boundaries.Some? && addr in boundaries.value;
      if !forceSplit && addr == prev + 1 && addr - start + 1 <= limit {
        GroupingExtends(groups, start, prev, sorted, k, cap, cuts);
        prev := addr;
        continue;
      }
      GroupingSplits(groups, start, prev, sorted, k, cap, cuts);
      groups := groups + [Block(start, prev - start + 1)];
      start, prev := addr, addr;
    }
    GroupingFinishes(groups, start, prev, sorted, cap, cuts);
    groups := groups + [Block(start, prev - start + 1)];
  }

  lemma ReachesMore(blocks: seq<Block>, last: Block)
    ensures forall a :: Reaches(blocks + [last], a) <==> Reaches(blocks, a) || last.Covers(a)
  {
    forall a | Reaches(blocks, a) || last.Covers(a) ensures Reaches(blocks + [last], a) {
      if last.Covers(a) {
        assert (blocks + [last])[|blocks|] == last;
      } else {
        var i :| 0 <= i < |blocks| && blocks[i].Covers(a);
        assert (blocks + [last])[i] == blocks[i];
      }
    }
  }

  lemma ReachesBoth(first: seq<Block>, second: seq<Block>)
    ensures forall a :: Reaches(first + second, a) <==> Reaches(first, a) || Reaches(second, a)
  {
    var both := first + second;
    forall a | Reaches(first, a) || Reaches(second, a) ensures Reaches(both, a) {
      if Reaches(first, a) {
        var i :| 0 <= i < |first| && first[i].Covers(a);
        assert both[i] == first[i];
      } else {
        var i :| 0 <= i < |second| && second[i].Covers(a);
        assert both[|first| + i] == second[i];
      }
    }
  }

  /** Why the loop splits: behind a boundary, a gap or a full block no request can reach back. */
  lemma NextStartIsForced(sorted: seq<int>, k: nat, start: int, cap: int, requested: set<int>, cuts: set<int>)
    requires StrictlyIncreasing(sorted) && 0 < k < |sorted|
    requires forall a :: a in requested <==> a in sorted
    requires start <= sorted[k - 1]
    requires sorted[k] in cuts || sorted[k] != sorted[k - 1] + 1 || sorted[k] - start + 1 > cap
    ensures Separated(start, sorted[k], cap, requested, cuts)
    ensures Stretched(Block(start, sorted[k - 1] - start + 1), cap, requested, cuts)
  {
    var addr, prev := sorted[k], sorted[k - 1];
    if addr != prev + 1 {
      assert prev + 1 !in sorted;
    }
    forall b | LegalBlock(b, cap, requested, cuts) && b.Covers(start) ensures !b.Covers(addr) {
      assert b.Covers(addr) ==> b.Covers(prev + 1);
    }
    assert Block(start, prev - start + 2).Covers(prev + 1);
  }

  // ---------------------------------------------------------------- chunks of a range

  /** Consecutive chunks of at most `cap` words that tile `start .. start + count`, all full but the last. */
  ghost predicate Tiles(chunks: seq<Block>, start: int, count: int, cap: int) {
    && (forall i :: 0 <= i < |chunks| ==> 1 <= chunks[i].length <= cap)
    && (forall i :: 0 <= i < |chunks| - 1 ==> chunks[i].length == cap)
    && (forall i :: 0 < i < |chunks| ==> chunks[i].start == chunks[i - 1].start + chunks[i - 1].length)
    && (if count <= 0 then chunks == []
        else chunks != [] && chunks[0].start == start
             && chunks[|chunks| - 1].start + chunks[|chunks| - 1].length == start + count)
  }

  /** The chunks themselves: full ones from the front, the rest in the last. */
  function RangePlan(start: int, count: int, cap: int): seq<Block>
    requires cap >= 1
    decreases count
  {
    if count <= 0 then []
    else if count <= cap then [Block(start, count)]
    else [Block(start, cap)] + RangePlan(start + cap, count - cap, cap)
  }

  lemma {:induction false} RangePlanTiles(start: int, count: int, cap: int)
    requires cap >= 1
    ensures Tiles(RangePlan(start, count, cap), start, count, cap)
    decreases count
  {
    if count > cap {
      RangePlanTiles(start + cap, count - cap, cap);
      TilingGrows(RangePlan(start + cap, count - cap, cap), start, count, cap);
    }
  }

  lemma TilingGrows(rest: seq<Block>, start: int, count: int, cap: int)
    requires 1 <= cap < count && Tiles(rest, start + cap, count - cap, cap)
    ensures Tiles([Block(start, cap)] + rest, start, count, cap)
  {
    var chunks := [Block(start, cap)] + rest;
    assert forall i :: 1 <= i < |chunks| ==> chunks[i] == rest[i - 1];
  }

  method ChunkRegisterRange(start: int, count: int, maxBlockSize: Option<int>) returns (chunks: seq<Block>)
    ensures chunks == RangePlan(start, count, RequestCap(maxBlockSize))
  {
    hide RangePlan, RequestCap;
    RangeOfNone(start, count, RequestCap(maxBlockSize));
    if count <= 0 {
      return [];
    }
    var limit := RequestCap(maxBlockSize);
    chunks := [];
    var remaining, current := count, start;
    while remaining > 0
      invariant 0 <= remaining
      invariant chunks + RangePlan(current, remaining, limit) == RangePlan(start, count, limit)
    {
      var chunkLen := Min(remaining, limit);
      RangeStarts(current, remaining, chunkLen, limit);
      RangeAfter(chunks, Block(current, chunkLen), RangePlan(current + chunkLen, remaining - chunkLen, limit));
      chunks := chunks + [Block(current, chunkLen)];
      current := current + chunkLen;
      remaining := remaining - chunkLen;
    }
    RangeOfNone(current, remaining, limit);
  }

  lemma RangeOfNone(start: int, count: int, cap: int)
    requires cap >= 1
    ensures count <= 0 ==> RangePlan(start, count, cap) == []
  {
  }

  lemma RangeStarts(start: int, count: int, chunkLen: int, cap: int)
    requires cap >= 1 && count > 0 && chunkLen == Min(count, cap)
    ensures RangePlan(start, count, cap)
         == [Block(start, chunkLen)] + RangePlan(start + chunkLen, count - chunkLen, cap)
  {
  }

  lemma RangeAfter(done: seq<Block>, chunk: Block, rest: seq<Block>)
    ensures (done + [chunk]) + rest == done + ([chunk] + rest)
  {
  }

  /** A tiling reaches each address of its range through exactly one chunk and none outside it. */
  lemma {:induction false} TilesExactly(chunks: seq<Block>, start: int, count: int, cap: int)
    requires Tiles(chunks, start, count, cap)
    ensures Ordered(chunks)
    ensures forall a :: Reaches(chunks, a) <==> start <= a < start + count
  {
    if 0 < count {
      forall i, j | 0 <= i < j < |chunks| ensures chunks[i].start + chunks[i].length <= chunks[j].start {
        ChunksAscend(chunks, i, j);
      }
      forall i | 0 <= i < |chunks|
        ensures start <= chunks[i].start && chunks[i].start + chunks[i].length <= start + count
      {
        if 0 < i { ChunksAscend(chunks, 0, i); }
        if i < |chunks| - 1 { ChunksAscend(chunks, i, |chunks| - 1); }
      }
      forall a | start <= a < start + count ensures Reaches(chunks, a) {
        var i := 0;
        while !chunks[i].Covers(a)
          invariant 0 <= i < |chunks| && chunks[i].start <= a
          decreases |chunks| - i
        {
          i := i + 1;
        }
      }
    }
  }

  lemma {:induction false} ChunksAscend(chunks: seq<Block>, i: nat, j: nat)
    requires i < j < |chunks|
    requires forall k :: 0 <= k < |chunks| ==> 1 <= chunks[k].length
    requires forall k :: 0 < k < |chunks| ==> chunks[k].start == chunks[k - 1].start + chunks[k - 1].length
    ensures chunks[i].start + chunks[i].length <= chunks[j].start
    decreases j
  {
    if i + 1 < j {
      ChunksAscend(chunks, i, j - 1);
    }
  }

  // ---------------------------------------------------------------- chunks of a payload

  /** A non-empty chunk of at most `cap` words holding what `values` puts at the chunk's own addresses. */
  ghost predicate IsSlice(chunk: WordChunk, start: int, values: seq<int>, cap: int) {
    var offset := chunk.start - start;
    && 1 <= |chunk.words| <= cap
    && 0 <= offset && offset + |chunk.words| <= |values|
    && (forall k :: 0 <= k < |chunk.words| ==> chunk.words[k] == values[offset + k])
  }

  /** Consecutive slices of `values` that begin and end where `values` does. */
  ghost predicate IsChunkPlan(chunks: seq<WordChunk>, start: int, values: seq<int>, cap: int) {
    && (forall i :: 0 <= i < |chunks| ==> IsSlice(chunks[i], start, values, cap))
    && (forall i :: 0 < i < |chunks| ==> chunks[i].start == chunks[i - 1].start + |chunks[i - 1].words|)
    && (if values == [] then chunks == []
        else chunks != [] && chunks[0].start == start
             && chunks[|chunks| - 1].start + |chunks[|chunks| - 1].words| == start + |values|)
  }

  /** The plan itself: full chunks from the front, the rest in the last one. */
  function ChunkPlan(start: int, values: seq<int>, cap: int): seq<WordChunk>
    requires cap >= 1
    decreases |values|
  {
    if values == [] then []
    else if |values| <= cap then [WordChunk(start, values)]
    else [WordChunk(start, values[..cap])] + ChunkPlan(start + cap, values[cap..], cap)
  }

  lemma {:induction false} ChunkPlanIsPlan(start: int, values: seq<int>, cap: int)
    requires cap >= 1
    ensures IsChunkPlan(ChunkPlan(start, values, cap), start, values, cap)
    ensures forall i :: 0 <= i < |ChunkPlan(start, values, cap)| - 1 ==> |ChunkPlan(start, values, cap)[i].words| == cap
    decreases |values|
  {
    if |values| > cap {
      ChunkPlanIsPlan(start + cap, values[cap..], cap);
      PlanGrows(ChunkPlan(start + cap, values[cap..], cap), start, values, cap);
    }
  }

  lemma PlanGrows(rest: seq<WordChunk>, start: int, values: seq<int>, cap: int)
    requires 1 <= cap < |values| && IsChunkPlan(rest, start + cap, values[cap..], cap)
    ensures IsChunkPlan([WordChunk(start, values[..cap])] + rest, start, values, cap)
  {
    var chunks := [WordChunk(start, values[..cap])] + rest;
    forall i | 1 <= i < |chunks| ensures IsSlice(chunks[i], start, values, cap) {
      assert chunks[i] == rest[i - 1] && IsSlice(rest[i - 1], start + cap, values[cap..], cap);
    }
    assert IsSlice(chunks[0], start, values, cap);
  }

  method ChunkRegisterValues(start: int, values: seq<int>, maxBlockSize: Option<int>) returns (chunks: seq<WordChunk>)
    ensures chunks == ChunkPlan(start, values, RequestCap(maxBlockSize))
  {
    if values == [] {
      return [];
    }
    var limit := RequestCap(maxBlockSize);
    chunks := [];
    var offset := 0;
    assert values[0..] == values;
    while offset < |values|
      invariant 0 <= offset
      invariant chunks + PlanFrom(start, values, offset, limit) == ChunkPlan(start, values, limit)
    {
      var chunk := WordChunk(start + offset, values[offset..Min(offset + limit, |values|)]);
      PlanStarts(start, values, offset, offset + limit, limit, chunk);
      ChunkAfter(chunks, chunk, PlanFrom(start, values, offset + limit, limit));
      chunks := chunks + [chunk];
      offset := offset + limit;
    }
  }

  ghost function PlanFrom(start: int, values: seq<int>, offset: nat, cap: int): seq<WordChunk>
    requires cap >= 1
  {
    if offset < |values| then ChunkPlan(start + offset, values[offset..], cap) else []
  }

  lemma PlanStarts(start: int, values: seq<int>, offset: nat, next: nat, cap: int, chunk: WordChunk)
    requires cap >= 1 && offset < |values| && next == offset + cap
    requires chunk == WordChunk(start + offset, values[offset..Min(next, |values|)])
    ensures PlanFrom(start, values, offset, cap) == [chunk] + PlanFrom(start, values, next, cap)
  {
    var rest := values[offset..];
    if |rest| > cap {
      assert rest[..cap] == chunk.words && rest[cap..] == values[next..];
      assert ChunkPlan(start + offset, rest, cap) == [chunk] + ChunkPlan(start + next, values[next..], cap);
    } else {
      assert rest == chunk.words;
      assert ChunkPlan(start + offset, rest, cap) == [chunk] && PlanFrom(start, values, next, cap) == [];
    }
  }

  lemma ChunkAfter(done: seq<WordChunk>, chunk: WordChunk, rest: seq<WordChunk>)
    ensures (done + [chunk]) + rest == done + ([chunk] + rest)
  {
  }

  ghost predicate Carries(chunks: seq<WordChunk>, a: int, word: int) {
    exists i :: 0 <= i < |chunks| && chunks[i].Covers(a) && chunks[i].words[a - chunks[i].start] == word
  }

  lemma {:induction false} PlanAscends(chunks: seq<WordChunk>, start: int, values: seq<int>, cap: int)
    requires IsChunkPlan(chunks, start, values, cap)
    ensures forall i, j :: 0 <= i < j < |chunks| ==> chunks[i].start + |chunks[i].words| <= chunks[j].start
  {
    var blocks := seq(|chunks|, i requires 0 <= i < |chunks| => Block(chunks[i].start, |chunks[i].words|));
    forall i, j | 0 <= i < j < |chunks| ensures chunks[i].start + |chunks[i].words| <= chunks[j].start {
      ChunksAscend(blocks, i, j);
    }
  }

  /** Through any chunk size, word k of the payload is carried to start + k, by one chunk only. */
  lemma {:induction false} PlanCarriesEveryWord(chunks: seq<WordChunk>, start: int, values: seq<int>, cap: int)
    requires IsChunkPlan(chunks, start, values, cap)
    ensures forall i, j :: 0 <= i < j < |chunks| ==> chunks[i].start + |chunks[i].words| <= chunks[j].start
    ensures forall k :: 0 <= k < |values| ==> Carries(chunks, start + k, values[k])
    ensures forall i, a :: 0 <= i < |chunks| && chunks[i].Covers(a) ==> start <= a < start + |values|
  {
    PlanAscends(chunks, start, values, cap);
    forall k | 0 <= k < |values| ensures Carries(chunks, start + k, values[k]) {
      PlanCarriesWord(chunks, start, values, cap, start + k, values[k]);
    }
  }

  lemma PlanCarriesWord(chunks: seq<WordChunk>, start: int, values: seq<int>, cap: int, a: int, word: int)
    requires IsChunkPlan(chunks, start, values, cap)
    requires start <= a < start + |values| && word == values[a - start]
    ensures Carries(chunks, a, word)
  {
    var i := 0;
    while !chunks[i].Covers(a)
      invariant 0 <= i < |chunks| && chunks[i].start <= a
      decreases |chunks| - i
    {
      i := i + 1;
    }
    assert IsSlice(chunks[i], start, values, cap);
  }
}
