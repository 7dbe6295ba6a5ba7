/** Reading tables chunk by chunk, as a function of the device's replies: when values and failures stay apart,
    and how many requests it can take (core/read_batches.py, core/read_bits.py, core/register_groups.py). */
module TableReads {
  import opened Common
  import opened ReadPlanner
  import opened ReadRetry
  import opened ChunkReads

  /** The chunks in order, up to a fault that ends the reading. */
  ghost function ReadBlocks(rd: Reader, t: Table, blocks: seq<Block>, s: Reading): Reading
    requires Positive(blocks)
  {
    if blocks == [] then s
    else
      var before := ReadBlocks(rd, t, blocks[..|blocks| - 1], s);
      if before.fault.Some? then before else rd.ChunkRead(t, blocks[|blocks| - 1], before)
  }

  predicate Positive(blocks: seq<Block>) {
    forall i :: 0 <= i < |blocks| ==> blocks[i].length >= 1
  }

  lemma BlocksSnoc(rd: Reader, t: Table, blocks: seq<Block>, b: Block, s: Reading)
    requires Positive(blocks) && b.length >= 1 && Positive(blocks + [b])
    ensures var before := ReadBlocks(rd, t, blocks, s);
            ReadBlocks(rd, t, blocks + [b], s) == if before.fault.Some? then before else rd.ChunkRead(t, b, before)
  {
    assert (blocks + [b])[..|blocks|] == blocks;
  }

  lemma {:induction false} BlocksFaultEnds(rd: Reader, t: Table, blocks: seq<Block>, more: seq<Block>, s: Reading)
    requires Positive(blocks) && Positive(blocks + more) && ReadBlocks(rd, t, blocks, s).fault.Some?
    ensures ReadBlocks(rd, t, blocks + more, s) == ReadBlocks(rd, t, blocks, s)
    decreases |more|
  {
    if more == [] {
      assert blocks + more == blocks;
    } else {
      var front := more[..|more| - 1];
      assert (blocks + more)[..|blocks + more| - 1] == blocks + front;
      BlocksFaultEnds(rd, t, blocks, front, s);
    }
  }

  /** The chunks of all groups, group after group. */
  function GroupChunks(groups: seq<Block>, cap: int): seq<Block>
    requires cap >= 1
  {
    if groups == [] then []
    else
      var last := groups[|groups| - 1];
      GroupChunks(groups[..|groups| - 1], cap) + RangePlan(last.start, last.length, cap)
  }

  lemma {:induction false} ChunksPositive(groups: seq<Block>, cap: int)
    requires cap >= 1
    ensures Positive(GroupChunks(groups, cap))
  {
    if groups != [] {
      var last := groups[|groups| - 1];
      ChunksPositive(groups[..|groups| - 1], cap);
      RangePlanTiles(last.start, last.length, cap);
    }
  }

  lemma {:induction false} ChunksReach(groups: seq<Block>, cap: int)
    requires cap >= 1
    ensures forall a :: Reaches(GroupChunks(groups, cap), a) <==> Reaches(groups, a)
    decreases |groups|
  {
    if groups != [] {
      var front, last := groups[..|groups| - 1], groups[|groups| - 1];
      var chunks := RangePlan(last.start, last.length, cap);
      ChunksReach(front, cap);
      RangePlanTiles(last.start, last.length, cap);
      TilesExactly(chunks, last.start, last.length, cap);
      ReachesBoth(GroupChunks(front, cap), chunks);
      ReachesMore(front, last);
      assert front + [last] == groups;
    }
  }

  /** The chunks of a group come right after those of the groups before it; `rest` are those of the groups
      behind it. */
  lemma {:induction false} GroupChunksFrom(groups: seq<Block>, i: nat, cap: int) returns (rest: seq<Block>)
    requires cap >= 1 && i < |groups|
    ensures var own := RangePlan(groups[i].start, groups[i].length, cap);
            && GroupChunks(groups[..i + 1], cap) == GroupChunks(groups[..i], cap) + own
            && GroupChunks(groups, cap) == GroupChunks(groups[..i + 1], cap) + rest
    decreases |groups|
  {
    assert groups[..i + 1][..i] == groups[..i];
    if i + 1 == |groups| {
      rest := [];
      assert groups[..i + 1] == groups;
    } else {
      var front, last := groups[..|groups| - 1], groups[|groups| - 1];
      assert front[..i] == groups[..i] && front[..i + 1] == groups[..i + 1];
      rest := GroupChunksFrom(front, i, cap);
      rest := rest + RangePlan(last.start, last.length, cap);
    }
  }

  // ---------------------------------------------------------------- values and failures apart

  ghost predicate Untouched(n: string, s: Reading, r: Reading) {
    (n in r.failed <==> n in s.failed) && (n in r.data <==> n in s.data)
  }

  /** A name that can ever be given a value: some word decodes to one, and it is available or its table has
      the individual fallback, which does not ask. */
  ghost predicate Storable(g: Registry, t: Table, n: string) {
    (n in g.available(t) || !t.IsBits()) && exists word :: g.Decode(t, n, word).Some?
  }

  /** A name without a value got one that it can have, or failed, or neither, but not both. */
  ghost predicate Touched(g: Registry, t: Table, n: string, s: Reading, r: Reading) {
    n !in s.data ==> !(n in r.data && n in r.failed) && (n in r.data ==> Storable(g, t, n))
  }

  /** Only names of the stretch were touched. */
  ghost predicate Local(g: Registry, t: Table, b: Block, s: Reading, r: Reading) {
    forall n :: if g.InBlock(t, b, n) then Touched(g, t, n, s, r) else Untouched(n, s, r)
  }

  lemma LocalFurther(g: Registry, t: Table, start: int, m: int, n: int, s: Reading, q: Reading, r: Reading)
    requires 0 <= m && 0 <= n && Local(g, t, Block(start, m), s, q) && Local(g, t, Block(start + m, n), q, r)
    ensures Local(g, t, Block(start, m + n), s, r)
  {
    hide Storable;
    var first, second := Block(start, m), Block(start + m, n);
    forall x ensures if g.InBlock(t, Block(start, m + n), x) then Touched(g, t, x, s, r) else Untouched(x, s, r) {
      if g.InBlock(t, first, x) {
        assert Touched(g, t, x, s, q) && !g.InBlock(t, second, x);
        assert Untouched(x, q, r);
      } else {
        assert Untouched(x, s, q);
        assert g.InBlock(t, second, x) ==> Touched(g, t, x, q, r);
        assert !g.InBlock(t, second, x) ==> Untouched(x, q, r);
      }
    }
  }

  lemma GivenUpLocal(rd: Reader, t: Table, b: Block, s: Reading, r: Reading)
    requires r.data == s.data && r.failed == rd.GivenUp(t, b, s).failed
    ensures Local(rd.g, t, b, s, r)
  {
  }

  lemma MergedWordLocal(rd: Reader, t: Table, address: int, word: int, s: Reading)
    requires rd.g.Consistent()
    ensures Local(rd.g, t, Block(address, 1), s, rd.MergedWord(t, address, word, s))
  {
    assert InverseMaps(rd.g.maps(t), rd.g.reverse(t));
  }

  lemma OneAddressLocal(rd: Reader, t: Table, address: int, s: Reading)
    requires rd.g.Consistent() && !t.IsBits()
    ensures Local(rd.g, t, Block(address, 1), s, rd.OneAddress(t, address, s))
  {
    assert InverseMaps(rd.g.maps(t), rd.g.reverse(t));
  }

  lemma {:induction false} MergedLocal(rd: Reader, t: Table, start: int, words: seq<int>, s: Reading)
    requires rd.g.Consistent()
    ensures Local(rd.g, t, Block(start, |words|), s, rd.Merged(t, start, words, s))
    decreases |words|
  {
    if words != [] {
      var last := |words| - 1;
      var before := rd.Merged(t, start, words[..last], s);
      MergedLocal(rd, t, start, words[..last], s);
      MergedWordLocal(rd, t, start + last, words[last], before);
      LocalFurther(rd.g, t, start, last, 1, s, before, rd.Merged(t, start, words, s));
    }
  }

  lemma {:induction false} IndividuallyLocal(rd: Reader, t: Table, start: int, n: nat, s: Reading)
    requires rd.g.Consistent() && !t.IsBits()
    ensures Local(rd.g, t, Block(start, n), s, rd.Individually(t, start, n, s))
    decreases n
  {
    hide Local, Reader.OneAddress;
    if n == 0 {
      NothingLocal(rd.g, t, Block(start, 0), s, s);
    } else {
      var before := rd.Individually(t, start, n - 1, s);
      NothingLocal(rd.g, t, Block(start + n - 1, 1), before, before);
      IndividuallyLocal(rd, t, start, n - 1, s);
      OneAddressLocal(rd, t, start + n - 1, before);
      LocalFurther(rd.g, t, start, n - 1, 1, s, before, rd.Individually(t, start, n, s));
    }
  }

  lemma TailLocal(rd: Reader, t: Table, b: Block, received: nat, s: Reading)
    requires rd.g.Consistent() && !t.IsBits() && received < b.length
    ensures Local(rd.g, t, Block(b.start + received, b.length - received), s, rd.TailRead(t, b, received, s))
  {
    IndividuallyLocal(rd, t, b.start + received, b.length - received, s);
    GivenUpLocal(rd, t, Block(b.start + received, b.length - received), s,
                 rd.GivenUp(t, Block(b.start + received, b.length - received), s));
  }

  lemma ReplyLocal(rd: Reader, t: Table, b: Block, words: seq<int>, s: Reading)
    requires rd.g.Consistent() && !t.IsBits() && |words| <= b.length
    ensures Local(rd.g, t, b, s, rd.ReplyRead(t, b, words, s))
  {
    var merged := rd.Merged(t, b.start, words, s);
    MergedLocal(rd, t, b.start, words, s);
    if |words| < b.length {
      TailLocal(rd, t, b, |words|, merged);
      LocalFurther(rd.g, t, b.start, |words|, b.length - |words|, s, merged, rd.ReplyRead(t, b, words, s));
    }
  }

  lemma BitReplyLocal(rd: Reader, t: Table, b: Block, bits: seq<int>, s: Reading)
    requires rd.g.Consistent() && b.length >= 1
    ensures Local(rd.g, t, b, s, rd.BitReplyRead(t, b, bits, s))
  {
    if bits == [] {
      GivenUpLocal(rd, t, b, s, rd.BitReplyRead(t, b, bits, s));
      return;
    }
    var received := Min(b.length, |bits|);
    var merged, rest := rd.Merged(t, b.start, bits[..received], s), Block(b.start + received, b.length - received);
    MergedLocal(rd, t, b.start, bits[..received], s);
    if received < b.length {
      GivenUpLocal(rd, t, rest, merged, rd.GivenUp(t, rest, merged));
      LocalFurther(rd.g, t, b.start, received, rest.length, s, merged, rd.GivenUp(t, rest, merged));
    }
  }

  lemma FaultLocal(rd: Reader, t: Table, b: Block, fault: Fault, s: Reading)
    requires rd.g.Consistent() && b.length >= 1
    ensures !t.IsBits() ==> Local(rd.g, t, b, s, rd.FaultRead(t, b, fault, s))
    ensures Local(rd.g, t, b, s, rd.BitFaultRead(t, b, fault, s))
  {
    hide Local;
    NothingLocal(rd.g, t, b, s, s.(fault := Some(fault)));
    GivenUpLocal(rd, t, b, s, rd.GivenUp(t, b, s));
    GivenUpLocal(rd, t, b, s, rd.GivenUp(t, b, s).(fault := Some(fault)));
    GivenUpLocal(rd, t, b, s, rd.GivenUp(t, b, s).(fault := None));
    if !t.IsBits() {
      IndividuallyLocal(rd, t, b.start, b.length, s);
    }
  }

  lemma NothingLocal(g: Registry, t: Table, b: Block, s: Reading, r: Reading)
    requires r.data == s.data && r.failed == s.failed
    ensures Local(g, t, b, s, r)
    ensures forall q: Reading :: Local(g, t, b, r, q) ==> Local(g, t, b, s, q)
  {
    forall q: Reading | Local(g, t, b, r, q) ensures Local(g, t, b, s, q) {
      forall n ensures if g.InBlock(t, b, n) then Touched(g, t, n, s, q) else Untouched(n, s, q) {
        assert if g.InBlock(t, b, n) then Touched(g, t, n, r, q) else Untouched(n, r, q);
      }
    }
  }

  /** Whatever the device answers, a chunk touches its own names only. */
  lemma ChunkLocal(rd: Reader, t: Table, b: Block, s: Reading)
    requires rd.g.Consistent() && ShortReplies(rd.w) && b.length >= 1
    ensures Local(rd.g, t, b, s, rd.ChunkRead(t, b, s))
  {
    hide Local, Reader.ReplyRead, Reader.BitReplyRead, Reader.FaultRead, Reader.BitFaultRead;
    NothingLocal(rd.g, t, b, s, s);
    if !(rd.Names(t, b) <= s.failed) {
      var run := Attempts(rd.w, t, b.start, b.length, s.calls, s.resets, rd.retry);
      var after := s.(calls := run.calls, resets := run.resets);
      NothingLocal(rd.g, t, b, s, after);
      match run.result {
        case Err(fault) => FaultLocal(rd, t, b, fault, after);
        case Ok(words) =>
          BitReplyLocal(rd, t, b, words, after);
          if !t.IsBits() {
            OkIsAReply(rd.w, t, b.start, b.length, s.calls, s.resets, rd.retry);
            ReplyLocal(rd, t, b, words, after);
          }
      }
    }
  }

  /** Two blocks take in the address of the name. */
  ghost predicate Shared(g: Registry, t: Table, blocks: seq<Block>, n: string) {
    exists i, j :: 0 <= i < j < |blocks| && g.InBlock(t, blocks[i], n) && g.InBlock(t, blocks[j], n)
  }

  ghost predicate NoShared(g: Registry, t: Table, blocks: seq<Block>) {
    forall n :: !Shared(g, t, blocks, n)
  }

  ghost predicate ReachesName(g: Registry, t: Table, blocks: seq<Block>, n: string) {
    exists i :: 0 <= i < |blocks| && g.InBlock(t, blocks[i], n)
  }

  /** The name has a value only if a block reached it and it can have one, and not if it has failed. */
  ghost predicate CleanAt(g: Registry, t: Table, done: seq<Block>, s: Reading, n: string) {
    n in s.data ==> ReachesName(g, t, done, n) && n !in s.failed && Storable(g, t, n)
  }

  /** Where block k of a + b comes from. */
  lemma BlockOfSum(g: Registry, t: Table, a: seq<Block>, b: seq<Block>, n: string, k: nat)
    requires k < |a| + |b|
    ensures g.InBlock(t, (a + b)[k], n) <==> if k < |a| then g.InBlock(t, a[k], n) else g.InBlock(t, b[k - |a|], n)
  {
  }

  lemma ReachedInSum(g: Registry, t: Table, a: seq<Block>, b: seq<Block>, n: string)
    ensures ReachesName(g, t, a + b, n) <==> ReachesName(g, t, a, n) || ReachesName(g, t, b, n)
  {
    if ReachesName(g, t, a + b, n) {
      var k: nat :| k < |a + b| && g.InBlock(t, (a + b)[k], n);
      BlockOfSum(g, t, a, b, n, k);
    }
    if ReachesName(g, t, a, n) {
      var i: nat :| i < |a| && g.InBlock(t, a[i], n);
      BlockOfSum(g, t, a, b, n, i);
    }
    if ReachesName(g, t, b, n) {
      var j: nat :| j < |b| && g.InBlock(t, b[j], n);
      BlockOfSum(g, t, a, b, n, |a| + j);
    }
  }

  lemma SharedAt(g: Registry, t: Table, blocks: seq<Block>, n: string, i: nat, j: nat)
    requires i < j < |blocks| && g.InBlock(t, blocks[i], n) && g.InBlock(t, blocks[j], n)
    ensures Shared(g, t, blocks, n)
  {
  }

  lemma SharedInParts(g: Registry, t: Table, a: seq<Block>, b: seq<Block>, n: string)
    requires Shared(g, t, a + b, n)
    ensures Shared(g, t, a, n) || Shared(g, t, b, n) || (ReachesName(g, t, a, n) && ReachesName(g, t, b, n))
  {
    hide Registry.InBlock;
    var i: nat, j: nat :| i < j < |a + b| && g.InBlock(t, (a + b)[i], n) && g.InBlock(t, (a + b)[j], n);
    BlockOfSum(g, t, a, b, n, i);
    BlockOfSum(g, t, a, b, n, j);
    if j < |a| {
      SharedAt(g, t, a, n, i, j);
    } else if |a| <= i {
      SharedAt(g, t, b, n, i - |a|, j - |a|);
    }
  }

  lemma SharedInSum(g: Registry, t: Table, a: seq<Block>, b: seq<Block>, n: string)
    requires Shared(g, t, a, n) || Shared(g, t, b, n) || (ReachesName(g, t, a, n) && ReachesName(g, t, b, n))
    ensures Shared(g, t, a + b, n)
  {
    hide Registry.InBlock;
    var i: nat, j: nat;
    if Shared(g, t, a, n) {
      i, j :| i < j < |a| && g.InBlock(t, a[i], n) && g.InBlock(t, a[j], n);
    } else if Shared(g, t, b, n) {
      i, j :| i < j < |b| && g.InBlock(t, b[i], n) && g.InBlock(t, b[j], n);
      i, j := |a| + i, |a| + j;
    } else {
      i :| i < |a| && g.InBlock(t, a[i], n);
      j :| j < |b| && g.InBlock(t, b[j], n);
      j := |a| + j;
    }
    BlockOfSum(g, t, a, b, n, i);
    BlockOfSum(g, t, a, b, n, j);
    SharedAt(g, t, a + b, n, i, j);
  }

  lemma SharedSum(g: Registry, t: Table, a: seq<Block>, b: seq<Block>, n: string)
    ensures ReachesName(g, t, a + b, n) <==> ReachesName(g, t, a, n) || ReachesName(g, t, b, n)
    ensures Shared(g, t, a + b, n) <==> Shared(g, t, a, n) || Shared(g, t, b, n)
                                        || (ReachesName(g, t, a, n) && ReachesName(g, t, b, n))
  {
    hide Shared, ReachesName;
    ReachedInSum(g, t, a, b, n);
    if Shared(g, t, a + b, n) {
      SharedInParts(g, t, a, b, n);
    } else if Shared(g, t, a, n) || Shared(g, t, b, n) || (ReachesName(g, t, a, n) && ReachesName(g, t, b, n)) {
      SharedInSum(g, t, a, b, n);
    }
  }

  lemma OneBlock(g: Registry, t: Table, b: Block, n: string)
    ensures ReachesName(g, t, [b], n) <==> g.InBlock(t, b, n)
    ensures !Shared(g, t, [b], n)
  {
    assert [b][0] == b;
  }

  /** A further block that does not take in the name again. */
  lemma CleanFurther(g: Registry, t: Table, done: seq<Block>, b: Block, s: Reading, r: Reading, n: string)
    requires CleanAt(g, t, done, s, n) && Local(g, t, b, s, r)
    requires !(ReachesName(g, t, done, n) && g.InBlock(t, b, n))
    ensures CleanAt(g, t, done + [b], r, n)
  {
    hide Storable;
    SharedSum(g, t, done, [b], n);
    OneBlock(g, t, b, n);
    assert if g.InBlock(t, b, n) then Touched(g, t, n, s, r) else Untouched(n, s, r);
  }

  /** A name that no two blocks share is never both stored and failed, whatever the device answers, and
      stored only if it can have a value. */
  lemma {:induction false} DisjointReads(rd: Reader, t: Table, blocks: seq<Block>, s: Reading, n: string)
    requires rd.g.Consistent() && ShortReplies(rd.w) && Positive(blocks) && s.data == map[]
    requires !Shared(rd.g, t, blocks, n)
    ensures CleanAt(rd.g, t, blocks, ReadBlocks(rd, t, blocks, s), n)
    decreases |blocks|
  {
    hide Local, Storable, Reader.ChunkRead, Shared, ReachesName;
    if blocks != [] {
      var last := |blocks| - 1;
      var front, b := blocks[..last], blocks[last];
      var before := ReadBlocks(rd, t, front, s);
      assert front + [b] == blocks;
      SharedSum(rd.g, t, front, [b], n);
      OneBlock(rd.g, t, b, n);
      DisjointReads(rd, t, front, s, n);
      ChunkLocal(rd, t, b, before);
      NothingLocal(rd.g, t, b, before, before);
      CleanFurther(rd.g, t, front, b, before, ReadBlocks(rd, t, blocks, s), n);
    }
  }

  /** Shared or not, only names that can have a value get one. */
  lemma {:induction false} StoredIsStorable(rd: Reader, t: Table, blocks: seq<Block>, s: Reading, n: string)
    requires rd.g.Consistent() && ShortReplies(rd.w) && Positive(blocks) && n !in s.data
    ensures n in ReadBlocks(rd, t, blocks, s).data ==> Storable(rd.g, t, n)
    decreases |blocks|
  {
    hide Storable, Reader.ChunkRead;
    if blocks != [] {
      var front, b := blocks[..|blocks| - 1], blocks[|blocks| - 1];
      var before := ReadBlocks(rd, t, front, s);
      StoredIsStorable(rd, t, front, s, n);
      ChunkLocal(rd, t, b, before);
      var r := rd.ChunkRead(t, b, before);
      assert if rd.g.InBlock(t, b, n) then Touched(rd.g, t, n, before, r) else Untouched(n, before, r);
    }
  }

  // ---------------------------------------------------------------- groups and their chunks

  lemma OrderedNoShared(g: Registry, t: Table, blocks: seq<Block>)
    requires Ordered(blocks) && Positive(blocks)
    ensures NoShared(g, t, blocks)
  {
  }

  /** Cutting one group into chunks neither adds nor loses names, and shares none. */
  lemma RangeNames(g: Registry, t: Table, b: Block, cap: int, n: string)
    requires cap >= 1
    ensures var chunks := RangePlan(b.start, b.length, cap);
            !Shared(g, t, chunks, n) && (ReachesName(g, t, chunks, n) <==> g.InBlock(t, b, n))
  {
    hide RangePlan;
    var chunks := RangePlan(b.start, b.length, cap);
    RangePlanTiles(b.start, b.length, cap);
    TilesExactly(chunks, b.start, b.length, cap);
    OrderedNoShared(g, t, chunks);
    if g.InBlock(t, b, n) {
      assert Reaches(chunks, g.maps(t)[n]);
      var i :| 0 <= i < |chunks| && chunks[i].Covers(g.maps(t)[n]);
      assert g.InBlock(t, chunks[i], n);
    }
    if ReachesName(g, t, chunks, n) {
      assert Reaches(chunks, g.maps(t)[n]);
    }
  }

  /** The chunks of some groups share a name exactly when the groups do. */
  lemma {:induction false} ChunksShareAsGroups(g: Registry, t: Table, groups: seq<Block>, cap: int, n: string)
    requires cap >= 1
    ensures Shared(g, t, GroupChunks(groups, cap), n) <==> Shared(g, t, groups, n)
    ensures ReachesName(g, t, GroupChunks(groups, cap), n) <==> ReachesName(g, t, groups, n)
    decreases |groups|
  {
    hide RangePlan;
    if groups != [] {
      var front, b := groups[..|groups| - 1], groups[|groups| - 1];
      assert front + [b] == groups;
      ChunksShareAsGroups(g, t, front, cap, n);
      RangeNames(g, t, b, cap, n);
      SharedSum(g, t, GroupChunks(front, cap), RangePlan(b.start, b.length, cap), n);
      SharedSum(g, t, front, [b], n);
      OneBlock(g, t, b, n);
    }
  }

  // ---------------------------------------------------------------- a shared name can be both

  /** A device that answers its first `good` requests in full, always with one word, but for one with
      nothing, and knows no address after that. */
  function TurningDevice(empty: Option<nat>, good: nat, word: int): World {
    World((k: nat, t: Table, a: int, c: int) =>
            if empty == Some(k) then Reply([])
            else if k < good then Reply(seq(if c < 0 then 0 else c, _ => word))
            else ErrorReply(Some(ILLEGAL_DATA_ADDRESS)),
          _ => None, _ => None, _ => false, _ => None, (_, _) => false, (_, _) => true)
  }

  lemma TurningShort(empty: Option<nat>, good: nat, word: int)
    ensures ShortReplies(TurningDevice(empty, good, word))
  {
  }

  /** Requests that reading the blocks takes while all goes well: one for each with a name. */
  ghost function NamedBlocks(g: Registry, t: Table, blocks: seq<Block>): nat {
    if blocks == [] then 0
    else NamedBlocks(g, t, blocks[..|blocks| - 1]) + if HasName(g, t, blocks[|blocks| - 1]) then 1 else 0
  }

  ghost predicate HasName(g: Registry, t: Table, b: Block) {
    exists n :: g.InBlock(t, b, n)
  }

  /** Of the n addresses from start on, those with a name. */
  function NamedAddresses(g: Registry, t: Table, start: int, n: nat): nat {
    if n == 0 then 0
    else NamedAddresses(g, t, start, n - 1) + if g.FindRegisterName(t, start + n - 1).Some? then 1 else 0
  }

  /** Nothing has failed so far, after so many requests. */
  ghost predicate AllGood(s: Reading, calls: nat) {
    s.failed == {} && s.fault.None? && s.calls == calls
  }

  lemma {:induction false} MergedKeeps(rd: Reader, t: Table, start: int, words: seq<int>, s: Reading)
    ensures var r := rd.Merged(t, start, words, s);
            r.failed <= s.failed && r.fault == s.fault && r.calls == s.calls && s.data.Keys <= r.data.Keys
    decreases |words|
  {
    if words != [] {
      MergedKeeps(rd, t, start, words[..|words| - 1], s);
    }
  }

  /** A chunk that is answered in full. */
  lemma GoodChunk(rd: Reader, t: Table, b: Block, s: Reading, empty: Option<nat>, good: nat, word: int)
    requires rd.w == TurningDevice(empty, good, word) && rd.retry >= 1 && rd.g.Consistent() && HasName(rd.g, t, b)
    requires b.length >= 1 && AllGood(s, s.calls) && s.calls < good && empty != Some(s.calls)
    ensures var r := rd.ChunkRead(t, b, s);
            AllGood(r, s.calls + 1) && forall n :: GetsValue(rd.g, t, b, n, word) ==> n in r.data
  {
    var words := seq(b.length, _ => word);
    assert rd.w.answer(s.calls, t, b.start, b.length) == Reply(words);
    var after := s.(calls := s.calls + 1);
    var r := rd.Merged(t, b.start, words, after);
    assert words[..b.length] == words && rd.Names(t, b) != {};
    assert rd.ChunkRead(t, b, s) == r;
    MergedKeeps(rd, t, b.start, words, after);
    forall n | GetsValue(rd.g, t, b, n, word) ensures n in r.data {
      assert InverseMaps(rd.g.maps(t), rd.g.reverse(t));
      rd.MergedAt(t, b.start, words, after, rd.g.maps(t)[n] - b.start, n);
    }
  }

  predicate GetsValue(g: Registry, t: Table, b: Block, n: string, word: int) {
    n in g.available(t) && g.InBlock(t, b, n) && g.Decode(t, n, word).Some?
  }

  /** The individual fallback while every answer is good: one request for each name. */
  lemma {:induction false} GoodSingles(rd: Reader, t: Table, start: int, k: nat, s: Reading, empty: nat, good: nat,
      word: int, n: string)
    requires rd.w == TurningDevice(Some(empty), good, word) && rd.retry >= 1 && rd.g.Consistent()
    requires s.fault.None? && empty < s.calls && s.calls + NamedAddresses(rd.g, t, start, k) <= good
    ensures var r := rd.Individually(t, start, k, s);
            && r.fault.None? && r.calls == s.calls + NamedAddresses(rd.g, t, start, k)
            && (rd.g.InBlock(t, Block(start, k), n) && rd.g.Decode(t, n, word).Some? ==> n in r.data)
    decreases k
  {
    if k > 0 {
      var before := rd.Individually(t, start, k - 1, s);
      GoodSingles(rd, t, start, k - 1, s, empty, good, word, n);
      GoodAddress(rd, t, start + k - 1, before, empty, good, word, n);
    }
  }

  lemma GoodAddress(rd: Reader, t: Table, address: int, s: Reading, empty: nat, good: nat, word: int, n: string)
    requires rd.w == TurningDevice(Some(empty), good, word) && rd.retry >= 1 && rd.g.Consistent()
    requires s.fault.None? && empty < s.calls
    requires rd.g.FindRegisterName(t, address).Some? ==> s.calls < good
    ensures var r := rd.OneAddress(t, address, s);
            && r.fault.None? && r.calls == s.calls + (if rd.g.FindRegisterName(t, address).Some? then 1 else 0)
            && (n in s.data ==> n in r.data)
            && (rd.g.InBlock(t, Block(address, 1), n) && rd.g.Decode(t, n, word).Some? ==> n in r.data)
  {
    assert InverseMaps(rd.g.maps(t), rd.g.reverse(t));
    assert s.calls < good ==> rd.w.answer(s.calls, t, address, 1) == Reply(seq(1, _ => word));
  }

  /** A chunk that gets an empty reply and is then read one by one. */
  lemma EmptyChunk(rd: Reader, t: Table, b: Block, s: Reading, good: nat, word: int, n: string)
    requires rd.w == TurningDevice(Some(s.calls), good, word) && rd.retry >= 1 && rd.g.Consistent() && !t.IsBits()
    requires b.length >= 1 && AllGood(s, s.calls) && rd.g.InBlock(t, b, n) && rd.g.Decode(t, n, word).Some?
    requires good == s.calls + 1 + NamedAddresses(rd.g, t, b.start, b.length)
    ensures var r := rd.ChunkRead(t, b, s);
            r.fault.None? && r.calls == good && n in r.data
  {
    var after := s.(calls := s.calls + 1);
    assert rd.w.answer(s.calls, t, b.start, b.length) == Reply([]);
    assert n in rd.Names(t, b) && Block(b.start, b.length) == b;
    assert rd.ChunkRead(t, b, s) == rd.Individually(t, b.start, b.length, after);
    GoodSingles(rd, t, b.start, b.length, after, s.calls, good, word, n);
  }

  /** A chunk whose addresses the device no longer knows. */
  lemma BadChunk(rd: Reader, t: Table, b: Block, s: Reading, empty: Option<nat>, good: nat, word: int)
    requires rd.w == TurningDevice(empty, good, word) && rd.retry >= 1 && (empty.Some? ==> empty.value < good)
    requires b.length >= 1 && s.fault.None? && s.calls >= good
    ensures var r := rd.ChunkRead(t, b, s);
            && r.data == s.data && r.failed == s.failed + rd.Names(t, b) && r.fault.None? && r.calls >= good
  {
    assert rd.w.answer(s.calls, t, b.start, b.length) == ErrorReply(Some(ILLEGAL_DATA_ADDRESS));
  }

  lemma {:induction false} GoodBlocks(rd: Reader, t: Table, blocks: seq<Block>, s: Reading, empty: Option<nat>,
      good: nat, word: int)
    requires rd.w == TurningDevice(empty, good, word) && rd.retry >= 1 && rd.g.Consistent() && Positive(blocks)
    requires AllGood(s, 0) && NamedBlocks(rd.g, t, blocks) <= good
    requires empty.Some? ==> NamedBlocks(rd.g, t, blocks) <= empty.value
    ensures AllGood(ReadBlocks(rd, t, blocks, s), NamedBlocks(rd.g, t, blocks))
    decreases |blocks|
  {
    if blocks != [] {
      var front, b := blocks[..|blocks| - 1], blocks[|blocks| - 1];
      GoodBlocks(rd, t, front, s, empty, good, word);
      var before := ReadBlocks(rd, t, front, s);
      if HasName(rd.g, t, b) {
        GoodChunk(rd, t, b, before, empty, good, word);
      } else {
        NoNames(rd, t, b);
      }
    }
  }

  lemma NoNames(rd: Reader, t: Table, b: Block)
    requires !HasName(rd.g, t, b)
    ensures rd.Names(t, b) == {}
  {
  }

  lemma {:induction false} BadBlocks(rd: Reader, t: Table, blocks: seq<Block>, more: seq<Block>, s: Reading,
      empty: Option<nat>, good: nat, word: int, n: string)
    requires rd.w == TurningDevice(empty, good, word) && rd.retry >= 1 && (empty.Some? ==> empty.value < good)
    requires Positive(blocks) && Positive(blocks + more)
    requires var q := ReadBlocks(rd, t, blocks, s); q.fault.None? && q.calls >= good && n in q.data
    ensures var r := ReadBlocks(rd, t, blocks + more, s);
            && r.fault.None? && r.calls >= good && n in r.data
            && (ReachesName(rd.g, t, more, n) ==> n in r.failed)
    decreases |more|
  {
    hide ReadBlocks, Reader.ChunkRead, TurningDevice, ReachesName;
    if more == [] {
      assert blocks + more == blocks && !ReachesName(rd.g, t, more, n) by {
        NothingReached(rd.g, t, n);
      }
    } else {
      var last := |more| - 1;
      var front, b := more[..last], more[last];
      assert blocks + more == blocks + front + [b] && more == front + [b];
      assert forall k :: 0 <= k < |blocks + front| ==> (blocks + front)[k] == (blocks + more)[k];
      assert (blocks + more)[|blocks| + last] == b;
      BadBlocks(rd, t, blocks, front, s, empty, good, word, n);
      BlocksSnoc(rd, t, blocks + front, b, s);
      BadChunk(rd, t, b, ReadBlocks(rd, t, blocks + front, s), empty, good, word);
      SharedSum(rd.g, t, front, [b], n);
      OneBlock(rd.g, t, b, n);
    }
  }

  lemma NothingReached(g: Registry, t: Table, n: string)
    ensures !ReachesName(g, t, [], n)
  {
  }

  /** A name that two blocks share, and that can have a value, is both stored and failed by some device. */
  lemma SharedOverlaps(g: Registry, t: Table, blocks: seq<Block>, n: string, retry: nat) returns (w: World)
    requires g.Consistent() && retry >= 1 && Positive(blocks) && Shared(g, t, blocks, n) && Storable(g, t, n)
    ensures ShortReplies(w)
    ensures var r := ReadBlocks(Reader(g, w, retry), t, blocks, Reading(map[], {}, 0, 0, None));
            r.fault.None? && n in r.data && n in r.failed
  {
    hide ReadBlocks, NamedBlocks, NamedAddresses, Reader.ChunkRead, TurningDevice, Local, ShortReplies;
    var i: nat, j: nat :| i < j < |blocks| && g.InBlock(t, blocks[i], n) && g.InBlock(t, blocks[j], n);
    var word :| g.Decode(t, n, word).Some?;
    var s := Reading(map[], {}, 0, 0, None);
    var front, b, more := blocks[..i], blocks[i], blocks[i + 1..];
    var k := NamedBlocks(g, t, front);
    var empty := if n in g.available(t) then None else Some(k);
    var good := k + 1 + if n in g.available(t) then 0 else NamedAddresses(g, t, b.start, b.length);
    w := TurningDevice(empty, good, word);
    var rd := Reader(g, w, retry);
    TurningShort(empty, good, word);
    GoodBlocks(rd, t, front, s, empty, good, word);
    if n in g.available(t) {
      GoodChunk(rd, t, b, ReadBlocks(rd, t, front, s), empty, good, word);
      assert GetsValue(g, t, b, n, word);
    } else {
      EmptyChunk(rd, t, b, ReadBlocks(rd, t, front, s), good, word, n);
    }
    BlocksSnoc(rd, t, front, b, s);
    assert front + [b] + more == blocks && more[j - i - 1] == blocks[j];
    BadBlocks(rd, t, front + [b], more, s, empty, good, word, n);
  }

  /** Whatever the device answers, reading these groups does not leave the name both stored and failed. */
  ghost predicate AlwaysApart(g: Registry, t: Table, groups: seq<Block>, cap: int, retry: nat, n: string)
    requires cap >= 1
  {
    ChunksPositive(groups, cap);
    forall w: World | ShortReplies(w) ::
      NotBoth(ReadBlocks(Reader(g, w, retry), t, GroupChunks(groups, cap), Reading(map[], {}, 0, 0, None)), n)
  }

  ghost predicate NotBoth(s: Reading, n: string) {
    !(n in s.data && n in s.failed)
  }

  /** The exact condition, name by name: over all devices a name is kept from being both stored and failed
      exactly when no two groups take in its address, or it can never have a value. */
  lemma ApartExactly(g: Registry, t: Table, groups: seq<Block>, cap: int, retry: nat, n: string)
    requires g.Consistent() && cap >= 1 && retry >= 1
    ensures AlwaysApart(g, t, groups, cap, retry, n) <==> !(Shared(g, t, groups, n) && Storable(g, t, n))
  {
    hide ReadBlocks, GroupChunks, Shared, Storable, ShortReplies;
    var chunks, s := GroupChunks(groups, cap), Reading(map[], {}, 0, 0, None);
    ChunksPositive(groups, cap);
    ChunksShareAsGroups(g, t, groups, cap, n);
    if Shared(g, t, groups, n) && Storable(g, t, n) {
      var w := SharedOverlaps(g, t, chunks, n, retry);
      assert !NotBoth(ReadBlocks(Reader(g, w, retry), t, chunks, s), n);
    } else {
      forall w: World | ShortReplies(w) ensures NotBoth(ReadBlocks(Reader(g, w, retry), t, chunks, s), n) {
        StoredIsStorable(Reader(g, w, retry), t, chunks, s, n);
        if !Shared(g, t, groups, n) {
          DisjointReads(Reader(g, w, retry), t, chunks, s, n);
        }
      }
    }
  }

  /** The bundled registers have such a pair: lock_pass takes the words 8187 and 8188, and 8188 is the address
      of lock_pass_2. */
  function LockRegisters(): Registry {
    Registry(
      (t: Table) => if t.HoldingRegisters? then map["lock_pass" := 8187, "lock_pass_2" := 8188] else map[],
      (t: Table) => if t.HoldingRegisters? then map[8187 := "lock_pass", 8188 := "lock_pass_2"] else map[],
      (t: Table) => if t.HoldingRegisters? then {"lock_pass", "lock_pass_2"} else {},
      (n: string) => if n == "lock_pass" then Some(2) else None,
      (_: string, word: int) => Some(Number(word)))
  }

  lemma LockPassOverlaps() returns (w: World)
    ensures LockRegisters().Consistent() && ShortReplies(w)
    ensures var groups := [Block(8187, 2), Block(8188, 1)];
            var rd := Reader(LockRegisters(), w, 3);
            var r := ReadBlocks(rd, HoldingRegisters, groups, Reading(map[], {}, 0, 0, None));
            r.fault.None? && "lock_pass_2" in r.data && "lock_pass_2" in r.failed
  {
    var g, groups := LockRegisters(), [Block(8187, 2), Block(8188, 1)];
    SharedAt(g, HoldingRegisters, groups, "lock_pass_2", 0, 1);
    assert g.Decode(HoldingRegisters, "lock_pass_2", 7).Some?;
    w := SharedOverlaps(g, HoldingRegisters, groups, "lock_pass_2", 3);
  }

  // ---------------------------------------------------------------- how many requests

  /** retry requests for each of n. */
  function Budget(retry: nat, n: nat): nat {
    if n == 0 then 0 else Budget(retry, n - 1) + retry
  }

  lemma {:induction false} BudgetSum(retry: nat, m: nat, n: nat)
    ensures Budget(retry, m + n) == Budget(retry, m) + Budget(retry, n)
    decreases n
  {
    if n > 0 {
      BudgetSum(retry, m, n - 1);
    }
  }

  lemma BudgetOne(retry: nat)
    ensures Budget(retry, 0) == 0 && Budget(retry, 1) == retry
  {
  }

  lemma {:induction false} AttemptsBounded(w: World, t: Table, address: int, count: int, calls: nat, resets: nat,
      left: nat)
    ensures calls <= Attempts(w, t, address, count, calls, resets, left).calls <= calls + left
    decreases left
  {
    if left > 0 {
      AttemptsBounded(w, t, address, count, calls + 1, resets, left - 1);
      AttemptsBounded(w, t, address, count, calls + 1, resets + 1, left - 1);
    }
  }

  lemma {:induction false} IndividuallyBounded(rd: Reader, t: Table, start: int, n: nat, s: Reading)
    ensures s.calls <= rd.Individually(t, start, n, s).calls <= s.calls + Budget(rd.retry, n)
    decreases n
  {
    if n > 0 {
      var before := rd.Individually(t, start, n - 1, s);
      IndividuallyBounded(rd, t, start, n - 1, s);
      AttemptsBounded(rd.w, t, start + n - 1, 1, before.calls, before.resets, rd.retry);
    }
  }

  lemma ChunkBounded(rd: Reader, t: Table, b: Block, s: Reading)
    requires b.length >= 1
    ensures s.calls <= rd.ChunkRead(t, b, s).calls <= s.calls + Budget(rd.retry, b.length + 1)
  {
    hide Attempts, Budget, Reader.Individually, Reader.Merged;
    BudgetSum(rd.retry, b.length, 1);
    BudgetOne(rd.retry);
    var run := Attempts(rd.w, t, b.start, b.length, s.calls, s.resets, rd.retry);
    var after := s.(calls := run.calls, resets := run.resets);
    AttemptsBounded(rd.w, t, b.start, b.length, s.calls, s.resets, rd.retry);
    IndividuallyBounded(rd, t, b.start, b.length, after);
    if run.result.Ok? {
      var words := run.result.value;
      MergedKeeps(rd, t, b.start, words, after);
      MergedKeeps(rd, t, b.start, words[..Min(b.length, |words|)], after);
      if |words| < b.length {
        BudgetSum(rd.retry, b.length - |words|, |words|);
        IndividuallyBounded(rd, t, b.start + |words|, b.length - |words|, rd.Merged(t, b.start, words, after));
      }
    }
  }

  /** Blocks and the words they ask for. */
  function Work(blocks: seq<Block>): nat
    requires Positive(blocks)
  {
    if blocks == [] then 0 else Work(blocks[..|blocks| - 1]) + blocks[|blocks| - 1].length + 1
  }

  /** However badly it goes, no more requests than `retry` for each block and each of its words. */
  lemma {:induction false} ReadsAreBounded(rd: Reader, t: Table, blocks: seq<Block>, s: Reading)
    requires Positive(blocks)
    ensures s.calls <= ReadBlocks(rd, t, blocks, s).calls <= s.calls + Budget(rd.retry, Work(blocks))
    decreases |blocks|
  {
    if blocks != [] {
      var front, b := blocks[..|blocks| - 1], blocks[|blocks| - 1];
      ReadsAreBounded(rd, t, front, s);
      ChunkBounded(rd, t, b, ReadBlocks(rd, t, front, s));
      BudgetSum(rd.retry, Work(front), b.length + 1);
    }
  }
}
