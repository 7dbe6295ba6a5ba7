/** Batched reading: register names to blocks to bounded requests, and the answers back to a
    name-to-value map, with individual fallbacks and a failed-register set (core/register_groups.py,
    core/read_batches.py, core/read_bits.py, core/client_registers.py). */
module BatchReads {
  import opened Common
  import opened ReadPlanner
  import opened ReadRetry
  import opened ChunkReads
  import opened TableReads

  // ---------------------------------------------------------------- what reading has achieved

  /** The state reading works on: values, failed names, the words replies have brought, and the client. */
  datatype Progress = Progress(data: map<string, Value>, failed: set<string>, seen: set<Sighting>, client: Option<int>)

  /** What a word says about a name: whether the bit is set for coils and discrete inputs, and what the
      decoder makes of it, if anything, for registers. */
  ghost predicate StandsFor(g: Registry, t: Table, name: string, word: int, value: Option<Value>) {
    match t
    case Coils => value == Some(Flag(word != 0))
    case DiscreteInputs => value == Some(Flag(word != 0))
    case InputRegisters => value == g.process(name, word)
    case HoldingRegisters => value == g.process(name, word)
  }

  /** The value stored for a name is what a word read at the name's own address stands for. */
  ghost predicate Sourced(g: Registry, t: Table, name: string, p: Progress) {
    && name in p.data && name in g.maps(t)
    && exists w :: Sighting(t, g.maps(t)[name], w) in p.seen && StandsFor(g, t, name, w, Some(p.data[name]))
  }

  ghost predicate ReadAsNothing(g: Registry, t: Table, name: string, p: Progress) {
    && name in g.maps(t)
    && exists w :: Sighting(t, g.maps(t)[name], w) in p.seen && StandsFor(g, t, name, w, None)
  }

  ghost predicate Settled(g: Registry, t: Table, name: string, p: Progress) {
    name in p.data || name in p.failed || ReadAsNothing(g, t, name, p)
  }

  /** Nothing about a name has changed but what has been seen. */
  ghost predicate Same(name: string, p: Progress, q: Progress) {
    && (name in q.failed <==> name in p.failed)
    && (name in q.data <==> name in p.data)
    && (name in q.data ==> q.data[name] == p.data[name])
  }

  /** One stretch of addresses has been dealt with: its available names are settled, a name that had no
      value ends up with a value or failed but not both, and no other name was touched. */
  ghost predicate Advanced(g: Registry, t: Table, b: Block, p: Progress, q: Progress) {
    && p.seen <= q.seen
    && (forall n :: !g.InBlock(t, b, n) ==> Same(n, p, q))
    && (forall n :: g.InBlock(t, b, n) ==> NameAdvanced(g, t, n, p, q))
  }

  ghost predicate NameAdvanced(g: Registry, t: Table, n: string, p: Progress, q: Progress) {
    && (n in p.data ==> n in q.data)
    && (n in p.failed ==> n in q.failed || n in q.data)
    && (n in q.data ==> Sourced(g, t, n, q) || (n in p.data && q.data[n] == p.data[n]))
    && (n in g.available(t) ==> Settled(g, t, n, q))
    && (n !in p.data ==> !(n in q.data && n in q.failed))
  }

  lemma AdvancedNowhere(g: Registry, t: Table, start: int, p: Progress)
    ensures Advanced(g, t, Block(start, 0), p, p)
  {
  }

  /** Adjacent stretches add up. */
  lemma AdvancedFurther(g: Registry, t: Table, start: int, m: int, n: int, p: Progress, q: Progress, r: Progress)
    requires g.Consistent() && 0 <= m && 0 <= n
    requires Advanced(g, t, Block(start, m), p, q) && Advanced(g, t, Block(start + m, n), q, r)
    ensures Advanced(g, t, Block(start, m + n), p, r)
  {
    var whole, first, second := Block(start, m + n), Block(start, m), Block(start + m, n);
    forall x | !g.InBlock(t, whole, x) ensures Same(x, p, r) {
      assert !g.InBlock(t, first, x) && !g.InBlock(t, second, x);
      assert Same(x, p, q) && Same(x, q, r);
    }
    forall x | g.InBlock(t, whole, x) ensures NameAdvanced(g, t, x, p, r) {
      if g.InBlock(t, first, x) {
        assert !g.InBlock(t, second, x) && Same(x, q, r);
        assert NameAdvanced(g, t, x, p, q);
      } else {
        assert g.InBlock(t, second, x) && Same(x, p, q);
        assert NameAdvanced(g, t, x, q, r);
      }
    }
  }

  /** Giving up on a stretch: all its names join the failed set. */
  lemma MarkedAdvances(g: Registry, t: Table, b: Block, p: Progress, names: set<string>)
    requires forall n :: n in names <==> g.InBlock(t, b, n)
    ensures Advanced(g, t, b, p, p.(failed := p.failed + names))
  {
  }

  /** A word arrived for one address. */
  function Took(g: Registry, t: Table, name: string, word: int, p: Progress): Progress {
    var value := g.Decode(t, name, word);
    if value.Some? then p.(data := p.data[name := value.value], failed := p.failed - {name}) else p
  }

  lemma TookAdvances(g: Registry, t: Table, name: string, word: int, p: Progress)
    requires g.Consistent() && name in g.maps(t) && Sighting(t, g.maps(t)[name], word) in p.seen
    ensures Advanced(g, t, Block(g.maps(t)[name], 1), p, Took(g, t, name, word, p))
  {
    var q := Took(g, t, name, word, p);
    forall n | g.InBlock(t, Block(g.maps(t)[name], 1), n) ensures NameAdvanced(g, t, n, p, q) {
      assert n == name by {
        assert InverseMaps(g.maps(t), g.reverse(t));
      }
    }
  }

  /** An address without an available name. */
  lemma NobodyAdvances(g: Registry, t: Table, address: int, p: Progress)
    requires g.Consistent()
    requires var name := g.FindRegisterName(t, address); name.None? || name.value !in g.available(t)
    ensures Advanced(g, t, Block(address, 1), p, p)
  {
    assert InverseMaps(g.maps(t), g.reverse(t));
  }

  /** A single name failed. */
  lemma FailedAdvances(g: Registry, t: Table, name: string, p: Progress)
    requires g.Consistent() && name in g.maps(t)
    ensures Advanced(g, t, Block(g.maps(t)[name], 1), p, p.(failed := p.failed + {name}))
  {
    assert InverseMaps(g.maps(t), g.reverse(t));
  }

  lemma SeenMoreAdvances(g: Registry, t: Table, b: Block, p: Progress, q: Progress, r: Progress)
    requires p.data == q.data && p.failed == q.failed && p.seen <= q.seen && Advanced(g, t, b, q, r)
    ensures Advanced(g, t, b, p, r)
  {
    forall n | !g.InBlock(t, b, n) ensures Same(n, p, r) {
      assert Same(n, q, r);
    }
    forall n | g.InBlock(t, b, n) ensures NameAdvanced(g, t, n, p, r) {
      assert NameAdvanced(g, t, n, q, r);
    }
  }

  // ---------------------------------------------------------------- several stretches

  /** The stretches in `done` have been read, from p (without values) to q. */
  ghost predicate TableRead(g: Registry, t: Table, done: seq<Block>, p: Progress, q: Progress) {
    && p.seen <= q.seen
    && (forall n :: n !in g.maps(t) ==> (n in q.failed <==> n in p.failed))
    && (forall n :: n in p.failed ==> n in q.failed || n in q.data)
    && (forall n :: n in q.data ==> Sourced(g, t, n, q))
    && (forall i, n :: 0 <= i < |done| && g.InBlock(t, done[i], n) && n in g.available(t) ==> Settled(g, t, n, q))
  }

  lemma TableReadFurther(g: Registry, t: Table, done: seq<Block>, b: Block, p: Progress, q: Progress, r: Progress)
    requires TableRead(g, t, done, p, q) && Advanced(g, t, b, q, r)
    ensures TableRead(g, t, done + [b], p, r)
  {
    forall n | n !in g.maps(t) ensures n in r.failed <==> n in p.failed {
      assert !g.InBlock(t, b, n) && Same(n, q, r);
    }
    forall n | n in p.failed ensures n in r.failed || n in r.data {
      if g.InBlock(t, b, n) {
        assert NameAdvanced(g, t, n, q, r);
      } else {
        assert Same(n, q, r);
      }
    }
    forall n | n in r.data ensures Sourced(g, t, n, r) {
      if g.InBlock(t, b, n) {
        assert NameAdvanced(g, t, n, q, r);
      } else {
        assert Same(n, q, r);
      }
    }
    forall i, n | 0 <= i < |done| + 1 && g.InBlock(t, (done + [b])[i], n) && n in g.available(t)
      ensures Settled(g, t, n, r)
    {
      if g.InBlock(t, b, n) {
        assert NameAdvanced(g, t, n, q, r);
      } else {
        assert g.InBlock(t, done[i], n) && Same(n, q, r);
      }
    }
  }

  lemma SettledEverywhere(g: Registry, t: Table, done: seq<Block>, p: Progress, q: Progress)
    requires TableRead(g, t, done, p, q)
    requires forall n :: n in g.available(t) && n in g.maps(t) ==> Reaches(done, g.maps(t)[n])
    ensures forall n :: n in g.available(t) && n in g.maps(t) ==> Settled(g, t, n, q)
  {
    forall n | n in g.available(t) && n in g.maps(t) ensures Settled(g, t, n, q) {
      var i :| 0 <= i < |done| && done[i].Covers(g.maps(t)[n]);
      assert g.InBlock(t, done[i], n);
    }
  }

  /** All that reading each register alone would give: for each available mapped name what the word at its
      address stands for, if anything. */
  ghost predicate IsReadAlone(g: Registry, t: Table, memory: (Table, int) -> int, data: map<string, Value>) {
    forall n :: if n in g.available(t) && n in g.maps(t)
                then StandsFor(g, t, n, memory(t, g.maps(t)[n]), if n in data then Some(data[n]) else None)
                else n !in data
  }

  lemma ReadAloneUnique(g: Registry, t: Table, memory: (Table, int) -> int,
      d: map<string, Value>, e: map<string, Value>)
    requires IsReadAlone(g, t, memory, d) && IsReadAlone(g, t, memory, e)
    ensures d == e
  {
    assert forall n :: n in d <==> n in e;
  }

  /** range(first, first + length) */
  function AddressRun(first: int, length: nat): seq<int> {
    seq(length, i => first + i)
  }

  lemma RunAppended(before: seq<int>, first: int, length: nat)
    ensures forall a :: a in Elements(before + AddressRun(first, length)) <==>
            a in Elements(before) || first <= a < first + length
  {
    var run := AddressRun(first, length);
    forall a ensures a in before + run <==> a in before || first <= a < first + length {
      if first <= a < first + length {
        assert run[a - first] == a;
      }
    }
  }

  ghost predicate SeesMemory(memory: (Table, int) -> int, seen: set<Sighting>) {
    forall s :: s in seen ==> s.word == memory(s.table, s.address)
  }

  lemma SteadyReadIsReadAlone(g: Registry, t: Table, memory: (Table, int) -> int, done: seq<Block>,
      p: Progress, q: Progress)
    requires TableRead(g, t, done, p, q) && SeesMemory(memory, q.seen)
    requires forall n :: n in q.data ==> n in g.available(t)
    requires forall n :: n in g.maps(t) ==> n !in q.failed
    requires forall n :: n in g.available(t) && n in g.maps(t) ==> Reaches(done, g.maps(t)[n])
    ensures IsReadAlone(g, t, memory, q.data)
  {
    SettledEverywhere(g, t, done, p, q);
    forall n | n in g.available(t) && n in g.maps(t)
      ensures StandsFor(g, t, n, memory(t, g.maps(t)[n]), if n in q.data then Some(q.data[n]) else None)
    {
      assert Settled(g, t, n, q) && (n in q.data ==> Sourced(g, t, n, q));
    }
    assert forall n :: n in q.data ==> Sourced(g, t, n, q);
  }

  // ---------------------------------------------------------------- assumptions about the device

  /** A device without faults whose memory does not change, over a connection that stays up. */
  ghost predicate Steady(w: World, memory: (Table, int) -> int) {
    && (forall k, t, a, c :: 1 <= c ==> FullReply(w.answer(k, t, a, c), memory, t, a, c))
    && (forall k, h :: w.clientUp(k, h))
  }

  ghost predicate FullReply(answer: Answer, memory: (Table, int) -> int, t: Table, a: int, c: int) {
    && answer.Reply? && c <= |answer.words| && (!t.IsBits() ==> |answer.words| == c)
    && forall i :: 0 <= i < c ==> answer.words[i] == memory(t, a + i)
  }

  class DeviceClient {
    const g: Registry
    const link: Link
    const effectiveBatch: int
    const safeScan: bool

    // the memory of a steady device
    ghost const memory: (Table, int) -> int

    var registerGroups: map<Table, seq<Block>>
    var failed: set<string>

    ghost predicate Valid()
      reads this
    {
      g.Consistent() && effectiveBatch >= 1 && link.retry >= 1 && ShortReplies(link.world)
    }

    ghost predicate IsSteady() {
      Steady(link.world, memory)
    }

    function Spec(): Reader {
      Reader(g, link.world, link.retry)
    }

    ghost function At(data: map<string, Value>): Progress
      reads this, link
    {
      Progress(data, failed, link.seen, link.client)
    }

    constructor (g: Registry, link: Link, effectiveBatch: int, safeScan: bool, ghost memory: (Table, int) -> int)
      requires g.Consistent() && effectiveBatch >= 1 && link.retry >= 1 && ShortReplies(link.world)
      ensures Valid() && this.g == g && this.link == link && this.effectiveBatch == effectiveBatch
      ensures this.safeScan == safeScan && registerGroups == map[] && failed == {} && this.memory == memory
    {
      this.g, this.link, this.effectiveBatch, this.safeScan := g, link, effectiveBatch, safeScan;
      registerGroups, failed, this.memory := map[], {}, memory;
    }

    // -------------------------------------------------------------- what one chunk does

    ghost function Now(data: map<string, Value>): Reading
      reads this, link
    {
      Reading(data, failed, link.calls, link.resets, None)
    }

    /** A method that was to bring about reading s, and returned r, has done so. */
    ghost predicate Reached(r: Result<map<string, Value>, Fault>, s: Reading)
      reads this, link
    {
      && failed == s.failed && link.calls == s.calls && link.resets == s.resets
      && r == if s.fault.Some? then Err(s.fault.value) else Ok(s.data)
    }

    // -------------------------------------------------------------- one chunk

    /** Names at the addresses of a chunk. */
    function NamesAt(t: Table, b: Block): (names: seq<Option<string>>)
      requires b.length >= 0
      ensures |names| == b.length
      ensures forall i :: 0 <= i < |names| ==> names[i] == g.FindRegisterName(t, b.start + i)
    {
      seq(b.length, i requires 0 <= i < b.length => g.FindRegisterName(t, b.start + i))
    }

    lemma NamesFound(t: Table, b: Block, marked: set<string>)
      requires Valid() && b.length >= 0
      requires forall n :: n in marked <==> Some(n) in NamesAt(t, b)
      ensures marked == Spec().Names(t, b)
    {
      assert InverseMaps(g.maps(t), g.reverse(t));
      forall n | g.InBlock(t, b, n) ensures n in marked {
        assert NamesAt(t, b)[g.maps(t)[n] - b.start] == Some(n);
      }
    }

    method MarkRegistersFailed(t: Table, b: Block, ghost data: map<string, Value>)
      requires Valid() && b.length >= 0
      modifies this`failed
      ensures Advanced(g, t, b, old(At(data)), At(data))
      ensures failed == old(failed) + Spec().Names(t, b)
    {
      var names := NamesAt(t, b);
      ghost var marked := set i | 0 <= i < |names| && names[i].Some? :: names[i].value;
      failed := failed + set i | 0 <= i < |names| && names[i].Some? :: names[i].value;
      NamesFound(t, b, marked);
      MarkedAdvances(g, t, b, old(At(data)), marked);
    }

    /** The request and its retries; a steady device answers the first one. */
    method Request(t: Table, b: Block) returns (r: Result<seq<int>, Fault>)
      requires Valid() && b.length >= 1
      modifies link
      ensures Run(r, link.calls, link.resets)
           == Attempts(link.world, t, b.start, b.length, old(link.calls), old(link.resets), link.retry)
      ensures link.seen == old(link.seen) + if r.Ok? then Sightings(t, b.start, b.length, r.value) else {}
      ensures r.Ok? && !t.IsBits() ==> |r.value| <= b.length
      ensures IsSteady() ==> r.Ok? && FullReply(Reply(r.value), memory, t, b.start, b.length)
      ensures IsSteady() ==> SteadySights(old(link.seen), link.seen) && link.client == old(link.client)
    {
      ghost var calls, resets := link.calls, link.resets;
      r := link.ReadWithRetry(t, b.start, b.length);
      if r.Ok? {
        OkIsAReply(link.world, t, b.start, b.length, calls, resets, link.retry);
      }
      if IsSteady() {
        assert FullReply(link.world.answer(calls, t, b.start, b.length), memory, t, b.start, b.length);
      }
    }

    /** One word of a reply, for the available name at its address if there is one. */
    method MergeWord(t: Table, address: int, word: int, data: map<string, Value>) returns (out: map<string, Value>)
      requires Valid() && Sighting(t, address, word) in link.seen
      modifies this`failed
      ensures Advanced(g, t, Block(address, 1), old(At(data)), At(out)) && SteadyStep(t, old(At(data)), At(out))
      ensures Now(out) == Spec().MergedWord(t, address, word, old(Now(data)))
    {
      ghost var before := At(data);
      out := data;
      var name := g.FindRegisterName(t, address);
      if name.Some? && name.value in g.available(t) {
        assert InverseMaps(g.maps(t), g.reverse(t));
        var value := g.Decode(t, name.value, word);
        if value.Some? {
          out := out[name.value := value.value];
          failed := failed - {name.value};
        }
        TookAdvances(g, t, name.value, word, before);
      } else {
        NobodyAdvances(g, t, address, before);
      }
    }

    /** Store the words of a reply under the available names at their addresses. */
    method MergeBatchReadResults(t: Table, start: int, words: seq<int>, data: map<string, Value>)
      returns (out: map<string, Value>)
      requires Valid()
      requires forall i :: 0 <= i < |words| ==> Sighting(t, start + i, words[i]) in link.seen
      modifies this`failed
      ensures Advanced(g, t, Block(start, |words|), old(At(data)), At(out))
      ensures SteadyStep(t, old(At(data)), At(out))
      ensures Now(out) == Spec().Merged(t, start, words, old(Now(data)))
    {
      out := data;
      ghost var first, reading := At(data), Now(data);
      AdvancedNowhere(g, t, start, first);
      for i := 0 to |words|
        invariant Advanced(g, t, Block(start, i), first, At(out)) && SteadyStep(t, first, At(out))
        invariant Now(out) == Spec().Merged(t, start, words[..i], reading)
      {
        ghost var before := At(out);
        assert words[..i + 1][..i] == words[..i];
        out := MergeWord(t, start + i, words[i], out);
        AdvancedFurther(g, t, start, i, 1, first, before, At(out));
        SteadyStepAfter(t, first, before, At(out));
      }
      assert words[..|words|] == words;
    }

    /** One named address of the individual fallback. A lost connection ends a holding read; for input
        registers it only fails the name. */
    method ReadOne(t: Table, address: int, name: string, data: map<string, Value>)
      returns (r: Result<map<string, Value>, Fault>)
      requires Valid() && !t.IsBits() && name in g.maps(t) && g.maps(t)[name] == address
      modifies this`failed, link
      ensures r.Ok? ==> Advanced(g, t, Block(address, 1), old(At(data)), At(r.value))
      ensures Reached(r, Spec().OneAlone(t, address, name, old(Now(data))))
      ensures r.Err? ==> Escapes(t, r.error)
    {
      ghost var before := At(data);
      var single := Request(t, Block(address, 1));
      ghost var informed := At(data);
      if single.Err? && (single.error == Unlisted || (single.error == ConnectionLost && t.HoldingRegisters?)) {
        return Err(single.error);
      }
      var out := data;
      if single.Ok? && single.value != [] && g.Decode(t, name, single.value[0]).Some? {
        out := data[name := g.Decode(t, name, single.value[0]).value];
        failed := failed - {name};
        assert Sighting(t, address + 0, single.value[0]) in link.seen;
        TookAdvances(g, t, name, single.value[0], informed);
      } else {
        failed := failed + {name};
        FailedAdvances(g, t, name, informed);
      }
      SeenMoreAdvances(g, t, Block(address, 1), before, informed, At(out));
      r := Ok(out);
    }

    /** An address of the fallback, if it has a name. */
    method ReadAddress(t: Table, address: int, name: Option<string>, data: map<string, Value>)
      returns (r: Result<map<string, Value>, Fault>)
      requires Valid() && !t.IsBits() && name == g.FindRegisterName(t, address)
      modifies this`failed, link
      ensures r.Ok? ==> Advanced(g, t, Block(address, 1), old(At(data)), At(r.value))
      ensures Reached(r, Spec().OneAddress(t, address, old(Now(data))))
      ensures r.Err? ==> Escapes(t, r.error)
    {
      if name.None? {
        NobodyAdvances(g, t, address, At(data));
        return Ok(data);
      }
      assert InverseMaps(g.maps(t), g.reverse(t));
      r := ReadOne(t, address, name.value, data);
    }

    /** Read the named addresses of a stretch one by one. */
    method ReadIndividually(t: Table, b: Block, data: map<string, Value>) returns (r: Result<map<string, Value>, Fault>)
      requires Valid() && !t.IsBits() && b.length >= 0
      modifies this`failed, link
      ensures r.Ok? ==> Advanced(g, t, b, old(At(data)), At(r.value))
      ensures Reached(r, Spec().Individually(t, b.start, b.length, old(Now(data))))
      ensures r.Err? ==> Escapes(t, r.error)
    {
      hide Advanced, Reader.OneAddress;
      var names := NamesAt(t, b);
      var out := data;
      ghost var first, start := At(data), Now(data);
      AdvancedNowhere(g, t, b.start, first);
      for i := 0 to b.length
        invariant Advanced(g, t, Block(b.start, i), first, At(out))
        invariant Now(out) == Spec().Individually(t, b.start, i, start)
      {
        ghost var before, reading := At(out), Now(out);
        var next := ReadAddress(t, b.start + i, names[i], out);
        assert Spec().Individually(t, b.start, i + 1, start) == Spec().OneAddress(t, b.start + i, reading);
        if next.Err? {
          Spec().FaultEnds(t, b.start, i + 1, b.length, start);
          return next;
        }
        out := next.value;
        AdvancedFurther(g, t, b.start, i, 1, first, before, At(out));
      }
      r := Ok(out);
    }

    predicate AllFailed(names: seq<Option<string>>)
      reads this
    {
      forall i :: 0 <= i < |names| && names[i].Some? ==> names[i].value in failed
    }

    lemma AllNamesFailed(t: Table, b: Block)
      requires Valid() && b.length >= 0
      ensures AllFailed(NamesAt(t, b)) <==> Spec().Names(t, b) <= failed
    {
      assert InverseMaps(g.maps(t), g.reverse(t));
      var names := NamesAt(t, b);
      forall n | g.InBlock(t, b, n) ensures Some(n) in names {
        assert names[g.maps(t)[n] - b.start] == Some(n);
      }
      forall i | 0 <= i < |names| && names[i].Some? ensures g.InBlock(t, b, names[i].value) {
      }
    }

    lemma SkippingAdvances(t: Table, b: Block, data: map<string, Value>)
      requires Valid() && b.length >= 0 && AllFailed(NamesAt(t, b))
      ensures Advanced(g, t, b, At(data), At(data))
    {
      assert InverseMaps(g.maps(t), g.reverse(t));
      forall n | g.InBlock(t, b, n) ensures n in failed {
        assert NamesAt(t, b)[g.maps(t)[n] - b.start] == Some(n);
      }
    }

    /** A reply that was cut short after `received` words: holding registers, and input registers of an
        empty reply, are read one by one; the rest of a partial input reply is given up. */
    method HandleBatchReadFailure(t: Table, b: Block, received: nat, data: map<string, Value>)
      returns (r: Result<map<string, Value>, Fault>)
      requires Valid() && !t.IsBits() && received < b.length
      modifies this`failed, link
      ensures r.Ok? ==> Advanced(g, t, Block(b.start + received, b.length - received), old(At(data)), At(r.value))
      ensures Reached(r, Spec().TailRead(t, b, received, old(Now(data))))
      ensures r.Err? ==> Escapes(t, r.error)
    {
      var tail := Block(b.start + received, b.length - received);
      if received == 0 || t.HoldingRegisters? {
        r := ReadIndividually(t, tail, data);
      } else {
        MarkRegistersFailed(t, tail, data);
        r := Ok(data);
      }
    }

    /** A request that failed for good. */
    method HandleRequestFault(t: Table, b: Block, fault: Fault, data: map<string, Value>)
      returns (r: Result<map<string, Value>, Fault>)
      requires Valid() && !t.IsBits() && b.length >= 1
      modifies this`failed, link
      ensures r.Ok? ==> Advanced(g, t, b, old(At(data)), At(r.value))
      ensures Reached(r, Spec().FaultRead(t, b, fault, old(Now(data))))
      ensures r.Err? ==> Escapes(t, r.error)
    {
      if fault in {ConnectionLost, Unlisted} {
        r := Err(fault);
      } else if fault == Permanent || t.InputRegisters? {
        MarkRegistersFailed(t, b, data);
        r := Ok(data);
      } else {
        r := ReadIndividually(t, b, data);
      }
    }

    /** A reply to a word request: merge what came, then deal with what is missing. */
    method StoreReply(t: Table, b: Block, words: seq<int>, data: map<string, Value>)
      returns (r: Result<map<string, Value>, Fault>)
      requires Valid() && !t.IsBits() && |words| <= b.length
      requires forall i :: 0 <= i < |words| ==> Sighting(t, b.start + i, words[i]) in link.seen
      modifies this`failed, link
      ensures r.Ok? ==> Advanced(g, t, b, old(At(data)), At(r.value))
      ensures |words| == b.length ==> r.Ok? && SteadyStep(t, old(At(data)), At(r.value))
      ensures Reached(r, Spec().ReplyRead(t, b, words, old(Now(data))))
      ensures r.Err? ==> Escapes(t, r.error)
    {
      var received := |words|;
      var merged := MergeBatchReadResults(t, b.start, words, data);
      r := Ok(merged);
      if received < b.length {
        ghost var halfway := At(merged);
        r := HandleBatchReadFailure(t, b, received, merged);
        if r.Ok? {
          AdvancedFurther(g, t, b.start, received, b.length - received, old(At(data)), halfway, At(r.value));
        }
      }
    }

    /** One chunk of words. */
    method ReadWordChunk(t: Table, b: Block, data: map<string, Value>) returns (r: Result<map<string, Value>, Fault>)
      requires Valid() && !t.IsBits() && b.length >= 1
      modifies this`failed, link
      ensures r.Ok? ==> Advanced(g, t, b, old(At(data)), At(r.value))
      ensures IsSteady() ==> r.Ok? && SteadyStep(t, old(At(data)), At(r.value))
      ensures Reached(r, Spec().ChunkRead(t, b, old(Now(data))))
      ensures r.Err? ==> Escapes(t, r.error)
    {
      var names := NamesAt(t, b);
      AllNamesFailed(t, b);
      if AllFailed(names) {
        SkippingAdvances(t, b, data);
        return Ok(data);
      }
      ghost var before := At(data);
      var reply := Request(t, b);
      ghost var informed := At(data);
      if reply.Err? {
        r := HandleRequestFault(t, b, reply.error, data);
      } else {
        r := StoreReply(t, b, reply.value, data);
        if IsSteady() {
          SteadyStepAfter(t, before, informed, At(r.value));
        }
      }
      if r.Ok? {
        SeenMoreAdvances(g, t, b, before, informed, At(r.value));
      }
    }

    /** A reply to a bit request, cut to the request. */
    method StoreBits(t: Table, b: Block, bits: seq<int>, data: map<string, Value>) returns (out: map<string, Value>)
      requires Valid() && |bits| <= b.length
      requires forall i :: 0 <= i < |bits| ==> Sighting(t, b.start + i, bits[i]) in link.seen
      modifies this`failed
      ensures Advanced(g, t, b, old(At(data)), At(out))
      ensures |bits| == b.length ==> SteadyStep(t, old(At(data)), At(out))
      ensures var merged := Spec().Merged(t, b.start, bits, old(Now(data)));
              Now(out) == if |bits| == b.length then merged
                          else Spec().GivenUp(t, Block(b.start + |bits|, b.length - |bits|), merged)
    {
      ghost var first := At(data);
      var received := |bits|;
      out := MergeBatchReadResults(t, b.start, bits, data);
      if received == b.length {
        return;
      }
      ghost var halfway := At(out);
      var missing := Block(b.start + received, b.length - received);
      MarkRegistersFailed(t, missing, out);
      AdvancedFurther(g, t, b.start, received, missing.length, first, halfway, At(out));
    }

    /** What came of a bit request: anything past the request is padding, and only a permanent error is
        survived. */
    method HandleBitReply(t: Table, b: Block, reply: Result<seq<int>, Fault>, data: map<string, Value>)
      returns (r: Result<map<string, Value>, Fault>)
      requires Valid() && b.length >= 1
      requires reply.Ok? ==> forall i :: 0 <= i < b.length && i < |reply.value| ==>
              Sighting(t, b.start + i, reply.value[i]) in link.seen
      modifies this`failed
      ensures r.Ok? ==> Advanced(g, t, b, old(At(data)), At(r.value))
      ensures reply.Ok? && |reply.value| >= b.length ==> r.Ok? && SteadyStep(t, old(At(data)), At(r.value))
      ensures Reached(r, if reply.Ok? then Spec().BitReplyRead(t, b, reply.value, old(Now(data)))
                         else Spec().BitFaultRead(t, b, reply.error, old(Now(data))))
      ensures r.Err? && t.IsBits() ==> Escapes(t, r.error)
    {
      if reply == Err(Unlisted) {
        return Err(Unlisted);
      }
      if reply.Err? || reply.value == [] {
        MarkRegistersFailed(t, b, data);
        return if reply.Ok? then Err(PlainModbus) else if reply.error == Permanent then Ok(data) else Err(reply.error);
      }
      var out := StoreBits(t, b, reply.value[..Min(b.length, |reply.value|)], data);
      r := Ok(out);
    }

    /** One chunk of coils or discrete inputs. */
    method ReadBitChunk(t: Table, b: Block, data: map<string, Value>) returns (r: Result<map<string, Value>, Fault>)
      requires Valid() && t.IsBits() && b.length >= 1
      modifies this`failed, link
      ensures r.Ok? ==> Advanced(g, t, b, old(At(data)), At(r.value))
      ensures IsSteady() ==> r.Ok? && SteadyStep(t, old(At(data)), At(r.value))
      ensures Reached(r, Spec().ChunkRead(t, b, old(Now(data))))
      ensures r.Err? ==> Escapes(t, r.error)
    {
      var names := NamesAt(t, b);
      AllNamesFailed(t, b);
      if AllFailed(names) {
        SkippingAdvances(t, b, data);
        return Ok(data);
      }
      ghost var before := At(data);
      var reply := Request(t, b);
      ghost var informed := At(data);
      r := HandleBitReply(t, b, reply, data);
      if r.Ok? {
        SeenMoreAdvances(g, t, b, before, informed, At(r.value));
      }
      if IsSteady() {
        SteadyStepAfter(t, before, informed, At(r.value));
      }
    }

    method ReadChunk(t: Table, b: Block, data: map<string, Value>) returns (r: Result<map<string, Value>, Fault>)
      requires Valid() && b.length >= 1
      modifies this`failed, link
      ensures r.Ok? ==> Advanced(g, t, b, old(At(data)), At(r.value))
      ensures IsSteady() ==> r.Ok? && SteadyStep(t, old(At(data)), At(r.value))
      ensures Reached(r, Spec().ChunkRead(t, b, old(Now(data))))
      ensures r.Err? ==> Escapes(t, r.error)
    {
      if t.IsBits() {
        r := ReadBitChunk(t, b, data);
      } else {
        r := ReadWordChunk(t, b, data);
      }
    }

    // -------------------------------------------------------------- groups

    /** The requests for one group. */
    function GroupPlan(group: Block): seq<Block>
      requires effectiveBatch >= 1
    {
      RangePlan(group.start, group.length, RequestCap(Some(effectiveBatch)))
    }

    /** One group, chunk by chunk. `done` lists what was read before; `start` and `reading` are where that
        began. */
    method ReadGroup(t: Table, group: Block, data: map<string, Value>, ghost done: seq<Block>, ghost start: Progress,
        ghost reading: Reading) returns (r: Result<map<string, Value>, Fault>)
      requires Valid() && BlocksBehind(t, done, start, reading, data)
      modifies this`failed, link
      ensures r.Err? ==> Escapes(t, r.error)
      ensures r.Ok? ==> TableRead(g, t, done + GroupPlan(group), start, At(r.value))
      ensures Positive(done + GroupPlan(group)) && Reached(r, ReadBlocks(Spec(), t, done + GroupPlan(group), reading))
      ensures IsSteady() ==> r.Ok? && SteadyStep(t, old(At(data)), At(r.value))
    {
      hide TableRead, Advanced, SteadyStep, ReadBlocks, RangePlan, Reader.ChunkRead;
      var chunks := ChunkRegisterRange(group.start, group.length, Some(effectiveBatch));
      PlanPositive(group);
      var out := data;
      ghost var entry := At(data);
      assert done + chunks[..0] == done;
      NoStep(t, entry);
      for i := 0 to |chunks|
        invariant BlocksBehind(t, done + chunks[..i], start, reading, out)
        invariant IsSteady() ==> SteadyStep(t, entry, At(out))
      {
        ghost var before, all := At(out), done + chunks[..i];
        OneMoreChunk(t, done, chunks, i, reading);
        var next := ReadChunk(t, chunks[i], out);
        if next.Err? {
          return next;
        }
        out := next.value;
        if IsSteady() {
          SteadyStepAfter(t, entry, before, At(out));
        }
        TableReadFurther(g, t, all, chunks[i], start, before, At(out));
      }
      assert chunks[..|chunks|] == chunks;
      r := Ok(out);
    }

    lemma PlanPositive(group: Block)
      requires Valid()
      ensures Positive(GroupPlan(group))
    {
      RangePlanTiles(group.start, group.length, RequestCap(Some(effectiveBatch)));
    }

    lemma OneMoreChunk(t: Table, done: seq<Block>, chunks: seq<Block>, i: nat, reading: Reading)
      requires i < |chunks| && Positive(done) && Positive(chunks)
      requires Positive(done + chunks[..i]) && ReadBlocks(Spec(), t, done + chunks[..i], reading).fault.None?
      ensures Positive(done + chunks) && Positive(done + chunks[..i + 1])
      ensures done + chunks[..i + 1] == done + chunks[..i] + [chunks[i]]
      ensures var before := ReadBlocks(Spec(), t, done + chunks[..i], reading);
              var next := ReadBlocks(Spec(), t, done + chunks[..i + 1], reading);
              && next == Spec().ChunkRead(t, chunks[i], before)
              && (next.fault.Some? ==> ReadBlocks(Spec(), t, done + chunks, reading) == next)
    {
      hide ReadBlocks, Reader.ChunkRead;
      BlocksSnoc(Spec(), t, done + chunks[..i], chunks[i], reading);
      assert done + chunks[..i + 1] == done + chunks[..i] + [chunks[i]];
      assert done + chunks == done + chunks[..i + 1] + chunks[i + 1..];
      if ReadBlocks(Spec(), t, done + chunks[..i + 1], reading).fault.Some? {
        BlocksFaultEnds(Spec(), t, done + chunks[..i + 1], chunks[i + 1..], reading);
      }
    }

    /** The blocks in `done` have been read, as they would be from `reading` on. */
    ghost predicate BlocksBehind(t: Table, done: seq<Block>, start: Progress, reading: Reading,
        data: map<string, Value>)
      reads this, link
    {
      TableRead(g, t, done, start, At(data)) && Positive(done) && ReadBlocks(Spec(), t, done, reading) == Now(data)
    }

    /** The groups of a table reach every available mapped name. */
    ghost predicate GroupsReach(t: Table)
      reads this`registerGroups
    {
      Reaching(t, if t in registerGroups then registerGroups[t] else [])
    }

    ghost predicate Reaching(t: Table, groups: seq<Block>) {
      && (forall i :: 0 <= i < |groups| ==> groups[i].length >= 1)
      && forall n :: n in g.available(t) && n in g.maps(t) ==> Reaches(groups, g.maps(t)[n])
    }

    /** Safe scanning asks for each register on its own, once. */
    ghost predicate AreSingleGroups(t: Table, groups: seq<Block>) {
      exists names: seq<string> :: ListsSingles(t, names, groups)
    }

    ghost predicate ListsSingles(t: Table, names: seq<string>, groups: seq<Block>) {
      && |names| == |groups|
      && (forall i, j :: 0 <= i < j < |names| ==> names[i] != names[j])
      && (forall i :: 0 <= i < |names| ==> IsSingleGroupOf(t, names[i], groups[i]))
      && forall n :: n in g.available(t) && n in g.maps(t) ==> n in names
    }

    predicate IsSingleGroupOf(t: Table, n: string, b: Block) {
      n in g.available(t) && n in g.maps(t) && b == SingleGroup(t, n)
    }

    function SingleGroup(t: Table, n: string): (b: Block)
      requires n in g.maps(t)
      ensures b.start == g.maps(t)[n] && b.length <= g.Length(n) && b.length <= effectiveBatch
      ensures b.length == g.Length(n) || b.length == effectiveBatch
    {
      Block(g.maps(t)[n], Min(g.Length(n), effectiveBatch))
    }

    /** Batching covers the words of the available registers with as few requests as possible. */
    ghost predicate AreMinimalGroups(t: Table, groups: seq<Block>) {
      exists wanted: set<int> :: (forall a :: a in wanted <==> g.Wanted(t, a)) && IsPlanOf(t, groups, wanted)
    }

    /** With at most sixteen words a request, and with two places where holding requests must not run on. */
    ghost predicate IsPlanOf(t: Table, groups: seq<Block>, wanted: set<int>) {
      IsMinimalPlan(groups, wanted, if effectiveBatch < 16 then effectiveBatch else 16,
                    if t.HoldingRegisters? then {16, 8192} else {})
    }

    lemma SinglesReach(t: Table, names: seq<string>, groups: seq<Block>)
      requires effectiveBatch >= 1 && ListsSingles(t, names, groups)
      ensures Reaching(t, groups)
    {
      forall i | 0 <= i < |groups| ensures groups[i].length >= 1 {
        assert IsSingleGroupOf(t, names[i], groups[i]);
      }
      forall n | n in g.available(t) && n in g.maps(t) ensures Reaches(groups, g.maps(t)[n]) {
        var i :| 0 <= i < |names| && names[i] == n;
        assert groups[i].Covers(g.maps(t)[n]);
      }
    }

    lemma GroupsOfEitherModeReach(t: Table, groups: seq<Block>)
      requires effectiveBatch >= 1
      requires if safeScan then AreSingleGroups(t, groups) else AreMinimalGroups(t, groups)
      ensures Reaching(t, groups)
    {
      if safeScan {
        var names :| ListsSingles(t, names, groups);
        SinglesReach(t, names, groups);
      } else {
        forall n | n in g.available(t) && n in g.maps(t) ensures Reaches(groups, g.maps(t)[n]) {
          assert g.Wanted(t, g.maps(t)[n]);
        }
      }
    }

    method SingleGroups(t: Table) returns (groups: seq<Block>)
      ensures AreSingleGroups(t, groups)
    {
      groups := [];
      ghost var names: seq<string> := [];
      var todo := g.available(t);
      while todo != {}
        invariant todo <= g.available(t) && |names| == |groups|
        invariant forall i, j :: 0 <= i < j < |names| ==> names[i] != names[j]
        invariant forall i :: 0 <= i < |names| ==> IsSingleGroupOf(t, names[i], groups[i]) && names[i] !in todo
        invariant forall n :: n in g.available(t) && n in g.maps(t) ==> n in todo || n in names
        decreases |todo|
      {
        var name :| name in todo;
        todo := todo - {name};
        if name in g.maps(t) {
          groups, names := groups + [SingleGroup(t, name)], names + [name];
        }
      }
      assert ListsSingles(t, names, groups);
    }

    /** Safe scanning of n takes in the address of x. */
    predicate ScansName(t: Table, n: string, x: string) {
      n in g.available(t) && n in g.maps(t) && g.InBlock(t, SingleGroup(t, n), x)
    }

    /** The address of x is asked for on behalf of two registers. */
    ghost predicate ScannedTwice(t: Table, x: string) {
      exists m, n :: m != n && ScansName(t, m, x) && ScansName(t, n, x)
    }

    lemma ScansAsListed(t: Table, names: seq<string>, groups: seq<Block>, i: nat, x: string)
      requires ListsSingles(t, names, groups) && i < |names|
      ensures ScansName(t, names[i], x) <==> g.InBlock(t, groups[i], x)
    {
      assert IsSingleGroupOf(t, names[i], groups[i]);
    }

    lemma Listed(t: Table, names: seq<string>, groups: seq<Block>, n: string, x: string) returns (i: nat)
      requires ListsSingles(t, names, groups) && ScansName(t, n, x)
      ensures i < |names| && names[i] == n && g.InBlock(t, groups[i], x)
    {
      i :| 0 <= i < |names| && names[i] == n;
      ScansAsListed(t, names, groups, i, x);
    }

    /** Those of the bundled lock_pass and lock_pass_2, for which LockPassOverlaps has a device. */
    lemma LockPassGroups()
      requires g == LockRegisters() && effectiveBatch >= 2
      ensures AreSingleGroups(HoldingRegisters, [Block(8187, 2), Block(8188, 1)])
    {
      assert ListsSingles(HoldingRegisters, ["lock_pass", "lock_pass_2"], [Block(8187, 2), Block(8188, 1)]);
    }

    /** Safe-scan groups share a name exactly when two registers have requests that take it in. */
    lemma SinglesShare(t: Table, groups: seq<Block>, x: string)
      requires AreSingleGroups(t, groups)
      ensures Shared(g, t, groups, x) <==> ScannedTwice(t, x)
    {
      hide ScansName;
      var names :| ListsSingles(t, names, groups);
      if ScannedTwice(t, x) {
        var m, n :| m != n && ScansName(t, m, x) && ScansName(t, n, x);
        var i := Listed(t, names, groups, m, x);
        var j := Listed(t, names, groups, n, x);
        assert i < j || j < i;
      }
      if Shared(g, t, groups, x) {
        var i: nat, j: nat :| i < j < |groups| && g.InBlock(t, groups[i], x) && g.InBlock(t, groups[j], x);
        ScansAsListed(t, names, groups, i, x);
        ScansAsListed(t, names, groups, j, x);
        assert names[i] != names[j];
      }
    }

    method WantedAddresses(t: Table) returns (addresses: seq<int>)
      ensures forall a :: a in Elements(addresses) <==> g.Wanted(t, a)
    {
      addresses := [];
      var todo := g.available(t);
      while todo != {}
        invariant todo <= g.available(t)
        invariant forall a :: a in Elements(addresses) <==> WantedOutside(t, todo, a)
        decreases |todo|
      {
        var name :| name in todo;
        ghost var before, rest := addresses, todo;
        todo := todo - {name};
        if name in g.maps(t) {
          var first, length := g.maps(t)[name], g.Length(name);
          addresses := addresses + AddressRun(first, length);
          RunAppended(before, first, length);
        }
        WantedOneMore(t, rest, name);
      }
    }

    lemma WantedOneMore(t: Table, todo: set<string>, name: string)
      requires name in todo && todo <= g.available(t)
      ensures forall a :: WantedOutside(t, todo - {name}, a) <==> WantedOutside(t, todo, a) || WordOf(t, name, a)
    {
      forall a | WordOf(t, name, a) ensures WantedOutside(t, todo - {name}, a) {
      }
    }

    predicate WordOf(t: Table, n: string, a: int) {
      n in g.maps(t) && g.maps(t)[n] <= a < g.maps(t)[n] + g.Length(n)
    }

    ghost predicate WantedOutside(t: Table, todo: set<string>, a: int) {
      exists n :: n in g.available(t) && n !in todo && WordOf(t, n, a)
    }

    /** compute_register_groups */
    method ComputeRegisterGroups()
      requires Valid()
      modifies this`registerGroups
      ensures forall t :: t in registerGroups <==> g.available(t) != {}
      ensures forall t :: t in registerGroups ==>
                if safeScan then AreSingleGroups(t, registerGroups[t]) else AreMinimalGroups(t, registerGroups[t])
      ensures forall t :: t in registerGroups && !safeScan ==> Ordered(registerGroups[t])
      ensures forall t :: GroupsReach(t)
    {
      registerGroups := map[];
      for i := 0 to |TABLES|
        invariant forall t :: t in registerGroups <==> t in TABLES[..i] && g.available(t) != {}
        invariant forall t :: t in registerGroups ==>
                    if safeScan then AreSingleGroups(t, registerGroups[t]) else AreMinimalGroups(t, registerGroups[t])
      {
        var t := TABLES[i];
        assert TABLES[..i + 1] == TABLES[..i] + [t] && t !in TABLES[..i];
        if g.available(t) == {} {
          continue;
        }
        var groups: seq<Block>;
        if safeScan {
          groups := SingleGroups(t);
        } else {
          var addresses := WantedAddresses(t);
          groups := GroupReads(addresses, Some(effectiveBatch), Boundaries(t));
          assert IsPlanOf(t, groups, Elements(addresses));
        }
        registerGroups := registerGroups[t := groups];
      }
      assert TABLES[..|TABLES|] == TABLES;
      forall t ensures t in TABLES && GroupsReach(t) {
        TablesComplete(t);
        if t in registerGroups {
          GroupsOfEitherModeReach(t, registerGroups[t]);
        }
      }
    }

    /** A connection to send requests of this table over, as things stand. */
    predicate Connected(t: Table): (up: bool)
      reads link
      ensures t in {Coils, DiscreteInputs} ==>
                (up <==> link.client.Some? && link.world.clientUp(link.calls, link.resets))
      ensures t in {InputRegisters, HoldingRegisters} ==>
                (up <==> || (link.world.hasTransport(link.resets) && link.world.transportUp(link.calls, link.resets))
                         || (link.client.Some? && link.world.clientUp(link.calls, link.resets)))
    {
      link.ClientUp() || (link.TransportUp() && !t.IsBits())
    }

    /** The chunks of a table's groups, in the order they are asked for. */
    function TableChunks(t: Table): seq<Block>
      requires effectiveBatch >= 1 && t in registerGroups
      reads this`registerGroups
    {
      GroupChunks(registerGroups[t], RequestCap(Some(effectiveBatch)))
    }

    /** The groups of a table, one after the other. */
    method ReadGroups(t: Table) returns (r: Result<map<string, Value>, Fault>)
      requires Valid() && t in registerGroups
      modifies this`failed, link
      ensures r.Err? ==> Escapes(t, r.error)
      ensures r.Ok? ==> TableRead(g, t, TableChunks(t), old(At(map[])), At(r.value))
      ensures Positive(TableChunks(t)) && Reached(r, ReadBlocks(Spec(), t, TableChunks(t), old(Now(map[]))))
      ensures IsSteady() ==> r.Ok? && SteadyStep(t, old(At(map[])), At(r.value))
    {
      hide TableRead, SteadyStep, RangePlan, GroupChunks;
      var groups := registerGroups[t];
      var data := map[];
      ghost var cap, start, reading := RequestCap(Some(effectiveBatch)), At(data), Now(data);
      NothingBehind(t, groups, cap, data);
      ChunksPositive(groups, cap);
      for i := 0 to |groups|
        invariant BlocksBehind(t, GroupChunks(groups[..i], cap), start, reading, data)
        invariant IsSteady() ==> SteadyStep(t, start, At(data))
      {
        ghost var before, done := At(data), GroupChunks(groups[..i], cap);
        var next := ReadGroup(t, groups[i], data, done, start, reading);
        ghost var rest := GroupChunksFrom(groups, i, cap);
        if next.Err? {
          BlocksFaultEnds(Spec(), t, done + GroupPlan(groups[i]), rest, reading);
          return next;
        }
        if IsSteady() {
          SteadyStepAfter(t, start, before, At(next.value));
        }
        data := next.value;
      }
      assert groups[..|groups|] == groups;
      r := Ok(data);
    }

    lemma NothingBehind(t: Table, groups: seq<Block>, cap: int, data: map<string, Value>)
      requires cap >= 1 && data == map[]
      ensures BlocksBehind(t, GroupChunks(groups[..0], cap), At(data), Now(data), data)
      ensures SteadyStep(t, At(data), At(data))
    {
    }

    /** Two groups of one table take in the address of the name. */
    ghost predicate AskedTwice(t: Table, n: string)
      reads this`registerGroups
    {
      t in registerGroups && Shared(g, t, registerGroups[t], n)
    }

    /** The most requests a table can take: the retries of each chunk and of each of its words. */
    ghost function RequestBound(t: Table): nat
      requires effectiveBatch >= 1
      reads this`registerGroups
    {
      if t !in registerGroups then 0
      else
        ChunksPositive(registerGroups[t], RequestCap(Some(effectiveBatch)));
        Budget(link.retry, Work(TableChunks(t)))
    }

    /** Reading one table. A lost holding connection reads as no values; elsewhere it raises. Otherwise a
        read that returns has settled every available name: it has a value decoded from a word read at its
        own address, or it failed, or it read as nothing. Only a name that two groups share can both have failed
        and have a value. On a steady device the result is that of reading each register alone. */
    method ReadTable(t: Table) returns (r: Result<map<string, Value>, Fault>)
      requires Valid() && GroupsReach(t)
      modifies this`failed, link
      ensures r.Ok? ==> old(link.seen) <= link.seen
      ensures r.Err? ==> Escapes(t, r.error)
      ensures r.Ok? ==> forall n :: n in r.value ==> Sourced(g, t, n, At(r.value))
      ensures r.Ok? && (t.HoldingRegisters? ==> old(Connected(t))) ==>
                forall n :: n in g.available(t) && n in g.maps(t) ==> Settled(g, t, n, At(r.value))
      ensures r.Ok? ==> forall n :: n in r.value && n in failed ==> AskedTwice(t, n)
      ensures r.Ok? ==> forall n :: n !in g.maps(t) ==> (n in failed <==> n in old(failed))
      ensures r.Ok? ==> forall n :: n in old(failed) ==> n in failed || n in r.value
      ensures t in registerGroups && !old(Connected(t)) ==>
              r == if t.HoldingRegisters? then Ok(map[]) else Err(ConnectionLost)
      ensures old(link.calls) <= link.calls <= old(link.calls) + RequestBound(t)
      ensures t in registerGroups && old(Connected(t)) ==>
                Positive(TableChunks(t)) && Reached(r, ReadBlocks(Spec(), t, TableChunks(t), old(Now(map[]))))
      ensures IsSteady() && old(link.ClientUp())
              && SeesMemory(memory, old(link.seen)) && old(failed) !! g.maps(t).Keys ==>
                r.Ok? && IsReadAlone(g, t, memory, r.value) && failed <= old(failed) && SeesMemory(memory, link.seen)
                && link.ClientUp()
    {
      hide ReadBlocks, GroupChunks, RangePlan, Shared, Reaches, Budget, Work;
      if t !in registerGroups {
        NothingReached(t);
        return Ok(map[]);
      }
      if !Connected(t) {
        return if t.HoldingRegisters? then Ok(map[]) else Err(ConnectionLost);
      }
      ghost var start, reading, chunks := At(map[]), Now(map[]), TableChunks(t);
      r := ReadGroups(t);
      ReadsAreBounded(Spec(), t, chunks, reading);
      if r.Err? {
        return;
      }
      ChunksReach(registerGroups[t], RequestCap(Some(effectiveBatch)));
      SettledEverywhere(g, t, chunks, start, At(r.value));
      forall n | n in r.value && n in failed ensures AskedTwice(t, n) {
        OnlySharedOverlap(t, reading, n);
      }
      if IsSteady() && SeesMemory(memory, old(link.seen)) && old(failed) !! g.maps(t).Keys {
        SteadyReadIsReadAlone(g, t, memory, chunks, start, At(r.value));
      }
    }

    lemma OnlySharedOverlap(t: Table, reading: Reading, n: string)
      requires Valid() && t in registerGroups && reading.data == map[] && Positive(TableChunks(t))
      requires var r := ReadBlocks(Spec(), t, TableChunks(t), reading); n in r.data && n in r.failed
      ensures AskedTwice(t, n)
    {
      hide ReadBlocks, GroupChunks, Shared;
      ChunksShareAsGroups(g, t, registerGroups[t], RequestCap(Some(effectiveBatch)), n);
      if !AskedTwice(t, n) {
        DisjointReads(Spec(), t, TableChunks(t), reading, n);
      }
    }

    lemma NothingReached(t: Table)
      requires Reaching(t, [])
      ensures forall n :: n in g.available(t) ==> n !in g.maps(t)
    {
    }

    /** Every available mapped register of the table is settled. */
    ghost predicate TableSettled(t: Table, p: Progress) {
      forall n :: n in g.available(t) && n in g.maps(t) ==> Settled(g, t, n, p)
    }

    /** Everything stored was decoded from a word read at the name's own address in some table. */
    ghost predicate AllSourced(p: Progress) {
      forall n :: n in p.data ==> exists t :: Sourced(g, t, n, p)
    }

    /** The tables are settled, and all that is stored is sourced. */
    ghost predicate TablesRead(tables: set<Table>, p: Progress) {
      AllSourced(p) && forall t :: t in tables ==> TableSettled(t, p)
    }

    /** What was settled or sourced stays so when a further table is read and its values join. */
    lemma StaysSettled(t: Table, p: Progress, q: Progress)
      requires p.seen <= q.seen && p.data.Keys <= q.data.Keys && p.failed <= q.failed + q.data.Keys
      requires TableSettled(t, p)
      ensures TableSettled(t, q)
    {
      forall n | n in g.available(t) && n in g.maps(t) ensures Settled(g, t, n, q) {
        assert Settled(g, t, n, p);
      }
    }

    lemma StaysSourced(t: Table, p: Progress, q: Progress, own: map<string, Value>)
      requires p.seen <= q.seen && AllSourced(p) && q.data == p.data + own
      requires forall n :: n in own ==> Sourced(g, t, n, q.(data := own))
      ensures AllSourced(q)
    {
      forall n | n in q.data ensures exists u :: Sourced(g, u, n, q) {
        if n in own {
          assert Sourced(g, t, n, q.(data := own)) && Sourced(g, t, n, q);
        } else {
          var u :| Sourced(g, u, n, p);
          assert Sourced(g, u, n, q);
        }
      }
    }

    lemma TablesJoin(tables: set<Table>, t: Table, p: Progress, q: Progress, own: map<string, Value>)
      requires p.seen <= q.seen && TablesRead(tables, p) && q.data == p.data + own && p.failed <= q.failed + own.Keys
      requires forall n :: n in own ==> Sourced(g, t, n, q.(data := own))
      ensures TablesRead(tables, q)
      ensures TableSettled(t, q.(data := own)) ==> TablesRead(tables + {t}, q)
    {
      StaysSourced(t, p, q, own);
      forall u | u in tables ensures TableSettled(u, q) {
        StaysSettled(u, p, q);
      }
      if TableSettled(t, q.(data := own)) {
        StaysSettled(t, q.(data := own), q);
      }
    }

    /** A steady device, connected, that has shown nothing but its memory. */
    ghost predicate AllWell()
      reads this, link
    {
      IsSteady() && link.ClientUp() && SeesMemory(memory, link.seen) && failed == {}
    }

    /** Each name belongs to one table. */
    ghost predicate OneTableEach() {
      forall n, t, u :: n in g.maps(t) && n in g.maps(u) ==> t == u
    }

    /** What has a value is a name of one of the tables visited, and has not failed unless asked for twice. */
    ghost predicate KeptApart(visited: set<Table>, p: Progress)
      reads this`registerGroups
    {
      forall n :: n in p.data ==>
        (n in p.failed ==> exists t :: AskedTwice(t, n)) && exists t :: t in visited && n in g.maps(t)
    }

    lemma ApartFurther(visited: set<Table>, t: Table, p: Progress, q: Progress, own: map<string, Value>)
      requires OneTableEach() && t !in visited && KeptApart(visited, p) && q.data == p.data + own
      requires forall n :: n in own ==> n in g.maps(t) && (n in q.failed ==> AskedTwice(t, n))
      requires forall n :: n !in g.maps(t) ==> (n in q.failed <==> n in p.failed)
      ensures KeptApart(visited + {t}, q)
    {
      hide AskedTwice;
      forall n | n in q.data
        ensures (n in q.failed ==> exists u :: AskedTwice(u, n)) && exists u :: u in visited + {t} && n in g.maps(u)
      {
        if n in own {
          assert t in visited + {t};
        } else {
          var u :| u in visited && n in g.maps(u);
          assert u in visited + {t} && n !in g.maps(t);
        }
      }
    }

    /** A further table, its values added to those read so far. */
    method AddTable(t: Table, data: map<string, Value>, ghost tables: set<Table>, ghost visited: set<Table>)
      returns (r: Result<map<string, Value>, Fault>, ghost own: map<string, Value>)
      requires Valid() && GroupsReach(t) && TablesRead(tables, At(data)) && t !in visited
      modifies this`failed, link
      ensures r.Ok? ==> TablesRead(tables, At(r.value))
      ensures r.Ok? && (t.HoldingRegisters? ==> old(Connected(t))) ==> TablesRead(tables + {t}, At(r.value))
      ensures r.Ok? && OneTableEach() && old(KeptApart(visited, At(data))) ==>
                KeptApart(visited + {t}, At(r.value))
      ensures old(AllWell()) ==> AllWell() && r == Ok(data + own) && IsReadAlone(g, t, memory, own)
      ensures old(link.calls) <= link.calls <= old(link.calls) + RequestBound(t)
    {
      hide AskedTwice, RequestBound, Reached, GroupsReach;
      ghost var before := At(data);
      var table := ReadTable(t);
      own := map[];
      if table.Err? {
        return table, own;
      }
      own := table.value;
      r := Ok(data + table.value);
      assert At(r.value).(data := own) == At(own);
      TablesJoin(tables, t, before, At(r.value), own);
      if OneTableEach() && KeptApart(visited, before) {
        ApartFurther(visited, t, before, At(r.value), own);
      }
    }

    /** read_all_register_data, up to post-processing. A read that returns has settled every available
        register of every table (of holding registers unless the connection was down for them), everything it
        stores was decoded from a word read at the register's own address, and it stores nothing that failed
        but names that two groups share, if every name belongs to one table. */
    method ReadAllRegisterData() returns (r: Result<map<string, Value>, Fault>, ghost tables: set<Table>)
      requires Valid() && forall t :: GroupsReach(t)
      modifies this`failed, link
      ensures r.Ok? ==> TablesRead(tables, At(r.value)) && {InputRegisters, Coils, DiscreteInputs} <= tables
      ensures r.Ok? && HoldingRegisters !in tables ==> exists k, h :: link.world.TransportDown(k, h)
      ensures r.Ok? && OneTableEach() ==> forall n :: n in r.value && n in failed ==> exists t :: AskedTwice(t, n)
      ensures link.calls <= old(link.calls) + RequestBound(InputRegisters) + RequestBound(HoldingRegisters)
                            + RequestBound(Coils) + RequestBound(DiscreteInputs)
      ensures old(AllWell()) ==> AllWell() && r.Ok? && AllReadAlone(r.value) && HoldingRegisters in tables
    {
      hide OneTableEach, KeptApart, RequestBound, GroupsReach, TablesRead, AskedTwice;
      ghost var a, b, c, d;
      ghost var visited: set<Table> := {};
      tables := {};
      NothingRead();
      r, a := AddTable(InputRegisters, map[], tables, visited);
      if r.Err? { return; }
      assert map[] + a == a;
      tables, visited := tables + {InputRegisters}, visited + {InputRegisters};
      ghost var up, calls, resets := Connected(HoldingRegisters), link.calls, link.resets;
      assert !up ==> link.world.TransportDown(calls, resets);
      r, b := AddTable(HoldingRegisters, r.value, tables, visited);
      if r.Err? { return; }
      tables, visited := if up then tables + {HoldingRegisters} else tables, visited + {HoldingRegisters};
      r, c := AddTable(Coils, r.value, tables, visited);
      if r.Err? { return; }
      tables, visited := tables + {Coils}, visited + {Coils};
      r, d := AddTable(DiscreteInputs, r.value, tables, visited);
      tables := tables + {DiscreteInputs};
      assert old(AllWell()) ==> r.value == a + b + c + d;
      if r.Ok? && OneTableEach() {
        ApartMeans(visited + {DiscreteInputs}, At(r.value));
      }
    }

    lemma ApartMeans(visited: set<Table>, p: Progress)
      requires KeptApart(visited, p)
      ensures forall n :: n in p.data && n in p.failed ==> exists t :: AskedTwice(t, n)
    {
    }

    lemma NothingRead()
      ensures TablesRead({}, At(map[])) && KeptApart({}, At(map[]))
    {
    }

    /** The values of the four tables, each as if every register had been read on its own. */
    ghost predicate AllReadAlone(data: map<string, Value>) {
      exists a, b, c, d :: data == a + b + c + d
        && IsReadAlone(g, InputRegisters, memory, a) && IsReadAlone(g, HoldingRegisters, memory, b)
        && IsReadAlone(g, Coils, memory, c) && IsReadAlone(g, DiscreteInputs, memory, d)
    }

    /** Whether a name is there, and with which value, is decided by the word at its address alone. */
    ghost predicate EachReadAlone(data: map<string, Value>) {
      && (forall t, n :: n in g.available(t) && n in g.maps(t) ==>
            StandsFor(g, t, n, memory(t, g.maps(t)[n]), if n in data then Some(data[n]) else None))
      && forall n :: n in data ==> exists t :: n in g.available(t) && n in g.maps(t)
    }

    /** Where every name belongs to one table the four tables do not hide each other's values. */
    lemma TablesAreApart(data: map<string, Value>)
      requires OneTableEach() && AllReadAlone(data)
      ensures EachReadAlone(data)
    {
      var a, b, c, d :| data == a + b + c + d
        && IsReadAlone(g, InputRegisters, memory, a) && IsReadAlone(g, HoldingRegisters, memory, b)
        && IsReadAlone(g, Coils, memory, c) && IsReadAlone(g, DiscreteInputs, memory, d);
      forall t, n | n in g.available(t) && n in g.maps(t)
        ensures StandsFor(g, t, n, memory(t, g.maps(t)[n]), if n in data then Some(data[n]) else None)
      {
        assert forall u :: u != t ==> n !in g.maps(u);
      }
      forall n | n in data ensures exists t :: n in g.available(t) && n in g.maps(t) {
        assert n in a || n in b || n in c || n in d;
      }
    }

    /** Batching asks for no address twice, and safe scanning only on behalf of two registers. */
    lemma PlannedTwice(t: Table, n: string)
      requires effectiveBatch >= 1 && t in registerGroups && AskedTwice(t, n)
      requires if safeScan then AreSingleGroups(t, registerGroups[t]) else AreMinimalGroups(t, registerGroups[t])
      ensures safeScan && ScannedTwice(t, n)
    {
      hide ScannedTwice, AreSingleGroups, AreMinimalGroups, Shared;
      if safeScan {
        SinglesShare(t, registerGroups[t], n);
      } else {
        BatchesApart(t, registerGroups[t], n);
      }
    }

    lemma BatchesApart(t: Table, groups: seq<Block>, n: string)
      requires effectiveBatch >= 1 && AreMinimalGroups(t, groups)
      ensures !Shared(g, t, groups, n)
    {
      OrderedNoShared(g, t, groups);
    }

    lemma InGroups(t: Table, n: string)
      requires AskedTwice(t, n)
      ensures t in registerGroups
    {
    }

    /** One update: forget the failures of the one before, plan and read. On a steady device batched and
        safe-scan reading satisfy the same specification, which leaves no room between them (ReadAloneUnique);
        on any device what a read returns is settled, and has not failed unless safe scanning asks for the name
        on behalf of two registers. */
    method Poll() returns (r: Result<map<string, Value>, Fault>, ghost tables: set<Table>)
      requires Valid()
      modifies this, link
      ensures r.Ok? ==> TablesRead(tables, At(r.value)) && {InputRegisters, Coils, DiscreteInputs} <= tables
      ensures r.Ok? && HoldingRegisters !in tables ==> exists k, h :: link.world.TransportDown(k, h)
      ensures r.Ok? && OneTableEach() ==>
                forall n :: n in r.value && n in failed ==> safeScan && exists t :: ScannedTwice(t, n)
      ensures link.calls <= old(link.calls) + RequestBound(InputRegisters) + RequestBound(HoldingRegisters)
                            + RequestBound(Coils) + RequestBound(DiscreteInputs)
      ensures IsSteady() && old(link.ClientUp()) && SeesMemory(memory, old(link.seen)) ==>
                r.Ok? && failed == {} && AllReadAlone(r.value) && HoldingRegisters in tables
                && SeesMemory(memory, link.seen) && link.ClientUp() && (OneTableEach() ==> EachReadAlone(r.value))
    {
      hide ScannedTwice, AreSingleGroups, AreMinimalGroups, AskedTwice, RequestBound, OneTableEach;
      hide AllReadAlone, EachReadAlone;
      failed := {};
      ComputeRegisterGroups();
      forall t, n | AskedTwice(t, n) ensures safeScan && ScannedTwice(t, n) {
        assert t in registerGroups by {
          InGroups(t, n);
        }
        PlannedTwice(t, n);
      }
      r, tables := ReadAllRegisterData();
      if r.Ok? && AllReadAlone(r.value) && OneTableEach() {
        TablesAreApart(r.value);
      }
    }

    /** What a step of reading does when the device is steady: no name fails, only available names get
        values, and what is seen is what the memory holds. */
    ghost predicate SteadyStep(t: Table, p: Progress, q: Progress) {
      && q.failed <= p.failed
      && (forall n :: n in q.data && n !in p.data ==> n in g.available(t))
      && SteadySights(p.seen, q.seen) && q.client == p.client
    }

    ghost predicate SteadySights(before: set<Sighting>, after: set<Sighting>) {
      before <= after && forall s :: s in after && s !in before ==> s.word == memory(s.table, s.address)
    }

    lemma NoStep(t: Table, p: Progress)
      ensures SteadyStep(t, p, p)
    {
    }

    lemma SteadyStepAfter(t: Table, p: Progress, q: Progress, r: Progress)
      requires SteadyStep(t, p, q) && SteadyStep(t, q, r)
      ensures SteadyStep(t, p, r)
    {
    }
  }
}
