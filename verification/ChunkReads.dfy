/** What reading a chunk of registers does, as a function of the device's replies; and what follows for the
    reading of whole tables (core/read_batches.py, core/read_bits.py). */
module ChunkReads {
  import opened Common
  import opened ReadPlanner
  import opened ReadRetry

  datatype Value = Number(n: int) | Text(s: string) | Flag(on: bool)

  /** What the readers know about registers. `process` stands for process_register_value: any total
      decoder, None for a reading to be left out. */
  datatype Registry = Registry(
    maps: Table -> map<string, int>,
    reverse: Table -> map<int, string>,
    available: Table -> set<string>,
    lengthOf: string -> Option<int>,
    process: (string, int) -> Option<Value>)
  {
    /** Missing definitions count as one word. */
    function Length(name: string): (n: int)
      ensures lengthOf(name).Some? && lengthOf(name).value >= 1 ==> n == lengthOf(name).value
      ensures lengthOf(name).None? || lengthOf(name).value < 1 ==> n == 1
    {
      if lengthOf(name).Some? then Max(1, lengthOf(name).value) else 1
    }

    /** The address belongs to an available mapped register. */
    ghost predicate Wanted(t: Table, a: int) {
      exists n :: n in available(t) && n in maps(t) && maps(t)[n] <= a < maps(t)[n] + Length(n)
    }

    /** Addresses belong to one name each, and the reverse maps are the inverses. */
    ghost predicate Consistent() {
      forall t :: InverseMaps(maps(t), reverse(t))
    }

    function FindRegisterName(t: Table, address: int): Option<string> {
      if address in reverse(t) then Some(reverse(t)[address]) else None
    }

    /** Words become values through the decoder, bits directly. */
    function Decode(t: Table, name: string, word: int): Option<Value> {
      if t.IsBits() then Some(Flag(word != 0)) else process(name, word)
    }

    predicate InBlock(t: Table, b: Block, name: string) {
      name in maps(t) && b.Covers(maps(t)[name])
    }
  }

  // Holding addresses at which a new batch must start (const.py).
  const HOLDING_BATCH_BOUNDARIES: set<int> := {16, 8192}

  function Boundaries(t: Table): Option<set<int>> {
    if t.HoldingRegisters? then Some(HOLDING_BATCH_BOUNDARIES) else None
  }

  const TABLES: seq<Table> := [InputRegisters, HoldingRegisters, Coils, DiscreteInputs]

  lemma TablesComplete(t: Table)
    ensures t in TABLES
  {
    assert TABLES[0] == InputRegisters && TABLES[1] == HoldingRegisters;
    assert TABLES[2] == Coils && TABLES[3] == DiscreteInputs;
  }

  ghost predicate InverseMaps(m: map<string, int>, r: map<int, string>) {
    && (forall n :: n in m ==> m[n] in r && r[m[n]] == n)
    && (forall a :: a in r ==> r[a] in m && m[r[a]] == a)
  }

  /** The state of reading as the code carries it, and the fault that ended it. */
  datatype Reading = Reading(data: map<string, Value>, failed: set<string>, calls: nat, resets: nat,
      fault: Option<Fault>)

  /** Faults that end the reading of a table; all others are dealt with where they strike. */
  predicate Escapes(t: Table, f: Fault) {
    if t.IsBits() then f != Permanent else f in {ConnectionLost, Unlisted}
  }

  /** Replies to word requests are no longer than asked; bit replies may be padded. */
  ghost predicate ShortReplies(w: World) {
    forall k, t: Table, a, c :: !t.IsBits() && w.answer(k, t, a, c).Reply? && 0 <= c ==>
            |w.answer(k, t, a, c).words| <= c
  }

  // ---------------------------------------------------------------- one chunk, branch by branch

  /** Registers, a device and a retry count: what the effect of a chunk depends on. */
  datatype Reader = Reader(g: Registry, w: World, retry: nat) {
    ghost function Names(t: Table, b: Block): (r: set<string>)
      ensures forall n :: n in r <==> g.InBlock(t, b, n)
    {
      set n | n in g.maps(t) && g.InBlock(t, b, n)
    }

    ghost function GivenUp(t: Table, b: Block, s: Reading): Reading {
      s.(failed := s.failed + Names(t, b))
    }

    ghost function Merged(t: Table, start: int, words: seq<int>, s: Reading): Reading {
      if words == [] then s
      else
        var last := |words| - 1;
        MergedWord(t, start + last, words[last], Merged(t, start, words[..last], s))
    }

    ghost function MergedWord(t: Table, address: int, word: int, s: Reading): Reading {
      var name := g.FindRegisterName(t, address);
      if name.None? || name.value !in g.available(t) || g.Decode(t, name.value, word).None? then s
      else s.(data := s.data[name.value := g.Decode(t, name.value, word).value], failed := s.failed - {name.value})
    }

    /** Merging a reply gives each available name the value of the word at its own address, and nothing
        when that word reads as nothing. */
    lemma {:induction false} MergedAt(t: Table, start: int, words: seq<int>, s: Reading, i: nat, name: string)
      requires g.Consistent() && i < |words|
      requires g.FindRegisterName(t, start + i) == Some(name) && name in g.available(t)
      ensures var merged, value := Merged(t, start, words, s), g.Decode(t, name, words[i]);
              if value.Some? then name in merged.data && merged.data[name] == value.value && name !in merged.failed
              else (name in merged.failed <==> name in s.failed) && (name in merged.data <==> name in s.data)
                   && (name in s.data ==> merged.data[name] == s.data[name])
      decreases |words|
    {
      var last := |words| - 1;
      assert InverseMaps(g.maps(t), g.reverse(t));
      if i < last {
        MergedAt(t, start, words[..last], s, i, name);
        assert g.FindRegisterName(t, start + last) != Some(name);
      } else {
        MergedElsewhere(t, start, words[..last], s, name);
      }
    }

    lemma {:induction false} MergedElsewhere(t: Table, start: int, words: seq<int>, s: Reading, name: string)
      requires g.Consistent() && !g.InBlock(t, Block(start, |words|), name)
      ensures var merged := Merged(t, start, words, s);
              && (name in merged.failed <==> name in s.failed) && (name in merged.data <==> name in s.data)
              && (name in s.data ==> merged.data[name] == s.data[name])
      decreases |words|
    {
      if words != [] {
        assert InverseMaps(g.maps(t), g.reverse(t));
        MergedElsewhere(t, start, words[..|words| - 1], s, name);
        assert g.FindRegisterName(t, start + |words| - 1) != Some(name);
      }
    }

    /** One name asked for on its own: a value, or failed, or a fault the fallback does not catch. */
    ghost function OneAlone(t: Table, address: int, name: string, s: Reading): Reading {
      var run := Attempts(w, t, address, 1, s.calls, s.resets, retry);
      var after := s.(calls := run.calls, resets := run.resets);
      if run.result == Err(Unlisted) || (run.result == Err(ConnectionLost) && t.HoldingRegisters?) then
        after.(fault := Some(run.result.error))
      else if run.result.Ok? && run.result.value != [] && g.Decode(t, name, run.result.value[0]).Some? then
        after.(data := s.data[name := g.Decode(t, name, run.result.value[0]).value], failed := s.failed - {name})
      else after.(failed := s.failed + {name})
    }

    ghost function OneAddress(t: Table, address: int, s: Reading): Reading {
      var name := g.FindRegisterName(t, address);
      if name.None? then s else OneAlone(t, address, name.value, s)
    }

    /** The first n addresses from start on, one by one, up to a fault. */
    ghost function Individually(t: Table, start: int, n: nat, s: Reading): Reading {
      if n == 0 then s
      else
        var before := Individually(t, start, n - 1, s);
        if before.fault.Some? then before else OneAddress(t, start + n - 1, before)
    }

    lemma {:induction false} FaultEnds(t: Table, start: int, m: nat, n: nat, s: Reading)
      requires m <= n && Individually(t, start, m, s).fault.Some?
      ensures Individually(t, start, n, s) == Individually(t, start, m, s)
      decreases n
    {
      if m < n {
        FaultEnds(t, start, m, n - 1, s);
      }
    }

    /** What a short reply left out. */
    ghost function TailRead(t: Table, b: Block, received: nat, s: Reading): Reading
      requires received < b.length
    {
      if received == 0 || t.HoldingRegisters? then Individually(t, b.start + received, b.length - received, s)
      else GivenUp(t, Block(b.start + received, b.length - received), s)
    }

    ghost function ReplyRead(t: Table, b: Block, words: seq<int>, s: Reading): Reading {
      var merged := Merged(t, b.start, words, s);
      if |words| < b.length then TailRead(t, b, |words|, merged) else merged
    }

    ghost function FaultRead(t: Table, b: Block, fault: Fault, s: Reading): Reading
      requires b.length >= 0
    {
      if fault in {ConnectionLost, Unlisted} then s.(fault := Some(fault))
      else if fault == Permanent || t.InputRegisters? then GivenUp(t, b, s)
      else Individually(t, b.start, b.length, s)
    }

    ghost function BitReplyRead(t: Table, b: Block, bits: seq<int>, s: Reading): Reading
      requires b.length >= 0
    {
      if bits == [] then GivenUp(t, b, s).(fault := Some(PlainModbus))
      else
        var received := Min(b.length, |bits|);
        var merged := Merged(t, b.start, bits[..received], s);
        if received < b.length then GivenUp(t, Block(b.start + received, b.length - received), merged) else merged
    }

    ghost function BitFaultRead(t: Table, b: Block, fault: Fault, s: Reading): Reading {
      if fault == Unlisted then s.(fault := Some(Unlisted))
      else GivenUp(t, b, s).(fault := if fault == Permanent then None else Some(fault))
    }

    /** The whole effect of one chunk, for every reply of the device: nothing is asked when every name has
        failed before. */
    ghost function ChunkRead(t: Table, b: Block, s: Reading): Reading
      requires b.length >= 1
    {
      if Names(t, b) <= s.failed then s
      else
        var run := Attempts(w, t, b.start, b.length, s.calls, s.resets, retry);
        var after := s.(calls := run.calls, resets := run.resets);
        match run.result
        case Ok(words) => if t.IsBits() then BitReplyRead(t, b, words, after) else ReplyRead(t, b, words, after)
        case Err(fault) => if t.IsBits() then BitFaultRead(t, b, fault, after) else FaultRead(t, b, fault, after)
    }

    // -------------------------------------------------------------- the same, table by table

    /** A chunk without a reply. A lost connection ends the reading everywhere; a permanent error fails the
        chunk everywhere; of other faults input registers fail it too, holding registers are read one by one,
        and bits fail it and end the reading. */
    lemma FaultDecides(t: Table, b: Block, s: Reading, fault: Fault)
      requires b.length >= 1 && !(Names(t, b) <= s.failed)
      requires Attempts(w, t, b.start, b.length, s.calls, s.resets, retry).result == Err(fault)
      ensures var run := Attempts(w, t, b.start, b.length, s.calls, s.resets, retry);
              var r, failed := ChunkRead(t, b, s), s.failed + Names(t, b);
              match t
              case InputRegisters =>
                r == if fault == ConnectionLost || fault == Unlisted
                     then Reading(s.data, s.failed, run.calls, run.resets, Some(fault))
                     else Reading(s.data, failed, run.calls, run.resets, s.fault)
              case HoldingRegisters =>
                r == if fault == ConnectionLost || fault == Unlisted
                     then Reading(s.data, s.failed, run.calls, run.resets, Some(fault))
                     else if fault == Permanent then Reading(s.data, failed, run.calls, run.resets, s.fault)
                     else Individually(t, b.start, b.length, s.(calls := run.calls, resets := run.resets))
              case _ =>
                r == if fault == Unlisted then Reading(s.data, s.failed, run.calls, run.resets, Some(fault))
                     else if fault == Permanent then Reading(s.data, failed, run.calls, run.resets, None)
                     else Reading(s.data, failed, run.calls, run.resets, Some(fault))
    {
    }

    /** A chunk with a reply: what came is stored. What is missing is read one by one for holding registers,
        and for input registers if nothing came; otherwise it fails. No bits at all are a fault. */
    lemma ReplyDecides(t: Table, b: Block, s: Reading, words: seq<int>)
      requires b.length >= 1 && !(Names(t, b) <= s.failed)
      requires Attempts(w, t, b.start, b.length, s.calls, s.resets, retry).result == Ok(words)
      ensures var run := Attempts(w, t, b.start, b.length, s.calls, s.resets, retry);
              var after := s.(calls := run.calls, resets := run.resets);
              var r, n := ChunkRead(t, b, s), |words|;
              var missing := if n < b.length then Block(b.start + n, b.length - n) else Block(b.start + b.length, 0);
              var stored := Merged(t, b.start, if t in {Coils, DiscreteInputs} && n > b.length then words[..b.length]
                                               else words, after);
              match t
              case InputRegisters =>
                r == if n == 0 then Individually(t, b.start, b.length, after)
                     else if n < b.length then stored.(failed := stored.failed + Names(t, missing)) else stored
              case HoldingRegisters =>
                r == if n < b.length then Individually(t, missing.start, missing.length, stored) else stored
              case _ =>
                r == if n == 0 then Reading(s.data, s.failed + Names(t, b), run.calls, run.resets, Some(PlainModbus))
                     else if n < b.length then stored.(failed := stored.failed + Names(t, missing)) else stored
    {
      assert words[..|words|] == words;
    }

    /** One register on its own: stored if its word reads as a value, otherwise failed; a fault that nobody
        foresaw goes up, and so does a lost connection for holding registers. */
    lemma SingleDecides(t: Table, address: int, name: string, s: Reading)
      requires t in {InputRegisters, HoldingRegisters}
      ensures var run := Attempts(w, t, address, 1, s.calls, s.resets, retry);
              var after := s.(calls := run.calls, resets := run.resets);
              var r := OneAlone(t, address, name, s);
              match run.result
              case Ok(words) =>
                if words != [] && g.process(name, words[0]).Some?
                then r == after.(data := s.data[name := g.process(name, words[0]).value], failed := s.failed - {name})
                else r == after.(failed := s.failed + {name})
              case Err(Unlisted) => r == after.(fault := Some(Unlisted))
              case Err(ConnectionLost) =>
                r == if t == HoldingRegisters then after.(fault := Some(ConnectionLost))
                     else after.(failed := s.failed + {name})
              case Err(_) => r == after.(failed := s.failed + {name})
    {
    }
  }
}
