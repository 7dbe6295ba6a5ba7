/** Reading with retries: one request until a good reply, a permanent error or the last attempt
    (core/retry.py, and the reply classification of core/read_batches.py). */
module ReadRetry {
  import opened Common

  datatype Table = InputRegisters | HoldingRegisters | Coils | DiscreteInputs {
    predicate IsBits() {
      Coils? || DiscreteInputs?
    }
  }

  /** Exceptions by how the readers treat them; Unlisted is caught nowhere. */
  datatype Fault =
    | Permanent | Timeout | ModbusIo | ConnectionLost | OsError | PlainModbus | BadValue | Unlisted

  /** What one read call produces. A bit reply carries one word, 0 or 1, per bit. */
  datatype Answer = NoReply | ErrorReply(code: Option<int>) | Reply(words: seq<int>) | Raises(fault: Fault)

  const ILLEGAL_DATA_ADDRESS := 2

  /** The device and the connection over all time: the answer to call k; whether a transport is in use
      when the connection is reset for the h-th time, what goes wrong then, and the client a good reconnect
      leaves; and what is up once k calls and h resets are over. */
  datatype World = World(
    answer: (nat, Table, int, int) -> Answer,
    disconnectFault: nat -> Option<Fault>,
    reconnectFault: nat -> Option<Fault>,
    hasTransport: nat -> bool,
    reconnected: nat -> Option<int>,
    transportUp: (nat, nat) -> bool,
    clientUp: (nat, nat) -> bool)
  {
    /** A fault of the reset that is not swallowed. */
    function ResetEscape(h: nat): Option<Fault> {
      if disconnectFault(h).Some? then Escaping(disconnectFault(h).value)
      else if hasTransport(h) && reconnectFault(h).Some? then Escaping(reconnectFault(h).value)
      else None
    }

    predicate TransportDown(k: nat, h: nat) {
      !(hasTransport(h) && transportUp(k, h))
    }

    /** A disconnect that fails leaves the client, one that goes well drops it; without a transport it is
        put back, with one the reconnect provides a new one. */
    function ClientAfterReset(h: nat, client: Option<int>): Option<int> {
      if disconnectFault(h).Some? || !hasTransport(h) then client
      else if reconnectFault(h).Some? then None
      else reconnected(h)
    }

    /** The client after resets h .. k. */
    function ClientAfter(h: nat, k: nat, client: Option<int>): Option<int> {
      if k <= h then client else ClientAfterReset(k - 1, ClientAfter(h, k - 1, client))
    }
  }

  predicate IsDisconnectException(f: Fault) {
    f in {Timeout, ModbusIo, ConnectionLost, OsError}
  }

  function Escaping(f: Fault): Option<Fault> {
    if IsDisconnectException(f) then None else Some(f)
  }

  /** A good reply's words, or the exception read_with_retry sees. */
  function Classify(a: Answer): Result<seq<int>, Fault> {
    match a
    case NoReply => Err(PlainModbus)
    case ErrorReply(code) => if code == Some(ILLEGAL_DATA_ADDRESS) then Err(Permanent) else Err(ModbusIo)
    case Reply(words) => Ok(words)
    case Raises(fault) => Err(fault)
  }

  predicate Retried(f: Fault) {
    IsDisconnectException(f) || f == PlainModbus
  }

  datatype Run = Run(result: Result<seq<int>, Fault>, calls: nat, resets: nat)

  /** The retry loop on its trace, with `left` attempts to go. */
  function Attempts(w: World, t: Table, address: int, count: int, calls: nat, resets: nat, left: nat): Run
    decreases left
  {
    if left == 0 then Run(Err(PlainModbus), calls, resets)
    else
      var r := Classify(w.answer(calls, t, address, count));
      if r.Ok? || !Retried(r.error) || left == 1 then Run(r, calls + 1, resets)
      else if !IsDisconnectException(r.error) then Attempts(w, t, address, count, calls + 1, resets, left - 1)
      else if w.ResetEscape(resets).Some? then Run(Err(w.ResetEscape(resets).value), calls + 1, resets + 1)
      else Attempts(w, t, address, count, calls + 1, resets + 1, left - 1)
  }

  /** Every disconnect and reconnect failure is of a kind the retry code swallows. */
  ghost predicate ResetsSwallowed(w: World) {
    forall h: nat :: w.ResetEscape(h).None?
  }

  ghost predicate FailedRetryably(w: World, t: Table, address: int, count: int, k: nat) {
    var r := Classify(w.answer(k, t, address, count));
    r.Err? && Retried(r.error)
  }

  /** At most `left` calls; every call but the last failed retryably; the result is the last call's own,
      and a retryable failure is only reported when no attempt is left. */
  lemma {:induction false} LastAttemptDecides(w: World, t: Table, address: int, count: int, calls: nat,
      resets: nat, left: nat)
    requires left >= 1 && ResetsSwallowed(w)
    ensures var run := Attempts(w, t, address, count, calls, resets, left);
            && calls < run.calls <= calls + left
            && (forall k :: calls <= k < run.calls - 1 ==> FailedRetryably(w, t, address, count, k))
            && run.result == Classify(w.answer(run.calls - 1, t, address, count))
            && (FailedRetryably(w, t, address, count, run.calls - 1) ==> run.calls == calls + left)
    decreases left
  {
    if FailedRetryably(w, t, address, count, calls) && left > 1 {
      var r := Classify(w.answer(calls, t, address, count));
      var next := if IsDisconnectException(r.error) then resets + 1 else resets;
      LastAttemptDecides(w, t, address, count, calls + 1, next, left - 1);
    }
  }

  // ---------------------------------------------------------------- answer by answer

  /** Answers after which the request is sent again: no reply, any Modbus error but an illegal address, and
      the exceptions of a connection in trouble. */
  predicate TriesAgain(a: Answer) {
    match a
    case NoReply => true
    case ErrorReply(code) => code != Some(2)
    case Reply(_) => false
    case Raises(fault) => fault in {Timeout, ModbusIo, ConnectionLost, OsError, PlainModbus}
  }

  /** Those of them that reset the connection first. */
  predicate Resets(a: Answer) {
    match a
    case NoReply => false
    case ErrorReply(code) => code != Some(2)
    case Reply(_) => false
    case Raises(fault) => fault in {Timeout, ModbusIo, ConnectionLost, OsError}
  }

  /** Resets between the first k answers from `calls` on and the next. */
  function ResetsAmong(w: World, t: Table, address: int, count: int, calls: nat, k: nat): nat
    decreases k
  {
    if k == 0 then 0
    else
      var first := if Resets(w.answer(calls, t, address, count)) then 1 else 0;
      first + ResetsAmong(w, t, address, count, calls + 1, k - 1)
  }

  /** What the last answer comes to. */
  function Outcome(a: Answer): Result<seq<int>, Fault> {
    match a
    case NoReply => Err(PlainModbus)
    case ErrorReply(Some(code)) => Err(if code == 2 then Permanent else ModbusIo)
    case ErrorReply(None) => Err(ModbusIo)
    case Reply(words) => Ok(words)
    case Raises(fault) => Err(fault)
  }

  /** After k answers that cause another attempt, answer k is the one that counts if it is of another kind or
      no attempt is left. */
  lemma {:induction false} DecidedByAnswer(w: World, t: Table, address: int, count: int, calls: nat, resets: nat,
      left: nat, k: nat)
    requires ResetsSwallowed(w) && k < left
    requires forall j :: calls <= j < calls + k ==> TriesAgain(w.answer(j, t, address, count))
    requires TriesAgain(w.answer(calls + k, t, address, count)) ==> k == left - 1
    ensures Attempts(w, t, address, count, calls, resets, left)
         == Run(Outcome(w.answer(calls + k, t, address, count)), calls + k + 1,
                resets + ResetsAmong(w, t, address, count, calls, k))
    decreases k
  {
    if k > 0 {
      var a := w.answer(calls, t, address, count);
      assert TriesAgain(a);
      DecidedByAnswer(w, t, address, count, calls + 1, if Resets(a) then resets + 1 else resets, left - 1, k - 1);
    }
  }

  /** A fault of the reset is swallowed exactly if it is one of a connection in trouble; otherwise it goes up,
      the disconnect's first, the reconnect's only where there is a transport to reconnect. */
  lemma EscapingResets(w: World, h: nat, fault: Fault)
    ensures w.ResetEscape(h) == Some(fault) <==>
            && fault in {Permanent, PlainModbus, BadValue, Unlisted}
            && (w.disconnectFault(h) == Some(fault)
                || (w.disconnectFault(h).None? && w.hasTransport(h) && w.reconnectFault(h) == Some(fault)))
  {
  }

  /** And it ends the loop where it strikes. */
  lemma {:induction false} ResetEndsLoop(w: World, t: Table, address: int, count: int, calls: nat, resets: nat,
      left: nat, k: nat, fault: Fault)
    requires k + 1 < left
    requires forall j :: calls <= j <= calls + k ==> TriesAgain(w.answer(j, t, address, count))
    requires Resets(w.answer(calls + k, t, address, count))
    requires var h := resets + ResetsAmong(w, t, address, count, calls, k);
             (forall i :: resets <= i < h ==> w.ResetEscape(i).None?) && w.ResetEscape(h) == Some(fault)
    ensures Attempts(w, t, address, count, calls, resets, left)
         == Run(Err(fault), calls + k + 1, resets + ResetsAmong(w, t, address, count, calls, k) + 1)
    decreases k
  {
    var a := w.answer(calls, t, address, count);
    assert TriesAgain(a);
    if k > 0 {
      ResetEndsLoop(w, t, address, count, calls + 1, if Resets(a) then resets + 1 else resets, left - 1, k - 1, fault);
    }
  }

  /** Words are only ever returned as some reply brought them. */
  lemma {:induction false} OkIsAReply(w: World, t: Table, address: int, count: int, calls: nat, resets: nat, left: nat)
    requires Attempts(w, t, address, count, calls, resets, left).result.Ok?
    ensures var run := Attempts(w, t, address, count, calls, resets, left);
            calls < run.calls && w.answer(run.calls - 1, t, address, count) == Reply(run.result.value)
    decreases left
  {
    var r := Classify(w.answer(calls, t, address, count));
    if r.Err? {
      var next := if IsDisconnectException(r.error) then resets + 1 else resets;
      OkIsAReply(w, t, address, count, calls + 1, next, left - 1);
    }
  }

  /** Swallowed reset failures change neither the result nor the number of calls. */
  lemma {:induction false} ResetFailuresInvisible(w: World, v: World, t: Table, address: int, count: int,
      calls: nat, i: nat, j: nat, left: nat)
    requires w.answer == v.answer && ResetsSwallowed(w) && ResetsSwallowed(v)
    ensures Attempts(w, t, address, count, calls, i, left).result
         == Attempts(v, t, address, count, calls, j, left).result
    ensures Attempts(w, t, address, count, calls, i, left).calls == Attempts(v, t, address, count, calls, j, left).calls
    decreases left
  {
    if left > 1 && FailedRetryably(w, t, address, count, calls) {
      var r := Classify(w.answer(calls, t, address, count));
      if IsDisconnectException(r.error) {
        ResetFailuresInvisible(w, v, t, address, count, calls + 1, i + 1, j + 1, left - 1);
      } else {
        ResetFailuresInvisible(w, v, t, address, count, calls + 1, i, j, left - 1);
      }
    }
  }

  // ---------------------------------------------------------------- the link

  /** A word that a reply has brought for an address. */
  datatype Sighting = Sighting(table: Table, address: int, word: int)

  ghost function Sightings(t: Table, address: int, count: int, words: seq<int>): (r: set<Sighting>)
    ensures forall i :: 0 <= i < count && i < |words| ==> Sighting(t, address + i, words[i]) in r
    ensures forall s :: s in r ==>
              && s.table == t && 0 <= s.address - address < |words| && s.address - address < count
              && s.word == words[s.address - address]
  {
    set i | 0 <= i < |words| && i < count :: Sighting(t, address + i, words[i])
  }

  class Link {
    const world: World
    const retry: nat

    var calls: nat
    var resets: nat
    var client: Option<int>

    // every word brought by the replies so far, within the range it was asked for
    ghost var seen: set<Sighting>

    constructor (world: World, retry: nat, client: Option<int>)
      requires retry >= 1
      ensures this.world == world && this.retry == retry && this.client == client
      ensures calls == 0 && resets == 0 && seen == {}
    {
      this.world, this.retry, this.client := world, retry, client;
      calls, resets, seen := 0, 0, {};
    }

    method ExecuteReadCall(t: Table, address: int, count: int) returns (a: Answer)
      modifies this`calls, this`seen
      ensures a == world.answer(old(calls), t, address, count) && calls == old(calls) + 1
      ensures seen == old(seen) + if a.Reply? then Sightings(t, address, count, a.words) else {}
    {
      a := world.answer(calls, t, address, count);
      calls := calls + 1;
      if a.Reply? {
        seen := seen + Sightings(t, address, count, a.words);
      }
    }

    /** disconnect_and_reconnect_for_retry: the fault that escapes it, if any. */
    method DisconnectAndReconnectForRetry() returns (escape: Option<Fault>)
      modifies this`resets, this`client
      ensures resets == old(resets) + 1
      ensures escape == world.ResetEscape(old(resets))
      ensures client == world.ClientAfterReset(old(resets), old(client))
      ensures world.disconnectFault(old(resets)).Some? ==> client == old(client)
      ensures world.disconnectFault(old(resets)).None? && !world.hasTransport(old(resets)) ==> client == old(client)
      ensures world.disconnectFault(old(resets)).None? && world.hasTransport(old(resets)) ==>
                client == if world.reconnectFault(old(resets)).Some? then None else world.reconnected(old(resets))
    {
      var previous, h := client, resets;
      resets := resets + 1;
      if world.disconnectFault(h).Some? {
        return Escaping(world.disconnectFault(h).value);
      }
      client := None;
      if !world.hasTransport(h) {
        client := previous;
        return None;
      }
      if world.reconnectFault(h).Some? {
        return Escaping(world.reconnectFault(h).value);
      }
      client := world.reconnected(h);
      escape := None;
    }

    /** A transport is connected, or a client is there and connected. */
    predicate TransportUp()
      reads this
    {
      !world.TransportDown(calls, resets)
    }

    predicate ClientUp()
      reads this
    {
      client.Some? && world.clientUp(calls, resets)
    }

    method ReadWithRetry(t: Table, address: int, count: int) returns (r: Result<seq<int>, Fault>)
      modifies this`calls, this`resets, this`client, this`seen
      ensures Run(r, calls, resets) == Attempts(world, t, address, count, old(calls), old(resets), retry)
      ensures seen == old(seen) + if r.Ok? then Sightings(t, address, count, r.value) else {}
      ensures old(resets) <= resets && client == world.ClientAfter(old(resets), resets, old(client))
    {
      for attempt := 1 to retry + 1
        invariant Attempts(world, t, address, count, old(calls), old(resets), retry)
               == Attempts(world, t, address, count, calls, resets, retry - attempt + 1)
        invariant seen == old(seen)
        invariant old(resets) <= resets && client == world.ClientAfter(old(resets), resets, old(client))
      {
        var a := ExecuteReadCall(t, address, count);
        r := Classify(a);
        if r.Ok? || !Retried(r.error) {
          return;
        }
        if attempt == retry {
          return;
        }
        if IsDisconnectException(r.error) {
          var escape := DisconnectAndReconnectForRetry();
          if escape.Some? {
            return Err(escape.value);
          }
        }
      }
      r := Err(PlainModbus);
    }
  }
}
