/** The polling cycle and its run-long counters (coordinator/update.py, update_state.py, update_result.py,
    errors.py, and _trigger_reauth of coordinator/coordinator.py). */
module UpdateCycle {
  import opened Common

  /** ModbusFault covers ModbusException and ConnectionException; `auth` says its text names a credential.
      SystemFault covers OSError and ValueError; OtherFault is an exception that nothing here catches. */
  datatype Fault = ModbusFault(auth: bool) | TimeoutFault | SystemFault | OtherFault

  // Why an awaited call did not return.
  datatype Stop = Cancel | Raise(fault: Fault)

  /** How a cycle that entered the queue for the lock ended. `closing`: the coordinator was shutting down.
      `interrupted`: cancelled during the disconnect that handles the failure. */
  datatype CycleResult =
    | Success(seconds: real)
    | Failure(fault: Fault, closing: bool, interrupted: bool)
    | CancelledRunning
    | CancelledWaiting
  {
    predicate Counted() {
      Failure? && !fault.OtherFault? && !(fault.ModbusFault? && closing)
    }

    /** Counted, and its handling went on past the disconnect. */
    predicate Handled() {
      Counted() && !interrupted
    }

    predicate Unauthorised() {
      Failure? && fault.ModbusFault? && fault.auth
    }
  }

  datatype Reply = CachedData | FreshData | UpdateFailed | Cancelled | Raised

  // ---------------------------------------------------------------- what a history means

  function Successes(log: seq<CycleResult>): nat {
    if log == [] then 0
    else Successes(log[..|log| - 1]) + (if log[|log| - 1].Success? then 1 else 0)
  }

  function TotalSeconds(log: seq<CycleResult>): real {
    if log == [] then 0.0
    else TotalSeconds(log[..|log| - 1]) + (if log[|log| - 1].Success? then log[|log| - 1].seconds else 0.0)
  }

  function Failures(log: seq<CycleResult>): nat {
    if log == [] then 0
    else Failures(log[..|log| - 1]) + (if log[|log| - 1].Counted() then 1 else 0)
  }

  function Timeouts(log: seq<CycleResult>): nat {
    if log == [] then 0
    else Timeouts(log[..|log| - 1]) + (if log[|log| - 1].Counted() && log[|log| - 1].fault.TimeoutFault? then 1 else 0)
  }

  /** The statistics the cycle keeps. */
  datatype Statistics = Statistics(successfulReads: nat, failedReads: nat, timeoutErrors: nat,
      averageResponseTime: real)

  function AfterSuccess(s: Statistics, seconds: real): Statistics {
    var n := s.successfulReads + 1;
    s.(successfulReads := n, averageResponseTime := (s.averageResponseTime * (n - 1) as real + seconds) / n as real)
  }

  function AfterFailure(s: Statistics, timeoutError: bool): Statistics {
    s.(failedReads := s.failedReads + 1, timeoutErrors := s.timeoutErrors + if timeoutError then 1 else 0)
  }

  /** The statistics a history leaves: StatisticsCount and MeanIsAverage say what their numbers are. */
  function StatisticsOf(log: seq<CycleResult>): Statistics {
    if log == [] then Statistics(0, 0, 0, 0.0)
    else
      var before, r := StatisticsOf(log[..|log| - 1]), log[|log| - 1];
      if r.Success? then AfterSuccess(before, r.seconds)
      else if r.Counted() then AfterFailure(before, r.fault.TimeoutFault?)
      else before
  }

  lemma MeanGrows(s: Statistics, seconds: real)
    ensures var n := s.successfulReads + 1;
            AfterSuccess(s, seconds).averageResponseTime * n as real
            == s.averageResponseTime * (n - 1) as real + seconds
    ensures AfterSuccess(s, seconds).successfulReads == s.successfulReads + 1
  {
  }

  /** Each counter counts what it is named for. */
  lemma {:induction false} StatisticsCount(log: seq<CycleResult>)
    ensures StatisticsOf(log).successfulReads == Successes(log)
    ensures StatisticsOf(log).failedReads == Failures(log)
    ensures StatisticsOf(log).timeoutErrors == Timeouts(log)
  {
    if log != [] {
      StatisticsCount(log[..|log| - 1]);
    }
  }

  /** The mean times the successes is their total time. */
  lemma {:induction false} MeanIsAverage(log: seq<CycleResult>)
    ensures StatisticsOf(log).averageResponseTime * StatisticsOf(log).successfulReads as real == TotalSeconds(log)
  {
    hide AfterSuccess;
    if log != [] {
      var front, r := log[..|log| - 1], log[|log| - 1];
      MeanIsAverage(front);
      if r.Success? {
        MeanGrows(StatisticsOf(front), r.seconds);
      }
    }
  }

  /** Failures in a row, as the coordinator counts them: SinceLastSuccess says what that is. */
  function Streak(log: seq<CycleResult>): nat {
    if log == [] || log[|log| - 1].Success? then 0
    else Streak(log[..|log| - 1]) + (if log[|log| - 1].Counted() then 1 else 0)
  }

  /** The latest result makes the coordinator ask for new credentials. */
  predicate AsksLast(log: seq<CycleResult>, maxFailures: nat)
    requires log != []
  {
    log[|log| - 1].Handled() && (Streak(log) >= maxFailures || log[|log| - 1].Unauthorised())
  }

  predicate ReauthDue(log: seq<CycleResult>, maxFailures: nat) {
    log != [] && (ReauthDue(log[..|log| - 1], maxFailures) || AsksLast(log, maxFailures))
  }

  predicate WaitWasCancelled(log: seq<CycleResult>) {
    log != [] && (WaitWasCancelled(log[..|log| - 1]) || log[|log| - 1].CancelledWaiting?)
  }

  ghost predicate LimitReached(log: seq<CycleResult>, maxFailures: nat) {
    exists i :: 0 <= i < |log| && ReachesAt(log, i, maxFailures)
  }

  lemma SnocSuccess(log: seq<CycleResult>, seconds: real)
    ensures StatisticsOf(log + [Success(seconds)]) == AfterSuccess(StatisticsOf(log), seconds)
    ensures Streak(log + [Success(seconds)]) == 0
  {
    assert (log + [Success(seconds)])[..|log|] == log;
  }

  lemma SnocFailure(log: seq<CycleResult>, r: CycleResult)
    requires r.Counted()
    ensures StatisticsOf(log + [r]) == AfterFailure(StatisticsOf(log), r.fault.TimeoutFault?)
    ensures Streak(log + [r]) == Streak(log) + 1
  {
    assert (log + [r])[..|log|] == log;
  }

  lemma SnocUncounted(log: seq<CycleResult>, r: CycleResult)
    requires !r.Success? && !r.Counted()
    ensures StatisticsOf(log + [r]) == StatisticsOf(log) && Streak(log + [r]) == Streak(log)
  {
    assert (log + [r])[..|log|] == log;
  }

  lemma SnocFailures(log: seq<CycleResult>, r: CycleResult)
    ensures Failures(log + [r]) == Failures(log) + (if r.Counted() then 1 else 0)
  {
    assert (log + [r])[..|log|] == log;
  }

  lemma SnocReauth(log: seq<CycleResult>, r: CycleResult, maxFailures: nat)
    ensures ReauthDue(log + [r], maxFailures) <==>
            ReauthDue(log, maxFailures) || (r.Handled() && (Streak(log + [r]) >= maxFailures || r.Unauthorised()))
  {
    assert (log + [r])[..|log|] == log;
  }

  lemma SnocWait(log: seq<CycleResult>, r: CycleResult)
    ensures WaitWasCancelled(log + [r]) <==> WaitWasCancelled(log) || r.CancelledWaiting?
  {
    assert (log + [r])[..|log|] == log;
  }

  lemma {:induction false} DueOnceAsked(log: seq<CycleResult>, i: nat, maxFailures: nat)
    requires i < |log| && AsksLast(log[..i + 1], maxFailures)
    ensures ReauthDue(log, maxFailures)
  {
    if i < |log| - 1 {
      assert log[..|log| - 1][..i + 1] == log[..i + 1];
      DueOnceAsked(log[..|log| - 1], i, maxFailures);
    } else {
      assert log[..i + 1] == log;
    }
  }

  /** The streak is the number of counted failures after the last success, or of all if there is none. */
  lemma {:induction false} SinceLastSuccess(log: seq<CycleResult>, k: nat)
    requires k <= |log| && (k > 0 ==> log[k - 1].Success?)
    requires forall i :: k <= i < |log| ==> !log[i].Success?
    ensures Streak(log) == Failures(log[k..])
  {
    if k < |log| {
      SinceLastSuccess(log[..|log| - 1], k);
      assert log[k..] == log[..|log| - 1][k..] + [log[|log| - 1]];
      SnocFailures(log[..|log| - 1][k..], log[|log| - 1]);
    }
  }

  lemma {:induction false} TotalStaysBetween(log: seq<CycleResult>, lo: real, hi: real)
    requires forall i :: 0 <= i < |log| && log[i].Success? ==> lo <= log[i].seconds <= hi
    ensures lo * Successes(log) as real <= TotalSeconds(log) <= hi * Successes(log) as real
  {
    if log != [] {
      TotalStaysBetween(log[..|log| - 1], lo, hi);
    }
  }

  lemma Divided(x: real, y: real, n: nat, xs: real, ys: real)
    requires n >= 1 && xs == x * n as real && ys == y * n as real && xs <= ys
    ensures x <= y
  {
    assert x == xs / n as real && y == ys / n as real;
  }

  /** Once there was a success, the mean lies between any bounds of the response times. */
  lemma MeanStaysBetween(log: seq<CycleResult>, lo: real, hi: real)
    requires forall i :: 0 <= i < |log| && log[i].Success? ==> lo <= log[i].seconds <= hi
    requires Successes(log) >= 1
    ensures lo <= StatisticsOf(log).averageResponseTime <= hi
  {
    var mean, n, total := StatisticsOf(log).averageResponseTime, Successes(log), TotalSeconds(log);
    TotalStaysBetween(log, lo, hi);
    StatisticsCount(log);
    MeanIsAverage(log);
    Divided(lo, mean, n, lo * n as real, total);
    Divided(mean, hi, n, total, hi * n as real);
  }

  /** Result i makes the coordinator ask for new credentials. */
  predicate AsksAt(log: seq<CycleResult>, i: nat, maxFailures: nat)
    requires i < |log|
  {
    log[i].Handled() && (Streak(log[..i + 1]) >= maxFailures || log[i].Unauthorised())
  }

  /** Result i is a counted failure that finds the streak at its limit. */
  predicate ReachesAt(log: seq<CycleResult>, i: nat, maxFailures: nat)
    requires i < |log|
  {
    log[i].Counted() && Streak(log[..i + 1]) >= maxFailures
  }

  /** Reauthentication is due exactly when some result asked for it. */
  lemma {:induction false} DueExactly(log: seq<CycleResult>, maxFailures: nat)
    ensures ReauthDue(log, maxFailures) <==> exists i :: 0 <= i < |log| && AsksAt(log, i, maxFailures)
  {
    if ReauthDue(log, maxFailures) {
      var front := log[..|log| - 1];
      if ReauthDue(front, maxFailures) {
        DueExactly(front, maxFailures);
        var i :| 0 <= i < |front| && AsksAt(front, i, maxFailures);
        assert front[..i + 1] == log[..i + 1];
        assert AsksAt(log, i, maxFailures);
      } else {
        assert log[..|log|] == log;
        assert AsksAt(log, |log| - 1, maxFailures);
      }
    }
    if exists i :: 0 <= i < |log| && AsksAt(log, i, maxFailures) {
      var i :| 0 <= i < |log| && AsksAt(log, i, maxFailures);
      DueOnceAsked(log, i, maxFailures);
    }
  }

  /** When a streak at its limit asks for credentials: exactly when one of the failures that found it there
      was not cut off in its disconnect. The only other cause is a handled credential failure. */
  lemma LimitAsks(log: seq<CycleResult>, maxFailures: nat)
    ensures ReauthDue(log, maxFailures) <==>
            || (exists i :: 0 <= i < |log| && ReachesAt(log, i, maxFailures) && !log[i].interrupted)
            || (exists i :: 0 <= i < |log| && log[i].Handled() && log[i].Unauthorised())
  {
    DueExactly(log, maxFailures);
    if exists i :: 0 <= i < |log| && ReachesAt(log, i, maxFailures) && !log[i].interrupted {
      var i :| 0 <= i < |log| && ReachesAt(log, i, maxFailures) && !log[i].interrupted;
      assert AsksAt(log, i, maxFailures);
    }
    if exists i :: 0 <= i < |log| && log[i].Handled() && log[i].Unauthorised() {
      var i :| 0 <= i < |log| && log[i].Handled() && log[i].Unauthorised();
      assert AsksAt(log, i, maxFailures);
    }
    if ReauthDue(log, maxFailures) {
      var i :| 0 <= i < |log| && AsksAt(log, i, maxFailures);
      assert log[i].Unauthorised() || ReachesAt(log, i, maxFailures);
    }
  }

  /** That exception is real: the failure that completes the streak, cancelled in its disconnect, is
      counted and asks for nothing. */
  lemma LimitMissed(log: seq<CycleResult>, maxFailures: nat)
    requires maxFailures >= 1 && Streak(log) + 1 == maxFailures && !ReauthDue(log, maxFailures)
    ensures var after := log + [Failure(TimeoutFault, false, true)];
            LimitReached(after, maxFailures) && Streak(after) == maxFailures && !ReauthDue(after, maxFailures)
  {
    var last := Failure(TimeoutFault, false, true);
    var after := log + [last];
    SnocFailure(log, last);
    SnocReauth(log, last, maxFailures);
    assert after[..|log| + 1] == after;
    assert ReachesAt(after, |log|, maxFailures);
  }

  // ---------------------------------------------------------------- one reading cycle

  datatype Link = Absent | Down | Up

  // What the device layer does during one cycle.
  datatype World = World(
    connect: Option<Stop>, transport: Link, client: bool, read: Option<Stop>,
    dropped: bool, reconnect: Option<Stop>, transportAfter: Link, seconds: real,
    disconnectCancelled: bool)
  {
    predicate Linked() {
      transport.Up? || (transport.Absent? && client)
    }

    predicate MustReconnect() {
      transport.Up? && dropped
    }
  }

  /** What stops a cycle, in the order of the checks; None when it gets to its statistics. */
  function Stopped(w: World): Option<Stop> {
    if w.connect.Some? then w.connect
    else if !w.Linked() then Some(Raise(ModbusFault(false)))
    else if w.read.Some? then w.read
    else if !w.MustReconnect() then None
    else if w.reconnect.Some? then w.reconnect
    else if w.transportAfter.Up? then None
    else Some(Raise(ModbusFault(false)))
  }

  /** run_update_cycle up to its statistics. A transport that is up at the start may have dropped by the
      end of the read. */
  method RunUpdateCycle(w: World) returns (stop: Option<Stop>)
    ensures stop == Stopped(w)
    ensures w.connect.Some? ==> stop == w.connect
    ensures w.connect.None? && (w.transport.Down? || (w.transport.Absent? && !w.client)) ==>
              stop == Some(Raise(ModbusFault(false)))
    ensures w.connect.None? && (w.transport.Up? || (w.transport.Absent? && w.client)) && w.read.Some? ==> stop == w.read
    ensures w.connect.None? && w.transport.Absent? && w.client && w.read.None? ==> stop.None?
    ensures w.connect.None? && w.transport.Up? && w.read.None? ==>
              stop == if !w.dropped then None
                      else if w.reconnect.Some? then w.reconnect
                      else if w.transportAfter.Up? then None else Some(Raise(ModbusFault(false)))
  {
    if w.connect.Some? {
      return w.connect;
    }
    if w.transport.Down? {
      return Some(Raise(ModbusFault(false)));
    }
    if w.transport.Absent? && !w.client {
      return Some(Raise(ModbusFault(false)));
    }
    if w.read.Some? {
      return w.read;
    }
    if w.transport.Up? && w.dropped {
      if w.reconnect.Some? {
        return w.reconnect;
      }
      if !w.transportAfter.Up? {
        return Some(Raise(ModbusFault(false)));
      }
    }
    stop := None;
  }

  /** What a stopped cycle is recorded as. Only the counted failures disconnect under handle_update_error. */
  function Recorded(stop: Stop, closing: bool, disconnectCancelled: bool): CycleResult {
    if stop.Cancel? then CancelledRunning
    else if stop.fault.OtherFault? || (stop.fault.ModbusFault? && closing) then Failure(stop.fault, closing, false)
    else Failure(stop.fault, closing, disconnectCancelled)
  }

  /** The one result a cycle under the lock is recorded as. */
  function ResultOf(w: World, closing: bool): CycleResult {
    if Stopped(w).None? then Success(w.seconds) else Recorded(Stopped(w).value, closing, w.disconnectCancelled)
  }

  /** What the caller of async_update_data sees of a recorded result. */
  function Answer(r: CycleResult): Reply
    requires !r.CancelledWaiting?
  {
    match r
    case Success(_) => FreshData
    case CancelledRunning => Cancelled
    case Failure(fault, _, interrupted) =>
      if interrupted then Cancelled else if fault.OtherFault? then Raised else UpdateFailed
  }

  // ---------------------------------------------------------------- the coordinator

  datatype Holder = Cycle(task: nat) | Other

  datatype Event =
    | Call(task: nat)
    | Grant(task: nat)
    | CancelWaiting(task: nat)
    | Finish(world: World)
    | OtherLocks
    | OtherUnlocks
    | Shutdown

  /** What decides who may read, and what has been recorded. */
  datatype Control = Control(closing: bool, busy: bool, lock: Option<Holder>, waiting: set<nat>, log: seq<CycleResult>)

  /** The effect of one event; one that cannot happen in the current state has none. */
  function Next(s: Control, event: Event): Control {
    match event
    case Call(t) =>
      if s.closing || s.busy || t in s.waiting || s.lock == Some(Cycle(t)) then s
      else if s.lock.None? then s.(busy := true, lock := Some(Cycle(t)))
      else s.(busy := true, waiting := s.waiting + {t})
    case Grant(t) =>
      if s.lock.None? && t in s.waiting then s.(lock := Some(Cycle(t)), waiting := s.waiting - {t}) else s
    case CancelWaiting(t) =>
      if t in s.waiting then s.(waiting := s.waiting - {t}, log := s.log + [CancelledWaiting]) else s
    case Finish(w) =>
      if s.lock.Some? && s.lock.value.Cycle?
      then s.(busy := false, lock := None, log := s.log + [ResultOf(w, s.closing)]) else s
    case OtherLocks => if s.lock.None? then s.(lock := Some(Other)) else s
    case OtherUnlocks => if s.lock == Some(Other) then s.(lock := None) else s
    case Shutdown => s.(closing := true)
  }

  function NextAll(s: Control, events: seq<Event>): Control
    decreases |events|
  {
    if events == [] then s else NextAll(Next(s, events[0]), events[1..])
  }

  lemma {:induction false} NextAllConcat(s: Control, a: seq<Event>, b: seq<Event>)
    ensures NextAll(s, a + b) == NextAll(NextAll(s, a), b)
    decreases |a|
  {
    if a == [] {
      assert a + b == b;
    } else {
      assert (a + b)[0] == a[0] && (a + b)[1..] == a[1..] + b;
      NextAllConcat(Next(s, a[0]), a[1..], b);
    }
  }

  const IDLE := Control(false, false, None, {}, [])

  // Another lock user, and a cycle that is cancelled while it waits behind it.
  const CANCELLED_BEHIND_OTHER: seq<Event> := [OtherLocks, Call(0), CancelWaiting(0)]

  lemma CancelledBehindOther()
    ensures NextAll(IDLE, CANCELLED_BEHIND_OTHER) == Control(false, true, Some(Other), {}, [CancelledWaiting])
  {
    var held := IDLE.(lock := Some(Other));
    var waits := held.(busy := true, waiting := {} + {0});
    assert Next(IDLE, OtherLocks) == held && Next(held, Call(0)) == waits;
    assert Next(waits, CancelWaiting(0)) == Control(false, true, Some(Other), {}, [CancelledWaiting]);
    assert CANCELLED_BEHIND_OTHER[1..] == [Call(0), CancelWaiting(0)];
    assert NextAll(IDLE, CANCELLED_BEHIND_OTHER) == NextAll(held, [Call(0), CancelWaiting(0)]);
    assert NextAll(held, [Call(0), CancelWaiting(0)]) == NextAll(waits, [CancelWaiting(0)]);
  }

  class Coordinator {
    const hasEntry: bool
    const maxFailures: nat := 5
    var shuttingDown: bool
    var updateInProgress: bool
    var failedRegisters: set<string>
    var statistics: Statistics
    var consecutiveFailures: nat
    var reauthScheduled: bool
    var reauthFlows: nat
    var lock: Option<Holder>
    var waiting: set<nat>
    ghost var log: seq<CycleResult>

    /** Calls of async_update_data that set the busy flag and have not returned. */
    ghost function Active(): set<nat>
      reads this`waiting, this`lock
    {
      waiting + (if lock.Some? && lock.value.Cycle? then {lock.value.task} else {})
    }

    ghost function State(): Control
      reads this`shuttingDown, this`updateInProgress, this`lock, this`waiting, this`log
    {
      Control(shuttingDown, updateInProgress, lock, waiting, log)
    }

    ghost predicate CountersAreTrue()
      reads this`statistics, this`consecutiveFailures, this`log
    {
      statistics == StatisticsOf(log) && consecutiveFailures == Streak(log)
    }

    ghost predicate ReauthIsTrue()
      reads this`reauthScheduled, this`reauthFlows, this`log
    {
      && (reauthScheduled <==> hasEntry && ReauthDue(log, maxFailures))
      && reauthFlows == if reauthScheduled then 1 else 0
    }

    /** Busy exactly while a cycle is active, or for ever once one was cancelled while it waited. */
    ghost predicate BusyIsTrue()
      reads this`updateInProgress, this`waiting, this`lock, this`log
    {
      && (updateInProgress <==> Active() != {} || WaitWasCancelled(log))
      && (forall t, u :: t in Active() && u in Active() ==> t == u)
      && (WaitWasCancelled(log) ==> Active() == {})
      && (lock.Some? && lock.value.Cycle? ==> waiting == {})
    }

    ghost predicate Valid()
      reads this
    {
      CountersAreTrue() && ReauthIsTrue() && BusyIsTrue()
    }

    constructor (hasEntry: bool)
      ensures Valid() && State() == IDLE && Active() == {} && this.hasEntry == hasEntry
    {
      this.hasEntry := hasEntry;
      shuttingDown, updateInProgress, failedRegisters := false, false, {};
      statistics, consecutiveFailures := Statistics(0, 0, 0, 0.0), 0;
      reauthScheduled, reauthFlows := false, 0;
      lock, waiting, log := None, {}, [];
    }

    method BeginUpdateCycle() returns (cached: bool)
      modifies this`updateInProgress, this`failedRegisters
      ensures cached <==> old(updateInProgress)
      ensures updateInProgress
      ensures failedRegisters == if cached then old(failedRegisters) else {}
    {
      if updateInProgress {
        return true;
      }
      updateInProgress := true;
      failedRegisters := {};
      cached := false;
    }

    method FinishUpdateCycle()
      modifies this`updateInProgress
      ensures !updateInProgress
    {
      updateInProgress := false;
    }

    /** The counters go on describing the history. */
    method ApplySuccessResult(seconds: real)
      requires CountersAreTrue() && ReauthIsTrue()
      modifies this`statistics, this`consecutiveFailures, this`log
      ensures log == old(log) + [Success(seconds)] && CountersAreTrue() && ReauthIsTrue()
    {
      SnocSuccess(log, seconds);
      SnocReauth(log, Success(seconds), maxFailures);
      var n := statistics.successfulReads + 1;
      statistics := statistics.(
        successfulReads := n,
        averageResponseTime := (statistics.averageResponseTime * (n - 1) as real + seconds) / n as real);
      assert statistics == AfterSuccess(old(statistics), seconds);
      consecutiveFailures := 0;
      log := log + [Success(seconds)];
    }

    method ApplyUpdateFailureState(timeoutError: bool)
      modifies this`statistics, this`consecutiveFailures
      ensures statistics == AfterFailure(old(statistics), timeoutError)
      ensures consecutiveFailures == old(consecutiveFailures) + 1
    {
      statistics := statistics.(failedReads := statistics.failedReads + 1);
      if timeoutError {
        statistics := statistics.(timeoutErrors := statistics.timeoutErrors + 1);
      }
      consecutiveFailures := consecutiveFailures + 1;
    }

    method TriggerReauth()
      modifies this`reauthScheduled, this`reauthFlows
      ensures reauthScheduled == (old(reauthScheduled) || hasEntry)
      ensures reauthFlows == old(reauthFlows) + if reauthScheduled && !old(reauthScheduled) then 1 else 0
    {
      if reauthScheduled || !hasEntry {
        return;
      }
      reauthScheduled := true;
      reauthFlows := reauthFlows + 1;
    }

    /** One counted failure; only a ModbusFault is looked at for credentials. */
    method HandleUpdateError(fault: Fault, timeoutError: bool, checkAuth: bool, disconnectCancelled: bool)
      returns (reply: Reply)
      requires CountersAreTrue() && ReauthIsTrue()
      requires !fault.OtherFault? && (fault.ModbusFault? ==> !shuttingDown)
      requires timeoutError == fault.TimeoutFault? && checkAuth == fault.ModbusFault?
      modifies this`statistics, this`consecutiveFailures
      modifies this`reauthScheduled, this`reauthFlows, this`log
      ensures log == old(log) + [Failure(fault, shuttingDown, disconnectCancelled)]
      ensures CountersAreTrue() && ReauthIsTrue()
      ensures reply == if disconnectCancelled then Cancelled else UpdateFailed
    {
      ghost var r := Failure(fault, shuttingDown, disconnectCancelled);
      SnocFailure(log, r);
      SnocReauth(log, r, maxFailures);
      ApplyUpdateFailureState(timeoutError);
      log := log + [r];
      if disconnectCancelled {
        return Cancelled;
      }
      if consecutiveFailures >= maxFailures {
        TriggerReauth();
      }
      if checkAuth && fault.ModbusFault? && fault.auth {
        TriggerReauth();
      }
      reply := UpdateFailed;
    }

    /** async_update_data up to the lock. Answers at once, takes a free lock, or waits for it. */
    method EnterUpdate(t: nat) returns (reply: Option<Reply>)
      requires Valid() && t !in Active()
      modifies this`updateInProgress, this`failedRegisters, this`waiting, this`lock
      ensures Valid()
      ensures reply == if shuttingDown || old(updateInProgress) then Some(CachedData) else None
      ensures reply.Some? ==> Active() == old(Active()) && failedRegisters == old(failedRegisters)
      ensures reply.None? ==> Active() == {t} && failedRegisters == {}
      ensures State() == Next(old(State()), Call(t))
    {
      hide CountersAreTrue, ReauthIsTrue;
      if shuttingDown {
        return Some(CachedData);
      }
      var cached := BeginUpdateCycle();
      if cached {
        return Some(CachedData);
      }
      if lock.None? {
        lock := Some(Cycle(t));
      } else {
        waiting := waiting + {t};
      }
      reply := None;
    }

    method GrantLock(t: nat)
      requires Valid() && lock.None? && t in waiting
      modifies this`waiting, this`lock
      ensures Valid() && Active() == old(Active()) && State() == Next(old(State()), Grant(t))
    {
      hide CountersAreTrue, ReauthIsTrue;
      waiting := waiting - {t};
      lock := Some(Cycle(t));
    }

    /** The lock is awaited before the try block, so nothing clears the flag. */
    method CancelledAtTheLock(t: nat)
      requires Valid() && t in waiting
      modifies this`waiting, this`log
      ensures Valid() && Active() == {} && updateInProgress && log == old(log) + [CancelledWaiting]
      ensures State() == Next(old(State()), CancelWaiting(t))
    {
      hide CountersAreTrue, ReauthIsTrue;
      waiting := waiting - {t};
      SnocWait(log, CancelledWaiting);
      RecordUncounted(CancelledWaiting);
    }

    ghost method RecordUncounted(r: CycleResult)
      requires CountersAreTrue() && ReauthIsTrue() && !r.Success? && !r.Counted()
      modifies this`log
      ensures CountersAreTrue() && ReauthIsTrue() && log == old(log) + [r]
    {
      SnocUncounted(log, r);
      SnocReauth(log, r, maxFailures);
      log := log + [r];
    }

    /** The except clauses: what a cycle that did not return is recorded as. */
    method HandleStop(stop: Stop, disconnectCancelled: bool) returns (reply: Reply)
      requires CountersAreTrue() && ReauthIsTrue()
      modifies this`statistics, this`consecutiveFailures
      modifies this`reauthScheduled, this`reauthFlows, this`log
      ensures CountersAreTrue() && ReauthIsTrue()
      ensures log == old(log) + [Recorded(stop, shuttingDown, disconnectCancelled)]
      ensures reply == Answer(Recorded(stop, shuttingDown, disconnectCancelled))
      ensures stop.Cancel? ==> reply == Cancelled
      ensures stop == Raise(OtherFault) ==> reply == Raised
      ensures stop.Raise? && stop.fault.ModbusFault? && shuttingDown ==> reply == UpdateFailed
      ensures stop.Raise? && !stop.fault.OtherFault? && !(stop.fault.ModbusFault? && shuttingDown) ==>
                reply == if disconnectCancelled then Cancelled else UpdateFailed
    {
      hide CountersAreTrue, ReauthIsTrue;
      if stop.Cancel? {
        RecordUncounted(CancelledRunning);
        return Cancelled;
      }
      match stop.fault {
        case ModbusFault(_) =>
          if shuttingDown {
            RecordUncounted(Failure(stop.fault, shuttingDown, false));
            reply := UpdateFailed;
          } else {
            reply := HandleUpdateError(stop.fault, false, true, disconnectCancelled);
          }
        case TimeoutFault => reply := HandleUpdateError(stop.fault, true, false, disconnectCancelled);
        case SystemFault => reply := HandleUpdateError(stop.fault, false, false, disconnectCancelled);
        case OtherFault =>
          RecordUncounted(Failure(stop.fault, shuttingDown, false));
          reply := Raised;
      }
    }

    /** The try block with its except clauses: one result is recorded, whatever happened. */
    method TryUpdate(w: World) returns (reply: Reply)
      requires CountersAreTrue() && ReauthIsTrue()
      modifies this`statistics, this`consecutiveFailures, this`reauthScheduled, this`reauthFlows, this`log
      ensures CountersAreTrue() && ReauthIsTrue()
      ensures log == old(log) + [ResultOf(w, shuttingDown)] && reply == Answer(ResultOf(w, shuttingDown))
      ensures WaitWasCancelled(log) == WaitWasCancelled(old(log))
    {
      hide CountersAreTrue, ReauthIsTrue;
      var stop := RunUpdateCycle(w);
      SnocWait(log, ResultOf(w, shuttingDown));
      if stop.None? {
        ApplySuccessResult(w.seconds);
        reply := FreshData;
      } else {
        reply := HandleStop(stop.value, w.disconnectCancelled);
      }
    }

    /** The body under the lock and its finally: the flag is cleared and the lock released on every path. */
    method UpdateUnderLock(w: World) returns (reply: Reply)
      requires Valid() && lock.Some? && lock.value.Cycle?
      modifies this`statistics, this`consecutiveFailures, this`reauthScheduled, this`reauthFlows, this`log
      modifies this`updateInProgress, this`lock
      ensures Valid() && Active() == {} && lock.None? && !updateInProgress
      ensures log == old(log) + [ResultOf(w, shuttingDown)] && reply == Answer(ResultOf(w, shuttingDown))
      ensures reply == FreshData <==> Stopped(w).None?
      ensures WaitWasCancelled(log) == WaitWasCancelled(old(log))
    {
      hide CountersAreTrue, ReauthIsTrue;
      assert lock.value.task in Active();
      reply := TryUpdate(w);
      FinishUpdateCycle();
      lock := None;
    }

    /** One event of the interleaving; one that cannot happen in the current state is skipped. */
    method Step(event: Event)
      requires Valid()
      modifies this
      ensures Valid() && old(log) <= log && State() == Next(old(State()), event)
      ensures WaitWasCancelled(old(log)) ==> log == old(log)
      ensures !event.CancelWaiting? ==> WaitWasCancelled(log) == WaitWasCancelled(old(log))
    {
      hide CountersAreTrue, ReauthIsTrue;
      match event {
        case Call(t) =>
          if t !in waiting && lock != Some(Cycle(t)) {
            var _ := EnterUpdate(t);
          }
        case Grant(t) =>
          if lock.None? && t in waiting {
            GrantLock(t);
          }
        case CancelWaiting(t) =>
          if t in waiting {
            assert t in Active();
            CancelledAtTheLock(t);
          }
        case Finish(w) =>
          if lock.Some? && lock.value.Cycle? {
            assert lock.value.task in Active();
            var _ := UpdateUnderLock(w);
          }
        case OtherLocks =>
          if lock.None? {
            lock := Some(Other);
          }
        case OtherUnlocks =>
          if lock == Some(Other) {
            lock := None;
          }
        case Shutdown =>
          shuttingDown := true;
      }
    }

    /** Any interleaving of calls, cancellations, cycles, other lock users and a shutdown. */
    method Replay(events: seq<Event>)
      requires Valid()
      modifies this
      ensures Valid() && old(log) <= log && State() == NextAll(old(State()), events)
      ensures statistics == StatisticsOf(log) && consecutiveFailures == Streak(log)
      ensures statistics.averageResponseTime * statistics.successfulReads as real == TotalSeconds(log)
      ensures reauthFlows <= 1
      ensures reauthFlows == 1 <==> hasEntry && exists i :: 0 <= i < |log| && AsksAt(log, i, 5)
      ensures WaitWasCancelled(old(log)) ==> log == old(log) && updateInProgress && Active() == {}
      ensures !WaitWasCancelled(old(log)) && (forall e :: e in events ==> !e.CancelWaiting?) ==>
                (updateInProgress <==> Active() != {})
    {
      hide StatisticsOf, TotalSeconds, Streak, ReauthDue;
      for i := 0 to |events|
        invariant Valid() && old(log) <= log
        invariant NextAll(old(State()), events) == NextAll(State(), events[i..])
        invariant WaitWasCancelled(old(log)) ==> log == old(log)
        invariant !WaitWasCancelled(old(log)) && (forall e :: e in events ==> !e.CancelWaiting?) ==>
                    !WaitWasCancelled(log)
      {
        assert events[i..][0] == events[i] && events[i..][1..] == events[i + 1..];
        Step(events[i]);
      }
      DueExactly(log, maxFailures);
      MeanIsAverage(log);
    }
  }

  /** The stuck flag is reachable: a cycle cancelled behind another lock holder leaves a coordinator that
      never completes a cycle again, whatever happens next. */
  method StuckAfterCancelledWait(hasEntry: bool, later: seq<Event>) returns (c: Coordinator)
    ensures fresh(c) && c.Valid() && c.log == [CancelledWaiting]
    ensures c.updateInProgress && c.Active() == {}
    ensures c.State() == NextAll(IDLE, CANCELLED_BEHIND_OTHER + later)
  {
    c := new Coordinator(hasEntry);
    CancelledBehindOther();
    c.Replay(CANCELLED_BEHIND_OTHER);
    assert WaitWasCancelled([CancelledWaiting]);
    NextAllConcat(IDLE, CANCELLED_BEHIND_OTHER, later);
    c.Replay(later);
  }
}
