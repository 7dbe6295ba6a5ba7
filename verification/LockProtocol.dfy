/** Many tasks, one bus: writers, write-and-read tasks and update cycles interleave at every request,
    serialised only by the write lock (coordinator/schedule.py, coordinator/update.py). */
module LockProtocol {
  import opened Common
  import opened ReadPlanner
  import opened WriteAttempts

  /** A writer sends its chunks, again from the first after a failure, and may then read back; a reader
      (an update cycle, a scan, a connection test) only reads. */
  datatype Program =
    | Writer(chunks: seq<WordChunk>, retry: nat, readsBack: bool, readStart: int, readCount: nat)
    | Reader

  datatype Stage =
    | Waiting
    | Writing(attempt: nat, next: nat)
    | Reading
    | Done(ok: bool, readback: Option<seq<int>>)
  {
    predicate InCriticalSection() {
      Writing? || Reading?
    }
  }

  datatype Task = Task(program: Program, stage: Stage)

  datatype Request = WriteRequest(chunk: WordChunk) | ReadRequest(start: int, count: nat)

  datatype BusEvent = BusEvent(task: nat, request: Request)

  /** One holding of the lock, from acquire to release: the memory it found, the one it left, and whether
      the task succeeded. */
  datatype Session = Session(task: nat, before: Memory, after: Memory, ok: bool)

  /** `found` is the memory at the latest acquire, `origin` the memory before the first; with the sessions
      they are history that no step looks at. */
  datatype State = State(lock: Option<nat>, tasks: seq<Task>, memory: Memory, bus: seq<BusEvent>,
                         origin: Memory, found: Memory, sessions: seq<Session>)
  {
    function Stage(t: nat): Stage
      requires t < |tasks|
    {
      tasks[t].stage
    }

    function At(t: nat, stage: Stage): State
      requires t < |tasks|
    {
      this.(tasks := tasks[t := tasks[t].(stage := stage)])
    }

    function Finished(t: nat, ok: bool, readback: Option<seq<int>>): State
      requires t < |tasks|
    {
      At(t, Done(ok, readback)).(lock := None, sessions := sessions + [Session(t, found, memory, ok)])
    }

    function Sent(t: nat, request: Request): State {
      this.(bus := bus + [BusEvent(t, request)])
    }
  }

  /** What a task may do next. The device chooses among Acked, Failed and Answered; Cancelled can strike
      any holder. */
  datatype Action =
    | Acquire
    | Acked
    | Failed(applied: bool, again: bool)
    | Complete
    | Answered(received: Option<nat>)
    | Poll(start: int, count: nat)
    | Release
    | Cancelled

  /** Only acquiring looks at the lock: that the other steps happen while holding it is proved. */
  predicate Enabled(s: State, t: nat, a: Action) {
    t < |s.tasks| &&
    var task := s.tasks[t];
    match a
    case Acquire => task.stage.Waiting? && s.lock.None?
    case Acked => task.program.Writer? && task.stage.Writing? && task.stage.next < |task.program.chunks|
    case Failed(_, again) =>
      && task.program.Writer? && task.stage.Writing? && task.stage.next < |task.program.chunks|
      && (again ==> task.stage.attempt < task.program.retry)
    case Complete => task.program.Writer? && task.stage.Writing? && task.stage.next == |task.program.chunks|
    case Answered(_) => task.program.Writer? && task.stage.Reading?
    case Poll(_, _) => task.program.Reader? && task.stage.Reading?
    case Release => task.program.Reader? && task.stage.Reading?
    case Cancelled => task.stage.InCriticalSection()
  }

  function Apply(s: State, t: nat, a: Action): State
    requires Enabled(s, t, a)
  {
    var program, stage := s.tasks[t].program, s.tasks[t].stage;
    match a
    case Acquire => s.At(t, if program.Writer? then Writing(1, 0) else Reading).(lock := Some(t), found := s.memory)
    case Acked =>
      var chunk := program.chunks[stage.next];
      s.Sent(t, WriteRequest(chunk)).At(t, Writing(stage.attempt, stage.next + 1)).(memory := Store(s.memory, chunk))
    case Failed(applied, again) =>
      var chunk := program.chunks[stage.next];
      var after := s.Sent(t, WriteRequest(chunk)).(memory := if applied then Store(s.memory, chunk) else s.memory);
      if again then after.At(t, Writing(stage.attempt + 1, 0)) else after.Finished(t, false, None)
    case Complete => if program.readsBack then s.At(t, Reading) else s.Finished(t, true, None)
    case Answered(received) =>
      var reply := if received.Some? then Some(CellRun(s.memory, program.readStart, received.value)) else None;
      s.Sent(t, ReadRequest(program.readStart, program.readCount)).Finished(t, true, reply)
    case Poll(start, count) => s.Sent(t, ReadRequest(start, count))
    case Release => s.Finished(t, true, None)
    case Cancelled => s.Finished(t, false, None)
  }

  /** A holding ends well by completing, by reading back whatever came of that, or by releasing; and badly by
      a failure that is not tried again or a cancellation. */
  lemma EndsWell(s: State, t: nat, a: Action)
    requires Enabled(s, t, a) && Apply(s, t, a).tasks[t].stage.Done?
    ensures Apply(s, t, a).tasks[t].stage.ok <==> a.Complete? || a.Answered? || a.Release?
    ensures Apply(s, t, a).lock.None? && !s.tasks[t].stage.Done?
  {
  }

  /** A read-back that is answered is what the memory holds there, as many words as the answer has; without
      an answer there is none. */
  lemma ReadsBack(s: State, t: nat, received: Option<nat>)
    requires Enabled(s, t, Answered(received))
    ensures Apply(s, t, Answered(received)).tasks[t].stage.Done?
    ensures var readback := Apply(s, t, Answered(received)).tasks[t].stage.readback;
            if received.None? then readback.None?
            else readback.Some? && |readback.value| == received.value
                 && forall k :: 0 <= k < received.value ==>
                      readback.value[k] == Cell(s.memory, s.tasks[t].program.readStart + k)
  {
  }

  /** The request a step puts on the bus, if any: the next chunk, answered or not, the read-back, or a poll. */
  function RequestsOf(s: State, t: nat, a: Action): seq<BusEvent>
    requires Enabled(s, t, a)
  {
    var program, stage := s.tasks[t].program, s.tasks[t].stage;
    match a
    case Acked => [BusEvent(t, WriteRequest(program.chunks[stage.next]))]
    case Failed(_, _) => [BusEvent(t, WriteRequest(program.chunks[stage.next]))]
    case Answered(_) => [BusEvent(t, ReadRequest(program.readStart, program.readCount))]
    case Poll(start, count) => [BusEvent(t, ReadRequest(start, count))]
    case _ => []
  }

  // ---------------------------------------------------------------- invariants

  ghost predicate WellPlanned(s: State) {
    forall t :: 0 <= t < |s.tasks| && s.tasks[t].program.Writer? ==> Apart(s.tasks[t].program.chunks)
  }

  /** A task is between acquiring and releasing exactly while the lock is its own. */
  ghost predicate Exclusive(s: State) {
    forall t :: 0 <= t < |s.tasks| ==> (s.tasks[t].stage.InCriticalSection() <==> s.lock == Some(t))
  }

  /** The requests of one lock holder are contiguous on the bus. */
  ghost predicate Contiguous(bus: seq<BusEvent>) {
    forall i, j, k :: 0 <= i < j < k < |bus| && bus[i].task == bus[k].task ==> bus[j].task == bus[i].task
  }

  /** Tasks on the bus have left the queue, and a holder that has sent anything sent the latest request. */
  ghost predicate BusBelongs(s: State) {
    forall i :: 0 <= i < |s.bus| ==>
      && s.bus[i].task < |s.tasks| && !s.tasks[s.bus[i].task].stage.Waiting?
      && (s.lock == Some(s.bus[i].task) ==> s.bus[|s.bus| - 1].task == s.bus[i].task)
  }

  ghost predicate WrittenUpTo(chunks: seq<WordChunk>, n: nat, m: Memory) {
    forall j :: 0 <= j < |chunks| && j < n ==> Holds(m, chunks[j].start, chunks[j].words)
  }

  /** The read-back shows the words that were just acknowledged, wherever it overlaps them. */
  ghost predicate ShowsWrite(p: Program, words: seq<int>)
    requires p.Writer?
  {
    forall j, k :: 0 <= j < |p.chunks| && 0 <= k < |words| && p.chunks[j].Covers(p.readStart + k) ==>
      words[k] == p.chunks[j].words[p.readStart + k - p.chunks[j].start]
  }

  ghost predicate TaskSound(task: Task, m: Memory) {
    task.program.Writer? ==>
      match task.stage
      case Waiting => true
      case Writing(attempt, next) =>
        && 1 <= attempt <= Max(1, task.program.retry)
        && next <= |task.program.chunks| && WrittenUpTo(task.program.chunks, next, m)
      case Reading => WrittenUpTo(task.program.chunks, |task.program.chunks|, m)
      case Done(ok, readback) => readback.Some? ==> ok && ShowsWrite(task.program, readback.value)
  }

  /** What the sessions so far have made of the memory. */
  function LeftBy(origin: Memory, sessions: seq<Session>): Memory {
    if sessions == [] then origin else sessions[|sessions| - 1].after
  }

  /** Each session found what the one before it left. */
  ghost predicate Chained(origin: Memory, sessions: seq<Session>) {
    forall i :: 0 <= i < |sessions| ==> sessions[i].before == LeftBy(origin, sessions[..i])
  }

  /** A program's holding took `before` to `after`: every chunk of a writer wholly old or wholly new, and
      new if it succeeded; nothing else changed. */
  ghost predicate Effect(p: Program, before: Memory, after: Memory, ok: bool) {
    if p.Writer? then OldOrNew(p.chunks, before, after) && (ok ==> WrittenUpTo(p.chunks, |p.chunks|, after))
    else after == before
  }

  ghost predicate SessionSound(tasks: seq<Task>, x: Session) {
    && x.task < |tasks| && tasks[x.task].stage.Done? && tasks[x.task].stage.ok == x.ok
    && Effect(tasks[x.task].program, x.before, x.after, x.ok)
  }

  ghost predicate HasSession(sessions: seq<Session>, t: nat) {
    exists i :: 0 <= i < |sessions| && sessions[i].task == t
  }

  /** The sessions chain, each did what its task may do, and the finished tasks have one each. */
  ghost predicate Past(s: State) {
    && Chained(s.origin, s.sessions)
    && (forall i :: 0 <= i < |s.sessions| ==> SessionSound(s.tasks, s.sessions[i]))
    && (forall t :: 0 <= t < |s.tasks| && s.tasks[t].stage.Done? ==> HasSession(s.sessions, t))
    && (forall i, j :: 0 <= i < j < |s.sessions| ==> s.sessions[i].task != s.sessions[j].task)
  }

  /** What the latest session left is the memory, or what the holder found. */
  ghost predicate Present(s: State) {
    match s.lock
    case None => s.memory == LeftBy(s.origin, s.sessions)
    case Some(t) =>
      && s.found == LeftBy(s.origin, s.sessions)
      && t < |s.tasks| && Effect(s.tasks[t].program, s.found, s.memory, false)
  }

  /** The memory is what the sessions, one after another, have made of it, and what the holder has done since. */
  ghost predicate Serial(s: State) {
    Past(s) && Present(s)
  }

  ghost predicate TasksSound(s: State) {
    forall t :: 0 <= t < |s.tasks| ==> TaskSound(s.tasks[t], s.memory)
  }

  ghost predicate Inv(s: State) {
    && WellPlanned(s) && Exclusive(s) && Contiguous(s.bus) && BusBelongs(s) && Serial(s) && TasksSound(s)
  }

  ghost predicate Initial(s: State) {
    && WellPlanned(s) && s.lock.None? && s.bus == [] && s.sessions == [] && s.origin == s.memory
    && forall t :: 0 <= t < |s.tasks| ==> s.tasks[t].stage.Waiting?
  }

  // ---------------------------------------------------------------- every step keeps them

  lemma InitialInv(s: State)
    requires Initial(s)
    ensures Inv(s)
  {
  }

  lemma StepKeepsLock(s: State, t: nat, a: Action)
    requires Inv(s) && Enabled(s, t, a)
    ensures WellPlanned(Apply(s, t, a)) && Exclusive(Apply(s, t, a))
  {
    hide Serial, TaskSound;
  }

  /** Only a task that sent the latest request, or none yet, may send the next one. */
  lemma NextKeepsContiguous(bus: seq<BusEvent>, next: BusEvent)
    requires Contiguous(bus)
    requires forall i :: 0 <= i < |bus| && bus[i].task == next.task ==> bus[|bus| - 1].task == next.task
    ensures Contiguous(bus + [next])
  {
    var longer := bus + [next];
    forall i, j, k | 0 <= i < j < k < |longer| && longer[i].task == longer[k].task
      ensures longer[j].task == longer[i].task
    {
      assert longer[i] == bus[i] && longer[j] == bus[j];
      if k == |bus| && j < |bus| - 1 {
        assert bus[|bus| - 1].task == bus[i].task;
      }
    }
  }

  lemma {:induction false} StepKeepsContiguous(s: State, t: nat, a: Action)
    requires Inv(s) && Enabled(s, t, a)
    ensures Contiguous(Apply(s, t, a).bus)
  {
    hide Serial, TaskSound, WellPlanned;
    var bus := Apply(s, t, a).bus;
    if bus != s.bus {
      assert s.lock == Some(t);
      NextKeepsContiguous(s.bus, bus[|s.bus|]);
    }
  }

  lemma StepKeepsBelonging(s: State, t: nat, a: Action)
    requires Inv(s) && Enabled(s, t, a)
    ensures BusBelongs(Apply(s, t, a))
  {
    hide Serial, TasksSound, WellPlanned, Contiguous;
    var r := Apply(s, t, a);
    assert a.Acquire? || s.lock == Some(t);
    forall i | 0 <= i < |r.bus|
      ensures r.bus[i].task < |r.tasks| && !r.tasks[r.bus[i].task].stage.Waiting?
      ensures r.lock == Some(r.bus[i].task) ==> r.bus[|r.bus| - 1].task == r.bus[i].task
    {
      if i < |s.bus| {
        assert r.bus[i] == s.bus[i];
      }
    }
  }

  lemma ReadShowsWrite(p: Program, m: Memory, count: nat)
    requires p.Writer? && WrittenUpTo(p.chunks, |p.chunks|, m)
    ensures ShowsWrite(p, CellRun(m, p.readStart, count))
  {
    var words := CellRun(m, p.readStart, count);
    forall j, k | 0 <= j < |p.chunks| && 0 <= k < |words| && p.chunks[j].Covers(p.readStart + k)
      ensures words[k] == p.chunks[j].words[p.readStart + k - p.chunks[j].start]
    {
      var o := p.readStart + k - p.chunks[j].start;
      assert HasWord(m, p.chunks[j].start + o, p.chunks[j].words[o]);
      assert words[k] == Cell(m, p.readStart + k);
    }
  }

  /** Storing chunk `next` extends what is written and spoils none of it. */
  lemma StoreExtends(chunks: seq<WordChunk>, next: nat, m: Memory)
    requires next < |chunks| && Apart(chunks) && WrittenUpTo(chunks, next, m)
    ensures WrittenUpTo(chunks, next + 1, Store(m, chunks[next]))
  {
    NothingWrittenYet(chunks, m);
    StoreStaysOldOrNew(chunks, m, m, next);
  }

  lemma {:induction false} StepKeepsTasks(s: State, t: nat, a: Action)
    requires Inv(s) && Enabled(s, t, a)
    ensures TasksSound(Apply(s, t, a))
  {
    hide Serial, Contiguous, BusBelongs;
    var r := Apply(s, t, a);
    var program, stage := s.tasks[t].program, s.tasks[t].stage;
    assert TaskSound(s.tasks[t], s.memory);
    forall u | 0 <= u < |s.tasks| && u != t ensures TaskSound(r.tasks[u], r.memory) {
      assert r.tasks[u] == s.tasks[u] && TaskSound(s.tasks[u], s.memory);
      assert a.Acquire? || s.lock == Some(t);
    }
    match a {
      case Acked => StoreExtends(program.chunks, stage.next, s.memory);
      case Answered(received) =>
        if received.Some? {
          ReadShowsWrite(program, s.memory, received.value);
        }
      case _ =>
    }
  }

  lemma ChainGrows(origin: Memory, sessions: seq<Session>, x: Session)
    requires Chained(origin, sessions) && x.before == LeftBy(origin, sessions)
    ensures Chained(origin, sessions + [x])
  {
    var longer := sessions + [x];
    forall i | 0 <= i < |longer| ensures longer[i].before == LeftBy(origin, longer[..i]) {
      assert longer[..i] == sessions[..i];
      assert i == |sessions| ==> sessions[..i] == sessions;
    }
  }

  lemma SessionFound(sessions: seq<Session>, x: Session, t: nat)
    ensures HasSession(sessions + [x], t) <==> HasSession(sessions, t) || x.task == t
  {
    var longer := sessions + [x];
    assert longer[|sessions|] == x;
    if HasSession(sessions, t) {
      var i :| 0 <= i < |sessions| && sessions[i].task == t;
      assert longer[i].task == t;
    }
  }

  /** One task moves, the others do not. */
  ghost predicate OnlyMoves(s: State, r: State, t: nat) {
    && t < |s.tasks| == |r.tasks| && (forall u :: 0 <= u < |s.tasks| && u != t ==> r.tasks[u] == s.tasks[u])
    && r.tasks[t].program == s.tasks[t].program && !s.tasks[t].stage.Done? && r.origin == s.origin
  }

  lemma OthersStaySound(s: State, r: State, t: nat)
    requires Past(s) && OnlyMoves(s, r, t)
    ensures forall i :: 0 <= i < |s.sessions| ==> SessionSound(r.tasks, s.sessions[i]) && s.sessions[i].task != t
  {
    hide Effect, Chained;
    forall i | 0 <= i < |s.sessions| ensures SessionSound(r.tasks, s.sessions[i]) && s.sessions[i].task != t {
      assert SessionSound(s.tasks, s.sessions[i]);
    }
  }

  /** A session joins the history when its task lets the lock go. */
  lemma SessionEnds(s: State, r: State, t: nat, x: Session)
    requires Serial(s) && s.lock == Some(t) && r.lock.None? && OnlyMoves(s, r, t)
    requires x.task == t && x.before == s.found && x.after == r.memory && SessionSound(r.tasks, x)
    requires r.sessions == s.sessions + [x]
    ensures Serial(r)
  {
    hide SessionSound, Chained;
    ChainGrows(s.origin, s.sessions, x);
    OthersStaySound(s, r, t);
    forall u | 0 <= u < |r.tasks| && r.tasks[u].stage.Done? ensures HasSession(r.sessions, u) {
      SessionFound(s.sessions, x, u);
    }
  }

  /** A step that leaves its task holding the lock. */
  lemma SessionGoesOn(s: State, r: State, t: nat)
    requires Serial(s) && (s.lock == Some(t) || s.lock.None?) && r.lock == Some(t) && OnlyMoves(s, r, t)
    requires !r.tasks[t].stage.Done? && r.sessions == s.sessions
    requires r.found == if s.lock.None? then s.memory else s.found
    requires Effect(r.tasks[t].program, r.found, r.memory, false)
    ensures Serial(r)
  {
    hide Effect, SessionSound, Chained;
    OthersStaySound(s, r, t);
  }

  lemma StepKeepsSerial(s: State, t: nat, a: Action)
    requires Inv(s) && Enabled(s, t, a)
    ensures Serial(Apply(s, t, a))
  {
    hide Contiguous, BusBelongs, Past, Store;
    var r := Apply(s, t, a);
    var p, stage := s.tasks[t].program, s.tasks[t].stage;
    assert TaskSound(s.tasks[t], s.memory);
    match a {
      case Acquire => NothingWrittenYet(if p.Writer? then p.chunks else [], s.memory);
      case Acked => StoreStaysOldOrNew(p.chunks, s.found, s.memory, stage.next);
      case Failed(applied, again) => StoreStaysOldOrNew(p.chunks, s.found, s.memory, stage.next);
      case _ =>
    }
    if r.lock == Some(t) {
      SessionGoesOn(s, r, t);
    } else {
      SessionEnds(s, r, t, r.sessions[|s.sessions|]);
    }
  }

  lemma StepKeepsOrigin(s: State, t: nat, a: Action)
    requires Enabled(s, t, a)
    ensures Apply(s, t, a).origin == s.origin
  {
  }

  lemma {:induction false} StepKeepsInv(s: State, t: nat, a: Action)
    requires Inv(s) && Enabled(s, t, a)
    ensures Inv(Apply(s, t, a)) && Apply(s, t, a).origin == s.origin
  {
    hide WellPlanned, Exclusive, Contiguous, BusBelongs, Serial, TasksSound, Apply, Enabled;
    StepKeepsOrigin(s, t, a);
    StepKeepsLock(s, t, a);
    StepKeepsContiguous(s, t, a);
    StepKeepsBelonging(s, t, a);
    StepKeepsTasks(s, t, a);
    StepKeepsSerial(s, t, a);
  }

  // ---------------------------------------------------------------- every interleaving

  datatype Step = Step(task: nat, action: Action)

  ghost predicate IsRun(s: State, steps: seq<Step>)
    decreases |steps|
  {
    steps != [] ==>
      var t, a := steps[0].task, steps[0].action;
      Enabled(s, t, a) && IsRun(Apply(s, t, a), steps[1..])
  }

  ghost function After(s: State, steps: seq<Step>): State
    requires IsRun(s, steps)
    decreases |steps|
  {
    if steps == [] then s else After(Apply(s, steps[0].task, steps[0].action), steps[1..])
  }

  ghost function RequestsOfRun(s: State, steps: seq<Step>): seq<BusEvent>
    requires IsRun(s, steps)
    decreases |steps|
  {
    if steps == [] then []
    else
      var t, a := steps[0].task, steps[0].action;
      RequestsOf(s, t, a) + RequestsOfRun(Apply(s, t, a), steps[1..])
  }

  /** The bus carries the requests of the steps, in their order, and no others. */
  lemma {:induction false} BusIsRequests(s: State, steps: seq<Step>)
    requires IsRun(s, steps)
    ensures After(s, steps).bus == s.bus + RequestsOfRun(s, steps)
    decreases |steps|
  {
    if steps != [] {
      var t, a := steps[0].task, steps[0].action;
      BusIsRequests(Apply(s, t, a), steps[1..]);
      StepSends(s, t, a);
    }
  }

  lemma StepSends(s: State, t: nat, a: Action)
    requires Enabled(s, t, a)
    ensures Apply(s, t, a).bus == s.bus + RequestsOf(s, t, a)
  {
  }

  lemma {:induction false} RunKeepsInv(s: State, steps: seq<Step>)
    requires Inv(s) && IsRun(s, steps)
    ensures Inv(After(s, steps)) && After(s, steps).origin == s.origin
    decreases |steps|
  {
    hide Inv, Apply, Enabled;
    if steps != [] {
      StepKeepsInv(s, steps[0].task, steps[0].action);
      RunKeepsInv(Apply(s, steps[0].task, steps[0].action), steps[1..]);
    }
  }

  ghost predicate OneHolder(s: State) {
    forall t, u :: 0 <= t < |s.tasks| && 0 <= u < |s.tasks| && t != u ==>
      !(s.tasks[t].stage.InCriticalSection() && s.tasks[u].stage.InCriticalSection())
  }

  ghost predicate HasReadBack(task: Task) {
    task.program.Writer? && task.stage.Done? && task.stage.readback.Some?
  }

  ghost predicate ReadBacksAreTrue(s: State) {
    forall t :: 0 <= t < |s.tasks| && HasReadBack(s.tasks[t]) ==>
      s.tasks[t].stage.ok && ShowsWrite(s.tasks[t].program, s.tasks[t].stage.readback.value)
  }

  ghost predicate AttemptsAreBounded(s: State) {
    forall t :: 0 <= t < |s.tasks| && s.tasks[t].program.Writer? && s.tasks[t].stage.Writing? ==>
      1 <= s.tasks[t].stage.attempt <= Max(1, s.tasks[t].program.retry)
  }

  /** In every interleaving of any number of tasks: one holder at a time, its requests contiguous on the
      bus, no write is attempted more often than allowed, every read-back that got an answer follows a success
      and shows the words just acknowledged, and the memory is what the
      holders made of it one after another, each leaving its own chunks wholly old or wholly new. */
  lemma EveryInterleaving(s: State, steps: seq<Step>)
    requires Initial(s) && IsRun(s, steps)
    ensures var r := After(s, steps);
            && OneHolder(r) && Contiguous(r.bus) && AttemptsAreBounded(r) && ReadBacksAreTrue(r)
            && Serial(r) && r.origin == s.memory
  {
    hide Serial;
    InitialInv(s);
    RunKeepsInv(s, steps);
    var r := After(s, steps);
    forall t | 0 <= t < |r.tasks| && HasReadBack(r.tasks[t])
      ensures r.tasks[t].stage.ok && ShowsWrite(r.tasks[t].program, r.tasks[t].stage.readback.value)
    {
      assert TaskSound(r.tasks[t], r.memory);
    }
    forall t | 0 <= t < |r.tasks| && r.tasks[t].program.Writer? && r.tasks[t].stage.Writing?
      ensures 1 <= r.tasks[t].stage.attempt <= Max(1, r.tasks[t].program.retry)
    {
      assert TaskSound(r.tasks[t], r.memory);
    }
  }

  /** The targeted read-back of a single register: the one word it returns is the word that was written. */
  lemma TargetedReadBack(s: State, steps: seq<Step>, t: nat, address: int, word: int)
    requires Initial(s) && IsRun(s, steps) && t < |After(s, steps).tasks|
    requires var task := After(s, steps).tasks[t];
             && HasReadBack(task) && task.program.chunks == [WordChunk(address, [word])]
             && task.program.readStart == address
    ensures var words := After(s, steps).tasks[t].stage.readback.value;
            words != [] ==> words[0] == word
  {
    hide Serial, Contiguous, OneHolder, IsRun, After, Initial;
    EveryInterleaving(s, steps);
    var p := After(s, steps).tasks[t].program;
    assert p.chunks[0].Covers(p.readStart + 0);
  }

  // ---------------------------------------------------------------- one call is one session

  /** What is left of an attempt loop that is about to send chunk i: whether it succeeds, and the memory it
      leaves. */
  function Remainder(trace: Trace, at: nat, chunks: seq<WordChunk>, i: nat, left: nat, m: Memory): (bool, Memory)
    requires i <= |chunks|
    decreases left, |chunks| - i
  {
    if i == |chunks| || left == 0 then (true, m)
    else
      var sent := if trace(at).TookEffect() then Store(m, chunks[i]) else m;
      if trace(at).Acked? then Remainder(trace, at + 1, chunks, i + 1, left, sent)
      else if Ends(trace(at), left) then (false, sent)
      else Remainder(trace, at + 1, chunks, 0, left - 1, sent)
  }

  /** A reply that is not an acknowledgement ends the loop. */
  predicate Ends(reply: Outcome, left: nat) {
    left == 1 || (reply.Fault? && reply.kind in {OsFault, OtherFault})
  }

  /** Chunk by chunk or attempt by attempt, the loop comes to the same. */
  lemma {:induction false} RemainderIsLoop(trace: Trace, at: nat, chunks: seq<WordChunk>, i: nat, left: nat, m: Memory,
      hasTransport: bool, dropOnRefusal: bool)
    requires chunks != [] && i <= |chunks| && left >= 1
    ensures var (end, next) := Attempt(trace, at, |chunks| - i);
            var after := AttemptMemory(trace, at, chunks, i, m);
            var verdict := VerdictOf(end, left == 1);
            Remainder(trace, at, chunks, i, left, m)
            == if verdict.Some? then (verdict.value.Succeeded?, after)
               else (Loop(trace, next, |chunks|, left - 1, hasTransport, dropOnRefusal).end.Succeeded?,
                     LoopMemory(trace, next, chunks, left - 1, after))
    decreases left, |chunks| - i
  {
    if i < |chunks| {
      var sent := if trace(at).TookEffect() then Store(m, chunks[i]) else m;
      if trace(at).Acked? {
        RemainderIsLoop(trace, at + 1, chunks, i + 1, left, sent, hasTransport, dropOnRefusal);
      } else if !Ends(trace(at), left) {
        RemainderIsLoop(trace, at + 1, chunks, 0, left - 1, sent, hasTransport, dropOnRefusal);
      }
    }
  }

  /** A lock holder that only writes. */
  predicate OnlyWrites(s: State, t: nat) {
    t < |s.tasks| && s.tasks[t].program.Writer? && !s.tasks[t].program.readsBack && s.tasks[t].program.chunks != []
  }

  /** The task has ended its holding, begun at memory `found`, like this. */
  predicate Ended(s: State, r: State, t: nat, ok: bool, memory: Memory)
    requires t < |s.tasks|
  {
    && r.lock.None? && r.memory == memory
    && r.tasks == s.tasks[t := s.tasks[t].(stage := Done(ok, None))]
    && r.sessions == s.sessions + [Session(t, s.found, memory, ok)]
  }

  /** The step that answers one request. */
  function ReplyStep(reply: Outcome, t: nat, left: nat): Step {
    Step(t, if reply.Acked? then Action.Acked else Failed(reply.applied, !Ends(reply, left)))
  }

  /** The task has moved on, still holding the lock. */
  predicate MovedOn(s: State, r: State, t: nat, stage: Stage, memory: Memory)
    requires t < |s.tasks|
  {
    && r.memory == memory && r.tasks == s.tasks[t := s.tasks[t].(stage := stage)]
    && r.sessions == s.sessions && r.found == s.found
  }

  lemma ReplyApplied(s: State, t: nat, reply: Outcome, left: nat, i: nat)
    requires OnlyWrites(s, t) && i < |s.tasks[t].program.chunks| && 1 <= left <= s.tasks[t].program.retry
    requires s.tasks[t].stage == Writing(s.tasks[t].program.retry - left + 1, i)
    ensures var p, a := s.tasks[t].program, ReplyStep(reply, t, left).action;
            var sent := if reply.TookEffect() then Store(s.memory, p.chunks[i]) else s.memory;
            && Enabled(s, t, a)
            && if reply.Acked? then MovedOn(s, Apply(s, t, a), t, Writing(p.retry - left + 1, i + 1), sent)
               else if Ends(reply, left) then Ended(s, Apply(s, t, a), t, false, sent)
               else MovedOn(s, Apply(s, t, a), t, Writing(p.retry - left + 2, 0), sent)
  {
    hide Store;
  }

  lemma CompleteApplied(s: State, t: nat)
    requires OnlyWrites(s, t) && s.tasks[t].stage.Writing? && s.tasks[t].stage.next == |s.tasks[t].program.chunks|
    ensures Enabled(s, t, Complete) && Ended(s, Apply(s, t, Complete), t, true, s.memory)
  {
  }

  lemma {:induction false} LoopSteps(s: State, t: nat, trace: Trace, at: nat, i: nat, left: nat)
    returns (steps: seq<Step>)
    requires OnlyWrites(s, t) && i <= |s.tasks[t].program.chunks| && 1 <= left <= s.tasks[t].program.retry
    requires s.tasks[t].stage == Writing(s.tasks[t].program.retry - left + 1, i)
    ensures IsRun(s, steps) && forall k :: 0 <= k < |steps| ==> steps[k].task == t
    ensures var (ok, memory) := Remainder(trace, at, s.tasks[t].program.chunks, i, left, s.memory);
            Ended(s, After(s, steps), t, ok, memory)
    decreases left, |s.tasks[t].program.chunks| - i
  {
    hide Enabled, Apply, Store;
    var p := s.tasks[t].program;
    if i == |p.chunks| {
      CompleteApplied(s, t);
      return [Step(t, Complete)];
    }
    var step, rest: seq<Step> := ReplyStep(trace(at), t, left), [];
    ReplyApplied(s, t, trace(at), left, i);
    var r := Apply(s, t, step.action);
    if trace(at).Acked? {
      rest := LoopSteps(r, t, trace, at + 1, i + 1, left);
    } else if !Ends(trace(at), left) {
      rest := LoopSteps(r, t, trace, at + 1, 0, left - 1);
    }
    steps := [step] + rest;
    assert steps[0] == step && steps[1..] == rest;
  }

  /** A call of run_multi_register_write_attempts under the lock is one session of the protocol: for every
      trace of replies the task has a run, alone, from acquire to release, that leaves the very memory and
      success the call leaves. */
  lemma CallIsSession(s: State, t: nat, trace: Trace, at: nat, hasTransport: bool) returns (steps: seq<Step>)
    requires OnlyWrites(s, t) && s.tasks[t].stage.Waiting? && s.lock.None? && s.tasks[t].program.retry >= 1
    ensures IsRun(s, steps) && forall k :: 0 <= k < |steps| ==> steps[k].task == t
    ensures var p := s.tasks[t].program;
            var ok := Loop(trace, at, |p.chunks|, p.retry, hasTransport, true).end.Succeeded?;
            Ended(s.(found := s.memory), After(s, steps), t, ok, LoopMemory(trace, at, p.chunks, p.retry, s.memory))
  {
    var p := s.tasks[t].program;
    var held := Apply(s, t, Acquire);
    var rest := LoopSteps(held, t, trace, at, 0, p.retry);
    RemainderIsLoop(trace, at, p.chunks, 0, p.retry, s.memory, hasTransport, true);
    steps := [Step(t, Acquire)] + rest;
    assert steps[1..] == rest;
  }
}
