/** The write protocol of one lock holder: attempt loops over a device that may lose replies
    (coordinator/write_path.py, coordinator/schedule.py). */
module WriteAttempts {
  import opened Common
  import opened RegisterDefs
  import opened ReadPlanner
  import opened RegisterSchema
  import opened WriteValue
  import Single = SingleWordCodec

  // Modbus and connection exceptions; timeouts; other OS errors; anything else.
  datatype FaultKind = ModbusFault | TimeoutFault | OsFault | OtherFault

  /** What comes back for one write request. An acknowledged write was applied; a refused, missing or
      broken reply leaves open whether it was. */
  datatype Outcome = Acked | Refused(applied: bool) | Fault(kind: FaultKind, applied: bool) {
    predicate TookEffect() {
      Acked? || applied
    }
  }

  type Trace = nat -> Outcome

  datatype AttemptEnd = Delivered | Declined | Broken(kind: FaultKind)

  datatype LoopEnd = Succeeded | GaveUp | Escaped(kind: FaultKind)

  datatype LoopRun = LoopRun(end: LoopEnd, calls: nat, disconnects: nat)

  // ---------------------------------------------------------------- what the trace decides

  /** One attempt sends its requests until one is not acknowledged. */
  function Attempt(trace: Trace, at: nat, requests: nat): (AttemptEnd, nat)
    decreases requests
  {
    if requests == 0 then (Delivered, at)
    else match trace(at)
      case Acked => Attempt(trace, at + 1, requests - 1)
      case Refused(_) => (Declined, at + 1)
      case Fault(kind, _) => (Broken(kind), at + 1)
  }

  /** An attempt with nothing to send gets no reply, which counts as a refusal. */
  function WholeAttempt(trace: Trace, at: nat, requests: nat): (AttemptEnd, nat) {
    if requests == 0 then (Declined, at) else Attempt(trace, at, requests)
  }

  function DisconnectsAfter(end: AttemptEnd, last: bool, hasTransport: bool, dropOnRefusal: bool): nat {
    match end
    case Delivered => 0
    case Declined => if dropOnRefusal && !last then 1 else 0
    case Broken(ModbusFault) => 1
    case Broken(TimeoutFault) => if hasTransport then 1 else 0
    case Broken(OsFault) => 1
    case Broken(OtherFault) => 0
  }

  /** Whether an attempt ends the loop, and how. */
  function VerdictOf(end: AttemptEnd, last: bool): Option<LoopEnd> {
    match end
    case Delivered => Some(Succeeded)
    case Declined => if last then Some(GaveUp) else None
    case Broken(OtherFault) => Some(Escaped(OtherFault))
    case Broken(OsFault) => Some(GaveUp)
    case Broken(_) => if last then Some(GaveUp) else None
  }

  /** The attempt loop: refusals, Modbus faults and timeouts are retried, other OS errors end it. */
  function Loop(trace: Trace, at: nat, requests: nat, left: nat, hasTransport: bool, dropOnRefusal: bool): LoopRun
    decreases left
  {
    if left == 0 then LoopRun(Succeeded, at, 0)
    else
      var (end, next) := WholeAttempt(trace, at, requests);
      var drops := DisconnectsAfter(end, left == 1, hasTransport, dropOnRefusal);
      var verdict := VerdictOf(end, left == 1);
      if verdict.Some? then LoopRun(verdict.value, next, drops)
      else
        var rest := Loop(trace, next, requests, left - 1, hasTransport, dropOnRefusal);
        LoopRun(rest.end, rest.calls, drops + rest.disconnects)
  }

  lemma {:induction false} AttemptReplies(trace: Trace, at: nat, requests: nat)
    ensures var (end, next) := Attempt(trace, at, requests);
            && at <= next <= at + requests
            && (end.Delivered? <==> next == at + requests && forall i :: at <= i < next ==> trace(i).Acked?)
            && (!end.Delivered? ==> at < next && !trace(next - 1).Acked?)
            && (!end.Delivered? ==> forall i :: at <= i < next - 1 ==> trace(i).Acked?)
            && (end.Broken? ==> trace(next - 1).Fault? && trace(next - 1).kind == end.kind)
            && (end.Declined? ==> trace(next - 1).Refused?)
    decreases requests
  {
    if requests > 0 && trace(at).Acked? {
      AttemptReplies(trace, at + 1, requests - 1);
    }
  }

  /** Success means the last `requests` replies were all acknowledgements: one whole attempt in a row. */
  lemma {:induction false} SuccessMeansAcknowledged(trace: Trace, at: nat, requests: nat, left: nat,
      hasTransport: bool, dropOnRefusal: bool)
    requires left >= 1
    requires Loop(trace, at, requests, left, hasTransport, dropOnRefusal).end.Succeeded?
    ensures var run := Loop(trace, at, requests, left, hasTransport, dropOnRefusal);
            && requests >= 1 && at + requests <= run.calls
            && forall i :: run.calls - requests <= i < run.calls ==> trace(i).Acked?
    decreases left
  {
    var (end, next) := WholeAttempt(trace, at, requests);
    AttemptReplies(trace, at, requests);
    if !end.Delivered? {
      SuccessMeansAcknowledged(trace, next, requests, left - 1, hasTransport, dropOnRefusal);
    }
  }

  /** Without faults that end a loop early, it gives up only after every attempt failed. */
  lemma {:induction false} AttemptsAreExhausted(trace: Trace, at: nat, left: nat, hasTransport: bool,
      dropOnRefusal: bool)
    requires left >= 1
    requires forall i :: at <= i < at + left ==> !(trace(i).Fault? && trace(i).kind in {OsFault, OtherFault})
    ensures var run := Loop(trace, at, 1, left, hasTransport, dropOnRefusal);
            if forall i :: at <= i < at + left ==> !trace(i).Acked? then run.end.GaveUp? && run.calls == at + left
            else run.end.Succeeded? && at < run.calls <= at + left && trace(run.calls - 1).Acked?
                 && forall i :: at <= i < run.calls - 1 ==> !trace(i).Acked?
    decreases left
  {
    assert Attempt(trace, at + 1, 0) == (Delivered, at + 1);
    if !trace(at).Acked? && left > 1 {
      AttemptsAreExhausted(trace, at + 1, left - 1, hasTransport, dropOnRefusal);
    }
  }

  // ---------------------------------------------------------------- reply by reply

  /** Replies to a single request after which it is sent again. */
  predicate TriesAgain(reply: Outcome) {
    match reply
    case Acked => false
    case Refused(_) => true
    case Fault(kind, _) => kind in {ModbusFault, TimeoutFault}
  }

  /** Whether a reply costs the connection; a refusal does so only between two attempts, and only where
      refusals do at all. */
  predicate Drops(reply: Outcome, last: bool, hasTransport: bool, dropOnRefusal: bool) {
    match reply
    case Acked => false
    case Refused(_) => dropOnRefusal && !last
    case Fault(kind, _) => kind in {ModbusFault, OsFault} || (kind == TimeoutFault && hasTransport)
  }

  function DropsAmong(trace: Trace, at: nat, k: nat, hasTransport: bool, dropOnRefusal: bool): nat
    decreases k
  {
    if k == 0 then 0
    else
      var first := if Drops(trace(at), false, hasTransport, dropOnRefusal) then 1 else 0;
      first + DropsAmong(trace, at + 1, k - 1, hasTransport, dropOnRefusal)
  }

  /** After k replies that cause another attempt, reply k ends the loop if it is of another kind or no attempt
      is left. */
  lemma {:induction false} DecidedByReply(trace: Trace, at: nat, left: nat, hasTransport: bool, dropOnRefusal: bool,
      k: nat)
    requires k < left && forall j :: at <= j < at + k ==> TriesAgain(trace(j))
    requires TriesAgain(trace(at + k)) ==> k == left - 1
    ensures var run, reply := Loop(trace, at, 1, left, hasTransport, dropOnRefusal), trace(at + k);
            && run.calls == at + k + 1
            && run.end == (match reply
                           case Acked => Succeeded
                           case Refused(_) => GaveUp
                           case Fault(kind, _) => if kind == OtherFault then Escaped(OtherFault) else GaveUp)
            && run.disconnects == DropsAmong(trace, at, k, hasTransport, dropOnRefusal)
                                  + if Drops(reply, k == left - 1, hasTransport, dropOnRefusal) then 1 else 0
    decreases k
  {
    assert Attempt(trace, at + 1, 0) == (Delivered, at + 1);
    if k > 0 {
      assert TriesAgain(trace(at));
      DecidedByReply(trace, at + 1, left - 1, hasTransport, dropOnRefusal, k - 1);
    }
  }

  /** With nothing to send the loop gives up without a request. */
  lemma {:induction false} NothingToSend(trace: Trace, at: nat, left: nat, hasTransport: bool, dropOnRefusal: bool)
    requires left >= 1
    ensures Loop(trace, at, 0, left, hasTransport, dropOnRefusal)
         == LoopRun(GaveUp, at, if dropOnRefusal then left - 1 else 0)
    decreases left
  {
    if left > 1 {
      NothingToSend(trace, at, left - 1, hasTransport, dropOnRefusal);
    }
  }

  // ---------------------------------------------------------------- device memory

  type Memory = map<int, int>

  ghost predicate SameCell(before: Memory, after: Memory, a: int) {
    (a in before <==> a in after) && (a in after ==> after[a] == before[a])
  }

  ghost predicate Holds(m: Memory, start: int, words: seq<int>) {
    forall k :: 0 <= k < |words| ==> HasWord(m, start + k, words[k])
  }

  ghost predicate HasWord(m: Memory, a: int, word: int) {
    a in m && m[a] == word
  }

  function Cells(chunk: WordChunk): (r: set<int>)
    ensures forall a :: a in r <==> chunk.Covers(a)
  {
    set a | chunk.start <= a < chunk.start + |chunk.words| && chunk.Covers(a)
  }

  function Store(m: Memory, chunk: WordChunk): Memory {
    map a | a in m.Keys + Cells(chunk) ::
      if chunk.Covers(a) then chunk.words[a - chunk.start] else m[a]
  }

  lemma StoreMeans(m: Memory, chunk: WordChunk)
    ensures Holds(Store(m, chunk), chunk.start, chunk.words)
    ensures forall a :: !chunk.Covers(a) ==> SameCell(m, Store(m, chunk), a)
  {
    forall k | 0 <= k < |chunk.words| ensures HasWord(Store(m, chunk), chunk.start + k, chunk.words[k]) {
      assert chunk.Covers(chunk.start + k);
    }
  }

  ghost predicate Apart(chunks: seq<WordChunk>) {
    forall i, j :: 0 <= i < j < |chunks| ==> chunks[i].start + |chunks[i].words| <= chunks[j].start
  }

  ghost predicate Touched(chunks: seq<WordChunk>, a: int) {
    exists i :: 0 <= i < |chunks| && chunks[i].Covers(a)
  }

  ghost predicate StillOld(chunk: WordChunk, before: Memory, after: Memory) {
    forall a :: chunk.Covers(a) ==> SameCell(before, after, a)
  }

  /** Each chunk wholly old or wholly new, and nothing else changed. */
  ghost predicate OldOrNew(chunks: seq<WordChunk>, before: Memory, after: Memory) {
    && (forall i :: 0 <= i < |chunks| ==>
          StillOld(chunks[i], before, after) || Holds(after, chunks[i].start, chunks[i].words))
    && (forall a :: !Touched(chunks, a) ==> SameCell(before, after, a))
  }

  lemma HeldCellsStay(m: Memory, after: Memory, chunk: WordChunk)
    requires Holds(m, chunk.start, chunk.words) && StillOld(chunk, m, after)
    ensures Holds(after, chunk.start, chunk.words)
  {
    forall k | 0 <= k < |chunk.words| ensures HasWord(after, chunk.start + k, chunk.words[k]) {
      assert chunk.Covers(chunk.start + k) && HasWord(m, chunk.start + k, chunk.words[k]);
    }
  }

  lemma {:induction false} StoreStaysOldOrNew(chunks: seq<WordChunk>, before: Memory, m: Memory, i: nat)
    requires i < |chunks| && Apart(chunks) && OldOrNew(chunks, before, m)
    ensures OldOrNew(chunks, before, Store(m, chunks[i]))
    ensures forall j :: 0 <= j < |chunks| && Holds(m, chunks[j].start, chunks[j].words) ==>
              Holds(Store(m, chunks[i]), chunks[j].start, chunks[j].words)
    ensures Holds(Store(m, chunks[i]), chunks[i].start, chunks[i].words)
  {
    var after := Store(m, chunks[i]);
    StoreMeans(m, chunks[i]);
    forall j | 0 <= j < |chunks| && j != i
      ensures Holds(m, chunks[j].start, chunks[j].words) ==> Holds(after, chunks[j].start, chunks[j].words)
      ensures StillOld(chunks[j], before, m) ==> StillOld(chunks[j], before, after)
    {
      forall a | chunks[j].Covers(a) ensures SameCell(m, after, a) {
        assert !chunks[i].Covers(a);
      }
      if Holds(m, chunks[j].start, chunks[j].words) {
        HeldCellsStay(m, after, chunks[j]);
      }
    }
    forall a | !Touched(chunks, a) ensures SameCell(before, after, a) {
      assert !chunks[i].Covers(a);
    }
  }

  /** All chunks of a plan written means all values written, at their own addresses. */
  lemma PlanWritten(chunks: seq<WordChunk>, start: int, values: seq<int>, cap: int, m: Memory)
    requires IsChunkPlan(chunks, start, values, cap)
    requires forall i :: 0 <= i < |chunks| ==> Holds(m, chunks[i].start, chunks[i].words)
    ensures Holds(m, start, values)
  {
    PlanCarriesEveryWord(chunks, start, values, cap);
    forall k | 0 <= k < |values| ensures HasWord(m, start + k, values[k]) {
      assert Carries(chunks, start + k, values[k]);
      var a := start + k;
      var i :| 0 <= i < |chunks| && chunks[i].Covers(a) && chunks[i].words[a - chunks[i].start] == values[k];
      assert HasWord(m, chunks[i].start + (a - chunks[i].start), chunks[i].words[a - chunks[i].start]);
    }
  }

  lemma OldOrNewOutside(chunks: seq<WordChunk>, start: int, values: seq<int>, cap: int, before: Memory, after: Memory)
    requires IsChunkPlan(chunks, start, values, cap) && OldOrNew(chunks, before, after)
    ensures forall a :: a < start || start + |values| <= a ==> SameCell(before, after, a)
  {
    PlanCarriesEveryWord(chunks, start, values, cap);
  }

  lemma NothingWrittenYet(chunks: seq<WordChunk>, m: Memory)
    ensures OldOrNew(chunks, m, m)
  {
  }

  /** The requests of a multi-register write. */
  function MultiPlan(start: int, values: seq<int>, requireSingle: bool, effectiveBatch: int): (chunks: seq<WordChunk>) {
    if requireSingle then [WordChunk(start, values)]
    else ChunkPlan(start, values, RequestCap(Some(effectiveBatch)))
  }

  lemma PlanIsApart(chunks: seq<WordChunk>, start: int, values: seq<int>, cap: int)
    requires IsChunkPlan(chunks, start, values, cap) && cap <= MAX_REGS_PER_REQUEST
    ensures Apart(chunks) && Bounded(chunks)
    ensures IsChunkPlan(chunks, start, values, MAX_REGS_PER_REQUEST)
  {
    PlanAscends(chunks, start, values, cap);
    forall i | 0 <= i < |chunks|
      ensures IsSlice(chunks[i], start, values, MAX_REGS_PER_REQUEST) && 1 <= |chunks[i].words| <= cap
    {
      assert IsSlice(chunks[i], start, values, cap);
    }
  }

  ghost predicate Bounded(chunks: seq<WordChunk>) {
    forall i :: 0 <= i < |chunks| ==> 1 <= |chunks[i].words| <= MAX_REGS_PER_REQUEST
  }

  lemma MultiPlanIsPlan(start: int, values: seq<int>, requireSingle: bool, effectiveBatch: int)
    requires values != [] && (requireSingle ==> |values| <= MAX_REGS_PER_REQUEST)
    ensures IsChunkPlan(MultiPlan(start, values, requireSingle, effectiveBatch), start, values, MAX_REGS_PER_REQUEST)
    ensures Apart(MultiPlan(start, values, requireSingle, effectiveBatch))
    ensures Bounded(MultiPlan(start, values, requireSingle, effectiveBatch))
    ensures |MultiPlan(start, values, requireSingle, effectiveBatch)| >= 1
  {
    var chunks := MultiPlan(start, values, requireSingle, effectiveBatch);
    var cap := if requireSingle then MAX_REGS_PER_REQUEST else RequestCap(Some(effectiveBatch));
    if !requireSingle {
      ChunkPlanIsPlan(start, values, cap);
    }
    PlanIsApart(chunks, start, values, cap);
  }

  /** What the latest completed loop is after a verdict. */
  function LoopRecord(before: Option<bool>, verdict: Option<LoopEnd>): Option<bool> {
    match verdict
    case None => before
    case Some(Escaped(_)) => before
    case Some(end) => Some(end.Succeeded?)
  }

  /** What async_write_register sends for an accepted value: a coil of several words takes the truth of the
      value itself. */
  function PayloadFor(def: RegisterDef, value: UserValue, encoded: Encoded, offset: nat, effectiveBatch: int): Payload
    requires encoded.Words? || encoded.OneWord?
  {
    var address := def.address + offset;
    if def.function_ == 3 then
      match encoded
      case Words(words) => HoldingWords(ChunkPlan(address, words, RequestCap(Some(effectiveBatch))))
      case OneWord(word) => HoldingWords([WordChunk(address, [word])])
    else if def.function_ == 1 then
      match encoded
      case Words(_) => CoilBit(address, Truthy(value))
      case OneWord(word) => CoilBit(address, word != 0)
    else NotWritable
  }

  /** A write gets as far as the attempt loop: known register, connection up, value encoded. */
  predicate EntersLoop(def: Option<RegisterDef>, value: UserValue, offset: nat, connection: Connection)
    requires def.Some? ==> Suits(def.value, value)
  {
    && def.Some? && connection.Ready?
    && !EncodeWriteValue(def.value, value, offset).Rejected? && !EncodeWriteValue(def.value, value, offset).Raised?
  }

  /** A whole-array write gets as far as the attempt loop. */
  predicate EntersMultiLoop(values: seq<int>, requireSingle: bool, connection: Connection) {
    values != [] && connection.Ready? && (requireSingle ==> |values| <= MAX_REGS_PER_REQUEST)
  }

  predicate ReadBackApplies(def: Option<RegisterDef>, allowed: bool) {
    allowed && def.Some? && def.value.function_ == 3 && def.value.length == 1
  }

  /** The published value is the decoding of the very word that was encoded for this write. */
  ghost predicate ReadBackIsWrite(def: RegisterDef, value: UserValue, offset: nat, published: Option<real>)
    requires Suits(def, value)
  {
    var encoded := EncodeWriteValue(def, value, offset);
    encoded.OneWord? && published == Single.Decode(def, encoded.word)
  }

  lemma PayloadIsApart(def: RegisterDef, value: UserValue, encoded: Encoded, offset: nat, effectiveBatch: int)
    requires encoded.Words? || encoded.OneWord?
    ensures Apart(PayloadFor(def, value, encoded, offset, effectiveBatch).Chunks())
    ensures Bounded(PayloadFor(def, value, encoded, offset, effectiveBatch).Chunks())
  {
    var chunks := PayloadFor(def, value, encoded, offset, effectiveBatch).Chunks();
    var address := def.address + offset;
    if def.function_ == 3 && encoded.Words? {
      var cap := RequestCap(Some(effectiveBatch));
      assert chunks == ChunkPlan(address, encoded.words, cap);
      ChunkPlanIsPlan(address, encoded.words, cap);
      PlanIsApart(chunks, address, encoded.words, cap);
    } else {
      assert |chunks| <= 1 && forall i :: 0 <= i < |chunks| ==> |chunks[i].words| == 1;
    }
  }

  lemma PayloadIsPlan(def: RegisterDef, value: UserValue, encoded: Encoded, offset: nat, effectiveBatch: int)
    requires Accepted(encoded) && def.function_ == 3
    ensures PayloadFor(def, value, encoded, offset, effectiveBatch)
         == HoldingWords(ChunkPlan(def.address + offset, Sent(encoded), RequestCap(Some(effectiveBatch))))
  {
  }

  /** What is sent for an accepted value: its words to holding registers, its truth to a coil (that of the
      encoded word where there is one), and nothing to any other register. */
  lemma PayloadMeans(def: RegisterDef, value: UserValue, offset: nat, effectiveBatch: int)
    requires Suits(def, value) && Accepted(EncodeWriteValue(def, value, offset))
    ensures var encoded, address := EncodeWriteValue(def, value, offset), def.address + offset;
            var payload := PayloadFor(def, value, encoded, offset, effectiveBatch);
            && (def.function_ == 3 ==>
                  payload == HoldingWords(ChunkPlan(address, Sent(encoded), RequestCap(Some(effectiveBatch)))))
            && (def.function_ == 1 && encoded.OneWord? ==> payload == CoilBit(address, Sent(encoded) != [0]))
            && (def.function_ == 1 && encoded.Words? ==>
                  payload == CoilBit(address, match value
                                              case Items(items) => |items| > 0
                                              case Number(v) => v < 0.0 || v > 0.0
                                              case Characters(text) => |text| > 0))
            && (def.function_ !in {1, 3} ==> payload == NotWritable)
  {
    if def.function_ == 3 {
      PayloadIsPlan(def, value, EncodeWriteValue(def, value, offset), offset, effectiveBatch);
    }
  }

  /** Where a payload writes, for every accepted value: its words inside the register exactly when the value
      fits, and a coil inside it exactly when the offset is. */
  lemma PayloadStaysInside(def: RegisterDef, value: UserValue, offset: nat, effectiveBatch: int)
    requires Suits(def, value) && Accepted(EncodeWriteValue(def, value, offset))
    ensures var payload := PayloadFor(def, value, EncodeWriteValue(def, value, offset), offset, effectiveBatch);
            && (payload.HoldingWords? ==> (ChunksInside(def, payload.chunks) <==> Fits(def, value, offset)))
            && (payload.CoilBit? ==>
                  (def.address <= payload.address < def.address + def.length <==> offset < def.length))
  {
    hide EncodeWriteValue, ChunkPlan, Fits, ChunksInside;
    if def.function_ == 3 {
      var encoded, address := EncodeWriteValue(def, value, offset), def.address + offset;
      var words, cap := Sent(encoded), RequestCap(Some(effectiveBatch));
      var chunks := ChunkPlan(address, words, cap);
      PayloadIsPlan(def, value, encoded, offset, effectiveBatch);
      ChunkPlanIsPlan(address, words, cap);
      ChunksStayInside(def, value, offset, words, chunks, cap);
    }
  }

  /** Agreeing types are not enough: a plain register of one word at 100 takes 5 with an offset of 3, and the
      word goes to 103. */
  lemma OffsetEscapes(effectiveBatch: int)
    ensures var e, def := Entry(None, None, None), PlainRegister();
            && LoadedFrom(def, e) && TypesAgree(e) && EntersLoop(Some(def), Number(5.0), 3, Ready)
            && PayloadFor(def, Number(5.0), EncodeWriteValue(def, Number(5.0), 3), 3, effectiveBatch)
               == HoldingWords([WordChunk(103, [5])])
  {
    IntegersStay(5);
  }

  function PlainRegister(): RegisterDef {
    RegisterDef(3, 100, 1, Plain, BigEndian, false, false, None, None, 1.0, 1.0)
  }

  /** Only requests of the plan were added to the bus. */
  ghost predicate SentFrom(before: seq<WordChunk>, after: seq<WordChunk>, plan: seq<WordChunk>) {
    before <= after && forall i :: |before| <= i < |after| ==> after[i] in plan
  }

  lemma RequestsFit(plan: seq<WordChunk>, before: seq<WordChunk>, after: seq<WordChunk>)
    requires Bounded(plan) && SentFrom(before, after, plan)
    ensures forall i :: |before| <= i < |after| ==> 1 <= |after[i].words| <= MAX_REGS_PER_REQUEST
  {
  }

  /** What a read returns; a cell nobody has written reads as zero. */
  function Cell(m: Memory, a: int): int {
    if a in m then m[a] else 0
  }

  function CellRun(m: Memory, start: int, count: nat): seq<int> {
    seq(count, i requires 0 <= i < count => Cell(m, start + i))
  }

  lemma CellsHeld(m: Memory, start: int, words: seq<int>, count: nat)
    requires Holds(m, start, words)
    ensures forall k :: 0 <= k < |words| && k < count ==> CellRun(m, start, count)[k] == words[k]
  {
    forall k | 0 <= k < |words| && k < count ensures CellRun(m, start, count)[k] == words[k] {
      assert HasWord(m, start + k, words[k]);
      assert Cell(m, start + k) == words[k];
    }
  }

  /** The loop's remaining trace, seen from its start. */
  function Resumed(rest: LoopRun, dropped: int): LoopRun
    requires dropped >= 0
  {
    LoopRun(rest.end, rest.calls, dropped + rest.disconnects)
  }

  /** What the caller of a write gets for the end of its loop. */
  predicate Answers(answer: Answer, end: LoopEnd, refresh: bool) {
    match end
    case Succeeded => answer == Returned(true, refresh)
    case GaveUp => answer == Returned(false, false)
    case Escaped(kind) => answer == Thrown(kind)
  }

  /** The memory an attempt leaves that has chunks i .. to send. */
  function AttemptMemory(trace: Trace, at: nat, chunks: seq<WordChunk>, i: nat, m: Memory): Memory
    requires i <= |chunks|
    decreases |chunks| - i
  {
    if i == |chunks| then m
    else
      var sent := if trace(at).TookEffect() then Store(m, chunks[i]) else m;
      if trace(at).Acked? then AttemptMemory(trace, at + 1, chunks, i + 1, sent) else sent
  }

  /** The memory an attempt loop leaves. */
  function LoopMemory(trace: Trace, at: nat, chunks: seq<WordChunk>, left: nat, m: Memory): Memory
    decreases left
  {
    if left == 0 then m
    else
      var (end, next) := WholeAttempt(trace, at, |chunks|);
      var after := AttemptMemory(trace, at, chunks, 0, m);
      if VerdictOf(end, left == 1).Some? then after else LoopMemory(trace, next, chunks, left - 1, after)
  }

  // ---------------------------------------------------------------- the coordinator

  datatype Connection = Ready | Unavailable(kind: FaultKind)

  /** What the caller of a write gets: a verdict, or an exception. */
  datatype Answer = Returned(ok: bool, refreshed: bool) | Thrown(kind: FaultKind)

  datatype Payload = HoldingWords(chunks: seq<WordChunk>) | CoilBit(address: int, on: bool) | NotWritable {
    function Requests(): nat {
      match this
      case HoldingWords(chunks) => |chunks|
      case CoilBit(_, _) => 1
      case NotWritable => 0
    }

    function Chunks(): seq<WordChunk> {
      if HoldingWords? then chunks else []
    }

    /** The coils a payload may have left behind, starting from `before`. */
    predicate CoilsOldOrNew(before: map<int, bool>, after: map<int, bool>) {
      after == before || (CoilBit? && after == before[address := on])
    }

    ghost predicate Arrived(memory: Memory, coils: map<int, bool>) {
      match this
      case HoldingWords(chunks) => chunks != [] && forall i :: 0 <= i < |chunks| ==>
              Holds(memory, chunks[i].start, chunks[i].words)
      case CoilBit(address, on) => address in coils && coils[address] == on
      case NotWritable => false
    }
  }

  // ---------------------------------------------------------------- runs of write calls

  datatype Setup = Setup(trace: Trace, retry: nat, effectiveBatch: int, hasTransport: bool)

  datatype WriteCall =
    | Register(name: string, def: Option<RegisterDef>, value: UserValue, offset: nat,
               refresh: bool, readbackAllowed: bool, connection: Connection, received: Option<nat>)
    | Registers(start: int, values: seq<int>, refresh: bool, requireSingle: bool, connection: Connection)
  {
    predicate Legal() {
      Register? && def.Some? ==> Suits(def.value, value)
    }
  }

  /** The attempt loop a call runs when the replies it gets start with number `at`; None when it is
      rejected before. */
  function CallRun(s: Setup, w: WriteCall, at: nat): Option<LoopRun>
    requires w.Legal()
  {
    match w
    case Register(_, def, value, offset, _, _, connection, _) =>
      if !EntersLoop(def, value, offset, connection) then None
      else
        var encoded := EncodeWriteValue(def.value, value, offset);
        var payload := PayloadFor(def.value, value, encoded, offset, s.effectiveBatch);
        Some(Loop(s.trace, at, payload.Requests(), s.retry, s.hasTransport, false))
    case Registers(start, values, _, requireSingle, connection) =>
      if !EntersMultiLoop(values, requireSingle, connection) then None
      else
        var plan := MultiPlan(start, values, requireSingle, s.effectiveBatch);
        Some(Loop(s.trace, at, |plan|, s.retry, s.hasTransport, true))
  }

  function CallsAfter(s: Setup, w: WriteCall, at: nat): nat
    requires w.Legal()
  {
    var run := CallRun(s, w, at);
    if run.Some? then run.value.calls else at
  }

  /** The number of replies used up before call i. */
  function CallsBefore(s: Setup, writes: seq<WriteCall>, at: nat, i: nat): nat
    requires i <= |writes| && forall w :: w in writes ==> w.Legal()
    decreases i
  {
    if i == 0 then at else CallsBefore(s, writes[1..], CallsAfter(s, writes[0], at), i - 1)
  }

  function RecordAfter(s: Setup, w: WriteCall, at: nat, before: Option<bool>): Option<bool>
    requires w.Legal()
  {
    var run := CallRun(s, w, at);
    if run.Some? then LoopRecord(before, Some(run.value.end)) else before
  }

  function RecordAfterAll(s: Setup, writes: seq<WriteCall>, at: nat, before: Option<bool>): Option<bool>
    requires forall w :: w in writes ==> w.Legal()
    decreases |writes|
  {
    if writes == [] then before
    else RecordAfterAll(s, writes[1..], CallsAfter(s, writes[0], at), RecordAfter(s, writes[0], at, before))
  }

  /** The call's loop runs to its end: not rejected before it, and no exception goes through it. */
  predicate Completes(s: Setup, w: WriteCall, at: nat)
    requires w.Legal()
  {
    CallRun(s, w, at).Some? && !CallRun(s, w, at).value.end.Escaped?
  }

  lemma {:induction false} NoneCompleted(s: Setup, writes: seq<WriteCall>, at: nat, before: Option<bool>)
    requires forall w :: w in writes ==> w.Legal()
    requires forall j :: 0 <= j < |writes| ==> !Completes(s, writes[j], CallsBefore(s, writes, at, j))
    ensures RecordAfterAll(s, writes, at, before) == before
    decreases |writes|
  {
    if writes != [] {
      assert !Completes(s, writes[0], CallsBefore(s, writes, at, 0));
      var next := CallsAfter(s, writes[0], at);
      forall j | 0 <= j < |writes| - 1 ensures !Completes(s, writes[1..][j], CallsBefore(s, writes[1..], next, j)) {
        assert !Completes(s, writes[j + 1], CallsBefore(s, writes, at, j + 1));
      }
      NoneCompleted(s, writes[1..], next, before);
    }
  }

  /** Over any run of writes, what is recorded is the outcome of the latest loop that completed. */
  lemma {:induction false} LatestCompletedDecides(s: Setup, writes: seq<WriteCall>, at: nat, before: Option<bool>,
      i: nat)
    requires i < |writes| && forall w :: w in writes ==> w.Legal()
    requires Completes(s, writes[i], CallsBefore(s, writes, at, i))
    requires forall j :: i < j < |writes| ==> !Completes(s, writes[j], CallsBefore(s, writes, at, j))
    ensures RecordAfterAll(s, writes, at, before)
         == Some(CallRun(s, writes[i], CallsBefore(s, writes, at, i)).value.end.Succeeded?)
    decreases |writes|
  {
    var next := CallsAfter(s, writes[0], at);
    var record := RecordAfter(s, writes[0], at, before);
    forall j | i <= j < |writes| - 1 ensures !Completes(s, writes[1..][j], CallsBefore(s, writes[1..], next, j)) {
      assert !Completes(s, writes[j + 1], CallsBefore(s, writes, at, j + 1));
    }
    if i == 0 {
      NoneCompleted(s, writes[1..], next, record);
    } else {
      LatestCompletedDecides(s, writes[1..], next, record, i - 1);
    }
  }

  class Coordinator {
    const trace: Trace
    const retry: nat
    const effectiveBatch: int
    const hasTransport: bool

    var calls: nat                 // replies used up so far
    var memory: Memory             // holding registers of the device
    var coils: map<int, bool>
    var sent: seq<WordChunk>       // holding requests put on the bus
    var disconnects: nat
    var repairOpen: bool
    var failedRegisters: set<string>

    // how the latest completed attempt loop ended
    ghost var latestLoop: Option<bool>

    ghost predicate Valid()
      reads this
    {
      retry >= 1 && (repairOpen <==> latestLoop == Some(false))
    }

    function Config(): Setup {
      Setup(trace, retry, effectiveBatch, hasTransport)
    }

    constructor (trace: Trace, retry: nat, effectiveBatch: int, hasTransport: bool, memory: Memory)
      requires retry >= 1
      ensures Valid() && latestLoop == None
      ensures this.trace == trace && this.retry == retry && this.effectiveBatch == effectiveBatch
      ensures this.hasTransport == hasTransport && this.memory == memory && calls == 0 && sent == []
    {
      this.trace, this.retry, this.effectiveBatch, this.hasTransport := trace, retry, effectiveBatch, hasTransport;
      this.memory, coils, calls, sent, disconnects := memory, map[], 0, [], 0;
      repairOpen, failedRegisters, latestLoop := false, {}, None;
    }

    method WriteRegistersPayload(chunk: WordChunk) returns (outcome: Outcome)
      modifies this`calls, this`memory, this`sent
      ensures outcome == trace(old(calls)) && calls == old(calls) + 1
      ensures sent == old(sent) + [chunk]
      ensures memory == if outcome.TookEffect() then Store(old(memory), chunk) else old(memory)
      ensures outcome.Acked? || outcome.applied ==> memory == Store(old(memory), chunk)
      ensures !outcome.Acked? && !outcome.applied ==> memory == old(memory)
    {
      outcome := trace(calls);
      calls := calls + 1;
      sent := sent + [chunk];
      if outcome.TookEffect() {
        memory := Store(memory, chunk);
      }
    }

    /** Sends the chunks until one is not acknowledged. `before` is the memory of any earlier moment from
        which only chunks of this plan have been written. */
    method ExecuteMultiRegisterChunks(chunks: seq<WordChunk>, ghost before: Memory) returns (end: AttemptEnd)
      requires Apart(chunks) && OldOrNew(chunks, before, memory)
      modifies this`calls, this`memory, this`sent
      ensures (end, calls) == Attempt(trace, old(calls), |chunks|)
      ensures OldOrNew(chunks, before, memory)
      ensures memory == AttemptMemory(trace, old(calls), chunks, 0, old(memory))
      ensures end.Delivered? ==> forall i :: 0 <= i < |chunks| ==> Holds(memory, chunks[i].start, chunks[i].words)
      ensures 0 <= calls - old(calls) <= |chunks| && sent == old(sent) + chunks[..calls - old(calls)]
    {
      hide Store, Holds, OldOrNew;
      for i := 0 to |chunks|
        invariant calls == old(calls) + i && sent == old(sent) + chunks[..i]
        invariant Attempt(trace, calls, |chunks| - i) == Attempt(trace, old(calls), |chunks|)
        invariant OldOrNew(chunks, before, memory)
        invariant AttemptMemory(trace, calls, chunks, i, memory)
               == AttemptMemory(trace, old(calls), chunks, 0, old(memory))
        invariant forall j :: 0 <= j < i ==> Holds(memory, chunks[j].start, chunks[j].words)
      {
        StoreStaysOldOrNew(chunks, before, memory, i);
        var outcome := WriteRegistersPayload(chunks[i]);
        assert chunks[..i + 1] == chunks[..i] + [chunks[i]];
        match outcome {
          case Acked =>
          case Refused(_) => return Declined;
          case Fault(kind, _) => return Broken(kind);
        }
      }
      assert chunks[..|chunks|] == chunks;
      end := Delivered;
    }

    method WriteCoil(address: int, on: bool) returns (end: AttemptEnd)
      modifies this`calls, this`coils
      ensures (end, calls) == Attempt(trace, old(calls), 1)
      ensures coils == if trace(old(calls)).TookEffect() then old(coils)[address := on] else old(coils)
      ensures end.Delivered? ==> coils == old(coils)[address := on]
    {
      var outcome := trace(calls);
      assert Attempt(trace, calls + 1, 0) == (Delivered, calls + 1);
      calls := calls + 1;
      if outcome.TookEffect() {
        coils := coils[address := on];
      }
      end := match outcome
        case Acked => Delivered
        case Refused(_) => Declined
        case Fault(kind, _) => Broken(kind);
    }

    method Disconnect()
      modifies this`disconnects
      ensures disconnects == old(disconnects) + 1
    {
      disconnects := disconnects + 1;
    }

    /** The exception branch of both loops: None means the exception goes on up. */
    method HandleWriteAttemptException(kind: FaultKind, last: bool) returns (retrying: Option<bool>)
      modifies this`disconnects
      ensures retrying == match kind
        case OtherFault => None
        case OsFault => Some(false)
        case _ => Some(!last)
      ensures disconnects == old(disconnects) + DisconnectsAfter(Broken(kind), last, hasTransport, true)
    {
      match kind {
        case ModbusFault =>
          Disconnect();
          retrying := Some(!last);
        case TimeoutFault =>
          if hasTransport {
            Disconnect();
          }
          retrying := Some(!last);
        case OsFault =>
          Disconnect();
          retrying := Some(false);
        case OtherFault =>
          retrying := None;
      }
    }

    /** One round of the multi-register loop; None means another attempt follows. */
    method MultiRegisterAttempt(start: int, values: seq<int>, requireSingle: bool, last: bool, ghost before: Memory)
      returns (verdict: Option<LoopEnd>)
      requires Valid() && values != [] && (requireSingle ==> |values| <= MAX_REGS_PER_REQUEST)
      requires OldOrNew(MultiPlan(start, values, requireSingle, effectiveBatch), before, memory)
      modifies this`calls, this`memory, this`sent, this`disconnects, this`repairOpen, this`latestLoop
      ensures Valid()
      ensures var plan := MultiPlan(start, values, requireSingle, effectiveBatch);
              var (end, next) := WholeAttempt(trace, old(calls), |plan|);
              && verdict == VerdictOf(end, last) && calls == next
              && disconnects == old(disconnects) + DisconnectsAfter(end, last, hasTransport, true)
              && OldOrNew(plan, before, memory) && SentFrom(old(sent), sent, plan)
              && memory == AttemptMemory(trace, old(calls), plan, 0, old(memory))
      ensures verdict == Some(Succeeded) ==> Holds(memory, start, values)
      ensures latestLoop == LoopRecord(old(latestLoop), verdict)
    {
      hide Attempt, AttemptMemory, OldOrNew, Holds, Apart, Bounded, IsChunkPlan, MultiPlan;
      ghost var plan := MultiPlan(start, values, requireSingle, effectiveBatch);
      MultiPlanIsPlan(start, values, requireSingle, effectiveBatch);
      var chunks := PlanMultiRegisterChunks(start, values, requireSingle);
      var end := ExecuteMultiRegisterChunks(chunks, before);
      match end {
        case Delivered =>
          PlanWritten(plan, start, values, MAX_REGS_PER_REQUEST, memory);
          ClearWriteRepair();
          verdict := Some(Succeeded);
        case Declined =>
          if last {
            CreateWriteRepair();
            return Some(GaveUp);
          }
          Disconnect();
          verdict := None;
        case Broken(kind) =>
          verdict := FailedAttempt(kind, last);
      }
    }

    /** An attempt that raised: give up with a repair issue, let the exception through, or try again. */
    method FailedAttempt(kind: FaultKind, last: bool) returns (verdict: Option<LoopEnd>)
      requires Valid()
      modifies this`disconnects, this`repairOpen, this`latestLoop
      ensures Valid()
      ensures verdict == VerdictOf(Broken(kind), last)
      ensures disconnects == old(disconnects) + DisconnectsAfter(Broken(kind), last, hasTransport, true)
      ensures latestLoop == LoopRecord(old(latestLoop), verdict)
    {
      var retrying := HandleWriteAttemptException(kind, last);
      if retrying.None? {
        return Some(Escaped(kind));
      }
      if !retrying.value {
        CreateWriteRepair();
        return Some(GaveUp);
      }
      verdict := None;
    }

    /** run_multi_register_write_attempts. The returned verdict and everything sent are a function of the
        device's replies; the memory holds the plan's values, or each of its chunks is old or new. */
    method RunMultiRegisterWriteAttempts(start: int, values: seq<int>, requireSingle: bool) returns (end: LoopEnd)
      requires Valid() && values != [] && (requireSingle ==> |values| <= MAX_REGS_PER_REQUEST)
      modifies this`calls, this`memory, this`sent, this`disconnects, this`repairOpen, this`latestLoop
      ensures Valid()
      ensures var plan := MultiPlan(start, values, requireSingle, effectiveBatch);
              && disconnects >= old(disconnects)
              && LoopRun(end, calls, disconnects - old(disconnects))
                 == Loop(trace, old(calls), |plan|, retry, hasTransport, true)
              && OldOrNew(plan, old(memory), memory)
              && memory == LoopMemory(trace, old(calls), plan, retry, old(memory))
              && SentFrom(old(sent), sent, plan)
      ensures end.Succeeded? ==> Holds(memory, start, values)
      ensures latestLoop == LoopRecord(old(latestLoop), Some(end))
    {
      hide Attempt, AttemptMemory, OldOrNew, Holds, Apart, Bounded, IsChunkPlan, MultiPlan;
      ghost var plan := MultiPlan(start, values, requireSingle, effectiveBatch);
      NothingWrittenYet(plan, memory);
      for attempt := 1 to retry + 1
        invariant disconnects >= old(disconnects)
        invariant Loop(trace, old(calls), |plan|, retry, hasTransport, true)
               == Resumed(Loop(trace, calls, |plan|, retry - attempt + 1, hasTransport, true),
                       disconnects - old(disconnects))
        invariant OldOrNew(plan, old(memory), memory)
        invariant LoopMemory(trace, old(calls), plan, retry, old(memory))
               == LoopMemory(trace, calls, plan, retry - attempt + 1, memory)
        invariant SentFrom(old(sent), sent, plan)
        invariant Valid() && latestLoop == old(latestLoop) && attempt <= retry
      {
        var verdict := MultiRegisterAttempt(start, values, requireSingle, attempt == retry, old(memory));
        if verdict.Some? {
          return verdict.value;
        }
      }
      assert false;
      end := Succeeded;
    }

    method PlanMultiRegisterChunks(start: int, values: seq<int>, requireSingle: bool) returns (chunks: seq<WordChunk>)
      ensures chunks == MultiPlan(start, values, requireSingle, effectiveBatch)
    {
      if requireSingle {
        return [WordChunk(start, values)];
      }
      chunks := ChunkRegisterValues(start, values, Some(effectiveBatch));
    }

    method ExecuteSingleRegisterWriteAttempt(payload: Payload, ghost before: Memory) returns (end: AttemptEnd)
      requires Apart(payload.Chunks()) && OldOrNew(payload.Chunks(), before, memory)
      modifies this`calls, this`memory, this`coils, this`sent
      ensures (end, calls) == WholeAttempt(trace, old(calls), payload.Requests())
      ensures OldOrNew(payload.Chunks(), before, memory) && payload.CoilsOldOrNew(old(coils), coils)
      ensures SentFrom(old(sent), sent, payload.Chunks())
      ensures end.Delivered? ==> payload.Arrived(memory, coils)
    {
      match payload {
        case HoldingWords(chunks) =>
          end := ExecuteMultiRegisterChunks(chunks, before);
          if chunks == [] {
            end := Declined;
          }
        case CoilBit(address, on) =>
          end := WriteCoil(address, on);
        case NotWritable =>
          end := Declined;
      }
    }

    /** One round of the single-register loop; a refusal keeps the connection. */
    method SingleRegisterAttempt(payload: Payload, name: string, last: bool, ghost before: Memory)
      returns (verdict: Option<LoopEnd>)
      requires Valid() && Apart(payload.Chunks()) && OldOrNew(payload.Chunks(), before, memory)
      modifies this`calls, this`memory, this`coils, this`sent, this`disconnects, this`repairOpen
      modifies this`latestLoop, this`failedRegisters
      ensures Valid()
      ensures var (end, next) := WholeAttempt(trace, old(calls), payload.Requests());
              && verdict == VerdictOf(end, last) && calls == next
              && disconnects == old(disconnects) + DisconnectsAfter(end, last, hasTransport, false)
      ensures OldOrNew(payload.Chunks(), before, memory) && payload.CoilsOldOrNew(old(coils), coils)
      ensures SentFrom(old(sent), sent, payload.Chunks())
      ensures verdict == Some(Succeeded) ==> payload.Arrived(memory, coils)
      ensures failedRegisters == old(failedRegisters) - if verdict == Some(Succeeded) then {name} else {}
      ensures latestLoop == LoopRecord(old(latestLoop), verdict)
    {
      var end := ExecuteSingleRegisterWriteAttempt(payload, before);
      match end {
        case Delivered =>
          failedRegisters := failedRegisters - {name};
          ClearWriteRepair();
          verdict := Some(Succeeded);
        case Declined =>
          if last {
            CreateWriteRepair();
            return Some(GaveUp);
          }
          verdict := None;
        case Broken(kind) =>
          verdict := FailedAttempt(kind, last);
      }
    }

    /** run_single_write_attempts */
    method RunSingleWriteAttempts(payload: Payload, name: string) returns (end: LoopEnd)
      requires Valid() && Apart(payload.Chunks())
      modifies this`calls, this`memory, this`coils, this`sent, this`disconnects, this`repairOpen
      modifies this`latestLoop, this`failedRegisters
      ensures Valid()
      ensures disconnects >= old(disconnects)
      ensures LoopRun(end, calls, disconnects - old(disconnects))
           == Loop(trace, old(calls), payload.Requests(), retry, hasTransport, false)
      ensures OldOrNew(payload.Chunks(), old(memory), memory) && payload.CoilsOldOrNew(old(coils), coils)
      ensures SentFrom(old(sent), sent, payload.Chunks())
      ensures end.Succeeded? ==> payload.Arrived(memory, coils)
      ensures failedRegisters == if end.Succeeded? then old(failedRegisters) - {name} else old(failedRegisters)
      ensures latestLoop == LoopRecord(old(latestLoop), Some(end))
    {
      NothingWrittenYet(payload.Chunks(), memory);
      for attempt := 1 to retry + 1
        invariant disconnects >= old(disconnects)
        invariant Loop(trace, old(calls), payload.Requests(), retry, hasTransport, false)
               == Resumed(Loop(trace, calls, payload.Requests(), retry - attempt + 1, hasTransport, false),
                       disconnects - old(disconnects))
        invariant OldOrNew(payload.Chunks(), old(memory), memory) && payload.CoilsOldOrNew(old(coils), coils)
        invariant SentFrom(old(sent), sent, payload.Chunks())
        invariant Valid() && attempt <= retry
        invariant latestLoop == old(latestLoop) && failedRegisters == old(failedRegisters)
      {
        var verdict := SingleRegisterAttempt(payload, name, attempt == retry, old(memory));
        if verdict.Some? {
          return verdict.value;
        }
      }
      assert false;
      end := Succeeded;
    }

    /** async_write_registers: reject, or run the loop under the lock. Whatever the replies, only the
        addresses of the call can change, chunk by chunk, and no request exceeds the firmware's limit. */
    method AsyncWriteRegisters(start: int, values: seq<int>, refresh: bool, requireSingle: bool, connection: Connection)
      returns (answer: Answer)
      requires Valid()
      modifies this`calls, this`memory, this`sent, this`disconnects, this`repairOpen, this`latestLoop
      ensures Valid()
      ensures var run := CallRun(Config(), Registers(start, values, refresh, requireSingle, connection), old(calls));
              && calls == (if run.Some? then run.value.calls else old(calls))
              && latestLoop == (if run.Some? then LoopRecord(old(latestLoop), Some(run.value.end)) else old(latestLoop))
              && (run.Some? ==> Answers(answer, run.value.end, refresh))
              && (run.None? ==>
                    answer == if connection.Ready? || connection.kind == ModbusFault
                                 || values == [] || (requireSingle && |values| > 16)
                              then Returned(false, false) else Thrown(connection.kind))
              && (run.None? <==> values == [] || (requireSingle && |values| > 16) || connection.Unavailable?)
      ensures answer.Returned? && answer.ok ==> Holds(memory, start, values)
      ensures requireSingle ==> forall i :: |old(sent)| <= i < |sent| ==> sent[i] == WordChunk(start, values)
      ensures forall a :: a < start || start + |values| <= a ==> SameCell(old(memory), memory, a)
      ensures OldOrNew(MultiPlan(start, values, requireSingle, effectiveBatch), old(memory), memory)
      ensures old(sent) <= sent && forall i :: |old(sent)| <= i < |sent| ==>
              1 <= |sent[i].words| <= 16
      ensures !EntersMultiLoop(values, requireSingle, connection) ==> memory == old(memory) && sent == old(sent)
    {
      ghost var plan := MultiPlan(start, values, requireSingle, effectiveBatch);
      NothingWrittenYet(plan, memory);
      if values == [] || (requireSingle && |values| > MAX_REGS_PER_REQUEST) {
        return Returned(false, false);
      }
      if connection.Unavailable? {
        return if connection.kind.ModbusFault? then Returned(false, false) else Thrown(connection.kind);
      }
      MultiPlanIsPlan(start, values, requireSingle, effectiveBatch);
      var end := RunMultiRegisterWriteAttempts(start, values, requireSingle);
      OldOrNewOutside(plan, start, values, MAX_REGS_PER_REQUEST, old(memory), memory);
      RequestsFit(plan, old(sent), sent);
      match end {
        case Succeeded => answer := Returned(true, refresh);
        case GaveUp => answer := Returned(false, false);
        case Escaped(kind) => answer := Thrown(kind);
      }
    }

    /** Read-back by the lock holder: as many words as the reply holds, whatever was asked for; None is any
        failure. */
    method LockedReadHoldingRegisters(start: int, count: nat, received: Option<nat>) returns (words: Option<seq<int>>)
      ensures words == if received.Some? then Some(CellRun(memory, start, received.value)) else None
    {
      words := if received.Some? then Some(CellRun(memory, start, received.value)) else None;
    }

    /** async_write_and_read_holding_registers */
    method AsyncWriteAndRead(start: int, values: seq<int>, count: nat, requireSingle: bool, connection: Connection,
        received: Option<nat>)
      returns (answer: Answer, readback: Option<seq<int>>)
      requires Valid()
      modifies this`calls, this`memory, this`sent, this`disconnects, this`repairOpen, this`latestLoop
      ensures Valid()
      ensures var run := CallRun(Config(), Registers(start, values, false, requireSingle, connection), old(calls));
              if run.Some? then Answers(answer, run.value.end, false)
              else answer == if connection.Ready? || connection.kind == ModbusFault
                                || values == [] || (requireSingle && |values| > 16)
                             then Returned(false, false) else Thrown(connection.kind)
      ensures answer.Returned? && answer.ok ==> Holds(memory, start, values)
      ensures OldOrNew(MultiPlan(start, values, requireSingle, effectiveBatch), old(memory), memory)
      ensures readback.Some? ==>
                && answer == Returned(true, false) && received == Some(|readback.value|)
                && forall k :: 0 <= k < |values| && k < |readback.value| ==> readback.value[k] == values[k]
      ensures answer == Returned(true, false) && received.Some? ==> readback.Some?
    {
      readback := None;
      answer := AsyncWriteRegisters(start, values, false, requireSingle, connection);
      if answer.Returned? && answer.ok {
        readback := LockedReadHoldingRegisters(start, count, received);
        if received.Some? {
          CellsHeld(memory, start, values, received.value);
        }
      }
    }

    /** async_write_register on a register that is known (or not), after the connection is known to be up
        (or not). `received` is the number of words in the answer to the targeted read-back, if it gets one;
        an answer without words cannot be decoded and is not published. */
    method AsyncWriteRegister(name: string, def: Option<RegisterDef>, value: UserValue, offset: nat,
        refresh: bool, readbackAllowed: bool, connection: Connection, received: Option<nat>)
      returns (answer: Answer, published: Option<Option<real>>)
      requires Valid() && (def.Some? ==> Suits(def.value, value))
      modifies this`calls, this`memory, this`coils, this`sent, this`disconnects, this`repairOpen
      modifies this`latestLoop, this`failedRegisters
      ensures Valid()
      ensures !EntersLoop(def, value, offset, connection) ==>
                && answer == (if def.None? then Returned(false, false)
                              else if connection == Unavailable(ModbusFault) then Returned(false, false)
                              else if connection.Unavailable? then Thrown(connection.kind)
                              else if EncodeWriteValue(def.value, value, offset).Raised? then Thrown(OtherFault)
                              else Returned(false, false))
                && latestLoop == old(latestLoop) && memory == old(memory) && coils == old(coils) && sent == old(sent)
      ensures var call := Register(name, def, value, offset, refresh, readbackAllowed, connection, received);
              calls == CallsAfter(Config(), call, old(calls))
      ensures EntersLoop(def, value, offset, connection) ==>
                var encoded := EncodeWriteValue(def.value, value, offset);
                var payload := PayloadFor(def.value, value, encoded, offset, effectiveBatch);
                var end := Loop(trace, old(calls), payload.Requests(), retry, hasTransport, false).end;
                && OldOrNew(payload.Chunks(), old(memory), memory) && payload.CoilsOldOrNew(old(coils), coils)
                && (answer.Returned? && answer.ok ==> payload.Arrived(memory, coils) && name !in failedRegisters)
                && latestLoop == LoopRecord(old(latestLoop), Some(end))
                && Answers(answer, end, refresh && published.None?)
      ensures forall i :: |old(sent)| <= i < |sent| ==> 1 <= |sent[i].words| <= 16
      ensures published.Some? <==>
                && answer.Returned? && answer.ok && readbackAllowed && def.Some? && def.value.function_ == 3
                && def.value.length == 1 && received.Some? && received.value >= 1
      ensures published.Some? ==> ReadBackIsWrite(def.value, value, offset, published.value)
    {
      published := None;
      if def.None? {
        return Returned(false, false), None;
      }
      if connection.Unavailable? {
        return if connection.kind.ModbusFault? then Returned(false, false) else Thrown(connection.kind), None;
      }
      var encoded := EncodeWriteValue(def.value, value, offset);
      if encoded.Raised? {
        return Thrown(OtherFault), None;
      }
      if encoded.Rejected? {
        return Returned(false, false), None;
      }
      var payload := PayloadFor(def.value, value, encoded, offset, effectiveBatch);
      PayloadIsApart(def.value, value, encoded, offset, effectiveBatch);
      var end := RunSingleWriteAttempts(payload, name);
      RequestsFit(payload.Chunks(), old(sent), sent);
      match end {
        case GaveUp => answer := Returned(false, false);
        case Escaped(kind) => answer := Thrown(kind);
        case Succeeded =>
          answer := Returned(true, refresh);
          if ReadBackApplies(def, readbackAllowed) {
            var raw := LockedReadHoldingRegisters(def.value.address + offset, def.value.length, received);
            if raw.Some? && raw.value != [] {
              assert payload.chunks[0] == WordChunk(def.value.address + offset, [encoded.word]);
              CellsHeld(memory, def.value.address + offset, [encoded.word], received.value);
              answer := Returned(true, false);
              published := Some(Single.Decode(def.value, raw.value[0]));
            }
          }
      }
    }

    method Write(w: WriteCall)
      requires Valid() && w.Legal()
      modifies this
      ensures Valid()
      ensures calls == CallsAfter(Config(), w, old(calls))
      ensures latestLoop == RecordAfter(Config(), w, old(calls), old(latestLoop))
    {
      match w {
        case Register(name, def, value, offset, refresh, readbackAllowed, connection, received) =>
          var _, _ := AsyncWriteRegister(name, def, value, offset, refresh, readbackAllowed, connection, received);
        case Registers(start, values, refresh, requireSingle, connection) =>
          var _ := AsyncWriteRegisters(start, values, refresh, requireSingle, connection);
      }
    }

    /** After any run of writes the repair issue is open exactly when the latest loop that completed
        ended without success (LatestCompletedDecides). */
    method Replay(writes: seq<WriteCall>)
      requires Valid() && forall w :: w in writes ==> w.Legal()
      modifies this
      ensures Valid()
      ensures repairOpen <==> RecordAfterAll(Config(), writes, old(calls), old(latestLoop)) == Some(false)
    {
      for i := 0 to |writes|
        invariant Valid()
        invariant RecordAfterAll(Config(), writes, old(calls), old(latestLoop))
               == RecordAfterAll(Config(), writes[i..], calls, latestLoop)
      {
        assert writes[i..][0] == writes[i] && writes[i..][1..] == writes[i + 1..];
        Write(writes[i]);
      }
    }

    method CreateWriteRepair()
      modifies this`repairOpen, this`latestLoop
      ensures repairOpen && latestLoop == Some(false)
    {
      repairOpen, latestLoop := true, Some(false);
    }

    method ClearWriteRepair()
      modifies this`repairOpen, this`latestLoop
      ensures !repairOpen && latestLoop == Some(true)
    {
      repairOpen, latestLoop := false, Some(true);
    }
  }
}
