# ThesslaGreen Modbus: a verified model

This project models how the ThesslaGreen Modbus integration for Home Assistant plans and batches its reads,
retries them, keeps track of what a device does not support, decodes and encodes registers, writes them under
one lock, runs its polling cycle and shows optimistic values, and proves what those parts promise together.

Each module follows one part of the source:

- `ReadPlanner` groups addresses into bounded requests and proves the greedy plan a minimum.
- `BatchReads`, on `ReadRetry`, reads names in batches and proves this to be reading each register alone.
  `ChunkReads` says what one chunk does for every reply; `TableReads` proves from it when values and failures stay
  apart, and how many requests a table takes.
- `UnsupportedRanges` is the pair of interval dictionaries, against one code per address.
- `Crc16` and `CrcDivision` are the RTU check value, its error detection, and its meaning as a remainder
  (MODBUS over Serial Line Specification and Implementation Guide V1.02, sections 2.5.1.2 and 6.2.2).
- `RegisterDefs`, `SingleWordCodec` and `MultiWordCodec` are the register codecs, `RegisterSchema` what the schema
  lets through, `WriteValue` the step from a user's value to the words sent.
- `WriteAttempts` is the write protocol of one lock holder, `LockProtocol` every interleaving of many tasks.
- `UpdateCycle` is the polling cycle with its run-long counters, `Optimistic` the store of pending values.
- `Common` holds two small datatypes.

The device is a memory together with an arbitrary trace of replies. An acknowledged write was applied; a
refused, lost or broken reply leaves open whether it was. Nothing is assumed about the order of replies, except
where a statement speaks of a steady device, which answers every request in full from a fixed memory. Numbers
that the source keeps as floats or Decimals are exact reals here. `retry` and the batch size are at least one,
as the options form and the coordinator's own clamping supply.

Objects that the source updates in place are classes whose ghost fields or specification functions say what
their state means; loops are loops with invariants. Pure code is functions and lemmas.

Some properties one might expect are false of the code. Each is stated with the condition under which it holds:

- A value is not always written inside its register, in two ways. The schema ties the length to an entry's own type,
  but the codec uses the type inside its extra metadata when there is one, so an entry that contradicts itself is
  written past its end (`WriteValue.SizedTypeEscapes`, `DisagreeingTypesFit`; no bundled entry does). And the offset
  is not checked for registers of one word, so that any but 0 leads outside (`WriteAttempts.OffsetEscapes`).
  `WriteValue.WrittenInsideExactly` is the exact condition for every accepted value,
  `WriteValue.AgreeingTypesStayInside` what is left of it when the types agree.
- decode(encode(v)) is not always v, or near it. A multi-word temperature register loses the one integer it stores as
  its "unavailable" words (`MultiWordCodec.DecodeInvertsEncode`, with `SentinelIsLost`). A signed single-word register
  holds a request outside its range masked to 16 bits, so that it reads back far away, and even the order of two
  requests can be lost (`SignedRegisterWraps`, `EncodeMonotone`); and a request whose word means "unavailable" reads
  back as nothing (`RequestReadsAsUnavailable`). `SingleWordCodec.DecodeNearRequest` is the exact condition.
- A name can have a value and be reported failed in one update, when two requests take in its address: safe scanning
  asks for `lock_pass` with two words and for `lock_pass_2`, its second word, again (`TableReads.LockPassOverlaps`).
  Over all devices a name is safe from this exactly when no two groups share it or it can have no value
  (`TableReads.ApartExactly`); batched groups share none.
- An update cycle cancelled while it waits for the lock leaves the busy flag set for ever, because the lock is
  awaited before the `try` block (`UpdateCycle.StuckAfterCancelledWait`).
- A failure streak that reaches the limit does not always ask for reauthentication: a cancellation during the
  disconnect inside the error handler skips the request (`UpdateCycle.LimitMissed`). It is asked for exactly when
  one of the failures that found the streak at its limit was not cancelled there, or a handled failure named a
  credential (`UpdateCycle.LimitAsks`, `UpdateCycle.DueExactly`).
- The lazy deletion of expired optimistic values is invisible to reads, but not to what `clear_if_confirmed`
  returns (`Optimistic.ConfirmationsDiffer`).

`dafny verify dfyconfig.toml` checks the whole project.

## Model

| member | source | states |
|---|---|---|
| ReadPlanner.GroupReads | custom_components/thessla_green_modbus/registers/read_planner.py:12-46 | The groups are an exact, disjoint, ordered cover of the requested addresses by blocks of at most min(limit, 16) words with no boundary inside a block; no block can be one word longer, and no legal cover, overlaps allowed, uses fewer blocks. |
| ReadPlanner.GreedyIsMinimal | custom_components/thessla_green_modbus/registers/read_planner.py:36-46 | Block starts that no single legal request can fetch together force every legal cover to have at least as many blocks. |
| ReadPlanner.NextStartIsForced | custom_components/thessla_green_modbus/registers/read_planner.py:39-44 | Whenever the loop splits, no legal request can reach from the open block's start to the next address. |
| ReadPlanner.SortedDistinct | custom_components/thessla_green_modbus/registers/read_planner.py:32 | Strictly increasing, with exactly the requested addresses. |
| ReadPlanner.RequestCap | custom_components/thessla_green_modbus/registers/read_planner.py:59-63 | A request holds between one and sixteen words whatever limit is configured, and never more than a positive limit. |
| ReadPlanner.ChunkRegisterRange | custom_components/thessla_green_modbus/registers/read_planner.py:49-73 | The loop yields the range plan, whose meaning is RangePlanTiles. |
| ReadPlanner.RangePlanTiles | custom_components/thessla_green_modbus/registers/read_planner.py:49-73 | The range plan tiles start..start+count without gap, each chunk within the cap and all full but the last; none for an empty range. |
| ReadPlanner.TilesExactly | custom_components/thessla_green_modbus/registers/read_planner.py:49-73 | A tiling is ordered and reaches an address exactly when it lies in the range. |
| ReadPlanner.ChunkRegisterValues | custom_components/thessla_green_modbus/registers/read_planner.py:76-96 | The loop yields the chunk plan of the payload. |
| ReadPlanner.ChunkPlanIsPlan | custom_components/thessla_green_modbus/registers/read_planner.py:76-96 | The chunk plan consists of consecutive slices that begin and end where the payload does, all of the full size but the last. |
| ReadPlanner.PlanCarriesEveryWord | custom_components/thessla_green_modbus/registers/read_planner.py:76-96 | Word k of the payload is carried to start+k, chunks do not overlap, and none leaves the payload's range. |
| BatchReads.DeviceClient.ComputeRegisterGroups | custom_components/thessla_green_modbus/core/register_groups.py:11-79 | Batched mode plans each table minimally and in order, with at most min(batch, 16) words a request and, for holding registers, none running on past 15 or 8191; safe-scan mode has one group for each available mapped register, once; in both, every available mapped name is reached. |
| BatchReads.DeviceClient.WantedAddresses | custom_components/thessla_green_modbus/core/register_groups.py:49-67 | The collected addresses are exactly the words of available mapped registers. |
| BatchReads.DeviceClient.SingleGroups | custom_components/thessla_green_modbus/core/register_groups.py:27-46 | One group, cut to the batch size, for every available mapped register, once, and no other. |
| BatchReads.DeviceClient.SinglesShare | custom_components/thessla_green_modbus/core/register_groups.py:27-46 | Safe-scan groups share a name exactly when the requests for two registers take in its address. |
| BatchReads.DeviceClient.LockPassGroups | custom_components/thessla_green_modbus/registers/thessla_green_registers_full.json:3668-3706 | The safe-scan groups of lock_pass and lock_pass_2: two words at 8187, and one at 8188 again. |
| BatchReads.DeviceClient.MarkRegistersFailed | custom_components/thessla_green_modbus/core/client_registers.py:26-33 | Every name at an address of the stretch joins the failed set; no other name changes. |
| BatchReads.DeviceClient.MergeBatchReadResults | custom_components/thessla_green_modbus/core/read_batches.py:38-56 | Each available name at a received address gets the decoding of the word received for its own address and leaves the failed set; no other name is touched. |
| ChunkReads.Reader.MergedAt | custom_components/thessla_green_modbus/core/read_batches.py:45-56 | Merging gives each available name the value of the word at its own address, clears its failure, and changes nothing when the word reads as nothing. |
| ChunkReads.Reader.FaultDecides | custom_components/thessla_green_modbus/core/read_batches.py:235-284 | A chunk without a reply, table by table: which faults end the reading, which fail the chunk, and when holding registers are read one by one. |
| ChunkReads.Reader.ReplyDecides | custom_components/thessla_green_modbus/core/read_batches.py:89-134 | A chunk with a reply, table by table: what came is stored; what is missing is read one by one, or failed, or (for bits, when nothing came) a fault. |
| ChunkReads.Reader.SingleDecides | custom_components/thessla_green_modbus/core/read_batches.py:59-86 | One register on its own: stored if its word reads as a value, failed otherwise; an unforeseen fault goes up, and for holding registers a lost connection. |
| BatchReads.DeviceClient.ReadOne | custom_components/thessla_green_modbus/core/read_batches.py:59-86 | A single address ends with a value or failed, exactly as its own request came out; only faults the fallback does not catch escape. |
| BatchReads.DeviceClient.ReadIndividually | custom_components/thessla_green_modbus/core/read_batches.py:177-206 | The individual fallback settles every available name of its stretch, touches no other name, and ends at the first fault that escapes. |
| BatchReads.DeviceClient.HandleBatchReadFailure | custom_components/thessla_green_modbus/core/read_batches.py:89-134 | What a short reply left out is settled, one by one or by failing it. |
| BatchReads.DeviceClient.ReadWordChunk | custom_components/thessla_green_modbus/core/read_batches.py:235-284 | For every reply (full, partial, empty, permanent, transient) a chunk that returns has settled its available names, and values, failed set and requests used are the function of the replies that the branches define; a name failed before is not asked for again; on a steady device nothing fails; only a lost connection or an unlisted exception escapes. |
| BatchReads.DeviceClient.ReadBitChunk | custom_components/thessla_green_modbus/core/read_bits.py:30-71 | The same for coils and discrete inputs; bits past the request are ignored; a permanent error never escapes. |
| BatchReads.DeviceClient.ReadGroup | custom_components/thessla_green_modbus/core/read_batches.py:228-286 | Settles the chunks of a group one after the other; values, failed set, requests and fault are those of the chunk-by-chunk function on the trace, from the first chunk of the table on. |
| BatchReads.DeviceClient.ReadGroups | custom_components/thessla_green_modbus/core/read_batches.py:228-286 | The chunks of all groups of a table: everything stored was decoded from a word read at its own address, and the outcome is that of the chunk-by-chunk function, about which TableReads proves what follows. |
| BatchReads.DeviceClient.ReadTable | custom_components/thessla_green_modbus/core/read_batches.py:209-286 | A read that returns leaves every available mapped name with a value decoded from a word read at its own address, or failed, or read as nothing; only a name that two groups share can both have a value and have failed; the requests are bounded by the retries of each chunk and each of its words; on a steady device the result is reading each register alone. |
| BatchReads.DeviceClient.ReadAllRegisterData | custom_components/thessla_green_modbus/core/runtime_io.py:46-53 | The four tables in the source's order. On any device a read that returns has settled every available mapped register of every table (holding registers unless the connection was down for them), everything it stores was decoded from a word read at its own address, only names that two groups share can be both stored and failed (if every name belongs to one table), and the requests are bounded; on a steady device each table is as if every register had been read alone. |
| BatchReads.DeviceClient.Poll | custom_components/thessla_green_modbus/core/register_groups.py:11-79 | Planning and reading together, batched or safe-scan, update after update: on any device what a read returns is settled and sourced in every table, and none of it failed but, in safe-scan mode, names asked for on behalf of two registers; on a steady device both modes return what reading each register alone returns (for every available mapped coil and discrete input whether its bit is set, for every register what the decoder makes of its word), and nothing fails. |
| BatchReads.DeviceClient.TablesAreApart | custom_components/thessla_green_modbus/core/runtime_io.py:46-53 | Where every name belongs to one table, joining the four tables hides no value: each name has what the word at its own address stands for. |
| BatchReads.ReadAloneUnique | custom_components/thessla_green_modbus/core/read_batches.py:38-56 | Reading each register alone determines the result, so both modes return the same map. |
| BatchReads.AdvancedFurther | custom_components/thessla_green_modbus/core/read_batches.py:235-284 | What is settled stretch by stretch is settled for the whole. |
| BatchReads.SteadyReadIsReadAlone | custom_components/thessla_green_modbus/core/read_batches.py:235-265 | Settled everywhere, nothing failed and only true words seen is exactly reading each register alone. |
| TableReads.ChunkLocal | custom_components/thessla_green_modbus/core/read_batches.py:228-286 | Whatever the device answers, a chunk touches the names at its own addresses only, and leaves none that had no value both stored and failed. |
| TableReads.DisjointReads | custom_components/thessla_green_modbus/core/read_batches.py:209-286 | A name that no two chunks share is never both stored and failed, whatever the device answers and whatever had failed before. |
| TableReads.ChunksShareAsGroups | custom_components/thessla_green_modbus/core/read_batches.py:228-234 | Cutting groups into chunks neither brings two of them to one name nor parts any that share one. |
| TableReads.SharedOverlaps | custom_components/thessla_green_modbus/core/read_batches.py:235-284 | For a name that two chunks share and that can have a value there is a device that leaves it both stored and failed. |
| TableReads.ApartExactly | custom_components/thessla_green_modbus/core/read_batches.py:209-286 | Name by name, over all devices: a name is kept from being both stored and failed exactly when no two groups take in its address, or it can never have a value (no word decodes to one, or it is a bit that is not available). |
| TableReads.StoredIsStorable | custom_components/thessla_green_modbus/core/read_batches.py:38-86 | Only names that can have a value get one: a value comes from a decodable word, and a bit is stored for an available name only. |
| TableReads.LockPassOverlaps | custom_components/thessla_green_modbus/registers/thessla_green_registers_full.json:3668-3706 | The bundled lock_pass and lock_pass_2 do share one: read on their own, lock_pass_2 can have a value and have failed. |
| TableReads.ReadsAreBounded | custom_components/thessla_green_modbus/core/read_batches.py:209-286 | However badly it goes, reading takes at most `retry` requests for each chunk and each of its words. |
| ReadRetry.LastAttemptDecides | custom_components/thessla_green_modbus/core/retry.py:207-266 | At most `retry` calls; every call but the last failed retryably; the result is the last call's; a retryable fault is only raised when the attempts are used up. |
| ReadRetry.DecidedByAnswer | custom_components/thessla_green_modbus/core/retry.py:216-266 | Answer by answer: no reply, a Modbus error other than an illegal address, a timeout, and I/O, connection, OS and plain Modbus exceptions are tried again while attempts are left; the first other answer, or the last, is the result, after exactly that many calls and one reset for each of them but missing replies and plain Modbus exceptions. |
| ReadRetry.EscapingResets | custom_components/thessla_green_modbus/core/retry.py:73-142 | Which fault of a reset goes up: one that is no timeout, I/O, connection or OS exception, of the disconnect or, with a transport, of the reconnect. |
| ReadRetry.ResetEndsLoop | custom_components/thessla_green_modbus/core/retry.py:145-204 | Such a fault ends the loop at the call before that reset. |
| ReadRetry.OkIsAReply | custom_components/thessla_green_modbus/core/retry.py:228-240 | Only words of a reply that is not an error are ever returned. |
| ReadRetry.ResetFailuresInvisible | custom_components/thessla_green_modbus/core/retry.py:73-142 | Swallowed disconnect and reconnect failures change neither the result nor the number of calls. |
| ReadRetry.Link.ReadWithRetry | custom_components/thessla_green_modbus/core/retry.py:145-266 | The loop's result, calls and resets are those of the attempt sequence on the trace, and the client is the one its resets leave. |
| ReadRetry.Link.DisconnectAndReconnectForRetry | custom_components/thessla_green_modbus/core/retry.py:103-142 | Which reset fault escapes, and the client that is left: the old one after a failed disconnect or without a transport, the reconnect's with one, none when the reconnect fails. |
| ReadRetry.Link.ExecuteReadCall | custom_components/thessla_green_modbus/core/read_batches.py:305-326 | One request is used up and its words are seen. |
| UnsupportedRanges.Scanner.MarkHoldingUnsupported | custom_components/thessla_green_modbus/scanner/capabilities.py:146-156 | Ranges stay nonempty and disjoint; the addresses start..end now have this code and all others keep theirs. |
| UnsupportedRanges.Scanner.CarveAway | custom_components/thessla_green_modbus/scanner/capabilities.py:148-155 | In whatever order the snapshot is walked, exactly the addresses start..end lose their code. |
| UnsupportedRanges.Scanner.MarkHoldingSupported | custom_components/thessla_green_modbus/scanner/capabilities.py:134-143 | Exactly one address loses its code, and it leaves the failed set. |
| UnsupportedRanges.Scanner.MarkInputUnsupported | custom_components/thessla_green_modbus/scanner/capabilities.py:159-168 | In any dictionary order, all ranges that meet start..end are absorbed into one hull, stored under the code (0 for none), and the others stay; the set of addresses grows by exactly start..end. |
| UnsupportedRanges.Scanner.MarkInputSupported | custom_components/thessla_green_modbus/scanner/capabilities.py:122-131 | Exactly one address leaves the dictionary, and the failed set; every other address keeps its code. |
| UnsupportedRanges.Scanner.FilterUnsupportedAddresses | custom_components/thessla_green_modbus/scanner/capabilities.py:107-119 | Keeps exactly the addresses outside the unsupported map or set. |
| UnsupportedRanges.Scanner.Replay | custom_components/thessla_green_modbus/scanner/capabilities.py:122-168 | After any run of marks the dictionaries denote the per-address map and set of that run. |
| UnsupportedRanges.LatestMarkWins | custom_components/thessla_green_modbus/scanner/capabilities.py:134-156 | The latest event that touches a holding address decides its code, or that it is supported. |
| UnsupportedRanges.LatestInputMarkWins | custom_components/thessla_green_modbus/scanner/capabilities.py:122-168 | The latest event that touches an input address decides. |
| UnsupportedRanges.UntouchedStaysSupported | custom_components/thessla_green_modbus/scanner/capabilities.py:122-168 | An address no event touches is never unsupported. |
| UnsupportedRanges.AbsorbOne | custom_components/thessla_green_modbus/scanner/capabilities.py:161-166 | Taking in a range that meets the growing hull never makes it swallow a range that did not meet the mark. |
| UnsupportedRanges.ClearOne | custom_components/thessla_green_modbus/scanner/capabilities.py:126-131 | Cutting the address out of one range keeps the others, and every other address, where they were. |
| UnsupportedRanges.HullSpans | custom_components/thessla_green_modbus/scanner/capabilities.py:159-168 | The hull adds exactly the marked addresses, keeps the ranges disjoint, and replaces exactly the ranges that met the mark. |
| Crc16.ComputeCrc16 | custom_components/thessla_green_modbus/transport/crc.py:6-12 | The byte-wise loops compute the check value defined bit by bit, and the register keeps to 16 bits. |
| Crc16.EightShifts | custom_components/thessla_green_modbus/transport/crc.py:9-11 | The inner loop is eight register shifts. |
| Crc16.Crc16Bytes | custom_components/thessla_green_modbus/transport/crc.py:15-17 | Two bytes, low one first. |
| Crc16.AppendCrc | custom_components/thessla_green_modbus/transport/crc.py:20-21 | The message followed by its check value. |
| Crc16.ShiftLinear | custom_components/thessla_green_modbus/transport/crc.py:11 | One shift is linear over exclusive or. |
| Crc16.ShiftInjective | custom_components/thessla_green_modbus/transport/crc.py:11 | One shift loses nothing. |
| Crc16.BurstLeavesTrace | custom_components/thessla_green_modbus/transport/crc.py:6-12 | From a clear register a nonzero burst of at most 16 bits leaves a nonzero register, whatever zeros surround it. |
| Crc16.CrcDifference | custom_components/thessla_green_modbus/transport/crc.py:6-12 | For equal lengths the exclusive or of two check values depends only on the exclusive or of the messages. |
| Crc16.BurstDetected | custom_components/thessla_green_modbus/transport/crc.py:6-12 | Any error within 16 consecutive bits of a message of any length changes the check value. |
| Crc16.FrameChecksOut | custom_components/thessla_green_modbus/transport/crc.py:6-21 | The check value of a whole frame is zero exactly when its last two bytes are the check value of the rest. |
| Crc16.DamagedFrameRejected | custom_components/thessla_green_modbus/transport/crc.py:6-21 | A frame damaged within 16 consecutive bits, trailer included, is never taken for a frame. |
| CrcDivision.DivisionUnique | custom_components/thessla_green_modbus/transport/crc.py:6-12 | Quotient and remainder of division by the generator polynomial exist and are unique. |
| CrcDivision.ClockDivides | custom_components/thessla_green_modbus/transport/crc.py:9-11 | Clocking in one bit is one step of polynomial division. |
| CrcDivision.CrcIsRemainder | custom_components/thessla_green_modbus/transport/crc.py:6-12 | The check value is the reflected remainder by x^16+x^15+x^2+1 with initial register 0xFFFF. |
| CrcDivision.RemainderKeepsParity | custom_components/thessla_green_modbus/transport/crc.py:6-12 | Dividing by this generator keeps the parity: its number of terms is even. |
| CrcDivision.CrcParity | custom_components/thessla_green_modbus/transport/crc.py:6-12 | The check value has an odd number of ones exactly when the message does. |
| CrcDivision.OddErrorDetected | custom_components/thessla_green_modbus/transport/crc.py:6-12 | Any odd number of flipped bits, anywhere in a message of any length, changes the check value. |
| CrcDivision.FramesAreEven | custom_components/thessla_green_modbus/transport/crc.py:6-21 | Every frame, trailer included, carries an even number of ones. |
| CrcDivision.OddErrorRejected | custom_components/thessla_green_modbus/transport/crc.py:6-21 | A frame with an odd number of flipped bits, trailer included, is never taken for a frame. |
| RegisterDefs.OutputIsExact | custom_components/thessla_green_modbus/registers/codec.py:48-55 | With a resolution of 1, or a multiplier that is a multiple of it, output scaling loses nothing. |
| RegisterDefs.CoerceInvertsOutput | custom_components/thessla_green_modbus/registers/codec.py:48-86 | Input coercion undoes output scaling for every value within the limits. |
| RegisterDefs.CoerceMonotone | custom_components/thessla_green_modbus/registers/codec.py:58-86 | Input coercion is monotone. |
| RegisterDefs.CoerceError | custom_components/thessla_green_modbus/registers/codec.py:79-86 | The two roundings together move a value by at most half a raw unit plus half a resolution step. |
| RegisterDefs.HalfUpError | custom_components/thessla_green_modbus/registers/codec.py:58-86 | Input rounding moves a number by at most a half; a tie goes away from zero. |
| RegisterDefs.HalfEvenError | custom_components/thessla_green_modbus/registers/codec.py:48-55 | Output rounding moves a number by at most a half; a tie goes to the even neighbour. |
| RegisterDefs.TruncationError | custom_components/thessla_green_modbus/registers/register_def.py:214-240 | int() moves a number by less than one, towards zero. |
| SingleWordCodec.EncodeInvertsDecode | custom_components/thessla_green_modbus/registers/register_def.py:129-240 | encode(decode(raw)) = raw for every word that decodes to a value within the limits. |
| SingleWordCodec.EncodeMonotone | custom_components/thessla_green_modbus/registers/register_def.py:214-240 | A larger request never encodes to a smaller raw number, except exactly when a signed register wraps around between the two by more than they are apart; requests it can hold do not. |
| SingleWordCodec.DecodeNearRequest | custom_components/thessla_green_modbus/registers/register_def.py:214-243 | For every accepted request that encodes to a word: it reads back near the request (half a raw unit plus half a step; without a multiplier less than one plus half a step) exactly when a signed register can hold the raw number and its word does not stand for unavailable; whatever reads back is near exactly when the register can hold the raw number. |
| SingleWordCodec.RequestReadsAsUnavailable | custom_components/thessla_green_modbus/registers/register_def.py:129-155 | The second condition is needed: 16384 on a temperature in half degrees, -16384 on a signed one and 2500 on a DAC register in half units are accepted and read back as unavailable. |
| SingleWordCodec.SignedRegisterWraps | custom_components/thessla_green_modbus/registers/register_def.py:214-240 | Concrete requests for which both fail: a signed register in steps of 2 accepts 80000 and reads back -51072, and 65536 encodes below 65534. |
| SingleWordCodec.UnsignedIsWord | custom_components/thessla_green_modbus/registers/register_def.py:214-240 | Without a signed type nothing is masked: the encoding is a 16-bit word exactly when the request is less than half a unit (without a multiplier, one) beyond 0 .. 65535. |
| MultiWordCodec.ToFromBytes | custom_components/thessla_green_modbus/registers/register_def.py:104-112 | Positional bytes of a value are its own bytes again. |
| MultiWordCodec.IntegerRoundTrip | custom_components/thessla_green_modbus/registers/register_def.py:104-112 | A representable signed or unsigned integer survives its bytes. |
| MultiWordCodec.EncodeAccepts | custom_components/thessla_green_modbus/registers/register_def.py:266-281 | An integer within the limits is encoded to its own words, and they exist exactly when it is representable, overflow otherwise; outside the limits it is refused. |
| MultiWordCodec.WordsKeepInteger | custom_components/thessla_green_modbus/registers/register_def.py:104-112 | A representable integer survives its words, in both word orders. |
| MultiWordCodec.IntegerIsPositional | custom_components/thessla_green_modbus/registers/register_def.py:100-112 | The integer of words w is the sum of w[i] * 65536^(n-1-i) on a big-endian register and of w[i] * 65536^i on a little-endian one, read in two's complement for the signed kinds. |
| MultiWordCodec.EncodedIsPositional | custom_components/thessla_green_modbus/registers/register_def.py:266-281 | The words sent for any accepted value are the digits, in that order, of its raw number modulo their size: two or four words for the sized types, the register's length for any other. |
| MultiWordCodec.DecodeInvertsEncode | custom_components/thessla_green_modbus/registers/register_def.py:88-281 | For every width and both word orders an accepted integer reads back as itself, except exactly the one whose words are all 0x8000 on a temperature register. |
| MultiWordCodec.SentinelWords | custom_components/thessla_green_modbus/registers/register_def.py:94-95 | Only one integer is encoded to the all-0x8000 words. |
| MultiWordCodec.SentinelIsLost | custom_components/thessla_green_modbus/registers/register_def.py:94-95 | The exception is real: a signed 32-bit temperature without limits accepts its sentinel integer and reads it back as unavailable. |
| MultiWordCodec.EncodeInvertsDecode | custom_components/thessla_green_modbus/registers/register_def.py:88-281 | Words that decode to a value within the limits are written back unchanged, in both word orders, scaled (with a resolution of 1 or dividing the multiplier) or not. |
| MultiWordCodec.TextRoundTrip | custom_components/thessla_green_modbus/registers/register_def.py:115-127 | An ASCII string survives exactly when it fits the register and does not end in a NUL. |
| MultiWordCodec.TextWords | custom_components/thessla_green_modbus/registers/register_def.py:245-250 | Word i of an encoded string carries characters 2i and 2i+1, the first in its high byte, NULs behind the end. |
| MultiWordCodec.TextWordsRoundTrip | custom_components/thessla_green_modbus/registers/register_def.py:115-252 | A register that holds ASCII is written back unchanged. |
| WriteValue.ListStaysInside | custom_components/thessla_green_modbus/core/write_path.py:24-43 | An accepted list is sent as given, inside the register. |
| WriteValue.ListAccepted | custom_components/thessla_green_modbus/core/write_path.py:24-43 | A list is accepted exactly by a register of several words that it fits behind the offset, fills if the offset is 0, and if it holds whole numbers only. |
| WriteValue.ScalarAccepted | custom_components/thessla_green_modbus/core/write_path.py:44-66 | Anything else is accepted exactly if the codec takes it and, on a register of several words, the offset lies inside; the codec's error goes up first. |
| WriteValue.ScalarPlacement | custom_components/thessla_green_modbus/core/write_path.py:44-60 | On a register of several words an accepted scalar is sent from its word `offset` on, and stays inside exactly when its encoding is not wider than the register or `offset` is past the encoding. |
| WriteValue.WrittenInsideExactly | custom_components/thessla_green_modbus/core/write_path.py:12-66 | Every accepted value, on a register of any length: it is written inside exactly when a one-word register is given offset 0, or a longer one a list, a type no wider than itself, or an offset past the encoding; never on a register without words. |
| WriteValue.SizedTypeEscapes | custom_components/thessla_green_modbus/registers/schema.py:125-161 | The condition is needed: an entry declared as u32 with u64 in its extra metadata passes the schema with two words, and a value written to it takes four. |
| WriteValue.AgreeingTypesStayInside | custom_components/thessla_green_modbus/registers/schema.py:148-161 | For a register loaded from an entry whose two types agree, every accepted value is written inside if the register has several words, and exactly with offset 0 if it has one. |
| WriteValue.DisagreeingTypesFit | custom_components/thessla_green_modbus/registers/schema.py:297-304 | For any loaded register, its type is no wider than its length exactly when the two types agree or the inner one is no wider than the length that was checked. |
| RegisterSchema.AgreeingLength | custom_components/thessla_green_modbus/registers/schema.py:125-161 | A loaded register whose types agree is exactly as long as its type is wide. |
| RegisterSchema.LoadedAsWritten | custom_components/thessla_green_modbus/registers/schema.py:125-161 | Type by type: the entry's own type, or else the inner one, fixes the length, and the inner one, or else its own, how the codec treats the register. |
| WriteValue.WordReachesItsPlace | custom_components/thessla_green_modbus/core/write_path.py:44-60 | Through any chunk size word i of the full encoding travels to address+i, for every i from `offset` on. |
| WriteValue.ChunksStayInside | custom_components/thessla_green_modbus/core/write_path.py:24-60 | Through any chunk size, every chunk of an accepted value is inside the register exactly when the value fits. |
| WriteAttempts.PayloadStaysInside | custom_components/thessla_green_modbus/coordinator/schedule.py:353-395 | The requests that a write really sends stay inside the register exactly when the value fits; a coil exactly when the offset is below the length. |
| WriteAttempts.PayloadMeans | custom_components/thessla_green_modbus/coordinator/schedule.py:353-395 | An accepted value goes to a holding register as its words, to a coil as its truth (of the encoded word if there is one), and to any other register not at all. |
| WriteAttempts.OffsetEscapes | custom_components/thessla_green_modbus/coordinator/schedule.py:408-425 | Agreeing types are not enough: a one-word register at 100 accepts 5 with offset 3, and the write goes to 103. |
| WriteAttempts.SuccessMeansAcknowledged | custom_components/thessla_green_modbus/coordinator/write_path.py:94-146 | A loop that reports success ended with one whole attempt acknowledged in a row. |
| WriteAttempts.AttemptsAreExhausted | custom_components/thessla_green_modbus/coordinator/write_path.py:42-91 | Without OS or unlisted faults a single request gives up exactly when all attempts failed, after all of them, and otherwise stops at the first acknowledgement. |
| WriteAttempts.DecidedByReply | custom_components/thessla_green_modbus/coordinator/write_path.py:42-91 | Reply by reply for single requests: refusals, Modbus faults and timeouts are tried again while attempts are left, any other reply or the last one ends the loop as a success, by giving up, or with the exception; and each kind of reply costs the connection or not. |
| WriteAttempts.NothingToSend | custom_components/thessla_green_modbus/coordinator/schedule.py:353-380 | A loop with nothing to send gives up without a request. |
| WriteAttempts.AttemptReplies | custom_components/thessla_green_modbus/coordinator/schedule.py:192-201 | An attempt sends until the first reply that is not an acknowledgement. |
| WriteAttempts.StoreStaysOldOrNew | custom_components/thessla_green_modbus/coordinator/schedule.py:192-201 | Storing one chunk of a disjoint plan keeps every chunk wholly old or wholly new and everything else unchanged. |
| WriteAttempts.PlanWritten | custom_components/thessla_green_modbus/coordinator/schedule.py:192-201 | All chunks written means every value is at its own address. |
| WriteAttempts.MultiPlanIsPlan | custom_components/thessla_green_modbus/coordinator/schedule.py:240-265 | The requests of a validated multi-register write are disjoint, within sixteen words, and carry the payload. |
| WriteAttempts.Coordinator.ExecuteMultiRegisterChunks | custom_components/thessla_green_modbus/coordinator/schedule.py:192-201 | Sends a prefix of the chunks, in order, up to the first reply that is not an acknowledgement; every chunk stays old or new, and the memory is that of the attempt on the trace. |
| WriteAttempts.Coordinator.HandleWriteAttemptException | custom_components/thessla_green_modbus/coordinator/schedule.py:285-329 | Which faults are retried, which end the loop, which pass through, and when the connection is dropped. |
| WriteAttempts.Coordinator.RunMultiRegisterWriteAttempts | custom_components/thessla_green_modbus/coordinator/write_path.py:94-146 | Verdict, replies used, disconnects and memory are those of the attempt loop on the trace; success means the device holds all values, otherwise each chunk is wholly old or new. |
| WriteAttempts.Coordinator.RunSingleWriteAttempts | custom_components/thessla_green_modbus/coordinator/write_path.py:42-91 | The same for a single register, where a refusal keeps the connection; only success clears the failed mark. |
| WriteAttempts.Coordinator.ExecuteSingleRegisterWriteAttempt | custom_components/thessla_green_modbus/coordinator/schedule.py:353-395 | Words, one word, a coil, or nothing the register can take; delivered means it arrived. |
| WriteAttempts.Coordinator.AsyncWriteRegisters | custom_components/thessla_green_modbus/coordinator/schedule.py:532-562 | The whole answer: true with the refresh asked for exactly when the loop succeeds, and then all values are held; false when it gives up, for an empty or oversized call, or when Modbus is not connected; an exception goes through as it is. No address outside the call changes, no request exceeds 16 words, a call for one request sends the payload as one, and a rejected call changes nothing. |
| WriteAttempts.Coordinator.AsyncWriteAndRead | custom_components/thessla_green_modbus/coordinator/schedule.py:605-644 | The same answers without a refresh; a read-back that is not None shows the words just written, as many as the reply held; none without success. |
| WriteAttempts.Coordinator.AsyncWriteRegister | custom_components/thessla_green_modbus/coordinator/schedule.py:397-530 | The whole answer for every call: false for an unknown register, a rejected value, a loop that gives up or a Modbus fault before it, exceptions as they are, true on success. Rejected calls leave device and repair flag alone; a read-back is published exactly for an allowed one-word holding register whose reply holds a word, and is the decoding of the very word encoded for this write. |
| WriteAttempts.Coordinator.Replay | custom_components/thessla_green_modbus/coordinator/write_path.py:16-146 | After any run of single- and multi-register writes the repair issue is open exactly when the record of that run says that the latest completed loop failed. |
| WriteAttempts.LatestCompletedDecides | custom_components/thessla_green_modbus/coordinator/write_path.py:16-146 | That record is the outcome of the latest loop that completed. |
| WriteAttempts.NoneCompleted | custom_components/thessla_green_modbus/coordinator/schedule.py:409-427 | Writes rejected before the loop, or that an unlisted exception passes through, leave the record unchanged. |
| LockProtocol.StepKeepsInv | custom_components/thessla_green_modbus/coordinator/schedule.py:461-562 | Every step of every task keeps the lock exclusive, the bus contiguous per holder, and what each task has written in place. |
| LockProtocol.StepKeepsContiguous | custom_components/thessla_green_modbus/coordinator/schedule.py:461-492 | Only the lock holder sends, so its requests stay contiguous. |
| LockProtocol.StepKeepsTasks | custom_components/thessla_green_modbus/coordinator/schedule.py:628-640 | No step of another task disturbs what a holder has written or read back. |
| LockProtocol.StepKeepsSerial | custom_components/thessla_green_modbus/coordinator/write_path.py:94-146 | Every step keeps the memory the result of the sessions so far, chained one after another, and of what the holder has sent since. |
| LockProtocol.RunKeepsInv | custom_components/thessla_green_modbus/coordinator/update.py:61-63 | The invariant holds after every interleaving. |
| LockProtocol.EveryInterleaving | custom_components/thessla_green_modbus/coordinator/schedule.py:461-492 | In every interleaving of any number of writers, write-and-read tasks and readers: one holder at a time, contiguous requests, no more attempts than allowed, every answered read-back follows a success and shows the words just acknowledged, and the memory is what the holders made of it one after another, each writer leaving its chunks wholly old or wholly new (new if it succeeded) and nothing else changed. |
| LockProtocol.TargetedReadBack | custom_components/thessla_green_modbus/coordinator/schedule.py:475-492 | The one word of a targeted read-back is the word that was written. |
| LockProtocol.EndsWell | custom_components/thessla_green_modbus/coordinator/schedule.py:461-562 | A holding ends well by completing, reading back or releasing, badly by a final failure or a cancellation, and gives the lock back. |
| LockProtocol.ReadsBack | custom_components/thessla_green_modbus/coordinator/schedule.py:564-603 | An answered read-back is what the memory holds there, as many words as the answer has; without an answer there is none. |
| LockProtocol.BusIsRequests | custom_components/thessla_green_modbus/coordinator/schedule.py:192-201 | The bus carries the requests of the steps, in their order, and no others: the next chunk, acknowledged or not, the read-back, or a poll. |
| LockProtocol.RemainderIsLoop | custom_components/thessla_green_modbus/coordinator/write_path.py:94-146 | Counted request by request or attempt by attempt, a write loop leaves the same verdict and memory. |
| LockProtocol.CallIsSession | custom_components/thessla_green_modbus/coordinator/schedule.py:532-562 | For every trace of replies one call of the multi-register write loop is one session of the protocol: a run of that task alone, from acquiring the lock to releasing it, that leaves the memory and the success the call leaves. |
| UpdateCycle.Coordinator.BeginUpdateCycle | custom_components/thessla_green_modbus/coordinator/update_state.py:15-24 | Answers cached data exactly when busy; otherwise sets busy and empties the failed set. |
| UpdateCycle.Coordinator.ApplySuccessResult | custom_components/thessla_green_modbus/coordinator/update_result.py:17-37 | The statistics and the streak go on describing the history, with the running mean updated as the source does. |
| UpdateCycle.Coordinator.ApplyUpdateFailureState | custom_components/thessla_green_modbus/coordinator/errors.py:13-25 | One more failure, and one more timeout if it was one. |
| UpdateCycle.Coordinator.HandleUpdateError | custom_components/thessla_green_modbus/coordinator/errors.py:28-56 | One counted failure is recorded; the counters and the reauth flag keep describing the history, also when the disconnect is cancelled. |
| UpdateCycle.Coordinator.TriggerReauth | custom_components/thessla_green_modbus/coordinator/coordinator.py:272-282 | A flow starts at most once, and only with an entry. |
| UpdateCycle.Coordinator.HandleStop | custom_components/thessla_green_modbus/coordinator/update.py:65-100 | What each kind of exception is recorded as, counted or not, and what the caller sees: cancelled, raised as it is, or a failed update. |
| UpdateCycle.RunUpdateCycle | custom_components/thessla_green_modbus/coordinator/update.py:25-46 | What stops a cycle, in the order of the checks: connecting, a link that is down or missing, the read, and the reconnect after a drop with the link it leaves; otherwise nothing. |
| UpdateCycle.Coordinator.EnterUpdate | custom_components/thessla_green_modbus/coordinator/update.py:51-61 | Cached data while shutting down or busy; otherwise this call becomes the only active cycle. |
| UpdateCycle.Coordinator.CancelledAtTheLock | custom_components/thessla_green_modbus/coordinator/update.py:57-61 | A cycle cancelled while it waits for the lock leaves the busy flag set with no cycle active. |
| UpdateCycle.Coordinator.UpdateUnderLock | custom_components/thessla_green_modbus/coordinator/update.py:61-102 | On every path the one result that the cycle's events determine is recorded, the flag is cleared and the lock released. |
| UpdateCycle.Coordinator.Replay | custom_components/thessla_green_modbus/coordinator/update.py:49-102 | Over every run: lock, queue, busy flag and history are those of the events one after another; at most one active cycle; busy exactly while one is active, unless a wait was cancelled, after which no cycle ever ends; statistics and streak are those of the history, and mean times successes is the total time; reauth at most once, exactly when an entry exists and some result asked for it. |
| UpdateCycle.StuckAfterCancelledWait | custom_components/thessla_green_modbus/coordinator/update.py:57-61 | A concrete run that gets stuck: whatever happens later, busy stays set and no further cycle completes. |
| UpdateCycle.SinceLastSuccess | custom_components/thessla_green_modbus/coordinator/update_result.py:27 | The streak is the number of counted failures after the last success. |
| UpdateCycle.StatisticsCount | custom_components/thessla_green_modbus/coordinator/update_result.py:24-34 | Each counter of the statistics counts what it is named for. |
| UpdateCycle.MeanIsAverage | custom_components/thessla_green_modbus/coordinator/update_result.py:29-34 | The running mean times the number of successes is the total of their response times. |
| UpdateCycle.MeanStaysBetween | custom_components/thessla_green_modbus/coordinator/update_result.py:29-34 | Once there was a success, the mean lies between any bounds of the response times. |
| UpdateCycle.LimitAsks | custom_components/thessla_green_modbus/coordinator/errors.py:45-47 | Reauthentication is asked for exactly when one of the failures that found the streak at its limit was not cut off in its disconnect, or a handled failure names a credential. |
| UpdateCycle.DueExactly | custom_components/thessla_green_modbus/coordinator/errors.py:45-50 | The reauth condition kept by the coordinator holds exactly when some handled result found the streak at its limit or named a credential. |
| UpdateCycle.LimitMissed | custom_components/thessla_green_modbus/coordinator/errors.py:42-47 | That exception is real: the failure completing the streak, cancelled in its disconnect, asks for nothing. |
| Optimistic.ExactIsLastSet | custom_components/thessla_green_modbus/optimistic.py:46-109 | An entry is pending exactly when it was the last one set, with no later clear or matching confirmation. |
| Optimistic.ReadsAgree | custom_components/thessla_green_modbus/optimistic.py:53-68 | Under a clock that never goes back, the lazy deletion never shows in a read. |
| Optimistic.LazyIsExactUnlessReadTooLate | custom_components/thessla_green_modbus/optimistic.py:65-67 | The dictionary differs from a store that forgets nothing only by entries that a read found expired. |
| Optimistic.ConfirmationsDiffer | custom_components/thessla_green_modbus/optimistic.py:74-109 | What clear_if_confirmed returns depends on the lazy deletion exactly when a matching entry was read after it expired. |
| Optimistic.LateReadChangesConfirmation | custom_components/thessla_green_modbus/optimistic.py:65-67 | One late read turns the answer of the same confirmation from true to false. |
| Optimistic.OptimisticState.SetPending | custom_components/thessla_green_modbus/optimistic.py:46-51 | The new entry replaces the old one; every other key keeps its own. |
| Optimistic.OptimisticState.GetPending | custom_components/thessla_green_modbus/optimistic.py:53-68 | Answers as the exact store: the last value set if no older than the ttl and neither cleared nor confirmed. |
| Optimistic.OptimisticState.ClearPending | custom_components/thessla_green_modbus/optimistic.py:70-72 | The key is gone, the others stay. |
| Optimistic.OptimisticState.ClearIfConfirmed | custom_components/thessla_green_modbus/optimistic.py:74-109 | True, and the entry gone, exactly when an entry is there and the comparator says so, or both read as numbers at most the tolerance apart, or, where one does not or no tolerance is given, they are equal. |
| Optimistic.OptimisticState.Replay | custom_components/thessla_green_modbus/optimistic.py:46-109 | Over any run every read answers as an exact store would. |

## Left out

- BatchReads.DeviceClient.ReadWordChunk: the loops of input and holding registers, and those of coils and discrete inputs, are written out once each with their differences as branches; replies to word requests are taken to be no longer than asked.
- BatchReads.DeviceClient.ReadAllRegisterData: does not model post-processing of the merged values or the total_registers_read statistic.
- UnsupportedRanges.Scanner.CarveAway: the snapshot loops of the two holding operations are one method, since clearing an address is carving a range of length one.
- UnsupportedRanges.Scanner.MarkHoldingUnsupported: start <= end is assumed, here and for input ranges, as the scanner marks only ranges of at least one address.
- RegisterSchema.AgreeingLength: of the schema only types and lengths are modelled; float types load into registers outside this model, and a negative length, which the source refuses only where a type is given, is left out.
- WriteAttempts.Coordinator.AsyncWriteRegister: a value suits its register (characters for text, numbers or lists of whole numbers otherwise); a numeric string is not modelled (the source takes one wherever it takes a number, which includes the text registers of one word, such as device_name_2, that take no other text; characters always raise there), nor are enum labels, for which the source publishes the raw number, or a read-back whose decoding raises, after which it asks for a refresh instead.
- SingleWordCodec.UnsignedIsWord: what a client library does with a number outside 16 bits is not modelled; the writes carry the number as it is.
- LockProtocol.EveryInterleaving: chunks and read-back range of a writer are given, not computed; WriteAttempts computes them, and CallIsSession ties its loop for several registers to a session.
- UpdateCycle.Coordinator.Replay: offline_state is not modelled, because the transports set it as well; a cycle under the lock is one step, as only its end touches the counters.
- Optimistic.OptimisticState.ClearIfConfirmed: comparators are total; one that raises is not modelled.
- Enum, bitmask, BCD time and AATT registers, and the f32 and f64 formats: fixed tables and float packing.
- process_register_value: an uninterpreted total decoder.
- plan_group_reads, group_registers and create_consecutive_groups: thin calls, or the same grouping without a limit.
- Retry counts of zero, with which the write loops report success without writing.
- A repair issue is one flag; the issue registry, its failures and a missing Home Assistant instance are left out.
- The disconnect of the write path does not raise: the connection layer swallows its failures.
- Home Assistant entities, config and options flows, services, diagnostics and translations.
- pymodbus clients, sockets, transports and frame logging.
- Waiting times, back-off, jitter and log messages.
