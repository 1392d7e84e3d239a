# Parsing, memory and scheduling cores of the game servers

The servers of this repository rest on four components, and this project models
each of them and proves what callers rely on.

**HTTP (`utils/picohttpparser.c`).** `ChunkedDecoder` is the in-place chunked
decoder: an object whose fields survive from call to call and whose buffer is
compacted while it is read, proved equal to a byte-by-byte run. `ChunkedStream`
proves that cutting a stream into calls changes nothing and that the decoder
finishes exactly on chunked encodings, returning their bodies, and rejects exactly
what nothing can complete, at the first byte that says so. `HttpRequest` is
the request parser, loops over the buffer and a header array included;
`HttpGrammar` proves that it succeeds exactly on request texts, whose characters
it takes from literal texts of its own, and that its slices name their parts; `HttpRequestProofs` proves that a decision never
changes when more bytes arrive and that the `last_len` shortcut loses no
success; `HttpFaults` proves that it rejects exactly the texts with a fault at
some byte, and `HttpShortcut` says by the bytes when the shortcut's verdict is
that of a parse from scratch.

**JSON (`utils/yyjson.c`).** A value is a tree (`JsonTree`) and its tape is the
preorder encoding of it.

- Texts: `StringGrammar`, `NumberSyntax` and `JsonSyntax` write strings, numbers
  and whole texts as RFC 8259 does, with their meaning, apart from any reader;
  reading and writing are proved to agree with them in both directions.
- Reading: `Utf8`, `JsonString`, `StringReader` (strings decoded in place),
  `IntegerReader`, `JsonGrammar` (what a text means, by recursive descent),
  `JsonTape` (why one pass over the text with parent offsets in the open
  containers computes that), `JsonReader` (the labels of the two one-shot
  readers over a growing array of slots).
- Reading in parts: `NumberTruncation`, `JsonTruncation` and `JsonCuts` (what a
  prefix shows of the whole), `ScalarCompletion` and `JsonCompletion` (what a cut
  text needs to become a document), `IncrSteps`, `IncrTexts` and `IncrReader` (the
  incremental reader over any sequence of prefixes), `CutExamples`,
  `IncrExamples`.
- Writing: `Integers`, `StringWriter`, `JsonText`, `JsonWriter` (text growing up
  and container contexts growing down in one buffer), `JsonRoundTrip` and
  `JsonPipeline` (writer and readers composed).
- Numbers: `NumberText` (the parts of a number and whether it is too large),
  `RealReader` (the scan of its digits and exponent), `Word64`, `BigInt`,
  `DecimalBuf`, `BigCompare` (the exact comparison that decides the last bit),
  `FastFloat` (the 128-bit path), `Doubles`, `PowersOfTen`, `DiyFloat`,
  `SmallestDouble`, `SlowPath` and `LargestDouble` (the estimate with its error,
  and at both ends of the range), `ExactStep` (estimate and comparison together),
  `NumberValue` (from the text to the bits of the double), `NumberPlace` (a number
  is read by its own text, wherever that stands), `ReaderExamples`, `EdgeExamples`.
- Memory: `PoolHeap` is the coalescing pool as an abstract heap, with what every
  run keeps; `PoolAllocator` is the same calls on memory cells with an intrusive
  free list, proved to move as the heap does and to keep payloads; `PoolRequests`
  says in bytes that every chunk holds what was last asked of it.
- Trees: `MutTree` (tape to circular lists and back) and `MergePatch`
  (RFC 7386).

**Coroutines (`utils/minicoro.h`).** `Coroutines` is the `prev_co` chain as a
state machine and as a graph of objects that moves with it.

**Slot map (`utils/slotmap`).** `SlotMap` is the vector with its free list of
versioned handles, and the proof that it behaves as a map of live handles.

`Bytes` holds what the modules share, and `Literals` the digits and letters as texts. Classes and loops stand where the source
updates fields, arrays and cursors; each such method is proved against a
function, and the properties are proved about that function.

## Results a maintainer may not expect

- `yyjson_incr_read` can refuse a valid document. When a call ends inside a long
  number, and the part that is there is itself a number that `read_num` refuses,
  the error is reported at the number's first byte, which the truncation check
  does not take for a cut. `ValidDocumentWithBadCut` is such a document with such
  a length; `FeedAll` proves that the reader gives the right tape if and only if
  no call ends so, for all valid documents and all cuts; documents without real
  numbers are never refused (`DocumentClear`).
- It can also ask for more where nothing can help: inside of a low surrogate with
  no high one in front (`LoneLowWaits`), and behind a plus in the exponent of a
  number that is infinite already (`PlusWaits`). `IncrState.Feed` proves that these
  are the only two: in every other case some continuation makes a text.
- At the root it does not wait for a number to go on: `12` in the parts `1` and `12`
  is read as 1 (`SingleNumberEndsEarly`). `SingleKeptExactly` says when a part of a
  value of one slot has the value of the whole.
- The overhead limit of the chunked decoder is a matter of three quarters of the
  bytes, not of the 80 percent its comment names (`OverheadTrips`).
- `bigint_set_buf` drops digits by counting bytes. When a number has more than
  768 digits and its point lies among the dropped ones, one digit too many is
  kept for the exponent it reports: the result is more than nine times too large
  (`PointBeyondMisscales`), and above the smallest double the comparison goes up
  whatever the number is (`BeyondIsAbove`). `MisscaledExactly` says when such a
  number is read right; `PointBeyondMisread` is one that is read as the double
  after the right one.
- For the same reason `read_num` refuses some finite numbers as infinite:
  `FiniteRefused` is one, and `FiniteBadCut` a valid document that cannot be cut
  behind it. `RefusedExactly` proves that the refusal is of the numbers that
  round to infinity, and of those with the point among the dropped digits, the
  decimal exponent 290 and nineteen rounded digits 1797693134862315807 or
  1797693134862315808. All readers are proved with this refusal.
- Apart from that point, the last kept digit is forced to 1 whether or not the
  rest is zero, so that a number of more than 768 digits that is exactly midway
  above an even double is rounded away from it. `ReadReal` proves that all other
  numbers, from the text to the bits, are rounded right. `TieMisread` is a tie
  that is not.
- A moving `pool_realloc` copies the old chunk, not the old request. After an
  in-place growth has left two cells of slack, that can be one cell more than
  the new chunk has. `CopyFitsExactly` says when, and `GrownChunkMayNotFit` is a
  run of five calls that gets there. Every other property of the pool is proved
  for runs in which it does not happen.
- The `last_len` shortcut of `phr_parse_request` never changes a success, but its
  verdict can differ from that of a parse from scratch in two ways: it can go on
  asking for more where the text already has a fault (`ShortcutMayReportLater`),
  and it can reject where a parse from scratch still waits for the version
  (`ShortcutMayRejectAlone`). `VerdictsCoincideExactly` says for all texts, by
  their bytes, when neither happens.
- `SlotMap::Remove` accepts the handle that a deleted slot stores, which carries
  the deleted bit and can be seen through a kept pointer or `GetData`: the slot is
  then listed as free a second time and granted twice (`DoubleFreeHappens`).
  `RemoveSoundExactly` proves that this is the only call of `Remove` that breaks
  the map.
- A slot that was reused 2^14 times hands out its first handle again
  (`NewHandleExactlyBelowReuseLimit`, an if and only if), and with 32768 slots in
  use the next `Add` overwrites slot 0 (`SlotLimitOverwrites`); runs from the
  empty map reach both (`LimitsReached`).
- In `yyjson_incr_read` the limit of 1024 bytes on a number has no effect: the
  error it raises is positioned at the end of the prefix, which the truncation
  check takes for a text that may go on, so that both exits ask for more
  (`MaybeTruncatedNumber`).

## Model

| member | source | states |
|---|---|---|
| ChunkedDecoder.StepKeepsReachable | utils/picohttpparser.c:532-698 | no byte can take the decoder to a state whose size overflows 16 hexadecimal digits or that misuses its counters |
| ChunkedDecoder.RunKeepsReachable | utils/picohttpparser.c:545-698 | no run of bytes can, from any reachable state |
| ChunkedDecoder.Decoder.ReadChunkSize | utils/picohttpparser.c:554-587 | the size loop leaves the same state, position and verdict as stepping byte by byte |
| ChunkedDecoder.Decoder.SkipExtension | utils/picohttpparser.c:588-602 | the same for a chunk extension |
| ChunkedDecoder.Decoder.SkipLineHead | utils/picohttpparser.c:659-669 | the same for the head of a trailer line |
| ChunkedDecoder.Decoder.SkipLineMiddle | utils/picohttpparser.c:670-679 | the same for the rest of a trailer line |
| ChunkedDecoder.Decoder.ExpectByte | utils/picohttpparser.c:603-658 | the same for the three states that demand one given byte |
| ChunkedDecoder.Decoder.CopyData | utils/picohttpparser.c:621-638 | chunk data moves down in place: what was decoded before stays, the data follows it, the unread bytes are untouched |
| ChunkedDecoder.Decoder.Dispatch | utils/picohttpparser.c:552-683 | one turn of the state loop agrees with the byte-by-byte run whatever the state |
| ChunkedDecoder.Decoder.CloseGap | utils/picohttpparser.c:687-690 | the undecoded bytes end up right behind the decoded ones |
| ChunkedDecoder.Decoder.Decode | utils/picohttpparser.c:545-698 | a whole call: state, new size, decoded bytes, leftover bytes, bytes past the buffer, totals and return code are those of the byte-by-byte run |
| ChunkedStream.RunAppend | utils/picohttpparser.c:545-698 | a run over two joined pieces is the run over the first, continued on the second exactly when the first wanted more |
| ChunkedStream.CutIndependent | utils/picohttpparser.c:545-698 | for every way of cutting a stream into calls, the body, the verdict, the state and the leftover are those of one call |
| ChunkedStream.BodyWithin | utils/picohttpparser.c:545-698 | the decoded body is never longer than what was read |
| ChunkedStream.CutIndependentBelowLimit | utils/picohttpparser.c:691-697 | the same cut independence with the overhead limit counted, as long as no call trips it |
| ChunkedStream.DecodeHexIs | utils/picohttpparser.c:532-543 | a byte is a digit of the size if and only if it stands in one of the two literal rows of sixteen digits, and is worth its place there |
| ChunkedStream.EndsChunkSizeIs | utils/picohttpparser.c:565-572 | behind the digits exactly a space, a tab, a semicolon, a carriage return or a line feed may stand |
| ChunkedStream.DecodesEncoding | utils/picohttpparser.c:545-698 | decoding any chunked encoding of a body (section 7.1 of RFC 9112, its sizes written in digits of either case, worth their place in a literal row) ends at its end, returns that body and leaves the state at the end |
| ChunkedStream.FinishedRunReadEncoding | utils/picohttpparser.c:545-698 | conversely, whatever a run finished on was a chunked encoding |
| ChunkedStream.FinishesExactlyOnEncodings | utils/picohttpparser.c:545-698 | a stream is accepted if and only if it begins with a chunked encoding |
| ChunkedStream.EncodingReadBack | utils/picohttpparser.c:545-698 | then the body is that encoding's body, the leftover is what follows it, and the state is that at the end |
| ChunkedStream.Completes | utils/picohttpparser.c:545-698 | from every reachable state some bytes lead to the end of an encoding |
| ChunkedStream.RejectsExactly | utils/picohttpparser.c:545-698 | a stream is rejected if and only if nothing that could follow makes it a chunked encoding |
| ChunkedStream.RejectsAtOnce | utils/picohttpparser.c:545-698 | and at the first byte that rules every encoding out |
| ChunkedStream.OverheadTrips | utils/picohttpparser.c:691-697 | the limit counts from 100 KiB of overhead and three quarters of all bytes; the comment there says 80 percent |
| HttpRequest.ScanToken | utils/picohttpparser.c:245-278 | the token loop returns what the recursive reading of a token says, partial and invalid input included |
| HttpRequest.ScanTarget | utils/picohttpparser.c:71-94 | the same for the request target |
| HttpRequest.ScanBlanks | utils/picohttpparser.c:372-380 | the same for runs of spaces, and of spaces and tabs behind a colon (322-327) |
| HttpRequest.ScanToEol | utils/picohttpparser.c:134-195 | the rest of a line: the loop over eight bytes at a time and the one behind it stop where the reading of single bytes does, and the line end is CRLF or a bare LF |
| HttpRequest.ScanComplete | utils/picohttpparser.c:197-223 | the completeness test finds two line ends in a row, restarting three bytes back |
| HttpRequest.ScanHeaderLine | utils/picohttpparser.c:315-350 | one header or continuation line |
| HttpRequest.DropBlanks | utils/picohttpparser.c:341-350 | trailing blanks are dropped from a value |
| HttpRequest.HeadersAppend | utils/picohttpparser.c:298-353 | headers already read and headers still to read add up |
| HttpRequest.ScanHeaders | utils/picohttpparser.c:298-353 | the header loop fills the caller's array with exactly the headers, and refuses more than it holds |
| HttpRequest.ScanHttpVersion | utils/picohttpparser.c:280-296 | nine bytes are demanded, then HTTP/1. and a digit |
| HttpRequest.ScanLineEnd | utils/picohttpparser.c:388-396 | CRLF or a bare LF |
| HttpRequest.ScanRequestLine | utils/picohttpparser.c:367-396 | method, target and version |
| HttpRequest.ScanRequest | utils/picohttpparser.c:355-399 | a request from its first byte |
| HttpRequest.PhrParseRequest | utils/picohttpparser.c:401-427 | the whole entry point: -2, -1 or the length, with the parsed slices, as the reading says |
| HttpGrammar.TokenTable | utils/picohttpparser.c:96-103 | the table of 256 entries marks exactly the token characters of section 5.6.2 of RFC 9110, written out as a text |
| HttpGrammar.LineReads | utils/picohttpparser.c:315-350 | a header line text is read as that line: its name, its value without surrounding blanks, its end |
| HttpGrammar.LineRead | utils/picohttpparser.c:315-350 | whatever is accepted as a header line is a header line text |
| HttpGrammar.LinesRead | utils/picohttpparser.c:298-353 | header lines are all read in order, or refused when there are more than the caller has room for |
| HttpGrammar.LinesFound | utils/picohttpparser.c:298-353 | whatever is accepted as headers is header lines ended by an empty line |
| HttpGrammar.StartReads | utils/picohttpparser.c:367-396 | a request line text is read as its method, target and version |
| HttpGrammar.StartFound | utils/picohttpparser.c:367-396 | whatever is accepted as a request line is a request line text |
| HttpGrammar.MessageParsed | utils/picohttpparser.c:355-399 | a request text parses to slices that name its parts, ending at its end; with too many headers it is invalid |
| HttpGrammar.ParsedIsMessage | utils/picohttpparser.c:355-399 | whatever parses is a request text |
| HttpGrammar.ParsesExactlyMessages | utils/picohttpparser.c:355-399 | a parse from scratch succeeds if and only if the buffer begins with a request text with few enough headers; the characters of tokens, targets and values are those of literal texts and ranges, not the parser's tests |
| HttpRequestProofs.RequestAgrees | utils/picohttpparser.c:355-399 | a parse of a prefix that is decided, and a success that stays inside it, is the parse of the whole |
| HttpRequestProofs.DecidedIsStable | utils/picohttpparser.c:401-427 | success and rejection never change when more bytes arrive |
| HttpRequestProofs.SlicesInOrder | utils/picohttpparser.c:355-399 | the slices of a success are in bounds, in order and disjoint |
| HttpRequestProofs.RequestEnd | utils/picohttpparser.c:298-353 | a request ends in an empty line, and every carriage return in it is followed by a line feed |
| HttpRequestProofs.ScanFindsEnd | utils/picohttpparser.c:197-223 | a scan started anywhere before that empty line finds it |
| HttpRequestProofs.CompleteRequestPassesTest | utils/picohttpparser.c:197-223 | a complete request passes the completeness test whatever part of it was seen before |
| HttpRequestProofs.ShortcutLosesNothing | utils/picohttpparser.c:401-427 | if the part seen before was partial, the parse with the shortcut succeeds exactly when a parse from scratch does, with the same result |
| HttpRequestProofs.ShortcutRejectionIsFinal | utils/picohttpparser.c:401-427 | what the shortcut rejects, no longer buffer can make succeed |
| HttpFaults.TokenRejects | utils/picohttpparser.c:245-278 | a token is rejected exactly at a byte that neither goes on nor ends it, behind token characters only |
| HttpFaults.TargetRejects | utils/picohttpparser.c:71-94 | the same for the request target |
| HttpFaults.ValueRejects | utils/picohttpparser.c:134-195 | the same for the rest of a header line: a control character that begins no line end |
| HttpFaults.LineRejects | utils/picohttpparser.c:315-350 | a header line is rejected if and only if its name has a fault, is missing, or its value has one |
| HttpFaults.HeadersReject | utils/picohttpparser.c:298-353 | header lines are rejected if and only if some of them are there and then a fault, or one more than there is room for |
| HttpFaults.StartRejects | utils/picohttpparser.c:367-396 | the request line is rejected if and only if method, target, version or line end has a fault behind what is well formed, or the method is missing and the target is there |
| HttpFaults.InvalidExactly | utils/picohttpparser.c:355-399 | a parse from scratch rejects exactly the texts that begin as a request does and then have such a fault |
| HttpShortcut.ScanPartial | utils/picohttpparser.c:197-223 | the completeness test asks for more if and only if the bytes it looks at hold neither an empty line nor a carriage return followed by something other than a line feed |
| HttpShortcut.ScanInvalid | utils/picohttpparser.c:197-223 | it rejects if and only if such a carriage return stands there before any empty line |
| HttpShortcut.PartialReadsAll | utils/picohttpparser.c:355-399 | a parse from scratch that asks for more has seen every byte, so that no such carriage return stands anywhere, unless it waits for the nine bytes of the version |
| HttpShortcut.PartialHasNoEmptyLine | utils/picohttpparser.c:355-399 | nor has it passed an empty line |
| HttpShortcut.AwaitsExactly | utils/picohttpparser.c:280-296 | a parse from scratch waits for the version exactly on a method, spaces, a target, spaces and fewer than nine bytes |
| HttpShortcut.ReportsLaterExactly | utils/picohttpparser.c:401-427 | the shortcut asks for more where a parse from scratch rejects if and only if the bytes have a fault and the test sees neither an empty line nor a bare carriage return |
| HttpShortcut.RejectsAloneExactly | utils/picohttpparser.c:401-427 | the shortcut rejects where a parse from scratch asks for more if and only if method and target are read, fewer than nine bytes are left, and the test sees a bare carriage return before any empty line |
| HttpShortcut.PartialAgainExactly | utils/picohttpparser.c:401-427 | with the shortcut more is asked for if and only if the test sees nothing, or the version is waited for and no bare carriage return comes first |
| HttpShortcut.VerdictsCoincideExactly | utils/picohttpparser.c:401-427 | after a partial prefix, the outcomes with and without the shortcut are equal if and only if neither condition on the bytes holds |
| HttpShortcut.ShortcutMayReportLater | utils/picohttpparser.c:401-427 | a text on which the shortcut asks for more and a parse from scratch rejects |
| HttpShortcut.ShortcutMayRejectAlone | utils/picohttpparser.c:401-427 | a text on which the shortcut rejects and a parse from scratch asks for more |
| SlotMap.HandleParts | utils/slotmap/SlotMap.cpp:22-52 | identifier, version and deleted bit are read back from a handle as they were put in, and marking and unmarking undo each other |
| SlotMap.HandleLayout | utils/slotmap/SlotMap.cpp:22-52 | slot number in bits 0 to 14, version in 15 to 29, deleted bit at 30, whatever the sign |
| SlotMap.SlotMapTracker.constructor | utils/slotmap/SlotMapTracker.h:15-26 | a new tracker has granted nothing |
| SlotMap.SlotMapTracker.Reset | utils/slotmap/SlotMapTracker.h:22-26 | a reset tracker has granted nothing |
| SlotMap.SlotMapTracker.GrantHandle | utils/slotmap/SlotMapTracker.h:28-45 | the newest freed handle with its version raised, or the next identifier |
| SlotMap.SSlotMap.constructor | utils/slotmap/SlotMap.h:47-47 | a new map is empty |
| SlotMap.SSlotMap.Clear | utils/slotmap/SlotMap.h:51-55 | the map is empty again |
| SlotMap.SSlotMap.Add | utils/slotmap/SlotMap.h:59-75 | the whole new state, and the slot that holds the granted handle |
| SlotMap.SSlotMap.Get | utils/slotmap/SlotMap.h:77-94 | a slot exactly when the identifier is in range and the slot stores that handle, which a deleted slot may too |
| SlotMap.SSlotMap.Remove | utils/slotmap/SlotMap.h:96-118 | the whole new state: slot marked deleted, handle freed with its version raised; unchanged on a stale handle |
| SlotMap.SSlotMap.Count | utils/slotmap/SlotMap.h:120-120 | slots less freed handles |
| SlotMap.SSlotMap.At | utils/slotmap/SlotMap.h:123-135 | an index gives its slot unless that is deleted or out of range |
| SlotMap.StepSound | utils/slotmap/SlotMap.h:59-118 | one call within the limits keeps the invariant tying slots, free list and history together, and Add's handle was never issued before |
| SlotMap.RunSound | utils/slotmap/SlotMap.h:59-118 | so does every run within the limits |
| SlotMap.GetFindsLive | utils/slotmap/SlotMap.h:77-94 | an issued handle is found exactly while it is live, in its own slot |
| SlotMap.RunBehavesAsMap | utils/slotmap/SlotMap.h:59-120 | after every run within the limits: Get succeeds on an issued handle exactly while it is live, live handles have distinct slots, the free list names each deleted slot once, and the count is the number live |
| SlotMap.StepKeepsValues | utils/slotmap/SlotMap.h:59-118 | a call leaves the values behind all other live handles as they are, and a new slot is blank |
| SlotMap.RunKeepsValues | utils/slotmap/SlotMap.h:59-118 | throughout a run a value stays behind its handle until that handle is removed |
| SlotMap.NewHandleExactlyBelowReuseLimit | utils/slotmap/SlotMapTracker.h:28-45 | a reused slot yields a handle never issued before if and only if it was reused fewer than 2^14 times; at the limit its first handle comes back, which was issued |
| SlotMap.SlotLimitOverwrites | utils/slotmap/SlotMap.h:59-75 | with 32768 slots in use the next Add overwrites slot 0 |
| SlotMap.StoredHandleFreesTwice | utils/slotmap/SlotMap.h:96-118 | Remove with the handle that a deleted slot stores lists the slot as free a second time |
| SlotMap.RemoveSoundExactly | utils/slotmap/SlotMap.h:96-118 | Remove keeps the invariant if and only if its handle is not one that is found and carries the deleted bit |
| SlotMap.AddSoundExactly | utils/slotmap/SlotMap.h:59-75 | Add keeps the invariant and grants a new handle if and only if there is a slot left, or the next free one was reused fewer than 2^14 times |
| SlotMap.StepSoundExactly | utils/slotmap/SlotMap.h:59-118 | so the limits on a call are exact: it keeps the invariant and grants no handle twice if and only if it is within them |
| SlotMap.GetFindsDeleted | utils/slotmap/SlotMap.h:77-94 | Get returns a deleted slot exactly when given the handle stored in it, and such a handle was never issued |
| SlotMap.AddsFill | utils/slotmap/SlotMap.h:59-75 | any number of calls of Add up to 32768 is within the limits and fills as many slots |
| SlotMap.CyclesReuse | utils/slotmap/SlotMap.h:59-118 | one slot can be reused any number of times up to 2^14 within the limits |
| SlotMap.LimitsReached | utils/slotmap/SlotMap.h:59-118 | runs within the limits reach both, and the handle granted next was issued before |
| SlotMap.DoubleFreeHappens | utils/slotmap/SlotMap.h:59-118 | a run of an Add, a Remove and a Remove with the stored handle: one slot is twice in the free list and is granted twice |
| Coroutines.StepSound | utils/minicoro.h:567-625 | create, resume, yield, finish and destroy keep the chain of prev_co links a duplicate-free stack, its top running, the others normal, all else suspended or dead with no link |
| Coroutines.RunSound | utils/minicoro.h:567-625 | so does every run |
| Coroutines.EveryRunSound | utils/minicoro.h:567-625 | every run from the empty state ends in such a state |
| Coroutines.DestroySparesChain | utils/minicoro.h:1730-1797 | destroy changes nothing on the chain, and refuses a member of it |
| Coroutines.JumpOutUndoesJumpIn | utils/minicoro.h:567-616 | leaving a coroutine restores the machine entering it found |
| Coroutines.YieldUndoesResume | utils/minicoro.h:1799-1838 | a resume followed by a yield is no change at all |
| Coroutines.ResumerRegainsControl | utils/minicoro.h:567-616 | when a run that never popped below a resumer brings the chain back to it, that resumer is running and current |
| Coroutines.Scheduler.constructor | utils/minicoro.h:565-565 | no coroutine is running at first |
| Coroutines.Scheduler.Create | utils/minicoro.h:1703-1779 | a new coroutine is suspended and has no link; a failed call changes nothing |
| Coroutines.Scheduler.Resume | utils/minicoro.h:1799-1811 | the coroutine runs on top of the one that ran, which is normal and its link; if it is not suspended nothing changes |
| Coroutines.Scheduler.Enter | utils/minicoro.h:567-590 | the object graph moves as the machine does when one coroutine is entered |
| Coroutines.Scheduler.Assign | utils/minicoro.h:567-616 | setting one state changes that alone |
| Coroutines.Scheduler.JumpIn | utils/minicoro.h:567-590 | the two link updates of entering |
| Coroutines.Scheduler.JumpOut | utils/minicoro.h:592-616 | the two link updates of leaving |
| Coroutines.Scheduler.Leave | utils/minicoro.h:592-625 | the object graph moves as the machine does when the running one is left |
| Coroutines.Scheduler.Yield | utils/minicoro.h:1813-1838 | the coroutine is suspended with no link, and the one below it runs again; if it is not running, or overflows its stack, nothing changes |
| Coroutines.Scheduler.Finish | utils/minicoro.h:621-625 | the coroutine that runs is dead with no link, and the one below it runs again |
| Coroutines.Scheduler.Destroy | utils/minicoro.h:1730-1797 | a suspended or dead coroutine is gone, any other stays; the rest is as it was |
| PoolHeap.SplitTiled | utils/yyjson.c:2256-2261 | splitting a chunk keeps the arena exactly tiled |
| PoolHeap.JoinTiled | utils/yyjson.c:2287-2296 | joining two touching chunks keeps the arena exactly tiled |
| PoolHeap.InArena | utils/yyjson.c:2241-2297 | every chunk ends inside the arena |
| PoolHeap.TakenSound | utils/yyjson.c:2241-2271 | an allocation keeps tiling, address order and separation of the free list, and every other allocated chunk |
| PoolHeap.TakenSize | utils/yyjson.c:2256-2265 | it leaves at most one cell of 16 bytes over |
| PoolHeap.FreedSound | utils/yyjson.c:2273-2297 | a free keeps them too, and only that chunk stops being allocated |
| PoolHeap.GrownSound | utils/yyjson.c:2318-2334 | an in-place growth keeps them too, and leaves at most two cells over |
| PoolHeap.MallocedSound | utils/yyjson.c:2241-2271 | refusal means no free chunk is large enough and changes nothing; success gives a chunk not allocated before |
| PoolHeap.StepSound | utils/yyjson.c:2241-2344 | every call keeps the heap sound: exact tiling, free list strictly sorted, no two free chunks adjacent |
| PoolHeap.RunSound | utils/yyjson.c:2241-2344 | so does every run of calls |
| PoolHeap.StepSparesOthers | utils/yyjson.c:2241-2344 | a call about one chunk leaves every other allocated chunk allocated with its size |
| PoolHeap.RunSparesOthers | utils/yyjson.c:2241-2344 | so does every run |
| PoolHeap.FreeUndoesMalloc | utils/yyjson.c:2241-2297 | freeing what was just allocated restores the whole heap, merged as it was |
| PoolHeap.CopyFitsExactly | utils/yyjson.c:2335-2342 | the copy of a moving reallocation stays inside its new chunk if and only if there is none or the old chunk is no larger than what the first fit gives |
| PoolHeap.SmallSlackFits | utils/yyjson.c:2335-2342 | that holds whenever the old chunk has at most one cell of slack |
| PoolHeap.NoLargerFits | utils/yyjson.c:2335-2342 | and whenever the old chunk is no larger than the new aligned size |
| PoolHeap.GrownChunkMayNotFit | utils/yyjson.c:2318-2342 | a run of five calls after which a moving reallocation copies past its new chunk |
| PoolRequests.CellsHold | utils/yyjson.c:2235-2238 | so many cells, header included, hold the bytes they are for, and waste less than a cell of 16 bytes and the slack |
| PoolRequests.MallocServes | utils/yyjson.c:2241-2271 | a chunk handed out holds the bytes asked for and fewer than 32 more |
| PoolRequests.MallocTakesLowest | utils/yyjson.c:2244-2249 | it is the lowest free chunk that is large enough, and there is none only if no free chunk is |
| PoolRequests.ReallocHolds | utils/yyjson.c:2299-2344 | in each of its outcomes a reallocation leaves a chunk that holds the new size |
| PoolRequests.StepServes | utils/yyjson.c:2241-2344 | a call of a caller that says what it asked for before keeps every chunk in use as large as was last asked of it, with fewer than 48 bytes to spare |
| PoolRequests.RunServes | utils/yyjson.c:2241-2344 | so does every run from a fresh arena |
| PoolAllocator.PayloadsKept | utils/yyjson.c:2241-2297 | calls that write only chunk overhead change no payload of an allocated chunk |
| PoolAllocator.CopyingKeeps | utils/yyjson.c:2335-2342 | allocate, copy, free: the payload arrives whole and every other payload stays |
| PoolAllocator.Pool.constructor | utils/yyjson.c:2346-2369 | one free chunk |
| PoolAllocator.Pool.FindFirstFit | utils/yyjson.c:2249-2255 | the list walk stops at the first chunk large enough |
| PoolAllocator.Pool.Malloc | utils/yyjson.c:2241-2271 | the memory goes on showing the abstract heap after the abstract step; only overhead is written; the chunk holds the bytes asked for and fewer than 32 more |
| PoolAllocator.Pool.MallocCells | utils/yyjson.c:2241-2271 | the same for a size already aligned |
| PoolAllocator.Pool.TakeFit | utils/yyjson.c:2256-2268 | the same for the chunk found, split or whole |
| PoolAllocator.Pool.SetPrevNext | utils/yyjson.c:2266-2267 | the link before is redirected, in a chunk or in the list head |
| PoolAllocator.Pool.UnlinkAt | utils/yyjson.c:2262-2267 | a chunk leaves the list |
| PoolAllocator.Pool.SplitAt | utils/yyjson.c:2256-2267 | a chunk is cut in two and the rest stays listed |
| PoolAllocator.Pool.Free | utils/yyjson.c:2273-2297 | the chunk is listed in order and merged with both neighbours where they touch |
| PoolAllocator.Pool.PutBack | utils/yyjson.c:2279-2285 | insertion in address order |
| PoolAllocator.Pool.MergeAt | utils/yyjson.c:2287-2296 | two list neighbours become one chunk exactly when they touch |
| PoolAllocator.Pool.Locate | utils/yyjson.c:2311-2317 | the walk stops at the first free chunk behind |
| PoolAllocator.Pool.Extend | utils/yyjson.c:2319-2334 | the chunk grows into the free one behind it; nothing before the growth changes |
| PoolAllocator.Pool.ExtendBy | utils/yyjson.c:2321-2328 | part of the free chunk is taken |
| PoolAllocator.Pool.ExtendWhole | utils/yyjson.c:2329-2333 | all of it is taken |
| PoolAllocator.Pool.CopyPayload | utils/yyjson.c:2339-2339 | the payload is copied and nothing else |
| PoolAllocator.Pool.Replace | utils/yyjson.c:2335-2342 | a new chunk with the old payload, the old one freed, every other payload kept |
| PoolAllocator.Pool.GrowOrReplace | utils/yyjson.c:2319-2343 | grown in place or moved, the payload survives |
| PoolAllocator.Pool.Realloc | utils/yyjson.c:2299-2344 | the whole call: result, new heap, payload of the chunk and of every other chunk; in every outcome but a refusal the chunk holds the bytes asked for, and fewer than 48 more if the old one was cut as close |
| Word64.U128Mul | utils/yyjson.c:2044-2063 | the two words are the exact product |
| Word64.U128MulAdd | utils/yyjson.c:2067-2080 | the two words are the exact product plus the addend |
| BigInt.LongerIsLarger | utils/yyjson.c:3663-3674 | of two normalised numbers the one with more limbs is larger |
| BigInt.HigherLimbDecides | utils/yyjson.c:3663-3674 | at equal length the highest differing limb decides |
| BigInt.Pow10Exact | utils/yyjson.c:1197-1211 | every entry of the table is the power of ten it stands for |
| BigInt.BigNum.constructor | utils/yyjson.c:3681-3684 | the number of one word |
| BigInt.BigNum.SetU64 | utils/yyjson.c:3681-3684 | the value of the word |
| BigInt.BigNum.AddU64 | utils/yyjson.c:3582-3596 | the exact sum, still normalised, when it fits |
| BigInt.BigNum.PassCarry | utils/yyjson.c:3588-3595 | a pending carry is added wherever it ends |
| BigInt.BigNum.MulU64 | utils/yyjson.c:3603-3615 | the exact product, still normalised, when it fits |
| BigInt.BigNum.SkipZeros | utils/yyjson.c:3606-3608 | low zero limbs contribute nothing to the product |
| BigInt.BigNum.MulFrom | utils/yyjson.c:3609-3614 | the limb loop carries the exact partial product |
| BigInt.BigNum.Cmp | utils/yyjson.c:3663-3674 | the sign of the difference of the two values |
| BigInt.BigNum.MulPow2 | utils/yyjson.c:3622-3643 | the exact product by a power of two, when it fits |
| BigInt.BigNum.ShiftLimbs | utils/yyjson.c:3633-3641 | the bit shift across limbs |
| BigInt.BigNum.MoveLimbs | utils/yyjson.c:3626-3631 | the move by whole limbs |
| BigInt.BigNum.ClearLow | utils/yyjson.c:3631-3641 | the low limbs become zero |
| BigInt.BigNum.MulPow10 | utils/yyjson.c:3650-3657 | the exact product by a power of ten, when it fits |
| DecimalBuf.DecimalSplit | utils/yyjson.c:3714-3734 | digits read in two parts spell what they spell read at once |
| DecimalBuf.ReadDigits | utils/yyjson.c:3714-3734 | digits gathered nineteen at a time give head and digits as one integer, the last digit made sticky when more follow |
| DecimalBuf.TakeDigit | utils/yyjson.c:3717-3730 | one digit of that loop, flushed when nineteen are pending |
| DecimalBuf.KeptCount | utils/yyjson.c:3702-3712 | how many digits behind the word are kept |
| DecimalBuf.SetBuf | utils/yyjson.c:3687-3736 | with at most 768 digits value times ten to the exponent is exactly the number; with more it is the first 768 with a sticky last digit |
| DecimalBuf.StickyOrder | utils/yyjson.c:3720-3724 | the sticky digit orders a number against any bound as the full number is ordered, except a bound it equals |
| DecimalBuf.LongNumberOrder | utils/yyjson.c:3687-3736 | so a number too long to keep is below a multiple of its last kept place exactly when the full number is, and above it exactly when the full number is, or is equal to it |
| DecimalBuf.PointBeyondMisscales | utils/yyjson.c:3702-3712 | when the point lies among the dropped digits the result is more than nine times too large |
| BigCompare.CrossMultiplied | utils/yyjson.c:4407-4419 | the cross-multiplied integers are ordered as the two rationals are |
| BigCompare.ScaleTens | utils/yyjson.c:4409-4413 | the powers of ten are multiplied in exactly, within the limbs there are |
| BigCompare.ScaleTwos | utils/yyjson.c:4414-4418 | so are the powers of two |
| BigCompare.Compare | utils/yyjson.c:4406-4419 | the sign of decimal number minus halfway point, exactly, for every exponent that can occur, never out of limbs |
| FastFloat.LeadingZeros | utils/yyjson.c:1983-2013 | the shift that brings the top bit up |
| FastFloat.HighProduct | utils/yyjson.c:4233-4275 | when the path calls its high word exact, the full product with the whole table error has that high word, and dropped bits cannot carry into the kept 54 |
| FastFloat.OneProductSettles | utils/yyjson.c:4244-4252 | why one product is enough |
| FastFloat.TwoProductsSettle | utils/yyjson.c:4260-4274 | why two are |
| FastFloat.SettledBrackets | utils/yyjson.c:4233-4282 | a settled high word brackets the decimal value strictly between two neighbouring halves of the last place |
| FastFloat.RoundHigh | utils/yyjson.c:4277-4292 | rounding to even and renormalising |
| FastFloat.RoundedIsNearest | utils/yyjson.c:4284-4292 | the rounded mantissa is the nearest of all doubles, the next binade included |
| FastFloat.NearestFromGap | utils/yyjson.c:4277-4299 | less than half a unit away is nearest among all doubles, not only those of the same exponent |
| FastFloat.NormalRange | utils/yyjson.c:4294-4298 | on the exponents the path takes, the result is a normal double |
| FastFloat.Pack | utils/yyjson.c:4277-4299 | the packed bits are the correctly rounded double |
| FastFloat.FastPath | utils/yyjson.c:4165-4301 | whenever the second fast path answers, the double is sig times 10^exp rounded to nearest (section 4.3.1 of IEEE 754-2008) |
| Doubles.HalfIsMidway | utils/yyjson.c:4393-4404 | the upper boundary is midway between a double and the next one, subnormal and largest included |
| Doubles.RoundsToNearest | utils/yyjson.c:4277-4299 | rounding by the two midpoints gives a nearest double |
| Doubles.RoundsToOne | utils/yyjson.c:4277-4299 | it gives one result |
| Doubles.RoundsToInfinity | utils/yyjson.c:3848-3852 | infinity is the result if and only if the number is at least midway above the largest double |
| DiyFloat.Shortened | utils/yyjson.c:4363-4371 | shortening a word keeps the number within the error the source carries on |
| DiyFloat.MulRoundedNear | utils/yyjson.c:3763-3769 | the rounded high word is within half a unit of the product |
| DiyFloat.ProductWithin | utils/yyjson.c:4333-4351 | the product with the table word is within the error the source counts, whatever digits were cut |
| SmallestDouble.AroundSmallest | utils/yyjson.c:4353-4371 | half the smallest double lies between two neighbouring multiples of ten to the -342 |
| SmallestDouble.ReachesSmallest | utils/yyjson.c:4353-4371 | so the digits and exponent of a number from there on are at least that |
| SmallestDouble.ProductReaches | utils/yyjson.c:3763-3769 | their product with the table word keeps its top bit |
| SmallestDouble.WordBelow | utils/yyjson.c:4353-4371 | a word of a smaller order stands for a smaller number, error included |
| SlowPath.ToRawIs | utils/yyjson.c:3772-3799 | the bits of a significand and exponent, and of the next significand, for normal, subnormal and infinite results |
| SlowPath.Places | utils/yyjson.c:4371-4383 | the kept digits and those below them place the number around the midpoint as the source's two tests say |
| SlowPath.RoundingSettles | utils/yyjson.c:4371-4390 | a result called accurate is the double the number rounds to; otherwise it is that or the one below it |
| SlowPath.OrderReaches | utils/yyjson.c:4353-4371 | no number from half the smallest double on is taken to be of a smaller order |
| SlowPath.EstimationSettles | utils/yyjson.c:4333-4390 | the whole estimate: accurate means correctly rounded, infinity and zero included, and otherwise the number is between the neighbours of the two candidates |
| ExactStep.ValueApproximated | utils/yyjson.c:4047-4049 | the rounded nineteen digits are within half a unit of the number |
| ExactStep.PlaceBelowMidpoint | utils/yyjson.c:3702-3712 | the last place kept of 768 digits is no higher than the midpoint's |
| ExactStep.MidpointIsMultiple | utils/yyjson.c:4393-4404 | every midpoint in question is a multiple of that place |
| ExactStep.LongIsOrdered | utils/yyjson.c:4406-4419 | so a number of more than 768 digits compares with it as the full number does, but a tie goes up |
| ExactStep.ComparisonDecides | utils/yyjson.c:4420-4426 | the sign of the comparison picks the double the number rounds to, ties to even |
| ExactStep.TieGoesUp | utils/yyjson.c:4406-4426 | going up on a tie is right if and only if the lower double is odd |
| ExactStep.KeptIs | utils/yyjson.c:3687-3736 | what the big integer stands for when digits are dropped is given by the text: the digits kept, at the scale reported |
| ExactStep.BeyondIsAbove | utils/yyjson.c:4406-4419 | with the point among the dropped digits the comparison goes up whatever the number is |
| ExactStep.AboveExactly | utils/yyjson.c:4420-4426 | the upper double is right if and only if the number is above the midpoint, or on it and the lower double is odd, and otherwise the lower one |
| ExactStep.CompareWithHalf | utils/yyjson.c:4393-4419 | the comparison over big integers has exactly these signs, and with dropped digits that of the digits kept |
| ExactStep.Convert | utils/yyjson.c:4165-4430 | digits to double: the double they round to, but for the ties above an even double; with the point dropped, what the estimate settles or the digits kept decide |
| ExactStep.ConvertsToOne | utils/yyjson.c:4165-4430 | the double a number is converted to is one and the same however it is found |
| ExactStep.ConvertsToRight | utils/yyjson.c:4165-4430 | and it is the double the number rounds to if and only if the number does not have more than 768 digits and stand midway above an even double |
| LargestDouble.AroundLargest | utils/yyjson.c:4384-4404 | the midpoints around the largest double lie between neighbouring half multiples of ten to the 290 |
| LargestDouble.NearLargest | utils/yyjson.c:4333-4390 | so the digits and exponent of a number between them are known but for two hundred |
| LargestDouble.EntryIs | utils/yyjson.c:3753-3760 | the table has one entry for ten to the 290 |
| LargestDouble.OpenThere | utils/yyjson.c:4373-4391 | of their products with it, two leave the largest double open, and none below them does |
| LargestDouble.OpenAtLargest | utils/yyjson.c:4333-4391 | the estimate of a number below midway is open between the largest double and infinity if and only if the exponent is 290 and the nineteen digits are one of two |
| RealReader.ReadNineteen | utils/yyjson.c:3945-4007 | the first nineteen digits from the first that is no zero, the point skipped |
| RealReader.TrailingZeros | utils/yyjson.c:4068-4076 | the digits cut off are forgotten if and only if they are all zeros |
| RealReader.FindEnd | utils/yyjson.c:3884-4113 | the end of a number, or its absence where a digit is missing or a zero leads |
| RealReader.ReadCut | utils/yyjson.c:4035-4076 | the nineteen digits rounded by the next one, with the cut, the end and the point |
| RealReader.ReadExponent | utils/yyjson.c:4101-4122 | the exponent, its sign and its length |
| RealReader.Classify | utils/yyjson.c:4115-4133 | zero, infinity, or digits and exponent |
| RealReader.Scan | utils/yyjson.c:3884-4133 | the scan of a number leaves what its text says in each of these |
| NumberValue.ScanIsWorth | utils/yyjson.c:4047-4133 | the digits and exponent handed over are worth what the text is, digits cut included |
| NumberValue.ZeroWorth | utils/yyjson.c:4115-4129 | what the scan takes for zero rounds to zero |
| NumberValue.HugeWorth | utils/yyjson.c:4115-4132 | what it takes for infinity rounds to infinity |
| NumberValue.InfiniteExactly | utils/yyjson.c:4115-4133 | the tests of the exponent and of the whole number together hold of exactly the numbers that round to infinity |
| NumberValue.RefusedExactly | utils/yyjson.c:3848-3852 | a number is refused if and only if it rounds to infinity, or its point is among the dropped digits, its exponent 290 and its rounded digits one of two |
| NumberValue.CachedOnce | utils/yyjson.c:3753-3760 | the table has one entry for each power of ten, so that the estimate is a function of the text |
| NumberValue.MisscaledExactly | utils/yyjson.c:4384-4426 | a number whose point is dropped is read right if and only if its first digits settle it, or it and the number compared in its place are on the same side of the midpoint in question |
| NumberValue.InfinityTaken | utils/yyjson.c:4384-4428 | such a number is taken for infinity if and only if it rounds to it, or its exponent is 290 and its digits one of two |
| NumberValue.MisscaledRefused | utils/yyjson.c:4384-4428 | so the refusal of such a number is told by its text |
| NumberValue.ReadMagnitude | utils/yyjson.c:3884-4430 | the same for the bits below the sign |
| NumberValue.ReadReal | utils/yyjson.c:3884-4430 | the whole path from text to all 64 bits: the sign bit is set if and only if the text begins with a minus; refused exactly as RefusedExactly says; otherwise the double the text rounds to, but for the ties of more than 768 digits; with the point among the dropped digits, what MisscaledExactly says |
| NumberValue.ReadsOnce | utils/yyjson.c:3884-4430 | what a number is read as is a function of the text |
| NumberValue.RealIsRight | utils/yyjson.c:3884-4430 | and that function gives the double converted to, wherever the point is not among the dropped digits |
| NumberPlace.EdgeHeld | utils/yyjson.c:3878-4430 | whether the digits are those at the edge is seen from the number's own text |
| NumberPlace.RefusedHeld | utils/yyjson.c:3878-4430 | so is whether it is refused |
| NumberPlace.RealHeld | utils/yyjson.c:3878-4430 | and which double it is read as, wherever the text stands |
| NumberPlace.WordReads | utils/yyjson.c:4011-4028 | a negative integer beyond a signed word is read as the double nearest to it |
| NumberSyntax.NumberPlaced | utils/yyjson.c:3878-4113 | a number text of section 6 of RFC 8259, followed by what it cannot go on with, is scanned to its end and in its parts |
| NumberSyntax.WorthIsSize | utils/yyjson.c:3884-4113 | and is worth the number its digits spell, scaled by the exponent and the places behind the point |
| NumberSyntax.IntegerIs | utils/yyjson.c:3945-4028 | it is taken for an integer if and only if it has neither point nor exponent, with its value and its sign |
| NumberSyntax.NumberRead | utils/yyjson.c:3878-4430 | it is stored as an integer exactly where it fits a word, as that word, and refused by its text alone |
| NumberSyntax.NumberRounds | utils/yyjson.c:3878-4430 | any other number of at most 768 digits is stored as the double nearest to its value, half to even, with its sign, and refused if and only if that is infinite |
| NumberSyntax.SignKept | utils/yyjson.c:3913-3914 | whatever its length, the sign bit says whether it has a minus |
| NumberSyntax.NumberFound | utils/yyjson.c:3878-4113 | what the scanner takes for a number is such a text |
| ReaderExamples.TableHasThousandth | utils/yyjson.c:3753-3760 | two words that are the table's entry for ten to the -3 |
| ReaderExamples.PointBeyondMisread | utils/yyjson.c:3702-3712 | a finite number of 801 digits with the point among the dropped ones that rounds to 2^53 and that the reader, by its contract, reads as the next double |
| ReaderExamples.TieMisread | utils/yyjson.c:3720-3724 | a number of 772 digits midway above 2^66 that the reader, by its contract, does not read as 2^66, to which it rounds |
| EdgeExamples.EdgeIsThere | utils/yyjson.c:4384-4428 | 17976931348623158069, 780 nines and .9e-491 has its point dropped, the exponent 290 and the digits in question |
| EdgeExamples.EdgeIsFinite | utils/yyjson.c:4384-4428 | it is below midway above the largest double |
| EdgeExamples.FiniteRefused | utils/yyjson.c:4425-4428 | so a finite number is refused, and the array of it is no document |
| EdgeExamples.FiniteBadCut | utils/yyjson.c:4425-4428 | a valid document with a cut that leaves this number |
| Integers.DivideBy100 | utils/yyjson.c:7109-7116 | the multiply and shift is division by 100 on its range |
| Integers.DivideBy10000 | utils/yyjson.c:7165-7195 | the multiply and shift is division by 10000 on its range |
| Integers.DivideBy10000Long | utils/yyjson.c:7094-7107 | the multiply and shift is division by 10000 on eight digits |
| Integers.NumeralSplit | utils/yyjson.c:7197-7222 | a numeral is its high part followed by the zero-padded low part |
| Integers.PaddedSplit | utils/yyjson.c:7094-7107 | so is a padded one |
| Integers.WriteLen8 | utils/yyjson.c:7094-7107 | eight padded digits |
| Integers.WriteLen4 | utils/yyjson.c:7109-7116 | four padded digits |
| Integers.WriteLen1To8 | utils/yyjson.c:7118-7163 | the numeral, and nothing before or beyond eight bytes |
| Integers.WriteLen5To8 | utils/yyjson.c:7165-7195 | the numeral of five to eight digits |
| Integers.WriteU64 | utils/yyjson.c:7197-7222 | the decimal numeral of every 64-bit value, and nothing outside twenty bytes |
| Integers.NoLeadingZero | utils/yyjson.c:7197-7222 | only zero is written with a leading zero |
| IntegerReader.ReadSafeDigits | utils/yyjson.c:3917-3945 | the unrolled digits read their exact value |
| IntegerReader.ReadInteger | utils/yyjson.c:3878-4028 | every text is read as what it is: an integer that fits, a real, a rounded negative, or an error |
| IntegerReader.ReadLong | utils/yyjson.c:3947-4028 | nineteen and twenty digit numbers are kept exactly when they fit the word, and the sign its range |
| IntegerReader.UnsignedRoundTrip | utils/yyjson.c:3878-4028 | the numeral of any u64 reads back as it |
| IntegerReader.NegativeRoundTrip | utils/yyjson.c:3878-4028 | the numeral of any negative i64 reads back as it |
| Utf8.MasksAreTheStandard | utils/yyjson.c:1108-1176 | the mask tests accept exactly the byte sequences of section 4 of RFC 3629 |
| Utf8.EncodedCodePoint | utils/yyjson.c:1108-1176 | encoding the code point of a sequence gives the sequence |
| Utf8.CodePointEncoded | utils/yyjson.c:1108-1176 | the code point of an encoding is that code point |
| JsonString.EscapedLength | utils/yyjson.c:8641-8655 | escaping at most multiplies the length by six |
| JsonString.EscapedIffWellFormed | utils/yyjson.c:8641-8850 | a text can be written if and only if it is well-formed UTF-8 |
| JsonString.ReadsWellFormed | utils/yyjson.c:4724-5040 | whatever the reader accepts stands for well-formed UTF-8 |
| StringGrammar.HexTable | utils/yyjson.c:1024-1066 | a byte is a digit of an escape if and only if it stands in a literal row of sixteen, upper or lower case, and is worth its place |
| StringGrammar.ShortTable | utils/yyjson.c:4866-4882 | eight letters, and no others, make a short escape, each for its character: both rows are literal |
| StringGrammar.Utf8Table | utils/yyjson.c:4660-4711 | a code point is written as section 3 of RFC 3629 says |
| StringGrammar.ItemReads | utils/yyjson.c:4660-4866 | a plain character, a short escape, a unicode escape in digits of either case and a pair of surrogates are each read as the UTF-8 of what they stand for |
| StringGrammar.ItemFound | utils/yyjson.c:4660-4866 | whatever is read as an item is one |
| StringGrammar.ReadsExactlyStrings | utils/yyjson.c:4724-5040 | a string is read, with this meaning and end, if and only if it is items and a quote |
| StringGrammar.FailsExactlyWhereItemsStop | utils/yyjson.c:4724-5040 | and fails at a position if and only if items lead there and no item, nor the quote, is there |
| StringGrammar.ClassOfFirst | utils/yyjson.c:8357-8592 | how a character is written, by its code point alone |
| StringGrammar.CharacterWritten | utils/yyjson.c:8694-8850 | a character is written plainly, by its short escape, or by escapes in upper-case digits, as the table asks |
| StringGrammar.TextWritten | utils/yyjson.c:8641-8850 | so is a whole well-formed string, character by character |
| StringGrammar.RoundTrip | utils/yyjson.c:4724-5040 | what the writer makes of a string is read back as that string |
| StringWriter.EncodeChar | utils/yyjson.c:8694-8850 | one character is written in its table's form or refused, in at most six bytes per byte |
| StringWriter.CopyAscii | utils/yyjson.c:8652-8692 | the copying loop goes on exactly over the characters that are not escaped |
| StringWriter.WriteStr | utils/yyjson.c:8641-8850 | succeeds if and only if the text is well formed; then the buffer holds its quoted escaped form, within 6 bytes per byte plus 2 |
| StringReader.SkipUtf8 | utils/yyjson.c:4842-4862 | the multi-byte skipping loop passes only whole sequences |
| StringReader.SkipPlain | utils/yyjson.c:4755-4862 | the first pass stops at the first character that needs work |
| StringReader.ReadUniEsc | utils/yyjson.c:4660-4711 | a unicode escape, or a pair of them, becomes its UTF-8 bytes, or is refused |
| StringReader.ReadEscape | utils/yyjson.c:4866-4929 | an escape becomes what it stands for and always gets shorter |
| StringReader.CopyAscii | utils/yyjson.c:4945-4982 | the moving loop keeps the decoded text in front and the unread text untouched |
| StringReader.CopyUtf8 | utils/yyjson.c:4984-5036 | so does its multi-byte part, which copies four bytes at a time |
| StringReader.CopyPlain | utils/yyjson.c:4945-5036 | together they stop where an escape, a quote or an error is |
| StringReader.CopyEscaped | utils/yyjson.c:4864-5038 | the second pass, from the first escape to the end |
| StringReader.ReadStr | utils/yyjson.c:4724-5040 | the string is decoded in place: the bytes, the end and the error position are those the text means, and nothing behind the string changes |
| JsonTree.EncodeUnique | utils/yyjson.c:5314-5715 | no two values have the same tape, even with more slots behind |
| NumberText.PartsWhole | utils/yyjson.c:3884-4113 | the parts of a number: digits, fraction and exponent as the grammar has them |
| NumberText.WordIsTaken | utils/yyjson.c:3945-4028 | no integer that fits a word is refused |
| JsonGrammar.ContainerShaped | utils/yyjson.c:5314-5715 | what is read has a string key for every value of an object |
| JsonTape.ScalarStep | utils/yyjson.c:5407-5477 | after a scalar the rest of the text means what it meant before it |
| JsonTape.OpenStep | utils/yyjson.c:5393-5415 | the same after an opening bracket |
| JsonTape.CloseStep | utils/yyjson.c:5479-5514 | the same at a closing bracket |
| JsonTape.KeyStep | utils/yyjson.c:5527-5562 | the same after a key |
| JsonTape.ColonStep | utils/yyjson.c:5563-5577 | the same after a colon, and its absence is an error |
| JsonTape.CommaStep | utils/yyjson.c:5479-5496 | the same after a comma, and its absence is an error |
| JsonTape.CloseOutcome | utils/yyjson.c:5498-5514 | after closing, the text goes on in the parent or is done |
| JsonTape.MatchesOpen | utils/yyjson.c:5393-5405 | the tape with parent offsets in the open containers goes on matching the stack when one is opened |
| JsonTape.MatchesClose | utils/yyjson.c:5498-5514 | and when one is closed, whose slot then gets its final length and offset |
| JsonTape.ClosedIsValue | utils/yyjson.c:5498-5514 | a closed container's slots are exactly the preorder encoding of its value |
| JsonReader.ReadNumber | utils/yyjson.c:3878-4430 | a number is accepted exactly when the grammar has it and it is not refused: an integer where it fits, else the bits of its double, sign included; the end is found and the double computed as the source does |
| JsonReader.ReadScalar | utils/yyjson.c:5407-5478 | a scalar is accepted exactly when the grammar has it and it is no number that is refused |
| JsonReader.SkipSpaces | utils/yyjson.c:5488-5491 | skipping spaces changes nothing about the rest |
| JsonReader.SkipExpected | utils/yyjson.c:5799-5830 | the pretty reader's guesses of where spaces are change nothing |
| JsonReader.TapeReader.constructor | utils/yyjson.c:5376-5391 | the root's slot |
| JsonReader.TapeReader.ValIncr | utils/yyjson.c:5332-5349 | the next slot, in a larger allocation if need be, with the tape kept and never past the allocation |
| JsonReader.TapeReader.Push | utils/yyjson.c:5407-5478 | a scalar in the next slot |
| JsonReader.TapeReader.OpenContainer | utils/yyjson.c:5393-5405 | the parent's count saved, the way back kept in the new slot |
| JsonReader.TapeReader.SealHead | utils/yyjson.c:5498-5505 | the final length and offset of a closed container |
| JsonReader.TapeReader.CloseContainer | utils/yyjson.c:5498-5514 | done if and only if it was the root; then the tape is its encoding; else the parent is open again |
| JsonReader.TapeReader.Reopen | utils/yyjson.c:5507-5514 | the parent's count is found again in its slot |
| JsonReader.TapeReader.InsideObject | utils/yyjson.c:5479-5496 | the kind of the open container is found in its slot |
| JsonReader.TapeReader.AtValue | utils/yyjson.c:5407-5477 | one turn of a value label |
| JsonReader.TapeReader.AtKey | utils/yyjson.c:5527-5562 | one turn of the key label |
| JsonReader.TapeReader.AtKeyEnd | utils/yyjson.c:5563-5577 | one turn of the colon label |
| JsonReader.TapeReader.AtValueEnd | utils/yyjson.c:5479-5496 | one turn of the label behind a value |
| JsonReader.ReadRoot | utils/yyjson.c:5314-6160 | minify or pretty, the reader succeeds exactly on documents none of whose numbers is refused, and its tape is then the preorder encoding of the value: the two readers accept the same texts with the same tape |
| JsonReader.ReadSingle | utils/yyjson.c:5210-5312 | a value of one slot and spaces, and nothing else |
| JsonReader.ReadText | utils/yyjson.c:6168-6255 | the entry point: spaces, then the reader the first bytes choose; a tape exactly when the whole text means a value, and then its encoding |
| JsonSyntax.ScalarReads | utils/yyjson.c:5407-5478 | the text of a name, a number or a string is read as the value it stands for |
| JsonSyntax.MembersRead | utils/yyjson.c:5407-5577 | so are the members of a container, with spaces anywhere between tokens |
| JsonSyntax.GroupReads | utils/yyjson.c:5393-5715 | and a whole container |
| JsonSyntax.TextReads | utils/yyjson.c:6168-6255 | a text of section 2 of RFC 8259 is read as its value |
| JsonSyntax.ScalarFound | utils/yyjson.c:5407-5478 | what is read as a scalar is such a text |
| JsonSyntax.ContainerFound | utils/yyjson.c:5393-5715 | what is read as a container is one |
| JsonSyntax.TextFound | utils/yyjson.c:6168-6255 | what is read is such a text |
| JsonSyntax.ReadsExactlyTexts | utils/yyjson.c:6168-6255 | a value is read if and only if the text is spaces, a text of the grammar that stands for that value, and spaces |
| JsonSyntax.HeadCounts | utils/yyjson.c:5498-5505 | the slot of a container says how many members its text has, pairs in an object, and how many slots it takes |
| JsonText.CompleteChild | utils/yyjson.c:9124-9190 | writing a child leaves the finished text the same |
| JsonText.CompleteOpen | utils/yyjson.c:9159-9167 | so does opening a container |
| JsonText.CompleteShut | utils/yyjson.c:9198-9209 | so does closing one over the comma |
| JsonText.CompleteRoot | utils/yyjson.c:9116-9123 | at the start the finished text is the whole minified text |
| JsonWriter.SavedRestored | utils/yyjson.c:8934-8944 | a context word gives back the count and kind put in |
| JsonWriter.Buffer.constructor | utils/yyjson.c:9107-9114 | an empty text below no contexts |
| JsonWriter.Buffer.Reserve | utils/yyjson.c:9066-9085 | room for that many bytes strictly below the contexts, text and contexts as they were |
| JsonWriter.Buffer.Enlarge | utils/yyjson.c:9069-9083 | a reallocation keeps the text at the bottom and moves the contexts to the new top |
| JsonWriter.Buffer.Emit | utils/yyjson.c:9124-9209 | bytes appended |
| JsonWriter.Buffer.PushContext | utils/yyjson.c:9160-9166 | one context more, eight bytes less room |
| JsonWriter.Buffer.PopContext | utils/yyjson.c:9203-9204 | the context last pushed comes back, and its eight bytes of room |
| JsonWriter.Buffer.ShutContainer | utils/yyjson.c:9198-9201 | a closing bracket over the comma, in the one byte of room there still is |
| JsonWriter.Buffer.Finish | utils/yyjson.c:9211-9220 | the text without its last comma, ended by a zero |
| JsonWriter.Buffer.WriteInt | utils/yyjson.c:8263-8294 | a sign and the numeral of the magnitude at the cursor |
| JsonWriter.WriteNumber | utils/yyjson.c:8263-8294 | the same in any buffer, within 21 bytes |
| JsonWriter.WriteLeaf | utils/yyjson.c:9124-9180 | a scalar and its separator; refused exactly when a string is ill-formed |
| JsonWriter.WriteString | utils/yyjson.c:9126-9140 | the same for strings and keys |
| JsonWriter.CloseAll | utils/yyjson.c:9192-9209 | a run of closing brackets writes without reserving and stays below the contexts |
| JsonWriter.WriteOne | utils/yyjson.c:9124-9190 | one slot of the tape |
| JsonWriter.WriteNext | utils/yyjson.c:9124-9209 | one slot and the brackets it closes |
| JsonWriter.WriteMinify | utils/yyjson.c:9053-9230 | succeeds if and only if every string is well formed; then the output is the minified text of the value |
| JsonWriter.WriteSingle | utils/yyjson.c:8947-9045 | a value of one slot or an empty container: its text, refused exactly when a string is ill-formed |
| JsonWriter.WriteValue | utils/yyjson.c:9445-9472 | the entry point: succeeds if and only if every string is well formed; then the output is the minified text of the value, whatever its root |
| JsonRoundTrip.NumberWritten | utils/yyjson.c:8263-8294 | the numeral of a word is a number text without leading zeros that stands for it, with a minus only if it is negative |
| JsonRoundTrip.StringWritten | utils/yyjson.c:9126-9140 | a string is written as a string text of the same meaning |
| JsonRoundTrip.MinifiedIsText | utils/yyjson.c:9053-9230 | what the writer makes of a value is a text of the grammar without any space that stands for that value |
| JsonRoundTrip.DocumentRoundTrip | utils/yyjson.c:9053-9230 | reading the minified text of a document gives the document back |
| JsonRoundTrip.TextRoundTrip | utils/yyjson.c:8947-9230 | reading the text of any value gives the value back, scalars and empty containers too |
| JsonPipeline.WriteThenRead | utils/yyjson.c:9053-9230 | writer and either container reader composed give back the tape, up to the sign of non-negative numbers |
| JsonPipeline.WriteThenReadText | utils/yyjson.c:9445-9472 | the writer's and the reader's entry points composed give back the tape of any value |
| JsonPipeline.WriteThenFeed | utils/yyjson.c:6532-7029 | writer and incremental reader composed give it back however the text is cut |
| NumberTruncation.NumberCut | utils/yyjson.c:3878-4180 | a number read from a prefix and not at its end is the number of the whole text |
| NumberTruncation.NumberSeen | utils/yyjson.c:3878-4180 | a number that lies inside the prefix is read from it |
| NumberTruncation.NumberCutShort | utils/yyjson.c:3466-3470 | where only the prefix has no number, the error is at the prefix's end, and so taken for a cut, if and only if what the prefix has of it is not itself a number that is refused |
| JsonTruncation.CutPiece | utils/yyjson.c:3409-3557 | a character or escape cut by the prefix is recognised as cut |
| JsonTruncation.StringCut | utils/yyjson.c:4724-5040 | a string finished in a prefix is the string of the whole text |
| JsonTruncation.StringCutShort | utils/yyjson.c:3496-3536 | a string cut by the prefix is recognised as cut |
| JsonTruncation.StringResumes | utils/yyjson.c:4742-4765 | going on from where a cut string stopped, with what was decoded, gives the whole string |
| JsonTruncation.KeyCut | utils/yyjson.c:3466-3557 | both for keys |
| JsonTruncation.ScalarCut | utils/yyjson.c:3466-3557 | both for every scalar: read from a prefix it is right, and where only the prefix lacks it the truncation tests say so if and only if it does not begin with a number that is refused |
| ScalarCompletion.EscapeCutExactly | utils/yyjson.c:3496-3531 | an escape is taken for cut if and only if the text ends inside of a backslash, u and four digits, or of two such with the second a low surrogate and the first any surrogate |
| ScalarCompletion.NumberCutExactly | utils/yyjson.c:3466-3470 | what is no number yet is taken for cut if and only if it begins one |
| ScalarCompletion.StringCompletes | utils/yyjson.c:3496-3535 | a string taken for cut can be completed, unless it ends inside of a low surrogate with no high one in front |
| ScalarCompletion.StringHopeless | utils/yyjson.c:3496-3535 | and then it cannot |
| ScalarCompletion.NumberFills | utils/yyjson.c:3466-3470 | a number taken for cut can be completed to one that is not refused, unless it ends in an exponent's plus and is refused with the exponent zero |
| ScalarCompletion.PlusHopeless | utils/yyjson.c:3466-3470 | and then it cannot |
| ScalarCompletion.ScalarCompletes | utils/yyjson.c:3466-3557 | so a value taken for cut, or a number at the end, is whole with a given text behind it, if it is not stuck in one of these two ways |
| ScalarCompletion.ScalarHopeless | utils/yyjson.c:3466-3557 | and never if it is |
| JsonCompletion.EndingEnds | utils/yyjson.c:6735-6990 | at every label, values for what is awaited and all the closing brackets make a document |
| JsonCuts.ShortScalar | utils/yyjson.c:3466-3557 | a scalar taken for cut is no number whose part is refused |
| JsonCuts.OnlyBadCut | utils/yyjson.c:3466-3557 | a scalar refused in a prefix and valid in the whole text is a number whose part is refused |
| JsonCuts.DocumentClear | utils/yyjson.c:6532-7029 | a document without real numbers has no length that cuts a number so |
| IncrSteps.ScalarLeads | utils/yyjson.c:6760-6806 | a scalar, with one byte behind it if it is a number, is the one of every text that begins so, which goes on behind it |
| IncrSteps.CloseLeads | utils/yyjson.c:6828-6851 | a closing bracket leads back into the parent, or ends the root, whatever follows |
| IncrSteps.ValueDead | utils/yyjson.c:6749-6802 | where a value is wrong and not cut, no text that begins so is a document, unless a number is cut behind a part that is refused |
| IncrSteps.ScalarStays | utils/yyjson.c:6749-6806 | where a value is cut, some continuation makes a document if and only if the value is not stuck |
| IncrSteps.KeyStays | utils/yyjson.c:6853-6874 | the same for a key |
| IncrSteps.LabelStays | utils/yyjson.c:6573-6580 | where nothing is left, some continuation always does |
| IncrTexts.RootedStays | utils/yyjson.c:6735-6990 | so for the whole text, when the label was reached by reading it from the start |
| IncrTexts.RootSettled | utils/yyjson.c:6971-6990 | when the root is closed with spaces behind it, it is the value of every text that begins so and is one |
| IncrTexts.GarbageLost | utils/yyjson.c:6971-6977 | anything else behind it rules every text out |
| IncrTexts.SingleSettled | utils/yyjson.c:6705-6727 | a root of one slot that reaches the end of the bytes is taken as it is |
| IncrTexts.SingleStays | utils/yyjson.c:6705-6727 | one that is cut can be completed if and only if it is not stuck |
| IncrTexts.SingleKeptExactly | utils/yyjson.c:6705-6727 | a part that is a text has the value of the whole, read as far, if and only if that lies in the part; for strings and names it always does |
| CutExamples.ValidDocumentWithBadCut | utils/yyjson.c:4130-4132 | a valid document of 408 bytes, one number of 401 digits and an exponent of -300, with a length that cuts it so |
| CutExamples.LargeNumberRefused | utils/yyjson.c:4130-4132 | the array of 1e400 is no document |
| IncrReader.SkipPrefix | utils/yyjson.c:6749-6802 | the next byte that is no space |
| IncrReader.MaybeTruncatedNumber | utils/yyjson.c:6581-6589 | both exits of the check, the one for a number longer than 1024 bytes too, come to asking for more: the limit has no effect |
| IncrReader.IncrValue | utils/yyjson.c:6749-6806 | a turn of a value label says of every text that begins with these bytes: the document is that from the next label on; or it can still come unless the value is stuck; or there is none, unless a number is cut behind a part that is refused |
| IncrReader.IncrKey | utils/yyjson.c:6853-6874 | the same for the key label |
| IncrReader.IncrKeyEnd | utils/yyjson.c:6875-6888 | the same for the colon label |
| IncrReader.IncrValueEnd | utils/yyjson.c:6808-6823 | the same behind a value |
| IncrReader.IncrState.constructor | utils/yyjson.c:6481-6516 | a state before the root |
| IncrReader.IncrState.Begin | utils/yyjson.c:6661-6734 | spaces, and then the root: an opening bracket or a value of one slot |
| IncrReader.IncrState.Single | utils/yyjson.c:6705-6727 | a root of one slot: its value if it is there with nothing but spaces behind, more if it is cut, an error otherwise |
| IncrReader.IncrState.Advance | utils/yyjson.c:6735-6970 | one saved label to the next |
| IncrReader.IncrState.Run | utils/yyjson.c:6735-7008 | from label to label until the prefix or the document ends |
| IncrReader.IncrState.Feed | utils/yyjson.c:6532-7029 | one call on any bytes: a document if and only if they are one text, with its tape; more if they are none, with no bad cut, where a text can begin so if and only if the value that is cut is not stuck; an error where none can, unless a number is cut behind a part that is refused, and no value is stuck; an error too for a cut text when no more can come |
| IncrReader.FeedAll | utils/yyjson.c:6532-7029 | for any text and any lengths that never shrink and end at the whole: the tape of the first part that is a text, if no call before ended at a bad cut of it, else an error; a document with a container root comes out whole if and only if no length is a bad cut |
| IncrExamples.LoneLowWaits | utils/yyjson.c:3500-3515 | on an array cut in a lone low surrogate the reader asks for more, and no text begins so |
| IncrExamples.PlusWaits | utils/yyjson.c:3466-3470 | the same for one and four hundred zeros with an exponent cut behind its plus |
| IncrExamples.SingleNumberEndsEarly | utils/yyjson.c:6705-6727 | 12 fed as 1 and 12 is read as 1 |
| MutTree.Circles | utils/yyjson.c:2680-2744 | a container's children form one circle, entered at its first child or at its last element or key |
| MutTree.RepresentsSub | utils/yyjson.c:2680-2744 | slots copied and linked one by one represent every subtree |
| MutTree.SubSlots | utils/yyjson.c:2699-2742 | the slots from any slot on begin with the encoding of the subtree there |
| MutTree.NextWithin | utils/yyjson.c:2699-2742 | the sibling links of a subtree are those of the whole |
| MutTree.LinkItems | utils/yyjson.c:2708-2722 | the children of an array are linked in one circle |
| MutTree.LinkPairs | utils/yyjson.c:2723-2740 | the keys and values of an object are linked in one circle |
| MutTree.LinkPair | utils/yyjson.c:2729-2738 | one pair of it |
| MutTree.CopySlot | utils/yyjson.c:2699-2742 | one slot copied and its children linked; slots outside the copy untouched |
| MutTree.ValMutCopy | utils/yyjson.c:2680-2744 | the copy represents the tape's value as circular lists, and nothing else changes |
| MutTree.Stat | utils/yyjson.c:2799-2821 | the counted values and string bytes are exactly the slots and terminated bytes of the value |
| MutTree.StatList | utils/yyjson.c:2804-2817 | the same for a list of children |
| MutTree.ImutCopy | utils/yyjson.c:2824-2862 | the copy pass writes exactly the value's encoding and its strings, and uses exactly what was counted |
| MutTree.ImutCopyList | utils/yyjson.c:2839-2842 | the same for a list of children |
| MutTree.ImutCopyInto | utils/yyjson.c:2829-2845 | the same for a container with its head filled in last |
| MutTree.ImutCopySingle | utils/yyjson.c:2846-2861 | the same for a scalar |
| MutTree.Freeze | utils/yyjson.c:2870-2909 | counting, allocating exactly that, and copying gives the encoding of the value |
| MutTree.StringsStand | utils/yyjson.c:2846-2861 | every string of the value stands in the copied text with a zero byte behind it |
| MutTree.ThawAndFreeze | utils/yyjson.c:2680-2909 | tape to circular lists and back is the same tape |
| MergePatch.MergeLookup | utils/yyjson.c:10961-11011 | every key of the result: untouched, removed by null, or the merge of what was there |
| MergePatch.MergeUnique | utils/yyjson.c:10961-11011 | the result of unique keys has unique keys |
| MergePatch.StandardLookup | utils/yyjson.c:10961-11011 | the same keys for the algorithm of section 2 of RFC 7386 |
| MergePatch.MergeIsStandard | utils/yyjson.c:10961-11011 | for patches without duplicate keys the result is that of RFC 7386 as a map, at every depth; the standard is written with its own test for objects |
| MergePatch.DuplicateKeysDiffer | utils/yyjson.c:10961-11011 | with a key twice in the patch the result is not that of the standard: both members are taken over |
| MergePatch.MergeTwice | utils/yyjson.c:10961-11011 | applying a patch twice is applying it once |
| MergePatch.Apply | utils/yyjson.c:10961-11011 | the two loops over the members build that result |

## Left out

Stated for less than the source's whole input, or under a hypothesis:

- FastFloat.FastPath: takes the two table words as a hypothesis (they are the floor of the normalised power of ten), because the 10 KB table is not part of this model.
- PoolHeap.RunSound: for runs in which a moving reallocation fits its new chunk; `CopyFitsExactly` says exactly when one does.
- PoolAllocator.Pool.Realloc: the same hypothesis, for one call.
- SlotMap.RunBehavesAsMap: for runs of calls within the limits, which `StepSoundExactly` proves to be exact; what happens beyond them is `SlotLimitOverwrites`, `NewHandleExactlyBelowReuseLimit` and `StoredHandleFreesTwice`.
- ChunkedStream.CutIndependentBelowLimit: for streams that trip the overhead limit in no call, since the limit is looked at once per call and so does depend on the cut.
- DecimalBuf.SetBuf: the point is neither the first nor the last of the characters handed over, as the scanner of `read_num` leaves them (utils/yyjson.c:4036-4075).
- BigCompare.Compare: for a non-zero number, whose first nineteen digits therefore begin with a non-zero one, and the exponents the slow path of `read_num` can pass; 64 limbs are proved to be enough.
- NumberValue.ReadReal: takes the table words as a hypothesis, as FastFloat.FastPath does, and so do the readers that call it; that a result is the rounded double is stated for texts shorter than 10^18 bytes, since longer ones can make up for the exponents that are cut off by their length.
- NumberValue.RefusedExactly: for the same texts, and so NumberValue.InfiniteExactly; that ReadReal refuses exactly by the test on the text is proved for all.
- JsonWriter.WriteMinify: for trees without real numbers, whose printing is not modelled, with a container root that is not empty, as the source asks of its callers, and for container lengths that fit their context word.
- JsonWriter.WriteValue: for the same trees with any root.
- JsonWriter.WriteSingle: for the same values.
- JsonRoundTrip.DocumentRoundTrip: for the same trees; a signed integer that is not negative comes back unsigned, and the subtype that marks strings without escapes is not modelled.
- IncrReader.FeedAll: a string cut in the middle is read again from its opening quote on a text that is not changed, while `JsonTruncation.StringResumes` proves that resuming inside it, as the source does in its buffer, would give the same value.
- IncrReader.IncrState.Feed: a call with fewer bytes than have been read already asks for more, and nothing is said of that.
- JsonReader.ReadScalar: a string is read by its meaning on a text that is not changed; that the source decodes it in place to the same bytes is `StringReader.ReadStr`.
- NumberSyntax.NumberRounds: for at most 768 digits and texts shorter than 10^18 bytes; what longer ones are read as is `NumberValue.RealReads` with `MisscaledExactly` and `ConvertsToRight`.
- PoolRequests.RunServes: for callers that hand a reallocation the size they asked for before and a larger one, as the source asks, in runs in which a moving reallocation fits its new chunk.
- MergePatch.MergeIsStandard: for patches in which no object has a key twice, whose meaning section 4 of RFC 8259 leaves open; `DuplicateKeysDiffer` is one that has.
- MergePatch.Apply: on value trees; the circular lists it builds are those of `MutTree`.
- Coroutines.Scheduler.Create: whether the descriptor is valid, memory is there and the context can be made are parameters.
- Coroutines.Scheduler.Yield: the outcome of the stack overflow check is a parameter.

Not modelled:

- The first fast path of `read_num`, over hardware doubles (utils/yyjson.c:4151-4163): the model is the reader with `YYJSON_DOUBLE_MATH_CORRECT` set to 0. The machine's conversion of a word to a double, which reads negative integers beyond a signed word (utils/yyjson.c:4019-4023), is a parameter that rounds right.
- Error codes, messages and positions of the structural readers; of strings the error position is modelled.
- Byte order marks, flags other than the standard ones, raw numbers, the pretty writer, strings written without escaping, the printing of floating-point numbers.
- The caller's loop around `phr_decode_chunked` is a function over calls, since the repository has no such loop.
- Allocation is assumed to succeed except in the pool; the sizes of the readers' and the writer's buffers are modelled, the address-space limits of 32-bit builds are not. How many slots the document header takes is a parameter, since `yyjson.h` is not part of this model.
- Addresses in the pool are counted in cells of 16 bytes; sizes are in bytes.
- The copy between two mutable documents and the merge patch over them.
- The unrolled and SIMD forms of the other loops, which have the scalar meaning; the counters of the chunked decoder's overhead heuristic are unbounded integers.
- A context switch is one step; threads, stacks and the platform's ways to switch are not modelled.
- The pointer-holding `SlotMap` class, whose calls rest on unchecked discipline of the caller; overflow of its 16-bit casts beyond the stated limits.
- The servers themselves: sockets, timers, database access, logging.
