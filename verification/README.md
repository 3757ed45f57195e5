# Verified model of the HTTP chunked server

A Dafny 4.11 project that models the two hard components of the server and proves what they promise.

**The HTTP codec** (`picohttpparser.c`, and the printers in `ServerApp.c` and `impl.h`).

- `ChunkedAutomaton` is the chunked decoder as a pure automaton that reads a byte at a time. `ChunkedDecoder` is
  `phr_decode_chunked` itself: loops, fall-throughs and memmoves on a caller's buffer, proved equal to a run of the
  automaton. `ChunkedGrammar` is an independent grammar: the decoder completes on exactly the inputs that start with
  one of its bodies, yields exactly their data, and refuses exactly what could not become one. `ChunkEncoder` is the
  server's chunk printer; `ChunkedSession` puts both together over whole streams, with the overhead guard in force,
  and `ChunkedGuard` says exactly what the guard changes.
- `HeadSpec` is the request and response parser, a byte at a time; `HeadParser` holds the C loops (block scans with
  and without SSE4.2, unrolled loops, the header array) proved equal to it. On the specification: verdicts are final
  (`HeadFinality`) and local (`HeadLocality`), the `last_len` window is sound (`HeadWindow`), receiving a head piece
  by piece is parsing it at once (`HeadReceive`), when it is refused (`HeadRefusal`), printing and parsing undo each
  other (`HeadRoundTrip`, `ResponseRoundTrip`, `Responses`, `Numbers`), spans are well formed (`HeadSpans`), and what
  is accepted is exactly an independent grammar (`HeadGrammar`).

**The fixed-memory connection table and event loop** (`ForwardList.c`, `Server.c`, and the buffer logic in
`ServerApp.c`).

- `NodePool` is the abstract list with its free nodes, `ForwardList` the two intrusive chains in one pool that refine
  it. `SendQueue` is the send buffer as a value, `Connection` the object with its buffers.
- `EventLoop` is the event loop as a state machine on connections alone, for an arbitrary application that makes
  calls; what holds over all its runs is proved there, and in `Periodic` for clients that listen for periodic data.
- `World` adds what the connections share: the receive buffers, the globals of an upload, and what the free nodes
  still hold. Its application is either arbitrary or the server's own, which `AppSpec` specifies on values
  (`ServerApp` and `ImageUpload` are its code). Every run of `World` is a run of `EventLoop`.
- `Server` is the code of the loop: a linked list kept in lockstep with a poll array by delaying deletes and inserts.
  It is proved to go through a run of `World`, and to stop exactly where that run does.
- Over runs with the server's own application: `OwnRun` says exactly when an assertion fails (`LongParam` gives the
  request), `Serving` that the loop goes on for ever as long as no body comes in parts, `Upload` and `UploadRun` that
  an upload among other connections is put together right, and `Closing` when the image buffer is released. `Answers`
  says what one turn makes of each kind of request, and `Requests` and `Leftover` what a second request or a reused
  node does.

`Bytes` and `HeadSkips` hold helpers.

## Conventions

Bytes are the integers 0..255. Pointers into a buffer are offsets; a returned `NULL` with `*ret` is `Partial` (-2) or
`Bad` (-1). size_t and uint64_t wrap at 2^64 where the code computes with them in the decoder; the guard's counters
are related to the true counts as long as those stay below 2^64. `MAX_CLIENT_NUM`, `SEND_BUF_LEN`, `RECV_BUF_LEN`,
`MAX_IMAGE_SIZE` and `max_headers` are parameters.

Receive buffers are known by numbers, the image buffer being number 0, so that two connections may point to the same
one. The assertions in `DoRecv` (Server.c:120) and `OnRecvBody` (ServerApp.c:459) can fail; a failure is an explicit
outcome (`AssertionFailed`). All others are preconditions that every caller is proved to meet, or assertions that are
proved. Where the code would read outside a buffer, or use one that is not there, the outcome is `Undefined`: when the
scan of `is_complete` starts behind what was received and runs off the end of the receive buffer, and when
`OnPostImage` finds globals it cannot use. The methods of `Server` return `Hazard` there and do not go on; the
theorems say exactly when. A new receive buffer holds anything. Receive buffers are never released in the model. Many
methods carry a ghost position or a ghost value that names the state they work on.

## What the code does not deliver

Each of these is proved with the exact condition.

- The overhead guard is evaluated at call boundaries only, so independence of the fragmentation holds for the decoder
  without the guard (`FragmentationIndependence`). With it, a session is the one without the guard if and only if the
  guard is silent at every call boundary before the verdict (`GuardMatters`), and a stream is answered by -2 over
  every cut if and only if the guard is silent at every point of it (`SilentExactly`). `CutMatters` is a stream of
  162405 bytes that one call accepts and two calls refuse. The server's own streams of chunks of two bytes or more are
  never refused (`EncodedIsSilent`); those of one-byte chunks are, over every cut, from 20480 chunks on
  (`OneByteChunksInAnyCut`). The comment beside the guard speaks of more than 80% overhead; the condition is more than
  75%.
- `is_complete` finding the end of a head does not mean that the head can be parsed, although `picohttpparser.h:50-51`
  says that a partial request is what -2 means: the parser still answers -2 if and only if it has parsed the target
  and less than nine bytes follow the start of the version (`DecidedPartial`; `CompleteIsNotParsable` is `GET / H` and
  two line feeds). So a malformed head may be waited for instead of being refused. `RefusedOutsideZone`,
  `RefusedAfterZone` and, for any leftover, `RefusedWithLeftover` say for arbitrary bytes and every schedule exactly
  when it is refused: a schedule either has no length between the blank line and the ninth byte of the version, or has
  a last one (`MalformedMayLinger` is an input). Acceptance never depends on the schedule (`AcceptsExactlyParsable`).
- `AppOnSend` does not reset the number of bytes the parser had seen. A second request then starts with a leftover
  `p`, and `is_complete` may start behind the `n` bytes that arrive first: it then goes on in what the receive buffer
  still holds. The leftover is harmless if and only if either `p <= n + 3`, and the `n` bytes do not complete the
  head, or `p` is no longer than the head, or the window it leaves holds a blank line all the same; or `p > n + 3`,
  and the buffer holds a blank line from there on, before any stray CR (`LeftoverExactly`, `DecideExactly`,
  `NextRequest`). After a GET whose head came in two pieces it does: the old head is still there (`SecondRequest`).
  After a POST to /param whose body came in parts it need not (`AfterParam` has the exact condition, `BodyHidesHead` a
  body for which it fails). On a connection whose node and buffer suit it (`SuitsExactly`), and as long as no body
  comes in parts and no image is posted, nothing is ever read outside a buffer, over any number of requests and
  whatever their bytes (`KeepsServing`, `ServesForEver`).
- `CheckToAccept` leaves the HTTP state of the node as it was, and at start-up it is whatever the memory held. The
  first request on a reused node is read as a head if and only if the earlier connection ended in the head state; else
  the connection is closed, or its bytes are taken for a body (`ReusedNode`; `GetsTheLastClosed` says whose state it
  is). With a leftover of more than `n + 3` the scan runs through the new buffer, whatever that holds.
- `SendChunkWithData`, `Send200` and `Send400` ignore the results of their writes: a chunk or response is framed
  correctly if and only if all of it fits (`ChunkIsWholeOnlyIfItFits`, `ResponsesQueued`).
- `FL_EraseAfter` keeps the list valid if and only if there is a node to erase; its assertion lets the call through
  after the last node too, and would then put the end sentinel into the free list (`EraseAfter`). The rebuild never
  does that.
- The assertions in `DoRecv` and `OnRecvBody` fail, over every run with the server's own application, if and only if
  something is to be received for a POST to /param whose announced length exceeds the receive buffer, or the data
  fills the buffer of a node that was reused while a longer body was being received, unless the behaviour is undefined
  before (`OwnRunFailsExactly`). `LongRequestFails` is a request of 46 bytes that does the former. An arbitrary
  application never makes the one in `DoRecv` fail if it asks for no more than it has installed
  (`ModestRunNeverFaults`, `OvercommitFaultsNext`).
- An upload whose body arrives whole with its head ends in `OnPostImage` without having been begun: undefined, unless
  an earlier upload has left usable globals (`WholeAtOnce`). Two uploads at a time share the image buffer and the
  globals: what had arrived of the first is overwritten, and it ends with the other's receive buffer (`SecondUpload`,
  `FirstIsConfused`).
- `EL_Close` releases the receive buffer the connection points at. `FreesImageExactly` says in which turns that is the
  image buffer, which is static; a connection points at it only while it is receiving an image (`OwnRunPoints`).

## Main results

- `AcceptsExactlyBodies`, `RefusesExactly`, `DecodeChunked`, `StreamRoundTrip`, `GuardMatters`, `SilentExactly`: the
  in-place decoder is the automaton, completes on exactly the bodies of the grammar, undoes the encoder over every
  cut, and is disturbed by its guard exactly where said.
- `ParseRequestInto`, `AcceptsExactlyHeads`, `AcceptsExactlyResponses`, `RequestRoundTrip`, `RequestFinal`,
  `RequestLocal`: the optimised parser is the specified one, accepts exactly the heads of the grammar, undoes the
  printer, and its verdicts are final and local.
- `ReceiveHead`, `LeftoverExactly`, `AcceptsExactlyWithLeftover`, `RefusedWithLeftover`: receiving a head piece by
  piece, for every schedule and every leftover.
- `RunKeepsPartition`, `EmplaceAfter`, `EraseAfter`: the intrusive list in fixed memory.
- `ConnectionLife`, `EveryConnectionIsFaithful`, `EveryListenerDecodes`, `EveryOwnListenerDecodes`: over every run of
  the loop, each connection's bytes go out in order and undisturbed by others.
- `PollLoop`, `Serve`, `WorldRunIsRun`, `OwnReactionIsCalls`: the code of the loop, with its own application, goes
  through these runs.
- `GetIsAnswered`, `UnservedIsClosed`, `PostIsAnswered`, `ImageIsAnswered`, `BodyIsAwaited`: what each kind of
  request, whatever its bytes and however it is cut, does to its connection.
- `UploadInTheLoop`, `OwnRunFailsExactly`, `ServesForEver`, `SecondRequest`, `ReusedNode`: what that means for
  uploads, assertions, second requests and reused nodes.

## Model

| member | source | states |
|---|---|---|
| Bytes.MemMove | picohttpparser.c:606-619 | an overlapping move towards lower indices copies the original bytes and leaves the rest alone |
| ChunkedAutomaton.DecodeHexExactly | picohttpparser.c:530-541 | the value is v if and only if the byte is the v-th character of 0123456789abcdef or of 0123456789ABCDEF, and -1 for every other byte |
| ChunkedAutomaton.RunConcat | picohttpparser.c:550-664 | guard aside, decoding `a` then `b` is decoding `a + b`: same verdict, final state and concatenated output; a verdict inside `a` stands with more bytes left over |
| ChunkedAutomaton.FragmentationIndependence | picohttpparser.c:550-664 | guard aside, every way of cutting a stream into calls has the outcome of one call on the whole stream |
| ChunkedAutomaton.SizeNeverWraps | picohttpparser.c:576-581 | one more size digit never wraps 64 bits: the size stays below 16 to the number of digits |
| ChunkedAutomaton.StepKeepsWellFormed | picohttpparser.c:551-660 | every transition keeps the invariant that ties phase, digit count and bytes left together |
| ChunkedAutomaton.RunKeepsWellFormed | picohttpparser.c:550-661 | every run ends in a well-formed state, so no chunk size is ever computed with wrap-around |
| ChunkedAutomaton.RunData | picohttpparser.c:605-620 | chunk data passes unchanged, any amount up to the announced length |
| ChunkedAutomaton.RunDigits | picohttpparser.c:553-582 | after up to 16 hex digits the decoder holds exactly the number they write |
| ChunkedDecoder.TrackStep | picohttpparser.c:551-660 | one byte of the in-place loops is one step of the automaton: the rest of the buffer, decoded from the new state, completes the same run |
| ChunkedDecoder.TrackData | picohttpparser.c:605-620 | a whole block of chunk data is as many steps of the automaton |
| ChunkedDecoder.MoveUp | picohttpparser.c:666-667 | data is moved up behind what was decoded, or stays if it is there already |
| ChunkedDecoder.MoveData | picohttpparser.c:606-619 | moving data up extends the decoded prefix by original input and overwrites nothing that is still to be read |
| ChunkedDecoder.Decoder.constructor | picohttpparser.h:62-70 | a zero-filled decoder is in the initial state |
| ChunkedDecoder.Decoder.ScanSize | picohttpparser.c:552-584 | the size loop follows the run: it ends with the input, a rejection, or in the extension state |
| ChunkedDecoder.Decoder.ScanExt | picohttpparser.c:586-603 | the extension loop follows the run up to data, trailers or completion, and consumes at least one byte |
| ChunkedDecoder.Decoder.CopyData | picohttpparser.c:605-621 | the data case follows the run, keeps `dst <= src <= bufsz`, the decoded prefix before `dst` and the original input from `src` on |
| ChunkedDecoder.Decoder.ScanCrlf | picohttpparser.c:623-636 | the loop over carriage returns follows the run to the next size, or rejects |
| ChunkedDecoder.Decoder.ScanTrailerHead | picohttpparser.c:637-646 | a trailer line's start follows the run: completion on an empty line, else into the line |
| ChunkedDecoder.Decoder.ScanTrailerMiddle | picohttpparser.c:648-657 | a trailer line's rest follows the run and consumes at least one byte |
| ChunkedDecoder.Decoder.DecodePhases | picohttpparser.c:551-660 | one pass of the switch with its fall-throughs follows the run, and consumes at least one byte unless it ends the call |
| ChunkedDecoder.Decoder.DecodeLoop | picohttpparser.c:550-664 | the loop equals the automaton's run on the buffer, terminates, and touches nothing from `src` on |
| ChunkedDecoder.Decoder.DecodeAndMove | picohttpparser.c:550-668 | loop and move leave the decoded bytes followed by exactly the undecoded tail |
| ChunkedDecoder.Decoder.DecodeChunked | picohttpparser.c:543-676 | a call returns the specified answer, leaves the decoded bytes followed by exactly the undecoded tail in the buffer, and updates every field of the decoder |
| ChunkedGrammar.RunSizeLine | picohttpparser.c:552-603 | after a size line the decoder expects exactly the announced amount of data, the trailers, or nothing |
| ChunkedGrammar.RunChunk | picohttpparser.c:552-636 | a chunk is decoded to its data and leaves the decoder at a chunk boundary |
| ChunkedGrammar.RunTrailerPart | picohttpparser.c:637-664 | trailer lines and the empty line after them are consumed without output |
| ChunkedGrammar.BodyIsDecoded | picohttpparser.c:550-664 | every body of the (lenient) grammar, whatever follows it, is decoded to exactly its data, and exactly its bytes are consumed |
| ChunkedGrammar.AcceptedIsBody | picohttpparser.c:550-664 | whatever the decoder accepts starts with a body of the grammar |
| ChunkedGrammar.AcceptsExactlyBodies | picohttpparser.c:550-664 | the decoder completes on exactly the inputs that start with a body of the grammar |
| ChunkedGrammar.RefusesExactly | picohttpparser.c:550-664 | the decoder refuses exactly what no further bytes could complete to a body of the grammar, and asks for more exactly when some could and there is no body yet |
| ChunkedGrammar.RfcBodyIsDecoded | picohttpparser.c:552-664 | every chunked body of section 4.1 of RFC 7230 with sizes of at most 16 digits, with extensions and trailers, is decoded to its data; without consume_trailer the decoder stops right after the last-chunk line |
| ChunkEncoder.HexDigit | impl.h:11-15 | the digit is the character at that place of 0123456789abcdef |
| ChunkEncoder.SizeDigitsWriteLength | ServerApp.c:135-156 | the size digits write the payload's length in hex, without leading zeros, in one to three digits |
| ChunkEncoder.EncodedChunkIsRfcChunk | ServerApp.c:131-160 | what the server writes for a payload is one chunk of section 4.1 of RFC 7230 carrying it |
| ChunkEncoder.DecodesEncodedChunk | ServerApp.c:131-160 | the decoder undoes the encoder on one chunk |
| ChunkEncoder.DecodesEncoded | ServerApp.c:131-160 | the decoder undoes the encoder on any list of chunks and is back at a chunk boundary |
| ChunkedSession.CallAccounts | picohttpparser.c:668-674 | one call keeps the books: bytes read are decoded bytes plus overhead, and the answer is the automaton's unless the guard fires |
| ChunkedSession.GuardWithoutWrap | picohttpparser.c:672-673 | below 2^64 bytes the guard's unsigned arithmetic says what it is meant to say |
| ChunkedSession.SessionAccounts | picohttpparser.c:548-674 | over any run of -2 answers `_total_read` is the decoded bytes plus `_total_overhead`, and either the overhead is below 100 KB or a quarter of the bytes read was decoded |
| ChunkedSession.OverheadGrows | picohttpparser.c:670-674 | overhead never shrinks along an incomplete run |
| ChunkedSession.EncodedPrefix | ServerApp.c:131-160 | at every point of the server's stream the overhead is at most seven bytes a whole chunk and seven more, and bounded by three times the decoded data |
| ChunkedSession.EncodedIsSilent | picohttpparser.c:669-674 | the guard is silent at every point of a stream of chunks of two bytes or more |
| ChunkedSession.PartialStream | picohttpparser.h:72-80 | however much of such a stream has arrived and however it was cut, every call answers -2 and a prefix of the payloads is decoded |
| ChunkedSession.StreamRoundTrip | picohttpparser.c:543-676 | every cut of the server's stream is decoded to the concatenated payloads, -2 every time, ending at a chunk boundary, guard included |
| ChunkedSession.OneByteChunksTripTheGuard | picohttpparser.c:669-674 | a stream of one-byte chunks in one call is refused exactly from 20480 chunks on |
| ChunkedGuard.UnguardedIsRun | picohttpparser.c:543-668 | with the guard taken out, verdict, output and state over any cut are those of one run over the whole stream, and what is left over is what was handed over and not used |
| ChunkedGuard.GuardMatters | picohttpparser.c:669-674 | for every stream, every cut and whatever the verdict: the session is the one without the guard if and only if the guard is silent at every call boundary before the verdict; otherwise the stream is refused |
| ChunkedGuard.GuardedSession | picohttpparser.h:72-80 | the same from a zero-filled decoder on, with the output of one run over the whole stream |
| ChunkedGuard.SilentExactly | picohttpparser.c:669-674 | a stream is answered by -2 over every cut if and only if the guard is silent at every point of it |
| ChunkedGuard.CutMatters | picohttpparser.c:669-674 | a size line with an extension of 102400 bytes and 60000 bytes of its data: -2 in one call, -1 if cut after the line |
| ChunkedGuard.OneBytePrefix | ServerApp.c:131-160 | at every point of a stream of one-byte chunks, the number of bytes decoded |
| ChunkedGuard.OneByteChunksInAnyCut | picohttpparser.c:669-674 | over every cut, a stream of one-byte chunks is refused exactly if 20480 of its chunks have arrived |
| HeadParser.LeastInRanges | picohttpparser.c:114-115 | the least index of a byte in the ranges among 16 |
| HeadParser.FindCharFast | picohttpparser.c:105-132 | skips only bytes outside the ranges, and stops at one inside or less than a block from the end |
| HeadParser.TokenRangesSound | picohttpparser.c:250-257 | a byte the block scan skips is a token character and neither SP nor the colon |
| HeadParser.EolRangesExact | picohttpparser.c:139-141 | the ranges of the value scan are exactly the control characters other than HT |
| HeadParser.PathRangesExact | picohttpparser.c:74 | the ranges of the path scan are exactly SP, the control characters and DEL |
| HeadParser.ParseTokenFast | picohttpparser.c:245-277 | with or without block scan, the same span, position and verdict as a byte-at-a-time scan |
| HeadParser.AdvanceToken | picohttpparser.c:71-94 | the same for the path |
| HeadParser.SkipPrintable | picohttpparser.c:147-170 | the unrolled loop passes over no control character and stops at one, or less than eight bytes from the end |
| HeadParser.GetTokenToEolFast | picohttpparser.c:134-195 | with either fast scan, the same span, position and verdict as a byte-at-a-time scan |
| HeadParser.CheckComplete | picohttpparser.c:197-223 | is_complete is the scan for two line ends in a row from three bytes before what was seen; if it starts behind what was received, it goes on in the memory there |
| HeadParser.ParseHttpVersion | picohttpparser.c:280-296 | compares the seven fixed bytes and reads the digit |
| HeadParser.TrimTrailing | picohttpparser.c:341-350 | removes exactly the trailing blanks |
| HeadParser.ParseHeaderFast | picohttpparser.c:315-350 | one header line is parsed as specified |
| HeadParser.ParseHeadersInto | picohttpparser.c:298-353 | the caller's array is filled with exactly the specified headers |
| HeadParser.ParseTargetFast | picohttpparser.c:359-384 | method, path and the spaces around them are parsed as specified |
| HeadParser.ParseRequestLineFast | picohttpparser.c:359-396 | the request line is parsed as specified |
| HeadParser.ParseStatusLineFast | picohttpparser.c:432-469 | the status line is parsed as specified |
| HeadParser.ParseRequestInto | picohttpparser.c:401-427 | phr_parse_request returns the specified code and, on success, the specified line and headers, as long as the scan stays inside the memory |
| HeadParser.ParseResponseInto | picohttpparser.c:474-498 | the same for phr_parse_response |
| HeadSkips.SkipTokenBytes | picohttpparser.c:259-272 | a scan may start after skipped token characters |
| HeadSkips.SkipPathBytes | picohttpparser.c:76-91 | the same for the path |
| HeadSkips.SkipTextBytes | picohttpparser.c:143-179 | the same for the rest of a line |
| HeadFinality.HeadersFinal | picohttpparser.c:298-353 | a verdict on the headers stands for every extension of the buffer |
| HeadFinality.VersionFinal | picohttpparser.c:280-296 | so does one on the version: the lookahead never looks too early |
| HeadFinality.RequestFinal | picohttpparser.c:355-399 | a success or an error is the same, with the same spans, version and headers, on every extension: only -2 can change |
| HeadFinality.ScanFinal | picohttpparser.c:197-223 | the scan for the blank line is final too |
| HeadLocality.RequestLocal | picohttpparser.c:355-399 | a head is recognised as soon as its last byte is there, with the same fields: nothing behind it matters |
| HeadWindow.ScanAcrossHeader | picohttpparser.c:197-223 | is_complete passes over any header line that parse_headers accepts, counting one line end |
| HeadWindow.ParsedHeadEndsAtBlankLine | picohttpparser.c:355-399 | a parsed head ends exactly at the first double line end that the full scan finds |
| HeadWindow.WindowIsSound | picohttpparser.c:197-223 | if what was seen holds no double line end and no stray CR, the windowed scan finds what the full scan finds, even when it starts inside a CRLF |
| HeadReceive.BeforeTheEnd | picohttpparser.c:413-427 | before the last byte of a head every call answers -2, whatever is remembered, as long as the scan starts inside the buffer |
| HeadReceive.FromTheEnd | picohttpparser.c:413-427 | from the last byte on, the answer is the one-shot parse if and only if no more than the head is remembered, or the window that is left holds a blank line all the same |
| HeadReceive.ReceiveHead | ServerApp.c:413-444 | for every head, every schedule of lengths and any part of the head remembered before: -2 until the length reaches the end, then the one-shot answer |
| HeadReceive.AnswerExactly | picohttpparser.c:413-427 | the same for one call |
| HeadReceive.LeftoverExactly | ServerApp.c:420-438 | for every head, every schedule, anything remembered and whatever the receive buffer holds: the code stays inside it and every answer is right if and only if the leftover is harmless |
| HeadReceive.AcceptedIsParsed | ServerApp.c:413-444 | on arbitrary bytes, what is accepted piece by piece is the one-shot parse |
| HeadReceive.AcceptsExactlyParsable | ServerApp.c:413-444 | on arbitrary bytes, receiving piece by piece accepts exactly what the one-shot parse accepts, with the same fields |
| HeadReceive.AcceptsExactlyWithLeftover | ServerApp.c:420-438 | any bytes, any schedule, any leftover with which the code stays inside the buffer: accepted if and only if the one-shot parse accepts and the leftover is harmless, or a later blank line comes to the rescue |
| HeadRefusal.DecidedPartial | picohttpparser.c:282-286 | once the scan has found a blank line or a stray CR, the parser wants more bytes if and only if the target is parsed and less than nine bytes follow the version start |
| HeadRefusal.DecidedPartialResponse | picohttpparser.c:429-472 | the same for responses: exactly when less than nine bytes are there, or less than three digits and one more byte after the spaces |
| HeadRefusal.DecidedOutside | picohttpparser.c:413-427 | outside that zone a verdict of the scan goes with a verdict of the parser |
| HeadRefusal.RefusedOutsideZone | ServerApp.c:413-444 | any bytes, any schedule that avoids the zone, nothing remembered: exactly when it ends in a refusal |
| HeadRefusal.RefusedAfterZone | ServerApp.c:413-444 | any bytes, any schedule with a length in the zone, nothing remembered: exactly when it ends in a refusal |
| HeadRefusal.LaterRefusals | ServerApp.c:413-444 | whatever was received and overlooked before: exactly when the calls after it end in a refusal |
| HeadRefusal.RefusedWithLeftover | ServerApp.c:420-438 | any bytes, any schedule, any leftover with which the code stays inside the buffer: exactly when it ends in a refusal |
| HeadRoundTrip.ReadField | picohttpparser.c:315-350 | a printed header field is parsed to its name and value, without the white space around it |
| HeadRoundTrip.ReadRequestLine | picohttpparser.c:368-396 | a printed request line is parsed to its method, path and version |
| HeadRoundTrip.RequestRoundTrip | picohttpparser.c:355-399 | any printed request, whatever follows it, is parsed to its full length and exactly its method, path, version and fields |
| HeadSpans.HeaderFits | picohttpparser.c:315-350 | a header's name is a non-empty token before its value, and its value holds no control character but HT and ends in no blank |
| HeadSpans.RequestSpans | picohttpparser.c:298-399 | the spans of a parsed request are ordered, disjoint and inside the consumed bytes, with the contents the grammar asks for, and at most max_headers headers |
| HeadGrammar.TokenCharsExactly | picohttpparser.c:96-103 | the bytes that token_char_map marks are exactly the fifteen marks, the digits and the letters of section 3.2.6 of RFC 7230 |
| HeadGrammar.ReadLines | picohttpparser.c:298-353 | header lines of the grammar, folded ones and bare line feeds included, are parsed to their names and values |
| HeadGrammar.LinesBack | picohttpparser.c:298-353 | whatever is parsed as header lines is printed by lines of the grammar with these names and values |
| HeadGrammar.ReadStart | picohttpparser.c:359-396 | a request line of the grammar, with an empty line before it or not and with any number of spaces, is parsed to its method, path and version |
| HeadGrammar.StartBack | picohttpparser.c:359-396 | whatever is parsed as a request line is one of the grammar with these parts |
| HeadGrammar.HeadIsParsed | picohttpparser.c:355-399 | every head of the grammar, whatever follows it, is parsed to its full length and exactly its parts |
| HeadGrammar.ParsedIsHead | picohttpparser.c:355-399 | whatever is accepted begins with a head of the grammar, as long as what was consumed and with the parts that were found |
| HeadGrammar.AcceptsExactlyHeads | picohttpparser.c:355-399 | the parser accepts exactly the buffers that begin with a head of the grammar with at most max_headers header lines |
| HeadGrammar.ResponseIsParsed | picohttpparser.c:429-472 | the same for responses: every head of the grammar is parsed to its full length and exactly its parts |
| HeadGrammar.ParsedIsResponse | picohttpparser.c:429-472 | whatever is accepted begins with a response head of the grammar with the parts that were found |
| HeadGrammar.AcceptsExactlyResponses | picohttpparser.c:429-472 | the response parser accepts exactly the buffers that begin with a response head of the grammar |
| Numbers.CharsToNumLoop | impl.h:35-56 | the right-to-left loop returns the decimal value of every string of one to seven digits, without 32-bit overflow, and -1 for every other string |
| Numbers.DecimalBound | impl.h:35-56 | n digits write a number below ten to the n |
| Numbers.DecimalRoundTrip | impl.h:35-96 | reading back a printed number gives the number if it is at most 9999999, and -1 if it is larger |
| Numbers.DecimalWrites | impl.h:57-96 | the printed digits write the number, without leading zeros |
| Numbers.NumToFourChars | impl.h:57-96 | writes exactly the decimal digits to the start of the array |
| ResponseRoundTrip.ReadStatusLine | picohttpparser.c:432-469 | a printed status line is parsed to its version, status and reason |
| ResponseRoundTrip.ResponseRoundTrip | picohttpparser.c:429-472 | any printed response, whatever follows it, is parsed to its full length and exactly its version, status, reason and fields |
| Responses.MatchContentLengthLoop | ServerApp.c:225-236 | compares a name with content-length: every character is the one there in lower or in upper case |
| Responses.FirstDecides | ServerApp.c:238-249 | the first Content-Length gives the length if its value is one to seven digits, else -1, whatever follows |
| Responses.FindsNoneExactly | ServerApp.c:238-249 | no length is found exactly if there is no Content-Length, or the first one is not one to seven digits |
| Responses.FindsPrinted | ServerApp.c:238-249 | of printed fields, the first one with that name, in any case, gives the length it writes, up to 9999999 |
| Responses.FindContentLengthLoop | ServerApp.c:238-249 | the first content-length header decides |
| Responses.ResponsesArePrinted | ServerApp.c:15-32 | the literals with the length and the body spliced in are the canonical printed responses |
| Responses.FindsOwnLength | ServerApp.c:238-249 | the length found in the server's own headers is the length written |
| Responses.ClientReadsResponse | ServerApp.c:111-130 | a client that parses the head and takes the announced number of bytes gets the status and exactly the body, for 200 and 400 |
| NodePool.FreshPartition | ForwardList.c:53-65 | after initialisation all nodes are free, each once |
| NodePool.EmplacePartition | ForwardList.c:91-99 | emplacing keeps the chains a partition of the pool |
| NodePool.ErasePartition | ForwardList.c:107-116 | so does erasing |
| NodePool.RunKeepsPartition | ForwardList.c:41-130 | over any sequence of operations the active and the free chain partition the node pool |
| NodePool.EveryNodeAccounted | ForwardList.c:41-65 | every node is in exactly one of the two chains: none is lost |
| NodePool.EmplaceFailsOnlyWhenFull | ForwardList.c:41-47 | emplacing fails exactly when all nodes are in the list |
| NodePool.EraseEmplaceUndo | ForwardList.c:91-116 | erase and emplace at one place undo each other, in either order |
| ForwardList.FList.constructor | ForwardList.c:66-74 | FL_Init makes an empty valid list with all nodes free |
| ForwardList.FList.CreateFreeNodeList | ForwardList.c:53-65 | links all nodes in order and ends the chain |
| ForwardList.FList.Clear | ForwardList.c:125-130 | makes the list empty and valid whatever it was |
| ForwardList.FList.MallocOneNode | ForwardList.c:41-47 | takes the first free node, or NULL |
| ForwardList.FList.EmplaceAfter | ForwardList.c:91-99 | refines insertion at a position; NULL exactly when the list is full |
| ForwardList.FList.EmplaceFront | ForwardList.c:75-83 | the same at the front |
| ForwardList.FList.EraseAfter | ForwardList.c:107-116 | refines removal at a position, and keeps the list valid exactly if there is a node to remove |
| ForwardList.FList.Begin | ForwardList.c:118 | the first node, or the end sentinel exactly if the list is empty |
| ForwardList.FList.Next | Server.c:142-143 | the node at the next position, or the end sentinel exactly at the end |
| ForwardList.FList.IsValid | ForwardList.c:12-26 | walking `len` links always ends at the sentinel |
| ForwardList.FList.PushFront | ForwardList.c:84-90 | emplaces at the front and stores the value in that node only |
| ForwardList.FList.InsertAfter | ForwardList.c:100-106 | the same after a node |
| SendQueue.StepIsFaithful | Server.c:84-117 | a write or a send keeps: bytes sent then bytes waiting are the accepted writes, the buffer is never full, an empty one is rewound, totalSend counts |
| SendQueue.RunIsFaithful | Server.c:84-117 | the same over any interleaving of writes and partial sends |
| SendQueue.ChunkIsWholeOnlyIfItFits | ServerApp.c:157-159 | a chunk is queued whole if and only if the whole of it fits |
| SendQueue.ChunkInEmptyBuffer | ServerApp.c:131-160 | a chunk shorter than the buffer, written when nothing waits, is queued whole |
| SendQueue.StreamRunKeeps | ServerApp.c:131-160 | with chunks that fit, what went out and what waits is the encoding of all payloads, after any interleaving |
| SendQueue.EndToEnd | ServerApp.c:131-160 | from payloads through the send buffer and partial sends, in any cut, to the decoder: a prefix of the payloads, and all of them once the buffer is empty |
| Connection.ElConnection.AddToSendBuffer | Server.c:107-117 | accepted if and only if sendIdx, toSend and the length of the data add up to less than the length of the buffer; then the data is appended to the bytes that wait, otherwise nothing changes |
| Connection.ElConnection.OnSent | Server.c:94-105 | the bytes sent leave the front of the queue, and an emptied buffer is rewound |
| Connection.ElConnection.DoSend | Server.c:84-106 | the whole connection after any answer of send() |
| Connection.ElConnection.Receive | Server.c:130-134 | the bytes received stand behind what was there, and nothing else has changed |
| Connection.ElConnection.SendChunkWithData | ServerApp.c:131-160 | queues the chunk's three parts as the specification does |
| EventLoop.ApplyCallsGrow | Server.c:139-158 | whatever an application does, what waits to be sent does not shrink, so a reported POLLOUT finds something to send |
| EventLoop.KeepOpenExactly | Server.c:212-219 | a rebuild drops exactly the closed connections |
| EventLoop.KeepOpenOrder | Server.c:205-225 | two connections that stay keep their order |
| EventLoop.RoundWithinLimits | Server.c:226-232 | after every round there is room for all connections, and none is closed |
| EventLoop.RunWithinLimits | Server.c:254-279 | at every loop head of every run the poll array has room and no listed connection is closed |
| EventLoop.ReactFits | Server.c:119-138 | if the application asks for no more than is installed, and installs no buffer that is too small, the connection stays within its receive buffer |
| EventLoop.ModestRunNeverFaults | Server.c:120 | with such applications, switches of the receive buffer included, the assertion in DoRecv never fails in any run |
| EventLoop.OvercommitFaultsNext | ServerApp.c:351-353 | after any calls that end in asking for `total` bytes, the next incoming data makes the assertion fail if and only if `total` exceeds what those calls have installed |
| EventLoop.ConnectionLife | Server.c:254-279 | every connection at every loop head was accepted in a round of the run, has stood at a place of the list in every round since, has taken exactly the turns the rounds had for these places, and is what they have made of it |
| EventLoop.TurnRun | Server.c:139-166 | a turn changes the send buffer as its writes and its send do |
| EventLoop.EveryConnectionIsFaithful | Server.c:254-279 | over every run, for every connection: what went out in the turns it has taken since it was accepted, then what waits, is the concatenation of the writes accepted in them |
| Periodic.QuietTurn | ServerApp.c:518-534 | a listening client goes on listening, and its queue changes by a chunk or by what was sent |
| Periodic.ListenerStreams | ServerApp.c:518-534 | what went out and what waits is what waited when the client began to listen, then the chunks of all ticks that fitted |
| Periodic.ListenerDecodes | ServerApp.c:518-534 | what the client receives after the head of its response, cut in any way, decodes to a prefix of the ticks, and to all of them once the send buffer is empty |
| Periodic.EveryListenerDecodes | Server.c:254-279 | over every run with any application: what a connection has sent in the turns it has taken since it began to listen decodes to their ticks, if it was quiet and every tick fitted |
| Periodic.OwnIsQuiet | ServerApp.c:509-516 | the own application is quiet: it closes a listening connection when data arrives |
| Periodic.EveryOwnListenerDecodes | Server.c:254-279 | over every run with the own application the same holds of every listening client whose ticks fitted |
| World.TurnIsReaction | Server.c:139-166 | a turn with any application is the reaction of module EventLoop to the calls it makes; the assertion in DoRecv fails in the one exactly if in the other |
| World.HappenedIsReacted | Server.c:262-275 | so is everything between poll() and the rebuild |
| World.FailureIsFault | Server.c:120 | a failed assertion of DoRecv is a fault of module EventLoop |
| World.StepIsRound | Server.c:259-278 | a whole round is a round of module EventLoop, and keeps every node in the list or free, and every capacity within its buffer |
| World.RunKeeps | Server.c:254-279 | over every run: every node is in the list or free, and no capacity exceeds its buffer |
| World.WorldRunIsRun | Server.c:254-279 | every run with any application, the server's own included, is a run of module EventLoop |
| OwnRun.OwnTurn | ServerApp.c:342-358 | with the own application, an assertion fails in a turn exactly if the body of a POST to /param longer than the buffer is to be received, or the data fills the buffer of a stale node |
| OwnRun.NextDataFaults | ServerApp.c:351-353 | after the calls the own application makes, the next incoming data is a fault if and only if they began a POST to /param longer than the buffer |
| OwnRun.OwnRunFailsExactly | Server.c:254-279 | over every run with the own application, whatever the nodes hold and however many uploads there are: what every connection may still receive, and exactly when an assertion fails; receive buffers are never released |
| LongParam.ParamFailsExactly | ServerApp.c:351-353 | a POST to /param is begun: the next incoming data makes the assertion fail if and only if the announced length exceeds the buffer |
| LongParam.LongRequestFails | ServerApp.c:351-353 | a printed request of 46 bytes does so with the source's buffer sizes |
| Leftover.LeavesLeftover | ServerApp.c:446-456 | every GET whose head arrives as its first n bytes and then the rest leaves n remembered when it is answered and sent, and its head in the receive buffer |
| Leftover.NextRequest | ServerApp.c:413-444 | the next request on a connection is decided upon as it should be if and only if what is remembered is harmless, and undefined exactly when the scan runs off the receive buffer or OnPostImage is called in vain |
| Leftover.OldHeadIsFound | picohttpparser.c:197-223 | a scan that starts in the rest of an old head finds its blank line |
| Leftover.SecondRequest | ServerApp.c:413-456 | after any GET whose head came in two pieces, any request that begins more than three bytes shorter than the first piece is decided upon as it should be |
| Leftover.ParamLeavesBody | ServerApp.c:351-353 | what a POST to /param in three pieces leaves in the receive buffer and in the connection |
| Leftover.AfterParam | ServerApp.c:413-456 | the GET after it is undefined exactly when the scan starts behind what comes first of it and the body has left neither a blank line nor a stray CR there |
| Leftover.BodyHidesHead | ServerApp.c:351-353 | as with every body that fills the buffer and has no line end |
| Leftover.ReusedNode | Server.c:174-184 | what a reused node makes of its first request: a head exactly if the earlier connection ended in the head state, then right exactly if what is remembered is harmless, and undefined exactly if the scan runs off the new buffer |
| Leftover.GetsTheLastClosed | ForwardList.c:41-52 | an accepted connection gets the node closed last in the same round, with the HTTP state it had then |
| Serving.ServingTurn | ServerApp.c:476-517 | one turn with the own application and no body in parts: nothing stops it |
| Serving.KeepsServing | ServerApp.c:476-517 | so over any number of turns and requests, whatever their bytes |
| Serving.SuitsExactly | Server.c:174-184 | which stale node and which new buffer suit a connection, exactly |
| Serving.ServesForEver | Server.c:254-279 | in every run in which no body comes in parts and every accepted connection gets a node and buffer that suit it, every round happens: no assertion fails and nothing is undefined |
| Closing.OwnClosesExactly | ServerApp.c:476-517 | the own application closes a connection exactly for a refused head, a body of an invalid length or another path, or data while a response is sent |
| Closing.FreedExactly | Server.c:13-17 | a turn releases a buffer exactly if the connection is closed after it |
| Closing.FreesImageExactly | ServerApp.c:565 | a turn releases the image buffer exactly if the connection is receiving an image and meets an error or the end of its input, or is still or just now receiving one and meets an error of send() or a hang-up |
| Closing.OwnRunPoints | ServerApp.c:318-333 | over every run with the own application, a connection points at the image buffer only while it is receiving an image |
| Server.Call | Server.h:55-58 | an application's call has the specified effect on the connection and no other |
| Server.RunScript | Server.c:134 | so has a sequence of them |
| Server.OnRecv | Server.c:134 | any application: calls, or the server's own code, does as the value says, and stops exactly when it does |
| Server.DoRecv | Server.c:119-138 | connection, receive buffers and globals after any answer of recv(); it stops at the assertion exactly when the connection is overcommitted |
| Server.CheckConnection | Server.c:147-163 | all of them after one turn: error, input, output, hang-up, in this order |
| Server.SendTick | ServerApp.c:521-526 | a listening client's connection gets one chunk, any other is left alone |
| Server.ElServer.LockstepAt | Server.c:193-204 | at a loop head, entry 1 + j has the j-th connection's descriptor, POLLIN iff something is to be received, POLLOUT iff something is to be sent, and the connection is not closed |
| Server.ElServer.Poll | Server.c:262 | only requested events, errors and hang-ups are reported, and only reported events change |
| Server.ElServer.CheckListed | Server.c:143-163 | one connection's turn changes the world by that turn; no other connection, free node or order changes |
| Server.ElServer.CheckNode | Server.c:142-164 | one turn of the walk: list and poll array agree on the descriptor (the assertion in line 145), the connection reacts to its own entry, and the walk moves on |
| Server.ElServer.CheckConnections | Server.c:139-166 | every connection takes its turn in step with the list, and what stops the walk is exactly what stops it on values |
| Server.ElServer.AppOnPollTimeout | ServerApp.c:518-534 | exactly the listening clients get a chunk |
| Server.ElServer.PushBackFds | Server.c:193-204 | the entry is made for the connection, and no other entry changes |
| Server.ElServer.DropListed | Server.c:218-219 | a closed connection's node becomes the first free one, with its HTTP state; the others are as they were |
| Server.ElServer.KeepNode | Server.c:220-224 | an open connection moves to the kept ones with its entry |
| Server.ElServer.WalkNode | Server.c:215-225 | one turn of the rebuild keeps or drops exactly as `closed` says |
| Server.ElServer.DropClosed | Server.c:213-225 | the walk leaves exactly the open connections, in order, each with its entry, and the free nodes in the order they will be handed out |
| Server.ElServer.AppOnAccepted | ServerApp.c:52-56 | a fresh receive buffer, all of it to be filled |
| Server.ElServer.Accept | Server.c:174-185 | the fields that the code sets get the code's values; the HTTP state of the node stays |
| Server.ElServer.Enlist | Server.c:172 | the first free node is appended to the list, or nothing happens if there is none |
| Server.ElServer.CheckToAccept | Server.c:170-192 | the accepted connection joins the end of the list, in the first free node and with a new receive buffer, exactly if there is one and there is room |
| Server.ElServer.AppendAccepted | Server.c:226-232 | its entry follows those of the others, and the lockstep is established |
| Server.ElServer.UpdateConnectionListAndConstructPollFds | Server.c:205-233 | closed connections leave, the others keep their order and get their entries, an accepted one joins at the end |
| Server.ElServer.Dispatch | Server.c:262-275 | between poll() and the rebuild the world changes as it does on values, or the loop stops exactly as it does there |
| Server.ElServer.OneRound | Server.c:259-278 | one turn of the loop is exactly one step of the world and keeps the lockstep, or stops exactly when the step does |
| Server.ElServer.PollLoop | Server.c:254-279 | over any sequence of rounds, with any application, the loop heads form a run of the world with list and poll array in lockstep, and the loop ends exactly where the run says |
| Server.Serve | Server.c:280-305 | from start-up on, whatever the memory holds and whatever happens on the sockets, the server goes through a run of the world; it stops early only for a failed poll(), a failed assertion or undefined behaviour, exactly when the run does; receive buffers are never released |
| ServerApp.ResponsesQueued | ServerApp.c:119-130 | a response is queued whole, as the bytes a client can read back, if and only if all of it fits |
| ServerApp.ResponseInEmptyBuffer | ServerApp.c:119-130 | a response shorter than the buffer, written when nothing waits, is queued whole |
| ServerApp.SendContentLength | ServerApp.c:111-118 | queues the decimal length and two line ends |
| ServerApp.Send200 | ServerApp.c:119-130 | queues the parts of the response as specified |
| ServerApp.Send400 | ServerApp.c:185-196 | the same |
| ServerApp.OnRecvHead | ServerApp.c:413-444 | takes the specified decision on what has arrived, remembers the progress exactly while the head is incomplete, and prepares the body; the scan must stay inside the receive buffer |
| Requests.DecideExactly | ServerApp.c:371-444 | however much of a GET or POST has arrived, whatever is remembered and whatever the receive buffer holds: the decision is the expected one if and only if the leftover is harmless |
| Requests.PrintedRequest | ServerApp.c:371-412 | every printed GET or POST is such a request, whatever follows it |
| Requests.RefusesUnserved | ServerApp.c:386-411 | a request of any method but GET and POST, or a POST without a usable Content-Length, is refused at every received length from the end of its head on, if the leftover is harmless |
| Requests.PrintedUnserved | ServerApp.c:386-411 | every printed request of another method is such a request, and every printed POST without a Content-Length or with a first one that is not one to seven digits |
| Answers.HeadIsAwaited | ServerApp.c:438-440 | in a whole turn of the loop: while the head is incomplete it goes on being received, and how much was seen is remembered |
| Answers.GetIsAnswered | ServerApp.c:206-216 | a GET is answered with what its handler writes; then the connection is sending, or listening if the handler begins periodic data |
| Answers.UnservedIsClosed | ServerApp.c:386-411 | a request that is not served closes the connection in the turn that brings the end of its head, without an answer |
| Answers.PrintedUnservedIsClosed | ServerApp.c:386-411 | every printed request of another method, and every printed POST without a usable Content-Length, that arrives in one piece on a connection that remembers nothing closes it, without an answer |
| Answers.PrintedGetIsAnswered | ServerApp.c:206-216 | every printed GET is answered on such a connection, which then listens if its handler begins periodic data |
| Answers.PostIsAnswered | ServerApp.c:359-370 | a POST that has arrived whole, to any path but /image, is answered with what its handler writes |
| Answers.ImageIsAnswered | ServerApp.c:300-320 | a POST to /image that has arrived whole is answered with 200 if its length is at least one and the image fits, else with 400 |
| Answers.BodyIsAwaited | ServerApp.c:321-358 | a POST whose body is not all there: an image of a valid length is received into the image buffer, parameters into the receive buffer; anything else closes the connection |
| Answers.ParamIsAnswered | ServerApp.c:457-475 | parameters that came in parts are answered once all of them are there |
| Answers.UnexpectedIsClosed | ServerApp.c:497-516 | data that arrives while an answer or periodic data is sent closes the connection |
| AppSpec.FinishIsCalls | ServerApp.c:300-320 | OnPostImage is a sequence of calls, one of them a switch of the receive buffer |
| AppSpec.BeginIsCalls | ServerApp.c:342-358 | so is beginning to receive a body |
| AppSpec.OwnReactionIsCalls | ServerApp.c:476-517 | the whole effect of incoming data on a connection, uploads included, is a sequence of calls of module EventLoop |
| ImageUpload.Fill | ServerApp.c:324 | every byte is the filler |
| ImageUpload.ImageStore.OnPostImageIncomplete | ServerApp.c:321-340 | for a valid length the image buffer becomes the receive buffer with a gap of the size of what is already here; else the connection is closed |
| ImageUpload.ImageStore.OnPostImage | ServerApp.c:300-320 | copies the early part of the body into the image buffer and nothing else, answers by the length, and gives buffer and capacity back, if the globals are usable |
| ImageUpload.ImageStore.OnPostIncomplete | ServerApp.c:342-358 | an image, parameters, or a closed connection |
| ImageUpload.ImageStore.Reply | ServerApp.c:111-130 | an immediate answer is a sequence of writes |
| ImageUpload.ImageStore.OnHeadData | ServerApp.c:482-496 | connection, receive buffers and globals after data in the head state, wherever the code is defined |
| ImageUpload.ImageStore.OnBodyData | ServerApp.c:457-475 | the same in the body state; the assertion in line 459 holds unless the value says it fails |
| ImageUpload.ImageStore.AppOnRecv | ServerApp.c:476-517 | connection, receive buffers and globals are those the reaction on values says, in every state, wherever the code is defined |
| Upload.WholeAtOnce | ServerApp.c:392-396 | an upload whose body arrives whole with its head: undefined unless an earlier upload has left usable globals, and then exactly what OnPostImage does with those; receive buffers are never released |
| Upload.UploadStep | ServerApp.c:476-517 | one recv() of an upload and the reaction to it: head and early body in the own buffer, the rest in its place in the image buffer, nothing behind the body; at the end the whole body, the answer, and buffer and capacity back |
| Upload.PrintedUpload | ServerApp.c:371-405 | any printed POST to /image with a body of up to 9999999 bytes is such an upload, if the first Content-Length among its fields, in any case, is the decimal length of the body |
| UploadRun.UploadTurn | Server.c:139-166 | a whole turn of the uploading connection does that |
| UploadRun.BystanderTurn | ServerApp.c:476-517 | a turn of another connection that neither begins nor ends an upload leaves image buffer, globals and the own buffer of the uploader alone |
| UploadRun.UploadRound | Server.c:254-279 | one round of the loop, whatever the others do, moves the upload on by what the round brings, and keeps its place in the list up to closed connections |
| UploadRun.UploadInTheLoop | Server.c:254-279 | in every run in which no other connection begins or ends an upload meanwhile, nothing waited to be sent, and the call that completes the head brings less than the whole body: the image buffer ends up with exactly the body, however the request is cut and whoever comes and goes |
| UploadRun.SecondUpload | ServerApp.c:321-334 | another upload that begins meanwhile overwrites what had arrived of the first body, and takes over the globals; the first connection does not notice |
| UploadRun.FirstIsConfused | ServerApp.c:300-320 | when the rest of the first body arrives then, the connection is answered, and gets the receive buffer of the other |

## Left out

- Sockets, signals, logging, clocks and the computation of the poll timeout: `poll`, `accept`, `send`, `recv` and the
  passing of time are inputs of each round.
- `http_chunked_server.c`: the older server, which duplicates the encoder and documents a broken `remove_client`.
- The routes (/version, /periodic, GET and POST /param, 404) and `VerifyImageBuffer`: what a handler of a request that
  is complete at once writes is an input (`replies`), and so is whether it begins to send periodic data.
- What `OnPostParam` reads of a body that arrives over several `recv` calls: it looks at the front of the buffer,
  where the part that came with the head is not.
- Lifetimes of descriptors and receive buffers: `closed` is only ever set, buffers are never freed. `Closing` says
  what `EL_Close` would free, but a buffer can be used or freed again after that: by `recv` after POLLERR, by a second
  `EL_Close` in one turn, and through `g_recvBuf` after its connection is gone.
- Values of the HTTP state that are outside its enumerations, which uninitialised memory may hold at start-up.
- `phr_parse_headers`, `lower_hex_to_u16`, the byte-order readers and the path matchers: easy members.
- The SSE4.2 instruction is given by its least-index specification, and the ranges by the C string's first and last
  bytes.
- HeadParser.ParseRequestInto: does not say what the out-parameters (spans and the number of headers found so far)
  hold after a failed parse, because no caller reads them; only the return code is stated then.
- HeadParser.ParseResponseInto: the same.
- HeadRefusal.RefusedOutsideZone: nothing is remembered; any leftover is in `RefusedWithLeftover`.
- HeadRefusal.RefusedAfterZone: the same.
- EventLoop.ModestRunNeverFaults: one direction, for arbitrary applications; the exact condition is stated where the
  application is known (`OwnRunFailsExactly`).
- OwnRun.OwnRunFailsExactly: does not model that `EL_Close` frees the receive buffer; a use of freed memory counts as
  defined.
- Server.Serve: the same.
- Upload.WholeAtOnce: the same; a receive buffer that has been freed counts as usable.
- UploadRun.UploadInTheLoop: one direction; of a second upload that begins meanwhile, what it does at once and at the
  end of the first is stated (`SecondUpload`, `FirstIsConfused`), not everything in between.
