# Verification of packet-replay

packet-replay turns the packets of a capture into conversations, a conversation into a queue of
actions (CONNECT, SEND, RECV, CLOSE), and replays that queue against a live server. While it replays
HTTP, it decodes the captured and the live response piece by piece and reports when they differ. A
conversation can also be saved as a text script and read back, and DNS answers are compared apart
from their TTLs. This project models these five paths and proves what they promise; where the code
does not keep the promise, it proves exactly when it does.

| file | models |
|---|---|
| `Bytes.dfy`, `Outcomes.dfy`, `Actions.dfy` | bytes and the C and C++ library functions on them; how a call ends; actions |
| `ChunkedFormat.dfy` | the chunked coding (section 7.1 of RFC 9112) as a printer and as an automaton over single bytes, the reference for everything below |
| `ChunkedDecoder.dfy`, `ChunkedCorrectness.dfy`, `ChunkedCuts.dfy`, `ChunkedCoincidence.dfy` | `ChunkedProcessor`, its refinement of the reference, and exactly which cuts break it |
| `HttpHeader.dfy`, `HttpResponse.dfy`, `HttpCorrectness.dfy`, `HttpVerdict.dfy` | `HttpResponseProcessor`: header, framing, incremental decoding, comparison |
| `HttpReplay.dfy`, `ReplaySafety.dfy`, `ReplayVerdict.dfy`, `ReplayHistory.dfy` | `HttpReplayClient::replay` with the network as an oracle: sockets, bytes sent, verdict |
| `Packets.dfy`, `TcpRecording.dfy` | `TcpConversation`: the capture state machine and the queue it fills |
| `ConversationKey.dfy`, `ConversationStore.dfy` | which conversation a packet belongs to |
| `InputStream.dfy`, `TagScan.dfy`, `SubTokens.dfy`, `Properties.dfy`, `Script.dfy`, `RecordedScripts.dfy` | the script: property lines, the scan for the end tag, substitution tokens, writing and reading actions |
| `Base64.dfy` | base64 (RFC 4648) by tables |
| `Dns.dfy`, `DnsMessages.dfy` | `dns.py` |

Objects whose methods update their fields are classes; each method is proved against a function of
the old state, and the theorems are about these functions. A byte is a `char` below 256. A `Version`
says whether the decoder is the code as it is (`AsShipped`) or has these corrections (`Patched`):

1. `processData` knows by `data_processor_` whether the header is complete and answers `false` until
   then, where the code dereferences the null pointer (http_response_processor.cc:50);
2. the end of a chunk-size line moves the position only over bytes of the current piece, where the
   code also counts those kept from earlier pieces (http_response_processor.cc:152);
3. a chunk size that does not fit an `int` is refused, where the code goes on with what the
   conversion leaves;
4. a body with a content length takes no more bytes than announced, where the code copies past its
   buffer (http_response_processor.h:59);
5. a wrong byte after a chunk always ends in an exception, where the code adds the byte to the address
   of a literal of 30 characters and, from byte 31 on, lets the exception read its message from behind
   that literal (http_response_processor.cc:164 and 181).

The classes are the code as it is; the corrected version exists as functions only. `Outcome` keeps
exceptions and the three kinds of undefined behaviour (null pointer, buffer overrun, reading behind a
literal) apart.

What turned out not to hold of the code, each with the exact condition under which it does:

- Decoding depends on the cuts: a header must come in one piece (`IncompleteHeadCrashes`,
  `LengthCutsExactly`), no piece may start inside a chunk-size line and run on past its end
  (`CutsDecodedExactly`, `ChunkedCutsExactly`), and none may step over the end of a body with a content
  length (`OverrunExactly`). The condition on size lines is exact but for pieces whose first such cut is
  followed by bytes that mislead the code, a repetition of a short text that looks like a size line
  (`BadCutComesOutRight`, `CrlfAfterEndComesOutRight`); one or two bytes of the line in earlier pieces
  are too few for that (`EarlyBadCutFails`).
- A chunk that is not followed by CRLF is refused with an exception if and only if the wrong byte is at
  most 30 (`UnclosedChunkStops`, `UnclosedExample`).
- Chunked bodies are compared only up to the first NUL that both have (`CompareExactly`,
  `HiddenDifference`).
- `reset` keeps the header fields: after one response with a content length no chunked response is
  recognised any more (`NoChunksAfterLength`), since content length has precedence (`LengthWins`),
  unlike section 6.3 of RFC 9112.
- A script gives an action back only if its data survives the tag scan (`ScriptRoundTripExactly`);
  CONNECT and CLOSE never do (`EmptyNeverSurvives`), so no recorded conversation can be read back
  (`RecordedScriptNeverReadsBack`).
- The text kept for a substitution token is never its name (`TextIsNeverTheName`).
- A reset in the capture closes no socket in the replay (`SocketsLeftOpen`).
- README.md of the repository promises the TCP stream with the first connection request when no
  client is given; the code takes the conversation of the first packet of any kind
  (`OnlyConversation`). It also lists chunked responses as future work, while the code has them.
- `dns.py` reads the length of the record data from the TTL, so that only the first TTL is certain to
  be found (`MessageTtlsFound`, `EarlyEndMisses`), and it accepts a message that stops inside the
  last window when `expected` ends there, too (`ValidatesLengthExactly`).

## Model

| member | source | states |
|---|---|---|
| Bytes.ClassesExactly | src/lib/util.cc:38-51 | `isspace` is tab to carriage return and space, `isprint` is 32 to 126 |
| Bytes.ToLowerExactly | src/lib/util.cc:58-61 | two texts have the same lower-case form exactly when they agree letter by letter in the two alphabets, or are the same |
| Bytes.LowerExactly | src/lib/util.cc:58-61 | that form has the small letter of the alphabet for each capital, and leaves everything else |
| Bytes.DigitsExactly | src/http_replay/http_response_processor.cc:146 | the sixteen digits and their values, in either case |
| Bytes.ValueIsNumber | src/http_replay/http_response_processor.cc:146 | reading digits from the front gives the sum of digits times powers of the base |
| Bytes.StrtoulRead | src/http_replay/http_response_processor.cc:146 | `strtoul` on white space, a sign, a mark `0x`, digits and anything else: the number, negated or saturated at 64 bits, and the end of its digits |
| Bytes.StrtoulNothing | src/http_replay/http_response_processor.cc:148-150 | without a digit there it stops at once |
| Bytes.PrintExactly | src/lib/conversation_factory.cc:19 | `std::to_string` and `std::hex` give the one text of lower-case digits without leading zeros that stands for the number |
| Bytes.MemCmpDecides | src/lib/conversation_factory.cc:183 | the first difference decides the sign of `memcmp` |
| ChunkedFormat.DecodeInvertsCoding | src/http_replay/http_response_processor.cc:132-194 | the reference decoder, fed a chunked coding of any non-empty chunks below 2^31 bytes, with sizes in either case and with any leading zeros, finishes on the last byte with the chunks put together |
| ChunkedFormat.EncodeIsCoding | src/http_replay/http_response_processor.cc:132-194 | sizes printed in lower case without leading zeros are one way to write them |
| ChunkedCuts.FinishesExactly | src/http_replay/http_response_processor.cc:132-194 | the reference finishes exactly on such codings, whatever follows them |
| ChunkedCorrectness.NeverCompleteEarly | src/http_replay/http_response_processor.cc:167-177 | on any pieces of a proper prefix of a chunked coding (as it is: without a bad cut) the decoder asks for more and does not set its flag |
| ChunkedDecoder.ChunkedProcessor.constructor | src/http_replay/http_response_processor.h:73-81 | a new decoder is at the start of a size line and has no data |
| ChunkedDecoder.ChunkedProcessor.FillTmpBuf | src/http_replay/http_response_processor.cc:137-141 | the line buffer gets as much of the piece as fits behind what it holds, within its 1025 bytes |
| ChunkedDecoder.ChunkedProcessor.ReadSizeLine | src/http_replay/http_response_processor.cc:136-157 | the size line part of the loop is `SizeTurn`: size and position, or more input wanted, or an exception |
| ChunkedDecoder.ChunkedProcessor.ReadClosing | src/http_replay/http_response_processor.cc:158-184 | the part of the loop after a chunk is `ClosingTurn`: CR, then LF, then done or a new size line; a wrong byte is an exception up to 30 and a read behind the literal above |
| ChunkedDecoder.ChunkedProcessor.ReadPayload | src/http_replay/http_response_processor.cc:185-191 | the copying part of the loop is `PayloadTurn`: no byte beyond the chunk |
| ChunkedDecoder.ChunkedProcessor.ProcessPiece | src/http_replay/http_response_processor.cc:132-194 | one call on the class is `Process` as it is, in outcome and in state, for every piece |
| ChunkedCorrectness.ScanFullLine | src/http_replay/http_response_processor.cc:143-152 | `strstr` and `strtoul` on a buffer that begins with a whole size line find that line and its value, whatever follows |
| ChunkedCorrectness.ProcessRefines | src/http_replay/http_response_processor.cc:132-194 | block decoding of one piece ends where the reference ends byte by byte, for corrected code always, as it is unless the piece starts inside a size line and runs past its end |
| ChunkedCorrectness.PiecesRefine | src/http_replay/http_response_processor.cc:132-194 | the same over all pieces of a body or a part of one |
| ChunkedCorrectness.CutsDoNotMatter | src/http_replay/http_response_processor.cc:132-194 | two ways of cutting the same body end in the same data and the same point of the coding |
| ChunkedCorrectness.PiecesDecode | src/http_replay/http_response_processor.cc:132-194 | every way of cutting a coding of some chunks, however their sizes are written and whatever follows it (as it is: without a bad cut), decodes to the chunks and reports completion |
| ChunkedCorrectness.UnclosedChunkStops | src/http_replay/http_response_processor.cc:158-184 | after any chunks, one that is not followed by CRLF stops the decoder, however the bytes are cut and whatever comes after it: corrected with an exception, as it is with an exception if and only if the wrong byte is at most 30, else reading behind the literal |
| ChunkedCorrectness.UnclosedExample | src/http_replay/http_response_processor.cc:164 | a chunk `a` followed by `b` is such a case: undefined as it is, an exception corrected |
| ChunkedCorrectness.NoNumberThrows | src/http_replay/http_response_processor.cc:143-150 | a line that does not start with a number is refused with an exception |
| ChunkedCorrectness.NoLineEnd | src/http_replay/http_response_processor.cc:153-157 | so are 1024 bytes without the end of a line; fewer are kept, whatever they are |
| ChunkedCorrectness.SizeTaken | src/http_replay/http_response_processor.cc:146-152 | of a line with anything after the size, such as a chunk extension, the size is taken and two bytes are skipped; a size from 2^31 on is taken as the conversion to `int` leaves it, and refused by the corrected decoder |
| ChunkedCuts.BadCutLoses | src/http_replay/http_response_processor.cc:152 | after a bad cut the code as it is never completes with the data of the body, unless what follows the size line reads the same shifted by the number of bytes skipped, and meets a CR there (at least three bytes, or two at the end of the body) |
| ChunkedCuts.EarlyBadCutFails | src/http_replay/http_response_processor.cc:152 | for every payload: a way of cutting whose first bad cut had kept one or two bytes of the size line is never decoded to the chunks, whatever follows the coding but a CR |
| ChunkedCuts.CutsDecodedExactly | src/http_replay/http_response_processor.cc:132-194 | the code as it is decodes a way of cutting a coding of some chunks, however their sizes are written and whatever follows it, if and only if no piece starts inside a size line and runs on past its end; for pieces where what follows the first such cut does not mislead it |
| ChunkedCuts.NeverMisled | src/http_replay/http_response_processor.cc:152 | if no chunk is a repetition of a text that begins with CR, LF and a digit and is no longer than its size line, and no CR follows the coding, no way of cutting misleads |
| ChunkedCuts.ShortChunksDecodedExactly | src/http_replay/http_response_processor.cc:132-194 | for chunks of less than sixteen bytes with printed sizes the same if and only if holds for every way of cutting, whatever follows but a CR |
| ChunkedCuts.RarelyRepeats | src/http_replay/http_response_processor.cc:152 | no chunk of less than sixteen bytes or without CR is such a repetition |
| ChunkedCoincidence.BadCutComesOutRight | src/http_replay/http_response_processor.cc:152 | misleading bytes exist: a family of bodies, with a bad cut, that the code as it is decodes rightly all the same |
| ChunkedCoincidence.CoincidenceExists | src/http_replay/http_response_processor.cc:152 | the family is not empty |
| ChunkedCoincidence.CrlfAfterEndComesOutRight | src/http_replay/http_response_processor.cc:152 | so it is with an empty body that a CRLF follows: the code skips the CRLF of the body and takes the other one |
| ChunkedCuts.BadCutExample | src/http_replay/http_response_processor.cc:152 | the body `ab` cut after its size digit fails as it is and works corrected |
| HttpHeader.ReadFields | src/http_replay/http_response_processor.cc:83-98 | the loop over the field lines gives the map that `ParseFields` describes |
| HttpHeader.ParseInvertsPrint | src/http_replay/http_response_processor.cc:71-100 | parsing a printed header gives its status and, on top of the fields that were there, its fields in lower case, the last duplicate winning |
| HttpHeader.ParseFieldExactly | src/http_replay/http_response_processor.cc:84-97 | a field line with any white space around name and value: the lower-case name and the value, up to the first CR |
| HttpHeader.FieldWithoutColon | src/http_replay/http_response_processor.cc:89-97 | a line without a colon is a name with an empty value |
| HttpHeader.HeadEndsOnce | src/http_replay/http_response_processor.cc:24 | the first empty line of a printed response is the one after its header, whatever the body |
| HttpResponse.ContentLenProcessor.ProcessPiece | src/http_replay/http_response_processor.h:58-63 | the copy into the payload buffer is `BodyProcess` as it is, and is a buffer overrun exactly when the bytes do not fit |
| HttpResponse.HttpResponseProcessor.ResetAll | src/http_replay/http_response_processor.h:113-117 | status, header text and body are forgotten, the header fields stay |
| HttpResponse.HttpResponseProcessor.ParseInto | src/http_replay/http_response_processor.cc:71-100 | status and fields of the object become those of `ParseHeader`, or it throws |
| HttpResponse.HttpResponseProcessor.CreateBody | src/http_replay/http_response_processor.cc:30-36 | the body processor is the one the fields ask for, content length first, and nothing else is accepted |
| HttpResponse.LengthTaken | src/http_replay/http_response_processor.h:47-50 | the announced length is the number at the start of the field as the conversion to `int` leaves it; negative ones and 2^64 and more are refused |
| HttpResponse.NoLengthNoBody | src/http_replay/http_response_processor.h:48 | so is a field that does not start with a number, whatever the other fields are |
| HttpResponse.HttpResponseProcessor.TakeHead | src/http_replay/http_response_processor.cc:26-44 | once the end of the header is found, the object goes on as `StartBody`: bytes after the header go to the body |
| HttpResponse.HttpResponseProcessor.ProcessPiece | src/http_replay/http_response_processor.cc:17-55 | one call of `processData` on the class is `ProcessData` as it is, in outcome and in state |
| HttpResponse.HttpResponseProcessor.IsComplete | src/http_replay/http_response_processor.h:122-124 | the answer is that of the status and body the object stands for |
| HttpResponse.HttpResponseProcessor.CompareTo | src/http_replay/http_response_processor.cc:57-69 | comparing two objects is `Compare` of what they stand for, including when it throws |
| HttpCorrectness.SearchFindsFirst | src/http_replay/http_response_processor.cc:19-24 | the search that starts three bytes before the new ones finds what a search from the beginning finds |
| HttpCorrectness.HeadGathered | src/http_replay/http_response_processor.cc:17-29 | (corrected) a header in several pieces is the same as one first piece that holds all of it |
| HttpCorrectness.HeadInFirstPiece | src/http_replay/http_response_processor.cc:26-48 | after a first piece with the whole header, the run is that of the body processor on the rest of it and the later pieces |
| HttpCorrectness.LengthRun | src/http_replay/http_response_processor.h:58-67 | a body with a content length collects exactly the announced number of bytes, in order, and is complete from then on; as it is, unless some piece steps over its end |
| HttpCorrectness.OverrunExactly | src/http_replay/http_response_processor.h:58-63 | as it is, the copy leaves the payload buffer if and only if some piece goes on beyond the announced length before the pieces add up to it |
| HttpCorrectness.DecodesFromHead | src/http_replay/http_response_processor.cc:17-55 | a response whose header is in the first piece is decoded to the status, fields, body and completeness of decoding it at once; as it is, when no cut is bad and no piece steps over the announced end |
| HttpCorrectness.EveryCutDecodes | src/http_replay/http_response_processor.cc:17-55 | (corrected) every decodable response, cut in any way and whatever follows its body, is decoded to what the one-shot reference gives |
| HttpCorrectness.UnreadableHeadThrows | src/http_replay/http_response_processor.cc:26-36 | (corrected) a header that cannot be handled stops the processor with an exception, however it is cut |
| HttpCorrectness.BadStatusThrows | src/http_replay/http_response_processor.cc:78-80 | a second token of the status line that does not start with a number makes the call throw |
| HttpCorrectness.NoStatusNeverComplete | src/http_replay/http_response_processor.cc:78-80 | a status line of one token leaves the response incomplete, whatever its body |
| HttpCorrectness.IncompleteHeadCrashes | src/http_replay/http_response_processor.cc:50 | the first call dereferences the null pointer if and only if it does not bring the whole header |
| HttpCorrectness.LengthCutsExactly | src/http_replay/http_response_processor.cc:17-55 | every response with a content length, complete or not and whatever follows it, is understood as it is if and only if the first piece holds the whole header and no piece steps over the announced end; else the code does not even return |
| HttpCorrectness.ChunkedCutsExactly | src/http_replay/http_response_processor.cc:17-55 | a chunked response, however its sizes are written and whatever follows its body, is understood as it is if and only if the first piece holds the whole header and no cut is bad; for pieces where what follows the first bad cut does not mislead the code |
| HttpCorrectness.LengthWins | src/http_replay/http_response_processor.cc:30-33 | the framing is by content length exactly when that field is there, whatever the transfer encoding |
| HttpVerdict.StrNCmpStopsAtNul | src/http_replay/http_response_processor.cc:129 | `strncmp` of equally long data is 0 exactly when they agree up to the first NUL |
| HttpVerdict.CompareExactly | src/http_replay/http_response_processor.cc:57-69 | `compare` of complete responses is 0 exactly when status, framing and body agree, chunked bodies in length and up to the first NUL |
| HttpVerdict.VerdictExactly | src/http_replay/http_response_processor.cc:57-130 | whatever the two ways of cutting that the decoder copes with, `compare` is 0 exactly when the uncut responses mean the same |
| HttpVerdict.HiddenDifference | src/http_replay/http_response_processor.cc:129 | two responses on the wire whose chunked bodies differ behind a first NUL, in any way, that `compare` finds equal |
| HttpVerdict.DecodePrintedLength | src/http_replay/http_response_processor.cc:17-55 | a response printed with a content length decodes to the status, fields and payload it was printed from |
| HttpVerdict.DecodePrintedChunks | src/http_replay/http_response_processor.cc:17-55 | a response printed with chunks decodes to the status, fields and chunks it was printed from, however the sizes are written and whatever follows it |
| HttpVerdict.AnyLengthField | src/http_replay/http_response_processor.cc:30-31 | the name Content-Length in any spelling, the last such field deciding: the payload is decoded, whatever earlier responses had |
| HttpVerdict.AnyChunkedField | src/http_replay/http_response_processor.cc:32 | the name Transfer-Encoding and the value chunked in any spelling: the chunks are decoded, when no response so far had a content length |
| HttpVerdict.UnusableLengthThrows | src/http_replay/http_response_processor.h:47-50 | (corrected) a printed response whose length is negative after the conversion, or not below 2^64, is refused, however it is cut |
| HttpVerdict.NoFramingThrows | src/http_replay/http_response_processor.cc:30-36 | (corrected) a printed response with neither a content length nor the chunked coding is refused, however it is cut |
| HttpVerdict.OldFieldsDecideFraming | src/http_replay/http_response_processor.h:113-117 | a printed response that asks for the chunked coding gets it if and only if the fields left by earlier responses have no content length |
| HttpVerdict.NoChunksAfterLength | src/http_replay/http_response_processor.h:113-117 | over whole sessions: once some response had a content length, no later response is ever decoded as chunked, whatever its bytes and however they are cut |
| HttpReplay.Network.ConnectSocket | src/http_replay/http_replay.cc:29-41 | the oracle for `socket` and `connect`: a socket, or nothing |
| HttpReplay.Network.Write | src/http_replay/http_replay.cc:49 | the oracle for `write`: takes any number of the bytes from the front, or fails |
| HttpReplay.Network.Read | src/http_replay/http_replay.cc:74 | the oracle for `read`: brings the next bytes, or fails |
| HttpReplay.HttpReplayClient.SendData | src/http_replay/http_replay.cc:43-56 | the write loop sends the data in the portions the network takes, as `WriteAll` |
| HttpReplay.HttpReplayClient.ReceiveResponse | src/http_replay/http_replay.cc:73-81 | the read loop is `ReadResponse`: reads until the live response is complete, or stops the replay |
| HttpReplay.HttpReplayClient.TakeExpected | src/http_replay/http_replay.cc:67-69 | the captured piece is given to the expected response, unless that is complete |
| HttpReplay.HttpReplayClient.Decide | src/http_replay/http_replay.cc:83-87 | the difference is reported when the captured response is complete and `compare` is not 0 |
| HttpReplay.HttpReplayClient.ReplaySend | src/http_replay/http_replay.cc:43-64 | a SEND writes its data and then resets both responses |
| HttpReplay.HttpReplayClient.ReplayRecv | src/http_replay/http_replay.cc:66-90 | a RECV is `PlayRecv`: feed, read, compare, in that order |
| HttpReplay.HttpReplayClient.Replay | src/http_replay/http_replay.cc:20-102 | draining the queue with the two processor objects does, towards the network, exactly what `PlayQueue` says, and leaves the queue empty when it finishes |
| ReplaySafety.ReplaySafely | src/http_replay/http_replay.cc:20-102 | on any queue of the form (CONNECT (SEND\|RECV)* CLOSE?)*, whatever the network answers, every write, read and close uses the socket of the last connect, which is still open |
| ReplaySafety.RecordedReplaysSafely | src/http_replay/http_replay.cc:143-148 | the same for every queue recorded from any packets |
| ReplaySafety.ConnectGoesExactly | src/http_replay/http_replay.cc:27-38 | CONNECT goes through if and only if there is a socket and it connects, else nothing has happened |
| ReplaySafety.SendGoesExactly | src/http_replay/http_replay.cc:43-56 | SEND goes through if and only if the calls of `write` take all of its data before one of them fails |
| ReplaySafety.ReplayAdds | src/http_replay/http_replay.cc:20-102 | a replay that finishes has opened a socket per CONNECT, closed one per CLOSE and written exactly the SEND data; one that stops has written a beginning of it |
| ReplaySafety.ReplaySendsTheCapture | src/http_replay/http_replay.cc:43-56 | from packets to the wire: a finished replay sends, byte by byte, what came from the address and port of the first packet while a connection was established |
| ReplaySafety.SocketsLeftOpen | src/lib/tcp_conversation.cc:21-28 | a finished replay leaves open as many sockets as there were resets of established connections, and one for a connection still open at the end |
| ReplayVerdict.ReadsUntilComplete | src/http_replay/http_replay.cc:73-81 | the read loop decodes the arriving pieces as a run of the decoder, and reports nothing |
| ReplayVerdict.CompareThrowsExactly | src/http_replay/http_response_processor.cc:102-121 | `compare` throws exactly for a response that is not complete, and for equal status and different framing |
| ReplayVerdict.LaterRecvs | src/http_replay/http_replay.cc:83-87 | once both responses are complete, further RECVs only compare them again |
| ReplayVerdict.ExchangeVerdict | src/http_replay/http_replay.cc:43-90 | one whole exchange: after a SEND, with both responses in any pieces the decoder copes with, the difference is reported if and only if the responses do not mean the same; equal status with different framing stops the replay |
| ReplayVerdict.CapturedStops | src/http_replay/http_replay.cc:66-71 | captured pieces on which the decoder does not return stop the replay, whatever the network answers |
| ReplayVerdict.LiveStops | src/http_replay/http_replay.cc:73-81 | so do live pieces on which it does not return, in whatever pieces the response was captured |
| ReplayVerdict.FailedReadStops | src/http_replay/http_replay.cc:73-80 | so does a `read` that fails, or finds the connection closed, before the live response is complete |
| ReplayVerdict.LengthExchangeGoesExactly | src/http_replay/http_replay.cc:43-90 | one exchange with content lengths on both sides goes through if and only if, on each side, the first piece holds the whole header and no piece steps over the announced end |
| ReplayVerdict.PrintedIsReadable | src/http_replay/http_response_processor.cc:17-55 | a response printed with the right content length is one the decoder copes with, however it is cut after its header |
| ReplayVerdict.LengthExchangeVerdict | src/http_replay/http_replay.cc:43-90 | one exchange with content lengths on both sides, cut anywhere after the headers: the difference is reported if and only if status or payload differ |
| ReplayVerdict.PrintedChunksReadable | src/http_replay/http_response_processor.cc:17-55 | a response printed in the chunked coding is one the decoder copes with, however it is cut after its header without a bad cut |
| ReplayVerdict.ChunkedExchangeVerdict | src/http_replay/http_replay.cc:43-90 | one exchange in the chunked coding on both sides: the difference is reported if and only if the statuses differ, or the bodies in length or before the first NUL |
| ReplayHistory.RequestPlayed | src/http_replay/http_replay.cc:43-90 | one exchange whose request was captured as any number of SENDs: stopped exactly for mixed framings, else a difference is reported if and only if the responses do not mean the same |
| ReplayHistory.ExchangesVerdict | src/http_replay/http_replay.cc:25-101 | any number of exchanges, each request in any number of SENDs and each with the header fields that the exchanges before have left: the replay goes through if and only if none mixes framings, and then reports a difference if and only if some responses do not mean the same |
| ReplayHistory.ConnectionPlayed | src/http_replay/http_replay.cc:20-102 | one connection, from CONNECT to CLOSE, of a client in any state, and what it leaves behind |
| ReplayHistory.ConnectionsVerdict | src/http_replay/http_replay.cc:20-102 | any number of connections with one client, fields being kept from one to the next: the replay goes through if and only if no exchange mixes framings, and then reports a difference if and only if some responses do not mean the same |
| ReplayHistory.CaptureVerdict | src/http_replay/http_replay.cc:20-102 | from the packets of captured connections to the verdict: if their payloads are such exchanges, the replay of what is recorded goes through, and reports a difference, exactly then |
| TcpRecording.TcpConversation.constructor | src/include/packet_conversation.h:32-61 | the end points of the first packet are kept, and the state is closed with an empty queue; `EndPointsOfFirst` says what they are |
| TcpRecording.EndPointsOfFirst | src/include/packet_conversation.h:44-48 | after any packets, client and server are source and destination of the first packet, with address and port |
| TcpRecording.TcpConversation.ActionPop | src/include/packet_conversation.h:102-105 | the front action leaves the queue |
| TcpRecording.TcpConversation.ProcessCapturePacket | src/lib/tcp_conversation.cc:10-48 | one packet on the class is `Step` |
| TcpRecording.TcpConversation.EstProcessCapturePacket | src/lib/tcp_conversation.cc:95-118 | one packet in an established connection is `EstStep`: its payload first, then the close |
| TcpRecording.RecordedQueueOk | src/lib/tcp_conversation.cc:30-118 | every recorded queue has the form (CONNECT (SEND\|RECV)* CLOSE?)*, and is inside a connection while the state is established |
| TcpRecording.ConnectionsBalance | src/lib/tcp_conversation.cc:21-118 | CONNECTs are as many as CLOSEs and resets of established connections, and one more while established |
| TcpRecording.ClosesAreFins | src/lib/tcp_conversation.cc:113-117 | CLOSEs are as many as the packets with FIN and without RST seen while established |
| TcpRecording.HandshakeSeen | src/lib/tcp_conversation.cc:50-93 | in the states of the handshake its packets so far are in the capture, in order, with no reset since the SYN; in the established state all three are, and no FIN since |
| TcpRecording.ConnectHasHandshake | src/lib/tcp_conversation.cc:50-93 | every CONNECT comes from a whole handshake: the client's SYN, the server's SYN and ACK, the client's ACK, in order, without a reset in between |
| TcpRecording.HandshakeConnects | src/lib/tcp_conversation.cc:50-93 | conversely, every handshake makes one CONNECT, whatever other packets come in between, if none of them is a reset after the SYN |
| TcpRecording.PayloadConserved | src/lib/tcp_conversation.cc:95-111 | the transfers of the queue are the payloads seen while established, in the order of the packets, sent exactly when address and port are those the first packet came from |
| TcpRecording.EstablishedGrows | src/lib/tcp_conversation.cc:95-111 | while neither a reset nor a FIN comes, the queue of an established connection grows by exactly the payloads of the packets, each with its direction |
| TcpRecording.CaptureRecorded | src/lib/tcp_conversation.cc:50-118 | the packets of a whole connection, handshake to FIN with any others in between that are no reset, are recorded as CONNECT, the payloads, that of the FIN included, CLOSE |
| TcpRecording.CapturesRecorded | src/lib/tcp_conversation.cc:50-118 | so are any number of connections after each other |
| ConversationKey.BytesToHexString | src/lib/util.cc:26-36 | the loop gives two lower-case digits per byte |
| ConversationKey.HexStringExactly | src/lib/util.cc:29-33 | the digits of each byte, high half first, from the alphabet 0123456789abcdef |
| ConversationKey.LowerAddressFirst | src/lib/conversation_factory.cc:183-195 | the key is the text of both end points, that with the lower address first, whichever sent the packet |
| ConversationKey.LowerPortFirst | src/lib/conversation_factory.cc:184-190 | with equal addresses it is that with the lower port |
| ConversationKey.GenerateKeyInjective | src/lib/conversation_factory.cc:16-20 | a key can be split into its addresses and ports in one way only |
| ConversationKey.KeyExactly | src/lib/conversation_factory.cc:171-196 | two packets have the same key if and only if they have the same two end points, in either direction, for all address lengths |
| ConversationStore.TypedConversationStore.AddTargetTestServer | src/include/conversation_store.h:112-116 | the server is filed under its key and replaces one already there |
| ConversationStore.TypedConversationStore.FindServer | src/include/conversation_store.h:80-88 | the loop finds the first configured key of the packet's source |
| ConversationStore.ConfiguredExactly | src/lib/conversation_factory.cc:159-169 | a source is configured by its address, a colon and its port in decimal, or by its address; the first of these decides the server |
| ConversationStore.TypedConversationStore.GetConversation | src/include/conversation_store.h:69-99 | gives the conversation of the packet's key, newly created if the packet may start one, and changes no other conversation |
| ConversationStore.TypedConversationStore.HandlePacket | src/lib/capture.cc:89-94 | one packet on the store is `StepStore`: only the conversation of its key processes it |
| ConversationStore.KeysAreIsolated | src/include/conversation_store.h:69-99 | each conversation is what a fresh one makes of the packets with its key alone, from its creation on |
| ConversationStore.ConfiguredConversations | src/include/conversation_store.h:78-95 | with target servers, a conversation exists exactly from the first packet of its key for whose source the text of address and port, or of the address, is configured |
| ConversationStore.OnlyConversation | src/include/conversation_store.h:90 | without target servers there is exactly one conversation, that of the very first packet |
| ConversationStore.PortHasPrecedence | src/include/conversation_store.h:78-95 | the server that a conversation goes to is decided by its first packet from a configured source: the one configured for the text of address, colon and port of that source, else the one for its address |
| InputStream.InStream.GetInto | src/lib/conversation_serializer.cc:156-157 | `get` with a delimiter fills the buffer with the text before it, up to the limit, leaves the delimiter, and sets eofbit exactly when that reaches the end |
| TagScan.CollapseKeepsEnd | src/lib/conversation_serializer.cc:167 | the last twelve bytes that the scan carries decide whether the input ends in the tag |
| TagScan.ReadBlock | src/lib/conversation_serializer.cc:155-168 | a block read behind the carried bytes: all but the last twelve bytes go to the data |
| TagScan.BlockTurn | src/lib/conversation_serializer.cc:152-168 | the block part of a turn keeps the window invariant, or ends the scan as it has to |
| TagScan.DelimiterTurn | src/lib/conversation_serializer.cc:170-188 | the delimiter part of a turn keeps the window invariant, or ends the scan as it has to |
| TagScan.ReadActionData | src/lib/conversation_serializer.cc:138-192 | for every input and every buffer of at least 256 bytes: the bytes before the first end tag with runs of `>` shortened to one, and the stream right after the tag; without end tag everything but the last twelve bytes, or an exception exactly when `>` is last; outside the buffer exactly when `>` or the end is among the first twelve bytes |
| TagScan.UntaggedExactly | src/lib/conversation_serializer.cc:138-192 | text without any `>` comes back without its last twelve bytes, with a `>` after it that ends no tag it is an exception, and less than twelve bytes leave the buffer |
| SubTokens.CreateAction | src/lib/conversation_serializer.cc:336-363 | the action keeps its type and data and has the tokens of the leftmost scan, and the loop ends |
| SubTokens.ScanIsTokenList | src/lib/conversation_serializer.cc:345-360 | the intervals are ordered, disjoint and in bounds, each runs from a prefix to the first later suffix, and no prefix with a later suffix is left out |
| SubTokens.TokenListIsUnique | src/lib/conversation_serializer.cc:345-360 | there is only one such list of intervals |
| SubTokens.TextExactly | src/lib/conversation_serializer.cc:352 | the text of a token begins after the prefix and is as long as the position of the suffix says, as far as the data has that |
| SubTokens.TextIsNeverTheName | src/lib/conversation_serializer.cc:352 | the text of a token begins with its name and the suffix, so it is never the name |
| Properties.PropertyStore.PutText | src/lib/properties.cc:8-22 | a line with a colon sets one property and others are ignored, as `PutLine` |
| Properties.PropertyStore.WriteTo | src/lib/properties.cc:24-29 | the loop writes one line per key in the order of iteration |
| Properties.TrimExactly | src/lib/util.cc:38-56 | `trim` changes nothing exactly when there is no white space at an end |
| Properties.LineSurvivesExactly | src/lib/properties.cc:8-22 | a written line is read back exactly when the key has no colon and key and value are trimmed |
| Properties.LineRead | src/lib/properties.cc:8-22 | any line with a colon: the texts before and after the first one, without the white space around them |
| Properties.LineWithoutColon | src/lib/properties.cc:9-12 | a line without one is ignored |
| Properties.EveryOrderReadsBack | src/lib/properties.cc:8-29 | whatever the order of iteration, reading back what was written gives the same map |
| Script.TypeOf | src/lib/conversation_serializer.cc:75-94 | a name is recognised exactly when it is the written name of an action type |
| Script.NamesExactly | src/lib/conversation_serializer.cc:60-73 | the four names, as they are written |
| Script.DetectBinary | src/lib/conversation_serializer.cc:251-256 | data is binary exactly when it has at least 50 bytes and one of the last 49 is neither printable nor white space |
| Script.WriteActionTo | src/lib/conversation_serializer.cc:242-272 | the written text is type, encoding when binary, tags and data or base64 |
| Script.WriteScript | src/lib/conversation_serializer.cc:276-282 | the actions are written one after the other, each after a separator |
| Script.WrittenExactly | src/lib/conversation_serializer.cc:242-272 | the written text character by character: data as it is if it has less than 50 bytes or its last 49 are in 9 to 13 or 32 to 126, else the encoding line and base64 |
| Script.SeparatorExactly | src/lib/conversation_serializer.cc:276-282 | an empty line, thirty number signs and another empty line before each action |
| Script.CollapseExactly | src/lib/conversation_serializer.cc:170-181 | the scan loses nothing exactly when no two delimiters are next to each other |
| Script.ScanExactly | src/lib/conversation_serializer.cc:138-192 | scanning written data gives it back and stops after its tag if and only if the data is not empty, has no delimiter in its first twelve bytes, no two in a row and no tag |
| Script.EncodedSurvives | src/lib/conversation_serializer.cc:263-266 | base64 text always survives the scan |
| Script.WrittenActionExactly | src/lib/conversation_serializer.cc:194-272 | reading a written action, whatever follows, gives it back if and only if it survives |
| Script.ScriptRoundTripExactly | src/lib/conversation_serializer.cc:194-283 | reading the script of any list of actions gives the list back if and only if every action survives |
| Script.EmptyNeverSurvives | src/lib/conversation_serializer.cc:166 | an action without data is never read back: the scan leaves its buffer |
| Script.ReadText | src/lib/conversation_serializer.cc:205-211 | the next line that is neither blank nor a comment, trimmed |
| Script.CommentsSkipped | src/lib/conversation_serializer.cc:36-58 | white space, and a comment that starts with `#` after it, are skipped |
| Script.UnknownTypeThrows | src/lib/conversation_serializer.cc:75-94 | a line that counts and is none of the four names makes reading fail, whatever follows |
| Script.NameAlone | src/lib/conversation_serializer.cc:194-239 | a name and nothing after it is an action without data, whether or not its line ends |
| Script.StartTagAtEnd | src/lib/conversation_serializer.cc:138-166 | a script that ends with the start tag itself makes reading fail |
| Script.OnePropertyRead | src/lib/conversation_serializer.cc:213-234 | of one property before the data, only the value BASE64 of Encoding makes a difference; data that is no base64 then makes reading fail |
| Script.ReadPropertyLines | src/lib/conversation_serializer.cc:213-225 | the lines up to the start tag become properties |
| Script.ReadActionsFrom | src/lib/conversation_serializer.cc:194-240 | the reading loop on any stream, with any buffer of at least 256 bytes, gives exactly the actions that `ReadActions` finds in the text, or ends as it does |
| RecordedScripts.RecordedDataOk | src/lib/tcp_conversation.cc:80-118 | in a recorded queue exactly the CONNECTs and CLOSEs have no data |
| RecordedScripts.RecordedScriptNeverReadsBack | src/lib/conversation_serializer.cc:138-283 | reading the script of any non-empty recorded queue leaves the buffer of the tag scan |
| Base64.SentinelFindsBadCharacter | src/include/base64.h:602-612 | the one test on the OR of the table words finds a bad character exactly when there is one, for groups of four, three and two |
| Base64.WordIsGroup | src/include/base64.h:607-622 | otherwise the low bytes of the OR are the 24-bit group of the four sextets |
| Base64.EncodeInto | src/include/base64.h:497-556 | the loop and the switch fill the buffer of padding characters with `Encode`, exactly |
| Base64.LettersExactly | src/include/base64.h:454-492 | the letters are those of table 1 of RFC 4648 in its order, and the padding is the equals sign |
| Base64.GroupsExactly | src/include/base64.h:515-548 | the letters of one to three bytes are the runs of six bits of their 24-bit number from the front, filled up with zeros and padding |
| Base64.DecodeInto | src/include/base64.h:568-680 | the loop and the switch give `Decode`, in bounds, and throw exactly when it has no value |
| Base64.DecodeInvertsEncode | src/include/base64.h:497-680 | decoding inverts encoding for every byte sequence |
| Base64.AcceptsExactly | src/include/base64.h:574-588 | a text is accepted exactly when its length is a multiple of four and it is letters but for at most two padding characters at its end |
| Base64.EncodesBackExactly | src/include/base64.h:568-680 | a decoded text is encoded back to itself exactly when its unused bits are zero |
| Base64.FromInvertsTo | src/include/base64.h:563-565 | the same round trip for the text functions |
| Base64.EncodedHasNoDelimiter | src/include/base64.h:563-565 | encoded text has no `>` |
| Dns.Reader.SkipNameHere | src/python/dns.py:48-58 | the loop over labels moves the reader as `SkipName`, or throws with it |
| Dns.Reader.TakeTtl | src/python/dns.py:22-26 | one record: the offset taken for its TTL, and the skip by the length read there |
| Dns.Reader.TakeTtls | src/python/dns.py:21-26 | the offsets of all records, or an exception |
| Dns.CompareApart | src/python/dns.py:29-42 | the loop of slices is `SameApart` |
| Dns.ValidateMessage | src/python/dns.py:5-42 | the whole of `validate` is `Validate`, including when it throws |
| Dns.WindowsNeverOverlap | src/python/dns.py:21-26 | whatever the bytes of the message, the windows are in order, do not overlap and begin inside it |
| Dns.SameApartExactly | src/python/dns.py:29-42 | for any such windows the loop accepts exactly the messages that agree outside them and whose length fits |
| Dns.ValidatesExactly | src/python/dns.py:5-42 | so does `validate`, with the windows it finds |
| Dns.ValidatesLengthExactly | src/python/dns.py:42 | `validate` is "same length, same bytes outside the windows" for every other message if and only if the last window ends before the message does |
| DnsMessages.SkipsEncodedName | src/python/dns.py:48-58 | `skip_name` ends just past any encoded name, plain or ending in a pointer |
| DnsMessages.CutNameThrows | src/python/dns.py:48-58 | a message that ends inside a name throws, unless only the second byte of a pointer is missing |
| DnsMessages.CutRecordThrows | src/python/dns.py:22-26 | one that ends inside a record throws if and only if less than two bytes of the TTL are there |
| DnsMessages.MessageTtlsFound | src/python/dns.py:5-27 | the TTLs of an encoded message are found if and only if `skip_name`, from each place where the length read from a TTL leads, ends where the name of the next record ends |
| DnsMessages.LedOnLands | src/python/dns.py:21-26 | so always with at most one record, and when in every record but the last the high half of the TTL is the length of the data plus four |
| DnsMessages.EarlyEndMisses | src/python/dns.py:25 | never when some record but the last has a TTL below 256, or from 16384 to 65535, whatever the names and data; then some message is misjudged |
| DnsMessages.MessageValidatesExactly | src/python/dns.py:5-42 | `validate` accepts exactly the same message with any TTLs, for every other message, if and only if the reader lands on every record in that way |
| DnsMessages.SecondTtlMissed | src/python/dns.py:25 | an example of that: two records, where exactly the messages with the same second TTL are accepted, whatever type and class the second record has |

## Left out

- pcap files, data links, `getopt`, `main` and the printing of messages: plumbing around what is modelled.
- `network_layers.h` and `transport_packet.h`: casts over packed headers; a packet is a record of addresses, ports, flags and payload.
- `inet_pton`, `inet_ntop`, `getaddrinfo` and the parsers of client specifications: library calls that cannot be seen; `AddTargetTestServer` takes the parsed key and server, and a packet carries the text of its source address.
- `write_headers` and `ConversationSerializer::read`: the written header lacks the address that the reader asks for, so there is no file-level round trip; everything about scripts is about lists of actions.
- `PacketValidator` with sub-tokens, `python_api`, `udp_replay`, `UdpConversation`: foreign calls or one-branch recording; a UDP packet is still seen by the store and ignored by the TCP conversation.
- Big-endian base64 tables; the little-endian and the encoding tables are given by the rule that their entries follow and not as 256 literals.
- Lengths are unbounded integers: buffers of 2^31 bytes and more, where the `int` counters of the code wrap, are not modelled (chunk sizes, content lengths and status codes are wrapped as in the code).
- `isspace`, `isprint` and `tolower` are those of the "C" locale.
- Chunk extensions and trailers: the corrected decoder does not support them either; the code as it is skips two bytes after the digits whatever they are, which `SizeTurn` keeps.
- Where CONNECT connects to: the address and port of the test server, or of the captured server when there is none, and the address family; the entry of the store keeps the server, and `ConnectSocket` is `socket` and `connect` together.
- The order of destruction, ownership and what is left in an object after an exception: the program ends there.
- The dynamic type of `data_processor_`: two nullable references of which at most one is set.
- `memcpy` between overlapping parts of the scan buffer is modelled as a move.
- The `socket_` of `TcpConversation` is always -1 and is left out.
- ChunkedCuts.CutsDecodedExactly: for pieces where what follows the first bad cut misleads the code, the sufficient direction only (`PiecesDecode`); a bad cut can then come out right, as `BadCutComesOutRight` and `CrlfAfterEndComesOutRight` show, or wrong later on.
- ChunkedCuts.EarlyBadCutFails: asks that no CR follows the body; `CrlfAfterEndComesOutRight` shows why.
- ChunkedCuts.ShortChunksDecodedExactly: the same, and that sizes have no leading zeros, since more of a longer size line can be kept.
- ChunkedCuts.NeverMisled: the same.
- HttpCorrectness.ChunkedCutsExactly: the same.
- The tokens that `create_action` finds are not kept in the actions of a script that is read; nothing that is modelled looks at them.
- `istream::get` sets eofbit when it reaches the end of the stream with the last character it may store, as the GNU library does.
- ReplayVerdict.ExchangeVerdict: asks that both responses come in pieces the code as it is copes with; pieces on which the decoder does not return stop the replay (`CapturedStops`, `LiveStops`, and in both directions `LengthExchangeGoesExactly`). A chunked response that the decoder reads wrongly, but reads, is compared as it was read, and nothing is stated about that.
