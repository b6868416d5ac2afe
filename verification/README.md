# rcom: a model of the WebSocket stack of librcom

librcom carries its own implementation of RFC 6455. A client and a server written in the same
repository have to understand each other, over sockets that may fail at any byte, with several
threads on one connection, and with a hand-unrolled SHA-1 in the opening handshake. This project
models that stack in Dafny, in the form of the C++: classes whose methods update their fields,
loops over buffers, and pure functions where the code is pure. Each method is proved against a
specification function, and what librcom and the RFC promise is proved about these functions.

`dafny verify dfyconfig.toml` checks everything.

## How it is laid out

| file | contents |
|---|---|
| `Wrappers.dfy`, `Octets.dfy` | optional values; bytes, network order, `htons` and `htobe64` on a little-endian host |
| `Transport.dfy` | what the operating system may do: a socket, a clock, sleep; exceptions as `Try` |
| `Sha1Standard.dfy` | SHA-1 as sections 4.1.1, 5.1.1 and 6.1.2 of FIPS 180-4 define it |
| `Sha1Numbers.dfy` | the operations and constants of that definition, said again in numbers |
| `Sha1.dfy`, `Sha1Context.dfy` | the unrolled compression and the streaming context of `sha1.cpp` |
| `Base64.dfy` | `encode_base64` and an independent decoder |
| `Masking.dfy`, `Frames.dfy` | masking, frame headers, frames as section 5.2 of RFC 6455 draws them |
| `LooseFrames.dfy` | which bytes are taken for a frame, beyond what that section allows |
| `Messages.dfy`, `Runs.dfy` | fragments to messages, streams of messages, whole histories |
| `WireBytes.dfy` | the bytes of frames and the refusals, said again in literal numbers |
| `Closing.dfy`, `WebSocket.dfy` | `close_connection` of the client; the class `WebSocket` with its two subclasses, every path of `recv`, `send`, `close` |
| `Polling.dfy` | calls of `recv` in a row, some of which end before a message has come in |
| `WireProtocol.dfy` | threads that share one `WebSocket` |
| `Conversation.dfy` | what one side has sent is what the other side reads; the closing handshake of both; the record of a `WebSocket` as a state of `WireProtocol` |
| `HttpSyntax.dfy`, `HttpHeaders.dfy`, `StatusCode.dfy` | the state machine of `HttpParser` as a table, header lines, `strtol` |
| `FirstLines.dfy` | request and status lines, and with them all that the parser accepts |
| `HttpGrammar.dfy` | where the parser's characters differ from the grammar of RFC 2616 |
| `HttpMessages.dfy`, `HttpParser.dfy` | `Request`, `Response`, and the parser classes |
| `Handshake.dfy` | the opening handshake of both sides |
| `WebSocketServer.dfy` | the server and its links, which are `WebSocket` objects |
| `Registry.dfy` | the registry of topics |
| `BaseSocket.dfy` | the `read` and `write` loops over `recv` and `send` |

A subclass is a test of `side` or `kind` where the C++ makes a virtual call. An exception is a
result: `RecvError` carries its close code, `SleepError` is the exception of `rcom_sleep`.
A `WebSocket` carries a ghost record `sent` of the frames it has put on the wire and a ghost history
`events` of the recv calls that have begun and the data frames that were accepted. `Valid` ties the
record to the bytes of the socket and the history to `is_text_` and `is_continuation_`, and says that
only the last frame can be partial or a close frame, and that the socket is closed once it is. The
socket and the clock count what goes wrong around the program: failed calls, waits without data,
deadlines that have passed, interrupted sleeps. Contracts use these counts to say that a call that does
less than it was asked for had a reason to: a timeout means that a deadline has passed, an error that
the stream does not explain means that the socket failed a call.

A few small functions stand on both sides of such a proof: the code calls them, and so does its
specification. What these compute is said a second time without them. `Sha1Numbers.dfy` has the
rotations, sums and bytes of words as numbers, and the constants as roots; `WireBytes.dfy` has the
bytes of every printed frame, the answer to a close frame, and which bytes are refused with which
code. `HttpMessages` and `StatusCode` say the same of headers and codes, `HttpGrammar` of characters,
`Base64` of its alphabet and its groups of six bits.

## What is true only under a condition

These are places where the code does not do what its documentation or an RFC asks. The model keeps
the code, and the condition is proved to be exact.

* A payload of exactly 65536 bytes is announced with length 0 (`Frames.PrintsRfcExcept65536`,
  `Frames.Reads65536AsEmpty`, `Frames.PrintRoundTrip`); a stream of messages survives if and only if no
  length is 65536 or over 128 MB (`Runs.StreamRoundTrip`).
* `recv` clears the caller's buffer while `is_continuation_` survives, so that a message that is cut by
  the end of a call loses what that call had collected; it arrives whole if and only if that was
  nothing (`Runs.CutMessage` on histories, `Polling.Poll` on the class and the wire).
* An exception of `rcom_sleep` can leave a client with the socket open behind a close frame; a
  second close frame can follow. The wire is safe in all runs if and only if it cannot
  (`WireProtocol.SafeExactly`). In the class the flag `escaped` is set then, and only then.
* `BaseSocket::read` takes the error value -1 for a count. For every script of kernel answers and every
  length, `BaseSockets.PromiseExactly` says exactly when the promise of ISocket is kept on all streams;
  `BaseSockets.FirstErrorReadsNothing` is the plainest way to break it.
* `SHA1Update` adds the offset in the buffer and the length in 32 bits. Its copies stay inside the
  buffer if and only if that sum does not wrap around (`Sha1Context.CopyFits`,
  `Sha1Context.CopyOverruns`).
* `SHA1Update` keeps the low 32 bits of the length. Cutting the input makes no difference if and only if
  no such cast drops bytes that the other way keeps (`Sha1Context.SplitExactly`,
  `Sha1Context.SplitContexts`).
* The answer to a close frame carries a code that section 7.4.1 of RFC 6455 forbids on the wire if and only
  if the payload was not two bytes long, which is answered with 1005, or held such a code itself, which
  is echoed (`Messages.AnswerForbidden`, `Messages.ForbiddenAnswers`).
* A frame is read whatever its RSV bits, in any of the three forms of the length, and when it is a
  control frame also without FIN and with more than 125 bytes; exactly these frames are
  (`LooseFrames.ReadExactly`), and section 5.2 of RFC 6455 allows exactly one dress of each
  (`LooseFrames.RfcExactly`). A pong breaks the 125-byte limit of section 5.5 if and only if the ping
  has (`Messages.PongOverLimit`).
* An empty reason phrase, which section 6.1 of RFC 2616 allows, takes the first header line for the
  reason (`FirstLines.EmptyReasonTakesHeader`; `FirstLines.ResponsesExactly` says what is accepted).
* Token characters are those of section 2.2 of RFC 2616 except for `"`, `'` and the bytes above 127, and
  header names are accepted accordingly (`HttpGrammar.TokenExactly`, `HttpGrammar.NameExactly`,
  `HttpGrammar.HeaderNameExactly`).

## Model

| member | source | states |
|---|---|---|
| Sha1.ScheduleIsSchedule | librcom/src/sha1.cpp:64-65 | the recursive schedule of FIPS 180-4 satisfies the recurrence at every index, which is what the ring is compared with |
| Sha1.RingStep | librcom/src/sha1.cpp:53-65 | overwriting one of 16 words keeps the ring equal to a sliding window of the 80-word schedule, for every round |
| Sha1.SwapLoads | librcom/src/sha1.cpp:55-57 | the two rotations and masks turn a little-endian load into the big-endian word |
| Sha1.Blk0 | librcom/src/sha1.cpp:55-57 | yields schedule word i and leaves the ring one step on |
| Sha1.Blk | librcom/src/sha1.cpp:64-65 | with indices mod 16, yields schedule word i and leaves the ring one step on |
| Sha1.AccumulateIsSum | librcom/src/sha1.cpp:68-72 | the sum that the macros build up is T of section 6.1.2, mod 2^32 |
| Sha1.ChooseIsCh | librcom/src/sha1.cpp:68-69 | `((w&(x^y))^y)` is Ch of section 4.1.1 |
| Sha1.MostIsMaj | librcom/src/sha1.cpp:71 | `(((w\|x)&y)\|(w&x))` is Maj of section 4.1.1 |
| Sha1Numbers.RotationsAre | librcom/src/sha1.cpp:51 | the rotations by 1, 5 and 30 are the rotations of bit vectors |
| Sha1Numbers.ExpandIs | librcom/src/sha1.cpp:64-65 | a schedule word is the sum of its four words, each rotated by one, bit by bit |
| Sha1Numbers.PlusIs | librcom/src/sha1.cpp:68-72 | adding words is adding the numbers they stand for, mod 2^32 |
| Sha1Numbers.Sum5Is | librcom/src/sha1.cpp:68-72 | T of section 6.1.2 is the sum of five numbers, mod 2^32 |
| Sha1Numbers.NumIsInjective | librcom/src/sha1.cpp:68-72 | words that stand for the same number are the same word |
| Sha1Numbers.ChIs | librcom/src/sha1.cpp:68-69 | Ch takes its bits from y where x has ones, and from z elsewhere |
| Sha1Numbers.MajIs | librcom/src/sha1.cpp:71 | Maj has the bits that two of the three words have |
| Sha1Numbers.ParityIs | librcom/src/sha1.cpp:70 | Parity has the bits that one or all three words have |
| Sha1Numbers.ConstantsAre | librcom/src/sha1.cpp:68-72 | the round constants are 2^30 times the roots of 2, 3, 5 and 10, rounded down, and the initial value has its twenty bytes |
| Sha1Numbers.WordIs | librcom/src/sha1.cpp:55-57 | four bytes of a block stand for their number in network order |
| Sha1Numbers.WordByteIs | librcom/src/sha1.cpp:190-193 | the byte shifted out of a word is that byte of its number |
| Sha1Numbers.PadIs | librcom/src/sha1.cpp:175-186 | the padding is the shortest that ends a block: the message, 0x80, zeros, and eight bytes that read as the number of bits |
| Sha1.R0 | librcom/src/sha1.cpp:68 | one round of section 6.1.2 for t below 16, whatever the variables are called |
| Sha1.R1 | librcom/src/sha1.cpp:69 | one round of section 6.1.2 for t in 16..19 |
| Sha1.R2 | librcom/src/sha1.cpp:70 | one round of section 6.1.2 for t in 20..39 |
| Sha1.R3 | librcom/src/sha1.cpp:71 | one round of section 6.1.2 for t in 40..59 |
| Sha1.R4 | librcom/src/sha1.cpp:72 | one round of section 6.1.2 for t in 60..79 |
| Sha1.Rounds00 | librcom/src/sha1.cpp:94-96 | the first ten unrolled calls with rotated names are the first ten rounds |
| Sha1.Rounds10 | librcom/src/sha1.cpp:96-98 | the unrolled calls 10 to 19 with rotated names are those rounds |
| Sha1.Rounds20 | librcom/src/sha1.cpp:99-101 | the unrolled calls 20 to 29 with rotated names are those rounds |
| Sha1.Rounds30 | librcom/src/sha1.cpp:101-103 | the unrolled calls 30 to 39 with rotated names are those rounds |
| Sha1.Rounds40 | librcom/src/sha1.cpp:104-106 | the unrolled calls 40 to 49 with rotated names are those rounds |
| Sha1.Rounds50 | librcom/src/sha1.cpp:106-108 | the unrolled calls 50 to 59 with rotated names are those rounds |
| Sha1.Rounds60 | librcom/src/sha1.cpp:109-111 | the unrolled calls 60 to 69 with rotated names are those rounds |
| Sha1.Rounds70 | librcom/src/sha1.cpp:111-113 | the last ten unrolled calls end in the working variables after round 80 |
| Sha1.Transform | librcom/src/sha1.cpp:75-123 | for every state and block the state becomes the compression of section 6.1.2 |
| Sha1Context.HashAppend | librcom/src/sha1.cpp:141-165 | hashing in pieces, cut at a block boundary, is hashing the whole |
| Sha1Context.CountAdds | librcom/src/sha1.cpp:147-150 | the two-word count with its carry is the bit count mod 2^64 after any Update |
| Sha1Context.CountGivesOffset | librcom/src/sha1.cpp:151 | the offset in the buffer is the number of bytes so far mod 64 |
| Sha1Context.CountBytes | librcom/src/sha1.cpp:175-179 | the eight bytes cut out of the count words are the bit count in network order |
| Sha1Context.PaddingStep | librcom/src/sha1.cpp:181-186 | the padding loop stops exactly at the number of zeros of section 5.1.1, for every length |
| Sha1Context.DigestAt | librcom/src/sha1.cpp:190-193 | every digest byte is that byte of the five words in network order |
| Sha1Context.Context.constructor | librcom/src/sha1.cpp:127-137 | a fresh context has absorbed nothing |
| Sha1Context.Context.CountBits | librcom/src/sha1.cpp:147-150 | after any length the two words hold the bit count of all bytes so far |
| Sha1Context.Context.MoreBlocks | librcom/src/sha1.cpp:156-158 | every whole block that is left is compressed, and no more |
| Sha1Context.Context.CompressBlocks | librcom/src/sha1.cpp:153-159 | the open block is filled up, and the state is that of everything given so far |
| Sha1Context.Context.FinalCount | librcom/src/sha1.cpp:175-179 | the bit count as eight bytes in network order |
| Sha1Context.Context.PadBlock | librcom/src/sha1.cpp:181-186 | the loop ends having added 0x80 and the zeros of section 5.1.1 |
| Sha1Context.Context.StoreDigest | librcom/src/sha1.cpp:190-193 | the five words in network order |
| Sha1Context.Context.Update | librcom/src/sha1.cpp:141-165 | for every length: the copies fit if and only if the offset and the low 32 bits of the length do not wrap around, and then m followed by these bytes is absorbed, at any split |
| Sha1Context.Context.Absorb | librcom/src/sha1.cpp:153-164 | blocks and copies leave a context that has absorbed m followed by the bytes |
| Sha1Context.CopyFits | librcom/src/sha1.cpp:153-164 | every copy stays inside the 64-byte buffer if and only if offset and length add up to less than 2^32 |
| Sha1Context.CopyOverruns | librcom/src/sha1.cpp:153-164 | with offset 1 and length 2^32 - 1 it does not |
| Sha1Context.Context.Final | librcom/src/sha1.cpp:169-198 | writes the digest of section 6.1.2 of everything absorbed, and wipes the context |
| Sha1Context.SameBytesSameContext | librcom/src/sha1.cpp:141-165 | contexts that have absorbed the same bytes agree in state, count and live buffer |
| Sha1Context.SplitExactly | librcom/src/sha1.cpp:143 | Update(a) then Update(b) absorb what Update(a+b) absorbs, for all contents of these lengths, if and only if no cast to 32 bits drops bytes that the other way keeps |
| Sha1Context.SplitContexts | librcom/src/sha1.cpp:141-165 | after any m, with a and b below 2^32 bytes, the two ways leave the same count if and only if a+b is below 2^32 bytes, and then the same state and live buffer |
| Sha1Context.HashString | librcom/src/util.cpp:32-38 | SHA1 of a string is the FIPS 180-4 digest of its first (length mod 2^32) bytes |
| Base64.Encode | librcom/src/util.cpp:40-96 | the loop's output is decoded to the input by an independent decoder, and has length 4*ceil(n/3) |
| Base64.RoundTrip | librcom/src/util.cpp:40-96 | a decoder of section 4 of RFC 4648 inverts the encoding of every byte string |
| Base64.EncodedShape | librcom/src/util.cpp:57-95 | letters, then as many `=` as the length asks for, at every length |
| Base64.EncodedIsRecognised | librcom/src/util.cpp:108-111 | every encoding of a non-empty string matches the regular expression of is_base64_string |
| Base64.EncodedIsInjective | librcom/src/util.cpp:40-96 | two inputs have the same encoding if and only if they are equal |
| Base64.TableIs | librcom/src/util.cpp:42-51 | for each of the 64 values the letter that section 4 of RFC 4648 gives it |
| Base64.GroupsAre | librcom/src/util.cpp:63-94 | the letters are those of the four groups of six bits, from the most significant on |
| Base64.RecognisedExactly | librcom/src/util.cpp:108-111 | recognised if and only if the string is one or more letters and then at most two `=` |
| Masking.MaskTwice | librcom/src/ServerSideWebSocket.cpp:117-127 | unmasking recovers every payload for every key |
| Masking.MaskRestarts | librcom/src/ClientSideWebSocket.cpp:204-229 | the key may be restarted after any multiple of four bytes |
| Masking.MaskRestartMatters | librcom/src/ClientSideWebSocket.cpp:204-229 | restarting the key behind any bytes is right if and only if the key is the same from there on as far as the block reaches |
| Masking.BlocksAreWhole | librcom/src/ClientSideWebSocket.cpp:204-222 | masking in blocks of 1024 bytes is masking once, for every length |
| Masking.ApplyMask | librcom/src/WebSocket.cpp:607-614 | the loop masks the first bytes, also in place, and leaves the rest alone |
| Masking.XorIs | librcom/src/WebSocket.cpp:607-614 | the bits that exactly one of the two bytes has |
| Masking.MaskedIs | librcom/src/WebSocket.cpp:607-614 | byte i on the wire has the bits that exactly one of byte i and key byte i mod 4 has; zeros show the key |
| Octets.SwappedLoad | librcom/src/WebSocket.cpp:205-222 | a load followed by ntohs or be64toh reads the number in network order |
| Octets.SwappedBytes | librcom/src/ClientSideWebSocket.cpp:177-192 | htons or htobe64 followed by byte shifts prints network order on a little-endian host |
| Octets.BigEndianReads | librcom/src/WebSocket.cpp:205-222 | reading back the printed length gives the length, whenever it fits |
| Frames.RfcRoundTrip | librcom/src/WebSocket.cpp:177-285 | any frame printed as section 5.2 draws it is read back, and exactly its bytes; only a payload over 128 MB is refused |
| Frames.PrintsRfcExcept65536 | librcom/src/ClientSideWebSocket.cpp:163-202 | the printed frame is that of section 5.2 if and only if the length is not 65536, for both sides |
| Frames.Reads65536AsEmpty | librcom/src/ServerSideWebSocket.cpp:142-148 | what the peer reads in place of a payload of 65536 bytes |
| Frames.PrintRoundTrip | librcom/src/ServerSideWebSocket.cpp:110-174 | one side reads back what the other prints, all and no more, if and only if the length is neither 65536 nor over 128 MB |
| LooseFrames.DressedReads | librcom/src/WebSocket.cpp:170-285 | a frame is read with any RSV bits, any form of the length that can hold it and any key, final or not, short or not |
| LooseFrames.ReadExactly | librcom/src/WebSocket.cpp:170-285 | bytes are read as a frame if and only if they begin with that frame in some such dress, of a known opcode and at most 128 MB |
| LooseFrames.RfcExactly | librcom/src/WebSocket.cpp:177-222 | the dress of section 5.2 is the one without RSV bits in the shortest form |
| WireBytes.PartsAre | librcom/src/WebSocket.cpp:205-222 | a number in network order, cut anywhere, is the front part times a power of 256 plus the rest |
| WireBytes.LengthBytes | librcom/src/ServerSideWebSocket.cpp:129-174 | mask bit and length as numbers, in one, three or nine bytes |
| WireBytes.PrintedBytes | librcom/src/ClientSideWebSocket.cpp:163-222 | the whole frame: 128 plus the opcode, the length, the key of a client, and the payload byte by byte |
| WireBytes.HelloIsPrinted | librcom/src/ClientSideWebSocket.cpp:163-222 | "Hello" from either side is printed as in section 5.7 of RFC 6455 |
| WireBytes.HeaderNumbers | librcom/src/WebSocket.cpp:177-222 | flags, opcode, length, key and size of the header, from the numbers in its bytes |
| WireBytes.ReadsExactly | librcom/src/WebSocket.cpp:177-294 | for all bytes: too few are refused with 1011, a wrong mask bit or an unknown opcode with 1002, a length over 134217728 with 1009, in this order, and all others are read |
| WireBytes.KindsAre | librcom/src/WebSocket.cpp:310-322 | of the known opcodes, those from 8 on are control frames, and those up to 2 are data frames |
| WireBytes.AcceptsExactly | librcom/src/WebSocket.cpp:478-524 | a data frame is refused with 1002 if it does not fit in, else with 1009 over 134217728 bytes, else it is taken |
| WireBytes.ProcessesExactly | librcom/src/WebSocket.cpp:296-370 | what opcodes 8, 9 and 10 do, and that all others are data |
| WireBytes.AnswerBytes | librcom/src/WebSocket.cpp:378-408 | the payload of the answer to a close frame is its own if that is two bytes, and 03 ED otherwise |
| WireBytes.CloseBytes | librcom/include/rcom/WebSocketConstants.h:38-110 | the close codes as the two bytes in a close frame |
| WireBytes.CloseIsPrinted | librcom/src/WebSocket.cpp:393-408 | a close frame with 1000, byte by byte |
| Octets.BigEndianWrites | librcom/src/WebSocket.cpp:205-222 | what has been read as a number in network order prints as the same bytes |
| Messages.ReceiveFrame | librcom/src/WebSocket.cpp:94-119 | what one frame of the peer does to any assembly, in every case |
| Messages.Reassembly | librcom/src/WebSocket.cpp:469-524 | any fragmentation with any pings and pongs in between is delivered whole, with the type of its first frame and one pong per ping, or refused as too big |
| Messages.ReceiveClose | librcom/src/WebSocket.cpp:372-391 | a close frame ends the call with its code, whatever has been assembled |
| Messages.ToCloseWire | librcom/src/WebSocket.cpp:437-455 | the wait for the answer drops every frame in front of the close frame and ends right behind it |
| Messages.PongOverLimit | librcom/src/WebSocket.cpp:457-462 | a pong carries the payload of the ping and is over the limit of section 5.5 of RFC 6455 if and only if the ping was |
| Messages.AnswerForbidden | librcom/src/WebSocket.cpp:378-391 | the code of the answer is forbidden on the wire if and only if there were not two bytes to echo or they were such a code |
| Messages.ForbiddenAnswers | librcom/src/WebSocket.cpp:378-385 | an empty close frame is answered with 1005, and 1006 is echoed |
| Runs.StreamRoundTrip | librcom/src/WebSocket.cpp:94-119 | any sequence of messages one side sends is what the other side receives, with no byte left over or shared, if and only if no length is 65536 or over 128 MB |
| Runs.HistoryAccepted | librcom/src/WebSocket.cpp:478-524 | over any history of calls and frames, the frames are accepted if and only if they are well fragmented and at most 128 MB; is_continuation_ is then exactly "the last was not final" and the buffer what the call has collected |
| Runs.AlongReceives | librcom/src/WebSocket.cpp:94-119 | after any number of frames of a call, exactly their bytes are gone and the rest of the stream brings what the whole would have brought |
| Runs.AlongPlays | librcom/src/WebSocket.cpp:94-119 | the assembly of a running call is that of the history it has written |
| Runs.CutMessage | librcom/src/WebSocket.cpp:76-92 | on histories: what a message cut by the beginning of another recv call becomes; it is whole if and only if nothing had been collected |
| Conversation.PeerReads | librcom/src/WebSocket.cpp:170-175 | everything on record as sent is read by the other side, frame by frame, in order |
| Conversation.RecordAnswers | librcom/src/WebSocket.cpp:437-455 | whatever a side has sent before it, its close frame ends the wait of the other side |
| Conversation.ClosingHandshake | librcom/src/WebSocket.cpp:372-455 | the close frame of one side reaches the other with its code, the answer carries that code, and it ends the wait |
| Conversation.CloseAnswered | librcom/src/WebSocket.cpp:415-455 | close with an answering peer reads up to the answer and nothing behind it, unless the socket fails or the deadline is reached |
| Conversation.RecordIsLog | librcom/src/WebSocket.cpp:631-661 | the record of a socket and the log of the thread model describe the same bytes and mean the same by order |
| Conversation.ValidIsInvariant | librcom/src/WebSocket.cpp:59-92 | a socket between calls is a state in which the invariant of the thread model holds |
| Polling.AlongWire | librcom/src/WebSocket.cpp:94-119 | a call that is still running has not read the last frame of the message in front of it, and stands exactly behind the frames it has read |
| Polling.ReceiveNext | librcom/src/WebSocket.cpp:76-92 | one recv with a message in front of it delivers exactly that and answers every ping, or times out and leaves the frames it has not read to the next call, or the socket failed |
| Polling.Poll | librcom/src/WebSocket.cpp:76-92 | any number of recv calls: the message delivered is that of the frames which no earlier call has read, whole if and only if the earlier calls had collected nothing; a message of one frame always arrives whole |
| Polling.PollMessage | librcom/src/WebSocket.cpp:76-92 | one whole message that the other side has sent is delivered whole, or still there after a timeout, or there was a reason |
| Polling.PollAll | librcom/src/WebSocket.cpp:76-119 | the messages one side has sent in a row are received by polling in order and each whole, with no byte left over; when some are missing there was a reason, and after a timeout they are still there |
| WebSockets.WebSocket.constructor | librcom/src/WebSocket.cpp:37-53 | a new socket has an empty record behind the bytes of the handshake |
| WebSockets.WebSocket.OpenMessage | librcom/src/WebSocket.cpp:478-524 | at any time between calls is_continuation_ says whether the last accepted data frame had FIN = 0, and all accepted frames were well fragmented |
| WebSockets.WebSocket.InputReadFrameHeader | librcom/src/WebSocket.cpp:177-185 | the four fields of the first two bytes |
| WebSockets.WebSocket.InputReadNumber | librcom/src/WebSocket.cpp:200-222 | the number that the next bytes stand for in network order |
| WebSockets.WebSocket.InputReadPayloadLength | librcom/src/WebSocket.cpp:187-198 | the length in each of the three forms, and exactly its bytes are taken |
| WebSockets.WebSocket.InputReadHeader | librcom/src/ServerSideWebSocket.cpp:105-115 | reads exactly the header of the stream in all three length forms, or fails with 1011 |
| WebSockets.WebSocket.InputAssertValid | librcom/src/WebSocket.cpp:235-264 | which close code is due for which header, in the order of the checks |
| WebSockets.WebSocket.InputAppendPayload | librcom/src/ServerSideWebSocket.cpp:117-127 | the unmasked block is appended |
| WebSockets.WebSocket.InputReadPayload | librcom/src/WebSocket.cpp:266-285 | the blocks add up to the whole unmasked payload, and exactly its bytes are taken |
| WebSockets.WebSocket.ReadMessage | librcom/src/WebSocket.cpp:170-175 | the fields hold the first frame of the stream and exactly its bytes are gone, or the error is the one due |
| WebSockets.WebSocket.FillLength | librcom/src/ClientSideWebSocket.cpp:173-192 | the length field is the one the specification function prints, in all three branches |
| WebSockets.WebSocket.FillLong | librcom/src/ClientSideWebSocket.cpp:182-192 | eight bytes in network order behind the marker |
| WebSockets.WebSocket.OutputAppendHeader | librcom/src/ClientSideWebSocket.cpp:163-202 | appends the header bytes of the specification for every length and side |
| WebSockets.WebSocket.OutputAppendPayload | librcom/src/ClientSideWebSocket.cpp:204-222 | appends the whole masked payload although it works block by block |
| WebSockets.WebSocket.MakeMessage | librcom/src/WebSocket.cpp:593-605 | yields exactly the frame of the specification under the new mask |
| WebSockets.WebSocket.CloseConnection | librcom/src/ServerSideWebSocket.cpp:100-103 | the server closes at once; the client as CloseClientSide |
| Closing.CloseClientSide | librcom/src/ClientSideWebSocket.cpp:120-140 | the client waits until the other end is gone or the deadline is reached; then the socket is closed, unless a sleep was interrupted |
| WebSockets.WebSocket.ClosingWaitReply | librcom/src/WebSocket.cpp:437-455 | frames are dropped up to and including the peer's first close frame and no further, or until the deadline, or until a frame cannot be read |
| WebSockets.WebSocket.SocketSend | librcom/src/WebSocket.cpp:631-661 | the record grows by what was written; a failed write closes the socket |
| WebSockets.WebSocket.SendFrame | librcom/src/WebSocket.cpp:593-605 | one frame is on record, whole on success, and the order of the record is kept |
| WebSockets.WebSocket.SendCloseMessage | librcom/src/WebSocket.cpp:393-408 | the payload is the code in network order |
| WebSockets.WebSocket.CloseWithHandshake | librcom/src/WebSocket.cpp:415-455 | through every failure the socket ends closed with one close frame on record, whole unless the socket failed, or none if it was closed before; the peer's answer was waited for unless there was a reason not to |
| WebSockets.WebSocket.HandleDataPayload | librcom/src/WebSocket.cpp:469-524 | the five steps do what the acceptance function says, including the code of a refusal, and the history grows by exactly the accepted frame |
| WebSockets.WebSocket.ProcessMessage | librcom/src/WebSocket.cpp:296-370 | the effect on buffer, record and connection is the one due for the frame |
| WebSockets.WebSocket.AnswerCloseHandshake | librcom/src/WebSocket.cpp:372-391 | a close frame goes out that holds the same two bytes, or 03 ED when there were not two; its code is forbidden exactly in the cases stated, and the socket is closed |
| WebSockets.WebSocket.HandleOneMessage | librcom/src/WebSocket.cpp:164-168 | buffer, record, stream and connection are as the first frame of the stream says |
| WebSockets.WebSocket.WaitAndHandleOneMessage | librcom/src/WebSocket.cpp:127-148 | a frame is handled, or there was none in time and nothing has changed, or the error has its cause in the stream or the socket |
| WebSockets.WebSocket.TryRecv | librcom/src/WebSocket.cpp:94-125 | whatever the socket and the clock do, the result is the one the bytes of the stream determine, with the replies due on record; a timeout leaves stream, buffer and flags exactly behind the frames read; only a failing socket excuses another error and only a passed deadline a timeout |
| WebSockets.WebSocket.Recv | librcom/src/WebSocket.cpp:76-92 | as TryRecv with a cleared buffer and the call in the history; is_continuation_ is the flag of the history; on error or close the socket is closed, after one close frame with the code that the stream determines or 1011, even when writing it fails |
| WebSockets.WebSocket.Close | librcom/src/WebSocket.cpp:59-63 | the socket is closed after one close frame, or an exception left it open and that is noted; the invariant is kept |
| WebSockets.WebSocket.OutputSendPayload | librcom/src/ClientSideWebSocket.cpp:224-229 | the block of the frame is next on the wire, within the 1024-byte scratch buffer, or the socket failed and is closed |
| WebSockets.WebSocket.SendLongPayload | librcom/src/WebSocket.cpp:571-591 | after all blocks the frame is whole on record; after a failed one the socket is closed |
| WebSockets.WebSocket.SendLong | librcom/src/WebSocket.cpp:554-569 | header and blocks put one whole frame on record |
| WebSockets.WebSocket.SendMessage | librcom/src/WebSocket.cpp:539-552 | the short and the long path put the same bytes on the wire: the printed frame |
| WebSockets.WebSocket.Send | librcom/src/WebSocket.cpp:527-544 | refused from 128 MB on with nothing written; otherwise one frame, whole on success, or the socket failed and is closed |
| WebSockets.PayloadBlock | librcom/src/WebSocket.cpp:571-591 | a block masked on its own is the slice of the whole frame where it belongs |
| WebSockets.UnmaskGrows | librcom/src/WebSocket.cpp:266-285 | unmasking block by block is unmasking the whole payload |
| WebSockets.WholeNext | librcom/src/WebSocket.cpp:546-552 | a whole frame that is no close frame leaves an orderly wire orderly |
| WireProtocol.StepKeeps | librcom/src/WebSocket.cpp:527-591 | every step of every thread keeps the invariant of mutex, frames and connection |
| WireProtocol.AllRunsKeep | librcom/src/WebSocket.cpp:59-92 | so does every run of any number of threads |
| WireProtocol.ClosedIsSilent | librcom/src/WebSocket.cpp:631-661 | from any state with a closed socket, no run adds a byte |
| WireProtocol.SecondClose | librcom/src/ClientSideWebSocket.cpp:120-140 | for any two close frames, a run in which the second follows the first after rcom_sleep has thrown: once if recv had sent the first, twice if close had |
| WireProtocol.SafeExactly | librcom/src/WebSocket.cpp:59-92 | in all runs the wire is whole frames plus at most one partial frame of the lock holder, nothing follows a close or partial frame, if and only if that exception cannot leave a client |
| WireProtocol.WiresExactly | librcom/src/WebSocket.cpp:59-92 | unless that exception can leave a client, the wires of all runs are exactly whole frames in any order and from any threads, then at most one close or partial frame |
| WireProtocol.CallSends | librcom/src/WebSocket.cpp:94-125 | any number of frames can go out within one call |
| WireProtocol.AlwaysLocked | librcom/src/WebSocket.cpp:59-92 | in all runs, exceptions included, only the holder of the mutex is inside a call |
| WireProtocol.WayOut | librcom/src/WebSocket.cpp:59-92 | no deadlock: the holder can always get out by itself, with its frame finished unless the socket was closed, and with the socket closed if it was about to close it |
| HttpSyntax.StepStaysSound | librcom/src/HttpParser.cpp:82-285 | a step stays in the states of its kind and within the bounds 9, 2049, 9, 4, 129, 128, 1024 |
| HttpSyntax.EveryRunIsSound | librcom/src/HttpParser.cpp:82-285 | on every input, no callback of the other kind and no invalid state is ever reached |
| HttpHeaders.PrintedIsParsed | librcom/src/HttpParser.cpp:213-277 | every list of well-formed headers is reported in order, and parsing stops right behind the blank line |
| HttpHeaders.ParsedIsPrinted | librcom/src/HttpParser.cpp:213-277 | whatever is parsed was such a list, from any state in the headers |
| HttpHeaders.HeadersExactly | librcom/src/HttpParser.cpp:213-277 | both: parsed with a report and a rest if and only if the text is such a list followed by that rest |
| FirstLines.RequestsExactly | librcom/src/HttpParser.cpp:82-148 | a whole request is parsed if and only if it is GET, spaces, a URI of 1 to 2048 characters, spaces, HTTP/1.1, CRLF, header lines and the rest, with exactly that report |
| FirstLines.ResponsesExactly | librcom/src/HttpParser.cpp:150-211 | a whole response is parsed if and only if it is HTTP/1.1, spaces, a code from 100 to 599, spaces, a reason of 1 to 128 characters, CRLF, header lines and the rest, with exactly that report |
| FirstLines.EmptyReasonTakesHeader | librcom/src/HttpParser.cpp:184-203 | without a reason phrase the first header line is taken for it |
| HttpGrammar.TokenExactly | librcom/src/HttpParser.cpp:287-298 | for every byte, the code and the grammar agree if and only if it is no quote and below 128, and in which way they differ |
| HttpGrammar.NameExactly | librcom/src/HttpParser.cpp:225-238 | which header names only the code or only the grammar takes |
| HttpGrammar.HeaderNameExactly | librcom/src/HttpParser.cpp:213-277 | a header is parsed under its name if and only if the code takes the name, which is what the grammar says if and only if neither of these cases applies |
| HttpGrammar.NulIsRefused | librcom/src/RequestParser.cpp:55-65 | a NUL that is_valid_version_char lets through never gets past set_version |
| HttpGrammar.ClassesAre | librcom/src/HttpParser.cpp:77-80 | capitals, digits and the characters of a version, by their numbers |
| HttpMessages.LookupIsFirst | librcom/src/Request.cpp:59-71 | a lookup finds the first header of a name |
| HttpMessages.LookupFindsNothing | librcom/src/Request.cpp:59-71 | a lookup finds nothing when no header has the name |
| HttpMessages.FindHeader | librcom/src/Response.cpp:48-60 | the loop finds the first header of the name, or says that there is none |
| HttpMessages.LookupExactly | librcom/src/Request.cpp:59-71 | a value is found if and only if the first header of the name has it |
| HttpMessages.OccursExactly | librcom/src/Request.cpp:125-139 | a word occurs in exactly the texts that have it between two others |
| HttpMessages.KeyExactly | librcom/src/Request.cpp:101-110 | a key is 22 letters of the alphabet and two `=`, and nothing else |
| HttpMessages.UpgradeRequestsExactly | librcom/src/Request.cpp:73-151 | which reports pass: GET, such a key, version 13, a Connection with Upgrade or upgrade anywhere in it, and websocket |
| HttpMessages.UpgradeResponsesExactly | librcom/src/Response.cpp:62-109 | which reports pass: 101, Connection Upgrade or upgrade, websocket, and the accept string, each in the first header of its name |
| HttpMessages.Request.AssertWebSocket | librcom/src/Request.cpp:73-151 | passes if and only if all five conditions hold |
| HttpMessages.Response.AssertWebSocket | librcom/src/Response.cpp:62-109 | passes if and only if all four conditions hold |
| StatusCode.AcceptedExactly | librcom/src/ResponseParser.cpp:60-71 | of all strings of at most three characters, strtol and its checks accept exactly 100 to 599 in three digits |
| StatusCode.StatusExactly | librcom/src/ResponseParser.cpp:60-71 | the strings accepted are the decimal numbers from 100 to 599, and these are their codes |
| HttpParsers.HttpParser.HandleChar | librcom/src/HttpParser.cpp:82-285 | the code's branches do what the table of rules says, for every state and character |
| HttpParsers.HttpParser.HandleRequestChar | librcom/src/HttpParser.cpp:85-148 | the branches of the request line |
| HttpParsers.HttpParser.HandleResponseChar | librcom/src/HttpParser.cpp:150-211 | the branches of the status line |
| HttpParsers.HttpParser.HandleHeaderChar | librcom/src/HttpParser.cpp:213-277 | the branches of header lines and blank line |
| HttpParsers.HttpParser.SetCode | librcom/src/ResponseParser.cpp:60-71 | only a status code is taken, and only by a response parser |
| HttpParsers.HttpParser.ReadChar | librcom/src/HttpParser.cpp:68-75 | one byte is taken and the rest of the scan is unchanged |
| HttpParsers.HttpParser.Parse | librcom/src/HttpParser.cpp:39-66 | on a socket, the outcome is that of the scan of its bytes; what follows the blank line stays in the socket |
| Handshake.MakeAcceptString | librcom/src/WebSocket.cpp:663-674 | base64 of the SHA-1 of key and GUID |
| Handshake.AcceptIsWhole | librcom/src/WebSocket.cpp:663-674 | for every key below 4 GB it is the base64 of the digest of the whole of key and 258EAFA5-E914-47DA-95CA-C5AB0DC85B11 |
| Handshake.KeyIsKey | librcom/src/Request.cpp:101-110 | every 16-byte nonce becomes a key that the server takes for valid |
| Handshake.RequestIsUnderstood | librcom/src/ClientSideWebSocket.cpp:97-118 | for every nonce and host, the server's parser reads the printed request, passes it and finds the key |
| Handshake.ResponseIsUnderstood | librcom/src/ServerSideWebSocket.cpp:54-78 | the client's parser reads the printed response and accepts it if and only if the accept string is the one expected |
| Handshake.HandshakeCompletes | librcom/src/ClientSideWebSocket.cpp:67-118 | for every nonce, host and following bytes, both parsers succeed on the bytes of the other side and leave the following bytes alone |
| Handshake.ServerHandshake | librcom/src/ServerSideWebSocket.cpp:46-68 | opened means one upgrade request read and the whole answer to its key written; every other outcome has its exact cause, nothing is written before the checks pass, and a write that fails closes the socket |
| Handshake.SendAnswer | librcom/src/WebSocket.cpp:631-645 | the whole answer is on the wire, or the socket failed and is closed |
| Handshake.SendRequest | librcom/src/WebSocket.cpp:631-645 | the whole request is on the wire, or the socket failed and is closed, or an exception left it open |
| Handshake.ClientHandshake | librcom/src/ClientSideWebSocket.cpp:67-105 | after a whole request and a parsed response, opened if and only if the accept string is that of the key; a write that fails closes the socket or leaves through rcom_sleep |
| WebSocketServers.StillConnectedKeepsOrder | librcom/src/WebSocketServer.cpp:105-117 | the links kept are exactly the connected ones, in their old order |
| WebSocketServers.MadeKeepsOrder | librcom/src/WebSocketServer.cpp:69-78 | the new links are those of the connections that completed their handshake, in the order of their acceptance |
| WebSocketServers.TurnHearsWhatWasSent | librcom/src/WebSocketServer.cpp:119-140 | a message that a client printed is what the listener gets, and all that is taken from the link; a turn that times out leaves it, and all else, for the next turn |
| WebSocketServers.WebSocketServer.NewServerSideWebSocket | librcom/src/SocketFactory.cpp:46-54 | a link means a completed handshake; none means a closed socket on which no upgrade was asked for or which failed |
| WebSocketServers.WebSocketServer.TryNewConnection | librcom/src/WebSocketServer.cpp:80-94 | the link is appended, or an exception is caught and nothing is |
| WebSocketServers.WebSocketServer.HandleNewConnections | librcom/src/WebSocketServer.cpp:69-78 | every connection in front of the first error of accept is settled, in order: a link for each that completed its handshake, and each of the others closed for a reason |
| WebSocketServers.WebSocketServer.HandleNewMessagesOf | librcom/src/WebSocketServer.cpp:119-140 | one recv, its message to the listener, and a failed link closed |
| WebSocketServers.WebSocketServer.TakeTurn | librcom/src/WebSocketServer.cpp:96-103 | the turn of one link leaves the others and the invariant alone |
| WebSocketServers.WebSocketServer.HandleNewMessages | librcom/src/WebSocketServer.cpp:96-140 | every connected link has one turn of recv, the listener gets exactly the messages of these turns in order, a failed link is closed |
| WebSocketServers.WebSocketServer.RemoveClosedLinks | librcom/src/WebSocketServer.cpp:105-117 | the links are the still-connected ones in their old order |
| WebSocketServers.WebSocketServer.HandleEvents | librcom/src/WebSocketServer.cpp:62-67 | all three together: the old links and the accepted ones have had their turn, and those still connected remain, in order |
| WebSocketServers.WebSocketServer.SendTo | librcom/src/WebSocketServer.cpp:156-163 | an unconnected link is passed over with success; otherwise the frame is out whole, or the failure has its cause |
| WebSocketServers.WebSocketServer.BroadcastTo | librcom/src/WebSocketServer.cpp:145-153 | the excluded link is left alone, a failed one is closed |
| WebSocketServers.WebSocketServer.Broadcast | librcom/src/WebSocketServer.cpp:142-163 | each connected link but the excluded one gets the printed frame once, or its socket failed and it is closed; a message of 128 MB or more closes all of them with 1011 instead; no other link is touched |
| WebSocketServers.WebSocketServer.Destroy | librcom/src/WebSocketServer.cpp:47-55 | every link ends closed, with one close frame 1001 if it was connected |
| Registries.MeaningErased | librcom/src/Registry.cpp:46-49 | erasing an entry removes its topic from the map, when topics are unique |
| Registries.MeaningInserted | librcom/src/Registry.cpp:58-61 | appending a new topic adds it to the map |
| Registries.MeaningHas | librcom/src/Registry.cpp:34-44 | a topic is in the map if and only if some entry has it |
| Registries.MeaningAt | librcom/src/Registry.cpp:75-85 | with unique topics, any entry's address is the map's |
| Registries.SameEntries | librcom/src/Registry.cpp:65-73 | registries with the same meaning hold the same entries |
| Registries.Registry.Find | librcom/src/Registry.cpp:34-44 | the index of the first entry of the topic, or -1 if and only if there is none |
| Registries.Registry.Set | librcom/src/Registry.cpp:65-73 | the map is updated at the topic; an address whose ip or port is 0 changes nothing and throws |
| Registries.Registry.Get | librcom/src/Registry.cpp:75-85 | the address that the map has, or not found |
| Registries.Registry.Remove | librcom/src/Registry.cpp:87-92 | the topic leaves the map |
| Registries.LastCallDecides | librcom/src/Registry.cpp:65-92 | after any run a topic has the address of the last call about it |
| Registries.Execute | librcom/src/Registry.cpp:65-92 | any run of calls on the vector is the run on the map, with unique topics and set addresses throughout |
| BaseSockets.Write | librcom/src/BaseSocket.cpp:52-79 | exactly the bytes counted are on the wire, all of them if and only if it succeeds; a failure is the kernel's |
| BaseSockets.Read | librcom/src/BaseSocket.cpp:81-108 | result, buffer and bytes taken are those of the loop specification, with the wrap of size_t |
| BaseSockets.ReadAccounts | librcom/src/BaseSocket.cpp:92-104 | a read that reports success has taken one byte too many for each -1, or has wrapped around and taken one fewer than there were |
| BaseSockets.ReadsInOrder | librcom/src/BaseSocket.cpp:81-108 | without errors, or with enough offered before the first, the bytes arrive in order however they are cut, and failure means that the stream ended |
| BaseSockets.ShortFails | librcom/src/BaseSocket.cpp:92-104 | a stream that is too short is reported as such unless so many errors follow that the count wraps around |
| BaseSockets.WrapsAround | librcom/src/BaseSocket.cpp:102-104 | with that many errors in a row the short stream is reported as a success |
| BaseSockets.FirstErrorReadsNothing | librcom/src/BaseSocket.cpp:92-104 | a first -1 makes read succeed with nothing read |
| BaseSockets.PromiseExactly | librcom/include/rcom/ISocket.h:58-64 | for every script and length, the promise of ISocket holds on all streams if and only if recv never returns -1, or enough bytes are offered before that and not so many errors follow each other that they make up for a stream that has ended |

## Left out

- WebSockets.WebSocket.Recv: when a call fails, how much of the stream had been read by then is not stated.
- WebSockets.WebSocket.CloseConnection: termination rests on a clock that reaches every deadline after finitely many readings.
- Sha1Context.Context.Update: what happens after a copy has run over the end of the buffer is undefined in C++ and is not modelled.
- Octets.SwappedBytes: a little-endian host; on a big-endian one the code would print lengths and close codes in the wrong order.
- WebSocketServers.WebSocketServer.HandleNewMessages: the listener only takes its message; one that calls broadcast or close from its callback is not modelled.
- WireProtocol.SafeExactly: frames are arbitrary bytes there, their contents are the subject of `WebSocket.dfy`.
- `Transport.Socket` follows the contract of ISocket, with reads that take all or fail; the departure of `BaseSocket::read` is modelled on its own in `BaseSocket.dfy`.
- A write to a closed descriptor puts nothing on the wire, and waiting on one never reports data.
- Time is a number of readings left before any deadline; real time, the 0.1 second naps and the double arithmetic are not modelled.
- Keys and masks are arbitrary, `getrandom` and `getentropy` are not modelled.
- The order of link construction and logging, `TCP_NODELAY` and buffering switches have no effect in the model.
- `Address` is reduced to two numbers in the registry and to a string in the Host header that has no CR, does not begin with a space and is not over 1024 characters.
- `Linux.cpp`, `ip.cpp`, the connect, listen and accept calls, and the UDP lookup of registries are system calls and are not modelled.
- `RcomClient`, `RcomMessageHandler`, `MessageHub`, `MessageLink`, the remote objects and the registry proxy dispatch JSON and are not modelled.
- HttpGrammar.TokenExactly: `iscntrl` is that of the C locale, where no byte above 127 is a control character.
- UTF-8 validation, extensions, RSV bits and case-insensitive header names are not in the code either.
- `MemBuffer` is a byte sequence; its capacity management is not modelled.
