# A Dafny model of the Vynkor C++ SDK

The SDK speaks a framed binary IPC protocol over Unix sockets and WebSockets. This
project models its stateful core and proves what that core promises, for all inputs, all
runs and all interleavings. `dafny verify dfyconfig.toml` checks everything.

The model keeps the form of the code. Loops and mutable objects are methods and classes
(`VynkorClient`, `Socket`, `WsConnection`, `ConfirmationGate`, `ResponseChannel`), each
proved equal to a function of its inputs or of its old state. The theorems are about
those functions, or about state machines whose steps are the code's locked regions and
system calls.

| file | models |
|---|---|
| `Bytes.dfy`, `Crc32.dfy`, `Framing.dfy`, `Layout.dfy` | `src/framing.cpp`: big-endian fields, CRC-32, frame and fragment-header codec, and the same formats byte by byte in literal numbers |
| `Transport.dfy` | the read and write loops of `src/framing.cpp` and `src/client.cpp` under short, interrupted and failing system calls |
| `Reassembly.dfy`, `ReassemblyLog.dfy`, `ReassemblyDelivery.dfy`, `ReassemblyFlags.dfy` | `absorb_fragment` and `ReassemblyBuf`, the plain log of fragments they refine, when messages come out and with which flags |
| `Client.dfy`, `EndToEnd.dfy` | sending and receiving on a Unix socket, and the end-to-end law |
| `WebSocket.dfy`, `WebSocketStream.dfy`, `WebSocketPlans.dfy` | `src/ws.cpp`: frame codec, receive loop, whole conversations |
| `Gateway.dfy` | the client over WebSocket, and the same end-to-end law there |
| `Messages.dfy`, `Ids.dfy`, `Actions.dfy`, `ActionRuns.dfy` | action identifiers, `wait_for_response`, `send_action`, and whole runs of calls |
| `Json.dfy`, `Gate.dfy`, `GateRuns.dfy` | `src/confirmation_gate.cpp` and every interleaving of `route` calls |
| `Concurrent.dfy` | `src/concurrent.cpp` as interleaved atomic steps |

zstd and HMAC appear only through the laws the codec needs: decompression undoes
compression, and a tag has 32 bytes (`Framing.Primitives`). Protobuf is a pair of
functions (`Actions.Codec`). System calls are scripts of results, clocks are functions
from the number of the reading to its value, and random masks are a function from the
number of the draw.

Beside the laws that connect two functions of the model - a codec and its inverse, a loop
and its specification - the formats, limits, refusals and replies are also stated on their
own, in literal numbers and texts: `Layout`, `Client.RefusalIff`, `WebSocket.DecodeVerdict`,
`WebSocket.ClientFrameBytes`, `WebSocketStream.JudgeByOpcode`, `Gate.DecideIff`,
`Json.EscapeTable` and their neighbours.

Where a promise holds only under a condition, the condition is proved exact:

- A packed frame comes back with its flags and payload if and only if the caller left out
  COMPRESSED and set MAC exactly when a key is given (`Framing.RoundTripIff`).
- A fragmented send of at most 1 MiB is refused if and only if the chunk size is zero, or
  over 1 MiB less ten bytes (and the sum with ten does not wrap), or so small that 65535
  pieces do not hold the payload (`Client.RefusalIff`).
- An accepted plain send is received as sent if and only if the caller's flags leave out
  COMPRESSED and FRAGMENTED, and MAC without a key (`EndToEnd.PlainIsReceivedIff`).
- A fragmented send that is not refused still puts nothing on the wire if and only if
  `chunk_size` and the payload length together exceed 2^64: the count of fragments then
  wraps to zero (`Client.FragmentedVanishesIff`).
- A payload change within four consecutive bytes is always rejected
  (`Framing.BurstIsRejected`); any five consecutive bytes have another value with the same
  CRC (`Crc32.FiveByteBurstEscapes`).
- How the bytes of a WebSocket frame arrive plays no part if and only if the encoded frame
  is at most `WS_MAX_MESSAGE_SIZE + 1` bytes long (`WebSocketPlans.ChunkingIsIrrelevantIff`).
  The nine largest payload sizes need a longer frame, which one way of filling the read
  buffer accepts and another refuses (`WebSocketPlans.LongFrameDependsOnFills`).
- The repository's own README.md:291-292 says that expiry keeps pending entries from growing without bound.
  The map never holds more entries than requests made within the last TTL
  (`GateRuns.PendingIsBounded`), and no fixed bound exists: n requests within one TTL
  leave n entries (`GateRuns.PendingHasNoFixedBound`).
- Two action ids collide exactly when the clock reads the same and the 64-bit counter has
  gone round (`Actions.ActionIdsCollideIff`). A read ends a pending call exactly when it
  answers that call or is a kernel error (`ActionRuns.ReadEndsCallIff`); kernel errors
  carry no id, so one caused by an abandoned call ends the next call
  (`ActionRuns.StrayErrorEndsNextCall`).

## Model

| member | source | states |
|---|---|---|
| Crc32.BuildTable | src/framing.cpp:24-33 | entry i of the table is eight division steps of i |
| Crc32.Checksum | src/framing.cpp:35-41 | the table-driven loop computes the bit-serial reflected CRC-32 (section 8 of RFC 1952) of every byte sequence |
| Crc32.FeedByteIsLookup | src/framing.cpp:39 | feeding eight message bits serially equals one table look-up and a shift |
| Crc32.ShiftsAreLinear | src/framing.cpp:28-29 | any number of division steps distributes over exclusive or |
| Crc32.RegisterIsInjective | src/framing.cpp:38-39 | the same bytes never bring two different registers together |
| Crc32.RegisterOfWord | src/framing.cpp:38-39 | up to four bytes enter the register as one little-endian word |
| Crc32.BurstChangesCrc | src/framing.cpp:35-41 | two byte strings that differ only inside a window of at most four bytes have different CRCs |
| Crc32.FiveByteBurstEscapes | src/framing.cpp:35-41 | four is the limit: every five-byte window, at any position in any data, has a second value with the same CRC |
| Crc32.CheckValue | src/framing.cpp:24-41 | the ASCII digits 1 to 9 have CRC CBF43926 |
| Bytes.NetworkOrder | src/framing.cpp:216-223 | 16 and 32 bit fields are written most significant byte first |
| Bytes.BeNatDigits | src/framing.cpp:46-58 | two and four byte numbers, digit by digit |
| Framing.BuildHeader | src/framing.cpp:212-224 | the 44 bytes written in place are magic, flags, length, target and CRC, big-endian |
| Framing.PackFrameRaw | src/framing.cpp:272-318 | refuses payloads over 1 MiB; otherwise the frame whose tag covers header and payload before compression |
| Framing.ParseFrameBytes | src/framing.cpp:326-398 | the parser's result, error for error, on every buffer |
| Framing.HeaderFields | src/framing.cpp:212-224 | every field of a built header is found again at its offset, whatever follows |
| Framing.HeaderIsCanonical | src/framing.cpp:333-355 | any 44 bytes with the right magic, length and CRC are a header build_header would write |
| Framing.RoundTrip | src/framing.cpp:272-398 | compressed or not, tagged or not, followed by anything: parsing a packed frame returns flags, payload, tag and the tagged header |
| Framing.RoundTripIff | src/framing.cpp:272-398 | the frame comes back if and only if COMPRESSED is absent and MAC is set exactly with a key |
| Framing.AcceptedIsCanonical | src/framing.cpp:326-398 | every accepted frame's header is the built one for its flags, target and payload; the payload is at most 1 MiB; a key means the stored tag is the tag of exactly that; uncompressed frames reproduce the consumed bytes |
| Framing.BurstIsRejected | src/framing.cpp:353-362 | damage to a valid frame's payload within four consecutive bytes, header intact, is answered with a CRC mismatch |
| Framing.ParseIsSelfDelimiting | src/framing.cpp:348-358 | the bytes after a frame never influence its parse |
| Framing.ConcatenationSplits | src/framing.cpp:326-398 | any concatenation of acceptable frames splits back into exactly those frames |
| Framing.FragmentRoundTrip | src/framing.cpp:46-75 | every fragment header that fits its fields is parsed back, and the chunk after it is intact |
| Framing.ParsedFragmentFits | src/framing.cpp:60-75 | whatever the payload, parsed header fields are within 16 and 32 bits |
| Layout.HeaderBytes | src/framing.cpp:212-224 | the 44 header bytes in literal positions and values: "VR", flags, length, target, CRC |
| Layout.FragmentBytes | src/framing.cpp:46-58 | the ten fragment header bytes: fragment id, sequence, total, stream id |
| Layout.PackedBytes | src/framing.cpp:272-318 | header, payload, tag; compressed exactly when at least 64 KiB, not marked compressed or raw binary, and shrinking; the tag is over header and payload as they were before |
| Layout.ParseRefuses | src/framing.cpp:326-362 | the first reason to refuse any buffer, by its bytes: too short, wrong magic, length over 1 MiB, truncated, wrong CRC |
| Layout.ParseAcceptsIff | src/framing.cpp:364-397 | past those checks a buffer is accepted, as a frame given field by field, exactly when its payload can be had within 1 MiB and, with a key, its tag is right |
| Transport.WriteAll | src/client.cpp:548-560 | under any short or interrupted writes the whole frame goes out; on failure only a proper prefix did |
| Transport.RecvExact | src/framing.cpp:152-191 | under any short or interrupted reads exactly n bytes move from the stream into the buffer window |
| Transport.ReadFrame | src/framing.cpp:438-466 | the result is that of the bytes to come, or an I/O error or read timeout when a call fails; it stops at the frame's last byte, and even a failing read takes nothing beyond the frame |
| Transport.AwaitReadable | src/framing.cpp:404-423 | the poll before a read with a deadline: readable, failed, or timed out |
| Transport.ReaderAgreesWithParser | src/framing.cpp:438-475 | the descriptor reader accepts exactly the streams the buffer parser accepts, with the same frame and length |
| Transport.ReaderRefuses | src/framing.cpp:444-465 | what the descriptor reader answers to a short stream, a length over 1 MiB and a wrong magic |
| Transport.ReadLimits | src/framing.cpp:444-463 | a read reaches no further than the header, or than the frame its header announces |
| Reassembly.CountDecidesCoverage | include/vynkor/client.hpp:219-228 | with all numbers below total, `size() == total` if and only if every number is present, so `fragments.at` never misses |
| Reassembly.ChunkBytesUpdate | src/client.cpp:301-311 | replacing a chunk changes the byte total by exactly the difference, and the subtraction never underflows |
| Reassembly.Absorb | src/client.cpp:266-321 | from every valid table every outcome, including every error, leaves a valid table, and whatever is delivered is at most 1 MiB |
| Reassembly.Run | src/client.cpp:266-321 | over any history of good, bad and repeated fragments the table stays valid: at most 64 streams, each non-empty and incomplete, exact and bounded byte counts |
| Reassembly.ValidBuffersAtMost64MiB | include/vynkor/client.hpp:23-24 | a valid table buffers at most 64 MiB in all |
| ReassemblyLog.StoreIsAppend | src/client.cpp:301-320 | storing a chunk and logging it agree on size, completeness and contents |
| ReassemblyLog.AbsorbSimulates | src/client.cpp:266-321 | one absorb_fragment and one step of the last-write-per-number log give the same outcome and stay related |
| ReassemblyLog.TableRefinesLog | src/client.cpp:266-321 | over every history, any order, interleaving and re-sends, table and log answer alike fragment by fragment: a frame is returned exactly when the numbers become complete, as the in-order concatenation with the first fragment's flags less FRAGMENTED and MAC |
| ReassemblyDelivery.TableDelivers | src/client.cpp:266-321 | for any interleaving and re-sending of the fragments of up to 64 messages within 1 MiB each, in time: no step fails, and each delivers its message exactly when its stream has seen every piece since it opened |
| ReassemblyDelivery.LastMissingPieceDelivers | src/client.cpp:266-321 | in terms of the history alone: the last missing piece, in whatever order it comes, delivers the message, and none before it does |
| ReassemblyFlags.DeliveredFlags | src/client.cpp:293-318 | over every history a delivered frame has FRAGMENTED and MAC clear and every other flag bit of the fragment that opened its stream, which has been open ever since |
| ReassemblyLog.ReassembledFlags | src/client.cpp:295 | the same of one frame, bit by bit |
| ReassemblyLog.DeliveredIsTheMessage | src/client.cpp:266-321 | a stream that only ever carries pieces of one message delivers nothing but that message, whatever else arrives |
| Client.PieceAt | src/client.cpp:252-260 | fragment i holds the bytes from i * chunk_size on, as the offsets compute them |
| Client.PieceCount | src/client.cpp:242 | the rounded-up division counts the pieces |
| Client.CutCount | src/client.cpp:239-244 | for every accepted `chunk_size`, also where the sums wrap at 64 bits, the computed count is the number of fragments sent, and each fits a frame |
| Client.RefusalIff | src/client.cpp:237-244 | when a send is refused and with which error, in terms of payload length and chunk size alone |
| Client.SendFlagsBits | src/client.cpp:211-214 | the MAC bit is added exactly when there is a key, and no other bit changes |
| Client.StreamIdsCycle | src/client.cpp:246-249 | stream ids run through 1 to 2^32 - 1 and start over |
| Client.FragmentIdentifiesItself | src/client.cpp:250-260 | fragment i carries the low 16 bits of the stream id, its number, the count, the stream id and its piece |
| Client.FragmentedVanishesIff | src/client.cpp:239-252 | an accepted fragmented send puts nothing on the wire exactly when `chunk_size` plus a non-empty payload's length exceeds 2^64 |
| Client.ReceivedFits | src/client.cpp:335-346 | no message handed over exceeds 1 MiB, whatever the peer sends, in one frame or in fragments |
| Client.PiecesRejoin | src/client.cpp:242-263 | the pieces put together are the payload |
| Client.VynkorClient.SendRawWithFlags | src/client.cpp:208-226 | on a Unix socket: refused untouched, the packed frame appended to the stream, or an I/O error after a proper prefix of it |
| Client.VynkorClient.SendFragmented | src/client.cpp:232-264 | for every size_t: refused with nothing written and no id used, or every fragment in order under a fresh non-zero stream id, or an I/O error after a proper prefix of those bytes |
| Client.VynkorClient.AbsorbFragment | src/client.cpp:266-321 | table and result are those of Reassembly.Absorb, and the invariant holds after it |
| Client.VynkorClient.Prune | src/client.cpp:268-274 | exactly the streams at least 30 s old are erased |
| Client.VynkorClient.Reassemble | include/vynkor/client.hpp:220-228 | the loop joins the chunks in sequence order |
| Client.VynkorClient.RecvFrame | src/client.cpp:323-359 | with and without a deadline: the loop's result, table and remaining bytes are a function of the bytes to come, or a failing or late read ends it with its error, the invariant kept |
| EndToEnd.PlainIsReceivedIff | src/client.cpp:208-226 | an accepted plain send alone on the stream is received as sent if and only if its flags are proper; a FRAGMENTED flag never survives absorb_fragment |
| EndToEnd.PlainIsDelivered | src/client.cpp:208-226 | at most 1 MiB, no reserved flag, MAC only with a key: delivered with its payload and flags, MAC added when there is a key |
| EndToEnd.FragmentedIsDelivered | src/client.cpp:232-346 | at most 1 MiB, chunk size from 1 to 1 MiB less ten, at most 65535 pieces, in time: delivered whole, without flags |
| EndToEnd.ConversationIsReceived | src/client.cpp:208-346 | every sequence of plain and fragmented sends is received as exactly the sent payloads, in order, once each |
| EndToEnd.Converse | src/client.cpp:208-346 | the same for two client objects over sockets with any short reads and writes |
| WebSocket.EncodeClientFrame | src/ws.cpp:137-165 | FIN and mask bit set, minimal length, mask, masked payload |
| WebSocket.TryDecodeServerFrame | src/ws.cpp:167-208 | the decoder's answer - frame, more needed, or error - on every buffer |
| WebSocket.FormIsMinimal | src/ws.cpp:148-160 | the length form chosen is the shortest that fits (section 5.2 of RFC 6455) |
| WebSocket.FrameDecodes | src/ws.cpp:167-208 | any unmasked frame in any fitting length form, followed by anything, decodes to itself with its exact length |
| WebSocket.PrefixNeedsMore | src/ws.cpp:170-200 | every proper prefix of a frame asks for more bytes |
| WebSocket.AnswerIsStable | src/ws.cpp:167-208 | once the decoder answers, later bytes do not change the answer |
| WebSocket.DecodeVerdict | src/ws.cpp:167-208 | wait, refuse or take, for any buffer by its bytes: mask bit, three length forms, limit of 4194304 |
| WebSocket.HeadBits | src/ws.cpp:172-173 | FIN is bit 7 and the opcode bits 0 to 3 of the head byte; reserved bits are ignored |
| WebSocket.ClientFrameBytes | src/ws.cpp:137-165 | the bytes of a client frame; payload byte k is combined with mask byte k mod 4 |
| WebSocket.ClientFrameUnmasks | src/ws.cpp:137-165 | a client frame, unmasked byte by byte as section 5.3 of RFC 6455 says, decodes to the opcode and payload it was made from |
| WebSocketStream.WsConnection.NextFrame | src/ws.cpp:491-497 | frame or error, buffer and chunks left, for every buffer, chunking and deadline |
| WebSocketStream.FetchedIsDecoded | src/ws.cpp:491-497 | a fetched frame is the one at the head of the stream, and exactly its bytes are consumed |
| WebSocketStream.WsConnection.ReceiveBinary | src/ws.cpp:482-543 | result, buffer, unread chunks and answers written, for everything that may arrive and wherever the deadline falls |
| WebSocketStream.GatheredIsAssembled | src/ws.cpp:482-543 | without a deadline, a delivered message, and any outcome while no frame outgrows the buffer, depends on the bytes and not on their chunks |
| WebSocketStream.JudgeByOpcode | src/ws.cpp:499-541 | what each opcode number does to the message under way, and its error if it is out of place |
| WebSocketStream.AnswersByOpcode | src/ws.cpp:522-536 | a ping is answered by a pong with its payload, a close by a close with at most 125 bytes, nothing else |
| WebSocketStream.DeadlineCutsChunks | src/ws.cpp:491-495 | up to the deadline the chunks that make it are all that matters; after them the wait times out |
| WebSocketPlans.PlanAssembles | src/ws.cpp:482-543 | a message cut into any binary and continuation frames, with pings, pongs and text anywhere between, is assembled to its payload, with one pong per ping in order (section 5.4 of RFC 6455) |
| WebSocketPlans.CloseIsEchoed | src/ws.cpp:530-538 | a close frame ends the connection whatever message was under way, and is echoed |
| WebSocketPlans.PlansSuffice | src/ws.cpp:491-495 | frames of at most WS_MAX + 1 encoded bytes never trip the read-buffer limit |
| WebSocketPlans.ChunkingIsIrrelevantIff | src/ws.cpp:491-495 | every way of filling the buffer yields the frame if and only if it is at most WS_MAX + 1 bytes on the wire |
| WebSocketPlans.LongFrameDependsOnFills | src/ws.cpp:491-495 | a longer frame is accepted when full 4096-byte fills bring it and refused when it comes byte by byte |
| WebSocketPlans.ReceivePlans | src/ws.cpp:478-543 | repeated receives return every message in order, answer every ping once with its payload, and leave exactly the rest unread |
| Gateway.PackFrameWs | src/framing.cpp:251-270 | refuses payloads over 1 MiB; otherwise header, payload and tag, never compressed |
| Gateway.WsRoundTrip | src/framing.cpp:251-270 | a WebSocket message of a frame parses back to flags, payload, tag and header |
| Gateway.SendWs | src/client.cpp:208-236 | over WebSocket a fragmented send is refused untouched, and a plain send becomes one masked binary frame, or fails after a proper prefix of it, or before it when no mask can be drawn |
| Gateway.AcceptedSends | src/client.cpp:235-236 | only fragmented sends are refused for their transport, and only over WebSocket |
| Gateway.UplinkIsRead | src/client.cpp:216-230 | that masked frame, unmasked, is one FIN binary message that parses to what was sent |
| Gateway.RecvFrameWs | src/client.cpp:323-359 | for everything that may arrive and every deadline: frame or error, buffer, chunks left, table and answers, through the same reassembly |
| Gateway.PlansAreReceived | src/client.cpp:323-346 | when the bytes are those of whole messages, that is receiving the messages one by one |
| Gateway.WsConversationIsReceived | src/client.cpp:323-346 | the end-to-end law for frames that travel one per message, packed on either transport |
| Gateway.ConverseWs | src/client.cpp:323-346 | the same on the connection object, for every cutting into WebSocket frames and chunks |
| Ids.IdentifierIsInjective | src/client.cpp:21-26 | tag, decimal time, dash, decimal number: equal identifiers have equal parts |
| Ids.IdentifierReads | src/client.cpp:25 | tag, the digits of the time, a dash, the digits of the number |
| Ids.DecimalIsCanonical | src/client.cpp:25 | no leading zeros |
| Actions.Counter.NextActionId | src/client.cpp:19-26 | the identifier of the current draw, and a counter that wraps at 64 bits |
| Actions.ActionIdsCollideIff | src/client.cpp:19-26 | two identifiers agree exactly when clock reading and wrapped counter both do |
| Actions.WaitForResponse | src/client.cpp:406-417 | returns the first terminal envelope to come and discards what is before it, unless the deadline or a failing read comes first |
| Actions.SendAction | src/client.cpp:440-467 | a returned response bears the very id the request on the wire bears; otherwise an abort or kernel error, a size refusal, the deadline or a failing call |
| Actions.CallPeer | src/client.cpp:440-467 | against a peer's conversation: the first envelope that concerns the call decides; its own response is returned with any status, an abort or a kernel error is an error, and nothing else is ever returned |
| Actions.ActionIdForm | src/client.cpp:21-26 | "act-", time, dash, sequence number |
| Actions.AwaitFindsFirst | src/client.cpp:406-417 | against any conversation of plain and fragmented sends the wait ends on the first terminal envelope, at the first unparsable one, or at the end |
| ActionRuns.IdsAreDistinct | src/client.cpp:19-26 | in every reachable state no two calls of the process share an id, up to the counter's wrap |
| ActionRuns.ResponsesAreOwn | src/client.cpp:440-467 | with a peer that answers under ids it was sent, a response or abort that ends a call was caused by that call |
| ActionRuns.ReadEndsCallIff | src/client.cpp:455-459 | a read ends the blocked call exactly when it answers that call or is a kernel error |
| ActionRuns.LateAnswerIsDiscarded | src/client.cpp:406-417 | a late answer to an earlier call changes nothing but the inbox |
| ActionRuns.BeginningWaits | src/client.cpp:440-451 | a call draws the next id and blocks its client; a streaming request does not |
| ActionRuns.GivingUpFrees | src/client.cpp:406-417 | a call that gives up frees its client and leaves the inbox alone |
| ActionRuns.IdleReadsAway | src/client.cpp:358-370 | outside a call a read takes one envelope and changes nothing else |
| ActionRuns.StrayErrorEndsNextCall | src/client.cpp:459-462 | a kernel error caused by an abandoned call ends the next one |
| Json.JsonEscape | src/confirmation_gate.cpp:23-47 | the loop prints each byte as the escape table says |
| Json.JsonFindString | src/confirmation_gate.cpp:51-124 | value, nothing, or an exception, on every text |
| Json.ReadsEscaped | src/confirmation_gate.cpp:79-121 | whatever bytes were escaped are read back, up to the closing quote |
| Json.FirstMemberIsFound | src/confirmation_gate.cpp:23-124 | for every byte string, an object whose first member is that escaped string yields it back, whatever follows |
| Json.EscapeTable | src/confirmation_gate.cpp:27-44 | what is printed for each byte (section 7 of RFC 8259) |
| Json.EscapedIsPrintable | src/confirmation_gate.cpp:23-47 | nothing below a blank is left in the output |
| Json.UnescapeTable | src/confirmation_gate.cpp:91-118 | what each one-letter escape stands for; any other letter is no value |
| Json.FourHexDigits | src/confirmation_gate.cpp:103-104 | four hexadecimal digits of either case are a number in base sixteen |
| Json.StoulThrows | src/confirmation_gate.cpp:104 | no digit at all throws |
| Json.Utf8Decodes | src/confirmation_gate.cpp:106-115 | the one, two or three bytes written decode as UTF-8 to the code point |
| Json.ReadsUnicode | src/confirmation_gate.cpp:100-116 | a \u escape contributes exactly those bytes |
| Json.BlanksAroundColon | src/confirmation_gate.cpp:67-77 | blanks and tabs may stand on either side of the colon |
| Json.OnlyRealKeys | src/confirmation_gate.cpp:60-65 | a quoted key counts at the start or after a brace or a comma, and nowhere else |
| Json.LaterKeyIsFound | src/confirmation_gate.cpp:55-76 | an earlier match that is no key does not hide a later one |
| Json.BadStringsAreMissing | src/confirmation_gate.cpp:80-122 | an unclosed string or escape and an unknown escape are no value; a \u without digits throws |
| Gate.GlobAdmits | src/confirmation_gate.cpp:197-210 | `prefix.*` admits exactly the ids that extend `prefix.` |
| Gate.MayConfirmIff | src/confirmation_gate.cpp:197-210 | a caller may confirm if and only if it is listed itself, not as a glob, or the list has `p.*` with p not empty and it extends `p.` |
| Gate.DecideIff | src/confirmation_gate.cpp:265-308 | request, denial, bad parameters, exception or confirmation, exactly, by action name, caller and parameters |
| Gate.Refusals | src/confirmation_gate.cpp:253-313 | every reply without a result carries the request's own id, its status, no data and its text |
| Gate.ListedJoins | src/confirmation_gate.cpp:288-293 | the approved callers are listed with a comma and a blank between any two |
| Gate.TtlInSeconds | src/confirmation_gate.cpp:276 | the TTL is printed in whole seconds, cut towards zero |
| Gate.ReplyText | src/confirmation_gate.cpp:272-277 | the reply to a request as text |
| Gate.StoringKeepsEntries | src/confirmation_gate.cpp:227-239 | a store keeps every young entry as it was, adds the new one as it came, and nothing else |
| Gate.ReplyCarriesTheId | src/confirmation_gate.cpp:272-277 | the requester reads back the id the gate stored under |
| Gate.DenialsAgree | src/confirmation_gate.cpp:285-299 | two gates with the same configuration and any two maps give the same denied reply, whatever parameters are presented, and neither map changes |
| Gate.ConfirmCarriesTheId | src/confirmation_gate.cpp:345 | the gate reads back the id the confirmer was given |
| Gate.ConfirmationGate.Sweep | src/confirmation_gate.cpp:217-225 | exactly the entries at least a TTL old are erased |
| Gate.ConfirmationGate.StoreRequest | src/confirmation_gate.cpp:227-239 | sweep, then one entry under the generated id, never overwriting |
| Gate.ConfirmationGate.TakePending | src/confirmation_gate.cpp:241-251 | sweep, then remove and return the entry if it is there |
| Gate.ConfirmationGate.Route | src/confirmation_gate.cpp:262-323 | reply and new map for every action, caller and parameter text; the executor sees stored parameters only |
| Gate.AskFirst | src/confirmation_gate.cpp:267-279 | a request is stored as it came, under the id its reply carries |
| Gate.ThenConfirm | src/confirmation_gate.cpp:309-319 | an approved caller who presents the id in time gets the executor's result on the stored parameters, and the entry is gone |
| Gate.TwoPhases | src/confirmation_gate.cpp:262-347 | both phases together, the id taken out of the reply: the executor runs on the parameters of the request |
| GateRuns.ExecutionsAreConfirmed | src/confirmation_gate.cpp:262-323 | over every interleaving: each execution uses the stored parameters of one `request_<op>`, at most once per id, taken younger than the TTL by an allowlisted caller |
| GateRuns.IssuedByOneCall | src/confirmation_gate.cpp:227-239 | every stored entry is, field by field, what one request call of the run carried |
| GateRuns.TakenByOneCall | src/confirmation_gate.cpp:281-309 | every taking is what one confirm call of the run did: approved caller, that id presented, that time |
| GateRuns.LedgerBalances | src/confirmation_gate.cpp:217-251 | issued ids are the disjoint union of pending, taken and expired, and the id of the next request, at any clock reading, is not among them |
| GateRuns.PendingIsBounded | src/confirmation_gate.cpp:217-251 | after a store or take the map holds at most the requests made within the last TTL; with a TTL that is not positive, at most the one just stored |
| GateRuns.PendingHasNoFixedBound | src/confirmation_gate.cpp:227-239 | for every n some run of n requests leaves n entries |
| GateRuns.YoungRequestIsHonoured | src/confirmation_gate.cpp:241-319 | an untaken, unexpired request is executed for any allowed caller who presents its id |
| GateRuns.DeniedChangesNothing | src/confirmation_gate.cpp:285-299 | over every run a denied confirm changes nothing but the time, and stays denied with the same reply for any parameters |
| GateRuns.Replay | src/confirmation_gate.cpp:262-323 | every run of the state machine, replayed on a gate object call by call, leaves the object's map equal to the state's |
| GateRuns.PerformCall | src/confirmation_gate.cpp:262-323 | one route call is one step, and the executor gets the entry the step puts in flight |
| Concurrent.ResponseChannel.Signal | src/concurrent.cpp:43-45 | after the write the pipe is readable, also when it was full |
| Concurrent.ResponseChannel.TryPop | src/concurrent.cpp:48-55 | the oldest reply leaves the queue, or none |
| Concurrent.ResponseChannel.ReadWake | src/concurrent.cpp:76-81 | one read takes up to 64 bytes; only an empty pipe has nothing to read |
| Concurrent.ResponseChannel.DrainWakePipe | src/concurrent.cpp:73-83 | with no writer in between, reads until the pipe is empty |
| Concurrent.Replay | src/concurrent.cpp:34-83 | every run of the state machine, with all its interleavings, replayed on a channel object region by region, leaves queue and pipe equal to the state's |
| Concurrent.WakeupIsKept | src/concurrent.cpp:38-153 | every step keeps: queued replies mean a readable pipe, a pusher before its write, or a loop between drain and last empty pop |
| Concurrent.InvariantHolds | src/concurrent.cpp:101-198 | the wake-up, conservation, order and refusal invariants hold along every run |
| Concurrent.LoopServesBoth | src/concurrent.cpp:145-156 | the loop drains first if the pipe is readable and then, if the client was ready too, receives |
| Concurrent.ReceivingStartsTasks | src/concurrent.cpp:110-176 | an accepted request gets a worker, a rejected one is refused before the next poll, a shutdown or lost connection stops the loop |
| Concurrent.WorkerEndsOnce | src/concurrent.cpp:120-134 | a worker ends once, with what its handler returned or threw, and only then pushes |
| Concurrent.BlockedLoopOwesNothing | src/concurrent.cpp:145-153 | a loop blocked in poll with nobody mid-push has handed over everything pushed |
| Concurrent.RepliesAreConserved | src/concurrent.cpp:38-153 | handed over, in hand and queued are the push order; each request contributes a prefix of its own envelopes, all of them once it is done |
| Concurrent.OneErrorEach | src/concurrent.cpp:110-134 | a rejected request, or one whose handler threw, contributes exactly one error under its own action id |
| Concurrent.ReturnedAreReplied | src/concurrent.cpp:121-134 | a finished handler's envelopes are pushed in its own order: a prefix so far, and all of them or one more push to come |
| Concurrent.ReplyDeterminesResult | src/concurrent.cpp:87-99 | a reply carries its action id and determines the result: data on success, the message on failure, never both |
| Concurrent.TasksAreStable | src/concurrent.cpp:110-134 | a request keeps its id and outcome, and nothing pushed or handed over is lost later |
| Concurrent.SweepHandsOverAll | src/concurrent.cpp:149-153 | whatever the workers do meanwhile, a sweep that ends on an empty pop has handed over everything enqueued before that pop |
| Concurrent.QueuedRepliesAreDelivered | src/concurrent.cpp:145-153 | from every reachable state in which the loop is neither receiving nor stopped, it can still hand over everything pushed so far |

## Left out

- Sockets, poll, TLS, DNS and the HTTP upgrade handshake: replaced by scripted system calls and a source of byte chunks.
- zstd, HMAC, HKDF, SHA-1, base64 and protobuf internals: foreign code; zstd's allocation failure in `zstd_compress_level3` is not modelled, and `Actions.Codec` is only a pair of functions.
- Transport.ReadFrame: when a call fails, which of the two errors and how much of the frame was taken depends on the script and is not spelled out; the bytes already read are dropped, as in the code.
- Client.VynkorClient.RecvFrame: the same when a read fails; how many fragments were absorbed before it is not spelled out.
- WebSocketStream.WsConnection.Send: pongs and close echoes are written whole; partial and failing writes of `stream_write_all` are modelled for `Gateway.SendWs` only.
- GateRuns.ExecutionsAreConfirmed: runs end before the 64-bit counter wraps, and all clock readings come from one non-decreasing clock.
- Concurrent.ResponseChannel.DrainWakePipe: alone, without concurrent writers; the state machine and `Concurrent.Replay` take it read by read, with writers in between.
- Concurrent.QueuedRepliesAreDelivered: says nothing about replies still queued when the loop exits; the code joins the workers and does not drain the queue again.
- A write to the wake pipe that is interrupted before it writes: a non-blocking pipe write does not return EINTR.
- Reconnects and moves: one connection on one object; `connect`, `close` and the move operations do not reset or carry all state.
- Correlation of `EventPublishAck` and kernel `Error` envelopes: they carry no request id.
- General JSON: the extractor accepts no blank before a key; only the shapes the SDK prints are claimed.
- The gate's constructor checks, `manifest_entries`, `pending_count`, `src/env.cpp`, `parse_ws_url`, `Plugin::serve`, `register_full`, event handling and the fire-and-forget senders: they would only add easy members.
- `pack_frame` and `pack_frame_mac`: the uncompressed special cases of `pack_frame_raw`.
