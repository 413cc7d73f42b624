# micro_xrce_dds_rs: a verified model of the XRCE-DDS client session and its codecs

This Dafny project models the client side of Micro XRCE-DDS over TCP as the crate implements it, and
proves what it keeps over whole runs. The layers, bottom up:

| file | what it models |
|---|---|
| `Bytes.dfy`, `Protocol.dfy` | words and byte orders; constants, object ids, request counter |
| `Layout.dfy` | words, padding and strings in a byte stream, in plain numbers |
| `Cdr.dfy` | CDR (sections 15.3.1.1 and 15.3.2.7 of CORBA 3.0) as pure functions: what a field puts on the wire at a position, what a read takes, round trip, exact failure, truncation |
| `CdrWriter.dfy`, `CdrReader.dfy` | the two cursor objects, proved against `Cdr` |
| `Messages.dfy` | `Range`, `Imu` and `StringOwned`, call by call |
| `CdrLayout.dfy`, `Unicode.dfy` | what the CDR layer writes and reads, byte by byte; UTF-8 as encoded scalar values |
| `Framing.dfy` | length-prefixed frames, the transport with arbitrary short reads and writes, the transfer loops |
| `AgentWire.dfy` | the client's messages (sections 8.3.2, 8.3.4 and 8.3.5 of DDS-XRCE 1.0, in the layout the crate writes), and a reference agent decoder that inverts them |
| `MessageLayout.dfy`, `ReplyLayout.dfy` | the client's messages and the agent's replies, byte by byte |
| `MsgWriter.dfy` | the bounded in-place writer and all encoders |
| `Dispatch.dfy` | the dispatch table as a state machine, refined by one bounded FIFO per subscription |
| `Subscription.dfy` | the subscription handle |
| `Waiting.dfy` | waiting for STATUS and spinning, as functions of the bytes to come |
| `Replies.dfy` | several waits in turn over a stream of replies, and a session that has fallen behind it |
| `History.dfy` | what a session has sent, the laws of that history, and the theorems about every run |
| `Names.dfy` | topic names and XML formatted into strings of fixed capacity |
| `Session.dfy` | the session object: every API call, with counters, buffers and table updated in place |
| `EndToEnd.dfy` | publisher to inbox through a relaying agent, for messages and for two session objects |
| `Runs.dfy` | what `Valid()`, kept by every call, means for any session at the end of any run |

How to read it. `CdrWriter` and `MsgWriter` carry a ghost stream `ideal`: what an unbounded buffer would
hold. Their invariant says that the real buffer shows `ideal` as far as the slice reaches and is otherwise
untouched. A Rust slice that starts past the end of the buffer panics; the `requires` of a raw write rules
that out, and the `CanWrite` that the typed writes require holds exactly when all their raw writes start
inside the slice (`CdrWriting.CanWriteExact`).

`Session` carries ghost records: `history` (every message a sequence number was drawn for, with what
became of it), `trace` (frames read, consumer polls, registrations, in the order they happened), `slots`
(the abstract dispatch table, equal to the run of the trace from an empty table, one slot for each
registered object in `owners`), `allocs` (how many objects of each kind were numbered) and `calls` (how many
create calls were made). `Sound()` holds between any two requests and `Valid()` between any two calls. A connection is
either reliable or may fault at any call; on a reliable one the outcome of every call is determined by the
bytes that arrive and is stated as an equation. Consumers poll between any two frames.

The encoding functions are pinned by layouts that do not use them: `Layout`, `CdrLayout`, `MessageLayout` and
`ReplyLayout` say in plain numbers which byte stands where, and `Unicode` what UTF-8 is. A connection keeps a
ghost record of the calls that faulted, of those that moved no bytes, and of what was flushed; every call's
`Io` and `Disconnected` are stated against it (`Framing.Blamed`), faulty connections included.

A message is the list of its fields and a message type is the list of kinds read back; f32 and f64 are bit
patterns. UTF-8 well-formedness is defined in full (Unicode Standard, table 3-7).

Where the code does less than its comments say, the model follows the code:

- `publish` cannot return `BufferTooSmall` (src/session.rs:234): the byte count is already capped
  (src/cdr.rs:85-87). A body that does not fit either panics in `raw`, or is cut silently and sent. For a
  lone string exactly one length is cut, and loses its terminator (`CdrWriting.SilentStringTruncation`).
- A relayed DATA frame is four bytes longer than the WRITE_DATA frame it came from, so between sessions of one
  header form the four longest bodies that can be published, and every body that was cut, cannot be received:
  the read fails with `BufferTooSmall` (`EndToEnd.PublishedMessageArrives`,
  `EndToEnd.CutMessageNeverArrives`). Only a receiver without a key in its header reads what a sender with one
  has cut, and then the message does not decode.
- That failing read takes the length of the frame and leaves the frame in the stream (src/session.rs:375-377).
  A session that goes on reading takes the frame's first bytes for the next length and what follows for
  frames (`EndToEnd.RefusedFrameReread`, `EndToEnd.RefusedBodyReadAsFrames`).
- A write that fails in the middle of a frame leaves the part that was written, and the session can go on. The
  peer is then out of step, unless nothing or all of the frame was written
  (`Framing.FramingSurvivesExactly`).
- `create_subscription` sets the reader id after the last reply, so samples for the reader that come before
  it, which `send_read_data` expects (src/session.rs:336-337), are lost (`Dispatch.NobodyAnswers`).
- Nodes and publishers are bound to no session. For a handle of another session nothing ties the ids in the
  messages to entities that the agent has accepted here (`History.FirstReferenceIsForeign`); each message on
  record says whether its handle is the session's own.
- With 32-bit `usize` a string whose count word is near 2^32 makes the reader slice backwards and panic
  (`Cdr.StringReadWrapsExactly`, `Cdr.LargestCountPanics`).
- Object ids of one kind repeat when their indices agree modulo 4096 (`Protocol.ObjectIdCollision`).
- On buffers of odd length the participant encoder can slice past the end
  (`MsgWriting.ParticipantSafeExact`); the session's buffer has 768 bytes.
- One frame shorter than a header ends a wait that leaves its reply unread. From then on every request is
  answered with the reply to an earlier one and fails; nothing catches up
  (`Replies.OneShortFrameDesynchronises`, `Runs.CallsBehindFail`).
- A subscription registered a second time is in the table twice under its new reader id, and no longer
  answers for the old one (`Sessions.Session.Register`).
- A frame of 65536 bytes or more, or one too long for the receiver, is not recovered
  (`Framing.FramesRoundTripExact`).

## Model

| member | source | states |
|---|---|---|
| `Protocol.ObjectIdIsShiftAndMask` | src/protocol.rs:99-101 | the bitwise or of the index shifted left by four in 16 bits and the low four bits of the kind is the arithmetic id used here |
| `Protocol.ObjectIdCollision` | src/protocol.rs:99-101 | two ids are equal if and only if the kinds are and the indices agree modulo 4096 |
| `Protocol.NextReqIsReqAt` | src/session.rs:427-431 | stepping the request counter walks 1, 2, ..., 65535, 1, ...: the k-th id is 1 + k mod 65535 |
| `Protocol.RequestIdsAgree` | src/session.rs:427-431 | two draws give the same id if and only if they are a multiple of 65535 apart |
| `Bytes.AlignUpIsNextMultiple` | src/cdr.rs:96-107 | padding leads to the least multiple of the alignment that is not behind the position |
| `Layout.LeAt` | src/cdr.rs:37-59 | byte i of a written word is its i-th digit to the base 256, lowest first |
| `Layout.FromLeAt` | src/cdr_reader.rs:44-64 | byte i of what is read is that digit of the value |
| `Cdr.FieldRoundTrip` | src/cdr.rs:33-82 | a field of any kind written at any position is read back from there, whatever surrounds it, and the reader ends where the writer did |
| `Cdr.ArrayRoundTrip` | src/cdr_reader.rs:66-73 | one alignment by the writer and one per element by the reader agree, from any position |
| `Cdr.StringRoundTrip` | src/cdr.rs:63-68 | length word, text and terminator are read back as the text at any position |
| `Cdr.MessageRoundTrip` | src/cdr_reader.rs:34-103 | any list of fields, from any starting position, is read back field for field with prefix and suffix untouched |
| `Cdr.UniquelyDecodable` | src/cdr.rs:33-82 | no message's bytes begin another message's of the same type |
| `Cdr.FieldReadExact` | src/cdr_reader.rs:34-103 | a read fails if and only if its layout runs past the end (or the text is not acceptable); the position never moves back and a success ends exactly at the layout's end |
| `Cdr.MessageReadStable` | src/cdr_reader.rs:96-103 | a read that succeeds on a prefix is unchanged by what follows and ends within the prefix |
| `Cdr.TruncationDetected` | src/cdr_reader.rs:96-103 | every proper prefix of an encoding is refused, wherever it is cut |
| `Cdr.DecodedHasSchema` | src/cdr_reader.rs:34-87 | whatever the bytes, a successful read yields fields of the kinds asked for |
| `Cdr.TakeWrapsExactly` | src/cdr_reader.rs:96-103 | with 32-bit positions a take differs from the unbounded one if and only if the sum wraps to a point inside the buffer, and then it slices backwards |
| `Cdr.StringReadWrapsExactly` | src/cdr_reader.rs:77-87 | with 32-bit positions a string read panics if and only if its count word reaches past 2^32 from where the text begins, and is otherwise the unbounded one |
| `Cdr.LargestCountPanics` | src/cdr_reader.rs:77-87 | a body that starts with a count word of all ones is such an input |
| `CdrWriting.CanWriteExact` | src/cdr.rs:109-114 | the guard of a write holds if and only if every raw write behind it, as the writer records them, starts inside the buffer |
| `CdrWriting.CanWriteAllExact` | src/cdr.rs:109-114 | the same for a whole message |
| `CdrWriting.FittingMessageIsSafe` | src/cdr.rs:96-114 | a message that fits is written without slicing past the end |
| `CdrWriting.SilentStringTruncation` | src/cdr.rs:63-68 | a lone string is written without a panic and does not fit for exactly one length, and then loses only its terminator |
| `CdrWriting.CdrWriter.constructor` | src/cdr.rs:20-22 | an empty stream over the slice, buffer untouched |
| `CdrWriting.CdrWriter.Raw` | src/cdr.rs:109-114 | appends its argument to the ideal stream; the buffer shows what fits and nothing else changes; needs a start inside the slice, and records it |
| `CdrWriting.CdrWriter.Align` | src/cdr.rs:96-107 | appends zero padding up to the alignment, from any position, past the end included |
| `CdrWriting.CdrWriter.U8Val` | src/cdr.rs:33-35 | appends the field's encoding at the current position |
| `CdrWriting.CdrWriter.BoolVal` | src/cdr.rs:47-49 | appends 1 or 0 |
| `CdrWriting.CdrWriter.U32Val` | src/cdr.rs:37-40 | appends the field's encoding at the current position, low byte first (`CdrLayout.FieldInBytes`) |
| `CdrWriting.CdrWriter.I32Val` | src/cdr.rs:42-45 | appends the two's complement encoding at the current position |
| `CdrWriting.CdrWriter.F32Val` | src/cdr.rs:51-54 | appends the bit pattern aligned to 4 |
| `CdrWriting.CdrWriter.F64Val` | src/cdr.rs:56-59 | appends the bit pattern aligned to 8 |
| `CdrWriting.CdrWriter.StringVal` | src/cdr.rs:63-68 | appends length word, text and terminator |
| `CdrWriting.CdrWriter.F64Array` | src/cdr.rs:70-82 | appends one alignment and the elements back to back, element loop included |
| `CdrWriting.CdrWriter.WriteAll` | src/message.rs:24-25 | writing a message's fields in order appends exactly its encoding, by raw writes that start where listed |
| `CdrWriting.CdrWriter.BytesWritten` | src/cdr.rs:85-87 | the smaller of what was written and what the slice holds, and so much of the ideal stream is in the slice |
| `CdrWriting.CdrWriter.Finish` | src/cdr.rs:89-92 | the bytes handed back are the ideal stream cut at the slice's end |
| `CdrReading.CdrReader.constructor` | src/cdr_reader.rs:19-22 | four bytes are skipped, or the body is empty |
| `CdrReading.CdrReader.FromBody` | src/cdr_reader.rs:26-28 | the whole argument is the body |
| `CdrReading.CdrReader.Remaining` | src/cdr_reader.rs:30-32 | a positive number of bytes can be taken if and only if it is not more than this |
| `CdrReading.CdrReader.TakeBytes` | src/cdr_reader.rs:96-103 | a slice inside the body or Deserialization with the position kept, for positions that do not wrap |
| `CdrReading.CdrReader.Align` | src/cdr_reader.rs:89-94 | moves to the next multiple |
| `CdrReading.CdrReader.U8Val` | src/cdr_reader.rs:34-38 | value and position are the decoding function's, on success and on failure |
| `CdrReading.CdrReader.BoolVal` | src/cdr_reader.rs:40-42 | any nonzero byte is true |
| `CdrReading.CdrReader.U32Val` | src/cdr_reader.rs:50-54 | aligned word, low byte first (`CdrLayout.ReadInBytes`); a failed read leaves the position aligned |
| `CdrReading.CdrReader.I32Val` | src/cdr_reader.rs:44-48 | two's complement of the aligned word |
| `CdrReading.CdrReader.F64Val` | src/cdr_reader.rs:60-64 | aligned 8-byte bit pattern |
| `CdrReading.CdrReader.F64Array` | src/cdr_reader.rs:66-73 | fills the array element by element and is the array decoding function |
| `CdrReading.CdrReader.StringBytes` | src/cdr_reader.rs:77-87 | the text without its terminator; a zero count is an empty string that skips nothing |
| `CdrReading.CdrReader.ReadField` | src/cdr_reader.rs:34-87 | one typed read is the decoding function of its kind; the only error is Deserialization |
| `CdrReading.CdrReader.ReadAll` | src/message.rs:27-29 | reading fields in order, stopping at the first failure, is the message decoding function |
| `Messages.WriteHeaderZero` | src/ros2/msg/std_msgs.rs:100-111 | writes zero time and empty frame id as the first three fields of the message |
| `Messages.ReadHeader` | src/ros2/msg/sensor_msgs.rs:41-43 | reads time and frame id, and fails only when they run past the end |
| `Messages.SerializeRange` | src/ros2/msg/sensor_msgs.rs:28-37 | the calls append exactly the encoding of header and fields |
| `Messages.DeserializeRange` | src/ros2/msg/sensor_msgs.rs:39-58 | succeeds if and only if the nine fields decode, with those field values |
| `Messages.RangeRoundTrip` | src/ros2/msg/sensor_msgs.rs:23-59 | every Range comes back, for all bit patterns and whatever header a publisher wrote |
| `Messages.SerializeImu` | src/ros2/msg/sensor_msgs.rs:91-99 | the calls append exactly the encoding of header and arrays |
| `Messages.DeserializeImu` | src/ros2/msg/sensor_msgs.rs:101-119 | succeeds if and only if header and six arrays decode, with those values |
| `Messages.ImuRoundTrip` | src/ros2/msg/sensor_msgs.rs:86-120 | every Imu comes back, for all bit patterns and whatever header a publisher wrote |
| `Messages.SerializeString` | src/ros2/msg/std_msgs.rs:84-86 | appends exactly the encoding of the text |
| `Messages.DeserializeString` | src/ros2/msg/std_msgs.rs:88-94 | succeeds if and only if the string decodes, is UTF-8 and fits the capacity |
| `Messages.StringRoundTripExact` | src/ros2/msg/std_msgs.rs:80-95 | a string comes back if and only if it is UTF-8 and within the capacity |
| `Messages.SerializedSizes` | src/ros2/msg/sensor_msgs.rs:25-89 | Range takes 36 bytes, Imu 312 and a string 5 more than its length, all within MAX_SERIALIZED_SIZE |
| `CdrLayout.FieldInBytes` | src/cdr.rs:33-107 | every field written anywhere is zero padding to its own alignment and then its bytes: words low byte first, true as 1, a string as count, text and zero, an array back to back |
| `CdrLayout.MessageInBytes` | src/cdr.rs:33-107 | every message written anywhere is its fields in order, each with that layout |
| `CdrLayout.RangeInBytes` | src/ros2/msg/sensor_msgs.rs:28-37 | the 36 bytes: zero time, empty frame id, type at 13, two zero bytes, and field of view, minimum, maximum, range and variance at 16, 20, 24, 28 and 32 |
| `CdrLayout.ImuInBytes` | src/ros2/msg/sensor_msgs.rs:91-99 | the 312 bytes: the same header, three zero bytes, and the six arrays at 16, 48, 120, 144, 216 and 240 |
| `CdrLayout.StringInBytes` | src/ros2/msg/std_msgs.rs:84-86 | count with terminator, text, zero |
| `CdrLayout.ReadInBytes` | src/cdr_reader.rs:34-103 | whatever a read of any kind gives is what the bytes at its aligned place say, and it ends where they do; any nonzero byte is true, a zero count is an empty string |
| `Unicode.Utf8Exactly` | src/ros2/msg/std_msgs.rs:90-90 | a byte string is accepted as UTF-8 if and only if it is the encoding of a sequence of Unicode scalar values |
| `Framing.TakeFrameExact` | src/framing.rs:14-43 | a frame comes back with what follows it if and only if it fits the receiver and its length 16 bits; a too-long one loses its prefix and leaves its payload |
| `Framing.TakenWasFramed` | src/framing.rs:26-43 | what is taken as a whole frame was sent as one |
| `Framing.FramesRoundTripExact` | src/framing.rs:14-43 | a list of frames is recovered in order, to the byte, if and only if each can be carried |
| `Framing.FramingSurvivesExactly` | src/framing.rs:14-43 | after a frame written in part, the peer reads just the later frames if and only if nothing of it was written, and it and the later ones if and only if all was |
| `Framing.PartialFrameSwallows` | src/framing.rs:26-43 | otherwise, once the length was written, exactly the missing bytes are taken from what is written next |
| `Framing.WriteAll` | src/framing.rs:45-54 | under any positive chunking all bytes are written, by shrinking the rest; on an error a proper prefix was; Io if and only if a call faulted, Disconnected if and only if one moved no bytes |
| `Framing.ReadExact` | src/framing.rs:56-74 | under any positive chunking the slice is filled with exactly the next bytes and the rest of the buffer kept; Io if and only if a call faulted, Disconnected if and only if one moved no bytes, and then the stream had ended |
| `Framing.WriteFramed` | src/framing.rs:14-22 | success means the whole frame was appended to what the peer gets and all of it was flushed; on an error a prefix of it was; Io if and only if a call faulted, Disconnected if and only if one moved no bytes |
| `Framing.ReadFramed` | src/session.rs:371-380 | reading a frame into a buffer is taking one from the stream, unless a call faulted, which is Io; the handshake reader and the session's loop are the same code |
| `AgentWire.ParseFrame` | src/session.rs:636-649 | header and payload are recovered, keyed or not, if and only if the 16-bit length is exact |
| `AgentWire.ParseCreatePayload` | src/session.rs:527-567 | ids, kind, xml and domain or parent are recovered from a CREATE payload |
| `AgentWire.AgentRecoversMessage` | src/session.rs:475-649 | the agent recovers every field of every message if and only if the payload length fits 16 bits |
| `AgentWire.WireInjective` | src/session.rs:475-649 | two messages with the same bytes are the same message |
| `MessageLayout.ParticipantInBytes` | src/session.rs:507-538 | the participant CREATE byte by byte: id, stream 1, number, key below 0x80; submessage 1, flags 7, length; ids high byte first; kind 1, representation 2; xml; domain |
| `MessageLayout.ChildInBytes` | src/session.rs:541-573 | the same for an entity with a parent, its kind, and the parent high byte first |
| `MessageLayout.ReadInBytes` | src/session.rs:575-610 | READ_DATA byte by byte: submessage 8, flags 1, ids, stream 1, format 0, two zero bytes |
| `MessageLayout.WriteInBytes` | src/session.rs:614-634 | WRITE_DATA byte by byte: submessage 7, flags 1, request 0, the writer, the body |
| `MessageLayout.ClientInBytes` | src/session.rs:475-504 | CREATE_CLIENT byte by byte: under id 0 or 0x80 on stream 0; submessage 0, flags 1; cookie, version, vendor, key, session id, no properties, MTU |
| `MsgWriting.MsgWriter.constructor` | src/session.rs:697-697 | an empty stream over the slice, no overflow |
| `MsgWriting.MsgWriter.Overflow` | src/session.rs:699-699 | true if and only if the ideal message is longer than the slice or a patch fell outside both |
| `MsgWriting.MsgWriter.U8` | src/session.rs:701-708 | appends one byte, counted even past the end |
| `MsgWriting.MsgWriter.Put` | src/session.rs:710-716 | appends bytes; the buffer shows what fits; needs a start inside the slice even for none, and records it |
| `MsgWriting.MsgWriter.U16Raw` | src/session.rs:709-709 | appends a little-endian word |
| `MsgWriting.MsgWriter.AlignBuf` | src/session.rs:717-720 | appends zero padding up to a multiple |
| `MsgWriting.MsgWriter.CdrAlign` | src/session.rs:721-724 | appends zero padding relative to an origin |
| `MsgWriting.MsgWriter.CdrU16` | src/session.rs:725-728 | appends an aligned word |
| `MsgWriting.MsgWriter.CdrI16` | src/session.rs:729-732 | appends an aligned two's complement word |
| `MsgWriting.MsgWriter.CdrU32` | src/session.rs:733-736 | appends an aligned double word |
| `MsgWriting.MsgWriter.CdrString` | src/session.rs:737-744 | appends the CDR string; BufferTooSmall if and only if the message so far does not fit |
| `MsgWriting.MsgWriter.PatchU16At` | src/session.rs:745-753 | changes two bytes of the slice and nothing else, at any offset in it; otherwise changes none and marks overflow |
| `MsgWriting.MsgWriter.WriteSessionHeader` | src/session.rs:636-649 | appends session id, stream, number low byte first, and the key below 0x80 only |
| `MsgWriting.ParticipantSafeExact` | src/session.rs:507-538 | the participant encoder never slices past the end if and only if its guard holds; from 24 bytes on only an odd buffer that the xml fills breaks it, so an even one is always safe |
| `MsgWriting.EncodeCreateParticipant` | src/session.rs:507-538 | BufferTooSmall if and only if the ideal message is longer than the buffer; otherwise exactly that message, in the bytes of its layout, the rest of the buffer kept; the buffer is sliced at exactly the points listed |
| `MsgWriting.EncodeCreateWithParent` | src/session.rs:541-573 | the same for an entity with a parent |
| `MsgWriting.EncodeReadData` | src/session.rs:575-610 | the same for READ_DATA |
| `MsgWriting.BuildCreateClient` | src/session.rs:475-504 | leaves the CREATE_CLIENT message, under the masked session id, cut at the end of the buffer and without an overflow test; shorter buffers make a raw write slice past the end |
| `MsgWriting.FinalizeWriteDataHeaders` | src/session.rs:614-634 | the frame becomes the WRITE_DATA message of the body that was there; body and everything behind it are kept |
| `Dispatch.FirstMatch` | src/session.rs:414-421 | the index found has the id and no earlier one does |
| `Dispatch.DispatchAt` | src/session.rs:382-423 | dispatching a frame changes exactly the slot that answers for the addressed reader, by delivering to it |
| `Dispatch.RunKeepsShape` | src/subscription.rs:84-99 | no frame and no poll changes the id, type or depth of a registered slot |
| `Dispatch.SubscriptionIsBoundedFifo` | src/session.rs:343-423 | in every interleaving of frames, polls and registrations, received plus queued is exactly the decodable samples addressed to the slot, in order, minus those that came while it was full |
| `Dispatch.LevelBounded` | src/subscription.rs:92-98 | an inbox never holds more than its depth |
| `Dispatch.EverySlotJoined` | src/session.rs:198-208 | every slot of a run joined at one point of it, behind exactly the slots that were there |
| `Dispatch.JoinedSubscriptionIsBoundedFifo` | src/session.rs:198-208 | the same from the moment a subscription joins a running session, with whatever is in its inbox, and within its depth if it was |
| `Dispatch.RoomyInboxGainsAll` | src/session.rs:264-282 | between registrations, with room for them, an inbox gains exactly the samples that the frames hold for it, in order, wherever consumers poll |
| `Dispatch.NobodyAnswers` | src/session.rs:336-337 | while no slot has a reader's id, every frame addressed to it leaves the whole table unchanged |
| `Subscriptions.Subscription.constructor` | src/subscription.rs:42-48 | no reader id, empty inbox |
| `Subscriptions.Subscription.TryRecv` | src/subscription.rs:56-58 | the oldest sample, removed, or none and no change |
| `Subscriptions.Subscription.SetDrId` | src/subscription.rs:60-62 | changes the id and nothing else |
| `Subscriptions.Subscription.TryDeliver` | src/subscription.rs:92-98 | appends the decoded sample if there is room; otherwise Deserialization or SubscriptionOverflow and no change |
| `Waiting.AcceptsIsParsed` | src/session.rs:672-686 | parsing a STATUS succeeds if and only if it has 6 bytes, the expected id and status 0 or 1 |
| `Waiting.SlicingsAgree` | src/session.rs:353-393 | the wait and the spin loop slice a payload to the same bytes |
| `Waiting.WaitDispatchIsSpinDispatch` | src/session.rs:355-366 | a frame read while waiting has the same effect on every inbox as when spinning |
| `Waiting.SpinTakesAll` | src/session.rs:264-282 | spinning takes every frame that can be carried, in order, up to the end of the stream |
| `Waiting.WaitSkips` | src/session.rs:343-369 | a wait reads past any number of frames that are not STATUS and ends as it would have without them |
| `Waiting.WaitSucceeds` | src/session.rs:343-369 | frames to skip and then an accepting STATUS make a wait succeed and consume exactly that much |
| `Waiting.WaitSucceededOn` | src/session.rs:343-369 | a wait that succeeded read such a prefix, to the byte |
| `Waiting.WaitOkExactly` | src/session.rs:343-369 | a wait succeeds if and only if the stream begins with frames that fit, hold a full header and are not STATUS, then a STATUS with the expected id and status 0 or 1 |
| `Waiting.WaitConsumes` | src/session.rs:343-369 | a wait that ends in a bad reply has consumed exactly the frames it read |
| `ReplyLayout.FrameInBytes` | src/framing.rs:14-22 | a frame is its length, low byte first, and its payload |
| `ReplyLayout.StatusAgentInBytes` | src/session.rs:653-670 | the handshake reply succeeds if and only if it is six bytes longer than the header, submessage 4, result 0; the result is reported, anything else is UnexpectedReply |
| `ReplyLayout.StatusAgentUnderstood` | src/session.rs:653-670 | from the agent's side: code 0 is success and any other code is reported as rejection with that code |
| `ReplyLayout.StatusInBytes` | src/session.rs:672-686 | a STATUS is submessage 5; under 6 bytes of payload it is UnexpectedReply, with another id, high byte first, a mismatch, with a result above 1 a rejection |
| `ReplyLayout.StatusUnderstood` | src/session.rs:672-686 | from the agent's side: request answered, object and result code are understood as sent |
| `ReplyLayout.WaitVerdict` | src/session.rs:343-369 | a wait reads past other frames and ends at the first one shorter than a header or STATUS, with exactly its verdict |
| `ReplyLayout.WaitBroken` | src/session.rs:371-380 | or it ends at a frame of more than 768 bytes, taking its length, or with the stream |
| `ReplyLayout.DataInBytes` | src/session.rs:382-413 | DATA is submessage 9; the reader is in bytes 2 and 3 of the payload, high byte first, the sample behind them up to the length or the frame's end |
| `Replies.WaitOnSegment` | src/session.rs:343-369 | a wait takes exactly one reply with the frames before it: the agent's verdict if the ids agree, StatusReqMismatch otherwise |
| `Replies.RequestsInTurnOkExactly` | src/session.rs:105-122 | requests in turn all succeed if and only if the stream begins with one accepting reply for each, for the ids in order, each behind frames to read past |
| `Replies.LagIsPermanent` | src/session.rs:672-686 | if the replies are behind the requests by a lag that is no multiple of 65535, every request fails with a mismatch for as long as replies come in order; otherwise each gets its verdict |
| `Replies.OneShortFrameDesynchronises` | src/session.rs:346-350 | one frame shorter than a header fails its wait with UnexpectedReply, and every later request with StatusReqMismatch |
| `Replies.CallBehindFails` | src/session.rs:105-209 | a call made while behind makes one request, fails with a mismatch and is as far behind afterwards |
| `Names.FormatCompleteExactly` | src/session.rs:110-111 | the formatted text is complete if and only if it fits, and a prefix of it otherwise |
| `Names.FormatKeepsWholePieces` | src/session.rs:110-111 | the formatted text is the longest run of whole pieces that fits |
| `Names.TopicNameExactly` | src/session.rs:447-454 | a topic is accepted if and only if it has at most 93 characters, not counting one slash in front; its name is rt/ and the topic without that slash |
| `Names.NodeXmlText` | src/session.rs:110-111 | the participant's text, complete if and only if it fits 128 characters |
| `Names.TopicXmlText` | src/session.rs:138-140 | the topic's text, name before type, complete if and only if it fits 256 |
| `Names.WriterXmlText` | src/session.rs:149-152 | the writer's text, name before type, complete if and only if it fits 320 |
| `Names.ReaderXmlText` | src/session.rs:189-192 | the reader's text, name before type, complete if and only if it fits 320 |
| `Names.FixedXmlTexts` | src/session.rs:297-309 | the texts of a node's publisher and subscriber |
| `Names.TopicNamesExact` | src/session.rs:448-454 | two topics that fit share a DDS name if and only if they are equal or one is the other, not rooted, with a slash in front |
| `History.AddKeepsLaws` | src/session.rs:286-339 | a message numbered and grounded as the calls do keeps every law of the history |
| `History.TraceGrows` | src/session.rs:264-272 | receiving keeps every law |
| `History.AllocKeepsLaws` | src/session.rs:437-442 | allocating an index keeps every law and the new index is in no message |
| `History.SequenceNumbersHaveNoGap` | src/session.rs:432-436 | a history in which every message was sent carries 0, 1, 2, ... modulo 65536 |
| `History.AgentSeesHistory` | src/session.rs:286-339 | an agent that reads the byte stream frame by frame and decodes it recovers exactly the history |
| `History.CreatedIdsDistinct` | src/session.rs:437-442 | kinds never collide; up to 4095 objects of a kind all ids are distinct, nonzero and rising |
| `History.RequestIdIdentifies` | src/session.rs:427-431 | up to 65535 requests an id identifies its request |
| `History.AcknowledgementsAreGenuine` | src/session.rs:672-686 | with an agent that answers once and in order, an accepted STATUS is the answer to that very request |
| `History.EveryReferenceWasAccepted` | src/session.rs:286-369 | every parent, reader and writer named in a message sent through an own handle was accepted by the agent in a reply read before the message was sent |
| `History.FirstReferenceIsForeign` | src/session.rs:126-259 | a session whose first message names an entity has used another session's handle, and the agent had accepted nothing |
| `Sessions.ReaderIdsIdentify` | src/session.rs:407-442 | up to 4095 readers no two registered ids agree, none is 0, first match is lookup by id, and they rise if nothing was registered twice |
| `Sessions.PacedByCall` | src/session.rs:105-209 | a call adds at most three requests and one object of each kind, so the number of calls bounds both |
| `Sessions.KindsAsked` | src/session.rs:126-209 | topics are kind 2 under a kind 1, writers 5 under a 3, readers 6 under a 4, publishers 3 under a 1 |
| `Sessions.Session.constructor` | src/session.rs:84-99 | the state after the handshake satisfies every invariant |
| `Sessions.Session.Connect` | src/session.rs:69-100 | CREATE_CLIENT goes out in the bytes of its layout; success if and only if one frame that fits 128 bytes is submessage 4 with at least two payload bytes, the first of them 0; every failure is named, with the agent's code, and Io if and only if a call faulted |
| `Sessions.Session.DrawNumbers` | src/session.rs:427-436 | the numbers drawn are those due after the messages and requests on record |
| `Sessions.Session.AllocParticipant` | src/session.rs:437-437 | the next index of its kind, in no message yet, all invariants kept |
| `Sessions.Session.AllocTopic` | src/session.rs:438-438 | the next index of its kind, in no message yet, all invariants kept |
| `Sessions.Session.AllocPublisher` | src/session.rs:439-439 | the next index of its kind, in no message yet, all invariants kept |
| `Sessions.Session.AllocSubscriber` | src/session.rs:440-440 | the next index of its kind, in no message yet, all invariants kept |
| `Sessions.Session.AllocDw` | src/session.rs:441-441 | the next index of its kind, in no message yet, all invariants kept |
| `Sessions.Session.AllocDr` | src/session.rs:442-442 | the next index of its kind, in no message yet, all invariants kept |
| `Sessions.Session.MatchIsFirst` | src/session.rs:414-421 | the first entry of the table with an id is the first registered object with it, also when objects are in the table twice |
| `Sessions.Session.DispatchDataPayload` | src/session.rs:407-423 | the loop over the registered objects is first-match delivery |
| `Sessions.Session.DispatchFrame` | src/session.rs:382-405 | the registered objects take the state machine's step for this frame |
| `Sessions.Session.ReadOneFrame` | src/session.rs:371-380 | takes one frame from the stream, consumers polling before it |
| `Sessions.Session.WaitStatusFor` | src/session.rs:343-369 | unless a call faults, which is Io, result, bytes consumed and frames dispatched are what the stream determines; success means an accepting STATUS was the last frame read |
| `Sessions.Session.SendAndWait` | src/session.rs:293-294 | one request goes on record, acknowledged if and only if the call succeeds; if it was sent, all of it was flushed; Io if and only if a call faulted |
| `Sessions.Session.CreateParticipantEntity` | src/session.rs:286-295 | one participant CREATE with the next numbers, then the wait; always sent when the xml fits its string |
| `Sessions.Session.CreatePublisherEntity` | src/session.rs:297-302 | one publisher CREATE under the participant, then the wait |
| `Sessions.Session.CreateSubscriberEntity` | src/session.rs:304-309 | one subscriber CREATE under the participant, then the wait |
| `Sessions.Session.CreateWithParentEntity` | src/session.rs:311-327 | one CREATE with the next numbers under an acknowledged parent, then the wait; always sent when the xml fits its string |
| `Sessions.Session.SendReadData` | src/session.rs:329-339 | one READ_DATA for an acknowledged reader, always encoded, then the wait |
| `Sessions.Session.CreateNode` | src/session.rs:105-122 | three requests in turn decide the outcome and how many are made; whatever it is, exactly one index of each of three kinds is spent and the messages on record are participant, publisher and subscriber with those indices, each under the first, as far as acknowledgements went |
| `Sessions.Session.CreatePublisher` | src/session.rs:126-159 | for any node: two requests in turn decide the outcome and how many are made; topic under the participant, then writer under the publisher; the indices spent and messages on record are named for every outcome, none for a name that is too long |
| `Sessions.Session.CreateWriter` | src/session.rs:146-156 | one CREATE of the writer with the next index, under the node's publisher |
| `Sessions.Session.CreateSubscription` | src/session.rs:164-209 | for any node: no room if and only if the table is full on entry; every error leaves the table and the slot's id as before; success adds the slot, new or registered before, under its acknowledged reader; indices spent and messages on record are named for every outcome; frames that arrive meanwhile are dispatched, but those for the new reader are lost |
| `Sessions.Session.CreateReader` | src/session.rs:186-199 | one CREATE of the reader with the next index and then READ_DATA for it |
| `Sessions.Session.Register` | src/session.rs:201-206 | the slot takes the id and is pushed; a slot that is there already stays one FIFO, under the new id |
| `Sessions.Session.LayOut` | src/session.rs:224-256 | the transmit buffer holds exactly the WRITE_DATA message of the encoded body |
| `Sessions.Session.Publish` | src/session.rs:212-259 | for any publisher: the frame sent is the WRITE_DATA message of the body, whole if it fits, and flushed; never BufferTooSmall; Io if and only if a call faulted, Disconnected if and only if one moved no bytes, with a prefix of the frame written |
| `Sessions.Session.SpinOnce` | src/session.rs:264-272 | takes one frame of at most 768 bytes and dispatches it, or nothing; every outcome named, Io if and only if a call faulted |
| `Sessions.Session.Spin` | src/session.rs:276-282 | dispatches every frame up to the first error, which is Io if and only if a call faulted |
| `Sessions.Session.Poll` | src/subscription.rs:56-58 | a consumer between two calls gets the oldest sample or none; every invariant of the session is kept |
| `EndToEnd.EncapsulatedRoundTrip` | src/cdr_reader.rs:19-22 | an encoded message behind any encapsulation header is deserialized to itself |
| `EndToEnd.PublishedMessageArrives` | src/session.rs:212-423 | the frame of a message that fits is decoded by the agent to that message; the frame it relays, read from the stream, appends the message to exactly that inbox if there is room and changes no other, or is refused if it does not leave the four bytes more |
| `EndToEnd.RelayedFrameCarriedExactly` | src/session.rs:371-380 | the relayed frame can be received if and only if the body leaves four bytes more than publishing needs |
| `EndToEnd.CutFrameCarriedExactly` | src/session.rs:228-380 | the frame relayed from a cut body can be received if and only if the sender's header has a key and the receiver's has none |
| `EndToEnd.CutMessageNeverArrives` | src/session.rs:228-236 | a message cut when published never arrives: its frame is refused and left in the stream, or, from a keyed sender to a keyless receiver, read and dropped without a change to any inbox |
| `EndToEnd.StringOneTooLongNeverArrives` | src/session.rs:228-236 | the one string length that is cut silently is written without a panic, loses its terminator and never arrives, in the same two ways |
| `EndToEnd.RefusedFrameReread` | src/session.rs:371-380 | after a refusal the next turns read the stream from the third byte of the refused frame, with its first two as the length |
| `EndToEnd.RefusedBodyReadAsFrames` | src/session.rs:371-405 | if that ends in the message's body, what the body holds from there on is read as frames |
| `EndToEnd.StreamArrives` | src/session.rs:264-282 | spinning over the bytes of any number of relayed messages among other traffic takes every frame and brings the subscription exactly those messages, in order, wherever consumers poll |
| `EndToEnd.SamplesReachNoOther` | src/session.rs:407-423 | every other subscription receives exactly what it would have without the relayed messages |
| `EndToEnd.PublishRelayTurn` | src/session.rs:212-272 | for any message that can be published, on session objects: the receiver's turn succeeds if and only if the relayed body leaves four bytes, and otherwise leaves the frame in the stream |
| `EndToEnd.PublishRelaySpin` | src/session.rs:212-282 | a session that publishes, an agent that relays among other traffic, and a session, another or the same, that spins in between and at the end: everything published and nothing else reaches the subscription object, in order |
| `Runs.HandlesReferToAcceptedEntities` | src/session.rs:105-209 | in any run with an agent that answers in order, nodes and publishers returned and subscriptions registered refer only to entities the agent accepted |
| `Runs.MessagesReferToAcceptedEntities` | src/session.rs:286-369 | in any run with such an agent, what a message sent through an own handle refers to was accepted before it was sent |
| `Runs.SubscriptionsAreFifos` | src/subscription.rs:50-99 | in any run, each registered object entered the table at some point and has been a bounded FIFO of what was addressed to it since |
| `Runs.ReaderIdsIdentifyInSession` | src/session.rs:407-423 | in any run with up to 4095 readers the table has at most 8 entries, with nonzero ids that differ between objects, and first match is lookup by id |
| `Runs.StreamIsHistory` | src/session.rs:286-339 | in any run on an error-free connection every message is encoded and sent, the peer's stream decodes to the history, and it is numbered without a gap |
| `Runs.MessagesInBytes` | src/session.rs:286-339 | in any run every message on record has the layout of its kind, with the session's id and key, stream 1 and its own number |
| `Runs.ObjectIdsDistinctInSession` | src/session.rs:437-442 | in any run with up to 4095 objects of a kind no two creations share an id |
| `Runs.BoundedRun` | src/session.rs:105-209 | in any run of up to 4095 create calls no object or request id is used twice and dispatch is lookup by id; with an agent that answers in order every handle, and every reference through an own handle, is to an accepted entity |
| `Runs.CallsBehindFail` | src/session.rs:105-122 | a session that is behind fails every call to create a node with a mismatch, for as long as replies come in order |

## Left out

- The async runtime, wakers and task cancellation: a connection is the bytes that will arrive and arbitrary positive chunk sizes; the inbox channel's sends and receives are single steps.
- Atomics and memory ordering of the reader id: one read or write is one step.
- Logging, `defmt` formatting and the build script: no behaviour.
- Floating-point arithmetic: only bit patterns are moved.
- CdrReading.CdrReader.TakeBytes: positions do not wrap, as `pos + n` could with 32-bit `usize`; `Cdr.TakeWrapsExactly` says exactly when that would differ.
- Machine words for counters: the u16 counters wrap at 65536 as release builds do, where a debug build would stop at index 65535.
- XML escaping: names go into the XML as they are; names are byte strings, a `char` below 256 standing for one byte.
- `Twist`, `Float32`, `Int32` and the borrowed `String`: instances of the field lists that add nothing (the borrowed form cannot be deserialized at all).
- `CdrWriter::header`: a raw write of four bytes that no message uses.
- The `MAX_SERIALIZED_SIZE` comparison in `publish`: it only logs.
- Agent internals and DDS discovery: the agent is a decoder, a relay of one body, and the assumption that it answers each request once and in order.
- Reliable streams, fragments, ACKNACK, HEARTBEAT and second submessages: the code does not implement them.
- Sessions.Session.ConsumersRun: consumers of slots that are not registered are not tracked; nothing is delivered to such a slot.
- Sessions.Session.Spin: ends with the first error as the code does; that a live connection never ends is not modelled, since the stream to come is finite.
