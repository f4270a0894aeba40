# RTMP chunk stream, AMF0 and media queues: a verified model

This project models the stateful core of an RTMP server and proves what it is for.

- **Chunk stream.** Messages are cut into chunks by a simple sender and by a batching one, and
  put together again by a receiver that keeps one state per chunk stream id, four header formats
  with inherited fields, in-band chunk sizes, and a sliding buffer filled by short reads.
- **AMF0.** A recursive self-describing value format with writers, readers, a size computed
  beforehand and an insertion-ordered property table, and the packets built from it.
- **Media queues.** Reordering of audio and video, bounded queues, timestamp correction,
  reference-counted messages, and ue(v) decoding.

Code that changes state in place is a class or a method with loops, tied by its postconditions to
a specification function; the theorems are about those functions.

| files | contents |
|---|---|
| Bytes, RtmpConsts | fixed-width integers, constants |
| FastBuffer, ChunkReader, ChunkReceiver | receive buffer, receive specification, receiving half of Protocol |
| ChunkWriter, ChunkSender | header writers, sending half of Protocol |
| ReceiveFailures | how many chunks a message takes, and where each error comes from |
| ChunkPeer, ChunkRuns | any peer as a state machine over chunks, and its runs against the receiver |
| ServerRuns, PacketRuns, Interleaving, HeaderCompression | the theorems about whole connections |
| BufferManager, PropertyTable, Amf0, Amf0Reader, Amf0Writer, Packets | the codec |
| Media, MixQueue, MessageQueue, SharedMessages, ExpGolomb | the media side |

## How the world is modelled

A socket is the byte sequence its peer sent, handed out in reads of arbitrary positive length up to
the limit asked for; at the end of the sequence a read fails. A vectored write either fails or takes everything.
An error ends a connection: the state behind a failed receive call is not described, and neither
is which prefix a failed batch has sent.

The extended-timestamp threshold is a parameter `threshold` of every statement. As the code is
written it is 0xffffffff (protocol/rtmp_consts.hpp:63), out of reach of the 24-bit field it is compared
with; section 5.3.1.3 of Adobe's RTMP Specification 1.0 says 0xffffff. Only `InStep` messages (below
the threshold, or any once the threshold fits the field) are decoded in step; `OutOfStep` says
what happens to the others, `ArrivesIntact` which messages come through unchanged, and
`RoundTripAsWritten` and `RoundTripOfSpecification` are the round trip at the two thresholds.

Numbers and dates are 64-bit patterns, other fields the unsigned patterns of their width, where
the source's signedness does not decide a branch; where it does (chunk size, AMF0 text length) the
conversion is explicit. Messages on the media side carry a number `id` that tells equal ones apart.

## What the code does that its intent does not

Each is kept as the code has it, and stated as a lemma with the exact condition.

- The stream id is written little-endian and read big-endian: `ByteSwapFixedPoints`.
- The extended-timestamp threshold cannot be reached: `ArrivesIntact`, `OutOfStep`.
- A misplaced parenthesis (protocol/rtmp_stack.cpp:611) turns every message header error into 1:
  `RecvMessageFailures`, `ChunkFailures`, `HeaderFailures`.
- Once the threshold can be reached, an extended timestamp delta, and any type-3 header that
  starts a message behind an extended timestamp, is read as a time and not added:
  `DeltaAddsExactly`, `ShownInFullExactly`, and over whole runs `ClockMeetsSpecification`.
- Continuation chunks may leave out the extended timestamp, but only while the bytes in its
  place cannot be taken for it: `BareChunkReadsAlike`. An extended delta inside a message is
  mostly taken for payload: `ExtendedInsideMessage`.
- Window acknowledgement sizes are decoded as user control messages, because the type test
  (protocol/rtmp_message.cpp:153-158) always answers yes, and are dropped: `WindowAckSizeIsDropped`.
- The sender adopts chunk sizes its receiver refuses: `AnnouncementAgreement`.
- Texts of 2^15 bytes and more are not read back: `Utf8RoundTripExactly`, `TextReads`.
- A missing end marker is not noticed at the end of the input: `MissingEndIsTolerated`.
- Some numbers are taken for an end marker: `NumberLooksLikeEnd`.
- Two packets count the size of a placeholder object but write a null for it, so that only a
  one-byte placeholder such as the default null fills the allocation: `FillsExactly`, `CreateStreamResRoundTrip`.
- Shrinking a queue looks for video headers among audio messages: `VideoHeadersAreLost`.
- The start of a queue's span is -1 until the first dump or overflow: `FirstMessage`.
- MixQueue asks twice whether audio is held (common/queue.hpp:210), so that a single audio message
  lets one go and late video leaves late: `WhenOneLeaves`, `OneAudioIsEnough`, `OrderedExactly`.
- A single 0 bit at the end of the input reads as the value 0: `ReadsZeros`.

## Model

| member | source | states |
|---|---|---|
| `ServerRuns.SendReceiveRoundTrip` | protocol/rtmp_stack.cpp:645-932 | for every list of sendable messages with chunk-size announcements among them, the bytes sent from connection start make RecvMessage return, in order, exactly the accepted ones (non-empty; of type 1 announcing at least 128; of types 4 and 5 as long as their event needs; of every other type all), and both chunk sizes agree at the end; as it holds of every list it holds after every prefix |
| `ServerRuns.EveryMessageArrives` | protocol/rtmp_stack.cpp:1022-1039 | lists of non-empty messages of no control type but announcements of at least 128 are received complete, one for one |
| `ServerRuns.HookAccepts` | protocol/rtmp_stack.cpp:1013-1065 | the receive hook lets through exactly the accepted messages, stated by their type numbers and bytes |
| `ServerRuns.RoundTripAsWritten` | protocol/rtmp_consts.hpp:63 | with the threshold in the code, lists of accepted messages with palindromic stream ids and times below 2^24 are received unchanged |
| `ServerRuns.RoundTripOfSpecification` | protocol/rtmp_consts.hpp:63 | with the threshold of section 5.3.1.3, the same for times below 2^31 |
| `ChunkRuns.ConnectionRoundTrip` | protocol/rtmp_stack.cpp:254-695 | the same for any peer: every interleaving of chunks of messages on different chunk streams, any of the four header types with plain or extended timestamps and deltas, continuation chunks with or without the extended field where the reader can tell, any basic-header width, chunk size changes in between |
| `Interleaving.InterleavedDelivery` | protocol/rtmp_stack.cpp:512-643 | for every interleaving and every chunk stream id, what RecvMessage returns on that id, followed by the message still in flight, is what was started on it, in order, with exact types and payloads |
| `HeaderCompression.CompressedMeansExpanded` | protocol/rtmp_stack.cpp:403-508 | a connection using any mixture of header types delivers the messages it would if every message carried a full type-0 header with the time its peer means, in order and equal but for their times, with the same chunk size at the end; the times agree as well if and only if each delivered message was read with the time a full header shows |
| `HeaderCompression.ShownInFullExactly` | protocol/rtmp_stack.cpp:412-504 | for a peer that adds its delta, a compressed header is read with the time a full one shows if and only if it has no extended field or the time before was 0 |
| `HeaderCompression.DeltaAddsExactly` | protocol/rtmp_stack.cpp:403-508 | a header of type 1, 2 or 3 that starts a message gives the time before it plus its delta, modulo 2^31, if and only if it has no extended field or the time before was 0; with one it gives the delta itself |
| `HeaderCompression.ClockMeetsSpecification` | protocol/rtmp_stack.cpp:403-508 | over any sequence of headers the stream keeps the time sections 5.3.1.2 and 5.3.1.3 ask for throughout if and only if no extended delta comes while its time is other than 0 |
| `HeaderCompression.TimestampsAreSums` | protocol/rtmp_stack.cpp:403-508 | after any run the timestamp the receiver keeps for a stream is the stream's clock modulo 2^31 (the last full or extended time plus all plain deltas since; type 3 behind type 0 adds that header's time), and each message RecvMessage returns on it carries the clock at its completion |
| `ChunkSenders.ChunkSender.DoSendMessages` | protocol/rtmp_stack.cpp:1082-1152 | the batched form puts on the wire exactly the concatenation of each non-null, non-empty message's type-0 and type-3 chunks; when a write fails, a prefix of it; the sender stays valid and its chunk size is unchanged |
| `ChunkSenders.ChunkSender.Queue` | protocol/rtmp_stack.cpp:1106-1129 | every header is stored behind the ones still queued with 16 bytes of room, no queued header is overwritten, and two more entries always fit |
| `ChunkSenders.ChunkSender.Flush` | protocol/rtmp_stack.cpp:1131-1142 | a flush sends exactly what the queued entries stand for |
| `ChunkSenders.ChunkSender.Resize` | protocol/rtmp_stack.cpp:1118-1123 | growing the entry array keeps every queued entry |
| `ChunkSenders.SendLargeIovs` | common/socket.cpp:142-180 | splitting into writes of 1024 entries sends the gathered bytes exactly, or a prefix when a write fails |
| `ChunkSenders.ChunkSender.DoSimpleSend` | protocol/rtmp_stack.cpp:891-932 | the simple form sends one type-0 chunk and then type-3 chunks, or a prefix when a write fails |
| `ChunkSenders.ChunkSender.SendPacket` | protocol/rtmp_stack.cpp:834-889 | a packet is sent with the old chunk size, and an announced size is adopted only after success |
| `ServerRuns.BatchIsSendRun` | protocol/rtmp_stack.cpp:1082-1152 | the batch refines the run: its bytes are those of sending the non-null messages one by one |
| `ServerRuns.SendRunIsRun` | protocol/rtmp_stack.cpp:891-932 | the server's own sending is a run of the peer machine, message by message |
| `ServerRuns.MessageRun` | protocol/rtmp_stack.cpp:891-932 | one whole message from an idle connection: its bytes are a run that leaves every stream idle and delivers it |
| `ServerRuns.ContinuesRun` | protocol/rtmp_stack.cpp:900-930 | the type-3 chunks behind any offset complete the message |
| `PacketRuns.PacketsArrive` | protocol/rtmp_stack.cpp:834-889 | over any packets RecvMessage returns, in order, each one that is accepted with its own chunk stream id, type and payload (an announcement as the four bytes of its number), time 0 and the stream id reversed, and both chunk sizes agree |
| `PacketRuns.SendAll` | protocol/rtmp_stack.cpp:834-889 | calls one after the other send the bytes of each at the chunk size of its time |
| `ServerRuns.ArrivesIntact` | protocol/rtmp_consts.hpp:63 | a message arrives unchanged if and only if its timestamp is below 2^24 (below 2^31 once the threshold is the specification's) and its stream id reads the same in both byte orders |
| `ServerRuns.AnnouncementAgreement` | protocol/rtmp_stack.cpp:1043-1062 | sender and receiver agree after an announced chunk size if and only if it is at least 128 |
| `ServerRuns.OutOfStep` | protocol/rtmp_stack.cpp:412-425 | with the threshold out of a 24-bit field's reach, a timestamp at the threshold shifts the payload by four bytes and leaves four payload bytes to be read as the next chunk |
| `Bytes.ByteSwapFixedPoints` | protocol/rtmp_message.cpp:38-43 | a little-endian field read big-endian keeps its value if and only if its bytes are a palindrome |
| `ChunkReceivers.ChunkReceiver.RecvMessage` | protocol/rtmp_stack.cpp:645-695 | over any schedule of short reads and any buffer position the message returned, the new state and the bytes left are what the specification says of the byte stream alone; the loop ends because every chunk takes a byte |
| `ChunkReceivers.ChunkReceiver.RecvInterlacedMessage` | protocol/rtmp_stack.cpp:565-643 | one chunk: the array slots and the map act as one map from id to stream state |
| `ChunkReceivers.ChunkReceiver.FindStream` | protocol/rtmp_stack.cpp:580-609 | array slot, existing map entry or new entry: the stream found is the one state kept under that id, fresh if there was none |
| `ChunkReceivers.ChunkReceiver.ReadChunkOn` | protocol/rtmp_stack.cpp:580-631 | the chunk of one id, read on its stream object, updates exactly that id's state |
| `ChunkReceivers.ChunkReceiver.ReadChunk` | protocol/rtmp_stack.cpp:611-631 | header and payload of one chunk, every header error surfacing as code 1 |
| `ChunkReceivers.ChunkReceiver.ReadBasicHeader` | protocol/rtmp_stack.cpp:254-330 | the three basic header forms, or the error of a stream that ends inside one |
| `ChunkReceivers.ChunkReceiver.ReadMessageHeader` | protocol/rtmp_stack.cpp:340-510 | the four header formats with inherited fields, the extended timestamp and the two rejections, as the specification says of the byte stream |
| `ChunkReceivers.ChunkReceiver.ReadFixedPart` | protocol/rtmp_stack.cpp:378-461 | the part of the header whose size its type tells, over the buffer |
| `ChunkReceivers.ChunkReceiver.ReadFields` | protocol/rtmp_stack.cpp:403-453 | field by field assignment computes the specified header, or rejects a changed length inside a message |
| `ChunkReceivers.ChunkReceiver.ReadExtendedTimestamp` | protocol/rtmp_stack.cpp:463-504 | four bytes are read and given back when a continuation chunk does not repeat the time |
| `ChunkReceivers.ChunkReceiver.ReadMessagePayload` | protocol/rtmp_stack.cpp:512-563 | the piece is appended; the message is handed out exactly when complete |
| `ChunkReceivers.ChunkReceiver.OnRecvMessage` | protocol/rtmp_stack.cpp:1013-1065 | the hook's code and the chunk size from then on |
| `ChunkReceivers.ChunkReceiver.constructor` | protocol/rtmp_stack.cpp:194-210 | a new connection: 128-byte chunks and sixteen fresh streams |
| `ChunkReader.RecvInterlacedMessage` | protocol/rtmp_stack.cpp:565-643 | every successful chunk keeps the invariant (chunk size at least 128, a pending message neither empty nor complete), consumes at least one byte, and never overflows the buffer while the chunk size is at most 131072 |
| `ChunkReader.ReadMessagePayload` | protocol/rtmp_stack.cpp:512-563 | a delivered payload has the announced length and extends what was pending; otherwise the pending part grows |
| `ChunkReader.ReadMessageHeader` | protocol/rtmp_stack.cpp:340-510 | a header that is accepted leaves a message in reception whose length cannot change |
| `ChunkReader.RecvMessage` | protocol/rtmp_stack.cpp:645-695 | the loop ends on every stream, keeps the invariant, and never returns an empty message |
| `ChunkReader.OnRecvMessage` | protocol/rtmp_stack.cpp:1013-1065 | the chunk size never falls below 128 and only an accepted announcement changes it |
| `ChunkReader.FeedConcat` | protocol/rtmp_stack.cpp:645-695 | feeding two byte streams one after the other is feeding their concatenation |
| `ChunkReader.FeedIsRecvRun` | protocol/rtmp_stack.cpp:645-695 | calling RecvMessage until it fails returns the messages of the chunk-by-chunk run |
| `ChunkReader.ChunkIsLocal` | protocol/rtmp_stack.cpp:565-643 | a chunk read from a prefix of the stream is the chunk read from the whole stream |
| `ChunkReader.ChunkSeesOnlyItsStream` | protocol/rtmp_stack.cpp:580-631 | a chunk's outcome depends on the chunk size and its own stream only, and no other stream changes |
| `ChunkPeer.StepDecodes` | protocol/rtmp_stack.cpp:565-695 | one chunk at the sending end is one chunk at the receiving end: same delivery, and the two ends still mirror each other on every stream |
| `ChunkPeer.ChunkDecodes` | protocol/rtmp_stack.cpp:611-631 | the chunk behind the basic header decodes to the piece that was sent |
| `ChunkPeer.HeadersDecode` | protocol/rtmp_stack.cpp:254-510 | the two headers of any chunk decode to the event they were written for |
| `ChunkPeer.StartHeaderDecodes` | protocol/rtmp_stack.cpp:378-510 | every header type that starts a message, with a plain or an extended timestamp or delta, leaves the receiver's stream mirroring the sender's |
| `ChunkPeer.ContinueHeaderDecodes` | protocol/rtmp_stack.cpp:454-508 | a type-3 header inside a message changes only the chunk count, with the extended field or, where the next bytes are unlike it, without |
| `ChunkPeer.BareChunkReadsAlike` | protocol/rtmp_stack.cpp:486-499 | a continuation chunk without the extended field is read as if it were there if and only if the time is positive and the next four bytes, masked to 31 bits, are there and differ from it |
| `ChunkPeer.HeaderInsideMessage` | protocol/rtmp_stack.cpp:412-441 | a type-1 or type-2 header inside a message adds its delta and sets its type, keeps what was received, and is refused exactly if it changes the length |
| `ChunkPeer.ExtendedInsideMessage` | protocol/rtmp_stack.cpp:463-504 | an extended delta inside a message is read if and only if the time is 0 or that number; otherwise its bytes are given back and taken for payload |
| `ChunkPeer.PieceDecodes` | protocol/rtmp_stack.cpp:512-563 | the payload piece behind a header extends or completes the message |
| `ChunkPeer.BasicHeaderRoundTrip` | protocol/rtmp_stack.cpp:268-323 | every id from 2 to 65599 reads back from each form that can carry it |
| `ChunkPeer.FieldsType0` | protocol/rtmp_message.cpp:11-55 | what the type-0 header writer stores reads back as the same fields, stream id byte-reversed |
| `ChunkRuns.RunDecodes` | protocol/rtmp_stack.cpp:645-695 | every run from every pair of mirroring states is decoded, with the ends mirroring at the end |
| `ChunkRuns.RunConcat` | protocol/rtmp_stack.cpp:645-695 | runs compose |
| `Interleaving.EachStreamInOrder` | protocol/rtmp_stack.cpp:512-643 | from any mirroring states each stream's messages, in flight before or started since, are received in order, followed by the one still in flight |
| `ChunkWriter.ChunkCount` | protocol/rtmp_stack.cpp:900-930 | the sender cuts a message of length L into exactly ceil(L / chunk size) chunks, from any offset |
| `ReceiveFailures.ReceiverCount` | protocol/rtmp_stack.cpp:512-563 | at a constant chunk size the receiver completes a message of length L after exactly ceil(L / chunk size) accepted chunks (one if it is empty), and holds k full chunks after k before that |
| `ReceiveFailures.RecvMessageFailures` | protocol/rtmp_stack.cpp:565-695 | RecvMessage fails with code 1 if and only if, behind chunks that deliver nothing, a message header is refused or cut short, and with the socket's code if and only if the stream ends inside a basic header or a payload there |
| `ReceiveFailures.ChunkFailures` | protocol/rtmp_stack.cpp:565-643 | the same for one chunk, and the buffer overflow if and only if its piece of payload is longer than 131072 |
| `ReceiveFailures.HeaderFailures` | protocol/rtmp_stack.cpp:340-510 | the two errors of a message header before they are made one: refused, or cut short, in terms of the stream and the bytes there are |
| `ChunkWriter.WriteC0` | protocol/rtmp_message.cpp:11-55 | the pointer-bumping writer stores the type-0 header, at most 16 bytes, and touches nothing else |
| `ChunkWriter.WriteC3` | protocol/rtmp_message.cpp:57-72 | the same for the type-3 header |
| `ChunkWriter.WriteChunkHeader` | protocol/rtmp_message.cpp:354-365 | the header a message writes for its first and later chunks |
| `ChunkWriter.HeadersOnTheWire` | protocol/rtmp_message.cpp:11-72 | both chunk headers byte by byte, as sections 5.3.1.1 to 5.3.1.3 lay them out |
| `ChunkWriter.GatherIgnoresTail` | protocol/rtmp_stack.cpp:1108-1129 | queued entries do not see header writes behind them |
| `FastBuffers.FastBuffer.Grow` | common/buffer.cpp:332-387 | no byte is lost or reordered across moves and short reads; the overflow error if and only if more than the capacity is asked for, the read error if and only if the stream is too short, success otherwise |
| `FastBuffers.FastBuffer.Compact` | common/buffer.cpp:349-359 | moving to the front keeps the unread bytes |
| `FastBuffers.FastBuffer.SetBuffer` | common/buffer.cpp:290-312 | the unread bytes survive a change of size; the capacity is never updated |
| `FastBuffers.FastBuffer.ReadSlice` | common/buffer.cpp:320-330 | hands out exactly the next bytes of the stream |
| `FastBuffers.FastBuffer.Read1Bytes` | common/buffer.cpp:314-318 | hands out exactly the next byte of the stream |
| `FastBuffers.FastBuffer.Skip` | common/buffer.cpp:397-402 | a negative skip gives back bytes already handed out |
| `Amf0.RoundTripExactly` | protocol/rtmp_amf0.cpp:1227-1304 | for every value and any bytes behind it, reading what was written returns the value with its order and count and stops exactly behind it, if and only if texts are below 2^15 bytes, fields fit, keys are unique and no number begins 00 09 |
| `Amf0.ReadInvertsEncode` | protocol/rtmp_amf0.cpp:1645-1667 | the inversion itself, by induction over nested values |
| `Amf0.ReadPropsInvertsEncode` | protocol/rtmp_amf0.cpp:1077-1110 | properties are read back in order behind those already in the table |
| `Amf0.ReadersRange` | protocol/rtmp_amf0.cpp:1645-1662 | whatever bytes are read, the value that results is one that can be written and read back |
| `Amf0.ReadIsIdempotent` | protocol/rtmp_amf0.cpp:1645-1667 | writing a value that was read from arbitrary bytes and reading it again changes nothing |
| `Amf0.NumberLooksLikeEnd` | protocol/rtmp_amf0.cpp:10-22 | the lookahead takes a number for an end marker if and only if its upper sixteen bits are 9 |
| `Amf0.Utf8RoundTripExactly` | protocol/rtmp_amf0.cpp:24-93 | a text survives if and only if it is shorter than 2^15 bytes |
| `Amf0.TextReads` | protocol/rtmp_amf0.cpp:24-93 | what a text of any length reads back as: its length modulo 2^16, none of it if that is 2^15 or more |
| `Amf0.ValuesOnTheWire` | protocol/rtmp_amf0.cpp:1153-1192 | the bytes of every type of value, markers in figures |
| `Amf0.UnknownMarkers` | protocol/rtmp_amf0.cpp:1249-1303 | a marker of no type is refused with 2004, that of a strict array with 2003 |
| `Amf0.AnyByteIsBoolean` | protocol/rtmp_amf0.cpp:1484-1520 | any byte but 0 reads as true |
| `Amf0.ScalarCutShort` | protocol/rtmp_amf0.cpp:1344-1520 | every scalar value cut short anywhere is refused |
| `Amf0.MissingEndIsTolerated` | protocol/rtmp_amf0.cpp:1077-1110 | an object or array that ends with the input behind a property reads as complete |
| `Amf0.ReadAny` | protocol/rtmp_amf0.cpp:1645-1662 | the reader is total: on every byte string it fails with an error code or consumes at least one byte and no more than there are |
| `Amf0.SizeIsExact` | protocol/rtmp_amf0.cpp:766-782 | the size computed beforehand is the number of bytes written, for every nested value |
| `Amf0Readers.ReadAny` | protocol/rtmp_amf0.cpp:1227-1304 | over the shared cursor: same value, same error code, cursor exactly at the rest; the recursion ends on remaining bytes |
| `Amf0Readers.ReadProperties` | protocol/rtmp_amf0.cpp:1077-1110 | the property loop over cursor and table reads what the specification reads |
| `Amf0Readers.ReadObject` | protocol/rtmp_amf0.cpp:1057-1111 | an object, or the error, cursor at the rest |
| `Amf0Readers.ReadEcmaArray` | protocol/rtmp_amf0.cpp:647-711 | an ECMA array with its stored count, or the error, cursor at the rest |
| `Amf0Readers.ReadDate` | protocol/rtmp_amf0.cpp:934-980 | a date and its zone, or the error |
| `Amf0Readers.ReadUtf8` | protocol/rtmp_amf0.cpp:59-93 | the signed 16-bit length and the text; zero and negative lengths are empty |
| `Amf0Readers.ReadObjectEof` | protocol/rtmp_amf0.cpp:369-405 | the end marker, or an error |
| `Amf0Readers.IsObjectEof` | protocol/rtmp_amf0.cpp:10-22 | the lookahead is exact and leaves the cursor where it was |
| `Amf0Writers.WriteAny` | protocol/rtmp_amf0.cpp:1664-1667 | every value is stored in full if and only if it fits, leaving what lies before and behind untouched; otherwise the encode error |
| `Amf0Writers.WriteProperties` | protocol/rtmp_amf0.cpp:1171-1191 | the property loop and the end marker, all or the encode error |
| `Amf0Writers.WriteObject` | protocol/rtmp_amf0.cpp:1153-1192 | an object is stored in full if and only if it fits |
| `Amf0Writers.WriteEcmaArray` | protocol/rtmp_amf0.cpp:713-764 | an ECMA array is stored in full if and only if it fits |
| `Amf0Writers.WriteUtf8` | protocol/rtmp_amf0.cpp:24-57 | length and text are stored if and only if they fit |
| `BufferManagers.BufferManager.WriteString` | common/buffer.cpp:209-214 | stores at the cursor and touches nothing before or behind |
| `BufferManagers.BufferManager.ReadField` | common/buffer.cpp:84-140 | a big-endian field is consumed exactly |
| `Bytes.BigEndianRoundTrip` | common/buffer.cpp:166-207 | writing n bytes and reading them keeps the value modulo 256^n |
| `Bytes.FromBigEndianRoundTrip` | common/buffer.cpp:84-140 | reading n bytes loses nothing: they can be written back |
| `PropertyTables.TableRefinesMap` | protocol/rtmp_amf0.cpp:105-243 | over any Set, Remove, Clear and Copy the table keeps unique keys and finds exactly the last value set |
| `PropertyTables.CopyPreservesOrder` | protocol/rtmp_amf0.cpp:144-155 | copying appends in order, so a copy into an empty table is the same table |
| `Amf0.SetAgainGoesLast` | protocol/rtmp_amf0.cpp:105-125 | a key set again leaves its place for the end, the others keep their order |
| `PropertyTables.RemoveLeavesNone` | protocol/rtmp_amf0.cpp:225-243 | after Remove no entry has the key and every other key finds what it found, whether keys were unique or not |
| `PropertyTables.LookupErase` | protocol/rtmp_amf0.cpp:105-125 | setting to null removes that key and no other |
| `PropertyTables.UnsortHashTable.Set` | protocol/rtmp_amf0.cpp:105-125 | a key set again moves to the end; null only erases |
| `PropertyTables.UnsortHashTable.GetValue` | protocol/rtmp_amf0.cpp:175-190 | the first entry under the key |
| `PropertyTables.UnsortHashTable.Remove` | protocol/rtmp_amf0.cpp:225-243 | every entry under the key goes, the others keep their order |
| `PropertyTables.UnsortHashTable.Copy` | protocol/rtmp_amf0.cpp:144-155 | sets every pair of the source in order |
| `Packets.EncodeToPayload` | protocol/rtmp_packet.cpp:35-67 | allocating GetSize and encoding never fails for the six packets and stores exactly the encoding |
| `Packets.SizeAgainstBytes` | protocol/rtmp_packet.cpp:385-425 | the computed size exceeds the bytes by what the placeholder object is larger than the null written for it |
| `Packets.FillsExactly` | protocol/rtmp_packet.cpp:920-960 | the allocation is filled exactly if and only if that placeholder is a null or an undefined |
| `Packets.ResponsesReadBack` | protocol/rtmp_packet.cpp:1080-1119 | connect and createStream responses, publishing responses and status calls read back field by field as command, number and their two further values, with nothing behind |
| `Packets.OnStatusDataReadsBack` | protocol/rtmp_packet.cpp:1518-1545 | status data reads back as its command and its object |
| `Packets.UserControlOnTheWire` | protocol/rtmp_packet.cpp:1442-1472 | a user control packet byte by byte |
| `Packets.ConnectAppResDecodes` | protocol/rtmp_packet.cpp:304-383 | what the decoder makes of any four fields: which it takes, and what it keeps |
| `Packets.CreateStreamResDecodes` | protocol/rtmp_packet.cpp:878-918 | the same of the createStream response, and that another command leaves the rest unread |
| `Packets.ConnectAppResRoundTrip` | protocol/rtmp_packet.cpp:304-425 | a connect response decodes to what was encoded |
| `Packets.CreateStreamResRoundTrip` | protocol/rtmp_packet.cpp:878-960 | a createStream response always decodes to itself with a null object, hence to itself if and only if its object is null |
| `Packets.ReadConnectAppRes` | protocol/rtmp_packet.cpp:304-383 | the decoder over the cursor, error codes included |
| `Packets.ReadCreateStreamRes` | protocol/rtmp_packet.cpp:878-918 | the createStream decoder over the cursor, error codes included |
| `Packets.UserControlPasses` | protocol/rtmp_packet.cpp:1442-1495 | every user control packet this server encodes passes its own receive hook |
| `Packets.WindowAckSizeIsDropped` | protocol/rtmp_stack.cpp:825-829 | a window acknowledgement size passes the receive hook if and only if its upper half is 0x1a |
| `MixQueues.StepIsCorrect` | common/queue.hpp:180-232 | push then pop keeps order, counters equal to the kinds held, at most nine held, and arrivals equal to left plus held |
| `MixQueues.OrderedExactly` | common/queue.hpp:180-232 | for all arrivals, what has left followed by what is held is in order of time if and only if no arrival was earlier than the last message that had left before it |
| `MixQueues.WhenOneLeaves` | common/queue.hpp:200-218 | a message leaves if and only if any audio is held or ten messages are |
| `MixQueues.OneAudioIsEnough` | common/queue.hpp:210-213 | audio at 10, video at 5 and audio at 20, two streams each in order, leave as 10 and 5 |
| `MixQueues.LeastLeavesFirst` | common/queue.hpp:195-232 | over any run a message that leaves precedes everything held: least time first, ties in order of arrival |
| `MixQueues.OrderedArrivalsAreFifo` | common/queue.hpp:180-232 | arrivals in order of time leave in the order of arrival |
| `MixQueues.PushKeepsConsistent` | common/queue.hpp:180-193 | a later arrival keeps order and counters |
| `MixQueues.PopKeepsInv` | common/queue.hpp:195-232 | a pop takes the first entry; at most nine remain and the first entry exists whenever one may leave |
| `MixQueues.MixQueue.Push` | common/queue.hpp:180-193 | the whole new state after a push |
| `MixQueues.MixQueue.Pop` | common/queue.hpp:195-232 | the whole new state and the message after a pop |
| `MixQueues.PushThenPop` | protocol/rtmp_source.cpp:308-325 | the step of the audio and video handlers |
| `MessageQueues.RunIsFifo` | protocol/rtmp_message.cpp:478-537 | without overflow, the dumps together with what remains are the enqueued messages in order |
| `MessageQueues.OverflowsExactly` | protocol/rtmp_message.cpp:478-537 | over any run of a new queue nothing overflows if and only if at every arrival the newest audio or video is at most the queue size past the message taken last (-1 before any); until then each dump takes the oldest messages |
| `MessageQueues.OverflowLeaves` | protocol/rtmp_message.cpp:440-501 | what an overflow leaves: the last audio sequence header, then the last audio message that looks like a video header, both with the newest time |
| `MessageQueues.EnqueueBoundsSpan` | protocol/rtmp_message.cpp:478-501 | after every enqueue the span is within the queue size, and after an overflow only restamped audio messages remain, at most two |
| `MessageQueues.HeldWithinSize` | protocol/rtmp_message.cpp:440-537 | over any run of enqueues, overflows and dumps whose audio and video arrives in order, the times of the messages held never lie further apart than the queue size |
| `MessageQueues.LastAudioHeaderIsLast` | protocol/rtmp_message.cpp:445-462 | shrinking keeps the most recent audio sequence header |
| `MessageQueues.VideoHeadersAreLost` | protocol/rtmp_message.cpp:455-460 | no video message, sequence header or not, survives an overflow |
| `MessageQueues.FirstMessage` | protocol/rtmp_message.cpp:478-501 | a first message overflows a new queue if and only if its time is not below the queue size |
| `MessageQueues.MessageQueue.Enqueue` | protocol/rtmp_message.cpp:478-501 | the whole new state; the overflow loop runs at most once |
| `MessageQueues.MessageQueue.Shrink` | protocol/rtmp_message.cpp:440-476 | the whole new state: the last headers, restamped to the end time |
| `MessageQueues.MessageQueue.DumpPackets` | protocol/rtmp_message.cpp:509-537 | the first messages leave in order and the start time is that of the last of them |
| `MessageQueues.FastVector.PushBack` | common/queue.hpp:117-134 | appends, through growth |
| `MessageQueues.FastVector.Erase` | common/queue.hpp:98-115 | removes exactly the range and shifts the tail down |
| `SharedMessages.OutputBounds` | protocol/rtmp_jitter.cpp:43-58 | over any run under FULL, times leave non-negative and the n-th at most 250 n |
| `SharedMessages.OutputSteps` | protocol/rtmp_jitter.cpp:49-58 | neighbouring audio or video times leave at most 250 apart, move exactly with the input within 250 (clamped at 0) and by 10 beyond, and fall if and only if time went back by at most 250 and there was something to take back |
| `SharedMessages.OnlyAVCounts` | protocol/rtmp_jitter.cpp:43-47 | other messages leave with 0 and change no later time |
| `SharedMessages.FirstOutput` | protocol/rtmp_jitter.cpp:14-58 | what the first audio or video message leaves with |
| `SharedMessages.ZeroShifts` | protocol/rtmp_jitter.cpp:32-41 | under ZERO every message loses the first time that is not -1 |
| `SharedMessages.OffKeeps` | protocol/rtmp_jitter.cpp:28-31 | under OFF every message keeps its time |
| `SharedMessages.OutputMonotonic` | protocol/rtmp_jitter.cpp:49-58 | input that never goes back gives output that never goes back |
| `SharedMessages.OutputFollowsInput` | protocol/rtmp_jitter.cpp:49-58 | over a stretch with no jump and no clamp, output differences are input differences |
| `SharedMessages.Jitter.Correct` | protocol/rtmp_jitter.cpp:25-60 | state and time after each of the three algorithms |
| `SharedMessages.Lifetime` | protocol/rtmp_message.cpp:240-378 | over any sequence of copies and destructions of a payload's live handles the count is theirs and the payload is freed if and only if none is left |
| `SharedMessages.SharedPtrMessage.Copy` | protocol/rtmp_message.cpp:367-378 | one more live handle, counted; same payload, time and stream id |
| `SharedMessages.SharedPtrMessage.Destroy` | protocol/rtmp_message.cpp:245-258 | one handle less; the payload is freed if and only if it was the last |
| `SharedMessages.SharedPtrMessage.Create` | protocol/rtmp_message.cpp:272-300 | a new payload with exactly one handle |
| `SharedMessages.EnqueueCopy` | protocol/rtmp_consumer.cpp:48-65 | the bounded queue is enqueued the copy with its corrected time, overflow included; the source message keeps its own |
| `ExpGolomb.UevInvertsUeCode` | common/utils.cpp:359-386 | k is read back from its ue(v) code, whatever follows, and the code is consumed exactly, if and only if k is below 2^31 - 1 |
| `ExpGolomb.CodeLayout` | common/utils.cpp:368-383 | where prefix and suffix of a code lie, 2 floor(log2(k+1)) + 1 bits in all |
| `ExpGolomb.ReadsByLeadingZeros` | common/utils.cpp:359-386 | what every bit string with a one in it reads as, by its leading zeros |
| `ExpGolomb.ReadsZeros` | common/utils.cpp:368-383 | what zeros alone read as; a single one is the value 0 |
| `ExpGolomb.BitsAreTheNumber` | common/buffer.cpp:252-263 | the bits of some bytes are the number the bytes are |
| `ExpGolomb.BitBufferManager.ReadUev` | common/utils.cpp:359-386 | the two loops compute the decoder from any bit offset, errors included |
| `ExpGolomb.BitBufferManager.ReadPrefix` | common/utils.cpp:368-372 | the first loop stops behind the first one bit, or at the end |
| `ExpGolomb.BitBufferManager.ReadSuffix` | common/utils.cpp:378-383 | the second loop adds up the suffix bits |
| `ExpGolomb.BitBufferManager.ReadBit` | common/buffer.cpp:252-263 | the bits of each byte from the top, byte after byte |

## Left out

- Sockets, coroutines, timeouts, the merged-read callback, locks and logging: a socket is a byte sequence here.
- The handshake: random bytes and one copy.
- ChunkReceiver and ChunkSender: Protocol is split into its two halves, which share no state on these paths.
- ChunkReceivers.ChunkReceiver.ReadMessagePayload: the payload allocation is a value that grows, not a buffer of the final length filled from the front.
- ChunkReceivers.ChunkReceiver.ReadMessageHeader: the chunk counter does not wrap at 2^31.
- ChunkReceivers.ChunkReceiver.OnRecvMessage: whether a control message decodes, not the decoded event; acknowledgement windows have no effect in the code either.
- ChunkPeer: a peer leaves out the extended timestamp of a continuation chunk only when the chunk has four payload bytes or more; with fewer, what the reader takes reaches into the next chunk (BareChunkReadsAlike still says how it reads them).
- ServerRuns: the server's own sender uses ids 2 to 63, as its one-byte basic header allows; SharedPtrMessage::Check, which forces them there, is left out.
- ChunkSenders.ChunkSender.DoSimpleSend: an announced size of zero or less makes the loop endless, hence the requirement of a positive chunk size.
- ChunkSenders.ChunkSender.DoSendMessages: messages are values; that the payload pointers stay valid until the write is SharedPtrMessage's part.
- FastBuffers.FastBuffer.SetBuffer: the move by realloc is a copy, the new bytes are zero.
- AMF0 StrictArray: reading always fails in the code, as in the model; the writer and its size are left out.
- Amf0Readers: recursion depth is bounded by the bytes alone, as in the code; the call stack is not modelled.
- Amf0.ReadAny: the error exit of AMF0ReadAny deletes the caller's variable and not the value in it (protocol/rtmp_amf0.cpp:1657), so that failing with an error code holds of the result, not of the memory behind it.
- Amf0Writers: what is stored when a writer fails half-way is not described.
- PropertyTables: values are copied, not owned; the EnsureProperty queries are left out.
- Packets: FMLEStartRes and UserControl decoding into fields, OnMetadata, connect, play and publish packets.
- Packets.CreateStreamResRoundTrip: the stream id is a double in the packet and appears as its 64-bit pattern.
- MessageQueues.FastVector.PushBack: the growing copy reads the live prefix, where the code reads as many elements as the new array has.
- MessageQueues.MessageQueue.Enqueue: a negative queue size makes the overflow loop endless, hence the requirement; messages are values, so freeing them is not shown.
- SharedMessages.SharedPtrMessage.Create: the case without a header, which leaves time and stream id unset.
- SharedMessages.EnqueueCopy: the queue holds the copy's contents; an overflow that destroys the copy's handle is not shown on the handle. Also the wake-up of a waiting consumer behind the queueing.
- ExpGolomb.BitBufferManager.ReadUev: 31 leading zero bits shift into the sign bit of an int, which the result Undefined stands for; missing suffix bits fail an assertion, result Aborted.
- GopCache and Source::CreateConsumer: a list and two counters with an inverted key-frame test, and the order of calls.
- FLV muxing, DVR, AVC demuxing, configuration, stream URLs: file-bound or plumbing.
