/**
 * Packets from one end to the other: what SendPacket puts on the wire, call after call, and what
 * RecvMessage returns of it, in terms of the packets themselves (protocol/rtmp_stack.cpp:834-889).
 */
module PacketRuns {
  import opened Bytes
  import opened RtmpConsts
  import opened ChunkWriter
  import opened ChunkSenders
  import opened ChunkReader
  import opened ChunkPeer
  import opened ChunkRuns
  import opened ServerRuns

  datatype Call = Call(packet: Packet, streamId: nat)

  /** What a packet must be to be sent at this chunk size; only SetChunkSize has its type. */
  predicate CallOk(chunkSize: int, c: Call) {
    && c.streamId < 0x1_0000_0000
    && match c.packet
       case SetChunkSize(n) => 128 <= n < 0x8000_0000
       case Encoded(cid, messageType, payload) =>
         && 2 <= cid <= 63 && messageType != 1
         && |payload| <= 0xff_ffff && PieceFits(chunkSize, |payload|)
  }

  predicate CallsOk(chunkSize: int, calls: seq<Call>)
    decreases |calls|
  {
    calls != [] ==> CallOk(chunkSize, calls[0]) && CallsOk(AfterPacket(chunkSize, calls[0].packet), calls[1..])
  }

  function SizeAfter(chunkSize: int, calls: seq<Call>): int
    decreases |calls|
  {
    if calls == [] then chunkSize else SizeAfter(AfterPacket(chunkSize, calls[0].packet), calls[1..])
  }

  /** The bytes of one call after the other, each at the chunk size of its time. */
  function CallBytes(threshold: nat, chunkSize: int, calls: seq<Call>): bytes
    requires chunkSize >= MIN_CHUNK_SIZE && CallsOk(chunkSize, calls)
    decreases |calls|
  {
    if calls == [] then [] else
    MessageBytes(threshold, PacketMessage(calls[0].packet, calls[0].streamId), chunkSize)
    + CallBytes(threshold, AfterPacket(chunkSize, calls[0].packet), calls[1..])
  }

  /** Any packets sent one after the other. */
  method SendAll(sender: ChunkSender, calls: seq<Call>) returns (ret: int)
    requires sender.Valid() && sender.outChunkSize >= MIN_CHUNK_SIZE && CallsOk(sender.outChunkSize, calls)
    modifies sender.rw, sender`outChunkSize
    ensures sender.Valid()
    ensures ret == SUCCESS ==>
              && sender.outChunkSize == SizeAfter(old(sender.outChunkSize), calls)
              && sender.rw.sent == old(sender.rw.sent)
                                   + CallBytes(sender.threshold, old(sender.outChunkSize), calls)
  {
    hide MessageBytes, CallOk;
    ghost var total := sender.rw.sent + CallBytes(sender.threshold, sender.outChunkSize, calls);
    ret := SUCCESS;
    assert calls[0..] == calls;
    for i := 0 to |calls|
      invariant sender.Valid() && ret == SUCCESS
      invariant sender.outChunkSize >= MIN_CHUNK_SIZE && CallsOk(sender.outChunkSize, calls[i..])
      invariant SizeAfter(sender.outChunkSize, calls[i..]) == SizeAfter(old(sender.outChunkSize), calls)
      invariant sender.rw.sent + CallBytes(sender.threshold, sender.outChunkSize, calls[i..]) == total
    {
      var c := calls[i];
      assert calls[i..][1..] == calls[i + 1..];
      SizeStays(sender.outChunkSize, c);
      ghost var sent, size := sender.rw.sent, sender.outChunkSize;
      ret := sender.SendPacket(c.packet, c.streamId);
      if ret != SUCCESS {
        return;
      }
      Associate(sent, MessageBytes(sender.threshold, PacketMessage(c.packet, c.streamId), size),
                CallBytes(sender.threshold, sender.outChunkSize, calls[i + 1..]));
    }
  }

  lemma SizeStays(chunkSize: int, c: Call)
    requires chunkSize >= MIN_CHUNK_SIZE && CallOk(chunkSize, c)
    ensures AfterPacket(chunkSize, c.packet) >= MIN_CHUNK_SIZE
  {
  }

  // ---------- at the other end ----------

  /** The calls whose messages RecvMessage returns. */
  function Arriving(calls: seq<Call>): seq<Call> {
    if calls == [] then [] else
    (match calls[0].packet
     case SetChunkSize(_) => [calls[0]]
     case Encoded(_, messageType, payload) => if Accepted(messageType, payload) then [calls[0]] else [])
    + Arriving(calls[1..])
  }

  /** The message received is the packet sent: its own fields, time 0, and the stream id reversed. */
  predicate Carries(m: OutMessage, c: Call) {
    && m.timestamp == 0 && m.streamId == ByteSwap32(c.streamId)
    && match c.packet
       case Encoded(cid, messageType, payload) =>
         m.cid == cid && m.messageType == messageType && m.payload == payload
       case SetChunkSize(n) =>
         && m.cid == 2 && m.messageType == 1 && |m.payload| == 4
         && n == Number32(m.payload[0], m.payload[1], m.payload[2], m.payload[3])
  }

  predicate AllCarry(ms: seq<OutMessage>, calls: seq<Call>) {
    |ms| == |calls| && forall i | 0 <= i < |ms| :: Carries(ms[i], calls[i])
  }

  function Messages(calls: seq<Call>): (r: seq<OutMessage>)
    ensures |r| == |calls|
  {
    if calls == [] then [] else [PacketMessage(calls[0].packet, calls[0].streamId)] + Messages(calls[1..])
  }

  /** An announcement as a message: its four bytes are its number. */
  lemma Announcement(n: int, streamId: nat)
    requires 128 <= n < 0x8000_0000
    ensures var p := PacketMessage(SetChunkSize(n), streamId).payload;
            && |p| == 4 && AnnouncesChunkSize(p) && ToSigned32(Field32(p)) == n
            && n == Number32(p[0], p[1], p[2], p[3])
  {
    var p := PacketMessage(SetChunkSize(n), streamId).payload;
    hide BigEndian, Field32, Number32, Unsigned32, ToSigned32;
    Field32RoundTrip(Unsigned32(n));
    SignedAgain(n);
    StoredNumber(Unsigned32(n));
    Positive(n);
    TopByte(p[0], p[1], p[2], p[3]);
  }

  lemma Positive(n: int)
    requires 0 <= n < 0x8000_0000
    ensures Unsigned32(n) % 0x1_0000_0000 == n
  {
  }

  lemma TopByte(a: byte, b: byte, c: byte, d: byte)
    ensures Number32(a, b, c, d) < 0x8000_0000 ==> a < 0x80
  {
  }

  /** One call's message is sendable, is accepted or not by its own fields, and carries the packet. */
  lemma OneCall(threshold: nat, chunkSize: int, c: Call)
    requires chunkSize >= MIN_CHUNK_SIZE && CallOk(chunkSize, c)
    ensures var m := PacketMessage(c.packet, c.streamId);
            && Sendable(threshold, chunkSize, m) && Adopted(chunkSize, m) == AfterPacket(chunkSize, c.packet)
            && Accepted(m.messageType, m.payload) == (Arriving([c]) == [c])
            && Carries(Received(threshold, m), c)
  {
    hide ByteSwap32, FromBigEndian, BigEndian, Field32;
    assert Arriving([c][1..]) == [];
    if c.packet.SetChunkSize? {
      Announcement(c.packet.chunkSize, c.streamId);
      hide AnnouncesChunkSize;
    } else {
      hide Accepted;
    }
  }

  lemma ArrivingHead(calls: seq<Call>)
    requires calls != []
    ensures Arriving(calls) == (if Arriving([calls[0]]) == [calls[0]] then [calls[0]] else []) + Arriving(calls[1..])
  {
    hide Accepted;
    assert Arriving([calls[0]][1..]) == [];
  }

  lemma {:induction false} CallsAreSendRun(threshold: nat, chunkSize: int, calls: seq<Call>)
    requires chunkSize >= MIN_CHUNK_SIZE && CallsOk(chunkSize, calls)
    ensures AllSendable(threshold, chunkSize, Messages(calls))
    ensures SendRun(threshold, chunkSize, Messages(calls))
         == (CallBytes(threshold, chunkSize, calls), SizeAfter(chunkSize, calls))
    ensures AllCarry(Expected(threshold, Messages(calls)), Arriving(calls))
    decreases |calls|
  {
    if calls != [] {
      hide CallOk, Sendable, MessageBytes, Accepted, Received, Adopted, PacketMessage, Carries, Arriving;
      var c, ms := calls[0], Messages(calls);
      OneCall(threshold, chunkSize, c);
      SizeStays(chunkSize, c);
      ArrivingHead(calls);
      assert ms[1..] == Messages(calls[1..]) && ms[0] == PacketMessage(c.packet, c.streamId);
      CallsAreSendRun(threshold, AfterPacket(chunkSize, c.packet), calls[1..]);
      var arrives := Arriving([c]) == [c];
      OneMoreCarries(if arrives then [Received(threshold, ms[0])] else [], if arrives then [c] else [],
                     Expected(threshold, ms[1..]), Arriving(calls[1..]));
      hide AllCarry;
    }
  }

  lemma OneMoreCarries(a: seq<OutMessage>, b: seq<Call>, ms: seq<OutMessage>, calls: seq<Call>)
    requires AllCarry(a, b) && AllCarry(ms, calls)
    ensures AllCarry(a + ms, b + calls)
  {
    hide Carries;
  }

  /**
   * Every packet that is not refused for what it is arrives as what it is, in order, and the two
   * ends agree on the chunk size afterwards.
   */
  lemma PacketsArrive(threshold: nat, calls: seq<Call>)
    requires CallsOk(DEFAULT_CHUNK_SIZE, calls)
    ensures StateOk(InitialState())
    ensures var wire := CallBytes(threshold, DEFAULT_CHUNK_SIZE, calls);
            var f := Feed(threshold, InitialState(), wire);
            && AllCarry(Contents(RecvRun(threshold, InitialState(), wire)), Arriving(calls))
            && f.Parsed? && f.value.0.chunkSize == SizeAfter(DEFAULT_CHUNK_SIZE, calls)
  {
    hide CallOk, Sendable, Arriving, AllCarry, RecvRun, Feed, CallBytes, SendRun;
    CallsAreSendRun(threshold, DEFAULT_CHUNK_SIZE, calls);
    SendReceiveRoundTrip(threshold, Messages(calls));
  }
}
