/**
 * This server's own sender against its own receiver: what DoSimpleSend and DoSendMessages put
 * on the wire is a run of ChunkPeer, so RecvMessage at the other end returns what was sent.
 */
module ServerRuns {
  import opened Bytes
  import opened RtmpConsts
  import opened ChunkWriter
  import opened ChunkReader
  import opened ChunkPeer
  import opened ChunkRuns

  /** A chunk size of 128 or more, as the signed four-byte number in front of the payload. */
  predicate AnnouncesChunkSize(payload: bytes) {
    |payload| >= 4 && payload[0] < 0x80
    && Number32(payload[0], payload[1], payload[2], payload[3]) >= 128
  }

  /** How many bytes a user control message needs, by the event number in front of it. */
  function EventLength(payload: bytes): nat
    requires |payload| >= 2
  {
    if payload[0] == 0 && payload[1] == 0x1a then 3
    else if payload[0] == 0 && payload[1] == 3 then 10
    else 6
  }

  /**
   * Which messages come out of RecvMessage. Empty ones do not; of the types 1 (set chunk size),
   * 4 (user control) and 5 (window acknowledgement size) some do; every other one does.
   */
  predicate Accepted(messageType: byte, payload: bytes) {
    && payload != []
    && (messageType == 1 ==> AnnouncesChunkSize(payload))
    && (messageType == 4 || messageType == 5 ==> |payload| >= 2 && |payload| >= EventLength(payload))
  }

  /** The hook lets through exactly the accepted messages, whatever the chunk size. */
  lemma HookAccepts(chunkSize: int, messageType: byte, payload: bytes)
    requires payload != []
    ensures OnRecvMessage(chunkSize, messageType, payload).0 == SUCCESS <==> Accepted(messageType, payload)
  {
    ReadsOut(payload);
    hide FromBigEndian;
  }

  /** What a message arrives as, if it is delivered at all. */
  function Received(threshold: nat, m: OutMessage): OutMessage {
    var time := m.timestamp % 0x1_0000_0000;
    OutMessage(m.cid, if threshold <= 0xff_ffff then time % 0x8000_0000 else time % 0x100_0000,
               m.messageType, ByteSwap32(m.streamId), m.payload)
  }

  function Expected(threshold: nat, ms: seq<OutMessage>): seq<OutMessage> {
    if ms == [] then [] else
    (if Accepted(ms[0].messageType, ms[0].payload) then [Received(threshold, ms[0])] else [])
    + Expected(threshold, ms[1..])
  }

  /** OnSendPacket: the chunk size in use after a message has been sent. */
  function Adopted(chunkSize: int, m: OutMessage): int {
    if m.messageType == MSG_SET_CHUNK_SIZE && |m.payload| == 4
    then ToSigned32(Field32(m.payload)) else chunkSize
  }

  /** What the sender demands of a message, and of the chunk sizes it announces. */
  predicate Sendable(threshold: nat, chunkSize: int, m: OutMessage) {
    && 2 <= m.cid <= 63 && m.streamId < 0x1_0000_0000
    && |m.payload| <= MAX_FIELD24 && PieceFits(chunkSize, |m.payload|)
    && InStep(threshold, Unsigned32(m.timestamp))
    && (m.messageType == MSG_SET_CHUNK_SIZE ==>
          |m.payload| == 4 && ToSigned32(Field32(m.payload)) >= MIN_CHUNK_SIZE)
  }

  predicate AllSendable(threshold: nat, chunkSize: int, ms: seq<OutMessage>)
    requires chunkSize >= MIN_CHUNK_SIZE
    decreases |ms|
  {
    ms != [] ==>
      && Sendable(threshold, chunkSize, ms[0])
      && AllSendable(threshold, Adopted(chunkSize, ms[0]), ms[1..])
  }

  function SendRun(threshold: nat, chunkSize: int, ms: seq<OutMessage>): (r: (bytes, int))
    requires chunkSize >= MIN_CHUNK_SIZE && AllSendable(threshold, chunkSize, ms)
    ensures r.1 >= MIN_CHUNK_SIZE
    decreases |ms|
  {
    if ms == [] then ([], chunkSize) else
    var r := SendRun(threshold, Adopted(chunkSize, ms[0]), ms[1..]);
    (MessageBytes(threshold, ms[0], chunkSize) + r.0, r.1)
  }

  function Continues(m: OutMessage, chunkSize: int, pos: nat): seq<Event>
    requires chunkSize > 0
    decreases |m.payload| - pos
  {
    if pos >= |m.payload| then [] else
    [Continue(m.cid, 1, false)] + Continues(m, chunkSize, pos + Min(|m.payload| - pos, chunkSize))
  }

  /** The peer once m has been sent completely. */
  ghost predicate SentWhole(threshold: nat, p: PeerState, m: OutMessage, o: Outcome) {
    && o.peer.chunkSize == Adopted(p.chunkSize, m)
    && (forall cid | cid == m.cid || PeerAt(p, cid).sent.None? :: PeerAt(o.peer, cid).sent.None?)
    && o.delivered == if Accepted(m.messageType, m.payload) then [Received(threshold, m)] else []
  }

  ghost predicate InFlight(threshold: nat, p: PeerState, m: OutMessage, pos: nat) {
    && Ready(p) && Sendable(threshold, p.chunkSize, m) && 0 < pos < |m.payload|
    && var s := PeerAt(p, m.cid);
    && s.last == m && s.sent == Some(pos)
    && s.seen == SeenTimestamp(threshold, Unsigned32(m.timestamp))
    && s.ext == StartExt(threshold, s, m, 0, 0)
  }

  /** Completing m: the last chunk is out and the stream is idle again. */
  lemma CompleteSends(threshold: nat, p: PeerState, s: PeerStream, m: OutMessage)
    requires p.chunkSize >= MIN_CHUNK_SIZE && Sendable(threshold, p.chunkSize, m) && m.payload != []
    requires s.last == m && s.seen == SeenTimestamp(threshold, Unsigned32(m.timestamp))
    ensures var (p1, out) := Complete(p, s);
            && p1.streams == p.streams && p1.chunkSize == Adopted(p.chunkSize, m)
            && ToSeq(out) == if Accepted(m.messageType, m.payload) then [Received(threshold, m)] else []
  {
    HookAccepts(p.chunkSize, m.messageType, m.payload);
    if m.messageType == MSG_SET_CHUNK_SIZE {
      assert m.payload[..4] == m.payload;
    }
    hide Accepted, ByteSwap32, Field32;
  }

  /** One chunk of m later: sent whole, or in flight up to `next`. */
  ghost predicate Advanced(threshold: nat, p: PeerState, m: OutMessage, next: nat, o: Outcome) {
    if next == |m.payload| then SentWhole(threshold, p, m, o)
    else InFlight(threshold, o.peer, m, next) && o.delivered == [] && o.peer.chunkSize == p.chunkSize
         && forall cid | cid != m.cid :: PeerAt(o.peer, cid) == PeerAt(p, cid)
  }

  /** Any chunk of m, once its header is known to be m's. */
  lemma ChunkSent(threshold: nat, p: PeerState, e: Event, m: OutMessage, next: nat)
    requires Ready(p) && EventOk(threshold, p, e) && Sendable(threshold, p.chunkSize, m) && e.Cid() == m.cid
    requires var h := HeaderSent(threshold, p, e);
             && h.last == m && h.seen == SeenTimestamp(threshold, Unsigned32(m.timestamp))
             && h.ext == StartExt(threshold, h, m, 0, 0) && next == PieceEnd(p.chunkSize, h) && 0 < next
    ensures var s := Step(threshold, p, e);
            s.Some? && s.value.wire == EventBytes(threshold, p, e) && Advanced(threshold, p, m, next, s.value)
  {
    hide EventOk, EventBytes, HeaderSent, OnRecvMessage, PeerOk, Accepted, Received, SeenTimestamp, Complete;
    var h, after := HeaderSent(threshold, p, e), StreamAfter(threshold, p, e);
    StreamOfStep(threshold, p, e, m.cid);
    CompleteSends(threshold, p.(streams := p.streams[m.cid := after]), h, m);
    forall cid: nat | cid != m.cid
      ensures PeerAt(Step(threshold, p, e).value.peer, cid) == PeerAt(p, cid)
    {
      StreamOfStep(threshold, p, e, cid);
    }
  }

  /** The chunk behind offset pos, as an event. */
  lemma ContinueStep(threshold: nat, p: PeerState, m: OutMessage, pos: nat)
    requires InFlight(threshold, p, m, pos)
    ensures var s := Step(threshold, p, Continue(m.cid, 1, false));
            var next := pos + Min(|m.payload| - pos, p.chunkSize);
            s.Some? && s.value.wire == ChunkAt(threshold, m, p.chunkSize, pos) &&
            Advanced(threshold, p, m, next, s.value)
  {
    var e, next := Continue(m.cid, 1, false), pos + Min(|m.payload| - pos, p.chunkSize);
    assert HeaderBytes(threshold, p, e) == C3Header(threshold, m) by {
      assert [64 * 3 + m.cid] == [0xc0 + m.cid % 64];
    }
    ChunkSent(threshold, p, e, m, next);
    hide Step, Advanced, HeaderBytes, C3Header, BigEndian;
  }

  lemma {:induction false} ContinuesRun(threshold: nat, p: PeerState, m: OutMessage, pos: nat)
    requires InFlight(threshold, p, m, pos)
    ensures var o := Run(threshold, p, Continues(m, p.chunkSize, pos));
            && o.Some? && o.value.wire == Flatten(Chunks(threshold, m, p.chunkSize, pos))
            && SentWhole(threshold, p, m, o.value)
    decreases |m.payload| - pos
  {
    hide Step, ChunkAt, Sendable, Received, Accepted;
    ContinueStep(threshold, p, m, pos);
    var s := Step(threshold, p, Continue(m.cid, 1, false)).value;
    var next := pos + Min(|m.payload| - pos, p.chunkSize);
    assert Continues(m, p.chunkSize, pos)[1..] == Continues(m, p.chunkSize, next);
    if next < |m.payload| {
      ContinuesRun(threshold, s.peer, m, next);
    }
    RestOfMessage(threshold, p, m, next, s);
  }

  lemma RestOfMessage(threshold: nat, p: PeerState, m: OutMessage, next: nat, s: Outcome)
    requires p.chunkSize > 0 && next <= |m.payload| && Advanced(threshold, p, m, next, s)
    requires next < |m.payload| ==>
               var o := Run(threshold, s.peer, Continues(m, p.chunkSize, next));
               o.Some? && SentWhole(threshold, s.peer, m, o.value)
    ensures var o := Before(s, Run(threshold, s.peer, Continues(m, p.chunkSize, next)));
            o.Some? && SentWhole(threshold, p, m, o.value)
  {
    hide Received, Accepted, Sendable;
    if next == |m.payload| {
      assert s.delivered + [] == s.delivered;
    } else {
      var o := Run(threshold, s.peer, Continues(m, p.chunkSize, next)).value;
      assert [] + o.delivered == o.delivered;
    }
  }

  function MessageEvents(m: OutMessage, chunkSize: int): seq<Event>
    requires chunkSize > 0
  {
    if m.payload == [] then [] else
    [Start(m, 0, 0, 1)] + Continues(m, chunkSize, Min(|m.payload|, chunkSize))
  }

  ghost predicate AllIdle(p: PeerState) {
    forall cid: nat :: PeerAt(p, cid).sent.None?
  }

  lemma StartStep(threshold: nat, p: PeerState, m: OutMessage)
    requires Ready(p) && AllIdle(p) && Sendable(threshold, p.chunkSize, m) && m.payload != []
    ensures var s := Step(threshold, p, Start(m, 0, 0, 1));
            s.Some? && s.value.wire == ChunkAt(threshold, m, p.chunkSize, 0) &&
            Advanced(threshold, p, m, Min(|m.payload|, p.chunkSize), s.value)
  {
    var e := Start(m, 0, 0, 1);
    assert PeerAt(p, m.cid).sent.None?;
    StartBytes(threshold, p, m);
    ChunkSent(threshold, p, e, m, Min(|m.payload|, p.chunkSize));
    hide Step, Advanced, HeaderBytes, C0Header, BigEndian;
  }

  lemma StartBytes(threshold: nat, p: PeerState, m: OutMessage)
    requires EventOk(threshold, p, Start(m, 0, 0, 1))
    ensures HeaderBytes(threshold, p, Start(m, 0, 0, 1)) == C0Header(threshold, m)
  {
    hide C0Fields, BigEndian;
    assert [64 * 0 + m.cid] == [m.cid % 64];
  }

  /** One message, whole: its bytes are a run, and afterwards every stream is idle again. */
  lemma MessageRun(threshold: nat, p: PeerState, m: OutMessage)
    requires Ready(p) && AllIdle(p) && Sendable(threshold, p.chunkSize, m)
    ensures var o := Run(threshold, p, MessageEvents(m, p.chunkSize));
            && o.Some? && o.value.wire == MessageBytes(threshold, m, p.chunkSize)
            && SentWhole(threshold, p, m, o.value) && AllIdle(o.value.peer) && Ready(o.value.peer)
  {
    if m.payload == [] {
      EmptyMessage(threshold, p, m);
    } else {
      hide Step, ChunkAt, Sendable, Received, Accepted;
      StartStep(threshold, p, m);
      var s := Step(threshold, p, Start(m, 0, 0, 1)).value;
      var next := Min(|m.payload|, p.chunkSize);
      assert MessageEvents(m, p.chunkSize)[1..] == Continues(m, p.chunkSize, next);
      var chunks := Chunks(threshold, m, p.chunkSize, 0);
      assert chunks[1..] == Chunks(threshold, m, p.chunkSize, next);
      assert MessageBytes(threshold, m, p.chunkSize) == chunks[0] + Flatten(chunks[1..]);
      if next < |m.payload| {
        ContinuesRun(threshold, s.peer, m, next);
      }
      RestOfMessage(threshold, p, m, next, s);
      RunReady(threshold, p, MessageEvents(m, p.chunkSize));
    }
  }

  lemma EmptyMessage(threshold: nat, p: PeerState, m: OutMessage)
    requires m.payload == [] && AllIdle(p)
    ensures SentWhole(threshold, p, m, Outcome(p, [], []))
  {
  }

  function AllEvents(threshold: nat, chunkSize: int, ms: seq<OutMessage>): seq<Event>
    requires chunkSize >= MIN_CHUNK_SIZE && AllSendable(threshold, chunkSize, ms)
    decreases |ms|
  {
    if ms == [] then [] else
    MessageEvents(ms[0], chunkSize) + AllEvents(threshold, Adopted(chunkSize, ms[0]), ms[1..])
  }

  lemma {:induction false} SendRunIsRun(threshold: nat, p: PeerState, ms: seq<OutMessage>)
    requires Ready(p) && AllIdle(p) && AllSendable(threshold, p.chunkSize, ms)
    ensures var o := Run(threshold, p, AllEvents(threshold, p.chunkSize, ms));
            && o.Some?
            && (o.value.wire, o.value.peer.chunkSize) == SendRun(threshold, p.chunkSize, ms)
            && o.value.delivered == Expected(threshold, ms)
    decreases |ms|
  {
    if ms != [] {
      hide MessageEvents, MessageBytes, Received, Accepted, Sendable, PeerOk;
      var m := ms[0];
      MessageRun(threshold, p, m);
      var o := Run(threshold, p, MessageEvents(m, p.chunkSize)).value;
      SendRunIsRun(threshold, o.peer, ms[1..]);
      RunConcat(threshold, p, MessageEvents(m, p.chunkSize),
                AllEvents(threshold, o.peer.chunkSize, ms[1..]));
    }
  }

  /**
   * The round trip over whole connections: every list of messages, with chunk sizes announced
   * in between, is received in order, each as Received says, except those the reader drops;
   * and the sender's chunk size is the reader's at the end, hence after every prefix.
   */
  lemma {:induction false} SendReceiveRoundTrip(threshold: nat, ms: seq<OutMessage>)
    requires AllSendable(threshold, DEFAULT_CHUNK_SIZE, ms)
    ensures var (wire, chunkSize) := SendRun(threshold, DEFAULT_CHUNK_SIZE, ms);
            Delivers(threshold, wire, Expected(threshold, ms), chunkSize)
  {
    InitialMatch();
    SendRunIsRun(threshold, InitialPeer(), ms);
    ConnectionRoundTrip(threshold, AllEvents(threshold, DEFAULT_CHUNK_SIZE, ms));
  }

  function AllReceived(threshold: nat, ms: seq<OutMessage>): (r: seq<OutMessage>)
    ensures |r| == |ms|
  {
    if ms == [] then [] else [Received(threshold, ms[0])] + AllReceived(threshold, ms[1..])
  }

  predicate NeverDropped(m: OutMessage) {
    m.payload != [] && m.messageType != 4 && m.messageType != 5
  }

  lemma SendableAnnounces(threshold: nat, chunkSize: int, m: OutMessage)
    requires Sendable(threshold, chunkSize, m) && m.messageType == MSG_SET_CHUNK_SIZE
    ensures AnnouncesChunkSize(m.payload)
  {
    ReadsOut(m.payload);
    assert m.payload[..4] == m.payload;
    hide FromBigEndian;
  }

  lemma {:induction false} NothingDropped(threshold: nat, chunkSize: int, ms: seq<OutMessage>)
    requires chunkSize >= MIN_CHUNK_SIZE && AllSendable(threshold, chunkSize, ms)
    requires forall m | m in ms :: NeverDropped(m)
    ensures Expected(threshold, ms) == AllReceived(threshold, ms)
    decreases |ms|
  {
    if ms != [] {
      hide Received, Sendable, AnnouncesChunkSize, Adopted;
      assert ms[0] in ms && forall m | m in ms[1..] :: m in ms;
      if ms[0].messageType == MSG_SET_CHUNK_SIZE {
        SendableAnnounces(threshold, chunkSize, ms[0]);
      }
      NothingDropped(threshold, Adopted(chunkSize, ms[0]), ms[1..]);
    }
  }

  /**
   * The round trip where nothing is dropped: of non-empty audio, video, data and command
   * messages, and chunk sizes of at least 128 announced among them, every single one arrives.
   */
  lemma EveryMessageArrives(threshold: nat, ms: seq<OutMessage>)
    requires AllSendable(threshold, DEFAULT_CHUNK_SIZE, ms) && forall m | m in ms :: NeverDropped(m)
    ensures var (wire, chunkSize) := SendRun(threshold, DEFAULT_CHUNK_SIZE, ms);
            Delivers(threshold, wire, AllReceived(threshold, ms), chunkSize)
  {
    hide SendRun, NeverDropped, Delivers;
    SendReceiveRoundTrip(threshold, ms);
    NothingDropped(threshold, DEFAULT_CHUNK_SIZE, ms);
  }

  /** A batch is the run of its non-null messages. */
  function NonNull(msgs: seq<Option<OutMessage>>): seq<OutMessage> {
    if msgs == [] then [] else ToSeq(msgs[0]) + NonNull(msgs[1..])
  }

  lemma {:induction false} BatchIsSendRun(threshold: nat, chunkSize: int, msgs: seq<Option<OutMessage>>)
    requires chunkSize >= MIN_CHUNK_SIZE && AllSendable(threshold, chunkSize, NonNull(msgs))
    requires forall m | m in NonNull(msgs) :: m.messageType != MSG_SET_CHUNK_SIZE
    ensures SendRun(threshold, chunkSize, NonNull(msgs)) == (BatchBytes(threshold, msgs, chunkSize), chunkSize)
  {
    hide MessageBytes, Sendable;
    if msgs != [] {
      var rest := NonNull(msgs[1..]);
      if msgs[0].Some? {
        var m := msgs[0].value;
        assert NonNull(msgs) == [m] + rest;
        assert m in NonNull(msgs);
        assert NonNull(msgs)[1..] == rest;
        assert forall x | x in rest :: x in NonNull(msgs);
      } else {
        assert NonNull(msgs) == rest;
        assert [] + BatchBytes(threshold, msgs[1..], chunkSize) == BatchBytes(threshold, msgs[1..], chunkSize);
      }
      BatchIsSendRun(threshold, chunkSize, msgs[1..]);
    }
  }

  /** Exactly which messages come back unchanged, at any threshold. */
  lemma ArrivesIntact(threshold: nat, m: OutMessage)
    requires 0 <= m.timestamp < 0x1_0000_0000 && m.streamId < 0x1_0000_0000
    ensures Received(threshold, m) == m <==>
            && m.timestamp < (if threshold <= MAX_FIELD24 then 0x8000_0000 else 0x100_0000)
            && m.streamId % 256 == m.streamId / 0x100_0000 % 256
            && m.streamId / 0x100 % 256 == m.streamId / 0x1_0000 % 256
  {
    ByteSwapFixedPoints(m.streamId);
    var r := Received(threshold, m);
    assert r == m <==> r.timestamp == m.timestamp && r.streamId == m.streamId;
  }

  /** Accepted at the other end, a time below the limit, and a stream id that is a palindrome. */
  predicate ComesThrough(limit: nat, m: OutMessage) {
    && Accepted(m.messageType, m.payload) && 0 <= m.timestamp < limit && m.streamId < 0x1_0000_0000
    && m.streamId % 256 == m.streamId / 0x100_0000 % 256
    && m.streamId / 0x100 % 256 == m.streamId / 0x1_0000 % 256
  }

  lemma {:induction false} ExpectedUnchanged(threshold: nat, ms: seq<OutMessage>)
    requires var limit := if threshold <= MAX_FIELD24 then 0x8000_0000 else 0x100_0000;
             forall m | m in ms :: ComesThrough(limit, m)
    ensures Expected(threshold, ms) == ms
  {
    if ms != [] {
      hide Received, Accepted, ComesThrough;
      assert ms[0] in ms && forall m | m in ms[1..] :: m in ms;
      ComesUnchanged(threshold, ms[0]);
      ExpectedUnchanged(threshold, ms[1..]);
    }
  }

  lemma ComesUnchanged(threshold: nat, m: OutMessage)
    requires ComesThrough(if threshold <= MAX_FIELD24 then 0x8000_0000 else 0x100_0000, m)
    ensures Accepted(m.messageType, m.payload) && Received(threshold, m) == m
  {
    hide Accepted, Received;
    ArrivesIntact(threshold, m);
  }

  /** The server as it is written: times below 2^24 make the whole trip unchanged. */
  lemma RoundTripAsWritten(ms: seq<OutMessage>)
    requires AllSendable(THRESHOLD_AS_WRITTEN, DEFAULT_CHUNK_SIZE, ms)
    requires forall m | m in ms :: ComesThrough(0x100_0000, m)
    ensures var (wire, chunkSize) := SendRun(THRESHOLD_AS_WRITTEN, DEFAULT_CHUNK_SIZE, ms);
            Delivers(THRESHOLD_AS_WRITTEN, wire, ms, chunkSize)
  {
    hide SendRun, ComesThrough, Delivers;
    SendReceiveRoundTrip(THRESHOLD_AS_WRITTEN, ms);
    ExpectedUnchanged(THRESHOLD_AS_WRITTEN, ms);
  }

  /** With the threshold of section 5.3.1.3, times below 2^31 do. */
  lemma RoundTripOfSpecification(ms: seq<OutMessage>)
    requires AllSendable(THRESHOLD_OF_SPECIFICATION, DEFAULT_CHUNK_SIZE, ms)
    requires forall m | m in ms :: ComesThrough(0x8000_0000, m)
    ensures var (wire, chunkSize) := SendRun(THRESHOLD_OF_SPECIFICATION, DEFAULT_CHUNK_SIZE, ms);
            Delivers(THRESHOLD_OF_SPECIFICATION, wire, ms, chunkSize)
  {
    hide SendRun, ComesThrough, Delivers;
    SendReceiveRoundTrip(THRESHOLD_OF_SPECIFICATION, ms);
    ExpectedUnchanged(THRESHOLD_OF_SPECIFICATION, ms);
  }

  /**
   * An announced chunk size: the sender adopts any value, the reader none below 128. The two
   * ends stay in agreement exactly when the announcement is at least 128.
   */
  lemma AnnouncementAgreement(chunkSize: int, n: int, streamId: nat)
    requires chunkSize >= MIN_CHUNK_SIZE && -0x8000_0000 <= n < 0x8000_0000
    ensures var m := PacketMessage(SetChunkSize(n), streamId);
            && Adopted(chunkSize, m) == n
            && (OnRecvMessage(chunkSize, m.messageType, m.payload).1 == Adopted(chunkSize, m)
                <==> n >= MIN_CHUNK_SIZE)
  {
    var m := PacketMessage(SetChunkSize(n), streamId);
    Field32RoundTrip(Unsigned32(n));
    SignedAgain(n);
    hide BigEndian, Field32, Unsigned32, ToSigned32;
    assert m.payload[..4] == m.payload;
  }

  lemma SignedAgain(n: int)
    requires -0x8000_0000 <= n < 0x8000_0000
    ensures ToSigned32(Unsigned32(n) % 0x1_0000_0000) == n
  {
  }

  /**
   * Out of step: from the threshold on, where the threshold is above what a 24-bit field can
   * reach, the four bytes of the extended field are taken for payload and the last four payload
   * bytes for the next chunk.
   */
  lemma OutOfStep(threshold: nat, rs: RecvState, m: OutMessage)
    requires StateOk(rs) && StreamAt(rs, m.cid).msg.None? && 2 <= m.cid <= 63
    requires !InStep(threshold, Unsigned32(m.timestamp))
    requires 0 < |m.payload| <= rs.chunkSize && |m.payload| <= RECV_BUFFER_SIZE
    ensures var c := RecvInterlacedMessage(threshold, rs, MessageBytes(threshold, m, rs.chunkSize));
            var shifted := BigEndian(Unsigned32(m.timestamp), 4) + m.payload;
            && c.Parsed? && c.value.1.Some?
            && c.value.1.value.payload == shifted[..|m.payload|]
            && c.rest == shifted[|m.payload|..]
  {
    hide BigEndian, C0Fields, MessageBytes, ReadBasicHeader, ReadMessageHeader, Unsigned32;
    var shifted := BigEndian(Unsigned32(m.timestamp), 4) + m.payload;
    var fields := C0Fields(threshold, m);
    OneChunkBytes(threshold, m, rs.chunkSize);
    assert [64 * 0 + m.cid] == [m.cid];
    BasicHeaderRoundTrip(0, m.cid, 1, fields + shifted);
    OutOfStepHeader(threshold, m.cid, StreamAt(rs, m.cid), m, shifted);
  }

  /** A message of one chunk whose timestamp the sender writes as an extended one. */
  lemma OneChunkBytes(threshold: nat, m: OutMessage, chunkSize: int)
    requires 0 < |m.payload| <= chunkSize && m.cid < 64 && Unsigned32(m.timestamp) >= threshold
    ensures MessageBytes(threshold, m, chunkSize) ==
            [m.cid] + (C0Fields(threshold, m) + (BigEndian(Unsigned32(m.timestamp), 4) + m.payload))
  {
    hide BigEndian, C0Fields, Unsigned32;
    var chunks := Chunks(threshold, m, chunkSize, 0);
    assert m.payload[0..|m.payload|] == m.payload;
    assert chunks == [C0Header(threshold, m) + m.payload] + Chunks(threshold, m, chunkSize, |m.payload|);
    assert chunks[1..] == [];
    assert Flatten(chunks) == chunks[0] + Flatten(chunks[1..]);
  }

  lemma OutOfStepHeader(threshold: nat, cid: nat, s: ChunkStreamState, m: OutMessage, rest: bytes)
    requires StreamOk(cid, s) && s.msg.None? && threshold > MAX_FIELD24 && |m.payload| <= MAX_FIELD24
    ensures var h := ReadMessageHeader(threshold, cid, s, 0, C0Fields(threshold, m) + rest);
            h.Parsed? && h.rest == rest && h.value.header.payloadLength == |m.payload|
  {
    var fields := C0Fields(threshold, m);
    FieldsType0(threshold, m);
    hide C0Fields, FromBigEndian;
    AppendSplits(fields, rest);
  }
}
