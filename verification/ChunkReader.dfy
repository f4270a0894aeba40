/**
 * What Protocol's receive path computes from a byte stream (protocol/rtmp_stack.cpp:254-695, 1013-1065):
 * sections 5.3.1.1 to 5.3.1.3 of the RTMP Specification 1.0, as this server reads them.
 * Each function takes the unread bytes and returns the bytes it leaves.
 */
module ChunkReader {
  import opened Bytes
  import opened RtmpConsts

  datatype Header = Header(timestampDelta: nat, payloadLength: nat, messageType: byte,
                           streamId: nat, timestamp: nat, preferCid: nat)

  /** `msg` holds the payload bytes of the message being received. */
  datatype ChunkStreamState =
    ChunkStreamState(header: Header, extended: bool, chunks: nat, msg: Option<bytes>)

  datatype Message = Message(header: Header, payload: bytes)

  datatype RecvState = RecvState(chunkSize: int, streams: map<nat, ChunkStreamState>)

  function FreshStream(cid: nat): ChunkStreamState {
    ChunkStreamState(Header(0, 0, 0, 0, 0, cid), false, 0, None)
  }

  /** The 16-slot cache and the map together: absent streams are fresh. */
  function StreamAt(rs: RecvState, cid: nat): ChunkStreamState {
    if cid in rs.streams then rs.streams[cid] else FreshStream(cid)
  }

  function InitialState(): RecvState {
    RecvState(DEFAULT_CHUNK_SIZE, map cid: nat | cid < CHUNK_STREAM_CACHE :: FreshStream(cid))
  }

  /** A pending message is neither empty nor complete. */
  predicate StreamOk(cid: nat, s: ChunkStreamState) {
    && s.header.preferCid == cid
    && s.header.timestamp < 0x8000_0000
    && s.header.timestampDelta < 0x100_0000
    && s.header.payloadLength < 0x100_0000
    && (s.msg.Some? ==> 0 < |s.msg.value| < s.header.payloadLength && s.chunks > 0)
  }

  ghost predicate StateOk(rs: RecvState) {
    && rs.chunkSize >= MIN_CHUNK_SIZE
    && forall cid | cid in rs.streams :: StreamOk(cid, rs.streams[cid])
  }

  /** The state between a message header and its payload. */
  predicate HeaderRead(cid: nat, s: ChunkStreamState) {
    && s.msg.Some? && s.chunks > 0
    && (s.msg.value == [] || |s.msg.value| < s.header.payloadLength)
    && StreamOk(cid, s.(msg := None))
  }

  function ReadBasicHeader(input: bytes): (r: Parsed<(nat, nat)>)
    ensures r.Parsed? ==> r.value.0 < 4 && |r.rest| < |input|
  {
    if |input| < 1 then Error(ERROR_SOCKET_READ) else
    var fmt, cid := input[0] / 64, input[0] % 64;
    if cid > 1 then Parsed((fmt, cid), input[1..])
    else if cid == 0 then
      if |input| < 2 then Error(ERROR_SOCKET_READ)
      else Parsed((fmt, 64 + input[1] as int), input[2..])
    else
      if |input| < 3 then Error(ERROR_SOCKET_READ)
      else Parsed((fmt, 64 + input[1] as int + 256 * input[2] as int), input[3..])
  }

  function MessageHeaderSize(fmt: nat): nat {
    if fmt == 0 then 11 else if fmt == 1 then 7 else if fmt == 2 then 3 else 0
  }

  /** Three-byte and four-byte fields; the bounds are those of the field widths. */
  function Field24(f: bytes): (v: nat)
    requires |f| == 3
    ensures v < 0x100_0000
  {
    FromBigEndianRoundTrip(f);
    Widths();
    FromBigEndian(f)
  }

  function Field32(f: bytes): (v: nat)
    requires |f| == 4
    ensures v < 0x1_0000_0000
  {
    FromBigEndianRoundTrip(f);
    Widths();
    FromBigEndian(f)
  }

  predicate LengthChanged(s: ChunkStreamState, fmt: nat, f: bytes)
    requires |f| == MessageHeaderSize(fmt)
  {
    s.msg.Some? && fmt <= 1 && Field24(f[3..6]) != s.header.payloadLength
  }

  /** The timestamp, length, type and stream id fields a header of type `fmt` carries. */
  function ApplyFields(threshold: nat, s: ChunkStreamState, fmt: nat, f: bytes): (r: ChunkStreamState)
    requires fmt < 4 && |f| == MessageHeaderSize(fmt)
    ensures r == s.(header := r.header, extended := r.extended)
    ensures r.header.preferCid == s.header.preferCid
  {
    var h := s.header;
    if fmt == 3 then
      if s.msg.None? && !s.extended
      then s.(header := h.(timestamp := h.timestamp + h.timestampDelta))
      else s
    else
      var delta := Field24(f[..3]);
      var extended := delta >= threshold;
      var h1 := h.(timestampDelta := delta,
                   timestamp := if extended then h.timestamp
                                else if fmt == 0 then delta
                                else h.timestamp + delta);
      var h2 := if fmt <= 1 then h1.(payloadLength := Field24(f[3..6]), messageType := f[6]) else h1;
      var h3 := if fmt == 0 then h2.(streamId := Field32(f[7..11])) else h2;
      s.(header := h3, extended := extended)
  }

  /** A four-byte extended timestamp, tolerated as missing in continuation chunks. */
  function ReadExtendedTimestamp(s: ChunkStreamState, input: bytes): (r: Parsed<ChunkStreamState>)
    ensures r.Parsed? ==> r.value == s.(header := s.header.(timestamp := r.value.header.timestamp))
  {
    if |input| < 4 then Error(ERROR_SOCKET_READ) else
    var timestamp := Field32(input[..4]) % 0x8000_0000;
    var chunkTimestamp := s.header.timestamp % 0x1_0000_0000;
    if s.msg.Some? && chunkTimestamp > 0 && chunkTimestamp != timestamp then Parsed(s, input)
    else Parsed(s.(header := s.header.(timestamp := timestamp)), input[4..])
  }

  function ReadMessageHeader(threshold: nat, cid: nat, s: ChunkStreamState, fmt: nat, input: bytes)
    : (r: Parsed<ChunkStreamState>)
    requires fmt < 4 && StreamOk(cid, s)
    ensures r.Parsed? ==> HeaderRead(cid, r.value) && |r.rest| <= |input|
    ensures r.Parsed? ==> r.value.msg == if s.msg.None? then Some([]) else s.msg
    ensures r.Parsed? && s.msg.Some? ==> r.value.header.payloadLength == s.header.payloadLength
  {
    if s.chunks == 0 && fmt != 0 && !(cid == CID_PROTOCOL_CONTROL && fmt == 1)
    then Error(ERROR_RTMP_CHUNK_START)
    else if s.msg.Some? && fmt == 0 then Error(ERROR_RTMP_CHUNK_START)
    else
      var size := MessageHeaderSize(fmt);
      if |input| < size then Error(ERROR_SOCKET_READ)
      else if LengthChanged(s, fmt, input[..size]) then Error(ERROR_RTMP_CHUNK_START)
      else
        var s1 := ApplyFields(threshold, s, fmt, input[..size]);
        var p := if s1.extended then ReadExtendedTimestamp(s1, input[size..])
                 else Parsed(s1, input[size..]);
        if p.Error? then p else
        var h := p.value.header;
        Parsed(p.value.(header := h.(timestamp := h.timestamp % 0x8000_0000),
                        chunks := s.chunks + 1,
                        msg := if s.msg.None? then Some([]) else s.msg),
               p.rest)
  }

  function ReadMessagePayload(chunkSize: int, cid: nat, s: ChunkStreamState, input: bytes)
    : (r: Parsed<(ChunkStreamState, Option<Message>)>)
    requires chunkSize > 0 && HeaderRead(cid, s)
    ensures r.Parsed? ==> StreamOk(cid, r.value.0) && |r.rest| <= |input|
    ensures r.Parsed? ==> (r.value.1.Some? <==> r.value.0.msg.None?)
    ensures r.Parsed? && r.value.1.Some? ==>
              var m := r.value.1.value;
              m.header == s.header && |m.payload| == s.header.payloadLength && s.msg.value <= m.payload
    ensures r.Parsed? && r.value.1.None? ==> s.msg.value <= r.value.0.msg.value
  {
    if s.header.payloadLength == 0 then
      Parsed((s.(msg := None), Some(Message(s.header, s.msg.value))), input)
    else
      var size := Min(s.header.payloadLength - |s.msg.value|, chunkSize);
      if size > RECV_BUFFER_SIZE then Error(ERROR_READER_BUFFER_OVERFLOW)
      else if |input| < size then Error(ERROR_SOCKET_READ)
      else
        var got := s.msg.value + input[..size];
        if |got| == s.header.payloadLength
        then Parsed((s.(msg := None), Some(Message(s.header, got))), input[size..])
        else Parsed((s.(msg := Some(got)), None), input[size..])
  }

  /**
   * The rest of a chunk behind its basic header. The misplaced parenthesis at
   * protocol/rtmp_stack.cpp:611 turns every message header error into code 1.
   */
  function ReadChunk(threshold: nat, chunkSize: int, cid: nat, s: ChunkStreamState, fmt: nat, input: bytes)
    : (r: Parsed<(ChunkStreamState, Option<Message>)>)
    requires chunkSize > 0 && fmt < 4 && StreamOk(cid, s)
    ensures r.Parsed? ==> StreamOk(cid, r.value.0) && |r.rest| <= |input|
    ensures r.Error? ==> r.code != SUCCESS
    ensures r == Error(ERROR_READER_BUFFER_OVERFLOW) ==> chunkSize > RECV_BUFFER_SIZE
  {
    var h := ReadMessageHeader(threshold, cid, s, fmt, input);
    if h.Error? then Error(HEADER_FAILED) else
    ReadMessagePayload(chunkSize, cid, h.value, h.rest)
  }

  /** One chunk of any stream. */
  function RecvInterlacedMessage(threshold: nat, rs: RecvState, input: bytes)
    : (r: Parsed<(RecvState, Option<Message>)>)
    requires StateOk(rs)
    ensures r.Parsed? ==> StateOk(r.value.0) && |r.rest| < |input|
    ensures rs.chunkSize <= RECV_BUFFER_SIZE ==> r != Error(ERROR_READER_BUFFER_OVERFLOW)
  {
    var b := ReadBasicHeader(input);
    if b.Error? then Error(b.code) else
    var (fmt, cid) := b.value;
    var p := ReadChunk(threshold, rs.chunkSize, cid, StreamAt(rs, cid), fmt, b.rest);
    if p.Error? then Error(p.code) else
    Parsed((rs.(streams := rs.streams[cid := p.value.0]), p.value.1), p.rest)
  }

  predicate UserControlDecodes(payload: bytes) {
    |payload| >= 2 &&
    var event := FromBigEndian(payload[..2]);
    if event == EVENT_FMS_EVENT0 then |payload| >= 3
    else |payload| >= 6 && (event == EVENT_SET_BUFFER_LEN ==> |payload| >= 10)
  }

  /** The hook on complete messages: its error code, and the chunk size from then on. */
  function OnRecvMessage(chunkSize: int, messageType: byte, payload: bytes): (r: (int, int))
    ensures chunkSize >= MIN_CHUNK_SIZE ==> r.1 >= MIN_CHUNK_SIZE
    ensures messageType != MSG_SET_CHUNK_SIZE || r.0 != SUCCESS ==> r.1 == chunkSize
  {
    if messageType == MSG_SET_CHUNK_SIZE then
      if |payload| < 4 then (ERROR_RTMP_MESSAGE_DECODE, chunkSize)
      else
        var size := ToSigned32(Field32(payload[..4]));
        if size < MIN_CHUNK_SIZE then (ERROR_RTMP_CHUNK_START, chunkSize) else (SUCCESS, size)
    else if messageType == MSG_USER_CONTROL || messageType == MSG_WINDOW_ACK_SIZE then
      if UserControlDecodes(payload) then (SUCCESS, chunkSize) else (ERROR_RTMP_MESSAGE_DECODE, chunkSize)
    else (SUCCESS, chunkSize)
  }

  /** Empty messages and those the hook rejects are dropped. */
  function Handle(rs: RecvState, msg: Option<Message>): (r: (RecvState, Option<Message>))
    requires StateOk(rs)
    ensures StateOk(r.0) && r.0.streams == rs.streams
    ensures r.1.Some? ==> r.1 == msg && msg.value.payload != []
  {
    if msg.None? || msg.value.payload == [] then (rs, None) else
    var (code, chunkSize) := OnRecvMessage(rs.chunkSize, msg.value.header.messageType, msg.value.payload);
    if code != SUCCESS then (rs, None) else (rs.(chunkSize := chunkSize), msg)
  }

  /** The receive loop: chunks are consumed until a message survives or the stream fails. */
  function RecvMessage(threshold: nat, rs: RecvState, input: bytes): (r: Parsed<(RecvState, Message)>)
    requires StateOk(rs)
    ensures r.Parsed? ==> StateOk(r.value.0) && |r.rest| < |input| && r.value.1.payload != []
    decreases |input|
  {
    var c := RecvInterlacedMessage(threshold, rs, input);
    if c.Error? then Error(c.code) else
    var (rs1, msg) := Handle(c.value.0, c.value.1);
    if msg.None? then RecvMessage(threshold, rs1, c.rest) else Parsed((rs1, msg.value), c.rest)
  }

  /** Every message RecvMessage returns when it is called until it fails. */
  function RecvRun(threshold: nat, rs: RecvState, input: bytes): seq<Message>
    requires StateOk(rs)
    decreases |input|
  {
    var r := RecvMessage(threshold, rs, input);
    if r.Error? then [] else [r.value.1] + RecvRun(threshold, r.value.0, r.rest)
  }

  function ToSeq<T>(x: Option<T>): seq<T> {
    if x.None? then [] else [x.value]
  }

  /** Whole chunks consumed to the last byte: the final state and the messages delivered. */
  function Feed(threshold: nat, rs: RecvState, input: bytes): (r: Parsed<(RecvState, seq<Message>)>)
    requires StateOk(rs)
    ensures r.Parsed? ==> StateOk(r.value.0) && r.rest == []
    decreases |input|
  {
    if input == [] then Parsed((rs, []), []) else
    var c := RecvInterlacedMessage(threshold, rs, input);
    if c.Error? then Error(c.code) else
    var (rs1, msg) := Handle(c.value.0, c.value.1);
    var f := Feed(threshold, rs1, c.rest);
    if f.Error? then f else Parsed((f.value.0, ToSeq(msg) + f.value.1), [])
  }

  lemma {:induction false} FeedIsRecvRun(threshold: nat, rs: RecvState, input: bytes)
    requires StateOk(rs) && Feed(threshold, rs, input).Parsed?
    ensures RecvRun(threshold, rs, input) == Feed(threshold, rs, input).value.1
    ensures RecvRun(threshold, rs, input) == [] ==>
              RecvMessage(threshold, rs, input) == Error(ERROR_SOCKET_READ)
    decreases |input|
  {
    hide Handle, StateOk;
    if input != [] {
      hide RecvInterlacedMessage;
      var c := RecvInterlacedMessage(threshold, rs, input);
      var (rs1, msg) := Handle(c.value.0, c.value.1);
      FeedIsRecvRun(threshold, rs1, c.rest);
    }
  }

  /** A chunk read from a prefix of the stream is the same chunk read from the whole stream. */
  lemma ChunkIsLocal(threshold: nat, rs: RecvState, input: bytes, more: bytes)
    requires StateOk(rs)
    requires RecvInterlacedMessage(threshold, rs, input).Parsed?
    ensures var c := RecvInterlacedMessage(threshold, rs, input);
            RecvInterlacedMessage(threshold, rs, input + more) == Parsed(c.value, c.rest + more)
  {
    BasicHeaderIsLocal(input, more);
    var b := ReadBasicHeader(input);
    var (fmt, cid) := b.value;
    var s := StreamAt(rs, cid);
    HeaderIsLocal(threshold, cid, s, fmt, b.rest, more);
    var h := ReadMessageHeader(threshold, cid, s, fmt, b.rest);
    PayloadIsLocal(rs.chunkSize, cid, h.value, h.rest, more);
  }

  lemma BasicHeaderIsLocal(input: bytes, more: bytes)
    requires ReadBasicHeader(input).Parsed?
    ensures var b := ReadBasicHeader(input);
            ReadBasicHeader(input + more) == Parsed(b.value, b.rest + more)
  {
    var b := ReadBasicHeader(input);
    var n := |input| - |b.rest|;
    assert (input + more)[n..] == input[n..] + more;
  }

  lemma HeaderIsLocal(threshold: nat, cid: nat, s: ChunkStreamState, fmt: nat, input: bytes, more: bytes)
    requires fmt < 4 && StreamOk(cid, s)
    requires ReadMessageHeader(threshold, cid, s, fmt, input).Parsed?
    ensures var h := ReadMessageHeader(threshold, cid, s, fmt, input);
            ReadMessageHeader(threshold, cid, s, fmt, input + more) == Parsed(h.value, h.rest + more)
  {
    var size := MessageHeaderSize(fmt);
    assert (input + more)[..size] == input[..size];
    var rest := input[size..];
    assert (input + more)[size..] == rest + more;
    if |rest| >= 4 {
      assert (rest + more)[..4] == rest[..4];
      assert (rest + more)[4..] == rest[4..] + more;
    }
  }

  lemma PayloadIsLocal(chunkSize: int, cid: nat, s: ChunkStreamState, input: bytes, more: bytes)
    requires chunkSize > 0 && HeaderRead(cid, s)
    requires ReadMessagePayload(chunkSize, cid, s, input).Parsed?
    ensures var p := ReadMessagePayload(chunkSize, cid, s, input);
            ReadMessagePayload(chunkSize, cid, s, input + more) == Parsed(p.value, p.rest + more)
  {
    if s.header.payloadLength != 0 {
      var size := Min(s.header.payloadLength - |s.msg.value|, chunkSize);
      assert (input + more)[..size] == input[..size];
      assert (input + more)[size..] == input[size..] + more;
    }
  }

  /** Feeding two streams one after the other is feeding their concatenation. */
  lemma {:induction false} FeedConcat(threshold: nat, rs: RecvState, a: bytes, b: bytes)
    requires StateOk(rs) && Feed(threshold, rs, a).Parsed?
    ensures var fa := Feed(threshold, rs, a).value;
            Feed(threshold, rs, a + b) == Then(fa.1, Feed(threshold, fa.0, b))
    decreases |a|
  {
    if a == [] {
      assert a + b == b;
      ThenEmpty(Feed(threshold, rs, b));
    } else {
      FeedStepConcat(threshold, rs, a, b);
      var c := RecvInterlacedMessage(threshold, rs, a);
      var (rs1, msg) := Handle(c.value.0, c.value.1);
      FeedConcat(threshold, rs1, c.rest, b);
      var fa := Feed(threshold, rs1, c.rest).value;
      ThenThen(ToSeq(msg), fa.1, Feed(threshold, fa.0, b));
    }
  }

  /** Messages delivered before the rest of a run. */
  function Then(msgs: seq<Message>, f: Parsed<(RecvState, seq<Message>)>): Parsed<(RecvState, seq<Message>)> {
    if f.Error? then f else Parsed((f.value.0, msgs + f.value.1), [])
  }

  lemma ThenEmpty(f: Parsed<(RecvState, seq<Message>)>)
    requires f.Parsed? ==> f.rest == []
    ensures Then([], f) == f
  {
    if f.Parsed? {
      assert [] + f.value.1 == f.value.1;
    }
  }

  lemma ThenThen(a: seq<Message>, b: seq<Message>, f: Parsed<(RecvState, seq<Message>)>)
    ensures Then(a, Then(b, f)) == Then(a + b, f)
  {
    if f.Parsed? {
      assert a + (b + f.value.1) == a + b + f.value.1;
    }
  }

  lemma FeedStepConcat(threshold: nat, rs: RecvState, a: bytes, b: bytes)
    requires StateOk(rs) && a != []
    requires RecvInterlacedMessage(threshold, rs, a).Parsed?
    ensures var c := RecvInterlacedMessage(threshold, rs, a);
            var (rs1, msg) := Handle(c.value.0, c.value.1);
            Feed(threshold, rs, a + b) == Then(ToSeq(msg), Feed(threshold, rs1, c.rest + b))
  {
    ChunkIsLocal(threshold, rs, a, b);
    assert a + b != [];
  }

  /**
   * A chunk sees the chunk size and its own stream, and changes its own stream only: two
   * receivers that agree on these make the same of it, whatever their other streams hold.
   */
  lemma ChunkSeesOnlyItsStream(threshold: nat, a: RecvState, b: RecvState, input: bytes, other: nat)
    requires StateOk(a) && StateOk(b) && a.chunkSize == b.chunkSize
    requires ReadBasicHeader(input).Parsed? ==>
               var cid := ReadBasicHeader(input).value.1;
               StreamAt(a, cid) == StreamAt(b, cid) && other != cid
    ensures var c, d := RecvInterlacedMessage(threshold, a, input), RecvInterlacedMessage(threshold, b, input);
            && (c.Error? ==> c == d)
            && (c.Parsed? ==>
                  var cid := ReadBasicHeader(input).value.1;
                  && d.Parsed? && c.rest == d.rest && c.value.1 == d.value.1
                  && StreamAt(c.value.0, cid) == StreamAt(d.value.0, cid)
                  && StreamAt(c.value.0, other) == StreamAt(a, other)
                  && StreamAt(d.value.0, other) == StreamAt(b, other))
  {
  }
}
