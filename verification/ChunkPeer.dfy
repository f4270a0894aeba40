/**
 * The other end of a connection, in terms of messages. A peer may interleave the chunks of
 * messages on different chunk streams, change the chunk size in-band, and start a message with
 * any of the four header types of section 5.3.1.2 of the RTMP Specification 1.0.
 */
module ChunkPeer {
  import opened Bytes
  import opened RtmpConsts
  import opened ChunkWriter
  import opened ChunkReader

  /**
   * One chunk stream at the peer: the message last started, its time as the reader sees it, the
   * timestamp delta in force, the extended timestamp field if there is one, how many chunks were
   * sent, and how much of the message when it is in flight.
   */
  datatype PeerStream = PeerStream(last: OutMessage, seen: nat, delta: nat, ext: Option<nat>,
                                   chunks: nat, sent: Option<nat>)

  datatype PeerState = PeerState(chunkSize: int, streams: map<nat, PeerStream>)

  /**
   * The first chunk of a message, or the next chunk of the one in flight. `delta` is what a
   * header of type 1, 2 or 3 adds (section 5.3.1.2); the timestamp of `m` is what the peer means.
   * A bare continuation chunk leaves out the extended timestamp its stream carries.
   */
  datatype Event =
    | Start(m: OutMessage, fmt: nat, delta: nat, form: nat)
    | Continue(cid: nat, form: nat, bare: bool)
  {
    function Cid(): nat {
      if Start? then m.cid else cid
    }
  }

  function FreshPeer(cid: nat): PeerStream {
    PeerStream(OutMessage(cid, 0, 0, 0, []), 0, 0, None, 0, None)
  }

  function PeerAt(p: PeerState, cid: nat): PeerStream {
    if cid in p.streams then p.streams[cid] else FreshPeer(cid)
  }

  /** Which of the one-, two- and three-byte basic headers can carry the id (section 5.3.1.1). */
  predicate FormOk(form: nat, cid: nat) {
    || (form == 1 && 2 <= cid <= 63)
    || (form == 2 && 64 <= cid <= 319)
    || (form == 3 && 64 <= cid <= 65599)
  }

  /** The ends stay in step: an extended field is written exactly when it will be read. */
  predicate InStep(threshold: nat, timestamp: nat) {
    threshold <= MAX_FIELD24 || timestamp < threshold
  }

  /** A 32-bit timestamp as the reader sees it. */
  function SeenTimestamp(threshold: nat, timestamp: nat): nat {
    if threshold <= MAX_FIELD24 then timestamp % 0x8000_0000 else timestamp % 0x100_0000
  }

  /** A message as the reader sees it: stream ids are written little-endian and read big-endian. */
  function Arrival(m: OutMessage, seen: nat): OutMessage {
    m.(timestamp := seen, streamId := ByteSwap32(m.streamId))
  }

  predicate PieceFits(chunkSize: int, left: nat) {
    Min(left, chunkSize) <= RECV_BUFFER_SIZE
  }

  /** What the field of a type-1 or type-2 header, or the one behind it, can carry. */
  predicate DeltaOk(threshold: nat, s: PeerStream, fmt: nat, delta: nat) {
    && delta < 0x1_0000_0000
    && if fmt == 3 then s.ext.None? ==> delta == s.delta
       else threshold <= MAX_FIELD24 || delta <= MAX_FIELD24
  }

  predicate StartOk(threshold: nat, chunkSize: int, s: PeerStream, m: OutMessage, fmt: nat, delta: nat) {
    && s.sent.None? && fmt < 4
    && |m.payload| <= MAX_FIELD24 && m.streamId < 0x1_0000_0000
    && PieceFits(chunkSize, |m.payload|)
    && if fmt == 0 then InStep(threshold, Unsigned32(m.timestamp))
       else
         && (s.chunks > 0 || (m.cid == CID_PROTOCOL_CONTROL && fmt == 1))
         && m.streamId == s.last.streamId
         && (fmt >= 2 ==> |m.payload| == |s.last.payload| && m.messageType == s.last.messageType)
         && DeltaOk(threshold, s, fmt, delta)
  }

  /** Bytes that cannot be taken for the extended timestamp of a message with this time. */
  predicate Unlike(time: nat, input: bytes) {
    time > 0 && |input| >= 4 && Field32(input[..4]) % 0x8000_0000 != time
  }

  predicate EventOk(threshold: nat, p: PeerState, e: Event) {
    && FormOk(e.form, e.Cid())
    && var s := PeerAt(p, e.Cid());
    match e
    case Start(m, fmt, delta, _) => StartOk(threshold, p.chunkSize, s, m, fmt, delta)
    case Continue(_, _, bare) =>
      s.sent.Some? && s.sent.value < |s.last.payload|
      && PieceFits(p.chunkSize, |s.last.payload| - s.sent.value)
      && (bare && s.ext.Some? && p.chunkSize > 0 ==> Unlike(s.seen, Piece(p.chunkSize, s)))
  }

  function BasicHeader(fmt: nat, cid: nat, form: nat): bytes
    requires fmt < 4 && FormOk(form, cid)
  {
    if form == 1 then [64 * fmt + cid]
    else if form == 2 then [64 * fmt, cid - 64]
    else [64 * fmt + 1, (cid - 64) % 256, (cid - 64) / 256]
  }

  /** The part of a message header that is there in any case. */
  function FixedHeader(threshold: nat, m: OutMessage, fmt: nat, delta: nat): (f: bytes)
    ensures |f| == MessageHeaderSize(fmt)
  {
    if fmt == 0 then C0Fields(threshold, m)
    else if fmt == 1 then TimestampField(threshold, delta) + BigEndian(|m.payload|, 3) + [m.messageType]
    else if fmt == 2 then TimestampField(threshold, delta)
    else []
  }

  /** The number a header of type 0, 1 or 2 carries as its timestamp or timestamp delta. */
  function Stamp(m: OutMessage, fmt: nat, delta: nat): nat {
    if fmt == 0 then Unsigned32(m.timestamp) else delta
  }

  /** The extended timestamp behind a header that starts a message; type 3 has one if the last had. */
  function StartExt(threshold: nat, s: PeerStream, m: OutMessage, fmt: nat, delta: nat): Option<nat> {
    if fmt == 3 then (if s.ext.Some? then Some(delta) else None)
    else if Stamp(m, fmt, delta) >= threshold then Some(Stamp(m, fmt, delta)) else None
  }

  function ExtBytes(ext: Option<nat>): bytes {
    if ext.Some? then BigEndian(ext.value, 4) else []
  }

  /**
   * The stream once the first chunk's header is out, before any payload. An extended delta is
   * read as a time of its own: the time before it plays no part.
   */
  function Started(threshold: nat, s: PeerStream, m: OutMessage, fmt: nat, delta: nat): PeerStream {
    var ext := StartExt(threshold, s, m, fmt, delta);
    PeerStream(m,
               if fmt == 0 then SeenTimestamp(threshold, Unsigned32(m.timestamp))
               else if ext.Some? then delta % 0x8000_0000
               else (s.seen + delta) % 0x8000_0000,
               if fmt == 3 then s.delta
               else if ext.Some? then MAX_FIELD24 else Stamp(m, fmt, delta) % 0x100_0000,
               ext, s.chunks + 1, Some(0))
  }

  function HeaderSent(threshold: nat, p: PeerState, e: Event): PeerStream {
    var s := PeerAt(p, e.Cid());
    match e
    case Start(m, fmt, delta, _) => Started(threshold, s, m, fmt, delta)
    case Continue(_, _, _) => s.(chunks := s.chunks + 1)
  }

  function Fmt(e: Event): nat {
    if e.Start? then e.fmt else 3
  }

  /** What lies between the basic header and the payload. */
  function MessageHeader(threshold: nat, s: PeerStream, e: Event): bytes {
    match e
    case Start(m, fmt, delta, _) =>
      FixedHeader(threshold, m, fmt, delta) + ExtBytes(StartExt(threshold, s, m, fmt, delta))
    case Continue(_, _, bare) => if bare then [] else ExtBytes(s.ext)
  }

  function HeaderBytes(threshold: nat, p: PeerState, e: Event): bytes
    requires EventOk(threshold, p, e)
  {
    BasicHeader(Fmt(e), e.Cid(), e.form) + MessageHeader(threshold, PeerAt(p, e.Cid()), e)
  }

  function PieceEnd(chunkSize: int, s: PeerStream): int
    requires s.sent.Some?
  {
    s.sent.value + Min(|s.last.payload| - s.sent.value, chunkSize)
  }

  /** The payload bytes of the next chunk. */
  function Piece(chunkSize: int, s: PeerStream): bytes
    requires chunkSize > 0 && s.sent.Some? && s.sent.value <= |s.last.payload|
  {
    s.last.payload[s.sent.value..PieceEnd(chunkSize, s)]
  }

  function EventBytes(threshold: nat, p: PeerState, e: Event): bytes
    requires p.chunkSize > 0 && PeerOk(p) && EventOk(threshold, p, e)
  {
    HeaderBytes(threshold, p, e) + Piece(p.chunkSize, HeaderSent(threshold, p, e))
  }

  /** Complete messages are delivered unless empty or rejected; some change the chunk size. */
  function Complete(p: PeerState, s: PeerStream): (PeerState, Option<OutMessage>) {
    var m := s.last;
    if m.payload == [] then (p, None) else
    var (code, chunkSize) := OnRecvMessage(p.chunkSize, m.messageType, m.payload);
    if code != SUCCESS then (p, None) else (p.(chunkSize := chunkSize), Some(Arrival(m, s.seen)))
  }

  /** The stream after an event: idle, or with one more piece of its message sent. */
  function StreamAfter(threshold: nat, p: PeerState, e: Event): (r: PeerStream)
    requires p.chunkSize >= MIN_CHUNK_SIZE && PeerOk(p) && EventOk(threshold, p, e)
    ensures PeerStreamOk(e.Cid(), r)
  {
    var s := HeaderSent(threshold, p, e);
    var end := PieceEnd(p.chunkSize, s);
    s.(sent := if end == |s.last.payload| then None else Some(end))
  }

  function PeerStep(threshold: nat, p: PeerState, e: Event): (r: (PeerState, Option<OutMessage>))
    requires p.chunkSize >= MIN_CHUNK_SIZE && PeerOk(p) && EventOk(threshold, p, e)
    ensures r.0.chunkSize >= MIN_CHUNK_SIZE && PeerOk(r.0)
  {
    var s := StreamAfter(threshold, p, e);
    var p1 := p.(streams := p.streams[e.Cid() := s]);
    if s.sent.None? then Complete(p1, HeaderSent(threshold, p, e)) else (p1, None)
  }

  predicate PeerStreamOk(cid: nat, s: PeerStream) {
    && s.last.cid == cid && |s.last.payload| <= MAX_FIELD24 && s.last.streamId < 0x1_0000_0000
    && s.seen < 0x8000_0000 && s.delta <= MAX_FIELD24
    && (s.ext.Some? ==> s.ext.value < 0x1_0000_0000 && s.seen == s.ext.value % 0x8000_0000)
    && (s.sent.Some? ==> 0 < s.sent.value < |s.last.payload| && s.chunks > 0)
  }

  ghost predicate PeerOk(p: PeerState) {
    forall cid | cid in p.streams :: PeerStreamOk(cid, p.streams[cid])
  }

  /** The reader's stream mirrors the peer's, up to the bytes not sent yet. */
  ghost predicate Mirrors(cid: nat, r: ChunkStreamState, s: PeerStream) {
    && r.header == Header(s.delta, |s.last.payload|, s.last.messageType,
                          ByteSwap32(s.last.streamId), s.seen, cid)
    && r.extended == s.ext.Some? && r.chunks == s.chunks
    && (s.sent.Some? ==> s.sent.value <= |s.last.payload|)
    && r.msg == if s.sent.None? then None else Some(s.last.payload[..s.sent.value])
  }

  ghost predicate Matches(rs: RecvState, p: PeerState) {
    && rs.chunkSize == p.chunkSize
    && forall cid: nat :: Mirrors(cid, StreamAt(rs, cid), PeerAt(p, cid))
  }

  lemma BasicHeaderRoundTrip(fmt: nat, cid: nat, form: nat, rest: bytes)
    requires fmt < 4 && FormOk(form, cid)
    ensures ReadBasicHeader(BasicHeader(fmt, cid, form) + rest) == Parsed((fmt, cid), rest)
  {
    var h := BasicHeader(fmt, cid, form);
    assert (h + rest)[..|h|] == h && (h + rest)[|h|..] == rest;
    if form == 1 {
      assert (64 * fmt + cid) / 64 == fmt && (64 * fmt + cid) % 64 == cid;
    } else if form == 2 {
      assert 64 * fmt / 64 == fmt && 64 * fmt % 64 == 0;
    } else {
      assert (64 * fmt + 1) / 64 == fmt && (64 * fmt + 1) % 64 == 1;
    }
  }

  lemma Field24RoundTrip(v: nat)
    ensures Field24(BigEndian(v, 3)) == v % 0x100_0000
  {
    BigEndianRoundTrip(v, 3);
    Widths();
  }

  lemma Field32RoundTrip(v: nat)
    ensures Field32(BigEndian(v, 4)) == v % 0x1_0000_0000
  {
    BigEndianRoundTrip(v, 4);
    Widths();
  }

  /** A timestamp field reads back as the number, or as all ones in front of an extended field. */
  lemma TimestampFieldReadsBack(threshold: nat, v: nat)
    ensures Field24(TimestampField(threshold, v)) == if v >= threshold then MAX_FIELD24 else v % 0x100_0000
  {
    Field24RoundTrip(v);
    Field24RoundTrip(MAX_FIELD24);
    ExplicitBytes(MAX_FIELD24);
  }

  /** The fixed part of every header type reads back as the fields that were put in. */
  lemma FieldsType0(threshold: nat, m: OutMessage)
    requires |m.payload| <= MAX_FIELD24
    ensures var f, timestamp := C0Fields(threshold, m), Unsigned32(m.timestamp);
            && Field24(f[..3]) == (if timestamp >= threshold then MAX_FIELD24 else timestamp % 0x100_0000)
            && Field24(f[3..6]) == |m.payload| && f[6] == m.messageType
            && Field32(f[7..11]) == ByteSwap32(m.streamId)
  {
    var timestamp, f := Unsigned32(m.timestamp), C0Fields(threshold, m);
    TimestampFieldReadsBack(threshold, timestamp);
    Field24RoundTrip(|m.payload|);
    hide TimestampField, BigEndian, FromBigEndian, LittleEndian32, Field24;
    assert f[..3] == TimestampField(threshold, timestamp) && f[3..6] == BigEndian(|m.payload|, 3);
    assert f[7..11] == LittleEndian32(m.streamId);
  }

  lemma FieldsType1(threshold: nat, m: OutMessage, delta: nat)
    requires |m.payload| <= MAX_FIELD24
    ensures var f := FixedHeader(threshold, m, 1, delta);
            && Field24(f[..3]) == (if delta >= threshold then MAX_FIELD24 else delta % 0x100_0000)
            && Field24(f[3..6]) == |m.payload| && f[6] == m.messageType
  {
    var f := FixedHeader(threshold, m, 1, delta);
    TimestampFieldReadsBack(threshold, delta);
    Field24RoundTrip(|m.payload|);
    hide TimestampField, BigEndian, FromBigEndian, Field24;
    assert f[..3] == TimestampField(threshold, delta) && f[3..6] == BigEndian(|m.payload|, 3);
  }

  /** A header that starts a message, up to its extended field. */
  lemma FixedHeaderApplies(threshold: nat, chunkSize: int, r: ChunkStreamState, s: PeerStream,
                           m: OutMessage, fmt: nat, delta: nat)
    requires Mirrors(m.cid, r, s) && StartOk(threshold, chunkSize, s, m, fmt, delta)
    ensures var t := Started(threshold, s, m, fmt, delta);
            var a := ApplyFields(threshold, r, fmt, FixedHeader(threshold, m, fmt, delta));
            && a == r.(header := a.header, extended := t.ext.Some?)
            && a.header == Header(t.delta, |m.payload|, m.messageType, ByteSwap32(m.streamId),
                                  a.header.timestamp, m.cid)
            && (t.ext.None? ==> a.header.timestamp % 0x8000_0000 == t.seen)
  {
    hide ByteSwap32, FixedHeader;
    var f := FixedHeader(threshold, m, fmt, delta);
    FixedHeaderReadsBack(threshold, m, fmt, delta);
    hide Field24, Field32;
  }

  lemma FixedHeaderReadsBack(threshold: nat, m: OutMessage, fmt: nat, delta: nat)
    requires fmt < 4 && |m.payload| <= MAX_FIELD24
    ensures var f, v := FixedHeader(threshold, m, fmt, delta), Stamp(m, fmt, delta);
            && (fmt < 3 ==> Field24(f[..3]) == if v >= threshold then MAX_FIELD24 else v % 0x100_0000)
            && (fmt < 2 ==> Field24(f[3..6]) == |m.payload| && f[6] == m.messageType)
            && (fmt == 0 ==> Field32(f[7..11]) == ByteSwap32(m.streamId))
  {
    hide C0Fields, TimestampField, BigEndian, ByteSwap32, Field24, Field32;
    if fmt == 0 {
      FieldsType0(threshold, m);
    } else if fmt == 1 {
      FieldsType1(threshold, m, delta);
    } else if fmt == 2 {
      TimestampFieldReadsBack(threshold, delta);
      var f := FixedHeader(threshold, m, 2, delta);
      assert f[..3] == f;
    }
  }

  /** A message header starts a message: the reader's stream comes to mirror the peer's. */
  lemma StartHeaderDecodes(threshold: nat, chunkSize: int, r: ChunkStreamState, s: PeerStream,
                           m: OutMessage, fmt: nat, delta: nat, rest: bytes)
    requires StreamOk(m.cid, r) && PeerStreamOk(m.cid, s) && Mirrors(m.cid, r, s)
    requires StartOk(threshold, chunkSize, s, m, fmt, delta)
    ensures var f := FixedHeader(threshold, m, fmt, delta) + ExtBytes(StartExt(threshold, s, m, fmt, delta));
            var h := ReadMessageHeader(threshold, m.cid, r, fmt, f + rest);
            h.Parsed? && h.rest == rest && Mirrors(m.cid, h.value, Started(threshold, s, m, fmt, delta))
  {
    hide FixedHeader, ApplyFields, ExtBytes, ByteSwap32, ReadExtendedTimestamp;
    var t := Started(threshold, s, m, fmt, delta);
    var fixed, size := FixedHeader(threshold, m, fmt, delta), MessageHeaderSize(fmt);
    FixedHeaderApplies(threshold, chunkSize, r, s, m, fmt, delta);
    ExtDecodes(ApplyFields(threshold, r, fmt, fixed), t.ext, rest);
    var input := fixed + ExtBytes(t.ext) + rest;
    assert input[..size] == fixed && input[size..] == ExtBytes(t.ext) + rest;
  }

  /** An extended timestamp reads back, masked to 31 bits, where it is not refused. */
  lemma ExtDecodes(r: ChunkStreamState, ext: Option<nat>, rest: bytes)
    requires ext.Some? ==> ext.value < 0x1_0000_0000
    requires ext.Some? && r.msg.Some? ==> r.header.timestamp == ext.value % 0x8000_0000
    ensures if ext.None? then ExtBytes(ext) + rest == rest
            else ReadExtendedTimestamp(r, ExtBytes(ext) + rest) ==
                 Parsed(r.(header := r.header.(timestamp := ext.value % 0x8000_0000)), rest)
  {
    hide BigEndian, Field32;
    if ext.Some? {
      var f := BigEndian(ext.value, 4);
      Field32RoundTrip(ext.value);
      AppendSplits(f, rest);
    }
  }

  /** A type-3 header continues a message and changes nothing but the chunk counter. */
  lemma ContinueHeaderDecodes(threshold: nat, cid: nat, r: ChunkStreamState, s: PeerStream, bare: bool, rest: bytes)
    requires StreamOk(cid, r) && PeerStreamOk(cid, s) && Mirrors(cid, r, s) && s.sent.Some?
    requires bare && s.ext.Some? ==> Unlike(s.seen, rest)
    ensures var f := if bare then [] else ExtBytes(s.ext);
            var h := ReadMessageHeader(threshold, cid, r, 3, f + rest);
            h.Parsed? && h.rest == rest && Mirrors(cid, h.value, s.(chunks := s.chunks + 1))
  {
    hide ExtBytes, ByteSwap32, Field32;
    var f := if bare then [] else ExtBytes(s.ext);
    var input := f + rest;
    assert input[..0] == [] && input[0..] == input;
    if bare || s.ext.None? {
      ExtDecodes(r, None, rest);
      assert input == rest;
    } else {
      hide ReadExtendedTimestamp;
      ExtDecodes(r, s.ext, rest);
    }
  }

  /**
   * The tolerance for continuation chunks without the extended timestamp: whatever follows, such
   * a chunk is read as if the field were there exactly when the message's time is positive and
   * the next four bytes, masked to 31 bits, differ from it. Otherwise payload is lost to the field.
   */
  lemma BareChunkReadsAlike(threshold: nat, cid: nat, r: ChunkStreamState, input: bytes)
    requires StreamOk(cid, r) && r.msg.Some? && r.extended
    ensures ReadMessageHeader(threshold, cid, r, 3, input)
         == ReadMessageHeader(threshold, cid, r, 3, ExtBytes(Some(r.header.timestamp)) + input)
        <==> Unlike(r.header.timestamp, input)
  {
    hide ExtBytes, Field32;
    var full := ExtBytes(Some(r.header.timestamp)) + input;
    ExtDecodes(r, Some(r.header.timestamp), input);
    assert input[..0] == [] && input[0..] == input && full[..0] == [] && full[0..] == full;
    if |input| >= 4 {
      assert |input[4..]| < |input|;
    }
  }

  /**
   * A type-1 or type-2 header may also come inside a message, as long as it does not change the
   * length. It adds its delta to the message's time, and type 1 sets its type.
   */
  lemma HeaderInsideMessage(threshold: nat, cid: nat, r: ChunkStreamState, m: OutMessage, fmt: nat, delta: nat,
                            rest: bytes)
    requires StreamOk(cid, r) && r.msg.Some? && (fmt == 1 || fmt == 2)
    requires delta < threshold && delta <= MAX_FIELD24 && |m.payload| <= MAX_FIELD24
    ensures var h := ReadMessageHeader(threshold, cid, r, fmt, FixedHeader(threshold, m, fmt, delta) + rest);
            if fmt == 1 && |m.payload| != r.header.payloadLength then h == Error(ERROR_RTMP_CHUNK_START)
            else
              && h.Parsed? && h.rest == rest && h.value.msg == r.msg && !h.value.extended
              && h.value.header == r.header.(timestamp := (r.header.timestamp + delta) % 0x8000_0000,
                                             timestampDelta := delta,
                                             messageType := if fmt == 1 then m.messageType
                                                            else r.header.messageType)
  {
    hide FixedHeader, Field24, Field32;
    var f := FixedHeader(threshold, m, fmt, delta);
    FixedHeaderReadsBack(threshold, m, fmt, delta);
    AppendSplits(f, rest);
  }

  /**
   * An extended delta inside a message is read only if the message's time is 0 or happens to be
   * that very number; otherwise the four bytes are given back and taken for payload.
   */
  lemma ExtendedInsideMessage(threshold: nat, cid: nat, r: ChunkStreamState, m: OutMessage, fmt: nat, delta: nat,
                              rest: bytes)
    requires StreamOk(cid, r) && r.msg.Some? && (fmt == 1 || fmt == 2)
    requires threshold <= MAX_FIELD24 && threshold <= delta < 0x1_0000_0000
    requires |m.payload| <= MAX_FIELD24 && (fmt == 1 ==> |m.payload| == r.header.payloadLength)
    ensures var ext := BigEndian(delta, 4);
            var h := ReadMessageHeader(threshold, cid, r, fmt, FixedHeader(threshold, m, fmt, delta) + (ext + rest));
            && h.Parsed? && h.value.msg == r.msg
            && if r.header.timestamp == 0 || r.header.timestamp == delta % 0x8000_0000
               then h.rest == rest && h.value.header.timestamp == delta % 0x8000_0000
               else h.rest == ext + rest && h.value.header.timestamp == r.header.timestamp
  {
    hide FixedHeader, Field24, Field32, BigEndian, HeaderRead;
    var f, ext := FixedHeader(threshold, m, fmt, delta), BigEndian(delta, 4);
    FixedHeaderReadsBack(threshold, m, fmt, delta);
    Field32RoundTrip(delta);
    AppendSplits(f, ext + rest);
    AppendSplits(ext, rest);
  }

  /** The payload piece behind a header. */
  lemma PieceDecodes(chunkSize: int, cid: nat, r: ChunkStreamState, s: PeerStream)
    requires chunkSize > 0 && HeaderRead(cid, r) && Mirrors(cid, r, s)
    requires s.sent.Some? && PieceFits(chunkSize, |s.last.payload| - s.sent.value)
    ensures var end := PieceEnd(chunkSize, s);
            s.sent.value <= end <= |s.last.payload| &&
            var p := ReadMessagePayload(chunkSize, cid, r, Piece(chunkSize, s));
            p.Parsed? && p.rest == [] &&
            if end == |s.last.payload|
            then p.value == (r.(msg := None), Some(Message(r.header, s.last.payload)))
            else p.value == (r.(msg := Some(s.last.payload[..end])), None)
  {
    var payload, k, end := s.last.payload, s.sent.value, PieceEnd(chunkSize, s);
    var input := payload[k..end];
    assert payload[..k] + input == payload[..end];
    assert payload[..|payload|] == payload;
    assert input[..|input|] == input && input[|input|..] == [];
    if payload == [] {
      assert input == [];
    }
  }

  /** A delivered message, in the sender's terms. */
  function Content(m: Message): OutMessage {
    OutMessage(m.header.preferCid, m.header.timestamp, m.header.messageType, m.header.streamId, m.payload)
  }

  function Contents(msgs: seq<Message>): (r: seq<OutMessage>)
    ensures |r| == |msgs|
  {
    if msgs == [] then [] else [Content(msgs[0])] + Contents(msgs[1..])
  }

  /** The two headers of one chunk. */
  lemma HeadersDecode(threshold: nat, rs: RecvState, p: PeerState, e: Event)
    requires StateOk(rs) && PeerOk(p) && Matches(rs, p) && EventOk(threshold, p, e)
    ensures var b := ReadBasicHeader(EventBytes(threshold, p, e));
            b.Parsed? && b.value == (Fmt(e), e.Cid()) &&
            var h := ReadMessageHeader(threshold, e.Cid(), StreamAt(rs, e.Cid()), Fmt(e), b.rest);
            && h.Parsed? && h.rest == Piece(p.chunkSize, HeaderSent(threshold, p, e))
            && Mirrors(e.Cid(), h.value, HeaderSent(threshold, p, e))
  {
    hide BasicHeader, FixedHeader, ExtBytes, ReadBasicHeader, ReadMessageHeader, SeenTimestamp, Unsigned32;
    var cid, fmt := e.Cid(), Fmt(e);
    var r, s := StreamAt(rs, cid), PeerAt(p, cid);
    assert Mirrors(cid, r, s);
    var tail, rest := MessageHeader(threshold, s, e), Piece(p.chunkSize, HeaderSent(threshold, p, e));
    assert EventBytes(threshold, p, e) == BasicHeader(fmt, cid, e.form) + (tail + rest);
    BasicHeaderRoundTrip(fmt, cid, e.form, tail + rest);
    if e.Start? {
      StartHeaderDecodes(threshold, p.chunkSize, r, s, e.m, fmt, e.delta, rest);
    } else {
      ContinueHeaderDecodes(threshold, cid, r, s, e.bare, rest);
    }
  }

  /** The chunk behind its basic header. */
  lemma ChunkDecodes(threshold: nat, rs: RecvState, p: PeerState, e: Event)
    requires StateOk(rs) && PeerOk(p) && Matches(rs, p) && EventOk(threshold, p, e)
    ensures var b := ReadBasicHeader(EventBytes(threshold, p, e));
            b.Parsed? && b.value == (Fmt(e), e.Cid()) &&
            var c := ReadChunk(threshold, rs.chunkSize, e.Cid(), StreamAt(rs, e.Cid()), Fmt(e), b.rest);
            var s := HeaderSent(threshold, p, e);
            && c.Parsed? && c.rest == [] && Mirrors(e.Cid(), c.value.0, StreamAfter(threshold, p, e))
            && (c.value.1.Some? <==> PieceEnd(p.chunkSize, s) == |s.last.payload|)
            && (c.value.1.Some? ==>
                  Content(c.value.1.value) == Arrival(s.last, s.seen) && c.value.1.value.payload == s.last.payload)
  {
    hide EventBytes, ReadBasicHeader, ReadMessageHeader, ReadMessagePayload, ByteSwap32;
    var cid := e.Cid();
    var s := HeaderSent(threshold, p, e);
    HeadersDecode(threshold, rs, p, e);
    var b := ReadBasicHeader(EventBytes(threshold, p, e));
    var h := ReadMessageHeader(threshold, cid, StreamAt(rs, cid), Fmt(e), b.rest);
    PieceDecodes(p.chunkSize, cid, h.value, s);
  }

  /** Both ends record their stream; the reader handles the message as the peer expects. */
  lemma HandleFollows(rs: RecvState, p: PeerState, cid: nat, r: ChunkStreamState, msg: Option<Message>,
                      s: PeerStream, h: PeerStream)
    requires StateOk(rs) && StreamOk(cid, r) && Matches(rs, p) && Mirrors(cid, r, s)
    requires msg.Some? ==> Content(msg.value) == Arrival(h.last, h.seen) && msg.value.payload == h.last.payload
    ensures var after := rs.(streams := rs.streams[cid := r]);
            StateOk(after) &&
            var (rs1, m) := Handle(after, msg);
            var sent := p.(streams := p.streams[cid := s]);
            var (p1, out) := if msg.Some? then Complete(sent, h) else (sent, None);
            Matches(rs1, p1) && (m.Some? <==> out.Some?) && (m.Some? ==> Content(m.value) == out.value)
  {
    hide Mirrors, StreamOk, OnRecvMessage, ByteSwap32;
    var after, sent := rs.(streams := rs.streams[cid := r]), p.(streams := p.streams[cid := s]);
    var rs1 := Handle(after, msg).0;
    var p1 := if msg.Some? then Complete(sent, h).0 else sent;
    forall other: nat ensures Mirrors(other, StreamAt(rs1, other), PeerAt(p1, other)) {
      assert Mirrors(other, StreamAt(rs, other), PeerAt(p, other));
    }
  }

  /** One chunk at the peer is one chunk at the reader. */
  lemma StepDecodes(threshold: nat, rs: RecvState, p: PeerState, e: Event)
    requires StateOk(rs) && PeerOk(p) && Matches(rs, p) && EventOk(threshold, p, e)
    ensures EventBytes(threshold, p, e) != []
    ensures var c := RecvInterlacedMessage(threshold, rs, EventBytes(threshold, p, e));
            c.Parsed? && c.rest == [] &&
            var (rs1, msg) := Handle(c.value.0, c.value.1);
            var (p1, out) := PeerStep(threshold, p, e);
            Matches(rs1, p1) && (msg.Some? <==> out.Some?) && (msg.Some? ==> Content(msg.value) == out.value)
  {
    ChunkDecodes(threshold, rs, p, e);
    hide EventOk, EventBytes, ReadBasicHeader, ReadChunk, Handle, Complete, ByteSwap32, HeaderSent, Mirrors, StateOk;
    var cid, s := e.Cid(), StreamAfter(threshold, p, e);
    var b := ReadBasicHeader(EventBytes(threshold, p, e));
    var c := ReadChunk(threshold, rs.chunkSize, cid, StreamAt(rs, cid), Fmt(e), b.rest);
    HandleFollows(rs, p, cid, c.value.0, c.value.1, s, HeaderSent(threshold, p, e));
  }
}
