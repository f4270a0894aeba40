/**
 * The two send paths (protocol/rtmp_stack.cpp:834-932 and 1082-1152) and the chunk header
 * writers they share (protocol/rtmp_message.cpp:11-72).
 */
module ChunkWriter {
  import opened Bytes
  import opened RtmpConsts

  /** A message to send; the timestamp is a 64-bit field, cut to 32 bits by the header writers. */
  datatype OutMessage =
    OutMessage(cid: nat, timestamp: int, messageType: byte, streamId: nat, payload: bytes)

  function Unsigned32(v: int): (u: nat)
    ensures u < 0x1_0000_0000
  {
    v % 0x1_0000_0000
  }

  /** What Encode leaves of a packet: everything but SetChunkSize is opaque to the send path. */
  datatype Packet =
    | SetChunkSize(chunkSize: int)
    | Encoded(cid: nat, messageType: byte, payload: bytes)

  /** SetChunkSizePacket::EncodePacket and the header DoSendAndFreePacket builds; time stays 0. */
  function PacketMessage(p: Packet, streamId: nat): OutMessage {
    match p
    case SetChunkSize(n) =>
      OutMessage(CID_PROTOCOL_CONTROL, 0, MSG_SET_CHUNK_SIZE, streamId, BigEndian(Unsigned32(n), 4))
    case Encoded(cid, messageType, payload) => OutMessage(cid, 0, messageType, streamId, payload)
  }

  /** OnSendPacket: an announced chunk size is adopted as it is. */
  function AfterPacket(chunkSize: int, p: Packet): int {
    if p.SetChunkSize? then p.chunkSize else chunkSize
  }

  function ExtendedField(threshold: nat, timestamp: nat): bytes {
    if timestamp >= threshold then BigEndian(timestamp, 4) else []
  }

  function TimestampField(threshold: nat, timestamp: nat): (s: bytes)
    ensures |s| == 3
  {
    if timestamp < threshold then BigEndian(timestamp, 3) else [0xff, 0xff, 0xff]
  }

  /** The eleven bytes behind the basic header (section 5.3.1.2.1). */
  function C0Fields(threshold: nat, m: OutMessage): (s: bytes)
    ensures |s| == 11
  {
    TimestampField(threshold, Unsigned32(m.timestamp))
    + BigEndian(|m.payload|, 3) + [m.messageType] + LittleEndian32(m.streamId)
  }

  function C0Header(threshold: nat, m: OutMessage): (s: bytes)
    ensures 12 <= |s| <= FMT0_HEADER_SIZE
  {
    [m.cid % 64] + C0Fields(threshold, m) + ExtendedField(threshold, Unsigned32(m.timestamp))
  }

  function C3Header(threshold: nat, m: OutMessage): (s: bytes)
    ensures 1 <= |s| <= FMT0_HEADER_SIZE
  {
    [0xc0 + m.cid % 64] + ExtendedField(threshold, Unsigned32(m.timestamp))
  }

  function ChunkHeader(threshold: nat, m: OutMessage, first: bool): (s: bytes)
    ensures 1 <= |s| <= FMT0_HEADER_SIZE
  {
    if first then C0Header(threshold, m) else C3Header(threshold, m)
  }

  /**
   * Sections 5.3.1.1 to 5.3.1.3, byte by byte: chunk stream id, timestamp, length, type, stream id
   * with its low byte first, and behind a timestamp of all ones the timestamp itself.
   */
  lemma HeadersOnTheWire(threshold: nat, m: OutMessage)
    requires m.cid < 64 && |m.payload| < 0x100_0000 && m.streamId < 0x1_0000_0000
    ensures var h, c, time := C0Header(threshold, m), C3Header(threshold, m), m.timestamp % 0x1_0000_0000;
            && |h| == (if time >= threshold then 16 else 12) && |c| == (if time >= threshold then 5 else 1)
            && h[0] == m.cid && c[0] == 0xc0 + m.cid
            && Number24(h[1], h[2], h[3]) == (if time >= threshold then 0xff_ffff else time % 0x100_0000)
            && Number24(h[4], h[5], h[6]) == |m.payload|
            && h[7] == m.messageType
            && Number32(h[11], h[10], h[9], h[8]) == m.streamId
            && (time >= threshold ==>
                  && Number32(h[12], h[13], h[14], h[15]) == time
                  && Number32(c[1], c[2], c[3], c[4]) == time)
  {
    hide BigEndian, Number24, Number32, C0Fields;
    FieldsOnTheWire(threshold, m);
    var time := Unsigned32(m.timestamp);
    var ext := ExtendedField(threshold, time);
    var h, f := C0Header(threshold, m), C0Fields(threshold, m);
    AppendSplits([m.cid % 64] + f, ext);
    AppendSplits([m.cid % 64], f);
    AppendSplits([0xc0 + m.cid % 64], ext);
    assert h[..12][1..] == f && h[12..] == ext && C3Header(threshold, m)[1..] == ext;
    FieldsOf(h[..12]);
    assert h[..12][7] == h[7] && h[..12][8] == h[8] && h[..12][9] == h[9] && h[..12][10] == h[10];
    assert h[..12][11] == h[11];
    StoredNumber(time);
  }

  lemma FieldsOf(h: bytes)
    requires |h| == 12
    ensures var f := h[1..];
            && f[0] == h[1] && f[1] == h[2] && f[2] == h[3] && f[3] == h[4] && f[4] == h[5] && f[5] == h[6]
            && f[6] == h[7] && f[7] == h[8] && f[8] == h[9] && f[9] == h[10] && f[10] == h[11]
  {
  }

  lemma FieldsOnTheWire(threshold: nat, m: OutMessage)
    requires |m.payload| < 0x100_0000 && m.streamId < 0x1_0000_0000
    ensures var f, time := C0Fields(threshold, m), m.timestamp % 0x1_0000_0000;
            && Number24(f[0], f[1], f[2]) == (if time >= threshold then 0xff_ffff else time % 0x100_0000)
            && Number24(f[3], f[4], f[5]) == |m.payload|
            && f[6] == m.messageType
            && Number32(f[10], f[9], f[8], f[7]) == m.streamId
  {
    hide BigEndian, LittleEndian32, Number24, Number32;
    StoredNumber(Unsigned32(m.timestamp));
    StoredNumber(|m.payload|);
    LittleStored(m.streamId);
    FieldParts(TimestampField(threshold, Unsigned32(m.timestamp)), BigEndian(|m.payload|, 3), m.messageType,
               LittleEndian32(m.streamId));
    assert Number24(0xff, 0xff, 0xff) == 0xff_ffff by {
      AllOnes();
    }
  }

  lemma AllOnes()
    ensures Number24(0xff, 0xff, 0xff) == 0xff_ffff
  {
  }

  lemma FieldParts(time: bytes, length: bytes, messageType: byte, id: bytes)
    requires |time| == 3 && |length| == 3 && |id| == 4
    ensures var f := time + length + [messageType] + id;
            && f[0] == time[0] && f[1] == time[1] && f[2] == time[2]
            && f[3] == length[0] && f[4] == length[1] && f[5] == length[2]
            && f[6] == messageType
            && f[7] == id[0] && f[8] == id[1] && f[9] == id[2] && f[10] == id[3]
  {
  }

  lemma LittleStored(v: nat)
    requires v < 0x1_0000_0000
    ensures var s := LittleEndian32(v); Number32(s[3], s[2], s[1], s[0]) == v
  {
    FourBytes(v);
    hide Number32;
  }

  function Flatten(parts: seq<bytes>): bytes {
    if parts == [] then [] else parts[0] + Flatten(parts[1..])
  }

  /** The chunk that starts at payload offset pos. */
  function ChunkAt(threshold: nat, m: OutMessage, chunkSize: int, pos: nat): bytes
    requires chunkSize > 0 && pos < |m.payload|
  {
    ChunkHeader(threshold, m, pos == 0) + m.payload[pos..pos + Min(|m.payload| - pos, chunkSize)]
  }

  /** The chunks of m from payload offset pos on: one type-0 chunk, then type-3 chunks. */
  function Chunks(threshold: nat, m: OutMessage, chunkSize: int, pos: nat): seq<bytes>
    requires chunkSize > 0
    decreases |m.payload| - pos
  {
    if pos >= |m.payload| then [] else
    [ChunkAt(threshold, m, chunkSize, pos)]
    + Chunks(threshold, m, chunkSize, pos + Min(|m.payload| - pos, chunkSize))
  }

  function MessageBytes(threshold: nat, m: OutMessage, chunkSize: int): bytes
    requires chunkSize > 0
  {
    Flatten(Chunks(threshold, m, chunkSize, 0))
  }

  /** What a batch puts on the wire: null and empty messages contribute nothing. */
  function BatchBytes(threshold: nat, msgs: seq<Option<OutMessage>>, chunkSize: int): bytes
    requires chunkSize > 0
  {
    if msgs == [] then [] else
    (if msgs[0].None? then [] else MessageBytes(threshold, msgs[0].value, chunkSize))
    + BatchBytes(threshold, msgs[1..], chunkSize)
  }

  /** A message of length L travels in exactly ceil(L / chunkSize) chunks. */
  lemma {:induction false} ChunkCount(threshold: nat, m: OutMessage, chunkSize: int, pos: nat)
    requires chunkSize > 0 && pos <= |m.payload|
    ensures var left := |m.payload| - pos;
            left <= |Chunks(threshold, m, chunkSize, pos)| * chunkSize < left + chunkSize
    decreases |m.payload| - pos
  {
    hide ChunkAt;
    if pos < |m.payload| {
      var next := pos + Min(|m.payload| - pos, chunkSize);
      ChunkCount(threshold, m, chunkSize, next);
      var k := |Chunks(threshold, m, chunkSize, next)|;
      assert |Chunks(threshold, m, chunkSize, pos)| == k + 1;
      hide Chunks;
      assert (k + 1) * chunkSize == k * chunkSize + chunkSize;
    }
  }

  /** A scatter-gather entry: bytes kept in the header cache, or a slice of a payload. */
  datatype Iovec = CacheSlice(offset: nat, len: nat) | PayloadSlice(data: bytes)

  predicate Within(v: Iovec, limit: nat) {
    v.CacheSlice? ==> v.offset + v.len <= limit
  }

  ghost predicate AllWithin(iovs: seq<Iovec>, limit: nat) {
    forall i | 0 <= i < |iovs| :: Within(iovs[i], limit)
  }

  /** Entries that point outside the cache stand for nothing; no write is ever given one. */
  function Deref(v: Iovec, cache: bytes): bytes {
    match v
    case CacheSlice(offset, len) => if offset + len <= |cache| then cache[offset..offset + len] else []
    case PayloadSlice(data) => data
  }

  /** The bytes a vectored write takes from the entries, reading the cache as it is now. */
  function Gather(iovs: seq<Iovec>, cache: bytes): bytes {
    if iovs == [] then [] else
    Gather(iovs[..|iovs| - 1], cache) + Deref(iovs[|iovs| - 1], cache)
  }

  lemma WithinConcat(a: seq<Iovec>, b: seq<Iovec>, limit: nat)
    requires AllWithin(a, limit) && AllWithin(b, limit)
    ensures AllWithin(a + b, limit)
  {
    forall i | 0 <= i < |a + b| ensures Within((a + b)[i], limit) {
      if i < |a| {
        assert (a + b)[i] == a[i];
      } else {
        assert (a + b)[i] == b[i - |a|];
      }
    }
  }

  lemma {:induction false} GatherConcat(a: seq<Iovec>, b: seq<Iovec>, cache: bytes)
    ensures Gather(a + b, cache) == Gather(a, cache) + Gather(b, cache)
  {
    hide Gather, Deref;
    if b == [] {
      assert a + b == a && Gather(b, cache) == [] by {
        GatherNothing(cache);
      }
    } else {
      var b', last := b[..|b| - 1], b[|b| - 1];
      GatherConcat(a, b', cache);
      assert b == b' + [last] && a + b == a + b' + [last];
      GatherOneMore(b', last, cache);
      GatherOneMore(a + b', last, cache);
      Associate(Gather(a, cache), Gather(b', cache), Deref(last, cache));
    }
  }

  lemma GatherNothing(cache: bytes)
    ensures Gather([], cache) == []
  {
  }

  lemma GatherOneMore(iovs: seq<Iovec>, v: Iovec, cache: bytes)
    ensures Gather(iovs + [v], cache) == Gather(iovs, cache) + Deref(v, cache)
  {
    hide Deref;
    assert (iovs + [v])[..|iovs|] == iovs;
  }

  /** Entries below the limit do not see cache writes at or above it. */
  lemma {:induction false} GatherIgnoresTail(iovs: seq<Iovec>, cache: bytes, cache': bytes, limit: nat)
    requires limit <= |cache| == |cache'| && cache[..limit] == cache'[..limit]
    requires AllWithin(iovs, limit)
    ensures Gather(iovs, cache) == Gather(iovs, cache')
  {
    if iovs != [] {
      hide Deref;
      var last := iovs[|iovs| - 1];
      GatherIgnoresTail(iovs[..|iovs| - 1], cache, cache', limit);
      assert Within(last, limit);
      DerefIgnoresTail(last, cache, cache', limit);
    }
  }

  lemma DerefIgnoresTail(v: Iovec, cache: bytes, cache': bytes, limit: nat)
    requires limit <= |cache| == |cache'| && cache[..limit] == cache'[..limit] && Within(v, limit)
    ensures Deref(v, cache) == Deref(v, cache')
  {
    if v.CacheSlice? {
      var lo, hi := v.offset, v.offset + v.len;
      assert cache[lo..hi] == cache[..limit][lo..hi];
      assert cache'[lo..hi] == cache'[..limit][lo..hi];
    }
  }

  /** A socket whose vectored writes either fail or take everything. */
  class ByteSink {
    var sent: bytes

    constructor ()
      ensures sent == []
    {
      sent := [];
    }

    method WriteEv(iovs: seq<Iovec>, cache: array<byte>) returns (ret: int)
      requires AllWithin(iovs, cache.Length)
      modifies this
      ensures ret == SUCCESS ==> sent == old(sent) + Gather(iovs, cache[..])
      ensures ret != SUCCESS ==> sent == old(sent)
    {
      if * {
        return ERROR_SOCKET_WRITE;
      }
      sent := sent + Gather(iovs, cache[..]);
      ret := SUCCESS;
    }
  }

  twostate predicate OnlyChanged(buf: array<byte>, from: nat, to: nat)
    reads buf
  {
    forall i | 0 <= i < buf.Length && (i < from || to <= i) :: buf[i] == old(buf[i])
  }

  /** buf[p..p + |s|] holds s and nothing else changed. */
  twostate predicate Wrote(buf: array<byte>, p: nat, s: bytes)
    reads buf
  {
    && p + |s| <= buf.Length
    && buf[p..p + |s|] == s
    && OnlyChanged(buf, p, p + |s|)
  }

  /** The pointer-bumping store the header writers are made of. */
  method Put(buf: array<byte>, p: nat, s: bytes) returns (next: nat)
    requires p + |s| <= buf.Length
    modifies buf
    ensures next == p + |s| && Wrote(buf, p, s)
  {
    forall i | 0 <= i < |s| {
      buf[p + i] := s[i];
    }
    next := p + |s|;
  }

  /** Extends what has been written from start to p. */
  method Append(buf: array<byte>, start: nat, p: nat, s: bytes) returns (next: nat)
    requires start <= p && p + |s| <= buf.Length
    modifies buf
    ensures next == p + |s|
    ensures buf[start..next] == old(buf[start..p]) + s
    ensures OnlyChanged(buf, start, next)
  {
    next := Put(buf, p, s);
    assert buf[start..p] == old(buf[start..p]);
    assert buf[start..next] == buf[start..p] + buf[p..next];
  }

  /** The fixed fields in the order in which they are stored. */
  lemma C0FieldsParts(threshold: nat, m: OutMessage)
    ensures [m.cid % 64] + C0Fields(threshold, m) ==
            [m.cid % 64] + TimestampField(threshold, Unsigned32(m.timestamp)) + BigEndian(|m.payload|, 3)
            + [m.messageType] + LittleEndian32(m.streamId)
  {
    hide TimestampField, BigEndian, LittleEndian32, Unsigned32;
  }

  method WriteC0Fields(threshold: nat, m: OutMessage, buf: array<byte>, start: nat) returns (p: nat)
    requires start + FMT0_HEADER_SIZE <= buf.Length
    modifies buf
    ensures p == start + 12 && Wrote(buf, start, [m.cid % 64] + C0Fields(threshold, m))
  {
    hide TimestampField, BigEndian, LittleEndian32, C0Fields, Unsigned32;
    C0FieldsParts(threshold, m);
    p := Put(buf, start, [m.cid % 64]);
    p := Append(buf, start, p, TimestampField(threshold, Unsigned32(m.timestamp)));
    p := Append(buf, start, p, BigEndian(|m.payload|, 3));
    p := Append(buf, start, p, [m.messageType]);
    p := Append(buf, start, p, LittleEndian32(m.streamId));
  }

  method WriteC0(threshold: nat, m: OutMessage, buf: array<byte>, start: nat) returns (n: nat)
    requires start + FMT0_HEADER_SIZE <= buf.Length
    modifies buf
    ensures n == |C0Header(threshold, m)| && Wrote(buf, start, C0Header(threshold, m))
  {
    hide BigEndian, C0Fields, Unsigned32;
    var timestamp := Unsigned32(m.timestamp);
    var p := WriteC0Fields(threshold, m, buf, start);
    if timestamp >= threshold {
      p := Append(buf, start, p, BigEndian(timestamp, 4));
    }
    n := p - start;
  }

  method WriteC3(threshold: nat, m: OutMessage, buf: array<byte>, start: nat) returns (n: nat)
    requires start + FMT0_HEADER_SIZE <= buf.Length
    modifies buf
    ensures n == |C3Header(threshold, m)| && Wrote(buf, start, C3Header(threshold, m))
  {
    var timestamp := Unsigned32(m.timestamp);
    var p := Put(buf, start, [0xc0 + m.cid % 64]);
    if timestamp >= threshold {
      p := Append(buf, start, p, BigEndian(timestamp, 4));
    }
    n := p - start;
  }

  method WriteChunkHeader(threshold: nat, m: OutMessage, buf: array<byte>, start: nat, first: bool)
    returns (n: nat)
    requires start + FMT0_HEADER_SIZE <= buf.Length
    modifies buf
    ensures n == |ChunkHeader(threshold, m, first)| && Wrote(buf, start, ChunkHeader(threshold, m, first))
  {
    if first {
      n := WriteC0(threshold, m, buf, start);
    } else {
      n := WriteC3(threshold, m, buf, start);
    }
  }
}
