/**
 * Protocol's receiving half, over a FastBuffer and chunk stream objects kept in a 16-slot array
 * and a map. Every method computes what ChunkReader says of the byte stream, whatever lengths
 * the socket reads have and wherever the bytes lie in the buffer.
 */
module ChunkReceivers {
  import opened Bytes
  import opened RtmpConsts
  import opened FastBuffers
  import opened ChunkReader

  class ChunkStream {
    const cid: nat
    var header: Header
    var extended: bool
    var chunks: nat
    var msg: Option<bytes>

    constructor (cid: nat)
      ensures this.cid == cid && State() == FreshStream(cid)
    {
      this.cid := cid;
      header := Header(0, 0, 0, 0, 0, cid);
      extended, chunks, msg := false, 0, None;
    }

    ghost function State(): ChunkStreamState
      reads this
    {
      ChunkStreamState(header, extended, chunks, msg)
    }
  }

  /** Ids below 16 always have a slot; the others have a map entry once they have been used. */
  ghost predicate IsKept(entries: map<nat, ChunkStream>, cid: nat) {
    cid < CHUNK_STREAM_CACHE || cid in entries
  }

  ghost function Kept(cache: seq<ChunkStream>, entries: map<nat, ChunkStream>, cid: nat): ChunkStream
    requires |cache| == CHUNK_STREAM_CACHE && IsKept(entries, cid)
  {
    if cid < CHUNK_STREAM_CACHE then cache[cid] else entries[cid]
  }

  /** The slots and the map hold distinct streams, each under its own id. */
  ghost predicate Indexed(cache: seq<ChunkStream>, entries: map<nat, ChunkStream>, repr: set<ChunkStream>) {
    && |cache| == CHUNK_STREAM_CACHE
    && forall cid: nat | IsKept(entries, cid) ::
         Kept(cache, entries, cid).cid == cid && Kept(cache, entries, cid) in repr
  }

  lemma EntryAdded(cache: seq<ChunkStream>, entries: map<nat, ChunkStream>, cid: nat, cs: ChunkStream)
    requires |cache| == CHUNK_STREAM_CACHE && cid >= CHUNK_STREAM_CACHE && cid !in entries
    ensures var added := entries[cid := cs];
            && (forall id: nat :: IsKept(added, id) <==> IsKept(entries, id) || id == cid)
            && (forall id: nat | IsKept(added, id) && id != cid ::
                  IsKept(entries, id) && Kept(cache, added, id) == Kept(cache, entries, id))
            && Kept(cache, added, cid) == cs
  {
    var added := entries[cid := cs];
    forall id: nat | IsKept(added, id) && id != cid
      ensures IsKept(entries, id) && Kept(cache, added, id) == Kept(cache, entries, id)
    {
    }
  }

  lemma UpdatedTwice<K, V>(m: map<K, V>, k: K, v: V, w: V)
    ensures m[k := v][k := w] == m[k := w]
  {
  }

  method NewCache() returns (cache: seq<ChunkStream>)
    ensures |cache| == CHUNK_STREAM_CACHE
    ensures forall i | 0 <= i < |cache| ::
              fresh(cache[i]) && cache[i].cid == i && cache[i].State() == FreshStream(i)
  {
    cache := [];
    for cid := 0 to CHUNK_STREAM_CACHE
      invariant |cache| == cid
      invariant forall i | 0 <= i < cid ::
                  fresh(cache[i]) && cache[i].cid == i && cache[i].State() == FreshStream(i)
    {
      var cs := new ChunkStream(cid);
      cache := cache + [cs];
    }
  }

  class ChunkReceiver {
    const threshold: nat
    const rw: ByteSource
    const inBuffer: FastBuffer
    var inChunkSize: int
    /** Sixteen slots, filled once by the constructor. */
    const csCache: seq<ChunkStream>
    var chunkStream: map<nat, ChunkStream>
    /** The contents of the array and the map, as one map. */
    ghost var streams: map<nat, ChunkStreamState>
    ghost var repr: set<ChunkStream>

    /** The bytes not consumed yet: buffered, then still in the socket. */
    ghost function Stream(): bytes
      requires inBuffer.Valid()
      reads inBuffer, inBuffer.buf, rw
    {
      inBuffer.Contents() + rw.pending
    }

    ghost function State(): RecvState
      reads this
    {
      RecvState(inChunkSize, streams)
    }

    /** The ghost map is what the stream objects hold. */
    ghost predicate Tied()
      reads this, repr
    {
      && Indexed(csCache, chunkStream, repr)
      && (forall cid: nat :: IsKept(chunkStream, cid) <==> cid in streams)
      && (forall cid: nat | IsKept(chunkStream, cid) ::
            Kept(csCache, chunkStream, cid).State() == streams[cid])
    }

    ghost predicate Valid()
      reads this, repr, inBuffer
    {
      Tied() && inBuffer.Valid() && StateOk(State())
    }

    constructor (threshold: nat, rw: ByteSource)
      ensures this.threshold == threshold && this.rw == rw
      ensures Valid() && State() == InitialState()
      ensures fresh(inBuffer) && fresh(inBuffer.buf) && fresh(repr)
      ensures Stream() == rw.pending
    {
      this.threshold, this.rw := threshold, rw;
      inBuffer := new FastBuffer();
      inChunkSize := DEFAULT_CHUNK_SIZE;
      var cache := NewCache();
      csCache := cache;
      chunkStream := map[];
      streams := InitialState().streams;
      repr := set i | 0 <= i < |cache| :: cache[i];
    }

    /** Grow and then ReadSlice. */
    method Take(size: nat) returns (ret: int, slice: bytes)
      requires inBuffer.Valid() && size > 0
      modifies inBuffer, inBuffer.buf, rw
      ensures inBuffer.Valid() && inBuffer.buf == old(inBuffer.buf)
      ensures ret == if size > RECV_BUFFER_SIZE then ERROR_READER_BUFFER_OVERFLOW
                     else if |old(Stream())| < size then ERROR_SOCKET_READ else SUCCESS
      ensures ret == SUCCESS ==> slice == old(Stream())[..size] && Stream() == old(Stream())[size..]
    {
      ret := inBuffer.Grow(rw, size);
      slice := [];
      if ret != SUCCESS {
        return;
      }
      slice := inBuffer.ReadSlice(size);
    }

    method ReadBasicHeader() returns (ret: int, fmt: nat, cid: nat)
      requires inBuffer.Valid()
      modifies inBuffer, inBuffer.buf, rw
      ensures inBuffer.Valid() && inBuffer.buf == old(inBuffer.buf)
      ensures var b := ChunkReader.ReadBasicHeader(old(Stream()));
              if b.Error? then ret == b.code && ret != SUCCESS
              else ret == SUCCESS && (fmt, cid) == b.value && Stream() == b.rest
    {
      var head, more;
      fmt, cid := 0, 0;
      ret, head := Take(1);
      if ret != SUCCESS {
        return;
      }
      fmt, cid := head[0] / 64, head[0] % 64;
      if cid > 1 {
        return;
      }
      if cid == 0 {
        ret, more := Take(1);
        if ret != SUCCESS {
          return;
        }
        cid := 64 + more[0] as int;
      } else {
        ret, more := Take(2);
        if ret != SUCCESS {
          return;
        }
        cid := 64 + more[0] as int + more[1] as int * 256;
      }
    }

    method ReadMessageHeader(cs: ChunkStream, fmt: nat) returns (ret: int)
      requires inBuffer.Valid() && fmt < 4 && StreamOk(cs.cid, cs.State())
      modifies inBuffer, inBuffer.buf, rw, cs
      ensures inBuffer.Valid() && inBuffer.buf == old(inBuffer.buf)
      ensures var h := ChunkReader.ReadMessageHeader(threshold, cs.cid, old(cs.State()), fmt, old(Stream()));
              if h.Error? then ret == h.code && ret != SUCCESS
              else ret == SUCCESS && cs.State() == h.value && Stream() == h.rest
    {
      hide StreamOk, HeaderRead, ApplyFields, LengthChanged, ChunkReader.ReadExtendedTimestamp, Stream;
      var isFirst := cs.msg.None?;
      if cs.chunks == 0 && fmt != 0 {
        if cs.cid == CID_PROTOCOL_CONTROL && fmt == 1 {
        } else {
          return ERROR_RTMP_CHUNK_START;
        }
      }
      if cs.msg.Some? && fmt == 0 {
        return ERROR_RTMP_CHUNK_START;
      }
      ghost var s := cs.State();
      if cs.msg.None? {
        cs.msg := Some([]);
      }
      ghost var input := Stream();
      ret := ReadFixedPart(cs, fmt, isFirst, s);
      if ret != SUCCESS {
        return;
      }
      ghost var s1 := ApplyFields(threshold, s, fmt, input[..MessageHeaderSize(fmt)]);
      if cs.extended {
        ret := ReadExtendedTimestamp(cs, isFirst, s1);
        if ret != SUCCESS {
          return;
        }
      }
      cs.header := cs.header.(timestamp := cs.header.timestamp % 0x8000_0000);
      cs.chunks := cs.chunks + 1;
      ret := SUCCESS;
    }

    /** The part of the header whose size the type tells; `s` is the stream before. */
    method ReadFixedPart(cs: ChunkStream, fmt: nat, isFirst: bool, ghost s: ChunkStreamState) returns (ret: int)
      requires inBuffer.Valid() && fmt < 4 && isFirst == s.msg.None?
      requires cs.State() == s.(msg := if isFirst then Some([]) else s.msg)
      modifies inBuffer, inBuffer.buf, rw, cs
      ensures inBuffer.Valid() && inBuffer.buf == old(inBuffer.buf)
      ensures var input, size := old(Stream()), MessageHeaderSize(fmt);
              if |input| < size then ret == ERROR_SOCKET_READ
              else if LengthChanged(s, fmt, input[..size]) then ret == ERROR_RTMP_CHUNK_START
              else ret == SUCCESS && Stream() == input[size..] && cs.msg == old(cs.msg)
                   && cs.State() == ApplyFields(threshold, s, fmt, input[..size]).(msg := cs.msg)
    {
      hide ApplyFields, LengthChanged, Stream;
      var size := MessageHeaderSize(fmt);
      if fmt <= 2 {
        var f;
        ret, f := Take(size);
        if ret != SUCCESS {
          return;
        }
        ret := ReadFields(cs, fmt, f, isFirst, s);
      } else {
        ApplyType3(s);
        ghost var input := Stream();
        assert input[..0] == [] && input[0..] == input;
        if isFirst && !cs.extended {
          cs.header := cs.header.(timestamp := cs.header.timestamp + cs.header.timestampDelta);
        }
        ret := SUCCESS;
      }
    }

    lemma ApplyType3(s: ChunkStreamState)
      ensures LengthChanged(s, 3, []) == false
      ensures ApplyFields(threshold, s, 3, []) ==
              if s.msg.None? && !s.extended
              then s.(header := s.header.(timestamp := s.header.timestamp + s.header.timestampDelta))
              else s
    {
    }

    /** The fields of the fixed part, in the order they are assigned; `s` is the stream before. */
    method ReadFields(cs: ChunkStream, fmt: nat, f: bytes, isFirst: bool, ghost s: ChunkStreamState)
      returns (ret: int)
      requires fmt <= 2 && |f| == MessageHeaderSize(fmt)
      requires isFirst == s.msg.None?
      requires cs.State() == s.(msg := if isFirst then Some([]) else s.msg)
      modifies cs
      ensures LengthChanged(s, fmt, f) ==> ret == ERROR_RTMP_CHUNK_START
      ensures !LengthChanged(s, fmt, f) ==>
                ret == SUCCESS && cs.msg == old(cs.msg)
                && cs.State() == ApplyFields(threshold, s, fmt, f).(msg := cs.msg)
    {
      var delta := Field24(f[..3]);
      cs.header := cs.header.(timestampDelta := delta);
      cs.extended := delta >= threshold;
      if !cs.extended {
        if fmt == 0 {
          cs.header := cs.header.(timestamp := delta);
        } else {
          cs.header := cs.header.(timestamp := cs.header.timestamp + delta);
        }
      }
      if fmt <= 1 {
        var payloadLength := Field24(f[3..6]);
        if !isFirst && cs.header.payloadLength != payloadLength {
          return ERROR_RTMP_CHUNK_START;
        }
        cs.header := cs.header.(payloadLength := payloadLength, messageType := f[6]);
        if fmt == 0 {
          cs.header := cs.header.(streamId := Field32(f[7..11]));
        }
      }
      ret := SUCCESS;
    }

    /** Four bytes are read, and given back when a continuation chunk does not repeat the time. */
    method ReadExtendedTimestamp(cs: ChunkStream, isFirst: bool, ghost s: ChunkStreamState) returns (ret: int)
      requires inBuffer.Valid() && isFirst == s.msg.None?
      requires cs.State() == s.(msg := if isFirst then Some([]) else s.msg)
      modifies inBuffer, inBuffer.buf, rw, cs
      ensures inBuffer.Valid() && inBuffer.buf == old(inBuffer.buf)
      ensures var p := ChunkReader.ReadExtendedTimestamp(s, old(Stream()));
              if p.Error? then ret == p.code && ret != SUCCESS
              else ret == SUCCESS && cs.State() == p.value.(msg := old(cs.msg)) && Stream() == p.rest
    {
      ret := inBuffer.Grow(rw, 4);
      if ret != SUCCESS {
        return;
      }
      label Grown:
      var f := inBuffer.ReadSlice(4);
      assert old(Stream()) == f + Stream();
      AppendSplits(f, Stream());
      var timestamp := Field32(f) % 0x8000_0000;
      var chunkTimestamp := cs.header.timestamp % 0x1_0000_0000;
      if !isFirst && chunkTimestamp > 0 && chunkTimestamp != timestamp {
        inBuffer.Skip(-4);
        assert inBuffer.Contents() == old@Grown(inBuffer.Contents());
      } else {
        cs.header := cs.header.(timestamp := timestamp);
      }
    }

    method ReadMessagePayload(cs: ChunkStream) returns (ret: int, pmsg: Option<Message>)
      requires inBuffer.Valid() && inChunkSize > 0 && HeaderRead(cs.cid, cs.State())
      modifies inBuffer, inBuffer.buf, rw, cs
      ensures inBuffer.Valid() && inBuffer.buf == old(inBuffer.buf)
      ensures var p := ChunkReader.ReadMessagePayload(inChunkSize, cs.cid, old(cs.State()), old(Stream()));
              if p.Error? then ret == p.code && ret != SUCCESS
              else ret == SUCCESS && (cs.State(), pmsg) == p.value && Stream() == p.rest
    {
      ret, pmsg := SUCCESS, None;
      if cs.header.payloadLength <= 0 {
        pmsg := Some(Message(cs.header, cs.msg.value));
        cs.msg := None;
        return;
      }
      var payloadSize := Min(cs.header.payloadLength - |cs.msg.value|, inChunkSize);
      var slice;
      ret, slice := Take(payloadSize);
      if ret != SUCCESS {
        return;
      }
      cs.msg := Some(cs.msg.value + slice);
      if cs.header.payloadLength == |cs.msg.value| {
        pmsg := Some(Message(cs.header, cs.msg.value));
        cs.msg := None;
      }
    }

    /** The array slot, the map entry, or a new map entry. */
    method FindStream(cid: nat) returns (cs: ChunkStream)
      requires Tied()
      modifies this`chunkStream, this`streams, this`repr
      ensures Tied()
      ensures cs in repr && fresh(repr - old(repr))
      ensures cs.cid == cid && IsKept(chunkStream, cid) && Kept(csCache, chunkStream, cid) == cs
      ensures cs.State() == StreamAt(old(State()), cid)
      ensures streams == old(streams)[cid := cs.State()]
    {
      if cid < CHUNK_STREAM_CACHE {
        cs := csCache[cid];
      } else if cid !in chunkStream {
        cs := new ChunkStream(cid);
        EntryAdded(csCache, chunkStream, cid, cs);
        chunkStream := chunkStream[cid := cs];
        streams, repr := streams[cid := FreshStream(cid)], repr + {cs};
      } else {
        cs := chunkStream[cid];
      }
      assert Kept(csCache, chunkStream, cid) == cs;
    }

    /** Header and payload of one chunk of a known stream. */
    method ReadChunk(cs: ChunkStream, fmt: nat) returns (ret: int, pmsg: Option<Message>)
      requires inBuffer.Valid() && inChunkSize > 0 && fmt < 4 && StreamOk(cs.cid, cs.State())
      modifies inBuffer, inBuffer.buf, rw, cs
      ensures inBuffer.Valid() && inBuffer.buf == old(inBuffer.buf)
      ensures var c := ChunkReader.ReadChunk(threshold, inChunkSize, cs.cid, old(cs.State()), fmt, old(Stream()));
              if c.Error? then ret == c.code
              else ret == SUCCESS && (cs.State(), pmsg) == c.value && Stream() == c.rest
    {
      hide StreamOk, HeaderRead, ChunkReader.ReadMessageHeader, ChunkReader.ReadMessagePayload,
        FastBuffers.FastBuffer.Contents;
      var code := ReadMessageHeader(cs, fmt);
      if code != SUCCESS {
        return HEADER_FAILED, None;
      }
      ret, pmsg := ReadMessagePayload(cs);
    }

    method RecvInterlacedMessage() returns (ret: int, pmsg: Option<Message>)
      requires Valid()
      modifies this`chunkStream, this`streams, this`repr, repr, inBuffer, inBuffer.buf, rw
      ensures inBuffer.Valid() && inBuffer.buf == old(inBuffer.buf)
      ensures fresh(repr - old(repr))
      ensures var c := ChunkReader.RecvInterlacedMessage(threshold, old(State()), old(Stream()));
              if c.Error? then ret == c.code && ret != SUCCESS
              else ret == SUCCESS && Valid() && (State(), pmsg) == c.value && Stream() == c.rest
    {
      hide StreamOk, ChunkReader.ReadBasicHeader, ChunkReader.ReadChunk, Tied, Stream;
      ghost var rs, input := State(), Stream();
      var fmt, cid;
      pmsg := None;
      ret, fmt, cid := ReadBasicHeader();
      if ret != SUCCESS {
        return;
      }
      AtLeastFresh(rs, cid);
      ret, pmsg := ReadChunkOn(cid, fmt, rs);
      if ret == SUCCESS {
        assert State() == ChunkReader.RecvInterlacedMessage(threshold, rs, input).value.0;
      }
    }

    /** Find the stream, read the chunk, and record what the stream has become. */
    method ReadChunkOn(cid: nat, fmt: nat, ghost rs: RecvState) returns (ret: int, pmsg: Option<Message>)
      requires Tied() && inBuffer.Valid() && rs == State() && rs.chunkSize > 0 && fmt < 4
      requires StreamOk(cid, StreamAt(rs, cid))
      modifies this`chunkStream, this`streams, this`repr, repr, inBuffer, inBuffer.buf, rw
      ensures inBuffer.Valid() && inBuffer.buf == old(inBuffer.buf)
      ensures fresh(repr - old(repr))
      ensures var c := ChunkReader.ReadChunk(threshold, rs.chunkSize, cid, StreamAt(rs, cid), fmt, old(Stream()));
              if c.Error? then ret == c.code && ret != SUCCESS
              else ret == SUCCESS && pmsg == c.value.1 && Stream() == c.rest
                   && Tied() && State() == rs.(streams := rs.streams[cid := c.value.0])
    {
      hide StreamOk, ChunkReader.ReadChunk, Stream;
      var cs := FindStream(cid);
      ghost var found := cs.State();
      ret, pmsg := ReadChunk(cs, fmt);
      if ret != SUCCESS {
        return;
      }
      Record(cs);
      UpdatedTwice(rs.streams, cid, found, cs.State());
    }

    /** The ghost map follows the one stream object that changed. */
    ghost method Record(cs: ChunkStream)
      requires Indexed(csCache, chunkStream, repr) && IsKept(chunkStream, cs.cid)
      requires Kept(csCache, chunkStream, cs.cid) == cs
      requires forall cid: nat :: IsKept(chunkStream, cid) <==> cid in streams
      requires forall cid: nat | IsKept(chunkStream, cid) && cid != cs.cid ::
                 Kept(csCache, chunkStream, cid).State() == streams[cid]
      modifies this`streams
      ensures Tied() && streams == old(streams)[cs.cid := cs.State()]
    {
      streams := streams[cs.cid := cs.State()];
    }

    lemma AtLeastFresh(rs: RecvState, cid: nat)
      requires StateOk(rs)
      ensures StreamOk(cid, StreamAt(rs, cid))
    {
    }

    method OnRecvMessage(msg: Message) returns (ret: int)
      requires inChunkSize >= MIN_CHUNK_SIZE
      modifies this`inChunkSize
      ensures (ret, inChunkSize)
           == ChunkReader.OnRecvMessage(old(inChunkSize), msg.header.messageType, msg.payload)
    {
      var payload := msg.payload;
      ret := SUCCESS;
      if msg.header.messageType == MSG_SET_CHUNK_SIZE {
        if |payload| < 4 {
          return ERROR_RTMP_MESSAGE_DECODE;
        }
        var size := ToSigned32(Field32(payload[..4]));
        if size < MIN_CHUNK_SIZE {
          return ERROR_RTMP_CHUNK_START;
        }
        inChunkSize := size;
      } else if msg.header.messageType == MSG_USER_CONTROL || msg.header.messageType == MSG_WINDOW_ACK_SIZE {
        if !UserControlDecodes(payload) {
          return ERROR_RTMP_MESSAGE_DECODE;
        }
      }
    }

    /** The messages returned depend on the byte stream alone, not on how it arrived. */
    method RecvMessage() returns (ret: int, pmsg: Option<Message>)
      requires Valid()
      modifies this`chunkStream, this`streams, this`repr, this`inChunkSize, repr, inBuffer, inBuffer.buf, rw
      ensures inBuffer.Valid() && inBuffer.buf == old(inBuffer.buf)
      ensures var r := ChunkReader.RecvMessage(threshold, old(State()), old(Stream()));
              if r.Error? then ret == r.code && ret != SUCCESS && pmsg == None
              else ret == SUCCESS && Valid() && pmsg.Some? && (State(), pmsg.value) == r.value && Stream() == r.rest
    {
      hide StreamOk, ChunkReader.RecvInterlacedMessage, ChunkReader.OnRecvMessage,
        FastBuffers.FastBuffer.Contents;
      while true
        invariant Valid() && inBuffer.buf == old(inBuffer.buf)
        invariant fresh(repr - old(repr))
        invariant ChunkReader.RecvMessage(threshold, State(), Stream())
               == ChunkReader.RecvMessage(threshold, old(State()), old(Stream()))
        decreases |Stream()|
      {
        var msg;
        ret, msg := RecvInterlacedMessage();
        if ret != SUCCESS {
          return ret, None;
        }
        if msg.None? || msg.value.payload == [] {
          continue;
        }
        var code := OnRecvMessage(msg.value);
        if code != SUCCESS {
          continue;
        }
        return SUCCESS, msg;
      }
    }
  }
}
