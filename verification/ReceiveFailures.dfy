/**
 * How a receiver counts chunks, and how it fails (protocol/rtmp_stack.cpp:340-695): what each
 * error code says about the place where the stream ends or is refused.
 */
module ReceiveFailures {
  import opened Bytes
  import opened RtmpConsts
  import opened ChunkReader

  // ---------- how many chunks a message takes ----------

  /** A chunk behind its basic header. */
  datatype Chunk = Chunk(fmt: nat, input: bytes)

  /** One stream fed chunk after chunk, none of which but the last may complete a message. */
  function FeedChunks(threshold: nat, chunkSize: int, cid: nat, s: ChunkStreamState, chunks: seq<Chunk>)
    : (r: Option<(ChunkStreamState, Option<Message>)>)
    requires chunkSize > 0 && StreamOk(cid, s)
    ensures r.Some? ==> StreamOk(cid, r.value.0)
  {
    if chunks == [] then Some((s, None)) else
    var before, c := FeedChunks(threshold, chunkSize, cid, s, chunks[..|chunks| - 1]), chunks[|chunks| - 1];
    if before.None? || before.value.1.Some? || c.fmt >= 4 then None else
    var p := ReadChunk(threshold, chunkSize, cid, before.value.0, c.fmt, c.input);
    if p.Error? then None else Some(p.value)
  }

  /** One more chunk of a message that stood at `had` bytes. */
  lemma OneMoreChunk(threshold: nat, chunkSize: int, cid: nat, s: ChunkStreamState, c: Chunk)
    requires chunkSize > 0 && StreamOk(cid, s) && c.fmt < 4
    requires ReadChunk(threshold, chunkSize, cid, s, c.fmt, c.input).Parsed?
    ensures var (t, m) := ReadChunk(threshold, chunkSize, cid, s, c.fmt, c.input).value;
            var had, length := if s.msg.Some? then |s.msg.value| else 0, t.header.payloadLength;
            && had <= length && (s.msg.Some? ==> length == s.header.payloadLength)
            && (m.Some? <==> length <= had + chunkSize)
            && (if m.Some? then |m.value.payload| == length && m.value.header == t.header
                else t.msg.Some? && |t.msg.value| == had + chunkSize)
  {
    hide ReadMessageHeader;
  }

  /**
   * At a constant chunk size a message of length L is complete after exactly ceil(L / size)
   * accepted chunks, and after one if it is empty; before that every chunk has added its full size.
   */
  lemma {:induction false} ReceiverCount(threshold: nat, chunkSize: int, cid: nat, s: ChunkStreamState,
                                         chunks: seq<Chunk>)
    requires chunkSize > 0 && StreamOk(cid, s) && s.msg.None? && chunks != []
    requires FeedChunks(threshold, chunkSize, cid, s, chunks).Some?
    ensures var (t, m) := FeedChunks(threshold, chunkSize, cid, s, chunks).value;
            var k, length := |chunks|, t.header.payloadLength;
            && (k > 1 ==> (k - 1) * chunkSize < length)
            && (m.Some? <==> length <= k * chunkSize)
            && (if m.Some? then |m.value.payload| == length
                else t.msg.Some? && |t.msg.value| == k * chunkSize < length)
  {
    hide ReadChunk, StreamOk;
    var k := |chunks|;
    var first := chunks[..k - 1];
    var s1 := FeedChunks(threshold, chunkSize, cid, s, first).value.0;
    if first != [] {
      ReceiverCount(threshold, chunkSize, cid, s, first);
    }
    OneMoreChunk(threshold, chunkSize, cid, s1, chunks[k - 1]);
    assert k * chunkSize == (k - 1) * chunkSize + chunkSize;
  }

  // ---------- which error, and where ----------

  /** A header that may not come here: a fresh stream, or a message whose length may not change. */
  predicate HeaderRefused(cid: nat, s: ChunkStreamState, fmt: nat, input: bytes)
    requires fmt < 4
  {
    || (s.chunks == 0 && fmt != 0 && !(cid == CID_PROTOCOL_CONTROL && fmt == 1))
    || (s.msg.Some? && fmt == 0)
    || (s.msg.Some? && fmt == 1 && |input| >= 7 && Field24(input[3..6]) != s.header.payloadLength)
  }

  /** Whether four more bytes belong to the header. */
  predicate Extended(threshold: nat, s: ChunkStreamState, fmt: nat, input: bytes)
    requires |input| >= MessageHeaderSize(fmt)
  {
    if fmt < 3 then Field24(input[..3]) >= threshold else s.extended
  }

  /** The stream ends inside the header, or inside the four bytes behind it. */
  predicate HeaderCut(threshold: nat, s: ChunkStreamState, fmt: nat, input: bytes)
    requires fmt < 4
  {
    var size := MessageHeaderSize(fmt);
    |input| < size || (Extended(threshold, s, fmt, input) && |input| < size + 4)
  }

  lemma HeaderFailures(threshold: nat, cid: nat, s: ChunkStreamState, fmt: nat, input: bytes)
    requires fmt < 4 && StreamOk(cid, s)
    ensures var h := ReadMessageHeader(threshold, cid, s, fmt, input);
            var refused, cut := HeaderRefused(cid, s, fmt, input), HeaderCut(threshold, s, fmt, input);
            && (h == Error(ERROR_RTMP_CHUNK_START) <==> refused)
            && (h == Error(ERROR_SOCKET_READ) <==> !refused && cut)
            && (h.Parsed? <==> !refused && !cut)
  {
    hide StreamOk, HeaderRead, Field24, Field32;
    var size := MessageHeaderSize(fmt);
    if |input| >= size {
      var f := input[..size];
      assert fmt <= 1 ==> f[3..6] == input[3..6];
      assert fmt < 3 ==> f[..3] == input[..3];
      assert ApplyFields(threshold, s, fmt, f).extended == Extended(threshold, s, fmt, input);
    }
  }

  /** The next chunk's message header is refused or cut short. */
  predicate HeaderFails(threshold: nat, rs: RecvState, input: bytes) {
    var b := ReadBasicHeader(input);
    b.Parsed? &&
    var (fmt, cid) := b.value;
    var s := StreamAt(rs, cid);
    HeaderRefused(cid, s, fmt, b.rest) || HeaderCut(threshold, s, fmt, b.rest)
  }

  /** The stream ends inside the next chunk's basic header or payload. */
  predicate EndsInside(threshold: nat, rs: RecvState, input: bytes)
    requires StateOk(rs)
  {
    var b := ReadBasicHeader(input);
    if b.Error? then true else
    var (fmt, cid) := b.value;
    var h := ReadMessageHeader(threshold, cid, StreamAt(rs, cid), fmt, b.rest);
    h.Parsed? &&
    var size := Min(h.value.header.payloadLength - |h.value.msg.value|, rs.chunkSize);
    |h.rest| < size <= RECV_BUFFER_SIZE
  }

  /** The next chunk's piece of payload does not fit the receive buffer. */
  predicate PieceTooLong(threshold: nat, rs: RecvState, input: bytes)
    requires StateOk(rs)
  {
    var b := ReadBasicHeader(input);
    b.Parsed? &&
    var (fmt, cid) := b.value;
    var h := ReadMessageHeader(threshold, cid, StreamAt(rs, cid), fmt, b.rest);
    h.Parsed? && Min(h.value.header.payloadLength - |h.value.msg.value|, rs.chunkSize) > 131072
  }

  /**
   * The misplaced parenthesis: code 1 for every message header that is refused or cut short, and
   * the socket's code only where the stream ends inside a basic header or a payload.
   */
  lemma ChunkFailures(threshold: nat, rs: RecvState, input: bytes)
    requires StateOk(rs)
    ensures var c := RecvInterlacedMessage(threshold, rs, input);
            && (c == Error(HEADER_FAILED) <==> HeaderFails(threshold, rs, input))
            && (c == Error(ERROR_SOCKET_READ) <==> EndsInside(threshold, rs, input))
            && (c == Error(ERROR_READER_BUFFER_OVERFLOW) <==> PieceTooLong(threshold, rs, input))
            && (c.Error? ==> c.code in {HEADER_FAILED, ERROR_SOCKET_READ, ERROR_READER_BUFFER_OVERFLOW})
  {
    var b := ReadBasicHeader(input);
    if b.Parsed? {
      var (fmt, cid) := b.value;
      HeaderFailures(threshold, cid, StreamAt(rs, cid), fmt, b.rest);
      hide HeaderRefused, HeaderCut, ReadMessageHeader, ReadBasicHeader;
    }
  }

  /** The state and the bytes behind k chunks none of which delivers a message. */
  function Behind(threshold: nat, rs: RecvState, input: bytes, k: nat): (r: Option<(RecvState, bytes)>)
    requires StateOk(rs)
    ensures r.Some? ==> StateOk(r.value.0)
    decreases k
  {
    if k == 0 then Some((rs, input)) else
    var c := RecvInterlacedMessage(threshold, rs, input);
    if c.Error? then None else
    var (rs1, msg) := Handle(c.value.0, c.value.1);
    if msg.Some? then None else Behind(threshold, rs1, c.rest, k - 1)
  }

  ghost predicate FailsBehind(threshold: nat, rs: RecvState, input: bytes, k: nat, code: int)
    requires StateOk(rs)
  {
    var a := Behind(threshold, rs, input, k);
    a.Some? && RecvInterlacedMessage(threshold, a.value.0, a.value.1) == Error(code)
  }

  lemma {:induction false} RecvMessageFails(threshold: nat, rs: RecvState, input: bytes, code: int)
    requires StateOk(rs)
    ensures RecvMessage(threshold, rs, input) == Error(code)
        <==> exists k: nat :: FailsBehind(threshold, rs, input, k, code)
    decreases |input|
  {
    hide RecvInterlacedMessage, Handle, StateOk;
    var c := RecvInterlacedMessage(threshold, rs, input);
    if c.Error? {
      assert FailsBehind(threshold, rs, input, 0, c.code);
    } else {
      var (rs1, msg) := Handle(c.value.0, c.value.1);
      if msg.None? {
        RecvMessageFails(threshold, rs1, c.rest, code);
        if k: nat :| FailsBehind(threshold, rs1, c.rest, k, code) {
          assert FailsBehind(threshold, rs, input, k + 1, code);
        }
        if k: nat :| FailsBehind(threshold, rs, input, k, code) {
          assert k > 0;
          assert FailsBehind(threshold, rs1, c.rest, k - 1, code);
        }
      }
    }
  }

  ghost predicate HeaderFailsBehind(threshold: nat, rs: RecvState, input: bytes, k: nat)
    requires StateOk(rs)
  {
    var a := Behind(threshold, rs, input, k);
    a.Some? && HeaderFails(threshold, a.value.0, a.value.1)
  }

  ghost predicate EndsBehind(threshold: nat, rs: RecvState, input: bytes, k: nat)
    requires StateOk(rs)
  {
    var a := Behind(threshold, rs, input, k);
    a.Some? && EndsInside(threshold, a.value.0, a.value.1)
  }

  lemma FailureBehind(threshold: nat, rs: RecvState, input: bytes, k: nat)
    requires StateOk(rs)
    ensures FailsBehind(threshold, rs, input, k, HEADER_FAILED) <==> HeaderFailsBehind(threshold, rs, input, k)
    ensures FailsBehind(threshold, rs, input, k, ERROR_SOCKET_READ) <==> EndsBehind(threshold, rs, input, k)
  {
    hide RecvInterlacedMessage, HeaderFails, EndsInside, StateOk;
    var a := Behind(threshold, rs, input, k);
    if a.Some? {
      ChunkFailures(threshold, a.value.0, a.value.1);
    }
  }

  /**
   * On every stream RecvMessage fails with code 1 exactly when, behind some chunks that deliver
   * nothing, a message header is refused or cut short, and with the socket's code exactly when
   * the stream ends inside a basic header or a payload there.
   */
  lemma RecvMessageFailures(threshold: nat, rs: RecvState, input: bytes)
    requires StateOk(rs)
    ensures RecvMessage(threshold, rs, input) == Error(HEADER_FAILED)
        <==> exists k: nat :: HeaderFailsBehind(threshold, rs, input, k)
    ensures RecvMessage(threshold, rs, input) == Error(ERROR_SOCKET_READ)
        <==> exists k: nat :: EndsBehind(threshold, rs, input, k)
  {
    hide RecvMessage, FailsBehind, HeaderFailsBehind, EndsBehind;
    RecvMessageFails(threshold, rs, input, HEADER_FAILED);
    RecvMessageFails(threshold, rs, input, ERROR_SOCKET_READ);
    forall k: nat
      ensures FailsBehind(threshold, rs, input, k, HEADER_FAILED) <==> HeaderFailsBehind(threshold, rs, input, k)
      ensures FailsBehind(threshold, rs, input, k, ERROR_SOCKET_READ) <==> EndsBehind(threshold, rs, input, k)
    {
      FailureBehind(threshold, rs, input, k);
    }
  }
}
