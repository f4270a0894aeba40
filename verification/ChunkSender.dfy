/** Protocol's sending half: one message at a time, or a batch with gathered writes. */
module ChunkSenders {
  import opened Bytes
  import opened RtmpConsts
  import opened ChunkWriter

  /** SendLargeIovs: at most 1024 entries to a write (common/socket.cpp:142-180). */
  method SendLargeIovs(rw: ByteSink, iovs: seq<Iovec>, cache: array<byte>) returns (ret: int)
    requires AllWithin(iovs, cache.Length)
    modifies rw
    ensures ret == SUCCESS ==> rw.sent == old(rw.sent) + Gather(iovs, cache[..])
    ensures ret != SUCCESS ==> IsPrefix(rw.sent, old(rw.sent) + Gather(iovs, cache[..]))
  {
    if |iovs| < IOVS_PER_WRITE {
      ret := rw.WriteEv(iovs, cache);
      if ret != SUCCESS {
        PrefixOf(rw.sent, Gather(iovs, cache[..]));
      }
      return;
    }
    ghost var start, all := rw.sent, Gather(iovs, cache[..]);
    var curPos := 0;
    ret := SUCCESS;
    while curPos < |iovs|
      invariant curPos <= |iovs| && ret == SUCCESS
      invariant rw.sent == start + Gather(iovs[..curPos], cache[..])
    {
      var count := Min(IOVS_PER_WRITE, |iovs| - curPos);
      var next := curPos + count;
      GatherSplit(iovs, curPos, next, cache[..]);
      ret := rw.WriteEv(iovs[curPos..next], cache);
      if ret != SUCCESS {
        SomeGathered(start, iovs, curPos, cache[..]);
        return;
      }
      Associate(start, Gather(iovs[..curPos], cache[..]), Gather(iovs[curPos..next], cache[..]));
      curPos := next;
    }
    assert iovs[..curPos] == iovs;
  }

  lemma SomeGathered(start: bytes, iovs: seq<Iovec>, n: nat, cache: bytes)
    requires n <= |iovs|
    ensures IsPrefix(start + Gather(iovs[..n], cache), start + Gather(iovs, cache))
  {
    GatherSplit(iovs, n, |iovs|, cache);
    assert iovs[..|iovs|] == iovs;
    Associate(start, Gather(iovs[..n], cache), Gather(iovs[n..], cache));
    PrefixOf(start + Gather(iovs[..n], cache), Gather(iovs[n..], cache));
  }

  lemma GatherSplit(iovs: seq<Iovec>, lo: nat, hi: nat, cache: bytes)
    requires lo <= hi <= |iovs|
    ensures Gather(iovs[..hi], cache) == Gather(iovs[..lo], cache) + Gather(iovs[lo..hi], cache)
  {
    GatherConcat(iovs[..lo], iovs[lo..hi], cache);
    assert iovs[..lo] + iovs[lo..hi] == iovs[..hi];
  }

  class ChunkSender {
    const threshold: nat
    const rw: ByteSink
    var outChunkSize: int
    var outIovs: array<Iovec>
    var nbOutIovs: nat
    const outC0C3Caches: array<byte>

    ghost predicate Valid()
      reads this
    {
      && outC0C3Caches.Length == C0C3_HEADERS_MAX
      && outIovs.Length == nbOutIovs
      && nbOutIovs >= IOVS_MAX && nbOutIovs % 2 == 0
    }

    constructor (threshold: nat, rw: ByteSink)
      ensures Valid() && this.threshold == threshold && this.rw == rw
      ensures outChunkSize == DEFAULT_CHUNK_SIZE
      ensures fresh(outIovs) && fresh(outC0C3Caches)
    {
      this.threshold, this.rw := threshold, rw;
      outChunkSize := DEFAULT_CHUNK_SIZE;
      nbOutIovs := IOVS_MAX;
      outIovs := new Iovec[IOVS_MAX](_ => PayloadSlice([]));
      outC0C3Caches := new byte[C0C3_HEADERS_MAX](_ => 0);
    }

    /** One write per chunk, the header built in a local 16-byte array. */
    method DoSimpleSend(m: OutMessage) returns (ret: int)
      requires Valid() && outChunkSize > 0
      modifies rw
      ensures ret == SUCCESS ==>
                rw.sent == old(rw.sent) + MessageBytes(threshold, m, outChunkSize)
      ensures ret != SUCCESS ==>
                IsPrefix(rw.sent, old(rw.sent) + MessageBytes(threshold, m, outChunkSize))
    {
      hide ChunkAt, Chunks, Flatten, IsPrefix;
      var p, end := 0, |m.payload|;
      var c0c3 := new byte[FMT0_HEADER_SIZE](_ => 0);
      ghost var rest := MessageBytes(threshold, m, outChunkSize);
      ghost var total := rw.sent + rest;
      ret := SUCCESS;
      while p < end
        invariant p <= end && ret == SUCCESS
        invariant rest == Flatten(Chunks(threshold, m, outChunkSize, p))
        invariant rw.sent + rest == total
      {
        var size := Min(end - p, outChunkSize);
        ghost var chunk := ChunkAt(threshold, m, outChunkSize, p);
        ghost var before, next := rw.sent, Flatten(Chunks(threshold, m, outChunkSize, p + size));
        NextChunk(threshold, m, outChunkSize, p, []);
        ret := SendChunk(m, p, size, c0c3);
        if ret != SUCCESS {
          PrefixOf(rw.sent, rest);
          return;
        }
        Associate(before, chunk, next);
        rest := next;
        p := p + size;
      }
      NoMoreChunks(threshold, m, outChunkSize, []);
    }

    method SendChunk(m: OutMessage, p: nat, size: nat, c0c3: array<byte>) returns (ret: int)
      requires outChunkSize > 0 && c0c3.Length == FMT0_HEADER_SIZE
      requires p < |m.payload| && size == Min(|m.payload| - p, outChunkSize)
      modifies c0c3, rw
      ensures ret == SUCCESS ==> rw.sent == old(rw.sent) + ChunkAt(threshold, m, outChunkSize, p)
      ensures ret != SUCCESS ==> rw.sent == old(rw.sent)
    {
      hide ChunkHeader, Gather;
      var nbh := WriteChunkHeader(threshold, m, c0c3, 0, p == 0);
      var iovs := [CacheSlice(0, nbh), PayloadSlice(m.payload[p..p + size])];
      GatherPair(iovs, c0c3[..]);
      ret := rw.WriteEv(iovs, c0c3);
    }

    /** DoSendAndFreePacket: OnSendPacket adopts an announced chunk size without looking at it. */
    method SendPacket(p: Packet, streamId: nat) returns (ret: int)
      requires Valid() && outChunkSize > 0
      modifies rw, this`outChunkSize
      ensures Valid()
      ensures ret == SUCCESS ==>
                rw.sent == old(rw.sent) + MessageBytes(threshold, PacketMessage(p, streamId), old(outChunkSize))
      ensures outChunkSize == if ret == SUCCESS then AfterPacket(old(outChunkSize), p) else old(outChunkSize)
    {
      var m := PacketMessage(p, streamId);
      if m.payload == [] {
        assert rw.sent + [] == rw.sent;
        return SUCCESS;
      }
      ret := DoSimpleSend(m);
      if ret == SUCCESS {
        match p {
          case SetChunkSize(n) => outChunkSize := n;
          case Encoded(_, _, _) =>
        }
      }
    }

    /**
     * The batched form. Headers stay in the cache until the entries that point at them are
     * flushed, and the wire carries exactly what sending the messages one by one would put there.
     */
    method DoSendMessages(msgs: seq<Option<OutMessage>>) returns (ret: int)
      requires Valid() && outChunkSize > 0
      modifies this`outIovs, this`nbOutIovs, outIovs, outC0C3Caches, rw
      ensures Valid() && outChunkSize == old(outChunkSize)
      ensures outIovs == old(outIovs) || fresh(outIovs)
      ensures ret == SUCCESS ==>
                rw.sent == old(rw.sent) + BatchBytes(threshold, msgs, outChunkSize)
      ensures ret != SUCCESS ==>
                IsPrefix(rw.sent, old(rw.sent) + BatchBytes(threshold, msgs, outChunkSize))
    {
      hide ChunkAt, Chunks, Flatten, MessageBytes, BatchBytes, IsPrefix, Holds;
      ghost var pending, rest := [], BatchBytes(threshold, msgs, outChunkSize);
      ghost var total := rw.sent + rest;
      var iovIndex, cacheIndex := 0, 0;
      ret := SUCCESS;
      assert msgs[0..] == msgs && rw.sent + pending == rw.sent;
      NothingQueued();
      for i := 0 to |msgs|
        invariant ret == SUCCESS && outChunkSize == old(outChunkSize)
        invariant outIovs == old(outIovs) || fresh(outIovs)
        invariant Queued(iovIndex, cacheIndex, pending)
        invariant rest == BatchBytes(threshold, msgs[i..], outChunkSize)
        invariant rw.sent + pending + rest == total
      {
        BatchStep(threshold, msgs, outChunkSize, i);
        if msgs[i].None? || msgs[i].value.payload == [] {
          rest := BatchBytes(threshold, msgs[i + 1..], outChunkSize);
          continue;
        }
        var m := msgs[i].value;
        ghost var after := BatchBytes(threshold, msgs[i + 1..], outChunkSize);
        var p, pend := 0, |m.payload|;
        while p < pend
          invariant p <= pend
          invariant ret == SUCCESS && outChunkSize == old(outChunkSize)
          invariant outIovs == old(outIovs) || fresh(outIovs)
          invariant Queued(iovIndex, cacheIndex, pending)
          invariant rest == Flatten(Chunks(threshold, m, outChunkSize, p)) + after
          invariant rw.sent + pending + rest == total
        {
          var size := Min(outChunkSize, pend - p);
          ghost var chunk := ChunkAt(threshold, m, outChunkSize, p);
          ghost var next := Flatten(Chunks(threshold, m, outChunkSize, p + size)) + after;
          NextChunk(threshold, m, outChunkSize, p, after);
          Advance(rw.sent, pending, chunk, next);
          iovIndex, cacheIndex := Queue(m, p, size, iovIndex, cacheIndex, pending);
          pending, rest := pending + chunk, next;
          p := p + size;
          if C0C3_HEADERS_MAX - cacheIndex < FMT0_HEADER_SIZE {
            HoldsValid(iovIndex, cacheIndex, pending);
            ret := Flush(iovIndex, cacheIndex, pending, rest);
            if ret != SUCCESS {
              return;
            }
            iovIndex, cacheIndex, pending := 0, 0, [];
            assert rw.sent + pending == rw.sent;
            NothingQueued();
          }
        }
        NoMoreChunks(threshold, m, outChunkSize, after);
      }
      NoMoreMessages(threshold, msgs, outChunkSize);
      HoldsValid(iovIndex, cacheIndex, pending);
      if iovIndex <= 0 {
        return;
      }
      ret := Flush(iovIndex, cacheIndex, pending, rest);
    }

    /**
     * The queued entries stand for `pending`: every header entry points below cacheIndex, and
     * two more entries fit behind iovIndex.
     */
    ghost predicate Holds(iovIndex: nat, cacheIndex: nat, pending: bytes)
      reads this, outIovs, outC0C3Caches
    {
      && Valid()
      && iovIndex % 2 == 0 && iovIndex + 2 <= nbOutIovs
      && cacheIndex <= C0C3_HEADERS_MAX
      && AllWithin(outIovs[..iovIndex], cacheIndex)
      && Gather(outIovs[..iovIndex], outC0C3Caches[..]) == pending
    }

    /** In addition the largest header still fits in the cache. */
    ghost predicate Queued(iovIndex: nat, cacheIndex: nat, pending: bytes)
      reads this, outIovs, outC0C3Caches
    {
      Holds(iovIndex, cacheIndex, pending) && cacheIndex + FMT0_HEADER_SIZE <= C0C3_HEADERS_MAX
    }

    lemma NothingQueued()
      requires Valid()
      ensures Queued(0, 0, [])
    {
    }

    lemma HoldsValid(iovIndex: nat, cacheIndex: nat, pending: bytes)
      requires Holds(iovIndex, cacheIndex, pending)
      ensures Valid() && (iovIndex == 0 ==> pending == [])
    {
    }

    /** One turn of the inner loop: header into the cache, two entries, and room for two more. */
    method Queue(m: OutMessage, p: nat, size: nat, iovIndex: nat, cacheIndex: nat, ghost pending: bytes)
      returns (nextIov: nat, nextCache: nat)
      requires outChunkSize > 0 && Queued(iovIndex, cacheIndex, pending)
      requires p < |m.payload| && size == Min(|m.payload| - p, outChunkSize)
      modifies this`outIovs, this`nbOutIovs, outIovs, outC0C3Caches
      ensures outIovs == old(outIovs) || fresh(outIovs)
      ensures nextIov == iovIndex + 2
      ensures Holds(nextIov, nextCache, pending + ChunkAt(threshold, m, outChunkSize, p))
    {
      hide ChunkHeader, Gather, Deref, ChunkAt;
      ghost var queued, cacheBefore := outIovs[..iovIndex], outC0C3Caches[..];
      ghost var chunk := ChunkAt(threshold, m, outChunkSize, p);
      var nbh := WriteChunkHeader(threshold, m, outC0C3Caches, cacheIndex, p == 0);
      var header, slice := CacheSlice(cacheIndex, nbh), PayloadSlice(m.payload[p..p + size]);
      outIovs[iovIndex], outIovs[iovIndex + 1] := header, slice;
      nextCache := cacheIndex + nbh;
      nextIov := iovIndex + 2;
      ghost var both := [header, slice];
      assert outIovs[..nextIov] == queued + both;
      PairIsChunk(threshold, m, outChunkSize, p, cacheIndex, nbh, outC0C3Caches[..]);
      QueueTwo(queued, both, cacheBefore, outC0C3Caches[..], cacheIndex, nextCache);
      if iovIndex >= nbOutIovs - 2 {
        Resize(nextIov);
      }
    }

    method Resize(used: nat)
      requires Valid() && used <= nbOutIovs
      modifies this`outIovs, this`nbOutIovs
      ensures Valid() && fresh(outIovs)
      ensures nbOutIovs == old(nbOutIovs) + IOVS_MAX
      ensures outIovs[..used] == old(outIovs[..used])
    {
      var grown := new Iovec[nbOutIovs + IOVS_MAX](_ => PayloadSlice([]));
      forall i | 0 <= i < nbOutIovs {
        grown[i] := outIovs[i];
      }
      nbOutIovs := nbOutIovs + IOVS_MAX;
      outIovs := grown;
    }

    method Flush(iovIndex: nat, cacheIndex: nat, ghost pending: bytes, ghost rest: bytes)
      returns (ret: int)
      requires Holds(iovIndex, cacheIndex, pending)
      modifies rw
      ensures ret == SUCCESS ==> rw.sent == old(rw.sent) + pending
      ensures ret != SUCCESS ==> IsPrefix(rw.sent, old(rw.sent) + pending + rest)
    {
      ret := SendLargeIovs(rw, outIovs[..iovIndex], outC0C3Caches);
      if ret != SUCCESS {
        PrefixExtends(rw.sent, old(rw.sent) + pending, rest);
      }
    }
  }

  ghost predicate IsPrefix(a: bytes, b: bytes) {
    a <= b
  }

  lemma PrefixOf(a: bytes, b: bytes)
    ensures IsPrefix(a, a + b)
  {
  }

  lemma PrefixExtends(a: bytes, b: bytes, c: bytes)
    requires IsPrefix(a, b)
    ensures IsPrefix(a, b + c)
  {
  }

  lemma Advance(sent: bytes, pending: bytes, chunk: bytes, next: bytes)
    ensures sent + pending + (chunk + next) == sent + (pending + chunk) + next
  {
  }

  /** New entries behind old ones, their headers above the old limit. */
  lemma QueueTwo(queued: seq<Iovec>, both: seq<Iovec>, before: bytes, cache: bytes, limit: nat, next: nat)
    requires limit <= next <= |before| == |cache| && before[..limit] == cache[..limit]
    requires AllWithin(queued, limit) && AllWithin(both, next)
    ensures AllWithin(queued + both, next)
    ensures Gather(queued + both, cache) == Gather(queued, before) + Gather(both, cache)
  {
    WithinConcat(queued, both, next);
    GatherConcat(queued, both, cache);
    GatherIgnoresTail(queued, before, cache, limit);
  }

  lemma GatherPair(iovs: seq<Iovec>, cache: bytes)
    requires |iovs| == 2
    ensures Gather(iovs, cache) == Deref(iovs[0], cache) + Deref(iovs[1], cache)
  {
    assert iovs[..1] == [iovs[0]];
    assert Gather(iovs[..1], cache) == Gather([], cache) + Deref(iovs[0], cache);
  }

  /** A header in the cache and a slice of the payload stand for a chunk. */
  lemma PairIsChunk(threshold: nat, m: OutMessage, chunkSize: int, p: nat, start: nat, nbh: nat, cache: bytes)
    requires chunkSize > 0 && p < |m.payload| && start + nbh <= |cache|
    requires cache[start..start + nbh] == ChunkHeader(threshold, m, p == 0)
    ensures var slice := m.payload[p..p + Min(|m.payload| - p, chunkSize)];
            Gather([CacheSlice(start, nbh), PayloadSlice(slice)], cache) == ChunkAt(threshold, m, chunkSize, p)
  {
    hide ChunkHeader, Gather;
    var slice := m.payload[p..p + Min(|m.payload| - p, chunkSize)];
    GatherPair([CacheSlice(start, nbh), PayloadSlice(slice)], cache);
  }

  lemma NextChunk(threshold: nat, m: OutMessage, chunkSize: int, pos: nat, after: bytes)
    requires chunkSize > 0 && pos < |m.payload|
    ensures var chunk := ChunkAt(threshold, m, chunkSize, pos);
            var rest := Flatten(Chunks(threshold, m, chunkSize, pos + Min(|m.payload| - pos, chunkSize)));
            && Flatten(Chunks(threshold, m, chunkSize, pos)) == chunk + rest
            && Flatten(Chunks(threshold, m, chunkSize, pos)) + after == chunk + (rest + after)
  {
    hide ChunkAt;
    var next := pos + Min(|m.payload| - pos, chunkSize);
    Associate(ChunkAt(threshold, m, chunkSize, pos), Flatten(Chunks(threshold, m, chunkSize, next)), after);
  }

  lemma NoMoreChunks(threshold: nat, m: OutMessage, chunkSize: int, after: bytes)
    requires chunkSize > 0
    ensures Flatten(Chunks(threshold, m, chunkSize, |m.payload|)) == []
    ensures Flatten(Chunks(threshold, m, chunkSize, |m.payload|)) + after == after
  {
    assert [] + after == after;
  }

  lemma BatchStep(threshold: nat, msgs: seq<Option<OutMessage>>, chunkSize: int, i: nat)
    requires chunkSize > 0 && i < |msgs|
    ensures var after := BatchBytes(threshold, msgs[i + 1..], chunkSize);
            BatchBytes(threshold, msgs[i..], chunkSize) ==
            if msgs[i].None? || msgs[i].value.payload == [] then after
            else Flatten(Chunks(threshold, msgs[i].value, chunkSize, 0)) + after
  {
    hide ChunkAt;
    assert msgs[i..][1..] == msgs[i + 1..];
  }

  lemma NoMoreMessages(threshold: nat, msgs: seq<Option<OutMessage>>, chunkSize: int)
    requires chunkSize > 0
    ensures BatchBytes(threshold, msgs[|msgs|..], chunkSize) == []
  {
  }
}
