/** The receive buffer (common/buffer.cpp) and the socket it is filled from. */
module FastBuffers {
  import opened Bytes
  import opened RtmpConsts

  /** A socket: the bytes the peer has sent, handed out in reads of arbitrary positive length. */
  class ByteSource {
    var pending: bytes

    constructor (sent: bytes)
      ensures pending == sent
    {
      pending := sent;
    }

    method Read(limit: nat) returns (ret: int, data: bytes)
      requires limit > 0
      modifies this
      ensures old(pending) == data + pending
      ensures old(pending) == [] ==> ret == ERROR_SOCKET_READ
      ensures old(pending) != [] ==> ret == SUCCESS && 1 <= |data| <= limit
    {
      if pending == [] {
        return ERROR_SOCKET_READ, [];
      }
      var n :| 1 <= n <= limit && n <= |pending|;
      ret, data, pending := SUCCESS, pending[..n], pending[n..];
    }
  }

  class FastBuffer {
    const capacity: nat := RECV_BUFFER_SIZE
    var buf: array<byte>
    var start: nat
    var end: nat

    /** SetBuffer never updates the capacity, so the array may be longer than it. */
    ghost predicate Valid()
      reads this
    {
      start <= end <= capacity <= buf.Length
    }

    /** The bytes read from the socket and not yet handed out. */
    ghost function Contents(): bytes
      requires Valid()
      reads this, buf
    {
      buf[start..end]
    }

    constructor ()
      ensures Valid() && fresh(buf)
      ensures Contents() == []
    {
      buf := new byte[RECV_BUFFER_SIZE](_ => 0);
      start, end := 0, 0;
    }

    method Size() returns (n: nat)
      requires Valid()
      ensures n == |Contents()|
    {
      n := end - start;
    }

    method SetBuffer(bufferSize: int)
      requires Valid()
      modifies this
      ensures Valid() && (buf == old(buf) || fresh(buf))
      ensures Contents() == old(Contents())
      ensures buf.Length == if bufferSize < capacity then old(buf.Length)
                            else Min(MAX_SOCKET_BUFFER_SIZE, bufferSize)
    {
      var size := Min(MAX_SOCKET_BUFFER_SIZE, bufferSize);
      if size < capacity {
        return;
      }
      var grown := new byte[size](_ => 0);
      forall i | 0 <= i < Min(buf.Length, size) {
        grown[i] := buf[i];
      }
      buf := grown;
    }

    method Read1Bytes() returns (b: byte)
      requires Valid() && Contents() != []
      modifies this`start
      ensures Valid() && old(Contents()) == [b] + Contents()
    {
      b := buf[start];
      start := start + 1;
    }

    method ReadSlice(size: nat) returns (s: bytes)
      requires Valid() && |Contents()| >= size
      modifies this`start
      ensures Valid() && |s| == size && old(Contents()) == s + Contents()
      ensures start == old(start) + size
    {
      s := buf[start..start + size];
      start := start + size;
    }

    /** A negative size gives bytes back. */
    method Skip(size: int)
      requires Valid() && |Contents()| >= size && start + size >= 0
      modifies this`start
      ensures Valid() && start == old(start) + size
      ensures size <= 0 ==> old(Contents()) == Contents()[-size..]
    {
      start := start + size;
    }

    /** The move to the front inside Grow (common/buffer.cpp:349-359). */
    method Compact()
      requires Valid()
      modifies this, buf
      ensures Valid() && buf == old(buf)
      ensures Contents() == old(Contents())
      ensures start == 0
    {
      var usedSpace := end - start;
      if usedSpace == 0 {
        start, end := 0, 0;
      } else if usedSpace < capacity && start > 0 {
        forall i | 0 <= i < usedSpace {
          buf[i] := buf[start + i];
        }
        start, end := 0, usedSpace;
      }
    }

    /** The socket read landing at the end pointer. */
    method Append(data: bytes)
      requires Valid() && end + |data| <= capacity
      modifies this`end, buf
      ensures Valid()
      ensures Contents() == old(Contents()) + data
      ensures end == old(end) + |data|
    {
      forall i | 0 <= i < |data| {
        buf[end + i] := data[i];
      }
      end := end + |data|;
    }

    /**
     * Make at least `required` bytes available, moving the unread bytes to the front when the
     * free space behind them is too small. Nothing is lost or reordered, and each of the three
     * outcomes is decided by the request and the byte stream alone.
     */
    method Grow(r: ByteSource, required: int) returns (ret: int)
      requires Valid() && required > 0
      modifies this, buf, r
      ensures Valid() && buf == old(buf)
      ensures Contents() + r.pending == old(Contents() + r.pending)
      ensures required > capacity <==> ret == ERROR_READER_BUFFER_OVERFLOW
      ensures required <= capacity ==>
                if old(|Contents()| + |r.pending|) >= required
                then ret == SUCCESS && |Contents()| >= required
                else ret == ERROR_SOCKET_READ
    {
      ret := SUCCESS;
      if end - start >= required {
        return;
      }
      var freeSpace := capacity - end;
      var usedSpace := end - start;
      if freeSpace < required - usedSpace {
        Compact();
        freeSpace := capacity - end;
        if freeSpace < required - usedSpace {
          return ERROR_READER_BUFFER_OVERFLOW;
        }
      }
      while end - start < required
        invariant Valid() && buf == old(buf) && freeSpace == capacity - end
        invariant freeSpace >= required - (end - start)
        invariant Contents() + r.pending == old(Contents() + r.pending)
        invariant ret == SUCCESS
        decreases required - (end - start)
      {
        ghost var before := Contents();
        ghost var sent := r.pending;
        var code, data := r.Read(freeSpace);
        if code != SUCCESS {
          assert r.pending == [];
          return code;
        }
        Append(data);
        freeSpace := freeSpace - |data|;
        assert before + data + r.pending == before + sent;
      }
    }
  }
}
