/** BufferManager: a cursor over a fixed buffer (common/buffer.cpp:11-221). */
module BufferManagers {
  import opened Bytes

  class BufferManager {
    const buf: array<byte>
    var ptr: nat

    ghost predicate Valid()
      reads this
    {
      ptr <= buf.Length
    }

    /** What lies behind the cursor. */
    ghost function Rest(): bytes
      requires Valid()
      reads this, buf
    {
      buf[ptr..]
    }

    constructor (buf: array<byte>)
      ensures Valid() && this.buf == buf && ptr == 0
    {
      this.buf := buf;
      ptr := 0;
    }

    predicate Require(size: nat)
      requires Valid()
      reads this
    {
      size <= buf.Length - ptr
    }

    predicate Empty()
      requires Valid()
      reads this
    {
      ptr >= buf.Length
    }

    method Skip(size: int)
      requires Valid() && 0 <= ptr + size <= buf.Length
      modifies this
      ensures Valid() && ptr == old(ptr) + size
    {
      ptr := ptr + size;
    }

    /** The fixed-width reads: the unsigned pattern of a big-endian field. */
    method ReadField(size: nat) returns (v: nat)
      requires Valid() && Require(size)
      modifies this
      ensures Valid() && v == FromBigEndian(old(Rest()[..size])) && Rest() == old(Rest()[size..])
    {
      v := FromBigEndian(buf[ptr..ptr + size]);
      assert buf[ptr..ptr + size] == Rest()[..size];
      ptr := ptr + size;
    }

    method Read1Bytes() returns (b: byte)
      requires Valid() && Require(1)
      modifies this
      ensures Valid() && b == old(Rest()[0]) && Rest() == old(Rest()[1..])
    {
      b := buf[ptr];
      ptr := ptr + 1;
    }

    method Read2Bytes() returns (v: int)
      requires Valid() && Require(2)
      modifies this
      ensures Valid() && v == ToSigned16(FromBigEndian(old(Rest()[..2]))) && Rest() == old(Rest()[2..])
    {
      var u := ReadField(2);
      v := ToSigned16(u);
    }

    method ReadString(len: nat) returns (s: bytes)
      requires Valid() && Require(len)
      modifies this
      ensures Valid() && s == old(Rest()[..len]) && Rest() == old(Rest()[len..])
    {
      s := buf[ptr..ptr + len];
      ptr := ptr + len;
    }

    /** Stores at the cursor; everything before and behind the bytes stays. */
    method WriteString(s: bytes)
      requires Valid() && Require(|s|)
      modifies this, buf
      ensures Valid() && ptr == old(ptr) + |s|
      ensures buf[..ptr] == old(buf[..ptr]) + s && Rest() == old(Rest()[|s|..])
    {
      forall i | 0 <= i < |s| {
        buf[ptr + i] := s[i];
      }
      ptr := ptr + |s|;
    }
  }
}
