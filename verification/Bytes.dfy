/** Bytes and fixed-width integers, as BufferManager and the header writers lay them out. */
module Bytes {

  type byte = x: int | 0 <= x < 0x100
  type bytes = seq<byte>

  datatype Option<+T> = None | Some(value: T)

  /** What a reader makes of a byte stream: a value and the bytes it leaves, or an error code. */
  datatype Parsed<+T> = Parsed(value: T, rest: bytes) | Error(code: int)

  function Min(a: int, b: int): (m: int)
    ensures m <= a && m <= b && (m == a || m == b)
  {
    if a < b then a else b
  }

  lemma Associate<T>(a: seq<T>, b: seq<T>, c: seq<T>)
    ensures a + (b + c) == a + b + c
  {
  }

  lemma AppendSplits<T>(a: seq<T>, b: seq<T>)
    ensures (a + b)[..|a|] == a && (a + b)[|a|..] == b
  {
  }

  function Pow256(n: nat): (p: nat)
    ensures p > 0
  {
    if n == 0 then 1 else 256 * Pow256(n - 1)
  }

  /** The low n bytes of v, most significant first. */
  function BigEndian(v: nat, n: nat): (s: bytes)
    ensures |s| == n
  {
    if n == 0 then [] else BigEndian(v / 256, n - 1) + [v % 256]
  }

  function FromBigEndian(s: bytes): nat
  {
    if s == [] then 0 else 256 * FromBigEndian(s[..|s| - 1]) + s[|s| - 1]
  }

  /** The low four bytes of v, least significant first. */
  function LittleEndian32(v: nat): (s: bytes)
    ensures |s| == 4
  {
    [v % 256, v / 0x100 % 256, v / 0x1_0000 % 256, v / 0x100_0000 % 256]
  }

  function ToSigned16(v: nat): int {
    if v < 0x8000 then v else v - 0x1_0000
  }

  function ToSigned32(v: nat): int {
    if v < 0x8000_0000 then v else v - 0x1_0000_0000
  }

  /** Writing keeps exactly the low n bytes. */
  lemma {:induction false} BigEndianRoundTrip(v: nat, n: nat)
    ensures FromBigEndian(BigEndian(v, n)) == v % Pow256(n)
  {
    if n > 0 {
      var q, r, p := v / 256, v % 256, Pow256(n - 1);
      assert BigEndian(v, n)[..n - 1] == BigEndian(q, n - 1);
      BigEndianRoundTrip(q, n - 1);
      SplitModulo(q, r, p);
      assert v == 256 * q + r;
    }
  }

  lemma SplitModulo(q: nat, r: nat, p: nat)
    requires r < 256 && p > 0
    ensures (256 * q + r) % (256 * p) == 256 * (q % p) + r
  {
    var k, m := q / p, q % p;
    assert q == p * k + m;
    assert 256 * q + r == (256 * p) * k + (256 * m + r);
    assert 256 * m + r < 256 * p;
    ModuloUnique(256 * q + r, 256 * p, k, 256 * m + r);
  }

  lemma ModuloUnique(x: nat, d: nat, k: nat, r: nat)
    requires d > 0 && r < d && x == d * k + r
    ensures x % d == r
  {
    var z := k - x / d;
    assert d * z == x % d - r;
    if z > 0 {
      MulAtLeast(d, z);
    } else if z < 0 {
      MulAtLeast(d, -z);
    }
  }

  lemma MulAtLeast(d: nat, z: nat)
    requires z > 0
    ensures d * z >= d
  {
  }

  /** Reading loses nothing: the bytes can be written back. */
  lemma {:induction false} FromBigEndianRoundTrip(s: bytes)
    ensures FromBigEndian(s) < Pow256(|s|)
    ensures BigEndian(FromBigEndian(s), |s|) == s
  {
    if s != [] {
      FromBigEndianRoundTrip(s[..|s| - 1]);
      assert s == s[..|s| - 1] + [s[|s| - 1]];
    }
  }

  lemma Widths()
    ensures Pow256(1) == 0x100 && Pow256(2) == 0x1_0000 && Pow256(3) == 0x100_0000
    ensures Pow256(4) == 0x1_0000_0000 && Pow256(8) == 0x1_0000_0000_0000_0000
  {
    assert Pow256(4) == 0x1_0000_0000;
    assert Pow256(5) == 256 * Pow256(4);
    assert Pow256(6) == 256 * Pow256(5);
    assert Pow256(7) == 256 * Pow256(6);
  }

  /** Byte by byte forms, for code that moves one byte at a time. */
  lemma ExplicitBytes(v: nat)
    ensures BigEndian(v, 2) == [v / 0x100 % 256, v % 256]
    ensures BigEndian(v, 3) == [v / 0x1_0000 % 256, v / 0x100 % 256, v % 256]
    ensures BigEndian(v, 4) == [v / 0x100_0000 % 256, v / 0x1_0000 % 256, v / 0x100 % 256, v % 256]
  {
    assert v / 256 / 256 == v / 0x1_0000;
    assert v / 256 / 256 / 256 == v / 0x100_0000;
    assert BigEndian(v, 1) == [v % 256];
    assert BigEndian(v / 256, 1) == [v / 256 % 256];
    assert BigEndian(v / 256 / 256, 1) == [v / 256 / 256 % 256];
    assert BigEndian(v / 256 / 256 / 256, 1) == [v / 256 / 256 / 256 % 256];
    assert BigEndian(v / 256 / 256, 2) == BigEndian(v / 256 / 256 / 256, 1) + [v / 256 / 256 % 256];
    assert BigEndian(v / 256, 2) == BigEndian(v / 256 / 256, 1) + [v / 256 % 256];
    assert BigEndian(v / 256, 3) == BigEndian(v / 256 / 256, 2) + [v / 256 % 256];
  }

  /** The number of three or four bytes, most significant first. */
  function Number24(a: byte, b: byte, c: byte): nat {
    0x1_0000 * a as int + 0x100 * b as int + c as int
  }

  function Number32(a: byte, b: byte, c: byte, d: byte): nat {
    0x100_0000 * a as int + Number24(b, c, d)
  }

  lemma FourBytes(v: nat)
    requires v < 0x1_0000_0000
    ensures Number32(v / 0x100_0000 % 256, v / 0x1_0000 % 256, v / 0x100 % 256, v % 256) == v
  {
    hide BigEndian, Number32;
    ExplicitBytes(v);
    StoredNumber(v);
  }

  /** The number in front of some bytes, byte by byte. */
  lemma ReadsOut(s: bytes)
    ensures |s| >= 2 ==> FromBigEndian(s[..2]) == 0x100 * s[0] as int + s[1] as int
    ensures |s| >= 3 ==> FromBigEndian(s[..3]) == Number24(s[0], s[1], s[2])
    ensures |s| >= 4 ==> FromBigEndian(s[..4]) == Number32(s[0], s[1], s[2], s[3])
  {
    assert |s| >= 1 ==> s[..1][..0] == [] && FromBigEndian(s[..1]) == s[0];
    assert |s| >= 2 ==> s[..2][..1] == s[..1];
    assert |s| >= 3 ==> s[..3][..2] == s[..2];
    assert |s| >= 4 ==> s[..4][..3] == s[..3];
  }

  lemma StoredNumber(v: nat)
    ensures var s := BigEndian(v, 3); Number24(s[0], s[1], s[2]) == v % 0x100_0000
    ensures var s := BigEndian(v, 4); Number32(s[0], s[1], s[2], s[3]) == v % 0x1_0000_0000
  {
    var s, t := BigEndian(v, 3), BigEndian(v, 4);
    ReadsOut(s);
    ReadsOut(t);
    BigEndianRoundTrip(v, 3);
    BigEndianRoundTrip(v, 4);
    Widths();
    assert s[..3] == s && t[..4] == t;
  }

  /** What a big-endian reader makes of a little-endian 32-bit field. */
  function ByteSwap32(v: nat): nat {
    FromBigEndian(LittleEndian32(v))
  }

  /** The value survives exactly when its four bytes read the same both ways. */
  lemma ByteSwapFixedPoints(v: nat)
    requires v < 0x1_0000_0000
    ensures ByteSwap32(v) == v <==>
            v % 256 == v / 0x100_0000 % 256 && v / 0x100 % 256 == v / 0x1_0000 % 256
  {
    hide BigEndian, FromBigEndian;
    var le, be := LittleEndian32(v), BigEndian(v, 4);
    ExplicitBytes(v);
    BigEndianRoundTrip(v, 4);
    Widths();
    FromBigEndianRoundTrip(le);
    assert FromBigEndian(be) == v && BigEndian(ByteSwap32(v), 4) == le;
    assert ByteSwap32(v) == v <==> be == le;
    assert be == le <==> be[0] == le[0] && be[1] == le[1] && be[2] == le[2] && be[3] == le[3];
  }
}
