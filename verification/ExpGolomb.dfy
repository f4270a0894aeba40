/**
 * Bit reading and the ue(v) decoder of section 9.1 of ITU-T H.264
 * (common/buffer.cpp:224-263, common/utils.cpp:359-386).
 */
module ExpGolomb {
  import opened Bytes
  import opened RtmpConsts
  import opened BufferManagers

  type bit = b: nat | b < 2

  function Pow2(n: nat): (p: nat)
    ensures p > 0
  {
    if n == 0 then 1 else 2 * Pow2(n - 1)
  }

  /** The low n bits of v, most significant first. */
  function BitsOf(v: nat, n: nat): (s: seq<bit>)
    ensures |s| == n
  {
    if n == 0 then [] else BitsOf(v / 2, n - 1) + [v % 2]
  }

  function FromBits(s: seq<bit>): nat {
    if s == [] then 0 else 2 * FromBits(s[..|s| - 1]) + s[|s| - 1]
  }

  function AllBits(s: bytes): seq<bit> {
    if s == [] then [] else BitsOf(s[0], 8) + AllBits(s[1..])
  }

  lemma {:induction false} BitsRoundTrip(v: nat, n: nat)
    requires v < Pow2(n)
    ensures FromBits(BitsOf(v, n)) == v
  {
    if n > 0 {
      assert BitsOf(v, n)[..n - 1] == BitsOf(v / 2, n - 1);
      BitsRoundTrip(v / 2, n - 1);
    }
  }

  /** The top bit, by shifting. */
  lemma {:induction false} TopBit(v: nat, n: nat)
    requires n > 0
    ensures BitsOf(v, n) == [v / Pow2(n - 1) % 2] + BitsOf(v, n - 1)
  {
    if n == 1 {
      assert BitsOf(v, 1) == BitsOf(v / 2, 0) + [v % 2];
    } else {
      TopBit(v / 2, n - 1);
      assert v / 2 / Pow2(n - 2) == v / Pow2(n - 1) by {
        DivDiv(v, Pow2(n - 2));
      }
    }
  }

  lemma DivDiv(v: nat, p: nat)
    requires p > 0
    ensures v / 2 / p == v / (2 * p)
  {
    var q := v / (2 * p);
    var r := v % (2 * p);
    assert v == 2 * p * q + r;
    assert v / 2 == p * q + r / 2;
    assert 0 <= r / 2 < p;
    DivUnique(v / 2, p, q, r / 2);
  }

  lemma DivUnique(x: nat, d: nat, q: nat, r: nat)
    requires d > 0 && r < d && x == d * q + r
    ensures x / d == q
  {
    ModuloUnique(x, d, q, r);
    assert d * (x / d - q) == 0;
  }

  class BitBufferManager {
    var cb: byte
    var cbLeft: nat
    const manager: BufferManager

    ghost predicate Valid()
      reads this, manager
    {
      cbLeft <= 8 && manager.Valid()
    }

    /** The bits not read yet: those left of the current byte, then those behind the cursor. */
    ghost function Bits(): seq<bit>
      requires Valid()
      reads this, manager, manager.buf
    {
      BitsOf(cb, cbLeft) + AllBits(manager.Rest())
    }

    constructor (manager: BufferManager)
      requires manager.Valid()
      ensures Valid() && this.manager == manager && Bits() == AllBits(manager.Rest())
    {
      cb, cbLeft := 0, 0;
      this.manager := manager;
    }

    method Empty() returns (e: bool)
      requires Valid()
      ensures e <==> Bits() == []
    {
      e := cbLeft == 0 && manager.Empty();
    }

    method ReadBit() returns (v: bit)
      requires Valid() && Bits() != []
      modifies this, manager
      ensures Valid() && old(Bits()) == [v] + Bits()
    {
      ghost var bits := Bits();
      hide BitsOf;
      if cbLeft == 0 {
        cb := manager.Read1Bytes();
        cbLeft := 8;
        assert Bits() == bits;
      }
      TopBit(cb, cbLeft);
      v := cb / Pow2(cbLeft - 1) % 2;
      cbLeft := cbLeft - 1;
    }

    /** The first loop: bits up to and including the first 1, or to the end. */
    method ReadPrefix() returns (leadingZeroBits: int)
      requires Valid() && Bits() != []
      modifies this, manager
      ensures Valid()
      ensures leadingZeroBits == PrefixLength(old(Bits())) - 1 >= 0
      ensures Bits() == old(Bits())[leadingZeroBits + 1..]
    {
      hide Bits;
      ghost var bits := Bits();
      var empty, b: bit := false, 0;
      leadingZeroBits := -1;
      while b == 0 && !empty
        invariant Valid() && empty == (Bits() == [])
        invariant 0 <= leadingZeroBits + 1 <= |bits| && Bits() == bits[leadingZeroBits + 1..]
        invariant forall i | 0 <= i < leadingZeroBits :: bits[i] == 0
        invariant b == if leadingZeroBits < 0 then 0 else bits[leadingZeroBits]
        decreases |Bits()|
      {
        b := ReadBit();
        leadingZeroBits := leadingZeroBits + 1;
        empty := Empty();
      }
      PrefixEndsAt(bits, leadingZeroBits + 1);
    }

    /** The second loop; `ok` is false where the source's assertion on the next bit fails. */
    method ReadSuffix(size: nat) returns (ok: bool, v: nat)
      requires Valid()
      modifies this, manager
      ensures Valid() && ok == (size <= old(|Bits()|))
      ensures ok ==> v == Pow2(size) - 1 + FromBits(old(Bits())[..size]) && Bits() == old(Bits())[size..]
    {
      hide Bits, FromBits, Pow2;
      ghost var bits := Bits();
      v := Pow2(size) - 1;
      NoBits(size);
      for i := 0 to size
        invariant Valid() && i <= |bits| && Bits() == bits[i..]
        invariant v == Pow2(size) - 1 + FromBits(bits[..i]) * Pow2(size - i)
      {
        var empty := Empty();
        if empty {
          return false, 0;
        }
        ghost var before := Bits();
        var b := ReadBit();
        assert before[1..] == Bits() && before[0] == b == bits[i];
        assert bits[..i + 1] == bits[..i] + [b];
        AppendBit(bits[..i], b, size - i);
        v := v + b * Pow2(size - i - 1);
      }
      ok := true;
    }

    /**
     * avc_read_uev. Aborted stands for the assertion that fails when suffix bits are missing, and
     * Undefined for the shift into the sign bit of a 32-bit integer.
     */
    method ReadUev() returns (r: UevResult)
      requires Valid()
      modifies this, manager
      ensures Valid()
      ensures var u := Uev(old(Bits()));
              r == u.0 && (r.Value? ==> Bits() == u.1)
    {
      hide Bits, FromBits, Pow2, PrefixLength;
      ghost var bits := Bits();
      var empty := Empty();
      if empty {
        return EmptyError;
      }
      var leadingZeroBits := ReadPrefix();
      if leadingZeroBits > 31 {
        return EmptyError;
      }
      if leadingZeroBits == 31 {
        return Undefined;
      }
      var ok, v := ReadSuffix(leadingZeroBits);
      ghost var n := leadingZeroBits + 1;
      if n + leadingZeroBits <= |bits| {
        assert bits[n..][..leadingZeroBits] == bits[n..n + leadingZeroBits];
        assert bits[n..][leadingZeroBits..] == bits[n + leadingZeroBits..];
      }
      r := if ok then Value(v) else Aborted;
    }
  }

  datatype UevResult = Value(v: nat) | EmptyError | Aborted | Undefined

  lemma NoBits(n: nat)
    ensures FromBits([]) * Pow2(n) == 0 && Pow2(n) >= 1 && Pow2(0) == 1
  {
  }

  lemma AppendBit(s: seq<bit>, b: bit, n: nat)
    requires n > 0
    ensures FromBits(s + [b]) * Pow2(n - 1) == FromBits(s) * Pow2(n) + b * Pow2(n - 1)
  {
    assert (s + [b])[..|s|] == s;
    var f, p := FromBits(s), Pow2(n - 1);
    assert (2 * f + b) * p == f * (2 * p) + b * p;
  }

  /** How many bits the prefix takes: up to and including the first 1, or all of them. */
  function PrefixLength(bits: seq<bit>): (n: nat)
    ensures n <= |bits|
  {
    if bits == [] then 0 else if bits[0] == 1 then 1 else 1 + PrefixLength(bits[1..])
  }

  /** What the decoder returns, and the bits it leaves. */
  function Uev(bits: seq<bit>): (UevResult, seq<bit>) {
    if bits == [] then (EmptyError, []) else
    var n := PrefixLength(bits);
    var zeros: nat := n - 1;
    if zeros > 31 then (EmptyError, bits[n..])
    else if zeros == 31 then (Undefined, bits[n..])
    else if |bits| - n < zeros then (Aborted, [])
    else (Value(Pow2(zeros) - 1 + FromBits(bits[n..n + zeros])), bits[n + zeros..])
  }

  lemma {:induction false} PrefixEndsAt(bits: seq<bit>, n: nat)
    requires 0 < n <= |bits|
    requires forall i | 0 <= i < n - 1 :: bits[i] == 0
    requires bits[n - 1] == 1 || n == |bits|
    ensures PrefixLength(bits) == n
  {
    if n > 1 {
      PrefixEndsAt(bits[1..], n - 1);
    } else if bits[0] != 1 {
      assert bits[1..] == [];
    }
  }

  // ---------- the code itself ----------

  function Log2(n: nat): (k: nat)
    requires n > 0
    ensures Pow2(k) <= n < Pow2(k + 1)
  {
    if n == 1 then 0 else 1 + Log2(n / 2)
  }

  function Zeros(n: nat): (s: seq<bit>)
    ensures |s| == n && forall i | 0 <= i < n :: s[i] == 0
  {
    if n == 0 then [] else Zeros(n - 1) + [0]
  }

  /** ue(v): as many zeros as k + 1 has bits behind its leading one, then k + 1. */
  function UeCode(k: nat): (s: seq<bit>)
    ensures |s| == 2 * Log2(k + 1) + 1
  {
    Zeros(Log2(k + 1)) + BitsOf(k + 1, Log2(k + 1) + 1)
  }

  lemma TopBitIsOne(v: nat, n: nat)
    requires Pow2(n) <= v < Pow2(n + 1)
    ensures BitsOf(v, n + 1) == [1] + BitsOf(v - Pow2(n), n)
  {
    TopBit(v, n + 1);
    var p := Pow2(n);
    assert v == p * 1 + (v - p);
    DivUnique(v, p, 1, v - p);
    LowBits(v, n);
  }

  /** The low n bits do not see a bit above them. */
  lemma {:induction false} LowBits(v: nat, n: nat)
    requires v >= Pow2(n)
    ensures BitsOf(v, n) == BitsOf(v - Pow2(n), n)
  {
    if n > 0 {
      var h := Pow2(n - 1);
      assert (v - 2 * h) / 2 == v / 2 - h && (v - 2 * h) % 2 == v % 2;
      LowBits(v / 2, n - 1);
    }
  }

  /**
   * Every k below 2^31 - 1 is read back from its code, whatever follows and wherever the code
   * starts, and the code is consumed exactly; no larger k is.
   */
  lemma UevInvertsUeCode(k: nat, rest: seq<bit>)
    ensures Uev(UeCode(k) + rest) == (Value(k), rest) <==> k < 0x7fff_ffff
  {
    hide UeCode, Uev, Log2, Pow2;
    var n := Log2(k + 1);
    CodeReads(k, rest);
    Pow2Of31();
    if n <= 30 {
      Pow2Monotonic(n + 1, 31);
    } else {
      Pow2Monotonic(31, n);
    }
  }

  /** The decoder takes up to 30 leading zeros. */
  lemma CodeReads(k: nat, rest: seq<bit>)
    ensures var n, u := Log2(k + 1), Uev(UeCode(k) + rest);
            if n <= 30 then u == (Value(k), rest) else !u.0.Value?
  {
    hide UeCode, Log2, Pow2, BitsOf, PrefixLength, FromBits;
    var n := Log2(k + 1);
    CodeLayout(k, rest);
    BitsRoundTrip(k + 1 - Pow2(n), n) by {
      LowPart(k + 1);
    }
  }

  lemma LowPart(v: nat)
    requires v > 0
    ensures 0 <= v - Pow2(Log2(v)) < Pow2(Log2(v))
  {
    assert Pow2(Log2(v) + 1) == 2 * Pow2(Log2(v));
  }

  lemma CodeLayout(k: nat, rest: seq<bit>)
    ensures var n := Log2(k + 1);
            var bits := UeCode(k) + rest;
            && |bits| == 2 * n + 1 + |rest| && PrefixLength(bits) == n + 1
            && bits[n + 1..n + 1 + n] == BitsOf(k + 1 - Pow2(n), n) && bits[n + 1 + n..] == rest
  {
    hide BitsOf, Log2, Pow2;
    var n := Log2(k + 1);
    TopBitIsOne(k + 1, n);
    var bits, low := UeCode(k) + rest, BitsOf(k + 1 - Pow2(n), n);
    assert bits == Zeros(n) + [1] + low + rest;
    assert bits[n] == 1;
    PrefixEndsAt(bits, n + 1);
  }

  lemma {:induction false} Pow2Add(a: nat, b: nat)
    ensures Pow2(a + b) == Pow2(a) * Pow2(b)
  {
    if b > 0 {
      Pow2Add(a, b - 1);
      assert Pow2(a) * (2 * Pow2(b - 1)) == 2 * (Pow2(a) * Pow2(b - 1));
    }
  }

  lemma Pow2Of31()
    ensures Pow2(31) == 0x8000_0000
  {
    assert Pow2(8) == 0x100 && Pow2(7) == 0x80;
    Pow2Add(8, 8);
    Pow2Add(16, 8);
    Pow2Add(24, 7);
  }

  lemma {:induction false} Pow2Monotonic(a: nat, b: nat)
    requires a <= b
    ensures Pow2(a) <= Pow2(b)
  {
    if a < b {
      Pow2Monotonic(a, b - 1);
    }
  }

  // ---------- every bit string ----------

  /** Shifting in more bits. */
  lemma {:induction false} FromBitsConcat(a: seq<bit>, b: seq<bit>)
    ensures FromBits(a + b) == FromBits(a) * Pow2(|b|) + FromBits(b)
  {
    hide FromBits, Pow2;
    if b == [] {
      NoBits(0);
      assert a + b == a && FromBits(a) * 1 == FromBits(a);
      assert FromBits(b) == 0 by {
        FromNoBits();
      }
    } else {
      var b', last := b[..|b| - 1], b[|b| - 1];
      FromBitsConcat(a, b');
      FromBitsAppend(a + b', last);
      FromBitsAppend(b', last);
      assert a + b == a + b' + [last] && b == b' + [last];
      Doubled(FromBits(a), |b'|);
    }
  }

  lemma FromNoBits()
    ensures FromBits([]) == 0
  {
  }

  lemma Doubled(f: nat, n: nat)
    ensures f * Pow2(n + 1) == 2 * (f * Pow2(n))
  {
    assert Pow2(n + 1) == 2 * Pow2(n);
  }

  lemma FromBitsAppend(s: seq<bit>, b: bit)
    ensures FromBits(s + [b]) == 2 * FromBits(s) + b
  {
    assert (s + [b])[..|s|] == s;
  }

  lemma {:induction false} AllBitsAppend(s: bytes, b: byte)
    ensures AllBits(s + [b]) == AllBits(s) + BitsOf(b, 8)
  {
    hide BitsOf;
    if s == [] {
      assert (s + [b])[1..] == [];
      assert BitsOf(b, 8) + [] == BitsOf(b, 8);
    } else {
      AllBitsAppend(s[1..], b);
      assert (s + [b])[1..] == s[1..] + [b] && (s + [b])[0] == s[0];
      Associate(BitsOf(s[0], 8), AllBits(s[1..]), BitsOf(b, 8));
    }
  }

  /** The bits of some bytes, most significant first, are the number the bytes are. */
  lemma {:induction false} BitsAreTheNumber(s: bytes)
    ensures FromBits(AllBits(s)) == FromBigEndian(s) && |AllBits(s)| == 8 * |s|
  {
    if s != [] {
      var first, b := s[..|s| - 1], s[|s| - 1];
      BitsAreTheNumber(first);
      assert s == first + [b];
      AllBitsAppend(first, b);
      assert Pow2(8) == 256;
      BitsRoundTrip(b, 8);
      FromBitsConcat(AllBits(first), BitsOf(b, 8));
    }
  }

  /**
   * Every bit string with a one in it, by its leading zeros: up to 30 and the suffix is there, the
   * value; suffix bits missing, the failed assertion; more, the errors.
   */
  lemma ReadsByLeadingZeros(zeros: nat, rest: seq<bit>)
    ensures var u := Uev(Zeros(zeros) + [1] + rest);
            if zeros > 31 then u.0 == EmptyError
            else if zeros == 31 then u.0 == Undefined
            else if |rest| < zeros then u.0 == Aborted
            else u == (Value(Pow2(zeros) - 1 + FromBits(rest[..zeros])), rest[zeros..])
  {
    hide FromBits, Pow2, Zeros, PrefixLength;
    var bits := Zeros(zeros) + [1] + rest;
    assert bits[zeros] == 1;
    PrefixEndsAt(bits, zeros + 1);
    AppendSplits(Zeros(zeros) + [1], rest);
    if |rest| >= zeros {
      assert bits[zeros + 1..zeros + 1 + zeros] == rest[..zeros];
      assert bits[zeros + 1 + zeros..] == rest[zeros..];
    }
  }

  /** Without a one: the last bit is taken for it, so that a single 0 reads as the value 0. */
  lemma ReadsZeros(n: nat)
    ensures var u := Uev(Zeros(n)).0;
            if n == 0 || n > 32 then u == EmptyError
            else if n == 1 then u == Value(0)
            else if n == 32 then u == Undefined
            else u == Aborted
  {
    if n > 0 {
      PrefixEndsAt(Zeros(n), n);
      assert n == 1 ==> Zeros(n)[1..1] == [];
    }
    hide PrefixLength;
  }
}
