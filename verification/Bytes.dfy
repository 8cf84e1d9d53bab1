/** Bytes, fixed-width integers, the little-endian readers and writers that the wire
    protocol is built from, and the bits of a byte, which the checksum works on. */
module Bytes {
  type byte = n: nat | n < 0x100
  type uint16 = n: nat | n < 0x1_0000
  type uint32 = n: nat | n < 0x1_0000_0000
  type int16 = n: int | -0x8000 <= n < 0x8000
  type int32 = n: int | -0x8000_0000 <= n < 0x8000_0000

  const UINT16_MAX: uint16 := 0xffff
  const UINT32_MAX: uint32 := 0xffff_ffff
  const INT16_MAX := 0x7fff
  const INT32_MAX := 0x7fff_ffff

  datatype Result<+T, +E> = Ok(value: T) | Err(error: E)

  /** Counters are 32 bits wide and wrap: `Wrap32` is what such a counter shows of a true
      total. */
  function Wrap32(n: nat): uint32 {
    n % 0x1_0000_0000
  }

  lemma Wrap32Adds(a: nat, b: nat)
    ensures Wrap32(Wrap32(a) + b) == Wrap32(a + b)
  {
  }

  // ---- reading ----

  function ReadU16(lo: byte, hi: byte): uint16 {
    lo + 0x100 * hi
  }

  function ReadU32(b0: byte, b1: byte, b2: byte, b3: byte): uint32 {
    b0 + 0x100 * b1 + 0x1_0000 * b2 + 0x100_0000 * b3
  }

  /** Two's complement without a conversion that could overflow: on the negative branch
      `UINT16_MAX - value` fits in 15 bits, so negating it and subtracting one stays in
      range. The types of `magnitude` and of the result are the proof obligations. */
  function ReadI16(lo: byte, hi: byte): int16 {
    var value := ReadU16(lo, hi);
    if value <= INT16_MAX then value
    else
      var magnitude: int16 := UINT16_MAX - value;
      -magnitude - 1
  }

  function ReadI32(b0: byte, b1: byte, b2: byte, b3: byte): int32 {
    var value := ReadU32(b0, b1, b2, b3);
    if value <= INT32_MAX then value
    else
      var magnitude: int32 := UINT32_MAX - value;
      -magnitude - 1
  }

  // ---- writing ----

  function WriteU16(v: uint16): (s: seq<byte>)
    ensures |s| == 2
  {
    [v % 0x100, v / 0x100]
  }

  function WriteU32(v: uint32): (s: seq<byte>)
    ensures |s| == 4
  {
    [v % 0x100, v / 0x100 % 0x100, v / 0x1_0000 % 0x100, v / 0x100_0000]
  }

  /** A signed value is written as its residue, which is what the C cast to the unsigned
      type of the same width yields. */
  function WriteI16(v: int16): (s: seq<byte>)
    ensures |s| == 2
  {
    WriteU16(v % 0x1_0000)
  }

  function WriteI32(v: int32): (s: seq<byte>)
    ensures |s| == 4
  {
    WriteU32(v % 0x1_0000_0000)
  }

  method PutU16(output: array<byte>, at: nat, value: uint16)
    requires at + 2 <= output.Length
    modifies output
    ensures output[at] == WriteU16(value)[0] && output[at + 1] == WriteU16(value)[1]
    ensures forall i :: 0 <= i < output.Length && !(at <= i < at + 2) ==> output[i] == old(output[i])
  {
    output[at] := value % 0x100;
    output[at + 1] := value / 0x100;
  }

  method PutU32(output: array<byte>, at: nat, value: uint32)
    requires at + 4 <= output.Length
    modifies output
    ensures output[at] == WriteU32(value)[0] && output[at + 1] == WriteU32(value)[1]
    ensures output[at + 2] == WriteU32(value)[2] && output[at + 3] == WriteU32(value)[3]
    ensures forall i :: 0 <= i < output.Length && !(at <= i < at + 4) ==> output[i] == old(output[i])
  {
    output[at] := value % 0x100;
    output[at + 1] := value / 0x100 % 0x100;
    output[at + 2] := value / 0x1_0000 % 0x100;
    output[at + 3] := value / 0x100_0000;
  }

  // ---- reading inverts writing and writing inverts reading ----

  lemma U16RoundTrip(v: uint16)
    ensures ReadU16(WriteU16(v)[0], WriteU16(v)[1]) == v
  {
  }

  lemma U16Canonical(lo: byte, hi: byte)
    ensures WriteU16(ReadU16(lo, hi)) == [lo, hi]
  {
    var v := ReadU16(lo, hi);
    assert v % 0x100 == lo && v / 0x100 == hi;
  }

  lemma U32RoundTrip(v: uint32)
    ensures var s := WriteU32(v); ReadU32(s[0], s[1], s[2], s[3]) == v
  {
    assert v / 0x1_0000 == v / 0x100 / 0x100;
    assert v / 0x100_0000 == v / 0x1_0000 / 0x100;
  }

  lemma U32Canonical(b0: byte, b1: byte, b2: byte, b3: byte)
    ensures WriteU32(ReadU32(b0, b1, b2, b3)) == [b0, b1, b2, b3]
  {
    var v := ReadU32(b0, b1, b2, b3);
    assert v % 0x100 == b0;
    assert v / 0x100 == b1 + 0x100 * b2 + 0x1_0000 * b3;
    assert v / 0x1_0000 == b2 + 0x100 * b3;
    assert v / 0x100_0000 == b3;
  }

  lemma I16RoundTrip(v: int16)
    ensures ReadI16(WriteI16(v)[0], WriteI16(v)[1]) == v
  {
    U16RoundTrip(v % 0x1_0000);
  }

  lemma I16Canonical(lo: byte, hi: byte)
    ensures WriteI16(ReadI16(lo, hi)) == [lo, hi]
  {
    assert ReadI16(lo, hi) % 0x1_0000 == ReadU16(lo, hi);
    U16Canonical(lo, hi);
  }

  lemma I32RoundTrip(v: int32)
    ensures var s := WriteI32(v); ReadI32(s[0], s[1], s[2], s[3]) == v
  {
    U32RoundTrip(v % 0x1_0000_0000);
  }

  lemma I32Canonical(b0: byte, b1: byte, b2: byte, b3: byte)
    ensures WriteI32(ReadI32(b0, b1, b2, b3)) == [b0, b1, b2, b3]
  {
    assert ReadI32(b0, b1, b2, b3) % 0x1_0000_0000 == ReadU32(b0, b1, b2, b3);
    U32Canonical(b0, b1, b2, b3);
  }

  // ---- bits, most significant first ----

  function Pow2(w: nat): (p: nat)
    ensures p > 0
  {
    if w == 0 then 1 else 2 * Pow2(w - 1)
  }

  function ToBits(n: nat, width: nat): (s: seq<bool>)
    ensures |s| == width
  {
    if width == 0 then [] else ToBits(n / 2, width - 1) + [n % 2 == 1]
  }

  function FromBits(s: seq<bool>): (n: nat)
    ensures n < Pow2(|s|)
  {
    if s == [] then 0
    else 2 * FromBits(s[..|s| - 1]) + if s[|s| - 1] then 1 else 0
  }

  lemma {:induction false} FromToBits(n: nat, width: nat)
    requires n < Pow2(width)
    ensures FromBits(ToBits(n, width)) == n
  {
    if width == 0 {
    } else {
      FromToBits(n / 2, width - 1);
      assert ToBits(n, width)[..width - 1] == ToBits(n / 2, width - 1);
    }
  }

  lemma {:induction false} ToFromBits(s: seq<bool>)
    ensures ToBits(FromBits(s), |s|) == s
  {
    if s == [] {
    } else {
      ToFromBits(s[..|s| - 1]);
    }
  }

  lemma Doubling(high: nat, weight: nat)
    ensures high * (2 * weight) == 2 * (high * weight)
  {
  }

  lemma {:induction false} FromBitsConcat(a: seq<bool>, b: seq<bool>)
    ensures FromBits(a + b) == FromBits(a) * Pow2(|b|) + FromBits(b)
    decreases |b|
  {
    if b == [] {
      assert a + b == a;
    } else {
      var front := b[..|b| - 1];
      assert (a + b)[..|a + b| - 1] == a + front;
      FromBitsConcat(a, front);
      Doubling(FromBits(a), Pow2(|front|));
      assert Pow2(|b|) == 2 * Pow2(|front|);
      assert FromBits(a + b) == 2 * FromBits(a + front) + if b[|b| - 1] then 1 else 0;
    }
  }

  lemma FromBitsExtends(s: seq<bool>, k: nat)
    requires k < |s|
    ensures FromBits(s[..k + 1]) == 2 * FromBits(s[..k]) + if s[k] then 1 else 0
  {
    assert s[..k + 1][..k] == s[..k];
  }

  function Weight(b: bool, w: nat): nat {
    if b then w else 0
  }

  lemma FromFourBits(s: seq<bool>)
    requires |s| == 4
    ensures FromBits(s) ==
            Weight(s[0], 8) + Weight(s[1], 4) + Weight(s[2], 2) + Weight(s[3], 1)
  {
    hide FromBits;
    FromNoBits(s[..0]);
    FromBitsExtends(s, 0);
    FromBitsExtends(s, 1);
    FromBitsExtends(s, 2);
    FromBitsExtends(s, 3);
    assert s[..4] == s;
  }

  /** Eight bits, written out. */
  lemma FromEightBits(s: seq<bool>)
    requires |s| == 8
    ensures FromBits(s) ==
            Weight(s[0], 0x80) + Weight(s[1], 0x40) + Weight(s[2], 0x20) + Weight(s[3], 0x10)
            + Weight(s[4], 8) + Weight(s[5], 4) + Weight(s[6], 2) + Weight(s[7], 1)
  {
    hide FromBits;
    FromFourBits(s[..4]);
    FromFourBits(s[4..]);
    assert s == s[..4] + s[4..];
    FromBitsConcat(s[..4], s[4..]);
    PowersOfTwo();
  }

  lemma FromNoBits(s: seq<bool>)
    requires s == []
    ensures FromBits(s) == 0
  {
  }

  /** Bitwise exclusive or. */
  function Xor(a: seq<bool>, b: seq<bool>): (c: seq<bool>)
    requires |a| == |b|
    ensures |c| == |a|
    ensures forall i :: 0 <= i < |a| ==> c[i] == (a[i] != b[i])
  {
    seq(|a|, i requires 0 <= i < |a| => a[i] != b[i])
  }

  lemma PowersOfTwo()
    ensures Pow2(4) == 0x10 && Pow2(8) == 0x100 && Pow2(16) == 0x1_0000
  {
    assert Pow2(4) == 16;
    assert Pow2(8) == 0x100;
    assert Pow2(12) == 0x1000;
  }

  function ByteBits(b: byte): (s: seq<bool>)
    ensures |s| == 8
  {
    ToBits(b, 8)
  }

  lemma ByteBitsInjective(a: byte, b: byte)
    requires ByteBits(a) == ByteBits(b)
    ensures a == b
  {
    PowersOfTwo();
    FromToBits(a, 8);
    FromToBits(b, 8);
  }

  function XorByte(a: byte, b: byte): byte {
    PowersOfTwo();
    FromBits(Xor(ByteBits(a), ByteBits(b)))
  }

  lemma XorByteBits(a: byte, b: byte)
    ensures ByteBits(XorByte(a, b)) == Xor(ByteBits(a), ByteBits(b))
  {
    ToFromBits(Xor(ByteBits(a), ByteBits(b)));
  }

  function XorBytes(a: seq<byte>, b: seq<byte>): (c: seq<byte>)
    requires |a| == |b|
    ensures |c| == |a|
    ensures forall i :: 0 <= i < |a| ==> c[i] == XorByte(a[i], b[i])
  {
    seq(|a|, i requires 0 <= i < |a| => XorByte(a[i], b[i]))
  }
}
