/** CRC-16/CCITT-FALSE as `oomwoo_crc16_ccitt_false` computes it, one bit at a time. The
    16-bit register is held as its bits, most significant first, so that a shift, a mask
    of the top bit and an exclusive or are what they are on the wire polynomial. */
module Crc {
  import opened Bytes

  const ZERO_BYTE: seq<bool> := [false, false, false, false, false, false, false, false]
  const ONES_BYTE: seq<bool> := [true, true, true, true, true, true, true, true]

  type Register = r: seq<bool> | |r| == 16 witness ZERO_BYTE + ZERO_BYTE

  const ZERO: Register := ZERO_BYTE + ZERO_BYTE
  const PRESET: Register := ONES_BYTE + ONES_BYTE

  /** 0x1021, that is x^12 + x^5 + 1; the x^16 term is the bit shifted out. */
  const POLYNOMIAL: Register :=
    [false, false, false, true, false, false, false, false,
     false, false, true, false, false, false, false, true]

  lemma PolynomialIs0x1021()
    ensures Value(POLYNOMIAL) == 0x1021
  {
    hide FromBits;
    var high, low := POLYNOMIAL[..8], POLYNOMIAL[8..];
    FromEightBits(high);
    FromEightBits(low);
    PowersOfTwo();
    assert POLYNOMIAL == high + low;
    FromBitsConcat(high, low);
  }

  function ShiftLeft(r: Register): Register {
    r[1..] + [false]
  }

  function BitStep(r: Register): Register {
    if r[0] then Xor(ShiftLeft(r), POLYNOMIAL) else ShiftLeft(r)
  }

  function BitSteps(r: Register, n: nat): Register {
    if n == 0 then r else BitStep(BitSteps(r, n - 1))
  }

  /** A byte moved into the upper half of a register, as `data[index] << 8`. */
  function Upper(b: byte): Register {
    ByteBits(b) + ZERO_BYTE
  }

  function ByteStep(r: Register, b: byte): Register {
    BitSteps(Xor(r, Upper(b)), 8)
  }

  function CrcFrom(r: Register, data: seq<byte>): Register {
    if data == [] then r
    else ByteStep(CrcFrom(r, data[..|data| - 1]), data[|data| - 1])
  }

  function Checksum(data: seq<byte>): Register {
    CrcFrom(PRESET, data)
  }

  /** The register as the 16-bit value that the C function returns. */
  function Value(r: Register): uint16 {
    PowersOfTwo();
    FromBits(r)
  }

  lemma ValueInjective(r: Register, s: Register)
    requires Value(r) == Value(s)
    ensures r == s
  {
    ToFromBits(r);
    ToFromBits(s);
  }

  /** The value in little-endian order is the low half of the register, then the high half. */
  lemma ValueBytes(r: Register)
    ensures WriteU16(Value(r)) == [FromBits(r[8..]), FromBits(r[..8])]
    ensures ByteBits(WriteU16(Value(r))[0]) == r[8..]
    ensures ByteBits(WriteU16(Value(r))[1]) == r[..8]
  {
    hide FromBits, ToBits;
    PowersOfTwo();
    assert r == r[..8] + r[8..];
    FromBitsConcat(r[..8], r[8..]);
    ToFromBits(r[..8]);
    ToFromBits(r[8..]);
  }

  method Crc16(data: array<byte>, length: nat) returns (crc: Register)
    requires length <= data.Length
    ensures crc == Checksum(data[..length])
  {
    crc := PRESET;
    for index := 0 to length
      invariant crc == Checksum(data[..index])
    {
      assert data[..index + 1][..index] == data[..index];
      crc := Xor(crc, Upper(data[index]));
      ghost var start := crc;
      for bit := 0 to 8
        invariant crc == BitSteps(start, bit)
      {
        if crc[0] {
          crc := Xor(ShiftLeft(crc), POLYNOMIAL);
        } else {
          crc := ShiftLeft(crc);
        }
      }
    }
  }

  // ---- composition, linearity and injectivity ----

  lemma ChecksumExtends(s: seq<byte>, i: nat)
    requires i < |s|
    ensures Checksum(s[..i + 1]) == ByteStep(Checksum(s[..i]), s[i])
  {
    assert s[..i + 1][..i] == s[..i];
  }

  lemma {:induction false} CrcComposes(r: Register, a: seq<byte>, b: seq<byte>)
    ensures CrcFrom(r, a + b) == CrcFrom(CrcFrom(r, a), b)
    decreases |b|
  {
    if b == [] {
      assert a + b == a;
    } else {
      var front := b[..|b| - 1];
      assert (a + b)[..|a + b| - 1] == a + front;
      CrcComposes(r, a, front);
    }
  }

  lemma BitStepLinear(a: Register, b: Register)
    ensures BitStep(Xor(a, b)) == Xor(BitStep(a), BitStep(b))
  {
  }

  lemma {:induction false} BitStepsLinear(a: Register, b: Register, n: nat)
    ensures BitSteps(Xor(a, b), n) == Xor(BitSteps(a, n), BitSteps(b, n))
  {
    if n == 0 {
    } else {
      BitStepsLinear(a, b, n - 1);
      BitStepLinear(BitSteps(a, n - 1), BitSteps(b, n - 1));
    }
  }

  lemma ByteStepLinear(r: Register, s: Register, a: byte, b: byte)
    ensures ByteStep(Xor(r, s), XorByte(a, b)) == Xor(ByteStep(r, a), ByteStep(s, b))
  {
    XorByteBits(a, b);
    assert Xor(Xor(r, s), Upper(XorByte(a, b))) == Xor(Xor(r, Upper(a)), Xor(s, Upper(b)));
    BitStepsLinear(Xor(r, Upper(a)), Xor(s, Upper(b)), 8);
  }

  lemma {:induction false} CrcLinear(r: Register, s: Register, a: seq<byte>, b: seq<byte>)
    requires |a| == |b|
    ensures CrcFrom(Xor(r, s), XorBytes(a, b)) == Xor(CrcFrom(r, a), CrcFrom(s, b))
    decreases |a|
  {
    if a == [] {
    } else {
      var n := |a| - 1;
      CrcLinear(r, s, a[..n], b[..n]);
      assert XorBytes(a, b)[..n] == XorBytes(a[..n], b[..n]);
      ByteStepLinear(CrcFrom(r, a[..n]), CrcFrom(s, b[..n]), a[n], b[n]);
    }
  }

  /** The checksum is affine: the preset survives an odd number of terms. */
  lemma ChecksumAffine(a: seq<byte>, b: seq<byte>, c: seq<byte>)
    requires |a| == |b| == |c|
    ensures Checksum(XorBytes(XorBytes(a, b), c)) == Xor(Xor(Checksum(a), Checksum(b)), Checksum(c))
  {
    CrcLinear(PRESET, PRESET, a, b);
    CrcLinear(Xor(PRESET, PRESET), PRESET, XorBytes(a, b), c);
    assert Xor(Xor(PRESET, PRESET), PRESET) == PRESET;
  }

  /** The bit shifted out can be read back from the last bit, because the polynomial has a
      constant term. */
  lemma BitStepInjective(a: Register, b: Register)
    requires BitStep(a) == BitStep(b)
    ensures a == b
  {
    assert BitStep(a)[15] == a[0] && BitStep(b)[15] == b[0];
    forall i | 1 <= i < 16 ensures a[i] == b[i] {
      assert BitStep(a)[i - 1] == (a[i] != (a[0] && POLYNOMIAL[i - 1]));
      assert BitStep(b)[i - 1] == (b[i] != (b[0] && POLYNOMIAL[i - 1]));
    }
  }

  lemma {:induction false} BitStepsInjective(a: Register, b: Register, n: nat)
    requires BitSteps(a, n) == BitSteps(b, n)
    ensures a == b
  {
    if n == 0 {
    } else {
      BitStepInjective(BitSteps(a, n - 1), BitSteps(b, n - 1));
      BitStepsInjective(a, b, n - 1);
    }
  }

  lemma XorCancels(a: seq<bool>, b: seq<bool>, c: seq<bool>)
    requires |a| == |b| == |c|
    requires Xor(a, c) == Xor(b, c)
    ensures a == b
  {
    forall i | 0 <= i < |a| ensures a[i] == b[i] {
      assert Xor(a, c)[i] == Xor(b, c)[i];
    }
  }

  /** One byte step is injective in the register and, the register fixed, in the byte. */
  lemma ByteStepInjective(r: Register, s: Register, a: byte, b: byte)
    requires ByteStep(r, a) == ByteStep(s, b)
    requires r == s || a == b
    ensures r == s && a == b
  {
    BitStepsInjective(Xor(r, Upper(a)), Xor(s, Upper(b)), 8);
    if a == b {
      XorCancels(r, s, Upper(a));
    } else {
      forall i | 0 <= i < 8 ensures ByteBits(a)[i] == ByteBits(b)[i] {
        assert Xor(r, Upper(a))[i] == Xor(s, Upper(b))[i];
      }
      ByteBitsInjective(a, b);
    }
  }

  lemma {:induction false} CrcInjective(r: Register, s: Register, data: seq<byte>)
    requires CrcFrom(r, data) == CrcFrom(s, data)
    ensures r == s
    decreases |data|
  {
    if data == [] {
    } else {
      var n := |data| - 1;
      ByteStepInjective(CrcFrom(r, data[..n]), CrcFrom(s, data[..n]), data[n], data[n]);
      CrcInjective(r, s, data[..n]);
    }
  }

  /** While the top bits are clear nothing is fed back and the register only shifts. */
  lemma {:induction false} ClearTopShifts(r: Register, n: nat)
    requires n <= 16
    requires forall j :: 0 <= j < n ==> !r[j]
    ensures forall i :: 0 <= i < 16 ==> BitSteps(r, n)[i] == (i + n < 16 && r[i + n])
  {
    if n == 0 {
    } else {
      ClearTopShifts(r, n - 1);
    }
  }

  lemma LowerMovesUp(low: seq<bool>)
    requires |low| == 8
    ensures BitSteps(ZERO_BYTE + low, 8) == low + ZERO_BYTE
  {
    ClearTopShifts(ZERO_BYTE + low, 8);
  }

  /** Two byte steps are sixteen shifts of the register XORed with both bytes, so together
      they are injective in the pair of bytes. */
  lemma TwoBytesInjective(r: Register, a: byte, b: byte, c: byte, d: byte)
    requires ByteStep(ByteStep(r, a), b) == ByteStep(ByteStep(r, c), d)
    ensures a == c && b == d
  {
    var p, q := Xor(r, Upper(a)), Xor(r, Upper(c));
    var low, low': Register := ZERO_BYTE + ByteBits(b), ZERO_BYTE + ByteBits(d);
    BitStepsInjective(Xor(BitSteps(p, 8), Upper(b)), Xor(BitSteps(q, 8), Upper(d)), 8);
    LowerMovesUp(ByteBits(b));
    LowerMovesUp(ByteBits(d));
    BitStepsLinear(p, low, 8);
    BitStepsLinear(q, low', 8);
    BitStepsInjective(Xor(p, low), Xor(q, low'), 8);
    forall i | 0 <= i < 8
      ensures ByteBits(a)[i] == ByteBits(c)[i] && ByteBits(b)[i] == ByteBits(d)[i]
    {
      assert Xor(p, low)[i] == Xor(q, low')[i];
      assert Xor(p, low)[8 + i] == Xor(q, low')[8 + i];
    }
    ByteBitsInjective(a, c);
    ByteBitsInjective(b, d);
  }

  /** Feeding the checksum back, high byte first, clears the register. */
  lemma ResidueIsZero(data: seq<byte>)
    ensures var le := WriteU16(Value(Checksum(data)));
            Checksum(data + [le[1], le[0]]) == ZERO
  {
    var crc := Checksum(data);
    var le := WriteU16(Value(crc));
    ValueBytes(crc);
    CrcComposes(PRESET, data, [le[1], le[0]]);
    assert [le[1], le[0]][..1] == [le[1]] && [le[1]][..0] == [];
    assert CrcFrom(crc, [le[1]]) == ByteStep(CrcFrom(crc, []), le[1]);
    OwnHalvesClear(crc, le[1], le[0]);
  }

  lemma OwnHalvesClear(crc: Register, high: byte, low: byte)
    requires ByteBits(high) == crc[..8] && ByteBits(low) == crc[8..]
    ensures ByteStep(ByteStep(crc, high), low) == ZERO
  {
    assert Xor(crc, Upper(high)) == ZERO_BYTE + crc[8..];
    LowerMovesUp(crc[8..]);
    assert Xor(crc[8..] + ZERO_BYTE, Upper(low)) == ZERO;
    LowerMovesUp(ZERO_BYTE);
  }

  // ---- the one blind spot: a burst across the last covered byte and the low CRC byte ----

  /** One step, position by position: what is fed back lands on 3, 10 and 15. */
  lemma StepAt(r: Register, i: nat)
    requires i < 16
    ensures BitStep(r)[i] == ((i < 15 && r[i + 1]) != (r[0] && i in {3, 10, 15}))
  {
  }

  /** In four steps no fed-back bit reaches the top again. */
  lemma FourStepsAt(r: Register, i: nat)
    requires i < 16
    ensures BitSteps(r, 4)[i] ==
            ((i < 12 && r[i + 4]) !=
             ((i < 4 && r[i]) || (7 <= i < 11 && r[i - 7]) || (12 <= i && r[i - 12])))
  {
    var r1 := BitStep(r);
    var r2 := BitStep(r1);
    var r3 := BitStep(r2);
    assert BitSteps(r, 1) == r1;
    assert BitSteps(r, 2) == r2;
    assert BitSteps(r, 3) == r3;
    assert r1[0] == r[1] && r2[0] == r1[1] == r[2] && r3[0] == r2[1] == r1[2] == r[3];
    StepAt(r3, i);
    if i < 15 { StepAt(r2, i + 1); }
    if i < 14 { StepAt(r1, i + 2); }
    if i < 13 { StepAt(r, i + 3); }
  }

  lemma {:induction false} BitStepsCompose(r: Register, m: nat, n: nat)
    ensures BitSteps(r, m + n) == BitSteps(BitSteps(r, m), n)
  {
    if n == 0 {
    } else {
      BitStepsCompose(r, m, n - 1);
    }
  }

  const BLIND_COVERED: seq<bool> := [true, false, false, false, true, false, false, true]
  const BLIND_CRC: seq<bool> := [true, false, true, false, false, false, false, true]

  lemma BlindValues()
    ensures FromBits(BLIND_COVERED) == 0x89 && ByteBits(0x89) == BLIND_COVERED
    ensures FromBits(BLIND_CRC) == 0xa1 && ByteBits(0xa1) == BLIND_CRC
  {
    hide FromBits, ToBits;
    FromEightBits(BLIND_COVERED);
    FromEightBits(BLIND_CRC);
    ToFromBits(BLIND_COVERED);
    ToFromBits(BLIND_CRC);
  }

  /** A difference in the upper half of a register, four steps on. */
  lemma FourStepsFromUpper(d: seq<bool>, r: Register)
    requires |d| == 8 && r == d + ZERO_BYTE
    ensures var s := BitSteps(r, 4);
            && s[0] == (d[4] != d[0]) && s[1] == (d[5] != d[1])
            && s[2] == (d[6] != d[2]) && s[3] == (d[7] != d[3])
            && !s[4] && !s[5] && !s[6] && s[7] == d[0]
  {
    hide BitSteps;
    FourStepsAt(r, 0); FourStepsAt(r, 1); FourStepsAt(r, 2); FourStepsAt(r, 3);
    FourStepsAt(r, 4); FourStepsAt(r, 5); FourStepsAt(r, 6); FourStepsAt(r, 7);
  }

  lemma FourStepsFromUpperLow(d: seq<bool>, r: Register)
    requires |d| == 8 && r == d + ZERO_BYTE
    ensures var s := BitSteps(r, 4);
            && s[8] == d[1] && s[9] == d[2] && s[10] == d[3] && !s[11]
            && s[12] == d[0] && s[13] == d[1] && s[14] == d[2] && s[15] == d[3]
  {
    hide BitSteps;
    FourStepsAt(r, 8); FourStepsAt(r, 9); FourStepsAt(r, 10); FourStepsAt(r, 11);
    FourStepsAt(r, 12); FourStepsAt(r, 13); FourStepsAt(r, 14); FourStepsAt(r, 15);
  }

  /** And eight steps on, the high half and the low half. */
  lemma HighHalfAfterEight(d: seq<bool>, r4: Register)
    requires |d| == 8 && r4 == BitSteps(d + ZERO_BYTE, 4)
    ensures var s := BitSteps(r4, 4);
            && s[0] == (d[4] != d[0]) && s[1] == (d[5] != d[1])
            && s[2] == (d[6] != d[2]) && s[3] == (d[0] != (d[7] != d[3]))
            && s[4] == d[1] && s[5] == d[2] && s[6] == d[3] && s[7] == (d[4] != d[0])
  {
    hide BitSteps;
    FourStepsFromUpper(d, d + ZERO_BYTE);
    FourStepsFromUpperLow(d, d + ZERO_BYTE);
    FourStepsAt(r4, 0); FourStepsAt(r4, 1); FourStepsAt(r4, 2); FourStepsAt(r4, 3);
    FourStepsAt(r4, 4); FourStepsAt(r4, 5); FourStepsAt(r4, 6); FourStepsAt(r4, 7);
  }

  lemma HighHalfClear(d: seq<bool>, h: seq<bool>)
    requires |d| == |h| == 8
    requires h[0] == (d[4] != d[0]) && h[1] == (d[5] != d[1])
    requires h[2] == (d[6] != d[2]) && h[3] == (d[0] != (d[7] != d[3]))
    requires h[4] == d[1] && h[5] == d[2] && h[6] == d[3] && h[7] == (d[4] != d[0])
    ensures h == ZERO_BYTE <==> d == ZERO_BYTE || d == BLIND_COVERED
  {
    if d == ZERO_BYTE || d == BLIND_COVERED {
      assert h == ZERO_BYTE;
    }
    if h == ZERO_BYTE {
      assert d == [d[0], false, false, false, d[0], false, false, d[0]];
    }
  }

  lemma LowHalfAfterEight(d: seq<bool>, r4: Register)
    requires d == BLIND_COVERED && r4 == BitSteps(d + ZERO_BYTE, 4)
    ensures BitSteps(r4, 4)[8..] == BLIND_CRC
  {
    hide BitSteps;
    FourStepsFromUpper(d, d + ZERO_BYTE);
    FourStepsFromUpperLow(d, d + ZERO_BYTE);
    FourStepsAt(r4, 8); FourStepsAt(r4, 9); FourStepsAt(r4, 10); FourStepsAt(r4, 11);
    FourStepsAt(r4, 12); FourStepsAt(r4, 13); FourStepsAt(r4, 14); FourStepsAt(r4, 15);
  }

  /** A difference `d` in one byte leaves the high half of the register alone only when it
      is 0 or 0x89, and 0x89 flips 0xa1 in the low half. The number of steps is a parameter
      only so that the verifier does not unfold all eight of them here. */
  lemma HighHalfKernel(d: seq<bool>, steps: nat, r: Register)
    requires |d| == 8 && steps == 8 && r == BitSteps(d + ZERO_BYTE, steps)
    ensures r[..8] == ZERO_BYTE <==> d == ZERO_BYTE || d == BLIND_COVERED
    ensures d == BLIND_COVERED ==> r[8..] == BLIND_CRC
  {
    hide BitSteps;
    var half := steps / 2;
    var r4 := BitSteps(d + ZERO_BYTE, half);
    BitStepsCompose(d + ZERO_BYTE, half, half);
    HighHalfAfterEight(d, r4);
    HighHalfClear(d, r[..8]);
    if d == BLIND_COVERED {
      LowHalfAfterEight(d, r4);
    }
  }
}
