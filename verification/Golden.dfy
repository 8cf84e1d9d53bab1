/** One frame worked out to the last bit: the heartbeat that the repository's tests fix. It
    pins the byte order on the wire and the checksum to concrete values. */
module Golden {
  import opened Bytes
  import opened Crc
  import opened Frames
  import opened Messages

  type nibble = n: nat | n < 0x10

  /** The four hexadecimal digits of a register. */
  datatype Digits = H(a: nibble, b: nibble, c: nibble, d: nibble)

  function NibbleBits(n: nibble): (s: seq<bool>)
    ensures |s| == 4
  {
    if n == 0 then [false, false, false, false]
    else if n == 1 then [false, false, false, true]
    else if n == 2 then [false, false, true, false]
    else if n == 3 then [false, false, true, true]
    else if n == 4 then [false, true, false, false]
    else if n == 5 then [false, true, false, true]
    else if n == 6 then [false, true, true, false]
    else if n == 7 then [false, true, true, true]
    else if n == 8 then [true, false, false, false]
    else if n == 9 then [true, false, false, true]
    else if n == 10 then [true, false, true, false]
    else if n == 11 then [true, false, true, true]
    else if n == 12 then [true, true, false, false]
    else if n == 13 then [true, true, false, true]
    else if n == 14 then [true, true, true, false]
    else [true, true, true, true]
  }

  function Word(v: Digits): Register {
    (NibbleBits(v.a) + NibbleBits(v.b)) + (NibbleBits(v.c) + NibbleBits(v.d))
  }

  lemma NibbleValue(n: nibble)
    ensures FromBits(NibbleBits(n)) == n
  {
    hide FromBits;
    FromFourBits(NibbleBits(n));
  }

  lemma TwoNibbles(h: nibble, l: nibble)
    ensures FromBits(NibbleBits(h) + NibbleBits(l)) == 0x10 * h + l
    ensures ByteBits(0x10 * h + l) == NibbleBits(h) + NibbleBits(l)
  {
    hide FromBits, ToBits, NibbleBits;
    NibbleValue(h);
    NibbleValue(l);
    PowersOfTwo();
    FromBitsConcat(NibbleBits(h), NibbleBits(l));
    ToFromBits(NibbleBits(h) + NibbleBits(l));
  }

  lemma WordValue(v: Digits)
    ensures Value(Word(v)) == 0x1000 * v.a + 0x100 * v.b + 0x10 * v.c + v.d
  {
    hide FromBits, ToBits, NibbleBits;
    TwoNibbles(v.a, v.b);
    TwoNibbles(v.c, v.d);
    PowersOfTwo();
    FromBitsConcat(NibbleBits(v.a) + NibbleBits(v.b), NibbleBits(v.c) + NibbleBits(v.d));
  }

  /** Four register steps, on digits: the digits move up by one, and what the top digit feeds
      back is added. */
  predicate FourTo(v: Digits, w: Digits) {
    var p, q, r, s := NibbleBits(v.a), NibbleBits(v.b), NibbleBits(v.c), NibbleBits(v.d);
    var p', q', r', s' := NibbleBits(w.a), NibbleBits(w.b), NibbleBits(w.c), NibbleBits(w.d);
    && p'[0] == (q[0] != p[0]) && p'[1] == (q[1] != p[1]) && p'[2] == (q[2] != p[2]) && p'[3] == (q[3] != p[3])
    && q'[0] == r[0] && q'[1] == r[1] && q'[2] == r[2] && q'[3] == (r[3] != p[0])
    && r'[0] == (s[0] != p[1]) && r'[1] == (s[1] != p[2]) && r'[2] == (s[2] != p[3]) && r'[3] == s[3]
    && s' == p
  }

  /** A byte XORed into the two top digits. */
  predicate XorInto(v: Digits, h: nibble, l: nibble, x: Digits) {
    && v.c == x.c && v.d == x.d
    && NibbleBits(x.a) == Xor(NibbleBits(v.a), NibbleBits(h))
    && NibbleBits(x.b) == Xor(NibbleBits(v.b), NibbleBits(l))
  }

  lemma FourStepsOnDigits(v: Digits, w: Digits)
    requires FourTo(v, w)
    ensures BitSteps(Word(v), 4) == Word(w)
  {
    hide BitSteps, NibbleBits;
    forall i | 0 <= i < 16 ensures BitSteps(Word(v), 4)[i] == Word(w)[i] {
      FourStepsAt(Word(v), i);
    }
  }

  /** One byte taken in: `x` is the register with the byte in, `u` and `w` are it four and
      eight steps on. */
  lemma TakeByte(v: Digits, h: nibble, l: nibble, x: Digits, u: Digits, w: Digits)
    requires XorInto(v, h, l, x) && FourTo(x, u) && FourTo(u, w)
    ensures ByteStep(Word(v), 0x10 * h + l) == Word(w)
  {
    hide BitSteps, ByteBits, NibbleBits, FourTo;
    TwoNibbles(h, l);
    assert Xor(Word(v), Upper(0x10 * h + l)) == Word(x);
    FourStepsOnDigits(x, u);
    FourStepsOnDigits(u, w);
    BitStepsCompose(Word(x), 4, 4);
  }

  /** Header and payload of the golden heartbeat. */
  function GoldenBytes(): seq<byte> {
    [0x4f, 0x57, 0x01, 0x00, 0x2a, 0x00, 0x01, 0x00, 0x05, 0x00,
     0x78, 0x56, 0x34, 0x12, 0x01]
  }

  lemma GoldenTo3(s: seq<byte>)
    requires s == GoldenBytes() && Checksum(s[..0]) == Word(H(0xf, 0xf, 0xf, 0xf))
    ensures Checksum(s[..3]) == Word(H(0x7, 0xa, 0x0, 0x9))
  {
    hide Checksum, ByteStep, Word;
    ChecksumExtends(s, 0);
    TakeByte(H(0xf, 0xf, 0xf, 0xf), 0x4, 0xf, H(0xb, 0x0, 0xf, 0xf), H(0xb, 0xe, 0x9, 0xb), H(0x5, 0x8, 0xd, 0xb));
    ChecksumExtends(s, 1);
    TakeByte(H(0x5, 0x8, 0xd, 0xb), 0x5, 0x7, H(0x0, 0xf, 0xd, 0xb), H(0xf, 0xd, 0xb, 0x0), H(0x2, 0xa, 0xe, 0xf));
    ChecksumExtends(s, 2);
    TakeByte(H(0x2, 0xa, 0xe, 0xf), 0x0, 0x1, H(0x2, 0xb, 0xe, 0xf), H(0x9, 0xe, 0xb, 0x2), H(0x7, 0xa, 0x0, 0x9));
  }

  lemma GoldenTo6(s: seq<byte>)
    requires s == GoldenBytes() && Checksum(s[..3]) == Word(H(0x7, 0xa, 0x0, 0x9))
    ensures Checksum(s[..6]) == Word(H(0x4, 0xc, 0x7, 0xc))
  {
    hide Checksum, ByteStep, Word;
    ChecksumExtends(s, 3);
    TakeByte(H(0x7, 0xa, 0x0, 0x9), 0x0, 0x0, H(0x7, 0xa, 0x0, 0x9), H(0xd, 0x0, 0x7, 0x7), H(0xd, 0x6, 0xd, 0xd));
    ChecksumExtends(s, 4);
    TakeByte(H(0xd, 0x6, 0xd, 0xd), 0x2, 0xa, H(0xf, 0xc, 0xd, 0xd), H(0x3, 0xc, 0x3, 0xf), H(0xf, 0x3, 0x9, 0x3));
    ChecksumExtends(s, 5);
    TakeByte(H(0xf, 0x3, 0x9, 0x3), 0x0, 0x0, H(0xf, 0x3, 0x9, 0x3), H(0xc, 0x8, 0xd, 0xf), H(0x4, 0xc, 0x7, 0xc));
  }

  lemma GoldenTo9(s: seq<byte>)
    requires s == GoldenBytes() && Checksum(s[..6]) == Word(H(0x4, 0xc, 0x7, 0xc))
    ensures Checksum(s[..9]) == Word(H(0x4, 0x2, 0x6, 0xd))
  {
    hide Checksum, ByteStep, Word;
    ChecksumExtends(s, 6);
    TakeByte(H(0x4, 0xc, 0x7, 0xc), 0x0, 0x1, H(0x4, 0xd, 0x7, 0xc), H(0x9, 0x7, 0x4, 0x4), H(0xe, 0x5, 0x6, 0x9));
    ChecksumExtends(s, 7);
    TakeByte(H(0xe, 0x5, 0x6, 0x9), 0x0, 0x0, H(0xe, 0x5, 0x6, 0x9), H(0xb, 0x7, 0x5, 0xe), H(0xc, 0x4, 0x8, 0xb));
    ChecksumExtends(s, 8);
    TakeByte(H(0xc, 0x4, 0x8, 0xb), 0x0, 0x5, H(0xc, 0x1, 0x8, 0xb), H(0xd, 0x9, 0x3, 0xc), H(0x4, 0x2, 0x6, 0xd));
  }

  lemma GoldenTo12(s: seq<byte>)
    requires s == GoldenBytes() && Checksum(s[..9]) == Word(H(0x4, 0x2, 0x6, 0xd))
    ensures Checksum(s[..12]) == Word(H(0xb, 0x5, 0x7, 0x8))
  {
    hide Checksum, ByteStep, Word;
    ChecksumExtends(s, 9);
    TakeByte(H(0x4, 0x2, 0x6, 0xd), 0x0, 0x0, H(0x4, 0x2, 0x6, 0xd), H(0x6, 0x6, 0x5, 0x4), H(0x0, 0x5, 0x8, 0x6));
    ChecksumExtends(s, 10);
    TakeByte(H(0x0, 0x5, 0x8, 0x6), 0x7, 0x8, H(0x7, 0xd, 0x8, 0x6), H(0xa, 0x8, 0x8, 0x7), H(0x2, 0x9, 0x3, 0xa));
    ChecksumExtends(s, 11);
    TakeByte(H(0x2, 0x9, 0x3, 0xa), 0x5, 0x6, H(0x7, 0xf, 0x3, 0xa), H(0x8, 0x3, 0x4, 0x7), H(0xb, 0x5, 0x7, 0x8));
  }

  lemma GoldenTo15(s: seq<byte>)
    requires s == GoldenBytes() && Checksum(s[..12]) == Word(H(0xb, 0x5, 0x7, 0x8))
    ensures Checksum(s[..15]) == Word(H(0xf, 0x8, 0xa, 0xa))
  {
    hide Checksum, ByteStep, Word;
    ChecksumExtends(s, 12);
    TakeByte(H(0xb, 0x5, 0x7, 0x8), 0x3, 0x4, H(0x8, 0x1, 0x7, 0x8), H(0x9, 0x6, 0x8, 0x8), H(0xf, 0x9, 0xa, 0x9));
    ChecksumExtends(s, 13);
    TakeByte(H(0xf, 0x9, 0xa, 0x9), 0x1, 0x2, H(0xe, 0xb, 0xa, 0x9), H(0x5, 0xb, 0x5, 0xe), H(0xe, 0x5, 0x4, 0x5));
    ChecksumExtends(s, 14);
    TakeByte(H(0xe, 0x5, 0x4, 0x5), 0x0, 0x1, H(0xe, 0x4, 0x4, 0x5), H(0xa, 0x5, 0x9, 0xe), H(0xf, 0x8, 0xa, 0xa));
  }

  lemma GoldenCovered(f: WireFrame)
    requires f == FrameFor(Heartbeat(0x12345678, CPU_MODE_STACK_HEALTHY), 0x002a, 0)
    ensures Covered(f) == GoldenBytes()
  {
    assert WriteU32(0x12345678) == [0x78, 0x56, 0x34, 0x12];
    assert PayloadBytes(Heartbeat(0x12345678, CPU_MODE_STACK_HEALTHY)) == [0x78, 0x56, 0x34, 0x12, 0x01];
  }

  lemma PresetWord(s: seq<byte>)
    requires s == []
    ensures Checksum(s) == Word(H(0xf, 0xf, 0xf, 0xf))
  {
  }

  lemma GoldenChecksum()
    ensures Value(Checksum(GoldenBytes())) == 0xf8aa
  {
    hide Checksum, Word, Value;
    var s := GoldenBytes();
    PresetWord(s[..0]);
    GoldenTo3(s);
    GoldenTo6(s);
    GoldenTo9(s);
    GoldenTo12(s);
    GoldenTo15(s);
    assert s[..15] == s;
    WordValue(H(0xf, 0x8, 0xa, 0xa));
  }

  /** The golden heartbeat, checksum included. */
  lemma GoldenHeartbeat()
    ensures Encode(FrameFor(Heartbeat(0x12345678, CPU_MODE_STACK_HEALTHY), 0x002a, 0)) ==
            [0x4f, 0x57, 0x01, 0x00, 0x2a, 0x00, 0x01, 0x00, 0x05, 0x00,
             0x78, 0x56, 0x34, 0x12, 0x01, 0xaa, 0xf8]
  {
    hide Checksum, Value, PayloadBytes, Covered;
    GoldenCovered(FrameFor(Heartbeat(0x12345678, CPU_MODE_STACK_HEALTHY), 0x002a, 0));
    GoldenChecksum();
    assert WriteU16(0xf8aa) == [0xaa, 0xf8];
  }
}
