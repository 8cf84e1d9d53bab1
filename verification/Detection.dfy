/** Which corruptions of a frame the decoder is bound to notice. */
module Detection {
  import opened Bytes
  import opened Crc
  import opened Frames

  /** `t` is `s` with some change confined to positions `i` up to but excluding `j`. */
  ghost predicate ChangedWithin(s: seq<byte>, t: seq<byte>, i: nat, j: nat) {
    && |s| == |t|
    && forall k :: 0 <= k < |s| && !(i <= k < j) ==> s[k] == t[k]
  }

  /** The stored checksum is the checksum of what precedes it. */
  ghost predicate Consistent(s: seq<byte>)
    requires |s| >= 2
  {
    WriteU16(Value(Checksum(s[..|s| - 2]))) == s[|s| - 2..]
  }

  lemma DecodedIsConsistent(s: seq<byte>)
    requires Decode(s).Ok?
    ensures Consistent(s)
  {
    U16Canonical(s[|s| - 2], s[|s| - 1]);
    assert s[|s| - 2..] == [s[|s| - 2], s[|s| - 1]];
  }

  lemma EncodedIsConsistent(f: WireFrame)
    ensures Consistent(Encode(f))
  {
    DecodeInvertsEncode(f);
    DecodedIsConsistent(Encode(f));
  }

  /** Splitting a checksum around a pair of bytes. */
  lemma ChecksumAround(s: seq<byte>, i: nat)
    requires i + 2 <= |s|
    ensures Checksum(s) ==
            CrcFrom(ByteStep(ByteStep(Checksum(s[..i]), s[i]), s[i + 1]), s[i + 2..])
  {
    var r := Checksum(s[..i]);
    var pair := [s[i], s[i + 1]];
    assert s == s[..i] + (pair + s[i + 2..]);
    CrcComposes(PRESET, s[..i], pair + s[i + 2..]);
    CrcComposes(r, pair, s[i + 2..]);
    assert pair[..1] == [s[i]] && [s[i]][..0] == [];
    assert CrcFrom(r, [s[i]]) == ByteStep(CrcFrom(r, []), s[i]);
  }

  lemma PairChangesChecksum(s: seq<byte>, t: seq<byte>, i: nat)
    requires i + 2 <= |s| && ChangedWithin(s, t, i, i + 2) && s != t
    ensures Checksum(s) != Checksum(t)
  {
    assert s[..i] == t[..i] && s[i + 2..] == t[i + 2..];
    assert s[i] == t[i] && s[i + 1] == t[i + 1] ==> s == t;
    ChecksumAround(s, i);
    ChecksumAround(t, i);
    if Checksum(s) == Checksum(t) {
      var r := Checksum(s[..i]);
      CrcInjective(ByteStep(ByteStep(r, s[i]), s[i + 1]), ByteStep(ByteStep(r, t[i]), t[i + 1]),
                   s[i + 2..]);
      TwoBytesInjective(r, s[i], s[i + 1], t[i], t[i + 1]);
    }
  }

  /** A change to two adjacent covered bytes breaks the checksum. */
  lemma CoveredPair(s: seq<byte>, t: seq<byte>, i: nat)
    requires i + 4 <= |s| && ChangedWithin(s, t, i, i + 2) && s != t && Consistent(s)
    ensures !Consistent(t)
  {
    hide Checksum, Value;
    var n := |s| - 2;
    assert s[n..] == t[n..];
    assert s[..n] != t[..n] by {
      assert s == s[..n] + s[n..] && t == t[..n] + t[n..];
    }
    PairChangesChecksum(s[..n], t[..n], i);
    if Consistent(t) {
      U16RoundTrip(Value(Checksum(s[..n])));
      U16RoundTrip(Value(Checksum(t[..n])));
      ValueInjective(Checksum(s[..n]), Checksum(t[..n]));
    }
  }

  /** A change to the stored checksum alone breaks the match. */
  lemma StoredPair(s: seq<byte>, t: seq<byte>)
    requires |s| >= 2 && ChangedWithin(s, t, |s| - 2, |s|) && s != t && Consistent(s)
    ensures !Consistent(t)
  {
    var n := |s| - 2;
    assert s[..n] == t[..n];
    assert s == s[..n] + s[n..] && t == t[..n] + t[n..];
  }

  /** The pair of changes that the checksum cannot see. */
  ghost predicate Blind(s: seq<byte>, t: seq<byte>, i: nat)
    requires i + 1 < |s| == |t|
  {
    t[i] == XorByte(s[i], 0x89) && t[i + 1] == XorByte(s[i + 1], 0xa1)
  }

  lemma XorRecovers(a: byte, b: byte, d: byte)
    ensures b == XorByte(a, d) <==> Xor(ByteBits(a), ByteBits(b)) == ByteBits(d)
  {
    XorByteBits(a, d);
    if b == XorByte(a, d) {
      assert Xor(ByteBits(a), Xor(ByteBits(a), ByteBits(d))) == ByteBits(d);
    }
    if Xor(ByteBits(a), ByteBits(b)) == ByteBits(d) {
      assert Xor(ByteBits(a), Xor(ByteBits(a), ByteBits(b))) == ByteBits(b);
      ByteBitsInjective(b, XorByte(a, d));
    }
  }

  /** How the register moves when only the last byte taken in changes. */
  lemma LastByteDifference(r: Register, a: byte, b: byte)
    ensures Xor(ByteStep(r, a), ByteStep(r, b)) ==
            BitSteps(Xor(ByteBits(a), ByteBits(b)) + ZERO_BYTE, 8)
  {
    var p, q := Xor(r, Upper(a)), Xor(r, Upper(b));
    BitStepsLinear(p, q, 8);
    assert Xor(p, q) == Xor(ByteBits(a), ByteBits(b)) + ZERO_BYTE;
  }

  /** The last covered byte and the low checksum byte: the match survives a real change
      exactly when it is the blind pair. */
  lemma StraddlingPair(s: seq<byte>, t: seq<byte>)
    requires |s| >= 3 && ChangedWithin(s, t, |s| - 3, |s| - 1) && s != t && Consistent(s)
    ensures Consistent(t) <==> Blind(s, t, |s| - 3)
  {
    hide FromBits, ToBits, CrcFrom, BitSteps;
    var i, n := |s| - 3, |s| - 2;
    var a, b := s[i], t[i];
    assert s[..i] == t[..i];
    var r := Checksum(s[..i]);
    var c, c' := ByteStep(r, a), ByteStep(r, b);
    ChecksumExtends(s, i);
    ChecksumExtends(t, i);
    ValueBytes(c);
    ValueBytes(c');
    assert s[n..] == [s[n], s[n + 1]] && t[n..] == [t[n], t[n + 1]];
    StraddlingRegister(r, a, b, c, c');
    XorRecovers(a, b, 0x89);
    XorRecovers(s[n], t[n], 0xa1);
    BlindValues();
    assert a == b && s[n] == t[n] ==> s == t;
    if Consistent(t) {
      assert c[..8] == c'[..8];
    }
    if Blind(s, t, i) {
      ByteBitsInjective(t[n], FromBits(c'[8..]));
      ByteBitsInjective(t[n + 1], FromBits(c'[..8]));
    }
  }

  lemma StraddlingRegister(r: Register, a: byte, b: byte, c: Register, c': Register)
    requires c == ByteStep(r, a) && c' == ByteStep(r, b)
    ensures c[..8] == c'[..8] <==> a == b || Xor(ByteBits(a), ByteBits(b)) == BLIND_COVERED
    ensures Xor(ByteBits(a), ByteBits(b)) == BLIND_COVERED ==> Xor(c[8..], c'[8..]) == BLIND_CRC
  {
    var d := Xor(ByteBits(a), ByteBits(b));
    var e := Xor(c, c');
    LastByteDifference(r, a, b);
    HighHalfKernel(d, 8, e);
    assert e[..8] == Xor(c[..8], c'[..8]) && e[8..] == Xor(c[8..], c'[8..]);
    XorIsZero(c[..8], c'[..8]);
    XorIsZero(ByteBits(a), ByteBits(b));
    if ByteBits(a) == ByteBits(b) {
      ByteBitsInjective(a, b);
    }
  }

  lemma XorIsZero(a: seq<bool>, b: seq<bool>)
    requires |a| == |b| == 8
    ensures Xor(a, b) == ZERO_BYTE <==> a == b
  {
    assert a == b ==> Xor(a, b) == ZERO_BYTE;
    if Xor(a, b) == ZERO_BYTE {
      forall i | 0 <= i < 8 ensures a[i] == b[i] {
        assert Xor(a, b)[i] == ZERO_BYTE[i];
      }
    }
  }

  // ---- main results ----

  /** Any change confined to two adjacent bytes of a frame is noticed, with one exception:
      the last payload byte XORed with 0x89 together with the low checksum byte XORed with
      0xa1. */
  lemma AdjacentPairDetected(f: WireFrame, t: seq<byte>, i: nat)
    requires i + 2 <= FrameSize(f)
    requires ChangedWithin(Encode(f), t, i, i + 2) && t != Encode(f)
    ensures Decode(t).Ok? <==> i == FrameSize(f) - 3 && f.payload != [] && Blind(Encode(f), t, i)
  {
    var s := Encode(f);
    var n := |s| - 2;
    EncodedIsConsistent(f);
    DecodeInvertsEncode(f);
    if Decode(t).Ok? {
      DecodedIsConsistent(t);
      if i + 2 <= n {
        CoveredPair(s, t, i);
      } else if i == n {
        StoredPair(s, t);
      } else {
        StraddlingPair(s, t);
        if f.payload == [] {
          EmptyPayloadHeader(f, s, t);
        }
      }
    } else if i == n - 1 && f.payload != [] && Blind(s, t, i) {
      StraddlingPair(s, t);
      U16RoundTrip(Value(Checksum(t[..n])));
    }
  }

  /** With an empty payload the last covered byte is the high length byte. */
  lemma EmptyPayloadHeader(f: WireFrame, s: seq<byte>, t: seq<byte>)
    requires f.payload == [] && s == Encode(f) && |t| == |s|
    requires t[9] == XorByte(s[9], 0x89)
    ensures !Decode(t).Ok?
  {
    HeaderBytes(f, s);
    assert s[9] == 0;
    BlindValues();
    ZeroBits();
    assert Xor(ZERO_BYTE, BLIND_COVERED) == BLIND_COVERED;
  }

  lemma ZeroBits()
    ensures ByteBits(0) == ZERO_BYTE
  {
    hide FromBits, ToBits;
    FromEightBits(ZERO_BYTE);
    ToFromBits(ZERO_BYTE);
  }

  lemma NotItsOwnXor(a: byte)
    ensures a != XorByte(a, 0xa1)
  {
    BlindValues();
    XorByteBits(a, 0xa1);
    assert ByteBits(XorByte(a, 0xa1))[0] != ByteBits(a)[0];
  }

  /** Every frame with a payload has an altered form that is accepted. */
  lemma BlindPairAccepted(f: WireFrame) returns (t: seq<byte>)
    requires f.payload != []
    ensures |t| == FrameSize(f) && t != Encode(f) && Decode(t).Ok?
  {
    hide Encode, Decode;
    var s, i := Encode(f), FrameSize(f) - 3;
    t := s[i := XorByte(s[i], 0x89)][i + 1 := XorByte(s[i + 1], 0xa1)];
    NotItsOwnXor(s[i + 1]);
    assert t[i + 1] != s[i + 1];
    AdjacentPairDetected(f, t, i);
  }

  /** A change to any single byte of a frame, checksum included, is noticed. */
  lemma SingleByteDetected(f: WireFrame, t: seq<byte>, i: nat)
    requires i < FrameSize(f)
    requires ChangedWithin(Encode(f), t, i, i + 1) && t[i] != Encode(f)[i]
    ensures Decode(t).Err?
  {
    if i + 1 < FrameSize(f) {
      NotItsOwnXor(t[i + 1]);
      AdjacentPairDetected(f, t, i);
    } else {
      AdjacentPairDetected(f, t, i - 1);
    }
  }
}
