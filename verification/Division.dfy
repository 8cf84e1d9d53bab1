/** What the checksum means: the remainder left when the message, with its first sixteen
    bits inverted by the preset, is multiplied by x^16 and divided by
    x^16 + x^12 + x^5 + 1 over GF(2). Polynomials are coefficient sequences, highest
    power first. */
module Division {
  import opened Bytes
  import opened Crc

  function At(s: seq<bool>, i: int): bool {
    0 <= i < |s| && s[i]
  }

  /** Coefficient `i` of `q` times x^16 + x^12 + x^5 + 1. */
  function ProductAt(q: seq<bool>, i: int): bool {
    (At(q, i) != At(q, i - 4)) != (At(q, i - 11) != At(q, i - 16))
  }

  /** dividend == quotient * generator + remainder, with a remainder of degree below 16. */
  ghost predicate Divides(dividend: seq<bool>, quotient: seq<bool>, remainder: Register) {
    && |dividend| == |quotient| + 16
    && forall i :: 0 <= i < |dividend| ==>
         dividend[i] == (ProductAt(quotient, i) != At(remainder, i - |quotient|))
  }

  function MessageBits(data: seq<byte>): (bits: seq<bool>)
    ensures |bits| == 8 * |data|
  {
    if data == [] then [] else MessageBits(data[..|data| - 1]) + ByteBits(data[|data| - 1])
  }

  /** The message times x^16, with the first sixteen coefficients inverted. */
  function Dividend(bits: seq<bool>): (d: seq<bool>)
    ensures |d| == |bits| + 16
    ensures forall i :: 0 <= i < |d| ==> d[i] == (At(bits, i) != (i < 16))
  {
    seq(|bits| + 16, i requires 0 <= i => At(bits, i) != (i < 16))
  }

  // ---- the register as a bit-serial divider ----

  function Top(s: seq<bool>): Register
    requires |s| <= 16
  {
    s + ZERO[|s|..]
  }

  function SerialStep(r: Register, bit: bool): Register {
    BitStep(Xor(r, Top([bit])))
  }

  function Serial(r: Register, bits: seq<bool>): Register {
    if bits == [] then r
    else SerialStep(Serial(r, bits[..|bits| - 1]), bits[|bits| - 1])
  }

  lemma {:induction false} SerialComposes(r: Register, a: seq<bool>, b: seq<bool>)
    ensures Serial(r, a + b) == Serial(Serial(r, a), b)
    decreases |b|
  {
    if b == [] {
      assert a + b == a;
    } else {
      var front := b[..|b| - 1];
      assert (a + b)[..|a + b| - 1] == a + front;
      SerialComposes(r, a, front);
    }
  }

  /** A bit at the top is taken in while those behind it move up, undisturbed. */
  lemma TakeNextBit(r: Register, bit: bool, waiting: seq<bool>)
    requires |waiting| < 8
    ensures BitStep(Xor(r, Top([bit] + waiting))) == Xor(SerialStep(r, bit), Top(waiting))
  {
    var rest := Top([false] + waiting);
    assert Top([bit] + waiting) == Xor(Top([bit]), rest);
    XorAssociates(r, Top([bit]), rest);
    BitStepLinear(Xor(r, Top([bit])), rest);
    WaitingMovesUp(waiting);
  }

  lemma XorAssociates(a: Register, b: Register, c: Register)
    ensures Xor(a, Xor(b, c)) == Xor(Xor(a, b), c)
  {
  }

  lemma WaitingMovesUp(waiting: seq<bool>)
    requires |waiting| < 8
    ensures BitStep(Top([false] + waiting)) == Top(waiting)
  {
    var r := Top([false] + waiting);
    forall i | 0 <= i < 16 ensures BitStep(r)[i] == Top(waiting)[i] {
      StepAt(r, i);
    }
  }

  lemma {:induction false} ParallelIsSerial(r: Register, bits: seq<bool>)
    requires |bits| <= 8
    ensures BitSteps(Xor(r, Top(bits)), |bits|) == Serial(r, bits)
    decreases |bits|
  {
    if bits == [] {
      assert Xor(r, Top(bits)) == r;
    } else {
      var bit, waiting := bits[0], bits[1..];
      assert bits == [bit] + waiting;
      BitStepsCompose(Xor(r, Top(bits)), 1, |waiting|);
      FirstBitStep(Xor(r, Top(bits)), 1);
      TakeNextBit(r, bit, waiting);
      ParallelIsSerial(SerialStep(r, bit), waiting);
      SerialComposes(r, [bit], waiting);
      FirstSerialStep(r, bit);
    }
  }

  /** A parameter for the constant 1, so that `BitSteps` is unfolded here and not where this is
      used. */
  lemma FirstBitStep(r: Register, n: nat)
    requires n == 1
    ensures BitSteps(r, n) == BitStep(r)
  {
  }

  lemma FirstSerialStep(r: Register, bit: bool)
    ensures Serial(r, [bit]) == SerialStep(r, bit)
  {
    assert [bit][..0] == [];
  }

  lemma ByteIsEightBits(r: Register, b: byte)
    ensures ByteStep(r, b) == Serial(r, ByteBits(b))
  {
    var bits := ByteBits(b);
    assert Top(bits) == Upper(b);
    ParallelIsSerial(r, bits);
  }

  lemma {:induction false} CrcIsSerial(r: Register, data: seq<byte>)
    ensures CrcFrom(r, data) == Serial(r, MessageBits(data))
  {
    if data == [] {
    } else {
      var front, last := data[..|data| - 1], data[|data| - 1];
      CrcIsSerial(r, front);
      ByteIsEightBits(CrcFrom(r, front), last);
      SerialComposes(r, MessageBits(front), ByteBits(last));
    }
  }

  // ---- existence and uniqueness of the division ----

  function Quotient(bits: seq<bool>): (q: seq<bool>)
    ensures |q| == |bits|
  {
    if bits == [] then []
    else
      var front := bits[..|bits| - 1];
      Quotient(front) + [Serial(PRESET, front)[0] != bits[|bits| - 1]]
  }

  /** Appending a coefficient shifts the product and adds the generator when it is one. */
  lemma ProductExtends(q: seq<bool>, t: bool, i: int)
    ensures ProductAt(q + [t], i) == (ProductAt(q, i) != (t && i - |q| in {0, 4, 11, 16}))
  {
    assert forall j: int :: At(q + [t], j) == (At(q, j) != (t && j == |q|));
  }

  lemma SerialStepAt(r: Register, bit: bool, j: nat)
    requires j < 16
    ensures SerialStep(r, bit)[j] == (At(r, j + 1) != ((r[0] != bit) && j + 1 in {4, 11, 16}))
  {
    StepAt(Xor(r, Top([bit])), j);
  }

  lemma {:induction false} SerialDivides(bits: seq<bool>)
    ensures Divides(Dividend(bits), Quotient(bits), Serial(PRESET, bits))
  {
    if bits == [] {
    } else {
      var front, bit := bits[..|bits| - 1], bits[|bits| - 1];
      SerialDivides(front);
      LongDivision(front, bit, Serial(PRESET, front));
      assert front + [bit] == bits;
    }
  }

  lemma DividendExtends(front: seq<bool>, bit: bool, i: nat)
    requires i <= |front| + 16
    ensures Dividend(front + [bit])[i] ==
            ((i < |front| + 16 && Dividend(front)[i]) != (i == |front| && bit))
  {
    assert At(front + [bit], i) == (At(front, i) != (i == |front| && bit));
  }

  /** Bringing down one more coefficient keeps the division. */
  lemma LongDivision(front: seq<bool>, bit: bool, r: Register)
    requires Divides(Dividend(front), Quotient(front), r)
    ensures Divides(Dividend(front + [bit]), Quotient(front) + [r[0] != bit], SerialStep(r, bit))
  {
    hide ProductAt, At, SerialStep, Quotient;
    var d, d', q := Dividend(front + [bit]), Dividend(front), Quotient(front);
    forall i | 0 <= i < |d|
      ensures d[i] == (ProductAt(q + [r[0] != bit], i) != At(SerialStep(r, bit), i - (|q| + 1)))
    {
      DividendExtends(front, bit, i);
      DivisionStep(q, r, bit, i, i < |front| + 16 && d'[i]);
    }
  }

  /** One step of long division, at one coefficient. */
  lemma DivisionStep(q: seq<bool>, r: Register, bit: bool, i: nat, before: bool)
    requires i <= |q| + 16
    requires before == (i < |q| + 16 && (ProductAt(q, i) != At(r, i - |q|)))
    ensures (before != (i == |q| && bit)) ==
            (ProductAt(q + [r[0] != bit], i) != At(SerialStep(r, bit), i - (|q| + 1)))
  {
    ProductExtends(q, r[0] != bit, i);
    if i > |q| {
      SerialStepAt(r, bit, i - |q| - 1);
    }
  }

  /** The quotient is forced from its highest coefficient down, and with it the remainder. */
  lemma {:induction false} QuotientUnique(d: seq<bool>, q: seq<bool>, r: Register,
                                          q': seq<bool>, r': Register, k: nat)
    requires Divides(d, q, r) && Divides(d, q', r') && k <= |q|
    ensures q[..k] == q'[..k]
  {
    if k == 0 {
    } else {
      QuotientUnique(d, q, r, q', r', k - 1);
      var i := k - 1;
      assert forall j :: 0 <= j < i ==> q[j] == q[..i][j] && q'[j] == q'[..i][j];
      assert d[i] == ProductAt(q, i) && d[i] == ProductAt(q', i);
      assert q[i] == q'[i];
      assert q[..k] == q[..i] + [q[i]] && q'[..k] == q'[..i] + [q'[i]];
    }
  }

  lemma RemainderUnique(d: seq<bool>, q: seq<bool>, r: Register, q': seq<bool>, r': Register)
    requires Divides(d, q, r) && Divides(d, q', r')
    ensures q == q' && r == r'
  {
    QuotientUnique(d, q, r, q', r', |q|);
    assert q[..|q|] == q && q'[..|q|] == q';
    forall j | 0 <= j < 16 ensures r[j] == r'[j] {
      assert d[j + |q|] == (ProductAt(q, j + |q|) != At(r, j + |q| - |q|));
      assert d[j + |q|] == (ProductAt(q, j + |q|) != At(r', j + |q| - |q|));
    }
  }

  /** The checksum is the remainder of the polynomial division, and nothing else is. */
  lemma ChecksumIsRemainder(data: seq<byte>, r: Register)
    ensures r == Checksum(data) <==>
            exists q :: Divides(Dividend(MessageBits(data)), q, r)
  {
    var bits := MessageBits(data);
    CrcIsSerial(PRESET, data);
    SerialDivides(bits);
    if q :| Divides(Dividend(bits), q, r) {
      RemainderUnique(Dividend(bits), q, r, Quotient(bits), Checksum(data));
    }
  }
}
