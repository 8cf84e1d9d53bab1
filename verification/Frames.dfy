/** The `OW` frame: ten header bytes, a payload of at most 512 bytes, and the checksum of
    both in little-endian order. */
module Frames {
  import opened Bytes
  import opened Crc

  const MAGIC_0: byte := 0x4f  // 'O'
  const MAGIC_1: byte := 0x57  // 'W'
  const VERSION: byte := 1
  const HEADER_SIZE: nat := 10
  const CRC_SIZE: nat := 2
  const MAX_PAYLOAD_SIZE: nat := 512
  const MAX_FRAME_SIZE: nat := HEADER_SIZE + MAX_PAYLOAD_SIZE + CRC_SIZE

  datatype Frame = Frame(version: byte, flags: byte, sequence: uint16, messageType: uint16,
                         payload: seq<byte>)
  {
    /** What a frame that went over the wire looks like. */
    predicate WellFormed() {
      version == VERSION && |payload| <= MAX_PAYLOAD_SIZE
    }
  }

  type WireFrame = f: Frame | f.WellFormed() witness Frame(VERSION, 0, 0, 0, [])

  datatype ProtocolError =
    | OutputTooSmall
    | FrameTooShort
    | BadMagic
    | BadVersion
    | PayloadTooLarge
    | LengthMismatch
    | BadCrc

  function FrameSize(f: Frame): nat {
    HEADER_SIZE + |f.payload| + CRC_SIZE
  }

  function Header(flags: byte, sequence: uint16, messageType: uint16, payloadLength: uint16):
    (s: seq<byte>)
    ensures |s| == HEADER_SIZE
  {
    [MAGIC_0, MAGIC_1, VERSION, flags] + WriteU16(sequence) + WriteU16(messageType)
    + WriteU16(payloadLength)
  }

  /** Header and payload: the part the checksum covers. */
  function Covered(f: WireFrame): (s: seq<byte>)
    ensures |s| == HEADER_SIZE + |f.payload|
  {
    Header(f.flags, f.sequence, f.messageType, |f.payload|) + f.payload
  }

  function Encode(f: WireFrame): (s: seq<byte>)
    ensures |s| == FrameSize(f)
  {
    Covered(f) + WriteU16(Value(Checksum(Covered(f))))
  }

  /** The length that a header declares for its whole frame. */
  function DeclaredPayload(s: seq<byte>): uint16
    requires |s| >= HEADER_SIZE
  {
    ReadU16(s[8], s[9])
  }

  function DeclaredSize(s: seq<byte>): nat
    requires |s| >= HEADER_SIZE
  {
    HEADER_SIZE + DeclaredPayload(s) + CRC_SIZE
  }

  function Decode(s: seq<byte>): Result<WireFrame, ProtocolError> {
    if |s| < HEADER_SIZE + CRC_SIZE then Err(FrameTooShort)
    else if s[0] != MAGIC_0 || s[1] != MAGIC_1 then Err(BadMagic)
    else if s[2] != VERSION then Err(BadVersion)
    else if DeclaredPayload(s) > MAX_PAYLOAD_SIZE then Err(PayloadTooLarge)
    else if |s| != DeclaredSize(s) then Err(LengthMismatch)
    else
      var covered := s[..|s| - CRC_SIZE];
      if ReadU16(s[|s| - 2], s[|s| - 1]) != Value(Checksum(covered)) then Err(BadCrc)
      else Ok(Frame(s[2], s[3], ReadU16(s[4], s[5]), ReadU16(s[6], s[7]), covered[HEADER_SIZE..]))
  }

  method DecodeFrame(data: array<byte>, length: nat) returns (result: Result<WireFrame, ProtocolError>)
    requires length <= data.Length
    ensures result == Decode(data[..length])
  {
    hide Checksum, Value;
    ghost var s := data[..length];
    if length < HEADER_SIZE + CRC_SIZE {
      return Err(FrameTooShort);
    }
    if data[0] != MAGIC_0 || data[1] != MAGIC_1 {
      return Err(BadMagic);
    }
    if data[2] != VERSION {
      return Err(BadVersion);
    }
    var payloadLength := ReadU16(data[8], data[9]);
    if payloadLength > MAX_PAYLOAD_SIZE {
      return Err(PayloadTooLarge);
    }
    if length != HEADER_SIZE + payloadLength + CRC_SIZE {
      return Err(LengthMismatch);
    }
    var expected := ReadU16(data[length - 2], data[length - 1]);
    var actual := Crc16(data, length - CRC_SIZE);
    assert data[..length - CRC_SIZE] == s[..|s| - CRC_SIZE];
    if expected != Value(actual) {
      return Err(BadCrc);
    }
    result := Ok(Frame(data[2], data[3], ReadU16(data[4], data[5]), ReadU16(data[6], data[7]),
                       data[HEADER_SIZE..HEADER_SIZE + payloadLength]));
    assert result.value.payload == s[..|s| - CRC_SIZE][HEADER_SIZE..];
  }

  method EncodeFrame(messageType: uint16, payload: array<byte>, payloadLength: uint16,
                     sequence: uint16, flags: byte, output: array<byte>)
    returns (result: Result<nat, ProtocolError>)
    requires payloadLength <= payload.Length && payload != output
    modifies output
    ensures payloadLength > MAX_PAYLOAD_SIZE ==> result == Err(PayloadTooLarge)
    ensures payloadLength <= MAX_PAYLOAD_SIZE ==>
              var f := Frame(VERSION, flags, sequence, messageType, payload[..payloadLength]);
              if output.Length < FrameSize(f) then result == Err(OutputTooSmall)
              else result == Ok(FrameSize(f)) && output[..FrameSize(f)] == Encode(f)
                   && output[FrameSize(f)..] == old(output[FrameSize(f)..])
    ensures result.Err? ==> output[..] == old(output[..])
  {
    if payloadLength > MAX_PAYLOAD_SIZE {
      return Err(PayloadTooLarge);
    }
    var frameLength := HEADER_SIZE + payloadLength + CRC_SIZE;
    if output.Length < frameLength {
      return Err(OutputTooSmall);
    }
    ghost var f := Frame(VERSION, flags, sequence, messageType, payload[..payloadLength]);
    PutCovered(output, messageType, payload, payloadLength, sequence, flags);
    var crc := Crc16(output, frameLength - CRC_SIZE);
    assert crc == Checksum(Covered(f));
    PutU16(output, frameLength - CRC_SIZE, Value(crc));
    assert payload[..payloadLength] == f.payload;
    assert output[..frameLength] == Covered(f) + WriteU16(Value(crc));
    result := Ok(frameLength);
  }

  method PutCovered(output: array<byte>, messageType: uint16, payload: array<byte>,
                    payloadLength: uint16, sequence: uint16, flags: byte)
    requires payloadLength <= payload.Length && payload != output
    requires payloadLength <= MAX_PAYLOAD_SIZE && HEADER_SIZE + payloadLength <= output.Length
    modifies output
    ensures output[..HEADER_SIZE + payloadLength] ==
            Covered(Frame(VERSION, flags, sequence, messageType, payload[..payloadLength]))
    ensures forall i :: HEADER_SIZE + payloadLength <= i < output.Length ==> output[i] == old(output[i])
  {
    PutHeader(output, flags, sequence, messageType, payloadLength);
    ghost var header := output[..HEADER_SIZE];
    forall i | 0 <= i < payloadLength {
      output[HEADER_SIZE + i] := payload[i];
    }
    assert output[..HEADER_SIZE + payloadLength] == header + payload[..payloadLength];
  }

  method PutHeader(output: array<byte>, flags: byte, sequence: uint16, messageType: uint16,
                   payloadLength: uint16)
    requires output.Length >= HEADER_SIZE
    modifies output
    ensures output[..HEADER_SIZE] == Header(flags, sequence, messageType, payloadLength)
    ensures forall i :: HEADER_SIZE <= i < output.Length ==> output[i] == old(output[i])
  {
    output[0] := MAGIC_0;
    output[1] := MAGIC_1;
    output[2] := VERSION;
    output[3] := flags;
    PutU16(output, 4, sequence);
    PutU16(output, 6, messageType);
    PutU16(output, 8, payloadLength);
  }

  // ---- the codec is a bijection between well-formed frames and accepted byte strings ----

  lemma DecodeInvertsEncode(f: WireFrame)
    ensures Decode(Encode(f)) == Ok(f)
  {
    var s, covered := Encode(f), Covered(f);
    var crc := Value(Checksum(covered));
    U16RoundTrip(f.sequence);
    U16RoundTrip(f.messageType);
    U16RoundTrip(|f.payload|);
    U16RoundTrip(crc);
    HeaderBytes(f, s);
    assert s[..|s| - 2] == covered;
    assert s[|s| - 2] == WriteU16(crc)[0] && s[|s| - 1] == WriteU16(crc)[1];
    assert covered[HEADER_SIZE..] == f.payload;
  }

  lemma HeaderBytes(f: WireFrame, s: seq<byte>)
    requires Covered(f) <= s
    ensures s[0] == MAGIC_0 && s[1] == MAGIC_1 && s[2] == VERSION && s[3] == f.flags
    ensures s[4] == WriteU16(f.sequence)[0] && s[5] == WriteU16(f.sequence)[1]
    ensures s[6] == WriteU16(f.messageType)[0] && s[7] == WriteU16(f.messageType)[1]
    ensures s[8] == WriteU16(|f.payload|)[0] && s[9] == WriteU16(|f.payload|)[1]
  {
    assert forall i :: 0 <= i < |Covered(f)| ==> s[i] == Covered(f)[i];
  }

  lemma EncodeInvertsDecode(s: seq<byte>)
    requires Decode(s).Ok?
    ensures Encode(Decode(s).value) == s
  {
    var f := Decode(s).value;
    var covered := s[..|s| - 2];
    U16Canonical(s[4], s[5]);
    U16Canonical(s[6], s[7]);
    U16Canonical(s[8], s[9]);
    U16Canonical(s[|s| - 2], s[|s| - 1]);
    assert |f.payload| == DeclaredPayload(s);
    assert Covered(f) == covered;
    assert s == covered + s[|s| - 2..];
  }

  /** Accepted byte strings are exactly the encodings. */
  lemma AcceptedIffEncoding(s: seq<byte>)
    ensures Decode(s).Ok? <==> exists f: WireFrame :: Encode(f) == s
  {
    if Decode(s).Ok? {
      EncodeInvertsDecode(s);
    }
    if f: WireFrame :| Encode(f) == s {
      DecodeInvertsEncode(f);
    }
  }

  // ---- the wire format in numbers ----

  /** Where everything stands in a frame. */
  lemma EncodeLayout(f: WireFrame)
    ensures var s: seq<int>, n := Encode(f), |f.payload|;
            && |s| == n + 12 <= 524
            && s[..4] == [0x4f, 0x57, 0x01, f.flags]
            && s[4] + 0x100 * s[5] == f.sequence
            && s[6] + 0x100 * s[7] == f.messageType
            && s[8] + 0x100 * s[9] == n
            && s[10..n + 10] == f.payload
            && s[n + 10] + 0x100 * s[n + 11] == Value(Checksum(Encode(f)[..n + 10]))
  {
    hide Checksum, Value;
    var s, n := Encode(f), |f.payload|;
    HeaderBytes(f, s);
    assert s[..n + 10] == Covered(f);
    assert s[10..n + 10] == f.payload;
    assert s[..4] == [s[0], s[1], s[2], s[3]];
  }

  /** Which error arises on which bytes. The conditions exclude one another, and where none
      holds the frame is accepted with the fields at their places. */
  lemma DecodeErrorsExactly(s: seq<byte>)
    ensures Decode(s) == Err(FrameTooShort) <==> |s| < 12
    ensures Decode(s) == Err(BadMagic) <==> |s| >= 12 && !(s[0] == 0x4f && s[1] == 0x57)
    ensures Decode(s) == Err(BadVersion) <==> |s| >= 12 && s[0] == 0x4f && s[1] == 0x57 && s[2] != 1
    ensures var q: seq<int> := s;
            var known := |q| >= 12 && q[..3] == [0x4f, 0x57, 1];
            && (Decode(s) == Err(PayloadTooLarge) <==> known && q[8] + 0x100 * q[9] > 512)
            && (Decode(s) == Err(LengthMismatch) <==>
                  known && q[8] + 0x100 * q[9] <= 512 && |q| != q[8] + 0x100 * q[9] + 12)
            && (Decode(s) == Err(BadCrc) <==>
                  known && q[8] + 0x100 * q[9] <= 512 && |q| == q[8] + 0x100 * q[9] + 12
                  && q[|q| - 2] + 0x100 * q[|q| - 1] != Value(Checksum(s[..|s| - 2])))
    ensures var q: seq<int> := s;
            Decode(s).Ok? <==>
              |q| >= 12 && q[..3] == [0x4f, 0x57, 1]
              && q[8] + 0x100 * q[9] <= 512 && |q| == q[8] + 0x100 * q[9] + 12
              && q[|q| - 2] + 0x100 * q[|q| - 1] == Value(Checksum(s[..|s| - 2]))
    ensures var q: seq<int> := s;
            Decode(s).Ok? ==>
              Decode(s).value ==
              Frame(1, s[3], q[4] + 0x100 * q[5], q[6] + 0x100 * q[7], s[10..|s| - 2])
    ensures Decode(s) != Err(OutputTooSmall)
  {
    hide Checksum, Value;
    if |s| >= 12 {
      assert s[..3] == [s[0], s[1], s[2]];
    }
  }

  /** A header with nothing but a length in it. */
  lemma EmptyHeaderBytes(n: uint16)
    requires n <= MAX_PAYLOAD_SIZE
    ensures var h := Header(0, 0, 0, n);
            && h[..3] == [MAGIC_0, MAGIC_1, VERSION]
            && h[8] == WriteU16(n)[0] && h[9] == WriteU16(n)[1] <= 2
            && forall k :: 1 <= k < 8 ==> h[k] != MAGIC_0
  {
  }
}
