/** The typed payloads byte by byte and number by number: what `Messages` computes, said
    again without its readers, its size table, its ranges or its constants. */
module Layouts {
  import opened Bytes
  import opened Messages

  // ---- CPU to MCU ----

  lemma HeartbeatLayout(p: seq<byte>)
    requires |p| == 5
    ensures var q: seq<int> := p;
            var m := Heartbeat(q[0] + 0x100 * q[1] + 0x1_0000 * q[2] + 0x100_0000 * q[3], q[4]);
            && ReadFields(0x0001, p) == m
            && DecodeResult(0x0001, p) == if q[4] == 0 || q[4] == 1 then Ok(m) else Err(ValueOutOfRange)
  {
  }

  lemma EstopSetLayout(p: seq<byte>)
    requires |p| == 3
    ensures var q: seq<int> := p;
            var m := EstopSet(q[0], q[1] + 0x100 * q[2]);
            && ReadFields(0x0002, p) == m
            && DecodeResult(0x0002, p) == if q[0] <= 1 then Ok(m) else Err(ValueOutOfRange)
  {
  }

  lemma ClearLatchedFaultLayout(p: seq<byte>)
    requires |p| == 2
    ensures var q: seq<int> := p;
            var m := ClearLatchedFault(q[0] + 0x100 * q[1]);
            ReadFields(0x0003, p) == m && DecodeResult(0x0003, p) == Ok(m)
  {
  }

  lemma IdentifyRequestLayout(p: seq<byte>)
    requires p == []
    ensures ReadFields(0x0004, p) == IdentifyRequest && DecodeResult(0x0004, p) == Ok(IdentifyRequest)
  {
  }

  /** A drive setpoint is taken at up to 500 mm/s, 4000 mrad/s and 250 ms. */
  lemma DriveSetpointLayout(p: seq<byte>)
    requires |p| == 6
    ensures var q: seq<int> := p;
            var l, a := q[0] + 0x100 * q[1], q[2] + 0x100 * q[3];
            var linear, angular := if l < 32768 then l else l - 65536, if a < 32768 then a else a - 65536;
            var duration := q[4] + 0x100 * q[5];
            var m := DriveSetpoint(linear, angular, duration);
            && ReadFields(0x0101, p) == m
            && DecodeResult(0x0101, p) ==
               if -500 <= linear <= 500 && -4000 <= angular <= 4000 && 1 <= duration <= 250 then Ok(m)
               else Err(ValueOutOfRange)
  {
  }

  lemma CleaningMotorsSetLayout(p: seq<byte>)
    requires |p| == 4
    ensures var m := CleaningMotorsSet(p[0], p[1], p[2], p[3]);
            && ReadFields(0x0102, p) == m
            && DecodeResult(0x0102, p) ==
               if p[0] <= 100 && p[1] <= 100 && p[2] <= 100 && p[3] <= 100 then Ok(m)
               else Err(ValueOutOfRange)
  {
  }

  lemma LidarMotorSetLayout(p: seq<byte>)
    requires |p| == 1
    ensures var m := LidarMotorSet(p[0]);
            && ReadFields(0x0103, p) == m
            && DecodeResult(0x0103, p) == if p[0] <= 100 then Ok(m) else Err(ValueOutOfRange)
  {
  }

  lemma LedSetLayout(p: seq<byte>)
    requires |p| == 3
    ensures var m := LedSet(p[0], p[1], p[2]);
            && ReadFields(0x0104, p) == m
            && DecodeResult(0x0104, p) == if p[2] <= 100 then Ok(m) else Err(ValueOutOfRange)
  {
  }

  // ---- both ways ----

  lemma AcknowledgementLayouts(p: seq<byte>)
    requires |p| == 4
    ensures var q: seq<int> := p;
            var sequence, code := q[0] + 0x100 * q[1], q[2] + 0x100 * q[3];
            && ReadFields(0x7001, p) == Ack(sequence, code)
            && DecodeResult(0x7001, p) == Ok(Ack(sequence, code))
            && ReadFields(0x7002, p) == Nack(sequence, code)
            && DecodeResult(0x7002, p) == Ok(Nack(sequence, code))
  {
  }

  // ---- MCU to CPU ----

  lemma McuHelloLayout(p: seq<byte>)
    requires |p| == 8
    ensures var q: seq<int> := p;
            var m := McuHello(q[0] + 0x100 * q[1], q[2] + 0x100 * q[3],
                              q[4] + 0x100 * q[5] + 0x1_0000 * q[6] + 0x100_0000 * q[7]);
            ReadFields(0x8000, p) == m && DecodeResult(0x8000, p) == Ok(m)
  {
  }

  lemma FastTelemetryLayout(p: seq<byte>)
    requires |p| == 19
    ensures var q: seq<int> := p;
            var time := q[0] + 0x100 * q[1] + 0x1_0000 * q[2] + 0x100_0000 * q[3];
            var l := q[4] + 0x100 * q[5] + 0x1_0000 * q[6] + 0x100_0000 * q[7];
            var r := q[8] + 0x100 * q[9] + 0x1_0000 * q[10] + 0x100_0000 * q[11];
            var left := if l < 2147483648 then l else l - 4294967296;
            var right := if r < 2147483648 then r else r - 4294967296;
            var m := FastTelemetry(time, left, right, q[12], q[13], q[14], q[15], q[16],
                                   q[17] + 0x100 * q[18]);
            ReadFields(0x8001, p) == m && DecodeResult(0x8001, p) == Ok(m)
  {
  }

  lemma SafetyEventLayout(p: seq<byte>)
    requires |p| == 5
    ensures var q: seq<int> := p;
            var m := SafetyEvent(q[0] + 0x100 * q[1], q[2], q[3] + 0x100 * q[4]);
            && ReadFields(0x8002, p) == m
            && DecodeResult(0x8002, p) ==
               if 1 <= q[0] + 0x100 * q[1] <= 16 && q[2] <= 1 then Ok(m) else Err(ValueOutOfRange)
  {
  }

  lemma SafetyStateLayout(p: seq<byte>)
    requires |p| == 8
    ensures var q: seq<int> := p;
            var m := SafetyState(q[0] + 0x100 * q[1] + 0x1_0000 * q[2] + 0x100_0000 * q[3],
                                 q[4] + 0x100 * q[5], q[6] + 0x100 * q[7]);
            ReadFields(0x8005, p) == m && DecodeResult(0x8005, p) == Ok(m)
  {
  }

  // ---- every type and every length ----

  /** Types that go to the MCU or both ways, types that come from it, and no others. */
  lemma DirectionOfEveryType(t: uint16)
    ensures DirectionOf(t) ==
            if t in {0x0001, 0x0002, 0x0003, 0x0004, 0x0101, 0x0102, 0x0103, 0x0104} then CpuToMcu
            else if t in {0x7001, 0x7002} then Both
            else if 0x8000 <= t <= 0x8005 then McuToCpu
            else UnknownDirection
  {
  }

  /** The wrong number of bytes for a type that has a layout. */
  predicate WrongLengthFor(t: uint16, n: nat) {
    || (t == 0x0001 && n != 5) || (t == 0x0002 && n != 3) || (t == 0x0003 && n != 2)
    || (t == 0x0004 && n != 0) || (t == 0x0101 && n != 6) || (t == 0x0102 && n != 4)
    || (t == 0x0103 && n != 1) || (t == 0x0104 && n != 3) || (t == 0x7001 && n != 4)
    || (t == 0x7002 && n != 4) || (t == 0x8000 && n != 8) || (t == 0x8001 && n != 19)
    || (t == 0x8002 && n != 5) || (t == 0x8005 && n != 8)
  }

  /** Exactly when each rejection that precedes the fields arises. */
  lemma RejectedBeforeFields(t: uint16, p: seq<byte>)
    ensures DecodeResult(t, p) == Err(UnknownType) <==>
            !(t in {0x0001, 0x0002, 0x0003, 0x0004, 0x0101, 0x0102, 0x0103, 0x0104, 0x7001, 0x7002}
              || 0x8000 <= t <= 0x8005)
    ensures DecodeResult(t, p) == Err(PayloadUndefined) <==> t in {0x8003, 0x8004}
    ensures DecodeResult(t, p) == Err(WrongPayloadLength) <==> WrongLengthFor(t, |p|)
    ensures DecodeResult(t, p) != Err(MessageBufferTooSmall)
  {
  }

  /** Encoding accepts and rejects what decoding does: a message is refused before it is sent
      just when its bytes would be refused on arrival, and for the same reason. */
  lemma ValidatedAsDecoded(m: Message)
    ensures !m.Untyped? ==>
              match DecodeResult(TypeOf(m), PayloadBytes(m))
              case Ok(n) => Validate(m) == Ok(()) && n == m
              case Err(e) => Validate(m) == Err(e) && e == ValueOutOfRange
    ensures m.Untyped? ==>
              Validate(m) == if m.typeId in {0x8003, 0x8004} then Err(PayloadUndefined) else Err(UnknownType)
  {
    hide InRange, ReadFields, PayloadBytes;
    if !m.Untyped? {
      ReadInvertsWrite(m);
    }
  }
}
