/** The typed payload codec: fourteen messages with a payload, two whose payload is still
    open, endpoint directions, exact lengths and value ranges. */
module Messages {
  import opened Bytes
  import opened Frames

  const HEARTBEAT: uint16 := 0x0001
  const ESTOP_SET: uint16 := 0x0002
  const CLEAR_LATCHED_FAULT: uint16 := 0x0003
  const IDENTIFY_REQUEST: uint16 := 0x0004
  const DRIVE_SETPOINT: uint16 := 0x0101
  const CLEANING_MOTORS_SET: uint16 := 0x0102
  const LIDAR_MOTOR_SET: uint16 := 0x0103
  const LED_SET: uint16 := 0x0104
  const ACK: uint16 := 0x7001
  const NACK: uint16 := 0x7002
  const MCU_HELLO: uint16 := 0x8000
  const FAST_TELEMETRY: uint16 := 0x8001
  const SAFETY_EVENT: uint16 := 0x8002
  const POWER_TELEMETRY: uint16 := 0x8003
  const MCU_DIAGNOSTIC: uint16 := 0x8004
  const SAFETY_STATE: uint16 := 0x8005

  const MAX_LINEAR_MM_S: int16 := 500
  const MAX_ANGULAR_MRAD_S: int16 := 4000
  const MAX_SETPOINT_DURATION_MS: uint16 := 250
  const MAX_PERCENT: byte := 100
  const CPU_MODE_DISARMED: byte := 0
  const CPU_MODE_STACK_HEALTHY: byte := 1

  datatype Direction = UnknownDirection | CpuToMcu | McuToCpu | Both

  datatype MessageError =
    | UnknownType
    | PayloadUndefined
    | WrongPayloadLength
    | MessageBufferTooSmall
    | ValueOutOfRange

  /** A message with its type; `Untyped` stands for a type that has no payload layout. */
  datatype AnyMessage =
    | Heartbeat(cpuTimeMs: uint32, cpuMode: byte)
    | EstopSet(active: byte, reason: uint16)
    | ClearLatchedFault(faultMask: uint16)
    | IdentifyRequest
    | DriveSetpoint(linearMmS: int16, angularMradS: int16, durationMs: uint16)
    | CleaningMotorsSet(mainBrushPct: byte, sideBrushPct: byte, fanPct: byte, pumpPct: byte)
    | LidarMotorSet(pwmPct: byte)
    | LedSet(ledId: byte, mode: byte, brightnessPct: byte)
    | Ack(ackedSequence: uint16, status: uint16)
    | Nack(rejectedSequence: uint16, errorCode: uint16)
    | McuHello(firmwareMajor: uint16, firmwareMinor: uint16, buildId: uint32)
    | FastTelemetry(timestampMs: uint32, leftTicks: int32, rightTicks: int32, bumperFlags: byte,
                    cliffFlags: byte, wheelDropFlags: byte, dockFlags: byte,
                    safetyLatchedFlags: byte, batteryMv: uint16)
    | SafetyEvent(event: uint16, eventActive: byte, detail: uint16)
    | SafetyState(stateTimestampMs: uint32, activeFlags: uint16, latchedFlags: uint16)
    | Untyped(typeId: uint16)

  type Message = m: AnyMessage | m.Untyped? ==> PayloadSize(m.typeId).Err? witness Untyped(0)

  /** The all-zero output that every rejection leaves behind. */
  const CLEARED: Message := Untyped(0)

  function TypeOf(m: AnyMessage): uint16 {
    match m
    case Heartbeat(_, _) => HEARTBEAT
    case EstopSet(_, _) => ESTOP_SET
    case ClearLatchedFault(_) => CLEAR_LATCHED_FAULT
    case IdentifyRequest => IDENTIFY_REQUEST
    case DriveSetpoint(_, _, _) => DRIVE_SETPOINT
    case CleaningMotorsSet(_, _, _, _) => CLEANING_MOTORS_SET
    case LidarMotorSet(_) => LIDAR_MOTOR_SET
    case LedSet(_, _, _) => LED_SET
    case Ack(_, _) => ACK
    case Nack(_, _) => NACK
    case McuHello(_, _, _) => MCU_HELLO
    case FastTelemetry(_, _, _, _, _, _, _, _, _) => FAST_TELEMETRY
    case SafetyEvent(_, _, _) => SAFETY_EVENT
    case SafetyState(_, _, _) => SAFETY_STATE
    case Untyped(t) => t
  }

  function DirectionOf(messageType: uint16): Direction {
    if messageType in {HEARTBEAT, ESTOP_SET, CLEAR_LATCHED_FAULT, IDENTIFY_REQUEST, DRIVE_SETPOINT,
                       CLEANING_MOTORS_SET, LIDAR_MOTOR_SET, LED_SET} then CpuToMcu
    else if messageType in {ACK, NACK} then Both
    else if messageType in {MCU_HELLO, FAST_TELEMETRY, SAFETY_EVENT, POWER_TELEMETRY,
                            MCU_DIAGNOSTIC, SAFETY_STATE} then McuToCpu
    else UnknownDirection
  }

  function PayloadSize(messageType: uint16): Result<uint16, MessageError> {
    if messageType == HEARTBEAT then Ok(5)
    else if messageType == ESTOP_SET then Ok(3)
    else if messageType == CLEAR_LATCHED_FAULT then Ok(2)
    else if messageType == IDENTIFY_REQUEST then Ok(0)
    else if messageType == DRIVE_SETPOINT then Ok(6)
    else if messageType == CLEANING_MOTORS_SET then Ok(4)
    else if messageType == LIDAR_MOTOR_SET then Ok(1)
    else if messageType == LED_SET then Ok(3)
    else if messageType == ACK then Ok(4)
    else if messageType == NACK then Ok(4)
    else if messageType == MCU_HELLO then Ok(8)
    else if messageType == FAST_TELEMETRY then Ok(19)
    else if messageType == SAFETY_EVENT then Ok(5)
    else if messageType == SAFETY_STATE then Ok(8)
    else if messageType == POWER_TELEMETRY || messageType == MCU_DIAGNOSTIC then Err(PayloadUndefined)
    else Err(UnknownType)
  }

  predicate IsKnownCpuMode(mode: byte) {
    mode == CPU_MODE_DISARMED || mode == CPU_MODE_STACK_HEALTHY
  }

  predicate InRange(m: Message) {
    match m
    case Heartbeat(_, mode) => IsKnownCpuMode(mode)
    case EstopSet(active, _) => active <= 1
    case DriveSetpoint(linear, angular, duration) =>
      && -MAX_LINEAR_MM_S <= linear <= MAX_LINEAR_MM_S
      && -MAX_ANGULAR_MRAD_S <= angular <= MAX_ANGULAR_MRAD_S
      && 0 < duration <= MAX_SETPOINT_DURATION_MS
    case CleaningMotorsSet(mainBrush, sideBrush, fan, pump) =>
      mainBrush <= MAX_PERCENT && sideBrush <= MAX_PERCENT && fan <= MAX_PERCENT && pump <= MAX_PERCENT
    case LidarMotorSet(pwm) => pwm <= MAX_PERCENT
    case LedSet(_, _, brightness) => brightness <= MAX_PERCENT
    case SafetyEvent(event, active, _) => 0 < event <= 16 && active <= 1
    case _ => true
  }

  function Validate(m: Message): Result<(), MessageError> {
    match PayloadSize(TypeOf(m))
    case Err(e) => Err(e)
    case Ok(_) => if InRange(m) then Ok(()) else Err(ValueOutOfRange)
  }

  /** The fields as bytes. */
  function PayloadBytes(m: Message): (s: seq<byte>)
    requires !m.Untyped?
    ensures PayloadSize(TypeOf(m)) == Ok(|s|)
  {
    match m
    case Heartbeat(time, mode) => WriteU32(time) + [mode]
    case EstopSet(active, reason) => [active] + WriteU16(reason)
    case ClearLatchedFault(mask) => WriteU16(mask)
    case IdentifyRequest => []
    case DriveSetpoint(linear, angular, duration) =>
      WriteI16(linear) + WriteI16(angular) + WriteU16(duration)
    case CleaningMotorsSet(mainBrush, sideBrush, fan, pump) => [mainBrush, sideBrush, fan, pump]
    case LidarMotorSet(pwm) => [pwm]
    case LedSet(id, mode, brightness) => [id, mode, brightness]
    case Ack(sequence, status) => WriteU16(sequence) + WriteU16(status)
    case Nack(sequence, code) => WriteU16(sequence) + WriteU16(code)
    case McuHello(major, minor, build) => WriteU16(major) + WriteU16(minor) + WriteU32(build)
    case FastTelemetry(time, left, right, bumper, cliff, wheelDrop, dock, latched, battery) =>
      WriteU32(time) + WriteI32(left) + WriteI32(right)
      + [bumper, cliff, wheelDrop, dock, latched] + WriteU16(battery)
    case SafetyEvent(event, active, detail) => WriteU16(event) + [active] + WriteU16(detail)
    case SafetyState(time, active, latched) => WriteU32(time) + WriteU16(active) + WriteU16(latched)
  }

  /** The bytes as fields. The size table and this switch cover the same types, so the default
      arm, which in the C code would leave a type in the output, is dead. */
  function ReadFields(messageType: uint16, p: seq<byte>): (m: Message)
    requires PayloadSize(messageType) == Ok(|p|)
    ensures TypeOf(m) == messageType && !m.Untyped?
  {
    if messageType == HEARTBEAT then Heartbeat(ReadU32(p[0], p[1], p[2], p[3]), p[4])
    else if messageType == ESTOP_SET then EstopSet(p[0], ReadU16(p[1], p[2]))
    else if messageType == CLEAR_LATCHED_FAULT then ClearLatchedFault(ReadU16(p[0], p[1]))
    else if messageType == IDENTIFY_REQUEST then IdentifyRequest
    else if messageType == DRIVE_SETPOINT then
      DriveSetpoint(ReadI16(p[0], p[1]), ReadI16(p[2], p[3]), ReadU16(p[4], p[5]))
    else if messageType == CLEANING_MOTORS_SET then CleaningMotorsSet(p[0], p[1], p[2], p[3])
    else if messageType == LIDAR_MOTOR_SET then LidarMotorSet(p[0])
    else if messageType == LED_SET then LedSet(p[0], p[1], p[2])
    else if messageType == ACK then Ack(ReadU16(p[0], p[1]), ReadU16(p[2], p[3]))
    else if messageType == NACK then Nack(ReadU16(p[0], p[1]), ReadU16(p[2], p[3]))
    else if messageType == MCU_HELLO then
      McuHello(ReadU16(p[0], p[1]), ReadU16(p[2], p[3]), ReadU32(p[4], p[5], p[6], p[7]))
    else if messageType == FAST_TELEMETRY then
      FastTelemetry(ReadU32(p[0], p[1], p[2], p[3]), ReadI32(p[4], p[5], p[6], p[7]),
                    ReadI32(p[8], p[9], p[10], p[11]), p[12], p[13], p[14], p[15], p[16],
                    ReadU16(p[17], p[18]))
    else if messageType == SAFETY_EVENT then
      SafetyEvent(ReadU16(p[0], p[1]), p[2], ReadU16(p[3], p[4]))
    else if messageType == SAFETY_STATE then
      SafetyState(ReadU32(p[0], p[1], p[2], p[3]), ReadU16(p[4], p[5]), ReadU16(p[6], p[7]))
    else
      assert false;
      CLEARED
  }

  function DecodeResult(messageType: uint16, payload: seq<byte>): Result<Message, MessageError> {
    match PayloadSize(messageType)
    case Err(e) => Err(e)
    case Ok(size) =>
      if |payload| != size then Err(WrongPayloadLength)
      else
        var m := ReadFields(messageType, payload);
        match Validate(m)
        case Err(e) => Err(e)
        case Ok(_) => Ok(m)
  }

  // ---- the codec is a bijection ----

  /** Reading inverts writing, message by message. */
  lemma ReadInvertsWrite(m: Message)
    requires !m.Untyped?
    ensures ReadFields(TypeOf(m), PayloadBytes(m)) == m
  {
    hide ReadU16, ReadU32, ReadI16, ReadI32, WriteU16, WriteU32, WriteI16, WriteI32;
    match m
    case Heartbeat(time, _) => U32RoundTrip(time);
    case EstopSet(_, reason) => U16RoundTrip(reason);
    case ClearLatchedFault(mask) => U16RoundTrip(mask);
    case IdentifyRequest =>
    case DriveSetpoint(linear, angular, duration) =>
      I16RoundTrip(linear);
      I16RoundTrip(angular);
      U16RoundTrip(duration);
    case CleaningMotorsSet(_, _, _, _) =>
    case LidarMotorSet(_) =>
    case LedSet(_, _, _) =>
    case Ack(sequence, status) =>
      U16RoundTrip(sequence);
      U16RoundTrip(status);
    case Nack(sequence, code) =>
      U16RoundTrip(sequence);
      U16RoundTrip(code);
    case McuHello(major, minor, build) =>
      U16RoundTrip(major);
      U16RoundTrip(minor);
      U32RoundTrip(build);
    case FastTelemetry(time, left, right, _, _, _, _, _, battery) =>
      U32RoundTrip(time);
      I32RoundTrip(left);
      I32RoundTrip(right);
      U16RoundTrip(battery);
    case SafetyEvent(event, _, detail) =>
      U16RoundTrip(event);
      U16RoundTrip(detail);
    case SafetyState(time, active, latched) =>
      U32RoundTrip(time);
      U16RoundTrip(active);
      U16RoundTrip(latched);
  }

  /** Writing inverts reading, on every payload of the right length. */
  lemma WriteInvertsRead(messageType: uint16, p: seq<byte>)
    requires PayloadSize(messageType) == Ok(|p|)
    ensures PayloadBytes(ReadFields(messageType, p)) == p
  {
    hide ReadU16, ReadU32, ReadI16, ReadI32, WriteU16, WriteU32, WriteI16, WriteI32;
    match ReadFields(messageType, p)
    case Heartbeat(_, _) => U32Canonical(p[0], p[1], p[2], p[3]);
    case EstopSet(_, _) => U16Canonical(p[1], p[2]);
    case ClearLatchedFault(_) => U16Canonical(p[0], p[1]);
    case IdentifyRequest =>
    case DriveSetpoint(_, _, _) =>
      I16Canonical(p[0], p[1]);
      I16Canonical(p[2], p[3]);
      U16Canonical(p[4], p[5]);
    case CleaningMotorsSet(_, _, _, _) =>
    case LidarMotorSet(_) =>
    case LedSet(_, _, _) =>
    case Ack(_, _) =>
      U16Canonical(p[0], p[1]);
      U16Canonical(p[2], p[3]);
    case Nack(_, _) =>
      U16Canonical(p[0], p[1]);
      U16Canonical(p[2], p[3]);
    case McuHello(_, _, _) =>
      U16Canonical(p[0], p[1]);
      U16Canonical(p[2], p[3]);
      U32Canonical(p[4], p[5], p[6], p[7]);
    case FastTelemetry(_, _, _, _, _, _, _, _, _) =>
      U32Canonical(p[0], p[1], p[2], p[3]);
      I32Canonical(p[4], p[5], p[6], p[7]);
      I32Canonical(p[8], p[9], p[10], p[11]);
      U16Canonical(p[17], p[18]);
    case SafetyEvent(_, _, _) =>
      U16Canonical(p[0], p[1]);
      U16Canonical(p[3], p[4]);
    case SafetyState(_, _, _) =>
      U32Canonical(p[0], p[1], p[2], p[3]);
      U16Canonical(p[4], p[5]);
      U16Canonical(p[6], p[7]);
  }

  /** Decoding yields `m` exactly when `m` is a valid message of that type and the payload is
      its encoding. */
  lemma DecodesExactlyEncodings(messageType: uint16, payload: seq<byte>, m: Message)
    ensures DecodeResult(messageType, payload) == Ok(m) <==>
            Validate(m).Ok? && TypeOf(m) == messageType && PayloadBytes(m) == payload
  {
    hide InRange, PayloadBytes, ReadFields;
    if Validate(m).Ok? && TypeOf(m) == messageType && PayloadBytes(m) == payload {
      ReadInvertsWrite(m);
    }
    if DecodeResult(messageType, payload) == Ok(m) {
      WriteInvertsRead(messageType, payload);
    }
  }

  // ---- messages in frames ----

  /** The frame that sends a message. */
  function FrameFor(m: Message, sequence: uint16, flags: byte): (f: WireFrame)
    requires !m.Untyped?
    ensures f.messageType == TypeOf(m) && f.payload == PayloadBytes(m)
  {
    PayloadSizeBound(TypeOf(m));
    Frame(VERSION, flags, sequence, TypeOf(m), PayloadBytes(m))
  }

  lemma PayloadSizeBound(messageType: uint16)
    ensures PayloadSize(messageType).Ok? ==> PayloadSize(messageType).value <= 19
  {
  }

  lemma ValidIsTyped(m: Message)
    ensures Validate(m).Ok? ==> !m.Untyped?
  {
  }

  // ---- the codec as the C code performs it ----

  /** Fills `output` only on success and clears it on every rejection. */
  method DecodePayload(messageType: uint16, payload: seq<byte>)
    returns (result: Result<(), MessageError>, output: Message)
    ensures match DecodeResult(messageType, payload)
            case Ok(m) => result == Ok(()) && output == m
            case Err(e) => result == Err(e) && output == Untyped(0)
  {
    output := CLEARED;
    var size := PayloadSize(messageType);
    if size.Err? {
      return Err(size.error), output;
    }
    if |payload| != size.value {
      return Err(WrongPayloadLength), output;
    }
    output := ReadFields(messageType, payload);
    result := Validate(output);
    if result.Err? {
      output := CLEARED;
    }
  }

  /** Writes the encoding and its length; on a rejection the length is zero and the output
      buffer untouched. */
  method EncodePayload(m: Message, output: array<byte>)
    returns (result: Result<(), MessageError>, outputLength: uint16)
    modifies output
    ensures Validate(m).Err? ==> result == Validate(m)
    ensures Validate(m).Ok? && output.Length < |PayloadBytes(m)| ==> result == Err(MessageBufferTooSmall)
    ensures Validate(m).Ok? && output.Length >= |PayloadBytes(m)| ==>
              && result == Ok(()) && outputLength == |PayloadBytes(m)|
              && output[..outputLength] == PayloadBytes(m)
              && output[outputLength..] == old(output[outputLength..])
    ensures result.Err? ==> outputLength == 0 && output[..] == old(output[..])
  {
    outputLength := 0;
    result := Validate(m);
    if result.Err? {
      return;
    }
    var size := PayloadSize(TypeOf(m));
    if output.Length < size.value {
      return Err(MessageBufferTooSmall), 0;
    }
    WriteFields(m, output);
    outputLength := size.value;
  }

  method WriteFields(m: Message, output: array<byte>)
    requires !m.Untyped? && |PayloadBytes(m)| <= output.Length
    modifies output
    ensures output[..|PayloadBytes(m)|] == PayloadBytes(m)
    ensures forall i :: |PayloadBytes(m)| <= i < output.Length ==> output[i] == old(output[i])
  {
    hide PayloadBytes;
    if DirectionOf(TypeOf(m)).CpuToMcu? {
      WriteCommand(m, output);
    } else if m.FastTelemetry? {
      WriteTelemetry(m, output);
    } else {
      WriteReport(m, output);
    }
  }

  method WriteCommand(m: Message, output: array<byte>)
    requires !m.Untyped? && DirectionOf(TypeOf(m)).CpuToMcu? && |PayloadBytes(m)| <= output.Length
    modifies output
    ensures output[..|PayloadBytes(m)|] == PayloadBytes(m)
    ensures forall i :: |PayloadBytes(m)| <= i < output.Length ==> output[i] == old(output[i])
  {
    hide WriteU16, WriteU32;
    match m {
      case Heartbeat(time, mode) =>
        PutU32(output, 0, time);
        output[4] := mode;
      case EstopSet(active, reason) =>
        output[0] := active;
        PutU16(output, 1, reason);
      case ClearLatchedFault(mask) =>
        PutU16(output, 0, mask);
      case IdentifyRequest =>
      case DriveSetpoint(linear, angular, duration) =>
        PutU16(output, 0, linear % 0x1_0000);
        PutU16(output, 2, angular % 0x1_0000);
        PutU16(output, 4, duration);
      case CleaningMotorsSet(mainBrush, sideBrush, fan, pump) =>
        output[0] := mainBrush;
        output[1] := sideBrush;
        output[2] := fan;
        output[3] := pump;
      case LidarMotorSet(pwm) =>
        output[0] := pwm;
      case LedSet(id, mode, brightness) =>
        output[0] := id;
        output[1] := mode;
        output[2] := brightness;
    }
  }

  method WriteReport(m: Message, output: array<byte>)
    requires !m.Untyped? && !DirectionOf(TypeOf(m)).CpuToMcu? && !m.FastTelemetry?
    requires |PayloadBytes(m)| <= output.Length
    modifies output
    ensures output[..|PayloadBytes(m)|] == PayloadBytes(m)
    ensures forall i :: |PayloadBytes(m)| <= i < output.Length ==> output[i] == old(output[i])
  {
    hide WriteU16, WriteU32;
    match m {
      case Ack(sequence, status) =>
        PutU16(output, 0, sequence);
        PutU16(output, 2, status);
      case Nack(sequence, code) =>
        PutU16(output, 0, sequence);
        PutU16(output, 2, code);
      case McuHello(major, minor, build) =>
        PutU16(output, 0, major);
        PutU16(output, 2, minor);
        PutU32(output, 4, build);
      case SafetyEvent(event, active, detail) =>
        PutU16(output, 0, event);
        output[2] := active;
        PutU16(output, 3, detail);
      case SafetyState(time, active, latched) =>
        PutU32(output, 0, time);
        PutU16(output, 4, active);
        PutU16(output, 6, latched);
    }
  }

  method WriteTelemetry(m: Message, output: array<byte>)
    requires m.FastTelemetry? && |PayloadBytes(m)| <= output.Length
    modifies output
    ensures output[..|PayloadBytes(m)|] == PayloadBytes(m)
    ensures forall i :: |PayloadBytes(m)| <= i < output.Length ==> output[i] == old(output[i])
  {
    hide WriteU16, WriteU32;
    PutU32(output, 0, m.timestampMs);
    PutU32(output, 4, m.leftTicks % 0x1_0000_0000);
    PutU32(output, 8, m.rightTicks % 0x1_0000_0000);
    output[12] := m.bumperFlags;
    output[13] := m.cliffFlags;
    output[14] := m.wheelDropFlags;
    output[15] := m.dockFlags;
    output[16] := m.safetyLatchedFlags;
    PutU16(output, 17, m.batteryMv);
  }
}
