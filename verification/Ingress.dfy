/** The gate between untrusted serial bytes and a command dispatcher: framing, then
    direction, exact length and value ranges, then the consumer's callback. */
module Ingress {
  import opened Bytes
  import opened Frames
  import opened Scanner
  import Machine
  import opened Messages
  import opened Layouts
  import opened StreamDecoder

  datatype IngressError =
    | BadFrameVersion
    | WrongDirection
    | UnknownMessageType
    | UndefinedPayload
    | WrongLength
    | OutOfRange
    | CodecError

  function MapError(e: MessageError): IngressError {
    match e
    case UnknownType => UnknownMessageType
    case PayloadUndefined => UndefinedPayload
    case WrongPayloadLength => WrongLength
    case ValueOutOfRange => OutOfRange
    case MessageBufferTooSmall => CodecError
  }

  function Gate(f: Frame): Result<Message, IngressError> {
    if f.version != VERSION then Err(BadFrameVersion)
    else if DirectionOf(f.messageType).UnknownDirection? then Err(UnknownMessageType)
    else if DirectionOf(f.messageType).McuToCpu? then Err(WrongDirection)
    else match DecodeResult(f.messageType, f.payload)
      case Ok(m) => Ok(m)
      case Err(e) => Err(MapError(e))
  }

  /** Passes the gate's message on, and nothing but the cleared message on a rejection. */
  method ValidateFrame(f: Frame) returns (result: Result<(), IngressError>, output: Message)
    ensures match Gate(f)
            case Ok(m) => result == Ok(()) && output == m
            case Err(e) => result == Err(e) && output == Untyped(0)
  {
    output := CLEARED;
    if f.version != VERSION {
      return Err(BadFrameVersion), output;
    }
    var direction := DirectionOf(f.messageType);
    if direction.UnknownDirection? {
      return Err(UnknownMessageType), output;
    }
    if !direction.CpuToMcu? && !direction.Both? {
      return Err(WrongDirection), output;
    }
    var decoded;
    decoded, output := DecodePayload(f.messageType, f.payload);
    result := if decoded.Ok? then Ok(()) else Err(MapError(decoded.error));
  }

  /** What the gate lets through: exactly the frames that a valid message of an allowed
      direction is sent in. */
  lemma GateAdmitsExactly(f: WireFrame, m: Message)
    ensures Gate(f) == Ok(m) <==>
            && DirectionOf(f.messageType) in {CpuToMcu, Both}
            && Validate(m).Ok?
            && f == FrameFor(m, f.sequence, f.flags)
  {
    hide DirectionOf, DecodeResult, Validate, PayloadBytes;
    DecodesExactlyEncodings(f.messageType, f.payload, m);
    ValidIsTyped(m);
  }

  ghost predicate EncodesOutOfRange(f: WireFrame) {
    exists m: Message :: !m.Untyped? && TypeOf(m) == f.messageType && PayloadBytes(m) == f.payload
                         && !InRange(m)
  }

  /** Why a frame from the decoder is turned away: its type is unknown, or is sent the other
      way, or its payload has the wrong length, or is the encoding of a message with a field
      out of range. No other reason arises. */
  lemma GateRejectsExactly(f: WireFrame)
    ensures var d, size := DirectionOf(f.messageType), PayloadSize(f.messageType);
            && (Gate(f) == Err(UnknownMessageType) <==> size == Err(UnknownType))
            && (Gate(f) == Err(WrongDirection) <==> d == McuToCpu)
            && (Gate(f) == Err(WrongLength) <==> d in {CpuToMcu, Both} && size != Ok(|f.payload|))
            && (Gate(f) == Err(OutOfRange) <==> d in {CpuToMcu, Both} && EncodesOutOfRange(f))
            && (Gate(f).Err? ==>
                  Gate(f).error in {UnknownMessageType, WrongDirection, WrongLength, OutOfRange})
  {
    hide InRange, PayloadBytes, ReadFields;
    GateErrors(f);
    if PayloadSize(f.messageType) == Ok(|f.payload|) {
      WriteInvertsRead(f.messageType, f.payload);
      var m := ReadFields(f.messageType, f.payload);
      if EncodesOutOfRange(f) {
        var m': Message :| !m'.Untyped? && TypeOf(m') == f.messageType
                           && PayloadBytes(m') == f.payload && !InRange(m');
        ReadInvertsWrite(m');
      }
    }
  }

  /** A frame from the decoder cannot fail on its version, an open payload or the codec. */
  lemma GateErrors(f: WireFrame)
    ensures Gate(f).Err? ==> Gate(f).error in {UnknownMessageType, WrongDirection, WrongLength, OutOfRange}
  {
  }

  /** The gate in numbers: the version first, then the direction of the type, then its length;
      only a command of the right length can be out of range. */
  lemma GateInNumbers(f: Frame)
    ensures var t := f.messageType;
            var known := t in {0x0001, 0x0002, 0x0003, 0x0004, 0x0101, 0x0102, 0x0103, 0x0104,
                               0x7001, 0x7002};
            && (Gate(f) == Err(BadFrameVersion) <==> f.version != 1)
            && (Gate(f) == Err(WrongDirection) <==> f.version == 1 && 0x8000 <= t <= 0x8005)
            && (Gate(f) == Err(UnknownMessageType) <==>
                  f.version == 1 && !known && !(0x8000 <= t <= 0x8005))
            && (Gate(f) == Err(WrongLength) <==>
                  f.version == 1 && known && WrongLengthFor(t, |f.payload|))
            && (Gate(f) == Err(OutOfRange) <==>
                  f.version == 1 && known && DecodeResult(t, f.payload) == Err(ValueOutOfRange))
            && Gate(f) != Err(UndefinedPayload) && Gate(f) != Err(CodecError)
  {
    hide DirectionOf, DecodeResult;
    DirectionOfEveryType(f.messageType);
    RejectedBeforeFields(f.messageType, f.payload);
  }

  // ---- what is dispatched and counted ----

  datatype Dispatch = Dispatch(frame: WireFrame, message: Message)

  function DispatchOf(f: WireFrame): seq<Dispatch> {
    match Gate(f)
    case Ok(m) => [Dispatch(f, m)]
    case Err(_) => []
  }

  /** The callback trace: the frame trace filtered and decoded by the gate. */
  function Dispatches(frames: seq<WireFrame>): seq<Dispatch> {
    if frames == [] then []
    else Dispatches(frames[..|frames| - 1]) + DispatchOf(frames[|frames| - 1])
  }

  lemma {:induction false} DispatchesConcat(a: seq<WireFrame>, b: seq<WireFrame>)
    ensures Dispatches(a + b) == Dispatches(a) + Dispatches(b)
    decreases |b|
  {
    hide DispatchOf;
    if b == [] {
      assert a + b == a;
    } else {
      var front := b[..|b| - 1];
      assert (a + b)[..|a + b| - 1] == a + front;
      DispatchesConcat(a, front);
    }
  }

  lemma {:induction false} DispatchedFrames(frames: seq<WireFrame>, d: Dispatch)
    ensures d in Dispatches(frames) <==> d.frame in frames && Gate(d.frame) == Ok(d.message)
  {
    hide Gate;
    if frames == [] {
    } else {
      var front, last := frames[..|frames| - 1], frames[|frames| - 1];
      DispatchedFrames(front, d);
      assert frames == front + [last];
    }
  }

  /** No command that reaches the consumer is outside the limits, and nothing that only the
      MCU sends reaches it at all. */
  lemma DispatchedWithinLimits(frames: seq<WireFrame>, d: Dispatch)
    requires d in Dispatches(frames)
    ensures match d.message
            case Heartbeat(_, mode) => mode == 0 || mode == 1
            case EstopSet(active, _) => active <= 1
            case DriveSetpoint(linear, angular, duration) =>
              -500 <= linear <= 500 && -4000 <= angular <= 4000 && 1 <= duration <= 250
            case CleaningMotorsSet(mainBrush, sideBrush, fan, pump) =>
              mainBrush <= 100 && sideBrush <= 100 && fan <= 100 && pump <= 100
            case LidarMotorSet(pwm) => pwm <= 100
            case LedSet(_, _, brightness) => brightness <= 100
            case ClearLatchedFault(_) => true
            case IdentifyRequest => true
            case Ack(_, _) => true
            case Nack(_, _) => true
            case _ => false
  {
    hide Gate, Dispatches;
    DispatchedFrames(frames, d);
    GateAdmitsExactly(d.frame, d.message);
  }

  /** True totals of what the 32-bit ingress counters count. */
  datatype GateTotals = GateTotals(accepted: nat, wrongDirection: nat, unknownType: nat,
                                   undefinedPayload: nat, wrongLength: nat, outOfRange: nat,
                                   codecErrors: nat)
  {
    function Sum(): nat {
      accepted + wrongDirection + unknownType + undefinedPayload + wrongLength + outOfRange + codecErrors
    }
  }

  function CountFrame(t: GateTotals, f: WireFrame): GateTotals {
    match Gate(f)
    case Ok(_) => t.(accepted := t.accepted + 1)
    case Err(WrongDirection) => t.(wrongDirection := t.wrongDirection + 1)
    case Err(UnknownMessageType) => t.(unknownType := t.unknownType + 1)
    case Err(UndefinedPayload) => t.(undefinedPayload := t.undefinedPayload + 1)
    case Err(WrongLength) => t.(wrongLength := t.wrongLength + 1)
    case Err(OutOfRange) => t.(outOfRange := t.outOfRange + 1)
    case Err(CodecError) => t.(codecErrors := t.codecErrors + 1)
    case Err(BadFrameVersion) => t
  }

  function GateTally(frames: seq<WireFrame>): GateTotals {
    if frames == [] then GateTotals(0, 0, 0, 0, 0, 0, 0)
    else CountFrame(GateTally(frames[..|frames| - 1]), frames[|frames| - 1])
  }

  /** Every frame is counted exactly once, as accepted or under one reason, and two of the
      reasons never arise. */
  lemma {:induction false} EveryFrameCountedOnce(frames: seq<WireFrame>)
    ensures GateTally(frames).Sum() == |frames|
    ensures GateTally(frames).undefinedPayload == GateTally(frames).codecErrors == 0
    ensures GateTally(frames).accepted == |Dispatches(frames)|
  {
    hide Gate;
    if frames == [] {
    } else {
      var front, last := frames[..|frames| - 1], frames[|frames| - 1];
      EveryFrameCountedOnce(front);
      GateErrors(last);
    }
  }

  /** The frames that were turned away for one reason, and how many there are. */
  function RejectedPlaces(frames: seq<WireFrame>, error: IngressError): set<nat> {
    set k: nat | k < |frames| && Gate(frames[k]) == Err(error)
  }

  function Rejected(frames: seq<WireFrame>, error: IngressError): nat {
    |RejectedPlaces(frames, error)|
  }

  lemma RejectedPlacesOneMore(front: seq<WireFrame>, last: WireFrame, error: IngressError)
    ensures RejectedPlaces(front + [last], error) ==
            RejectedPlaces(front, error) + if Gate(last) == Err(error) then {|front|} else {}
    ensures |front| !in RejectedPlaces(front, error)
  {
    hide Gate;
    var frames, n := front + [last], |front|;
    forall k: nat
      ensures k in RejectedPlaces(frames, error) <==>
              k in RejectedPlaces(front, error) || (k == n && Gate(last) == Err(error))
    {
      assert k < n ==> frames[k] == front[k];
    }
  }

  lemma RejectedOneMore(front: seq<WireFrame>, last: WireFrame, error: IngressError)
    ensures Rejected(front + [last], error) ==
            Rejected(front, error) + if Gate(last) == Err(error) then 1 else 0
  {
    hide Gate, RejectedPlaces;
    RejectedPlacesOneMore(front, last, error);
  }

  lemma NothingRejected()
    ensures forall error :: Rejected([], error) == 0
  {
    forall error ensures Rejected([], error) == 0 {
      assert RejectedPlaces([], error) == {};
    }
  }

  /** What the totals mean: each counts the frames that the gate turned away for its reason. */
  lemma {:induction false} GateTallyCounts(frames: seq<WireFrame>)
    ensures var t := GateTally(frames);
            && t.wrongDirection == Rejected(frames, WrongDirection)
            && t.unknownType == Rejected(frames, UnknownMessageType)
            && t.undefinedPayload == Rejected(frames, UndefinedPayload)
            && t.wrongLength == Rejected(frames, WrongLength)
            && t.outOfRange == Rejected(frames, OutOfRange)
            && t.codecErrors == Rejected(frames, CodecError)
  {
    hide Gate, Rejected;
    if frames == [] {
      NothingRejected();
    } else {
      var front, last := frames[..|frames| - 1], frames[|frames| - 1];
      GateTallyCounts(front);
      assert frames == front + [last];
      RejectedOneMore(front, last, WrongDirection);
      RejectedOneMore(front, last, UnknownMessageType);
      RejectedOneMore(front, last, UndefinedPayload);
      RejectedOneMore(front, last, WrongLength);
      RejectedOneMore(front, last, OutOfRange);
      RejectedOneMore(front, last, CodecError);
    }
  }

  datatype IngressStats = IngressStats(
    acceptedMessages: uint32, wrongDirection: uint32, unknownType: uint32, undefinedPayload: uint32,
    wrongPayloadLength: uint32, valueOutOfRange: uint32, codecErrors: uint32)

  function IngressStatsOf(frames: seq<WireFrame>): IngressStats {
    Shown(GateTally(frames))
  }

  /** What each ingress counter shows, modulo 2^32, by what it counts; every frame is either
      dispatched or turned away for one of the four reasons. */
  lemma IngressCountersShow(frames: seq<WireFrame>)
    ensures var s := IngressStatsOf(frames);
            && s.acceptedMessages == |Dispatches(frames)| % 4294967296
            && s.wrongDirection == Rejected(frames, WrongDirection) % 4294967296
            && s.unknownType == Rejected(frames, UnknownMessageType) % 4294967296
            && s.undefinedPayload == 0
            && s.wrongPayloadLength == Rejected(frames, WrongLength) % 4294967296
            && s.valueOutOfRange == Rejected(frames, OutOfRange) % 4294967296
            && s.codecErrors == 0
    ensures |frames| == |Dispatches(frames)| + Rejected(frames, WrongDirection)
                        + Rejected(frames, UnknownMessageType) + Rejected(frames, WrongLength)
                        + Rejected(frames, OutOfRange)
  {
    hide GateTally, Rejected, Dispatches;
    GateTallyCounts(frames);
    EveryFrameCountedOnce(frames);
  }

  function Shown(t: GateTotals): IngressStats {
    IngressStats(Wrap32(t.accepted), Wrap32(t.wrongDirection), Wrap32(t.unknownType),
                 Wrap32(t.undefinedPayload), Wrap32(t.wrongLength), Wrap32(t.outOfRange),
                 Wrap32(t.codecErrors))
  }

  /** At every feed boundary the decoder's frame counter is, modulo 2^32, the sum of the
      ingress counters, two of which stay at zero. */
  lemma CountersAgree(log: seq<Piece>, gapResets: nat)
    ensures var d, g := StatsOf(log, gapResets), IngressStatsOf(Machine.FramesOf(log));
            && g.undefinedPayload == g.codecErrors == 0
            && d.frames == Wrap32(g.acceptedMessages + g.wrongDirection + g.unknownType
                                  + g.wrongPayloadLength + g.valueOutOfRange)
  {
    hide StatsOf, Wrap32, GateTally, Machine.FramesOf, Dispatches;
    var frames := Machine.FramesOf(log);
    FrameCounter(log, gapResets);
    EveryFrameCountedOnce(frames);
    WrapSum(GateTally(frames));
  }

  lemma FrameCounter(log: seq<Piece>, gapResets: nat)
    ensures StatsOf(log, gapResets).frames == Wrap32(|Machine.FramesOf(log)|)
  {
    hide Machine.Tally, Machine.FramesOf, Flatten, Wrap32;
    Machine.FlattenLength(log);
  }

  lemma WrapSum(t: GateTotals)
    ensures Wrap32(Wrap32(t.accepted) + Wrap32(t.wrongDirection) + Wrap32(t.unknownType)
                   + Wrap32(t.wrongLength) + Wrap32(t.outOfRange)) ==
            Wrap32(t.accepted + t.wrongDirection + t.unknownType + t.wrongLength + t.outOfRange)
    ensures Wrap32(0) == 0
  {
    WrapZero();
    hide Wrap32;
    var a, b, c, d, e := t.accepted, t.wrongDirection, t.unknownType, t.wrongLength, t.outOfRange;
    Wrap32Adds(a, Wrap32(b) + Wrap32(c) + Wrap32(d) + Wrap32(e));
    Wrap32Adds(b, a + Wrap32(c) + Wrap32(d) + Wrap32(e));
    Wrap32Adds(c, a + b + Wrap32(d) + Wrap32(e));
    Wrap32Adds(d, a + b + c + Wrap32(e));
    Wrap32Adds(e, a + b + c + d);
  }

  lemma WrapZero()
    ensures Wrap32(0) == 0
  {
  }

  /** The counter that goes with a rejection; a bad version has none. */
  function CountRejection(s: IngressStats, error: IngressError): IngressStats {
    match error
    case WrongDirection => s.(wrongDirection := Wrap32(s.wrongDirection + 1))
    case UnknownMessageType => s.(unknownType := Wrap32(s.unknownType + 1))
    case UndefinedPayload => s.(undefinedPayload := Wrap32(s.undefinedPayload + 1))
    case WrongLength => s.(wrongPayloadLength := Wrap32(s.wrongPayloadLength + 1))
    case OutOfRange => s.(valueOutOfRange := Wrap32(s.valueOutOfRange + 1))
    case CodecError => s.(codecErrors := Wrap32(s.codecErrors + 1))
    case BadFrameVersion => s
  }

  class CpuIngress {
    const decoder: Decoder
    var stats: IngressStats

    ghost predicate Valid()
      reads this, decoder, decoder.buffer
    {
      decoder.Valid() && stats == IngressStatsOf(Machine.FramesOf(decoder.log))
    }

    constructor ()
      ensures Valid() && fresh(decoder) && fresh(decoder.buffer)
      ensures decoder.Model() == Machine.INITIAL
    {
      decoder := new Decoder();
      stats := IngressStats(0, 0, 0, 0, 0, 0, 0);
    }

    /** What the decoder's callback does with one frame. */
    method HandleFrame(f: WireFrame, ghost before: seq<WireFrame>) returns (dispatched: seq<Dispatch>)
      requires stats == IngressStatsOf(before)
      modifies this
      ensures stats == IngressStatsOf(before + [f])
      ensures dispatched == DispatchOf(f)
    {
      hide Gate, DispatchOf, CountRejection, CountFrame;
      assert (before + [f])[..|before|] == before;
      ShownCounts(GateTally(before), f);
      var result, message := ValidateFrame(f);
      DispatchCases(f);
      if result.Err? {
        stats := CountRejection(stats, result.error);
        return [];
      }
      stats := stats.(acceptedMessages := Wrap32(stats.acceptedMessages + 1));
      dispatched := [Dispatch(f, message)];
    }

    /** The decoder's callbacks of one feed, in order. */
    method HandleFrames(frames: seq<WireFrame>, ghost before: seq<WireFrame>)
      returns (accepted: nat, dispatched: seq<Dispatch>)
      requires stats == IngressStatsOf(before)
      modifies this
      ensures stats == IngressStatsOf(before + frames)
      ensures dispatched == Dispatches(frames) && accepted == |dispatched|
    {
      hide IngressStatsOf, Gate, DispatchOf;
      accepted, dispatched := 0, [];
      assert before + frames[..0] == before;
      for i := 0 to |frames|
        invariant stats == IngressStatsOf(before + frames[..i])
        invariant dispatched == Dispatches(frames[..i]) && accepted == |dispatched|
      {
        var calls := HandleFrame(frames[i], before + frames[..i]);
        assert before + frames[..i + 1] == before + frames[..i] + [frames[i]];
        assert frames[..i + 1][..i] == frames[..i];
        dispatched := dispatched + calls;
        accepted := accepted + |calls|;
      }
      assert frames[..|frames|] == frames;
    }

    /** Feeds a portion of input. `dispatched` lists the consumer callbacks, in order. */
    method Feed(data: seq<byte>) returns (accepted: nat, dispatched: seq<Dispatch>)
      requires Valid()
      modifies this, decoder, decoder.buffer
      ensures Valid()
      ensures decoder.Model() == Machine.Feed(old(decoder.Model()), data)
      ensures Dispatches(Machine.FramesOf(decoder.log)) ==
              old(Dispatches(Machine.FramesOf(decoder.log))) + dispatched
      ensures accepted == |dispatched|
      ensures stats.acceptedMessages == Wrap32(old(stats).acceptedMessages + accepted)
    {
      hide IngressStatsOf, Dispatches, Judge, Machine.Feed, Machine.FramesOf, StatsOf, Wrap32;
      ghost var before := Machine.FramesOf(decoder.log);
      var _, frames := decoder.Feed(data);
      accepted, dispatched := HandleFrames(frames, before);
      DispatchesConcat(before, frames);
      AcceptedGrows(before, frames);
    }

    method ResetIncomplete()
      requires Valid()
      modifies decoder
      ensures Valid()
      ensures decoder.Model() == Machine.ResetIncomplete(old(decoder.Model()))
      ensures Machine.FramesOf(decoder.log) == old(Machine.FramesOf(decoder.log))
    {
      hide IngressStatsOf, Machine.ResetIncomplete, Judge, StatsOf;
      Machine.ResetKeepsFrames(decoder.Model());
      decoder.ResetIncomplete();
    }
  }

  lemma DispatchCases(f: WireFrame)
    ensures match Gate(f) case Ok(m) => DispatchOf(f) == [Dispatch(f, m)] case Err(_) => DispatchOf(f) == []
  {
  }

  lemma ShownCounts(t: GateTotals, f: WireFrame)
    ensures var s := Shown(t);
            Shown(CountFrame(t, f)) ==
            match Gate(f)
            case Ok(_) => s.(acceptedMessages := Wrap32(s.acceptedMessages + 1))
            case Err(e) => CountRejection(s, e)
  {
    hide Gate, Wrap32;
    Wrap32Adds(t.accepted, 1);
    Wrap32Adds(t.wrongDirection, 1);
    Wrap32Adds(t.unknownType, 1);
    Wrap32Adds(t.undefinedPayload, 1);
    Wrap32Adds(t.wrongLength, 1);
    Wrap32Adds(t.outOfRange, 1);
    Wrap32Adds(t.codecErrors, 1);
  }

  // ---- end to end ----

  /** The offsets of those frames that pass the gate. */
  function DispatchOffsets(frames: seq<WireFrame>, offsets: seq<nat>): (r: seq<nat>)
    requires |frames| == |offsets|
    ensures |r| == |Dispatches(frames)|
  {
    if frames == [] then []
    else
      var n := |frames| - 1;
      DispatchOffsets(frames[..n], offsets[..n]) + if Gate(frames[n]).Ok? then [offsets[n]] else []
  }

  function CarriersOf(dispatches: seq<Dispatch>): (r: seq<WireFrame>)
    ensures |r| == |dispatches|
  {
    seq(|dispatches|, k requires 0 <= k < |dispatches| => dispatches[k].frame)
  }

  ghost predicate EndBy(frames: seq<WireFrame>, offsets: seq<nat>, end: nat)
    requires |frames| == |offsets|
  {
    forall j :: 0 <= j < |frames| ==> offsets[j] + FrameSize(frames[j]) <= end
  }

  lemma PlacedLast(bytes: seq<byte>, frames: seq<WireFrame>, offsets: seq<nat>)
    requires Machine.Placed(bytes, frames, offsets) && frames != []
    ensures var n := |frames| - 1;
            && Machine.Placed(bytes, frames[..n], offsets[..n])
            && EndBy(frames[..n], offsets[..n], offsets[n])
            && FrameAt(bytes, offsets[n], frames[n])
  {
    hide FrameAt;
  }

  lemma PlacedOneMore(bytes: seq<byte>, frames: seq<WireFrame>, offsets: seq<nat>, f: WireFrame, i: nat)
    requires Machine.Placed(bytes, frames, offsets) && EndBy(frames, offsets, i) && FrameAt(bytes, i, f)
    ensures Machine.Placed(bytes, frames + [f], offsets + [i])
  {
    hide FrameAt;
  }

  lemma {:induction false} DispatchesEndBy(frames: seq<WireFrame>, offsets: seq<nat>, end: nat)
    requires |frames| == |offsets| && EndBy(frames, offsets, end)
    ensures EndBy(CarriersOf(Dispatches(frames)), DispatchOffsets(frames, offsets), end)
    decreases |frames|
  {
    hide Gate;
    if frames == [] {
    } else {
      var n := |frames| - 1;
      DispatchesEndBy(frames[..n], offsets[..n], end);
    }
  }

  /** Filtering the frames keeps the dispatched ones disjoint and in order. */
  lemma {:induction false} DispatchesArePlaced(bytes: seq<byte>, frames: seq<WireFrame>, offsets: seq<nat>)
    requires Machine.Placed(bytes, frames, offsets)
    ensures Machine.Placed(bytes, CarriersOf(Dispatches(frames)), DispatchOffsets(frames, offsets))
    decreases |frames|
  {
    hide Gate, EndBy, FrameAt;
    if frames == [] {
    } else {
      var n := |frames| - 1;
      var front, fronts := frames[..n], offsets[..n];
      PlacedLast(bytes, frames, offsets);
      DispatchesArePlaced(bytes, front, fronts);
      DispatchesEndBy(front, fronts, offsets[n]);
      var carriers, starts := CarriersOf(Dispatches(front)), DispatchOffsets(front, fronts);
      if Gate(frames[n]).Ok? {
        PlacedOneMore(bytes, carriers, starts, frames[n], offsets[n]);
        assert CarriersOf(Dispatches(frames)) == carriers + [frames[n]];
      } else {
        assert CarriersOf(Dispatches(frames)) == carriers && starts + [] == starts;
      }
    }
  }

  /** Over every run the whole callback trace lies in the bytes fed, at increasing disjoint
      offsets; and each message, encoded again with its frame's sequence number and flags, is
      the slice at its offset. */
  lemma DispatchedWasSent(events: seq<Machine.Event>)
    ensures var log := Machine.Run(Machine.INITIAL, events).log;
            var frames, offsets := Machine.FramesOf(log), Machine.FrameOffsets(log);
            Machine.Placed(Machine.Fed(events), CarriersOf(Dispatches(frames)),
                           DispatchOffsets(frames, offsets))
    ensures forall d :: d in Dispatches(Machine.FramesOf(Machine.Run(Machine.INITIAL, events).log)) ==>
              && Validate(d.message).Ok? && !d.message.Untyped?
              && DirectionOf(TypeOf(d.message)) in {CpuToMcu, Both}
              && d.frame == FrameFor(d.message, d.frame.sequence, d.frame.flags)
  {
    hide Gate, Machine.Run, Machine.FramesOf, Machine.FrameOffsets, DirectionOf, Validate, FrameFor,
         CarriersOf, Dispatches, Machine.Placed;
    var frames := Machine.FramesOf(Machine.Run(Machine.INITIAL, events).log);
    Machine.RunPlacesFrames(events);
    DispatchesArePlaced(Machine.Fed(events), frames,
                        Machine.FrameOffsets(Machine.Run(Machine.INITIAL, events).log));
    forall d | d in Dispatches(frames)
      ensures Validate(d.message).Ok? && !d.message.Untyped?
      ensures DirectionOf(TypeOf(d.message)) in {CpuToMcu, Both}
      ensures d.frame == FrameFor(d.message, d.frame.sequence, d.frame.flags)
    {
      DispatchedFrames(frames, d);
      GateAdmitsExactly(d.frame, d.message);
      ValidIsTyped(d.message);
    }
  }

  /** `d` is dispatched for the frame at offset `i` of the bytes that the pieces tile. */
  ghost predicate DispatchedAt(pieces: seq<Piece>, d: Dispatch, i: nat) {
    var frames := Machine.FramesOf(pieces);
    Machine.ListedAt(Dispatches(frames), DispatchOffsets(frames, Machine.FrameOffsets(pieces)), d, i)
  }

  lemma {:induction false} DispatchListed(frames: seq<WireFrame>, offsets: seq<nat>, d: Dispatch, i: nat)
    requires |frames| == |offsets|
    ensures Machine.ListedAt(Dispatches(frames), DispatchOffsets(frames, offsets), d, i) <==>
            Machine.ListedAt(frames, offsets, d.frame, i) && Gate(d.frame) == Ok(d.message)
    decreases |frames|
  {
    hide Gate, Machine.ListedAt;
    if frames == [] {
      Machine.NothingListed(d, i);
      Machine.NothingListed(d.frame, i);
    } else {
      var n := |frames| - 1;
      var f, front, fronts := frames[n], frames[..n], offsets[..n];
      DispatchListed(front, fronts, d, i);
      assert frames == front + [f] && offsets == fronts + [offsets[n]];
      Machine.ListedInLonger(front, fronts, f, offsets[n], d.frame, i);
      var ds, starts := Dispatches(front), DispatchOffsets(front, fronts);
      if Gate(f).Ok? {
        Machine.ListedInLonger(ds, starts, Dispatch(f, Gate(f).value), offsets[n], d, i);
      } else {
        assert ds + [] == ds && starts + [] == starts;
      }
    }
  }

  /** And a valid command in the bytes since initialisation or the last reset is dispatched for
      this very occurrence, at once with its last byte, if and only if it begins neither inside
      an emitted frame nor inside the candidate still held; the latter is over once a full
      frame's worth of bytes has come from its beginning. */
  lemma SentIsDispatched(st: Machine.State, before: seq<byte>, m: Message, sequence: uint16,
                         flags: byte, after: seq<byte>)
    requires st.held == []
    requires DirectionOf(TypeOf(m)) in {CpuToMcu, Both} && Validate(m).Ok?
    ensures st.log <= Machine.Feed(st, before + Encode(FrameFor(m, sequence, flags)) + after).log
    ensures var f := FrameFor(m, sequence, flags);
            var st' := Machine.Feed(st, before + Encode(f) + after);
            var added := st'.log[|st.log|..];
            && (DispatchedAt(added, Dispatch(f, m), |before|) <==>
                !InsideFrame(added, |before|) && |before| <= |Flatten(added)|)
            && (|Encode(f) + after| >= MAX_FRAME_SIZE ==>
                  DispatchedAt(added, Dispatch(f, m), |before|) || InsideFrame(added, |before|))
  {
    hide Gate, Encode, Machine.Feed, DirectionOf, Validate, PayloadBytes, DispatchedAt, InsideFrame,
         Flatten, FrameFor;
    ValidIsTyped(m);
    var f := FrameFor(m, sequence, flags);
    FrameForFields(m, sequence, flags);
    GateAdmitsExactly(f, m);
    Machine.NoFrameLostByDecoder(st, before, f, after);
    var added := Machine.Feed(st, before + Encode(f) + after).log[|st.log|..];
    EmittedIffDispatched(added, f, m, |before|);
  }

  lemma FrameForFields(m: Message, sequence: uint16, flags: byte)
    requires !m.Untyped?
    ensures FrameFor(m, sequence, flags).sequence == sequence && FrameFor(m, sequence, flags).flags == flags
  {
    hide PayloadBytes;
  }

  lemma EmittedIffDispatched(pieces: seq<Piece>, f: WireFrame, m: Message, i: nat)
    requires Gate(f) == Ok(m)
    ensures EmittedAt(pieces, f, i) <==> DispatchedAt(pieces, Dispatch(f, m), i)
  {
    hide Gate, EmittedAt, Machine.ListedAt, Machine.FramesOf, Machine.FrameOffsets, Dispatches,
         DispatchOffsets;
    Machine.EmittedIffListed(pieces, f, i);
    DispatchListed(Machine.FramesOf(pieces), Machine.FrameOffsets(pieces), Dispatch(f, m), i);
  }

  /** A feed accepts as many messages as it adds to the callback trace. */
  lemma AcceptedGrows(before: seq<WireFrame>, more: seq<WireFrame>)
    ensures IngressStatsOf(before + more).acceptedMessages ==
            Wrap32(IngressStatsOf(before).acceptedMessages + |Dispatches(more)|)
  {
    hide Wrap32, GateTally, Dispatches;
    EveryFrameCountedOnce(before);
    EveryFrameCountedOnce(before + more);
    DispatchesConcat(before, more);
    Wrap32Adds(|Dispatches(before)|, |Dispatches(more)|);
  }
}
