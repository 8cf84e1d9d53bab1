/** The identity service: one numbered MCU_HELLO for every IDENTIFY_REQUEST. */
module Identity {
  import opened Bytes
  import opened Frames
  import opened Messages
  import opened Layouts

  const HELLO_PAYLOAD_SIZE: nat := 8
  const HELLO_FRAME_SIZE: nat := HEADER_SIZE + HELLO_PAYLOAD_SIZE + CRC_SIZE

  datatype IdentityResult = HelloSent | Ignored | HelloTooSmall

  datatype Firmware = Firmware(major: uint16, minor: uint16, buildId: uint32)

  function HelloMessage(fw: Firmware): Message {
    McuHello(fw.major, fw.minor, fw.buildId)
  }

  function Hello(fw: Firmware, sequence: uint16): (f: WireFrame)
    ensures FrameSize(f) == HELLO_FRAME_SIZE
  {
    FrameFor(HelloMessage(fw), sequence, 0)
  }

  function NextSequence(sequence: uint16, count: nat): uint16 {
    (sequence + count) % 0x1_0000
  }

  lemma NextSequenceAdds(sequence: uint16, a: nat, b: nat)
    ensures NextSequence(NextSequence(sequence, a), b) == NextSequence(sequence, a + b)
    ensures NextSequence(sequence, 0) == sequence
  {
  }

  /** The replies to a run of messages, from a given next sequence number. */
  function Replies(fw: Firmware, next: uint16, messages: seq<Message>): seq<WireFrame>
    decreases |messages|
  {
    if messages == [] then []
    else if messages[0].IdentifyRequest? then
      [Hello(fw, next)] + Replies(fw, NextSequence(next, 1), messages[1..])
    else Replies(fw, next, messages[1..])
  }

  function Requests(messages: seq<Message>): nat {
    if messages == [] then 0
    else (if messages[0].IdentifyRequest? then 1 else 0) + Requests(messages[1..])
  }

  /** There is one reply per request, and the k-th carries the k-th number after the first,
      modulo 2^16. */
  lemma {:induction false} RepliesAreNumbered(fw: Firmware, next: uint16, messages: seq<Message>)
    ensures var r := Replies(fw, next, messages);
            && |r| == Requests(messages)
            && forall k :: 0 <= k < |r| ==> r[k] == Hello(fw, NextSequence(next, k))
    decreases |messages|
  {
    hide Hello;
    if messages == [] {
    } else {
      if messages[0].IdentifyRequest? {
        var next', r := NextSequence(next, 1), Replies(fw, next, messages);
        RepliesAreNumbered(fw, next', messages[1..]);
        forall k | 1 <= k < |r| ensures r[k] == Hello(fw, NextSequence(next, k)) {
          assert NextSequence(next', k - 1) == NextSequence(next, k);
        }
      } else {
        RepliesAreNumbered(fw, next, messages[1..]);
      }
    }
  }

  /** The number of requests among the messages. */
  lemma {:induction false} RequestsCounted(messages: seq<Message>)
    ensures Requests(messages) == multiset(messages)[IdentifyRequest]
  {
    if messages == [] {
    } else {
      RequestsCounted(messages[1..]);
      assert messages == [messages[0]] + messages[1..];
    }
  }

  lemma {:induction false} RepliesConcat(fw: Firmware, next: uint16, a: seq<Message>, b: seq<Message>)
    ensures Requests(a + b) == Requests(a) + Requests(b)
    ensures Replies(fw, next, a + b) ==
            Replies(fw, next, a) + Replies(fw, NextSequence(next, Requests(a)), b)
    decreases |a|
  {
    hide Hello, NextSequence;
    NextSequenceAdds(next, 0, 0);
    if a == [] {
      assert a + b == b;
    } else {
      assert (a + b)[1..] == a[1..] + b;
      var next' := if a[0].IdentifyRequest? then NextSequence(next, 1) else next;
      RepliesConcat(fw, next', a[1..], b);
      NextSequenceAdds(next, 1, Requests(a[1..]));
    }
  }

  /** What the other side reads out of a reply: the configured firmware, whatever the number. */
  lemma HelloDecodes(fw: Firmware, sequence: uint16)
    ensures var f := Hello(fw, sequence);
            && Decode(Encode(f)) == Ok(f) && f.sequence == sequence && f.flags == 0
            && DecodeResult(f.messageType, f.payload) == Ok(McuHello(fw.major, fw.minor, fw.buildId))
            && DirectionOf(f.messageType) == McuToCpu
  {
    hide Decode, Encode;
    var f := Hello(fw, sequence);
    DecodeInvertsEncode(f);
    DecodesExactlyEncodings(f.messageType, f.payload, HelloMessage(fw));
  }

  lemma HelloNumber(fw: Firmware, sequence: uint16)
    ensures Hello(fw, sequence).sequence == sequence
  {
    hide PayloadBytes;
  }

  /** The same in bytes: type 0x8000, then major, minor and build id, least significant byte
      first. */
  lemma HelloLayout(fw: Firmware, sequence: uint16)
    ensures var f := Hello(fw, sequence);
            var p: seq<int> := f.payload;
            && f.messageType == 0x8000 && |p| == 8
            && p[0] + 0x100 * p[1] == fw.major
            && p[2] + 0x100 * p[3] == fw.minor
            && p[4] + 0x100 * p[5] + 0x1_0000 * p[6] + 0x100_0000 * p[7] == fw.buildId
  {
    hide DecodeResult;
    var f := Hello(fw, sequence);
    HelloDecodes(fw, sequence);
    McuHelloLayout(f.payload);
  }

  class IdentityService {
    const firmware: Firmware
    var nextSequence: uint16

    constructor (firmware: Firmware, initialSequence: uint16)
      ensures this.firmware == firmware && nextSequence == initialSequence
    {
      this.firmware := firmware;
      nextSequence := initialSequence;
    }

    /** Writes the next hello. Only success uses up a sequence number, and a large enough
        output is all that success takes. */
    method EmitHello(output: array<byte>) returns (result: IdentityResult, outputLength: nat)
      modifies this`nextSequence, output
      ensures output.Length < HELLO_FRAME_SIZE ==>
                && result == HelloTooSmall && outputLength == 0
                && nextSequence == old(nextSequence) && output[..] == old(output[..])
      ensures output.Length >= HELLO_FRAME_SIZE ==>
                && result == HelloSent && outputLength == HELLO_FRAME_SIZE
                && output[..outputLength] == Encode(Hello(firmware, old(nextSequence)))
                && output[outputLength..] == old(output[outputLength..])
                && nextSequence == NextSequence(old(nextSequence), 1)
    {
      hide Encode, Header;
      outputLength := 0;
      if output.Length < HELLO_FRAME_SIZE {
        return HelloTooSmall, 0;
      }
      var message: Message := HelloMessage(firmware);
      var payload := new byte[HELLO_PAYLOAD_SIZE];
      var encoded, payloadLength := EncodePayload(message, payload);
      // The message is valid and the payload fits, so no codec error can arise here or below.
      assert encoded == Ok(()) && payload[..payloadLength] == PayloadBytes(message);
      var framed := EncodeFrame(MCU_HELLO, payload, payloadLength, nextSequence, 0, output);
      assert framed == Ok(HELLO_FRAME_SIZE);
      outputLength := framed.value;
      nextSequence := (nextSequence + 1) % 0x1_0000;
      result := HelloSent;
    }

    /** Answers an identify request and ignores everything else. */
    method HandleMessage(message: Message, output: array<byte>)
      returns (result: IdentityResult, outputLength: nat)
      modifies this`nextSequence, output
      ensures !message.IdentifyRequest? || output.Length < HELLO_FRAME_SIZE ==>
                && result == (if message.IdentifyRequest? then HelloTooSmall else Ignored)
                && outputLength == 0
                && nextSequence == old(nextSequence) && output[..] == old(output[..])
      ensures message.IdentifyRequest? && output.Length >= HELLO_FRAME_SIZE ==>
                && result == HelloSent && outputLength == HELLO_FRAME_SIZE
                && output[..outputLength] == Encode(Hello(firmware, old(nextSequence)))
                && nextSequence == NextSequence(old(nextSequence), 1)
    {
      outputLength := 0;
      if TypeOf(message) != IDENTIFY_REQUEST {
        return Ignored, 0;
      }
      result, outputLength := EmitHello(output);
    }
  }
}
