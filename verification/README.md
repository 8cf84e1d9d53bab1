# OOMWOO CPU/MCU wire protocol: a verified model

The robot's Linux CPU and its MCU talk over a serial line in `OW` frames: a ten-byte
header, at most 512 payload bytes, and a CRC-16/CCITT-FALSE in little-endian order. This
project models the MCU's heap-free receive path, bottom to top, and the one service built
on it, and proves what the layers promise.

| module | what it models |
|---|---|
| `Bytes` | fixed-width integers, little-endian and two's-complement access, bits |
| `Crc`, `Division`, `Detection` | the bitwise checksum; its meaning as a remainder over GF(2); what it detects |
| `Frames` | the frame codec |
| `Scanner` | the specification: a left-to-right scanner over a whole stream, one offset at a time |
| `Machine` | the decoder as a state machine over bytes and gap resets, and all-runs theorems |
| `StreamDecoder` | the decoder object: a 524-byte array changed in place, wrapping counters |
| `Messages` | the typed payload codec with directions, exact lengths and ranges |
| `Layouts` | the same codec said again in bytes and numbers, type by type |
| `Golden` | the repository's golden heartbeat frame, worked out to the last checksum byte |
| `Ingress` | the gate from bytes to dispatched commands, with its counters |
| `Identity` | the numbered `MCU_HELLO` replies |
| `Harness` | the polling loop of the bring-up sketch with its wrapping millisecond clock |

The method of the decoder proof: the scanner cuts a stream into *pieces*, either single
dropped bytes with a reason or whole accepted frames, that tile it, followed by an
undecided rest. The state machine logs pieces. The object's ghost log ties every counter
to the pieces modulo 2^32. So conservation, disjointness and order of frames, chunking
independence and accounting all follow from one refinement theorem.

What a specification function answers is stated a second time in literal bytes and numbers,
independently of its own constants and helpers: `Frames.DecodeErrorsExactly`,
`Scanner.RejectedInNumbers`, `Scanner.CompleteInNumbers`, the lemmas of `Layouts`,
`Ingress.GateInNumbers` and `Identity.HelloLayout`. `StreamDecoder.CountersShow` and
`Ingress.IngressCountersShow` say of each counter what it counts.

Some facts are less simple than one might expect. Each has its exact condition and an input
at which the simpler form fails:

- Between bytes the buffer is not always empty or at an `O`. The drain loop stops when it has
  completed a frame and exactly one byte is left behind it, so a single byte of any value may
  stay until the next byte comes. `Machine.DelayedExactly`: this happens if and only if the
  last byte is noise behind a frame and ends a candidate that was still open before it.
  `Machine.StrandedByte` gives streams that get there. Every other theorem holds up to that one
  delayed discard.
- The checksum does not notice every change to two adjacent bytes. Because it is stored
  low byte first, one pair escapes: the last payload byte XORed with 0x89 together with
  the low checksum byte XORed with 0xa1. `Detection.AdjacentPairDetected` proves that this
  is the only one, and `Detection.BlindPairAccepted` that it exists in every frame with a
  payload.
- A complete valid frame can go missing: exactly when it begins inside a frame that is
  emitted, or while it begins inside a candidate that is still undecided
  (`Machine.NoFrameLostByDecoder`). `Scanner.FrameInsideFrame` and
  `Scanner.FrameBehindOpenCandidate` lose a frame in each of the two ways;
  `Machine.UnoverlappedIsEmitted` names a condition on the bytes alone that rules both out.
- One gap test does not tell every long pause. `Harness.GapTestExactness`: the wrapped
  difference of two readings is right if and only if the pause is shorter than a turn of the
  clock or its remainder still looks long. `Harness.LongPauseMissed` is a pause that it
  misses. `Harness.ResetsAreExact` proves that a loop that keeps polling never depends on it.

Bytes and words are bounded integers. The checksum register is held as its sixteen bits,
most significant first; `data << 8`, `crc << 1`, `crc & 0x8000` and `^ 0x1021` are the
corresponding operations on bits.

## Model

| member | source | states |
|---|---|---|
| Bytes.U32Canonical | src/oomwoo_messages.c:25-56 | writing a 32-bit value that was read yields the same four bytes |
| Bytes.I16RoundTrip | src/oomwoo_messages.c:30-60 | signed 16-bit values, extremes included, survive the wire, with every intermediate value in range |
| Bytes.I32RoundTrip | src/oomwoo_messages.c:38-64 | the same for signed 32-bit values |
| Bytes.I32Canonical | src/oomwoo_messages.c:38-64 | every four bytes are the encoding of the signed value read from them |
| Crc.PolynomialIs0x1021 | src/oomwoo_protocol.c:62 | the bits of the feedback constant are those of 0x1021 |
| Crc.Crc16 | src/oomwoo_protocol.c:49-69 | the nested loops compute `Checksum`, which the lemmas below and in `Division` characterise |
| Crc.CrcComposes | src/oomwoo_protocol.c:57-67 | the checksum of a concatenation continues from the checksum of its first part |
| Crc.ChecksumAffine | src/oomwoo_protocol.c:49-69 | at equal lengths the checksum of a XOR of three messages is the XOR of their checksums |
| Crc.CrcInjective | src/oomwoo_protocol.c:57-67 | for fixed data, different registers stay different |
| Crc.TwoBytesInjective | src/oomwoo_protocol.c:57-67 | from one register, different pairs of bytes lead to different registers |
| Crc.ResidueIsZero | src/oomwoo_protocol.c:49-69 | data followed by its checksum, high byte first, has checksum zero |
| Crc.HighHalfKernel | src/oomwoo_protocol.c:57-67 | a one-byte difference leaves the high half of the register alone only if it is 0 or 0x89, and 0x89 flips 0xa1 in the low half |
| Division.CrcIsSerial | src/oomwoo_protocol.c:57-67 | a byte taken in at once equals its eight bits taken in one by one |
| Division.RemainderUnique | src/oomwoo_protocol.c:49-69 | quotient and remainder of a division by x^16+x^12+x^5+1 over GF(2) are unique |
| Division.ChecksumIsRemainder | src/oomwoo_protocol.c:49-69 | a register value is the checksum if and only if it is the remainder of the preset message times x^16 by that polynomial |
| Detection.AdjacentPairDetected | src/oomwoo_protocol.c:71-158 | a frame changed only within two adjacent bytes is accepted if and only if the payload is not empty and the change is the one blind pair at its end |
| Detection.BlindPairAccepted | src/oomwoo_protocol.c:71-158 | every frame with a payload has an altered form of the same length that is accepted |
| Detection.SingleByteDetected | src/oomwoo_protocol.c:71-158 | a frame with any one byte changed, checksum included, is never accepted |
| Frames.EncodeFrame | src/oomwoo_protocol.c:71-109 | each error in its order, with the output untouched; on success exactly the frame's bytes and length, nothing beyond them changed |
| Frames.DecodeFrame | src/oomwoo_protocol.c:111-158 | the in-place checks compute `Decode` of the given prefix, whose every answer `Frames.DecodeErrorsExactly` states in bytes |
| Frames.DecodeErrorsExactly | src/oomwoo_protocol.c:111-158 | for all bytes, exactly when each of the six errors arises and when a frame is accepted and with which fields, in literal offsets, magic, version and limits |
| Frames.EncodeLayout | src/oomwoo_protocol.c:71-109 | the place, byte order and value of every field of a frame, checksum included, in literals |
| Frames.DecodeInvertsEncode | src/oomwoo_protocol.c:71-158 | an encoded frame decodes to itself |
| Frames.EncodeInvertsDecode | src/oomwoo_protocol.c:71-158 | an accepted byte string is the encoding of what it decodes to |
| Frames.AcceptedIffEncoding | src/oomwoo_protocol.c:111-158 | the accepted byte strings are exactly the encodings |
| Scanner.VerdictStable | src/oomwoo_protocol.c:193-241 | once a candidate is accepted or rejected, later bytes never change that |
| Scanner.RejectedInNumbers | src/oomwoo_protocol.c:193-222 | for all bytes, exactly when a candidate is given up as noise, for its version, or for its length |
| Scanner.CompleteInNumbers | src/oomwoo_protocol.c:224-248 | a complete candidate is accepted, with the fields at their offsets, or rejected as a checksum error, by its last two bytes alone |
| Scanner.PiecesAreVerdicts | src/oomwoo_protocol.c:186-250 | each dropped byte and each frame of a scan is the verdict on the stream from that very offset on |
| Scanner.AcceptIffEncoding | src/oomwoo_protocol.c:202-243 | a frame is accepted at an offset exactly when its encoding begins there |
| Scanner.UndecidedShape | src/oomwoo_protocol.c:193-229 | which byte strings are still undecided, and that they are shorter than their frame |
| Scanner.ScanTiles | src/oomwoo_protocol.c:166-254 | dropped bytes, accepted frames and the rest are the stream itself, in order |
| Scanner.ScanResumes | src/oomwoo_protocol.c:166-254 | a scan may stop anywhere and resume from its rest |
| Scanner.NoFrameLost | src/oomwoo_protocol.c:29-47 | a complete valid frame is emitted if and only if it begins neither inside an emitted frame nor inside the undecided end |
| Scanner.NoFrameLostInTheEnd | src/oomwoo_protocol.c:186-250 | the last case is gone once 524 bytes have come from the frame's first |
| Scanner.FrameInsideFrame | src/oomwoo_protocol.c:243-248 | a frame that is the payload of another stands in the stream, complete and valid, and is not emitted |
| Scanner.FrameBehindOpenCandidate | src/oomwoo_protocol.c:208-229 | a frame behind a header that announces more than has come stands in the stream and is not emitted yet |
| Scanner.RecoversFromNoise | src/oomwoo_protocol.c:193-206 | frames separated by noise without `OW` are all found, and only the noise is dropped, as noise |
| Machine.ReachableSettled | src/oomwoo_protocol.c:180-229 | at every byte boundary of every run the buffer is empty, one byte, or an undecided candidate, and never full |
| Machine.SettledFits | src/oomwoo_protocol.c:180-184 | what such a buffer looks like: at most 523 bytes, `OW`, then right version, payload length at most 512, still short of its frame |
| Machine.RunTiles | src/oomwoo_protocol.c:14-27 | over every run of feeds and resets, emitted frames, dropped bytes and held bytes are the bytes fed, in order |
| Machine.BytesConserved | src/oomwoo_protocol.c:243-263 | bytes fed = bytes in emitted frames + bytes discarded + bytes held |
| Machine.TallyCounts | src/oomwoo_protocol.c:14-27 | the error totals are the numbers of bytes at which a candidate was given up for that very reason; all given-up bytes are discarded bytes; the frame total is the number of frames |
| Machine.GapResetsCounted | src/oomwoo_protocol.c:256-263 | over every run the gap counter is the number of resets that find bytes held |
| Machine.RunPlacesFrames | src/oomwoo_protocol.c:243-248 | over every run of feeds and resets, all emitted frames, in order, are slices of the bytes fed at increasing disjoint offsets |
| Machine.FeedRefinesScan | src/oomwoo_protocol.c:166-254 | after any bytes, the log and a scan of what is held make up the scan of the whole stream |
| Machine.DecoderAgreesWithScanner | src/oomwoo_protocol.c:166-254 | since start or reset: same frames, same error counts (what they count is `Machine.TallyCounts`), same rest and discards as the scanner, but for one delayed noise byte |
| Machine.DelayedExactly | src/oomwoo_protocol.c:186-250 | when the decoder holds a byte the scanner has given up: if and only if the last byte is noise behind a frame and ended a candidate open before it |
| Machine.StrandedByte | src/oomwoo_protocol.c:186-250 | for every frame small enough to hide behind a false header, a stream after which a byte that can begin no frame is held |
| Machine.PortionsIrrelevant | src/oomwoo_protocol.c:166-177 | how a stream is cut into feed calls does not matter; true of any machine that steps byte by byte, so its weight lies in the contract of `StreamDecoder.Decoder.Feed`, by which the array code takes exactly these steps |
| Machine.ResetIsRestart | src/oomwoo_protocol.c:256-263 | after a gap reset every later run does and counts what a fresh decoder would |
| Machine.NoFrameLostByDecoder | src/oomwoo_protocol.c:29-47 | the same for the decoder itself since start or reset, and that 524 bytes from the frame's first leave only the first exception |
| Machine.UnoverlappedIsEmitted | src/oomwoo_protocol.c:29-47 | said of the bytes alone: a complete valid frame is emitted at its place if no encoding overlaps it from the front and no candidate before it is still open |
| Machine.FreshDecoderRecovers | src/oomwoo_protocol.c:193-206 | a fresh decoder emits exactly the frames sent between noise, counts no error, and discards the noise but for at most one held byte |
| StreamDecoder.VerdictByPrefix | src/oomwoo_protocol.c:202-241 | the order of the drain loop's questions, and that decoding can then fail only on the checksum |
| StreamDecoder.CountersShow | src/oomwoo_protocol.c:202-263 | each of the six counters is, modulo 2^32, the number of frames, of candidates given up for its own reason, of discarded bytes, of gap resets |
| StreamDecoder.ResyncKeepsLongest | src/oomwoo_protocol.c:29-47 | a resync keeps exactly the longest proper suffix that begins with `OW`, else a final `O`, else nothing |
| StreamDecoder.ResyncRefinesScan | src/oomwoo_protocol.c:29-47 | skipping ahead is what the scanner does one byte at a time |
| StreamDecoder.Decoder.constructor | src/oomwoo_protocol.c:160-164 | a fresh decoder is in the initial state, with zero counters |
| StreamDecoder.Decoder.RemovePrefix | src/oomwoo_protocol.c:14-27 | the in-place shift keeps the remaining bytes and counts only discards |
| StreamDecoder.Decoder.ResyncAfterError | src/oomwoo_protocol.c:29-47 | the array search ends at the resync point, keeps the bytes from there and counts those skipped; a lone `O` stays |
| StreamDecoder.Decoder.Drain | src/oomwoo_protocol.c:186-250 | the drain loop terminates with what the scanner makes of the buffer, a lone byte behind a frame held back |
| StreamDecoder.Decoder.Feed | src/oomwoo_protocol.c:166-254 | feeding takes the state machine's steps, reports every frame once and in order, and keeps the counters at `StatsOf` of the run, each of which `StreamDecoder.CountersShow` pins to what it counts |
| StreamDecoder.Decoder.ResetIncomplete | src/oomwoo_protocol.c:256-263 | a gap reset drops what is held, counts it, and does nothing on an empty buffer |
| Messages.ReadInvertsWrite | src/oomwoo_messages.c:226-428 | reading the fields of an encoded message yields the message, for all fourteen types |
| Messages.WriteInvertsRead | src/oomwoo_messages.c:226-428 | every payload of the right length is the encoding of the fields read from it |
| Messages.DecodesExactlyEncodings | src/oomwoo_messages.c:155-323 | decoding yields a message if and only if it is valid, of that type, and encodes to that payload; the ranges are those of the `Layouts` rows |
| Messages.ReadFields | src/oomwoo_messages.c:245-316 | the switch covers every type that the size table covers, so its default arm is dead |
| Messages.DecodePayload | src/oomwoo_messages.c:226-323 | answers `DecodeResult`, which the `Layouts` rows state in bytes; fills the output on success only, and every rejection leaves the all-zero message |
| Messages.EncodePayload | src/oomwoo_messages.c:325-428 | the encoding and its length on success; length zero and an untouched buffer otherwise |
| Layouts.HeartbeatLayout | src/oomwoo_messages.c:170-251 | all five-byte payloads of type 0x0001: little-endian time, mode 0 or 1 |
| Layouts.EstopSetLayout | src/oomwoo_messages.c:175-255 | type 0x0002: a flag of at most 1, then a reason |
| Layouts.ClearLatchedFaultLayout | src/oomwoo_messages.c:256-258 | type 0x0003: a fault mask, never out of range |
| Layouts.IdentifyRequestLayout | src/oomwoo_messages.c:259-260 | type 0x0004: no payload |
| Layouts.DriveSetpointLayout | src/oomwoo_messages.c:179-265 | type 0x0101, for all six-byte payloads: two's-complement speeds, accepted if and only if within 500 mm/s and 4000 mrad/s either way and 1 to 250 ms |
| Layouts.CleaningMotorsSetLayout | src/oomwoo_messages.c:194-271 | type 0x0102: four percentages of at most 100 |
| Layouts.LidarMotorSetLayout | src/oomwoo_messages.c:206-274 | type 0x0103: one percentage |
| Layouts.LedSetLayout | src/oomwoo_messages.c:210-279 | type 0x0104: a percentage in the third byte, the other two free |
| Layouts.AcknowledgementLayouts | src/oomwoo_messages.c:280-287 | types 0x7001 and 0x7002: sequence and code |
| Layouts.McuHelloLayout | src/oomwoo_messages.c:288-292 | type 0x8000: major, minor, build id |
| Layouts.FastTelemetryLayout | src/oomwoo_messages.c:293-303 | type 0x8001: all nine fields of the 19 bytes, with two's-complement ticks |
| Layouts.SafetyEventLayout | src/oomwoo_messages.c:214-308 | type 0x8002: an event from 1 to 16 and a flag of at most 1 |
| Layouts.SafetyStateLayout | src/oomwoo_messages.c:309-313 | type 0x8005: time and two masks |
| Layouts.DirectionOfEveryType | src/oomwoo_messages.c:66-90 | the direction of all 65536 types |
| Layouts.RejectedBeforeFields | src/oomwoo_messages.c:92-148 | exactly which types are unknown, which have no payload yet, and which lengths are wrong |
| Layouts.ValidatedAsDecoded | src/oomwoo_messages.c:155-224 | for all messages, sending is refused just when the bytes would be refused on arrival, and for the same reason |
| Golden.GoldenHeartbeat | tests/protocol_conformance.c:36-39 | the model's encoding of the golden heartbeat is the repository's 17 bytes, checksum included |
| Ingress.ValidateFrame | src/oomwoo_cpu_ingress.c:31-58 | passes on the gate's message, and the cleared message on a rejection |
| Ingress.GateAdmitsExactly | src/oomwoo_cpu_ingress.c:31-58 | the gate admits exactly the frames that a valid message of an allowed direction is sent in |
| Ingress.GateRejectsExactly | src/oomwoo_cpu_ingress.c:10-58 | exactly when each of the four rejections arises, and that no other does |
| Ingress.GateInNumbers | src/oomwoo_cpu_ingress.c:10-58 | for all frames, exactly when each rejection arises, with the version and the type numbers written out |
| Ingress.DispatchedWithinLimits | src/oomwoo_cpu_ingress.c:31-58 | no dispatched command has a speed, duration, percentage, flag or mode outside the limits, and no message that only the MCU sends is dispatched |
| Ingress.DispatchedFrames | src/oomwoo_cpu_ingress.c:86-103 | the callbacks are the emitted frames that pass the gate, with their messages |
| Ingress.EveryFrameCountedOnce | src/oomwoo_cpu_ingress.c:60-103 | every frame is counted once, as accepted or under one reason; open-payload and codec counters stay zero |
| Ingress.GateTallyCounts | src/oomwoo_cpu_ingress.c:60-84 | each rejection total is the number of frames that the gate turned away for that very reason |
| Ingress.IngressCountersShow | src/oomwoo_cpu_ingress.c:60-103 | each ingress counter is, modulo 2^32, the number of frames accepted or turned away for its reason, and these numbers add up to all frames |
| Ingress.CountersAgree | src/oomwoo_cpu_ingress.c:60-103 | at feed boundaries the decoder's frame counter is the sum of the ingress counters modulo 2^32 |
| Ingress.AcceptedGrows | src/oomwoo_cpu_ingress.c:118-131 | the accepted counter after a feed is the one before plus the number of newly dispatched frames, modulo 2^32 |
| Ingress.CpuIngress.HandleFrames | src/oomwoo_cpu_ingress.c:86-103 | taking the decoder's frames one by one appends their dispatches in order, counts each once and sums the accepted |
| Ingress.CpuIngress.HandleFrame | src/oomwoo_cpu_ingress.c:60-103 | one frame moves the counters to `IngressStatsOf` of one frame more, hence by `Ingress.IngressCountersShow` exactly the one of its outcome, and calls the consumer only if accepted |
| Ingress.CpuIngress.Feed | src/oomwoo_cpu_ingress.c:118-131 | dispatches exactly the newly emitted frames that pass, in order, and returns their number, by which the accepted counter grows modulo 2^32 |
| Ingress.CpuIngress.ResetIncomplete | src/oomwoo_cpu_ingress.c:133-137 | resets the decoder and neither emits nor dispatches |
| Ingress.DispatchedWasSent | src/oomwoo_cpu_ingress.c:118-131 | over every run, the whole callback trace lies in the bytes fed at increasing disjoint offsets, and each message, encoded again with its frame's sequence number and flags, is the frame at its offset |
| Ingress.DispatchesArePlaced | src/oomwoo_cpu_ingress.c:86-103 | the gate neither repeats nor reorders: filtering frames at increasing disjoint offsets leaves the dispatched ones so |
| Ingress.SentIsDispatched | src/oomwoo_cpu_ingress.c:118-131 | a valid command in the stream is dispatched for this very occurrence if and only if it begins neither inside an emitted frame nor inside the candidate still held, and 524 bytes from its first leave only the former exception |
| Identity.RepliesAreNumbered | src/oomwoo_identity.c:64-85 | one reply per request, the k-th with the k-th sequence number modulo 2^16 |
| Identity.RequestsCounted | src/oomwoo_identity.c:68-85 | what counts as a request is exactly the identify request |
| Identity.HelloDecodes | src/oomwoo_identity.c:40-62 | a reply decodes to the configured major, minor and build id |
| Identity.HelloLayout | src/oomwoo_identity.c:40-62 | type 0x8000 and the eight payload bytes of major, minor and build id, in that order, least significant first |
| Identity.IdentityService.EmitHello | src/oomwoo_identity.c:19-66 | 20 bytes of room are all that success takes, and then the frame of `Identity.HelloLayout` is written; only success uses up a number; no codec error |
| Identity.IdentityService.HandleMessage | src/oomwoo_identity.c:68-85 | answers identify requests and ignores every other message without any change |
| Harness.ResetsAreExact | src/main.cpp:59-73 | although the clock wraps, a poll resets the decoder exactly when bytes are held and more than 50 ms of true time have passed since the last byte was read |
| Harness.RunLastByte | src/main.cpp:60-67 | over every run the remembered time is that of the last reading that had a byte |
| Harness.SentIsNumbered | src/main.cpp:27-57 | one hello at start-up and one per admitted request, the k-th with number k modulo 2^16 |
| Harness.RequestAnsweredOnce | src/main.cpp:36-73 | from start or reset, a request behind noise, spread over any passes of which none but the last resets, and with any bytes behind it, yields exactly one reply with the next number, then only what those bytes call for |
| Harness.RecoversAfterGap | src/main.cpp:59-73 | in a well-timed run, whatever is held, a pass that ends more than 50 ms after the last byte leaves nothing held, and a request behind noise after it is answered once |
| Harness.GapTestExactness | src/main.cpp:69-72 | for all readings, the wrapped gap test agrees with true time if and only if no whole turn of the clock has passed or the remainder exceeds the gap |
| Harness.LongPauseMissed | src/main.cpp:69-72 | a byte held for a whole turn of the clock that the gap test does not see |
| Harness.Controller.HandleMessage | src/main.cpp:36-45 | writes a reply to the port exactly for an identify request |
| Harness.Controller.Loop | src/main.cpp:59-73 | one pass of the loop takes the modelled step, and everything ever written is the numbered list of hellos |

## Left out

- Wire version: fixed to the default 1; the C code also compiles with another version byte from 1 to 255.
- Callbacks through function pointers: the decoder returns the frames and the ingress the messages that their callbacks would be called with, in order, after the feed instead of during it. Feeding from inside a callback is forbidden by the source.
- Payload pointers into the decoder's buffer: a decoded payload is a copy of that slice.
- NULL arguments: references cannot be null here, so the null results do not occur.
- Struct padding and the C union: one datatype constructor per message type; the all-zero struct is `Messages.CLEARED`.
- Codec-error results of the identity service: proved unreachable, so the result type has no case for them.
- Serial port, clock and board set-up as devices: the loop takes readings and times as inputs and keeps what it writes.
- Harness.ResetsAreExact: assumes that time does not run backwards and that passes of the loop are less than 2^32 - 51 ms apart; `Harness.GapTestExactness` says exactly which longer pauses are still told apart, and `Harness.LongPauseMissed` gives one that is not.
- The message set of the interface beyond its layouts (watchdog, motors, charging): not implemented in the repository.
- Pin map, vector generators and conformance tests: constants and finite examples.
