/** The bring-up loop: bytes in, replies out, and a reset of the decoder after a receive gap
    of more than 50 ms by a millisecond clock that wraps. */
module Harness {
  import opened Bytes
  import opened Frames
  import opened Scanner
  import M = Machine
  import opened Messages
  import opened Ingress
  import opened Identity
  import opened StreamDecoder

  const FRAMING_GAP_MS: nat := 50
  const CLOCK_PERIOD: nat := 0x1_0000_0000

  /** One reading of the serial port, with the true time in ms at which it is taken; a
      negative value means that nothing was there to read. */
  datatype Reading = Reading(value: int, at: nat)
  {
    predicate Valid() {
      value < 0x100
    }
  }

  /** One pass of the loop: the readings that drain the port, then the time of the gap test. */
  datatype Poll = Poll(readings: seq<Reading>, now: nat)
  {
    ghost predicate Valid() {
      forall k :: 0 <= k < |readings| ==> readings[k].Valid()
    }
  }

  type ValidPoll = p: Poll | p.Valid() witness Poll([], 0)

  /** Decoder state and the true time of the last byte received. */
  datatype LoopState = LoopState(decoder: M.State, lastRx: nat)

  const START := LoopState(M.INITIAL, 0)

  ghost function Receive(s: LoopState, readings: seq<Reading>): LoopState
    requires Poll(readings, 0).Valid()
  {
    if readings == [] then s
    else
      var before, r := Receive(s, readings[..|readings| - 1]), readings[|readings| - 1];
      if r.value < 0 then before else LoopState(M.Push(before.decoder, r.value), r.at)
  }

  /** The unsigned difference of two clock readings, as the C code computes it. */
  function ClockElapsed(now: uint32, since: uint32): uint32 {
    (now - since) % CLOCK_PERIOD
  }

  /** The gap test on what the clock shows. */
  ghost predicate GapSeen(s: LoopState, now: nat) {
    s.decoder.held != [] && ClockElapsed(Wrap32(now), Wrap32(s.lastRx)) > FRAMING_GAP_MS
  }

  ghost function PollStep(s: LoopState, p: ValidPoll): LoopState {
    var received := Receive(s, p.readings);
    if GapSeen(received, p.now) then received.(decoder := M.ResetIncomplete(received.decoder))
    else received
  }

  ghost function RunPolls(s: LoopState, polls: seq<ValidPoll>): LoopState {
    if polls == [] then s else PollStep(RunPolls(s, polls[..|polls| - 1]), polls[|polls| - 1])
  }

  function BytesOf(readings: seq<Reading>): seq<byte>
    requires Poll(readings, 0).Valid()
  {
    if readings == [] then []
    else
      BytesOf(readings[..|readings| - 1])
      + if readings[|readings| - 1].value < 0 then [] else [readings[|readings| - 1].value]
  }

  /** The loop feeds the decoder one byte at a time; that is just feeding it. */
  lemma {:induction false} ReceiveFeeds(s: LoopState, readings: seq<Reading>)
    requires Poll(readings, 0).Valid()
    ensures Receive(s, readings).decoder == M.Feed(s.decoder, BytesOf(readings))
  {
    if readings == [] {
    } else {
      var front, r := readings[..|readings| - 1], readings[|readings| - 1];
      ReceiveFeeds(s, front);
      if r.value < 0 {
        assert BytesOf(front) + [] == BytesOf(front);
      } else {
        FeedOneMore(s.decoder, BytesOf(front), r.value);
      }
    }
  }

  /** `t` is the time of the last reading that had a byte, or zero if none had. */
  ghost predicate LastByteAt(readings: seq<Reading>, t: nat) {
    || (t == 0 && forall j :: 0 <= j < |readings| ==> readings[j].value < 0)
    || exists k :: 0 <= k < |readings| && readings[k].value >= 0 && readings[k].at == t
                   && forall j :: k < j < |readings| ==> readings[j].value < 0
  }

  lemma {:induction false} ReceiveLastByte(s: LoopState, earlier: seq<Reading>, readings: seq<Reading>)
    requires Poll(readings, 0).Valid() && LastByteAt(earlier, s.lastRx)
    ensures LastByteAt(earlier + readings, Receive(s, readings).lastRx)
  {
    hide M.Push;
    if readings == [] {
      assert earlier + readings == earlier;
    } else {
      var front, r := readings[..|readings| - 1], readings[|readings| - 1];
      ReceiveLastByte(s, earlier, front);
      assert earlier + readings == earlier + front + [r];
      OneMoreReading(earlier + front, Receive(s, front).lastRx, r);
    }
  }

  lemma OneMoreReading(readings: seq<Reading>, t: nat, r: Reading)
    requires LastByteAt(readings, t)
    ensures LastByteAt(readings + [r], if r.value < 0 then t else r.at)
  {
    var all, n := readings + [r], |readings|;
    assert all[n] == r && forall j :: 0 <= j < n ==> all[j] == readings[j];
  }

  /** All readings of a run, in order. */
  function AllReadings(polls: seq<ValidPoll>): seq<Reading> {
    if polls == [] then [] else AllReadings(polls[..|polls| - 1]) + polls[|polls| - 1].readings
  }

  /** Over every run the remembered time is that of the last byte read, whatever was reset. */
  lemma {:induction false} RunLastByte(polls: seq<ValidPoll>)
    ensures LastByteAt(AllReadings(polls), RunPolls(START, polls).lastRx)
  {
    hide Receive, LastByteAt;
    if polls == [] {
      NothingRead([]);
    } else {
      var front, last := polls[..|polls| - 1], polls[|polls| - 1];
      RunLastByte(front);
      ReceiveLastByte(RunPolls(START, front), AllReadings(front), last.readings);
    }
  }

  lemma NothingRead(readings: seq<Reading>)
    requires readings == []
    ensures LastByteAt(readings, 0)
  {
  }

  lemma FeedOneMore(st: M.State, data: seq<byte>, b: byte)
    ensures M.Feed(st, data + [b]) == M.Push(M.Feed(st, data), b)
  {
    assert (data + [b])[..|data|] == data;
  }

  // ---- time ----

  /** Times never run backwards, and passes of the loop are closer together than the clock
      period less 51 ms. */
  ghost predicate WellTimed(polls: seq<ValidPoll>) {
    forall k :: 0 <= k < |polls| ==>
      && PreviousPoll(polls, k) <= polls[k].now
      && polls[k].now - PreviousPoll(polls, k) < CLOCK_PERIOD - FRAMING_GAP_MS - 1
      && forall j :: 0 <= j < |polls[k].readings| ==>
           PreviousPoll(polls, k) <= polls[k].readings[j].at <= polls[k].now
  }

  function PreviousPoll(polls: seq<ValidPoll>, k: nat): nat
    requires k <= |polls|
  {
    if k == 0 then 0 else polls[k - 1].now
  }

  lemma {:induction false} LastRxWithin(s: LoopState, readings: seq<Reading>, from: nat, now: nat)
    requires Poll(readings, 0).Valid() && s.lastRx <= from <= now
    requires forall j :: 0 <= j < |readings| ==> from <= readings[j].at <= now
    ensures Receive(s, readings).lastRx <= now
    ensures Receive(s, readings).lastRx >= from || Receive(s, readings) == s
  {
    if readings == [] {
    } else {
      LastRxWithin(s, readings[..|readings| - 1], from, now);
    }
  }

  lemma ElapsedIsTrueBelowPeriod(now: nat, since: nat)
    requires since <= now && now - since < CLOCK_PERIOD
    ensures ClockElapsed(Wrap32(now), Wrap32(since)) == now - since
  {
    var a, b := now / CLOCK_PERIOD, since / CLOCK_PERIOD;
    assert now == a * CLOCK_PERIOD + Wrap32(now) && since == b * CLOCK_PERIOD + Wrap32(since);
    assert a == b || a == b + 1;
  }

  /** When one gap test tells the truth: unless whole turns of the clock have passed and the
      remainder looks short. */
  lemma GapTestExactness(now: nat, since: nat)
    requires since <= now
    ensures (ClockElapsed(Wrap32(now), Wrap32(since)) > FRAMING_GAP_MS <==> now - since > 50)
            <==> now - since < 4294967296 || (now - since) % 4294967296 > 50
  {
    var turns := (now - since) / CLOCK_PERIOD;
    var now' := now - turns * CLOCK_PERIOD;
    assert (now - since) % CLOCK_PERIOD == now' - since;
    WholeTurns(now', turns);
    ElapsedIsTrueBelowPeriod(now', since);
  }

  lemma {:induction false} WholeTurns(t: nat, turns: nat)
    ensures Wrap32(t + turns * CLOCK_PERIOD) == Wrap32(t)
  {
    if turns == 0 {
    } else {
      WholeTurns(t, turns - 1);
      assert t + turns * CLOCK_PERIOD == t + (turns - 1) * CLOCK_PERIOD + CLOCK_PERIOD;
    }
  }

  /** A pause that one gap test misses: a single byte held for a whole turn of the clock. */
  lemma LongPauseMissed()
    ensures var s := Receive(START, [Reading(MAGIC_0, 0)]);
            s.decoder.held == [MAGIC_0] && s.lastRx == 0 && !GapSeen(s, CLOCK_PERIOD)
  {
    var r := Reading(MAGIC_0, 0);
    assert [r][..0] == [];
    assert Receive(START, []) == START;
    M.FeedOne(M.INITIAL, MAGIC_0);
    assert [] + [MAGIC_0] == [MAGIC_0];
    M.AloneHasOnePiece(MAGIC_0);
  }

  /** Between polls, bytes that are still held came at most 50 ms before the last gap test. */
  ghost predicate Fresh(s: LoopState, now: nat) {
    s.lastRx <= now && (s.decoder.held != [] ==> now - s.lastRx <= FRAMING_GAP_MS)
  }

  lemma PollIsExact(s: LoopState, p: ValidPoll, from: nat)
    requires Fresh(s, from) && from <= p.now && p.now - from < CLOCK_PERIOD - FRAMING_GAP_MS - 1
    requires forall j :: 0 <= j < |p.readings| ==> from <= p.readings[j].at <= p.now
    ensures var r := Receive(s, p.readings);
            && r.lastRx <= p.now
            && (GapSeen(r, p.now) <==> r.decoder.held != [] && p.now - r.lastRx > FRAMING_GAP_MS)
    ensures Fresh(PollStep(s, p), p.now)
  {
    hide Receive;
    var r := Receive(s, p.readings);
    LastRxWithin(s, p.readings, from, p.now);
    if r.decoder.held != [] {
      assert p.now - r.lastRx < CLOCK_PERIOD - 1;
      ElapsedIsTrueBelowPeriod(p.now, r.lastRx);
    }
  }

  lemma {:induction false} RunIsFresh(polls: seq<ValidPoll>)
    requires WellTimed(polls)
    ensures Fresh(RunPolls(START, polls), PreviousPoll(polls, |polls|))
  {
    if polls == [] {
    } else {
      var front, k := polls[..|polls| - 1], |polls| - 1;
      assert forall j :: 0 <= j <= k ==> PreviousPoll(front, j) == PreviousPoll(polls, j);
      RunIsFresh(front);
      PollIsExact(RunPolls(START, front), polls[k], PreviousPoll(polls, k));
    }
  }

  /** Although the clock wraps, at every poll of every well-timed run the decoder is reset
      exactly when bytes are held and more than 50 ms of true time have passed since the last
      byte came in. */
  lemma ResetsAreExact(polls: seq<ValidPoll>, p: ValidPoll)
    requires WellTimed(polls + [p])
    ensures var r := Receive(RunPolls(START, polls), p.readings);
            && r.lastRx <= p.now
            && (GapSeen(r, p.now) <==> r.decoder.held != [] && p.now - r.lastRx > 50)
            && LastByteAt(AllReadings(polls) + p.readings, r.lastRx)
            && PollStep(RunPolls(START, polls), p).decoder ==
               if r.decoder.held != [] && p.now - r.lastRx > 50 then M.ResetIncomplete(r.decoder)
               else r.decoder
  {
    RunLastByte(polls);
    ReceiveLastByte(RunPolls(START, polls), AllReadings(polls), p.readings);
    hide LastByteAt, Receive;
    var all, k := polls + [p], |polls|;
    assert all[k] == p && forall j :: 0 <= j < k ==> all[j] == polls[j];
    assert forall j :: 0 <= j <= k ==> PreviousPoll(polls, j) == PreviousPoll(all, j);
    assert WellTimed(polls);
    RunIsFresh(polls);
    PollIsExact(RunPolls(START, polls), p, PreviousPoll(all, k));
  }

  // ---- replies ----

  function MessagesOf(dispatches: seq<Dispatch>): seq<Message> {
    if dispatches == [] then []
    else MessagesOf(dispatches[..|dispatches| - 1]) + [dispatches[|dispatches| - 1].message]
  }

  lemma {:induction false} MessagesOfConcat(a: seq<Dispatch>, b: seq<Dispatch>)
    ensures MessagesOf(a + b) == MessagesOf(a) + MessagesOf(b)
    decreases |b|
  {
    if b == [] {
      assert a + b == a;
    } else {
      var front := b[..|b| - 1];
      assert (a + b)[..|a + b| - 1] == a + front;
      MessagesOfConcat(a, front);
    }
  }

  /** Everything sent since start-up: the unsolicited hello, then the replies. */
  function SentFor(fw: Firmware, dispatches: seq<Dispatch>): seq<WireFrame> {
    [Hello(fw, 0)] + Replies(fw, 1, MessagesOf(dispatches))
  }

  function SentSoFar(fw: Firmware, frames: seq<WireFrame>): seq<WireFrame> {
    SentFor(fw, Dispatches(frames))
  }

  /** The k-th frame ever sent is the hello with sequence number k modulo 2^16, and there is
      exactly one for start-up and one for every request that the gate let through. */
  lemma SentIsNumbered(fw: Firmware, dispatches: seq<Dispatch>)
    ensures var sent := SentFor(fw, dispatches);
            && |sent| == 1 + multiset(MessagesOf(dispatches))[IdentifyRequest]
            && forall k :: 0 <= k < |sent| ==>
                 sent[k] == Hello(fw, NextSequence(0, k)) && sent[k].sequence == k % 65536
  {
    hide Hello, MessagesOf;
    RepliesAreNumbered(fw, 1, MessagesOf(dispatches));
    RequestsCounted(MessagesOf(dispatches));
    forall k | 1 <= k < |SentFor(fw, dispatches)|
      ensures SentFor(fw, dispatches)[k] == Hello(fw, NextSequence(0, k))
    {
      assert NextSequence(1, k - 1) == NextSequence(0, k);
    }
    forall k | 0 <= k < |SentFor(fw, dispatches)|
      ensures SentFor(fw, dispatches)[k].sequence == k % 65536
    {
      HelloNumber(fw, NextSequence(0, k));
    }
  }

  lemma SentGrows(fw: Firmware, dispatches: seq<Dispatch>, more: seq<Dispatch>)
    ensures var sent := SentFor(fw, dispatches);
            SentFor(fw, dispatches + more) ==
            sent + Replies(fw, NextSequence(0, |sent|), MessagesOf(more))
  {
    hide Hello, MessagesOf;
    SentIsNumbered(fw, dispatches);
    RequestsCounted(MessagesOf(dispatches));
    MessagesOfConcat(dispatches, more);
    RepliesConcat(fw, 1, MessagesOf(dispatches), MessagesOf(more));
    ConcatAssociates([Hello(fw, 0)], Replies(fw, 1, MessagesOf(dispatches)),
                     Replies(fw, NextSequence(0, |SentFor(fw, dispatches)|), MessagesOf(more)));
  }

  lemma ReplyToOne(fw: Firmware, next: uint16, d: Dispatch)
    ensures MessagesOf([d]) == [d.message]
    ensures Replies(fw, next, [d.message]) ==
            if d.message.IdentifyRequest? then [Hello(fw, next)] else []
  {
    hide Hello;
    assert [d][..0] == [];
    assert [d.message][1..] == [];
  }

  function RequestFrame(sequence: uint16, flags: byte): WireFrame {
    FrameFor(IdentifyRequest, sequence, flags)
  }

  lemma RequestPassesGate(sequence: uint16, flags: byte)
    ensures Gate(RequestFrame(sequence, flags)) == Ok(IdentifyRequest)
  {
    GateAdmitsExactly(RequestFrame(sequence, flags), IdentifyRequest);
  }

  function PolledBytes(polls: seq<ValidPoll>): seq<byte> {
    if polls == [] then []
    else PolledBytes(polls[..|polls| - 1]) + BytesOf(polls[|polls| - 1].readings)
  }

  /** No gap test in this stretch of the run resets the decoder. */
  ghost predicate Undisturbed(s: LoopState, polls: seq<ValidPoll>) {
    forall k :: 0 <= k < |polls| ==>
      !GapSeen(Receive(RunPolls(s, polls[..k]), polls[k].readings), polls[k].now)
  }

  lemma {:induction false} UndisturbedFeeds(s: LoopState, polls: seq<ValidPoll>)
    requires Undisturbed(s, polls)
    ensures RunPolls(s, polls).decoder == M.Feed(s.decoder, PolledBytes(polls))
  {
    hide GapSeen, Receive, M.Feed, BytesOf, RunPolls;
    NoPolls(s);
    if polls == [] {
    } else {
      var front, k := polls[..|polls| - 1], |polls| - 1;
      assert forall j :: 0 <= j < k ==> front[..j] == polls[..j] && front[j] == polls[j];
      assert Undisturbed(s, front);
      assert !GapSeen(Receive(RunPolls(s, polls[..k]), polls[k].readings), polls[k].now);
      UndisturbedFeeds(s, front);
      OneMorePoll(s, front, polls[k]);
      assert polls == front + [polls[k]];
      ReceiveFeeds(RunPolls(s, front), polls[k].readings);
      M.FeedComposes(s.decoder, PolledBytes(front), BytesOf(polls[k].readings));
    }
  }

  lemma NoPolls(s: LoopState)
    ensures RunPolls(s, []) == s && M.Feed(s.decoder, []) == s.decoder
  {
  }

  lemma OneMorePoll(s: LoopState, polls: seq<ValidPoll>, p: ValidPoll)
    ensures RunPolls(s, polls + [p]) == PollStep(RunPolls(s, polls), p)
  {
    assert (polls + [p])[..|polls|] == polls;
  }

  /** A stretch of the run is undisturbed if every pass tests within 50 ms of the last byte. */
  lemma PromptIsUndisturbed(s: LoopState, polls: seq<ValidPoll>)
    requires forall k :: 0 <= k < |polls| ==>
      var r := Receive(RunPolls(s, polls[..k]), polls[k].readings);
      r.lastRx <= polls[k].now <= r.lastRx + FRAMING_GAP_MS
    ensures Undisturbed(s, polls)
  {
    hide Receive, RunPolls;
    forall k | 0 <= k < |polls|
      ensures !GapSeen(Receive(RunPolls(s, polls[..k]), polls[k].readings), polls[k].now)
    {
      ElapsedIsTrueBelowPeriod(polls[k].now, Receive(RunPolls(s, polls[..k]), polls[k].readings).lastRx);
    }
  }

  /** What the last pass resets, if it does, cannot take back a frame. */
  lemma FramesPolled(s: LoopState, polls: seq<ValidPoll>)
    requires polls != [] && Undisturbed(s, polls[..|polls| - 1])
    ensures M.FramesOf(RunPolls(s, polls).decoder.log) ==
            M.FramesOf(M.Feed(s.decoder, PolledBytes(polls)).log)
  {
    hide GapSeen, Receive, M.Feed, BytesOf, RunPolls, M.FramesOf, M.ResetIncomplete, Undisturbed;
    var front, p := polls[..|polls| - 1], polls[|polls| - 1];
    UndisturbedFeeds(s, front);
    OneMorePoll(s, front, p);
    assert polls == front + [p];
    ReceiveFeeds(RunPolls(s, front), p.readings);
    M.FeedComposes(s.decoder, PolledBytes(front), BytesOf(p.readings));
    M.ResetKeepsFrames(Receive(RunPolls(s, front), p.readings).decoder);
  }

  /** What is sent from start-up or a reset on, up to and including the pass in which a request
      ends: one reply with the next number, and then only what the bytes behind the request
      call for. The request may follow noise and be spread over any passes, none of which but
      the last resets. */
  lemma RequestAnsweredOnce(fw: Firmware, s: LoopState, polls: seq<ValidPoll>, noise: seq<byte>,
                            sequence: uint16, flags: byte, after: seq<byte>)
    requires s.decoder.held == [] && NoMagicPair(noise)
    requires polls != [] && Undisturbed(s, polls[..|polls| - 1])
    requires PolledBytes(polls) == noise + (Encode(RequestFrame(sequence, flags)) + after)
    ensures var before, later := M.FramesOf(s.decoder.log), M.FramesOf(Scan(after).pieces);
            var sent, next := SentSoFar(fw, before), NextSequence(0, |SentSoFar(fw, before)|);
            SentSoFar(fw, M.FramesOf(RunPolls(s, polls).decoder.log)) ==
            sent + ([Hello(fw, next)] + Replies(fw, NextSequence(next, 1), MessagesOf(Dispatches(later))))
  {
    hide Encode, RunPolls, Undisturbed, Gate, Hello, FrameFor, SentFor, Dispatches, MessagesOf,
         M.FramesOf, Scan, Replies;
    var f := RequestFrame(sequence, flags);
    FramesPolled(s, polls);
    FrameAfterNoise(s.decoder, noise, f, after);
    RequestPassesGate(sequence, flags);
    OneDispatch(f);
    RequestFirst(fw, M.FramesOf(s.decoder.log), f, M.FramesOf(Scan(after).pieces));
  }

  lemma RequestFirst(fw: Firmware, frames: seq<WireFrame>, f: WireFrame, later: seq<WireFrame>)
    requires Dispatches([f]) == [Dispatch(f, IdentifyRequest)]
    ensures var sent, next := SentSoFar(fw, frames), NextSequence(0, |SentSoFar(fw, frames)|);
            SentSoFar(fw, frames + ([f] + later)) ==
            sent + ([Hello(fw, next)] + Replies(fw, NextSequence(next, 1), MessagesOf(Dispatches(later))))
  {
    hide Hello, SentFor, Dispatches, MessagesOf, NextSequence, Replies;
    var ds, d, next := Dispatches(frames), Dispatch(f, IdentifyRequest), NextSequence(0, |SentSoFar(fw, frames)|);
    DispatchesConcat(frames, [f] + later);
    DispatchesConcat([f], later);
    SentGrows(fw, ds, [d] + Dispatches(later));
    MessagesOfConcat([d], Dispatches(later));
    RepliesConcat(fw, next, [d.message], MessagesOf(Dispatches(later)));
    ReplyToOne(fw, next, d);
    OneRequest();
  }

  lemma OneRequest()
    ensures Requests([IdentifyRequest]) == 1
  {
    assert [IdentifyRequest][1..] == [];
  }

  /** Recovery: in a well-timed run, whatever is held, a pass whose gap test comes more than
      50 ms after the last byte leaves the decoder empty, and a request that comes next is
      answered once, with the next number. */
  lemma RecoversAfterGap(fw: Firmware, polls: seq<ValidPoll>, p: ValidPoll, more: seq<ValidPoll>,
                         noise: seq<byte>, sequence: uint16, flags: byte, after: seq<byte>)
    requires WellTimed(polls + [p])
    requires p.now - Receive(RunPolls(START, polls), p.readings).lastRx > 50
    requires more != [] && Undisturbed(RunPolls(START, polls + [p]), more[..|more| - 1])
    requires NoMagicPair(noise)
    requires PolledBytes(more) == noise + (Encode(RequestFrame(sequence, flags)) + after)
    ensures var s := RunPolls(START, polls + [p]);
            var before, later := M.FramesOf(s.decoder.log), M.FramesOf(Scan(after).pieces);
            var sent, next := SentSoFar(fw, before), NextSequence(0, |SentSoFar(fw, before)|);
            && s.decoder.held == []
            && SentSoFar(fw, M.FramesOf(RunPolls(START, polls + [p] + more).decoder.log)) ==
               sent + ([Hello(fw, next)] + Replies(fw, NextSequence(next, 1), MessagesOf(Dispatches(later))))
  {
    hide Encode, RunPolls, Receive, Undisturbed, Gate, Hello, FrameFor, SentFor, Dispatches,
         MessagesOf, M.FramesOf, Scan, Replies;
    ResetsAreExact(polls, p);
    OneMorePoll(START, polls, p);
    var s := RunPolls(START, polls + [p]);
    RunPollsComposes(START, polls + [p], more);
    RequestAnsweredOnce(fw, s, more, noise, sequence, flags, after);
  }

  lemma {:induction false} RunPollsComposes(s: LoopState, a: seq<ValidPoll>, b: seq<ValidPoll>)
    ensures RunPolls(s, a + b) == RunPolls(RunPolls(s, a), b)
    decreases |b|
  {
    hide PollStep;
    if b == [] {
      assert a + b == a;
    } else {
      var front := b[..|b| - 1];
      assert (a + b)[..|a + b| - 1] == a + front;
      RunPollsComposes(s, a, front);
    }
  }

  lemma OneDispatch(f: WireFrame)
    requires Gate(f) == Ok(IdentifyRequest)
    ensures Dispatches([f]) == [Dispatch(f, IdentifyRequest)]
  {
    hide Gate;
    assert [f][..0] == [];
  }

  lemma FrameAfterNoise(st: M.State, noise: seq<byte>, f: WireFrame, after: seq<byte>)
    requires st.held == [] && NoMagicPair(noise)
    ensures M.FramesOf(M.Feed(st, noise + (Encode(f) + after)).log) ==
            M.FramesOf(st.log) + ([f] + M.FramesOf(Scan(after).pieces))
  {
    hide Encode, M.Feed, Scan, M.FramesOf;
    var data, later := noise + (Encode(f) + after), Scan(after).pieces;
    NoiseThenFrame(noise, f, after);
    M.DecoderAgreesWithScanner(st, data);
    assert Scan(data).pieces == NoisePieces(noise) + ([Accepted(f)] + later);
    M.FramesOfConcat(NoisePieces(noise), [Accepted(f)] + later);
    M.FramesOfConcat([Accepted(f)], later);
    M.NoFramesDropped(NoisePieces(noise));
    M.AcceptedCounts([Accepted(f)]);
  }

  // ---- the loop itself ----

  class Controller {
    const ingress: CpuIngress
    const identity: IdentityService
    const txBuffer: array<byte>
    var lastRxMs: uint32
    ghost var lastRx: nat
    /** What has been written to the serial port. */
    var written: seq<seq<byte>>
    ghost var sent: seq<WireFrame>

    ghost predicate Valid()
      reads this, ingress, ingress.decoder, ingress.decoder.buffer, identity
    {
      && ingress.Valid()
      && txBuffer.Length == HELLO_FRAME_SIZE && txBuffer != ingress.decoder.buffer
      && lastRxMs == Wrap32(lastRx)
      && sent == SentSoFar(identity.firmware, Frames())
      && written == Wires(sent)
      && identity.nextSequence == NextSequence(0, |sent|)
    }

    ghost function Frames(): seq<WireFrame>
      reads ingress.decoder
    {
      M.FramesOf(ingress.decoder.log)
    }

    ghost function State(): LoopState
      requires ingress.Valid()
      reads this, ingress, ingress.decoder, ingress.decoder.buffer
    {
      LoopState(ingress.decoder.Model(), lastRx)
    }

    constructor (firmware: Firmware)
      ensures Valid() && State() == START && identity.firmware == firmware
      ensures fresh(ingress) && fresh(ingress.decoder) && fresh(ingress.decoder.buffer)
      ensures fresh(identity) && fresh(txBuffer)
    {
      ingress := new CpuIngress();
      identity := new IdentityService(firmware, 0);
      txBuffer := new byte[HELLO_FRAME_SIZE](_ => 0);
      lastRxMs, lastRx := 0, 0;
      written, sent := [], [];
      new;
      hide Hello, Encode, StatsOf, IngressStatsOf, Judge, Scan, M.Tally, Dispatches, M.FramesOf;
      var result, n := identity.EmitHello(txBuffer);
      if result.HelloSent? {
        written := written + [txBuffer[..n]];
        sent := [Hello(firmware, 0)];
      }
    }

    /** The consumer callback: a reply goes out if the identity service writes one. */
    method HandleMessage(d: Dispatch)
      requires txBuffer.Length == HELLO_FRAME_SIZE
      requires written == Wires(sent) && identity.nextSequence == NextSequence(0, |sent|)
      modifies this`written, this`sent, identity`nextSequence, txBuffer
      ensures sent == old(sent) + Replies(identity.firmware, old(identity.nextSequence), [d.message])
      ensures written == Wires(sent) && identity.nextSequence == NextSequence(0, |sent|)
    {
      hide Hello, Encode;
      ghost var next := identity.nextSequence;
      ReplyToOne(identity.firmware, next, d);
      var result, n := identity.HandleMessage(d.message, txBuffer);
      if result.HelloSent? {
        written := written + [txBuffer[..n]];
        sent := sent + [Hello(identity.firmware, next)];
        assert NextSequence(next, 1) == NextSequence(0, |sent|);
      }
    }

    /** One pass of the loop: drain the port byte by byte, answering as frames complete, then
        test for a receive gap. */
    method Loop(p: ValidPoll)
      requires Valid()
      modifies this, ingress, ingress.decoder, ingress.decoder.buffer, identity`nextSequence, txBuffer
      ensures Valid()
      ensures State() == PollStep(old(State()), p)
    {
      hide SentFor, Hello, Encode, IngressStatsOf, StatsOf, Judge, M.Push, M.ResetIncomplete;
      ghost var start := State();
      for i := 0 to |p.readings|
        invariant Valid()
        invariant State() == Receive(start, p.readings[..i])
      {
        assert p.readings[i].Valid();
        assert p.readings[..i + 1][..i] == p.readings[..i];
        if p.readings[i].value >= 0 {
          ReceiveByte(p.readings[i].value, p.readings[i].at);
        }
      }
      assert p.readings[..|p.readings|] == p.readings;
      if ingress.decoder.bufferedBytes != 0
         && ClockElapsed(Wrap32(p.now), lastRxMs) > FRAMING_GAP_MS {
        ingress.ResetIncomplete();
      }
    }

    method ReceiveByte(b: byte, at: nat)
      requires Valid()
      modifies this, ingress, ingress.decoder, ingress.decoder.buffer, identity`nextSequence, txBuffer
      ensures Valid()
      ensures State() == LoopState(M.Push(old(State()).decoder, b), at)
    {
      hide SentFor, Hello, Encode, IngressStatsOf, StatsOf, Judge, M.Push, MessagesOf, Wires;
      ghost var before, st := Frames(), ingress.decoder.Model();
      lastRxMs, lastRx := Wrap32(at), at;
      FeedOneMore(st, [], b);
      assert [] + [b] == [b] && M.Feed(st, []) == st;
      var _, dispatched := ingress.Feed([b]);
      Answer(dispatched, Dispatches(before));
    }

    /** The callbacks of one feed, in order. */
    method Answer(dispatched: seq<Dispatch>, ghost before: seq<Dispatch>)
      requires txBuffer.Length == HELLO_FRAME_SIZE
      requires sent == SentFor(identity.firmware, before)
      requires written == Wires(sent) && identity.nextSequence == NextSequence(0, |sent|)
      modifies this`written, this`sent, identity`nextSequence, txBuffer
      ensures sent == SentFor(identity.firmware, before + dispatched)
      ensures written == Wires(sent) && identity.nextSequence == NextSequence(0, |sent|)
    {
      hide SentFor, Hello, Encode, MessagesOf, Replies, Wires;
      assert before + dispatched[..0] == before;
      for i := 0 to |dispatched|
        invariant sent == SentFor(identity.firmware, before + dispatched[..i])
        invariant written == Wires(sent) && identity.nextSequence == NextSequence(0, |sent|)
      {
        ghost var done := before + dispatched[..i];
        assert before + dispatched[..i + 1] == done + [dispatched[i]];
        SentGrows(identity.firmware, done, [dispatched[i]]);
        ReplyToOne(identity.firmware, identity.nextSequence, dispatched[i]);
        HandleMessage(dispatched[i]);
      }
      assert dispatched[..|dispatched|] == dispatched;
    }
  }

  function Wires(frames: seq<WireFrame>): seq<seq<byte>> {
    seq(|frames|, k requires 0 <= k < |frames| => Encode(frames[k]))
  }
}
