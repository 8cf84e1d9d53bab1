/** The stream decoder as a state machine on values: what it holds after every byte and
    every receive-gap reset, and why every run of it agrees with the scanner. */
module Machine {
  import opened Bytes
  import opened Crc
  import opened Frames
  import opened Scanner

  /** True totals of what the 32-bit decoder counters count. */
  datatype Totals = Totals(frames: nat, discarded: nat, crcErrors: nat, versionErrors: nat,
                           lengthErrors: nat)
  {
    function Plus(t: Totals): Totals {
      Totals(frames + t.frames, discarded + t.discarded, crcErrors + t.crcErrors,
             versionErrors + t.versionErrors, lengthErrors + t.lengthErrors)
    }
  }

  function TotalOf(p: Piece): Totals {
    match p
    case Accepted(_) => Totals(1, 0, 0, 0, 0)
    case Dropped(_, CrcMismatch) => Totals(0, 1, 1, 0, 0)
    case Dropped(_, WrongVersion) => Totals(0, 1, 0, 1, 0)
    case Dropped(_, TooLong) => Totals(0, 1, 0, 0, 1)
    case Dropped(_, _) => Totals(0, 1, 0, 0, 0)
  }

  function Tally(pieces: seq<Piece>): Totals {
    if pieces == [] then Totals(0, 0, 0, 0, 0)
    else Tally(pieces[..|pieces| - 1]).Plus(TotalOf(pieces[|pieces| - 1]))
  }

  lemma {:induction false} TallyConcat(a: seq<Piece>, b: seq<Piece>)
    ensures Tally(a + b) == Tally(a).Plus(Tally(b))
    decreases |b|
  {
    hide TotalOf;
    if b == [] {
      assert a + b == a;
    } else {
      var front := b[..|b| - 1];
      assert (a + b)[..|a + b| - 1] == a + front;
      TallyConcat(a, front);
    }
  }

  /** Every dropped byte counts once, whatever else it counts as. */
  lemma {:induction false} TallyDropped(pieces: seq<Piece>, reason: Reason)
    requires reason in {Noise, Gap}
    requires forall k :: 0 <= k < |pieces| ==> pieces[k].Dropped? && pieces[k].reason == reason
    ensures Tally(pieces) == Totals(0, |pieces|, 0, 0, 0)
  {
    if pieces == [] {
    } else {
      TallyDropped(pieces[..|pieces| - 1], reason);
    }
  }

  /** The places at which a byte was given up for one reason, and how many there are. */
  function Places(pieces: seq<Piece>, reason: Reason): set<nat> {
    set k: nat | k < |pieces| && GivenUpFor(pieces[k], reason)
  }

  function Count(pieces: seq<Piece>, reason: Reason): nat {
    |Places(pieces, reason)|
  }

  predicate GivenUpFor(p: Piece, reason: Reason) {
    p.Dropped? && p.reason == reason
  }

  lemma PlacesOneMore(front: seq<Piece>, last: Piece, reason: Reason)
    ensures Places(front + [last], reason) ==
            Places(front, reason) + if GivenUpFor(last, reason) then {|front|} else {}
    ensures |front| !in Places(front, reason)
  {
    hide GivenUpFor;
    var pieces, n := front + [last], |front|;
    forall k: nat
      ensures k in Places(pieces, reason) <==>
              k in Places(front, reason) || (k == n && GivenUpFor(last, reason))
    {
      assert k < n ==> pieces[k] == front[k];
    }
  }

  lemma CountOneMore(front: seq<Piece>, last: Piece, reason: Reason)
    ensures Count(front + [last], reason) ==
            Count(front, reason) + if GivenUpFor(last, reason) then 1 else 0
  {
    hide Places, GivenUpFor;
    PlacesOneMore(front, last, reason);
  }

  /** What the totals mean: each error total counts the bytes at which a candidate was given up
      for that error, the discarded total all bytes given up for whatever reason. */
  lemma {:induction false} TallyCounts(pieces: seq<Piece>)
    ensures var t := Tally(pieces);
            && t.frames == |FramesOf(pieces)|
            && t.versionErrors == Count(pieces, WrongVersion)
            && t.lengthErrors == Count(pieces, TooLong)
            && t.crcErrors == Count(pieces, CrcMismatch)
            && t.discarded == Count(pieces, Noise) + Count(pieces, WrongVersion) + Count(pieces, TooLong)
                              + Count(pieces, CrcMismatch) + Count(pieces, Gap)
  {
    hide Count;
    if pieces == [] {
      NothingCounted();
    } else {
      var front, last := pieces[..|pieces| - 1], pieces[|pieces| - 1];
      TallyCounts(front);
      assert pieces == front + [last];
      CountOneMore(front, last, Noise);
      CountOneMore(front, last, WrongVersion);
      CountOneMore(front, last, TooLong);
      CountOneMore(front, last, CrcMismatch);
      CountOneMore(front, last, Gap);
    }
  }

  lemma NothingCounted()
    ensures forall reason :: Count([], reason) == 0
  {
    forall reason ensures Count([], reason) == 0 {
      assert Places([], reason) == {};
    }
  }

  function FramesOf(pieces: seq<Piece>): seq<WireFrame> {
    if pieces == [] then []
    else
      FramesOf(pieces[..|pieces| - 1])
      + match pieces[|pieces| - 1] case Accepted(f) => [f] case Dropped(_, _) => []
  }

  lemma {:induction false} FramesOfConcat(a: seq<Piece>, b: seq<Piece>)
    ensures FramesOf(a + b) == FramesOf(a) + FramesOf(b)
    decreases |b|
  {
    if b == [] {
      assert a + b == a;
    } else {
      var front := b[..|b| - 1];
      assert (a + b)[..|a + b| - 1] == a + front;
      FramesOfConcat(a, front);
    }
  }

  /** `log` is everything decided since initialisation, `held` the bytes in the buffer. */
  datatype State = State(log: seq<Piece>, held: seq<byte>, gapResets: nat)

  const INITIAL := State([], [], 0)

  /** A byte that alone follows a frame is kept, noise or not, until the next byte comes: the
      drain loop stops as soon as fewer than two bytes are left after a frame. */
  ghost predicate LoneByteAfterFrame(p: Parse) {
    var n := |p.pieces|;
    n >= 2 && p.rest == [] && p.pieces[n - 1].Dropped? && p.pieces[n - 1].reason == Noise
    && p.pieces[n - 2].Accepted?
  }

  ghost function HoldBack(p: Parse): Parse {
    if LoneByteAfterFrame(p) then
      var n := |p.pieces| - 1;
      Parse(p.pieces[..n], [p.pieces[n].b])
    else p
  }

  ghost function Push(st: State, b: byte): State {
    var p := HoldBack(Scan(st.held + [b]));
    State(st.log + p.pieces, p.rest, st.gapResets)
  }

  ghost function Feed(st: State, data: seq<byte>): State {
    if data == [] then st else Push(Feed(st, data[..|data| - 1]), data[|data| - 1])
  }

  function GapPieces(held: seq<byte>): (pieces: seq<Piece>)
    ensures |pieces| == |held|
  {
    seq(|held|, i requires 0 <= i < |held| => Dropped(held[i], Reason.Gap))
  }

  ghost function ResetIncomplete(st: State): State {
    if st.held == [] then st
    else State(st.log + GapPieces(st.held), [], st.gapResets + 1)
  }

  datatype Event = Portion(data: seq<byte>) | Reset

  ghost function Step(st: State, e: Event): State {
    match e
    case Portion(data) => Feed(st, data)
    case Reset => ResetIncomplete(st)
  }

  ghost function Run(st: State, events: seq<Event>): State {
    if events == [] then st
    else Step(Run(st, events[..|events| - 1]), events[|events| - 1])
  }

  function Fed(events: seq<Event>): seq<byte> {
    if events == [] then []
    else
      Fed(events[..|events| - 1])
      + match events[|events| - 1] case Portion(data) => data case Reset => []
  }

  // ---- what may be held between bytes ----

  /** Nothing, a single byte of any value, or an undecided candidate. */
  ghost predicate Settled(held: seq<byte>) {
    |held| <= 1 || Judge(held).Undecided?
  }

  lemma SettledFits(held: seq<byte>)
    requires Settled(held)
    ensures |held| < MAX_FRAME_SIZE
    ensures |held| >= 2 ==>
              && held[..2] == [MAGIC_0, MAGIC_1]
              && (|held| >= HEADER_SIZE ==>
                    && held[2] == VERSION && DeclaredPayload(held) <= MAX_PAYLOAD_SIZE
                    && |held| < DeclaredSize(held))
  {
    if |held| >= 2 {
      UndecidedShape(held);
    }
  }

  lemma PushSettles(st: State, b: byte)
    ensures Settled(Push(st, b).held)
  {
    ScanRest(st.held + [b]);
  }

  lemma {:induction false} FeedSettles(st: State, data: seq<byte>)
    requires Settled(st.held)
    ensures Settled(Feed(st, data).held)
  {
    if data == [] {
    } else {
      PushSettles(Feed(st, data[..|data| - 1]), data[|data| - 1]);
    }
  }

  /** At every byte boundary of every run the buffer is short of full, and so the code that
      makes room in a full buffer is never reached. */
  lemma {:induction false} ReachableSettled(events: seq<Event>)
    ensures Settled(Run(INITIAL, events).held)
    ensures |Run(INITIAL, events).held| < MAX_FRAME_SIZE
  {
    if events == [] {
    } else {
      var front, last := events[..|events| - 1], events[|events| - 1];
      ReachableSettled(front);
      if last.Portion? {
        FeedSettles(Run(INITIAL, front), last.data);
      }
    }
    SettledFits(Run(INITIAL, events).held);
  }

  // ---- gap resets ----

  /** The resets of a run that find bytes in the buffer. */
  ghost function ResetsOfHeld(events: seq<Event>): set<nat> {
    set k: nat | k < |events| && events[k].Reset? && Run(INITIAL, events[..k]).held != []
  }

  lemma ResetsOneMore(events: seq<Event>, e: Event)
    ensures var st := Run(INITIAL, events);
            ResetsOfHeld(events + [e]) ==
            ResetsOfHeld(events) + if e.Reset? && st.held != [] then {|events|} else {}
  {
    hide Run;
    var all, n := events + [e], |events|;
    assert all[..n] == events && all[n] == e;
    assert forall k :: 0 <= k < n ==> all[..k] == events[..k] && all[k] == events[k];
  }

  /** Over every run the gap counter counts exactly the resets that drop something. */
  lemma {:induction false} GapResetsCounted(events: seq<Event>)
    ensures Run(INITIAL, events).gapResets == |ResetsOfHeld(events)|
  {
    hide Feed, ResetsOfHeld;
    if events == [] {
      NothingReset(events);
    } else {
      var front, last := events[..|events| - 1], events[|events| - 1];
      var st := Run(INITIAL, front);
      GapResetsCounted(front);
      assert events == front + [last];
      ResetsOneMore(front, last);
      ResetsInRange(front);
      match last
      case Portion(data) => FeedKeepsGapResets(st, data);
      case Reset => assert Run(INITIAL, events) == ResetIncomplete(st);
    }
  }

  lemma NothingReset(events: seq<Event>)
    requires events == []
    ensures ResetsOfHeld(events) == {}
  {
  }

  lemma ResetsInRange(events: seq<Event>)
    ensures |events| !in ResetsOfHeld(events)
  {
  }

  lemma {:induction false} FeedKeepsGapResets(st: State, data: seq<byte>)
    ensures Feed(st, data).gapResets == st.gapResets
  {
    if data == [] {
    } else {
      FeedKeepsGapResets(st, data[..|data| - 1]);
    }
  }

  // ---- conservation ----

  lemma GapPiecesTile(held: seq<byte>)
    ensures Flatten(GapPieces(held)) == held
    decreases |held|
  {
    if held == [] {
    } else {
      GapPiecesTile(held[1..]);
      assert GapPieces(held)[1..] == GapPieces(held[1..]);
      assert held == [held[0]] + held[1..];
    }
  }

  lemma HoldBackTiles(p: Parse)
    ensures Flatten(HoldBack(p).pieces) + HoldBack(p).rest == Flatten(p.pieces) + p.rest
  {
    if LoneByteAfterFrame(p) {
      var n := |p.pieces| - 1;
      assert p.pieces == p.pieces[..n] + [p.pieces[n]];
      FlattenConcat(p.pieces[..n], [p.pieces[n]]);
      assert Flatten([p.pieces[n]]) == [p.pieces[n].b];
    }
  }

  lemma PushTiles(st: State, b: byte)
    ensures Flatten(Push(st, b).log) + Push(st, b).held == Flatten(st.log) + st.held + [b]
  {
    var t := st.held + [b];
    ScanTiles(t);
    HoldBackTiles(Scan(t));
    FlattenConcat(st.log, HoldBack(Scan(t)).pieces);
    ConcatAssociates(Flatten(st.log), Flatten(HoldBack(Scan(t)).pieces), HoldBack(Scan(t)).rest);
  }

  lemma {:induction false} FeedTiles(st: State, data: seq<byte>)
    ensures Flatten(Feed(st, data).log) + Feed(st, data).held == Flatten(st.log) + st.held + data
  {
    if data == [] {
    } else {
      var front, last := data[..|data| - 1], data[|data| - 1];
      FeedTiles(st, front);
      PushTiles(Feed(st, front), last);
      assert data == front + [last];
      ConcatAssociates(Flatten(st.log) + st.held, front, [last]);
    }
  }

  /** Over every run of feeds and resets, every byte fed is in an emitted frame, dropped, or
      still held, once and in order. */
  lemma {:induction false} RunTiles(events: seq<Event>)
    ensures var st := Run(INITIAL, events);
            Flatten(st.log) + st.held == Fed(events)
  {
    if events == [] {
    } else {
      var front, last := events[..|events| - 1], events[|events| - 1];
      var st := Run(INITIAL, front);
      RunTiles(front);
      match last
      case Portion(data) => FeedTiles(st, data);
      case Reset =>
        GapPiecesTile(st.held);
        FlattenConcat(st.log, GapPieces(st.held));
    }
  }

  function EmittedBytes(frames: seq<WireFrame>): nat {
    if frames == [] then 0
    else EmittedBytes(frames[..|frames| - 1]) + FrameSize(frames[|frames| - 1])
  }

  /** Where in the tiled bytes each emitted frame begins. */
  function FrameOffsets(pieces: seq<Piece>): (offsets: seq<nat>)
    ensures |offsets| == |FramesOf(pieces)|
  {
    if pieces == [] then []
    else
      var front := pieces[..|pieces| - 1];
      FrameOffsets(front)
      + match pieces[|pieces| - 1] case Accepted(_) => [|Flatten(front)|] case Dropped(_, _) => []
  }

  /** The frames are disjoint slices of `bytes`, in increasing order. */
  ghost predicate Placed(bytes: seq<byte>, frames: seq<WireFrame>, offsets: seq<nat>) {
    && |frames| == |offsets|
    && (forall k :: 0 <= k < |frames| ==> FrameAt(bytes, offsets[k], frames[k]))
    && (forall j, k :: 0 <= j < k < |frames| ==> offsets[j] + FrameSize(frames[j]) <= offsets[k])
  }

  lemma PlacedStays(bytes: seq<byte>, frames: seq<WireFrame>, offsets: seq<nat>, more: seq<byte>)
    requires Placed(bytes, frames, offsets)
    ensures Placed(bytes + more, frames, offsets)
  {
    forall k | 0 <= k < |frames| ensures FrameAt(bytes + more, offsets[k], frames[k]) {
      FrameStays(bytes, more, offsets[k], frames[k]);
    }
  }

  lemma PlacedAppends(bytes: seq<byte>, frames: seq<WireFrame>, offsets: seq<nat>, f: WireFrame)
    requires Placed(bytes, frames, offsets)
    ensures Placed(bytes + Encode(f), frames + [f], offsets + [|bytes|])
  {
    hide Encode;
    PlacedStays(bytes, frames, offsets, Encode(f));
    FrameAtEnd(bytes, f);
  }

  /** Emitted frames are disjoint slices of the tiled bytes, in increasing order. */
  lemma {:induction false} FramesAreSlices(pieces: seq<Piece>)
    ensures Placed(Flatten(pieces), FramesOf(pieces), FrameOffsets(pieces))
    decreases |pieces|
  {
    hide Encode, Flatten, Placed;
    if pieces == [] {
      NothingPlaced();
    } else {
      var front, last := pieces[..|pieces| - 1], pieces[|pieces| - 1];
      FramesAreSlices(front);
      assert pieces == front + [last];
      FlattenConcat(front, [last]);
      PieceLength(last);
      if last.Accepted? {
        PlacedAppends(Flatten(front), FramesOf(front), FrameOffsets(front), last.frame);
      } else {
        PlacedStays(Flatten(front), FramesOf(front), FrameOffsets(front), Flatten([last]));
        assert FramesOf(front) + [] == FramesOf(front) && FrameOffsets(front) + [] == FrameOffsets(front);
      }
    }
  }

  lemma NothingPlaced()
    ensures Placed(Flatten([]), [], [])
  {
  }

  /** Some item is `x` and stands at offset `i`. */
  ghost predicate ListedAt<T>(items: seq<T>, offsets: seq<nat>, x: T, i: nat) {
    |items| == |offsets| && exists k :: 0 <= k < |items| && items[k] == x && offsets[k] == i
  }

  lemma ListedInLonger<T>(items: seq<T>, offsets: seq<nat>, y: T, j: nat, x: T, i: nat)
    requires |items| == |offsets|
    ensures ListedAt(items + [y], offsets + [j], x, i) <==>
            ListedAt(items, offsets, x, i) || (x == y && i == j)
  {
    var items', offsets', n := items + [y], offsets + [j], |items|;
    if ListedAt(items, offsets, x, i) {
      var k :| 0 <= k < n && items[k] == x && offsets[k] == i;
      assert items'[k] == x && offsets'[k] == i;
    }
    if x == y && i == j {
      assert items'[n] == x && offsets'[n] == i;
    }
  }

  lemma {:induction false} EmittedInLonger(front: seq<Piece>, last: Piece, f: WireFrame, i: nat)
    ensures EmittedAt(front + [last], f, i) <==>
            EmittedAt(front, f, i) || (last == Accepted(f) && i == |Flatten(front)|)
    decreases |front|
  {
    hide Encode, Flatten;
    if front == [] {
      FlattenNothing();
      assert front + [last] == [last] && [last][1..] == [];
      NothingEmitted(f, i);
      var n := |last.Bytes()|;
      if i >= n {
        NothingEmitted(f, i - n);
      }
    } else {
      FlattenHead(front);
      assert (front + [last])[1..] == front[1..] + [last];
      var n := |front[0].Bytes()|;
      if i >= n {
        EmittedInLonger(front[1..], last, f, i - n);
      }
    }
  }

  lemma NothingEmitted(f: WireFrame, i: nat)
    ensures !EmittedAt([], f, i)
  {
  }

  /** Being emitted from an offset is being listed with that offset. */
  lemma {:induction false} EmittedIffListed(pieces: seq<Piece>, f: WireFrame, i: nat)
    ensures EmittedAt(pieces, f, i) <==> ListedAt(FramesOf(pieces), FrameOffsets(pieces), f, i)
    decreases |pieces|
  {
    hide Encode, Flatten, EmittedAt, ListedAt;
    if pieces == [] {
      NothingEmitted(f, i);
      NothingListed(f, i);
    } else {
      var front, last := pieces[..|pieces| - 1], pieces[|pieces| - 1];
      assert pieces == front + [last];
      EmittedIffListed(front, f, i);
      EmittedInLonger(front, last, f, i);
      match last
      case Accepted(g) =>
        ListedInLonger(FramesOf(front), FrameOffsets(front), g, |Flatten(front)|, f, i);
      case Dropped(_, _) =>
        assert FramesOf(front) + [] == FramesOf(front) && FrameOffsets(front) + [] == FrameOffsets(front);
    }
  }

  lemma NothingListed<T>(x: T, i: nat)
    ensures !ListedAt([], [], x, i)
  {
  }

  /** Over every run, the emitted frames are disjoint slices of the bytes fed, in the order in
      which they were fed. */
  lemma RunPlacesFrames(events: seq<Event>)
    ensures var log := Run(INITIAL, events).log;
            Placed(Fed(events), FramesOf(log), FrameOffsets(log))
  {
    hide Run, FramesOf, FrameOffsets, Flatten, Placed;
    var st := Run(INITIAL, events);
    FramesAreSlices(st.log);
    RunTiles(events);
    PlacedStays(Flatten(st.log), FramesOf(st.log), FrameOffsets(st.log), st.held);
  }

  /** The length of what pieces tile, in the terms of the counters. */
  lemma {:induction false} FlattenLength(pieces: seq<Piece>)
    ensures |Flatten(pieces)| == EmittedBytes(FramesOf(pieces)) + Tally(pieces).discarded
    ensures |FramesOf(pieces)| == Tally(pieces).frames
    decreases |pieces|
  {
    hide Flatten, Encode, FramesOf, Tally;
    if pieces == [] {
      FlattenNothing();
      NothingCounts();
    } else {
      var front, last := pieces[..|pieces| - 1], pieces[|pieces| - 1];
      FlattenLength(front);
      assert pieces == front + [last];
      FlattenConcat(front, [last]);
      PieceLength(last);
      LastPieceCounts(front, last);
    }
  }

  lemma NothingCounts()
    ensures FramesOf([]) == [] && Tally([]) == Totals(0, 0, 0, 0, 0)
  {
  }

  lemma LastPieceCounts(front: seq<Piece>, last: Piece)
    ensures Tally(front + [last]) == Tally(front).Plus(TotalOf(last))
    ensures |FramesOf(front + [last])| == |FramesOf(front)| + if last.Accepted? then 1 else 0
    ensures EmittedBytes(FramesOf(front + [last])) ==
            EmittedBytes(FramesOf(front)) + if last.Accepted? then FrameSize(last.frame) else 0
  {
    assert (front + [last])[..|front|] == front;
    var frames := FramesOf(front);
    if last.Accepted? {
      assert (frames + [last.frame])[..|frames|] == frames;
    } else {
      assert frames + [] == frames;
    }
  }

  lemma PieceLength(p: Piece)
    ensures |Flatten([p])| == if p.Accepted? then FrameSize(p.frame) else 1
    ensures p.Accepted? ==> Flatten([p]) == Encode(p.frame)
  {
    hide Encode;
    assert Flatten([p]) == p.Bytes() + Flatten([p][1..]) == p.Bytes();
  }

  /** Bytes fed equal bytes emitted in frames, plus bytes discarded, plus bytes held. */
  lemma BytesConserved(events: seq<Event>)
    ensures var st := Run(INITIAL, events);
            |Fed(events)| == EmittedBytes(FramesOf(st.log)) + Tally(st.log).discarded + |st.held|
  {
    RunTiles(events);
    FlattenLength(Run(INITIAL, events).log);
  }

  // ---- agreement with the scanner, however the stream is cut ----

  lemma {:induction false} FeedComposes(st: State, a: seq<byte>, b: seq<byte>)
    ensures Feed(st, a + b) == Feed(Feed(st, a), b)
    decreases |b|
  {
    if b == [] {
      assert a + b == a;
    } else {
      var front := b[..|b| - 1];
      assert (a + b)[..|a + b| - 1] == a + front;
      FeedComposes(st, a, front);
    }
  }

  lemma NoiseByteAlone(b: byte)
    requires b != MAGIC_0
    ensures Scan([b]) == Parse([Dropped(b, Noise)], [])
  {
    assert [b][1..] == [];
  }

  /** Scanning what is held yields what was held back, and never anything else. */
  lemma HoldBackScan(t: seq<byte>)
    ensures var p, h := Scan(t), HoldBack(Scan(t));
            && Scan(h.rest).Prepend(h.pieces) == p
            && (if LoneByteAfterFrame(p) then Scan(h.rest) == Parse([p.pieces[|p.pieces| - 1]], [])
                else Scan(h.rest) == Parse([], p.rest))
  {
    hide Judge, Scan;
    var p := Scan(t);
    ScanRest(t);
    if LoneByteAfterFrame(p) {
      var n := |p.pieces| - 1;
      LastNoiseByte(t);
      NoiseByteAlone(p.pieces[n].b);
      assert p.pieces == p.pieces[..n] + [p.pieces[n]];
    }
  }

  /** A last byte given up as noise, with nothing after it, is not the first magic byte. */
  lemma {:induction false} LastNoiseByte(t: seq<byte>)
    requires Scan(t).rest == [] && Scan(t).pieces != []
    requires var last := Scan(t).pieces[|Scan(t).pieces| - 1];
             last.Dropped? && last.reason == Noise
    ensures Scan(t).pieces[|Scan(t).pieces| - 1].b != MAGIC_0
    decreases |t|
  {
    var n := if Judge(t).Accept? then (AcceptedIsPrefix(t); FrameSize(Judge(t).frame)) else 1;
    var tail := t[n..];
    if tail == [] {
      assert Scan(tail) == Parse([], []);
    } else {
      ScanNonempty(tail);
      LastNoiseByte(tail);
    }
  }

  lemma ScanNonempty(t: seq<byte>)
    requires t != []
    ensures Scan(t).pieces != [] || Scan(t).rest == t
  {
  }

  /** The heart of the refinement: after any bytes, what has been logged followed by what
      the scanner makes of the bytes held is what the scanner makes of the whole stream. */
  lemma {:induction false} FeedRefinesScan(st: State, data: seq<byte>)
    ensures var st' := Feed(st, data);
            Scan(st'.held).Prepend(st'.log) == Scan(st.held + data).Prepend(st.log)
  {
    hide Judge, Scan, HoldBack, Parse.Prepend;
    if data == [] {
      assert st.held + data == st.held;
    } else {
      var front, last := data[..|data| - 1], data[|data| - 1];
      var mid := Feed(st, front);
      var t, whole := mid.held + [last], st.held + front;
      var h := HoldBack(Scan(t));
      FeedRefinesScan(st, front);
      HoldBackScan(t);
      ScanResumes(mid.held, [last]);
      ScanResumes(whole, [last]);
      assert whole + [last] == st.held + data;
      SameParse(Scan(mid.held), mid.log, Scan(whole), st.log);
      var x := Scan(Scan(whole).rest + [last]);
      PrependTwice(Scan(h.rest), h.pieces, mid.log);
      PrependTwice(x, Scan(mid.held).pieces, mid.log);
      PrependTwice(x, Scan(whole).pieces, st.log);
    }
  }

  lemma PrependTwice(p: Parse, a: seq<Piece>, b: seq<Piece>)
    ensures p.Prepend(a).Prepend(b) == p.Prepend(b + a)
  {
    ConcatAssociates(b, a, p.pieces);
  }

  lemma SameParse(p: Parse, a: seq<Piece>, q: Parse, b: seq<Piece>)
    requires p.Prepend(a) == q.Prepend(b)
    ensures a + p.pieces == b + q.pieces && p.rest == q.rest
  {
  }

  /** Held bytes are what the scanner leaves over, or one delayed noise byte. */
  lemma HeldScan(held: seq<byte>)
    requires Settled(held)
    ensures Scan(held) == Parse([], held)
            || (|held| == 1 && Scan(held) == Parse([Dropped(held[0], Noise)], []))
  {
    if |held| == 1 && held[0] != MAGIC_0 {
      NoiseByteAlone(held[0]);
    }
  }

  /** From initialisation or a reset on, the decoder emits the frames and counts the errors
      of the scanner on the whole stream; its held bytes and discarded count agree too, but
      for at most one noise byte whose discard is delayed. */
  lemma DecoderAgreesWithScanner(st: State, data: seq<byte>)
    requires st.held == []
    ensures var st', p := Feed(st, data), Scan(data);
            var got, want := Tally(st'.log), Tally(st.log).Plus(Tally(p.pieces));
            && FramesOf(st'.log) == FramesOf(st.log) + FramesOf(p.pieces)
            && got.(discarded := 0) == want.(discarded := 0)
            && (if st'.held == p.rest then st'.log == st.log + p.pieces && got == want
                else p.rest == [] && |st'.held| == 1 && got.discarded + 1 == want.discarded
                     && st'.log + [Dropped(st'.held[0], Noise)] == st.log + p.pieces)
  {
    hide Scan, Judge, Feed, Tally, FramesOf;
    var st', p := Feed(st, data), Scan(data);
    FeedRefinesScan(st, data);
    assert st.held + data == data;
    FeedSettles(st, data);
    HeldScan(st'.held);
    AgreeUpTo(st'.log, Scan(st'.held).pieces, st.log, p.pieces);
  }

  lemma AgreeUpTo(got: seq<Piece>, delayed: seq<Piece>, log: seq<Piece>, pieces: seq<Piece>)
    requires got + delayed == log + pieces
    requires delayed == [] || (exists b :: delayed == [Dropped(b, Noise)])
    ensures FramesOf(got) == FramesOf(log) + FramesOf(pieces)
    ensures Tally(got).Plus(Totals(0, |delayed|, 0, 0, 0)) == Tally(log).Plus(Tally(pieces))
    ensures delayed == [] ==> got == log + pieces
  {
    hide TotalOf;
    TallyConcat(got, delayed);
    TallyConcat(log, pieces);
    FramesOfConcat(got, delayed);
    FramesOfConcat(log, pieces);
    if delayed == [] {
      assert got + delayed == got;
    } else {
      DelayedByte(delayed[0].b);
    }
  }

  lemma DelayedByte(b: byte)
    ensures FramesOf([Dropped(b, Noise)]) == []
    ensures Tally([Dropped(b, Noise)]) == Totals(0, 1, 0, 0, 0)
  {
    assert [Dropped(b, Noise)][..0] == [];
  }

  /** When the decoder and the scanner differ in what they hold: exactly when the last byte is
      noise behind a frame that only this byte caused to be accepted, by ending a candidate
      that had still been open. */
  lemma DelayedExactly(st: State, front: seq<byte>, b: byte)
    requires st.held == []
    ensures Feed(st, front + [b]).held != Scan(front + [b]).rest <==>
            LoneByteAfterFrame(Scan(front + [b])) && Scan(front).rest != []
  {
    hide Judge, Scan, Feed, HoldBack, LoneByteAfterFrame, FramesOf, Tally, Flatten;
    var mid, p := Feed(st, front), Scan(front);
    FeedComposes(st, front, [b]);
    FeedOne(mid, b);
    ScanResumes(front, [b]);
    HeldAgrees(st, front);
    if mid.held == p.rest {
      DelayAfterRest(p.pieces, p.rest, b);
    } else {
      var y := mid.held[0];
      assert mid.held + [b] == [y, b] && [] + [b] == [b];
      NoDelayAfterDelay(y, b);
    }
  }

  lemma HeldAgrees(st: State, data: seq<byte>)
    requires st.held == []
    ensures var held, rest := Feed(st, data).held, Scan(data).rest;
            held == rest || (rest == [] && |held| == 1 && held[0] != MAGIC_0)
  {
    hide Judge, Scan, Feed, Tally, FramesOf;
    DecoderAgreesWithScanner(st, data);
    FeedRefinesScan(st, data);
    var st', p := Feed(st, data), Scan(data);
    assert st.held + data == data;
    if st'.held != p.rest {
      var y := st'.held[0];
      assert st'.held == [y];
      assert st'.log + Scan([y]).pieces == st'.log + [Dropped(y, Noise)];
      AloneHasOnePiece(y);
      assert |Scan([y]).pieces| == 1;
    }
  }

  lemma FeedOne(st: State, b: byte)
    ensures Feed(st, [b]) == Push(st, b)
  {
    assert [b][..0] == [];
    assert Feed(st, []) == st;
  }

  lemma DelayAfterRest(before: seq<Piece>, rest: seq<byte>, b: byte)
    ensures var x := Scan(rest + [b]);
            HoldBack(x).rest != x.rest <==> LoneByteAfterFrame(x.Prepend(before)) && rest != []
  {
    hide Judge, Scan, Flatten;
    var x := Scan(rest + [b]);
    if rest == [] {
      assert rest + [b] == [b];
      AloneHasOnePiece(b);
    } else if x.rest == [] {
      ScanTiles(rest + [b]);
      SamePiecesAtEnd(before, x.pieces, rest + [b]);
    }
  }

  lemma SamePiecesAtEnd(before: seq<Piece>, pieces: seq<Piece>, bytes: seq<byte>)
    requires |bytes| >= 2 && bytes == Flatten(pieces)
    ensures LoneByteAfterFrame(Parse(pieces, [])) <==> LoneByteAfterFrame(Parse(before + pieces, []))
  {
    hide Flatten;
    var n, m := |pieces|, |before|;
    FlattenNothing();
    if n == 1 {
      PieceLength(pieces[0]);
      assert pieces == [pieces[0]];
    } else {
      assert (before + pieces)[m + n - 1] == pieces[n - 1];
      assert (before + pieces)[m + n - 2] == pieces[n - 2];
    }
  }

  lemma AloneHasOnePiece(b: byte)
    ensures |Scan([b]).pieces| <= 1
    ensures b == MAGIC_0 ==> Scan([b]).pieces == []
  {
    if b != MAGIC_0 {
      NoiseByteAlone(b);
    }
  }

  lemma NoDelayAfterDelay(y: byte, b: byte)
    requires y != MAGIC_0
    ensures HoldBack(Scan([y, b])).rest == Scan([b]).rest
  {
    assert [y, b][1..] == [b];
    AloneHasOnePiece(b);
    if b != MAGIC_0 {
      NoiseByteAlone(b);
    }
  }

  /** A header that announces one byte more than the frame behind it accounts for. */
  function StrandingFront(g: WireFrame): seq<byte>
    requires FrameSize(g) <= MAX_PAYLOAD_SIZE + 1
  {
    Header(0, 0, 0, FrameSize(g) - 1) + Encode(g)
  }

  lemma StrandingHeader(g: WireFrame, y: byte)
    requires FrameSize(g) <= MAX_PAYLOAD_SIZE + 1
    ensures var front := StrandingFront(g);
            && Judge(front) == Undecided
            && DeclaredPayload(front + [y]) <= MAX_PAYLOAD_SIZE
            && DeclaredSize(front + [y]) == |front + [y]|
            && (front + [y])[..3] == [MAGIC_0, MAGIC_1, VERSION]
            && forall k :: 1 <= k < HEADER_SIZE ==> !CandidateAt(front + [y], k)
  {
    hide Encode, Decode, WriteU16;
    var header, front := Header(0, 0, 0, FrameSize(g) - 1), StrandingFront(g);
    var s := front + [y];
    EmptyHeaderBytes(FrameSize(g) - 1);
    U16RoundTrip(FrameSize(g) - 1);
    assert forall k :: 0 <= k < HEADER_SIZE ==> s[k] == header[k] && front[k] == header[k];
    assert DeclaredSize(front) == DeclaredSize(s) == |s|;
    UndecidedShape(front);
  }

  lemma StrandingVerdict(g: WireFrame) returns (y: byte)
    requires FrameSize(g) <= MAX_PAYLOAD_SIZE + 1
    ensures y != MAGIC_0
    ensures Judge(StrandingFront(g) + [y]) == Reject(CrcMismatch)
  {
    hide Checksum, Value, Encode, Header;
    var front := StrandingFront(g);
    var n := |front| - 1;
    var crc := Value(Checksum(front[..n]));
    y := if ReadU16(front[n], 0) == crc then 1 else 0;
    var s := front + [y];
    StrandingHeader(g, y);
    assert s[0] == s[..3][0] && s[1] == s[..3][1] && s[2] == s[..3][2];
    assert s[..DeclaredSize(s)] == s && s[..n] == front[..n];
  }

  /** Streams after which the decoder holds a byte that can begin no frame, though the scanner
      has given it up. */
  lemma StrandedByte(g: WireFrame) returns (y: byte)
    requires FrameSize(g) <= MAX_PAYLOAD_SIZE + 1
    ensures y != MAGIC_0
    ensures var s := StrandingFront(g) + [y];
            Feed(INITIAL, s).held == [y] && Scan(s).rest == []
  {
    y := StrandingVerdict(g);
    StrandingHeader(g, y);
    hide Judge, Encode, Feed, CandidateAt, Header;
    var front := StrandingFront(g);
    var s := front + [y];
    assert Scan(front).rest == front;
    StrandedParse(g, y);
    DelayedExactly(INITIAL, front, y);
    HeldIsLast(s, [Dropped(s[0], CrcMismatch)] + NoisePieces(s[1..HEADER_SIZE]) + [Accepted(g)], y);
  }

  lemma StrandedParse(g: WireFrame, y: byte)
    requires FrameSize(g) <= MAX_PAYLOAD_SIZE + 1 && y != MAGIC_0
    requires Judge(StrandingFront(g) + [y]) == Reject(CrcMismatch)
    ensures var s := StrandingFront(g) + [y];
            Scan(s) == Parse([Dropped(s[0], CrcMismatch)] + NoisePieces(s[1..HEADER_SIZE]) + [Accepted(g)]
                             + [Dropped(y, Noise)], [])
  {
    StrandingHeader(g, y);
    hide Judge, Encode, CandidateAt, Header, StrandingFront;
    var s := StrandingFront(g) + [y];
    NoiseSkipped(s, 1, HEADER_SIZE);
    assert s[HEADER_SIZE..] == [] + (Encode(g) + [y]);
    FrameThenNoiseByte(g, y);
    assert Scan(s) == Scan(s[HEADER_SIZE..]).Prepend([Dropped(s[0], CrcMismatch)] + NoisePieces(s[1..HEADER_SIZE]));
  }

  lemma FrameThenNoiseByte(g: WireFrame, y: byte)
    requires y != MAGIC_0
    ensures Scan([] + (Encode(g) + [y])) == Parse([Accepted(g)] + [Dropped(y, Noise)], [])
  {
    hide Scan, Encode, Judge;
    NoiseThenFrame([], g, [y]);
    NoiseByteAlone(y);
  }

  lemma HeldIsLast(s: seq<byte>, before: seq<Piece>, y: byte)
    requires Scan(s) == Parse(before + [Dropped(y, Noise)], [])
    requires Feed(INITIAL, s).held != []
    ensures Feed(INITIAL, s).held == [y]
  {
    hide Scan, Feed, Tally, FramesOf;
    DecoderAgreesWithScanner(INITIAL, s);
    var st := Feed(INITIAL, s);
    assert (st.log + [Dropped(st.held[0], Noise)])[|st.log|] == Dropped(y, Noise);
  }

  /** Cutting a stream into portions, in whatever way, changes nothing. */
  lemma {:induction false} PortionsIrrelevant(st: State, events: seq<Event>)
    requires forall k :: 0 <= k < |events| ==> events[k].Portion?
    ensures Run(st, events) == Feed(st, Fed(events))
  {
    if events == [] {
    } else {
      var front, last := events[..|events| - 1], events[|events| - 1];
      PortionsIrrelevant(st, front);
      FeedComposes(st, Fed(front), last.data);
    }
  }

  // ---- a reset is a restart ----

  function Rebase(base: State, st: State): State {
    State(base.log + st.log, st.held, base.gapResets + st.gapResets)
  }

  lemma {:induction false} FeedRebases(base: State, st: State, data: seq<byte>)
    ensures Feed(Rebase(base, st), data) == Rebase(base, Feed(st, data))
  {
    if data == [] {
    } else {
      var front := data[..|data| - 1];
      FeedRebases(base, st, front);
      var mid := Feed(st, front);
      var h := HoldBack(Scan(mid.held + [data[|data| - 1]]));
      ConcatAssociates(base.log, mid.log, h.pieces);
    }
  }

  lemma {:induction false} RunRebases(base: State, st: State, events: seq<Event>)
    ensures Run(Rebase(base, st), events) == Rebase(base, Run(st, events))
  {
    if events == [] {
    } else {
      var front, last := events[..|events| - 1], events[|events| - 1];
      var mid := Run(st, front);
      RunRebases(base, st, front);
      match last
      case Portion(data) => FeedRebases(base, mid, data);
      case Reset => ConcatAssociates(base.log, mid.log, GapPieces(mid.held));
    }
  }

  /** After a reset, every later run emits, drops, holds and counts what a freshly initialised
      decoder would. */
  lemma ResetIsRestart(st: State, events: seq<Event>)
    ensures Run(ResetIncomplete(st), events) == Rebase(ResetIncomplete(st), Run(INITIAL, events))
    ensures var fresh', st' := Run(INITIAL, events), Run(ResetIncomplete(st), events);
            FramesOf(st'.log) == FramesOf(st.log) + FramesOf(fresh'.log)
  {
    var base := ResetIncomplete(st);
    assert Rebase(base, INITIAL) == base;
    RunRebases(base, INITIAL, events);
    FramesOfConcat(base.log, Run(INITIAL, events).log);
    ResetKeepsFrames(st);
  }

  lemma {:induction false} NoFramesDropped(pieces: seq<Piece>)
    requires forall k :: 0 <= k < |pieces| ==> pieces[k].Dropped?
    ensures FramesOf(pieces) == []
  {
    if pieces == [] {
    } else {
      NoFramesDropped(pieces[..|pieces| - 1]);
    }
  }

  lemma ResetKeepsFrames(st: State)
    ensures FramesOf(ResetIncomplete(st).log) == FramesOf(st.log)
  {
    FramesOfConcat(st.log, GapPieces(st.held));
    NoFramesDropped(GapPieces(st.held));
  }

  // ---- no valid frame is lost, and noise is survived ----

  lemma {:induction false} EmittedBeforeNoise(pieces: seq<Piece>, b: byte, f: WireFrame, i: nat)
    ensures EmittedAt(pieces + [Dropped(b, Noise)], f, i) <==> EmittedAt(pieces, f, i)
    ensures InsideFrame(pieces + [Dropped(b, Noise)], i) <==> InsideFrame(pieces, i)
    decreases |pieces|
  {
    hide Encode;
    var last := [Dropped(b, Noise)];
    if pieces == [] {
      assert pieces + last == last && last[1..] == [];
      assert |last[0].Bytes()| == 1;
      if i >= 1 {
        assert !EmittedAt(last[1..], f, i - 1) && !InsideFrame(last[1..], i - 1);
      }
    } else {
      assert (pieces + last)[1..] == pieces[1..] + last;
      var n := |pieces[0].Bytes()|;
      if i >= n {
        EmittedBeforeNoise(pieces[1..], b, f, i - n);
      }
    }
  }

  /** Of the bytes since initialisation or the last reset: a complete valid frame among them is
      emitted, unless it begins inside one that is, or inside the candidate still held; and
      the latter ends once a full frame's worth of bytes has arrived from its beginning. */
  lemma NoFrameLostByDecoder(st: State, before: seq<byte>, f: WireFrame, after: seq<byte>)
    requires st.held == []
    ensures st.log <= Feed(st, before + Encode(f) + after).log
    ensures var st' := Feed(st, before + Encode(f) + after);
            var added := st'.log[|st.log|..];
            && (EmittedAt(added, f, |before|) <==>
                !InsideFrame(added, |before|) && |before| <= |Flatten(added)|)
            && (|Encode(f) + after| >= MAX_FRAME_SIZE ==>
                  EmittedAt(added, f, |before|) || InsideFrame(added, |before|))
  {
    hide Scan, Judge, Encode, EmittedAt, InsideFrame, Feed, Flatten;
    var data := before + Encode(f) + after;
    var st', p := Feed(st, data), Scan(data);
    assert Rebase(st, State([], [], 0)) == st;
    FeedRebases(st, State([], [], 0), data);
    var added := st'.log[|st.log|..];
    assert st'.log == st.log + added;
    DecoderAgreesWithScanner(st, data);
    NoFrameLost(before, f, after);
    if |Encode(f) + after| >= MAX_FRAME_SIZE {
      NoFrameLostInTheEnd(before, f, after);
    }
    if st'.held == p.rest {
      assert added == p.pieces;
    } else {
      var b := st'.held[0];
      assert p.pieces == (st.log + p.pieces)[|st.log|..] == added + [Dropped(b, Noise)];
      EmittedBeforeNoise(added, b, f, |before|);
      FlattenConcat(added, [Dropped(b, Noise)]);
    }
    if EmittedAt(added, f, |before|) {
      EmittedIsSlice(added, f, |before|);
    }
  }

  /** What was received since initialisation or the last reset is what was logged and is held. */
  lemma AddedTiles(st: State, data: seq<byte>)
    requires st.held == []
    ensures st.log <= Feed(st, data).log
    ensures var st' := Feed(st, data);
            Settled(st'.held) && data == Flatten(st'.log[|st.log|..]) + st'.held
  {
    hide Feed, Flatten;
    var empty := State([], [], 0);
    assert Rebase(st, empty) == st;
    FeedRebases(st, empty, data);
    FeedSettles(empty, data);
    FeedTiles(empty, data);
    FlattenNothing();
    var added := Feed(empty, data).log;
    assert (st.log + added)[|st.log|..] == added;
    assert Flatten(empty.log) + empty.held + data == data;
  }

  /** Said of the bytes alone: a complete valid frame is emitted if no other encoding among
      them overlaps it from the front and no candidate that begins before it is still open at
      their end. */
  lemma UnoverlappedIsEmitted(st: State, before: seq<byte>, f: WireFrame, after: seq<byte>)
    requires st.held == []
    requires var data := before + Encode(f) + after;
             forall g: WireFrame, j: nat :: FrameAt(data, j, g) ==> !(j < |before| < j + FrameSize(g))
    requires var data := before + Encode(f) + after;
             forall j: nat :: j < |before| ==> !Judge(data[j..]).Undecided?
    ensures st.log <= Feed(st, before + Encode(f) + after).log
    ensures EmittedAt(Feed(st, before + Encode(f) + after).log[|st.log|..], f, |before|)
  {
    hide Judge, Encode, EmittedAt, InsideFrame, Feed, Flatten;
    var data := before + Encode(f) + after;
    var st' := Feed(st, data);
    NoFrameLostByDecoder(st, before, f, after);
    AddedTiles(st, data);
    var added := st'.log[|st.log|..];
    assert data[|Flatten(added)|..] == st'.held;
    if InsideFrame(added, |before|) {
      var g, j := InsideIsOverlapped(added, |before|);
      FrameStays(Flatten(added), st'.held, j, g);
    }
  }

  function SentFrames(segments: seq<Segment>): seq<WireFrame> {
    if segments == [] then [] else [segments[0].frame] + SentFrames(segments[1..])
  }

  function NoiseLength(segments: seq<Segment>): nat {
    if segments == [] then 0 else |segments[0].noise| + NoiseLength(segments[1..])
  }

  lemma {:induction false} RecoveredCounts(segments: seq<Segment>)
    ensures FramesOf(Recovered(segments)) == SentFrames(segments)
    ensures Tally(Recovered(segments)) == Totals(|segments|, NoiseLength(segments), 0, 0, 0)
  {
    if segments == [] {
    } else {
      var noise, accepted := NoisePieces(segments[0].noise), [Accepted(segments[0].frame)];
      RecoveredCounts(segments[1..]);
      SegmentCounts(noise, accepted, Recovered(segments[1..]));
    }
  }

  lemma SegmentCounts(noise: seq<Piece>, accepted: seq<Piece>, later: seq<Piece>)
    requires forall k :: 0 <= k < |noise| ==> noise[k].Dropped? && noise[k].reason == Noise
    requires |accepted| == 1 && accepted[0].Accepted?
    ensures FramesOf(noise + (accepted + later)) == [accepted[0].frame] + FramesOf(later)
    ensures Tally(noise + (accepted + later)) == Totals(1, |noise|, 0, 0, 0).Plus(Tally(later))
  {
    hide Tally, FramesOf;
    NoFramesDropped(noise);
    TallyDropped(noise, Noise);
    AcceptedCounts(accepted);
    FramesOfConcat(accepted, later);
    FramesOfConcat(noise, accepted + later);
    TallyConcat(accepted, later);
    TallyConcat(noise, accepted + later);
  }

  lemma AcceptedCounts(accepted: seq<Piece>)
    requires |accepted| == 1 && accepted[0].Accepted?
    ensures FramesOf(accepted) == [accepted[0].frame]
    ensures Tally(accepted) == Totals(1, 0, 0, 0, 0)
  {
    assert accepted[..0] == [];
  }

  /** A fresh decoder fed frames with noise between them emits exactly those frames, counts no
      error, and discards exactly the noise, but for at most one byte it still holds. */
  lemma FreshDecoderRecovers(segments: seq<Segment>, tail: seq<byte>)
    requires forall k :: 0 <= k < |segments| ==> NoMagicPair(segments[k].noise)
    requires NoMagicPair(tail)
    ensures var st := Feed(INITIAL, Transmit(segments) + tail);
            && FramesOf(st.log) == SentFrames(segments)
            && |st.held| <= 1
            && Tally(st.log).(discarded := 0) == Totals(|segments|, 0, 0, 0, 0)
            && Tally(st.log).discarded + |st.held| == NoiseLength(segments) + |tail|
  {
    hide Scan, Judge, Transmit, Recovered, Feed, FramesOf, Tally, SentFrames, NoiseLength;
    var data := Transmit(segments) + tail;
    var trailing := NoisePieces(tail[..|tail| - |Kept(tail)|]);
    NothingCounts();
    RecoversFromNoise(segments, tail);
    DecoderAgreesWithScanner(INITIAL, data);
    RecoveredCounts(segments);
    NoFramesDropped(trailing);
    TallyDropped(trailing, Noise);
    FramesOfConcat(Recovered(segments), trailing);
    TallyConcat(Recovered(segments), trailing);
  }
}
