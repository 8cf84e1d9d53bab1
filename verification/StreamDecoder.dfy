/** The incremental stream decoder over its fixed buffer, changed in place. Ghost fields
    record the run, and every method is proved to take the step of the state machine. */
module StreamDecoder {
  import opened Bytes
  import opened Frames
  import opened Scanner
  import opened Machine

  datatype DecoderStats = DecoderStats(
    frames: uint32, discardedBytes: uint32, crcErrors: uint32, versionErrors: uint32,
    lengthErrors: uint32, gapResets: uint32)

  /** What the wrapping counters show after a run. */
  function StatsOf(log: seq<Piece>, gapResets: nat): DecoderStats {
    var t := Tally(log);
    DecoderStats(Wrap32(t.frames), Wrap32(t.discarded), Wrap32(t.crcErrors),
                 Wrap32(t.versionErrors), Wrap32(t.lengthErrors), Wrap32(gapResets))
  }

  /** What each counter shows, modulo 2^32, by what it counts in the run. */
  lemma CountersShow(log: seq<Piece>, gapResets: nat)
    ensures var s := StatsOf(log, gapResets);
            && s.frames == |FramesOf(log)| % 4294967296
            && s.versionErrors == Count(log, WrongVersion) % 4294967296
            && s.lengthErrors == Count(log, TooLong) % 4294967296
            && s.crcErrors == Count(log, CrcMismatch) % 4294967296
            && s.discardedBytes == (Count(log, Noise) + Count(log, WrongVersion) + Count(log, TooLong)
                                    + Count(log, CrcMismatch) + Count(log, Gap)) % 4294967296
            && s.gapResets == gapResets % 4294967296
  {
    hide Tally, Count, FramesOf;
    TallyCounts(log);
  }

  function AddStats(stats: DecoderStats, t: Totals): DecoderStats {
    DecoderStats(Wrap32(stats.frames + t.frames), Wrap32(stats.discardedBytes + t.discarded),
                 Wrap32(stats.crcErrors + t.crcErrors), Wrap32(stats.versionErrors + t.versionErrors),
                 Wrap32(stats.lengthErrors + t.lengthErrors), stats.gapResets)
  }

  lemma StatsExtend(log: seq<Piece>, gapResets: nat, pieces: seq<Piece>)
    ensures StatsOf(log + pieces, gapResets) == AddStats(StatsOf(log, gapResets), Tally(pieces))
  {
    hide Wrap32, Tally;
    TallyConcat(log, pieces);
    var t, u := Tally(log), Tally(pieces);
    Wrap32Adds(t.frames, u.frames);
    Wrap32Adds(t.discarded, u.discarded);
    Wrap32Adds(t.crcErrors, u.crcErrors);
    Wrap32Adds(t.versionErrors, u.versionErrors);
    Wrap32Adds(t.lengthErrors, u.lengthErrors);
  }

  /** The counter that goes with a rejection; noise has none. */
  function CountReason(stats: DecoderStats, reason: Reason): DecoderStats {
    match reason
    case WrongVersion => stats.(versionErrors := Wrap32(stats.versionErrors + 1))
    case TooLong => stats.(lengthErrors := Wrap32(stats.lengthErrors + 1))
    case CrcMismatch => stats.(crcErrors := Wrap32(stats.crcErrors + 1))
    case Noise => stats
    case Gap => stats
  }

  lemma AddDiscarded(stats: DecoderStats, count: nat)
    ensures AddStats(stats, Totals(0, count, 0, 0, 0)) ==
            stats.(discardedBytes := Wrap32(stats.discardedBytes + count))
    ensures count == 0 ==> AddStats(stats, Totals(0, count, 0, 0, 0)) == stats
  {
  }

  lemma AddFrame(stats: DecoderStats)
    ensures AddStats(stats, Totals(1, 0, 0, 0, 0)) == stats.(frames := Wrap32(stats.frames + 1))
  {
  }

  lemma AddRejection(stats: DecoderStats, b: byte, reason: Reason, k: nat)
    requires k >= 1
    ensures AddStats(CountReason(stats, reason), Totals(0, k, 0, 0, 0)) ==
            AddStats(stats, TotalOf(Dropped(b, reason)).Plus(Totals(0, k - 1, 0, 0, 0)))
  {
    hide Wrap32;
    Wrap32Adds(stats.versionErrors + 1, 0);
    Wrap32Adds(stats.lengthErrors + 1, 0);
    Wrap32Adds(stats.crcErrors + 1, 0);
  }

  /** The pieces that one rejection and the search for the next candidate leave behind. */
  function RejectedPieces(held: seq<byte>, reason: Reason, k: nat): (pieces: seq<Piece>)
    requires 1 <= k <= |held|
    ensures |pieces| == k
  {
    [Dropped(held[0], reason)] + NoisePieces(held[1..k])
  }

  /** `k` is where the search after a rejection at offset 0 ends. */
  ghost predicate ResyncPoint(held: seq<byte>, k: nat) {
    && 1 <= k <= |held|
    && (forall j :: 1 <= j < k ==> !CandidateAt(held, j))
    && (k < |held| ==> CandidateAt(held, k))
  }

  ghost predicate MagicAt(s: seq<byte>, i: nat) {
    i + 2 <= |s| && s[i] == MAGIC_0 && s[i + 1] == MAGIC_1
  }

  /** What a resync keeps: the longest proper suffix that begins with the magic bytes, or else
      a final first magic byte, or else nothing. */
  lemma ResyncKeepsLongest(held: seq<byte>, k: nat)
    requires |held| >= 2
    ensures ResyncPoint(held, k) <==>
            if exists j :: 1 <= j && MagicAt(held, j) then
              1 <= k && MagicAt(held, k) && forall j :: 1 <= j && MagicAt(held, j) ==> k <= j
            else k <= |held| && held[k..] == Kept(held)
  {
    var n := |held|;
    assert forall j :: 0 <= j < n ==>
      (CandidateAt(held, j) <==> MagicAt(held, j) || (j == n - 1 && held[j] == MAGIC_0));
    if (forall j :: 1 <= j ==> !MagicAt(held, j)) && k <= n && held[k..] == Kept(held) {
      assert k == n - |Kept(held)|;
    }
  }

  /** Skipping ahead to the next candidate is what the scanner does byte by byte. */
  lemma ResyncRefinesScan(held: seq<byte>, reason: Reason, k: nat)
    requires held != [] && Judge(held) == Reject(reason) && ResyncPoint(held, k)
    ensures Scan(held) == Scan(held[k..]).Prepend(RejectedPieces(held, reason, k))
  {
    hide Judge;
    NoiseSkipped(held, 1, k);
    ConcatAssociates([Dropped(held[0], reason)], NoisePieces(held[1..k]), Scan(held[k..]).pieces);
  }

  lemma RejectedTally(held: seq<byte>, reason: Reason, k: nat)
    requires 1 <= k <= |held|
    ensures Tally(RejectedPieces(held, reason, k)) ==
            TotalOf(Dropped(held[0], reason)).Plus(Totals(0, k - 1, 0, 0, 0))
    ensures FramesOf(RejectedPieces(held, reason, k)) == []
  {
    hide Tally, TotalOf;
    var head, noise := [Dropped(held[0], reason)], NoisePieces(held[1..k]);
    TallyConcat(head, noise);
    TallyDropped(noise, Noise);
    TallyOfOne(head[0]);
    NoFramesDropped(head + noise);
  }

  lemma TallyOfOne(p: Piece)
    ensures Tally([p]) == TotalOf(p)
  {
    assert [p][..0] == [];
  }

  lemma GapTally(held: seq<byte>)
    ensures Tally(GapPieces(held)) == Totals(0, |held|, 0, 0, 0)
  {
    TallyDropped(GapPieces(held), Reason.Gap);
  }

  // ---- how a drain proceeds and how it may end ----

  /** Part way through draining `t`: `out` is decided and `held` is left. */
  ghost predicate Draining(t: seq<byte>, out: seq<Piece>, held: seq<byte>) {
    Scan(t) == Scan(held).Prepend(out)
  }

  ghost predicate Drained(t: seq<byte>, out: seq<Piece>, held: seq<byte>) {
    HoldBack(Scan(t)) == Parse(out, held)
  }

  lemma NothingDrained(t: seq<byte>)
    ensures Draining(t, [], t)
  {
  }

  lemma EndsUndecided(t: seq<byte>, out: seq<Piece>, held: seq<byte>)
    requires Draining(t, out, held)
    requires held != [] && Judge(held).Undecided?
    ensures Drained(t, out, held)
  {
  }

  lemma EndsAfterReject(t: seq<byte>, before: seq<Piece>, head: seq<byte>, reason: Reason, k: nat)
    requires |head| >= 2 && ResyncPoint(head, k) && |head| - k < 2
    requires Draining(t, before + RejectedPieces(head, reason, k), head[k..])
    ensures Drained(t, before + RejectedPieces(head, reason, k), head[k..])
  {
    hide Tally;
    var out := before + RejectedPieces(head, reason, k);
    if k < |head| {
      assert head[k..] == [MAGIC_0];
    } else {
      assert head[k..] == [];
      assert out[|out| - 2] == RejectedPieces(head, reason, k)[k - 2];
    }
  }

  lemma EndsAfterFrame(t: seq<byte>, out: seq<Piece>, held: seq<byte>)
    requires out != [] && out[|out| - 1].Accepted? && |held| < 2
    requires Draining(t, out, held)
    ensures Drained(t, out, held)
  {
    hide Judge;
    if |held| == 1 {
      HeldScan(held);
      assert (out + [Dropped(held[0], Noise)])[..|out|] == out;
    }
  }

  lemma EndsAlone(b: byte)
    ensures if b == MAGIC_0 then Drained([b], [], [b]) else Drained([b], [Dropped(b, Noise)], [])
  {
    if b != MAGIC_0 {
      NoiseByteAlone(b);
    }
  }

  /** The verdict on at least two bytes, in the order in which the drain loop asks. */
  lemma VerdictByPrefix(s: seq<byte>)
    requires |s| >= 2
    ensures var magic := s[0] == MAGIC_0 && s[1] == MAGIC_1;
            && (!magic ==> Judge(s) == Reject(Noise))
            && (magic && |s| < HEADER_SIZE ==> Judge(s) == Undecided)
            && (magic && |s| >= HEADER_SIZE ==>
                  && (s[2] != VERSION ==> Judge(s) == Reject(WrongVersion))
                  && (s[2] == VERSION ==>
                        && (DeclaredPayload(s) > MAX_PAYLOAD_SIZE ==> Judge(s) == Reject(TooLong))
                        && (DeclaredPayload(s) <= MAX_PAYLOAD_SIZE && |s| < DeclaredSize(s) ==>
                              Judge(s) == Undecided)
                        && (DeclaredPayload(s) <= MAX_PAYLOAD_SIZE && |s| >= DeclaredSize(s) ==>
                              VerdictOfDecode(s))))
  {
    if s[0] == MAGIC_0 && s[1] == MAGIC_1 && |s| >= HEADER_SIZE && |s| >= DeclaredSize(s) {
      var d := s[..DeclaredSize(s)];
      assert d[8] == s[8] && d[9] == s[9];
    }
  }

  /** Once version and length are known good, decoding can only fail on the checksum. */
  ghost predicate VerdictOfDecode(s: seq<byte>)
    requires |s| >= HEADER_SIZE && |s| >= DeclaredSize(s)
  {
    match Decode(s[..DeclaredSize(s)])
    case Ok(f) => Judge(s) == Accept(f)
    case Err(e) => e == BadCrc && Judge(s) == Reject(CrcMismatch)
  }

  lemma AfterReject(t: seq<byte>, out: seq<Piece>, head: seq<byte>, reason: Reason, k: nat)
    requires |head| >= 2 && Judge(head) == Reject(reason) && ResyncPoint(head, k)
    requires Draining(t, out, head)
    ensures var out' := out + RejectedPieces(head, reason, k);
            && Draining(t, out', head[k..])
            && (|head| - k < 2 ==> Drained(t, out', head[k..]))
            && FramesOf(out') == FramesOf(out)
  {
    hide Judge, Scan, RejectedPieces;
    ResyncRefinesScan(head, reason, k);
    ConcatAssociates(out, RejectedPieces(head, reason, k), Scan(head[k..]).pieces);
    RejectedTally(head, reason, k);
    FramesOfConcat(out, RejectedPieces(head, reason, k));
    if |head| - k < 2 {
      EndsAfterReject(t, out, head, reason, k);
    }
  }

  lemma AfterFrame(t: seq<byte>, out: seq<Piece>, head: seq<byte>, f: WireFrame)
    requires head != [] && Judge(head) == Accept(f)
    requires Draining(t, out, head)
    ensures FrameSize(f) <= |head|
    ensures var out', rest := out + [Accepted(f)], head[FrameSize(f)..];
            && Draining(t, out', rest)
            && (|rest| < 2 ==> Drained(t, out', rest))
            && FramesOf(out') == FramesOf(out) + [f]
  {
    hide Judge;
    AcceptedIsPrefix(head);
    var rest := head[FrameSize(f)..];
    ConcatAssociates(out, [Accepted(f)], Scan(rest).pieces);
    FramesOfConcat(out, [Accepted(f)]);
    AcceptedCounts([Accepted(f)]);
    if |rest| < 2 {
      EndsAfterFrame(t, out + [Accepted(f)], rest);
    }
  }

  class Decoder {
    const buffer: array<byte>
    var bufferedBytes: nat
    var stats: DecoderStats
    ghost var log: seq<Piece>
    ghost var gapResets: nat

    /** The buffer is in bounds and the counters show the totals of the run. */
    ghost predicate InBounds()
      reads this
    {
      buffer.Length == MAX_FRAME_SIZE && bufferedBytes <= MAX_FRAME_SIZE
    }

    ghost predicate Sound()
      reads this
    {
      InBounds() && stats == StatsOf(log, gapResets)
    }

    ghost predicate Valid()
      reads this, buffer
    {
      Sound() && Settled(Held())
    }

    ghost function Held(): seq<byte>
      requires InBounds()
      reads this, buffer
    {
      buffer[..bufferedBytes]
    }

    ghost function Model(): State
      requires Sound()
      reads this, buffer
    {
      State(log, Held(), gapResets)
    }

    constructor ()
      ensures Valid() && fresh(buffer)
      ensures Model() == INITIAL
    {
      buffer := new byte[MAX_FRAME_SIZE](_ => 0);
      bufferedBytes := 0;
      stats := DecoderStats(0, 0, 0, 0, 0, 0);
      log, gapResets := [], 0;
    }

    /** Removes a prefix in place; a count of zero, or beyond what is buffered, is ignored. */
    method RemovePrefix(count: nat, discarded: bool)
      requires InBounds()
      modifies this`bufferedBytes, this`stats, buffer
      ensures bufferedBytes <= MAX_FRAME_SIZE
      ensures old(count == 0 || count > bufferedBytes) ==>
                stats == old(stats) && bufferedBytes == old(bufferedBytes) && buffer[..] == old(buffer[..])
      ensures old(0 < count <= bufferedBytes) ==>
                && buffer[..bufferedBytes] == old(buffer[count..bufferedBytes])
                && stats == if discarded then old(AddStats(stats, Totals(0, count, 0, 0, 0))) else old(stats)
    {
      hide StatsOf, AddStats;
      AddDiscarded(stats, count);
      if count == 0 || count > bufferedBytes {
        return;
      }
      if discarded {
        stats := stats.(discardedBytes := Wrap32(stats.discardedBytes + count));
      }
      bufferedBytes := bufferedBytes - count;
      if bufferedBytes != 0 {
        forall i | 0 <= i < bufferedBytes {
          buffer[i] := buffer[count + i];
        }
      }
    }

    /** Gives up the first byte and everything up to the next candidate. */
    method ResyncAfterError() returns (ghost k: nat)
      requires InBounds()
      modifies this`bufferedBytes, this`stats, buffer
      ensures k <= old(bufferedBytes) && bufferedBytes == old(bufferedBytes) - k
      ensures buffer[..bufferedBytes] == old(buffer[k..bufferedBytes])
      ensures stats == old(AddStats(stats, Totals(0, k, 0, 0, 0)))
      ensures old(bufferedBytes) >= 2 ==> ResyncPoint(old(Held()), k)
      ensures old(bufferedBytes) == 1 ==> (k == 0 <==> old(buffer[0]) == MAGIC_0)
    {
      hide StatsOf, AddStats;
      AddDiscarded(stats, 0);
      ghost var held := Held();
      var index := 1;
      while index + 1 < bufferedBytes
        invariant 1 <= index && (bufferedBytes >= 2 ==> index < bufferedBytes)
        invariant forall j :: 1 <= j < index && j < bufferedBytes ==> !CandidateAt(held, j)
      {
        if buffer[index] == MAGIC_0 && buffer[index + 1] == MAGIC_1 {
          RemovePrefix(index, true);
          return index;
        }
        index := index + 1;
      }
      if bufferedBytes != 0 && buffer[bufferedBytes - 1] == MAGIC_0 {
        k := bufferedBytes - 1;
        RemovePrefix(bufferedBytes - 1, true);
      } else {
        k := bufferedBytes;
        RemovePrefix(bufferedBytes, true);
      }
    }

    /** Counts a rejected candidate by its reason and searches for the next one. */
    method RejectCandidate(reason: Reason, ghost t: seq<byte>, ghost base: seq<Piece>,
                           ghost out: seq<Piece>)
      returns (ghost out': seq<Piece>)
      requires Sound() && bufferedBytes >= 2
      requires Judge(Held()) == Reject(reason)
      requires Draining(t, out, Held()) && log == base + out
      modifies this, buffer
      ensures Sound() && gapResets == old(gapResets) && bufferedBytes < old(bufferedBytes)
      ensures Draining(t, out', Held()) && log == base + out'
      ensures bufferedBytes < 2 ==> Drained(t, out', Held())
      ensures FramesOf(out') == FramesOf(out)
    {
      hide StatsOf, AddStats, CountReason, TotalOf, Judge, RejectedPieces, Draining, Drained;
      ghost var head, before := Held(), stats;
      stats := CountReason(stats, reason);
      ghost var k := ResyncAfterError();
      ghost var pieces := RejectedPieces(head, reason, k);
      RejectedTally(head, reason, k);
      StatsExtend(log, gapResets, pieces);
      AddRejection(before, head[0], reason, k);
      AfterReject(t, out, head, reason, k);
      ConcatAssociates(base, out, pieces);
      log := log + pieces;
      out' := out + pieces;
    }

    method AcceptFrame(f: WireFrame, ghost t: seq<byte>, ghost base: seq<Piece>,
                       ghost out: seq<Piece>)
      returns (ghost out': seq<Piece>)
      requires Sound() && bufferedBytes >= 1 && Judge(Held()) == Accept(f)
      requires Draining(t, out, Held()) && log == base + out
      modifies this, buffer
      ensures Sound() && gapResets == old(gapResets) && bufferedBytes < old(bufferedBytes)
      ensures Draining(t, out', Held()) && log == base + out'
      ensures bufferedBytes < 2 ==> Drained(t, out', Held())
      ensures FramesOf(out') == FramesOf(out) + [f]
    {
      hide StatsOf, AddStats, Wrap32, TotalOf, Judge, Draining, Drained;
      AfterFrame(t, out, Held(), f);
      AcceptedCounts([Accepted(f)]);
      AddFrame(stats);
      StatsExtend(log, gapResets, [Accepted(f)]);
      ConcatAssociates(base, out, [Accepted(f)]);
      stats := stats.(frames := Wrap32(stats.frames + 1));
      RemovePrefix(FrameSize(f), false);
      log := log + [Accepted(f)];
      out' := out + [Accepted(f)];
    }

    /** A buffer of one byte keeps only the first magic byte. */
    method DrainLoneByte(ghost base: seq<Piece>) returns (ghost out: seq<Piece>)
      requires Sound() && bufferedBytes == 1 && log == base
      modifies this, buffer
      ensures Sound() && gapResets == old(gapResets)
      ensures Drained(old(Held()), out, Held()) && log == base + out && FramesOf(out) == []
    {
      hide StatsOf, AddStats, Drained;
      ghost var b := buffer[0];
      assert Held() == [b];
      EndsAlone(b);
      DelayedByte(b);
      out := [];
      if buffer[0] != MAGIC_0 {
        out := [Dropped(b, Noise)];
        StatsExtend(log, gapResets, out);
        RemovePrefix(1, true);
        log := log + out;
      }
      assert log == base + out;
    }

    /** Handles what is buffered until no further step is possible, and delivers the frames
        that the callback would be called with, in order. The result is what the scanner makes
        of the buffered bytes, but for a lone byte behind a frame, which stays. */
    method Drain() returns (delivered: seq<WireFrame>)
      requires Sound() && bufferedBytes >= 1
      modifies this, buffer
      ensures Sound() && gapResets == old(gapResets)
      ensures var p := HoldBack(Scan(old(Held())));
              log == old(log) + p.pieces && Held() == p.rest && delivered == FramesOf(p.pieces)
    {
      hide StatsOf, Judge, Decode, Scan, HoldBack;
      ghost var t, base := Held(), log;
      ghost var out: seq<Piece> := [];
      delivered := [];
      var processing := true;
      NothingDrained(t);
      assert log == base + out;
      while processing
        invariant Sound() && gapResets == old(gapResets)
        invariant log == base + out && delivered == FramesOf(out)
        invariant processing ==> bufferedBytes >= 2 || (Held() == t && bufferedBytes == 1 && out == [])
        invariant processing ==> Draining(t, out, Held())
        invariant !processing ==> Drained(t, out, Held())
        decreases processing, bufferedBytes
      {
        hide Draining, Drained;
        processing := false;
        if bufferedBytes == 1 {
          assert log == base;
          out := DrainLoneByte(base);
          continue;
        }
        VerdictByPrefix(Held());
        if buffer[0] != MAGIC_0 || buffer[1] != MAGIC_1 {
          out := RejectCandidate(Noise, t, base, out);
          processing := bufferedBytes >= 2;
          continue;
        }
        if bufferedBytes < HEADER_SIZE {
          EndsUndecided(t, out, Held());
          continue;
        }
        if buffer[2] != VERSION {
          out := RejectCandidate(WrongVersion, t, base, out);
          processing := bufferedBytes >= 2;
          continue;
        }
        var payloadLength := ReadU16(buffer[8], buffer[9]);
        if payloadLength > MAX_PAYLOAD_SIZE {
          out := RejectCandidate(TooLong, t, base, out);
          processing := bufferedBytes >= 2;
          continue;
        }
        var frameLength := HEADER_SIZE + payloadLength + CRC_SIZE;
        if bufferedBytes < frameLength {
          EndsUndecided(t, out, Held());
          continue;
        }
        assert buffer[..frameLength] == Held()[..frameLength];
        var result := DecodeFrame(buffer, frameLength);
        if result.Err? {
          // Only the checksum can fail here, so the C code's other branch is never taken.
          assert result.error == BadCrc;
          out := RejectCandidate(CrcMismatch, t, base, out);
          processing := bufferedBytes >= 2;
          continue;
        }
        out := AcceptFrame(result.value, t, base, out);
        delivered := delivered + [result.value];
        processing := bufferedBytes >= 2;
      }
    }

    /** Takes in a portion of the stream. `delivered` lists the callback invocations. */
    method Feed(data: seq<byte>) returns (emitted: nat, delivered: seq<WireFrame>)
      requires Valid()
      modifies this, buffer
      ensures Valid()
      ensures Model() == Machine.Feed(old(Model()), data)
      ensures FramesOf(log) == FramesOf(old(log)) + delivered && emitted == |delivered|
    {
      hide StatsOf, Judge, Scan, HoldBack, FramesOf;
      emitted, delivered := 0, [];
      ghost var before := Model();
      for i := 0 to |data|
        invariant Valid()
        invariant Model() == Machine.Feed(before, data[..i])
        invariant FramesOf(log) == FramesOf(before.log) + delivered && emitted == |delivered|
      {
        // A settled buffer is short of full, so the C code's resync here never runs.
        SettledFits(Held());
        assert bufferedBytes < MAX_FRAME_SIZE;
        ghost var now := Model();
        buffer[bufferedBytes] := data[i];
        bufferedBytes := bufferedBytes + 1;
        assert Held() == now.held + [data[i]];
        var frames := Drain();
        FramesOfConcat(now.log, HoldBack(Scan(now.held + [data[i]])).pieces);
        ConcatAssociates(FramesOf(before.log), delivered, frames);
        delivered := delivered + frames;
        emitted := emitted + |frames|;
        PushSettles(now, data[i]);
        assert data[..i + 1][..i] == data[..i];
      }
      assert data[..|data|] == data;
    }

    method ResetIncomplete()
      requires Valid()
      modifies this
      ensures Valid()
      ensures Model() == Machine.ResetIncomplete(old(Model()))
    {
      hide StatsOf, AddStats, Wrap32, Tally, Judge, GapPieces;
      if bufferedBytes == 0 {
        return;
      }
      ghost var pieces := GapPieces(Held());
      GapTally(Held());
      StatsExtend(log, gapResets, pieces);
      AddDiscarded(stats, bufferedBytes);
      stats := stats.(discardedBytes := Wrap32(stats.discardedBytes + bufferedBytes),
                      gapResets := Wrap32(stats.gapResets + 1));
      OneMoreReset(log + pieces, gapResets);
      log, gapResets := log + pieces, gapResets + 1;
      bufferedBytes := 0;
    }
  }

  lemma OneMoreReset(log: seq<Piece>, gapResets: nat)
    ensures var s := StatsOf(log, gapResets);
            StatsOf(log, gapResets + 1) == s.(gapResets := Wrap32(s.gapResets + 1))
  {
    Wrap32Adds(gapResets, 1);
  }
}
