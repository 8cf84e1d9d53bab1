/** The specification of the stream decoder: a left-to-right scanner over a whole byte
    stream that tries one offset after the other. It knows nothing of a buffer, of feeding
    in portions, or of skipping ahead to the next `OW`. */
module Scanner {
  import opened Bytes
  import opened Crc
  import opened Frames

  /** Why a byte was given up. `Noise` covers everything that cannot begin a frame; `Gap` is
      only used by a receive-gap reset, never by the scanner. */
  datatype Reason = Noise | WrongVersion | TooLong | CrcMismatch | Gap

  datatype Verdict = Undecided | Reject(reason: Reason) | Accept(frame: WireFrame)

  /** What the bytes from here on say about a frame beginning here. */
  function Judge(s: seq<byte>): Verdict
    requires s != []
  {
    if s[0] != MAGIC_0 then Reject(Noise)
    else if |s| == 1 then Undecided
    else if s[1] != MAGIC_1 then Reject(Noise)
    else if |s| < HEADER_SIZE then Undecided
    else if s[2] != VERSION then Reject(WrongVersion)
    else if DeclaredPayload(s) > MAX_PAYLOAD_SIZE then Reject(TooLong)
    else if |s| < DeclaredSize(s) then Undecided
    else match Decode(s[..DeclaredSize(s)])
      case Ok(f) => Accept(f)
      case Err(_) => Reject(CrcMismatch)
  }

  /** A stream is tiled by pieces: bytes given up, and whole frames. */
  datatype Piece = Dropped(b: byte, reason: Reason) | Accepted(frame: WireFrame)
  {
    function Bytes(): (s: seq<byte>)
      ensures |s| >= 1
    {
      match this
      case Dropped(b, _) => [b]
      case Accepted(f) => Encode(f)
    }
  }

  function Flatten(pieces: seq<Piece>): seq<byte>
  {
    if pieces == [] then [] else pieces[0].Bytes() + Flatten(pieces[1..])
  }

  lemma ConcatAssociates<T>(x: seq<T>, y: seq<T>, z: seq<T>)
    ensures x + (y + z) == (x + y) + z
  {
  }

  lemma FlattenHead(pieces: seq<Piece>)
    requires pieces != []
    ensures Flatten(pieces) == pieces[0].Bytes() + Flatten(pieces[1..])
  {
    hide Encode;
  }

  lemma FlattenCons(p: Piece, pieces: seq<Piece>)
    ensures Flatten([p] + pieces) == p.Bytes() + Flatten(pieces)
  {
    hide Encode;
    assert ([p] + pieces)[1..] == pieces;
  }

  lemma {:induction false} FlattenConcat(a: seq<Piece>, b: seq<Piece>)
    ensures Flatten(a + b) == Flatten(a) + Flatten(b)
  {
    hide Piece.Bytes;
    if a == [] {
      assert a + b == b;
    } else {
      FlattenConcat(a[1..], b);
      assert (a + b)[1..] == a[1..] + b;
      ConcatAssociates(a[0].Bytes(), Flatten(a[1..]), Flatten(b));
    }
  }

  datatype Parse = Parse(pieces: seq<Piece>, rest: seq<byte>)
  {
    function Prepend(more: seq<Piece>): Parse {
      Parse(more + pieces, rest)
    }
  }

  lemma AcceptedIsPrefix(s: seq<byte>)
    requires s != [] && Judge(s).Accept?
    ensures var f := Judge(s).frame;
            FrameSize(f) == DeclaredSize(s) <= |s| && s[..FrameSize(f)] == Encode(f)
  {
    EncodeInvertsDecode(s[..DeclaredSize(s)]);
  }

  function Scan(s: seq<byte>): Parse {
    if s == [] then Parse([], [])
    else
      match Judge(s)
      case Undecided => Parse([], s)
      case Reject(reason) => Scan(s[1..]).Prepend([Dropped(s[0], reason)])
      case Accept(f) =>
        AcceptedIsPrefix(s);
        Scan(s[FrameSize(f)..]).Prepend([Accepted(f)])
  }

  // ---- what a verdict means ----

  /** A verdict, once given, is never changed by later bytes. */
  lemma VerdictStable(s: seq<byte>, more: seq<byte>)
    requires s != [] && !Judge(s).Undecided?
    ensures Judge(s + more) == Judge(s)
  {
    if s[0] == MAGIC_0 && s[1] == MAGIC_1 && s[2] == VERSION && DeclaredPayload(s) <= MAX_PAYLOAD_SIZE {
      assert (s + more)[..DeclaredSize(s)] == s[..DeclaredSize(s)];
    }
  }

  /** A frame is accepted exactly where its encoding begins. */
  lemma AcceptIffEncoding(s: seq<byte>, f: WireFrame)
    requires s != []
    ensures Judge(s) == Accept(f) <==> Encode(f) <= s
  {
    if Judge(s) == Accept(f) {
      AcceptedIsPrefix(s);
    }
    if Encode(f) <= s {
      HeaderBytes(f, s);
      U16RoundTrip(|f.payload|);
      assert DeclaredSize(s) == FrameSize(f);
      assert s[..FrameSize(f)] == Encode(f);
      DecodeInvertsEncode(f);
    }
  }

  /** The shape of an undecided candidate; in particular it is shorter than a full frame. */
  lemma UndecidedShape(s: seq<byte>)
    requires s != []
    ensures Judge(s).Undecided? <==>
            && s[0] == MAGIC_0
            && (|s| >= 2 ==> s[1] == MAGIC_1)
            && (|s| >= HEADER_SIZE ==>
                  && s[2] == VERSION && DeclaredPayload(s) <= MAX_PAYLOAD_SIZE
                  && |s| < DeclaredSize(s) <= MAX_FRAME_SIZE)
  {
    if s[0] == MAGIC_0 && |s| >= HEADER_SIZE && s[1] == MAGIC_1 {
      var declared := DeclaredSize(s);
    }
  }

  /** The verdict on every candidate, in numbers: what is given up before it is complete. */
  lemma RejectedInNumbers(s: seq<byte>)
    requires s != []
    ensures var q: seq<int> := s;
            var magic := q[0] == 0x4f && (|q| >= 2 ==> q[1] == 0x57);
            && (Judge(s) == Reject(Noise) <==> !magic)
            && (Judge(s) == Reject(WrongVersion) <==> magic && |q| >= 10 && q[2] != 1)
            && (Judge(s) == Reject(TooLong) <==>
                  magic && |q| >= 10 && q[2] == 1 && q[8] + 0x100 * q[9] > 512)
            && Judge(s) != Reject(Gap)
  {
    hide Decode;
  }

  /** And what becomes of it when it is complete: its checksum alone decides. */
  lemma CompleteInNumbers(s: seq<byte>)
    requires |s| >= 10 && s[0] == 0x4f && s[1] == 0x57 && s[2] == 1
    requires var q: seq<int> := s;
             q[8] + 0x100 * q[9] <= 512 && |q| >= q[8] + 0x100 * q[9] + 12
    ensures var q: seq<int> := s;
            var n := q[8] + 0x100 * q[9] + 10;
            if q[n] + 0x100 * q[n + 1] == Value(Checksum(s[..n])) then
              Judge(s) == Accept(Frame(1, s[3], q[4] + 0x100 * q[5], q[6] + 0x100 * q[7], s[10..n]))
            else Judge(s) == Reject(CrcMismatch)
  {
    hide Checksum, Value, Decode;
    var n := DeclaredPayload(s) + 10;
    var d := s[..DeclaredSize(s)];
    assert |d| == n + 2 && d[..n] == s[..n] && d[10..|d| - 2] == s[10..n];
    assert forall k :: 0 <= k < |d| ==> d[k] == s[k];
    assert d[..3] == [d[0], d[1], d[2]];
    DecodeErrorsExactly(d);
  }

  // ---- properties of the scanner ----

  /** The pieces tile the stream: nothing is lost, invented or reordered. */
  lemma {:induction false} ScanTiles(s: seq<byte>)
    ensures s == Flatten(Scan(s).pieces) + Scan(s).rest
    decreases |s|
  {
    hide Judge, Encode, Flatten;
    if s == [] {
      FlattenNothing();
    } else {
      match Judge(s)
      case Undecided =>
        FlattenNothing();
      case Reject(reason) =>
        var p, tail := Dropped(s[0], reason), s[1..];
        ScanTiles(tail);
        FlattenCons(p, Scan(tail).pieces);
        ConcatAssociates(p.Bytes(), Flatten(Scan(tail).pieces), Scan(tail).rest);
      case Accept(f) =>
        AcceptedIsPrefix(s);
        var p, tail := Accepted(f), s[FrameSize(f)..];
        ScanTiles(tail);
        FlattenCons(p, Scan(tail).pieces);
        ConcatAssociates(p.Bytes(), Flatten(Scan(tail).pieces), Scan(tail).rest);
    }
  }

  lemma FlattenNothing()
    ensures Flatten([]) == []
  {
  }

  /** Each piece is the verdict on the stream from its own offset on. */
  lemma {:induction false} PiecesAreVerdicts(s: seq<byte>, k: nat)
    requires k < |Scan(s).pieces|
    ensures var p, i := Scan(s).pieces[k], |Flatten(Scan(s).pieces[..k])|;
            && i < |s|
            && match p
               case Dropped(b, reason) => b == s[i] && Judge(s[i..]) == Reject(reason)
               case Accepted(f) => Judge(s[i..]) == Accept(f)
    decreases |s|
  {
    hide Judge, Encode, Flatten;
    var pieces := Scan(s).pieces;
    var n := 1;
    if Judge(s).Accept? {
      AcceptedIsPrefix(s);
      n := FrameSize(Judge(s).frame);
    }
    if k == 0 {
      FlattenNothing();
      assert pieces[..k] == [] && s[0..] == s;
    } else {
      var tail := Scan(s[n..]).pieces;
      PiecesAreVerdicts(s[n..], k - 1);
      assert pieces[..k] == [pieces[0]] + tail[..k - 1];
      FlattenCons(pieces[0], tail[..k - 1]);
      var i := |Flatten(tail[..k - 1])|;
      assert s[n..][i..] == s[n + i..];
    }
  }

  /** What is left over is an undecided candidate. */
  lemma {:induction false} ScanRest(s: seq<byte>)
    ensures Scan(s).rest != [] ==> Judge(Scan(s).rest).Undecided?
    ensures Scan(Scan(s).rest) == Parse([], Scan(s).rest)
    decreases |s|
  {
    if s == [] {
    } else {
      match Judge(s)
      case Undecided =>
      case Reject(_) => ScanRest(s[1..]);
      case Accept(f) =>
        AcceptedIsPrefix(s);
        ScanRest(s[FrameSize(f)..]);
    }
  }

  /** Scanning can stop anywhere and resume from what was left over. */
  lemma {:induction false} ScanResumes(s: seq<byte>, more: seq<byte>)
    ensures Scan(s + more) == Scan(Scan(s).rest + more).Prepend(Scan(s).pieces)
    decreases |s|
  {
    hide Judge, Encode;
    if s == [] {
      assert s + more == more;
    } else if Judge(s).Undecided? {
    } else {
      VerdictStable(s, more);
      var n := 1;
      if Judge(s).Accept? {
        AcceptedIsPrefix(s);
        n := FrameSize(Judge(s).frame);
      }
      ScanResumes(s[n..], more);
      assert (s + more)[n..] == s[n..] + more;
    }
  }

  // ---- skipping what cannot begin a frame ----

  /** A frame may begin at `i` for all that the first two bytes there say. */
  predicate CandidateAt(s: seq<byte>, i: nat)
    requires i < |s|
  {
    s[i] == MAGIC_0 && (i + 1 < |s| ==> s[i + 1] == MAGIC_1)
  }

  function NoisePieces(s: seq<byte>): (pieces: seq<Piece>)
    ensures |pieces| == |s|
  {
    seq(|s|, i requires 0 <= i < |s| => Dropped(s[i], Noise))
  }

  lemma NotCandidateIsNoise(s: seq<byte>, i: nat)
    requires i < |s| && !CandidateAt(s, i)
    ensures Judge(s[i..]) == Reject(Noise)
  {
  }

  lemma {:induction false} NoiseSkipped(s: seq<byte>, i: nat, j: nat)
    requires i <= j <= |s|
    requires forall k :: i <= k < j ==> !CandidateAt(s, k)
    ensures Scan(s[i..]) == Scan(s[j..]).Prepend(NoisePieces(s[i..j]))
    decreases j - i
  {
    hide Judge, Encode;
    if i == j {
    } else {
      NoiseSkipped(s, i + 1, j);
      NotCandidateIsNoise(s, i);
      assert s[i..][1..] == s[i + 1..];
      assert NoisePieces(s[i..j]) == [Dropped(s[i], Noise)] + NoisePieces(s[i + 1..j]);
    }
  }

  // ---- no valid frame is lost ----

  /** `f` is the slice of `bytes` that begins at `i`. */
  ghost predicate FrameAt(bytes: seq<byte>, i: nat, f: WireFrame) {
    i + FrameSize(f) <= |bytes| && bytes[i..i + FrameSize(f)] == Encode(f)
  }

  lemma FrameStays(bytes: seq<byte>, more: seq<byte>, i: nat, f: WireFrame)
    requires FrameAt(bytes, i, f)
    ensures FrameAt(bytes + more, i, f)
  {
    hide Encode;
    assert (bytes + more)[i..i + FrameSize(f)] == bytes[i..i + FrameSize(f)];
  }

  lemma FrameAtEnd(bytes: seq<byte>, f: WireFrame)
    ensures FrameAt(bytes + Encode(f), |bytes|, f)
  {
    hide Encode;
  }

  /** `f` is emitted from offset `i` of the bytes that the pieces tile. */
  ghost predicate EmittedAt(pieces: seq<Piece>, f: WireFrame, i: nat) {
    && pieces != []
    && var n := |pieces[0].Bytes()|;
       if i < n then i == 0 && pieces[0] == Accepted(f) else EmittedAt(pieces[1..], f, i - n)
  }

  /** Offset `i` lies inside an emitted frame, after its first byte. */
  ghost predicate InsideFrame(pieces: seq<Piece>, i: nat) {
    && pieces != []
    && var n := |pieces[0].Bytes()|;
       if i < n then i > 0 && pieces[0].Accepted? else InsideFrame(pieces[1..], i - n)
  }

  /** An emitted frame is the slice of the stream at its offset. */
  lemma {:induction false} EmittedIsSlice(pieces: seq<Piece>, f: WireFrame, i: nat)
    requires EmittedAt(pieces, f, i)
    ensures i + FrameSize(f) <= |Flatten(pieces)|
    ensures Flatten(pieces)[i..i + FrameSize(f)] == Encode(f)
    decreases |pieces|
  {
    hide Encode, Flatten;
    FlattenHead(pieces);
    var n := |pieces[0].Bytes()|;
    if i >= n {
      EmittedIsSlice(pieces[1..], f, i - n);
      SliceBehind(pieces[0].Bytes(), Flatten(pieces[1..]), i - n, FrameSize(f));
    } else {
      SliceAhead(Encode(f), Flatten(pieces[1..]));
    }
  }

  lemma SliceAhead(head: seq<byte>, tail: seq<byte>)
    ensures (head + tail)[0..|head|] == head
  {
  }

  lemma SliceBehind(head: seq<byte>, tail: seq<byte>, i: nat, n: nat)
    requires i + n <= |tail|
    ensures (head + tail)[|head| + i..|head| + i + n] == tail[i..i + n]
  {
  }

  /** An offset inside an emitted frame is overlapped, from the front, by an encoding in the
      stream itself. */
  lemma {:induction false} InsideIsOverlapped(pieces: seq<Piece>, i: nat)
    returns (g: WireFrame, j: nat)
    requires InsideFrame(pieces, i)
    ensures j < i < j + FrameSize(g) && FrameAt(Flatten(pieces), j, g)
    decreases |pieces|
  {
    hide Encode, Flatten;
    FlattenHead(pieces);
    var n := |pieces[0].Bytes()|;
    if i < n {
      g, j := pieces[0].frame, 0;
      SliceAhead(Encode(g), Flatten(pieces[1..]));
    } else {
      g, j := InsideIsOverlapped(pieces[1..], i - n);
      SliceBehind(pieces[0].Bytes(), Flatten(pieces[1..]), j, FrameSize(g));
      j := j + n;
    }
  }

  /** A complete valid frame anywhere in a stream is emitted, unless it begins inside a frame
      that is emitted, or inside the candidate at the end that is still undecided; in either of
      those cases it is not. */
  lemma {:induction false} NoFrameLost(before: seq<byte>, f: WireFrame, after: seq<byte>)
    ensures var p := Scan(before + Encode(f) + after);
            EmittedAt(p.pieces, f, |before|) <==>
            !InsideFrame(p.pieces, |before|) && |before| <= |Flatten(p.pieces)|
    decreases |before|
  {
    hide Judge, Encode;
    var s := before + Encode(f) + after;
    if before == [] {
      assert Encode(f) <= s;
      AcceptIffEncoding(s, f);
    } else if !Judge(s).Undecided? {
      var n := 1;
      if Judge(s).Accept? {
        AcceptedIsPrefix(s);
        n := FrameSize(Judge(s).frame);
      }
      if n <= |before| {
        assert s[n..] == before[n..] + Encode(f) + after;
        NoFrameLost(before[n..], f, after);
      }
    }
  }

  /** Once a full frame's worth of bytes has arrived from where the frame begins, the last
      possibility is gone. */
  lemma NoFrameLostInTheEnd(before: seq<byte>, f: WireFrame, after: seq<byte>)
    requires |Encode(f) + after| >= MAX_FRAME_SIZE
    ensures var p := Scan(before + Encode(f) + after);
            EmittedAt(p.pieces, f, |before|) || InsideFrame(p.pieces, |before|)
  {
    var s := before + Encode(f) + after;
    NoFrameLost(before, f, after);
    ScanTiles(s);
    ScanRest(s);
    if Scan(s).rest != [] {
      UndecidedShape(Scan(s).rest);
    }
  }

  /** How a frame goes missing inside another: the payload of a frame may be a frame. */
  lemma FrameInsideFrame(outer: WireFrame, inner: WireFrame)
    requires outer.payload == Encode(inner)
    ensures Scan(Encode(outer)) == Parse([Accepted(outer)], [])
    ensures FrameAt(Encode(outer), HEADER_SIZE, inner)
    ensures !EmittedAt(Scan(Encode(outer)).pieces, inner, HEADER_SIZE)
  {
    var s := Encode(outer);
    AcceptIffEncoding(s, outer);
    assert s[FrameSize(outer)..] == [];
    assert s[..HEADER_SIZE + |outer.payload|] == Covered(outer);
    assert s[HEADER_SIZE..HEADER_SIZE + FrameSize(inner)] == outer.payload;
  }

  /** How a frame goes missing behind a header that announces more than has come. */
  lemma FrameBehindOpenCandidate(f: WireFrame)
    requires HEADER_SIZE + FrameSize(f) < MAX_FRAME_SIZE
    ensures var s := Header(0, 0, 0, MAX_PAYLOAD_SIZE) + Encode(f);
            Scan(s) == Parse([], s) && !EmittedAt(Scan(s).pieces, f, HEADER_SIZE)
  {
    hide Encode, Header, WriteU16, Decode;
    var open := Header(0, 0, 0, MAX_PAYLOAD_SIZE);
    var s := open + Encode(f);
    EmptyHeaderBytes(MAX_PAYLOAD_SIZE);
    U16RoundTrip(MAX_PAYLOAD_SIZE);
    assert s[0] == open[..3][0] && s[1] == open[..3][1] && s[2] == open[..3][2];
    assert DeclaredSize(s) == MAX_FRAME_SIZE;
    UndecidedShape(s);
  }

  // ---- recovery from noise ----

  ghost predicate NoMagicPair(s: seq<byte>) {
    forall i :: 0 <= i < |s| - 1 ==> !(s[i] == MAGIC_0 && s[i + 1] == MAGIC_1)
  }

  datatype Segment = Segment(noise: seq<byte>, frame: WireFrame)

  function Transmit(segments: seq<Segment>): seq<byte> {
    if segments == [] then []
    else segments[0].noise + (Encode(segments[0].frame) + Transmit(segments[1..]))
  }

  function Recovered(segments: seq<Segment>): seq<Piece> {
    if segments == [] then []
    else NoisePieces(segments[0].noise) + ([Accepted(segments[0].frame)] + Recovered(segments[1..]))
  }

  /** Of trailing noise, a final 'O' may still become a frame. */
  function Kept(noise: seq<byte>): seq<byte> {
    if noise != [] && noise[|noise| - 1] == MAGIC_0 then [MAGIC_0] else []
  }

  lemma TrailingNoise(noise: seq<byte>)
    requires NoMagicPair(noise)
    ensures Scan(noise) == Parse(NoisePieces(noise[..|noise| - |Kept(noise)|]), Kept(noise))
  {
    var j := |noise| - |Kept(noise)|;
    NoiseSkipped(noise, 0, j);
    assert noise[0..] == noise && noise[0..j] == noise[..j] && noise[j..] == Kept(noise);
  }

  lemma NoiseThenFrame(noise: seq<byte>, f: WireFrame, after: seq<byte>)
    requires NoMagicPair(noise)
    ensures Scan(noise + (Encode(f) + after)) ==
            Scan(after).Prepend([Accepted(f)]).Prepend(NoisePieces(noise))
  {
    var tail := Encode(f) + after;
    var s := noise + tail;
    HeaderBytes(f, tail);
    forall k | 0 <= k < |noise| ensures !CandidateAt(s, k) {
      assert s[k] == noise[k];
      assert s[k + 1] == if k + 1 < |noise| then noise[k + 1] else MAGIC_0;
    }
    NoiseSkipped(s, 0, |noise|);
    assert s[0..] == s && s[..|noise|] == noise && s[|noise|..] == tail;
    AcceptIffEncoding(tail, f);
    assert tail[FrameSize(f)..] == after;
  }

  /** Frames separated by noise are all emitted, the noise alone is dropped, and nothing is
      counted as a version, length or checksum error. */
  lemma {:induction false} RecoversFromNoise(segments: seq<Segment>, tail: seq<byte>)
    requires forall k :: 0 <= k < |segments| ==> NoMagicPair(segments[k].noise)
    requires NoMagicPair(tail)
    ensures Scan(Transmit(segments) + tail) ==
            Parse(Recovered(segments) + NoisePieces(tail[..|tail| - |Kept(tail)|]), Kept(tail))
  {
    hide Encode, Judge, Scan;
    if segments == [] {
      assert Transmit(segments) + tail == tail;
      TrailingNoise(tail);
    } else {
      var noise, f, later := segments[0].noise, segments[0].frame, Transmit(segments[1..]);
      RecoversFromNoise(segments[1..], tail);
      ConcatAssociates(noise, Encode(f) + later, tail);
      ConcatAssociates(Encode(f), later, tail);
      NoiseThenFrame(noise, f, later + tail);
    }
  }
}
