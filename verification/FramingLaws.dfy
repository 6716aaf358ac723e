/**
  What the framer guarantees over whole streams: how the bytes are chunked cannot be seen,
  every frame emitted is a well-formed slice of the stream, well-formed frames come back
  through garbage, and exactly when a byte-wise feed can overflow.
 */
module FramingLaws {
  import opened Bits
  import opened Errors
  import opened Framing

  // ----------------------------------------------------------- sync positions

  lemma FirstIs(u: seq<byte>, sync: seq<byte>, i: nat)
    requires OccursAt(u, sync, i) && forall j: nat :: j < i ==> !OccursAt(u, sync, j)
    ensures Find(u, sync) == Some(i)
  {
  }

  /** Whether sync occurs at i depends only on the bytes there. */
  lemma OccursInPart(u: seq<byte>, d: seq<byte>, sync: seq<byte>, i: nat)
    requires i + |sync| <= |u|
    ensures OccursAt(u + d, sync, i) <==> OccursAt(u, sync, i)
  {
    assert (u + d)[i..i + |sync|] == u[i..i + |sync|];
  }

  lemma FindStable(u: seq<byte>, d: seq<byte>, sync: seq<byte>)
    requires Find(u, sync).Some?
    ensures Find(u + d, sync) == Find(u, sync)
  {
    var i := Find(u, sync).value;
    forall j: nat | j <= i ensures OccursAt(u + d, sync, j) <==> OccursAt(u, sync, j) {
      OccursInPart(u, d, sync, j);
    }
    FirstIs(u + d, sync, i);
  }

  lemma OccursShifted(a: seq<byte>, b: seq<byte>, sync: seq<byte>, j: nat)
    ensures OccursAt(a + b, sync, |a| + j) <==> OccursAt(b, sync, j)
  {
    if j + |sync| <= |b| {
      assert (a + b)[|a| + j..|a| + j + |sync|] == b[j..j + |sync|];
    }
  }

  /** Dropping bytes in which no occurrence starts moves the first occurrence down. */
  lemma FindShifted(a: seq<byte>, b: seq<byte>, sync: seq<byte>)
    requires forall j: nat :: j < |a| ==> !OccursAt(a + b, sync, j)
    ensures Find(b, sync).None? ==> Find(a + b, sync).None?
    ensures Find(b, sync).Some? ==> Find(a + b, sync) == Some(|a| + Find(b, sync).value)
  {
    forall j: nat ensures OccursAt(a + b, sync, |a| + j) <==> OccursAt(b, sync, j) {
      OccursShifted(a, b, sync, j);
    }
    match Find(b, sync)
    case Some(i) =>
      forall j: nat | j < |a| + i ensures !OccursAt(a + b, sync, j) {
        if j >= |a| { OccursShifted(a, b, sync, j - |a|); }
      }
      FirstIs(a + b, sync, |a| + i);
    case None =>
      match Find(a + b, sync)
      case None =>
      case Some(k) => OccursShifted(a, b, sync, k - |a|);
  }

  // ---------------------------------------------------------- chunking

  /** More bytes change nothing in a round that did not have to wait. */
  lemma InspectStable(s: Session, cap: nat, u: seq<byte>, d: seq<byte>)
    requires s.sync <= u
    ensures s.sync <= u + d
    ensures match Inspect(s, cap, u)
      case Skip(rest) => Inspect(s, cap, u + d) == Skip(rest + d)
      case Emit(f, rest) => Inspect(s, cap, u + d) == Emit(f, rest + d)
      case Wait(keep) => keep == u
  {
    var h := s.Header();
    if |u| >= h {
      assert (u + d)[..h] == u[..h];
      var k := if s.sync == [] then 1 else |s.sync|;
      assert (u + d)[k..] == u[k..] + d;
      var length := s.lengthOf(u[..h]);
      if length <= |u| {
        assert (u + d)[..length] == u[..length];
        assert (u + d)[length..] == u[length..] + d;
      }
    }
  }

  lemma StepStable(s: Session, cap: nat, u: seq<byte>, d: seq<byte>)
    ensures match Step(s, cap, u)
      case Skip(rest) => Step(s, cap, u + d) == Skip(rest + d)
      case Emit(f, rest) => Step(s, cap, u + d) == Emit(f, rest + d)
      case Wait(keep) => Step(s, cap, u + d) == Step(s, cap, keep + d)
  {
    match Find(u, s.sync)
    case Some(i) =>
      FindStable(u, d, s.sync);
      assert (u + d)[i..] == u[i..] + d;
      InspectStable(s, cap, u[i..], d);
      if Inspect(s, cap, u[i..]).Wait? {
        FirstIs(u[i..], s.sync, 0);
        FindStable(u[i..], d, s.sync);
        assert (u[i..] + d)[0..] == u[i..] + d;
      }
    case None =>
      KeptStep(s, cap, u, d);
  }

  lemma EmptyPattern(u: seq<byte>)
    ensures Find(u, []) == Some(0)
  {
    FirstIs(u, [], 0);
  }

  /** With no sync in u, its last |sync| - 1 bytes carry all that later bytes can complete. */
  lemma KeptStep(s: Session, cap: nat, u: seq<byte>, d: seq<byte>)
    requires Find(u, s.sync).None?
    ensures Step(s, cap, u + d) == Step(s, cap, LastBytes(u, |s.sync| - 1) + d)
  {
    hide Find, Inspect;
    EmptyPattern(u);
    var n := |s.sync| - 1;
    if |u| > n {
      var a, b := u[..|u| - n], u[|u| - n..] + d;
      assert u + d == a + b;
      forall j: nat | j < |a| ensures !OccursAt(a + b, s.sync, j) {
        OccursInPart(u, d, s.sync, j);
      }
      FindShifted(a, b, s.sync);
      match Find(b, s.sync)
      case Some(i) => assert (a + b)[|a| + i..] == b[i..];
      case None => assert LastBytes(a + b, n) == LastBytes(b, n);
    }
  }

  /** Cutting u ++ d is cutting u, then cutting what u left unread together with d. */
  lemma {:induction false} CutInTwo(s: Session, cap: nat, u: seq<byte>, d: seq<byte>)
    ensures Frames(s, cap, u + d) ==
      Prepend(Frames(s, cap, u).frames, Frames(s, cap, Frames(s, cap, u).rest + d))
    decreases |u|
  {
    StepStable(s, cap, u, d);
    match Step(s, cap, u)
    case Wait(keep) => PrependNone(Frames(s, cap, keep + d));
    case Skip(rest) => CutInTwo(s, cap, rest, d);
    case Emit(f, rest) =>
      CutInTwo(s, cap, rest, d);
      PrependOne(f, Frames(s, cap, rest).frames, Frames(s, cap, Frames(s, cap, rest).rest + d));
  }

  lemma PrependNone(c: Cut)
    ensures Prepend([], c) == c
  {
    assert [] + c.frames == c.frames;
  }

  lemma PrependOne(f: seq<byte>, fs: seq<seq<byte>>, c: Cut)
    ensures Cut([f] + Prepend(fs, c).frames, Prepend(fs, c).rest) == Prepend([f] + fs, c)
  {
    assert [f] + (fs + c.frames) == ([f] + fs) + c.frames;
  }

  function Concat(chunks: seq<seq<byte>>): seq<byte> {
    if chunks == [] then [] else chunks[0] + Concat(chunks[1..])
  }

  /** A run of pushes: all frames in order and the unread bytes, or nothing once a push overflows. */
  function Run(s: Session, cap: nat, unread: seq<byte>, chunks: seq<seq<byte>>): Option<Cut>
    decreases |chunks|
  {
    if chunks == [] then Some(Cut([], unread))
    else if |unread| + |chunks[0]| > cap then None
    else
      var c := Frames(s, cap, unread + chunks[0]);
      match Run(s, cap, c.rest, chunks[1..])
      case None => None
      case Some(later) => Some(Cut(c.frames + later.frames, later.rest))
  }

  /** The framer object, fed chunk by chunk, is Run. */
  method Feed(framer: StreamFramer, chunks: seq<seq<byte>>) returns (r: Option<seq<seq<byte>>>)
    requires framer.Valid()
    modifies framer`buffer, framer`offset
    ensures framer.Valid()
    ensures r.None? <==> Run(framer.session, framer.cap, old(framer.Unread()), chunks).None?
    ensures r.Some? ==>
              Run(framer.session, framer.cap, old(framer.Unread()), chunks) == Some(Cut(r.value, framer.Unread()))
  {
    hide Frames;
    ghost var run := Run(framer.session, framer.cap, framer.Unread(), chunks);
    var frames: seq<seq<byte>> := [];
    var i := 0;
    assert chunks[0..] == chunks;
    Behind0(Run(framer.session, framer.cap, framer.Unread(), chunks));
    while i < |chunks|
      invariant 0 <= i <= |chunks| && framer.Valid()
      invariant run == Behind(frames, Run(framer.session, framer.cap, framer.Unread(), chunks[i..]))
    {
      assert chunks[i..][0] == chunks[i] && chunks[i..][1..] == chunks[i + 1..];
      var more := framer.PushData(chunks[i]);
      if more.Err? { return None; }
      BehindTwice(frames, more.value, Run(framer.session, framer.cap, framer.Unread(), chunks[i + 1..]));
      frames := frames + more.value;
      i := i + 1;
    }
    assert chunks[i..] == [] && frames + [] == frames;
    return Some(frames);
  }

  ghost function Behind(fs: seq<seq<byte>>, run: Option<Cut>): Option<Cut> {
    if run.None? then None else Some(Prepend(fs, run.value))
  }

  lemma Behind0(run: Option<Cut>)
    ensures Behind([], run) == run
  {
    if run.Some? { PrependNone(run.value); }
  }

  lemma BehindTwice(a: seq<seq<byte>>, b: seq<seq<byte>>, run: Option<Cut>)
    ensures Behind(a, Behind(b, run)) == Behind(a + b, run)
  {
    if run.Some? { assert a + (b + run.value.frames) == (a + b) + run.value.frames; }
  }

  /** Nothing more to cut: what a push leaves behind. */
  ghost predicate Settled(s: Session, cap: nat, u: seq<byte>) {
    Frames(s, cap, u) == Cut([], u)
  }

  lemma {:induction false} RestSettled(s: Session, cap: nat, u: seq<byte>)
    ensures Settled(s, cap, Frames(s, cap, u).rest)
    decreases |u|
  {
    match Step(s, cap, u)
    case Skip(rest) => RestSettled(s, cap, rest);
    case Emit(f, rest) => RestSettled(s, cap, rest);
    case Wait(keep) =>
      StepStable(s, cap, u, []);
      assert u + [] == u && keep + [] == keep;
  }

  /** Chunking independence: any pushes that do not overflow cut the stream as one push would. */
  lemma {:induction false} ChunkingIndependence(s: Session, cap: nat, unread: seq<byte>, chunks: seq<seq<byte>>)
    requires Settled(s, cap, unread) && Run(s, cap, unread, chunks).Some?
    ensures Run(s, cap, unread, chunks).value == Frames(s, cap, unread + Concat(chunks))
    decreases |chunks|
  {
    hide Frames;
    if chunks == [] {
      assert unread + [] == unread;
    } else {
      var u := unread + chunks[0];
      RestSettled(s, cap, u);
      ChunkingIndependence(s, cap, Frames(s, cap, u).rest, chunks[1..]);
      CutInTwo(s, cap, u, Concat(chunks[1..]));
      assert unread + Concat(chunks) == u + Concat(chunks[1..]);
    }
  }

  lemma EmptySettled(s: Session, cap: nat)
    ensures Settled(s, cap, [])
  {
    match Find([], s.sync)
    case None =>
    case Some(i) => assert i == 0;
  }

  /** From an empty framer, for every stream and every chunking of it that does not overflow. */
  lemma AnyChunks(s: Session, cap: nat, chunks: seq<seq<byte>>)
    requires Run(s, cap, [], chunks).Some?
    ensures Run(s, cap, [], chunks).value == Frames(s, cap, Concat(chunks))
  {
    EmptySettled(s, cap);
    ChunkingIndependence(s, cap, [], chunks);
    assert [] + Concat(chunks) == Concat(chunks);
  }

  // ------------------------------------------------------------- soundness

  /** A frame the length rule accepts: sync first, its length field its own size, within the bounds. */
  predicate WellFormed(s: Session, cap: nat, f: seq<byte>) {
    && s.sync <= f
    && s.Header() <= |f| <= cap
    && s.lengthOf(f[..s.Header()]) == |f|
  }

  /** What the framer emits: as above, except that a length below the sync size cuts the pattern short. */
  predicate Accepted(s: Session, cap: nat, f: seq<byte>) {
    && (s.sync <= f || f <= s.sync)
    && s.Header() <= |f| <= cap
    && s.lengthOf(f[..s.Header()]) == |f|
  }

  /** When the header covers the sync pattern the two agree. */
  lemma AcceptedIsWellFormed(s: Session, cap: nat, f: seq<byte>)
    requires |s.sync| <= s.Header()
    ensures Accepted(s, cap, f) <==> WellFormed(s, cap, f)
  {
    if Accepted(s, cap, f) && f <= s.sync {
      assert f == s.sync;
    }
  }

  datatype Piece = Junk(bytes: seq<byte>) | Whole(bytes: seq<byte>)

  /** How the consumed part of a stream splits into frames and skipped bytes. */
  ghost function Pieces(s: Session, cap: nat, u: seq<byte>): seq<Piece>
    decreases |u|
  {
    match Step(s, cap, u)
    case Wait(keep) => [Before(u, keep)]
    case Skip(rest) => [Before(u, rest)] + Pieces(s, cap, rest)
    case Emit(f, rest) => [Before(u, f + rest)] + ([Whole(f)] + Pieces(s, cap, rest))
  }

  /** What lies before a suffix. */
  ghost function Before(u: seq<byte>, tail: seq<byte>): Piece {
    Junk(if |tail| <= |u| then u[..|u| - |tail|] else [])
  }

  ghost function Flatten(ps: seq<Piece>): seq<byte> {
    if ps == [] then [] else ps[0].bytes + Flatten(ps[1..])
  }

  ghost function FramesOf(ps: seq<Piece>): seq<seq<byte>> {
    if ps == [] then []
    else (if ps[0].Whole? then [ps[0].bytes] else []) + FramesOf(ps[1..])
  }

  predicate Suffix(t: seq<byte>, u: seq<byte>) {
    |t| <= |u| && u[|u| - |t|..] == t
  }

  lemma SuffixOfDrop(t: seq<byte>, u: seq<byte>, i: nat)
    requires i <= |u| && Suffix(t, u[i..])
    ensures Suffix(t, u)
  {
    assert u[i..][|u| - i - |t|..] == u[|u| - |t|..];
  }

  lemma InspectSuffix(s: Session, cap: nat, u: seq<byte>)
    requires s.sync <= u
    ensures match Inspect(s, cap, u)
      case Wait(keep) => Suffix(keep, u)
      case Skip(rest) => Suffix(rest, u)
      case Emit(f, rest) => Suffix(f + rest, u) && Accepted(s, cap, f)
  {
    match Inspect(s, cap, u)
    case Wait(keep) =>
    case Skip(rest) =>
    case Emit(f, rest) =>
      assert f + rest == u;
      assert f[..s.Header()] == u[..s.Header()];
  }

  lemma StepSuffix(s: Session, cap: nat, u: seq<byte>)
    ensures match Step(s, cap, u)
      case Wait(keep) => Suffix(keep, u)
      case Skip(rest) => Suffix(rest, u)
      case Emit(f, rest) => Suffix(f + rest, u) && Accepted(s, cap, f)
  {
    match Find(u, s.sync)
    case None => EmptyPattern(u);
    case Some(i) =>
      hide Inspect;
      InspectSuffix(s, cap, u[i..]);
      match Inspect(s, cap, u[i..])
      case Wait(keep) => SuffixOfDrop(keep, u, i);
      case Skip(rest) => SuffixOfDrop(rest, u, i);
      case Emit(f, rest) => SuffixOfDrop(f + rest, u, i);
  }

  /** Nothing is invented, reordered or used twice: the frames are disjoint, ordered slices of the
      stream, each accepted by the length rule, and the stream is the pieces followed by the unread bytes. */
  lemma {:induction false} FramesAreSlices(s: Session, cap: nat, u: seq<byte>)
    ensures Flatten(Pieces(s, cap, u)) + Frames(s, cap, u).rest == u
    ensures FramesOf(Pieces(s, cap, u)) == Frames(s, cap, u).frames
    ensures forall f <- Frames(s, cap, u).frames :: Accepted(s, cap, f)
    decreases |u|
  {
    hide Step, Flatten, FramesOf, Accepted;
    StepSuffix(s, cap, u);
    match Step(s, cap, u)
    case Wait(keep) =>
      FlattenMore(Before(u, keep), []);
      assert [Before(u, keep)] + [] == [Before(u, keep)];
    case Skip(rest) =>
      FramesAreSlices(s, cap, rest);
      FlattenMore(Before(u, rest), Pieces(s, cap, rest));
    case Emit(f, rest) =>
      FramesAreSlices(s, cap, rest);
      var more, c := Pieces(s, cap, rest), Frames(s, cap, rest);
      FlattenMore(Whole(f), more);
      FlattenMore(Before(u, f + rest), [Whole(f)] + more);
      var junk := Before(u, f + rest).bytes;
      assert junk + (f + Flatten(more)) + c.rest == junk + (f + (Flatten(more) + c.rest));
  }

  lemma FlattenMore(p: Piece, ps: seq<Piece>)
    ensures Flatten([p] + ps) == p.bytes + Flatten(ps)
    ensures FramesOf([p] + ps) == (if p.Whole? then [p.bytes] else []) + FramesOf(ps)
    ensures Flatten([]) == [] && FramesOf([]) == []
  {
    assert ([p] + ps)[1..] == ps;
  }

  // ------------------------------------------------------------ completeness

  /** The garbage g before a frame f hides no earlier sync; without a sync pattern there is none. */
  predicate CleanBefore(s: Session, g: seq<byte>, f: seq<byte>) {
    if s.sync == [] then g == [] else Find(g + f, s.sync) == Some(|g|)
  }

  function Interleave(gs: seq<seq<byte>>, fs: seq<seq<byte>>): seq<byte>
    requires |gs| == |fs|
  {
    if fs == [] then [] else gs[0] + fs[0] + Interleave(gs[1..], fs[1..])
  }

  /** One well-formed frame after clean garbage is cut off whole. */
  lemma CutOne(s: Session, cap: nat, g: seq<byte>, f: seq<byte>, more: seq<byte>)
    requires WellFormed(s, cap, f) && CleanBefore(s, g, f)
    ensures Step(s, cap, g + f + more) == Emit(f, more)
  {
    hide Find;
    var u := g + f + more;
    assert Find(u, s.sync) == Some(|g|) by {
      if s.sync == [] {
        EmptyPattern(u);
      } else {
        FindStable(g + f, more, s.sync);
      }
    }
    assert u[|g|..] == f + more;
    assert (f + more)[..s.Header()] == f[..s.Header()];
    assert (f + more)[..|f|] == f && (f + more)[|f|..] == more;
  }

  /** Resynchronisation: well-formed frames between stretches of clean garbage all come back, in order. */
  lemma {:induction false} FramesComeBack(
    s: Session, cap: nat, gs: seq<seq<byte>>, fs: seq<seq<byte>>, tail: seq<byte>)
    requires |gs| == |fs|
    requires forall i :: 0 <= i < |fs| ==> WellFormed(s, cap, fs[i]) && CleanBefore(s, gs[i], fs[i])
    ensures Frames(s, cap, Interleave(gs, fs) + tail) == Prepend(fs, Frames(s, cap, tail))
    decreases |fs|
  {
    hide Step;
    if fs == [] {
      assert [] + tail == tail;
      PrependNone(Frames(s, cap, tail));
    } else {
      var more := Interleave(gs[1..], fs[1..]) + tail;
      assert Interleave(gs, fs) + tail == gs[0] + fs[0] + more;
      CutOne(s, cap, gs[0], fs[0], more);
      FramesComeBack(s, cap, gs[1..], fs[1..], tail);
      PrependOne(fs[0], fs[1..], Frames(s, cap, tail));
      assert [fs[0]] + fs[1..] == fs;
    }
  }

  /** Back-to-back frames, in any chunks that do not overflow, come back with nothing left over. */
  lemma EndToEnd(s: Session, cap: nat, fs: seq<seq<byte>>, chunks: seq<seq<byte>>)
    requires forall f <- fs :: WellFormed(s, cap, f)
    requires Concat(chunks) == Concat(fs) && Run(s, cap, [], chunks).Some?
    ensures Run(s, cap, [], chunks) == Some(Cut(fs, []))
  {
    hide Frames, Step, Find;
    AnyChunks(s, cap, chunks);
    var gs := seq(|fs|, _ => []);
    InterleaveNothing(gs, fs);
    forall i | 0 <= i < |fs| ensures WellFormed(s, cap, fs[i]) && CleanBefore(s, gs[i], fs[i]) {
      assert [] + fs[i] == fs[i];
      if s.sync != [] { FirstIs(fs[i], s.sync, 0); }
    }
    FramesComeBack(s, cap, gs, fs, []);
    EmptySettled(s, cap);
    assert Concat(fs) + [] == Concat(fs);
    assert fs + [] == fs;
  }

  lemma {:induction false} InterleaveNothing(gs: seq<seq<byte>>, fs: seq<seq<byte>>)
    requires |gs| == |fs| && forall i :: 0 <= i < |gs| ==> gs[i] == []
    ensures Interleave(gs, fs) == Concat(fs)
    decreases |fs|
  {
    if fs != [] {
      InterleaveNothing(gs[1..], fs[1..]);
      assert gs[0] + fs[0] == fs[0];
    }
  }

  // ------------------------------------------------------- overflow, exactly

  function Singles(stream: seq<byte>): (cs: seq<seq<byte>>)
    ensures |cs| == |stream| && forall i :: 0 <= i < |cs| ==> cs[i] == [stream[i]]
  {
    seq(|stream|, i requires 0 <= i < |stream| => [stream[i]])
  }

  /** The cap leaves room for a header and a sync pattern. */
  predicate Roomy(s: Session, cap: nat) {
    s.Header() <= cap && |s.sync| <= cap
  }

  /** Under a roomy cap a cut always leaves room for one more byte. */
  lemma {:induction false} RestFits(s: Session, cap: nat, u: seq<byte>)
    requires Roomy(s, cap)
    ensures |Frames(s, cap, u).rest| < cap
    decreases |u|
  {
    match Step(s, cap, u)
    case Skip(rest) => RestFits(s, cap, rest);
    case Emit(f, rest) => RestFits(s, cap, rest);
    case Wait(keep) => EmptyPattern(u);
  }

  lemma {:induction false} ByteWiseNeverOverflows(s: Session, cap: nat, unread: seq<byte>, stream: seq<byte>)
    requires Roomy(s, cap) && |unread| < cap
    ensures Run(s, cap, unread, Singles(stream)).Some?
    decreases |stream|
  {
    if stream != [] {
      assert Singles(stream)[1..] == Singles(stream[1..]);
      RestFits(s, cap, unread + [stream[0]]);
      ByteWiseNeverOverflows(s, cap, Frames(s, cap, unread + [stream[0]]).rest, stream[1..]);
    }
  }

  /** A stream that a cramped framer must hold in full: the sync pattern, then anything. */
  ghost function Filler(s: Session, n: nat): (u: seq<byte>)
    ensures |u| == n
  {
    seq(n, i requires i >= 0 => if i < |s.sync| then s.sync[i] else 0)
  }

  lemma FillerHeld(s: Session, cap: nat, n: nat)
    requires !Roomy(s, cap) && n <= cap
    ensures Settled(s, cap, Filler(s, n))
  {
    var u := Filler(s, n);
    if n >= |s.sync| {
      assert u[0..0 + |s.sync|] == s.sync;
      FirstIs(u, s.sync, 0);
      assert u[0..] == u;
    } else {
      forall j: nat ensures !OccursAt(u, s.sync, j) {
      }
    }
  }

  lemma {:induction false} FillerOverflows(s: Session, cap: nat, n: nat)
    requires !Roomy(s, cap) && n <= cap
    ensures Run(s, cap, Filler(s, n), Singles(Filler(s, cap + 1)[n..])).None?
    decreases cap - n
  {
    hide Frames, Step;
    var rest := Filler(s, cap + 1)[n..];
    assert Singles(rest)[1..] == Singles(rest[1..]);
    if n < cap {
      assert Filler(s, n) + [rest[0]] == Filler(s, n + 1);
      FillerHeld(s, cap, n + 1);
      assert rest[1..] == Filler(s, cap + 1)[n + 1..];
      FillerOverflows(s, cap, n + 1);
    }
  }

  /** Feeding byte by byte is safe for every stream exactly when the cap is roomy. */
  lemma ByteWiseSafeIffRoomy(s: Session, cap: nat)
    ensures Roomy(s, cap) <==> forall stream: seq<byte> :: Run(s, cap, [], Singles(stream)).Some?
  {
    if Roomy(s, cap) {
      forall stream: seq<byte> ensures Run(s, cap, [], Singles(stream)).Some? {
        ByteWiseNeverOverflows(s, cap, [], stream);
      }
    } else {
      FillerOverflows(s, cap, 0);
      assert Filler(s, 0) == [] && Filler(s, cap + 1)[0..] == Filler(s, cap + 1);
    }
  }
}
