/**
  Which frames a stream holds, said over positions and without the framer's loop: headers are tried at
  the first sync pattern, then behind the pattern of each rejected one and behind each accepted frame.
 */
module FramingScan {
  import opened Bits
  import opened Errors
  import opened Framing
  import opened FramingLaws

  /** A position where a header was read: its length was out of bounds, or a frame of that size follows. */
  datatype Try = Rejected(at: nat) | Taken(at: nat, size: nat)

  /** The first occurrence of the pattern at or after p. */
  ghost predicate FirstAt(u: seq<byte>, sync: seq<byte>, p: nat, i: nat) {
    p <= i && OccursAt(u, sync, i) && forall j: nat :: p <= j < i ==> !OccursAt(u, sync, j)
  }

  /** What the session reads in the header at i. */
  function LengthAt(s: Session, u: seq<byte>, i: nat): nat
    requires i + s.Header() <= |u|
  {
    s.lengthOf(u[i..i + s.Header()])
  }

  predicate InBounds(s: Session, cap: nat, length: nat) {
    s.Header() <= length <= cap
  }

  ghost predicate Judged(s: Session, cap: nat, u: seq<byte>, t: Try) {
    && t.at + s.Header() <= |u|
    && match t
       case Rejected(i) => !InBounds(s, cap, LengthAt(s, u, i))
       case Taken(i, n) => InBounds(s, cap, n) && n == LengthAt(s, u, i) && i + n <= |u|
  }

  /** Where the search goes on: behind the frame, behind the pattern of a rejected header, or one byte on without one. */
  function Onward(s: Session, t: Try): nat {
    match t
    case Taken(i, n) => i + n
    case Rejected(i) => if s.sync == [] then i + 1 else i + |s.sync|
  }

  /** ts are the headers tried from position p on. */
  ghost predicate Scan(s: Session, cap: nat, u: seq<byte>, p: nat, ts: seq<Try>)
    decreases |ts|
  {
    ts == [] ||
    (FirstAt(u, s.sync, p, ts[0].at) && Judged(s, cap, u, ts[0]) && Scan(s, cap, u, Onward(s, ts[0]), ts[1..]))
  }

  function End(s: Session, p: nat, ts: seq<Try>): nat
    decreases |ts|
  {
    if ts == [] then p else End(s, Onward(s, ts[0]), ts[1..])
  }

  /** At p nothing can be decided yet: a header or frame is incomplete, or only the start of a pattern can be there. */
  ghost predicate Waits(s: Session, cap: nat, u: seq<byte>, p: nat, rest: seq<byte>) {
    || (exists i: nat :: FirstAt(u, s.sync, p, i) && rest == u[i..] && Incomplete(s, cap, u, i))
    || ((forall j: nat :: p <= j ==> !OccursAt(u, s.sync, j)) && Suffix(rest, u)
        && (|rest| == |s.sync| - 1 < |u| - p || |rest| == |u| - p <= |s.sync| - 1))
  }

  predicate Incomplete(s: Session, cap: nat, u: seq<byte>, i: nat) {
    i + s.Header() > |u| || (InBounds(s, cap, LengthAt(s, u, i)) && i + LengthAt(s, u, i) > |u|)
  }

  function Slices(u: seq<byte>, ts: seq<Try>): seq<seq<byte>>
    requires forall t <- ts :: t.Taken? ==> t.at + t.size <= |u|
  {
    if ts == [] then []
    else (if ts[0].Taken? then [u[ts[0].at..ts[0].at + ts[0].size]] else []) + Slices(u, ts[1..])
  }

  // ---------------------------------------------------------------- one round

  lemma FindIs(u: seq<byte>, sync: seq<byte>, p: nat, i: nat)
    requires p <= |u| && FirstAt(u, sync, p, i)
    ensures Find(u[p..], sync) == Some(i - p)
  {
    assert u == u[..p] + u[p..];
    forall j: nat ensures OccursAt(u, sync, p + j) <==> OccursAt(u[p..], sync, j) {
      OccursShifted(u[..p], u[p..], sync, j);
    }
    forall j: nat | j < i - p ensures !OccursAt(u[p..], sync, j) {
      assert !OccursAt(u, sync, p + j);
    }
    FirstIs(u[p..], sync, i - p);
  }

  lemma FindNone(u: seq<byte>, sync: seq<byte>, p: nat)
    requires p <= |u| && forall j: nat :: p <= j ==> !OccursAt(u, sync, j)
    ensures Find(u[p..], sync).None?
  {
    assert u == u[..p] + u[p..];
    match Find(u[p..], sync)
    case None =>
    case Some(i) => OccursShifted(u[..p], u[p..], sync, i);
  }

  /** The round from p is decided at the first pattern. */
  lemma RoundAt(s: Session, cap: nat, u: seq<byte>, p: nat, i: nat)
    requires p <= |u| && FirstAt(u, s.sync, p, i)
    ensures i <= |u| && s.sync <= u[i..] && Step(s, cap, u[p..]) == Inspect(s, cap, u[i..])
  {
    hide Find, Inspect;
    FindIs(u, s.sync, p, i);
    assert u[p..][i - p..] == u[i..];
  }

  lemma TryStep(s: Session, cap: nat, u: seq<byte>, p: nat, t: Try)
    requires p <= |u| && FirstAt(u, s.sync, p, t.at) && Judged(s, cap, u, t)
    ensures p < Onward(s, t) <= |u|
    ensures Step(s, cap, u[p..]) ==
            if t.Taken? then Emit(u[t.at..t.at + t.size], u[t.at + t.size..]) else Skip(u[Onward(s, t)..])
  {
    hide Step;
    var v := u[t.at..];
    RoundAt(s, cap, u, p, t.at);
    assert v[..s.Header()] == u[t.at..t.at + s.Header()];
    if t.Taken? {
      assert v[..t.size] == u[t.at..t.at + t.size] && v[t.size..] == u[t.at + t.size..];
    } else {
      assert v[Onward(s, t) - t.at..] == u[Onward(s, t)..];
    }
  }

  lemma IncompleteStep(s: Session, cap: nat, u: seq<byte>, p: nat, i: nat)
    requires p <= |u| && FirstAt(u, s.sync, p, i) && Incomplete(s, cap, u, i)
    ensures i <= |u| && Step(s, cap, u[p..]) == Wait(u[i..])
  {
    hide Step;
    RoundAt(s, cap, u, p, i);
    if i + s.Header() <= |u| {
      assert u[i..][..s.Header()] == u[i..i + s.Header()];
    }
  }

  lemma PatternlessStep(s: Session, cap: nat, u: seq<byte>, p: nat)
    requires p <= |u| && forall j: nat :: p <= j ==> !OccursAt(u, s.sync, j)
    ensures s.sync != [] && Step(s, cap, u[p..]) == Wait(LastBytes(u[p..], |s.sync| - 1))
  {
    hide Find, LastBytes;
    FindNone(u, s.sync, p);
    EmptyPattern(u[p..]);
  }

  lemma WaitStep(s: Session, cap: nat, u: seq<byte>, p: nat, rest: seq<byte>)
    requires p <= |u| && Waits(s, cap, u, p, rest)
    ensures Step(s, cap, u[p..]) == Wait(rest)
  {
    hide Step, Incomplete, LastBytes, Suffix;
    if i: nat :| FirstAt(u, s.sync, p, i) && rest == u[i..] && Incomplete(s, cap, u, i) {
      IncompleteStep(s, cap, u, p, i);
    } else {
      PatternlessStep(s, cap, u, p);
      LastIsSuffix(u, p, rest, |s.sync| - 1);
    }
  }

  lemma LastIsSuffix(u: seq<byte>, p: nat, rest: seq<byte>, n: nat)
    requires p <= |u| && Suffix(rest, u) && (|rest| == n < |u| - p || |rest| == |u| - p <= n)
    ensures LastBytes(u[p..], n) == rest
  {
    assert u[p..][|u| - p - |rest|..] == u[|u| - |rest|..];
  }

  // ----------------------------------------------------------------- all frames

  lemma {:induction false} ScanInside(s: Session, cap: nat, u: seq<byte>, p: nat, ts: seq<Try>)
    requires p <= |u| && Scan(s, cap, u, p, ts)
    ensures p <= End(s, p, ts) <= |u|
    ensures forall t <- ts :: t.Taken? ==> t.at + t.size <= |u|
    decreases |ts|
  {
    if ts != [] {
      TryStep(s, cap, u, p, ts[0]);
      ScanInside(s, cap, u, Onward(s, ts[0]), ts[1..]);
    }
  }

  /** Any scan up to a point where it waits gives exactly the framer's frames and unread bytes. */
  lemma {:induction false} ScanDecides(s: Session, cap: nat, u: seq<byte>, p: nat, ts: seq<Try>, rest: seq<byte>)
    requires p <= |u| && Scan(s, cap, u, p, ts) && Waits(s, cap, u, End(s, p, ts), rest)
    ensures forall t <- ts :: t.Taken? ==> t.at + t.size <= |u|
    ensures Frames(s, cap, u[p..]) == Cut(Slices(u, ts), rest)
    decreases |ts|
  {
    hide Step, FirstAt, Judged, Waits;
    ScanInside(s, cap, u, p, ts);
    if ts == [] {
      WaitStep(s, cap, u, p, rest);
    } else {
      TryStep(s, cap, u, p, ts[0]);
      ScanDecides(s, cap, u, Onward(s, ts[0]), ts[1..], rest);
    }
  }

  lemma FirstExists(u: seq<byte>, sync: seq<byte>, p: nat) returns (i: Option<nat>)
    requires p <= |u|
    ensures i.Some? ==> FirstAt(u, sync, p, i.value)
    ensures i.None? ==> forall j: nat :: p <= j ==> !OccursAt(u, sync, j)
  {
    i := FindFrom(u, sync, p);
  }

  lemma {:induction false} ScanExists(s: Session, cap: nat, u: seq<byte>, p: nat)
    returns (ts: seq<Try>, rest: seq<byte>)
    requires p <= |u|
    ensures Scan(s, cap, u, p, ts) && Waits(s, cap, u, End(s, p, ts), rest)
    decreases |u| - p
  {
    hide FirstAt, OccursAt;
    var first := FirstExists(u, s.sync, p);
    if first.None? {
      ts := [];
      rest := TailKept(s, cap, u, p);
    } else if Incomplete(s, cap, u, first.value) {
      ts := [];
      rest := TailFrom(s, cap, u, p, first.value);
    } else {
      var i := first.value;
      var n := LengthAt(s, u, i);
      var t := if InBounds(s, cap, n) then Taken(i, n) else Rejected(i);
      TryStep(s, cap, u, p, t);
      var more, last := ScanExists(s, cap, u, Onward(s, t));
      ts, rest := [t] + more, last;
      assert ts[1..] == more;
    }
  }

  lemma TailKept(s: Session, cap: nat, u: seq<byte>, p: nat) returns (rest: seq<byte>)
    requires p <= |u| && forall j: nat :: p <= j ==> !OccursAt(u, s.sync, j)
    ensures Waits(s, cap, u, p, rest)
  {
    if s.sync == [] { assert OccursAt(u, s.sync, p); }
    var n := |s.sync| - 1;
    rest := if n < |u| - p then u[|u| - n..] else u[p..];
  }

  lemma TailFrom(s: Session, cap: nat, u: seq<byte>, p: nat, i: nat) returns (rest: seq<byte>)
    requires FirstAt(u, s.sync, p, i) && Incomplete(s, cap, u, i)
    ensures Waits(s, cap, u, p, rest)
  {
    rest := u[i..];
  }

  /** No frame is passed over: there is a scan of every stream, and its frames are the framer's. */
  lemma FramesByScan(s: Session, cap: nat, u: seq<byte>) returns (ts: seq<Try>)
    ensures Scan(s, cap, u, 0, ts) && Waits(s, cap, u, End(s, 0, ts), Frames(s, cap, u).rest)
    ensures forall t <- ts :: t.Taken? ==> t.at + t.size <= |u|
    ensures Frames(s, cap, u).frames == Slices(u, ts)
  {
    hide Scan, Waits, Frames, Slices;
    var rest;
    ts, rest := ScanExists(s, cap, u, 0);
    ScanDecides(s, cap, u, 0, ts, rest);
    assert u[0..] == u;
  }

  // ------------------------------------------------------------ resynchronisation

  /** False patterns in g are all rejected, and the search behind the last one finds f first. */
  ghost predicate Reaches(s: Session, cap: nat, g: seq<byte>, f: seq<byte>, ts: seq<Try>) {
    && Scan(s, cap, g + f, 0, ts) && (forall t <- ts :: t.Rejected?)
    && FirstAt(g + f, s.sync, End(s, 0, ts), |g|)
  }

  lemma {:induction false} RejectedScan(s: Session, cap: nat, u: seq<byte>, p: nat, ts: seq<Try>)
    requires p <= |u| && Scan(s, cap, u, p, ts) && forall t <- ts :: t.Rejected?
    ensures p <= End(s, p, ts) <= |u| && Frames(s, cap, u[p..]) == Frames(s, cap, u[End(s, p, ts)..])
    decreases |ts|
  {
    hide Step, FirstAt, Judged;
    if ts != [] {
      assert ts[0] in ts;
      TryStep(s, cap, u, p, ts[0]);
      RejectedScan(s, cap, u, Onward(s, ts[0]), ts[1..]);
    }
  }

  lemma {:induction false} ScanStable(s: Session, cap: nat, u: seq<byte>, d: seq<byte>, p: nat, ts: seq<Try>)
    requires p <= |u| && Scan(s, cap, u, p, ts)
    ensures Scan(s, cap, u + d, p, ts)
    decreases |ts|
  {
    hide Judged, FirstAt;
    if ts != [] {
      TryStep(s, cap, u, p, ts[0]);
      FirstStable(u, d, s.sync, p, ts[0].at);
      JudgedStable(s, cap, u, d, ts[0]);
      ScanStable(s, cap, u, d, Onward(s, ts[0]), ts[1..]);
    }
  }

  lemma FirstStable(u: seq<byte>, d: seq<byte>, sync: seq<byte>, p: nat, i: nat)
    requires FirstAt(u, sync, p, i)
    ensures FirstAt(u + d, sync, p, i)
  {
    forall j: nat | j <= i ensures OccursAt(u + d, sync, j) <==> OccursAt(u, sync, j) {
      OccursInPart(u, d, sync, j);
    }
  }

  lemma JudgedStable(s: Session, cap: nat, u: seq<byte>, d: seq<byte>, t: Try)
    requires Judged(s, cap, u, t)
    ensures Judged(s, cap, u + d, t)
  {
    assert (u + d)[t.at..t.at + s.Header()] == u[t.at..t.at + s.Header()];
  }

  /** A well-formed frame is cut off whole behind garbage with any number of false patterns. */
  lemma FrameReached(s: Session, cap: nat, g: seq<byte>, f: seq<byte>, more: seq<byte>, ts: seq<Try>)
    requires WellFormed(s, cap, f) && Reaches(s, cap, g, f, ts)
    ensures Frames(s, cap, g + f + more) == Prepend([f], Frames(s, cap, more))
  {
    hide Scan, FirstAt, Frames;
    var u := g + f + more;
    assert u == (g + f) + more && u[0..] == u;
    ScanStable(s, cap, g + f, more, 0, ts);
    RejectedScan(s, cap, u, 0, ts);
    FirstStable(g + f, more, s.sync, End(s, 0, ts), |g|);
    var t := Taken(|g|, |f|);
    assert u[|g|..|g| + s.Header()] == f[..s.Header()];
    TryStep(s, cap, u, End(s, 0, ts), t);
    assert u[|g|..|g| + |f|] == f && u[|g| + |f|..] == more;
    FramesEmit(s, cap, u[End(s, 0, ts)..], f, more);
  }

  lemma FramesEmit(s: Session, cap: nat, u: seq<byte>, f: seq<byte>, rest: seq<byte>)
    requires Step(s, cap, u) == Emit(f, rest)
    ensures Frames(s, cap, u) == Prepend([f], Frames(s, cap, rest))
  {
    hide Step;
  }

  /** Resynchronisation: frames between stretches of garbage whose false patterns carry rejected lengths all come back. */
  lemma {:induction false} ResyncedFrames(
    s: Session, cap: nat, gs: seq<seq<byte>>, fs: seq<seq<byte>>, tss: seq<seq<Try>>, tail: seq<byte>)
    requires |gs| == |fs| == |tss|
    requires forall i :: 0 <= i < |fs| ==> WellFormed(s, cap, fs[i]) && Reaches(s, cap, gs[i], fs[i], tss[i])
    ensures Frames(s, cap, Interleave(gs, fs) + tail) == Prepend(fs, Frames(s, cap, tail))
    decreases |fs|
  {
    hide Frames, Reaches, WellFormed;
    if fs == [] {
      assert [] + tail == tail;
      PrependNone(Frames(s, cap, tail));
    } else {
      var more := Interleave(gs[1..], fs[1..]) + tail;
      assert Interleave(gs, fs) + tail == gs[0] + fs[0] + more;
      FrameReached(s, cap, gs[0], fs[0], more, tss[0]);
      ResyncedFrames(s, cap, gs[1..], fs[1..], tss[1..], tail);
      PrependOne(fs[0], fs[1..], Frames(s, cap, tail));
      assert [fs[0]] + fs[1..] == fs;
    }
  }
}
