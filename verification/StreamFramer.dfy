/** Cutting a byte stream into frames: sync search, length field, resynchronisation, size cap. */
module Framing {
  import opened Bits
  import opened Errors

  /** What the framer asks of a session: its sync bytes, header size and length rule. */
  datatype Session = Session(sync: seq<byte>, minHeader: nat, lengthOf: seq<byte> -> nat) {
    /** A header size of zero is clamped to one. */
    function Header(): (n: nat)
      ensures n > 0 && n >= minHeader && (n == minHeader || n == 1)
    {
      if minHeader == 0 then 1 else minHeader
    }
  }

  // -------------------------------------------------------------- sync search

  predicate OccursAt(u: seq<byte>, sync: seq<byte>, i: nat) {
    i + |sync| <= |u| && u[i..i + |sync|] == sync
  }

  /** The first occurrence at or after i. */
  function FindFrom(u: seq<byte>, sync: seq<byte>, i: nat): (r: Option<nat>)
    requires i <= |u|
    ensures r.Some? ==> i <= r.value && OccursAt(u, sync, r.value)
    ensures forall j :: i <= j && (r.Some? ==> j < r.value) ==> !OccursAt(u, sync, j)
    decreases |u| - i
  {
    if OccursAt(u, sync, i) then Some(i)
    else if i == |u| then None
    else FindFrom(u, sync, i + 1)
  }

  function Find(u: seq<byte>, sync: seq<byte>): (r: Option<nat>)
    ensures r.Some? ==> OccursAt(u, sync, r.value)
    ensures forall j: nat :: (r.Some? ==> j < r.value) ==> !OccursAt(u, sync, j)
  {
    FindFrom(u, sync, 0)
  }

  // ---------------------------------------------------- one round of the loop

  datatype Verdict =
    | Wait(keep: seq<byte>)
    | Skip(rest: seq<byte>)
    | Emit(frame: seq<byte>, rest: seq<byte>)

  /** One round on the unread bytes u, which start with the sync pattern if there is one. */
  function Inspect(s: Session, cap: nat, u: seq<byte>): (v: Verdict)
    requires s.sync <= u
    ensures v.Skip? ==> |v.rest| < |u|
    ensures v.Emit? ==> |v.rest| < |u|
  {
    if |u| < s.Header() then Wait(u)
    else
      var length := s.lengthOf(u[..s.Header()]);
      if length < s.Header() || length > cap then
        Skip(u[if s.sync == [] then 1 else |s.sync|..])
      else if |u| < length then Wait(u)
      else Emit(u[..length], u[length..])
  }

  function Step(s: Session, cap: nat, u: seq<byte>): (v: Verdict)
    ensures v.Skip? ==> |v.rest| < |u|
    ensures v.Emit? ==> |v.rest| < |u|
  {
    match Find(u, s.sync)
    case None => Wait(LastBytes(u, |s.sync| - 1))
    case Some(i) => Inspect(s, cap, u[i..])
  }

  /** At most the last n bytes. */
  function LastBytes(u: seq<byte>, n: int): seq<byte>
    requires n >= -1
  {
    if n >= 0 && |u| > n then u[|u| - n..] else u
  }

  datatype Cut = Cut(frames: seq<seq<byte>>, rest: seq<byte>)

  /** All frames in the unread bytes, and the bytes that stay unread. */
  function Frames(s: Session, cap: nat, u: seq<byte>): Cut
    decreases |u|
  {
    match Step(s, cap, u)
    case Wait(keep) => Cut([], keep)
    case Skip(rest) => Frames(s, cap, rest)
    case Emit(f, rest) => var c := Frames(s, cap, rest); Cut([f] + c.frames, c.rest)
  }

  // ----------------------------------------------------------------- the framer

  class StreamFramer {
    const session: Session
    var cap: nat
    var buffer: seq<byte>
    var offset: nat

    ghost predicate Valid()
      reads this
    {
      offset <= |buffer|
    }

    function Unread(): (u: seq<byte>)
      reads this
      requires Valid()
    {
      buffer[offset..]
    }

    constructor (session: Session, cap: nat)
      ensures Valid() && Unread() == [] && this.session == session && this.cap == cap
    {
      this.session, this.cap, buffer, offset := session, cap, [], 0;
    }

    method SetMaxBufferSize(n: nat)
      requires Valid()
      modifies this`cap
      ensures cap == n
    {
      cap := n;
    }

    method Reset()
      modifies this`buffer, this`offset
      ensures Valid() && Unread() == [] && buffer == []
    {
      buffer, offset := [], 0;
    }

    function BufferedBytes(): (n: nat)
      reads this
      ensures Valid() ==> n == |Unread()|
    {
      if offset <= |buffer| then |buffer| - offset else 0
    }

    /** Drop the bytes already read: invisible in the unread bytes. */
    method Compact()
      requires Valid()
      modifies this`buffer, this`offset
      ensures Valid() && offset == 0 && buffer == old(Unread()) == Unread()
    {
      buffer := buffer[offset..];
      offset := 0;
    }

    /** Overflow depends on the unread bytes alone, and so do the frames and what stays unread. */
    method PushData(data: seq<byte>) returns (r: Result<seq<seq<byte>>>)
      requires Valid()
      modifies this`buffer, this`offset
      ensures Valid() && |buffer| <= cap
      ensures r.Err? <==> |old(Unread())| + |data| > cap
      ensures r.Err? ==> r.error == BufferOverrun && buffer == []
      ensures r.Ok? ==> Frames(session, cap, old(Unread()) + data) == Cut(r.value, Unread())
    {
      hide Frames;
      if |buffer| + |data| > cap {
        if offset > 0 {
          Compact();
        }
        if |buffer| + |data| > cap {
          Reset();
          return Err(BufferOverrun);
        }
      }
      ghost var start := Unread() + data;
      buffer := buffer + data;
      assert Unread() == start;
      var frames := TakeFrames();
      ghost var kept := Unread();
      if offset > 0 && (offset > |buffer| / 2 || frames != []) {
        Compact();
      }
      assert Unread() == kept;
      return Ok(frames);
    }

    /** The extraction loop. */
    method TakeFrames() returns (frames: seq<seq<byte>>)
      requires Valid()
      modifies this`offset
      ensures Valid()
      ensures Frames(session, cap, old(Unread())) == Cut(frames, Unread())
    {
      hide Step;
      frames := [];
      var more := true;
      while more
        invariant Valid()
        invariant more ==>
                    Frames(session, cap, old(Unread())) == Prepend(frames, Frames(session, cap, Unread()))
        invariant !more ==> Frames(session, cap, old(Unread())) == Cut(frames, Unread())
        decreases more, |buffer| - offset
      {
        ghost var v := Step(session, cap, Unread());
        var frame: Option<seq<byte>>;
        more, frame := Round();
        if frame.Some? {
          PrependStep(frames, frame.value, Frames(session, cap, Unread()));
          frames := frames + [frame.value];
        }
      }
    }

    /** One round of the loop: whether to go on, and the frame it cut off, if any. */
    method Round() returns (more: bool, frame: Option<seq<byte>>)
      requires Valid()
      modifies this`offset
      ensures Valid()
      ensures !more ==> frame.None?
      ensures Step(session, cap, old(Unread())) ==
                if !more then Wait(Unread())
                else if frame.None? then Skip(Unread())
                else Emit(frame.value, Unread())
    {
      hide Find;
      var sync := session.sync;
      if sync != [] {
        match Find(buffer[offset..], sync) {
          case None =>
            if |buffer| - offset > |sync| - 1 {
              offset := |buffer| - (|sync| - 1);
            }
            return false, None;
          case Some(i) =>
            offset := offset + i;
        }
      }
      assert sync == [] ==> Unread() == old(Unread());
      SyncedRound(session, cap, old(Unread()), Unread());
      more, frame := Header();
    }

    /** The part of a round after the sync pattern. */
    method Header() returns (more: bool, frame: Option<seq<byte>>)
      requires Valid() && session.sync <= Unread()
      modifies this`offset
      ensures Valid()
      ensures !more ==> frame.None?
      ensures Inspect(session, cap, old(Unread())) ==
                if !more then Wait(Unread())
                else if frame.None? then Skip(Unread())
                else Emit(frame.value, Unread())
    {
      ghost var u := Unread();
      var sync, minHeader := session.sync, session.Header();
      if |buffer| - offset < minHeader { return false, None; }
      assert u[..minHeader] == buffer[offset..offset + minHeader];
      var length := session.lengthOf(buffer[offset..offset + minHeader]);
      if 0 < length < minHeader || length > cap || length == 0 {
        if sync != [] {
          offset := offset + |sync|;
        } else {
          offset := offset + 1;
        }
        return true, None;
      }
      if |buffer| - offset < length { return false, None; }
      frame := Some(buffer[offset..offset + length]);
      assert frame.value == u[..length];
      offset := offset + length;
      return true, frame;
    }
  }

  ghost function Prepend(fs: seq<seq<byte>>, c: Cut): Cut {
    Cut(fs + c.frames, c.rest)
  }

  lemma PrependStep(fs: seq<seq<byte>>, f: seq<byte>, c: Cut)
    ensures Prepend(fs, Cut([f] + c.frames, c.rest)) == Prepend(fs + [f], c)
  {
    assert fs + ([f] + c.frames) == (fs + [f]) + c.frames;
  }

  /** Once the unread bytes start at the sync pattern, the round is decided by Inspect. */
  lemma SyncedRound(s: Session, cap: nat, round: seq<byte>, u: seq<byte>)
    requires if s.sync == [] then u == round
             else Find(round, s.sync).Some? && u == round[Find(round, s.sync).value..]
    ensures s.sync <= u && Step(s, cap, round) == Inspect(s, cap, u)
  {
    if s.sync == [] {
      assert OccursAt(round, s.sync, 0);
      assert round[0..] == round;
    }
  }
}
