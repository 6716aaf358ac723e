/** Decoding generated frames, and the laws that tie encoder, length rule, framer and decoder together. */
module FrameDecode {
  import opened Bits
  import opened Decimal
  import opened Endian
  import opened Errors
  import opened BitReading
  import BitWriting
  import opened FrameCodec
  import opened Framing
  import opened FramingLaws
  import opened Passthrough

  /** Every decoded body takes at least one byte and no more than there are. */
  ghost predicate Lawful<M>(codec: Codec<M>) {
    forall id: nat, bytes: seq<byte> ::
      codec.dec(id, bytes).Ok? ==> 0 < codec.dec(id, bytes).value.1 <= |bytes|
  }

  /** The body decoder for id undoes the encoder on m, whatever follows. */
  ghost predicate Inverts<M>(codec: Codec<M>, id: nat, m: M) {
    forall rest: seq<byte> {:trigger codec.dec(id, codec.enc(m) + rest)} ::
      codec.dec(id, codec.enc(m) + rest) == Ok((m, |codec.enc(m)|))
  }

  // ------------------------------------------------------------- specification

  function TakeFields(data: seq<byte>, at: nat, defs: seq<FieldDef>): (r: Result<seq<nat>>)
    ensures r.Ok? ==> |r.value| == |defs|
    decreases |defs|
  {
    if defs == [] then Ok([])
    else if at + defs[0].width > |data| then Err(BufferUnderrun)
    else
      var v := UintValue(data[at..at + defs[0].width], defs[0].order);
      match TakeFields(data, at + defs[0].width, defs[1..])
      case Err(e) => Err(e)
      case Ok(vs) => Ok([v] + vs)
  }

  /** The value read into the length field. */
  function LengthValue(defs: seq<FieldDef>, values: seq<nat>): nat
    requires Lengths(defs) > 0 && |values| == |defs|
  {
    if defs[0].role.Length? then values[0] else LengthValue(defs[1..], values[1..])
  }

  function TakeBodies<M>(codec: Codec<M>, id: nat, bytes: seq<byte>): Result<seq<M>>
    requires Lawful(codec)
    decreases |bytes|
  {
    if bytes == [] then Ok([])
    else match codec.dec(id, bytes)
      case Err(e) => Err(e)
      case Ok((m, n)) =>
        match TakeBodies(codec, id, bytes[n..])
        case Err(e) => Err(e)
        case Ok(ms) => Ok([m] + ms)
  }

  /** Decoding at byte position at: header, then the bytes the length leaves for bodies, then footer. */
  function TakeFrame<M>(s: Schema, codec: Codec<M>, data: seq<byte>, at: nat): Result<Frame<M>>
    requires ValidSchema(s) && Lawful(codec)
  {
    match TakeFields(data, at, s.header)
    case Err(e) => Err(e)
    case Ok(header) =>
      var total, overhead := LengthValue(s.header, header), Width(s.header) + Width(s.footer);
      var from := at + Width(s.header);
      if total < overhead || from + (total - overhead) > |data| then Err(BufferUnderrun)
      else
        var to := from + (total - overhead);
        match TakeBodies(codec, header[s.id], data[from..to])
        case Err(e) => Err(e)
        case Ok(bodies) =>
          match TakeFields(data, to, s.footer)
          case Err(e) => Err(e)
          case Ok(footer) => Ok(Frame(header, bodies, footer))
  }

  // ------------------------------------------------------------------ decoding

  method ReadFields(r: BitReader, defs: seq<FieldDef>) returns (values: Result<seq<nat>>)
    requires r.Valid() && r.bitPos == 0 && ValidFields(defs)
    modifies r
    ensures r.Valid() && r.bitPos == 0
    ensures values == TakeFields(r.data, old(r.bytePos), defs)
    ensures values.Ok? ==> r.bytePos == old(r.bytePos) + Width(defs)
  {
    hide UintValue, TakeFields, Width, TakeUint;
    var vs: seq<nat> := [];
    var i := 0;
    assert defs[0..] == defs;
    BeforeNone(TakeFields(r.data, r.bytePos, defs));
    while i < |defs|
      invariant 0 <= i <= |defs| && r.Valid() && r.bitPos == 0
      invariant r.bytePos + Width(defs[i..]) == old(r.bytePos) + Width(defs)
      invariant TakeFields(r.data, old(r.bytePos), defs) ==
                Before(vs, TakeFields(r.data, r.bytePos, defs[i..]))
    {
      FieldsStep(r.data, r.bytePos, defs, i);
      AlignedUint(r.data, r.bytePos, defs[i].width, defs[i].order);
      var v := r.ReadUint(defs[i].width, defs[i].order);
      if v.Err? { return Err(v.error); }
      BeforeOne(vs, v.value, TakeFields(r.data, r.bytePos, defs[i + 1..]));
      vs := vs + [v.value];
      i := i + 1;
    }
    assert defs[i..] == [] && vs + [] == vs;
    NoneTaken(r.data, r.bytePos);
    return Ok(vs);
  }

  lemma NoneTaken(data: seq<byte>, at: nat)
    ensures TakeFields(data, at, []) == Ok([]) && Width([]) == 0
  {
  }

  lemma FieldsStep(data: seq<byte>, at: nat, defs: seq<FieldDef>, i: nat)
    requires i < |defs|
    ensures Width(defs[i..]) == defs[i].width + Width(defs[i + 1..])
    ensures TakeFields(data, at, defs[i..]) ==
            if at + defs[i].width > |data| then Err(BufferUnderrun)
            else
              var v := UintValue(data[at..at + defs[i].width], defs[i].order);
              match TakeFields(data, at + defs[i].width, defs[i + 1..])
              case Err(e) => Err(e)
              case Ok(vs) => Ok([v] + vs)
  {
    assert defs[i..][0] == defs[i] && defs[i..][1..] == defs[i + 1..];
  }

  lemma AlignedUint(data: seq<byte>, at: nat, n: nat, order: Order)
    requires at <= |data| && n > 0
    ensures TakeUint(data, 8 * at, n, order) ==
            if at + n > |data| then Err(BufferUnderrun) else Ok(UintValue(data[at..at + n], order))
  {
    hide UintValue;
    assert (8 * at + 7) / 8 == at;
  }

  ghost function Before<T>(vs: seq<T>, r: Result<seq<T>>): Result<seq<T>> {
    if r.Err? then r else Ok(vs + r.value)
  }

  lemma BeforeNone<T>(r: Result<seq<T>>)
    ensures Before([], r) == r
  {
    if r.Ok? { assert [] + r.value == r.value; }
  }

  lemma BeforeOne<T>(vs: seq<T>, v: T, r: Result<seq<T>>)
    ensures r.Ok? ==> Before(vs, Ok([v] + r.value)) == Before(vs + [v], r)
  {
    if r.Ok? { assert vs + ([v] + r.value) == (vs + [v]) + r.value; }
  }

  /** Decode bodies until the bounded reader has no whole byte left. */
  method ReadBodies<M>(r: BitReader, codec: Codec<M>, id: nat) returns (bodies: Result<seq<M>>)
    requires r.Valid() && r.bitPos == 0 && Lawful(codec)
    modifies r
    ensures bodies == TakeBodies(codec, id, r.data[old(r.bytePos)..])
  {
    var ms: seq<M> := [];
    BeforeNone(TakeBodies(codec, id, r.data[r.bytePos..]));
    while r.RemainingBytes() > 0
      invariant r.Valid() && r.bitPos == 0
      invariant TakeBodies(codec, id, r.data[old(r.bytePos)..]) ==
                Before(ms, TakeBodies(codec, id, r.data[r.bytePos..]))
      decreases |r.data| - r.bytePos
    {
      var left := r.data[r.bytePos..];
      var next := codec.dec(id, left);
      if next.Err? { return Err(next.error); }
      var (m, n) := next.value;
      assert left[n..] == r.data[r.bytePos + n..];
      BeforeOne(ms, m, TakeBodies(codec, id, left[n..]));
      r.bytePos := r.bytePos + n;
      ms := ms + [m];
    }
    assert r.data[r.bytePos..] == [] && ms + [] == ms;
    return Ok(ms);
  }

  /** The payload size as the emitted code computes it. */
  function PayloadSize(total: nat, overhead: nat): (n: nat)
    ensures n < TWO_64
  {
    (total - overhead) % TWO_64
  }

  /** A length below the overhead that still passes the bound test. */
  predicate Strays(s: Schema, data: seq<byte>, at: nat)
    requires ValidSchema(s)
  {
    match TakeFields(data, at, s.header)
    case Err(_) => false
    case Ok(header) =>
      var total := LengthValue(s.header, header);
      total < Width(s.header) + Width(s.footer) && at + total >= Width(s.footer)
  }

  const HALF: nat := 0x8000_0000_0000_0000

  /** With less than 2^63 bytes: when the payload window is refused, and when it lies inside. */
  lemma PayloadWindow(size: nat, pos: nat, total: nat, overhead: nat)
    requires pos <= size < HALF && overhead < HALF && total < HALF
    ensures var n := PayloadSize(total, overhead);
      && (!Refuses(size, pos, n) ==> (pos + n <= size <==> total >= overhead))
      && (total >= overhead ==> n == total - overhead && (Refuses(size, pos, n) <==> pos + (total - overhead) > size))
      && (total < overhead ==> (Refuses(size, pos, n) <==> pos + total < overhead))
  {
    var n := PayloadSize(total, overhead);
    if total >= overhead {
      assert n == total - overhead;
    } else {
      assert n == total - overhead + TWO_64;
      if pos + total >= overhead {
        assert (pos + n) % TWO_64 == pos + total - overhead;
      }
    }
  }

  /** The payload window of a readable header lies inside the buffer exactly when the length covers header and footer. */
  lemma PayloadInsideIff(s: Schema, data: seq<byte>, at: nat)
    requires ValidSchema(s) && TakeFields(data, at, s.header).Ok? && at + Width(s.header) <= |data| < HALF
    requires Width(s.header) + Width(s.footer) < HALF && LengthValue(s.header, TakeFields(data, at, s.header).value) < HALF
    ensures var total := LengthValue(s.header, TakeFields(data, at, s.header).value);
      var overhead := Width(s.header) + Width(s.footer);
      var pos, n := at + Width(s.header), PayloadSize(total, overhead);
      && (!Refuses(|data|, pos, n) ==> (pos + n <= |data| <==> total >= overhead))
      && (Strays(s, data, at) <==> !Refuses(|data|, pos, n) && pos + n > |data|)
  {
    hide TakeFields, LengthValue, Width;
    PayloadWindow(|data|, at + Width(s.header), LengthValue(s.header, TakeFields(data, at, s.header).value),
                  Width(s.header) + Width(s.footer));
  }

  /** Nothing is returned where the emitted code would go on with a window outside its buffer. */
  method Decode<M>(r: BitReader, s: Schema, codec: Codec<M>) returns (f: Option<Result<Frame<M>>>)
    requires r.Valid() && r.bitPos == 0 && ValidSchema(s) && Lawful(codec)
    requires |r.data| < HALF && Width(s.header) + Width(s.footer) < HALF
    modifies r
    ensures f.None? <==> Strays(s, r.data, old(r.bytePos))
    ensures f.Some? ==> r.Valid() && f.value == TakeFrame(s, codec, r.data, old(r.bytePos))
    ensures f.Some? && f.value.Ok? ==> r.bytePos == old(r.bytePos) + LengthValue(s.header, f.value.value.header)
  {
    hide TakeFields, TakeBodies, Width, LengthValue, PayloadSize, Refuses;
    var header := ReadFields(r, s.header);
    if header.Err? { return Some(Err(header.error)); }
    var total, overhead := LengthValue(s.header, header.value), Width(s.header) + Width(s.footer);
    LengthIsSmall(r.data, r.bytePos - Width(s.header), s.header);
    PayloadWindow(|r.data|, r.bytePos, total, overhead);
    var outcome, window := r.SubReader(PayloadSize(total, overhead));
    match outcome
    case Refused => return Some(Err(BufferUnderrun));
    case Stray => return None;
    case Inside =>
      var bodies := ReadBodies(window, codec, header.value[s.id]);
      if bodies.Err? { return Some(Err(bodies.error)); }
      var footer := ReadFields(r, s.footer);
      if footer.Err? { return Some(Err(footer.error)); }
      return Some(Ok(Frame(header.value, bodies.value, footer.value)));
  }

  /** Header of four bytes, footer of two, and a length of four: the framer accepts it, the payload window leads outside. */
  lemma StrayWindow(s: Schema, data: seq<byte>)
    requires s == Schema([FieldDef(Length, 2, Big), FieldDef(Free, 2, Big)], [FieldDef(Free, 2, Big)], 1)
    requires data == [0, 4, 0, 0]
    ensures ValidSchema(s) && Width(s.header) == 4 && Width(s.footer) == 2
    ensures Strays(s, data, 0) && PayloadSize(4, 6) == TWO_64 - 2 && !Refuses(4, 4, TWO_64 - 2)
    ensures GeneratedLength(FrameConfig([], 4, 0, 16, Big), data) == |data|
  {
    hide UintValue;
    var h := s.header;
    assert h[1..] == [h[1]] && h[1..][1..] == [] && s.footer[1..] == [];
    FourInTwoBytes(data[0..2], 4, 8);
    var rest := TakeFields(data, 2, h[1..]);
    assert rest.Ok?;
    assert TakeFields(data, 0, h) == Ok([4] + rest.value);
    assert LengthValue(h, [4] + rest.value) == 4;
  }

  lemma FourInTwoBytes(bytes: seq<byte>, v: nat, k: nat)
    requires bytes == [0, v] && v == 4 && k == 8
    ensures UintValue(bytes, Big) == v
  {
    hide UintValue, Shr, Low, Pow2;
    ShiftMeaning(v, k);
    ShiftMeaning(v, 0);
    ShiftMeaning(v, 2 * k);
    Pow2Known(0);
    Pow2Known(k);
    Pow2Known(2 * k);
    assert UintBytes(v, 2, Big) == [ByteAt(v, 1), ByteAt(v, 0)] == bytes;
    UintRoundTrip(v, 2, Big);
  }

  /** A length field has at most four bytes. */
  lemma {:induction false} LengthIsSmall(data: seq<byte>, at: nat, defs: seq<FieldDef>)
    requires ValidFields(defs) && Lengths(defs) > 0 && TakeFields(data, at, defs).Ok?
    ensures LengthValue(defs, TakeFields(data, at, defs).value) < 0x1_0000_0000
    decreases |defs|
  {
    hide UintValue;
    var f := defs[0];
    assert ValidField(f);
    if f.role.Length? {
      Pow2Mono(8 * f.width, 32);
      Pow2Known(32);
    } else {
      LengthIsSmall(data, at + f.width, defs[1..]);
    }
  }

  // ---------------------------------------------------------------- round trip

  /** The values as they come back: the length field holds the total, constants their constant. */
  function Stamped(defs: seq<FieldDef>, values: seq<nat>, total: nat): (r: seq<nat>)
    requires |values| == |defs|
    ensures |r| == |defs|
    ensures forall i :: 0 <= i < |defs| ==> r[i] == Low(FieldValue(defs[i], values[i], total), 8 * defs[i].width)
  {
    seq(|defs|, i requires 0 <= i < |defs| => Low(FieldValue(defs[i], values[i], total), 8 * defs[i].width))
  }

  lemma {:induction false} FieldsReadBack(
    pre: seq<byte>, defs: seq<FieldDef>, values: seq<nat>, total: nat, post: seq<byte>)
    requires |values| == |defs|
    ensures TakeFields(pre + FieldsBytes(defs, values, total) + post, |pre|, defs)
         == Ok(Stamped(defs, values, total))
    decreases |defs|
  {
    hide UintBytes, UintValue, Low;
    if defs != [] {
      var f := defs[0];
      var bs := UintBytes(FieldValue(f, values[0], total), f.width, f.order);
      var rest := FieldsBytes(defs[1..], values[1..], total);
      var data := pre + FieldsBytes(defs, values, total) + post;
      assert data == (pre + bs) + rest + post;
      assert data[|pre|..|pre| + f.width] == bs;
      UintRoundTrip(FieldValue(f, values[0], total), f.width, f.order);
      FieldsReadBack(pre + bs, defs[1..], values[1..], total, post);
      assert Stamped(defs, values, total)
          == [Low(FieldValue(f, values[0], total), 8 * f.width)] + Stamped(defs[1..], values[1..], total);
    }
  }

  lemma {:induction false} BodiesReadBack<M>(codec: Codec<M>, id: nat, bodies: seq<M>)
    requires Lawful(codec) && forall i :: 0 <= i < |bodies| ==> Inverts(codec, id, bodies[i])
    ensures TakeBodies(codec, id, BodiesBytes(codec, bodies)) == Ok(bodies)
    decreases |bodies|
  {
    if bodies != [] {
      var bs, rest := codec.enc(bodies[0]), BodiesBytes(codec, bodies[1..]);
      assert codec.dec(id, bs + rest) == Ok((bodies[0], |bs|));
      assert (bs + rest)[|bs|..] == rest;
      BodiesReadBack(codec, id, bodies[1..]);
      assert [bodies[0]] + bodies[1..] == bodies;
    }
  }

  lemma {:induction false} LengthStamped(defs: seq<FieldDef>, values: seq<nat>, total: nat)
    requires Lengths(defs) > 0 && |values| == |defs|
    ensures LengthValue(defs, Stamped(defs, values, total)) == Low(total, 8 * LengthField(defs).width)
    decreases |defs|
  {
    var st := Stamped(defs, values, total);
    if !defs[0].role.Length? {
      assert st[1..] == Stamped(defs[1..], values[1..], total);
      LengthStamped(defs[1..], values[1..], total);
    }
  }

  /** The total fits the length field, so that the cast in the back-patch loses nothing. */
  predicate LengthFits<M>(s: Schema, codec: Codec<M>, f: Frame<M>)
    requires ValidSchema(s)
  {
    Total(s, codec, f) < Pow2(8 * LengthField(s.header).width)
  }

  /** The frame as decoded: header and footer stamped, bodies unchanged. */
  function Decoded<M>(s: Schema, codec: Codec<M>, f: Frame<M>): Frame<M>
    requires Matches(s, f)
  {
    Frame(Stamped(s.header, f.header, Total(s, codec, f)), f.bodies, Stamped(s.footer, f.footer, 0))
  }

  /** Member fields come back as they were set. */
  lemma FreeFieldsKept<M>(s: Schema, codec: Codec<M>, f: Frame<M>, i: nat)
    requires Matches(s, f) && i < |s.header| && s.header[i].role.Free?
    ensures Decoded(s, codec, f).header[i] == f.header[i]
  {
    LowOfSmall(f.header[i], 8 * s.header[i].width);
  }

  /** Round trip of one frame anywhere in a buffer. */
  lemma FrameRoundTrip<M>(s: Schema, codec: Codec<M>, f: Frame<M>, pre: seq<byte>, post: seq<byte>)
    requires ValidSchema(s) && Matches(s, f) && Lawful(codec) && LengthFits(s, codec, f)
    requires forall i :: 0 <= i < |f.bodies| ==> Inverts(codec, f.header[s.id], f.bodies[i])
    ensures TakeFrame(s, codec, pre + FrameBytes(s, codec, f) + post, |pre|) == Ok(Decoded(s, codec, f))
  {
    hide TakeFields, TakeBodies, FieldsBytes, BodiesBytes, LengthValue, Stamped, Width, LengthField, Low, TakeFrame;
    var t := Total(s, codec, f);
    var h, b, l := FieldsBytes(s.header, f.header, t), BodiesBytes(codec, f.bodies), FieldsBytes(s.footer, f.footer, 0);
    var data := pre + FrameBytes(s, codec, f) + post;
    assert FrameBytes(s, codec, f) == h + b + l;
    InParts(pre, h, b, l, post);
    FieldsReadBack(pre, s.header, f.header, t, b + l + post);
    LengthStamped(s.header, f.header, t);
    LowOfSmall(t, 8 * LengthField(s.header).width);
    FreeFieldsKept(s, codec, f, s.id);
    BodiesReadBack(codec, f.header[s.id], f.bodies);
    FieldsReadBack(pre + h + b, s.footer, f.footer, 0, post);
    TakenInParts(s, codec, data, |pre|, Decoded(s, codec, f), b);
  }

  lemma InParts(pre: seq<byte>, h: seq<byte>, b: seq<byte>, l: seq<byte>, post: seq<byte>)
    ensures var data := pre + (h + b + l) + post;
      && data == pre + h + (b + l + post)
      && data == (pre + h + b) + l + post
      && data[|pre| + |h|..|pre| + |h| + |b|] == b
  {
  }

  /** A frame is decoded when its three parts are read where the length puts them. */
  lemma TakenInParts<M>(s: Schema, codec: Codec<M>, data: seq<byte>, at: nat, f: Frame<M>, b: seq<byte>)
    requires ValidSchema(s) && Lawful(codec) && |f.header| == |s.header|
    requires TakeFields(data, at, s.header) == Ok(f.header)
    requires LengthValue(s.header, f.header) == Width(s.header) + |b| + Width(s.footer)
    requires var from := at + Width(s.header); from + |b| <= |data| && data[from..from + |b|] == b
    requires TakeBodies(codec, f.header[s.id], b) == Ok(f.bodies)
    requires TakeFields(data, at + Width(s.header) + |b|, s.footer) == Ok(f.footer)
    ensures TakeFrame(s, codec, data, at) == Ok(f)
  {
    hide TakeFields, TakeBodies, LengthValue, Width, Lawful, ValidFields, Lengths;
    var from := at + Width(s.header);
    assert from + (LengthValue(s.header, f.header) - (Width(s.header) + Width(s.footer))) == from + |b|;
  }

  /** Writer, encoder, reader and decoder in a row. */
  method EncodeThenDecode<M>(s: Schema, codec: Codec<M>, f: Frame<M>) returns (r: Option<Result<Frame<M>>>)
    requires ValidSchema(s) && Matches(s, f) && Lawful(codec) && LengthFits(s, codec, f)
    requires forall i :: 0 <= i < |f.bodies| ==> Inverts(codec, f.header[s.id], f.bodies[i])
    ensures r == Some(Ok(Decoded(s, codec, f)))
  {
    hide TakeFrame, FrameBytes, Decoded, Width, Lawful, BitWriting.Holds, Matches;
    var w := new BitWriting.BitWriter();
    var ok := FrameCodec.Encode(w, s, codec, f);
    var bytes := w.Finish();
    assert bytes.value == FrameBytes(s, codec, f);
    TotalIsSmall(s, codec, f);
    FrameRoundTrip(s, codec, f, [], []);
    assert [] + bytes.value + [] == bytes.value;
    TakenIsInside(s, codec, bytes.value, 0);
    var reader := new BitReader(bytes.value);
    r := Decode(reader, s, codec);
  }

  lemma TotalIsSmall<M>(s: Schema, codec: Codec<M>, f: Frame<M>)
    requires ValidSchema(s) && LengthFits(s, codec, f)
    ensures Total(s, codec, f) < 0x1_0000_0000
    ensures Width(s.header) + Width(s.footer) <= Total(s, codec, f)
  {
    hide Width, BodiesBytes;
    var lf := LengthField(s.header);
    assert ValidField(lf);
    Pow2Mono(8 * lf.width, 32);
    Pow2Known(32);
  }

  lemma TakenIsInside<M>(s: Schema, codec: Codec<M>, data: seq<byte>, at: nat)
    requires ValidSchema(s) && Lawful(codec) && TakeFrame(s, codec, data, at).Ok?
    ensures !Strays(s, data, at)
  {
    hide TakeFields, TakeBodies, LengthValue, Width;
  }

  // -------------------------------------------------------------- length rule

  /** The session the generator derives from the schema, given its sync bytes. */
  function SessionConfig(s: Schema, sync: seq<byte>): FrameConfig
    requires ValidSchema(s)
  {
    FrameConfig(sync, Width(s.header), 8 * LengthOffset(s.header), 8 * LengthField(s.header).width,
                LengthField(s.header).order)
  }

  /** The length field's bytes, where the session looks for them. */
  lemma {:induction false} LengthBytes(defs: seq<FieldDef>, values: seq<nat>, t: nat)
    requires |values| == |defs| && Lengths(defs) > 0
    ensures var f, at := LengthField(defs), LengthOffset(defs);
      at + f.width <= Width(defs) && FieldsBytes(defs, values, t)[at..at + f.width] == UintBytes(t, f.width, f.order)
    decreases |defs|
  {
    hide UintBytes;
    if !defs[0].role.Length? {
      LengthBytes(defs[1..], values[1..], t);
    }
  }

  /** The session reads the encoded size back modulo 2^width, so exactly the sizes that fit are right. */
  lemma LengthRule<M>(s: Schema, codec: Codec<M>, f: Frame<M>, sync: seq<byte>)
    requires ValidSchema(s) && Matches(s, f)
    ensures var bs := FrameBytes(s, codec, f);
      && GeneratedLength(SessionConfig(s, sync), bs[..Width(s.header)]) == Low(|bs|, 8 * LengthField(s.header).width)
      && (GeneratedLength(SessionConfig(s, sync), bs[..Width(s.header)]) == |bs| <==> LengthFits(s, codec, f))
  {
    hide FieldsBytes, BodiesBytes, UintBytes, UintValue, Low, LengthField, LengthOffset, Width, Lengths, GeneratedLength;
    var t, lf := Total(s, codec, f), LengthField(s.header);
    var bs := FrameBytes(s, codec, f);
    assert bs[..Width(s.header)] == FieldsBytes(s.header, f.header, t);
    LengthBytes(s.header, f.header, t);
    GeneratedAt(SessionConfig(s, sync), FieldsBytes(s.header, f.header, t), LengthOffset(s.header), lf.width);
    UintRoundTrip(t, lf.width, lf.order);
    if LengthFits(s, codec, f) {
      LowOfSmall(t, 8 * lf.width);
    }
  }

  /** The generated rule on a full header with an aligned length field. */
  lemma GeneratedAt(c: FrameConfig, header: seq<byte>, at: nat, width: nat)
    requires c.skipBits == 8 * at && c.fieldBits == 8 * width && width in {1, 2, 4}
    requires c.minHeader <= |header| && at + width <= |header|
    ensures GeneratedLength(c, header) == UintValue(header[at..at + width], c.order)
  {
    hide UintValue;
    assert (c.skipBits + 7) / 8 == at && ReadWidth(c.fieldBits) == width;
  }

  // --------------------------------------------------------------- end to end

  /** The sync bytes the session analyzer collects: of every constant header field it could parse, in order. */
  function SyncBytes(defs: seq<FieldDef>): seq<byte> {
    if defs == [] then []
    else CollectedBytes(defs[0]) + SyncBytes(defs[1..])
  }

  function CollectedBytes(f: FieldDef): seq<byte> {
    if f.role.Constant? && f.role.collected.Some? then
      UintBytes(ToU64(f.role.collected.value.literal), f.role.collected.value.width, f.order)
    else []
  }

  /** The bytes of the constant fields a header starts with. */
  function LeadBytes(defs: seq<FieldDef>): seq<byte> {
    if defs == [] || !defs[0].role.Constant? then []
    else UintBytes(defs[0].role.value, defs[0].width, defs[0].order) + LeadBytes(defs[1..])
  }

  predicate SyncFits(defs: seq<FieldDef>) {
    SyncBytes(defs) <= LeadBytes(defs)
  }

  lemma {:induction false} LeadIsPrefix(defs: seq<FieldDef>, values: seq<nat>, t: nat)
    requires |values| == |defs|
    ensures LeadBytes(defs) <= FieldsBytes(defs, values, t)
    decreases |defs|
  {
    hide UintBytes;
    if defs != [] && defs[0].role.Constant? {
      LeadIsPrefix(defs[1..], values[1..], t);
    }
  }

  function ToGenerated(c: FrameConfig): Session {
    Session(c.sync, c.minHeader, header => GeneratedLength(c, header))
  }

  /** Without a length field the frames are the headers: the size of one, with the sync pattern in front. */
  lemma HeadersAreFrames(c: FrameConfig, cap: nat, f: seq<byte>)
    requires c.fieldBits == 0
    ensures var s := ToGenerated(c);
      WellFormed(s, cap, f) <==> c.sync <= f && |f| == s.Header() <= cap
  {
    if |f| >= ToGenerated(c).Header() {
      assert |f[..ToGenerated(c).Header()]| == ToGenerated(c).Header();
    }
  }

  /** Every encoded frame that fits is one the framer accepts. */
  lemma EncodedIsWellFormed<M>(s: Schema, codec: Codec<M>, f: Frame<M>, cap: nat)
    requires ValidSchema(s) && Matches(s, f) && SyncFits(s.header)
    requires LengthFits(s, codec, f) && Total(s, codec, f) <= cap
    ensures WellFormed(ToGenerated(SessionConfig(s, SyncBytes(s.header))), cap, FrameBytes(s, codec, f))
  {
    hide FieldsBytes, BodiesBytes, SyncBytes, LeadBytes, GeneratedLength, LengthField, LengthOffset, Width, ValidFields;
    hide Lengths;
    var h, total := FieldsBytes(s.header, f.header, Total(s, codec, f)), Total(s, codec, f);
    LeadIsPrefix(s.header, f.header, total);
    assert h <= FrameBytes(s, codec, f);
    LengthRule(s, codec, f, SyncBytes(s.header));
    WidthPositive(s.header);
  }

  lemma WidthPositive(defs: seq<FieldDef>)
    requires defs != [] && ValidFields(defs)
    ensures Width(defs) > 0
  {
  }

  function AllBytes<M>(s: Schema, codec: Codec<M>, fs: seq<Frame<M>>): (bss: seq<seq<byte>>)
    requires forall i :: 0 <= i < |fs| ==> Matches(s, fs[i])
    ensures |bss| == |fs| && forall i :: 0 <= i < |fs| ==> bss[i] == FrameBytes(s, codec, fs[i])
  {
    seq(|fs|, i requires 0 <= i < |fs| => FrameBytes(s, codec, fs[i]))
  }

  ghost predicate Sendable<M>(s: Schema, codec: Codec<M>, f: Frame<M>, cap: nat)
    requires ValidSchema(s)
  {
    && Matches(s, f) && LengthFits(s, codec, f) && Total(s, codec, f) <= cap
    && forall i :: 0 <= i < |f.bodies| ==> Inverts(codec, f.header[s.id], f.bodies[i])
  }

  /**
    From sender to receiver: frames encoded one after another, pushed into the framer in any
    chunks that do not overflow, are cut at exactly the frame boundaries, and each piece decodes
    to the frame it came from.
   */
  lemma FramesEndToEnd<M>(s: Schema, codec: Codec<M>, fs: seq<Frame<M>>, cap: nat, chunks: seq<seq<byte>>)
    requires ValidSchema(s) && SyncFits(s.header) && Lawful(codec)
    requires forall i :: 0 <= i < |fs| ==> Matches(s, fs[i]) && Sendable(s, codec, fs[i], cap)
    requires Concat(chunks) == Concat(AllBytes(s, codec, fs))
    requires Run(ToGenerated(SessionConfig(s, SyncBytes(s.header))), cap, [], chunks).Some?
    ensures var run := Run(ToGenerated(SessionConfig(s, SyncBytes(s.header))), cap, [], chunks).value;
      && |run.frames| == |fs| && run.rest == []
      && forall i :: 0 <= i < |fs| ==>
           TakeFrame(s, codec, run.frames[i], 0) == Ok(Decoded(s, codec, fs[i]))
  {
    hide TakeFrame, FrameBytes, Framing.Frames, SyncBytes, Decoded, Sendable, ToGenerated, ValidSchema, SyncFits;
    hide WellFormed, Matches, Lawful, SessionConfig;
    var session := ToGenerated(SessionConfig(s, SyncBytes(s.header)));
    var bss := AllBytes(s, codec, fs);
    forall i | 0 <= i < |fs|
      ensures WellFormed(session, cap, bss[i])
      ensures TakeFrame(s, codec, bss[i], 0) == Ok(Decoded(s, codec, fs[i]))
    {
      OneFrame(s, codec, fs[i], cap);
    }
    EndToEnd(session, cap, bss, chunks);
  }

  lemma OneFrame<M>(s: Schema, codec: Codec<M>, f: Frame<M>, cap: nat)
    requires ValidSchema(s) && SyncFits(s.header) && Lawful(codec) && Matches(s, f) && Sendable(s, codec, f, cap)
    ensures WellFormed(ToGenerated(SessionConfig(s, SyncBytes(s.header))), cap, FrameBytes(s, codec, f))
    ensures TakeFrame(s, codec, FrameBytes(s, codec, f), 0) == Ok(Decoded(s, codec, f))
  {
    hide TakeFrame, FrameBytes, SyncBytes, Decoded, ToGenerated, SyncFits, WellFormed;
    EncodedIsWellFormed(s, codec, f, cap);
    FrameRoundTrip(s, codec, f, [], []);
    assert [] + FrameBytes(s, codec, f) + [] == FrameBytes(s, codec, f);
  }
}
