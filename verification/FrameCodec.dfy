/**
  The frame class the generator emits: header fields with a back-patched total length, an
  array payload of self-delimiting message bodies, footer fields; and its decoder.
 */
module FrameCodec {
  import opened Bits
  import opened Decimal
  import opened Endian
  import opened Errors
  import opened BitWriting
  import opened BitReading

  // ------------------------------------------------------------------- schema

  /** The number the session analyzer parsed for a constant, and the byte count it looked up by type name. */
  datatype Collected = Collected(literal: i64, width: nat)

  datatype Role = Length | Constant(value: u64, collected: Option<Collected>) | Free

  /** A scalar header or footer field of whole bytes. */
  datatype FieldDef = FieldDef(role: Role, width: nat, order: Order)

  predicate ValidField(f: FieldDef) {
    && f.width in {1, 2, 4, 8}
    && (f.role.Length? ==> f.width <= 4)
    && (f.role.Constant? ==> f.role.value < Pow2(8 * f.width) && ValidCollected(f))
  }

  /** Nothing is collected for names and for 2^63 up; what is collected need not be what is written. */
  predicate ValidCollected(f: FieldDef)
    requires f.role.Constant?
  {
    f.role.collected.Some? ==> 1 <= f.role.collected.value.width <= 8
  }

  predicate ValidFields(defs: seq<FieldDef>) {
    forall i :: 0 <= i < |defs| ==> ValidField(defs[i])
  }

  /** How many of the fields carry the length. */
  function Lengths(defs: seq<FieldDef>): nat {
    if defs == [] then 0 else (if defs[0].role.Length? then 1 else 0) + Lengths(defs[1..])
  }

  function Width(defs: seq<FieldDef>): nat {
    if defs == [] then 0 else defs[0].width + Width(defs[1..])
  }

  /** Byte offset of the first length field, or of the end. */
  function LengthOffset(defs: seq<FieldDef>): (n: nat)
    ensures n <= Width(defs)
  {
    if defs == [] || defs[0].role.Length? then 0 else defs[0].width + LengthOffset(defs[1..])
  }

  /** The first length field. */
  function LengthField(defs: seq<FieldDef>): (f: FieldDef)
    requires Lengths(defs) > 0
    ensures f.role.Length? && f in defs
  {
    if defs[0].role.Length? then defs[0] else LengthField(defs[1..])
  }

  /** Values in range for their fields, as the generated member types guarantee. */
  predicate Fitting(defs: seq<FieldDef>, values: seq<nat>) {
    |values| == |defs| && forall i :: 0 <= i < |defs| ==> values[i] < Pow2(8 * defs[i].width)
  }

  // ----------------------------------------------------------------- the bytes

  /** What is written for a field: the total length, the constant, or the member. */
  function FieldValue(f: FieldDef, value: nat, total: nat): nat {
    match f.role
    case Length => total
    case Constant(c, _) => c
    case Free => value
  }

  function FieldsBytes(defs: seq<FieldDef>, values: seq<nat>, total: nat): (bs: seq<byte>)
    requires |values| == |defs|
    ensures |bs| == Width(defs)
  {
    if defs == [] then []
    else UintBytes(FieldValue(defs[0], values[0], total), defs[0].width, defs[0].order)
         + FieldsBytes(defs[1..], values[1..], total)
  }

  datatype Codec<!M> = Codec(enc: M -> seq<byte>, dec: (nat, seq<byte>) -> Result<(M, nat)>)

  function BodiesBytes<M>(codec: Codec<M>, bodies: seq<M>): seq<byte> {
    if bodies == [] then [] else codec.enc(bodies[0]) + BodiesBytes(codec, bodies[1..])
  }

  datatype Frame<M> = Frame(header: seq<nat>, bodies: seq<M>, footer: seq<nat>)

  datatype Schema = Schema(header: seq<FieldDef>, footer: seq<FieldDef>, id: nat)

  /** One length field in the header, none in the footer, and a member field that carries the id. */
  predicate ValidSchema(s: Schema) {
    && ValidFields(s.header) && ValidFields(s.footer)
    && Lengths(s.header) == 1 && Lengths(s.footer) == 0
    && s.id < |s.header| && s.header[s.id].role.Free?
  }

  predicate Matches<M>(s: Schema, f: Frame<M>) {
    Fitting(s.header, f.header) && Fitting(s.footer, f.footer)
  }

  function Total<M>(s: Schema, codec: Codec<M>, f: Frame<M>): nat {
    Width(s.header) + |BodiesBytes(codec, f.bodies)| + Width(s.footer)
  }

  /** The whole frame on the wire, with the total length in its length field. */
  function FrameBytes<M>(s: Schema, codec: Codec<M>, f: Frame<M>): (bs: seq<byte>)
    requires Matches(s, f)
    ensures |bs| == Total(s, codec, f)
  {
    FieldsBytes(s.header, f.header, Total(s, codec, f))
    + BodiesBytes(codec, f.bodies)
    + FieldsBytes(s.footer, f.footer, 0)
  }

  // ----------------------------------------------------------------- encoding

  method WriteField(w: BitWriter, value: nat, width: nat, order: Order)
    requires w.Valid() && width in {1, 2, 4, 8} && value < Pow2(8 * width)
    modifies w
    ensures w.Valid() && w.error == old(w.error)
    ensures w.error.Some? ==> w.contents == old(w.contents)
    ensures w.error.None? ==> w.data == old(w.data) + UintBytes(value, width, order) && w.bitPos % 8 == 0
  {
    Pow2Known(8 * width);
    match width {
      case 1 =>
        assert ByteAt(value, 0) == value;
        assert UintBytes(value, 1, order) == [value];
        w.WriteU8(value);
      case 2 => w.WriteU16(value, order);
      case 4 => w.WriteU32(value, order);
      case _ => w.WriteU64(value, order);
    }
  }

  lemma {:induction false} FieldsBytesMore(defs: seq<FieldDef>, values: seq<nat>, total: nat, i: nat)
    requires |values| == |defs| && i < |defs|
    ensures FieldsBytes(defs[..i + 1], values[..i + 1], total) ==
      FieldsBytes(defs[..i], values[..i], total)
      + UintBytes(FieldValue(defs[i], values[i], total), defs[i].width, defs[i].order)
    decreases i
  {
    hide UintBytes, FieldsBytes;
    var ds, vs := defs[..i + 1], values[..i + 1];
    FieldsHead(ds, vs, total);
    NoFields(defs, values, total);
    if i == 0 {
      assert ds[1..] == defs[..0] && vs[1..] == values[..0];
    } else {
      assert ds[1..] == defs[1..][..i] && vs[1..] == values[1..][..i];
      assert defs[..i][1..] == defs[1..][..i - 1] && values[..i][1..] == values[1..][..i - 1];
      FieldsHead(defs[..i], values[..i], total);
      FieldsBytesMore(defs[1..], values[1..], total, i - 1);
    }
  }

  /** Write fields in order with a zero placeholder for the length; report where the placeholder is. */
  method WriteFields(w: BitWriter, defs: seq<FieldDef>, values: seq<nat>) returns (lengthPos: nat)
    requires w.Valid() && ValidFields(defs) && Fitting(defs, values) && Lengths(defs) <= 1
    modifies w
    ensures w.Valid() && w.error == old(w.error)
    ensures w.error.Some? ==> w.contents == old(w.contents)
    ensures w.error.None? ==> w.data == old(w.data) + FieldsBytes(defs, values, 0)
    ensures w.error.None? && (defs != [] || old(w.bitPos) % 8 == 0) ==> w.bitPos % 8 == 0
    ensures w.error.None? && Lengths(defs) == 1 ==> lengthPos == old(|w.data|) + LengthOffset(defs)
    ensures w.error.Some? && Lengths(defs) == 1 ==> lengthPos == old(|w.data|)
  {
    hide ToBits, FieldsBytes, UintBytes, Lengths, LengthOffset, Width, Placed;
    lengthPos := 0;
    var i := 0;
    NoFields(defs, values, 0);
    PlacedStart(w.error, |w.data|, defs);
    while i < |defs|
      invariant 0 <= i <= |defs|
      invariant w.Valid() && w.error == old(w.error)
      invariant w.error.Some? ==> w.contents == old(w.contents)
      invariant w.error.None? ==> w.data == old(w.data) + FieldsBytes(defs[..i], values[..i], 0)
      invariant w.error.None? && (i > 0 || old(w.bitPos) % 8 == 0) ==> w.bitPos % 8 == 0
      invariant Placed(w.error, old(|w.data|), defs, i, lengthPos)
    {
      var f := defs[i];
      if f.role.Length? { lengthPos := w.SizeBytes(); }
      PlacedStep(w.error, old(|w.data|), defs, i, lengthPos);
      WriteField(w, FieldValue(f, values[i], 0), f.width, f.order);
      FieldsBytesMore(defs, values, 0, i);
      i := i + 1;
    }
    assert defs[..i] == defs && values[..i] == values;
    PlacedEnd(w.error, old(|w.data|), defs, lengthPos);
  }

  lemma NoFields(defs: seq<FieldDef>, values: seq<nat>, total: nat)
    requires |values| == |defs|
    ensures FieldsBytes(defs[..0], values[..0], total) == []
  {
  }

  /** Where the placeholder is once one of the first i fields is the length field. */
  ghost predicate Placed(error: Option<ErrorCode>, start: nat, defs: seq<FieldDef>, i: nat, lengthPos: nat)
    requires i <= |defs|
  {
    Lengths(defs[..i]) > 0 ==>
      lengthPos == start + (if error.None? then LengthOffset(defs) else 0)
  }

  lemma PlacedStart(error: Option<ErrorCode>, start: nat, defs: seq<FieldDef>)
    ensures Placed(error, start, defs, 0, 0)
  {
  }

  lemma PlacedEnd(error: Option<ErrorCode>, start: nat, defs: seq<FieldDef>, lengthPos: nat)
    requires Placed(error, start, defs, |defs|, lengthPos)
    ensures Lengths(defs) > 0 ==> lengthPos == start + (if error.None? then LengthOffset(defs) else 0)
  {
    assert defs[..|defs|] == defs;
  }

  lemma {:induction false} LengthsSplit(defs: seq<FieldDef>, i: nat)
    requires i < |defs|
    ensures Lengths(defs[..i + 1]) == Lengths(defs[..i]) + (if defs[i].role.Length? then 1 else 0)
    ensures Lengths(defs[..i]) + Lengths(defs[i..]) == Lengths(defs)
    ensures Lengths(defs[..i]) == 0 && defs[i].role.Length? ==> LengthOffset(defs) == Width(defs[..i])
    decreases i
  {
    if i == 0 {
      assert defs[..1][1..] == [] && defs[0..] == defs;
    } else {
      assert defs[..i + 1][1..] == defs[1..][..i] && defs[..i][1..] == defs[1..][..i - 1];
      assert defs[i..] == defs[1..][i - 1..];
      LengthsSplit(defs[1..], i - 1);
    }
  }

  lemma PlacedStep(error: Option<ErrorCode>, start: nat, defs: seq<FieldDef>, i: nat, lengthPos: nat)
    requires i < |defs| && Lengths(defs) <= 1
    requires if defs[i].role.Length?
             then lengthPos == start + (if error.None? then Width(defs[..i]) else 0)
             else Placed(error, start, defs, i, lengthPos)
    ensures Placed(error, start, defs, i + 1, lengthPos)
  {
    LengthsSplit(defs, i);
  }

  /** Overwriting in the middle part. */
  lemma OverwrittenInside(a: seq<byte>, b: seq<byte>, c: seq<byte>, at: nat, part: seq<byte>)
    requires at + |part| <= |b|
    ensures Overwritten(a + b + c, |a| + at, part) == a + Overwritten(b, at, part) + c
  {
    var all := a + b + c;
    assert all[..|a| + at] == a + b[..at];
    assert all[|a| + at + |part|..] == b[at + |part|..] + c;
  }

  lemma {:induction false} NoLengthNoTotal(defs: seq<FieldDef>, values: seq<nat>, t: nat)
    requires |values| == |defs| && Lengths(defs) == 0
    ensures FieldsBytes(defs, values, 0) == FieldsBytes(defs, values, t)
    decreases |defs|
  {
    if defs != [] { NoLengthNoTotal(defs[1..], values[1..], t); }
  }

  /** Patching the placeholder turns fields written with length zero into fields with length t. */
  lemma {:induction false} PatchFields(defs: seq<FieldDef>, values: seq<nat>, t: nat)
    requires |values| == |defs| && Lengths(defs) == 1
    ensures LengthOffset(defs) + LengthField(defs).width <= Width(defs)
    ensures var f := LengthField(defs);
      Overwritten(FieldsBytes(defs, values, 0), LengthOffset(defs), UintBytes(t, f.width, f.order))
      == FieldsBytes(defs, values, t)
    decreases |defs|
  {
    hide UintBytes, Overwritten, FieldsBytes;
    FieldsHead(defs, values, 0);
    FieldsHead(defs, values, t);
    var f := LengthField(defs);
    var first0 := UintBytes(FieldValue(defs[0], values[0], 0), defs[0].width, defs[0].order);
    var rest0 := FieldsBytes(defs[1..], values[1..], 0);
    if defs[0].role.Length? {
      NoLengthNoTotal(defs[1..], values[1..], t);
      OverwriteFirst(first0, UintBytes(t, f.width, f.order), rest0);
    } else {
      PatchFields(defs[1..], values[1..], t);
      OverwriteLater(first0, rest0, LengthOffset(defs[1..]), UintBytes(t, f.width, f.order));
    }
  }

  lemma FieldsHead(defs: seq<FieldDef>, values: seq<nat>, t: nat)
    requires |values| == |defs| && defs != []
    ensures FieldsBytes(defs, values, t) ==
            UintBytes(FieldValue(defs[0], values[0], t), defs[0].width, defs[0].order)
            + FieldsBytes(defs[1..], values[1..], t)
  {
  }

  lemma OverwriteFirst(a: seq<byte>, a': seq<byte>, b: seq<byte>)
    requires |a| == |a'|
    ensures Overwritten(a + b, 0, a') == a' + b
  {
    assert (a + b)[|a|..] == b;
  }

  lemma OverwriteLater(a: seq<byte>, b: seq<byte>, at: nat, part: seq<byte>)
    requires at + |part| <= |b|
    ensures Overwritten(a + b, |a| + at, part) == a + Overwritten(b, at, part)
  {
    assert (a + b)[..|a| + at] == a + b[..at];
    assert (a + b)[|a| + at + |part|..] == b[at + |part|..];
  }

  /** Encode after whatever the writer holds; a recorded error makes the back-patch fail. */
  method Encode<M>(w: BitWriter, s: Schema, codec: Codec<M>, f: Frame<M>) returns (ok: bool)
    requires w.Valid() && ValidSchema(s) && Matches(s, f)
    modifies w
    ensures w.Valid() && ok == old(w.error).None?
    ensures ok ==> w.error.None? && w.bitPos % 8 == 0
    ensures ok ==> w.data == old(w.data) + FrameBytes(s, codec, f)
    ensures !ok ==> w.contents == old(w.contents) && w.error == old(w.error)
  {
    hide ToBits, Holds, FieldsBytes, BodiesBytes, FrameBytes, Lengths, LengthField, LengthOffset, UintBytes;
    hide Overwritten, KeepsTail;
    var frameStart := w.SizeBytes();
    Patched(w.data, s, codec, f);
    var lengthPos := WriteParts(w, s, codec, f);
    var length := w.SizeBytes() - frameStart;
    var lf := LengthField(s.header);
    ok := w.Patch(lengthPos, UintBytes(length, lf.width, lf.order));
  }

  /** Header with a placeholder, bodies, footer. */
  method WriteParts<M>(w: BitWriter, s: Schema, codec: Codec<M>, f: Frame<M>) returns (lengthPos: nat)
    requires w.Valid() && ValidSchema(s) && Matches(s, f)
    modifies w
    ensures w.Valid() && w.error == old(w.error)
    ensures w.error.None? ==> w.bitPos % 8 == 0 && w.data == Unpatched(old(w.data), s, codec, f)
    ensures w.error.None? ==> lengthPos == old(|w.data|) + LengthOffset(s.header)
    ensures w.error.Some? ==> w.contents == old(w.contents) && lengthPos == old(|w.data|)
  {
    hide ToBits, Holds, FieldsBytes, BodiesBytes, LengthOffset;
    lengthPos := WriteFields(w, s.header, f.header);
    WriteBodies(w, codec, f.bodies);
    var _ := WriteFields(w, s.footer, f.footer);
  }

  /** The buffer before the back-patch. */
  function Unpatched<M>(start: seq<byte>, s: Schema, codec: Codec<M>, f: Frame<M>): (d: seq<byte>)
    requires Matches(s, f)
    ensures |d| == |start| + Total(s, codec, f)
  {
    start + FieldsBytes(s.header, f.header, 0) + BodiesBytes(codec, f.bodies) + FieldsBytes(s.footer, f.footer, 0)
  }

  lemma Patched<M>(start: seq<byte>, s: Schema, codec: Codec<M>, f: Frame<M>)
    requires ValidSchema(s) && Matches(s, f)
    ensures var lf := LengthField(s.header);
      && lf.width > 0
      && LengthOffset(s.header) + lf.width <= Width(s.header)
      && Overwritten(Unpatched(start, s, codec, f), |start| + LengthOffset(s.header),
                     UintBytes(Total(s, codec, f), lf.width, lf.order))
         == start + FrameBytes(s, codec, f)
  {
    hide FieldsBytes, BodiesBytes, LengthField, UintBytes, LengthOffset, Lengths, Overwritten;
    var lf, t := LengthField(s.header), Total(s, codec, f);
    var header := FieldsBytes(s.header, f.header, 0);
    var body, footer := BodiesBytes(codec, f.bodies), FieldsBytes(s.footer, f.footer, 0);
    PatchFields(s.header, f.header, t);
    OverwrittenInside(start, header, body + footer, LengthOffset(s.header), UintBytes(t, lf.width, lf.order));
    assert start + header + (body + footer) == start + header + body + footer;
    var full := FieldsBytes(s.header, f.header, t);
    assert start + full + (body + footer) == start + (full + body + footer);
  }

  method WriteBodies<M>(w: BitWriter, codec: Codec<M>, bodies: seq<M>)
    requires w.Valid()
    modifies w
    ensures w.Valid() && w.error == old(w.error)
    ensures w.error.Some? ==> w.contents == old(w.contents)
    ensures w.error.None? ==> w.data == old(w.data) + BodiesBytes(codec, bodies)
    ensures w.error.None? && old(w.bitPos) % 8 == 0 ==> w.bitPos % 8 == 0
  {
    hide ToBits;
    var i := 0;
    while i < |bodies|
      invariant 0 <= i <= |bodies|
      invariant w.Valid() && w.error == old(w.error)
      invariant w.error.Some? ==> w.contents == old(w.contents)
      invariant w.error.None? ==> w.data == old(w.data) + BodiesBytes(codec, bodies[..i])
      invariant w.error.None? && old(w.bitPos) % 8 == 0 ==> w.bitPos % 8 == 0
    {
      w.WriteBytes(codec.enc(bodies[i]));
      BodiesMore(codec, bodies[..i], bodies[i]);
      assert bodies[..i + 1] == bodies[..i] + [bodies[i]];
      i := i + 1;
    }
    assert bodies[..i] == bodies;
  }

  lemma {:induction false} BodiesMore<M>(codec: Codec<M>, bodies: seq<M>, m: M)
    ensures BodiesBytes(codec, bodies + [m]) == BodiesBytes(codec, bodies) + codec.enc(m)
  {
    if bodies == [] {
      assert ([] + [m])[1..] == [];
      assert BodiesBytes(codec, [m][1..]) == [];
    } else {
      assert (bodies + [m])[1..] == bodies[1..] + [m];
      BodiesMore(codec, bodies[1..], m);
    }
  }
}
