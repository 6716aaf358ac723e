/**
  Whole encodings: a script of writes of every kind, and the same script read back.
  The writer's contents and the reader's results are functions of the script, so the
  round trip holds for every script, at every bit offset.
 */
module Scripts {
  import opened Bits
  import opened Decimal
  import opened Endian
  import opened Errors
  import opened Wire
  import opened BitWriting
  import opened BitReading

  type u16 = x: int | 0 <= x < 0x1_0000
  type u32 = x: int | 0 <= x < 0x1_0000_0000

  datatype Item =
    | Unsigned(bits: u64, count: nat)
    | TwosComp(signed: i64, count: nat)
    | Bcd(digits: u64, count: nat)
    | BcdSign(signedDigits: i64, count: nat)
    | SignMag(signedMagnitude: i64, count: nat)
    | U8(v8: byte)
    | U16(v16: u16, order: Order)
    | U32(v32: u32, order: Order)
    | U64(v64: u64, order: Order)
    | Bytes(bytes: seq<byte>)
    | AlignTo(boundary: nat)

  /** Sign-magnitude fields are at most a word wide. */
  predicate WellTyped(item: Item) {
    item.SignMag? ==> item.count <= 64
  }

  datatype Value = Number(n: int) | Run(bytes: seq<byte>) | Gap

  // ------------------------------------------------------------------- writing

  /** What one write appends at bit position pos. */
  function Code(pos: nat, item: Item): Result<seq<bool>>
    requires WellTyped(item)
  {
    match item
    case Unsigned(v, n) => BitsCode(v, n)
    case TwosComp(v, n) => BitsCode(ToU64(v), n)
    case Bcd(v, n) => BcdCode(v, n)
    case BcdSign(v, n) => BcdSignedCode(v, n)
    case SignMag(v, n) => SignMagnitudeCode(v, n)
    case U8(v) => ByteCode(pos, [v])
    case U16(v, e) => ByteCode(pos, UintBytes(v, 2, e))
    case U32(v, e) => ByteCode(pos, UintBytes(v, 4, e))
    case U64(v, e) => ByteCode(pos, UintBytes(v, 8, e))
    case Bytes(bs) => ByteCode(pos, bs)
    case AlignTo(b) => Ok(Zeros(AlignGap(pos, b)))
  }

  /** The bits of a script after some earlier bits, or the error of the first write that is refused. */
  function Written(before: seq<bool>, script: seq<Item>): Result<seq<bool>>
    requires forall item <- script :: WellTyped(item)
    decreases |script|
  {
    if script == [] then Ok(before)
    else match Code(|before|, script[0])
      case Err(e) => Err(e)
      case Ok(code) => Written(before + code, script[1..])
  }

  method WriteItem(w: BitWriter, item: Item)
    requires w.Valid() && w.error.None? && WellTyped(item)
    modifies w
    ensures w.Appended(old(w.contents), None, Code(old(w.bitPos), item))
  {
    match item
    case Unsigned(v, n) => w.WriteBits(v, n);
    case TwosComp(v, n) => w.WriteSignedBits(v, n);
    case Bcd(v, n) => w.WriteBcd(v, n);
    case BcdSign(v, n) => w.WriteBcdSigned(v, n);
    case SignMag(v, n) => w.WriteSignMagnitude(v, n);
    case U8(v) => w.WriteU8(v);
    case U16(v, e) => w.WriteU16(v, e);
    case U32(v, e) => w.WriteU32(v, e);
    case U64(v, e) => w.WriteU64(v, e);
    case Bytes(bs) => w.WriteBytes(bs);
    case AlignTo(b) => w.AlignTo(b);
  }

  /** After the first refused write nothing more is written, and finish reports that error. */
  method Encode(script: seq<Item>) returns (r: Result<seq<byte>>)
    requires forall item <- script :: WellTyped(item)
    ensures r.Err? <==> Written([], script).Err?
    ensures r.Err? ==> r.error == Written([], script).error
    ensures r.Ok? ==> ToBits(r.value) == Pad(Written([], script).value)
  {
    hide ToBits, Code;
    var w := new BitWriter();
    var i := 0;
    while i < |script|
      invariant 0 <= i <= |script| && w.Valid() && fresh(w)
      invariant w.error.None? ==> Written([], script) == Written(w.contents, script[i..])
      invariant w.error.Some? ==> Written([], script) == Err(w.error.value)
    {
      if w.error.None? {
        WriteItem(w, script[i]);
      }
      assert script[i..][1..] == script[i + 1..];
      i := i + 1;
    }
    assert script[i..] == [];
    r := w.Finish();
  }

  // ------------------------------------------------------------------- reading

  /** What one read of the same kind returns at position pos, and the position after it. */
  function Taken(data: seq<byte>, pos: nat, item: Item): Result<(Value, nat)> {
    var bits := ToBits(data);
    match item
    case Unsigned(_, n) => At(TakeBits(bits, pos, n), pos + n)
    case TwosComp(_, n) => At(TakeSigned(bits, pos, n), pos + n)
    case Bcd(_, n) => At(TakeBcd(bits, pos, n), pos + n)
    case BcdSign(_, n) => At(TakeBcdSigned(bits, pos, n), pos + n)
    case SignMag(_, n) => At(TakeSignMagnitude(bits, pos, n), pos + n)
    case U8(_) => At(TakeUint(data, pos, 1, Big), After(pos, 1))
    case U16(_, e) => At(TakeUint(data, pos, 2, e), After(pos, 2))
    case U32(_, e) => At(TakeUint(data, pos, 4, e), After(pos, 4))
    case U64(_, e) => At(TakeUint(data, pos, 8, e), After(pos, 8))
    case Bytes(bs) =>
      (match TakeBytes(data, pos, |bs|)
       case Err(e) => Err(e)
       case Ok(run) => Ok((Run(run), After(pos, |bs|))))
    case AlignTo(b) => Ok((Gap, AlignedPosition(8 * |data|, pos, b)))
  }

  function At(r: Result<int>, pos: nat): Result<(Value, nat)> {
    match r
    case Err(e) => Err(e)
    case Ok(n) => Ok((Number(n), pos))
  }

  function After(pos: nat, bytes: nat): nat {
    8 * ((pos + 7) / 8 + bytes)
  }

  function Read(data: seq<byte>, pos: nat, script: seq<Item>): Result<(seq<Value>, nat)>
    decreases |script|
  {
    if script == [] then Ok(([], pos))
    else match Taken(data, pos, script[0])
      case Err(e) => Err(e)
      case Ok((v, next)) =>
        match Read(data, next, script[1..])
        case Err(e) => Err(e)
        case Ok((vs, end)) => Ok(([v] + vs, end))
  }

  method ReadItem(r: BitReader, item: Item) returns (v: Result<Value>)
    requires r.Valid()
    modifies r
    ensures r.Valid()
    ensures Taken(r.data, old(r.Position()), item) ==
              if v.Ok? then Ok((v.value, r.Position())) else Err(v.error)
  {
    hide ToBits, TakeBits, TakeSigned, TakeBcd, TakeBcdSigned, TakeSignMagnitude, UintValue;
    match item
    case Unsigned(_, n) => var x := r.ReadBits(n); v := AsNumber(x);
    case TwosComp(_, n) => var x := r.ReadSignedBits(n); v := AsNumber(x);
    case Bcd(_, n) => var x := r.ReadBcd(n); v := AsNumber(x);
    case BcdSign(_, n) => var x := r.ReadBcdSigned(n); v := AsNumber(x);
    case SignMag(_, n) => var x := r.ReadSignMagnitude(n); v := AsNumber(x);
    case U8(_) => var x := r.ReadUint(1, Big); v := AsNumber(x);
    case U16(_, e) => var x := r.ReadUint(2, e); v := AsNumber(x);
    case U32(_, e) => var x := r.ReadUint(4, e); v := AsNumber(x);
    case U64(_, e) => var x := r.ReadUint(8, e); v := AsNumber(x);
    case Bytes(bs) =>
      var x := r.ReadBytes(|bs|);
      v := if x.Err? then Err(x.error) else Ok(Run(x.value));
    case AlignTo(b) => r.AlignTo(b); v := Ok(Gap);
  }

  function AsNumber(r: Result<int>): Result<Value> {
    if r.Err? then Err(r.error) else Ok(Number(r.value))
  }

  method Decode(data: seq<byte>, script: seq<Item>) returns (r: Result<seq<Value>>, end: nat)
    ensures Read(data, 0, script) == if r.Ok? then Ok((r.value, end)) else Err(r.error)
  {
    hide Taken;
    var reader := new BitReader(data);
    var values: seq<Value> := [];
    var i := 0;
    assert script[0..] == script;
    PrefixedNone(Read(data, 0, script));
    while i < |script|
      invariant 0 <= i <= |script| && reader.Valid() && fresh(reader) && reader.data == data
      invariant Read(data, 0, script) == Prefixed(values, Read(data, reader.Position(), script[i..]))
    {
      ghost var pos := reader.Position();
      var v := ReadItem(reader, script[i]);
      assert script[i..][0] == script[i] && script[i..][1..] == script[i + 1..];
      if v.Err? { return Err(v.error), 0; }
      PrefixedStep(values, v.value, Read(data, reader.Position(), script[i + 1..]));
      values := values + [v.value];
      i := i + 1;
    }
    assert script[i..] == [] && values + [] == values;
    return Ok(values), reader.Position();
  }

  // --------------------------------------------------------------- round trip

  /** What reading back is to return: the value written, reduced to the width of its field. */
  function Expected(item: Item): Value {
    match item
    case Unsigned(v, n) => Number(Low(v, n))
    case TwosComp(v, n) => Number(if n == 0 then 0 else SignExtend(Low(ToU64(v), n), n))
    case Bcd(v, n) => Number(if n == 0 then 0 else v)
    case BcdSign(v, n) => Number(v)
    case SignMag(v, n) => Number(v)
    case U8(v) => Number(v)
    case U16(v, _) => Number(v)
    case U32(v, _) => Number(v)
    case U64(v, _) => Number(v)
    case Bytes(bs) => Run(bs)
    case AlignTo(_) => Gap
  }

  /** Whether the value fits its field, so that reading back returns the value itself. */
  predicate Fits(item: Item) {
    match item
    case Unsigned(v, n) => v < Pow2(n)
    case TwosComp(v, n) => if n == 0 then v == 0 else 0 - Pow2(n - 1) <= v < Pow2(n - 1)
    case Bcd(v, n) => n == 0 ==> v == 0
    case _ => true
  }

  function Original(item: Item): Value {
    match item
    case Unsigned(v, _) => Number(v)
    case TwosComp(v, _) => Number(v)
    case Bcd(v, _) => Number(v)
    case _ => Expected(item)
  }

  lemma ExpectedIsOriginal(item: Item)
    requires WellTyped(item) && Code(0, item).Ok?
    ensures Expected(item) == Original(item) <==> Fits(item)
  {
    match item
    case Unsigned(v, n) =>
      if v < Pow2(n) { LowOfSmall(v, n); }
    case TwosComp(v, n) =>
      if n > 0 { TwosComplement(v, n); }
    case _ =>
  }

  /** Bits written somewhere in the stream. */
  ghost predicate Holding(data: seq<byte>, before: seq<bool>, code: seq<bool>) {
    |before + code| <= 8 * |data| && ToBits(data)[..|before + code|] == before + code
  }

  lemma HoldingParts(data: seq<byte>, before: seq<bool>, code: seq<bool>)
    requires Holding(data, before, code)
    ensures ToBits(data) == before + code + ToBits(data)[|before + code|..]
  {
  }

  /** Every accepted write reads back as expected, and both sides end at the same position. */
  lemma ItemReadBack(data: seq<byte>, before: seq<bool>, item: Item)
    requires WellTyped(item) && Code(|before|, item).Ok?
    requires Holding(data, before, Code(|before|, item).value)
    ensures Taken(data, |before|, item) == Ok((Expected(item), |before| + |Code(|before|, item).value|))
  {
    hide ToBits, UintBytes, UintValue, BitsOf, ValueOf, BcdRaw, BcdValue, Signed, SignExtend, Low;
    match item
    case AlignTo(b) => AlignReadBack(data, before, b);
    case U8(v) => OneByte(v); UintReadBack(data, before, v, 1, Big);
    case U16(v, e) => UintReadBack(data, before, v, 2, e);
    case U32(v, e) => UintReadBack(data, before, v, 4, e);
    case U64(v, e) => UintReadBack(data, before, v, 8, e);
    case Bytes(bs) => BytesReadBack(data, before, bs);
    case _ => FieldReadBack(data, before, item);
  }

  lemma FieldReadBack(data: seq<byte>, before: seq<bool>, item: Item)
    requires item.Unsigned? || item.TwosComp? || item.Bcd? || item.BcdSign? || item.SignMag?
    requires WellTyped(item) && Code(|before|, item).Ok?
    requires Holding(data, before, Code(|before|, item).value)
    ensures Taken(data, |before|, item) == Ok((Expected(item), |before| + |Code(|before|, item).value|))
  {
    hide ToBits, BitsOf, ValueOf, BcdRaw, BcdValue, Signed, SignExtend, Low, Pow10, Pow2, Shr;
    var code := Code(|before|, item).value;
    var after := ToBits(data)[|before + code|..];
    HoldingParts(data, before, code);
    match item
    case Unsigned(v, n) => BitsReadBack(v, n, before, after);
    case TwosComp(v, n) =>
      if n > 0 { BitsReadBack(ToU64(v), n, before, after); }
    case Bcd(v, n) => BcdReadBack(v, n, before, after);
    case BcdSign(v, n) => BcdSignedReadBack(v, n, before, after);
    case SignMag(v, n) => SignMagnitudeReadBack(v, n, before, after);
  }

  /** The reader aligns as the writer does, but never past the end. */
  lemma AlignedAlike(size: nat, pos: nat, boundary: nat)
    requires pos <= size && size % 8 == 0
    ensures var to := pos + AlignGap(pos, boundary);
      AlignedPosition(size, pos, boundary) == if to > size then size else to
  {
  }

  lemma AlignReadBack(data: seq<byte>, before: seq<bool>, b: nat)
    requires Holding(data, before, Zeros(AlignGap(|before|, b)))
    ensures AlignedPosition(8 * |data|, |before|, b) == |before| + AlignGap(|before|, b)
  {
  }

  lemma OneByte(v: byte)
    ensures UintBytes(v, 1, Big) == [v]
  {
    assert ByteAt(v, 0) == v;
  }

  /** A run of bytes after padding is the same run in the buffer. */
  lemma BytesReadBack(data: seq<byte>, before: seq<bool>, bs: seq<byte>)
    requires Holding(data, before, ByteCode(|before|, bs).value)
    ensures TakeBytes(data, |before|, |bs|) == Ok(bs)
    ensures |before| + |ByteCode(|before|, bs).value| == After(|before|, |bs|)
  {
    hide ToBits;
    var at := (|before| + 7) / 8;
    var gap := Zeros((8 - |before| % 8) % 8);
    var code := gap + ToBits(bs);
    HoldingParts(data, before, code);
    var all, end := ToBits(data), 8 * at + 8 * |bs|;
    assert |before| + |gap| == 8 * at;
    assert all[8 * at..end] == ToBits(bs);
    ToBitsSlice(data, at, at + |bs|);
    ToBitsInjective(data[at..at + |bs|], bs);
  }

  lemma UintReadBack(data: seq<byte>, before: seq<bool>, v: nat, n: nat, e: Order)
    requires n in {1, 2, 4, 8} && v < TWO_64
    requires (n == 1 ==> v < 0x100) && (n == 2 ==> v < 0x1_0000) && (n == 4 ==> v < 0x1_0000_0000)
    requires Holding(data, before, ByteCode(|before|, UintBytes(v, n, e)).value)
    ensures TakeUint(data, |before|, n, e) == Ok(v)
    ensures |before| + |ByteCode(|before|, UintBytes(v, n, e)).value| == After(|before|, n)
  {
    BytesReadBack(data, before, UintBytes(v, n, e));
    UintRoundTrip(v, n, e);
    Pow2Known(8 * n);
    LowOfSmall(v, 8 * n);
  }

  /** Writing only appends. */
  lemma {:induction false} WrittenExtends(before: seq<bool>, script: seq<Item>)
    requires forall item <- script :: WellTyped(item)
    requires Written(before, script).Ok?
    ensures before <= Written(before, script).value
    decreases |script|
  {
    if script != [] {
      WrittenExtends(before + Code(|before|, script[0]).value, script[1..]);
    }
  }

  ghost function ExpectedAll(script: seq<Item>): (vs: seq<Value>)
    ensures |vs| == |script|
  {
    if script == [] then [] else [Expected(script[0])] + ExpectedAll(script[1..])
  }

  lemma {:induction false} ScriptReadBack(data: seq<byte>, before: seq<bool>, script: seq<Item>)
    requires forall item <- script :: WellTyped(item)
    requires Written(before, script).Ok? && Written(before, script).value <= ToBits(data)
    ensures Read(data, |before|, script) == Ok((ExpectedAll(script), |Written(before, script).value|))
    decreases |script|
  {
    hide ToBits, Code, Taken, Expected;
    if script != [] {
      var code := Code(|before|, script[0]).value;
      WrittenExtends(before + code, script[1..]);
      PrefixHeld(data, before + code, Written(before, script).value);
      ItemReadBack(data, before, script[0]);
      ScriptReadBack(data, before + code, script[1..]);
    }
  }

  lemma PrefixHeld(data: seq<byte>, part: seq<bool>, whole: seq<bool>)
    requires part <= whole <= ToBits(data)
    ensures |part| <= 8 * |data| && ToBits(data)[..|part|] == part
  {
  }

  /**
    Round trip: the finished buffer of any accepted script, read with the same script, gives
    back every value and stops exactly where writing stopped.
   */
  lemma RoundTrip(script: seq<Item>, data: seq<byte>)
    requires forall item <- script :: WellTyped(item)
    requires Written([], script).Ok? && ToBits(data) == Pad(Written([], script).value)
    ensures Read(data, 0, script) == Ok((ExpectedAll(script), |Written([], script).value|))
  {
    ScriptReadBack(data, [], script);
  }

  /** Encoding and decoding composed: every accepted script comes back, every refused one reports its first error. */
  method EncodeThenDecode(script: seq<Item>) returns (r: Result<seq<Value>>)
    requires forall item <- script :: WellTyped(item)
    ensures r.Ok? <==> Written([], script).Ok?
    ensures r.Ok? ==> r.value == ExpectedAll(script)
    ensures r.Err? ==> r.error == Written([], script).error
  {
    var data := Encode(script);
    if data.Err? { return Err(data.error); }
    RoundTrip(script, data.value);
    var values, end := Decode(data.value, script);
    return values;
  }
}
