/**
  The wire format of single values: what each write appends to the bit stream and what
  each read takes from it, with the error cases of both sides.
 */
module Wire {
  import opened Bits
  import opened Decimal
  import opened Errors

  // ------------------------------------------------------------------- writing

  function BitsCode(value: u64, count: nat): Result<seq<bool>> {
    if count > 64 then Err(EncodingFailed) else Ok(BitsOf(value, count))
  }

  function BcdCode(value: u64, bits: nat): Result<seq<bool>> {
    if bits % 4 != 0 then Err(EncodingFailed)
    else if bits == 0 then Ok([])
    else if bits / 4 > 16 then Err(EncodingFailed)
    else if value >= Pow10(bits / 4) then Err(EncodeConstraintViolation)
    else Ok(BitsOf(BcdRaw(value, bits / 4), bits))
  }

  function BcdSignedCode(value: i64, bits: nat): Result<seq<bool>> {
    if bits < 5 || (bits - 1) % 4 != 0 || (bits - 1) / 4 > 15 then Err(EncodingFailed)
    else if Magnitude(value) >= Pow10((bits - 1) / 4) then Err(EncodeConstraintViolation)
    else Ok(BitsOf(Signed(value < 0, BcdRaw(Magnitude(value), (bits - 1) / 4), bits - 1), bits))
  }

  /** Wider than 64 bits the source shifts past the word, so callers must not ask for it. */
  function SignMagnitudeCode(value: i64, bits: nat): Result<seq<bool>>
    requires bits <= 64
  {
    if bits < 2 then Err(EncodingFailed)
    else if Magnitude(value) >= Pow2(bits - 1) then Err(EncodeConstraintViolation)
    else Ok(BitsOf(Signed(value < 0, Magnitude(value), bits - 1), bits))
  }

  // ------------------------------------------------------------------- reading

  function TakeBits(bits: seq<bool>, pos: nat, count: nat): (r: Result<nat>)
    ensures r.Ok? ==> r.value < Pow2(count)
  {
    if count == 0 then Ok(0)
    else if count > 64 then Err(InvalidArgument)
    else if |bits| < pos + count then Err(BufferUnderrun)
    else Ok(ValueOf(bits[pos..pos + count]))
  }

  function TakeSigned(bits: seq<bool>, pos: nat, count: nat): Result<int> {
    if count == 0 then Ok(0)
    else match TakeBits(bits, pos, count)
      case Err(e) => Err(e)
      case Ok(raw) => Ok(SignExtend(raw, count))
  }

  function TakeBcd(bits: seq<bool>, pos: nat, count: nat): Result<nat> {
    if count == 0 then Ok(0)
    else if count % 4 != 0 || count / 4 > 16 then Err(InvalidArgument)
    else match TakeBits(bits, pos, count)
      case Err(e) => Err(e)
      case Ok(raw) => BcdResult(BcdValue(raw, count / 4))
  }

  function BcdResult(v: Option<nat>): Result<nat> {
    if v.None? then Err(InvalidArgument) else Ok(v.value)
  }

  function TakeBcdSigned(bits: seq<bool>, pos: nat, count: nat): Result<int> {
    if count < 5 || (count - 1) % 4 != 0 || (count - 1) / 4 > 15 then Err(InvalidArgument)
    else match TakeBits(bits, pos, count)
      case Err(e) => Err(e)
      case Ok(raw) =>
        match BcdValue(Low(raw, count - 1), (count - 1) / 4)
        case None => Err(InvalidArgument)
        case Some(v) => Ok(WithSign(Bit(raw, count - 1), v))
  }

  function TakeSignMagnitude(bits: seq<bool>, pos: nat, count: nat): Result<int> {
    if count < 2 then Err(InvalidArgument)
    else match TakeBits(bits, pos, count)
      case Err(e) => Err(e)
      case Ok(raw) =>
        Ok(WithSign(Bit(raw, count - 1), Low(raw, count - 1)))
  }

  // --------------------------------------------------------------------- errors

  /** Why a read fails: a width no word or format has, too few bits, or a nibble that is no digit. */
  lemma ReadErrors(bits: seq<bool>, pos: nat, count: nat)
    ensures TakeBits(bits, pos, count) == Err(InvalidArgument) <==> count > 64
    ensures TakeBits(bits, pos, count) == Err(BufferUnderrun) <==> 0 < count <= 64 && pos + count > |bits|
    ensures TakeSigned(bits, pos, count).Err? ==> TakeSigned(bits, pos, count).error == TakeBits(bits, pos, count).error
    ensures TakeSigned(bits, pos, count).Err? <==> TakeBits(bits, pos, count).Err?
    ensures TakeBcd(bits, pos, count) == Err(BufferUnderrun) <==> 0 < count <= 64 && count % 4 == 0 && pos + count > |bits|
    ensures TakeBcd(bits, pos, count) == Err(InvalidArgument) <==>
              (count % 4 != 0 || count > 64 || (0 < count && pos + count <= |bits| && BadDigit(ValueOf(bits[pos..pos + count]), count / 4)))
    ensures TakeSignMagnitude(bits, pos, count) == Err(InvalidArgument) <==> count < 2 || count > 64
    ensures TakeSignMagnitude(bits, pos, count) == Err(BufferUnderrun) <==> 2 <= count <= 64 && pos + count > |bits|
  {
    hide ValueOf, BcdValue, Low, Bit;
    if 0 < count <= 64 && pos + count <= |bits| {
      BcdRefusedIff(ValueOf(bits[pos..pos + count]), count / 4);
    }
  }

  ghost predicate BadDigit(raw: nat, k: nat) {
    exists i :: 0 <= i < k && Nibble(raw, i) > 9
  }

  /** And a signed decimal read. */
  lemma SignedDecimalErrors(bits: seq<bool>, pos: nat, count: nat)
    ensures TakeBcdSigned(bits, pos, count) == Err(BufferUnderrun) <==>
              5 <= count <= 61 && count % 4 == 1 && pos + count > |bits|
    ensures TakeBcdSigned(bits, pos, count) == Err(InvalidArgument) <==>
              (count < 5 || count > 61 || count % 4 != 1
               || (pos + count <= |bits| && BadDigit(Low(ValueOf(bits[pos..pos + count]), count - 1), count / 4)))
  {
    hide ValueOf, BcdValue, Low, Bit;
    if 5 <= count <= 61 && count % 4 == 1 && pos + count <= |bits| {
      BcdRefusedIff(Low(ValueOf(bits[pos..pos + count]), count - 1), (count - 1) / 4);
    }
  }

  /** Why a write fails: a width the format has not, or a value that does not fit. */
  lemma WriteErrors(u: u64, v: i64, bits: nat)
    ensures BitsCode(u, bits).Err? <==> bits > 64
    ensures BitsCode(u, bits).Err? ==> BitsCode(u, bits).error == EncodingFailed
    ensures BcdCode(u, bits) == Err(EncodingFailed) <==> bits % 4 != 0 || bits > 64
    ensures BcdCode(u, bits) == Err(EncodeConstraintViolation) <==> 0 < bits <= 64 && bits % 4 == 0 && u >= Pow10(bits / 4)
    ensures BcdSignedCode(v, bits) == Err(EncodingFailed) <==> bits < 5 || bits > 61 || bits % 4 != 1
    ensures BcdSignedCode(v, bits) == Err(EncodeConstraintViolation) <==>
              5 <= bits <= 61 && bits % 4 == 1 && !(0 - Pow10(bits / 4) < v < Pow10(bits / 4))
    ensures bits <= 64 ==> (SignMagnitudeCode(v, bits) == Err(EncodingFailed) <==> bits < 2)
    ensures 2 <= bits <= 64 ==>
      (SignMagnitudeCode(v, bits) == Err(EncodeConstraintViolation) <==> !(0 - Pow2(bits - 1) < v < Pow2(bits - 1)))
  {
    hide BitsOf, BcdRaw, Pow10, Pow2, Signed;
  }

  // --------------------------------------------------------------- round trips

  /** Reading back, wherever the code lies in the stream: value modulo 2^count. */
  lemma BitsReadBack(value: u64, count: nat, before: seq<bool>, after: seq<bool>)
    requires count <= 64
    ensures TakeBits(before + BitsOf(value, count) + after, |before|, count) == Ok(Low(value, count))
  {
    var all := before + BitsOf(value, count) + after;
    assert all[|before|..|before| + count] == BitsOf(value, count);
    ValueOfBits(value, count);
  }

  lemma SignedReadBack(value: i64, count: nat, before: seq<bool>, after: seq<bool>)
    requires 0 < count <= 64
    ensures TakeSigned(before + BitsOf(ToU64(value), count) + after, |before|, count) == Ok(value)
       <==> 0 - Pow2(count - 1) <= value < Pow2(count - 1)
  {
    BitsReadBack(ToU64(value), count, before, after);
    TwosComplement(value, count);
  }

  /** The writer accepts the values that fit, and any value in zero bits; what it accepts reads back exactly when it fits. */
  lemma BcdReadBack(value: u64, bits: nat, before: seq<bool>, after: seq<bool>)
    ensures BcdCode(value, bits).Ok? <==> bits % 4 == 0 && bits <= 64 && (bits == 0 || value < Pow10(bits / 4))
    ensures BcdCode(value, bits).Ok? ==>
              (TakeBcd(before + BcdCode(value, bits).value + after, |before|, bits) == Ok(value) <==> value < Pow10(bits / 4))
  {
    if bits > 0 && BcdCode(value, bits).Ok? {
      var raw := BcdRaw(value, bits / 4);
      BcdRawBound(value, bits / 4);
      RawFits(raw, bits);
      BitsReadBack(raw, bits, before, after);
      LowOfSmall(raw, bits);
      BcdUnpackPacked(value, bits / 4);
    }
  }

  lemma RawFits(raw: nat, bits: nat)
    requires bits <= 64 && raw < Pow2(bits)
    ensures raw < TWO_64
  {
    WordSize(bits, 64);
  }

  lemma WordSize(n: nat, w: nat)
    requires n <= w == 64
    ensures Pow2(n) <= TWO_64
  {
    Pow2Mono(n, w);
    Pow2Known(w);
  }

  /** A BCD field that reads successfully re-encodes to the same bits. */
  lemma BcdReencode(bits: seq<bool>, pos: nat, count: nat)
    requires pos + count <= |bits| && TakeBcd(bits, pos, count).Ok?
    ensures var v := TakeBcd(bits, pos, count).value;
      v < Pow10(16) && v < TWO_64 && BcdCode(v, count) == Ok(bits[pos..pos + count])
  {
    if count > 0 {
      var field := bits[pos..pos + count];
      var raw := ValueOf(field);
      BcdPackUnpacked(raw, count / 4);
      Pow10Values();
      Pow10Mono(count / 4, 16);
      BitsOfValue(field);
    } else {
      Pow10Values();
      assert bits[pos..pos + count] == [];
    }
  }

  /** Signed BCD: the writer accepts exactly what fits and the reader returns it. */
  lemma BcdSignedReadBack(value: i64, bits: nat, before: seq<bool>, after: seq<bool>)
    requires bits >= 5 && (bits - 1) % 4 == 0 && bits <= 61
    ensures BcdSignedCode(value, bits).Ok? <==> Magnitude(value) < Pow10((bits - 1) / 4)
    ensures BcdSignedCode(value, bits).Ok? ==>
      TakeBcdSigned(before + BcdSignedCode(value, bits).value + after, |before|, bits) == Ok(value)
  {
    hide BcdRaw, BcdValue, BitsOf, ValueOf;
    if BcdSignedCode(value, bits).Ok? {
      var k := (bits - 1) / 4;
      var payload := BcdRaw(Magnitude(value), k);
      BcdRawBound(Magnitude(value), k);
      SignedWordReadBack(value < 0, payload, bits, before, after);
      BcdUnpackPacked(Magnitude(value), k);
    }
  }

  /** A sign bit and its payload, written and read at any place in the stream. */
  lemma SignedWordReadBack(negative: bool, payload: nat, bits: nat, before: seq<bool>, after: seq<bool>)
    requires 0 < bits <= 64 && payload < Pow2(bits - 1)
    ensures var raw := Signed(negative, payload, bits - 1);
      && TakeBits(before + BitsOf(raw, bits) + after, |before|, bits) == Ok(raw)
      && Bit(raw, bits - 1) == negative && Low(raw, bits - 1) == payload
  {
    var raw := Signed(negative, payload, bits - 1);
    SignBit(negative, payload, bits - 1);
    RawFits(raw, bits);
    BitsReadBack(raw, bits, before, after);
    LowOfSmall(raw, bits);
  }

  lemma SignMagnitudeReadBack(value: i64, bits: nat, before: seq<bool>, after: seq<bool>)
    requires 2 <= bits <= 64
    ensures SignMagnitudeCode(value, bits).Ok? <==> Magnitude(value) <= Pow2(bits - 1) - 1
    ensures SignMagnitudeCode(value, bits).Ok? ==>
      TakeSignMagnitude(before + SignMagnitudeCode(value, bits).value + after, |before|, bits) == Ok(value)
  {
    if SignMagnitudeCode(value, bits).Ok? {
      SignedWordReadBack(value < 0, Magnitude(value), bits, before, after);
    }
  }

  /** The one field per width that does not re-encode to itself: a set sign bit over zero digits. */
  predicate NegativeZero(raw: nat, bits: nat)
    requires 0 < bits
  {
    raw == Pow2(bits - 1)
  }

  lemma SignMagnitudeReencode(bits: seq<bool>, pos: nat, count: nat)
    requires pos + count <= |bits| && TakeSignMagnitude(bits, pos, count).Ok?
    ensures var v := TakeSignMagnitude(bits, pos, count).value;
      && -0x8000_0000_0000_0000 < v < 0x8000_0000_0000_0000
      && (SignMagnitudeCode(v, count) == Ok(bits[pos..pos + count])
          <==> !NegativeZero(ValueOf(bits[pos..pos + count]), count))
  {
    hide BitsOf, ValueOf;
    var field := bits[pos..pos + count];
    var raw, k := ValueOf(field), count - 1;
    var v := TakeSignMagnitude(bits, pos, count).value;
    WordSize(count, 64);
    SignLost(raw, k, Magnitude(v));
    BitsOfValue(field);
    SignBit(v < 0, Magnitude(v), k);
    ReencodeDecided(Signed(v < 0, Magnitude(v), k), raw, count);
  }

  lemma BcdSignedReencode(bits: seq<bool>, pos: nat, count: nat)
    requires pos + count <= |bits| && TakeBcdSigned(bits, pos, count).Ok?
    ensures var v := TakeBcdSigned(bits, pos, count).value;
      && -1_000_000_000_000_000 < v < 1_000_000_000_000_000
      && (BcdSignedCode(v, count) == Ok(bits[pos..pos + count])
          <==> !NegativeZero(ValueOf(bits[pos..pos + count]), count))
  {
    hide BcdRaw, BcdValue, BitsOf, ValueOf;
    var field := bits[pos..pos + count];
    var raw, k, n := ValueOf(field), count - 1, (count - 1) / 4;
    var low := Low(raw, k);
    var digits := BcdValue(low, n).value;
    BcdPackUnpacked(low, n);
    BcdOfZero(n);
    assert digits < 1_000_000_000_000_000 by {
      Pow10Values();
      Pow10Mono(n, 15);
    }
    SignLost(raw, k, digits);
    BitsOfValue(field);
    var v := WithSign(Bit(raw, k), digits);
    SignBit(v < 0, low, k);
    ReencodeDecided(Signed(v < 0, low, k), raw, count);
  }

  /** Only a zero magnitude loses its sign. */
  lemma SignLost(raw: nat, k: nat, magnitude: nat)
    requires raw < Pow2(k + 1) && (magnitude == 0 <==> Low(raw, k) == 0)
    ensures Signed(WithSign(Bit(raw, k), magnitude) < 0, Low(raw, k), k) == raw <==> raw != Pow2(k)
  {
    SignSplit(raw, k);
  }

  lemma {:induction false} BcdOfZero(k: nat)
    ensures BcdRaw(0, k) == 0 && BcdValue(0, k) == Some(0)
  {
    if k > 0 { BcdOfZero(k - 1); }
  }

  lemma ReencodeDecided(a: nat, b: nat, n: nat)
    requires a < Pow2(n) && b < Pow2(n)
    ensures BitsOf(a, n) == BitsOf(b, n) <==> a == b
  {
    ValueOfBits(a, n);
    ValueOfBits(b, n);
    LowOfSmall(a, n);
    LowOfSmall(b, n);
  }
}
