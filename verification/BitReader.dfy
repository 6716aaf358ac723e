/** The bit-level decoder: a cursor over the bits of a byte buffer. */
module BitReading {
  import opened Bits
  import opened Decimal
  import opened Endian
  import opened Errors
  import opened Wire

  /** The bits of a byte that one step of read_bits takes: (b >> shift) & mask. */
  lemma ByteField(b: byte, lead: nat, n: nat, shift: nat)
    requires lead + n + shift == 8
    ensures ValueOf(ByteBits(b)[lead..lead + n]) == Low(Shr(b, shift), n)
  {
    ByteBitsOf(b, lead + n + shift);
    var field := BitsOf(Shr(b, shift), n);
    assert BitsOf(b, (lead + n) + shift) == BitsOf(Shr(b, shift), lead + n) + BitsOf(b, shift) by {
      BitsSplit(b, lead + n, shift);
    }
    assert BitsOf(Shr(b, shift), lead + n) == BitsOf(Shr(Shr(b, shift), n), lead) + field by {
      BitsSplit(Shr(b, shift), lead, n);
    }
    assert ByteBits(b)[lead..lead + n] == field;
    ValueOfBits(Shr(b, shift), n);
  }

  lemma ValueOfNothing(bits: seq<bool>, at: nat)
    requires at <= |bits|
    ensures ValueOf(bits[at..at]) == 0
  {
  }

  lemma SliceOfSlice<T>(s: seq<T>, a: nat, b: nat, c: nat, d: nat)
    requires a <= b <= |s| && c <= d <= b - a
    ensures s[a..b][c..d] == s[a + c..a + d]
  {
    forall k | 0 <= k < d - c ensures s[a..b][c..d][k] == s[a + c..a + d][k] {
    }
  }

  /** The n bits after the first lead bits of byte i, as they lie in the stream at bit p = 8 i. */
  lemma FieldInStream(data: seq<byte>, i: nat, p: nat, lead: nat, n: nat)
    requires i < |data| && p == 8 * i && lead + n <= 8
    ensures ToBits(data)[p + lead..p + lead + n] == ByteBits(data[i])[lead..lead + n]
  {
    hide ToBits, ByteBits;
    ToBitsAt(data, i);
    SliceOfSlice(ToBits(data), p, p + 8, lead, lead + n);
  }

  /** uint64_t(v << k) */
  function ShlWord(v: nat, k: nat): nat {
    Shl(v, k) % TWO_64
  }

  /** One step of read_bits extends the value by the next n bits of the stream. */
  lemma NextField(bits: seq<bool>, start: nat, mid: nat, end: nat, field: nat)
    requires start <= mid <= end <= |bits| && end - start <= 64
    requires field == ValueOf(bits[mid..end])
    ensures Or(ShlWord(ValueOf(bits[start..mid]), end - mid), field) == ValueOf(bits[start..end])
    ensures ValueOf(bits[start..end]) < TWO_64
  {
    hide ValueOf, Shl, Or;
    var was, now := bits[start..mid], bits[mid..end];
    assert bits[start..end] == was + now;
    ValueOfConcat(was, now);
    OrIsSum(ValueOf(was), ValueOf(now), end - mid);
    RawFits(ValueOf(was + now), end - start);
  }

  /** What asking for a sub-reader leads to; Stray is a window outside the data, whose use is undefined. */
  datatype Window = Refused | Stray | Inside

  /** byte_pos_ + byte_count > data_.size(), added in 64 bits. */
  predicate Refuses(size: nat, at: nat, count: nat) {
    (at + count) % TWO_64 > size
  }

  /** A window that passes the test lies inside the data exactly when the sum did not wrap. */
  lemma PassedIsInsideIff(size: nat, at: nat, count: nat)
    requires at <= size < TWO_64 && count < TWO_64 && !Refuses(size, at, count)
    ensures at + count <= size <==> at + count < TWO_64
  {
  }

  class BitReader {
    const data: seq<byte>
    var bytePos: nat
    var bitPos: nat

    ghost predicate Valid()
      reads this
    {
      bitPos < 8 && bytePos <= |data| && (bitPos > 0 ==> bytePos < |data|)
    }

    /** The absolute bit position. */
    function Position(): nat
      reads this
    {
      bytePos * 8 + bitPos
    }

    constructor (data: seq<byte>)
      ensures Valid() && this.data == data && Position() == 0
    {
      this.data := data;
      bytePos, bitPos := 0, 0;
    }

    function RemainingBits(): (n: nat)
      reads this
      requires Valid()
      ensures n == 8 * |data| - Position()
    {
      if bytePos >= |data| then 0 else (|data| - bytePos) * 8 - bitPos
    }

    /** Whole bytes left; a partly read byte does not count. */
    function RemainingBytes(): (n: nat)
      reads this
      requires Valid()
      ensures n == (8 * |data| - Position()) / 8
    {
      if bytePos >= |data| then 0 else |data| - bytePos - (if bitPos > 0 then 1 else 0)
    }

    method Advance(bits: nat)
      requires Valid() && Position() + bits <= 8 * |data|
      modifies this
      ensures Valid() && Position() == old(Position()) + bits
    {
      bitPos := bitPos + bits;
      bytePos := bytePos + bitPos / 8;
      bitPos := bitPos % 8;
    }

    method ReadBits(count: nat) returns (r: Result<u64>)
      requires Valid()
      modifies this
      ensures Valid()
      ensures r == TakeBits(ToBits(data), old(Position()), count)
      ensures Position() == old(Position()) + (if r.Ok? then count else 0)
    {
      hide ToBits, ByteBits, BitsOf, ValueOf, Low, Shr;
      if count == 0 { return Ok(0); }
      if count > 64 { return Err(InvalidArgument); }
      if RemainingBits() < count { return Err(BufferUnderrun); }
      ghost var start, bits := Position(), ToBits(data);
      var result: u64, remaining := 0, count;
      ValueOfNothing(bits, start);
      while remaining > 0
        invariant 0 <= remaining <= count && Valid()
        invariant Position() == start + (count - remaining)
        invariant result == ValueOf(bits[start..start + (count - remaining)])
      {
        var bitsInByte := 8 - bitPos;
        var bitsToRead := if remaining < bitsInByte then remaining else bitsInByte;
        var shift := bitsInByte - bitsToRead;
        var field := Low(Shr(data[bytePos], shift), bitsToRead);
        FieldInStream(data, bytePos, bytePos * 8, bitPos, bitsToRead);
        ByteField(data[bytePos], bitPos, bitsToRead, shift);
        NextField(bits, start, Position(), Position() + bitsToRead, field);
        result := Or(ShlWord(result, bitsToRead), field);
        remaining := remaining - bitsToRead;
        Advance(bitsToRead);
      }
      return Ok(result);
    }

    method ReadSignedBits(count: nat) returns (r: Result<int>)
      requires Valid()
      modifies this
      ensures Valid()
      ensures r == TakeSigned(ToBits(data), old(Position()), count)
      ensures Position() == old(Position()) + (if r.Ok? then count else 0)
    {
      if count == 0 { return Ok(0); }
      var val := ReadBits(count);
      if val.Err? { return Err(val.error); }
      if Bit(val.value, count - 1) {
        return Ok(val.value - Pow2(count));
      }
      return Ok(val.value);
    }

    // ------------------------------------------------- aviation wire encodings

    /** The digit loop of the BCD readers. */
    static method UnpackDigits(raw: nat, nibbles: nat) returns (r: Result<nat>)
      requires nibbles <= 16
      ensures r == BcdResult(BcdValue(raw, nibbles))
      ensures r.Ok? ==> r.value < TWO_64
    {
      hide Unpacking, BcdValue, Shr, Pow10;
      var result: nat, multiplier: nat := 0, 1;
      var i := 0;
      UnpackStart(raw, nibbles);
      while i < nibbles
        invariant 0 <= i <= nibbles
        invariant Unpacking(raw, nibbles, i, result, multiplier)
      {
        var digit := Shr(raw, i * 4) % 16;
        UnpackStep(raw, nibbles, i, result, multiplier);
        if digit > 9 { return Err(InvalidArgument); }
        result := result + digit * multiplier;
        multiplier := multiplier * 10;
        i := i + 1;
      }
      UnpackEnd(raw, nibbles, result, multiplier);
      return Ok(result);
    }

    method ReadBcd(bits: nat) returns (r: Result<nat>)
      requires Valid()
      modifies this
      ensures Valid()
      ensures r == TakeBcd(ToBits(data), old(Position()), bits)
      ensures r.Ok? ==> r.value < TWO_64
      ensures r.Ok? ==> Position() == old(Position()) + bits
    {
      if bits == 0 { return Ok(0); }
      if bits % 4 != 0 || bits / 4 > 16 { return Err(InvalidArgument); }
      var raw := ReadBits(bits);
      if raw.Err? { return Err(raw.error); }
      r := UnpackDigits(raw.value, bits / 4);
    }

    method ReadBcdSigned(bits: nat) returns (r: Result<int>)
      requires Valid()
      modifies this
      ensures Valid()
      ensures r == TakeBcdSigned(ToBits(data), old(Position()), bits)
      ensures r.Ok? ==> Position() == old(Position()) + bits
    {
      if bits < 5 || (bits - 1) % 4 != 0 || (bits - 1) / 4 > 15 { return Err(InvalidArgument); }
      var raw := ReadBits(bits);
      if raw.Err? { return Err(raw.error); }
      var negative := Bit(raw.value, bits - 1);
      var digits := UnpackDigits(Low(raw.value, bits - 1), (bits - 1) / 4);
      if digits.Err? { return Err(digits.error); }
      return Ok(WithSign(negative, digits.value));
    }

    method ReadSignMagnitude(bits: nat) returns (r: Result<int>)
      requires Valid()
      modifies this
      ensures Valid()
      ensures r == TakeSignMagnitude(ToBits(data), old(Position()), bits)
      ensures r.Ok? ==> Position() == old(Position()) + bits
    {
      if bits < 2 { return Err(InvalidArgument); }
      var raw := ReadBits(bits);
      if raw.Err? { return Err(raw.error); }
      var negative := Bit(raw.value, bits - 1);
      var magnitude := Low(raw.value, bits - 1);
      return Ok(WithSign(negative, magnitude));
    }

    // ------------------------------------------------------ byte-level reading

    method AlignToByte()
      requires Valid()
      modifies this
      ensures Valid() && bitPos == 0
      ensures bytePos == (old(Position()) + 7) / 8
    {
      if bitPos > 0 {
        bytePos := bytePos + 1;
        bitPos := 0;
      }
    }

    /** A run of bytes at the next byte boundary; the alignment stays even when the run is too long. */
    method ReadBytes(count: nat) returns (r: Result<seq<byte>>)
      requires Valid()
      modifies this
      ensures Valid() && bitPos == 0
      ensures r == TakeBytes(data, old(Position()), count)
      ensures bytePos == (old(Position()) + 7) / 8 + (if r.Ok? then count else 0)
    {
      AlignToByte();
      if bytePos + count > |data| { return Err(BufferUnderrun); }
      r := Ok(data[bytePos..bytePos + count]);
      bytePos := bytePos + count;
    }

    /** An n-byte integer at the next byte boundary, as io::read_u16, read_u32 and read_u64 combine it. */
    method ReadUint(n: nat, e: Order) returns (r: Result<nat>)
      requires Valid() && 0 < n <= 8
      modifies this
      ensures Valid() && bitPos == 0
      ensures r == TakeUint(data, old(Position()), n, e)
      ensures bytePos == (old(Position()) + 7) / 8 + (if r.Ok? then n else 0)
    {
      var bytes := ReadBytes(n);
      if bytes.Err? { return Err(bytes.error); }
      var val := CombineBytes(bytes.value, e);
      return Ok(val);
    }

    /** Byte i of the source's expression goes to place n - 1 - i (big) or i (little), or-ed together. */
    static method CombineBytes(bytes: seq<byte>, e: Order) returns (v: nat)
      ensures v == UintValue(bytes, e)
    {
      var ordered := if e.Big? then bytes else Reverse(bytes);
      v := 0;
      var i := 0;
      while i < |ordered|
        invariant 0 <= i <= |ordered|
        invariant v == ValueOf(ToBits(ordered[..i]))
      {
        OneMoreByte(ordered, i, 8);
        v := Or(Shl(v, 8), ordered[i]);
        i := i + 1;
      }
      assert ordered[..i] == ordered;
    }

    // ------------------------------------------------------------- sub-readers

    /** The bound is tested on a size_t sum, so a huge count can pass it and lead outside the data. */
    method SubReader(byteCount: nat) returns (r: Window, sub: BitReader)
      requires Valid() && |data| < TWO_64 && byteCount < TWO_64
      modifies this
      ensures bitPos == 0 && fresh(sub) && sub.Valid() && var at := (old(Position()) + 7) / 8;
        match r
        case Refused => Valid() && Refuses(|data|, at, byteCount) && bytePos == at
        case Stray => !Refuses(|data|, at, byteCount) && at + byteCount > |data|
        case Inside =>
          && !Refuses(|data|, at, byteCount) && at + byteCount <= |data| && Valid() && bytePos == at + byteCount
          && sub.Position() == 0 && sub.data == data[at..at + byteCount]
    {
      AlignToByte();
      sub := new BitReader([]);
      if (bytePos + byteCount) % TWO_64 > |data| { return Refused, sub; }
      if bytePos + byteCount > |data| { return Stray, sub; }
      sub := new BitReader(data[bytePos..bytePos + byteCount]);
      bytePos := bytePos + byteCount;
      return Inside, sub;
    }

    method SkipBits(count: nat) returns (ok: bool)
      requires Valid()
      modifies this
      ensures Valid() && (ok <==> old(Position()) + count <= 8 * |data|)
      ensures Position() == old(Position()) + (if ok then count else 0)
    {
      if count > RemainingBits() { return false; }
      Advance(count);
      return true;
    }

    method AlignTo(boundary: nat)
      requires Valid()
      modifies this
      ensures Valid() && Position() == AlignedPosition(8 * |data|, old(Position()), boundary)
    {
      if boundary == 0 { return; }
      AlignToByte();
      if boundary > 1 && bytePos % boundary != 0 {
        bytePos := bytePos + (boundary - bytePos % boundary);
      }
      if bytePos > |data| {
        bytePos := |data|;
      }
    }
  }

  function TakeBytes(data: seq<byte>, pos: nat, count: nat): Result<seq<byte>> {
    var at := (pos + 7) / 8;
    if at + count > |data| then Err(BufferUnderrun) else Ok(data[at..at + count])
  }

  function TakeUint(data: seq<byte>, pos: nat, n: nat, e: Order): Result<nat> {
    match TakeBytes(data, pos, n)
    case Err(e) => Err(e)
    case Ok(bytes) => Ok(UintValue(bytes, e))
  }

  /** Where align_to lands: the next multiple of the boundary, but never past the end of size bits. */
  function AlignedPosition(size: nat, pos: nat, boundary: nat): nat {
    if boundary == 0 then pos
    else
      var at := (pos + 7) / 8;
      var to := if at % boundary == 0 then at else at + (boundary - at % boundary);
      if 8 * to > size then size else 8 * to
  }

  function AddHigh(low: nat, multiplier: nat, high: Option<nat>): Option<nat> {
    if high.None? then None else Some(low + multiplier * high.value)
  }

  /** After i digits: what is read, and what the digits above still contribute. */
  ghost predicate Unpacking(raw: nat, nibbles: nat, i: nat, result: nat, multiplier: nat)
    requires i <= nibbles
  {
    && multiplier == Pow10(i) && result < multiplier
    && BcdValue(raw, nibbles) == AddHigh(result, multiplier, BcdValue(Shr(raw, 4 * i), nibbles - i))
  }

  lemma UnpackStart(raw: nat, nibbles: nat)
    ensures Unpacking(raw, nibbles, 0, 0, 1)
  {
  }

  lemma UnpackEnd(raw: nat, nibbles: nat, result: nat, multiplier: nat)
    requires nibbles <= 16 && Unpacking(raw, nibbles, nibbles, result, multiplier)
    ensures BcdValue(raw, nibbles) == Some(result) && result < TWO_64
  {
    Pow10Fits(nibbles);
  }

  lemma UnpackStep(raw: nat, nibbles: nat, i: nat, result: nat, multiplier: nat)
    requires i < nibbles && Unpacking(raw, nibbles, i, result, multiplier)
    ensures var digit := Shr(raw, 4 * i) % 16;
      && (digit > 9 ==> BcdValue(raw, nibbles).None?)
      && (digit <= 9 ==> Unpacking(raw, nibbles, i + 1, result + digit * multiplier, multiplier * 10))
  {
    ShrNibble(raw, i);
    UnpackOne(Shr(raw, 4 * i), nibbles - i, result, multiplier);
  }

  lemma UnpackOne(rest: nat, k: nat, result: nat, multiplier: nat)
    requires k > 0 && result < multiplier
    ensures var digit := rest % 16;
      && (digit > 9 ==> BcdValue(rest, k).None?)
      && (digit <= 9 ==> result + digit * multiplier < multiplier * 10)
      && (digit <= 9 ==>
            AddHigh(result, multiplier, BcdValue(rest, k)) ==
            AddHigh(result + digit * multiplier, multiplier * 10, BcdValue(rest / 16, k - 1)))
  {
    var digit, high := rest % 16, BcdValue(rest / 16, k - 1);
    if digit <= 9 {
      assert digit * multiplier <= 9 * multiplier;
      if high.Some? {
        var h := high.value;
        assert multiplier * (10 * h + digit) == (multiplier * 10) * h + digit * multiplier;
      }
    }
  }

  lemma Pow10Fits(k: nat)
    requires k <= 16
    ensures Pow10(k) < TWO_64
  {
    Pow10Mono(k, 16);
    Pow10Values();
  }

  lemma OneMoreByte(bytes: seq<byte>, i: nat, n: nat)
    requires i < |bytes| && n == 8
    ensures ValueOf(ToBits(bytes[..i + 1])) == Or(Shl(ValueOf(ToBits(bytes[..i])), n), bytes[i])
  {
    assert bytes[..i + 1][..i] == bytes[..i];
    ValueOfConcat(ToBits(bytes[..i]), ByteBits(bytes[i]));
    ByteValue(bytes[i]);
    Pow2Known(n);
    OrIsSum(ValueOf(ToBits(bytes[..i])), bytes[i], n);
  }
}
