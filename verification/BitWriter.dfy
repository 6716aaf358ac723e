/** The bit-level encoder: a growing byte buffer that stands for a sequence of bits. */
module BitWriting {
  import opened Bits
  import opened Decimal
  import opened Endian
  import opened Errors
  import opened Wire

  /** Zero bits up to the next byte boundary. */
  function Pad(bits: seq<bool>): (p: seq<bool>)
    ensures |p| % 8 == 0 && |bits| <= |p| < |bits| + 8
    ensures p[..|bits|] == bits
    ensures |bits| % 8 == 0 ==> p == bits
  {
    bits + Zeros((8 - |bits| % 8) % 8)
  }

  /** What a byte-level write at position pos appends: padding, then whole bytes. */
  function ByteCode(pos: nat, bytes: seq<byte>): Result<seq<bool>> {
    Ok(Zeros((8 - pos % 8) % 8) + ToBits(bytes))
  }

  /** How many zero bits align_to(boundary) adds: to a byte, then zero bytes to a multiple of boundary. */
  function AlignGap(pos: nat, boundary: nat): (gap: nat)
    ensures boundary == 0 ==> gap == 0
    ensures boundary > 0 ==> (pos + gap) % 8 == 0 && ((pos + gap) / 8) % boundary == 0 && gap < 8 * boundary
  {
    if boundary == 0 then 0
    else
      var bytes := (pos + 7) / 8;
      BoundaryReached(bytes, boundary);
      8 * (if bytes % boundary == 0 then bytes else bytes + (boundary - bytes % boundary)) - pos
  }

  lemma BoundaryReached(n: nat, boundary: nat)
    requires boundary > 0
    ensures (n + (boundary - n % boundary)) % boundary == 0
  {
    var q := n / boundary;
    assert n + (boundary - n % boundary) == boundary * (q + 1) + 0;
    DivUnique(n + (boundary - n % boundary), boundary, q + 1, 0);
  }

  lemma OrByteBits(a: byte, b: byte, n: nat)
    requires n == 8
    ensures Or(a, b) < 256 && ByteBits(Or(a, b)) == ZipOr(ByteBits(a), ByteBits(b))
  {
    Pow2Known(n);
    OrBound(a, b, n);
    BitsOfOr(a, b, n);
    ByteBitsOf(a, n);
    ByteBitsOf(b, n);
    ByteBitsOf(Or(a, b), n);
  }

  function OrByte(a: byte, b: byte): (c: byte)
    ensures ByteBits(c) == ZipOr(ByteBits(a), ByteBits(b))
  {
    OrByteBits(a, b, 8);
    Or(a, b)
  }

  /** uint8_t((v & ((1 << c) - 1)) << k) */
  function Mask(v: nat, c: nat, k: nat): byte {
    ToByte(Shl(Low(v, c), k))
  }

  lemma MaskBits(v: nat, c: nat, k: nat, lead: nat)
    requires lead + c + k == 8
    ensures ByteBits(Mask(v, c, k)) == Zeros(lead) + BitsOf(v, c) + Zeros(k)
  {
    ToByteBits(Shl(Low(v, c), k), lead + c + k);
    BitsOfShifted(Low(v, c), lead + c, k);
    BitsOfSmall(Low(v, c), lead, c);
    BitsOfLow(v, c, c);
  }

  /** The buffer is the given bits followed by zero bits. */
  ghost predicate Holds(data: seq<byte>, bits: seq<bool>) {
    |bits| <= 8 * |data| && ToBits(data) == bits + Zeros(8 * |data| - |bits|)
  }

  lemma HoldsAppend(data: seq<byte>, bits: seq<bool>, b: byte)
    requires Holds(data, bits) && |bits| == 8 * |data|
    ensures Holds(data + [b], bits + ByteBits(b))
    ensures b == 0 ==> Holds(data + [b], bits)
  {
    assert ToBits(data + [b]) == bits + ByteBits(b) by {
      ToBitsConcat(data, [b]);
      ToBitsOne(b);
    }
    BitsOfZero(8);
  }

  lemma ZipOrTail(a: seq<bool>, ins: seq<bool>, j: nat)
    ensures ZipOr(a + Zeros(|ins| + j), Zeros(|a|) + ins + Zeros(j)) == a + ins + Zeros(j)
  {
    var x, y := a + Zeros(|ins| + j), Zeros(|a|) + ins + Zeros(j);
    forall k | 0 <= k < |x| ensures (x[k] || y[k]) == (a + ins + Zeros(j))[k] {
    }
  }

  lemma LastByteBits(data: seq<byte>, bits: seq<bool>)
    requires data != [] && Holds(data, bits) && 8 * |data| - 8 <= |bits|
    ensures var n := |data| - 1;
      ToBits(data[..n]) == bits[..8 * n] && ByteBits(data[n]) == bits[8 * n..] + Zeros(8 * |data| - |bits|)
  {
    var n := |data| - 1;
    var head, last := ToBits(data[..n]), ByteBits(data[n]);
    assert bits + Zeros(8 * |data| - |bits|) == head + last;
    assert head == (head + last)[..8 * n];
    assert last == (head + last)[8 * n..];
  }

  /** Or-ing bits into the zero tail of the last byte appends them. */
  lemma OrTail(data: seq<byte>, bits: seq<bool>, ins: seq<bool>, v: byte)
    requires data != [] && Holds(data, bits) && 8 * |data| - 8 <= |bits| && |bits| + |ins| <= 8 * |data|
    requires ByteBits(v) == Zeros(|bits| - 8 * (|data| - 1)) + ins + Zeros(8 * |data| - |bits| - |ins|)
    ensures Holds(data[|data| - 1 := OrByte(data[|data| - 1], v)], bits + ins)
  {
    var n, j := |data| - 1, 8 * |data| - |bits| - |ins|;
    var d := data[n := OrByte(data[n], v)];
    var head, tail := bits[..8 * n], bits[8 * n..];
    LastByteBits(data, bits);
    ZipOrTail(tail, ins, j);
    assert d[..n] == data[..n];
    assert ToBits(d) == head + (tail + ins + Zeros(j));
    assert head + (tail + ins + Zeros(j)) == (head + tail) + ins + Zeros(j);
    assert head + tail == bits;
  }

  /** One more whole byte of value: shift down by 8 less each time. */
  lemma NextByte(value: nat, shift: nat, done: nat, n: nat)
    requires n == 8
    ensures BitsOf(Shr(value, shift), done + n)
         == BitsOf(Shr(value, shift + n), done) + ByteBits(ToByte(Shr(value, shift)))
  {
    BitsSplit(Shr(value, shift), done, n);
    ShiftTwice(value, shift, n);
    ToByteBits(Shr(value, shift), n);
  }

  lemma NoShift(v: nat)
    ensures Shr(v, 0) == v
  {
  }

  /** One more bit of value. */
  lemma NextBit(value: nat, i: nat, done: nat)
    requires i > 0
    ensures BitsOf(Shr(value, i), done) + [Bit(value, i - 1)] == BitsOf(Shr(value, i - 1), done + 1)
  {
    ShiftTwice(value, i - 1, 1);
  }

  /** The three parts of an unaligned write, appended in turn. */
  lemma Joined(before: seq<bool>, v: nat, a: nat, b: nat, c: nat)
    ensures before + BitsOf(Shr(v, b + c), a) + BitsOf(Shr(v, c), b) + BitsOf(v, c)
         == before + BitsOf(v, a + b + c)
  {
    BitsSplit(v, a + b, c);
    BitsSplit(Shr(v, c), a, b);
    ShiftTwice(v, c, b);
    Regroup(before, BitsOf(Shr(v, b + c), a), BitsOf(Shr(v, c), b), BitsOf(v, c));
  }

  lemma Regroup(a: seq<bool>, b: seq<bool>, c: seq<bool>, d: seq<bool>)
    ensures ((a + b) + c) + d == a + ((b + c) + d)
  {
  }

  lemma PackOneDigit(value: nat, i: nat)
    requires i < 16
    ensures Or(BcdRaw(value, i), Shl(DropDigits(value, i) % 10, i * 4)) == BcdRaw(value, i + 1)
    ensures BcdRaw(value, i + 1) < TWO_64
    ensures DropDigits(value, i + 1) == DropDigits(value, i) / 10
  {
    hide BcdRaw, DropDigits, Shl, Or, Pow2;
    var digit, raw, k := DropDigits(value, i) % 10, BcdRaw(value, i), 4 * i;
    assert BcdRaw(value, i + 1) < TWO_64 by {
      BcdRawBound(value, i + 1);
      RawFits(BcdRaw(value, i + 1), 4 * (i + 1));
    }
    assert Or(raw, Shl(digit, k)) == Shl(digit, k) + raw by {
      BcdRawBound(value, i);
      OrIsSum(digit, raw, k);
    }
    BcdRawNext(value, i);
    DropOneMore(value, i);
  }

  lemma PadHeld(data: seq<byte>, bits: seq<bool>)
    requires |data| == (|bits| + 7) / 8 && Holds(data, bits)
    ensures Holds(data, Pad(bits)) && |Pad(bits)| == 8 * |data|
  {
    assert bits + Zeros(8 * |data| - |bits|) == Pad(bits) + Zeros(0);
  }

  lemma HoldsBytes(data: seq<byte>, bits: seq<bool>, bytes: seq<byte>)
    requires Holds(data, bits) && |bits| == 8 * |data|
    ensures Holds(data + bytes, bits + ToBits(bytes))
  {
    assert bits + Zeros(0) == bits;
    ToBitsConcat(data, bytes);
    assert bits + ToBits(bytes) + Zeros(0) == bits + ToBits(bytes);
  }

  lemma ZeroByteCode(pos: nat)
    requires pos % 8 == 0
    ensures ByteCode(pos, [0]) == Ok(Zeros(8))
  {
    ToBitsOne(0);
    ByteBitsOf(0, 8);
    BitsOfZero(8);
    assert Zeros(0) + Zeros(8) == Zeros(8);
  }

  lemma PatchedBits(data: seq<byte>, i: nat, bytes: seq<byte>, j: nat)
    requires i <= j <= |data|
    ensures ToBits(data[..i] + bytes + data[j..]) == ToBits(data)[..8 * i] + ToBits(bytes) + ToBits(data)[8 * j..]
  {
    hide ToBits;
    ToBitsThree(data[..i], bytes, data[j..]);
    ToBitsTake(data, i);
    ToBitsTake(data, j);
  }

  lemma SliceAroundPatch(bits: seq<bool>, zs: seq<bool>, i: nat, mid: seq<bool>, j: nat)
    requires i <= j <= |bits|
    ensures (bits + zs)[..i] + mid + (bits + zs)[j..] == (bits[..i] + mid + bits[j..]) + zs
  {
    assert (bits + zs)[..i] == bits[..i];
    assert (bits + zs)[j..] == bits[j..] + zs;
  }

  lemma HoldsPatched(data: seq<byte>, bits: seq<bool>, i: nat, bytes: seq<byte>, j: nat)
    requires Holds(data, bits) && i + |bytes| == j && 8 * j <= |bits|
    ensures Holds(data[..i] + bytes + data[j..], bits[..8 * i] + ToBits(bytes) + bits[8 * j..])
  {
    hide ToBits;
    PatchedBits(data, i, bytes, j);
    SliceAroundPatch(bits, Zeros(8 * |data| - |bits|), 8 * i, ToBits(bytes), 8 * j);
  }

  function Overwritten<T>(s: seq<T>, at: nat, part: seq<T>): (r: seq<T>)
    requires at + |part| <= |s|
    ensures |r| == |s|
  {
    s[..at] + part + s[at + |part|..]
  }

  /** An overwrite leaves the bits past pos zero: it does not reach the partial last byte, or clears its tail. */
  predicate KeepsTail(pos: nat, size: nat, at: nat, bytes: seq<byte>)
    requires pos <= 8 * size
  {
    bytes == [] || 8 * (at + |bytes|) <= pos || Low(bytes[|bytes| - 1], 8 * size - pos) == 0
  }

  lemma ZeroBitsIff(b: nat, k: nat)
    ensures BitsOf(b, k) == Zeros(k) <==> Low(b, k) == 0
  {
    BitsOfZero(k);
    ValueOfBits(b, k);
    ValueOfBits(0, k);
    BitsOfLow(b, k, k);
    LowZero(k);
  }

  lemma {:induction false} LowZero(k: nat)
    ensures Low(0, k) == 0
  {
    LowOfSmall(0, k);
  }

  lemma TailBits(data: seq<byte>, pos: nat, n: nat)
    requires pos <= 8 * |data| < pos + n && n == 8 && data != []
    ensures ToBits(data)[pos..] == BitsOf(data[|data| - 1], 8 * |data| - pos)
  {
    hide ToBits, BitsOf;
    var last, k := |data| - 1, 8 * |data| - pos;
    ToBitsAt(data, last);
    ByteBitsOf(data[last], n);
    BitsSplit(data[last], n - k, k);
    assert ToBits(data)[pos..] == ToBits(data)[8 * last..8 * last + n][n - k..];
  }

  lemma SplitEq(head: seq<bool>, tail: seq<bool>, other: seq<bool>)
    requires |tail| == |other|
    ensures head + tail == head + other <==> tail == other
  {
    if head + tail == head + other {
      assert (head + tail)[|head|..] == tail;
      assert (head + other)[|head|..] == other;
    }
  }

  lemma HoldsIff(d: seq<byte>, head: seq<bool>, tail: seq<bool>, k: nat)
    requires ToBits(d) == head + tail && |tail| == k
    ensures Holds(d, head) <==> tail == Zeros(k)
  {
    hide ToBits, Zeros;
    SplitEq(head, tail, Zeros(k));
  }

  lemma HeldPrefix(d: seq<byte>, bits: seq<bool>)
    requires Holds(d, bits)
    ensures |bits| <= 8 * |d| && ToBits(d)[..|bits|] == bits
  {
    hide ToBits, Zeros;
    var tail := Zeros(8 * |d| - |bits|);
    assert (bits + tail)[..|bits|] == bits;
  }

  lemma PatchedLast(d: seq<byte>, pos: nat, k: nat)
    requires d != [] && 8 * |d| == pos + k && k < 8
    ensures Holds(d, ToBits(d)[..pos]) <==> Low(d[|d| - 1], k) == 0
  {
    hide ToBits, Zeros, Holds, Low, BitsOf;
    var bits := ToBits(d);
    assert bits == bits[..pos] + bits[pos..];
    HoldsIff(d, bits[..pos], bits[pos..], k);
    TailBits(d, pos, 8);
    ZeroBitsIff(d[|d| - 1], k);
  }

  lemma PatchedInside(data: seq<byte>, bits: seq<bool>, at: nat, bytes: seq<byte>)
    requires Holds(data, bits) && 8 * (at + |bytes|) <= |bits| && at + |bytes| <= |data|
    ensures Holds(Overwritten(data, at, bytes), Overwritten(bits, 8 * at, ToBits(bytes)))
  {
    hide ToBits, Zeros, Holds, Overwritten;
    var j, code := at + |bytes|, ToBits(bytes);
    HoldsPatched(data, bits, at, bytes, j);
    OverwrittenIs(data, at, bytes, j);
    OverwrittenIs(bits, 8 * at, code, 8 * j);
  }

  lemma OverwrittenIs<T>(s: seq<T>, at: nat, part: seq<T>, end: nat)
    requires at + |part| == end <= |s|
    ensures Overwritten(s, at, part) == s[..at] + part + s[end..]
  {
  }

  lemma PatchedEnd(data: seq<byte>, pos: nat, at: nat, bytes: seq<byte>, k: nat)
    requires at + |bytes| == |data| && bytes != [] && 8 * |data| == pos + k && k < 8
    ensures var d := Overwritten(data, at, bytes);
      Holds(d, ToBits(d)[..pos]) <==> Low(bytes[|bytes| - 1], k) == 0
  {
    hide ToBits, Holds, Low;
    var d := Overwritten(data, at, bytes);
    assert d[|d| - 1] == bytes[|bytes| - 1];
    PatchedLast(d, pos, k);
  }

  /** After an overwrite the invariant holds again exactly when the tail is kept. */
  lemma PatchedHolds(data: seq<byte>, bits: seq<bool>, at: nat, bytes: seq<byte>)
    requires Holds(data, bits) && |data| == (|bits| + 7) / 8 && at + |bytes| <= |data|
    ensures var d := Overwritten(data, at, bytes);
      && (Holds(d, ToBits(d)[..|bits|]) <==> KeepsTail(|bits|, |data|, at, bytes))
      && (8 * (at + |bytes|) <= |bits| ==> ToBits(d)[..|bits|] == Overwritten(bits, 8 * at, ToBits(bytes)))
  {
    hide ToBits, Holds, Low, Overwritten;
    if 8 * (at + |bytes|) <= |bits| {
      PatchedInside(data, bits, at, bytes);
      HeldPrefix(Overwritten(data, at, bytes), Overwritten(bits, 8 * at, ToBits(bytes)));
    } else if bytes == [] {
      OverwriteNothing(data, at);
      HeldPrefix(data, bits);
    } else {
      PatchedEnd(data, |bits|, at, bytes, 8 * |data| - |bits|);
    }
  }

  lemma OverwriteNothing(data: seq<byte>, at: nat)
    requires at <= |data|
    ensures Overwritten(data, at, []) == data
  {
  }

  class BitWriter {
    var data: seq<byte>
    var bitPos: nat
    var error: Option<ErrorCode>
    /** The bits written so far. */
    ghost var contents: seq<bool>

    /** The buffer has exactly the bytes the position needs, and its unused tail bits are zero. */
    ghost predicate Valid()
      reads this
    {
      && bitPos == |contents|
      && |data| == (bitPos + 7) / 8
      && Holds(data, contents)
    }

    /** A write that appends code, unless an error was or is now recorded. */
    ghost predicate Appended(was: seq<bool>, err: Option<ErrorCode>, code: Result<seq<bool>>)
      reads this
    {
      && Valid()
      && (err.Some? ==> contents == was && error == err)
      && (err.None? && code.Ok? ==> contents == was + code.value && error.None?)
      && (err.None? && code.Err? ==> contents == was && error == Some(code.error))
    }

    constructor ()
      ensures Valid() && contents == [] && error.None?
    {
      data, bitPos, error, contents := [], 0, None, [];
    }

    function SizeBytes(): nat
      reads this
    {
      (bitPos + 7) / 8
    }

    method SetError(code: ErrorCode)
      modifies this`error
      ensures error == if old(error).Some? then old(error) else Some(code)
    {
      if error.None? { error := Some(code); }
    }

    /** Or a byte into the last byte, advancing over the bits it carries. */
    method OrLast(v: byte, count: nat, ghost ins: seq<bool>)
      requires bitPos == |contents| && Holds(data, contents)
      requires |ins| == count && |data| == bitPos / 8 + 1 && bitPos % 8 + count <= 8
      requires ByteBits(v) == Zeros(bitPos % 8) + ins + Zeros(8 - bitPos % 8 - count)
      modifies this
      ensures bitPos == old(bitPos) + count && |data| == old(|data|) && error == old(error)
      ensures contents == old(contents) + ins
      ensures bitPos == |contents| && Holds(data, contents)
    {
      OrTail(data, contents, ins, v);
      data := data[bitPos / 8 := OrByte(data[bitPos / 8], v)];
      bitPos := bitPos + count;
      contents := contents + ins;
    }

    method WriteBit(bit: bool)
      requires Valid()
      modifies this
      ensures Valid() && error == old(error)
      ensures contents == old(contents) + [bit]
    {
      hide ToBits;
      if bitPos % 8 == 0 {
        HoldsAppend(data, contents, 0);
        data := data + [0];
      }
      if bit {
        MaskBits(1, 1, 7 - bitPos % 8, bitPos % 8);
        OrLast(Mask(1, 1, 7 - bitPos % 8), 1, BitsOf(1, 1));
      } else {
        bitPos := bitPos + 1;
        contents := contents + [false];
        assert old(contents) + Zeros(8 * |data| - |old(contents)|) == contents + Zeros(8 * |data| - |contents|);
      }
    }

    /** Push one byte at an aligned position. */
    method PushByte(b: byte)
      requires Valid() && bitPos % 8 == 0
      modifies this
      ensures Valid() && error == old(error)
      ensures data == old(data) + [b] && contents == old(contents) + ByteBits(b)
    {
      HoldsAppend(data, contents, b);
      data := data + [b];
      bitPos := bitPos + 8;
      contents := contents + ByteBits(b);
    }

    /** The whole-byte loop of write_bits, for the bits of value above the lowest few. */
    method WriteWholeBytes(value: u64, fullBytes: nat, remaining: nat)
      requires Valid() && bitPos % 8 == 0
      modifies this
      ensures Valid() && error == old(error) && bitPos % 8 == 0
      ensures contents == old(contents) + BitsOf(Shr(value, remaining), 8 * fullBytes)
    {
      hide ToBits, BitsOf, Shr, ByteBits;
      var i := 0;
      while i < fullBytes
        invariant 0 <= i <= fullBytes
        invariant Valid() && error == old(error) && bitPos % 8 == 0
        invariant contents == old(contents) + BitsOf(Shr(value, 8 * (fullBytes - i) + remaining), 8 * i)
      {
        var shift := (fullBytes - 1 - i) * 8 + remaining;
        ghost var soFar := BitsOf(Shr(value, shift + 8), 8 * i);
        NextByte(value, shift, 8 * i, 8);
        PushByte(ToByte(Shr(value, shift)));
        assert contents == old(contents) + (soFar + ByteBits(ToByte(Shr(value, shift))));
        i := i + 1;
      }
    }

    method WriteBits(value: u64, count: nat)
      requires Valid()
      modifies this
      ensures Appended(old(contents), old(error), BitsCode(value, count))
    {
      if error.Some? { return; }
      if count > 64 {
        SetError(EncodingFailed);
        return;
      }
      if count == 0 { return; }
      if bitPos % 8 == 0 {
        WriteAligned(value, count);
      } else {
        WriteUnaligned(value, count);
      }
    }

    /** Fast path of write_bits: whole bytes, then the leftover bits one by one. */
    method WriteAligned(value: u64, count: nat)
      requires Valid() && bitPos % 8 == 0
      modifies this
      ensures Valid() && error == old(error)
      ensures contents == old(contents) + BitsOf(value, count)
    {
      hide ToBits, Holds, BitsOf, Shr, Bit;
      var remaining := count % 8;
      WriteWholeBytes(value, count / 8, remaining);
      var i := remaining;
      while i > 0
        invariant 0 <= i <= remaining
        invariant Valid() && error == old(error)
        invariant contents == old(contents) + BitsOf(Shr(value, i), count - i)
      {
        NextBit(value, i, count - i);
        WriteBit(Bit(value, i - 1));
        i := i - 1;
      }
      NoShift(value);
    }

    /** Bits that fit in the current partial byte. */
    method FillPartial(value: u64, count: nat)
      requires Valid() && 0 < bitPos % 8 && count <= 8 - bitPos % 8
      modifies this
      ensures Valid() && error == old(error) && bitPos == old(bitPos) + count
      ensures contents == old(contents) + BitsOf(value, count)
    {
      var lead := bitPos % 8;
      MaskBits(value, count, 8 - lead - count, lead);
      OrLast(Mask(value, count, 8 - lead - count), count, BitsOf(value, count));
    }

    /** The last partial byte of an unaligned write. */
    method WriteLeftover(value: u64, count: nat)
      requires Valid() && bitPos % 8 == 0 && 0 < count < 8
      modifies this
      ensures Valid() && error == old(error)
      ensures contents == old(contents) + BitsOf(value, count)
    {
      HoldsAppend(data, contents, 0);
      data := data + [0];
      MaskBits(value, count, 8 - count, 0);
      OrLast(Mask(value, count, 8 - count), count, BitsOf(value, count));
    }

    /** Slow path of write_bits: top up the current byte, whole bytes, then a partial byte. */
    method WriteUnaligned(value: u64, count: nat)
      requires Valid() && bitPos % 8 != 0
      modifies this
      ensures Valid() && error == old(error)
      ensures contents == old(contents) + BitsOf(value, count)
    {
      hide ToBits, BitsOf, Shr, Holds;
      var bitsToAlign := 8 - bitPos % 8;
      if count <= bitsToAlign {
        FillPartial(value, count);
      } else {
        var rest := count - bitsToAlign;
        var fullBytes, remaining := rest / 8, rest % 8;
        ShrBound(value, rest);
        FillPartial(Shr(value, rest), bitsToAlign);
        WriteWholeBytes(value, fullBytes, remaining);
        if remaining > 0 {
          WriteLeftover(value, remaining);
        }
        Joined(old(contents), value, bitsToAlign, 8 * fullBytes, remaining);
      }
    }

    method WriteSignedBits(value: i64, count: nat)
      requires Valid()
      modifies this
      ensures Appended(old(contents), old(error), BitsCode(ToU64(value), count))
    {
      if error.Some? { return; }
      WriteBits(ToU64(value), count);
    }

    // ------------------------------------------------- aviation wire encodings

    /** The digit loop: nibbles of v, and what is left of v above them. */
    method PackDigits(value: nat, nibbles: nat) returns (raw: u64, left: nat)
      requires nibbles <= 16
      ensures raw == BcdRaw(value, nibbles) && raw < Pow2(4 * nibbles)
      ensures left == 0 <==> value < Pow10(nibbles)
    {
      raw, left := 0, value;
      var i := 0;
      while i < nibbles
        invariant 0 <= i <= nibbles
        invariant raw == BcdRaw(value, i) && left == DropDigits(value, i)
      {
        var digit := left % 10;
        PackOneDigit(value, i);
        raw := Or(raw, Shl(digit, i * 4));
        left := left / 10;
        i := i + 1;
      }
      BcdRawBound(value, nibbles);
      NothingLeft(value, nibbles);
    }

    method WriteBcd(value: u64, bits: nat)
      requires Valid()
      modifies this
      ensures Appended(old(contents), old(error), BcdCode(value, bits))
    {
      if error.Some? { return; }
      if bits % 4 != 0 {
        SetError(EncodingFailed);
        return;
      }
      if bits == 0 { return; }
      if bits / 4 > 16 {
        SetError(EncodingFailed);
        return;
      }
      var raw, left := PackDigits(value, bits / 4);
      if left != 0 {
        SetError(EncodeConstraintViolation);
        return;
      }
      WriteBits(raw, bits);
    }

    method WriteBcdSigned(value: i64, bits: nat)
      requires Valid()
      modifies this
      ensures Appended(old(contents), old(error), BcdSignedCode(value, bits))
    {
      hide ToBits, BitsOf;
      if error.Some? { return; }
      if bits < 5 || (bits - 1) % 4 != 0 || (bits - 1) / 4 > 15 {
        SetError(EncodingFailed);
        return;
      }
      var negative := value < 0;
      var raw, left := PackDigits(Magnitude(value), (bits - 1) / 4);
      if left != 0 {
        SetError(EncodeConstraintViolation);
        return;
      }
      WriteSignedWord(negative, raw, bits);
    }

    method WriteSignMagnitude(value: i64, bits: nat)
      requires Valid() && bits <= 64
      modifies this
      ensures Appended(old(contents), old(error), SignMagnitudeCode(value, bits))
    {
      hide ToBits, BitsOf;
      if error.Some? { return; }
      if bits < 2 {
        SetError(EncodingFailed);
        return;
      }
      var negative := value < 0;
      var magnitude := Magnitude(value);
      var magMask := Shl(1, bits - 1) - 1;
      ShlIsMultiplication(1, bits - 1);
      if magnitude > magMask {
        SetError(EncodeConstraintViolation);
        return;
      }
      RawFits(magnitude, bits);
      LowOfSmall(magnitude, bits - 1);
      WriteSignedWord(negative, Low(magnitude, bits - 1), bits);
    }

    /** Set the sign bit above a payload, then write. */
    method WriteSignedWord(negative: bool, payload: u64, bits: nat)
      requires Valid() && error.None? && 0 < bits <= 64 && payload < Pow2(bits - 1)
      modifies this
      ensures Appended(old(contents), old(error), Ok(BitsOf(Signed(negative, payload, bits - 1), bits)))
    {
      var raw := payload;
      SignBit(negative, payload, bits - 1);
      RawFits(Signed(negative, payload, bits - 1), bits);
      if negative {
        SetSignBit(payload, bits - 1);
        raw := Or(raw, Shl(1, bits - 1));
      }
      WriteBits(raw, bits);
    }

    // ------------------------------------------------------ byte-level writing

    method AlignToByte()
      requires Valid()
      modifies this
      ensures Valid() && error == old(error) && data == old(data)
      ensures contents == Pad(old(contents))
    {
      hide ToBits;
      var remainder := bitPos % 8;
      if remainder == 0 { return; }
      PadHeld(data, contents);
      bitPos := bitPos + (8 - remainder);
      contents := Pad(contents);
    }

    /** Whole bytes after alignment: the body shared by every byte-level write. */
    method PushBytes(bytes: seq<byte>)
      requires Valid() && error.None?
      modifies this
      ensures Appended(old(contents), old(error), ByteCode(old(bitPos), bytes))
      ensures data == old(data) + bytes && bitPos % 8 == 0
    {
      hide ToBits;
      AlignToByte();
      HoldsBytes(data, contents, bytes);
      data := data + bytes;
      bitPos := bitPos + 8 * |bytes|;
      contents := contents + ToBits(bytes);
    }

    method WriteU8(value: byte)
      requires Valid()
      modifies this
      ensures Appended(old(contents), old(error), ByteCode(old(bitPos), [value]))
      ensures old(error).None? ==> data == old(data) + [value] && bitPos % 8 == 0
    {
      if error.Some? { return; }
      PushBytes([value]);
    }

    method WriteU16(value: nat, e: Order)
      requires Valid() && value < 65536
      modifies this
      ensures Appended(old(contents), old(error), ByteCode(old(bitPos), UintBytes(value, 2, e)))
      ensures old(error).None? ==> data == old(data) + UintBytes(value, 2, e) && bitPos % 8 == 0
    {
      if error.Some? { return; }
      var b0, b1 := ByteAt(value, 0), ByteAt(value, 1);
      if e.Big? {
        assert [b1, b0] == BigBytes(value, 2);
        PushBytes([b1, b0]);
      } else {
        assert [b0, b1] == LittleBytes(value, 2);
        PushBytes([b0, b1]);
      }
    }

    method WriteU32(value: nat, e: Order)
      requires Valid() && value < 0x1_0000_0000
      modifies this
      ensures Appended(old(contents), old(error), ByteCode(old(bitPos), UintBytes(value, 4, e)))
      ensures old(error).None? ==> data == old(data) + UintBytes(value, 4, e) && bitPos % 8 == 0
    {
      if error.Some? { return; }
      var b0, b1, b2, b3 := ByteAt(value, 0), ByteAt(value, 1), ByteAt(value, 2), ByteAt(value, 3);
      if e.Big? {
        assert [b3, b2, b1, b0] == BigBytes(value, 4);
        PushBytes([b3, b2, b1, b0]);
      } else {
        assert [b0, b1, b2, b3] == LittleBytes(value, 4);
        PushBytes([b0, b1, b2, b3]);
      }
    }

    method WriteU64(value: u64, e: Order)
      requires Valid()
      modifies this
      ensures Appended(old(contents), old(error), ByteCode(old(bitPos), UintBytes(value, 8, e)))
      ensures old(error).None? ==> data == old(data) + UintBytes(value, 8, e) && bitPos % 8 == 0
    {
      if error.Some? { return; }
      var b0, b1, b2, b3 := ByteAt(value, 0), ByteAt(value, 1), ByteAt(value, 2), ByteAt(value, 3);
      var b4, b5, b6, b7 := ByteAt(value, 4), ByteAt(value, 5), ByteAt(value, 6), ByteAt(value, 7);
      if e.Big? {
        assert [b7, b6, b5, b4, b3, b2, b1, b0] == BigBytes(value, 8);
        PushBytes([b7, b6, b5, b4, b3, b2, b1, b0]);
      } else {
        assert [b0, b1, b2, b3, b4, b5, b6, b7] == LittleBytes(value, 8);
        PushBytes([b0, b1, b2, b3, b4, b5, b6, b7]);
      }
    }

    method WriteBytes(bytes: seq<byte>)
      requires Valid()
      modifies this
      ensures Appended(old(contents), old(error), ByteCode(old(bitPos), bytes))
      ensures old(error).None? ==> data == old(data) + bytes && bitPos % 8 == 0
    {
      if error.Some? { return; }
      PushBytes(bytes);
    }

    // -------------------------------------------------- alignment and patching

    /** Zero bytes up to a multiple of the boundary; nothing but the byte alignment after an error. */
    method AlignTo(boundary: nat)
      requires Valid()
      modifies this
      ensures Valid() && error == old(error)
      ensures old(error).None? ==> contents == old(contents) + Zeros(AlignGap(|old(contents)|, boundary))
      ensures old(error).Some? ==> contents == if boundary == 0 then old(contents) else Pad(old(contents))
    {
      hide ToBits;
      if boundary == 0 { return; }
      AlignToByte();
      assert SizeBytes() == |contents| / 8;
      var remainder := SizeBytes() % boundary;
      if remainder != 0 {
        WriteZeroBytes(boundary - remainder);
      }
    }

    /** The padding loop of align_to. */
    method WriteZeroBytes(padding: nat)
      requires Valid() && bitPos % 8 == 0
      modifies this
      ensures Valid() && error == old(error)
      ensures contents == old(contents) + Zeros(if error.None? then 8 * padding else 0)
    {
      var i := 0;
      while i < padding
        invariant 0 <= i <= padding
        invariant Valid() && error == old(error) && bitPos % 8 == 0
        invariant contents == old(contents) + Zeros(if error.None? then 8 * i else 0)
      {
        ZeroByteCode(bitPos);
        WriteU8(0);
        i := i + 1;
      }
    }

    /** Overwrite bytes written before; the zero tail survives exactly when the partial last byte keeps it. */
    method Patch(byteOffset: nat, bytes: seq<byte>) returns (ok: bool)
      requires Valid()
      modifies this
      ensures bitPos == old(bitPos) == |contents|
      ensures ok <==> old(error).None? && byteOffset + |bytes| <= old(|data|)
      ensures ok ==> error.None? && data == Overwritten(old(data), byteOffset, bytes) && contents <= ToBits(data)
      ensures ok ==> (Valid() <==> KeepsTail(bitPos, |data|, byteOffset, bytes))
      ensures ok && 8 * (byteOffset + |bytes|) <= bitPos ==>
        Valid() && contents == Overwritten(old(contents), 8 * byteOffset, ToBits(bytes))
      ensures !ok ==> Valid() && contents == old(contents)
      ensures !ok ==> error == if old(error).Some? then old(error) else Some(BufferOverrun)
    {
      hide ToBits, Holds, Overwritten;
      if error.Some? { return false; }
      if byteOffset + |bytes| > |data| {
        SetError(BufferOverrun);
        return false;
      }
      PatchedHolds(data, contents, byteOffset, bytes);
      data := Overwritten(data, byteOffset, bytes);
      contents := ToBits(data)[..bitPos];
      return true;
    }

    // ------------------------------------------------------------------- output

    /** The padded bytes, or the recorded error; either way the writer is empty again. */
    method Finish() returns (r: Result<seq<byte>>)
      requires Valid()
      modifies this
      ensures Valid() && contents == [] && error.None?
      ensures old(error).Some? ==> r == Err(old(error).value)
      ensures old(error).None? ==> r.Ok? && r.value == old(data) && ToBits(r.value) == Pad(old(contents))
    {
      hide ToBits;
      if error.Some? {
        r := Err(error.value);
        data, bitPos, error, contents := [], 0, None, [];
        return;
      }
      AlignToByte();
      r := Ok(data);
      data, bitPos, contents := [], 0, [];
    }

    method Clear()
      modifies this
      ensures Valid() && contents == [] && error.None?
    {
      data, bitPos, error, contents := [], 0, None, [];
    }
  }
}
