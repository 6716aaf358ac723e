/**
  Decimal digits packed in nibbles (BCD), sign and magnitude, and two's complement,
  as numbers: what each writer packs and what each reader unpacks.
 */
module Decimal {
  import opened Bits
  import opened Errors

  const TWO_64: nat := 0x1_0000_0000_0000_0000

  function Pow10(k: nat): (p: nat)
    ensures p > 0
  {
    if k == 0 then 1 else 10 * Pow10(k - 1)
  }

  /** Digit i of v is nibble i of the result. */
  function BcdRaw(v: nat, k: nat): nat
    decreases k
  {
    if k == 0 then 0 else 16 * BcdRaw(v / 10, k - 1) + v % 10
  }

  /** The number k nibbles denote, if each of them is a decimal digit. */
  function BcdValue(raw: nat, k: nat): Option<nat>
    decreases k
  {
    if k == 0 then Some(0)
    else if raw % 16 > 9 then None
    else match BcdValue(raw / 16, k - 1)
      case None => None
      case Some(high) => Some(10 * high + raw % 16)
  }

  /** v without its i lowest digits. */
  function DropDigits(v: nat, i: nat): nat
    decreases i
  {
    if i == 0 then v else DropDigits(v / 10, i - 1)
  }

  lemma Pow10Values()
    ensures Pow10(15) == 1_000_000_000_000_000 && Pow10(16) == 10_000_000_000_000_000
  {
    assert Pow10(4) == 10_000;
    assert Pow10(8) == 100_000_000;
    assert Pow10(12) == 1_000_000_000_000;
  }

  lemma {:induction false} Pow10Mono(a: nat, b: nat)
    requires a <= b
    ensures Pow10(a) <= Pow10(b)
  {
    if a < b { Pow10Mono(a, b - 1); }
  }

  /** The packing loop tests "does it fit" by what is left after k digits. */
  lemma {:induction false} NothingLeft(v: nat, k: nat)
    ensures DropDigits(v, k) == 0 <==> v < Pow10(k)
    decreases k
  {
    if k > 0 { NothingLeft(v / 10, k - 1); }
  }

  lemma {:induction false} DropOneMore(v: nat, i: nat)
    ensures DropDigits(v, i + 1) == DropDigits(v, i) / 10
    decreases i
  {
    if i > 0 { DropOneMore(v / 10, i - 1); }
  }

  lemma NibbleShift(x: nat, n: nat)
    requires n == 4
    ensures Shr(x, n) == x / 16 && Low(x, n) == x % 16 && Shl(x, n) == 16 * x && Pow2(n) == 16
  {
    ShiftMeaning(x, n);
    assert Pow2(4) == 16;
  }

  lemma {:induction false} BcdRawBound(v: nat, k: nat)
    ensures BcdRaw(v, k) < Pow2(4 * k)
    decreases k
  {
    if k > 0 {
      BcdRawBound(v / 10, k - 1);
      Pow2Add(4 * (k - 1), 4);
      NibbleShift(Pow2(4 * (k - 1)), 4);
    }
  }

  /** The packing loop adds one digit above the ones it has. */
  lemma {:induction false} BcdRawNext(v: nat, i: nat)
    ensures BcdRaw(v, i + 1) == Shl(DropDigits(v, i) % 10, 4 * i) + BcdRaw(v, i)
    decreases i
  {
    if i > 0 {
      BcdRawNext(v / 10, i - 1);
      ShlNibble(DropDigits(v, i) % 10, i - 1);
    }
  }

  lemma ShlNibble(d: nat, i: nat)
    ensures Shl(d, 4 * i + 4) == 16 * Shl(d, 4 * i)
  {
    assert Shl(d, 4 * i + 2) == 4 * Shl(d, 4 * i);
  }

  lemma {:induction false} ShrNibble(x: nat, i: nat)
    ensures Shr(x, 4 * i + 4) == Shr(x, 4 * i) / 16
  {
    ShiftTwice(x, 4 * i, 4);
    NibbleShift(Shr(x, 4 * i), 4);
  }

  /** Nibble i, counted from the low end. */
  function Nibble(raw: nat, i: nat): nat {
    Shr(raw, 4 * i) % 16
  }

  lemma NibbleAbove(raw: nat, i: nat, n: nat)
    requires i > 0 && n == 4
    ensures Nibble(raw, i) == Nibble(raw / 16, i - 1)
  {
    hide Shr;
    ShiftTwice(raw, n, 4 * (i - 1));
    NibbleShift(raw, n);
    assert n + 4 * (i - 1) == 4 * i;
  }

  /** Packed: nibble i is the i-th decimal digit. */
  lemma {:induction false} BcdDigits(v: nat, k: nat, i: nat)
    requires i < k
    ensures Nibble(BcdRaw(v, k), i) == (v / Pow10(i)) % 10
    decreases k
  {
    hide Nibble;
    var high := BcdRaw(v / 10, k - 1);
    assert (16 * high + v % 10) / 16 == high;
    if i == 0 {
      LowNibble(16 * high + v % 10);
    } else {
      NibbleAbove(BcdRaw(v, k), i, 4);
      BcdDigits(v / 10, k - 1, i - 1);
      DigitAbove(v, i);
    }
  }

  lemma LowNibble(raw: nat)
    ensures Nibble(raw, 0) == raw % 16
  {
  }

  lemma DigitAbove(v: nat, i: nat)
    requires i > 0
    ensures v / Pow10(i) == (v / 10) / Pow10(i - 1)
  {
    var p, q := Pow10(i - 1), (v / 10) / Pow10(i - 1);
    var r := (v / 10) % p;
    assert v == 10 * (v / 10) + v % 10 && v / 10 == p * q + r;
    assert v == (10 * p) * q + (10 * r + v % 10);
    DivUnique(v, 10 * p, q, 10 * r + v % 10);
  }

  /** Unpacking refuses exactly what has a nibble above nine. */
  lemma {:induction false} BcdRefusedIff(raw: nat, k: nat)
    ensures BcdValue(raw, k).None? <==> exists i :: 0 <= i < k && Nibble(raw, i) > 9
    decreases k
  {
    hide Nibble;
    if k > 0 {
      LowNibble(raw);
      BcdRefusedIff(raw / 16, k - 1);
      if i :| 0 <= i < k - 1 && Nibble(raw / 16, i) > 9 {
        NibbleAbove(raw, i + 1, 4);
        assert Nibble(raw, i + 1) > 9;
      } else {
        forall i | 0 < i < k ensures Nibble(raw, i) <= 9 {
          NibbleAbove(raw, i, 4);
        }
      }
    }
  }

  // ----------------------------------------------------------------- round trips

  /** Packing then unpacking returns the value, as soon as it fits. */
  lemma {:induction false} BcdUnpackPacked(v: nat, k: nat)
    requires v < Pow10(k)
    ensures BcdValue(BcdRaw(v, k), k) == Some(v)
    decreases k
  {
    if k > 0 {
      var high, d := BcdRaw(v / 10, k - 1), v % 10;
      assert (16 * high + d) / 16 == high && (16 * high + d) % 16 == d;
      BcdUnpackPacked(v / 10, k - 1);
    }
  }

  /** Whatever unpacks packs again to the same nibbles, and fits. */
  lemma {:induction false} BcdPackUnpacked(raw: nat, k: nat)
    requires raw < Pow2(4 * k) && BcdValue(raw, k).Some?
    ensures BcdValue(raw, k).value < Pow10(k)
    ensures BcdRaw(BcdValue(raw, k).value, k) == raw
    decreases k
  {
    if k > 0 {
      Pow2Add(4 * (k - 1), 4);
      NibbleShift(Pow2(4 * (k - 1)), 4);
      BcdPackUnpacked(raw / 16, k - 1);
      var v := BcdValue(raw, k).value;
      assert v / 10 == BcdValue(raw / 16, k - 1).value && v % 10 == raw % 16;
    }
  }

  // ------------------------------------------------------ signs and magnitudes

  function Magnitude(v: int): nat {
    if v < 0 then -v else v
  }

  /** A sign bit above k bits of payload. */
  function Signed(negative: bool, payload: nat, k: nat): nat {
    (if negative then Pow2(k) else 0) + payload
  }

  function WithSign(negative: bool, magnitude: nat): int {
    if negative then 0 - magnitude else magnitude
  }

  /** static_cast<uint64_t> of a signed word. */
  function ToU64(v: i64): u64 {
    if v < 0 then v + TWO_64 else v
  }

  /** Sign extension of a count-bit word. */
  function SignExtend(raw: nat, count: nat): int
    requires 0 < count
  {
    if Bit(raw, count - 1) then raw - Pow2(count) else raw
  }

  lemma SignBit(negative: bool, payload: nat, k: nat)
    requires payload < Pow2(k)
    ensures Bit(Signed(negative, payload, k), k) == negative
    ensures Low(Signed(negative, payload, k), k) == payload
    ensures Signed(negative, payload, k) < Pow2(k + 1)
  {
    var s := if negative then 1 else 0;
    ShlIsMultiplication(s, k);
    ShiftBack(s, payload, k);
  }

  /** Setting the sign bit by "or". */
  lemma SetSignBit(payload: nat, k: nat)
    requires payload < Pow2(k)
    ensures Or(payload, Shl(1, k)) == Signed(true, payload, k)
  {
    OrIsSum(1, payload, k);
    ShlIsMultiplication(1, k);
  }

  /** Taking a word apart at its sign bit and putting it back. */
  lemma SignSplit(raw: nat, k: nat)
    requires raw < Pow2(k + 1)
    ensures raw == Signed(Bit(raw, k), Low(raw, k), k)
  {
    ShrLow(raw, k);
    var high := Shr(raw, k);
    assert high < 2 by {
      ShlMono(1, high, k);
      ShlIsMultiplication(1, k);
    }
    ShlIsMultiplication(high, k);
  }

  /** The low count bits of a negative word. */
  lemma LowOfNegative(v: int, count: nat)
    requires count <= 64 && v < 0 && v + Pow2(count) >= 0
    ensures v + TWO_64 >= 0 && Low(v + TWO_64, count) == v + Pow2(count)
  {
    var p, q := Pow2(count), Pow2(64 - count);
    assert p * q == TWO_64 by {
      Pow2Known(count + (64 - count));
      Pow2Add(count, 64 - count);
      ShlIsMultiplication(p, 64 - count);
    }
    assert p * (q - 1) == p * q - p;
    DivUnique(v + TWO_64, p, q - 1, v + p);
    ShiftMeaning(v + TWO_64, count);
  }

  /** Two's complement: extending the sign of the low bits gives back exactly what fits. */
  lemma TwosComplement(v: i64, count: nat)
    requires 0 < count <= 64
    ensures SignExtend(Low(ToU64(v), count), count) == v
       <==> 0 - Pow2(count - 1) <= v < Pow2(count - 1)
  {
    SignExtendRange(Low(ToU64(v), count), count);
    if 0 - Pow2(count - 1) <= v < Pow2(count - 1) {
      if v >= 0 {
        LowOfSmall(v, count);
        SignBit(false, v, count - 1);
      } else {
        LowOfNegative(v, count);
        SignBit(true, v + Pow2(count - 1), count - 1);
      }
    }
  }

  lemma SignExtendRange(raw: nat, count: nat)
    requires 0 < count && raw < Pow2(count)
    ensures 0 - Pow2(count - 1) <= SignExtend(raw, count) < Pow2(count - 1)
  {
    SignSplit(raw, count - 1);
  }
}
