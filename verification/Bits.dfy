/**
  Machine words as numbers and as bit sequences, most significant bit first.
  Shifting and masking are defined one bit at a time; ShiftMeaning ties them to
  division, remainder and multiplication by powers of two.
 */
module Bits {

  type byte = x: int | 0 <= x < 256
  type u64 = x: int | 0 <= x < 0x1_0000_0000_0000_0000
  type i64 = x: int | -0x8000_0000_0000_0000 <= x < 0x8000_0000_0000_0000

  function Pow2(n: nat): (p: nat)
    ensures p > 0
  {
    if n == 0 then 1 else 2 * Pow2(n - 1)
  }

  /** v >> k */
  function Shr(v: nat, k: nat): nat
    decreases k
  {
    if k == 0 then v else Shr(v / 2, k - 1)
  }

  /** v & ((1 << k) - 1) */
  function Low(v: nat, k: nat): (r: nat)
    ensures r < Pow2(k)
    decreases k
  {
    if k == 0 then 0 else 2 * Low(v / 2, k - 1) + v % 2
  }

  /** v << k, before truncation to the word size. */
  function Shl(v: nat, k: nat): nat
    decreases k
  {
    if k == 0 then v else 2 * Shl(v, k - 1)
  }

  /** The low n bits of v, most significant first. */
  function BitsOf(v: nat, n: nat): (bs: seq<bool>)
    ensures |bs| == n
    decreases n
  {
    if n == 0 then [] else BitsOf(v / 2, n - 1) + [v % 2 == 1]
  }

  /** The number a bit sequence denotes, most significant bit first. */
  function ValueOf(bs: seq<bool>): (v: nat)
    ensures v < Pow2(|bs|)
  {
    if bs == [] then 0
    else 2 * ValueOf(bs[..|bs| - 1]) + (if bs[|bs| - 1] then 1 else 0)
  }

  function Zeros(n: nat): (z: seq<bool>)
    ensures |z| == n
  {
    seq(n, _ => false)
  }

  // ------------------------------------------------------ meaning of shifting

  lemma DivUnique(a: int, b: nat, q: int, r: nat)
    requires r < b && a == b * q + r
    ensures a / b == q && a % b == r
  {
    var q0 := a / b;
    var d := q - q0;
    assert b * d == b * q - b * q0;
    assert b * d < b && b * d > 0 - b;
    assert d == 0 by {
      assert d >= 1 ==> b * d >= b;
      assert d <= -1 ==> b * d <= 0 - b;
    }
  }

  lemma {:induction false} ShiftMeaning(v: nat, k: nat)
    ensures Shl(v, k) == v * Pow2(k)
    ensures Shr(v, k) == v / Pow2(k)
    ensures Low(v, k) == v % Pow2(k)
    decreases k
  {
    ShlIsMultiplication(v, k);
    ShrLow(v, k);
    ShlIsMultiplication(Shr(v, k), k);
    DivUnique(v, Pow2(k), Shr(v, k), Low(v, k));
  }

  lemma {:induction false} ShlIsMultiplication(v: nat, k: nat)
    ensures Shl(v, k) == v * Pow2(k)
    decreases k
  {
    if k > 0 {
      ShlIsMultiplication(v, k - 1);
      assert v * (2 * Pow2(k - 1)) == 2 * (v * Pow2(k - 1));
    }
  }

  /** A word is its high part shifted back plus its low part. */
  lemma {:induction false} ShrLow(v: nat, k: nat)
    ensures v == Shl(Shr(v, k), k) + Low(v, k)
    decreases k
  {
    if k > 0 {
      ShrLow(v / 2, k - 1);
    }
  }

  lemma {:induction false} Pow2Add(a: nat, b: nat)
    ensures Pow2(a + b) == Shl(Pow2(a), b)
  {
    if b > 0 { Pow2Add(a, b - 1); }
  }

  lemma {:induction false} Pow2Mono(a: nat, b: nat)
    requires a <= b
    ensures Pow2(a) <= Pow2(b)
  {
    if a < b { Pow2Mono(a, b - 1); }
  }

  lemma Pow2Octave(n: nat)
    ensures Pow2(n + 8) == 256 * Pow2(n)
  {
    assert Pow2(n + 2) == 4 * Pow2(n);
    assert Pow2(n + 4) == 16 * Pow2(n);
    assert Pow2(n + 6) == 64 * Pow2(n);
  }

  /** The powers the word sizes need. */
  lemma {:induction false} Pow2Known(n: nat)
    ensures n == 8 ==> Pow2(n) == 0x100
    ensures n == 16 ==> Pow2(n) == 0x1_0000
    ensures n == 24 ==> Pow2(n) == 0x100_0000
    ensures n == 32 ==> Pow2(n) == 0x1_0000_0000
    ensures n == 40 ==> Pow2(n) == 0x100_0000_0000
    ensures n == 48 ==> Pow2(n) == 0x1_0000_0000_0000
    ensures n == 56 ==> Pow2(n) == 0x100_0000_0000_0000
    ensures n == 63 ==> Pow2(n) == 0x8000_0000_0000_0000
    ensures n == 64 ==> Pow2(n) == 0x1_0000_0000_0000_0000
    decreases if n == 63 then 65 else n
  {
    if n == 63 {
      Pow2Known(n + 1);
    } else if n >= 8 {
      Pow2Octave(n - 8);
      Pow2Known(n - 8);
    }
  }

  lemma {:induction false} ShiftTwice(v: nat, a: nat, b: nat)
    ensures Shr(Shr(v, a), b) == Shr(v, a + b)
    decreases a
  {
    if a > 0 { ShiftTwice(v / 2, a - 1, b); }
  }

  lemma {:induction false} ShiftBack(v: nat, r: nat, k: nat)
    requires r < Pow2(k)
    ensures Shr(Shl(v, k) + r, k) == v && Low(Shl(v, k) + r, k) == r
    decreases k
  {
    if k > 0 {
      assert (Shl(v, k) + r) / 2 == Shl(v, k - 1) + r / 2;
      ShiftBack(v, r / 2, k - 1);
    }
  }

  lemma {:induction false} ShrBound(v: nat, k: nat)
    ensures Shr(v, k) <= v
    decreases k
  {
    if k > 0 { ShrBound(v / 2, k - 1); }
  }

  lemma {:induction false} LowOfSmall(v: nat, k: nat)
    requires v < Pow2(k)
    ensures Low(v, k) == v && Shr(v, k) == 0
    decreases k
  {
    if k > 0 { LowOfSmall(v / 2, k - 1); }
  }

  lemma {:induction false} ShlMono(v: nat, w: nat, k: nat)
    ensures v < w ==> Shl(v, k) + Pow2(k) <= Shl(w, k)
    ensures v == w ==> Shl(v, k) == Shl(w, k)
    decreases k
  {
    if k > 0 { ShlMono(v, w, k - 1); }
  }

  // ----------------------------------------------------- bits and their value

  /** Value after bits: a word's low bits denote its remainder. */
  lemma {:induction false} ValueOfBits(v: nat, n: nat)
    ensures ValueOf(BitsOf(v, n)) == Low(v, n)
    decreases n
  {
    if n > 0 {
      var bs := BitsOf(v, n);
      assert bs[..|bs| - 1] == BitsOf(v / 2, n - 1);
      ValueOfBits(v / 2, n - 1);
    }
  }

  /** Bits after value: every bit sequence is recovered. */
  lemma {:induction false} BitsOfValue(bs: seq<bool>)
    ensures BitsOf(ValueOf(bs), |bs|) == bs
  {
    if bs != [] {
      BitsOfValue(bs[..|bs| - 1]);
    }
  }

  lemma {:induction false} BitsSplit(v: nat, a: nat, b: nat)
    ensures BitsOf(v, a + b) == BitsOf(Shr(v, b), a) + BitsOf(v, b)
    decreases b
  {
    if b > 0 {
      var h, last := v / 2, [v % 2 == 1];
      BitsSplit(h, a, b - 1);
      assert BitsOf(v, a + b) == BitsOf(h, a + (b - 1)) + last;
      assert BitsOf(v, b) == BitsOf(h, b - 1) + last;
      assert (BitsOf(Shr(v, b), a) + BitsOf(h, b - 1)) + last == BitsOf(Shr(v, b), a) + (BitsOf(h, b - 1) + last);
    }
  }

  lemma {:induction false} BitsOfLow(v: nat, n: nat, k: nat)
    requires n <= k
    ensures BitsOf(Low(v, k), n) == BitsOf(v, n)
    decreases n
  {
    if n > 0 {
      BitsOfLow(v / 2, n - 1, k - 1);
    }
  }

  lemma {:induction false} BitsOfZero(n: nat)
    ensures BitsOf(0, n) == Zeros(n)
  {
    if n > 0 { BitsOfZero(n - 1); }
  }

  lemma BitsOfSmall(v: nat, m: nat, n: nat)
    requires v < Pow2(n)
    ensures BitsOf(v, m + n) == Zeros(m) + BitsOf(v, n)
  {
    BitsSplit(v, m, n);
    LowOfSmall(v, n);
    BitsOfZero(m);
  }

  /** Shifting left appends zero bits. */
  lemma {:induction false} BitsOfShifted(v: nat, n: nat, k: nat)
    ensures BitsOf(Shl(v, k), n + k) == BitsOf(v, n) + Zeros(k)
    decreases k
  {
    if k > 0 {
      BitsOfShifted(v, n, k - 1);
      assert Zeros(k) == Zeros(k - 1) + [false];
    }
  }

  lemma {:induction false} ValueOfConcat(a: seq<bool>, b: seq<bool>)
    ensures ValueOf(a + b) == Shl(ValueOf(a), |b|) + ValueOf(b)
  {
    if b == [] {
      assert a + b == a;
    } else {
      var b' := b[..|b| - 1];
      assert (a + b)[..|a + b| - 1] == a + b';
      ValueOfConcat(a, b');
    }
  }

  /** Whether v & (1 << k) is non-zero. */
  predicate Bit(v: nat, k: nat) {
    Shr(v, k) % 2 == 1
  }

  lemma {:induction false} BitsAt(v: nat, n: nat, i: nat)
    requires i < n
    ensures BitsOf(v, n)[i] == Bit(v, n - 1 - i)
    decreases n
  {
    if i < n - 1 {
      BitsAt(v / 2, n - 1, i);
    }
  }

  // ---------------------------------------------------------------- bitwise or

  function ZipOr(a: seq<bool>, b: seq<bool>): (c: seq<bool>)
    requires |a| == |b|
    ensures |c| == |a| && forall i :: 0 <= i < |c| ==> c[i] == (a[i] || b[i])
  {
    seq(|a|, i requires 0 <= i < |a| => a[i] || b[i])
  }

  /** a | b */
  function Or(a: nat, b: nat): nat
    decreases a + b
  {
    if a + b == 0 then 0
    else 2 * Or(a / 2, b / 2) + (if a % 2 == 1 || b % 2 == 1 then 1 else 0)
  }

  /** Bitwise or, bit by bit at every width. */
  lemma {:induction false} BitsOfOr(a: nat, b: nat, n: nat)
    ensures BitsOf(Or(a, b), n) == ZipOr(BitsOf(a, n), BitsOf(b, n))
    decreases n
  {
    if n > 0 {
      assert Or(a, b) / 2 == Or(a / 2, b / 2);
      BitsOfOr(a / 2, b / 2, n - 1);
    }
  }

  lemma {:induction false} OrBound(a: nat, b: nat, n: nat)
    requires a < Pow2(n) && b < Pow2(n)
    ensures Or(a, b) < Pow2(n)
    decreases n
  {
    if n > 0 { OrBound(a / 2, b / 2, n - 1); }
  }

  lemma {:induction false} OrZero(a: nat)
    ensures Or(a, 0) == a && Or(0, a) == a
  {
    if a > 0 { OrZero(a / 2); }
  }

  /** Or with no common one bits is addition: one word holds the high part, the other the low k bits. */
  lemma {:induction false} OrIsSum(high: nat, low: nat, k: nat)
    requires low < Pow2(k)
    ensures Or(Shl(high, k), low) == Shl(high, k) + low
    ensures Or(low, Shl(high, k)) == Shl(high, k) + low
    decreases k
  {
    if k == 0 {
      OrZero(high);
    } else {
      assert Shl(high, k) / 2 == Shl(high, k - 1) && Shl(high, k) % 2 == 0;
      OrIsSum(high, low / 2, k - 1);
    }
  }

  // ---------------------------------------------------------- bytes and bits

  /** The eight bits of a byte, most significant first. */
  function ByteBits(b: byte): (bs: seq<bool>)
    ensures |bs| == 8
  {
    seq(8, i requires 0 <= i < 8 => Bit(b, 7 - i))
  }

  lemma ByteBitsOf(b: byte, n: nat)
    requires n == 8
    ensures ByteBits(b) == BitsOf(b, n)
  {
    forall i | 0 <= i < n ensures ByteBits(b)[i] == BitsOf(b, n)[i] {
      BitsAt(b, n, i);
    }
  }

  /** uint8_t(v) */
  function ToByte(v: nat): byte {
    v % 256
  }

  lemma ToByteBits(v: nat, n: nat)
    requires n == 8
    ensures ByteBits(ToByte(v)) == BitsOf(v, n)
    ensures ToByte(v) == Low(v, n)
  {
    Pow2Known(n);
    ShiftMeaning(v, n);
    ByteBitsOf(ToByte(v), n);
    BitsOfLow(v, n, n);
  }

  /** The bits of a byte buffer, first byte first. */
  function ToBits(data: seq<byte>): (bs: seq<bool>)
    ensures |bs| == 8 * |data|
  {
    if data == [] then [] else ToBits(data[..|data| - 1]) + ByteBits(data[|data| - 1])
  }

  lemma {:induction false} ToBitsConcat(a: seq<byte>, b: seq<byte>)
    ensures ToBits(a + b) == ToBits(a) + ToBits(b)
  {
    if b == [] {
      assert a + b == a;
    } else {
      var b' := b[..|b| - 1];
      assert (a + b)[..|a + b| - 1] == a + b';
      ToBitsConcat(a, b');
    }
  }

  lemma ToBitsThree(a: seq<byte>, b: seq<byte>, c: seq<byte>)
    ensures ToBits(a + b + c) == ToBits(a) + ToBits(b) + ToBits(c)
  {
    ToBitsConcat(a + b, c);
    ToBitsConcat(a, b);
  }

  lemma ToBitsOne(b: byte)
    ensures ToBits([b]) == ByteBits(b)
  {
    assert [b][..0] == [];
  }

  lemma ToBitsTake(data: seq<byte>, i: nat)
    requires i <= |data|
    ensures ToBits(data[..i]) == ToBits(data)[..8 * i]
    ensures ToBits(data[i..]) == ToBits(data)[8 * i..]
  {
    var a, b := data[..i], data[i..];
    ToBitsConcat(a, b);
    assert a + b == data;
    assert (ToBits(a) + ToBits(b))[..8 * i] == ToBits(a);
    assert (ToBits(a) + ToBits(b))[8 * i..] == ToBits(b);
  }

  lemma ToBitsSlice(data: seq<byte>, i: nat, j: nat)
    requires i <= j <= |data|
    ensures ToBits(data[i..j]) == ToBits(data)[8 * i..8 * j]
  {
    ToBitsTake(data, j);
    ToBitsTake(data[..j], i);
    assert data[..j][i..] == data[i..j];
    assert ToBits(data)[..8 * j][8 * i..] == ToBits(data)[8 * i..8 * j];
  }

  lemma ToBitsAt(data: seq<byte>, i: nat)
    requires i < |data|
    ensures ByteBits(data[i]) == ToBits(data)[8 * i..8 * i + 8]
  {
    ToBitsSlice(data, i, i + 1);
    assert data[i..i + 1] == [data[i]];
    ToBitsOne(data[i]);
  }

  lemma ByteValue(b: byte)
    ensures ValueOf(ByteBits(b)) == b
  {
    var n := 8;
    ByteBitsOf(b, n);
    ValueOfBits(b, n);
    Pow2Known(n);
    LowOfSmall(b, n);
  }

  lemma ToBitsInjective(a: seq<byte>, b: seq<byte>)
    requires ToBits(a) == ToBits(b)
    ensures a == b
  {
    forall i | 0 <= i < |a| ensures a[i] == b[i] {
      ToBitsAt(a, i);
      ToBitsAt(b, i);
      ByteValue(a[i]);
      ByteValue(b[i]);
    }
  }
}
