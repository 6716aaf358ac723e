/** Multi-byte integers in either byte order. */
module Endian {
  import opened Bits

  datatype Order = Big | Little

  /** uint8_t(v >> (8 * i)) */
  function ByteAt(v: nat, i: nat): byte {
    ToByte(Shr(v, 8 * i))
  }

  /** The n bytes of v, most significant first. */
  function BigBytes(v: nat, n: nat): (bs: seq<byte>)
    ensures |bs| == n
  {
    seq(n, i requires 0 <= i < n => ByteAt(v, n - 1 - i))
  }

  /** The n bytes of v, least significant first. */
  function LittleBytes(v: nat, n: nat): (bs: seq<byte>)
    ensures |bs| == n
  {
    seq(n, i requires 0 <= i < n => ByteAt(v, i))
  }

  function UintBytes(v: nat, n: nat, e: Order): (bs: seq<byte>)
    ensures |bs| == n
  {
    if e.Big? then BigBytes(v, n) else LittleBytes(v, n)
  }

  function Reverse<T>(s: seq<T>): (r: seq<T>)
    ensures |r| == |s| && forall i :: 0 <= i < |s| ==> r[i] == s[|s| - 1 - i]
  {
    seq(|s|, i requires 0 <= i < |s| => s[|s| - 1 - i])
  }

  /** The number n bytes denote. */
  function UintValue(bs: seq<byte>, e: Order): (v: nat)
    ensures v < Pow2(8 * |bs|)
  {
    ValueOf(ToBits(if e.Big? then bs else Reverse(bs)))
  }

  lemma {:induction false} BigBytesBits(v: nat, n: nat)
    ensures ToBits(BigBytes(v, n)) == BitsOf(v, 8 * n)
    decreases n
  {
    if n > 0 {
      var k := 8;
      var high := BigBytes(Shr(v, k), n - 1);
      BigBytesNext(v, n, k);
      BigBytesBits(Shr(v, k), n - 1);
      assert ToBits(high + [ToByte(v)]) == ToBits(high) + ByteBits(ToByte(v)) by {
        ToBitsConcat(high, [ToByte(v)]);
        ToBitsOne(ToByte(v));
      }
      BitsSplit(v, 8 * (n - 1), k);
      ToByteBits(v, k);
    }
  }

  lemma ByteAbove(v: nat, i: nat, k: nat)
    requires k == 8
    ensures ByteAt(v, i + 1) == ByteAt(Shr(v, k), i)
  {
    ShiftTwice(v, k, 8 * i);
  }

  lemma BigBytesNext(v: nat, n: nat, k: nat)
    requires n > 0 && k == 8
    ensures BigBytes(v, n) == BigBytes(Shr(v, k), n - 1) + [ToByte(v)]
  {
    forall i | 0 <= i < n - 1 ensures BigBytes(v, n)[i] == BigBytes(Shr(v, k), n - 1)[i] {
      ByteAbove(v, n - 2 - i, k);
    }
    assert ByteAt(v, 0) == ToByte(v);
  }

  /** Reading n bytes back gives the value modulo 2^(8n), in either order. */
  lemma UintRoundTrip(v: nat, n: nat, e: Order)
    ensures UintValue(UintBytes(v, n, e), e) == Low(v, 8 * n)
  {
    assert Reverse(LittleBytes(v, n)) == BigBytes(v, n);
    BigBytesBits(v, n);
    ValueOfBits(v, 8 * n);
  }
}
