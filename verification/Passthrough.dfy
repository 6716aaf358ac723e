/** The protocol-agnostic session: its batch encoder and its length rule, beside the generated session's. */
module Passthrough {
  import opened Bits
  import opened Decimal
  import opened Endian
  import opened Errors
  import opened Wire
  import opened BitReading
  import opened Framing
  import opened FramingLaws

  datatype FrameConfig = FrameConfig(
    sync: seq<byte>, minHeader: nat, skipBits: nat, fieldBits: nat, order: Order)

  // --------------------------------------------------------- byte swapping

  /** The value of n bytes of raw taken in the opposite order. */
  function Swapped(raw: nat, n: nat): nat {
    ValueOf(ToBits(LittleBytes(raw, n)))
  }

  /** The swap loop: byte i of raw goes to byte n - 1 - i. */
  method SwapBytes(raw: u64, n: nat) returns (swapped: nat)
    requires n <= 8
    ensures swapped == Swapped(raw, n)
  {
    hide Swapped;
    swapped := 0;
    var i := 0;
    SwapStart(raw, n);
    while i < n
      invariant 0 <= i <= n
      invariant swapped == Shl(Swapped(raw, i), 8 * (n - i))
    {
      SwapStep(raw, i, n, 8);
      swapped := Or(swapped, Shl(ByteAt(raw, i), (n - 1 - i) * 8));
      i := i + 1;
    }
  }

  lemma SwapStart(raw: nat, n: nat)
    ensures Shl(Swapped(raw, 0), 8 * n) == 0
  {
    ShlIsMultiplication(0, 8 * n);
  }

  lemma {:induction false} OrShl(a: nat, b: nat, k: nat)
    ensures Or(Shl(a, k), Shl(b, k)) == Shl(Or(a, b), k)
    decreases k
  {
    if k > 0 { OrShl(a, b, k - 1); }
  }

  lemma {:induction false} ShlShl(v: nat, a: nat, b: nat)
    ensures Shl(Shl(v, a), b) == Shl(v, a + b)
    decreases b
  {
    if b > 0 { ShlShl(v, a, b - 1); }
  }

  lemma SwapStep(raw: nat, i: nat, n: nat, w: nat)
    requires i < n && w == 8
    ensures Or(Shl(Swapped(raw, i), 8 * (n - i)), Shl(ByteAt(raw, i), (n - 1 - i) * 8))
         == Shl(Swapped(raw, i + 1), 8 * (n - (i + 1)))
  {
    hide Shl, Or, Swapped, ByteAt;
    var x, b, k := Swapped(raw, i), ByteAt(raw, i), 8 * (n - 1 - i);
    SwappedNext(raw, i, w);
    Pow2Known(w);
    OrIsSum(x, b, w);
    OrShl(Shl(x, w), b, k);
    ShlShl(x, w, k);
  }

  lemma SwappedNext(raw: nat, i: nat, w: nat)
    requires w == 8
    ensures Swapped(raw, i + 1) == Shl(Swapped(raw, i), w) + ByteAt(raw, i)
  {
    var low, b := LittleBytes(raw, i), ByteAt(raw, i);
    assert LittleBytes(raw, i + 1) == low + [b];
    ToBitsConcat(low, [b]);
    ToBitsOne(b);
    ValueOfConcat(ToBits(low), ByteBits(b));
    ByteValue(b);
  }

  // ------------------------------------------------------------ length rules

  /** Length field read as bits, most significant first, then swapped for little-endian fields. */
  function PassthroughLength(c: FrameConfig, header: seq<byte>): nat {
    if |header| < c.minHeader || c.skipBits > 8 * |header| || c.fieldBits == 0 || c.fieldBits > 64 then 0
    else match TakeBits(ToBits(header), c.skipBits, c.fieldBits)
      case Err(_) => 0
      case Ok(raw) =>
        if c.order.Little? && c.fieldBits > 8 then Swapped(raw, (c.fieldBits + 7) / 8) else raw
  }

  /** The generated session's rule for a total-frame length with no modifier: an aligned integer read, if there is a field. */
  function GeneratedLength(c: FrameConfig, header: seq<byte>): nat {
    if c.fieldBits == 0 then |header|
    else if |header| < c.minHeader || c.skipBits > 8 * |header| then 0
    else match TakeUint(header, c.skipBits, ReadWidth(c.fieldBits), c.order)
      case Err(_) => 0
      case Ok(v) => v
  }

  /** Bytes read for a length field: the least of one, two, four or eight that has that many bits. */
  function ReadWidth(bits: nat): (n: nat)
    ensures n in {1, 2, 4, 8} && (bits <= 64 ==> bits <= 8 * n) && (n > 1 ==> bits > 4 * n)
  {
    if bits <= 8 then 1 else if bits <= 16 then 2 else if bits <= 32 then 4 else 8
  }

  method ExtractPassthrough(c: FrameConfig, header: seq<byte>) returns (length: nat)
    ensures length == PassthroughLength(c, header)
  {
    if |header| < c.minHeader { return 0; }
    var r := new BitReader(header);
    if c.skipBits > 0 {
      var ok := r.SkipBits(c.skipBits);
      if !ok { return 0; }
    }
    if 0 < c.fieldBits <= 64 {
      var val := r.ReadBits(c.fieldBits);
      if val.Err? { return 0; }
      var raw := val.value;
      if c.order.Little? && c.fieldBits > 8 {
        var swapped := SwapBytes(raw, (c.fieldBits + 7) / 8);
        return swapped;
      }
      return raw;
    }
    return 0;
  }

  method ExtractGenerated(c: FrameConfig, header: seq<byte>) returns (length: nat)
    ensures length == GeneratedLength(c, header)
  {
    if c.fieldBits == 0 { return |header|; }
    if |header| < c.minHeader { return 0; }
    var r := new BitReader(header);
    if c.skipBits > 0 {
      var ok := r.SkipBits(c.skipBits);
      if !ok { return 0; }
    }
    var val := r.ReadUint(ReadWidth(c.fieldBits), c.order);
    if val.Err? { return 0; }
    return val.value;
  }

  /** The two readers agree on every header for whole-byte fields at byte-aligned offsets. */
  lemma LengthReadersAgree(c: FrameConfig, header: seq<byte>)
    requires c.skipBits % 8 == 0 && c.fieldBits in {8, 16, 32, 64}
    ensures PassthroughLength(c, header) == GeneratedLength(c, header)
  {
    hide ToBits, ValueOf, TakeBits, UintValue, Swapped;
    var at, n := c.skipBits / 8, c.fieldBits / 8;
    assert c.skipBits == 8 * at && c.fieldBits == 8 * n;
    assert (c.skipBits + 7) / 8 == at && ReadWidth(c.fieldBits) == n;
    assert (c.fieldBits + 7) / 8 == n;
    FieldBytes(header, at, n);
    if at + n <= |header| {
      var bytes := header[at..at + n];
      match c.order
      case Big =>
      case Little =>
        SwappedBack(bytes);
        if n == 1 { SingleByte(bytes); }
    }
  }

  /** An aligned field of whole bytes, read as bits. */
  lemma FieldBytes(header: seq<byte>, at: nat, n: nat)
    requires 0 < n <= 8
    ensures TakeBits(ToBits(header), 8 * at, 8 * n) ==
              if at + n <= |header| then Ok(UintValue(header[at..at + n], Big)) else Err(BufferUnderrun)
  {
    hide ToBits, ValueOf, TakeBits;
    var end := at + n;
    if end <= |header| {
      ToBitsSlice(header, at, end);
      TakenSlice(ToBits(header), 8 * at, 8 * n, 8 * end);
    } else {
      TakenTooMany(ToBits(header), 8 * at, 8 * n);
    }
  }

  lemma TakenSlice(bits: seq<bool>, from: nat, count: nat, to: nat)
    requires from + count == to <= |bits| && 0 < count <= 64
    ensures TakeBits(bits, from, count) == Ok(ValueOf(bits[from..to]))
  {
    hide ValueOf;
  }

  lemma TakenTooMany(bits: seq<bool>, from: nat, count: nat)
    requires from + count > |bits| && 0 < count <= 64
    ensures TakeBits(bits, from, count) == Err(BufferUnderrun)
  {
  }

  lemma SingleByte(bytes: seq<byte>)
    requires |bytes| == 1
    ensures UintValue(bytes, Big) == UintValue(bytes, Little)
  {
    assert Reverse(bytes) == bytes;
  }

  /** Swapping the big-endian value of some bytes gives their little-endian value. */
  lemma SwappedBack(bytes: seq<byte>)
    ensures Swapped(UintValue(bytes, Big), |bytes|) == UintValue(bytes, Little)
  {
    var v, n := UintValue(bytes, Big), |bytes|;
    assert BigBytes(v, n) == bytes by {
      BigBytesBits(v, n);
      BitsOfValue(ToBits(bytes));
      ToBitsInjective(BigBytes(v, n), bytes);
    }
    assert LittleBytes(v, n) == Reverse(BigBytes(v, n));
  }

  /** The big-endian bytes of a swapped number are the little-endian bytes of the original. */
  lemma SwappedBytes(raw: nat, n: nat)
    ensures Swapped(raw, n) < Pow2(8 * n)
    ensures forall i :: 0 <= i < n ==> ByteAt(Swapped(raw, n), i) == ByteAt(raw, n - 1 - i)
  {
    hide ToBits, ValueOf;
    var v, bytes := Swapped(raw, n), LittleBytes(raw, n);
    assert BigBytes(v, n) == bytes by {
      BigBytesBits(v, n);
      BitsOfValue(ToBits(bytes));
      ToBitsInjective(BigBytes(v, n), bytes);
    }
    forall i | 0 <= i < n ensures ByteAt(v, i) == ByteAt(raw, n - 1 - i) {
      assert BigBytes(v, n)[n - 1 - i] == ByteAt(v, i) && bytes[n - 1 - i] == ByteAt(raw, n - 1 - i);
    }
  }

  /** raw has these bits, most significant first, and no others. */
  ghost predicate Spells(raw: nat, bits: seq<bool>) {
    raw < Pow2(|bits|) && forall j :: 0 <= j < |bits| ==> bits[j] == Bit(raw, |bits| - 1 - j)
  }

  lemma ValueSpells(bits: seq<bool>)
    ensures Spells(ValueOf(bits), bits)
  {
    hide ValueOf, Bit;
    var raw := ValueOf(bits);
    BitsOfValue(bits);
    forall j | 0 <= j < |bits| ensures bits[j] == Bit(raw, |bits| - 1 - j) {
      BitsAt(raw, |bits|, j);
    }
  }

  /** turned is raw with its n bytes in the opposite order. */
  ghost predicate Turned(turned: nat, raw: nat, n: nat) {
    turned < Pow2(8 * n) && forall i :: 0 <= i < n ==> ByteAt(turned, i) == ByteAt(raw, n - 1 - i)
  }

  /** Fields of any width at any bit: most significant bit first, with the bytes turned round in little-endian order. */
  lemma PassthroughByBits(c: FrameConfig, header: seq<byte>) returns (raw: nat)
    requires c.minHeader <= |header| && 0 < c.fieldBits <= 64 && c.skipBits + c.fieldBits <= 8 * |header|
    ensures Spells(raw, ToBits(header)[c.skipBits..c.skipBits + c.fieldBits])
    ensures c.order.Big? || c.fieldBits <= 8 ==> PassthroughLength(c, header) == raw
    ensures c.order.Little? && c.fieldBits > 8 ==> Turned(PassthroughLength(c, header), raw, (c.fieldBits + 7) / 8)
  {
    hide ToBits, ValueOf, Swapped, ByteAt, Pow2, Spells, Turned;
    var bits := ToBits(header)[c.skipBits..c.skipBits + c.fieldBits];
    raw := ValueOf(bits);
    ValueSpells(bits);
    SwappedTurns(raw, (c.fieldBits + 7) / 8);
  }

  lemma SwappedTurns(raw: nat, n: nat)
    ensures Turned(Swapped(raw, n), raw, n)
  {
    hide Swapped, ByteAt;
    SwappedBytes(raw, n);
  }

  /** A header too short for the rule, or a field of no or too many bits, has length zero. */
  lemma PassthroughZero(c: FrameConfig, header: seq<byte>)
    requires |header| < c.minHeader || c.fieldBits == 0 || c.fieldBits > 64 || c.skipBits + c.fieldBits > 8 * |header|
    ensures PassthroughLength(c, header) == 0
  {
    hide ValueOf, Swapped;
  }

  // ---------------------------------------------------------- batch encoding

  /** What a payload can hold: raw bytes, or some other type. */
  datatype Payload = Raw(bytes: seq<byte>) | Other

  function RawBytes(ps: seq<Payload>): seq<seq<byte>>
    requires forall i :: 0 <= i < |ps| ==> ps[i].Raw?
  {
    seq(|ps|, i requires 0 <= i < |ps| => ps[i].bytes)
  }

  method EncodeBatch(payloads: seq<Payload>) returns (r: Result<seq<byte>>)
    ensures r.Ok? <==> payloads != [] && forall i :: 0 <= i < |payloads| ==> payloads[i].Raw?
    ensures r.Ok? ==> r.value == Concat(RawBytes(payloads))
    ensures r.Err? ==> r.error == InvalidArgument
  {
    if payloads == [] { return Err(InvalidArgument); }
    for i := 0 to |payloads|
      invariant forall j :: 0 <= j < i ==> payloads[j].Raw?
    {
      if payloads[i].Other? { return Err(InvalidArgument); }
    }
    var bytes := [];
    for i := 0 to |payloads|
      invariant bytes == Concat(RawBytes(payloads[..i]))
    {
      ConcatMore(RawBytes(payloads[..i]), payloads[i].bytes);
      assert RawBytes(payloads[..i + 1]) == RawBytes(payloads[..i]) + [payloads[i].bytes];
      bytes := bytes + payloads[i].bytes;
    }
    assert payloads[..|payloads|] == payloads;
    return Ok(bytes);
  }

  lemma {:induction false} ConcatMore(cs: seq<seq<byte>>, c: seq<byte>)
    ensures Concat(cs + [c]) == Concat(cs) + c
  {
    if cs == [] {
      assert [c][1..] == [] && [] + [c] == [c];
      assert Concat([c]) == c + Concat([]) == c;
    } else {
      assert (cs + [c])[1..] == cs[1..] + [c];
      ConcatMore(cs[1..], c);
      assert cs[0] + (Concat(cs[1..]) + c) == (cs[0] + Concat(cs[1..])) + c;
    }
  }

  function ToSession(c: FrameConfig): Session {
    Session(c.sync, c.minHeader, header => PassthroughLength(c, header))
  }

  /**
    From batch encoder to framer: a batch of frames whose length fields state their own sizes,
    pushed in any chunks that do not overflow, is cut back into exactly those frames.
   */
  method SendAndReceive(c: FrameConfig, cap: nat, payloads: seq<Payload>, chunks: seq<seq<byte>>)
    returns (r: Option<seq<seq<byte>>>)
    requires payloads != [] && forall i :: 0 <= i < |payloads| ==> payloads[i].Raw?
    requires forall f <- RawBytes(payloads) :: WellFormed(ToSession(c), cap, f)
    requires Concat(chunks) == Concat(RawBytes(payloads))
    ensures r.None? <==> Run(ToSession(c), cap, [], chunks).None?
    ensures r.Some? ==> r.value == RawBytes(payloads)
  {
    var encoded := EncodeBatch(payloads);
    assert encoded == Ok(Concat(chunks));
    var framer := new StreamFramer(ToSession(c), cap);
    r := Feed(framer, chunks);
    if r.Some? {
      EndToEnd(ToSession(c), cap, RawBytes(payloads), chunks);
    }
  }
}
