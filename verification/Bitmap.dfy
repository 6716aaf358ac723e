/**
  Field-presence bitmaps (FSPEC): the presence octets a generated bitmap struct writes before its
  present fields, and how the decoder finds out which fields follow. Bit number b is bit b of the
  octets in wire order, so the octets are described by the bits they show.
 */
module Bitmap {
  import opened Bits
  import opened Endian
  import opened Errors
  import opened BitWriting
  import opened BitReading

  /** Field bit numbers in declaration order; ext is the extension position within an octet. */
  datatype Schema = Schema(fields: seq<nat>, ext: Option<nat>, order: Order)

  predicate ValidSchema(s: Schema) {
    && (forall i, j :: 0 <= i < j < |s.fields| ==> s.fields[i] != s.fields[j])
    && (s.ext.Some? ==> s.ext.value < 8)
    && (s.ext.Some? ==> forall b <- s.fields :: b % 8 != s.ext.value)
  }

  function MaxBit(fields: seq<nat>): (m: nat)
    ensures forall b <- fields :: b <= m
    ensures fields == [] ==> m == 0
    ensures fields != [] ==> m in fields
  {
    if fields == [] then 0
    else
      var rest := MaxBit(fields[1..]);
      assert fields == [fields[0]] + fields[1..];
      if |fields| == 1 || fields[0] > rest then fields[0] else rest
  }

  /** Octets enough for every field, and no more than that; at least one. */
  function Octets(s: Schema): (n: nat)
    ensures n > 0 && forall b <- s.fields :: b < 8 * n
    ensures n > 1 ==> exists b <- s.fields :: b >= 8 * (n - 1)
  {
    MaxBit(s.fields) / 8 + 1
  }

  /** The last octet that holds a present field, or the first octet. */
  function LastOctet(fields: seq<nat>, present: set<nat>): (n: nat)
    ensures forall b <- fields :: b in present ==> b / 8 <= n
    ensures n == 0 || exists b <- fields :: b in present && b / 8 == n
  {
    if fields == [] then 0
    else
      var rest := LastOctet(fields[1..], present);
      if fields[0] in present && fields[0] / 8 > rest then fields[0] / 8 else rest
  }

  // ----------------------------------------------------------- presence octets

  /** Bit j of octet i in wire order: octet & (1 << (7 - j)). */
  predicate Shows(octets: seq<byte>, i: nat, j: nat)
    requires i < |octets| && j < 8
  {
    Bit(octets[i], 7 - j)
  }

  /** What bit j of octet i is to show: a present field, or an extension bit before the last octet. */
  predicate Wanted(s: Schema, present: set<nat>, i: nat, j: nat) {
    || (8 * i + j in s.fields && 8 * i + j in present)
    || (s.ext == Some(j) && i < LastOctet(s.fields, present))
  }

  /** How many octets are written. */
  function Count(s: Schema, present: set<nat>): nat {
    if s.ext.Some? then LastOctet(s.fields, present) + 1 else Octets(s)
  }

  /** The octets in logical order: the unique n octets that show exactly the right bits. */
  ghost predicate IsFspec(s: Schema, present: set<nat>, octets: seq<byte>) {
    && |octets| == Count(s, present)
    && forall i, j :: 0 <= i < |octets| && 0 <= j < 8 ==> Shows(octets, i, j) == Wanted(s, present, i, j)
  }

  lemma FspecUnique(s: Schema, present: set<nat>, a: seq<byte>, b: seq<byte>)
    requires IsFspec(s, present, a) && IsFspec(s, present, b)
    ensures a == b
  {
    forall i | 0 <= i < |a| ensures a[i] == b[i] {
      forall j | 0 <= j < 8 ensures ByteBits(a[i])[j] == ByteBits(b[i])[j] {
        assert Shows(a, i, j) == Shows(b, i, j);
      }
      assert ByteBits(a[i]) == ByteBits(b[i]);
      ByteValue(a[i]);
      ByteValue(b[i]);
    }
  }

  /** fspec[i] |= 1 << (7 - j) */
  function SetBit(octets: seq<byte>, i: nat, j: nat): (r: seq<byte>)
    requires i < |octets| && j < 8
    ensures |r| == |octets|
  {
    octets[i := OrByte(octets[i], Mask(1, 1, 7 - j))]
  }

  /** Or-ing in the one-bit mask of position j sets bit j and no other. */
  lemma OrOneBit(a: byte, j: nat, k: nat)
    requires j < 8 && k < 8
    ensures ByteBits(OrByte(a, Mask(1, 1, 7 - j)))[k] == (ByteBits(a)[k] || k == j)
  {
    hide ByteBits, Mask;
    MaskBits(1, 1, 7 - j, j);
    assert BitsOf(1, 1) == [true];
  }

  lemma SetBitShows(octets: seq<byte>, i: nat, j: nat)
    requires i < |octets| && j < 8
    ensures forall i', j' :: 0 <= i' < |octets| && 0 <= j' < 8 ==>
              Shows(SetBit(octets, i, j), i', j') == (Shows(octets, i', j') || (i' == i && j' == j))
  {
    hide OrByte, Mask, Bit;
    forall i', j' | 0 <= i' < |octets| && 0 <= j' < 8
      ensures Shows(SetBit(octets, i, j), i', j') == (Shows(octets, i', j') || (i' == i && j' == j))
    {
      OrOneBit(octets[i], j, j');
      assert ByteBits(octets[i])[j'] == Bit(octets[i], 7 - j');
    }
  }

  /** The encoder's presence octets: field bits, then extension bits before the last octet. */
  method PresenceOctets(s: Schema, present: set<nat>) returns (octets: seq<byte>)
    requires ValidSchema(s)
    ensures IsFspec(s, present, octets)
  {
    hide Bit;
    var last := LastPresent(s.fields, present);
    LastInRange(s, present);
    var fspec := FieldBits(s, present);
    if s.ext.Some? {
      fspec := ExtensionBits(fspec, s.ext.value, last);
      octets := fspec[..last + 1];
      assert forall i, j :: 0 <= i <= last && 0 <= j < 8 ==> Shows(octets, i, j) == Shows(fspec, i, j);
    } else {
      octets := fspec;
    }
  }

  method LastPresent(fields: seq<nat>, present: set<nat>) returns (last: nat)
    ensures last == LastOctet(fields, present)
  {
    last := 0;
    var i := 0;
    assert fields[0..] == fields;
    while i < |fields|
      invariant 0 <= i <= |fields|
      invariant LastOctet(fields, present) == Max(last, LastOctet(fields[i..], present))
    {
      assert fields[i..][0] == fields[i] && fields[i..][1..] == fields[i + 1..];
      if fields[i] in present && fields[i] / 8 > last {
        last := fields[i] / 8;
      }
      i := i + 1;
    }
  }

  /** Set the extension bit of the first last octets. */
  method ExtensionBits(base: seq<byte>, ext: nat, last: nat) returns (fspec: seq<byte>)
    requires ext < 8 && last < |base|
    ensures |fspec| == |base|
    ensures forall i, j :: 0 <= i < |base| && 0 <= j < 8 ==>
              Shows(fspec, i, j) == (Shows(base, i, j) || (j == ext && i < last))
  {
    hide SetBit, Bit;
    fspec := base;
    var n := 0;
    while n < last && n < |fspec|
      invariant 0 <= n <= last && |fspec| == |base|
      invariant forall i, j :: 0 <= i < |base| && 0 <= j < 8 ==>
                  Shows(fspec, i, j) == (Shows(base, i, j) || (j == ext && i < n))
    {
      SetBitShows(fspec, n, ext);
      fspec := SetBit(fspec, n, ext);
      n := n + 1;
    }
  }

  function Max(a: nat, b: nat): nat {
    if a < b then b else a
  }

  lemma LastInRange(s: Schema, present: set<nat>)
    ensures LastOctet(s.fields, present) < Octets(s)
  {
  }

  /** All octets with the bits of the present fields set. */
  method FieldBits(s: Schema, present: set<nat>) returns (fspec: seq<byte>)
    ensures |fspec| == Octets(s)
    ensures forall i, j :: 0 <= i < |fspec| && 0 <= j < 8 ==>
              Shows(fspec, i, j) == (8 * i + j in s.fields && 8 * i + j in present)
  {
    hide SetBit, Bit;
    fspec := seq(Octets(s), _ => 0);
    ZeroOctets(fspec);
    var n := 0;
    while n < |s.fields|
      invariant 0 <= n <= |s.fields| && |fspec| == Octets(s)
      invariant forall i, j :: 0 <= i < |fspec| && 0 <= j < 8 ==>
                  Shows(fspec, i, j) == (8 * i + j in s.fields[..n] && 8 * i + j in present)
    {
      var b := s.fields[n];
      assert b in s.fields;
      assert s.fields[..n + 1] == s.fields[..n] + [b];
      if b in present {
        SetBitShows(fspec, b / 8, b % 8);
        fspec := SetBit(fspec, b / 8, b % 8);
      }
      n := n + 1;
    }
    assert s.fields[..n] == s.fields;
  }

  lemma ZeroOctets(octets: seq<byte>)
    requires forall i :: 0 <= i < |octets| ==> octets[i] == 0
    ensures forall i, j :: 0 <= i < |octets| && 0 <= j < 8 ==> !Shows(octets, i, j)
  {
    forall i, j | 0 <= i < |octets| && 0 <= j < 8 ensures !Shows(octets, i, j) {
      ShiftMeaning(0, 7 - j);
    }
  }

  // ------------------------------------------------------------------ wire order

  ghost predicate Ascends(r: seq<nat>) {
    forall i, j :: 0 <= i < j < |r| ==> r[i] <= r[j]
  }

  /** The field bits in ascending order: byte by byte, first transmitted bit first. */
  function Ascending(fields: seq<nat>): (r: seq<nat>)
    ensures Ascends(r) && |r| == |fields| && forall x :: x in r <==> x in fields
  {
    if fields == [] then []
    else
      assert fields == [fields[0]] + fields[1..];
      Insert(fields[0], Ascending(fields[1..]))
  }

  function Insert(b: nat, sorted: seq<nat>): (r: seq<nat>)
    requires Ascends(sorted)
    ensures Ascends(r) && |r| == |sorted| + 1 && forall x :: x in r <==> x == b || x in sorted
  {
    if sorted == [] || b <= sorted[0] then [b] + sorted
    else
      assert sorted == [sorted[0]] + sorted[1..];
      var r := Insert(b, sorted[1..]);
      PutFirst(sorted[0], r);
      [sorted[0]] + r
  }

  lemma PutFirst(x: nat, r: seq<nat>)
    requires Ascends(r) && forall y <- r :: x <= y
    ensures Ascends([x] + r)
  {
    forall i, j | 0 <= i < j < |[x] + r| ensures ([x] + r)[i] <= ([x] + r)[j] {
      assert ([x] + r)[j] == r[j - 1] && r[j - 1] in r;
    }
  }

  /** The octets as transmitted; the same reversal restores them. */
  function Wired(s: Schema, octets: seq<byte>): (r: seq<byte>)
    ensures |r| == |octets|
  {
    if s.order.Little? then Reverse(octets) else octets
  }

  /** On the wire octet k shows the bits of logical octet k, or of the k-th from the end in little-endian order. */
  ghost predicate OnWire(s: Schema, present: set<nat>, bytes: seq<byte>) {
    && |bytes| == Count(s, present)
    && forall k, j :: 0 <= k < |bytes| && 0 <= j < 8 ==>
         Shows(bytes, k, j) == Wanted(s, present, if s.order.Little? then |bytes| - 1 - k else k, j)
  }

  lemma OnWireSize(s: Schema, present: set<nat>, bytes: seq<byte>)
    requires OnWire(s, present, bytes)
    ensures |bytes| == Count(s, present)
  {
  }

  lemma WiredIsOnWire(s: Schema, present: set<nat>, octets: seq<byte>)
    requires IsFspec(s, present, octets)
    ensures OnWire(s, present, Wired(s, octets))
  {
    hide Bit, Wanted;
    var bytes := Wired(s, octets);
    forall k, j | 0 <= k < |bytes| && 0 <= j < 8
      ensures Shows(bytes, k, j) == Wanted(s, present, if s.order.Little? then |bytes| - 1 - k else k, j)
    {
      var i := if s.order.Little? then |bytes| - 1 - k else k;
      assert bytes[k] == octets[i];
      assert Shows(octets, i, j) == Wanted(s, present, i, j);
    }
  }

  // ------------------------------------------------------------------- decoding

  /** Octets up to and including the first without the extension bit. */
  function ExtendedLength(bytes: seq<byte>, ext: nat, i: nat): (n: Option<nat>)
    requires i <= |bytes| && ext < 8
    ensures n.Some? ==> i < n.value <= |bytes|
    decreases |bytes| - i
  {
    if i == |bytes| then None
    else if !Bit(bytes[i], 7 - ext) then Some(i + 1)
    else ExtendedLength(bytes, ext, i + 1)
  }

  /** How many octets the decoder takes as the bitmap. */
  function FspecLength(s: Schema, bytes: seq<byte>): (n: Option<nat>)
    requires s.ext.Some? ==> s.ext.value < 8
    ensures n.Some? ==> 0 < n.value <= |bytes|
  {
    if s.ext.Some? then ExtendedLength(bytes, s.ext.value, 0)
    else if Octets(s) <= |bytes| then Some(Octets(s)) else None
  }

  /** The fields the decoder then expects: octet read, bit set. */
  function Seen(s: Schema, octets: seq<byte>): set<nat> {
    set b | b in s.fields && b / 8 < |octets| && Bit(octets[b / 8], 7 - b % 8)
  }

  datatype Codec<!V> = Codec(enc: (nat, V) -> seq<byte>, dec: (nat, seq<byte>) -> Result<(V, nat)>)

  ghost predicate Inverts<V>(c: Codec<V>, b: nat, v: V) {
    forall rest: seq<byte> {:trigger c.dec(b, c.enc(b, v) + rest)} ::
      c.dec(b, c.enc(b, v) + rest) == Ok((v, |c.enc(b, v)|))
  }

  function ValueBytes<V>(c: Codec<V>, order: seq<nat>, m: map<nat, V>): seq<byte> {
    if order == [] then []
    else (if order[0] in m then c.enc(order[0], m[order[0]]) else []) + ValueBytes(c, order[1..], m)
  }

  function TakeValues<V>(c: Codec<V>, order: seq<nat>, seen: set<nat>, bytes: seq<byte>, m: map<nat, V>)
    : Result<map<nat, V>>
    decreases |order|
  {
    if order == [] then Ok(m)
    else if order[0] !in seen then TakeValues(c, order[1..], seen, bytes, m)
    else match c.dec(order[0], bytes)
      case Err(e) => Err(e)
      case Ok((v, n)) =>
        if n > |bytes| then Err(BufferUnderrun)
        else TakeValues(c, order[1..], seen, bytes[n..], m[order[0] := v])
  }

  /** The whole decoder on the bytes of a message. */
  function TakeMessage<V>(s: Schema, c: Codec<V>, bytes: seq<byte>): Result<map<nat, V>>
    requires ValidSchema(s)
  {
    match FspecLength(s, bytes)
    case None => Err(BufferUnderrun)
    case Some(n) =>
      TakeValues(c, Ascending(s.fields), Seen(s, Wired(s, bytes[..n])), bytes[n..], map[])
  }

  // ----------------------------------------------------------------- round trip

  lemma {:induction false} ExtendedStops(bytes: seq<byte>, ext: nat, i: nat, last: nat)
    requires ext < 8 && i <= last < |bytes|
    requires forall k :: i <= k < last ==> Bit(bytes[k], 7 - ext)
    requires !Bit(bytes[last], 7 - ext)
    ensures ExtendedLength(bytes, ext, i) == Some(last + 1)
    decreases last - i
  {
    if i < last { ExtendedStops(bytes, ext, i + 1, last); }
  }

  /** The extension bits of the encoder's octets: set before the last octet, clear in it. */
  lemma ExtensionShown(s: Schema, present: set<nat>, octets: seq<byte>, i: nat)
    requires ValidSchema(s) && s.ext.Some? && IsFspec(s, present, octets) && i < |octets|
    ensures Bit(octets[i], 7 - s.ext.value) <==> i < |octets| - 1
  {
    assert Shows(octets, i, s.ext.value) == Wanted(s, present, i, s.ext.value);
    assert (8 * i + s.ext.value) % 8 == s.ext.value;
  }

  /** The decoder sees exactly the present fields in the encoder's octets. */
  lemma SeenIsPresent(s: Schema, present: set<nat>, octets: seq<byte>)
    requires ValidSchema(s) && IsFspec(s, present, octets) && forall b <- present :: b in s.fields
    ensures Seen(s, octets) == present
  {
    hide Bit;
    forall b | b in s.fields ensures b in Seen(s, octets) <==> b in present {
      if b / 8 < |octets| {
        assert Shows(octets, b / 8, b % 8) == Wanted(s, present, b / 8, b % 8);
      }
    }
  }

  /** Whether decoding takes the bitmap to be what encoding wrote: never wrong but for one form. */
  predicate OctetsKept(s: Schema, present: set<nat>) {
    s.ext.None? || s.order.Big? || LastOctet(s.fields, present) == 0
  }

  lemma LengthRecovered(s: Schema, present: set<nat>, octets: seq<byte>, rest: seq<byte>)
    requires ValidSchema(s) && IsFspec(s, present, octets) && OctetsKept(s, present)
    ensures FspecLength(s, Wired(s, octets) + rest) == Some(|octets|)
    ensures Wired(s, (Wired(s, octets) + rest)[..|octets|]) == octets
  {
    var bytes := Wired(s, octets) + rest;
    assert bytes[..|octets|] == Wired(s, octets);
    if s.ext.Some? {
      if s.order.Little? { assert Reverse(octets) == octets; }
      forall i | 0 <= i < |octets| ensures Bit(bytes[i], 7 - s.ext.value) <==> i < |octets| - 1 {
        ExtensionShown(s, present, octets, i);
      }
      ExtendedStops(bytes, s.ext.value, 0, |octets| - 1);
    }
  }

  ghost function Restricted<V>(m: map<nat, V>, order: seq<nat>): map<nat, V> {
    map b | b in order && b in m :: m[b]
  }

  lemma RestrictedNext<V>(acc: map<nat, V>, m: map<nat, V>, b: nat, rest: seq<nat>)
    requires b in m
    ensures acc[b := m[b]] + Restricted(m, rest) == acc + Restricted(m, [b] + rest)
  {
  }

  lemma {:induction false} ValuesReadBack<V>(c: Codec<V>, order: seq<nat>, m: map<nat, V>, rest: seq<byte>, acc: map<nat, V>)
    requires forall b <- m.Keys :: Inverts(c, b, m[b])
    ensures TakeValues(c, order, m.Keys, ValueBytes(c, order, m) + rest, acc)
         == Ok(acc + Restricted(m, order))
    decreases |order|
  {
    if order == [] {
      assert acc + Restricted(m, order) == acc;
    } else {
      var b, more := order[0], ValueBytes(c, order[1..], m) + rest;
      assert order == [b] + order[1..];
      if b in m {
        var bs := c.enc(b, m[b]);
        assert ValueBytes(c, order, m) + rest == bs + more;
        assert c.dec(b, bs + more) == Ok((m[b], |bs|));
        assert (bs + more)[|bs|..] == more;
        ValuesReadBack(c, order[1..], m, rest, acc[b := m[b]]);
        RestrictedNext(acc, m, b, order[1..]);
      } else {
        assert ValueBytes(c, order, m) + rest == more;
        ValuesReadBack(c, order[1..], m, rest, acc);
        assert Restricted(m, order[1..]) == Restricted(m, order);
      }
    }
  }

  /** Decoding what was encoded recovers exactly the present fields and their values. */
  lemma MessageRoundTrip<V>(s: Schema, c: Codec<V>, m: map<nat, V>, octets: seq<byte>, rest: seq<byte>)
    requires ValidSchema(s) && IsFspec(s, m.Keys, octets) && OctetsKept(s, m.Keys)
    requires forall b <- m.Keys :: b in s.fields && Inverts(c, b, m[b])
    ensures TakeMessage(s, c, Wired(s, octets) + ValueBytes(c, Ascending(s.fields), m) + rest) == Ok(m)
  {
    hide IsFspec, FspecLength, Seen, ValueBytes, TakeValues, Wired, Ascending, OctetsKept;
    var order := Ascending(s.fields);
    var values := ValueBytes(c, order, m);
    var bytes := Wired(s, octets) + values + rest;
    assert bytes == Wired(s, octets) + (values + rest);
    LengthRecovered(s, m.Keys, octets, values + rest);
    assert bytes[|octets|..] == values + rest;
    SeenIsPresent(s, m.Keys, octets);
    ValuesReadBack(c, order, m, rest, map[]);
    assert map[] + Restricted(m, order) == m;
  }

  // ------------------------------------------------- fewest octets, and the failing form

  /** No bitmap the decoder reads as the same presence set is shorter than the encoder's. */
  lemma FewestOctets(s: Schema, present: set<nat>, octets: seq<byte>, other: seq<byte>)
    requires ValidSchema(s) && s.ext.Some? && IsFspec(s, present, octets)
    requires other != [] && Seen(s, other) == present
    ensures |octets| <= |other|
  {
    var last := LastOctet(s.fields, present);
    if last > 0 {
      var b :| b in s.fields && b in present && b / 8 == last;
      assert b in Seen(s, other);
    }
  }

  /**
    The extended form in little-endian order puts the octet without an extension bit first, so
    the decoder stops there: the presence set survives if and only if one octet is enough.
   */
  lemma ExtendedLittleEndian(s: Schema, present: set<nat>, octets: seq<byte>, rest: seq<byte>)
    requires ValidSchema(s) && s.ext.Some? && s.order.Little?
    requires IsFspec(s, present, octets) && forall b <- present :: b in s.fields
    ensures FspecLength(s, Wired(s, octets) + rest) == Some(1)
    ensures Seen(s, Wired(s, (Wired(s, octets) + rest)[..1])) == present <==> LastOctet(s.fields, present) == 0
  {
    var last := LastOctet(s.fields, present);
    var bytes := Wired(s, octets) + rest;
    ExtensionShown(s, present, octets, last);
    assert bytes[0] == octets[last];
    ExtendedStops(bytes, s.ext.value, 0, 0);
    if last > 0 {
      var b :| b in s.fields && b in present && b / 8 == last;
      assert b !in Seen(s, Wired(s, bytes[..1]));
    } else {
      LengthRecovered(s, present, octets, rest);
      SeenIsPresent(s, present, octets);
    }
  }

  /** Such a message: one field in the second octet is enough to lose it. */
  lemma LostField()
    ensures var s := Schema([0, 8], Some(7), Little);
      ValidSchema(s) && forall octets, rest :: IsFspec(s, {8}, octets) ==>
        Seen(s, Wired(s, (Wired(s, octets) + rest)[..1])) != {8}
  {
    var s := Schema([0, 8], Some(7), Little);
    forall octets, rest | IsFspec(s, {8}, octets)
      ensures Seen(s, Wired(s, (Wired(s, octets) + rest)[..1])) != {8}
    {
      ExtendedLittleEndian(s, {8}, octets, rest);
      assert 8 in s.fields;
    }
  }

  // ------------------------------------------------------------ encoder and decoder

  /** Presence octets, then the present fields in wire order; nothing after a recorded error. */
  method Encode<V>(w: BitWriter, s: Schema, c: Codec<V>, m: map<nat, V>) returns (ok: bool, ghost octets: seq<byte>)
    requires w.Valid() && ValidSchema(s)
    modifies w
    ensures w.Valid() && w.error == old(w.error) && ok == w.error.None?
    ensures IsFspec(s, m.Keys, octets)
    ensures ok ==> w.data == old(w.data) + Wired(s, octets) + ValueBytes(c, Ascending(s.fields), m)
    ensures ok ==> var at, n := |old(w.data)|, Count(s, m.Keys);
      at + n <= |w.data| && OnWire(s, m.Keys, w.data[at..at + n])
    ensures !ok ==> w.contents == old(w.contents)
  {
    hide IsFspec, ToBits, Holds, Wired, OnWire;
    var fspec := PresenceOctets(s, m.Keys);
    octets := fspec;
    WiredIsOnWire(s, m.Keys, octets);
    w.WriteBytes(Wired(s, fspec));
    ghost var start := w.data;
    var order := Ascending(s.fields);
    var i := 0;
    while i < |order|
      invariant 0 <= i <= |order|
      invariant w.Valid() && w.error == old(w.error)
      invariant w.error.None? ==> w.data == start + ValueBytes(c, order[..i], m)
      invariant w.error.Some? ==> w.contents == old(w.contents)
    {
      assert order[..i + 1] == order[..i] + [order[i]];
      ValueBytesMore(c, order[..i], order[i], m);
      if order[i] in m {
        w.WriteBytes(c.enc(order[i], m[order[i]]));
      }
      i := i + 1;
    }
    assert order[..i] == order;
    ok := w.error.None?;
    assert ok ==> w.data[|old(w.data)|..|old(w.data)| + |octets|] == Wired(s, octets);
    OnWireSize(s, m.Keys, Wired(s, octets));
  }

  lemma {:induction false} ValueBytesMore<V>(c: Codec<V>, order: seq<nat>, b: nat, m: map<nat, V>)
    ensures ValueBytes(c, order + [b], m) == ValueBytes(c, order, m) + (if b in m then c.enc(b, m[b]) else [])
    decreases |order|
  {
    if order == [] {
      assert ([] + [b])[1..] == [] && ([] + [b])[0] == b;
    } else {
      assert (order + [b])[1..] == order[1..] + [b] && (order + [b])[0] == order[0];
      ValueBytesMore(c, order[1..], b, m);
    }
  }

  /** The FSPEC loop: octets until one without the extension bit, or a fixed number of them. */
  method ReadFspec(r: BitReader, s: Schema) returns (octets: Option<seq<byte>>)
    requires r.Valid() && r.bitPos == 0 && ValidSchema(s)
    modifies r
    ensures r.Valid() && r.bitPos == 0
    ensures match FspecLength(s, r.data[old(r.bytePos)..])
      case None => octets.None?
      case Some(n) => octets == Some(r.data[old(r.bytePos)..][..n]) && r.bytePos == old(r.bytePos) + n
  {
    hide Bit, UintValue;
    ghost var all := r.data[r.bytePos..];
    var fspec: seq<byte> := [];
    var more := true;
    while more
      invariant r.Valid() && r.bitPos == 0 && r.bytePos == old(r.bytePos) + |fspec|
      invariant fspec <= all
      invariant s.ext.Some? && more ==> FspecLength(s, all) == ExtendedLength(all, s.ext.value, |fspec|)
      invariant !more ==> FspecLength(s, all) == Some(|fspec|)
      invariant s.ext.None? ==> |fspec| <= Octets(s) && (more <==> |fspec| < Octets(s))
      decreases more, |all| - |fspec|
    {
      var byte := r.ReadBytes(1);
      if byte.Err? { return None; }
      assert byte.value == [all[|fspec|]];
      fspec := fspec + byte.value;
      more := if s.ext.Some? then Bit(byte.value[0], 7 - s.ext.value) else |fspec| < Octets(s);
    }
    assert all[..|fspec|] == fspec;
    return Some(fspec);
  }

  /** Read the bitmap, then each field it shows, in wire order. */
  method Decode<V>(r: BitReader, s: Schema, c: Codec<V>) returns (m: Result<map<nat, V>>)
    requires r.Valid() && r.bitPos == 0 && ValidSchema(s)
    requires s.ext.Some? && s.order.Little? ==>
      var n := FspecLength(s, r.data[r.bytePos..]); n.Some? ==> n.value <= Octets(s)
    modifies r
    ensures m == TakeMessage(s, c, r.data[old(r.bytePos)..])
  {
    hide Bit, FspecLength, Seen, Ascending, TakeValues, Wired;
    ghost var all := r.data[r.bytePos..];
    var fspec := ReadFspec(r, s);
    if fspec.None? { return Err(BufferUnderrun); }
    assert all[|fspec.value|..] == r.data[r.bytePos..];
    m := ReadValues(r, c, Ascending(s.fields), Seen(s, Wired(s, fspec.value)));
  }

  method ReadValues<V>(r: BitReader, c: Codec<V>, order: seq<nat>, seen: set<nat>) returns (m: Result<map<nat, V>>)
    requires r.Valid() && r.bitPos == 0
    modifies r
    ensures m == TakeValues(c, order, seen, r.data[old(r.bytePos)..], map[])
  {
    var found: map<nat, V> := map[];
    var i := 0;
    assert order[0..] == order;
    while i < |order|
      invariant 0 <= i <= |order| && r.Valid() && r.bitPos == 0
      invariant TakeValues(c, order, seen, r.data[old(r.bytePos)..], map[]) ==
                TakeValues(c, order[i..], seen, r.data[r.bytePos..], found)
    {
      assert order[i..][0] == order[i] && order[i..][1..] == order[i + 1..];
      if order[i] in seen {
        var left := r.data[r.bytePos..];
        var v := c.dec(order[i], left);
        if v.Err? { return Err(v.error); }
        if v.value.1 > |left| { return Err(BufferUnderrun); }
        assert left[v.value.1..] == r.data[r.bytePos + v.value.1..];
        found := found[order[i] := v.value.0];
        r.bytePos := r.bytePos + v.value.1;
      }
      i := i + 1;
    }
    return Ok(found);
  }

  /** Writer, encoder, reader and decoder in a row. */
  method EncodeThenDecode<V>(s: Schema, c: Codec<V>, m: map<nat, V>) returns (r: Result<map<nat, V>>)
    requires ValidSchema(s) && OctetsKept(s, m.Keys)
    requires forall b <- m.Keys :: b in s.fields && Inverts(c, b, m[b])
    ensures r == Ok(m)
  {
    hide IsFspec, FspecLength, TakeMessage, Wired, ValueBytes, Ascending, Holds, Octets, ValidSchema, OctetsKept, Inverts;
    var w := new BitWriter();
    var ok, octets := Encode(w, s, c, m);
    var bytes := w.Finish();
    assert bytes.value == Wired(s, octets) + ValueBytes(c, Ascending(s.fields), m);
    assert bytes.value == Wired(s, octets) + ValueBytes(c, Ascending(s.fields), m) + [];
    MessageRoundTrip(s, c, m, octets, []);
    LengthRecovered(s, m.Keys, octets, ValueBytes(c, Ascending(s.fields), m));
    CountInRange(s, m.Keys, octets);
    var reader := new BitReader(bytes.value);
    assert bytes.value[0..] == bytes.value;
    r := Decode(reader, s, c);
  }

  lemma CountInRange(s: Schema, present: set<nat>, octets: seq<byte>)
    requires IsFspec(s, present, octets)
    ensures |octets| <= Octets(s)
  {
    LastInRange(s, present);
  }

  /** An extended bitmap has no more octets than the schema exactly when one of the schema's octets ends it. */
  lemma OverlongIff(s: Schema, bytes: seq<byte>)
    requires ValidSchema(s) && s.ext.Some? && FspecLength(s, bytes).Some?
    ensures FspecLength(s, bytes).value <= Octets(s) <==>
            exists i :: 0 <= i < Octets(s) && i < |bytes| && !Bit(bytes[i], 7 - s.ext.value)
  {
    hide Bit, Octets;
    StopsAt(bytes, s.ext.value, 0);
  }

  lemma {:induction false} StopsAt(bytes: seq<byte>, ext: nat, i: nat)
    requires ext < 8 && i <= |bytes| && ExtendedLength(bytes, ext, i).Some?
    ensures var n := ExtendedLength(bytes, ext, i).value;
      && i < n <= |bytes| && !Bit(bytes[n - 1], 7 - ext)
      && forall k :: i <= k < n - 1 ==> Bit(bytes[k], 7 - ext)
    decreases |bytes| - i
  {
    hide Bit;
    if i < |bytes| && Bit(bytes[i], 7 - ext) {
      StopsAt(bytes, ext, i + 1);
    }
  }

  /** One field, and two octets that ask for more: the bitmap read has three octets, the schema one. */
  lemma OverlongBitmap(s: Schema, bytes: seq<byte>)
    requires s == Schema([0], Some(7), Little) && bytes == [1, 1, 0]
    ensures ValidSchema(s) && Octets(s) == 1 && FspecLength(s, bytes) == Some(3)
  {
    assert Bit(1, 0) && !Bit(0, 0);
    ExtendedStops(bytes, 7, 0, 2);
  }
}
