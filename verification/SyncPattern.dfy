/** When the sync bytes collected from constant header fields really start every frame. */
module SyncPattern {
  import opened Bits
  import BitWriting
  import opened Decimal
  import opened Endian
  import opened Errors
  import opened FrameCodec
  import opened FrameDecode
  import opened Literals

  /** A value whose first byte on the wire is b, for b 0 or 1. */
  function Leading(b: nat, width: nat, order: Order): nat
    requires width > 0
  {
    if b == 0 then 0 else if order.Big? then Shl(1, 8 * (width - 1)) else 1
  }

  lemma LeadingByte(b: nat, width: nat, order: Order)
    requires b <= 1 && width > 0
    ensures Leading(b, width, order) < Pow2(8 * width)
    ensures UintBytes(Leading(b, width, order), width, order)[0] == b
  {
    hide Shl, Shr, Pow2;
    var k := 8 * (width - 1);
    OneFits(k);
    if b == 0 {
      var i := if order.Big? then width - 1 else 0;
      NoBits(8 * i);
      assert UintBytes(0, width, order)[0] == ByteAt(0, i);
    } else if order.Big? {
      ShiftBack(1, 0, k);
      assert UintBytes(Shl(1, k), width, order)[0] == ByteAt(Shl(1, k) + 0, width - 1);
    } else {
      BitWriting.NoShift(1);
    }
  }

  lemma OneFits(k: nat)
    ensures 0 < 1 < Pow2(k + 8) && Shl(1, k) < Pow2(k + 8) && 0 < Pow2(k)
  {
    ShlIsMultiplication(1, k);
    Pow2Add(k, 8);
  }

  lemma NoBits(k: nat)
    ensures Shr(0, k) == 0
  {
    ShiftMeaning(0, k);
  }

  lemma ZerosFit(defs: seq<FieldDef>)
    ensures Fitting(defs, seq(|defs|, _ => 0))
  {
  }

  lemma SamePrefix(head: seq<byte>, a: seq<byte>, b: seq<byte>)
    ensures head + a <= head + b <==> a <= b
  {
    if head + a <= head + b {
      forall i | 0 <= i < |a| ensures a[i] == b[i] {
        assert (head + a)[|head| + i] == (head + b)[|head| + i];
      }
    }
  }

  /** Bytes that are not the start of the leading constants are not the start of some header. */
  lemma {:induction false} PrefixBroken(defs: seq<FieldDef>, x: seq<byte>) returns (values: seq<nat>, t: nat)
    requires ValidFields(defs) && !(x <= LeadBytes(defs))
    ensures Fitting(defs, values) && !(x <= FieldsBytes(defs, values, t))
    decreases |defs|
  {
    hide UintBytes, Leading;
    if defs == [] {
      values, t := [], 0;
    } else if defs[0].role.Constant? {
      values, t := BrokenBehind(defs, x);
    } else {
      values, t := BrokenHere(defs, x);
    }
  }

  lemma {:induction false} BrokenBehind(defs: seq<FieldDef>, x: seq<byte>) returns (values: seq<nat>, t: nat)
    requires defs != [] && ValidFields(defs) && defs[0].role.Constant? && !(x <= LeadBytes(defs))
    ensures Fitting(defs, values) && !(x <= FieldsBytes(defs, values, t))
    decreases |defs|, 0
  {
    hide UintBytes;
    var first := defs[0];
    var head := UintBytes(first.role.value, first.width, first.order);
    if head <= x {
      var tail := x[|head|..];
      assert x == head + tail;
      SamePrefix(head, tail, LeadBytes(defs[1..]));
      var rest, total := PrefixBroken(defs[1..], tail);
      values, t := [first.role.value] + rest, total;
      assert values[1..] == rest;
      SamePrefix(head, tail, FieldsBytes(defs[1..], rest, t));
    } else {
      t := 0;
      ZerosFit(defs[1..]);
      values := [first.role.value] + seq(|defs| - 1, _ => 0);
      assert values[1..] == seq(|defs[1..]|, _ => 0);
      NotInFront(head, x, LeadBytes(defs[1..]), FieldsBytes(defs[1..], values[1..], t));
    }
  }

  lemma NotInFront(head: seq<byte>, x: seq<byte>, a: seq<byte>, b: seq<byte>)
    requires !(head <= x) && !(x <= head + a)
    ensures !(x <= head + b)
  {
  }

  lemma BrokenHere(defs: seq<FieldDef>, x: seq<byte>) returns (values: seq<nat>, t: nat)
    requires defs != [] && ValidField(defs[0]) && !defs[0].role.Constant? && x != []
    ensures Fitting(defs, values) && !(x <= FieldsBytes(defs, values, t))
  {
    hide UintBytes, Leading, FieldsBytes;
    var first := defs[0];
    var b := if x[0] == 0 then 1 else 0;
    LeadingByte(b, first.width, first.order);
    t := Leading(b, first.width, first.order);
    ZerosFit(defs);
    values := seq(|defs|, _ => 0)[0 := t];
    FieldsHead(defs, values, t);
    assert FieldsBytes(defs, values, t)[0] == b;
  }

  /** The sync bytes start every header exactly when they start its leading constants. */
  lemma SyncPrefixIff(defs: seq<FieldDef>)
    requires ValidFields(defs)
    ensures SyncFits(defs) <==>
            forall values, t | Fitting(defs, values) :: SyncBytes(defs) <= FieldsBytes(defs, values, t)
  {
    hide SyncBytes, LeadBytes, FieldsBytes, ValidFields;
    if SyncFits(defs) {
      forall values, t | Fitting(defs, values) ensures SyncBytes(defs) <= FieldsBytes(defs, values, t) {
        LeadIsPrefix(defs, values, t);
      }
    } else {
      var values, t := PrefixBroken(defs, SyncBytes(defs));
      assert Fitting(defs, values) && !(SyncBytes(defs) <= FieldsBytes(defs, values, t));
    }
  }

  // ------------------------------------------------------------- when they do fit

  /** Constant fields come first in the header. */
  predicate ConstantsLead(defs: seq<FieldDef>) {
    forall i, j :: 0 <= i < j < |defs| && defs[j].role.Constant? ==> defs[i].role.Constant?
  }

  /** Every constant was parsed and its looked-up width is the field's. */
  predicate WidthsAgree(defs: seq<FieldDef>) {
    forall i :: 0 <= i < |defs| && defs[i].role.Constant? ==>
      defs[i].role.collected.Some? && defs[i].role.collected.value.width == defs[i].width
  }

  lemma LowBytes(v: nat, n: nat, order: Order)
    ensures UintBytes(Low(v, 8 * n), n, order) == UintBytes(v, n, order)
  {
    hide Low, BitsOf;
    var low := Low(v, 8 * n);
    BigBytesBits(v, n);
    BigBytesBits(low, n);
    BitsOfLow(v, 8 * n, 8 * n);
    ToBitsInjective(BigBytes(low, n), BigBytes(v, n));
    Mirrored(v, n);
    Mirrored(low, n);
  }

  lemma Mirrored(v: nat, n: nat)
    ensures LittleBytes(v, n) == Reverse(BigBytes(v, n))
  {
  }

  /** What was parsed for a constant is what the field carries. */
  predicate ValueAgrees(f: FieldDef) {
    f.role.Constant? && f.role.collected.Some? ==> f.role.value == Low(ToU64(f.role.collected.value.literal), 8 * f.width)
  }

  predicate ValuesAgree(defs: seq<FieldDef>) {
    forall i :: 0 <= i < |defs| ==> ValueAgrees(defs[i])
  }

  lemma SameBytesIff(a: nat, b: nat, n: nat, order: Order)
    ensures UintBytes(a, n, order) == UintBytes(b, n, order) <==> Low(a, 8 * n) == Low(b, 8 * n)
  {
    hide UintBytes, Low, UintValue;
    UintRoundTrip(a, n, order);
    UintRoundTrip(b, n, order);
    LowBytes(a, n, order);
    LowBytes(b, n, order);
  }

  lemma PrefixInParts(a: seq<byte>, b: seq<byte>, x: seq<byte>, y: seq<byte>)
    requires |a| == |b|
    ensures a + x <= b + y <==> a == b && x <= y
    ensures a + x == b + y <==> a == b && x == y
  {
    if a + x == b + y {
      assert (a + x)[|a|..] == x && (b + y)[|a|..] == y;
    }
    if a + x <= b + y {
      assert (a + x)[..|a|] == a && (b + y)[..|a|] == b;
      SamePrefix(a, x, y);
    } else if a == b {
      SamePrefix(a, x, y);
    }
  }

  /** With leading constants of agreeing widths the pattern fits, and is all of them, exactly when the values agree too. */
  lemma {:induction false} LeadingConstantsFitIff(defs: seq<FieldDef>)
    requires ValidFields(defs) && ConstantsLead(defs) && WidthsAgree(defs)
    ensures SyncFits(defs) <==> ValuesAgree(defs)
    ensures SyncBytes(defs) == LeadBytes(defs) <==> ValuesAgree(defs)
    decreases |defs|
  {
    hide UintBytes, ToU64, Low, ValueAgrees;
    if defs != [] {
      var first := defs[0];
      LeadingConstantsFitIff(defs[1..]);
      assert ValuesAgree(defs) <==> ValueAgrees(first) && ValuesAgree(defs[1..]) by { ValuesInParts(defs); }
      if first.role.Constant? {
        FirstAgreesIff(first);
        PrefixInParts(CollectedBytes(first), UintBytes(first.role.value, first.width, first.order),
                      SyncBytes(defs[1..]), LeadBytes(defs[1..]));
      } else {
        NoConstants(defs);
        NothingToAgree(defs);
      }
    }
  }

  lemma ValuesInParts(defs: seq<FieldDef>)
    requires defs != []
    ensures ValuesAgree(defs) <==> ValueAgrees(defs[0]) && ValuesAgree(defs[1..])
  {
    hide ValueAgrees;
    assert forall i :: 0 < i < |defs| ==> defs[i] == defs[1..][i - 1];
  }

  lemma NothingToAgree(defs: seq<FieldDef>)
    requires forall i :: 0 <= i < |defs| ==> !defs[i].role.Constant?
    ensures ValuesAgree(defs)
  {
  }

  lemma FirstAgreesIff(f: FieldDef)
    requires ValidField(f) && f.role.Constant? && f.role.collected.Some? && f.role.collected.value.width == f.width
    ensures CollectedBytes(f) == UintBytes(f.role.value, f.width, f.order) <==> ValueAgrees(f)
  {
    hide UintBytes, ToU64, Low;
    SameBytesIff(ToU64(f.role.collected.value.literal), f.role.value, f.width, f.order);
    LowOfSmall(f.role.value, 8 * f.width);
  }

  lemma {:induction false} NoConstants(defs: seq<FieldDef>)
    requires forall i :: 0 <= i < |defs| ==> !defs[i].role.Constant?
    ensures SyncBytes(defs) == []
  {
    if defs != [] { NoConstants(defs[1..]); }
  }

  lemma TwoBytes(v: nat, k: nat)
    requires v == 0xEB90 && k == 8
    ensures ByteAt(v, 1) == 0xEB && ByteAt(v, 0) == 0x90 && Low(v, 2 * k) == v && Pow2(2 * k) == 0x1_0000
  {
    hide Shr, Low, Pow2;
    ShiftMeaning(v, k);
    ShiftMeaning(v, 0);
    ShiftMeaning(v, 2 * k);
    Pow2Known(0);
    Pow2Known(k);
    Pow2Known(2 * k);
  }

  function SyncWord(v: u64): FieldDef
    requires v == 0xEB90
  {
    FieldDef(Constant(v, Some(Collected(v, 1))), 2, Big)
  }

  /** A 16-bit constant EB90 whose type name gives no width: the pattern is 90, and no frame starts with it. */
  lemma NarrowSync(v: u64, rest: seq<FieldDef>, values: seq<nat>, t: nat)
    requires v == 0xEB90 && |values| == 1 + |rest|
    ensures var defs := [SyncWord(v)] + rest;
      && ValidField(defs[0]) && CollectedBytes(defs[0]) == [0x90]
      && FieldsBytes(defs, values, t)[..2] == [0xEB, 0x90]
      && !(SyncBytes(defs) <= FieldsBytes(defs, values, t))
  {
    hide ByteAt, Low, Pow2, FieldsBytes;
    var defs := [SyncWord(v)] + rest;
    TwoBytes(v, 8);
    assert UintBytes(v, 2, Big) == [ByteAt(v, 1), ByteAt(v, 0)] && UintBytes(v, 1, Big) == [ByteAt(v, 0)];
    assert defs[1..] == rest;
    FieldsHead(defs, values, t);
    assert SyncBytes(defs)[0] == 0x90;
  }

  // ----------------------------------------------------------- constants by their text

  /** The number the session analyzer reads under an equality constraint. */
  function Collects(ns: Names, equals: string): Option<i64> {
    ParsePositive(if equals in ns.constants then ns.constants[equals].text else equals)
  }

  /** The header field of a constraint: the text is cast to the field's storage when it is written. */
  function ConstantField(ns: Names, equals: string, width: nat, order: Order, looked: nat): (f: FieldDef)
    requires width in {1, 2, 4, 8} && ns.Emitted(equals).Some? && 1 <= looked <= 8
    ensures ValidField(f)
  {
    Pow2Mono(8 * width, 64);
    Pow2Known(64);
    var collected := Collects(ns, equals);
    FieldDef(Constant(ns.Emitted(equals).value % Pow2(8 * width),
                      if collected.None? then None else Some(Collected(collected.value, looked))), width, order)
  }

  lemma WrapKeepsRemainder(v: int, w: nat, k: nat)
    requires w > 0 && w * k == TWO_64
    ensures (v + TWO_64) % w == v % w
  {
    DivUnique(TWO_64, w, k, 0);
    SameRemainder(v + TWO_64, v, w);
  }

  lemma LowOfI64(v: i64, n: nat)
    requires n <= 64
    ensures Low(ToU64(v), n) == v % Pow2(n)
  {
    hide Low, Shr, Shl, Pow2;
    ShiftMeaning(ToU64(v), n);
    Pow2Add(n, 64 - n);
    ShlIsMultiplication(Pow2(n), 64 - n);
    Pow2Known(n + (64 - n));
    if v < 0 {
      WrapKeepsRemainder(v, Pow2(n), Pow2(64 - n));
    }
  }

  /** Collected and written value agree exactly when the two readings of the text do, modulo the field's width. */
  lemma ConstantAgreesIff(ns: Names, equals: string, width: nat, order: Order, looked: nat)
    requires width in {1, 2, 4, 8} && ns.Emitted(equals).Some? && 1 <= looked <= 8 && Collects(ns, equals).Some?
    ensures ValueAgrees(ConstantField(ns, equals, width, order, looked)) <==>
            (ns.Emitted(equals).value - Collects(ns, equals).value) % Pow2(8 * width) == 0
  {
    hide Low, ToU64, Collects, Pow2;
    LowOfI64(Collects(ns, equals).value, 8 * width);
    Pow2Mono(0, 8 * width);
    Pow2Known(0);
    SameRemainder(ns.Emitted(equals).value, Collects(ns, equals).value, Pow2(8 * width));
  }

  lemma NothingCollected(ns: Names, equals: string, width: nat, order: Order, looked: nat)
    requires width in {1, 2, 4, 8} && ns.Emitted(equals).Some? && 1 <= looked <= 8 && Collects(ns, equals).None?
    ensures ValueAgrees(ConstantField(ns, equals, width, order, looked))
  {
    hide ParsePositive, CppValue, Pow2;
  }

  lemma NoRemainder(n: nat)
    ensures 0 % Pow2(n) == 0
  {
  }

  /** They do for a literal without an effective leading zero. */
  lemma PlainConstantAgrees(ns: Names, equals: string, width: nat, order: Order, looked: nat)
    requires width in {1, 2, 4, 8} && ns.Emitted(equals).Some? && 1 <= looked <= 8
    requires equals !in ns.constants && ReadAlike(equals)
    ensures ValueAgrees(ConstantField(ns, equals, width, order, looked))
  {
    hide Low, ToU64, ReadAlike, ParsePositive, CppValue, ValueAgrees, ConstantField, Pow2;
    if Collects(ns, equals).Some? {
      SyncReadAlikeIff(equals);
      assert ns.Emitted(equals).value - Collects(ns, equals).value == 0;
      ConstantAgreesIff(ns, equals, width, order, looked);
      NoRemainder(8 * width);
    } else {
      NothingCollected(ns, equals, width, order, looked);
    }
  }

  lemma OneByte(v: nat, order: Order)
    requires v < 256
    ensures UintBytes(v, 1, order) == [v]
  {
    hide Shr;
    ShiftMeaning(v, 0);
    Pow2Known(0);
    assert ByteAt(v, 0) == v;
  }

  /** A one-byte constant written 010: the pattern is 0A, and every frame starts with 08. */
  lemma OctalSync(ns: Names, equals: string, order: Order, rest: seq<FieldDef>, values: seq<nat>, t: nat)
    requires equals == "010" && equals !in ns.constants && |values| == 1 + |rest|
    ensures ns.Emitted(equals).Some?
    ensures var defs := [ConstantField(ns, equals, 1, order, 1)] + rest;
      && CollectedBytes(defs[0]) == [10] && FieldsBytes(defs, values, t)[..1] == [8]
      && !(SyncBytes(defs) <= FieldsBytes(defs, values, t))
  {
    hide ParsePositive, CppValue, ParseLiteral, UintBytes, FieldsBytes, Pow2;
    OctalTen(equals);
    OneByte(10, order);
    OneByte(8, order);
    Pow2Known(8);
    var defs := [ConstantField(ns, equals, 1, order, 1)] + rest;
    assert defs[1..] == rest;
    FieldsHead(defs, values, t);
    assert SyncBytes(defs)[0] == 10;
  }
}
