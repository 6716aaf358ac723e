/** The sizing pass itself: size_t arithmetic, one visiting set, and the table filled by repeated passes. */
module SizeTable {
  import Bits
  import opened Errors
  import opened Protocol
  import opened WireSizer

  // ---------------------------------------------------------- size_t arithmetic

  function Wrap(x: int): (w: nat)
    ensures w < WORD
  {
    x % WORD
  }

  function Wrapped(o: Option<int>): Option<nat> {
    if o.Some? then Some(Wrap(o.value)) else None
  }

  lemma ModShift(x: int, k: int, w: nat)
    requires w > 0
    ensures (x + k * w) % w == x % w
  {
    var q, r := x / w, x % w;
    Distribute(w, q, k);
    Bits.DivUnique(x + k * w, w, q + k, r);
  }

  lemma Distribute(w: int, q: int, k: int)
    ensures w * (q + k) == w * q + k * w
  {
  }

  lemma ModAdd(a: int, b: int, w: nat)
    requires w > 0
    ensures (a % w + b % w) % w == (a + b) % w
  {
    ModShift(a % w + b % w, a / w + b / w, w);
    assert a + b == (a % w + b % w) + (a / w + b / w) * w;
  }

  lemma ModMul(a: int, b: int, w: nat)
    requires w > 0
    ensures ((a % w) * (b % w)) % w == (a * b) % w
  {
    var qa, ra, qb, rb := a / w, a % w, b / w, b % w;
    var k := qa * b + ra * qb;
    assert a * b == ra * rb + k * w by {
      assert a == qa * w + ra && b == qb * w + rb;
      assert a * b == (qa * w) * b + ra * b;
      assert ra * b == ra * (qb * w) + ra * rb;
      assert (qa * w) * b == (qa * b) * w;
      assert ra * (qb * w) == (ra * qb) * w;
    }
    ModShift(ra * rb, k, w);
  }

  function MulSize(a: int, b: int): (m: nat)
    ensures m == Wrap(a * b)
  {
    ModMul(a, b, WORD);
    (Wrap(a) * Wrap(b)) % WORD
  }

  /** Bytes for a number of bits, as size_t computes it. */
  function BytesFor(bits: nat): nat {
    Wrap(bits + 7) / 8
  }

  function Bytes(o: Option<int>): Option<nat> {
    if o.Some? then Some(BytesFor(Wrap(o.value))) else None
  }

  /** The byte size is the true one exactly when the bit sum fits size_t with room for rounding. */
  lemma BytesExactIff(bits: int)
    ensures BytesFor(Wrap(bits)) == (bits + 7) / 8 <==> -7 <= bits < WORD - 7
  {
    ModAdd(bits, 7, WORD);
    assert BytesFor(Wrap(bits)) == Wrap(bits + 7) / 8;
    if 0 <= bits + 7 < WORD {
      assert Wrap(bits + 7) == bits + 7;
    }
  }

  // ------------------------------------------------------------------ the table

  function TypeSize(t: TypeDef): Option<nat> {
    match t.base
    case Text =>
      if t.length.None? then None
      else if t.charBits.Some? then Some(BytesFor(MulSize(t.length.value, t.charBits.value)))
      else Some(Wrap(t.length.value))
    case Bytes => if t.length.Some? then Some(Wrap(t.length.value)) else None
    case Bool => Some(if t.bits > 0 then BytesFor(Wrap(t.bits)) else 1)
    case Numeric => if t.bits > 0 then Some(BytesFor(Wrap(t.bits))) else None
  }

  /** Text and bytes whose size is a number of octets given outright. */
  predicate GivenInOctets(t: TypeDef) {
    ((t.base.Text? && t.charBits.None?) || t.base.Bytes?) && t.length.Some?
  }

  /** A type's own size and its contribution to a struct agree, but for octet counts too large to be counted in bits. */
  lemma TypeSizeIsBytesIff(t: TypeDef)
    ensures TypeSize(t) == Bytes(TypeBits(t)) <==> (GivenInOctets(t) ==> Wrap(t.length.value) < WORD / 8)
  {
    if GivenInOctets(t) {
      OctetsInBits(t.length.value);
    }
  }

  lemma OctetsInBits(n: int)
    ensures BytesFor(Wrap(n * 8)) == Wrap(n) <==> Wrap(n) < WORD / 8
  {
    var l := Wrap(n);
    ModMul(n, 8, WORD);
    if l < WORD / 8 {
      assert Wrap(l * 8) == l * 8 && Wrap(l * 8 + 7) == l * 8 + 7;
    }
  }

  function StructSize(ix: Index, n: Name): Option<nat>
    requires n in ix.structs
  {
    if ix.structs[n].isBitmap then None else Bytes(WireSizer.Bits(ix, ix.structs[n].children, Under(ix, {})))
  }

  function MessageSize(ix: Index, n: Name): Option<nat>
    requires n in ix.messages
  {
    Bytes(WireSizer.Bits(ix, ix.messages[n], Under(ix, {})))
  }

  lemma BitsStep(ix: Index, cs: seq<Child>, i: nat, sizes: Sizes)
    requires i < |cs|
    ensures WireSizer.Bits(ix, cs[i..], sizes) ==
            Plus(ChildBits(ix, cs[i], sizes), WireSizer.Bits(ix, cs[i + 1..], sizes))
  {
    assert cs[i..][1..] == cs[i + 1..];
  }

  class Sizer {
    const ix: Index
    var visiting: set<Name>
    var sizes: map<Name, Option<nat>>

    constructor (ix: Index)
      ensures this.ix == ix && visiting == {} && sizes == map[]
    {
      this.ix := ix;
      visiting := {};
      sizes := map[];
    }

    method TypeSizeBits(t: TypeDef) returns (r: Option<nat>)
      ensures r == Wrapped(TypeBits(t))
    {
      match t.base
      case Text =>
        if t.length.None? { return None; }
        if t.charBits.Some? { return Some(MulSize(t.length.value, t.charBits.value)); }
        return Some(MulSize(t.length.value, 8));
      case Bytes =>
        if t.length.Some? { return Some(MulSize(t.length.value, 8)); }
        return None;
      case Bool =>
        return Some(Wrap(if t.bits > 0 then t.bits else 1));
      case Numeric =>
        if t.bits > 0 { return Some(Wrap(t.bits)); }
        return None;
    }

    /** Sizes a reference; a name already being sized breaks the cycle. */
    method ReferenceBits(n: Name) returns (r: Option<nat>)
      modifies this`visiting
      ensures visiting == old(visiting)
      ensures r == Wrapped(Resolved(ix, n, Under(ix, visiting)))
      decreases ix.Nodes() - visiting, 0
    {
      if n in ix.types {
        r := TypeSizeBits(ix.types[n]);
        return;
      }
      SizedStep(ix, n, visiting);
      if !ix.IsStructOrMessage(n) || n in visiting {
        return None;
      }
      visiting := visiting + {n};
      r := ChildrenBits(ix.ChildrenOf(n));
      visiting := visiting - {n};
      assert visiting == old(visiting);
    }

    method FieldSizeBits(f: Field) returns (r: Option<nat>)
      modifies this`visiting
      ensures visiting == old(visiting)
      ensures r == Wrapped(FieldBits(ix, f, Under(ix, visiting)))
      decreases ix.Nodes() - visiting, 1
    {
      if f.optional { return None; }
      if f.isInline && f.typeRef != "" {
        if f.typeRef in ix.types { return None; }
        r := ReferenceBits(f.typeRef);
        return;
      }
      if f.bits.Some? { return Some(Wrap(Max0(f.bits.value))); }
      if f.bytesAttr.Some? { return Some(MulSize(Max0(f.bytesAttr.value), 8)); }
      if f.typeRef == "" { return None; }
      if f.typeRef == "bytes" || f.typeRef == "string" {
        if f.length.Some? { return Some(MulSize(Max0(f.length.value), 8)); }
        return None;
      }
      r := ReferenceBits(f.typeRef);
    }

    method ArraySizeBits(c: Child) returns (r: Option<nat>)
      requires c.ArrayChild?
      modifies this`visiting
      ensures visiting == old(visiting)
      ensures r == Wrapped(ChildBits(ix, c, Under(ix, visiting)))
      decreases ix.Nodes() - visiting, 2, c, 0
    {
      if c.openEnded || c.optional || c.fixedCount.None? { return None; }
      var elem;
      if c.typeRef != "" {
        elem := ReferenceBits(c.typeRef);
      } else {
        elem := ChildrenBits(c.children);
      }
      if elem.None? { return None; }
      ghost var exact := if c.typeRef != "" then Resolved(ix, c.typeRef, Under(ix, visiting))
                         else WireSizer.Bits(ix, c.children, Under(ix, visiting));
      ModMul(c.fixedCount.value, exact.value, WORD);
      return Some(Wrap(Wrap(c.fixedCount.value) * elem.value));
    }

    method OneChildBits(c: Child) returns (r: Option<nat>)
      modifies this`visiting
      ensures visiting == old(visiting)
      ensures r == Wrapped(ChildBits(ix, c, Under(ix, visiting)))
      decreases ix.Nodes() - visiting, 2, c, 1
    {
      match c
      case FieldChild(f) => r := FieldSizeBits(f);
      case StructChild(optional, isBitmap, cs) =>
        if optional || isBitmap { return None; }
        r := ChildrenBits(cs);
      case ArrayChild(_, _, _, _, _) => r := ArraySizeBits(c);
      case ReservedChild(bits) => return Some(Wrap(bits));
      case _ => return None;
    }

    /** Sums the children; a child of unknown size makes the whole unknown. */
    method ChildrenBits(cs: seq<Child>) returns (r: Option<nat>)
      modifies this`visiting
      ensures visiting == old(visiting)
      ensures r == Wrapped(WireSizer.Bits(ix, cs, Under(ix, visiting)))
      decreases ix.Nodes() - visiting, 2, cs
    {
      hide Sized, Under, ChildBits;
      var total: nat, allFixed := 0, true;
      ghost var sum: Option<int> := Some(0);
      ghost var sizes := Under(ix, visiting);
      var i := 0;
      while i < |cs|
        invariant 0 <= i <= |cs| && visiting == old(visiting)
        invariant allFixed <==> sum.Some?
        invariant sum.Some? ==> total == Wrap(sum.value)
        invariant WireSizer.Bits(ix, cs, sizes) == Plus(sum, WireSizer.Bits(ix, cs[i..], sizes))
      {
        BitsStep(ix, cs, i, sizes);
        var sz := OneChildBits(cs[i]);
        ghost var exact := ChildBits(ix, cs[i], sizes);
        if sz.Some? {
          if sum.Some? { ModAdd(sum.value, exact.value, WORD); }
          total := Wrap(total + sz.value);
        } else {
          allFixed := false;
        }
        sum := Plus(sum, exact);
        i := i + 1;
      }
      return if allFixed then Some(total) else None;
    }

    /** Every struct entry made so far is a final size. */
    ghost predicate Partial(structs: seq<Name>)
      reads this
    {
      forall n <- structs :: n in ix.structs &&
        (n in sizes ==> sizes[n].Some? && sizes[n] == StructSize(ix, n))
    }

    ghost predicate Full(structs: seq<Name>)
      reads this
    {
      forall n <- structs :: n in ix.structs && (StructSize(ix, n).Some? ==> n in sizes)
    }

    twostate predicate SameOutside(structs: seq<Name>)
      reads this
    {
      forall n :: n !in structs ==>
        (n in sizes <==> n in old(sizes)) && (n in sizes ==> sizes[n] == old(sizes)[n])
    }

    method SizeOfStruct(n: Name) returns (r: Option<nat>)
      requires n in ix.structs
      modifies this`visiting
      ensures r == StructSize(ix, n)
    {
      visiting := {};
      if ix.structs[n].isBitmap { return None; }
      var bits := ChildrenBits(ix.structs[n].children);
      return if bits.Some? then Some(BytesFor(bits.value)) else None;
    }

    /** One sweep over the structs; a sweep over a full table changes nothing. */
    method Pass(structs: seq<Name>) returns (changed: bool)
      requires Partial(structs)
      modifies this
      ensures Partial(structs) && Full(structs) && SameOutside(structs)
      ensures old(Full(structs)) ==> !changed && sizes == old(sizes)
    {
      hide StructSize;
      changed := false;
      var i := 0;
      while i < |structs|
        invariant 0 <= i <= |structs|
        invariant Partial(structs) && Full(structs[..i]) && SameOutside(structs)
        invariant old(Full(structs)) ==> !changed && sizes == old(sizes)
      {
        var n := structs[i];
        assert structs[..i + 1] == structs[..i] + [n];
        if !(n in sizes && sizes[n].Some?) {
          var sz := SizeOfStruct(n);
          if sz.Some? {
            sizes := sizes[n := sz];
            changed := true;
          }
        }
        i := i + 1;
      }
      assert structs[..i] == structs;
    }

    /** Repeats passes while the last one changed something: the second pass never does. */
    method SizeStructs(structs: seq<Name>) returns (passes: nat)
      requires Partial(structs)
      modifies this
      ensures passes <= 2
      ensures Partial(structs) && Full(structs) && SameOutside(structs)
    {
      hide StructSize;
      var changed := true;
      passes := 0;
      while changed
        invariant Partial(structs) && SameOutside(structs)
        invariant if passes == 0 then changed else Full(structs)
        invariant passes <= 2 && (passes == 2 ==> !changed)
        decreases 2 - passes
      {
        changed := Pass(structs);
        passes := passes + 1;
      }
    }

    /** Structs without a size get an explicit entry. */
    method MarkDynamic(structs: seq<Name>)
      requires Partial(structs) && Full(structs)
      modifies this`sizes
      ensures SameOutside(structs)
      ensures forall n <- structs :: n in ix.structs && n in sizes && sizes[n] == StructSize(ix, n)
    {
      hide StructSize;
      var i := 0;
      while i < |structs|
        invariant 0 <= i <= |structs|
        invariant SameOutside(structs)
        invariant forall n <- structs[..i] :: n in ix.structs && n in sizes && sizes[n] == StructSize(ix, n)
        invariant forall n <- structs ::
          n in ix.structs && if n in sizes then sizes[n] == StructSize(ix, n) else StructSize(ix, n).None?
      {
        var n := structs[i];
        assert structs[..i + 1] == structs[..i] + [n];
        if n !in sizes {
          sizes := sizes[n := None];
        }
        i := i + 1;
      }
      assert structs[..i] == structs;
    }

    method SizeTypes(types: seq<Name>)
      requires forall n <- types :: n in ix.types
      modifies this`sizes
      ensures SameOutside(types)
      ensures forall n <- types :: n in sizes && sizes[n] == TypeSize(ix.types[n])
    {
      hide TypeSize;
      for i := 0 to |types|
        invariant SameOutside(types)
        invariant forall n <- types[..i] :: n in sizes && sizes[n] == TypeSize(ix.types[n])
      {
        assert types[..i + 1] == types[..i] + [types[i]];
        sizes := sizes[types[i] := TypeSize(ix.types[types[i]])];
      }
      assert types[..|types|] == types;
    }

    method SizeMessages(messages: seq<Name>)
      requires forall n <- messages :: n in ix.messages
      modifies this
      ensures SameOutside(messages)
      ensures forall n <- messages :: n in sizes && sizes[n] == MessageSize(ix, n)
    {
      hide WireSizer.Bits;
      for i := 0 to |messages|
        invariant SameOutside(messages)
        invariant forall n <- messages[..i] :: n in sizes && sizes[n] == MessageSize(ix, n)
      {
        var n := messages[i];
        assert messages[..i + 1] == messages[..i] + [n];
        visiting := {};
        var bits := ChildrenBits(ix.messages[n]);
        sizes := sizes[n := if bits.Some? then Some(BytesFor(bits.value)) else None];
      }
      assert messages[..|messages|] == messages;
    }

    /** The whole computation: every definition gets its own size and nothing else is listed. */
    method Compute(types: seq<Name>, structs: seq<Name>, messages: seq<Name>) returns (passes: nat)
      requires sizes == map[]
      requires ix.types.Keys !! ix.structs.Keys !! ix.messages.Keys
      requires forall n <- types :: n in ix.types
      requires forall n <- structs :: n in ix.structs
      requires forall n <- messages :: n in ix.messages
      modifies this
      ensures passes <= 2
      ensures forall n :: n in sizes <==> n in types || n in structs || n in messages
      ensures forall n <- types :: sizes[n] == TypeSize(ix.types[n])
      ensures forall n <- structs :: sizes[n] == StructSize(ix, n)
      ensures forall n <- messages :: sizes[n] == MessageSize(ix, n)
    {
      hide StructSize, MessageSize, TypeSize;
      SizeTypes(types);
      label typed:
      passes := SizeStructs(structs);
      MarkDynamic(structs);
      assert SameOutside@typed(structs);
      label structured:
      SizeMessages(messages);
      assert SameOutside@structured(messages);
    }
  }
}
