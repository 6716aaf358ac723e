/**
  The layout of a fixed-size definition as the widths of its leaves, one after another: references
  expanded, fixed arrays repeated, octets and characters one by one. A known wire size is their sum.
 */
module Layout {
  import opened Errors
  import opened Protocol
  import opened WireSizer
  import SizeTable

  function Copies(n: nat, leaves: seq<nat>): seq<nat> {
    if n == 0 then [] else leaves + Copies(n - 1, leaves)
  }

  function Sum(leaves: seq<nat>): nat {
    if leaves == [] then 0 else leaves[0] + Sum(leaves[1..])
  }

  /** Layouts of the structs and messages that a child list refers to. */
  type Layouts = Name -> Option<seq<nat>>

  /** n octets. */
  function OctetLeaves(n: int): seq<nat> {
    if n < 0 then [] else Copies(n, [8])
  }

  function TypeLeaves(t: TypeDef): Option<seq<nat>> {
    match t.base
    case Text =>
      if t.length.None? || t.length.value < 0 then None
      else if t.charBits.None? then Some(OctetLeaves(t.length.value))
      else if t.charBits.value < 0 then None
      else Some(Copies(t.length.value, [t.charBits.value]))
    case Bytes =>
      if t.length.None? || t.length.value < 0 then None else Some(OctetLeaves(t.length.value))
    case Bool => if t.bits > 0 then Some([t.bits]) else Some([1])
    case Numeric => if t.bits > 0 then Some([t.bits]) else None
  }

  function NameLeaves(ix: Index, n: Name, lays: Layouts): Option<seq<nat>> {
    if n in ix.types then TypeLeaves(ix.types[n])
    else if n in ix.structs || n in ix.messages then lays(n)
    else None
  }

  /** An inlined definition, a width or octet count of its own, or the layout of the type. */
  function FieldLeaves(ix: Index, f: Field, lays: Layouts): Option<seq<nat>> {
    if f.optional then None
    else if f.isInline && f.typeRef != "" then
      if f.typeRef in ix.types then None else NameLeaves(ix, f.typeRef, lays)
    else if f.bits.Some? then Some(if f.bits.value < 0 then [] else [f.bits.value])
    else if f.bytesAttr.Some? then Some(OctetLeaves(f.bytesAttr.value))
    else if f.typeRef in {"bytes", "string"} then
      if f.length.Some? then Some(OctetLeaves(f.length.value)) else None
    else if f.typeRef == "" then None
    else NameLeaves(ix, f.typeRef, lays)
  }

  function Leaves(ix: Index, cs: seq<Child>, lays: Layouts): Option<seq<nat>>
    decreases cs
  {
    if cs == [] then Some([])
    else
      var first, others := ChildLeaves(ix, cs[0], lays), Leaves(ix, cs[1..], lays);
      if first.Some? && others.Some? then Some(first.value + others.value) else None
  }

  function ChildLeaves(ix: Index, c: Child, lays: Layouts): Option<seq<nat>>
    decreases c
  {
    match c
    case FieldChild(f) => FieldLeaves(ix, f, lays)
    case StructChild(optional, isBitmap, inner) => if optional || isBitmap then None else Leaves(ix, inner, lays)
    case ArrayChild(openEnded, optional, count, ref, inner) =>
      if openEnded || optional || count.None? || count.value < 0 then None
      else
        var element := if ref == "" then Leaves(ix, inner, lays) else NameLeaves(ix, ref, lays);
        if element.None? then None else Some(Copies(count.value, element.value))
    case ReservedChild(bits) => if bits < 0 then None else Some([bits])
    case ChoiceChild(_, _) => None
    case FxChild(_) => None
    case AlignChild => None
  }

  /** The layout of a definition, following references at most depth deep. */
  function Laid(ix: Index, n: Name, depth: nat): Option<seq<nat>>
    decreases depth, 0
  {
    if depth == 0 then None
    else if n in ix.structs then Leaves(ix, ix.structs[n].children, LaidAt(ix, depth - 1))
    else if n in ix.messages then Leaves(ix, ix.messages[n], LaidAt(ix, depth - 1))
    else None
  }

  function LaidAt(ix: Index, depth: nat): Layouts
    decreases depth, 1
  {
    (m: Name) => Laid(ix, m, depth)
  }

  // ------------------------------------------------------------- counts and lengths

  predicate CountedType(t: TypeDef) {
    (t.length.Some? ==> t.length.value >= 0) && (t.charBits.Some? ==> t.charBits.value >= 0)
  }

  /** No array count or reserved width in the list is negative. */
  predicate Counted(cs: seq<Child>)
    decreases cs
  {
    cs == [] || (CountedChild(cs[0]) && Counted(cs[1..]))
  }

  predicate CountedChild(c: Child)
    decreases c
  {
    match c
    case StructChild(_, _, inner) => Counted(inner)
    case ArrayChild(_, _, count, _, inner) => (count.Some? ==> count.value >= 0) && Counted(inner)
    case ReservedChild(bits) => bits >= 0
    case _ => true
  }

  ghost predicate CountedSchema(ix: Index) {
    && (forall n <- ix.types :: CountedType(ix.types[n]))
    && (forall n <- ix.structs :: Counted(ix.structs[n].children))
    && (forall n <- ix.messages :: Counted(ix.messages[n]))
  }

  // -------------------------------------------------------------------------- sums

  ghost function Summed(leaves: Option<seq<nat>>): Option<int> {
    if leaves.Some? then Some(Sum(leaves.value)) else None
  }

  lemma {:induction false} SumConcat(a: seq<nat>, b: seq<nat>)
    ensures Sum(a + b) == Sum(a) + Sum(b)
    decreases |a|
  {
    if a == [] {
      assert a + b == b;
    } else {
      assert (a + b)[1..] == a[1..] + b;
      SumConcat(a[1..], b);
    }
  }

  lemma {:induction false} SumCopies(n: nat, leaves: seq<nat>)
    ensures Sum(Copies(n, leaves)) == n * Sum(leaves)
    decreases n
  {
    if n > 0 {
      SumCopies(n - 1, leaves);
      SumConcat(leaves, Copies(n - 1, leaves));
      assert n * Sum(leaves) == Sum(leaves) + (n - 1) * Sum(leaves);
    }
  }

  lemma SumOne(width: nat)
    ensures Sum([width]) == width
  {
    assert [width][1..] == [];
  }

  lemma SumOctets(n: int)
    ensures Sum(OctetLeaves(n)) == if n < 0 then 0 else 8 * n
  {
    hide Sum, Copies;
    SumOne(8);
    SumNothing();
    if n >= 0 { SumCopies(n, [8]); }
  }

  lemma TypeSum(t: TypeDef)
    requires CountedType(t)
    ensures TypeBits(t) == Summed(TypeLeaves(t))
  {
    hide Sum, Copies, OctetLeaves;
    if t.bits > 0 { SumOne(t.bits); }
    SumOne(1);
    if t.length.Some? {
      SumOctets(t.length.value);
      if t.charBits.Some? {
        SumOne(t.charBits.value);
        SumCopies(t.length.value, [t.charBits.value]);
      }
    }
  }

  ghost predicate Matching(sizes: Sizes, lays: Layouts) {
    forall m :: sizes(m) == Summed(lays(m))
  }

  lemma NameSum(ix: Index, n: Name, sizes: Sizes, lays: Layouts)
    requires CountedSchema(ix) && Matching(sizes, lays)
    ensures Resolved(ix, n, sizes) == Summed(NameLeaves(ix, n, lays))
  {
    hide TypeBits, TypeLeaves, Sum;
    if n in ix.types { TypeSum(ix.types[n]); }
  }

  lemma FieldSum(ix: Index, f: Field, sizes: Sizes, lays: Layouts)
    requires CountedSchema(ix) && Matching(sizes, lays)
    ensures FieldBits(ix, f, sizes) == Summed(FieldLeaves(ix, f, lays))
  {
    hide Resolved, NameLeaves, Sum, OctetLeaves, CountedSchema, Matching;
    NameSum(ix, f.typeRef, sizes, lays);
    if f.bits.Some? {
      SumNothing();
      if f.bits.value >= 0 { SumOne(f.bits.value); }
    }
    if f.bytesAttr.Some? { SumOctets(f.bytesAttr.value); }
    if f.length.Some? { SumOctets(f.length.value); }
  }

  lemma SumNothing()
    ensures Sum([]) == 0
  {
  }

  lemma {:induction false} ListSum(ix: Index, cs: seq<Child>, sizes: Sizes, lays: Layouts)
    requires CountedSchema(ix) && Matching(sizes, lays) && Counted(cs)
    ensures Bits(ix, cs, sizes) == Summed(Leaves(ix, cs, lays))
    decreases cs
  {
    hide Sum, ChildBits, ChildLeaves, CountedChild, CountedSchema, Matching;
    SumNothing();
    if cs != [] {
      ChildSum(ix, cs[0], sizes, lays);
      ListSum(ix, cs[1..], sizes, lays);
      var first, others := ChildLeaves(ix, cs[0], lays), Leaves(ix, cs[1..], lays);
      if first.Some? && others.Some? { SumConcat(first.value, others.value); }
    }
  }

  lemma {:induction false} ChildSum(ix: Index, c: Child, sizes: Sizes, lays: Layouts)
    requires CountedSchema(ix) && Matching(sizes, lays) && CountedChild(c)
    ensures ChildBits(ix, c, sizes) == Summed(ChildLeaves(ix, c, lays))
    decreases c
  {
    hide Sum, Copies, FieldBits, FieldLeaves, Resolved, NameLeaves, CountedSchema, Matching;
    match c
    case FieldChild(f) => FieldSum(ix, f, sizes, lays);
    case StructChild(_, _, inner) => ListSum(ix, inner, sizes, lays);
    case ArrayChild(_, _, count, ref, inner) =>
      ListSum(ix, inner, sizes, lays);
      NameSum(ix, ref, sizes, lays);
      if count.Some? {
        var element := if ref == "" then Leaves(ix, inner, lays) else NameLeaves(ix, ref, lays);
        if element.Some? { SumCopies(count.value, element.value); }
      }
    case ReservedChild(bits) => SumOne(bits);
    case _ =>
  }

  lemma {:induction false} PlainIsLaid(ix: Index, n: Name, d: nat)
    requires CountedSchema(ix)
    ensures Plain(ix, n, d) == Summed(Laid(ix, n, d))
    decreases d
  {
    hide Sum, Leaves, Bits, CountedType;
    if d > 0 && n in ix.Nodes() {
      var a, b := PlainAt(ix, d - 1), LaidAt(ix, d - 1);
      forall m ensures a(m) == Summed(b(m)) {
        PlainIsLaid(ix, m, d - 1);
      }
      ListSum(ix, ix.ChildrenOf(n), a, b);
    }
  }

  /** With no negative count a list has a size exactly when it has a layout, and the size is the sum of its leaves. */
  lemma SizeIsLayoutSum(ix: Index, cs: seq<Child>, d: nat)
    requires CountedSchema(ix) && Counted(cs) && d >= |ix.Nodes()|
    ensures Bits(ix, cs, Under(ix, {})) == Summed(Leaves(ix, cs, LaidAt(ix, d)))
  {
    hide Sum, Leaves, Bits, Laid, Plain, CountedSchema;
    SizerIsPlainSum(ix, cs, d);
    var a, b := PlainAt(ix, d), LaidAt(ix, d);
    forall m ensures a(m) == Summed(b(m)) {
      PlainIsLaid(ix, m, d);
    }
    ListSum(ix, cs, a, b);
  }

  lemma DefinitionCounted(ix: Index, n: Name)
    requires CountedSchema(ix)
    ensures n in ix.structs ==> Counted(ix.structs[n].children)
    ensures n in ix.messages ==> Counted(ix.messages[n])
  {
  }

  function WholeBytes(bits: nat): nat {
    (bits + 7) / 8
  }

  lemma BytesOfSum(leaves: seq<nat>)
    ensures SizeTable.Bytes(Some(Sum(leaves))) == Some(WholeBytes(Sum(leaves))) <==> Sum(leaves) < WORD - 7
  {
    hide Sum, SizeTable.BytesFor, SizeTable.Wrap;
    SizeTable.BytesExactIff(Sum(leaves));
  }

  lemma EntryOf(ix: Index, n: Name)
    requires n in ix.Nodes()
    ensures n in ix.structs && !ix.structs[n].isBitmap ==>
      SizeTable.StructSize(ix, n) == SizeTable.Bytes(Bits(ix, ix.structs[n].children, Under(ix, {})))
    ensures n in ix.structs && ix.structs[n].isBitmap ==> SizeTable.StructSize(ix, n).None?
    ensures n in ix.messages ==> SizeTable.MessageSize(ix, n) == SizeTable.Bytes(Bits(ix, ix.messages[n], Under(ix, {})))
  {
    hide Bits, Under, SizeTable.BytesFor, SizeTable.Wrap;
  }

  lemma BytesKnownIff(bits: Option<int>)
    ensures SizeTable.Bytes(bits).None? <==> bits.None?
  {
  }

  /** A struct's entry in the size table is its leaves in whole bytes, exactly when their sum leaves size_t room to round. */
  lemma StructBytesIff(ix: Index, n: Name, d: nat, leaves: Option<seq<nat>>)
    requires CountedSchema(ix) && n in ix.structs && d >= |ix.Nodes()|
    requires leaves == Leaves(ix, ix.structs[n].children, LaidAt(ix, d))
    ensures SizeTable.StructSize(ix, n).None? <==> ix.structs[n].isBitmap || leaves.None?
    ensures SizeTable.StructSize(ix, n).Some? ==>
      (SizeTable.StructSize(ix, n) == Some(WholeBytes(Sum(leaves.value))) <==> Sum(leaves.value) < WORD - 7)
  {
    hide WholeBytes, Sum, Leaves, Bits, LaidAt, Under, CountedSchema, SizeTable.Bytes, SizeTable.StructSize;
    DefinitionCounted(ix, n);
    SizeIsLayoutSum(ix, ix.structs[n].children, d);
    EntryOf(ix, n);
    BytesKnownIff(Bits(ix, ix.structs[n].children, Under(ix, {})));
    if leaves.Some? { BytesOfSum(leaves.value); }
  }

  /** And so is a message's. */
  lemma MessageBytesIff(ix: Index, n: Name, d: nat, leaves: Option<seq<nat>>)
    requires CountedSchema(ix) && n in ix.messages && d >= |ix.Nodes()|
    requires leaves == Leaves(ix, ix.messages[n], LaidAt(ix, d))
    ensures SizeTable.MessageSize(ix, n).None? <==> leaves.None?
    ensures leaves.Some? ==>
      (SizeTable.MessageSize(ix, n) == Some(WholeBytes(Sum(leaves.value))) <==> Sum(leaves.value) < WORD - 7)
  {
    hide WholeBytes, Sum, Leaves, Bits, LaidAt, Under, CountedSchema, SizeTable.Bytes, SizeTable.MessageSize;
    DefinitionCounted(ix, n);
    SizeIsLayoutSum(ix, ix.messages[n], d);
    EntryOf(ix, n);
    BytesKnownIff(Bits(ix, ix.messages[n], Under(ix, {})));
    if leaves.Some? { BytesOfSum(leaves.value); }
  }
}
