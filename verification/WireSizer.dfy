/** Wire sizes of fixed-layout structs and messages: recursive sizing that breaks cycles with a visiting set. */
module WireSizer {
  import opened Errors
  import opened Protocol

  /** size_t has 64 bits. */
  const WORD: int := 0x1_0000_0000_0000_0000

  function Max0(x: int): nat {
    if x < 0 then 0 else x
  }

  function Plus(a: Option<int>, b: Option<int>): Option<int> {
    if a.Some? && b.Some? then Some(a.value + b.value) else None
  }

  function Times(n: int, a: Option<int>): Option<int> {
    if a.Some? then Some(n * a.value) else None
  }

  // --------------------------------------------------- size of one child list

  /** Sizes of the structs and messages that a child list refers to. */
  type Sizes = Name -> Option<int>

  function TypeBits(t: TypeDef): Option<int> {
    match t.base
    case Text =>
      if t.length.None? then None
      else if t.charBits.Some? then Some(t.length.value * t.charBits.value)
      else Some(t.length.value * 8)
    case Bytes => if t.length.Some? then Some(t.length.value * 8) else None
    case Bool => Some(if t.bits > 0 then t.bits else 1)
    case Numeric => if t.bits > 0 then Some(t.bits) else None
  }

  function Resolved(ix: Index, n: Name, sizes: Sizes): Option<int> {
    if n in ix.types then TypeBits(ix.types[n])
    else if ix.IsStructOrMessage(n) then sizes(n)
    else None
  }

  function FieldBits(ix: Index, f: Field, sizes: Sizes): Option<int> {
    if f.optional then None
    else if f.isInline && f.typeRef != "" then
      if f.typeRef in ix.types then None else Resolved(ix, f.typeRef, sizes)
    else if f.bits.Some? then Some(Max0(f.bits.value))
    else if f.bytesAttr.Some? then Some(Max0(f.bytesAttr.value) * 8)
    else if f.typeRef == "" then None
    else if f.typeRef == "bytes" || f.typeRef == "string" then
      if f.length.Some? then Some(Max0(f.length.value) * 8) else None
    else Resolved(ix, f.typeRef, sizes)
  }

  /** Bits taken by a child list, or nothing when some part of it varies. */
  function Bits(ix: Index, cs: seq<Child>, sizes: Sizes): Option<int>
    decreases cs
  {
    if cs == [] then Some(0) else Plus(ChildBits(ix, cs[0], sizes), Bits(ix, cs[1..], sizes))
  }

  function ChildBits(ix: Index, c: Child, sizes: Sizes): Option<int>
    decreases c
  {
    match c
    case FieldChild(f) => FieldBits(ix, f, sizes)
    case StructChild(optional, isBitmap, cs) => if optional || isBitmap then None else Bits(ix, cs, sizes)
    case ArrayChild(openEnded, optional, count, ref, cs) =>
      if openEnded || optional || count.None? then None
      else Times(count.value, if ref != "" then Resolved(ix, ref, sizes) else Bits(ix, cs, sizes))
    case ChoiceChild(_, _) => None
    case FxChild(_) => None
    case ReservedChild(bits) => Some(bits)
    case AlignChild => None
  }

  // -------------------------------------------- references: two ways to follow

  /** Size of a referenced struct or message while the names in visiting are being sized. */
  function Sized(ix: Index, n: Name, visiting: set<Name>): Option<int>
    decreases ix.Nodes() - visiting, 0
  {
    if n in visiting || n !in ix.Nodes() then None
    else Bits(ix, ix.ChildrenOf(n), Under(ix, visiting + {n}))
  }

  function Under(ix: Index, visiting: set<Name>): Sizes
    decreases ix.Nodes() - visiting, 1
  {
    (m: Name) => Sized(ix, m, visiting)
  }

  /** Plain recursive sum that follows references at most depth deep. */
  function Plain(ix: Index, n: Name, depth: nat): Option<int>
    decreases depth, 0
  {
    if depth == 0 || n !in ix.Nodes() then None
    else Bits(ix, ix.ChildrenOf(n), PlainAt(ix, depth - 1))
  }

  function PlainAt(ix: Index, depth: nat): Sizes
    decreases depth, 1
  {
    (m: Name) => Plain(ix, m, depth)
  }

  ghost predicate Refines(a: Sizes, b: Sizes) {
    forall m :: a(m).Some? ==> b(m) == a(m)
  }

  lemma {:induction false} BitsRefine(ix: Index, cs: seq<Child>, a: Sizes, b: Sizes)
    requires Refines(a, b)
    ensures Bits(ix, cs, a).Some? ==> Bits(ix, cs, b) == Bits(ix, cs, a)
    decreases cs
  {
    if cs != [] {
      ChildRefines(ix, cs[0], a, b);
      BitsRefine(ix, cs[1..], a, b);
    }
  }

  lemma {:induction false} ChildRefines(ix: Index, c: Child, a: Sizes, b: Sizes)
    requires Refines(a, b)
    ensures ChildBits(ix, c, a).Some? ==> ChildBits(ix, c, b) == ChildBits(ix, c, a)
    decreases c
  {
    match c
    case StructChild(_, _, cs) => BitsRefine(ix, cs, a, b);
    case ArrayChild(_, _, _, _, cs) => BitsRefine(ix, cs, a, b);
    case _ =>
  }

  lemma {:induction false} DeeperIsStable(ix: Index, n: Name, d: nat, e: nat)
    requires d <= e
    ensures Plain(ix, n, d).Some? ==> Plain(ix, n, e) == Plain(ix, n, d)
    decreases d
  {
    hide Bits;
    if 0 < d && n in ix.Nodes() {
      var a, b := PlainAt(ix, d - 1), PlainAt(ix, e - 1);
      forall m ensures a(m).Some? ==> b(m) == a(m) {
        DeeperIsStable(ix, m, d - 1, e - 1);
      }
      BitsRefine(ix, ix.ChildrenOf(n), a, b);
    }
  }

  lemma SizedStep(ix: Index, n: Name, visiting: set<Name>)
    ensures Sized(ix, n, visiting) ==
            if n in visiting || n !in ix.Nodes() then None
            else Bits(ix, ix.ChildrenOf(n), Under(ix, visiting + {n}))
  {
  }

  lemma PlainStep(ix: Index, n: Name, d: nat)
    requires n in ix.Nodes()
    ensures Plain(ix, n, d + 1) == Bits(ix, ix.ChildrenOf(n), PlainAt(ix, d))
  {
  }

  ghost function Unvisited(ix: Index, visiting: set<Name>): nat {
    |ix.Nodes() - visiting|
  }

  lemma OneLess(ix: Index, visiting: set<Name>, n: Name)
    requires n in ix.Nodes() && n !in visiting
    ensures Unvisited(ix, visiting) == Unvisited(ix, visiting + {n}) + 1
  {
    assert ix.Nodes() - visiting == (ix.Nodes() - (visiting + {n})) + {n};
  }

  lemma NodeIsPlain(ix: Index, n: Name, visiting: set<Name>, d: nat)
    requires n in ix.Nodes() && n !in visiting && Refines(Under(ix, visiting + {n}), PlainAt(ix, d))
    ensures Sized(ix, n, visiting).Some? ==> Plain(ix, n, d + 1) == Sized(ix, n, visiting)
  {
    hide Bits, Refines, Plain, Sized, Under, PlainAt;
    SizedStep(ix, n, visiting);
    PlainStep(ix, n, d);
    BitsRefine(ix, ix.ChildrenOf(n), Under(ix, visiting + {n}), PlainAt(ix, d));
  }

  /** A size found with the visiting set is a plain sum; the names not yet visited bound the depth. */
  lemma {:induction false} SizedIsPlain(ix: Index, visiting: set<Name>, d: nat)
    requires Unvisited(ix, visiting) <= d
    ensures Refines(Under(ix, visiting), PlainAt(ix, d))
    decreases d
  {
    hide Bits, Plain, Sized, Unvisited;
    forall m ensures Sized(ix, m, visiting).Some? ==> Plain(ix, m, d) == Sized(ix, m, visiting) {
      if m in ix.Nodes() && m !in visiting {
        OneLess(ix, visiting, m);
        SizedIsPlain(ix, visiting + {m}, d - 1);
        NodeIsPlain(ix, m, visiting, d - 1);
      } else {
        SizedStep(ix, m, visiting);
      }
    }
  }

  /** The visiting set loses no size: it only ever holds names whose sums need more depth. */
  lemma {:induction false} PlainIsSized(ix: Index, n: Name, d: nat, visiting: set<Name>)
    requires forall v <- visiting :: Plain(ix, v, d).None?
    ensures Plain(ix, n, d).Some? ==> Sized(ix, n, visiting) == Plain(ix, n, d)
    decreases d
  {
    hide Bits;
    if Plain(ix, n, d).Some? {
      forall v | v in visiting ensures Plain(ix, v, d - 1).None? {
        DeeperIsStable(ix, v, d - 1, d);
      }
      if Plain(ix, n, d - 1).Some? {
        DeeperIsStable(ix, n, d - 1, d);
        PlainIsSized(ix, n, d - 1, visiting);
      } else {
        var more := visiting + {n};
        var a, b := PlainAt(ix, d - 1), Under(ix, more);
        forall m ensures a(m).Some? ==> b(m) == a(m) {
          PlainIsSized(ix, m, d - 1, more);
        }
        BitsRefine(ix, ix.ChildrenOf(n), a, b);
      }
    }
  }

  /** On every schema, cyclic or not, sizing from the top is the plain sum taken to any sufficient depth. */
  lemma SizerIsPlainSum(ix: Index, cs: seq<Child>, d: nat)
    requires d >= |ix.Nodes()|
    ensures Bits(ix, cs, Under(ix, {})) == Bits(ix, cs, PlainAt(ix, d))
  {
    hide Bits, Sized, Plain;
    var none: set<Name> := {};
    assert ix.Nodes() - none == ix.Nodes();
    var a, b := Under(ix, none), PlainAt(ix, d);
    SizedIsPlain(ix, none, d);
    forall m ensures a(m) == b(m) {
      PlainIsSized(ix, m, d, none);
    }
    BitsRefine(ix, cs, a, b);
    BitsRefine(ix, cs, b, a);
  }

  // ------------------------------------------------------ when a size is unknown

  /** Names whose sizes the sum asks for. */
  function Deps(ix: Index, cs: seq<Child>): (ns: seq<Name>)
    ensures forall n <- ns :: n in ix.Nodes()
    decreases cs
  {
    if cs == [] then [] else ChildDeps(ix, cs[0]) + Deps(ix, cs[1..])
  }

  function NameDeps(ix: Index, n: Name): (ns: seq<Name>)
    ensures forall n <- ns :: n in ix.Nodes()
  {
    if n !in ix.types && ix.IsStructOrMessage(n) then [n] else []
  }

  predicate SizedByAttribute(f: Field) {
    !(f.isInline && f.typeRef != "") &&
    (f.bits.Some? || f.bytesAttr.Some? || f.typeRef == "" || f.typeRef == "bytes" || f.typeRef == "string")
  }

  function ChildDeps(ix: Index, c: Child): (ns: seq<Name>)
    ensures forall n <- ns :: n in ix.Nodes()
    decreases c
  {
    match c
    case FieldChild(f) => if f.optional || SizedByAttribute(f) then [] else NameDeps(ix, f.typeRef)
    case StructChild(optional, isBitmap, cs) => if optional || isBitmap then [] else Deps(ix, cs)
    case ArrayChild(openEnded, optional, count, ref, cs) =>
      if openEnded || optional || count.None? then []
      else if ref != "" then NameDeps(ix, ref)
      else Deps(ix, cs)
    case _ => []
  }

  predicate RigidType(t: TypeDef) {
    match t.base
    case Text => t.length.Some?
    case Bytes => t.length.Some?
    case Bool => true
    case Numeric => t.bits > 0
  }

  predicate RigidName(ix: Index, n: Name) {
    if n in ix.types then RigidType(ix.types[n]) else ix.IsStructOrMessage(n)
  }

  predicate RigidField(ix: Index, f: Field) {
    && !f.optional
    && if f.isInline && f.typeRef != "" then f.typeRef !in ix.types && RigidName(ix, f.typeRef)
       else if f.bits.Some? || f.bytesAttr.Some? then true
       else if f.typeRef == "bytes" || f.typeRef == "string" then f.length.Some?
       else f.typeRef != "" && RigidName(ix, f.typeRef)
  }

  /** Nothing optional, conditional, open-ended, extensible, aligned or unsized in the list itself. */
  predicate Rigid(ix: Index, cs: seq<Child>)
    decreases cs
  {
    cs == [] || (RigidChild(ix, cs[0]) && Rigid(ix, cs[1..]))
  }

  predicate RigidChild(ix: Index, c: Child)
    decreases c
  {
    match c
    case FieldChild(f) => RigidField(ix, f)
    case StructChild(optional, isBitmap, cs) => !optional && !isBitmap && Rigid(ix, cs)
    case ArrayChild(openEnded, optional, count, ref, cs) =>
      !openEnded && !optional && count.Some? && if ref != "" then RigidName(ix, ref) else Rigid(ix, cs)
    case ChoiceChild(_, _) => false
    case FxChild(_) => false
    case ReservedChild(_) => true
    case AlignChild => false
  }

  ghost predicate Known(ns: seq<Name>, sizes: Sizes) {
    forall n <- ns :: sizes(n).Some?
  }

  lemma {:induction false} KnownIff(ix: Index, cs: seq<Child>, sizes: Sizes)
    ensures Bits(ix, cs, sizes).Some? <==> Rigid(ix, cs) && Known(Deps(ix, cs), sizes)
    decreases cs
  {
    if cs != [] {
      ChildKnownIff(ix, cs[0], sizes);
      KnownIff(ix, cs[1..], sizes);
    }
  }

  lemma {:induction false} ChildKnownIff(ix: Index, c: Child, sizes: Sizes)
    ensures ChildBits(ix, c, sizes).Some? <==>
            RigidChild(ix, c) && Known(ChildDeps(ix, c), sizes)
    decreases c
  {
    match c
    case FieldChild(f) => FieldKnownIff(ix, f, sizes);
    case StructChild(_, _, cs) => KnownIff(ix, cs, sizes);
    case ArrayChild(_, _, _, ref, cs) =>
      KnownIff(ix, cs, sizes);
      ResolvedIff(ix, ref, sizes);
    case _ =>
  }

  lemma ResolvedIff(ix: Index, n: Name, sizes: Sizes)
    ensures Resolved(ix, n, sizes).Some? <==> RigidName(ix, n) && Known(NameDeps(ix, n), sizes)
  {
    if n !in ix.types && ix.IsStructOrMessage(n) {
      assert NameDeps(ix, n)[0] == n;
    }
  }

  lemma FieldKnownIff(ix: Index, f: Field, sizes: Sizes)
    ensures FieldBits(ix, f, sizes).Some? <==>
            RigidField(ix, f) && Known(ChildDeps(ix, FieldChild(f)), sizes)
  {
    ResolvedIff(ix, f.typeRef, sizes);
  }

  /** Following p from cs asks for the sizes of p[0], p[1], ... in turn. */
  ghost predicate Leads(ix: Index, cs: seq<Child>, p: seq<Name>)
    decreases |p|
  {
    p == [] || (p[0] in Deps(ix, cs) && Leads(ix, ix.ChildrenOf(p[0]), p[1..]))
  }

  ghost function Reached(ix: Index, cs: seq<Child>, p: seq<Name>): seq<Child>
    decreases |p|
  {
    if p == [] then cs else Reached(ix, ix.ChildrenOf(p[0]), p[1..])
  }

  /** p meets a name of seen, or a name twice. */
  ghost predicate Hits(seen: set<Name>, p: seq<Name>)
    decreases |p|
  {
    p != [] && (p[0] in seen || Hits(seen + {p[0]}, p[1..]))
  }

  lemma {:induction false} HitsIff(seen: set<Name>, p: seq<Name>)
    ensures Hits(seen, p) <==> !Distinct(p) || exists n <- p :: n in seen
    decreases |p|
  {
    if p != [] {
      var rest := p[1..];
      HitsIff(seen + {p[0]}, rest);
      assert p == [p[0]] + rest;
      assert Distinct(p) <==> Distinct(rest) && p[0] !in rest;
    }
  }

  lemma {:induction false} KnownEverywhere(ix: Index, cs: seq<Child>, visiting: set<Name>, p: seq<Name>)
    requires Bits(ix, cs, Under(ix, visiting)).Some? && Leads(ix, cs, p)
    ensures Rigid(ix, Reached(ix, cs, p)) && !Hits(visiting, p)
    decreases |p|
  {
    hide Bits, Sized, Deps, Rigid;
    KnownIff(ix, cs, Under(ix, visiting));
    if p != [] {
      SizedStep(ix, p[0], visiting);
      KnownEverywhere(ix, ix.ChildrenOf(p[0]), visiting + {p[0]}, p[1..]);
    }
  }

  lemma {:induction false} Culprit(ix: Index, cs: seq<Child>, visiting: set<Name>) returns (p: seq<Name>)
    requires Bits(ix, cs, Under(ix, visiting)).None?
    ensures Leads(ix, cs, p) && (!Rigid(ix, Reached(ix, cs, p)) || Hits(visiting, p))
    decreases Unvisited(ix, visiting)
  {
    hide Bits, Sized, Deps, Rigid, Unvisited;
    KnownIff(ix, cs, Under(ix, visiting));
    if !Rigid(ix, cs) {
      p := [];
    } else {
      var m :| m in Deps(ix, cs) && Sized(ix, m, visiting).None?;
      SizedStep(ix, m, visiting);
      if m in visiting {
        p := [m];
        assert p[1..] == [];
      } else {
        OneLess(ix, visiting, m);
        var q := Culprit(ix, ix.ChildrenOf(m), visiting + {m});
        p := [m] + q;
        assert p[1..] == q;
      }
    }
  }

  /** A size is unknown exactly when following references meets something that varies, or a cycle. */
  lemma DynamicIff(ix: Index, cs: seq<Child>)
    ensures Bits(ix, cs, Under(ix, {})).None? <==>
            exists p :: Leads(ix, cs, p) && (!Rigid(ix, Reached(ix, cs, p)) || !Distinct(p))
  {
    hide Bits, Rigid, Leads, Reached, Hits, Distinct;
    var none: set<Name> := {};
    if Bits(ix, cs, Under(ix, none)).None? {
      var p := Culprit(ix, cs, none);
      HitsIff(none, p);
    } else {
      forall p | Leads(ix, cs, p) ensures Rigid(ix, Reached(ix, cs, p)) && Distinct(p) {
        KnownEverywhere(ix, cs, none, p);
        HitsIff(none, p);
      }
    }
  }
}
