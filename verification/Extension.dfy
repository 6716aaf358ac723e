/**
  FX extension blocks: a continuation bit, then, if anything in the block is set, every field of
  the extent at its fixed width (absent ones as zero), nested blocks, and a terminal zero bit when
  the extent has no nested block. And arrays that repeat while an FX bit is set.
 */
module Extension {
  import opened Bits
  import opened Decimal
  import opened Errors
  import opened Wire
  import opened BitWriting
  import opened BitReading

  datatype Child = Field(width: nat, value: Option<u64>) | Reserved(bits: nat) | Nested(body: Children)

  datatype Children = Nil | Cons(head: Child, tail: Children)

  /** Field widths are those write_bits accepts. */
  predicate ValidBody(cs: Children) {
    match cs
    case Nil => true
    case Cons(Field(w, _), t) => w <= 64 && ValidBody(t)
    case Cons(Reserved(_), t) => ValidBody(t)
    case Cons(Nested(b), t) => ValidBody(b) && ValidBody(t)
  }

  /** Same schema: equal but for the values. */
  predicate SameShape(a: Children, b: Children) {
    match (a, b)
    case (Nil, Nil) => true
    case (Cons(Field(w, _), t), Cons(Field(w', _), t')) => w == w' && SameShape(t, t')
    case (Cons(Reserved(n), t), Cons(Reserved(n'), t')) => n == n' && SameShape(t, t')
    case (Cons(Nested(x), t), Cons(Nested(x'), t')) => SameShape(x, x') && SameShape(t, t')
    case _ => false
  }

  /** Whether anything in the block or in a block nested in it is set. */
  predicate HasValue(cs: Children) {
    match cs
    case Nil => false
    case Cons(Field(_, v), t) => v.Some? || HasValue(t)
    case Cons(Reserved(_), t) => HasValue(t)
    case Cons(Nested(b), t) => HasValue(b) || HasValue(t)
  }

  predicate HasNested(cs: Children) {
    cs.Cons? && (cs.head.Nested? || HasNested(cs.tail))
  }

  function ValueOr0(v: Option<u64>): u64 {
    if v.None? then 0 else v.value
  }

  // ------------------------------------------------------------------- encoding

  function BlockBits(body: Children): seq<bool>
    decreases body, 1
  {
    if HasValue(body) then [true] + ExtentBits(body) + Terminal(body) else [false]
  }

  function Terminal(body: Children): seq<bool> {
    if HasNested(body) then [] else [false]
  }

  function ExtentBits(cs: Children): seq<bool>
    decreases cs, 0
  {
    match cs
    case Nil => []
    case Cons(Field(w, v), t) => BitsOf(ValueOr0(v), w) + ExtentBits(t)
    case Cons(Reserved(n), t) => Zeros(n) + ExtentBits(t)
    case Cons(Nested(b), t) => BlockBits(b) + ExtentBits(t)
  }

  // ------------------------------------------------------------------- decoding

  /** The block with nothing set. */
  function Cleared(cs: Children): Children {
    match cs
    case Nil => Nil
    case Cons(Field(w, _), t) => Cons(Field(w, None), Cleared(t))
    case Cons(Reserved(n), t) => Cons(Reserved(n), Cleared(t))
    case Cons(Nested(b), t) => Cons(Nested(Cleared(b)), Cleared(t))
  }

  /** Decode a block of this shape at pos; the values of the shape are not looked at. */
  function TakeBlock(shape: Children, bits: seq<bool>, pos: nat): (r: Result<(Children, nat)>)
    decreases shape, 1
  {
    match TakeBits(bits, pos, 1)
    case Err(e) => Err(e)
    case Ok(0) => Ok((Cleared(shape), pos + 1))
    case Ok(_) =>
      match TakeExtent(shape, bits, pos + 1)
      case Err(e) => Err(e)
      case Ok((cs, next)) =>
        if HasNested(shape) then Ok((cs, next))
        else if next + 1 > |bits| then Err(BufferUnderrun)
        else Ok((cs, next + 1))
  }

  function TakeExtent(shape: Children, bits: seq<bool>, pos: nat): (r: Result<(Children, nat)>)
    decreases shape, 0
  {
    match shape
    case Nil => Ok((Nil, pos))
    case Cons(Field(w, _), t) =>
      (match TakeBits(bits, pos, w)
       case Err(e) => Err(e)
       case Ok(v) => WithHead(Field(w, Some(Word(v))), TakeExtent(t, bits, pos + w)))
    case Cons(Reserved(n), t) =>
      if pos + n > |bits| then Err(BufferUnderrun)
      else WithHead(Reserved(n), TakeExtent(t, bits, pos + n))
    case Cons(Nested(b), t) =>
      (match TakeBlock(b, bits, pos)
       case Err(e) => Err(e)
       case Ok((b', next)) => WithHead(Nested(b'), TakeExtent(t, bits, next)))
  }

  function WithHead(c: Child, r: Result<(Children, nat)>): Result<(Children, nat)> {
    match r
    case Err(e) => Err(e)
    case Ok((cs, next)) => Ok((Cons(c, cs), next))
  }

  function Word(v: nat): u64 {
    v % TWO_64
  }

  // ----------------------------------------------------------------- round trip

  /** A block as it comes back: empty, or every field of the extent filled in. */
  function Normal(body: Children): Children
    decreases body, 1
  {
    if HasValue(body) then Filled(body) else Cleared(body)
  }

  function Filled(cs: Children): Children
    decreases cs, 0
  {
    match cs
    case Nil => Nil
    case Cons(Field(w, v), t) => Cons(Field(w, Some(Word(Low(ValueOr0(v), w)))), Filled(t))
    case Cons(Reserved(n), t) => Cons(Reserved(n), Filled(t))
    case Cons(Nested(b), t) => Cons(Nested(Normal(b)), Filled(t))
  }

  /** Decoding depends on the shape alone. */
  lemma {:induction false} BlockShape(a: Children, b: Children, bits: seq<bool>, pos: nat)
    requires SameShape(a, b)
    ensures TakeBlock(a, bits, pos) == TakeBlock(b, bits, pos)
    decreases a, 1
  {
    ClearedShape(a, b);
    NestedShape(a, b);
    ExtentShape(a, b, bits, pos + 1);
  }

  lemma {:induction false} ExtentShape(a: Children, b: Children, bits: seq<bool>, pos: nat)
    requires SameShape(a, b)
    ensures TakeExtent(a, bits, pos) == TakeExtent(b, bits, pos)
    decreases a, 0
  {
    match a
    case Nil =>
    case Cons(Field(w, _), t) => ExtentShape(t, b.tail, bits, pos + w);
    case Cons(Reserved(n), t) => ExtentShape(t, b.tail, bits, pos + n);
    case Cons(Nested(x), t) =>
      BlockShape(x, b.head.body, bits, pos);
      match TakeBlock(x, bits, pos)
      case Err(_) =>
      case Ok((_, next)) => ExtentShape(t, b.tail, bits, next);
  }

  lemma {:induction false} ClearedShape(a: Children, b: Children)
    requires SameShape(a, b)
    ensures Cleared(a) == Cleared(b)
  {
    match a
    case Nil =>
    case Cons(Nested(x), t) => ClearedShape(x, b.head.body); ClearedShape(t, b.tail);
    case Cons(_, t) => ClearedShape(t, b.tail);
  }

  lemma {:induction false} NestedShape(a: Children, b: Children)
    requires SameShape(a, b)
    ensures HasNested(a) == HasNested(b)
  {
    if a.Cons? { NestedShape(a.tail, b.tail); }
  }

  /** Decoding an encoded block, wherever it lies, gives its normal form and stops right after it. */
  lemma {:induction false} BlockReadBack(body: Children, pre: seq<bool>, post: seq<bool>)
    requires ValidBody(body)
    ensures TakeBlock(body, pre + BlockBits(body) + post, |pre|) == Ok((Normal(body), |pre| + |BlockBits(body)|))
    decreases body, 1
  {
    hide BitsOf, ValueOf, ExtentBits;
    var bits := pre + BlockBits(body) + post;
    var flag := HasValue(body);
    OneBit(bits, |pre|);
    assert bits[|pre|] == flag;
    if flag {
      var e, t := ExtentBits(body), Terminal(body);
      assert bits == (pre + [true]) + e + (t + post);
      ExtentReadBack(body, pre + [true], t + post);
    }
  }

  lemma OneBit(bits: seq<bool>, pos: nat)
    requires pos < |bits|
    ensures TakeBits(bits, pos, 1) == Ok(if bits[pos] then 1 else 0)
  {
    assert bits[pos..pos + 1] == [bits[pos]];
    assert [bits[pos]][..0] == [];
  }

  lemma {:induction false} ExtentReadBack(cs: Children, pre: seq<bool>, post: seq<bool>)
    requires ValidBody(cs)
    ensures TakeExtent(cs, pre + ExtentBits(cs) + post, |pre|) == Ok((Filled(cs), |pre| + |ExtentBits(cs)|))
    decreases cs, 0
  {
    hide BitsOf, ValueOf, TakeBits, Low, BlockBits, TakeBlock;
    var bits := pre + ExtentBits(cs) + post;
    match cs
    case Nil =>
    case Cons(Field(w, v), t) =>
      var f := BitsOf(ValueOr0(v), w);
      assert bits == (pre + f) + ExtentBits(t) + post;
      assert bits == pre + f + (ExtentBits(t) + post);
      BitsReadBack(ValueOr0(v), w, pre, ExtentBits(t) + post);
      ExtentReadBack(t, pre + f, post);
    case Cons(Reserved(n), t) =>
      assert bits == (pre + Zeros(n)) + ExtentBits(t) + post;
      ExtentReadBack(t, pre + Zeros(n), post);
    case Cons(Nested(b), t) =>
      assert bits == (pre + BlockBits(b)) + ExtentBits(t) + post;
      assert bits == pre + BlockBits(b) + (ExtentBits(t) + post);
      BlockReadBack(b, pre, ExtentBits(t) + post);
      ExtentReadBack(t, pre + BlockBits(b), post);
  }

  // -------------------------------------------------------- what comes back, place by place

  function ChildAt(cs: Children, i: nat): Option<Child> {
    match cs
    case Nil => None
    case Cons(c, t) => if i == 0 then Some(c) else ChildAt(t, i - 1)
  }

  /** The child at a place: its number in the block, or that of a nested block and on into it. */
  function At(cs: Children, path: seq<nat>): Option<Child>
    decreases |path|
  {
    if path == [] then None
    else
      match ChildAt(cs, path[0])
      case None => None
      case Some(c) =>
        if |path| == 1 then Some(c) else if c.Nested? then At(c.body, path[1..]) else None
  }

  /** Places that start in the same child and go on alike lead to the same child. */
  lemma SamePlace(a: Children, p: seq<nat>, b: Children, q: seq<nat>)
    requires p != [] && q != [] && ChildAt(a, p[0]) == ChildAt(b, q[0]) && p[1..] == q[1..]
    ensures At(a, p) == At(b, q)
  {
    assert |p| == |q|;
  }

  /** The nested block at a place; the block itself at the empty one. */
  function BlockAt(cs: Children, path: seq<nat>): Option<Children>
    decreases |path|
  {
    if path == [] then Some(cs)
    else
      match ChildAt(cs, path[0])
      case Some(Nested(b)) => BlockAt(b, path[1..])
      case _ => None
  }

  predicate SetAt(cs: Children, path: seq<nat>) {
    At(cs, path).Some? && At(cs, path).value.Field? && At(cs, path).value.value.Some?
  }

  /** Some field in the block or in a block below it is set. */
  ghost predicate SetSomewhere(cs: Children) {
    exists path :: SetAt(cs, path)
  }

  function CutTo(v: u64, w: nat): (r: u64)
    ensures r == v % Pow2(w)
  {
    Remainder(v, Pow2(w));
    v % Pow2(w)
  }

  lemma Remainder(v: nat, p: nat)
    requires p > 0
    ensures 0 <= v % p <= v
  {
  }

  /** Set fields come back modulo their width; unset ones as zero where the extent was written, and unset elsewhere. */
  ghost predicate Restored(body: Children, back: Children, path: seq<nat>) {
    match At(body, path)
    case None => At(back, path).None?
    case Some(Reserved(n)) => At(back, path) == Some(Reserved(n))
    case Some(Nested(_)) => At(back, path).Some? && At(back, path).value.Nested?
    case Some(Field(w, Some(v))) => At(back, path) == Some(Field(w, Some(CutTo(v, w))))
    case Some(Field(w, None)) =>
      var block := BlockAt(body, path[..|path| - 1]);
      At(back, path) == Some(Field(w, if block.Some? && SetSomewhere(block.value) then Some(0) else None))
  }

  lemma NextPlace(c: Child, t: Children, path: seq<nat>)
    requires path != []
    ensures At(Cons(c, t), [path[0] + 1] + path[1..]) == At(t, path)
  {
    hide At;
    var shifted := [path[0] + 1] + path[1..];
    assert shifted[1..] == path[1..];
    SamePlace(Cons(c, t), shifted, t, path);
  }

  lemma BelowPlace(b: Children, t: Children, path: seq<nat>)
    requires path != []
    ensures At(Cons(Nested(b), t), [0] + path) == At(b, path)
  {
    assert ([0] + path)[1..] == path;
  }

  lemma {:induction false} SetPlace(cs: Children) returns (path: seq<nat>)
    requires HasValue(cs)
    ensures SetAt(cs, path)
    decreases cs
  {
    var c, t := cs.head, cs.tail;
    if c.Field? && c.value.Some? {
      path := [0];
    } else if c.Nested? && HasValue(c.body) {
      var below := SetPlace(c.body);
      path := [0] + below;
      BelowPlace(c.body, t, below);
    } else {
      var later := SetPlace(t);
      path := [later[0] + 1] + later[1..];
      NextPlace(c, t, later);
    }
  }

  lemma {:induction false} SetIsValue(cs: Children, path: seq<nat>)
    requires SetAt(cs, path)
    ensures HasValue(cs)
    decreases cs
  {
    var c, t := cs.head, cs.tail;
    if path[0] > 0 {
      var later := [path[0] - 1] + path[1..];
      assert [later[0] + 1] + later[1..] == path;
      NextPlace(c, t, later);
      SetIsValue(t, later);
    } else if |path| > 1 {
      SetIsValue(c.body, path[1..]);
    }
  }

  /** The encoder's test is what it should be. */
  lemma HasValueIff(cs: Children)
    ensures HasValue(cs) <==> SetSomewhere(cs)
  {
    hide SetAt, HasValue;
    if HasValue(cs) {
      var path := SetPlace(cs);
      assert SetAt(cs, path);
    }
    if path :| SetAt(cs, path) {
      SetIsValue(cs, path);
    }
  }

  /** A child in a written extent. */
  function FilledChild(c: Child): Child {
    match c
    case Field(w, v) => Field(w, Some(Word(Low(ValueOr0(v), w))))
    case Reserved(n) => Reserved(n)
    case Nested(b) => Nested(Normal(b))
  }

  function ClearedChild(c: Child): Child {
    match c
    case Field(w, _) => Field(w, None)
    case Reserved(n) => Reserved(n)
    case Nested(b) => Nested(Cleared(b))
  }

  lemma {:induction false} FilledAt(cs: Children, i: nat)
    ensures ChildAt(Filled(cs), i) == if ChildAt(cs, i).None? then None else Some(FilledChild(ChildAt(cs, i).value))
    decreases cs
  {
    hide Low, Word, Normal;
    if cs.Cons? && i > 0 { FilledAt(cs.tail, i - 1); }
  }

  lemma {:induction false} ClearedAt(cs: Children, i: nat)
    ensures ChildAt(Cleared(cs), i) == if ChildAt(cs, i).None? then None else Some(ClearedChild(ChildAt(cs, i).value))
    decreases cs
  {
    if cs.Cons? && i > 0 { ClearedAt(cs.tail, i - 1); }
  }

  lemma {:induction false} ValidAt(cs: Children, i: nat)
    requires ValidBody(cs) && ChildAt(cs, i).Some?
    ensures match ChildAt(cs, i).value
      case Field(w, _) => w <= 64
      case Reserved(_) => true
      case Nested(b) => ValidBody(b)
    decreases cs
  {
    if i > 0 { ValidAt(cs.tail, i - 1); }
  }

  lemma FieldWord(v: u64, w: nat)
    requires w <= 64
    ensures Word(Low(v, w)) == v % Pow2(w)
  {
    hide Low, Pow2;
    ShiftMeaning(v, w);
    RawFits(Low(v, w), w);
  }

  /** Nothing set in a block: nothing set in any block below, and all of it comes back unset. */
  lemma {:induction false} UnsetRestored(body: Children, path: seq<nat>)
    requires !HasValue(body)
    ensures Restored(body, Cleared(body), path)
    decreases |path|
  {
    hide HasValue;
    if path != [] {
      var i := path[0];
      ClearedAt(body, i);
      HasValueIff(body);
      match ChildAt(body, i)
      case Some(Nested(b)) =>
        if |path| > 1 {
          NoneBelow(body, i, b);
          UnsetRestored(b, path[1..]);
          assert path[1..][..|path| - 2] == path[..|path| - 1][1..];
        }
      case Some(Field(_, _)) =>
        if |path| == 1 {
          assert SetAt(body, path) <==> At(body, path).value.value.Some?;
          assert path[..0] == [];
        }
      case _ =>
    }
  }

  lemma NoneBelow(body: Children, i: nat, b: Children)
    requires !HasValue(body) && ChildAt(body, i) == Some(Nested(b))
    ensures !HasValue(b)
  {
    hide HasValue;
    HasValueIff(body);
    HasValueIff(b);
    forall below ensures !SetAt(b, below) {
      assert ([i] + below)[1..] == below;
      assert !SetAt(body, [i] + below);
    }
  }

  lemma {:induction false} PlaceRestored(body: Children, path: seq<nat>)
    requires ValidBody(body)
    ensures Restored(body, Normal(body), path)
    decreases |path|
  {
    hide HasValue, Low, Pow2, Word, CutTo;
    if !HasValue(body) {
      UnsetRestored(body, path);
    } else if path != [] {
      var i := path[0];
      FilledAt(body, i);
      HasValueIff(body);
      match ChildAt(body, i)
      case None =>
      case Some(Nested(b)) =>
        ValidAt(body, i);
        if |path| > 1 {
          PlaceRestored(b, path[1..]);
          assert path[1..][..|path| - 2] == path[..|path| - 1][1..];
        }
      case Some(Field(w, v)) =>
        ValidAt(body, i);
        FieldWord(ValueOr0(v), w);
        ZeroRest(w);
        if |path| == 1 { assert path[..0] == []; }
      case Some(Reserved(_)) =>
    }
  }

  lemma ZeroRest(w: nat)
    ensures 0 % Pow2(w) == 0
  {
  }

  // ------------------------------------------------------------- what lies on the wire

  function Count(cs: Children): nat {
    if cs.Nil? then 0 else 1 + Count(cs.tail)
  }

  function Flat(pieces: seq<seq<bool>>): seq<bool> {
    if pieces == [] then [] else pieces[0] + Flat(pieces[1..])
  }

  /** What one child puts on the wire in a written extent. */
  ghost predicate PieceOf(c: Child, p: seq<bool>) {
    match c
    case Field(w, v) => |p| == w && ValueOf(p) == if v.Some? then v.value % Pow2(w) else 0
    case Reserved(n) => |p| == n && forall i :: 0 <= i < n ==> !p[i]
    case Nested(b) => p == BlockBits(b)
  }

  ghost predicate PiecesOf(cs: Children, pieces: seq<seq<bool>>) {
    |pieces| == Count(cs) &&
    forall i :: 0 <= i < |pieces| ==> ChildAt(cs, i).Some? && PieceOf(ChildAt(cs, i).value, pieces[i])
  }

  lemma FieldPiece(w: nat, v: Option<u64>)
    ensures PieceOf(Field(w, v), BitsOf(ValueOr0(v), w))
  {
    hide Low, BitsOf, ValueOf, Pow2;
    ValueOfBits(ValueOr0(v), w);
    ShiftMeaning(ValueOr0(v), w);
    ZeroRest(w);
  }

  lemma {:induction false} ExtentPieces(cs: Children) returns (pieces: seq<seq<bool>>)
    ensures PiecesOf(cs, pieces) && Flat(pieces) == ExtentBits(cs)
    decreases cs
  {
    hide BitsOf, ValueOf, BlockBits, PieceOf;
    if cs.Nil? {
      pieces := [];
    } else {
      var first := FirstPiece(cs.head);
      var later := ExtentPieces(cs.tail);
      pieces := [first] + later;
      assert pieces[1..] == later;
      assert forall i :: 0 < i < |pieces| ==> ChildAt(cs, i) == ChildAt(cs.tail, i - 1);
    }
  }

  lemma FirstPiece(c: Child) returns (p: seq<bool>)
    ensures PieceOf(c, p)
    ensures p == match c case Field(w, v) => BitsOf(ValueOr0(v), w) case Reserved(n) => Zeros(n) case Nested(b) => BlockBits(b)
  {
    match c
    case Field(w, v) => FieldPiece(w, v); p := BitsOf(ValueOr0(v), w);
    case Reserved(n) => p := Zeros(n);
    case Nested(b) => p := BlockBits(b);
  }

  predicate NestedAt(cs: Children, i: nat) {
    ChildAt(cs, i).Some? && ChildAt(cs, i).value.Nested?
  }

  lemma {:induction false} HasNestedIff(cs: Children)
    ensures HasNested(cs) <==> exists i: nat :: NestedAt(cs, i)
    decreases cs
  {
    if cs.Cons? {
      HasNestedIff(cs.tail);
      if cs.head.Nested? {
        assert NestedAt(cs, 0);
      } else if i: nat :| NestedAt(cs.tail, i) {
        assert NestedAt(cs, i + 1);
      } else {
        forall i: nat ensures !NestedAt(cs, i) {
          if i > 0 { assert !NestedAt(cs.tail, i - 1); }
        }
      }
    }
  }

  /** A block is one clear bit, or a set one, its children in order, and a clear one unless a nested block is among them. */
  lemma BlockOnWire(body: Children) returns (pieces: seq<seq<bool>>)
    ensures !SetSomewhere(body) ==> BlockBits(body) == [false]
    ensures SetSomewhere(body) ==> PiecesOf(body, pieces)
    ensures SetSomewhere(body) ==>
      BlockBits(body) == [true] + Flat(pieces) + (if exists i: nat :: NestedAt(body, i) then [] else [false])
  {
    hide HasValue, HasNested, SetSomewhere, PiecesOf;
    HasValueIff(body);
    HasNestedIff(body);
    pieces := ExtentPieces(body);
  }

  // ------------------------------------------------------------ self-delimiting

  /** No encoding of a schema is a proper prefix of another, and a prefix already has the same content. */
  lemma PrefixFree(a: Children, b: Children)
    requires ValidBody(a) && ValidBody(b) && SameShape(a, b)
    requires BlockBits(a) <= BlockBits(b)
    ensures BlockBits(a) == BlockBits(b) && Normal(a) == Normal(b)
  {
    hide TakeBlock, BlockBits, Normal, ValidBody;
    var post := BlockBits(b)[|BlockBits(a)|..];
    assert [] + BlockBits(a) + post == BlockBits(b) == [] + BlockBits(b) + [];
    BlockReadBack(a, [], post);
    BlockReadBack(b, [], []);
    BlockShape(a, b, BlockBits(b), 0);
  }

  lemma {:induction false} FilledHasValue(cs: Children)
    ensures HasValue(cs) ==> HasValue(Filled(cs))
    ensures HasNested(Filled(cs)) == HasNested(cs)
    decreases cs
  {
    match cs
    case Nil =>
    case Cons(Nested(b), t) => FilledHasValue(b); FilledHasValue(t);
    case Cons(_, t) => FilledHasValue(t);
  }

  lemma {:induction false} ClearedHasNone(cs: Children)
    ensures !HasValue(Cleared(cs))
  {
    match cs
    case Nil =>
    case Cons(Nested(b), t) => ClearedHasNone(b); ClearedHasNone(t);
    case Cons(_, t) => ClearedHasNone(t);
  }

  lemma {:induction false} NormalBits(body: Children)
    requires ValidBody(body)
    ensures BlockBits(Normal(body)) == BlockBits(body)
    decreases body, 1
  {
    if HasValue(body) {
      FilledHasValue(body);
      FilledBits(body);
    } else {
      ClearedHasNone(body);
    }
  }

  lemma FilledField(v: u64, w: nat)
    requires w <= 64
    ensures BitsOf(Word(Low(v, w)), w) == BitsOf(v, w)
  {
    hide BitsOf, Low;
    RawFits(Low(v, w), w);
    BitsOfLow(v, w, w);
  }

  lemma {:induction false} FilledBits(cs: Children)
    requires ValidBody(cs)
    ensures ExtentBits(Filled(cs)) == ExtentBits(cs)
    decreases cs, 0
  {
    hide BitsOf, BlockBits, Low, Word;
    match cs
    case Nil =>
    case Cons(Field(w, v), t) =>
      FilledBits(t);
      FilledField(ValueOr0(v), w);
    case Cons(Reserved(n), t) => FilledBits(t);
    case Cons(Nested(b), t) => NormalBits(b); FilledBits(t);
  }

  /** The bits say exactly the content up to zero-filling: equal bits if and only if equal normal forms. */
  lemma BitsDecideContent(a: Children, b: Children)
    requires ValidBody(a) && ValidBody(b) && SameShape(a, b)
    ensures BlockBits(a) == BlockBits(b) <==> Normal(a) == Normal(b)
  {
    if BlockBits(a) == BlockBits(b) {
      PrefixFree(a, b);
    }
    if Normal(a) == Normal(b) {
      NormalBits(a);
      NormalBits(b);
    }
  }

  // ------------------------------------------------------- FX-terminated arrays

  datatype Codec<!E> = Codec(enc: E -> seq<bool>, dec: (seq<bool>, nat) -> Result<(E, nat)>)

  /** A decoded element ends within the bits and not before it began. */
  ghost predicate Lawful<E>(c: Codec<E>) {
    forall bits: seq<bool>, pos: nat ::
      c.dec(bits, pos).Ok? ==> pos <= c.dec(bits, pos).value.1 <= |bits|
  }

  ghost predicate Inverts<E>(c: Codec<E>, e: E) {
    forall pre: seq<bool>, post: seq<bool> {:trigger c.dec(pre + c.enc(e) + post, |pre|)} ::
      c.dec(pre + c.enc(e) + post, |pre|) == Ok((e, |pre| + |c.enc(e)|))
  }

  /** Each element, then one bit: whether another follows. */
  function ArrayBits<E>(c: Codec<E>, es: seq<E>): seq<bool> {
    if es == [] then [] else c.enc(es[0]) + [|es| > 1] + ArrayBits(c, es[1..])
  }

  function TakeArray<E>(c: Codec<E>, bits: seq<bool>, pos: nat): (r: Result<(seq<E>, nat)>)
    requires Lawful(c) && pos <= |bits|
    ensures r.Ok? ==> r.value.0 != [] && r.value.1 <= |bits|
    decreases |bits| - pos
  {
    match c.dec(bits, pos)
    case Err(e) => Err(e)
    case Ok((e, next)) =>
      if next == |bits| then Err(BufferUnderrun)
      else if !bits[next] then Ok(([e], next + 1))
      else match TakeArray(c, bits, next + 1)
        case Err(err) => Err(err)
        case Ok((es, end)) => Ok(([e] + es, end))
  }

  lemma ArrayStep<E>(c: Codec<E>, bits: seq<bool>, pos: nat)
    requires Lawful(c) && pos <= |bits| && c.dec(bits, pos).Ok?
    ensures var (e, next) := c.dec(bits, pos).value;
      && next <= |bits|
      && TakeArray(c, bits, pos) ==
         if next == |bits| then Err(BufferUnderrun)
         else if !bits[next] then Ok(([e], next + 1))
         else Prefixed([e], TakeArray(c, bits, next + 1))
  {
  }

  lemma ArrayStops<E>(c: Codec<E>, bits: seq<bool>, pos: nat)
    requires Lawful(c) && pos <= |bits| && c.dec(bits, pos).Err?
    ensures TakeArray(c, bits, pos) == Err(c.dec(bits, pos).error)
  {
  }

  lemma {:induction false} ArrayReadBack<E>(c: Codec<E>, es: seq<E>, pre: seq<bool>, post: seq<bool>)
    requires Lawful(c) && es != [] && forall i :: 0 <= i < |es| ==> Inverts(c, es[i])
    ensures TakeArray(c, pre + ArrayBits(c, es) + post, |pre|) == Ok((es, |pre| + |ArrayBits(c, es)|))
    decreases |es|
  {
    var e, more := c.enc(es[0]), |es| > 1;
    var rest := ArrayBits(c, es[1..]);
    var bits := pre + ArrayBits(c, es) + post;
    assert bits == pre + e + ([more] + rest + post);
    assert c.dec(pre + e + ([more] + rest + post), |pre|) == Ok((es[0], |pre| + |e|));
    assert bits[|pre| + |e|] == more;
    assert es == [es[0]] + es[1..];
    if more {
      assert bits == (pre + e + [more]) + rest + post;
      ArrayReadBack(c, es[1..], pre + e + [more], post);
    } else {
      assert rest == [] && es == [es[0]];
      assert ArrayBits(c, es) == e + [more];
    }
  }

  /** The round trip holds exactly for non-empty arrays: the decoder never returns none. */
  lemma ArrayRoundTripIffNonEmpty<E>(c: Codec<E>, es: seq<E>, pre: seq<bool>, post: seq<bool>)
    requires Lawful(c) && forall i :: 0 <= i < |es| ==> Inverts(c, es[i])
    ensures TakeArray(c, pre + ArrayBits(c, es) + post, |pre|) == Ok((es, |pre| + |ArrayBits(c, es)|)) <==> es != []
  {
    if es != [] { ArrayReadBack(c, es, pre, post); }
  }

  /** On the wire: each element followed by whether another one comes. */
  lemma {:induction false} ArrayOnWire<E>(c: Codec<E>, es: seq<E>) returns (pieces: seq<seq<bool>>)
    ensures Flat(pieces) == ArrayBits(c, es) && |pieces| == |es|
    ensures forall i :: 0 <= i < |es| ==> pieces[i] == c.enc(es[i]) + [i + 1 < |es|]
    decreases |es|
  {
    if es == [] {
      pieces := [];
    } else {
      var later := ArrayOnWire(c, es[1..]);
      pieces := [c.enc(es[0]) + [1 < |es|]] + later;
      assert pieces[1..] == later;
      assert forall i :: 0 < i < |es| ==> pieces[i] == later[i - 1];
    }
  }

  /** Non-empty arrays are self-delimiting too. */
  lemma ArrayPrefixFree<E>(c: Codec<E>, a: seq<E>, b: seq<E>)
    requires Lawful(c) && a != [] && b != []
    requires forall i :: 0 <= i < |a| ==> Inverts(c, a[i])
    requires forall i :: 0 <= i < |b| ==> Inverts(c, b[i])
    requires ArrayBits(c, a) <= ArrayBits(c, b)
    ensures a == b
  {
    hide TakeArray, ArrayBits;
    var post := ArrayBits(c, b)[|ArrayBits(c, a)|..];
    assert [] + ArrayBits(c, a) + post == ArrayBits(c, b) == [] + ArrayBits(c, b) + [];
    ArrayReadBack(c, a, [], post);
    ArrayReadBack(c, b, [], []);
  }

  // ----------------------------------------------------------- emitted code

  /** The emitted encoder of a block. */
  method WriteBlock(w: BitWriter, body: Children)
    requires w.Valid() && w.error.None? && ValidBody(body)
    modifies w
    ensures w.Valid() && w.error.None? && w.contents == old(w.contents) + BlockBits(body)
    decreases body, 1
  {
    hide ToBits, ExtentBits, BitsOf;
    var more := HasValue(body);
    FlagBits(more);
    w.WriteBits(if more then 1 else 0, 1);
    if more {
      WriteExtent(w, body);
      if !HasNested(body) {
        FlagBits(false);
        w.WriteBits(0, 1);
      }
      assert w.contents == old(w.contents) + ([true] + ExtentBits(body) + Terminal(body));
    }
  }

  lemma FlagBits(flag: bool)
    ensures BitsOf(if flag then 1 else 0, 1) == [flag]
  {
  }

  method WriteExtent(w: BitWriter, cs: Children)
    requires w.Valid() && w.error.None? && ValidBody(cs)
    modifies w
    ensures w.Valid() && w.error.None? && w.contents == old(w.contents) + ExtentBits(cs)
    decreases cs, 0
  {
    hide ToBits, BlockBits, BitsOf;
    match cs
    case Nil =>
    case Cons(Field(width, v), t) =>
      w.WriteBits(ValueOr0(v), width);
      WriteExtent(w, t);
    case Cons(Reserved(n), t) =>
      WriteReserved(w, n);
      WriteExtent(w, t);
    case Cons(Nested(b), t) =>
      WriteBlock(w, b);
      WriteExtent(w, t);
  }

  /** Reserved bits, at most 64 at a time. */
  method WriteReserved(w: BitWriter, bits: nat)
    requires w.Valid() && w.error.None?
    modifies w
    ensures w.Valid() && w.error.None? && w.contents == old(w.contents) + Zeros(bits)
  {
    hide ToBits, BitsOf;
    var remaining := bits;
    while remaining > 64
      invariant 0 <= remaining <= bits && w.Valid() && w.error.None?
      invariant w.contents == old(w.contents) + Zeros(bits - remaining)
    {
      BitsOfZero(64);
      w.WriteBits(0, 64);
      remaining := remaining - 64;
    }
    BitsOfZero(remaining);
    w.WriteBits(0, remaining);
  }

  /** The emitted decoder of a block. */
  method ReadBlock(r: BitReader, shape: Children) returns (body: Result<Children>)
    requires r.Valid()
    modifies r
    ensures r.Valid()
    ensures TakeBlock(shape, ToBits(r.data), old(r.Position())) ==
              if body.Ok? then Ok((body.value, r.Position())) else Err(body.error)
    decreases shape, 1
  {
    hide ToBits, TakeBits, TakeExtent;
    var flag := r.ReadBits(1);
    if flag.Err? { return Err(flag.error); }
    if flag.value == 0 { return Ok(Cleared(shape)); }
    body := ReadExtent(r, shape);
    if body.Ok? && !HasNested(shape) {
      var ok := r.SkipBits(1);
      if !ok { return Err(BufferUnderrun); }
    }
  }

  method ReadExtent(r: BitReader, shape: Children) returns (cs: Result<Children>)
    requires r.Valid()
    modifies r
    ensures r.Valid()
    ensures TakeExtent(shape, ToBits(r.data), old(r.Position())) ==
              if cs.Ok? then Ok((cs.value, r.Position())) else Err(cs.error)
    decreases shape, 0
  {
    hide ToBits, TakeBits, TakeBlock;
    match shape
    case Nil => return Ok(Nil);
    case Cons(head, t) =>
      var c := ReadChild(r, head);
      if c.Err? { return Err(c.error); }
      var rest := ReadExtent(r, t);
      if rest.Err? { return rest; }
      return Ok(Cons(c.value, rest.value));
  }

  method ReadChild(r: BitReader, shape: Child) returns (c: Result<Child>)
    requires r.Valid()
    modifies r
    ensures r.Valid()
    ensures match shape
      case Field(w, _) =>
        (match TakeBits(ToBits(r.data), old(r.Position()), w)
         case Err(e) => c == Err(e)
         case Ok(v) => c == Ok(Field(w, Some(Word(v)))) && r.Position() == old(r.Position()) + w)
      case Reserved(n) =>
        if old(r.Position()) + n > |ToBits(r.data)| then c == Err(BufferUnderrun)
        else c == Ok(Reserved(n)) && r.Position() == old(r.Position()) + n
      case Nested(b) =>
        (match TakeBlock(b, ToBits(r.data), old(r.Position()))
         case Err(e) => c == Err(e)
         case Ok((b', next)) => c == Ok(Nested(b')) && r.Position() == next)
    decreases shape, 2
  {
    hide ToBits, TakeBits, TakeBlock;
    match shape
    case Field(w, _) =>
      var v := r.ReadBits(w);
      if v.Err? { return Err(v.error); }
      return Ok(Field(w, Some(Word(v.value))));
    case Reserved(n) =>
      var ok := r.SkipBits(n);
      if !ok { return Err(BufferUnderrun); }
      return Ok(Reserved(n));
    case Nested(b) =>
      var body := ReadBlock(r, b);
      if body.Err? { return Err(body.error); }
      return Ok(Nested(body.value));
  }

  /** Array elements that are plain integers of a fixed width. */
  function Fixed(width: nat): Codec<u64> {
    Codec((v: u64) => BitsOf(v, width), (bits: seq<bool>, pos: nat) => FixedDec(width, bits, pos))
  }

  function FixedDec(width: nat, bits: seq<bool>, pos: nat): Result<(u64, nat)> {
    if pos + width > |bits| then Err(BufferUnderrun)
    else Ok((Word(ValueOf(bits[pos..pos + width])), pos + width))
  }

  lemma FixedLawful(width: nat)
    ensures Lawful(Fixed(width))
  {
  }

  lemma FixedInverts(width: nat, v: u64)
    requires width <= 64 && v < Pow2(width)
    ensures Inverts(Fixed(width), v)
  {
    hide BitsOf, FixedDec;
    var c := Fixed(width);
    forall pre: seq<bool>, post: seq<bool> ensures c.dec(pre + c.enc(v) + post, |pre|) == Ok((v, |pre| + |c.enc(v)|)) {
      FixedReadBack(width, v, pre, post);
    }
  }

  lemma FixedReadBack(width: nat, v: u64, pre: seq<bool>, post: seq<bool>)
    requires v < Pow2(width)
    ensures FixedDec(width, pre + BitsOf(v, width) + post, |pre|) == Ok((v, |pre| + width))
  {
    hide BitsOf, ValueOf, Low;
    var bits := pre + BitsOf(v, width) + post;
    assert bits[|pre|..|pre| + width] == BitsOf(v, width);
    ValueOfBits(v, width);
    LowOfSmall(v, width);
  }

  /** The emitted loop: element, then whether another one follows. */
  method WriteArray(w: BitWriter, elems: seq<u64>, width: nat)
    requires w.Valid() && w.error.None? && width <= 64
    modifies w
    ensures w.Valid() && w.error.None?
    ensures w.contents == old(w.contents) + ArrayBits(Fixed(width), elems)
  {
    hide ToBits, BitsOf, Holds, ArrayBits;
    var i := 0;
    ghost var all, done := ArrayBits(Fixed(width), elems), [];
    assert elems[0..] == elems && [] + all == all;
    while i < |elems|
      invariant 0 <= i <= |elems| && w.Valid() && w.error.None?
      invariant w.contents == old(w.contents) + done
      invariant done + ArrayBits(Fixed(width), elems[i..]) == all
    {
      var more := i + 1 < |elems|;
      ghost var unit := BitsOf(elems[i], width) + [more];
      ArrayUnit(elems, i, width, done);
      w.WriteBits(elems[i], width);
      FlagBits(more);
      w.WriteBits(if more then 1 else 0, 1);
      assert w.contents == old(w.contents) + (done + unit);
      done := done + unit;
      i := i + 1;
    }
    ArrayEnd(elems, width);
  }

  lemma ArrayUnit(elems: seq<u64>, i: nat, width: nat, done: seq<bool>)
    requires i < |elems|
    ensures done + ArrayBits(Fixed(width), elems[i..])
         == (done + (BitsOf(elems[i], width) + [i + 1 < |elems|])) + ArrayBits(Fixed(width), elems[i + 1..])
  {
    hide BitsOf;
    var rest := elems[i..];
    assert rest[0] == elems[i] && rest[1..] == elems[i + 1..];
  }

  lemma ArrayEnd(elems: seq<u64>, width: nat)
    ensures ArrayBits(Fixed(width), elems[|elems|..]) == []
  {
  }

  /** The emitted loop: read elements until an FX bit is clear. */
  method ReadArray(r: BitReader, width: nat) returns (elems: Result<seq<u64>>)
    requires r.Valid() && width <= 64
    modifies r
    ensures r.Valid() && Lawful(Fixed(width)) && old(r.Position()) <= |ToBits(r.data)|
    ensures TakeArray(Fixed(width), ToBits(r.data), old(r.Position())) ==
              if elems.Ok? then Ok((elems.value, r.Position())) else Err(elems.error)
  {
    hide ToBits, ValueOf, TakeBits, Fixed, TakeArray, Lawful;
    FixedLawful(width);
    ghost var bits, c := ToBits(r.data), Fixed(width);
    var es: seq<u64> := [];
    var more := true;
    ghost var whole := TakeArray(c, bits, r.Position());
    PrefixedNone(whole);
    while more
      invariant r.Valid() && r.Position() <= |bits|
      invariant more ==> whole == Prefixed(es, TakeArray(c, bits, r.Position()))
      invariant !more ==> whole == Ok((es, r.Position()))
      decreases more, |bits| - r.Position()
    {
      ghost var pos := r.Position();
      FixedRead(width, bits, pos);
      var v := r.ReadBits(width);
      if v.Err? {
        ArrayStops(c, bits, pos);
        return Err(v.error);
      }
      ArrayStep(c, bits, pos);
      FlagRead(bits, pos + width);
      var flag := r.ReadBits(1);
      if flag.Err? { return Err(flag.error); }
      if flag.value != 0 {
        PrefixedStep(es, v.value, TakeArray(c, bits, r.Position()));
      }
      es := es + [v.value];
      more := flag.value != 0;
    }
    return Ok(es);
  }

  lemma FixedRead(width: nat, bits: seq<bool>, pos: nat)
    requires pos <= |bits| && width <= 64
    ensures match TakeBits(bits, pos, width)
      case Err(e) => e == BufferUnderrun && Fixed(width).dec(bits, pos) == Err(e)
      case Ok(v) => v < TWO_64 && Fixed(width).dec(bits, pos) == Ok((v, pos + width)) && pos + width <= |bits|
  {
    hide ValueOf;
    if width == 0 {
      ValueOfNothing(bits, pos);
    } else if pos + width <= |bits| {
      RawFits(ValueOf(bits[pos..pos + width]), width);
    }
  }

  lemma FlagRead(bits: seq<bool>, pos: nat)
    requires pos <= |bits|
    ensures TakeBits(bits, pos, 1) ==
              if pos == |bits| then Err(BufferUnderrun) else Ok(if bits[pos] then 1 else 0)
  {
    if pos < |bits| { OneBit(bits, pos); }
  }

  // ---------------------------------------------------------- writer to reader in a row

  /** A block written, finished, and read with its own shape: every value that was set comes back at its place. */
  method EncodeThenDecode(body: Children) returns (r: Result<Children>)
    requires ValidBody(body)
    ensures r == Ok(Normal(body))
    ensures forall path :: Restored(body, r.value, path)
  {
    hide ToBits, BlockBits, TakeBlock, Normal, Holds, Pad, Restored;
    forall path ensures Restored(body, Normal(body), path) {
      PlaceRestored(body, path);
    }
    var w := new BitWriter();
    WriteBlock(w, body);
    ghost var written := BlockBits(body);
    assert w.contents == written;
    var bytes := w.Finish();
    ghost var fill := Filling(written);
    assert ToBits(bytes.value) == [] + written + fill;
    BlockReadBack(body, [], fill);
    var reader := new BitReader(bytes.value);
    r := ReadBlock(reader, body);
  }

  lemma Filling(bits: seq<bool>) returns (fill: seq<bool>)
    ensures Pad(bits) == [] + bits + fill
  {
    fill := Pad(bits)[|bits|..];
    assert Pad(bits)[..|bits|] == bits;
  }

  /** The elements as far as their width goes. */
  function Lows(elems: seq<u64>, width: nat): (r: seq<u64>)
    ensures |r| == |elems|
    ensures forall i :: 0 <= i < |elems| ==> r[i] == elems[i] % Pow2(width)
  {
    seq(|elems|, i requires 0 <= i < |elems| => CutTo(elems[i], width))
  }

  lemma CutIsLow(v: u64, width: nat)
    ensures Low(v, width) == v % Pow2(width) < Pow2(width)
  {
    hide Low, Pow2;
    ShiftMeaning(v, width);
  }

  lemma {:induction false} LowsBits(elems: seq<u64>, width: nat)
    ensures ArrayBits(Fixed(width), Lows(elems, width)) == ArrayBits(Fixed(width), elems)
    decreases |elems|
  {
    hide BitsOf, Low, CutTo, Pow2;
    if elems != [] {
      LowsBits(elems[1..], width);
      CutIsLow(elems[0], width);
      assert Lows(elems, width)[1..] == Lows(elems[1..], width);
      BitsOfLow(elems[0], width, width);
    }
  }

  lemma LowsInvert(elems: seq<u64>, width: nat)
    requires width <= 64
    ensures Lawful(Fixed(width)) && forall i :: 0 <= i < |elems| ==> Inverts(Fixed(width), Lows(elems, width)[i])
  {
    hide Low, Fixed, Lawful, Inverts, CutTo, Pow2;
    FixedLawful(width);
    forall i | 0 <= i < |elems| ensures Inverts(Fixed(width), Lows(elems, width)[i]) {
      CutIsLow(elems[i], width);
      FixedInverts(width, Lows(elems, width)[i]);
    }
  }

  /** An array written, finished and read: exactly a non-empty one comes back, cut to the element width. */
  method ArrayEncodeThenDecode(elems: seq<u64>, width: nat) returns (r: Result<seq<u64>>)
    requires width <= 64
    ensures r == Ok(Lows(elems, width)) <==> elems != []
  {
    hide ToBits, ArrayBits, TakeArray, Fixed, Lawful, Inverts, Lows, Holds, Pad;
    var w := new BitWriter();
    WriteArray(w, elems, width);
    ghost var c, written := Fixed(width), ArrayBits(Fixed(width), elems);
    assert w.contents == written;
    var bytes := w.Finish();
    ghost var fill := Filling(written);
    assert ToBits(bytes.value) == [] + written + fill;
    LowsBits(elems, width);
    LowsInvert(elems, width);
    ArrayRoundTripIffNonEmpty(c, Lows(elems, width), [], fill);
    var reader := new BitReader(bytes.value);
    r := ReadArray(reader, width);
    if elems == [] { NeverEmpty(c, ToBits(bytes.value), 0); }
  }

  lemma NeverEmpty<E>(c: Codec<E>, bits: seq<bool>, pos: nat)
    requires Lawful(c) && pos <= |bits|
    ensures TakeArray(c, bits, pos).Ok? ==> TakeArray(c, bits, pos).value.0 != []
  {
  }
}
