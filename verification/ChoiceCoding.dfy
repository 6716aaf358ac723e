/** The discriminator checks emitted for a choice: what the encoder accepts and which case the decoder picks. */
module ChoiceCoding {
  import opened Bits
  import opened ChoiceCases
  import opened Errors
  import opened Literals

  // -------------------------------------------------------------- emitted checks

  /** The bounds of a label as its text reads in the emitted code, when that compiles. */
  function Pasted(ns: Names, key: Label): Option<Interval> {
    Bounds(ns, Compiler, key)
  }

  /** The encoder's test of the discriminator against one case. */
  predicate Accepts(ns: Names, t: IntType, key: Label, sw: int)
    requires t.Valid() && Pasted(ns, key).Some?
  {
    var c := Pasted(ns, key).value;
    t.Cast(c.lo) <= sw <= t.Cast(c.hi)
  }

  /** Written with a low end of exactly "0", for which the decoder leaves the low test out. */
  predicate ZeroLow(key: Label) {
    key.Range? && Dots(key.text).Some? && LowText(key.text) == "0"
  }

  predicate Matches(ns: Names, t: IntType, key: Label, sw: int)
    requires t.Valid() && Pasted(ns, key).Some?
  {
    if ZeroLow(key) then sw <= t.Cast(Pasted(ns, key).value.hi) else Accepts(ns, t, key, sw)
  }

  predicate SameText(ns: Names, a: Label, b: Label) {
    || (a.Value? && b.Value? && ns.Resolve(a.text).Some? && ns.Resolve(a.text) == ns.Resolve(b.text))
    || (a.Range? && b.Range? && a.text == b.text)
  }

  /** A send-only case gives way in the decoder to a case that is received under the same label. */
  ghost predicate Skipped(ns: Names, cases: seq<Alternative>, j: nat)
    requires j < |cases|
  {
    cases[j].dir == Send &&
    exists c <- cases :: c.dir != Send && SameText(ns, cases[j].key, c.key)
  }

  /** Every bound is an expression of the emitted code. */
  ghost predicate Compiles(ns: Names, cases: seq<Alternative>) {
    forall c <- cases :: Pasted(ns, c.key).Some?
  }

  /** Every bound, as the overlap check reads it, is a value of the switch type. */
  ghost predicate Representable(ns: Names, t: IntType, cases: seq<Alternative>)
    requires t.Valid()
  {
    forall c <- cases :: Covers(ns, c.key).Some? && t.Holds(Checked(ns, c).lo) && t.Holds(Checked(ns, c).hi)
  }

  /** The case the emitted chain of tests takes from position k on; the number of cases means otherwise. */
  ghost function Pick(ns: Names, t: IntType, cases: seq<Alternative>, sw: int, k: nat): nat
    requires t.Valid() && Compiles(ns, cases) && k <= |cases|
    decreases |cases| - k
  {
    if k == |cases| || Branches(ns, t, cases, sw, k) then k else Pick(ns, t, cases, sw, k + 1)
  }

  ghost predicate Branches(ns: Names, t: IntType, cases: seq<Alternative>, sw: int, k: nat)
    requires t.Valid() && Compiles(ns, cases) && k < |cases|
  {
    !Skipped(ns, cases, k) && Matches(ns, t, cases[k].key, sw)
  }

  lemma {:induction false} PickIs(ns: Names, t: IntType, cases: seq<Alternative>, sw: int, k: nat, i: nat)
    requires t.Valid() && Compiles(ns, cases) && k <= i <= |cases|
    requires i < |cases| ==> Branches(ns, t, cases, sw, i)
    ensures Pick(ns, t, cases, sw, k) == i <==> forall j :: k <= j < i ==> !Branches(ns, t, cases, sw, j)
    decreases i - k
  {
    hide Branches, Compiles;
    if k < i && !Branches(ns, t, cases, sw, k) {
      PickIs(ns, t, cases, sw, k + 1, i);
    }
  }

  /** The bounds of a case in the emitted code. */
  function Span(ns: Names, c: Alternative): Interval
    requires Pasted(ns, c.key).Some?
  {
    Pasted(ns, c.key).value
  }

  /** The bounds of a case as the overlap check reads them. */
  function Checked(ns: Names, c: Alternative): Interval
    requires Covers(ns, c.key).Some?
  {
    Covers(ns, c.key).value
  }

  // -------------------------------------------------------- which cases get a branch

  /** The decoder emitter's two loops: labels of received cases first, then the cases that get a branch. */
  method EmittedBranches(ns: Names, cases: seq<Alternative>) returns (branches: seq<nat>)
    ensures forall j :: j in branches <==> 0 <= j < |cases| && !Skipped(ns, cases, j)
    ensures forall a, b :: 0 <= a < b < |branches| ==> branches[a] < branches[b]
  {
    hide ParseLiteral, CppValue;
    var values: set<int> := {};
    var ranges: set<string> := {};
    for i := 0 to |cases|
      invariant forall v :: v in values <==>
        exists c <- cases[..i] :: c.dir != Send && c.key.Value? && ns.Resolve(c.key.text) == Some(v)
      invariant forall text :: text in ranges <==> exists c <- cases[..i] :: c.dir != Send && c.key == Range(text)
    {
      var c := cases[i];
      assert cases[..i + 1] == cases[..i] + [c];
      if c.dir != Send {
        if c.key.Value? {
          var v := ns.Resolve(c.key.text);
          if v.Some? { values := values + {v.value}; }
        }
        if c.key.Range? { ranges := ranges + {c.key.text}; }
      }
    }
    assert cases[..|cases|] == cases;
    assert forall v :: v in values <==>
      exists c <- cases :: c.dir != Send && c.key.Value? && ns.Resolve(c.key.text) == Some(v);
    branches := [];
    for j := 0 to |cases|
      invariant forall k :: k in branches <==> 0 <= k < j && !Skipped(ns, cases, k)
      invariant forall a, b :: 0 <= a < b < |branches| ==> branches[a] < branches[b]
    {
      var c := cases[j];
      var v := if c.key.Value? then ns.Resolve(c.key.text) else None;
      var skip := c.dir == Send && ((v.Some? && v.value in values) || (c.key.Range? && c.key.text in ranges));
      SkipDecided(ns, cases, j);
      assert skip == Skipped(ns, cases, j);
      if !skip {
        assert forall a :: 0 <= a < |branches| ==> branches[a] in branches;
        branches := branches + [j];
      }
    }
  }

  lemma SkipDecided(ns: Names, cases: seq<Alternative>, j: nat)
    requires j < |cases|
    ensures Skipped(ns, cases, j) <==>
      cases[j].dir == Send &&
      ((cases[j].key.Value? && ns.Resolve(cases[j].key.text).Some? &&
        exists c <- cases :: c.dir != Send && c.key.Value? && ns.Resolve(c.key.text) == ns.Resolve(cases[j].key.text))
       || (cases[j].key.Range? && exists c <- cases :: c.dir != Send && c.key == Range(cases[j].key.text)))
  {
    hide ParseLiteral, CppValue;
    if Skipped(ns, cases, j) {
      var c :| c in cases && c.dir != Send && SameText(ns, cases[j].key, c.key);
      assert c in cases && c.dir != Send;
    }
  }

  /** Two labels for the same thing as the analyzer reads them: one number, or one range by its text. */
  predicate Twins(ns: Names, a: Label, b: Label) {
    || (a.Value? && b.Value? && Covers(ns, a).Some? && Covers(ns, a) == Covers(ns, b))
    || (a.Range? && b.Range? && a.text == b.text)
  }

  /** A send-only case never takes a message from a received case with the same label. */
  lemma TwinGivesWay(ns: Names, t: IntType, cases: seq<Alternative>, sw: int, j: nat, i: nat)
    requires t.Valid() && Compiles(ns, cases) && j < |cases| && i < |cases|
    requires cases[j].dir == Send && cases[i].dir != Send && Twins(ns, cases[j].key, cases[i].key)
    ensures Pick(ns, t, cases, sw, 0) != j
  {
    hide ParseLiteral, CppValue, Compiles, Matches;
    assert cases[i] in cases && SameText(ns, cases[j].key, cases[i].key);
    assert Skipped(ns, cases, j);
    NeverPicked(ns, t, cases, sw, 0, j);
  }

  lemma {:induction false} NeverPicked(ns: Names, t: IntType, cases: seq<Alternative>, sw: int, k: nat, j: nat)
    requires t.Valid() && Compiles(ns, cases) && k <= |cases| && j < |cases| && !Branches(ns, t, cases, sw, j)
    ensures Pick(ns, t, cases, sw, k) != j
    decreases |cases| - k
  {
    hide Branches, Compiles;
    if k < |cases| && !Branches(ns, t, cases, sw, k) {
      NeverPicked(ns, t, cases, sw, k + 1, j);
    }
  }

  /** Every other case takes what it accepts and no earlier test does. */
  lemma OthersPicked(ns: Names, t: IntType, cases: seq<Alternative>, sw: int, j: nat)
    requires t.Valid() && Compiles(ns, cases) && j < |cases|
    requires cases[j].dir == Send ==> forall i :: 0 <= i < |cases| && cases[i].dir != Send ==> !Twins(ns, cases[j].key, cases[i].key)
    requires Accepts(ns, t, cases[j].key, sw) && forall k :: 0 <= k < j ==> !Matches(ns, t, cases[k].key, sw)
    ensures Pick(ns, t, cases, sw, 0) == j
  {
    hide ParseLiteral, CppValue, Pick, ZeroLow, IntType.Cast;
    assert !Skipped(ns, cases, j) by {
      forall c | c in cases && c.dir != Send ensures !SameText(ns, cases[j].key, c.key) || cases[j].dir != Send {
        var i :| 0 <= i < |cases| && cases[i] == c;
        assert cases[j].dir == Send ==> !Twins(ns, cases[j].key, cases[i].key);
      }
    }
    PickIs(ns, t, cases, sw, 0, j);
  }

  // ------------------------------------------------------- spans after the casts

  /** Some value lies in both; either may be empty. */
  predicate Meets(a: Interval, b: Interval) {
    a.lo <= a.hi && b.lo <= b.hi && a.lo <= b.hi && b.lo <= a.hi
  }

  /** The discriminators the encoder accepts for a case: its bounds after the cast, possibly none. */
  function CastSpan(ns: Names, t: IntType, c: Alternative): Interval
    requires t.Valid() && Pasted(ns, c.key).Some?
  {
    Interval(t.Cast(Span(ns, c).lo), t.Cast(Span(ns, c).hi))
  }

  /** The discriminators the decoder's branch for a case takes. */
  function BranchSpan(ns: Names, t: IntType, c: Alternative): Interval
    requires t.Valid() && Pasted(ns, c.key).Some?
  {
    if ZeroLow(c.key) then Interval(t.Lowest(), t.Cast(Span(ns, c).hi)) else CastSpan(ns, t, c)
  }

  predicate Within(v: int, a: Interval) {
    a.lo <= v <= a.hi
  }

  lemma TestsAreSpans(ns: Names, t: IntType, c: Alternative, sw: int)
    requires t.Valid() && Pasted(ns, c.key).Some? && t.Holds(sw)
    ensures Accepts(ns, t, c.key, sw) <==> Within(sw, CastSpan(ns, t, c))
    ensures Matches(ns, t, c.key, sw) <==> Within(sw, BranchSpan(ns, t, c))
  {
    assert t.Lowest() <= sw;
  }

  /** Two spans with representable ends share a held value exactly when they meet. */
  lemma SharedValue(t: IntType, a: Interval, b: Interval)
    requires t.Valid() && t.Holds(a.lo) && t.Holds(b.lo)
    ensures (exists sw :: t.Holds(sw) && Within(sw, a) && Within(sw, b)) <==> Meets(a, b)
  {
    hide IntType.Holds;
    if Meets(a, b) {
      var sw := if a.lo >= b.lo then a.lo else b.lo;
      assert t.Holds(sw) && Within(sw, a) && Within(sw, b);
    }
  }

  /** Any two labels: some discriminator is accepted for both exactly when their cast spans meet. */
  lemma LabelsClashIff(ns: Names, t: IntType, a: Alternative, b: Alternative)
    requires t.Valid() && Pasted(ns, a.key).Some? && Pasted(ns, b.key).Some?
    ensures (exists sw :: t.Holds(sw) && Accepts(ns, t, a.key, sw) && Accepts(ns, t, b.key, sw)) <==>
            Meets(CastSpan(ns, t, a), CastSpan(ns, t, b))
  {
    hide IntType.Holds, IntType.Cast, Bounds, Accepts, Within, Meets;
    SharedValue(t, CastSpan(ns, t, a), CastSpan(ns, t, b));
    forall sw | t.Holds(sw)
      ensures Accepts(ns, t, a.key, sw) && Accepts(ns, t, b.key, sw) <==>
              Within(sw, CastSpan(ns, t, a)) && Within(sw, CastSpan(ns, t, b))
    {
      TestsAreSpans(ns, t, a, sw);
      TestsAreSpans(ns, t, b, sw);
    }
  }

  /** Value labels: the same condition is agreement modulo 2^bits. */
  lemma ValuesClashIff(ns: Names, t: IntType, a: Alternative, b: Alternative)
    requires t.Valid() && a.key.Value? && b.key.Value? && Pasted(ns, a.key).Some? && Pasted(ns, b.key).Some?
    ensures Meets(CastSpan(ns, t, a), CastSpan(ns, t, b)) <==> (Span(ns, a).lo - Span(ns, b).lo) % Pow2(t.bits) == 0
  {
    CastAliasIff(t, Span(ns, a).lo, Span(ns, b).lo);
  }

  /** No discriminator is accepted for two cases of a lane. */
  ghost predicate Unambiguous(ns: Names, t: IntType, cases: seq<Alternative>)
    requires t.Valid() && Compiles(ns, cases)
  {
    forall i, j, sw | 0 <= i < |cases| && 0 <= j < |cases| && i != j && SharesLane(cases[i].dir, cases[j].dir) && t.Holds(sw) ::
      !(Accepts(ns, t, cases[i].key, sw) && Accepts(ns, t, cases[j].key, sw))
  }

  /** A choice is unambiguous exactly when no two cast spans of a lane meet. */
  lemma UnambiguousIff(ns: Names, t: IntType, cases: seq<Alternative>)
    requires t.Valid() && Compiles(ns, cases)
    ensures Unambiguous(ns, t, cases) <==>
            forall i, j :: 0 <= i < |cases| && 0 <= j < |cases| && i != j && SharesLane(cases[i].dir, cases[j].dir) ==>
              !Meets(CastSpan(ns, t, cases[i]), CastSpan(ns, t, cases[j]))
  {
    hide IntType.Holds, IntType.Cast, Bounds, Accepts, Meets;
    forall i, j | 0 <= i < |cases| && 0 <= j < |cases|
      ensures Meets(CastSpan(ns, t, cases[i]), CastSpan(ns, t, cases[j])) <==>
              exists sw :: t.Holds(sw) && Accepts(ns, t, cases[i].key, sw) && Accepts(ns, t, cases[j].key, sw)
    {
      LabelsClashIff(ns, t, cases[i], cases[j]);
    }
  }

  // ------------------------------------------------ when both readers see the same bound

  /** The texts that name the bounds of a label. */
  ghost function Texts(key: Label): set<string> {
    match key
    case Value(text) => {text}
    case Range(text) => if Dots(text).Some? then {LowText(text), HighText(text)} else {}
    case Unlabelled => {}
  }

  /** A literal without an effective leading zero or a wrapping minus, or a constant whose variable keeps its value. */
  predicate Faithful(ns: Names, text: string) {
    if ParseLiteral(text).Some? then ReadAlike(text)
    else
      var v := ns.Resolve(text);
      && v.Some? && CppValue(ns.constants[text].text).Some?
      && var c := ns.constants[text];
         c.storage.Holds(v.value) && (CppValue(c.text).value - v.value) % Pow2(c.storage.bits) == 0
  }

  ghost predicate AllFaithful(ns: Names, cases: seq<Alternative>) {
    forall c <- cases, text <- Texts(c.key) :: Faithful(ns, text)
  }

  /** Overlap check and emitted code agree on a bound they both understand exactly when its text is faithful. */
  lemma FaithfulIff(ns: Names, text: string)
    requires ns.Resolve(text).Some? && ns.Emitted(text).Some?
    ensures ns.Emitted(text) == ns.Resolve(text) <==> Faithful(ns, text)
  {
    hide ParseLiteral, CppValue, ReadAlike;
    if ParseLiteral(text).Some? {
      ParsedIsNumeric(text);
      ReadAlikeIff(text);
    } else {
      var c := ns.constants[text];
      CastAliasIff(c.storage, CppValue(c.text).value, ns.Resolve(text).value);
    }
  }

  /** A label means the same to both exactly when each of its texts is faithful. */
  lemma LabelAlikeIff(ns: Names, key: Label)
    requires Covers(ns, key).Some? && Pasted(ns, key).Some?
    ensures Pasted(ns, key) == Covers(ns, key) <==> forall text <- Texts(key) :: Faithful(ns, text)
  {
    hide Faithful, Dots;
    forall text | text in Texts(key)
      ensures ns.Emitted(text) == ns.Resolve(text) <==> Faithful(ns, text)
    {
      FaithfulIff(ns, text);
    }
  }

  /** The overlap check gives that whenever every bound is representable in the switch type and read alike. */
  lemma CheckedIsUnambiguous(ns: Names, t: IntType, cases: seq<Alternative>)
    requires t.Valid() && Sound(ns, cases) && Compiles(ns, cases)
    requires Representable(ns, t, cases) && AllFaithful(ns, cases)
    ensures Unambiguous(ns, t, cases)
  {
    hide Sound, Bounds, IntType.Holds, IntType.Cast, Faithful;
    forall i, j | 0 <= i < |cases| && 0 <= j < |cases| && i != j && SharesLane(cases[i].dir, cases[j].dir)
      ensures !Meets(CastSpan(ns, t, cases[i]), CastSpan(ns, t, cases[j]))
    {
      LaneApart(ns, cases, i, j);
      SpanIsChecked(ns, cases, i);
      SpanIsChecked(ns, cases, j);
    }
    UnambiguousIff(ns, t, cases);
  }

  lemma SpanIsChecked(ns: Names, cases: seq<Alternative>, i: nat)
    requires i < |cases| && Compiles(ns, cases) && AllFaithful(ns, cases) && Covers(ns, cases[i].key).Some?
    ensures Span(ns, cases[i]) == Checked(ns, cases[i])
  {
    hide Bounds, Faithful;
    assert cases[i] in cases;
    LabelAlikeIff(ns, cases[i].key);
  }

  lemma LaneApart(ns: Names, cases: seq<Alternative>, i: nat, j: nat)
    requires Sound(ns, cases) && i < |cases| && j < |cases| && i != j && SharesLane(cases[i].dir, cases[j].dir)
    requires Covers(ns, cases[i].key).Some? && Covers(ns, cases[j].key).Some?
    ensures Apart(Checked(ns, cases[i]), Checked(ns, cases[j]))
  {
    hide Bounds, WellFormed;
    if i < j {
      assert !Clash(ns, cases[i], cases[j]);
    } else {
      assert !Clash(ns, cases[j], cases[i]);
    }
  }

  // -------------------------------------------------------------- failing inputs

  /** A name that reads alike as a literal, in a protocol without a constant of that name. */
  lemma PlainText(ns: Names, text: string, v: nat)
    requires text !in ns.constants && PlainDecimal(text) && NumeralValue(text, 10) == v < TWO_63
    ensures ns.Resolve(text) == ns.Emitted(text) == Some(v) && ns.Known(text)
  {
    PlainDecimalReads(text);
  }

  lemma PlainValue(ns: Names, text: string, v: nat)
    requires text !in ns.constants && PlainDecimal(text) && NumeralValue(text, 10) == v < TWO_63
    ensures Covers(ns, Value(text)) == Pasted(ns, Value(text)) == Some(Interval(v, v))
  {
    hide NumeralValue, PlainDecimal, ParseLiteral, CppValue;
    PlainText(ns, text, v);
  }

  /** Cases 5 and 261 pass the overlap check, yet an 8-bit discriminator of 5 is accepted for both. */
  lemma TruncatedCases(ns: Names, a: string, b: string)
    requires a == "5" && b == "261" && a !in ns.constants && b !in ns.constants
    ensures var cases := [Alternative(Value(a), Both), Alternative(Value(b), Both)];
      && Sound(ns, cases) && Compiles(ns, cases) && AllFaithful(ns, cases)
      && Accepts(ns, IntType(8, false), cases[0].key, 5)
      && Accepts(ns, IntType(8, false), cases[1].key, 5)
  {
    hide Bounds, NumeralValue, PlainDecimal, Faithful;
    SmallNumbers();
    PlainValue(ns, a, 5);
    PlainValue(ns, b, 261);
    var cases := [Alternative(Value(a), Both), Alternative(Value(b), Both)];
    LabelAlikeIff(ns, cases[0].key);
    LabelAlikeIff(ns, cases[1].key);
    var t := IntType(8, false);
    Pow2Known(8);
    CastAliasIff(t, 5, 261);
  }

  lemma RangeBounds(ns: Names, reader: Reader, text: string, k: nat, lo: int, hi: int)
    requires 0 < k && k + 2 < |text| && text[k] == '.' && text[k + 1] == '.' && forall i :: 0 <= i < k ==> text[i] != '.'
    requires ns.Read(reader, text[..k]) == Some(lo) && ns.Read(reader, text[k + 2..]) == Some(hi) && lo <= hi
    ensures Dots(text) == Some(k) && LowText(text) == text[..k] && HighText(text) == text[k + 2..]
    ensures Bounds(ns, reader, Range(text)) == Some(Interval(lo, hi)) && (reader.Analyzer? ==> WellFormed(ns, Range(text)))
  {
    hide Dots, ParseLiteral, CppValue;
    DotsIff(text, k);
  }

  /** A range between plain numbers. */
  lemma PlainRange(ns: Names, text: string, k: nat, lo: nat, hi: nat)
    requires 0 < k && k + 2 < |text| && text[k] == '.' && text[k + 1] == '.' && forall i :: 0 <= i < k ==> text[i] != '.'
    requires text[..k] !in ns.constants && PlainDecimal(text[..k]) && NumeralValue(text[..k], 10) == lo
    requires text[k + 2..] !in ns.constants && PlainDecimal(text[k + 2..]) && NumeralValue(text[k + 2..], 10) == hi
    requires lo <= hi < TWO_63
    ensures Dots(text) == Some(k) && LowText(text) == text[..k] && WellFormed(ns, Range(text))
    ensures Covers(ns, Range(text)) == Pasted(ns, Range(text)) == Some(Interval(lo, hi))
  {
    hide Dots, NumeralValue, PlainDecimal, ParseLiteral, CppValue, Bounds, WellFormed;
    PlainText(ns, text[..k], lo);
    PlainText(ns, text[k + 2..], hi);
    RangeBounds(ns, Analyzer, text, k, lo, hi);
    RangeBounds(ns, Compiler, text, k, lo, hi);
  }

  /** So do ranges 0..10 and 256..260, which share the 8-bit discriminators 0 to 4. */
  lemma TruncatedRanges(ns: Names, a: string, b: string)
    requires a == "0..10" && b == "256..260" && ns.constants.Keys !! {"0", "10", "256", "260"}
    ensures var cases := [Alternative(Range(a), Both), Alternative(Range(b), Both)];
      && Sound(ns, cases) && Compiles(ns, cases) && AllFaithful(ns, cases)
      && Accepts(ns, IntType(8, false), cases[0].key, 3)
      && Accepts(ns, IntType(8, false), cases[1].key, 3)
  {
    hide Dots, Bounds, WellFormed, NumeralValue, PlainDecimal, Faithful;
    assert a[..1] == "0" && a[3..] == "10" && b[..3] == "256" && b[5..] == "260";
    SmallNumbers();
    PlainRange(ns, a, 1, 0, 10);
    PlainRange(ns, b, 3, 256, 260);
    LabelAlikeIff(ns, Range(a));
    LabelAlikeIff(ns, Range(b));
    var t := IntType(8, false);
    Pow2Known(8);
    assert t.Cast(256) == 0 && t.Cast(260) == 4;
  }

  lemma OctalValue(ns: Names, text: string)
    requires text == "010" && text !in ns.constants
    ensures Covers(ns, Value(text)) == Some(Interval(10, 10)) && Pasted(ns, Value(text)) == Some(Interval(8, 8))
  {
    hide ParseLiteral, CppValue;
    OctalTen(text);
  }

  /** Cases 8 and 010 pass the check as 8 and 10, but the compiler reads 8 twice: both are accepted for 8. */
  lemma OctalCases(ns: Names, a: string, b: string)
    requires a == "8" && b == "010" && a !in ns.constants && b !in ns.constants
    ensures var cases, t := [Alternative(Value(a), Both), Alternative(Value(b), Both)], IntType(8, false);
      && Sound(ns, cases) && Compiles(ns, cases) && Representable(ns, t, cases)
      && Accepts(ns, t, cases[0].key, 8) && Accepts(ns, t, cases[1].key, 8)
  {
    hide Bounds, NumeralValue, PlainDecimal;
    SmallNumbers();
    PlainValue(ns, a, 8);
    OctalValue(ns, b);
    Pow2Known(8);
  }

  /** A send-only 8 before a received 010 is not skipped and takes its discriminator. */
  lemma OctalShadow(ns: Names, a: string, b: string)
    requires a == "8" && b == "010" && a !in ns.constants && b !in ns.constants
    ensures var cases, t := [Alternative(Value(a), Send), Alternative(Value(b), Receive)], IntType(8, false);
      && Sound(ns, cases) && Compiles(ns, cases) && Representable(ns, t, cases)
      && !Skipped(ns, cases, 0) && Accepts(ns, t, cases[1].key, 8) && Pick(ns, t, cases, 8, 0) == 0
  {
    hide NumeralValue, PlainDecimal, ParseLiteral, CppValue;
    SmallNumbers();
    PlainText(ns, a, 8);
    OctalTen(b);
    Pow2Known(8);
  }

  // ------------------------------------------------- decoding what was accepted

  /** An earlier branch of the decoder takes some discriminator the encoder accepts for case i. */
  ghost predicate Shadows(ns: Names, t: IntType, cases: seq<Alternative>, j: nat, i: nat)
    requires t.Valid() && Compiles(ns, cases) && j < |cases| && i < |cases|
  {
    !Skipped(ns, cases, j) && Meets(BranchSpan(ns, t, cases[j]), CastSpan(ns, t, cases[i]))
  }

  lemma ShadowIff(ns: Names, t: IntType, cases: seq<Alternative>, j: nat, i: nat)
    requires t.Valid() && Compiles(ns, cases) && j < |cases| && i < |cases|
    ensures Shadows(ns, t, cases, j, i) <==>
            exists sw :: t.Holds(sw) && Accepts(ns, t, cases[i].key, sw) && Branches(ns, t, cases, sw, j)
  {
    hide IntType.Holds, IntType.Cast, Bounds, Accepts, Matches, Within, Meets, Skipped;
    SharedValue(t, BranchSpan(ns, t, cases[j]), CastSpan(ns, t, cases[i]));
    forall sw | t.Holds(sw)
      ensures Accepts(ns, t, cases[i].key, sw) <==> Within(sw, CastSpan(ns, t, cases[i]))
      ensures Matches(ns, t, cases[j].key, sw) <==> Within(sw, BranchSpan(ns, t, cases[j]))
    {
      TestsAreSpans(ns, t, cases[i], sw);
      TestsAreSpans(ns, t, cases[j], sw);
    }
  }

  /** What the encoder accepts is inside what the case's own branch takes. */
  lemma OwnBranch(ns: Names, t: IntType, cases: seq<Alternative>, i: nat, sw: int)
    requires t.Valid() && Compiles(ns, cases) && i < |cases| && cases[i].dir != Send
    requires Accepts(ns, t, cases[i].key, sw)
    ensures Branches(ns, t, cases, sw, i)
  {
  }

  /** Every discriminator accepted for a received case decodes to that case. */
  ghost predicate DecodesToItself(ns: Names, t: IntType, cases: seq<Alternative>, i: nat)
    requires t.Valid() && Compiles(ns, cases) && i < |cases|
  {
    forall sw | t.Holds(sw) && Accepts(ns, t, cases[i].key, sw) :: Pick(ns, t, cases, sw, 0) == i
  }

  /** For every choice and switch type that holds exactly when no earlier branch shadows the case. */
  lemma ReceivedCaseDecodesIff(ns: Names, t: IntType, cases: seq<Alternative>, i: nat)
    requires t.Valid() && Compiles(ns, cases) && i < |cases| && cases[i].dir != Send
    ensures DecodesToItself(ns, t, cases, i) <==> forall j | 0 <= j < i :: !Shadows(ns, t, cases, j, i)
  {
    hide Shadows, Pick, Branches, Bounds, Accepts, IntType.Holds;
    forall j | 0 <= j < i
      ensures Shadows(ns, t, cases, j, i) <==>
              exists sw :: t.Holds(sw) && Accepts(ns, t, cases[i].key, sw) && Branches(ns, t, cases, sw, j)
    {
      ShadowIff(ns, t, cases, j, i);
    }
    forall sw | t.Holds(sw) && Accepts(ns, t, cases[i].key, sw)
      ensures Pick(ns, t, cases, sw, 0) == i <==> forall j :: 0 <= j < i ==> !Branches(ns, t, cases, sw, j)
    {
      OwnBranch(ns, t, cases, i, sw);
      PickIs(ns, t, cases, sw, 0, i);
    }
    if j :| 0 <= j < i && Shadows(ns, t, cases, j, i) {
      var sw :| t.Holds(sw) && Accepts(ns, t, cases[i].key, sw) && Branches(ns, t, cases, sw, j);
      assert Pick(ns, t, cases, sw, 0) != i;
    } else {
      forall sw | t.Holds(sw) && Accepts(ns, t, cases[i].key, sw) ensures Pick(ns, t, cases, sw, 0) == i {
        forall j | 0 <= j < i ensures !Branches(ns, t, cases, sw, j) {
          assert !Shadows(ns, t, cases, j, i);
        }
      }
    }
  }

  /** In a checked choice with representable bounds that are read alike only send-only cases and ranges written "0.." can shadow. */
  lemma CheckedShadowsIff(ns: Names, t: IntType, cases: seq<Alternative>, j: nat, i: nat)
    requires t.Valid() && Sound(ns, cases) && Compiles(ns, cases) && Representable(ns, t, cases) && AllFaithful(ns, cases)
    requires i < |cases| && j < |cases| && i != j && cases[i].dir != Send
    ensures Shadows(ns, t, cases, j, i) <==>
            && !Skipped(ns, cases, j)
            && ((cases[j].dir == Send && !Apart(Checked(ns, cases[j]), Checked(ns, cases[i])))
                || (ZeroLow(cases[j].key) && Checked(ns, cases[i]).lo < 0))
  {
    hide Skipped, Dots, ParseLiteral, CppValue, Faithful, Bounds;
    assert cases[i] in cases && cases[j] in cases;
    CheckedInOrder(ns, cases, i);
    CheckedInOrder(ns, cases, j);
    SpanIsChecked(ns, cases, i);
    SpanIsChecked(ns, cases, j);
    var a, b := Checked(ns, cases[i]), Checked(ns, cases[j]);
    assert a.lo <= a.hi && b.lo <= b.hi && t.Lowest() <= a.lo && t.Lowest() <= b.hi;
    assert CastSpan(ns, t, cases[i]) == a && CastSpan(ns, t, cases[j]) == b;
    if ZeroLow(cases[j].key) { ZeroLowIsZero(ns, cases[j]); }
    assert Apart(a, b) == Apart(b, a);
    if cases[j].dir != Send {
      LaneApart(ns, cases, j, i);
    }
  }

  lemma CheckedInOrder(ns: Names, cases: seq<Alternative>, i: nat)
    requires i < |cases| && Sound(ns, cases) && Covers(ns, cases[i].key).Some?
    ensures Checked(ns, cases[i]).lo <= Checked(ns, cases[i]).hi
  {
    hide Dots, ParseLiteral, CppValue, Clash;
    assert WellFormed(ns, cases[i].key);
  }

  lemma ZeroLowIsZero(ns: Names, c: Alternative)
    requires Pasted(ns, c.key).Some? && ZeroLow(c.key)
    ensures Span(ns, c).lo == 0
  {
    hide Dots, CppValue, NumeralValue, PlainDecimal;
    SmallNumbers();
    PlainDecimalReads("0");
  }

  /** A discriminator the encoder admits for the otherwise branch decodes there exactly when no "0.." branch takes it. */
  lemma OtherwiseDecodesIff(ns: Names, t: IntType, cases: seq<Alternative>, sw: int)
    requires t.Valid() && Compiles(ns, cases)
    requires t.Holds(sw) && forall c <- cases :: !Accepts(ns, t, c.key, sw)
    ensures Pick(ns, t, cases, sw, 0) == |cases| <==>
            forall j :: 0 <= j < |cases| && ZeroLow(cases[j].key) && !Skipped(ns, cases, j) ==>
              t.Cast(Span(ns, cases[j]).hi) < sw
  {
    hide Skipped, Pick, Bounds, ZeroLow, IntType.Cast, IntType.Holds;
    PickIs(ns, t, cases, sw, 0, |cases|);
    forall j | 0 <= j < |cases|
      ensures Branches(ns, t, cases, sw, j) <==>
              !Skipped(ns, cases, j) && ZeroLow(cases[j].key) && sw <= t.Cast(Span(ns, cases[j]).hi)
    {
      assert cases[j] in cases;
    }
  }

  /** A discriminator that is not negative always does: a branch for "0.." that takes it would also be accepted. */
  lemma NonNegativeOtherwise(ns: Names, t: IntType, cases: seq<Alternative>, sw: int)
    requires t.Valid() && Compiles(ns, cases)
    requires t.Holds(sw) && sw >= 0 && forall c <- cases :: !Accepts(ns, t, c.key, sw)
    ensures Pick(ns, t, cases, sw, 0) == |cases|
  {
    hide Skipped, Pick, ZeroLow, Bounds;
    forall j | 0 <= j < |cases| && ZeroLow(cases[j].key) ensures t.Cast(Span(ns, cases[j]).hi) < sw {
      assert cases[j] in cases;
      ZeroLowIsZero(ns, cases[j]);
      assert t.Cast(0) == 0;
    }
    OtherwiseDecodesIff(ns, t, cases, sw);
  }

  /** Signed switch, cases "0..5" then "-1": the encoder accepts -1 for the second, the decoder takes the first. */
  lemma NegativeTaken(ns: Names, text: string, minus: string)
    requires text == "0..5" && minus == "-1" && ns.constants.Keys !! {"0", "5", "-1"}
    ensures var cases, t := [Alternative(Range(text), Both), Alternative(Value(minus), Both)], IntType(8, true);
      && Sound(ns, cases) && Compiles(ns, cases) && Representable(ns, t, cases) && AllFaithful(ns, cases)
      && Accepts(ns, t, cases[1].key, -1) && Pick(ns, t, cases, -1, 0) == 0
  {
    hide Dots, NumeralValue, PlainDecimal, ParseLiteral, CppValue, Faithful, WellFormed, Bounds;
    assert text[..1] == "0" && text[3..] == "5";
    SmallNumbers();
    PlainRange(ns, text, 1, 0, 5);
    MinusOneValue(ns, minus);
    LabelAlikeIff(ns, Range(text));
    LabelAlikeIff(ns, Value(minus));
    Pow2Known(7);
  }

  lemma MinusOneValue(ns: Names, text: string)
    requires text == "-1" && text !in ns.constants
    ensures Covers(ns, Value(text)) == Pasted(ns, Value(text)) == Some(Interval(-1, -1)) && WellFormed(ns, Value(text))
  {
    hide NumeralValue, PlainDecimal;
    assert text[1..] == "1";
    SmallNumbers();
    MinusReads("1");
  }
}
