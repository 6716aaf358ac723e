/** Choice cases: the overlap check of the validator, over the case labels as written. */
module ChoiceCases {
  import opened Errors
  import opened Literals

  datatype Direction = Both | Send | Receive

  datatype Label = Value(text: string) | Range(text: string) | Unlabelled

  datatype Alternative = Alternative(key: Label, dir: Direction)

  // --------------------------------------------------------------------- labels

  /** Position of the first "..". */
  function Dots(s: string): (r: Option<nat>)
    ensures r.Some? ==> r.value + 2 <= |s| && s[r.value..r.value + 2] == ".."
  {
    if |s| < 2 then None
    else if s[..2] == ".." then Some(0)
    else
      var rest := Dots(s[1..]);
      if rest.Some? then
        assert s[1..][rest.value..rest.value + 2] == s[rest.value + 1..rest.value + 3];
        Some(rest.value + 1)
      else None
  }

  function LowText(s: string): string
    requires Dots(s).Some?
  {
    s[..Dots(s).value]
  }

  function HighText(s: string): string
    requires Dots(s).Some?
  {
    s[Dots(s).value + 2..]
  }

  datatype Interval = Interval(lo: int, hi: int)

  predicate Apart(a: Interval, b: Interval) {
    a.hi < b.lo || b.hi < a.lo
  }

  /** The values between the bounds of a label, as read by one of the two. */
  function Bounds(ns: Names, reader: Reader, key: Label): Option<Interval> {
    match key
    case Value(text) =>
      var v := ns.Read(reader, text);
      if v.Some? then Some(Interval(v.value, v.value)) else None
    case Range(text) =>
      if Dots(text).None? || LowText(text) == "" || HighText(text) == "" then None
      else
        var lo, hi := ns.Read(reader, LowText(text)), ns.Read(reader, HighText(text));
        if lo.Some? && hi.Some? then Some(Interval(lo.value, hi.value)) else None
    case Unlabelled => None
  }

  /** The values a label covers for the overlap check, when its text resolves. */
  function Covers(ns: Names, key: Label): Option<Interval> {
    Bounds(ns, Analyzer, key)
  }

  /** Nothing to complain about in the label alone. */
  predicate WellFormed(ns: Names, key: Label) {
    key.Range? ==>
      var text := key.text;
      && Dots(text).Some? && LowText(text) != "" && HighText(text) != ""
      && ns.Known(LowText(text)) && ns.Known(HighText(text))
      && var c := Covers(ns, key); c.Some? ==> c.value.lo <= c.value.hi
  }

  predicate TwoDots(text: string, i: nat) {
    i + 2 <= |text| && text[i] == '.' && text[i + 1] == '.'
  }

  /** The separator is at k and at no place before it. */
  predicate SplitsAt(text: string, k: nat) {
    TwoDots(text, k) && forall i: nat :: i < k ==> !TwoDots(text, i)
  }

  lemma {:induction false} DotsIff(text: string, k: nat)
    ensures Dots(text) == Some(k) <==> SplitsAt(text, k)
    decreases |text|
  {
    DotsAtFront(text);
    if |text| >= 2 && !TwoDots(text, 0) {
      var rest := text[1..];
      assert forall i: nat :: TwoDots(text, i + 1) <==> TwoDots(rest, i);
      if k > 0 {
        DotsIff(rest, k - 1);
        forall i: nat | 0 < i ensures TwoDots(text, i) <==> TwoDots(rest, i - 1) {
        }
      }
    }
  }

  lemma DotsAtFront(text: string)
    ensures |text| >= 2 ==> (text[..2] == ".." <==> TwoDots(text, 0))
  {
  }

  /** A range passes exactly when a separator splits it into two bounds, each a number or a constant, in order if both resolve. */
  lemma RangePassesIff(ns: Names, text: string)
    ensures WellFormed(ns, Range(text)) <==>
      exists k: nat :: SplitsAt(text, k) && BoundsPass(ns, text[..k], text[k + 2..])
  {
    hide Dots, ParseLiteral, CppValue;
    if Dots(text).Some? {
      var k := Dots(text).value;
      DotsIff(text, k);
      forall i: nat | SplitsAt(text, i) ensures i == k {
        DotsIff(text, i);
      }
    } else {
      forall i: nat ensures !SplitsAt(text, i) {
        DotsIff(text, i);
      }
    }
  }

  predicate BoundsPass(ns: Names, low: string, high: string) {
    && low != "" && high != ""
    && (ParseLiteral(low).Some? || low in ns.constants) && (ParseLiteral(high).Some? || high in ns.constants)
    && (ns.Resolve(low).Some? && ns.Resolve(high).Some? ==> ns.Resolve(low).value <= ns.Resolve(high).value)
  }

  predicate SharesLane(a: Direction, b: Direction) {
    !(a == Send && b == Receive) && !(a == Receive && b == Send)
  }

  predicate Clash(ns: Names, a: Alternative, b: Alternative) {
    var x, y := Covers(ns, a.key), Covers(ns, b.key);
    SharesLane(a.dir, b.dir) && x.Some? && y.Some? && !Apart(x.value, y.value)
  }

  ghost predicate Sound(ns: Names, cases: seq<Alternative>) {
    && (forall c <- cases :: WellFormed(ns, c.key))
    && forall i, j :: 0 <= i < j < |cases| ==> !Clash(ns, cases[i], cases[j])
  }

  /** The same number in two cases passes exactly when one is only sent and the other only received. */
  lemma SameValuePassesIff(ns: Names, a: string, b: string, x: Direction, y: Direction)
    requires ns.Resolve(a).Some? && ns.Resolve(a) == ns.Resolve(b)
    ensures Sound(ns, [Alternative(Value(a), x), Alternative(Value(b), y)]) <==> {x, y} == {Send, Receive}
  {
    hide ParseLiteral, CppValue;
    var cases := [Alternative(Value(a), x), Alternative(Value(b), y)];
    assert Clash(ns, cases[0], cases[1]) <==> SharesLane(x, y);
    assert Send in {x, y} && Receive in {x, y} <==> !SharesLane(x, y);
  }

  // -------------------------------------------------------------------- entries

  datatype Entry = Entry(span: Interval, at: nat, dir: Direction)

  datatype Complaint =
    | NoSeparator(at: nat)
    | EmptyBoundary(at: nat)
    | UnknownLow(at: nat)
    | UnknownHigh(at: nat)
    | Inverted(at: nat)
    | Overlap(at: nat)

  /** es lists the resolvable cases among the first n, in order. */
  ghost predicate Lists(ns: Names, cases: seq<Alternative>, n: nat, es: seq<Entry>)
    requires n <= |cases|
  {
    && (forall e <- es :: e.at < n && e.dir == cases[e.at].dir && Covers(ns, cases[e.at].key) == Some(e.span))
    && (forall i :: 0 <= i < n && Covers(ns, cases[i].key).Some? ==>
          Entry(Covers(ns, cases[i].key).value, i, cases[i].dir) in es)
    && Distinct(es)
  }

  ghost predicate Distinct(es: seq<Entry>) {
    forall i, j :: 0 <= i < j < |es| ==> es[i] != es[j]
  }

  method ReadRange(ns: Names, text: string, at: nat) returns (span: Option<Interval>, complaints: seq<Complaint>)
    ensures span == Covers(ns, Range(text))
    ensures complaints == [] <==> WellFormed(ns, Range(text))
  {
    hide ParseLiteral, Dots;
    complaints := [];
    var dots := Dots(text);
    if dots.None? {
      return None, [NoSeparator(at)];
    }
    var low, high := text[..dots.value], text[dots.value + 2..];
    if low == "" || high == "" {
      return None, [EmptyBoundary(at)];
    }
    var lo := ParseLiteral(low);
    if lo.None? {
      if low in ns.constants {
        lo := ParseLiteral(ns.constants[low].text);
      } else {
        complaints := complaints + [UnknownLow(at)];
      }
    }
    var hi := ParseLiteral(high);
    if hi.None? {
      if high in ns.constants {
        hi := ParseLiteral(ns.constants[high].text);
      } else {
        complaints := complaints + [UnknownHigh(at)];
      }
    }
    span := None;
    if lo.Some? && hi.Some? {
      if lo.value > hi.value {
        complaints := complaints + [Inverted(at)];
      }
      span := Some(Interval(lo.value, hi.value));
    }
  }

  method Collect(ns: Names, cases: seq<Alternative>) returns (es: seq<Entry>, complaints: seq<Complaint>)
    ensures Lists(ns, cases, |cases|, es)
    ensures complaints == [] <==> forall c <- cases :: WellFormed(ns, c.key)
  {
    hide Covers, WellFormed;
    es, complaints := [], [];
    for i := 0 to |cases|
      invariant Lists(ns, cases, i, es)
      invariant complaints == [] <==> forall c <- cases[..i] :: WellFormed(ns, c.key)
    {
      assert cases[..i + 1] == cases[..i] + [cases[i]];
      var span, more := ReadLabel(ns, cases[i].key, i);
      ghost var before := es;
      if span.Some? {
        es := es + [Entry(span.value, i, cases[i].dir)];
      }
      complaints := complaints + more;
    }
    assert cases[..|cases|] == cases;
  }

  method ReadLabel(ns: Names, key: Label, at: nat) returns (span: Option<Interval>, complaints: seq<Complaint>)
    ensures span == Covers(ns, key)
    ensures complaints == [] <==> WellFormed(ns, key)
  {
    hide ParseLiteral, Dots;
    match key
    case Value(text) =>
      var v := ParseLiteral(text);
      if v.None? && text in ns.constants {
        v := ParseLiteral(ns.constants[text].text);
      }
      return if v.Some? then Some(Interval(v.value, v.value)) else None, [];
    case Range(text) =>
      span, complaints := ReadRange(ns, text, at);
    case Unlabelled =>
      return None, [];
  }

  // ------------------------------------------------------------- sorted adjacency

  ghost predicate Sorted(es: seq<Entry>) {
    forall i, j :: 0 <= i < j < |es| ==> es[i].span.lo <= es[j].span.lo
  }

  ghost predicate Proper(es: seq<Entry>) {
    forall e <- es :: e.span.lo <= e.span.hi
  }

  ghost predicate AllApart(es: seq<Entry>) {
    forall a, b :: a in es && b in es && a != b ==> Apart(a.span, b.span)
  }

  ghost predicate Stepwise(es: seq<Entry>) {
    forall i :: 0 < i < |es| ==> es[i - 1].span.hi < es[i].span.lo
  }

  lemma {:induction false} StepsReach(es: seq<Entry>, i: nat, j: nat)
    requires Stepwise(es) && Proper(es) && i < j < |es|
    ensures es[i].span.hi < es[j].span.lo
    decreases j
  {
    assert es[j - 1].span.hi < es[j].span.lo;
    if i < j - 1 {
      StepsReach(es, i, j - 1);
      assert es[j - 1] in es;
    }
  }

  /** After sorting by lower bound, comparing neighbours is as good as comparing all pairs. */
  lemma NeighboursSuffice(es: seq<Entry>)
    requires Sorted(es) && Proper(es) && Distinct(es)
    ensures Stepwise(es) <==> AllApart(es)
  {
    if Stepwise(es) {
      forall a, b | a in es && b in es && a != b ensures Apart(a.span, b.span) {
        var i :| 0 <= i < |es| && es[i] == a;
        var j :| 0 <= j < |es| && es[j] == b;
        if i < j { StepsReach(es, i, j); } else { StepsReach(es, j, i); }
      }
    }
    if AllApart(es) {
      forall i | 0 < i < |es| ensures es[i - 1].span.hi < es[i].span.lo {
        assert Apart(es[i - 1].span, es[i].span);
        assert es[i].span.lo <= es[i].span.hi;
      }
    }
  }

  lemma {:induction false} DistinctCount(es: seq<Entry>, e: Entry)
    requires Distinct(es)
    ensures multiset(es)[e] <= 1
    decreases |es|
  {
    if es != [] {
      var rest := es[1..];
      assert es == [es[0]] + rest;
      assert Distinct(rest) && es[0] !in rest;
      DistinctCount(rest, e);
    }
  }

  lemma DistinctKept(a: seq<Entry>, b: seq<Entry>)
    requires Distinct(a) && multiset(a) == multiset(b)
    ensures Distinct(b) && forall e :: e in a <==> e in b
  {
    forall e ensures e in a <==> e in b {
      assert e in a <==> e in multiset(a);
      assert e in b <==> e in multiset(b);
    }
    forall i, j | 0 <= i < j < |b| ensures b[i] != b[j] {
      DistinctCount(a, b[j]);
      assert b == b[..j] + [b[j]] + b[j + 1..];
      assert b[i] in b[..j];
      assert b[i] in multiset(b[..j]);
    }
  }

  method SortByLow(es: seq<Entry>) returns (s: seq<Entry>)
    ensures Sorted(s) && multiset(s) == multiset(es)
  {
    s := [];
    for i := 0 to |es|
      invariant Sorted(s) && multiset(s) == multiset(es[..i])
    {
      assert es[..i + 1] == es[..i] + [es[i]];
      s := Insert(s, es[i]);
    }
    assert es[..|es|] == es;
  }

  method Insert(s: seq<Entry>, e: Entry) returns (r: seq<Entry>)
    requires Sorted(s)
    ensures Sorted(r) && multiset(r) == multiset(s) + multiset{e}
  {
    var k := |s|;
    while k > 0 && e.span.lo < s[k - 1].span.lo
      invariant 0 <= k <= |s|
      invariant forall i :: k <= i < |s| ==> e.span.lo < s[i].span.lo
    {
      k := k - 1;
    }
    r := s[..k] + [e] + s[k..];
    InsertSorted(s, k, e);
    InsertCount(s, k, e);
  }

  lemma InsertSorted(s: seq<Entry>, k: nat, e: Entry)
    requires Sorted(s) && k <= |s|
    requires k < |s| ==> e.span.lo < s[k].span.lo
    requires k > 0 ==> s[k - 1].span.lo <= e.span.lo
    ensures Sorted(s[..k] + [e] + s[k..])
  {
    var r := s[..k] + [e] + s[k..];
    forall i, j | 0 <= i < j < |r| ensures r[i].span.lo <= r[j].span.lo {
      if j <= k {
        assert r[i] == s[i];
        assert s[i].span.lo <= s[k - 1].span.lo;
      } else {
        assert r[j] == s[j - 1];
        assert s[k].span.lo <= s[j - 1].span.lo;
        assert i < k ==> r[i] == s[i];
        assert i > k ==> r[i] == s[i - 1];
      }
    }
  }

  lemma InsertCount(s: seq<Entry>, k: nat, e: Entry)
    requires k <= |s|
    ensures multiset(s[..k] + [e] + s[k..]) == multiset(s) + multiset{e}
  {
    assert s == s[..k] + s[k..];
  }

  method CheckLane(lane: seq<Entry>) returns (complaints: seq<Complaint>)
    requires Distinct(lane)
    ensures Proper(lane) ==> (complaints == [] <==> AllApart(lane))
  {
    var s := SortByLow(lane);
    DistinctKept(lane, s);
    complaints := [];
    var i := 1;
    while i < |s|
      invariant 1 <= i && (i <= |s| || s == [])
      invariant complaints == [] <==> forall k :: 0 < k < i && k < |s| ==> s[k - 1].span.hi < s[k].span.lo
    {
      if s[i].span.lo <= s[i - 1].span.hi {
        complaints := complaints + [Overlap(s[i].at)];
      }
      i := i + 1;
    }
    if Proper(lane) {
      NeighboursSuffice(s);
    }
  }

  // -------------------------------------------------------------------- the check

  ghost predicate IsLane(es: seq<Entry>, excluded: Direction, lane: seq<Entry>) {
    Distinct(lane) && forall e :: e in lane <==> e in es && e.dir != excluded
  }

  /** The entries of one lane: everything but the cases of the other direction. */
  method Lane(es: seq<Entry>, excluded: Direction) returns (lane: seq<Entry>)
    requires Distinct(es)
    ensures IsLane(es, excluded, lane)
  {
    lane := [];
    for i := 0 to |es|
      invariant Distinct(lane) && forall e :: e in lane <==> e in es[..i] && e.dir != excluded
    {
      assert es[..i + 1] == es[..i] + [es[i]];
      assert es[i] !in es[..i];
      if es[i].dir != excluded {
        lane := lane + [es[i]];
      }
    }
    assert es[..|es|] == es;
  }

  lemma EntriesProper(ns: Names, cases: seq<Alternative>, es: seq<Entry>)
    requires Lists(ns, cases, |cases|, es) && forall c <- cases :: WellFormed(ns, c.key)
    ensures Proper(es)
  {
    forall e | e in es ensures e.span.lo <= e.span.hi {
      assert cases[e.at] in cases;
    }
  }

  lemma LanesDecide(ns: Names, cases: seq<Alternative>, es: seq<Entry>, send: seq<Entry>, recv: seq<Entry>)
    requires Lists(ns, cases, |cases|, es) && IsLane(es, Receive, send) && IsLane(es, Send, recv)
    ensures AllApart(send) && AllApart(recv) <==>
            forall i, j :: 0 <= i < j < |cases| ==> !Clash(ns, cases[i], cases[j])
  {
    hide Covers;
    if AllApart(send) && AllApart(recv) {
      forall i, j | 0 <= i < j < |cases| ensures !Clash(ns, cases[i], cases[j]) {
        var x, y := Covers(ns, cases[i].key), Covers(ns, cases[j].key);
        if x.Some? && y.Some? && SharesLane(cases[i].dir, cases[j].dir) {
          var a := Entry(x.value, i, cases[i].dir);
          var b := Entry(y.value, j, cases[j].dir);
          assert a in es && b in es && a != b;
          assert (a in send && b in send) || (a in recv && b in recv);
        }
      }
    } else {
      var a: Entry, b: Entry :| a != b && !Apart(a.span, b.span) && ((a in send && b in send) || (a in recv && b in recv));
      assert a in es && b in es;
      assert a.at != b.at;
      assert SharesLane(a.dir, b.dir) && SharesLane(b.dir, a.dir);
      assert Apart(a.span, b.span) == Apart(b.span, a.span);
      assert Covers(ns, cases[a.at].key) == Some(a.span) && Covers(ns, cases[b.at].key) == Some(b.span);
      if a.at < b.at {
        assert Clash(ns, cases[a.at], cases[b.at]);
      } else {
        assert Clash(ns, cases[b.at], cases[a.at]);
      }
    }
  }

  /** Silent exactly when every label is well formed and no two cases of a lane share a value. */
  method CheckCaseOverlap(ns: Names, cases: seq<Alternative>) returns (complaints: seq<Complaint>)
    ensures complaints == [] <==> Sound(ns, cases)
  {
    hide WellFormed, Clash, Lists, IsLane, AllApart;
    var es, malformed := Collect(ns, cases);
    assert Distinct(es) by { ListsDistinct(ns, cases, es); }
    var send := Lane(es, Receive);
    var recv := Lane(es, Send);
    LanesProper(es, send, recv);
    var sendClashes := CheckLane(send);
    var recvClashes := CheckLane(recv);
    if malformed == [] {
      EntriesProper(ns, cases, es);
    }
    LanesDecide(ns, cases, es, send, recv);
    complaints := malformed + sendClashes + recvClashes;
  }

  lemma ListsDistinct(ns: Names, cases: seq<Alternative>, es: seq<Entry>)
    requires Lists(ns, cases, |cases|, es)
    ensures Distinct(es)
  {
  }

  lemma LanesProper(es: seq<Entry>, send: seq<Entry>, recv: seq<Entry>)
    requires IsLane(es, Receive, send) && IsLane(es, Send, recv)
    ensures Distinct(send) && Distinct(recv)
    ensures Proper(es) ==> Proper(send) && Proper(recv)
  {
  }
}
