/** Struct cycle detection: depth-first search with a visited set and a set of nodes on the stack. */
module CycleDetector {
  import opened Errors
  import opened Protocol

  // ---------------------------------------------------------------- references

  /** Struct and message references that are laid out in place; array elements are not. */
  function Refs(ix: Index, cs: seq<Child>): (rs: seq<Name>)
    ensures forall r <- rs :: ix.IsStructOrMessage(r)
    decreases cs
  {
    if cs == [] then [] else ChildRefs(ix, cs[0]) + Refs(ix, cs[1..])
  }

  function ChildRefs(ix: Index, c: Child): (rs: seq<Name>)
    ensures forall r <- rs :: ix.IsStructOrMessage(r)
    decreases c
  {
    match c
    case FieldChild(f) => if f.typeRef != "" && ix.IsStructOrMessage(f.typeRef) then [f.typeRef] else []
    case StructChild(_, _, cs) => Refs(ix, cs)
    case ArrayChild(_, _, _, _, _) => []
    case ChoiceChild(cases, other) => CaseRefs(ix, cases) + Refs(ix, other)
    case FxChild(cs) => Refs(ix, cs)
    case ReservedChild(_) => []
    case AlignChild => []
  }

  function CaseRefs(ix: Index, cases: seq<Case>): (rs: seq<Name>)
    ensures forall r <- rs :: ix.IsStructOrMessage(r)
    decreases cases
  {
    if cases == [] then [] else Refs(ix, cases[0].children) + CaseRefs(ix, cases[1..])
  }

  /** The references of a definition: exactly the structs and messages that lie in place in it. */
  function Edges(ix: Index, n: Name): (rs: seq<Name>)
    ensures forall r <- rs :: r in ix.Nodes()
    ensures rs != [] ==> n in ix.Nodes()
    ensures forall r :: r in rs <==> InPlace(ix, n, r)
  {
    InPlaceIff(ix, n);
    Refs(ix, ix.ChildrenOf(n))
  }

  // ------------------------------------------------------- what lies in place, by position

  /**
    The field at a path: an index into the list, then on into the children of a struct or an FX block,
    or, for a choice, the number of a case, or the number of cases for otherwise, and on into that.
    No path leads into an array.
   */
  ghost function FieldAt(cs: seq<Child>, path: seq<nat>): Option<Field>
    decreases |path|
  {
    if path == [] || path[0] >= |cs| then None
    else
      match cs[path[0]]
      case FieldChild(f) => if |path| == 1 then Some(f) else None
      case StructChild(_, _, inner) => FieldAt(inner, path[1..])
      case FxChild(inner) => FieldAt(inner, path[1..])
      case ChoiceChild(cases, other) =>
        if |path| == 1 || path[1] > |cases| then None
        else FieldAt(if path[1] < |cases| then cases[path[1]].children else other, path[2..])
      case ArrayChild(_, _, _, _, _) => None
      case ReservedChild(_) => None
      case AlignChild => None
  }

  ghost predicate Refers(ix: Index, cs: seq<Child>, path: seq<nat>, r: Name) {
    FieldAt(cs, path).Some? && FieldAt(cs, path).value.typeRef == r && r != "" && r in ix.Nodes()
  }

  /** A field of type r lies somewhere in the struct, or else in the message, named n. */
  ghost predicate InPlace(ix: Index, n: Name, r: Name) {
    if n in ix.structs then exists path :: Refers(ix, ix.structs[n].children, path, r)
    else n in ix.messages && exists path :: Refers(ix, ix.messages[n], path, r)
  }

  lemma {:induction false} RefsOf(ix: Index, cs: seq<Child>, i: nat, r: Name)
    requires i < |cs| && r in ChildRefs(ix, cs[i])
    ensures r in Refs(ix, cs)
    decreases |cs|
  {
    if i > 0 { RefsOf(ix, cs[1..], i - 1, r); }
  }

  lemma {:induction false} CaseRefsOf(ix: Index, cases: seq<Case>, i: nat, r: Name)
    requires i < |cases| && r in Refs(ix, cases[i].children)
    ensures r in CaseRefs(ix, cases)
    decreases |cases|
  {
    if i > 0 { CaseRefsOf(ix, cases[1..], i - 1, r); }
  }

  /** What lies at a path is collected. */
  lemma {:induction false} PathCollected(ix: Index, cs: seq<Child>, path: seq<nat>, r: Name)
    requires Refers(ix, cs, path, r)
    ensures r in Refs(ix, cs)
    decreases |path|
  {
    hide Refs;
    match cs[path[0]] {
      case FieldChild(_) =>
      case StructChild(_, _, inner) => PathCollected(ix, inner, path[1..], r);
      case FxChild(inner) => PathCollected(ix, inner, path[1..], r);
      case ChoiceChild(cases, other) =>
        if path[1] < |cases| {
          PathCollected(ix, cases[path[1]].children, path[2..], r);
          CaseRefsOf(ix, cases, path[1], r);
        } else {
          PathCollected(ix, other, path[2..], r);
        }
    }
    RefsOf(ix, cs, path[0], r);
  }

  /** What is collected lies at a path. */
  lemma {:induction false} CollectedPath(ix: Index, cs: seq<Child>, r: Name) returns (path: seq<nat>)
    requires r in Refs(ix, cs)
    ensures Refers(ix, cs, path, r)
    decreases cs
  {
    if r in ChildRefs(ix, cs[0]) {
      path := CollectedInChild(ix, cs, r);
    } else {
      var later := CollectedPath(ix, cs[1..], r);
      path := [later[0] + 1] + later[1..];
      NextChild(cs, later);
    }
  }

  lemma NextChild(cs: seq<Child>, path: seq<nat>)
    requires cs != [] && path != []
    ensures FieldAt(cs, [path[0] + 1] + path[1..]) == FieldAt(cs[1..], path)
  {
    var shifted := [path[0] + 1] + path[1..];
    assert shifted[1..] == path[1..];
    if |path| > 1 { assert shifted[2..] == path[2..] && shifted[1] == path[1]; }
  }

  lemma {:induction false} CollectedInChild(ix: Index, cs: seq<Child>, r: Name) returns (path: seq<nat>)
    requires cs != [] && r in ChildRefs(ix, cs[0])
    ensures Refers(ix, cs, path, r)
    decreases cs, 0
  {
    match cs[0]
    case FieldChild(_) => path := [0];
    case StructChild(_, _, inner) =>
      var below := CollectedPath(ix, inner, r);
      path := [0] + below;
      assert path[1..] == below;
    case FxChild(inner) =>
      var below := CollectedPath(ix, inner, r);
      path := [0] + below;
      assert path[1..] == below;
    case ChoiceChild(cases, other) =>
      if r in CaseRefs(ix, cases) {
        var i, below := CollectedInCase(ix, cases, r);
        path := [0, i] + below;
        assert path[2..] == below;
      } else {
        var below := CollectedPath(ix, other, r);
        path := [0, |cases|] + below;
        assert path[2..] == below;
      }
  }

  lemma {:induction false} CollectedInCase(ix: Index, cases: seq<Case>, r: Name) returns (i: nat, path: seq<nat>)
    requires r in CaseRefs(ix, cases)
    ensures i < |cases| && Refers(ix, cases[i].children, path, r)
    decreases cases
  {
    if r in Refs(ix, cases[0].children) {
      i := 0;
      path := CollectedPath(ix, cases[0].children, r);
    } else {
      i, path := CollectedInCase(ix, cases[1..], r);
      i := i + 1;
    }
  }

  lemma InPlaceIff(ix: Index, n: Name)
    ensures forall r :: r in Refs(ix, ix.ChildrenOf(n)) <==> InPlace(ix, n, r)
  {
    hide Refs;
    var cs := ix.ChildrenOf(n);
    forall r ensures r in Refs(ix, cs) <==> InPlace(ix, n, r) {
      if r in Refs(ix, cs) {
        var path := CollectedPath(ix, cs, r);
        assert Refers(ix, cs, path, r);
      }
      if path :| Refers(ix, cs, path, r) {
        PathCollected(ix, cs, path, r);
      }
    }
  }

  // ----------------------------------------------------------- paths and cycles

  ghost predicate IsPath(ix: Index, p: seq<Name>) {
    p != [] && forall i :: 0 <= i < |p| - 1 ==> InPlace(ix, p[i], p[i + 1])
  }

  ghost predicate IsCycle(ix: Index, p: seq<Name>) {
    |p| >= 2 && IsPath(ix, p) && p[0] == p[|p| - 1]
  }

  /** The reference from a to b closes a cycle. */
  ghost predicate OnCycle(ix: Index, a: Name, b: Name) {
    exists p :: IsCycle(ix, p) && p[0] == b && p[|p| - 2] == a
  }

  ghost predicate HasCycle(ix: Index) {
    exists p :: IsCycle(ix, p)
  }

  /** Every reference of a finished node leads to a node finished earlier. */
  ghost predicate Topological(ix: Index, done: seq<Name>) {
    forall i :: 0 <= i < |done| ==> forall r <- Edges(ix, done[i]) :: r in done[..i]
  }

  /** In a topological order positions fall along every path. */
  lemma {:induction false} PathFalls(ix: Index, done: seq<Name>, p: seq<Name>, at: nat)
    requires Topological(ix, done) && IsPath(ix, p)
    requires at < |done| && done[at] == p[0]
    ensures |p| >= 2 ==> p[|p| - 1] in done[..at]
    decreases |p|
  {
    if |p| >= 2 {
      assert InPlace(ix, p[0], p[0 + 1]);
      assert p[1] in Edges(ix, done[at]);
      var k :| 0 <= k < at && done[..at][k] == p[1];
      assert IsPath(ix, p[1..]) by {
        forall i | 0 <= i < |p[1..]| - 1 ensures InPlace(ix, p[1..][i], p[1..][i + 1]) {
          assert InPlace(ix, p[i + 1], p[i + 2]);
        }
      }
      PathFalls(ix, done, p[1..], k);
    }
  }

  lemma NoCycle(ix: Index, done: seq<Name>)
    requires Topological(ix, done) && Distinct(done) && forall n <- ix.Nodes() :: n in done
    ensures !HasCycle(ix)
  {
    forall p | IsCycle(ix, p) ensures false {
      assert InPlace(ix, p[0], p[0 + 1]);
      assert p[1] in Edges(ix, p[0]);
      assert p[0] in ix.Nodes();
      var at :| 0 <= at < |done| && done[at] == p[0];
      PathFalls(ix, done, p, at);
    }
  }

  /** A reference back into the stack closes a cycle. */
  lemma BackEdge(ix: Index, stack: seq<Name>, ref: Name)
    requires IsPath(ix, stack) && ref in stack && InPlace(ix, stack[|stack| - 1], ref)
    ensures OnCycle(ix, stack[|stack| - 1], ref)
  {
    hide InPlace;
    var k :| 0 <= k < |stack| && stack[k] == ref;
    var p := stack[k..] + [ref];
    forall i | 0 <= i < |p| - 1 ensures InPlace(ix, p[i], p[i + 1]) {
      assert p[i] == stack[k + i];
      if i < |p| - 2 {
        assert InPlace(ix, stack[k + i], stack[k + i + 1]);
      }
    }
    assert IsCycle(ix, p) && p[0] == ref && p[|p| - 2] == stack[|stack| - 1];
  }

  lemma TopologicalMore(ix: Index, done: seq<Name>, n: Name)
    requires Topological(ix, done) && forall r <- Edges(ix, n) :: r in done
    ensures Topological(ix, done + [n])
  {
    var more := done + [n];
    forall i | 0 <= i < |more| ensures forall r <- Edges(ix, more[i]) :: r in more[..i] {
      if i < |done| {
        assert more[..i] == done[..i];
      } else {
        assert more[..i] == done;
      }
    }
  }

  lemma PathPrefix(ix: Index, p: seq<Name>)
    requires IsPath(ix, p)
    ensures |p| > 1 ==> IsPath(ix, p[..|p| - 1])
  {
    hide InPlace;
  }

  lemma DistinctMore(ns: seq<Name>, n: Name)
    requires Distinct(ns) && n !in ns
    ensures Distinct(ns + [n])
  {
  }

  // ------------------------------------------------------------------ the search

  class Detector {
    const ix: Index
    var visited: set<Name>
    var inStack: set<Name>
    var errors: seq<(Name, Name)>
    ghost var stack: seq<Name>
    ghost var done: seq<Name>

    ghost predicate Valid()
      reads this
    {
      && (forall n :: n in inStack <==> n in stack)
      && (forall n :: n in visited <==> n in stack || n in done)
      && (forall n :: !(n in stack && n in done))
      && (stack != [] ==> IsPath(ix, stack))
      && Distinct(done)
      && (forall e <- errors :: OnCycle(ix, e.0, e.1))
      && (errors == [] ==> Topological(ix, done))
    }

    constructor (ix: Index)
      ensures Valid() && this.ix == ix && visited == {} && stack == [] && done == [] && errors == []
    {
      this.ix := ix;
      visited, inStack, errors, stack, done := {}, {}, [], [], [];
    }

    /** Nothing is forgotten: finished nodes and errors only grow. */
    twostate predicate Grown()
      reads this
    {
      old(done) <= done && old(errors) <= errors && old(visited) <= visited
    }

    method Visit(name: Name)
      requires Valid() && name !in visited
      requires stack != [] ==> InPlace(ix, stack[|stack| - 1], name)
      modifies this
      ensures Valid() && Grown() && stack == old(stack) && name in done
      ensures forall n <- done :: n in old(done) || n in ix.Nodes() + {name}
      decreases (ix.Nodes() + {name}) - visited
    {
      hide Edges, Refs, InPlace, IsPath, OnCycle, Topological;
      Enter(name);
      var refs := Edges(ix, name);
      var i := 0;
      while i < |refs|
        invariant 0 <= i <= |refs|
        invariant Valid() && Grown() && stack == old(stack) + [name] && old(visited) + {name} <= visited
        invariant errors == [] ==> forall r <- refs[..i] :: r in done
        invariant forall n <- done :: n in old(done) || n in ix.Nodes()
      {
        var ref := refs[i];
        assert refs[..i + 1] == refs[..i] + [ref];
        if ref in inStack {
          BackEdge(ix, stack, ref);
          errors := errors + [(name, ref)];
        } else if ref !in visited {
          Visit(ref);
        }
        i := i + 1;
      }
      assert refs[..i] == refs;
      Leave(name);
    }

    method Enter(name: Name)
      requires Valid() && name !in visited
      requires stack != [] ==> InPlace(ix, stack[|stack| - 1], name)
      modifies this
      ensures Valid() && done == old(done) && errors == old(errors)
      ensures stack == old(stack) + [name] && visited == old(visited) + {name}
    {
      visited := visited + {name};
      inStack := inStack + {name};
      stack := stack + [name];
      forall i | 0 <= i < |stack| - 1 ensures InPlace(ix, stack[i], stack[i + 1]) {
        assert i < |old(stack)| - 1 ==> InPlace(ix, old(stack)[i], old(stack)[i + 1]);
      }
    }

    method Leave(name: Name)
      requires Valid() && stack != [] && stack[|stack| - 1] == name && name !in stack[..|stack| - 1]
      requires errors == [] ==> forall r <- Edges(ix, name) :: r in done
      modifies this
      ensures Valid() && errors == old(errors) && visited == old(visited)
      ensures stack == old(stack)[..|old(stack)| - 1] && done == old(done) + [name]
    {
      hide Edges, IsPath, Topological, OnCycle, Distinct;
      inStack := inStack - {name};
      ghost var rest := stack[..|stack| - 1];
      assert stack == rest + [name];
      if errors == [] { TopologicalMore(ix, done, name); }
      PathPrefix(ix, stack);
      DistinctMore(done, name);
      stack := rest;
      done := done + [name];
    }

    /** Starts from every struct, then every message: reports something exactly when some cycle exists. */
    method DetectCycles(structs: seq<Name>, messages: seq<Name>)
      requires Valid() && stack == [] && errors == [] && visited == {}
      requires forall n :: n in ix.Nodes() <==> n in structs || n in messages
      modifies this
      ensures Valid() && stack == []
      ensures errors == [] <==> !HasCycle(ix)
      ensures forall e <- errors :: InPlace(ix, e.0, e.1) && OnCycle(ix, e.0, e.1)
      ensures Distinct(done) && forall n :: n in done <==> n in ix.Nodes()
    {
      VisitAll(structs);
      VisitAll(messages);
      Verdict();
    }

    method VisitAll(names: seq<Name>)
      requires Valid() && stack == []
      requires forall n <- names :: n in ix.Nodes()
      modifies this
      ensures Valid() && Grown() && stack == []
      ensures forall n <- names :: n in done
      ensures forall n <- done :: n in old(done) || n in ix.Nodes()
    {
      hide Edges, IsPath, OnCycle, Topological;
      var i := 0;
      while i < |names|
        invariant 0 <= i <= |names|
        invariant Valid() && Grown() && stack == []
        invariant forall n <- names[..i] :: n in done
        invariant forall n <- done :: n in old(done) || n in ix.Nodes()
      {
        assert names[..i + 1] == names[..i] + [names[i]];
        if names[i] !in visited {
          Visit(names[i]);
        }
        i := i + 1;
      }
      assert names[..i] == names;
    }

    lemma Verdict()
      requires Valid() && stack == [] && forall n <- ix.Nodes() :: n in done
      ensures errors == [] <==> !HasCycle(ix)
      ensures forall e <- errors :: InPlace(ix, e.0, e.1)
    {
      hide InPlace;
      forall e | e in errors ensures HasCycle(ix) && InPlace(ix, e.0, e.1) {
        var p :| IsCycle(ix, p) && p[0] == e.1 && p[|p| - 2] == e.0;
        assert InPlace(ix, p[|p| - 2], p[|p| - 2 + 1]);
      }
      if errors == [] {
        NoCycle(ix, done);
      } else {
        assert errors[0] in errors;
      }
    }
  }
}
