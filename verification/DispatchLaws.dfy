/** What every interleaving of receive, dispatch and shutdown steps keeps. */
module DispatchLaws {
  import opened BoundedQueue
  import opened Dispatch
  import opened Errors

  // ----------------------------------------------------------------- invariants

  ghost predicate Shape(c: Config, s: State) {
    && |s.pending| == c.peers && |s.workers| == c.threads && |s.queue| <= c.capacity
    && (s.closed ==> s.stopped)
    && (s.stopped ==> Flat(s.pending) == [])
    && ((exists w <- s.workers :: w.Exited?) ==> s.closed && s.queue == [])
  }

  /** How often a message is waiting, being handled, finished or lost. */
  ghost function Places(s: State, e: Message): nat {
    Count(Flat(s.pending), e) + Count(s.queue, e) + Count(InFlight(s.workers), e)
    + Count(s.finished, e) + Count(s.dropped, e) + Count(s.evicted, e)
  }

  /** Every message received is in exactly one place. */
  ghost predicate Conserved(s: State) {
    forall e :: Count(s.received, e) == Places(s, e)
  }

  ghost predicate Counted(s: State) {
    s.dispatched + s.handlerErrors + s.unhandled == |s.finished|
  }

  /** Blocking loses nothing, the evicting queue refuses nothing, the refusing queue evicts nothing. */
  ghost predicate LossFits(c: Config, s: State) {
    (c.policy != DropNewest ==> s.dropped == []) && (c.policy != DropOldest ==> s.evicted == [])
  }

  /** rest is what one peer still has to push; flow is what is behind it, in decode order, all of it if nothing was lost. */
  ghost predicate Tracks(p: nat, all: seq<Message>, rest: seq<Message>, flow: seq<Message>, lossless: bool) {
    && (forall m <- rest :: m.peer == p)
    && |rest| <= |all| && all[|all| - |rest|..] == rest
    && Sub(flow, all[..|all| - |rest|])
    && (lossless ==> flow == all[..|all| - |rest|])
  }

  /** One peer's messages leave the I/O thread in decode order and stay in that order. */
  ghost predicate Ordered(s: State, p: nat)
    requires p < |s.pending|
  {
    Tracks(p, OfPeer(s.received, p), s.pending[p], OfPeer(s.popped + s.queue, p), s.dropped == [] && s.evicted == [])
  }

  ghost predicate AllOrdered(s: State) {
    forall p :: 0 <= p < |s.pending| ==> Ordered(s, p)
  }

  ghost predicate OneAtATime(c: Config, s: State) {
    c.threads == 1 ==> s.popped == s.finished + InFlight(s.workers)
  }

  ghost predicate Inv(c: Config, s: State) {
    Shape(c, s) && Conserved(s) && Counted(s) && LossFits(c, s) && AllOrdered(s) && OneAtATime(c, s)
  }

  // --------------------------------------------------------------- conservation

  lemma PushKeeps(policy: DropPolicy, capacity: nat, closed: bool, q: seq<Message>, m: Message, e: Message)
    ensures var out := Push(policy, capacity, closed, q, m);
      Count(out.queue, e) + Count(out.evicted, e) + Count(if out.accepted then [] else [m], e)
      == Count(q, e) + Count([m], e)
  {
    CountConcat(q, [m], e);
    if q != [] {
      CountHead(q, e);
      CountConcat(q[1..], [m], e);
    }
  }

  lemma PlacesPush(c: Config, s: State, p: nat, e: Message)
    requires Enabled(c, s, PushNext(p))
    ensures Places(Apply(c, s, PushNext(p)), e) == Places(s, e)
  {
    hide Flat, InFlight, Push, Count;
    var m := s.pending[p][0];
    var out := Push(c.policy, c.capacity, s.closed, s.queue, m);
    FlatUpdate(s.pending, p, s.pending[p][1..], e);
    CountHead(s.pending[p], e);
    PushKeeps(c.policy, c.capacity, s.closed, s.queue, m, e);
    CountConcat(s.evicted, out.evicted, e);
    CountConcat(s.dropped, if out.accepted then [] else [m], e);
    assert out.accepted ==> s.dropped + [] == s.dropped;
  }

  lemma PlacesTake(c: Config, s: State, w: nat, e: Message)
    requires Enabled(c, s, Take(w))
    ensures Places(Apply(c, s, Take(w)), e) == Places(s, e)
  {
    hide Flat, InFlight, Count;
    NoneOf(e);
    InFlightUpdate(s.workers, w, Busy(s.queue[0]), e);
    CountHead(s.queue, e);
  }

  lemma PlacesFinish(c: Config, s: State, w: nat, o: Outcome, e: Message)
    requires Enabled(c, s, Finish(w, o))
    ensures Places(Apply(c, s, Finish(w, o)), e) == Places(s, e)
  {
    hide Flat, InFlight, Count;
    NoneOf(e);
    InFlightUpdate(s.workers, w, Idle, e);
    CountConcat(s.finished, [s.workers[w].message], e);
  }

  lemma PlacesLeave(c: Config, s: State, w: nat, e: Message)
    requires Enabled(c, s, Leave(w))
    ensures Places(Apply(c, s, Leave(w)), e) == Places(s, e)
  {
    hide Flat, InFlight, Count;
    InFlightUpdate(s.workers, w, Exited, e);
  }

  lemma NoneOf(e: Message)
    ensures Count([], e) == 0
  {
  }

  lemma PlacesReceive(c: Config, s: State, p: nat, decoded: seq<Message>, e: Message)
    requires Enabled(c, s, Receive(p, decoded))
    ensures Places(Apply(c, s, Receive(p, decoded)), e) == Places(s, e) + Count(decoded, e)
  {
    hide Flat, InFlight, Count;
    NoneOf(e);
    FlatUpdate(s.pending, p, decoded, e);
  }

  lemma ConservedStep(c: Config, s: State, step: Step)
    requires Conserved(s) && Enabled(c, s, step)
    ensures Conserved(Apply(c, s, step))
  {
    hide Places, Count, Flat;
    var t := Apply(c, s, step);
    forall e ensures Count(t.received, e) == Places(t, e) {
      match step
      case Receive(p, decoded) =>
        PlacesReceive(c, s, p, decoded, e);
        CountConcat(s.received, decoded, e);
      case PushNext(p) => PlacesPush(c, s, p, e);
      case Take(w) => PlacesTake(c, s, w, e);
      case Finish(w, o) => PlacesFinish(c, s, w, o, e);
      case Leave(w) => PlacesLeave(c, s, w, e);
      case StopTransports => PlacesQuiet(s, t, e);
      case Close => PlacesQuiet(s, t, e);
    }
  }

  lemma PlacesQuiet(s: State, t: State, e: Message)
    requires t == s.(stopped := t.stopped, closed := t.closed)
    ensures Places(t, e) == Places(s, e)
  {
  }

  // ------------------------------------------------------------------------ order

  lemma OrderedReceive(c: Config, s: State, q: nat, decoded: seq<Message>, p: nat)
    requires p < |s.pending| && Ordered(s, p) && Enabled(c, s, Receive(q, decoded))
    ensures Ordered(Apply(c, s, Receive(q, decoded)), p)
  {
    hide OfPeer, Sub;
    var all := OfPeer(s.received, p);
    OfPeerConcat(s.received, decoded, p);
    OfPeerAll(decoded, q, p);
    if p == q {
      assert all[..|all|] == all;
      assert (all + decoded)[..|all|] == all && (all + decoded)[|all|..] == decoded;
    } else {
      assert all + [] == all;
    }
  }

  ghost predicate PushShape(q: seq<Message>, out: Pushed<Message>, m: Message) {
    && (out.evicted == [] || (q != [] && out.evicted == [q[0]]))
    && out.queue == (if out.evicted == [] then q else q[1..]) + (if out.accepted then [m] else [])
  }

  lemma PushHasShape(policy: DropPolicy, capacity: nat, closed: bool, q: seq<Message>, m: Message)
    ensures PushShape(q, Push(policy, capacity, closed, q, m), m)
  {
    assert q + [] == q;
  }

  /** What one push does to the order of one peer's messages behind the queue. */
  lemma FlowPush(popped: seq<Message>, q: seq<Message>, out: Pushed<Message>, m: Message, p: nat, seen: seq<Message>)
    requires Sub(OfPeer(popped + q, p), seen)
    requires PushShape(q, out, m)
    ensures Sub(OfPeer(popped + out.queue, p), if m.peer == p then seen + [m] else seen)
    ensures out.evicted == [] && (out.accepted || m.peer != p) ==>
      OfPeer(popped + out.queue, p) == OfPeer(popped + q, p) + (if m.peer == p then [m] else [])
  {
    hide OfPeer, Sub;
    var kept := if out.evicted == [] then q else q[1..];
    if out.evicted != [] {
      FlowEvict(popped, q, p, seen);
    }
    assert kept + [] == kept && popped + (kept + [m]) == (popped + kept) + [m];
    FlowAppend(popped + kept, m, p);
    FlowGrows(OfPeer(popped + kept, p), m, p, seen);
  }

  lemma FlowGrows(flow: seq<Message>, m: Message, p: nat, seen: seq<Message>)
    requires Sub(flow, seen)
    ensures m.peer == p ==> Sub(flow + [m], seen + [m]) && Sub(flow, seen + [m])
    ensures flow + [] == flow
  {
    hide Sub;
    SubBoth(flow, seen, m);
    SubMore(flow, seen, m);
  }

  lemma FlowAppend(flow: seq<Message>, m: Message, p: nat)
    ensures OfPeer(flow + [m], p) == OfPeer(flow, p) + (if m.peer == p then [m] else [])
  {
    assert (flow + [m])[..|flow|] == flow;
  }

  lemma FlowEvict(popped: seq<Message>, q: seq<Message>, p: nat, seen: seq<Message>)
    requires q != [] && Sub(OfPeer(popped + q, p), seen)
    ensures Sub(OfPeer(popped + q[1..], p), seen)
  {
    hide OfPeer, Sub;
    var x, rest := q[0], q[1..];
    assert popped + q == (popped + [x]) + rest;
    OfPeerConcat(popped + [x], rest, p);
    OfPeerConcat(popped, rest, p);
    FlowAppend(popped, x, p);
    if x.peer == p {
      SubLess(OfPeer(popped, p), x, OfPeer(rest, p), seen);
    } else {
      assert OfPeer(popped, p) + [] == OfPeer(popped, p);
    }
  }

  lemma TracksOwn(
    p: nat, all: seq<Message>, rest: seq<Message>, flow: seq<Message>, was: bool, after: seq<Message>, now: bool)
    requires Tracks(p, all, rest, flow, was) && rest != []
    requires Sub(after, all[..|all| - |rest|] + [rest[0]]) && (now ==> was && after == flow + [rest[0]])
    ensures Tracks(p, all, rest[1..], after, now)
  {
    hide Sub;
    NextSeen(all, |all| - |rest|, rest);
  }

  lemma TracksOther(
    p: nat, all: seq<Message>, rest: seq<Message>, flow: seq<Message>, was: bool, after: seq<Message>, now: bool)
    requires Tracks(p, all, rest, flow, was)
    requires Sub(after, all[..|all| - |rest|]) && (now ==> was && after == flow)
    ensures Tracks(p, all, rest, after, now)
  {
    hide Sub;
  }

  lemma NextSeen(all: seq<Message>, n: nat, rest: seq<Message>)
    requires n <= |all| && all[n..] == rest && rest != []
    ensures n < |all| && all[n + 1..] == rest[1..] && all[..n + 1] == all[..n] + [rest[0]]
  {
    assert all[n] == all[n..][0];
  }

  /** Nothing is lost after a push only if nothing was before, and the push neither evicted nor was refused. */
  lemma LossAfterPush(c: Config, s: State, q: nat)
    requires Enabled(c, s, PushNext(q))
    ensures var t, out := Apply(c, s, PushNext(q)), Push(c.policy, c.capacity, s.closed, s.queue, s.pending[q][0]);
      && t.popped == s.popped && t.queue == out.queue && t.received == s.received
      && (t.dropped == [] && t.evicted == [] ==> s.dropped == [] && s.evicted == [] && out.evicted == [] && out.accepted)
  {
    hide Push, Flat;
  }

  lemma OrderedPushOwn(c: Config, s: State, p: nat)
    requires p < |s.pending| && Ordered(s, p) && Enabled(c, s, PushNext(p))
    ensures Ordered(Apply(c, s, PushNext(p)), p)
  {
    hide OfPeer, Sub, Push, PushShape, Enabled, Apply;
    var t, m := Apply(c, s, PushNext(p)), Head(c, s, p);
    var all, rest, flow := OfPeer(s.received, p), s.pending[p], OfPeer(s.popped + s.queue, p);
    PendingAfterPush(c, s, p);
    LossAfterPush(c, s, p);
    assert m in rest;
    PushHasShape(c.policy, c.capacity, s.closed, s.queue, m);
    FlowPush(s.popped, s.queue, Push(c.policy, c.capacity, s.closed, s.queue, m), m, p, all[..|all| - |rest|]);
    TracksOwn(p, all, rest, flow, s.dropped == [] && s.evicted == [], OfPeer(t.popped + t.queue, p),
              t.dropped == [] && t.evicted == []);
  }

  function Head(c: Config, s: State, q: nat): Message
    requires Enabled(c, s, PushNext(q))
  {
    s.pending[q][0]
  }

  lemma PendingAfterPush(c: Config, s: State, q: nat)
    requires Enabled(c, s, PushNext(q))
    ensures q < |s.pending| && s.pending[q] != [] && Head(c, s, q) == s.pending[q][0]
    ensures Apply(c, s, PushNext(q)).pending == s.pending[q := s.pending[q][1..]]
  {
    hide Push, Flat;
  }

  lemma OrderedPushOther(c: Config, s: State, q: nat, p: nat)
    requires p < |s.pending| && q < |s.pending| && p != q && Ordered(s, p) && Ordered(s, q) && Enabled(c, s, PushNext(q))
    ensures Ordered(Apply(c, s, PushNext(q)), p)
  {
    hide OfPeer, Sub, Push, PushShape, Enabled, Apply;
    var t, m := Apply(c, s, PushNext(q)), Head(c, s, q);
    var all, rest, flow := OfPeer(s.received, p), s.pending[p], OfPeer(s.popped + s.queue, p);
    PendingAfterPush(c, s, q);
    LossAfterPush(c, s, q);
    assert m in s.pending[q];
    PushHasShape(c.policy, c.capacity, s.closed, s.queue, m);
    FlowPush(s.popped, s.queue, Push(c.policy, c.capacity, s.closed, s.queue, m), m, p, all[..|all| - |rest|]);
    assert flow + [] == flow;
    TracksOther(p, all, rest, flow, s.dropped == [] && s.evicted == [], OfPeer(t.popped + t.queue, p),
                t.dropped == [] && t.evicted == []);
  }

  lemma OrderedStep(c: Config, s: State, step: Step)
    requires AllOrdered(s) && Enabled(c, s, step)
    ensures AllOrdered(Apply(c, s, step))
  {
    hide OfPeer, Sub, Push, Flat, InFlight;
    var t := Apply(c, s, step);
    forall p | 0 <= p < |t.pending| ensures Ordered(t, p) {
      assert Ordered(s, p);
      match step
      case Receive(q, decoded) => OrderedReceive(c, s, q, decoded, p);
      case PushNext(q) =>
        assert Ordered(s, q);
        if p == q { OrderedPushOwn(c, s, p); } else { OrderedPushOther(c, s, q, p); }
      case Take(w) => assert t.popped + t.queue == s.popped + s.queue;
      case _ =>
    }
  }

  // ------------------------------------------------------------------ every run

  lemma ShapeStep(c: Config, s: State, step: Step)
    requires c.Valid() && Shape(c, s) && Enabled(c, s, step)
    ensures Shape(c, Apply(c, s, step))
  {
    hide InFlight, Flat;
    var t := Apply(c, s, step);
    match step
    case PushNext(p) =>
      if s.stopped { FlatEmpty(s.pending, p); }
    case Take(w) =>
      forall v | v in t.workers && v.Exited? ensures v in s.workers {
      }
    case Finish(w, _) =>
      forall v | v in t.workers && v.Exited? ensures v in s.workers {
      }
    case _ =>
  }

  /** While messages are being pushed the queue is open, so only the policy decides what is lost. */
  lemma LossStep(c: Config, s: State, step: Step)
    requires c.Valid() && Shape(c, s) && LossFits(c, s) && Enabled(c, s, step)
    ensures LossFits(c, Apply(c, s, step))
  {
    hide InFlight, Flat;
    if step.PushNext? {
      if s.stopped { FlatEmpty(s.pending, step.peer); }
      assert !s.closed;
    }
  }

  lemma OneAtATimeStep(c: Config, s: State, step: Step)
    requires Shape(c, s) && OneAtATime(c, s) && Enabled(c, s, step)
    ensures OneAtATime(c, Apply(c, s, step))
  {
    hide Flat, Push;
    var t := Apply(c, s, step);
    if c.threads == 1 {
      Lone(s.workers);
      Lone(t.workers);
      if step.Finish? || step.Leave? || step.Take? {
        assert step.worker == 0;
        assert s.finished + [] == s.finished;
        assert t.finished + [] == t.finished;
      }
    }
  }

  lemma Lone(ws: seq<Worker>)
    requires |ws| == 1
    ensures InFlight(ws) == Hands(ws[0])
  {
    assert ws[1..] == [];
    assert Hands(ws[0]) + [] == Hands(ws[0]);
  }

  lemma InvStep(c: Config, s: State, step: Step)
    requires c.Valid() && Inv(c, s) && Enabled(c, s, step)
    ensures Inv(c, Apply(c, s, step))
  {
    hide Shape, Conserved, LossFits, AllOrdered, OneAtATime, Flat, InFlight, Push;
    ShapeStep(c, s, step);
    ConservedStep(c, s, step);
    LossStep(c, s, step);
    OrderedStep(c, s, step);
    OneAtATimeStep(c, s, step);
  }

  lemma InvInit(c: Config)
    requires c.Valid()
    ensures Inv(c, Init(c))
  {
    FlatBlank(c.peers);
    InFlightIdle(c.threads);
  }

  /** The steps can be taken one after the other from s. */
  ghost predicate Runs(c: Config, s: State, steps: seq<Step>)
    decreases |steps|
  {
    steps == [] || (Enabled(c, s, steps[0]) && Runs(c, Apply(c, s, steps[0]), steps[1..]))
  }

  ghost function After(c: Config, s: State, steps: seq<Step>): State
    requires Runs(c, s, steps)
    decreases |steps|
  {
    if steps == [] then s else After(c, Apply(c, s, steps[0]), steps[1..])
  }

  lemma {:induction false} InvRuns(c: Config, s: State, steps: seq<Step>)
    requires c.Valid() && Inv(c, s) && Runs(c, s, steps)
    ensures Inv(c, After(c, s, steps))
    decreases |steps|
  {
    hide Inv, Enabled, Apply;
    if steps != [] {
      InvStep(c, s, steps[0]);
      InvRuns(c, Apply(c, s, steps[0]), steps[1..]);
    }
  }

  lemma Reached(c: Config, steps: seq<Step>)
    requires c.Valid() && Runs(c, Init(c), steps)
    ensures Inv(c, After(c, Init(c), steps))
  {
    InvInit(c);
    InvRuns(c, Init(c), steps);
  }

  // -------------------------------------------------------------------- theorems

  /** In every reachable state each received message is pending, queued, in flight, accounted for, or lost as counted. */
  lemma Conservation(c: Config, steps: seq<Step>)
    requires c.Valid() && Runs(c, Init(c), steps)
    ensures var s := After(c, Init(c), steps);
      |s.received| == |Flat(s.pending)| + |s.queue| + |InFlight(s.workers)|
        + s.dispatched + s.handlerErrors + s.unhandled + |s.dropped| + |s.evicted|
  {
    Reached(c, steps);
    CardinalitiesAgree(After(c, Init(c), steps));
  }

  lemma CardinalitiesAgree(s: State)
    requires Conserved(s)
    ensures |s.received| == |Flat(s.pending)| + |s.queue| + |InFlight(s.workers)|
                            + |s.finished| + |s.dropped| + |s.evicted|
  {
    hide Flat, InFlight;
    var all := Flat(s.pending) + s.queue + InFlight(s.workers) + s.finished + s.dropped + s.evicted;
    forall e ensures multiset(s.received)[e] == multiset(all)[e] {
      assert Count(s.received, e) == Places(s, e);
    }
    assert multiset(s.received) == multiset(all);
    assert |multiset(s.received)| == |s.received| && |multiset(all)| == |all|;
  }

  function Decodes(step: Step): seq<Message> {
    if step.Receive? then step.decoded else []
  }

  function Decoded(steps: seq<Step>): seq<Message> {
    if steps == [] then [] else Decodes(steps[0]) + Decoded(steps[1..])
  }

  function Ends(step: Step, o: Outcome): nat {
    if step.Finish? && step.outcome == o then 1 else 0
  }

  /** How often a handler call ended that way. */
  function Ended(steps: seq<Step>, o: Outcome): nat {
    if steps == [] then 0 else Ends(steps[0], o) + Ended(steps[1..], o)
  }

  lemma StepBooked(c: Config, s: State, step: Step)
    requires Enabled(c, s, step)
    ensures var t := Apply(c, s, step);
      && t.received == s.received + Decodes(step)
      && t.dispatched == s.dispatched + Ends(step, Handled)
      && t.handlerErrors == s.handlerErrors + Ends(step, Failed)
      && t.unhandled == s.unhandled + Ends(step, NotFound)
  {
    hide Push, Flat;
    assert s.received + [] == s.received;
  }

  /** The books are kept by what happened: every message decoded is received, and each counter counts its own outcome. */
  lemma {:induction false} BooksKept(c: Config, s: State, steps: seq<Step>)
    requires Runs(c, s, steps)
    ensures var t := After(c, s, steps);
      && t.received == s.received + Decoded(steps)
      && t.dispatched == s.dispatched + Ended(steps, Handled)
      && t.handlerErrors == s.handlerErrors + Ended(steps, Failed)
      && t.unhandled == s.unhandled + Ended(steps, NotFound)
    decreases |steps|
  {
    hide Enabled, Apply;
    if steps == [] {
      assert s.received + [] == s.received;
    } else {
      var next := Apply(c, s, steps[0]);
      StepBooked(c, s, steps[0]);
      BooksKept(c, next, steps[1..]);
      var first := Decodes(steps[0]);
      assert s.received + (first + Decoded(steps[1..])) == (s.received + first) + Decoded(steps[1..]);
    }
  }

  /** A message is refused or evicted only when it finds the queue full. */
  lemma LossOnlyWhenFull(c: Config, steps: seq<Step>, step: Step)
    requires c.Valid() && Runs(c, Init(c), steps) && Enabled(c, After(c, Init(c), steps), step)
    ensures var s := After(c, Init(c), steps);
      var t := Apply(c, s, step);
      t.dropped != s.dropped || t.evicted != s.evicted ==> step.PushNext? && |s.queue| == c.capacity
  {
    hide Conserved, LossFits, AllOrdered, OneAtATime, InFlight, Flat;
    var s := After(c, Init(c), steps);
    Reached(c, steps);
    if step.PushNext? {
      if s.stopped { FlatEmpty(s.pending, step.peer); }
      PushLaw(c.policy, c.capacity, s.closed, s.queue, s.pending[step.peer][0]);
      assert s.evicted + [] == s.evicted;
    }
  }

  /** When stop has returned nothing is left anywhere: every message was dispatched, failed, unhandled or lost. */
  lemma DrainedAfterStop(c: Config, steps: seq<Step>)
    requires c.Valid() && Runs(c, Init(c), steps)
    requires var s := After(c, Init(c), steps); s.stopped && forall w <- s.workers :: w.Exited?
    ensures var s := After(c, Init(c), steps);
      && Flat(s.pending) == [] && s.queue == [] && InFlight(s.workers) == []
      && |s.received| == s.dispatched + s.handlerErrors + s.unhandled + |s.dropped| + |s.evicted|
  {
    var s := After(c, Init(c), steps);
    Reached(c, steps);
    Conservation(c, steps);
    NoneInFlight(s.workers);
    assert s.workers[0] in s.workers;
  }

  /** With any number of workers each peer's messages are taken in decode order; all of them if nothing was lost. */
  lemma TakenInOrder(c: Config, steps: seq<Step>, p: nat)
    requires c.Valid() && Runs(c, Init(c), steps) && p < c.peers
    ensures var s := After(c, Init(c), steps);
      && |s.pending| == c.peers
      && Sub(OfPeer(s.popped, p), OfPeer(s.received, p))
      && (c.policy == Block ==> OfPeer(s.popped + s.queue, p) + s.pending[p] == OfPeer(s.received, p))
  {
    hide OfPeer, Sub;
    var s := After(c, Init(c), steps);
    Reached(c, steps);
    assert Ordered(s, p);
    var all := OfPeer(s.received, p);
    var n := |all| - |s.pending[p]|;
    OfPeerConcat(s.popped, s.queue, p);
    SubFront(OfPeer(s.popped, p), OfPeer(s.queue, p), all[..n]);
    SubWider(OfPeer(s.popped, p), all[..n], all[n..]);
    assert all[..n] + all[n..] == all;
  }

  lemma {:induction false} SubWider(a: seq<Message>, b: seq<Message>, c: seq<Message>)
    requires Sub(a, b)
    ensures Sub(a, b + c)
    decreases |c|
  {
    if c == [] {
      assert b + c == b;
    } else {
      SubWider(a, b, c[..|c| - 1]);
      SubMore(a, b + c[..|c| - 1], c[|c| - 1]);
      assert b + c == (b + c[..|c| - 1]) + [c[|c| - 1]];
    }
  }

  /** With one worker, handlers also finish in each peer's decode order. */
  lemma FinishedInOrder(c: Config, steps: seq<Step>, p: nat)
    requires c.Valid() && c.threads == 1 && Runs(c, Init(c), steps) && p < c.peers
    ensures var s := After(c, Init(c), steps); Sub(OfPeer(s.finished, p), OfPeer(s.received, p))
  {
    hide OfPeer, Sub;
    var s := After(c, Init(c), steps);
    Reached(c, steps);
    TakenInOrder(c, steps, p);
    OfPeerConcat(s.finished, InFlight(s.workers), p);
    SubFront(OfPeer(s.finished, p), OfPeer(InFlight(s.workers), p), OfPeer(s.received, p));
  }

  /** What each drop policy may lose in an orderly run. */
  lemma LossByPolicy(c: Config, steps: seq<Step>)
    requires c.Valid() && Runs(c, Init(c), steps)
    ensures var s := After(c, Init(c), steps);
      && (c.policy == Block ==> s.dropped == [] && s.evicted == [])
      && (c.policy == DropOldest ==> s.dropped == [])
      && (c.policy == DropNewest ==> s.evicted == [])
  {
    Reached(c, steps);
  }

  // ------------------------------------------------------------------- shutdown

  function Effort(w: Worker): nat {
    match w
    case Idle => 1
    case Busy(_) => 2
    case Exited => 0
  }

  function Efforts(ws: seq<Worker>): nat {
    if ws == [] then 0 else Effort(ws[0]) + Efforts(ws[1..])
  }

  /** Worker steps left at most. */
  function Work(s: State): nat {
    3 * |s.queue| + Efforts(s.workers)
  }

  lemma {:induction false} EffortsUpdate(ws: seq<Worker>, i: nat, w: Worker)
    requires i < |ws|
    ensures Efforts(ws[i := w]) + Effort(ws[i]) == Efforts(ws) + Effort(w)
    decreases |ws|
  {
    var vs := ws[i := w];
    if i == 0 {
      assert vs[1..] == ws[1..];
    } else {
      assert vs[1..] == ws[1..][i - 1 := w];
      EffortsUpdate(ws[1..], i - 1, w);
    }
  }

  /** After the queue is closed every step that changes anything brings the workers closer to exit. */
  lemma DrainShrinks(c: Config, s: State, step: Step)
    requires Shape(c, s) && s.closed && Enabled(c, s, step)
    ensures Apply(c, s, step) == s || Work(Apply(c, s, step)) < Work(s)
  {
    hide Flat, Efforts;
    match step
    case PushNext(p) => FlatEmpty(s.pending, p);
    case Take(w) => EffortsUpdate(s.workers, w, Busy(s.queue[0]));
    case Finish(w, _) => EffortsUpdate(s.workers, w, Idle);
    case Leave(w) => EffortsUpdate(s.workers, w, Exited);
    case _ =>
  }

  /** And until all have exited some worker can step: joining the workers terminates if handlers do. */
  lemma DrainMoves(c: Config, s: State) returns (step: Step)
    requires Shape(c, s) && s.closed && exists w <- s.workers :: !w.Exited?
    ensures Enabled(c, s, step) && (step.Take? || step.Finish? || step.Leave?)
  {
    var w :| 0 <= w < |s.workers| && !s.workers[w].Exited?;
    step := if s.workers[w].Busy? then Finish(w, Handled) else if s.queue != [] then Take(w) else Leave(w);
  }
}
