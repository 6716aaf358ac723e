/** Receive, queue and dispatch as a step system: I/O threads, workers and shutdown in any interleaving. */
module Dispatch {
  import opened BoundedQueue
  import opened Errors

  datatype Message = Message(peer: nat, body: nat)

  datatype Outcome = Handled | Failed | NotFound

  datatype Worker = Idle | Busy(message: Message) | Exited

  datatype Config = Config(policy: DropPolicy, capacity: nat, peers: nat, threads: nat) {
    predicate Valid() {
      capacity > 0 && threads > 0
    }
  }

  /** Counters as the transceiver keeps them; received, popped and the losses also keep the messages. */
  datatype State = State(
    pending: seq<seq<Message>>,
    queue: seq<Message>,
    closed: bool,
    stopped: bool,
    workers: seq<Worker>,
    received: seq<Message>,
    popped: seq<Message>,
    finished: seq<Message>,
    dropped: seq<Message>,
    evicted: seq<Message>,
    dispatched: nat,
    handlerErrors: nat,
    unhandled: nat)

  datatype Step =
    | Receive(peer: nat, decoded: seq<Message>)
    | PushNext(peer: nat)
    | Take(worker: nat)
    | Finish(worker: nat, outcome: Outcome)
    | Leave(worker: nat)
    | StopTransports
    | Close

  function Empties(n: nat): seq<seq<Message>> {
    seq(n, _ => [])
  }

  function Idles(n: nat): seq<Worker> {
    seq(n, _ => Idle)
  }

  function Init(c: Config): State {
    State(Empties(c.peers), [], false, false, Idles(c.threads), [], [], [], [], [], 0, 0, 0)
  }

  /** A peer's data is delivered by one I/O thread, so its next decode starts after its last push. */
  predicate Enabled(c: Config, s: State, step: Step) {
    match step
    case Receive(p, decoded) =>
      !s.stopped && p < |s.pending| && s.pending[p] == [] && forall m <- decoded :: m.peer == p
    case PushNext(p) =>
      p < |s.pending| && s.pending[p] != [] && CanPush(c.policy, c.capacity, s.closed, |s.queue|)
    case Take(w) => w < |s.workers| && s.workers[w].Idle? && s.queue != []
    case Finish(w, _) => w < |s.workers| && s.workers[w].Busy?
    case Leave(w) => w < |s.workers| && s.workers[w].Idle? && s.queue == [] && s.closed
    case StopTransports => Flat(s.pending) == []
    case Close => s.stopped
  }

  function Apply(c: Config, s: State, step: Step): State
    requires Enabled(c, s, step)
  {
    match step
    case Receive(p, decoded) =>
      s.(pending := s.pending[p := decoded], received := s.received + decoded)
    case PushNext(p) =>
      var m := s.pending[p][0];
      var out := Push(c.policy, c.capacity, s.closed, s.queue, m);
      s.(pending := s.pending[p := s.pending[p][1..]],
         queue := out.queue,
         evicted := s.evicted + out.evicted,
         dropped := if out.accepted then s.dropped else s.dropped + [m])
    case Take(w) =>
      s.(queue := s.queue[1..], popped := s.popped + [s.queue[0]], workers := s.workers[w := Busy(s.queue[0])])
    case Finish(w, outcome) =>
      s.(workers := s.workers[w := Idle],
         finished := s.finished + [s.workers[w].message],
         dispatched := s.dispatched + (if outcome == Handled then 1 else 0),
         handlerErrors := s.handlerErrors + (if outcome == Failed then 1 else 0),
         unhandled := s.unhandled + (if outcome == NotFound then 1 else 0))
    case Leave(w) => s.(workers := s.workers[w := Exited])
    case StopTransports => s.(stopped := true)
    case Close => s.(closed := true)
  }

  // ------------------------------------------------------------------ sequences

  function Flat(ss: seq<seq<Message>>): seq<Message> {
    if ss == [] then [] else ss[0] + Flat(ss[1..])
  }

  function InFlight(ws: seq<Worker>): seq<Message> {
    if ws == [] then [] else Hands(ws[0]) + InFlight(ws[1..])
  }

  function OfPeer(ms: seq<Message>, p: nat): seq<Message> {
    if ms == [] then []
    else OfPeer(ms[..|ms| - 1], p) + (if ms[|ms| - 1].peer == p then [ms[|ms| - 1]] else [])
  }

  /** a is b with some messages left out. */
  predicate Sub(a: seq<Message>, b: seq<Message>)
    decreases |b|
  {
    a == [] ||
    (b != [] &&
     ((a[|a| - 1] == b[|b| - 1] && Sub(a[..|a| - 1], b[..|b| - 1])) || Sub(a, b[..|b| - 1])))
  }

  function Count(ms: seq<Message>, e: Message): nat {
    multiset(ms)[e]
  }

  lemma CountConcat(a: seq<Message>, b: seq<Message>, e: Message)
    ensures Count(a + b, e) == Count(a, e) + Count(b, e)
  {
  }

  lemma CountHead(a: seq<Message>, e: Message)
    requires a != []
    ensures Count(a, e) == Count([a[0]], e) + Count(a[1..], e)
  {
    assert a == [a[0]] + a[1..];
  }

  lemma {:induction false} FlatUpdate(ss: seq<seq<Message>>, i: nat, x: seq<Message>, e: Message)
    requires i < |ss|
    ensures Count(Flat(ss[i := x]), e) + Count(ss[i], e) == Count(Flat(ss), e) + Count(x, e)
    decreases |ss|
  {
    var tt := ss[i := x];
    CountConcat(ss[0], Flat(ss[1..]), e);
    CountConcat(tt[0], Flat(tt[1..]), e);
    if i == 0 {
      assert tt[1..] == ss[1..];
    } else {
      assert tt[1..] == ss[1..][i - 1 := x];
      FlatUpdate(ss[1..], i - 1, x, e);
    }
  }

  lemma {:induction false} FlatEmpty(ss: seq<seq<Message>>, i: nat)
    requires i < |ss| && Flat(ss) == []
    ensures ss[i] == []
    decreases |ss|
  {
    if i > 0 {
      FlatEmpty(ss[1..], i - 1);
    }
  }

  lemma {:induction false} FlatBlank(n: nat)
    ensures Flat(Empties(n)) == []
    decreases n
  {
    if n > 0 {
      FlatBlank(n - 1);
      assert Empties(n)[1..] == Empties(n - 1);
    }
  }

  function Hands(w: Worker): seq<Message> {
    if w.Busy? then [w.message] else []
  }

  lemma {:induction false} InFlightUpdate(ws: seq<Worker>, i: nat, w: Worker, e: Message)
    requires i < |ws|
    ensures Count(InFlight(ws[i := w]), e) + Count(Hands(ws[i]), e) == Count(InFlight(ws), e) + Count(Hands(w), e)
    decreases |ws|
  {
    var vs := ws[i := w];
    CountConcat(Hands(ws[0]), InFlight(ws[1..]), e);
    CountConcat(Hands(vs[0]), InFlight(vs[1..]), e);
    if i == 0 {
      assert vs[1..] == ws[1..];
    } else {
      assert vs[1..] == ws[1..][i - 1 := w];
      InFlightUpdate(ws[1..], i - 1, w, e);
    }
  }

  lemma {:induction false} InFlightIdle(n: nat)
    ensures InFlight(Idles(n)) == []
    decreases n
  {
    if n > 0 {
      InFlightIdle(n - 1);
      assert Idles(n)[1..] == Idles(n - 1);
    }
  }

  lemma {:induction false} NoneInFlight(ws: seq<Worker>)
    requires forall w <- ws :: w.Exited?
    ensures InFlight(ws) == []
    decreases |ws|
  {
    if ws != [] {
      assert ws[0] in ws;
      NoneInFlight(ws[1..]);
    }
  }

  lemma {:induction false} OfPeerConcat(a: seq<Message>, b: seq<Message>, p: nat)
    ensures OfPeer(a + b, p) == OfPeer(a, p) + OfPeer(b, p)
    decreases |b|
  {
    if b == [] {
      assert a + b == a && OfPeer(a, p) + [] == OfPeer(a, p);
    } else {
      var n := |b| - 1;
      assert (a + b)[..|a + b| - 1] == a + b[..n];
      OfPeerConcat(a, b[..n], p);
    }
  }

  lemma {:induction false} OfPeerAll(ms: seq<Message>, p: nat, q: nat)
    requires forall m <- ms :: m.peer == p
    ensures OfPeer(ms, q) == if p == q then ms else []
    decreases |ms|
  {
    if ms != [] {
      OfPeerAll(ms[..|ms| - 1], p, q);
      assert ms == ms[..|ms| - 1] + [ms[|ms| - 1]];
    }
  }

  lemma SubBoth(a: seq<Message>, b: seq<Message>, x: Message)
    requires Sub(a, b)
    ensures Sub(a + [x], b + [x])
  {
    assert (a + [x])[..|a|] == a && (b + [x])[..|b|] == b;
  }

  lemma SubMore(a: seq<Message>, b: seq<Message>, x: Message)
    requires Sub(a, b)
    ensures Sub(a, b + [x])
  {
    assert (b + [x])[..|b|] == b;
  }

  lemma {:induction false} SubSelf(a: seq<Message>)
    ensures Sub(a, a)
    decreases |a|
  {
    if a != [] { SubSelf(a[..|a| - 1]); }
  }

  /** Leaving out one more message keeps the order. */
  lemma {:induction false} SubLess(a: seq<Message>, x: Message, c: seq<Message>, b: seq<Message>)
    requires Sub(a + [x] + c, b)
    ensures Sub(a + c, b)
    decreases |b|
  {
    var whole := a + [x] + c;
    var n := |b| - 1;
    assert b != [];
    if whole[|whole| - 1] == b[n] && Sub(whole[..|whole| - 1], b[..n]) {
      if c == [] {
        assert whole[..|whole| - 1] == a && a + c == a;
      } else {
        var d := c[..|c| - 1];
        assert whole[..|whole| - 1] == a + [x] + d;
        SubLess(a, x, d, b[..n]);
        assert (a + c)[..|a + c| - 1] == a + d;
      }
    } else {
      SubLess(a, x, c, b[..n]);
    }
  }

  lemma {:induction false} SubFront(a: seq<Message>, c: seq<Message>, b: seq<Message>)
    requires Sub(a + c, b)
    ensures Sub(a, b)
    decreases |c|
  {
    if c == [] {
      assert a + c == a;
    } else {
      var x, d := c[|c| - 1], c[..|c| - 1];
      assert a + c == (a + d) + [x] + [];
      SubLess(a + d, x, [], b);
      assert (a + d) + [] == a + d;
      SubFront(a, d, b);
    }
  }
}
