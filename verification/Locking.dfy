/** Threads that take locks in a fixed order and wait on a bounded queue: who can always make a step. */
module Locking {

  datatype LeafKind = Handlers | ErrorCallbacks | StateCallbacks | MessageLog | FlowControl

  /** peers_mutex_, one ctx_mutex per peer, and locks held only for a moment. */
  datatype Lock = Peers | Context(peer: nat) | Leaf(kind: LeafKind)

  function Rank(l: Lock): nat {
    match l
    case Peers => 0
    case Context(_) => 1
    case Leaf(_) => 2
  }

  /**
    Access reads or writes the data a lock guards. Call stands for a handler, a callback or a transport send:
    code that may use the transceiver again.
   */
  datatype Action =
    | Acquire(lock: Lock, exclusive: bool)
    | Release(lock: Lock)
    | Access(lock: Lock, write: bool)
    | Enqueue
    | Call
    | JoinIo
    | StopWorkers

  datatype Role = Io | Worker | User | Guest

  /**
    Locks are taken in rank order, data is touched under its lock, and written under its exclusive lock, and
    nothing is held where a thread may wait for another thread's work. held says of each lock whether exclusively.
   */
  predicate Disciplined(role: Role, held: map<Lock, bool>, program: seq<Action>)
    decreases |program|
  {
    if program == [] then held == map[]
    else
      var rest := program[1..];
      match program[0]
      case Acquire(l, exclusive) =>
        (forall h <- held.Keys :: Rank(h) < Rank(l)) && Disciplined(role, held[l := exclusive], rest)
      case Access(l, write) => l in held && (write ==> held[l]) && Disciplined(role, held, rest)
      case Release(l) => l in held && Disciplined(role, held - {l}, rest)
      case Enqueue => role == Io && held == map[] && Disciplined(role, held, rest)
      case Call => held == map[] && Disciplined(role, held, rest)
      case JoinIo => role == User && held == map[] && Disciplined(role, held, rest)
      case StopWorkers => role == User && held == map[] && Disciplined(role, held, rest)
  }

  lemma {:induction false} Sequenced(role: Role, held: map<Lock, bool>, a: seq<Action>, b: seq<Action>)
    requires Disciplined(role, held, a) && Disciplined(role, map[], b)
    ensures Disciplined(role, held, a + b)
    decreases |a|
  {
    if a == [] {
      assert a + b == b;
    } else {
      assert (a + b)[0] == a[0] && (a + b)[1..] == a[1..] + b;
      var next := match a[0]
        case Acquire(l, exclusive) => held[l := exclusive]
        case Release(l) => held - {l}
        case _ => held;
      Sequenced(role, next, a[1..], b);
    }
  }

  /** What a guest may do any thread may do. */
  lemma {:induction false} GuestsFit(role: Role, held: map<Lock, bool>, a: seq<Action>)
    requires Disciplined(Guest, held, a)
    ensures Disciplined(role, held, a)
    decreases |a|
  {
    if a != [] {
      var next := match a[0]
        case Acquire(l, exclusive) => held[l := exclusive]
        case Release(l) => held - {l}
        case _ => held;
      GuestsFit(role, next, a[1..]);
    }
  }

  // --------------------------------------------------------------------- machine

  /** held maps each lock to whether it is held exclusively. */
  datatype Thread = Thread(role: Role, held: map<Lock, bool>, program: seq<Action>, exited: bool)

  datatype System = System(threads: seq<Thread>, queue: nat, closed: bool, stopped: bool)

  datatype Config = Config(capacity: nat, blocking: bool)

  predicate Wants(t: Thread, l: Lock, exclusive: bool) {
    t.program != [] && t.program[0] == Acquire(l, exclusive)
  }

  /** A reader also waits behind a waiting writer. */
  ghost predicate CanAcquire(s: System, l: Lock, exclusive: bool) {
    if exclusive then forall t <- s.threads :: l !in t.held
    else forall t <- s.threads :: (l in t.held ==> !t.held[l]) && !Wants(t, l, true)
  }

  predicate Finished(t: Thread) {
    t.program == [] && (t.role == Worker ==> t.exited)
  }

  /**
    Thread i can make its next step; next is the code a call runs, or what an idle thread turns to.
    An idle worker stands at pop: it steps by taking a message, or by leaving a closed and drained queue.
   */
  ghost predicate Enabled(c: Config, s: System, i: nat, next: seq<Action>)
    requires i < |s.threads|
  {
    var t := s.threads[i];
    if t.program == [] then
      match t.role
      case Worker => !t.exited && if s.queue > 0 then Disciplined(Worker, map[], next) else s.closed
      case Io => next != [] && !s.stopped && Disciplined(Io, map[], next)
      case User => next != [] && Disciplined(User, map[], next)
      case Guest => false
    else
      match t.program[0]
      case Acquire(l, exclusive) => CanAcquire(s, l, exclusive)
      case Release(l) => true
      case Access(_, _) => true
      case Enqueue => !c.blocking || s.queue < c.capacity || s.closed
      case Call => Disciplined(Guest, map[], next)
      case JoinIo => forall u <- s.threads :: u.role == Io ==> u.program == []
      case StopWorkers => !s.closed || forall u <- s.threads :: u.role == Worker ==> u.exited
  }

  function Advanced(t: Thread): Thread
    requires t.program != []
  {
    t.(program := t.program[1..])
  }

  ghost function Apply(c: Config, s: System, i: nat, next: seq<Action>): System
    requires i < |s.threads| && Enabled(c, s, i, next)
  {
    var t := s.threads[i];
    if t.program == [] then
      if t.role != Worker then s.(threads := s.threads[i := t.(program := next)])
      else if s.queue > 0 then s.(threads := s.threads[i := t.(program := next)], queue := s.queue - 1)
      else s.(threads := s.threads[i := t.(exited := true)])
    else
      var moved := s.(threads := s.threads[i := Advanced(t)]);
      match t.program[0]
      case Acquire(l, exclusive) => s.(threads := s.threads[i := Advanced(t).(held := t.held[l := exclusive])])
      case Release(l) => s.(threads := s.threads[i := Advanced(t).(held := t.held - {l})])
      case Access(_, _) => moved
      case Enqueue =>
        if s.closed || s.queue >= c.capacity then moved else moved.(queue := s.queue + 1)
      case Call => s.(threads := s.threads[i := t.(program := next + t.program[1..])])
      case JoinIo => moved.(stopped := true)
      case StopWorkers => if s.closed then moved else s.(closed := true)
  }

  // ------------------------------------------------------------------ invariants

  ghost predicate GoodThread(s: System, t: Thread) {
    && Disciplined(t.role, t.held, t.program)
    && (t.exited ==> t.role == Worker && t.program == [] && s.closed)
  }

  ghost predicate Compatible(a: Thread, b: Thread) {
    forall l :: l in a.held && l in b.held ==> !a.held[l] && !b.held[l]
  }

  /** An exclusive holder of a lock is its only holder. */
  ghost predicate Exclusion(s: System) {
    forall i, j :: 0 <= i < |s.threads| && 0 <= j < |s.threads| && i != j ==> Compatible(s.threads[i], s.threads[j])
  }

  ghost predicate Inv(c: Config, s: System) {
    && (forall t <- s.threads :: GoodThread(s, t))
    && Exclusion(s)
    && s.queue <= c.capacity
    && exists t <- s.threads :: t.role == Worker
  }

  lemma GoodStep(c: Config, s: System, i: nat, next: seq<Action>)
    requires i < |s.threads| && GoodThread(s, s.threads[i]) && Enabled(c, s, i, next)
    ensures var t := Apply(c, s, i, next); GoodThread(t, t.threads[i])
  {
    var t := s.threads[i];
    if t.program != [] {
      match t.program[0]
      case Call =>
        GuestsFit(t.role, map[], next);
        Sequenced(t.role, map[], next, t.program[1..]);
      case _ =>
    }
  }

  lemma PairStep(c: Config, s: System, i: nat, next: seq<Action>, other: Thread)
    requires i < |s.threads| && other in s.threads && Enabled(c, s, i, next)
    requires Compatible(s.threads[i], other)
    ensures Compatible(Apply(c, s, i, next).threads[i], other)
    ensures Compatible(other, Apply(c, s, i, next).threads[i])
  {
    hide Disciplined;
  }

  lemma ExclusionStep(c: Config, s: System, i: nat, next: seq<Action>)
    requires i < |s.threads| && Exclusion(s) && Enabled(c, s, i, next)
    ensures Exclusion(Apply(c, s, i, next))
  {
    hide Disciplined, Compatible, Enabled, Apply;
    var t := Apply(c, s, i, next);
    OnlyOneChanges(c, s, i, next);
    forall j, k | 0 <= j < |t.threads| && 0 <= k < |t.threads| && j != k
      ensures Compatible(t.threads[j], t.threads[k])
    {
      assert Compatible(s.threads[j], s.threads[k]) && Compatible(s.threads[k], s.threads[j]);
      if j == i {
        PairStep(c, s, i, next, s.threads[k]);
      } else if k == i {
        PairStep(c, s, i, next, s.threads[j]);
      }
    }
  }

  lemma OnlyOneChanges(c: Config, s: System, i: nat, next: seq<Action>)
    requires i < |s.threads| && Enabled(c, s, i, next)
    ensures var t := Apply(c, s, i, next);
      && |t.threads| == |s.threads|
      && (forall j :: 0 <= j < |s.threads| && j != i ==> t.threads[j] == s.threads[j])
      && (s.closed ==> t.closed) && t.threads[i].role == s.threads[i].role
      && (s.queue <= c.capacity ==> t.queue <= c.capacity)
  {
    hide Disciplined;
  }

  lemma InvStep(c: Config, s: System, i: nat, next: seq<Action>)
    requires Inv(c, s) && i < |s.threads| && Enabled(c, s, i, next)
    ensures Inv(c, Apply(c, s, i, next))
  {
    hide Disciplined, Exclusion, Enabled, Apply;
    var t := Apply(c, s, i, next);
    assert s.threads[i] in s.threads;
    GoodStep(c, s, i, next);
    ExclusionStep(c, s, i, next);
    OnlyOneChanges(c, s, i, next);
    forall j | 0 <= j < |t.threads| ensures GoodThread(t, t.threads[j]) {
      assert s.threads[j] in s.threads;
    }
    var w :| 0 <= w < |s.threads| && s.threads[w].role == Worker;
    assert t.threads[w].role == Worker && t.threads[w] in t.threads;
  }

  // ------------------------------------------------------------ work that is left

  function ThreadEffort(t: Thread): nat {
    2 * |t.program| + (if t.exited then 0 else 1)
  }

  function Efforts(ts: seq<Thread>): nat {
    if ts == [] then 0 else ThreadEffort(ts[0]) + Efforts(ts[1..])
  }

  /** Bounds the steps left when calls return without using the transceiver again. */
  function Effort(s: System): nat {
    Efforts(s.threads) + s.queue + (if s.closed then 0 else 1)
  }

  lemma {:induction false} EffortsUpdate(ts: seq<Thread>, i: nat, t: Thread)
    requires i < |ts|
    ensures Efforts(ts[i := t]) + ThreadEffort(ts[i]) == Efforts(ts) + ThreadEffort(t)
    decreases |ts|
  {
    hide ThreadEffort;
    var us := ts[i := t];
    if i == 0 {
      assert us[1..] == ts[1..];
    } else {
      assert us[1..] == ts[1..][i - 1 := t];
      EffortsUpdate(ts[1..], i - 1, t);
    }
  }

  /** Every step that brings in no new code lowers the work that is left. */
  lemma StepShrinks(c: Config, s: System, i: nat)
    requires i < |s.threads| && Enabled(c, s, i, [])
    ensures Effort(Apply(c, s, i, [])) < Effort(s)
  {
    hide Disciplined, Efforts;
    var t := s.threads[i];
    var u := Apply(c, s, i, []).threads[i];
    EffortsUpdate(s.threads, i, u);
    if t.program != [] && t.program[0] == Call {
      assert [] + t.program[1..] == t.program[1..];
    }
    if t.program != [] && t.program[0] == StopWorkers && !s.closed {
      assert s.threads[i := t] == s.threads;
    }
  }

  // -------------------------------------------------------------------- progress

  /** Done, or standing at pop while there is no message and none is refused yet. */
  predicate Quiet(s: System, t: Thread) {
    Finished(t) || (t.role == Worker && t.program == [] && s.queue == 0 && !s.closed)
  }

  /** The thread is not quiet and makes a step of its own that changes the state. */
  ghost predicate Moves(c: Config, s: System, i: nat) {
    && i < |s.threads| && !Quiet(s, s.threads[i])
    && Enabled(c, s, i, []) && Apply(c, s, i, []) != s
  }

  lemma Now(c: Config, s: System, i: nat)
    requires i < |s.threads| && Enabled(c, s, i, [])
    ensures Moves(c, s, i)
  {
    hide Disciplined, Effort;
    StepShrinks(c, s, i);
  }

  ghost predicate Held(s: System, l: Lock) {
    exists t <- s.threads :: l in t.held
  }

  /** A lock nobody holds is obtained by someone who waits for it. */
  lemma FreeLockMoves(c: Config, s: System, i: nat, l: Lock, exclusive: bool) returns (k: nat)
    requires i < |s.threads| && Wants(s.threads[i], l, exclusive) && !Held(s, l)
    ensures Moves(c, s, k)
  {
    hide Disciplined, Moves;
    k := i;
    if !exclusive && exists j :: 0 <= j < |s.threads| && Wants(s.threads[j], l, true) {
      k :| 0 <= k < |s.threads| && Wants(s.threads[k], l, true);
    }
    Now(c, s, k);
  }

  /** A thread that holds a lock of the highest rank in use leads to a step. */
  lemma HolderMoves(c: Config, s: System, i: nat, h: Lock) returns (k: nat)
    requires Inv(c, s) && i < |s.threads| && h in s.threads[i].held
    requires forall l :: Rank(l) > Rank(h) ==> !Held(s, l)
    ensures Moves(c, s, k)
  {
    hide Moves;
    var t := s.threads[i];
    assert t in s.threads && h in t.held;
    assert t.program != [];
    match t.program[0]
    case Acquire(l, exclusive) => k := FreeLockMoves(c, s, i, l, exclusive);
    case Release(_) => k := i; Now(c, s, i);
    case Access(_, _) => k := i; Now(c, s, i);
  }

  lemma LockedMoves(c: Config, s: System, l: Lock) returns (k: nat)
    requires Inv(c, s) && Held(s, l)
    ensures Moves(c, s, k)
    decreases 3 - Rank(l)
  {
    hide Moves, Inv;
    if m :| Rank(m) > Rank(l) && Held(s, m) {
      k := LockedMoves(c, s, m);
    } else {
      var i :| 0 <= i < |s.threads| && l in s.threads[i].held;
      k := HolderMoves(c, s, i, l);
    }
  }

  /** With no lock held, every thread that is neither quiet nor waiting for other threads can step. */
  lemma UnlockedMoves(c: Config, s: System, i: nat) returns (k: nat)
    requires Inv(c, s) && i < |s.threads| && !Quiet(s, s.threads[i]) && forall l :: !Held(s, l)
    requires var t := s.threads[i]; t.program == [] || t.program[0] !in {Enqueue, JoinIo, StopWorkers}
    ensures Moves(c, s, k)
  {
    hide Moves;
    var t := s.threads[i];
    k := i;
    assert t in s.threads;
    forall l ensures l !in t.held {
      assert !Held(s, l);
    }
    if t.program == [] {
      Now(c, s, i);
    } else {
      match t.program[0]
      case Acquire(l, exclusive) => k := FreeLockMoves(c, s, i, l, exclusive);
      case Call => Now(c, s, i);
    }
  }

  /** A push blocked on a full queue leaves a worker, or whoever it waits for, able to step. */
  lemma BlockedPushMoves(c: Config, s: System, i: nat) returns (k: nat)
    requires Inv(c, s) && c.capacity > 0 && i < |s.threads| && (forall l :: !Held(s, l))
    requires s.threads[i].program != [] && s.threads[i].program[0] == Enqueue
    ensures Moves(c, s, k)
  {
    hide Moves;
    if !c.blocking || s.queue < c.capacity || s.closed {
      k := i;
      Now(c, s, i);
    } else {
      var w :| 0 <= w < |s.threads| && s.threads[w].role == Worker;
      assert s.threads[w] in s.threads;
      k := UnlockedMoves(c, s, w);
    }
  }

  lemma JoinIoMoves(c: Config, s: System, i: nat) returns (k: nat)
    requires Inv(c, s) && c.capacity > 0 && i < |s.threads| && (forall l :: !Held(s, l))
    requires s.threads[i].program != [] && s.threads[i].program[0] == JoinIo
    ensures Moves(c, s, k)
  {
    hide Moves;
    if Enabled(c, s, i, []) {
      k := i;
      Now(c, s, i);
    } else {
      var u :| 0 <= u < |s.threads| && s.threads[u].role == Io && s.threads[u].program != [];
      assert s.threads[u] in s.threads;
      if s.threads[u].program[0] == Enqueue {
        k := BlockedPushMoves(c, s, u);
      } else {
        k := UnlockedMoves(c, s, u);
      }
    }
  }

  lemma StopMoves(c: Config, s: System, i: nat) returns (k: nat)
    requires Inv(c, s) && c.capacity > 0 && i < |s.threads| && (forall l :: !Held(s, l))
    requires s.threads[i].program != [] && s.threads[i].program[0] == StopWorkers
    ensures Moves(c, s, k)
  {
    hide Moves;
    if Enabled(c, s, i, []) {
      k := i;
      Now(c, s, i);
    } else {
      var w :| 0 <= w < |s.threads| && s.threads[w].role == Worker && !s.threads[w].exited;
      assert s.threads[w] in s.threads;
      k := UnlockedMoves(c, s, w);
    }
  }

  /** As long as one thread is not quiet, some thread makes a step that changes the state. */
  lemma Progress(c: Config, s: System, i: nat) returns (k: nat)
    requires Inv(c, s) && c.capacity > 0 && i < |s.threads| && !Quiet(s, s.threads[i])
    ensures Moves(c, s, k)
  {
    hide Inv, Moves, Disciplined;
    if l :| Held(s, l) {
      k := LockedMoves(c, s, l);
    } else if s.threads[i].program == [] {
      k := UnlockedMoves(c, s, i);
    } else {
      match s.threads[i].program[0]
      case Enqueue => k := BlockedPushMoves(c, s, i);
      case JoinIo => k := JoinIoMoves(c, s, i);
      case StopWorkers => k := StopMoves(c, s, i);
      case _ => k := UnlockedMoves(c, s, i);
    }
  }
}
