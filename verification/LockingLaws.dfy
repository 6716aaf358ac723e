/** Deadlock freedom over every run of the threads: no circular wait, and every thread gets its turn. */
module LockingLaws {
  import BoundedQueue
  import opened Locking

  // ------------------------------------------------------------------- every run

  datatype Turn = Turn(thread: nat, next: seq<Action>)

  ghost predicate Runs(c: Config, s: System, turns: seq<Turn>)
    decreases |turns|
  {
    turns == [] ||
    (turns[0].thread < |s.threads| && Enabled(c, s, turns[0].thread, turns[0].next) &&
     Runs(c, Apply(c, s, turns[0].thread, turns[0].next), turns[1..]))
  }

  ghost function After(c: Config, s: System, turns: seq<Turn>): System
    requires Runs(c, s, turns)
    decreases |turns|
  {
    if turns == [] then s else After(c, Apply(c, s, turns[0].thread, turns[0].next), turns[1..])
  }

  lemma {:induction false} InvRuns(c: Config, s: System, turns: seq<Turn>)
    requires Inv(c, s) && Runs(c, s, turns)
    ensures Inv(c, After(c, s, turns))
    decreases |turns|
  {
    hide Inv, Enabled, Apply;
    if turns != [] {
      InvStep(c, s, turns[0].thread, turns[0].next);
      InvRuns(c, Apply(c, s, turns[0].thread, turns[0].next), turns[1..]);
    }
  }

  /** Threads at rest with at least one worker. */
  ghost predicate Initial(s: System) {
    && (forall t <- s.threads :: t.program == [] && t.held == map[] && !t.exited)
    && (exists t <- s.threads :: t.role == Worker)
    && s.queue == 0 && !s.closed
  }

  lemma InitialInv(c: Config, s: System)
    requires Initial(s)
    ensures Inv(c, s)
  {
    forall i, j | 0 <= i < |s.threads| && 0 <= j < |s.threads| && i != j
      ensures Compatible(s.threads[i], s.threads[j])
    {
      assert s.threads[i] in s.threads;
    }
  }

  /** s is reached from threads at rest by some interleaving. */
  ghost predicate Reachable(c: Config, s: System) {
    exists start, turns :: Initial(start) && Runs(c, start, turns) && After(c, start, turns) == s
  }

  lemma ReachableInv(c: Config, s: System)
    requires Reachable(c, s)
    ensures Inv(c, s)
  {
    hide Inv, Initial;
    var start, turns :| Initial(start) && Runs(c, start, turns) && After(c, start, turns) == s;
    InitialInv(c, start);
    InvRuns(c, start, turns);
  }

  /** No lock is ever held exclusively by one thread and at all by another. */
  lemma MutualExclusion(c: Config, s: System)
    requires Reachable(c, s)
    ensures Exclusion(s)
  {
    ReachableInv(c, s);
  }

  /** The thread's next action touches data guarded by the lock. */
  predicate Touches(t: Thread, l: Lock, write: bool) {
    t.program != [] && t.program[0] == Access(l, write)
  }

  /** No data race: while one thread is about to write, no other is about to touch the same data. */
  lemma RaceFree(c: Config, s: System, i: nat, j: nat, l: Lock, write: bool)
    requires Reachable(c, s) && i < |s.threads| && j < |s.threads| && i != j && Touches(s.threads[i], l, true)
    ensures !Touches(s.threads[j], l, write)
  {
    ReachableInv(c, s);
    assert s.threads[i] in s.threads && s.threads[j] in s.threads;
    assert GoodThread(s, s.threads[i]) && GoodThread(s, s.threads[j]);
    assert Compatible(s.threads[i], s.threads[j]);
  }

  /** In every reachable state some thread makes a step that changes it, or all are quiet with no lock held. */
  lemma DeadlockFree(c: Config, s: System)
    requires c.capacity > 0 && Reachable(c, s)
    ensures (exists k :: Moves(c, s, k)) || forall t <- s.threads :: Quiet(s, t) && t.held == map[]
  {
    hide Moves;
    ReachableInv(c, s);
    if i :| 0 <= i < |s.threads| && !Quiet(s, s.threads[i]) {
      var k := Progress(c, s, i);
    } else {
      forall t | t in s.threads ensures Quiet(s, t) && t.held == map[] {
        assert GoodThread(s, t);
      }
    }
  }

  // --------------------------------------------------------------- queue and shutdown

  /** A push waits and changes the size exactly as the dispatch queue does under its policy. */
  lemma PushesAsQueue(c: Config, s: System, i: nat, policy: BoundedQueue.DropPolicy, q: seq<nat>, x: nat)
    requires Inv(c, s) && c.capacity > 0 && (c.blocking <==> policy == BoundedQueue.Block) && |q| == s.queue
    requires i < |s.threads| && s.threads[i].program != [] && s.threads[i].program[0] == Enqueue
    ensures Enabled(c, s, i, []) <==> BoundedQueue.CanPush(policy, c.capacity, s.closed, |q|)
    ensures Enabled(c, s, i, []) ==>
      Apply(c, s, i, []).queue == |BoundedQueue.Push(policy, c.capacity, s.closed, q, x).queue|
  {
    hide Disciplined, Exclusion, GoodThread;
  }

  /** Once the transports have been joined no receiver runs, and a worker has left only a closed and drained queue. */
  ghost predicate ShutInOrder(s: System) {
    && (s.stopped ==> forall t <- s.threads :: t.role == Io ==> t.program == [])
    && ((exists t <- s.threads :: t.exited) ==> s.closed && s.queue == 0)
  }

  lemma ShutStep(c: Config, s: System, i: nat, next: seq<Action>)
    requires ShutInOrder(s) && i < |s.threads| && Enabled(c, s, i, next)
    ensures ShutInOrder(Apply(c, s, i, next))
  {
    hide Disciplined, CanAcquire;
    var t := Apply(c, s, i, next);
    assert s.threads[i] in s.threads;
    forall u | u in t.threads ensures u in s.threads || u == t.threads[i] {
    }
  }

  lemma {:induction false} ShutRuns(c: Config, s: System, turns: seq<Turn>)
    requires ShutInOrder(s) && Runs(c, s, turns)
    ensures ShutInOrder(After(c, s, turns))
    decreases |turns|
  {
    hide ShutInOrder, Enabled, Apply;
    if turns != [] {
      ShutStep(c, s, turns[0].thread, turns[0].next);
      ShutRuns(c, Apply(c, s, turns[0].thread, turns[0].next), turns[1..]);
    }
  }

  lemma ReachableShut(c: Config, s: System)
    requires Reachable(c, s)
    ensures ShutInOrder(s)
  {
    var start, turns :| Initial(start) && Runs(c, start, turns) && After(c, start, turns) == s;
    ShutRuns(c, start, turns);
  }

  /** The wait for the transports ends with every receiver at rest, and none runs again. */
  lemma JoinReturns(c: Config, s: System, i: nat)
    requires Reachable(c, s) && i < |s.threads| && s.threads[i].program != []
    requires s.threads[i].program[0] == JoinIo && Enabled(c, s, i, [])
    ensures var t := Apply(c, s, i, []);
      && (forall u <- t.threads :: u.role == Io ==> u.program == [])
      && forall j, next :: 0 <= j < |t.threads| && t.threads[j].role == Io ==> !Enabled(c, t, j, next)
  {
    hide Disciplined, CanAcquire;
    var t := Apply(c, s, i, []);
    ReachableInv(c, s);
    assert s.threads[i] in s.threads;
    forall u | u in t.threads ensures u.role == Io ==> u.program == [] {
      assert u in s.threads || u == t.threads[i];
      JoinerIsUser(s, s.threads[i]);
    }
  }

  lemma JoinerIsUser(s: System, t: Thread)
    requires GoodThread(s, t) && t.program != [] && t.program[0] == JoinIo
    ensures t.role == User
  {
  }

  /** The wait for the workers ends with all of them gone and the queue drained. */
  lemma StopReturns(c: Config, s: System, i: nat)
    requires Reachable(c, s) && i < |s.threads| && s.threads[i].program != []
    requires s.threads[i].program[0] == StopWorkers && Enabled(c, s, i, [])
    requires Apply(c, s, i, []).threads[i].program != s.threads[i].program
    ensures s.closed && s.queue == 0 && forall u <- s.threads :: u.role == Worker ==> u.exited
  {
    hide Disciplined, CanAcquire;
    ReachableInv(c, s);
    ReachableShut(c, s);
    var w :| w in s.threads && w.role == Worker;
  }

  // ------------------------------------------------------------- no circular wait

  /** A holder keeps the lock from the request, or a writer is in line before a reader. */
  ghost predicate Blocks(u: Thread, l: Lock, exclusive: bool) {
    (l in u.held && (exclusive || u.held[l])) || (!exclusive && Wants(u, l, true))
  }

  /** Thread i cannot go on before thread j has done something. */
  ghost predicate WaitsFor(c: Config, s: System, i: nat, j: nat) {
    && i < |s.threads| && j < |s.threads| && i != j && s.threads[i].program != []
    && var t, u := s.threads[i], s.threads[j];
       match t.program[0]
       case Acquire(l, exclusive) => Blocks(u, l, exclusive)
       case Enqueue => c.blocking && s.queue >= c.capacity && !s.closed && u.role == Worker && !u.exited
       case JoinIo => u.role == Io && u.program != []
       case StopWorkers => s.closed && u.role == Worker && !u.exited
       case _ => false
  }

  /** A thread with code left that cannot step waits for some thread in this sense. */
  lemma BlockedWaits(c: Config, s: System, i: nat) returns (j: nat)
    requires Inv(c, s) && i < |s.threads| && s.threads[i].program != [] && !Enabled(c, s, i, [])
    ensures WaitsFor(c, s, i, j)
  {
    NothingToDo();
    var t := s.threads[i];
    assert t in s.threads && Disciplined(t.role, t.held, t.program);
    match t.program[0]
    case Acquire(l, exclusive) =>
      assert l !in t.held;
      j :| 0 <= j < |s.threads| && j != i && Blocks(s.threads[j], l, exclusive);
    case Enqueue =>
      j :| 0 <= j < |s.threads| && s.threads[j].role == Worker;
      assert s.threads[j] in s.threads;
    case JoinIo => j :| 0 <= j < |s.threads| && s.threads[j].role == Io && s.threads[j].program != [];
    case StopWorkers => j :| 0 <= j < |s.threads| && s.threads[j].role == Worker && !s.threads[j].exited;
  }

  lemma NothingToDo()
    ensures Disciplined(Guest, map[], [])
  {
  }

  /** Waits go from joins to pushes to locks of rising rank; a reader behind a writer comes just before it. */
  function Level(a: Action): nat {
    match a
    case Acquire(l, exclusive) => 3 + 2 * Rank(l) + (if exclusive then 1 else 0)
    case Enqueue => 2
    case JoinIo => 1
    case StopWorkers => 1
    case _ => 0
  }

  ghost function LevelOf(s: System, i: nat): nat {
    if i < |s.threads| && s.threads[i].program != [] then Level(s.threads[i].program[0]) else 0
  }

  lemma LevelsRise(c: Config, s: System, i: nat, j: nat, k: nat)
    requires Inv(c, s) && WaitsFor(c, s, i, j) && WaitsFor(c, s, j, k)
    ensures LevelOf(s, i) < LevelOf(s, j)
  {
    var t, u := s.threads[i], s.threads[j];
    assert u in s.threads && Disciplined(u.role, u.held, u.program);
    if t.program[0].Acquire? && t.program[0].lock in u.held {
      assert t.program[0].lock in u.held;
    }
  }

  /** Each thread of p waits for the next one. */
  ghost predicate WaitChain(c: Config, s: System, p: seq<nat>) {
    |p| >= 2 && forall k :: 0 <= k < |p| - 1 ==> WaitsFor(c, s, p[k], p[k + 1])
  }

  lemma {:induction false} ChainRises(c: Config, s: System, p: seq<nat>, n: nat)
    requires Inv(c, s) && WaitChain(c, s, p) && 0 < n < |p| - 1
    ensures LevelOf(s, p[0]) < LevelOf(s, p[n])
    decreases n
  {
    hide Inv, WaitsFor, LevelOf;
    assert WaitsFor(c, s, p[n - 1], p[n]) && WaitsFor(c, s, p[n], p[n + 1]);
    LevelsRise(c, s, p[n - 1], p[n], p[n + 1]);
    if n > 1 {
      ChainRises(c, s, p, n - 1);
    }
  }

  /** No reachable state has a circular wait over locks, the queue and joins. */
  lemma NoCircularWait(c: Config, s: System, p: seq<nat>)
    requires Reachable(c, s) && WaitChain(c, s, p)
    ensures p[0] != p[|p| - 1]
  {
    hide Inv, WaitsFor, LevelOf, Reachable;
    ReachableInv(c, s);
    if p[0] == p[|p| - 1] {
      var q := p + [p[1]];
      assert WaitsFor(c, s, p[0], p[1]);
      forall k | 0 <= k < |q| - 1 ensures WaitsFor(c, s, q[k], q[k + 1]) {
        assert k < |p| - 1 ==> WaitsFor(c, s, p[k], p[k + 1]);
      }
      ChainRises(c, s, q, |p| - 1);
    }
  }

  // ------------------------------------------------------- every thread gets on

  /** Turns that bring in no new code. */
  ghost predicate Settling(turns: seq<Turn>) {
    forall turn <- turns :: turn.next == []
  }

  /** However such turns are scheduled, they come to an end. */
  lemma {:induction false} SettlingEnds(c: Config, s: System, turns: seq<Turn>)
    requires Runs(c, s, turns) && Settling(turns)
    ensures |turns| <= Effort(s)
    decreases |turns|
  {
    hide Enabled, Apply, Effort;
    if turns != [] {
      assert turns[0] in turns;
      StepShrinks(c, s, turns[0].thread);
      SettlingEnds(c, Apply(c, s, turns[0].thread, []), turns[1..]);
    }
  }

  /** From every reachable state the threads can finish: all quiet, no lock held. */
  lemma {:induction false} Settle(c: Config, s: System) returns (turns: seq<Turn>)
    requires Inv(c, s) && c.capacity > 0
    ensures Runs(c, s, turns) && Settling(turns)
    ensures forall t <- After(c, s, turns).threads :: Quiet(After(c, s, turns), t)
    decreases Effort(s)
  {
    hide Inv, Enabled, Apply, Effort;
    if i :| 0 <= i < |s.threads| && !Quiet(s, s.threads[i]) {
      var k := Progress(c, s, i);
      StepShrinks(c, s, k);
      InvStep(c, s, k, []);
      var rest := Settle(c, Apply(c, s, k, []));
      turns := [Turn(k, [])] + rest;
      assert turns[1..] == rest;
    } else {
      turns := [];
    }
  }

  /** The turns leave thread i alone. */
  ghost predicate Without(turns: seq<Turn>, i: nat) {
    forall turn <- turns :: turn.thread != i
  }

  /** A thread that is not quiet is let through by the others alone, in finitely many steps. */
  lemma {:induction false} LetThrough(c: Config, s: System, i: nat) returns (turns: seq<Turn>)
    requires Inv(c, s) && c.capacity > 0 && i < |s.threads| && !Quiet(s, s.threads[i])
    ensures Runs(c, s, turns) && Settling(turns) && Without(turns, i)
    ensures var t := After(c, s, turns); |t.threads| == |s.threads| && t.threads[i] == s.threads[i] && Enabled(c, t, i, [])
    decreases Effort(s)
  {
    hide Inv, Enabled, Apply, Effort;
    if Enabled(c, s, i, []) {
      turns := [];
    } else {
      var k := Progress(c, s, i);
      StepShrinks(c, s, k);
      InvStep(c, s, k, []);
      OnlyOneChanges(c, s, k, []);
      var t := Apply(c, s, k, []);
      StillWaiting(c, s, i);
      var rest := LetThrough(c, t, i);
      turns := [Turn(k, [])] + rest;
      assert turns[1..] == rest;
    }
  }

  /** A thread that is neither quiet nor able to step has code left, so it cannot become quiet by itself. */
  lemma StillWaiting(c: Config, s: System, i: nat)
    requires i < |s.threads| && !Quiet(s, s.threads[i]) && !Enabled(c, s, i, [])
    ensures s.threads[i].program != []
  {
  }

  /** In every reachable state, a thread that is not quiet can step after finitely many steps of the others. */
  lemma NeverStuck(c: Config, s: System, i: nat) returns (turns: seq<Turn>)
    requires c.capacity > 0 && Reachable(c, s) && i < |s.threads| && !Quiet(s, s.threads[i])
    ensures Runs(c, s, turns) && Without(turns, i) && |turns| <= Effort(s)
    ensures var t := After(c, s, turns); |t.threads| == |s.threads| && t.threads[i] == s.threads[i] && Enabled(c, t, i, [])
  {
    hide Inv, Enabled, Effort, Reachable;
    ReachableInv(c, s);
    turns := LetThrough(c, s, i);
    SettlingEnds(c, s, turns);
  }

  /**
    Before a full blocking queue a receiver waits for workers only: each of them gets on by steps of the others,
    and the push is let through, in both cases after finitely many steps.
   */
  lemma ReceiverNeverStuck(c: Config, s: System, i: nat, w: nat) returns (forWorker: seq<Turn>, forPush: seq<Turn>)
    requires c.capacity > 0 && Reachable(c, s) && i < |s.threads| && w < |s.threads|
    requires s.threads[i].program != [] && s.threads[i].program[0] == Enqueue
    requires c.blocking && s.queue >= c.capacity && !s.closed && s.threads[w].role == Worker
    ensures Runs(c, s, forWorker) && Without(forWorker, w) && Runs(c, s, forPush) && Without(forPush, i)
    ensures var t := After(c, s, forWorker); |t.threads| == |s.threads| && Enabled(c, t, w, [])
    ensures var t := After(c, s, forPush);
      |t.threads| == |s.threads| && t.threads[i] == s.threads[i] && (t.queue < c.capacity || t.closed)
  {
    hide Effort, Disciplined, Reachable;
    ReachableInv(c, s);
    assert s.threads[w] in s.threads;
    forWorker := NeverStuck(c, s, w);
    forPush := NeverStuck(c, s, i);
  }
}
