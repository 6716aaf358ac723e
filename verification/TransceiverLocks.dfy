/** The lock, queue and callback pattern of each transceiver operation, and that all of them follow the discipline. */
module TransceiverLocks {
  import opened Errors
  import opened Locking

  /** Runs with the same locks held before and after, whatever follows. */
  ghost predicate Keeps(role: Role, held: map<Lock, bool>, a: seq<Action>) {
    forall rest :: Disciplined(role, held, rest) ==> Disciplined(role, held, a + rest)
  }

  /** How often an action occurs. */
  function Tally(a: seq<Action>, x: Action): nat {
    multiset(a)[x]
  }

  lemma KeepsNothing(role: Role, held: map<Lock, bool>)
    ensures Keeps(role, held, [])
    ensures forall x :: Tally([], x) == 0
  {
    forall rest | Disciplined(role, held, rest) ensures Disciplined(role, held, [] + rest) {
      assert [] + rest == rest;
    }
  }

  lemma KeepsBoth(role: Role, held: map<Lock, bool>, a: seq<Action>, b: seq<Action>)
    requires Keeps(role, held, a) && Keeps(role, held, b)
    ensures Keeps(role, held, a + b)
    ensures forall x :: Tally(a + b, x) == Tally(a, x) + Tally(b, x)
  {
    hide Disciplined;
    forall rest | Disciplined(role, held, rest) ensures Disciplined(role, held, (a + b) + rest) {
      assert Disciplined(role, held, b + rest);
      assert (a + b) + rest == a + (b + rest);
    }
  }

  /** A scope that holds one more lock. */
  function Locked(l: Lock, exclusive: bool, inner: seq<Action>): seq<Action> {
    [Acquire(l, exclusive)] + inner + [Release(l)]
  }

  lemma KeepsLocked(role: Role, held: map<Lock, bool>, l: Lock, exclusive: bool, inner: seq<Action>)
    requires (forall h <- held.Keys :: Rank(h) < Rank(l)) && Keeps(role, held[l := exclusive], inner)
    ensures Keeps(role, held, Locked(l, exclusive, inner))
    ensures forall x: Action :: !x.Acquire? && !x.Release? ==> Tally(Locked(l, exclusive, inner), x) == Tally(inner, x)
  {
    forall rest | Disciplined(role, held, rest) ensures Disciplined(role, held, Locked(l, exclusive, inner) + rest) {
      var tail := [Release(l)] + rest;
      assert tail[1..] == rest && l !in held && held[l := exclusive] - {l} == held;
      assert Disciplined(role, held[l := exclusive], tail);
      var whole := Locked(l, exclusive, inner) + rest;
      assert whole[0] == Acquire(l, exclusive) && whole[1..] == inner + tail;
    }
  }

  lemma KeepsAccess(role: Role, held: map<Lock, bool>, l: Lock, write: bool)
    requires l in held && (write ==> held[l])
    ensures Keeps(role, held, [Access(l, write)])
    ensures forall x :: Tally([Access(l, write)], x) == if x == Access(l, write) then 1 else 0
  {
    forall rest | Disciplined(role, held, rest) ensures Disciplined(role, held, [Access(l, write)] + rest) {
      assert ([Access(l, write)] + rest)[1..] == rest;
    }
  }

  lemma KeepsOne(role: Role, a: Action)
    requires a == Call || (a == Enqueue && role == Io) || (a in {JoinIo, StopWorkers} && role == User)
    ensures Keeps(role, map[], [a])
    ensures forall x :: Tally([a], x) == if x == a then 1 else 0
  {
    forall rest | Disciplined(role, map[], rest) ensures Disciplined(role, map[], [a] + rest) {
      assert ([a] + rest)[1..] == rest;
    }
  }

  lemma KeepsFits(role: Role, a: seq<Action>)
    requires Keeps(role, map[], a)
    ensures Disciplined(role, map[], a)
  {
    assert Disciplined(role, map[], []);
    assert a + [] == a;
  }

  // ------------------------------------------------------------- shared fragments

  /** A scope that touches what its lock guards: reads it, or writes it under the exclusive lock. */
  function Brief(l: Lock, exclusive: bool, write: bool): seq<Action> {
    Locked(l, exclusive, [Access(l, write)])
  }

  lemma BriefKeeps(role: Role, l: Lock, exclusive: bool, write: bool)
    requires write ==> exclusive
    ensures Keeps(role, map[], Brief(l, exclusive, write))
    ensures forall x: Action :: !x.Acquire? && !x.Release? && x != Access(l, write) ==> Tally(Brief(l, exclusive, write), x) == 0
    ensures Tally(Brief(l, exclusive, write), Access(l, write)) == 1
  {
    KeepsAccess(role, map[l := exclusive], l, write);
    KeepsLocked(role, map[], l, exclusive, [Access(l, write)]);
  }

  /** What a peer's context lock guards, touched inside the peer table lock. */
  function InContext(p: nat): seq<Action> {
    Locked(Peers, false, [Access(Peers, false)] + Brief(Context(p), true, true))
  }

  lemma InContextKeeps(role: Role, p: nat)
    ensures Keeps(role, map[], InContext(p))
    ensures Tally(InContext(p), Access(Peers, false)) == Tally(InContext(p), Access(Context(p), true)) == 1
    ensures Tally(InContext(p), Enqueue) == Tally(InContext(p), Call) == 0
  {
    hide Tally, Keeps, Locked;
    var outer, c: Lock := map[Peers := false], Context(p);
    KeepsAccess(role, outer, Peers, false);
    KeepsAccess(role, outer[c := true], c, true);
    KeepsLocked(role, outer, c, true, [Access(c, true)]);
    KeepsBoth(role, outer, [Access(Peers, false)], Brief(c, true, true));
    KeepsLocked(role, map[], Peers, false, [Access(Peers, false)] + Brief(c, true, true));
  }

  /** pause or resume on n transports under the shared table lock: each may take a lock of its own for a moment. */
  function FlowControlled(n: nat): seq<Action> {
    Locked(Peers, false, [Access(Peers, false)] + Switches(n))
  }

  function Switches(n: nat): seq<Action> {
    if n == 0 then [] else Brief(Leaf(FlowControl), true, true) + Switches(n - 1)
  }

  lemma {:induction false} SwitchesKeep(role: Role, n: nat)
    ensures Keeps(role, map[Peers := false], Switches(n))
    ensures Tally(Switches(n), Enqueue) == Tally(Switches(n), Call) == 0
    decreases n
  {
    hide Tally, Keeps;
    var outer, l: Lock := map[Peers := false], Leaf(FlowControl);
    KeepsNothing(role, outer);
    if n > 0 {
      KeepsAccess(role, outer[l := true], l, true);
      KeepsLocked(role, outer, l, true, [Access(l, true)]);
      SwitchesKeep(role, n - 1);
      KeepsBoth(role, outer, Brief(l, true, true), Switches(n - 1));
    }
  }

  lemma FlowControlledKeeps(role: Role, n: nat)
    ensures Keeps(role, map[], FlowControlled(n))
    ensures Tally(FlowControlled(n), Enqueue) == Tally(FlowControlled(n), Call) == 0
  {
    hide Tally, Keeps, Switches;
    var outer: map<Lock, bool> := map[Peers := false];
    SwitchesKeep(role, n);
    KeepsAccess(role, outer, Peers, false);
    KeepsBoth(role, outer, [Access(Peers, false)], Switches(n));
    KeepsLocked(role, map[], Peers, false, [Access(Peers, false)] + Switches(n));
  }

  function Calls(n: nat): seq<Action> {
    if n == 0 then [] else [Call] + Calls(n - 1)
  }

  lemma {:induction false} CallsKeep(role: Role, n: nat)
    ensures Keeps(role, map[], Calls(n))
    ensures forall x :: Tally(Calls(n), x) == if x == Call then n else 0
    decreases n
  {
    hide Tally, Keeps;
    if n == 0 {
      KeepsNothing(role, map[]);
    } else {
      KeepsOne(role, Call);
      CallsKeep(role, n - 1);
      KeepsBoth(role, map[], [Call], Calls(n - 1));
      assert Calls(n) == [Call] + Calls(n - 1);
    }
  }

  /** fire_error_event: copy the callbacks under their lock, call them outside. */
  function FireErrorEvent(callbacks: nat): seq<Action> {
    Brief(Leaf(ErrorCallbacks), true, false) + Calls(callbacks)
  }

  /** fire_error: look the peer up first. */
  function FireError(callbacks: nat): seq<Action> {
    Brief(Peers, false, false) + FireErrorEvent(callbacks)
  }

  lemma FireKeeps(role: Role, n: nat)
    ensures Keeps(role, map[], FireErrorEvent(n)) && Keeps(role, map[], FireError(n))
    ensures Tally(FireErrorEvent(n), Call) == Tally(FireError(n), Call) == n
    ensures Tally(FireErrorEvent(n), Enqueue) == Tally(FireError(n), Enqueue) == 0
  {
    hide Tally, Keeps, Calls, Brief;
    BriefKeeps(role, Leaf(ErrorCallbacks), true, false);
    CallsKeep(role, n);
    KeepsBoth(role, map[], Brief(Leaf(ErrorCallbacks), true, false), Calls(n));
    BriefKeeps(role, Peers, false, false);
    KeepsBoth(role, map[], Brief(Peers, false, false), FireErrorEvent(n));
  }

  function Sum(counts: seq<nat>): nat {
    if counts == [] then 0 else counts[0] + Sum(counts[1..])
  }

  function Events(counts: seq<nat>): seq<Action> {
    if counts == [] then [] else FireErrorEvent(counts[0]) + Events(counts[1..])
  }

  lemma {:induction false} EventsKeep(role: Role, counts: seq<nat>)
    ensures Keeps(role, map[], Events(counts))
    ensures Tally(Events(counts), Call) == Sum(counts) && Tally(Events(counts), Enqueue) == 0
    decreases |counts|
  {
    hide Tally, Keeps, FireErrorEvent;
    if counts == [] {
      KeepsNothing(role, map[]);
    } else {
      FireKeeps(role, counts[0]);
      EventsKeep(role, counts[1..]);
      KeepsBoth(role, map[], FireErrorEvent(counts[0]), Events(counts[1..]));
    }
  }

  function LogEntries(n: nat): seq<Action> {
    if n == 0 then [] else Brief(Leaf(MessageLog), true, true) + LogEntries(n - 1)
  }

  lemma {:induction false} LogKeeps(role: Role, n: nat)
    ensures Keeps(role, map[], LogEntries(n))
    ensures Tally(LogEntries(n), Access(Leaf(MessageLog), true)) == n
    ensures Tally(LogEntries(n), Enqueue) == Tally(LogEntries(n), Call) == 0
    decreases n
  {
    hide Tally, Keeps, Brief;
    if n == 0 {
      KeepsNothing(role, map[]);
    } else {
      BriefKeeps(role, Leaf(MessageLog), true, true);
      LogKeeps(role, n - 1);
      KeepsBoth(role, map[], Brief(Leaf(MessageLog), true, true), LogEntries(n - 1));
    }
  }

  /** Callbacks run for the refused messages. */
  function Refusals(refusals: seq<Option<nat>>): nat {
    if refusals == [] then 0
    else (if refusals[0].Some? then refusals[0].value else 0) + Refusals(refusals[1..])
  }

  /** One push per decoded message; a refused one is reported. */
  function PushAll(refusals: seq<Option<nat>>): seq<Action> {
    if refusals == [] then []
    else [Enqueue] + (if refusals[0].Some? then FireError(refusals[0].value) else []) + PushAll(refusals[1..])
  }

  lemma {:induction false} PushAllKeeps(refusals: seq<Option<nat>>)
    ensures Keeps(Io, map[], PushAll(refusals))
    ensures Tally(PushAll(refusals), Enqueue) == |refusals| && Tally(PushAll(refusals), Call) == Refusals(refusals)
    decreases |refusals|
  {
    hide Tally, Keeps, FireError;
    KeepsNothing(Io, map[]);
    if refusals != [] {
      var report := if refusals[0].Some? then FireError(refusals[0].value) else [];
      KeepsOne(Io, Enqueue);
      if refusals[0].Some? { FireKeeps(Io, refusals[0].value); }
      KeepsBoth(Io, map[], [Enqueue], report);
      PushAllKeeps(refusals[1..]);
      KeepsBoth(Io, map[], [Enqueue] + report, PushAll(refusals[1..]));
    }
  }

  function Optionally(b: bool, a: seq<Action>): seq<Action> {
    if b then a else []
  }

  lemma OptionallyKeeps(role: Role, b: bool, a: seq<Action>)
    requires Keeps(role, map[], a)
    ensures Keeps(role, map[], Optionally(b, a))
    ensures forall x :: Tally(Optionally(b, a), x) == if b then Tally(a, x) else 0
  {
    KeepsNothing(role, map[]);
  }

  // ------------------------------------------------------------------- operations

  datatype Reception = UnknownPeer | Decoded(errors: seq<nat>, logged: nat, refusals: seq<Option<nat>>, pressure: bool)

  /** handle_data_received: decode under both locks; report, log and push after they are released. */
  function ReceiveBody(p: nat, r: Reception): seq<Action> {
    match r
    case UnknownPeer => Brief(Peers, false, false)
    case Decoded(errors, logged, refusals, pressure) =>
      InContext(p) + Events(errors) + LogEntries(logged) + PushAll(refusals) + Optionally(pressure, FlowControlled(1))
  }

  lemma ReceiveFollows(p: nat, r: Reception)
    ensures Disciplined(Io, map[], ReceiveBody(p, r))
    ensures Tally(ReceiveBody(p, r), Access(Peers, false)) > 0
    ensures r.Decoded? ==>
      && Tally(ReceiveBody(p, r), Access(Context(p), true)) > 0
      && Tally(ReceiveBody(p, r), Access(Leaf(MessageLog), true)) >= r.logged
      && Tally(ReceiveBody(p, r), Enqueue) == |r.refusals|
      && Tally(ReceiveBody(p, r), Call) == Sum(r.errors) + Refusals(r.refusals)
    ensures r.UnknownPeer? ==> Tally(ReceiveBody(p, r), Enqueue) == Tally(ReceiveBody(p, r), Call) == 0
  {
    hide Tally, Keeps, Disciplined, InContext, Events, LogEntries, PushAll, Optionally, Brief, FlowControlled;
    BriefKeeps(Io, Peers, false, false);
    match r {
      case UnknownPeer =>
      case Decoded(errors, logged, refusals, pressure) =>
        InContextKeeps(Io, p);
        EventsKeep(Io, errors);
        KeepsBoth(Io, map[], InContext(p), Events(errors));
        LogKeeps(Io, logged);
        KeepsBoth(Io, map[], InContext(p) + Events(errors), LogEntries(logged));
        PushAllKeeps(refusals);
        KeepsBoth(Io, map[], InContext(p) + Events(errors) + LogEntries(logged), PushAll(refusals));
        FlowControlledKeeps(Io, 1);
        OptionallyKeeps(Io, pressure, FlowControlled(1));
        KeepsBoth(Io, map[], InContext(p) + Events(errors) + LogEntries(logged) + PushAll(refusals),
                  Optionally(pressure, FlowControlled(1)));
    }
    KeepsFits(Io, ReceiveBody(p, r));
  }

  datatype Sending = NotRunning | NoSuchPeer | Refused | Sent(logged: bool)

  /** send_impl and send_batch_impl: encode under both locks, hand to the transport with none. */
  function SendBody(p: nat, r: Sending): seq<Action> {
    match r
    case NotRunning => []
    case NoSuchPeer => Brief(Peers, false, false)
    case Refused => InContext(p)
    case Sent(logged) => InContext(p) + Optionally(logged, Brief(Leaf(MessageLog), true, true)) + [Call]
  }

  /** The transport is called exactly when something is sent, after the session's state was used under its lock. */
  lemma SendKeeps(role: Role, p: nat, r: Sending)
    ensures Keeps(role, map[], SendBody(p, r))
    ensures Tally(SendBody(p, r), Call) == (if r.Sent? then 1 else 0) && Tally(SendBody(p, r), Enqueue) == 0
    ensures r.Refused? || r.Sent? ==> Tally(SendBody(p, r), Access(Context(p), true)) > 0
  {
    hide Tally, Keeps, InContext, Optionally, Brief;
    KeepsNothing(role, map[]);
    BriefKeeps(role, Peers, false, false);
    InContextKeeps(role, p);
    if r.Sent? {
      BriefKeeps(role, Leaf(MessageLog), true, true);
      OptionallyKeeps(role, r.logged, Brief(Leaf(MessageLog), true, true));
      KeepsBoth(role, map[], InContext(p), Optionally(r.logged, Brief(Leaf(MessageLog), true, true)));
      KeepsOne(role, Call);
      KeepsBoth(role, map[], InContext(p) + Optionally(r.logged, Brief(Leaf(MessageLog), true, true)), [Call]);
    }
  }

  /** Whatever a handler or callback sends, it follows the discipline of code that holds no lock. */
  lemma {:induction false} SendsFollow(sends: seq<(nat, Sending)>)
    ensures Disciplined(Guest, map[], AllSends(sends))
  {
    SendsKeep(sends);
    KeepsFits(Guest, AllSends(sends));
  }

  function AllSends(sends: seq<(nat, Sending)>): seq<Action> {
    if sends == [] then [] else SendBody(sends[0].0, sends[0].1) + AllSends(sends[1..])
  }

  lemma {:induction false} SendsKeep(sends: seq<(nat, Sending)>)
    ensures Keeps(Guest, map[], AllSends(sends))
    decreases |sends|
  {
    hide Tally, Keeps, SendBody;
    if sends == [] {
      KeepsNothing(Guest, map[]);
    } else {
      SendKeeps(Guest, sends[0].0, sends[0].1);
      SendsKeep(sends[1..]);
      KeepsBoth(Guest, map[], SendBody(sends[0].0, sends[0].1), AllSends(sends[1..]));
    }
  }

  /** handle_state_changed: a reconnect resets the session under both locks; callbacks run with none. */
  function StateBody(p: nat, resets: bool, callbacks: nat): seq<Action> {
    (if resets then InContext(p) else Brief(Peers, false, false)) + Brief(Leaf(StateCallbacks), true, false) + Calls(callbacks)
  }

  lemma StateKeeps(role: Role, p: nat, resets: bool, callbacks: nat)
    ensures Keeps(role, map[], StateBody(p, resets, callbacks))
    ensures Tally(StateBody(p, resets, callbacks), Call) == callbacks
    ensures Tally(StateBody(p, resets, callbacks), Access(Peers, false)) > 0
    ensures resets ==> Tally(StateBody(p, resets, callbacks), Access(Context(p), true)) > 0
  {
    hide Tally, Keeps, InContext, Calls, Brief;
    var first := if resets then InContext(p) else Brief(Peers, false, false);
    InContextKeeps(role, p);
    BriefKeeps(role, Peers, false, false);
    BriefKeeps(role, Leaf(StateCallbacks), true, false);
    KeepsBoth(role, map[], first, Brief(Leaf(StateCallbacks), true, false));
    CallsKeep(role, callbacks);
    KeepsBoth(role, map[], first + Brief(Leaf(StateCallbacks), true, false), Calls(callbacks));
  }

  lemma StateFollows(p: nat, resets: bool, callbacks: nat)
    ensures Disciplined(Io, map[], StateBody(p, resets, callbacks))
    ensures Tally(StateBody(p, resets, callbacks), Call) == callbacks
    ensures resets ==> Tally(StateBody(p, resets, callbacks), Access(Context(p), true)) > 0
  {
    StateKeeps(Io, p, resets, callbacks);
    KeepsFits(Io, StateBody(p, resets, callbacks));
  }

  datatype Connection = NoNewPeer | NoSession(callbacks: nat) | Joined(id: nat, callbacks: nat)

  /** handle_peer_connected: the table changes under the exclusive lock, everything else after it. */
  function ConnectBody(r: Connection): seq<Action> {
    Brief(Peers, true, true) +
    match r
    case NoNewPeer => []
    case NoSession(n) => FireErrorEvent(n)
    case Joined(id, n) => StateBody(id, true, n)
  }

  lemma ConnectFollows(r: Connection)
    ensures Disciplined(Io, map[], ConnectBody(r))
    ensures Tally(ConnectBody(r), Access(Peers, true)) > 0
    ensures Tally(ConnectBody(r), Call) == if r.NoNewPeer? then 0 else r.callbacks
    ensures r.Joined? ==> Tally(ConnectBody(r), Access(Context(r.id), true)) > 0
  {
    hide Tally, Keeps, Disciplined, Brief, FireErrorEvent, StateBody;
    var after := match r
      case NoNewPeer => []
      case NoSession(n) => FireErrorEvent(n)
      case Joined(id, n) => StateBody(id, true, n);
    KeepsNothing(Io, map[]);
    BriefKeeps(Io, Peers, true, true);
    match r {
      case NoNewPeer =>
      case NoSession(n) => FireKeeps(Io, n);
      case Joined(id, n) => StateKeeps(Io, id, true, n);
    }
    KeepsBoth(Io, map[], Brief(Peers, true, true), after);
    KeepsFits(Io, ConnectBody(r));
  }

  /** handle_peer_disconnected. */
  function DisconnectBody(dynamic: bool, callbacks: nat): seq<Action> {
    Brief(Peers, true, true) + Optionally(dynamic, Brief(Leaf(Handlers), true, true))
    + Brief(Leaf(StateCallbacks), true, false) + Calls(callbacks)
  }

  lemma DisconnectFollows(dynamic: bool, callbacks: nat)
    ensures Disciplined(Io, map[], DisconnectBody(dynamic, callbacks))
    ensures Tally(DisconnectBody(dynamic, callbacks), Access(Peers, true)) > 0
    ensures Tally(DisconnectBody(dynamic, callbacks), Access(Leaf(Handlers), true)) == if dynamic then 1 else 0
    ensures Tally(DisconnectBody(dynamic, callbacks), Call) == callbacks
  {
    hide Tally, Keeps, Disciplined, Brief, Optionally, Calls;
    var a, b := Brief(Peers, true, true), Optionally(dynamic, Brief(Leaf(Handlers), true, true));
    var d, e := Brief(Leaf(StateCallbacks), true, false), Calls(callbacks);
    BriefKeeps(Io, Peers, true, true);
    BriefKeeps(Io, Leaf(Handlers), true, true);
    OptionallyKeeps(Io, dynamic, Brief(Leaf(Handlers), true, true));
    KeepsBoth(Io, map[], a, b);
    BriefKeeps(Io, Leaf(StateCallbacks), true, false);
    KeepsBoth(Io, map[], a + b, d);
    CallsKeep(Io, callbacks);
    KeepsBoth(Io, map[], a + b + d, e);
    KeepsFits(Io, DisconnectBody(dynamic, callbacks));
  }

  /** A round of worker_loop once pop has given a message: find its handlers, call them with no lock, report, resume. */
  function RoundBody(handlers: nat, reports: seq<nat>, resumed: Option<nat>): seq<Action> {
    Brief(Leaf(Handlers), false, false) + Calls(handlers) + Reports(reports)
    + (if resumed.Some? then FlowControlled(resumed.value) else [])
  }

  function Reports(counts: seq<nat>): seq<Action> {
    if counts == [] then [] else FireError(counts[0]) + Reports(counts[1..])
  }

  lemma {:induction false} ReportsKeep(role: Role, counts: seq<nat>)
    ensures Keeps(role, map[], Reports(counts))
    ensures Tally(Reports(counts), Call) == Sum(counts)
    decreases |counts|
  {
    hide Tally, Keeps, FireError;
    if counts == [] {
      KeepsNothing(role, map[]);
    } else {
      FireKeeps(role, counts[0]);
      ReportsKeep(role, counts[1..]);
      KeepsBoth(role, map[], FireError(counts[0]), Reports(counts[1..]));
    }
  }

  lemma RoundFollows(handlers: nat, reports: seq<nat>, resumed: Option<nat>)
    ensures Disciplined(Worker, map[], RoundBody(handlers, reports, resumed))
    ensures Tally(RoundBody(handlers, reports, resumed), Access(Leaf(Handlers), false)) > 0
    ensures Tally(RoundBody(handlers, reports, resumed), Call) == handlers + Sum(reports)
  {
    hide Tally, Keeps, Disciplined, Brief, Calls, Reports, FlowControlled;
    var a, b, d := Brief(Leaf(Handlers), false, false), Calls(handlers), Reports(reports);
    BriefKeeps(Worker, Leaf(Handlers), false, false);
    CallsKeep(Worker, handlers);
    KeepsBoth(Worker, map[], a, b);
    ReportsKeep(Worker, reports);
    KeepsBoth(Worker, map[], a + b, d);
    var e := if resumed.Some? then FlowControlled(resumed.value) else [];
    KeepsNothing(Worker, map[]);
    if resumed.Some? { FlowControlledKeeps(Worker, resumed.value); }
    KeepsBoth(Worker, map[], a + b + d, e);
    KeepsFits(Worker, RoundBody(handlers, reports, resumed));
  }

  /** stop: transports first; when the transceiver was not running, the queue and workers first. */
  function StopBody(running: bool): seq<Action> {
    if running then [JoinIo] + [StopWorkers] else [StopWorkers] + [JoinIo]
  }

  lemma StopFollows(running: bool)
    ensures Disciplined(User, map[], StopBody(running))
    ensures |StopBody(running)| == 2 && JoinIo in StopBody(running) && StopWorkers in StopBody(running)
    ensures running <==> StopBody(running)[0] == JoinIo
  {
    hide Tally, Keeps, Disciplined;
    KeepsOne(User, JoinIo);
    KeepsOne(User, StopWorkers);
    KeepsBoth(User, map[], [JoinIo], [StopWorkers]);
    KeepsBoth(User, map[], [StopWorkers], [JoinIo]);
    KeepsFits(User, StopBody(running));
  }
}
