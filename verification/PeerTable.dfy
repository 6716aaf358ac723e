/** The transceiver's peer table: statically added peers, multi-peer transports, connects and disconnects. */
module PeerTable {
  import opened Errors
  import opened Literals
  import opened PeerIds

  type Transport = nat

  class PeerContext {
    const id: nat
    const name: string
    const transport: Transport
    var endpoint: string
    var connected: bool

    constructor (id: nat, name: string, transport: Transport, endpoint: string, connected: bool)
      ensures this.id == id && this.name == name && this.transport == transport
      ensures this.endpoint == endpoint && this.connected == connected
    {
      this.id, this.name, this.transport := id, name, transport;
      this.endpoint, this.connected := endpoint, connected;
    }
  }

  /** A multi-peer transport; its own id is never entered in the peer map. */
  datatype MultiPeer = MultiPeer(baseId: nat, name: string, transport: Transport, nextChild: nat)

  function ChildName(e: MultiPeer): string {
    e.name + "/" + Printed(e.nextChild)
  }

  /** Children of one transport are told apart by their numbers, and every child takes a later one. */
  lemma ChildNamesDiffer(e: MultiPeer, a: nat, b: nat)
    requires a != b
    ensures ChildName(e.(nextChild := a)) != ChildName(e.(nextChild := b))
    ensures Counted(e).nextChild > e.nextChild && Counted(e).name == e.name && Counted(e).transport == e.transport
  {
    hide Printed;
    var x, y := ChildName(e.(nextChild := a)), ChildName(e.(nextChild := b));
    assert x[|e.name| + 1..] == Printed(a) && y[|e.name| + 1..] == Printed(b);
    PrintedDiffer(a, b);
  }

  function Counted(e: MultiPeer): MultiPeer {
    e.(nextChild := e.nextChild + 1)
  }

  /** The peer takes the next child name of its transport's entry, and that entry moves on. */
  ghost predicate Named(before: seq<MultiPeer>, after: seq<MultiPeer>, p: PeerContext) {
    exists k :: 0 <= k < |before| && before[k].transport == p.transport && p.name == ChildName(before[k])
      && after == before[k := Counted(before[k])]
  }

  /** The map holds every peer under its id and nothing else; ids are distinct. */
  ghost predicate Indexed(peers: seq<PeerContext>, index: map<nat, PeerContext>) {
    Listed(peers, index) && DistinctIds(peers) && |index.Keys| == |peers|
  }

  ghost predicate Listed(peers: seq<PeerContext>, index: map<nat, PeerContext>) {
    && (forall p <- peers :: p.id in index && index[p.id] == p && 0 < p.id < ID_SPACE)
    && (forall id <- index :: index[id] in peers && index[id].id == id)
  }

  ghost predicate DistinctIds(peers: seq<PeerContext>) {
    forall i, j :: 0 <= i < j < |peers| ==> peers[i].id != peers[j].id
  }

  lemma IndexAdd(peers: seq<PeerContext>, index: map<nat, PeerContext>, ctx: PeerContext)
    requires Indexed(peers, index) && ctx.id !in index && 0 < ctx.id < ID_SPACE
    ensures Indexed(peers + [ctx], index[ctx.id := ctx])
  {
    assert index[ctx.id := ctx].Keys == index.Keys + {ctx.id};
    assert DistinctIds(peers + [ctx]);
    ListedAdd(peers, index, ctx);
  }

  /** A clash or the reserved id spoils the index. */
  lemma IndexBroken(peers: seq<PeerContext>, index: map<nat, PeerContext>, ctx: PeerContext)
    requires Indexed(peers, index) && ctx !in peers && (ctx.id == 0 || ctx.id in index)
    ensures !Indexed(peers + [ctx], index[ctx.id := ctx])
  {
    var more := peers + [ctx];
    assert more[|peers|] == ctx && ctx in more;
    if ctx.id in index {
      var k :| 0 <= k < |peers| && peers[k] == index[ctx.id];
      assert more[k].id == more[|peers|].id;
    }
  }

  lemma ListedAdd(peers: seq<PeerContext>, index: map<nat, PeerContext>, ctx: PeerContext)
    requires Listed(peers, index) && ctx.id !in index && 0 < ctx.id < ID_SPACE
    ensures Listed(peers + [ctx], index[ctx.id := ctx])
  {
    var more := index[ctx.id := ctx];
    forall p | p in peers + [ctx] ensures p.id in more && more[p.id] == p && 0 < p.id < ID_SPACE {
      assert p in peers || p == ctx;
    }
    forall id | id in more ensures more[id] in peers + [ctx] && more[id].id == id {
      assert id in index || id == ctx.id;
    }
  }

  lemma OneMore(was: seq<PeerContext>, now: seq<PeerContext>)
    requires |now| == |was| + 1 && now[..|was|] == was
    ensures forall p <- now :: p in was || p == now[|was|]
  {
    assert now == was + [now[|was|]];
  }

  function Without(peers: seq<PeerContext>, i: nat): (fewer: seq<PeerContext>)
    requires i < |peers|
    ensures |fewer| + 1 == |peers|
  {
    peers[..i] + peers[i + 1..]
  }

  lemma IndexRemove(peers: seq<PeerContext>, index: map<nat, PeerContext>, i: nat)
    requires Indexed(peers, index) && i < |peers|
    ensures Indexed(Without(peers, i), index - {peers[i].id})
    ensures forall p :: p in Without(peers, i) <==> p in peers && p != peers[i]
  {
    var id := peers[i].id;
    assert index.Keys == (index - {id}).Keys + {id};
    WithoutMembers(peers, i);
    ListedRemove(peers, index, i);
  }

  lemma ListedRemove(peers: seq<PeerContext>, index: map<nat, PeerContext>, i: nat)
    requires Listed(peers, index) && DistinctIds(peers) && i < |peers|
    ensures Listed(Without(peers, i), index - {peers[i].id})
  {
    hide Without;
    var less := index - {peers[i].id};
    forall id | id in less ensures less[id] in Without(peers, i) && less[id].id == id {
      WithoutMember(peers, i, index[id]);
    }
    forall p | p in Without(peers, i) ensures p.id in less && less[p.id] == p && 0 < p.id < ID_SPACE {
      WithoutMember(peers, i, p);
      assert peers[i] in peers;
    }
  }

  lemma WithoutMembers(peers: seq<PeerContext>, i: nat)
    requires i < |peers| && DistinctIds(peers)
    ensures DistinctIds(Without(peers, i))
    ensures forall p :: p in Without(peers, i) <==> p in peers && p != peers[i]
  {
    var fewer := Without(peers, i);
    assert forall a :: 0 <= a < |fewer| ==> fewer[a] == peers[if a < i then a else a + 1];
    forall p ensures p in fewer <==> p in peers && p != peers[i] {
      WithoutMember(peers, i, p);
    }
  }

  lemma WithoutMember(peers: seq<PeerContext>, i: nat, p: PeerContext)
    requires i < |peers| && DistinctIds(peers)
    ensures p in Without(peers, i) <==> p in peers && p != peers[i]
  {
    var fewer := Without(peers, i);
    if p in fewer {
      var a :| 0 <= a < |fewer| && fewer[a] == p;
      assert fewer[a] == peers[if a < i then a else a + 1];
    }
    if p in peers && p != peers[i] {
      var k :| 0 <= k < |peers| && peers[k] == p;
      assert p == fewer[if k < i then k else k - 1];
    }
  }

  predicate HasEntry(entries: seq<MultiPeer>, t: Transport) {
    exists e <- entries :: e.transport == t
  }

  /** Static peers sit on single-peer transports, all others on a registered multi-peer transport. */
  ghost predicate Kinds(
    multi: Transport -> bool, peers: seq<PeerContext>, entries: seq<MultiPeer>, statics: set<PeerContext>)
  {
    && (forall e <- entries :: multi(e.transport))
    && (forall p <- statics :: p in peers)
    && (forall p <- peers :: p in statics <==> !multi(p.transport))
    && (forall p <- peers :: p in statics || HasEntry(entries, p.transport))
  }

  lemma KindsAdd(
    multi: Transport -> bool, peers: seq<PeerContext>, entries: seq<MultiPeer>, statics: set<PeerContext>,
    ctx: PeerContext)
    requires Kinds(multi, peers, entries, statics) && ctx !in peers
    requires multi(ctx.transport) ==> HasEntry(entries, ctx.transport)
    ensures Kinds(multi, peers + [ctx], entries, if multi(ctx.transport) then statics else statics + {ctx})
  {
    hide HasEntry;
    assert ctx !in statics;
    forall p | p in peers + [ctx] ensures p in peers || p == ctx {
    }
  }

  lemma KindsRemove(
    multi: Transport -> bool, peers: seq<PeerContext>, entries: seq<MultiPeer>, statics: set<PeerContext>,
    fewer: seq<PeerContext>, gone: PeerContext)
    requires Kinds(multi, peers, entries, statics) && gone !in statics
    requires forall p :: p in fewer <==> p in peers && p != gone
    ensures Kinds(multi, fewer, entries, statics)
  {
    hide HasEntry;
  }

  lemma KindsRegister(
    multi: Transport -> bool, peers: seq<PeerContext>, entries: seq<MultiPeer>, statics: set<PeerContext>, e: MultiPeer)
    requires Kinds(multi, peers, entries, statics) && multi(e.transport)
    ensures Kinds(multi, peers, entries + [e], statics)
  {
    forall t | HasEntry(entries, t) ensures HasEntry(entries + [e], t) {
      var f :| f in entries && f.transport == t;
      assert f in entries + [e];
    }
    forall f | f in entries + [e] ensures multi(f.transport) {
      assert f in entries || f == e;
    }
  }

  lemma KindsCount(
    multi: Transport -> bool, peers: seq<PeerContext>, entries: seq<MultiPeer>, statics: set<PeerContext>,
    k: nat, e: MultiPeer)
    requires Kinds(multi, peers, entries, statics) && k < |entries| && e.transport == entries[k].transport
    ensures Kinds(multi, peers, entries[k := e], statics)
  {
    var counted := entries[k := e];
    forall t | HasEntry(entries, t) ensures HasEntry(counted, t) {
      var i :| 0 <= i < |entries| && entries[i].transport == t;
      assert counted[i].transport == t;
    }
    forall f | f in counted ensures multi(f.transport) {
      assert f in entries || f == e;
      assert entries[k] in entries;
    }
  }

  lemma EntryIsMulti(
    multi: Transport -> bool, peers: seq<PeerContext>, entries: seq<MultiPeer>, statics: set<PeerContext>, t: Transport)
    requires Kinds(multi, peers, entries, statics) && HasEntry(entries, t)
    ensures multi(t)
  {
  }

  lemma StaticIff(
    multi: Transport -> bool, peers: seq<PeerContext>, entries: seq<MultiPeer>, statics: set<PeerContext>, p: PeerContext)
    requires Kinds(multi, peers, entries, statics) && p in peers
    ensures p in statics <==> !HasEntry(entries, p.transport)
  {
    if HasEntry(entries, p.transport) {
      EntryIsMulti(multi, peers, entries, statics, p.transport);
    }
  }

  /** What reaches the table from outside: the application, and the callbacks of the transports. */
  datatype Call =
    | Add(name: string, hasSession: bool, transport: Option<Transport>)
    | AddMulti(name: string, hasFactory: bool, transport: Option<Transport>)
    | SetRunning(on: bool)
    | Connect(origin: Transport, endpoint: string, sessionMade: bool)
    | Disconnect(peer: nat)

  /** What a call did to the set of live ids. */
  datatype Outcome = Entered(id: nat) | Left(id: nat) | Unchanged

  /** Peers enter by an add or a connect, and leave by a disconnect that names them. */
  predicate Explains(call: Call, o: Outcome) {
    match o
    case Entered(_) => call.Add? || call.Connect?
    case Left(id) => call == Disconnect(id)
    case Unchanged => true
  }

  function After(live: set<nat>, o: Outcome): set<nat> {
    match o
    case Entered(id) => live + {id}
    case Left(id) => live - {id}
    case Unchanged => live
  }

  function LiveAfter(live: set<nat>, os: seq<Outcome>): set<nat> {
    if os == [] then live else After(LiveAfter(live, os[..|os| - 1]), os[|os| - 1])
  }

  /** Along the run an id is free when it is handed out, and live when it is given up. */
  ghost predicate Proper(live: set<nat>, os: seq<Outcome>) {
    forall i :: 0 <= i < |os| ==> Possible(LiveAfter(live, os[..i]), os[i])
  }

  predicate Possible(live: set<nat>, o: Outcome) {
    match o
    case Entered(id) => Free(id, live)
    case Left(id) => id in live
    case Unchanged => true
  }

  lemma ProperStep(live: set<nat>, os: seq<Outcome>, o: Outcome)
    requires Proper(live, os) && Possible(LiveAfter(live, os), o)
    ensures Proper(live, os + [o]) && LiveAfter(live, os + [o]) == After(LiveAfter(live, os), o)
  {
    hide LiveAfter, Possible, After;
    var more := os + [o];
    assert more[..|os|] == os;
    assert forall i :: 0 <= i < |os| ==> more[..i] == os[..i];
    LastOutcome(live, os, o);
  }

  lemma LastOutcome(live: set<nat>, os: seq<Outcome>, o: Outcome)
    ensures LiveAfter(live, os + [o]) == After(LiveAfter(live, os), o)
  {
    assert (os + [o])[..|os|] == os;
  }

  class Table {
    const multi: Transport -> bool
    var running: bool
    var nextId: nat
    var peers: seq<PeerContext>
    var peerMap: map<nat, PeerContext>
    var entries: seq<MultiPeer>
    var names: map<string, nat>
    var transports: seq<Transport>
    ghost var statics: set<PeerContext>

    ghost predicate Valid()
      reads this
    {
      && Indexed(peers, peerMap)
      && nextId < ID_SPACE
      && Kinds(multi, peers, entries, statics)
    }

    constructor (multi: Transport -> bool)
      ensures Valid() && this.multi == multi && !running && nextId == 1
      ensures peers == [] && entries == [] && names == map[] && transports == [] && statics == {}
    {
      this.multi := multi;
      running, nextId, peers, peerMap := false, 1, [], map[];
      entries, names, transports, statics := [], map[], [], {};
    }

    method NextPeerId() returns (id: nat)
      requires nextId < ID_SPACE
      modifies this`nextId
      ensures nextId < ID_SPACE && id < ID_SPACE
      ensures id == Nth(old(nextId), Allocate(old(nextId), peerMap.Keys, TRIES))
    {
      hide Allocate, Nth;
      ghost var c := nextId;
      NthStart(c);
      var attempt := 0;
      while attempt < TRIES
        invariant 0 <= attempt <= TRIES && nextId == Nth(c, attempt)
        invariant forall k :: 0 <= k < attempt ==> !Free(Nth(c, k), peerMap.Keys)
      {
        id := nextId;
        NthNext(c, attempt);
        nextId := (nextId + 1) % ID_SPACE;
        if id != 0 && id !in peerMap {
          AllocateIs(c, peerMap.Keys, TRIES, attempt);
          return;
        }
        attempt := attempt + 1;
      }
      AllocateIs(c, peerMap.Keys, TRIES, attempt);
      id := nextId;
      nextId := (nextId + 1) % ID_SPACE;
    }

    method Track(transport: Transport)
      modifies this`transports
      ensures transport in transports && (forall t :: t in transports <==> t == transport || t in old(transports))
      ensures |transports| <= |old(transports)| + 1 && old(transports) <= transports
    {
      if transport !in transports {
        transports := transports + [transport];
      }
    }

    method Enter(ctx: PeerContext)
      requires Valid() && ctx !in peers && ctx.id < ID_SPACE
      requires multi(ctx.transport) ==> HasEntry(entries, ctx.transport)
      modifies this`peers, this`peerMap, this`statics
      ensures peers == old(peers) + [ctx] && peerMap == old(peerMap)[ctx.id := ctx]
      ensures statics == if multi(ctx.transport) then old(statics) else old(statics) + {ctx}
      ensures Valid() <==> Free(ctx.id, old(peerMap.Keys))
    {
      hide Indexed, Kinds, HasEntry;
      KindsAdd(multi, peers, entries, statics, ctx);
      if Free(ctx.id, peerMap.Keys) { IndexAdd(peers, peerMap, ctx); } else { IndexBroken(peers, peerMap, ctx); }
      peers := peers + [ctx];
      peerMap := peerMap[ctx.id := ctx];
      if !multi(ctx.transport) {
        statics := statics + {ctx};
      }
    }

    /** Every peer and entry is as it was, so the table is as valid as before. */
    twostate predicate SamePeers()
      reads this
    {
      peers == old(peers) && peerMap == old(peerMap) && entries == old(entries) && statics == old(statics)
    }

    predicate AddRefused(name: string, hasSession: bool, transport: Option<Transport>, wantMulti: bool)
      reads this
    {
      running || !hasSession || transport.None? || multi(transport.value) != wantMulti || name in names
    }

    /** Adds a peer of a single-peer transport; the new id is good while fewer than 256 peers are live. */
    method AddPeer(name: string, hasSession: bool, transport: Option<Transport>) returns (r: Result<nat>)
      requires Valid()
      modifies this
      ensures running == old(running)
      ensures r.Err? <==> old(AddRefused(name, hasSession, transport, false))
      ensures r.Err? ==> Valid() && SamePeers() && names == old(names) && transports == old(transports)
      ensures r.Err? ==> r.error == if running then AlreadyRunning else InvalidArgument
      ensures r.Ok? ==> (Valid() <==> Free(r.value, old(peerMap.Keys)))
      ensures r.Ok? && |old(peers)| <= 255 ==> Free(r.value, old(peerMap.Keys))
      ensures r.Ok? ==>
        && r.value == Nth(old(nextId), Allocate(old(nextId), old(peerMap.Keys), TRIES))
        && |peers| == |old(peers)| + 1 && peers[..|old(peers)|] == old(peers) && entries == old(entries)
        && var p := peers[|old(peers)|];
           fresh(p) && p.id == r.value && p.name == name && p.transport == transport.value
           && statics == old(statics) + {p} && peerMap == old(peerMap)[r.value := p]
      ensures r.Ok? ==> names == old(names)[name := r.value] && transport.value in transports
      ensures r.Ok? ==> !running && hasSession && name !in old(names) && !multi(transport.value)
    {
      hide Indexed, Kinds, HasEntry, Allocate, Nth, Free;
      if running { return Err(AlreadyRunning); }
      if !hasSession || transport.None? || multi(transport.value) { return Err(InvalidArgument); }
      var id := Fresh();
      if name in names { return Err(InvalidArgument); }
      var ctx := new PeerContext(id, name, transport.value, "", false);
      Enter(ctx);
      names := names[name := id];
      Track(transport.value);
      return Ok(id);
    }

    /** Registers a multi-peer transport; its peers appear as they connect. */
    method AddMultiPeer(name: string, hasFactory: bool, transport: Option<Transport>) returns (r: Result<nat>)
      requires Valid()
      modifies this
      ensures Valid() && running == old(running)
      ensures peers == old(peers) && peerMap == old(peerMap) && statics == old(statics)
      ensures r.Err? <==> old(AddRefused(name, hasFactory, transport, true))
      ensures r.Err? ==> entries == old(entries) && names == old(names) && transports == old(transports)
      ensures r.Err? ==> r.error == if running then AlreadyRunning else InvalidArgument
      ensures r.Ok? ==> entries == old(entries) + [MultiPeer(r.value, name, transport.value, 0)]
      ensures r.Ok? ==> names == old(names)[name := r.value] && transport.value in transports
      ensures r.Ok? && |peers| <= 255 ==> Free(r.value, peerMap.Keys)
      ensures r.Ok? ==> !running && hasFactory && name !in old(names) && multi(transport.value)
    {
      hide Indexed, Kinds, HasEntry, Allocate, Nth, Free;
      if running { return Err(AlreadyRunning); }
      if !hasFactory || transport.None? || !multi(transport.value) { return Err(InvalidArgument); }
      var id := Fresh();
      if name in names { return Err(InvalidArgument); }
      KindsRegister(multi, peers, entries, statics, MultiPeer(id, name, transport.value, 0));
      entries := entries + [MultiPeer(id, name, transport.value, 0)];
      names := names[name := id];
      Track(transport.value);
      return Ok(id);
    }

    /** Allocation seen from a valid table. */
    method Fresh() returns (id: nat)
      requires Valid()
      modifies this`nextId
      ensures Valid() && id < ID_SPACE
      ensures id == Nth(old(nextId), Allocate(old(nextId), peerMap.Keys, TRIES))
      ensures |peers| <= 255 ==> Free(id, peerMap.Keys)
    {
      hide Allocate, Nth;
      id := NextPeerId();
      if |peers| <= 255 {
        FreshWithinBound(old(nextId), peerMap.Keys);
      }
    }

    /** Position of the entry that owns a transport, or the number of entries. */
    method FindEntry(t: Transport) returns (k: nat)
      ensures k <= |entries| && (k < |entries| <==> HasEntry(entries, t))
      ensures k < |entries| ==> entries[k].transport == t
    {
      k := 0;
      while k < |entries|
        invariant 0 <= k <= |entries|
        invariant forall i :: 0 <= i < k ==> entries[i].transport != t
      {
        if entries[k].transport == t { return; }
        k := k + 1;
      }
    }

    /** A single-peer transport reports a connection: only the endpoint of its peer changes. */
    method SingleConnected(t: Transport, endpoint: string) returns (id: nat)
      requires Valid()
      modifies peers
      ensures id != 0 <==> exists p <- peers :: p.transport == t
      ensures id != 0 ==> id in peerMap && peerMap[id].transport == t && peerMap[id].endpoint == endpoint
      ensures forall p <- peers :: p.connected == old(p.connected) && (p.id != id ==> p.endpoint == old(p.endpoint))
    {
      for i := 0 to |peers|
        invariant forall j :: 0 <= j < i ==> peers[j].transport != t
        invariant forall p <- peers :: unchanged(p)
      {
        if peers[i].transport == t {
          peers[i].endpoint := endpoint;
          return peers[i].id;
        }
      }
      return 0;
    }

    /** A client connects on a multi-peer transport: it gets a fresh id and a context of its own. */
    method ClientConnected(t: Transport, endpoint: string, sessionMade: bool) returns (id: nat)
      requires Valid()
      modifies this
      ensures running == old(running) && transports == old(transports) && statics == old(statics)
      ensures !HasEntry(old(entries), t) || !sessionMade ==>
        id == 0 && Valid() && SamePeers() && names == old(names)
      ensures HasEntry(old(entries), t) && sessionMade ==> (Valid() <==> Free(id, old(peerMap.Keys)))
      ensures HasEntry(old(entries), t) && sessionMade && |old(peers)| <= 255 ==> Free(id, old(peerMap.Keys))
      ensures HasEntry(old(entries), t) && sessionMade ==>
        && id == Nth(old(nextId), Allocate(old(nextId), old(peerMap.Keys), TRIES)) && statics == old(statics)
        && |peers| == |old(peers)| + 1 && peers[..|old(peers)|] == old(peers)
        && var p := peers[|old(peers)|];
           fresh(p) && p.id == id && p.transport == t && p.endpoint == endpoint && p.connected
           && peerMap == old(peerMap)[id := p] && names == old(names)[p.name := id] && Named(old(entries), entries, p)
    {
      hide Indexed, Kinds, Allocate, Nth, Free, HasEntry;
      var k := FindEntry(t);
      if k == |entries| { return 0; }
      EntryIsMulti(multi, peers, entries, statics, t);
      var next := Fresh();
      if !sessionMade { return 0; }
      id := next;
      var ctx := new PeerContext(id, ChildName(entries[k]), t, endpoint, true);
      Enter(ctx);
      CountChild(k);
      names := names[ctx.name := id];
    }

    method CountChild(k: nat)
      requires k < |entries|
      modifies this`entries
      ensures entries == old(entries)[k := Counted(old(entries)[k])] && (Valid() <==> old(Valid()))
    {
      hide Indexed, Kinds;
      var e := Counted(entries[k]);
      var counted := entries[k := e];
      if Kinds(multi, peers, entries, statics) { KindsCount(multi, peers, entries, statics, k, e); }
      if Kinds(multi, peers, counted, statics) { KindsCount(multi, peers, counted, statics, k, entries[k]); }
      assert counted[k := entries[k]] == entries;
      entries := counted;
    }

    /** A disconnect marks the peer and removes it exactly when it was not added statically. */
    method Disconnected(peer: nat)
      requires Valid()
      modifies this, peers
      ensures Valid() && running == old(running) && nextId == old(nextId)
      ensures statics == old(statics) && entries == old(entries) && transports == old(transports)
      ensures peer !in old(peerMap) ==> SamePeers() && names == old(names)
      ensures peer in old(peerMap) ==> !old(peerMap)[peer].connected
      ensures peer in old(peerMap) && old(peerMap)[peer] in statics ==> SamePeers() && names == old(names)
      ensures peer in old(peerMap) && old(peerMap)[peer] !in statics ==>
        && peerMap == old(peerMap) - {peer} && |peers| + 1 == |old(peers)|
        && (forall p :: p in peers <==> p in old(peers) && p != old(peerMap)[peer])
        && if peer in old(names).Values
           then exists n :: n in old(names) && old(names)[n] == peer && names == old(names) - {n}
           else names == old(names)
    {
      hide Indexed, Kinds, HasEntry;
      if peer !in peerMap { return; }
      var ctx := peerMap[peer];
      var i := Position(peer);
      ctx.connected := false;
      var k := FindEntry(ctx.transport);
      StaticIff(multi, peers, entries, statics, ctx);
      if k < |entries| {
        ForgetName(peer);
        Remove(i);
      }
    }

    method Position(peer: nat) returns (i: nat)
      requires Valid() && peer in peerMap
      ensures i < |peers| && peers[i] == peerMap[peer] && peerMap[peer].id == peer
    {
      hide Kinds;
      i := 0;
      assert peerMap[peer] in peers;
      while peers[i].id != peer
        invariant 0 <= i < |peers|
        invariant forall j :: 0 <= j < i ==> peers[j].id != peer
        decreases |peers| - i
      {
        assert exists j :: i < j < |peers| && peers[j] == peerMap[peer];
        i := i + 1;
      }
      assert peers[i] in peers;
    }

    /** Erases one name that leads to the peer, if there is any. */
    method ForgetName(peer: nat)
      modifies this`names
      ensures if peer in old(names).Values
        then exists n :: n in old(names) && old(names)[n] == peer && names == old(names) - {n}
        else names == old(names)
    {
      if exists n :: n in names && names[n] == peer {
        var n :| n in names && names[n] == peer;
        names := names - {n};
      }
    }

    method Remove(i: nat)
      requires Valid() && i < |peers| && peers[i] !in statics
      modifies this`peers, this`peerMap
      ensures Valid()
      ensures peers == Without(old(peers), i) && peerMap == old(peerMap) - {old(peers)[i].id}
      ensures forall p :: p in peers <==> p in old(peers) && p != old(peers)[i]
    {
      hide Indexed, Kinds, Without;
      IndexRemove(peers, peerMap, i);
      KindsRemove(multi, peers, entries, statics, Without(peers, i), peers[i]);
      peerMap := peerMap - {peers[i].id};
      peers := Without(peers, i);
    }

    // ------------------------------------------------------------------ whole runs

    /** Peers are old or new ones, at most one more than before, and no static peer is gone. */
    twostate predicate Grows(was: seq<PeerContext>, kept: set<PeerContext>)
      reads this
    {
      |peers| <= |was| + 1 && kept <= statics && forall p <- peers :: p in was || fresh(p)
    }

    method Perform(call: Call) returns (o: Outcome)
      requires Valid() && |peers| <= 255
      modifies this, peers
      ensures Valid() && Grows(old(peers), old(statics)) && Explains(call, o)
      ensures Possible(old(peerMap.Keys), o) && peerMap.Keys == After(old(peerMap.Keys), o)
      ensures call.Add? ==> (o.Entered? <==> !old(AddRefused(call.name, call.hasSession, call.transport, false)))
      ensures call.Connect? ==> (o.Entered? <==> multi(call.origin) && HasEntry(old(entries), call.origin) && call.sessionMade)
      ensures call.Disconnect? ==> (o.Left? <==> call.peer in old(peerMap) && old(peerMap)[call.peer] !in old(statics))
    {
      hide Indexed, Kinds, HasEntry, Allocate, Nth, Named;
      o := Unchanged;
      match call
      case Add(name, hasSession, transport) =>
        var r := AddPeer(name, hasSession, transport);
        if r.Ok? {
          OneMore(old(peers), peers);
          o := Entered(r.value);
        }
      case AddMulti(name, hasFactory, transport) =>
        var r := AddMultiPeer(name, hasFactory, transport);
      case SetRunning(on) =>
        running := on;
      case Connect(t, endpoint, sessionMade) =>
        if multi(t) {
          var id := ClientConnected(t, endpoint, sessionMade);
          if id != 0 {
            OneMore(old(peers), peers);
            o := Entered(id);
          }
        } else {
          var id := SingleConnected(t, endpoint);
        }
      case Disconnect(peer) =>
        var live := peer in peerMap;
        Disconnected(peer);
        o := if live && peer !in peerMap then Left(peer) else Unchanged;
    }

    /**
      Any list of calls, as far as 255 peers at most are live before each: every id is free when it is
      handed out, ids stay nonzero and distinct, the map is exact, and no static peer is ever lost.
     */
    method Replay(calls: seq<Call>) returns (os: seq<Outcome>)
      requires Valid() && |peers| <= 256
      modifies this, peers
      ensures Valid() && |os| <= |calls| && |peers| <= 256 && (|os| < |calls| ==> |peers| == 256)
      ensures forall i :: 0 <= i < |os| ==> Explains(calls[i], os[i])
      ensures Proper(old(peerMap.Keys), os) && peerMap.Keys == LiveAfter(old(peerMap.Keys), os)
      ensures old(statics) <= statics && forall p <- statics :: p in peers
      ensures forall p <- peers :: 0 < p.id < ID_SPACE && p.id in peerMap && peerMap[p.id] == p
      ensures forall i, j :: 0 <= i < j < |peers| ==> peers[i].id != peers[j].id
      ensures forall id <- peerMap :: peerMap[id] in peers && peerMap[id].id == id
    {
      hide HasEntry, After, Possible, Explains;
      os := [];
      while |os| < |calls| && |peers| <= 255
        invariant |os| <= |calls| && Valid() && |peers| <= 256 && old(statics) <= statics
        invariant forall p <- peers :: p in old(peers) || fresh(p)
        invariant forall i :: 0 <= i < |os| ==> Explains(calls[i], os[i])
        invariant Proper(old(peerMap.Keys), os) && peerMap.Keys == LiveAfter(old(peerMap.Keys), os)
        decreases |calls| - |os|
      {
        var o := Perform(calls[|os|]);
        ProperStep(old(peerMap.Keys), os, o);
        os := os + [o];
      }
    }
  }
}
