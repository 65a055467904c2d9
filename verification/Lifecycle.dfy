/**
 The life of TCP connections (`HostUStcp.cpp`, `Host.cpp`, `PeerUStcp.cpp`): sockets point at
 their peer, peers point back, and closing by either side ends in one release and one callback.
 Sockets and peers are named by numbers; closing a socket calls the close handler once.
 */
module Lifecycles {
  import opened Bits
  import opened FlushSets
  import opened PeerTables

  /** The pointers between open sockets and peers are inverse to each other. */
  ghost predicate Paired(ext: map<nat, nat>, socketHost: map<nat, nat>, closedSockets: set<nat>,
                         socketOf: map<nat, nat>)
  {
    && (forall s :: s in ext ==> s in socketHost && s !in closedSockets && ext[s] in socketOf && socketOf[ext[s]] == s)
    && (forall p :: p in socketOf ==> socketOf[p] in ext && ext[socketOf[p]] == p)
  }

  /** The peers with a socket are those with a handle; each sits in its slot and belongs to the host of its socket. */
  ghost predicate Housed(socketOf: map<nat, nat>, socketHost: map<nat, nat>, handleOf: map<nat, Handle>,
                         hostOf: map<nat, nat>,
                         peers: seq<Option<nat>>, hosts: nat)
  {
    && handleOf.Keys == socketOf.Keys
    && (forall p :: p in socketOf ==>
          && handleOf[p].id < |peers| && peers[handleOf[p].id] == Some(p)
          && p in hostOf && socketOf[p] in socketHost && hostOf[p] == socketHost[socketOf[p]])
    && (forall s :: s in socketHost ==> socketHost[s] < hosts)
  }

  /** One callback per released peer, at its release; exactly the peers without a handle have been released. */
  ghost predicate OncePerPeer(callbacks: seq<nat>, released: seq<nat>, nextPeer: nat, handleOf: map<nat, Handle>,
                              hostOf: map<nat, nat>)
  {
    && callbacks == released
    && (forall i, j :: 0 <= i < j < |released| ==> released[i] != released[j])
    && (forall p: nat :: p in released <==> p < nextPeer && p !in handleOf)
    && (forall p: nat :: p in handleOf || p in hostOf ==> p < nextPeer)
  }

  lemma AttachPaired(ext: map<nat, nat>, socketHost: map<nat, nat>, closedSockets: set<nat>, socketOf: map<nat, nat>,
                     s: nat, h: nat, p: nat)
    requires Paired(ext, socketHost, closedSockets, socketOf) && s !in ext && s !in closedSockets && p !in socketOf
    ensures Paired(ext[s := p], socketHost[s := h], closedSockets, socketOf[p := s])
  {
  }

  lemma DetachPaired(ext: map<nat, nat>, socketHost: map<nat, nat>, closedSockets: set<nat>, socketOf: map<nat, nat>,
                     p: nat, closed': set<nat>)
    requires Paired(ext, socketHost, closedSockets, socketOf)
    requires p in socketOf && closed' <= closedSockets + {socketOf[p]}
    ensures Paired(ext - {socketOf[p]}, socketHost, closed', socketOf - {p})
  {
  }

  lemma ClosedPaired(ext: map<nat, nat>, socketHost: map<nat, nat>, closedSockets: set<nat>, closed': set<nat>,
                     socketOf: map<nat, nat>)
    requires Paired(ext, socketHost, closedSockets, socketOf) && closed' - closedSockets !! ext.Keys
    ensures Paired(ext, socketHost, closed', socketOf)
  {
  }

  lemma AttachHoused(socketOf: map<nat, nat>, socketHost: map<nat, nat>, handleOf: map<nat, Handle>,
                     hostOf: map<nat, nat>,
                     peers: seq<Option<nat>>, peers': seq<Option<nat>>, hosts: nat, s: nat, h: nat, p: nat,
                     handle: Handle)
    requires Housed(socketOf, socketHost, handleOf, hostOf, peers, hosts)
    requires p !in socketOf && s !in socketHost && h < hosts && Placed(peers, peers', handle.id, p)
    ensures Housed(socketOf[p := s], socketHost[s := h], handleOf[p := handle], hostOf[p := h], peers', hosts)
  {
  }

  lemma DetachHoused(socketOf: map<nat, nat>, socketHost: map<nat, nat>, handleOf: map<nat, Handle>,
                     hostOf: map<nat, nat>,
                     peers: seq<Option<nat>>, hosts: nat, p: nat)
    requires Housed(socketOf, socketHost, handleOf, hostOf, peers, hosts) && p in socketOf
    ensures Housed(socketOf - {p}, socketHost, handleOf - {p}, hostOf, peers[handleOf[p].id := None], hosts)
  {
  }

  lemma AttachOnce(callbacks: seq<nat>, released: seq<nat>, nextPeer: nat, handleOf: map<nat, Handle>,
                   hostOf: map<nat, nat>, h: nat, handle: Handle)
    requires OncePerPeer(callbacks, released, nextPeer, handleOf, hostOf)
    ensures OncePerPeer(callbacks, released, nextPeer + 1, handleOf[nextPeer := handle], hostOf[nextPeer := h])
  {
  }

  /** The next peer number is unused, and an unknown socket points nowhere. */
  lemma Unused(ext: map<nat, nat>, socketHost: map<nat, nat>, closedSockets: set<nat>, socketOf: map<nat, nat>,
               handleOf: map<nat, Handle>,
               hostOf: map<nat, nat>, peers: seq<Option<nat>>, hosts: nat, callbacks: seq<nat>, released: seq<nat>,
               nextPeer: nat, s: nat)
    requires Paired(ext, socketHost, closedSockets, socketOf)
    requires Housed(socketOf, socketHost, handleOf, hostOf, peers, hosts)
    requires OncePerPeer(callbacks, released, nextPeer, handleOf, hostOf)
    ensures nextPeer !in handleOf && nextPeer !in hostOf && nextPeer !in socketOf
    ensures s !in socketHost ==> s !in ext
  {
    assert nextPeer in socketOf ==> nextPeer in socketOf.Keys;
  }

  lemma DetachOnce(callbacks: seq<nat>, released: seq<nat>, nextPeer: nat, handleOf: map<nat, Handle>,
                   hostOf: map<nat, nat>, p: nat)
    requires OncePerPeer(callbacks, released, nextPeer, handleOf, hostOf) && p in handleOf
    ensures OncePerPeer(callbacks + [p], released + [p], nextPeer, handleOf - {p}, hostOf)
  {
    assert p !in released;
  }

  /** What the socket library and the application can make happen. */
  datatype Event =
    | Accept(socket: nat, host: nat)
    | Connect(socket: nat, host: nat)
    | Opened(socket: nat)
    | Closed(socket: nat)
    | End(socket: nat)
    | Timeout(socket: nat, established: bool, shutDown: bool)
    | LongTimeout(socket: nat)
    | Disconnect(handle: Handle)
    | DisconnectHost(host: nat)

  /**
   What a run is judged by: which sockets point at which peers, the peers of the hosts, which peers are
   ready, disconnecting, closed and shared, and the callbacks made.
   */
  datatype Snapshot = Snapshot(ext: map<nat, nat>, socketOf: map<nat, nat>, socketHost: map<nat, nat>,
                               closedSockets: set<nat>,
                               handleOf: map<nat, Handle>, hostPeers: seq<seq<nat>>, nextPeer: nat, callbacks: seq<nat>,
                               ready: set<nat>, disconnecting: set<nat>, closed: set<nat>, shared: set<nat>)

  /**
   `p` left host `h`: one more callback, it is disconnecting and closed, its socket points nowhere, its
   handle is forgotten, its host lists it no more.
   */
  ghost predicate Detached(a: Snapshot, p: nat, h: nat, b: Snapshot) {
    && b.callbacks == a.callbacks + [p]
    && b.ready == a.ready && b.disconnecting == a.disconnecting + {p} && b.closed == a.closed + {p}
    && b.shared == a.shared - {p}
    && p in a.socketOf && b.ext == a.ext - {a.socketOf[p]} && b.socketOf == a.socketOf - {p}
    && b.handleOf == a.handleOf - {p}
    && b.socketHost == a.socketHost && b.nextPeer == a.nextPeer
    && Delisted(a.hostPeers, p, h, b.hostPeers)
  }

  /** Only the array of host `h` changed: it does not list `p` any more. */
  ghost predicate Delisted(before: seq<seq<nat>>, p: nat, h: nat, after: seq<seq<nat>>) {
    && h < |before| && |after| == |before|
    && Members(after[h]) == Members(before[h]) - {p}
    && forall g :: 0 <= g < |before| && g != h ==> after[g] == before[g]
  }

  /** Nothing but which sockets are closed changed. */
  ghost predicate Untouched(a: Snapshot, b: Snapshot) {
    b == a.(closedSockets := b.closedSockets)
  }

  /** The pointers of the sockets whose peer is not among `ps`. */
  ghost function Without(ext: map<nat, nat>, ps: seq<nat>): (r: map<nat, nat>) {
    map s | s in ext && ext[s] !in ps :: ext[s]
  }

  /** The sockets of the peers `ps`. */
  ghost function SocketsOf(socketOf: map<nat, nat>, ps: seq<nat>): (r: set<nat>) {
    set p | p in ps && p in socketOf :: socketOf[p]
  }

  /** The arrays of the hosts lost the peers `ps`; an array without any of them is as it was. */
  ghost predicate Thinned(before: seq<seq<nat>>, ps: seq<nat>, after: seq<seq<nat>>) {
    && |after| == |before|
    && forall h :: 0 <= h < |before| ==>
         && Members(after[h]) == Members(before[h]) - Members(ps)
         && (Members(before[h]) !! Members(ps) ==> after[h] == before[h])
  }

  /**
   The peers `ps` left, in this order: one callback each, they are disconnecting and closed, their
   sockets and those in `shut` are closed, and nothing of them stays; nobody else changed.
   */
  ghost predicate Left(a: Snapshot, ps: seq<nat>, shut: set<nat>, b: Snapshot) {
    && b.callbacks == a.callbacks + ps && b.ready == a.ready
    && b.disconnecting == a.disconnecting + Members(ps) && b.closed == a.closed + Members(ps)
    && b.shared == a.shared - Members(ps)
    && b.ext == Without(a.ext, ps) && b.socketOf == a.socketOf - Members(ps) && b.handleOf == a.handleOf - Members(ps)
    && b.socketHost == a.socketHost && b.nextPeer == a.nextPeer
    && b.closedSockets == a.closedSockets + SocketsOf(a.socketOf, ps) + shut
    && Thinned(a.hostPeers, ps, b.hostPeers)
  }

  lemma DetachedLeft(a: Snapshot, p: nat, h: nat, shut: set<nat>, b: Snapshot)
    requires Detached(a, p, h, b) && Paired(a.ext, a.socketHost, {}, a.socketOf)
    requires b.closedSockets == a.closedSockets + {a.socketOf[p]} + shut
    requires forall g :: 0 <= g < |a.hostPeers| ==> (p in Members(a.hostPeers[g]) <==> g == h)
    ensures Left(a, [p], shut, b)
  {
    assert Members([p]) == {p};
    assert SocketsOf(a.socketOf, [p]) == {a.socketOf[p]} by { assert p in [p]; }
    assert b.ext == Without(a.ext, [p]);
    DetachedThinned(a, p, h, b);
    hide Thinned;
  }

  lemma DetachedThinned(a: Snapshot, p: nat, h: nat, b: Snapshot)
    requires Detached(a, p, h, b) && forall g :: 0 <= g < |a.hostPeers| ==> (p in Members(a.hostPeers[g]) <==> g == h)
    ensures Thinned(a.hostPeers, [p], b.hostPeers)
  {
    assert Members([p]) == {p};
    hide Members;
  }

  lemma UntouchedLeft(a: Snapshot, shut: set<nat>, b: Snapshot)
    requires Untouched(a, b) && b.closedSockets == a.closedSockets + shut
    ensures Left(a, [], shut, b)
  {
    assert Without(a.ext, []) == a.ext;
    assert Members([]) == {} && SocketsOf(a.socketOf, []) == {};
  }

  lemma LeftMore(a: Snapshot, ps: seq<nat>, b: Snapshot, p: nat, c: Snapshot)
    requires Left(a, ps, {}, b) && Left(b, [p], {}, c)
    ensures Left(a, ps + [p], {}, c)
  {
    assert Without(b.ext, [p]) == Without(a.ext, ps + [p]);
    assert Members(ps + [p]) == Members(ps) + Members([p]);
    MoreSockets(a.socketOf, ps, b.socketOf, p);
    ThinnedMore(a.hostPeers, ps, b.hostPeers, p, c.hostPeers);
    hide Thinned, Members, Without, SocketsOf;
    assert b.handleOf - Members([p]) == a.handleOf - Members(ps + [p]);
    assert b.socketOf - Members([p]) == a.socketOf - Members(ps + [p]);
  }

  lemma MoreSockets(socketOf: map<nat, nat>, ps: seq<nat>, socketOf': map<nat, nat>, p: nat)
    requires socketOf' == socketOf - Members(ps)
    ensures SocketsOf(socketOf, ps) + SocketsOf(socketOf', [p]) == SocketsOf(socketOf, ps + [p])
  {
    forall q | q in ps + [p] && q in socketOf
      ensures socketOf[q] in SocketsOf(socketOf, ps) + SocketsOf(socketOf', [p])
    {
      if q !in ps {
        assert q in [p] && q in socketOf';
      }
    }
    forall q | (q in ps && q in socketOf) || (q in [p] && q in socketOf')
      ensures socketOf[q] in SocketsOf(socketOf, ps + [p])
    {
      assert q in ps + [p];
    }
  }

  lemma ThinnedMore(a: seq<seq<nat>>, ps: seq<nat>, b: seq<seq<nat>>, p: nat, c: seq<seq<nat>>)
    requires Thinned(a, ps, b) && Thinned(b, [p], c)
    ensures Thinned(a, ps + [p], c)
  {
    assert Members(ps + [p]) == Members(ps) + Members([p]);
    hide Members;
  }

  /** The event brings a new connection: a known host and a socket the library has not reported before. */
  ghost predicate Opens(a: Snapshot, e: Event) {
    (e.Accept? || e.Connect?) && e.host < |a.hostPeers| && e.socket !in a.socketHost && e.socket !in a.closedSockets
  }

  /**
   The new connection got the next peer, which is the last of its host and is ready if it was accepted;
   nobody else changed.
   */
  ghost predicate Joined(a: Snapshot, s: nat, h: nat, accepted: bool, b: Snapshot) {
    && b.callbacks == a.callbacks && b.nextPeer == a.nextPeer + 1
    && b.ready == a.ready + (if accepted then {a.nextPeer} else {})
    && b.disconnecting == a.disconnecting && b.closed == a.closed && b.shared == a.shared + {a.nextPeer}
    && b.ext == a.ext[s := a.nextPeer] && b.socketHost == a.socketHost[s := h]
    && b.socketOf == a.socketOf[a.nextPeer := s] && b.closedSockets == a.closedSockets
    && a.nextPeer in b.handleOf && b.handleOf == a.handleOf[a.nextPeer := b.handleOf[a.nextPeer]]
    && h < |a.hostPeers| && b.hostPeers == a.hostPeers[h := a.hostPeers[h] + [a.nextPeer]]
  }

  /** The peers that event `e` makes ready: an accepted one, or the one whose socket is established. */
  ghost function Readies(a: Snapshot, e: Event): (r: set<nat>) {
    if e.Accept? && Opens(a, e) then {a.nextPeer}
    else if e.Opened? && e.socket in a.ext then {a.ext[e.socket]}
    else {}
  }

  /** The peers that event `e` finishes. */
  ghost predicate Finishes(a: Snapshot, e: Event, ps: seq<nat>) {
    match e
    case Accept(_, _) => ps == []
    case Connect(_, _) => ps == []
    case Opened(_) => ps == []
    case Closed(s) => ps == if s in a.ext then [a.ext[s]] else []
    case End(s) => ps == if s in a.ext then [a.ext[s]] else []
    case Timeout(s, _, _) => ps == if s in a.ext then [a.ext[s]] else []
    case LongTimeout(s) => ps == if s in a.ext then [a.ext[s]] else []
    case Disconnect(handle) =>
      && (forall p :: p in a.handleOf && a.handleOf[p] == handle ==> ps == [p])
      && ((forall p :: p in a.handleOf ==> a.handleOf[p] != handle) ==> ps == [])
    case DisconnectHost(h) => ps == if h < |a.hostPeers| then a.hostPeers[h] else []
  }

  /** The sockets that event `e` closes whether or not they have a peer. */
  ghost function Shuts(e: Event): (r: set<nat>) {
    if e.Closed? || e.Timeout? then {e.socket} else {}
  }

  /**
   The protocol: a new connection joins, an established one becomes ready, and any other event finishes
   exactly the peers it is about.
   */
  ghost predicate Stepped(a: Snapshot, e: Event, b: Snapshot) {
    if Opens(a, e) then Joined(a, e.socket, e.host, e.Accept?, b)
    else if e.Opened? then
      b == a.(ready := a.ready + if e.socket in a.ext then {a.ext[e.socket]} else {})
    else exists ps :: Finishes(a, e, ps) && Left(a, ps, Shuts(e), b)
  }

  ghost predicate Traced(trace: seq<Snapshot>, events: seq<Event>) {
    |trace| == |events| + 1 && forall i :: 0 <= i < |events| ==> Stepped(trace[i], events[i], trace[i + 1])
  }

  /**
   Callbacks are never withdrawn, peer numbers never reused, and every peer met on the way got its
   own callback or is still there.
   */
  lemma {:induction false} EveryTrace(trace: seq<Snapshot>, events: seq<Event>)
    requires Traced(trace, events)
    ensures trace[0].callbacks <= trace[|events|].callbacks && trace[0].nextPeer <= trace[|events|].nextPeer
    ensures forall p :: p in trace[0].handleOf && p !in trace[|events|].handleOf ==> p in trace[|events|].callbacks
  {
    var n := |events| - 1;
    if n >= 0 {
      EveryTrace(trace[..n + 1], events[..n]);
      hide Traced, Opens, Finishes, Thinned, SocketsOf;
      var b, c := trace[n], trace[n + 1];
      assert Stepped(b, events[n], c);
      if !Opens(b, events[n]) && !events[n].Opened? {
        var ps :| Finishes(b, events[n], ps) && Left(b, ps, Shuts(events[n]), c);
        forall p | p in b.handleOf && p !in c.handleOf
          ensures p in c.callbacks
        {
          assert p in ps;
        }
      }
    }
  }

  /** Only the events that should make a peer ready do. */
  lemma ReadyStep(a: Snapshot, e: Event, b: Snapshot)
    requires Stepped(a, e, b)
    ensures b.ready == a.ready + Readies(a, e)
  {
    hide Thinned, SocketsOf, Without, Finishes;
  }

  /**
   Over every run a peer is ready if and only if it was at the start, or was accepted, or an `Opened`
   event found its socket pointing at it.
   */
  lemma {:induction false} ReadyExactly(trace: seq<Snapshot>, events: seq<Event>, k: nat, p: nat)
    requires Traced(trace, events) && k <= |events|
    ensures p in trace[k].ready <==>
              p in trace[0].ready || exists i :: 0 <= i < k && p in Readies(trace[i], events[i])
    decreases k
  {
    if k > 0 {
      hide Stepped, Readies;
      ReadyExactly(trace, events, k - 1, p);
      ReadyStep(trace[k - 1], events[k - 1], trace[k]);
    }
  }

  /**
   Exactly the peers that got their callback are disconnecting and closed, and exactly those with a
   socket are shared.
   */
  ghost predicate GoneExactly(a: Snapshot) {
    a.disconnecting == Members(a.callbacks) && a.closed == Members(a.callbacks) && a.shared == a.socketOf.Keys
  }

  lemma {:induction false} EveryoneGone(trace: seq<Snapshot>, events: seq<Event>, k: nat)
    requires Traced(trace, events) && k <= |events| && GoneExactly(trace[0])
    ensures GoneExactly(trace[k])
    decreases k
  {
    if k > 0 {
      EveryoneGone(trace, events, k - 1);
      hide Traced;
      GoneStep(trace[k - 1], events[k - 1], trace[k]);
    }
  }

  lemma GoneStep(a: Snapshot, e: Event, b: Snapshot)
    requires Stepped(a, e, b) && GoneExactly(a)
    ensures GoneExactly(b)
  {
    hide Thinned, SocketsOf, Without, Finishes;
    if !Opens(a, e) && !e.Opened? {
      var ps :| Finishes(a, e, ps) && Left(a, ps, Shuts(e), b);
      assert Members(a.callbacks + ps) == Members(a.callbacks) + Members(ps);
    }
  }

  /** Where every run starts. */
  ghost function NoConnections(hosts: nat): (r: Snapshot) {
    Snapshot(map[], map[], map[], {}, map[], seq(hosts, _ => []), 0, [], {}, {}, {}, {})
  }

  class Hosts {
    const tables: PeerManager<nat>
    /** The peer pointer stored in each socket that has one. */
    var ext: map<nat, nat>
    /** The host of each socket. */
    var socketHost: map<nat, nat>
    var closedSockets: set<nat>
    /** The socket of each peer that has one. */
    var socketOf: map<nat, nat>
    var nextPeer: nat
    var ready: set<nat>
    var disconnecting: set<nat>
    var closed: set<nat>
    /** The peers whose `sharedPeer` is set. */
    var shared: set<nat>

    /** The peers whose disconnect callback was invoked, and those released from the tables, in order. */
    ghost var callbacks: seq<nat>
    ghost var released: seq<nat>

    ghost function Snap(): (r: Snapshot)
      reads this, tables
    {
      Snapshot(ext, socketOf, socketHost, closedSockets, tables.handleOf, tables.hostPeers, nextPeer, callbacks, ready,
               disconnecting, closed, shared)
    }

    ghost predicate Valid()
      reads this, tables, tables.peersToFlush
    {
      ValidBut({})
    }

    /** The state while the sockets in `closing` are marked closed but have not run their close handler. */
    ghost predicate ValidBut(closing: set<nat>)
      reads this, tables, tables.peersToFlush
    {
      && tables.Valid()
      && Paired(ext, socketHost, closedSockets - closing, socketOf)
      && Housed(socketOf, socketHost, tables.handleOf, tables.hostOf, tables.peers, |tables.hostPeers|)
      && OncePerPeer(callbacks, released, nextPeer, tables.handleOf, tables.hostOf)
    }

    constructor (hosts: nat)
      ensures Valid() && fresh(tables) && fresh(tables.peersToFlush) && callbacks == [] && |tables.hostPeers| == hosts
      ensures Snap() == NoConnections(hosts)
    {
      tables := new PeerManager<nat>(hosts);
      ext, socketHost, closedSockets, socketOf := map[], map[], {}, map[];
      nextPeer, ready, disconnecting, closed, shared := 0, {}, {}, {}, {};
      callbacks, released := [], [];
    }

    /** `MakePeer` for a new socket, with the socket's pointer set: an accepted or a connecting connection. */
    method Attach(s: nat, h: nat) returns (p: nat)
      requires Valid() && h < |tables.hostPeers| && s !in socketHost && s !in closedSockets
      modifies this, tables
      ensures Valid() && p == old(nextPeer) && Joined(old(Snap()), s, h, false, Snap())
    {
      hide PeerManager.Valid, Paired, Housed, OncePerPeer, Placed, Extended, Drawn, PeerManager.GetLocalPeerData;
      Unused(ext, socketHost, closedSockets - {}, socketOf, tables.handleOf, tables.hostOf, tables.peers,
             |tables.hostPeers|, callbacks, released, nextPeer, s);
      p := nextPeer;
      nextPeer := nextPeer + 1;
      assert closedSockets - {} == closedSockets;
      AttachPaired(ext, socketHost, closedSockets, socketOf, s, h, p);
      var handle := AllocFor(h, p);
      AttachHoused(socketOf, socketHost, old(tables.handleOf), old(tables.hostOf), old(tables.peers), tables.peers,
                   |tables.hostPeers|, s, h, p, handle);
      AttachOnce(callbacks, released, p, old(tables.handleOf), old(tables.hostOf), h, handle);
      socketHost := socketHost[s := h];
      socketOf := socketOf[p := s];
      ext := ext[s := p];
      shared := shared + {p};
    }

    /** A slot and a handle for a new peer. */
    method AllocFor(h: nat, p: nat) returns (handle: Handle)
      requires tables.Valid() && h < |tables.hostPeers| && p !in tables.handleOf && p !in tables.hostOf
      modifies tables
      ensures tables.Valid() && Placed(old(tables.peers), tables.peers, handle.id, p)
      ensures tables.handleOf == old(tables.handleOf)[p := handle] && tables.hostOf == old(tables.hostOf)[p := h]
      ensures tables.hostPeers == old(tables.hostPeers)[h := old(tables.hostPeers)[h] + [p]]
    {
      hide PeerManager.Valid, Placed, Extended, Drawn;
      handle := tables.Alloc(h, p);
    }

    /** What a connected peer `p` and its socket look like from the tables. */
    lemma Connected(p: nat, closing: set<nat>)
      requires ValidBut(closing) && p in socketOf
      ensures |tables.peers| == |tables.versions| && p in tables.handleOf
      ensures tables.GetLocalPeerData(tables.handleOf[p]) == Some(p)
      ensures p in tables.hostOf && socketOf[p] in socketHost
      ensures tables.hostOf[p] == socketHost[socketOf[p]] < |tables.hostPeers|
      ensures socketOf[p] in ext && ext[socketOf[p]] == p
    {
      assert p in tables.handleOf.Keys;
      hide Linked, FreeExactly, Logged, Inverse, PeerManager.FlushLive;
    }

    lemma SocketPeer(s: nat, closing: set<nat>)
      requires ValidBut(closing) && s in ext
      ensures ext[s] in socketOf && socketOf[ext[s]] == s
    {
    }

    /** The peer a handle resolves to is connected and keeps that handle. */
    lemma ResolvedPeer(handle: Handle, closing: set<nat>)
      requires ValidBut(closing) && |tables.peers| == |tables.versions| && tables.GetLocalPeerData(handle).Some?
      ensures var p := tables.GetLocalPeerData(handle).value;
              p in socketOf && p in tables.handleOf && tables.handleOf[p] == handle
    {
      var p := tables.GetLocalPeerData(handle).value;
      assert p in tables.handleOf.Keys;
      hide Linked, FreeExactly, Logged, Inverse, PeerManager.FlushLive;
    }

    /** `Host::_Internal_on_close_Finish`: callback, release, detach; `broken` when the handle does not resolve. */
    method OnCloseFinish(h: nat, handle: Handle, ghost closing: set<nat>) returns (broken: bool)
      requires ValidBut(closing) && h < |tables.hostPeers| && |tables.peers| == |tables.versions|
      requires tables.GetLocalPeerData(handle).Some? ==>
                 var p := tables.GetLocalPeerData(handle).value;
                 p in tables.hostOf && tables.hostOf[p] == h && p in socketOf && closing <= {socketOf[p]}
      modifies this, tables, tables.peersToFlush
      ensures broken <==> old(tables.GetLocalPeerData(handle)).None?
      ensures broken ==> ValidBut(closing) && Snap() == old(Snap())
      ensures !broken ==> Valid() && Detached(old(Snap()), old(tables.GetLocalPeerData(handle)).value, h, Snap())
      ensures closedSockets == old(closedSockets)
    {
      hide PeerManager.Valid, Paired, Housed, OncePerPeer, Members, Detached;
      var data := tables.GetLocalPeerData(handle);
      if data.None? {
        return true;
      }
      ResolvedPeer(handle, closing);
      FinishPeer(h, handle, data.value, closing);
      return false;
    }

    /** Callback, release and detach of a connected peer. */
    method FinishPeer(h: nat, handle: Handle, p: nat, ghost closing: set<nat>)
      requires ValidBut(closing) && h < |tables.hostPeers| && |tables.peers| == |tables.versions|
      requires tables.GetLocalPeerData(handle) == Some(p) && p in tables.handleOf && tables.handleOf[p] == handle
      requires p in tables.hostOf && tables.hostOf[p] == h && p in socketOf && closing <= {socketOf[p]}
      modifies this, tables, tables.peersToFlush
      ensures Valid() && Detached(old(Snap()), p, h, Snap()) && closedSockets == old(closedSockets)
    {
      hide PeerManager.Valid, Paired, Housed, OncePerPeer, Delisted, PeerManager.GetLocalPeerData;
      DetachPaired(ext, socketHost, closedSockets - closing, socketOf, p, closedSockets - {});
      DetachHoused(socketOf, socketHost, tables.handleOf, tables.hostOf, tables.peers, |tables.hostPeers|, p);
      DetachOnce(callbacks, released, nextPeer, tables.handleOf, tables.hostOf, p);
      disconnecting := disconnecting + {p};
      callbacks := callbacks + [p];
      ReleasePeer(h, handle, p);
      released := released + [p];
      ClearOnClose(p);
    }

    /** `_InternalClearInternalDataOnClose`: the peer is marked closed, and it and its socket forget each other. */
    method ClearOnClose(p: nat)
      requires p in socketOf
      modifies this`closed, this`shared, this`ext, this`socketOf
      ensures closed == old(closed) + {p} && shared == old(shared) - {p}
      ensures ext == old(ext) - {old(socketOf)[p]} && socketOf == old(socketOf) - {p}
    {
      closed := closed + {p};
      shared := shared - {p};
      ext := ext - {socketOf[p]};
      socketOf := socketOf - {p};
    }

    /** Takes a peer out of the tables for good. */
    method ReleasePeer(h: nat, handle: Handle, p: nat)
      requires tables.Valid() && h < |tables.hostPeers| && |tables.peers| == |tables.versions|
      requires tables.GetLocalPeerData(handle) == Some(p) && p in tables.hostOf && tables.hostOf[p] == h
      modifies tables, tables.peersToFlush
      ensures tables.Valid() && tables.hostOf == old(tables.hostOf) && tables.handleOf == old(tables.handleOf) - {p}
      ensures tables.peers == old(tables.peers)[handle.id := None] && |tables.hostPeers| == old(|tables.hostPeers|)
      ensures Delisted(old(tables.hostPeers), p, h, tables.hostPeers)
    {
      NotElsewhere(handle);
      NoRepeats(h);
      hide PeerManager.Valid;
      ghost var mine := tables.hostPeers[h];
      var data := tables.Release(h, handle);
      HostWithout(mine, tables.hostPeers[h], p);
      tables.ForgetHandle(p);
    }

    /** No other slot holds the peer a handle resolves to. */
    lemma NotElsewhere(handle: Handle)
      requires tables.Valid() && |tables.peers| == |tables.versions| && tables.GetLocalPeerData(handle).Some?
      ensures forall id :: 0 <= id < |tables.peers| && tables.peers[id] == tables.GetLocalPeerData(handle) ==>
                id == handle.id
    {
      hide Linked, FreeExactly, Logged, Inverse, PeerManager.FlushLive;
    }

    lemma NoRepeats(h: nat)
      requires tables.Valid() && h < |tables.hostPeers|
      ensures forall j, k :: 0 <= j < k < |tables.hostPeers[h]| ==> tables.hostPeers[h][j] != tables.hostPeers[h][k]
    {
      var t := tables;
      forall j, k | 0 <= j < k < |t.hostPeers[h]|
        ensures t.hostPeers[h][j] != t.hostPeers[h][k]
      {
        assert Listed(t.peers, t.perHostOffset, Ids(t.handleOf), t.hostOf, t.hostPeers[h][j], h, j);
        assert Listed(t.peers, t.perHostOffset, Ids(t.handleOf), t.hostOf, t.hostPeers[h][k], h, k);
      }
    }

    static lemma HostWithout(before: seq<nat>, after: seq<nat>, p: nat)
      requires forall j, k :: 0 <= j < k < |before| ==> before[j] != before[k]
      requires exists k :: 0 <= k < |before| && before[k] == p && after == SwapRemove(before, k)
      ensures Members(after) == Members(before) - {p}
    {
      var k :| 0 <= k < |before| && before[k] == p && after == SwapRemove(before, k);
      SwapRemoveMembers(before, k);
    }

    /** The close handler, run by the socket library for a socket it has just marked closed. */
    method OnClose(s: nat) returns (broken: bool)
      requires ValidBut({s})
      modifies this, tables, tables.peersToFlush
      ensures Valid() && !broken
      ensures s !in old(ext) ==> Untouched(old(Snap()), Snap())
      ensures s in old(ext) ==> s in old(socketHost) && Detached(old(Snap()), old(ext)[s], old(socketHost)[s], Snap())
      ensures closedSockets == old(closedSockets)
    {
      if s !in ext {
        ClosedPaired(ext, socketHost, closedSockets - {s}, closedSockets - {}, socketOf);
        return false;
      }
      var p := ext[s];
      SocketPeer(s, {s});
      Connected(p, {s});
      hide PeerManager.Valid, Paired, Housed, OncePerPeer, Members, Detached;
      broken := OnCloseFinish(socketHost[s], tables.handleOf[p], {s});
    }

    /** `us_socket_close`: runs the close handler unless the socket is closed already. */
    method SocketClose(s: nat) returns (broken: bool)
      requires Valid()
      modifies this, tables, tables.peersToFlush
      ensures Valid() && !broken
      ensures s !in old(ext) ==> Untouched(old(Snap()), Snap())
      ensures s in old(ext) ==> s in old(socketHost) && Detached(old(Snap()), old(ext)[s], old(socketHost)[s], Snap())
      ensures closedSockets == old(closedSockets) + {s}
    {
      if s in closedSockets {
        assert s !in ext;
        return false;
      }
      hide PeerManager.Valid, Paired, Housed, OncePerPeer, Members, Detached, Untouched;
      assert closedSockets + {s} - {s} == closedSockets - {};
      closedSockets := closedSockets + {s};
      broken := OnClose(s);
    }

    /** Marking a peer as disconnecting before it is finished makes no difference. */
    static lemma MarkedDetached(a: Snapshot, p: nat, h: nat, d: set<nat>, b: Snapshot)
      requires a.disconnecting <= d <= a.disconnecting + {p} && Detached(a.(disconnecting := d), p, h, b)
      ensures Detached(a, p, h, b)
    {
      assert d + {p} == a.disconnecting + {p};
    }

    /** `uS::tcp::Peer::_InternalDisconnect`. */
    method InternalDisconnect(p: nat) returns (broken: bool)
      requires Valid()
      modifies this, tables, tables.peersToFlush
      ensures Valid() && !broken
      ensures p !in old(socketOf) ==>
                var marked := if p in old(shared) then {p} else {};
                Snap() == old(Snap()).(disconnecting := old(disconnecting) + marked, closed := old(closed) + marked)
      ensures p in old(socketOf) ==>
                var s := old(socketOf)[p];
                s in old(socketHost) && Detached(old(Snap()), p, old(socketHost)[s], Snap()) &&
                closedSockets == old(closedSockets) + {s}
    {
      hide PeerManager.Valid, Paired, Housed, OncePerPeer, Members, Detached;
      broken := false;
      ghost var a := Snap();
      if p in shared {
        disconnecting := disconnecting + {p};
      }
      if p in socketOf {
        Connected(p, {});
        ghost var h, d := socketHost[socketOf[p]], disconnecting;
        broken := SocketClose(socketOf[p]);
        MarkedDetached(a, p, h, d, Snap());
      } else if p in shared {
        closed := closed + {p};
      }
    }

    /** The other side ended the connection: the peer is finished first, then the socket is closed. */
    method OnEnd(s: nat) returns (broken: bool)
      requires Valid()
      modifies this, tables, tables.peersToFlush
      ensures Valid() && !broken
      ensures s !in old(ext) ==> Untouched(old(Snap()), Snap())
      ensures s in old(ext) ==> s in old(socketHost) && Detached(old(Snap()), old(ext)[s], old(socketHost)[s], Snap())
      ensures closedSockets == old(closedSockets) + if s in old(ext) then {s} else {}
    {
      hide PeerManager.Valid, Paired, Housed, OncePerPeer, Members;
      if s !in ext {
        return false;
      }
      var p := ext[s];
      SocketPeer(s, {});
      Connected(p, {});
      broken := OnCloseFinish(socketHost[s], tables.handleOf[p], {});
      var again := SocketClose(s);
      broken := broken || again;
    }

    /** A timeout disconnects the peer; a socket that is not established or already shut down is closed as well. */
    method OnTimeout(s: nat, established: bool, shutDown: bool) returns (broken: bool)
      requires Valid()
      modifies this, tables, tables.peersToFlush
      ensures Valid() && !broken
      ensures s !in old(ext) ==> Untouched(old(Snap()), Snap())
      ensures s in old(ext) ==> s in old(socketHost) && Detached(old(Snap()), old(ext)[s], old(socketHost)[s], Snap())
      ensures closedSockets == old(closedSockets) + {s}
    {
      hide PeerManager.Valid, Paired, Housed, OncePerPeer, Members;
      broken := false;
      var peer := if s in ext then Some(ext[s]) else None;
      if peer.Some? {
        SocketPeer(s, {});
        broken := InternalDisconnect(peer.value);
      }
      if !established || peer.None? {
        var b := SocketClose(s);
        return broken || b;
      }
      if shutDown {
        var b := SocketClose(s);
        return broken || b;
      }
    }

    /** The client side of `_Internal_on_open`: the connecting peer becomes ready. */
    method OnOpened(s: nat) returns (broken: bool)
      requires Valid() && s in ext
      modifies this`ready
      ensures Valid() && !broken && Snap() == old(Snap()).(ready := old(ready) + {ext[s]})
    {
      hide PeerManager.Valid, Paired, Housed, OncePerPeer, Members;
      var p := ext[s];
      SocketPeer(s, {});
      Connected(p, {});
      broken := OpenFinish(tables.handleOf[p]);
    }

    method OpenFinish(handle: Handle) returns (broken: bool)
      requires |tables.peers| == |tables.versions|
      modifies this`ready
      ensures broken <==> tables.GetLocalPeerData(handle).None?
      ensures ready == old(ready) + if broken then {} else {tables.GetLocalPeerData(handle).value}
    {
      var data := tables.GetLocalPeerData(handle);
      if data.None? {
        return true;
      }
      ready := ready + {data.value};
      return false;
    }

    /** Disconnecting every peer of a host leaves that host without peers. */
    method DisconnectAll(h: nat) returns (broken: bool)
      requires Valid() && h < |tables.hostPeers|
      modifies this, tables, tables.peersToFlush
      ensures Valid() && !broken && |tables.hostPeers| == old(|tables.hostPeers|) && tables.hostPeers[h] == []
      ensures Left(old(Snap()), old(tables.hostPeers)[h], {}, Snap())
    {
      hide Valid, Members, Detached, Untouched, Left;
      var copy := tables.hostPeers[h];
      NoRepeatsValid(h);
      broken := false;
      assert copy[0..] == copy && copy[..0] == [];
      assert closedSockets == closedSockets + {};
      UntouchedLeft(Snap(), {}, Snap());
      for i := 0 to |copy|
        invariant Valid() && !broken && |tables.hostPeers| == old(|tables.hostPeers|)
        invariant Members(tables.hostPeers[h]) == Members(copy[i..])
        invariant Left(old(Snap()), copy[..i], {}, Snap())
      {
        FirstMember(copy, i);
        ghost var before := Snap();
        var b := DisconnectListed(h, copy[i]);
        LeftMore(old(Snap()), copy[..i], before, copy[i], Snap());
        broken := broken || b;
      }
      assert copy[..|copy|] == copy && copy[|copy|..] == [];
      NoMembers(tables.hostPeers[h]);
    }

    method DisconnectListed(h: nat, p: nat) returns (broken: bool)
      requires Valid() && h < |tables.hostPeers| && p in Members(tables.hostPeers[h])
      modifies this, tables, tables.peersToFlush
      ensures Valid() && !broken && |tables.hostPeers| == old(|tables.hostPeers|)
      ensures Members(tables.hostPeers[h]) == old(Members(tables.hostPeers[h])) - {p}
      ensures Left(old(Snap()), [p], {}, Snap())
    {
      hide Valid, Members, Left;
      HostMember(h, p);
      OneHost(p);
      OpenPaired();
      broken := InternalDisconnect(p);
      DetachedLeft(old(Snap()), p, h, {}, Snap());
    }

    lemma NoRepeatsValid(h: nat)
      requires Valid() && h < |tables.hostPeers|
      ensures forall j, k :: 0 <= j < k < |tables.hostPeers[h]| ==> tables.hostPeers[h][j] != tables.hostPeers[h][k]
    {
      NoRepeats(h);
    }

    static lemma FirstMember(s: seq<nat>, i: nat)
      requires i < |s| && forall j, k :: 0 <= j < k < |s| ==> s[j] != s[k]
      ensures s[i] in Members(s[i..]) && Members(s[i..]) - {s[i]} == Members(s[i + 1..])
      ensures s[..i] + [s[i]] == s[..i + 1]
    {
      assert s[i..] == [s[i]] + s[i + 1..];
    }

    static lemma NoMembers(s: seq<nat>)
      ensures Members(s) == Members([]) ==> s == []
    {
      if s != [] {
        assert s[0] in Members(s);
      }
    }

    lemma HostMember(h: nat, p: nat)
      requires Valid() && h < |tables.hostPeers| && p in Members(tables.hostPeers[h])
      ensures p in socketOf && socketOf[p] in socketHost && socketHost[socketOf[p]] == h
    {
      var t := tables;
      var k :| 0 <= k < |t.hostPeers[h]| && t.hostPeers[h][k] == p;
      assert Listed(t.peers, t.perHostOffset, Ids(t.handleOf), t.hostOf, p, h, k);
      assert p in t.handleOf.Keys;
    }

    /** A connected peer is in the array of the host of its socket, and in no other. */
    lemma OneHost(p: nat)
      requires Valid() && p in socketOf
      ensures socketOf[p] in socketHost && socketHost[socketOf[p]] < |tables.hostPeers|
      ensures forall g :: 0 <= g < |tables.hostPeers| ==>
                (p in Members(tables.hostPeers[g]) <==> g == socketHost[socketOf[p]])
    {
      Connected(p, {});
      var t := tables;
      assert AtHome(t.perHostOffset, t.hostPeers, Ids(t.handleOf), t.hostOf, p, t.handleOf[p].id);
      forall g | 0 <= g < |t.hostPeers| && p in Members(t.hostPeers[g])
        ensures g == socketHost[socketOf[p]]
      {
        HostMember(g, p);
      }
    }

    lemma OpenPaired()
      requires Valid()
      ensures Paired(ext, socketHost, {}, socketOf)
    {
    }

    /** One event.  Events for hosts or sockets that the library could not report are skipped. */
    method Step(e: Event) returns (broken: bool)
      requires Valid()
      modifies this, tables, tables.peersToFlush
      ensures Valid() && !broken && Stepped(old(Snap()), e, Snap())
    {
      hide Valid, Members, Joined, Left, Detached, Untouched, Finishes;
      broken := false;
      match e
      case Accept(s, h) =>
        broken := OpenStep(e);
      case Connect(s, h) =>
        broken := OpenStep(e);
      case Opened(s) =>
        broken := OpenStep(e);
      case DisconnectHost(h) =>
        broken := HostStep(h);
      case _ =>
        broken := CloseStep(e);
    }

    /** A connection is accepted, starts, or is established. */
    method OpenStep(e: Event) returns (broken: bool)
      requires Valid() && (e.Accept? || e.Connect? || e.Opened?)
      modifies this, tables
      ensures Valid() && !broken && Stepped(old(Snap()), e, Snap())
    {
      hide Valid, Joined, Left, Untouched;
      broken := false;
      if e.Opened? {
        if e.socket in ext {
          broken := OnOpened(e.socket);
        }
        assert ready == ready + {};
      } else if e.host < |tables.hostPeers| && e.socket !in socketHost && e.socket !in closedSockets {
        var p := Attach(e.socket, e.host);
        if e.Accept? {
          NewSocket(old(Snap()), e.socket, e.host, Snap());
          ghost var b := Snap();
          broken := OnOpened(e.socket);
          AcceptedReady(old(Snap()), e.socket, e.host, b, Snap());
        }
      } else {
        Nobody(old(Snap()), e, Snap());
      }
    }

    static lemma NewSocket(a: Snapshot, s: nat, h: nat, b: Snapshot)
      requires Joined(a, s, h, false, b)
      ensures s in b.ext
    {
    }

    static lemma AcceptedReady(a: Snapshot, s: nat, h: nat, b: Snapshot, c: Snapshot)
      requires Joined(a, s, h, false, b) && s in b.ext && c == b.(ready := b.ready + {b.ext[s]})
      ensures Joined(a, s, h, true, c)
    {
    }

    /** An event that finishes nobody. */
    static lemma Nobody(a: Snapshot, e: Event, b: Snapshot)
      requires a == b && !Opens(a, e) && !e.Opened? && Finishes(a, e, []) && Shuts(e) == {}
      ensures Stepped(a, e, b)
    {
      assert Untouched(a, b);
      UntouchedLeft(a, {}, b);
    }

    method HostStep(h: nat) returns (broken: bool)
      requires Valid()
      modifies this, tables, tables.peersToFlush
      ensures Valid() && !broken && Stepped(old(Snap()), DisconnectHost(h), Snap())
    {
      hide Valid, Left;
      broken := false;
      if h < |tables.hostPeers| {
        ghost var a := Snap();
        broken := DisconnectAll(h);
        assert Finishes(a, DisconnectHost(h), a.hostPeers[h]);
      } else {
        Nobody(Snap(), DisconnectHost(h), Snap());
      }
    }

    /** A connection ends, from either side. */
    method CloseStep(e: Event) returns (broken: bool)
      requires Valid() && (e.Closed? || e.End? || e.Timeout? || e.LongTimeout? || e.Disconnect?)
      modifies this, tables, tables.peersToFlush
      ensures Valid() && !broken && Stepped(old(Snap()), e, Snap())
    {
      hide Valid, Detached, Untouched, Paired, Finishes, Stepped, Alone;
      OpenPaired();
      if !e.Disconnect? {
        AloneValid(e.socket);
      }
      ghost var a := Snap();
      broken := false;
      match e
      case Closed(s) =>
        broken := SocketClose(s);
        SocketStep(a, e, Snap());
      case End(s) =>
        broken := OnEnd(s);
        SocketStep(a, e, Snap());
      case Timeout(s, established, shutDown) =>
        broken := OnTimeout(s, established, shutDown);
        SocketStep(a, e, Snap());
      case LongTimeout(s) =>
        if s in ext {
          SocketPeerValid(s);
          broken := InternalDisconnect(ext[s]);
        } else {
          Same(a);
        }
        SocketStep(a, e, Snap());
      case Disconnect(handle) =>
        broken := DisconnectHandle(handle);
    }

    static lemma Same(a: Snapshot)
      ensures Untouched(a, a)
    {
    }

    lemma SocketPeerValid(s: nat)
      requires Valid() && s in ext
      ensures ext[s] in socketOf && socketOf[ext[s]] == s && s in socketHost
    {
    }

    /** The peer of the socket, if any, is in the array of the socket's host and in no other. */
    static ghost predicate Alone(a: Snapshot, s: nat) {
      s in a.ext ==>
        && s in a.socketHost && a.ext[s] in a.socketOf
        && forall g :: 0 <= g < |a.hostPeers| ==> (a.ext[s] in Members(a.hostPeers[g]) <==> g == a.socketHost[s])
    }

    lemma AloneValid(s: nat)
      requires Valid()
      ensures Alone(Snap(), s)
    {
      if s in ext {
        SocketPeerValid(s);
        OneHost(ext[s]);
      }
    }

    /** The peer of the socket left, if it had one. */
    static lemma SocketStep(a: Snapshot, e: Event, b: Snapshot)
      requires e.Closed? || e.End? || e.Timeout? || e.LongTimeout?
      requires Paired(a.ext, a.socketHost, {}, a.socketOf) && Alone(a, e.socket)
      requires e.socket !in a.ext ==> Untouched(a, b)
      requires e.socket in a.ext ==> e.socket in a.socketHost && Detached(a, a.ext[e.socket], a.socketHost[e.socket], b)
      requires b.closedSockets == a.closedSockets + if e.socket in a.ext then {e.socket} else Shuts(e)
      ensures Stepped(a, e, b)
    {
      assert e.socket in a.ext ==> a.socketOf[a.ext[e.socket]] == e.socket;
      hide Paired, Detached, Untouched, Left;
      if e.socket in a.ext {
        DetachedLeft(a, a.ext[e.socket], a.socketHost[e.socket], Shuts(e), b);
        assert Finishes(a, e, [a.ext[e.socket]]);
      } else {
        UntouchedLeft(a, Shuts(e), b);
        assert Finishes(a, e, []);
      }
    }

    method DisconnectHandle(handle: Handle) returns (broken: bool)
      requires Valid()
      modifies this, tables, tables.peersToFlush
      ensures Valid() && !broken && Stepped(old(Snap()), Disconnect(handle), Snap())
    {
      hide Valid, Detached, Untouched, Paired, Left, Finishes, PeerManager.GetLocalPeerData;
      HandlePeer(handle);
      OpenPaired();
      if tables.GetLocalPeerData(handle).Some? {
        OneHost(tables.GetLocalPeerData(handle).value);
      }
      ghost var a := Snap();
      broken := false;
      var data := tables.GetLocalPeerData(handle);
      if data.Some? {
        broken := InternalDisconnect(data.value);
        DetachedLeft(a, data.value, HostIn(a, data.value), {}, Snap());
      } else {
        Nobody(a, Disconnect(handle), Snap());
      }
    }

    static ghost function HostIn(a: Snapshot, p: nat): (h: nat)
      requires p in a.socketOf && a.socketOf[p] in a.socketHost
    {
      a.socketHost[a.socketOf[p]]
    }

    /** A handle resolves to the one connected peer that has it, and to nothing if no peer has it. */
    lemma HandlePeer(handle: Handle)
      requires Valid()
      ensures |tables.peers| == |tables.versions|
      ensures var data := tables.GetLocalPeerData(handle);
              && (data.Some? ==> data.value in socketOf && socketOf[data.value] in socketHost)
              && (data.Some? ==> Finishes(Snap(), Disconnect(handle), [data.value]))
              && (data.None? ==> Finishes(Snap(), Disconnect(handle), []))
    {
      AlignedValid();
      var data := tables.GetLocalPeerData(handle);
      if data.Some? {
        ResolvedPeer(handle, {});
      }
      forall p | p in tables.handleOf && tables.handleOf[p] == handle
        ensures data == Some(p)
      {
        assert p in socketOf.Keys;
        Connected(p, {});
      }
      if data.Some? {
        Connected(data.value, {});
      }
    }

    lemma AlignedValid()
      requires Valid()
      ensures |tables.peers| == |tables.versions|
    {
    }

    /**
     Every run is a run of the protocol, from the state before to the state after, and the missing-peer
     branches are never taken.  So callbacks are only ever added, by the events that end a connection,
     at most one per peer, and exactly for the peers that were released.
     */
    method Run(events: seq<Event>) returns (broken: bool, ghost trace: seq<Snapshot>)
      requires Valid()
      modifies this, tables, tables.peersToFlush
      ensures Valid() && !broken
      ensures Traced(trace, events) && trace[0] == old(Snap()) && trace[|events|] == Snap()
      ensures old(callbacks) <= callbacks && old(nextPeer) <= nextPeer
      ensures forall i, j :: 0 <= i < j < |callbacks| ==> callbacks[i] != callbacks[j]
      ensures forall p: nat :: p in callbacks <==> p < nextPeer && p !in tables.handleOf
    {
      broken, trace := Trace(events);
      EveryTrace(trace, events);
    }

    method Trace(events: seq<Event>) returns (broken: bool, ghost trace: seq<Snapshot>)
      requires Valid()
      modifies this, tables, tables.peersToFlush
      ensures Valid() && !broken
      ensures Traced(trace, events) && trace[0] == old(Snap()) && trace[|events|] == Snap()
    {
      hide Valid, Stepped;
      broken, trace := false, [Snap()];
      for i := 0 to |events|
        invariant Valid() && !broken
        invariant |trace| == i + 1 && trace[0] == old(Snap()) && trace[i] == Snap()
        invariant forall j :: 0 <= j < i ==> Stepped(trace[j], events[j], trace[j + 1])
      {
        var b := Step(events[i]);
        broken := broken || b;
        trace := trace + [Snap()];
      }
    }
  }

  /** The same from the start: every run of events on hosts without connections. */
  method RunNew(hosts: nat, events: seq<Event>) returns (h: Hosts, broken: bool, ghost trace: seq<Snapshot>)
    ensures !broken && Traced(trace, events) && trace[0] == NoConnections(hosts) && trace[|events|] == h.Snap()
    ensures forall i, j :: 0 <= i < j < |h.callbacks| ==> h.callbacks[i] != h.callbacks[j]
    ensures forall p: nat :: p in h.callbacks <==> p < h.nextPeer && p !in h.tables.handleOf
    ensures forall p: nat :: p in h.ready <==> exists i :: 0 <= i < |events| && p in Readies(trace[i], events[i])
    ensures h.disconnecting == Members(h.callbacks) && h.closed == Members(h.callbacks) && h.shared == h.socketOf.Keys
  {
    h := new Hosts(hosts);
    hide Hosts.Valid, Readies, Stepped;
    broken, trace := h.Run(events);
    forall p: nat
      ensures p in h.ready <==> exists i :: 0 <= i < |events| && p in Readies(trace[i], events[i])
    {
      ReadyExactly(trace, events, |events|, p);
    }
    EveryoneGone(trace, events, |events|);
  }
}
