/** Which peers the loop flushes, and when (`Loop.cpp`, `PeerData::Send`). */
module FlushLoops {
  import opened Bits
  import opened FrameStream
  import opened TcpPeers
  import opened FlushSets
  import opened PeerTables

  /** What the peers ever known to a loop were given and were told, and whose sockets are open. */
  datatype Ledger = Ledger(accepted: map<TcpPeer, seq<seq<byte>>>, usable: set<TcpPeer>, ready: set<TcpPeer>,
                           leaving: set<TcpPeer>) {
    /** One more frame for `p`. */
    ghost function Accept(p: TcpPeer, frame: seq<byte>): (r: Ledger)
      requires p in accepted
    {
      this.(accepted := accepted[p := accepted[p] + [frame]])
    }

    /** A new peer. */
    ghost function Enter(p: TcpPeer): (r: Ledger) {
      this.(accepted := accepted[p := []], usable := usable + {p})
    }
  }

  /**
   The bytes the socket of a peer took, how many frames the peer has in its queues, the bytes staged,
   and all its writes.
   */
  datatype Flow = Flow(sent: seq<byte>, backlog: int, staged: seq<byte>, writes: seq<Write>)

  const NO_FLOW := Flow([], 0, [], [])

  /** One more frame queued for `p`. */
  ghost function Loaded(flows: map<TcpPeer, Flow>, p: TcpPeer): (r: map<TcpPeer, Flow>)
    requires p in flows
  {
    flows[p := flows[p].(backlog := flows[p].backlog + 1)]
  }

  /** `p` is open and may send. */
  ghost predicate MaySend(book: Ledger, p: TcpPeer) {
    p in book.usable && p in book.ready && p !in book.leaving
  }

  /**
   `p` was told that its socket is writable: what left is not taken back, no queue gets longer, a peer
   that is not ready or is disconnecting sends nothing, and one that may send does what a writable event
   does, with every write taken whole if the socket takes everything.
   */
  ghost predicate Served(book: Ledger, p: TcpPeer, before: Flow, after: Flow) {
    && before.sent <= after.sent && after.backlog <= before.backlog
    && (p !in book.ready || p in book.leaving ==> before == after)
    && (MaySend(book, p) ==>
          var whole := Tried(before.writes, after.writes, true);
          && TcpPeer.Outcome(before.writes, after.writes, before.backlog, after.backlog, after.staged, whole)
          && (p.eager ==> whole))
  }

  /** Only `p` was served. */
  ghost predicate OneServed(book: Ledger, before: map<TcpPeer, Flow>, after: map<TcpPeer, Flow>, p: TcpPeer) {
    && before.Keys == after.Keys && p in before && Served(book, p, before[p], after[p])
    && forall q :: q in before && q != p ==> after[q] == before[q]
  }

  /** What can happen to the peers of a loop. */
  datatype Event =
    | Open(host: nat, capacity: nat, eager: bool)
    | Ready(handle: Handle)
    | Send(handle: Handle, frame: seq<byte>)
    | Writable(handle: Handle)
    | Flush
    | Disconnect(handle: Handle)
    | Close(handle: Handle)

  /**
   What a run is judged by: the slots and the ids of the free ones, the ids waiting to be flushed, the
   frames accepted and the bytes sent.
   */
  datatype Snapshot = Snapshot(slots: seq<Option<TcpPeer>>, versions: seq<nat>, free: seq<nat>, waiting: set<nat>,
                               book: Ledger, flows: map<TcpPeer, Flow>)
  {
    ghost function Resolve(handle: Handle): (r: Option<TcpPeer>) {
      if handle.id < |slots| && handle.id < |versions| && handle.version == versions[handle.id] then slots[handle.id]
      else None
    }
  }

  /** The peer in slot `id` has sent everything it accepted. */
  ghost predicate SentAll(a: Snapshot, id: nat) {
    id < |a.slots| && a.slots[id].Some? ==>
      var p := a.slots[id].value;
      && p in a.flows && p in a.book.accepted && a.flows[p].sent == Concat(a.book.accepted[p])
      && a.flows[p].backlog == 0 && a.flows[p].staged == []
  }

  /** The peer in slot `id` has frames queued or bytes staged. */
  ghost predicate Laden(a: Snapshot, id: nat) {
    id < |a.slots| && a.slots[id].Some? && a.slots[id].value in a.flows &&
    (a.flows[a.slots[id].value].backlog != 0 || a.flows[a.slots[id].value].staged != [])
  }

  /** No flush is lost: whoever does not wait to be flushed has nothing left to send. */
  ghost predicate NoLostFlush(a: Snapshot) {
    forall id: nat :: id !in a.waiting ==> SentAll(a, id)
  }

  /** `p` is in a slot that waits to be flushed. */
  ghost predicate Awaits(a: Snapshot, p: TcpPeer) {
    exists id :: id in a.waiting && id < |a.slots| && a.slots[id] == Some(p)
  }

  /** Exactly the peers that waited to be flushed were served. */
  ghost predicate AllServed(a: Snapshot, b: Snapshot) {
    && a.flows.Keys == b.flows.Keys
    && forall p :: p in a.flows ==>
         if Awaits(a, p) then Served(a.book, p, a.flows[p], b.flows[p]) else b.flows[p] == a.flows[p]
  }

  /** A new peer took the slot freed last, or a new one when none was free. */
  ghost predicate Opened(a: Snapshot, id: nat, p: TcpPeer, b: Snapshot) {
    && p !in a.book.accepted && Placed(a.slots, b.slots, id, p) && b.versions == Extended(a.versions, id, 1)
    && Drawn(a.slots, a.free, id, b.free)
    && b.book == a.book.Enter(p) && b.flows == a.flows[p := NO_FLOW] && b.waiting == a.waiting
  }

  /** The protocol: what each event does, and all it does. */
  ghost predicate Stepped(a: Snapshot, e: Event, b: Snapshot) {
    match e
    case Open(_, _, _) => exists id: nat, p :: p in b.flows && Opened(a, id, p, b)
    case Ready(handle) =>
      var data := a.Resolve(handle);
      b == if data.None? then a else a.(book := a.book.(ready := a.book.ready + {data.value}))
    case Send(handle, frame) =>
      var data := a.Resolve(handle);
      b == if data.Some? && data.value in a.book.accepted && data.value in a.flows && data.value !in a.book.leaving
           then a.(waiting := a.waiting + {handle.id}, book := a.book.Accept(data.value, frame),
                   flows := Loaded(a.flows, data.value))
           else a
    case Writable(handle) =>
      var data := a.Resolve(handle);
      if data.None? || data.value !in a.flows then b == a else
        b == a.(flows := b.flows) && OneServed(a.book, a.flows, b.flows, data.value)
    case Flush =>
      && b == a.(flows := b.flows, waiting := b.waiting) && AllServed(a, b)
      && b.waiting <= a.waiting
      && (forall id :: id in a.waiting ==> (id in b.waiting <==> Laden(b, id)))
      && (forall id :: id in a.waiting && id !in b.waiting ==> SentAll(b, id))
    case Disconnect(handle) =>
      var data := a.Resolve(handle);
      b == if data.None? then a else a.(book := a.book.(leaving := a.book.leaving + {data.value}))
    case Close(handle) =>
      if a.Resolve(handle).None? then b == a else
        && b == a.(slots := a.slots[handle.id := None], versions := b.versions, free := a.free + [handle.id],
                   waiting := a.waiting - {handle.id})
        && a.versions[handle.id] < U32 && b.versions == a.versions[handle.id := NextVersion(a.versions[handle.id])]
  }

  /** `p`, which `handle` names, is ready and has accepted just `frames`, all of which are still queued. */
  ghost predicate Primed(a: Snapshot, handle: Handle, p: TcpPeer, frames: seq<seq<byte>>) {
    && a.Resolve(handle) == Some(p) && p in a.book.usable && p in a.book.ready && p !in a.book.leaving
    && p in a.book.accepted && a.book.accepted[p] == frames
    && p in a.flows && a.flows[p] == Flow([], |frames|, [], [])
  }

  lemma PrimedSend(a: Snapshot, handle: Handle, p: TcpPeer, frames: seq<seq<byte>>, frame: seq<byte>, b: Snapshot)
    requires Primed(a, handle, p, frames) && Stepped(a, Send(handle, frame), b)
    ensures Primed(b, handle, p, frames + [frame])
  {
  }

  ghost predicate Traced(trace: seq<Snapshot>, events: seq<Event>) {
    |trace| == |events| + 1 && forall i :: 0 <= i < |events| ==> Stepped(trace[i], events[i], trace[i + 1])
  }

  /** No accepted frame is dropped from the log of its peer, and no byte sent is taken back. */
  ghost predicate Continues(a: Snapshot, b: Snapshot) {
    && (forall p :: p in a.book.accepted ==> p in b.book.accepted && a.book.accepted[p] <= b.book.accepted[p])
    && (forall p :: p in a.flows ==> p in b.flows && a.flows[p].sent <= b.flows[p].sent)
  }

  lemma StepContinues(a: Snapshot, e: Event, b: Snapshot)
    requires Stepped(a, e, b) && a.flows.Keys == a.book.accepted.Keys
    ensures Continues(a, b) && b.flows.Keys == b.book.accepted.Keys
  {
    hide Placed, Extended, SentAll, NextVersion, TcpPeer.Outcome, Tried;
    match e
    case Open(_, _, _) =>
      var id: nat, p :| p in b.flows && Opened(a, id, p, b);
    case _ =>
  }

  lemma {:induction false} EveryTrace(trace: seq<Snapshot>, events: seq<Event>)
    requires Traced(trace, events) && trace[0].flows.Keys == trace[0].book.accepted.Keys
    ensures Continues(trace[0], trace[|events|]) && trace[|events|].flows.Keys == trace[|events|].book.accepted.Keys
  {
    var n := |events| - 1;
    if n >= 0 {
      EveryTrace(trace[..n + 1], events[..n]);
      hide Stepped;
      assert Stepped(trace[n], events[n], trace[n + 1]);
      StepContinues(trace[n], events[n], trace[n + 1]);
    }
  }

  /** How many of `n` frames `k` batches leave. */
  function AfterBatches(n: int, k: nat): (r: int) {
    if n <= FLUSH_BATCH * k then 0 else n - FLUSH_BATCH * k
  }

  lemma Batches(n: nat, k: nat)
    ensures AfterBatches(n, 0) == n && AfterBatches(n, k) >= 0
    ensures AfterBatches(n, k + 1) == TcpPeer.Rest(AfterBatches(n, k))
    ensures if AfterBatches(n, k) == 0 then AfterBatches(n, k + 1) == 0
            else 0 <= AfterBatches(n, k + 1) < AfterBatches(n, k)
  {
  }

  lemma EnoughBatches(n: nat, k: nat)
    requires k > 0 && AfterBatches(n, k) <= 0 && (k > 1 ==> AfterBatches(n, k - 1) > 0)
    ensures k == if n == 0 then 1 else (n + FLUSH_BATCH - 1) / FLUSH_BATCH
  {
  }

  /** One sweep takes a whole batch from a peer that may send and whose socket takes everything. */
  lemma SweepOnce(a: Snapshot, b: Snapshot, id: nat, p: TcpPeer)
    requires Stepped(a, Flush, b) && NoLostFlush(a) && NoLostFlush(b)
    requires id < |a.slots| && a.slots[id] == Some(p) && p in a.flows && p.eager && MaySend(a.book, p)
    ensures b.slots == a.slots && b.book == a.book && p in b.flows
    ensures b.flows[p].backlog == TcpPeer.Rest(a.flows[p].backlog)
    ensures b.flows[p].backlog == 0 ==> id !in b.waiting && SentAll(b, id)
  {
    hide Tried, TcpPeer.PackedButLast, TcpPeer.LastOffer, Concat;
    assert id !in a.waiting ==> SentAll(a, id);
    assert id in a.waiting ==> Awaits(a, p);
  }

  /**
   `n` frames queued for a peer that may send and whose socket takes everything are gone after as many
   sweeps as they fill batches, no sooner, and then the peer waits no more.
   */
  lemma {:induction false} SweepRounds(trace: seq<Snapshot>, events: seq<Event>, id: nat, p: TcpPeer, k: nat)
    requires Traced(trace, events) && k <= |events| && forall i :: 0 <= i < k ==> events[i] == Flush
    requires forall i :: 0 <= i <= k ==> NoLostFlush(trace[i])
    requires id < |trace[0].slots| && trace[0].slots[id] == Some(p) && p in trace[0].flows
    requires p.eager && MaySend(trace[0].book, p) && trace[0].flows[p].backlog >= 0
    ensures trace[k].slots == trace[0].slots && trace[k].book == trace[0].book && p in trace[k].flows
    ensures trace[k].flows[p].backlog == AfterBatches(trace[0].flows[p].backlog, k)
    ensures k > 0 && trace[0].flows[p].backlog <= FLUSH_BATCH * k ==> id !in trace[k].waiting && SentAll(trace[k], id)
    decreases k
  {
    hide Stepped, NoLostFlush, SentAll;
    if k > 0 {
      SweepRounds(trace, events, id, p, k - 1);
      assert Stepped(trace[k - 1], events[k - 1], trace[k - 1 + 1]);
      SweepOnce(trace[k - 1], trace[k], id, p);
    }
  }

  /** Every slot has a version, which is never 0, and exactly the empty ones are listed as free. */
  ghost predicate Tidy(a: Snapshot) {
    && |a.slots| == |a.versions| && FreeExactly(a.slots, a.free)
    && forall id :: 0 <= id < |a.versions| ==> 1 <= a.versions[id] < U32
  }

  /** The event empties slot `id`. */
  ghost predicate Empties(a: Snapshot, e: Event, id: nat) {
    e.Close? && e.handle.id == id && a.Resolve(e.handle).Some?
  }

  /** How often slot `id` was emptied from state `i` to state `k`. */
  ghost function Emptied(trace: seq<Snapshot>, events: seq<Event>, i: nat, k: nat, id: nat): (n: nat)
    requires i <= k <= |events| < |trace|
    decreases k
  {
    if k == i then 0
    else Emptied(trace, events, i, k - 1, id) + if Empties(trace[k - 1], events[k - 1], id) then 1 else 0
  }

  /** Slots keep their version and their peer until they are emptied, which steps the version. */
  lemma SlotStep(a: Snapshot, e: Event, b: Snapshot, id: nat)
    requires Stepped(a, e, b) && Tidy(a) && id < |a.slots|
    ensures Tidy(b) && id < |b.slots|
    ensures b.versions[id] == if Empties(a, e, id) then NextVersion(a.versions[id]) else a.versions[id]
    ensures !Empties(a, e, id) && a.slots[id].Some? ==> b.slots[id] == a.slots[id]
  {
    hide SentAll, Served, FreeExactly, Drawn, Full;
    match e
    case Open(_, _, _) =>
      var at: nat, p :| p in b.flows && Opened(a, at, p, b);
      DrawnExactly(a.slots, a.free, at, b.free, b.slots, p);
    case Close(handle) =>
      if a.Resolve(handle).Some? {
        ReturnedExactly(a.slots, a.free, handle.id);
      }
    case _ =>
  }

  /** How many slots hold a peer. */
  ghost function Occupied(slots: seq<Option<TcpPeer>>): (n: nat)
    ensures n <= |slots| && (n == |slots| <==> Full(slots))
  {
    if slots == [] then 0
    else
      var last := |slots| - 1;
      assert Full(slots) <==> Full(slots[..last]) && slots[last].Some?;
      Occupied(slots[..last]) + if slots[last].Some? then 1 else 0
  }

  /** A slot is added only when every slot is taken. */
  lemma SlotsGrow(a: Snapshot, e: Event, b: Snapshot)
    requires Stepped(a, e, b) && Tidy(a)
    ensures Tidy(b) && (|b.slots| == |a.slots| || (|b.slots| == |a.slots| + 1 && Full(b.slots)))
  {
    hide SentAll, Served, FreeExactly, Drawn;
    match e
    case Open(_, _, _) =>
      var at: nat, p :| p in b.flows && Opened(a, at, p, b);
      DrawnExactly(a.slots, a.free, at, b.free, b.slots, p);
    case Close(handle) =>
      if a.Resolve(handle).Some? {
        ReturnedExactly(a.slots, a.free, handle.id);
      }
    case _ =>
  }

  /** The number of slots in state `k` is the largest number of peers that were live at one time. */
  ghost predicate Peak(trace: seq<Snapshot>, k: nat)
    requires k < |trace|
  {
    && (forall j :: 0 <= j <= k ==> Occupied(trace[j].slots) <= |trace[k].slots|)
    && (exists j :: 0 <= j <= k && Occupied(trace[j].slots) == |trace[k].slots|)
  }

  /** No run that starts with no slot empty ever has more slots than peers that were live at one time. */
  lemma {:induction false} SlotsBound(trace: seq<Snapshot>, events: seq<Event>, k: nat)
    requires Traced(trace, events) && k <= |events| && Tidy(trace[0]) && Full(trace[0].slots)
    ensures Peak(trace, k) && Tidy(trace[k])
  {
    hide Stepped, Tidy, Occupied, Full;
    if k == 0 {
      assert Occupied(trace[0].slots) == |trace[0].slots|;
    } else {
      SlotsBound(trace, events, k - 1);
      SlotsGrow(trace[k - 1], events[k - 1], trace[k]);
      var j :| 0 <= j <= k - 1 && Occupied(trace[j].slots) == |trace[k - 1].slots|;
      assert Occupied(trace[k].slots) <= |trace[k].slots|;
      if |trace[k].slots| > |trace[k - 1].slots| {
        assert Occupied(trace[k].slots) == |trace[k].slots|;
      }
    }
  }

  /** The version of a slot counts, modulo 2^32 - 1, how often the slot was emptied. */
  lemma {:induction false} VersionsAdvance(trace: seq<Snapshot>, events: seq<Event>, i: nat, k: nat, id: nat, m: nat)
    requires Traced(trace, events) && i <= k <= |events|
    requires Tidy(trace[i]) && id < |trace[i].slots| && trace[i].versions[id] == VersionAfter(m)
    ensures Tidy(trace[k]) && id < |trace[k].slots|
    ensures trace[k].versions[id] == VersionAfter(m + Emptied(trace, events, i, k, id))
    ensures Emptied(trace, events, i, k, id) == 0 && trace[i].slots[id].Some? ==>
              trace[k].slots[id] == trace[i].slots[id]
    decreases k
  {
    hide Stepped, VersionAfter, NextVersion, Empties;
    if k > i {
      VersionsAdvance(trace, events, i, k - 1, id, m);
      AdvanceOnce(trace[k - 1], events[k - 1], trace[k], id, m + Emptied(trace, events, i, k - 1, id));
    }
  }

  lemma AdvanceOnce(a: Snapshot, e: Event, b: Snapshot, id: nat, n: nat)
    requires Stepped(a, e, b) && Tidy(a) && id < |a.slots| && a.versions[id] == VersionAfter(n)
    ensures Tidy(b) && id < |b.slots| && b.versions[id] == VersionAfter(if Empties(a, e, id) then n + 1 else n)
    ensures !Empties(a, e, id) && a.slots[id].Some? ==> b.slots[id] == a.slots[id]
  {
    hide Stepped, Empties;
    SlotStep(a, e, b, id);
    VersionStep(n);
  }

  /**
   A handle that names a peer in some state of a run names that peer until its slot is emptied, and
   after that nothing, until the slot has been emptied 2^32 - 1 times; in general it resolves if and
   only if its slot is occupied and was emptied a multiple of 2^32 - 1 times.
   */
  lemma HandleLife(trace: seq<Snapshot>, events: seq<Event>, i: nat, k: nat, handle: Handle)
    requires Traced(trace, events) && i <= k <= |events| && Tidy(trace[i]) && trace[i].Resolve(handle).Some?
    ensures handle.id < |trace[k].slots|
    ensures var n, now := Emptied(trace, events, i, k, handle.id), trace[k].Resolve(handle);
            && (now.Some? <==> trace[k].slots[handle.id].Some? && n % VERSIONS == 0)
            && (n == 0 ==> now == trace[i].Resolve(handle))
            && (0 < n < VERSIONS ==> now == None)
  {
    assert |trace| == |events| + 1;
    hide Traced, Emptied, VersionAfter;
    var m, n := trace[i].versions[handle.id] - 1, Emptied(trace, events, i, k, handle.id);
    FirstVersions(m);
    VersionsAdvance(trace, events, i, k, handle.id, m);
    HandleNow(trace[i], trace[k], handle, m, n);
  }

  lemma HandleNow(a: Snapshot, b: Snapshot, handle: Handle, m: nat, n: nat)
    requires Tidy(a) && Tidy(b) && a.Resolve(handle).Some? && handle.id < |b.slots|
    requires a.versions[handle.id] == VersionAfter(m) && b.versions[handle.id] == VersionAfter(m + n)
    requires n == 0 ==> b.slots[handle.id] == a.slots[handle.id]
    ensures b.Resolve(handle).Some? <==> b.slots[handle.id].Some? && n % VERSIONS == 0
    ensures n == 0 ==> b.Resolve(handle) == a.Resolve(handle)
    ensures 0 < n < VERSIONS ==> b.Resolve(handle) == None
  {
    hide VersionAfter;
    SameVersion(m, m + n);
    if 0 < n < VERSIONS {
      ModUnique(n, VERSIONS, 0, n);
    }
  }

  lemma FirstVersions(m: nat)
    requires m < VERSIONS
    ensures VersionAfter(m) == m + 1
  {
    ModUnique(m, VERSIONS, 0, m);
  }

  class Loop {
    const manager: PeerManager<TcpPeer>

    /** The peers that were ever put in the table. */
    ghost var known: set<TcpPeer>
    /** The ids the sweep has visited, in order. */
    ghost var visits: seq<nat>

    constructor (hosts: nat)
      ensures Valid() && fresh(manager) && fresh(manager.peersToFlush) && manager.peers == [] && known == {}
      ensures manager.freeIds == [] && visits == [] && Waiting() == {} && |manager.hostPeers| == hosts
    {
      manager := new PeerManager<TcpPeer>(hosts);
      known, visits := {}, [];
    }

    /** The ids of the peers to flush. */
    ghost function Waiting(): (r: set<nat>)
      reads manager, manager.peersToFlush
    {
      Members(manager.peersToFlush.peers)
    }

    /** The flush set as the loop sees it. */
    ghost function List(): (r: seq<nat>)
      reads manager, manager.peersToFlush
    {
      manager.peersToFlush.peers
    }

    /** What the application did with the peers. */
    ghost function Book(): (r: Ledger)
      reads this`known, known
    {
      Ledger(map p | p in known :: p.accepted, set p | p in known && p.open && !p.closed, set p | p in known && p.ready,
             set p | p in known && p.disconnecting)
    }

    ghost function FlowOf(p: TcpPeer): (f: Flow)
      reads p
    {
      Flow(p.wire, p.Backlog(), p.Staged(), p.writes)
    }

    /** What is on its way, peer by peer. */
    ghost function Flows(): (r: map<TcpPeer, Flow>)
      reads this`known, known
    {
      map p | p in known :: FlowOf(p)
    }

    ghost function Snap(): (r: Snapshot)
      reads this`known, manager, manager.peersToFlush, known
    {
      Snapshot(manager.peers, manager.versions, manager.freeIds, Waiting(), Book(), Flows())
    }

    predicate HasWork(p: TcpPeer)
      reads p
    {
      p.HasBufferedSends() || p.HasQueuedSends()
    }

    /** No flush is lost: a peer with something to send is in the set of peers to flush. */
    ghost predicate Valid()
      reads this`known, manager, manager.peersToFlush, known
    {
      && manager.Valid() && manager.handleOf.Keys <= known && manager.hostOf.Keys <= known
      && (forall id :: 0 <= id < |manager.peers| && manager.peers[id].Some? ==>
            manager.peers[id].value in known && manager.peers[id].value.Valid())
      && (forall id :: 0 <= id < |manager.peers| && manager.peers[id].Some? && HasWork(manager.peers[id].value) ==>
            id in Waiting())
    }

    /**
     A send command.  The frame of a live peer is accepted, behind all earlier ones, and the peer is
     scheduled, unless it is disconnecting; nothing happens for a handle that no longer resolves.
     */
    method Send(handle: Handle, frame: seq<byte>)
      requires Valid()
      modifies manager.peersToFlush, known
      ensures Valid() && |manager.peers| == |manager.versions|
      ensures var data := manager.GetLocalPeerData(handle);
              var taken := data.Some? && data.value in known && old(!data.value.disconnecting);
              && (data.Some? ==> data.value in known)
              && Waiting() == old(Waiting()) + (if taken then {handle.id} else {})
              && Flows() == (if taken then Loaded(old(Flows()), data.value) else old(Flows()))
              && Book() == if taken then old(Book()).Accept(data.value, frame) else old(Book())
    {
      Shape();
      var data := manager.GetLocalPeerData(handle);
      if data.None? {
        return;
      }
      Located(handle);
      SendData(handle, data.value, frame);
      assert data.value in known;
    }

    lemma Located(handle: Handle)
      requires Valid() && |manager.peers| == |manager.versions| && manager.GetLocalPeerData(handle).Some?
      ensures manager.GetLocalPeerData(handle).value in known
    {
    }

    /** `PeerData::Send`: an idle peer is scheduled before the frame is queued. */
    method SendData(handle: Handle, p: TcpPeer, frame: seq<byte>)
      requires Valid() && |manager.peers| == |manager.versions|
      requires manager.GetLocalPeerData(handle) == Some(p) && p in known
      modifies manager.peersToFlush, p`globalQueue, p`accepted
      ensures Valid() && Waiting() == old(Waiting()) + (if p.disconnecting then {} else {handle.id})
      ensures Flows() == if p.disconnecting then old(Flows()) else Loaded(old(Flows()), p)
      ensures Book() == if p.disconnecting then old(Book()) else old(Book()).Accept(p, frame)
    {
      hide PeerManager.Valid, TcpPeer.Valid, Members, Valid, Book, Flows, Waiting;
      PeerIn(handle.id);
      if !p.disconnecting && !HasWork(p) {
        Schedule(handle, p);
      }
      Enqueue(handle.id, p, frame);
    }

    method Schedule(handle: Handle, p: TcpPeer)
      requires Valid() && |manager.peers| == |manager.versions|
      requires manager.GetLocalPeerData(handle) == Some(p) && !HasWork(p)
      modifies manager.peersToFlush
      ensures Valid() && Waiting() == old(Waiting()) + {handle.id}
    {
      hide PeerManager.Valid, TcpPeer.Valid, Members;
      InsertPeerToFlush(handle);
    }

    method Enqueue(id: nat, p: TcpPeer, frame: seq<byte>)
      requires Valid() && id < |manager.peers| && manager.peers[id] == Some(p) && p in known
      requires p.disconnecting || id in Waiting()
      modifies p`globalQueue, p`accepted
      ensures Valid() && Flows() == if p.disconnecting then old(Flows()) else Loaded(old(Flows()), p)
      ensures Book() == if p.disconnecting then old(Book()) else old(Book()).Accept(p, frame)
    {
      PeerIn(id);
      hide Valid, TcpPeer.Valid, Waiting, Book, Flows, Loaded;
      SendTo(p, frame);
      StaysValid(id, p);
    }

    lemma PeerIn(id: nat)
      requires Valid() && id < |manager.peers| && manager.peers[id].Some?
      ensures manager.peers[id].value.Valid() && (HasWork(manager.peers[id].value) ==> id in Waiting())
    {
    }

    /** Only the peer in slot `id` changed, and it waits if it has work. */
    twostate lemma StaysValid(new id: nat, p: TcpPeer)
      requires old(Valid()) && known == old(known) && unchanged(manager) && unchanged(manager.peersToFlush)
      requires forall q :: q in known && q != p ==> unchanged(q)
      requires id < |manager.peers| && manager.peers[id] == Some(p) && p.Valid() && (HasWork(p) ==> id in Waiting())
      ensures Valid()
    {
      OneSlotEach();
      hide PeerManager.Valid, TcpPeer.Valid, HasWork, Waiting;
    }

    method SendTo(p: TcpPeer, frame: seq<byte>)
      requires p in known && p.Valid()
      modifies p`globalQueue, p`accepted
      ensures p.Valid() && (p.disconnecting ==> HasWork(p) == old(HasWork(p)))
      ensures Flows() == if p.disconnecting then old(Flows()) else Loaded(old(Flows()), p)
      ensures Book() == if p.disconnecting then old(Book()) else old(Book()).Accept(p, frame)
    {
      hide TcpPeer.Valid, Book, Flows, TcpPeer.Backlog;
      p.Send(frame);
      AcceptedOne(p, frame);
    }

    /** Only `p` changed, by a frame accepted or refused. */
    twostate lemma AcceptedOne(p: TcpPeer, new frame: seq<byte>)
      requires known == old(known) && p in known
      requires forall q :: q in known && q != p ==> unchanged(q)
      requires p.ready == old(p.ready) && p.disconnecting == old(p.disconnecting)
      requires p.accepted == if p.disconnecting then old(p.accepted) else old(p.accepted) + [frame]
      requires FlowOf(p) == old(FlowOf(p)).(backlog := old(FlowOf(p)).backlog + if p.disconnecting then 0 else 1)
      requires p.open == old(p.open) && p.closed == old(p.closed)
      ensures Flows() == if p.disconnecting then old(Flows()) else Loaded(old(Flows()), p)
      ensures Book() == if p.disconnecting then old(Book()) else old(Book()).Accept(p, frame)
    {
      hide FlowOf;
      var b := if p.disconnecting then old(Book()) else old(Book()).Accept(p, frame);
      var f := if p.disconnecting then old(Flows()) else Loaded(old(Flows()), p);
      assert Book().accepted == b.accepted;
      assert Book().usable == b.usable && Book().ready == b.ready && Book().leaving == b.leaving;
      assert Flows() == f;
    }

    /** Only `p` changed, by sending. */
    twostate lemma SentOne(p: TcpPeer)
      requires known == old(known) && p in known
      requires forall q :: q in known && q != p ==> unchanged(q)
      requires p.accepted == old(p.accepted) && p.ready == old(p.ready) && p.disconnecting == old(p.disconnecting)
      requires p.open == old(p.open) && p.closed == old(p.closed)
      requires ServedSelf(p, old(FlowOf(p)), FlowOf(p))
      ensures Book() == old(Book()) && OneServed(Book(), old(Flows()), Flows(), p)
    {
      hide FlowOf, TcpPeer.Outcome, Tried;
      assert Book().accepted == old(Book()).accepted;
      assert Flows()[p] == FlowOf(p) && old(Flows())[p] == old(FlowOf(p));
    }

    /** `Served`, seen from the peer. */
    ghost predicate ServedSelf(p: TcpPeer, before: Flow, after: Flow)
      reads p
    {
      && before.sent <= after.sent && after.backlog <= before.backlog
      && (!p.ready || p.disconnecting ==> before == after)
      && (p.Active() ==>
            var whole := Tried(before.writes, after.writes, true);
            && TcpPeer.Outcome(before.writes, after.writes, before.backlog, after.backlog, after.staged, whole)
            && (p.eager ==> whole))
    }

    /** `Loop::_InternalInsertPeerToFlush`. */
    method InsertPeerToFlush(handle: Handle)
      requires manager.Valid() && |manager.peers| == |manager.versions|
      requires manager.GetLocalPeerData(handle).Some?
      modifies manager.peersToFlush
      ensures manager.Valid()
      ensures Waiting() == old(Waiting()) + if HasWork(manager.GetLocalPeerData(handle).value) then {} else {handle.id}
    {
      var p := manager.GetLocalPeerData(handle).value;
      hide FreeExactly, Linked, Versioned, Logged, Inverse, Members, PeerManager.FlushLive;
      if !p.HasQueuedSends() && !p.HasBufferedSends() {
        manager.peersToFlush.Insert(handle.id);
        OneMoreLive(manager.peers, old(List()), List(), handle.id);
      }
    }

    lemma Shape()
      requires manager.Valid()
      ensures |manager.peers| == |manager.versions|
    {
    }

    /** A peer sits in one slot only. */
    lemma OneSlotEach()
      requires manager.Valid()
      ensures forall i, j :: 0 <= i < j < |manager.peers| && manager.peers[i].Some? ==>
                manager.peers[i] != manager.peers[j]
    {
      var m := manager;
      forall i, j | 0 <= i < j < |m.peers| && m.peers[i].Some?
        ensures m.peers[i] != m.peers[j]
      {
        assert AtHome(m.perHostOffset, m.hostPeers, Ids(m.handleOf), m.hostOf, m.peers[i].value, i);
        assert m.peers[j].Some? ==>
                 AtHome(m.perHostOffset, m.hostPeers, Ids(m.handleOf), m.hostOf, m.peers[j].value, j);
      }
    }

    /** One visit of the sweep. */
    method Visit(peerId: nat)
      requires manager.peersToFlush.Valid() && peerId < |manager.peers|
      requires manager.peers[peerId].Some? ==> manager.peers[peerId].value.Valid()
      modifies this`visits, manager.peersToFlush,
               if manager.peers[peerId].Some? then {manager.peers[peerId].value} else {}
      ensures manager.peersToFlush.Valid() && visits == old(visits) + [peerId]
      ensures manager.peers[peerId].Some? ==> var p := manager.peers[peerId].value;
                p.accepted == old(p.accepted) && p.ready == old(p.ready) && p.disconnecting == old(p.disconnecting) &&
                p.open == old(p.open) && p.closed == old(p.closed) && ServedSelf(p, old(FlowOf(p)), FlowOf(p))
      ensures manager.peers[peerId].Some? ==> manager.peers[peerId].value.Valid()
      ensures manager.peers[peerId].Some? && HasWork(manager.peers[peerId].value) ==>
                List() == old(List())
      ensures !(manager.peers[peerId].Some? && HasWork(manager.peers[peerId].value)) ==>
                Dropped(old(List()), List(), peerId)
    {
      hide TcpPeer.Valid, Inverse, ServedSelf, FlowOf;
      visits := visits + [peerId];
      var peer := manager.peers[peerId];
      if peer.Some? {
        var p := peer.value;
        if p.HasBufferedSends() || p.HasQueuedSends() {
          Offer(p);
        } else {
          IdleServed(p);
        }
        if !p.HasBufferedSends() && !p.HasQueuedSends() {
          manager.peersToFlush.Remove(peerId);
        }
      } else {
        manager.peersToFlush.Remove(peerId);
      }
    }

    /** The socket of `p` is told to be writable. */
    method Offer(p: TcpPeer)
      requires p.Valid()
      modifies p
      ensures p.Valid() && p.accepted == old(p.accepted) && p.ready == old(p.ready)
      ensures p.disconnecting == old(p.disconnecting) && p.open == old(p.open) && p.closed == old(p.closed)
      ensures ServedSelf(p, old(FlowOf(p)), FlowOf(p))
      ensures (HasWork(p) ==> old(HasWork(p))) && (old(p.Drainable()) ==> !HasWork(p))
    {
      hide TcpPeer.Valid, TcpPeer.Outcome, Tried, TcpPeer.Backlog;
      var ret := p.OnWritable();
      WholeIff(old(p.writes), p.writes, old(p.Backlog()), p.Backlog(), p.Staged(), ret);
    }

    static lemma WholeIff(before: seq<Write>, after: seq<Write>, backlog0: int, backlog: int, staged: seq<byte>,
                          ret: bool)
      ensures TcpPeer.Outcome(before, after, backlog0, backlog, staged, ret) ==> (ret <==> Tried(before, after, true))
    {
    }

    /** A peer without work needs no telling. */
    lemma IdleServed(p: TcpPeer)
      requires p.Valid() && !HasWork(p)
      ensures ServedSelf(p, FlowOf(p), FlowOf(p))
    {
      TriedNothing(p.writes);
    }

    /** `after` is `before` without `peerId`, whose place the last element took. */
    static ghost predicate Dropped(before: seq<nat>, after: seq<nat>, peerId: nat) {
      && Members(after) == Members(before) - {peerId}
      && forall i :: 0 <= i < |before| && before[i] == peerId ==> after == SwapRemove(before, i)
    }

    /**
     In the middle of the sweep over `start`: the first `i` entries are still to be visited and in
     place, and behind them stand exactly the visited ids that stay.
     */
    static ghost predicate Swept(start: seq<nat>, now: seq<nat>, i: nat, stay: set<nat>) {
      && i <= |start| && i <= |now| && now[..i] == start[..i]
      && Members(now[i..]) == stay
      && forall p :: p in stay ==> p in start[i..]
    }

    static lemma SweepStay(start: seq<nat>, now: seq<nat>, i: nat, stay: set<nat>)
      requires i > 0 && Swept(start, now, i, stay)
      ensures Swept(start, now, i - 1, stay + {start[i - 1]})
    {
      assert now[i - 1] == now[..i][i - 1] == start[i - 1];
      assert now[i - 1..] == [now[i - 1]] + now[i..];
      assert start[i - 1..] == [start[i - 1]] + start[i..];
    }

    static lemma SweepDrop(start: seq<nat>, now: seq<nat>, i: nat, stay: set<nat>)
      requires i > 0 && Swept(start, now, i, stay)
      ensures Swept(start, SwapRemove(now, i - 1), i - 1, stay)
    {
      var r, n := SwapRemove(now, i - 1), |now| - 1;
      assert r[..i - 1] == now[..i - 1] == now[..i][..i - 1];
      assert start[..i - 1] == start[..i][..i - 1];
      assert start[i - 1..] == [start[i - 1]] + start[i..];
      forall p | p in Members(now[i..])
        ensures p in r[i - 1..]
      {
        var j :| 0 <= j < |now[i..]| && now[i..][j] == p;
        assert now[i + j] == p;
        var k := if i + j == n then i - 1 else i + j;
        assert r[k] == p && r[i - 1..][k - (i - 1)] == p;
      }
      forall p | p in r[i - 1..]
        ensures p in Members(now[i..])
      {
        var j :| 0 <= j < |r[i - 1..]| && r[i - 1..][j] == p;
        assert r[i - 1 + j] == p;
        var k := if j == 0 then n else i - 1 + j;
        assert now[k] == p && now[i..][k - i] == p;
      }
    }

    /** The peer in slot `id` has something to send. */
    ghost predicate Busy(id: nat)
      reads this`known, manager, known
    {
      id < |manager.peers| && manager.peers[id].Some? && manager.peers[id].value in known &&
      HasWork(manager.peers[id].value)
    }

    /** One flush empties the peer in slot `id`. */
    ghost predicate Drainable(id: nat)
      reads this`known, manager, known
    {
      id < |manager.peers| && manager.peers[id].Some? && manager.peers[id].value in known &&
      manager.peers[id].value.Drainable()
    }

    /**
     `FlushPendingPeers` walks the set backwards while it shrinks: every member is visited exactly
     once, and served; exactly the members that still have something to send stay, and a peer that one
     flush can empty does not.  Nothing is accepted on the way, and nobody else sends.
     */
    method FlushPendingPeers()
      requires Valid()
      modifies this`visits, manager.peersToFlush, known
      ensures Valid()
      ensures visits == old(visits) + Reversed(old(List()))
      ensures Waiting() == set id | id in old(Waiting()) && Busy(id)
      ensures forall id :: id in old(Waiting()) && old(Drainable(id)) ==> id !in Waiting()
      ensures Book() == old(Book()) && Serving(old(List()), 0, manager.peers, Book(), old(Flows()), Flows())
    {
      ghost var stay := Sweep();
      SweepEnd(old(List()), stay);
      forall id | id in old(Waiting()) && old(Drainable(id))
        ensures id !in Waiting()
      {
        DrainedGone(id);
      }
    }

    /** A member that one flush can empty has nothing left to send after it. */
    twostate lemma DrainedGone(id: nat)
      requires old(Drainable(id)) && id in old(Waiting()) && known == old(known) && manager.peers == old(manager.peers)
      requires old(Valid()) && Valid() && Book() == old(Book())
      requires Serving(old(List()), 0, manager.peers, Book(), old(Flows()), Flows())
      ensures !Busy(id)
    {
      var p := manager.peers[id].value;
      var start := old(List());
      var j :| 0 <= j < |start| && start[j] == id;
      assert Among(start, 0, manager.peers, p);
      assert p in Book().usable && p in Book().ready && p !in Book().leaving by {
        assert p in old(Book()).usable && p in old(Book()).ready && p !in old(Book()).leaving;
      }
      assert Served(Book(), p, old(FlowOf(p)), FlowOf(p)) by {
        assert old(Flows())[p] == old(FlowOf(p)) && Flows()[p] == FlowOf(p);
      }
      hide Serving, Book, Flows, Tried, TcpPeer.PackedButLast, TcpPeer.LastOffer, PeerManager.Valid;
    }

    /** The loop of `FlushPendingPeers`. */
    method Sweep() returns (ghost stay: set<nat>)
      requires Valid()
      modifies this`visits, manager.peersToFlush, known
      ensures Sweeping(old(List()), 0, stay)
      ensures visits == old(visits) + Reversed(old(List()))
      ensures Book() == old(Book()) && Serving(old(List()), 0, manager.peers, Book(), old(Flows()), Flows())
    {
      ghost var start := List();
      stay := {};
      SweepBegin(start);
      hide Valid, Sweeping, Progress, Book, Flows, Busy, Serving;
      var i := |manager.peersToFlush.peers| - 1;
      while i >= 0
        invariant -1 <= i < |start| && Progress(start, i + 1, stay, old(visits), old(Book()), old(Flows()))
      {
        stay := SweepTurn(i, start, stay, old(visits), old(Book()), old(Flows()));
        i := i - 1;
      }
      SweepDone(start, stay, old(visits), old(Book()), old(Flows()));
    }

    /** `p` is in a slot that the list names from position `i` on. */
    static ghost predicate Among(start: seq<nat>, i: nat, slots: seq<Option<TcpPeer>>, p: TcpPeer) {
      exists j :: i <= j < |start| && start[j] < |slots| && slots[start[j]] == Some(p)
    }

    /** Of all peers, exactly those named from position `i` on were served. */
    static ghost predicate Serving(start: seq<nat>, i: nat, slots: seq<Option<TcpPeer>>, book: Ledger,
                                   before: map<TcpPeer, Flow>, after: map<TcpPeer, Flow>)
    {
      && before.Keys == after.Keys
      && forall p :: p in before ==>
           if Among(start, i, slots, p) then Served(book, p, before[p], after[p]) else after[p] == before[p]
    }

    static lemma ServingStep(start: seq<nat>, i: nat, slots: seq<Option<TcpPeer>>, book: Ledger,
                             f0: map<TcpPeer, Flow>, f1: map<TcpPeer, Flow>, f2: map<TcpPeer, Flow>, p: TcpPeer)
      requires i < |start| && start[i] < |slots| && slots[start[i]] == Some(p) && !Among(start, i + 1, slots, p)
      requires Serving(start, i + 1, slots, book, f0, f1) && OneServed(book, f1, f2, p)
      ensures Serving(start, i, slots, book, f0, f2)
    {
      hide Served;
      forall q | q in f0
        ensures if Among(start, i, slots, q) then Served(book, q, f0[q], f2[q]) else f2[q] == f0[q]
      {
        if q == p {
          assert start[i] < |slots| && slots[start[i]] == Some(q);
        } else {
          AmongStep(start, i, slots, q);
        }
      }
    }

    static lemma AmongStep(start: seq<nat>, i: nat, slots: seq<Option<TcpPeer>>, q: TcpPeer)
      requires i < |start| && start[i] < |slots| && slots[start[i]] != Some(q)
      ensures Among(start, i, slots, q) <==> Among(start, i + 1, slots, q)
    {
    }

    /** The sweep with `i` ids left to visit, since the logs were `visits0`, `book0` and `flows0`. */
    ghost predicate Progress(start: seq<nat>, i: nat, stay: set<nat>, visits0: seq<nat>, book0: Ledger,
                             flows0: map<TcpPeer, Flow>)
      reads this, manager, manager.peersToFlush, known
    {
      && Sweeping(start, i, stay) && i <= |start| && visits == visits0 + Reversed(start[i..])
      && Book() == book0 && Serving(start, i, manager.peers, book0, flows0, Flows())
    }

    lemma SweepDone(start: seq<nat>, stay: set<nat>, visits0: seq<nat>, book0: Ledger, flows0: map<TcpPeer, Flow>)
      requires Progress(start, 0, stay, visits0, book0, flows0)
      ensures Sweeping(start, 0, stay) && visits == visits0 + Reversed(start)
      ensures Book() == book0 && Serving(start, 0, manager.peers, book0, flows0, Flows())
    {
      assert start[0..] == start;
    }

    /** One turn of the sweep, with the logs. */
    method SweepTurn(i: nat, ghost start: seq<nat>, ghost stay: set<nat>, ghost visits0: seq<nat>, ghost book0: Ledger,
                     ghost flows0: map<TcpPeer, Flow>)
      returns (ghost stay': set<nat>)
      requires Progress(start, i + 1, stay, visits0, book0, flows0)
      modifies this`visits, manager.peersToFlush, known
      ensures Progress(start, i, stay', visits0, book0, flows0)
    {
      NotYet(start, i, stay);
      hide Sweeping, Book, Flows, Serving, OneServed, Reversed;
      ghost var p := manager.peers[start[i]].value;
      stay' := SweepBody(i, start, stay);
      ServingStep(start, i, manager.peers, book0, flows0, old(Flows()), Flows(), p);
      ReversedStep(start, i);
    }

    /** The peer at position `i` is live, and is not the peer at any other position. */
    lemma NotYet(start: seq<nat>, i: nat, stay: set<nat>)
      requires Sweeping(start, i + 1, stay)
      ensures i < |start| && start[i] < |manager.peers| && manager.peers[start[i]].Some?
      ensures !Among(start, i + 1, manager.peers, manager.peers[start[i]].value)
    {
      SweepAt(start, i, stay);
      Slots(start[i]);
      hide Valid, Swept;
    }

    static ghost function Reversed(s: seq<nat>): (r: seq<nat>)
      ensures |r| == |s| && forall j :: 0 <= j < |s| ==> r[j] == s[|s| - 1 - j]
    {
      seq(|s|, j requires 0 <= j < |s| => s[|s| - 1 - j])
    }

    static lemma ReversedStep(s: seq<nat>, i: nat)
      requires i < |s|
      ensures Reversed(s[i..]) == Reversed(s[i + 1..]) + [s[i]]
    {
      assert s[i..] == [s[i]] + s[i + 1..];
    }

    /** Of the ids from position `i` on, exactly the busy ones stay. */
    ghost predicate StayBusy(start: seq<nat>, i: nat, stay: set<nat>)
      reads this`known, manager, known
    {
      forall j :: i <= j < |start| ==> (start[j] in stay <==> Busy(start[j]))
    }

    /** The whole state of the sweep with `i` ids left to visit. */
    ghost predicate Sweeping(start: seq<nat>, i: nat, stay: set<nat>)
      reads this`known, manager, manager.peersToFlush, known
    {
      && Valid() && NoRepeat(start) && i <= |start|
      && Swept(start, List(), i, stay)
      && StayBusy(start, i, stay)
    }

    lemma SweepBegin(start: seq<nat>)
      requires Valid() && start == List()
      ensures Progress(start, |start|, {}, visits, Book(), Flows())
    {
      assert start[|start|..] == [];
      hide Book, Flows;
    }

    lemma SweepEnd(start: seq<nat>, stay: set<nat>)
      requires Sweeping(start, 0, stay)
      ensures Valid() && Waiting() == set id | id in Members(start) && Busy(id)
    {
      assert List()[0..] == List() && start[0..] == start;
    }

    /** One turn of the sweep, at position `i`. */
    method SweepBody(i: nat, ghost start: seq<nat>, ghost stay: set<nat>) returns (ghost stay': set<nat>)
      requires Sweeping(start, i + 1, stay)
      modifies this`visits, manager.peersToFlush, known
      ensures Sweeping(start, i, stay') && i < |start| && visits == old(visits) + [start[i]]
      ensures start[i] < |manager.peers| && manager.peers[start[i]].Some?
      ensures Book() == old(Book()) && OneServed(Book(), old(Flows()), Flows(), manager.peers[start[i]].value)
    {
      SweepAt(start, i, stay);
      hide *;
      var peerId := manager.peersToFlush.peers[i];
      VisitValid(peerId);
      SweepOn(start, i, stay);
      stay' := if Busy(peerId) then stay + {peerId} else stay;
    }

    lemma SweepAt(start: seq<nat>, i: nat, stay: set<nat>)
      requires Sweeping(start, i + 1, stay)
      ensures Valid() && i < |start| && i < |List()| && List()[i] == start[i] && List() == manager.peersToFlush.peers
    {
      SweepNext(start, List(), i + 1, stay);
    }

    twostate lemma SweepOn(new start: seq<nat>, new i: nat, new stay: set<nat>)
      requires old(Sweeping(start, i + 1, stay)) && Valid() && i < |start|
      requires known == old(known) && unchanged(manager)
      requires forall id :: 0 <= id < |manager.peers| && id != start[i] && manager.peers[id].Some? ==>
                 unchanged(manager.peers[id].value)
      requires if Busy(start[i]) then List() == old(List()) else Dropped(old(List()), List(), start[i])
      ensures Sweeping(start, i, if Busy(start[i]) then stay + {start[i]} else stay)
    {
      SweepNext(start, old(List()), i + 1, stay);
      NextIsNew(start, old(List()), i, stay);
      hide NoRepeat, Valid, Swept, Members, Dropped, Busy, List, StayBusy;
      SweepCount(start, i, stay);
      SweepStep(start, old(List()), List(), i + 1, stay, Busy(start[i]));
    }

    twostate lemma SweepCount(new start: seq<nat>, new i: nat, new stay: set<nat>)
      requires Valid() && i < |start| && known == old(known) && unchanged(manager)
      requires old(StayBusy(start, i + 1, stay))
      requires forall id :: 0 <= id < |manager.peers| && id != start[i] && manager.peers[id].Some? ==>
                 unchanged(manager.peers[id].value)
      requires start[i] !in stay && forall j :: 0 <= j < |start| && j != i ==> start[j] != start[i]
      ensures StayBusy(start, i, if Busy(start[i]) then stay + {start[i]} else stay)
    {
      OthersAll(start, i);
      hide Valid, Busy;
    }

    twostate lemma OthersAll(new start: seq<nat>, new i: nat)
      requires Valid() && i < |start| && known == old(known) && unchanged(manager)
      requires forall id :: 0 <= id < |manager.peers| && id != start[i] && manager.peers[id].Some? ==>
                 unchanged(manager.peers[id].value)
      requires forall j :: 0 <= j < |start| && j != i ==> start[j] != start[i]
      ensures forall j :: 0 <= j < |start| && j != i ==> (Busy(start[j]) <==> old(Busy(start[j])))
    {
      hide Valid, Busy;
      forall j | 0 <= j < |start| && j != i
        ensures Busy(start[j]) <==> old(Busy(start[j]))
      {
        OthersSame(start[i], start[j]);
      }
    }

    /** Peers that did not change are as busy as before. */
    twostate lemma OthersSame(peerId: nat, new id: nat)
      requires id != peerId && known == old(known) && unchanged(manager)
      requires forall id :: 0 <= id < |manager.peers| && id != peerId && manager.peers[id].Some? ==>
                 unchanged(manager.peers[id].value)
      ensures Busy(id) <==> old(Busy(id))
    {
      hide HasWork;
    }

    static ghost predicate NoRepeat(s: seq<nat>) {
      forall j, k :: 0 <= j < k < |s| ==> s[j] != s[k]
    }

    static lemma NextIsNew(start: seq<nat>, now: seq<nat>, i: nat, stay: set<nat>)
      requires NoRepeat(start) && i < |start| && Swept(start, now, i + 1, stay)
      ensures start[i] !in stay
      ensures forall j :: 0 <= j < |start| && j != i ==> start[j] != start[i]
    {
    }

    static lemma SweepNext(start: seq<nat>, now: seq<nat>, i: nat, stay: set<nat>)
      requires i > 0 && Swept(start, now, i, stay)
      ensures i <= |now| && i <= |start| && now[i - 1] == start[i - 1]
    {
      assert now[i - 1] == now[..i][i - 1];
    }

    static lemma SweepStep(start: seq<nat>, now: seq<nat>, after: seq<nat>, i: nat, stay: set<nat>, busy: bool)
      requires i > 0 && Swept(start, now, i, stay) && now[i - 1] == start[i - 1]
      requires if busy then after == now else Dropped(now, after, start[i - 1])
      ensures Swept(start, after, i - 1, if busy then stay + {start[i - 1]} else stay)
    {
      if busy {
        SweepStay(start, now, i, stay);
      } else {
        assert after == SwapRemove(now, i - 1);
        SweepDrop(start, now, i, stay);
      }
    }

    /** A visit keeps the loop valid and touches no other peer. */
    method VisitValid(peerId: nat)
      requires Valid() && peerId in List()
      modifies this`visits, manager.peersToFlush, known
      ensures Valid() && visits == old(visits) + [peerId] && known == old(known) && unchanged(manager)
      ensures peerId < |manager.peers| && manager.peers[peerId].Some?
      ensures Book() == old(Book()) && OneServed(Book(), old(Flows()), Flows(), manager.peers[peerId].value)
      ensures forall id :: 0 <= id < |manager.peers| && id != peerId && manager.peers[id].Some? ==>
                unchanged(manager.peers[id].value)
      ensures if Busy(peerId) then List() == old(List()) else Dropped(old(List()), List(), peerId)
    {
      hide Valid, PeerManager.Valid, TcpPeer.Valid, Dropped, HasWork, Book, Flows, OneServed;
      Slots(peerId);
      VisitPeer(peerId, manager.peers[peerId].value);
      VisitKeeps(peerId);
    }

    /** A visit of a live peer changes no other peer and no log but that of the bytes sent. */
    method VisitPeer(peerId: nat, p: TcpPeer)
      requires manager.peersToFlush.Valid() && peerId < |manager.peers| && manager.peers[peerId] == Some(p)
      requires p in known && p.Valid()
      modifies this`visits, manager.peersToFlush, p
      ensures manager.peersToFlush.Valid() && p.Valid() && visits == old(visits) + [peerId]
      ensures Book() == old(Book()) && OneServed(Book(), old(Flows()), Flows(), p)
      ensures if HasWork(p) then List() == old(List()) else Dropped(old(List()), List(), peerId)
    {
      hide TcpPeer.Valid, Dropped, HasWork, Book, Flows, OneServed, ServedSelf, FlowOf;
      Visit(peerId);
      SentOne(p);
    }

    lemma Slots(peerId: nat)
      requires Valid() && peerId in List()
      ensures manager.peersToFlush.Valid() && peerId < |manager.peers| && manager.peers[peerId].Some?
      ensures manager.peers[peerId].value in known && manager.peers[peerId].value.Valid()
      ensures forall id :: 0 <= id < |manager.peers| && id != peerId ==> manager.peers[id] != manager.peers[peerId]
    {
      OneSlotEach();
    }

    twostate lemma VisitKeeps(peerId: nat)
      requires old(Valid()) && known == old(known) && unchanged(manager)
      requires forall id :: 0 <= id < |manager.peers| && id != peerId && manager.peers[id].Some? ==>
                 unchanged(manager.peers[id].value)
      requires manager.peersToFlush.Valid() && peerId in old(List())
      requires manager.peers[peerId].Some? ==> manager.peers[peerId].value.Valid()
      requires if Busy(peerId) then List() == old(List()) else Dropped(old(List()), List(), peerId)
      ensures Valid()
    {
      hide PeerManager.Valid, TcpPeer.Valid, Dropped, Members, HasWork, Waiting;
      TablesKept(peerId, Busy(peerId));
      forall id | 0 <= id < |manager.peers| && manager.peers[id].Some?
        ensures manager.peers[id].value in known && manager.peers[id].value.Valid()
        ensures HasWork(manager.peers[id].value) ==> id in Waiting()
      {
        if id != peerId {
          OthersSame(peerId, id);
        }
      }
    }

    /** Keeping the flush set or dropping one id from it keeps the tables valid. */
    twostate lemma TablesKept(peerId: nat, new busy: bool)
      requires old(manager.Valid()) && unchanged(manager) && manager.peersToFlush.Valid()
      requires if busy then List() == old(List()) else Dropped(old(List()), List(), peerId)
      ensures manager.Valid() && Waiting() == if busy then old(Waiting()) else old(Waiting()) - {peerId}
      ensures peerId in old(List()) ==> peerId in old(Waiting())
    {
      hide FreeExactly, Linked, Versioned, Logged, Inverse;
      SubsetLive(manager.peers, old(List()), List());
    }

    static lemma OneMoreLive(peers: seq<Option<TcpPeer>>, before: seq<nat>, after: seq<nat>, id: nat)
      requires PeerManager<TcpPeer>.FlushLive(peers, before) && Members(after) == Members(before) + {id}
      requires id < |peers| && peers[id].Some?
      ensures PeerManager<TcpPeer>.FlushLive(peers, after)
    {
      forall i | 0 <= i < |after|
        ensures after[i] < |peers| && peers[after[i]].Some?
      {
        assert after[i] in Members(after);
      }
    }

    static lemma SubsetLive(peers: seq<Option<TcpPeer>>, before: seq<nat>, after: seq<nat>)
      requires PeerManager<TcpPeer>.FlushLive(peers, before) && Members(after) <= Members(before)
      ensures PeerManager<TcpPeer>.FlushLive(peers, after)
    {
      forall i | 0 <= i < |after|
        ensures after[i] < |peers| && peers[after[i]].Some?
      {
        assert after[i] in Members(before);
      }
    }

    /** A connection opens: its peer joins the table with nothing to send and may not send yet. */
    method Open(h: nat, capacity: nat, eager: bool) returns (handle: Handle, p: TcpPeer)
      requires Valid() && h < |manager.hostPeers| && 0 < capacity < 0x8000_0000
      modifies this`known, manager
      ensures Valid() && fresh(p) && known == old(known) + {p}
      ensures |manager.peers| == |manager.versions| && manager.GetLocalPeerData(handle) == Some(p)
      ensures Opened(old(Snap()), handle.id, p, Snap()) && handle.id !in Waiting()
      ensures |manager.hostPeers| == old(|manager.hostPeers|)
      ensures p.eager == eager && p.open && !p.ready && !p.disconnecting && !p.closed && p.Backlog() == 0 && !HasWork(p)
    {
      hide Valid, TcpPeer.Valid, Opened, Waiting, Book, Flows;
      p := new TcpPeer(capacity, eager);
      handle := Enlist(h, p);
    }

    /** A new peer joins the table and the logs. */
    method Enlist(h: nat, p: TcpPeer) returns (handle: Handle)
      requires Valid() && h < |manager.hostPeers| && p !in known && p.Valid() && !HasWork(p)
      requires p.accepted == [] && FlowOf(p) == NO_FLOW
      requires p.open && !p.ready && !p.disconnecting && !p.closed
      modifies this`known, manager
      ensures Valid() && known == old(known) + {p} && |manager.hostPeers| == old(|manager.hostPeers|)
      ensures |manager.peers| == |manager.versions| && manager.GetLocalPeerData(handle) == Some(p)
      ensures Opened(old(Snap()), handle.id, p, Snap()) && handle.id !in Waiting()
    {
      hide Valid, TcpPeer.Valid, FlowOf, HasWork, Waiting, Book, Flows, Placed, Extended, Drawn;
      handle := Join(h, p);
      Entered(p);
    }

    method Join(h: nat, p: TcpPeer) returns (handle: Handle)
      requires Valid() && h < |manager.hostPeers| && p !in known && p.Valid() && !HasWork(p)
      modifies this`known, manager
      ensures Valid() && known == old(known) + {p} && |manager.hostPeers| == old(|manager.hostPeers|)
      ensures |manager.peers| == |manager.versions| && manager.GetLocalPeerData(handle) == Some(p)
      ensures Placed(old(manager.peers), manager.peers, handle.id, p)
      ensures manager.versions == Extended(old(manager.versions), handle.id, 1)
      ensures Drawn(old(manager.peers), old(manager.freeIds), handle.id, manager.freeIds)
      ensures Waiting() == old(Waiting()) && handle.id !in Waiting()
    {
      hide PeerManager.Valid, TcpPeer.Valid, FreeExactly, Linked, Versioned, Logged, Inverse, PeerManager.FlushLive;
      hide Extended, Drawn, VersionAfter, HasWork, TcpPeer.HasQueuedSends, TcpPeer.HasBufferedSends;
      handle := manager.Alloc(h, p);
      Shape();
      known := known + {p};
    }

    /** Only the new peer entered the logs. */
    twostate lemma Entered(p: TcpPeer)
      requires known == old(known) + {p} && p !in old(known)
      requires forall q :: q in known ==> unchanged(q)
      requires p.accepted == [] && FlowOf(p) == NO_FLOW
      requires p.open && !p.ready && !p.disconnecting && !p.closed
      ensures Book() == old(Book()).Enter(p) && Flows() == old(Flows())[p := NO_FLOW] && p !in old(Book()).accepted
    {
      assert Book().accepted == old(Book()).Enter(p).accepted;
    }

    /** A connection is gone: its slot is emptied and it is not flushed any more. */
    method Close(h: nat, handle: Handle) returns (data: Option<TcpPeer>)
      requires Valid() && h < |manager.hostPeers|
      requires |manager.peers| == |manager.versions|
      requires manager.GetLocalPeerData(handle).Some? ==>
                 var p := manager.GetLocalPeerData(handle).value; p in manager.hostOf && manager.hostOf[p] == h
      modifies manager, manager.peersToFlush
      ensures Valid() && data == old(manager.GetLocalPeerData(handle))
      ensures Stepped(old(Snap()), Event.Close(handle), Snap())
      ensures |manager.hostPeers| == old(|manager.hostPeers|)
    {
      hide PeerManager.Valid, TcpPeer.Valid, FreeExactly, Linked, Versioned;
      hide Logged, Inverse, PeerManager.FlushLive, Members, Book, Flows;
      SmallVersions();
      data := manager.Release(h, handle);
    }

    lemma SmallVersions()
      requires manager.Valid()
      ensures |manager.peers| == |manager.versions| && FreeExactly(manager.peers, manager.freeIds)
      ensures forall id :: 0 <= id < |manager.versions| ==> 1 <= manager.versions[id] < U32
    {
    }

    /** The socket of a peer reports that it can take more. */
    method OnWritable(handle: Handle)
      requires Valid()
      modifies known
      ensures Valid() && |manager.peers| == |manager.versions|
      ensures Stepped(old(Snap()), Writable(handle), Snap())
      ensures manager.GetLocalPeerData(handle).Some? && old(Drainable(handle.id)) ==> !Busy(handle.id)
    {
      Shape();
      hide Valid, PeerManager.Valid, TcpPeer.Valid, Waiting, OneServed, Book, Flows;
      var data := manager.GetLocalPeerData(handle);
      if data.Some? {
        Located(handle);
        Push(handle.id, data.value);
      }
    }

    method Push(id: nat, p: TcpPeer)
      requires Valid() && id < |manager.peers| && manager.peers[id] == Some(p) && p in known
      modifies p
      ensures Valid() && (old(p.Drainable()) ==> !HasWork(p))
      ensures Book() == old(Book()) && OneServed(Book(), old(Flows()), Flows(), p)
    {
      PeerIn(id);
      hide Valid, TcpPeer.Valid, Waiting, Book, Flows, OneServed, HasWork, TcpPeer.Drainable;
      PushOut(p);
      StaysValid(id, p);
    }

    method PushOut(p: TcpPeer)
      requires p in known && p.Valid()
      modifies p
      ensures p.Valid() && (old(p.Drainable()) ==> !HasWork(p)) && (HasWork(p) ==> old(HasWork(p)))
      ensures Book() == old(Book()) && OneServed(Book(), old(Flows()), Flows(), p)
    {
      hide TcpPeer.Valid, Book, Flows, OneServed, ServedSelf, FlowOf, TcpPeer.Drainable;
      Offer(p);
      SentOne(p);
    }

    /** A peer becomes ready to send, or starts to disconnect. */
    method Mark(handle: Handle, leaving: bool)
      requires Valid()
      modifies known
      ensures Valid() && Stepped(old(Snap()), if leaving then Disconnect(handle) else Event.Ready(handle), Snap())
    {
      Shape();
      var data := manager.GetLocalPeerData(handle);
      if data.Some? {
        Located(handle);
        MarkPeer(data.value, leaving);
      }
    }

    method MarkPeer(p: TcpPeer, leaving: bool)
      requires Valid() && p in known
      modifies p`ready, p`disconnecting
      ensures Valid() && Flows() == old(Flows()) && Waiting() == old(Waiting())
      ensures Book() ==
                if leaving then old(Book()).(leaving := old(Book()).leaving + {p})
                else old(Book()).(ready := old(Book()).ready + {p})
    {
      hide PeerManager.Valid, TcpPeer.Valid, HasWork, Waiting, Book, Flows;
      if leaving {
        p.disconnecting := true;
      } else {
        p.ready := true;
      }
      MarkedOne(p, leaving);
      FlagsOnly(p);
    }

    twostate lemma MarkedOne(p: TcpPeer, new leaving: bool)
      requires known == old(known) && p in known
      requires forall q :: q in known && q != p ==> unchanged(q)
      requires p.accepted == old(p.accepted) && FlowOf(p) == old(FlowOf(p))
      requires p.open == old(p.open) && p.closed == old(p.closed)
      requires p.ready == (old(p.ready) || !leaving) && p.disconnecting == (old(p.disconnecting) || leaving)
      ensures Flows() == old(Flows())
      ensures Book() ==
                if leaving then old(Book()).(leaving := old(Book()).leaving + {p})
                else old(Book()).(ready := old(Book()).ready + {p})
    {
      assert Book().accepted == old(Book()).accepted;
    }

    /** The flags of a peer say nothing about its bytes. */
    twostate lemma FlagsOnly(p: TcpPeer)
      requires p.globalQueue == old(p.globalQueue) && p.localQueue == old(p.localQueue)
      requires p.localQueueOffset == old(p.localQueueOffset)
      requires p.writeBuffer == old(p.writeBuffer) && p.writeBufferOffset == old(p.writeBufferOffset)
      requires p.wire == old(p.wire) && p.accepted == old(p.accepted)
      ensures p.Valid() == old(p.Valid()) && HasWork(p) == old(HasWork(p))
    {
    }

    /** In every valid state no flush is lost, and the slots are tidy. */
    lemma NothingLost()
      requires Valid()
      ensures NoLostFlush(Snap()) && Tidy(Snap())
    {
      SmallVersions();
      hide PeerManager.Valid, Members;
      forall id: nat | id !in Waiting()
        ensures SentAll(Snap(), id)
      {
        if id < |manager.peers| && manager.peers[id].Some? {
          manager.peers[id].value.Drained();
        }
      }
    }

    method FlushStep()
      requires Valid()
      modifies this`visits, manager.peersToFlush, known
      ensures Valid() && Stepped(old(Snap()), Flush, Snap())
    {
      hide Valid, SentAll, Laden, AllServed, Serving, Book, Flows, Waiting, Busy, Drainable;
      FlushPendingPeers();
      NothingLost();
      BusyLaden();
      ListWaits(old(List()), old(Waiting()));
      ServedBySweep(old(List()), old(Snap()), Snap());
    }

    /** To have work is to have frames queued or bytes staged. */
    lemma BusyLaden()
      requires Valid()
      ensures forall id: nat :: Busy(id) <==> Laden(Snap(), id)
    {
      hide PeerManager.Valid, Members, Concat, Tails;
      forall id: nat
        ensures Busy(id) <==> Laden(Snap(), id)
      {
        if id < |manager.peers| && manager.peers[id].Some? && manager.peers[id].value in known {
          assert Flows()[manager.peers[id].value] == FlowOf(manager.peers[id].value);
        }
      }
    }

    twostate lemma ListWaits(new start: seq<nat>, new waiting: set<nat>)
      requires start == old(List()) && waiting == old(Waiting())
      ensures Members(start) == waiting
    {
    }

    static lemma AwaitsIffAmong(start: seq<nat>, a: Snapshot, p: TcpPeer)
      requires Members(start) == a.waiting
      ensures Awaits(a, p) <==> Among(start, 0, a.slots, p)
    {
      assert forall j :: 0 <= j < |start| ==> start[j] in a.waiting;
      assert forall id :: id in a.waiting ==> id in start;
    }

    static lemma ServedBySweep(start: seq<nat>, a: Snapshot, b: Snapshot)
      requires Members(start) == a.waiting && Serving(start, 0, a.slots, a.book, a.flows, b.flows)
      ensures AllServed(a, b)
    {
      hide Served;
      forall p | p in a.flows
        ensures Awaits(a, p) <==> Among(start, 0, a.slots, p)
      {
        AwaitsIffAmong(start, a, p);
      }
    }

    method SendStep(handle: Handle, frame: seq<byte>)
      requires Valid()
      modifies manager.peersToFlush, known
      ensures Valid() && Stepped(old(Snap()), Event.Send(handle, frame), Snap())
    {
      Shape();
      Resolved(handle);
      hide Valid, Waiting, Flows, Book, Loaded, PeerManager.GetLocalPeerData, Snapshot.Resolve;
      Send(handle, frame);
    }

    /** What a handle stands for in a snapshot. */
    lemma Resolved(handle: Handle)
      requires |manager.peers| == |manager.versions|
      ensures Snap().Resolve(handle) == manager.GetLocalPeerData(handle)
      ensures Flows().Keys == known == Book().accepted.Keys
      ensures manager.GetLocalPeerData(handle).Some? && manager.GetLocalPeerData(handle).value in known ==>
                (manager.GetLocalPeerData(handle).value in Book().leaving <==>
                 manager.GetLocalPeerData(handle).value.disconnecting)
    {
    }

    method CloseStep(handle: Handle)
      requires Valid()
      modifies manager, manager.peersToFlush
      ensures Valid() && Stepped(old(Snap()), Event.Close(handle), Snap())
      ensures |manager.hostPeers| == old(|manager.hostPeers|)
    {
      hide Valid, PeerManager.Valid, Book, Flows, Waiting;
      ShapeValid();
      var data := manager.GetLocalPeerData(handle);
      if data.Some? {
        LiveHost(handle);
        var _ := Close(manager.hostOf[data.value], handle);
      }
    }

    lemma ShapeValid()
      requires Valid()
      ensures |manager.peers| == |manager.versions|
    {
    }

    lemma LiveHost(handle: Handle)
      requires Valid() && |manager.peers| == |manager.versions| && manager.GetLocalPeerData(handle).Some?
      ensures var p := manager.GetLocalPeerData(handle).value;
              p in manager.hostOf && manager.hostOf[p] < |manager.hostPeers|
    {
      var m, p := manager, manager.GetLocalPeerData(handle).value;
      assert AtHome(m.perHostOffset, m.hostPeers, Ids(m.handleOf), m.hostOf, p, handle.id);
    }

    /** One event. */
    method Step(e: Event)
      requires Valid() && (e.Open? ==> e.host < |manager.hostPeers| && 0 < e.capacity < 0x8000_0000)
      modifies this, manager, manager.peersToFlush, known
      ensures Valid() && Stepped(old(Snap()), e, Snap())
      ensures fresh(known - old(known)) && old(known) <= known && |manager.hostPeers| == old(|manager.hostPeers|)
    {
      hide Valid, Opened, OneServed, AllServed, SentAll, Book, Flows, Waiting;
      match e
      case Open(h, capacity, eager) =>
        var handle, p := Open(h, capacity, eager);
        InFlows(p);
      case Ready(handle) =>
        Mark(handle, false);
      case Send(handle, frame) =>
        SendStep(handle, frame);
      case Writable(handle) =>
        OnWritable(handle);
      case Flush =>
        FlushStep();
      case Disconnect(handle) =>
        Mark(handle, true);
      case Close(handle) =>
        CloseStep(handle);
    }

    lemma InFlows(p: TcpPeer)
      requires p in known
      ensures p in Flows()
    {
    }

    /**
     A new peer whose socket takes everything: as many sweeps as its frames fill batches send them all,
     and then the peer waits no more.
     */
    method SendAndFlush(h: nat, capacity: nat, frames: seq<seq<byte>>)
      returns (handle: Handle, p: TcpPeer, sweeps: nat)
      requires Valid() && h < |manager.hostPeers| && 0 < capacity < 0x8000_0000
      modifies this, manager, manager.peersToFlush, known
      ensures Valid() && fresh(p) && p.wire == Concat(frames) && handle.id !in Waiting()
      ensures sweeps == if frames == [] then 1 else (|frames| + FLUSH_BATCH - 1) / FLUSH_BATCH
    {
      hide Valid, Primed, Stepped, Opened, SentAll, NoLostFlush;
      hide Concat, Book, Flows, Drainable, Waiting, Serving, Reversed;
      handle, p := OpenReady(h, capacity);
      for i := 0 to |frames|
        invariant Valid() && Primed(Snap(), handle, p, frames[..i]) && known == old(known) + {p}
      {
        ghost var a := Snap();
        SendStep(handle, frames[i]);
        PrimedSend(a, handle, p, frames[..i], frames[i], Snap());
        assert frames[..i + 1] == frames[..i] + [frames[i]];
      }
      assert frames[..|frames|] == frames;
      sweeps := SweepAll(handle, p, frames);
    }

    method SweepAll(handle: Handle, p: TcpPeer, ghost frames: seq<seq<byte>>) returns (sweeps: nat)
      requires Valid() && Primed(Snap(), handle, p, frames) && p in known && p.eager
      modifies this`visits, manager.peersToFlush, known
      ensures Valid() && p.wire == Concat(frames) && handle.id !in Waiting()
      ensures sweeps == if frames == [] then 1 else (|frames| + FLUSH_BATCH - 1) / FLUSH_BATCH
    {
      PrimedStart(handle, p, frames);
      hide *;
      sweeps := SweepOut(handle.id, p, |frames|);
      EnoughBatches(|frames|, sweeps);
      AllGone(handle.id, p, frames);
    }

    /** Sweeps until `p`, which has `n` frames queued, has none. */
    method SweepOut(id: nat, p: TcpPeer, ghost n: nat) returns (sweeps: nat)
      requires Valid() && id < |manager.peers| && manager.peers[id] == Some(p) && p in Flows()
      requires p.eager && MaySend(Book(), p) && p.Backlog() == Flows()[p].backlog == n
      modifies this`visits, manager.peersToFlush, known
      ensures Valid() && known == old(known) && unchanged(manager) && Book() == old(Book())
      ensures sweeps > 0 && AfterBatches(n, sweeps) == 0 && (sweeps > 1 ==> AfterBatches(n, sweeps - 1) > 0)
      ensures id !in Waiting() && SentAll(Snap(), id)
    {
      Batches(n, 0);
      hide *;
      sweeps := 0;
      while sweeps == 0 || p.Backlog() > 0
        invariant Valid() && known == old(known) && unchanged(manager) && Book() == old(Book()) && p in Flows()
        invariant p.Backlog() == Flows()[p].backlog == AfterBatches(n, sweeps) >= 0
        invariant sweeps > 1 ==> AfterBatches(n, sweeps - 1) > 0
        invariant sweeps > 0 && p.Backlog() == 0 ==> id !in Waiting() && SentAll(Snap(), id)
        decreases AfterBatches(n, sweeps), sweeps == 0
      {
        Batches(n, sweeps);
        SweepFor(id, p);
        sweeps := sweeps + 1;
      }
    }

    lemma PrimedStart(handle: Handle, p: TcpPeer, frames: seq<seq<byte>>)
      requires Primed(Snap(), handle, p, frames) && p in known
      ensures handle.id < |manager.peers| && manager.peers[handle.id] == Some(p) && MaySend(Book(), p)
      ensures p in Flows() && p.Backlog() == Flows()[p].backlog == |frames|
      ensures p in Book().accepted && Book().accepted[p] == frames
    {
    }

    /** One sweep takes a batch from `p`. */
    method SweepFor(id: nat, p: TcpPeer)
      requires Valid() && id < |manager.peers| && manager.peers[id] == Some(p) && p in Flows()
      requires p.eager && MaySend(Book(), p)
      modifies this`visits, manager.peersToFlush, known
      ensures Valid() && known == old(known) && unchanged(manager) && Book() == old(Book()) && p in Flows()
      ensures p.Backlog() == Flows()[p].backlog
      ensures Flows()[p].backlog == TcpPeer.Rest(old(Flows()[p].backlog))
      ensures Flows()[p].backlog == 0 ==> id !in Waiting() && SentAll(Snap(), id)
    {
      hide Valid, Stepped, SentAll, NoLostFlush, Laden, Book, Flows, Waiting;
      NothingLost();
      ghost var b := Snap();
      FlushStep();
      NothingLost();
      SweepOnce(b, Snap(), id, p);
      FlowIn(p);
    }

    lemma FlowIn(p: TcpPeer)
      requires p in Flows()
      ensures p in known && Flows()[p] == FlowOf(p)
    {
    }

    lemma AllGone(id: nat, p: TcpPeer, frames: seq<seq<byte>>)
      requires SentAll(Snap(), id) && id < |manager.peers| && manager.peers[id] == Some(p)
      requires p in known && p in Book().accepted && Book().accepted[p] == frames
      ensures p.wire == Concat(frames)
    {
    }

    method OpenReady(h: nat, capacity: nat) returns (handle: Handle, p: TcpPeer)
      requires Valid() && h < |manager.hostPeers| && 0 < capacity < 0x8000_0000
      modifies this, manager, known
      ensures Valid() && fresh(p) && known == old(known) + {p} && p.eager
      ensures Primed(Snap(), handle, p, [])
    {
      hide Valid, Book, Flows, Waiting, Placed, Extended, Drawn;
      handle, p := Open(h, capacity, true);
      ghost var a := Snap();
      NewFlags(p);
      Mark(handle, false);
    }

    lemma NewFlags(p: TcpPeer)
      requires p in known && !p.disconnecting
      ensures p !in Book().leaving
    {
    }

    /**
     Every run of the loop is a run of the protocol, from the state before to the state after; and in
     every state on the way, whoever does not wait to be flushed has sent everything it accepted.
     */
    method Run(events: seq<Event>) returns (ghost trace: seq<Snapshot>)
      requires Valid()
      requires forall i :: 0 <= i < |events| && events[i].Open? ==>
                 events[i].host < |manager.hostPeers| && 0 < events[i].capacity < 0x8000_0000
      modifies this, manager, manager.peersToFlush, known
      ensures Valid() && Traced(trace, events) && trace[0] == old(Snap()) && trace[|events|] == Snap()
      ensures Continues(old(Snap()), Snap()) && forall i :: 0 <= i < |trace| ==> NoLostFlush(trace[i]) && Tidy(trace[i])
      ensures fresh(known - old(known)) && |manager.hostPeers| == old(|manager.hostPeers|)
    {
      hide Valid, NoLostFlush, Traced, Continues, Tidy;
      SameKeys();
      trace := Trace(events);
      EveryTrace(trace, events);
    }

    lemma SameKeys()
      ensures Flows().Keys == Book().accepted.Keys
    {
    }

    method Trace(events: seq<Event>) returns (ghost trace: seq<Snapshot>)
      requires Valid()
      requires forall i :: 0 <= i < |events| && events[i].Open? ==>
                 events[i].host < |manager.hostPeers| && 0 < events[i].capacity < 0x8000_0000
      modifies this, manager, manager.peersToFlush, known
      ensures Valid() && Traced(trace, events) && trace[0] == old(Snap()) && trace[|events|] == Snap()
      ensures forall i :: 0 <= i < |trace| ==> NoLostFlush(trace[i]) && Tidy(trace[i])
      ensures fresh(known - old(known)) && |manager.hostPeers| == old(|manager.hostPeers|)
    {
      hide Valid, Stepped, Snap, NoLostFlush, Tidy;
      NothingLost();
      trace := [Snap()];
      for i := 0 to |events|
        invariant Valid() && fresh(known - old(known)) && |manager.hostPeers| == old(|manager.hostPeers|)
        invariant |trace| == i + 1 && trace[0] == old(Snap()) && trace[i] == Snap()
        invariant forall j :: 0 <= j < i ==> Stepped(trace[j], events[j], trace[j + 1])
        invariant forall j :: 0 <= j <= i ==> NoLostFlush(trace[j]) && Tidy(trace[j])
      {
        Step(events[i]);
        NothingLost();
        trace := trace + [Snap()];
      }
    }
  }

  /** From an empty loop: in every state a run can reach, no flush is lost. */
  method RunNew(hosts: nat, events: seq<Event>) returns (loop: Loop, ghost trace: seq<Snapshot>)
    requires forall i :: 0 <= i < |events| && events[i].Open? ==>
               events[i].host < hosts && 0 < events[i].capacity < 0x8000_0000
    ensures Traced(trace, events) && trace[0] == Snapshot([], [], [], {}, Ledger(map[], {}, {}, {}), map[])
    ensures loop.Valid() && |loop.manager.hostPeers| == hosts && forall k :: 0 <= k < |trace| ==> Peak(trace, k)
    ensures trace[|events|] == loop.Snap() && forall i :: 0 <= i < |trace| ==> NoLostFlush(trace[i]) && Tidy(trace[i])
  {
    loop := new Loop(hosts);
    ghost var first := loop.Snap();
    assert first == Snapshot([], [], [], {}, Ledger(map[], {}, {}, {}), map[]) by { loop.Shape(); }
    hide Loop.Valid, NoLostFlush, Tidy, Traced, Peak;
    trace := loop.Run(events);
    assert |trace| == |events| + 1 by { TraceLength(trace, events); }
    forall k | 0 <= k < |trace|
      ensures Peak(trace, k)
    {
      SlotsBound(trace, events, k);
    }
  }

  lemma TraceLength(trace: seq<Snapshot>, events: seq<Event>)
    requires Traced(trace, events)
    ensures |trace| == |events| + 1
  {
  }
}
