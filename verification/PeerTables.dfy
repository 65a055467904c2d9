/**
 The peer tables of a loop (`PeerManager.cpp`): slots with version-stamped handles, and for every
 host a dense array of its peers, all indexed through one shared back-index vector.
 */
module PeerTables {
  import opened Bits
  import opened FlushSets

  datatype Handle = Handle(id: nat, version: nat)

  /** The number of distinct versions: zero is skipped. */
  const VERSIONS: nat := U32 - 1

  /** A handle given out for a peer when its slot had been released `epoch` times. */
  datatype Issue<P> = Issue(handle: Handle, peer: P, epoch: nat)

  /** Free ids are exactly the empty slots, listed once. */
  ghost predicate FreeExactly<P>(peers: seq<Option<P>>, freeIds: seq<nat>) {
    && (forall i, j :: 0 <= i < j < |freeIds| ==> freeIds[i] != freeIds[j])
    && (forall i :: 0 <= i < |freeIds| ==> freeIds[i] < |peers| && peers[freeIds[i]].None?)
    && (forall id :: 0 <= id < |peers| && peers[id].None? ==> id in freeIds)
  }

  /** No slot is empty. */
  ghost predicate Full<P>(peers: seq<Option<P>>) {
    forall id :: 0 <= id < |peers| ==> peers[id].Some?
  }

  /** Slot `id` is given out: the one released last, or a new one when none is empty. */
  ghost predicate Drawn<P>(peers: seq<Option<P>>, freeIds: seq<nat>, id: nat, freeIds': seq<nat>) {
    if Full(peers) then id == |peers| && freeIds' == freeIds
    else |freeIds| > 0 && id == freeIds[|freeIds| - 1] && freeIds' == freeIds[..|freeIds| - 1]
  }

  /** Slots are free exactly while they are listed, whichever slot is given out or taken back. */
  lemma DrawnExactly<P>(peers: seq<Option<P>>, freeIds: seq<nat>, id: nat, freeIds': seq<nat>, peers': seq<Option<P>>,
                        p: P)
    requires FreeExactly(peers, freeIds) && Drawn(peers, freeIds, id, freeIds') && Placed(peers, peers', id, p)
    ensures FreeExactly(peers', freeIds') && (id == |peers| <==> Full(peers))
  {
    if !Full(peers) {
      assert freeIds == freeIds' + [id];
      assert forall i :: 0 <= i < |peers'| && peers'[i].None? ==> i in freeIds;
    }
  }

  lemma ReturnedExactly<P>(peers: seq<Option<P>>, freeIds: seq<nat>, id: nat)
    requires FreeExactly(peers, freeIds) && id < |peers| && peers[id].Some?
    ensures FreeExactly(peers[id := None], freeIds + [id])
  {
  }

  /** `p` is the peer of slot `id`, at its own place in the array of its own host. */
  ghost predicate AtHome<P>(perHostOffset: seq<int>, hostPeers: seq<seq<P>>, idOf: map<P, nat>, hostOf: map<P, nat>,
                            p: P, id: nat)
  {
    && id < |perHostOffset|
    && p in idOf && idOf[p] == id
    && p in hostOf && hostOf[p] < |hostPeers|
    && 0 <= perHostOffset[id] < |hostPeers[hostOf[p]]|
    && hostPeers[hostOf[p]][perHostOffset[id]] == p
  }

  /** Every live slot is at home, and the arrays hold nothing else. */
  ghost predicate Linked<P>(peers: seq<Option<P>>, perHostOffset: seq<int>, hostPeers: seq<seq<P>>, idOf: map<P, nat>,
                            hostOf: map<P, nat>)
  {
    && |perHostOffset| == |peers|
    && (forall id :: 0 <= id < |peers| && peers[id].Some? ==>
          AtHome(perHostOffset, hostPeers, idOf, hostOf, peers[id].value, id))
    && (forall id :: 0 <= id < |peers| && peers[id].None? ==> perHostOffset[id] == -1)
    && (forall h, k :: 0 <= h < |hostPeers| && 0 <= k < |hostPeers[h]| ==>
          Listed(peers, perHostOffset, idOf, hostOf, hostPeers[h][k], h, k))
  }

  ghost predicate Listed<P>(peers: seq<Option<P>>, perHostOffset: seq<int>, idOf: map<P, nat>, hostOf: map<P, nat>,
                            p: P, h: nat, k: nat)
  {
    && p in idOf && idOf[p] < |peers| == |perHostOffset| && peers[idOf[p]] == Some(p)
    && p in hostOf && hostOf[p] == h
    && perHostOffset[idOf[p]] == k
  }

  /** Only slot `id` changed, from empty or absent to `p`. */
  ghost predicate Placed<P>(before: seq<Option<P>>, after: seq<Option<P>>, id: nat, p: P) {
    && id <= |before| && (id < |before| ==> before[id].None?)
    && after == if id == |before| then before + [Some(p)] else before[id := Some(p)]
  }

  /** A column of the tables after slot `id` was set: extended with `first` when the slot is new. */
  ghost function Extended<T>(column: seq<T>, id: nat, first: T): (r: seq<T>) {
    if id == |column| then column + [first] else column
  }

  lemma AllocLinks<P>(peers: seq<Option<P>>, peers': seq<Option<P>>, off: seq<int>, off': seq<int>, hosts: seq<seq<P>>,
                      idOf: map<P, nat>, hostOf: map<P, nat>, p: P, id: nat)
    requires Linked(peers, off, hosts, idOf, hostOf)
    requires p in hostOf && hostOf[p] < |hosts| && Placed(peers, peers', id, p)
    requires forall i :: 0 <= i < |peers| && peers[i].Some? ==> peers[i].value != p
    requires off' == Extended(off, id, -1)[id := |hosts[hostOf[p]]|]
    ensures var h := hostOf[p]; Linked(peers', off', hosts[h := hosts[h] + [p]], idOf[p := id], hostOf)
  {
    var h := hostOf[p];
    var hosts', idOf' := hosts[h := hosts[h] + [p]], idOf[p := id];
    forall g, k | 0 <= g < |hosts'| && 0 <= k < |hosts'[g]|
      ensures Listed(peers', off', idOf', hostOf, hosts'[g][k], g, k)
    {
      if !(g == h && k == |hosts[h]|) {
        assert hosts'[g][k] == hosts[g][k];
        assert Listed(peers, off, idOf, hostOf, hosts[g][k], g, k);
      }
    }
    forall i | 0 <= i < |peers'| && peers'[i].Some?
      ensures AtHome(off', hosts', idOf', hostOf, peers'[i].value, i)
    {
      if i != id {
        assert AtHome(off, hosts, idOf, hostOf, peers[i].value, i);
      }
    }
  }

  lemma ReleaseLinks<P>(peers: seq<Option<P>>, off: seq<int>, hosts: seq<seq<P>>, idOf: map<P, nat>,
                        hostOf: map<P, nat>, p: P, id: nat)
    requires Linked(peers, off, hosts, idOf, hostOf) && id < |peers| && peers[id] == Some(p)
    ensures AtHome(off, hosts, idOf, hostOf, p, id)
    ensures var h := hostOf[p];
            var k, n := off[id], |hosts[h]| - 1;
            var last := hosts[h][n];
            var off' := if k == n then off[id := -1] else off[id := -1][idOf[last] := k];
            && last in idOf && idOf[last] < |peers| && (k != n ==> idOf[last] != id)
            && Linked(peers[id := None], off', hosts[h := SwapRemove(hosts[h], k)], idOf, hostOf)
  {
    assert AtHome(off, hosts, idOf, hostOf, p, id);
    var h := hostOf[p];
    var k, n := off[id], |hosts[h]| - 1;
    var last := hosts[h][n];
    assert Listed(peers, off, idOf, hostOf, last, h, n);
    var off' := if k == n then off[id := -1] else off[id := -1][idOf[last] := k];
    var peers', hosts' := peers[id := None], hosts[h := SwapRemove(hosts[h], k)];
    forall g, j | 0 <= g < |hosts'| && 0 <= j < |hosts'[g]|
      ensures Listed(peers', off', idOf, hostOf, hosts'[g][j], g, j)
    {
      var j0 := if g == h && j == k then n else j;
      assert hosts'[g][j] == hosts[g][j0];
      assert Listed(peers, off, idOf, hostOf, hosts[g][j0], g, j0);
      assert Listed(peers, off, idOf, hostOf, p, h, k);
    }
    forall i | 0 <= i < |peers'| && peers'[i].Some?
      ensures AtHome(off', hosts', idOf, hostOf, peers'[i].value, i)
    {
      assert AtHome(off, hosts, idOf, hostOf, peers[i].value, i);
    }
  }

  ghost function Ids<P>(handleOf: map<P, Handle>): (r: map<P, nat>) {
    map p | p in handleOf :: handleOf[p].id
  }

  lemma IdsUpdate<P>(handleOf: map<P, Handle>, p: P, handle: Handle)
    ensures Ids(handleOf[p := handle]) == Ids(handleOf)[p := handle.id]
  {
  }

  lemma NewHost<P>(peers: seq<Option<P>>, off: seq<int>, hosts: seq<seq<P>>, idOf: map<P, nat>, hostOf: map<P, nat>,
                   p: P, h: nat)
    requires Linked(peers, off, hosts, idOf, hostOf) && p !in idOf
    ensures Linked(peers, off, hosts, idOf, hostOf[p := h])
    ensures forall i :: 0 <= i < |peers| && peers[i].Some? ==> peers[i].value != p
  {
    forall g, k | 0 <= g < |hosts| && 0 <= k < |hosts[g]|
      ensures Listed(peers, off, idOf, hostOf[p := h], hosts[g][k], g, k)
    {
      assert Listed(peers, off, idOf, hostOf, hosts[g][k], g, k);
    }
    forall i | 0 <= i < |peers| && peers[i].Some?
      ensures AtHome(off, hosts, idOf, hostOf[p := h], peers[i].value, i)
    {
      assert AtHome(off, hosts, idOf, hostOf, peers[i].value, i);
    }
  }

  /** The version of a slot that has been released `n` times. */
  ghost function VersionAfter(n: nat): (v: nat)
    ensures 1 <= v < U32
  {
    n % VERSIONS + 1
  }

  /** A 32-bit increment that skips zero. */
  function NextVersion(v: nat): (r: nat)
    requires v < U32
  {
    var w := (v + 1) % U32;
    if w == 0 then (w + 1) % U32 else w
  }

  lemma VersionStep(n: nat)
    ensures NextVersion(VersionAfter(n)) == VersionAfter(n + 1)
  {
    var q, r := n / VERSIONS, n % VERSIONS;
    if r + 1 == VERSIONS {
      ModUnique(n + 1, VERSIONS, q + 1, 0);
    } else {
      ModUnique(n + 1, VERSIONS, q, r + 1);
    }
  }

  /** Two epochs of a slot share a version exactly when they are a multiple of 2^32 - 1 releases apart. */
  lemma SameVersion(a: nat, b: nat)
    requires a <= b
    ensures VersionAfter(a) == VersionAfter(b) <==> (b - a) % VERSIONS == 0
  {
    var d := b - a;
    assert a == VERSIONS * (a / VERSIONS) + a % VERSIONS;
    assert d == VERSIONS * (d / VERSIONS) + d % VERSIONS;
    var s := a % VERSIONS + d % VERSIONS;
    if s < VERSIONS {
      ModUnique(b, VERSIONS, a / VERSIONS + d / VERSIONS, s);
    } else {
      ModUnique(b, VERSIONS, a / VERSIONS + d / VERSIONS + 1, s - VERSIONS);
    }
  }

  /** Every slot carries the version its releases gave it, and every live peer knows its handle. */
  ghost predicate Versioned<P>(peers: seq<Option<P>>, versions: seq<nat>, releases: seq<nat>,
                               handleOf: map<P, Handle>)
  {
    && |versions| == |releases| == |peers|
    && (forall id :: 0 <= id < |versions| ==> versions[id] == VersionAfter(releases[id]))
    && (forall id :: 0 <= id < |peers| && peers[id].Some? ==>
          peers[id].value in handleOf && handleOf[peers[id].value] == Handle(id, versions[id]))
  }

  /** A new peer gets the version of its slot. */
  lemma AllocVersioned<P>(peers: seq<Option<P>>, versions: seq<nat>, releases: seq<nat>, handleOf: map<P, Handle>,
                          peers': seq<Option<P>>, id: nat, p: P)
    requires Versioned(peers, versions, releases, handleOf) && Placed(peers, peers', id, p) && p !in handleOf
    ensures id <= |versions| == |releases|
    ensures var versions' := Extended(versions, id, 1);
            Versioned(peers', versions', Extended(releases, id, 0), handleOf[p := Handle(id, versions'[id])])
  {
  }

  lemma VersionKnown<P>(peers: seq<Option<P>>, versions: seq<nat>, releases: seq<nat>, handleOf: map<P, Handle>,
                        id: nat)
    requires Versioned(peers, versions, releases, handleOf) && id < |peers|
    ensures |versions| == |releases| == |peers| && versions[id] == VersionAfter(releases[id])
  {
  }

  /** What the log of issued handles says: the current one of a slot belongs to the peer in it. */
  ghost predicate Logged<P>(issued: seq<Issue<P>>, peers: seq<Option<P>>, releases: seq<nat>) {
    forall i :: 0 <= i < |issued| ==> LoggedOne(issued[i], peers, releases)
  }

  ghost predicate LoggedOne<P>(e: Issue<P>, peers: seq<Option<P>>, releases: seq<nat>) {
    && e.handle.id < |peers| == |releases|
    && e.epoch <= releases[e.handle.id]
    && e.handle.version == VersionAfter(e.epoch)
    && (e.epoch == releases[e.handle.id] ==> peers[e.handle.id] == Some(e.peer))
  }

  lemma AllocLogged<P>(issued: seq<Issue<P>>, peers: seq<Option<P>>, releases: seq<nat>,
                       peers': seq<Option<P>>, releases': seq<nat>, id: nat, p: P)
    requires Logged(issued, peers, releases) && |releases| == |peers| && Placed(peers, peers', id, p)
    requires releases' == Extended(releases, id, 0)
    ensures Logged(issued + [Issue(Handle(id, VersionAfter(releases'[id])), p, releases'[id])], peers', releases')
  {
    forall i | 0 <= i < |issued|
      ensures LoggedOne(issued[i], peers', releases')
    {
      assert LoggedOne(issued[i], peers, releases);
    }
  }

  lemma ReleaseLogged<P>(issued: seq<Issue<P>>, peers: seq<Option<P>>, releases: seq<nat>, id: nat)
    requires Logged(issued, peers, releases) && id < |peers| == |releases|
    ensures Logged(issued, peers[id := None], releases[id := releases[id] + 1])
  {
    forall i | 0 <= i < |issued|
      ensures LoggedOne(issued[i], peers[id := None], releases[id := releases[id] + 1])
    {
      assert LoggedOne(issued[i], peers, releases);
    }
  }

  class PeerManager<P(==)> {
    var peers: seq<Option<P>>
    var versions: seq<nat>
    var freeIds: seq<nat>
    var perHostOffset: seq<int>
    const peersToFlush: PeersToFlush
    /** For every host the dense array of its `PeerReferences`. */
    var hostPeers: seq<seq<P>>
    /** The `peerHandle` field of every peer that has one. */
    var handleOf: map<P, Handle>
    /** The `host` field of every peer. */
    var hostOf: map<P, nat>

    /** How often each slot has been released. */
    ghost var releases: seq<nat>
    ghost var issued: seq<Issue<P>>

    ghost predicate Valid()
      reads this, peersToFlush
    {
      && FreeExactly(peers, freeIds)
      && Linked(peers, perHostOffset, hostPeers, Ids(handleOf), hostOf)
      && Versioned(peers, versions, releases, handleOf)
      && Logged(issued, peers, releases)
      && peersToFlush.Valid()
      && FlushLive(peers, peersToFlush.peers)
    }

    /** Only live peers wait to be flushed. */
    static ghost predicate FlushLive(peers: seq<Option<P>>, waiting: seq<nat>) {
      forall i :: 0 <= i < |waiting| ==> waiting[i] < |peers| && peers[waiting[i]].Some?
    }

    ghost predicate Live(p: P)
      reads this
    {
      exists id :: 0 <= id < |peers| && peers[id] == Some(p)
    }

    constructor (hosts: nat)
      ensures Valid() && peers == [] && freeIds == [] && issued == [] && |hostPeers| == hosts && fresh(peersToFlush)
      ensures handleOf == map[] && hostOf == map[] && peersToFlush.peers == []
      ensures forall h :: 0 <= h < hosts ==> hostPeers[h] == []
    {
      peers, versions, freeIds, perHostOffset := [], [], [], [];
      peersToFlush := new PeersToFlush();
      hostPeers := seq(hosts, _ => []);
      handleOf, hostOf := map[], map[];
      releases, issued := [], [];
    }

    predicate ExistsLocal(handle: Handle)
      reads this
      requires |peers| == |versions|
    {
      handle.id < |versions| && peers[handle.id].Some? && handle.version == versions[handle.id]
    }

    function GetLocalPeerData(handle: Handle): (r: Option<P>)
      reads this
      requires |peers| == |versions|
    {
      if ExistsLocal(handle) then peers[handle.id] else None
    }

    /**
     A handle resolves exactly when its slot is occupied and a multiple of 2^32 - 1 releases lie
     between its issue and now; before the first release it resolves to the peer it was issued for.
     */
    lemma Resolution(i: nat)
      requires Valid() && i < |issued|
      ensures var e := issued[i];
              e.handle.id < |releases| && e.epoch <= releases[e.handle.id] &&
              var gone := releases[e.handle.id] - e.epoch;
              && (GetLocalPeerData(e.handle).Some? <==> peers[e.handle.id].Some? && gone % VERSIONS == 0)
              && (gone == 0 ==> GetLocalPeerData(e.handle) == Some(e.peer))
              && (0 < gone < VERSIONS ==> GetLocalPeerData(e.handle) == None)
    {
      var e := issued[i];
      assert LoggedOne(e, peers, releases);
      SameVersion(e.epoch, releases[e.handle.id]);
    }

    /** `PeerReferences::Alloc`: a slot, a handle, and a place at the end of the host's array. */
    method Alloc(h: nat, p: P) returns (handle: Handle)
      requires Valid() && h < |hostPeers| && p !in handleOf && (p in hostOf ==> hostOf[p] == h)
      modifies this
      ensures Valid() && GetLocalPeerData(handle) == Some(p)
      ensures hostPeers == old(hostPeers)[h := old(hostPeers)[h] + [p]]
      ensures handleOf == old(handleOf)[p := handle] && hostOf == old(hostOf)[p := h]
      ensures issued == old(issued) + [Issue(handle, p, releases[handle.id])]
      ensures Placed(old(peers), peers, handle.id, p) && Drawn(old(peers), old(freeIds), handle.id, freeIds)
      ensures handle.id !in peersToFlush.peers
      ensures releases == Extended(old(releases), handle.id, 0) && versions == Extended(old(versions), handle.id, 1)
    {
      assert |perHostOffset| == |peers| == |versions| == |releases|;
      hide FreeExactly, Linked, Versioned, Logged, FlushLive, Inverse, Ids, Placed, Extended, Drawn;
      handle := AllocSlot(h, p);
      KeepsWaiting(old(peers), peers, peersToFlush.peers, handle.id, p);
      VersionKnown(peers, versions, releases, handleOf, handle.id);
      hostPeers := hostPeers[h := hostPeers[h] + [p]];
    }

    /** The slot and the back-index of a new peer, before the host's array holds it. */
    method AllocSlot(h: nat, p: P) returns (handle: Handle)
      requires FreeExactly(peers, freeIds) && Versioned(peers, versions, releases, handleOf)
      requires Logged(issued, peers, releases)
      requires Linked(peers, perHostOffset, hostPeers, Ids(handleOf), hostOf)
      requires |perHostOffset| == |peers| == |releases|
      requires h < |hostPeers| && p !in handleOf && (p in hostOf ==> hostOf[p] == h)
      modifies this`peers, this`versions, this`freeIds, this`perHostOffset, this`handleOf, this`releases, this`issued,
               this`hostOf
      ensures FreeExactly(peers, freeIds) && Versioned(peers, versions, releases, handleOf)
      ensures Logged(issued, peers, releases)
      ensures Linked(peers, perHostOffset, hostPeers[h := hostPeers[h] + [p]], Ids(handleOf), hostOf)
      ensures handle.id < |peers| == |versions| && peers[handle.id] == Some(p) && handle.version == versions[handle.id]
      ensures handleOf == old(handleOf)[p := handle] && hostOf == old(hostOf)[p := h]
      ensures issued == old(issued) + [Issue(handle, p, releases[handle.id])]
      ensures Placed(old(peers), peers, handle.id, p) && releases == Extended(old(releases), handle.id, 0)
      ensures versions == Extended(old(versions), handle.id, 1) && Drawn(old(peers), old(freeIds), handle.id, freeIds)
    {
      NewHost(peers, perHostOffset, hostPeers, Ids(handleOf), hostOf, p, h);
      hide FreeExactly, Linked, Versioned, Logged, Ids, Placed, Extended, Drawn, Full;
      hostOf := hostOf[p := h];
      handle := ManagerAlloc(p);
      perHostOffset := perHostOffset[handle.id := |hostPeers[h]|];
      AllocLinks(old(peers), peers, old(perHostOffset), perHostOffset, hostPeers, Ids(old(handleOf)), hostOf, p,
                 handle.id);
      AllocLogged(old(issued), old(peers), old(releases), peers, releases, handle.id, p);
      IdsUpdate(old(handleOf), p, handle);
    }

    /** Placing a peer leaves the waiting peers live, and the new one is not among them. */
    static lemma KeepsWaiting(before: seq<Option<P>>, after: seq<Option<P>>, waiting: seq<nat>, id: nat, p: P)
      requires FlushLive(before, waiting) && Placed(before, after, id, p)
      ensures FlushLive(after, waiting) && id !in waiting
    {
    }

    /** `PeerManager::Alloc`: the slot released last, or a new one exactly when no slot is empty. */
    method ManagerAlloc(p: P) returns (handle: Handle)
      requires FreeExactly(peers, freeIds) && Versioned(peers, versions, releases, handleOf)
      requires |perHostOffset| == |peers| && p !in handleOf
      modifies this`peers, this`versions, this`freeIds, this`perHostOffset, this`handleOf, this`releases, this`issued
      ensures FreeExactly(peers, freeIds) && Versioned(peers, versions, releases, handleOf)
      ensures Placed(old(peers), peers, handle.id, p)
      ensures handle.id < |peers| == |versions| && peers[handle.id] == Some(p) && handle.version == versions[handle.id]
      ensures handleOf == old(handleOf)[p := handle]
      ensures perHostOffset == Extended(old(perHostOffset), handle.id, -1)
      ensures releases == Extended(old(releases), handle.id, 0) && versions == Extended(old(versions), handle.id, 1)
      ensures issued == old(issued) + [Issue(handle, p, releases[handle.id])]
      ensures handle.id == |old(peers)| <==> Full(old(peers))
      ensures handle.id < |old(peers)| ==>
                |old(freeIds)| > 0 && handle.id == old(freeIds)[|old(freeIds)| - 1] &&
                freeIds == old(freeIds)[..|old(freeIds)| - 1]
      ensures Drawn(old(peers), old(freeIds), handle.id, freeIds)
    {
      NoneFree(peers, freeIds);
      assert |versions| == |releases| == |peers|;
      hide FreeExactly, Full, Versioned;
      if |freeIds| > 0 {
        var id := freeIds[|freeIds| - 1];
        freeIds := freeIds[..|freeIds| - 1];
        handle := Handle(id, versions[id]);
        peers := peers[id := Some(p)];
      } else {
        handle := Handle(|peers|, 1);
        peers := peers + [Some(p)];
        versions := versions + [1];
        perHostOffset := perHostOffset + [-1];
        releases := releases + [0];
      }
      handleOf := handleOf[p := handle];
      issued := issued + [Issue(handle, p, releases[handle.id])];
      DrawnExactly(old(peers), old(freeIds), handle.id, freeIds, peers, p);
      AllocVersioned(old(peers), old(versions), old(releases), old(handleOf), peers, handle.id, p);
    }

    static lemma NoneFree(peers: seq<Option<P>>, freeIds: seq<nat>)
      requires FreeExactly(peers, freeIds)
      ensures freeIds == [] <==> Full(peers)
      ensures |freeIds| > 0 ==> freeIds[|freeIds| - 1] < |peers| && peers[freeIds[|freeIds| - 1]].None?
    {
    }

    /** `PeerReferences::Release`: closes the hole in the host's array; nothing for a handle that does not resolve. */
    method Release(h: nat, handle: Handle) returns (data: Option<P>)
      requires Valid() && h < |hostPeers|
      requires GetLocalPeerData(handle).Some? ==>
                 var p := GetLocalPeerData(handle).value; p in hostOf && hostOf[p] == h
      modifies this, peersToFlush
      ensures Valid() && data == old(GetLocalPeerData(handle))
      ensures handleOf == old(handleOf) && hostOf == old(hostOf) && issued == old(issued)
      ensures data.None? ==> peers == old(peers) && hostPeers == old(hostPeers) && releases == old(releases) &&
                             versions == old(versions) && peersToFlush.peers == old(peersToFlush.peers) &&
                             freeIds == old(freeIds)
      ensures data.Some? ==> peers == old(peers)[handle.id := None] && freeIds == old(freeIds) + [handle.id]
      ensures data.Some? ==> releases == old(releases)[handle.id := old(releases)[handle.id] + 1]
      ensures data.Some? ==> versions == old(versions)[handle.id := NextVersion(old(versions)[handle.id])]
      ensures data.Some? ==> exists k :: 0 <= k < |old(hostPeers)[h]| && old(hostPeers)[h][k] == data.value &&
                               hostPeers == old(hostPeers)[h := SwapRemove(old(hostPeers)[h], k)]
      ensures data.Some? ==> Members(peersToFlush.peers) == Members(old(peersToFlush.peers)) - {handle.id}
    {
      assert |perHostOffset| == |peers| == |versions| == |releases|;
      if !ExistsLocal(handle) {
        return None;
      }
      ReleaseLinks(peers, perHostOffset, hostPeers, Ids(handleOf), hostOf, peers[handle.id].value, handle.id);
      hide Linked, Logged, FlushLive, Inverse, Versioned, FreeExactly;
      data := ManagerRelease(handle);
      Unlist(h, handle.id);
    }

    /** The last peer of the host's array takes the place of the peer of slot `id`. */
    method Unlist(h: nat, id: nat)
      requires h < |hostPeers| && id < |perHostOffset| && 0 <= perHostOffset[id] < |hostPeers[h]|
      requires var last := hostPeers[h][|hostPeers[h]| - 1]; last in handleOf && handleOf[last].id < |perHostOffset|
      modifies this`perHostOffset, this`hostPeers
      ensures var off, mine := old(perHostOffset)[id], old(hostPeers)[h];
              var moved := handleOf[mine[|mine| - 1]].id;
              && hostPeers == old(hostPeers)[h := SwapRemove(mine, off)]
              && perHostOffset == if off == |mine| - 1 then old(perHostOffset)[id := -1]
                                  else old(perHostOffset)[id := -1][moved := off]
    {
      var off := perHostOffset[id];
      perHostOffset := perHostOffset[id := -1];
      var mine := hostPeers[h];
      if off + 1 != |mine| {
        var last := mine[|mine| - 1];
        mine := mine[off := last][|mine| - 1 := mine[off]];
        perHostOffset := perHostOffset[handleOf[mine[off]].id := off];
      }
      hostPeers := hostPeers[h := mine[..|mine| - 1]];
      assert mine[..|mine| - 1] == SwapRemove(old(hostPeers)[h], off);
    }

    /** `PeerManager::Release`, for a handle that resolves. */
    method ManagerRelease(handle: Handle) returns (data: Option<P>)
      requires FreeExactly(peers, freeIds) && Versioned(peers, versions, releases, handleOf)
      requires Logged(issued, peers, releases)
      requires peersToFlush.Valid() && FlushLive(peers, peersToFlush.peers)
      requires |peers| == |versions| && ExistsLocal(handle)
      modifies this`peers, this`versions, this`freeIds, this`releases, peersToFlush
      ensures FreeExactly(peers, freeIds) && Versioned(peers, versions, releases, handleOf)
      ensures Logged(issued, peers, releases)
      ensures peersToFlush.Valid() && FlushLive(peers, peersToFlush.peers)
      ensures data == old(peers)[handle.id] && peers == old(peers)[handle.id := None]
      ensures freeIds == old(freeIds) + [handle.id]
      ensures releases == old(releases)[handle.id := old(releases)[handle.id] + 1]
      ensures versions == old(versions)[handle.id := NextVersion(old(versions)[handle.id])]
      ensures Members(peersToFlush.peers) == Members(old(peersToFlush.peers)) - {handle.id}
    {
      var id := handle.id;
      ReleaseLogged(issued, peers, releases, id);
      ReturnedExactly(peers, freeIds, id);
      hide Logged, Inverse, FreeExactly;
      VersionStep(releases[id]);
      hide VersionAfter, NextVersion;
      freeIds := freeIds + [id];
      data := peers[id];
      peers := peers[id := None];
      versions := versions[id := NextVersion(versions[id])];
      releases := releases[id := releases[id] + 1];
      peersToFlush.Remove(id);
      StillWaiting(old(peers), old(peersToFlush.peers), peersToFlush.peers, id);
    }

    static lemma StillWaiting(peers: seq<Option<P>>, waiting: seq<nat>, after: seq<nat>, id: nat)
      requires FlushLive(peers, waiting) && id < |peers| && Members(after) == Members(waiting) - {id}
      ensures FlushLive(peers[id := None], after)
    {
      forall i | 0 <= i < |after|
        ensures after[i] < |peers| && peers[id := None][after[i]].Some?
      {
        assert after[i] in Members(after);
        assert after[i] in Members(waiting);
      }
    }

    /** `_InternalClearInternalDataOnClose` forgets the handle of a peer that has been released. */
    method ForgetHandle(p: P)
      requires Valid() && !Live(p)
      modifies this`handleOf
      ensures Valid() && handleOf == old(handleOf) - {p}
    {
      hide FreeExactly, Logged, FlushLive, Inverse;
      ForgetLinks(peers, perHostOffset, hostPeers, handleOf, hostOf, p);
      handleOf := handleOf - {p};
    }

    static lemma ForgetLinks(peers: seq<Option<P>>, off: seq<int>, hosts: seq<seq<P>>, handleOf: map<P, Handle>,
                             hostOf: map<P, nat>, p: P)
      requires Linked(peers, off, hosts, Ids(handleOf), hostOf)
      requires forall id :: 0 <= id < |peers| && peers[id].Some? ==> peers[id].value != p
      ensures Linked(peers, off, hosts, Ids(handleOf - {p}), hostOf)
    {
      var idOf := Ids(handleOf);
      forall g, k | 0 <= g < |hosts| && 0 <= k < |hosts[g]|
        ensures Listed(peers, off, Ids(handleOf - {p}), hostOf, hosts[g][k], g, k)
      {
        assert Listed(peers, off, idOf, hostOf, hosts[g][k], g, k);
      }
      forall i | 0 <= i < |peers| && peers[i].Some?
        ensures AtHome(off, hosts, Ids(handleOf - {p}), hostOf, peers[i].value, i)
      {
        assert AtHome(off, hosts, idOf, hostOf, peers[i].value, i);
      }
    }
  }
}
