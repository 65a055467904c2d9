/** The sparse set of peers with something to send (`PeersToFlush.cpp`). */
module FlushSets {

  /** `peers` and `offsets` are inverse to each other; absent peers have the offset -1. */
  ghost predicate Inverse(peers: seq<nat>, offsets: seq<int>) {
    && (forall i :: 0 <= i < |peers| ==> peers[i] < |offsets| && offsets[peers[i]] == i)
    && (forall p :: 0 <= p < |offsets| && offsets[p] >= 0 ==> offsets[p] < |peers| && peers[offsets[p]] == p)
    && (forall p :: 0 <= p < |offsets| ==> offsets[p] >= -1)
  }

  ghost function Members(peers: seq<nat>): (r: set<nat>) {
    set p | p in peers
  }

  /** Takes out the element at `i` and fills its place with the last one. */
  ghost function SwapRemove<T>(s: seq<T>, i: nat): (r: seq<T>)
    requires i < |s|
    ensures |r| == |s| - 1
  {
    var n := |s| - 1;
    if i == n then s[..n] else s[..n][i := s[n]]
  }

  class PeersToFlush {
    var peers: seq<nat>
    var offsets: seq<int>

    ghost predicate Valid()
      reads this
    {
      Inverse(peers, offsets)
    }

    constructor ()
      ensures Valid() && peers == []
    {
      peers, offsets := [], [];
    }

    method Insert(peer: nat)
      requires Valid()
      modifies this
      ensures Valid()
      ensures peers == if peer in old(peers) then old(peers) else old(peers) + [peer]
      ensures |offsets| == if |old(offsets)| <= peer then peer + 1 else |old(offsets)|
    {
      if |offsets| <= peer {
        offsets := offsets + seq(peer + 1 - |offsets|, _ => -1);
      }
      if offsets[peer] >= 0 {
        assert peers[offsets[peer]] == peer;
        return;
      }
      offsets := offsets[peer := |peers|];
      peers := peers + [peer];
    }

    method Remove(peer: nat)
      requires Valid()
      modifies this
      ensures Valid() && peer !in peers && |offsets| == |old(offsets)|
      ensures peer !in old(peers) ==> peers == old(peers)
      ensures forall i :: 0 <= i < |old(peers)| && old(peers)[i] == peer ==> peers == SwapRemove(old(peers), i)
      ensures Members(peers) == Members(old(peers)) - {peer}
    {
      if |offsets| <= peer {
        return;
      }
      if offsets[peer] < 0 {
        return;
      }
      var off := offsets[peer];
      offsets := offsets[peer := -1];
      if off + 1 != |peers| {
        peers := peers[off := peers[|peers| - 1]];
        offsets := offsets[peers[off] := off];
      }
      peers := peers[..|peers| - 1];
      assert peers == SwapRemove(old(peers), off);
      SwapRemoveMembers(old(peers), off);
    }
  }

  lemma SwapRemoveMembers(s: seq<nat>, i: nat)
    requires i < |s| && forall j, k :: 0 <= j < k < |s| ==> s[j] != s[k]
    ensures Members(SwapRemove(s, i)) == Members(s) - {s[i]}
  {
    var r, n := SwapRemove(s, i), |s| - 1;
    forall p | p in Members(s) - {s[i]}
      ensures p in r
    {
      var j :| 0 <= j < |s| && s[j] == p;
      assert r[if j == n then i else j] == p;
    }
    forall p | p in r
      ensures p in Members(s) - {s[i]}
    {
      var j :| 0 <= j < |r| && r[j] == p;
      assert s[if j == i then n else j] == p;
    }
  }
}
