/**
 Hash chains threaded through a dense table: `heads[b]` is the first entry of bucket `b`,
 every entry links to the next one, and 0 ends a chain.  Entries are named by 1-based ids.
 Each entry carries the ghost time of its insertion; a chain lists the entries of its bucket
 from the youngest to the oldest, so every link is the youngest entry older than a bound.
 */
module Chains {

  datatype Node = Node(bucket: nat, stamp: nat, next: nat)

  /** `link` is the youngest entry of bucket `b` older than `bound`, or 0 when there is none. */
  ghost predicate IsTop(nodes: map<nat, Node>, link: nat, b: nat, bound: nat) {
    && (link != 0 ==> link in nodes && nodes[link].bucket == b && nodes[link].stamp < bound)
    && (forall t :: t in nodes && nodes[t].bucket == b && nodes[t].stamp < bound ==>
          link != 0 && nodes[t].stamp <= nodes[link].stamp)
  }

  /** No two entries were inserted at the same time, and all before `clock`. */
  ghost predicate Stamped(nodes: map<nat, Node>, width: nat, clock: nat) {
    && 0 !in nodes
    && (forall t :: t in nodes ==> nodes[t].stamp < clock && nodes[t].bucket < width)
    && (forall t, u :: t in nodes && u in nodes && nodes[t].stamp == nodes[u].stamp ==> t == u)
  }

  ghost predicate HeadsTop(heads: seq<nat>, nodes: map<nat, Node>, clock: nat) {
    forall b :: 0 <= b < |heads| ==> IsTop(nodes, heads[b], b, clock)
  }

  ghost predicate LinksTop(nodes: map<nat, Node>) {
    forall t :: t in nodes ==> IsTop(nodes, nodes[t].next, nodes[t].bucket, nodes[t].stamp)
  }

  ghost predicate Chained(heads: seq<nat>, nodes: map<nat, Node>, clock: nat) {
    && Stamped(nodes, |heads|, clock)
    && HeadsTop(heads, nodes, clock)
    && LinksTop(nodes)
  }

  /** `prev` is what points at `cur`: an entry, or 0 for the head of the bucket of `cur`. */
  ghost predicate IsPrev(heads: seq<nat>, nodes: map<nat, Node>, cur: nat, prev: nat) {
    && cur in nodes && nodes[cur].bucket < |heads|
    && if prev == 0 then heads[nodes[cur].bucket] == cur else prev in nodes && nodes[prev].next == cur
  }

  /** Redirects the link described by `prev` (0: the head of bucket `b`) to `to`. */
  ghost function HeadsTo(heads: seq<nat>, b: nat, prev: nat, to: nat): (r: seq<nat>)
    requires b < |heads|
    ensures |r| == |heads|
  {
    if prev == 0 then heads[b := to] else heads
  }

  ghost function NodesTo(nodes: map<nat, Node>, prev: nat, to: nat): (r: map<nat, Node>)
    requires prev == 0 || prev in nodes
    ensures r.Keys == nodes.Keys
  {
    if prev == 0 then nodes else nodes[prev := nodes[prev].(next := to)]
  }

  lemma PushKeeps(heads: seq<nat>, nodes: map<nat, Node>, clock: nat, b: nat, id: nat)
    requires Chained(heads, nodes, clock)
    requires b < |heads| && id != 0 && id !in nodes
    ensures Chained(heads[b := id], nodes[id := Node(b, clock, heads[b])], clock + 1)
  {
    var nodes' := nodes[id := Node(b, clock, heads[b])];
    var heads' := heads[b := id];
    assert IsTop(nodes, heads[b], b, clock);
    assert Stamped(nodes', |heads'|, clock + 1);
    forall c | 0 <= c < |heads'|
      ensures IsTop(nodes', heads'[c], c, clock + 1)
    {
      assert IsTop(nodes, heads[c], c, clock);
    }
    forall t | t in nodes'
      ensures IsTop(nodes', nodes'[t].next, nodes'[t].bucket, nodes'[t].stamp)
    {
      assert t in nodes ==> IsTop(nodes, nodes[t].next, nodes[t].bucket, nodes[t].stamp);
    }
  }

  lemma EmptyChained(heads: seq<nat>, clock: nat)
    requires forall b :: 0 <= b < |heads| ==> heads[b] == 0
    ensures Chained(heads, map[], clock)
  {
  }

  lemma HeadIsTop(heads: seq<nat>, nodes: map<nat, Node>, clock: nat, b: nat)
    requires Chained(heads, nodes, clock) && b < |heads|
    ensures IsTop(nodes, heads[b], b, clock)
    ensures forall t :: t in nodes ==> nodes[t].stamp < clock
  {
  }

  /** Going one link down a chain passes exactly one entry of the bucket. */
  lemma NextIsTop(heads: seq<nat>, nodes: map<nat, Node>, clock: nat, link: nat, b: nat, bound: nat)
    requires Chained(heads, nodes, clock) && IsTop(nodes, link, b, bound) && link != 0
    ensures link in nodes && nodes[link].bucket == b && nodes[link].stamp < bound
    ensures IsTop(nodes, nodes[link].next, b, nodes[link].stamp)
    ensures forall t :: t in nodes && nodes[t].bucket == b && nodes[t].stamp < bound ==>
              t == link || nodes[t].stamp < nodes[link].stamp
  {
  }

  lemma ChainEnd(nodes: map<nat, Node>, b: nat, bound: nat)
    requires IsTop(nodes, 0, b, bound)
    ensures forall t :: t in nodes && nodes[t].bucket == b ==> nodes[t].stamp >= bound
  {
  }

  /** At most one link points at an entry. */
  lemma PrevUnique(heads: seq<nat>, nodes: map<nat, Node>, clock: nat, cur: nat, prev: nat, other: nat)
    requires Chained(heads, nodes, clock)
    requires IsPrev(heads, nodes, cur, prev) && IsPrev(heads, nodes, cur, other)
    ensures prev == other
  {
    var b := nodes[cur].bucket;
    var low := if prev == 0 then clock else nodes[prev].stamp;
    var high := if other == 0 then clock else nodes[other].stamp;
    assert IsTop(nodes, cur, b, low) && IsTop(nodes, cur, b, high);
  }

  /** `nodes'` lists the entries of `nodes` in the same buckets and order, except `gone`. */
  ghost predicate SameOrder(nodes: map<nat, Node>, nodes': map<nat, Node>, gone: nat) {
    forall t :: t in nodes && t != gone ==>
      t in nodes' && nodes'[t].bucket == nodes[t].bucket && nodes'[t].stamp == nodes[t].stamp
  }

  /** Redirecting the one link to `cur` makes exactly the links that named `cur` name `to`. */
  lemma Redirected(heads: seq<nat>, nodes: map<nat, Node>, clock: nat, cur: nat, prev: nat, to: nat)
    requires Chained(heads, nodes, clock)
    requires IsPrev(heads, nodes, cur, prev)
    ensures prev != cur
    ensures var heads' := HeadsTo(heads, nodes[cur].bucket, prev, to);
            forall c :: 0 <= c < |heads| ==> heads'[c] == if heads[c] == cur then to else heads[c]
    ensures var nodes' := NodesTo(nodes, prev, to);
            SameOrder(nodes, nodes', 0) &&
            forall t :: t in nodes ==> nodes'[t].next == if nodes[t].next == cur then to else nodes[t].next
  {
    assert IsTop(nodes, nodes[cur].next, nodes[cur].bucket, nodes[cur].stamp);
    forall c | 0 <= c < |heads| && heads[c] == cur
      ensures c == nodes[cur].bucket && prev == 0
    {
      assert IsTop(nodes, heads[c], c, clock);
      PrevUnique(heads, nodes, clock, cur, prev, 0);
    }
    forall t | t in nodes && nodes[t].next == cur
      ensures t == prev
    {
      PrevUnique(heads, nodes, clock, cur, prev, t);
    }
  }

  lemma UnlinkTop(nodes: map<nat, Node>, nodes': map<nat, Node>, cur: nat, link: nat, b: nat, bound: nat)
    requires IsTop(nodes, link, b, bound) && cur in nodes && 0 !in nodes
    requires IsTop(nodes, nodes[cur].next, nodes[cur].bucket, nodes[cur].stamp)
    requires forall t :: t in nodes && nodes[t].stamp == nodes[cur].stamp ==> t == cur
    requires nodes'.Keys == nodes.Keys - {cur} && SameOrder(nodes, nodes', cur)
    ensures IsTop(nodes', if link == cur then nodes[cur].next else link, b, bound)
  {
  }

  lemma UnlinkKeeps(heads: seq<nat>, nodes: map<nat, Node>, clock: nat, cur: nat, prev: nat)
    requires Chained(heads, nodes, clock)
    requires IsPrev(heads, nodes, cur, prev)
    ensures prev != cur
    ensures Chained(HeadsTo(heads, nodes[cur].bucket, prev, nodes[cur].next),
                    NodesTo(nodes, prev, nodes[cur].next) - {cur}, clock)
  {
    var next := nodes[cur].next;
    var heads' := HeadsTo(heads, nodes[cur].bucket, prev, next);
    var nodes' := NodesTo(nodes, prev, next) - {cur};
    Redirected(heads, nodes, clock, cur, prev, next);
    UnlinkAll(heads, nodes, heads', nodes', clock, cur);
  }

  lemma UnlinkAll(heads: seq<nat>, nodes: map<nat, Node>, heads': seq<nat>, nodes': map<nat, Node>, clock: nat,
                  cur: nat)
    requires Chained(heads, nodes, clock) && cur in nodes && |heads'| == |heads|
    requires nodes'.Keys == nodes.Keys - {cur} && SameOrder(nodes, nodes', cur)
    requires forall c :: 0 <= c < |heads| ==> heads'[c] == if heads[c] == cur then nodes[cur].next else heads[c]
    requires forall t :: t in nodes' ==>
               nodes'[t].next == if nodes[t].next == cur then nodes[cur].next else nodes[t].next
    ensures Chained(heads', nodes', clock)
  {
    assert Stamped(nodes', |heads'|, clock);
    assert IsTop(nodes, nodes[cur].next, nodes[cur].bucket, nodes[cur].stamp);
    forall c | 0 <= c < |heads'|
      ensures IsTop(nodes', heads'[c], c, clock)
    {
      assert IsTop(nodes, heads[c], c, clock);
      UnlinkTop(nodes, nodes', cur, heads[c], c, clock);
    }
    forall t | t in nodes'
      ensures IsTop(nodes', nodes'[t].next, nodes'[t].bucket, nodes'[t].stamp)
    {
      assert IsTop(nodes, nodes[t].next, nodes[t].bucket, nodes[t].stamp);
      UnlinkTop(nodes, nodes', cur, nodes[t].next, nodes[t].bucket, nodes[t].stamp);
    }
  }

  lemma RenameTop(nodes: map<nat, Node>, nodes': map<nat, Node>, last: nat, to: nat, link: nat, b: nat, bound: nat)
    requires IsTop(nodes, link, b, bound) && Renamed(nodes, nodes', last, to)
    ensures IsTop(nodes', if link == last then to else link, b, bound)
  {
  }

  /** Gives entry `last` the new id `to`, redirecting the one link that points at it. */
  lemma RenameKeeps(heads: seq<nat>, nodes: map<nat, Node>, clock: nat, last: nat, prev: nat, to: nat)
    requires Chained(heads, nodes, clock)
    requires IsPrev(heads, nodes, last, prev)
    requires to != 0 && to !in nodes
    ensures prev != last
    ensures Chained(HeadsTo(heads, nodes[last].bucket, prev, to),
                    (NodesTo(nodes, prev, to) - {last})[to := nodes[last]], clock)
  {
    var heads' := HeadsTo(heads, nodes[last].bucket, prev, to);
    var nodes' := (NodesTo(nodes, prev, to) - {last})[to := nodes[last]];
    Redirected(heads, nodes, clock, last, prev, to);
    assert IsTop(nodes, nodes[last].next, nodes[last].bucket, nodes[last].stamp);
    RenameAll(heads, nodes, heads', nodes', clock, last, to);
  }

  /** Renaming an entry and redirecting the link to it can be done in either order. */
  lemma RelinkRenamed(nodes: map<nat, Node>, last: nat, prev: nat, to: nat)
    requires last in nodes && to !in nodes && prev != last && prev != to && (prev == 0 || prev in nodes)
    ensures NodesTo((nodes - {last})[to := nodes[last]], prev, to) ==
              (NodesTo(nodes, prev, to) - {last})[to := nodes[last]]
  {
  }

  lemma ClearTwice(nodes: map<nat, Node>, to: nat, last: nat)
    requires last in nodes && to != last
    ensures (nodes - {last})[to := nodes[last]] == (nodes - {to} - {last})[to := nodes[last]]
  {
  }

  /** `nodes'` is `nodes` with entry `last` under the new id `to`. */
  ghost predicate Renamed(nodes: map<nat, Node>, nodes': map<nat, Node>, last: nat, to: nat) {
    && last in nodes && 0 !in nodes && to != 0 && to !in nodes
    && nodes'.Keys == nodes.Keys - {last} + {to} && SameOrder(nodes, nodes', last)
    && nodes'[to] == nodes[last]
  }

  lemma RenameAll(heads: seq<nat>, nodes: map<nat, Node>, heads': seq<nat>, nodes': map<nat, Node>, clock: nat,
                  last: nat, to: nat)
    requires Chained(heads, nodes, clock) && Renamed(nodes, nodes', last, to) && |heads'| == |heads|
    requires nodes[last].next != last
    requires forall c :: 0 <= c < |heads| ==> heads'[c] == if heads[c] == last then to else heads[c]
    requires forall t :: t in nodes' && t != to ==>
               nodes'[t].next == if nodes[t].next == last then to else nodes[t].next
    ensures Chained(heads', nodes', clock)
  {
    RenameStamps(nodes, nodes', |heads|, clock, last, to);
    RenameLinks(nodes, nodes', last, to);
    forall c | 0 <= c < |heads'|
      ensures IsTop(nodes', heads'[c], c, clock)
    {
      assert IsTop(nodes, heads[c], c, clock);
      RenameTop(nodes, nodes', last, to, heads[c], c, clock);
    }
  }

  lemma RenameStamps(nodes: map<nat, Node>, nodes': map<nat, Node>, width: nat, clock: nat, last: nat, to: nat)
    requires Stamped(nodes, width, clock) && Renamed(nodes, nodes', last, to)
    ensures Stamped(nodes', width, clock)
  {
    forall t, u | t in nodes' && u in nodes' && nodes'[t].stamp == nodes'[u].stamp
      ensures t == u
    {
      var t0 := if t == to then last else t;
      var u0 := if u == to then last else u;
      assert nodes[t0].stamp == nodes[u0].stamp;
    }
  }

  lemma RenameLinks(nodes: map<nat, Node>, nodes': map<nat, Node>, last: nat, to: nat)
    requires LinksTop(nodes) && Renamed(nodes, nodes', last, to) && nodes[last].next != last
    requires forall t :: t in nodes' && t != to ==>
               nodes'[t].next == if nodes[t].next == last then to else nodes[t].next
    ensures LinksTop(nodes')
  {
    forall t | t in nodes'
      ensures IsTop(nodes', nodes'[t].next, nodes'[t].bucket, nodes'[t].stamp)
    {
      var s := if t == to then last else t;
      assert IsTop(nodes, nodes[s].next, nodes[s].bucket, nodes[s].stamp);
      RenameTop(nodes, nodes', last, to, nodes[s].next, nodes[s].bucket, nodes[s].stamp);
    }
  }

  /** The entries met when following links from `link`. */
  ghost function Walk(nodes: map<nat, Node>, link: nat, b: nat, bound: nat): (r: seq<nat>)
    requires IsTop(nodes, link, b, bound)
    requires LinksTop(nodes)
    decreases bound
  {
    if link == 0 then []
    else [link] + Walk(nodes, nodes[link].next, b, nodes[link].stamp)
  }

  /** Chains end, and the chain of a bucket lists exactly the entries of that bucket, once each. */
  lemma {:induction false} WalkComplete(nodes: map<nat, Node>, link: nat, b: nat, bound: nat)
    requires IsTop(nodes, link, b, bound)
    requires LinksTop(nodes)
    requires forall t, u :: t in nodes && u in nodes && nodes[t].stamp == nodes[u].stamp ==> t == u
    requires 0 !in nodes
    ensures var w := Walk(nodes, link, b, bound);
            && (forall t :: t in w <==> t in nodes && nodes[t].bucket == b && nodes[t].stamp < bound)
            && (forall i, j :: 0 <= i < j < |w| ==> w[i] != w[j])
    decreases bound
  {
    if link != 0 {
      WalkComplete(nodes, nodes[link].next, b, nodes[link].stamp);
    }
  }

  /** The chains partition the entries: every entry lies in the chain of its own bucket and in no other. */
  lemma ChainsPartition(heads: seq<nat>, nodes: map<nat, Node>, clock: nat, b: nat)
    requires Chained(heads, nodes, clock) && b < |heads|
    ensures IsTop(nodes, heads[b], b, clock)
    ensures var w := Walk(nodes, heads[b], b, clock);
            && (forall t :: t in w <==> t in nodes && nodes[t].bucket == b)
            && (forall i, j :: 0 <= i < j < |w| ==> w[i] != w[j])
  {
    WalkComplete(nodes, heads[b], b, clock);
  }
}
