/**
 The chained hash table of `FlatHashMap.hpp`: a dense vector of entries, 1-based links and a
 power-of-two table of chain heads.  The hash is an arbitrary function, and so is the effect of
 assigning one stored value over another, because the value type decides that.
 */
module FlatHashMaps {
  import opened Bits
  import opened Chains

  datatype Pair<K, V> = Pair(key: K, v: V, next: nat)

  /** What `GetElement` finds: an entry and what points at it (0: the head of the bucket). */
  datatype PairIds = PairIds(current: nat, prev: nat)

  const MAX_CAPACITY: nat := 0x8000_0000

  /** With fewer entries the table can always be doubled. */
  const MAX_ENTRIES: nat := 0x2000_0000

  ghost predicate IsPow2(n: nat) {
    exists k: nat :: n == Pow2(k)
  }

  /** The test `(n & (n - 1)) == 0` accepts exactly the powers of two. */
  lemma {:induction false} PowerOfTwoTest(n: nat)
    requires n >= 1
    ensures And(n, n - 1) == 0 <==> IsPow2(n)
  {
    if n == 1 {
      assert n == Pow2(0);
    } else if n % 2 == 1 {
      AndSelf(n / 2);
      forall k: nat ensures n != Pow2(k) {
        if k > 0 { assert Pow2(k) == 2 * Pow2(k - 1); }
      }
    } else {
      PowerOfTwoTest(n / 2);
      assert (n - 1) / 2 == n / 2 - 1;
      if IsPow2(n) {
        var k: nat :| n == Pow2(k);
        assert n / 2 == Pow2(k - 1);
      }
      if IsPow2(n / 2) {
        var k: nat :| n / 2 == Pow2(k);
        assert n == Pow2(k + 1);
      }
    }
  }

  lemma {:induction false} AndSelf(n: nat)
    ensures And(n, n) == n
  {
    if n > 0 { AndSelf(n / 2); }
  }

  lemma DoublePow2(n: nat)
    requires IsPow2(n)
    ensures IsPow2(2 * n)
  {
    var k: nat :| n == Pow2(k);
    assert 2 * n == Pow2(k + 1);
  }

  ghost function RoundTarget(newCapacity: nat, min: nat): (r: nat) {
    if newCapacity < min + min / 2 + 5 then min + min / 2 + 5 else newCapacity
  }

  /** The least power of two from 16 up that reaches both the request and one and a half times `min` plus five. */
  method RoundCapacity(newCapacity: nat, min: nat) returns (capacity: nat)
    requires RoundTarget(newCapacity, min) <= MAX_CAPACITY
    ensures IsPow2(capacity) && 16 <= capacity <= MAX_CAPACITY
    ensures capacity >= newCapacity && capacity >= min + min / 2 + 5
    ensures forall c: nat :: 16 <= c && IsPow2(c) && RoundTarget(newCapacity, min) <= c ==> capacity <= c
  {
    Pow2Table();
    capacity := 16;
    ghost var k: nat := 4;
    var minCap := min + min / 2 + 5;
    var target := newCapacity;
    if target < minCap {
      target := minCap;
    }
    while capacity < target
      invariant capacity == Pow2(k) && 4 <= k <= 31
      invariant k == 4 || Pow2(k - 1) < target
      decreases 31 - k
    {
      assert k != 31;
      capacity := capacity * 2;
      k := k + 1;
    }
    Pow2Monotone(4, k);
    Pow2Monotone(k, 31);
    forall c: nat | 16 <= c && IsPow2(c) && target <= c
      ensures capacity <= c
    {
      var j: nat :| c == Pow2(j);
      if j < k {
        if k > 4 { Pow2Monotone(j, k - 1); } else { Pow2Monotone(j, 3); }
      } else {
        Pow2Monotone(k, j);
      }
    }
  }

  lemma NotSmaller(a: nat, b: nat)
    requires IsPow2(a) && IsPow2(b) && 2 * a > b
    ensures a >= b
  {
    var i: nat, j: nat :| a == Pow2(i) && b == Pow2(j);
    if i < j {
      Pow2Monotone(i + 1, j);
    } else {
      Pow2Monotone(j, i);
    }
  }

  /**
   A rehash to the rounded capacity does not shrink a table of `heads` if and only if the request
   exceeds half of it.
   */
  lemma RehashGrows(target: nat, heads: nat, capacity: nat)
    requires IsPow2(heads) && heads >= 16 && IsPow2(capacity) && capacity >= 16 && capacity >= target
    requires forall c: nat :: 16 <= c && IsPow2(c) && target <= c ==> capacity <= c
    ensures capacity >= heads <==> heads == 16 || 2 * target > heads
  {
    if heads != 16 && 2 * target <= heads {
      var k: nat :| heads == Pow2(k);
      Pow2Table();
      if k <= 4 {
        Pow2Monotone(k, 4);
      }
      assert heads == 2 * Pow2(k - 1) && IsPow2(Pow2(k - 1));
      Pow2Monotone(4, k - 1);
    } else if heads != 16 {
      NotSmaller(capacity, heads);
    }
  }

  ghost predicate Distinct<K, V>(buckets: seq<Pair<K, V>>) {
    forall i, j :: 0 <= i < j < |buckets| ==> buckets[i].key != buckets[j].key
  }

  /** The mathematical map an entry vector stands for. */
  ghost function Entries<K(!new), V>(buckets: seq<Pair<K, V>>): (m: map<K, V>) {
    var n := |buckets| - 1;
    if n < 0 then map[] else Entries(buckets[..n])[buckets[n].key := buckets[n].v]
  }

  lemma {:induction false} EntryAt<K(!new), V>(buckets: seq<Pair<K, V>>, i: nat)
    requires Distinct(buckets) && i < |buckets|
    ensures buckets[i].key in Entries(buckets) && Entries(buckets)[buckets[i].key] == buckets[i].v
  {
    var n := |buckets| - 1;
    if i < n { EntryAt(buckets[..n], i); }
  }

  lemma {:induction false} EntryIndex<K(!new), V>(buckets: seq<Pair<K, V>>, k: K) returns (i: nat)
    requires k in Entries(buckets)
    ensures i < |buckets| && buckets[i].key == k
  {
    var n := |buckets| - 1;
    if buckets[n].key == k { i := n; } else { i := EntryIndex(buckets[..n], k); }
  }

  lemma AbsentKey<K(!new), V>(buckets: seq<Pair<K, V>>, k: K)
    requires forall i :: 0 <= i < |buckets| ==> buckets[i].key != k
    ensures k !in Entries(buckets)
  {
    if k in Entries(buckets) { var i := EntryIndex(buckets, k); }
  }

  /** Two entry vectors with the same keys and values stand for the same map. */
  lemma {:induction false} SameEntries<K(!new), V>(a: seq<Pair<K, V>>, b: seq<Pair<K, V>>)
    requires |a| == |b|
    requires forall i :: 0 <= i < |a| ==> a[i].key == b[i].key && a[i].v == b[i].v
    ensures Entries(a) == Entries(b)
  {
    var n := |a| - 1;
    if n >= 0 { SameEntries(a[..n], b[..n]); }
  }

  lemma PushEntries<K(!new), V>(buckets: seq<Pair<K, V>>, p: Pair<K, V>)
    requires Distinct(buckets) && p.key !in Entries(buckets)
    ensures Distinct(buckets + [p]) && Entries(buckets + [p]) == Entries(buckets)[p.key := p.v]
  {
    assert (buckets + [p])[..|buckets|] == buckets;
    forall i | 0 <= i < |buckets| ensures buckets[i].key != p.key { EntryAt(buckets, i); }
  }

  /** Storing `p` at position `i` forgets the key that was there. */
  lemma {:induction false} PutEntries<K(!new), V>(buckets: seq<Pair<K, V>>, i: nat, p: Pair<K, V>)
    requires Distinct(buckets) && i < |buckets|
    requires forall j :: 0 <= j < |buckets| && j != i ==> buckets[j].key != p.key
    ensures Distinct(buckets[i := p])
    ensures Entries(buckets[i := p]) == (Entries(buckets) - {buckets[i].key})[p.key := p.v]
  {
    var n := |buckets| - 1;
    var front := buckets[..n];
    if i == n {
      assert buckets[i := p][..n] == front;
      AbsentKey(front, buckets[n].key);
    } else {
      assert buckets[i := p][..n] == front[i := p];
      assert buckets[i].key != buckets[n].key;
      PutEntries(front, i, p);
    }
  }

  lemma DropLastEntry<K(!new), V>(buckets: seq<Pair<K, V>>)
    requires Distinct(buckets) && |buckets| > 0
    ensures var n := |buckets| - 1;
            Distinct(buckets[..n]) && Entries(buckets[..n]) == Entries(buckets) - {buckets[n].key}
  {
    var n := |buckets| - 1;
    AbsentKey(buckets[..n], buckets[n].key);
  }

  lemma DropMiddleEntry<K(!new), V>(buckets: seq<Pair<K, V>>, i: nat, p: Pair<K, V>)
    requires Distinct(buckets) && i < |buckets| - 1 && p.key == buckets[|buckets| - 1].key
    ensures var n := |buckets| - 1;
            Distinct(buckets[..n][i := p]) &&
            Entries(buckets[..n][i := p]) == (Entries(buckets) - {buckets[i].key})[p.key := p.v]
  {
    var n := |buckets| - 1;
    var front := buckets[..n];
    assert front[i].key == buckets[i].key && buckets[i].key != p.key;
    PutEntries(front, i, p);
    hide Distinct;
    OverwriteLast(Entries(front), buckets[i].key, p.key, buckets[n].v, p.v);
  }

  lemma OverwriteLast<K, V>(m: map<K, V>, gone: K, last: K, v: V, w: V)
    requires gone != last
    ensures (m[last := v] - {gone})[last := w] == (m - {gone})[last := w]
  {
  }

  /** The chain entry of the `i`-th slot of a table with `width` heads. */
  ghost function NodeAt<K, V>(hash: K -> nat, width: nat, buckets: seq<Pair<K, V>>, stamps: seq<nat>, i: nat): (r: Node)
    requires width > 0 && 1 <= i <= |buckets| == |stamps|
  {
    Node(And(hash(buckets[i - 1].key), width - 1), stamps[i - 1], buckets[i - 1].next)
  }

  ghost function NodesOf<K, V>(hash: K -> nat, width: nat, buckets: seq<Pair<K, V>>,
                               stamps: seq<nat>): (r: map<nat, Node>)
    requires width > 0 && |buckets| == |stamps|
    ensures forall i: nat :: i in r <==> 1 <= i <= |buckets|
  {
    map i: nat | 1 <= i <= |buckets| :: NodeAt(hash, width, buckets, stamps, i)
  }

  lemma PushNodes<K, V>(hash: K -> nat, width: nat, buckets: seq<Pair<K, V>>, stamps: seq<nat>, p: Pair<K, V>,
                        stamp: nat)
    requires width > 0 && |buckets| == |stamps|
    ensures NodesOf(hash, width, buckets + [p], stamps + [stamp]) ==
            NodesOf(hash, width, buckets, stamps)[|buckets| + 1 := Node(And(hash(p.key), width - 1), stamp, p.next)]
  {
    var after := NodesOf(hash, width, buckets + [p], stamps + [stamp]);
    forall i: nat | 1 <= i <= |buckets|
      ensures NodeAt(hash, width, buckets + [p], stamps + [stamp], i) == NodeAt(hash, width, buckets, stamps, i)
    {
    }
  }

  lemma LinkNodes<K, V>(hash: K -> nat, width: nat, buckets: seq<Pair<K, V>>, stamps: seq<nat>, prev: nat, to: nat)
    requires width > 0 && |buckets| == |stamps| && 1 <= prev <= |buckets|
    ensures NodesOf(hash, width, buckets[prev - 1 := buckets[prev - 1].(next := to)], stamps) ==
            NodesTo(NodesOf(hash, width, buckets, stamps), prev, to)
  {
    var after := buckets[prev - 1 := buckets[prev - 1].(next := to)];
    forall i: nat | 1 <= i <= |buckets| && i != prev
      ensures NodeAt(hash, width, after, stamps, i) == NodeAt(hash, width, buckets, stamps, i)
    {
    }
  }

  lemma DropLastNode<K, V>(hash: K -> nat, width: nat, buckets: seq<Pair<K, V>>, stamps: seq<nat>)
    requires width > 0 && |buckets| == |stamps| > 0
    ensures var n := |buckets| - 1;
            NodesOf(hash, width, buckets[..n], stamps[..n]) == NodesOf(hash, width, buckets, stamps) - {n + 1}
  {
    var n := |buckets| - 1;
    forall i: nat | 1 <= i <= n
      ensures NodeAt(hash, width, buckets[..n], stamps[..n], i) == NodeAt(hash, width, buckets, stamps, i)
    {
    }
  }

  lemma MoveNode<K, V>(hash: K -> nat, width: nat, buckets: seq<Pair<K, V>>, stamps: seq<nat>, to: nat, p: Pair<K, V>)
    requires width > 0 && |buckets| == |stamps| && 1 <= to < |buckets|
    requires var last := buckets[|buckets| - 1]; p.key == last.key && p.next == last.next
    ensures var n := |buckets| - 1;
            var nodes := NodesOf(hash, width, buckets, stamps);
            NodesOf(hash, width, buckets[..n][to - 1 := p], stamps[..n][to - 1 := stamps[n]]) ==
              (nodes - {n + 1})[to := nodes[n + 1]]
  {
    var n := |buckets| - 1;
    var bs, ss := buckets[..n][to - 1 := p], stamps[..n][to - 1 := stamps[n]];
    forall i: nat | 1 <= i <= n && i != to
      ensures NodeAt(hash, width, bs, ss, i) == NodeAt(hash, width, buckets, stamps, i)
    {
    }
    assert NodeAt(hash, width, bs, ss, to) == NodeAt(hash, width, buckets, stamps, n + 1);
  }

  lemma SlotNode<K, V>(hash: K -> nat, width: nat, buckets: seq<Pair<K, V>>, stamps: seq<nat>, i: nat)
    requires width > 0 && 1 <= i <= |buckets| == |stamps|
    ensures i in NodesOf(hash, width, buckets, stamps)
    ensures NodesOf(hash, width, buckets, stamps)[i] == NodeAt(hash, width, buckets, stamps, i)
  {
  }

  lemma LastIsOther<K, V>(buckets: seq<Pair<K, V>>, i: nat)
    requires Distinct(buckets) && i < |buckets| - 1
    ensures buckets[i].key != buckets[|buckets| - 1].key
  {
  }

  class FlatHashMap<K(==, !new), V(!new)> {
    /** The hash of a key under this table's random base. */
    const hash: K -> nat
    /** What a stored value becomes when another one is move-assigned over it. */
    const assign: (V, V) -> V
    var heads: seq<nat>
    var buckets: seq<Pair<K, V>>
    ghost var stamps: seq<nat>
    ghost var clock: nat

    /** `value` is fully replaced by any value assigned over it. */
    ghost predicate Yields(value: V) {
      forall w :: assign(value, w) == w
    }

    function Bucket(key: K): (b: nat)
      reads this
      requires |heads| > 0
      ensures b < |heads|
    {
      And(hash(key), |heads| - 1)
    }

    /** Masking with a power of two less one is the remainder of the hash by the table size. */
    lemma BucketIsRemainder(key: K)
      requires Shaped()
      ensures Bucket(key) == hash(key) % |heads|
    {
      var k: nat :| |heads| == Pow2(k);
      AndMask(hash(key), k);
    }

    ghost function Nodes(): (r: map<nat, Node>)
      reads this
      requires |heads| > 0 && |stamps| == |buckets|
    {
      NodesOf(hash, |heads|, buckets, stamps)
    }

    ghost predicate Shaped()
      reads this
    {
      && 16 <= |heads| <= MAX_CAPACITY && IsPow2(|heads|)
      && |stamps| == |buckets|
      && Distinct(buckets)
    }

    /** The chains are sound, and the table was doubled in time. */
    ghost predicate Valid()
      reads this
    {
      && Shaped()
      && Chained(heads, Nodes(), clock)
      && (|buckets| >= 1 ==> |heads| >= (|buckets| - 1) + (|buckets| - 1) / 2)
    }

    ghost function Contents(): (m: map<K, V>)
      reads this
      requires Valid()
    {
      Entries(buckets)
    }

    predicate NeedsRehash()
      reads this
    {
      |heads| < |buckets| + |buckets| / 2
    }

    /** Doubling the table stays within the 32-bit capacity. */
    predicate CanGrow()
      reads this
    {
      NeedsRehash() ==> 2 * |heads| <= MAX_CAPACITY
    }

    constructor (initialCapacity: nat, hash: K -> nat, assign: (V, V) -> V)
      requires var c := if initialCapacity < 16 then 16 else initialCapacity; c <= MAX_CAPACITY && And(c, c - 1) == 0
      ensures Valid() && Contents() == map[] && buckets == []
      ensures this.hash == hash && this.assign == assign
      ensures |heads| == if initialCapacity < 16 then 16 else initialCapacity
    {
      var c := if initialCapacity < 16 then 16 else initialCapacity;
      this.hash := hash;
      this.assign := assign;
      heads := seq(c, _ => 0);
      buckets := [];
      stamps, clock := [], 0;
      PowerOfTwoTest(c);
    }

    /**
     Walks the chain of a bucket.  `hole` names an entry already taken out of its chain but still
     in the vector (0: none), as in the middle of `Remove`.
     */
    method GetElement(key: K, bucketHead: nat, ghost hole: nat) returns (r: PairIds)
      requires Shaped() && bucketHead == Bucket(key)
      requires Chained(heads, Nodes() - {hole}, clock)
      ensures r.current == 0 ==> r.prev == 0
      ensures r.current == 0 ==> forall i :: 0 <= i < |buckets| && i + 1 != hole ==> buckets[i].key != key
      ensures r.current != 0 ==> 1 <= r.current <= |buckets| && buckets[r.current - 1].key == key
      ensures r.current != 0 ==> IsPrev(heads, Nodes() - {hole}, r.current, r.prev)
    {
      hide Chained, IsTop, Distinct, IsPow2;
      ghost var nodes := Nodes() - {hole};
      ghost var bound := clock;
      var prev: nat, i: nat := 0, heads[bucketHead];
      HeadIsTop(heads, nodes, clock, bucketHead);
      while i != 0
        invariant IsTop(nodes, i, bucketHead, bound)
        invariant prev == 0 ==> i == heads[bucketHead]
        invariant prev != 0 ==> prev in nodes && nodes[prev].next == i
        invariant forall t :: t in nodes && nodes[t].bucket == bucketHead && nodes[t].stamp >= bound ==>
                    buckets[t - 1].key != key
        decreases bound
      {
        NextIsTop(heads, nodes, clock, i, bucketHead, bound);
        var bucket := buckets[i - 1];
        if bucket.key == key {
          return PairIds(i, prev);
        }
        bound := nodes[i].stamp;
        prev := i;
        i := bucket.next;
      }
      ChainEnd(nodes, bucketHead, bound);
      forall j | 0 <= j < |buckets| && j + 1 != hole
        ensures buckets[j].key != key
      {
        assert j + 1 in nodes && nodes[j + 1] == NodeAt(hash, |heads|, buckets, stamps, j + 1);
      }
      r := PairIds(0, 0);
    }

    /** The address of the value stored under `key`, as its 1-based position; 0 for the null pointer. */
    method Get(key: K) returns (slot: nat)
      requires Valid()
      ensures slot == 0 <==> key !in Contents()
      ensures slot != 0 ==> slot <= |buckets| && buckets[slot - 1].key == key && buckets[slot - 1].v == Contents()[key]
    {
      assert Nodes() - {0} == Nodes();
      var elem := GetElement(key, Bucket(key), 0);
      slot := elem.current;
      if slot == 0 {
        AbsentKey(buckets, key);
      } else {
        EntryAt(buckets, slot - 1);
      }
    }

    method Has(key: K) returns (r: bool)
      requires Valid()
      ensures r <==> key in Contents()
    {
      var slot := Get(key);
      r := slot != 0;
    }

    /** A write through the pointer `Get` returned. */
    method WriteAt(slot: nat, v: V)
      requires Valid() && 1 <= slot <= |buckets|
      modifies this`buckets
      ensures Valid() && Contents() == old(Contents())[buckets[slot - 1].key := v]
      ensures |buckets| == old(|buckets|) && buckets[slot - 1].v == v
      ensures forall i :: 0 <= i < |buckets| ==> buckets[i].key == old(buckets)[i].key
    {
      hide Chained;
      ghost var nodes := Nodes();
      EntryAt(buckets, slot - 1);
      PutEntries(buckets, slot - 1, buckets[slot - 1].(v := v));
      buckets := buckets[slot - 1 := buckets[slot - 1].(v := v)];
      assert Nodes() == nodes;
    }

    /** Adds an absent key, doubling the table first when it is too full. */
    method Insert(key: K, value: V, bucketHead: nat)
      requires Valid() && key !in Contents() && bucketHead == Bucket(key) && CanGrow()
      modifies this
      ensures Valid() && Contents() == old(Contents())[key := value]
      ensures |heads| == if old(NeedsRehash()) then 2 * old(|heads|) else old(|heads|)
      ensures |buckets| == old(|buckets|) + 1 && buckets[old(|buckets|)].key == key
      ensures buckets[old(|buckets|)].v == value
      ensures forall i :: 0 <= i < old(|buckets|) ==>
                buckets[i].key == old(buckets)[i].key && buckets[i].v == old(buckets)[i].v
      decreases if NeedsRehash() then 2 else 0
    {
      hide Chained, IsTop, Distinct, IsPow2;
      var b := bucketHead;
      if |heads| < |buckets| + |buckets| / 2 {
        DoublePow2(|heads|);
        assert RoundTarget(2 * |heads|, |buckets|) == 2 * |heads|;
        Rehash(2 * |heads|);
        b := Bucket(key);
      }
      Push(key, value, b);
    }

    method Push(key: K, value: V, b: nat)
      requires Valid() && key !in Contents() && b == Bucket(key) && !NeedsRehash()
      modifies this
      ensures Valid() && Contents() == old(Contents())[key := value]
      ensures |heads| == old(|heads|)
      ensures exists next :: buckets == old(buckets) + [Pair(key, value, next)]
    {
      hide Chained, IsTop, Distinct, IsPow2;
      ghost var nodes := Nodes();
      ghost var pair := Pair(key, value, heads[b]);
      PushEntries(buckets, pair);
      PushKeeps(heads, nodes, clock, b, |buckets| + 1);
      PushNodes(hash, |heads|, buckets, stamps, pair, clock);
      buckets := buckets + [Pair(key, value, heads[b])];
      heads := heads[b := |buckets|];
      stamps := stamps + [clock];
      clock := clock + 1;
    }

    /**
     Rebuilds the chains over a table that is not smaller, keeping the entries in place.  A request
     that would shrink the table makes the source write past its end.
     */
    method Rehash(newCapacity: nat)
      requires Valid() && (|heads| == 16 || 2 * RoundTarget(newCapacity, |buckets|) > |heads|)
      requires RoundTarget(newCapacity, |buckets|) <= MAX_CAPACITY
      modifies this
      ensures Valid() && Contents() == old(Contents()) && !NeedsRehash()
      ensures newCapacity <= |heads|
      ensures forall c: nat :: 16 <= c && IsPow2(c) && RoundTarget(newCapacity, old(|buckets|)) <= c ==> |heads| <= c
      ensures |buckets| == old(|buckets|)
      ensures forall i :: 0 <= i < |buckets| ==>
                buckets[i].key == old(buckets)[i].key && buckets[i].v == old(buckets)[i].v
      decreases 1
    {
      hide Chained, IsTop;
      var capacity := RoundCapacity(newCapacity, |buckets|);
      RehashGrows(RoundTarget(newCapacity, |buckets|), |heads|, capacity);
      EmptyHeads(capacity);
      var oldBuckets := buckets;
      buckets, stamps := [], [];
      EmptyChained(heads, clock);
      assert Nodes() == map[];
      assert Distinct(buckets);
      hide Chained, IsTop, IsPow2;
      var i := 0;
      while i < |oldBuckets|
        invariant 0 <= i <= |oldBuckets| == old(|buckets|) && |buckets| == i && |heads| == capacity
        invariant Valid() && oldBuckets == old(buckets)
        invariant forall j :: 0 <= j < i ==> buckets[j].key == oldBuckets[j].key && buckets[j].v == oldBuckets[j].v
      {
        var p := oldBuckets[i];
        AbsentKey(buckets, p.key);
        Insert(p.key, p.v, Bucket(p.key));
        i := i + 1;
      }
      SameEntries(oldBuckets, buckets);
    }

    /** Grows the table of heads and makes every chain empty. */
    method EmptyHeads(capacity: nat)
      requires capacity >= |heads|
      modifies this`heads
      ensures |heads| == capacity && forall j :: 0 <= j < capacity ==> heads[j] == 0
    {
      var oldSize := |heads|;
      heads := heads + seq(capacity - oldSize, _ => 0);
      var i := 0;
      while i < oldSize
        invariant 0 <= i <= oldSize && |heads| == capacity
        invariant forall j :: 0 <= j < i || oldSize <= j < capacity ==> heads[j] == 0
      {
        heads := heads[i := 0];
        i := i + 1;
      }
    }

    method InsertOrSet(key: K, value: V)
      requires Valid() && CanGrow()
      modifies this
      ensures Valid()
      ensures Contents() ==
                old(Contents())[key := if key in old(Contents()) then assign(old(Contents())[key], value) else value]
      ensures |heads| == if key !in old(Contents()) && old(NeedsRehash()) then 2 * old(|heads|) else old(|heads|)
      ensures |buckets| == old(|buckets|) + if key in old(Contents()) then 0 else 1
    {
      hide Chained, IsTop, Distinct, IsPow2, Entries, NodesOf;
      var bucketHead := Bucket(key);
      assert Nodes() - {0} == Nodes();
      var elem := GetElement(key, bucketHead, 0);
      if elem.current == 0 {
        AbsentKey(buckets, key);
        Insert(key, value, bucketHead);
      } else {
        EntryAt(buckets, elem.current - 1);
        WriteAt(elem.current, assign(buckets[elem.current - 1].v, value));
      }
    }

    /** Points whatever described `prev` (0: the head of bucket `b`) at entry `to`. */
    method Relink(b: nat, prev: nat, to: nat)
      requires Shaped() && b < |heads| && prev <= |buckets|
      modifies this`heads, this`buckets
      ensures Shaped() && |buckets| == old(|buckets|)
      ensures heads == HeadsTo(old(heads), b, prev, to)
      ensures Nodes() == NodesTo(old(Nodes()), prev, to)
      ensures forall i :: 0 <= i < |buckets| ==>
                buckets[i].key == old(buckets)[i].key && buckets[i].v == old(buckets)[i].v
      ensures forall i :: 0 <= i < |buckets| && i + 1 != prev ==> buckets[i] == old(buckets)[i]
    {
      hide IsPow2;
      if prev == 0 {
        heads := heads[b := to];
      } else {
        LinkNodes(hash, |heads|, buckets, stamps, prev, to);
        buckets := buckets[prev - 1 := buckets[prev - 1].(next := to)];
      }
    }

    /** What the map stands for once `key` is removed: the last entry is assigned over the removed one. */
    ghost function Without(buckets: seq<Pair<K, V>>, key: K): (m: map<K, V>)
      requires Distinct(buckets)
    {
      var m := Entries(buckets);
      if key !in m then m
      else
        var last := buckets[|buckets| - 1].key;
        if key == last then m - {key}
        else if last in m then (m - {key})[last := assign(m[key], m[last])] else m
    }

    method Remove(key: K)
      requires Valid()
      modifies this
      ensures Valid() && |heads| == old(|heads|)
      ensures Contents() == Without(old(buckets), key)
      ensures key !in old(Contents()) ==> buckets == old(buckets)
      ensures key in old(Contents()) ==> |buckets| == old(|buckets|) - 1
    {
      if |buckets| == 0 {
        return;
      }
      if |buckets| == 1 {
        if buckets[0].key == key {
          EntryAt(buckets, 0);
          RemoveOnly(key);
        } else {
          AbsentKey(buckets, key);
        }
        return;
      }
      hide Chained, IsTop, Distinct, IsPow2;
      assert Nodes() - {0} == Nodes();
      hide Entries, NodesOf;
      var bucketHeadRem := Bucket(key);
      var pairRem := GetElement(key, bucketHeadRem, 0);
      if pairRem.current == 0 {
        AbsentKey(buckets, key);
        return;
      }
      EntryAt(buckets, pairRem.current - 1);
      RemoveLinked(bucketHeadRem, pairRem);
    }

    /** Takes the entry `pairRem` found out of its chain and closes the hole in the vector. */
    method RemoveLinked(bucketHeadRem: nat, pairRem: PairIds)
      requires Valid() && IsPrev(heads, Nodes(), pairRem.current, pairRem.prev)
      requires bucketHeadRem == Bucket(buckets[pairRem.current - 1].key)
      modifies this
      ensures Valid() && |heads| == old(|heads|) && |buckets| == old(|buckets|) - 1
      ensures Contents() == Without(old(buckets), old(buckets)[pairRem.current - 1].key)
    {
      hide Chained, IsTop, Distinct, IsPow2, Entries, NodesOf, Without;
      WithoutAt(buckets, pairRem.current - 1);
      var next := buckets[pairRem.current - 1].next;
      SlotNode(hash, |heads|, buckets, stamps, pairRem.current);
      UnlinkKeeps(heads, Nodes(), clock, pairRem.current, pairRem.prev);
      Relink(bucketHeadRem, pairRem.prev, next);
      SameEntries(buckets, old(buckets));
      if pairRem.current == |buckets| {
        DropLast();
      } else {
        MoveLast(pairRem);
      }
    }

    /** What removing the entry at `i` leaves. */
    lemma WithoutAt(buckets: seq<Pair<K, V>>, i: nat)
      requires Distinct(buckets) && i < |buckets|
      ensures var m, last := Entries(buckets), buckets[|buckets| - 1];
              Without(buckets, buckets[i].key) ==
              if i == |buckets| - 1 then m - {last.key}
              else (m - {buckets[i].key})[last.key := assign(buckets[i].v, last.v)]
    {
      EntryAt(buckets, i);
      EntryAt(buckets, |buckets| - 1);
      if i < |buckets| - 1 {
        LastIsOther(buckets, i);
      }
      hide Distinct, Entries;
    }

    method DropLast()
      requires Shaped() && |buckets| > 0
      requires Chained(heads, Nodes() - {|buckets|}, clock)
      requires |heads| >= (|buckets| - 1) + (|buckets| - 1) / 2
      modifies this`buckets, this`stamps
      ensures Valid() && |buckets| == old(|buckets|) - 1
      ensures Contents() == Entries(old(buckets)) - {old(buckets)[|old(buckets)| - 1].key}
    {
      hide Chained, IsTop, IsPow2, Distinct;
      DropLastEntry(buckets);
      DropLastNode(hash, |heads|, buckets, stamps);
      buckets, stamps := buckets[..|buckets| - 1], stamps[..|stamps| - 1];
    }

    /**
     Removal is exactly deletion of the key, unless the removed value resists being overwritten
     by the value of the last entry, which is then lost.
     */
    lemma RemovalDeletes(buckets: seq<Pair<K, V>>, key: K)
      requires Distinct(buckets)
      ensures Without(buckets, key) == Entries(buckets) - {key} <==>
              (forall i :: 0 <= i < |buckets| - 1 && buckets[i].key == key ==>
                 assign(buckets[i].v, buckets[|buckets| - 1].v) == buckets[|buckets| - 1].v)
    {
      var m := Entries(buckets);
      if key in m {
        var i := EntryIndex(buckets, key);
        EntryAt(buckets, i);
        EntryAt(buckets, |buckets| - 1);
        var last := buckets[|buckets| - 1];
        hide Entries;
        assert forall j :: 0 <= j < |buckets| && buckets[j].key == key ==> j == i;
        if key != last.key {
          assert (m - {key})[last.key] == last.v;
          assert Without(buckets, key)[last.key] == assign(buckets[i].v, last.v);
          if assign(buckets[i].v, last.v) == last.v {
            assert (m - {key})[last.key := last.v] == m - {key};
          }
        }
      } else {
        forall i | 0 <= i < |buckets| ensures buckets[i].key != key { EntryAt(buckets, i); }
      }
    }

    method RemoveOnly(key: K)
      requires Valid() && |buckets| == 1 && buckets[0].key == key
      modifies this
      ensures Valid() && |heads| == old(|heads|) && |buckets| == 0
      ensures Contents() == Entries(old(buckets)) - {key} && Contents() == map[]
    {
      var bucketHead := Bucket(key);
      HeadIsTop(heads, Nodes(), clock, bucketHead);
      assert 1 in Nodes() && Nodes()[1] == NodeAt(hash, |heads|, buckets, stamps, 1);
      assert heads[bucketHead] == 1;
      NextIsTop(heads, Nodes(), clock, 1, bucketHead, clock);
      UnlinkKeeps(heads, Nodes(), clock, 1, 0);
      hide Chained;
      assert Nodes() - {1} == map[];
      heads := heads[bucketHead := 0];
      buckets, stamps := [], [];
      assert Nodes() == map[];
    }

    /** Moves the last entry into the slot of the unlinked entry `pairRem.current`. */
    method MoveLast(pairRem: PairIds)
      requires Shaped() && 1 <= pairRem.current < |buckets|
      requires Chained(heads, Nodes() - {pairRem.current}, clock)
      requires |heads| >= (|buckets| - 1) + (|buckets| - 1) / 2
      modifies this
      ensures Valid() && |heads| == old(|heads|) && |buckets| == old(|buckets|) - 1
      ensures var b := old(buckets);
              var last := b[|b| - 1];
              var gone := b[pairRem.current - 1];
              Contents() == (Entries(b) - {gone.key})[last.key := assign(gone.v, last.v)]
    {
      hide Chained, IsTop, IsPow2;
      var to := pairRem.current;
      var n := |buckets| - 1;
      var last := buckets[n];
      ghost var linked := Nodes() - {to};
      var bucketHeadLast := Bucket(last.key);
      var pairLast := GetElement(last.key, bucketHeadLast, to);
      assert pairLast.current == n + 1;
      assert pairLast.prev != pairRem.current;
      if pairLast.prev == pairRem.current {
        pairLast := pairLast.(prev := pairRem.prev);
      }
      Transplant(to, pairLast.prev, bucketHeadLast);
    }

    method Transplant(to: nat, prev: nat, bucketHeadLast: nat)
      requires Shaped() && 1 <= to < |buckets|
      requires Chained(heads, Nodes() - {to}, clock) && IsPrev(heads, Nodes() - {to}, |buckets|, prev)
      requires |heads| >= (|buckets| - 1) + (|buckets| - 1) / 2
      requires bucketHeadLast == Bucket(buckets[|buckets| - 1].key)
      modifies this
      ensures Valid() && |heads| == old(|heads|) && |buckets| == old(|buckets|) - 1
      ensures var b := old(buckets);
              var last := b[|b| - 1];
              Contents() == (Entries(b) - {b[to - 1].key})[last.key := assign(b[to - 1].v, last.v)]
    {
      hide Chained, IsTop, IsPow2, NodesOf, Entries, Distinct;
      var n := |buckets| - 1;
      var moved := buckets[n].(v := assign(buckets[to - 1].v, buckets[n].v));
      ghost var linked := Nodes() - {to};
      ghost var after := buckets[..n][to - 1 := moved];
      SlotNode(hash, |heads|, buckets, stamps, n + 1);
      RenameKeeps(heads, linked, clock, n + 1, prev, to);
      RelinkRenamed(linked, n + 1, prev, to);
      DropMiddleEntry(buckets, to - 1, moved);
      MoveNode(hash, |heads|, buckets, stamps, to, moved);
      ClearTwice(Nodes(), to, n + 1);
      buckets := buckets[to - 1 := moved];
      buckets, stamps := buckets[..n], stamps[..n][to - 1 := stamps[n]];
      assert buckets == after;
      Relink(bucketHeadLast, prev, to);
      SameEntries(buckets, after);
    }

    method Clear()
      requires Valid()
      modifies this
      ensures Valid() && Contents() == map[] && |buckets| == 0 && |heads| == old(|heads|)
    {
      if |buckets| == 0 {
        return;
      }
      hide IsPow2;
      buckets, stamps := [], [];
      EmptyHeads(|heads|);
      EmptyChained(heads, clock);
      hide Chained;
      assert Nodes() == map[];
    }
  }

  datatype Op<K, V> = InsertOrSet(key: K, value: V) | Remove(key: K) | Get(key: K) | Clear

  /** A plain map with the same operations, for values that any assignment replaces. */
  ghost function Apply<K, V>(m: map<K, V>, op: Op<K, V>): (r: map<K, V>) {
    match op
    case InsertOrSet(k, v) => m[k := v]
    case Remove(k) => m - {k}
    case Get(_) => m
    case Clear => map[]
  }

  ghost function Lookup<K, V>(m: map<K, V>, k: K): (r: Option<V>) {
    if k in m then Some(m[k]) else None
  }

  ghost function ApplyAll<K, V>(m: map<K, V>, ops: seq<Op<K, V>>): (r: map<K, V>) {
    if ops == [] then m else Apply(ApplyAll(m, ops[..|ops| - 1]), ops[|ops| - 1])
  }

  /** Every run agrees with the plain map: final contents, size, and the answer of every lookup. */
  method Run<K(==, !new), V(!new)>(t: FlatHashMap<K, V>, ops: seq<Op<K, V>>) returns (found: seq<Option<V>>)
    requires t.Valid() && (forall v :: t.Yields(v))
    requires forall i :: 0 <= i < |ops| && ops[i].InsertOrSet? ==> |ApplyAll(t.Contents(), ops[..i])| < MAX_ENTRIES
    modifies t
    ensures t.Valid() && t.Contents() == ApplyAll(old(t.Contents()), ops)
    ensures |t.buckets| == |t.Contents()|
    ensures |found| == |ops|
    ensures forall i :: 0 <= i < |ops| && ops[i].Get? ==>
              found[i] == Lookup(ApplyAll(old(t.Contents()), ops[..i]), ops[i].key)
  {
    hide Chained, IsTop, Distinct, IsPow2, Entries, Apply, Lookup;
    found := [];
    ghost var start := t.Contents();
    for i := 0 to |ops|
      invariant t.Valid() && t.Contents() == ApplyAll(start, ops[..i])
      invariant |found| == i
      invariant forall j :: 0 <= j < i && ops[j].Get? ==> found[j] == Lookup(ApplyAll(start, ops[..j]), ops[j].key)
    {
      assert ops[..i + 1][..i] == ops[..i];
      EntryCount(t.buckets);
      var r := Step(t, ops[i]);
      found := found + [r];
    }
    assert ops[..|ops|] == ops;
    EntryCount(t.buckets);
  }

  method Step<K(==, !new), V(!new)>(t: FlatHashMap<K, V>, op: Op<K, V>) returns (found: Option<V>)
    requires t.Valid() && (forall v :: t.Yields(v)) && (op.InsertOrSet? ==> |t.buckets| < MAX_ENTRIES)
    modifies t
    ensures t.Valid() && t.Contents() == Apply(old(t.Contents()), op)
    ensures op.Get? ==> found == Lookup(old(t.Contents()), op.key)
  {
    hide Chained, IsTop, Distinct, IsPow2;
    found := None;
    ghost var before := t.buckets;
    match op
    case InsertOrSet(k, v) =>
      hide Entries;
      assert k in t.Contents() ==> t.Yields(t.Contents()[k]);
      t.InsertOrSet(k, v);
    case Remove(k) =>
      hide Entries;
      forall i | 0 <= i < |before| ensures t.Yields(before[i].v) {}
      t.RemovalDeletes(before, k);
      t.Remove(k);
    case Get(k) =>
      var slot := t.Get(k);
      if slot != 0 {
        found := Some(t.buckets[slot - 1].v);
      }
    case Clear =>
      t.Clear();
  }

  lemma {:induction false} EntryCount<K(!new), V>(buckets: seq<Pair<K, V>>)
    requires Distinct(buckets)
    ensures |Entries(buckets)| == |buckets|
  {
    var n := |buckets| - 1;
    if n >= 0 {
      EntryCount(buckets[..n]);
      AbsentKey(buckets[..n], buckets[n].key);
    }
  }
}
