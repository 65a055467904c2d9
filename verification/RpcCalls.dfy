/**
 Matching of remote calls with their returns (`Peer.cpp`, `RPCEnvironment.hpp`,
 `RPCEnvironment.cpp`, `OnReturnCallback.cpp`): call ids wrap at 32 bits, a pending callback is
 kept in the hash table under its id, and a callback handle refuses to be overwritten.
 */
module RpcCalls {
  import opened Bits
  import opened Chains
  import opened FlatHashMaps

  /** A registered callback: its command handle (0: empty), its deadline, and the queue that runs it (0: none). */
  datatype Callback = Callback(handle: nat, deadline: int, queue: nat)

  const EMPTY := Callback(0, 0, 0)

  /** Move-assignment of callbacks: the command handle is refused while the target's is not empty. */
  function Assign(target: Callback, source: Callback): (r: Callback) {
    if target.handle != 0 then target.(deadline := source.deadline, queue := source.queue) else source
  }

  /** What is left of a callback after it was moved from. */
  function MovedFrom(c: Callback): (r: Callback) {
    c.(handle := 0, queue := 0)
  }

  /** A callback that ran: which one, for which call, and whether for its timeout. */
  datatype Firing = Firing(handle: nat, id: nat, timedOut: bool)

  /** The calls of a peer: which callback waits under which id, and what was registered and fired so far. */
  datatype Calls = Calls(pending: map<nat, Callback>, registered: map<nat, nat>, fired: seq<Firing>, nextHandle: nat,
                         lastId: nat)

  class RpcPeer {
    const pending: FlatHashMap<nat, Callback>
    var returnIdGen: nat
    var nextHandle: nat

    /** The call id every callback was registered under. */
    ghost var registered: map<nat, nat>
    ghost var fired: seq<Firing>

    ghost function State(): (r: Calls)
      reads this, pending
      requires pending.Valid()
    {
      Calls(pending.Contents(), registered, fired, nextHandle, returnIdGen)
    }

    ghost predicate Valid()
      reads this, pending
    {
      && pending.Valid() && pending.assign == Assign
      && returnIdGen < U32
      && Accounted(pending.Contents(), registered, fired, nextHandle)
    }

    constructor (hash: nat -> nat)
      ensures Valid() && fresh(pending) && State() == Calls(map[], map[], [], 1, 0) && |pending.buckets| == 0
    {
      assert And(16, 15) == 0 by { PowerOfTwoTest(16); Pow2Table(); }
      pending := new FlatHashMap<nat, Callback>(16, hash, Assign);
      returnIdGen, nextHandle := 0, 1;
      registered, fired := map[], [];
    }

    /**
     The id search.  It ends because ids already tried are distinct and all taken, and fewer than
     2^32 - 1 are pending.
     */
    method GetNextValidReturnCallbackId() returns (id: nat)
      requires Valid() && |pending.Contents()| < U32 - 1
      modifies this`returnIdGen
      ensures Valid() && 0 < id < U32 && id !in pending.Contents() && returnIdGen == id
      ensures NextFree(old(returnIdGen), pending.Contents().Keys + {0}, id)
    {
      hide FlatHashMap.Valid, Accounted, Window, NextFree, FlatHashMap.Contents;
      ghost var k: nat := 0;
      EmptyWindow(returnIdGen);
      ghost var start := returnIdGen;
      ghost var taken := pending.Contents().Keys + {0};
      while true
        invariant pending.Valid() && returnIdGen == IdAt(start, k)
        invariant Window(start, k) <= taken && k <= |taken| < U32
        decreases |taken| - k
      {
        returnIdGen := (returnIdGen + 1) % U32;
        id := returnIdGen;
        var has := pending.Has(id);
        if !(has || id == 0) {
          FoundFree(start, k, taken);
          break;
        }
        WindowGrows(start, k, taken);
        k := k + 1;
      }
    }

    /** `CommandCallSend::Execute`: a fresh id for the call, under which its callback waits. */
    method Call(deadline: int, queue: nat) returns (id: nat)
      requires Valid() && pending.CanGrow() && |pending.Contents()| < U32 - 1
      modifies this, pending
      ensures Valid() && NextFree(old(returnIdGen), old(pending.Contents()).Keys + {0}, id) && 0 < id < U32
      ensures State() == Registered(old(State()), id, deadline, queue)
      ensures |pending.buckets| == old(|pending.buckets|) + 1
    {
      hide FlatHashMap.Valid, Accounted;
      id := GetNextValidReturnCallbackId();
      var callback := Callback(nextHandle, deadline, queue);
      CallAccounted(pending.Contents(), registered, fired, nextHandle, id, callback);
      nextHandle := nextHandle + 1;
      registered := registered[callback.handle := id];
      pending.InsertOrSet(id, callback);
    }

    /** A return frame: the callback waiting under its id runs, or nothing does. */
    method OnReceiveReturn(returnId: nat)
      requires Valid()
      modifies this, pending
      ensures Valid()
      ensures State() ==
                if returnId in old(pending.Contents()) then Fired(old(State()), returnId, false) else old(State())
      ensures |pending.buckets| <= old(|pending.buckets|)
    {
      hide FlatHashMap.Valid, Accounted;
      var callback := EMPTY;
      var cb := pending.Get(returnId);
      if cb != 0 {
        FireAccounted(pending.Contents(), registered, fired, nextHandle, returnId, false);
        callback := Assign(callback, pending.buckets[cb - 1].v);
        Vacate(cb);
        fired := fired + [Firing(callback.handle, returnId, false)];
      }
    }

    /**
     Empties the callback in slot `cb` and removes its entry.  Because the handle is empty by then,
     the entry moved into the hole is not refused.
     */
    method Vacate(cb: nat)
      requires pending.Valid() && pending.assign == Assign && 1 <= cb <= |pending.buckets|
      modifies pending
      ensures pending.Valid() && pending.Contents() == old(pending.Contents()) - {old(pending.buckets)[cb - 1].key}
      ensures |pending.buckets| == old(|pending.buckets|) - 1
    {
      hide FlatHashMap.Valid;
      var key := pending.buckets[cb - 1].key;
      SlotValue(cb);
      pending.WriteAt(cb, MovedFrom(pending.buckets[cb - 1].v));
      EmptySlotYields(cb);
      ghost var m := pending.Contents();
      SlotValue(cb);
      pending.Remove(key);
      assert m - {key} == old(pending.Contents()) - {key};
    }

    /** Removing an entry whose callback is empty deletes that entry and nothing else. */
    lemma EmptySlotYields(cb: nat)
      requires pending.Valid() && pending.assign == Assign
      requires 1 <= cb <= |pending.buckets| && pending.buckets[cb - 1].v.handle == 0
      ensures pending.Without(pending.buckets, pending.buckets[cb - 1].key) ==
                pending.Contents() - {pending.buckets[cb - 1].key}
    {
      var b, key := pending.buckets, pending.buckets[cb - 1].key;
      assert forall i :: 0 <= i < |b| && b[i].key == key ==> i == cb - 1;
      pending.RemovalDeletes(b, key);
    }

    /** The timeout check looks at one entry, chosen at random, and fires it when its deadline has passed. */
    method CheckForTimeoutFunctionCalls(now: int, random: nat)
      requires Valid()
      modifies this, pending
      ensures Valid()
      ensures var b := old(pending.buckets);
              if |b| == 0 then State() == old(State()) && old(pending.Contents()) == map[] else
                var id := b[random % |b|].key;
                && id in old(pending.Contents()) && old(pending.Contents())[id] == b[random % |b|].v
                && (now > b[random % |b|].v.deadline ==> State() == Fired(old(State()), id, true))
                && (now <= b[random % |b|].v.deadline ==> State() == old(State()))
      ensures |pending.buckets| <= old(|pending.buckets|)
    {
      hide FlatHashMap.Valid, Accounted;
      if |pending.buckets| == 0 {
        return;
      }
      var it := random % |pending.buckets|;
      var pair := pending.buckets[it];
      SlotValue(it + 1);
      if now > pair.v.deadline {
        FireAccounted(pending.Contents(), registered, fired, nextHandle, pair.key, true);
        Vacate(it + 1);
        fired := fired + [Firing(pair.v.handle, pair.key, true)];
      }
    }

    lemma SlotValue(cb: nat)
      requires pending.Valid() && 1 <= cb <= |pending.buckets|
      ensures pending.buckets[cb - 1].key in pending.Contents()
      ensures pending.Contents()[pending.buckets[cb - 1].key] == pending.buckets[cb - 1].v
    {
      EntryAt(pending.buckets, cb - 1);
    }
  }

  /** What can happen to the calls of a peer. */
  datatype Event = Call(deadline: int, queue: nat) | Return(id: nat) | Tick(now: int, random: nat)

  /** A callback waits under the fresh id `id`. */
  ghost function Registered(c: Calls, id: nat, deadline: int, queue: nat): (r: Calls) {
    Calls(c.pending[id := Callback(c.nextHandle, deadline, queue)], c.registered[c.nextHandle := id], c.fired,
          c.nextHandle + 1, id)
  }

  /** The callback under `id` runs and is gone. */
  ghost function Fired(c: Calls, id: nat, timedOut: bool): (r: Calls)
    requires id in c.pending
  {
    c.(pending := c.pending - {id}, fired := c.fired + [Firing(c.pending[id].handle, id, timedOut)])
  }

  /**
   The protocol: a call takes the next free id; a return runs the callback under its id, if any; the
   timeout check looks at any one pending call and runs its callback exactly when it is overdue.
   */
  ghost predicate Stepped(a: Calls, e: Event, b: Calls) {
    match e
    case Call(deadline, queue) =>
      exists id :: 0 < id < U32 && NextFree(a.lastId, a.pending.Keys + {0}, id) &&
                   b == Registered(a, id, deadline, queue)
    case Return(id) => b == if id in a.pending then Fired(a, id, false) else a
    case Tick(now, _) =>
      if a.pending == map[] then b == a else
        exists id :: id in a.pending && b == if now > a.pending[id].deadline then Fired(a, id, true) else a
  }

  ghost predicate Traced(trace: seq<Calls>, events: seq<Event>) {
    |trace| == |events| + 1 && forall i :: 0 <= i < |events| ==> Stepped(trace[i], events[i], trace[i + 1])
  }

  ghost predicate Accounts(c: Calls) {
    Accounted(c.pending, c.registered, c.fired, c.nextHandle)
  }

  ghost function CountCalls(events: seq<Event>): (r: nat) {
    if events == [] then 0 else CountCalls(events[..|events| - 1]) + if events[|events| - 1].Call? then 1 else 0
  }

  /** The firing answers a return frame with its id, or a timeout check. */
  ghost predicate Caused(f: Firing, events: seq<Event>) {
    exists i :: 0 <= i < |events| && if f.timedOut then events[i].Tick? else events[i] == Return(f.id)
  }

  /** Nothing registered or fired in `a` was changed or withdrawn in `b`. */
  ghost predicate Continues(a: Calls, b: Calls) {
    && a.fired <= b.fired
    && forall h :: h in a.registered ==> h in b.registered && b.registered[h] == a.registered[h]
  }

  lemma StepAccounts(a: Calls, e: Event, b: Calls)
    requires Accounts(a) && Stepped(a, e, b)
    ensures Accounts(b) && Continues(a, b) && b.nextHandle == a.nextHandle + if e.Call? then 1 else 0
    ensures |b.fired| <= |a.fired| + 1
    ensures |b.fired| > |a.fired| ==> Caused(b.fired[|a.fired|], [e])
  {
    hide Accounted, NextFree;
    match e
    case Call(deadline, queue) =>
      var id :| 0 < id < U32 && NextFree(a.lastId, a.pending.Keys + {0}, id) && b == Registered(a, id, deadline, queue);
      FreeId(a.lastId, a.pending, id);
      CallAccounted(a.pending, a.registered, a.fired, a.nextHandle, id, Callback(a.nextHandle, deadline, queue));
    case Return(id) =>
      if id in a.pending {
        FireAccounted(a.pending, a.registered, a.fired, a.nextHandle, id, false);
        assert [e][0] == Return(id);
      }
    case Tick(now, _) =>
      if b != a {
        var id :| id in a.pending && b == if now > a.pending[id].deadline then Fired(a, id, true) else a;
        FireAccounted(a.pending, a.registered, a.fired, a.nextHandle, id, true);
        assert [e][0].Tick?;
      }
  }

  lemma FreeId(start: nat, pending: map<nat, Callback>, id: nat)
    requires NextFree(start, pending.Keys + {0}, id)
    ensures id !in pending && id != 0
  {
  }

  /**
   Whatever the protocol does: each callback runs at most once and for the call it was registered for,
   one that has not run still waits under its id, every call registered one callback, and every
   firing answers an event of the run.
   */
  lemma {:induction false} EveryTrace(trace: seq<Calls>, events: seq<Event>)
    requires Traced(trace, events) && Accounts(trace[0])
    ensures var a, b := trace[0], trace[|events|];
            && Accounts(b) && Continues(a, b) && b.nextHandle == a.nextHandle + CountCalls(events)
            && forall k :: |a.fired| <= k < |b.fired| ==> Caused(b.fired[k], events)
  {
    var n := |events| - 1;
    if n >= 0 {
      var before, a, b, c := events[..n], trace[0], trace[n], trace[n + 1];
      EveryTrace(trace[..n + 1], before);
      hide Accounted, Stepped;
      assert Stepped(b, events[n], c);
      StepAccounts(b, events[n], c);
      forall k | |a.fired| <= k < |c.fired|
        ensures Caused(c.fired[k], events)
      {
        if k < |b.fired| {
          assert c.fired[k] == b.fired[k];
          Recaused(b.fired[k], before, events);
        } else {
          var last := [events[n]];
          var i :| 0 <= i < |last| && if c.fired[k].timedOut then last[i].Tick? else last[i] == Return(c.fired[k].id);
          assert events[n] == last[i];
        }
      }
    }
  }

  lemma Recaused(f: Firing, before: seq<Event>, events: seq<Event>)
    requires before <= events && Caused(f, before)
    ensures Caused(f, events)
  {
    var i :| 0 <= i < |before| && if f.timedOut then before[i].Tick? else before[i] == Return(f.id);
    assert events[i] == before[i];
  }

  /**
   Every run of a peer is a run of the protocol, from the state before to the state after; so each
   callback runs at most once, for the call it was registered for, and every registered callback that
   has not run is still waiting under its id.  The run stops only before a call that finds the table
   of pending calls full.
   */
  method Run(p: RpcPeer, events: seq<Event>) returns (done: nat, ghost trace: seq<Calls>)
    requires p.Valid()
    modifies p, p.pending
    ensures p.Valid() && done <= |events|
    ensures done < |events| ==> events[done].Call? && |p.pending.buckets| >= MAX_ENTRIES
    ensures Traced(trace, events[..done]) && trace[0] == old(p.State()) && trace[done] == p.State()
    ensures Continues(old(p.State()), p.State()) && p.nextHandle == old(p.nextHandle) + CountCalls(events[..done])
    ensures forall k :: old(|p.fired|) <= k < |p.fired| ==> Caused(p.fired[k], events[..done])
    ensures forall i, j :: 0 <= i < j < |p.fired| ==> p.fired[i].handle != p.fired[j].handle
    ensures forall i :: 0 <= i < |p.fired| ==>
              p.fired[i].handle in p.registered && p.registered[p.fired[i].handle] == p.fired[i].id
    ensures forall h :: 0 < h < p.nextHandle ==> h in p.registered
    ensures forall h :: h in p.registered && !HasFired(p.fired, h) ==>
              p.registered[h] in p.pending.Contents() && p.pending.Contents()[p.registered[h]].handle == h
  {
    done, trace := Trace(p, events);
    EveryTrace(trace, events[..done]);
    hide FlatHashMap.Valid, FlatHashMap.Contents, HasFired, Caused, Traced, Continues, CountCalls;
  }

  method Trace(p: RpcPeer, events: seq<Event>) returns (done: nat, ghost trace: seq<Calls>)
    requires p.Valid()
    modifies p, p.pending
    ensures p.Valid() && done <= |events|
    ensures done < |events| ==> events[done].Call? && |p.pending.buckets| >= MAX_ENTRIES
    ensures Traced(trace, events[..done]) && trace[0] == old(p.State()) && trace[done] == p.State()
  {
    hide FlatHashMap.Valid, FlatHashMap.Contents, Accounted, Stepped, RpcPeer.State;
    done, trace := 0, [p.State()];
    while done < |events| && (events[done].Call? ==> |p.pending.buckets| < MAX_ENTRIES)
      invariant p.Valid() && done <= |events|
      invariant |trace| == done + 1 && trace[0] == old(p.State()) && trace[done] == p.State()
      invariant forall j :: 0 <= j < done ==> Stepped(trace[j], events[j], trace[j + 1])
    {
      Step(p, events[done]);
      trace := trace + [p.State()];
      done := done + 1;
    }
  }

  method Step(p: RpcPeer, e: Event)
    requires p.Valid() && (e.Call? ==> |p.pending.buckets| < MAX_ENTRIES)
    modifies p, p.pending
    ensures p.Valid() && Stepped(old(p.State()), e, p.State())
  {
    hide Accounted, Chained, IsPow2, NextFree;
    match e
    case Call(deadline, queue) =>
      EntryCount(p.pending.buckets);
      var id := p.Call(deadline, queue);
    case Return(id) =>
      p.OnReceiveReturn(id);
    case Tick(now, random) =>
      p.CheckForTimeoutFunctionCalls(now, random);
  }

  /**
   Why callbacks are emptied first: with pairwise different, non-empty callbacks, removal deletes
   just the given call exactly when that call is absent or stored last; otherwise the callback of
   the last entry is refused and lost.
   */
  lemma VacateNeeded(t: FlatHashMap<nat, Callback>, key: nat)
    requires t.Valid() && t.assign == Assign
    requires forall i :: 0 <= i < |t.buckets| ==> t.buckets[i].v.handle != 0
    requires forall i, j :: 0 <= i < j < |t.buckets| ==> t.buckets[i].v.handle != t.buckets[j].v.handle
    ensures t.Without(t.buckets, key) == t.Contents() - {key} <==>
            key !in t.Contents() || key == t.buckets[|t.buckets| - 1].key
  {
    t.RemovalDeletes(t.buckets, key);
    var b := t.buckets;
    if key in t.Contents() {
      var i := EntryIndex(b, key);
    } else {
      forall i | 0 <= i < |b| ensures b[i].key != key { EntryAt(b, i); }
    }
  }

  /** The `k` ids after `start`, wrapping at 32 bits. */
  ghost function Window(start: nat, k: nat): (r: set<nat>) {
    if k == 0 then {} else Window(start, k - 1) + {(start + k) % U32}
  }

  /** `id` is the first free id after `start` in wrapping order. */
  ghost predicate NextFree(start: nat, taken: set<nat>, id: nat) {
    id !in taken && exists k: nat :: IdAt(start, k + 1) == id && Window(start, k) <= taken
  }

  lemma StepMod(start: nat, k: nat)
    ensures ((start + k) % U32 + 1) % U32 == (start + k + 1) % U32
  {
    var q, r := (start + k) / U32, (start + k) % U32;
    if r + 1 == U32 {
      ModUnique(start + k + 1, U32, q + 1, 0);
    } else {
      ModUnique(start + k + 1, U32, q, r + 1);
    }
  }

  /** Ids less than one full turn apart differ. */
  lemma Distinct32(start: nat, i: nat, j: nat)
    requires i < j < i + U32
    ensures (start + i) % U32 != (start + j) % U32
  {
    var a, b := start + i, start + j;
    assert a == U32 * (a / U32) + a % U32 && b == U32 * (b / U32) + b % U32;
  }

  lemma {:induction false} WindowMember(start: nat, k: nat, x: nat)
    requires x in Window(start, k)
    ensures exists j: nat :: 1 <= j <= k && IdAt(start, j) == x
  {
    if x == (start + k) % U32 {
      assert IdAt(start, k) == x;
    } else {
      WindowMember(start, k - 1, x);
    }
  }

  ghost function IdAt(start: nat, j: nat): (r: nat) {
    (start + j) % U32
  }

  lemma {:induction false} WindowSize(start: nat, k: nat)
    requires k <= U32
    ensures |Window(start, k)| == k
  {
    if k > 0 {
      WindowSize(start, k - 1);
      if (start + k) % U32 in Window(start, k - 1) {
        WindowMember(start, k - 1, (start + k) % U32);
        var j: nat :| 1 <= j <= k - 1 && IdAt(start, j) == (start + k) % U32;
        Distinct32(start, j, k);
      }
    }
  }

  lemma EmptyWindow(start: nat)
    requires start < U32
    ensures Window(start, 0) == {} && IdAt(start, 0) == start
  {
  }

  /** One more taken id: the window grows, and still fits the taken ids. */
  lemma WindowGrows(start: nat, k: nat, taken: set<nat>)
    requires Window(start, k) <= taken && k < U32 && (IdAt(start, k) + 1) % U32 in taken
    ensures Window(start, k + 1) <= taken && k + 1 <= |taken| && IdAt(start, k + 1) == (IdAt(start, k) + 1) % U32
  {
    StepMod(start, k);
    WindowSize(start, k + 1);
    SubsetSize(Window(start, k + 1), taken);
  }

  lemma FoundFree(start: nat, k: nat, taken: set<nat>)
    requires Window(start, k) <= taken && (IdAt(start, k) + 1) % U32 !in taken
    ensures NextFree(start, taken, (IdAt(start, k) + 1) % U32)
  {
    StepMod(start, k);
    assert IdAt(start, k + 1) == (IdAt(start, k) + 1) % U32;
  }

  lemma {:induction false} SubsetSize(a: set<nat>, b: set<nat>)
    requires a <= b
    ensures |a| <= |b|
    decreases a
  {
    if a != {} {
      var x :| x in a;
      SubsetSize(a - {x}, b - {x});
    }
  }

  /** Every registered callback is pending under its id or has fired once, and never both. */
  ghost predicate Accounted(pending: map<nat, Callback>, registered: map<nat, nat>, fired: seq<Firing>,
                            nextHandle: nat)
  {
    && nextHandle > 0
    && (forall id :: id in pending ==>
          0 < id < U32 && pending[id].handle in registered && registered[pending[id].handle] == id)
    && (forall h :: h in registered <==> 0 < h < nextHandle)
    && (forall h :: h in registered ==>
          (HasFired(fired, h) <==> !(registered[h] in pending && pending[registered[h]].handle == h)))
    && (forall i :: 0 <= i < |fired| ==> fired[i].handle in registered && registered[fired[i].handle] == fired[i].id)
    && (forall i, j :: 0 <= i < j < |fired| ==> fired[i].handle != fired[j].handle)
  }

  ghost predicate HasFired(fired: seq<Firing>, h: nat) {
    exists i :: 0 <= i < |fired| && fired[i].handle == h
  }

  lemma CallAccounted(pending: map<nat, Callback>, registered: map<nat, nat>, fired: seq<Firing>, nextHandle: nat,
                      id: nat, c: Callback)
    requires Accounted(pending, registered, fired, nextHandle)
    requires 0 < id < U32 && id !in pending && c.handle == nextHandle
    ensures Accounted(pending[id := c], registered[c.handle := id], fired, nextHandle + 1) && nextHandle !in registered
  {
  }

  lemma FireAccounted(pending: map<nat, Callback>, registered: map<nat, nat>, fired: seq<Firing>, nextHandle: nat,
                      id: nat, timedOut: bool)
    requires Accounted(pending, registered, fired, nextHandle) && id in pending
    ensures Accounted(pending - {id}, registered, fired + [Firing(pending[id].handle, id, timedOut)], nextHandle)
    ensures !HasFired(fired, pending[id].handle)
  {
    var h := pending[id].handle;
    var fired' := fired + [Firing(h, id, timedOut)];
    assert fired'[|fired|].handle == h;
    assert !HasFired(fired, h);
    forall g | g in registered && g != h
      ensures HasFired(fired', g) <==> HasFired(fired, g)
    {
      if HasFired(fired, g) {
        var i :| 0 <= i < |fired| && fired[i].handle == g;
        assert fired'[i].handle == g;
      }
    }
  }
}
