/**
 The budgeted draining of a command queue (`CommandExecutionQueue.cpp`).  Bulk dequeue may return
 any number of the queued commands, and commands may enqueue others while they run.
 */
module ExecutionQueues {

  const SLOTS: nat := 1024
  const IDLE_BUDGET: int := 512

  /** A bulk dequeue: how many commands it was asked for, and how many it returned. */
  datatype Poll = Poll(asked: nat, got: nat)

  /** How many commands the polls returned. */
  ghost function Taken(polls: seq<Poll>): (n: nat) {
    if polls == [] then 0 else Taken(polls[..|polls| - 1]) + polls[|polls| - 1].got
  }

  /** How many of the polls came back empty. */
  ghost function Empty(polls: seq<Poll>): (n: nat)
    ensures n <= |polls| <= Taken(polls) + n
  {
    if polls == [] then 0 else Empty(polls[..|polls| - 1]) + if polls[|polls| - 1].got == 0 then 1 else 0
  }

  /** What a short poll costs: 57 below 13 commands, and 1 at or below an eighth of what was asked for. */
  ghost function Charge(poll: Poll): (n: nat) {
    if poll.got == poll.asked then 0
    else (if poll.got < 13 then 57 else 0) + if poll.got <= poll.asked / 8 then 1 else 0
  }

  ghost function Charged(polls: seq<Poll>): (n: nat) {
    if polls == [] then 0 else Charged(polls[..|polls| - 1]) + Charge(polls[|polls| - 1])
  }

  /** The last poll was short, and the polls before it cost the whole idle budget. */
  ghost predicate Spent(polls: seq<Poll>) {
    && |polls| > 0 && polls[|polls| - 1].got != polls[|polls| - 1].asked
    && Charged(polls[..|polls| - 1]) >= IDLE_BUDGET
  }

  /** After these polls nothing more is asked for: the quota or the idle budget is spent. */
  ghost predicate Stops(max: nat, polls: seq<Poll>) {
    Taken(polls) >= max || Spent(polls)
  }

  /** Poll `i` asks for what is left of the quota, up to the number of slots, and gets no more. */
  ghost predicate AsksRest(max: nat, polls: seq<Poll>, i: nat)
    requires i < |polls|
  {
    var left := max - Taken(polls[..i]);
    polls[i].asked == (if left < SLOTS then left else SLOTS) && polls[i].got <= polls[i].asked
  }

  /** The polls of a whole call: each asks for the rest, and the last is the first after which nothing more is asked. */
  ghost predicate Complete(max: nat, polls: seq<Poll>) {
    && (forall i :: 0 <= i < |polls| ==> AsksRest(max, polls, i))
    && Stops(max, polls) && forall k :: 0 <= k < |polls| ==> !Stops(max, polls[..k])
  }

  /** An empty poll costs 58, so at most nine of them can come before the budget is spent. */
  lemma {:induction false} FewEmpty(max: nat, polls: seq<Poll>)
    requires forall i :: 0 <= i < |polls| ==> AsksRest(max, polls, i)
    requires forall k :: 0 <= k <= |polls| ==> !Spent(polls[..k])
    requires forall k :: 0 <= k < |polls| ==> Taken(polls[..k]) < max
    ensures Empty(polls) <= 9 && 58 * Empty(polls) <= Charged(polls)
    ensures Taken(polls) == 0 ==> 58 * |polls| == Charged(polls)
  {
    if polls != [] {
      var n := |polls| - 1;
      var front := polls[..n];
      assert forall k :: 0 <= k <= n ==> front[..k] == polls[..k];
      assert forall i :: 0 <= i < n ==> (AsksRest(max, polls, i) <==> AsksRest(max, front, i));
      FewEmpty(max, front);
      assert polls[..|polls|] == polls && !Spent(polls[..|polls|]) && AsksRest(max, polls, n);
    }
  }

  /** However the polls are answered: at most ten are empty, and exactly ten are made when all of them are. */
  lemma CompleteBounds(max: nat, polls: seq<Poll>)
    requires Complete(max, polls)
    ensures Taken(polls) <= max && Empty(polls) <= 10 && |polls| <= Taken(polls) + 10
    ensures Taken(polls) == 0 && max > 0 ==> |polls| == 10
    ensures Taken(polls) < max <==> Spent(polls)
  {
    if polls != [] {
      BeforeLast(max, polls);
      hide Complete, AsksRest;
    }
  }

  /** What is known before the last poll of a call, and of that poll. */
  lemma BeforeLast(max: nat, polls: seq<Poll>)
    requires Complete(max, polls) && polls != []
    ensures var n := |polls| - 1;
            && Empty(polls[..n]) <= 9 && Taken(polls[..n]) < max
            && polls[n].got <= polls[n].asked <= max - Taken(polls[..n]) && 0 < polls[n].asked
            && (Taken(polls[..n]) == 0 ==> 58 * n == Charged(polls[..n]) && n <= 9)
  {
    var n := |polls| - 1;
    var front := polls[..n];
    assert AsksRest(max, polls, n) && !Stops(max, front);
    assert forall k :: 0 <= k <= n ==> front[..k] == polls[..k] && !Stops(max, polls[..k]);
    assert forall i :: 0 <= i < n ==> (AsksRest(max, polls, i) <==> AsksRest(max, front, i));
    FewEmpty(max, front);
  }

  class CommandExecutionQueue {
    /** The queued commands; command numbers are positive, 0 is the empty handle. */
    var queue: seq<nat>

    /** Everything enqueued, dequeued and executed so far. */
    ghost var enqueued: seq<nat>
    ghost var dequeued: seq<nat>
    ghost var executed: seq<nat>
    /** Commands refused because their slot was still occupied. */
    ghost var refused: nat
    /** The bulk dequeues made so far. */
    ghost var polls: seq<Poll>

    /** Commands leave the queue in the order they came. */
    ghost predicate Valid()
      reads this
    {
      dequeued + queue == enqueued && 0 !in queue
    }

    constructor ()
      ensures Valid() && queue == [] && executed == [] && dequeued == [] && refused == 0 && polls == []
    {
      queue, enqueued, dequeued, executed, refused, polls := [], [], [], [], 0, [];
    }

    method EnqueueCommand(command: nat)
      requires Valid()
      modifies this`queue, this`enqueued
      ensures Valid() && enqueued == old(enqueued) + if command == 0 then [] else [command]
    {
      if command != 0 {
        queue := queue + [command];
        enqueued := enqueued + [command];
      }
    }

    /** Whatever other threads or running commands add meanwhile. */
    method Concurrently()
      requires Valid()
      modifies this`queue, this`enqueued
      ensures Valid() && old(enqueued) <= enqueued
    {
      var added: seq<nat> :| 0 !in added;
      queue := queue + added;
      enqueued := enqueued + added;
    }

    /** Moves any number of commands, up to `max`, into the first slots; an occupied slot refuses its command. */
    method TryDequeueBulk(slots: array<nat>, max: nat) returns (n: nat)
      requires Valid() && max <= slots.Length
      modifies this`queue, this`dequeued, this`refused, this`polls, slots
      ensures Valid() && n <= max && n <= |old(queue)| && polls == old(polls) + [Poll(max, n)]
      ensures queue == old(queue)[n..] && dequeued == old(dequeued) + old(queue)[..n]
      ensures (forall i :: 0 <= i < slots.Length ==> old(slots[i]) == 0) ==>
                refused == old(refused) && slots[..n] == old(queue)[..n] &&
                forall i :: n <= i < slots.Length ==> slots[i] == 0
    {
      var limit := if max <= |queue| then max else |queue|;
      n :| 0 <= n <= limit;
      polls := polls + [Poll(max, n)];
      var i := 0;
      while i < n
        invariant 0 <= i <= n && queue == old(queue) && dequeued == old(dequeued)
        invariant polls == old(polls) + [Poll(max, n)]
        invariant forall j :: i <= j < slots.Length ==> slots[j] == old(slots[j])
        invariant (forall j :: 0 <= j < slots.Length ==> old(slots[j]) == 0) ==>
                    refused == old(refused) && forall j :: 0 <= j < i ==> slots[j] == queue[j]
      {
        if slots[i] != 0 {
          refused := refused + 1;
        } else {
          slots[i] := queue[i];
        }
        i := i + 1;
      }
      dequeued := dequeued + queue[..n];
      queue := queue[n..];
    }

    /** Runs the commands in the first `n` slots, in order, and empties the slots. */
    method RunSlots(slots: array<nat>, n: nat)
      requires Valid() && n <= slots.Length
      modifies this`queue, this`enqueued, this`executed, slots
      ensures Valid() && executed == old(executed) + old(slots[..n])
      ensures forall i :: 0 <= i < slots.Length ==> slots[i] == if i < n then 0 else old(slots[i])
    {
      var i := 0;
      while i < n
        invariant 0 <= i <= n && Valid()
        invariant executed == old(executed) + old(slots[..i])
        invariant forall j :: 0 <= j < slots.Length ==> slots[j] == if j < i then 0 else old(slots[j])
      {
        executed := executed + [slots[i]];
        Concurrently();
        slots[i] := 0;
        i := i + 1;
      }
    }

    /**
     Runs up to `maxToDequeue` commands.  It ends against any answers of bulk dequeue, and when it does
     depends only on them: it stops at the first poll that uses up the quota, or that is short after the
     short polls before it used up the idle budget.
     */
    method Execute(maxToDequeue: nat) returns (total: nat, ghost mine: seq<Poll>)
      requires Valid()
      modifies this
      ensures Valid() && refused == old(refused)
      ensures old(dequeued) <= dequeued && |dequeued| == |old(dequeued)| + total
      ensures executed == old(executed) + dequeued[|old(dequeued)|..]
      ensures polls == old(polls) + mine && total == Taken(mine) && Complete(maxToDequeue, mine)
      ensures total <= maxToDequeue && (total < maxToDequeue <==> Spent(mine))
      ensures Empty(mine) <= 10 && |mine| <= total + 10 && (total == 0 && maxToDequeue > 0 ==> |mine| == 10)
    {
      total, mine := 0, [];
      assert Underway(maxToDequeue, mine) && Taken(mine) == Charged(mine) == 0;
      hide Underway, Complete, Spent, AsksRest, Taken, Charged;
      var slots := new nat[SLOTS](_ => 0);
      var quota := maxToDequeue;
      var notFullDequeuesMax := IDLE_BUDGET;
      while quota != 0
        invariant Valid() && refused == old(refused) && 0 <= quota && total + quota == maxToDequeue
        invariant forall i :: 0 <= i < slots.Length ==> slots[i] == 0
        invariant old(dequeued) <= dequeued && |dequeued| == |old(dequeued)| + total
        invariant executed == old(executed) + dequeued[|old(dequeued)|..]
        invariant polls == old(polls) + mine && total == Taken(mine)
        invariant notFullDequeuesMax == IDLE_BUDGET - Charged(mine)
        invariant Underway(maxToDequeue, mine)
        decreases quota, notFullDequeuesMax + 600
      {
        var toDequeue := if quota < SLOTS then quota else SLOTS;
        var n := RunSome(slots, toDequeue);
        total := total + n;
        ghost var before := mine;
        mine := mine + [Poll(toDequeue, n)];
        OneMore(maxToDequeue, before, Poll(toDequeue, n));
        assert polls == old(polls) + mine;
        if n != toDequeue {
          if notFullDequeuesMax <= 0 {
            break;
          }
          if n <= toDequeue / 8 {
            notFullDequeuesMax := notFullDequeuesMax - 1;
          }
          if n < 13 {
            notFullDequeuesMax := notFullDequeuesMax - 57;
          } else if n == 0 {
            notFullDequeuesMax := notFullDequeuesMax - 223;
          }
        }
        quota := quota - n;
      }
      CompleteBounds(maxToDequeue, mine);
    }

    /** One round: whatever bulk dequeue returns is run, in order. */
    method RunSome(slots: array<nat>, max: nat) returns (n: nat)
      requires Valid() && max <= slots.Length && forall i :: 0 <= i < slots.Length ==> slots[i] == 0
      modifies this, slots
      ensures Valid() && refused == old(refused) && n <= max && polls == old(polls) + [Poll(max, n)]
      ensures forall i :: 0 <= i < slots.Length ==> slots[i] == 0
      ensures old(dequeued) <= dequeued && |dequeued| == |old(dequeued)| + n
      ensures executed == old(executed) + dequeued[|old(dequeued)|..]
    {
      n := TryDequeueBulk(slots, max);
      RunSlots(slots, n);
    }
  }

  /** The polls made so far, none of which was the last. */
  ghost predicate Underway(max: nat, polls: seq<Poll>) {
    && (forall i :: 0 <= i < |polls| ==> AsksRest(max, polls, i))
    && !Spent(polls) && forall k :: 0 <= k < |polls| ==> !Stops(max, polls[..k])
  }

  /** One more poll ends the call or leaves it under way. */
  lemma OneMore(max: nat, polls: seq<Poll>, poll: Poll)
    requires Underway(max, polls) && Taken(polls) < max && poll.got <= poll.asked
    requires var left := max - Taken(polls); poll.asked == if left < SLOTS then left else SLOTS
    ensures var more := polls + [poll];
            && Taken(more) == Taken(polls) + poll.got && Charged(more) == Charged(polls) + Charge(poll)
            && (Spent(more) <==> poll.got != poll.asked && Charged(polls) >= IDLE_BUDGET)
            && (Stops(max, more) ==> Complete(max, more)) && (!Spent(more) ==> Underway(max, more))
  {
    var more := polls + [poll];
    assert more[..|polls|] == polls;
    assert forall k :: 0 <= k <= |polls| ==> more[..k] == polls[..k];
    assert polls[..|polls|] == polls;
    forall i | 0 <= i < |more|
      ensures AsksRest(max, more, i)
    {
      assert i < |polls| ==> AsksRest(max, polls, i);
    }
  }
}
