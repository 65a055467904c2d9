/** Batching of commands (`CommandsBufferHandler.hpp`, `CommandsBufferHandler.cpp`). */
module CommandBatches {
  import opened Bits
  import opened CommandArena

  const BUFFER_SIZE: nat := 1024 * 16
  const FLUSH_AFTER: int := 200

  ghost function Flat(batches: seq<seq<nat>>): (r: seq<nat>) {
    if batches == [] then [] else batches[0] + Flat(batches[1..])
  }

  lemma {:induction false} FlatAppend(batches: seq<seq<nat>>, last: seq<nat>)
    ensures Flat(batches + [last]) == Flat(batches) + last
  {
    if batches == [] {
      assert Flat([last]) == last + Flat([]);
    } else {
      assert (batches + [last])[1..] == batches[1..] + [last];
      FlatAppend(batches[1..], last);
    }
  }

  /** What can happen to a handler and to the batches it handed over. */
  datatype Event =
    | Enqueue(now: int, command: nat, size: nat, alignment: nat)
    | Flush
    | Take(run: bool)

  /** A batch: its commands, and when each of them was enqueued. */
  datatype Batch = Batch(commands: seq<nat>, times: seq<int>) {
    ghost function Add(command: nat, now: int): (r: Batch) {
      Batch(commands + [command], times + [now])
    }

    /** No command joined more than 200 milliseconds after the batch was begun. */
    ghost predicate Prompt() {
      |times| == |commands| && forall i :: 0 <= i < |times| ==> times[i] <= times[0] + FLUSH_AFTER
    }
  }

  const NO_BATCH := Batch([], [])

  /** What a run is judged by: the batches handed over and not taken yet, the current one, and its deadline. */
  datatype Snapshot = Snapshot(waiting: seq<Batch>, current: Batch, deadline: int)

  /** The current batch was handed over, if there was one. */
  ghost function HandOver(a: Snapshot): (b: Snapshot) {
    if a.current.commands == [] then a else a.(waiting := a.waiting + [a.current], current := NO_BATCH)
  }

  /**
   A command arrives: the current batch is handed over first if the command does not fit or the batch
   is too old; a command that finds an empty batch sets its deadline.
   */
  ghost predicate Enqueued(a: Snapshot, now: int, command: nat, fits: bool, ok: bool, b: Snapshot) {
    var ready := if !fits || a.deadline < now then HandOver(a) else a;
    && b.waiting == ready.waiting
    && b.deadline == (if ready.current.commands == [] then now + FLUSH_AFTER else a.deadline)
    && b.current == if ok then ready.current.Add(command, now) else ready.current
  }

  /** The protocol. */
  ghost predicate Stepped(a: Snapshot, e: Event, b: Snapshot) {
    match e
    case Enqueue(now, command, size, _) =>
      exists fits: bool, ok: bool ::
        && Enqueued(a, now, command, fits, ok, b)
        && ((fits && now <= a.deadline) || size + 4 <= BUFFER_SIZE ==> ok)
    case Flush => b == HandOver(a)
    case Take(_) => b == if a.waiting == [] then a else a.(waiting := a.waiting[1..])
  }

  ghost predicate Traced(trace: seq<Snapshot>, events: seq<Event>) {
    |trace| == |events| + 1 && forall i :: 0 <= i < |events| ==> Stepped(trace[i], events[i], trace[i + 1])
  }

  /** Every batch is prompt, and the deadline of the current one is 200 milliseconds after its first command. */
  ghost predicate Timely(a: Snapshot) {
    && (forall i :: 0 <= i < |a.waiting| ==> a.waiting[i].Prompt())
    && a.current.Prompt()
    && (a.current.times != [] ==> a.deadline == a.current.times[0] + FLUSH_AFTER)
  }

  lemma TimelyStep(a: Snapshot, e: Event, b: Snapshot)
    requires Stepped(a, e, b) && Timely(a)
    ensures Timely(b)
  {
    assert NO_BATCH.Prompt() && |a.current.times| == |a.current.commands|;
    hide Batch.Prompt;
    assert Timely(HandOver(a));
    if e.Enqueue? {
      var fits, ok :| Enqueued(a, e.now, e.command, fits, ok, b);
      var ready := if !fits || a.deadline < e.now then HandOver(a) else a;
      if ok {
        PromptAdd(ready.current, e.command, e.now);
      }
    }
  }

  lemma PromptAdd(batch: Batch, command: nat, now: int)
    requires batch.Prompt()
    requires batch.times != [] ==> now <= batch.times[0] + FLUSH_AFTER
    ensures batch.Add(command, now).Prompt()
  {
  }

  /** Over every run no command joins a batch that was begun more than 200 milliseconds earlier. */
  lemma {:induction false} EveryTrace(trace: seq<Snapshot>, events: seq<Event>, k: nat)
    requires Traced(trace, events) && k <= |events| && Timely(trace[0])
    ensures Timely(trace[k])
    decreases k
  {
    if k > 0 {
      EveryTrace(trace, events, k - 1);
      hide Stepped, Timely;
      TimelyStep(trace[k - 1], events[k - 1], trace[k]);
    }
  }

  class CommandsBufferHandler {
    /** The buffers passed on to the execution queue, oldest first. */
    var flushed: seq<CommandsBuffer>
    var current: CommandsBuffer
    var forceEnqueueTimepoint: int

    ghost var repr: set<CommandsBuffer>
    /** The commands in the flushed buffers, and when they were enqueued. */
    ghost var batches: seq<seq<nat>>
    ghost var stamps: seq<seq<int>>
    /** When the commands in the current buffer were enqueued. */
    ghost var times: seq<int>
    /** The commands enqueued so far, those run so far, and those destroyed so far with their buffer. */
    ghost var enqueued: seq<nat>
    ghost var ran: seq<nat>
    ghost var gone: seq<nat>

    /** The flushed buffers are untouched since they were flushed. */
    ghost predicate Waiting(b: CommandsBuffer, commands: seq<nat>)
      reads b
    {
      b.Valid() && b.executed == [] && b.commands == commands
    }

    /** The destroyed commands, the flushed batches and the current buffer are the enqueued commands, in order. */
    ghost predicate Valid()
      reads this`flushed, this`current, this`repr, this`batches, this`stamps, this`times, this`enqueued, this`gone, repr
    {
      && current in repr && Waiting(current, current.commands) && (current.valid ==> current.totalBytes >= BUFFER_SIZE)
      && |batches| == |stamps| == |flushed| && |times| == |current.commands|
      && (forall i :: 0 <= i < |flushed| ==>
            flushed[i] in repr && flushed[i] != current && Waiting(flushed[i], batches[i]))
      && (forall i, j :: 0 <= i < j < |flushed| ==> flushed[i] != flushed[j])
      && gone + (Flat(batches) + current.commands) == enqueued
    }

    ghost function Snap(): (r: Snapshot)
      reads this, current
      requires |batches| == |stamps|
    {
      Snapshot(Zipped(batches, stamps), Batch(current.commands, times), forceEnqueueTimepoint)
    }

    static ghost function Zipped(batches: seq<seq<nat>>, stamps: seq<seq<int>>): (r: seq<Batch>)
      requires |batches| == |stamps|
    {
      seq(|batches|, i requires 0 <= i < |batches| => Batch(batches[i], stamps[i]))
    }

    constructor (now: int)
      ensures Valid() && enqueued == [] && ran == [] && gone == [] && fresh(repr)
      ensures Snap() == Snapshot([], NO_BATCH, now + FLUSH_AFTER)
    {
      flushed, batches, stamps, times := [], [], [], [];
      var b := new CommandsBuffer();
      current := b;
      repr := {b};
      forceEnqueueTimepoint := now + FLUSH_AFTER;
      enqueued, ran, gone := [], [], [];
    }

    /** Hands a non-empty current buffer to the queue. */
    method FlushBuffer()
      requires Valid()
      modifies this`flushed, this`current, this`repr, this`batches, this`stamps, this`times
      ensures Valid() && current.commands == [] && fresh(repr - old(repr)) && times == []
      ensures old(current.commands) == [] ==>
                current == old(current) && flushed == old(flushed) && Snap() == old(Snap())
      ensures old(current.commands) != [] ==>
                fresh(current) && !current.valid && flushed == old(flushed) + [old(current)]
      ensures Snap() == HandOver(old(Snap()))
    {
      hide CommandsBuffer.Shaped, Flat;
      if current.valid && current.countCommands != 0 {
        FlatAppend(batches, current.commands);
        flushed := flushed + [current];
        batches, stamps, times := batches + [current.commands], stamps + [times], [];
        current := new CommandsBuffer();
        repr := repr + {current};
      }
    }

    /** Makes the current buffer an empty one with room. */
    method AllocateBuffer()
      requires Valid()
      modifies this`flushed, this`current, this`repr, this`batches, this`stamps, this`times, current
      ensures Valid() && current.commands == [] && current.valid && fresh(repr - old(repr))
      ensures current == old(current) || fresh(current)
      ensures flushed == old(flushed) + if old(current.commands) == [] then [] else [old(current)]
      ensures old(current.valid && current.commands == []) ==> current == old(current) && unchanged(old(current))
      ensures Snap() == HandOver(old(Snap()))
    {
      hide CommandsBuffer.Shaped, Flat;
      FlushBuffer();
      if !current.valid {
        current.Init(BUFFER_SIZE);
      }
    }

    /**
     Enqueues a command behind all earlier ones.  The current buffer is handed over before it exactly
     when it holds commands and either the command does not fit or the buffer is too old; the deadline
     is set exactly when the command finds an empty buffer.  A command that fits an empty buffer is
     never refused.
     */
    method EnqueueCommand(now: int, command: nat, size: nat, alignment: nat) returns (ok: bool)
      requires Valid() && Alignment(alignment) && 0 < alignment <= U32 && 4 <= size <= MAX_COMMAND
      modifies this, current
      ensures Valid() && fresh(repr - old(repr))
      ensures enqueued == if ok then old(enqueued) + [command] else old(enqueued)
      ensures size + 4 <= BUFFER_SIZE ==> ok
      ensures ran == old(ran) && gone == old(gone)
      ensures var late := !old(Fits(size, alignment)) || old(forceEnqueueTimepoint) < now;
              var over := old(current.commands) != [] && late;
              && flushed == old(flushed) + (if over then [old(current)] else [])
              && forceEnqueueTimepoint ==
                   if over || old(current.commands) == [] then now + FLUSH_AFTER else old(forceEnqueueTimepoint)
      ensures old(Fits(size, alignment)) && now <= old(forceEnqueueTimepoint) ==> ok
      ensures |batches| == |stamps| && Enqueued(old(Snap()), now, command, old(Fits(size, alignment)), ok, Snap())
    {
      hide CommandsBuffer.Shaped, Flat, Valid, NextOffset, AlignUp, Aligned, Zipped, Fits;
      MakeRoom(now, size, alignment);
      Zips();
      if current.countCommands == 0 {
        forceEnqueueTimepoint := now + FLUSH_AFTER;
      }
      ok := Put(now, command, size, alignment);
    }

    /** Hands the current buffer over if the command does not fit or the buffer is too old. */
    method MakeRoom(now: int, size: nat, alignment: nat)
      requires Valid() && Alignment(alignment) && 0 < alignment <= U32 && 4 <= size <= MAX_COMMAND
      modifies this`flushed, this`current, this`repr, this`batches, this`stamps, this`times, current
      ensures Valid() && fresh(repr - old(repr)) && (current == old(current) || fresh(current))
      ensures current in repr && |batches| == |stamps|
      ensures var over := !old(Fits(size, alignment)) || forceEnqueueTimepoint < now;
              && flushed == old(flushed) + (if over && old(current.commands) != [] then [old(current)] else [])
              && Snap() == if over then HandOver(old(Snap())) else old(Snap())
      ensures old(Fits(size, alignment)) && now <= forceEnqueueTimepoint ==> Fits(size, alignment)
      ensures size + 4 <= BUFFER_SIZE ==> Fits(size, alignment)
    {
      hide CommandsBuffer.Shaped, Flat, Valid, NextOffset, AlignUp, Aligned, Zipped, Fits;
      Zips();
      CurrentFits(size, alignment);
      if !current.valid || !current.CanAllocate(size, alignment) {
        AllocateBuffer();
        EmptyFits(size, alignment);
        Zips();
      }
      if forceEnqueueTimepoint < now {
        AllocateBuffer();
        EmptyFits(size, alignment);
        Zips();
      }
    }

    lemma Zips()
      requires Valid()
      ensures |batches| == |stamps| && (current.countCommands == 0 <==> current.commands == [])
    {
    }

    /** The command goes between the two ends of the current buffer. */
    ghost predicate Fits(size: nat, alignment: nat)
      reads this`current, current
      requires alignment > 0
    {
      current.valid &&
      AlignUp(current.offsetOfFree, alignment) + size <= current.totalBytes - 4 * (current.countCommands + 1)
    }

    lemma CurrentFits(size: nat, alignment: nat)
      requires Valid() && Alignment(alignment) && 0 < alignment <= U32 && size <= MAX_COMMAND
      ensures current.valid && current.CanAllocate(size, alignment) <==> Fits(size, alignment)
      ensures current in repr
    {
      if current.valid {
        current.CanAllocateFits(size, alignment);
      }
    }

    lemma EmptyFits(size: nat, alignment: nat)
      requires Valid() && alignment > 0 && current.valid && current.commands == []
      ensures size + 4 <= BUFFER_SIZE ==> Fits(size, alignment)
      ensures current in repr
    {
      var r := AlignUp(0, alignment);
      ModUnique(r, alignment, 0, r);
    }

    method Put(ghost now: int, command: nat, size: nat, alignment: nat) returns (ok: bool)
      requires Valid() && Alignment(alignment) && 0 < alignment <= U32 && 4 <= size <= MAX_COMMAND
      modifies this`enqueued, this`times, current
      ensures Valid() && (ok <==> old(Fits(size, alignment))) && |batches| == |stamps|
      ensures Snap().current == if ok then old(Snap().current).Add(command, now) else old(Snap().current)
      ensures enqueued == if ok then old(enqueued) + [command] else old(enqueued)
    {
      hide CommandsBuffer.Shaped, Flat, AlignUp, Aligned;
      ok := current.EnqueueCommand(command, size, alignment);
      if ok {
        enqueued, times := enqueued + [command], times + [now];
        assert gone + (Flat(batches) + (old(current.commands) + [command])) ==
                 gone + (Flat(batches) + old(current.commands)) + [command];
      }
    }

    method EnqueueCommandAndFlush(now: int, command: nat, size: nat, alignment: nat) returns (ok: bool)
      requires Valid() && Alignment(alignment) && 0 < alignment <= U32 && 4 <= size <= MAX_COMMAND
      modifies this, current
      ensures Valid() && current.commands == [] && fresh(repr - old(repr))
      ensures enqueued == if ok then old(enqueued) + [command] else old(enqueued)
      ensures size + 4 <= BUFFER_SIZE ==> ok
      ensures |batches| == |stamps| && old(|batches| == |stamps|)
      ensures exists a :: Enqueued(old(Snap()), now, command, old(Fits(size, alignment)), ok, a) && Snap() ==
                HandOver(a)
    {
      Zips();
      hide Valid, Enqueued, HandOver, Zipped, Fits;
      ok := EnqueueCommand(now, command, size, alignment);
      FlushBuffer();
      Zips();
    }

    /**
     The execution queue takes the oldest buffer and runs it, or drops it without running it (when
     the queue is destroyed); either way every command in it is destroyed.
     */
    method TakeFirst(run: bool)
      requires Valid() && flushed != []
      modifies this, flushed[0]
      ensures Valid() && enqueued == old(enqueued) && flushed == old(flushed)[1..] && repr == old(repr)
      ensures gone == old(gone) + old(batches)[0]
      ensures ran == old(ran) + if run then old(batches)[0] else []
      ensures |batches| == |stamps| && old(|batches| == |stamps| > 0)
      ensures Snap() == old(Snap()).(waiting := old(Snap()).waiting[1..])
    {
      hide CommandsBuffer.Shaped, CommandsBuffer.Valid, Flat, Zipped;
      var b := flushed[0];
      FlatFirst(batches);
      ZippedRest(batches, stamps);
      ghost var r, g := Settle(b, run);
      ran, gone := ran + r, gone + g;
      assert old(gone) + ((batches[0] + Flat(batches[1..])) + current.commands) ==
             gone + (Flat(batches[1..]) + current.commands);
      flushed, batches, stamps := flushed[1..], batches[1..], stamps[1..];
    }

    /** Runs the commands of a buffer, or not, and destroys them. */
    method Settle(b: CommandsBuffer, run: bool) returns (ghost r: seq<nat>, ghost g: seq<nat>)
      requires b.Valid() && b.executed == []
      modifies b
      ensures r == (if run then old(b.commands) else []) && g == old(b.commands)
    {
      if run {
        b.ExecuteAll();
      }
      r, g := b.Reset();
    }

    static lemma ZippedRest(batches: seq<seq<nat>>, stamps: seq<seq<int>>)
      requires |batches| == |stamps| > 0
      ensures Zipped(batches[1..], stamps[1..]) == Zipped(batches, stamps)[1..]
    {
    }

    static lemma FlatFirst(batches: seq<seq<nat>>)
      requires batches != []
      ensures Flat(batches) == batches[0] + Flat(batches[1..])
    {
    }

    /** One event. */
    method Step(e: Event)
      requires Valid() && (e.Enqueue? ==> Enqueueable(e.size, e.alignment))
      modifies this, repr
      ensures Valid() && fresh(repr - old(repr)) && |batches| == |stamps| && old(|batches| == |stamps|)
      ensures Stepped(old(Snap()), e, Snap()) && old(enqueued) <= enqueued && old(gone) <= gone
    {
      Members();
      hide Valid, Enqueued, HandOver, Zipped, Fits;
      match e
      case Enqueue(now, command, size, alignment) =>
        var ok := EnqueueCommand(now, command, size, alignment);
      case Flush =>
        FlushBuffer();
        Zips();
      case Take(run) =>
        if flushed != [] {
          TakeFirst(run);
        }
    }

    /** The size and the alignment of a command. */
    static ghost predicate Enqueueable(size: nat, alignment: nat) {
      Alignment(alignment) && 0 < alignment <= U32 && 4 <= size <= MAX_COMMAND
    }

    lemma Members()
      requires Valid()
      ensures current in repr && |batches| == |stamps| == |flushed| && (flushed != [] ==> flushed[0] in repr)
    {
    }

    /**
     Every run is a run of the protocol, so in every state on the way no command has joined a batch that
     was begun more than 200 milliseconds before it.
     */
    method Run(events: seq<Event>) returns (ghost trace: seq<Snapshot>)
      requires Valid() && |batches| == |stamps| && Timely(Snap())
      requires forall i :: 0 <= i < |events| && events[i].Enqueue? ==> Enqueueable(events[i].size, events[i].alignment)
      modifies this, repr
      ensures Valid() && |batches| == |stamps| && Traced(trace, events)
      ensures trace[0] == old(Snap()) && trace[|events|] == Snap()
      ensures forall i :: 0 <= i < |trace| ==> Timely(trace[i])
      ensures old(enqueued) <= enqueued && old(gone) <= gone
    {
      hide Valid, Stepped, Timely, Snap;
      trace := [Snap()];
      for i := 0 to |events|
        invariant Valid() && fresh(repr - old(repr)) && |batches| == |stamps|
        invariant |trace| == i + 1 && trace[0] == old(Snap()) && trace[i] == Snap()
        invariant forall j :: 0 <= j < i ==> Stepped(trace[j], events[j], trace[j + 1])
        invariant old(enqueued) <= enqueued && old(gone) <= gone
      {
        Step(events[i]);
        trace := trace + [Snap()];
      }
      forall i | 0 <= i < |trace|
        ensures Timely(trace[i])
      {
        EveryTrace(trace, events, i);
      }
    }
  }

  /** The same from the start. */
  method RunNew(now: int, events: seq<Event>) returns (h: CommandsBufferHandler, ghost trace: seq<Snapshot>)
    requires forall i :: 0 <= i < |events| && events[i].Enqueue? ==>
               CommandsBufferHandler.Enqueueable(events[i].size, events[i].alignment)
    ensures h.Valid() && |h.batches| == |h.stamps| && Traced(trace, events)
    ensures trace[0] == Snapshot([], NO_BATCH, now + FLUSH_AFTER) && trace[|events|] == h.Snap()
    ensures forall i :: 0 <= i < |trace| ==> Timely(trace[i])
  {
    h := new CommandsBufferHandler(now);
    h.Zips();
    hide CommandsBufferHandler.Valid;
    trace := h.Run(events);
  }
}
