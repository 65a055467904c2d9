/**
 The command arena (`CommandsBuffer.cpp`): command objects grow upwards from the start of a block,
 and one word of metadata per command grows downwards from its end.
 */
module CommandArena {
  import opened Bits

  /** What a piece of the block holds: a metadata word, or a command object. */
  datatype Cell = Meta(offset: nat) | Object(command: nat, bytes: nat)

  function CellSize(c: Cell): (r: nat) {
    match c
    case Meta(_) => 4
    case Object(_, bytes) => bytes
  }

  /** The block after a write: whatever overlaps the written bytes is gone. */
  function Written(mem: map<nat, Cell>, at: nat, cell: Cell): (r: map<nat, Cell>) {
    (map a | a in mem && (a + CellSize(mem[a]) <= at || at + CellSize(cell) <= a) :: mem[a])[at := cell]
  }

  /** Where a command lies. */
  datatype Region = Region(offset: nat, size: nat, alignment: nat) {
    ghost function End(): (r: nat) { offset + size }
  }

  ghost predicate Aligned(x: nat, a: nat) {
    a > 0 && x % a == 0
  }

  /** Commands are aligned and lie one after the other, up to `end`. */
  ghost predicate Stacked(regions: seq<Region>, end: nat) {
    && (forall i :: 0 <= i < |regions| ==> Aligned(regions[i].offset, regions[i].alignment))
    && (forall i :: 0 <= i < |regions| ==> regions[i].size >= 4 && regions[i].End() <= end)
    && (forall i, j :: 0 <= i < j < |regions| ==> regions[i].End() <= regions[j].offset)
  }

  /** Command `i` can be found through its metadata word. */
  ghost predicate Reachable(mem: map<nat, Cell>, total: nat, i: nat, r: Region, command: nat) {
    && 4 * (i + 1) <= total
    && total - 4 * (i + 1) in mem && mem[total - 4 * (i + 1)] == Meta(r.offset)
    && r.offset in mem && mem[r.offset] == Object(command, r.size)
  }

  ghost predicate AllReachable(mem: map<nat, Cell>, total: nat, regions: seq<Region>, commands: seq<nat>) {
    && |regions| == |commands|
    && forall i :: 0 <= i < |commands| ==> Reachable(mem, total, i, regions[i], commands[i])
  }

  /** Nothing lies between the commands, which end at `low`, and the metadata, which starts at `high`. */
  ghost predicate Inside(mem: map<nat, Cell>, low: nat, high: nat) {
    forall a :: a in mem ==> a + CellSize(mem[a]) <= low || a >= high
  }

  /** A write between the commands and the metadata destroys nothing. */
  lemma WriteBetween(mem: map<nat, Cell>, low: nat, high: nat, at: nat, cell: Cell)
    requires Inside(mem, low, high) && low <= at && at + CellSize(cell) <= high
    ensures Written(mem, at, cell) == mem[at := cell]
  {
  }

  /** Pushing an aligned command at both ends of the free space keeps every command reachable. */
  lemma PushReachable(mem: map<nat, Cell>, total: nat, regions: seq<Region>, commands: seq<nat>, low: nat, r: Region,
                      command: nat)
    requires AllReachable(mem, total, regions, commands) && Stacked(regions, low) && 4 * (|commands| + 1) <= total
    requires Inside(mem, low, total - 4 * |commands|)
    requires low <= r.offset && r.size >= 4 && r.End() <= total - 4 * (|commands| + 1)
    requires Aligned(r.offset, r.alignment)
    ensures var meta := total - 4 * (|commands| + 1);
            var mem' := Written(Written(mem, meta, Meta(r.offset)), r.offset, Object(command, r.size));
            && AllReachable(mem', total, regions + [r], commands + [command])
            && Stacked(regions + [r], r.End())
            && Inside(mem', r.End(), meta)
  {
    hide Aligned, Stacked, Inside, Written, AllReachable;
    PushStacked(regions, low, r);
    EachBelow(regions, low);
    TwoWrites(mem, low, total - 4 * |commands|, r, command);
    PushAll(mem, total, regions, commands, low, r, command);
  }

  /** The metadata word at the upper end and the command at the lower one destroy nothing. */
  lemma TwoWrites(mem: map<nat, Cell>, low: nat, high: nat, r: Region, command: nat)
    requires Inside(mem, low, high) && low <= r.offset && r.End() + 4 <= high
    ensures var meta, body := Meta(r.offset), Object(command, r.size);
            var mem' := mem[high - 4 := meta][r.offset := body];
            Written(Written(mem, high - 4, meta), r.offset, body) == mem' && Inside(mem', r.End(), high - 4)
  {
    hide Inside, Written;
    var meta, body := Meta(r.offset), Object(command, r.size);
    WriteBetween(mem, low, high, high - 4, meta);
    StillInside(mem, low, high, high - 4, meta, low, high - 4);
    WriteBetween(mem[high - 4 := meta], low, high - 4, r.offset, body);
    StillInside(mem[high - 4 := meta], low, high - 4, r.offset, body, r.End(), high - 4);
  }

  lemma PushAll(mem: map<nat, Cell>, total: nat, regions: seq<Region>, commands: seq<nat>, low: nat, r: Region,
                command: nat)
    requires AllReachable(mem, total, regions, commands) && 4 * (|commands| + 1) <= total
    requires (forall i :: 0 <= i < |regions| ==> regions[i].offset < low) && low <= r.offset
    requires r.offset < total - 4 * (|commands| + 1)
    ensures var mem' := mem[total - 4 * (|commands| + 1) := Meta(r.offset)][r.offset := Object(command, r.size)];
            AllReachable(mem', total, regions + [r], commands + [command])
  {
    var mem' := mem[total - 4 * (|commands| + 1) := Meta(r.offset)][r.offset := Object(command, r.size)];
    forall i | 0 <= i < |commands|
      ensures Reachable(mem', total, i, regions[i], commands[i])
    {
      assert Reachable(mem, total, i, regions[i], commands[i]);
    }
  }

  lemma PushStacked(regions: seq<Region>, low: nat, r: Region)
    requires Stacked(regions, low) && low <= r.offset && r.size >= 4 && Aligned(r.offset, r.alignment)
    ensures Stacked(regions + [r], r.End())
  {
  }

  lemma EachBelow(regions: seq<Region>, low: nat)
    requires Stacked(regions, low)
    ensures forall i :: 0 <= i < |regions| ==> regions[i].offset < low
  {
  }

  lemma StillInside(mem: map<nat, Cell>, low: nat, high: nat, at: nat, cell: Cell, low': nat, high': nat)
    requires Inside(mem, low, high) && low <= low' && high' <= high
    requires at + CellSize(cell) <= low' || at >= high'
    ensures Inside(mem[at := cell], low', high')
  {
  }

  /** The number formed by the `k` lowest bits. */
  ghost function LowBits(x: nat, k: nat): (r: nat)
    ensures r <= x
  {
    if k == 0 then 0 else x % 2 + 2 * LowBits(x / 2, k - 1)
  }

  lemma {:induction false} LowBitsMod(x: nat, k: nat)
    ensures LowBits(x, k) == x % Pow2(k)
    decreases k
  {
    if k > 0 {
      LowBitsMod(x / 2, k - 1);
      ModDouble(x, Pow2(k - 1));
      hide LowBits;
      assert Pow2(k) == 2 * Pow2(k - 1);
    }
  }

  lemma {:induction false} LowBitsAll(x: nat, n: nat)
    requires x < Pow2(n)
    ensures LowBits(x, n) == x
    decreases n
  {
    if n > 0 {
      LowBitsAll(x / 2, n - 1);
    }
  }

  lemma {:induction false} AndLow(x: nat, n: nat)
    ensures And(x, Pow2(n) - 1) == LowBits(x, n)
    decreases n
  {
    if n > 0 {
      AndOdd(x, Pow2(n - 1));
      AndLow(x / 2, n - 1);
      hide And;
      assert Pow2(n) == 2 * Pow2(n - 1);
    }
  }

  /** The bits from `k` up to `n`. */
  ghost function HighMask(k: nat, n: nat): (r: nat)
    requires k <= n
  {
    if k == 0 then Pow2(n) - 1 else 2 * HighMask(k - 1, n - 1)
  }

  lemma {:induction false} HighMaskValue(k: nat, n: nat)
    requires k <= n
    ensures HighMask(k, n) == Pow2(n) - Pow2(k)
  {
    if k > 0 { HighMaskValue(k - 1, n - 1); }
  }

  /** `x & ~(a - 1)` in `n` bits clears the low bits below the power of two `a`. */
  lemma {:induction false} AndHigh(x: nat, k: nat, n: nat)
    requires k <= n && x < Pow2(n)
    ensures And(x, HighMask(k, n)) == x - LowBits(x, k)
    decreases n
  {
    if k == 0 {
      AndLow(x, n);
      LowBitsAll(x, n);
    } else {
      AndEven(x, HighMask(k - 1, n - 1));
      AndHigh(x / 2, k - 1, n - 1);
      hide And, Pow2;
    }
  }

  lemma AndEven(x: nat, h: nat)
    ensures And(x, 2 * h) == 2 * And(x / 2, h)
  {
    assert 2 * h / 2 == h && 2 * h % 2 == 0;
    if x > 0 && x / 2 == 0 {
      assert And(x / 2, h) == 0;
    }
  }

  /** The first multiple of `a` from `x` on. */
  ghost function AlignUp(x: nat, a: nat): (r: nat)
    requires a > 0
    ensures Aligned(r, a) && x <= r < x + a
  {
    var y := x + a - 1;
    assert y == a * (y / a) + y % a;
    var r := y - y % a;
    ModUnique(r, a, y / a, 0);
    r
  }

  const MAX_ALIGNMENT_BITS: nat := 12

  /** No sum of an aligned offset and a command size up to this one wraps. */
  const MAX_COMMAND: nat := 0x7FFF_F000

  /** The alignment is a power of two up to 4096. */
  ghost predicate Alignment(a: nat) {
    exists k: nat :: k <= MAX_ALIGNMENT_BITS && a == Pow2(k)
  }

  lemma AlignmentBounds(a: nat)
    requires Alignment(a)
    ensures 1 <= a <= 4096
  {
    var k: nat :| k <= MAX_ALIGNMENT_BITS && a == Pow2(k);
    Pow2Monotone(k, 12);
    Pow2Table();
  }

  /** The offset of the next command in 32-bit arithmetic. */
  function NextOffset(offsetOfFree: nat, alignment: nat): (r: nat)
    requires 0 < alignment <= U32
  {
    And((offsetOfFree + alignment - 1) % U32, U32 - alignment)
  }

  lemma NextOffsetAligned(x: nat, a: nat)
    requires Alignment(a) && x < 0x8000_0000
    ensures 0 < a <= 4096 && NextOffset(x, a) == AlignUp(x, a)
  {
    hide *;
    AlignmentBounds(a);
    var k := AlignmentBits(a);
    AlignUpValue(x, a);
    NextOffsetLow(x, a, k);
    LowBitsMod(x + a - 1, k);
  }

  lemma AlignmentBits(a: nat) returns (k: nat)
    requires Alignment(a)
    ensures k <= 12 && a == Pow2(k)
  {
    hide Pow2;
    k :| k <= MAX_ALIGNMENT_BITS && a == Pow2(k);
  }

  lemma AlignUpValue(x: nat, a: nat)
    requires a > 0
    ensures AlignUp(x, a) == x + a - 1 - (x + a - 1) % a
  {
  }

  lemma NextOffsetLow(x: nat, a: nat, k: nat)
    requires k <= 32 && a == Pow2(k) && 0 < a <= 4096 && x < 0x8000_0000
    ensures NextOffset(x, a) == x + a - 1 - LowBits(x + a - 1, k)
  {
    hide And, LowBits, HighMask, Pow2;
    Pow2Table();
    HighMaskValue(k, 32);
    AndHigh(x + a - 1, k, 32);
    ModUnique(x + a - 1, U32, 0, x + a - 1);
  }

  class CommandsBuffer {
    var valid: bool
    var totalBytes: nat
    var countCommands: nat
    var commandsExecuted: nat
    var offsetOfFree: nat
    var mem: map<nat, Cell>

    ghost var regions: seq<Region>
    /** The commands enqueued, in order, and those run and destroyed so far. */
    ghost var commands: seq<nat>
    ghost var executed: seq<nat>
    ghost var destroyed: seq<nat>

    ghost predicate Valid()
      reads this
    {
      && |regions| == |commands| == countCommands && commandsExecuted <= countCommands
      && executed == destroyed == commands[..commandsExecuted]
      && (valid ==> Shaped())
      && (!valid ==> countCommands == 0 && totalBytes == 0)
    }

    /** Commands below, metadata above, free bytes between; the bounds rule out any 32-bit underflow. */
    ghost predicate Shaped()
      reads this
    {
      && 4 <= totalBytes < 0x8000_0000 && (countCommands == 0 ==> offsetOfFree == 0)
      && 4 * countCommands <= offsetOfFree && offsetOfFree + 4 * countCommands <= totalBytes
      && Stacked(regions, offsetOfFree)
      && AllReachable(mem, totalBytes, regions, commands)
      && Inside(mem, offsetOfFree, totalBytes - 4 * countCommands)
    }

    constructor ()
      ensures Valid() && !valid && commands == [] && executed == []
    {
      valid, totalBytes, countCommands, commandsExecuted, offsetOfFree, mem := false, 0, 0, 0, 0, map[];
      regions, commands, executed, destroyed := [], [], [], [];
    }

    function GetMetadataOffset(id: nat): (r: nat)
      reads this
    {
      (totalBytes - 4 * (id + 1)) % U32
    }

    predicate CanAllocate(size: nat, alignment: nat)
      reads this
      requires 0 < alignment <= U32
    {
      valid && (NextOffset(offsetOfFree, alignment) + size) % U32 <= GetMetadataOffset(countCommands)
    }

    /** No intermediate value of the test wraps, but for the sum itself. */
    lemma ExactParts(alignment: nat)
      requires Valid() && valid && Alignment(alignment)
      ensures 0 < alignment <= 4096
      ensures 4 * (countCommands + 1) <= totalBytes
      ensures GetMetadataOffset(countCommands) == totalBytes - 4 * (countCommands + 1) >= 0
      ensures NextOffset(offsetOfFree, alignment) == AlignUp(offsetOfFree, alignment)
    {
      hide And, NextOffset, Pow2, AlignUp, Aligned, Stacked, AllReachable, Inside, Alignment;
      AlignmentBounds(alignment);
      NextOffsetAligned(offsetOfFree, alignment);
      MetadataExact();
    }

    lemma MetadataExact()
      requires Valid() && valid
      ensures 4 * (countCommands + 1) <= totalBytes
      ensures GetMetadataOffset(countCommands) == totalBytes - 4 * (countCommands + 1) >= 0
    {
      hide Stacked, AllReachable, Inside;
      var m := totalBytes - 4 * (countCommands + 1);
      ModUnique(m, U32, 0, m);
    }

    /**
     The 32-bit test is the test of the exact numbers, unless the sum wraps and lands before the
     metadata, which takes a command of about four gigabytes.
     */
    lemma CanAllocateExact(size: nat, alignment: nat)
      requires Valid() && valid && Alignment(alignment) && size < U32
      ensures 0 < alignment <= 4096
      ensures var end, high := AlignUp(offsetOfFree, alignment) + size, totalBytes - 4 * (countCommands + 1);
              (CanAllocate(size, alignment) <==> end <= high) <==> !(U32 <= end <= U32 + high)
    {
      hide And, NextOffset, Pow2, AlignUp, Aligned, Valid, GetMetadataOffset;
      ExactParts(alignment);
      Bounded(alignment);
      WrappedTest(AlignUp(offsetOfFree, alignment) + size, totalBytes - 4 * (countCommands + 1));
    }

    lemma Bounded(alignment: nat)
      requires Valid() && valid && 0 < alignment <= 4096
      ensures AlignUp(offsetOfFree, alignment) < U32 && 4 * (countCommands + 1) <= totalBytes < U32
    {
      hide AlignUp, Aligned, Stacked, AllReachable, Inside;
    }

    /** A sum that may wrap once, compared with a bound. */
    static lemma WrappedTest(e: nat, high: nat)
      requires e < 2 * U32 && high < U32
      ensures (e % U32 <= high <==> e <= high) <==> !(U32 <= e <= U32 + high)
    {
      if e < U32 {
        ModUnique(e, U32, 0, e);
      } else {
        ModUnique(e, U32, 1, e - U32);
      }
    }

    /** Up to two gigabytes, nothing wraps. */
    lemma CanAllocateFits(size: nat, alignment: nat)
      requires Valid() && valid && Alignment(alignment) && size <= MAX_COMMAND
      ensures 0 < alignment <= 4096
      ensures CanAllocate(size, alignment) <==>
                AlignUp(offsetOfFree, alignment) + size <= totalBytes - 4 * (countCommands + 1)
    {
      CanAllocateExact(size, alignment);
      hide CanAllocate, NextOffset, AlignUp, Aligned, Stacked, AllReachable, Inside;
    }

    lemma Unallocated(size: nat, alignment: nat)
      requires !valid && 0 < alignment <= U32
      ensures !CanAllocate(size, alignment)
    {
    }

    /** Room for commands: a block of at least the requested size. */
    method Init(size: nat)
      requires Valid() && 4 <= size <= 0x1000_0000
      modifies this
      ensures Valid() && valid && commands == [] && executed == [] && size <= totalBytes && offsetOfFree == 0
    {
      var _, _ := Reset();
      var extra: nat :| extra < 0x1000_0000;
      totalBytes := size + extra;
      valid := true;
      countCommands, commandsExecuted, offsetOfFree := 0, 0, 0;
      mem := map[];
      regions, commands, executed, destroyed := [], [], [], [];
    }

    /** Enqueues a command of the given size and alignment exactly when it fits between the two ends. */
    method EnqueueCommand(command: nat, size: nat, alignment: nat) returns (ok: bool)
      requires Valid() && Alignment(alignment) && 0 < alignment <= U32 && 4 <= size <= MAX_COMMAND
      modifies this
      ensures Valid() && valid == old(valid) && totalBytes == old(totalBytes)
      ensures ok <==>
                old(valid) &&
                AlignUp(old(offsetOfFree), alignment) + size <= old(totalBytes) - 4 * (old(countCommands) + 1)
      ensures !ok ==> commands == old(commands) && regions == old(regions)
      ensures ok ==> commands == old(commands) + [command] &&
                     regions == old(regions) + [Region(AlignUp(old(offsetOfFree), alignment), size, alignment)]
      ensures executed == old(executed) && destroyed == old(destroyed)
    {
      hide And, NextOffset, AlignUp, Aligned, CanAllocate, GetMetadataOffset, Stacked, AllReachable, Inside, Written;
      if valid {
        ExactParts(alignment);
        CanAllocateFits(size, alignment);
      } else {
        Unallocated(size, alignment);
      }
      if !CanAllocate(size, alignment) {
        return false;
      }
      ghost var r := Region(AlignUp(offsetOfFree, alignment), size, alignment);
      PushReachable(mem, totalBytes, regions, commands, offsetOfFree, r, command);
      var metaOffset := GetMetadataOffset(countCommands);
      var commandOffset := NextOffset(offsetOfFree, alignment);
      countCommands := countCommands + 1;
      mem := Written(mem, metaOffset, Meta(commandOffset));
      offsetOfFree := commandOffset + size;
      mem := Written(mem, commandOffset, Object(command, size));
      regions, commands := regions + [r], commands + [command];
      return true;
    }

    /** The command with the given id, found through its metadata word. */
    method GetCommand(id: nat) returns (command: nat)
      requires valid && Shaped() && |regions| == |commands| == countCommands && id < countCommands
      ensures command == commands[id]
    {
      hide Stacked, Inside;
      assert Reachable(mem, totalBytes, id, regions[id], commands[id]);
      ModUnique(totalBytes - 4 * (id + 1), U32, 0, totalBytes - 4 * (id + 1));
      var meta := mem[GetMetadataOffset(id)];
      var found := mem[meta.offset];
      command := found.command;
    }

    /** Runs and destroys every command that has not run yet, in order. */
    method ExecuteAll()
      requires Valid()
      modifies this`commandsExecuted, this`executed, this`destroyed
      ensures Valid() && commandsExecuted == countCommands && executed == destroyed == commands
    {
      hide Stacked, Inside, AllReachable;
      while commandsExecuted < countCommands
        invariant Valid()
        decreases countCommands - commandsExecuted
      {
        var com := GetCommand(commandsExecuted);
        executed := executed + [com];
        destroyed := destroyed + [com];
        commandsExecuted := commandsExecuted + 1;
      }
    }

    /** Destroys every command that has not run; what is dropped is the rest of the commands, in order. */
    method CallDestructors() returns (ghost dropped: seq<nat>)
      requires Valid()
      modifies this`commandsExecuted, this`destroyed
      ensures commandsExecuted == countCommands && destroyed == commands
      ensures dropped == commands[old(commandsExecuted)..]
    {
      hide Stacked, Inside, AllReachable;
      dropped := [];
      ghost var start := commandsExecuted;
      while commandsExecuted < countCommands
        invariant start <= commandsExecuted <= countCommands && destroyed == commands[..commandsExecuted]
        invariant dropped == commands[start..commandsExecuted]
        decreases countCommands - commandsExecuted
      {
        var com := GetCommand(commandsExecuted);
        dropped := dropped + [com];
        destroyed := destroyed + [com];
        commandsExecuted := commandsExecuted + 1;
      }
    }

    /** Ends the life of the block: after it every command has been destroyed once, whether it ran or not. */
    method Reset() returns (ghost ran: seq<nat>, ghost gone: seq<nat>)
      requires Valid()
      modifies this
      ensures Valid() && !valid && commands == []
      ensures ran == old(executed) && gone == old(commands)
    {
      ran := executed;
      if valid {
        var _ := CallDestructors();
        gone := destroyed;
        valid := false;
        totalBytes, countCommands, commandsExecuted := 0, 0, 0;
      } else {
        gone := destroyed;
      }
      regions, commands, executed, destroyed := [], [], [], [];
    }
  }
}
