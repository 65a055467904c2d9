/**
 Shared frames (`ByteBufferReadable`): handles to reference-counted storage, which the last
 handle frees or recycles.  Handles are places that hold a storage number, 0 for none.
 */
module FrameSharing {

  datatype Storage = Storage(refCounter: nat, offset: nat, capacity: nat)

  /** The counter of every live storage is the number of handles that hold it. */
  ghost predicate Counted(handles: seq<nat>, storages: map<nat, Storage>) {
    && 0 !in storages
    && (forall b :: b in storages ==> storages[b].refCounter == multiset(handles)[b] > 0)
    && (forall i :: 0 <= i < |handles| && handles[i] != 0 ==> handles[i] in storages)
  }

  /** Every storage ever made is live or was released, and it was released once. */
  ghost predicate ReleasedOnce(storages: map<nat, Storage>, released: seq<nat>, next: nat) {
    && next > 0
    && (forall b: nat :: b in storages || b in released <==> 0 < b < next)
    && (forall b :: b in released ==> b !in storages)
    && (forall i, j :: 0 <= i < j < |released| ==> released[i] != released[j])
  }

  /** No operation on handles changes the size of a block. */
  ghost predicate Sized(storages: map<nat, Storage>, made: map<nat, nat>) {
    forall b :: b in storages ==> b in made && storages[b].offset + storages[b].capacity == made[b]
  }

  /** The storages with one handle more, or one less, on `b`; a storage without handles is gone. */
  function Counting(storages: map<nat, Storage>, b: nat, more: bool): (r: map<nat, Storage>)
    requires b in storages && storages[b].refCounter > 0
  {
    var n := if more then storages[b].refCounter + 1 else storages[b].refCounter - 1;
    if n == 0 then storages - {b} else storages[b := storages[b].(refCounter := n)]
  }

  /** How often a storage is held after one handle was set. */
  lemma SetCount(handles: seq<nat>, i: nat, x: nat, b: nat)
    requires i < |handles|
    ensures multiset(handles[i := x])[b] ==
            multiset(handles)[b] - (if handles[i] == b then 1 else 0) + (if x == b then 1 else 0)
  {
    assert multiset(handles[i := x]) == multiset(handles) - multiset{handles[i]} + multiset{x};
  }

  lemma HeldCount(handles: seq<nat>, b: nat)
    ensures b in handles <==> multiset(handles)[b] > 0
  {
  }

  lemma CountedAt(handles: seq<nat>, storages: map<nat, Storage>, i: nat)
    requires Counted(handles, storages) && i < |handles| && handles[i] != 0
    ensures handles[i] in storages && storages[handles[i]].refCounter == multiset(handles)[handles[i]] > 0
  {
  }

  /** Emptying a handle takes one count from its storage. */
  lemma DropCounted(handles: seq<nat>, storages: map<nat, Storage>, i: nat)
    requires Counted(handles, storages) && i < |handles| && handles[i] != 0
    ensures handles[i] in storages && storages[handles[i]].refCounter > 0
    ensures Counted(handles[i := 0], Counting(storages, handles[i], false))
    ensures handles[i] !in handles[i := 0] <==> storages[handles[i]].refCounter == 1
  {
    var after, b := handles[i := 0], handles[i];
    forall c
      ensures multiset(after)[c] == multiset(handles)[c] - (if b == c then 1 else 0) + (if 0 == c then 1 else 0)
    {
      SetCount(handles, i, 0, c);
    }
    HeldCount(after, b);
    forall j | 0 <= j < |after| && after[j] != 0
      ensures after[j] in Counting(storages, b, false)
    {
      HeldCount(after, after[j]);
    }
  }

  /** Setting an empty handle adds one count to its storage. */
  lemma ShareCounted(handles: seq<nat>, storages: map<nat, Storage>, d: nat, b: nat)
    requires Counted(handles, storages) && d < |handles| && handles[d] == 0 && b in storages
    ensures storages[b].refCounter > 0 && Counted(handles[d := b], Counting(storages, b, true))
  {
    var after := handles[d := b];
    forall c
      ensures multiset(after)[c] == multiset(handles)[c] - (if 0 == c then 1 else 0) + (if b == c then 1 else 0)
    {
      SetCount(handles, d, b, c);
    }
  }

  /** Moving a storage from one handle to an empty one changes no count. */
  lemma MoveCounted(handles: seq<nat>, storages: map<nat, Storage>, d: nat, s: nat)
    requires Counted(handles, storages) && d < |handles| && s < |handles| && d != s && handles[d] == 0
    ensures Counted(handles[d := handles[s]][s := 0], storages)
  {
    forall c ensures multiset(handles[d := handles[s]][s := 0])[c] == multiset(handles)[c] {
      SetCount(handles, d, handles[s], c);
      SetCount(handles[d := handles[s]], s, 0, c);
    }
  }

  lemma EmptyCounted(handles: seq<nat>, storages: map<nat, Storage>)
    requires Counted(handles, storages)
    ensures Counted(handles + [0], storages)
  {
    assert multiset(handles + [0]) == multiset(handles) + multiset{0};
  }

  lemma NewCounted(handles: seq<nat>, storages: map<nat, Storage>, b: nat, offset: nat, capacity: nat)
    requires Counted(handles, storages) && b != 0 && b !in storages
    ensures Counted(handles + [b], storages[b := Storage(1, offset, capacity)])
  {
    assert multiset(handles + [b]) == multiset(handles) + multiset{b};
    HeldCount(handles, b);
  }

  /** Every storage is released once, by the step that takes its last handle. */
  lemma ReleasedMore(storages: map<nat, Storage>, released: seq<nat>, next: nat, b: nat)
    requires ReleasedOnce(storages, released, next) && b in storages && storages[b].refCounter > 0
    ensures ReleasedOnce(Counting(storages, b, true), released, next)
    ensures var released' := if storages[b].refCounter == 1 then released + [b] else released;
            ReleasedOnce(Counting(storages, b, false), released', next)
  {
  }

  lemma SizedMore(storages: map<nat, Storage>, made: map<nat, nat>, b: nat, more: bool)
    requires Sized(storages, made) && b in storages && storages[b].refCounter > 0
    ensures Sized(Counting(storages, b, more), made)
  {
  }

  /** What a run of handle operations is judged by: who holds what, how many storages were made, which were released. */
  datatype FrameState = FrameState(handles: seq<nat>, next: nat, released: seq<nat>)

  /** A storage that lost a handle, if none of the handles hold it any more. */
  ghost function Lost(b: nat, handles: seq<nat>): (r: seq<nat>) {
    if b != 0 && b !in handles then [b] else []
  }

  class Frames {
    var handles: seq<nat>
    var storages: map<nat, Storage>
    var next: nat
    /** Storages freed or recycled, in order. */
    ghost var released: seq<nat>
    /** The block size every storage was made with. */
    ghost var made: map<nat, nat>

    ghost function State(): (r: FrameState)
      reads this
    {
      FrameState(handles, next, released)
    }

    ghost predicate Valid()
      reads this
    {
      Counted(handles, storages) && ReleasedOnce(storages, released, next) && Sized(storages, made)
    }

    constructor ()
      ensures Valid() && State() == FrameState([], 1, [])
    {
      handles, storages, next, released, made := [], map[], 1, [], map[];
    }

    /** From a writable buffer: storage with one handle; an empty buffer gives an empty handle. */
    method FromWritable(empty: bool, offset: nat, capacity: nat) returns (i: nat)
      requires Valid()
      modifies this
      ensures Valid() && i == |old(handles)| && released == old(released)
      ensures handles == old(handles) + [if empty then 0 else old(next)] && next == old(next) + if empty then 0 else 1
      ensures !empty ==> storages == old(storages)[old(next) := Storage(1, offset, capacity)]
      ensures !empty ==> made == old(made)[old(next) := offset + capacity]
    {
      if empty {
        hide Counted, ReleasedOnce, Sized;
        i := AddEmpty();
        return;
      }
      i := |handles|;
      assert next !in storages;
      NewCounted(handles, storages, next, offset, capacity);
      hide Counted;
      handles := handles + [next];
      storages := storages[next := Storage(1, offset, capacity)];
      made := made[next := offset + capacity];
      next := next + 1;
    }

    method AddEmpty() returns (i: nat)
      requires Valid()
      modifies this`handles
      ensures Valid() && i == |old(handles)| && handles == old(handles) + [0]
    {
      hide Counted, ReleasedOnce, Sized;
      EmptyCounted(handles, storages);
      i := |handles|;
      handles := handles + [0];
    }

    /** One handle less on a storage: the last one frees it.  The handle itself is emptied. */
    method Drop(i: nat)
      requires Valid() && i < |handles|
      modifies this
      ensures made == old(made)
      ensures Valid() && handles == old(handles)[i := 0] && next == old(next)
      ensures released == old(released) + Lost(old(handles)[i], handles)
      ensures storages.Keys == old(storages).Keys - if old(handles)[i] !in handles then {old(handles)[i]} else {}
    {
      hide Counted, ReleasedOnce, Sized;
      var b := handles[i];
      if b == 0 {
        assert handles[i := 0] == handles;
        return;
      }
      DropCounted(handles, storages, i);
      ReleasedMore(storages, released, next, b);
      SizedMore(storages, made, b, false);
      if storages[b].refCounter == 1 {
        released := released + [b];
      }
      storages := Counting(storages, b, false);
      handles := handles[i := 0];
    }

    /** Makes the empty handle `d` hold the storage of handle `s`, counting it. */
    method Share(d: nat, s: nat)
      requires Valid() && d < |handles| && s < |handles| && handles[d] == 0
      modifies this`handles, this`storages
      ensures Valid() && handles == old(handles)[d := old(handles)[s]] && storages.Keys == old(storages).Keys
    {
      hide Counted, ReleasedOnce, Sized;
      var b := handles[s];
      if b != 0 {
        CountedAt(handles, storages, s);
        ShareCounted(handles, storages, d, b);
        ReleasedMore(storages, released, next, b);
        SizedMore(storages, made, b, true);
        storages := Counting(storages, b, true);
      } else {
        assert handles[d := b] == handles;
      }
      handles := handles[d := b];
    }

    /** Moves the storage of handle `s` to the empty handle `d`. */
    method Move(d: nat, s: nat)
      requires Valid() && d < |handles| && s < |handles| && handles[d] == 0
      modifies this`handles
      ensures Valid() && handles == if d == s then old(handles) else old(handles)[d := old(handles)[s]][s := 0]
    {
      hide Counted, ReleasedOnce, Sized;
      var b := handles[s];
      if d != s {
        MoveCounted(handles, storages, d, s);
        handles := handles[d := b][s := 0];
      }
    }

    /** Putting another storage in place of an other one does not change whether `b` is held. */
    static lemma OtherwiseHeld(handles: seq<nat>, i: nat, taken: nat, b: nat)
      requires i < |handles| && handles[i] != b && taken != b
      ensures b in handles[i := taken] <==> b in handles
    {
      if b in handles {
        var j :| 0 <= j < |handles| && handles[j] == b;
        assert handles[i := taken][j] == b;
      }
    }

    method CopyConstruct(s: nat) returns (d: nat)
      requires Valid() && s < |handles|
      modifies this
      ensures made == old(made)
      ensures Valid() && d == |old(handles)| && released == old(released) && next == old(next)
      ensures handles == old(handles) + [old(handles)[s]]
    {
      hide Counted, ReleasedOnce, Sized;
      d := AddEmpty();
      Share(d, s);
    }

    method MoveConstruct(s: nat) returns (d: nat)
      requires Valid() && s < |handles|
      modifies this
      ensures made == old(made)
      ensures Valid() && d == |old(handles)| && released == old(released) && next == old(next)
      ensures handles == old(handles)[s := 0] + [old(handles)[s]]
    {
      hide Counted, ReleasedOnce, Sized;
      d := AddEmpty();
      Move(d, s);
    }

    method CopyAssign(d: nat, s: nat)
      requires Valid() && d < |handles| && s < |handles|
      modifies this
      ensures made == old(made)
      ensures Valid() && handles == old(handles)[d := old(handles)[s]] && next == old(next)
      ensures released == old(released) + Lost(old(handles)[d], handles)
    {
      hide Counted, ReleasedOnce;
      if handles[d] == handles[s] {
        return;
      }
      ghost var b, taken := handles[d], handles[s];
      Drop(d);
      if b != 0 {
        OtherwiseHeld(handles, d, taken, b);
      }
      Share(d, s);
    }

    /** Move-assignment leaves the source alone when both hold the same storage. */
    method MoveAssign(d: nat, s: nat)
      requires Valid() && d < |handles| && s < |handles|
      modifies this
      ensures made == old(made)
      ensures Valid() && next == old(next)
      ensures released == old(released) + Lost(old(handles)[d], handles)
      ensures handles ==
                if old(handles)[d] == old(handles)[s] then old(handles) else old(handles)[d := old(handles)[s]][s := 0]
    {
      hide Counted, ReleasedOnce;
      if handles[d] == handles[s] {
        return;
      }
      ghost var b, taken := handles[d], handles[s];
      Drop(d);
      if b != 0 {
        OtherwiseHeld(handles, d, taken, b);
        OtherwiseHeld(handles[d := taken], s, 0, b);
      }
      Move(d, s);
    }

    /** Takes the storage back for writing: exactly for the sole owner of a storage. */
    method TryRecycle(i: nat) returns (blockSize: nat, ok: bool)
      requires Valid() && i < |handles|
      modifies this
      ensures made == old(made)
      ensures Valid() && next == old(next)
      ensures ok <==> old(handles)[i] != 0 && multiset(old(handles))[old(handles)[i]] == 1
      ensures !ok ==>
                handles == old(handles) && storages == old(storages) && released == old(released) && blockSize == 0
      ensures ok ==> handles == old(handles)[i := 0] && released == old(released) + [old(handles)[i]]
      ensures ok ==> old(handles)[i] in made && blockSize == made[old(handles)[i]]
    {
      var b := handles[i];
      blockSize, ok := 0, false;
      if b != 0 {
        CountedAt(handles, storages, i);
        assert b in made && storages[b].offset + storages[b].capacity == made[b];
        hide Counted, ReleasedOnce, Sized;
        if storages[b].refCounter == 1 {
          blockSize := storages[b].offset + storages[b].capacity;
          DropCounted(handles, storages, i);
          ReleasedMore(storages, released, next, b);
          SizedMore(storages, made, b, false);
          handles := handles[i := 0];
          storages := storages - {b};
          released := released + [b];
          ok := true;
        }
      }
    }
  }

  datatype Op =
    | New(empty: bool, offset: nat, capacity: nat)
    | Copy(source: nat)
    | MoveNew(source: nat)
    | Assign(target: nat, source: nat)
    | MoveTo(target: nat, source: nat)
    | Destroy(handle: nat)
    | Recycle(handle: nat)

  /** What handle operation `op` makes of the handles. */
  ghost function HandlesAfter(handles: seq<nat>, next: nat, op: Op): (r: seq<nat>) {
    match op
    case New(empty, _, _) => handles + [if empty then 0 else next]
    case Copy(s) => if s < |handles| then handles + [handles[s]] else handles
    case MoveNew(s) => if s < |handles| then handles[s := 0] + [handles[s]] else handles
    case Assign(d, s) => if d < |handles| && s < |handles| then handles[d := handles[s]] else handles
    case MoveTo(d, s) =>
      if d < |handles| && s < |handles| && handles[d] != handles[s] then handles[d := handles[s]][s := 0] else handles
    case Destroy(i) => if i < |handles| then handles[i := 0] else handles
    case Recycle(i) => if i < |handles| && multiset(handles)[handles[i]] == 1 then handles[i := 0] else handles
  }

  /** The storages that were held before and are not held after. */
  ghost function Gone(before: seq<nat>, after: seq<nat>): (r: seq<nat>) {
    if before == [] then [] else Lost(before[0], after) + Gone(before[1..], after)
  }

  /** The reference: handles change as said, and a storage is released by the step that takes its last handle. */
  ghost function Apply(s: FrameState, op: Op): (r: FrameState) {
    var handles := HandlesAfter(s.handles, s.next, op);
    FrameState(handles, s.next + if op.New? && !op.empty then 1 else 0, s.released + Gone(s.handles, handles))
  }

  ghost function ApplyAll(s: FrameState, ops: seq<Op>): (r: FrameState) {
    if ops == [] then s else Apply(ApplyAll(s, ops[..|ops| - 1]), ops[|ops| - 1])
  }

  /** When all handles but the one at `i` keep their storage held, only its storage can be gone. */
  lemma {:induction false} GoneAt(before: seq<nat>, after: seq<nat>, i: nat)
    requires i < |before| && forall j :: 0 <= j < |before| && j != i ==> before[j] == 0 || before[j] in after
    ensures Gone(before, after) == Lost(before[i], after)
  {
    assert i > 0 ==> Lost(before[0], after) == [];
    hide Lost;
    if i == 0 {
      GoneNone(before[1..], after);
    } else {
      GoneAt(before[1..], after, i - 1);
    }
  }

  lemma {:induction false} GoneNone(before: seq<nat>, after: seq<nat>)
    requires forall j :: 0 <= j < |before| ==> before[j] == 0 || before[j] in after
    ensures Gone(before, after) == []
  {
    if before != [] {
      GoneNone(before[1..], after);
    }
  }

  /** Nothing is taken back from the list of released storages. */
  lemma {:induction false} ReleasedGrows(s: FrameState, ops: seq<Op>)
    ensures s.released <= ApplyAll(s, ops).released && s.next <= ApplyAll(s, ops).next
  {
    if ops != [] {
      ReleasedGrows(s, ops[..|ops| - 1]);
    }
  }

  /**
   Every interleaving of handle operations agrees with the reference, so each storage is released by
   the very step that takes its last handle; none is released twice, and none is leaked.
   */
  method Run(f: Frames, ops: seq<Op>)
    requires f.Valid()
    modifies f
    ensures f.Valid() && f.State() == ApplyAll(old(f.State()), ops)
    ensures old(f.released) <= f.released && old(f.next) <= f.next
    ensures forall i, j :: 0 <= i < j < |f.released| ==> f.released[i] != f.released[j]
    ensures forall b: nat :: 0 < b < f.next ==> (b in f.released <==> b !in f.handles)
  {
    ghost var start := f.State();
    for k := 0 to |ops|
      invariant f.Valid() && f.State() == ApplyAll(start, ops[..k])
    {
      assert ops[..k + 1][..k] == ops[..k];
      Step(f, ops[k]);
    }
    assert ops[..|ops|] == ops;
    ReleasedGrows(start, ops);
  }

  method Step(f: Frames, op: Op)
    requires f.Valid()
    modifies f
    ensures f.Valid() && f.State() == Apply(old(f.State()), op)
  {
    hide Frames.Valid, Gone, Lost;
    ghost var before := f.handles;
    GoneNothing(before);
    match op
    case New(empty, offset, capacity) =>
      var _ := f.FromWritable(empty, offset, capacity);
      GoneAppended(before, if empty then 0 else old(f.next));
    case Copy(s) =>
      if s < |f.handles| {
        var _ := f.CopyConstruct(s);
        GoneAppended(before, before[s]);
      }
    case MoveNew(s) =>
      if s < |f.handles| {
        var _ := f.MoveConstruct(s);
        GoneMovedOn(before, s);
      }
    case Assign(d, s) =>
      if d < |f.handles| && s < |f.handles| {
        f.CopyAssign(d, s);
        GoneSet(before, d, before[s]);
      }
    case MoveTo(d, s) =>
      if d < |f.handles| && s < |f.handles| {
        f.MoveAssign(d, s);
        GoneMoved(before, d, s);
      }
    case Destroy(i) =>
      if i < |f.handles| {
        f.Drop(i);
        GoneSet(before, i, 0);
      }
    case Recycle(i) =>
      if i < |f.handles| {
        var _, ok := f.TryRecycle(i);
        GoneRecycled(before, i);
      }
  }

  lemma GoneNothing(handles: seq<nat>)
    ensures Gone(handles, handles) == []
  {
    GoneNone(handles, handles);
  }

  lemma GoneAppended(handles: seq<nat>, x: nat)
    ensures Gone(handles, handles + [x]) == []
  {
    hide Gone;
    forall j | 0 <= j < |handles|
      ensures handles[j] in handles + [x]
    {
      assert (handles + [x])[j] == handles[j];
    }
    GoneNone(handles, handles + [x]);
  }

  lemma GoneMovedOn(handles: seq<nat>, s: nat)
    requires s < |handles|
    ensures Gone(handles, handles[s := 0] + [handles[s]]) == []
  {
    hide Gone;
    var after := handles[s := 0] + [handles[s]];
    forall j | 0 <= j < |handles|
      ensures handles[j] in after
    {
      assert after[if j == s then |handles| else j] == handles[j];
    }
    GoneNone(handles, after);
  }

  lemma GoneSet(handles: seq<nat>, d: nat, x: nat)
    requires d < |handles|
    ensures Gone(handles, handles[d := x]) == Lost(handles[d], handles[d := x])
  {
    hide Gone;
    var after := handles[d := x];
    forall j | 0 <= j < |handles| && j != d
      ensures handles[j] in after
    {
      assert after[j] == handles[j];
    }
    GoneAt(handles, after, d);
  }

  lemma GoneMoved(handles: seq<nat>, d: nat, s: nat)
    requires d < |handles| && s < |handles|
    ensures handles[d] != handles[s] ==>
              Gone(handles, handles[d := handles[s]][s := 0]) == Lost(handles[d], handles[d := handles[s]][s := 0])
    ensures handles[d] == handles[s] ==> Lost(handles[d], handles) == []
  {
    hide Gone;
    if handles[d] != handles[s] {
      var after := handles[d := handles[s]][s := 0];
      forall j | 0 <= j < |handles| && j != d
        ensures handles[j] in after
      {
        assert after[if j == s then d else j] == handles[j];
      }
      GoneAt(handles, after, d);
    }
  }

  /** Recycling takes the one handle that holds a storage. */
  lemma GoneRecycled(handles: seq<nat>, i: nat)
    requires i < |handles|
    ensures multiset(handles)[handles[i]] == 1 && handles[i] != 0 ==> Gone(handles, handles[i := 0]) == [handles[i]]
    ensures handles[i] == 0 ==> handles[i := 0] == handles
  {
    hide Gone;
    GoneSet(handles, i, 0);
    SetCount(handles, i, 0, handles[i]);
    HeldCount(handles[i := 0], handles[i]);
  }
}
