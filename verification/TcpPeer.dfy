/**
 The sending half of a TCP peer (`Peer.cpp`, `PeerUStcp.cpp`): two frame queues, a bounded staging
 buffer and a socket that accepts any part of a write.
 */
module TcpPeers {
  import opened Bits
  import opened FrameStream

  /** A queued frame and how many of its bytes have left the queue. */
  datatype SendFrame = SendFrame(data: seq<byte>, bytesSent: nat) {
    ghost predicate Valid() {
      bytesSent <= |data|
    }

    ghost function Unsent(): (r: seq<byte>)
      requires Valid()
    {
      data[bytesSent..]
    }
  }

  ghost predicate AllFrames(q: seq<SendFrame>) {
    forall i :: 0 <= i < |q| ==> q[i].Valid()
  }

  /** The bytes of a queue that still have to go out. */
  ghost function Tails(q: seq<SendFrame>): (r: seq<byte>)
    requires AllFrames(q)
  {
    if q == [] then [] else q[0].Unsent() + Tails(q[1..])
  }

  lemma {:induction false} TailsAppend(q: seq<SendFrame>, f: SendFrame)
    requires AllFrames(q) && f.Valid()
    ensures AllFrames(q + [f]) && Tails(q + [f]) == Tails(q) + f.Unsent()
  {
    if q == [] {
      assert Tails([f]) == f.Unsent() + Tails([]);
    } else {
      TailsAppend(q[1..], f);
      assert (q + [f])[1..] == q[1..] + [f];
    }
  }

  lemma {:induction false} ConcatAppend(frames: seq<seq<byte>>, f: seq<byte>)
    ensures Concat(frames + [f]) == Concat(frames) + f
  {
    if frames == [] {
      assert Concat([f]) == f + Concat([]);
    } else {
      ConcatAppend(frames[1..], f);
      assert (frames + [f])[1..] == frames[1..] + [f];
    }
  }

  /** Only the frame at `at` made progress. */
  ghost predicate Progressed(before: seq<SendFrame>, after: seq<SendFrame>, at: nat) {
    && |after| == |before| && at < |after|
    && after == before[at := after[at]]
    && after[at].data == before[at].data && before[at].bytesSent <= after[at].bytesSent
  }

  /**
   One write to the socket: the bytes offered, whether more were announced, whether they came from the
   staging buffer and how much room it had left, the frames queued, and how many bytes were taken.
   */
  datatype Write = Write(offered: seq<byte>, more: bool, staged: bool, room: int, backlog: int, taken: int) {
    ghost predicate Short() {
      taken < |offered|
    }
  }

  /** Writes were added, all taken whole if `ok`, and otherwise up to a last one that was not. */
  ghost predicate Tried(before: seq<Write>, after: seq<Write>, ok: bool) {
    && before <= after
    && (ok ==> forall k :: |before| <= k < |after| ==> !after[k].Short())
    && (!ok ==> |before| < |after| && after[|after| - 1].Short())
    && (!ok ==> forall k :: |before| <= k < |after| - 1 ==> !after[k].Short())
  }

  /**
   Not a small write: while several frames are queued, more is announced, and for a frame written
   directly only then; and what is written with that announcement is a staging buffer that is full, or
   a frame too long to be staged.
   */
  ghost predicate Sizable(w: Write) {
    && (w.backlog > 1 ==> w.more) && (!w.staged && w.more ==> w.backlog > 1)
    && (w.more ==> if w.staged then w.room == 0 else |w.offered| > DIRECT_WRITE)
  }

  /** No small writes. */
  ghost predicate Packed(before: seq<Write>, after: seq<Write>) {
    forall k :: |before| <= k < |after| ==> Sizable(after[k])
  }

  lemma TriedMore(a: seq<Write>, b: seq<Write>, c: seq<Write>, ok: bool)
    requires Tried(a, b, true) && Tried(b, c, ok)
    ensures Tried(a, c, ok) && (Packed(a, b) && Packed(b, c) ==> Packed(a, c))
  {
  }

  /** One write was made, and taken whole exactly if `ok`. */
  ghost predicate OneWrite(before: seq<Write>, after: seq<Write>, ok: bool) {
    |after| == |before| + 1 && before <= after && (ok <==> !after[|before|].Short())
  }

  lemma OneTried(a: seq<Write>, b: seq<Write>, ok: bool)
    requires OneWrite(a, b, ok)
    ensures Tried(a, b, ok)
    ensures Sizable(b[|a|]) ==> Packed(a, b)
  {
  }

  lemma TriedNothing(a: seq<Write>)
    ensures Tried(a, a, true) && Packed(a, a)
  {
  }

  /**
   The first write that sending the unsent part of a frame makes, if any: directly when nothing is
   staged and the part is long or the last; else from the staging buffer, once it is full or the part
   is the last.
   */
  ghost function FirstOffer(capacity: nat, used: nat, staged: seq<byte>, unsent: seq<byte>, hasMore: bool)
    : (r: Option<seq<byte>>)
    requires used <= capacity
  {
    if unsent == [] then None
    else if staged == [] && (|unsent| > DIRECT_WRITE || !hasMore) then Some(unsent)
    else if used + |unsent| < capacity && hasMore then None
    else if used + |unsent| <= capacity then Some(staged + unsent)
    else Some(staged + unsent[..capacity - used])
  }

  const FLUSH_BATCH: nat := 384
  const DIRECT_WRITE: nat := 1200

  class TcpPeer {
    var open: bool
    var ready: bool
    var disconnecting: bool
    var closed: bool
    var globalQueue: seq<SendFrame>
    var localQueue: seq<SendFrame>
    var localQueueOffset: nat
    var writeBuffer: seq<byte>
    var writeBufferOffset: nat
    const capacity: nat
    /** Whether the socket takes every write whole. */
    const eager: bool

    /** The bytes the socket has taken so far. */
    var wire: seq<byte>
    /** The frames `Send` has accepted so far. */
    ghost var accepted: seq<seq<byte>>
    /** Flushes asked for with nothing to flush. */
    ghost var idleFlushes: nat
    /** Direct writes made while older bytes were still staged. */
    ghost var overtakes: nat
    /** The writes to the socket, in order. */
    ghost var writes: seq<Write>

    ghost predicate Shaped()
      reads this
    {
      && 0 < capacity < 0x8000_0000
      && localQueueOffset <= |localQueue|
      && writeBufferOffset <= |writeBuffer| <= capacity
      && (writeBufferOffset == |writeBuffer| ==> writeBuffer == [])
      && AllFrames(localQueue[localQueueOffset..]) && AllFrames(globalQueue)
    }

    /** Everything accepted that has not reached the socket, in order. */
    ghost function Pending(): (r: seq<byte>)
      reads this
      requires Shaped()
    {
      writeBuffer[writeBufferOffset..] + Tails(localQueue[localQueueOffset..]) + Tails(globalQueue)
    }

    /** No byte is lost, repeated or reordered. */
    ghost predicate Valid()
      reads this
    {
      Shaped() && wire + Pending() == Concat(accepted)
    }

    constructor (capacity: nat, eager: bool)
      requires 0 < capacity < 0x8000_0000
      ensures Valid() && accepted == [] && wire == [] && this.capacity == capacity && this.eager == eager
      ensures idleFlushes == 0 && overtakes == 0 && writes == []
      ensures !HasQueuedSends() && !HasBufferedSends()
      ensures open && !ready && !disconnecting && !closed && Backlog() == 0
    {
      open, ready, disconnecting, closed := true, false, false, false;
      globalQueue, localQueue, localQueueOffset := [], [], 0;
      writeBuffer, writeBufferOffset := [], 0;
      this.capacity, this.eager := capacity, eager;
      wire, accepted, idleFlushes, overtakes, writes := [], [], 0, 0, [];
    }

    predicate HasQueuedSends()
      reads this
    {
      localQueueOffset != |localQueue| || |globalQueue| != 0
    }

    predicate HasBufferedSends()
      reads this
    {
      writeBufferOffset < |writeBuffer|
    }

    /** How many frames wait in the two queues. */
    function Backlog(): (r: int)
      reads this`localQueue, this`localQueueOffset, this`globalQueue
    {
      |localQueue| - localQueueOffset + |globalQueue|
    }

    /** How a write made now is logged. */
    ghost function Attempt(data: seq<byte>, hasMore: bool, staged: bool, b: int): (w: Write)
      reads this`writeBuffer, this`localQueue, this`localQueueOffset, this`globalQueue
    {
      Write(data, hasMore, staged, capacity - |writeBuffer|, Backlog(), b)
    }

    /** `us_socket_write`: takes any prefix of the data, or nothing, or fails. */
    method SocketWrite(data: seq<byte>, hasMore: bool, ghost staged: bool) returns (b: int)
      modifies this`wire, this`writes
      ensures b <= |data| && writes == old(writes) + [Attempt(data, hasMore, staged, b)]
      ensures eager ==> b == |data|
      ensures wire == old(wire) + if b > 0 then data[..b] else []
    {
      if eager {
        b := |data|;
      } else {
        b :| b <= |data|;
      }
      writes := writes + [Attempt(data, hasMore, staged, b)];
      if b > 0 {
        wire := wire + data[..b];
      }
    }

    /** Accepts a frame unless the peer is going away. */
    method Send(frame: seq<byte>)
      requires Valid()
      modifies this`globalQueue, this`accepted
      ensures Valid()
      ensures disconnecting ==> accepted == old(accepted) && globalQueue == old(globalQueue)
      ensures !disconnecting ==>
                accepted == old(accepted) + [frame] && HasQueuedSends() && Backlog() == old(Backlog()) + 1
    {
      if disconnecting {
        return;
      }
      TailsAppend(globalQueue, SendFrame(frame, 0));
      ConcatAppend(accepted, frame);
      globalQueue := globalQueue + [SendFrame(frame, 0)];
      accepted := accepted + [frame];
    }

    /** The bytes in the staging buffer that the socket has not taken. */
    ghost function Staged(): (r: seq<byte>)
      reads this`writeBuffer, this`writeBufferOffset
    {
      if writeBufferOffset <= |writeBuffer| then writeBuffer[writeBufferOffset..] else []
    }

    /** What a write left behind. */
    static ghost function Left(w: Write): (r: seq<byte>) {
      if 0 < w.taken <= |w.offered| then w.offered[w.taken..] else w.offered
    }

    /** Staged and unsent bytes of the frame at the front of the local queue, behind what the socket took. */
    ghost function Front(): (r: seq<byte>)
      reads this
      requires Shaped() && localQueueOffset < |localQueue|
    {
      wire + writeBuffer[writeBufferOffset..] + localQueue[localQueueOffset].Unsent()
    }

    /** Offers the staged bytes to the socket; true exactly when there were some and none is left. */
    method FlushBufferedSends(hasMore: bool) returns (r: bool)
      requires Shaped()
      modifies this`writeBuffer, this`writeBufferOffset, this`wire, this`idleFlushes, this`writes
      ensures old(wire) <= wire
      ensures Shaped()
      ensures !old(HasBufferedSends()) ==> writes == old(writes)
      ensures old(HasBufferedSends()) ==> OneWrite(old(writes), writes, r)
      ensures old(HasBufferedSends()) ==>
                var w := writes[|old(writes)|];
                w == old(Attempt(Staged(), hasMore, true, w.taken)) && Staged() == Left(w)
      ensures wire + writeBuffer[writeBufferOffset..] == old(wire + writeBuffer[writeBufferOffset..])
      ensures r <==> old(HasBufferedSends()) && !HasBufferedSends()
      ensures !old(HasBufferedSends()) ==> writeBuffer == []
      ensures eager ==> writeBuffer == []
      ensures idleFlushes == old(idleFlushes) + if old(HasBufferedSends()) then 0 else 1
    {
      hide AllFrames, Left;
      r := false;
      var bytesToSend := |writeBuffer| - writeBufferOffset;
      if bytesToSend > 0 {
        r := WriteStaged(hasMore);
      } else {
        idleFlushes := idleFlushes + 1;
      }
    }

    /** The socket took `b` of the bytes from `at` on. */
    static lemma TakenFrom(wire: seq<byte>, buffer: seq<byte>, at: nat, b: nat)
      requires at + b <= |buffer|
      ensures buffer[at..][b..] == buffer[at + b..]
      ensures wire + buffer[at..][..b] + buffer[at + b..] == wire + buffer[at..]
      ensures at + b == |buffer| ==> buffer[at + b..] == []
    {
      assert buffer[at..] == buffer[at..][..b] + buffer[at + b..];
    }

    method WriteStaged(hasMore: bool) returns (r: bool)
      requires Shaped() && HasBufferedSends()
      modifies this`writeBuffer, this`writeBufferOffset, this`wire, this`writes
      ensures Shaped() && old(wire) <= wire && OneWrite(old(writes), writes, r)
      ensures var w := writes[|old(writes)|];
              w == old(Attempt(Staged(), hasMore, true, w.taken)) && Staged() == Left(w)
      ensures wire + writeBuffer[writeBufferOffset..] == old(wire + writeBuffer[writeBufferOffset..])
      ensures r == !HasBufferedSends() && (eager ==> writeBuffer == [])
    {
      hide AllFrames;
      r := false;
      ghost var staged := Staged();
      var b := SocketWrite(writeBuffer[writeBufferOffset..], hasMore, true);
      if b < 0 {
      } else if b > 0 {
        TakenFrom(old(wire), writeBuffer, writeBufferOffset, b);
        writeBufferOffset := writeBufferOffset + b;
        if |writeBuffer| == writeBufferOffset {
          writeBuffer := [];
          writeBufferOffset := 0;
          r := true;
        }
      }
    }

    /** Moves the next `n` unsent bytes of the current frame into the staging buffer. */
    method Stage(n: nat)
      requires Shaped() && localQueueOffset < |localQueue|
      requires 0 < n <= |localQueue[localQueueOffset].Unsent()| && |writeBuffer| + n <= capacity
      modifies this`localQueue, this`writeBuffer
      ensures Progressed(old(localQueue), localQueue, localQueueOffset)
      ensures localQueue[localQueueOffset].bytesSent == old(localQueue)[localQueueOffset].bytesSent + n
      ensures Shaped() && HasBufferedSends() && Front() == old(Front())
      ensures |writeBuffer| == old(|writeBuffer|) + n
      ensures writeBufferOffset <= |writeBuffer| && |localQueue| == old(|localQueue|)
      ensures Staged() == old(Staged() + localQueue[localQueueOffset].Unsent()[..n])
    {
      var f := localQueue[localQueueOffset];
      var piece := f.data[f.bytesSent..f.bytesSent + n];
      assert f.Unsent() == piece + f.data[f.bytesSent + n..];
      assert (writeBuffer + piece)[writeBufferOffset..] == writeBuffer[writeBufferOffset..] + piece;
      writeBuffer := writeBuffer + piece;
      Advance(n);
    }

    method Advance(n: nat)
      requires localQueueOffset < |localQueue| && AllFrames(localQueue[localQueueOffset..])
      requires n <= |localQueue[localQueueOffset].data| - localQueue[localQueueOffset].bytesSent
      modifies this`localQueue
      ensures Progressed(old(localQueue), localQueue, localQueueOffset) && AllFrames(localQueue[localQueueOffset..])
      ensures localQueue[localQueueOffset].bytesSent == old(localQueue)[localQueueOffset].bytesSent + n
    {
      var f := localQueue[localQueueOffset];
      localQueue := localQueue[localQueueOffset := f.(bytesSent := f.bytesSent + n)];
      assert localQueue[localQueueOffset..] ==
               old(localQueue[localQueueOffset..])[0 := f.(bytesSent := f.bytesSent + n)];
    }

    /** The first write for the current frame, once the staging buffer has room. */
    ghost function NextOffer(hasMore: bool): (r: Option<seq<byte>>)
      reads this
      requires Shaped() && localQueueOffset < |localQueue|
    {
      FirstOffer(capacity, |writeBuffer|, Staged(), localQueue[localQueueOffset].Unsent(), hasMore)
    }

    /** The first write is the given one, if any; without one the frame is gone without a write. */
    static ghost predicate Offered(before: seq<Write>, after: seq<Write>, r: bool, offer: Option<seq<byte>>) {
      if offer.None? then r && after == before else |after| > |before| && after[|before|].offered == offer.value
    }

    /** Sends what it can of the current frame; true only when all of it has left the queue. */
    method InternalSend(hasMore: bool) returns (r: bool)
      requires Shaped() && localQueueOffset < |localQueue|
      modifies this`localQueue, this`writeBuffer, this`writeBufferOffset, this`wire, this`idleFlushes, this`overtakes,
               this`writes
      ensures old(wire) <= wire
      ensures Progressed(old(localQueue), localQueue, localQueueOffset)
      ensures Shaped() && Front() == old(Front())
      ensures r ==> localQueue[localQueueOffset].Unsent() == []
      ensures eager && open ==> r
      ensures !r && open ==> HasBufferedSends() || localQueue[localQueueOffset].Unsent() != []
      ensures !open ==> !r && writes == old(writes)
      ensures open ==> Tried(old(writes), writes, r)
      ensures r && !hasMore && old(localQueue[localQueueOffset].Unsent()) != [] ==> Staged() == []
      ensures hasMore == (old(Backlog()) > 1) ==> Packed(old(writes), writes)
      ensures open && old(|writeBuffer|) == capacity ==>
                |writes| > |old(writes)| && writes[|old(writes)|].offered == old(Staged())
      ensures open && old(|writeBuffer|) < capacity ==> Offered(old(writes), writes, r, old(NextOffer(hasMore)))
      ensures idleFlushes == old(idleFlushes) && overtakes == old(overtakes)
      decreases |localQueue[localQueueOffset].Unsent()|, 2
    {
      hide AllFrames, Tried, Packed;
      TriedNothing(writes);
      if !open {
        return false;
      }
      ghost var first := writes;
      if |writeBuffer| == capacity {
        var b := FlushBufferedSends(true);
        OneTried(first, writes, b);
        if !b {
          return false;
        }
        first := writes;
      }
      r := SendUnsent(hasMore);
      TriedMore(old(writes), first, writes, r);
      if first != old(writes) {
        Extends(old(writes), first, writes, r);
      }
    }

    /** The body of `InternalSend` once the staging buffer has room. */
    method SendUnsent(hasMore: bool) returns (r: bool)
      requires Shaped() && open && localQueueOffset < |localQueue| && |writeBuffer| < capacity
      modifies this`localQueue, this`writeBuffer, this`writeBufferOffset, this`wire, this`idleFlushes, this`overtakes,
               this`writes
      ensures old(wire) <= wire
      ensures Progressed(old(localQueue), localQueue, localQueueOffset)
      ensures Shaped() && Front() == old(Front())
      ensures r ==> localQueue[localQueueOffset].Unsent() == []
      ensures eager ==> r
      ensures !r ==> HasBufferedSends() || localQueue[localQueueOffset].Unsent() != []
      ensures r && !hasMore && old(localQueue[localQueueOffset].Unsent()) != [] ==> Staged() == []
      ensures Tried(old(writes), writes, r) && Offered(old(writes), writes, r, old(NextOffer(hasMore)))
      ensures hasMore == (old(Backlog()) > 1) ==> Packed(old(writes), writes)
      ensures idleFlushes == old(idleFlushes) && overtakes == old(overtakes)
      decreases |localQueue[localQueueOffset].Unsent()|, 1
    {
      FrontValid();
      hide AllFrames, Tried, Packed, Progressed, Front;
      var f := localQueue[localQueueOffset];
      if f.bytesSent < |f.data| {
        var bytesToWrite := |f.data| - f.bytesSent;
        if |writeBuffer| == writeBufferOffset && (bytesToWrite > DIRECT_WRITE || !hasMore) {
          r := WriteThrough(hasMore);
          OneTried(old(writes), writes, r);
        } else if |writeBuffer| + bytesToWrite <= capacity {
          r := SendStaged(bytesToWrite, hasMore);
        } else {
          r := SendInPieces(hasMore);
        }
      } else {
        SameFront(localQueue, localQueueOffset);
        TriedNothing(writes);
        r := true;
      }
    }

    lemma FrontValid()
      requires Shaped() && localQueueOffset < |localQueue|
      ensures localQueue[localQueueOffset].Valid()
    {
      assert localQueue[localQueueOffset] == localQueue[localQueueOffset..][0];
    }

    /** The rest of the frame fits the staging buffer, which is offered if it is full or the frame is the last. */
    method SendStaged(n: nat, hasMore: bool) returns (r: bool)
      requires Shaped() && localQueueOffset < |localQueue| && localQueue[localQueueOffset].Valid()
      requires 0 < n == |localQueue[localQueueOffset].Unsent()| && |writeBuffer| + n <= capacity
      requires !(Staged() == [] && (n > DIRECT_WRITE || !hasMore))
      modifies this`localQueue, this`writeBuffer, this`writeBufferOffset, this`wire, this`idleFlushes, this`writes
      ensures old(wire) <= wire && idleFlushes == old(idleFlushes)
      ensures Progressed(old(localQueue), localQueue, localQueueOffset)
      ensures Shaped() && Front() == old(Front()) && localQueue[localQueueOffset].Unsent() == []
      ensures (eager ==> r) && (!r ==> HasBufferedSends()) && (r && !hasMore ==> Staged() == [])
      ensures Tried(old(writes), writes, r) && Offered(old(writes), writes, r, old(NextOffer(hasMore)))
      ensures hasMore == (old(Backlog()) > 1) ==> Packed(old(writes), writes)
    {
      ghost var unsent := localQueue[localQueueOffset].Unsent();
      assert unsent[..n] == unsent;
      hide AllFrames, Tried, Packed, Front;
      if !hasMore || |writeBuffer| + n == capacity {
        r := StageAndFlush(n, hasMore);
        OneTried(old(writes), writes, r);
      } else {
        TriedNothing(writes);
        Stage(n);
        r := true;
      }
    }

    /** The rest of the frame does not fit: the staging buffer is filled up and offered, and the rest is tried again. */
    method SendInPieces(hasMore: bool) returns (r: bool)
      requires Shaped() && open && localQueueOffset < |localQueue| && |writeBuffer| < capacity
      requires localQueue[localQueueOffset].Valid()
      requires |writeBuffer| + |localQueue[localQueueOffset].Unsent()| > capacity
      requires !(Staged() == [] && (|localQueue[localQueueOffset].Unsent()| > DIRECT_WRITE || !hasMore))
      modifies this`localQueue, this`writeBuffer, this`writeBufferOffset, this`wire, this`idleFlushes, this`overtakes,
               this`writes
      ensures old(wire) <= wire
      ensures Progressed(old(localQueue), localQueue, localQueueOffset)
      ensures Shaped() && Front() == old(Front())
      ensures r ==> localQueue[localQueueOffset].Unsent() == []
      ensures eager ==> r
      ensures !r ==> HasBufferedSends() || localQueue[localQueueOffset].Unsent() != []
      ensures r && !hasMore && old(localQueue[localQueueOffset].Unsent()) != [] ==> Staged() == []
      ensures Tried(old(writes), writes, r) && Offered(old(writes), writes, r, old(NextOffer(hasMore)))
      ensures hasMore == (old(Backlog()) > 1) ==> Packed(old(writes), writes)
      ensures idleFlushes == old(idleFlushes) && overtakes == old(overtakes)
      decreases |localQueue[localQueueOffset].Unsent()|, 0
    {
      hide AllFrames, Tried, Packed, Front, FirstOffer;
      PiecesOffer(hasMore);
      var canWriteMore := StageAndFlush(capacity - |writeBuffer|, true);
      OneTried(old(writes), writes, canWriteMore);
      if !canWriteMore {
        r := false;
      } else {
        ghost var first := writes;
        r := InternalSend(hasMore);
        TriedMore(old(writes), first, writes, r);
        Extends(old(writes), first, writes, r);
      }
    }

    lemma PiecesOffer(hasMore: bool)
      requires Shaped() && localQueueOffset < |localQueue| && localQueue[localQueueOffset].Valid()
      requires |writeBuffer| + |localQueue[localQueueOffset].Unsent()| > capacity
      requires !(Staged() == [] && (|localQueue[localQueueOffset].Unsent()| > DIRECT_WRITE || !hasMore))
      ensures NextOffer(hasMore) == Some(Staged() + localQueue[localQueueOffset].Unsent()[..capacity - |writeBuffer|])
    {
    }

    static lemma Extends(a: seq<Write>, b: seq<Write>, c: seq<Write>, ok: bool)
      requires Tried(b, c, ok) && a < b
      ensures |c| > |a| && c[|a|] == b[|a|]
    {
    }

    /** Moves the next `n` unsent bytes into the staging buffer and offers what is staged then. */
    method StageAndFlush(n: nat, hasMore: bool) returns (r: bool)
      requires Shaped() && localQueueOffset < |localQueue| && localQueue[localQueueOffset].Valid()
      requires 0 < n <= |localQueue[localQueueOffset].Unsent()| && |writeBuffer| + n <= capacity
      modifies this`localQueue, this`writeBuffer, this`writeBufferOffset, this`wire, this`idleFlushes, this`writes
      ensures old(wire) <= wire && idleFlushes == old(idleFlushes)
      ensures Progressed(old(localQueue), localQueue, localQueueOffset)
      ensures localQueue[localQueueOffset].bytesSent == old(localQueue)[localQueueOffset].bytesSent + n
      ensures Shaped() && Front() == old(Front())
      ensures (if r then writeBuffer == [] else HasBufferedSends()) && (eager ==> r)
      ensures OneWrite(old(writes), writes, r) && Tried(old(writes), writes, r)
      ensures var w := writes[|old(writes)|];
              && w.offered == old(Staged() + localQueue[localQueueOffset].Unsent()[..n]) && w.more == hasMore
              && w.staged
              && w.room == capacity - old(|writeBuffer|) - n && w.backlog == old(Backlog())
    {
      hide AllFrames, Tried;
      Stage(n);
      r := FlushBufferedSends(hasMore);
      OneTried(old(writes), writes, r);
    }

    static lemma SameFront(q: seq<SendFrame>, at: nat)
      requires at < |q|
      ensures Progressed(q, q, at)
    {
    }

    /** Offers the unsent part of the current frame to the socket, past the staging buffer. */
    method WriteThrough(hasMore: bool) returns (r: bool)
      requires Shaped() && localQueueOffset < |localQueue| && localQueue[localQueueOffset].Unsent() != []
      modifies this`localQueue, this`wire, this`overtakes, this`writes
      ensures old(wire) <= wire
      ensures Progressed(old(localQueue), localQueue, localQueueOffset)
      ensures Shaped()
      ensures writeBuffer == [] ==> Front() == old(Front())
      ensures overtakes == old(overtakes) + if HasBufferedSends() then 1 else 0
      ensures r <==> localQueue[localQueueOffset].Unsent() == []
      ensures OneWrite(old(writes), writes, r)
      ensures var w := writes[|old(writes)|];
              w == old(Attempt(localQueue[localQueueOffset].Unsent(), hasMore, false, w.taken))
      ensures eager ==> r
    {
      var f := localQueue[localQueueOffset];
      if HasBufferedSends() {
        overtakes := overtakes + 1;
      }
      var b := SocketWrite(f.data[f.bytesSent..], hasMore, false);
      if b < 0 {
      } else if b > 0 {
        assert f.Unsent() == f.Unsent()[..b] + f.data[f.bytesSent + b..];
        Advance(b);
      } else {
        return false;
      }
      f := localQueue[localQueueOffset];
      if f.bytesSent < |f.data| {
        return false;
      }
      return true;
    }

    /** The frames waiting in the two queues, oldest first. */
    ghost function Queued(): (r: seq<SendFrame>)
      reads this
      requires localQueueOffset <= |localQueue|
    {
      localQueue[localQueueOffset..] + globalQueue
    }

    /** The last frame has bytes to send. */
    static ghost predicate EndsUnsent(q: seq<SendFrame>) {
      q != [] && q[|q| - 1].bytesSent < |q[|q| - 1].data|
    }

    /** Refills an exhausted local queue. */
    method DequeueToLocalQueue()
      requires Valid()
      modifies this`localQueue, this`localQueueOffset, this`globalQueue
      ensures Valid() && localQueueOffset <= |localQueue| && Queued() == old(Queued()) && Backlog() == old(Backlog())
      ensures old(localQueueOffset == |localQueue|) ==> globalQueue == []
    {
      if |localQueue| != localQueueOffset {
        return;
      }
      Exhausted(Staged(), localQueue, localQueueOffset, globalQueue);
      hide Tails, AllFrames, Concat;
      if localQueueOffset != 0 {
        localQueueOffset := 0;
        localQueue := [];
      }
      if globalQueue == [] {
        return;
      }
      localQueue, globalQueue := globalQueue, localQueue;
    }

    /** An exhausted local queue, an empty one, and one that was refilled stand for the same frames. */
    static lemma Exhausted(staged: seq<byte>, local: seq<SendFrame>, at: nat, global: seq<SendFrame>)
      requires at == |local| && AllFrames(global)
      ensures local[at..] == [] && global[0..] == global && local[at..] + global == global && [] + global == global
      ensures global + [] == global && AllFrames([])
      ensures staged + Tails(local[at..]) + Tails(global) == staged + Tails([]) + Tails(global)
      ensures staged + Tails([]) + Tails(global) == staged + Tails(global) + Tails([])
    {
      assert Tails([]) == [];
    }

    /** Drops the frame at the front of the local queue, whose bytes have all left. */
    method Pop()
      requires Valid() && localQueueOffset < |localQueue| && localQueue[localQueueOffset].Unsent() == []
      modifies this`localQueue, this`localQueueOffset
      ensures Valid() && Queued() == old(Queued())[1..] && globalQueue == old(globalQueue)
      ensures |localQueue| == old(|localQueue|) && localQueueOffset == old(localQueueOffset) + 1 <= |localQueue|
      ensures localQueue[old(localQueueOffset)].data == []
    {
      ghost var q := localQueue[localQueueOffset..];
      assert q[0].Unsent() + Tails(q[1..]) == Tails(q[1..]);
      localQueue := localQueue[localQueueOffset := SendFrame([], localQueue[localQueueOffset].bytesSent)];
      localQueueOffset := localQueueOffset + 1;
      assert localQueue[localQueueOffset..] == q[1..];
    }

    /** `InternalSend` moves bytes along without changing their order. */
    method SendFront(hasMore: bool) returns (r: bool)
      requires Valid() && localQueueOffset < |localQueue|
      modifies this`localQueue, this`writeBuffer, this`writeBufferOffset, this`wire, this`idleFlushes, this`overtakes,
               this`writes
      ensures old(wire) <= wire
      ensures Valid() && |localQueue| == old(|localQueue|) && Queued()[1..] == old(Queued())[1..]
      ensures eager && open ==> r
      ensures r ==> localQueue[localQueueOffset].Unsent() == []
      ensures var f := old(localQueue[localQueueOffset]);
              r && !hasMore && f.bytesSent < |f.data| ==> Staged() == []
      ensures old(Queued())[0] == old(localQueue[localQueueOffset])
      ensures idleFlushes == old(idleFlushes) && overtakes == old(overtakes)
      ensures !open ==> !r && writes == old(writes)
      ensures open ==> Tried(old(writes), writes, r)
      ensures hasMore == (old(Backlog()) > 1) ==> Packed(old(writes), writes)
    {
      ghost var q := localQueue[localQueueOffset..];
      FrontFirst();
      hide Tails, Concat, AllFrames, Front, Pending, Progressed, Tried, Packed, NextOffer, Offered;
      r := InternalSend(hasMore);
      AllButFirst(old(localQueue), localQueue, localQueueOffset);
      FrontFirst();
      RestOfQueue(old(localQueue), localQueue, localQueueOffset, globalQueue);
    }

    static lemma RestOfQueue(before: seq<SendFrame>, after: seq<SendFrame>, at: nat, later: seq<SendFrame>)
      requires at < |before| == |after| && after[at..][1..] == before[at..][1..]
      ensures (after[at..] + later)[1..] == (before[at..] + later)[1..] && (before[at..] + later)[0] == before[at]
    {
      assert (after[at..] + later)[1..] == after[at..][1..] + later;
      assert (before[at..] + later)[1..] == before[at..][1..] + later;
    }

    static lemma AllButFirst(before: seq<SendFrame>, after: seq<SendFrame>, at: nat)
      requires Progressed(before, after, at)
      ensures |after| == |before| && after[at..][1..] == before[at..][1..]
    {
    }

    lemma StagedFirst()
      requires Shaped()
      ensures wire + Pending() ==
                wire + writeBuffer[writeBufferOffset..] + (Tails(localQueue[localQueueOffset..]) + Tails(globalQueue))
    {
      var staged := writeBuffer[writeBufferOffset..];
      var tail, later := Tails(localQueue[localQueueOffset..]), Tails(globalQueue);
      hide Tails;
      assert wire + (staged + tail + later) == wire + staged + (tail + later);
    }

    lemma FrontFirst()
      requires Shaped() && localQueueOffset < |localQueue|
      ensures AllFrames(localQueue[localQueueOffset..][1..])
      ensures wire + Pending() == Front() + (Tails(localQueue[localQueueOffset..][1..]) + Tails(globalQueue))
    {
      TailsFront(localQueue[localQueueOffset..]);
      var staged, head := writeBuffer[writeBufferOffset..], localQueue[localQueueOffset].Unsent();
      var tail, later := Tails(localQueue[localQueueOffset..][1..]), Tails(globalQueue);
      hide Tails;
      assert wire + (staged + (head + tail) + later) == (wire + staged + head) + (tail + later);
    }

    static lemma TailsFront(q: seq<SendFrame>)
      requires AllFrames(q) && q != []
      ensures Tails(q) == q[0].Unsent() + Tails(q[1..])
    {
    }

    /** `i` of the frames `all` have been sent since the log of writes was `before`, and no write was short. */
    ghost predicate Flushing(all: seq<SendFrame>, before: seq<Write>, queuedFrames: int, i: int, max: nat)
      reads this
    {
      && Valid() && localQueueOffset <= |localQueue| && 0 <= i <= max && i + Backlog() == queuedFrames
      && Popped(all, Queued(), Staged(), i)
      && (if open then Tried(before, writes, true) && Packed(before, writes) else writes == before)
    }

    /** After `i` frames the next one was held up. */
    ghost predicate Blocked(before: seq<Write>, queuedFrames: int, i: int)
      reads this
    {
      && Valid() && localQueueOffset < |localQueue| && !(eager && open) && i + Backlog() == queuedFrames
      && (if open then Tried(before, writes, false) && Packed(before, writes) else writes == before)
    }

    lemma FlushBegins(max: nat)
      requires Valid()
      ensures localQueueOffset <= |localQueue| && Flushing(Queued(), writes, Backlog(), 0, max)
    {
      TriedNothing(writes);
    }

    lemma FlushGoesOn(all: seq<SendFrame>, before: seq<Write>, queuedFrames: int, i: int, max: nat)
      requires Valid() && localQueueOffset <= |localQueue| && i == queuedFrames - Backlog() && 0 <= i <= max
      requires Popped(all, Queued(), Staged(), i)
      requires if open then Tried(before, writes, true) && Packed(before, writes) else writes == before
      ensures Flushing(all, before, queuedFrames, i, max)
    {
    }

    lemma FlushEnds(all: seq<SendFrame>, before: seq<Write>, queuedFrames: int, i: int, max: nat)
      requires Flushing(all, before, queuedFrames, i, max)
      ensures Valid() && localQueueOffset <= |localQueue| && i == queuedFrames - Backlog() && 0 <= i <= max
      ensures Popped(all, Queued(), Staged(), i)
      ensures if open then Tried(before, writes, true) && Packed(before, writes) else writes == before
    {
    }

    /** Sends the frame at the front of the local queue and drops it once all its bytes have left. */
    method SendNext(hasMore: bool, ghost all: seq<SendFrame>, ghost before: seq<Write>, ghost queuedFrames: int,
                    ghost i: int, ghost max: nat)
      returns (sent: bool)
      requires Flushing(all, before, queuedFrames, i, max) && i < max && localQueueOffset < |localQueue|
      requires hasMore == (queuedFrames - i > 1)
      modifies this`localQueue, this`localQueueOffset, this`writeBuffer, this`writeBufferOffset, this`wire,
               this`idleFlushes, this`overtakes, this`writes
      ensures old(wire) <= wire && idleFlushes == old(idleFlushes) && overtakes == old(overtakes)
      ensures if sent then Flushing(all, before, queuedFrames, i + 1, max) else Blocked(before, queuedFrames, i)
    {
      FlushEnds(all, before, queuedFrames, i, max);
      ghost var first, queued, staged := writes, Queued(), Staged();
      hide Tried, Packed, Valid, Staged, Popped, Flushing;
      sent := SendFront(hasMore);
      if open {
        TriedMore(before, first, writes, sent);
      }
      if sent {
        Pop();
        PoppedMore(all, queued, staged, i, Staged());
        FlushGoesOn(all, before, queuedFrames, i + 1, max);
      }
    }

    /** The first `k` of the frames were popped; if all were, and the last had bytes to send, nothing is staged. */
    static ghost predicate Popped(all: seq<SendFrame>, rest: seq<SendFrame>, staged: seq<byte>, k: int) {
      0 <= k <= |all| && rest == all[k..] && (rest == [] && EndsUnsent(all) ==> staged == [])
    }

    static lemma PoppedMore(all: seq<SendFrame>, rest: seq<SendFrame>, staged: seq<byte>, k: int, staged': seq<byte>)
      requires Popped(all, rest, staged, k) && rest != []
      requires |rest| == 1 && rest[0].bytesSent < |rest[0].data| ==> staged' == []
      ensures Popped(all, rest[1..], staged', k + 1)
    {
      assert rest[1..] == all[k + 1..];
    }

    /**
     The inner loop of the flush: sends frames of the local queue until the count or the queue runs
     out or the socket blocks.
     */
    method DrainLocal(start: nat, maxPacketsToSend: nat, queuedFrames: nat, ghost all: seq<SendFrame>,
                      ghost before: seq<Write>)
      returns (i: nat, blocked: bool)
      requires Flushing(all, before, queuedFrames, start, maxPacketsToSend) && start <= maxPacketsToSend
      modifies this`localQueue, this`localQueueOffset, this`writeBuffer, this`writeBufferOffset, this`wire,
               this`idleFlushes, this`overtakes, this`writes
      ensures old(wire) <= wire && idleFlushes == old(idleFlushes) && overtakes == old(overtakes)
      ensures start <= i <= maxPacketsToSend
      ensures !blocked ==> Flushing(all, before, queuedFrames, i, maxPacketsToSend)
      ensures !blocked ==> i == maxPacketsToSend || localQueueOffset == |localQueue|
      ensures blocked ==> i < maxPacketsToSend && Blocked(before, queuedFrames, i)
    {
      hide Flushing, Blocked;
      i, blocked := start, false;
      while i < maxPacketsToSend
        invariant start <= i <= maxPacketsToSend && Flushing(all, before, queuedFrames, i, maxPacketsToSend)
        invariant idleFlushes == old(idleFlushes) && overtakes == old(overtakes) && old(wire) <= wire
      {
        LocalBound(all, before, queuedFrames, i, maxPacketsToSend);
        if |localQueue| == localQueueOffset {
          return;
        }
        var hasAnyMore := queuedFrames - i > 1;
        var sent := SendNext(hasAnyMore, all, before, queuedFrames, i, maxPacketsToSend);
        if !sent {
          blocked := true;
          return;
        }
        i := i + 1;
      }
    }

    lemma LocalBound(all: seq<SendFrame>, before: seq<Write>, queuedFrames: int, i: int, max: nat)
      requires Flushing(all, before, queuedFrames, i, max)
      ensures localQueueOffset <= |localQueue|
    {
    }

    /** Sends up to `maxPacketsToSend` queued frames; false when the socket would not take the current one. */
    method FlushQueuedSends(maxPacketsToSend: nat) returns (ret: bool)
      requires Valid()
      modifies this`localQueue, this`localQueueOffset, this`globalQueue, this`writeBuffer, this`writeBufferOffset,
               this`wire, this`idleFlushes, this`overtakes,
               this`writes
      ensures old(wire) <= wire
      ensures Valid()
      ensures idleFlushes == old(idleFlushes) && overtakes == old(overtakes)
      ensures Backlog() <= old(Backlog()) <= Backlog() + maxPacketsToSend
      ensures !ret ==> HasQueuedSends() && !(eager && open) && old(Backlog()) < Backlog() + maxPacketsToSend
      ensures !open ==> writes == old(writes)
      ensures open ==> Tried(old(writes), writes, ret) && Packed(old(writes), writes)
      ensures ret ==> !HasQueuedSends() || old(Backlog()) == Backlog() + maxPacketsToSend
      ensures ret ==> Popped(old(Queued()), Queued(), Staged(), old(Backlog()) - Backlog())
    {
      ret := true;
      var queuedFrames := |globalQueue| + |localQueue| - localQueueOffset;
      var i := 0;
      var round := 0;
      FlushBegins(maxPacketsToSend);
      hide Flushing, Blocked, Valid, Tried, Packed, Popped, Queued, Staged;
      while round < 2
        invariant ret && 0 <= round <= 2 && 0 <= i <= maxPacketsToSend
        invariant Flushing(old(Queued()), old(writes), queuedFrames, i, maxPacketsToSend)
        invariant idleFlushes == old(idleFlushes) && overtakes == old(overtakes) && old(wire) <= wire
        invariant round >= 1 ==> i == maxPacketsToSend || localQueueOffset == |localQueue|
        invariant round == 2 ==> i == maxPacketsToSend || !HasQueuedSends()
      {
        var blocked;
        i, blocked := DrainRound(i, maxPacketsToSend, queuedFrames, old(Queued()), old(writes));
        if blocked {
          FlushBlocked(old(writes), queuedFrames, i);
          ret := false;
          return;
        }
        round := round + 1;
      }
      FlushEnds(old(Queued()), old(writes), queuedFrames, i, maxPacketsToSend);
    }

    lemma FlushBlocked(before: seq<Write>, queuedFrames: int, i: int)
      requires Blocked(before, queuedFrames, i)
      ensures Valid() && localQueueOffset < |localQueue| && !(eager && open) && i + Backlog() == queuedFrames
      ensures if open then Tried(before, writes, false) && Packed(before, writes) else writes == before
    {
    }

    /** One round of the flush: the local queue is refilled if it is exhausted, and drained. */
    method DrainRound(start: nat, maxPacketsToSend: nat, queuedFrames: nat, ghost all: seq<SendFrame>,
                      ghost before: seq<Write>)
      returns (i: nat, blocked: bool)
      requires Flushing(all, before, queuedFrames, start, maxPacketsToSend) && start <= maxPacketsToSend
      modifies this`localQueue, this`localQueueOffset, this`globalQueue, this`writeBuffer, this`writeBufferOffset,
               this`wire, this`idleFlushes, this`overtakes, this`writes
      ensures old(wire) <= wire && idleFlushes == old(idleFlushes) && overtakes == old(overtakes)
      ensures start <= i <= maxPacketsToSend
      ensures !blocked ==> Flushing(all, before, queuedFrames, i, maxPacketsToSend)
      ensures !blocked ==> i == maxPacketsToSend || localQueueOffset == |localQueue|
      ensures !blocked && old(localQueueOffset == |localQueue|) ==> i == maxPacketsToSend || !HasQueuedSends()
      ensures blocked ==> i < maxPacketsToSend && Blocked(before, queuedFrames, i)
    {
      FlushEnds(all, before, queuedFrames, start, maxPacketsToSend);
      hide Tried, Packed, Valid, Popped, Flushing, Blocked, Queued, Staged;
      DequeueToLocalQueue();
      FlushGoesOn(all, before, queuedFrames, start, maxPacketsToSend);
      i, blocked := DrainLocal(start, maxPacketsToSend, queuedFrames, all, before);
    }

    /** The peer may send. */
    ghost predicate Active()
      reads this
    {
      open && ready && !disconnecting && !closed
    }

    /** The peer may send and its socket takes everything. */
    ghost predicate Willing()
      reads this
    {
      eager && Active()
    }

    /** How many frames one batch leaves. */
    static function Rest(backlog: int): (r: int) {
      if backlog <= FLUSH_BATCH then 0 else backlog - FLUSH_BATCH
    }

    /** The last write offered what was staged, announced no more, and left `staged` behind. */
    static ghost predicate LastOffer(before: seq<Write>, after: seq<Write>, staged: seq<byte>) {
      |after| > |before| && var w := after[|after| - 1]; w.staged && !w.more && w.Short() && staged == Left(w)
    }

    /** No small writes, but for a last one that empties the staging buffer. */
    static ghost predicate PackedButLast(before: seq<Write>, after: seq<Write>) {
      && before <= after
      && (Packed(before, after) ||
          (|before| < |after| && after[|after| - 1].staged && Packed(before, after[..|after| - 1])))
    }

    /** One call empties this peer: it is willing and at most one batch of frames waits. */
    ghost predicate Drainable()
      reads this
    {
      Willing() && Backlog() <= FLUSH_BATCH
    }

    /** The socket can take more: sends queued frames, then offers what is staged. */
    method OnWritable() returns (ret: bool)
      requires Valid()
      modifies this`localQueue, this`localQueueOffset, this`globalQueue, this`writeBuffer, this`writeBufferOffset,
               this`wire, this`idleFlushes, this`overtakes, this`writes
      ensures Valid()
      ensures idleFlushes == old(idleFlushes) && overtakes == old(overtakes)
      ensures old(wire) <= wire <= Concat(accepted)
      ensures !ready || disconnecting || closed ==>
                !ret && wire == old(wire) && writes == old(writes) && Queued() == old(Queued()) &&
                Backlog() == old(Backlog()) && Staged() == old(Staged())
      ensures !HasQueuedSends() && !HasBufferedSends() ==> wire == Concat(accepted)
      ensures old(!HasQueuedSends() && !HasBufferedSends()) ==> !HasQueuedSends() && !HasBufferedSends()
      ensures Backlog() <= old(Backlog())
      ensures Active() ==> Outcome(old(writes), writes, old(Backlog()), Backlog(), Staged(), ret)
      ensures old(Willing()) ==> ret && !HasBufferedSends() && Backlog() == Rest(old(Backlog()))
      ensures old(Drainable()) ==> !HasQueuedSends() && !HasBufferedSends() && wire == Concat(accepted)
    {
      hide Tails, AllFrames, Concat, Outcome, Pending;
      if !ready || disconnecting || closed {
        Drained();
        return false;
      }
      ret := WriteOut();
      Drained();
    }

    /**
     What a writable event of an active peer does, whatever the socket answers.  It reports success
     exactly when every write was taken whole; then nothing is staged, and a whole batch or everything
     is gone from the queues.  What it leaves staged is what its last write, from the staging buffer,
     left behind; and if a frame could not be sent before that, then the write before was short as well.
     */
    static ghost predicate Outcome(before: seq<Write>, after: seq<Write>, backlog0: int, backlog: int,
                                   staged: seq<byte>, ret: bool)
    {
      && (ret <==> Tried(before, after, true))
      && (ret ==> staged == [] && backlog == Rest(backlog0))
      && (staged != [] ==> LastOffer(before, after, staged))
      && (staged != [] && backlog > Rest(backlog0) ==> |after| >= |before| + 2 && after[|after| - 2].Short())
      && PackedButLast(before, after)
    }

    /** The body of `OnWritable` for a peer that may send. */
    method WriteOut() returns (ret: bool)
      requires Valid()
      modifies this`localQueue, this`localQueueOffset, this`globalQueue, this`writeBuffer, this`writeBufferOffset,
               this`wire, this`idleFlushes, this`overtakes, this`writes
      ensures Valid() && old(wire) <= wire
      ensures idleFlushes == old(idleFlushes) && overtakes == old(overtakes)
      ensures old(!HasQueuedSends() && !HasBufferedSends()) ==> !HasQueuedSends() && !HasBufferedSends()
      ensures Backlog() <= old(Backlog())
      ensures open ==> Outcome(old(writes), writes, old(Backlog()), Backlog(), Staged(), ret)
      ensures eager && open ==> ret && !HasBufferedSends() && Backlog() == Rest(old(Backlog()))
    {
      hide Tails, AllFrames, Concat, Tried, Packed, PackedButLast, LastOffer, Pending, OneWrite, Queued, EndsUnsent;
      ret := true;
      TriedNothing(writes);
      if HasQueuedSends() {
        ret := FlushQueuedSends(FLUSH_BATCH);
      }
      ghost var first, queued := writes, ret;
      if HasBufferedSends() {
        var flushed := FlushStaged();
        ret := ret && flushed;
        if open {
          OfferedLast(old(writes), first, writes, queued, flushed);
        }
      } else if open {
        NotOffered(old(writes), first, queued);
      }
    }

    /** The last offer of a writable event. */
    method FlushStaged() returns (r: bool)
      requires Valid() && HasBufferedSends()
      modifies this`writeBuffer, this`writeBufferOffset, this`wire, this`idleFlushes, this`writes
      ensures Valid() && old(wire) <= wire && idleFlushes == old(idleFlushes)
      ensures (r <==> !HasBufferedSends()) && (eager ==> r) && OneWrite(old(writes), writes, r)
      ensures var w := writes[|old(writes)|]; w.staged && !w.more && Staged() == Left(w)
    {
      hide Tails, AllFrames, Concat;
      StagedFirst();
      r := FlushBufferedSends(false);
      StagedFirst();
    }

    /** The queue part made the writes `a` to `b`, and one last offer of what was staged followed. */
    static lemma OfferedLast(a: seq<Write>, b: seq<Write>, c: seq<Write>, queued: bool, flushed: bool)
      requires Tried(a, b, queued) && Packed(a, b) && OneWrite(b, c, flushed) && c[|b|].staged && !c[|b|].more
      ensures Tried(a, c, true) <==> queued && flushed
      ensures PackedButLast(a, c) && (!flushed ==> LastOffer(a, c, Left(c[|b|])))
      ensures !queued ==> |c| >= |a| + 2 && c[|c| - 2].Short()
    {
      assert c[..|c| - 1] == b;
      assert c[|c| - 1] == c[|b|];
      if !queued {
        assert c[|b| - 1] == b[|b| - 1];
      }
    }

    static lemma NotOffered(a: seq<Write>, b: seq<Write>, queued: bool)
      requires Tried(a, b, queued) && Packed(a, b)
      ensures (Tried(a, b, true) <==> queued) && PackedButLast(a, b)
    {
    }

    /** What reached the socket is a prefix of what was accepted, and all of it once nothing is pending. */
    lemma Drained()
      requires Valid()
      ensures wire <= Concat(accepted)
      ensures !HasQueuedSends() && !HasBufferedSends() ==> wire == Concat(accepted)
    {
      assert wire + Pending() == Concat(accepted);
    }
  }
}
