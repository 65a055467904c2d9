/**
 Growable byte buffers with headroom (`ByteBuffer.hpp`, `ByteBuffer.cpp`): one block holds the
 room for an in-band header, the bytes, and spare capacity.
 */
module ByteBuffers {
  import opened Bits
  import opened Framing

  const INITIAL_DATA_OFFSET: nat := 32
  /** The size of the header written into the headroom of a block. */
  const STORAGE_HEADER: nat := 20
  /** The capacity limit that `reserve` and the rounding assert. */
  const LIMIT: nat := 0x4000_0000

  function BitWidth(n: nat): (w: nat) {
    if n == 0 then 0 else 1 + BitWidth(n / 2)
  }

  lemma {:induction false} BitWidthBounds(n: nat)
    requires n >= 1
    ensures BitWidth(n) >= 1 && Pow2(BitWidth(n) - 1) <= n < Pow2(BitWidth(n))
  {
    if n > 1 { BitWidthBounds(n / 2); }
  }

  /** The granule of a request: a quarter of the next power of two above its total size. */
  function Granule(c: nat): (g: nat)
    ensures g >= 1
  {
    var total := c + INITIAL_DATA_OFFSET;
    var width := BitWidth(if total > 64 then total else 64);
    if width < 2 then 1 else Pow2(width - 2)
  }

  /** `total` is one to four granules. */
  ghost predicate Whole(total: nat, g: nat) {
    total == g || total == 2 * g || total == 3 * g || total == 4 * g
  }

  /** `r` is the least capacity from `c` up whose block is a whole number of granules. */
  ghost predicate Rounded(c: nat, r: nat) {
    c <= r < c + Granule(c) && Whole(r + INITIAL_DATA_OFFSET, Granule(c))
  }

  method RoundCapacityUp(capacity: nat) returns (r: nat)
    requires capacity < LIMIT
    ensures Rounded(capacity, r)
  {
    var total := capacity + INITIAL_DATA_OFFSET;
    var width := BitWidth(if total > 64 then total else 64);
    GranuleBounds(capacity);
    hide Pow2, BitWidth;
    var maxCap: nat := Pow2(width);
    var diff: nat := Pow2(width - 2);
    while maxCap >= total
      invariant maxCap == 0 || Whole(maxCap, diff)
      invariant maxCap + diff >= total
      decreases maxCap
    {
      maxCap := maxCap - diff;
    }
    maxCap := maxCap + diff;
    r := maxCap - INITIAL_DATA_OFFSET;
  }

  lemma WidthAtLeast7(n: nat)
    requires n >= 64
    ensures BitWidth(n) >= 7
  {
    BitWidthBounds(n);
    assert Pow2(6) == 8 * Pow2(3) && Pow2(3) == 8;
    if BitWidth(n) <= 6 {
      Pow2Monotone(BitWidth(n), 6);
    }
  }

  lemma WidthUnique(n: nat, w: nat)
    requires w >= 1 && Pow2(w - 1) <= n < Pow2(w)
    ensures BitWidth(n) == w
  {
    BitWidthBounds(n);
    if BitWidth(n) < w {
      Pow2Monotone(BitWidth(n), w - 1);
    } else if w < BitWidth(n) {
      Pow2Monotone(w, BitWidth(n) - 1);
    }
  }

  ghost function Top(c: nat): (r: nat) {
    if c + INITIAL_DATA_OFFSET > 64 then c + INITIAL_DATA_OFFSET else 64
  }

  /** The granule is a quarter of a power of two just above the total size of the request. */
  lemma GranuleBounds(c: nat)
    ensures BitWidth(Top(c)) >= 7 && Granule(c) == Pow2(BitWidth(Top(c)) - 2)
    ensures 2 * Granule(c) <= Top(c) < 4 * Granule(c) == Pow2(BitWidth(Top(c)))
  {
    BitWidthBounds(Top(c));
    WidthAtLeast7(Top(c));
    var w := BitWidth(Top(c));
    assert Pow2(w) == 2 * Pow2(w - 1) && Pow2(w - 1) == 2 * Pow2(w - 2);
  }

  /** Rounding a rounded capacity changes nothing. */
  lemma RoundedIdempotent(c: nat, r: nat)
    requires Rounded(c, r)
    ensures Rounded(r, r)
  {
    GranuleBounds(c);
    var w, g := BitWidth(Top(c)), Granule(c);
    var R := r + INITIAL_DATA_OFFSET;
    if Top(r) < Pow2(w) {
      assert Pow2(w - 1) == 2 * Pow2(w - 2);
      WidthUnique(Top(r), w);
      GranuleBounds(r);
    } else {
      assert R == Pow2(w) == 4 * g;
      assert Pow2(w + 1) == 2 * Pow2(w);
      WidthUnique(Top(r), w + 1);
      GranuleBounds(r);
      assert Granule(r) == Pow2(w - 1) == 2 * g;
    }
  }

  /** From 32 bytes on, rounding costs less than half of the block. */
  lemma RoundedTight(c: nat, r: nat)
    requires Rounded(c, r) && c >= 32
    ensures 2 * (r + INITIAL_DATA_OFFSET) < 3 * (c + INITIAL_DATA_OFFSET)
  {
    GranuleBounds(c);
  }

  /** A rounded capacity passes the limit check again exactly for requests up to 2^30 - 32. */
  lemma RoundedWithinLimit(c: nat, r: nat)
    requires Rounded(c, r) && c < LIMIT
    ensures r < LIMIT <==> c <= LIMIT - INITIAL_DATA_OFFSET
  {
    GranuleBounds(c);
    Pow2Table();
    var w, g, R := BitWidth(Top(c)), Granule(c), r + INITIAL_DATA_OFFSET;
    if Top(c) < LIMIT {
      assert Pow2(w - 1) == 2 * g;
      if w > 30 { Pow2Monotone(30, w - 1); }
      Pow2Monotone(w, 30);
    } else {
      if w <= 30 { Pow2Monotone(w, 30); }
      if w > 31 { Pow2Monotone(31, w - 1); }
      assert w == 31 && 2 * g == LIMIT;
    }
  }

  class ByteBufferWritable {
    /** The allocated block; the byte pointer of the source is its start plus `offset`. */
    var block: array?<byte>
    var size: nat
    var capacity: nat
    var offset: nat
    var flags: nat

    /** The block is split into headroom and capacity, and the in-band header fits the headroom. */
    ghost predicate Valid()
      reads this
    {
      if block == null then size == 0 && capacity == 0 && offset == 0
      else
        && block.Length == offset + capacity
        && STORAGE_HEADER <= offset <= INITIAL_DATA_OFFSET
        && size <= capacity
        && 2 * INITIAL_DATA_OFFSET <= block.Length
    }

    ghost function Bytes(): (r: seq<byte>)
      reads this, block
      requires Valid()
      ensures |r| == size
    {
      if block == null then [] else block[offset..offset + size]
    }

    /** The blocks a method may write: the current one, if any. */
    ghost function Own(): (r: set<object>)
      reads this
    {
      if block == null then {} else {block}
    }

    constructor ()
      ensures Valid() && block == null && Bytes() == [] && flags == 0
    {
      block, size, capacity, offset, flags := null, 0, 0, 0, 0;
    }

    constructor WithCapacity(request: nat)
      requires request < LIMIT
      ensures Valid() && Bytes() == [] && flags == 0 && request <= capacity
      ensures request == 0 ==> block == null
      ensures request > 0 ==> block != null && fresh(block) && offset == INITIAL_DATA_OFFSET
    {
      if request == 0 {
        block, size, capacity, offset, flags := null, 0, 0, 0, 0;
      } else {
        GranuleBounds(request);
        var rounded := RoundCapacityUp(request);
        var extra: nat :| extra >= 0;
        var total := rounded + INITIAL_DATA_OFFSET + extra;
        block := new byte[total](_ => 0);
        offset, size, flags := INITIAL_DATA_OFFSET, 0, 0;
        capacity := total - INITIAL_DATA_OFFSET;
      }
    }

    /** What `TryRecycle` makes of the block of a frame: no bytes and the full headroom. */
    constructor Recycled(block: array<byte>)
      requires 2 * INITIAL_DATA_OFFSET <= block.Length
      ensures Valid() && this.block == block && Bytes() == [] && flags == 0
      ensures offset == INITIAL_DATA_OFFSET && offset + capacity == block.Length
    {
      this.block := block;
      size, flags, offset := 0, 0, INITIAL_DATA_OFFSET;
      capacity := block.Length - INITIAL_DATA_OFFSET;
    }

    method Clear()
      requires Valid()
      modifies this
      ensures Valid() && Bytes() == [] && block == old(block) && flags == 0
      ensures block != null ==> offset == INITIAL_DATA_OFFSET
    {
      size := 0;
      if block != null {
        capacity := capacity + offset;
        offset := INITIAL_DATA_OFFSET;
        capacity := capacity - offset;
      }
      flags := 0;
    }

    /** Makes room for `newCapacity` bytes, in a new block when the current one is too small. */
    method Reserve(newCapacity: nat)
      requires Valid() && (newCapacity <= capacity || newCapacity <= LIMIT - INITIAL_DATA_OFFSET)
      modifies this
      ensures Valid() && Bytes() == old(Bytes()) && newCapacity <= capacity && flags == old(flags)
      ensures newCapacity <= old(capacity) ==> block == old(block) && offset == old(offset)
      ensures newCapacity > old(capacity) ==> block != null && fresh(block) && offset == INITIAL_DATA_OFFSET
    {
      if newCapacity > capacity {
        ReserveOrShrink(newCapacity);
      }
    }

    /** Moves the bytes to a new block for `minCapacity`, cutting them when they do not fit. */
    method ReserveOrShrink(minCapacity: nat)
      requires Valid() && 0 < minCapacity <= LIMIT - INITIAL_DATA_OFFSET
      modifies this
      ensures Valid() && minCapacity <= capacity && flags == old(flags)
      ensures size == (if old(size) <= capacity then old(size) else capacity) && Bytes() == old(Bytes())[..size]
      ensures block != null && fresh(block) && offset == INITIAL_DATA_OFFSET
    {
      var rounded := RoundCapacityUp(minCapacity);
      RoundedWithinLimit(minCapacity, rounded);
      assert minCapacity <= rounded;
      hide Rounded;
      hide Bytes;
      var bytes := Copy();
      var buf := new ByteBufferWritable.WithCapacity(rounded);
      buf.flags := flags;
      var n := if size < buf.capacity then size else buf.capacity;
      buf.Load(bytes[..n]);
      Adopt(buf);
    }

    /** Fills an empty buffer that has room. */
    method Load(bytes: seq<byte>)
      requires Valid() && block != null && |bytes| <= capacity
      modifies this`size, Own()
      ensures Valid() && Bytes() == bytes
    {
      Store(bytes, block, offset);
      size := |bytes|;
    }

    /** `memcpy` of given bytes into a block. */
    static method Store(src: seq<byte>, to: array<byte>, at: nat)
      requires at + |src| <= to.Length
      modifies to
      ensures to[at..at + |src|] == src
      ensures to[..at] == old(to[..at]) && to[at + |src|..] == old(to[at + |src|..])
    {
      var i := 0;
      while i < |src|
        invariant 0 <= i <= |src|
        invariant forall j :: 0 <= j < i ==> to[at + j] == src[j]
        invariant to[..at] == old(to[..at]) && to[at + |src|..] == old(to[at + |src|..])
      {
        to[at + i] := src[i];
        i := i + 1;
      }
    }

    method Append(src: seq<byte>)
      requires Valid() && (size + |src| <= capacity || size + |src| <= LIMIT - INITIAL_DATA_OFFSET)
      modifies this, Own()
      ensures Valid() && Bytes() == old(Bytes()) + src && flags == old(flags)
      ensures block != null ==> block == old(block) || fresh(block)
      ensures size <= old(capacity) ==> block == old(block) && offset == old(offset)
    {
      Reserve(size + |src|);
      if block != null {
        AppendInPlace(src);
      }
    }

    method AppendInPlace(src: seq<byte>)
      requires Valid() && block != null && size + |src| <= capacity
      modifies this`size, Own()
      ensures Valid() && Bytes() == old(Bytes()) + src
    {
      var at := offset + size;
      ghost var was := block[..];
      Store(src, block, at);
      KeepsBefore(was, block[..], at, offset, at);
      JoinSlices(block[..], offset, at, at + |src|);
      size := size + |src|;
    }

    /** Grows or shrinks the buffer; new bytes are unspecified. */
    method Resize(newSize: nat)
      requires Valid() && (newSize <= capacity || newSize <= LIMIT - INITIAL_DATA_OFFSET)
      modifies this
      ensures Valid() && size == newSize && flags == old(flags)
      ensures var kept := if newSize < old(size) then newSize else old(size);
              Bytes()[..kept] == old(Bytes())[..kept]
      ensures block != null ==> block == old(block) || fresh(block)
    {
      if capacity < newSize {
        Reserve(newSize);
      }
      size := newSize;
    }

    /**
     Puts bytes in front: into the headroom while the in-band header still fits before them, else in
     a new block.  Without a source the new bytes are unspecified.  A buffer without a block always
     takes the first way, so the source's test for one in between never succeeds.
     */
    method Prepend(src: seq<byte>, given: bool)
      requires Valid() && (offset >= STORAGE_HEADER + |src| || |src| + capacity < LIMIT)
      modifies this, Own()
      ensures Valid() && size == |src| + old(size) && Bytes()[|src|..] == old(Bytes())
      ensures given ==> Bytes() == src + old(Bytes())
      ensures block != null ==> block == old(block) || fresh(block)
      ensures old(offset) >= STORAGE_HEADER + |src| ==> block == old(block) && offset == old(offset) - |src|
      ensures flags == if old(offset) >= STORAGE_HEADER + |src| then old(flags) else 0
    {
      if offset < STORAGE_HEADER + |src| {
        PrependInNewBlock(src, given);
        return;
      }
      assert block != null;
      offset := offset - |src|;
      size := size + |src|;
      capacity := capacity + |src|;
      assert Bytes()[|src|..] == old(Bytes());
      if given {
        StoreFront(src);
      }
    }

    /** Overwrites the first bytes of the buffer. */
    method StoreFront(src: seq<byte>)
      requires Valid() && block != null && |src| <= size
      modifies Own()
      ensures Valid() && Bytes() == src + old(Bytes())[|src|..]
    {
      ghost var was := block[..];
      Store(src, block, offset);
      KeepsAfter(was, block[..], offset + |src|, offset + |src|, offset + size);
      JoinSlices(block[..], offset, offset + |src|, offset + size);
    }

    static lemma KeepsBefore(was: seq<byte>, now: seq<byte>, at: nat, lo: nat, hi: nat)
      requires |was| == |now| && lo <= hi <= at <= |was| && now[..at] == was[..at]
      ensures now[lo..hi] == was[lo..hi]
    {
      forall i | lo <= i < hi
        ensures now[i] == was[i]
      {
        assert now[i] == now[..at][i] && was[i] == was[..at][i];
      }
    }

    static lemma KeepsAfter(was: seq<byte>, now: seq<byte>, at: nat, lo: nat, hi: nat)
      requires |was| == |now| && at <= lo <= hi <= |was| && now[at..] == was[at..]
      ensures now[lo..hi] == was[lo..hi]
    {
      forall i | lo <= i < hi
        ensures now[i] == was[i]
      {
        assert now[i] == now[at..][i - at] && was[i] == was[at..][i - at];
      }
    }

    static lemma JoinSlices(s: seq<byte>, lo: nat, mid: nat, hi: nat)
      requires lo <= mid <= hi <= |s|
      ensures s[lo..hi] == s[lo..mid] + s[mid..hi] && s[lo..hi][mid - lo..] == s[mid..hi]
    {
    }

    method PrependInNewBlock(src: seq<byte>, given: bool)
      requires Valid() && |src| + capacity < LIMIT
      modifies this
      ensures Valid() && size == |src| + old(size) && Bytes()[|src|..] == old(Bytes())
      ensures given ==> Bytes() == src + old(Bytes())
      ensures (block != null ==> fresh(block)) && flags == 0
    {
      hide Bytes;
      var bytes := Copy();
      var buf := new ByteBufferWritable.WithCapacity(|src| + capacity);
      if given {
        buf.Append(src);
      } else {
        buf.size := buf.size + |src|;
      }
      ghost var front := buf.Bytes();
      assert |front| == |src| && (given ==> front == src);
      if size != 0 {
        buf.Append(bytes);
      }
      assert buf.Bytes() == front + bytes;
      Adopt(buf);
    }

    /** The bytes as a value. */
    method Copy() returns (r: seq<byte>)
      requires Valid()
      ensures r == Bytes()
    {
      if block == null {
        return [];
      }
      return block[offset..offset + size];
    }

    /** Move-assignment from a buffer that is not used afterwards. */
    method Adopt(buf: ByteBufferWritable)
      requires buf != this && buf.Valid()
      modifies this
      ensures Valid() && Bytes() == buf.Bytes() && block == buf.block
      ensures capacity == buf.capacity && offset == buf.offset && flags == buf.flags
    {
      block, size, capacity, offset, flags := buf.block, buf.size, buf.capacity, buf.offset, buf.flags;
    }

    /** Turning the buffer into shared storage writes the header into the headroom: no byte of the frame changes. */
    method WriteStorageHeader(header: seq<byte>)
      requires Valid() && block != null && |header| == STORAGE_HEADER
      modifies Own()
      ensures Valid() && Bytes() == old(Bytes()) && block[..STORAGE_HEADER] == header
    {
      ghost var was := block[..];
      Store(header, block, 0);
      KeepsAfter(was, block[..], STORAGE_HEADER, offset, offset + size);
    }

    /** `FramingProtocol::WriteHeaderIntoBuffer`: the buffer becomes the frame of its bytes. */
    method WriteHeaderIntoBuffer(flags: nat)
      requires Valid() && size <= MAX_BODY
      requires offset >= STORAGE_HEADER + GetHeaderSize(size) || GetHeaderSize(size) + capacity < LIMIT
      modifies this, Own()
      ensures Valid() && Bytes() == Encode(Message(And(flags, 6), old(Bytes())))
      ensures this.flags == if old(offset) >= STORAGE_HEADER + GetHeaderSize(old(size)) then flags else 0
    {
      hide And, Or, HeaderWord, LittleEndian;
      var n := size;
      this.flags := flags;
      var headerSize := GetHeaderSize(size);
      Prepend(seq(headerSize, _ => 0), false);
      Stamp(headerSize, n, flags);
      SameHeader(headerSize, n, flags);
    }

    /** Writes a frame header over the first bytes. */
    method Stamp(headerSize: nat, dataSize: nat, flags: nat)
      requires Valid() && block != null && 1 <= headerSize <= 4 && headerSize <= size
      modifies Own()
      ensures Valid()
      ensures Bytes() == LittleEndian(HeaderWord(headerSize, dataSize, flags), headerSize) + old(Bytes())[headerSize..]
    {
      hide And, Or, HeaderWord, LittleEndian;
      ghost var was := block[..];
      ghost var header := LittleEndian(HeaderWord(headerSize, dataSize, flags), headerSize);
      assert Bytes() == was[offset..offset + size];
      WriteHeader(block, offset, headerSize, dataSize, flags);
      StampedBytes(was, block[..], offset, size, header);
      assert Bytes() == block[..][offset..offset + size];
    }

    /** What a slice looks like after its first bytes were overwritten. */
    static lemma StampedBytes(was: seq<byte>, now: seq<byte>, at: nat, size: nat, header: seq<byte>)
      requires |header| <= size && at + size <= |was| && now == was[..at] + header + was[at + |header|..]
      ensures |now| == |was| && now[at..at + size] == header + was[at..at + size][|header|..]
    {
      var n := |header|;
      assert now[..at + n] == was[..at] + header && now[at + n..] == was[at + n..];
      JoinSlices(now, at, at + n, at + size);
      KeepsAfter(was, now, at + n, at + n, at + size);
    }

    /** Only the two type bits of the flags reach the header. */
    static lemma SameHeader(headerSize: nat, dataSize: nat, flags: nat)
      requires 1 <= headerSize <= 4
      ensures HeaderWord(headerSize, dataSize, And(flags, 6)) == HeaderWord(headerSize, dataSize, flags)
    {
      hide And, Or;
      KindBits(flags);
      KindBits(And(flags, 6));
    }
  }
}
