/**
 The frame header of `FramingProtocol.cpp`: one to four little-endian bytes holding the header
 length (2 bits), the message type (2 bits) and the body length minus one (4 to 28 bits).
 */
module Framing {
  import opened Bits

  const MAX_BODY: nat := 0x1000_0000

  /** A message: its two type bits, as the even number 0, 2, 4 or 6 that `Flags` uses, and its body. */
  datatype Message = Message(kind: nat, body: seq<byte>)

  predicate ValidMessage(m: Message) {
    m.kind in {0, 2, 4, 6} && 1 <= |m.body| <= MAX_BODY
  }

  function GetHeaderSize(dataSize: nat): (r: nat)
    ensures r <= 4
  {
    if dataSize <= 0x10 then 1
    else if dataSize <= 0x1000 then 2
    else if dataSize <= 0x10_0000 then 3
    else if dataSize <= 0x1000_0000 then 4
    else 0
  }

  /** The header as one 32-bit word. */
  function HeaderWord(headerSize: nat, dataSize: nat, flags: nat): (h: nat)
    requires 1 <= headerSize <= 4
  {
    Or(Or(And(flags, 6) * 2, headerSize - 1), (dataSize + (U32 - 1)) * 16 % U32)
  }

  function Shifted(h: nat, i: nat): (r: nat)
  {
    if i == 0 then h else Shifted(h, i - 1) / 256
  }

  /** The first `n` bytes of a word, least significant first. */
  function LittleEndian(h: nat, n: nat): (r: seq<byte>)
    ensures |r| == n
    ensures forall i :: 0 <= i < n ==> r[i] == Shifted(h, i) % 256
  {
    if n == 0 then [] else LittleEndian(h, n - 1) + [Shifted(h, n - 1) % 256]
  }

  /** Writes a header into a byte array, from index `at` on. */
  method WriteHeader(header: array<byte>, at: nat, headerSize: nat, dataSize: nat, flags: nat)
    requires 1 <= headerSize <= 4 && at + headerSize <= header.Length
    modifies header
    ensures var was := old(header[..]);
            var written := LittleEndian(HeaderWord(headerSize, dataSize, flags), headerSize);
            header[..] == was[..at] + written + was[at + headerSize..]
  {
    hide HeaderWord;
    var h := HeaderWord(headerSize, dataSize, flags);
    var i := 0;
    while i < headerSize
      invariant 0 <= i <= headerSize
      invariant forall j :: 0 <= j < i ==> header[at + j] == Shifted(h, j) % 256
      invariant header[..at] == old(header[..at]) && header[at + headerSize..] == old(header[at + headerSize..])
    {
      header[at + i] := Shifted(h, i) % 256;
      i := i + 1;
    }
    assert header[at..at + headerSize] == LittleEndian(h, headerSize);
    assert header[..] == header[..at] + header[at..at + headerSize] + header[at + headerSize..];
  }

  function ShiftLeft(x: nat, factor: nat): (r: nat) {
    x * factor
  }

  function GetPacketHeaderSize(headerFirstByte: byte): (r: nat)
    ensures 1 <= r <= 4
  {
    And(headerFirstByte, 3) + 1
  }

  function GetPacketFlags(headerFirstByte: byte, otherFlags: nat): (r: nat) {
    Or(otherFlags, And(headerFirstByte / 2, 6))
  }

  /** The length of the body that follows a header; 0 for a header size the switch does not know. */
  method GetPacketBodySize(header: seq<byte>, headerSize: nat) returns (r: nat)
    requires headerSize <= |header|
    ensures 1 <= headerSize <= 4 ==> r == BodySize(header[..headerSize])
    ensures !(1 <= headerSize <= 4) ==> r == 0
  {
    var h := 0;
    if headerSize == 0 || headerSize > 4 {
      return 0;
    }
    if headerSize >= 4 {
      h := Or(h, ShiftLeft(header[3], 0x100_0000));
    }
    if headerSize >= 3 {
      h := Or(h, ShiftLeft(header[2], 0x1_0000));
    }
    if headerSize >= 2 {
      h := Or(h, ShiftLeft(header[1], 0x100));
    }
    h := Or(h, header[0]);
    OrBytes(header[..headerSize]);
    r := h / 16 + 1;
  }

  /** A little-endian byte string as a number. */
  ghost function Word(bytes: seq<byte>): (r: nat) {
    if bytes == [] then 0 else bytes[0] + 256 * Word(bytes[1..])
  }

  ghost function BodySize(header: seq<byte>): (r: nat)
    ensures r >= 1
  {
    Word(header) / 16 + 1
  }

  /** What is read from a frame with a header of the given size: type bits and body. */
  function ReadFrame(frame: seq<byte>, headerSize: nat): (m: Message)
    requires 0 < |frame| && headerSize <= |frame|
  {
    Message(GetPacketFlags(frame[0], 0), frame[headerSize..])
  }

  /** The frame of a message: its header, then its body (`WriteHeaderIntoBuffer`). */
  function Encode(m: Message): (frame: seq<byte>)
    requires |m.body| <= MAX_BODY
  {
    var hs := GetHeaderSize(|m.body|);
    LittleEndian(HeaderWord(hs, |m.body|, m.kind), hs) + m.body
  }

  // ----- bit facts -----

  lemma {:induction false} OrZero(a: nat)
    ensures Or(a, 0) == a
  {
    if a > 0 { OrZero(a / 2); }
  }

  lemma {:induction false} OrCommutes(a: nat, b: nat)
    ensures Or(a, b) == Or(b, a)
    decreases a + b
  {
    if a > 0 && b > 0 {
      OrCommutes(a / 2, b / 2);
    } else {
      OrZero(if a == 0 then b else a);
    }
  }

  lemma OrHighLow(hi: nat, lo: nat, k: nat)
    requires lo < Pow2(k)
    ensures Or(hi * Pow2(k), lo) == hi * Pow2(k) + lo
  {
    OrDisjoint(hi, lo, k);
    OrCommutes(lo, hi * Pow2(k));
  }

  /** The type bits of `flags`. */
  lemma KindBits(flags: nat)
    ensures And(flags, 6) == flags / 2 % 4 * 2
  {
    assert And(flags, 6) == 2 * And(flags / 2, 3);
    Pow2Table();
    AndMask(flags / 2, 2);
  }

  lemma OrNothing(x: nat)
    ensures Or(0, x) == x
  {
  }

  lemma OrBytes(header: seq<byte>)
    requires 1 <= |header| <= 4
    ensures var h4 := if |header| >= 4 then Or(0, ShiftLeft(header[3], 0x100_0000)) else 0;
            var h3 := if |header| >= 3 then Or(h4, ShiftLeft(header[2], 0x1_0000)) else h4;
            var h2 := if |header| >= 2 then Or(h3, ShiftLeft(header[1], 0x100)) else h3;
            Or(h2, header[0]) == Word(header)
  {
    hide Or, Word;
    var b1: nat := if |header| >= 2 then header[1] else 0;
    var b2: nat := if |header| >= 3 then header[2] else 0;
    var b3: nat := if |header| >= 4 then header[3] else 0;
    WordValue(header, b1, b2, b3);
    OrNothing(ShiftLeft(b3, 0x100_0000));
    OrNothing(ShiftLeft(b2, 0x1_0000));
    OrNothing(ShiftLeft(b1, 0x100));
    OrNothing(header[0]);
    OrFour(header[0], b1, b2, b3);
  }

  lemma OrFour(b0: nat, b1: nat, b2: nat, b3: nat)
    requires b0 < 256 && b1 < 256 && b2 < 256 && b3 < 256
    ensures Or(b3 * 0x100_0000, b2 * 0x1_0000) == b3 * 0x100_0000 + b2 * 0x1_0000
    ensures Or(b3 * 0x100_0000 + b2 * 0x1_0000, b1 * 0x100) == b3 * 0x100_0000 + b2 * 0x1_0000 + b1 * 0x100
    ensures Or(b3 * 0x100_0000 + b2 * 0x1_0000 + b1 * 0x100, b0) == b3 * 0x100_0000 + b2 * 0x1_0000 + b1 * 0x100 + b0
  {
    hide Or;
    Pow2Table();
    hide Pow2;
    OrHighLow(b3, b2 * 0x1_0000, 24);
    OrHighLow(b3 * 256 + b2, b1 * 0x100, 16);
    OrHighLow(b3 * 0x1_0000 + b2 * 256 + b1, b0, 8);
  }

  lemma WordValue(header: seq<byte>, b1: nat, b2: nat, b3: nat)
    requires 1 <= |header| <= 4
    requires b1 == if |header| >= 2 then header[1] else 0
    requires b2 == if |header| >= 3 then header[2] else 0
    requires b3 == if |header| >= 4 then header[3] else 0
    ensures Word(header) == header[0] + 256 * b1 + 0x1_0000 * b2 + 0x100_0000 * b3
  {
    assert Word(header) == header[0] + 256 * Word(header[1..]);
    if |header| >= 2 {
      WordStep(header, 1);
      if |header| >= 3 {
        WordStep(header, 2);
        if |header| >= 4 { WordStep(header, 3); }
      }
    }
  }

  lemma WordStep(header: seq<byte>, i: nat)
    requires i < |header|
    ensures Word(header[i..]) == header[i] + 256 * Word(header[i + 1..])
    ensures i + 1 == |header| ==> Word(header[i + 1..]) == 0
  {
    assert header[i..][1..] == header[i + 1..];
  }

  // ----- the codec -----

  /** The header word holds its own length, the type and the length less one in separate bit fields. */
  lemma HeaderFields(headerSize: nat, dataSize: nat, flags: nat)
    requires 1 <= headerSize <= 4 && dataSize <= MAX_BODY
    ensures HeaderWord(headerSize, dataSize, flags) ==
            16 * (if dataSize == 0 then MAX_BODY - 1 else dataSize - 1) + 4 * (flags / 2 % 4) + (headerSize - 1)
  {
    hide And, Or;
    var t := flags / 2 % 4;
    KindBits(flags);
    Pow2Table();
    hide Pow2;
    OrHighLow(t, headerSize - 1, 2);
    LengthField(dataSize);
    OrDisjoint(if dataSize == 0 then MAX_BODY - 1 else dataSize - 1, t * 4 + (headerSize - 1), 4);
  }

  /** The length less one, shifted past the other fields in 32-bit arithmetic. */
  lemma LengthField(dataSize: nat)
    requires dataSize <= MAX_BODY
    ensures (dataSize + (U32 - 1)) * 16 % U32 == (if dataSize == 0 then MAX_BODY - 1 else dataSize - 1) * 16
  {
    if dataSize == 0 {
      ModUnique((U32 - 1) * 16, U32, 15, (MAX_BODY - 1) * 16);
    } else {
      ModUnique((dataSize + (U32 - 1)) * 16, U32, 16, (dataSize - 1) * 16);
    }
  }

  lemma {:induction false} LittleEndianWord(h: nat, n: nat)
    requires n <= 4
    ensures Word(LittleEndian(h, n)) ==
            if n == 0 then 0
            else h % (if n == 1 then 0x100 else if n == 2 then 0x1_0000 else if n == 3 then 0x100_0000 else U32)
  {
    if n > 0 {
      var header := LittleEndian(h, n);
      var b1: nat := if n >= 2 then header[1] else 0;
      var b2: nat := if n >= 3 then header[2] else 0;
      var b3: nat := if n >= 4 then header[3] else 0;
      WordValue(header, b1, b2, b3);
      BytesOf(h);
    }
  }

  lemma BytesOf(h: nat)
    ensures Shifted(h, 0) == h
    ensures h % 0x1_0000 == h % 0x100 + 0x100 * (Shifted(h, 1) % 256)
    ensures h % 0x100_0000 == h % 0x1_0000 + 0x1_0000 * (Shifted(h, 2) % 256)
    ensures h % U32 == h % 0x100_0000 + 0x100_0000 * (Shifted(h, 3) % 256)
  {
    DivModSplit(h, 0x100, 0x100);
    assert Shifted(h, 1) == h / 0x100;
    assert Shifted(h, 2) == h / 0x1_0000;
    DivModSplit(h, 0x1_0000, 0x100);
    assert Shifted(h, 3) == h / 0x100_0000;
    DivModSplit(h, 0x100_0000, 0x100);
  }

  lemma DivModSplit(h: nat, a: nat, b: nat)
    requires a > 0 && b > 0 && a * b > 0
    ensures h / (a * b) == h / a / b
    ensures h % (a * b) == h % a + a * (h / a % b)
  {
    var q, r := h / a / b, h / a % b;
    assert h / a == b * q + r;
    assert h == a * (b * q + r) + h % a;
    assert a * (b * q + r) == (a * b) * q + a * r by { MulAssoc(a, b, q, r); }
    assert a * r <= a * (b - 1) by { MulMono(a, r, b - 1); }
    assert a * (b - 1) == a * b - a;
    ModUnique(h, a * b, q, a * r + h % a);
  }

  lemma MulAssoc(a: int, b: int, q: int, r: int)
    ensures a * (b * q + r) == (a * b) * q + a * r
  {
  }

  lemma MulMono(a: nat, r: int, s: int)
    requires r <= s
    ensures a * r <= a * s
  {
  }

  /**
   The length field survives the header exactly for non-empty bodies: an empty body is announced
   as sixteen bytes.
   */
  lemma BodySizeRoundTrip(dataSize: nat, flags: nat)
    requires dataSize <= MAX_BODY
    ensures var hs := GetHeaderSize(dataSize);
            var size := BodySize(LittleEndian(HeaderWord(hs, dataSize, flags), hs));
            && (size == dataSize <==> dataSize >= 1)
            && (dataSize == 0 ==> size == 16)
  {
    hide And, Or, HeaderWord, Word;
    var hs := GetHeaderSize(dataSize);
    HeaderFields(hs, dataSize, flags);
    LittleEndianWord(HeaderWord(hs, dataSize, flags), hs);
    hide LittleEndian;
    var low := 4 * (flags / 2 % 4) + (hs - 1);
    if dataSize == 0 {
      ModUnique(16 * (MAX_BODY - 1) + low, 0x100, 0xFF_FFFF, 16 * 15 + low);
      ModUnique(16 * 15 + low, 16, 15, low);
    } else {
      WholeWord(16 * (dataSize - 1) + low, hs, dataSize);
      ModUnique(16 * (dataSize - 1) + low, 16, dataSize - 1, low);
    }
  }

  /** The header is as short as possible: any shorter one would announce a different length. */
  lemma ShorterHeaderFails(dataSize: nat, shorter: nat, flags: nat)
    requires dataSize <= MAX_BODY && 1 <= shorter < GetHeaderSize(dataSize)
    ensures BodySize(LittleEndian(HeaderWord(shorter, dataSize, flags), shorter)) < dataSize
  {
    hide And, Or, HeaderWord, Word;
    var h := HeaderWord(shorter, dataSize, flags);
    LittleEndianWord(h, shorter);
    hide LittleEndian;
  }

  lemma WholeWord(h: nat, hs: nat, dataSize: nat)
    requires 1 <= dataSize <= MAX_BODY && hs == GetHeaderSize(dataSize) && h < 16 * dataSize
    ensures h % (if hs == 1 then 0x100 else if hs == 2 then 0x1_0000 else if hs == 3 then 0x100_0000 else U32) == h
  {
  }

  /** The first byte alone tells the header size and the type bits, whatever the length. */
  lemma FirstByteRoundTrip(headerSize: nat, dataSize: nat, flags: nat, otherFlags: nat)
    requires 1 <= headerSize <= 4 && dataSize <= MAX_BODY && otherFlags < 2
    ensures var first := LittleEndian(HeaderWord(headerSize, dataSize, flags), headerSize)[0];
            && GetPacketHeaderSize(first) == headerSize
            && GetPacketFlags(first, otherFlags) == And(flags, 6) + otherFlags
  {
    hide And, Or, HeaderWord;
    var h := HeaderWord(headerSize, dataSize, flags);
    HeaderFields(headerSize, dataSize, flags);
    FirstByteFields(LittleEndian(h, headerSize)[0], flags / 2 % 4, headerSize - 1, otherFlags);
    KindBits(flags);
  }

  lemma FirstByteFields(first: byte, t: nat, size: nat, otherFlags: nat)
    requires t < 4 && size < 4 && otherFlags < 2 && first % 16 == 4 * t + size
    ensures And(first, 3) == size
    ensures Or(otherFlags, And(first / 2, 6)) == 2 * t + otherFlags
  {
    hide And, Or;
    LowFields(first, first / 16, t, size);
    Pow2Table();
    AndMask(first, 2);
    KindBits(first / 2);
    assert Pow2(1) == 2;
    hide Pow2;
    OrDisjoint(t, otherFlags, 1);
  }

  lemma LowFields(x: nat, q: nat, t: nat, size: nat)
    requires t < 4 && size < 4 && x == 16 * q + 4 * t + size
    ensures x % 4 == size && x / 2 / 2 % 4 == t
  {
    ModUnique(x, 4, 4 * q + t, size);
    assert x / 2 / 2 == 4 * q + t;
  }
}
