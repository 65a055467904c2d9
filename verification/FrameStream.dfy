/** What a byte stream of frames means: a recursive parser of whole strings. */
module FrameStream {
  import opened Bits
  import opened Framing

  /** The complete frames at the front of a stream and the bytes after them. */
  datatype Parsed = Parsed(frames: seq<seq<byte>>, rest: seq<byte>)

  ghost predicate HasHeader(s: seq<byte>) {
    |s| >= 1 && |s| >= GetPacketHeaderSize(s[0])
  }

  ghost function FrameLength(s: seq<byte>): (r: nat)
    requires HasHeader(s)
    ensures r > GetPacketHeaderSize(s[0])
  {
    var hs := GetPacketHeaderSize(s[0]);
    hs + BodySize(s[..hs])
  }

  ghost predicate HasFrame(s: seq<byte>) {
    HasHeader(s) && |s| >= FrameLength(s)
  }

  ghost function Parse(s: seq<byte>): (r: Parsed)
    ensures !HasFrame(r.rest)
    decreases |s|
  {
    if HasFrame(s) then
      var n := FrameLength(s);
      var tail := Parse(s[n..]);
      Parsed([s[..n]] + tail.frames, tail.rest)
    else Parsed([], s)
  }

  /** The message in a complete frame, as the receiver reads it. */
  ghost function Decode(frame: seq<byte>): (m: Message)
    requires HasHeader(frame)
  {
    ReadFrame(frame, GetPacketHeaderSize(frame[0]))
  }

  ghost function Concat(frames: seq<seq<byte>>): (r: seq<byte>) {
    if frames == [] then [] else frames[0] + Concat(frames[1..])
  }

  ghost predicate AllValid(ms: seq<Message>) {
    forall i :: 0 <= i < |ms| ==> ValidMessage(ms[i])
  }

  ghost function Frames(ms: seq<Message>): (r: seq<seq<byte>>)
    requires AllValid(ms)
    ensures |r| == |ms| && forall i :: 0 <= i < |ms| ==> r[i] == Encode(ms[i])
  {
    seq(|ms|, i requires 0 <= i < |ms| => Encode(ms[i]))
  }

  lemma FrameExtends(s: seq<byte>, t: seq<byte>)
    requires HasHeader(s)
    ensures HasHeader(s + t) && FrameLength(s + t) == FrameLength(s)
    ensures HasFrame(s) ==> HasFrame(s + t) && (s + t)[..FrameLength(s)] == s[..FrameLength(s)]
  {
    var hs := GetPacketHeaderSize(s[0]);
    assert (s + t)[..hs] == s[..hs];
  }

  /** Where a stream is cut does not matter: the rest of one chunk is parsed together with the next chunk. */
  lemma {:induction false} ChunkIndependence(a: seq<byte>, b: seq<byte>)
    ensures Parse(a + b) == Parsed(Parse(a).frames + Parse(Parse(a).rest + b).frames, Parse(Parse(a).rest + b).rest)
    decreases |a|
  {
    hide BodySize, GetPacketHeaderSize;
    if HasFrame(a) {
      FrameExtends(a, b);
      var n := FrameLength(a);
      assert (a + b)[n..] == a[n..] + b;
      ChunkIndependence(a[n..], b);
    }
  }

  /** No byte is lost or reordered by parsing. */
  lemma {:induction false} ParseConserves(s: seq<byte>)
    ensures Concat(Parse(s).frames) + Parse(s).rest == s
    decreases |s|
  {
    hide BodySize, GetPacketHeaderSize;
    if HasFrame(s) {
      var n := FrameLength(s);
      ParseConserves(s[n..]);
      var tail := Parse(s[n..]);
      assert ([s[..n]] + tail.frames)[1..] == tail.frames;
      assert s == s[..n] + s[n..];
    }
  }

  lemma EncodedFrame(m: Message)
    requires ValidMessage(m)
    ensures HasFrame(Encode(m)) && FrameLength(Encode(m)) == |Encode(m)| && Decode(Encode(m)) == m
  {
    hide And, Or, HeaderWord, LittleEndian, BodySize;
    var hs := GetHeaderSize(|m.body|);
    var header := LittleEndian(HeaderWord(hs, |m.body|, m.kind), hs);
    BodySizeRoundTrip(|m.body|, m.kind);
    FirstByteRoundTrip(hs, |m.body|, m.kind, 0);
    KindBits(m.kind);
    assert Encode(m)[..hs] == header && Encode(m)[hs..] == m.body;
  }

  lemma ParseOne(m: Message, tail: seq<byte>)
    requires ValidMessage(m)
    ensures Parse(Encode(m) + tail) == Parsed([Encode(m)] + Parse(tail).frames, Parse(tail).rest)
  {
    EncodedFrame(m);
    hide Encode;
    FrameExtends(Encode(m), tail);
    var n := |Encode(m)|;
    assert (Encode(m) + tail)[n..] == tail;
    assert Encode(m)[..n] == Encode(m);
  }

  lemma {:induction false} ParseFrames(ms: seq<Message>)
    requires AllValid(ms)
    ensures Parse(Concat(Frames(ms))) == Parsed(Frames(ms), [])
  {
    if ms != [] {
      hide Encode, Parse, AllValid, ValidMessage, Frames, Concat;
      FirstFrame(ms);
      ParseFrames(ms[1..]);
      ParseOne(ms[0], Concat(Frames(ms[1..])));
    }
  }

  lemma FirstFrame(ms: seq<Message>)
    requires AllValid(ms) && ms != []
    ensures ValidMessage(ms[0]) && AllValid(ms[1..])
    ensures Frames(ms) == [Encode(ms[0])] + Frames(ms[1..])
    ensures Concat(Frames(ms)) == Encode(ms[0]) + Concat(Frames(ms[1..]))
  {
    hide Encode;
    assert Frames(ms)[1..] == Frames(ms[1..]);
  }

  /**
   Whatever part of the stream of some messages has arrived, its complete frames are the frames of
   the first of those messages, in order; nothing is missing once all of it has arrived.
   */
  lemma ArrivedPrefix(ms: seq<Message>, arrived: seq<byte>)
    requires AllValid(ms) && arrived <= Concat(Frames(ms))
    ensures Parse(arrived).frames <= Frames(ms)
    ensures arrived == Concat(Frames(ms)) ==> Parse(arrived).frames == Frames(ms)
  {
    hide Concat, Frames, Parse;
    var wire := Concat(Frames(ms));
    var later := wire[|arrived|..];
    assert arrived + later == wire;
    ChunkIndependence(arrived, later);
    ParseFrames(ms);
  }
}
