/** The incremental frame decoder of `FrameDecoder.cpp`. */
module FrameDecoders {
  import opened Bits
  import opened Framing
  import opened FrameStream

  const CHUNK: nat := 0x10_0000

  /** A 32-bit unsigned value read as a signed one. */
  function ToInt32(n: nat): (r: int)
    requires n < U32
  {
    if n < 0x8000_0000 then n else n - U32
  }

  class FrameDecoder {
    var buffer: seq<byte>
    var headerSize: nat
    var frameSize: nat
    /** The frames passed to `onPacket`, with the header size passed beside each. */
    var packets: seq<(seq<byte>, nat)>

    /** Between calls the buffer holds an incomplete frame, and the two sizes are what its bytes say. */
    ghost predicate Valid()
      reads this
    {
      && !HasFrame(buffer)
      && headerSize == (if buffer == [] then 0 else GetPacketHeaderSize(buffer[0]))
      && frameSize == (if HasHeader(buffer) then FrameLength(buffer) else 0)
    }

    constructor ()
      ensures Valid() && buffer == [] && packets == []
    {
      buffer, headerSize, frameSize := [], 0, 0;
      packets := [];
    }

    method Restart()
      modifies this`buffer, this`headerSize, this`frameSize
      ensures buffer == [] && headerSize == 0 && frameSize == 0
    {
      frameSize := 0;
      headerSize := 0;
      buffer := [];
    }

    /** What the callback sees of a list of frames. */
    static ghost function Packets(frames: seq<seq<byte>>): (r: seq<(seq<byte>, nat)>)
      ensures |r| == |frames|
      ensures forall i :: 0 <= i < |frames| ==>
                r[i] == (frames[i], if frames[i] == [] then 0 else GetPacketHeaderSize(frames[i][0]))
    {
      if frames == [] then []
      else [(frames[0], if frames[0] == [] then 0 else GetPacketHeaderSize(frames[0][0]))] + Packets(frames[1..])
    }

    /**
     One pass of the loop, up to the point where the frame is complete or the data is used up.
     `broken` records the branches that report a broken algorithm.
     */
    method Fill(data: seq<byte>) returns (used: nat, stop: bool, broken: bool)
      requires Valid() && data != []
      modifies this`buffer, this`headerSize, this`frameSize
      ensures !broken
      ensures used <= |data| && buffer == old(buffer) + data[..used]
      ensures stop ==> used == |data| && Valid()
      ensures !stop ==> used > 0 && HasFrame(buffer) && FrameLength(buffer) == |buffer|
      ensures !stop ==> headerSize == GetPacketHeaderSize(buffer[0])
    {
      hide BodySize, GetPacketHeaderSize;
      used, broken := Header(data);
      assert used == 0 ==> buffer == old(buffer);
      if |buffer| < headerSize {
        if |data| - used != 0 {
          broken := true;
        }
        return used, true, broken;
      }
      if |buffer| == headerSize {
        var bodySize := GetPacketBodySize(buffer, headerSize);
        assert buffer[..headerSize] == buffer;
        frameSize := headerSize + bodySize;
      } else if frameSize == 0 {
        broken := true;
      }
      var overrun;
      used, overrun := Body(data, used);
      broken := broken || overrun;
      stop := |buffer| != frameSize;
      if |buffer| > frameSize {
        broken := true;
      }
    }

    /** The first byte fixes the header size; then header bytes are taken as far as the data goes. */
    method Header(data: seq<byte>) returns (used: nat, broken: bool)
      requires Valid() && data != []
      modifies this`buffer, this`headerSize
      ensures !broken
      ensures used <= |data| && buffer == old(buffer) + data[..used] && buffer != []
      ensures headerSize == GetPacketHeaderSize(buffer[0])
      ensures old(HasHeader(buffer)) ==> used == 0
      ensures !old(HasHeader(buffer)) ==> used > 0 && |buffer| <= headerSize
      ensures |buffer| < headerSize ==> used == |data|
    {
      hide BodySize;
      broken := false;
      used := 0;
      if headerSize == 0 {
        if |buffer| != 0 {
          broken := true;
        }
        headerSize := GetPacketHeaderSize(data[0]);
        buffer := buffer + data[..1];
        used := 1;
      } else if |buffer| == 0 {
        broken := true;
      }
      if |buffer| < headerSize {
        var bytes := headerSize - |buffer|;
        if |data| - used < bytes {
          bytes := |data| - used;
        }
        buffer := buffer + data[used..used + bytes];
        used := used + bytes;
      }
    }

    /** Appends body bytes up to the end of the frame. */
    method Body(data: seq<byte>, start: nat) returns (used: nat, broken: bool)
      requires start <= |data|
      requires HasHeader(buffer) && frameSize == FrameLength(buffer)
      modifies this`buffer
      ensures broken <==> old(|buffer|) >= frameSize
      ensures start <= used <= |data| && buffer == old(buffer) + data[start..used]
      ensures HasHeader(buffer) && FrameLength(buffer) == frameSize
      ensures old(|buffer|) < frameSize ==> |buffer| <= frameSize && (|buffer| < frameSize ==> used == |data|)
    {
      hide BodySize, GetPacketHeaderSize;
      used, broken := start, false;
      if |buffer| < frameSize {
        var bytes := frameSize - |buffer|;
        if bytes > |data| - used {
          bytes := |data| - used;
        }
        if bytes > frameSize {
          broken := true;
        }
        FrameExtends(buffer, data[used..used + bytes]);
        buffer := buffer + data[used..used + bytes];
        used := used + bytes;
      } else {
        broken := true;
      }
    }

    /**
     Consumes a chunk.  A length that reads as negative in 32-bit signed arithmetic is fed in pieces
     of one mebibyte first.
     */
    method PushData(data: seq<byte>, onPacket: bool) returns (broken: bool)
      requires Valid() && |data| < U32
      modifies this
      ensures Valid() && !broken
      ensures buffer == Parse(old(buffer) + data).rest
      ensures packets == old(packets) + if onPacket then Packets(Parse(old(buffer) + data).frames) else []
      decreases |data|
    {
      hide Parse, Packets, HasFrame, BodySize;
      broken := false;
      var rest := data;
      var length := ToInt32(|rest|);
      while length < 0
        invariant Valid() && !broken && |rest| <= |data| && length == ToInt32(|rest|)
        invariant Progress(old(buffer) + data, old(packets), buffer + rest, packets, onPacket)
        decreases |rest|
      {
        ghost var before, sent := buffer, packets;
        var b := PushData(rest[..CHUNK], onPacket);
        broken := broken || b;
        Advance(old(buffer) + data, old(packets), before, rest, CHUNK, sent, onPacket);
        rest := rest[CHUNK..];
        length := ToInt32(|rest|);
      }
      while length > 0
        invariant Valid() && !broken && length == |rest|
        invariant Progress(old(buffer) + data, old(packets), buffer + rest, packets, onPacket)
        decreases |rest|
      {
        ghost var before, sent := buffer, packets;
        var used, stop, b := Fill(rest);
        broken := broken || b;
        if !stop {
          WholeFrame(buffer);
          Advance(old(buffer) + data, old(packets), before, rest, used, sent, onPacket);
        } else {
          assert before + rest == buffer + rest[used..];
        }
        rest := rest[used..];
        length := length - used;
        if stop {
          break;
        }
        if onPacket {
          packets := packets + [(buffer, headerSize)];
        }
        Restart();
      }
      if length < 0 {
        broken := true;
      }
      assert buffer + rest == buffer;
      Unfinished(buffer);
    }

    /** Parsing `now` after having sent `packets` completes what parsing `whole` after `sent` gives. */
    static ghost predicate Progress(whole: seq<byte>, sent: seq<(seq<byte>, nat)>, now: seq<byte>,
                                    packets: seq<(seq<byte>, nat)>, onPacket: bool)
    {
      && Parse(now).rest == Parse(whole).rest
      && (onPacket ==> sent + Packets(Parse(whole).frames) == packets + Packets(Parse(now).frames))
      && (!onPacket ==> packets == sent)
    }

    static lemma Advance(whole: seq<byte>, sent: seq<(seq<byte>, nat)>, buffer: seq<byte>, rest: seq<byte>, n: nat,
                         packets: seq<(seq<byte>, nat)>, onPacket: bool)
      requires n <= |rest| && Progress(whole, sent, buffer + rest, packets, onPacket)
      ensures var p := Parse(buffer + rest[..n]);
              Progress(whole, sent, p.rest + rest[n..], if onPacket then packets + Packets(p.frames) else packets,
                       onPacket)
    {
      hide Parse, Packets;
      var p := Parse(buffer + rest[..n]);
      assert buffer + rest == buffer + rest[..n] + rest[n..];
      ChunkIndependence(buffer + rest[..n], rest[n..]);
      PacketsAppend(p.frames, Parse(p.rest + rest[n..]).frames);
    }

    static lemma PacketsAppend(a: seq<seq<byte>>, b: seq<seq<byte>>)
      ensures Packets(a + b) == Packets(a) + Packets(b)
    {
    }

    static lemma Unfinished(s: seq<byte>)
      requires !HasFrame(s)
      ensures Parse(s) == Parsed([], s) && Packets([]) == []
    {
    }

    static lemma WholeFrame(frame: seq<byte>)
      requires HasFrame(frame) && FrameLength(frame) == |frame|
      ensures Parse(frame) == Parsed([frame], [])
      ensures Packets([frame]) == [(frame, GetPacketHeaderSize(frame[0]))]
    {
      assert frame[..|frame|] == frame;
      assert !HasFrame([]);
    }
  }
}
