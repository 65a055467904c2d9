/** One direction of a connection: a sending peer, the bytes in flight, and the receiver's decoder. */
module EndToEnd {
  import opened Bits
  import opened Framing
  import opened FrameStream
  import opened FrameDecoders
  import opened TcpPeers

  /**
   What can happen: the application sends, the socket becomes writable, any number of bytes arrive,
   the peer changes state.
   */
  datatype Event =
    | Send(message: Message)
    | Writable
    | Arrive(bytes: nat)
    | Ready
    | Disconnect
    | Close

  /** What the receiving side reads from a packet: type bits and body. */
  function ReadPacket(p: (seq<byte>, nat)): (m: Message) {
    if p.0 == [] || p.1 > |p.0| then Message(0, []) else ReadFrame(p.0, p.1)
  }

  function ReadAll(packets: seq<(seq<byte>, nat)>): (ms: seq<Message>)
    ensures |ms| == |packets|
  {
    seq(|packets|, i requires 0 <= i < |packets| => ReadPacket(packets[i]))
  }

  lemma ReadEncoded(m: Message)
    requires ValidMessage(m)
    ensures Encode(m) != [] && ReadPacket((Encode(m), GetPacketHeaderSize(Encode(m)[0]))) == m
  {
    EncodedFrame(m);
    hide Encode;
  }

  /** The packets of the first frames read back as the first messages. */
  lemma ReadFrames(ms: seq<Message>, frames: seq<seq<byte>>)
    requires AllValid(ms) && frames <= Frames(ms)
    ensures ReadAll(FrameDecoder.Packets(frames)) <= ms
  {
    var got := ReadAll(FrameDecoder.Packets(frames));
    forall i | 0 <= i < |frames| ensures got[i] == ms[i] { ReadEncoded(ms[i]); }
  }

  /** The messages of a run that a sender accepts: those sent before it disconnects or is closed. */
  ghost function AcceptedOf(events: seq<Event>, disconnecting: bool): (ms: seq<Message>) {
    if events == [] then [] else
      var n := |events| - 1;
      AcceptedOf(events[..n], disconnecting) +
      if events[n].Send? && !disconnecting && Disconnect !in events[..n] && Close !in events[..n]
      then [events[n].message] else []
  }

  lemma NoneYet(disconnecting: bool)
    ensures AcceptedOf([], disconnecting) == []
  {
  }

  lemma OneMore(events: seq<Event>, i: nat, disconnecting: bool)
    requires i < |events|
    ensures forall e :: e in events[..i + 1] <==> e in events[..i] || e == events[i]
    ensures AcceptedOf(events[..i + 1], disconnecting) == AcceptedOf(events[..i], disconnecting) +
              if events[i].Send? && !disconnecting && Disconnect !in events[..i] && Close !in events[..i]
              then [events[i].message] else []
  {
    assert events[..i + 1] == events[..i] + [events[i]] && events[..i + 1][..i] == events[..i];
  }

  /** How many writable events empty a sender of `backlog` frames whose socket takes everything. */
  function Rounds(backlog: nat, staged: bool): (r: nat) {
    if backlog > 0 then (backlog + FLUSH_BATCH - 1) / FLUSH_BATCH else if staged then 1 else 0
  }

  class Connection {
    const sender: TcpPeer
    const decoder: FrameDecoder
    /** How much of what the socket took has arrived. */
    var arrived: nat
    /** The messages `Send` accepted. */
    ghost var sent: seq<Message>

    ghost predicate Valid()
      reads this, sender, decoder
    {
      && sender.Valid() && decoder.Valid()
      && AllValid(sent) && sender.accepted == Frames(sent)
      && arrived <= |sender.wire|
      && decoder.packets == FrameDecoder.Packets(Parse(sender.wire[..arrived]).frames)
      && decoder.buffer == Parse(sender.wire[..arrived]).rest
      && sender.idleFlushes == 0 && sender.overtakes == 0
    }

    /** The messages handed to the receiving application. */
    ghost function Delivered(): (r: seq<Message>)
      reads decoder
    {
      ReadAll(decoder.packets)
    }

    /**
     In every reachable state the delivered messages are the first of those sent, in order, with
     the same type and body; all of them once the sender is drained and everything has arrived.
     */
    lemma DeliveredInOrder()
      requires Valid()
      ensures Delivered() <= sent
      ensures !sender.HasQueuedSends() && !sender.HasBufferedSends() && arrived == |sender.wire| ==> Delivered() == sent
    {
      sender.Drained();
      var wire := sender.wire[..arrived];
      ArrivedPrefix(sent, wire);
      ReadFrames(sent, Parse(wire).frames);
      hide Parse, Concat, AllValid;
      assert arrived == |sender.wire| ==> wire == sender.wire;
    }

    constructor (capacity: nat, eager: bool)
      requires 0 < capacity < 0x8000_0000
      ensures Valid() && fresh(sender) && fresh(decoder) && sent == [] && arrived == 0
      ensures sender.eager == eager && sender.open && !sender.ready && !sender.disconnecting && !sender.closed
      ensures sender.Backlog() == 0 && !sender.HasBufferedSends()
    {
      sender := new TcpPeer(capacity, eager);
      decoder := new FrameDecoder();
      arrived, sent := 0, [];
    }

    /** One event; a disconnecting peer refuses messages. */
    method Step(e: Event) returns (broken: bool)
      requires Valid() && (e.Send? ==> ValidMessage(e.message))
      modifies this, sender, decoder
      ensures Valid() && !broken
      ensures sent == if e.Send? && !old(sender.disconnecting) then old(sent) + [e.message] else old(sent)
      ensures old(decoder.packets) <= decoder.packets && arrived >= old(arrived)
      ensures e.Arrive? && e.bytes >= |sender.wire| - old(arrived) && |sender.wire| - old(arrived) < U32 ==>
                arrived == |sender.wire|
      ensures sender.ready == (old(sender.ready) || e.Ready?)
      ensures sender.disconnecting == (old(sender.disconnecting) || e.Disconnect? || e.Close?)
      ensures sender.open == (old(sender.open) && !e.Close?) && sender.closed == (old(sender.closed) || e.Close?)
      ensures !e.Writable? ==>
                sender.wire == old(sender.wire) && sender.HasBufferedSends() == old(sender.HasBufferedSends())
      ensures !e.Writable? ==> sender.Backlog() == old(sender.Backlog()) + |sent| - |old(sent)|
      ensures e.Writable? && old(sender.Willing()) ==>
                !sender.HasBufferedSends() &&
                sender.Backlog() == if old(sender.Drainable()) then 0 else old(sender.Backlog()) - FLUSH_BATCH
    {
      hide Encode, Concat, Parse, FrameDecoder.Packets, Tails, HasFrame;
      broken := false;
      match e
      case Send(m) =>
        Accept(Encode(m), m);
      case Writable =>
        var _ := sender.OnWritable();
        assert sender.wire[..arrived] == old(sender.wire[..arrived]);
      case Arrive(n) =>
        broken := Receive(n);
      case Ready =>
        sender.ready := true;
      case Disconnect =>
        sender.disconnecting := true;
      case Close =>
        sender.open, sender.disconnecting, sender.closed := false, true, true;
    }

    /** A frame, which is that of message `m`, is given to the sender. */
    method Accept(frame: seq<byte>, ghost m: Message)
      requires Valid() && ValidMessage(m) && frame == Encode(m)
      modifies this`sent, sender`globalQueue, sender`accepted
      ensures Valid() && sent == if sender.disconnecting then old(sent) else old(sent) + [m]
      ensures sender.Backlog() == old(sender.Backlog()) + |sent| - |old(sent)|
    {
      hide Encode, Concat, Parse, FrameDecoder.Packets, Tails, HasFrame;
      sender.Send(frame);
      if !sender.disconnecting {
        assert Frames(sent + [m]) == Frames(sent) + [Encode(m)];
        sent := sent + [m];
      }
    }

    /** The next bytes on the wire, cut anywhere, reach the decoder. */
    method Receive(n: nat) returns (broken: bool)
      requires Valid()
      modifies this`arrived, decoder
      ensures Valid() && !broken
      ensures old(decoder.packets) <= decoder.packets
      ensures var left := |sender.wire| - old(arrived);
              arrived == old(arrived) + if n < left && n < U32 then n else if left < U32 then left else U32 - 1
    {
      hide Concat, Parse, Frames, AllValid, FrameDecoder.Packets, Tails, HasFrame;
      ghost var before := sender.wire[..arrived];
      var chunk := if n < U32 then n else U32 - 1;
      if chunk > |sender.wire| - arrived {
        chunk := |sender.wire| - arrived;
      }
      var data := sender.wire[arrived..arrived + chunk];
      ChunkIndependence(before, data);
      FrameDecoder.PacketsAppend(Parse(before).frames, Parse(Parse(before).rest + data).frames);
      broken := decoder.PushData(data, true);
      arrived := arrived + chunk;
      assert sender.wire[..arrived] == before + data;
    }

    /**
     Every run of events, with any socket behaviour and any cutting of the stream: the receiver has got
     the first of the messages accepted before or during the run, and keeps them.
     */
    method Run(events: seq<Event>) returns (broken: bool)
      requires Valid() && forall i :: 0 <= i < |events| && events[i].Send? ==> ValidMessage(events[i].message)
      modifies this, sender, decoder
      ensures Valid() && !broken
      ensures sent == old(sent) + AcceptedOf(events, old(sender.disconnecting))
      ensures Delivered() <= sent && old(Delivered()) <= Delivered()
      ensures !sender.HasQueuedSends() && !sender.HasBufferedSends() && arrived == |sender.wire| ==> Delivered() == sent
      ensures sender.ready == (old(sender.ready) || Ready in events)
      ensures sender.disconnecting == (old(sender.disconnecting) || Disconnect in events || Close in events)
      ensures sender.open == (old(sender.open) && Close !in events)
      ensures sender.closed == (old(sender.closed) || Close in events)
      ensures Writable !in events ==> sender.Backlog() == old(sender.Backlog()) + |sent| - |old(sent)|
      ensures Writable !in events ==> sender.HasBufferedSends() == old(sender.HasBufferedSends())
    {
      hide TcpPeer.Valid, FrameDecoder.Valid, Valid, TcpPeer.HasBufferedSends, TcpPeer.Backlog, ReadAll, AcceptedOf;
      broken := false;
      assert events[..0] == [] && AcceptedOf([], sender.disconnecting) == [] by { NoneYet(sender.disconnecting); }
      for i := 0 to |events|
        invariant Valid() && !broken && old(decoder.packets) <= decoder.packets
        invariant sent == old(sent) + AcceptedOf(events[..i], old(sender.disconnecting))
        invariant sender.ready == (old(sender.ready) || Ready in events[..i])
        invariant sender.disconnecting ==
                    (old(sender.disconnecting) || Disconnect in events[..i] || Close in events[..i])
        invariant sender.open == (old(sender.open) && Close !in events[..i])
        invariant sender.closed == (old(sender.closed) || Close in events[..i])
        invariant Writable !in events[..i] ==> sender.Backlog() == old(sender.Backlog()) + |sent| - |old(sent)|
        invariant Writable !in events[..i] ==> sender.HasBufferedSends() == old(sender.HasBufferedSends())
      {
        OneMore(events, i, old(sender.disconnecting));
        var b := Step(events[i]);
        broken := broken || b;
      }
      assert events[..|events|] == events;
      DeliveredInOrder();
      ReadPrefix(old(decoder.packets), decoder.packets);
    }

    /**
     With a socket that takes everything: the backlog goes out in batches, one per writable event, and
     once all bytes have arrived every message has been delivered.
     */
    method Settle() returns (broken: bool, writables: nat)
      requires Valid() && sender.Willing()
      modifies this, sender, decoder
      ensures Valid() && !broken && sent == old(sent) && Delivered() == sent
      ensures old(sender.Backlog()) >= 0 && writables == Rounds(old(sender.Backlog()), old(sender.HasBufferedSends()))
    {
      QueuedBacklog();
      broken, writables := Flush();
      QueuedBacklog();
      while arrived < |sender.wire|
        invariant Valid() && !broken && sent == old(sent)
        invariant !sender.HasBufferedSends() && !sender.HasQueuedSends()
        decreases |sender.wire| - arrived
      {
        hide Valid, TcpPeer.HasQueuedSends, TcpPeer.HasBufferedSends;
        var b := Receive(|sender.wire|);
        broken := broken || b;
      }
      DeliveredInOrder();
    }

    lemma QueuedBacklog()
      requires Valid()
      ensures sender.Backlog() >= 0 && (sender.HasQueuedSends() <==> sender.Backlog() > 0) && arrived <= |sender.wire|
    {
    }

    /** Writable events until nothing is queued or staged. */
    method Flush() returns (broken: bool, writables: nat)
      requires Valid() && sender.Willing() && sender.Backlog() >= 0
      modifies this, sender, decoder
      ensures Valid() && !broken && sent == old(sent)
      ensures sender.Backlog() == 0 && !sender.HasBufferedSends()
      ensures writables == Rounds(old(sender.Backlog()), old(sender.HasBufferedSends()))
    {
      hide Valid, TcpPeer.HasBufferedSends, TcpPeer.HasQueuedSends;
      broken, writables := false, 0;
      while sender.Backlog() > 0 || sender.HasBufferedSends()
        invariant Valid() && !broken && sent == old(sent) && sender.Willing() && sender.Backlog() >= 0
        invariant writables + Rounds(sender.Backlog(), sender.HasBufferedSends()) ==
                    Rounds(old(sender.Backlog()), old(sender.HasBufferedSends()))
        decreases Rounds(sender.Backlog(), sender.HasBufferedSends())
      {
        var b := Step(Writable);
        broken, writables := broken || b, writables + 1;
      }
    }
  }

  /** What was read from fewer packets is the first part of what is read from more. */
  lemma ReadPrefix(a: seq<(seq<byte>, nat)>, b: seq<(seq<byte>, nat)>)
    requires a <= b
    ensures ReadAll(a) <= ReadAll(b)
  {
  }

  /** From a new connection to the last message: every list of messages arrives whole and in order. */
  method Transfer(capacity: nat, messages: seq<Message>) returns (c: Connection, broken: bool, writables: nat)
    requires 0 < capacity < 0x8000_0000 && AllValid(messages)
    ensures fresh(c) && c.Valid() && !broken && c.Delivered() == messages && writables == Rounds(|messages|, false)
  {
    var events := SendAll(messages);
    SendAllAccepted(messages);
    c := new Connection(capacity, true);
    hide Connection.Valid, AcceptedOf, TcpPeer.Backlog, TcpPeer.HasBufferedSends;
    hide TcpPeer.HasQueuedSends, Rounds, SendAll, ReadAll;
    broken := c.Run(events);
    var b;
    b, writables := c.Settle();
    broken := broken || b;
  }

  /** The peer becomes ready and the messages are sent. */
  function SendAll(messages: seq<Message>): (events: seq<Event>) {
    [Ready] + seq(|messages|, i requires 0 <= i < |messages| => Send(messages[i]))
  }

  lemma SendAllAccepted(messages: seq<Message>)
    requires AllValid(messages)
    ensures AcceptedOf(SendAll(messages), false) == messages
    ensures var events := SendAll(messages);
            && Ready in events && Disconnect !in events && Close !in events && Writable !in events
            && forall i :: 0 <= i < |events| && events[i].Send? ==> ValidMessage(events[i].message)
  {
    var events := SendAll(messages);
    assert events[0] == Ready && events[..|events|] == events && messages[..|messages|] == messages;
    AcceptedSoFar(messages, |events|);
  }

  lemma {:induction false} AcceptedSoFar(messages: seq<Message>, n: nat)
    requires 1 <= n <= |messages| + 1
    ensures AcceptedOf(SendAll(messages)[..n], false) == messages[..n - 1]
  {
    var events := SendAll(messages);
    assert events[..n][..n - 1] == events[..n - 1];
    if n > 1 {
      AcceptedSoFar(messages, n - 1);
      assert Disconnect !in events[..n - 1] && Close !in events[..n - 1];
      assert messages[..n - 1] == messages[..n - 2] + [messages[n - 2]];
    }
  }
}
