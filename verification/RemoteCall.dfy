/**
 A remote call on its way (`CommandCallSend::Execute` in `RPCEnvironment.hpp`): its callback is
 registered under a fresh id, the id is stamped into the first four bytes of the body, the buffer
 becomes a frame, and the frame goes to the sender of the connection.
 */
module RemoteCalls {
  import opened Bits
  import opened Framing
  import opened FlatHashMaps
  import opened ByteBuffers
  import Rpc = RpcCalls
  import Wire = EndToEnd

  const FLAGS_CALL: nat := 2

  /** How the byte library writes 32-bit numbers. */
  datatype NumberCode = NumberCode(write: nat -> seq<byte>, read: seq<byte> -> nat)

  /** Four bytes for every number, and they can be read back. */
  ghost predicate ReadsBack(code: NumberCode) {
    forall x: nat :: x < U32 ==> |code.write(x)| == 4 && code.read(code.write(x)) == x
  }

  /** The type bits of a call with these flags. */
  function CallKind(flags: nat): (r: nat) {
    And(Or(flags, FLAGS_CALL), 6)
  }

  /** A call is marked as one, unless the caller's flags claim the other type bit too. */
  lemma CallKindValue(flags: nat)
    ensures CallKind(flags) == if flags / 4 % 2 == 0 then FLAGS_CALL else 6
  {
    OrTwo(flags);
    hide Or, And;
    KindBits(Or(flags, FLAGS_CALL));
  }

  /** Setting the second bit. */
  lemma OrTwo(x: nat)
    ensures Or(x, 2) == x % 2 + 2 + 4 * (x / 4)
  {
    assert Or(x, 2) == x % 2 + 2 * Or(x / 2, 1);
    assert Or(x / 2, 1) == 1 + 2 * Or(x / 2 / 2, 0);
    OrZero(x / 2 / 2);
  }

  class Caller {
    const calls: Rpc.RpcPeer
    const line: Wire.Connection
    const code: NumberCode
    /** For every message sent, the callback it asks for, or 0 for a message that asks for none. */
    ghost var askers: seq<nat>

    /** Every call sent carries the id its callback was registered under. */
    ghost predicate Valid()
      reads this, calls, calls.pending, line, line.sender, line.decoder
    {
      && calls.Valid() && line.Valid() && ReadsBack(code)
      && Stamped(askers, line.sent, calls.registered, code)
    }

    static ghost predicate Stamped(askers: seq<nat>, sent: seq<Message>, registered: map<nat, nat>, code: NumberCode) {
      && |askers| == |sent|
      && forall k :: 0 <= k < |askers| && askers[k] != 0 ==>
           askers[k] in registered && registered[askers[k]] < U32 && code.write(registered[askers[k]]) <= sent[k].body
    }

    constructor (hash: nat -> nat, code: NumberCode, capacity: nat, eager: bool)
      requires ReadsBack(code) && 0 < capacity < 0x8000_0000
      ensures Valid() && this.code == code && askers == []
    {
      calls := new Rpc.RpcPeer(hash);
      line := new Wire.Connection(capacity, eager);
      this.code := code;
      askers := [];
    }

    /**
     The call: one more pending callback, and one more message whose first bytes are its id, unless
     the peer is disconnecting, which drops the message but leaves the callback waiting.
     */
    method CallSend(buffer: ByteBufferWritable, flags: nat, deadline: int, queue: nat) returns (id: nat)
      requires Valid() && calls.pending.CanGrow() && |calls.pending.Contents()| < U32 - 1
      requires buffer.Valid() && 4 <= buffer.size <= MAX_BODY
      requires buffer.offset >= STORAGE_HEADER + GetHeaderSize(buffer.size) ||
                 GetHeaderSize(buffer.size) + buffer.capacity < LIMIT
      modifies this, calls, calls.pending, line, line.sender, buffer, buffer.Own()
      ensures Valid() && 0 < id < U32
      ensures calls.State() == Rpc.Registered(old(calls.State()), id, deadline, queue)
      ensures if line.sender.disconnecting then line.sent == old(line.sent) && askers == old(askers) else
                && line.sent == old(line.sent) + [Message(CallKind(flags), code.write(id) + old(buffer.Bytes())[4..])]
                && askers == old(askers) + [old(calls.nextHandle)]
    {
      hide Rpc.RpcPeer.Valid, FlatHashMap.Valid, Wire.Connection.Valid;
      hide ByteBufferWritable.Bytes, CallKind, Encode, Rpc.NextFree;
      hide Stamped, ValidMessage;
      NewHandle();
      id := calls.Call(deadline, queue);
      ghost var h := old(calls.nextHandle);
      ghost var m := Message(CallKind(flags), code.write(id) + old(buffer.Bytes())[4..]);
      StampedRegistered(askers, line.sent, old(calls.registered), code, h, id);
      StampedMore(askers, line.sent, calls.registered, code, h, m);
      var frame := Frame(buffer, id, flags);
      line.Accept(frame, m);
      if !line.sender.disconnecting {
        askers := askers + [h];
      }
    }

    lemma NewHandle()
      requires calls.Valid()
      ensures calls.nextHandle !in calls.registered && calls.nextHandle != 0
    {
    }

    static lemma StampedRegistered(askers: seq<nat>, sent: seq<Message>, registered: map<nat, nat>, code: NumberCode,
                                   h: nat, id: nat)
      requires Stamped(askers, sent, registered, code) && h !in registered
      ensures Stamped(askers, sent, registered[h := id], code)
    {
    }

    static lemma StampedMore(askers: seq<nat>, sent: seq<Message>, registered: map<nat, nat>, code: NumberCode, h: nat,
                             m: Message)
      requires Stamped(askers, sent, registered, code)
      requires h != 0 ==> h in registered && registered[h] < U32 && code.write(registered[h]) <= m.body
      ensures Stamped(askers + [h], sent + [m], registered, code)
    {
    }

    /** Stamps the id over the first bytes and puts the header in front. */
    method Frame(buffer: ByteBufferWritable, id: nat, flags: nat) returns (frame: seq<byte>)
      requires ReadsBack(code) && id < U32
      requires buffer.Valid() && 4 <= buffer.size <= MAX_BODY
      requires buffer.offset >= STORAGE_HEADER + GetHeaderSize(buffer.size) ||
                 GetHeaderSize(buffer.size) + buffer.capacity < LIMIT
      modifies buffer, buffer.Own()
      ensures var m := Message(CallKind(flags), code.write(id) + old(buffer.Bytes())[4..]);
              ValidMessage(m) && frame == Encode(m)
    {
      CallKindValue(flags);
      hide And, Or, Encode;
      buffer.StoreFront(code.write(id));
      buffer.WriteHeaderIntoBuffer(Or(flags, FLAGS_CALL));
      frame := buffer.Copy();
    }

    /** A message that asks for no answer. */
    method Tell(m: Message)
      requires Valid() && ValidMessage(m)
      modifies this, line, line.sender
      ensures Valid() && line.sent == if line.sender.disconnecting then old(line.sent) else old(line.sent) + [m]
      ensures calls.State() == old(calls.State())
    {
      hide Rpc.RpcPeer.Valid, Wire.Connection.Valid, Encode, Stamped;
      StampedMore(askers, line.sent, calls.registered, code, 0, m);
      line.Accept(Encode(m), m);
      if !line.sender.disconnecting {
        askers := askers + [0];
      }
    }

    /** Anything else that can happen on the line. */
    method Proceed(e: Wire.Event) returns (broken: bool)
      requires Valid() && !e.Send?
      modifies line, line.sender, line.decoder
      ensures Valid() && !broken && line.sent == old(line.sent)
    {
      hide Rpc.RpcPeer.Valid, Wire.Connection.Valid, Stamped;
      broken := line.Step(e);
    }

    /** Whatever happened on the line, a delivered call carries the id its callback was registered under. */
    lemma CallsArrive(k: nat)
      requires Valid() && k < |line.Delivered()|
      ensures k < |askers| && line.Delivered()[k] == line.sent[k]
      ensures askers[k] != 0 ==> var m := line.Delivered()[k];
                |m.body| >= 4 && askers[k] in calls.registered && code.read(m.body[..4]) == calls.registered[askers[k]]
    {
      line.DeliveredInOrder();
      hide Rpc.RpcPeer.Valid, Wire.Connection.Valid;
      if askers[k] != 0 {
        var id := calls.registered[askers[k]];
        assert line.sent[k].body[..4] == code.write(id);
      }
    }

    /**
     The answer to the `k`-th delivered call runs the callback that waits under its id: its own exactly
     when that has not run yet.  A late answer, after the timeout, runs nothing, unless the id has come
     round to another pending call, which it then ends.
     */
    method Answer(k: nat)
      requires Valid() && k < |line.Delivered()| && k < |askers| && askers[k] != 0
      modifies calls, calls.pending
      ensures Valid()
      ensures askers[k] in old(calls.registered)
      ensures var id, pending := old(calls.registered)[askers[k]], old(calls.pending.Contents());
              && (id in pending ==> calls.State() == Rpc.Fired(old(calls.State()), id, false))
              && (id !in pending ==> calls.State() == old(calls.State()))
              && (!Rpc.HasFired(old(calls.fired), askers[k]) <==> id in pending && pending[id].handle == askers[k])
    {
      hide FlatHashMap.Valid, FlatHashMap.Contents, Wire.Connection.Valid, Rpc.RpcPeer.Valid, Rpc.HasFired, Stamped;
      CallsArrive(k);
      var m := Wire.ReadPacket(line.decoder.packets[k]);
      var id := code.read(m.body[..4]);
      PendingUnlessFired(askers[k]);
      PendingValid();
      calls.OnReceiveReturn(id);
    }

    lemma PendingValid()
      requires calls.Valid()
      ensures calls.pending.Valid()
    {
    }

    lemma PendingUnlessFired(h: nat)
      requires calls.Valid() && h in calls.registered
      ensures var id, pending := calls.registered[h], calls.pending.Contents();
              !Rpc.HasFired(calls.fired, h) <==> id in pending && pending[id].handle == h
    {
    }
  }
}
