/**
 The channel-backed packet TUN: two bounded queues of owned buffers and a one-shot close. `select` may take any
 ready case; where a send or receive and the close are both ready, `pick` says whether the packet case won.
 */
module PacketTun {
  import opened Bytes

  /** One direction of a device, with everything it ever accepted and handed out. */
  datatype Queue = Queue(depth: nat, items: seq<seq<Byte>>, accepted: seq<seq<Byte>>, taken: seq<seq<Byte>>)

  datatype SendResult = Sent | ErrClosed | ErrQueueFull

  /** Accepted packets leave in order, once each, and the bound holds. */
  predicate Fifo(q: Queue) {
    |q.items| <= q.depth && q.accepted == q.taken + q.items
  }

  function Push(q: Queue, packet: seq<Byte>): Queue {
    q.(items := q.items + [packet], accepted := q.accepted + [packet])
  }

  function Pop(q: Queue): Queue
    requires q.items != []
  {
    q.(items := q.items[1..], taken := q.taken + [q.items[0]])
  }

  /** `TryInject`: never blocks. */
  function TrySend(q: Queue, closed: bool, packet: seq<Byte>, pick: bool): (Queue, SendResult) {
    if |q.items| < q.depth && (!closed || pick) then (Push(q, packet), Sent)
    else (q, if closed then ErrClosed else ErrQueueFull)
  }

  lemma SendKeepsFifo(q: Queue, closed: bool, packet: seq<Byte>, pick: bool)
    requires Fifo(q)
    ensures var (r, result) := TrySend(q, closed, packet, pick);
            && Fifo(r) && r.taken == q.taken && r.depth == q.depth
            && r.accepted == (if result == Sent then q.accepted + [packet] else q.accepted)
            && (result == ErrQueueFull ==> !closed && |q.items| == q.depth)
            && (result == ErrClosed ==> closed)
  {
    var (r, _) := TrySend(q, closed, packet, pick);
    assert r.accepted == r.taken + r.items;
  }

  lemma PopKeepsFifo(q: Queue)
    requires Fifo(q) && q.items != []
    ensures Fifo(Pop(q)) && Pop(q).accepted == q.accepted && Pop(q).depth == q.depth
    ensures q.accepted[|q.taken|] == q.items[0]
  {
    assert Pop(q).taken + Pop(q).items == q.accepted;
  }

  datatype ReadResult = ReadOk | ReadBadBatch | ReadShort | ReadEof

  class Device {
    const depth: nat
    var toEngine: seq<array<Byte>>
    var fromEngine: seq<array<Byte>>
    var closed: bool
    ghost var toAccepted: seq<seq<Byte>>
    ghost var toTaken: seq<seq<Byte>>
    ghost var fromAccepted: seq<seq<Byte>>
    ghost var fromTaken: seq<seq<Byte>>

    /** The queue that `Read` drains. */
    ghost function ToEngine(): Queue
      reads this, toEngine
    {
      Queue(depth, Contents(toEngine), toAccepted, toTaken)
    }

    /** The queue that `Receive` drains. */
    ghost function FromEngine(): Queue
      reads this, fromEngine
    {
      Queue(depth, Contents(fromEngine), fromAccepted, fromTaken)
    }

    static ghost function Contents(ch: seq<array<Byte>>): (r: seq<seq<Byte>>)
      reads ch
      ensures |r| == |ch|
    {
      seq(|ch|, i requires 0 <= i < |ch| reads ch => ch[i][..])
    }

    static ghost predicate Distinct(ch: seq<array<Byte>>) {
      forall i, j :: 0 <= i < j < |ch| ==> ch[i] != ch[j]
    }

    ghost predicate Valid()
      reads this, toEngine, fromEngine
    {
      && depth > 0 && Fifo(ToEngine()) && Fifo(FromEngine())
      && Distinct(toEngine) && Distinct(fromEngine)
      && (forall b :: b in toEngine ==> b !in fromEngine)
    }

    /** A buffer no queue of this device holds, so that writing to it changes no queued packet. */
    ghost predicate Foreign(b: array<Byte>)
      reads this
    {
      b !in toEngine && b !in fromEngine
    }

    constructor (queueDepth: int)
      ensures Valid() && !closed && depth == if queueDepth < 1 then 1 else queueDepth
      ensures toEngine == [] && fromEngine == []
      ensures toAccepted == [] && toTaken == [] && fromAccepted == [] && fromTaken == []
    {
      depth := if queueDepth < 1 then 1 else queueDepth;
      toEngine, fromEngine, closed := [], [], false;
      toAccepted, toTaken, fromAccepted, fromTaken := [], [], [], [];
    }

    static method Copy(packet: array<Byte>, from: nat) returns (p: array<Byte>)
      requires from <= packet.Length
      ensures fresh(p) && p[..] == packet[from..]
    {
      p := new Byte[packet.Length - from](i requires 0 <= i < packet.Length - from reads packet => packet[from + i]);
    }

    /** `TryInject`: the queued bytes are a copy, owned by the device. */
    method TryInject(packet: array<Byte>, pick: bool) returns (result: SendResult)
      requires Valid() && Foreign(packet)
      modifies this
      ensures Valid() && Foreign(packet) && closed == old(closed)
      ensures (ToEngine(), result) == TrySend(old(ToEngine()), closed, packet[..], pick)
      ensures FromEngine() == old(FromEngine())
      ensures forall b: array<Byte> :: old(allocated(b)) && old(Foreign(b)) ==> Foreign(b)
    {
      ghost var before := ToEngine();
      SendKeepsFifo(before, closed, packet[..], pick);
      var p := Copy(packet, 0);
      if |toEngine| < depth && (!closed || pick) {
        toEngine := toEngine + [p];
        toAccepted := toAccepted + [p[..]];
        assert ToEngine().items == before.items + [packet[..]];
        return Sent;
      }
      return if closed then ErrClosed else ErrQueueFull;
    }

    /**
     `Read` into the first buffer of the batch; it blocks until a packet or the close is there. `size` is sizes[0].
     */
    method Read(bufs: seq<array<Byte>>, sizesLength: nat, offset: nat, pick: bool)
      returns (result: ReadResult, size: nat)
      requires Valid() && (forall b :: b in bufs ==> Foreign(b))
      requires toEngine != [] || closed
      modifies this, bufs
      ensures Valid() && closed == old(closed) && FromEngine() == old(FromEngine())
      ensures result == ReadBadBatch <==> bufs == [] || sizesLength < |bufs|
      ensures result in {ReadBadBatch, ReadEof} ==> ToEngine() == old(ToEngine())
      ensures result in {ReadOk, ReadShort} ==>
                old(toEngine) != [] && ToEngine() == Pop(old(ToEngine()))
      ensures result == ReadEof <==> bufs != [] && sizesLength >= |bufs| && closed && (old(toEngine) == [] || !pick)
      ensures result == ReadShort ==> bufs[0].Length < offset + |old(ToEngine()).items[0]|
      ensures forall b :: b in bufs && !(result == ReadOk && b == bufs[0]) ==> b[..] == old(b[..])
      ensures result == ReadOk ==>
                var p := old(ToEngine()).items[0];
                && offset + |p| <= bufs[0].Length && size == |p|
                && bufs[0][..] == old(bufs[0][..offset]) + p + old(bufs[0][offset + |p|..])
    {
      if |bufs| == 0 || sizesLength < |bufs| {
        return ReadBadBatch, 0;
      }
      assert bufs[0] in bufs && Foreign(bufs[0]);
      if |toEngine| > 0 && (!closed || pick) {
        PopKeepsFifo(ToEngine());
        var p := toEngine[0];
        ghost var before := ToEngine();
        toTaken := toTaken + [p[..]];
        toEngine := toEngine[1..];
        assert ToEngine() == Pop(before);
        if bufs[0].Length < offset + p.Length {
          return ReadShort, 0;
        }
        var b := bufs[0];
        assert b !in toEngine && b !in fromEngine by {
          assert forall k :: 0 <= k < |toEngine| ==> toEngine[k] == old(toEngine)[k + 1];
        }
        forall i | 0 <= i < p.Length {
          b[offset + i] := p[i];
        }
        assert ToEngine().items == Pop(before).items;
        return ReadOk, p.Length;
      }
      return ReadEof, 0;
    }

    /** One buffer of `Write`: blocks until there is room or the device is closed. */
    method Send(packet: array<Byte>, offset: nat, pick: bool) returns (result: SendResult)
      requires Valid() && offset <= packet.Length && Foreign(packet)
      requires |fromEngine| < depth || closed
      modifies this
      ensures Valid() && closed == old(closed) && ToEngine() == old(ToEngine())
      ensures (FromEngine(), result) == TrySend(old(FromEngine()), closed, packet[offset..], pick)
      ensures result != ErrQueueFull
      ensures Foreign(packet)
    {
      ghost var before := FromEngine();
      SendKeepsFifo(before, closed, packet[offset..], pick);
      var p := Copy(packet, offset);
      if |fromEngine| < depth && (!closed || pick) {
        fromEngine := fromEngine + [p];
        fromAccepted := fromAccepted + [p[..]];
        assert FromEngine().items == before.items + [packet[offset..]];
        return Sent;
      }
      return ErrClosed;
    }

    /** `Receive` hands the queued buffer itself to the mux, which may then change it. */
    method Receive(pick: bool) returns (p: array?<Byte>)
      requires Valid() && (fromEngine != [] || closed)
      modifies this
      ensures Valid() && closed == old(closed) && ToEngine() == old(ToEngine())
      ensures p == null ==> closed && FromEngine() == old(FromEngine())
      ensures p != null ==> old(fromEngine) != [] && p == old(fromEngine)[0]
                            && Foreign(p) && FromEngine() == Pop(old(FromEngine()))
                                    && p[..] == old(FromEngine()).items[0]
    {
      if |fromEngine| > 0 && (!closed || pick) {
        PopKeepsFifo(FromEngine());
        ghost var before := FromEngine();
        p := fromEngine[0];
        fromTaken := fromTaken + [p[..]];
        fromEngine := fromEngine[1..];
        assert FromEngine() == Pop(before);
        return p;
      }
      return null;
    }

    /** `Close` takes effect once and leaves what is queued in place. */
    method Close()
      requires Valid()
      modifies this`closed
      ensures Valid() && closed && ToEngine() == old(ToEngine()) && FromEngine() == old(FromEngine())
    {
      closed := true;
    }
  }

  /** Whatever TryInject answers, overwriting the sender's buffer afterwards changes no queued packet. */
  method ReuseBuffer(d: Device, packet: array<Byte>, i: nat, x: Byte, pick: bool) returns (result: SendResult)
    requires d.Valid() && d.Foreign(packet) && i < packet.Length
    modifies d, packet
    ensures d.Valid() && (d.ToEngine(), result) == TrySend(old(d.ToEngine()), old(d.closed), old(packet[..]), pick)
  {
    result := d.TryInject(packet, pick);
    packet[i] := x;
  }
}
