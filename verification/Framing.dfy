/**
Length-prefixed packets on a byte stream, with the `connected` flag that stops a
transport for good after its first error. The stream may fail in the middle of a
write or when it is flushed, and may end anywhere.
*/
module Framing {
  import opened Machine
  import opened Bytes

  const MAX_PACKET_SIZE: nat := 65535

  type Packet = seq<byte>

  datatype IoError = InvalidInput | NotConnected | WriteFailed | FlushFailed | FrameTooLarge | UnexpectedEof

  datatype Io<+T> = Done(value: T) | Failed(error: IoError)

  /** What the stream does with one frame: it may stop taking bytes, or take them all and fail to flush them. */
  datatype Fate = Works | BreaksAfter(taken: nat) | FlushFails

  // ---- The wire format ----

  function Frame(p: Packet): seq<byte>
    requires |p| <= MAX_PACKET_SIZE
  {
    U16(|p|) + p
  }

  /** Two bytes of length, the most significant first, and the packet. */
  lemma {:induction false} FrameBytes(p: Packet, hi: byte, lo: byte)
    requires |p| <= 65535
    ensures Frame(p) == [hi, lo] + p <==> |p| == Two(hi, lo)
  {
    BigEndian(hi, lo, 0, 0);
    assert Frame(p)[..2] == U16(|p|) && ([hi, lo] + p)[..2] == [hi, lo];
    U16RoundTrip(|p|);
  }

  ghost predicate Fits(ps: seq<Packet>) { forall i :: 0 <= i < |ps| ==> |ps[i]| <= MAX_PACKET_SIZE }

  ghost function Frames(ps: seq<Packet>): seq<byte>
    requires Fits(ps)
  {
    if ps == [] then [] else Frame(ps[0]) + Frames(ps[1..])
  }

  lemma {:induction false} FramesAppend(ps: seq<Packet>, p: Packet)
    requires Fits(ps) && |p| <= MAX_PACKET_SIZE
    ensures Frames(ps + [p]) == Frames(ps) + Frame(p)
  {
    if ps == [] {
      assert ps + [p] == [p] && [p][1..] == [];
    } else {
      FramesAppend(ps[1..], p);
      assert (ps + [p])[1..] == ps[1..] + [p];
    }
  }

  /** What one read with a buffer of `capacity` bytes yields, and what it leaves unread when it succeeds. */
  function ReadOne(stream: seq<byte>, capacity: nat): Io<(Packet, seq<byte>)> {
    if |stream| < 2 then Failed(UnexpectedEof)
    else
      var len := FromU16(stream[0], stream[1]);
      if len > capacity then Failed(FrameTooLarge)
      else if |stream| - 2 < len then Failed(UnexpectedEof)
      else Done((stream[2..2 + len], stream[2 + len..]))
  }

  /** Each outcome of a read, exactly. */
  lemma {:induction false} ReadExact(stream: seq<byte>, capacity: nat, p: Packet, rest: seq<byte>)
    ensures ReadOne(stream, capacity) == Done((p, rest)) <==>
      |p| <= capacity && |stream| >= 2 && Two(stream[0], stream[1]) == |p| && stream == stream[..2] + p + rest
    ensures ReadOne(stream, capacity) == Failed(FrameTooLarge) <==> |stream| >= 2 && Two(stream[0], stream[1]) > capacity
    ensures ReadOne(stream, capacity) == Failed(UnexpectedEof) <==>
      |stream| < 2 || (Two(stream[0], stream[1]) <= capacity && |stream| < 2 + Two(stream[0], stream[1]))
  {
    if |stream| >= 2 {
      BigEndian(stream[0], stream[1], 0, 0);
      var len := Two(stream[0], stream[1]);
      if |stream| >= 2 + len { assert stream == stream[..2] + stream[2..2 + len] + stream[2 + len..]; }
    }
  }

  /** The packets delivered by reads with the given buffers; the first failure ends them. */
  function Delivered(stream: seq<byte>, capacities: seq<nat>): seq<Packet>
    decreases |capacities|
  {
    if capacities == [] then []
    else match ReadOne(stream, capacities[0])
      case Failed(_) => []
      case Done((p, rest)) => [p] + Delivered(rest, capacities[1..])
  }

  // ---- The transport ----

  class TcpTransport {
    var connected: bool
    /** Bytes accepted by the stream towards the peer. */
    var outgoing: seq<byte>
    /** Bytes from the peer not yet read. */
    var incoming: seq<byte>
    /** Packets whose send succeeded. */
    ghost var sent: seq<Packet>
    /** The packet whose send failed, if one did. */
    ghost var broken: Packet
    /** It failed in its flush, with the whole frame in the stream. */
    ghost var unflushed: bool

    /** The stream carries the sent packets in order, and after a failure an initial part of one more frame: all of it only if the flush failed. */
    ghost predicate Valid()
      reads this
    {
      && Fits(sent) && |broken| <= MAX_PACKET_SIZE
      && |Frames(sent)| <= |outgoing| && outgoing[..|Frames(sent)|] == Frames(sent)
      && (connected ==> outgoing == Frames(sent))
      && outgoing[|Frames(sent)|..] <= Frame(broken)
      && (unflushed <==> outgoing[|Frames(sent)|..] == Frame(broken))
    }

    constructor (incoming: seq<byte>)
      ensures Valid() && connected && sent == [] && !unflushed && this.incoming == incoming
    {
      connected, outgoing, sent, broken, unflushed := true, [], [], [], false;
      this.incoming := incoming;
    }

    /** Writes and flushes one frame. */
    method WriteFrame(buf: Packet, fate: Fate) returns (r: Io<nat>)
      modifies this`outgoing
      ensures r == Failed(InvalidInput) <==> |buf| > MAX_PACKET_SIZE
      ensures |buf| > MAX_PACKET_SIZE ==> outgoing == old(outgoing)
      ensures |buf| <= MAX_PACKET_SIZE ==>
        var broke := fate.BreaksAfter? && fate.taken < |Frame(buf)|;
        && r == (if broke then Failed(WriteFailed) else if fate.FlushFails? then Failed(FlushFailed) else Done(|buf|))
        && outgoing == old(outgoing) + if broke then Frame(buf)[..fate.taken] else Frame(buf)
    {
      if |buf| > MAX_PACKET_SIZE {
        return Failed(InvalidInput);
      }
      var prefix := U16(|buf|);
      if fate.BreaksAfter? && fate.taken < 2 {
        assert Frame(buf)[..fate.taken] == prefix[..fate.taken];
        outgoing := outgoing + prefix[..fate.taken];
        return Failed(WriteFailed);
      }
      outgoing := outgoing + prefix;
      if fate.BreaksAfter? && fate.taken - 2 < |buf| {
        assert Frame(buf)[..fate.taken] == prefix + buf[..fate.taken - 2];
        outgoing := outgoing + buf[..fate.taken - 2];
        return Failed(WriteFailed);
      }
      outgoing := outgoing + buf;
      if fate.FlushFails? {
        return Failed(FlushFailed);
      }
      r := Done(|buf|);
    }

    method Send(buf: Packet, fate: Fate) returns (r: Io<nat>)
      requires Valid()
      modifies this`outgoing, this`connected, this`sent, this`broken, this`unflushed
      ensures Valid()
      ensures r.Done? ==> old(connected) && connected && |buf| <= MAX_PACKET_SIZE && sent == old(sent) + [buf] && !unflushed
      ensures r.Failed? ==> !connected && sent == old(sent)
      ensures !old(connected) ==> r == Failed(NotConnected) && unchanged(this)
      ensures old(connected) && r.Failed? ==> (unflushed <==> r.error == FlushFailed) && (unflushed ==> broken == buf)
      ensures old(connected) && |buf| <= MAX_PACKET_SIZE ==>
        (fate.Works? ==> r.Done?) && (fate.FlushFails? <==> r == Failed(FlushFailed))
      ensures r == Failed(FlushFailed) ==> |buf| <= MAX_PACKET_SIZE
    {
      if !connected {
        return Failed(NotConnected);
      }
      r := WriteFrame(buf, fate);
      if r.Done? {
        FramesAppend(sent, buf);
        sent := sent + [buf];
      } else {
        connected := false;
        if |buf| <= MAX_PACKET_SIZE {
          broken, unflushed := buf, r.error == FlushFailed;
        }
      }
    }

    method ReadFrame(capacity: nat) returns (r: Io<Packet>)
      modifies this`incoming
      ensures var one := ReadOne(old(incoming), capacity);
        && (one.Failed? ==> r == Failed(one.error))
        && (one.Done? ==> r == Done(one.value.0) && incoming == one.value.1)
    {
      if |incoming| < 2 {
        incoming := [];
        return Failed(UnexpectedEof);
      }
      var len := FromU16(incoming[0], incoming[1]);
      incoming := incoming[2..];
      if len > capacity {
        return Failed(FrameTooLarge);
      }
      if len == 0 {
        assert old(incoming)[2..2] == [];
        return Done([]);
      }
      if |incoming| < len {
        incoming := [];
        return Failed(UnexpectedEof);
      }
      assert old(incoming)[2..][..len] == old(incoming)[2..2 + len];
      assert old(incoming)[2..][len..] == old(incoming)[2 + len..];
      r := Done(incoming[..len]);
      incoming := incoming[len..];
    }

    method Recv(capacity: nat) returns (r: Io<Packet>)
      requires Valid()
      modifies this`incoming, this`connected
      ensures Valid()
      ensures !old(connected) ==> r == Failed(NotConnected) && incoming == old(incoming)
      ensures old(connected) ==> var one := ReadOne(old(incoming), capacity);
        && (one.Failed? ==> r == Failed(one.error))
        && (one.Done? ==> r == Done(one.value.0) && incoming == one.value.1)
      ensures connected <==> r.Done?
    {
      if !connected {
        return Failed(NotConnected);
      }
      r := ReadFrame(capacity);
      if r.Failed? {
        connected := false;
      }
    }
  }

  // ---- Streams ----

  /** A read from any initial part of a framed stream yields its first packet or nothing. */
  lemma {:induction false} ReadFirst(ps: seq<Packet>, stream: seq<byte>, capacity: nat)
    requires Fits(ps) && stream <= Frames(ps)
    ensures var r := ReadOne(stream, capacity);
      && (r.Done? ==> ps != [] && r.value.0 == ps[0])
      && (r.Done? ==> r.value.1 <= Frames(ps[1..]) && stream == Frame(ps[0]) + r.value.1)
  {
    if |stream| >= 2 {
      var p := ps[0];
      U16RoundTrip(|p|);
      assert Frames(ps) == Frame(p) + Frames(ps[1..]);
      assert stream[0] == U16(|p|)[0] && stream[1] == U16(|p|)[1];
      var n := 2 + |p|;
      if |stream| >= n {
        assert stream[..n] == Frames(ps)[..n] == Frame(p);
        assert stream[2..n] == Frame(p)[2..] == p;
        assert stream[n..] <= Frames(ps)[n..] == Frames(ps[1..]);
      }
    }
  }

  /**
   Whatever buffers the receiver uses and wherever the stream is cut, the packets
   delivered are the first of those sent, unaltered and in order.
  */
  lemma {:induction false} DeliveredInOrder(ps: seq<Packet>, stream: seq<byte>, capacities: seq<nat>)
    requires Fits(ps) && stream <= Frames(ps)
    ensures Delivered(stream, capacities) <= ps
    ensures Fits(Delivered(stream, capacities)) && Frames(Delivered(stream, capacities)) <= stream
    decreases |capacities|
  {
    if capacities != [] {
      ReadFirst(ps, stream, capacities[0]);
      var r := ReadOne(stream, capacities[0]);
      if r.Done? {
        DeliveredInOrder(ps[1..], r.value.1, capacities[1..]);
        var rest := Delivered(r.value.1, capacities[1..]);
        assert ([ps[0]] + rest)[1..] == rest;
      }
    }
  }

  lemma {:induction false} ReadWhole(p: Packet, rest: seq<byte>, capacity: nat)
    requires |p| <= MAX_PACKET_SIZE && |p| <= capacity
    ensures ReadOne(Frame(p) + rest, capacity) == Done((p, rest))
  {
    U16RoundTrip(|p|);
    var stream := Frame(p) + rest;
    assert stream[0] == U16(|p|)[0] && stream[1] == U16(|p|)[1];
    assert stream[2..2 + |p|] == p && stream[2 + |p|..] == rest;
  }

  /** With large enough buffers everything sent in full is delivered, whatever comes after it. */
  lemma {:induction false} DeliveredInFull(ps: seq<Packet>, tail: seq<byte>, capacities: seq<nat>)
    requires Fits(ps) && |ps| <= |capacities| && forall i :: 0 <= i < |ps| ==> |ps[i]| <= capacities[i]
    ensures ps <= Delivered(Frames(ps) + tail, capacities)
    decreases |ps|
  {
    if ps != [] {
      assert Frames(ps) + tail == Frame(ps[0]) + (Frames(ps[1..]) + tail);
      ReadWhole(ps[0], Frames(ps[1..]) + tail, capacities[0]);
      DeliveredInFull(ps[1..], tail, capacities[1..]);
    }
  }

  /** A frame that broke off is never delivered. */
  lemma {:induction false} BrokenTail(ps: seq<Packet>, p: Packet, tail: seq<byte>, stream: seq<byte>, capacities: seq<nat>)
    requires Fits(ps) && |p| <= MAX_PACKET_SIZE && tail <= Frame(p) && stream <= Frames(ps) + tail
    ensures Delivered(stream, capacities) <= if tail == Frame(p) then ps + [p] else ps
  {
    FramesAppend(ps, p);
    assert Frames(ps) + tail == Frames(ps + [p])[..|Frames(ps)| + |tail|];
    DeliveredInOrder(ps + [p], stream, capacities);
    var got := Delivered(stream, capacities);
    assert |got| == |ps| + 1 ==> got == ps + [p];
  }

  /** Everything in a stream of whole frames and a last part is delivered, if the buffers are large enough. */
  lemma {:induction false} AllDelivered(ps: seq<Packet>, p: Packet, tail: seq<byte>, capacities: seq<nat>)
    requires Fits(ps) && |p| <= MAX_PACKET_SIZE && tail <= Frame(p)
    requires FitsBuffers(if tail == Frame(p) then ps + [p] else ps, capacities)
    ensures Delivered(Frames(ps) + tail, capacities) == if tail == Frame(p) then ps + [p] else ps
  {
    BrokenTail(ps, p, tail, Frames(ps) + tail, capacities);
    if tail == Frame(p) {
      FramesAppend(ps, p);
      assert Frames(ps + [p]) + [] == Frames(ps) + tail;
      DeliveredInFull(ps + [p], [], capacities);
    } else {
      DeliveredInFull(ps, tail, capacities);
    }
  }

  /** A receiver gets only packets whose send succeeded, however the stream is cut and read, if and only if the last frame is not whole. */
  lemma {:induction false} OnlySentExactly(ps: seq<Packet>, p: Packet, tail: seq<byte>)
    requires Fits(ps) && |p| <= MAX_PACKET_SIZE && tail <= Frame(p)
    ensures (forall stream, capacities :: stream <= Frames(ps) + tail ==> Delivered(stream, capacities) <= ps) <==> tail != Frame(p)
  {
    var whole := Frames(ps) + tail;
    if tail == Frame(p) {
      var capacities := seq(|ps| + 1, _ => MAX_PACKET_SIZE);
      assert FitsBuffers(ps + [p], capacities);
      AllDelivered(ps, p, tail, capacities);
      assert whole <= Frames(ps) + tail && !(Delivered(whole, capacities) <= ps);
    } else {
      forall stream, capacities | stream <= whole
        ensures Delivered(stream, capacities) <= ps
      {
        BrokenTail(ps, p, tail, stream, capacities);
      }
    }
  }

  /** Every packet fits the buffer it is read with. */
  ghost predicate FitsBuffers(ps: seq<Packet>, capacities: seq<nat>) {
    |ps| <= |capacities| && forall i :: 0 <= i < |ps| ==> |ps[i]| <= capacities[i]
  }

  ghost predicate AllWork(fates: seq<Fate>) { forall i :: 0 <= i < |fates| ==> fates[i].Works? }

  /**
   A sender, a stream cut at an arbitrary byte, and a receiver. `accepted` are the packets
   whose send succeeded and `unsure` the one, if any, whose send failed in its flush. Whatever
   fails, the receiver gets an initial run of both, and all of them if the stream carries them
   and the buffers hold them.
  */
  method RunLink(packets: seq<Packet>, fates: seq<Fate>, cut: nat, capacities: seq<nat>)
    returns (accepted: seq<Packet>, unsure: seq<Packet>, received: seq<Packet>)
    requires |fates| == |packets|
    ensures Fits(accepted + unsure) && accepted + unsure <= packets && received <= accepted + unsure
    ensures unsure == if FlushFailsAt(packets, fates, |accepted|) then [packets[|accepted|]] else []
    ensures Fits(packets) && AllWork(fates) ==> accepted == packets
    ensures |Frames(accepted + unsure)| <= cut && FitsBuffers(accepted + unsure, capacities) ==> received == accepted + unsure
  {
    var sender := new TcpTransport([]);
    accepted, unsure := SendAll(sender, packets, fates);
    var stream := if cut < |sender.outgoing| then sender.outgoing[..cut] else sender.outgoing;
    received := ReceiveAll(stream, capacities);
    LinkDelivers(accepted, sender.broken, sender.outgoing, stream, capacities);
    assert unsure == [] ==> accepted + unsure == accepted;
    if |Frames(accepted + unsure)| <= cut && FitsBuffers(accepted + unsure, capacities) {
      LinkDeliversAll(accepted, sender.broken, sender.outgoing, cut, capacities);
    }
  }

  /** The `k`-th packet fits, and the stream takes it and fails to flush it. */
  ghost predicate FlushFailsAt(packets: seq<Packet>, fates: seq<Fate>, k: nat) {
    k < |packets| && k < |fates| && |packets[k]| <= MAX_PACKET_SIZE && fates[k].FlushFails?
  }

  lemma {:induction false} LinkDelivers(ps: seq<Packet>, p: Packet, outgoing: seq<byte>, stream: seq<byte>, capacities: seq<nat>)
    requires Fits(ps) && |p| <= MAX_PACKET_SIZE && Frames(ps) <= outgoing && outgoing[|Frames(ps)|..] <= Frame(p)
    requires stream <= outgoing
    ensures Delivered(stream, capacities) <= if outgoing[|Frames(ps)|..] == Frame(p) then ps + [p] else ps
  {
    var tail := outgoing[|Frames(ps)|..];
    assert outgoing == Frames(ps) + tail;
    BrokenTail(ps, p, tail, stream, capacities);
  }

  lemma {:induction false} LinkDeliversAll(ps: seq<Packet>, p: Packet, outgoing: seq<byte>, cut: nat, capacities: seq<nat>)
    requires Fits(ps) && |p| <= MAX_PACKET_SIZE && Frames(ps) <= outgoing && outgoing[|Frames(ps)|..] <= Frame(p)
    requires var carried := if outgoing[|Frames(ps)|..] == Frame(p) then ps + [p] else ps;
      |Frames(carried)| <= cut && FitsBuffers(carried, capacities)
    ensures var stream := if cut < |outgoing| then outgoing[..cut] else outgoing;
      Delivered(stream, capacities) == if outgoing[|Frames(ps)|..] == Frame(p) then ps + [p] else ps
  {
    var tail := outgoing[|Frames(ps)|..];
    var stream := if cut < |outgoing| then outgoing[..cut] else outgoing;
    assert outgoing == Frames(ps) + tail;
    FramesAppend(ps, p);
    var rest := stream[|Frames(ps)|..];
    assert stream == Frames(ps) + rest && rest <= tail;
    assert tail == Frame(p) ==> rest == tail;
    AllDelivered(ps, p, rest, capacities);
  }

  /** A sender that keeps calling `send`, also after a failure. */
  method SendAll(t: TcpTransport, packets: seq<Packet>, fates: seq<Fate>) returns (accepted: seq<Packet>, unsure: seq<Packet>)
    requires t.Valid() && t.connected && t.sent == [] && !t.unflushed && |fates| == |packets|
    modifies t
    ensures t.Valid() && t.sent == accepted && accepted <= packets
    ensures unsure == (if t.unflushed then [t.broken] else []) && accepted + unsure <= packets
    ensures unsure == if FlushFailsAt(packets, fates, |accepted|) then [packets[|accepted|]] else []
    ensures Fits(packets) && AllWork(fates) ==> accepted == packets
  {
    accepted, unsure := [], [];
    for i := 0 to |packets|
      invariant t.Valid() && t.sent == accepted && |accepted| <= i && accepted == packets[..|accepted|]
      invariant t.connected ==> |accepted| == i && unsure == [] && !t.unflushed
      invariant !t.connected ==> |accepted| < i
      invariant unsure == if t.unflushed then [t.broken] else []
      invariant !t.connected ==> unsure == if FlushFailsAt(packets, fates, |accepted|) then [packets[|accepted|]] else []
      invariant Fits(packets) && AllWork(fates) ==> t.connected
    {
      var r := t.Send(packets[i], fates[i]);
      if r.Done? {
        accepted := accepted + [packets[i]];
      } else if r.error == FlushFailed {
        unsure := [packets[i]];
      }
    }
  }

  /** A receiver that keeps calling `recv`, also after a failure. */
  method ReceiveAll(stream: seq<byte>, capacities: seq<nat>) returns (received: seq<Packet>)
    ensures received == Delivered(stream, capacities)
  {
    var t := new TcpTransport(stream);
    received := [];
    for i := 0 to |capacities|
      invariant t.Valid() && fresh(t)
      invariant t.connected ==> Delivered(stream, capacities) == received + Delivered(t.incoming, capacities[i..])
      invariant !t.connected ==> Delivered(stream, capacities) == received
    {
      var r := t.Recv(capacities[i]);
      if r.Done? {
        received := received + [r.value];
      }
    }
  }
}
