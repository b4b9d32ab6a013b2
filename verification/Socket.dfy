/**
The AF_XDP socket: every operation that moves frames between the free stack,
the four rings, the kernel and the application.

The kernel runs concurrently. `Interfere` stands for any number of kernel steps.
It is called between the atomic actions of every operation, and through `Yield`
between calls, so each contract holds for every interleaving with the kernel. The kernel takes fill entries,
delivers frames it holds on the RX ring (at any offset inside the frame), takes
TX entries and completes them with the frame's base address.
*/
module Socket {
  import opened Machine
  import opened Rings
  import opened Umem
  import opened FrameBooks

  datatype XdpDesc = XdpDesc(addr: u64, len: u32)

  /** What a packet to be sent finds: the frames held, the TX descriptors so far, the free TX slots and the free frames. */
  datatype Room = Room(held: multiset<nat>, queued: seq<XdpDesc>, slots: int, stack: seq<u64>)

  datatype SendResult = Sent | TooLarge | Exhausted | SlicePanic

  datatype TxResult = Transmitted | NoFrame | CryptoFailed

  /** A frame base of an existing frame is an address that the region accepts. */
  lemma {:induction false} BaseIsValidAddr(c: UmemConfig, addr: nat)
    requires c.Valid() && c.IsBase(addr)
    ensures c.FrameOf(addr) < c.numFrames <==> c.ValidAddr(addr)
  {
    FrameIsQuotient(c, addr);
    if c.FrameOf(addr) < c.numFrames {
      FrameBase(c, c.FrameOf(addr));
    }
    if c.ValidAddr(addr) {
      FrameInsideRegion(c, addr);
    }
  }

  /** The frames that a list of addresses lies in. */
  ghost function Frames(c: UmemConfig, addrs: seq<u64>): (frames: seq<nat>)
    requires c.frameSize > 0
    ensures |frames| == |addrs|
  {
    seq(|addrs|, i requires 0 <= i < |addrs| => c.FrameOf(addrs[i]))
  }

  function DescFrames(c: UmemConfig, descs: seq<XdpDesc>): (frames: seq<nat>)
    requires c.frameSize > 0
    ensures |frames| == |descs|
  {
    seq(|descs|, i requires 0 <= i < |descs| => c.FrameOf(descs[i].addr))
  }

  lemma FramesAppend(c: UmemConfig, addrs: seq<u64>, addr: u64)
    requires c.frameSize > 0
    ensures Frames(c, addrs + [addr]) == Frames(c, addrs) + [c.FrameOf(addr)]
  {
  }

  lemma DescFramesAppend(c: UmemConfig, descs: seq<XdpDesc>, desc: XdpDesc)
    requires c.frameSize > 0
    ensures DescFrames(c, descs + [desc]) == DescFrames(c, descs) + [c.FrameOf(desc.addr)]
  {
  }

  ghost predicate FrameBases(c: UmemConfig, addrs: seq<u64>)
    requires c.frameSize > 0
  {
    forall i :: 0 <= i < |addrs| ==> c.IsBase(addrs[i])
  }

  lemma {:induction false} BasesPop(c: UmemConfig, addrs: seq<u64>, addr: u64)
    requires c.frameSize > 0 && FrameBases(c, addrs + [addr])
    ensures FrameBases(c, addrs) && c.IsBase(addr)
  {
    assert (addrs + [addr])[|addrs|] == addr;
    assert forall i :: 0 <= i < |addrs| ==> (addrs + [addr])[i] == addrs[i];
  }

  /** The descriptors of a batch whose packet lies inside its frame. */
  function InBounds(c: UmemConfig, batch: seq<XdpDesc>): seq<XdpDesc>
    requires c.Valid()
  {
    if batch == [] then []
    else
      var last := batch[|batch| - 1];
      InBounds(c, batch[..|batch| - 1])
      + (if ValidatePacketBounds(c, last.addr, last.len).Ok? then [last] else [])
  }

  lemma {:induction false} InBoundsAppend(c: UmemConfig, batch: seq<XdpDesc>, desc: XdpDesc)
    requires c.Valid()
    ensures InBounds(c, batch + [desc])
         == InBounds(c, batch) + (if ValidatePacketBounds(c, desc.addr, desc.len).Ok? then [desc] else [])
  {
    assert (batch + [desc])[..|batch|] == batch;
  }

  /** The handler sees the `i`-th descriptor and ends the batch there. */
  predicate Stops(c: UmemConfig, handler: (nat, XdpDesc) -> bool, i: nat, desc: XdpDesc)
    requires c.Valid()
  {
    ValidatePacketBounds(c, desc.addr, desc.len).Ok? && !handler(i, desc)
  }

  /**
   What a receive call does with the batch it sees: it consumes a prefix, passes
   on the in-bounds descriptors of that prefix in order, and stops early only at
   a packet the handler refuses to go past.
  */
  ghost predicate BatchOutcome(
    c: UmemConfig, handler: (nat, XdpDesc) -> bool, batch: seq<XdpDesc>, processed: nat, packets: seq<XdpDesc>)
    requires c.Valid()
  {
    && processed <= |batch|
    && packets == InBounds(c, batch[..processed])
    && (forall i :: 0 <= i < processed - 1 ==> !Stops(c, handler, i, batch[i]))
    && (processed == |batch| || (processed > 0 && Stops(c, handler, processed - 1, batch[processed - 1])))
  }

  /** The state of the receive loop after `processed` descriptors. */
  ghost predicate BatchSoFar(
    c: UmemConfig, handler: (nat, XdpDesc) -> bool, batch: seq<XdpDesc>, processed: nat, packets: seq<XdpDesc>, go: bool)
    requires c.Valid()
  {
    && processed <= |batch|
    && packets == InBounds(c, batch[..processed])
    && (forall i :: 0 <= i < processed - 1 ==> !Stops(c, handler, i, batch[i]))
    && (if processed == 0 then go else go == !Stops(c, handler, processed - 1, batch[processed - 1]))
  }

  /** One turn of the receive loop: the packets passed on so far, and whether to go on. */
  function HandleDesc(
    c: UmemConfig, handler: (nat, XdpDesc) -> bool, i: nat, desc: XdpDesc, packets: seq<XdpDesc>): (seq<XdpDesc>, bool)
    requires c.Valid()
  {
    if ValidatePacketBounds(c, desc.addr, desc.len).Ok? then (packets + [desc], handler(i, desc)) else (packets, true)
  }

  /** `recv` has passed on the first `i` descriptors. */
  ghost predicate ReadSoFar(batch: seq<XdpDesc>, i: nat, packets: seq<XdpDesc>) { i <= |batch| && packets == batch[..i] }

  lemma {:induction false} BatchStart(c: UmemConfig, handler: (nat, XdpDesc) -> bool, batch: seq<XdpDesc>)
    requires c.Valid()
    ensures true == BatchSoFar(c, handler, batch, 0, [], true)
  {
    assert batch[..0] == [];
  }

  lemma {:induction false} BatchEnd(
    c: UmemConfig, handler: (nat, XdpDesc) -> bool, batch: seq<XdpDesc>, processed: nat, packets: seq<XdpDesc>, go: bool)
    requires c.Valid() && true == BatchSoFar(c, handler, batch, processed, packets, go) && (!go || processed == |batch|)
    ensures true == BatchOutcome(c, handler, batch, processed, packets)
  {
  }

  lemma {:induction false} BatchStep(
    c: UmemConfig, handler: (nat, XdpDesc) -> bool, batch: seq<XdpDesc>, processed: nat, packets: seq<XdpDesc>)
    requires c.Valid() && processed < |batch| && true == BatchSoFar(c, handler, batch, processed, packets, true)
    ensures var (packets', go) := HandleDesc(c, handler, processed, batch[processed], packets);
      true == BatchSoFar(c, handler, batch, processed + 1, packets', go)
  {
    InBoundsAppend(c, batch[..processed], batch[processed]);
    assert batch[..processed + 1] == batch[..processed] + [batch[processed]];
  }

  /** One frame was added. */
  ghost predicate OneMore(before: multiset<nat>, after: multiset<nat>) { before <= after && |after| == |before| + 1 }

  /** What becomes of a packet that is not too large. A packet sent at once goes out in the topmost free frame. */
  ghost predicate SendOutcome(r: SendResult, dataLen: nat, len: nat, headroom: nat, before: Room, after: Room) {
    && r != TooLarge && (r == SlicePanic <==> r != Exhausted && dataLen != len)
    && (if r == SlicePanic then OneMore(before.held, after.held) else after.held == before.held)
    && (if r == Sent then QueuedOne(before.queued, after.queued, len) else after.queued == before.queued)
    && (before.slots > 0 && before.stack != [] ==> r != Exhausted)
    && (before.slots > 0 && r == Sent ==> TopQueued(before.stack, before.queued, after.queued, headroom))
    && |after.stack| >= |before.stack| - (if r == Exhausted then 0 else 1)
  }

  lemma {:induction false} NothingSent(dataLen: nat, len: nat, headroom: nat, before: Room, after: Room)
    requires after.held == before.held && after.queued == before.queued && |after.stack| >= |before.stack|
    requires before.slots > 0 ==> before.stack == []
    ensures true == SendOutcome(Exhausted, dataLen, len, headroom, before, after)
  {
  }

  lemma {:induction false} OutcomeSays(r: SendResult, dataLen: nat, len: nat, headroom: nat, before: Room, after: Room)
    requires true == SendOutcome(r, dataLen, len, headroom, before, after)
    ensures r != TooLarge && (r == SlicePanic ==> dataLen != len && true == OneMore(before.held, after.held))
    ensures r == Sent ==> dataLen == len && true == QueuedOne(before.queued, after.queued, len)
    ensures (r != SlicePanic ==> after.held == before.held) && (r != Sent ==> after.queued == before.queued)
    ensures before.slots > 0 && before.stack != [] ==> r != Exhausted
    ensures before.slots > 0 && r == Sent ==> true == TopQueued(before.stack, before.queued, after.queued, headroom)
    ensures |after.stack| >= |before.stack| - (if r == Exhausted then 0 else 1)
  {
  }

  lemma {:induction false} SendOutcomeHolds(
    r: SendResult, dataLen: nat, len: nat, headroom: nat, before: Room, after: Room, f: nat, base: u64)
    requires r == if dataLen == len then Sent else SlicePanic
    requires after.held == if r == Sent then before.held + multiset{f} - multiset{f} else before.held + multiset{f}
    requires if r == Sent then true == QueuedOne(before.queued, after.queued, len) else after.queued == before.queued
    requires r == Sent ==> true == QueuedFrame(before.queued, after.queued, base, headroom)
    requires before.slots > 0 ==> before.stack == after.stack + [base]
    requires |after.stack| >= |before.stack| - 1
    ensures true == SendOutcome(r, dataLen, len, headroom, before, after)
  {
    TakeAndGive(before.held, f);
  }

  lemma {:induction false} TakeAndGive(held: multiset<nat>, f: nat)
    ensures OneMore(held, held + multiset{f}) && held + multiset{f} - multiset{f} == held
  {
  }

  /** One descriptor of length `len` was queued. */
  ghost predicate QueuedOne(before: seq<XdpDesc>, after: seq<XdpDesc>, len: nat) {
    |after| == |before| + 1 && before <= after && after[|before|].len == len
  }

  /** `data.len() as u32`. */
  function TruncatedLen(dataLen: u64): (len: u32)
    ensures len == dataLen % U32_MODULUS && len <= dataLen && (dataLen < U32_MODULUS <==> len == dataLen)
  {
    dataLen % U32_MODULUS
  }

  /** One descriptor was queued, for the data of the frame at `base`. */
  ghost predicate QueuedFrame(before: seq<XdpDesc>, after: seq<XdpDesc>, base: nat, headroom: nat) {
    |after| == |before| + 1 && before <= after && after[|before|].addr == base + headroom
  }

  /** That frame was on top of the free stack. */
  ghost predicate TopQueued(stack: seq<u64>, before: seq<XdpDesc>, after: seq<XdpDesc>, headroom: nat) {
    stack != [] && QueuedFrame(before, after, stack[|stack| - 1], headroom)
  }

  /** The packets whose length, truncated to 32 bits, is within the limit. */
  function Fitting(c: UmemConfig, lengths: seq<u64>): seq<u64>
    requires c.Valid()
  {
    if lengths == [] then []
    else
      var last := lengths[|lengths| - 1];
      Fitting(c, lengths[..|lengths| - 1]) + (if last % U32_MODULUS <= c.MaxPacketSize() then [last] else [])
  }

  /** Descriptors for `lengths`, in order, were queued. */
  ghost predicate QueuedAll(before: seq<XdpDesc>, after: seq<XdpDesc>, lengths: seq<nat>) {
    && |after| == |before| + |lengths| && before <= after
    && forall i :: 0 <= i < |lengths| ==> after[|before| + i].len == lengths[i]
  }

  lemma {:induction false} FittingPrefix(c: UmemConfig, lengths: seq<u64>, i: nat)
    requires c.Valid() && i <= |lengths|
    ensures Fitting(c, lengths[..i]) <= Fitting(c, lengths)
  {
    if i < |lengths| {
      var init := lengths[..|lengths| - 1];
      FittingPrefix(c, init, i);
      assert init[..i] == lengths[..i];
    } else {
      assert lengths[..i] == lengths;
    }
  }

  /** After the first `i` packets, those of them that fit, `sent` in all, are queued. */
  ghost predicate SentSoFar(c: UmemConfig, before: seq<XdpDesc>, after: seq<XdpDesc>, lengths: seq<u64>, i: nat, sent: nat)
    requires c.Valid()
  {
    i <= |lengths| && sent == |Fitting(c, lengths[..i])| && QueuedAll(before, after, Fitting(c, lengths[..i]))
  }

  /** The first `sent` of the packets that fit are queued. */
  ghost predicate SentPrefix(c: UmemConfig, before: seq<XdpDesc>, after: seq<XdpDesc>, lengths: seq<u64>, sent: nat)
    requires c.Valid()
  {
    sent <= |Fitting(c, lengths)| && QueuedAll(before, after, Fitting(c, lengths)[..sent])
  }

  lemma {:induction false} SentTurn(
    c: UmemConfig, before: seq<XdpDesc>, middle: seq<XdpDesc>, after: seq<XdpDesc>, lengths: seq<u64>, i: nat, sent: nat, r: SendResult)
    requires c.Valid() && i < |lengths| && true == SentSoFar(c, before, middle, lengths, i, sent)
    requires r == TooLarge <==> lengths[i] % U32_MODULUS > c.MaxPacketSize()
    requires r == Sent ==> true == QueuedOne(middle, after, lengths[i])
    requires r != Sent ==> after == middle
    ensures r == Sent ==> true == SentSoFar(c, before, after, lengths, i + 1, sent + 1)
    ensures r == TooLarge ==> true == SentSoFar(c, before, after, lengths, i + 1, sent)
  {
    assert lengths[..i + 1][..i] == lengths[..i];
  }

  lemma {:induction false} SentDone(c: UmemConfig, before: seq<XdpDesc>, after: seq<XdpDesc>, lengths: seq<u64>, i: nat, sent: nat)
    requires c.Valid() && true == SentSoFar(c, before, after, lengths, i, sent)
    ensures true == SentPrefix(c, before, after, lengths, sent)
  {
    FittingPrefix(c, lengths, i);
    assert Fitting(c, lengths)[..sent] == Fitting(c, lengths[..i]);
  }

  // ---- Which frames are moved ----

  /** The first `i` of `staged` are the `i` topmost frames of the stack `before`, the topmost first, and `after` is the rest of it. */
  ghost predicate FromTop(before: seq<u64>, after: seq<u64>, staged: seq<u64>, i: nat) {
    && i <= |before| && i <= |staged| && after == before[..|before| - i]
    && forall k :: 0 <= k < i ==> staged[k] == before[|before| - 1 - k]
  }

  lemma {:induction false} FromTopStep(
    before: seq<u64>, middle: seq<u64>, after: seq<u64>, staged: seq<u64>, staged': seq<u64>, i: nat, addr: u64)
    requires true == FromTop(before, middle, staged, i) && middle == after + [addr] && i < |staged| && staged' == staged[i := addr]
    ensures true == FromTop(before, after, staged', i + 1)
  {
    assert addr == middle[|middle| - 1];
    assert after == middle[..|middle| - 1];
  }

  /** The `n` topmost frames of `stack` were added to `ring`, the topmost first. */
  ghost predicate MovedFromTop(stack: seq<u64>, stack': seq<u64>, ring: seq<u64>, ring': seq<u64>, n: nat) {
    && n <= |stack| && stack' == stack[..|stack| - n] && ring <= ring' && |ring'| == |ring| + n
    && forall k :: 0 <= k < n ==> ring'[|ring|..][k] == stack[|stack| - 1 - k]
  }

  lemma {:induction false} MovedStaged(stack: seq<u64>, stack': seq<u64>, ring: seq<u64>, staged: seq<u64>, n: nat)
    requires |staged| == n && true == FromTop(stack, stack', staged, n)
    ensures true == MovedFromTop(stack, stack', ring, ring + staged, n)
  {
  }

  /** The `n` topmost frames of a fresh region, the topmost first. */
  ghost predicate TopFrames(c: UmemConfig, ring: seq<u64>, n: nat) {
    |ring| == n <= c.numFrames && forall k :: 0 <= k < n ==> ring[k] == (c.numFrames - 1 - k) * c.frameSize
  }

  lemma {:induction false} FirstFilled(c: UmemConfig, stack: seq<u64>, stack': seq<u64>, ring: seq<u64>, n: nat)
    requires true == AllFrames(c, stack) && true == MovedFromTop(stack, stack', [], ring, n)
    ensures true == TopFrames(c, ring, n)
  {
    assert ring == ring[0..];
  }

  lemma {:induction false} MovedNone(stack: seq<u64>, ring: seq<u64>)
    ensures true == MovedFromTop(stack, stack, ring, ring, 0)
  {
  }

  // ---- What each action does to the books, on values ----

  lemma {:induction false} InitialBooks(c: UmemConfig, stack: seq<u64>)
    requires c.Valid() && true == AllFrames(c, stack)
    ensures FrameBases(c, stack) && Frames(c, stack) == Initial(c.numFrames).free
  {
    forall i | 0 <= i < c.numFrames
      ensures c.IsBase(stack[i]) && c.FrameOf(stack[i]) == i
    {
      FrameBase(c, i);
      FrameIsQuotient(c, stack[i]);
    }
  }

  lemma {:induction false} TakeFillBooks(c: UmemConfig, n: nat, prefill: nat, moves: seq<Move>, l: Line, pending: seq<u64>)
    requires c.frameSize > 0 && pending != [] && l.books.fill == Frames(c, pending)
    requires Reachable(n, prefill, moves, l)
    ensures Reachable(n, prefill, moves + [KernelTakesFill],
      l.(books := l.books.(fill := Frames(c, pending[1..]), kernelRx := l.books.kernelRx + multiset{c.FrameOf(pending[0])})))
  {
    ReachStep(n, prefill, moves, l, KernelTakesFill);
    assert Frames(c, pending)[1..] == Frames(c, pending[1..]);
  }

  lemma {:induction false} DeliverBooks(c: UmemConfig, n: nat, prefill: nat, moves: seq<Move>, l: Line, pending: seq<XdpDesc>, desc: XdpDesc)
    requires c.frameSize > 0 && l.books.rx == DescFrames(c, pending) && c.FrameOf(desc.addr) in l.books.kernelRx
    requires Reachable(n, prefill, moves, l)
    ensures Reachable(n, prefill, moves + [KernelDelivers(c.FrameOf(desc.addr))],
      l.(books := l.books.(kernelRx := l.books.kernelRx - multiset{c.FrameOf(desc.addr)}, rx := DescFrames(c, pending + [desc]))))
  {
    ReachStep(n, prefill, moves, l, KernelDelivers(c.FrameOf(desc.addr)));
    DescFramesAppend(c, pending, desc);
  }

  lemma {:induction false} TakeTxBooks(c: UmemConfig, n: nat, prefill: nat, moves: seq<Move>, l: Line, pending: seq<XdpDesc>)
    requires c.frameSize > 0 && pending != [] && l.books.tx == DescFrames(c, pending)
    requires Reachable(n, prefill, moves, l)
    ensures Reachable(n, prefill, moves + [KernelTakesTx],
      l.(books := l.books.(tx := DescFrames(c, pending[1..]), kernelTx := l.books.kernelTx + multiset{c.FrameOf(pending[0].addr)})))
  {
    ReachStep(n, prefill, moves, l, KernelTakesTx);
    assert DescFrames(c, pending)[1..] == DescFrames(c, pending[1..]);
  }

  lemma {:induction false} CompleteBooks(c: UmemConfig, n: nat, prefill: nat, moves: seq<Move>, l: Line, comp: seq<u64>, addr: u64)
    requires c.frameSize > 0 && l.books.comp == Frames(c, comp) && c.FrameOf(addr) in l.books.kernelTx
    requires Reachable(n, prefill, moves, l)
    ensures Reachable(n, prefill, moves + [KernelCompletes(c.FrameOf(addr))],
      l.(books := l.books.(kernelTx := l.books.kernelTx - multiset{c.FrameOf(addr)}, comp := Frames(c, comp + [addr]))))
  {
    ReachStep(n, prefill, moves, l, KernelCompletes(c.FrameOf(addr)));
    FramesAppend(c, comp, addr);
  }

  lemma {:induction false} PopBooks(c: UmemConfig, n: nat, prefill: nat, moves: seq<Move>, l: Line, stack: seq<u64>, addr: u64)
    requires c.frameSize > 0 && l.books.free == Frames(c, stack + [addr])
    requires Reachable(n, prefill, moves, l)
    ensures Reachable(n, prefill, moves + [Pop],
      l.(books := l.books.(free := Frames(c, stack), inHand := l.books.inHand + multiset{c.FrameOf(addr)})))
  {
    FramesAppend(c, stack, addr);
    ReachStep(n, prefill, moves, l, Pop);
    assert Apply(l.books, Pop) == l.books.(free := Frames(c, stack), inHand := l.books.inHand + multiset{c.FrameOf(addr)});
  }

  lemma {:induction false} PublishBooks(
    c: UmemConfig, n: nat, prefill: nat, moves: seq<Move>, l: Line, pending: seq<u64>, batch: seq<u64>) returns (l': Line)
    requires c.frameSize > 0 && l.books.fill == Frames(c, pending) && l.books.inHand == multiset(Frames(c, batch)) && |batch| <= l.due
    requires Reachable(n, prefill, moves, l)
    ensures l' == Line(l.books.(inHand := multiset{}, fill := Frames(c, pending + batch)), l.received, l.credit + |batch|, 0)
    ensures Reachable(n, prefill, moves + [PublishFill(Frames(c, batch))], l')
  {
    l' := Next(l, PublishFill(Frames(c, batch)));
    ReachStep(n, prefill, moves, l, PublishFill(Frames(c, batch)));
    assert Frames(c, pending + batch) == Frames(c, pending) + Frames(c, batch);
    assert l.books.inHand - multiset(Frames(c, batch)) == multiset{};
  }

  /** A completed frame is a frame base the free stack has room for, as `free` asserts. */
  lemma {:induction false} ReclaimAllowed(c: UmemConfig, n: nat, prefill: nat, moves: seq<Move>, l: Line, stack: seq<u64>, comp: seq<u64>)
    requires c.Valid() && comp != [] && c.IsBase(comp[0]) && n == c.numFrames
    requires Reachable(n, prefill, moves, l)
    requires l.books.free == Frames(c, stack) && l.books.comp == Frames(c, comp)
    ensures |stack| < c.numFrames && comp[0] % c.frameSize == 0 && comp[0] < c.numFrames * c.frameSize
  {
    ReachPartition(n, prefill, moves, l);
    FreeStackBound(l.books, n, l.books.comp[0]);
    assert l.books.Count(l.books.comp[0]) > 0;
    BaseIsValidAddr(c, comp[0]);
    FrameIsQuotient(c, comp[0]);
  }

  lemma {:induction false} ReclaimBooks(c: UmemConfig, n: nat, prefill: nat, moves: seq<Move>, l: Line, stack: seq<u64>, comp: seq<u64>)
    requires c.frameSize > 0 && comp != [] && l.books.free == Frames(c, stack) && l.books.comp == Frames(c, comp)
    requires Reachable(n, prefill, moves, l)
    ensures Reachable(n, prefill, moves + [Reclaim],
      l.(books := l.books.(free := Frames(c, stack + [comp[0]]), comp := Frames(c, comp[1..]))))
  {
    ReachStep(n, prefill, moves, l, Reclaim);
    FramesAppend(c, stack, comp[0]);
    assert Frames(c, comp)[1..] == Frames(c, comp[1..]);
  }

  lemma {:induction false} ReceiveBooks(
    c: UmemConfig, n: nat, prefill: nat, moves: seq<Move>, l: Line, pending: seq<XdpDesc>, count: nat) returns (l': Line)
    requires c.frameSize > 0 && count <= |pending| && l.books.rx == DescFrames(c, pending)
    requires Reachable(n, prefill, moves, l)
    ensures l' == Line(l.books.(rx := DescFrames(c, pending[count..]), held := l.books.held + multiset(DescFrames(c, pending[..count]))),
      l.received + count, l.credit - count, count)
    ensures l'.credit >= 0 && Reachable(n, prefill, moves + [Receive(count)], l')
  {
    l' := Next(l, Receive(count));
    ReceptionBound(n, prefill, moves, l);
    ReachStep(n, prefill, moves, l, Receive(count));
    assert DescFrames(c, pending)[count..] == DescFrames(c, pending[count..]);
    assert DescFrames(c, pending)[..count] == DescFrames(c, pending[..count]);
  }

  lemma {:induction false} HandOutBooks(n: nat, prefill: nat, moves: seq<Move>, l: Line, f: nat)
    requires l.books.inHand == multiset{f}
    requires Reachable(n, prefill, moves, l)
    ensures Reachable(n, prefill, moves + [HandOut(f)], l.(books := l.books.(inHand := multiset{}, held := l.books.held + multiset{f})))
  {
    ReachStep(n, prefill, moves, l, HandOut(f));
    assert l.books.inHand - multiset{f} == multiset{};
  }

  lemma {:induction false} TransmitBooks(c: UmemConfig, n: nat, prefill: nat, moves: seq<Move>, l: Line, pending: seq<XdpDesc>, desc: XdpDesc)
    requires c.frameSize > 0 && l.books.tx == DescFrames(c, pending) && c.FrameOf(desc.addr) in l.books.held
    requires Reachable(n, prefill, moves, l)
    ensures Reachable(n, prefill, moves + [Transmit(c.FrameOf(desc.addr))],
      l.(books := l.books.(held := l.books.held - multiset{c.FrameOf(desc.addr)}, tx := DescFrames(c, pending + [desc]))))
  {
    ReachStep(n, prefill, moves, l, Transmit(c.FrameOf(desc.addr)));
    DescFramesAppend(c, pending, desc);
  }

  /** A held frame base is one the free stack has room for, as `free` asserts. */
  lemma {:induction false} ReturnAllowed(c: UmemConfig, n: nat, prefill: nat, moves: seq<Move>, l: Line, stack: seq<u64>, addr: u64)
    requires c.Valid() && c.IsBase(addr) && l.books.free == Frames(c, stack) && c.FrameOf(addr) in l.books.held && n == c.numFrames
    requires Reachable(n, prefill, moves, l)
    ensures |stack| < c.numFrames && addr % c.frameSize == 0 && addr < c.numFrames * c.frameSize
  {
    ReachPartition(n, prefill, moves, l);
    FreeStackBound(l.books, n, c.FrameOf(addr));
    assert l.books.Count(c.FrameOf(addr)) > 0;
    BaseIsValidAddr(c, addr);
    FrameIsQuotient(c, addr);
  }

  lemma {:induction false} ReturnBooks(c: UmemConfig, n: nat, prefill: nat, moves: seq<Move>, l: Line, stack: seq<u64>, addr: u64)
    requires c.frameSize > 0 && l.books.free == Frames(c, stack) && c.FrameOf(addr) in l.books.held
    requires Reachable(n, prefill, moves, l)
    ensures Reachable(n, prefill, moves + [Return(c.FrameOf(addr))],
      l.(books := l.books.(held := l.books.held - multiset{c.FrameOf(addr)}, free := Frames(c, stack + [addr]))))
  {
    ReachStep(n, prefill, moves, l, Return(c.FrameOf(addr)));
    FramesAppend(c, stack, addr);
  }

  class XskSocket {
    const config: UmemConfig
    const umem: FrameAllocator
    const fill: ProducerRing<u64>
    const comp: ConsumerRing<u64>
    const rx: ConsumerRing<XdpDesc>
    const tx: ProducerRing<XdpDesc>
    /** Frames the kernel took from the fill ring and has not delivered. */
    var kernelRx: multiset<nat>
    /** Frames the kernel took from the TX ring and has not completed. */
    var kernelTx: multiset<nat>
    /** Frames the application holds: received, or reserved for sending. */
    ghost var held: multiset<nat>
    /** Frames an operation has taken from the free stack and not yet submitted. */
    ghost var inHand: multiset<nat>
    /** Completion entries already pushed on the free stack and not yet released. */
    ghost var reclaimed: nat
    /** Every move of a frame since the socket was created, the kernel's included. */
    ghost var moves: seq<Move>
    /** Packets received since the socket was created. */
    ghost var received: nat
    /** Frames that can reach the application without another refill. */
    ghost var credit: nat
    /** The most that the call now under way may still put on the fill ring. */
    ghost var due: nat
    /** What was put on the fill ring when the socket was created, if there were frames and room for it. */
    ghost const prefill: nat

    ghost function Repr(): set<object> {
      {this, umem, umem.freeStack, fill, fill.slots, comp, comp.slots, rx, rx.slots, tx, tx.slots}
    }

    ghost predicate Wired()
      reads Repr()
    {
      && config.Valid()
      && umem.frameSize == config.frameSize && umem.numFrames == config.numFrames
      && fill.slots != comp.slots && fill.slots != umem.freeStack && comp.slots != umem.freeStack
      && rx.slots != tx.slots
      && umem.Valid() && fill.Valid() && comp.Valid() && rx.Valid() && tx.Valid()
      && reclaimed <= |comp.Pending()|
    }

    ghost function Completions(): seq<u64>
      reads Repr()
      requires true == Wired()
    {
      comp.published[comp.taken + reclaimed..]
    }

    /** The place of every frame, read off the memory the socket shares with the kernel. */
    ghost function Accounts(): Books
      reads Repr()
      requires true == Wired()
    {
      Books(Frames(config, umem.stack), Frames(config, fill.Pending()), kernelRx, DescFrames(config, rx.Pending()),
            held, inHand, DescFrames(config, tx.Pending()), kernelTx, Frames(config, Completions()))
    }

    ghost function Record(): Line
      reads Repr()
      requires true == Wired()
    {
      Line(Accounts(), received, credit, due)
    }

    /**
     The books are those the recorded moves lead to, so each frame is in exactly one
     place, and addresses bound for the free stack are frame bases. Operations that only pass this on state it as
     `true == Conserved()`, which the verifier takes as one fact.
    */
    ghost predicate Conserved()
      reads Repr()
    {
      && Wired()
      && Reachable(config.numFrames, prefill, moves, Record())
      && FrameBases(config, umem.stack) && FrameBases(config, Completions())
    }

    /** Nothing is in hand, each cached producer index equals the published one, and up to `d` frames may be refilled. */
    ghost predicate Ready(d: nat)
      reads Repr()
    {
      && Conserved()
      && inHand == multiset{} && reclaimed == 0 && due == d
      && fill.staged == [] && tx.staged == []
      && fill.cachedProd == fill.producer && tx.cachedProd == tx.producer
    }

    /** So it is between calls, with no refill to come. */
    ghost predicate Valid()
      reads Repr()
    {
      Ready(0)
    }

    /** What the kernel may do to the socket's view: rings it consumes drain, rings it produces grow. */
    twostate predicate KernelRan()
      reads fill, tx, rx, comp
    {
      && fill.taken >= old(fill.taken) && tx.taken >= old(tx.taken)
      && old(rx.published) <= rx.published && old(comp.published) <= comp.published
    }

    /** No frame is free, and the TX ring, which decides whether completions are reclaimed, has room. */
    ghost predicate Stalled()
      reads umem, tx
    {
      umem.stack == [] && tx.Free() > 0
    }

    /** Still so, with nothing queued, handed out or reclaimed meanwhile. */
    twostate predicate StillStalled()
      reads this, umem, tx, comp
    {
      Stalled() && tx.published == old(tx.published) && comp.taken == old(comp.taken) && held == old(held)
    }

    /** Frames that are free, or will be once the completions pending now are reclaimed. */
    ghost function Spare(): int
      reads umem, comp
    {
      |umem.stack| + |comp.published| - comp.taken
    }

    /** As many frames as packets were put back on the fill ring, as far as there was room and there were frames. */
    twostate predicate Refilled(packets: nat)
      reads this, fill, umem, comp
    {
      packets <= old(fill.Free()) ==> credit >= old(credit) - packets + Min(packets, Max(old(Spare()), 0))
    }

    // ---- The kernel ----

    method KernelTakeFill()
      requires true == Conserved() && fill.Pending() != []
      modifies this`kernelRx, this`moves, fill`consumer, fill`taken
      ensures true == Conserved() && KernelRan()
    {
      ghost var l, pending := Record(), fill.Pending();
      var addr := fill.KernelTake();
      kernelRx := kernelRx + multiset{config.FrameOf(addr)};
      TakeFillBooks(config, config.numFrames, prefill, moves, l, pending);
      moves := moves + [KernelTakesFill];
      assert fill.Pending() == pending[1..];
      assert Accounts() == l.books.(fill := Frames(config, pending[1..]), kernelRx := kernelRx);
    }

    method KernelDeliver(desc: XdpDesc)
      requires true == Conserved() && config.FrameOf(desc.addr) in kernelRx && |rx.Pending()| <= rx.mask
      modifies this`kernelRx, this`moves, rx`producer, rx`published, rx.slots
      ensures true == Conserved() && KernelRan()
    {
      ghost var l, pending := Record(), rx.Pending();
      rx.KernelPut(desc);
      kernelRx := kernelRx - multiset{config.FrameOf(desc.addr)};
      DeliverBooks(config, config.numFrames, prefill, moves, l, pending, desc);
      moves := moves + [KernelDelivers(config.FrameOf(desc.addr))];
      assert rx.Pending() == pending + [desc];
      assert Accounts() == l.books.(kernelRx := kernelRx, rx := DescFrames(config, pending + [desc]));
    }

    method KernelTakeTx()
      requires true == Conserved() && tx.Pending() != []
      modifies this`kernelTx, this`moves, tx`consumer, tx`taken
      ensures true == Conserved() && KernelRan()
    {
      ghost var l, pending := Record(), tx.Pending();
      var desc := tx.KernelTake();
      kernelTx := kernelTx + multiset{config.FrameOf(desc.addr)};
      TakeTxBooks(config, config.numFrames, prefill, moves, l, pending);
      moves := moves + [KernelTakesTx];
      assert tx.Pending() == pending[1..];
      assert Accounts() == l.books.(tx := DescFrames(config, pending[1..]), kernelTx := kernelTx);
    }

    method KernelComplete(addr: u64)
      requires true == Conserved() && config.IsBase(addr) && config.FrameOf(addr) in kernelTx
      requires |comp.Pending()| <= comp.mask
      modifies this`kernelTx, this`moves, comp`producer, comp`published, comp.slots
      ensures true == Conserved() && KernelRan()
    {
      ghost var l, done := Record(), Completions();
      comp.KernelPut(addr);
      kernelTx := kernelTx - multiset{config.FrameOf(addr)};
      CompleteBooks(config, config.numFrames, prefill, moves, l, done, addr);
      moves := moves + [KernelCompletes(config.FrameOf(addr))];
      assert Completions() == done + [addr];
      assert Accounts() == l.books.(kernelTx := kernelTx, comp := Frames(config, done + [addr]));
    }

    method KernelRxStep()
      requires true == Conserved()
      modifies this`kernelRx, this`moves, fill`consumer, fill`taken, rx`producer, rx`published, rx.slots
      ensures true == Conserved() && KernelRan()
    {
      var ready := fill.KernelAvailable();
      var used := rx.Available();
      var desc: XdpDesc := *;
      if {
        case ready > 0 => KernelTakeFill();
        case used <= rx.mask && config.FrameOf(desc.addr) in kernelRx => KernelDeliver(desc);
        case true =>
      }
    }

    method KernelTxStep()
      requires true == Conserved()
      modifies this`kernelTx, this`moves, tx`consumer, tx`taken, comp`producer, comp`published, comp.slots
      ensures true == Conserved() && KernelRan()
    {
      var ready := tx.KernelAvailable();
      var used := comp.Available();
      var addr: u64 := *;
      if {
        case ready > 0 => KernelTakeTx();
        case used <= comp.mask && config.IsBase(addr) && config.FrameOf(addr) in kernelTx => KernelComplete(addr);
        case true =>
      }
    }

    /** Any number of kernel steps, chosen by the environment. */
    method Interfere()
      requires true == Conserved()
      modifies this`kernelRx, this`kernelTx, this`moves, fill`consumer, fill`taken, tx`consumer, tx`taken
      modifies rx`producer, rx`published, rx.slots, comp`producer, comp`published, comp.slots
      ensures true == Conserved() && KernelRan()
    {
      var steps: nat := *;
      while steps > 0
        invariant Conserved() && KernelRan()
      {
        if * {
          KernelRxStep();
        } else {
          KernelTxStep();
        }
        steps := steps - 1;
      }
    }

    /** The kernel runs between calls. */
    method Yield()
      requires true == Valid()
      modifies this`kernelRx, this`kernelTx, this`moves, fill`consumer, fill`taken, tx`consumer, tx`taken
      modifies rx`producer, rx`published, rx.slots, comp`producer, comp`published, comp.slots
      ensures true == Valid() && KernelRan()
    {
      YieldReady(0);
    }

    method YieldReady(ghost d: nat)
      requires true == Ready(d)
      modifies this`kernelRx, this`kernelTx, this`moves, fill`consumer, fill`taken, tx`consumer, tx`taken
      modifies rx`producer, rx`published, rx.slots, comp`producer, comp`published, comp.slots
      ensures true == Ready(d) && KernelRan()
    {
      Interfere();
    }

    /** Only what is published uses up a ring. */
    twostate lemma FreeAfter()
      requires KernelRan() && fill.staged == [] && tx.staged == []
      ensures fill.Free() >= old(fill.Free()) - (|fill.published| - |old(fill.published)|)
      ensures tx.Free() >= old(tx.Free()) - (|tx.published| - |old(tx.published)|)
    {
    }

    // ---- The socket's operations ----

    constructor (c: UmemConfig, ringSize: u32, ghost filled: nat)
      requires c.Valid() && ValidSize(ringSize)
      ensures Ready(filled) && prefill == filled
      ensures fresh(umem) && fresh(umem.freeStack) && fresh(fill) && fresh(fill.slots) && fresh(comp) && fresh(comp.slots)
      ensures fresh(rx) && fresh(rx.slots) && fresh(tx) && fresh(tx.slots)
      ensures config == c && held == multiset{} && received == 0 && credit == 0
      ensures fill.Free() == ringSize && tx.mask + 1 == ringSize
      ensures fill.published == [] && tx.published == [] && tx.staged == [] && true == AllFrames(c, umem.stack)
    {
      config := c;
      umem := new FrameAllocator(c);
      fill := new ProducerRing<u64>(ringSize);
      comp := new ConsumerRing<u64>(ringSize);
      rx := new ConsumerRing<XdpDesc>(ringSize);
      tx := new ProducerRing<XdpDesc>(ringSize);
      kernelRx, kernelTx, held, inHand, reclaimed := multiset{}, multiset{}, multiset{}, multiset{}, 0;
      moves, received, credit, due, prefill := [], 0, 0, filled, filled;
      new;
      InitialBooks(c, umem.stack);
      ReachOpening(c.numFrames, filled);
      assert Wired();
      assert Record() == Opening(c.numFrames, filled);
    }

    // The atomic actions, each one move of the books.

    /** `alloc_frame` on a non-empty stack: the popped frame is now in the operation's hand. */
    method PopFrame() returns (addr: u64)
      requires true == Conserved() && umem.stack != []
      modifies umem`stackTop, umem`stack, this`inHand, this`moves
      ensures true == Conserved()
      ensures old(umem.stack) == umem.stack + [addr] && config.IsBase(addr)
      ensures inHand == old(inHand) + multiset{config.FrameOf(addr)}
    {
      ghost var l := Record();
      var r := umem.Alloc();
      addr := r.value;
      BasesPop(config, umem.stack, addr);
      inHand := inHand + multiset{config.FrameOf(addr)};
      PopBooks(config, config.numFrames, prefill, moves, l, umem.stack, addr);
      moves := moves + [Pop];
      assert Accounts() == l.books.(free := Frames(config, umem.stack), inHand := inHand);
    }

    /** `alloc_frame`. */
    method TakeFrame() returns (r: Option<u64>)
      requires true == Conserved()
      modifies umem`stackTop, umem`stack, this`inHand, this`moves
      ensures true == Conserved()
      ensures r.None? <==> old(umem.stack) == []
      ensures r.None? ==> umem.stack == old(umem.stack) && inHand == old(inHand)
      ensures r.Some? ==> old(umem.stack) == umem.stack + [r.value] && true == config.IsBase(r.value)
      ensures r.Some? ==> inHand == old(inHand) + multiset{config.FrameOf(r.value)}
    {
      if umem.stackTop == 0 {
        return None;
      }
      var addr := PopFrame();
      r := Some(addr);
    }

    method WriteFill(idx: u32, addr: u64)
      requires true == Conserved() && WrappingSub(idx, fill.producer) < |fill.staged|
      modifies fill.slots, fill`staged
      ensures true == Conserved()
      ensures fill.staged == old(fill.staged)[WrappingSub(idx, fill.producer) := addr]
    {
      ghost var b := Accounts();
      fill.Write(idx, addr);
      assert Accounts() == b;
    }

    method ReserveFill(count: u32) returns (r: Option<u32>)
      requires true == Conserved() && fill.staged == []
      modifies fill`cachedProd, fill`staged
      ensures true == Conserved()
      ensures r.Some? <==> count <= old(fill.Free())
      ensures r.None? ==> fill.staged == [] && fill.cachedProd == old(fill.cachedProd)
      ensures r.Some? ==> r.value == fill.producer && |fill.staged| == count
    {
      ghost var b := Accounts();
      r := fill.Reserve(count);
      assert Accounts() == b;
    }

    /** `submit` of a whole staged batch. */
    method PublishStaged(count: u32)
      requires true == Conserved() && |fill.staged| == count <= due && true == StagedUpTo(count)
      modifies fill`producer, fill`published, fill`staged, this`inHand, this`moves, this`credit, this`due
      ensures true == Conserved()
      ensures fill.published == old(fill.published + fill.staged) && fill.staged == []
      ensures fill.producer == fill.cachedProd && inHand == multiset{} && credit == old(credit) + count && due == 0
    {
      assert fill.staged[..count] == fill.staged;
      PublishAll(count);
    }

    method PublishAll(count: u32)
      requires true == Conserved() && |fill.staged| == count <= due && inHand == multiset(Frames(config, fill.staged))
      modifies fill`producer, fill`published, fill`staged, this`inHand, this`moves, this`credit, this`due
      ensures true == Conserved()
      ensures fill.published == old(fill.published + fill.staged) && fill.staged == []
      ensures fill.producer == fill.cachedProd && inHand == multiset{} && credit == old(credit) + count && due == 0
    {
      ghost var pending, batch := fill.Pending(), fill.staged;
      ghost var l := PublishBooks(config, config.numFrames, prefill, moves, Record(), pending, batch);
      SubmitStaged(count);
      moves := moves + [PublishFill(Frames(config, batch))];
      inHand, credit, due := multiset{}, l.credit, 0;
      assert Record() == l;
    }

    method SubmitStaged(count: u32)
      requires true == Wired() && |fill.staged| == count
      modifies fill`producer, fill`published, fill`staged
      ensures true == Wired() && fill.published == old(fill.published + fill.staged) && fill.staged == []
      ensures fill.Pending() == old(fill.Pending() + fill.staged) && fill.producer == fill.cachedProd
    {
      ghost var batch := fill.staged;
      fill.Submit(count);
      assert batch[..count] == batch;
    }

    /** Pushes the `i`-th pending completion back on the free stack. */
    method ReclaimOne(i: u32)
      requires true == Conserved() && i == reclaimed && comp.taken + i < |comp.published|
      modifies umem`stackTop, umem`stack, umem.freeStack, this`reclaimed, this`moves
      ensures true == Conserved()
      ensures reclaimed == i + 1 && umem.stack == old(umem.stack) + [comp.published[comp.taken + i]]
    {
      ghost var l, stack, done := Record(), umem.stack, Completions();
      var addr := comp.Peek(i);
      assert addr == done[0];
      ReclaimAllowed(config, config.numFrames, prefill, moves, l, stack, done);
      ReclaimBooks(config, config.numFrames, prefill, moves, l, stack, done);
      umem.Free(addr);
      moves := moves + [Reclaim];
      reclaimed := reclaimed + 1;
      assert Completions() == done[1..];
      assert Accounts() == l.books.(free := Frames(config, stack + [done[0]]), comp := Frames(config, done[1..]));
    }

    method ReleaseCompleted(count: u32)
      requires true == Conserved() && count == reclaimed
      modifies comp`cachedCons, comp`consumer, comp`taken, this`reclaimed
      ensures true == Conserved()
      ensures comp.taken == old(comp.taken) + count && reclaimed == 0
    {
      ghost var b, done := Accounts(), Completions();
      if count > 0 {
        comp.Release(count);
      }
      reclaimed := 0;
      assert Completions() == done;
      assert Accounts() == b;
    }

    /** `release` on the RX ring: the packets' frames stay with the application. */
    method ReleaseReceived(count: u32)
      requires true == Conserved() && count <= |rx.Pending()|
      modifies rx`cachedCons, rx`consumer, rx`taken, this`held, this`moves, this`received, this`credit, this`due
      ensures true == Conserved()
      ensures rx.taken == old(rx.taken) + count
      ensures received == old(received) + count && credit == old(credit) - count && due == count
      ensures held == old(held) + multiset(DescFrames(config, old(rx.Pending())[..count]))
    {
      ghost var pending := rx.Pending();
      ghost var l := ReceiveBooks(config, config.numFrames, prefill, moves, Record(), pending, count);
      TakeReceived(count);
      moves := moves + [Receive(count)];
      held, received, credit, due := l.books.held, l.received, l.credit, l.due;
      assert Record() == l;
    }

    method TakeReceived(count: u32)
      requires true == Wired() && count <= |rx.Pending()|
      modifies rx`cachedCons, rx`consumer, rx`taken
      ensures true == Wired() && rx.taken == old(rx.taken) + count
      ensures rx.Pending() == old(rx.Pending())[count..]
    {
      rx.Release(count);
    }

    /** The call that could refill the fill ring is over. */
    ghost method Settle()
      requires true == Conserved()
      modifies this`moves, this`due
      ensures true == Conserved() && due == 0
    {
      ReachStep(config.numFrames, prefill, moves, Record(), CallReturns);
      moves, due := moves + [CallReturns], 0;
    }

    /** The popped frame passes from the operation to the application. */
    method HandOutFrame(addr: u64)
      requires true == Conserved() && inHand == multiset{config.FrameOf(addr)}
      modifies this`inHand, this`held, this`moves
      ensures true == Conserved()
      ensures inHand == multiset{} && held == old(held) + multiset{config.FrameOf(addr)}
    {
      ghost var l := Record();
      HandOutBooks(config.numFrames, prefill, moves, l, config.FrameOf(addr));
      moves := moves + [HandOut(config.FrameOf(addr))];
      held, inHand := held + inHand, multiset{};
      assert Accounts() == l.books.(inHand := multiset{}, held := held);
    }

    method ReserveTx() returns (r: Option<u32>)
      requires true == Conserved() && tx.staged == []
      modifies tx`cachedProd, tx`staged
      ensures true == Conserved()
      ensures r.Some? <==> old(tx.Free()) > 0
      ensures r.None? ==> tx.staged == [] && tx.cachedProd == old(tx.cachedProd)
      ensures r.Some? ==> r.value == tx.producer && |tx.staged| == 1
    {
      ghost var b := Accounts();
      r := tx.Reserve(1);
      assert Accounts() == b;
    }

    method WriteTx(idx: u32, desc: XdpDesc)
      requires true == Conserved() && idx == tx.producer && |tx.staged| == 1
      modifies tx.slots, tx`staged
      ensures true == Conserved() && tx.staged == [desc]
    {
      ghost var b := Accounts();
      tx.Write(idx, desc);
      assert Accounts() == b;
    }

    method SubmitTx(ghost desc: XdpDesc)
      requires true == Conserved() && tx.staged == [desc] && config.FrameOf(desc.addr) in held
      modifies tx`producer, tx`published, tx`staged, this`held, this`moves
      ensures true == Conserved()
      ensures tx.staged == [] && tx.cachedProd == tx.producer && tx.published == old(tx.published) + [desc]
      ensures held == old(held) - multiset{config.FrameOf(desc.addr)}
    {
      ghost var l, pending := Record(), tx.Pending();
      tx.Submit(1);
      held := held - multiset{config.FrameOf(desc.addr)};
      TransmitBooks(config, config.numFrames, prefill, moves, l, pending, desc);
      moves := moves + [Transmit(config.FrameOf(desc.addr))];
      assert tx.Pending() == pending + [desc];
      assert Accounts() == l.books.(held := held, tx := DescFrames(config, pending + [desc]));
    }

    /** The application returns a frame it holds, through `Umem::free_frame`. */
    method ReturnFrame(addr: u64)
      requires true == Valid() && config.IsBase(addr) && config.FrameOf(addr) in held
      modifies umem`stackTop, umem`stack, umem.freeStack, this`held, this`moves
      ensures Valid()
      ensures held == old(held) - multiset{config.FrameOf(addr)} && umem.stack == old(umem.stack) + [addr]
    {
      ghost var l, stack := Record(), umem.stack;
      ReturnAllowed(config, config.numFrames, prefill, moves, l, stack, addr);
      ReturnBooks(config, config.numFrames, prefill, moves, l, stack, addr);
      umem.Free(addr);
      moves := moves + [Return(config.FrameOf(addr))];
      held := held - multiset{config.FrameOf(addr)};
      assert Accounts() == l.books.(held := held, free := Frames(config, stack + [addr]));
    }

    // The public operations and the loops they share.

    /** The first `i` reserved fill slots hold exactly the frames in hand. */
    ghost predicate StagedUpTo(i: nat)
      reads this, fill
    {
      config.Valid() && i <= |fill.staged| && inHand == multiset(Frames(config, fill.staged[..i]))
    }

    method StageWrite(start: u32, i: u32, addr: u64)
      requires true == Conserved() && start == fill.producer && i < |fill.staged| < U32_MODULUS
      requires inHand == multiset(Frames(config, fill.staged[..i])) + multiset{config.FrameOf(addr)}
      modifies fill.slots, fill`staged
      ensures true == Conserved() && fill.staged == old(fill.staged)[i := addr] && true == StagedUpTo(i + 1)
    {
      WrappedOffset(start, i);
      ghost var done := fill.staged[..i];
      WriteFill(WrappingAdd(start, i), addr);
      FramesAppend(config, done, addr);
      assert fill.staged[..i + 1] == done + [addr];
    }

    /** Takes a frame for the `i`-th reserved fill slot and writes it there. */
    method StageOne(start: u32, i: u32) returns (addr: u64)
      requires true == Conserved() && umem.stack != []
      requires start == fill.producer && i < |fill.staged| < U32_MODULUS
      requires true == StagedUpTo(i)
      modifies umem`stackTop, umem`stack, this`inHand, fill.slots, fill`staged
      modifies this`kernelRx, this`kernelTx, this`moves, fill`consumer, fill`taken, tx`consumer, tx`taken
      modifies rx`producer, rx`published, rx.slots, comp`producer, comp`published, comp.slots
      ensures true == Conserved() && KernelRan()
      ensures old(umem.stack) == umem.stack + [addr] && fill.staged == old(fill.staged)[i := addr]
      ensures true == StagedUpTo(i + 1)
    {
      addr := TakeThenYield();
      StageWrite(start, i, addr);
    }

    /** `alloc_frame` where a frame is known to be free. */
    method TakeThenYield() returns (addr: u64)
      requires true == Conserved() && umem.stack != []
      modifies umem`stackTop, umem`stack, this`inHand
      modifies this`kernelRx, this`kernelTx, this`moves, fill`consumer, fill`taken, tx`consumer, tx`taken
      modifies rx`producer, rx`published, rx.slots, comp`producer, comp`published, comp.slots
      ensures true == Conserved() && KernelRan()
      ensures old(umem.stack) == umem.stack + [addr] && inHand == old(inHand) + multiset{config.FrameOf(addr)}
    {
      var r := TakeFrame();
      if r.None? {
        assert false;
      }
      addr := r.value;
      Interfere();
    }

    /** `i` of `count` reserved slots are staged with the topmost frames of those that were free. */
    ghost predicate Staging(i: nat, count: nat, before: seq<u64>)
      reads this, fill, umem
    {
      i <= count == |fill.staged| <= |before| && StagedUpTo(i) && FromTop(before, umem.stack, fill.staged, i)
    }

    method StageThenYield(start: u32, i: u32, count: u32, ghost before: seq<u64>)
      requires true == Conserved() && start == fill.producer && i < count && true == Staging(i, count, before)
      modifies umem`stackTop, umem`stack, this`inHand, fill.slots, fill`staged
      modifies this`kernelRx, this`kernelTx, this`moves, fill`consumer, fill`taken, tx`consumer, tx`taken
      modifies rx`producer, rx`published, rx.slots, comp`producer, comp`published, comp.slots
      ensures true == Conserved() && KernelRan() && true == Staging(i + 1, count, before)
    {
      ghost var middle, staged := umem.stack, fill.staged;
      var addr := StageOne(start, i);
      FromTopStep(before, middle, umem.stack, staged, fill.staged, i, addr);
      Interfere();
    }

    /**
     The loop of `prefill_fill_ring` and of `refill_frames`: one frame per
     reserved fill slot. Both bound the loop by the number of free frames, and
     the kernel never pops the free stack, so their branch for an empty stack,
     asserted false in `TakeThenYield`, is dead.
    */
    method StageFrames(start: u32, count: u32)
      requires true == Conserved() && start == fill.producer && true == Staging(0, count, umem.stack)
      modifies umem`stackTop, umem`stack, this`inHand, fill.slots, fill`staged
      modifies this`kernelRx, this`kernelTx, this`moves, fill`consumer, fill`taken, tx`consumer, tx`taken
      modifies rx`producer, rx`published, rx.slots, comp`producer, comp`published, comp.slots
      ensures true == Conserved() && KernelRan() && true == Staging(count, count, old(umem.stack))
    {
      ghost var before := umem.stack;
      for i := 0 to count
        invariant true == Conserved() && KernelRan() && true == Staging(i, count, before)
      {
        StageThenYield(start, i, count, before);
      }
    }

    ghost predicate CompletionsAhead(done: seq<u64>)
      reads comp
    {
      done <= comp.published[Min(comp.taken, |comp.published|)..]
    }

    /** The first `i` of the completions `done` have been pushed on the stack `before`, and the rest are still ahead. */
    ghost predicate ReclaimedUpTo(before: seq<u64>, done: seq<u64>, i: nat)
      reads this, umem, comp
    {
      i == reclaimed && i <= |done| && umem.stack == before + done[..i] && CompletionsAhead(done)
    }

    method ReclaimThenYield(i: u32, ghost before: seq<u64>, ghost done: seq<u64>)
      requires true == Conserved() && i < |done| && true == ReclaimedUpTo(before, done, i)
      modifies umem`stackTop, umem`stack, umem.freeStack, this`reclaimed
      modifies this`kernelRx, this`kernelTx, this`moves, fill`consumer, fill`taken, tx`consumer, tx`taken
      modifies rx`producer, rx`published, rx.slots, comp`producer, comp`published, comp.slots
      ensures true == Conserved() && KernelRan() && true == ReclaimedUpTo(before, done, i + 1)
    {
      ReclaimOne(i);
      assert umem.stack == before + done[..i + 1];
      Interfere();
    }

    method ReclaimEach(count: u32, ghost done: seq<u64>)
      requires true == Conserved() && count == |done| && true == ReclaimedUpTo(umem.stack, done, 0)
      modifies umem`stackTop, umem`stack, umem.freeStack, this`reclaimed
      modifies this`kernelRx, this`kernelTx, this`moves, fill`consumer, fill`taken, tx`consumer, tx`taken
      modifies rx`producer, rx`published, rx.slots, comp`producer, comp`published, comp.slots
      ensures true == Conserved() && KernelRan() && true == ReclaimedUpTo(old(umem.stack), done, count)
    {
      ghost var before := umem.stack;
      for i := 0 to count
        invariant true == Conserved() && KernelRan() && true == ReclaimedUpTo(before, done, i)
      {
        ReclaimThenYield(i, before, done);
      }
    }

    /** Frees every completion that is pending when it is called, and no other. */
    method ReclaimCompleted()
      requires true == Conserved() && reclaimed == 0
      modifies umem`stackTop, umem`stack, umem.freeStack, this`reclaimed, comp`cachedCons, comp`consumer, comp`taken
      modifies this`kernelRx, this`kernelTx, this`moves, fill`consumer, fill`taken, tx`consumer, tx`taken
      modifies rx`producer, rx`published, rx.slots, comp`producer, comp`published, comp.slots
      ensures true == Conserved() && KernelRan() && reclaimed == 0
      ensures comp.taken == |old(comp.published)|
      ensures umem.stack == old(umem.stack + comp.Pending())
    {
      var completed := comp.Available();
      ghost var done := comp.Pending();
      ReclaimEach(completed, done);
      assert done[..completed] == done;
      ReleaseCompleted(completed);
    }

    /** As between calls, but for `count` reserved fill slots. */
    ghost predicate FillReserved(count: nat)
      reads Repr()
    {
      && Conserved()
      && inHand == multiset{} && reclaimed == 0
      && |fill.staged| == count <= due && tx.staged == []
      && tx.cachedProd == tx.producer
    }

    method ReserveBatch(count: u32, ghost d: nat) returns (r: Option<u32>)
      requires true == Ready(d) && count <= d
      modifies fill`cachedProd, fill`staged
      ensures r.Some? <==> count <= old(fill.Free())
      ensures r.None? ==> true == Ready(d)
      ensures r.Some? ==> true == FillReserved(count) && r.value == fill.producer
    {
      r := ReserveFill(count);
    }

    method StageAndPublish(start: u32, count: u32)
      requires true == FillReserved(count) && start == fill.producer && count <= |umem.stack|
      modifies umem`stackTop, umem`stack, this`inHand, this`credit, this`due, fill.slots, fill`staged, fill`producer, fill`published
      modifies this`kernelRx, this`kernelTx, this`moves, fill`consumer, fill`taken, tx`consumer, tx`taken
      modifies rx`producer, rx`published, rx.slots, comp`producer, comp`published, comp.slots
      ensures true == Valid() && KernelRan()
      ensures credit == old(credit) + count
      ensures true == MovedFromTop(old(umem.stack), umem.stack, old(fill.published), fill.published, count)
    {
      assert StagedUpTo(0);
      StageFrames(start, count);
      MovedStaged(old(umem.stack), umem.stack, fill.published, fill.staged, count);
      PublishStaged(count);
    }

    /** Moves `count` free frames onto the fill ring, or none when the ring lacks room for all of them. */
    method FillFrom(count: u32, ghost d: nat) returns (ok: bool)
      requires true == Ready(d) && count <= d && count <= |umem.stack|
      modifies umem`stackTop, umem`stack, this`inHand, this`credit, this`due
      modifies fill.slots, fill`cachedProd, fill`staged, fill`producer, fill`published
      modifies this`kernelRx, this`kernelTx, this`moves, fill`consumer, fill`taken, tx`consumer, tx`taken
      modifies rx`producer, rx`published, rx.slots, comp`producer, comp`published, comp.slots
      ensures true == Ready(if ok then 0 else d) && KernelRan()
      ensures count <= old(fill.Free()) <==> ok
      ensures credit == old(credit) + (if ok then count else 0)
      ensures true == MovedFromTop(old(umem.stack), umem.stack, old(fill.published), fill.published, if ok then count else 0)
    {
      MovedNone(umem.stack, fill.published);
      var start := ReserveBatch(count, d);
      ok := start.Some?;
      if ok {
        StageAndPublish(start.value, count);
      }
    }

    /**
     `prefill_fill_ring`, which fails only when its batch does not fit the ring; also
     the second half of `refill_frames`, which ignores that failure.
    */
    method PrefillFillRing(count: u32) returns (ok: bool)
      requires true == Ready(count)
      modifies umem`stackTop, umem`stack, this`inHand, this`credit, this`due
      modifies fill.slots, fill`cachedProd, fill`staged, fill`producer, fill`published
      modifies this`kernelRx, this`kernelTx, this`moves, fill`consumer, fill`taken, tx`consumer, tx`taken
      modifies rx`producer, rx`published, rx.slots, comp`producer, comp`published, comp.slots
      ensures true == Valid() && KernelRan()
      ensures var actual := Min(count, |old(umem.stack)|);
        && (ok <==> actual == 0 || actual <= old(fill.Free()))
        && true == MovedFromTop(old(umem.stack), umem.stack, old(fill.published), fill.published, if ok then actual else 0)
        && credit == old(credit) + (if ok then actual else 0)
    {
      var free := umem.Available();
      var actual := Min(count, free);
      ok := FillUpTo(actual, count);
      Settle();
    }

    method FillUpTo(actual: u32, ghost d: nat) returns (ok: bool)
      requires true == Ready(d) && actual <= d && actual <= |umem.stack|
      modifies umem`stackTop, umem`stack, this`inHand, this`credit, this`due
      modifies fill.slots, fill`cachedProd, fill`staged, fill`producer, fill`published
      modifies this`kernelRx, this`kernelTx, this`moves, fill`consumer, fill`taken, tx`consumer, tx`taken
      modifies rx`producer, rx`published, rx.slots, comp`producer, comp`published, comp.slots
      ensures true == Ready(due) && KernelRan()
      ensures ok <==> actual == 0 || actual <= old(fill.Free())
      ensures credit == old(credit) + (if ok then actual else 0)
      ensures true == MovedFromTop(old(umem.stack), umem.stack, old(fill.published), fill.published, if ok then actual else 0)
    {
      MovedNone(umem.stack, fill.published);
      ok := true;
      if actual > 0 {
        ok := FillFrom(actual, d);
      }
    }

    /** Reclaims completions, then refills the fill ring with up to `count` frames. */
    method RefillFrames(count: u32)
      requires true == Ready(count)
      modifies umem`stackTop, umem`stack, umem.freeStack, this`inHand, this`reclaimed, this`credit, this`due
      modifies comp`cachedCons, comp`consumer, comp`taken
      modifies fill.slots, fill`cachedProd, fill`staged, fill`producer, fill`published
      modifies this`kernelRx, this`kernelTx, this`moves, fill`consumer, fill`taken, tx`consumer, tx`taken
      modifies rx`producer, rx`published, rx.slots, comp`producer, comp`published, comp.slots
      ensures true == Valid() && KernelRan()
      ensures comp.taken == |old(comp.published)| && |fill.published| >= |old(fill.published)|
      ensures var free, moved := old(umem.stack + comp.Pending()), |fill.published| - |old(fill.published)|;
        && true == MovedFromTop(free, umem.stack, old(fill.published), fill.published, moved)
        && credit == old(credit) + moved
        && (moved == 0 || moved == Min(count, |free|))
        && (count <= old(fill.Free()) ==> moved == Min(count, |free|))
    {
      ReclaimThenRest(count);
      var ok := PrefillFillRing(count);
    }

    method ReclaimThenRest(ghost d: nat)
      requires true == Ready(d)
      modifies umem`stackTop, umem`stack, umem.freeStack, this`reclaimed, comp`cachedCons, comp`consumer, comp`taken
      modifies this`kernelRx, this`kernelTx, this`moves, fill`consumer, fill`taken, tx`consumer, tx`taken
      modifies rx`producer, rx`published, rx.slots, comp`producer, comp`published, comp.slots
      ensures true == Ready(d) && KernelRan()
      ensures comp.taken == |old(comp.published)| && fill.Free() >= old(fill.Free())
      ensures umem.stack == old(umem.stack + comp.Pending())
    {
      ReclaimCompleted();
      YieldReady(d);
      FreeAfter();
    }

    ghost predicate BatchAhead(batch: seq<XdpDesc>)
      reads rx
    {
      batch <= rx.published[Min(rx.taken, |rx.published|)..]
    }

    method NextDesc(i: u32, ghost batch: seq<XdpDesc>) returns (desc: XdpDesc)
      requires true == Conserved() && true == BatchAhead(batch) && i < |batch|
      modifies this`kernelRx, this`kernelTx, this`moves, fill`consumer, fill`taken, tx`consumer, tx`taken
      modifies rx`producer, rx`published, rx.slots, comp`producer, comp`published, comp.slots
      ensures true == Conserved() && KernelRan() && true == BatchAhead(batch)
      ensures desc == batch[i]
    {
      desc := rx.Peek(i);
      Interfere();
    }

    /** One turn of the receive loop. */
    method HandleNext(
        processed: u32, packets: seq<XdpDesc>, handler: (nat, XdpDesc) -> bool, ghost batch: seq<XdpDesc>)
      returns (packets': seq<XdpDesc>, go: bool)
      requires true == Conserved() && true == BatchAhead(batch) && processed < |batch|
      requires config.Valid() && true == BatchSoFar(config, handler, batch, processed, packets, true)
      modifies this`kernelRx, this`kernelTx, this`moves, fill`consumer, fill`taken, tx`consumer, tx`taken
      modifies rx`producer, rx`published, rx.slots, comp`producer, comp`published, comp.slots
      ensures true == Conserved() && KernelRan() && true == BatchAhead(batch)
      ensures true == BatchSoFar(config, handler, batch, processed + 1, packets', go)
    {
      var desc := NextDesc(processed, batch);
      BatchStep(config, handler, batch, processed, packets);
      var (seen, next) := HandleDesc(config, handler, processed, desc, packets);
      packets', go := seen, next;
    }

    /** The receive loop over the entries visible when the call looked. */
    method HandlePackets(available: u32, handler: (nat, XdpDesc) -> bool, ghost batch: seq<XdpDesc>)
      returns (processed: u32, packets: seq<XdpDesc>)
      requires true == Conserved() && true == BatchAhead(batch) && |batch| == available && config.Valid()
      modifies this`kernelRx, this`kernelTx, this`moves, fill`consumer, fill`taken, tx`consumer, tx`taken
      modifies rx`producer, rx`published, rx.slots, comp`producer, comp`published, comp.slots
      ensures true == Conserved() && KernelRan() && true == BatchAhead(batch)
      ensures true == BatchOutcome(config, handler, batch, processed, packets)
    {
      processed, packets := 0, [];
      BatchStart(config, handler, batch);
      for i := 0 to available
        invariant processed == i
        invariant true == Conserved() && KernelRan() && true == BatchAhead(batch)
        invariant true == BatchSoFar(config, handler, batch, i, packets, true)
      {
        var go;
        packets, go := HandleNext(i, packets, handler, batch);
        processed := i + 1;
        if !go {
          BatchEnd(config, handler, batch, processed, packets, false);
          return;
        }
      }
      BatchEnd(config, handler, batch, processed, packets, true);
    }

    /** Consumes the handled packets and puts as many free frames on the fill ring as there are. */
    method ReleaseAndRefill(processed: u32, ghost batch: seq<XdpDesc>)
      requires true == Valid() && true == BatchAhead(batch) && processed <= |batch|
      modifies umem`stackTop, umem`stack, umem.freeStack, this`inHand, this`reclaimed, this`held, this`received, this`credit, this`due
      modifies comp`cachedCons, comp`consumer, comp`taken, rx`cachedCons, rx`consumer, rx`taken
      modifies fill.slots, fill`cachedProd, fill`staged, fill`producer, fill`published
      modifies this`kernelRx, this`kernelTx, this`moves, fill`consumer, fill`taken, tx`consumer, tx`taken
      modifies rx`producer, rx`published, rx.slots, comp`producer, comp`published, comp.slots
      ensures true == Valid() && KernelRan()
      ensures rx.taken == old(rx.taken) + processed
      ensures held == old(held) + multiset(DescFrames(config, batch[..processed]))
      ensures comp.taken >= |old(comp.published)|
      ensures received == old(received) + processed && credit <= old(credit) && processed <= old(credit) && Refilled(processed)
    {
      assert batch[..processed] == rx.Pending()[..processed];
      ReleaseReceived(processed);
      YieldReady(processed);
      RefillFrames(processed);
    }

    method ReceiveVisible(available: u32, handler: (nat, XdpDesc) -> bool, ghost batch: seq<XdpDesc>)
      returns (processed: u32, packets: seq<XdpDesc>)
      requires true == Valid() && true == BatchAhead(batch) && |batch| == available && config.Valid()
      modifies umem`stackTop, umem`stack, umem.freeStack, this`inHand, this`reclaimed, this`held, this`received, this`credit, this`due
      modifies comp`cachedCons, comp`consumer, comp`taken, rx`cachedCons, rx`consumer, rx`taken
      modifies fill.slots, fill`cachedProd, fill`staged, fill`producer, fill`published
      modifies this`kernelRx, this`kernelTx, this`moves, fill`consumer, fill`taken, tx`consumer, tx`taken
      modifies rx`producer, rx`published, rx.slots, comp`producer, comp`published, comp.slots
      ensures true == Valid() && KernelRan()
      ensures rx.taken == old(rx.taken) + processed && comp.taken >= |old(comp.published)|
      ensures received == old(received) + processed && credit <= old(credit) && processed <= old(credit) && Refilled(processed)
      ensures true == BatchOutcome(config, handler, batch, processed, packets)
      ensures held == old(held) + multiset(DescFrames(config, batch[..processed]))
    {
      processed, packets := HandlePackets(available, handler, batch);
      ReleaseAndRefill(processed, batch);
    }

    /**
     Receives up to `maxBatch` packets. `handler` answers for the `i`-th
     descriptor of the batch whether to go on; descriptors that fail the bounds
     check are skipped and consumed. Every consumed frame stays held.
    */
    method RecvBatch(maxBatch: u32, handler: (nat, XdpDesc) -> bool) returns (processed: u32, packets: seq<XdpDesc>)
      requires true == Valid()
      modifies umem`stackTop, umem`stack, umem.freeStack, this`inHand, this`reclaimed, this`held, this`received, this`credit, this`due
      modifies comp`cachedCons, comp`consumer, comp`taken, rx`cachedCons, rx`consumer, rx`taken
      modifies fill.slots, fill`cachedProd, fill`staged, fill`producer, fill`published
      modifies this`kernelRx, this`kernelTx, this`moves, fill`consumer, fill`taken, tx`consumer, tx`taken
      modifies rx`producer, rx`published, rx.slots, comp`producer, comp`published, comp.slots
      ensures true == Valid() && KernelRan()
      ensures rx.taken == old(rx.taken) + processed
      ensures received == old(received) + processed && credit <= old(credit) && processed <= old(credit) && Refilled(processed)
      ensures var batch := old(rx.Pending())[..Min(maxBatch, |old(rx.Pending())|)];
        && config.Valid() && true == BatchOutcome(config, handler, batch, processed, packets)
        && held == old(held) + multiset(DescFrames(config, batch[..processed]))
      ensures processed > 0 ==> comp.taken >= |old(comp.published)|
    {
      var pending := rx.Available();
      var available := Min(pending, maxBatch);
      ghost var batch := rx.Pending()[..available];
      if available == 0 {
        assert batch == [] && DescFrames(config, batch[..0]) == [];
        return 0, [];
      }
      processed, packets := ReceiveVisible(available, handler, batch);
    }

    /** The loop of `recv`. */
    method ReadDescs(available: u32, ghost batch: seq<XdpDesc>) returns (packets: seq<XdpDesc>)
      requires true == Conserved() && true == BatchAhead(batch) && |batch| == available
      modifies this`kernelRx, this`kernelTx, this`moves, fill`consumer, fill`taken, tx`consumer, tx`taken
      modifies rx`producer, rx`published, rx.slots, comp`producer, comp`published, comp.slots
      ensures true == Conserved() && KernelRan() && true == BatchAhead(batch)
      ensures true == ReadSoFar(batch, available, packets)
    {
      packets := [];
      for i := 0 to available
        invariant true == Conserved() && KernelRan() && true == BatchAhead(batch)
        invariant true == ReadSoFar(batch, i, packets)
      {
        packets := ReadNext(i, packets, batch);
      }
    }

    method ReadNext(i: u32, packets: seq<XdpDesc>, ghost batch: seq<XdpDesc>) returns (packets': seq<XdpDesc>)
      requires true == Conserved() && true == BatchAhead(batch) && i < |batch| && true == ReadSoFar(batch, i, packets)
      modifies this`kernelRx, this`kernelTx, this`moves, fill`consumer, fill`taken, tx`consumer, tx`taken
      modifies rx`producer, rx`published, rx.slots, comp`producer, comp`published, comp.slots
      ensures true == Conserved() && KernelRan() && true == BatchAhead(batch)
      ensures true == ReadSoFar(batch, i + 1, packets')
    {
      var desc := NextDesc(i, batch);
      packets' := packets + [desc];
    }

    method ReceiveRaw(available: u32, ghost batch: seq<XdpDesc>) returns (packets: seq<XdpDesc>)
      requires true == Valid() && true == BatchAhead(batch) && |batch| == available
      modifies umem`stackTop, umem`stack, umem.freeStack, this`inHand, this`reclaimed, this`held, this`received, this`credit, this`due
      modifies comp`cachedCons, comp`consumer, comp`taken, rx`cachedCons, rx`consumer, rx`taken
      modifies fill.slots, fill`cachedProd, fill`staged, fill`producer, fill`published
      modifies this`kernelRx, this`kernelTx, this`moves, fill`consumer, fill`taken, tx`consumer, tx`taken
      modifies rx`producer, rx`published, rx.slots, comp`producer, comp`published, comp.slots
      ensures true == Valid() && KernelRan()
      ensures packets == batch && received == old(received) + |packets| && credit <= old(credit) && |packets| <= old(credit)
      ensures Refilled(|packets|)
      ensures held == old(held) + multiset(DescFrames(config, packets))
    {
      packets := ReadDescs(available, batch);
      assert packets == batch;
      ReleaseAndRefill(available, batch);
      assert batch[..available] == batch;
    }

    /** `recv`: passes on the addresses and lengths of all visible packets, up to `maxBatch`. */
    method Recv(maxBatch: u32) returns (packets: seq<XdpDesc>)
      requires true == Valid()
      modifies umem`stackTop, umem`stack, umem.freeStack, this`inHand, this`reclaimed, this`held, this`received, this`credit, this`due
      modifies comp`cachedCons, comp`consumer, comp`taken, rx`cachedCons, rx`consumer, rx`taken
      modifies fill.slots, fill`cachedProd, fill`staged, fill`producer, fill`published
      modifies this`kernelRx, this`kernelTx, this`moves, fill`consumer, fill`taken, tx`consumer, tx`taken
      modifies rx`producer, rx`published, rx.slots, comp`producer, comp`published, comp.slots
      ensures true == Valid() && KernelRan()
      ensures packets == old(rx.Pending())[..Min(maxBatch, |old(rx.Pending())|)]
      ensures received == old(received) + |packets| && credit <= old(credit) && |packets| <= old(credit) && Refilled(|packets|)
      ensures held == old(held) + multiset(DescFrames(config, packets))
    {
      var pending := rx.Available();
      var available := Min(pending, maxBatch);
      ghost var batch := rx.Pending()[..available];
      if available == 0 {
        assert batch == [] && DescFrames(config, batch) == [];
        return [];
      }
      packets := ReceiveRaw(available, batch);
    }

    /** Makes room in the TX ring the way `send_reserve` does: by reclaiming completions once. */
    method CheckTxRoom() returns (room: bool)
      requires true == Valid()
      modifies umem`stackTop, umem`stack, umem.freeStack, this`reclaimed, comp`cachedCons, comp`consumer, comp`taken
      modifies this`kernelRx, this`kernelTx, this`moves, fill`consumer, fill`taken, tx`consumer, tx`taken
      modifies rx`producer, rx`published, rx.slots, comp`producer, comp`published, comp.slots
      ensures true == Valid() && KernelRan()
      ensures room ==> tx.Free() > 0
      ensures old(tx.Free()) > 0 ==> room && tx.Free() > 0 && umem.stack == old(umem.stack) && comp.taken == old(comp.taken)
      ensures old(tx.Free()) <= 0 ==> comp.taken >= |old(comp.published)| && |umem.stack| >= old(Spare())
      ensures |umem.stack| >= |old(umem.stack)|
    {
      room := PollTx();
      if !room {
        room := ReclaimAndPoll();
      }
    }

    method ReclaimAndPoll() returns (room: bool)
      requires true == Valid()
      modifies umem`stackTop, umem`stack, umem.freeStack, this`reclaimed, comp`cachedCons, comp`consumer, comp`taken
      modifies this`kernelRx, this`kernelTx, this`moves, fill`consumer, fill`taken, tx`consumer, tx`taken
      modifies rx`producer, rx`published, rx.slots, comp`producer, comp`published, comp.slots
      ensures true == Valid() && KernelRan()
      ensures room ==> tx.Free() > 0
      ensures comp.taken == |old(comp.published)| && umem.stack == old(umem.stack + comp.Pending())
    {
      ReclaimCompleted();
      room := PollTx();
    }

    /** `tx.free_slots() != 0`; the kernel may free more slots before the caller acts on it. */
    method PollTx() returns (room: bool)
      requires true == Valid()
      modifies this`kernelRx, this`kernelTx, this`moves, fill`consumer, fill`taken, tx`consumer, tx`taken
      modifies rx`producer, rx`published, rx.slots, comp`producer, comp`published, comp.slots
      ensures true == Valid() && KernelRan()
      ensures room ==> tx.Free() > 0
      ensures room <==> old(tx.Free()) > 0
    {
      var slots := tx.FreeSlots();
      room := slots > 0;
      Interfere();
    }

    /** Hands out one free frame for a packet that fits, if the TX ring has room for it. */
    method SendReserve(len: u32) returns (r: Option<u64>)
      requires true == Valid()
      modifies umem`stackTop, umem`stack, umem.freeStack, this`reclaimed, this`inHand, this`held
      modifies comp`cachedCons, comp`consumer, comp`taken
      modifies this`kernelRx, this`kernelTx, this`moves, fill`consumer, fill`taken, tx`consumer, tx`taken
      modifies rx`producer, rx`published, rx.slots, comp`producer, comp`published, comp.slots
      ensures true == Valid() && KernelRan()
      ensures r.None? ==> held == old(held)
      ensures r.Some? ==> true == config.IsBase(r.value) && held == old(held) + multiset{config.FrameOf(r.value)}
      ensures r.Some? ==> tx.Free() > 0 && len <= config.MaxPacketSize()
      ensures old(tx.Free()) > 0 ==> (r.Some? <==> len <= config.MaxPacketSize() && old(umem.stack) != [])
      ensures old(tx.Free()) > 0 && r.Some? ==> old(umem.stack) == umem.stack + [r.value]
      ensures old(tx.Free()) <= 0 && len <= config.MaxPacketSize() ==>
        comp.taken >= |old(comp.published)| && |umem.stack| + (if r.Some? then 1 else 0) >= old(Spare())
      ensures old(Stalled()) ==> StillStalled()
      ensures |umem.stack| >= |old(umem.stack)| - (if r.Some? then 1 else 0)
    {
      if len > config.MaxPacketSize() {
        return None;
      }
      var room := CheckTxRoom();
      if !room {
        return None;
      }
      r := ReserveFrame(len);
    }

    /** The frame passes the packet bounds check, so the branch that would return it is dead. */
    method ReserveFrame(len: u32) returns (r: Option<u64>)
      requires true == Valid() && len <= config.MaxPacketSize()
      modifies umem`stackTop, umem`stack, this`inHand, this`held, this`moves
      ensures true == Valid()
      ensures r.None? <==> old(umem.stack) == []
      ensures if r.Some? then old(umem.stack) == umem.stack + [r.value] else umem.stack == old(umem.stack)
      ensures r.None? ==> held == old(held)
      ensures r.Some? ==> true == config.IsBase(r.value) && held == old(held) + multiset{config.FrameOf(r.value)}
    {
      r := TakeFrame();
      if r.Some? {
        FrameAccepted(r.value, len);
        if ValidatePacketBounds(config, r.value, len).Err? {
          assert false;
        }
        HandOutFrame(r.value);
      }
    }

    lemma {:induction false} FrameAccepted(addr: u64, len: u32)
      requires true == Conserved() && true == config.IsBase(addr) && config.FrameOf(addr) in inHand && len <= config.MaxPacketSize()
      ensures ValidatePacketBounds(config, addr, len).Ok?
    {
      ReachPartition(config.numFrames, prefill, moves, Record());
      assert Accounts().Count(config.FrameOf(addr)) > 0;
      BaseIsValidAddr(config, addr);
      BoundsCheckExact(config, addr, len);
    }

    /** `ok` is false where the source panics on its `expect`: exactly when the TX ring has no free slot. */
    method SendSubmit(addr: u64, len: u32) returns (ok: bool)
      requires true == Valid() && true == config.IsBase(addr) && config.FrameOf(addr) in held
      modifies tx`cachedProd, tx`staged, tx`producer, tx`published, tx.slots, this`held
      modifies this`kernelRx, this`kernelTx, this`moves, fill`consumer, fill`taken, tx`consumer, tx`taken
      modifies rx`producer, rx`published, rx.slots, comp`producer, comp`published, comp.slots
      ensures true == Valid() && KernelRan()
      ensures ok <==> old(tx.Free()) > 0
      ensures !ok ==> tx.published == old(tx.published) && held == old(held)
      ensures ok ==> addr + config.headroom < U64_MODULUS
      ensures ok ==> tx.published == old(tx.published) + [XdpDesc(addr + config.headroom, len)]
      ensures ok ==> held == old(held) - multiset{config.FrameOf(addr)}
    {
      DescInFrame(addr);
      ok := TrySubmit(XdpDesc(addr + config.headroom, len));
    }

    method TrySubmit(desc: XdpDesc) returns (ok: bool)
      requires true == Valid() && config.FrameOf(desc.addr) in held
      modifies tx`cachedProd, tx`staged, tx`producer, tx`published, tx.slots, this`held
      modifies this`kernelRx, this`kernelTx, this`moves, fill`consumer, fill`taken, tx`consumer, tx`taken
      modifies rx`producer, rx`published, rx.slots, comp`producer, comp`published, comp.slots
      ensures true == Valid() && KernelRan()
      ensures ok <==> old(tx.Free()) > 0
      ensures !ok ==> tx.published == old(tx.published) && held == old(held)
      ensures ok ==> tx.published == old(tx.published) + [desc]
      ensures ok ==> held == old(held) - multiset{config.FrameOf(desc.addr)}
    {
      var idx := ReserveSlot();
      ok := idx.Some?;
      if ok {
        WriteAndSubmit(idx.value, desc);
      }
    }

    /** As between calls, but for one reserved TX slot. */
    ghost predicate SlotReserved()
      reads Repr()
    {
      && Conserved()
      && inHand == multiset{} && reclaimed == 0
      && fill.staged == [] && |tx.staged| == 1 && due == 0
      && fill.cachedProd == fill.producer
    }

    method ReserveSlot() returns (r: Option<u32>)
      requires true == Valid()
      modifies tx`cachedProd, tx`staged
      ensures r.Some? <==> old(tx.Free()) > 0
      ensures r.None? ==> true == Valid()
      ensures r.Some? ==> true == SlotReserved() && r.value == tx.producer
    {
      r := ReserveTx();
    }

    method WriteAndSubmit(idx: u32, desc: XdpDesc)
      requires true == SlotReserved() && idx == tx.producer && config.FrameOf(desc.addr) in held
      modifies tx`producer, tx`published, tx`staged, tx.slots, this`held
      modifies this`kernelRx, this`kernelTx, this`moves, fill`consumer, fill`taken, tx`consumer, tx`taken
      modifies rx`producer, rx`published, rx.slots, comp`producer, comp`published, comp.slots
      ensures true == Valid() && KernelRan() && tx.published == old(tx.published) + [desc]
      ensures held == old(held) - multiset{config.FrameOf(desc.addr)}
    {
      WriteAfterYield(idx, desc);
      SubmitAfterYield(desc);
    }

    method WriteAfterYield(idx: u32, desc: XdpDesc)
      requires true == Conserved() && idx == tx.producer && |tx.staged| == 1
      modifies tx.slots, tx`staged
      modifies this`kernelRx, this`kernelTx, this`moves, fill`consumer, fill`taken, tx`consumer, tx`taken
      modifies rx`producer, rx`published, rx.slots, comp`producer, comp`published, comp.slots
      ensures true == Conserved() && KernelRan() && tx.staged == [desc]
    {
      Interfere();
      WriteTx(idx, desc);
    }

    method SubmitAfterYield(ghost desc: XdpDesc)
      requires true == Conserved() && tx.staged == [desc] && config.FrameOf(desc.addr) in held
      modifies tx`producer, tx`published, tx`staged, this`held
      modifies this`kernelRx, this`kernelTx, this`moves, fill`consumer, fill`taken, tx`consumer, tx`taken
      modifies rx`producer, rx`published, rx.slots, comp`producer, comp`published, comp.slots
      ensures true == Conserved() && KernelRan()
      ensures tx.staged == [] && tx.cachedProd == tx.producer && tx.published == old(tx.published) + [desc]
      ensures held == old(held) - multiset{config.FrameOf(desc.addr)}
    {
      Interfere();
      SubmitTx(desc);
    }

    lemma {:induction false} DescInFrame(addr: u64)
      requires true == Conserved() && true == config.IsBase(addr) && config.FrameOf(addr) in held
      ensures addr + config.headroom < U64_MODULUS && config.FrameOf(addr + config.headroom) == config.FrameOf(addr)
    {
      ReachPartition(config.numFrames, prefill, moves, Record());
      assert Accounts().Count(config.FrameOf(addr)) > 0;
      BaseIsValidAddr(config, addr);
      FrameInsideRegion(config, addr);
      SubmittedAddressIsFrameBase(config, addr);
      FrameIsQuotient(config, addr);
      FrameIsQuotient(config, addr + config.headroom);
    }

    /**
     Sends a packet by copying it. The length is truncated to 32 bits before the
     size check, so a slice of 4 GiB or more can pass it and then panic on the
     copy. The `expect` of `send_submit` never fires.
    */
    method Send(dataLen: u64) returns (r: SendResult)
      requires true == Valid()
      modifies umem`stackTop, umem`stack, umem.freeStack, this`reclaimed, this`inHand, this`held
      modifies comp`cachedCons, comp`consumer, comp`taken
      modifies tx`cachedProd, tx`staged, tx`producer, tx`published, tx.slots
      modifies this`kernelRx, this`kernelTx, this`moves, fill`consumer, fill`taken, tx`consumer, tx`taken
      modifies rx`producer, rx`published, rx.slots, comp`producer, comp`published, comp.slots
      ensures true == Valid() && KernelRan()
      ensures r == TooLarge <==> dataLen % U32_MODULUS > config.MaxPacketSize()
      ensures r == SlicePanic ==> dataLen >= U32_MODULUS && true == OneMore(old(held), held)
      ensures r == Sent ==> true == QueuedOne(old(tx.published), tx.published, dataLen)
      ensures r != SlicePanic ==> held == old(held)
      ensures r != Sent ==> tx.published == old(tx.published)
      ensures old(tx.Free()) > 0 && old(umem.stack) != [] ==> r != Exhausted
      ensures old(tx.Free()) > 0 && r == Sent ==> true == TopQueued(old(umem.stack), old(tx.published), tx.published, config.headroom)
      ensures dataLen <= config.MaxPacketSize() ==> r == Sent || r == Exhausted
      ensures |umem.stack| >= |old(umem.stack)| - (if r == Sent || r == SlicePanic then 1 else 0)
      ensures old(Stalled()) ==> (r == TooLarge || r == Exhausted) && StillStalled()
    {
      var len := TruncatedLen(dataLen);
      if len > config.MaxPacketSize() {
        return TooLarge;
      }
      r := SendFitting(dataLen, len);
      OutcomeSays(r, dataLen, len, config.headroom, old(Now()), Now());
    }

    method SendFitting(dataLen: u64, len: u32) returns (r: SendResult)
      requires true == Valid() && len <= dataLen && len <= config.MaxPacketSize()
      modifies umem`stackTop, umem`stack, umem.freeStack, this`reclaimed, this`inHand, this`held
      modifies comp`cachedCons, comp`consumer, comp`taken
      modifies tx`cachedProd, tx`staged, tx`producer, tx`published, tx.slots
      modifies this`kernelRx, this`kernelTx, this`moves, fill`consumer, fill`taken, tx`consumer, tx`taken
      modifies rx`producer, rx`published, rx.slots, comp`producer, comp`published, comp.slots
      ensures true == Valid() && KernelRan()
      ensures true == SendOutcome(r, dataLen, len, config.headroom, old(Now()), Now())
      ensures old(Stalled()) ==> r == Exhausted && StillStalled()
    {
      ghost var before := Now();
      var addr := SendReserve(len);
      if addr.None? {
        NothingSent(dataLen, len, config.headroom, before, Now());
        return Exhausted;
      }
      r := SendReserved(addr.value, dataLen, len, before);
    }

    /** The second half of `send`, with the reserved frame. */
    method SendReserved(addr: u64, dataLen: u64, len: u32, ghost before: Room) returns (r: SendResult)
      requires true == Valid() && true == config.IsBase(addr) && tx.Free() > 0 && len <= dataLen
      requires held == before.held + multiset{config.FrameOf(addr)} && tx.published == before.queued
      requires |umem.stack| >= |before.stack| - 1 && (before.slots > 0 ==> before.stack == umem.stack + [addr])
      modifies tx`cachedProd, tx`staged, tx`producer, tx`published, tx.slots, this`held
      modifies this`kernelRx, this`kernelTx, this`moves, fill`consumer, fill`taken, tx`consumer, tx`taken
      modifies rx`producer, rx`published, rx.slots, comp`producer, comp`published, comp.slots
      ensures true == Valid() && KernelRan() && r != Exhausted
      ensures true == SendOutcome(r, dataLen, len, config.headroom, before, Now())
    {
      r := CopyAndSubmit(addr, dataLen, len);
      SendOutcomeHolds(r, dataLen, len, config.headroom, before, Now(), config.FrameOf(addr), addr);
    }

    method CopyAndSubmit(addr: u64, dataLen: u64, len: u32) returns (r: SendResult)
      requires true == Valid() && true == config.IsBase(addr) && config.FrameOf(addr) in held && tx.Free() > 0 && len <= dataLen
      modifies tx`cachedProd, tx`staged, tx`producer, tx`published, tx.slots, this`held
      modifies this`kernelRx, this`kernelTx, this`moves, fill`consumer, fill`taken, tx`consumer, tx`taken
      modifies rx`producer, rx`published, rx.slots, comp`producer, comp`published, comp.slots
      ensures true == Valid() && KernelRan()
      ensures r == if dataLen == len then Sent else SlicePanic
      ensures r == Sent ==> true == QueuedOne(old(tx.published), tx.published, len) && held == old(held) - multiset{config.FrameOf(addr)}
      ensures r == Sent ==> true == QueuedFrame(old(tx.published), tx.published, addr, config.headroom)
      ensures r != Sent ==> tx.published == old(tx.published) && held == old(held)
    {
      if dataLen > len {
        return SlicePanic;
      }
      SubmitReserved(addr, len);
      r := Sent;
    }

    /** The `expect` of `send_submit` after a reservation that left a free TX slot. */
    method SubmitReserved(addr: u64, len: u32)
      requires true == Valid() && true == config.IsBase(addr) && config.FrameOf(addr) in held && tx.Free() > 0
      modifies tx`cachedProd, tx`staged, tx`producer, tx`published, tx.slots, this`held
      modifies this`kernelRx, this`kernelTx, this`moves, fill`consumer, fill`taken, tx`consumer, tx`taken
      modifies rx`producer, rx`published, rx.slots, comp`producer, comp`published, comp.slots
      ensures true == Valid() && KernelRan() && true == QueuedOne(old(tx.published), tx.published, len)
      ensures true == QueuedFrame(old(tx.published), tx.published, addr, config.headroom)
      ensures held == old(held) - multiset{config.FrameOf(addr)}
    {
      var ok := SendSubmit(addr, len);
      assert ok;
    }

    /**
     Queues packets, skipping those over the size limit, until the TX slots or the frames
     run out. `panicked` tells a copy that panicked on a truncated length.
    */
    method SendBatch(lengths: seq<u64>) returns (sent: nat, panicked: bool)
      requires true == Valid()
      modifies umem`stackTop, umem`stack, umem.freeStack, this`reclaimed, this`inHand, this`held
      modifies comp`cachedCons, comp`consumer, comp`taken
      modifies tx`cachedProd, tx`staged, tx`producer, tx`published, tx.slots
      modifies this`kernelRx, this`kernelTx, this`moves, fill`consumer, fill`taken, tx`consumer, tx`taken
      modifies rx`producer, rx`published, rx.slots, comp`producer, comp`published, comp.slots
      ensures true == Valid() && KernelRan() && config.Valid()
      ensures true == SentPrefix(config, old(tx.published), tx.published, lengths, sent)
      ensures !panicked ==> held == old(held)
      ensures panicked ==> true == OneMore(old(held), held) && exists i :: 0 <= i < |lengths| && lengths[i] >= U32_MODULUS
      ensures !panicked ==> sent == |Fitting(config, lengths)| || sent >= Min(old(tx.Free()), |old(umem.stack)|)
      ensures old(Stalled()) ==> sent == 0 && !panicked && StillStalled()
    {
      sent, panicked := 0, false;
      var i, go := 0, true;
      ghost var start := Now();
      ghost var before := tx.published;
      while go && i < |lengths|
        invariant true == Valid() && KernelRan() && config.Valid() && i <= |lengths|
        invariant true == SentSoFar(config, before, tx.published, lengths, i, sent)
        invariant true == Sending(start, sent, go, panicked)
        invariant panicked ==> !go && i < |lengths| && lengths[i] >= U32_MODULUS
        invariant old(Stalled()) ==> sent == 0 && !panicked && StillStalled()
        decreases |lengths| - i, go
      {
        i, sent, go, panicked := SendNext(lengths, i, sent, start, before);
      }
      SentDone(config, before, tx.published, lengths, i, sent);
      if i == |lengths| { assert lengths[..i] == lengths; }
    }

    ghost function Now(): Room
      reads this, tx, umem
    {
      Room(held, tx.published, tx.Free(), umem.stack)
    }

    /** What a batch found when it was called, less what it has used, is still there. */
    ghost predicate Sending(start: Room, sent: nat, go: bool, panicked: bool)
      reads this, tx, umem
    {
      && (if panicked then OneMore(start.held, held)
          else held == start.held && tx.Free() + sent >= start.slots && |umem.stack| + sent >= |start.stack|)
      && (!go && !panicked ==> sent >= Min(start.slots, |start.stack|))
    }

    /** One turn of the loop of `send_batch`. */
    method SendNext(lengths: seq<u64>, i: nat, sent: nat, ghost start: Room, ghost before: seq<XdpDesc>)
      returns (i': nat, sent': nat, go: bool, panicked: bool)
      requires true == Valid() && config.Valid() && i < |lengths| && true == Sending(start, sent, true, false)
      requires true == SentSoFar(config, before, tx.published, lengths, i, sent)
      modifies umem`stackTop, umem`stack, umem.freeStack, this`reclaimed, this`inHand, this`held
      modifies comp`cachedCons, comp`consumer, comp`taken
      modifies tx`cachedProd, tx`staged, tx`producer, tx`published, tx.slots
      modifies this`kernelRx, this`kernelTx, this`moves, fill`consumer, fill`taken, tx`consumer, tx`taken
      modifies rx`producer, rx`published, rx.slots, comp`producer, comp`published, comp.slots
      ensures true == Valid() && KernelRan() && i <= i' <= |lengths| && (go ==> i < i')
      ensures true == SentSoFar(config, before, tx.published, lengths, i', sent')
      ensures true == Sending(start, sent', go, panicked)
      ensures panicked ==> !go && i' < |lengths| && lengths[i'] >= U32_MODULUS
      ensures old(Stalled()) ==> sent' == sent && !panicked && StillStalled()
    {
      var r := SendOne(lengths, i, sent, before);
      go, panicked := r == Sent || r == TooLarge, r == SlicePanic;
      i', sent' := if go then i + 1 else i, if r == Sent then sent + 1 else sent;
    }

    method SendOne(lengths: seq<u64>, i: nat, sent: nat, ghost before: seq<XdpDesc>) returns (r: SendResult)
      requires true == Valid() && config.Valid() && i < |lengths|
      requires true == SentSoFar(config, before, tx.published, lengths, i, sent)
      modifies umem`stackTop, umem`stack, umem.freeStack, this`reclaimed, this`inHand, this`held
      modifies comp`cachedCons, comp`consumer, comp`taken
      modifies tx`cachedProd, tx`staged, tx`producer, tx`published, tx.slots
      modifies this`kernelRx, this`kernelTx, this`moves, fill`consumer, fill`taken, tx`consumer, tx`taken
      modifies rx`producer, rx`published, rx.slots, comp`producer, comp`published, comp.slots
      ensures true == Valid() && KernelRan()
      ensures r != SlicePanic ==> held == old(held)
      ensures r == SlicePanic ==> lengths[i] >= U32_MODULUS && true == OneMore(old(held), held)
      ensures r == Exhausted ==> old(tx.Free()) <= 0 || old(umem.stack) == []
      ensures r != SlicePanic ==> tx.Free() + (if r == Sent then 1 else 0) >= old(tx.Free())
      ensures r != SlicePanic ==> |umem.stack| + (if r == Sent then 1 else 0) >= |old(umem.stack)|
      ensures old(Stalled()) ==> (r == TooLarge || r == Exhausted) && StillStalled()
      ensures var next := if r == Sent || r == TooLarge then i + 1 else i;
        true == SentSoFar(config, before, tx.published, lengths, next, if r == Sent then sent + 1 else sent)
    {
      r := Send(lengths[i]);
      FreeAfter();
      SentTurn(config, before, old(tx.published), tx.published, lengths, i, sent, r);
    }

    /** The reserve and submit of `process_tx`; a header or encryption error in between keeps the frame. */
    method ProcessTx(total: u32, encoded: bool, encrypted: bool, finalLen: u32) returns (r: TxResult)
      requires true == Valid()
      modifies umem`stackTop, umem`stack, umem.freeStack, this`reclaimed, this`inHand, this`held
      modifies comp`cachedCons, comp`consumer, comp`taken
      modifies tx`cachedProd, tx`staged, tx`producer, tx`published, tx.slots
      modifies this`kernelRx, this`kernelTx, this`moves, fill`consumer, fill`taken, tx`consumer, tx`taken
      modifies rx`producer, rx`published, rx.slots, comp`producer, comp`published, comp.slots
      ensures true == Valid() && KernelRan()
      ensures r == CryptoFailed ==> true == OneMore(old(held), held)
      ensures r != CryptoFailed ==> held == old(held)
      ensures old(tx.Free()) > 0 ==> (r == NoFrame <==> total > config.MaxPacketSize() || old(umem.stack) == [])
      ensures r != NoFrame ==> (r == Transmitted <==> encoded && encrypted)
      ensures r == Transmitted ==> true == QueuedOne(old(tx.published), tx.published, finalLen)
      ensures r != Transmitted ==> tx.published == old(tx.published)
      ensures old(Stalled()) ==> StillStalled()
    {
      var addr := SendReserve(total);
      if addr.None? {
        return NoFrame;
      }
      TakeAndGive(old(held), config.FrameOf(addr.value));
      if !encoded || !encrypted {
        return CryptoFailed;
      }
      SubmitReserved(addr.value, finalLen);
      r := Transmitted;
    }
  }

  /** The public calls that move frames. */
  datatype Call =
    | CallRecv(maxBatch: u32)
    | CallRecvBatch(maxBatch: u32, handler: (nat, XdpDesc) -> bool)
    | CallReserve(len: u32)
    | CallSubmit(addr: u64, len: u32)
    | CallFree(addr: u64)
    | CallSend(dataLen: u64)
    | CallSendBatch(lengths: seq<u64>)
    | CallProcessTx(total: u32, encoded: bool, encrypted: bool, finalLen: u32)

  /** The frames an application knows to be its own: the addresses of what it received or reserved. */
  type Known = multiset<nat>

  /** What a call does to the frames an application knows and to those lost to it. */
  ghost predicate CallDone(
    held: multiset<nat>, held': multiset<nat>, known: Known, known': Known, lost: nat)
  {
    known' <= held' && |held'| - |known'| == |held| - |known| + lost
  }

  lemma {:induction false} LostOne(held: multiset<nat>, held': multiset<nat>, known: Known, lost: bool)
    requires known <= held && (if lost then OneMore(held, held') else held' == held)
    ensures CallDone(held, held', known, known, if lost then 1 else 0)
  {
  }

  lemma {:induction false} LearntAll(held: multiset<nat>, known: Known, more: multiset<nat>)
    requires known <= held
    ensures CallDone(held, held + more, known, known + more, 0)
    ensures CallDone(held, held + more, known, known, |more|)
  {
  }

  lemma {:induction false} GaveUp(held: multiset<nat>, known: Known, f: nat)
    requires known <= held && f in known
    ensures f in held && CallDone(held, held - multiset{f}, known, known - multiset{f}, 0)
  {
  }

  method MakeRecv(s: XskSocket, maxBatch: u32, known: Known) returns (got: nat, known': Known)
    requires true == s.Valid() && known <= s.held
    modifies s.Repr()
    ensures true == s.Valid() && true == CallDone(old(s.held), s.held, known, known', 0)
    ensures s.received == old(s.received) + got && s.credit <= old(s.credit) && got <= old(s.credit)
  {
    var packets := s.Recv(maxBatch);
    got, known' := |packets|, known + multiset(DescFrames(s.config, packets));
    LearntAll(old(s.held), known, multiset(DescFrames(s.config, packets)));
  }

  method MakeRecvBatch(s: XskSocket, maxBatch: u32, handler: (nat, XdpDesc) -> bool, known: Known) returns (got: nat)
    requires true == s.Valid() && known <= s.held
    modifies s.Repr()
    ensures true == s.Valid() && true == CallDone(old(s.held), s.held, known, known, got)
    ensures s.received == old(s.received) + got && s.credit <= old(s.credit) && got <= old(s.credit)
  {
    ghost var before := s.rx.Pending();
    var packets;
    got, packets := s.RecvBatch(maxBatch, handler);
    ghost var batch := before[..Min(maxBatch, |before|)];
    LearntAll(old(s.held), known, multiset(DescFrames(s.config, batch[..got])));
  }

  method MakeReserve(s: XskSocket, len: u32, known: Known) returns (known': Known)
    requires true == s.Valid() && known <= s.held
    modifies s.Repr()
    ensures true == s.Valid() && true == CallDone(old(s.held), s.held, known, known', 0)
    ensures s.received == old(s.received) && s.credit == old(s.credit)
  {
    known' := known;
    var r := s.SendReserve(len);
    if r.Some? {
      known' := known + multiset{s.config.FrameOf(r.value)};
      LearntAll(old(s.held), known, multiset{s.config.FrameOf(r.value)});
    }
  }

  /** The application submits only frames whose address it knows. */
  method MakeSubmit(s: XskSocket, addr: u64, len: u32, known: Known) returns (known': Known)
    requires true == s.Valid() && known <= s.held && s.config.frameSize > 0
    modifies s.Repr()
    ensures true == s.Valid() && true == CallDone(old(s.held), s.held, known, known', 0)
    ensures s.received == old(s.received) && s.credit == old(s.credit)
  {
    known' := known;
    if s.config.IsBase(addr) && s.config.FrameOf(addr) in known {
      known' := SubmitKnown(s, addr, len, known);
    }
  }

  method SubmitKnown(s: XskSocket, addr: u64, len: u32, known: Known) returns (known': Known)
    requires true == s.Valid() && known <= s.held && s.config.frameSize > 0
    requires true == s.config.IsBase(addr) && s.config.FrameOf(addr) in known
    modifies s.Repr()
    ensures true == s.Valid() && true == CallDone(old(s.held), s.held, known, known', 0)
    ensures s.received == old(s.received) && s.credit == old(s.credit)
  {
    GaveUp(s.held, known, s.config.FrameOf(addr));
    known' := known;
    var ok := s.SendSubmit(addr, len);
    if ok { known' := known - multiset{s.config.FrameOf(addr)}; }
  }

  /** It frees only those, too. */
  method MakeFree(s: XskSocket, addr: u64, known: Known) returns (known': Known)
    requires true == s.Valid() && known <= s.held && s.config.frameSize > 0
    modifies s.Repr()
    ensures true == s.Valid() && true == CallDone(old(s.held), s.held, known, known', 0)
    ensures s.received == old(s.received) && s.credit == old(s.credit)
  {
    known' := known;
    if s.config.IsBase(addr) && s.config.FrameOf(addr) in known {
      GaveUp(s.held, known, s.config.FrameOf(addr));
      s.ReturnFrame(addr);
      known' := known - multiset{s.config.FrameOf(addr)};
    }
  }

  method MakeSend(s: XskSocket, dataLen: u64, ghost known: Known) returns (lost: nat)
    requires true == s.Valid() && known <= s.held
    modifies s.Repr()
    ensures true == s.Valid() && true == CallDone(old(s.held), s.held, known, known, lost)
    ensures s.received == old(s.received) && s.credit == old(s.credit)
  {
    var r := s.Send(dataLen);
    lost := if r == SlicePanic then 1 else 0;
    LostOne(old(s.held), s.held, known, r == SlicePanic);
  }

  method MakeSendBatch(s: XskSocket, lengths: seq<u64>, ghost known: Known) returns (lost: nat)
    requires true == s.Valid() && known <= s.held
    modifies s.Repr()
    ensures true == s.Valid() && true == CallDone(old(s.held), s.held, known, known, lost)
    ensures s.received == old(s.received) && s.credit == old(s.credit)
  {
    var sent, panicked := s.SendBatch(lengths);
    lost := if panicked then 1 else 0;
    LostOne(old(s.held), s.held, known, panicked);
  }

  method MakeProcessTx(s: XskSocket, total: u32, encoded: bool, encrypted: bool, finalLen: u32, ghost known: Known)
    returns (lost: nat)
    requires true == s.Valid() && known <= s.held
    modifies s.Repr()
    ensures true == s.Valid() && true == CallDone(old(s.held), s.held, known, known, lost)
    ensures s.received == old(s.received) && s.credit == old(s.credit)
  {
    var r := s.ProcessTx(total, encoded, encrypted, finalLen);
    lost := if r == CryptoFailed then 1 else 0;
    LostOne(old(s.held), s.held, known, r == CryptoFailed);
  }

  /** One call, after the kernel has run. `lost` counts the frames it left held without giving out their address. */
  method MakeCall(s: XskSocket, call: Call, known: Known) returns (got: nat, known': Known, lost: nat)
    requires true == s.Valid() && known <= s.held && s.config.frameSize > 0
    modifies s.Repr()
    ensures true == s.Valid() && true == CallDone(old(s.held), s.held, known, known', lost)
    ensures s.received == old(s.received) + got && s.credit <= old(s.credit) && got <= old(s.credit)
    ensures call.CallRecvBatch? ==> lost == got
  {
    s.Yield();
    got, known', lost := 0, known, 0;
    match call
    case CallRecv(maxBatch) => got, known' := MakeRecv(s, maxBatch, known);
    case CallRecvBatch(maxBatch, handler) =>
      got := MakeRecvBatch(s, maxBatch, handler, known);
      lost := got;
    case CallReserve(len) => known' := MakeReserve(s, len, known);
    case CallSubmit(addr, len) => known' := MakeSubmit(s, addr, len, known);
    case CallFree(addr) => known' := MakeFree(s, addr, known);
    case CallSend(dataLen) => lost := MakeSend(s, dataLen, known);
    case CallSendBatch(lengths) => lost := MakeSendBatch(s, lengths, known);
    case CallProcessTx(total, encoded, encrypted, finalLen) =>
      lost := MakeProcessTx(s, total, encoded, encrypted, finalLen, known);
  }

  /** The packets of `got` that came through `recv_batch`. */
  function Batched(script: seq<Call>, got: seq<nat>): nat
    requires |got| <= |script|
  {
    if got == [] then 0
    else
      var k := |got| - 1;
      Batched(script, got[..k]) + if script[k].CallRecvBatch? then got[k] else 0
  }

  function Total(got: seq<nat>): nat {
    if got == [] then 0 else Total(got[..|got| - 1]) + got[|got| - 1]
  }

  /**
   Any sequence of calls on a socket, with the kernel running throughout. The books stay those
   the recorded moves lead to, so each frame stays in exactly one place. The credit never rises,
   and a socket without credit receives nothing, whatever is given back to it. A frame received
   through `recv_batch` is lost for good.
  */
  method RunCalls(s: XskSocket, script: seq<Call>, known: Known) returns (got: seq<nat>, known': Known)
    requires true == s.Valid() && known <= s.held && s.config.frameSize > 0
    modifies s.Repr()
    ensures true == s.Valid() && known' <= s.held && |got| == |script|
    ensures s.received == old(s.received) + Total(got) && s.credit <= old(s.credit)
    ensures old(s.credit) == 0 ==> Total(got) == 0
    ensures |s.held| - |known'| >= |old(s.held)| - |known| + Batched(script, got)
  {
    got, known' := [], known;
    ghost var start := LifeOf(s, known);
    while |got| < |script|
      invariant |got| <= |script| && true == s.Valid() && known' <= s.held
      invariant true == Tally(script, got, start, LifeOf(s, known'))
    {
      got, known' := NextCall(s, script, got, known', start);
    }
    s.Yield();
  }

  method NextCall(s: XskSocket, script: seq<Call>, got: seq<nat>, known: Known, ghost start: Life)
    returns (got': seq<nat>, known': Known)
    requires true == s.Valid() && known <= s.held && s.config.frameSize > 0
    requires |got| < |script| && true == Tally(script, got, start, LifeOf(s, known))
    modifies s.Repr()
    ensures true == s.Valid() && known' <= s.held && |got'| == |got| + 1
    ensures true == Tally(script, got', start, LifeOf(s, known'))
  {
    ghost var before := LifeOf(s, known);
    var n, lost;
    n, known', lost := MakeCall(s, script[|got|], known);
    TallyStep(script, got, n, lost, start, before, LifeOf(s, known'));
    got' := got + [n];
  }

  ghost function LifeOf(s: XskSocket, known: Known): Life
    reads s
  {
    Life(s.received, s.credit, |s.held| - |known|)
  }

  /** Packets received, credit, and frames held whose address the application does not know. */
  datatype Life = Life(received: nat, credit: nat, unknown: int)

  ghost predicate Tally(script: seq<Call>, got: seq<nat>, start: Life, now: Life) {
    && |got| <= |script| && now.received == start.received + Total(got) && now.credit <= start.credit
    && (start.credit == 0 ==> Total(got) == 0) && now.unknown >= start.unknown + Batched(script, got)
  }

  lemma {:induction false} TallyStep(script: seq<Call>, got: seq<nat>, n: nat, lost: nat, start: Life, before: Life, now: Life)
    requires |got| < |script| && true == Tally(script, got, start, before)
    requires now.received == before.received + n && now.credit <= before.credit && n <= before.credit
    requires now.unknown == before.unknown + lost && (script[|got|].CallRecvBatch? ==> lost == n)
    ensures true == Tally(script, got + [n], start, now)
  {
    assert (got + [n])[..|got|] == got;
  }

  /** Creates a socket and fills its fill ring; `ok` is false where that does not fit. */
  method NewSocket(c: UmemConfig, ringSize: u32, prefill: u32) returns (s: XskSocket, ok: bool)
    requires c.Valid() && ValidSize(ringSize)
    ensures fresh(s) && fresh(s.Repr()) && true == s.Valid() && s.config == c && s.received == 0 && s.held == multiset{}
    ensures s.prefill == prefill && s.tx.Free() > 0 && (ok && c.numFrames <= prefill ==> s.Stalled())
    ensures var actual := Min(prefill, c.numFrames);
      && (ok <==> actual <= ringSize)
      && s.credit == (if ok then actual else 0) && |s.umem.stack| == c.numFrames - s.credit
    ensures true == TopFrames(c, s.fill.published, s.credit)
  {
    s := new XskSocket(c, ringSize, prefill);
    ok := FillNew(s, prefill);
  }

  method FillNew(s: XskSocket, prefill: u32) returns (ok: bool)
    requires true == s.Ready(prefill) && s.credit == 0 && s.tx.published == [] && s.tx.staged == []
    requires s.fill.published == [] && true == AllFrames(s.config, s.umem.stack)
    modifies s.Repr()
    ensures true == s.Valid() && s.received == old(s.received) && s.held == old(s.held) && s.tx.Free() > 0
    ensures var actual := Min(prefill, |old(s.umem.stack)|);
      && (ok <==> actual == 0 || actual <= old(s.fill.Free()))
      && s.credit == (if ok then actual else 0) && |s.umem.stack| == |old(s.umem.stack)| - s.credit
    ensures true == TopFrames(s.config, s.fill.published, s.credit)
  {
    ok := s.PrefillFillRing(prefill);
    FirstFilled(s.config, old(s.umem.stack), s.umem.stack, s.fill.published, s.credit);
  }

  /** The calls that send, or reserve a frame for sending. */
  predicate Sends(call: Call) {
    call.CallReserve? || call.CallSend? || call.CallSendBatch? || call.CallProcessTx?
  }

  /** One sending call on a stalled socket, after the kernel has run. */
  method MakeStalledSend(s: XskSocket, call: Call)
    requires true == s.Valid() && s.Stalled() && Sends(call)
    modifies s.Repr()
    ensures true == s.Valid() && s.StillStalled() && s.KernelRan()
  {
    s.Yield();
    match call
    case CallReserve(len) => var addr := s.SendReserve(len);
    case CallSend(dataLen) => var r := s.Send(dataLen);
    case CallSendBatch(lengths) => var sent, panicked := s.SendBatch(lengths);
    case CallProcessTx(total, encoded, encrypted, finalLen) => var r := s.ProcessTx(total, encoded, encrypted, finalLen);
  }

  /**
   A socket with no free frame and a free TX slot sends nothing more, however often it is asked
   and however many transmissions the kernel completes meanwhile: none of its completions is
   reclaimed, because the TX ring is not full. A socket whose prefill took every frame starts so.
  */
  method RunSends(s: XskSocket, script: seq<Call>)
    requires true == s.Valid() && s.Stalled() && forall i :: 0 <= i < |script| ==> Sends(script[i])
    modifies s.Repr()
    ensures true == s.Valid() && s.StillStalled() && s.KernelRan()
  {
    for i := 0 to |script|
      invariant true == s.Valid() && s.StillStalled() && s.KernelRan()
    {
      MakeStalledSend(s, script[i]);
    }
  }

  /**
   A socket's whole life. All that it ever receives through `recv_batch` is at most its frames,
   whatever the application gives back, and what it receives at all is at most its frames and the
   frames given up.
  */
  method RunSocket(c: UmemConfig, ringSize: u32, prefill: u32, script: seq<Call>) returns (s: XskSocket, got: seq<nat>)
    requires c.Valid() && ValidSize(ringSize)
    ensures true == s.Valid() && s.config == c && |got| == |script|
    ensures Total(got) == s.received <= c.numFrames + GivenUp(s.moves)
    ensures Batched(script, got) <= |s.held| <= c.numFrames
    ensures s.credit <= Min(prefill, c.numFrames)
  {
    var ok;
    s, ok := NewSocket(c, ringSize, prefill);
    var known;
    got, known := RunCalls(s, script, multiset{});
    ReceptionBound(c.numFrames, s.prefill, s.moves, s.Record());
  }
}
