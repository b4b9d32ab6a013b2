# HPN-VPN: a Dafny model

This project models the parts of HPN-VPN that move packets, parse messages from
outside and decide what traffic may leave the machine, and proves what holds of
them over every input and every run.

`dafny verify dfyconfig.toml` checks all of it.

| module | models | form |
|---|---|---|
| `Machine`, `Bytes`, `Prefixes` | wrapping integers and bits; big-endian fields; address blocks | functions and lemmas |
| `Rings` | the four AF_XDP rings: free-running 32-bit counters, masked slots | classes refining a bounded FIFO queue |
| `Umem` | the packet memory: configuration, bounds checks, free stack of a single owner | functions, a class |
| `FrameBooks` | who owns which frame, and every move of a frame | a state machine |
| `Socket` | the AF_XDP socket with the kernel running between its atomic actions | a class whose books are those that its recorded moves lead to |
| `FrameStack` | the lock-free free stack, one step per load, compare-exchange and slot access | a state machine over threads |
| `Replay`, `RateLimit` | the replay window and the two token buckets | classes, and lemmas over runs |
| `Stun`, `Rendezvous`, `Framing` | the STUN parser, the rendezvous and hole-punch codecs, the TCP framing | functions, methods and a class |
| `BufferPool` | the packet buffer pools under interleaving | a state machine over threads |
| `KillSwitch` | the kill switch manager and its reconnect attempts | a class, and lemmas over traces |
| `PfRules`, `PfConf`, `Routing` | the macOS packet filter rules, the edits to its configuration file, full-tunnel routing | functions, methods and classes |

## What was found

Where the code does not do what its documentation or comments say, the model
follows the code and states exactly when the promise holds.

- `recv_batch` is documented to reuse a frame at the next call. It never frees one
  and does not tell its address, so a socket receives at most as many packets through it as it has
  frames. Refilling happens only after something was received, so a socket whose fill ring, kernel
  and RX ring have run out of frames receives nothing more, whatever is given back to it
  (`FrameBooks.FurtherPacketExactly`, `FrameBooks.NoPrefillNoPacket`, `Socket.RunCalls`).
- `send_reserve` is documented to refuse when the TX ring is full. It also refuses when no frame is
  free, and it reclaims completed transmissions only when the TX ring is full. So with every frame
  in use and a TX slot free, no sending call gets a frame until something is received or a held
  frame is given up, even if the kernel has completed every transmission
  (`Socket.XskSocket.SendReserve`, `Socket.RunSends`).
- `send_submit` writes `addr + headroom` into the descriptor. That is a frame base,
  which `free` asserts of completed addresses, only without headroom
  (`Umem.SubmittedAddressIsFrameBase`). The model's kernel completes with frame bases.
- The free stack is described as safe under concurrent `alloc` and `free`, with an
  `alloc` that waits until its slot has been written. The code does not wait. Each
  frame stays in exactly one place (a slot that was written and not read since, a call
  of `free`, or a caller) exactly while every read finds its slot full and every write
  finds it empty. Accesses in the order of the claims, or phases of `alloc` only and
  `free` only, are enough for that (`FrameStack.RunSafeExactly`, `FrameStack.OrderedRunIsSafe`,
  `FrameStack.PhasedRunIsSafe`, `FrameStack.MixedRunDuplicates`).
- The replay window clears its bitmap when it slides, so a counter can be accepted
  again after a slide, and up to 64 times (`Replay.ReplayExact`,
  `Replay.AcceptanceLimit`, `Replay.LimitReachedExactly`).
- A refill that rounds down to nothing still moves the refill time, so a slow rate
  polled often never recovers (`RateLimit.RecoveryExact`). What a refill earns is truncated to 64 bits
  (`RateLimit.TruncationStarves`).
- The STUN parser's comment prefers the XOR-mapped address. The code returns the
  first decodable address of either kind (`Stun.XorPreferredExactly`,
  `Stun.PlainAddressWins`).
- A send that fails in its flush leaves a whole frame in the stream, which the peer
  may receive (`Framing.OnlySentExactly`).
- The cap on overflow allocations does not bound the live buffers: an overflow
  buffer that is dropped goes to the pool and no longer counts
  (`BufferPool.LiveBounded`, `BufferPool.LiveUnbounded`).
- "Blocks all traffic when VPN disconnects" needs the switch to have been armed: it
  is not if it was enabled after the tunnel came up, nor during a granted reconnect
  attempt. A limit of zero attempts is not unlimited
  (`KillSwitch.DisconnectBlocksExactly`, `KillSwitch.UnlimitedExactly`).
- Rendezvous decoding indexes past the end of one family of inputs
  (`Rendezvous.DecodePanicsExactly`).
- The comment that mDNS is blocked even with the local network allowed does not
  hold for packets from local hosts (`PfRules.LanMdnsPasses`).
- Disabling the packet filter rewrites a file that ends in a blank line even when it
  removes nothing (`PfConf.DisableCleanExactly`).
- A forced tear-down deletes routes to local subnets that were there before, and with
  the kill switch the IPv6 default stays (`Routing.LanRouteLost`,
  `Routing.KillSwitchBlocksInet`).

## Model

| member | source | states |
|---|---|---|
| `Rings.ProducerRing.constructor` | crates/hpn-afxdp/src/ring.rs:30-35 | a ring whose size is a power of two starts empty |
| `Rings.ProducerRing.OutstandingSlotsDistinct` | crates/hpn-afxdp/src/ring.rs:168-189 | no two entries that are outstanding or may be reserved share a masked slot, however often the counters have wrapped |
| `Rings.ProducerRing.FreeSlots` | crates/hpn-afxdp/src/ring.rs:158-162 | the wrapped subtraction is exactly the capacity left in the queue |
| `Rings.ProducerRing.Reserve` | crates/hpn-afxdp/src/ring.rs:168-175 | succeeds exactly when the batch fits, and hands out only slots that are not outstanding |
| `Rings.ProducerRing.Write` | crates/hpn-afxdp/src/ring.rs:179-189 | changes the one reserved entry and nothing published |
| `Rings.ProducerRing.Submit` | crates/hpn-afxdp/src/ring.rs:193-198 | publishes exactly the oldest reserved entries, in order |
| `Rings.RunProducerRing` | crates/hpn-afxdp/src/ring.rs:158-198 | through any script of reservations, writes, submissions and kernel reads, in any order, the wrapping, masked ring sends and receives what a bounded FIFO queue does |
| `Rings.RingTurn` | crates/hpn-afxdp/src/ring.rs:431-468 | one of those steps on the ring is the same step on the queue |
| `Rings.ConsumerRing.Available` | crates/hpn-afxdp/src/ring.rs:260-263 | the wrapped difference is the number of unread entries |
| `Rings.ConsumerRing.Peek` | crates/hpn-afxdp/src/ring.rs:267-277 | reads the entry `i` places behind the oldest unread one |
| `Rings.ConsumerRing.Release` | crates/hpn-afxdp/src/ring.rs:281-287 | consumes exactly the released entries |
| `Rings.DrainRing` | crates/hpn-afxdp/src/ring.rs:343-369 | yields the oldest pending entries in order, up to the limit, and releases exactly those |
| `Rings.RunConsumerRing` | crates/hpn-afxdp/src/ring.rs:260-287 | the FIFO refinement for a ring that the kernel fills and userspace drains, for any script |
| `Prefixes.LanAddresses` | crates/hpn-client-macos/src/routing.rs:100-105 | the local IPv4 addresses are those that begin with 10, with 172.16 to 172.31, with 192.168 or with 169.254 |
| `Prefixes.LanAddresses6` | crates/hpn-client-macos/src/routing.rs:108-111 | the local IPv6 addresses, by their first ten or seven bits |
| `Bytes.BigEndian` | crates/hpn-client-core/src/nat.rs:744-751 | integers of two and four bytes are written and read with the most significant byte first |
| `Bytes.BigEndian64` | crates/hpn-client-core/src/nat.rs:744-751 | and those of eight bytes |
| `Umem.NewConfig` | crates/hpn-afxdp/src/umem.rs:48-87 | a configuration is accepted if and only if it meets all four conditions, and is then unchanged |
| `Umem.ConfigExact` | crates/hpn-afxdp/src/umem.rs:48-87 | each answer exactly: frames of 2048 or 4096 bytes, headroom inside them, and a power of two of frames |
| `Umem.FrameInsideRegion` | crates/hpn-afxdp/src/umem.rs:396-398 | the frame of an accepted address is one of the frames and lies wholly inside the mapping, whose size fits in 64 bits |
| `Umem.BoundsCheckExact` | crates/hpn-afxdp/src/umem.rs:216-248 | acceptance is decided by the address and length checks alone, each with its error; the overflow and out-of-bounds errors never occur; the accepted range starts behind the headroom and lies inside its own frame and the mapping |
| `Umem.AcceptedRangesDisjoint` | crates/hpn-afxdp/src/umem.rs:216-248 | accepted packet ranges of different frames share no byte |
| `Umem.SubmittedAddressIsFrameBase` | crates/hpn-afxdp/src/socket.rs:504-518 | the address put in a TX descriptor is in the packet's frame, and is a frame base, as `free` asserts of what it gets, if and only if the headroom is zero |
| `Umem.FrameAllocator.constructor` | crates/hpn-afxdp/src/umem.rs:118-130 | the free stack starts with every frame base once |
| `Umem.FrameAllocator.Alloc` | crates/hpn-afxdp/src/umem.rs:137-161 | pops the last pushed address, and fails exactly on an empty stack |
| `Umem.FrameAllocator.Free` | crates/hpn-afxdp/src/umem.rs:169-190 | pushes the address on top of an otherwise unchanged stack |
| `Umem.FrameAllocator.Available` | crates/hpn-afxdp/src/umem.rs:194-196 | the number of free frames |
| `FrameBooks.MoveConserves` | crates/hpn-afxdp/src/socket.rs:298-518 | no way a frame changes place, by the socket or the kernel, duplicates or loses a frame |
| `FrameBooks.RunKeepsPartition` | crates/hpn-afxdp/src/socket.rs:298-518 | in every run each frame is in exactly one of the nine places |
| `FrameBooks.ExactlyOnePlace` | crates/hpn-afxdp/src/socket.rs:298-518 | what the count says of one frame: it is in one place and in no other, and no foreign frame is anywhere |
| `FrameBooks.ReceptionBound` | crates/hpn-afxdp/src/socket.rs:385-420 | received frames are not freed: after any run the frames held are the packets received less the frames given up, so the packets received are at most the frames there are plus those |
| `FrameBooks.ReceptionBoundTight` | crates/hpn-afxdp/src/socket.rs:385-420 | that bound is reached by every socket that was filled at the start: a run that gives nothing up receives one packet for every frame |
| `FrameBooks.FurtherPacketExactly` | crates/hpn-afxdp/src/socket.rs:385-451 | between calls a further packet can ever be received if and only if a frame is on the fill ring, with the kernel, or on the RX ring, whatever is given up: the fill ring is refilled only after a reception, and within its count |
| `FrameBooks.UnfilledPacketExactly` | crates/hpn-afxdp/src/socket.rs:385-451 | during a call that may still refill, the same holds of the packets that come in without a refill |
| `FrameBooks.NoPrefillNoPacket` | crates/hpn-afxdp/src/socket.rs:423-451 | a socket that was not filled when it was created never receives anything, whatever is done with it |
| `FrameBooks.FreeStackBound` | crates/hpn-afxdp/src/umem.rs:169-190 | free, held and in-hand frames together never exceed the frames there are, and a frame outside the free stack leaves room for it there, as `free` asserts |
| `Socket.BaseIsValidAddr` | crates/hpn-afxdp/src/umem.rs:396-398 | a frame base belongs to an existing frame if and only if the region accepts it |
| `Socket.NewSocket` | crates/hpn-afxdp/src/socket.rs:168-295 | a new socket has filled its fill ring with the topmost frames, as many as the smaller of the request and its frames, or failed exactly where that does not fit, and has every other frame free; if the request took every frame, no sending call gets one yet |
| `Socket.XskSocket.Interfere` | crates/hpn-afxdp/src/socket.rs:298-518 | any number of kernel steps keeps the books those of the recorded moves, only drains the rings it consumes and only extends those it produces |
| `Socket.XskSocket.StageFrames` | crates/hpn-afxdp/src/socket.rs:298-318 | whatever the kernel does meanwhile, each reserved fill slot gets the address of the next frame from the top of the free stack: the branch for an empty stack inside the loop is dead |
| `Socket.XskSocket.PrefillFillRing` | crates/hpn-afxdp/src/socket.rs:298-318 | moves exactly the smaller of the request and the free frames to the fill ring, from the top of the stack, or fails, exactly when that does not fit, and moves none; either way no further refill is due |
| `Socket.XskSocket.ReclaimCompleted` | crates/hpn-afxdp/src/socket.rs:454-463 | pushes the addresses of the completions pending at the call on the free stack, in order, and consumes those and no other |
| `Socket.XskSocket.RefillFrames` | crates/hpn-afxdp/src/socket.rs:423-451 | reclaims, then moves all of the requested and available frames or none, and all when the ring had room at the call; what is moved is the addresses from the top of the stack, the reclaimed ones first |
| `Socket.XskSocket.Recv` | crates/hpn-afxdp/src/socket.rs:358-378 | passes on all visible descriptors up to the limit, in order, leaves their frames with the application, and puts as many frames back on the fill ring as there is room for and are free |
| `Socket.XskSocket.RecvBatch` | crates/hpn-afxdp/src/socket.rs:385-420 | consumes a prefix of the visible batch, passes on its in-bounds descriptors in order, stops early only where the handler says so, leaves each consumed frame with the application, and refills as `recv` does |
| `Socket.XskSocket.SendReserve` | crates/hpn-afxdp/src/socket.rs:469-497 | a granted frame is a frame base now held by the caller and a TX slot stays free for it; where a slot was free, the topmost frame is granted if and only if the packet fits and there is one, and a refusal reclaims nothing; where none was, all pending completions are reclaimed first |
| `Socket.XskSocket.SendSubmit` | crates/hpn-afxdp/src/socket.rs:504-518 | queues the descriptor and gives up the frame; the `expect` fires exactly when the TX ring is full |
| `Socket.XskSocket.Send` | crates/hpn-afxdp/src/socket.rs:523-538 | the outcome for every length: the error, the panic on the copy that a length of 4 GiB or more can reach, exhaustion, or one queued descriptor of that length, for the topmost free frame if a slot was free; the `expect` never fires |
| `Socket.XskSocket.SendBatch` | crates/hpn-afxdp/src/socket.rs:543-563 | queues, in order, an initial part of the packets within the limit and counts them; unless a copy panicked it stops early only after as many as there were TX slots or frames free |
| `Socket.XskSocket.ProcessTx` | crates/hpn-afxdp/src/datapath.rs:460-513 | a reserved frame is submitted, and the `expect` never fires, except that a header or encryption error leaves it with the caller; there is no frame only where the packet is too large or the slots or frames had run out |
| `Socket.XskSocket.ReturnFrame` | crates/hpn-afxdp/src/umem.rs:169-190 | a held frame base goes back on the free stack, meeting the assertions of `free` |
| `Socket.RunCalls` | crates/hpn-afxdp/src/socket.rs:298-563 | through any sequence of public calls, with the kernel running between and during them, the books stay those of the recorded moves and the cached producer indices equal the published ones; the frames that can reach the application without a refill never rise in number, and without any nothing is received, whatever is given back; a frame received through `recv_batch` is never given back |
| `Socket.RunSends` | crates/hpn-afxdp/src/socket.rs:469-563 | a socket with no free frame and a free TX slot sends nothing in any sequence of sending calls, and reclaims nothing, however many transmissions the kernel completes meanwhile |
| `Socket.RunSocket` | crates/hpn-afxdp/src/socket.rs:168-563 | over a socket's whole life all that it receives is at most its frames and the frames given up, and what it receives through `recv_batch` at most its frames |
| `FrameStack.StepKeepsInv` | crates/hpn-afxdp/src/umem.rs:137-190 | every atomic step of any number of threads keeps each frame in one place (a slot not read since it was written, a call of `free`, or a caller of `alloc`), unless it reads an empty slot or writes a full one |
| `FrameStack.StepSafeExactly` | crates/hpn-afxdp/src/umem.rs:137-190 | and only such an access does not |
| `FrameStack.EmptyReadDuplicates` | crates/hpn-afxdp/src/umem.rs:137-165 | a read of an empty slot gives out a frame that is held, in a slot or being freed as well |
| `FrameStack.FullWriteLoses` | crates/hpn-afxdp/src/umem.rs:169-190 | a write on a full slot loses the frame in it |
| `FrameStack.RoomForPush` | crates/hpn-afxdp/src/umem.rs:169-190 | a thread about to push always finds `stack_top` below the number of frames, as the source asserts |
| `FrameStack.RunSafeExactly` | crates/hpn-afxdp/src/umem.rs:118-190 | over a run from creation, each frame is in exactly one place at every moment if and only if every read finds its slot full and every write finds it empty |
| `FrameStack.PhasedRunIsSafe` | crates/hpn-afxdp/src/umem.rs:118-190 | if no thread is in `alloc` while another is in `free`, allocated frames are distinct, aligned, in range and not in the stack, and at quiescence stack and held frames are all the frames |
| `FrameStack.FreePhaseRestores` | crates/hpn-afxdp/src/umem.rs:169-190 | a completed free-only phase leaves in the stack what was there and exactly the frames it freed |
| `FrameStack.OrderedRunIsSafe` | crates/hpn-afxdp/src/umem.rs:137-190 | it is enough that every slot is accessed in the order in which it was claimed |
| `FrameStack.OrderIsNotNecessary` | crates/hpn-afxdp/src/umem.rs:137-190 | and not necessary: a run of three threads on two frames that keeps each frame in one place out of that order |
| `FrameStack.WindowSafeExactly` | crates/hpn-afxdp/src/umem.rs:137-190 | a winning compare-exchange followed at once by its slot access keeps each frame in one place if and only if as many pops as pushes were open on the slot |
| `FrameStack.MixedRunDuplicates` | crates/hpn-afxdp/src/umem.rs:137-190 | overlapping `alloc` and `free` can hand one frame to two callers: a run of two threads on two frames |
| `Replay.ReplayWindow.CheckReplay` | crates/hpn-afxdp/src/datapath.rs:133-157 | the 64-bit map answers and moves as the set of counters it represents, for all 64-bit counters, including where `base + 64` overflows |
| `Replay.RunWindow` | crates/hpn-afxdp/src/datapath.rs:133-157 | over a whole sequence of counters below `u64::MAX` the bit-level code accepts exactly what the set-level window accepts |
| `Replay.LastCounterLowersBase` | crates/hpn-afxdp/src/datapath.rs:133-157 | at `u64::MAX` the base can go back down |
| `Replay.SeenIsSinceSlide` | crates/hpn-afxdp/src/datapath.rs:133-157 | the bitmap represents exactly the counters accepted since the last slide, that slide included |
| `Replay.RejectionExact` | crates/hpn-afxdp/src/datapath.rs:133-157 | a counter is rejected if and only if it is below the base or was accepted since the last slide |
| `Replay.ReplayExact` | crates/hpn-afxdp/src/datapath.rs:133-157 | a counter accepted before is accepted again if and only if it is not below the base and the window has slid since |
| `Replay.SecondAcceptanceNeedsSlide` | crates/hpn-afxdp/src/datapath.rs:133-157 | two acceptances of one counter have a slide between them |
| `Replay.BaseMonotone` | crates/hpn-afxdp/src/datapath.rs:133-157 | the base never decreases, and rises between two moments if and only if there was a slide |
| `Replay.IncreasingStreamAccepted` | crates/hpn-afxdp/src/datapath.rs:133-157 | a strictly increasing stream is accepted in full |
| `Replay.AcceptanceLimit` | crates/hpn-afxdp/src/datapath.rs:133-157 | over any run no counter `c` is accepted more than `min(c, 63) + 1` times |
| `Replay.AcceptanceLimitUnder` | crates/hpn-afxdp/src/datapath.rs:133-157 | over a run of counters below a bound `b`, no more than `min(c, 63, b - 1 - c) + 1` times |
| `Replay.AcceptanceLimitTight` | crates/hpn-afxdp/src/datapath.rs:133-157 | for every counter that limit is reached by a run of counters below the bound |
| `Replay.LimitReachedExactly` | crates/hpn-afxdp/src/datapath.rs:133-157 | counters below `u64::MAX` reach the general limit exactly where `c + 64` does not overflow |
| `RateLimit.Limiter.constructor` | crates/hpn-afxdp/src/datapath.rs:92-121 | both buckets start full |
| `RateLimit.Limiter.RefillRateTokens` | crates/hpn-afxdp/src/datapath.rs:203-240 | one refill, with its tick, its 128-bit product, truncation and cap, leaves no bucket above its burst |
| `RateLimit.Limiter.CheckRateLimit` | crates/hpn-afxdp/src/datapath.rs:161-200 | both buckets pay or neither does; a refused call keeps what the refill added |
| `RateLimit.DecisionExact` | crates/hpn-afxdp/src/datapath.rs:161-240 | in plain arithmetic, what a request finds in both buckets, whether it is allowed, and what it leaves |
| `RateLimit.IdleRefills` | crates/hpn-afxdp/src/datapath.rs:222-239 | two idle seconds fill a bucket, if what they earn fits in 64 bits |
| `RateLimit.TruncationStarves` | crates/hpn-afxdp/src/datapath.rs:222-239 | if it does not, an empty bucket can stay empty |
| `RateLimit.BurstExactly` | crates/hpn-afxdp/src/datapath.rs:92-200 | in the first millisecond of a limiter a request is let through if and only if with it at most two seconds' worth of packets and of bytes have been |
| `RateLimit.BurstCount` | crates/hpn-afxdp/src/datapath.rs:92-200 | so under a packet limit alone exactly the first `2 * pps` requests get through |
| `RateLimit.RunLimiter` | crates/hpn-afxdp/src/datapath.rs:161-240 | over any run the step-by-step code decides as the bucket specification does |
| `RateLimit.BucketsStayCapped` | crates/hpn-afxdp/src/datapath.rs:161-240 | no bucket ever holds more than two seconds' worth |
| `RateLimit.PacketPotential` | crates/hpn-afxdp/src/datapath.rs:161-240 | between any two moments, tokens left plus packets accepted are at most the tokens at the start plus those earned |
| `RateLimit.BytePotential` | crates/hpn-afxdp/src/datapath.rs:161-240 | the same for bytes |
| `RateLimit.SinceCreationBound` | crates/hpn-afxdp/src/datapath.rs:161-240 | since creation at most a burst plus what the rate earned is let through, in packets and in bytes |
| `RateLimit.WindowBound` | crates/hpn-afxdp/src/datapath.rs:161-240 | over any later window at most a burst plus what the rate earns in the window and one tick less a microsecond |
| `RateLimit.ByteWindowBound` | crates/hpn-afxdp/src/datapath.rs:161-240 | the same for bytes, in any later window |
| `RateLimit.RecoveryExact` | crates/hpn-afxdp/src/datapath.rs:203-240 | in every run from an empty packet bucket without a byte limit, anything is let through if and only if some refill earns a whole packet since the refill before it: rounding down loses the rest |
| `RateLimit.PeriodicRecovery` | crates/hpn-afxdp/src/datapath.rs:203-240 | with periodic requests that is if and only if one period earns a whole packet |
| `RateLimit.OnePacketPerSecondStarves` | crates/hpn-afxdp/src/datapath.rs:203-240 | an instance: at one packet a second, asking every ten milliseconds gets nothing through |
| `Stun.MappedRoundTrip` | crates/hpn-client-core/src/nat.rs:484-509 | parsing the encoding of a mapped address (section 15.1 of RFC 5389) gives it back, for both families |
| `Stun.XorRoundTrip` | crates/hpn-client-core/src/nat.rs:449-481 | the same for the XOR encoding (section 15.2), for every transaction id |
| `Stun.MappedBytes` | crates/hpn-client-core/src/nat.rs:484-509 | the bytes of a plain address, and exactly which values are none |
| `Stun.XorMappedBytes4` | crates/hpn-client-core/src/nat.rs:449-481 | the bytes of an XOR-mapped IPv4 address: the port is combined with 0x2112 and the address with 0x2112A442 |
| `Stun.XorMappedBytes6` | crates/hpn-client-core/src/nat.rs:449-481 | the bytes of an XOR-mapped IPv6 address: each is combined with that of the cookie and transaction id |
| `Stun.XorMappedRejects` | crates/hpn-client-core/src/nat.rs:449-481 | exactly which values are no XOR-mapped address |
| `Stun.ParseBindingResponse` | crates/hpn-client-core/src/nat.rs:345-444 | on arbitrary bytes the loop ends, stays in bounds and computes the outcome whose every case the next two rows fix |
| `Stun.RejectedExactly` | crates/hpn-client-core/src/nat.rs:351-396 | each error of the header if and only if its bytes say so: length, cookie, transaction, type, and length field |
| `Stun.AcceptedExactly` | crates/hpn-client-core/src/nat.rs:345-444 | an address is returned if and only if the message is a success response to this request, its length field is within the data, and the address is the first on the way from attribute to attribute |
| `Stun.WalkEncoded` | crates/hpn-client-core/src/nat.rs:391-439 | walking the bytes of any padded attribute list is going through the list |
| `Stun.ResponseParsed` | crates/hpn-client-core/src/nat.rs:345-444 | every well-formed response, with any attributes, padding and trailing bytes, yields the first decodable mapped or XOR-mapped address in it, or the error that there is none |
| `Stun.XorPreferredExactly` | crates/hpn-client-core/src/nat.rs:406-433 | with a decodable XOR-mapped address present, the outcome is the first such address if and only if the first decodable plain one comes after it, is absent, or is the same |
| `Stun.PlainAddressWins` | crates/hpn-client-core/src/nat.rs:406-433 | so a response with a plain address in front of another XOR-mapped one yields the plain one |
| `Rendezvous.EndpointRoundTrip` | crates/hpn-client-core/src/nat.rs:1152-1188 | an encoded endpoint is read back from anywhere in a message, with the offset behind it |
| `Rendezvous.EndpointBytes` | crates/hpn-client-core/src/nat.rs:1041-1078 | the bytes of an endpoint |
| `Rendezvous.InfoRoundTrip` | crates/hpn-client-core/src/nat.rs:1041-1150 | every encoding is decoded to what it encodes, whatever follows it |
| `Rendezvous.InfoPrefixFree` | crates/hpn-client-core/src/nat.rs:1041-1087 | no encoding is a prefix of another one |
| `Rendezvous.InfoDecodeExact` | crates/hpn-client-core/src/nat.rs:1090-1188 | decoding gives a value if and only if the input spells it, any byte but 1 announcing no private endpoint and any from 5 on an unknown NAT |
| `Rendezvous.InfoBytes` | crates/hpn-client-core/src/nat.rs:1041-1087 | the flag and code bytes of an encoding, and its length |
| `Rendezvous.DecodePanicsExactly` | crates/hpn-client-core/src/nat.rs:1090-1150 | decoding reads past the end of its input if and only if the input has 35 bytes and its endpoint is IPv6 |
| `Rendezvous.MessageRoundTrip` | crates/hpn-client-core/src/nat.rs:744-780 | an encoded message has 29 bytes and is decoded to what it encodes, whatever follows it |
| `Rendezvous.MessageBytes` | crates/hpn-client-core/src/nat.rs:744-751 | the 29 bytes of a message |
| `Rendezvous.MessageDecodeExact` | crates/hpn-client-core/src/nat.rs:754-780 | exactly the inputs of 29 bytes or more with a known type decode, and their value encodes to those bytes |
| `Framing.TcpTransport.WriteFrame` | crates/hpn-client-core/src/transport.rs:669-688 | writes the whole frame, or an initial part where the stream breaks; a failed flush leaves the whole frame; refuses oversized packets without writing |
| `Framing.TcpTransport.Send` | crates/hpn-client-core/src/transport.rs:722-739 | after the first failure nothing more is written, so the stream is whole frames of sent packets and at most an initial part of one more, all of it exactly if its flush failed |
| `Framing.TcpTransport.ReadFrame` | crates/hpn-client-core/src/transport.rs:691-717 | the packet, the error and what is left unread, as a function of the unread bytes |
| `Framing.TcpTransport.Recv` | crates/hpn-client-core/src/transport.rs:741-760 | after the first failure every later call fails without reading |
| `Framing.FrameBytes` | crates/hpn-client-core/src/transport.rs:669-688 | a frame is the length in two bytes, the most significant first, and the packet |
| `Framing.ReadExact` | crates/hpn-client-core/src/transport.rs:691-717 | a packet is read, found too large or cut off if and only if the bytes and the buffer say so |
| `Framing.DeliveredInOrder` | crates/hpn-client-core/src/transport.rs:691-717 | from any cut of a framed stream, with any buffers, what is delivered is an initial part of what was sent |
| `Framing.DeliveredInFull` | crates/hpn-client-core/src/transport.rs:669-717 | with large enough buffers everything sent is delivered |
| `Framing.BrokenTail` | crates/hpn-client-core/src/transport.rs:669-760 | a frame that broke off is never delivered |
| `Framing.OnlySentExactly` | crates/hpn-client-core/src/transport.rs:669-760 | however the stream is cut and read, only packets whose send succeeded are delivered, if and only if the last frame in it is not a whole one whose flush failed |
| `Framing.RunLink` | crates/hpn-client-core/src/transport.rs:669-760 | sender and receiver together, with any failures, cuts and buffers: what is received is an initial part of the packets whose send succeeded and then the one, if any, whose flush failed, and all of these if the stream carries them and the buffers hold them |
| `BufferPool.HolderCount` | crates/hpn-client-core/src/buffer_pool.rs:123-230 | one more slot is held after a winning compare-exchange, one fewer after a tagged drop, and no other step changes it |
| `BufferPool.CompetesExactly` | crates/hpn-client-core/src/buffer_pool.rs:166-230 | a thread that finds the pool empty competes for an overflow slot if and only if fewer than `max(4 * size, 64)` are in use |
| `BufferPool.WaitsExactly` | crates/hpn-client-core/src/buffer_pool.rs:166-230 | it comes to wait only by finding that many in use, and after losing the compare-exchange tries again |
| `BufferPool.StepKeepsCount` | crates/hpn-client-core/src/buffer_pool.rs:216-230 | every step of every thread keeps the wrapping counter equal to the slots held and within its cap |
| `BufferPool.StepKeepsClean` | crates/hpn-client-core/src/buffer_pool.rs:123-135 | every step keeps the channel within its bound and what is in it wiped |
| `BufferPool.PoolBounded` | crates/hpn-client-core/src/buffer_pool.rs:166-230 | in every interleaving the counter is the slots held, at least the live tagged handles and at most `max(4 * size, 64)`, and the channel is at most `size` |
| `BufferPool.HandlesStartZero` | crates/hpn-client-core/src/buffer_pool.rs:41-57 | in every interleaving each handle starts as 65535 zero bytes |
| `BufferPool.NewHandleIsZero` | crates/hpn-client-core/src/buffer_pool.rs:279-294 | the same for one step, also after earlier handles were split or frozen |
| `BufferPool.BufferCount` | crates/hpn-client-core/src/buffer_pool.rs:123-230 | which steps add a buffer that holds no overflow slot, and which take one away |
| `BufferPool.LiveBounded` | crates/hpn-client-core/src/buffer_pool.rs:160-214 | the live handles are at most the size, the cap, and one for each timed receive that gave up and each overflow buffer that was dropped |
| `BufferPool.LiveUnbounded` | crates/hpn-client-core/src/buffer_pool.rs:160-214 | and there is no bound short of that: any number of handles can be live although never more than one overflow slot is in use and no receive is timed |
| `KillSwitch.KillSwitchManager.constructor` | crates/hpn-client-core/src/kill_switch.rs:117-142 | a new manager is inactive, with no attempts made |
| `KillSwitch.KillSwitchManager.OnVpnDisconnected` | crates/hpn-client-core/src/kill_switch.rs:207-232 | the transition on disconnecting; its result is what `should_block_traffic` says afterwards |
| `KillSwitch.KillSwitchManager.OnReconnectAttempt` | crates/hpn-client-core/src/kill_switch.rs:238-295 | an attempt is granted exactly while the wrapping counter allows it, with the delay of that attempt |
| `KillSwitch.RunSwitch` | crates/hpn-client-core/src/kill_switch.rs:151-317 | over every sequence of calls the manager goes through the specified states and blocks exactly when they say so |
| `KillSwitch.EngagedAlwaysBlocks` | crates/hpn-client-core/src/kill_switch.rs:151-317 | in every trace an engaged switch is in an active mode |
| `KillSwitch.LiftExact` | crates/hpn-client-core/src/kill_switch.rs:151-317 | exactly which events end a block |
| `KillSwitch.BlockBegins` | crates/hpn-client-core/src/kill_switch.rs:151-317 | exactly which events begin a block |
| `KillSwitch.BlockedThroughout` | crates/hpn-client-core/src/kill_switch.rs:151-317 | traffic stays blocked over a whole trace if and only if none of those events occurs in it |
| `KillSwitch.BypassLimit` | crates/hpn-client-core/src/kill_switch.rs:238-295 | between resets of the counter the bypass is entered at most `max_reconnect_attempts` times, and that often and once more in each further 2^32 attempts |
| `KillSwitch.CounterExact` | crates/hpn-client-core/src/kill_switch.rs:190-317 | over every trace the counter is the attempts since a tunnel last worked or the switch was reset, modulo 2^32 |
| `KillSwitch.AttemptExact` | crates/hpn-client-core/src/kill_switch.rs:238-256 | so the n-th attempt since then is granted if and only if n, modulo 2^32, is within the limit |
| `KillSwitch.UnlimitedExactly` | crates/hpn-client-core/src/kill_switch.rs:255-256 | attempts are never refused if and only if the limit is the largest counter value; a limit of zero refuses all but the one at the wrap |
| `KillSwitch.GuardedExactly` | crates/hpn-client-core/src/kill_switch.rs:151-317 | over every trace, the switch is on guard if and only if it was armed and has not been disarmed since |
| `KillSwitch.DisconnectBlocksExactly` | crates/hpn-client-core/src/kill_switch.rs:17-232 | exactly then does a disconnect that is not the user's, in an active mode, block traffic |
| `KillSwitch.EnabledTooLate` | crates/hpn-client-core/src/kill_switch.rs:17-202 | enabled after the tunnel came up, the switch blocks nothing on a network error |
| `KillSwitch.WrapReopens` | crates/hpn-client-core/src/kill_switch.rs:238-295 | once used up, attempts are granted again exactly when the counter wraps |
| `KillSwitch.DelayLaw` | crates/hpn-client-core/src/kill_switch.rs:276-283 | the law that fixes every delay before jitter: the base delay, then twenty doublings, then no change, and never more than five minutes |
| `KillSwitch.DelaysGrow` | crates/hpn-client-core/src/kill_switch.rs:238-295 | delays before jitter never decrease, start at the base delay and never exceed five minutes |
| `PfRules.BuildRules` | crates/hpn-client-macos/src/routing.rs:1819-1919 | the rules in order: block all, the passes, and the mDNS, DoT and DoH blocks |
| `PfRules.RulesExact` | crates/hpn-client-macos/src/routing.rs:1819-1919 | the list passes a packet if and only if it is loopback, DHCP, server UDP, on the tunnel, or local with `allow_lan`; the mDNS, DoT and DoH blocks change no decision |
| `PfRules.LanExactly` | crates/hpn-client-macos/src/routing.rs:100-111 | local packets by the leading bits of their far address |
| `PfRules.PassListDecides` | crates/hpn-client-macos/src/routing.rs:1845-1885 | quick passes in front of any rules decide the packets they match and no other |
| `PfRules.TailExactly` | crates/hpn-client-macos/src/routing.rs:1887-1919 | exactly which packets the blocks at the end match |
| `PfRules.MdnsBlockedExactly` | crates/hpn-client-macos/src/routing.rs:1887-1891 | outside loopback, tunnel, DHCP and server traffic, an mDNS packet is blocked if and only if it is not local traffic that is allowed |
| `PfRules.LanMdnsPasses` | crates/hpn-client-macos/src/routing.rs:1887-1891 | so with `allow_lan` an mDNS packet from a local host passes |
| `PfConf.ConfFile.EnsureAnchor` | crates/hpn-client-macos/src/routing.rs:2025-2062 | leaves a file that mentions the anchor line, appends the four lines to any other, and leaves the anchor line in it |
| `PfConf.ConfFile.RemoveAnchor` | crates/hpn-client-macos/src/routing.rs:2065-2100 | leaves no anchor line and no line that mentions the name or the marker, and takes at most a final newline from a clean file |
| `PfConf.ContainsExactly` | crates/hpn-client-macos/src/routing.rs:2039-2080 | containment is occurrence at some place |
| `PfConf.EnabledText` | crates/hpn-client-macos/src/routing.rs:2025-2062 | the text that enabling appends, with the anchor and its file |
| `PfConf.OursExactly` | crates/hpn-client-macos/src/routing.rs:2076-2083 | which lines are dropped: those in which the anchor name or the comment occurs |
| `PfConf.KeepExactly` | crates/hpn-client-macos/src/routing.rs:2076-2083 | a line is dropped or stays on its own, whatever is around it |
| `PfConf.DisableExactly` | crates/hpn-client-macos/src/routing.rs:2065-2100 | on any file of complete lines without carriage returns, disabling keeps the other lines in order, less a blank one at the end |
| `PfConf.EnableThenDisableExactly` | crates/hpn-client-macos/src/routing.rs:2025-2100 | enabling then disabling gives the file back with a final newline if and only if none of its lines ends in a carriage return or mentions the anchor name or the marker |
| `PfConf.EnableTwice` | crates/hpn-client-macos/src/routing.rs:2039-2042 | enabling puts the anchor line in the file, and enabling again changes nothing |
| `PfConf.DisableRemovesAll` | crates/hpn-client-macos/src/routing.rs:2065-2100 | after disabling, from any file, no line mentions the anchor name or the marker |
| `PfConf.DisableCleanExactly` | crates/hpn-client-macos/src/routing.rs:2086-2099 | on a clean file disabling changes nothing if and only if the file does not end in a blank line, and otherwise takes that line away |
| `PfConf.RoundsSettle` | crates/hpn-client-macos/src/routing.rs:2025-2100 | any number of rounds on a clean file equals one |
| `Routing.RouteCommand.Add` | crates/hpn-client-macos/src/routing.rs:391-422 | a failed command changes nothing, and a destination that is in the table keeps its route |
| `Routing.RouteCommand.Delete` | crates/hpn-client-macos/src/routing.rs:425-439 | removes exactly the destination; an error only where the command cannot be run, while one that exits with an error changes nothing and is not reported |
| `Routing.RoutingConfig.SetUpFullTunnel` | crates/hpn-client-macos/src/routing.rs:505-619 | whatever commands fail, only managed destinations and the IPv4 default change and only the defaults found are captured; if none fails it succeeds exactly when an original gateway is known or found, leaving the established table |
| `Routing.SetUpLeavesAlone` | crates/hpn-client-macos/src/routing.rs:505-619 | whatever commands fail, set-up changes nothing but the tunnel routes, the IPv4 default and, with kill switch and `allow_lan`, the listed local networks |
| `Routing.EstablishedExactly` | crates/hpn-client-macos/src/routing.rs:505-556 | the IPv4 table after set-up, destination by destination |
| `Routing.EstablishedExactly6` | crates/hpn-client-macos/src/routing.rs:558-609 | the IPv6 table after set-up, destination by destination |
| `Routing.RoutingConfig.TearDownForceRestore` | crates/hpn-client-macos/src/routing.rs:705-775 | whatever commands fail, nothing but the tunnel routes, the defaults and, with `allow_lan`, the listed local networks changes; if none fails, these routes are gone and each captured default is the only default |
| `Routing.RoutingConfig.TearDown` | crates/hpn-client-macos/src/routing.rs:625-699 | the same, except that with the kill switch no default is restored and without it the local routes are left alone |
| `Routing.RemovedExactly` | crates/hpn-client-macos/src/routing.rs:625-735 | the destinations a tear-down or set-up manages, written out |
| `Routing.TornDownExactly` | crates/hpn-client-macos/src/routing.rs:625-775 | what is left for each destination after a tear-down whose commands all work |
| `Routing.ConnectThenDisconnect` | crates/hpn-client-macos/src/routing.rs:505-775 | after a set-up of which any commands failed, a forced tear-down whose commands work gives the first table without the managed destinations and with the captured defaults, for all settings |
| `Routing.GivesBackExactly` | crates/hpn-client-macos/src/routing.rs:705-775 | that is the first table if and only if it held no managed destination and its defaults were the captured ones |
| `Routing.LanRouteLost` | crates/hpn-client-macos/src/routing.rs:719-735 | an earlier route to a listed local network survives a session if and only if `allow_lan` is off |
| `Routing.TunnelTakesInet` | crates/hpn-client-macos/src/routing.rs:505-556 | by longest prefix, every IPv4 address that no earlier route but a default covers goes to the tunnel, except the server and, with kill switch and `allow_lan`, the local subnets, which go to the original gateway |
| `Routing.TunnelTakesInet6` | crates/hpn-client-macos/src/routing.rs:558-609 | the same for IPv6, where local addresses leave the tunnel only if there was an IPv6 default |
| `Routing.KillSwitchBlocksInet` | crates/hpn-client-macos/src/routing.rs:505-703 | after a session with the kill switch no IPv4 address is routed that only the default covered; the IPv6 default is as it was before |

## Left out

- Socket: packet contents, wake-ups and statistics, and the mapping and binding of memory and rings. The kernel is any sequence of the four steps it may make; it completes TX frames with their base address and never overruns a ring. The application takes frames only through the socket's calls, and submits or frees only frames whose address it was given.
- Rings: the difference of the two counters wraps as in a build without overflow checks; with them, `prod - cons` panics where `prod` has wrapped and `cons` has not.
- FrameStack, BufferPool: atomics are sequentially consistent; the memory orderings are not modelled. A compare-exchange may fail spuriously.
- Replay.RunWindow: excludes the counter `u64::MAX`, which `Replay.ReplayWindow.CheckReplay` and `Replay.LastCounterLowersBase` cover.
- Replay, RateLimit, KillSwitch: one caller at a time; the loads and stores of concurrent callers are not interleaved.
- RateLimit.RecoveryExact: with the byte limit off, because that limit refuses a packet by its size whatever the packet bucket does.
- KillSwitch: the attempt counter wraps as in a build without overflow checks, and jitter is not modelled.
- Rendezvous: the IPv6 flow label and scope of an endpoint, which the encoding does not carry.
- Framing: cancellation of a read or write in progress, time-outs, and the fallback between transports.
- BufferPool: the length of the wait for a buffer; the timed receive may succeed or give up at any time. A pool of size zero, where a drop can hand its buffer to a waiting receive without a place in the channel, is not modelled: there the model discards the buffer.
- PfRules: rules are values, not lines of text, and evaluation is stateless. The server address is given by family and number.
- PfConf.EnableThenDisableExactly: for anchor names that are not empty and hold no newline. Errors of reading and writing the file are not modelled.
- Routing: the captured gateway and interface are one optional value, as the setters leave them. Commands that fail or are refused do nothing. Split and bypass tunnels, DNS and the recovery files are not modelled.
- Encryption, key exchange and the session protocol are calls into code outside these files.
- Client connection handling, statistics, configuration files and the relay's batched I/O are not modelled.
