/**
The packet memory: its configuration, the bounds check in front of every packet
slice, and the stack of free frames as one owner uses it. `FrameStack` treats
the same stack under interleaving.
*/
module Umem {
  import opened Machine

  const XDP_MIN_FRAME_SIZE: u32 := 2048
  const XDP_MAX_FRAME_SIZE: u32 := 4096

  datatype UmemError =
    | InvalidFrameSize
    | FrameSizeNotPowerOfTwo
    | HeadroomTooLarge
    | FrameCountNotPowerOfTwo
    | InvalidFrameAddress(addr: u64)
    | PacketTooLong
    | StartOverflow
    | EndOverflow
    | OutOfBounds

  datatype Result<+T> = Ok(value: T) | Err(error: UmemError)

  datatype UmemConfig = UmemConfig(frameSize: u32, headroom: u32, numFrames: u32) {

    predicate Valid() {
      && XDP_MIN_FRAME_SIZE <= frameSize <= XDP_MAX_FRAME_SIZE
      && IsPowerOfTwo(frameSize)
      && headroom < frameSize
      && IsPowerOfTwo(numFrames)
    }

    function TotalSize(): nat { frameSize * numFrames }

    function MaxPacketSize(): u32
      requires headroom <= frameSize
    {
      frameSize - headroom
    }

    /** `addr % frame_size == 0`, by repeated subtraction. */
    predicate IsBase(addr: nat)
      requires frameSize > 0
      decreases addr
    {
      if addr < frameSize then addr == 0 else IsBase(addr - frameSize)
    }

    /** A frame base inside the region. */
    predicate ValidAddr(addr: nat)
      requires frameSize > 0
    {
      addr < TotalSize() && IsBase(addr)
    }

    /** The frame an address lies in: `addr / frame_size`. */
    function FrameOf(addr: nat): nat
      requires frameSize > 0
      decreases addr
    {
      if addr < frameSize then 0 else 1 + FrameOf(addr - frameSize)
    }
  }

  lemma {:induction false} FrameIsQuotient(c: UmemConfig, addr: nat)
    requires c.frameSize > 0
    ensures c.FrameOf(addr) == addr / c.frameSize
    ensures c.IsBase(addr) <==> addr % c.frameSize == 0
    decreases addr
  {
    if addr < c.frameSize {
      RemainderUnique(addr, c.frameSize, 0, addr);
    } else {
      var rest := addr - c.frameSize;
      FrameIsQuotient(c, rest);
      assert addr == (rest / c.frameSize + 1) * c.frameSize + rest % c.frameSize;
      RemainderUnique(addr, c.frameSize, rest / c.frameSize + 1, rest % c.frameSize);
    }
  }

  function NewConfig(frameSize: u32, headroom: u32, numFrames: u32): (r: Result<UmemConfig>)
    ensures r.Ok? <==> UmemConfig(frameSize, headroom, numFrames).Valid()
    ensures r.Ok? ==> r.value == UmemConfig(frameSize, headroom, numFrames)
  {
    if frameSize < XDP_MIN_FRAME_SIZE || frameSize > XDP_MAX_FRAME_SIZE then Err(InvalidFrameSize)
    else if !IsPowerOfTwo(frameSize) then Err(FrameSizeNotPowerOfTwo)
    else if headroom >= frameSize then Err(HeadroomTooLarge)
    else if !IsPowerOfTwo(numFrames) then Err(FrameCountNotPowerOfTwo)
    else Ok(UmemConfig(frameSize, headroom, numFrames))
  }

  lemma {:induction false} FrameSizes(n: nat)
    requires 2048 <= n <= 4096
    ensures IsPowerOfTwo(n) <==> n == 2048 || n == 4096
  {
    assert Pow2(6) == 64 && Pow2(5) == 32;
    Pow2Divides(5, 11);
    PowersAccepted(11);
    PowersAccepted(12);
    if IsPowerOfTwo(n) {
      var k := Exponent(n);
      if k < 11 { Pow2Monotone(k, 10); } else if k > 12 { Pow2Monotone(13, k); }
    }
  }

  lemma {:induction false} PowersExactly(n: nat)
    ensures IsPowerOfTwo(n) <==> exists k :: n == Pow2(k)
  {
    if IsPowerOfTwo(n) {
      var k := Exponent(n);
    }
    forall k | n == Pow2(k)
      ensures IsPowerOfTwo(n)
    {
      PowersAccepted(k);
    }
  }

  /** Each answer, exactly: frames of 2048 or 4096 bytes, headroom inside them, and a power of two of them. */
  lemma {:induction false} ConfigExact(frameSize: u32, headroom: u32, numFrames: u32)
    ensures var r, size, power := NewConfig(frameSize, headroom, numFrames), frameSize == 2048 || frameSize == 4096, exists k :: numFrames == Pow2(k);
      && (r == Ok(UmemConfig(frameSize, headroom, numFrames)) <==> size && headroom < frameSize && power)
      && (r == Err(InvalidFrameSize) <==> frameSize < 2048 || frameSize > 4096)
      && (r == Err(FrameSizeNotPowerOfTwo) <==> 2048 < frameSize < 4096)
      && (r == Err(HeadroomTooLarge) <==> size && headroom >= frameSize)
      && (r == Err(FrameCountNotPowerOfTwo) <==> size && headroom < frameSize && !power)
  {
    PowersExactly(numFrames);
    if 2048 <= frameSize <= 4096 { FrameSizes(frameSize); }
  }

  /** `u64::checked_add`. */
  function CheckedAdd(a: u64, b: u64): Option<u64> {
    if a + b < U64_MODULUS then Some(a + b) else None
  }

  /** The offset of the packet bytes of the frame at `addr`, or why there are none. */
  function ValidatePacketBounds(c: UmemConfig, addr: u64, len: u32): Result<u64>
    requires c.Valid()
  {
    if !c.ValidAddr(addr) then Err(InvalidFrameAddress(addr))
    else if len > c.MaxPacketSize() then Err(PacketTooLong)
    else match CheckedAdd(addr, c.headroom)
      case None => Err(StartOverflow)
      case Some(start) =>
        match CheckedAdd(start, len)
        case None => Err(EndOverflow)
        case Some(end) => if end > c.TotalSize() then Err(OutOfBounds) else Ok(start)
  }

  /** The whole frame of a valid address lies inside the region. */
  lemma {:induction false} FrameInsideRegion(c: UmemConfig, addr: nat)
    requires c.Valid() && c.ValidAddr(addr)
    ensures c.FrameOf(addr) < c.numFrames
    ensures addr == c.FrameOf(addr) * c.frameSize
    ensures addr + c.frameSize <= c.TotalSize() < U64_MODULUS
  {
    FrameIsQuotient(c, addr);
    MultipleBelow(addr, c.frameSize, c.numFrames);
    MultiplyMonotone(c.frameSize, XDP_MAX_FRAME_SIZE, c.numFrames);
  }

  lemma {:induction false} FrameBase(c: UmemConfig, f: nat)
    requires c.Valid() && f < c.numFrames
    ensures c.ValidAddr(f * c.frameSize) && c.FrameOf(f * c.frameSize) == f
  {
    FrameIsQuotient(c, f * c.frameSize);
    RemainderUnique(f * c.frameSize, c.frameSize, f, 0);
    assert (c.numFrames - f) * c.frameSize == c.numFrames * c.frameSize - f * c.frameSize;
    PositiveMultiple(c.numFrames - f, c.frameSize);
  }

  /**
   The two caller-facing checks decide acceptance: the overflow and out-of-bounds errors never occur. The accepted
   bytes start behind the headroom of a frame of the region and end in that frame.
  */
  lemma {:induction false} BoundsCheckExact(c: UmemConfig, addr: u64, len: u32)
    requires c.Valid()
    ensures var r, base := ValidatePacketBounds(c, addr, len), addr < c.numFrames * c.frameSize && addr % c.frameSize == 0;
      && (r.Ok? <==> base && c.headroom + len <= c.frameSize)
      && (r == Err(InvalidFrameAddress(addr)) <==> !base)
      && (r == Err(PacketTooLong) <==> base && c.headroom + len > c.frameSize)
      && (r.Ok? ==> r.value == addr + c.headroom && r.value + len <= addr + c.frameSize <= c.TotalSize())
  {
    FrameIsQuotient(c, addr);
    if c.ValidAddr(addr) { FrameInsideRegion(c, addr); }
  }

  lemma {:induction false} DistinctMultiples(f: nat, g: nat, d: nat)
    requires f != g
    ensures f * d + d <= g * d || g * d + d <= f * d
  {
    MultiplyMonotone(Min(f, g) + 1, Max(f, g), d);
    assert (Min(f, g) + 1) * d == Min(f, g) * d + d;
  }

  /** Accepted packet ranges of different frames share no byte. */
  lemma {:induction false} AcceptedRangesDisjoint(c: UmemConfig, a: u64, m: u32, b: u64, n: u32, byte: nat)
    requires c.Valid() && c.FrameOf(a) != c.FrameOf(b)
    requires ValidatePacketBounds(c, a, m).Ok? && ValidatePacketBounds(c, b, n).Ok?
    ensures var s, t := ValidatePacketBounds(c, a, m).value, ValidatePacketBounds(c, b, n).value;
      !(s <= byte < s + m && t <= byte < t + n)
  {
    BoundsCheckExact(c, a, m);
    BoundsCheckExact(c, b, n);
    FrameInsideRegion(c, a);
    FrameInsideRegion(c, b);
    DistinctMultiples(c.FrameOf(a), c.FrameOf(b), c.frameSize);
  }

  /**
   The address that `send_submit` puts in a TX descriptor is itself a frame base,
   as `free` asserts of what it is given, exactly when the headroom is zero. So a
   kernel that completes with the descriptor's own address meets that assertion
   only for a configuration without headroom.
  */
  lemma {:induction false} SubmittedAddressIsFrameBase(c: UmemConfig, addr: nat)
    requires c.Valid() && c.ValidAddr(addr)
    ensures c.FrameOf(addr + c.headroom) == c.FrameOf(addr)
    ensures c.ValidAddr(addr + c.headroom) <==> c.headroom == 0
  {
    FrameInsideRegion(c, addr);
    FrameIsQuotient(c, addr + c.headroom);
    RemainderUnique(addr + c.headroom, c.frameSize, c.FrameOf(addr), c.headroom);
  }

  /** Every frame of the region, in order. */
  ghost predicate AllFrames(c: UmemConfig, stack: seq<u64>) {
    |stack| == c.numFrames && forall i :: 0 <= i < c.numFrames ==> stack[i] == i * c.frameSize
  }

  /** The free stack with a single owner, where no compare-exchange can fail. */
  class FrameAllocator {
    const frameSize: u32
    const numFrames: u32
    const freeStack: array<u64>
    var stackTop: u64
    /** The free frame addresses, in the order they were pushed. */
    ghost var stack: seq<u64>

    ghost predicate Valid()
      reads this, freeStack
    {
      && frameSize > 0
      && stackTop <= numFrames == freeStack.Length
      && stack == freeStack[..stackTop]
    }

    constructor (c: UmemConfig)
      requires c.Valid()
      ensures Valid() && fresh(freeStack)
      ensures frameSize == c.frameSize && numFrames == c.numFrames
      ensures |stack| == c.numFrames && true == AllFrames(c, stack)
    {
      frameSize, numFrames := c.frameSize, c.numFrames;
      var cells := new u64[c.numFrames];
      var i: u32 := 0;
      while i < c.numFrames
        invariant i <= c.numFrames
        invariant forall k :: 0 <= k < i ==> cells[k] == k * c.frameSize
      {
        FrameBase(c, i);
        FrameInsideRegion(c, i * c.frameSize);
        cells[i] := i * c.frameSize;
        i := i + 1;
      }
      freeStack := cells;
      stackTop := c.numFrames;
      stack := cells[..];
    }

    method Alloc() returns (r: Option<u64>)
      requires Valid()
      modifies this`stackTop, this`stack
      ensures Valid()
      ensures r.None? <==> old(stack) == []
      ensures r.None? ==> stack == old(stack)
      ensures r.Some? ==> old(stack) == stack + [r.value]
    {
      if stackTop == 0 {
        return None;
      }
      stackTop := stackTop - 1;
      stack := stack[..stackTop];
      r := Some(freeStack[stackTop]);
    }

    /** The preconditions are the source's own assertions on the caller. */
    method Free(addr: u64)
      requires Valid()
      requires addr % frameSize == 0 && addr < numFrames * frameSize
      requires |stack| < numFrames
      modifies this`stackTop, this`stack, freeStack
      ensures Valid()
      ensures stack == old(stack) + [addr]
    {
      freeStack[stackTop] := addr;
      stackTop := stackTop + 1;
      stack := stack + [addr];
    }

    method Available() returns (n: u32)
      requires Valid()
      ensures n == |stack|
    {
      n := stackTop;
    }
  }
}
