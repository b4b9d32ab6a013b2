/**
The four AF_XDP rings. The fill and TX rings are produced by userspace and
consumed by the kernel (`ProducerRing`); the completion and RX rings are the
other way round (`ConsumerRing`). Each ring keeps free-running `u32` counters
that wrap and a power-of-two slot array addressed through a mask.

The ghost log is the unbounded FIFO queue that a ring refines: `published` is
every entry ever made visible to the other side and `taken` counts how many of
them the other side has released. The published counters are the log's lengths
modulo 2^32, and no log length is bounded, so the refinement covers wrap-around.
*/
module Rings {
  import opened Machine

  /** `RingConfig::new`: only power-of-two sizes are accepted. */
  predicate ValidSize(size: nat) { IsPowerOfTwo(size) && size < U32_MODULUS }

  class ProducerRing<T(0)> {
    const mask: u32
    const slots: array<T>
    var producer: u32
    var consumer: u32
    var cachedProd: u32
    ghost var published: seq<T>
    ghost var taken: nat
    /** Entries reserved by `Reserve` and not yet made visible by `Submit`. */
    ghost var staged: seq<T>

    ghost predicate Valid()
      reads this, slots
    {
      && ValidSize(mask + 1)
      && slots.Length == mask + 1
      && taken <= |published|
      && |published| + |staged| <= taken + slots.Length
      && producer == |published| % U32_MODULUS
      && consumer == taken % U32_MODULUS
      && cachedProd == (|published| + |staged|) % U32_MODULUS
      && forall j {:trigger SlotOf(j, slots.Length)} :: taken <= j < |Log()| ==> slots[SlotOf(j, slots.Length)] == Log()[j]
    }

    ghost function Log(): seq<T>
      reads this
    {
      published + staged
    }

    /** Entries visible to the consumer, oldest first. */
    ghost function Pending(): seq<T>
      reads this
      requires taken <= |published|
    {
      published[taken..]
    }

    ghost function Free(): int
      reads this
    {
      mask + 1 - (|published| - taken) - |staged|
    }

    /** No slot is shared by two outstanding entries, and the slots a reservation may take are not outstanding. */
    lemma {:induction false} OutstandingSlotsDistinct(i: nat, j: nat)
      requires Valid()
      requires taken <= i < j < taken + slots.Length
      ensures SlotOf(i, slots.Length) != SlotOf(j, slots.Length)
    {
      SlotsDiffer(i, j, slots.Length);
    }

    constructor (size: u32)
      requires ValidSize(size)
      ensures Valid() && fresh(slots)
      ensures mask + 1 == size && published == [] && staged == [] && taken == 0
    {
      mask := size - 1;
      slots := new T[size];
      producer, consumer, cachedProd := 0, 0, 0;
      published, staged, taken := [], [], 0;
    }

    method FreeSlots() returns (n: u32)
      requires Valid()
      ensures n == Free()
    {
      WrappedDistance(|published| + |staged|, taken);
      n := (mask + 1) - WrappingSub(cachedProd, consumer);
    }

    method Reserve(count: u32) returns (r: Option<u32>)
      requires Valid()
      modifies this`cachedProd, this`staged
      ensures Valid()
      ensures r.Some? <==> count <= old(Free())
      ensures r.None? ==> staged == old(staged) && cachedProd == old(cachedProd)
      ensures r.Some? ==> r.value == old(cachedProd) && |staged| == |old(staged)| + count && old(staged) <= staged
    {
      var free := FreeSlots();
      if free < count {
        return None;
      }
      r := Some(cachedProd);
      ghost var end := |Log()|;
      WrappedSum(end, count);
      cachedProd := WrappingAdd(cachedProd, count);
      ghost var size := slots.Length;
      ghost var now := slots[..];
      ghost var fresh' := seq(count, i requires 0 <= i < count => now[SlotOf(end + i, size)]);
      ghost var before := Log();
      staged := staged + fresh';
      assert Log() == before + fresh';
      assert forall j :: end <= j < end + count ==> Log()[j] == fresh'[j - end];
    }

    /** Overwrites one reserved entry; published entries are out of reach. */
    method Write(idx: u32, value: T)
      requires Valid()
      requires WrappingSub(idx, producer) < |staged|
      modifies slots, this`staged
      ensures Valid()
      ensures staged == old(staged)[WrappingSub(idx, producer) := value]
    {
      ghost var offset := WrappingSub(idx, producer);
      ghost var at := |published| + offset;
      assert idx == at % U32_MODULUS by { WrappedIndex(idx, |published|); }
      MaskedSlot(at, mask + 1);
      forall j | taken <= j < |Log()| && j != at
        ensures SlotOf(j, slots.Length) != SlotOf(at, slots.Length)
      {
        OutstandingSlotsDistinct(Min(j, at), Max(j, at));
      }
      slots[BitAnd(idx, mask)] := value;
      staged := staged[offset := value];
    }

    /** `fetch_add` on the shared producer counter. */
    method Submit(count: u32)
      requires Valid()
      requires count <= |staged|
      modifies this`producer, this`published, this`staged
      ensures Valid()
      ensures published == old(published) + old(staged)[..count]
      ensures staged == old(staged)[count..]
    {
      WrappedSum(|published|, count);
      producer := WrappingAdd(producer, count);
      ghost var log := Log();
      published, staged := published + staged[..count], staged[count..];
      assert Log() == log;
    }

    method KernelAvailable() returns (n: u32)
      requires Valid()
      ensures n == |Pending()|
    {
      WrappedDistance(|published|, taken);
      n := WrappingSub(producer, consumer);
    }

    /** The kernel consumes the oldest published entry. */
    method KernelTake() returns (value: T)
      requires Valid()
      requires Pending() != []
      modifies this`consumer, this`taken
      ensures Valid()
      ensures taken == old(taken) + 1
      ensures value == published[old(taken)]
    {
      MaskedSlot(taken, mask + 1);
      value := slots[BitAnd(consumer, mask)];
      assert value == Log()[taken];
      WrappedSum(taken, 1);
      consumer := WrappingAdd(consumer, 1);
      taken := taken + 1;
    }
  }

  /** What userspace and the kernel do to a produced ring, one step each; `offset` counts from the oldest reserved entry. */
  datatype RingStep<T> = ReserveSlots(count: u32) | WriteSlot(offset: u32, value: T) | SubmitSlots(count: u32) | Take

  /** A bounded FIFO queue: what was submitted, what is reserved and perhaps written, and what was taken. */
  datatype Queue<T> = Queue(sent: seq<T>, staged: seq<Option<T>>, taken: seq<T>)

  predicate AllWritten<T>(entries: seq<Option<T>>) { forall i :: 0 <= i < |entries| ==> entries[i].Some? }

  function Values<T>(entries: seq<Option<T>>): seq<T>
    requires AllWritten(entries)
  {
    seq(|entries|, i requires 0 <= i < |entries| => entries[i].value)
  }

  /** A reservation is granted whole or refused, and only written entries are submitted; the oldest unread entry is taken next. */
  function QueueStep<T>(size: nat, q: Queue<T>, step: RingStep<T>): Queue<T> {
    match step
    case ReserveSlots(count) =>
      if |q.sent| + |q.staged| + count <= |q.taken| + size then q.(staged := q.staged + seq(count, _ => None)) else q
    case WriteSlot(offset, value) => if offset < |q.staged| then q.(staged := q.staged[offset := Some(value)]) else q
    case SubmitSlots(count) =>
      if count <= |q.staged| && AllWritten(q.staged[..count])
      then q.(sent := q.sent + Values(q.staged[..count]), staged := q.staged[count..]) else q
    case Take => if |q.taken| < |q.sent| then q.(taken := q.taken + [q.sent[|q.taken|]]) else q
  }

  ghost function QueueRun<T>(size: nat, script: seq<RingStep<T>>): Queue<T> {
    if script == [] then Queue([], [], [])
    else QueueStep(size, QueueRun(size, script[..|script| - 1]), script[|script| - 1])
  }

  /** The ring holds queue `q`. */
  ghost predicate Holds<T(0)>(ring: ProducerRing<T>, q: Queue<T>)
    reads ring, ring.slots
  {
    && ring.Valid() && ring.published == q.sent && |ring.staged| == |q.staged|
    && (forall i :: 0 <= i < |q.staged| && q.staged[i].Some? ==> ring.staged[i] == q.staged[i].value)
    && ring.taken == |q.taken| <= |q.sent| && q.taken == q.sent[..|q.taken|]
  }

  /**
   Runs a ring of `size` slots through an arbitrary script of reservations, writes,
   submissions and kernel reads, in any order. The wrapped, masked implementation sends
   and receives exactly what the queue does.
  */
  method RunProducerRing<T(0)>(size: u32, script: seq<RingStep<T>>) returns (q: Queue<T>)
    requires ValidSize(size)
    ensures q == QueueRun(size, script)
    ensures q.taken <= q.sent && |q.sent| + |q.staged| <= |q.taken| + size
  {
    var ring := new ProducerRing<T>(size);
    q := Queue([], [], []);
    for k := 0 to |script|
      invariant fresh(ring) && fresh(ring.slots) && ring.mask + 1 == size
      invariant Holds(ring, q) && q == QueueRun(size, script[..k])
    {
      assert script[..k + 1][..k] == script[..k];
      q := RingTurn(ring, q, script[k]);
    }
    assert script[..|script|] == script;
  }

  /** One step on the ring, as on the queue. */
  method RingTurn<T(0)>(ring: ProducerRing<T>, q: Queue<T>, step: RingStep<T>) returns (q': Queue<T>)
    requires Holds(ring, q)
    modifies ring, ring.slots
    ensures Holds(ring, q') && q' == QueueStep(ring.mask + 1, q, step)
  {
    q' := q;
    match step
    case ReserveSlots(count) =>
      var start := ring.Reserve(count);
      if start.Some? { q' := q.(staged := q.staged + seq(count, _ => None)); }
    case WriteSlot(offset, value) =>
      if offset < |q.staged| {
        WrappedOffset(ring.producer, offset);
        ring.Write(WrappingAdd(ring.producer, offset), value);
        q' := q.(staged := q.staged[offset := Some(value)]);
      }
    case SubmitSlots(count) =>
      if count <= |q.staged| && AllWritten(q.staged[..count]) {
        ghost var staged := ring.staged;
        ring.Submit(count);
        assert staged[..count] == Values(q.staged[..count]);
        q' := q.(sent := q.sent + Values(q.staged[..count]), staged := q.staged[count..]);
      }
    case Take =>
      var pending := ring.KernelAvailable();
      if pending > 0 {
        var value := ring.KernelTake();
        q' := q.(taken := q.taken + [value]);
      }
  }

  /** An index is recovered from its distance to a wrapped counter. */
  lemma WrappedIndex(idx: u32, base: nat)
    ensures idx == (base + WrappingSub(idx, base % U32_MODULUS)) % U32_MODULUS
  {
  }

  class ConsumerRing<T(0)> {
    const mask: u32
    const slots: array<T>
    var producer: u32
    var consumer: u32
    var cachedCons: u32
    ghost var published: seq<T>
    ghost var taken: nat

    ghost predicate Valid()
      reads this, slots
    {
      && ValidSize(mask + 1)
      && slots.Length == mask + 1
      && taken <= |published| <= taken + slots.Length
      && producer == |published| % U32_MODULUS
      && consumer == cachedCons == taken % U32_MODULUS
      && forall j {:trigger SlotOf(j, slots.Length)} :: taken <= j < |published| ==> slots[SlotOf(j, slots.Length)] == published[j]
    }

    ghost function Pending(): seq<T>
      reads this
      requires taken <= |published|
    {
      published[taken..]
    }

    constructor (size: u32)
      requires ValidSize(size)
      ensures Valid() && fresh(slots)
      ensures mask + 1 == size && published == [] && taken == 0
    {
      mask := size - 1;
      slots := new T[size];
      producer, consumer, cachedCons := 0, 0, 0;
      published, taken := [], 0;
    }

    method Available() returns (n: u32)
      requires Valid()
      ensures n == |Pending()|
    {
      WrappedDistance(|published|, taken);
      n := WrappingSub(producer, cachedCons);
    }

    /** `peek` and `get_desc`: the entry `i` places behind the oldest one. */
    method Peek(i: u32) returns (value: T)
      requires Valid()
      requires i < |Pending()|
      ensures value == Pending()[i]
    {
      WrappedSum(taken, i);
      MaskedSlot(taken + i, mask + 1);
      value := slots[BitAnd(WrappingAdd(cachedCons, i), mask)];
      assert value == published[taken + i];
    }

    method Release(count: u32)
      requires Valid()
      requires count <= |Pending()|
      modifies this`cachedCons, this`consumer, this`taken
      ensures Valid()
      ensures taken == old(taken) + count
    {
      WrappedSum(taken, count);
      cachedCons := WrappingAdd(cachedCons, count);
      consumer := cachedCons;
      taken := taken + count;
    }

    /** The kernel, which never overruns the ring, appends an entry. */
    method KernelPut(value: T)
      requires Valid()
      requires |Pending()| <= mask
      modifies slots, this`producer, this`published
      ensures Valid()
      ensures published == old(published) + [value]
    {
      ghost var at := |published|;
      MaskedSlot(at, mask + 1);
      forall j | taken <= j < at
        ensures SlotOf(j, slots.Length) != SlotOf(at, slots.Length)
      {
        SlotsDiffer(j, at, slots.Length);
      }
      slots[BitAnd(producer, mask)] := value;
      WrappedSum(at, 1);
      producer := WrappingAdd(producer, 1);
      published := published + [value];
    }
  }

  datatype DrainStep<T> = Put(value: T) | Drain(max: u32)

  /** The queue seen from the consuming side: a full queue takes no entry, and a drain reads up to `max` entries in order. */
  ghost function DrainOne<T>(size: nat, log: (seq<T>, seq<T>), step: DrainStep<T>): (seq<T>, seq<T>)
    requires |log.1| <= |log.0|
  {
    match step
    case Put(value) => if |log.0| < |log.1| + size then (log.0 + [value], log.1) else log
    case Drain(max) => (log.0, log.1 + log.0[|log.1|..Min(|log.0|, |log.1| + max)])
  }

  ghost function DrainRun<T>(size: nat, script: seq<DrainStep<T>>): (log: (seq<T>, seq<T>))
    ensures |log.1| <= |log.0|
  {
    if script == [] then ([], [])
    else DrainOne(size, DrainRun(size, script[..|script| - 1]), script[|script| - 1])
  }

  /** The same refinement for a ring that userspace consumes, through `available`, `peek` and `release`. */
  method RunConsumerRing<T(0)>(size: u32, script: seq<DrainStep<T>>) returns (sent: seq<T>, received: seq<T>)
    requires ValidSize(size)
    ensures (sent, received) == DrainRun(size, script)
    ensures received <= sent && |sent| <= |received| + size
  {
    var ring := new ConsumerRing<T>(size);
    sent, received := [], [];
    for k := 0 to |script|
      invariant ring.Valid() && fresh(ring) && fresh(ring.slots) && ring.mask + 1 == size
      invariant ring.published == sent && ring.taken == |received|
      invariant received <= sent
      invariant (sent, received) == DrainRun(size, script[..k])
    {
      assert script[..k + 1][..k] == script[..k];
      sent, received := DrainTurn(ring, sent, received, script[k]);
    }
    assert script[..|script|] == script;
  }

  /** One step on the ring, as on the two sequences. */
  method DrainTurn<T(0)>(ring: ConsumerRing<T>, sent: seq<T>, received: seq<T>, step: DrainStep<T>)
    returns (sent': seq<T>, received': seq<T>)
    requires ring.Valid() && ring.published == sent && received <= sent && ring.taken == |received|
    modifies ring, ring.slots
    ensures ring.Valid() && ring.published == sent' && received' <= sent' && ring.taken == |received'|
    ensures (sent', received') == DrainOne(ring.mask + 1, (sent, received), step)
  {
    sent', received' := sent, received;
    match step
    case Put(value) =>
      var pending := ring.Available();
      if pending <= ring.mask {
        ring.KernelPut(value);
        sent' := sent + [value];
      }
    case Drain(max) =>
      var batch := DrainRing(ring, max);
      assert batch == sent[|received|..|received| + |batch|];
      received' := received + batch;
  }

  /** Reads up to `max` pending entries in order and releases them. */
  method DrainRing<T(0)>(ring: ConsumerRing<T>, max: u32) returns (batch: seq<T>)
    requires ring.Valid()
    modifies ring`cachedCons, ring`consumer, ring`taken
    ensures ring.Valid()
    ensures batch == old(ring.Pending())[..Min(max, |old(ring.Pending())|)] && ring.taken == old(ring.taken) + |batch|
  {
    var pending := ring.Available();
    var count := Min(max, pending);
    batch := [];
    for i := 0 to count
      invariant ring.Valid() && ring.taken == old(ring.taken)
      invariant batch == ring.Pending()[..i]
    {
      var value := ring.Peek(i);
      batch := batch + [value];
    }
    ring.Release(count);
  }
}
