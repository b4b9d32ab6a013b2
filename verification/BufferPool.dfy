/**
The packet buffer pools under interleaving. Threads call `get` and drop handles;
each channel operation, counter load, compare-exchange, decrement and wipe is one
atomic step. `BufferPool` and `BytesPool` share these steps; only `BytesPool`
handles can be split or frozen.
*/
module BufferPool {
  import opened Machine
  import opened Bytes

  const MAX_PACKET_SIZE: nat := 65535
  const OVERFLOW_MULTIPLIER: nat := 4
  const MIN_OVERFLOW_CAP: nat := 64

  type Buffer = seq<byte>

  function Zeros(n: nat): Buffer { seq(n, _ => 0) }

  /** `PooledBuffer::new`: the buffer a handle starts with. */
  function Resized(b: Buffer): Buffer {
    if |b| >= MAX_PACKET_SIZE then b[..MAX_PACKET_SIZE] else b + Zeros(MAX_PACKET_SIZE - |b|)
  }

  /** A handle given out by `get`; `tagged` when it holds an overflow slot. */
  datatype Handle = Handle(data: Buffer, tagged: bool)

  datatype Thread =
    | Idle
    /** found the channel empty; about to load the overflow counter */
    | WantSlot
    | SlotLoaded(seen: nat)
    /** won the compare-exchange; has not built its handle yet */
    | SlotAcquired
    /** no slot: blocked in the timed receive */
    | Waiting
    /** entered `drop`; `data` is absent after a freeze */
    | DropStart(data: Option<Buffer>, tagged: bool)
    | DropCounted(data: Option<Buffer>)
    | DropWiped(wiped: Buffer)

  datatype Pool = Pool(size: nat, counter: u64, channel: seq<Buffer>, threads: seq<Thread>, handles: map<nat, Handle>)

  datatype Action =
    | TryRecv(id: nat)
    | LoadCounter
    | CasCounter(wins: bool)
    | WrapOverflow(id: nat)
    | TimedRecv(id: nat, got: bool)
    | WriteHandle(id: nat, data: Buffer)
    | Split(id: nat, len: nat)
    | BeginDrop(id: nat)
    | Freeze(id: nat)
    | Uncount
    | Wipe
    | GiveBack

  /** `size.saturating_mul(4).max(64)`. */
  function OverflowCap(size: nat): nat { Max(Min(size * OVERFLOW_MULTIPLIER, U64_MODULUS - 1), MIN_OVERFLOW_CAP) }

  ghost predicate Enabled(p: Pool, t: nat, a: Action) {
    t < |p.threads| &&
    var th := p.threads[t];
    match a
    case TryRecv(id) => th.Idle? && id !in p.handles
    case LoadCounter => th.WantSlot?
    case CasCounter(wins) => th.SlotLoaded? && (wins ==> p.counter == th.seen)
    case WrapOverflow(id) => th.SlotAcquired? && id !in p.handles
    case TimedRecv(id, got) => th.Waiting? && id !in p.handles && (got ==> p.channel != [])
    case WriteHandle(id, data) => th.Idle? && id in p.handles && |data| == |p.handles[id].data|
    case Split(id, len) => th.Idle? && id in p.handles && len <= |p.handles[id].data|
    case BeginDrop(id) => th.Idle? && id in p.handles
    case Freeze(id) => th.Idle? && id in p.handles
    case Uncount => th.DropStart?
    case Wipe => th.DropCounted?
    case GiveBack => th.DropWiped?
  }

  ghost function Do(p: Pool, t: nat, a: Action): Pool
    requires Enabled(p, t, a)
  {
    var th := p.threads[t];
    match a
    case TryRecv(id) =>
      if p.channel == [] then p.(threads := p.threads[t := WantSlot])
      else p.(channel := p.channel[1..], handles := p.handles[id := Handle(Resized(p.channel[0]), false)])
    case LoadCounter =>
      p.(threads := p.threads[t := if p.counter >= OverflowCap(p.size) then Waiting else SlotLoaded(p.counter)])
    case CasCounter(wins) =>
      if wins then p.(counter := (p.counter + 1) % U64_MODULUS, threads := p.threads[t := SlotAcquired])
      else p.(threads := p.threads[t := WantSlot])
    case WrapOverflow(id) =>
      p.(threads := p.threads[t := Idle], handles := p.handles[id := Handle(Resized(Zeros(MAX_PACKET_SIZE)), true)])
    case TimedRecv(id, got) =>
      var p' := p.(threads := p.threads[t := Idle]);
      if got then p'.(channel := p.channel[1..], handles := p.handles[id := Handle(Resized(p.channel[0]), false)])
      else p'.(handles := p.handles[id := Handle(Resized(Zeros(MAX_PACKET_SIZE)), false)])
    case WriteHandle(id, data) => p.(handles := p.handles[id := p.handles[id].(data := data)])
    case Split(id, len) => p.(handles := p.handles[id := p.handles[id].(data := p.handles[id].data[len..])])
    case BeginDrop(id) =>
      p.(handles := p.handles - {id}, threads := p.threads[t := DropStart(Some(p.handles[id].data), p.handles[id].tagged)])
    case Freeze(id) =>
      p.(handles := p.handles - {id}, threads := p.threads[t := DropStart(None, p.handles[id].tagged)])
    case Uncount =>
      p.(counter := if th.tagged then (p.counter - 1) % U64_MODULUS else p.counter, threads := p.threads[t := DropCounted(th.data)])
    case Wipe =>
      p.(threads := p.threads[t := if th.data.Some? then DropWiped(Zeros(|th.data.value|)) else Idle])
    case GiveBack =>
      p.(channel := if |p.channel| < p.size then p.channel + [th.wiped] else p.channel, threads := p.threads[t := Idle])
  }

  /** A thread that finds the channel empty competes for an overflow slot if and only if fewer than `max(4 * size, 64)` are in use, the product saturating. */
  lemma {:induction false} CompetesExactly(p: Pool, t: nat)
    requires Enabled(p, t, LoadCounter)
    ensures var th := Do(p, t, LoadCounter).threads[t];
      if p.counter < Max(Min(4 * p.size, 0xFFFF_FFFF_FFFF_FFFF), 64) then th == SlotLoaded(p.counter) else th == Waiting
  {
  }

  /** And it comes to wait for a buffer only by finding that many in use: one that loses the compare-exchange tries again. */
  lemma {:induction false} WaitsExactly(p: Pool, t: nat, a: Action)
    requires Enabled(p, t, a) && !p.threads[t].Waiting?
    ensures Do(p, t, a).threads[t].Waiting? <==> a == LoadCounter && p.counter >= Max(Min(4 * p.size, 0xFFFF_FFFF_FFFF_FFFF), 64)
    ensures a == CasCounter(false) ==> Do(p, t, a) == p.(threads := p.threads[t := WantSlot])
  {
  }

  // ---- What is counted ----

  datatype Holder = Live(id: nat) | Worker(t: nat)

  ghost predicate HoldsSlot(th: Thread) { th.SlotAcquired? || (th.DropStart? && th.tagged) }

  /** Everything that holds an overflow slot: tagged handles, acquisitions not yet wrapped, and drops not yet counted. */
  ghost function Holders(p: Pool): set<Holder> {
    (set id | id in p.handles && p.handles[id].tagged :: Live(id))
    + (set t: nat | t < |p.threads| && HoldsSlot(p.threads[t]) :: Worker(t))
  }

  /** A thread only competes for a slot it saw free. */
  ghost predicate SawRoom(p: Pool) {
    forall t :: 0 <= t < |p.threads| && p.threads[t].SlotLoaded? ==> p.threads[t].seen < OverflowCap(p.size)
  }

  /** The counter is the number of slots held. */
  ghost predicate Counted(p: Pool) {
    p.counter == |Holders(p)| <= OverflowCap(p.size) && SawRoom(p)
  }

  ghost predicate AllZero(b: Buffer) { forall i :: 0 <= i < |b| ==> b[i] == 0 }

  ghost predicate Wiped(b: Buffer) { |b| <= MAX_PACKET_SIZE && AllZero(b) }

  ghost predicate WipedThread(th: Thread) {
    match th
    case DropStart(data, _) => data.Some? ==> |data.value| <= MAX_PACKET_SIZE
    case DropCounted(data) => data.Some? ==> |data.value| <= MAX_PACKET_SIZE
    case DropWiped(wiped) => Wiped(wiped)
    case _ => true
  }

  /** The channel is within its bound and holds only wiped buffers. */
  ghost predicate Clean(p: Pool) {
    && |p.channel| <= p.size
    && (forall i :: 0 <= i < |p.channel| ==> Wiped(p.channel[i]))
    && (forall id :: id in p.handles ==> |p.handles[id].data| <= MAX_PACKET_SIZE)
    && (forall t :: 0 <= t < |p.threads| ==> WipedThread(p.threads[t]))
  }

  lemma CapFits(size: nat)
    ensures OverflowCap(size) < U64_MODULUS
  {
  }

  lemma ResizedClean(b: Buffer)
    requires Wiped(b)
    ensures Resized(b) == Zeros(MAX_PACKET_SIZE)
  {
  }

  /** How one step changes a set of holders. */
  datatype Change = Same | Gain(h: Holder) | Lose(h: Holder) | Pass(from: Holder, to: Holder)

  ghost function Changed(x: set<Holder>, c: Change): set<Holder> {
    match c
    case Same => x
    case Gain(h) => x + {h}
    case Lose(h) => x - {h}
    case Pass(from, to) => x - {from} + {to}
  }

  /** Whether `h` is in the changed set, given whether it was in the set. */
  ghost predicate Stays(was: bool, h: Holder, c: Change) {
    match c
    case Same => was
    case Gain(g) => was || h == g
    case Lose(g) => was && h != g
    case Pass(from, to) => (was && h != from) || h == to
  }

  ghost predicate Fits(x: set<Holder>, c: Change) {
    match c
    case Same => true
    case Gain(h) => h !in x
    case Lose(h) => h in x
    case Pass(from, to) => from in x && to !in x
  }

  ghost function Delta(c: Change): int { if c.Gain? then 1 else if c.Lose? then -1 else 0 }

  lemma {:induction false} ChangedSize(x: set<Holder>, c: Change)
    requires Fits(x, c)
    ensures |Changed(x, c)| == |x| + Delta(c)
  {
    if c.Pass? { assert c.to !in x - {c.from}; }
  }

  ghost function HoldersChange(p: Pool, t: nat, a: Action): Change
    requires Enabled(p, t, a)
  {
    match a
    case CasCounter(wins) => if wins then Gain(Worker(t)) else Same
    case WrapOverflow(id) => Pass(Worker(t), Live(id))
    case BeginDrop(id) => if p.handles[id].tagged then Pass(Live(id), Worker(t)) else Same
    case Freeze(id) => if p.handles[id].tagged then Pass(Live(id), Worker(t)) else Same
    case Uncount => if p.threads[t].tagged then Lose(Worker(t)) else Same
    case _ => Same
  }

  /** How a step changes who holds a slot. */
  lemma {:induction false} HoldersStep(p: Pool, t: nat, a: Action)
    requires Enabled(p, t, a)
    ensures Holders(Do(p, t, a)) == Changed(Holders(p), HoldersChange(p, t, a))
  {
    forall h
      ensures h in Holders(Do(p, t, a)) <==> h in Changed(Holders(p), HoldersChange(p, t, a))
    {
      InHolders(Do(p, t, a), h);
      InHolders(p, h);
      HolderAfter(p, t, a, h);
    }
  }

  lemma {:induction false} HolderAfter(p: Pool, t: nat, a: Action, h: Holder)
    requires Enabled(p, t, a)
    ensures IsHolder(Do(p, t, a), h) <==> Stays(IsHolder(p, h), h, HoldersChange(p, t, a))
  {
  }

  ghost predicate IsHolder(p: Pool, h: Holder) {
    match h
    case Live(id) => id in p.handles && p.handles[id].tagged
    case Worker(u) => u < |p.threads| && HoldsSlot(p.threads[u])
  }

  lemma {:induction false} InHolders(p: Pool, h: Holder)
    ensures h in Holders(p) <==> IsHolder(p, h)
  {
    HolderMembers(p);
  }

  lemma {:induction false} HoldersFit(p: Pool, t: nat, a: Action)
    requires Enabled(p, t, a)
    ensures Fits(Holders(p), HoldersChange(p, t, a))
  {
    HolderMembers(p);
  }

  lemma HolderMembers(p: Pool)
    ensures forall id :: Live(id) in Holders(p) <==> id in p.handles && p.handles[id].tagged
    ensures forall u: nat :: Worker(u) in Holders(p) <==> u < |p.threads| && HoldsSlot(p.threads[u])
  {
  }

  /** A winning compare-exchange takes one slot, and counting a tagged drop returns one. */
  ghost function SlotsTaken(p: Pool, t: nat, a: Action): int
    requires Enabled(p, t, a)
  {
    if a == CasCounter(true) then 1 else if a.Uncount? && p.threads[t].tagged then -1 else 0
  }

  /** As many more holders as slots taken: no other step changes their number. */
  lemma {:induction false} HolderCount(p: Pool, t: nat, a: Action)
    requires Enabled(p, t, a)
    ensures |Holders(Do(p, t, a))| == |Holders(p)| + SlotsTaken(p, t, a)
  {
    HoldersStep(p, t, a);
    HoldersFit(p, t, a);
    ChangedSize(Holders(p), HoldersChange(p, t, a));
  }

  /** Every step keeps the overflow counter equal to the slots held and within its cap. */
  lemma {:induction false} StepKeepsCount(p: Pool, t: nat, a: Action)
    requires Enabled(p, t, a) && true == Counted(p)
    ensures true == Counted(Do(p, t, a))
  {
    StepSawRoom(p, t, a);
    StepMovesCount(p, t, a);
    CountFollows(p, Do(p, t, a), SlotsTaken(p, t, a));
  }

  /** Counter and holders change alike, and upwards only below the cap. */
  ghost predicate CountMoves(p: Pool, p': Pool, delta: int) {
    && p'.size == p.size && -1 <= delta <= 1 && (delta == 1 ==> p.counter < OverflowCap(p.size))
    && |Holders(p')| == |Holders(p)| + delta && p'.counter == (p.counter + delta) % U64_MODULUS
  }

  lemma {:induction false} StepMovesCount(p: Pool, t: nat, a: Action)
    requires Enabled(p, t, a) && true == Counted(p)
    ensures true == CountMoves(p, Do(p, t, a), SlotsTaken(p, t, a))
  {
    HolderCount(p, t, a);
    CounterStep(p, t, a);
    RoomToTake(p, t, a);
  }

  /** A slot is taken only by a thread that saw one free. */
  lemma {:induction false} RoomToTake(p: Pool, t: nat, a: Action)
    requires Enabled(p, t, a) && true == Counted(p)
    ensures -1 <= SlotsTaken(p, t, a) <= 1 && (SlotsTaken(p, t, a) == 1 ==> p.counter < OverflowCap(p.size))
  {
  }

  lemma {:induction false} CountFollows(p: Pool, p': Pool, delta: int)
    requires true == Counted(p) && true == SawRoom(p') && true == CountMoves(p, p', delta)
    ensures true == Counted(p')
  {
    CapFits(p.size);
  }

  lemma {:induction false} CounterStep(p: Pool, t: nat, a: Action)
    requires Enabled(p, t, a)
    ensures var p' := Do(p, t, a);
      p'.size == p.size && p'.counter == (p.counter + SlotsTaken(p, t, a)) % U64_MODULUS
  {
  }

  lemma {:induction false} StepSawRoom(p: Pool, t: nat, a: Action)
    requires Enabled(p, t, a) && true == SawRoom(p)
    ensures true == SawRoom(Do(p, t, a))
  {
  }

  /** Every step keeps the channel bounded and what is in it wiped. */
  lemma {:induction false} StepKeepsClean(p: Pool, t: nat, a: Action)
    requires Enabled(p, t, a) && Clean(p)
    ensures Clean(Do(p, t, a))
  {
    match a
    case TryRecv(_) => if p.channel != [] { ResizedClean(p.channel[0]); }
    case TimedRecv(_, got) => if got { ResizedClean(p.channel[0]); }
    case _ =>
  }

  /** Every handle that a step gives out starts as a full buffer of zeros, whatever earlier handles held. */
  lemma {:induction false} NewHandleIsZero(p: Pool, t: nat, a: Action, id: nat)
    requires Enabled(p, t, a) && Clean(p) && id !in p.handles && id in Do(p, t, a).handles
    ensures Do(p, t, a).handles[id].data == Zeros(MAX_PACKET_SIZE)
  {
    match a
    case TryRecv(_) => if p.channel != [] { ResizedClean(p.channel[0]); }
    case TimedRecv(_, got) => ResizedClean(if got then p.channel[0] else Zeros(MAX_PACKET_SIZE));
    case WrapOverflow(_) => ResizedClean(Zeros(MAX_PACKET_SIZE));
    case _ =>
  }

  // ---- Runs ----

  type Schedule = seq<(nat, Action)>

  /** The `i`-th step leads from the `i`-th state to the next. */
  ghost predicate StepAt(trace: seq<Pool>, steps: Schedule, i: nat)
    requires i < |steps| && |trace| == |steps| + 1
  {
    Enabled(trace[i], steps[i].0, steps[i].1) && trace[i + 1] == Do(trace[i], steps[i].0, steps[i].1)
  }

  ghost predicate IsRun(trace: seq<Pool>, steps: Schedule) {
    |trace| == |steps| + 1 && forall i {:trigger StepAt(trace, steps, i)} :: 0 <= i < |steps| ==> StepAt(trace, steps, i)
  }

  /** A new pool: `size` zeroed buffers in a channel of that bound. */
  ghost function Initial(size: nat, threads: nat): Pool {
    Pool(size, 0, seq(size, _ => Zeros(MAX_PACKET_SIZE)), seq(threads, _ => Idle), map[])
  }

  ghost function TaggedHandles(p: Pool): set<nat> { set id | id in p.handles && p.handles[id].tagged }

  lemma {:induction false} InitialInvariants(size: nat, threads: nat)
    ensures Counted(Initial(size, threads)) && Clean(Initial(size, threads))
  {
    HolderMembers(Initial(size, threads));
    assert Holders(Initial(size, threads)) == {};
  }

  lemma {:induction false} RunKeepsInvariants(trace: seq<Pool>, steps: Schedule, size: nat, threads: nat, k: nat)
    requires IsRun(trace, steps) && trace[0] == Initial(size, threads) && k < |trace|
    ensures Counted(trace[k]) && Clean(trace[k]) && trace[k].size == size
  {
    if k == 0 {
      InitialInvariants(size, threads);
    } else {
      RunKeepsInvariants(trace, steps, size, threads, k - 1);
      assert StepAt(trace, steps, k - 1);
      StepKeepsCount(trace[k - 1], steps[k - 1].0, steps[k - 1].1);
      StepKeepsClean(trace[k - 1], steps[k - 1].0, steps[k - 1].1);
    }
  }

  /**
   In every interleaving the counter is the number of overflow slots held, so the
   live overflow handles never exceed the cap, and the channel never exceeds its
   size.
  */
  lemma {:induction false} PoolBounded(trace: seq<Pool>, steps: Schedule, size: nat, threads: nat, k: nat)
    requires IsRun(trace, steps) && trace[0] == Initial(size, threads) && k < |trace|
    ensures trace[k].counter == |Holders(trace[k])|
    ensures |TaggedHandles(trace[k])| <= trace[k].counter <= Max(4 * size, 64)
    ensures |trace[k].channel| <= size
  {
    RunKeepsInvariants(trace, steps, size, threads, k);
    TaggedAreHolders(trace[k]);
  }

  /** In every interleaving each handle starts as 65535 zero bytes, after any writes, splits and freezes of earlier ones. */
  lemma {:induction false} HandlesStartZero(trace: seq<Pool>, steps: Schedule, size: nat, threads: nat, k: nat, id: nat)
    requires IsRun(trace, steps) && trace[0] == Initial(size, threads) && 0 < k < |trace|
    requires id in trace[k].handles && id !in trace[k - 1].handles
    ensures trace[k].handles[id].data == Zeros(65535)
  {
    RunKeepsInvariants(trace, steps, size, threads, k - 1);
    assert StepAt(trace, steps, k - 1);
    NewHandleIsZero(trace[k - 1], steps[k - 1].0, steps[k - 1].1, id);
  }

  lemma {:induction false} TaggedAreHolders(p: Pool)
    ensures |TaggedHandles(p)| <= |Holders(p)|
  {
    HolderMembers(p);
    LiveImage(TaggedHandles(p), Holders(p));
  }

  lemma {:induction false} LiveImage(ids: set<nat>, holders: set<Holder>)
    requires forall id :: id in ids ==> Live(id) in holders
    ensures |ids| <= |holders|
    decreases ids
  {
    if ids != {} {
      var id :| id in ids;
      LiveImage(ids - {id}, holders - {Live(id)});
    }
  }

  // ---- How many buffers there are ----

  /** A buffer on its way back to the channel that holds no overflow slot. */
  ghost predicate CarriesLoose(th: Thread) {
    match th
    case DropStart(data, tagged) => data.Some? && !tagged
    case DropCounted(data) => data.Some?
    case DropWiped(_) => true
    case _ => false
  }

  /** Everything outside the channel that has a buffer and no overflow slot. */
  ghost function Loose(p: Pool): set<Holder> {
    (set id | id in p.handles && !p.handles[id].tagged :: Live(id))
    + (set t: nat | t < |p.threads| && CarriesLoose(p.threads[t]) :: Worker(t))
  }

  lemma LooseMembers(p: Pool)
    ensures forall id :: Live(id) in Loose(p) <==> id in p.handles && !p.handles[id].tagged
    ensures forall u: nat :: Worker(u) in Loose(p) <==> u < |p.threads| && CarriesLoose(p.threads[u])
  {
  }

  ghost function LooseChange(p: Pool, t: nat, a: Action): Change
    requires Enabled(p, t, a)
  {
    match a
    case TryRecv(id) => if p.channel == [] then Same else Gain(Live(id))
    case TimedRecv(id, _) => Gain(Live(id))
    case BeginDrop(id) => if p.handles[id].tagged then Same else Pass(Live(id), Worker(t))
    case Freeze(id) => if p.handles[id].tagged then Same else Lose(Live(id))
    case Uncount => if p.threads[t].tagged && p.threads[t].data.Some? then Gain(Worker(t)) else Same
    case GiveBack => Lose(Worker(t))
    case _ => Same
  }

  lemma {:induction false} LooseStep(p: Pool, t: nat, a: Action)
    requires Enabled(p, t, a)
    ensures Loose(Do(p, t, a)) == Changed(Loose(p), LooseChange(p, t, a))
  {
    forall h
      ensures h in Loose(Do(p, t, a)) <==> h in Changed(Loose(p), LooseChange(p, t, a))
    {
      InLoose(Do(p, t, a), h);
      InLoose(p, h);
      LooseAfter(p, t, a, h);
    }
  }

  lemma {:induction false} LooseAfter(p: Pool, t: nat, a: Action, h: Holder)
    requires Enabled(p, t, a)
    ensures IsLoose(Do(p, t, a), h) <==> Stays(IsLoose(p, h), h, LooseChange(p, t, a))
  {
  }

  ghost predicate IsLoose(p: Pool, h: Holder) {
    match h
    case Live(id) => id in p.handles && !p.handles[id].tagged
    case Worker(u) => u < |p.threads| && CarriesLoose(p.threads[u])
  }

  lemma {:induction false} InLoose(p: Pool, h: Holder)
    ensures h in Loose(p) <==> IsLoose(p, h)
  {
    LooseMembers(p);
  }

  lemma {:induction false} LooseFits(p: Pool, t: nat, a: Action)
    requires Enabled(p, t, a)
    ensures Fits(Loose(p), LooseChange(p, t, a))
  {
    LooseMembers(p);
  }

  /** The steps that add a buffer without an overflow slot: a timed receive that gave up, and a dropped overflow buffer. */
  ghost predicate AddsBuffer(p: Pool, t: nat, a: Action)
    requires t < |p.threads|
  {
    || (a.TimedRecv? && !a.got)
    || (a.Uncount? && p.threads[t].DropStart? && p.threads[t].tagged && p.threads[t].data.Some?)
  }

  /** The steps that take one away: a freeze, and a drop that finds the channel full. */
  ghost predicate RemovesBuffer(p: Pool, t: nat, a: Action) {
    (a.Freeze? && a.id in p.handles && !p.handles[a.id].tagged) || (a.GiveBack? && |p.channel| >= p.size)
  }

  lemma {:induction false} BufferCount(p: Pool, t: nat, a: Action)
    requires Enabled(p, t, a)
    ensures var p' := Do(p, t, a);
      |p'.channel| + |Loose(p')| == |p.channel| + |Loose(p)|
        + (if AddsBuffer(p, t, a) then 1 else 0) - (if RemovesBuffer(p, t, a) then 1 else 0)
  {
    LooseStep(p, t, a);
    LooseFits(p, t, a);
    ChangedSize(Loose(p), LooseChange(p, t, a));
    ChannelCount(p, t, a);
  }

  /** What leaves the channel is one more loose buffer, and what enters it one less, unless the step adds or removes one. */
  lemma {:induction false} ChannelCount(p: Pool, t: nat, a: Action)
    requires Enabled(p, t, a)
    ensures |Do(p, t, a).channel| + Delta(LooseChange(p, t, a))
         == |p.channel| + (if AddsBuffer(p, t, a) then 1 else 0) - (if RemovesBuffer(p, t, a) then 1 else 0)
  {
  }

  ghost function Added(trace: seq<Pool>, steps: Schedule, k: nat): nat
    requires IsRun(trace, steps) && k <= |steps|
  {
    if k == 0 then 0
    else
      assert StepAt(trace, steps, k - 1);
      Added(trace, steps, k - 1) + if AddsBuffer(trace[k - 1], steps[k - 1].0, steps[k - 1].1) then 1 else 0
  }

  lemma {:induction false} BuffersBounded(trace: seq<Pool>, steps: Schedule, size: nat, threads: nat, k: nat)
    requires IsRun(trace, steps) && trace[0] == Initial(size, threads) && k < |trace|
    ensures |trace[k].channel| + |Loose(trace[k])| <= size + Added(trace, steps, k)
  {
    if k == 0 {
      LooseMembers(trace[0]);
      assert Loose(trace[0]) == {};
    } else {
      BuffersBounded(trace, steps, size, threads, k - 1);
      assert StepAt(trace, steps, k - 1);
      BufferCount(trace[k - 1], steps[k - 1].0, steps[k - 1].1);
    }
  }

  /**
   What the cap on overflow allocations bounds: the live handles are at most the pool's size, the cap, and one for
   each timed receive that gave up and each overflow buffer that was dropped. A run without those stays within
   size and cap.
  */
  lemma {:induction false} LiveBounded(trace: seq<Pool>, steps: Schedule, size: nat, threads: nat, k: nat)
    requires IsRun(trace, steps) && trace[0] == Initial(size, threads) && k < |trace|
    ensures |trace[k].handles| <= size + Max(4 * size, 64) + Added(trace, steps, k)
  {
    PoolBounded(trace, steps, size, threads, k);
    BuffersBounded(trace, steps, size, threads, k);
    HandlesAreHeld(trace[k]);
  }

  lemma {:induction false} HandlesAreHeld(p: Pool)
    ensures |p.handles| <= |Loose(p)| + |Holders(p)|
  {
    LooseMembers(p);
    HolderMembers(p);
    LiveImage(p.handles.Keys, Loose(p) + Holders(p));
    assert |p.handles| == |p.handles.Keys|;
    UnionSize(Loose(p), Holders(p));
  }

  lemma {:induction false} UnionSize(a: set<Holder>, b: set<Holder>)
    ensures |a + b| <= |a| + |b|
  {
    assert |a + b| == |a| + |b| - |a * b|;
  }

  // ---- The cap does not bound the live buffers ----

  ghost predicate CalmRun(trace: seq<Pool>, steps: Schedule, size: nat, p: Pool) {
    && IsRun(trace, steps) && trace[0] == Initial(size, 1) && trace[|steps|] == p
    && forall i :: 0 <= i < |steps| ==> !steps[i].1.TimedRecv? && trace[i + 1].counter <= 1
  }

  /** Reached by one thread without a timed receive, and with never more than one overflow slot in use. */
  ghost predicate Calm(size: nat, p: Pool) { exists trace, steps :: CalmRun(trace, steps, size, p) }

  lemma {:induction false} CalmStep(size: nat, p: Pool, a: Action, p': Pool)
    requires Calm(size, p) && Enabled(p, 0, a) && Do(p, 0, a) == p' && !a.TimedRecv? && p'.counter <= 1
    ensures Calm(size, p')
  {
    var trace, steps :| CalmRun(trace, steps, size, p);
    var longer, more: Schedule := trace + [p'], steps + [(0, a)];
    forall i | 0 <= i < |more|
      ensures StepAt(longer, more, i)
    {
      if i < |steps| { assert StepAt(trace, steps, i); }
    }
    assert CalmRun(longer, more, size, p');
  }

  /** `n` live handles, nothing in the channel, and no slot in use. */
  ghost predicate AllOut(p: Pool, size: nat, n: nat) {
    && p.size == size && p.counter == 0 && p.channel == [] && p.threads == [Idle]
    && |p.handles| == n && forall id :: id in p.handles ==> id < n
  }

  /** Takes what is in the channel. */
  lemma {:induction false} TakeAll(size: nat, k: nat) returns (p: Pool)
    requires k <= size
    ensures Calm(size, p) && p == Initial(size, 1).(channel := p.channel, handles := p.handles)
    ensures |p.channel| == size - k && |p.handles| == k && forall id :: id in p.handles ==> id < k
  {
    if k == 0 {
      p := Initial(size, 1);
      assert CalmRun([p], [], size, p);
    } else {
      var before := TakeAll(size, k - 1);
      p := Do(before, 0, TryRecv(k - 1));
      CalmStep(size, before, TryRecv(k - 1), p);
      assert p.handles.Keys == before.handles.Keys + {k - 1};
    }
  }

  /** An overflow buffer is taken. */
  lemma {:induction false} TakeOverflow(size: nat, p: Pool, n: nat) returns (p': Pool)
    requires Calm(size, p) && AllOut(p, size, n)
    ensures Calm(size, p') && p' == p.(counter := 1, handles := p.handles[n := Handle(Resized(Zeros(MAX_PACKET_SIZE)), true)])
  {
    CapFits(size);
    var p1 := p.(threads := [WantSlot]);
    CalmStep(size, p, TryRecv(n), p1);
    var p2 := p.(threads := [SlotLoaded(0)]);
    CalmStep(size, p1, LoadCounter, p2);
    var p3 := p.(counter := 1, threads := [SlotAcquired]);
    CalmStep(size, p2, CasCounter(true), p3);
    p' := p.(counter := 1, handles := p.handles[n := Handle(Resized(Zeros(MAX_PACKET_SIZE)), true)]);
    CalmStep(size, p3, WrapOverflow(n), p');
  }

  /** It is dropped, and goes into the channel. */
  lemma {:induction false} DropOverflow(size: nat, p: Pool, n: nat, data: Buffer) returns (p': Pool)
    requires size > 0 && Calm(size, p.(counter := 1, handles := p.handles[n := Handle(data, true)])) && AllOut(p, size, n)
    ensures Calm(size, p') && p' == p.(channel := [Zeros(|data|)])
  {
    var p4 := p.(counter := 1, handles := p.handles[n := Handle(data, true)]);
    var p5 := p.(counter := 1, threads := [DropStart(Some(data), true)]);
    assert p4.handles - {n} == p.handles;
    CalmStep(size, p4, BeginDrop(n), p5);
    var p6 := p.(threads := [DropCounted(Some(data))]);
    CalmStep(size, p5, Uncount, p6);
    var p7 := p.(threads := [DropWiped(Zeros(|data|))]);
    CalmStep(size, p6, Wipe, p7);
    p' := p.(channel := [Zeros(|data|)]);
    CalmStep(size, p7, GiveBack, p');
  }

  /** Taken from there, it is one more live handle, with no slot in use. */
  lemma {:induction false} OneMoreLive(size: nat, p: Pool, n: nat) returns (p': Pool)
    requires size > 0 && Calm(size, p) && AllOut(p, size, n)
    ensures Calm(size, p') && AllOut(p', size, n + 1)
  {
    var data := Resized(Zeros(MAX_PACKET_SIZE));
    var p4 := TakeOverflow(size, p, n);
    var p8 := DropOverflow(size, p, n, data);
    p' := p.(handles := p.handles[n := Handle(Resized(Zeros(|data|)), false)]);
    CalmStep(size, p8, TryRecv(n), p');
    assert p'.handles.Keys == p.handles.Keys + {n};
  }

  /** Without any timed receive, and with never more than one overflow slot in use, any number of handles can be live. */
  lemma {:induction false} LiveUnbounded(size: nat, n: nat) returns (p: Pool)
    requires 0 < size <= n
    ensures Calm(size, p) && |p.handles| == n && p.counter == 0
    ensures AllOut(p, size, n)
  {
    if n == size {
      p := TakeAll(size, size);
      assert p.channel == [];
      assert p.threads == [Idle];
    } else {
      var before := LiveUnbounded(size, n - 1);
      p := OneMoreLive(size, before, n - 1);
    }
  }
}
