/**
The lock-free free stack under interleaving. Every load, compare-exchange and
slot access of `alloc` and `free` is one atomic step of one thread, and threads
interleave freely. Between its successful compare-exchange and its slot access a
thread has a window open on that slot, and several threads may have windows open
on one slot. `full` and `lines` only record what has happened: which slots were
written and not read since, and in which order the windows on a slot were opened.
No step depends on either.
*/
module FrameStack {
  import opened Machine

  datatype Thread =
    | Idle
    /** in `alloc`, having read a non-zero `stack_top` */
    | AllocLoaded(seen: nat)
    /** in `alloc`, having moved the top below `cell`, which it has not read */
    | AllocClaimed(cell: nat)
    /** in `free`, about to read `stack_top` */
    | FreeStart(frame: nat)
    | FreeLoaded(frame: nat, seen: nat)
    /** in `free`, having moved the top above `cell`, which it has not written */
    | FreeClaimed(frame: nat, cell: nat)

  datatype Stack = Stack(
    cells: seq<nat>,
    top: nat,
    threads: seq<Thread>,
    /** frames returned by `alloc` and not yet passed to `free` */
    held: multiset<nat>,
    /** the slots whose content has not been read since it was written */
    full: set<nat>,
    /** for each slot, the threads with a window open on it, in the order they claimed it */
    lines: seq<seq<nat>>)

  datatype Action =
    | LoadForAlloc
    | PopCas(wins: bool)
    | ReadCell
    | CallFree(frame: nat)
    | LoadForFree
    | PushCas(wins: bool)
    | WriteCell

  ghost predicate HasWindow(th: Thread) { th.AllocClaimed? || th.FreeClaimed? }

  ghost predicate Enabled(s: Stack, t: nat, a: Action) {
    t < |s.threads| &&
    match a
    case LoadForAlloc => s.threads[t].Idle?
    case PopCas(wins) => s.threads[t].AllocLoaded? && (wins ==> s.top == s.threads[t].seen > 0)
    case ReadCell => s.threads[t].AllocClaimed? && s.threads[t].cell < |s.cells|
    case CallFree(frame) => s.threads[t].Idle? && frame in s.held
    case LoadForFree => s.threads[t].FreeStart?
    case PushCas(wins) => s.threads[t].FreeLoaded? && (wins ==> s.top == s.threads[t].seen)
    case WriteCell => s.threads[t].FreeClaimed? && s.threads[t].cell < |s.cells|
  }

  ghost function Without(line: seq<nat>, t: nat): seq<nat> {
    if line == [] then [] else if line[0] == t then line[1..] else [line[0]] + Without(line[1..], t)
  }

  ghost function Joined(lines: seq<seq<nat>>, c: nat, t: nat): seq<seq<nat>> {
    if c < |lines| then lines[c := lines[c] + [t]] else lines
  }

  ghost function Left(lines: seq<seq<nat>>, c: nat, t: nat): seq<seq<nat>> {
    if c < |lines| then lines[c := Without(lines[c], t)] else lines
  }

  /** One atomic step of thread `t`. A failed compare-exchange, spurious or not, loads again. */
  ghost function Do(s: Stack, t: nat, a: Action): Stack
    requires Enabled(s, t, a)
  {
    var th := s.threads[t];
    match a
    case LoadForAlloc => if s.top == 0 then s else s.(threads := s.threads[t := AllocLoaded(s.top)])
    case PopCas(wins) =>
      if wins then s.(top := s.top - 1, threads := s.threads[t := AllocClaimed(s.top - 1)], lines := Joined(s.lines, s.top - 1, t))
      else s.(threads := s.threads[t := Idle])
    case ReadCell =>
      s.(held := s.held + multiset{s.cells[th.cell]}, threads := s.threads[t := Idle],
         full := s.full - {th.cell}, lines := Left(s.lines, th.cell, t))
    case CallFree(frame) => s.(held := s.held - multiset{frame}, threads := s.threads[t := FreeStart(frame)])
    case LoadForFree => s.(threads := s.threads[t := FreeLoaded(th.frame, s.top)])
    case PushCas(wins) =>
      if wins then s.(top := s.top + 1, threads := s.threads[t := FreeClaimed(th.frame, s.top)], lines := Joined(s.lines, s.top, t))
      else s.(threads := s.threads[t := FreeStart(th.frame)])
    case WriteCell =>
      s.(cells := s.cells[th.cell := th.frame], threads := s.threads[t := Idle],
         full := s.full + {th.cell}, lines := Left(s.lines, th.cell, t))
  }

  /** A read finds its slot full, and a write finds it empty. */
  ghost predicate Alternates(s: Stack, t: nat, a: Action)
    requires Enabled(s, t, a)
  {
    && (a.ReadCell? ==> s.threads[t].cell in s.full)
    && (a.WriteCell? ==> s.threads[t].cell !in s.full)
  }

  /** A frame is in a full slot, in a call of `free` that has not written it yet, or out. */
  datatype Place = InCell(i: nat) | Pushing(t: nat) | Out(frame: nat)

  /** The frame in a place, if the place is occupied. */
  ghost function Content(s: Stack, p: Place): Option<nat> {
    match p
    case InCell(i) => if i in s.full && i < |s.cells| then Some(s.cells[i]) else None
    case Pushing(t) =>
      if t < |s.threads| && (s.threads[t].FreeStart? || s.threads[t].FreeLoaded? || s.threads[t].FreeClaimed?)
      then Some(s.threads[t].frame) else None
    case Out(frame) => if frame in s.held then Some(frame) else None
  }

  /** Each frame of `place` is in exactly one place: `place` and `Content` are inverse. */
  ghost predicate Partition(s: Stack, place: map<nat, Place>) {
    && (forall f :: f in place ==> Content(s, place[f]) == Some(f))
    && (forall p :: Content(s, p).Some? ==> Content(s, p).value in place && place[Content(s, p).value] == p)
    && (forall f :: s.held[f] <= 1)
  }

  /** Every frame is in exactly one place, and nothing else is anywhere. */
  ghost predicate Whole(s: Stack, frames: set<nat>) { exists place :: Partition(s, place) && place.Keys == frames }

  ghost function PopsOn(s: Stack, c: nat): set<nat> {
    set t: nat | t < |s.threads| && s.threads[t] == AllocClaimed(c)
  }

  ghost function PushesOn(s: Stack, c: nat): set<nat> {
    set t: nat | t < |s.threads| && s.threads[t].FreeClaimed? && s.threads[t].cell == c
  }

  ghost function Bit(b: bool): nat { if b then 1 else 0 }

  /** The windows open on a slot account for the difference between what the top and what the slot says. */
  ghost predicate Balance(s: Stack, c: nat) {
    Bit(c < s.top) + |PopsOn(s, c)| == Bit(c in s.full) + |PushesOn(s, c)|
  }

  ghost predicate Slots(s: Stack) {
    && s.top <= |s.cells|
    && (forall t :: 0 <= t < |s.threads| && HasWindow(s.threads[t]) ==> s.threads[t].cell < |s.cells|)
    && (forall c :: 0 <= c < |s.cells| ==> Balance(s, c))
  }

  ghost predicate Inv(s: Stack, frames: set<nat>, place: map<nat, Place>) {
    && Slots(s)
    && Partition(s, place)
    && place.Keys == frames
    && |s.cells| == |frames|
    && (forall i :: 0 <= i < |s.cells| ==> s.cells[i] in frames)
  }

  // ---- One step ----

  ghost predicate SameElsewhere(s: Stack, s': Stack, from: Place, to: Place) {
    forall p :: p != from && p != to ==> Content(s', p) == Content(s, p)
  }

  /** Moving one frame between two places keeps the partition. */
  lemma {:induction false} Relocate(s: Stack, s': Stack, place: map<nat, Place>, f: nat, from: Place, to: Place)
    requires Partition(s, place) && SameElsewhere(s, s', from, to)
    requires Content(s, from) == Some(f) && Content(s', from) == None
    requires Content(s, to) == None && Content(s', to) == Some(f)
    requires forall g :: s'.held[g] <= 1
    ensures Partition(s', place[f := to]) && place[f := to].Keys == place.Keys
  {
    forall p | Content(s', p).Some?
      ensures Content(s', p).value in place && place[f := to][Content(s', p).value] == p
    {
      if p != to {
        assert Content(s, p) == Content(s', p);
        assert Content(s, from).value == f;
      }
    }
  }

  /** What thread `t` does to the windows on slot `c`. */
  lemma {:induction false} WindowsAfter(s: Stack, s': Stack, t: nat, c: nat)
    requires t < |s.threads| == |s'.threads|
    requires forall u :: 0 <= u < |s.threads| && u != t ==> s'.threads[u] == s.threads[u]
    ensures |PopsOn(s', c)| == |PopsOn(s, c)| - Bit(s.threads[t] == AllocClaimed(c)) + Bit(s'.threads[t] == AllocClaimed(c))
    ensures |PushesOn(s', c)| == |PushesOn(s, c)| - Bit(t in PushesOn(s, c)) + Bit(t in PushesOn(s', c))
  {
    assert PopsOn(s', c) - {t} == PopsOn(s, c) - {t};
    assert PushesOn(s', c) - {t} == PushesOn(s, c) - {t};
    SameBut(PopsOn(s, c), PopsOn(s', c), t);
    SameBut(PushesOn(s, c), PushesOn(s', c), t);
  }

  lemma {:induction false} SameBut(x: set<nat>, y: set<nat>, t: nat)
    requires x - {t} == y - {t}
    ensures |y| == |x| - Bit(t in x) + Bit(t in y)
  {
    assert t in x ==> x == (x - {t}) + {t};
    assert t in y ==> y == (y - {t}) + {t};
    assert t !in x ==> x == x - {t};
    assert t !in y ==> y == y - {t};
  }

  lemma {:induction false} StepKeepsSlots(s: Stack, t: nat, a: Action)
    requires Enabled(s, t, a) && Slots(s) && Alternates(s, t, a) && (a == PushCas(true) ==> s.top < |s.cells|)
    ensures Slots(Do(s, t, a))
  {
    var s' := Do(s, t, a);
    forall c | 0 <= c < |s'.cells|
      ensures Balance(s', c)
    {
      WindowsAfter(s, s', t, c);
      assert Balance(s, c);
    }
  }

  /** A step that moves no frame: a load, or a compare-exchange, won or lost. */
  lemma {:induction false} QuietKeepsPartition(s: Stack, t: nat, a: Action, place: map<nat, Place>)
    requires Enabled(s, t, a) && Partition(s, place) && (a.LoadForAlloc? || a.LoadForFree? || a.PopCas? || a.PushCas?)
    ensures Partition(Do(s, t, a), place)
  {
    forall p
      ensures Content(Do(s, t, a), p) == Content(s, p)
    {
    }
  }

  lemma {:induction false} ReadKeepsPartition(s: Stack, t: nat, place: map<nat, Place>)
    requires Enabled(s, t, ReadCell) && Partition(s, place) && Alternates(s, t, ReadCell)
    ensures var f := s.cells[s.threads[t].cell];
      Partition(Do(s, t, ReadCell), place[f := Out(f)]) && place[f := Out(f)].Keys == place.Keys
  {
    var s' := Do(s, t, ReadCell);
    var c := s.threads[t].cell;
    var f := s.cells[c];
    assert Content(s, InCell(c)) == Some(f);
    assert f in s.held ==> Content(s, Out(f)) == Some(f);
    forall p | p != InCell(c) && p != Out(f)
      ensures Content(s', p) == Content(s, p)
    {
    }
    Relocate(s, s', place, f, InCell(c), Out(f));
  }

  lemma {:induction false} CallFreeKeepsPartition(s: Stack, t: nat, f: nat, place: map<nat, Place>)
    requires Enabled(s, t, CallFree(f)) && Partition(s, place)
    ensures Partition(Do(s, t, CallFree(f)), place[f := Pushing(t)]) && place[f := Pushing(t)].Keys == place.Keys
  {
    var s' := Do(s, t, CallFree(f));
    assert Content(s, Out(f)) == Some(f);
    forall p | p != Out(f) && p != Pushing(t)
      ensures Content(s', p) == Content(s, p)
    {
    }
    Relocate(s, s', place, f, Out(f), Pushing(t));
  }

  lemma {:induction false} WriteKeepsPartition(s: Stack, t: nat, place: map<nat, Place>)
    requires Enabled(s, t, WriteCell) && Partition(s, place) && Alternates(s, t, WriteCell)
    ensures var f, c := s.threads[t].frame, s.threads[t].cell;
      f in place && Partition(Do(s, t, WriteCell), place[f := InCell(c)]) && place[f := InCell(c)].Keys == place.Keys
  {
    var s' := Do(s, t, WriteCell);
    var f, c := s.threads[t].frame, s.threads[t].cell;
    assert Content(s, Pushing(t)) == Some(f);
    forall p | p != Pushing(t) && p != InCell(c)
      ensures Content(s', p) == Content(s, p)
    {
    }
    Relocate(s, s', place, f, Pushing(t), InCell(c));
  }

  lemma {:induction false} DistinctSeqBound(q: seq<nat>, frames: set<nat>)
    requires forall i :: 0 <= i < |q| ==> q[i] in frames
    requires forall i, j :: 0 <= i < j < |q| ==> q[i] != q[j]
    ensures |q| <= |frames|
  {
    if q != [] {
      var last := q[|q| - 1];
      DistinctSeqBound(q[..|q| - 1], frames - {last});
    }
  }

  /** The place of a frame that is in slot `i` or bound for it. */
  ghost function Resident(s: Stack, i: nat): Place {
    if i in s.full || PushesOn(s, i) == {} then InCell(i) else var u :| u in PushesOn(s, i); Pushing(u)
  }

  lemma {:induction false} ResidentOccupied(s: Stack, i: nat)
    requires Slots(s) && i < s.top
    ensures Content(s, Resident(s, i)).Some?
    ensures Resident(s, i) == InCell(i) || (Resident(s, i).Pushing? && Resident(s, i).t in PushesOn(s, i))
  {
    assert Balance(s, i);
    if i !in s.full { assert PushesOn(s, i) != {}; }
  }

  /** A thread about to push a frame always finds a slot: the source's `top < num_frames` assertion holds. */
  lemma {:induction false} RoomForPush(s: Stack, t: nat, frames: set<nat>, place: map<nat, Place>)
    requires Inv(s, frames, place) && t < |s.threads| && s.threads[t].FreeLoaded?
    ensures s.top < |s.cells|
  {
    var mine := Pushing(t);
    assert Content(s, mine) == Some(s.threads[t].frame);
    forall i: nat | i < s.top
      ensures Content(s, Resident(s, i)).Some? && Resident(s, i) != mine
    {
      ResidentOccupied(s, i);
    }
    forall i: nat, j: nat | i < j < s.top
      ensures Resident(s, i) != Resident(s, j)
    {
      ResidentOccupied(s, i);
      ResidentOccupied(s, j);
    }
    var below := seq(s.top, i requires 0 <= i < s.top => Content(s, Resident(s, i)).value);
    DistinctSeqBound(below + [s.threads[t].frame], frames);
  }

  /** Every step that alternates keeps each frame in exactly one place. */
  lemma {:induction false} StepKeepsInv(s: Stack, t: nat, a: Action, frames: set<nat>, place: map<nat, Place>) returns (place': map<nat, Place>)
    requires Enabled(s, t, a) && Inv(s, frames, place) && Alternates(s, t, a)
    ensures Inv(Do(s, t, a), frames, place')
  {
    if a == PushCas(true) { RoomForPush(s, t, frames, place); }
    StepKeepsSlots(s, t, a);
    match a
    case ReadCell =>
      ReadKeepsPartition(s, t, place);
      place' := place[s.cells[s.threads[t].cell] := Out(s.cells[s.threads[t].cell])];
    case CallFree(f) =>
      CallFreeKeepsPartition(s, t, f, place);
      place' := place[f := Pushing(t)];
    case WriteCell =>
      WriteKeepsPartition(s, t, place);
      place' := place[s.threads[t].frame := InCell(s.threads[t].cell)];
    case _ =>
      QuietKeepsPartition(s, t, a, place);
      place' := place;
  }

  // ---- A slot access that does not alternate ----

  /** A read of an empty slot gives out a frame that is somewhere else as well. */
  lemma {:induction false} EmptyReadDuplicates(s: Stack, t: nat, frames: set<nat>, place: map<nat, Place>)
    requires Enabled(s, t, ReadCell) && Inv(s, frames, place) && !Alternates(s, t, ReadCell)
    ensures !Whole(Do(s, t, ReadCell), frames)
    ensures var f := s.cells[s.threads[t].cell]; var s' := Do(s, t, ReadCell);
      s'.held[f] >= 2 || exists p :: p != Out(f) && Content(s', p) == Some(f) && Content(s', Out(f)) == Some(f)
  {
    var s' := Do(s, t, ReadCell);
    var f := s.cells[s.threads[t].cell];
    var p := place[f];
    assert Content(s, p) == Some(f);
    if p.Out? {
      assert s'.held[f] >= 2;
    } else {
      assert Content(s', p) == Some(f) && Content(s', Out(f)) == Some(f);
    }
  }

  /** A write on a full slot loses the frame in it. */
  lemma {:induction false} FullWriteLoses(s: Stack, t: nat, frames: set<nat>, place: map<nat, Place>)
    requires Enabled(s, t, WriteCell) && Inv(s, frames, place) && !Alternates(s, t, WriteCell)
    ensures !Whole(Do(s, t, WriteCell), frames)
    ensures var f := s.cells[s.threads[t].cell]; f in frames && forall p :: Content(Do(s, t, WriteCell), p) != Some(f)
  {
    var s' := Do(s, t, WriteCell);
    var c := s.threads[t].cell;
    assert Content(s, InCell(c)) == Some(s.cells[c]) && Content(s, Pushing(t)) == Some(s.threads[t].frame);
    forall p
      ensures Content(s', p) != Some(s.cells[c])
    {
      if p != Pushing(t) && p != InCell(c) {
        assert Content(s', p) == Content(s, p);
      }
    }
  }

  /** A step keeps every frame in exactly one place if and only if it alternates. */
  lemma {:induction false} StepSafeExactly(s: Stack, t: nat, a: Action, frames: set<nat>, place: map<nat, Place>)
    requires Enabled(s, t, a) && Inv(s, frames, place)
    ensures Whole(Do(s, t, a), frames) <==> Alternates(s, t, a)
  {
    if Alternates(s, t, a) {
      var place' := StepKeepsInv(s, t, a, frames, place);
      assert Partition(Do(s, t, a), place') && place'.Keys == frames;
    } else if a.ReadCell? {
      EmptyReadDuplicates(s, t, frames, place);
    } else {
      FullWriteLoses(s, t, frames, place);
    }
  }

  /** The slot access that closes the window a winning compare-exchange opens. */
  ghost function Closing(a: Action): Action {
    if a.PopCas? then ReadCell else WriteCell
  }

  /**
   Closing a window as soon as it is opened keeps each frame in one place if and only if, before the compare-exchange
   that opened it, as many pops as pushes were open on its slot.
  */
  lemma {:induction false} WindowSafeExactly(s: Stack, t: nat, a: Action, frames: set<nat>, place: map<nat, Place>)
    requires Enabled(s, t, a) && Inv(s, frames, place) && (a == PopCas(true) || a == PushCas(true))
    ensures var c := if a.PopCas? then s.top - 1 else s.top; var s' := Do(s, t, a);
      && Enabled(s', t, Closing(a))
      && (Whole(Do(s', t, Closing(a)), frames) <==> |PopsOn(s, c)| == |PushesOn(s, c)|)
  {
    if a.PushCas? { RoomForPush(s, t, frames, place); }
    ClosingAlternates(s, t, a);
    var place' := StepKeepsInv(s, t, a, frames, place);
    StepSafeExactly(Do(s, t, a), t, Closing(a), frames, place');
  }

  lemma {:induction false} ClosingAlternates(s: Stack, t: nat, a: Action)
    requires Enabled(s, t, a) && Slots(s) && (a == PopCas(true) || (a == PushCas(true) && s.top < |s.cells|))
    ensures var c := if a.PopCas? then s.top - 1 else s.top; var s' := Do(s, t, a);
      Enabled(s', t, Closing(a)) && (Alternates(s', t, Closing(a)) <==> |PopsOn(s, c)| == |PushesOn(s, c)|)
  {
    assert Balance(s, if a.PopCas? then s.top - 1 else s.top);
  }

  // ---- Whole runs ----

  type Schedule = seq<(nat, Action)>

  /** The `i`-th step leads from the `i`-th state to the next. */
  ghost predicate StepAt(trace: seq<Stack>, steps: Schedule, i: nat)
    requires i < |steps| && |trace| == |steps| + 1
  {
    Enabled(trace[i], steps[i].0, steps[i].1) && trace[i + 1] == Do(trace[i], steps[i].0, steps[i].1)
  }

  ghost predicate IsRun(trace: seq<Stack>, steps: Schedule) {
    |trace| == |steps| + 1 && forall i {:trigger StepAt(trace, steps, i)} :: 0 <= i < |steps| ==> StepAt(trace, steps, i)
  }

  ghost predicate AlternatesAt(trace: seq<Stack>, steps: Schedule, i: nat)
    requires i < |steps| && |trace| == |steps| + 1
  {
    StepAt(trace, steps, i) && Alternates(trace[i], steps[i].0, steps[i].1)
  }

  /** The first `k` steps alternate. */
  ghost predicate Alternating(trace: seq<Stack>, steps: Schedule, k: nat)
    requires k <= |steps| && |trace| == |steps| + 1
  {
    forall i {:trigger AlternatesAt(trace, steps, i)} :: 0 <= i < k ==> AlternatesAt(trace, steps, i)
  }

  ghost function Addresses(frameSize: nat, n: nat): seq<nat> { seq(n, i requires 0 <= i => i * frameSize) }

  ghost function FrameSet(frameSize: nat, n: nat): set<nat> { SetOf(Addresses(frameSize, n)) }

  ghost function Below(n: nat): (r: set<nat>)
    ensures forall c: nat :: c in r <==> c < n
  {
    if n == 0 then {} else Below(n - 1) + {n - 1}
  }

  ghost function Initial(frameSize: nat, n: nat, threads: nat): Stack {
    Stack(Addresses(frameSize, n), n, seq(threads, _ => Idle), multiset{}, Below(n), seq(n, _ => []))
  }

  lemma {:induction false} AddressesDistinct(frameSize: nat, n: nat, i: nat, j: nat)
    requires frameSize > 0 && i < j < n
    ensures Addresses(frameSize, n)[i] < Addresses(frameSize, n)[j]
  {
    MultiplyMonotone(i + 1, j, frameSize);
    assert (i + 1) * frameSize == i * frameSize + frameSize;
  }

  ghost function SetOf(q: seq<nat>): set<nat> { set f: nat | f in q }

  lemma {:induction false} DistinctSeqSize(q: seq<nat>)
    requires forall i, j :: 0 <= i < j < |q| ==> q[i] != q[j]
    ensures |SetOf(q)| == |q|
  {
    if q != [] {
      var init, last := q[..|q| - 1], q[|q| - 1];
      DistinctSeqSize(init);
      assert last !in init;
      assert SetOf(q) == SetOf(init) + {last};
    } else {
      assert SetOf(q) == {};
    }
  }

  /** A stack of distinct frames that no thread is using satisfies the invariant. */
  lemma {:induction false} FreshInv(s: Stack) returns (place: map<nat, Place>)
    requires Untouched(s) && forall i, j :: 0 <= i < j < |s.cells| ==> s.cells[i] != s.cells[j]
    ensures Inv(s, SetOf(s.cells), place)
  {
    DistinctSeqSize(s.cells);
    place := map f | f in s.cells :: var i: nat :| i < |s.cells| && s.cells[i] == f; InCell(i);
    UntouchedContent(s);
    forall c: nat | c < |s.cells|
      ensures Balance(s, c)
    {
      NoWindows(s, c);
    }
  }

  ghost predicate Untouched(s: Stack) {
    s.top == |s.cells| && Quiescent(s) && s.held == multiset{} && s.full == Below(|s.cells|)
  }

  lemma {:induction false} UntouchedContent(s: Stack)
    requires Untouched(s)
    ensures forall p :: Content(s, p).Some? ==> p.InCell? && p.i < |s.cells| && Content(s, p).value == s.cells[p.i]
    ensures forall i: nat :: i < |s.cells| ==> Content(s, InCell(i)) == Some(s.cells[i])
  {
  }

  lemma {:induction false} NoWindows(s: Stack, c: nat)
    requires Quiescent(s)
    ensures PopsOn(s, c) == {} && PushesOn(s, c) == {}
  {
  }

  lemma {:induction false} InitialInv(frameSize: nat, n: nat, threads: nat) returns (place: map<nat, Place>)
    requires frameSize > 0
    ensures Inv(Initial(frameSize, n, threads), FrameSet(frameSize, n), place)
  {
    forall i, j | 0 <= i < j < n
      ensures Addresses(frameSize, n)[i] != Addresses(frameSize, n)[j]
    {
      AddressesDistinct(frameSize, n, i, j);
    }
    place := FreshInv(Initial(frameSize, n, threads));
  }

  /** From a state with each frame in one place, a run that alternates keeps it so. */
  lemma {:induction false} RunKeepsInvFrom(trace: seq<Stack>, steps: Schedule, frames: set<nat>, place: map<nat, Place>, k: nat)
    returns (place': map<nat, Place>)
    requires IsRun(trace, steps) && true == Inv(trace[0], frames, place) && k <= |steps| && Alternating(trace, steps, k)
    ensures true == Inv(trace[k], frames, place')
  {
    if k == 0 {
      place' := place;
    } else {
      place' := RunKeepsInvFrom(trace, steps, frames, place, k - 1);
      assert AlternatesAt(trace, steps, k - 1);
      place' := StepKeepsInv(trace[k - 1], steps[k - 1].0, steps[k - 1].1, frames, place');
    }
  }

  /**
   Exactly when `alloc` and `free` may be used at once. In a run from creation, every frame is in exactly one
   place at every moment if and only if every read finds its slot full and every write finds it empty.
  */
  lemma {:induction false} RunSafeExactly(trace: seq<Stack>, steps: Schedule, frameSize: nat, n: nat, threads: nat)
    requires frameSize > 0 && IsRun(trace, steps) && trace[0] == Initial(frameSize, n, threads)
    ensures (forall k :: 0 <= k < |trace| ==> Whole(trace[k], FrameSet(frameSize, n))) <==> Alternating(trace, steps, |steps|)
  {
    var frames := FrameSet(frameSize, n);
    var place := InitialInv(frameSize, n, threads);
    if Alternating(trace, steps, |steps|) {
      forall k | 0 <= k < |trace|
        ensures Whole(trace[k], frames)
      {
        var place' := RunKeepsInvFrom(trace, steps, frames, place, k);
        assert Partition(trace[k], place') && place'.Keys == frames;
      }
    } else {
      var i := FirstThatDoesNot(trace, steps);
      assert StepAt(trace, steps, i);
      var place' := RunKeepsInvFrom(trace, steps, frames, place, i);
      StepSafeExactly(trace[i], steps[i].0, steps[i].1, frames, place');
      assert !Whole(trace[i + 1], frames);
    }
  }

  lemma {:induction false} FirstThatDoesNot(trace: seq<Stack>, steps: Schedule) returns (i: nat)
    requires IsRun(trace, steps) && !Alternating(trace, steps, |steps|)
    ensures i < |steps| && !AlternatesAt(trace, steps, i) && Alternating(trace, steps, i)
  {
    i := 0;
    while AlternatesAt(trace, steps, i)
      invariant i < |steps| && Alternating(trace, steps, i)
      decreases |steps| - i
    {
      i := i + 1;
    }
  }

  // ---- Phases ----

  ghost predicate InAlloc(th: Thread) { th.AllocLoaded? || th.AllocClaimed? }

  ghost predicate InFree(th: Thread) { th.FreeStart? || th.FreeLoaded? || th.FreeClaimed? }

  /** No thread is inside `alloc` while another is inside `free`. */
  ghost predicate SinglePhase(s: Stack) {
    forall t, u :: 0 <= t < |s.threads| && 0 <= u < |s.threads| && InAlloc(s.threads[t]) ==> !InFree(s.threads[u])
  }

  /** Within a phase a slot has no windows of both kinds, so its balance leaves no choice. */
  lemma {:induction false} SinglePhaseAlternates(s: Stack, t: nat, a: Action)
    requires Enabled(s, t, a) && Slots(s) && SinglePhase(s)
    ensures Alternates(s, t, a)
  {
    if a.ReadCell? || a.WriteCell? {
      var c := s.threads[t].cell;
      assert Balance(s, c);
      if a.ReadCell? {
        assert t in PopsOn(s, c) && InAlloc(s.threads[t]);
        assert PushesOn(s, c) == {};
      } else {
        assert t in PushesOn(s, c) && InFree(s.threads[t]);
        assert PopsOn(s, c) == {};
      }
    }
  }

  lemma {:induction false} PhasedRun(trace: seq<Stack>, steps: Schedule, frames: set<nat>, place: map<nat, Place>, k: nat)
    returns (place': map<nat, Place>)
    requires IsRun(trace, steps) && true == Inv(trace[0], frames, place) && k <= |steps|
    requires forall i :: 0 <= i < |trace| ==> true == SinglePhase(trace[i])
    ensures Alternating(trace, steps, k) && true == Inv(trace[k], frames, place')
  {
    if k == 0 {
      place' := place;
    } else {
      place' := PhasedRun(trace, steps, frames, place, k - 1);
      assert StepAt(trace, steps, k - 1);
      place' := PhasedStep(trace[k - 1], steps[k - 1].0, steps[k - 1].1, frames, place');
      assert AlternatesAt(trace, steps, k - 1);
    }
  }

  lemma {:induction false} PhasedStep(s: Stack, t: nat, a: Action, frames: set<nat>, place: map<nat, Place>)
    returns (place': map<nat, Place>)
    requires Enabled(s, t, a) && true == Inv(s, frames, place) && true == SinglePhase(s)
    ensures Alternates(s, t, a) && true == Inv(Do(s, t, a), frames, place')
  {
    SinglePhaseAlternates(s, t, a);
    place' := StepKeepsInv(s, t, a, frames, place);
  }

  /**
   Any number of threads, in alloc-only and free-only phases separated by
   quiescence, return pairwise distinct, aligned frames of the region, none of
   which is still in the stack.
  */
  lemma {:induction false} PhasedRunIsSafe(trace: seq<Stack>, steps: Schedule, frameSize: nat, n: nat, threads: nat, k: nat)
    requires frameSize > 0 && IsRun(trace, steps) && trace[0] == Initial(frameSize, n, threads) && k < |trace|
    requires forall i :: 0 <= i < |trace| ==> SinglePhase(trace[i])
    ensures forall f :: trace[k].held[f] <= 1
    ensures forall f :: f in trace[k].held ==> f % frameSize == 0 && f < n * frameSize && !InFreeSlot(trace[k], f)
    ensures Quiescent(trace[k]) ==> forall f :: f in FrameSet(frameSize, n) <==> f in trace[k].held || InFreeSlot(trace[k], f)
  {
    var place := InitialInv(frameSize, n, threads);
    place := PhasedRun(trace, steps, FrameSet(frameSize, n), place, k);
    HeldAreFrames(trace[k], frameSize, n, place);
    if Quiescent(trace[k]) {
      QuiescentStack(trace[k], FrameSet(frameSize, n), place);
    }
  }

  lemma {:induction false} HeldAreFrames(s: Stack, frameSize: nat, n: nat, place: map<nat, Place>)
    requires frameSize > 0 && Inv(s, FrameSet(frameSize, n), place)
    ensures forall f :: s.held[f] <= 1
    ensures forall f :: f in s.held ==> f % frameSize == 0 && f < n * frameSize && !InFreeSlot(s, f)
  {
    forall f | f in s.held
      ensures f % frameSize == 0 && f < n * frameSize && !InFreeSlot(s, f)
    {
      assert Content(s, Out(f)) == Some(f);
      AddressAligned(frameSize, n, f);
    }
  }

  lemma {:induction false} AddressAligned(frameSize: nat, n: nat, f: nat)
    requires frameSize > 0 && f in FrameSet(frameSize, n)
    ensures f % frameSize == 0 && f < n * frameSize
  {
    var i :| 0 <= i < n && Addresses(frameSize, n)[i] == f;
    RemainderUnique(f, frameSize, i, 0);
    MultiplyMonotone(i + 1, n, frameSize);
    assert (i + 1) * frameSize == i * frameSize + frameSize;
  }

  ghost predicate InFreeSlot(s: Stack, f: nat) { exists i: nat :: Content(s, InCell(i)) == Some(f) }

  ghost predicate Quiescent(s: Stack) { forall t :: 0 <= t < |s.threads| ==> s.threads[t].Idle? }

  lemma {:induction false} QuiescentStack(s: Stack, frames: set<nat>, place: map<nat, Place>)
    requires Inv(s, frames, place) && Quiescent(s)
    ensures forall f :: f in frames <==> f in s.held || InFreeSlot(s, f)
    ensures forall f :: InFreeSlot(s, f) <==> f in s.cells[..s.top]
  {
    forall c: nat | c < |s.cells|
      ensures c in s.full <==> c < s.top
    {
      NoWindows(s, c);
      assert Balance(s, c);
    }
    forall f: nat
      ensures f in frames <==> f in s.held || InFreeSlot(s, f)
    {
      if f in frames {
        assert Content(s, place[f]) == Some(f);
      }
      if f in s.held {
        assert Content(s, Out(f)) == Some(f);
      }
    }
    forall f: nat
      ensures InFreeSlot(s, f) <==> f in s.cells[..s.top]
    {
      if f in s.cells[..s.top] {
        var i: nat :| i < s.top && s.cells[i] == f;
        assert Content(s, InCell(i)) == Some(f);
      }
    }
  }

  ghost predicate FreeAction(a: Action) { a.CallFree? || a.LoadForFree? || a.PushCas? || a.WriteCell? }

  lemma {:induction false} FreeOnlyRun(trace: seq<Stack>, steps: Schedule, k: nat)
    requires IsRun(trace, steps) && Quiescent(trace[0]) && k < |trace|
    requires forall i :: 0 <= i < |steps| ==> FreeAction(steps[i].1)
    ensures forall t :: 0 <= t < |trace[k].threads| ==> !InAlloc(trace[k].threads[t])
    ensures trace[k].held <= trace[0].held
  {
    if k > 0 {
      FreeOnlyRun(trace, steps, k - 1);
      assert StepAt(trace, steps, k - 1);
    }
  }

  /** A free-only phase that has completed leaves in the stack what was there and exactly the frames it freed. */
  lemma {:induction false} FreePhaseRestores(trace: seq<Stack>, steps: Schedule, frames: set<nat>, place: map<nat, Place>, f: nat)
    requires IsRun(trace, steps) && Inv(trace[0], frames, place)
    requires Quiescent(trace[0]) && Quiescent(trace[|steps|])
    requires forall i :: 0 <= i < |steps| ==> FreeAction(steps[i].1)
    ensures var first, last := trace[0], trace[|steps|];
      && first.top <= |first.cells| && last.top <= |last.cells|
      && (f in last.cells[..last.top] <==> f in first.cells[..first.top] || (f in first.held && f !in last.held))
      && last.held <= first.held
  {
    forall i | 0 <= i < |trace|
      ensures SinglePhase(trace[i])
    {
      FreeOnlyRun(trace, steps, i);
    }
    FreeOnlyRun(trace, steps, |steps|);
    var place' := PhasedRun(trace, steps, frames, place, |steps|);
    QuiescentStack(trace[0], frames, place);
    QuiescentStack(trace[|steps|], frames, place');
    OutOrFree(trace[0], frames, place, f);
    OutOrFree(trace[|steps|], frames, place', f);
  }

  lemma {:induction false} OutOrFree(s: Stack, frames: set<nat>, place: map<nat, Place>, f: nat)
    requires Inv(s, frames, place)
    ensures !(f in s.held && InFreeSlot(s, f))
  {
    if f in s.held {
      assert Content(s, Out(f)) == Some(f);
    }
  }

  // ---- Claims in order ----

  /** A slot access is in turn if the thread is the first of those with a window on the slot. */
  ghost predicate InTurn(s: Stack, t: nat, a: Action)
    requires Enabled(s, t, a)
  {
    a.ReadCell? || a.WriteCell? ==>
      var c := s.threads[t].cell;
      c < |s.lines| && s.lines[c] != [] && s.lines[c][0] == t
  }

  /** A line of windows on slot `c`: pops and pushes in turn, the last of them a push exactly if the slot is below the top. */
  ghost predicate ProperLine(s: Stack, c: nat)
    requires c < |s.lines|
  {
    var line := s.lines[c];
    && (forall k :: 0 <= k < |line| ==> line[k] < |s.threads| && HasWindow(s.threads[line[k]]) && s.threads[line[k]].cell == c)
    && (forall j, k :: 0 <= j < k < |line| ==> line[j] != line[k])
    && (forall k :: 0 < k < |line| ==> (s.threads[line[k]].FreeClaimed? <==> s.threads[line[k - 1]].AllocClaimed?))
    && (line != [] ==> (s.threads[line[|line| - 1]].FreeClaimed? <==> c < s.top))
  }

  ghost predicate Lines(s: Stack) {
    && s.top <= |s.cells| == |s.lines|
    && (forall c :: 0 <= c < |s.lines| ==> ProperLine(s, c))
    && (forall t :: 0 <= t < |s.threads| && HasWindow(s.threads[t]) ==>
          s.threads[t].cell < |s.lines| && t in s.lines[s.threads[t].cell])
  }

  /** Behind its open windows a slot is as the top says; with windows open, it is as the first of them expects. */
  ghost predicate FullByLine(s: Stack) {
    Lines(s) && forall c :: 0 <= c < |s.lines| ==> AsFirstExpects(s, c)
  }

  ghost predicate AsFirstExpects(s: Stack, c: nat)
    requires c < |s.lines| && ProperLine(s, c)
  {
    c in s.full <==> if s.lines[c] == [] then c < s.top else s.threads[s.lines[c][0]].AllocClaimed?
  }

  lemma {:induction false} InTurnAlternates(s: Stack, t: nat, a: Action)
    requires Enabled(s, t, a) && FullByLine(s) && InTurn(s, t, a)
    ensures Alternates(s, t, a)
  {
    if a.ReadCell? || a.WriteCell? { assert AsFirstExpects(s, s.threads[t].cell); }
  }

  /** The line of slot `c` after a step that changes no window on it. */
  lemma {:induction false} LineKept(s: Stack, s': Stack, c: nat)
    requires c < |s.lines| == |s'.lines| && ProperLine(s, c) && s'.lines[c] == s.lines[c] && |s'.threads| == |s.threads|
    requires forall k :: 0 <= k < |s.lines[c]| ==> s'.threads[s.lines[c][k]] == s.threads[s.lines[c][k]]
    requires s.lines[c] != [] ==> (c < s'.top <==> c < s.top)
    ensures ProperLine(s', c)
  {
  }

  /** A thread without a window is in no line. */
  lemma {:induction false} NotInLine(s: Stack, t: nat)
    requires Lines(s) && t < |s.threads| && !HasWindow(s.threads[t])
    ensures forall c :: 0 <= c < |s.lines| ==> t !in s.lines[c]
  {
    forall c | 0 <= c < |s.lines|
      ensures t !in s.lines[c]
    {
      assert ProperLine(s, c);
    }
  }

  /** A thread with a window is only in the line of its slot. */
  lemma {:induction false} OnlyInLine(s: Stack, t: nat)
    requires Lines(s) && t < |s.threads| && HasWindow(s.threads[t])
    ensures forall c :: 0 <= c < |s.lines| && c != s.threads[t].cell ==> t !in s.lines[c]
  {
    forall c | 0 <= c < |s.lines| && c != s.threads[t].cell
      ensures t !in s.lines[c]
    {
      assert ProperLine(s, c);
    }
  }

  /** A winning compare-exchange joins the line of its slot. */
  lemma {:induction false} JoinKeepsLines(s: Stack, t: nat, a: Action)
    requires Enabled(s, t, a) && Lines(s) && (a == PopCas(true) || (a == PushCas(true) && s.top < |s.cells|))
    ensures Lines(Do(s, t, a))
  {
    var s' := Do(s, t, a);
    var c := if a.PopCas? then s.top - 1 else s.top;
    NotInLine(s, t);
    forall d | 0 <= d < |s'.lines|
      ensures ProperLine(s', d)
    {
      if d != c {
        LineKept(s, s', d);
      } else {
        JoinedLine(s, s', c, t);
      }
    }
    forall u | 0 <= u < |s'.threads| && HasWindow(s'.threads[u])
      ensures s'.threads[u].cell < |s'.lines| && u in s'.lines[s'.threads[u].cell]
    {
      if u == t { assert s'.lines[c][|s.lines[c]|] == t; }
    }
  }

  lemma {:induction false} JoinedLine(s: Stack, s': Stack, c: nat, t: nat)
    requires c < |s.lines| == |s'.lines| && ProperLine(s, c) && t !in s.lines[c] && s'.lines[c] == s.lines[c] + [t]
    requires t < |s'.threads| == |s.threads| && HasWindow(s'.threads[t]) && s'.threads[t].cell == c
    requires forall u :: 0 <= u < |s.threads| && u != t ==> s'.threads[u] == s.threads[u]
    requires (s'.threads[t].FreeClaimed? <==> c < s'.top) && (c < s'.top <==> c >= s.top)
    ensures ProperLine(s', c)
  {
    var line, line' := s.lines[c], s'.lines[c];
    assert forall k :: 0 <= k < |line| ==> line'[k] == line[k];
    assert line'[|line|] == t;
  }

  /** The first in line leaves it. */
  lemma {:induction false} LeaveKeepsLines(s: Stack, t: nat, a: Action)
    requires Enabled(s, t, a) && Lines(s) && (a.ReadCell? || a.WriteCell?) && InTurn(s, t, a)
    ensures Lines(Do(s, t, a)) && Do(s, t, a).lines[s.threads[t].cell] == s.lines[s.threads[t].cell][1..]
  {
    var s' := Do(s, t, a);
    var c := s.threads[t].cell;
    assert s'.lines[c] == s.lines[c][1..];
    OnlyInLine(s, t);
    forall d | 0 <= d < |s'.lines|
      ensures ProperLine(s', d)
    {
      if d != c {
        LineKept(s, s', d);
      } else {
        ShorterLine(s, s', c, t);
      }
    }
    forall u | 0 <= u < |s'.threads| && HasWindow(s'.threads[u])
      ensures s'.threads[u].cell < |s'.lines| && u in s'.lines[s'.threads[u].cell]
    {
      assert u != t && u in s.lines[s.threads[u].cell];
    }
  }

  lemma {:induction false} ShorterLine(s: Stack, s': Stack, c: nat, t: nat)
    requires c < |s.lines| == |s'.lines| && ProperLine(s, c) && s.lines[c] != [] && s.lines[c][0] == t
    requires s'.lines[c] == s.lines[c][1..] && |s'.threads| == |s.threads| && s'.top == s.top
    requires forall u :: 0 <= u < |s.threads| && u != t ==> s'.threads[u] == s.threads[u]
    ensures ProperLine(s', c)
  {
    var line, line' := s.lines[c], s'.lines[c];
    assert forall k :: 0 <= k < |line'| ==> line'[k] == line[k + 1] && line'[k] != t;
  }

  /** A step that neither opens nor closes a window. */
  lemma {:induction false} QuietKeepsLines(s: Stack, s': Stack, t: nat)
    requires Lines(s) && t < |s.threads| && !HasWindow(s.threads[t]) && |s'.threads| == |s.threads| && !HasWindow(s'.threads[t])
    requires s'.lines == s.lines && s'.top == s.top && |s'.cells| == |s.cells|
    requires forall u :: 0 <= u < |s.threads| && u != t ==> s'.threads[u] == s.threads[u]
    ensures Lines(s')
  {
    NotInLine(s, t);
    forall d | 0 <= d < |s'.lines|
      ensures ProperLine(s', d)
    {
      LineKept(s, s', d);
    }
  }

  /** Each kind of step keeps `full` as the lines say. */
  lemma {:induction false} InTurnKeepsFull(s: Stack, t: nat, a: Action)
    requires Enabled(s, t, a) && FullByLine(s) && InTurn(s, t, a) && (a == PushCas(true) ==> s.top < |s.cells|)
    ensures FullByLine(Do(s, t, a))
  {
    match a
    case PopCas(true) => JoinKeepsFull(s, t, a);
    case PushCas(true) => JoinKeepsFull(s, t, a);
    case ReadCell => LeaveKeepsFull(s, t, a);
    case WriteCell => LeaveKeepsFull(s, t, a);
    case _ => QuietKeepsFull(s, t, a);
  }

  lemma {:induction false} QuietKeepsFull(s: Stack, t: nat, a: Action)
    requires Enabled(s, t, a) && FullByLine(s)
    requires a.LoadForAlloc? || a.CallFree? || a.LoadForFree? || a == PushCas(false) || a == PopCas(false)
    ensures FullByLine(Do(s, t, a))
  {
    var s' := Do(s, t, a);
    NotInLine(s, t);
    QuietKeepsLines(s, s', t);
    forall d | 0 <= d < |s'.lines|
      ensures ProperLine(s', d) && AsFirstExpects(s', d)
    {
      FirstKept(s, s', d, t);
    }
  }

  lemma {:induction false} JoinKeepsFull(s: Stack, t: nat, a: Action)
    requires Enabled(s, t, a) && FullByLine(s) && (a == PopCas(true) || (a == PushCas(true) && s.top < |s.cells|))
    ensures FullByLine(Do(s, t, a))
  {
    var s' := Do(s, t, a);
    NotInLine(s, t);
    JoinKeepsLines(s, t, a);
    forall d | 0 <= d < |s'.lines|
      ensures ProperLine(s', d) && AsFirstExpects(s', d)
    {
      assert AsFirstExpects(s, d);
      FirstKept(s, s', d, t);
    }
  }

  lemma {:induction false} LeaveKeepsFull(s: Stack, t: nat, a: Action)
    requires Enabled(s, t, a) && FullByLine(s) && (a.ReadCell? || a.WriteCell?) && InTurn(s, t, a)
    ensures FullByLine(Do(s, t, a))
  {
    var s' := Do(s, t, a);
    var c := s.threads[t].cell;
    LeaveKeepsLines(s, t, a);
    OnlyInLine(s, t);
    forall d | 0 <= d < |s'.lines|
      ensures ProperLine(s', d) && AsFirstExpects(s', d)
    {
      if d != c {
        FirstKept(s, s', d, t);
      } else {
        NextExpects(s, s', c, t);
      }
    }
  }

  /** A line of other threads, or its first thread, stays as it was. */
  lemma {:induction false} FirstKept(s: Stack, s': Stack, d: nat, t: nat)
    requires d < |s.lines| == |s'.lines| && ProperLine(s, d) && ProperLine(s', d) && AsFirstExpects(s, d) && t !in s.lines[d]
    requires |s.threads| == |s'.threads| && forall u :: 0 <= u < |s.threads| && u != t ==> s'.threads[u] == s.threads[u]
    requires s.lines[d] <= s'.lines[d] && (d in s'.full <==> d in s.full)
    requires if s'.lines[d] == [] then d < s'.top <==> d < s.top else s.lines[d] == [] ==> (s'.threads[s'.lines[d][0]].AllocClaimed? <==> d < s.top)
    ensures AsFirstExpects(s', d)
  {
    if s.lines[d] != [] { assert s.lines[d][0] in s.lines[d]; }
  }

  /** When the first in line has read or written its slot, the slot is as the second expects. */
  lemma {:induction false} NextExpects(s: Stack, s': Stack, c: nat, t: nat)
    requires c < |s.lines| == |s'.lines| && ProperLine(s, c) && ProperLine(s', c)
    requires s.lines[c] != [] && s.lines[c][0] == t && s'.lines[c] == s.lines[c][1..] && s'.top == s.top
    requires |s.threads| == |s'.threads| && forall u :: 0 <= u < |s.threads| && u != t ==> s'.threads[u] == s.threads[u]
    requires c in s'.full <==> s.threads[t].FreeClaimed?
    ensures AsFirstExpects(s', c)
  {
    if |s.lines[c]| > 1 { assert s.lines[c][1] != t && s'.lines[c][0] == s.lines[c][1]; }
  }

  ghost predicate InTurnAt(trace: seq<Stack>, steps: Schedule, i: nat)
    requires i < |steps| && |trace| == |steps| + 1
  {
    StepAt(trace, steps, i) && InTurn(trace[i], steps[i].0, steps[i].1)
  }

  lemma {:induction false} OrderedRun(trace: seq<Stack>, steps: Schedule, frames: set<nat>, place: map<nat, Place>, k: nat)
    returns (place': map<nat, Place>)
    requires IsRun(trace, steps) && true == Inv(trace[0], frames, place) && true == FullByLine(trace[0]) && k <= |steps|
    requires forall i {:trigger InTurnAt(trace, steps, i)} :: 0 <= i < |steps| ==> InTurnAt(trace, steps, i)
    ensures Alternating(trace, steps, k) && true == FullByLine(trace[k]) && true == Inv(trace[k], frames, place')
  {
    if k == 0 {
      place' := place;
    } else {
      place' := OrderedRun(trace, steps, frames, place, k - 1);
      assert InTurnAt(trace, steps, k - 1);
      place' := OrderedStep(trace[k - 1], steps[k - 1].0, steps[k - 1].1, frames, place');
      assert AlternatesAt(trace, steps, k - 1);
    }
  }

  lemma {:induction false} OrderedStep(s: Stack, t: nat, a: Action, frames: set<nat>, place: map<nat, Place>)
    returns (place': map<nat, Place>)
    requires Enabled(s, t, a) && true == Inv(s, frames, place) && true == FullByLine(s) && InTurn(s, t, a)
    ensures Alternates(s, t, a) && true == Inv(Do(s, t, a), frames, place') && true == FullByLine(Do(s, t, a))
  {
    InTurnAlternates(s, t, a);
    if a == PushCas(true) { RoomForPush(s, t, frames, place); }
    InTurnKeepsFull(s, t, a);
    place' := StepKeepsInv(s, t, a, frames, place);
  }

  /** Reading and writing every slot in the order in which it was claimed is enough. */
  lemma {:induction false} OrderedRunIsSafe(trace: seq<Stack>, steps: Schedule, frameSize: nat, n: nat, threads: nat)
    requires frameSize > 0 && IsRun(trace, steps) && trace[0] == Initial(frameSize, n, threads)
    requires forall i {:trigger InTurnAt(trace, steps, i)} :: 0 <= i < |steps| ==> InTurnAt(trace, steps, i)
    ensures forall k :: 0 <= k < |trace| ==> Whole(trace[k], FrameSet(frameSize, n))
  {
    var place := InitialInv(frameSize, n, threads);
    var place' := OrderedRun(trace, steps, FrameSet(frameSize, n), place, |steps|);
    RunSafeExactly(trace, steps, frameSize, n, threads);
  }

  // ---- Claims that overlap ----

  /**
   The source says that `alloc` and `free` may run concurrently. Two threads and
   two frames are enough to fail: the second thread pops the slot that the first
   has claimed for a push and not written, and is given a frame already held.
  */
  lemma {:induction false} MixedRunDuplicates() returns (trace: seq<Stack>, steps: Schedule)
    ensures IsRun(trace, steps) && trace[0] == Initial(2048, 2, 2)
    ensures trace[|steps|].held[0] == 2
  {
    var s0 := Initial(2048, 2, 2);
    assert s0.cells == [0, 2048] && s0.threads == [Idle, Idle] && s0.lines == [[], []];
    trace, steps := AllocOnce(s0, 0);
    var t, p := AllocOnce(trace[3], 0);
    trace, steps := Chain(trace, steps, t, p);
    t, p := OpenPush(trace[6], 0, 2048);
    trace, steps := Chain(trace, steps, t, p);
    t, p := AllocOnce(trace[9], 1);
    trace, steps := Chain(trace, steps, t, p);
  }

  /**
   Claim order is not necessary. Thread 2 reads a slot before thread 0, which claimed it first,
   and thread 0 reads what thread 1 then writes: each frame is in one place throughout.
  */
  lemma {:induction false} OrderIsNotNecessary() returns (trace: seq<Stack>, steps: Schedule)
    ensures IsRun(trace, steps) && trace[0] == Initial(2048, 2, 3)
    ensures exists i {:trigger InTurnAt(trace, steps, i)} :: 0 <= i < |steps| && !InTurnAt(trace, steps, i)
    ensures forall k :: 0 <= k < |trace| ==> Whole(trace[k], FrameSet(2048, 2))
    ensures Quiescent(trace[|steps|]) && trace[|steps|].held == multiset{0, 2048}
  {
    var s0 := Initial(2048, 2, 3);
    assert s0.cells == [0, 2048] && s0.threads == [Idle, Idle, Idle] && s0.lines == [[], []];
    trace, steps := TwoPopsOnePush(s0);
    var t, p := CloseWindow(trace[11], 1, WriteCell);
    trace, steps := Chain(trace, steps, t, p);
    t, p := CloseWindow(trace[12], 0, ReadCell);
    trace, steps := Chain(trace, steps, t, p);
    assert !InTurnAt(trace, steps, 10);
    RunSafeExactly(trace, steps, 2048, 2, 3);
  }

  lemma {:induction false} TwoPopsOnePush(s0: Stack) returns (trace: seq<Stack>, steps: Schedule)
    requires s0.cells == [0, 2048] && s0.top == 2 && s0.threads == [Idle, Idle, Idle] && s0.lines == [[], []]
    requires s0.full == {0, 1} && s0.held == multiset{}
    ensures IsRun(trace, steps) && |steps| == 11 && trace[0] == s0 && Alternating(trace, steps, 11)
    ensures steps[10] == (2, ReadCell) && !InTurnAt(trace, steps, 10)
    ensures trace[11] == Stack([0, 2048], 0, [AllocClaimed(0), FreeClaimed(2048, 0), Idle], multiset{0}, {}, [[0, 1], []])
  {
    var t, p := AllocOnce(s0, 1);
    var u, q := OpenPop(t[3], 0);
    trace, steps := Chain(t, p, u, q);
    u, q := OpenPush(trace[5], 1, 2048);
    trace, steps := Chain(trace, steps, u, q);
    assert trace[8].lines[0] == [0, 1] && trace[8].lines[1] == [];
    u, q := AllocOnce(trace[8], 2);
    trace, steps := Chain(trace, steps, u, q);
    assert trace[10] == u[2];
    assert !InTurnAt(trace, steps, 10);
    assert trace[11].threads == [AllocClaimed(0), FreeClaimed(2048, 0), Idle];
    assert trace[11].lines == [[0, 1], []];
    assert trace[11].held == multiset{0} && trace[11].full == {};
  }

  /** An `alloc` by thread `t` with no step of another thread in between. */
  lemma {:induction false} AllocOnce(s: Stack, t: nat) returns (trace: seq<Stack>, steps: Schedule)
    requires t < |s.threads| && s.threads[t].Idle? && 0 < s.top <= |s.cells| == |s.lines| && t !in s.lines[s.top - 1]
    ensures IsRun(trace, steps) && |steps| == 3 && trace[0] == s
    ensures steps == [(t, LoadForAlloc), (t, PopCas(true)), (t, ReadCell)]
    ensures trace[2].threads == s.threads[t := AllocClaimed(s.top - 1)] && trace[2].lines == Joined(s.lines, s.top - 1, t)
    ensures trace[3] == s.(top := s.top - 1, held := s.held + multiset{s.cells[s.top - 1]}, full := s.full - {s.top - 1})
    ensures s.top - 1 in s.full ==> Alternating(trace, steps, 3)
  {
    var a := Do(s, t, LoadForAlloc);
    var b := Do(a, t, PopCas(true));
    var c := Do(b, t, ReadCell);
    assert c.threads == s.threads;
    LastLeaves(s.lines[s.top - 1], t);
    assert c.lines == s.lines;
    trace, steps := [s, a, b, c], [(t, LoadForAlloc), (t, PopCas(true)), (t, ReadCell)];
    assert StepAt(trace, steps, 0) && StepAt(trace, steps, 1) && StepAt(trace, steps, 2);
    if s.top - 1 in s.full { assert AlternatesAt(trace, steps, 0) && AlternatesAt(trace, steps, 1) && AlternatesAt(trace, steps, 2); }
  }

  lemma {:induction false} LastLeaves(line: seq<nat>, t: nat)
    requires t !in line
    ensures Without(line + [t], t) == line
  {
    if line != [] {
      LastLeaves(line[1..], t);
      assert (line + [t])[1..] == line[1..] + [t];
    }
  }

  /** Thread `t` frees `frame` up to its winning compare-exchange. */
  lemma {:induction false} OpenPush(s: Stack, t: nat, frame: nat) returns (trace: seq<Stack>, steps: Schedule)
    requires t < |s.threads| && s.threads[t].Idle? && frame in s.held
    ensures IsRun(trace, steps) && |steps| == 3 && trace[0] == s
    ensures trace[3] == s.(top := s.top + 1, held := s.held - multiset{frame},
      threads := s.threads[t := FreeClaimed(frame, s.top)], lines := Joined(s.lines, s.top, t))
    ensures Alternating(trace, steps, 3)
  {
    var a := Do(s, t, CallFree(frame));
    var b := Do(a, t, LoadForFree);
    var c := Do(b, t, PushCas(true));
    assert c.threads == s.threads[t := FreeClaimed(frame, s.top)];
    trace, steps := [s, a, b, c], [(t, CallFree(frame)), (t, LoadForFree), (t, PushCas(true))];
    assert StepAt(trace, steps, 0) && StepAt(trace, steps, 1) && StepAt(trace, steps, 2);
    assert AlternatesAt(trace, steps, 0) && AlternatesAt(trace, steps, 1) && AlternatesAt(trace, steps, 2);
  }

  /** Thread `t` calls `alloc` up to its winning compare-exchange. */
  lemma {:induction false} OpenPop(s: Stack, t: nat) returns (trace: seq<Stack>, steps: Schedule)
    requires t < |s.threads| && s.threads[t].Idle? && 0 < s.top
    ensures IsRun(trace, steps) && |steps| == 2 && trace[0] == s
    ensures trace[2] == s.(top := s.top - 1, threads := s.threads[t := AllocClaimed(s.top - 1)], lines := Joined(s.lines, s.top - 1, t))
    ensures Alternating(trace, steps, 2)
  {
    var a := Do(s, t, LoadForAlloc);
    var b := Do(a, t, PopCas(true));
    assert b.threads == s.threads[t := AllocClaimed(s.top - 1)];
    trace, steps := [s, a, b], [(t, LoadForAlloc), (t, PopCas(true))];
    assert StepAt(trace, steps, 0) && StepAt(trace, steps, 1);
    assert AlternatesAt(trace, steps, 0) && AlternatesAt(trace, steps, 1);
  }

  lemma {:induction false} CloseWindow(s: Stack, t: nat, a: Action) returns (trace: seq<Stack>, steps: Schedule)
    requires Enabled(s, t, a) && Alternates(s, t, a)
    ensures IsRun(trace, steps) && |steps| == 1 && trace[0] == s && trace[1] == Do(s, t, a) && Alternating(trace, steps, 1)
  {
    trace, steps := [s, Do(s, t, a)], [(t, a)];
    assert StepAt(trace, steps, 0);
    assert AlternatesAt(trace, steps, 0);
  }

  lemma {:induction false} Chain(t1: seq<Stack>, p1: Schedule, t2: seq<Stack>, p2: Schedule) returns (trace: seq<Stack>, steps: Schedule)
    requires IsRun(t1, p1) && IsRun(t2, p2) && t1[|p1|] == t2[0]
    ensures IsRun(trace, steps) && |steps| == |p1| + |p2|
    ensures trace[0] == t1[0] && trace[|steps|] == t2[|p2|] && trace == t1 + t2[1..] && steps == p1 + p2
    ensures Alternating(t1, p1, |p1|) && Alternating(t2, p2, |p2|) ==> Alternating(trace, steps, |steps|)
  {
    trace, steps := t1 + t2[1..], p1 + p2;
    forall i | 0 <= i < |steps|
      ensures StepAt(trace, steps, i)
    {
      if i < |p1| {
        assert StepAt(t1, p1, i);
      } else {
        assert StepAt(t2, p2, i - |p1|);
        assert trace[i] == t2[i - |p1|] && trace[i + 1] == t2[i + 1 - |p1|];
      }
    }
    if Alternating(t1, p1, |p1|) && Alternating(t2, p2, |p2|) {
      forall i | 0 <= i < |steps|
        ensures AlternatesAt(trace, steps, i)
      {
        assert StepAt(trace, steps, i);
        if i < |p1| {
          assert AlternatesAt(t1, p1, i);
        } else {
          assert AlternatesAt(t2, p2, i - |p1|);
        }
      }
    }
  }
}
