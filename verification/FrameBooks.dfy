/**
Who owns which packet frame. `Books` lists, for one socket and its kernel, every
place a frame can be in; `Move` is every way a frame changes place. The socket
in `Socket` records the moves it and its kernel make, and keeps its books
`Reachable` by them, so what holds here of every run of moves holds of every run
of the socket.
*/
module FrameBooks {
  datatype Books = Books(
    /** the free stack, top last */
    free: seq<nat>,
    /** published fill-ring entries, oldest first */
    fill: seq<nat>,
    /** taken from the fill ring, not yet delivered */
    kernelRx: multiset<nat>,
    /** delivered on the RX ring, oldest first */
    rx: seq<nat>,
    /** with the application: received, or reserved for sending */
    held: multiset<nat>,
    /** popped from the free stack by an operation that has not finished with it */
    inHand: multiset<nat>,
    /** published TX-ring entries, oldest first */
    tx: seq<nat>,
    /** taken from the TX ring, not yet completed */
    kernelTx: multiset<nat>,
    /** completion-ring entries not yet pushed back on the free stack */
    comp: seq<nat>)
  {
    /** How many places frame `f` is in. */
    ghost function Count(f: nat): nat {
      multiset(free)[f] + multiset(fill)[f] + kernelRx[f] + multiset(rx)[f] + held[f] + inHand[f]
      + multiset(tx)[f] + kernelTx[f] + multiset(comp)[f]
    }

    /** Every frame is in exactly one place, and nothing else is anywhere. */
    ghost predicate Partition(n: nat) {
      forall f: nat :: Count(f) == if f < n then 1 else 0
    }
  }

  datatype Move =
    | KernelTakesFill
    | KernelDelivers(f: nat)
    | KernelTakesTx
    | KernelCompletes(f: nat)
    | Pop
    | PublishFill(frames: seq<nat>)
    | Reclaim
    | Receive(count: nat)
    | HandOut(f: nat)
    | Transmit(f: nat)
    | Return(f: nat)
    /** a receive call, or the creation of the socket, is over */
    | CallReturns

  ghost predicate Enabled(b: Books, m: Move) {
    match m
    case KernelTakesFill => b.fill != []
    case KernelDelivers(f) => f in b.kernelRx
    case KernelTakesTx => b.tx != []
    case KernelCompletes(f) => f in b.kernelTx
    case Pop => b.free != []
    case PublishFill(frames) => multiset(frames) <= b.inHand
    case Reclaim => b.comp != []
    case Receive(count) => count <= |b.rx|
    case HandOut(f) => f in b.inHand
    case Transmit(f) => f in b.held
    case Return(f) => f in b.held
    case CallReturns => true
  }

  ghost function Apply(b: Books, m: Move): Books
    requires Enabled(b, m)
  {
    match m
    case KernelTakesFill => b.(fill := b.fill[1..], kernelRx := b.kernelRx + multiset{b.fill[0]})
    case KernelDelivers(f) => b.(kernelRx := b.kernelRx - multiset{f}, rx := b.rx + [f])
    case KernelTakesTx => b.(tx := b.tx[1..], kernelTx := b.kernelTx + multiset{b.tx[0]})
    case KernelCompletes(f) => b.(kernelTx := b.kernelTx - multiset{f}, comp := b.comp + [f])
    case Pop =>
      var top := |b.free| - 1;
      b.(free := b.free[..top], inHand := b.inHand + multiset{b.free[top]})
    case PublishFill(frames) => b.(inHand := b.inHand - multiset(frames), fill := b.fill + frames)
    case Reclaim => b.(comp := b.comp[1..], free := b.free + [b.comp[0]])
    case Receive(count) => b.(rx := b.rx[count..], held := b.held + multiset(b.rx[..count]))
    case HandOut(f) => b.(inHand := b.inHand - multiset{f}, held := b.held + multiset{f})
    case Transmit(f) => b.(held := b.held - multiset{f}, tx := b.tx + [f])
    case Return(f) => b.(held := b.held - multiset{f}, free := b.free + [f])
    case CallReturns => b
  }

  lemma {:induction false} SplitSeq(s: seq<nat>, k: nat)
    requires k <= |s|
    ensures multiset(s) == multiset(s[..k]) + multiset(s[k..])
  {
    assert s == s[..k] + s[k..];
  }

  lemma {:induction false} SplitEnds(s: seq<nat>)
    requires s != []
    ensures multiset(s) == multiset{s[0]} + multiset(s[1..])
    ensures multiset(s) == multiset(s[..|s| - 1]) + multiset{s[|s| - 1]}
  {
    assert s == [s[0]] + s[1..];
    assert s == s[..|s| - 1] + [s[|s| - 1]];
  }

  lemma {:induction false} KernelConserves(b: Books, m: Move, f: nat)
    requires Enabled(b, m) && (m.KernelTakesFill? || m.KernelDelivers? || m.KernelTakesTx? || m.KernelCompletes?)
    ensures Apply(b, m).Count(f) == b.Count(f)
  {
    match m
    case KernelTakesFill => SplitEnds(b.fill);
    case KernelTakesTx => SplitEnds(b.tx);
    case _ =>
  }

  lemma {:induction false} CallConserves(b: Books, m: Move, f: nat)
    requires Enabled(b, m) && (m.Pop? || m.PublishFill? || m.Reclaim? || m.Receive?)
    ensures Apply(b, m).Count(f) == b.Count(f)
  {
    match m
    case Pop => SplitEnds(b.free);
    case Reclaim => SplitEnds(b.comp);
    case Receive(count) => SplitSeq(b.rx, count);
    case _ =>
  }

  /** No move duplicates or loses a frame. */
  lemma {:induction false} MoveConserves(b: Books, m: Move, f: nat)
    requires Enabled(b, m)
    ensures Apply(b, m).Count(f) == b.Count(f)
  {
    if m.KernelTakesFill? || m.KernelDelivers? || m.KernelTakesTx? || m.KernelCompletes? {
      KernelConserves(b, m, f);
    } else if m.Pop? || m.PublishFill? || m.Reclaim? || m.Receive? {
      CallConserves(b, m, f);
    }
  }

  lemma {:induction false} MoveKeepsPartition(b: Books, m: Move, n: nat)
    requires b.Partition(n) && Enabled(b, m)
    ensures Apply(b, m).Partition(n)
  {
    forall f: nat
      ensures Apply(b, m).Count(f) == if f < n then 1 else 0
    {
      MoveConserves(b, m, f);
    }
  }

  ghost function Initial(n: nat): Books {
    Books(seq(n, i => i), [], multiset{}, [], multiset{}, multiset{}, [], multiset{}, [])
  }

  /**
   A line of the record: the books, the packets received so far, the frames that can reach the
   application without another refill, and the most that the call now under way may still refill.
  */
  datatype Line = Line(books: Books, received: nat, credit: int, due: int)

  /** Before the socket puts `prefill` frames on the fill ring. */
  ghost function Opening(n: nat, prefill: nat): Line { Line(Initial(n), 0, 0, prefill) }

  /** The fill ring is refilled once after a reception, with no more frames than were received, and once at the start. */
  ghost predicate Allowed(l: Line, m: Move) { Enabled(l.books, m) && (m.PublishFill? ==> |m.frames| <= l.due) }

  ghost function Next(l: Line, m: Move): Line
    requires Allowed(l, m)
  {
    Line(Apply(l.books, m),
         l.received + (if m.Receive? then m.count else 0),
         l.credit + (if m.PublishFill? then |m.frames| else 0) - (if m.Receive? then m.count else 0),
         if m.Receive? then m.count else if m.PublishFill? || m.CallReturns? then 0 else l.due)
  }

  /** The `i`-th move leads from the `i`-th line to the next. */
  ghost predicate StepAt(trace: seq<Line>, moves: seq<Move>, i: nat)
    requires i < |moves| && |trace| == |moves| + 1
  {
    Allowed(trace[i], moves[i]) && trace[i + 1] == Next(trace[i], moves[i])
  }

  /** A run of a socket and its kernel over `n` frames. */
  ghost predicate IsRun(n: nat, prefill: nat, trace: seq<Line>, moves: seq<Move>) {
    && |trace| == |moves| + 1 && trace[0] == Opening(n, prefill)
    && forall i {:trigger StepAt(trace, moves, i)} :: 0 <= i < |moves| ==> StepAt(trace, moves, i)
  }

  lemma {:induction false} IdentityCount(n: nat, f: nat)
    ensures multiset(seq(n, i => i))[f] == if f < n then 1 else 0
  {
    if n > 0 {
      IdentityCount(n - 1, f);
      assert seq(n, i => i) == seq(n - 1, i => i) + [n - 1];
    }
  }

  /** In every run of a socket and its kernel the frames stay partitioned. */
  lemma {:induction false} RunKeepsPartition(trace: seq<Line>, moves: seq<Move>, n: nat, prefill: nat, k: nat)
    requires IsRun(n, prefill, trace, moves) && k < |trace|
    ensures trace[k].books.Partition(n)
  {
    if k == 0 {
      forall f: nat
        ensures Initial(n).Count(f) == if f < n then 1 else 0
      {
        IdentityCount(n, f);
      }
    } else {
      RunKeepsPartition(trace, moves, n, prefill, k - 1);
      assert StepAt(trace, moves, k - 1);
      MoveKeepsPartition(trace[k - 1].books, moves[k - 1], n);
    }
  }

  ghost predicate Leads(trace: seq<Line>, moves: seq<Move>, n: nat, prefill: nat, l: Line) {
    IsRun(n, prefill, trace, moves) && trace[|moves|] == l
  }

  /** Some run of `moves` over `n` frames ends with line `l`. */
  ghost predicate Reachable(n: nat, prefill: nat, moves: seq<Move>, l: Line) {
    exists trace :: Leads(trace, moves, n, prefill, l)
  }

  lemma {:induction false} ReachOpening(n: nat, prefill: nat)
    ensures Reachable(n, prefill, [], Opening(n, prefill))
  {
    assert Leads([Opening(n, prefill)], [], n, prefill, Opening(n, prefill));
  }

  lemma {:induction false} ReachStep(n: nat, prefill: nat, moves: seq<Move>, l: Line, m: Move)
    requires Reachable(n, prefill, moves, l) && Allowed(l, m)
    ensures Reachable(n, prefill, moves + [m], Next(l, m))
  {
    var trace :| Leads(trace, moves, n, prefill, l);
    var longer, more := trace + [Next(l, m)], moves + [m];
    forall i | 0 <= i < |more|
      ensures StepAt(longer, more, i)
    {
      if i < |moves| { assert StepAt(trace, moves, i); }
    }
    assert Leads(longer, more, n, prefill, Next(l, m));
  }

  lemma {:induction false} ReachPartition(n: nat, prefill: nat, moves: seq<Move>, l: Line)
    requires Reachable(n, prefill, moves, l)
    ensures l.books.Partition(n)
  {
    var trace :| Leads(trace, moves, n, prefill, l);
    RunKeepsPartition(trace, moves, n, prefill, |moves|);
  }

  /** Packets received over a run. */
  ghost function Received(moves: seq<Move>): nat {
    if moves == [] then 0
    else Received(moves[..|moves| - 1]) + var m := moves[|moves| - 1]; if m.Receive? then m.count else 0
  }

  /** Frames the application gave up over a run, net of those it was handed for sending. */
  ghost function GivenUp(moves: seq<Move>): int {
    if moves == [] then 0
    else GivenUp(moves[..|moves| - 1])
         + match moves[|moves| - 1] {
             case HandOut(_) => -1
             case Transmit(_) => 1
             case Return(_) => 1
             case _ => 0
           }
  }

  lemma {:induction false} PrefixRun(n: nat, prefill: nat, trace: seq<Line>, moves: seq<Move>)
    requires IsRun(n, prefill, trace, moves) && moves != []
    ensures IsRun(n, prefill, trace[..|moves|], moves[..|moves| - 1])
  {
    var shorter, fewer := trace[..|moves|], moves[..|moves| - 1];
    forall i | 0 <= i < |fewer|
      ensures StepAt(shorter, fewer, i)
    {
      assert StepAt(trace, moves, i);
    }
  }

  /** What the last line of a run says of the moves and the books. */
  lemma {:induction false} RunBalances(n: nat, prefill: nat, trace: seq<Line>, moves: seq<Move>)
    requires IsRun(n, prefill, trace, moves)
    ensures var l := trace[|moves|];
      l.received == Received(moves) && l.credit == Credit(l.books) && |l.books.held| == Received(moves) - GivenUp(moves)
  {
    if moves != [] {
      var k := |moves| - 1;
      PrefixRun(n, prefill, trace, moves);
      RunBalances(n, prefill, trace[..k + 1], moves[..k]);
      assert StepAt(trace, moves, k);
      StepBalances(trace[k], moves[k]);
    }
  }

  lemma {:induction false} StepBalances(l: Line, m: Move)
    requires Allowed(l, m) && l.credit == Credit(l.books)
    ensures Next(l, m).credit == Credit(Next(l, m).books)
    ensures |Next(l, m).books.held| == |l.books.held| + match m {
      case Receive(count) => count
      case HandOut(_) => 1
      case Transmit(_) => -1
      case Return(_) => -1
      case _ => 0
    }
  {
  }

  /**
   Receiving never frees a frame, so over any run the packets received are at
   most the frames of the region plus the frames the application gave back.
  */
  lemma {:induction false} ReceptionBound(n: nat, prefill: nat, moves: seq<Move>, l: Line)
    requires Reachable(n, prefill, moves, l)
    ensures l.received == Received(moves) && l.credit == Credit(l.books)
    ensures |l.books.held| == Received(moves) - GivenUp(moves) <= n
  {
    var trace :| Leads(trace, moves, n, prefill, l);
    RunBalances(n, prefill, trace, moves);
    ReachPartition(n, prefill, moves, l);
    FreeStackBound(l.books, n, 0);
  }

  ghost function Places(b: Books): seq<multiset<nat>> {
    [multiset(b.free), multiset(b.fill), b.kernelRx, multiset(b.rx), b.held, b.inHand,
     multiset(b.tx), b.kernelTx, multiset(b.comp)]
  }

  ghost predicate InPlace(b: Books, i: nat, f: nat) { i < 9 && f in Places(b)[i] }

  /** What partition means for one frame: it is in one place and in no other. */
  lemma {:induction false} ExactlyOnePlace(b: Books, n: nat, f: nat)
    requires b.Partition(n)
    ensures f < n <==> exists i :: InPlace(b, i, f)
    ensures forall i, j :: InPlace(b, i, f) && InPlace(b, j, f) ==> i == j
  {
    var p := Places(b);
    assert b.Count(f) == p[0][f] + p[1][f] + p[2][f] + p[3][f] + p[4][f] + p[5][f] + p[6][f] + p[7][f] + p[8][f];
    if f < n && forall i: nat :: !InPlace(b, i, f) {
      assert forall i: nat :: i < 9 && !InPlace(b, i, f) ==> p[i][f] == 0;
    }
  }

  /** A frame outside the free stack leaves room on it. */
  lemma {:induction false} FreeStackBound(b: Books, n: nat, f: nat)
    requires b.Partition(n)
    ensures |b.free| + |b.held| + |b.inHand| <= n
    ensures f in b.held || f in b.inHand || f in multiset(b.comp) ==> |b.free| < n
  {
    var out := multiset(b.free) + b.held + b.inHand + multiset(b.comp);
    assert out <= Identity(n) by {
      forall g: nat
        ensures out[g] <= Identity(n)[g]
      {
        IdentityCount(n, g);
        assert out[g] <= b.Count(g);
      }
    }
    SubBagSize(out, Identity(n));
  }

  ghost function Identity(n: nat): (bag: multiset<nat>)
    ensures |bag| == n
  {
    multiset(seq(n, i => i))
  }

  lemma {:induction false} SubBagSize(a: multiset<nat>, b: multiset<nat>)
    requires a <= b
    ensures |a| <= |b|
  {
    assert b == a + (b - a);
  }

  // ---- When a further packet can be received ----

  /** Frames that can reach the application without another refill. */
  ghost function Credit(b: Books): nat { |b.fill| + |b.kernelRx| + |b.rx| }

  /** `moves` can be made one after the other from `l`. */
  ghost predicate Follows(l: Line, moves: seq<Move>)
    decreases |moves|
  {
    moves == [] || (Allowed(l, moves[0]) && Follows(Next(l, moves[0]), moves[1..]))
  }

  /** They bring in a packet. */
  ghost predicate Receives(l: Line, moves: seq<Move>) { Follows(l, moves) && Received(moves) > 0 }

  /** And the fill ring is not refilled. */
  ghost predicate ReceivesUnfilled(l: Line, moves: seq<Move>) {
    Receives(l, moves) && forall i :: 0 <= i < |moves| ==> !moves[i].PublishFill?
  }

  lemma {:induction false} ReceivedConcat(a: seq<Move>, b: seq<Move>)
    ensures Received(a + b) == Received(a) + Received(b)
  {
    if b == [] {
      assert a + b == a;
    } else {
      var k := |b| - 1;
      ReceivedConcat(a, b[..k]);
      assert (a + b)[..|a| + k] == a + b[..k];
    }
  }

  lemma {:induction false} ReceivedFirst(m: Move, moves: seq<Move>)
    ensures Received([m] + moves) == (if m.Receive? then m.count else 0) + Received(moves)
  {
    ReceivedConcat([m], moves);
    assert [m][..0] == [];
  }

  lemma {:induction false} GivenUpLast(moves: seq<Move>, m: Move)
    ensures (moves + [m])[..|moves|] == moves
    ensures Received(moves + [m]) == Received(moves) + if m.Receive? then m.count else 0
    ensures m.HandOut? || m.Transmit? || m.Return? || GivenUp(moves + [m]) == GivenUp(moves)
  {
  }

  /** Without credit no packet comes in, if no call is under way that may refill or none does. */
  lemma {:induction false} NoCreditStuck(l: Line, moves: seq<Move>)
    requires l.credit == Credit(l.books) == 0 && Follows(l, moves)
    requires l.due <= 0 || forall i :: 0 <= i < |moves| ==> !moves[i].PublishFill?
    ensures Received(moves) == 0
    decreases |moves|
  {
    if moves != [] {
      var m, rest := moves[0], moves[1..];
      NoCreditStuck(Next(l, m), rest);
      ReceivedFirst(m, rest);
      assert moves == [m] + rest;
    }
  }

  lemma {:induction false} UnfilledFirst(l: Line, m: Move, moves: seq<Move>)
    requires Allowed(l, m) && !m.PublishFill? && ReceivesUnfilled(Next(l, m), moves)
    ensures ReceivesUnfilled(l, [m] + moves)
  {
    assert ([m] + moves)[1..] == moves;
    ReceivedFirst(m, moves);
  }

  lemma {:induction false} ReceiveNow(l: Line)
    requires l.books.rx != []
    ensures ReceivesUnfilled(l, [Receive(1)])
  {
    ReceivedFirst(Receive(1), []);
    assert [Receive(1)] + [] == [Receive(1)];
    assert Follows(Next(l, Receive(1)), [Receive(1)][1..]);
  }

  lemma {:induction false} DeliverThenReceive(l: Line, f: nat) returns (moves: seq<Move>)
    requires f in l.books.kernelRx
    ensures ReceivesUnfilled(l, moves)
  {
    ReceiveNow(Next(l, KernelDelivers(f)));
    UnfilledFirst(l, KernelDelivers(f), [Receive(1)]);
    moves := [KernelDelivers(f)] + [Receive(1)];
  }

  /** With credit, kernel steps alone bring a packet in. */
  lemma {:induction false} FromCredit(l: Line) returns (moves: seq<Move>)
    requires Credit(l.books) > 0
    ensures ReceivesUnfilled(l, moves)
  {
    var b := l.books;
    if b.rx != [] {
      ReceiveNow(l);
      moves := [Receive(1)];
    } else if b.kernelRx != multiset{} {
      var f :| f in b.kernelRx;
      moves := DeliverThenReceive(l, f);
    } else {
      var rest := DeliverThenReceive(Next(l, KernelTakesFill), b.fill[0]);
      UnfilledFirst(l, KernelTakesFill, rest);
      moves := [KernelTakesFill] + rest;
    }
  }

  /**
   Between calls, a further packet can ever be received if and only if there is credit: a frame on the
   fill ring, with the kernel, or on the RX ring. Free frames do not help, and neither does any frame
   the application gives up.
  */
  lemma {:induction false} FurtherPacketExactly(l: Line)
    requires l.due == 0 && l.credit == Credit(l.books)
    ensures (exists moves :: Receives(l, moves)) <==> l.credit > 0
  {
    if l.credit > 0 {
      var moves := FromCredit(l);
      assert Receives(l, moves);
    } else {
      forall moves: seq<Move> | Follows(l, moves)
        ensures Received(moves) == 0
      {
        NoCreditStuck(l, moves);
      }
    }
  }

  /** During a call that may still refill, the same holds of the packets that come in without a refill. */
  lemma {:induction false} UnfilledPacketExactly(l: Line)
    requires l.credit == Credit(l.books)
    ensures (exists moves :: ReceivesUnfilled(l, moves)) <==> l.credit > 0
  {
    if l.credit > 0 {
      var moves := FromCredit(l);
    } else {
      forall moves: seq<Move> | Follows(l, moves) && forall i :: 0 <= i < |moves| ==> !moves[i].PublishFill?
        ensures Received(moves) == 0
      {
        NoCreditStuck(l, moves);
      }
    }
  }

  /** A socket that was not filled at the start never receives anything. */
  lemma {:induction false} NoPrefillNoPacket(n: nat, moves: seq<Move>, l: Line)
    requires Reachable(n, 0, moves, l)
    ensures l.received == 0 && l.credit == 0
  {
    var trace :| Leads(trace, moves, n, 0, l);
    NeverFilled(n, trace, moves, |moves|);
  }

  lemma {:induction false} NeverFilled(n: nat, trace: seq<Line>, moves: seq<Move>, k: nat)
    requires IsRun(n, 0, trace, moves) && k <= |moves|
    ensures trace[k].received == trace[k].credit == trace[k].due == Credit(trace[k].books) == 0
  {
    if k > 0 {
      NeverFilled(n, trace, moves, k - 1);
      assert StepAt(trace, moves, k - 1);
      StepBalances(trace[k - 1], moves[k - 1]);
    }
  }

  /** Frames are free or held, and nowhere else. */
  ghost predicate AtRest(b: Books) {
    && b.fill == [] && b.kernelRx == multiset{} && b.rx == [] && b.inHand == multiset{}
    && b.tx == [] && b.kernelTx == multiset{} && b.comp == []
  }

  /** That bound is reached by every socket that was filled at the start: without giving a frame up, it can receive a packet for each. */
  lemma {:induction false} ReceptionBoundTight(n: nat, prefill: nat, k: nat) returns (moves: seq<Move>, l: Line)
    requires k <= n && prefill > 0
    ensures Reachable(n, prefill, moves, l) && Received(moves) == k && GivenUp(moves) == 0
    ensures |l.books.free| == n - k && AtRest(l.books) && l.due > 0
  {
    if k == 0 {
      ReachOpening(n, prefill);
      moves, l := [], Opening(n, prefill);
    } else {
      var before, start := ReceptionBoundTight(n, prefill, k - 1);
      moves, l := OneRound(n, prefill, before, start);
    }
  }

  /** One packet through a socket at rest: pop, publish, take, deliver, receive. */
  lemma {:induction false} OneRound(n: nat, prefill: nat, moves: seq<Move>, l: Line) returns (moves': seq<Move>, l': Line)
    requires Reachable(n, prefill, moves, l) && l.books.free != [] && AtRest(l.books) && l.due > 0
    ensures Reachable(n, prefill, moves', l') && Received(moves') == Received(moves) + 1 && GivenUp(moves') == GivenUp(moves)
    ensures |l'.books.free| == |l.books.free| - 1 && AtRest(l'.books) && l'.due > 0
  {
    var b := l.books;
    var f := b.free[|b.free| - 1];
    var popped := b.(free := b.free[..|b.free| - 1]);
    PopEmpty(b);
    var m1, l1 := RoundMove(n, prefill, moves, l, Pop, popped.(inHand := multiset{f}));
    PublishOnly(popped, f);
    var m2, l2 := RoundMove(n, prefill, m1, l1, PublishFill([f]), popped.(fill := [f]));
    TakeOnly(popped, f);
    var m3, l3 := RoundMove(n, prefill, m2, l2, KernelTakesFill, popped.(kernelRx := multiset{f}));
    DeliverOnly(popped, f);
    var m4, l4 := RoundMove(n, prefill, m3, l3, KernelDelivers(f), popped.(rx := [f]));
    ReceiveOnly(popped, f);
    moves', l' := RoundMove(n, prefill, m4, l4, Receive(1), popped.(held := popped.held + multiset{f}));
  }

  lemma {:induction false} RoundMove(n: nat, prefill: nat, moves: seq<Move>, l: Line, m: Move, b: Books)
    returns (moves': seq<Move>, l': Line)
    requires Reachable(n, prefill, moves, l) && Allowed(l, m) && Apply(l.books, m) == b
    requires !m.HandOut? && !m.Transmit? && !m.Return? && !m.CallReturns?
    ensures Reachable(n, prefill, moves', l') && l'.books == b && GivenUp(moves') == GivenUp(moves)
    ensures Received(moves') == Received(moves) + if m.Receive? then m.count else 0
    ensures l'.due == if m.Receive? then m.count else if m.PublishFill? then 0 else l.due
  {
    ReachStep(n, prefill, moves, l, m);
    GivenUpLast(moves, m);
    moves', l' := moves + [m], Next(l, m);
  }

  lemma {:induction false} PopEmpty(b: Books)
    requires b.free != [] && b.inHand == multiset{}
    ensures Apply(b, Pop) == b.(free := b.free[..|b.free| - 1], inHand := multiset{b.free[|b.free| - 1]})
  {
  }

  lemma {:induction false} PublishOnly(b: Books, f: nat)
    requires b.inHand == multiset{} && b.fill == []
    ensures Enabled(b.(inHand := multiset{f}), PublishFill([f]))
    ensures Apply(b.(inHand := multiset{f}), PublishFill([f])) == b.(fill := [f])
  {
    assert multiset{f} - multiset([f]) == multiset{};
  }

  lemma {:induction false} TakeOnly(b: Books, f: nat)
    requires b.kernelRx == multiset{} && b.fill == []
    ensures Apply(b.(fill := [f]), KernelTakesFill) == b.(kernelRx := multiset{f})
  {
  }

  lemma {:induction false} DeliverOnly(b: Books, f: nat)
    requires b.kernelRx == multiset{} && b.rx == []
    ensures Apply(b.(kernelRx := multiset{f}), KernelDelivers(f)) == b.(rx := [f])
  {
    assert multiset{f} - multiset{f} == multiset{};
  }

  lemma {:induction false} ReceiveOnly(b: Books, f: nat)
    requires b.rx == []
    ensures Apply(b.(rx := [f]), Receive(1)) == b.(held := b.held + multiset{f})
  {
    assert [f][..1] == [f] && [f][1..] == [];
  }
}
