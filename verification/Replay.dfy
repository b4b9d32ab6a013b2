/**
The anti-replay window: a base counter and a 64-bit bitmap. `ReplayWindow` is
the bit-level code; `Window` is what it represents, the base and the set of
counters accepted since the last slide. A counter 64 or more past the base slides
the window, and a slide starts an empty bitmap instead of shifting the old one.
Calls are sequential here.
*/
module Replay {
  import opened Machine

  const WINDOW: nat := 64

  // ---- The represented window ----

  datatype Window = Window(base: nat, seen: set<nat>)

  const Fresh := Window(0, {})

  predicate Slides(w: Window, c: nat) { c >= w.base + WINDOW }

  predicate Accepts(w: Window, c: nat) { c >= w.base && (Slides(w, c) || c !in w.seen) }

  function Step(w: Window, c: nat): Window {
    if c < w.base then w
    else if Slides(w, c) then Window(c - (WINDOW - 1), {c})
    else w.(seen := w.seen + {c})
  }

  function Run(cs: seq<nat>): Window {
    if cs == [] then Fresh else Step(Run(cs[..|cs| - 1]), cs[|cs| - 1])
  }

  class ReplayWindow {
    var base: u64
    var bitmap: u64
    ghost var seen: set<nat>

    ghost predicate Valid()
      reads this
    {
      && (forall c :: c in seen ==> base <= c < base + WINDOW)
      && (forall i :: 0 <= i < WINDOW ==> (Bit(bitmap, i) <==> base + i in seen))
    }

    ghost function View(): Window
      reads this
    {
      Window(base, seen)
    }

    constructor ()
      ensures Valid() && View() == Fresh
    {
      base, bitmap, seen := 0, 0, {};
      forall i: nat
        ensures !Bit(0, i)
      {
        ZeroHasNoBit(i);
      }
    }

    /**
     The bitmap decides exactly as the represented window does. `base + 64` is a
     64-bit sum; where it overflows, a build without overflow checks takes the
     slide branch for every counter from the base on, and the base can go down.
    */
    method CheckReplay(counter: u64) returns (ok: bool)
      requires Valid()
      modifies this
      ensures Valid()
      ensures old(base) + WINDOW < U64_MODULUS ==> ok == Accepts(old(View()), counter) && View() == Step(old(View()), counter)
      ensures old(base) + WINDOW >= U64_MODULUS && counter >= old(base) ==> ok && View() == Window(counter - 63, {counter})
      ensures counter < old(base) ==> !ok && View() == old(View())
      ensures base < old(base) <==> old(base) + WINDOW >= U64_MODULUS && old(base) <= counter < old(base) + 63
    {
      if counter < base {
        return false;
      }
      if counter >= (base + 64) % U64_MODULUS {
        var newBase := if counter >= 63 then counter - 63 else 0;
        Slide(newBase, counter - newBase);
        return true;
      }
      ok := Mark(counter - base);
    }

    method Slide(newBase: u64, at: nat)
      requires at < WINDOW
      modifies this
      ensures Valid() && View() == Window(newBase, {newBase + at})
    {
      SingleBit(at);
      base, bitmap, seen := newBase, Pow2(at), {newBase + at};
    }

    /** `fetch_or` of one bit; true when the bit was clear. */
    method Mark(at: nat) returns (fresh': bool)
      requires Valid() && at < WINDOW
      modifies this`bitmap, this`seen
      ensures Valid() && seen == old(seen) + {base + at}
      ensures fresh' <==> base + at !in old(seen)
    {
      SingleBit(at);
      var bit := Pow2(at);
      var oldBitmap := bitmap;
      Pow2Is64Bits();
      OrBound(oldBitmap, bit, 64);
      forall i: nat
        ensures Bit(BitOr(oldBitmap, bit), i) <==> Bit(oldBitmap, i) || i == at
      {
        OrBit(oldBitmap, bit, i);
      }
      bitmap := BitOr(oldBitmap, bit);
      seen := seen + {base + at};
      AndPowerTestsBit(oldBitmap, at);
      fresh' := BitAnd(oldBitmap, bit) == 0;
    }
  }

  lemma {:induction false} SingleBit(at: nat)
    requires at < WINDOW
    ensures Pow2(at) < U64_MODULUS
    ensures forall i: nat :: Bit(Pow2(at), i) <==> i == at
  {
    Pow2Is64Bits();
    Pow2Monotone(at + 1, 64);
    forall i: nat
      ensures Bit(Pow2(at), i) <==> i == at
    {
      PowerBit(at, i);
    }
  }

  // ---- Runs ----

  ghost predicate Accepted(cs: seq<nat>, i: nat) { i < |cs| && Accepts(Run(cs[..i]), cs[i]) }

  ghost predicate SlideAt(cs: seq<nat>, i: nat) { i < |cs| && Slides(Run(cs[..i]), cs[i]) }

  /** The bit-level window answers a whole sequence as the represented one does, as long as no counter is `u64::MAX`. */
  method RunWindow(cs: seq<u64>) returns (answers: seq<bool>)
    requires forall i :: 0 <= i < |cs| ==> cs[i] < U64_MODULUS - 1
    ensures |answers| == |cs| && forall i :: 0 <= i < |cs| ==> (answers[i] <==> Accepted(cs, i))
  {
    var w := new ReplayWindow();
    answers := [];
    for k := 0 to |cs|
      invariant w.Valid() && fresh(w) && w.View() == Run(cs[..k])
      invariant |answers| == k && forall i :: 0 <= i < k ==> (answers[i] <==> Accepted(cs, i))
    {
      BaseStaysClear(cs[..k], U64_MODULUS - 1);
      assert cs[..k + 1][..k] == cs[..k];
      var ok := w.CheckReplay(cs[k]);
      answers := answers + [ok];
    }
    assert cs[..|cs|] == cs;
  }

  /** After the last counter of all has been accepted, a lower one is accepted too and takes the base back down. */
  method LastCounterLowersBase() returns (before: u64, after: u64)
    ensures after < before
  {
    var w := new ReplayWindow();
    var ok := w.CheckReplay(U64_MODULUS - 1);
    before := w.base;
    ok := w.CheckReplay(before);
    after := w.base;
  }

  /** Below `u64::MAX` the overflow of `base + 64` is out of reach. */
  lemma {:induction false} BaseStaysClear(cs: seq<nat>, bound: nat)
    requires bound >= WINDOW && forall i :: 0 <= i < |cs| ==> cs[i] < bound
    ensures Run(cs).base + WINDOW <= bound
  {
    if cs != [] { BaseStaysClear(cs[..|cs| - 1], bound); }
  }

  lemma {:induction false} RunStep(cs: seq<nat>, k: nat)
    requires k < |cs|
    ensures Run(cs[..k + 1]) == Step(Run(cs[..k]), cs[k])
  {
    assert cs[..k + 1][..k] == cs[..k];
  }

  /** What was decided about a counter does not depend on what came after it. */
  lemma {:induction false} PrefixDecides(cs: seq<nat>, n: nat, i: nat)
    requires i < n <= |cs|
    ensures Accepted(cs[..n], i) == Accepted(cs, i) && SlideAt(cs[..n], i) == SlideAt(cs, i)
  {
    assert cs[..n][..i] == cs[..i];
  }

  /** The window stays inside its bounds. */
  lemma {:induction false} SeenInWindow(cs: seq<nat>, c: nat)
    requires c in Run(cs).seen
    ensures Run(cs).base <= c < Run(cs).base + WINDOW
  {
    if cs != [] {
      var w := Run(cs[..|cs| - 1]);
      if c in w.seen { SeenInWindow(cs[..|cs| - 1], c); }
    }
  }

  /** The base never decreases; a slide raises it and nothing else changes it. */
  lemma {:induction false} BaseMonotone(cs: seq<nat>, i: nat, j: nat)
    requires i <= j <= |cs|
    ensures Run(cs[..i]).base <= Run(cs[..j]).base
    ensures (exists k: nat :: i <= k < j && SlideAt(cs, k)) <==> Run(cs[..i]).base < Run(cs[..j]).base
    decreases j
  {
    if i < j {
      BaseMonotone(cs, i, j - 1);
      RunStep(cs, j - 1);
      if exists k: nat :: i <= k < j - 1 && SlideAt(cs, k) {
        var k: nat :| i <= k < j - 1 && SlideAt(cs, k);
        assert i <= k < j && SlideAt(cs, k);
      }
      if SlideAt(cs, j - 1) {
        assert Run(cs[..j - 1]).base < Run(cs[..j]).base;
      }
    }
  }

  ghost predicate AcceptedSinceSlide(cs: seq<nat>, c: nat, i: nat) {
    Accepted(cs, i) && cs[i] == c && forall k: nat :: i < k < |cs| ==> !SlideAt(cs, k)
  }

  /** The represented set is the counters accepted since the last slide, that slide included. */
  lemma {:induction false} SeenIsSinceSlide(cs: seq<nat>, c: nat)
    ensures c in Run(cs).seen <==> exists i: nat :: AcceptedSinceSlide(cs, c, i)
  {
    if cs != [] {
      var n := |cs| - 1;
      var init := cs[..n];
      SeenIsSinceSlide(init, c);
      forall i: nat | i < n
        ensures Accepted(init, i) == Accepted(cs, i) && SlideAt(init, i) == SlideAt(cs, i)
      {
        PrefixDecides(cs, n, i);
      }
      if SlideAt(cs, n) {
        assert c == cs[n] ==> AcceptedSinceSlide(cs, c, n);
      } else {
        forall i: nat | i < n
          ensures AcceptedSinceSlide(init, c, i) == AcceptedSinceSlide(cs, c, i)
        {
        }
        if AcceptedSinceSlide(cs, c, n) || (c == cs[n] && Accepted(cs, n)) {
          assert AcceptedSinceSlide(cs, c, n);
        }
      }
    }
  }

  /** Exactly when a counter is rejected: it is below the base, or was accepted since the last slide. */
  lemma {:induction false} RejectionExact(cs: seq<nat>, c: nat)
    ensures !Accepts(Run(cs), c) <==> c < Run(cs).base || exists i: nat :: AcceptedSinceSlide(cs, c, i)
  {
    SeenIsSinceSlide(cs, c);
    if c in Run(cs).seen { SeenInWindow(cs, c); }
  }

  /**
   The replay law, and exactly how far it holds: a counter once accepted is
   accepted again if and only if a slide came in between that left it inside the
   window.
  */
  lemma {:induction false} ReplayExact(cs: seq<nat>, i: nat)
    requires Accepted(cs, i) && forall k: nat :: i < k < |cs| && cs[k] == cs[i] ==> !Accepted(cs, k)
    ensures Accepts(Run(cs), cs[i]) <==> cs[i] >= Run(cs).base && exists k: nat :: i < k < |cs| && SlideAt(cs, k)
  {
    RejectionExact(cs, cs[i]);
    if forall k: nat :: i < k < |cs| ==> !SlideAt(cs, k) {
      assert AcceptedSinceSlide(cs, cs[i], i);
    } else {
      var k: nat :| i < k < |cs| && SlideAt(cs, k);
      forall j: nat
        ensures !AcceptedSinceSlide(cs, cs[i], j)
      {
        assert j <= i ==> j < k;
      }
    }
  }

  /** Two acceptances of one counter have a slide strictly between them. */
  lemma {:induction false} SecondAcceptanceNeedsSlide(cs: seq<nat>, i: nat, j: nat)
    requires i < j && Accepted(cs, i) && Accepted(cs, j) && cs[i] == cs[j]
    ensures exists k: nat :: i < k < j && SlideAt(cs, k)
  {
    var past := cs[..j];
    RejectionExact(past, cs[j]);
    PrefixDecides(cs, j, i);
    assert !AcceptedSinceSlide(past, cs[j], i);
    var k: nat :| i < k < j && SlideAt(past, k);
    PrefixDecides(cs, j, k);
  }

  lemma {:induction false} BoundedByPast(cs: seq<nat>, c: nat)
    requires forall i :: 0 <= i < |cs| ==> cs[i] < c
    ensures Run(cs).base <= c && c !in Run(cs).seen
  {
    if cs != [] { BoundedByPast(cs[..|cs| - 1], c); }
  }

  /** A strictly increasing stream is accepted in full, whatever gaps it has. */
  lemma {:induction false} IncreasingStreamAccepted(cs: seq<nat>, i: nat)
    requires forall j, k :: 0 <= j < k < |cs| ==> cs[j] < cs[k]
    requires i < |cs|
    ensures Accepted(cs, i)
  {
    BoundedByPast(cs[..i], cs[i]);
  }

  /** How often counter `c` was accepted. */
  ghost function Acceptances(cs: seq<nat>, c: nat): nat {
    if cs == [] then 0
    else Acceptances(cs[..|cs| - 1], c) + if cs[|cs| - 1] == c && Accepted(cs, |cs| - 1) then 1 else 0
  }

  /** The lowest base a window holding `c` can have. */
  function Lowest(c: nat): nat { if c >= WINDOW - 1 then c - (WINDOW - 1) else 0 }

  /** Each acceptance of `c` after the first costs a rise of the base, which `c` cannot survive past itself. */
  lemma {:induction false} AcceptancesBounded(cs: seq<nat>, c: nat)
    ensures var w := Run(cs);
      Acceptances(cs, c) > 0 ==>
        w.base >= Lowest(c) && Acceptances(cs, c) <= Min(w.base, c + 1) - Lowest(c) + (if c in w.seen then 1 else 0)
  {
    if cs != [] {
      AcceptancesBounded(cs[..|cs| - 1], c);
      if c in Run(cs[..|cs| - 1]).seen { SeenInWindow(cs[..|cs| - 1], c); }
    }
  }

  /** No counter is accepted more than `min(c, 63) + 1` times over any run. */
  lemma {:induction false} AcceptanceLimit(cs: seq<nat>, c: nat)
    ensures Acceptances(cs, c) <= Min(c, WINDOW - 1) + 1
  {
    AcceptancesBounded(cs, c);
    if c in Run(cs).seen { SeenInWindow(cs, c); }
  }

  /** Alternates `c` with counters that each slide the window by one. */
  ghost function Alternating(c: nat, slides: nat): seq<nat> {
    if slides == 0 then [c] else Alternating(c, slides - 1) + [Lowest(c) + WINDOW - 1 + slides, c]
  }

  lemma {:induction false} AlternatingRun(c: nat, slides: nat)
    requires Lowest(c) + slides <= c
    ensures Run(Alternating(c, slides)).base == Lowest(c) + slides
    ensures Acceptances(Alternating(c, slides), c) == slides + 1
  {
    var cs := Alternating(c, slides);
    if slides == 0 {
      assert cs[..0] == [];
      assert cs[|cs| - 1] == c;
    } else {
      AlternatingRun(c, slides - 1);
      var past := Alternating(c, slides - 1);
      var slid := past + [Lowest(c) + WINDOW - 1 + slides];
      assert cs == slid + [c];
      assert cs[..|cs| - 1] == slid && slid[..|slid| - 1] == past;
    }
  }

  ghost predicate Under(cs: seq<nat>, bound: nat) { forall i :: 0 <= i < |cs| ==> cs[i] < bound }

  /** The slides that `c` can outlive among counters below `bound`. */
  function Slack(c: nat, bound: nat): nat
    requires c < bound
  {
    Min(Min(c, WINDOW - 1), bound - 1 - c)
  }

  /** Among counters below `bound` the last ones are accepted less often: there is no room left to slide past them. */
  lemma {:induction false} AcceptanceLimitUnder(cs: seq<nat>, c: nat, bound: nat)
    requires 2 * WINDOW - 1 <= bound && c < bound && Under(cs, bound)
    ensures Acceptances(cs, c) <= Slack(c, bound) + 1
  {
    AcceptancesBounded(cs, c);
    BaseStaysClear(cs, bound);
    if c in Run(cs).seen { SeenInWindow(cs, c); }
  }

  lemma {:induction false} AlternatingUnder(c: nat, slides: nat, bound: nat)
    requires c < bound && Lowest(c) + WINDOW - 1 + slides < bound
    ensures Under(Alternating(c, slides), bound)
  {
    if slides > 0 { AlternatingUnder(c, slides - 1, bound); }
  }

  /** That limit is reached: "accepted at most once" fails for every counter but the first and the last. */
  lemma {:induction false} AcceptanceLimitTight(c: nat, bound: nat)
    requires 2 * WINDOW - 1 <= bound && c < bound
    ensures Under(Alternating(c, Slack(c, bound)), bound)
    ensures Acceptances(Alternating(c, Slack(c, bound)), c) == Slack(c, bound) + 1
  {
    AlternatingUnder(c, Slack(c, bound), bound);
    AlternatingRun(c, Slack(c, bound));
  }

  /** Counters below `u64::MAX`, which the bit-level window answers alike, reach the general limit exactly up to 63 short of the last. */
  lemma {:induction false} LimitReachedExactly(c: u64)
    requires c < U64_MODULUS - 1
    ensures (exists cs :: Under(cs, U64_MODULUS - 1) && Acceptances(cs, c) == Min(c, WINDOW - 1) + 1) <==> c + WINDOW < U64_MODULUS
  {
    AcceptanceLimitTight(c, U64_MODULUS - 1);
    if cs :| Under(cs, U64_MODULUS - 1) && Acceptances(cs, c) == Min(c, WINDOW - 1) + 1 {
      AcceptanceLimitUnder(cs, c, U64_MODULUS - 1);
    }
  }
}
