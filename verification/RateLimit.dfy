/**
The per-session rate limiter: a packet bucket and a byte bucket filled from one
timestamp. Time is in microseconds and is a parameter; calls are sequential.
*/
module RateLimit {
  import opened Machine

  const SECOND: nat := 1_000_000
  /** A refill happens only after this many microseconds. */
  const TICK: nat := 1000

  datatype Limits = Limits(pps: u32, bps: u64)

  /** Tokens in both buckets and the time of the last refill. */
  datatype Buckets = Buckets(packets: nat, bytes: nat, last: nat)

  datatype Request = Request(now: u64, bytes: u64)

  // ---- One bucket ----

  /** The burst size: two seconds' worth, saturating at `u64::MAX`. */
  function Cap(rate: u64): u64 { Min(2 * rate, U64_MODULUS - 1) }

  /** `rate` times `elapsed`, by repeated addition. */
  function Product(rate: nat, elapsed: nat): nat {
    if elapsed == 0 then 0 else rate + Product(rate, elapsed - 1)
  }

  lemma {:induction false} ProductIsTimes(rate: nat, elapsed: nat)
    ensures Product(rate, elapsed) == elapsed * rate
  {
    if elapsed > 0 {
      ProductIsTimes(rate, elapsed - 1);
      assert elapsed * rate == (elapsed - 1) * rate + rate;
    }
  }

  /** Tokens earned, computed in 128 bits and then truncated to 64. */
  function Credit(rate: u64, elapsed: nat): u64 { Product(rate, elapsed) / SECOND % U64_MODULUS }

  function Fill(tokens: nat, rate: u64, elapsed: nat): nat {
    if rate == 0 then tokens
    else Min(Min(tokens + Credit(rate, elapsed), U64_MODULUS - 1), Cap(rate))
  }

  // ---- The limiter as a function ----

  function Created(l: Limits, now: nat): Buckets { Buckets(Cap(l.pps), Cap(l.bps), now) }

  function Refill(l: Limits, b: Buckets, now: nat): Buckets {
    if now < b.last + TICK then b
    else Buckets(Fill(b.packets, l.pps, now - b.last), Fill(b.bytes, l.bps, now - b.last), now)
  }

  predicate Allows(l: Limits, b: Buckets, r: Request) {
    var b' := Refill(l, b, r.now);
    (l.pps == 0 || b'.packets > 0) && (l.bps == 0 || b'.bytes >= r.bytes)
  }

  function Decide(l: Limits, b: Buckets, r: Request): Buckets {
    if l.pps == 0 && l.bps == 0 then b
    else
      var b' := Refill(l, b, r.now);
      if !Allows(l, b, r) then b'
      else b'.(packets := if l.pps > 0 then b'.packets - 1 else b'.packets,
               bytes := if l.bps > 0 then b'.bytes - r.bytes else b'.bytes)
  }

  class Limiter {
    const limits: Limits
    var packetTokens: u64
    var byteTokens: u64
    var lastRefill: u64

    ghost function View(): Buckets
      reads this
    {
      Buckets(packetTokens, byteTokens, lastRefill)
    }

    /** No bucket holds more than its burst. */
    ghost predicate Valid()
      reads this
    {
      packetTokens <= Cap(limits.pps) && byteTokens <= Cap(limits.bps)
    }

    constructor (limits: Limits, now: u64)
      ensures Valid() && this.limits == limits && View() == Created(limits, now)
    {
      this.limits := limits;
      packetTokens := limits.pps * 2;
      byteTokens := Min(limits.bps * 2, U64_MODULUS - 1);
      lastRefill := now;
    }

    method RefillRateTokens(now: u64)
      requires Valid()
      modifies this
      ensures Valid() && View() == Refill(limits, old(View()), now)
    {
      var elapsed := if now >= lastRefill then now - lastRefill else 0;
      if elapsed < 1000 {
        return;
      }
      lastRefill := now;
      ProductIsTimes(limits.pps, elapsed);
      ProductIsTimes(limits.bps, elapsed);
      if limits.pps > 0 {
        var addPackets := elapsed * limits.pps / 1_000_000 % U64_MODULUS;
        packetTokens := Min(Min(packetTokens + addPackets, U64_MODULUS - 1), limits.pps * 2);
      }
      if limits.bps > 0 {
        var addBytes := elapsed * limits.bps / 1_000_000 % U64_MODULUS;
        byteTokens := Min(Min(byteTokens + addBytes, U64_MODULUS - 1), Cap(limits.bps));
      }
    }

    /** Takes from both buckets or from neither; a refused call keeps what the refill added. */
    method CheckRateLimit(r: Request) returns (ok: bool)
      requires Valid()
      modifies this
      ensures Valid()
      ensures ok == Allows(limits, old(View()), r)
      ensures View() == Decide(limits, old(View()), r)
      ensures !ok ==> View() == Refill(limits, old(View()), r.now)
    {
      if limits.pps == 0 && limits.bps == 0 {
        return true;
      }
      RefillRateTokens(r.now);
      if limits.pps > 0 {
        if packetTokens == 0 {
          return false;
        }
        packetTokens := packetTokens - 1;
      }
      if limits.bps > 0 {
        if byteTokens < r.bytes {
          if limits.pps > 0 {
            packetTokens := packetTokens + 1;
          }
          return false;
        }
        byteTokens := byteTokens - r.bytes;
      }
      ok := true;
    }
  }

  // ---- One request in plain arithmetic ----

  /** A bucket after it was left alone for `elapsed` microseconds, a tick or more. */
  lemma {:induction false} FillExact(tokens: nat, rate: u64, elapsed: nat)
    requires rate > 0
    ensures Fill(tokens, rate, elapsed)
         == Min(Min(tokens + elapsed * rate / 1_000_000 % 0x1_0000_0000_0000_0000, 0xFFFF_FFFF_FFFF_FFFF), 2 * rate)
  {
    ProductIsTimes(rate, elapsed);
  }

  /**
   What a request finds, whether it is allowed, and what it leaves. Below a millisecond since the last
   refill it finds what was there. After that it finds what was there and what both rates earned since, up to two
   seconds' worth. The earned amount is truncated to 64 bits and the sum saturates there.
  */
  lemma {:induction false} DecisionExact(l: Limits, b: Buckets, r: Request)
    requires l.pps > 0 || l.bps > 0
    ensures var elapsed := r.now - b.last;
      var packets := if elapsed < 1000 || l.pps == 0 then b.packets
                     else Min(Min(b.packets + elapsed * l.pps / 1_000_000 % 0x1_0000_0000_0000_0000, 0xFFFF_FFFF_FFFF_FFFF), 2 * l.pps);
      var bytes := if elapsed < 1000 || l.bps == 0 then b.bytes
                   else Min(Min(b.bytes + elapsed * l.bps / 1_000_000 % 0x1_0000_0000_0000_0000, 0xFFFF_FFFF_FFFF_FFFF), 2 * l.bps);
      var allowed := (l.pps == 0 || packets >= 1) && (l.bps == 0 || bytes >= r.bytes);
      && (Allows(l, b, r) <==> allowed)
      && Decide(l, b, r) == Buckets(
           if allowed && l.pps > 0 then packets - 1 else packets,
           if allowed && l.bps > 0 then bytes - r.bytes else bytes,
           if elapsed < 1000 then b.last else r.now)
  {
    if r.now - b.last >= 1000 {
      if l.pps > 0 { FillExact(b.packets, l.pps, r.now - b.last); }
      if l.bps > 0 { FillExact(b.bytes, l.bps, r.now - b.last); }
    }
  }

  /** Left alone for two seconds or more, a bucket is full, if what it earned was not truncated. */
  lemma {:induction false} IdleRefills(tokens: nat, rate: u64, elapsed: nat)
    requires rate > 0 && elapsed >= 2_000_000 && elapsed * rate / 1_000_000 < U64_MODULUS
    ensures Fill(tokens, rate, elapsed) == 2 * rate
  {
    FillExact(tokens, rate, elapsed);
    MultiplyMonotone(2_000_000, elapsed, rate);
    FullAgain(tokens, rate, elapsed * rate);
  }

  lemma {:induction false} FullAgain(tokens: nat, rate: u64, product: nat)
    requires 2_000_000 * rate <= product && product / 1_000_000 < U64_MODULUS
    ensures Min(Min(tokens + product / 1_000_000 % U64_MODULUS, U64_MODULUS - 1), 2 * rate) == 2 * rate
  {
  }

  /** If it was truncated, an empty bucket can stay empty. */
  lemma {:induction false} TruncationStarves()
    ensures Fill(0, 0x8000_0000_0000_0000, 2_000_000) == 0
  {
    FillExact(0, 0x8000_0000_0000_0000, 2_000_000);
  }

  // ---- Runs ----

  /** The buckets before each request of a run and after the last. */
  ghost predicate IsRun(l: Limits, trace: seq<Buckets>, rs: seq<Request>) {
    && |trace| == |rs| + 1
    && forall i :: 0 <= i < |rs| ==> trace[i + 1] == Decide(l, trace[i], rs[i])
  }

  /** The clock does not go back, and from request `from` on it shows at least `start`. */
  ghost predicate Monotone(start: nat, rs: seq<Request>, from: nat) {
    && (forall i :: from <= i < |rs| ==> start <= rs[i].now)
    && (forall i, j :: 0 <= i < j < |rs| ==> rs[i].now <= rs[j].now)
  }

  /** Packets accepted from request `i` up to but not including request `j`. */
  ghost function Packets(l: Limits, trace: seq<Buckets>, rs: seq<Request>, i: nat, j: nat): nat
    requires i <= j <= |rs| && |trace| == |rs| + 1
  {
    if i == j then 0 else Packets(l, trace, rs, i, j - 1) + if Allows(l, trace[j - 1], rs[j - 1]) then 1 else 0
  }

  /** Bytes in those packets. */
  ghost function Bytes(l: Limits, trace: seq<Buckets>, rs: seq<Request>, i: nat, j: nat): nat
    requires i <= j <= |rs| && |trace| == |rs| + 1
  {
    if i == j then 0 else Bytes(l, trace, rs, i, j - 1) + if Allows(l, trace[j - 1], rs[j - 1]) then rs[j - 1].bytes else 0
  }

  lemma {:induction false} ProductAdds(rate: nat, a: nat, b: nat)
    ensures Product(rate, a + b) == Product(rate, a) + Product(rate, b)
    decreases b
  {
    if b > 0 { ProductAdds(rate, a, b - 1); }
  }

  /** What `rate` earns in `elapsed` microseconds, rounded down. */
  ghost function Earned(rate: nat, elapsed: nat): nat { Product(rate, elapsed) / SECOND }

  lemma FloorsAdd(x: nat, y: nat)
    ensures x / SECOND + y / SECOND <= (x + y) / SECOND
  {
  }

  lemma {:induction false} EarnedAdds(rate: nat, a: nat, b: nat)
    ensures Earned(rate, a) + Earned(rate, b) <= Earned(rate, a + b)
  {
    ProductAdds(rate, a, b);
    FloorsAdd(Product(rate, a), Product(rate, b));
  }

  lemma {:induction false} EarnedMonotone(rate: nat, a: nat, b: nat)
    requires a <= b
    ensures Earned(rate, a) <= Earned(rate, b)
  {
    EarnedAdds(rate, a, b - a);
  }

  /** One request: it spends at most what the refill leaves, which is at most the burst and at most what time has earned. */
  lemma StepSpends(l: Limits, b: Buckets, r: Request)
    ensures var b', ok := Decide(l, b, r), Allows(l, b, r);
      && (b'.last == b.last || (b.last <= b'.last == r.now))
      && (l.pps > 0 || l.bps > 0 ==> r.now < b'.last + TICK)
      && (l.pps > 0 ==> b'.packets + (if ok then 1 else 0) <= b.packets + Earned(l.pps, b'.last - b.last))
      && (l.bps > 0 ==> b'.bytes + (if ok then r.bytes else 0) <= b.bytes + Earned(l.bps, b'.last - b.last))
      && (b.packets <= Cap(l.pps) && l.pps > 0 ==> b'.packets + (if ok then 1 else 0) <= Cap(l.pps))
      && (b.bytes <= Cap(l.bps) && l.bps > 0 ==> b'.bytes + (if ok then r.bytes else 0) <= Cap(l.bps))
  {
  }

  /** The last refill lies in the run's time span. */
  lemma {:induction false} LastInSpan(l: Limits, trace: seq<Buckets>, rs: seq<Request>, i: nat, j: nat)
    requires IsRun(l, trace, rs) && i <= j <= |rs| && Monotone(trace[i].last, rs, i)
    ensures trace[i].last <= trace[j].last
    ensures trace[j].last == trace[i].last || (i < j && trace[j].last <= rs[j - 1].now)
    decreases j
  {
    if i < j {
      LastInSpan(l, trace, rs, i, j - 1);
      StepSpends(l, trace[j - 1], rs[j - 1]);
    }
  }

  /** The conserved quantity: tokens left plus packets accepted never exceed tokens at the start plus tokens earned. */
  lemma {:induction false} PacketPotential(l: Limits, trace: seq<Buckets>, rs: seq<Request>, i: nat, j: nat)
    requires l.pps > 0 && IsRun(l, trace, rs) && i <= j <= |rs| && Monotone(trace[i].last, rs, i)
    ensures trace[i].last <= trace[j].last
    ensures trace[j].packets + Packets(l, trace, rs, i, j) <= trace[i].packets + Earned(l.pps, trace[j].last - trace[i].last)
    decreases j
  {
    if i < j {
      var m, e := trace[j - 1], trace[j];
      LastInSpan(l, trace, rs, i, j);
      PacketPotential(l, trace, rs, i, j - 1);
      StepSpends(l, m, rs[j - 1]);
      EarnedAdds(l.pps, m.last - trace[i].last, e.last - m.last);
    }
  }

  /** The same for bytes. */
  lemma {:induction false} BytePotential(l: Limits, trace: seq<Buckets>, rs: seq<Request>, i: nat, j: nat)
    requires l.bps > 0 && IsRun(l, trace, rs) && i <= j <= |rs| && Monotone(trace[i].last, rs, i)
    ensures trace[i].last <= trace[j].last
    ensures trace[j].bytes + Bytes(l, trace, rs, i, j) <= trace[i].bytes + Earned(l.bps, trace[j].last - trace[i].last)
    decreases j
  {
    if i < j {
      var m, e := trace[j - 1], trace[j];
      LastInSpan(l, trace, rs, i, j);
      BytePotential(l, trace, rs, i, j - 1);
      StepSpends(l, m, rs[j - 1]);
      EarnedAdds(l.bps, m.last - trace[i].last, e.last - m.last);
    }
  }

  /** No bucket ever holds more than its burst. */
  lemma {:induction false} BucketsStayCapped(l: Limits, trace: seq<Buckets>, rs: seq<Request>, start: u64, k: nat)
    requires IsRun(l, trace, rs) && trace[0] == Created(l, start) && k <= |rs|
    ensures trace[k].packets <= Cap(l.pps) && trace[k].bytes <= Cap(l.bps)
  {
    if k > 0 {
      BucketsStayCapped(l, trace, rs, start, k - 1);
      StepSpends(l, trace[k - 1], rs[k - 1]);
    }
  }

  /** Since creation, at most a burst plus what the rate has earned is let through, in packets and in bytes. */
  lemma {:induction false} SinceCreationBound(l: Limits, trace: seq<Buckets>, rs: seq<Request>, start: u64)
    requires IsRun(l, trace, rs) && trace[0] == Created(l, start) && rs != [] && Monotone(start, rs, 0)
    ensures var elapsed := rs[|rs| - 1].now - start;
      && (l.pps > 0 ==> Packets(l, trace, rs, 0, |rs|) <= 2 * l.pps + Earned(l.pps, elapsed))
      && (l.bps > 0 ==> Bytes(l, trace, rs, 0, |rs|) <= 2 * l.bps + Earned(l.bps, elapsed))
  {
    LastInSpan(l, trace, rs, 0, |rs|);
    EarnedMonotone(l.pps, trace[|rs|].last - start, rs[|rs| - 1].now - start);
    EarnedMonotone(l.bps, trace[|rs|].last - start, rs[|rs| - 1].now - start);
    if l.pps > 0 { PacketPotential(l, trace, rs, 0, |rs|); }
    if l.bps > 0 { BytePotential(l, trace, rs, 0, |rs|); }
  }

  /**
   Over any window of a run, from its `i`-th request to its `j`-th, at most a
   burst plus what the rate earns in that time and one tick more is let through.
  */
  lemma {:induction false} WindowBound(l: Limits, trace: seq<Buckets>, rs: seq<Request>, start: u64, i: nat, j: nat)
    requires l.pps > 0 && IsRun(l, trace, rs) && trace[0] == Created(l, start) && Monotone(start, rs, 0) && i <= j < |rs|
    ensures Packets(l, trace, rs, i, j + 1) <= 2 * l.pps + Earned(l.pps, rs[j].now - rs[i].now + TICK - 1)
  {
    FirstOfWindow(l, trace, rs, start, i);
    PacketPotential(l, trace, rs, i + 1, j + 1);
    LastInSpan(l, trace, rs, i + 1, j + 1);
    PacketsSplit(l, trace, rs, i, i + 1, j + 1);
    EarnedMonotone(l.pps, trace[j + 1].last - trace[i + 1].last, rs[j].now - rs[i].now + TICK - 1);
  }

  /** The same for bytes. */
  lemma {:induction false} ByteWindowBound(l: Limits, trace: seq<Buckets>, rs: seq<Request>, start: u64, i: nat, j: nat)
    requires l.bps > 0 && IsRun(l, trace, rs) && trace[0] == Created(l, start) && Monotone(start, rs, 0) && i <= j < |rs|
    ensures Bytes(l, trace, rs, i, j + 1) <= 2 * l.bps + Earned(l.bps, rs[j].now - rs[i].now + TICK - 1)
  {
    FirstOfWindow(l, trace, rs, start, i);
    BytePotential(l, trace, rs, i + 1, j + 1);
    LastInSpan(l, trace, rs, i + 1, j + 1);
    BytesSplit(l, trace, rs, i, i + 1, j + 1);
    EarnedMonotone(l.bps, trace[j + 1].last - trace[i + 1].last, rs[j].now - rs[i].now + TICK - 1);
  }

  /** The first request of a window leaves at most a burst and a refill time less than a tick old. */
  lemma {:induction false} FirstOfWindow(l: Limits, trace: seq<Buckets>, rs: seq<Request>, start: u64, i: nat)
    requires (l.pps > 0 || l.bps > 0) && IsRun(l, trace, rs) && trace[0] == Created(l, start) && Monotone(start, rs, 0) && i < |rs|
    ensures l.pps > 0 ==> trace[i + 1].packets + Packets(l, trace, rs, i, i + 1) <= 2 * l.pps
    ensures l.bps > 0 ==> trace[i + 1].bytes + Bytes(l, trace, rs, i, i + 1) <= 2 * l.bps
    ensures trace[i + 1].last <= rs[i].now < trace[i + 1].last + TICK && Monotone(trace[i + 1].last, rs, i + 1)
  {
    BucketsStayCapped(l, trace, rs, start, i);
    StepSpends(l, trace[i], rs[i]);
    LastInSpan(l, trace, rs, 0, i + 1);
  }

  lemma {:induction false} PacketsSplit(l: Limits, trace: seq<Buckets>, rs: seq<Request>, i: nat, m: nat, j: nat)
    requires i <= m <= j <= |rs| && |trace| == |rs| + 1
    ensures Packets(l, trace, rs, i, j) == Packets(l, trace, rs, i, m) + Packets(l, trace, rs, m, j)
    decreases j
  {
    if m < j { PacketsSplit(l, trace, rs, i, m, j - 1); }
  }

  lemma {:induction false} BytesSplit(l: Limits, trace: seq<Buckets>, rs: seq<Request>, i: nat, m: nat, j: nat)
    requires i <= m <= j <= |rs| && |trace| == |rs| + 1
    ensures Bytes(l, trace, rs, i, j) == Bytes(l, trace, rs, i, m) + Bytes(l, trace, rs, m, j)
    decreases j
  {
    if m < j { BytesSplit(l, trace, rs, i, m, j - 1); }
  }

  /** The atomic code answers a whole run as the specification does. */
  method RunLimiter(l: Limits, start: u64, rs: seq<Request>) returns (answers: seq<bool>, trace: seq<Buckets>)
    ensures IsRun(l, trace, rs) && trace[0] == Created(l, start)
    ensures |answers| == |rs| && forall i :: 0 <= i < |rs| ==> answers[i] == Allows(l, trace[i], rs[i])
  {
    var limiter := new Limiter(l, start);
    answers, trace := [], [Buckets(limiter.packetTokens, limiter.byteTokens, limiter.lastRefill)];
    for k := 0 to |rs|
      invariant limiter.Valid() && fresh(limiter) && limiter.limits == l
      invariant |trace| == k + 1 && trace[0] == Created(l, start) && limiter.View() == trace[k]
      invariant forall i :: 0 <= i < k ==> trace[i + 1] == Decide(l, trace[i], rs[i])
      invariant |answers| == k && forall i :: 0 <= i < k ==> answers[i] == Allows(l, trace[i], rs[i])
    {
      var ok := limiter.CheckRateLimit(rs[k]);
      answers := answers + [ok];
      trace := trace + [Buckets(limiter.packetTokens, limiter.byteTokens, limiter.lastRefill)];
    }
  }

  /**
   The burst. Until a millisecond after its creation a limiter lets a request through if and only if, with it, at most
   two seconds' worth of packets and at most two seconds' worth of bytes have been let through.
  */
  lemma {:induction false} BurstExactly(l: Limits, trace: seq<Buckets>, rs: seq<Request>, start: u64, i: nat)
    requires IsRun(l, trace, rs) && trace[0] == Created(l, start) && i < |rs|
    requires forall k :: 0 <= k <= i ==> rs[k].now < start + 1000
    ensures Allows(l, trace[i], rs[i]) <==>
      && (l.pps == 0 || Packets(l, trace, rs, 0, i) + 1 <= 2 * l.pps)
      && (l.bps == 0 || Bytes(l, trace, rs, 0, i) + rs[i].bytes <= Min(2 * l.bps, U64_MODULUS - 1))
  {
    BurstLeft(l, trace, rs, start, i);
  }

  /** What is left of the burst before request `i`. */
  lemma {:induction false} BurstLeft(l: Limits, trace: seq<Buckets>, rs: seq<Request>, start: u64, i: nat)
    requires IsRun(l, trace, rs) && trace[0] == Created(l, start) && i <= |rs|
    requires forall k :: 0 <= k < i ==> rs[k].now < start + 1000
    ensures trace[i].last == start
    ensures l.pps > 0 ==> trace[i].packets == 2 * l.pps - Packets(l, trace, rs, 0, i)
    ensures l.bps > 0 ==> trace[i].bytes == Min(2 * l.bps, U64_MODULUS - 1) - Bytes(l, trace, rs, 0, i)
  {
    if i > 0 { BurstLeft(l, trace, rs, start, i - 1); }
  }

  /** So of one-packet requests under a packet limit alone, exactly the first `2 * pps` get through. */
  lemma {:induction false} BurstCount(l: Limits, trace: seq<Buckets>, rs: seq<Request>, start: u64, i: nat)
    requires IsRun(l, trace, rs) && trace[0] == Created(l, start) && i <= |rs| && l.pps > 0 && l.bps == 0
    requires forall k :: 0 <= k < i ==> rs[k].now < start + 1000
    ensures Packets(l, trace, rs, 0, i) == Min(i, 2 * l.pps)
  {
    if i > 0 {
      BurstCount(l, trace, rs, start, i - 1);
      BurstExactly(l, trace, rs, start, i - 1);
    }
  }

  // ---- The rate that is sustained ----

  /** The time of the last refill before request `i`, which depends only on when the requests came. */
  function LastRefill(start: nat, rs: seq<Request>, i: nat): nat
    requires i <= |rs|
  {
    if i == 0 then start
    else
      var last := LastRefill(start, rs, i - 1);
      if rs[i - 1].now >= last + TICK then rs[i - 1].now else last
  }

  /** Request `i` comes when a refill is due that earns a whole packet. */
  predicate Earns(rate: u64, start: nat, rs: seq<Request>, i: nat)
    requires i < |rs|
  {
    var last := LastRefill(start, rs, i);
    rs[i].now >= last + TICK && Credit(rate, rs[i].now - last) > 0
  }

  lemma {:induction false} RefillTimes(l: Limits, trace: seq<Buckets>, rs: seq<Request>, i: nat)
    requires (l.pps > 0 || l.bps > 0) && IsRun(l, trace, rs) && i <= |rs|
    ensures trace[i].last == LastRefill(trace[0].last, rs, i)
  {
    if i > 0 { RefillTimes(l, trace, rs, i - 1); }
  }

  /** A refill that rounds down to nothing still moves the timestamp, so the time it covers is lost. */
  lemma {:induction false} NothingEarned(l: Limits, trace: seq<Buckets>, rs: seq<Request>, k: nat)
    requires l.pps > 0 && IsRun(l, trace, rs) && k <= |rs| && trace[0].packets == 0
    requires forall i :: 0 <= i < k ==> !Earns(l.pps, trace[0].last, rs, i)
    ensures trace[k].packets == 0 && Packets(l, trace, rs, 0, k) == 0
  {
    if k > 0 {
      NothingEarned(l, trace, rs, k - 1);
      RefillTimes(l, trace, rs, k - 1);
      assert !Earns(l.pps, trace[0].last, rs, k - 1);
    }
  }

  lemma {:induction false} PacketsGrow(l: Limits, trace: seq<Buckets>, rs: seq<Request>, j: nat, k: nat)
    requires j <= k <= |rs| && |trace| == |rs| + 1
    ensures Packets(l, trace, rs, 0, j) <= Packets(l, trace, rs, 0, k)
    decreases k
  {
    if j < k { PacketsGrow(l, trace, rs, j, k - 1); }
  }

  /** The first refill that earns a packet lets one through. */
  lemma {:induction false} FirstEarned(l: Limits, trace: seq<Buckets>, rs: seq<Request>, i: nat)
    requires l.pps > 0 && l.bps == 0 && IsRun(l, trace, rs) && i < |rs| && trace[0].packets == 0
    requires Earns(l.pps, trace[0].last, rs, i)
    ensures Packets(l, trace, rs, 0, |rs|) > 0
  {
    if j :| 0 <= j < i && Earns(l.pps, trace[0].last, rs, j) {
      FirstEarned(l, trace, rs, j);
    } else {
      NothingEarned(l, trace, rs, i);
      RefillTimes(l, trace, rs, i);
      assert Allows(l, trace[i], rs[i]);
      PacketsGrow(l, trace, rs, i + 1, |rs|);
    }
  }

  /**
   Whether an empty packet bucket recovers depends on how often it is asked. In every run
   without a byte limit, a request is let through if and only if some refill earns a whole
   packet in the time since the refill before it. Otherwise the session stays blocked for ever,
   whatever its average rate.
  */
  lemma {:induction false} RecoveryExact(l: Limits, trace: seq<Buckets>, rs: seq<Request>)
    requires l.pps > 0 && l.bps == 0 && IsRun(l, trace, rs) && trace[0].packets == 0
    ensures Packets(l, trace, rs, 0, |rs|) > 0 <==> exists i :: 0 <= i < |rs| && Earns(l.pps, trace[0].last, rs, i)
  {
    if i :| 0 <= i < |rs| && Earns(l.pps, trace[0].last, rs, i) {
      FirstEarned(l, trace, rs, i);
    } else {
      NothingEarned(l, trace, rs, |rs|);
    }
  }

  /** Requests exactly `gap` microseconds apart, the first one gap after `start`. */
  ghost predicate Periodic(start: nat, gap: nat, rs: seq<Request>) {
    forall i :: 0 <= i < |rs| ==> rs[i].now == start + Product(gap, i + 1)
  }

  lemma {:induction false} PeriodicRefills(start: nat, gap: nat, rs: seq<Request>, i: nat)
    requires TICK <= gap && Periodic(start, gap, rs) && i <= |rs|
    ensures LastRefill(start, rs, i) == start + Product(gap, i)
  {
    if i > 0 { PeriodicRefills(start, gap, rs, i - 1); }
  }

  /** With requests a tick or more apart, that is if and only if one gap earns a packet. */
  lemma {:induction false} PeriodicRecovery(l: Limits, trace: seq<Buckets>, rs: seq<Request>, gap: nat)
    requires l.pps > 0 && l.bps == 0 && IsRun(l, trace, rs) && rs != [] && trace[0].packets == 0
    requires TICK <= gap && Periodic(trace[0].last, gap, rs)
    ensures Packets(l, trace, rs, 0, |rs|) > 0 <==> gap * l.pps / SECOND % U64_MODULUS > 0
  {
    var start := trace[0].last;
    ProductIsTimes(l.pps, gap);
    forall i | 0 <= i < |rs|
      ensures Earns(l.pps, start, rs, i) <==> Credit(l.pps, gap) > 0
    {
      PeriodicRefills(start, gap, rs, i);
      assert rs[i].now - LastRefill(start, rs, i) == gap;
    }
    RecoveryExact(l, trace, rs);
    assert Earns(l.pps, start, rs, 0) <==> Credit(l.pps, gap) > 0;
  }

  /** One packet a second, asked for every ten milliseconds: once the burst is spent, nothing gets through again. */
  lemma {:induction false} OnePacketPerSecondStarves(trace: seq<Buckets>, rs: seq<Request>)
    requires IsRun(Limits(1, 0), trace, rs) && rs != [] && trace[0].packets == 0 && Periodic(trace[0].last, 10_000, rs)
    ensures Packets(Limits(1, 0), trace, rs, 0, |rs|) == 0
  {
    PeriodicRecovery(Limits(1, 0), trace, rs, 10_000);
  }
}
