/**
The kill switch state machine and its reconnect backoff, driven by one caller at
a time. Durations are in nanoseconds; the random jitter added to a delay is left
out.
*/
module KillSwitch {
  import opened Machine

  datatype Mode = Disabled | Enabled | EnabledAllowLan {
    predicate IsActive() { !Disabled? }
  }

  datatype State = Inactive | Armed | Engaged | Bypassed

  datatype Reason = UserRequested | ServerClosed | NetworkError | AuthFailure | SessionTimeout | SystemEvent | UnknownReason {
    predicate ShouldEngage() { !UserRequested? }
  }

  datatype Event =
    | SetMode(mode: Mode)
    | VpnConnected
    | VpnDisconnected(reason: Reason)
    | ReconnectAttempt
    | ReconnectSuccess
    | ReconnectFailed
    | Reset

  const MAX_BACKOFF_EXPONENT: nat := 20
  const MAX_RECONNECT_DELAY: nat := 300_000_000_000

  datatype Switch = Switch(mode: Mode, state: State, attempts: u32, maxAttempts: u32, baseDelay: nat)

  predicate Blocks(s: Switch) { s.mode.IsActive() && s.state == Engaged }

  /** The attempt counter after one more attempt; a build without overflow checks wraps it. */
  function NextAttempt(s: Switch): u32 { WrappingAdd(s.attempts, 1) }

  predicate AttemptAllowed(s: Switch) { NextAttempt(s) <= s.maxAttempts }

  /** The delay of the `attempt`-th attempt, before jitter. */
  function Delay(baseDelay: nat, attempt: u32): nat {
    Min(baseDelay * Pow2(Min(WrappingSub(attempt, 1), MAX_BACKOFF_EXPONENT)), MAX_RECONNECT_DELAY)
  }

  function Next(s: Switch, e: Event): Switch {
    match e
    case SetMode(mode) =>
      s.(mode := mode, state := if s.mode != mode && !mode.IsActive() && s.state == Engaged then Inactive else s.state)
    case VpnConnected => if s.mode.IsActive() then s.(state := Armed, attempts := 0) else s
    case VpnDisconnected(reason) =>
      if !s.mode.IsActive() || !reason.ShouldEngage() then s.(state := Inactive)
      else if s.state == Armed then s.(state := Engaged)
      else s
    case ReconnectAttempt =>
      var s' := s.(attempts := NextAttempt(s));
      if AttemptAllowed(s) && s.state == Engaged then s'.(state := Bypassed) else s'
    case ReconnectSuccess => s.(state := Armed, attempts := 0)
    case ReconnectFailed => if s.mode.IsActive() then s.(state := Engaged) else s
    case Reset => s.(state := Inactive, attempts := 0)
  }

  class KillSwitchManager {
    var mode: Mode
    var state: State
    var reconnectAttempts: u32
    const maxReconnectAttempts: u32
    const baseReconnectDelay: nat

    ghost function View(): Switch
      reads this
    {
      Switch(mode, state, reconnectAttempts, maxReconnectAttempts, baseReconnectDelay)
    }

    constructor (mode: Mode, maxAttempts: u32, baseDelay: nat)
      ensures View() == Switch(mode, Inactive, 0, maxAttempts, baseDelay)
    {
      this.mode, state, reconnectAttempts := mode, Inactive, 0;
      maxReconnectAttempts, baseReconnectDelay := maxAttempts, baseDelay;
    }

    method ChangeMode(newMode: Mode)
      modifies this
      ensures View() == Next(old(View()), SetMode(newMode))
    {
      var oldMode := mode;
      if oldMode != newMode {
        mode := newMode;
        if !newMode.IsActive() && state == Engaged {
          state := Inactive;
        }
      }
    }

    method ShouldBlockTraffic() returns (block: bool)
      ensures block == Blocks(View())
    {
      block := mode.IsActive() && state == Engaged;
    }

    method OnVpnConnected()
      modifies this
      ensures View() == Next(old(View()), VpnConnected)
    {
      if mode.IsActive() {
        state := Armed;
        reconnectAttempts := 0;
      }
    }

    /** Returns whether traffic is blocked from now on. */
    method OnVpnDisconnected(reason: Reason) returns (block: bool)
      modifies this
      ensures View() == Next(old(View()), VpnDisconnected(reason))
      ensures block == Blocks(View())
    {
      if !mode.IsActive() {
        state := Inactive;
        return false;
      }
      if state == Armed && reason.ShouldEngage() {
        state := Engaged;
        return true;
      }
      if !reason.ShouldEngage() {
        state := Inactive;
        return false;
      }
      block := state == Engaged;
    }

    /** The delay before jitter, or nothing once the attempts are used up. */
    method OnReconnectAttempt() returns (delay: Option<nat>)
      modifies this
      ensures View() == Next(old(View()), ReconnectAttempt)
      ensures delay.Some? <==> AttemptAllowed(old(View()))
      ensures delay.Some? ==> delay.value == Delay(baseReconnectDelay, reconnectAttempts)
    {
      reconnectAttempts := WrappingAdd(reconnectAttempts, 1);
      if reconnectAttempts > maxReconnectAttempts {
        return None;
      }
      var exponent := Min(WrappingSub(reconnectAttempts, 1), MAX_BACKOFF_EXPONENT);
      var multiplier := Pow2(exponent);
      delay := Some(Min(baseReconnectDelay * multiplier, MAX_RECONNECT_DELAY));
      if state == Engaged {
        state := Bypassed;
      }
    }

    method OnReconnectSuccess()
      modifies this
      ensures View() == Next(old(View()), ReconnectSuccess)
    {
      reconnectAttempts := 0;
      state := Armed;
    }

    method OnReconnectFailed()
      modifies this
      ensures View() == Next(old(View()), ReconnectFailed)
    {
      if mode.IsActive() {
        state := Engaged;
      }
    }

    /** Dispatches one event to the call that reports it. */
    method Handle(e: Event)
      modifies this
      ensures View() == Next(old(View()), e)
    {
      match e
      case SetMode(m) => ChangeMode(m);
      case VpnConnected => OnVpnConnected();
      case VpnDisconnected(reason) => var b := OnVpnDisconnected(reason);
      case ReconnectAttempt => var d := OnReconnectAttempt();
      case ReconnectSuccess => OnReconnectSuccess();
      case ReconnectFailed => OnReconnectFailed();
      case Reset => ResetSwitch();
    }

    method ResetSwitch()
      modifies this
      ensures View() == Next(old(View()), Reset)
    {
      state := Inactive;
      reconnectAttempts := 0;
    }
  }

  // ---- Traces ----

  /** The switch before each event and after the last. */
  ghost predicate IsTrace(trace: seq<Switch>, es: seq<Event>) {
    && |trace| == |es| + 1
    && forall i :: 0 <= i < |es| ==> trace[i + 1] == Next(trace[i], es[i])
  }

  /** The manager goes through every sequence of calls as the specification does, and blocks when it says so. */
  method RunSwitch(mode: Mode, maxAttempts: u32, baseDelay: nat, es: seq<Event>) returns (trace: seq<Switch>, blocked: seq<bool>)
    ensures IsTrace(trace, es) && trace[0] == Switch(mode, Inactive, 0, maxAttempts, baseDelay)
    ensures |blocked| == |es| && forall i :: 0 <= i < |es| ==> blocked[i] == Blocks(trace[i + 1])
  {
    var ks := new KillSwitchManager(mode, maxAttempts, baseDelay);
    trace, blocked := [Switch(mode, Inactive, 0, maxAttempts, baseDelay)], [];
    for k := 0 to |es|
      invariant fresh(ks) && |trace| == k + 1 && trace[k] == ks.View()
      invariant trace[0] == Switch(mode, Inactive, 0, maxAttempts, baseDelay)
      invariant forall i :: 0 <= i < k ==> trace[i + 1] == Next(trace[i], es[i])
      invariant |blocked| == k && forall i :: 0 <= i < k ==> blocked[i] == Blocks(trace[i + 1])
    {
      ks.Handle(es[k]);
      trace := trace + [Switch(ks.mode, ks.state, ks.reconnectAttempts, maxAttempts, baseDelay)];
      var b := ks.ShouldBlockTraffic();
      blocked := blocked + [b];
    }
  }

  ghost predicate EngagedIsActive(s: Switch) { s.state == Engaged ==> s.mode.IsActive() }

  /** In every trace, engaged implies an active mode: an engaged switch always blocks. */
  lemma {:induction false} EngagedAlwaysBlocks(trace: seq<Switch>, es: seq<Event>, k: nat)
    requires IsTrace(trace, es) && k < |trace| && EngagedIsActive(trace[0])
    ensures EngagedIsActive(trace[k])
  {
    if k > 0 { EngagedAlwaysBlocks(trace, es, k - 1); }
  }

  /** The events that can lift a block: the user, a working tunnel, or a granted reconnect attempt. */
  predicate Lifts(s: Switch, e: Event) {
    match e
    case SetMode(mode) => !mode.IsActive()
    case VpnConnected => true
    case VpnDisconnected(reason) => reason.UserRequested?
    case ReconnectAttempt => AttemptAllowed(s)
    case ReconnectSuccess => true
    case ReconnectFailed => false
    case Reset => true
  }

  lemma LiftExact(s: Switch, e: Event)
    requires Blocks(s)
    ensures Blocks(Next(s, e)) <==> !Lifts(s, e)
  {
  }

  /**
   When a block begins: at a disconnect in an active mode that the user did not ask for, if the switch is armed,
   and at a reconnect that failed in an active mode.
  */
  lemma {:induction false} BlockBegins(s: Switch, e: Event)
    requires EngagedIsActive(s) && !Blocks(s)
    ensures Blocks(Next(s, e)) <==>
      s.mode != Disabled && ((e.VpnDisconnected? && e.reason != UserRequested && s.state == Armed) || e.ReconnectFailed?)
  {
  }

  lemma {:induction false} StaysBlocked(trace: seq<Switch>, es: seq<Event>, k: nat)
    requires IsTrace(trace, es) && k < |trace| && Blocks(trace[0])
    requires forall i :: 0 <= i < |es| ==> !Lifts(trace[i], es[i])
    ensures Blocks(trace[k])
  {
    if k > 0 {
      StaysBlocked(trace, es, k - 1);
      LiftExact(trace[k - 1], es[k - 1]);
    }
  }

  /**
   Traffic stays blocked through a whole trace if and only if no event of it lifts
   the block: non-user disconnects, failed or exhausted reconnects and changes
   between active modes never do.
  */
  lemma {:induction false} BlockedThroughout(trace: seq<Switch>, es: seq<Event>)
    requires IsTrace(trace, es) && Blocks(trace[0])
    ensures (forall k :: 0 <= k < |trace| ==> Blocks(trace[k])) <==> (forall i :: 0 <= i < |es| ==> !Lifts(trace[i], es[i]))
  {
    if forall i :: 0 <= i < |es| ==> !Lifts(trace[i], es[i]) {
      forall k | 0 <= k < |trace|
        ensures Blocks(trace[k])
      {
        StaysBlocked(trace, es, k);
      }
    } else {
      var i :| 0 <= i < |es| && Lifts(trace[i], es[i]);
      if Blocks(trace[i]) {
        LiftExact(trace[i], es[i]);
        assert !Blocks(trace[i + 1]);
      }
    }
  }

  // ---- When a disconnect blocks ----

  /** A disconnect that is not the user's, in an active mode, blocks exactly from these states. */
  predicate Guarded(s: Switch) { s.state == Armed || s.state == Engaged }

  /** The events after which the switch is on guard. */
  predicate Arms(s: Switch, e: Event) {
    e.ReconnectSuccess? || (s.mode.IsActive() && (e.VpnConnected? || e.ReconnectFailed?))
  }

  /** The events after which it is not, if it was. */
  predicate Disarms(s: Switch, e: Event) {
    match e
    case SetMode(mode) => !mode.IsActive() && s.mode != mode && s.state == Engaged
    case VpnDisconnected(reason) => reason.UserRequested? || !s.mode.IsActive()
    case ReconnectAttempt => s.state == Engaged && AttemptAllowed(s)
    case Reset => true
    case _ => false
  }

  ghost predicate ArmedSince(trace: seq<Switch>, es: seq<Event>, k: nat, j: nat)
    requires |trace| == |es| + 1 && k <= |es|
  {
    j < k && Arms(trace[j], es[j]) && forall i :: j < i < k ==> !Disarms(trace[i], es[i])
  }

  /** The switch is on guard if and only if it was armed and has not been disarmed since. */
  lemma {:induction false} GuardedExactly(trace: seq<Switch>, es: seq<Event>, k: nat)
    requires IsTrace(trace, es) && k <= |es| && !Guarded(trace[0])
    ensures Guarded(trace[k]) <==> exists j: nat :: ArmedSince(trace, es, k, j)
  {
    if k > 0 {
      var before := k - 1;
      GuardedExactly(trace, es, before);
      if Arms(trace[k - 1], es[k - 1]) {
        assert ArmedSince(trace, es, k, k - 1);
      } else if Disarms(trace[k - 1], es[k - 1]) {
        assert forall j: nat :: !ArmedSince(trace, es, k, j);
      } else {
        assert Guarded(trace[k]) == Guarded(trace[k - 1]);
        if j: nat :| ArmedSince(trace, es, before, j) { assert ArmedSince(trace, es, k, j); }
        if j: nat :| ArmedSince(trace, es, k, j) { assert ArmedSince(trace, es, before, j); }
      }
    }
  }

  /**
   "Blocks all traffic when the VPN disconnects" holds of a disconnect that is not the user's, in an
   active mode, if and only if the switch was armed before it and has not been disarmed since: a tunnel
   that came up while the switch was disabled never arms it, and a granted reconnect attempt disarms it.
  */
  lemma {:induction false} DisconnectBlocksExactly(trace: seq<Switch>, es: seq<Event>, k: nat)
    requires IsTrace(trace, es) && k < |es| && !Guarded(trace[0])
    requires es[k].VpnDisconnected? && es[k].reason.ShouldEngage() && trace[k].mode.IsActive()
    ensures Blocks(trace[k + 1]) <==> exists j: nat :: ArmedSince(trace, es, k, j)
  {
    GuardedExactly(trace, es, k);
    assert trace[k + 1] == Next(trace[k], es[k]);
  }

  /** Enabled after the tunnel came up: a network error then blocks nothing. */
  lemma {:induction false} EnabledTooLate(maxAttempts: u32, baseDelay: nat) returns (trace: seq<Switch>, es: seq<Event>)
    ensures IsTrace(trace, es) && trace[0] == Switch(Disabled, Inactive, 0, maxAttempts, baseDelay)
    ensures es == [VpnConnected, SetMode(Enabled), VpnDisconnected(NetworkError)]
    ensures trace[2].mode == Enabled && !Blocks(trace[3])
  {
    es := [VpnConnected, SetMode(Enabled), VpnDisconnected(NetworkError)];
    var s0 := Switch(Disabled, Inactive, 0, maxAttempts, baseDelay);
    var s1 := Next(s0, es[0]);
    var s2 := Next(s1, es[1]);
    trace := [s0, s1, s2, Next(s2, es[2])];
  }

  // ---- Reconnect attempts ----

  ghost predicate ResetsCounter(s: Switch, e: Event) {
    e.ReconnectSuccess? || e.Reset? || (e.VpnConnected? && s.mode.IsActive())
  }

  ghost predicate NoReset(trace: seq<Switch>, es: seq<Event>)
    requires |trace| == |es| + 1
  {
    forall i :: 0 <= i < |es| ==> !ResetsCounter(trace[i], es[i])
  }

  /** Times the first `k` events enter the bypass, which leaves traffic unblocked. */
  ghost function Bypasses(trace: seq<Switch>, k: nat): nat
    requires k < |trace|
  {
    if k == 0 then 0
    else Bypasses(trace, k - 1) + if trace[k - 1].state != Bypassed && trace[k].state == Bypassed then 1 else 0
  }

  ghost function Attempts(es: seq<Event>, k: nat): nat
    requires k <= |es|
  {
    if k == 0 then 0 else Attempts(es, k - 1) + if es[k - 1].ReconnectAttempt? then 1 else 0
  }

  /** How many of the first `a` attempts since a reset are granted, the counter wrapping at 2^32. */
  function Granted(max: u32, a: nat): nat {
    if a == 0 then 0 else Granted(max, a - 1) + if a % U32_MODULUS <= max then 1 else 0
  }

  lemma {:induction false} GrantedCount(max: u32, a: nat)
    ensures Granted(max, a) == a / U32_MODULUS * (max + 1) + Min(a % U32_MODULUS, max)
  {
    if a > 0 {
      GrantedCount(max, a - 1);
      var q := (a - 1) / U32_MODULUS;
      if a % U32_MODULUS == 0 {
        assert a / U32_MODULUS == q + 1 && (a - 1) % U32_MODULUS == U32_MODULUS - 1;
        assert (q + 1) * (max + 1) == q * (max + 1) + (max + 1);
      } else {
        assert a / U32_MODULUS == q && a % U32_MODULUS == (a - 1) % U32_MODULUS + 1;
      }
    }
  }

  /** One event without a reset: the counter moves only with attempts, and a bypass is entered only by a granted one. */
  lemma BypassStep(s: Switch, e: Event)
    requires !ResetsCounter(s, e)
    ensures var s' := Next(s, e);
      && s'.maxAttempts == s.maxAttempts
      && s'.attempts == (if e.ReconnectAttempt? then NextAttempt(s) else s.attempts)
      && (s.state != Bypassed && s'.state == Bypassed ==> e.ReconnectAttempt? && NextAttempt(s) <= s.maxAttempts)
  {
  }

  /** Without a reset the counter counts attempts, and each bypass uses a granted one. */
  lemma {:induction false} BypassesUseAttempts(trace: seq<Switch>, es: seq<Event>, k: nat)
    requires IsTrace(trace, es) && NoReset(trace, es) && k <= |es| && trace[0].attempts == 0
    ensures trace[k].attempts == Attempts(es, k) % U32_MODULUS && trace[k].maxAttempts == trace[0].maxAttempts
    ensures Bypasses(trace, k) <= Granted(trace[0].maxAttempts, Attempts(es, k))
  {
    if k > 0 {
      BypassesUseAttempts(trace, es, k - 1);
      BypassStep(trace[k - 1], es[k - 1]);
      WrappedSum(Attempts(es, k - 1), 1);
    }
  }

  /**
   Between resets of the counter traffic is let out for at most `maxAttempts` reconnect attempts,
   and for that many and one more in each further 2^32 attempts.
  */
  lemma {:induction false} BypassLimit(trace: seq<Switch>, es: seq<Event>)
    requires IsTrace(trace, es) && NoReset(trace, es) && trace[0].attempts == 0
    ensures var max, tries := trace[0].maxAttempts, Attempts(es, |es|);
      && Bypasses(trace, |es|) <= tries / U32_MODULUS * (max + 1) + Min(tries % U32_MODULUS, max)
      && (tries < U32_MODULUS ==> Bypasses(trace, |es|) <= max)
  {
    BypassesUseAttempts(trace, es, |es|);
    GrantedCount(trace[0].maxAttempts, Attempts(es, |es|));
  }

  /**
   Attempts are never refused if and only if the limit is the largest counter value. A limit of zero,
   which a comment calls unlimited, refuses every attempt but the one at the wrap.
  */
  lemma {:induction false} UnlimitedExactly(s: Switch)
    ensures (forall a: u32 :: AttemptAllowed(s.(attempts := a))) <==> s.maxAttempts == U32_MODULUS - 1
    ensures s.maxAttempts == 0 ==> (AttemptAllowed(s) <==> s.attempts == U32_MODULUS - 1)
  {
    var last: u32 := U32_MODULUS - 2;
    assert NextAttempt(s.(attempts := last)) == U32_MODULUS - 1;
  }

  /** The one way past that limit: after 2^32 - 1 attempts the counter wraps and attempts are granted again. */
  lemma WrapReopens(s: Switch)
    requires s.attempts > s.maxAttempts && Blocks(s)
    ensures AttemptAllowed(s) <==> s.attempts == U32_MODULUS - 1
    ensures Next(s, ReconnectAttempt).state == Bypassed <==> s.attempts == U32_MODULUS - 1
  {
  }

  /** Attempts among the first `k` events since the counter was last reset. */
  ghost function AttemptsSince(trace: seq<Switch>, es: seq<Event>, k: nat): nat
    requires |trace| == |es| + 1 && k <= |es|
  {
    if k == 0 then 0
    else match es[k - 1]
      case ReconnectSuccess => 0
      case Reset => 0
      case VpnConnected => if trace[k - 1].mode != Disabled then 0 else AttemptsSince(trace, es, k - 1)
      case ReconnectAttempt => AttemptsSince(trace, es, k - 1) + 1
      case _ => AttemptsSince(trace, es, k - 1)
  }

  /** The counter is the number of attempts since a tunnel last worked or the switch was reset, modulo 2^32. */
  lemma {:induction false} CounterExact(trace: seq<Switch>, es: seq<Event>, k: nat)
    requires IsTrace(trace, es) && k <= |es| && trace[0].attempts == 0
    ensures trace[k].attempts == AttemptsSince(trace, es, k) % 0x1_0000_0000
    ensures trace[k].maxAttempts == trace[0].maxAttempts && trace[k].baseDelay == trace[0].baseDelay
  {
    if k > 0 {
      CounterExact(trace, es, k - 1);
      WrappedSum(AttemptsSince(trace, es, k - 1), 1);
    }
  }

  /** So the `n`-th attempt since then is granted if and only if `n`, modulo 2^32, is within the limit. */
  lemma {:induction false} AttemptExact(trace: seq<Switch>, es: seq<Event>, k: nat)
    requires IsTrace(trace, es) && k < |es| && trace[0].attempts == 0 && es[k] == ReconnectAttempt
    ensures AttemptAllowed(trace[k]) <==> (AttemptsSince(trace, es, k) + 1) % 0x1_0000_0000 <= trace[0].maxAttempts
  {
    CounterExact(trace, es, k);
    WrappedSum(AttemptsSince(trace, es, k), 1);
  }

  /**
   The law of the delays, which fixes them all: the first is the base delay, each of the next twenty twice the
   one before, the rest like the last of these, and none more than five minutes. An attempt counted
   as zero, at the wrap, waits as long as the last.
  */
  lemma {:induction false} DelayLaw(baseDelay: nat, a: u32)
    ensures Delay(baseDelay, 1) == Min(baseDelay, 300_000_000_000)
    ensures 1 <= a <= 20 ==> Delay(baseDelay, a + 1) == Min(2 * Delay(baseDelay, a), 300_000_000_000)
    ensures a == 0 || a >= 21 ==> Delay(baseDelay, a) == Delay(baseDelay, 21)
  {
    assert WrappingSub(1, 1) == 0;
    if 1 <= a <= 20 {
      assert WrappingSub(a, 1) == a - 1 && WrappingSub(a + 1, 1) == a;
      DoubledProduct(baseDelay, Pow2(a - 1));
    } else if a > 0 {
      assert WrappingSub(a, 1) == a - 1;
    }
  }

  lemma {:induction false} DoubledProduct(d: nat, p: nat)
    ensures d * (2 * p) == 2 * (d * p)
  {
  }

  /** Successive delays never decrease and never exceed five minutes. */
  lemma {:induction false} DelaysGrow(baseDelay: nat, a: u32, b: u32)
    requires 0 < a <= b
    ensures Delay(baseDelay, a) <= Delay(baseDelay, b) <= MAX_RECONNECT_DELAY
    ensures Delay(baseDelay, 1) == Min(baseDelay, MAX_RECONNECT_DELAY)
  {
    assert WrappingSub(a, 1) == a - 1 && WrappingSub(b, 1) == b - 1;
    var x, y := Min(a - 1, MAX_BACKOFF_EXPONENT), Min(b - 1, MAX_BACKOFF_EXPONENT);
    Pow2Monotone(x, y);
    CappedProductMonotone(baseDelay, Pow2(x), Pow2(y));
  }

  lemma {:induction false} CappedProductMonotone(d: nat, p: nat, q: nat)
    requires p <= q
    ensures Min(d * p, MAX_RECONNECT_DELAY) <= Min(d * q, MAX_RECONNECT_DELAY)
  {
    MultiplyMonotone(p, q, d);
    assert d * p == p * d && d * q == q * d;
  }
}
