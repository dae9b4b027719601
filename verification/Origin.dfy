/** One origin's health: passive cooldown, active probing and the circuit breaker. Times and
    durations are int64 nanoseconds; a shift wraps as it does in the source. */
module Origin {

  /** time.Time{}: no failure recorded. */
  const ZERO_TIME: int := 0
  const MAX_SHIFT: nat := 10
  const MAX_INT64: int := 0x7FFF_FFFF_FFFF_FFFF
  const TWO_64: int := 0x1_0000_0000_0000_0000

  datatype Policy = Policy(cooldown: int, threshold: int, breakerCooldown: int)

  datatype Health = Health(lastFailureAt: int, forcedDown: bool, consecutiveFailures: nat)

  const FRESH := Health(ZERO_TIME, false, 0)

  /** base * 2^n, as n doublings. */
  function Doubled(base: int, n: nat): int {
    if n == 0 then base else 2 * Doubled(base, n - 1)
  }

  /** The int64 a mathematical integer wraps to. */
  function Wrapped(x: int): int {
    (x + MAX_INT64 + 1) % TWO_64 - MAX_INT64 - 1
  }

  /** Go's `base << shift` on an int64. */
  function ShiftLeft(base: int, shift: nat): int {
    Wrapped(Doubled(base, shift))
  }

  function Capped(shift: nat): nat {
    if shift > MAX_SHIFT then MAX_SHIFT else shift
  }

  function EscalatedCooldown(base: int, shift: nat): int {
    ShiftLeft(base, Capped(shift))
  }

  // ---- transitions and questions -------------------------------------------

  function Failed(h: Health, now: int): Health {
    h.(lastFailureAt := now, consecutiveFailures := h.consecutiveFailures + 1)
  }

  function Succeeded(h: Health): Health {
    h.(lastFailureAt := ZERO_TIME, consecutiveFailures := 0)
  }

  function Probed(h: Health, down: bool): Health {
    h.(forcedDown := down)
  }

  predicate Tripped(h: Health, p: Policy) {
    p.threshold > 0 && h.consecutiveFailures >= p.threshold
  }

  predicate Available(h: Health, now: int, p: Policy) {
    if h.forcedDown then false
    else if h.lastFailureAt == ZERO_TIME then true
    else
      var effective := if Tripped(h, p) then EscalatedCooldown(p.breakerCooldown, h.consecutiveFailures - p.threshold)
                       else p.cooldown;
      now - h.lastFailureAt > effective
  }

  predicate BreakerOpen(h: Health, now: int, p: Policy) {
    Tripped(h, p) &&
    now - h.lastFailureAt <= EscalatedCooldown(p.breakerCooldown, h.consecutiveFailures - p.threshold)
  }

  /** The breaker is on, and its longest window fits in an int64. */
  ghost predicate Tunable(p: Policy) {
    p.threshold > 0 && 0 < p.breakerCooldown && 1024 * p.breakerCooldown <= MAX_INT64
  }

  // ---- the reachable-state invariant ------------------------------------------

  /** No failure time is remembered exactly when no failure is counted. */
  ghost predicate Consistent(h: Health) {
    h.lastFailureAt == ZERO_TIME <==> h.consecutiveFailures == 0
  }

  /** An origin that may be attempted never has its breaker open. Without the invariant this is
      false: a counted streak with no failure time is available and yet open. */
  lemma AvailableIsNotOpen(h: Health, now: int, p: Policy)
    requires Consistent(h) && Available(h, now, p)
    ensures !BreakerOpen(h, now, p)
  {
    if h.lastFailureAt == ZERO_TIME {
      assert h.consecutiveFailures == 0;
    }
  }

  // ---- escalation arithmetic ----------------------------------------------------

  lemma WrappedExactIff(x: int)
    requires 0 <= x
    ensures Wrapped(x) == x <==> x <= MAX_INT64
  {}

  lemma {:induction false} DoubledMono(base: int, m: nat, n: nat)
    requires base >= 0 && m <= n
    ensures 0 <= base <= Doubled(base, m) <= Doubled(base, n)
    decreases n
  {
    if n > 0 {
      DoubledMono(base, if m < n then m else n - 1, n - 1);
    }
  }

  lemma DoubledTen(base: int)
    ensures Doubled(base, 0) == base && Doubled(base, 10) == 1024 * base
  {
    assert Doubled(base, 1) == 2 * base;
    assert Doubled(base, 2) == 4 * base;
    assert Doubled(base, 4) == 16 * base;
    assert Doubled(base, 6) == 64 * base;
    assert Doubled(base, 8) == 256 * base;
  }

  /** The shift is exact for every failure count if and only if the cooldown is at most a 1024th
      of the largest duration. */
  lemma EscalationExactIff(base: int)
    requires 0 < base <= MAX_INT64
    ensures (forall shift: nat :: EscalatedCooldown(base, shift) == Doubled(base, Capped(shift))) <==>
            1024 * base <= MAX_INT64
  {
    DoubledTen(base);
    if 1024 * base <= MAX_INT64 {
      forall shift: nat ensures EscalatedCooldown(base, shift) == Doubled(base, Capped(shift)) {
        EscalationExact(base, shift);
      }
    } else {
      WrappedExactIff(Doubled(base, 10));
      assert EscalatedCooldown(base, 10) != Doubled(base, Capped(10));
    }
  }

  lemma EscalationExact(base: int, shift: nat)
    requires 0 < base && 1024 * base <= MAX_INT64
    ensures EscalatedCooldown(base, shift) == Doubled(base, Capped(shift))
    ensures base <= EscalatedCooldown(base, shift) <= 1024 * base
  {
    DoubledTen(base);
    DoubledMono(base, 0, Capped(shift));
    DoubledMono(base, Capped(shift), 10);
    WrappedExactIff(Doubled(base, Capped(shift)));
  }

  /** A cooldown over that bound makes the window negative at some failure count, so that the
      breaker is never open there however soon the next request comes. */
  lemma {:induction false} EscalationOverflows(base: int, from: nat) returns (shift: nat)
    requires 0 < base && Doubled(base, from) <= MAX_INT64 && from < 10 && MAX_INT64 < Doubled(base, 10)
    ensures shift <= MAX_SHIFT && EscalatedCooldown(base, shift) < 0
    decreases 10 - from
  {
    if Doubled(base, from + 1) > MAX_INT64 {
      shift := from + 1;
    } else {
      shift := EscalationOverflows(base, from + 1);
    }
  }

  lemma TooLongCooldownNeverOpens(p: Policy, lastFailureAt: int) returns (failures: nat)
    requires p.threshold > 0 && 0 < p.breakerCooldown <= MAX_INT64 < 1024 * p.breakerCooldown
    ensures failures >= p.threshold
    ensures forall now, down | now >= lastFailureAt :: !BreakerOpen(Health(lastFailureAt, down, failures), now, p)
  {
    DoubledTen(p.breakerCooldown);
    var shift := EscalationOverflows(p.breakerCooldown, 0);
    failures := p.threshold + shift;
  }

  /** Each further failure doubles the window until the cap, and never shrinks it. */
  lemma EscalationDoubles(base: int, shift: nat)
    requires 0 < base && 1024 * base <= MAX_INT64
    ensures EscalatedCooldown(base, shift + 1) ==
            if shift < MAX_SHIFT then 2 * EscalatedCooldown(base, shift) else EscalatedCooldown(base, shift)
    ensures EscalatedCooldown(base, shift + 1) >= EscalatedCooldown(base, shift)
  {
    EscalationExact(base, shift);
    EscalationExact(base, shift + 1);
  }

  /** A tripped origin that probing does not hold down is attempted again once 1024 cooldowns have
      passed since its last failure, however many failures it has. */
  lemma TrippedRecovers(h: Health, now: int, p: Policy)
    requires 0 < p.breakerCooldown && 1024 * p.breakerCooldown <= MAX_INT64
    requires Tripped(h, p) && !h.forcedDown && now - h.lastFailureAt > 1024 * p.breakerCooldown
    ensures Available(h, now, p)
  {
    EscalationExact(p.breakerCooldown, h.consecutiveFailures - p.threshold);
  }

  /** What one more failure at `t` does to every later check: below the threshold the origin is
      skipped for the plain cooldown, from the threshold on for the doubled one; probing can only
      hold it down longer, and one response ends either wait at once. */
  lemma FailureOpensWindow(h: Health, t: int, now: int, p: Policy)
    requires t != ZERO_TIME && 0 < p.breakerCooldown && 1024 * p.breakerCooldown <= MAX_INT64
    ensures Available(Failed(h, t), now, p) <==>
      !h.forcedDown && now - t > (
        if p.threshold > 0 && h.consecutiveFailures + 1 >= p.threshold
        then Doubled(p.breakerCooldown, Capped(h.consecutiveFailures + 1 - p.threshold))
        else p.cooldown)
    ensures BreakerOpen(Failed(h, t), now, p) <==>
      && p.threshold > 0 && h.consecutiveFailures + 1 >= p.threshold
      && now - t <= Doubled(p.breakerCooldown, Capped(h.consecutiveFailures + 1 - p.threshold))
    ensures Available(Succeeded(Failed(h, t)), now, p) <==> !h.forcedDown
    ensures !BreakerOpen(Succeeded(Failed(h, t)), now, p)
  {
    if p.threshold > 0 && h.consecutiveFailures + 1 >= p.threshold {
      EscalationExact(p.breakerCooldown, h.consecutiveFailures + 1 - p.threshold);
    }
  }

  /** The cooldowns a tripped origin has sat out before its (k+1)-th trial. */
  function WindowSum(base: int, k: nat): int {
    if k == 0 then 0 else WindowSum(base, k - 1) + Doubled(base, Capped(k - 1))
  }

  /** The sum in closed form: base * (2^k - 1) up to eleven trials, then 1024 * base for each more. */
  lemma {:induction false} WindowSumClosed(base: int, k: nat)
    ensures WindowSum(base, k) == if k <= 11 then Doubled(base, k) - base else 2047 * base + 1024 * base * (k - 11)
  {
    DoubledTen(base);
    assert Doubled(base, 11) == 2048 * base;
    if k > 0 {
      WindowSumClosed(base, k - 1);
      if k > 11 {
        assert Doubled(base, Capped(k - 1)) == 1024 * base;
        assert 1024 * base * (k - 11) == 1024 * base * (k - 12) + 1024 * base;
      }
    }
  }

  /** A probe that finds an origin down keeps it from being picked whatever else is known of it, one
      that finds it up leaves the question to its failures, and neither touches its breaker. */
  lemma ProbeDecides(h: Health, now: int, p: Policy)
    ensures !Available(Probed(h, true), now, p)
    ensures h.lastFailureAt == ZERO_TIME ==> Available(Probed(h, false), now, p)
    ensures !h.forcedDown ==> (Available(Probed(h, false), now, p) <==> Available(h, now, p))
    ensures forall down :: BreakerOpen(Probed(h, down), now, p) <==> BreakerOpen(h, now, p)
  {}

  /** Without a breaker, or below its threshold, it is never open, however recent the last failure. */
  lemma BreakerStaysClosed(h: Health, now: int, p: Policy)
    requires p.threshold <= 0 || h.consecutiveFailures < p.threshold
    ensures !BreakerOpen(h, now, p)
  {}

  // ---- the object ------------------------------------------------------------------

  class OriginState {
    var lastFailureAt: int
    var forcedDown: bool
    var consecutiveFailures: nat

    function Snapshot(): Health
      reads this
    {
      Health(lastFailureAt, forcedDown, consecutiveFailures)
    }

    constructor ()
      ensures Snapshot() == FRESH && Consistent(Snapshot())
    {
      lastFailureAt, forcedDown, consecutiveFailures := ZERO_TIME, false, 0;
    }

    method RecordFailure(now: int)
      modifies this
      ensures Snapshot() == Failed(old(Snapshot()), now)
      ensures lastFailureAt == now && consecutiveFailures == old(consecutiveFailures) + 1 && unchanged(`forcedDown)
      ensures now != ZERO_TIME ==> Consistent(Snapshot())
    {
      lastFailureAt := now;
      consecutiveFailures := consecutiveFailures + 1;
    }

    method RecordSuccess()
      modifies this
      ensures Snapshot() == Succeeded(old(Snapshot())) && Consistent(Snapshot())
      ensures lastFailureAt == ZERO_TIME && consecutiveFailures == 0 && unchanged(`forcedDown)
    {
      consecutiveFailures := 0;
      lastFailureAt := ZERO_TIME;
    }

    method SetForcedDown(down: bool)
      modifies this
      ensures Snapshot() == Probed(old(Snapshot()), down)
      ensures forcedDown == down && unchanged(`lastFailureAt) && unchanged(`consecutiveFailures)
      ensures old(Consistent(Snapshot())) ==> Consistent(Snapshot())
    {
      forcedDown := down;
    }

    method IsAvailable(now: int, p: Policy) returns (yes: bool)
      ensures yes == Available(Snapshot(), now, p)
      ensures yes ==> !forcedDown
      ensures yes && Consistent(Snapshot()) ==> !BreakerOpen(Snapshot(), now, p)
    {
      if forcedDown {
        return false;
      }
      if lastFailureAt == ZERO_TIME {
        return true;
      }
      var effective := p.cooldown;
      if p.threshold > 0 && consecutiveFailures >= p.threshold {
        effective := EscalatedCooldown(p.breakerCooldown, consecutiveFailures - p.threshold);
      }
      return now - lastFailureAt > effective;
    }

    method IsBreakerOpen(now: int, p: Policy) returns (yes: bool)
      ensures yes == BreakerOpen(Snapshot(), now, p)
      ensures yes ==> p.threshold > 0 && consecutiveFailures >= p.threshold
    {
      if p.threshold <= 0 || consecutiveFailures < p.threshold {
        return false;
      }
      var effective := EscalatedCooldown(p.breakerCooldown, consecutiveFailures - p.threshold);
      return now - lastFailureAt <= effective;
    }
  }
}
