/** When the sweep can be seen: for every other configuration a run exists on which the store and
    the ideal store that never forgets decide differently. */
module EvictionVisible {
  import opened TokenBucket

  const CLIENT := "client"
  const OTHER := "other"

  /** Calls of a clock that ticks, none before `t`, on which the two stores decide differently. */
  ghost predicate Separates(s: Store, ideal: map<string, Bucket>, lim: Limit, tick: real, t: real, calls: seq<Call>) {
    && NondecreasingFrom(t, calls) && Clocked(tick, calls)
    && Decisions(s, lim, calls) != IdealDecisions(ideal, lim, calls)
  }

  /** Both stores hold the client's bucket, last seen at `t`. */
  ghost predicate BothSeen(s: Store, ideal: map<string, Bucket>, t: real) {
    CLIENT in s.visitors && CLIENT in ideal && s.visitors[CLIENT].lastSeen == ideal[CLIENT].lastSeen == t
  }

  lemma Prepend(s: Store, ideal: map<string, Bucket>, lim: Limit, tick: real, t: real, c: Call, rest: seq<Call>)
    requires t <= c.now && OnClock(tick, c.now)
    requires Separates(Step(s, lim, c).0, Touch(ideal, lim, c).0, lim, tick, c.now, rest)
    ensures Separates(s, ideal, lim, tick, t, [c] + rest)
  {
    hide OnClock;
    var calls := [c] + rest;
    assert calls[1..] == rest;
    assert Decisions(s, lim, calls)[1..] == Decisions(Step(s, lim, c).0, lim, rest);
    assert IdealDecisions(ideal, lim, calls)[1..] == IdealDecisions(Touch(ideal, lim, c).0, lim, rest);
  }

  lemma OneCallSeparates(s: Store, ideal: map<string, Bucket>, lim: Limit, tick: real, t: real, c: Call)
    requires t <= c.now && OnClock(tick, c.now) && Step(s, lim, c).1 != Touch(ideal, lim, c).1
    ensures Separates(s, ideal, lim, tick, t, [c])
  {
    assert [c][0] == c;
    assert Decisions(s, lim, [c])[0] == Step(s, lim, c).1;
    assert IdealDecisions(ideal, lim, [c])[0] == Touch(ideal, lim, c).1;
  }

  // ---- waiting on a clock that ticks ------------------------------------------------------

  lemma EarnedTicks(rps: real, tick: real, k: int)
    ensures Earned(rps, Ticks(tick, k)) == Earned(Earned(rps, tick), k as real)
  {}

  /** The first tick by which a bucket that lacks `missing` has earned it. */
  lemma TicksToEarn(rps: real, tick: real, missing: real) returns (k: nat)
    requires rps > 0.0 && tick > 0.0 && missing >= 0.0
    ensures Ticks(tick, k) >= 0.0
    ensures missing <= Earned(rps, Ticks(tick, k))
    ensures k > 0 ==> Earned(rps, Ticks(tick, k)) < missing + Earned(rps, tick)
    ensures k == 0 <==> missing == 0.0
    ensures k == 0 ==> Earned(rps, Ticks(tick, k)) == 0.0
  {
    var one := Earned(rps, tick);
    EarnedMono(tick, 0.0, rps);
    EarnedPeriod(one, missing);
    var exact := missing / one;
    Quotient(one, missing);
    k := if exact == exact.Floor as real then exact.Floor else exact.Floor + 1;
    EarnedMono(tick, 0.0, k as real);
    EarnedTicks(rps, tick, k);
    EarnedMono(one, exact, k as real);
    EarnedMono(one, (k - 1) as real, exact);
    EarnedSum(one, (k - 1) as real, 1.0);
  }

  lemma Quotient(rate: real, missing: real)
    requires rate > 0.0 && missing >= 0.0
    ensures missing / rate >= 0.0 && (missing / rate == 0.0 ==> missing == 0.0)
  {}

  /** The first tick more than 600 seconds on. */
  lemma TicksToIdle(tick: real) returns (k: nat)
    requires tick > 0.0
    ensures STALE_AFTER < Ticks(tick, k) <= STALE_AFTER + tick
  {
    EarnedPeriod(tick, STALE_AFTER);
    var exact := STALE_AFTER / tick;
    Quotient(tick, STALE_AFTER);
    k := exact.Floor + 1;
    EarnedMono(tick, exact, k as real);
    EarnedMono(tick, (k - 1) as real, exact);
    EarnedSum(tick, (k - 1) as real, 1.0);
  }

  /** A call at the moment the bucket was last seen earns nothing and cannot be swept. */
  lemma TouchNow(b: Bucket, lim: Limit)
    requires b.tokens <= lim.burst
    ensures Refilled(b, lim, b.lastSeen) == b.tokens
  {
    EarnedSum(lim.rps, 0.0, 0.0);
  }

  lemma WaitedUntil(tick: real, at: int, k: nat) returns (now: real)
    requires Ticks(tick, k) >= 0.0
    ensures now == Ticks(tick, at + k) == Ticks(tick, at) + Ticks(tick, k) && OnClock(tick, now)
  {
    TicksSum(tick, at, k);
    now := Ticks(tick, at + k);
  }

  // ---- more tokens show ---------------------------------------------------------------------

  /** Once the store holds a tick's refill more for a client than the ideal does, some continuation
      shows it. */
  lemma {:induction false} MoreTokensShow(s: Store, ideal: map<string, Bucket>, lim: Limit, tick: real, at: int)
    returns (calls: seq<Call>)
    requires lim.rps > 0.0 && lim.burst >= 1.0 && tick > 0.0 && BothSeen(s, ideal, Ticks(tick, at))
    requires 0.0 <= ideal[CLIENT].tokens && s.visitors[CLIENT].tokens <= lim.burst
    requires ideal[CLIENT].tokens + Earned(lim.rps, tick) <= s.visitors[CLIENT].tokens
    ensures Separates(s, ideal, lim, tick, Ticks(tick, at), calls)
    decreases ideal[CLIENT].tokens.Floor
  {
    EarnedMono(tick, 0.0, lim.rps);
    hide Earned, Ticks;
    var t, b, b' := Ticks(tick, at), s.visitors[CLIENT], ideal[CLIENT];
    TouchNow(b, lim);
    TouchNow(b', lim);
    if b'.tokens >= 1.0 {
      var c := Call(CLIENT, t);
      var rest := MoreTokensShow(Step(s, lim, c).0, Touch(ideal, lim, c).0, lim, tick, at);
      Prepend(s, ideal, lim, tick, t, c, rest);
      return [c] + rest;
    }
    // Wait for the first tick at which the fuller bucket holds a token.
    var k := TicksToEarn(lim.rps, tick, if b.tokens < 1.0 then 1.0 - b.tokens else 0.0);
    var now := WaitedUntil(tick, at, k);
    calls := [Call(CLIENT, now)];
    assert now - t == Ticks(tick, k);
    OneCallSeparates(s, ideal, lim, tick, t, calls[0]);
  }

  /** The limits a sweep betrays: an evicted client gets back more than it would have earned. */
  ghost predicate Betrayed(lim: Limit, tick: real, left: real) {
    || lim.burst < 1.0
    || (0.0 <= left < Earned(lim.rps, tick) && lim.burst >= Earned(lim.rps, STALE_AFTER + 3.0 * tick))
  }

  lemma StillShort(lim: Limit, tick: real, left: real, idle: real)
    requires lim.rps > 0.0 && lim.burst >= 1.0 && Betrayed(lim, tick, left) && idle <= STALE_AFTER + tick
    ensures left + Earned(lim.rps, idle) + Earned(lim.rps, tick) < lim.burst
  {
    EarnedMono(lim.rps, idle, STALE_AFTER + tick);
    EarnedSum(lim.rps, STALE_AFTER + tick, tick);
    EarnedSum(lim.rps, STALE_AFTER + 2.0 * tick, tick);
    assert STALE_AFTER + tick + tick == STALE_AFTER + 2.0 * tick;
    assert STALE_AFTER + 2.0 * tick + tick == STALE_AFTER + 3.0 * tick;
  }

  /** The next call sweeps: a client idle for just over 600 seconds is treated as new. */
  lemma SweepShows(s: Store, ideal: map<string, Bucket>, lim: Limit, tick: real, at: int) returns (calls: seq<Call>)
    requires lim.rps > 0.0 && tick > 0.0 && BothSeen(s, ideal, Ticks(tick, at))
    requires Betrayed(lim, tick, ideal[CLIENT].tokens) && Ticked(s.calls) % SWEEP_EVERY == 0
    ensures Separates(s, ideal, lim, tick, Ticks(tick, at), calls)
  {
    var k := TicksToIdle(tick);
    var now := WaitedUntil(tick, at, k);
    var t, c := Ticks(tick, at), Call(CLIENT, now);
    EarnedMono(lim.rps, 0.0, Ticks(tick, k));
    EarnedMono(lim.rps, 0.0, tick);
    if lim.burst >= 1.0 {
      StillShort(lim, tick, ideal[CLIENT].tokens, Ticks(tick, k));
    }
    hide Earned, Ticks, OnClock;
    assert now - t == Ticks(tick, k);
    if lim.burst >= 1.0 && Touch(ideal, lim, c).1 {
      var rest := MoreTokensShow(Step(s, lim, c).0, Touch(ideal, lim, c).0, lim, tick, at + k);
      Prepend(s, ideal, lim, tick, t, c, rest);
      calls := [c] + rest;
    } else {
      calls := [c];
      OneCallSeparates(s, ideal, lim, tick, t, c);
    }
  }

  /** Calls still to come before the one that sweeps, through a wrap of the counter if need be. */
  function UntilSweep(calls: nat): nat {
    if calls < UINT64 - 616 || calls >= UINT64 then 999 - calls % SWEEP_EVERY else UINT64 - calls + 999
  }

  lemma {:induction false} SweepReached(s: Store, ideal: map<string, Bucket>, lim: Limit, tick: real, at: int)
    returns (calls: seq<Call>)
    requires lim.rps > 0.0 && tick > 0.0 && BothSeen(s, ideal, Ticks(tick, at)) && s.calls < UINT64
    requires Betrayed(lim, tick, ideal[CLIENT].tokens)
    ensures Separates(s, ideal, lim, tick, Ticks(tick, at), calls)
    decreases UntilSweep(s.calls)
  {
    if Ticked(s.calls) % SWEEP_EVERY == 0 {
      calls := SweepShows(s, ideal, lim, tick, at);
    } else {
      var c := Call(OTHER, Ticks(tick, at));
      var rest := SweepReached(Step(s, lim, c).0, Touch(ideal, lim, c).0, lim, tick, at);
      Prepend(s, ideal, lim, tick, c.now, c, rest);
      calls := [c] + rest;
    }
  }

  /** Spend whole tokens at one instant until less than a tick's refill is left. */
  lemma {:induction false} Spend(s: Store, ideal: map<string, Bucket>, lim: Limit, tick: real, at: int,
                                 whole: nat, left: real) returns (calls: seq<Call>)
    requires lim.rps > 0.0 && tick > 0.0 && BothSeen(s, ideal, Ticks(tick, at)) && s.calls < UINT64
    requires s.visitors[CLIENT] == ideal[CLIENT] && ideal[CLIENT].tokens == whole as real + left <= lim.burst
    requires 0.0 <= left && Betrayed(lim, tick, left)
    ensures Separates(s, ideal, lim, tick, Ticks(tick, at), calls)
    decreases whole
  {
    hide Earned, Ticks;
    if whole == 0 {
      calls := SweepReached(s, ideal, lim, tick, at);
    } else {
      TouchNow(ideal[CLIENT], lim);
      var c := Call(CLIENT, Ticks(tick, at));
      var rest := Spend(Step(s, lim, c).0, Touch(ideal, lim, c).0, lim, tick, at, whole - 1, left);
      Prepend(s, ideal, lim, tick, c.now, c, rest);
      calls := [c] + rest;
    }
  }

  /** Arrive at a tick when the bucket holds a whole number of tokens and less than a tick's refill. */
  lemma SpendWhole(s: Store, ideal: map<string, Bucket>, lim: Limit, tick: real) returns (calls: seq<Call>)
    requires lim.rps > 0.0 && tick > 0.0 && lim.burst >= Earned(lim.rps, STALE_AFTER + 3.0 * tick)
    requires lim.burst >= 1.0 && BothSeen(s, ideal, Ticks(tick, 0))
    requires s.visitors[CLIENT] == ideal[CLIENT] == Bucket(lim.burst - 1.0, Ticks(tick, 0)) && s.calls == 1
    ensures Separates(s, ideal, lim, tick, Ticks(tick, 0), calls)
  {
    var whole, one := (lim.burst - 1.0).Floor, Earned(lim.rps, tick);
    var left := lim.burst - 1.0 - whole as real;
    if left < one {
      calls := Spend(s, ideal, lim, tick, 0, whole, left);
    } else {
      var k := TicksToEarn(lim.rps, tick, 1.0 - left);
      var now := WaitedUntil(tick, 0, k);
      var c := Call(CLIENT, now);
      hide Earned, Ticks, OnClock;
      assert now - Ticks(tick, 0) == Ticks(tick, k);
      var tokens := lim.burst - 1.0 + Earned(lim.rps, Ticks(tick, k));
      assert whole as real + 1.0 <= tokens < whole as real + 1.0 + one <= lim.burst;
      var rest := Spend(Step(s, lim, c).0, Touch(ideal, lim, c).0, lim, tick, k, whole, tokens - 1.0 - whole as real);
      Prepend(s, ideal, lim, tick, Ticks(tick, 0), c, rest);
      calls := [c] + rest;
    }
  }

  /** On any clock, however coarse, a burst below 1 shows, and so does one that exceeds 600 seconds'
      refill by that of three ticks. */
  lemma EvictionShows(lim: Limit, tick: real) returns (calls: seq<Call>)
    requires lim.rps > 0.0 && tick > 0.0
    requires lim.burst < 1.0 || lim.burst >= Earned(lim.rps, STALE_AFTER + 3.0 * tick)
    ensures Nondecreasing(calls) && Clocked(tick, calls)
    ensures Decisions(EMPTY, lim, calls) != IdealDecisions(map[], lim, calls)
  {
    var first := Call(CLIENT, Ticks(tick, 0));
    var s, ideal := Step(EMPTY, lim, first).0, Touch(map[], lim, first).0;
    var rest;
    if lim.burst < 1.0 {
      rest := SweepReached(s, ideal, lim, tick, 0);
    } else {
      rest := SpendWhole(s, ideal, lim, tick);
    }
    Prepend(EMPTY, map[], lim, tick, first.now, first, rest);
    calls := [first] + rest;
  }

  /** A clock fine enough for the burst in hand. */
  lemma FineTick(lim: Limit) returns (tick: real)
    requires lim.rps > 0.0 && lim.burst > Earned(lim.rps, STALE_AFTER)
    ensures tick > 0.0 && lim.burst == Earned(lim.rps, STALE_AFTER + 3.0 * tick)
  {
    var excess := lim.burst - Earned(lim.rps, STALE_AFTER);
    Quotient(lim.rps, excess);
    EarnedPeriod(lim.rps, excess);
    tick := excess / lim.rps / 3.0;
    assert 3.0 * tick == excess / lim.rps;
    EarnedSum(lim.rps, STALE_AFTER, 3.0 * tick);
  }

  /** The exact condition for a clock of any precision: the sweep is invisible on every run whose
      clock never goes back if and only if 1 <= burst <= 600 * rps. */
  lemma SweepInvisibleIff(lim: Limit)
    requires lim.rps > 0.0
    ensures 1.0 <= lim.burst <= 600.0 * lim.rps <==>
            forall calls | Nondecreasing(calls) :: Decisions(EMPTY, lim, calls) == IdealDecisions(map[], lim, calls)
  {
    if Forgettable(lim) {
      forall calls | Nondecreasing(calls)
        ensures Decisions(EMPTY, lim, calls) == IdealDecisions(map[], lim, calls)
      {
        SweepInvisible(lim, calls);
      }
    } else {
      var tick := 1.0;
      if lim.burst >= 1.0 {
        tick := FineTick(lim);
      }
      var calls := EvictionShows(lim, tick);
    }
  }

  const NANOSECOND: real := 0.000000001

  ghost predicate SweepInvisibleByNanoseconds(lim: Limit) {
    forall calls | Nondecreasing(calls) && Clocked(NANOSECOND, calls) ::
      Decisions(EMPTY, lim, calls) == IdealDecisions(map[], lim, calls)
  }

  /** On the clock the gateway has, the sweep is invisible for bursts from 1 up to the refill of 600
      seconds and one nanosecond, and visible below 1 and from 600 seconds and three nanoseconds on. */
  lemma NanosecondClock(lim: Limit)
    requires lim.rps > 0.0
    ensures 1.0 <= lim.burst <= 600.000000001 * lim.rps ==> SweepInvisibleByNanoseconds(lim)
    ensures lim.burst < 1.0 || lim.burst >= 600.000000003 * lim.rps ==> !SweepInvisibleByNanoseconds(lim)
  {
    if ForgettableOn(lim, NANOSECOND) {
      assert STALE_AFTER == Ticks(NANOSECOND, 600_000_000_000);
      forall calls | Nondecreasing(calls) && Clocked(NANOSECOND, calls)
        ensures Decisions(EMPTY, lim, calls) == IdealDecisions(map[], lim, calls)
      {
        SweepInvisibleOn(lim, NANOSECOND, calls);
      }
    }
    if lim.burst < 1.0 || lim.burst >= Earned(lim.rps, STALE_AFTER + 3.0 * NANOSECOND) {
      var calls := EvictionShows(lim, NANOSECOND);
      assert !SweepInvisibleByNanoseconds(lim);
    }
  }

  // ---- the limits a configuration can declare -----------------------------

  datatype Declared = Declared(rps: real, burst: real, burstGiven: bool)

  datatype Accepted = Limited(lim: Limit) | Refused

  /** requests_per_second must be positive; a declared burst must be at least 1, an undeclared one
      is requests_per_second itself. */
  function NewLimit(d: Declared): Accepted {
    if d.rps <= 0.0 then Refused
    else if !d.burstGiven then Limited(Limit(d.rps, d.rps))
    else if d.burst < 1.0 then Refused
    else Limited(Limit(d.rps, d.burst))
  }

  /** A declaration is refused exactly if its rate is not positive or it gives a burst below 1, and
      what the exact condition means for one that is accepted. */
  lemma DeclaredSweepInvisibleIff(d: Declared)
    ensures NewLimit(d).Limited? <==> d.rps > 0.0 && (d.burstGiven ==> d.burst >= 1.0)
    ensures NewLimit(d).Limited? ==>
      var lim := NewLimit(d).lim;
      && lim.rps == d.rps && lim.burst == (if d.burstGiven then d.burst else d.rps)
      && ((if d.burstGiven then d.burst <= 600.0 * d.rps else d.rps >= 1.0) <==>
          forall calls | Nondecreasing(calls) :: Decisions(EMPTY, lim, calls) == IdealDecisions(map[], lim, calls))
  {
    if NewLimit(d).Limited? {
      SweepInvisibleIff(NewLimit(d).lim);
    }
  }

  // ---- a burst below 1 ------------------------------------------------------------------------

  /** When the calls of a key that the store allowed were made. */
  function Granted(calls: seq<Call>, decisions: seq<bool>, key: string): seq<real>
    requires |calls| == |decisions|
  {
    if calls == [] then []
    else
      (if calls[0].key == key && decisions[0] then [calls[0].now] else []) + Granted(calls[1..], decisions[1..], key)
  }

  ghost predicate FarApart(times: seq<real>) {
    forall i | 0 < i < |times| :: times[i] - times[i - 1] > 600.0
  }

  /** A key granted its last call at `last` gets another one only once it has been evicted. */
  lemma {:induction false} GrantsFarApart(s: Store, lim: Limit, calls: seq<Call>, key: string, t: real, last: real)
    requires lim.burst < 1.0 && NondecreasingFrom(t, calls) && last <= t
    requires if key in s.visitors then s.visitors[key].lastSeen >= last else t - last > STALE_AFTER
    ensures |Decisions(s, lim, calls)| == |calls|
    ensures FarApart([last] + Granted(calls, Decisions(s, lim, calls), key))
    decreases |calls|
  {
    if calls != [] {
      var (s', ok) := Step(s, lim, calls[0]);
      assert Decisions(s, lim, calls)[1..] == Decisions(s', lim, calls[1..]);
      var c := calls[0];
      if c.key == key && ok {
        assert key !in Seen(s, c.now);
        GrantsFarApart(s', lim, calls[1..], key, c.now, c.now);
        var later := Granted(calls[1..], Decisions(s', lim, calls[1..]), key);
        assert [last] + ([c.now] + later) == [last] + [c.now] + later;
        Further(last, c.now, later);
      } else {
        GrantsFarApart(s', lim, calls[1..], key, c.now, last);
        assert Granted(calls, Decisions(s, lim, calls), key) ==
               Granted(calls[1..], Decisions(s', lim, calls[1..]), key);
      }
    }
  }

  lemma Further(last: real, next: real, later: seq<real>)
    requires next - last > STALE_AFTER && FarApart([next] + later)
    ensures FarApart([last] + [next] + later)
  {
    var times := [last] + [next] + later;
    forall i | 0 < i < |times| ensures times[i] - times[i - 1] > STALE_AFTER {
      if i > 1 {
        assert times[i] == ([next] + later)[i - 1] && times[i - 1] == ([next] + later)[i - 2];
      }
    }
  }

  lemma {:induction false} FirstIsGranted(s: Store, lim: Limit, calls: seq<Call>, key: string, t: real)
    requires lim.burst < 1.0 && NondecreasingFrom(t, calls) && key !in s.visitors
    ensures |Decisions(s, lim, calls)| == |calls|
    ensures var times, granted := OwnTimes(calls, key), Granted(calls, Decisions(s, lim, calls), key);
      && FarApart(granted) && (times != [] ==> granted != [] && granted[0] == times[0])
    decreases |calls|
  {
    if calls != [] {
      var s' := Step(s, lim, calls[0]).0;
      assert Decisions(s, lim, calls)[1..] == Decisions(s', lim, calls[1..]);
      if calls[0].key == key {
        GrantsFarApart(s', lim, calls[1..], key, calls[0].now, calls[0].now);
      } else {
        FirstIsGranted(s', lim, calls[1..], key, calls[0].now);
      }
    }
  }

  /** With the default burst and requests_per_second below 1, a client is granted its first call and
      then none until it has been idle and evicted: its granted calls are more than 600 seconds
      apart, in every run of the store, however slowly it calls. */
  lemma DefaultBurstBelowOneGrants(d: Declared, calls: seq<Call>, key: string)
    requires NewLimit(d).Limited? && !d.burstGiven && d.rps < 1.0 && Nondecreasing(calls)
    ensures |Decisions(EMPTY, NewLimit(d).lim, calls)| == |calls|
    ensures var times := OwnTimes(calls, key);
      var granted := Granted(calls, Decisions(EMPTY, NewLimit(d).lim, calls), key);
      && FarApart(granted) && (times != [] ==> granted != [] && granted[0] == times[0])
  {
    FirstIsGranted(EMPTY, NewLimit(d).lim, calls, key, if calls == [] then 0.0 else calls[0].now);
  }
}
