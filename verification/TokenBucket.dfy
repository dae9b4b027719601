/** The in-memory token bucket of rate_limiting, as pure functions of the store's contents.
    `Step` is what one `allow` call does to a store that sweeps idle keys; `Touch` alone is an
    ideal store that never forgets a key. The theorems compare the two and bound what a key is
    ever granted. Seconds and tokens are exact reals. */
module TokenBucket {

  const STALE_AFTER: real := 600.0
  const SWEEP_EVERY: nat := 1000
  const UINT64: nat := 0x1_0000_0000_0000_0000

  datatype Limit = Limit(rps: real, burst: real)

  datatype Bucket = Bucket(tokens: real, lastSeen: real)

  datatype Store = Store(visitors: map<string, Bucket>, calls: nat)

  datatype Call = Call(key: string, now: real)

  const EMPTY := Store(map[], 0)

  // ---- one call ---------------------------------------------------------

  /** What a rate earns over a span of time. Proofs that only need the lemmas below hide it. */
  function Earned(rate: real, span: real): real {
    span * rate
  }

  function Refilled(b: Bucket, lim: Limit, now: real): real {
    var tokens := b.tokens + Earned(lim.rps, now - b.lastSeen);
    if tokens > lim.burst then lim.burst else tokens
  }

  function Touched(b: Bucket, lim: Limit, now: real): (Bucket, bool) {
    var tokens := Refilled(b, lim, now);
    if tokens < 1.0 then (Bucket(tokens, now), false) else (Bucket(tokens - 1.0, now), true)
  }

  function Touch(visitors: map<string, Bucket>, lim: Limit, c: Call): (map<string, Bucket>, bool) {
    if c.key !in visitors then
      (visitors[c.key := Bucket(lim.burst - 1.0, c.now)], true)
    else
      var (b, ok) := Touched(visitors[c.key], lim, c.now);
      (visitors[c.key := b], ok)
  }

  function Sweep(visitors: map<string, Bucket>, now: real): map<string, Bucket> {
    map key | key in visitors && now - visitors[key].lastSeen <= STALE_AFTER :: visitors[key]
  }

  function Ticked(calls: nat): nat {
    (calls + 1) % UINT64
  }

  /** The visitors the call itself looks at: swept first on every thousandth call. */
  function Seen(s: Store, now: real): map<string, Bucket> {
    if Ticked(s.calls) % SWEEP_EVERY == 0 then Sweep(s.visitors, now) else s.visitors
  }

  function Step(s: Store, lim: Limit, c: Call): (Store, bool) {
    var (visitors, ok) := Touch(Seen(s, c.now), lim, c);
    (Store(visitors, Ticked(s.calls)), ok)
  }

  // ---- runs -------------------------------------------------------------

  function Decisions(s: Store, lim: Limit, calls: seq<Call>): seq<bool>
    decreases |calls|
  {
    if calls == [] then []
    else
      var (s', ok) := Step(s, lim, calls[0]);
      [ok] + Decisions(s', lim, calls[1..])
  }

  function IdealDecisions(visitors: map<string, Bucket>, lim: Limit, calls: seq<Call>): seq<bool>
    decreases |calls|
  {
    if calls == [] then []
    else
      var (visitors', ok) := Touch(visitors, lim, calls[0]);
      [ok] + IdealDecisions(visitors', lim, calls[1..])
  }

  ghost predicate NondecreasingFrom(t: real, calls: seq<Call>)
    decreases |calls|
  {
    calls == [] || (t <= calls[0].now && NondecreasingFrom(calls[0].now, calls[1..]))
  }

  ghost predicate Nondecreasing(calls: seq<Call>) {
    calls == [] || NondecreasingFrom(calls[0].now, calls)
  }

  lemma EarnedMono(rate: real, shorter: real, longer: real)
    requires rate >= 0.0 && shorter <= longer
    ensures Earned(rate, shorter) <= Earned(rate, longer)
    ensures rate > 0.0 && shorter < longer ==> Earned(rate, shorter) < Earned(rate, longer)
    ensures shorter >= 0.0 ==> Earned(rate, shorter) >= 0.0
  {}

  lemma EarnedSum(rate: real, first: real, second: real)
    ensures Earned(rate, first + second) == Earned(rate, first) + Earned(rate, second)
  {}

  lemma EarnedFaster(slower: real, faster: real, span: real)
    requires slower <= faster && span >= 0.0
    ensures Earned(slower, span) <= Earned(faster, span)
  {}

  lemma EarnedPeriod(rate: real, tokens: real)
    requires rate > 0.0
    ensures Earned(rate, tokens / rate) == tokens
  {}

  // ---- what a sweep removes ---------------------------------------------

  function After(s: Store, lim: Limit, calls: seq<Call>): Store
    decreases |calls|
  {
    if calls == [] then s else After(Step(s, lim, calls[0]).0, lim, calls[1..])
  }

  lemma {:induction false} CallsCounted(s: Store, lim: Limit, calls: seq<Call>)
    requires s.calls < UINT64
    ensures After(s, lim, calls).calls == (s.calls + |calls|) % UINT64
    decreases |calls|
  {
    if calls != [] {
      CallsCounted(Step(s, lim, calls[0]).0, lim, calls[1..]);
      hide After, Step;
      WrapTwice(s.calls, |calls| - 1);
    }
  }

  lemma WrapTwice(calls: nat, more: nat)
    requires calls < UINT64
    ensures (Ticked(calls) + more) % UINT64 == (calls + 1 + more) % UINT64
  {}

  /** What a call makes of the other keys: on the 1000th call of a store, on the 2000th, and so on
      until the counter wraps, exactly those idle for more than 600 seconds are forgotten; on any
      other call none is. */
  lemma EvictedIff(lim: Limit, before: seq<Call>, c: Call, key: string)
    requires key != c.key && |before| + 1 < UINT64
    ensures var s := After(EMPTY, lim, before);
      var s' := Step(s, lim, c).0;
      && (key in s'.visitors <==>
            key in s.visitors && !((|before| + 1) % 1000 == 0 && c.now - s.visitors[key].lastSeen > 600.0))
      && (key in s'.visitors ==> s'.visitors[key] == s.visitors[key])
  {
    CallsCounted(EMPTY, lim, before);
  }

  // ---- sweeping is invisible --------------------------------------------

  ghost predicate Forgettable(lim: Limit) {
    1.0 <= lim.burst <= Earned(lim.rps, STALE_AFTER)
  }

  function Ticks(tick: real, k: int): real {
    Earned(tick, k as real)
  }

  /** A time the clock can show: a whole number of ticks. A tick of 0 stands for any time at all. */
  ghost predicate OnClock(tick: real, t: real) {
    tick == 0.0 || exists k: int :: t == Ticks(tick, k)
  }

  ghost predicate Clocked(tick: real, calls: seq<Call>) {
    forall i | 0 <= i < |calls| :: OnClock(tick, calls[i].now)
  }

  /** On such a clock more than 600 seconds are at least one tick more. */
  ghost predicate ForgettableOn(lim: Limit, tick: real) {
    1.0 <= lim.burst <= Earned(lim.rps, STALE_AFTER + tick)
  }

  lemma TicksSum(tick: real, j: int, k: int)
    ensures Ticks(tick, j + k) == Ticks(tick, j) + Ticks(tick, k)
  {
    EarnedSum(tick, j as real, k as real);
  }

  lemma TickGap(tick: real, last: real, now: real)
    requires tick >= 0.0 && OnClock(tick, last) && OnClock(tick, now) && OnClock(tick, STALE_AFTER)
    requires now - last > STALE_AFTER
    ensures now - last >= STALE_AFTER + tick
  {
    if tick > 0.0 {
      var i: int :| last == Ticks(tick, i);
      var j: int :| now == Ticks(tick, j);
      var k: int :| STALE_AFTER == Ticks(tick, k);
      var more := j - i - k;
      TicksSum(tick, more, i);
      TicksSum(tick, j - k, k);
      if more <= 0 {
        EarnedMono(tick, more as real, 0.0);
      } else {
        EarnedMono(tick, 1.0, more as real);
      }
    }
  }

  /** Every bucket is within its limits and was last seen no later than `t`. */
  ghost predicate InRange(visitors: map<string, Bucket>, lim: Limit, t: real) {
    forall key | key in visitors ::
      0.0 <= visitors[key].tokens <= lim.burst && visitors[key].lastSeen <= t
  }

  /** The swept store holds the same buckets as the ideal one, except for keys whose ideal bucket
      would be full again by `t`. */
  ghost predicate Forgetful(kept: map<string, Bucket>, ideal: map<string, Bucket>, lim: Limit, t: real) {
    && (forall key | key in kept :: key in ideal && ideal[key] == kept[key])
    && (forall key | key in ideal && key !in kept :: Refilled(ideal[key], lim, t) == lim.burst)
  }

  lemma TouchInRange(visitors: map<string, Bucket>, lim: Limit, t: real, c: Call)
    requires lim.rps > 0.0 && lim.burst >= 1.0
    requires InRange(visitors, lim, t) && t <= c.now
    ensures InRange(Touch(visitors, lim, c).0, lim, c.now)
  {
    hide Earned;
    if c.key in visitors {
      EarnedMono(lim.rps, 0.0, c.now - visitors[c.key].lastSeen);
    }
  }

  lemma StaysFull(b: Bucket, lim: Limit, t: real, now: real)
    requires lim.rps > 0.0 && t <= now && Refilled(b, lim, t) == lim.burst
    ensures Refilled(b, lim, now) == lim.burst
  {
    EarnedMono(lim.rps, t - b.lastSeen, now - b.lastSeen);
  }

  lemma IdleIsFull(b: Bucket, lim: Limit, tick: real, now: real)
    requires lim.rps > 0.0 && ForgettableOn(lim, tick) && 0.0 <= b.tokens
    requires now - b.lastSeen >= STALE_AFTER + tick
    ensures Refilled(b, lim, now) == lim.burst
  {
    EarnedMono(lim.rps, STALE_AFTER + tick, now - b.lastSeen);
  }

  ghost predicate SeenOnClock(tick: real, visitors: map<string, Bucket>) {
    forall key | key in visitors :: OnClock(tick, visitors[key].lastSeen)
  }

  lemma SweepForgetsOnlyFull(kept: map<string, Bucket>, ideal: map<string, Bucket>, lim: Limit, tick: real,
                             t: real, now: real)
    requires lim.rps > 0.0 && tick >= 0.0 && ForgettableOn(lim, tick) && t <= now
    requires OnClock(tick, STALE_AFTER) && OnClock(tick, now) && SeenOnClock(tick, ideal)
    requires InRange(ideal, lim, t) && Forgetful(kept, ideal, lim, t)
    ensures Forgetful(kept, ideal, lim, now) && Forgetful(Sweep(kept, now), ideal, lim, now)
  {
    hide OnClock, Refilled;
    forall key | key in ideal && key !in kept
      ensures Refilled(ideal[key], lim, now) == lim.burst
    {
      StaysFull(ideal[key], lim, t, now);
    }
    forall key | key in ideal && key !in Sweep(kept, now)
      ensures Refilled(ideal[key], lim, now) == lim.burst
    {
      if key in kept {
        TickGap(tick, ideal[key].lastSeen, now);
        IdleIsFull(ideal[key], lim, tick, now);
      } else {
        StaysFull(ideal[key], lim, t, now);
      }
    }
  }

  lemma {:induction false} ForgetfulRunsAgree(s: Store, ideal: map<string, Bucket>, lim: Limit, tick: real,
                                              t: real, calls: seq<Call>)
    requires lim.rps > 0.0 && tick >= 0.0 && ForgettableOn(lim, tick) && NondecreasingFrom(t, calls)
    requires OnClock(tick, STALE_AFTER) && Clocked(tick, calls) && SeenOnClock(tick, ideal)
    requires InRange(ideal, lim, t) && Forgetful(s.visitors, ideal, lim, t)
    ensures Decisions(s, lim, calls) == IdealDecisions(ideal, lim, calls)
    decreases |calls|
  {
    if calls != [] {
      var c := calls[0];
      SweepForgetsOnlyFull(s.visitors, ideal, lim, tick, t, c.now);
      TouchInRange(ideal, lim, t, c);
      ForgetfulRunsAgree(Step(s, lim, c).0, Touch(ideal, lim, c).0, lim, tick, c.now, calls[1..]);
    }
  }

  /** With a clock that never goes back and 1 <= burst <= 600 * rps, the sweep cannot be seen; on a
      clock that ticks, nor with a burst of up to one tick's refill more. */
  lemma SweepInvisibleOn(lim: Limit, tick: real, calls: seq<Call>)
    requires lim.rps > 0.0 && tick >= 0.0 && ForgettableOn(lim, tick) && Nondecreasing(calls)
    requires OnClock(tick, STALE_AFTER) && Clocked(tick, calls)
    ensures Decisions(EMPTY, lim, calls) == IdealDecisions(map[], lim, calls)
  {
    if calls != [] {
      ForgetfulRunsAgree(EMPTY, map[], lim, tick, calls[0].now, calls);
    }
  }

  lemma SweepInvisible(lim: Limit, calls: seq<Call>)
    requires lim.rps > 0.0 && Forgettable(lim) && Nondecreasing(calls)
    ensures Decisions(EMPTY, lim, calls) == IdealDecisions(map[], lim, calls)
  {
    assert STALE_AFTER + 0.0 == STALE_AFTER;
    SweepInvisibleOn(lim, 0.0, calls);
  }

  // ---- a key is decided by its own calls ---------------------------------

  function OwnTimes(calls: seq<Call>, key: string): seq<real> {
    if calls == [] then []
    else (if calls[0].key == key then [calls[0].now] else []) + OwnTimes(calls[1..], key)
  }

  function OwnDecisions(decisions: seq<bool>, calls: seq<Call>, key: string): seq<bool>
    requires |decisions| == |calls|
  {
    if calls == [] then []
    else (if calls[0].key == key then [decisions[0]] else []) + OwnDecisions(decisions[1..], calls[1..], key)
  }

  /** One bucket for one key: the first call always passes, later ones spend refilled tokens. */
  function Alone(b: Bucket, lim: Limit, times: seq<real>): seq<bool>
    decreases |times|
  {
    if times == [] then []
    else
      var (b', ok) := Touched(b, lim, times[0]);
      [ok] + Alone(b', lim, times[1..])
  }

  function AloneFromStart(lim: Limit, times: seq<real>): seq<bool> {
    if times == [] then [] else [true] + Alone(Bucket(lim.burst - 1.0, times[0]), lim, times[1..])
  }

  lemma DecisionsLength(s: Store, visitors: map<string, Bucket>, lim: Limit, calls: seq<Call>)
    ensures |Decisions(s, lim, calls)| == |IdealDecisions(visitors, lim, calls)| == |calls|
    decreases |calls|
  {
    if calls != [] {
      DecisionsLength(Step(s, lim, calls[0]).0, Touch(visitors, lim, calls[0]).0, lim, calls[1..]);
    }
  }

  lemma {:induction false} IdealIsPerKey(visitors: map<string, Bucket>, lim: Limit, calls: seq<Call>, key: string)
    requires |IdealDecisions(visitors, lim, calls)| == |calls|
    ensures OwnDecisions(IdealDecisions(visitors, lim, calls), calls, key) ==
            if key in visitors then Alone(visitors[key], lim, OwnTimes(calls, key))
            else AloneFromStart(lim, OwnTimes(calls, key))
    decreases |calls|
  {
    if calls != [] {
      var (visitors', ok) := Touch(visitors, lim, calls[0]);
      var rest := IdealDecisions(visitors', lim, calls[1..]);
      assert IdealDecisions(visitors, lim, calls)[1..] == rest;
      IdealIsPerKey(visitors', lim, calls[1..], key);
      if calls[0].key == key {
        assert OwnTimes(calls, key)[1..] == OwnTimes(calls[1..], key);
      } else {
        assert OwnTimes(calls, key) == OwnTimes(calls[1..], key);
      }
    }
  }

  /** Clients are isolated: what one key is granted depends on the times of its own calls only,
      whatever other keys do and whenever the sweep runs. */
  lemma KeysAreIsolated(lim: Limit, calls: seq<Call>, key: string)
    requires lim.rps > 0.0 && Forgettable(lim) && Nondecreasing(calls)
    ensures |Decisions(EMPTY, lim, calls)| == |calls|
    ensures OwnDecisions(Decisions(EMPTY, lim, calls), calls, key) == AloneFromStart(lim, OwnTimes(calls, key))
  {
    SweepInvisible(lim, calls);
    DecisionsLength(EMPTY, map[], lim, calls);
    IdealIsPerKey(map[], lim, calls, key);
  }

  ghost predicate Spaced(gap: real, times: seq<real>) {
    forall i :: 0 < i < |times| ==> times[i] - times[i - 1] >= gap
  }

  /** `gap` seconds earn at least one token. */
  ghost predicate EarnsOne(lim: Limit, gap: real) {
    lim.rps > 0.0 && lim.burst >= 1.0 && Earned(lim.rps, gap) >= 1.0
  }

  lemma RefilledByOne(b: Bucket, lim: Limit, gap: real, now: real)
    requires EarnsOne(lim, gap) && b.tokens >= 0.0 && now - b.lastSeen >= gap
    ensures Touched(b, lim, now).1 && Touched(b, lim, now).0.tokens >= 0.0
  {
    hide Earned;
    EarnedMono(lim.rps, gap, now - b.lastSeen);
  }

  /** `key` has what it needs for every call it still makes to be allowed. */
  ghost predicate Steady(s: Store, gap: real, times: seq<real>, key: string) {
    && Spaced(gap, times)
    && (key in s.visitors ==> s.visitors[key].tokens >= 0.0)
    && (key in s.visitors && times != [] ==> times[0] - s.visitors[key].lastSeen >= gap)
  }

  lemma SteadyStep(s: Store, lim: Limit, gap: real, times: seq<real>, c: Call, key: string)
    requires EarnsOne(lim, gap) && Steady(s, gap, times, key)
    requires c.key == key ==> times != [] && c.now == times[0]
    ensures var (s', ok) := Step(s, lim, c);
      Steady(s', gap, if c.key == key then times[1..] else times, key) && (c.key == key ==> ok)
  {
    hide Earned;
    if c.key == key {
      var rest := times[1..];
      forall i | 0 < i < |rest| ensures rest[i] - rest[i - 1] >= gap {
        assert rest[i] == times[i + 1] && rest[i - 1] == times[i];
      }
      if key in s.visitors {
        RefilledByOne(s.visitors[key], lim, gap, c.now);
      }
    }
  }

  lemma {:induction false} SteadyRun(s: Store, lim: Limit, gap: real, calls: seq<Call>, key: string)
    requires EarnsOne(lim, gap) && Steady(s, gap, OwnTimes(calls, key), key)
    ensures |Decisions(s, lim, calls)| == |calls|
    ensures false !in OwnDecisions(Decisions(s, lim, calls), calls, key)
    decreases |calls|
  {
    if calls != [] {
      var c, times := calls[0], OwnTimes(calls, key);
      var rest := OwnTimes(calls[1..], key);
      assert times == if c.key == key then [c.now] + rest else rest;
      assert c.key == key ==> times[1..] == rest;
      hide Step, Steady, EarnsOne;
      var s' := Step(s, lim, c).0;
      SteadyStep(s, lim, gap, times, c, key);
      SteadyRun(s', lim, gap, calls[1..], key);
      assert Decisions(s, lim, calls)[1..] == Decisions(s', lim, calls[1..]);
    }
  }

  /** With burst >= 1, a client that leaves 1/rps between its calls is never refused, whatever
      other clients do, whatever is evicted, and whatever timestamps the others carry. */
  lemma SteadyClientNeverRefused(lim: Limit, calls: seq<Call>, key: string)
    requires lim.rps > 0.0 && lim.burst >= 1.0 && Spaced(1.0 / lim.rps, OwnTimes(calls, key))
    ensures |Decisions(EMPTY, lim, calls)| == |calls|
    ensures false !in OwnDecisions(Decisions(EMPTY, lim, calls), calls, key)
  {
    EarnedPeriod(lim.rps, 1.0);
    SteadyRun(EMPTY, lim, 1.0 / lim.rps, calls, key);
  }
}
