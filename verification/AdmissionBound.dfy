/** How much one key can be granted in a stretch of time, for every configuration. */
module AdmissionBound {
  import opened TokenBucket

  /** Allowed calls by `key` with a timestamp in [t0, t1]. */
  function Admitted(calls: seq<Call>, decisions: seq<bool>, key: string, t0: real, t1: real): nat
    requires |calls| == |decisions|
  {
    if calls == [] then 0
    else
      (if calls[0].key == key && decisions[0] && t0 <= calls[0].now <= t1 then 1 else 0) +
      Admitted(calls[1..], decisions[1..], key, t0, t1)
  }

  /** Whole 600-second periods in a stretch of `d` seconds. */
  function Periods(d: real): int {
    (d / STALE_AFTER).Floor
  }

  /** What an eviction can give a key beyond what it would have earned while idle. */
  function Excess(lim: Limit): real {
    var idle := Earned(lim.rps, STALE_AFTER);
    if lim.burst > idle then lim.burst - idle else 0.0
  }

  /** Everything a key holding `held` tokens can still be granted in the next `span` seconds. */
  function Credit(lim: Limit, held: real, span: real): real {
    held + Earned(lim.rps, span) + Earned(Excess(lim), Periods(span) as real)
  }

  lemma PeriodsMono(d: real, e: real)
    requires 0.0 <= d <= e
    ensures 0 <= Periods(d) <= Periods(e)
    ensures e - d >= STALE_AFTER ==> Periods(d) + 1 <= Periods(e)
  {
    assert d / STALE_AFTER <= e / STALE_AFTER;
    if e - d >= STALE_AFTER {
      assert d / STALE_AFTER + 1.0 <= e / STALE_AFTER;
    }
  }

  lemma CreditLater(lim: Limit, held: real, idle: real, span: real)
    requires lim.rps > 0.0 && idle >= 0.0 && span >= 0.0
    ensures Credit(lim, held + Earned(lim.rps, idle), span) <= Credit(lim, held, idle + span)
  {
    PeriodsMono(span, idle + span);
    EarnedMono(Excess(lim), Periods(span) as real, Periods(idle + span) as real);
    EarnedSum(lim.rps, idle, span);
  }

  lemma CreditEvicted(lim: Limit, held: real, idle: real, span: real)
    requires lim.rps > 0.0 && lim.burst >= 1.0 && held >= 0.0 && idle > STALE_AFTER && span >= 0.0
    ensures Credit(lim, lim.burst, span) <= Credit(lim, held, idle + span)
  {
    PeriodsMono(span, idle + span);
    EarnedMono(Excess(lim), Periods(span) as real + 1.0, Periods(idle + span) as real);
    EarnedSum(Excess(lim), Periods(span) as real, 1.0);
    EarnedMono(lim.rps, STALE_AFTER, idle);
    EarnedSum(lim.rps, idle, span);
    assert Earned(Excess(lim), 1.0) == Excess(lim);
  }

  lemma CreditAtLeastHeld(lim: Limit, held: real, span: real)
    requires lim.rps > 0.0 && span >= 0.0
    ensures Credit(lim, held, span) >= held
  {
    PeriodsMono(0.0, span);
    EarnedMono(lim.rps, 0.0, span);
    EarnedMono(Excess(lim), 0.0, Periods(span) as real);
  }

  /** The credit of `key` for the window [t0, t1] when the clock stands at `t`. */
  function Potential(visitors: map<string, Bucket>, lim: Limit, key: string, t: real, t0: real, t1: real): real {
    if key in visitors && visitors[key].lastSeen >= t0
    then Credit(lim, visitors[key].tokens, t1 - visitors[key].lastSeen)
    else Credit(lim, lim.burst, if t < t0 then t1 - t0 else t1 - t)
  }

  lemma PotentialNonnegative(visitors: map<string, Bucket>, lim: Limit, key: string, t: real, t0: real, t1: real)
    requires lim.rps > 0.0 && lim.burst >= 1.0 && InRange(visitors, lim, t) && t <= t1 && t0 <= t1
    ensures Potential(visitors, lim, key, t, t0, t1) >= 0.0
  {
    if key in visitors && visitors[key].lastSeen >= t0 {
      CreditAtLeastHeld(lim, visitors[key].tokens, t1 - visitors[key].lastSeen);
    } else {
      CreditAtLeastHeld(lim, lim.burst, if t < t0 then t1 - t0 else t1 - t);
    }
  }

  lemma CreditShrinks(lim: Limit, held: real, shorter: real, longer: real)
    requires lim.rps > 0.0 && 0.0 <= shorter <= longer
    ensures Credit(lim, held, shorter) <= Credit(lim, held, longer)
  {
    var idle := longer - shorter;
    CreditLater(lim, held, idle, shorter);
    EarnedMono(lim.rps, 0.0, idle);
  }

  lemma SweepPotential(visitors: map<string, Bucket>, lim: Limit, key: string, t: real, now: real, t0: real, t1: real)
    requires lim.rps > 0.0 && lim.burst >= 1.0 && InRange(visitors, lim, t) && t <= now && now <= t1 && t0 <= t1
    ensures Potential(visitors, lim, key, now, t0, t1) <= Potential(visitors, lim, key, t, t0, t1)
    ensures Potential(Sweep(visitors, now), lim, key, now, t0, t1) <= Potential(visitors, lim, key, t, t0, t1)
  {
    CreditShrinks(lim, lim.burst, if now < t0 then t1 - t0 else t1 - now, if t < t0 then t1 - t0 else t1 - t);
    if key in visitors && visitors[key].lastSeen >= t0 && now - visitors[key].lastSeen > STALE_AFTER {
      CreditEvicted(lim, visitors[key].tokens, now - visitors[key].lastSeen, t1 - now);
    }
  }

  lemma TouchPotential(visitors: map<string, Bucket>, lim: Limit, key: string, c: Call, t0: real, t1: real)
    requires lim.rps > 0.0 && lim.burst >= 1.0 && InRange(visitors, lim, c.now) && c.now <= t1 && t0 <= t1
    ensures var (visitors', ok) := Touch(visitors, lim, c);
      Potential(visitors', lim, key, c.now, t0, t1) +
      (if c.key == key && ok && t0 <= c.now then 1.0 else 0.0) <= Potential(visitors, lim, key, c.now, t0, t1)
  {
    hide Earned;
    if c.key == key && t0 <= c.now {
      var span := t1 - c.now;
      if key in visitors && visitors[key].lastSeen >= t0 {
        var b := visitors[key];
        CreditLater(lim, b.tokens, c.now - b.lastSeen, span);
      }
    }
  }

  lemma {:induction false} LateCallsDoNotCount(calls: seq<Call>, decisions: seq<bool>, key: string,
                                               t0: real, t1: real, t: real)
    requires |calls| == |decisions| && NondecreasingFrom(t, calls) && t > t1
    ensures Admitted(calls, decisions, key, t0, t1) == 0
    decreases |calls|
  {
    if calls != [] {
      LateCallsDoNotCount(calls[1..], decisions[1..], key, t0, t1, calls[0].now);
    }
  }

  lemma {:induction false} AdmittedWithinPotential(s: Store, lim: Limit, t: real, calls: seq<Call>, key: string,
                                                   t0: real, t1: real)
    requires lim.rps > 0.0 && lim.burst >= 1.0 && NondecreasingFrom(t, calls)
    requires InRange(s.visitors, lim, t) && t <= t1 && t0 <= t1
    ensures |Decisions(s, lim, calls)| == |calls|
    ensures Admitted(calls, Decisions(s, lim, calls), key, t0, t1) as real <= Potential(s.visitors, lim, key, t, t0, t1)
    decreases |calls|
  {
    DecisionsLength(s, s.visitors, lim, calls);
    var all := Decisions(s, lim, calls);
    if calls == [] {
      PotentialNonnegative(s.visitors, lim, key, t, t0, t1);
    } else if calls[0].now > t1 {
      LateCallsDoNotCount(calls, all, key, t0, t1, calls[0].now);
      PotentialNonnegative(s.visitors, lim, key, t, t0, t1);
    } else {
      var c := calls[0];
      SweepPotential(s.visitors, lim, key, t, c.now, t0, t1);
      var seen := Seen(s, c.now);
      TouchPotential(seen, lim, key, c, t0, t1);
      TouchInRange(seen, lim, c.now, c);
      var s' := Step(s, lim, c).0;
      AdmittedWithinPotential(s', lim, c.now, calls[1..], key, t0, t1);
      assert all[1..] == Decisions(s', lim, calls[1..]);
    }
  }

  /** In any run with a clock that never goes back, a key's allowed calls in any window [t0, t1]
      number at most burst + rps * (t1 - t0), plus what evictions add beyond idle refill: at most
      burst - 600 * rps for each whole 600 seconds, and nothing when burst <= 600 * rps. */
  lemma AdmissionBounded(lim: Limit, calls: seq<Call>, key: string, t0: real, t1: real)
    requires lim.rps > 0.0 && lim.burst >= 1.0 && Nondecreasing(calls) && t0 <= t1
    ensures |Decisions(EMPTY, lim, calls)| == |calls|
    ensures Admitted(calls, Decisions(EMPTY, lim, calls), key, t0, t1) as real <=
            lim.burst + Earned(lim.rps, t1 - t0) + Earned(Excess(lim), Periods(t1 - t0) as real)
  {
    hide Earned;
    DecisionsLength(EMPTY, map[], lim, calls);
    if calls == [] {
      CreditAtLeastHeld(lim, lim.burst, t1 - t0);
    } else {
      var t := if calls[0].now < t0 then calls[0].now else t0;
      AdmittedWithinPotential(EMPTY, lim, t, calls, key, t0, t1);
      assert Potential(EMPTY.visitors, lim, key, t, t0, t1) == Credit(lim, lim.burst, t1 - t0);
    }
  }

  /** The same bound in its simpler form: a fresh burst per whole 600 seconds. */
  lemma AdmissionBoundedByBursts(lim: Limit, calls: seq<Call>, key: string, t0: real, t1: real, periods: nat)
    requires lim.rps > 0.0 && lim.burst >= 1.0 && Nondecreasing(calls) && t0 <= t1
    requires 600.0 * periods as real <= t1 - t0 < 600.0 * (periods + 1) as real
    ensures |Decisions(EMPTY, lim, calls)| == |calls|
    ensures var admitted := Admitted(calls, Decisions(EMPTY, lim, calls), key, t0, t1) as real;
      && admitted <= lim.burst * (1.0 + periods as real) + lim.rps * (t1 - t0)
      && (lim.burst <= 600.0 * lim.rps ==> admitted <= lim.burst + lim.rps * (t1 - t0))
  {
    hide *;
    PeriodsIs(t1 - t0, periods);
    AdmissionBounded(lim, calls, key, t0, t1);
    var admitted := Admitted(calls, Decisions(EMPTY, lim, calls), key, t0, t1) as real;
    ExcessSpread(lim, admitted, t1 - t0, periods as real);
  }

  lemma PeriodsIs(d: real, periods: nat)
    requires 600.0 * periods as real <= d < 600.0 * (periods + 1) as real
    ensures Periods(d) == periods
  {
    assert d / 600.0 - 1.0 < periods as real <= d / 600.0;
  }

  lemma ExcessSpread(lim: Limit, admitted: real, span: real, periods: real)
    requires lim.rps > 0.0 && lim.burst >= 1.0 && periods >= 0.0
    requires admitted <= lim.burst + Earned(lim.rps, span) + Earned(Excess(lim), periods)
    ensures admitted <= lim.burst * (1.0 + periods) + lim.rps * span
    ensures lim.burst <= 600.0 * lim.rps ==> admitted <= lim.burst + lim.rps * span
  {
    EarnedMono(lim.rps, 0.0, STALE_AFTER);
    EarnedIs(lim.rps, STALE_AFTER);
    EarnedFaster(Excess(lim), lim.burst, periods);
    EarnedIs(Excess(lim), periods);
    EarnedIs(lim.burst, periods);
    EarnedIs(lim.rps, span);
    hide Earned;
    assert lim.burst * (1.0 + periods) == lim.burst + lim.burst * periods;
  }

  lemma EarnedIs(rate: real, span: real)
    ensures Earned(rate, span) == rate * span
  {}

  // ---- across reloads --------------------------------------------------------

  function AdmittedBy(lim: Limit, calls: seq<Call>, key: string, t0: real, t1: real): nat {
    DecisionsLength(EMPTY, map[], lim, calls);
    Admitted(calls, Decisions(EMPTY, lim, calls), key, t0, t1)
  }

  /** A reload builds an empty store: `runs` are the calls that each store gets. */
  function AdmittedInAll(lim: Limit, runs: seq<seq<Call>>, key: string, t0: real, t1: real): nat {
    if runs == [] then 0
    else AdmittedBy(lim, runs[0], key, t0, t1) + AdmittedInAll(lim, runs[1..], key, t0, t1)
  }

  function LastAt(t: real, calls: seq<Call>): real
    decreases |calls|
  {
    if calls == [] then t else LastAt(calls[0].now, calls[1..])
  }

  /** One store after the other, with a clock that never goes back. */
  ghost predicate OneAfterAnother(t: real, runs: seq<seq<Call>>)
    decreases |runs|
  {
    runs == [] || (NondecreasingFrom(t, runs[0]) && OneAfterAnother(LastAt(t, runs[0]), runs[1..]))
  }

  lemma {:induction false} CallsBetween(t: real, calls: seq<Call>)
    requires NondecreasingFrom(t, calls)
    ensures t <= LastAt(t, calls) && forall i | 0 <= i < |calls| :: t <= calls[i].now <= LastAt(t, calls)
    decreases |calls|
  {
    if calls != [] {
      CallsBetween(calls[0].now, calls[1..]);
      assert forall i | 0 < i < |calls| :: calls[i] == calls[1..][i - 1];
    }
  }

  lemma {:induction false} AdmittedNarrowed(calls: seq<Call>, decisions: seq<bool>, key: string,
                                            t0: real, t1: real, u0: real, u1: real)
    requires |calls| == |decisions|
    requires forall i | 0 <= i < |calls| && t0 <= calls[i].now <= t1 :: u0 <= calls[i].now <= u1
    ensures Admitted(calls, decisions, key, t0, t1) <= Admitted(calls, decisions, key, u0, u1)
    decreases |calls|
  {
    if calls != [] {
      assert forall i | 0 < i < |calls| :: calls[i] == calls[1..][i - 1];
      AdmittedNarrowed(calls[1..], decisions[1..], key, t0, t1, u0, u1);
    }
  }

  lemma {:induction false} LaterRunsNarrowed(lim: Limit, t: real, runs: seq<seq<Call>>, key: string,
                                             t0: real, t1: real, u0: real)
    requires OneAfterAnother(t, runs) && (u0 <= t0 || u0 <= t || t1 < t)
    ensures AdmittedInAll(lim, runs, key, t0, t1) <= AdmittedInAll(lim, runs, key, u0, t1)
    decreases |runs|
  {
    if runs != [] {
      CallsBetween(t, runs[0]);
      DecisionsLength(EMPTY, map[], lim, runs[0]);
      AdmittedNarrowed(runs[0], Decisions(EMPTY, lim, runs[0]), key, t0, t1, u0, t1);
      LaterRunsNarrowed(lim, LastAt(t, runs[0]), runs[1..], key, t0, t1, u0);
    }
  }

  lemma NondecreasingAnyway(t: real, calls: seq<Call>)
    requires NondecreasingFrom(t, calls)
    ensures Nondecreasing(calls)
  {}

  /** What the bound of one store and that of the others add up to. */
  lemma SpansAddUp(lim: Limit, stores: nat, first: real, rest: real)
    requires lim.rps > 0.0 && lim.burst >= 1.0 && first >= 0.0 && rest >= 0.0
    ensures lim.burst + Earned(lim.rps, first) + Earned(Excess(lim), Periods(first) as real)
            + Earned(lim.burst, stores as real) + Earned(lim.rps, rest) + Earned(Excess(lim), Periods(rest) as real)
            <= Earned(lim.burst, (stores + 1) as real) + Earned(lim.rps, first + rest)
               + Earned(Excess(lim), Periods(first + rest) as real)
  {
    EarnedSum(lim.burst, stores as real, 1.0);
    EarnedSum(lim.rps, first, rest);
    PeriodsSum(first, rest);
    EarnedSum(Excess(lim), Periods(first) as real, Periods(rest) as real);
    EarnedMono(Excess(lim), Periods(first) as real + Periods(rest) as real, Periods(first + rest) as real);
  }

  lemma PeriodsSum(d: real, e: real)
    ensures Periods(d) + Periods(e) <= Periods(d + e)
  {
    assert (d + e) / STALE_AFTER == d / STALE_AFTER + e / STALE_AFTER;
  }

  /** The end of the first store's calls, within the window. */
  function EndWithin(last: real, t0: real, t1: real): real {
    if last < t0 then t0 else if last > t1 then t1 else last
  }

  lemma FirstStoreBounded(lim: Limit, t: real, calls: seq<Call>, key: string, t0: real, t1: real)
    requires lim.rps > 0.0 && lim.burst >= 1.0 && NondecreasingFrom(t, calls) && t0 <= t1
    ensures var mid := EndWithin(LastAt(t, calls), t0, t1);
      AdmittedBy(lim, calls, key, t0, t1) as real <=
      lim.burst + Earned(lim.rps, mid - t0) + Earned(Excess(lim), Periods(mid - t0) as real)
  {
    var mid := EndWithin(LastAt(t, calls), t0, t1);
    CallsBetween(t, calls);
    DecisionsLength(EMPTY, map[], lim, calls);
    AdmittedNarrowed(calls, Decisions(EMPTY, lim, calls), key, t0, t1, t0, mid);
    NondecreasingAnyway(t, calls);
    hide Earned, Decisions, Admitted, Excess, Periods, NondecreasingFrom;
    AdmissionBounded(lim, calls, key, t0, mid);
  }

  lemma CreditNonnegative(lim: Limit, stores: nat, span: real)
    requires lim.rps > 0.0 && lim.burst >= 1.0 && span >= 0.0
    ensures 0.0 <= Earned(lim.burst, stores as real) + Earned(lim.rps, span)
                   + Earned(Excess(lim), Periods(span) as real)
  {
    PeriodsMono(0.0, span);
    EarnedMono(lim.rps, 0.0, span);
    EarnedMono(Excess(lim), 0.0, Periods(span) as real);
    EarnedMono(lim.burst, 0.0, stores as real);
  }

  lemma {:induction false} AdmittedInAllBounded(lim: Limit, t: real, runs: seq<seq<Call>>, key: string,
                                                t0: real, t1: real)
    requires lim.rps > 0.0 && lim.burst >= 1.0 && OneAfterAnother(t, runs) && t0 <= t1
    ensures AdmittedInAll(lim, runs, key, t0, t1) as real <=
            Earned(lim.burst, |runs| as real) + Earned(lim.rps, t1 - t0) + Earned(Excess(lim), Periods(t1 - t0) as real)
    decreases |runs|
  {
    CreditNonnegative(lim, |runs|, t1 - t0);
    hide Earned, Excess, Periods, AdmittedBy, NondecreasingFrom;
    if runs != [] {
      var last := LastAt(t, runs[0]);
      var mid := EndWithin(last, t0, t1);
      FirstStoreBounded(lim, t, runs[0], key, t0, t1);
      LaterRunsNarrowed(lim, last, runs[1..], key, t0, t1, mid);
      AdmittedInAllBounded(lim, last, runs[1..], key, mid, t1);
      SpansAddUp(lim, |runs| - 1, mid - t0, t1 - mid);
      assert mid - t0 + (t1 - mid) == t1 - t0;
    }
  }

  /** Every reload of the configuration starts empty stores, so a key gets one more burst for each:
      with r reloads in a run, its allowed calls in any window number at most
      (r + 1) * burst + rps * (t1 - t0), plus what evictions add. */
  lemma AdmissionAcrossReloads(lim: Limit, runs: seq<seq<Call>>, key: string, t0: real, t1: real)
    requires lim.rps > 0.0 && lim.burst >= 1.0 && t0 <= t1 && exists t :: OneAfterAnother(t, runs)
    ensures AdmittedInAll(lim, runs, key, t0, t1) as real <=
            Earned(lim.burst, |runs| as real) + Earned(lim.rps, t1 - t0) + Earned(Excess(lim), Periods(t1 - t0) as real)
    ensures Forgettable(lim) ==>
            AdmittedInAll(lim, runs, key, t0, t1) as real <=
            Earned(lim.burst, |runs| as real) + Earned(lim.rps, t1 - t0)
  {
    var t :| OneAfterAnother(t, runs);
    AdmittedInAllBounded(lim, t, runs, key, t0, t1);
  }

  // ---- timestamps out of order -------------------------------------------

  /** `key` is in the store when each of these calls looks at it, and after. */
  ghost predicate Kept(s: Store, lim: Limit, calls: seq<Call>, key: string)
    decreases |calls|
  {
    key in s.visitors &&
    (calls == [] || (key in Seen(s, calls[0].now) && Kept(Step(s, lim, calls[0]).0, lim, calls[1..], key)))
  }

  /** All allowed calls by `key`, whatever their timestamps. */
  function Granted(calls: seq<Call>, decisions: seq<bool>, key: string): nat
    requires |calls| == |decisions|
  {
    if calls == [] then 0
    else (if calls[0].key == key && decisions[0] then 1 else 0) + Granted(calls[1..], decisions[1..], key)
  }

  function Balance(b: Bucket, lim: Limit): real {
    b.tokens - Earned(lim.rps, b.lastSeen)
  }

  lemma TouchedBalance(b: Bucket, lim: Limit, now: real)
    ensures var (b', ok) := Touched(b, lim, now);
      Balance(b', lim) + (if ok then 1.0 else 0.0) <= Balance(b, lim)
  {
    EarnedSum(lim.rps, now - b.lastSeen, b.lastSeen);
  }

  lemma BalanceSpread(first: Bucket, last: Bucket, lim: Limit)
    ensures Balance(first, lim) - Balance(last, lim) ==
            first.tokens - last.tokens + Earned(lim.rps, last.lastSeen - first.lastSeen)
  {}

  lemma {:induction false} BalanceFalls(s: Store, lim: Limit, calls: seq<Call>, key: string)
    requires Kept(s, lim, calls, key)
    ensures |Decisions(s, lim, calls)| == |calls| && key in After(s, lim, calls).visitors
    ensures Balance(After(s, lim, calls).visitors[key], lim) + Granted(calls, Decisions(s, lim, calls), key) as real
         <= Balance(s.visitors[key], lim)
    decreases |calls|
  {
    DecisionsLength(s, s.visitors, lim, calls);
    if calls != [] {
      var (s', ok) := Step(s, lim, calls[0]);
      var all := Decisions(s, lim, calls);
      assert all[1..] == Decisions(s', lim, calls[1..]);
      BalanceFalls(s', lim, calls[1..], key);
      assert After(s, lim, calls) == After(s', lim, calls[1..]);
      if calls[0].key == key {
        TouchedBalance(s.visitors[key], lim, calls[0].now);
      }
    }
  }

  lemma {:induction false} LastAllowedLeavesTokens(s: Store, lim: Limit, calls: seq<Call>, key: string)
    requires calls != [] && Kept(s, lim, calls, key)
    requires |Decisions(s, lim, calls)| == |calls|
    requires calls[|calls| - 1].key == key && Decisions(s, lim, calls)[|calls| - 1]
    ensures key in After(s, lim, calls).visitors
    ensures After(s, lim, calls).visitors[key].tokens >= 0.0
    ensures After(s, lim, calls).visitors[key].lastSeen == calls[|calls| - 1].now
    decreases |calls|
  {
    if |calls| > 1 {
      var s' := Step(s, lim, calls[0]).0;
      assert Decisions(s, lim, calls)[1..] == Decisions(s', lim, calls[1..]);
      LastAllowedLeavesTokens(s', lim, calls[1..], key);
    } else {
      assert After(s, lim, calls) == Step(s, lim, calls[0]).0;
    }
  }

  lemma GrantedAfter(s: Store, lim: Limit, calls: seq<Call>, key: string)
    requires calls != [] && Kept(s, lim, calls, key)
    requires |Decisions(s, lim, calls)| == |calls|
    requires calls[|calls| - 1].key == key && Decisions(s, lim, calls)[|calls| - 1]
    ensures Granted(calls, Decisions(s, lim, calls), key) as real <=
            s.visitors[key].tokens + Earned(lim.rps, calls[|calls| - 1].now - s.visitors[key].lastSeen)
  {
    hide Earned;
    BalanceFalls(s, lim, calls, key);
    LastAllowedLeavesTokens(s, lim, calls, key);
    BalanceSpread(s.visitors[key], After(s, lim, calls).visitors[key], lim);
  }

  /** Requests stamp themselves before they queue for the lock, so a store can see any order of
      timestamps. From the call that creates a key's bucket at `t1` up to an allowed call at `tm`,
      as long as the bucket is not evicted in between, the allowed calls number at most
      burst + rps * (tm - t1). */
  lemma OutOfOrderBounded(s: Store, lim: Limit, calls: seq<Call>, key: string)
    requires lim.burst >= 1.0
    requires calls != [] && calls[0].key == key && key !in Seen(s, calls[0].now)
    requires Kept(Step(s, lim, calls[0]).0, lim, calls[1..], key)
    requires |Decisions(s, lim, calls)| == |calls|
    requires calls[|calls| - 1].key == key && Decisions(s, lim, calls)[|calls| - 1]
    ensures Granted(calls, Decisions(s, lim, calls), key) as real <=
            lim.burst + Earned(lim.rps, calls[|calls| - 1].now - calls[0].now)
  {
    hide Earned;
    var s' := Step(s, lim, calls[0]).0;
    var all := Decisions(s, lim, calls);
    assert all[1..] == Decisions(s', lim, calls[1..]);
    assert s'.visitors[key] == Bucket(lim.burst - 1.0, calls[0].now);
    if |calls| > 1 {
      GrantedAfter(s', lim, calls[1..], key);
    } else {
      EarnedSum(lim.rps, 0.0, 0.0);
      assert Granted(calls, all, key) == 1;
    }
  }
}
