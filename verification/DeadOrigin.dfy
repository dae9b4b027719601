/** What an origin that never answers costs: in any run of requests that do not overlap, over any
    pool, with any probes, how many of them it is sent and how far apart. */
module DeadOrigin {
  import opened Origin
  import opened Selection
  import opened LoadBalancer
  import Retry
  import opened Wrappers

  datatype Event = Serve(now: int, outcomes: seq<Outcome>) | Probe(origin: nat, down: bool)

  /** A request sent to the dead origin, from the start of its scan to its recorded failure. */
  datatype Trial = Trial(start: int, end: int)

  datatype Play = Play(pool: Pool, clock: int, trials: seq<Trial>)

  /** Requests follow one another, and every round trip to `d` errors. */
  ghost predicate Possible(s: Play, e: Event, d: nat) {
    match e
    case Serve(now, outcomes) =>
      && |outcomes| == |s.pool.origins| && s.clock <= now
      && (forall o | 0 <= o < |outcomes| :: now <= outcomes[o].at)
      && d < |outcomes| && outcomes[d].Errors?
    case Probe(o, _) => o < |s.pool.origins|
  }

  function Next(s: Play, p: Policy, e: Event, d: nat): Play
    requires s.pool.origins != []
    requires e.Serve? ==> |e.outcomes| == |s.pool.origins|
    requires e.Probe? ==> e.origin < |s.pool.origins|
  {
    match e
    case Serve(now, outcomes) =>
      var (pool, sent) := Served(s.pool, p, now, outcomes);
      (match sent
       case None => Play(pool, now, s.trials)
       case Some(o) =>
         Play(pool, outcomes[o].at, if o == d then s.trials + [Trial(now, outcomes[o].at)] else s.trials))
    case Probe(o, down) =>
      s.(pool := s.pool.(origins := s.pool.origins[o := Probed(s.pool.origins[o], down)]))
  }

  ghost predicate PossibleRun(s: Play, p: Policy, events: seq<Event>, d: nat)
    requires s.pool.origins != []
    decreases |events|
  {
    events == [] || (Possible(s, events[0], d) && PossibleRun(Next(s, p, events[0], d), p, events[1..], d))
  }

  ghost function Run(s: Play, p: Policy, events: seq<Event>, d: nat): Play
    requires s.pool.origins != [] && PossibleRun(s, p, events, d)
    decreases |events|
  {
    if events == [] then s else Run(Next(s, p, events[0], d), p, events[1..], d)
  }

  function Start(n: nat, next: nat, clock: int): Play {
    Play(Pool(seq(n, _ => FRESH), next), clock, [])
  }

  // ---- the invariant ---------------------------------------------------------

  /** Trial j came after the cooldown its predecessor's failure started. */
  ghost predicate WaitedFor(trials: seq<Trial>, p: Policy, j: nat)
    requires 0 < j < |trials|
  {
    p.threshold <= j ==>
    trials[j].start > trials[j - 1].end + Doubled(p.breakerCooldown, Capped(j - p.threshold))
  }

  ghost predicate Inv(s: Play, p: Policy, d: nat) {
    && d < |s.pool.origins| && s.clock > ZERO_TIME
    && (forall o | 0 <= o < |s.pool.origins| :: Consistent(s.pool.origins[o]))
    && s.pool.origins[d].consecutiveFailures == |s.trials|
    && (s.trials != [] ==> s.pool.origins[d].lastFailureAt == s.trials[|s.trials| - 1].end <= s.clock)
    && (forall j | 0 <= j < |s.trials| :: s.trials[j].start <= s.trials[j].end)
    && (forall j | 0 < j < |s.trials| :: s.trials[j - 1].end <= s.trials[j].start && WaitedFor(s.trials, p, j))
  }

  lemma PickIsNotOpen(pool: Pool, p: Policy, now: int, ticket: nat)
    requires pool.origins != [] && forall o | 0 <= o < |pool.origins| :: Consistent(pool.origins[o])
    ensures var sent := Pick(pool.origins, ticket, now, p);
      sent.Some? ==> sent.value < |pool.origins| && !BreakerOpen(pool.origins[sent.value], now, p)
  {
    var n := |pool.origins|;
    var round := FirstAvailable(pool.origins, ticket, now, p, 0);
    FirstAvailableIsFirst(pool.origins, ticket, now, p, 0);
    if round < n {
      AvailableIsNotOpen(pool.origins[Visited(ticket, round, n)], now, p);
    }
  }

  lemma NextKeepsInv(s: Play, p: Policy, e: Event, d: nat)
    requires Inv(s, p, d) && Tunable(p) && Possible(s, e, d)
    ensures Inv(Next(s, p, e, d), p, d)
  {
    hide Pick, Doubled, EscalatedCooldown, Ticket, Available;
    if e.Serve? {
      var sent := Pick(s.pool.origins, Ticket(s.pool.next), e.now, p);
      PickIsNotOpen(s.pool, p, e.now, Ticket(s.pool.next));
      if sent == Some(d) {
        var k := |s.trials|;
        var s' := Next(s, p, e, d);
        if p.threshold <= k {
          EscalationExact(p.breakerCooldown, k - p.threshold);
        }
        assert forall j | 0 < j < k :: WaitedFor(s.trials, p, j) ==> WaitedFor(s'.trials, p, j);
        if k > 0 {
          assert WaitedFor(s'.trials, p, k);
        }
      }
    }
  }

  lemma {:induction false} RunKeepsInv(s: Play, p: Policy, events: seq<Event>, d: nat)
    requires Inv(s, p, d) && Tunable(p) && PossibleRun(s, p, events, d)
    ensures Inv(Run(s, p, events, d), p, d)
    decreases |events|
  {
    if events != [] {
      NextKeepsInv(s, p, events[0], d);
      RunKeepsInv(Next(s, p, events[0], d), p, events[1..], d);
    }
  }

  lemma {:induction false} WaitsAddUp(trials: seq<Trial>, p: Policy, k: nat)
    requires p.threshold > 0 && 0 < k && p.threshold + k - 1 < |trials|
    requires forall j | 0 <= j < |trials| :: trials[j].start <= trials[j].end
    requires forall j | 0 < j < |trials| :: WaitedFor(trials, p, j)
    ensures trials[p.threshold + k - 1].start > trials[p.threshold - 1].end + WindowSum(p.breakerCooldown, k)
    decreases k
  {
    var j := p.threshold + k - 1;
    assert WaitedFor(trials, p, j);
    assert trials[j].start > trials[j - 1].end + Doubled(p.breakerCooldown, Capped(k - 1));
    if k > 1 {
      WaitsAddUp(trials, p, k - 1);
      assert trials[j - 1].start <= trials[j - 1].end;
    } else {
      assert WindowSum(p.breakerCooldown, 1) == WindowSum(p.breakerCooldown, 0) + Doubled(p.breakerCooldown, Capped(0));
    }
  }

  /** The dead-origin budget. An origin that never answers trips exactly at its threshold-th
      request, and its k-th trial after that starts more than the sum of the first k escalated
      cooldowns after the trip. */
  lemma DeadOriginBudget(n: nat, next: nat, clock: int, p: Policy, events: seq<Event>, d: nat)
    requires d < n && clock > ZERO_TIME && Tunable(p)
    requires PossibleRun(Start(n, next, clock), p, events, d)
    ensures var s := Run(Start(n, next, clock), p, events, d);
      && d < |s.pool.origins|
      && (Tripped(s.pool.origins[d], p) <==> |s.trials| >= p.threshold)
      && (forall k: nat | 0 < k && p.threshold + k - 1 < |s.trials| ::
            s.trials[p.threshold + k - 1].start > s.trials[p.threshold - 1].end + WindowSum(p.breakerCooldown, k))
  {
    RunKeepsInv(Start(n, next, clock), p, events, d);
    var s := Run(Start(n, next, clock), p, events, d);
    forall k: nat | 0 < k && p.threshold + k - 1 < |s.trials|
      ensures s.trials[p.threshold + k - 1].start > s.trials[p.threshold - 1].end + WindowSum(p.breakerCooldown, k)
    {
      WaitsAddUp(s.trials, p, k);
    }
  }

  // ---- with retries -------------------------------------------------------------

  function RoundTrips(calls: seq<Retry.Call>, maxAttempts: int, retryUnsafe: bool): nat {
    if calls == [] then 0
    else RoundTrips(calls[..|calls| - 1], maxAttempts, retryUnsafe) +
         Retry.Attempts(calls[|calls| - 1], maxAttempts, retryUnsafe)
  }

  function RetriedCount(calls: seq<Retry.Call>, maxAttempts: int, retryUnsafe: bool): nat {
    if calls == [] then 0
    else RetriedCount(calls[..|calls| - 1], maxAttempts, retryUnsafe) +
         (if Retry.Retries(calls[|calls| - 1].verb, maxAttempts, retryUnsafe) then 1 else 0)
  }

  ghost predicate NeverAnswered(c: Retry.Call) {
    !(c.hasBody && c.readFails) && forall k :: c.answers(k).NetworkError?
  }

  function AtMost(maxAttempts: int): nat {
    if maxAttempts > 1 then maxAttempts else 1
  }

  lemma AttemptsAtMost(c: Retry.Call, maxAttempts: int, retryUnsafe: bool)
    ensures Retry.Attempts(c, maxAttempts, retryUnsafe) <= AtMost(maxAttempts) && AtMost(maxAttempts) >= 1
    ensures NeverAnswered(c) ==>
            Retry.Attempts(c, maxAttempts, retryUnsafe) ==
            if Retry.Retries(c.verb, maxAttempts, retryUnsafe) then AtMost(maxAttempts) else 1
  {
    if NeverAnswered(c) && Retry.Retries(c.verb, maxAttempts, retryUnsafe) {
      assert c.answers(Retry.LastAttempt(c.answers, maxAttempts, 1)).NetworkError?;
    }
  }

  /** Retries multiply any traffic by at most maxAttempts; of requests that never get an answer,
      each retryable one costs exactly that and any other exactly one round trip. */
  lemma {:induction false} RetriesMultiply(calls: seq<Retry.Call>, maxAttempts: int, retryUnsafe: bool)
    ensures RoundTrips(calls, maxAttempts, retryUnsafe) <= AtMost(maxAttempts) * |calls|
    ensures (forall i | 0 <= i < |calls| :: NeverAnswered(calls[i])) ==>
            RoundTrips(calls, maxAttempts, retryUnsafe) ==
            |calls| + (AtMost(maxAttempts) - 1) * RetriedCount(calls, maxAttempts, retryUnsafe)
  {
    hide AtMost, NeverAnswered;
    if calls != [] {
      var rest, last := calls[..|calls| - 1], calls[|calls| - 1];
      RetriesMultiply(rest, maxAttempts, retryUnsafe);
      assert AtMost(maxAttempts) * |calls| == AtMost(maxAttempts) * |rest| + AtMost(maxAttempts);
      AttemptsAtMost(last, maxAttempts, retryUnsafe);
      var m, k := AtMost(maxAttempts) - 1, RetriedCount(rest, maxAttempts, retryUnsafe);
      assert m * (k + 1) == m * k + m;
    }
  }

  lemma FewTrials(s: Play, p: Policy, d: nat, k: nat, m: nat)
    requires Inv(s, p, d) && p.threshold > 0 && k > 0 && 0 < m <= |s.trials| && p.threshold <= |s.trials|
    requires s.trials[m - 1].start <= s.trials[p.threshold - 1].end + WindowSum(p.breakerCooldown, k)
    ensures m <= p.threshold + k - 1
  {
    if m >= p.threshold + k {
      WaitsAddUp(s.trials, p, k);
      TrialsInOrder(s.trials, p.threshold + k - 1, m - 1);
    }
  }

  /** What an origin that never answers costs in round trips. `calls` are the requests behind the
      trials of a run: those that start within the first k escalated cooldowns after the trip make,
      with all that came before, at most maxAttempts * (threshold + k - 1) round trips. */
  lemma RoundTripBudget(n: nat, next: nat, clock: int, p: Policy, events: seq<Event>, d: nat,
                        calls: seq<Retry.Call>, maxAttempts: int, retryUnsafe: bool, k: nat, m: nat)
    requires d < n && clock > ZERO_TIME && Tunable(p) && k > 0
    requires PossibleRun(Start(n, next, clock), p, events, d)
    requires |calls| == |Run(Start(n, next, clock), p, events, d).trials| >= p.threshold && 0 < m <= |calls|
    requires var trials := Run(Start(n, next, clock), p, events, d).trials;
      trials[m - 1].start <= trials[p.threshold - 1].end + WindowSum(p.breakerCooldown, k)
    ensures RoundTrips(calls[..m], maxAttempts, retryUnsafe) <= AtMost(maxAttempts) * (p.threshold + k - 1)
  {
    FewTrialsInRun(n, next, clock, p, events, d, k, m);
    hide *;
    RetriesMultiply(calls[..m], maxAttempts, retryUnsafe);
    TimesMono(AtMost(maxAttempts), m, p.threshold + k - 1);
  }

  lemma FewTrialsInRun(n: nat, next: nat, clock: int, p: Policy, events: seq<Event>, d: nat, k: nat, m: nat)
    requires d < n && clock > ZERO_TIME && Tunable(p) && PossibleRun(Start(n, next, clock), p, events, d) && k > 0
    requires p.threshold <= |Run(Start(n, next, clock), p, events, d).trials|
    requires 0 < m <= |Run(Start(n, next, clock), p, events, d).trials|
    requires var trials := Run(Start(n, next, clock), p, events, d).trials;
      trials[m - 1].start <= trials[p.threshold - 1].end + WindowSum(p.breakerCooldown, k)
    ensures m <= p.threshold + k - 1
  {
    RunKeepsInv(Start(n, next, clock), p, events, d);
    hide Run, PossibleRun, WindowSum, Inv, Start;
    FewTrials(Run(Start(n, next, clock), p, events, d), p, d, k, m);
  }

  lemma TimesMono(a: nat, m: nat, k: nat)
    requires m <= k
    ensures a * m <= a * k
  {
    assert a * k == a * m + a * (k - m);
  }

  lemma {:induction false} TrialsInOrder(trials: seq<Trial>, i: nat, j: nat)
    requires i <= j < |trials|
    requires forall j | 0 <= j < |trials| :: trials[j].start <= trials[j].end
    requires forall j | 0 < j < |trials| :: trials[j - 1].end <= trials[j].start
    ensures trials[i].start <= trials[j].start
    decreases j
  {
    if i < j {
      TrialsInOrder(trials, i, j - 1);
      assert trials[j - 1].end <= trials[j].start;
    }
  }
}
