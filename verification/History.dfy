/** What an origin's health remembers of its past: over any run, interleaved or of one request after
    the other, exactly the requests it failed since it last answered, and the last probe's verdict. */
module History {
  import opened Origin
  import opened Selection
  import opened LoadBalancer
  import opened Interleaving
  import opened Wrappers

  /** The errors at the end of a list of outcomes. */
  function ErrorsAtEnd(outcomes: seq<Outcome>): nat {
    if outcomes == [] || outcomes[|outcomes| - 1].Responds? then 0 else 1 + ErrorsAtEnd(outcomes[..|outcomes| - 1])
  }

  /** The count is of the errors since the last response, and the stamp is the last one's. */
  ghost predicate Remembers(h: Health, outcomes: seq<Outcome>) {
    && h.consecutiveFailures == ErrorsAtEnd(outcomes)
    && h.lastFailureAt == if outcomes == [] || outcomes[|outcomes| - 1].Responds? then ZERO_TIME
                          else outcomes[|outcomes| - 1].at
  }

  lemma CompletedRemembers(h: Health, outcomes: seq<Outcome>, outcome: Outcome)
    requires Remembers(h, outcomes)
    ensures Remembers(Completed(h, outcome), outcomes + [outcome])
    ensures Completed(h, outcome).forcedDown == h.forcedDown
  {
    assert (outcomes + [outcome])[..|outcomes|] == outcomes;
  }

  lemma {:induction false} ErrorsAtEndIff(outcomes: seq<Outcome>, m: nat)
    ensures ErrorsAtEnd(outcomes) >= m <==>
            m <= |outcomes| && forall i | |outcomes| - m <= i < |outcomes| :: outcomes[i].Errors?
  {
    if outcomes != [] && m > 0 {
      ErrorsAtEndIff(outcomes[..|outcomes| - 1], m - 1);
    }
  }

  /** What such a health means for the next request: its origin is tripped exactly if its last
      `threshold` requests all failed; one that has just answered, or was never asked, is available
      unless it is forced down; and one forced down is not. */
  ghost predicate Reflects(h: Health, p: Policy, outcomes: seq<Outcome>, down: bool) {
    && (Tripped(h, p) <==> 0 < p.threshold <= |outcomes|
                           && forall i | |outcomes| - p.threshold <= i < |outcomes| :: outcomes[i].Errors?)
    && (outcomes == [] || outcomes[|outcomes| - 1].Responds? ==>
          forall now :: (Available(h, now, p) <==> !down) && !BreakerOpen(h, now, p))
    && (down ==> forall now :: !Available(h, now, p))
  }

  lemma RemembersReflects(h: Health, p: Policy, outcomes: seq<Outcome>)
    requires Remembers(h, outcomes)
    ensures Reflects(h, p, outcomes, h.forcedDown)
  {
    if p.threshold > 0 {
      ErrorsAtEndIff(outcomes, p.threshold);
    }
  }

  // ---- interleaved requests ---------------------------------------------------------------

  /** How the requests sent to `d` in a run ended, in the order they did. */
  function Outcomes(s: System, p: Policy, events: seq<Event>, d: nat): seq<Outcome>
    requires s.origins != []
    decreases |events|
  {
    if events == [] then []
    else (if Ends(s, events[0], d) then [events[0].outcome] else [])
         + Outcomes(Next(s, p, events[0]), p, events[1..], d)
  }

  /** The last probe's verdict on `d`. */
  function Verdict(events: seq<Event>, d: nat, before: bool): bool {
    if events == [] then before
    else if events[|events| - 1].Probe? && events[|events| - 1].origin == d then events[|events| - 1].down
    else Verdict(events[..|events| - 1], d, before)
  }

  lemma {:induction false} VerdictFirst(events: seq<Event>, d: nat, before: bool)
    requires events != []
    ensures Verdict(events, d, before) ==
            Verdict(events[1..], d, if events[0].Probe? && events[0].origin == d then events[0].down else before)
    decreases |events|
  {
    if |events| > 1 {
      assert events[..|events| - 1][1..] == events[1..][..|events| - 2];
      VerdictFirst(events[..|events| - 1], d, before);
    } else {
      assert events[..0] == [] && events[1..] == [];
    }
  }

  lemma {:induction false} RunRemembers(s: System, p: Policy, events: seq<Event>, d: nat, outcomes: seq<Outcome>)
    requires d < |s.origins| && Remembers(s.origins[d], outcomes)
    ensures Remembers(Run(s, p, events).origins[d], outcomes + Outcomes(s, p, events, d))
    ensures Run(s, p, events).origins[d].forcedDown == Verdict(events, d, s.origins[d].forcedDown)
    decreases |events|
  {
    if events == [] {
      assert outcomes + [] == outcomes;
    } else {
      var e := events[0];
      var s' := Next(s, p, e);
      var more := if Ends(s, e, d) then [e.outcome] else [];
      if Ends(s, e, d) {
        CompletedRemembers(s.origins[d], outcomes, e.outcome);
      } else {
        assert outcomes + [] == outcomes;
      }
      VerdictFirst(events, d, s.origins[d].forcedDown);
      RunRemembers(s', p, events[1..], d, outcomes + more);
      assert outcomes + (more + Outcomes(s', p, events[1..], d)) == outcomes + more + Outcomes(s', p, events[1..], d);
    }
  }

  /** In every interleaving an origin's health is what its completed requests and probes made it. */
  lemma HealthIsHistory(n: nat, p: Policy, events: seq<Event>, d: nat)
    requires d < n
    ensures var outcomes := Outcomes(Init(n), p, events, d);
      var h := Run(Init(n), p, events).origins[d];
      && Remembers(h, outcomes) && h.forcedDown == Verdict(events, d, false)
      && Reflects(h, p, outcomes, Verdict(events, d, false))
  {
    RunRemembers(Init(n), p, events, d, []);
    assert [] + Outcomes(Init(n), p, events, d) == Outcomes(Init(n), p, events, d);
    RemembersReflects(Run(Init(n), p, events).origins[d], p, Outcomes(Init(n), p, events, d));
  }

  // ---- one request after the other ------------------------------------------------------------

  datatype Turn = Turn(now: int, outcomes: seq<Outcome>)

  ghost predicate Fits(turns: seq<Turn>, n: nat) {
    forall i | 0 <= i < |turns| :: |turns[i].outcomes| == n
  }

  /** The pool after requests that do not overlap: what ServeHTTP leaves, one call after the other. */
  function ServedAll(pool: Pool, p: Policy, turns: seq<Turn>): (pool': Pool)
    requires pool.origins != [] && Fits(turns, |pool.origins|)
    ensures |pool'.origins| == |pool.origins|
  {
    if turns == [] then pool
    else
      var last := turns[|turns| - 1];
      Served(ServedAll(pool, p, turns[..|turns| - 1]), p, last.now, last.outcomes).0
  }

  /** How the request of one turn ended for `d`, if it was sent there. */
  function OutcomeAt(pool: Pool, p: Policy, turn: Turn, d: nat): seq<Outcome>
    requires d < |pool.origins| == |turn.outcomes|
  {
    if Served(pool, p, turn.now, turn.outcomes).1 == Some(d) then [turn.outcomes[d]] else []
  }

  function ServedOutcomes(pool: Pool, p: Policy, turns: seq<Turn>, d: nat): seq<Outcome>
    requires Fits(turns, |pool.origins|) && d < |pool.origins|
  {
    if turns == [] then []
    else
      var front := turns[..|turns| - 1];
      ServedOutcomes(pool, p, front, d) + OutcomeAt(ServedAll(pool, p, front), p, turns[|turns| - 1], d)
  }

  lemma OneServedRemembers(pool: Pool, p: Policy, turn: Turn, d: nat, outcomes: seq<Outcome>)
    requires d < |pool.origins| == |turn.outcomes| && Remembers(pool.origins[d], outcomes)
    ensures var pool' := Served(pool, p, turn.now, turn.outcomes).0;
      && |pool'.origins| == |pool.origins| && pool'.origins[d].forcedDown == pool.origins[d].forcedDown
      && Remembers(pool'.origins[d], outcomes + OutcomeAt(pool, p, turn, d))
  {
    CompletedRemembers(pool.origins[d], outcomes, turn.outcomes[d]);
    assert outcomes + [] == outcomes;
    hide Remembers, Completed, Pick;
  }

  lemma {:induction false} ServedRemembers(pool: Pool, p: Policy, turns: seq<Turn>, d: nat)
    requires d < |pool.origins| && Fits(turns, |pool.origins|) && Remembers(pool.origins[d], [])
    ensures var h := ServedAll(pool, p, turns).origins[d];
      Remembers(h, ServedOutcomes(pool, p, turns, d)) && h.forcedDown == pool.origins[d].forcedDown
  {
    hide Remembers, Served, OutcomeAt;
    if turns != [] {
      var front := turns[..|turns| - 1];
      ServedRemembers(pool, p, front, d);
      OneServedRemembers(ServedAll(pool, p, front), p, turns[|turns| - 1], d, ServedOutcomes(pool, p, front, d));
    }
  }

  /** The same for the proxy's own calls, from a fresh pool. */
  lemma ServedHealthIsHistory(n: nat, next: nat, p: Policy, turns: seq<Turn>, d: nat)
    requires d < n && Fits(turns, n)
    ensures var pool := Pool(seq(n, _ => FRESH), next);
      var outcomes := ServedOutcomes(pool, p, turns, d);
      var h := ServedAll(pool, p, turns).origins[d];
      Remembers(h, outcomes) && Reflects(h, p, outcomes, false)
  {
    var pool := Pool(seq(n, _ => FRESH), next);
    ServedRemembers(pool, p, turns, d);
    RemembersReflects(ServedAll(pool, p, turns).origins[d], p, ServedOutcomes(pool, p, turns, d));
  }
}
