/** What a tripped origin that never answers costs when requests overlap. `available` reserves
    nothing, so a half-open window lets through every request that comes before the next failure
    is recorded; the windows still escalate with every failure. */
module HalfOpen {
  import opened Origin
  import opened Selection
  import opened LoadBalancer
  import opened Interleaving
  import opened Modular
  import opened Wrappers

  // ---- what a run shows of one origin ---------------------------------------------------

  function InFlightTo(requests: seq<Request>, d: nat): nat {
    if requests == [] then 0
    else
      (if requests[|requests| - 1].phase == InFlight(d) then 1 else 0) + InFlightTo(requests[..|requests| - 1], d)
  }

  predicate Sends(s: System, p: Policy, e: Event, d: nat)
    requires s.origins != []
  {
    e.Check? && IsScanning(s, e.request) && Checked(s, p, s.requests[e.request]) == InFlight(d)
  }

  /** When the requests sent to `d` in a run arrived, in the order they are sent. */
  function Starts(s: System, p: Policy, events: seq<Event>, d: nat): seq<int>
    requires s.origins != []
    decreases |events|
  {
    if events == [] then []
    else
      var e := events[0];
      (if Sends(s, p, e, d) then [s.requests[e.request].phase.now] else []) + Starts(Next(s, p, e), p, events[1..], d)
  }

  function Max(a: int, b: int): int {
    if a < b then b else a
  }

  /** The latest time anybody has read from the clock, once `e` has happened. */
  function ClockAt(clock: int, e: Event): int {
    match e
    case Arrive(now) => Max(clock, now)
    case Complete(_, outcome) => Max(clock, outcome.at)
    case _ => clock
  }

  function ClockAfter(clock: int, events: seq<Event>): int
    decreases |events|
  {
    if events == [] then clock else ClockAfter(ClockAt(clock, events[0]), events[1..])
  }

  /** `d` answers no request, no more than `c` requests are in flight to it at once, and its failures
      are recorded with stamps at most `lag` behind the latest time read: a failure reads the clock
      first and takes the origin's lock after. */
  ghost predicate Unanswered(s: System, p: Policy, events: seq<Event>, d: nat, c: nat, lag: nat, clock: int)
    requires s.origins != []
    decreases |events|
  {
    && InFlightTo(s.requests, d) <= c
    && (events == [] ||
        var e := events[0];
        && (Ends(s, e, d) ==> e.outcome.Errors? && e.outcome.at != ZERO_TIME && clock - lag <= e.outcome.at)
        && Unanswered(Next(s, p, e), p, events[1..], d, c, lag, ClockAt(clock, e)))
  }

  // ---- a request is sent only after the window -----------------------------------------------

  lemma SendWaits(s: System, p: Policy, e: Event, d: nat)
    requires s.origins != [] && Tunable(p) && d < |s.origins| && Sends(s, p, e, d)
    requires Tripped(s.origins[d], p) && s.origins[d].lastFailureAt != ZERO_TIME
    ensures var h := s.origins[d];
      s.requests[e.request].phase.now >
      h.lastFailureAt + Doubled(p.breakerCooldown, Capped(h.consecutiveFailures - p.threshold))
  {
    EscalationExact(p.breakerCooldown, s.origins[d].consecutiveFailures - p.threshold);
  }

  /** Requests to `d` that have completed in a run. */
  function Ended(s: System, p: Policy, events: seq<Event>, d: nat): nat
    requires s.origins != []
    decreases |events|
  {
    if events == [] then 0
    else (if Ends(s, events[0], d) then 1 else 0) + Ended(Next(s, p, events[0]), p, events[1..], d)
  }

  ghost predicate NeverAnswers(s: System, p: Policy, events: seq<Event>, d: nat)
    requires s.origins != []
    decreases |events|
  {
    events == [] ||
    ((Ends(s, events[0], d) ==> events[0].outcome.Errors?) && NeverAnswers(Next(s, p, events[0]), p, events[1..], d))
  }

  lemma {:induction false} FailuresAreCounted(s: System, p: Policy, events: seq<Event>, d: nat)
    requires d < |s.origins| && NeverAnswers(s, p, events, d)
    ensures Run(s, p, events).origins[d].consecutiveFailures ==
            s.origins[d].consecutiveFailures + Ended(s, p, events, d)
    decreases |events|
  {
    if events != [] {
      FailuresAreCounted(Next(s, p, events[0]), p, events[1..], d);
    }
  }

  /** Under every interleaving, and in whatever order failures are recorded, a request sent to an
      origin all of whose k >= threshold completed requests have failed arrived later than the stamp
      of its last recorded failure by more than the window k - threshold further failures escalate. */
  lemma TrialWaitsOut(n: nat, p: Policy, events: seq<Event>, r: nat, d: nat)
    requires d < n && Timely(events) && Tunable(p)
    requires NeverAnswers(Init(n), p, events, d) && Ended(Init(n), p, events, d) >= p.threshold
    requires Sends(Run(Init(n), p, events), p, Check(r), d)
    ensures var s := Run(Init(n), p, events);
      s.requests[r].phase.now > s.origins[d].lastFailureAt
        + Doubled(p.breakerCooldown, Capped(Ended(Init(n), p, events, d) - p.threshold))
  {
    RunKeepsConsistent(Init(n), p, events);
    FailuresAreCounted(Init(n), p, events, d);
    SendWaits(Run(Init(n), p, events), p, Check(r), d);
  }

  lemma {:induction false} InFlightReplaced(requests: seq<Request>, r: nat, q: Request, d: nat)
    requires r < |requests|
    ensures InFlightTo(requests[r := q], d) == InFlightTo(requests, d)
            - (if requests[r].phase == InFlight(d) then 1 else 0) + (if q.phase == InFlight(d) then 1 else 0)
  {
    var front, front' := requests[..|requests| - 1], requests[r := q][..|requests| - 1];
    if r == |requests| - 1 {
      assert front' == front;
    } else {
      assert front' == front[r := q];
      InFlightReplaced(front, r, q, d);
    }
  }

  lemma InFlightAfter(s: System, p: Policy, e: Event, d: nat)
    requires s.origins != [] && d < |s.origins|
    ensures InFlightTo(Next(s, p, e).requests, d) ==
            InFlightTo(s.requests, d) + (if Sends(s, p, e, d) then 1 else 0) - (if Ends(s, e, d) then 1 else 0)
  {
    var s' := Next(s, p, e);
    match e {
      case Arrive(_) => assert s'.requests[..|s.requests|] == s.requests;
      case Check(r) => if IsScanning(s, r) { InFlightReplaced(s.requests, r, s'.requests[r], d); }
      case Complete(r, _) => if IsInFlight(s, r) { InFlightReplaced(s.requests, r, s'.requests[r], d); }
      case Probe(_, _) =>
    }
  }

  // ---- the earliest a k-th request can be sent --------------------------------------------------

  /** The earliest the k-th request after the trip can have arrived, counted from the trip, when at
      most `c` are in flight at once: the last `c` of them share a window that k - c failures have
      escalated, and the one before that window comes no earlier than it could itself. Each window
      may begin `lag` early. */
  function Earliest(base: int, c: nat, lag: nat, k: nat): int
    requires c > 0
  {
    if k == 0 then 0
    else if k <= c then base + 1 - lag
    else Earliest(base, c, lag, k - c) + Doubled(base, Capped(k - c)) + 1 - lag
  }

  lemma {:induction false} EarliestMono(base: int, c: nat, lag: nat, j: nat, k: nat)
    requires base > 0 && c > 0 && lag <= base && j <= k
    ensures 0 <= Earliest(base, c, lag, j) <= Earliest(base, c, lag, k)
    ensures k > 0 ==> Earliest(base, c, lag, k) > base - lag
  {
    if k > c {
      EarliestMono(base, c, lag, if j > c then j - c else 0, k - c);
      DoubledMono(base, 0, Capped(k - c));
      if j > c {
        DoubledMono(base, Capped(j - c), Capped(k - c));
      }
    }
  }

  /** One request at a time, it is the sum of the escalated windows, each exceeded. */
  lemma {:induction false} EarliestAlone(base: int, lag: nat, k: nat)
    ensures Earliest(base, 1, lag, k) == WindowSum(base, k) + k - lag * k
  {
    if k > 1 {
      EarliestAlone(base, lag, k - 1);
      Distribute(lag, k - 1, 1);
    }
  }

  lemma {:induction false} ProductAtLeast(c: nat, q: nat)
    requires c > 0 && q > 0
    ensures c * q >= c + q - 1
  {
    if q > 1 {
      ProductAtLeast(c, q - 1);
      Distribute(c, q - 1, 1);
    }
  }

  lemma CeilStep(k: nat, c: nat)
    requires 0 < c < k
    ensures (k + c - 1) / c == (k - 1) / c + 1 && (k - 1) / c <= k - c
  {
    ModUnique(c, c, 1, 0);
    QuotientSum(k - 1, c, c);
    var q := (k - 1) / c;
    if q > 0 {
      ProductAtLeast(c, q);
      assert k - 1 >= c * q;
    }
  }

  /** With overlap, it is more than one escalated window for every `c` requests or part of them. */
  lemma {:induction false} EarliestOverlapping(base: int, c: nat, lag: nat, k: nat)
    requires base > 0 && c > 0 && k > 0
    ensures var windows := (k + c - 1) / c;
      Earliest(base, c, lag, k) > WindowSum(base, windows) - lag * windows
  {
    if k <= c {
      ModUnique(k + c - 1, c, 1, k - 1);
      assert WindowSum(base, 1) == WindowSum(base, 0) + Doubled(base, Capped(0));
    } else {
      CeilStep(k, c);
      var windows := (k - 1) / c;
      EarliestOverlapping(base, c, lag, k - c);
      DoubledMono(base, Capped(windows), Capped(k - c));
      Distribute(lag, windows, 1);
    }
  }

  // ---- no run is earlier -----------------------------------------------------------------------

  ghost predicate ArrivedBy(s: System, clock: int) {
    forall r | 0 <= r < |s.requests| && s.requests[r].phase.Scanning? :: s.requests[r].phase.now <= clock
  }

  lemma {:induction false} RunKeepsArrivedBy(s: System, p: Policy, events: seq<Event>, clock: int)
    requires s.origins != [] && ArrivedBy(s, clock)
    ensures ArrivedBy(Run(s, p, events), ClockAfter(clock, events)) && clock <= ClockAfter(clock, events)
    decreases |events|
  {
    if events != [] {
      RunKeepsArrivedBy(Next(s, p, events[0]), p, events[1..], ClockAt(clock, events[0]));
    }
  }

  ghost predicate Late(starts: seq<int>, base: int, c: nat, lag: nat, trip: int)
    requires c > 0
  {
    forall k: nat | 0 < k <= |starts| :: starts[k - 1] >= trip + Earliest(base, c, lag, k)
  }

  /** The run's fixed terms: which origin, how much overlap and lag, and when it tripped. */
  datatype Siege = Siege(d: nat, c: nat, lag: nat, trip: int)

  /** `starts` were sent since the trip, the first `seen` of them before the last failure. */
  ghost predicate Inv(s: System, p: Policy, g: Siege, clock: int, starts: seq<int>, seen: nat)
    requires g.c > 0
  {
    && g.d < |s.origins| && ArrivedBy(s, clock) && g.trip <= clock
    && var h, flying := s.origins[g.d], InFlightTo(s.requests, g.d);
    && Tripped(h, p) && h.lastFailureAt != ZERO_TIME
    && Late(starts, p.breakerCooldown, g.c, g.lag, g.trip)
    && (forall k | 0 <= k < |starts| :: starts[k] <= clock)
    && seen <= |starts| <= seen + flying
    && |starts| <= h.consecutiveFailures - p.threshold + flying
    && h.lastFailureAt >= g.trip + Earliest(p.breakerCooldown, g.c, g.lag, seen) - g.lag
  }

  lemma SendIsLate(s: System, p: Policy, e: Event, g: Siege, clock: int, starts: seq<int>, seen: nat)
    requires s.origins != [] && Tunable(p) && g.c > 0 && g.lag <= p.breakerCooldown
    requires Inv(s, p, g, clock, starts, seen) && Sends(s, p, e, g.d) && InFlightTo(s.requests, g.d) < g.c
    ensures s.requests[e.request].phase.now >= g.trip + Earliest(p.breakerCooldown, g.c, g.lag, |starts| + 1)
  {
    var base, k, excess := p.breakerCooldown, |starts| + 1, s.origins[g.d].consecutiveFailures - p.threshold;
    SendWaits(s, p, e, g.d);
    EarliestAfter(base, g.c, g.lag, k, seen, excess);
    hide Earliest, Doubled, Checked, InFlightTo, Late;
  }

  /** A window that starts after the first `seen` of k - 1 requests, once `excess` have failed. */
  lemma EarliestAfter(base: int, c: nat, lag: nat, k: nat, seen: nat, excess: nat)
    requires base > 0 && c > 0 && lag <= base && k > 0 && k - c <= seen && k - c <= excess
    ensures Earliest(base, c, lag, k) <= Earliest(base, c, lag, seen) + Doubled(base, Capped(excess)) + 1 - lag
  {
    if k <= c {
      EarliestMono(base, c, lag, 0, seen);
      DoubledMono(base, 0, Capped(excess));
    } else {
      EarliestMono(base, c, lag, k - c, seen);
      DoubledMono(base, Capped(k - c), Capped(excess));
    }
  }

  lemma SendKeepsInv(s: System, p: Policy, e: Event, g: Siege, clock: int, starts: seq<int>, seen: nat)
    requires s.origins != [] && Tunable(p) && g.c > 0 && g.lag <= p.breakerCooldown
    requires Inv(s, p, g, clock, starts, seen) && InFlightTo(Next(s, p, e).requests, g.d) <= g.c && Sends(s, p, e, g.d)
    ensures Inv(Next(s, p, e), p, g, clock, starts + [s.requests[e.request].phase.now], seen)
  {
    InFlightAfter(s, p, e, g.d);
    SendIsLate(s, p, e, g, clock, starts, seen);
    LateMore(starts, s.requests[e.request].phase.now, p.breakerCooldown, g);
    hide Late, Earliest, InFlightTo, Tripped, Checked;
  }

  lemma LateMore(starts: seq<int>, now: int, base: int, g: Siege)
    requires g.c > 0 && Late(starts, base, g.c, g.lag, g.trip)
    requires now >= g.trip + Earliest(base, g.c, g.lag, |starts| + 1)
    ensures Late(starts + [now], base, g.c, g.lag, g.trip)
  {
    hide Earliest;
  }

  lemma EndKeepsInv(s: System, p: Policy, e: Event, g: Siege, clock: int, starts: seq<int>, seen: nat)
    requires s.origins != [] && Tunable(p) && g.c > 0 && Inv(s, p, g, clock, starts, seen) && Ends(s, e, g.d)
    requires e.outcome.Errors? && e.outcome.at != ZERO_TIME && clock - g.lag <= e.outcome.at
    ensures Inv(Next(s, p, e), p, g, ClockAt(clock, e), starts, |starts|)
  {
    InFlightAfter(s, p, e, g.d);
    NoneIsZero(p.breakerCooldown, g.c, g.lag);
    if starts != [] {
      assert starts[|starts| - 1] >= g.trip + Earliest(p.breakerCooldown, g.c, g.lag, |starts|);
    }
    hide Late, Earliest, InFlightTo;
  }

  lemma OtherKeepsInv(s: System, p: Policy, e: Event, g: Siege, clock: int, starts: seq<int>, seen: nat)
    requires s.origins != [] && g.c > 0 && Inv(s, p, g, clock, starts, seen)
    requires !Sends(s, p, e, g.d) && !Ends(s, e, g.d)
    ensures Inv(Next(s, p, e), p, g, ClockAt(clock, e), starts, seen)
  {
    InFlightAfter(s, p, e, g.d);
    hide Late, Earliest, InFlightTo, Available, BreakerOpen, Visited;
  }

  lemma NextKeepsInv(s: System, p: Policy, e: Event, g: Siege, clock: int, starts: seq<int>, seen: nat)
    requires s.origins != [] && Tunable(p) && g.c > 0 && g.lag <= p.breakerCooldown
    requires Inv(s, p, g, clock, starts, seen) && InFlightTo(Next(s, p, e).requests, g.d) <= g.c
    requires Ends(s, e, g.d) ==> e.outcome.Errors? && e.outcome.at != ZERO_TIME && clock - g.lag <= e.outcome.at
    ensures var starts' := if Sends(s, p, e, g.d) then starts + [s.requests[e.request].phase.now] else starts;
      Inv(Next(s, p, e), p, g, ClockAt(clock, e), starts', if Ends(s, e, g.d) then |starts| else seen)
  {
    if Sends(s, p, e, g.d) {
      SendKeepsInv(s, p, e, g, clock, starts, seen);
    } else if Ends(s, e, g.d) {
      EndKeepsInv(s, p, e, g, clock, starts, seen);
    } else {
      OtherKeepsInv(s, p, e, g, clock, starts, seen);
    }
    hide Inv, Next, InFlightTo, Checked;
  }

  lemma NoneIsZero(base: int, c: nat, lag: nat)
    requires c > 0
    ensures Earliest(base, c, lag, 0) == 0
  {}

  lemma FirstEvent(s: System, p: Policy, events: seq<Event>, d: nat, c: nat, lag: nat, clock: int)
    requires s.origins != [] && events != [] && Unanswered(s, p, events, d, c, lag, clock)
    ensures var e := events[0];
      var s' := Next(s, p, e);
      && InFlightTo(s'.requests, d) <= c
      && (Ends(s, e, d) ==> e.outcome.Errors? && e.outcome.at != ZERO_TIME && clock - lag <= e.outcome.at)
      && Unanswered(s', p, events[1..], d, c, lag, ClockAt(clock, e))
      && Starts(s, p, events, d) ==
         (if Sends(s, p, e, d) then [s.requests[e.request].phase.now] else []) + Starts(s', p, events[1..], d)
  {
    hide Next, Sends, Ends, InFlightTo, ClockAt;
  }

  lemma {:induction false} StartsAreLate(s: System, p: Policy, events: seq<Event>, g: Siege, clock: int,
                                         starts: seq<int>, seen: nat)
    requires s.origins != [] && Tunable(p) && g.c > 0 && g.lag <= p.breakerCooldown
    requires Inv(s, p, g, clock, starts, seen) && Unanswered(s, p, events, g.d, g.c, g.lag, clock)
    ensures Late(starts + Starts(s, p, events, g.d), p.breakerCooldown, g.c, g.lag, g.trip)
    decreases |events|
  {
    assert Late(starts, p.breakerCooldown, g.c, g.lag, g.trip) && starts + [] == starts;
    if events == [] {
      return;
    }
    FirstEvent(s, p, events, g.d, g.c, g.lag, clock);
    hide *;
    var e := events[0];
    var s' := Next(s, p, e);
    var sent := if Sends(s, p, e, g.d) then [s.requests[e.request].phase.now] else [];
    NextKeepsInv(s, p, e, g, clock, starts, seen);
    StartsAreLate(s', p, events[1..], g, ClockAt(clock, e), starts + sent, if Ends(s, e, g.d) then |starts| else seen);
    assert starts + (sent + Starts(s', p, events[1..], g.d)) == starts + sent + Starts(s', p, events[1..], g.d);
  }

  /** `before` is a run from the start after which `e` trips `d`. */
  ghost predicate TripsAt(n: nat, p: Policy, before: seq<Event>, e: Event, d: nat)
    requires n > 0
  {
    var s := Run(Init(n), p, before);
    d < n && !Tripped(s.origins[d], p) && Tripped(Next(s, p, e).origins[d], p)
  }

  lemma TripStarts(n: nat, p: Policy, before: seq<Event>, e: Event, d: nat, c: nat, lag: nat)
    requires n > 0 && c > 0 && Tunable(p) && TripsAt(n, p, before, e, d) && Timely([e])
    ensures e.Complete?
    ensures Inv(Next(Run(Init(n), p, before), p, e), p, Siege(d, c, lag, e.outcome.at),
                ClockAt(ClockAfter(ZERO_TIME, before), e), [], 0)
  {
    RunKeepsArrivedBy(Init(n), p, before, ZERO_TIME);
    NoneIsZero(p.breakerCooldown, c, lag);
    assert e in [e];
    hide Run, Earliest, InFlightTo;
  }

  /** The price of overlap. Under every interleaving in which a tripped origin never answers, never
      has more than `c` requests in flight, and has its failures recorded with stamps at most `lag`
      behind the latest time read, the k-th request it is sent after the trip arrived no earlier
      than `Earliest` says. With failures recorded in the order of their stamps the lag is 0. */
  lemma OverlapPrice(n: nat, p: Policy, before: seq<Event>, e: Event, after: seq<Event>, d: nat, c: nat, lag: nat,
                     k: nat)
    requires n > 0 && c > 0 && Tunable(p) && lag <= p.breakerCooldown
    requires TripsAt(n, p, before, e, d) && Timely([e])
    requires Unanswered(Next(Run(Init(n), p, before), p, e), p, after, d, c, lag,
                        ClockAt(ClockAfter(ZERO_TIME, before), e))
    requires 0 < k <= |Starts(Next(Run(Init(n), p, before), p, e), p, after, d)|
    ensures e.Complete?
    ensures Starts(Next(Run(Init(n), p, before), p, e), p, after, d)[k - 1] >=
            e.outcome.at + Earliest(p.breakerCooldown, c, lag, k)
  {
    var tripped, clock := Next(Run(Init(n), p, before), p, e), ClockAt(ClockAfter(ZERO_TIME, before), e);
    TripStarts(n, p, before, e, d, c, lag);
    hide Inv, Unanswered, Starts, Run, Next, TripsAt, Tunable, Timely, ClockAt, ClockAfter, Earliest;
    var starts := Starts(tripped, p, after, d);
    StartsAreLate(tripped, p, after, Siege(d, c, lag, e.outcome.at), clock, [], 0);
    assert [] + starts == starts;
  }
}
