/** Requests, completions, probes and clocks of one pool in every interleaving. Each check of an
    origin is one atomic step, as is each completion; `available` reserves nothing. */
module Interleaving {
  import opened Origin
  import opened Selection
  import opened LoadBalancer
  import opened Modular
  import opened Wrappers

  datatype Phase = Scanning(now: int, round: nat) | InFlight(origin: nat) | Done(served: Option<nat>)

  datatype Request = Request(ticket: nat, phase: Phase)

  datatype System = System(origins: seq<Health>, next: nat, requests: seq<Request>)

  datatype Event =
    | Arrive(now: int)
    | Check(request: nat)
    | Complete(request: nat, outcome: Outcome)
    | Probe(origin: nat, down: bool)

  function Init(n: nat): System {
    System(seq(n, _ => FRESH), 0, [])
  }

  /** What the check of a scanning request finds. */
  function Checked(s: System, p: Policy, q: Request): Phase
    requires s.origins != [] && q.phase.Scanning?
  {
    var n, now, round := |s.origins|, q.phase.now, q.phase.round;
    if round < n then
      var o := Visited(q.ticket, round, n);
      if Available(s.origins[o], now, p) then InFlight(o) else Scanning(now, round + 1)
    else
      var fallback := q.ticket % n;
      if BreakerOpen(s.origins[fallback], now, p) then Done(None) else InFlight(fallback)
  }

  predicate IsScanning(s: System, r: nat) {
    r < |s.requests| && s.requests[r].phase.Scanning?
  }

  predicate IsInFlight(s: System, r: nat) {
    r < |s.requests| && s.requests[r].phase.InFlight? && s.requests[r].phase.origin < |s.origins|
  }

  /** A request sent to `d` completes. */
  predicate Ends(s: System, e: Event, d: nat) {
    e.Complete? && IsInFlight(s, e.request) && s.requests[e.request].phase.origin == d
  }

  /** Events that cannot happen in `s` change nothing. */
  function Next(s: System, p: Policy, e: Event): System
    requires s.origins != []
  {
    match e
    case Arrive(now) =>
      s.(next := Ticket(s.next), requests := s.requests + [Request(Ticket(s.next), Scanning(now, 0))])
    case Check(r) =>
      if !IsScanning(s, r) then s
      else s.(requests := s.requests[r := s.requests[r].(phase := Checked(s, p, s.requests[r]))])
    case Complete(r, outcome) =>
      if !IsInFlight(s, r) then s
      else
        var o := s.requests[r].phase.origin;
        s.(origins := s.origins[o := Completed(s.origins[o], outcome)],
           requests := s.requests[r := s.requests[r].(phase := Done(Some(o)))])
    case Probe(o, down) =>
      if o >= |s.origins| then s else s.(origins := s.origins[o := Probed(s.origins[o], down)])
  }

  function Run(s: System, p: Policy, events: seq<Event>): (s': System)
    requires s.origins != []
    ensures |s'.origins| == |s.origins|
    decreases |events|
  {
    if events == [] then s else Run(Next(s, p, events[0]), p, events[1..])
  }

  /** The clock is past the zero time, so a failure is never stamped with it. */
  ghost predicate Timely(events: seq<Event>) {
    forall e | e in events && e.Complete? :: e.outcome.at != ZERO_TIME
  }

  // ---- the breaker holds under every interleaving -----------------------------

  ghost predicate AllConsistent(s: System) {
    forall o | 0 <= o < |s.origins| :: Consistent(s.origins[o])
  }

  lemma {:induction false} RunKeepsConsistent(s: System, p: Policy, events: seq<Event>)
    requires s.origins != [] && AllConsistent(s) && Timely(events)
    ensures AllConsistent(Run(s, p, events))
    decreases |events|
  {
    if events != [] {
      assert events[0] in events;
      RunKeepsConsistent(Next(s, p, events[0]), p, events[1..]);
    }
  }

  /** In every interleaving, a request is sent to an origin only if that origin's breaker was not
      open at the check that chose it, and it is refused only if, with every round of its scan
      spent, the breaker of the origin its ticket falls on was. */
  lemma BreakerHolds(n: nat, p: Policy, events: seq<Event>, r: nat)
    requires n > 0 && Timely(events)
    requires IsScanning(Run(Init(n), p, events), r)
    ensures var s := Run(Init(n), p, events);
      var s' := Next(s, p, Check(r));
      var now := s.requests[r].phase.now;
      && (s'.requests[r].phase.InFlight? ==>
            var o := s'.requests[r].phase.origin; o < n && !BreakerOpen(s.origins[o], now, p))
      && (s'.requests[r].phase.Done? ==>
            s'.requests[r].phase.served == None && s.requests[r].phase.round >= n
            && BreakerOpen(s.origins[s.requests[r].ticket % n], now, p))
  {
    var s := Run(Init(n), p, events);
    RunKeepsConsistent(Init(n), p, events);
    var q := s.requests[r];
    if q.phase.round < n {
      var o := Visited(q.ticket, q.phase.round, n);
      if Available(s.origins[o], q.phase.now, p) {
        AvailableIsNotOpen(s.origins[o], q.phase.now, p);
      }
    }
  }

  // ---- an undisturbed request makes the sequential pick --------------------------

  function ChecksOf(r: nat, k: nat): seq<Event> {
    if k == 0 then [] else [Check(r)] + ChecksOf(r, k - 1)
  }

  /** Where the rest of a request's scan ends if the origins do not change meanwhile. */
  function Settled(s: System, p: Policy, q: Request): Phase
    requires s.origins != [] && q.phase.Scanning? && q.phase.round <= |s.origins|
  {
    var n, now := |s.origins|, q.phase.now;
    var round := FirstAvailable(s.origins, q.ticket, now, p, q.phase.round);
    if round < n then InFlight(Visited(q.ticket, round, n))
    else if BreakerOpen(s.origins[q.ticket % n], now, p) then Done(None)
    else InFlight(q.ticket % n)
  }

  /** One check of a scan either settles it or leaves it settling the same way. */
  lemma CheckSettles(s: System, p: Policy, q: Request)
    requires s.origins != [] && q.phase.Scanning? && q.phase.round <= |s.origins|
    ensures var phase := Checked(s, p, q);
      if phase.Scanning?
      then phase.round == q.phase.round + 1 <= |s.origins| && Settled(s, p, q.(phase := phase)) == Settled(s, p, q)
      else phase == Settled(s, p, q)
  {}

  lemma SettledSame(s: System, s': System, p: Policy, q: Request)
    requires s.origins == s'.origins != [] && q.phase.Scanning? && q.phase.round <= |s.origins|
    ensures Settled(s, p, q) == Settled(s', p, q)
  {}

  lemma {:induction false} ChecksReachPick(s: System, p: Policy, r: nat)
    requires s.origins != [] && IsScanning(s, r) && s.requests[r].phase.round <= |s.origins|
    ensures var q := s.requests[r];
      Run(s, p, ChecksOf(r, |s.origins| + 1 - q.phase.round)).requests ==
      s.requests[r := q.(phase := Settled(s, p, q))]
    decreases |s.origins| - s.requests[r].phase.round
  {
    hide Settled, Checked;
    var q, n := s.requests[r], |s.origins|;
    var s' := Next(s, p, Check(r));
    var q', k := s'.requests[r], n + 1 - q.phase.round;
    assert ChecksOf(r, k)[1..] == ChecksOf(r, k - 1);
    CheckSettles(s, p, q);
    if q'.phase.Scanning? {
      SettledSame(s, s', p, q');
      ChecksReachPick(s', p, r);
    } else {
      ChecksAfterScanIdle(s', p, r, k - 1);
    }
  }

  lemma {:induction false} ChecksAfterScanIdle(s: System, p: Policy, r: nat, k: nat)
    requires s.origins != [] && !IsScanning(s, r)
    ensures Run(s, p, ChecksOf(r, k)) == s
  {
    if k > 0 {
      assert ChecksOf(r, k)[1..] == ChecksOf(r, k - 1);
      ChecksAfterScanIdle(s, p, r, k - 1);
    }
  }

  /** A request whose checks nothing interrupts is sent exactly where the sequential proxy sends it. */
  lemma UndisturbedPick(s: System, p: Policy, now: int)
    requires s.origins != []
    ensures var r, arrived := |s.requests|, Next(s, p, Arrive(now));
      var requests := Run(arrived, p, ChecksOf(r, |s.origins| + 1)).requests;
      && |requests| == r + 1 && requests[..r] == s.requests
      && requests[r].phase == match Pick(s.origins, Ticket(s.next), now, p)
           case None => Done(None)
           case Some(o) => InFlight(o)
  {
    ChecksReachPick(Next(s, p, Arrive(now)), p, |s.requests|);
  }

  // ---- fairness --------------------------------------------------------------------

  /** Every check that requests `first` to `end - 1` make in the run finds its origin available. */
  ghost predicate UpFor(s: System, p: Policy, events: seq<Event>, first: nat, end: nat)
    requires s.origins != []
    decreases |events|
  {
    events == [] ||
    ((events[0].Check? && first <= events[0].request < end && IsScanning(s, events[0].request) ==>
        Checked(s, p, s.requests[events[0].request]).InFlight?)
     && UpFor(Next(s, p, events[0]), p, events[1..], first, end))
  }

  ghost predicate GoesByTicket(q: Request, n: nat)
    requires n > 0
  {
    match q.phase
    case Scanning(_, round) => round == 0
    case InFlight(o) => o == q.ticket % n
    case Done(served) => served == Some(q.ticket % n)
  }

  /** Tickets count requests, and requests `first` to `end - 1` go, or will go, where theirs fall. */
  ghost predicate ByTicket(s: System, first: nat, end: nat)
    requires s.origins != []
  {
    && s.next == |s.requests| % TWO_64
    && (forall r | 0 <= r < |s.requests| :: s.requests[r].ticket == (r + 1) % TWO_64)
    && (forall r | first <= r < end && r < |s.requests| :: GoesByTicket(s.requests[r], |s.origins|))
  }

  lemma {:induction false} RunKeepsByTicket(s: System, p: Policy, events: seq<Event>, first: nat, end: nat)
    requires s.origins != [] && ByTicket(s, first, end) && UpFor(s, p, events, first, end)
    ensures ByTicket(Run(s, p, events), first, end)
    decreases |events|
  {
    if events != [] {
      NextKeepsByTicket(s, p, events[0], first, end);
      RunKeepsByTicket(Next(s, p, events[0]), p, events[1..], first, end);
    }
  }

  lemma NextKeepsByTicket(s: System, p: Policy, e: Event, first: nat, end: nat)
    requires s.origins != [] && ByTicket(s, first, end)
    requires e.Check? && first <= e.request < end && IsScanning(s, e.request) ==>
             Checked(s, p, s.requests[e.request]).InFlight?
    ensures ByTicket(Next(s, p, e), first, end)
  {
    var s', n := Next(s, p, e), |s.origins|;
    TicketAfter(|s.requests|);
    hide Ticket, Visited, Available, BreakerOpen;
    forall r | first <= r < end && r < |s'.requests| ensures GoesByTicket(s'.requests[r], n) {
      if r < |s.requests| {
        assert GoesByTicket(s.requests[r], n);
        if e == Check(r) && IsScanning(s, r) {
          CheckedByTicket(s, p, s.requests[r]);
        }
      }
    }
  }

  lemma CheckedByTicket(s: System, p: Policy, q: Request)
    requires s.origins != [] && GoesByTicket(q, |s.origins|) && q.ticket < TWO_64
    requires q.phase.Scanning? && Checked(s, p, q).InFlight?
    ensures GoesByTicket(q.(phase := Checked(s, p, q)), |s.origins|)
  {
    VisitedBeforeWrap(q.ticket, 0, |s.origins|);
  }

  lemma TicketAfter(count: nat)
    ensures Ticket(count % TWO_64) == (count + 1) % TWO_64
  {}

  predicate SentTo(q: Request, o: nat) {
    q.phase == InFlight(o) || q.phase == Done(Some(o))
  }

  function SentCount(requests: seq<Request>, o: nat): nat {
    if requests == [] then 0
    else (if SentTo(requests[|requests| - 1], o) then 1 else 0) + SentCount(requests[..|requests| - 1], o)
  }

  /** Numbers below y that leave remainder o. */
  function Below(y: nat, n: nat, o: nat): nat
    requires o < n
  {
    (y + n - 1 - o) / n
  }

  lemma BelowStep(y: nat, n: nat, o: nat)
    requires o < n
    ensures Below(y + 1, n, o) == Below(y, n, o) + (if y % n == o then 1 else 0)
  {
    var q, r := y / n, y % n;
    assert y == n * q + r;
    Distribute(n, q, 1);
    BelowStepAt(y, n, o, q, r);
  }

  lemma BelowStepAt(y: nat, n: nat, o: nat, q: nat, r: nat)
    requires o < n && r < n && y == n * q + r && n * (q + 1) == n * q + n
    ensures Below(y + 1, n, o) == Below(y, n, o) + (if r == o then 1 else 0)
  {
    if r >= o {
      ModUnique(y + n - o, n, q + 1, r - o);
      if r == o {
        ModUnique(y + n - 1 - o, n, q, n - 1);
      } else {
        ModUnique(y + n - 1 - o, n, q + 1, r - 1 - o);
      }
    } else {
      ModUnique(y + n - o, n, q, n + r - o);
      ModUnique(y + n - 1 - o, n, q, n + r - 1 - o);
    }
  }

  lemma {:induction false} SentByTicket(requests: seq<Request>, x: nat, n: nat, o: nat)
    requires o < n
    requires forall r | 0 <= r < |requests| :: SentTo(requests[r], o) <==> o == (x + r) % n
    ensures SentCount(requests, o) == Below(x + |requests|, n, o) - Below(x, n, o)
  {
    if requests != [] {
      var last := |requests| - 1;
      BelowStep(x + last, n, o);
      SentByTicket(requests[..last], x, n, o);
      assert SentTo(requests[last], o) <==> o == (x + last) % n;
    }
  }

  lemma BelowSpread(x: nat, m: nat, n: nat, o: nat)
    requires o < n
    ensures m / n <= Below(x + m, n, o) - Below(x, n, o) <= (m + n - 1) / n
  {
    QuotientSpread(x + n - 1 - o, m, n);
  }

  lemma OneByTicket(s: System, first: nat, end: nat, r: nat, n: nat, o: nat)
    requires s.origins != [] && |s.origins| == n && ByTicket(s, first, end)
    requires first <= r < end <= |s.requests| && end < TWO_64 && !IsScanning(s, r)
    ensures SentTo(s.requests[r], o) <==> o == (r + 1) % n
  {
    assert GoesByTicket(s.requests[r], n) && s.requests[r].ticket == r + 1;
  }

  lemma WindowByTicket(s: System, first: nat, window: seq<Request>, n: nat, o: nat)
    requires s.origins != [] && |s.origins| == n && ByTicket(s, first, first + |window|)
    requires first + |window| <= |s.requests| && first + |window| < TWO_64
    requires window == s.requests[first..first + |window|]
    requires forall r | first <= r < first + |window| :: !IsScanning(s, r)
    ensures forall r | 0 <= r < |window| :: SentTo(window[r], o) <==> o == (first + 1 + r) % n
  {
    hide ByTicket, IsScanning, SentTo;
    forall r | 0 <= r < |window| ensures SentTo(window[r], o) <==> o == (first + 1 + r) % n {
      assert window[r] == s.requests[first + r];
      OneByTicket(s, first, first + |window|, first + r, n, o);
    }
  }

  /** Any m requests with consecutive tickets (before the ticket counter wraps) that have been sent,
      each finding its origin available, give each of the n origins floor(m/n) or ceil(m/n) of them,
      however requests interleave and whatever happens to all the other requests. */
  lemma FairShare(n: nat, p: Policy, events: seq<Event>, first: nat, m: nat, o: nat)
    requires o < n && UpFor(Init(n), p, events, first, first + m)
    requires first + m <= |Run(Init(n), p, events).requests| && first + m < TWO_64
    requires forall r | first <= r < first + m :: !IsScanning(Run(Init(n), p, events), r)
    ensures m / n <= SentCount(Run(Init(n), p, events).requests[first..first + m], o) <= (m + n - 1) / n
  {
    var s := Run(Init(n), p, events);
    RunKeepsByTicket(Init(n), p, events, first, first + m);
    var window := s.requests[first..first + m];
    WindowByTicket(s, first, window, n, o);
    SentByTicket(window, first + 1, n, o);
    hide Below;
    BelowSpread(first + 1, m, n, o);
  }
}
