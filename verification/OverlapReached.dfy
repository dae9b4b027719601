/** The price of overlap is exact: for every pool, every limit on overlap and every k there is a run
    from the start in which the k-th request after the trip is sent as early as `Earliest` allows
    when failures are recorded in the order of their stamps. */
module OverlapReached {
  import opened Origin
  import opened Selection
  import opened LoadBalancer
  import opened Interleaving
  import opened HalfOpen
  import opened Wrappers

  // ---- runs one after the other ---------------------------------------------------------

  lemma {:induction false} RunsJoin(s: System, p: Policy, a: seq<Event>, b: seq<Event>, d: nat)
    requires s.origins != []
    ensures Run(s, p, a + b) == Run(Run(s, p, a), p, b)
    ensures Starts(s, p, a + b, d) == Starts(s, p, a, d) + Starts(Run(s, p, a), p, b, d)
    decreases |a|
  {
    if a == [] {
      assert a + b == b;
    } else {
      assert (a + b)[1..] == a[1..] + b;
      RunsJoin(Next(s, p, a[0]), p, a[1..], b, d);
    }
  }

  lemma {:induction false} UnansweredJoins(s: System, p: Policy, a: seq<Event>, b: seq<Event>,
                                           d: nat, c: nat, clock: int)
    requires s.origins != [] && Unanswered(s, p, a, d, c, 0, clock)
    requires Unanswered(Run(s, p, a), p, b, d, c, 0, ClockAfter(clock, a))
    ensures Unanswered(s, p, a + b, d, c, 0, clock)
    ensures ClockAfter(clock, a + b) == ClockAfter(ClockAfter(clock, a), b)
    decreases |a|
  {
    if a == [] {
      assert a + b == b;
    } else {
      assert (a + b)[1..] == a[1..] + b;
      UnansweredJoins(Next(s, p, a[0]), p, a[1..], b, d, c, ClockAt(clock, a[0]));
    }
  }

  /** What a run shows: the requests it sends to `d`, and the clock at its end. */
  ghost predicate Shows(s: System, p: Policy, events: seq<Event>, d: nat, c: nat, clock: int,
                        starts: seq<int>, end: int)
    requires s.origins != []
  {
    && Unanswered(s, p, events, d, c, 0, clock)
    && Starts(s, p, events, d) == starts && ClockAfter(clock, events) == end
  }

  lemma ShowsJoins(s: System, p: Policy, a: seq<Event>, b: seq<Event>, d: nat, c: nat,
                   clock: int, x: seq<int>, mid: int, y: seq<int>, end: int)
    requires s.origins != [] && Shows(s, p, a, d, c, clock, x, mid)
    requires Shows(Run(s, p, a), p, b, d, c, mid, y, end)
    ensures Run(s, p, a + b) == Run(Run(s, p, a), p, b)
    ensures Shows(s, p, a + b, d, c, clock, x + y, end)
  {
    RunsJoin(s, p, a, b, d);
    UnansweredJoins(s, p, a, b, d, c, clock);
  }

  lemma OneShows(s: System, p: Policy, e: Event, d: nat, c: nat, clock: int)
    requires s.origins != [] && InFlightTo(s.requests, d) <= c && InFlightTo(Next(s, p, e).requests, d) <= c
    requires Ends(s, e, d) ==> e.outcome.Errors? && e.outcome.at != ZERO_TIME && clock <= e.outcome.at
    ensures Run(s, p, [e]) == Next(s, p, e)
    ensures Shows(s, p, [e], d, c, clock, if Sends(s, p, e, d) then [s.requests[e.request].phase.now] else [],
                  ClockAt(clock, e))
  {
    var s', clock' := Next(s, p, e), ClockAt(clock, e);
    assert |s'.origins| == |s.origins| && [e][1..] == [];
    hide Next, Sends, Ends, InFlightTo, ClockAt;
    assert Starts(s', p, [], d) == [] && Unanswered(s', p, [], d, c, 0, clock') && ClockAfter(clock', []) == clock';
    assert Unanswered(s, p, [e], d, c, 0, clock);
    var sent := if Sends(s, p, e, d) then [s.requests[e.request].phase.now] else [];
    assert Starts(s, p, [e], d) == sent + [];
  }

  // ---- a pool in which only `d` can be picked ------------------------------------------------

  ghost predicate OthersDown(s: System, d: nat) {
    && d < |s.origins|
    && (forall o | 0 <= o < |s.origins| :: Consistent(s.origins[o]))
    && (forall o | 0 <= o < |s.origins| && o != d :: s.origins[o].forcedDown)
    && s.next == |s.requests|
  }

  ghost predicate Quiet(s: System, d: nat, last: int, failures: int) {
    && OthersDown(s, d) && InFlightTo(s.requests, d) == 0
    && failures >= 0 && s.origins[d] == Health(last, false, failures)
  }

  lemma OnlyPick(s: System, p: Policy, d: nat, now: int)
    requires OthersDown(s, d) && Available(s.origins[d], now, p) && s.next + |s.origins| < TWO_64
    ensures Pick(s.origins, Ticket(s.next), now, p) == Some(d)
  {
    SelectionOrdered(s.origins, Ticket(s.next), now, p);
  }

  lemma {:induction false} ChecksKeepOrigins(s: System, p: Policy, r: nat, k: nat)
    requires s.origins != []
    ensures Run(s, p, ChecksOf(r, k)).origins == s.origins && Run(s, p, ChecksOf(r, k)).next == s.next
    decreases k
  {
    if k > 0 {
      assert ChecksOf(r, k)[1..] == ChecksOf(r, k - 1);
      ChecksKeepOrigins(Next(s, p, Check(r)), p, r, k - 1);
    }
  }

  lemma {:induction false} ChecksShow(s: System, p: Policy, r: nat, k: nat, d: nat, c: nat, clock: int)
    requires s.origins != [] && d < |s.origins| && r < |s.requests|
    requires InFlightTo(s.requests, d) + (if IsScanning(s, r) then 1 else 0) <= c
    ensures var s' := Run(s, p, ChecksOf(r, k));
      && |s'.requests| == |s.requests|
      && Shows(s, p, ChecksOf(r, k), d, c, clock,
               if IsScanning(s, r) && s'.requests[r].phase == InFlight(d) then [s.requests[r].phase.now] else [], clock)
      && InFlightTo(s'.requests, d) == InFlightTo(s.requests, d)
         + (if IsScanning(s, r) && s'.requests[r].phase == InFlight(d) then 1 else 0)
    decreases k
  {
    if k > 0 {
      var s' := Next(s, p, Check(r));
      assert ChecksOf(r, k)[1..] == ChecksOf(r, k - 1);
      InFlightAfter(s, p, Check(r), d);
      ChecksShow(s', p, r, k - 1, d, c, clock);
      if !IsScanning(s', r) {
        ChecksAfterScanIdle(s', p, r, k - 1);
      }
    }
  }

  lemma ChecksSend(s: System, p: Policy, r: nat, d: nat, c: nat, now: int)
    requires d < |s.origins| && r < |s.requests| && s.requests[r].phase == Scanning(now, 0)
    requires Pick(s.origins, s.requests[r].ticket, now, p) == Some(d)
    requires InFlightTo(s.requests, d) + 1 <= c
    ensures var checks := ChecksOf(r, |s.origins| + 1);
      var s' := Run(s, p, checks);
      && Shows(s, p, checks, d, c, now, [now], now)
      && s' == s.(requests := s.requests[r := s.requests[r].(phase := InFlight(d))])
      && InFlightTo(s'.requests, d) == InFlightTo(s.requests, d) + 1
  {
    var checks := ChecksOf(r, |s.origins| + 1);
    assert Settled(s, p, s.requests[r]) == InFlight(d);
    hide Shows, ChecksOf, Pick, Settled, InFlightTo;
    ChecksReachPick(s, p, r);
    ChecksKeepOrigins(s, p, r, |s.origins| + 1);
    ChecksShow(s, p, r, |s.origins| + 1, d, c, now);
  }

  lemma ArrivedShows(s: System, p: Policy, d: nat, c: nat, clock: int, now: int)
    requires d < |s.origins| && clock <= now && InFlightTo(s.requests, d) <= c
    ensures Run(s, p, [Arrive(now)]) == Next(s, p, Arrive(now))
    ensures Shows(s, p, [Arrive(now)], d, c, clock, [], now)
    ensures InFlightTo(Next(s, p, Arrive(now)).requests, d) == InFlightTo(s.requests, d)
  {
    InFlightAfter(s, p, Arrive(now), d);
    OneShows(s, p, Arrive(now), d, c, clock);
  }

  function Serve(r: nat, n: nat, now: int): seq<Event> {
    [Arrive(now)] + ChecksOf(r, n + 1)
  }

  /** The last `m` requests are in flight to `d`. */
  ghost predicate LastInFlight(s: System, m: nat, d: nat) {
    m <= |s.requests| && forall r | |s.requests| - m <= r < |s.requests| :: s.requests[r].phase == InFlight(d)
  }

  lemma OneMoreInFlight(s: System, s': System, d: nat, m: nat, q: Request)
    requires OthersDown(s, d) && LastInFlight(s, m, d) && q.phase.Scanning?
    requires s'.origins == s.origins && s'.next == s.next + 1
    requires s'.requests == (s.requests + [q])[|s.requests| := q.(phase := InFlight(d))]
    ensures OthersDown(s', d) && LastInFlight(s', m + 1, d) && |s'.requests| == |s.requests| + 1
  {}

  /** A request that arrives when `d` is the only origin up is sent to it. */
  lemma ServeShows(s: System, p: Policy, d: nat, c: nat, clock: int, now: int, m: nat)
    requires OthersDown(s, d) && Available(s.origins[d], now, p) && s.next + |s.origins| < TWO_64
    requires clock <= now && InFlightTo(s.requests, d) + 1 <= c && LastInFlight(s, m, d)
    ensures ServeIs(s, p, d, c, clock, now, m)
  {
    var r, n, q := |s.requests|, |s.origins|, Request(s.next + 1, Scanning(now, 0));
    var arrived := Next(s, p, Arrive(now));
    assert Ticket(s.next) == s.next + 1;
    assert arrived == System(s.origins, s.next + 1, s.requests + [q]);
    OnlyPick(s, p, d, now);
    assert Serve(r, n, now) == [Arrive(now)] + ChecksOf(r, n + 1) && d < n;
    ArrivedShows(s, p, d, c, clock, now);
    hide Next, OthersDown, LastInFlight, Shows, Run, Serve, ChecksOf, Pick, Available, InFlightTo;
    ChecksSend(arrived, p, r, d, c, now);
    ShowsJoins(s, p, [Arrive(now)], ChecksOf(r, n + 1), d, c, clock, [], now, [now], now);
    assert [] + [now] == [now];
    OneMoreInFlight(s, Run(arrived, p, ChecksOf(r, n + 1)), d, m, q);
  }

  /** `m` requests were already in flight to `d`, last of all; now there is one more. */
  ghost predicate ServeIs(s: System, p: Policy, d: nat, c: nat, clock: int, now: int, m: nat)
    requires s.origins != []
  {
    var events := Serve(|s.requests|, |s.origins|, now);
    var s' := Run(s, p, events);
    && Shows(s, p, events, d, c, clock, [now], now)
    && OthersDown(s', d) && s'.origins == s.origins && |s'.requests| == |s.requests| + 1
    && LastInFlight(s', m + 1, d) && InFlightTo(s'.requests, d) == InFlightTo(s.requests, d) + 1
  }

  // ---- a volley: m requests at once, which then all fail ------------------------------------------

  function Serves(r: nat, n: nat, now: int, m: nat): seq<Event>
    decreases m
  {
    if m == 0 then [] else Serve(r, n, now) + Serves(r + 1, n, now, m - 1)
  }

  function Times(now: int, m: nat): seq<int> {
    if m == 0 then [] else [now] + Times(now, m - 1)
  }

  ghost predicate ServesAre(s: System, p: Policy, d: nat, c: nat, clock: int, now: int, m: nat, sent: nat)
    requires s.origins != []
  {
    var events := Serves(|s.requests|, |s.origins|, now, m);
    var s' := Run(s, p, events);
    && Shows(s, p, events, d, c, clock, Times(now, m), if m == 0 then clock else now)
    && OthersDown(s', d) && s'.origins == s.origins && |s'.requests| == |s.requests| + m
    && LastInFlight(s', sent + m, d) && InFlightTo(s'.requests, d) == InFlightTo(s.requests, d) + m
  }

  lemma ServesJoin(s: System, p: Policy, d: nat, c: nat, clock: int, now: int, m: nat, sent: nat)
    requires s.origins != [] && m > 0 && ServeIs(s, p, d, c, clock, now, sent)
    requires ServesAre(Run(s, p, Serve(|s.requests|, |s.origins|, now)), p, d, c, now, now, m - 1, sent + 1)
    ensures ServesAre(s, p, d, c, clock, now, m, sent)
  {
    var first := Serve(|s.requests|, |s.origins|, now);
    var rest := Serves(|s.requests| + 1, |s.origins|, now, m - 1);
    assert Serves(|s.requests|, |s.origins|, now, m) == first + rest && Times(now, m) == [now] + Times(now, m - 1);
    hide Serve, Serves, Times, OthersDown, LastInFlight, Shows, Run, InFlightTo;
    ShowsJoins(s, p, first, rest, d, c, clock, [now], now, Times(now, m - 1), now);
  }

  lemma {:induction false} ServesShow(s: System, p: Policy, d: nat, c: nat, clock: int, now: int, m: nat, sent: nat)
    requires OthersDown(s, d) && Available(s.origins[d], now, p) && s.next + m + |s.origins| <= TWO_64
    requires clock <= now && InFlightTo(s.requests, d) + m <= c && LastInFlight(s, sent, d)
    ensures ServesAre(s, p, d, c, clock, now, m, sent)
    decreases m
  {
    if m == 0 {
      assert Run(s, p, []) == s && Shows(s, p, [], d, c, clock, [], clock);
      return;
    }
    ServeShows(s, p, d, c, clock, now, sent);
    var s1 := Run(s, p, Serve(|s.requests|, |s.origins|, now));
    hide ServesAre, Run, Available, InFlightTo, Serve;
    ServesShow(s1, p, d, c, now, now, m - 1, sent + 1);
    ServesJoin(s, p, d, c, clock, now, m, sent);
  }

  function Fails(from: nat, now: int, m: nat): seq<Event>
    decreases m
  {
    if m == 0 then [] else [Complete(from, Errors(now))] + Fails(from + 1, now, m - 1)
  }

  /** The last `m` requests, in flight to `d`, all fail. */
  ghost predicate FailsAre(s: System, p: Policy, d: nat, c: nat, clock: int, now: int, m: nat)
    requires d < |s.origins| && m <= |s.requests|
  {
    var events := Fails(|s.requests| - m, now, m);
    var s' := Run(s, p, events);
    && Shows(s, p, events, d, c, clock, [], if m == 0 then clock else now)
    && OthersDown(s', d) && |s'.requests| == |s.requests|
    && (m > 0 ==> s'.origins[d] == Health(now, false, s.origins[d].consecutiveFailures + m))
    && (m == 0 ==> s' == s)
    && InFlightTo(s'.requests, d) == InFlightTo(s.requests, d) - m
  }

  lemma OneFails(s: System, p: Policy, d: nat, now: int, m: nat)
    requires m > 0 && OthersDown(s, d) && LastInFlight(s, m, d) && now != ZERO_TIME
    ensures var e := Complete(|s.requests| - m, Errors(now));
      var s' := Next(s, p, e);
      && Ends(s, e, d) && !Sends(s, p, e, d) && |s'.requests| == |s.requests|
      && OthersDown(s', d) && LastInFlight(s', m - 1, d)
      && InFlightTo(s'.requests, d) == InFlightTo(s.requests, d) - 1
      && s'.origins[d] == Failed(s.origins[d], now)
  {
    InFlightAfter(s, p, Complete(|s.requests| - m, Errors(now)), d);
    hide InFlightTo;
  }

  lemma {:induction false} FailsShow(s: System, p: Policy, d: nat, c: nat, clock: int, now: int, m: nat)
    requires OthersDown(s, d) && LastInFlight(s, m, d) && clock <= now && now != ZERO_TIME
    requires InFlightTo(s.requests, d) <= c && !s.origins[d].forcedDown
    ensures FailsAre(s, p, d, c, clock, now, m)
    decreases m
  {
    if m == 0 {
      assert Run(s, p, []) == s && Shows(s, p, [], d, c, clock, [], clock);
      return;
    }
    var e := Complete(|s.requests| - m, Errors(now));
    OneFails(s, p, d, now, m);
    var s' := Next(s, p, e);
    hide OthersDown, LastInFlight, InFlightTo, Next, Sends, Ends, Shows, FailsAre;
    OneShows(s, p, e, d, c, clock);
    FailsShow(s', p, d, c, now, now, m - 1);
    FailsJoin(s, s', p, d, c, clock, now, m);
  }

  lemma FailsJoin(s: System, s': System, p: Policy, d: nat, c: nat, clock: int, now: int, m: nat)
    requires m > 0 && m <= |s.requests| == |s'.requests| && d < |s.origins| == |s'.origins|
    requires var e := Complete(|s.requests| - m, Errors(now));
      Run(s, p, [e]) == s' && Shows(s, p, [e], d, c, clock, [], now)
    requires s'.origins[d] == Failed(s.origins[d], now) && !s.origins[d].forcedDown
    requires InFlightTo(s'.requests, d) == InFlightTo(s.requests, d) - 1
    requires FailsAre(s', p, d, c, now, now, m - 1)
    ensures FailsAre(s, p, d, c, clock, now, m)
  {
    var from := |s.requests| - m;
    assert Fails(from, now, m) == [Complete(from, Errors(now))] + Fails(from + 1, now, m - 1);
    if m == 1 {
      assert Fails(from + 1, now, m - 1) == [] && Run(s', p, []) == s';
    }
    hide Shows, Run, Fails, OthersDown, InFlightTo;
    ShowsJoins(s, p, [Complete(from, Errors(now))], Fails(from + 1, now, m - 1), d, c, clock, [], now, [], now);
  }

  function Volley(r: nat, n: nat, now: int, m: nat): seq<Event> {
    Serves(r, n, now, m) + Fails(r, now, m)
  }

  lemma VolleyShows(s: System, p: Policy, d: nat, c: nat, clock: int, last: int, failures: int, now: int, m: nat)
    requires Quiet(s, d, last, failures) && Available(s.origins[d], now, p)
    requires |s.requests| + m + |s.origins| <= TWO_64 && 0 < m <= c && clock <= now && now != ZERO_TIME
    ensures var events := Volley(|s.requests|, |s.origins|, now, m);
      var s' := Run(s, p, events);
      && Shows(s, p, events, d, c, clock, Times(now, m), now)
      && Quiet(s', d, now, failures + m) && |s'.requests| == |s.requests| + m
  {
    var r, n := |s.requests|, |s.origins|;
    var served := Run(s, p, Serves(r, n, now, m));
    assert LastInFlight(s, 0, d);
    ServesShow(s, p, d, c, clock, now, m, 0);
    hide Shows, Run, Serves, Fails, Times, Available, InFlightTo, LastInFlight, OthersDown;
    FailsShow(served, p, d, c, now, now, m);
    ShowsJoins(s, p, Serves(r, n, now, m), Fails(r, now, m), d, c, clock, Times(now, m), now, [], now);
    assert Times(now, m) + [] == Times(now, m);
  }

  // ---- up to the trip ---------------------------------------------------------------------------------

  function ProbesDown(d: nat, k: nat): seq<Event> {
    if k == 0 then [] else ProbesDown(d, k - 1) + (if k - 1 == d then [] else [Event.Probe(k - 1, true)])
  }

  lemma {:induction false} ProbesShow(n: nat, p: Policy, d: nat, k: nat, clock: int)
    requires d < n && k <= n
    ensures var s := Run(Init(n), p, ProbesDown(d, k));
      && Shows(Init(n), p, ProbesDown(d, k), d, 0, clock, [], clock)
      && s.next == 0 && s.requests == [] && |s.origins| == n && s.origins[d] == FRESH
      && (forall o | 0 <= o < n :: Consistent(s.origins[o]))
      && (forall o | 0 <= o < k && o != d :: s.origins[o].forcedDown)
  {
    if k > 0 {
      ProbesShow(n, p, d, k - 1, clock);
      var before, s := ProbesDown(d, k - 1), Run(Init(n), p, ProbesDown(d, k - 1));
      if k - 1 == d {
        assert ProbesDown(d, k) == before;
      } else {
        var e := Event.Probe(k - 1, true);
        OneShows(s, p, e, d, 0, clock);
        ShowsJoins(Init(n), p, before, [e], d, 0, clock, [], clock, [], clock);
      }
    }
  }

  lemma {:induction false} MoreOverlapToo(s: System, p: Policy, events: seq<Event>, d: nat, c: nat, c': nat, clock: int)
    requires s.origins != [] && c <= c' && Unanswered(s, p, events, d, c, 0, clock)
    ensures Unanswered(s, p, events, d, c', 0, clock)
    decreases |events|
  {
    if events != [] {
      MoreOverlapToo(Next(s, p, events[0]), p, events[1..], d, c, c', ClockAt(clock, events[0]));
    }
  }

  /** When the next request below the threshold can be sent. */
  function AfterCooldown(p: Policy, last: int): int {
    last + (if p.cooldown < 0 then 1 else p.cooldown + 1)
  }

  /** `m` failures short of the trip, one request at a time. */
  lemma {:induction false} Weakened(n: nat, p: Policy, d: nat, m: nat)
    returns (events: seq<Event>, last: int)
    requires d < n && m < p.threshold && m + n <= TWO_64
    ensures ZERO_TIME <= last && Shows(Init(n), p, events, d, 1, ZERO_TIME, Starts(Init(n), p, events, d), last)
    ensures var s := Run(Init(n), p, events);
      && |s.requests| == m && InFlightTo(s.requests, d) == 0 && OthersDown(s, d)
      && s.origins[d] == Health(if m == 0 then ZERO_TIME else last, false, m)
    decreases m
  {
    if m == 0 {
      ProbesShow(n, p, d, n, ZERO_TIME);
      events, last := ProbesDown(d, n), ZERO_TIME;
      MoreOverlapToo(Init(n), p, events, d, 0, 1, ZERO_TIME);
    } else {
      var before, prior := Weakened(n, p, d, m - 1);
      var s := Run(Init(n), p, before);
      last := AfterCooldown(p, prior);
      var volley := Volley(m - 1, n, last, 1);
      VolleyShows(s, p, d, 1, prior, s.origins[d].lastFailureAt, m - 1, last, 1);
      ShowsJoins(Init(n), p, before, volley, d, 1, ZERO_TIME, Starts(Init(n), p, before, d), prior,
                 Times(last, 1), last);
      events := before + volley;
    }
  }

  /** One more request, which fails at once. */
  lemma LastStrike(s: System, p: Policy, d: nat, last: int, now: int)
    requires OthersDown(s, d) && InFlightTo(s.requests, d) == 0 && !s.origins[d].forcedDown
    requires Available(s.origins[d], now, p) && s.next + |s.origins| < TWO_64 && last <= now && now != ZERO_TIME
    ensures var serve, e := Serve(|s.requests|, |s.origins|, now), Complete(|s.requests|, Errors(now));
      var served := Run(s, p, serve);
      && Shows(s, p, serve, d, 1, last, [now], now) && served.origins == s.origins
      && Quiet(Next(served, p, e), d, now, s.origins[d].consecutiveFailures + 1)
      && |Next(served, p, e).requests| == |s.requests| + 1
  {
    ServeShows(s, p, d, 1, last, now, 0);
    var served := Run(s, p, Serve(|s.requests|, |s.origins|, now));
    hide Shows, Run, Serve, Available, InFlightTo, OthersDown, Quiet, Next;
    OnlyOneFails(served, p, d, now);
  }

  lemma OnlyOneFails(s: System, p: Policy, d: nat, now: int)
    requires OthersDown(s, d) && LastInFlight(s, 1, d) && InFlightTo(s.requests, d) == 1
    requires !s.origins[d].forcedDown && now != ZERO_TIME
    ensures var s' := Next(s, p, Complete(|s.requests| - 1, Errors(now)));
      Quiet(s', d, now, s.origins[d].consecutiveFailures + 1) && |s'.requests| == |s.requests|
  {
    var e := Complete(|s.requests| - 1, Errors(now));
    InFlightAfter(s, p, e, d);
    hide InFlightTo;
  }

  /** The threshold-th failure. */
  lemma Trips(n: nat, p: Policy, d: nat) returns (before: seq<Event>, e: Event)
    requires d < n && Tunable(p) && p.threshold + n < TWO_64
    ensures e.Complete? && TripsAt(n, p, before, e, d) && e.outcome.at > ZERO_TIME
    ensures ClockAt(ClockAfter(ZERO_TIME, before), e) == e.outcome.at
    ensures var s := Next(Run(Init(n), p, before), p, e);
      Quiet(s, d, e.outcome.at, p.threshold) && |s.requests| == p.threshold
  {
    var m := p.threshold - 1;
    var weak, last := Weakened(n, p, d, m);
    var s := Run(Init(n), p, weak);
    var now := AfterCooldown(p, last);
    var serve := Serve(m, n, now);
    LastStrike(s, p, d, last, now);
    hide OthersDown, Quiet, Run, Next, Shows, Serve, Available, InFlightTo;
    ShowsJoins(Init(n), p, weak, serve, d, 1, ZERO_TIME, Starts(Init(n), p, weak, d), last, [now], now);
    before, e := weak + serve, Complete(m, Errors(now));
    TripFollows(n, p, before, e, d, now, Starts(Init(n), p, weak, d) + [now]);
  }

  lemma TripFollows(n: nat, p: Policy, before: seq<Event>, e: Event, d: nat, now: int, starts: seq<int>)
    requires d < n && Tunable(p) && Shows(Init(n), p, before, d, 1, ZERO_TIME, starts, now)
    requires e.Complete? && e.outcome == Errors(now)
    requires Run(Init(n), p, before).origins[d].consecutiveFailures == p.threshold - 1
    requires Quiet(Next(Run(Init(n), p, before), p, e), d, now, p.threshold)
    ensures TripsAt(n, p, before, e, d) && ClockAt(ClockAfter(ZERO_TIME, before), e) == now
  {
    hide Run, Next, Unanswered, Starts, InFlightTo;
  }

  // ---- after the trip ------------------------------------------------------------------------------------

  lemma {:induction false} LastTime(now: int, m: nat)
    ensures |Times(now, m)| == m && (m > 0 ==> Times(now, m)[m - 1] == now)
  {
    if m > 0 {
      LastTime(now, m - 1);
    }
  }

  lemma WindowOver(s: System, p: Policy, d: nat, last: int, excess: nat)
    requires Quiet(s, d, last, p.threshold + excess) && Tunable(p)
    ensures Available(s.origins[d], last + Doubled(p.breakerCooldown, Capped(excess)) + 1, p)
  {
    EscalationExact(p.breakerCooldown, excess);
  }

  /** `events` send the k requests that come as early as they can, and end with their failures. */
  ghost predicate Besieges(s: System, p: Policy, d: nat, c: nat, trip: int, k: nat,
                           events: seq<Event>, starts: seq<int>)
    requires s.origins != [] && c > 0
  {
    var s', last := Run(s, p, events), trip + Earliest(p.breakerCooldown, c, 0, k);
    && Shows(s, p, events, d, c, trip, starts, last)
    && |starts| == k && (k > 0 ==> starts[k - 1] == last)
    && Quiet(s', d, last, p.threshold + k) && |s'.requests| == |s.requests| + k
  }

  /** As many more as may overlap, as soon as the window allows. */
  lemma VolleyMore(s: System, p: Policy, d: nat, c: nat, trip: int, k: nat, m: nat,
                   before: seq<Event>, earlier: seq<int>)
    returns (events: seq<Event>, starts: seq<int>)
    requires s.origins != [] && c > 0 && Tunable(p) && trip > ZERO_TIME && 0 < m <= c && (k > 0 ==> m == c)
    requires Besieges(s, p, d, c, trip, k, before, earlier) && |s.requests| + k + m + |s.origins| <= TWO_64
    ensures Besieges(s, p, d, c, trip, k + m, events, starts)
  {
    var s', last := Run(s, p, before), trip + Earliest(p.breakerCooldown, c, 0, k);
    var now := NextWindow(s', p, d, c, trip, k, m, last);
    var volley := Volley(|s'.requests|, |s.origins|, now, m);
    LastTime(now, m);
    hide Shows, Run, Quiet, Available, Earliest, Tunable, Volley, Times;
    VolleyShows(s', p, d, c, last, last, p.threshold + k, now, m);
    ShowsJoins(s, p, before, volley, d, c, trip, earlier, last, Times(now, m), now);
    events, starts := before + volley, earlier + Times(now, m);
  }

  lemma NextWindow(s: System, p: Policy, d: nat, c: nat, trip: int, k: nat, m: nat, last: int) returns (now: int)
    requires c > 0 && Tunable(p) && trip > ZERO_TIME && 0 < m <= c && (k > 0 ==> m == c)
    requires last == trip + Earliest(p.breakerCooldown, c, 0, k) && Quiet(s, d, last, p.threshold + k)
    ensures now == trip + Earliest(p.breakerCooldown, c, 0, k + m) && ZERO_TIME < last <= now
    ensures Available(s.origins[d], now, p)
  {
    var base := p.breakerCooldown;
    now := trip + Earliest(base, c, 0, k + m);
    EarliestMono(base, c, 0, 0, k);
    DoubledMono(base, 0, Capped(k));
    WindowOver(s, p, d, last, k);
    assert now == last + Doubled(base, Capped(k)) + 1;
  }

  lemma {:induction false} Besieged(s: System, p: Policy, d: nat, c: nat, trip: int, k: nat)
    returns (events: seq<Event>, starts: seq<int>)
    requires Quiet(s, d, trip, p.threshold) && trip > ZERO_TIME && Tunable(p) && c > 0
    requires |s.requests| + k + |s.origins| <= TWO_64
    ensures Besieges(s, p, d, c, trip, k, events, starts)
    decreases k
  {
    if k == 0 {
      events, starts := [], [];
      assert Shows(s, p, [], d, c, trip, [], trip);
      return;
    }
    hide Besieges, Quiet;
    var m := if k <= c then k else c;
    events, starts := Besieged(s, p, d, c, trip, k - m);
    events, starts := VolleyMore(s, p, d, c, trip, k - m, m, events, starts);
  }

  /** The bound of `OverlapPrice` is reached, for every k and every limit on overlap. In particular
      any number of requests up to the limit get through a half-open window together. */
  lemma OverlapPriceReached(n: nat, p: Policy, d: nat, c: nat, k: nat)
    returns (before: seq<Event>, e: Event, after: seq<Event>)
    requires d < n && c > 0 && k > 0 && Tunable(p) && p.threshold + k + n <= TWO_64
    ensures e.Complete? && TripsAt(n, p, before, e, d) && Timely([e])
    ensures var tripped := Next(Run(Init(n), p, before), p, e);
      var starts := Starts(tripped, p, after, d);
      && Unanswered(tripped, p, after, d, c, 0, ClockAt(ClockAfter(ZERO_TIME, before), e))
      && |starts| == k && starts[k - 1] == e.outcome.at + Earliest(p.breakerCooldown, c, 0, k)
  {
    before, e := Trips(n, p, d);
    var starts;
    after, starts := Besieged(Next(Run(Init(n), p, before), p, e), p, d, c, e.outcome.at, k);
  }
}
