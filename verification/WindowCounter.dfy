/** The shared counter of distributed mode: INCR, then EXPIRE by whoever saw 1, under every
    interleaving of callers, clock ticks, failures and expiries of one key. */
module WindowCounter {
  import opened Wrappers

  const TTL: real := 1.0

  /** A call of `allow`, by the generation (number of expiries before) and time of its INCR. It is
      pending while it is the one that must still set the expiry. */
  datatype Caller =
    | Pending(gen: nat, at: real)
    | Returned(gen: nat, at: real, allowed: bool)

  /** `value` is 0 when the key does not exist; `lapses` are the times it expired. */
  datatype System = System(now: real, value: nat, deadline: Option<real>, lapses: seq<real>, callers: seq<Caller>)

  /** A command that errors may have taken effect all the same. */
  datatype Event =
    | Tick(dt: real)
    | Incr
    | IncrFails(counted: bool)
    | ExpireOk(caller: nat)
    | ExpireFails(caller: nat, took: bool)
    | Lapse

  function WindowLimit(burst: real): (limit: nat)
    ensures limit >= 1
    ensures if burst < 1.0 then limit == 1 else limit as real <= burst < limit as real + 1.0
  {
    var whole := burst.Floor;
    if whole < 1 then 1 else whole
  }

  function Init(now: real): System {
    System(now, 0, None, [], [])
  }

  predicate IsPending(s: System, r: nat) {
    r < |s.callers| && s.callers[r].Pending?
  }

  function Answered(c: Caller, allowed: bool): Caller {
    Returned(c.gen, c.at, allowed)
  }

  /** Events that cannot happen in `s` change nothing. */
  function Next(s: System, limit: nat, e: Event): System {
    match e
    case Tick(dt) => if dt >= 0.0 then s.(now := s.now + dt) else s
    case Incr =>
      var count := s.value + 1;
      var caller := if count == 1 then Pending(|s.lapses|, s.now) else Returned(|s.lapses|, s.now, count <= limit);
      s.(value := count, callers := s.callers + [caller])
    case IncrFails(counted) =>
      s.(value := if counted then s.value + 1 else s.value,
         callers := s.callers + [Returned(|s.lapses|, s.now, false)])
    case ExpireOk(r) =>
      if !IsPending(s, r) then s
      else s.(deadline := Some(s.now + TTL), callers := s.callers[r := Answered(s.callers[r], 1 <= limit)])
    case ExpireFails(r, took) =>
      if !IsPending(s, r) then s
      else s.(deadline := if took then Some(s.now + TTL) else s.deadline,
              callers := s.callers[r := Answered(s.callers[r], false)])
    case Lapse =>
      if s.deadline.Some? && s.deadline.value <= s.now
      then s.(value := 0, deadline := None, lapses := s.lapses + [s.now])
      else s
  }

  function Run(s: System, limit: nat, events: seq<Event>): System
    decreases |events|
  {
    if events == [] then s else Run(Next(s, limit, events[0]), limit, events[1..])
  }

  // ---- at most `limit` per window -----------------------------------------

  predicate MayPass(c: Caller) {
    c.Pending? || c.allowed
  }

  /** Callers of a generation that were allowed, or still may be. */
  function Passing(callers: seq<Caller>, gen: nat): nat {
    if callers == [] then 0
    else
      var last := callers[|callers| - 1];
      (if last.gen == gen && MayPass(last) then 1 else 0) + Passing(callers[..|callers| - 1], gen)
  }

  function Allowed(callers: seq<Caller>, gen: nat): nat {
    if callers == [] then 0
    else
      var last := callers[|callers| - 1];
      (if last.gen == gen && last.Returned? && last.allowed then 1 else 0) + Allowed(callers[..|callers| - 1], gen)
  }

  lemma {:induction false} AllowedPasses(callers: seq<Caller>, gen: nat)
    ensures Allowed(callers, gen) <= Passing(callers, gen)
    ensures (forall r | 0 <= r < |callers| :: callers[r].Returned?) ==> Allowed(callers, gen) == Passing(callers, gen)
  {
    if callers != [] {
      AllowedPasses(callers[..|callers| - 1], gen);
    }
  }

  lemma {:induction false} PassingReplaced(callers: seq<Caller>, r: nat, c: Caller, gen: nat)
    requires r < |callers| && callers[r].Pending? && c.gen == callers[r].gen
    ensures Passing(callers[r := c], gen) ==
            Passing(callers, gen) - (if c.gen == gen && !MayPass(c) then 1 else 0)
  {
    var init, init' := callers[..|callers| - 1], callers[r := c][..|callers| - 1];
    if r == |callers| - 1 {
      assert init' == init;
    } else {
      assert init' == init[r := c];
      PassingReplaced(init, r, c, gen);
    }
  }

  lemma PassingAppended(callers: seq<Caller>, c: Caller, gen: nat)
    ensures Passing(callers + [c], gen) == Passing(callers, gen) + (if c.gen == gen && MayPass(c) then 1 else 0)
  {
    assert (callers + [c])[..|callers|] == callers;
  }

  lemma {:induction false} NoneYet(callers: seq<Caller>, gen: nat)
    requires forall r | 0 <= r < |callers| :: callers[r].gen < gen
    ensures Passing(callers, gen) == 0
  {
    if callers != [] {
      NoneYet(callers[..|callers| - 1], gen);
    }
  }

  /** A caller still to set the expiry belongs to the current window, which has no deadline yet,
      so the window cannot lapse under it. */
  ghost predicate OnePending(s: System) {
    && (forall r | 0 <= r < |s.callers| :: s.callers[r].gen <= |s.lapses|)
    && (forall r | 0 <= r < |s.callers| && s.callers[r].Pending? ::
          s.callers[r].gen == |s.lapses| && s.value >= 1 && s.deadline.None?)
    && (forall r, q | 0 <= r < q < |s.callers| :: !(s.callers[r].Pending? && s.callers[q].Pending?))
    && (s.deadline.Some? ==> s.value >= 1)
  }

  ghost predicate Bounded(s: System, limit: nat) {
    && (forall gen: nat :: Passing(s.callers, gen) <= limit)
    && Passing(s.callers, |s.lapses|) <= s.value
  }

  ghost predicate Inv(s: System, limit: nat) {
    OnePending(s) && Bounded(s, limit)
  }

  lemma NextKeepsOnePending(s: System, limit: nat, e: Event)
    requires OnePending(s)
    ensures OnePending(Next(s, limit, e))
  {}

  lemma NextKeepsBounded(s: System, limit: nat, e: Event)
    requires limit >= 1 && OnePending(s) && Bounded(s, limit)
    ensures Bounded(Next(s, limit, e), limit)
  {
    var s' := Next(s, limit, e);
    var gen := |s.lapses|;
    if e.Incr? || e.IncrFails? {
      forall g: nat ensures Passing(s'.callers, g) <= limit && (g == gen ==> Passing(s'.callers, g) <= s'.value) {
        PassingAppended(s.callers, s'.callers[|s.callers|], g);
      }
    } else if (e.ExpireOk? || e.ExpireFails?) && IsPending(s, e.caller) {
      forall g: nat ensures Passing(s'.callers, g) <= Passing(s.callers, g) {
        PassingReplaced(s.callers, e.caller, s'.callers[e.caller], g);
      }
    } else if e.Lapse? {
      NoneYet(s.callers, gen + 1);
    }
  }

  lemma NextKeepsInv(s: System, limit: nat, e: Event)
    requires limit >= 1 && Inv(s, limit)
    ensures Inv(Next(s, limit, e), limit)
  {
    NextKeepsOnePending(s, limit, e);
    NextKeepsBounded(s, limit, e);
  }

  lemma {:induction false} RunKeepsInv(s: System, limit: nat, events: seq<Event>)
    requires limit >= 1 && Inv(s, limit)
    ensures Inv(Run(s, limit, events), limit)
    decreases |events|
  {
    if events != [] {
      NextKeepsInv(s, limit, events[0]);
      RunKeepsInv(Next(s, limit, events[0]), limit, events[1..]);
    }
  }

  /** Under every interleaving, at most max(1, floor(burst)) calls of one window return true, even
      when INCR or EXPIRE fails. */
  lemma WindowBounded(now: real, burst: real, events: seq<Event>, gen: nat)
    ensures Allowed(Run(Init(now), WindowLimit(burst), events).callers, gen) as real <=
            if burst < 1.0 then 1.0 else burst
  {
    var s := Run(Init(now), WindowLimit(burst), events);
    RunKeepsInv(Init(now), WindowLimit(burst), events);
    AllowedPasses(s.callers, gen);
  }

  // ---- exactly the first `limit` when nothing fails ------------------------

  predicate Works(e: Event) {
    !e.IncrFails? && !e.ExpireFails?
  }

  /** Calls of a window, in the order of their INCRs. */
  function CallsOf(callers: seq<Caller>, gen: nat): nat {
    if callers == [] then 0
    else (if callers[|callers| - 1].gen == gen then 1 else 0) + CallsOf(callers[..|callers| - 1], gen)
  }

  /** How many calls of its window came before caller `r`. */
  function Rank(callers: seq<Caller>, r: nat): nat
    requires r < |callers|
  {
    CallsOf(callers[..r], callers[r].gen)
  }

  ghost predicate DecidedByRank(c: Caller, rank: nat, limit: nat) {
    if c.Pending? then rank == 0 else c.allowed <==> rank < limit
  }

  ghost predicate ByRank(s: System, limit: nat) {
    && s.value == CallsOf(s.callers, |s.lapses|)
    && (forall r | 0 <= r < |s.callers| :: s.callers[r].gen <= |s.lapses|)
    && (forall r | 0 <= r < |s.callers| :: DecidedByRank(s.callers[r], Rank(s.callers, r), limit))
  }

  lemma {:induction false} SameCalls(callers: seq<Caller>, r: nat, c: Caller, gen: nat)
    requires r < |callers| && c.gen == callers[r].gen
    ensures CallsOf(callers[r := c], gen) == CallsOf(callers, gen)
  {
    var init, init' := callers[..|callers| - 1], callers[r := c][..|callers| - 1];
    if r == |callers| - 1 {
      assert init' == init;
    } else {
      assert init' == init[r := c];
      SameCalls(init, r, c, gen);
    }
  }

  lemma RankReplaced(callers: seq<Caller>, r: nat, c: Caller, q: nat)
    requires r < |callers| && q < |callers| && c.gen == callers[r].gen
    ensures Rank(callers[r := c], q) == Rank(callers, q)
  {
    if r < q {
      assert callers[r := c][..q] == callers[..q][r := c];
      SameCalls(callers[..q], r, c, callers[q].gen);
    } else {
      assert callers[r := c][..q] == callers[..q];
    }
  }

  lemma {:induction false} NoCallsYet(callers: seq<Caller>, gen: nat)
    requires forall r | 0 <= r < |callers| :: callers[r].gen < gen
    ensures CallsOf(callers, gen) == 0
  {
    if callers != [] {
      NoCallsYet(callers[..|callers| - 1], gen);
    }
  }

  lemma NextKeepsByRank(s: System, limit: nat, e: Event)
    requires limit >= 1 && ByRank(s, limit) && Works(e)
    ensures ByRank(Next(s, limit, e), limit)
  {
    hide CallsOf;
    var s' := Next(s, limit, e);
    match e {
      case Tick(_) =>
      case Incr =>
        CallAppended(s.callers, s'.callers[|s.callers|]);
        forall q | 0 <= q < |s'.callers| ensures DecidedByRank(s'.callers[q], Rank(s'.callers, q), limit) {
          assert s'.callers[..q] == s.callers[..q];
          if q < |s.callers| {
            assert DecidedByRank(s.callers[q], Rank(s.callers, q), limit);
          } else {
            assert s.callers[..q] == s.callers;
          }
        }
      case ExpireOk(r) =>
        if IsPending(s, r) {
          SameCalls(s.callers, r, s'.callers[r], |s.lapses|);
          forall q | 0 <= q < |s'.callers| ensures DecidedByRank(s'.callers[q], Rank(s'.callers, q), limit) {
            RankReplaced(s.callers, r, s'.callers[r], q);
            assert DecidedByRank(s.callers[q], Rank(s.callers, q), limit);
          }
        }
      case Lapse => NoCallsYet(s.callers, |s.lapses| + 1);
      case _ => assert false;
    }
  }

  lemma CallAppended(callers: seq<Caller>, c: Caller)
    ensures CallsOf(callers + [c], c.gen) == CallsOf(callers, c.gen) + 1
  {
    assert (callers + [c])[..|callers|] == callers;
  }

  lemma {:induction false} RunKeepsByRank(s: System, limit: nat, events: seq<Event>)
    requires limit >= 1 && ByRank(s, limit) && forall e | e in events :: Works(e)
    ensures ByRank(Run(s, limit, events), limit)
    decreases |events|
  {
    if events != [] {
      assert events[0] in events;
      NextKeepsByRank(s, limit, events[0]);
      RunKeepsByRank(Next(s, limit, events[0]), limit, events[1..]);
    }
  }

  /** When nothing fails, a call that has returned was allowed if and only if fewer than
      max(1, floor(burst)) calls of its window had their INCR before it, in every interleaving. */
  lemma WindowExact(now: real, burst: real, events: seq<Event>, r: nat)
    requires forall e | e in events :: Works(e)
    requires r < |Run(Init(now), WindowLimit(burst), events).callers|
    ensures var callers := Run(Init(now), WindowLimit(burst), events).callers;
      callers[r].Returned? ==>
        (callers[r].allowed <==> Rank(callers, r) == 0 || (Rank(callers, r) + 1) as real <= burst)
  {
    RunKeepsByRank(Init(now), WindowLimit(burst), events);
    var callers := Run(Init(now), WindowLimit(burst), events).callers;
    assert DecidedByRank(callers[r], Rank(callers, r), WindowLimit(burst));
  }

  // ---- at most twice that in less than a second ----------------------------

  ghost predicate InWindow(c: Caller, lapses: seq<real>, now: real) {
    && c.gen <= |lapses| && c.at <= now
    && (c.gen < |lapses| ==> c.at <= lapses[c.gen])
    && (c.gen > 0 ==> c.at >= lapses[c.gen - 1])
  }

  ghost predicate LapsesApart(s: System) {
    && (s.lapses != [] ==> s.lapses[|s.lapses| - 1] <= s.now)
    && (forall i | 0 < i < |s.lapses| :: s.lapses[i] >= s.lapses[i - 1] + TTL)
    && (s.deadline.Some? && s.lapses != [] ==> s.deadline.value >= s.lapses[|s.lapses| - 1] + TTL)
  }

  /** Windows last at least TTL, and every caller falls inside its own window. */
  ghost predicate Spaced(s: System) {
    && LapsesApart(s)
    && (forall r | 0 <= r < |s.callers| :: InWindow(s.callers[r], s.lapses, s.now))
  }

  ghost predicate InOrder(callers: seq<Caller>) {
    forall r, q | 0 <= r < q < |callers| :: callers[r].gen <= callers[q].gen
  }

  lemma NextKeepsOrder(s: System, limit: nat, e: Event)
    requires Inv(s, limit) && InOrder(s.callers)
    ensures InOrder(Next(s, limit, e).callers)
  {}

  lemma {:induction false} RunKeepsSpaced(s: System, limit: nat, events: seq<Event>)
    requires limit >= 1 && Inv(s, limit) && Spaced(s) && InOrder(s.callers)
    ensures Spaced(Run(s, limit, events)) && InOrder(Run(s, limit, events).callers)
    decreases |events|
  {
    if events != [] {
      NextKeepsInv(s, limit, events[0]);
      NextKeepsSpaced(s, limit, events[0]);
      NextKeepsOrder(s, limit, events[0]);
      RunKeepsSpaced(Next(s, limit, events[0]), limit, events[1..]);
    }
  }

  lemma NextKeepsLapsesApart(s: System, limit: nat, e: Event)
    requires Inv(s, limit) && LapsesApart(s)
    ensures LapsesApart(Next(s, limit, e))
  {}

  lemma CallersStayInWindow(c: Caller, s: System, limit: nat, e: Event)
    requires LapsesApart(s) && InWindow(c, s.lapses, s.now)
    ensures InWindow(c, Next(s, limit, e).lapses, Next(s, limit, e).now)
  {}

  lemma NextKeepsSpaced(s: System, limit: nat, e: Event)
    requires Inv(s, limit) && Spaced(s)
    ensures Spaced(Next(s, limit, e))
  {
    var s' := Next(s, limit, e);
    forall r | 0 <= r < |s'.callers|
      ensures InWindow(s'.callers[r], s'.lapses, s'.now)
    {
      if r < |s.callers| {
        assert InWindow(s.callers[r], s.lapses, s.now);
        CallersStayInWindow(s.callers[r], s, limit, e);
      }
    }
    NextKeepsLapsesApart(s, limit, e);
  }

  /** Allowed calls whose INCR fell in [from, to]. */
  function AllowedBetween(callers: seq<Caller>, from: real, to: real): nat {
    if callers == [] then 0
    else
      var last := callers[|callers| - 1];
      (if from <= last.at <= to && last.Returned? && last.allowed then 1 else 0) +
      AllowedBetween(callers[..|callers| - 1], from, to)
  }

  lemma {:induction false} LapsesFarApart(s: System, i: nat, j: nat)
    requires Spaced(s) && i < j < |s.lapses|
    ensures s.lapses[j] >= s.lapses[i] + TTL
    decreases j
  {
    if i < j - 1 {
      LapsesFarApart(s, i, j - 1);
    }
  }

  lemma TwoWindowsApart(s: System, r: nat, q: nat)
    requires Spaced(s) && r < |s.callers| && q < |s.callers|
    requires s.callers[q].gen >= s.callers[r].gen + 2
    ensures s.callers[q].at >= s.callers[r].at + TTL
  {
    assert InWindow(s.callers[r], s.lapses, s.now) && InWindow(s.callers[q], s.lapses, s.now);
    LapsesFarApart(s, s.callers[r].gen, s.callers[q].gen - 1);
  }

  lemma {:induction false} CountedTwice(callers: seq<Caller>, from: real, to: real, gen: nat)
    requires forall r | 0 <= r < |callers| && from <= callers[r].at <= to ::
      gen <= callers[r].gen + 1 && callers[r].gen <= gen
    requires gen >= 1
    ensures AllowedBetween(callers, from, to) <= Allowed(callers, gen - 1) + Allowed(callers, gen)
  {
    if callers != [] {
      CountedTwice(callers[..|callers| - 1], from, to, gen);
    }
  }

  /** No caller of the stretch before caller q is more than one window older than it. */
  lemma WindowsBefore(s: System, q: nat, r: nat, from: real, to: real)
    requires Spaced(s) && InOrder(s.callers) && r <= q < |s.callers| && to - from < TTL
    requires from <= s.callers[q].at <= to && from <= s.callers[r].at <= to
    ensures s.callers[q].gen <= s.callers[r].gen + 1 && s.callers[r].gen <= s.callers[q].gen
  {
    if s.callers[q].gen >= s.callers[r].gen + 2 {
      TwoWindowsApart(s, r, q);
    }
  }

  lemma PrefixAllowed(s: System, limit: nat, k: nat, gen: nat)
    requires Inv(s, limit) && k <= |s.callers|
    ensures Allowed(s.callers[..k], gen) <= limit
  {
    AllowedPrefix(s.callers, k, gen);
    AllowedPasses(s.callers, gen);
  }

  lemma {:induction false} TwoWindowsAtMost(s: System, limit: nat, k: nat, from: real, to: real)
    requires Inv(s, limit) && Spaced(s) && InOrder(s.callers) && k <= |s.callers| && to - from < TTL
    ensures AllowedBetween(s.callers[..k], from, to) <= 2 * limit
    decreases k
  {
    hide Inv, Spaced, InOrder;
    if k > 0 {
      var callers := s.callers[..k];
      assert callers[..k - 1] == s.callers[..k - 1];
      var last := callers[k - 1];
      if from <= last.at <= to {
        var gen := if last.gen == 0 then 1 else last.gen;
        forall r | 0 <= r < k && from <= callers[r].at <= to
          ensures gen <= callers[r].gen + 1 && callers[r].gen <= gen
        {
          WindowsBefore(s, k - 1, r, from, to);
        }
        CountedTwice(callers, from, to, gen);
        PrefixAllowed(s, limit, k, gen);
        PrefixAllowed(s, limit, k, gen - 1);
      } else {
        TwoWindowsAtMost(s, limit, k - 1, from, to);
      }
    }
  }

  lemma {:induction false} AllowedPrefix(callers: seq<Caller>, k: nat, gen: nat)
    requires k <= |callers|
    ensures Allowed(callers[..k], gen) <= Allowed(callers, gen)
    decreases |callers|
  {
    if k == |callers| {
      assert callers[..k] == callers;
    } else {
      assert callers[..|callers| - 1][..k] == callers[..k];
      AllowedPrefix(callers[..|callers| - 1], k, gen);
    }
  }

  /** In any stretch shorter than a second, at most twice max(1, floor(burst)) calls are admitted. */
  lemma UnderASecondBounded(now: real, burst: real, events: seq<Event>, from: real, to: real)
    requires to - from < 1.0
    ensures AllowedBetween(Run(Init(now), WindowLimit(burst), events).callers, from, to) as real <=
            if burst < 1.0 then 2.0 else 2.0 * burst
  {
    var limit := WindowLimit(burst);
    var s := Run(Init(now), limit, events);
    RunKeepsInv(Init(now), limit, events);
    RunKeepsSpaced(Init(now), limit, events);
    TwoWindowsAtMost(s, limit, |s.callers|, from, to);
    assert s.callers[..|s.callers|] == s.callers;
  }

  /** A window lasts a second from its EXPIRE, and may lapse from then on. */
  lemma LapsesAfterASecond(s: System, limit: nat, r: nat, dt: real)
    requires IsPending(s, r) && dt >= 0.0
    ensures var s' := Next(Next(Next(s, limit, ExpireOk(r)), limit, Tick(dt)), limit, Lapse);
      if dt >= 1.0 then s'.value == 0 && s'.lapses == s.lapses + [s.now + dt]
      else s'.value == s.value && s'.lapses == s.lapses
  {}

  // ---- what a failed EXPIRE costs -------------------------------------------

  ghost predicate Stuck(s: System) {
    s.value >= 1 && s.deadline.None? && forall r | 0 <= r < |s.callers| :: s.callers[r].Returned?
  }

  lemma {:induction false} StuckForever(s: System, limit: nat, events: seq<Event>)
    requires Stuck(s)
    ensures Stuck(Run(s, limit, events)) && Run(s, limit, events).lapses == s.lapses
    decreases |events|
  {
    if events != [] {
      var s' := Next(s, limit, events[0]);
      StuckForever(s', limit, events[1..]);
    }
  }

  /** A failed EXPIRE lets the key expire later if and only if it took effect. If not, it never
      does: whatever happens later, the calls admitted from then on belong to that one window, so
      no more than max(1, floor(burst)) ever pass. */
  lemma FailedExpireSticksIff(now: real, burst: real, before: seq<Event>, r: nat, took: bool)
    requires IsPending(Run(Init(now), WindowLimit(burst), before), r)
    ensures var limit := WindowLimit(burst);
      var s := Run(Init(now), limit, before);
      var failed := Next(s, limit, ExpireFails(r, took));
      && ((exists after :: Run(failed, limit, after).lapses != s.lapses) <==> took)
      && (!took ==> forall after ::
            Allowed(Run(failed, limit, after).callers, |s.lapses|) as real <= (if burst < 1.0 then 1.0 else burst)
            && forall c | c in Run(failed, limit, after).callers :: c.gen <= |s.lapses|)
  {
    var limit := WindowLimit(burst);
    var s := Run(Init(now), limit, before);
    RunKeepsInv(Init(now), limit, before);
    var failed := Next(s, limit, ExpireFails(r, took));
    NextKeepsInv(s, limit, ExpireFails(r, took));
    if took {
      RunTwo(failed, limit, Tick(TTL), Lapse);
      assert Run(failed, limit, [Tick(TTL), Lapse]).lapses != s.lapses;
    } else {
      forall after
        ensures Run(failed, limit, after).lapses == s.lapses
        ensures Inv(Run(failed, limit, after), limit)
        ensures Allowed(Run(failed, limit, after).callers, |s.lapses|) <= limit
      {
        StuckForever(failed, limit, after);
        RunKeepsInv(failed, limit, after);
        AllowedPasses(Run(failed, limit, after).callers, |s.lapses|);
      }
    }
  }

  /** A stuck key, whose window will admit one call less than its limit. */
  ghost predicate OneShort(s: System, limit: nat) {
    Stuck(s) && Passing(s.callers, |s.lapses|) <= s.value - 1 && Passing(s.callers, |s.lapses|) <= limit - 1
  }

  lemma NextKeepsOneShort(s: System, limit: nat, e: Event)
    requires OneShort(s, limit)
    ensures OneShort(Next(s, limit, e), limit) && Next(s, limit, e).lapses == s.lapses
  {
    hide Passing;
    if e.Incr? || e.IncrFails? {
      PassingAppended(s.callers, Next(s, limit, e).callers[|s.callers|], |s.lapses|);
    }
  }

  lemma {:induction false} RunKeepsOneShort(s: System, limit: nat, events: seq<Event>)
    requires OneShort(s, limit)
    ensures OneShort(Run(s, limit, events), limit) && Run(s, limit, events).lapses == s.lapses
    decreases |events|
  {
    hide OneShort, Next;
    if events != [] {
      NextKeepsOneShort(s, limit, events[0]);
      RunKeepsOneShort(Next(s, limit, events[0]), limit, events[1..]);
    }
  }

  /** A window's first INCR that counts and yet errors sticks too: nobody is left to set the expiry. */
  lemma LostIncrSticks(now: real, burst: real, before: seq<Event>, after: seq<Event>)
    requires Run(Init(now), WindowLimit(burst), before).value == 0
    ensures var limit := WindowLimit(burst);
      var s := Run(Init(now), limit, before);
      var s' := Run(Next(s, limit, IncrFails(true)), limit, after);
      && s'.lapses == s.lapses
      && Allowed(s'.callers, |s.lapses|) as real <= if burst < 1.0 then 0.0 else burst - 1.0
  {
    var limit := WindowLimit(burst);
    var s := Run(Init(now), limit, before);
    RunKeepsInv(Init(now), limit, before);
    var lost := Next(s, limit, IncrFails(true));
    PassingAppended(s.callers, lost.callers[|s.callers|], |s.lapses|);
    RunKeepsOneShort(lost, limit, after);
    AllowedPasses(Run(lost, limit, after).callers, |s.lapses|);
  }

  lemma RunTwo(s: System, limit: nat, e: Event, e': Event)
    ensures Run(s, limit, [e]) == Next(s, limit, e)
    ensures Run(s, limit, [e, e']) == Next(Next(s, limit, e), limit, e')
  {
    assert [e, e'][1..] == [e'] && [e'][1..] == [];
    assert Run(s, limit, [e, e']) == Run(Next(s, limit, e), limit, [e']);
  }

  // ---- the call itself --------------------------------------------------------

  /** One node's view of the shared key; `allow` with nobody in between. */
  class SugarDBStore {
    var state: System

    /** `counted` and `took`: a command that errors took effect all the same. */
    method Allow(burst: real, incrFails: bool, counted: bool, expireFails: bool, took: bool) returns (allowed: bool)
      modifies this
      ensures var limit := WindowLimit(burst);
        var r := |old(state).callers|;
        state == Run(old(state), limit,
                     if incrFails then [IncrFails(counted)]
                     else if expireFails then [Incr, ExpireFails(r, took)] else [Incr, ExpireOk(r)])
      ensures state.callers == old(state).callers + [Returned(|old(state).lapses|, old(state).now, allowed)]
      ensures allowed <==>
        && !incrFails && !(old(state).value == 0 && expireFails)
        && (old(state).value == 0 || (old(state).value + 1) as real <= burst)
      ensures state.value == old(state).value + (if incrFails && !counted then 0 else 1)
      ensures state.deadline ==
        if !incrFails && old(state).value == 0 && (!expireFails || took) then Some(old(state).now + 1.0)
        else old(state).deadline
      ensures state.now == old(state).now && state.lapses == old(state).lapses
    {
      var limit := if burst.Floor < 1 then 1 else burst.Floor;
      var r := |state.callers|;
      RunTwo(state, limit, Incr, ExpireOk(r));
      RunTwo(state, limit, Incr, ExpireFails(r, took));
      RunTwo(state, limit, IncrFails(counted), Incr);
      if incrFails {
        state := Next(state, limit, IncrFails(counted));
        return false;
      }
      state := Next(state, limit, Incr);
      var count := state.value;
      if count == 1 {
        if expireFails {
          state := Next(state, limit, ExpireFails(r, took));
          return false;
        }
        state := Next(state, limit, ExpireOk(r));
      }
      return count <= limit;
    }
  }
}
