/** Generations of background work. Each reload starts a generation's goroutines under a new
    context, swaps the context into an atomic pointer and cancels the one it took out; Close loads
    the pointer and cancels what it finds. The prober and log-flusher pointers are two such slots. */
module Generations {
  import opened Wrappers

  datatype Swap = Still | Started(id: nat) | Swapped(prior: Option<nat>)

  datatype Closing = Open | Loaded(target: Option<nat>) | Closed(target: Option<nat>)

  /** `live` are the contexts not yet cancelled; `nextId` is the next context's identity. */
  datatype Slot = Slot(live: set<nat>, current: Option<nat>, nextId: nat, swap: Swap, closing: Closing)

  datatype Event = Start | Exchange | CancelOld | CloseLoad | CloseCancel

  const EMPTY := Slot({}, None, 0, Still, Open)

  function AsSet(o: Option<nat>): set<nat> {
    if o.Some? then {o.value} else {}
  }

  /** Steps that cannot happen in `s` change nothing. */
  function Next(s: Slot, e: Event): Slot {
    match e
    case Start =>
      if s.swap.Still? then s.(live := s.live + {s.nextId}, nextId := s.nextId + 1, swap := Started(s.nextId)) else s
    case Exchange =>
      if s.swap.Started? then s.(current := Some(s.swap.id), swap := Swapped(s.current)) else s
    case CancelOld =>
      if s.swap.Swapped? then s.(live := s.live - AsSet(s.swap.prior), swap := Still) else s
    case CloseLoad =>
      if s.closing.Open? then s.(closing := Loaded(s.current)) else s
    case CloseCancel =>
      if s.closing.Loaded? then s.(live := s.live - AsSet(s.closing.target), closing := Closed(s.closing.target)) else s
  }

  function Run(s: Slot, events: seq<Event>): Slot
    decreases |events|
  {
    if events == [] then s else Run(Next(s, events[0]), events[1..])
  }

  // ---- the invariant --------------------------------------------------------

  /** The contexts of the pointer, of the swap under way, and not of a finished Close. */
  function Accounted(s: Slot): set<nat> {
    AsSet(s.current)
    + (match s.swap case Still => {} case Started(id) => {id} case Swapped(prior) => AsSet(prior))
    - (if s.closing.Closed? then AsSet(s.closing.target) else {})
  }

  ghost predicate Inv(s: Slot) {
    && s.live == Accounted(s)
    && (s.nextId > 0 ==> s.current.Some? || s.swap.Started?)
    && (s.current.Some? ==> s.current.value < s.nextId)
    && (s.swap.Started? ==> s.swap.id < s.nextId && s.current != Some(s.swap.id))
    && (s.swap.Swapped? ==> s.current.Some? && s.swap.prior != s.current)
    && (s.swap.Swapped? && s.swap.prior.Some? ==> s.swap.prior.value < s.nextId)
    && (!s.closing.Open? ==> s.closing.target.Some? ==> s.closing.target.value < s.nextId)
    && (!s.closing.Open? && s.swap.Started? ==> s.closing.target != Some(s.swap.id))
  }

  lemma NextKeepsInv(s: Slot, e: Event)
    requires Inv(s)
    ensures Inv(Next(s, e))
  {
    assert Next(s, e).live == Accounted(Next(s, e));
  }

  lemma {:induction false} RunKeepsInv(s: Slot, events: seq<Event>)
    requires Inv(s)
    ensures Inv(Run(s, events))
    decreases |events|
  {
    if events != [] {
      NextKeepsInv(s, events[0]);
      RunKeepsInv(Next(s, events[0]), events[1..]);
    }
  }

  lemma AtMost(s: set<nat>, a: Option<nat>, b: Option<nat>)
    requires s <= AsSet(a) + AsSet(b)
    ensures |s| <= 2
  {
    var x, y := if a.Some? then a.value else 0, if b.Some? then b.value else 0;
    assert s <= {x, y};
    assert s == {} || s == {x} || s == {y} || s == {x, y};
  }

  /** Over any run of reloads and a Close, never more than two generations are alive; and until a
      Close begins, between reloads exactly one is, the pointer's own. */
  lemma GenerationsBounded(events: seq<Event>)
    ensures var s := Run(EMPTY, events);
      && |s.live| <= 2
      && (s.swap.Still? && s.closing.Open? ==> s.live == AsSet(s.current))
      && (s.swap.Still? && s.nextId > 0 ==> s.current.Some?)
  {
    RunKeepsInv(EMPTY, events);
    var s := Run(EMPTY, events);
    var other := match s.swap case Still => None case Started(id) => Some(id) case Swapped(prior) => prior;
    AtMost(s.live, s.current, other);
  }

  // ---- closing -----------------------------------------------------------------

  /** Swaps of the pointer in a run. */
  function Exchanges(s: Slot, events: seq<Event>): nat
    decreases |events|
  {
    if events == [] then 0
    else (if events[0] == Exchange && s.swap.Started? then 1 else 0) + Exchanges(Next(s, events[0]), events[1..])
  }

  lemma {:induction false} PointerMoves(s: Slot, events: seq<Event>)
    requires Inv(s) && !s.closing.Open?
    ensures var s' := Run(s, events);
      && !s'.closing.Open? && s'.closing.target == s.closing.target
      && (Exchanges(s, events) == 0 ==> s'.current == s.current)
      && (Exchanges(s, events) > 0 ==> s'.current.Some? && s'.current != s.closing.target)
    decreases |events|
  {
    if events != [] {
      NextKeepsInv(s, events[0]);
      PointerMoves(Next(s, events[0]), events[1..]);
      if events[0] == Exchange && s.swap.Started? && Exchanges(Next(s, events[0]), events[1..]) == 0 {
        assert Run(s, events).current == Some(s.swap.id);
      }
    }
  }

  lemma LiveOnceClosed(s: Slot, moved: bool)
    requires Inv(s) && s.closing.Closed? && s.swap.Still?
    requires if moved then s.current.Some? && s.current != s.closing.target else s.current == s.closing.target
    ensures s.live == {} <==> !moved
    ensures moved ==> s.live == AsSet(s.current) && |s.live| == 1
  {
    assert s.live == AsSet(s.current) - AsSet(s.closing.target);
    if moved {
      assert s.current.value in s.live;
    }
  }

  /** When Close is done and no reload is halfway, nothing is left running if and only if the
      pointer was not swapped after Close loaded it; if it was, the last generation runs on. */
  lemma NothingRunsAfterCloseIff(before: seq<Event>, after: seq<Event>)
    requires Run(EMPTY, before).closing.Open?
    requires var s := Run(Next(Run(EMPTY, before), CloseLoad), after); s.closing.Closed? && s.swap.Still?
    ensures var loaded := Next(Run(EMPTY, before), CloseLoad);
      var s := Run(loaded, after);
      && (s.live == {} <==> Exchanges(loaded, after) == 0)
      && (Exchanges(loaded, after) > 0 ==> s.live == AsSet(s.current) && |s.live| == 1)
  {
    RunKeepsInv(EMPTY, before);
    var loaded := Next(Run(EMPTY, before), CloseLoad);
    NextKeepsInv(Run(EMPTY, before), CloseLoad);
    RunKeepsInv(loaded, after);
    PointerMoves(loaded, after);
    LiveOnceClosed(Run(loaded, after), Exchanges(loaded, after) > 0);
  }

  /** A Close that falls between a reload's start of its goroutines and its swap leaves that
      generation running for good. */
  lemma CloseDuringReloadLeaks()
    ensures var s := Run(EMPTY, [Start, Exchange, CancelOld, Start, CloseLoad, CloseCancel, Exchange, CancelOld]);
      s.closing.Closed? && s.swap.Still? && s.live == {1}
  {
    var booted := Run(EMPTY, [Start, Exchange, CancelOld]);
    Boots(EMPTY, [Start, CloseLoad, CloseCancel, Exchange, CancelOld]);
    var s1 := Next(booted, Start);
    assert s1 == Slot({0, 1}, Some(0), 2, Started(1), Open);
    var s2 := Next(Next(s1, CloseLoad), CloseCancel);
    assert s2.live == {1};
    var events: seq<Event> := [Start, CloseLoad, CloseCancel, Exchange, CancelOld];
    assert Run(booted, events) == Run(s1, events[1..]);
    assert Run(s1, events[1..]) == Run(Next(s1, CloseLoad), events[2..]);
    assert Run(Next(s1, CloseLoad), events[2..]) == Run(s2, events[3..]);
    assert Run(s2, events[3..]) == Run(Next(s2, Exchange), events[4..]);
  }

  /** One whole reload of a slot: start, swap, cancel. */
  lemma Boots(s: Slot, rest: seq<Event>)
    ensures Run(s, [Start, Exchange, CancelOld] + rest) == Run(Next(Next(Next(s, Start), Exchange), CancelOld), rest)
    ensures Run(s, [Start, Exchange, CancelOld]) == Next(Next(Next(s, Start), Exchange), CancelOld)
  {
    var events := [Start, Exchange, CancelOld] + rest;
    assert events[1..] == [Exchange, CancelOld] + rest && events[1..][1..] == [CancelOld] + rest;
    assert events[1..][1..][1..] == rest;
    assert Run(s, events) == Run(Next(s, Start), events[1..]);
    assert Run(Next(s, Start), events[1..]) == Run(Next(Next(s, Start), Exchange), events[1..][1..]);
    var plain: seq<Event> := [Start, Exchange, CancelOld];
    assert plain[1..] == [Exchange, CancelOld] && plain[1..][1..] == [CancelOld];
  }

  // ---- the gateway ---------------------------------------------------------------

  /** A parsed config: the routing table it compiles to and the hosts it names. */
  datatype Built = Built(mux: nat, hosts: set<string>)

  class Gateway {
    var mux: nat
    var hosts: set<string>
    var probers: Slot
    var flushers: Slot

    /** No reload or Close is under way, and each slot runs exactly one generation. */
    ghost predicate Serving()
      reads this
    {
      && Inv(probers) && probers.swap.Still? && probers.closing.Open? && probers.current.Some?
      && Inv(flushers) && flushers.swap.Still? && flushers.closing.Open? && flushers.current.Some?
    }

    constructor (first: Built)
      ensures Serving() && mux == first.mux && hosts == first.hosts
    {
      mux, hosts, probers, flushers := first.mux, first.hosts, EMPTY, EMPTY;
      new;
      StartProbers();
      StartLogFlusher();
    }

    method StartProbers()
      requires Inv(probers)
      modifies this`probers
      ensures Inv(probers) && probers == Run(old(probers), [Start, Exchange, CancelOld])
    {
      Boots(probers, []);
      RunKeepsInv(probers, [Start, Exchange, CancelOld]);
      probers := Next(probers, Start);
      probers := Next(probers, Exchange);
      probers := Next(probers, CancelOld);
    }

    method StartLogFlusher()
      requires Inv(flushers)
      modifies this`flushers
      ensures Inv(flushers) && flushers == Run(old(flushers), [Start, Exchange, CancelOld])
    {
      Boots(flushers, []);
      RunKeepsInv(flushers, [Start, Exchange, CancelOld]);
      flushers := Next(flushers, Start);
      flushers := Next(flushers, Exchange);
      flushers := Next(flushers, CancelOld);
    }

    /** The watcher's callback: a config that does not build changes nothing. */
    method Reload(built: Option<Built>) returns (ok: bool)
      requires Serving()
      modifies this
      ensures Serving() && ok == built.Some?
      ensures ok ==> mux == built.value.mux && hosts == built.value.hosts
      ensures ok ==> probers.live !! old(probers.live) && flushers.live !! old(flushers.live)
      ensures |probers.live| == 1 && |flushers.live| == 1
      ensures !ok ==> unchanged(this)
    {
      assert probers.live == AsSet(probers.current) && flushers.live == AsSet(flushers.current);
      if built.None? {
        return false;
      }
      mux := built.value.mux;
      hosts := built.value.hosts;
      Boots(probers, []);
      StartProbers();
      Boots(flushers, []);
      StartLogFlusher();
      return true;
    }

    method Close()
      requires Serving()
      modifies this
      ensures probers.live == {} && flushers.live == {}
      ensures mux == old(mux) && hosts == old(hosts)
    {
      probers := Next(Next(probers, CloseLoad), CloseCancel);
      flushers := Next(Next(flushers, CloseLoad), CloseCancel);
    }
  }
}
