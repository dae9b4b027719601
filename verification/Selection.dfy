/** Which origin a round-robin ticket picks: the scan, its order and its fallback. */
module Selection {
  import opened Modular
  import opened Origin
  import opened Wrappers

  /** The origin looked at in round `i` of the scan; the sum wraps as a uint64. */
  function Visited(start: nat, i: nat, n: nat): (o: nat)
    requires n > 0
    ensures o < n
  {
    ((start + i) % TWO_64) % n
  }

  /** Round of the first available origin, counting from round `i`; `n` if there is none. */
  function FirstAvailable(origins: seq<Health>, start: nat, now: int, p: Policy, i: nat): (round: nat)
    requires i <= |origins|
    ensures i <= round <= |origins|
    decreases |origins| - i
  {
    if i == |origins| then i
    else if Available(origins[Visited(start, i, |origins|)], now, p) then i
    else FirstAvailable(origins, start, now, p, i + 1)
  }

  /** The origin a request is sent to, or None for the fast 502. */
  function Pick(origins: seq<Health>, start: nat, now: int, p: Policy): Option<nat>
    requires origins != []
  {
    var n := |origins|;
    var round := FirstAvailable(origins, start, now, p, 0);
    if round < n then Some(Visited(start, round, n))
    else
      var fallback := start % n;
      if BreakerOpen(origins[fallback], now, p) then None else Some(fallback)
  }

  lemma {:induction false} FirstAvailableIsFirst(origins: seq<Health>, start: nat, now: int, p: Policy, i: nat)
    requires i <= |origins|
    ensures var n, round := |origins|, FirstAvailable(origins, start, now, p, i);
      && (round < n ==> Available(origins[Visited(start, round, n)], now, p))
      && (forall j | i <= j < round :: !Available(origins[Visited(start, j, n)], now, p))
    decreases |origins| - i
  {
    if i < |origins| {
      FirstAvailableIsFirst(origins, start, now, p, i + 1);
    }
  }

  // ---- the scan visits every origin exactly once ---------------------------

  ghost predicate VisitsEachOnce(start: nat, n: nat)
    requires n > 0
  {
    forall i, j | 0 <= i < j < n :: Visited(start, i, n) != Visited(start, j, n)
  }

  /** The scan starting at `start` visits every one of the `n` origins exactly once if and only if
      the ticket sum does not wrap, or wrapping does no harm because n divides 2^64. */
  lemma ScanVisitsEachOnceIff(start: nat, n: nat)
    requires 0 < n && start < TWO_64 && n <= TWO_64
    ensures VisitsEachOnce(start, n) <==> start + n - 1 < TWO_64 || TWO_64 % n == 0
  {
    if start + n - 1 < TWO_64 || TWO_64 % n == 0 {
      forall i, j | 0 <= i < j < n ensures Visited(start, i, n) != Visited(start, j, n) {
        VisitedIsCyclic(start, i, n);
        VisitedIsCyclic(start, j, n);
        ModDiffers(start + i, start + j, n);
      }
    } else {
      WrapRevisits(start, n);
    }
  }

  function Cyclic(start: nat, i: nat, n: nat): (o: nat)
    requires n > 0
    ensures o < n
  {
    (start + i) % n
  }

  lemma VisitedIsCyclic(start: nat, i: nat, n: nat)
    requires 0 < n && i < n && start < TWO_64 && n <= TWO_64
    requires start + i < TWO_64 || TWO_64 % n == 0
    ensures Visited(start, i, n) == Cyclic(start, i, n)
  {
    if start + i >= TWO_64 {
      assert TWO_64 == n * (TWO_64 / n);
      ModShift(start + i - TWO_64, n, TWO_64 / n);
    }
  }

  lemma VisitedAfterWrap(start: nat, i: nat, n: nat)
    requires 0 < n && TWO_64 <= start + i < TWO_64 + TWO_64
    ensures Visited(start, i, n) == (start + i - TWO_64) % n
  {}

  lemma VisitedBeforeWrap(start: nat, i: nat, n: nat)
    requires 0 < n && start + i < TWO_64
    ensures Visited(start, i, n) == (start + i) % n
  {}

  /** Past the wrap the scan jumps back by r = 2^64 mod n, onto an origin it has already seen. */
  lemma WrapRevisits(start: nat, n: nat)
    requires 0 < n && start < TWO_64 && n <= TWO_64
    requires start + n - 1 >= TWO_64 && TWO_64 % n != 0
    ensures !VisitsEachOnce(start, n)
  {
    var w, q, r := TWO_64 - start, TWO_64 / n, TWO_64 % n;
    assert TWO_64 == n * q + r;
    var again, first := if r <= w then w else r, if r <= w then w - r else 0;
    VisitedAfterWrap(start, again, n);
    VisitedBeforeWrap(start, first, n);
    ModShift(start + again - TWO_64, n, q);
    assert start + again - TWO_64 + n * q == start + first;
    assert Visited(start, again, n) == Visited(start, first, n);
  }

  // ---- every origin is reached ------------------------------------------------

  function Seen(start: nat, n: nat, k: nat): set<nat>
    requires n > 0
  {
    if k == 0 then {} else Seen(start, n, k - 1) + {Visited(start, k - 1, n)}
  }

  lemma {:induction false} SeenIffVisited(start: nat, n: nat, k: nat, o: nat)
    requires n > 0
    ensures o in Seen(start, n, k) <==> exists i :: 0 <= i < k && Visited(start, i, n) == o
  {
    if k > 0 {
      SeenIffVisited(start, n, k - 1, o);
    }
  }

  lemma {:induction false} SeenCount(start: nat, n: nat, k: nat)
    requires n > 0 && k <= n && VisitsEachOnce(start, n)
    ensures |Seen(start, n, k)| == k && forall o | o in Seen(start, n, k) :: o < n
  {
    if k > 0 {
      SeenCount(start, n, k - 1);
      SeenIffVisited(start, n, k - 1, Visited(start, k - 1, n));
    }
  }

  lemma {:induction false} FullSubset(n: nat, s: set<nat>)
    requires |s| == n && forall o | o in s :: o < n
    ensures forall o: nat | o < n :: o in s
  {
    if n > 0 {
      if n - 1 !in s {
        TooMany(n - 1, s);
      } else {
        FullSubset(n - 1, s - {n - 1});
        forall o: nat | o < n ensures o in s {
          assert o == n - 1 || o in s - {n - 1};
        }
      }
    }
  }

  lemma {:induction false} TooMany(n: nat, s: set<nat>)
    requires forall o | o in s :: o < n
    ensures |s| <= n
  {
    if n == 0 {
      assert s == {};
    } else {
      TooMany(n - 1, s - {n - 1});
    }
  }

  lemma EveryOriginVisited(start: nat, n: nat, o: nat)
    requires 0 < n && o < n && VisitsEachOnce(start, n)
    ensures exists i :: 0 <= i < n && Visited(start, i, n) == o
  {
    SeenCount(start, n, n);
    FullSubset(n, Seen(start, n, n));
    SeenIffVisited(start, n, n, o);
  }

  /** The whole of selection, away from the wrap: the pick is the cyclically first available origin
      from start mod n; without any, it is the origin at start mod n unless its breaker is open;
      and whatever is picked has its breaker closed or half-open. */
  lemma SelectionOrdered(origins: seq<Health>, start: nat, now: int, p: Policy)
    requires origins != [] && start + |origins| - 1 < TWO_64
    requires forall o | o in origins :: Consistent(o)
    ensures var n, pick := |origins|, Pick(origins, start, now, p);
      && (forall o | 0 <= o < n && Available(origins[o], now, p) ::
            exists i :: 0 <= i < n && pick == Some(Cyclic(start, i, n))
              && Available(origins[Cyclic(start, i, n)], now, p)
              && (forall j | 0 <= j < i :: !Available(origins[Cyclic(start, j, n)], now, p)))
      && ((forall o | o in origins :: !Available(o, now, p)) ==>
            pick == if BreakerOpen(origins[start % n], now, p) then None else Some(start % n))
      && (pick.Some? ==> pick.value < n && !BreakerOpen(origins[pick.value], now, p))
  {
    var n := |origins|;
    var round := FirstAvailable(origins, start, now, p, 0);
    FirstAvailableIsFirst(origins, start, now, p, 0);
    ScanVisitsEachOnceIff(start, n);
    forall i | 0 <= i < n ensures Visited(start, i, n) == Cyclic(start, i, n) {
      VisitedIsCyclic(start, i, n);
    }
    if round < n {
      AvailableIsNotOpen(origins[Visited(start, round, n)], now, p);
    }
    forall o | 0 <= o < n && Available(origins[o], now, p) ensures round < n {
      EveryOriginVisited(start, n, o);
    }
  }
}
