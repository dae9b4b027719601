/** What the refill-and-spend bookkeeping amounts to: a definition of the limiter that mentions no
    tokens, and the proof that the bucket decides exactly by it. */
module Conformance {
  import opened TokenBucket

  function Trues(ds: seq<bool>): nat {
    if ds == [] then 0 else Trues(ds[..|ds| - 1]) + (if ds[|ds| - 1] then 1 else 0)
  }

  /** What is left, at time `t` after the decisions `ds`, of the allowance of the window that
      starts with call `i`. */
  function Slack(lim: Limit, times: seq<real>, ds: seq<bool>, i: nat, t: real): real
    requires i <= |ds| <= |times| && i < |times|
  {
    lim.burst + Earned(lim.rps, t - times[i]) - Trues(ds[i..]) as real
  }

  /** Letting call n pass keeps every window that ends with it within burst + rps * its length. */
  ghost predicate Conforms(lim: Limit, times: seq<real>, ds: seq<bool>, n: nat)
    requires n < |times| && n <= |ds|
  {
    forall i | 0 <= i <= n :: Slack(lim, times, ds[..n], i, times[n]) >= 1.0
  }

  /** The bucket holds the smallest slack of all windows so far. */
  ghost predicate HoldsLeast(lim: Limit, times: seq<real>, ds: seq<bool>, b: Bucket) {
    && 0 < |ds| <= |times| && b.lastSeen == times[|ds| - 1]
    && (forall i | 0 <= i < |ds| :: b.tokens <= Slack(lim, times, ds, i, b.lastSeen))
    && (exists i :: 0 <= i < |ds| && b.tokens == Slack(lim, times, ds, i, b.lastSeen))
  }

  lemma SlackGrows(lim: Limit, times: seq<real>, ds: seq<bool>, i: nat, t: real, t': real)
    requires i <= |ds| <= |times| && i < |times|
    ensures Slack(lim, times, ds, i, t') == Slack(lim, times, ds, i, t) + Earned(lim.rps, t' - t)
  {
    EarnedSum(lim.rps, t - times[i], t' - t);
    assert (t - times[i]) + (t' - t) == t' - times[i];
  }

  lemma SlackSpent(lim: Limit, times: seq<real>, ds: seq<bool>, d: bool, i: nat, t: real)
    requires i <= |ds| < |times|
    ensures Slack(lim, times, ds + [d], i, t) == Slack(lim, times, ds, i, t) - (if d then 1.0 else 0.0)
  {
    assert (ds + [d])[i..] == ds[i..] + [d];
    assert (ds[i..] + [d])[..|ds[i..]|] == ds[i..];
  }

  /** The refilled bucket holds the least slack of the windows ending now, this call's own included. */
  lemma RefilledIsLeast(lim: Limit, times: seq<real>, ds: seq<bool>, b: Bucket)
    requires HoldsLeast(lim, times, ds, b) && |ds| < |times|
    ensures var n := |ds|;
      var r := Refilled(b, lim, times[n]);
      && (forall i | 0 <= i <= n :: r <= Slack(lim, times, ds, i, times[n]))
      && (exists i :: 0 <= i <= n && r == Slack(lim, times, ds, i, times[n]))
  {
    var n := |ds|;
    var t := times[n];
    assert ds[n..] == [];
    EarnedSum(lim.rps, 0.0, 0.0);
    hide Earned;
    assert Slack(lim, times, ds, n, t) == lim.burst;
    forall i | 0 <= i < n
      ensures Slack(lim, times, ds, i, t) == Slack(lim, times, ds, i, b.lastSeen) + Earned(lim.rps, t - b.lastSeen)
    {
      SlackGrows(lim, times, ds, i, b.lastSeen, t);
    }
    var least :| 0 <= least < n && b.tokens == Slack(lim, times, ds, least, b.lastSeen);
    assert Refilled(b, lim, t) == lim.burst || Refilled(b, lim, t) == Slack(lim, times, ds, least, t);
  }

  lemma {:induction false} AloneConforms(lim: Limit, times: seq<real>, ds: seq<bool>, b: Bucket, k: nat)
    requires HoldsLeast(lim, times, ds, b) && |ds| <= k < |times|
    ensures var all := ds + Alone(b, lim, times[|ds|..]);
      |all| == |times| && (all[k] <==> Conforms(lim, times, all, k))
    decreases k - |ds|
  {
    var n := |ds|;
    RefilledIsLeast(lim, times, ds, b);
    var (b', ok) := Touched(b, lim, times[n]);
    var rest := Alone(b', lim, times[n + 1..]);
    assert times[n..][1..] == times[n + 1..];
    assert Alone(b, lim, times[n..]) == [ok] + rest;
    var all := ds + Alone(b, lim, times[n..]);
    assert all == (ds + [ok]) + rest;
    AloneLength(b, lim, times[n..]);
    hide Earned, Refilled;
    if k == n {
      assert all[..n] == ds;
    } else {
      forall i | 0 <= i <= n
        ensures Slack(lim, times, ds + [ok], i, times[n]) ==
                Slack(lim, times, ds, i, times[n]) - (if ok then 1.0 else 0.0)
      {
        SlackSpent(lim, times, ds, ok, i, times[n]);
      }
      AloneConforms(lim, times, ds + [ok], b', k);
    }
  }

  lemma {:induction false} AloneLength(b: Bucket, lim: Limit, times: seq<real>)
    ensures |Alone(b, lim, times)| == |times|
    decreases |times|
  {
    if times != [] {
      AloneLength(Touched(b, lim, times[0]).0, lim, times[1..]);
    }
  }

  /** A call is allowed if and only if allowing it keeps every window that starts with a call of
      the same key and ends with this one within burst + rps * its length: the bucket grants as
      much as that bound permits, and no more, in whatever order the timestamps come. Only the very
      first call is let through whatever the bound says, which matters when burst is below 1. */
  lemma AllowedIffConforms(lim: Limit, times: seq<real>, k: nat)
    requires (lim.burst >= 1.0 || k > 0) && k < |times|
    ensures var ds := AloneFromStart(lim, times);
      |ds| == |times| && (ds[k] <==> Conforms(lim, times, ds, k))
  {
    var b := Bucket(lim.burst - 1.0, times[0]);
    EarnedSum(lim.rps, 0.0, 0.0);
    AloneLength(b, lim, times[1..]);
    assert [true][0..] == [true] && [true][..0] == [];
    assert Trues([true]) == 1;
    assert b.tokens == Slack(lim, times, [true], 0, times[0]);
    if k == 0 {
      var ds := AloneFromStart(lim, times);
      assert ds[..0] == [];
    } else {
      AloneConforms(lim, times, [true], b, k);
    }
  }

  /** The same for the store itself: the decisions on one key, among any calls of any keys with a
      clock that never goes back, are the ones the window bound permits. */
  lemma StoreAllowsIffConforms(lim: Limit, calls: seq<Call>, key: string, k: nat)
    requires lim.rps > 0.0 && Forgettable(lim) && Nondecreasing(calls) && k < |OwnTimes(calls, key)|
    ensures |Decisions(EMPTY, lim, calls)| == |calls|
    ensures var times := OwnTimes(calls, key);
      var ds := OwnDecisions(Decisions(EMPTY, lim, calls), calls, key);
      |ds| == |times| && (ds[k] <==> Conforms(lim, times, ds, k))
  {
    KeysAreIsolated(lim, calls, key);
    AllowedIffConforms(lim, OwnTimes(calls, key), k);
  }
}
