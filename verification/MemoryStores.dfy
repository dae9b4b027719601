/** The memory store as the source writes it: one heap object per visitor, updated in place.
    Each method is tied to the functions of TokenBucket by `Contents`. */
module MemoryStores {
  import opened TokenBucket

  lemma KeptIff(s: Store, lim: Limit, c: Call)
    requires s.calls < UINT64
    ensures var s' := Step(s, lim, c).0;
      c.key in s'.visitors && forall k | k != c.key ::
        k in s'.visitors <==>
        && k in s.visitors
        && !((s.calls % 1000 == 999 || s.calls == UINT64 - 1) && c.now - s.visitors[k].lastSeen > 600.0)
  {
    if s.calls % 1000 == 999 {
      assert Ticked(s.calls) % 1000 == 0;
    }
  }

  class Visitor {
    var tokens: real
    var lastSeen: real

    constructor (tokens: real, lastSeen: real)
      ensures this.tokens == tokens && this.lastSeen == lastSeen
    {
      this.tokens, this.lastSeen := tokens, lastSeen;
    }

    ghost function Contents(): Bucket
      reads this
    {
      Bucket(tokens, lastSeen)
    }

    /** Refills for the time elapsed, then spends a token if there is a whole one. */
    method Spend(requestsPerSecond: real, burst: real, now: real) returns (allowed: bool)
      modifies this
      ensures (Contents(), allowed) == Touched(old(Contents()), Limit(requestsPerSecond, burst), now)
    {
      var earned := Earned(requestsPerSecond, now - lastSeen);
      hide Earned;
      lastSeen := now;
      tokens := tokens + earned;
      if tokens > burst {
        tokens := burst;
      }
      if tokens < 1.0 {
        return false;
      }
      tokens := tokens - 1.0;
      return true;
    }
  }

  class MemoryStore {
    var visitors: map<string, Visitor>
    var calls: nat

    /** No two keys share a visitor, and the call counter is a uint64. */
    ghost predicate Valid()
      reads this
    {
      && calls < UINT64
      && forall k, k' | k in visitors && k' in visitors && k != k' :: visitors[k] != visitors[k']
    }

    ghost function Contents(): Store
      reads this, visitors.Values
    {
      Store(map k | k in visitors :: visitors[k].Contents(), calls)
    }

    constructor ()
      ensures Valid() && Contents() == EMPTY
    {
      visitors, calls := map[], 0;
    }

    /** Deletes every visitor idle for more than ten minutes, in any order of the keys. */
    method SweepLocked(now: real)
      requires Valid()
      modifies this`visitors
      ensures Valid() && forall v | v in visitors.Values :: v in old(visitors.Values)
      ensures Contents() == old(Contents()).(visitors := Sweep(old(Contents()).visitors, now))
    {
      ghost var all := visitors;
      var pending := visitors.Keys;
      while pending != {}
        invariant pending <= all.Keys
        invariant forall k :: k in visitors <==> k in all && (k in pending || now - all[k].lastSeen <= STALE_AFTER)
        invariant forall k | k in visitors :: visitors[k] == all[k]
        decreases |pending|
      {
        var key :| key in pending;
        pending := pending - {key};
        if now - visitors[key].lastSeen > STALE_AFTER {
          visitors := visitors - {key};
        }
      }
      assert Contents().visitors == Sweep(old(Contents()).visitors, now);
    }

    /** Counts a call and, on every thousandth, sweeps first. */
    method CountCall(now: real)
      requires Valid()
      modifies this
      ensures Valid() && forall v | v in visitors.Values :: v in old(visitors.Values)
      ensures Contents() == Store(Seen(old(Contents()), now), Ticked(old(Contents()).calls))
    {
      calls := if calls + 1 == UINT64 then 0 else calls + 1;
      if calls % SWEEP_EVERY == 0 {
        SweepLocked(now);
      }
    }

    method Admit(key: string, lim: Limit, now: real) returns (allowed: bool)
      requires Valid()
      modifies this`visitors, visitors.Values
      ensures Valid() && forall v | v in visitors.Values :: v in old(visitors.Values) || fresh(v)
      ensures Contents().calls == old(Contents()).calls
      ensures (Contents().visitors, allowed) == Touch(old(Contents()).visitors, lim, Call(key, now))
    {
      ghost var seen := Contents().visitors;
      if key !in visitors {
        var v := new Visitor(lim.burst - 1.0, now);
        visitors := visitors[key := v];
        allowed := true;
        assert Contents().visitors == seen[key := Bucket(lim.burst - 1.0, now)];
      } else {
        allowed := visitors[key].Spend(lim.rps, lim.burst, now);
        assert Contents().visitors == seen[key := visitors[key].Contents()];
      }
    }

    method Allow(key: string, requestsPerSecond: real, burst: real, now: real) returns (allowed: bool)
      requires Valid()
      modifies this, visitors.Values
      ensures Valid() && forall v | v in visitors.Values :: v in old(visitors.Values) || fresh(v)
      ensures (Contents(), allowed) == Step(old(Contents()), Limit(requestsPerSecond, burst), Call(key, now))
      ensures key in visitors && forall k | k != key ::
        k in visitors <==>
        && k in old(visitors)
        && !((old(calls) % 1000 == 999 || old(calls) == UINT64 - 1) && now - old(visitors[k].lastSeen) > 600.0)
    {
      ghost var before := Contents();
      CountCall(now);
      allowed := Admit(key, Limit(requestsPerSecond, burst), now);
      KeptIff(before, Limit(requestsPerSecond, burst), Call(key, now));
      assert forall k :: k in visitors <==> k in Contents().visitors;
      assert forall k :: k in old(visitors) <==> k in before.visitors;
      hide Step;
    }
  }
}
