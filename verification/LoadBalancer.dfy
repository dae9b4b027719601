/** The round-robin proxy: the object that serves one request, and the pool it works on as a value. */
module LoadBalancer {
  import opened Origin
  import opened Selection
  import opened Wrappers

  /** What a round trip to an origin comes to, and when: a response of any status, or no response. */
  datatype Outcome = Responds(at: int) | Errors(at: int)

  datatype Pool = Pool(origins: seq<Health>, next: nat)

  function Completed(h: Health, outcome: Outcome): Health {
    if outcome.Responds? then Succeeded(h) else Failed(h, outcome.at)
  }

  function Ticket(next: nat): nat {
    (next + 1) % TWO_64
  }

  /** One request that nothing overlaps: the pool after it, and the origin it was sent to. */
  function Served(pool: Pool, p: Policy, now: int, outcomes: seq<Outcome>): (Pool, Option<nat>)
    requires pool.origins != [] && |outcomes| == |pool.origins|
  {
    var ticket := Ticket(pool.next);
    var sent := Pick(pool.origins, ticket, now, p);
    var origins := match sent
      case None => pool.origins
      case Some(o) => pool.origins[o := Completed(pool.origins[o], outcomes[o])];
    (Pool(origins, ticket), sent)
  }

  class RoundRobinProxy {
    const origins: seq<OriginState>
    const policy: Policy
    var next: nat

    ghost predicate Valid()
      reads this
    {
      && origins != [] && next < TWO_64
      && forall i, j | 0 <= i < j < |origins| :: origins[i] != origins[j]
    }

    ghost function Healths(): (hs: seq<Health>)
      reads origins
      ensures |hs| == |origins|
    {
      seq(|origins|, i requires 0 <= i < |origins| reads origins => origins[i].Snapshot())
    }

    ghost function Contents(): Pool
      reads this, origins
    {
      Pool(Healths(), next)
    }

    /** Origins are built by the caller, one state each; a service without origins is refused there. */
    constructor (origins: seq<OriginState>, policy: Policy)
      requires origins != [] && forall i, j | 0 <= i < j < |origins| :: origins[i] != origins[j]
      ensures Valid() && this.origins == origins && this.policy == policy && next == 0
    {
      this.origins, this.policy, this.next := origins, policy, 0;
    }

    /** Records how the round trip to origin `o` ended. */
    method Dispatch(o: nat, outcome: Outcome)
      requires Valid() && o < |origins|
      modifies origins[o]
      ensures Healths() == old(Healths())[o := Completed(old(Healths()[o]), outcome)]
    {
      match outcome {
        case Responds(_) => origins[o].RecordSuccess();
        case Errors(at) => origins[o].RecordFailure(at);
      }
    }

    /** The scan from the ticket's origin, then the last resort. */
    method Choose(start: nat, now: int) returns (sent: Option<nat>)
      requires Valid()
      ensures sent == Pick(Healths(), start, now, policy)
      ensures sent.Some? ==> sent.value < |origins|
    {
      var n := |origins|;
      var i := 0;
      while i < n
        invariant i <= n
        invariant FirstAvailable(Healths(), start, now, policy, 0)
               == FirstAvailable(Healths(), start, now, policy, i)
      {
        var o := Visited(start, i, n);
        var up := origins[o].IsAvailable(now, policy);
        if up {
          return Some(o);
        }
        i := i + 1;
      }
      var open := origins[start % n].IsBreakerOpen(now, policy);
      return if open then None else Some(start % n);
    }

    method ServeHTTP(now: int, outcomes: seq<Outcome>) returns (sent: Option<nat>)
      requires Valid() && |outcomes| == |origins|
      modifies this, origins
      ensures Valid()
      ensures (Contents(), sent) == Served(old(Contents()), policy, now, outcomes)
      ensures forall o | 0 <= o < |origins| && sent != Some(o) :: Healths()[o] == old(Healths())[o]
      ensures sent.Some? ==>
        && sent.value < |origins|
        && var h, h' := old(Healths())[sent.value], Healths()[sent.value];
        && h'.forcedDown == h.forcedDown
        && match outcomes[sent.value]
           case Responds(_) => h'.consecutiveFailures == 0 && h'.lastFailureAt == ZERO_TIME
           case Errors(at) => h'.consecutiveFailures == h.consecutiveFailures + 1 && h'.lastFailureAt == at
    {
      ghost var before := Contents();
      next := if next + 1 == TWO_64 then 0 else next + 1;
      assert next == Ticket(before.next) && Healths() == before.origins;
      hide Ticket, Pick;
      sent := Choose(next, now);
      if sent.Some? {
        Dispatch(sent.value, outcomes[sent.value]);
      }
    }
  }
}
