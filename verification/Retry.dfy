/** The retrying transport: how often it calls, what it sends, what it returns, how long it sleeps. */
module Retry {
  import opened Origin
  import opened Modular
  import opened Wrappers

  type Body = seq<bv8>

  /** How one round trip ends; `ReadError` is the retrier's own failure to buffer the body. */
  datatype Result = Response(id: nat) | NetworkError(id: nat) | OtherError(id: nat) | ReadError

  // ---- which attempt is the last --------------------------------------------

  predicate Stops(answers: nat -> Result, max: int, attempt: nat) {
    !answers(attempt).NetworkError? || attempt == max
  }

  function LastAttempt(answers: nat -> Result, max: nat, attempt: nat): (last: nat)
    requires attempt <= max
    ensures attempt <= last <= max && Stops(answers, max, last)
    ensures forall i: nat | attempt <= i < last :: !Stops(answers, max, i)
    decreases max - attempt
  {
    if Stops(answers, max, attempt) then attempt else LastAttempt(answers, max, attempt + 1)
  }

  /** The contract of LastAttempt leaves no choice. */
  lemma LastAttemptUnique(answers: nat -> Result, max: nat, k: nat)
    requires 1 <= k <= max && Stops(answers, max, k) && forall i: nat | 1 <= i < k :: !Stops(answers, max, i)
    ensures k == LastAttempt(answers, max, 1)
  {
    var last := LastAttempt(answers, max, 1);
    assert !(k < last);
    assert !(last < k);
  }

  predicate MethodIsRetryable(verb: string, retryUnsafe: bool) {
    verb == "GET" || verb == "HEAD" || verb == "OPTIONS" || retryUnsafe
  }

  predicate Retries(verb: string, maxAttempts: int, retryUnsafe: bool) {
    maxAttempts > 1 && MethodIsRetryable(verb, retryUnsafe)
  }

  /** A request as the transport meets it: what reading its body and each round trip come to. */
  datatype Call = Call(verb: string, hasBody: bool, readFails: bool, answers: nat -> Result)

  /** Round trips made for a request. */
  function Attempts(c: Call, maxAttempts: int, retryUnsafe: bool): nat {
    if !Retries(c.verb, maxAttempts, retryUnsafe) then 1
    else if c.hasBody && c.readFails then 0
    else LastAttempt(c.answers, maxAttempts, 1)
  }

  /** Tries go on through network errors to the k-th, which is another result or the last allowed. */
  ghost predicate TriesUntil(answers: nat -> Result, max: int, k: nat) {
    && (k == max || !answers(k).NetworkError?)
    && (forall i: nat | 1 <= i < k :: answers(i).NetworkError?)
  }

  lemma AttemptsAre(c: Call, maxAttempts: int, retryUnsafe: bool)
    ensures !Retries(c.verb, maxAttempts, retryUnsafe) ==> Attempts(c, maxAttempts, retryUnsafe) == 1
    ensures Retries(c.verb, maxAttempts, retryUnsafe) && c.hasBody && c.readFails ==>
            Attempts(c, maxAttempts, retryUnsafe) == 0
    ensures Retries(c.verb, maxAttempts, retryUnsafe) && !(c.hasBody && c.readFails) ==>
            forall k: nat | 1 <= k <= maxAttempts && TriesUntil(c.answers, maxAttempts, k) ::
              Attempts(c, maxAttempts, retryUnsafe) == k
  {
    forall k: nat | 1 <= k <= maxAttempts && TriesUntil(c.answers, maxAttempts, k)
      ensures k == LastAttempt(c.answers, maxAttempts, 1)
    {
      LastAttemptUnique(c.answers, maxAttempts, k);
    }
  }

  // ---- backoff --------------------------------------------------------------

  /** base << (attempt - 1) plus a random jitter in [0, base], all in int64. */
  function Backoff(base: int, attempt: nat, jitter: int): int
    requires attempt >= 1
  {
    Wrapped(ShiftLeft(base, attempt - 1) + jitter)
  }

  ghost predicate Jitters(base: int, jitter: nat -> int) {
    forall attempt: nat :: 0 <= jitter(attempt) <= base
  }

  lemma WrappedAgain(x: nat, j: int)
    requires x + j >= 0
    ensures Wrapped(Wrapped(x) + j) == Wrapped(x + j)
  {
    var y := x + MAX_INT64 + 1;
    var k := y / TWO_64;
    assert Wrapped(x) == x - TWO_64 * k;
    var z := x + j + MAX_INT64 + 1;
    assert (z - TWO_64 * k) % TWO_64 == z % TWO_64;
  }

  /** The delay is what the formula says if and only if it fits in an int64. */
  lemma BackoffExactIff(base: int, attempt: nat, jitter: int)
    requires base > 0 && attempt >= 1 && 0 <= jitter <= base
    ensures Backoff(base, attempt, jitter) == Doubled(base, attempt - 1) + jitter <==>
            Doubled(base, attempt - 1) + jitter <= MAX_INT64
  {
    DoubledMono(base, 0, attempt - 1);
    WrappedAgain(Doubled(base, attempt - 1), jitter);
    WrappedExactIff(Doubled(base, attempt - 1) + jitter);
  }

  /** Whatever the jitter, the next delay is never the shorter one. */
  lemma BackoffNeverShrinks(base: int, attempt: nat, j: int, j': int)
    requires base > 0 && attempt >= 1 && 0 <= j <= base && 0 <= j' <= base
    requires Doubled(base, attempt) + base <= MAX_INT64
    ensures Backoff(base, attempt, j) <= Backoff(base, attempt + 1, j')
  {
    hide Backoff;
    DoubledMono(base, attempt - 1, attempt);
    BackoffExactIff(base, attempt, j);
    BackoffExactIff(base, attempt + 1, j');
  }

  /** The delays after each of the first `n` attempts. */
  function Sleeps(base: int, jitter: nat -> int, n: nat): seq<int> {
    if n == 0 then [] else Sleeps(base, jitter, n - 1) + [Backoff(base, n, jitter(n))]
  }

  function Sum(xs: seq<int>): int {
    if xs == [] then 0 else Sum(xs[..|xs| - 1]) + xs[|xs| - 1]
  }

  /** Between n attempts' first and last, the sleeps add up to base * (2^n - 1), give or take the
      jitter, if the longest of them fits in an int64. */
  lemma {:induction false} TotalBackoff(base: int, jitter: nat -> int, n: nat)
    requires base > 0 && Jitters(base, jitter) && (n > 0 ==> Doubled(base, n - 1) + base <= MAX_INT64)
    ensures Doubled(base, n) - base <= Sum(Sleeps(base, jitter, n)) <= Doubled(base, n) - base + n * base
  {
    if n > 0 {
      if n > 1 {
        DoubledMono(base, n - 2, n - 1);
      }
      TotalBackoff(base, jitter, n - 1);
      assert 0 <= jitter(n) <= base;
      BackoffExactIff(base, n, jitter(n));
      var sleeps := Sleeps(base, jitter, n);
      assert sleeps[..n - 1] == Sleeps(base, jitter, n - 1) by { SleepsLength(base, jitter, n - 1); }
      assert n * base == (n - 1) * base + base;
    }
  }

  lemma {:induction false} SleepsLength(base: int, jitter: nat -> int, n: nat)
    ensures |Sleeps(base, jitter, n)| == n
  {
    if n > 0 {
      SleepsLength(base, jitter, n - 1);
    }
  }

  lemma {:induction false} SleepsAt(base: int, jitter: nat -> int, n: nat)
    ensures |Sleeps(base, jitter, n)| == n
    ensures forall i: nat | 1 <= i <= n :: Sleeps(base, jitter, n)[i - 1] == Backoff(base, i, jitter(i))
  {
    hide Backoff;
    if n > 0 {
      SleepsAt(base, jitter, n - 1);
    }
  }

  /** `n` delays were added to `before`, the i-th being the backoff of the i-th attempt. */
  ghost predicate Slept(before: seq<int>, after: seq<int>, base: int, jitter: nat -> int, n: nat) {
    && |after| == |before| + n && after[..|before|] == before
    && (forall i: nat | 1 <= i <= n :: after[|before| + i - 1] == Backoff(base, i, jitter(i)))
  }

  lemma SleptMore(before: seq<int>, after: seq<int>, base: int, jitter: nat -> int, n: nat)
    requires n >= 1 && Slept(before, after, base, jitter, n - 1)
    ensures Slept(before, after + [Backoff(base, n, jitter(n))], base, jitter, n)
  {
    hide Backoff;
    assert (after + [Backoff(base, n, jitter(n))])[..|before|] == after[..|before|];
  }

  /** Such delays are those whose sum TotalBackoff bounds. */
  lemma SleptIsSleeps(before: seq<int>, after: seq<int>, base: int, jitter: nat -> int, n: nat)
    ensures Slept(before, after, base, jitter, n) <==> after == before + Sleeps(base, jitter, n)
  {
    SleepsAt(base, jitter, n);
    hide Backoff, Sleeps;
    if Slept(before, after, base, jitter, n) {
      assert forall i | 0 <= i < n :: after[|before| + i] == Sleeps(base, jitter, n)[i] by {
        forall i | 0 <= i < n ensures after[|before| + i] == Sleeps(base, jitter, n)[i] {
          assert after[|before| + (i + 1) - 1] == Backoff(base, i + 1, jitter(i + 1));
          assert Sleeps(base, jitter, n)[(i + 1) - 1] == Backoff(base, i + 1, jitter(i + 1));
        }
      }
      assert after[|before|..] == Sleeps(base, jitter, n);
      assert after == after[..|before|] + after[|before|..];
    }
  }

  // ---- the transport -----------------------------------------------------------

  /** Everything sent since `before` carried the same body. */
  ghost predicate SameBodies(before: seq<Option<Body>>, after: seq<Option<Body>>, body: Option<Body>) {
    before <= after && forall i | |before| <= i < |after| :: after[i] == body
  }

  lemma SameBodiesMore(before: seq<Option<Body>>, after: seq<Option<Body>>, body: Option<Body>)
    requires SameBodies(before, after, body)
    ensures SameBodies(before, after + [body], body)
  {}

  lemma NothingYet(sent: seq<Option<Body>>, body: Option<Body>, slept: seq<int>, base: int, jitter: nat -> int)
    ensures SameBodies(sent, sent, body) && Slept(slept, slept, base, jitter, 0)
  {}

  class Request {
    var body: Option<Body>

    constructor (body: Option<Body>)
      ensures this.body == body
    {
      this.body := body;
    }
  }

  /** The wrapped transport. It reads the request's body, leaving it drained. */
  class Transport {
    var sent: seq<Option<Body>>

    constructor ()
      ensures sent == []
    {
      this.sent := [];
    }

    method RoundTrip(req: Request, answer: Result) returns (res: Result)
      modifies this, req
      ensures sent == old(sent) + [old(req.body)] && res == answer
      ensures req.body == if old(req.body).None? then None else Some([])
    {
      sent := sent + [req.body];
      req.body := if req.body.None? then None else Some([]);
      return answer;
    }
  }

  class RetryTransport {
    const next: Transport
    const maxAttempts: int
    const retryUnsafe: bool
    const backoffBase: int
    var slept: seq<int>

    constructor (next: Transport, maxAttempts: int, backoffBase: int, retryUnsafe: bool)
      ensures this.next == next && this.maxAttempts == maxAttempts
      ensures this.backoffBase == backoffBase && this.retryUnsafe == retryUnsafe && slept == []
    {
      this.next, this.maxAttempts, this.backoffBase, this.retryUnsafe := next, maxAttempts, backoffBase, retryUnsafe;
      slept := [];
    }

    /** `answers(k)` is what the wrapped transport's k-th round trip comes to, `readFails` whether
        buffering a body fails, `jitter` the random part of each delay. */
    method RoundTrip(req: Request, verb: string, readFails: bool, answers: nat -> Result, jitter: nat -> int)
      returns (res: Result)
      modifies this, next, req
      ensures maxAttempts <= 1 || (verb != "GET" && verb != "HEAD" && verb != "OPTIONS" && !retryUnsafe) ==>
        res == answers(1) && next.sent == old(next.sent) + [old(req.body)] && slept == old(slept)
      ensures maxAttempts > 1 && (verb == "GET" || verb == "HEAD" || verb == "OPTIONS" || retryUnsafe) ==>
        if old(req.body).Some? && readFails
        then res == ReadError && next.sent == old(next.sent) && slept == old(slept)
        else
          var k := |next.sent| - |old(next.sent)|;
          && 1 <= k <= maxAttempts && res == answers(k) && TriesUntil(answers, maxAttempts, k)
          && SameBodies(old(next.sent), next.sent, old(req.body))
          && Slept(old(slept), slept, backoffBase, jitter, k - 1)
      ensures |next.sent| == |old(next.sent)| +
              Attempts(Call(verb, old(req.body).Some?, readFails, answers), maxAttempts, retryUnsafe)
    {
      hide Backoff, LastAttempt, SameBodies, Slept, Attempts;
      AttemptsAre(Call(verb, req.body.Some?, readFails, answers), maxAttempts, retryUnsafe);
      if maxAttempts <= 1 || !MethodIsRetryable(verb, retryUnsafe) {
        res := next.RoundTrip(req, answers(1));
        return;
      }

      var bodyBytes := None;
      if req.body.Some? {
        if readFails {
          return ReadError;
        }
        bodyBytes := req.body;
      }

      NothingYet(next.sent, bodyBytes, slept, backoffBase, jitter);
      var attempt := 1;
      while true
        invariant 1 <= attempt <= maxAttempts
        invariant forall i: nat | 1 <= i < attempt :: answers(i).NetworkError?
        invariant bodyBytes == old(req.body) && req.body.None? == bodyBytes.None?
        invariant |next.sent| == |old(next.sent)| + attempt - 1
        invariant SameBodies(old(next.sent), next.sent, bodyBytes)
        invariant Slept(old(slept), slept, backoffBase, jitter, attempt - 1)
        decreases maxAttempts - attempt
      {
        if bodyBytes.Some? {
          req.body := bodyBytes;
        }
        SameBodiesMore(old(next.sent), next.sent, bodyBytes);
        res := next.RoundTrip(req, answers(attempt));
        if !res.NetworkError? || attempt == maxAttempts {
          return;
        }
        SleptMore(old(slept), slept, backoffBase, jitter, attempt);
        slept := slept + [Backoff(backoffBase, attempt, jitter(attempt))];
        attempt := attempt + 1;
      }
    }
  }
}
