# Dealer gateway: a verified model

A Dafny 4.11 model of the stateful decisions of the Dealer API gateway, with proofs of what those
decisions add up to over whole runs. `dafny verify dfyconfig.toml` checks everything.

The project follows the gateway's components:

- **Rate limiting.** `TokenBucket` is the store of `rate_limiting` as functions of its contents,
  beside an ideal store that never forgets a key. `Conformance` defines the limiter without tokens
  and proves that the bucket decides by that definition; `AdmissionBound` bounds what a key is
  granted, with evictions, across reloads, and with timestamps that reach the lock out of order;
  `EvictionVisible` builds, for every configuration where the ten-minute sweep can be noticed, the
  run that shows it, on a clock of any precision. `MemoryStores` is the store with one heap object
  per visitor, updated in place. `WindowCounter` and `CounterKeys` are distributed mode: the shared
  counter under every interleaving, and the keys.
- **Origins.** `Origin` is one origin's cooldown, probing and circuit breaker in int64 nanoseconds;
  `Selection` is the round-robin scan with its uint64 ticket; `LoadBalancer` is the proxy object;
  `Interleaving` runs requests, completions, probes and clocks of a pool in any order; `History` is
  what an origin's health remembers of any run; `DeadOrigin`
  is the cost of an origin that never answers when requests do not overlap, `HalfOpen` when they do,
  and `OverlapReached` shows that price to be exact; `Retry` is the retrying transport. `Modular`
  holds facts about remainders.
- **Hot reload.** `Reload` is the stat-load-apply-record protocol for any number of files, with
  files rewritten between any two steps; `Pollers` are the config watcher and the certificate
  reloader as objects; `Generations` is the swap-and-cancel of background goroutines, and `Close`.
- **Requests and responses.** `ClientIp` resolves the client behind trusted proxies;
  `ResponseHeaders` is one `response_headers` plugin, `ResponseWriters` the stack of writers, the
  plugin chain and the headers that finally go out.

Each source object whose fields change in place is a class whose methods are tied to a pure
function of its contents; what the gateway promises is proved about those functions, one run or
interleaving at a time.

Modelling choices. Token counts and seconds of the rate limiter are exact reals. Durations and times
of the breaker and of retries are integers of nanoseconds, and shifts wrap at 64 bits, as do the
ticket counter and the store's call counter. `time.Time{}` is the integer 0, and no failure is
stamped with it. Addresses, canonical header names, lower-casing, parsing and building of a config
are parameters. Each HTTP round trip is an outcome given as input; a file is a stamp and a content.

Where the code and its documentation differ, the model follows the code and the difference is a
theorem:

- The top-level README lets "a single trial request" through after a breaker's cooldown. The check
  reserves nothing, so overlapping requests all get through a half-open window. What holds instead
  is a price: with at most c requests in flight to an origin that never answers, the k-th after the
  trip comes no earlier than `HalfOpen.Earliest` says, which for c = 1 is the sum of the escalated
  windows and for any c more than one of them for every c requests (`OverlapPrice`,
  `EarliestAlone`, `EarliestOverlapping`), and that early it can come (`OverlapPriceReached`). A
  failure reads the clock before it takes the origin's lock, so failures can be recorded behind
  time; each window may then begin early by that lag, which the bound takes as a parameter.
- `NewWatcher` says the first poll does not mistake the loaded config for a change. It stats after
  the load, so a write in between is not noticed until the next one (`AgreesFromStartIff`,
  `MissedWriteStaysMissed`, `NextWriteHeals`).
- The sweep is meant to drop only buckets that no longer matter. On a clock of any precision it shows
  exactly when burst < 1 or burst > 600 * rps (`SweepInvisibleIff`); on a clock of whole nanoseconds
  it stays hidden for up to a nanosecond's refill more and shows from three on (`NanosecondClock`).
  burst < 1 comes from the default burst with rps < 1, where a client is granted one call in more
  than 600 seconds (`DefaultBurstBelowOneGrants`).
- Distributed counters are said to be separate per declaration. For clients of any form they are
  exactly when the config's service names are distinct, which nothing checks, and none extends
  another by a colon and an index (`IsolatedIff`, `ColonInNameCollides`); with clients of a
  restricted form, exactly when no such extension turns one possible client into another
  (`SharedIffExtends`).
- A failed EXPIRE is answered with a refusal and nothing else. If it had no effect, or if the first
  INCR of a window counts and yet errors, the key never expires again (`FailedExpireSticksIff`,
  `LostIncrSticks`).
- Response headers are said to be set right before the status line, on every response. A response
  goes out without them if its handler writes nothing, upgrades the connection, or lets the server
  commit on an informational status (`UnansweredResponseBare`), and with them if it answers
  (`OriginResponseRewritten`, `BlockedResponseRewritten`); `ChainReplies` covers every chain.
- The comment on the breaker's shift says that the cap keeps it from overflowing. It does for
  cooldowns up to (2^63 - 1) / 1024 nanoseconds and no longer (`EscalationExactIff`,
  `TooLongCooldownNeverOpens`).
- `startProbers` says that a reload never leaks a generation. One that `Close` overlaps does
  (`NothingRunsAfterCloseIff`, `CloseDuringReloadLeaks`).

## Model

| member | source | states |
|---|---|---|
| TokenBucket.EvictedIff | gateway/internal/plugin/rate_limiting.go:42-73 | every 1000th call, until the uint64 counter wraps, forgets exactly the other keys idle for more than 600 seconds; no other call forgets any |
| TokenBucket.SweepInvisible | gateway/internal/plugin/rate_limiting.go:38-73 | with a clock that never goes back and 1 <= burst <= 600 * rps, any sequence of calls by any keys gets exactly the decisions of a store that never evicts |
| TokenBucket.KeysAreIsolated | gateway/internal/plugin/rate_limiting.go:38-73 | under the same premise a key's decisions are those of one bucket fed with that key's own call times, whatever other keys do and whenever sweeps run |
| TokenBucket.SteadyClientNeverRefused | gateway/internal/plugin/rate_limiting.go:38-73 | with burst >= 1 a client that leaves 1/rps between its calls is never refused, whatever other clients do, whatever is evicted and whatever timestamps the others carry |
| EvictionVisible.SweepInvisibleIff | gateway/internal/plugin/rate_limiting.go:12-73 | the exact condition for a clock of any precision: the sweep is invisible on every run whose clock never goes back if and only if 1 <= burst <= 600 * rps |
| EvictionVisible.NanosecondClock | gateway/internal/plugin/rate_limiting.go:12-73 | on a clock of whole nanoseconds the sweep is invisible for 1 <= burst <= rps * (600 s + 1 ns), and visible for burst < 1 and for burst >= rps * (600 s + 3 ns) |
| EvictionVisible.DeclaredSweepInvisibleIff | gateway/internal/plugin/rate_limiting.go:108-130 | a declaration is accepted exactly if its rate is positive and a burst it gives is at least 1, the default burst being the rate; and the exact condition for it is that an explicit burst is at most 600 * rps, or the rate at least 1 |
| EvictionVisible.DefaultBurstBelowOneGrants | gateway/internal/plugin/rate_limiting.go:38-121 | with the default burst and rps below 1, in every run of the store a client is granted its first call, and its granted calls are more than 600 seconds apart |
| AdmissionBound.AdmissionBounded | gateway/internal/plugin/rate_limiting.go:38-73 | in every configuration with burst >= 1, a key's allowed calls in any window of any run number at most burst + rps * length, plus burst - 600 * rps (if positive) for each whole 600 seconds |
| AdmissionBound.AdmissionBoundedByBursts | gateway/internal/plugin/rate_limiting.go:38-73 | hence at most a burst per whole 600 seconds more than burst + rps * length, and burst + rps * length itself when burst <= 600 * rps |
| AdmissionBound.AdmissionAcrossReloads | gateway/gateway.go:280-290 | over r reloads, each of which starts empty stores, a key's allowed calls in any window number at most (r + 1) * burst + rps * length, plus what evictions add |
| AdmissionBound.OutOfOrderBounded | gateway/internal/plugin/rate_limiting.go:47-64 | for any order of timestamps: from the call that creates a key's bucket at t1 to an allowed call at tm, with no eviction of the key between, at most burst + rps * (tm - t1) calls are allowed |
| Conformance.AllowedIffConforms | gateway/internal/plugin/rate_limiting.go:47-64 | a definition without tokens, for any order of timestamps: a call (other than a first call when burst < 1) is allowed if and only if every window from a call of the key to this one stays within burst + rps * its length |
| Conformance.StoreAllowsIffConforms | gateway/internal/plugin/rate_limiting.go:38-73 | with 1 <= burst <= 600 * rps and a clock that never goes back, the store with its sweep, fed with any keys, decides each key by that definition |
| MemoryStores.Visitor.Spend | gateway/internal/plugin/rate_limiting.go:53-64 | refill, cap and spend in place agree with the bucket function |
| MemoryStores.MemoryStore.SweepLocked | gateway/internal/plugin/rate_limiting.go:67-73 | deleting while ranging over the map in any order leaves exactly the visitors seen within ten minutes, unchanged |
| MemoryStores.MemoryStore.Allow | gateway/internal/plugin/rate_limiting.go:38-65 | the new contents and the answer of the in-place store are those of the step function, with one object per key kept apart; the caller's key is held, and another one if it was and is not swept as idle for more than 600 seconds |
| CounterKeys.IsolatedIff | gateway/internal/plugin/rate_limiting.go:75-92 | no two rate_limiting declarations of a config ever share a counter, for plugins at any index and clients that are any strings, if and only if its service names are distinct and none continues another with a colon and an index |
| CounterKeys.SharedIffExtends | gateway/internal/plugin/rate_limiting.go:90-92 | two declarations share a counter for clients of a given form if and only if one prefix goes on from the other by a string that turns one such client into another |
| CounterKeys.ColonFreeNamesAreIsolated | gateway/gateway.go:404-411 | with colon-free service names the key name:index:client determines all three, even for IPv6 clients |
| CounterKeys.ColonFreeIsolatedIff | gateway/gateway.go:404-411 | hence a config with such names is isolated if and only if they are distinct |
| CounterKeys.SameNameSeparates | gateway/gateway.go:411 | within one service the key determines index and client |
| CounterKeys.ItoaIsDecimal | gateway/gateway.go:411 | the index stands in the key as a decimal number without leading zeros |
| CounterKeys.ColonInNameCollides | gateway/internal/config/parse.go:43-45 | names are only required to be nonempty; two declarations that share the counter of two IPv6 clients |
| WindowCounter.WindowBounded | gateway/internal/plugin/ratelimit_sugardb.go:27-43 | in every interleaving, with any failures, at most burst calls between two expiries return true, and at most one if burst < 1 |
| WindowCounter.WindowExact | gateway/internal/plugin/ratelimit_sugardb.go:27-43 | when nothing fails, a call that has returned was allowed if and only if it had the first INCR of its window or its INCR made the count at most burst |
| WindowCounter.UnderASecondBounded | gateway/internal/plugin/ratelimit_sugardb.go:27-43 | any stretch shorter than a second admits at most 2 * burst calls, 2 if burst < 1, even if EXPIRE fails |
| WindowCounter.LapsesAfterASecond | gateway/internal/plugin/ratelimit_sugardb.go:38 | a window can lapse once a second has passed since its EXPIRE, and not before |
| WindowCounter.FailedExpireSticksIff | gateway/internal/plugin/ratelimit_sugardb.go:37-41 | after a failed EXPIRE the key can expire again if and only if the EXPIRE took effect all the same; if not, the calls admitted from then on never exceed one window's |
| WindowCounter.LostIncrSticks | gateway/internal/plugin/ratelimit_sugardb.go:33-41 | a window's first INCR that counts and yet errors leaves a key that never expires and admits one call less than a window |
| WindowCounter.SugarDBStore.Allow | gateway/internal/plugin/ratelimit_sugardb.go:27-43 | one undisturbed call, whichever command fails and whether or not it took effect, takes the steps of the interleaved machine; it is allowed if and only if no command it needs fails and it is the first of its window or makes the count at most burst |
| Origin.AvailableIsNotOpen | gateway/internal/proxy/origin.go:58-89 | in a reachable state an origin that may be attempted never has its breaker open |
| Origin.FailureOpensWindow | gateway/internal/proxy/origin.go:27-89 | after one more failure the origin is skipped for the plain cooldown below the threshold and for base * 2^min(excess, 10) from it on, and only the latter counts as open; a response ends either wait at once |
| Origin.ProbeDecides | gateway/internal/proxy/origin.go:47-73 | a probe that finds an origin down keeps it from being picked, one that finds it up leaves that to its failures, and neither touches its breaker |
| Origin.BreakerStaysClosed | gateway/internal/proxy/origin.go:84-86 | without a breaker or below its threshold it is never open, so a plain cooldown does not refuse the last resort |
| Origin.EscalationExactIff | gateway/internal/proxy/origin.go:8-11 | the int64 shift equals base * 2^min(shift, 10) for every failure count if and only if 1024 * base fits |
| Origin.EscalationDoubles | gateway/internal/proxy/origin.go:91-96 | each further failure doubles the window up to the cap and never shrinks it |
| Origin.TooLongCooldownNeverOpens | gateway/internal/proxy/origin.go:81-96 | for any longer cooldown there is a failure count past the threshold at which the breaker is never open |
| Origin.TrippedRecovers | gateway/internal/proxy/origin.go:58-73 | a tripped origin not forced down is available once 1024 cooldowns have passed since its last failure |
| Origin.OriginState.RecordFailure | gateway/internal/proxy/origin.go:27-32 | stamps the failure, counts it, and keeps the stamp and the count consistent |
| Origin.OriginState.RecordSuccess | gateway/internal/proxy/origin.go:38-43 | clears count and stamp together |
| Origin.OriginState.SetForcedDown | gateway/internal/proxy/origin.go:47-51 | changes the probe's verdict alone |
| Origin.OriginState.IsAvailable | gateway/internal/proxy/origin.go:58-73 | answers the availability question, and only for an origin whose breaker is not open |
| Origin.OriginState.IsBreakerOpen | gateway/internal/proxy/origin.go:81-89 | answers the breaker question, half-open counting as closed |
| Selection.ScanVisitsEachOnceIff | gateway/internal/proxy/loadbalancer.go:83-84 | the scan from a ticket visits every origin exactly once if and only if the uint64 sum does not wrap or n divides 2^64 |
| Selection.SelectionOrdered | gateway/internal/proxy/loadbalancer.go:83-102 | for a ticket whose scan does not wrap, the pick is the cyclically first available origin; with none, the ticket's own origin unless its breaker is open; nothing picked has an open breaker |
| LoadBalancer.RoundRobinProxy.Choose | gateway/internal/proxy/loadbalancer.go:83-98 | the scan loop and the last resort make that pick |
| LoadBalancer.RoundRobinProxy.ServeHTTP | gateway/internal/proxy/loadbalancer.go:61-103 | one request takes one ticket, goes to the pick, and changes that origin's state alone: an error counts one more failure and stamps it, a response clears both |
| History.HealthIsHistory | gateway/internal/proxy/loadbalancer.go:58-71 | in every interleaving an origin counts exactly the requests it failed since its last response, is tripped exactly if its last threshold completions all failed, is available again at once after a response unless the last probe found it down, and never while that is so |
| History.ServedHealthIsHistory | gateway/internal/proxy/loadbalancer.go:61-103 | the same over any run of the proxy's own calls |
| Interleaving.BreakerHolds | gateway/internal/proxy/loadbalancer.go:78-103 | under every interleaving a request is sent only to an origin whose breaker was not open at the check that chose it, and refused only after its whole scan with the last resort's breaker open |
| Interleaving.UndisturbedPick | gateway/internal/proxy/loadbalancer.go:83-102 | a request whose checks nothing interrupts is sent where the sequential scan sends it |
| HalfOpen.TrialWaitsOut | gateway/internal/proxy/origin.go:58-73 | under every interleaving, with failures recorded in any order of their stamps, a request sent to an origin whose k completed requests all failed arrived after the stamp of its last recorded failure by more than base * 2^min(k - threshold, 10) |
| HalfOpen.OverlapPrice | gateway/internal/proxy/origin.go:27-96 | under every interleaving in which a tripped origin never answers, has at most c requests in flight, and has failures recorded with stamps at most lag <= base behind the latest time read (0 when they are recorded in the order of their stamps), the k-th request sent to it after the trip arrived no earlier than Earliest(base, c, lag, k) after it |
| HalfOpen.EarliestAlone | README.md:190 | for c = 1, a single trial at a time, that is the sum of the first k escalated windows, each exceeded, less k times the lag |
| HalfOpen.EarliestOverlapping | gateway/internal/proxy/origin.go:91-96 | for any c it is more than the sum of the first ceil(k / c) escalated windows, less the lag for each |
| OverlapReached.OverlapPriceReached | gateway/internal/proxy/origin.go:54-73 | for every pool, limit c and k there is a run from the start without lag, one with c requests let through each half-open window together, in which the k-th request comes exactly that early |
| Interleaving.FairShare | gateway/internal/proxy/loadbalancer.go:79-89 | any m sent requests with consecutive tickets whose checks find their origins available give each of n origins floor(m/n) or ceil(m/n) of them, however requests interleave and whatever happens to all others |
| DeadOrigin.DeadOriginBudget | gateway/internal/proxy/loadbalancer.go:61-103 | in any run of non-overlapping requests over any pool, an origin that never answers trips exactly at its threshold-th request, and its k-th trial after that starts later than the trip by more than the sum of the first k escalated cooldowns |
| Origin.WindowSumClosed | gateway/internal/proxy/origin.go:91-96 | that sum is base * (2^k - 1) up to eleven trials and grows by 1024 * base for each one more |
| DeadOrigin.RetriesMultiply | gateway/internal/proxy/retry.go:39-66 | requests cost at most maxAttempts round trips each; of those that never get an answer each retryable one costs exactly that and any other exactly one |
| DeadOrigin.RoundTripBudget | gateway/internal/proxy/retry.go:39-66 | in a run of DeadOriginBudget, all trials that start within the first k escalated windows after the trip, and those before it, make at most maxAttempts * (threshold + k - 1) round trips |
| Retry.RetryTransport.RoundTrip | gateway/internal/proxy/retry.go:39-68 | a GET, HEAD or OPTIONS request, or any with the opt-in, makes k round trips if maxAttempts > 1, k being the first that is not a network error or else maxAttempts, each with the same body although every trip drains it, returns the k-th outcome and sleeps k - 1 times; any other request makes one; a body that cannot be buffered makes none |
| Retry.LastAttemptUnique | gateway/internal/proxy/retry.go:56-66 | that k is the only one with these properties |
| Retry.BackoffExactIff | gateway/internal/proxy/retry.go:79-82 | a delay is base * 2^(attempt-1) plus jitter if and only if that fits in an int64 |
| Retry.BackoffNeverShrinks | gateway/internal/proxy/retry.go:79-82 | whatever the jitter, the next delay is never shorter, if the longest it can be fits in an int64 |
| Retry.TotalBackoff | gateway/internal/proxy/retry.go:56-82 | n delays add up to between base * (2^n - 1) and n * base more, if the longest fits |
| Retry.SleptIsSleeps | gateway/internal/proxy/retry.go:56-66 | the delays of a RoundTrip are the ones that sum is about |
| Reload.AgreesFromStartIff | gateway/internal/config/watcher.go:27-80 | under any interleaving of writes with polls, recorded stamps that match the files mean the active content is the files' content, if and only if nothing changed between the constructor's load and its stat |
| Reload.AgreesFromMissing | cmd/dealer/internal/tlscert/reloader.go:28-42 | a file missing at the constructor's stat does not break that agreement |
| Reload.MissedWriteStaysMissed | gateway/internal/config/watcher.go:24-37 | a write between load and stat is never picked up by any number of polls |
| Reload.NextWriteHeals | gateway/internal/config/watcher.go:56-80 | until the next write with a fresh stamp, after which agreement holds in every run |
| Reload.PollAllOrNothing | gateway/internal/config/watcher.go:56-80 | a poll with any files rewritten at any moments of it leaves the stamps its stats found and the contents its loads read, or, if a stat, a load or the apply fails or nothing changed, changes nothing |
| Reload.PollOutcome | gateway/internal/config/watcher.go:56-80 | the same in closed form when the files are rewritten between the stats and the loads |
| Reload.PollConvergesIff | cmd/dealer/internal/tlscert/reloader.go:79-102 | from any state between polls, one undisturbed poll of good files records their stamps, and leaves their contents active if and only if agreement held before it |
| Reload.ReusedStampDisagrees | gateway/internal/config/watcher.go:63-79 | the premise that stamps are not reused is needed: a stamp put back during a load is recorded over other content |
| Pollers.Watcher.PollOnce | gateway/internal/config/watcher.go:56-80 | the config poller leaves what the protocol's poll of one file leaves |
| Pollers.Reloader.Reload | cmd/dealer/internal/tlscert/reloader.go:53-60 | swaps in a valid pair and keeps the old one otherwise |
| Pollers.Reloader.PollOnce | cmd/dealer/internal/tlscert/reloader.go:79-102 | the certificate poller leaves what the protocol's poll of two files leaves |
| Generations.GenerationsBounded | gateway/gateway.go:321-354 | over any run of reloads and a Close at most two generations are alive, and between reloads exactly the current one |
| Generations.NothingRunsAfterCloseIff | gateway/gateway.go:366-375 | after Close and any reload under way have ended, nothing runs if and only if the pointer was not swapped after Close loaded it |
| Generations.CloseDuringReloadLeaks | gateway/gateway.go:366-375 | a Close between a reload's start and its swap leaves that generation running |
| Generations.Gateway.Reload | gateway/gateway.go:280-290 | a config that builds replaces routes, hosts and both generations; one that does not changes nothing |
| Generations.Gateway.Close | gateway/gateway.go:366-375 | a Close that no reload overlaps leaves no prober and no flusher running |
| ClientIp.UntrustedPeerStands | gateway/internal/clientip/clientip.go:56-64 | without a resolver, or with a peer that is no address or in none of the prefixes, the peer is the client, whatever it forwards |
| ClientIp.TrustedPeerForwards | gateway/internal/clientip/clientip.go:65-79 | behind a peer in one of the prefixes the hops decide: the stopping hop of WalkStops, the leftmost if all are trusted, the peer if there are none |
| ClientIp.WalkStops | gateway/internal/clientip/clientip.go:88-100 | the rightmost hop that is malformed or untrusted decides: an untrusted hop is the client, a malformed one leaves the hop right of it or the peer |
| ClientIp.WalkGoesThrough | gateway/internal/clientip/clientip.go:88-100 | if every hop is trusted the client is the leftmost, and without hops the peer |
| ClientIp.SomeHopStops | gateway/internal/clientip/clientip.go:88-100 | one of these two cases always applies |
| ClientIp.ClaimsIgnoredIff | gateway/internal/clientip/clientip.go:50-79 | what stands left of some hops never changes the answer if and only if one of those hops is malformed or untrusted |
| ClientIp.LinesJoin | gateway/internal/clientip/clientip.go:119-129 | repeated header lines give the same hops as one line joining them with commas and any white space |
| ClientIp.SplitJoins | gateway/internal/clientip/clientip.go:122 | splitting at commas loses nothing and leaves no comma |
| ClientIp.HopsReadBack | gateway/internal/clientip/clientip.go:119-129 | a list of hops written out with commas and any spaces or tabs around them is read back as it was |
| ClientIp.IsTrusted | gateway/internal/clientip/clientip.go:81-89 | the loop over prefixes finds whether any contains the address |
| ClientIp.CollectForwardedFor | gateway/internal/clientip/clientip.go:119-129 | the nested loops collect the trimmed, nonempty entries of all lines in order |
| ClientIp.Resolve | gateway/internal/clientip/clientip.go:56-79 | the backward loop answers with the peer unless the peer is in a trusted prefix, and then with what its hops decide |
| ResponseHeaders.OrderIrrelevantIff | gateway/internal/plugin/response_headers.go:96-99 | setting headers by ranging over a Go map gives one outcome for every order if and only if names with one canonical form agree on their value |
| ResponseHeaders.RewrittenIffTakes | gateway/internal/plugin/response_headers.go:96-111 | header by header: the last rule whose content type begins the response's (in lower case, after the plain headers) and that names the header decides, failing that the plain headers, failing that nothing changes |
| ResponseHeaders.OutermostIsLast | gateway/internal/plugin/response_headers.go:119-133 | in a stack of plugins the outermost rewrites last, on top of what the inner ones made |
| ResponseWriters.ResponseGoesOut | gateway/internal/plugin/response_headers.go:113-145 | for any edits, statuses, writes and flushes on any of the writers, the headers sent are those in place at the first one that ends the head, rewritten by exactly the plugins around its writer |
| ResponseWriters.ChainReplies | gateway/internal/plugin/response_headers.go:90-151 | for any plugins, in any order, that edit, answer, flush, hijack, block and answer again, what goes out is what the chain replies plugin by plugin: each response_headers plugin rewrites once what is answered inside it and nothing else |
| ResponseWriters.OriginResponseRewritten | gateway/internal/plugin/response_headers.go:90-145 | behind plugins that may edit headers and pass on, the origin's answer is rewritten exactly once by every response_headers plugin of the chain, innermost first |
| ResponseWriters.BlockedResponseRewritten | gateway/internal/plugin/plugin.go:10-27 | the answer of a plugin that blocks, behind such plugins, is rewritten exactly once by each response_headers plugin declared before it and by none after |
| ResponseWriters.UnansweredResponseBare | gateway/internal/plugin/response_headers.go:127-151 | a response that its handler does not answer, because it only edits, hijacks the connection or lets the server commit on an informational status, goes out with all edits and without any response_headers plugin's rewriting |
| ResponseWriters.FirstDeclaredWins | gateway/internal/plugin/response_headers.go:96-145 | whatever is answered inside the first declared plugin, by any plugins or the origin, goes out with the header that plugin always sets |
| ResponseWriters.Chain | gateway/internal/plugin/plugin.go:21-27 | wrapping from last to first nests the plugins in declared order |
| ResponseWriters.Response.Apply | gateway/internal/plugin/response_headers.go:96-111 | plain headers first, then each rule whose content type the response has by then, each map ranged over in some order; for names that are coherent, one outcome in any order, which takes hold header by header as above |
| ResponseWriters.Response.WriteHeaderAt | gateway/internal/plugin/response_headers.go:127-133 | a final status works its way out through every layer, each rewriting once, before it is committed; an informational one rewrites nothing |
| ResponseWriters.Response.WriteAt | gateway/internal/plugin/response_headers.go:135-138 | a write rewrites on its way out and commits |
| ResponseWriters.Response.FlushAt | gateway/internal/plugin/response_headers.go:142-145 | a flush does too |
| ResponseWriters.Response.HijackAt | gateway/internal/plugin/response_headers.go:147-151 | a hijack goes out through Unwrap past every layer, rewriting nothing |

## Left out

- EvictionVisible.NanosecondClock: says nothing of bursts strictly between the refills of 600 s + 1 ns and 600 s + 3 ns, where visibility depends on how rps divides the nanosecond.
- MemoryStores.MemoryStore.Allow: does not model float64 rounding or the saturation of time differences; tokens and seconds are exact reals.
- AdmissionBound.AdmissionAcrossReloads: the stores are used one after the other with one limit; requests that still use the store of an old generation while the new one is in use are not modelled.
- HalfOpen.OverlapPrice: like every bound on a pool it holds within one generation, since a reload starts fresh origin states and closes every breaker; and it says nothing when failures are recorded more than a cooldown behind time.
- DeadOrigin.DeadOriginBudget: times do not saturate and failure counts do not wrap, as in every member about origins.
- WindowCounter.SugarDBStore.Allow: SugarDB, its replication and its cluster are an abstract counter that expires no earlier than a second after EXPIRE; the conversion of a burst beyond int64 is not modelled.
- Reload.AgreesFromStartIff: assumes that no write reuses a stamp its file has carried before.
- CounterKeys.IsolatedIff: takes clients to be arbitrary strings; which strings address parsing can yield is a parameter of SharedIffExtends.
- ResponseWriters.Response.HijackAt: what a handler sends on a hijacked connection is taken to be the headers in place when it hijacks, as httputil's reverse proxy does.
- OverlapReached.OverlapPriceReached: for runs short enough that the ticket counter does not wrap.
- ResponseWriters.Response.FlushAt: assumes a server writer that supports flushing, as net/http's does.
- Pollers.Watcher.PollOnce: the ticker, cancellation and logging of the polling loop are not modelled; parsing and building are one verdict.
- ClientIp.Resolve: IP parsing, unmapping and prefix matching are parameters; the list of trusted proxies is taken as parsed.
- LoadBalancer.RoundRobinProxy.ServeHTTP: the reverse proxy's handling of bodies, headers and cancellation is reduced to whether the round trip answered or errored.
- The prober's HTTP request is an environment step that sets the probe's verdict.
- The flush of buffered http_log lines, metrics, tracing, request ids and preserve_request_id.
- The plugins add_header, cors, jwt_auth, request_size_limiting and http_log, except as plugins that may edit headers and answer.
- Routing, config validation, ACME, TLS handshakes, environment parsing and the load-test programs.
