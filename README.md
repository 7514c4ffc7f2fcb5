# Load balancer selection and throttling, modelled in Dafny

This project models how a single-process HTTP load balancer chooses a
server and admits requests. Each strategy is a small state machine, or a
pure function, and the model treats every call to it as one atomic step
(see "## Left out" for where the source does not make it one):

- **Round robin.** A cyclic index over the server list.
- **Weighted round robin.** The interleaved scheduler in the LVS style. Non-positive weights count as 1. An index sweeps the list. Each time the index wraps, a current weight drops by the gcd of the weights, and it returns to the maximum when it reaches 0 or below. A server is chosen when its weight reaches the current weight.
- **Least connections.** A per-URL connection count. A selection takes the first server, in list order, among those with the fewest connections, and counts one more for it. A release counts one fewer, never going below 0.
- **Sticky round robin.** A map from client key to (server, expiry). The key comes from a "sticky" cookie, else the peer address, else a fresh id that is returned as a cookie. New bindings take the next server of an embedded round robin.
- **Rejecting sliding window.** The throttler keeps a queue of accepted timestamps. It drops the expired ones from the front, rejects a request when the limit is reached, and otherwise enqueues the request's time.
- **Hash strategies.** The server at `hash(key) mod N`, where the key is the peer address or the request path. The two older single-mode classes equal the general one in each mode.
- **Startup selection.** The configured name selects the strategy, and an empty server list is fatal.

Modelling choices:

- **State.** Classes with `modifies` clauses model the state the source updates in place: the round-robin index, the weighted index and weight, the connection-count map, the session map and the timestamp queue. The hash strategies hold only read-only data, so they are datatypes.
- **Specification functions.** Ghost fields record what the proofs need: the indices returned so far, and the pass of the weighted scheduler. Each method is tied to a function of its old state:
  - `CyclicPicks` for round robin
  - `Passes`/`PassPicks` for the weighted scheduler
  - `LeastLoaded`/`Acquired`/`Released` for least connections
  - `Serve` for the sticky strategy
  - `Admit`/`Evict` for the throttler
- **Properties.** Lemmas prove the source's promises about those functions: fairness, proportional shares, balance, stickiness, cyclic assignment and the queue invariant.
- **Time.** The clock is an integer number of ticks, one per 100 ns, passed to each call as `now`. Durations and windows are integer ticks too.
- **Hash.** The MD5 digest read as an unsigned 32-bit integer is a parameter, a function from string to `[0, 2^32)`.
- **Fresh id and HTTP context.** The freshly generated GUID of the sticky strategy is a parameter. The HTTP context is an optional record holding the peer address, the path and the "sticky" cookie.

The weighted scheduler is the interleaved one the code implements, not a "smooth" weighted round robin, and the model follows the code. The code also has no loop-bound check. Instead, the model proves that every call ends within N turns of the loop, because a server of maximal weight always qualifies.

## Model

| member | source | states |
|---|---|---|
| RoundRobin.RoundRobinStrategy.constructor | LoadBalancer/Strategies/Implementations/RoundRobinStrategy.cs:7-14 | the index starts at 0, so the first call returns the first server; no call has been made |
| RoundRobin.RoundRobinStrategy.GetNextServer | LoadBalancer/Strategies/Implementations/RoundRobinStrategy.cs:16-24 | returns the server at the old index and advances the index cyclically, so it stays in [0, N); the k-th call returns servers[k mod N]; the server list is a constant |
| RoundRobin.CyclicPicks | LoadBalancer/Strategies/Implementations/RoundRobinStrategy.cs:20-21 | the indices returned by the first m calls: m of them, each below N; CyclicPicksAt gives element k as k mod N, and GetNextServer's history equals it |
| RoundRobin.CyclicPicksAt | LoadBalancer/Strategies/Implementations/RoundRobinStrategy.cs:20-21 | call k (from 0) returns index k mod N |
| RoundRobin.PicksFairness | LoadBalancer/Strategies/Implementations/RoundRobinStrategy.cs:20-21 | over m calls index i is returned m / N times, plus one if i < m mod N |
| RoundRobin.PicksBalanced | LoadBalancer/Strategies/Implementations/RoundRobinStrategy.cs:20-21 | over m calls every server is returned floor(m/N) or ceil(m/N) times, exactly m/N after whole rounds |
| WeightedRoundRobin.EffectiveWeights | LoadBalancer/Strategies/Implementations/WeightedRoundRobinStrategy.cs:21 | each weight is at least 1: a positive weight is kept, any other becomes exactly 1 |
| WeightedRoundRobin.MaxWeight | LoadBalancer/Strategies/Implementations/WeightedRoundRobinStrategy.cs:22 | the result is one of the weights and no weight exceeds it |
| WeightedRoundRobin.FirstMaxIndex | LoadBalancer/Strategies/Implementations/WeightedRoundRobinStrategy.cs:42-44 | the first index holding the maximum weight: all earlier weights are smaller |
| WeightedRoundRobin.Gcd | LoadBalancer/Strategies/Implementations/WeightedRoundRobinStrategy.cs:55-58 | Euclid's recursion terminates and its result divides both arguments |
| WeightedRoundRobin.GcdGreatest | LoadBalancer/Strategies/Implementations/WeightedRoundRobinStrategy.cs:55-58 | every common divisor of the arguments divides the result, so it is the greatest |
| WeightedRoundRobin.GcdFold | LoadBalancer/Strategies/Implementations/WeightedRoundRobinStrategy.cs:52 | the fold of Gcd divides its seed and every element; GcdFoldGreatest states that it is the greatest such divisor |
| WeightedRoundRobin.CalculateGcd | LoadBalancer/Strategies/Implementations/WeightedRoundRobinStrategy.cs:50-53 | the result divides every weight; CalculateGcdGreatest states that it is the greatest such divisor |
| WeightedRoundRobin.GcdFoldGreatest | LoadBalancer/Strategies/Implementations/WeightedRoundRobinStrategy.cs:52 | every common divisor of the seed and the elements divides the fold |
| WeightedRoundRobin.CalculateGcdGreatest | LoadBalancer/Strategies/Implementations/WeightedRoundRobinStrategy.cs:50-53 | every common divisor of the weights divides the computed gcd, so it is their greatest common divisor |
| WeightedRoundRobin.Prepare | LoadBalancer/Strategies/Implementations/WeightedRoundRobinStrategy.cs:15-24 | fails exactly on an empty list; otherwise the normalised weights, their maximum and a gcd >= 1 that divides every weight and the maximum; PrepareGcdGreatest states that this gcd is the greatest |
| WeightedRoundRobin.PrepareGcdGreatest | LoadBalancer/Strategies/Implementations/WeightedRoundRobinStrategy.cs:23 | on a non-empty list every common divisor of the normalised weights divides the prepared gcd |
| WeightedRoundRobin.Schedule.PassWeight | LoadBalancer/Strategies/Implementations/WeightedRoundRobinStrategy.cs:33-40 | the current weight during pass p: the maximum in pass 0, then the previous weight minus gcd, reset to the maximum at <= 0; PassWeightBounds, PassWeightInCycle and CycleRestarts state its range and cycle |
| WeightedRoundRobin.Schedule.PassPicks | LoadBalancer/Strategies/Implementations/WeightedRoundRobinStrategy.cs:32-44 | the servers chosen among the first n of pass p, in list order; PassPicksQualify and PassPicksMembers state that these are exactly the qualifying ones, each once |
| WeightedRoundRobin.Schedule.Passes | LoadBalancer/Strategies/Implementations/WeightedRoundRobinStrategy.cs:30-46 | the choices of the first p whole passes, in order; PassesInRange, PassesCount and WeightedShare state their range and counts, and Step ties each loop turn to them |
| WeightedRoundRobin.PassPicksQualify | LoadBalancer/Strategies/Implementations/WeightedRoundRobinStrategy.cs:42-44 | every server a pass chooses among the first n is one of them and has weight at least the pass weight |
| WeightedRoundRobin.PassesInRange | LoadBalancer/Strategies/Implementations/WeightedRoundRobinStrategy.cs:30-46 | every choice of whole passes is an index of the server list |
| WeightedRoundRobin.MaxWeightOf | LoadBalancer/Strategies/Implementations/WeightedRoundRobinStrategy.cs:22 | the stored maximum equals the maximum of the weights |
| WeightedRoundRobin.PassWeightBounds | LoadBalancer/Strategies/Implementations/WeightedRoundRobinStrategy.cs:33-40 | the current weight of every pass lies in [1, maxWeight] |
| WeightedRoundRobin.LevelOf | LoadBalancer/Strategies/Implementations/WeightedRoundRobinStrategy.cs:21-23 | maxWeight = gcd * K and each weight is gcd * a with 1 <= a <= K |
| WeightedRoundRobin.PassWeightInCycle | LoadBalancer/Strategies/Implementations/WeightedRoundRobinStrategy.cs:33-40 | r passes after a maximal pass the weight is gcd * (K - r) |
| WeightedRoundRobin.CycleRestarts | LoadBalancer/Strategies/Implementations/WeightedRoundRobinStrategy.cs:33-40 | K passes after a maximal pass the weight is the maximum again |
| WeightedRoundRobin.PassPicksMembers | LoadBalancer/Strategies/Implementations/WeightedRoundRobinStrategy.cs:42-44 | a pass chooses server j once if its weight reaches the pass weight, otherwise not at all |
| WeightedRoundRobin.PassesCount | LoadBalancer/Strategies/Implementations/WeightedRoundRobinStrategy.cs:30-46 | server j occurs in the first p passes once per pass that qualifies it |
| WeightedRoundRobin.QualifyingInCycle | LoadBalancer/Strategies/Implementations/WeightedRoundRobinStrategy.cs:30-46 | a server of weight gcd * a qualifies in exactly the last a passes of a cycle |
| WeightedRoundRobin.CycleCounts | LoadBalancer/Strategies/Implementations/WeightedRoundRobinStrategy.cs:30-46 | after c cycles, server j has qualified in c * (weight_j / gcd) passes and a new cycle starts |
| WeightedRoundRobin.WeightedShare | LoadBalancer/Strategies/Implementations/WeightedRoundRobinStrategy.cs:30-46 | over c whole cycles of maxWeight / gcd passes, server j is chosen exactly c * (weight_j / gcd) times |
| WeightedRoundRobin.PassPicksPrefix | LoadBalancer/Strategies/Implementations/WeightedRoundRobinStrategy.cs:32-44 | the choices within a pass only grow as the index advances |
| WeightedRoundRobin.PassesPrefix | LoadBalancer/Strategies/Implementations/WeightedRoundRobinStrategy.cs:30-46 | the choices of earlier passes are a prefix of those of later ones |
| WeightedRoundRobin.HistoryPrefix | LoadBalancer/Strategies/Implementations/WeightedRoundRobinStrategy.cs:30-46 | the choices up to any position are a prefix of those of every later whole pass count |
| WeightedRoundRobin.HistoryIsPasses | LoadBalancer/Strategies/Implementations/WeightedRoundRobinStrategy.cs:30-46 | choices as long as q whole passes are exactly those passes |
| WeightedRoundRobin.EachPassChooses | LoadBalancer/Strategies/Implementations/WeightedRoundRobinStrategy.cs:42-44 | every single pass chooses at least one server (the first of maximal weight); GetNextServer's loop ends for the same reason, proved separately through its measure `Distance` to that server |
| WeightedRoundRobin.PassesNonEmpty | LoadBalancer/Strategies/Implementations/WeightedRoundRobinStrategy.cs:42-44 | after one or more whole passes the history is non-empty |
| WeightedRoundRobin.FirstChoice | LoadBalancer/Strategies/Implementations/WeightedRoundRobinStrategy.cs:9-44 | the first server ever chosen is the first one of maximal weight |
| WeightedRoundRobin.Step | LoadBalancer/Strategies/Implementations/WeightedRoundRobinStrategy.cs:32-44 | one turn from (i, w) moves to the next index and the weight of its pass, in [1, maxWeight], and adds the index to the choices exactly when it qualifies |
| WeightedRoundRobin.WeightedRoundRobinStrategy.constructor | LoadBalancer/Strategies/Implementations/WeightedRoundRobinStrategy.cs:9-24 | starts at index -1 with weight 0, with the schedule Prepare computes |
| WeightedRoundRobin.WeightedRoundRobinStrategy.Advance | LoadBalancer/Strategies/Implementations/WeightedRoundRobinStrategy.cs:32-40 | one turn: the index advances cyclically, the weight is the schedule's weight for the pass the new index belongs to and lies in [1, maxWeight], and the new index is chosen exactly when its weight reaches that weight |
| WeightedRoundRobin.WeightedRoundRobinStrategy.GetNextServer | LoadBalancer/Strategies/Implementations/WeightedRoundRobinStrategy.cs:26-48 | returns within N turns a server whose weight reaches the current weight; index in [0, N), weight in [1, maxWeight]; the first call returns the first maximal server; the history grows by the chosen index |
| WeightedRoundRobin.StrategyShare | LoadBalancer/Strategies/Implementations/WeightedRoundRobinStrategy.cs:26-48 | after calls spanning c whole cycles of a running strategy, server j has been returned c * (weight_j / gcd) times |
| LeastConnections.LeastLoaded | LoadBalancer/Strategies/Implementations/LeastConnectionsStrategy.cs:25-27 | the chosen server has the minimal count and every earlier one has a strictly larger count, as a stable sort puts first |
| LeastConnections.Acquired | LoadBalancer/Strategies/Implementations/LeastConnectionsStrategy.cs:29-32 | the update of a selection: the URL gains an entry if absent and its count becomes one more than before, or 1 when absent; UpdatesAreLocal adds that nothing else changes |
| LeastConnections.Released | LoadBalancer/Strategies/Implementations/LeastConnectionsStrategy.cs:40-43 | the update of a release: the URL gains an entry if absent and its count is never negative; UpdatesAreLocal gives max(0, count - 1), 0 when absent, and nothing else changed |
| LeastConnections.UpdatesAreLocal | LoadBalancer/Strategies/Implementations/LeastConnectionsStrategy.cs:29-43 | select adds exactly 1 (starting at 1 when absent); release sets max(0, count - 1) and inserts 0 when absent; other URLs unchanged; counts stay non-negative |
| LeastConnections.ReleaseUndoesAcquire | LoadBalancer/Strategies/Implementations/LeastConnectionsStrategy.cs:29-43 | a release of the selected server restores the map |
| LeastConnections.ReleaseIdle | LoadBalancer/Strategies/Implementations/LeastConnectionsStrategy.cs:40-43 | releasing a server with no connections changes nothing |
| LeastConnections.SelectKeepsBalance | LoadBalancer/Strategies/Implementations/LeastConnectionsStrategy.cs:25-32 | a selection keeps the counts of the list within one of each other, even when URLs repeat |
| LeastConnections.SelectMany | LoadBalancer/Strategies/Implementations/LeastConnectionsStrategy.cs:25-32 | repeated selections keep every server tracked |
| LeastConnections.SelectManyBalanced | LoadBalancer/Strategies/Implementations/LeastConnectionsStrategy.cs:25-32 | from all-zero counts, any number of selections leaves max - min <= 1 |
| LeastConnections.LeastConnectionsStrategy.constructor | LoadBalancer/Strategies/Implementations/LeastConnectionsStrategy.cs:12-19 | the map holds exactly the URLs of the list, each with count 0 |
| LeastConnections.LeastConnectionsStrategy.GetNextServer | LoadBalancer/Strategies/Implementations/LeastConnectionsStrategy.cs:21-36 | returns the first least-loaded server and adds one to its count only |
| LeastConnections.LeastConnectionsStrategy.ReleaseConnection | LoadBalancer/Strategies/Implementations/LeastConnectionsStrategy.cs:38-44 | the count becomes max(0, count - 1), 0 when absent; counts stay non-negative |
| LeastConnections.ProcessRequestWithCleanup | LoadBalancer/Middlewares/RequestForwardingMiddleware.cs:120-133 | selecting and then releasing in the cleanup leaves every count as it was |
| StickyRoundRobin.CookieValue | LoadBalancer/Strategies/Implementations/StickyRoundRobinStrategy.cs:50 | the request's "sticky" cookie value, "" without a context or cookie |
| StickyRoundRobin.AddressValue | LoadBalancer/Strategies/Implementations/StickyRoundRobinStrategy.cs:54 | the peer address as text, "" without a context or address |
| StickyRoundRobin.GetClientIdentifier | LoadBalancer/Strategies/Implementations/StickyRoundRobinStrategy.cs:46-67 | key priority: non-empty cookie, else non-empty address, else the fresh id; a cookie (HttpOnly, Lax, expiring at now + duration, carrying the key) is appended exactly in the fresh-id case with a context |
| StickyRoundRobin.CookieRoundTrip | LoadBalancer/Strategies/Implementations/StickyRoundRobinStrategy.cs:50-66 | a client returning its cookie is known by the same key and gets no new cookie |
| StickyRoundRobin.Serve | LoadBalancer/Strategies/Implementations/StickyRoundRobinStrategy.cs:31-43 | one request as a function of the state: a hit exactly when the key's session is live (expiry > now); the index stays in [0, N); ServeLocal gives both new states, and GetNextServer equals it |
| StickyRoundRobin.ServeLocal | LoadBalancer/Strategies/Implementations/StickyRoundRobinStrategy.cs:31-43 | a hit needs expiry > now strictly and changes nothing; a miss binds the key to the round robin's server until now + duration and advances it; other keys unchanged |
| StickyRoundRobin.Run | LoadBalancer/Strategies/Implementations/StickyRoundRobinStrategy.cs:27-44 | a run of requests yields one server and one hit flag per request |
| StickyRoundRobin.StickyUntilExpiry | LoadBalancer/Strategies/Implementations/StickyRoundRobinStrategy.cs:31-43 | before a session's expiry every request for its key, among any others, gets the bound server, and the session is never extended |
| StickyRoundRobin.DefaultSessionLasts | LoadBalancer/Configurations/LoadBalancerConfig.cs:7 | with the default lifetime, a client bound by a miss gets the same server for every request of its key in the next 30 minutes, whatever other clients do |
| StickyRoundRobin.IndexAfterRun | LoadBalancer/Strategies/Implementations/StickyRoundRobinStrategy.cs:24-36 | the embedded round robin advances once per miss and never on a hit |
| StickyRoundRobin.AssignmentsAreCyclic | LoadBalancer/Strategies/Implementations/StickyRoundRobinStrategy.cs:24-36 | the servers of successive new bindings follow cyclic order from the starting index |
| StickyRoundRobin.StickyRoundRobinStrategy.constructor | LoadBalancer/Strategies/Implementations/StickyRoundRobinStrategy.cs:15-25 | no sessions, and an embedded round robin at index 0 |
| StickyRoundRobin.StickyRoundRobinStrategy.GetNextServer | LoadBalancer/Strategies/Implementations/StickyRoundRobinStrategy.cs:27-44 | equals Serve on the resolved key; a hit returns the bound server and leaves sessions and round robin unchanged; a miss takes the round robin's next server and stores (server, now + duration) |
| SlidingWindow.Evict | LoadBalancer/Throttling/Implementations/RejectingSlidingWindowStrategy.cs:23-26 | the queue after the front-only dequeue loop: a suffix of the old queue; KeepFromFront, EvictSorted and EvictKeepsWindow state which entries it keeps, and EvictExpired's loop equals it |
| SlidingWindow.Admit | LoadBalancer/Throttling/Implementations/RejectingSlidingWindowStrategy.cs:23-34 | accepted exactly when fewer than the limit remain after eviction; a rejection leaves a suffix of the old queue; an acceptance leaves at most limit entries, ending with now behind a suffix of the old queue; TryProcessRequest equals it |
| SlidingWindow.KeepFrom | LoadBalancer/Throttling/Implementations/RejectingSlidingWindowStrategy.cs:23-26 | eviction stops at an index within the queue |
| SlidingWindow.KeepFromFront | LoadBalancer/Throttling/Implementations/RejectingSlidingWindowStrategy.cs:23-26 | eviction stops at the first timestamp not before the window start, and drops only earlier ones |
| SlidingWindow.EvictSorted | LoadBalancer/Throttling/Implementations/RejectingSlidingWindowStrategy.cs:23-26 | on a sorted queue eviction leaves a sorted queue with every entry >= now - windowSize |
| SlidingWindow.EvictKeepsWindow | LoadBalancer/Throttling/Implementations/RejectingSlidingWindowStrategy.cs:23 | eviction keeps a suffix, holding exactly the entries >= the window start, including one equal to it |
| SlidingWindow.EvictBounded | LoadBalancer/Throttling/Implementations/RejectingSlidingWindowStrategy.cs:23-26 | eviction keeps entries no later than now |
| SlidingWindow.AppendBounded | LoadBalancer/Throttling/Implementations/RejectingSlidingWindowStrategy.cs:33 | enqueueing now behind earlier entries keeps the queue sorted |
| SlidingWindow.AdmitKeepsQueue | LoadBalancer/Throttling/Implementations/RejectingSlidingWindowStrategy.cs:23-34 | with a clock that does not go back, the queue stays sorted, holds at most max(limit, 0) entries and none later than now |
| SlidingWindow.EvictAll | LoadBalancer/Throttling/Implementations/RejectingSlidingWindowStrategy.cs:23-26 | when every entry is before the window start, nothing is retained |
| SlidingWindow.BurstAccepted | LoadBalancer/Throttling/Implementations/RejectingSlidingWindowStrategy.cs:18-35 | the first L requests at one instant are accepted, each enqueueing its time |
| SlidingWindow.BurstRejected | LoadBalancer/Throttling/Implementations/RejectingSlidingWindowStrategy.cs:28-31 | the (L+1)-th request at that instant is rejected and records nothing |
| SlidingWindow.AcceptedAfterWindow | LoadBalancer/Throttling/Implementations/RejectingSlidingWindowStrategy.cs:18-35 | a request more than the window after the latest entry is accepted, leaving only its own time |
| SlidingWindow.RejectingSlidingWindowStrategy.constructor | LoadBalancer/Throttling/Implementations/RejectingSlidingWindowStrategy.cs:5-14 | an empty queue with the given window and limit |
| SlidingWindow.RejectingSlidingWindowStrategy.EvictExpired | LoadBalancer/Throttling/Implementations/RejectingSlidingWindowStrategy.cs:23-26 | the dequeue loop leaves exactly Evict of the old queue |
| SlidingWindow.RejectingSlidingWindowStrategy.TryProcessRequest | LoadBalancer/Throttling/Implementations/RejectingSlidingWindowStrategy.cs:16-36 | accepted exactly when the retained count is below the limit; a rejection keeps the evicted queue, an acceptance appends now; the queue invariant holds after the call |
| HashBased.HashKey | LoadBalancer/Strategies/Implementations/HashBasedStrategy.cs:24-29 | Ip mode keys on the peer address, Url mode on the path, and a missing context or address gives "" |
| HashBased.IndexOf | LoadBalancer/Strategies/Implementations/HashBasedStrategy.cs:32 | the index is in [0, N) and is the remainder of the hash by N |
| HashBased.HashBasedStrategy.GetNextServer | LoadBalancer/Strategies/Implementations/HashBasedStrategy.cs:22-33 | the server at hash(key) mod N, a member of the list |
| HashBased.Create | LoadBalancer/Strategies/Implementations/HashBasedStrategy.cs:15-20 | without a mode the strategy hashes the peer address |
| HashBased.SameKeySameServer | LoadBalancer/Strategies/Implementations/HashBasedStrategy.cs:22-33 | equal keys give the same server, whatever came between: the choice depends on nothing else |
| HashBased.ModeKeysOnly | LoadBalancer/Strategies/Implementations/HashBasedStrategy.cs:26-27 | in Ip mode only the address matters, in Url mode only the path |
| IpHash.IpHashStrategy.GetNextServer | LoadBalancer/Strategies/Implementations/IpHashStrategy.cs:18-30 | a member of the list, equal to the general strategy in Ip mode |
| UrlHash.UrlHashStrategy.GetNextServer | LoadBalancer/Strategies/Implementations/UrlHashStrategy.cs:18-30 | a member of the list, equal to the general strategy in Url mode |
| Registration.ChooseStrategy | LoadBalancer/Extensions/ServiceRegistration.cs:23-57 | fails exactly on an empty list; each known name gives its strategy, IpHash and UrlHash the hash strategy in that mode, any other name round robin |
| Registration.DefaultIsRoundRobin | LoadBalancer/Configurations/LoadBalancerConfig.cs:5 | the default name selects round robin |
| Registration.ChooseThrottling | LoadBalancer/Extensions/ServiceRegistration.cs:71-81 | every name gives the rejecting sliding window with the configured window and limit |
| Registration.DefaultThrottling | LoadBalancer/Configurations/ThrottlingConfig.cs:5-7 | the default section gives the sliding window with a one-second window and a limit of 100 |

## Left out

- Forwarding of requests and responses over the network, the 502 mapping and the outbound handler are I/O. They are represented only by the select-then-release pairing of `ProcessRequestWithCleanup`. The content-header fallback of the forwarding middleware is a no-op, because the request content is still unset at that point, and it is not modelled.
- The throttling middleware only turns a rejection into a 429 with a fixed body, and it is not modelled.
- Concurrent callers: every operation is modelled as one atomic step, which holds only where the source takes a lock around the whole step (round robin, weighted round robin, least-connections selection). Three steps are not atomic in the source, and the model does not capture their races:
  - The sticky strategy takes no lock (StickyRoundRobinStrategy.cs:27-44). Its lookup, its round-robin call and its upsert are separate steps. Two simultaneous first requests for one new key can both miss, receive two different servers, and leave the session bound to whichever wrote last. `Serve` rules this out.
  - The throttler reads the clock before taking its lock (RejectingSlidingWindowStrategy.cs:18-21). A caller that read an earlier time can enqueue after one that read a later time. The queue is then out of order, and a later eviction can stop at the newer entry and keep an expired one behind it.
  - `ReleaseConnection` runs outside the selection lock (LeastConnectionsStrategy.cs:38-44). A release can therefore interleave with a selection between its reading of the counts and its increment. Only the single-entry update on the concurrent dictionary is atomic.
- Logging, bootstrap, the demo clients and the echo server.
- MD5 and the read of its first four bytes are the parameter `hash: string -> U32`. The model proves no property of the digest.
- `DateTime.UtcNow` is the parameter `now`, one reading per call. The throttler reads the clock once per call. The sticky strategy reads it up to three times:
  - A miss on an expired session reads it for the liveness test, for the add value and again in the update function. The add value is evaluated even when the key is present, and the stored expiry comes from the last read.
  - A miss that generates a fresh id reads it for the cookie's expiry and for the add value when there is a request context. Without one, the null-conditional cookie append evaluates none of its arguments, so the add value is the only read.
  - A miss on a new cookie or address key reads it once, for the add value.
  - The model uses the same `now` for all of these.
- Overflow of `DateTime` arithmetic is not modelled.
- `Guid.NewGuid()` is the parameter `freshId`.
- The "Unknown hash mode" exception of the hash-based strategy is not modelled. A C# enum variable can hold any value cast to it, but the only constructions (ServiceRegistration.cs:42-50) pass the default Ip or explicitly Url, so the exception cannot be reached.
- Startup refuses an empty server list, so the round-robin, sticky and hash strategies require a non-empty list. The weighted constructor's own rejection of an empty list is modelled by `Prepare`. Least connections is modelled on any list, but selection requires a non-empty one, since the source's `First()` would throw on an empty list.
- SlidingWindow.RejectingSlidingWindowStrategy.TryProcessRequest: requires that no stored timestamp is later than `now`. This means the clock does not go back, and also that no racing caller enqueued a later timestamp between this call's clock read and its lock. Without it the queue need not stay sorted.
- The server record has only a URL in its configuration file, but the weighted strategy reads a weight, so `Server` carries both. The registration code passes a logger to constructors that do not take one; the constructors are modelled as the strategy files write them.
- Integer widths: indices, counts and weights are unbounded integers. The source's 32-bit `int` overflow, for example a count past 2^31 - 1, is not modelled.
