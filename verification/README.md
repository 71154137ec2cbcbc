# Load balancer and rate limiter: a Dafny model

This project models the concurrent and arithmetic core of an HTTP load balancer written in Go, and proves
properties of it over all inputs, runs and interleavings. `dafny verify dfyconfig.toml` checks everything.

Three parts of the system are covered.

**Three token buckets.** The in-memory limiter refills from a ticker (`TickerBucket`, `MemoryLimiter`), the
PostgreSQL limiter refills lazily inside a row-locking transaction (`PostgresBucket`, `PostgresLimiter`), and the
hybrid limiter refills in whole seconds inside a Lua script (`LuaBucket`, `HybridBucket`, `HybridLimiter`). Each
bucket is a step function on a value, with theorems about its runs (`Trace`); the classes are proved to perform
these steps. Window bounds: 2·capacity + rate·t for the ticker, reached; capacity + rate·t for the Lua script,
whatever the clock does; capacity + rate·(forward moves of the clock) for PostgreSQL, reached. The PostgreSQL bucket
is simulated by an ideal continuous bucket, never gets ahead of one that decides for itself and admits at least half
as many requests; the Lua script decides exactly like a bucket that adds tokens at every whole second.
`RateLimitService` puts the service in front of the in-memory limiter and carries the bound through to a client of
the service.

**The backend pool.** `CyclicScan` and `Shares` treat round robin: which claims look at every backend (with the
`uint64` wrap), exact shares with dead backends, balance across a wrap. `InterleavedScan` is the same scan while
other goroutines write the liveness flags, `HealthMonitor` the interleaved test-then-store writes.
`LeastConnections`, `MemoryPool` and `Balancing` hold the other strategies and the classes, `LoadBalancer` the
retry loop of one request, and `ConcurrentRequests` that of any number of them at once, step by step.

**The hybrid limiter's store.** `SettingsCache` is the protocol between the PostgreSQL row and its one-hour copy in
Redis, with every interleaving of lookups, fills, writes and lost deletes, and a tight staleness bound.
`HybridStore` keeps copies and token keys in one Redis keyed by strings and proves which clients share a key, and
that all others are answered as if they were alone. `HybridBucket` carries the window bound from end to end to a
client: while its settings stay, once the staleness bound has passed after an update, and across updates.

Conventions. Integers of Go's `int64`, `int` and `uint64` have their width and wrap around. Time is an integer
parameter, in nanoseconds for the in-memory and PostgreSQL limiters and in seconds for the hybrid one. Whether a
remote call succeeds, what a forwarder, a health check or a URL parser answers, random numbers and the clock are
parameters. A property of the code that fails is stated with the exact condition under which it holds, and with an
input that breaks it:

- A claim near the end of the `uint64` range can miss the only live backend (`CyclicScan.FoundExactly`,
  `InterleavedScan.WrapCanMiss`); the retry loop then answers 503 at once although that backend is alive
  (`LoadBalancer.UnsureGivesUp`), and `LoadBalancer.UnavailableIffExhaustedExactly` says for which counters, and for
  least-connections at which counts, this cannot happen. Among concurrent requests it is the claim of the last scan
  that decides (`ConcurrentRequests.GaveUpMeansDeadExactly`).
- A request can be forwarded to the same URL twice, but only if a health check revives it in between
  (`ConcurrentRequests.TriedOnceUnlessRevived`, `ConcurrentRequests.RevivalRepeats`).
- Very large rates can overflow the in-memory bucket and shut it (`TickerBucket.TokensStayInRange`,
  `TickerBucket.OverflowShutsAFullBucket`); `TickerBucket.SmallSettingsNeverOverflow` is a guard on the settings.
- Under a clock that goes back PostgreSQL admits more than capacity + rate·(t−s)
  (`PostgresBucket.BackwardClockBreaksWindow`); the bound for every clock counts the forward moves of the readings.
- `Allow` of the hybrid limiter dereferences nil exactly for a client with neither a cached copy nor a row
  (`HybridLimiter.HybridRateLimiter.Allow`).
- In Redis the settings key of one client can be a token key of another (`HybridStore.KeysMeetExactly`), and then
  storing the one's settings opens the other's limit (`HybridStore.MeetingKeysOpenTheLimit`). The other's name starts
  with "settings": the service accepts such names (`internal/core/app/ratelimit_service.go:29`), but the ids that
  the middleware gives to requests never meet, unless a remote address that has no port starts with that word
  (`HybridStore.RequestsAreApart`).
- The service keeps its own map when the limiter fails (`RateLimitService.FailedUpdateBreaksMirror`).

## Model

| member | source | states |
|---|---|---|
| TickerBucket.TickerWindow | internal/adapters/secondary/rate_limiter/memory/token_bucket.go:49-135 | In any window [s, t] of any run since the settings were stored, a client gets at most 2·capacity + rate·(t−s) admissions, for any tick schedule and even if a refill overflows |
| TickerBucket.TickerWindowSinceRefill | internal/adapters/secondary/rate_limiter/memory/token_bucket.go:49-135 | The same window admits at most capacity + rate·(t − lastRefill at its start) |
| TickerBucket.TickerWindowIsTight | internal/adapters/secondary/rate_limiter/memory/token_bucket.go:62-128 | For every capacity and rate (as long as rate/10^9 + capacity fits an int64), 2·capacity requests pass at a single instant around a tick, so the first bound is reached and capacity + rate·(t−s) is not one |
| TickerBucket.BurstTakesWhatIsThere | internal/adapters/secondary/rate_limiter/memory/token_bucket.go:62-69 | n requests without a refill in between admit exactly min(n, tokens) and take as many tokens |
| TickerBucket.RefillAccuracy | internal/adapters/secondary/rate_limiter/memory/token_bucket.go:122-130 | Over k effective refills spanning T of lastRefill the credit is at most rate·T, more than rate·T − k and more than rate·T/2 |
| TickerBucket.TickLeavesLessThanOneToken | internal/adapters/secondary/rate_limiter/memory/token_bucket.go:122-130 | After a tick the time not yet paid is worth less than one token, exactly unless the credit does not fit an int64 |
| TickerBucket.TokensStayInRange | internal/adapters/secondary/rate_limiter/memory/token_bucket.go:62-135 | Over a run with any clock, stored tokens stay in [0, capacity] exactly if no tick of the run overflows the sum |
| TickerBucket.SmallSettingsNeverOverflow | internal/adapters/secondary/rate_limiter/memory/token_bucket.go:62-135 | If 10^9·capacity + rate·d is at most 10^9·(2^63−1), no tick within d ns of storing the settings overflows, in any run, and tokens are never negative |
| TickerBucket.MachineRefillIsExact | internal/adapters/secondary/rate_limiter/memory/token_bucket.go:123-129 | int64 refill agrees with unbounded arithmetic exactly while tokens + credit is below 2^63 |
| TickerBucket.OverflowShutsAFullBucket | internal/adapters/secondary/rate_limiter/memory/token_bucket.go:126-128 | With the largest accepted settings one second turns a full bucket into one that denies |
| TickerBucket.TokensAreConserved | internal/adapters/secondary/rate_limiter/memory/token_bucket.go:62-128 | Without overflow, tokens left plus admissions equal tokens at the start plus the credits after the capacity cut |
| TickerBucket.RunKeepsSettings | internal/adapters/secondary/rate_limiter/memory/token_bucket.go:62-128 | No run changes capacity or rate, or stores more tokens than the capacity, whatever the clock does |
| TickerBucket.DeniedAreInvisible | internal/adapters/secondary/rate_limiter/memory/token_bucket.go:62-69 | Erasing every denied request from a run changes no other decision and not the final bucket |
| MemoryLimiter.TokenBucket.Refill | internal/adapters/secondary/rate_limiter/memory/token_bucket.go:120-132 | The part of the refill loop under one bucket's lock performs one tick of that bucket |
| MemoryLimiter.MemoryRateLimiter.Allow | internal/adapters/secondary/rate_limiter/memory/token_bucket.go:49-70 | A client without a limit is let through and nothing changes; otherwise it passes iff its bucket holds a token, which it then takes, and no other bucket moves |
| MemoryLimiter.MemoryRateLimiter.SetRateLimit | internal/adapters/secondary/rate_limiter/memory/token_bucket.go:73-92 | The client gets a new full bucket; all other buckets stay, and no two clients share one |
| MemoryLimiter.MemoryRateLimiter.RemoveRateLimit | internal/adapters/secondary/rate_limiter/memory/token_bucket.go:95-102 | Exactly this client's bucket goes |
| MemoryLimiter.MemoryRateLimiter.RefillAll | internal/adapters/secondary/rate_limiter/memory/token_bucket.go:117-135 | Every bucket gets exactly one tick at its own clock reading, in whatever order the map is walked |
| PostgresBucket.PostgresIsSimulated | internal/adapters/secondary/rate_limiter/postgres/token_bucket.go:90-119 | At every decision of every run the code finds at most the level of the ideal continuous bucket charged with its admissions, and never admits what that bucket cannot pay |
| PostgresBucket.PostgresNeverBeatsIdeal | internal/adapters/secondary/rate_limiter/postgres/token_bucket.go:90-119 | At every moment of every run the code has admitted at most as many requests as the ideal bucket that decides for itself |
| PostgresBucket.PostgresAdmitsHalf | internal/adapters/secondary/rate_limiter/postgres/token_bucket.go:90-119 | Over every run that ends before the credit can overflow, the code admits at least half as many requests as that ideal bucket, although every admission drops a fraction of a token |
| PostgresBucket.BurstTakesWhatIsThere | internal/adapters/secondary/rate_limiter/postgres/token_bucket.go:90-119 | n requests at one reading admit exactly min(n, tokens found), and leave that many fewer tokens and the reading as refill time |
| PostgresBucket.FreshTakesCapacity | internal/adapters/secondary/rate_limiter/postgres/token_bucket.go:90-140 | Freshly stored settings pay for a burst of exactly the capacity |
| PostgresBucket.BackwardReadingTakes | internal/adapters/secondary/rate_limiter/postgres/token_bucket.go:90-93 | A reading before the refill time takes away the whole tokens of the time the clock went back, exactly while that fits an int64 |
| PostgresBucket.PostgresWindow | internal/adapters/secondary/rate_limiter/postgres/token_bucket.go:90-119 | Any window of any run in which the clock does not go back admits at most capacity + rate·(t−s), whatever the clock did before |
| PostgresBucket.PostgresWindowAnyClock | internal/adapters/secondary/rate_limiter/postgres/token_bucket.go:90-119 | For every clock, any window of any run admits at most capacity + rate·(sum of the forward moves of its readings) |
| PostgresBucket.BackwardClockBreaksWindow | internal/adapters/secondary/rate_limiter/postgres/token_bucket.go:90-103 | Nine requests with readings between 0 s and 1 s reach the bound for every clock exactly, 6 + 3·1, and exceed capacity + rate·(t−s) = 7 |
| PostgresBucket.AvailableIsFloor | internal/adapters/secondary/rate_limiter/postgres/token_bucket.go:90-93 | A request finds the stored worth rounded down to whole tokens exactly while tokens + credit fits an int64 |
| PostgresBucket.TokensStayInRange | internal/adapters/secondary/rate_limiter/postgres/token_bucket.go:90-119 | Stored tokens stay in [0, capacity] over every run, for any clock and even on overflow |
| PostgresBucket.SaturatedVerdicts | internal/adapters/secondary/rate_limiter/postgres/token_bucket.go:90-119 | From an empty bucket with requests every d ns and d·rate ≤ 10^9, exactly every k-th request is admitted, k = ceil(10^9/(d·rate)) |
| PostgresBucket.SaturatedThroughput | internal/adapters/secondary/rate_limiter/postgres/token_bucket.go:90-119 | Throughput of such a client lies between rate/2 and rate, up to the open round |
| PostgresBucket.DeniedAreInvisible | internal/adapters/secondary/rate_limiter/postgres/token_bucket.go:96-119 | Erasing every denied request from a run changes no other decision and not the stored row |
| PostgresLimiter.PostgresRateLimiter.Allow | internal/adapters/secondary/rate_limiter/postgres/token_bucket.go:63-120 | A client without a row is let through; otherwise its row takes one step (PostgresBucket.BurstTakesWhatIsThere says what it costs) and no other row moves; a denial writes nothing |
| PostgresLimiter.PostgresRateLimiter.SetRateLimit | internal/adapters/secondary/rate_limiter/postgres/token_bucket.go:123-140 | The row is inserted or overwritten: tokens equal to the capacity, refilled now; a database error is returned and changes nothing |
| PostgresLimiter.PostgresRateLimiter.RemoveRateLimit | internal/adapters/secondary/rate_limiter/postgres/token_bucket.go:143-155 | Exactly this client's row goes; a database error is returned and changes nothing |
| LuaBucket.LuaIsEager | internal/adapters/secondary/storage/hybrid/hybrid.go:109-143 | With constant settings and non-decreasing seconds, the script decides every request of every run, removals included, as the bucket that starts full and adds rate, capped, at each whole second |
| LuaBucket.KeysStayTogether | internal/adapters/secondary/storage/hybrid/hybrid.go:80-143 | Over every run of one client's script and removals, whatever the clock does, both token keys are present or both absent, and stored tokens are in [0, capacity) |
| LuaBucket.TokensUnderChangingSettings | internal/adapters/secondary/storage/hybrid/hybrid.go:118-142 | With settings that change between requests and any clock, stored tokens stay in [0, capacity used at the last write) |
| LuaBucket.LuaWindow | internal/adapters/secondary/storage/hybrid/hybrid.go:109-143 | Between removals any window of any run admits at most capacity + rate·(t−s) when its readings lie in [s, t], in clock seconds, in whatever order they reach the script and however settings and clock changed before |
| LuaBucket.LuaWindowAcrossChanges | internal/adapters/secondary/storage/hybrid/hybrid.go:109-143 | With settings that change inside the window, old and new in any mixture, of at most capacity C and rate R, at most C + R·(forward moves of the clock) requests pass, so C + R·(t−s) if the readings do not go back |
| LuaBucket.DeniedAreInvisible | internal/adapters/secondary/storage/hybrid/hybrid.go:135-142 | Erasing every denied request from a run changes no other decision and not the stored keys |
| SettingsCache.BoundedStaleness | internal/adapters/secondary/storage/hybrid/hybrid.go:156-213 | If the last row write is at T and every fill that read before it reaches Redis by T+d or never, every getSettings begun at T+d+1h or later returns the current row, under every interleaving and with any deletes lost; earlier writes and fills are free |
| SettingsCache.HitsAreCurrent | internal/adapters/secondary/storage/hybrid/hybrid.go:182-192 | Under the same condition, from T+d+1h on an unexpired copy is equal to the row, in every reachable state |
| SettingsCache.StalenessIsTight | internal/adapters/secondary/storage/hybrid/hybrid.go:156-213 | For every d a run that meets that condition, and whose delete arrives, still answers with the old row one second before T+d+3600 s |
| SettingsCache.LoneCallKeepsCoherence | internal/adapters/secondary/storage/hybrid/hybrid.go:63-213 | A call that runs alone keeps the copy that Redis holds absent or equal to the row exactly if its delete arrives, Redis holds no unexpired copy, or the copy says the same; a lone getSettings answers with the row |
| SettingsCache.SerialRunsAreCoherent | internal/adapters/secondary/storage/hybrid/hybrid.go:156-213 | In runs without overlap whose deletes arrive, the copy that Redis holds is between calls always absent or equal to the row |
| HybridStore.KeysMeetExactly | internal/adapters/secondary/storage/hybrid/hybrid.go:80-146 | The settings key of one client is the tokens or the last-refill key of another exactly when the latter's name with the ending starts with "settings:" and the former is the rest; tokens and last_refill both meet settings, at ratelimit:settings:tokens and ratelimit:settings:last_refill |
| HybridStore.KeysOfOneKindAreDistinct | internal/adapters/secondary/storage/hybrid/hybrid.go:80-146 | Keys of one kind differ for different clients, and a tokens key is never a last-refill key |
| HybridStore.RequestsAreApart | internal/adapters/primary/http/middleware/rate_limit.go:40-50 | The client ids of any two requests, from API key, host or remote address, have keys that do not meet, unless a remote address starts with "settings" |
| HybridStore.ClientIdsDistinguish | internal/adapters/primary/http/middleware/rate_limit.go:40-50 | An API key decides the client id alone and keeps clients apart, without one the host does, whatever the port; the ids of keys and hosts never coincide |
| HybridStore.IsolatedExactly | internal/adapters/secondary/storage/hybrid/hybrid.go:63-213 | Every operation on one client leaves everything stored for another as it is, in every store, exactly if their keys do not meet |
| HybridStore.ClientSeesItsAccount | internal/adapters/secondary/storage/hybrid/hybrid.go:63-213 | Over every run, whatever clients with other keys do, a client gets the answers and ends with the keys, copy and row of its own operations run alone |
| HybridStore.MeetingKeysOpenTheLimit | internal/adapters/secondary/storage/hybrid/hybrid.go:116-176 | Where the keys meet, storing settings for the one client, whose delete of the copy arrives, makes the next request of the other pass, whatever its bucket holds |
| HybridBucket.TokenKeysStayPaired | internal/adapters/secondary/storage/hybrid/hybrid.go:80-143 | Over every run whose other clients have other keys, a client's two token keys are both there, as numbers, or both absent, so that the script never fails |
| HybridBucket.HybridWindow | internal/adapters/secondary/storage/hybrid/hybrid.go:101-213 | End to end, whatever clients with other keys do: when a client's row is c and every other copy has expired by s, any continuation that only makes requests for it lets at most capacity + rate·(t−s) through, with clock readings in [s, t] in any order |
| HybridBucket.WindowAfterUpdate | internal/adapters/secondary/storage/hybrid/hybrid.go:101-213 | An hour after an update whose delete may be lost the new settings bound every window of requests, whatever was stored before |
| HybridBucket.WindowAcrossUpdates | internal/adapters/secondary/storage/hybrid/hybrid.go:101-213 | A window of requests and updates, with any copies out of date, lets at most C + R·(forward moves of the clock) through, C and R being at least every capacity and rate saved for the client |
| HybridBucket.WindowOnceCurrent | internal/adapters/secondary/storage/hybrid/hybrid.go:101-213 | With lookups, fills, writes and deletes of a client interleaved: requests whose lookups begin at T+d+1h or later (the staleness bound) are let through at most capacity + rate·(t−s) times in a window, by the settings written at T |
| HybridBucket.OperationsRunTheBucket | internal/adapters/secondary/storage/hybrid/hybrid.go:101-213 | Between removals the requests that a client gets through are those that the script admits when evaluated with the settings that each request finds |
| HybridBucket.ScriptAgrees | internal/adapters/secondary/storage/hybrid/hybrid.go:109-143 | Whatever numbers are stored, even tokens without a last refill, the script on the one Redis decides and writes as the bucket's script does |
| HybridStore.CoherenceKeptExactly | internal/adapters/secondary/storage/hybrid/hybrid.go:63-213 | At any time, an operation keeps every copy that Redis holds equal to its row exactly if it leaves no outdated, unexpired copy of its own client, even where keys meet |
| HybridStore.LookupIsProtocolCall | internal/adapters/secondary/storage/hybrid/hybrid.go:182-213 | getSettings on the store is the cache protocol's call running alone |
| HybridLimiter.HybridRateLimiter.GetSettings | internal/adapters/secondary/storage/hybrid/hybrid.go:182-213 | The unexpired copy if Redis shows one that is JSON, else the row, which is then cached for an hour if the write arrives; with coherent copies the answer is the row |
| HybridLimiter.HybridRateLimiter.EvaluateScript | internal/adapters/secondary/storage/hybrid/hybrid.go:109-153 | The script reads and writes the two token keys as the bucket does and starts full without a tokens key; where the tokens are no number, or come without a numeric last refill, it fails before writing and the request passes |
| HybridLimiter.HybridRateLimiter.Allow | internal/adapters/secondary/storage/hybrid/hybrid.go:101-154 | Nil dereference exactly if there is neither a copy nor a row; otherwise one script evaluation with the effective settings on the one Redis; clients whose keys do not meet this one's keep all they have |
| HybridLimiter.HybridRateLimiter.SetRateLimit | internal/adapters/secondary/storage/hybrid/hybrid.go:157-179 | A failed upsert changes nothing; at every time, a saved one keeps the copies that Redis holds equal to rows exactly if the delete arrives, Redis holds no unexpired copy, or the copy says the same; clients whose keys do not meet this one's keep all they have |
| HybridLimiter.HybridRateLimiter.RemoveRateLimit | internal/adapters/secondary/storage/hybrid/hybrid.go:63-98 | Both deletes are attempted whatever the other does, an error is returned unless both succeed, the three Redis keys go together, and clients whose keys do not meet this one's keep all they have |
| CyclicScan.FoundExactly | internal/adapters/secondary/repository/memory_pool.go:230-251 | A claim finds a backend iff one is alive, for every liveness pattern, exactly when it is at most 2^64−n or n divides 2^64 |
| CyclicScan.CoversExactly | internal/adapters/secondary/repository/memory_pool.go:239-241 | The residues (next+i) mod 2^64 mod n visit every backend exactly under that condition |
| Shares.RoundRobinShares | internal/adapters/secondary/repository/memory_pool.go:237-247 | With liveness fixed and no wrap, any n consecutive claims select each live backend exactly 1 + g times, g being the dead backends cyclically just before it, and no dead one |
| Shares.SharesSumToAll | internal/adapters/secondary/repository/memory_pool.go:237-247 | These shares sum to n |
| Shares.OnceEach | internal/adapters/secondary/repository/memory_pool.go:237-247 | With all backends alive, n consecutive uint64 claims that do not cross the wrap (or even then if n divides 2^64) select each of them exactly once |
| Shares.RoundRobinBalance | internal/adapters/secondary/repository/memory_pool.go:237-247 | With all backends alive, pick counts of any two differ by at most 1 in a run without a wrap and by at most 2 in a run with one wrap |
| Shares.WrapUnbalances | internal/adapters/secondary/repository/memory_pool.go:237-247 | With three backends a difference of 2 does occur across the wrap |
| InterleavedScan.ClaimsAreGapFree | internal/adapters/secondary/repository/memory_pool.go:237 | Under every interleaving the k-th call claims exactly the start value + k, modulo 2^64, and each caller holds the claim of its single entry in the order of claims |
| InterleavedScan.ClaimsAreDistinct | internal/adapters/secondary/repository/memory_pool.go:237 | Two different callers never hold the same claim, as long as at most 2^64 were made |
| InterleavedScan.ReturnedWasAlive | internal/adapters/secondary/repository/memory_pool.go:239-246 | A backend that a call returns was alive at the moment when the call looked at it, while flags were being written |
| InterleavedScan.AlwaysFinds | internal/adapters/secondary/repository/memory_pool.go:230-251 | A call during which some backend stays alive throughout has found one after n + 1 looks of its own, whatever interleaves, if its claim is at most 2^64−n or n divides 2^64 |
| InterleavedScan.CallsFinish | internal/adapters/secondary/repository/memory_pool.go:239-250 | Whatever interleaves, a call has its result after n + 1 looks of its own |
| InterleavedScan.TakenDownIsNotReturned | internal/adapters/secondary/repository/memory_pool.go:239-247 | Once a writer has taken a backend down, no call that begins later returns it until a writer revives it |
| InterleavedScan.RevivedIsFound | internal/adapters/secondary/repository/memory_pool.go:230-251 | Once a writer has revived a backend, and until one takes it down, every call that begins later finds a backend, if its claim is at most 2^64−n or n divides 2^64 |
| InterleavedScan.WrapCanMiss | internal/adapters/secondary/repository/memory_pool.go:239-250 | From any other claim a run exists in which a call misses a backend that stays alive throughout |
| InterleavedScan.NoWriterIsSequential | internal/adapters/secondary/repository/memory_pool.go:230-251 | Without a writer, every concurrent call agrees with the sequential scan of its claim, and after n + 1 looks has returned what it selects |
| HealthMonitor.MarksAreLinearizable | internal/adapters/secondary/repository/memory_pool.go:104-124 | Under every schedule of test-then-store updates the flags are at every moment those of unconditional atomic stores, exactly one for each call and backend with its URL |
| HealthMonitor.EffectsHappenDuringTheCall | internal/adapters/secondary/repository/memory_pool.go:104-124 | In every run each of these stores happens at one step of the schedule, which belongs to its own call while that call stands at that backend, so between the call's start and end |
| HealthMonitor.CallsFinish | internal/adapters/secondary/repository/memory_pool.go:104-124 | Under every schedule a status update that has moved twice for each backend has passed all of them |
| HealthMonitor.ChecksDecideLiveness | internal/core/app/health_monitor.go:63-93 | When each check of a cycle has moved twice for each backend all are joined, and if nobody else wrote each backend is alive exactly if its check succeeded, whatever the schedule |
| HealthMonitor.LoneCallIsSequential | internal/adapters/secondary/repository/memory_pool.go:104-124 | A status update that runs alone has after two moves for each backend set exactly the backends with its URL |
| LeastConnections.LeastPickIsLeast | internal/adapters/secondary/repository/memory_pool.go:153-178 | The choice is the first live backend of least count, and one is found iff some live count is below the greatest int |
| LeastConnections.CountsStayNonNegative | internal/adapters/secondary/repository/memory_pool.go:207-222 | Over any mix of increments and decrements counts never go negative, exactly unless an increment meets the greatest int |
| LeastConnections.FewChangesDoNotSaturate | internal/adapters/secondary/repository/memory_pool.go:207-222 | From counts of at most top, at most 2^63 − 1 − top changes never meet the greatest int |
| LeastConnections.DecrementUndoesIncrement | internal/adapters/secondary/repository/memory_pool.go:207-222 | Below the greatest int a decrement undoes an increment, and no other URL's count moves |
| LeastConnections.CountsAreOpenConnections | internal/adapters/secondary/repository/memory_pool.go:207-228 | From a new pool each count is the number of connections opened and not closed, for any sequence of at most 2^63 − 1 changes; a URL never counted has zero |
| LeastConnections.LeastConnectionsFromZero | internal/adapters/secondary/repository/memory_pool.go:153-212 | From zero counts with liveness fixed, pick-then-increment keeps live counts within one of each other for any number of requests |
| MemoryPool.Pool.SetStrategy | internal/adapters/secondary/repository/memory_pool.go:78-89 | Exactly round-robin, least-connections and random are accepted; any other name changes nothing |
| MemoryPool.Pool.MarkBackendStatus | internal/adapters/secondary/repository/memory_pool.go:104-124 | Every backend with this URL, and no other, gets the status |
| MemoryPool.Pool.GetRoundRobinBackend | internal/adapters/secondary/repository/memory_pool.go:230-251 | The loop returns what the scan of its claim returns, and the counter moves by one modulo 2^64 even if nothing is found |
| MemoryPool.Pool.GetLeastConnectionsBackend | internal/adapters/secondary/repository/memory_pool.go:153-178 | The loop returns the least-connections choice |
| MemoryPool.Pool.GetRandomBackend | internal/adapters/secondary/repository/memory_pool.go:180-199 | The live backend that the random number points to, in pool order; one is found iff one is alive |
| MemoryPool.RandomPicksEach | internal/adapters/secondary/repository/memory_pool.go:180-199 | Every live backend is chosen by exactly one random number below the number of live backends |
| MemoryPool.Pool.GetNextHealthyBackend | internal/adapters/secondary/repository/memory_pool.go:126-151 | The configured strategy decides, a returned backend is alive, and the counter stands after one more selection |
| MemoryPool.SelectsByName | internal/adapters/secondary/repository/memory_pool.go:126-151 | least-connections and random select by their rules and leave the counter alone; round-robin, and any unknown name, takes the scan and moves it by one modulo 2^64 |
| MemoryPool.Pool.IncrementConnections | internal/adapters/secondary/repository/memory_pool.go:207-212 | Only this URL's count grows, by one, with the wrap of an int |
| MemoryPool.Pool.DecrementConnections | internal/adapters/secondary/repository/memory_pool.go:214-222 | Only this URL's count shrinks, by one, and not below zero |
| MemoryPool.NewMemoryPool | internal/adapters/secondary/repository/memory_pool.go:40-76 | The pool holds the URLs that parse, in order, all alive, with round robin from zero; it fails iff none parses |
| MemoryPool.ParsedInOrder | internal/adapters/secondary/repository/memory_pool.go:48-62 | The URLs of a list are those of its first part followed by those of the rest |
| MemoryPool.ParsedOne | internal/adapters/secondary/repository/memory_pool.go:48-62 | A raw URL gives what it parses to, or nothing |
| MemoryPool.ParsedExactly | internal/adapters/secondary/repository/memory_pool.go:48-62 | The pool knows exactly the URLs that some raw URL parses to |
| MemoryPool.MarkedLiveUrls | internal/adapters/secondary/repository/memory_pool.go:104-124 | Marking a URL dead takes exactly it out of the live set; marking it alive adds it iff the pool knows it |
| MemoryPool.SelectsExactly | internal/adapters/secondary/repository/memory_pool.go:126-251 | A selection finds a backend whenever one is alive, for every liveness pattern, exactly if its scan does not cross the counter wrap (or n divides 2^64), or for least-connections no count is the greatest int |
| LoadBalancer.LoadBalancerService.HandleRequest | internal/core/app/loadbalancer_service.go:36-91 | For every strategy: at most three distinct live backends are tried, each failure marks its own URL dead and changes nothing else, the first success ends the request; if the first selection can be trusted, 503 iff min(3, live) attempts were made and all failed |
| LoadBalancer.UnavailableIffExhaustedExactly | internal/core/app/loadbalancer_service.go:47-90 | 503 means min(3, live at the start) failed attempts and conversely, for every liveness pattern, forwarder and random source, exactly if the counter is at most 2^64−n or n divides 2^64 (round robin), or no count is the greatest int (least-connections) |
| LoadBalancer.AttemptsExactly | internal/core/app/loadbalancer_service.go:12-90 | From a start that can be trusted: when attempt k (0, 1 or 2) is the first to succeed and more than k URLs are live, the request is answered after k + 1 attempts; when all fail it makes three, or as many as URLs are live |
| LoadBalancer.UnsureGivesUp | internal/core/app/loadbalancer_service.go:53-60 | In every other state a request is answered 503 without an attempt although a backend is alive |
| LoadBalancer.RequestIsHandled | internal/core/app/loadbalancer_service.go:47-85 | Every request, also near the wrap, tries at most three distinct live backends, marks exactly the failed ones dead, and claims one counter value for each selection |
| LoadBalancer.LaterScanFinds | internal/core/app/loadbalancer_service.go:47-82 | When the first scan of a request stays clear of the wrap (or n divides 2^64), its retries may cross the counter wrap and still find a live backend whenever one is left, because what they miss is where the request's earlier scans began |
| ConcurrentRequests.UnavailableUnderConcurrency | internal/core/app/loadbalancer_service.go:47-90 | Any number of requests and failing health checks interleaved step by step: each request tries at most three URLs, all different; at a 503 all of them are dead, and they are three or, with a last claim of at most 2^64−n (or n dividing 2^64), nothing is alive |
| ConcurrentRequests.TriedOnceUnlessRevived | internal/core/app/loadbalancer_service.go:53-82 | Whatever interleaves, a request is forwarded to a URL at most once in a run in which no health check revives it |
| ConcurrentRequests.GaveUpMeansDead | internal/core/app/loadbalancer_service.go:53-60 | Whatever interleaves, also revivals of other backends, a 503 before the third attempt means that a backend which was not revived is dead, if the last claim is at most 2^64−n or n divides 2^64 |
| ConcurrentRequests.GaveUpMeansDeadExactly | internal/core/app/loadbalancer_service.go:53-60 | Without revivals, a 503 before the third attempt means that nothing is alive, for every pool state and interleaving, exactly under that condition on the claim |
| ConcurrentRequests.FailedCheckStopsTraffic | internal/core/app/health_monitor.go:63-93 | Once a health check of a URL has failed, requests that begin later are not forwarded to it until a check succeeds again |
| ConcurrentRequests.RevivalRepeats | internal/core/app/loadbalancer_service.go:47-82 | With a revival between two attempts the same URL is tried twice |
| ConcurrentRequests.EveryRequestFinishes | internal/core/app/loadbalancer_service.go:47-90 | Whatever interleaves, a request has its answer after at most 10n + 18 steps of its own |
| ConcurrentRequests.AloneIsSequential | internal/core/app/loadbalancer_service.go:47-90 | A request that runs alone, step by step, ends as the sequential loop does: same answer, same URLs in the same order, same flags and counter |
| LoadBalancer.FailuresLeaveLiveSet | internal/core/app/loadbalancer_service.go:74-82 | The live set loses exactly the URLs that failed, one for each failure |
| LoadBalancer.UnavailableExactly | internal/core/app/loadbalancer_service.go:47-90 | Provided giving up early means nothing is alive, the answer is 503 exactly when min(3, live at the start) attempts were made and all failed |
| RateLimitService.Service.CreateOrUpdateClient | internal/core/app/ratelimit_service.go:28-51 | An empty id, a capacity below 1 and a rate below 1 are refused in this order and change nothing; anything else is listed and gives a full bucket with exactly these settings, refilled now; no other client changes |
| RateLimitService.Service.RemoveClient | internal/core/app/ratelimit_service.go:54-67 | An unknown client is an error and changes nothing; a listed one, and only it, leaves both the list and the limiter; the mirror survives |
| RateLimitService.RemovedStaysAway | internal/core/app/ratelimit_service.go:54-67 | After a removal the client is neither listed nor limited, and all its requests pass, in every run until it is created again |
| RateLimitService.Service.GetClientSettings | internal/core/app/ratelimit_service.go:70-80 | The listed settings; under the mirror there are some exactly if the limiter limits the client, they are accepted ones, and the client's bucket works with their capacity and rate |
| RateLimitService.LastAcceptedIsListed | internal/core/app/ratelimit_service.go:28-80 | No run that leaves a client's settings alone changes what is listed for it |
| RateLimitService.CreatedIsReadBack | internal/core/app/ratelimit_service.go:28-80 | Accepted settings can be read back after any run that leaves the client alone |
| RateLimitService.Service.ListClients | internal/core/app/ratelimit_service.go:83-93 | Every client's settings, one entry for each client |
| RateLimitService.MirrorOverRuns | internal/core/app/ratelimit_service.go:28-67 | Over every run of create, update, remove, allow and refill, service map and limiter have the same clients and each bucket works with the listed, accepted settings |
| RateLimitService.ClientSeesItsBucket | internal/core/app/ratelimit_service.go:28-67 | Whatever the other clients do, a client whose settings are left alone sees exactly a run of its own bucket |
| RateLimitService.ServiceWindow | internal/core/app/ratelimit_service.go:28-51 | After an accepted create or update, requests let through in a window [s, t] number at most 2·capacity + rate·(t−s), end to end through service, limiter and bucket |
| RateLimitService.FailedUpdateBreaksMirror | internal/core/app/ratelimit_service.go:42-47 | With a limiter that can fail, an accepted update keeps the mirror exactly if the limiter took it or already enforced the same |
| RateLimitService.FailedRemovalBreaksMirror | internal/core/app/ratelimit_service.go:62-63 | A removal keeps the mirror exactly if the limiter took it |
| Balancing.RoundRobinStrategy.SelectBackend | internal/adapters/secondary/balancing/round_robin.go:24-34 | An empty list is an error and keeps the counter; otherwise the counter modulo the length selects and the counter moves by one modulo 2^64 |
| Balancing.PoolIsStrategyWhenAllAlive | internal/adapters/secondary/balancing/round_robin.go:24-34 | With all backends alive the pool's scan selects what the strategy selects for the same counter |
| Balancing.StrategySharesAreEqual | internal/adapters/secondary/balancing/round_robin.go:24-34 | On the list of the h live backends each is picked exactly once in h consecutive calls |

## Left out

- Float rounding: `int64(elapsed * float64(rate))` is the exact rational truncated toward zero; a value that does not fit an int64 becomes the least int64, as on amd64 (Go leaves it to the implementation). Redis numbers are integers, so Lua doubles beyond 2^53 are not modelled.
- Saturation of `time.Duration` at about 292 years, and the microsecond precision of PostgreSQL timestamps.
- Fail-open branches of `Allow` when PostgreSQL or Redis does not answer: they let the request through outside any bound. The branch taken when the script itself fails is modelled.
- LuaBucket.LuaIsEager: constant settings only, because the script applies the current rate to the whole elapsed time and storing settings does not reset the tokens; changing settings are covered by the range invariant.
- MemoryPool.Pool.GetRandomBackend: the random number is a parameter, with no distribution.
- HealthMonitor.ChecksDecideLiveness: backends with equal URLs must have agreeing checks, since with disagreeing ones the schedule decides; configuration rejects equal raw URLs.
- HybridStore.ClientSeesItsAccount: operations one after the other; the steps of concurrent `getSettings` and writes of one client are `SettingsCache`.
- LoadBalancer.LoadBalancerService.HandleRequest: a request that runs alone, with no other claim or flag write between its attempts; any number of them is `ConcurrentRequests`.
- ConcurrentRequests.UnavailableUnderConcurrency: round robin only; the scans of the other strategies look at the flags in the same way, but choose by shared counts or at random.
- Goroutines, mutexes and tickers themselves: a critical section is one step, and reads and writes under a shared lock are separate steps.
- Settings objects shared by pointer between the service, the limiter and the API handler are immutable values.
- The loops of `HealthMonitor.Start` and `refillLoop`, and every `Stop`: they only repeat or end the modelled operations.
- Reverse proxying, HTTP probes, the server, API handlers, middleware, logging, configuration loading, SQL, Redis and JSON mechanics, schema creation and `main`.
- `internal/adapters/secondary/balancing/random.go`: only membership in the given list could be stated.
