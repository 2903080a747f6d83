# LRU cache and dual token-bucket rate limiter: a Dafny model

This project models the two sequential components of a small user-lookup service.
Both have real invariants.

- **`LRUCache`** (`src/lruCache.ts`) is a bounded, insertion-ordered store. It maps a key to an entry of value and expiry instant. It has `hits`/`misses` counters and first-write-wins `set`. When full, `set` evicts the least recently used key, and it throws when there is nothing to evict. The class also has `get`, `deleteAll` and a stale sweep.
- **The `rateLimiter` decision** (`src/ratelimiter.ts`) keeps two token buckets per client address. One is sustained: 10 tokens, refilled at 10 per minute. The other is a burst bucket: 5 tokens, refilled at 5 per 10 seconds. Both are created full on first sight and refill continuously up to capacity. A request is denied when either bucket holds less than one token. Otherwise it spends one token from each.

## Layout

| file | module | contents |
|---|---|---|
| `results.dfy` | `Results` | `Option` (JavaScript `null`/`undefined`) and `Result` (a thrown `Error`) |
| `ordered_map.dfy` | `OrderedMap` | the JavaScript `Map` as a sequence of key/value pairs with distinct keys: `Has`, `Get`, `Delete`, `Put`, `FirstKey`, `Filter`, and the order relation `Subseq` ("the same elements with some left out, in the original order") |
| `lru_cache.dfy` | `LruCache` | `Entry`, `Cache`, `New`, `Size`, `Get`, `Set`, `EvictOldest`, `DeleteAll`, `SweepStale` |
| `lru_cache_properties.dfy` | `LruCacheProperties` | lemmas relating the cache operations, the size bound over any sequence of calls, and worked scenarios |
| `rate_limiter.dfy` | `RateLimiter` | `Bucket`, `ClientBuckets`, the `Clients` table, `Refill`, `Check` |
| `rate_limiter_properties.dfy` | `RateLimiterProperties` | token bounds, first request, burst of five then a denial, recovery, stability of a denial |

Modelling choices:

- Each operation is a pure function. It takes the old state and returns the new state together with the result.
- `Date.now()` is an explicit `now: int` (milliseconds) parameter.
- The cache's map is `seq<(K, Entry<V>)>`. The front is the least recently used entry and the back the most recently used.
- The key type `K` and the value type `V` (a `User` in the service) are type parameters.
- Token counts and refill rates are exact `real`s, and instants are `int`s.
- The rate limiter's module-level `clients` map becomes a `map<string, ClientBuckets>`. It is passed in and returned.
- `req.ip` becomes an `Option<string>`.
- The `429` response and the `next()` call become `Deny` and `Allow`.
- The two `throw`s become `Err` results, and neither changes any state. One is `set` finding no key to evict. The other is an undefined client address.

Two edge cases of the class follow from the code:

- **When an entry goes stale.** `get` tests `now > expiresAt` (src/lruCache.ts:51) and `sweepStale` tests `expiresAt < now` (src/lruCache.ts:109). These are the same strict comparison. So an entry read exactly at `expiresAt` is still a hit and survives a sweep. The model uses one predicate, `LruCache.Expired`, for both. A time-to-live of 0 therefore gives an entry that stays fresh for the rest of the millisecond it was written in.
- **Capacity <= 0.** The class does not validate `capacity`. `set` of a new key checks `size >= capacity` (src/lruCache.ts:73). On an empty map it then throws "Unexpected undefined key when evicting LRU". On a non-empty map it evicts the front key and inserts, so the size stays above the capacity.

## Model

| member | source | states |
|---|---|---|
| `LruCache.New` | src/lruCache.ts:17-27 | a new cache is empty, with both counters at zero and the given time-to-live and capacity, and satisfies the cache invariant |
| `LruCache.Size` | src/lruCache.ts:33-35 | `size` is the number of distinct keys held |
| `LruCache.Get` | src/lruCache.ts:41-62 | an absent key is a miss: `misses` + 1, `hits` unchanged, map unchanged. A stale key (`now > expiresAt`) is a miss that removes exactly that key and keeps the others in order. A fresh key is a hit: its value is returned, `hits` + 1, its untouched entry moves to the back, and the others keep their order |
| `LruCache.EvictOldest` | src/lruCache.ts:73-83 | the eviction step fails exactly when the map is empty. Otherwise it removes exactly the first pair |
| `LruCache.Set` | src/lruCache.ts:67-90 | a present key, even a stale one, leaves the cache identical. A new key below capacity is appended with `expiresAt = now + ttlMs`. A new key at or over capacity first drops the front entry, keeping the rest in order. A new key with nothing to evict is the "Unexpected undefined key when evicting LRU" error. Success keeps keys distinct |
| `LruCache.DeleteAll` | src/lruCache.ts:95-99 | the result is empty with `hits == misses == 0` and keeps its configuration |
| `LruCache.SweepStale` | src/lruCache.ts:105-113 | survivors are an order-preserving subsequence, no survivor is stale, every fresh entry survives, and the counters are unchanged |
| `LruCacheProperties.GetHitKeepsEntries` | src/lruCache.ts:56-61 | a hit keeps the same pairs, so the keys and the `expiresAt` values are unchanged and the TTL is not refreshed. Only the hit key moves, to the last position |
| `LruCacheProperties.GetStaleDeletesOnlyKey` | src/lruCache.ts:50-55 | a stale read returns nothing and removes that key's pair and no other |
| `LruCacheProperties.GetKeepsValid` | src/lruCache.ts:41-62 | `get` preserves distinct keys and `size <= capacity` |
| `LruCacheProperties.SetPresentIsNoOp` | src/lruCache.ts:68-69 | first write wins: `set` of a present key returns the cache unchanged |
| `LruCacheProperties.SetEvictsOldest` | src/lruCache.ts:71-89 | `set` of a new key into a full cache removes exactly the least recently used key and appends the new key last. The size stays the same, and the result holds exactly the new pair and the other old pairs |
| `LruCacheProperties.SetKeepsValid` | src/lruCache.ts:71-89 | a successful `set` preserves distinct keys and `size <= capacity` |
| `LruCacheProperties.SetSucceedsWithPositiveCapacity` | src/lruCache.ts:73-82 | with `capacity >= 1`, `set` never throws |
| `LruCacheProperties.SetThrowsOnlyWhenNothingToEvict` | src/lruCache.ts:73-82 | `set` throws if and only if the key is new, the map is empty and `capacity <= 0` |
| `LruCacheProperties.SweepStaleExact` | src/lruCache.ts:105-113 | the sweep keeps exactly the pairs with `expiresAt >= now` |
| `LruCacheProperties.SweepStaleIdempotent` | src/lruCache.ts:105-113 | a second sweep at the same instant changes nothing |
| `LruCacheProperties.SweepStaleKeepsValid` | src/lruCache.ts:105-113 | the sweep preserves distinct keys and `size <= capacity` |
| `LruCacheProperties.DeleteAllThenGetMisses` | src/lruCache.ts:95-99 | after `deleteAll` any `get` misses, and it is the only miss counted |
| `LruCacheProperties.RunKeepsValid` | src/lruCache.ts:73-89 | for any sequence of `get`/`set`/`sweepStale`/`deleteAll` calls, with `capacity >= 1`, the size never exceeds the capacity |
| `LruCacheProperties.LruScenario` | src/lruCache.ts:41-90 | with capacity 2: `set(1)`, `set(2)`, `get(1)`, `set(3)` evicts key 2. Then `get(2)` misses while `get(1)` and `get(3)` hit |
| `LruCacheProperties.TtlScenario` | src/lruCache.ts:50-55 | an entry written at `t` with TTL 40000 still hits at `t + 40000`. At `t + 40001` the read misses and deletes the entry, so a new `set` of that key then takes effect |
| `LruCacheProperties.NoOverwriteScenario` | src/lruCache.ts:67-69 | `set(1, a)` then `set(1, b)`: a fresh `get(1)` returns `a` |
| `RateLimiter.FullBuckets` | src/ratelimiter.ts:21-36 | a new client gets a full sustained bucket (10 tokens, 10/60000 per ms) and a full burst bucket (5 tokens, 5/10000 per ms), both last refilled now |
| `RateLimiter.Refill` | src/ratelimiter.ts:40-44 | the refilled tokens are the minimum of the capacity and the old tokens plus elapsed time times rate, so they never exceed the capacity. `lastRefill` becomes now, and capacity and rate are unchanged |
| `RateLimiter.Check` | src/ratelimiter.ts:16-62 | an undefined address is an error. Otherwise the decision is Deny if and only if either refilled bucket holds less than 1 token. A denial stores the refilled buckets and consumes nothing. An allow takes exactly one token from each. The requesting client is added if new, and every other client's entry is unchanged |
| `RateLimiterProperties.RefillKeepsBounds` | src/ratelimiter.ts:40-44 | with the clock not running backwards, a refill keeps `0 <= tokens <= capacity` and never loses tokens |
| `RateLimiterProperties.CheckKeepsTokenBounds` | src/ratelimiter.ts:40-53 | if every bucket held `0 <= tokens <= capacity` with `lastRefill <= now`, the same holds for every bucket after `check` |
| `RateLimiterProperties.UndefinedIpIsError` | src/ratelimiter.ts:55-57 | an undefined client address throws: the result is neither allow nor deny |
| `RateLimiterProperties.FirstRequestAllowed` | src/ratelimiter.ts:21-36 | a client's first request is allowed and leaves 9 sustained and 4 burst tokens |
| `RateLimiterProperties.BurstAllowed` | src/ratelimiter.ts:46-53 | a new client's first `n <= 5` requests at one instant are all allowed, leaving `10 - n` and `5 - n` tokens |
| `RateLimiterProperties.SixthRequestDenied` | src/ratelimiter.ts:46-50 | the sixth request at the same instant is denied and changes nothing, because the burst bucket is empty |
| `RateLimiterProperties.RecoversAfterBurstInterval` | src/ratelimiter.ts:40-53 | 10 seconds after exhausting the burst, the burst bucket is full again and the next request is allowed |
| `RateLimiterProperties.DenyIsStable` | src/ratelimiter.ts:40-50 | for any table, a second request at the instant of a denial is denied again and leaves the table unchanged |

## Left out

- `src/index.ts`: the Express routes, parsing of the user id, HTTP status mapping, `app.listen`, and the 10-second `setInterval` that calls `sweepStale`. These are I/O and timers; the sweep itself is modelled.
- The request coalescing in `src/index.ts` (the `inProgress` map of promises). It is about concurrent callers awaiting one shared promise and has no sequential counterpart here.
- The average response time statistics in `src/index.ts`. They are floating-point division over wall-clock time.
- `src/asyncQueue.ts`: it bounds the number of async jobs running at once through promise callbacks and `await`. That is concurrency, not sequential logic.
- `src/mockData.ts`: it is fixture data only. The cached value is the type parameter `V`.
- `Date.now()` is not called. Every operation takes `now`.
- IEEE-754 doubles: token arithmetic is exact over `real`, so rounding, `NaN` and infinities are not modelled.
- `ttlMs` and `capacity` are modelled as finite whole numbers (`int`). The JavaScript constructor takes any number. So `Infinity`, which gives an unbounded cache, cannot be written. Nor can a fractional capacity such as `2.5`, which first evicts at size 3. The constructor's optional arguments are explicit parameters of `LruCache.New`, and their defaults are the constants `LruCache.DefaultTtlMs` (40000) and `LruCache.DefaultCapacity` (10).
- Counters and instants are unbounded integers. JavaScript numbers lose integer precision above 2^53, and that loss is not modelled.
- Mutation in place. The cache object and the module-level `clients` map are replaced by values passed in and returned. Interleaving between concurrent requests is not modelled.
- `RateLimiterProperties.CheckKeepsTokenBounds` assumes the clock does not run backwards (`lastRefill <= now`) and that refill rates are non-negative. The code does not enforce this. If the clock runs backwards, `Refill` as modelled lowers the tokens, possibly below zero, exactly as the code would.
