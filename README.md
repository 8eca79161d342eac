# guava_cache in Dafny

A verified model of the core of `guava_cache`, a Go loading cache in the style of Guava. Three pieces are modelled:

- **The LRU container** (`LruCache`, lru.go). It keeps a recency list, front = most recently used, and a key-to-node index.
  - `Add` has three cases. With a present key, the node takes the new entry and moves to the front. With an absent key and room, a new node is pushed to the front. With an absent key and no room, the back node is reused for the new key and a copy of its old entry is returned.
  - `Hit` moves a node to the front. `Remove` detaches a node.
  - The invariant: the list has no duplicates, each live node is indexed under its own key, and the index holds nothing else. From it, the keys in recency order are a duplicate-free list that follows a reference model (`Touch`, `Insert`, `Evicted`). A capacity bound is proved too.
- **The cache policy** (`LoadingCache`, cache_guava.go):
  - expiry after access and after write;
  - the miss / expired-or-rejected / fresh-hit branches of a read;
  - loading through a loader, with its effect on the container and the counters;
  - `Put` and `Remove`;
  - refresh after write, tracked in the set `refreshMap`;
  - one run of the periodic expiry sweep;
  - the handling of one event by the background worker.
- **The statistics** (stats.go): six counters, the `Record*` operations that add to them, a snapshot, and the integer metrics `RequestCount` and `AverageLoadPenalty`. Counters are uint64 and the load time is an int64 duration; each Go addition's wrap-around is written out (`GoInts`).

Files:
- `wrappers.dfy`: `Option`.
- `go_ints.dfy`: uint64/int64 wrap-around and Go's truncating division.
- `stats.dfy`: module `CacheStats`.
- `lru.dfy`: module `Lru`, holding the entry class, the sequence lemmas, the reference model, the invariant and the container class.
- `cache.dfy`: module `GuavaCache`.

How the model is set up:
- Time is an integer `now` passed to each operation, and durations are integers.
- The loader's answer for the key is a `Result` parameter, and the time the load took is an `elapsed` parameter.
- A single-flight call `fight(key, fn)` is the direct call `fn(key)`.
- A channel send to the event worker is an immediate call of `ProcessEvent`.
- The refresh goroutine that a read starts is handed back to the caller as `pending`, and `Refresh` is its body.
- A list element is a `NodeId`. `payload` maps every node ever created to its entry, because a Go list element keeps its `Value` after it is unlinked.
- When there is no loader, `refresh` returns before it deletes the key from `refreshMap` (cache_guava.go:154-156), so in `Refresh` the key stays marked.

## Model

| member | source | states |
|---|---|---|
| GoInts.AddU64 | stats.go:77-79 | uint64 addition: the exact sum below 2^64, the sum minus 2^64 otherwise |
| GoInts.WrapI64 | stats.go:87 | the int64 that two's-complement addition yields: congruent to the exact value modulo 2^64, and equal to it when it fits |
| GoInts.U64ToI64 | stats.go:51 | converting a uint64 count to a duration: unchanged below 2^63, minus 2^64 from 2^63 on |
| GoInts.AddI64 | stats.go:87-92 | int64 addition of the load time to the total: the exact sum when it fits, the sum minus 2^64 above the range, the sum plus 2^64 below it |
| GoInts.Quot | stats.go:51 | Go's integer `/`, which truncates toward zero. The remainder is smaller than the divisor in magnitude and has the dividend's sign, `|q| <= |a|`, and the result agrees with Euclidean division when `a >= 0 < b` |
| GoInts.DivI64 | stats.go:51 | int64 `/`: the truncated quotient, except that -2^63 / -1 overflows back to -2^63 |
| CacheStats.RequestCount | stats.go:18-20 | hits plus misses, wrapping modulo 2^64 |
| CacheStats.LoadCount | stats.go:47 | successful plus failed loads: the exact sum below 2^64, the sum minus 2^64 otherwise |
| CacheStats.AverageLoadPenalty | stats.go:46-52 | 0 when no load was counted; for a load count from 1 to 2^63-1, the total load time divided by the count, truncated toward zero, and plain division when the total is non-negative. From 2^63 loads on, the int64 division of the total by the count converted to a negative duration (count minus 2^64) |
| CacheStats.PenaltyIsQuotient | stats.go:51 | with 1 to 2^63-1 loads, int64 division of the total by the converted count never overflows, and it is the truncated quotient |
| CacheStats.AfterHits | stats.go:77-79 | adds `count` to the hit count, modulo 2^64; no other counter changes |
| CacheStats.AfterMisses | stats.go:81-83 | adds `count` to the miss count, modulo 2^64; no other counter changes |
| CacheStats.AfterLoadSuccess | stats.go:85-88 | adds 1 to the success count and the load time to the total, both wrapping; no other counter changes |
| CacheStats.AfterLoadError | stats.go:90-93 | adds 1 to the error count and the load time to the total, both wrapping; no other counter changes |
| CacheStats.AfterEviction | stats.go:95-97 | adds 1 to the eviction count only |
| CacheStats.ApplyNeverDecreases | stats.go:77-97 | a record with a non-negative argument that overflows nothing leaves every counter at least where it was |
| CacheStats.ReplayNeverDecreases | stats.go:77-97 | over any run of such records, no counter ever decreases |
| CacheStats.RequestCountFollowsRecords | stats.go:77-83 | recording `n` hits or `n` misses moves the request count by `n`, modulo 2^64 |
| CacheStats.LoadCountFollowsLoads | stats.go:85-93 | each recorded load, good or bad, adds one to the load count, modulo 2^64 |
| CacheStats.StatsCounter.constructor | stats.go:73-75 | a new counter holds all six counters at zero |
| CacheStats.StatsCounter.RecordHits | stats.go:77-79 | the counters become `AfterHits` of the old ones |
| CacheStats.StatsCounter.RecordMisses | stats.go:81-83 | the counters become `AfterMisses` of the old ones |
| CacheStats.StatsCounter.RecordLoadSuccess | stats.go:85-88 | the counters become `AfterLoadSuccess` of the old ones |
| CacheStats.StatsCounter.RecordLoadError | stats.go:90-93 | the counters become `AfterLoadError` of the old ones |
| CacheStats.StatsCounter.RecordEviction | stats.go:95-97 | the counters become `AfterEviction` of the old ones |
| CacheStats.StatsCounter.Snapshot | stats.go:99-106 | the copy equals the current counters in all six fields |
| Lru.CacheEntry.constructor | cache_entry.go:9-14 | an entry with the given key, value, access time and write time |
| Lru.WithoutAt | lru.go:72 | in a list without duplicates, unlinking the element at position `i` splices out exactly that position |
| Lru.WithoutMembers | lru.go:72 | unlinking keeps the list duplicate-free and removes exactly the unlinked element |
| Lru.MoveToFrontPermutes | lru.go:33 | moving an element to the front is a permutation: the rest keep their order, there are no duplicates, the length is the same and the multiset is equal |
| Lru.WithoutLast | lru.go:43 | unlinking the back element leaves the prefix before it, which does not contain it |
| Lru.Evicted | lru.go:43-55 | a key is evicted exactly when the added key is absent and the positive capacity is reached; the evicted key is the back one |
| Lru.InsertKeepsCapacity | lru.go:37-55 | with a positive capacity, an add to a list within capacity stays within capacity |
| Lru.InsertMembers | lru.go:26-56 | after an add, the added key is in front; the keys are the old ones plus it, minus the evicted one; there are no duplicates; the size grows by one exactly when a key is pushed with room to spare |
| Lru.TwoSlotScenario | cache_guava_test.go:38-60 | with capacity 2, adding keys 1, 2, 3 leaves 3, 2 (newest first), and a hit on 2 then makes it 2, 3 |
| Lru.KeysOfMoveToFront | lru.go:33 | moving a node to the front moves its key to the front of the keys |
| Lru.Consistent | lru.go:8-13 | the container's invariant: no node is listed twice, each listed node is indexed under its own key, each index entry names a listed node holding that key, and every node id is below the next fresh id; so every listed id is below it and every indexed node has an entry |
| Lru.ConsistentKeys | lru.go:8-13 | under the invariant, the listed keys have no duplicates, a key is indexed exactly when it is listed, and the key-to-entry map covers the index |
| Lru.MoveStep | lru.go:58-62 | moving a live node to the front keeps the invariant and moves its key to the front of the keys |
| Lru.ReplaceStep | lru.go:29-35 | giving a present key's node the new entry and moving it to the front keeps the invariant; the keys are touched and the key's entry is replaced |
| Lru.PushStep | lru.go:37-41 | pushing a new node for an absent key keeps the invariant, puts the key in front and adds its entry |
| Lru.EvictStep | lru.go:49-54 | reusing the back node for an absent key keeps the invariant; the back key is dropped and the new key goes in front |
| Lru.RecycleStep | lru.go:43-55 | in a full container, reusing the back node is exactly the reference model's add: it evicts `Evicted`, which is the back key, and the entries lose that key and gain the new one |
| Lru.UnlinkStep | lru.go:72-73 | unlinking a live node and dropping its key keeps the invariant; the keys and entries lose exactly that key |
| Lru.LruCache.KeyOrderMatchesIndex | lru.go:8-13 | a key is indexed exactly when it is in the recency list, and the entries cover exactly the index |
| Lru.LruCache.KeyOrderDistinct | lru.go:8-13 | no key is listed twice |
| Lru.LruCache.Valid | lru.go:8-13 | the container's invariant over its own list, node entries and index: every indexed node is listed and older than the next fresh id, and every listed node's key is indexed |
| Lru.LruCache.constructor | lru.go:15-20 | an empty list and index with the given capacity, satisfying the invariant |
| Lru.LruCache.Get | lru.go:22-24 | finds a node exactly when the key is indexed, and returns the indexed node; changes nothing |
| Lru.LruCache.Front | cache_guava.go:217 | the front node, or none exactly when the list is empty |
| Lru.LruCache.Next | cache_guava.go:217 | the successor of a listed node, none for the back node, and none for a node already unlinked |
| Lru.LruCache.Replace | lru.go:29-35 | the node of the present key takes the entry and moves to the front; same size, same index; the keys and entries follow `Insert` |
| Lru.LruCache.Push | lru.go:37-41 | a new node with the entry goes in front and is indexed; the size grows by one; the keys and entries follow `Insert` |
| Lru.LruCache.Recycle | lru.go:43-55 | the back node takes the entry and moves to the front; its old key leaves the index and the new key is indexed to it; the old entry is returned, and it is the reference model's evicted key |
| Lru.LruCache.Add | lru.go:26-56 | covers the three cases above. Nothing is returned exactly when the reference model evicts nothing; otherwise a fresh copy of the evicted entry is returned. The keys and entries follow `Insert`, and a positive capacity bound is kept |
| Lru.LruCache.Hit | lru.go:58-62 | a listed node moves to the front and everything else keeps its order; an unlinked node changes nothing; the invariant holds |
| Lru.LruCache.Remove | lru.go:65-75 | with the node's key not indexed: returns null and changes nothing. Otherwise it unlinks the node, drops the key, returns the entry, and keeps the invariant. For a node already unlinked whose key now belongs to another node, it drops that key and leaves the list as it was |
| GuavaCache.MinTimeDurationExcludeZero | cache_guava.go:66-72 | the result is one of the arguments, and is zero exactly when the first is zero and the second is not positive; with both positive it is the smaller; a zero first argument yields the second if it is positive; a non-positive second argument yields the first, and so does a negative first argument |
| GuavaCache.MinTimeDurationCases | cache_guava_test.go:158-216 | the cases of the repository's table test: (1s, 2s) gives 1s; the case named "2, 1" passes (1s, 2s) again, so the reversed pair (2s, 1s) is stated in its place and gives 1s; (0, 1s) gives 1s; (1s, 0) gives 1s; (0, 0) gives 0 |
| GuavaCache.CountEviction | cache_guava.go:189-191 | an eviction during a load adds one eviction to the counters, and no eviction adds nothing |
| GuavaCache.LoadingCache.constructor | cache_guava.go:44-64 | the settings as given, an empty container of the maximum size, zeroed counters and no refresh under way |
| GuavaCache.LoadingCache.Stale | cache_guava.go:240-249 | access and write times can only be stale when some expiry duration is positive, so with none nothing ever expires; times not before `now` are never stale |
| GuavaCache.LoadingCache.IsExpired | cache_guava.go:240-249 | an entry can only be expired when some expiry duration is positive, so with none nothing ever expires; an entry read and written at or after `now`, such as one just stored, is not expired |
| GuavaCache.LoadingCache.ExpiryPersists | cache_guava.go:240-249 | an entry expired at some time is expired at every later time |
| GuavaCache.LoadingCache.SweepInterval | cache_guava.go:62 | the sweep period is one of the two expiry durations; it is zero exactly when write expiry is unset and access expiry is not positive; with both positive it is the smaller |
| GuavaCache.LoadingCache.SweepScheduledWhenExpiring | cache_guava.go:297-300 | a positive expiry duration means the sweep is scheduled |
| GuavaCache.LoadingCache.ProcessEvent | cache_guava.go:312-326 | a hit event moves the node to the front and counts one hit; a remove event counts one eviction; an add event does nothing |
| GuavaCache.LoadingCache.ReadStats | cache_guava.go:287-289 | returns a copy of the counters |
| GuavaCache.LoadingCache.LoadInfo | cache_guava.go:175-203 | with no loader: `EmptyError`, nothing changes. On loader failure: the error is returned, one failed load is counted, and the container does not change. On success: a new entry stamped `now` holding the value is added as `Insert` says, one eviction is counted if there was one, then one successful load |
| GuavaCache.LoadingCache.StoreLoaded | cache_guava.go:183-192 | the new entry stamped `now` is added as `Insert` says, and an eviction is counted exactly when the reference model evicts |
| GuavaCache.LoadingCache.GetWithExpiredFunc | cache_guava.go:94-112 | a miss counts one miss and loads. An entry that is expired, or that the caller's test rejects, is loaded again with no miss counted. A fresh hit returns the stored value, sets its access time to `now`, moves its key to the front and counts one hit; it starts a refresh exactly when one is due and none is under way |
| GuavaCache.LoadingCache.ServeHit | cache_guava.go:105-111 | the fresh-hit path: value returned, access time `now`, write time and value kept, key moved to the front, one hit counted, a due refresh started |
| GuavaCache.LoadingCache.MarkRead | cache_guava.go:106-109 | a due refresh is scheduled first, then the access time becomes `now` |
| GuavaCache.LoadingCache.MustReload | cache_guava.go:103 | a present entry is reloaded when it has expired, whatever the caller's test says; without a test, exactly when it has expired |
| GuavaCache.LoadingCache.RefreshDue | cache_guava.go:137 | a refresh is due only with a positive refresh duration and a write before `now`; an entry written at or after `now`, such as one just refreshed, is never due |
| GuavaCache.LoadingCache.Get | cache_guava.go:91-93 | a read with no caller's test, with the same four clauses as `GetWithExpiredFunc` and expiry alone deciding a reload: a miss counts a miss and loads; an expired entry loads; an unexpired hit returns the value unchanged, stamps the access time, keeps the write time and every entry, moves the key to the front, counts one hit, and hands back a pending refresh exactly when one is due and the key is not already refreshing, adding the key to `refreshMap` when due; neither load path touches `refreshMap` |
| GuavaCache.LoadingCache.CheckRefreshAfterWrite | cache_guava.go:136-151 | a refresh starts exactly when the write is older than the refresh duration and the key is not being refreshed; a refresh is then marked for the key |
| GuavaCache.LoadingCache.Refresh | cache_guava.go:153-173 | with a loader, the key stops being refreshed, and a successful load writes the value and `now` into the entry itself; a failed load leaves the entry; with no loader nothing changes |
| GuavaCache.LoadingCache.Put | cache_guava.go:114-127 | a present key's entry takes the new value and keeps its times and its place; an absent key gets a new entry stamped `now`, added as `Insert` says, with no counter touched |
| GuavaCache.LoadingCache.RemoveEl | cache_guava.go:205-212 | unlinks the node, and returns its value when its key was indexed or nothing when it was not; the key leaves the entries |
| GuavaCache.LoadingCache.Remove | cache_guava.go:129-134 | an absent key changes nothing; afterwards the key is not indexed and is gone from the keys and the entries; no counter changes |
| GuavaCache.LoadingCache.FirstStale | cache_guava.go:217-218 | the first position whose times are stale, and every position before it is not stale |
| GuavaCache.LoadingCache.FirstExpired | cache_guava.go:217-218 | the first listed node whose entry has expired, and no earlier one has |
| GuavaCache.LoadingCache.SweepVisit | cache_guava.go:218-220 | a listed node is unlinked exactly when its entry has expired; its key then leaves the keys and the entries |
| GuavaCache.LoadingCache.SweepStep | cache_guava.go:217-220 | the as-written visit: a stale node is the first stale one, and its successor is then none; a kept node yields the next node in the list |
| GuavaCache.LoadingCache.ClearExpiredKey | cache_guava.go:215-223 | one run of the sweep as written unlinks the first expired entry and nothing else, or nothing when none has expired; no eviction is counted |
| GuavaCache.LoadingCache.SweepLeavesExpired | cache_guava.go:217-220 | with two expired entries, the list that one run of the sweep as written leaves still holds the second |
| GuavaCache.LoadingCache.SurvivorsMembers | cache_guava.go:217-220 | the survivors of a duplicate-free list have no duplicates, come from the list, and hold a node exactly when it is not stale |
| GuavaCache.LoadingCache.SurvivorsLive | cache_guava.go:217-220 | no surviving node's entry has expired, and every unexpired listed node survives |
| GuavaCache.LoadingCache.SurvivorEntries | cache_guava.go:215-223 | after the corrected sweep, the key-to-entry map is the old one restricted to unexpired entries |
| GuavaCache.LoadingCache.WalkShape | cache_guava.go:217-220 | after visiting `pos` nodes one at a time, the list is the survivors of the visited nodes followed by the unvisited ones |
| GuavaCache.LoadingCache.KeepStep | cache_guava.go:217-220 | the corrected visit: the successor is read first, then the node is unlinked if stale |
| GuavaCache.LoadingCache.ClearAllExpired | cache_guava.go:215-223 | the corrected sweep. The list becomes the unexpired nodes in their old order, no listed entry has expired, every unexpired node stays, and the entries are the old ones restricted to the unexpired |

## Left out

- Goroutines, channels, locks, `sync.Map` and atomic operations: the model is sequential.
  - Each send to the event worker is handled at once. The buffering of hit events and any interleaving with callers are not modelled.
  - The index is a plain map, and an atomic add is an ordinary wrapping add.
- singlefight.go: `fight(key, fn)` is `fn(key)`. The sharing of one load between concurrent callers is not modelled.
- `clearExpireKeyTask`: its timer loop is left out. The model keeps its interval (`SweepInterval`), its zero test and one run of the sweep.
- The clock: each operation takes a single `now`, while Go calls `time.Now()` afresh at each use. Times are unbounded integers, so the overflow of `now - d` for extreme durations is not modelled. The load's duration is the `elapsed` parameter.
- The loader and the caller's expiry test: the loader is a `Result` parameter, and the caller's test is a pure `V -> bool`.
- `HitRate`, `MissRate` and `LoadErrorRate` (stats.go:22-44): these are floating point.
- `Stats.String`, `toString`, `printAllCache`, `printLruCache` and the discarded `fmt.Errorf` calls: these are output only.
- The `With*` option setters and `BuildLoadingCache`:
  - The constructor takes the settings directly.
  - The builder's panic for a missing loader means callers pass `hasLoader = true`. The parameter stays so that the no-loader branches of `loadInfo` and `refresh` remain reachable.
- `Walk` and `WalkCache`: only the sweep's own walk over the list is modelled.
- `EmptyError` is not defined in the shown files and is an opaque constant. cache_entry.go's `getEntry` and `setEntry` are type assertions: a node's entry is `payload[id]`.
- Lru.LruCache.Add: the `el == nil` branch (lru.go:44-47) has no counterpart. It is unreachable, since `cap <= 0` is taken earlier and `size >= cap > 0` means the list is not empty.
- Lru.LruCache.Remove: for a node already unlinked whose key now belongs to another node, the contract states the list and index after the call, but not the invariant. In that case the invariant does not hold, because the live node stays listed without an index entry.
- GuavaCache.LoadingCache.Valid: says nothing about `refreshMap`, since the Go code keeps no invariant between it and the container.

## Findings

| source | as written | input that shows it | evidently intended | confidence | as-written member | corrected member |
|---|---|---|---|---|---|---|
| cache_guava.go:217-220 | the sweep advances with `el = el.Next()` after `removeEl(el)` has unlinked `el`. container/list clears a removed element's links, so `Next()` is nil and the loop ends at its first removal | a list whose first two entries have both expired at the sweep's time: one run removes only the first, and the second stays listed | one run removes every entry expired at its time, reading each successor before the element is unlinked | high; not executed | GuavaCache.LoadingCache.SweepLeavesExpired | GuavaCache.LoadingCache.ClearAllExpired |
