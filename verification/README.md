# OrderedServicesCache, modelled in Dafny

ShardingSphere's `OrderedServicesCache` memoises the ordered SPI instances found
for an SPI interface (`spiClass`) and a collection of discriminating `types`.
The map lives behind a `SoftReference`, so the garbage collector may drop the
whole cache at any moment. `findCachedServices` reads without ever creating a
map. `cacheServices` re-creates the map if it was dropped, then puts the entry.
`clearCache` empties the live map in place, or does nothing if there is none.

The model is functional. The soft reference is a `Holder` that is either
`Live(services)` or `Reclaimed`. Each public operation is a pure function from
the holder before the call to the holder after it, or to the answer of a read.
The collector is an explicit `Reclaim` transition that may occur between any two
calls. The key is `Key(clazz, types)` with structural equality over both fields.
`types` is a sequence, so `[A, B]` and `[B, A]` are different keys, as for a
`java.util.List`.

Files:
- `options.dfy`: `Option`, standing for Java's `Optional` and for a nullable argument.
- `ordered_services_cache.dfy`: the key, the holder, the operations and their single-call properties.
- `cache_trace.dfy`: traces of calls and reclamations, with declarative readings of what a find sees, when the holder is live and how many maps are installed.
- `cache_batch.dfy`: a burst of stores into one holder, as a loop.
- `cache_scenarios.dfy`: concrete call sequences.

Two behaviours of the code shape the model:
- The map exists from class initialisation (`OrderedServicesCache.java:48`), so `Initial` is live. A map is created again only by a store after a reclamation.
- A store of a null value fails: `ConcurrentHashMap.put` throws `NullPointerException` after the map has been re-created (lines 70-79). `CacheServicesNullable` models that path.

## Model

| member | source | states |
|---|---|---|
| OrderedServicesCache.Initial | infra/spi/src/main/java/org/apache/shardingsphere/infra/spi/type/ordered/cache/OrderedServicesCache.java:48 | The initial holder is live, and every lookup in it misses. |
| OrderedServicesCache.FindCachedServices | infra/spi/src/main/java/org/apache/shardingsphere/infra/spi/type/ordered/cache/OrderedServicesCache.java:57-59 | A find on a reclaimed holder is empty. On a live holder it hits exactly when the map holds `Key(spiClass, types)`, and then it returns that entry. |
| OrderedServicesCache.EnsureLive | infra/spi/src/main/java/org/apache/shardingsphere/infra/spi/type/ordered/cache/OrderedServicesCache.java:69-78 | The lazy re-creation always yields a live holder. A live holder is kept as it is, so no entry is lost. A reclaimed one is replaced by a map that answers no lookup. |
| OrderedServicesCache.CacheServices | infra/spi/src/main/java/org/apache/shardingsphere/infra/spi/type/ordered/cache/OrderedServicesCache.java:68-80 | After a store the holder is live and the key maps to the stored value. Every other key answers as before. The key set is the old one, or empty if reclaimed, plus the new key. |
| OrderedServicesCache.CacheServicesNullable | infra/spi/src/main/java/org/apache/shardingsphere/infra/spi/type/ordered/cache/OrderedServicesCache.java:68-80 | A non-null value is stored as by `CacheServices`. A null value ends in a null-pointer failure that still leaves the holder live, with every lookup answering as before. |
| OrderedServicesCache.ClearCache | infra/spi/src/main/java/org/apache/shardingsphere/infra/spi/type/ordered/cache/OrderedServicesCache.java:85-90 | A clear keeps the holder live exactly when it was live, so no map is created. Afterwards every lookup misses. |
| OrderedServicesCache.Reclaim | infra/spi/src/main/java/org/apache/shardingsphere/infra/spi/type/ordered/cache/OrderedServicesCache.java:48 | Once the soft reference is cleared, the holder is not live and every lookup misses. |
| OrderedServicesCache.FindAfterStore | infra/spi/src/main/java/org/apache/shardingsphere/infra/spi/type/ordered/cache/OrderedServicesCache.java:57-80 | A find right after a store with the same class and types returns the stored value, whether the holder was live or reclaimed. |
| OrderedServicesCache.StoreIntoReclaimed | infra/spi/src/main/java/org/apache/shardingsphere/infra/spi/type/ordered/cache/OrderedServicesCache.java:69-79 | A store into a reclaimed holder leaves a live map with exactly one entry, the new one. |
| OrderedServicesCache.StoreKeepsOtherKeys | infra/spi/src/main/java/org/apache/shardingsphere/infra/spi/type/ordered/cache/OrderedServicesCache.java:92-99 | A store leaves the find of any key differing in class or in types unchanged. The same class with other types is a separate entry. |
| OrderedServicesCache.LastWriterWins | infra/spi/src/main/java/org/apache/shardingsphere/infra/spi/type/ordered/cache/OrderedServicesCache.java:79 | Two stores under one key leave the same holder as the second store alone. |
| OrderedServicesCache.ClearThenFind | infra/spi/src/main/java/org/apache/shardingsphere/infra/spi/type/ordered/cache/OrderedServicesCache.java:85-90 | Every find after a clear misses, and the clear does not change whether the holder is live. |
| CacheTrace.RunLookup | infra/spi/src/main/java/org/apache/shardingsphere/infra/spi/type/ordered/cache/OrderedServicesCache.java:57-90 | For any starting holder and any trace, a find of `k` sees `v` if and only if one of two things holds. Either some store of `v` under `k` has not been followed by a store under `k`, a clear or a reclamation. Or nothing touched `k` and the starting holder held `v`. |
| CacheTrace.FreshCacheLookup | infra/spi/src/main/java/org/apache/shardingsphere/infra/spi/type/ordered/cache/OrderedServicesCache.java:48-90 | Starting from the initial cache, a find hits if and only if some store under its key has not been overridden since. |
| CacheTrace.RunLiveness | infra/spi/src/main/java/org/apache/shardingsphere/infra/spi/type/ordered/cache/OrderedServicesCache.java:57-90 | After a trace the holder is live if and only if some store came after the last reclamation, or the holder started live and nothing was reclaimed. Finds and clears never create or drop a map. |
| CacheTrace.ReadsAndClearsNeverAllocate | infra/spi/src/main/java/org/apache/shardingsphere/infra/spi/type/ordered/cache/OrderedServicesCache.java:57-90 | A reclaimed holder stays reclaimed through any trace with no store. |
| CacheTrace.SingleInstall | infra/spi/src/main/java/org/apache/shardingsphere/infra/spi/type/ordered/cache/OrderedServicesCache.java:69-78 | With no reclamation, a trace creates exactly one map if it starts reclaimed and holds a store, and none otherwise. |
| CacheTrace.FindsLeaveNoTrace | infra/spi/src/main/java/org/apache/shardingsphere/infra/spi/type/ordered/cache/OrderedServicesCache.java:57-59 | Dropping every find from a trace leaves the final holder unchanged. |
| CacheTrace.ClearedKeyMisses | infra/spi/src/main/java/org/apache/shardingsphere/infra/spi/type/ordered/cache/OrderedServicesCache.java:57-90 | After a clear, a find of a key misses until the next store under that key, whatever else happens in between. |
| CacheTrace.FindsOnFreshCacheMiss | infra/spi/src/main/java/org/apache/shardingsphere/infra/spi/type/ordered/cache/OrderedServicesCache.java:48-59 | On the initial cache, every find of a trace without a store misses. |
| CacheBatch.CacheAll | infra/spi/src/main/java/org/apache/shardingsphere/infra/spi/type/ordered/cache/OrderedServicesCache.java:68-80 | After storing a batch in order, the holder is live if it was live or the batch is non-empty. One map is created if the holder started reclaimed and the batch is non-empty, and none otherwise. The last entry under each key is found, and keys outside the batch answer as before. |
| CacheBatch.BatchLookups | infra/spi/src/main/java/org/apache/shardingsphere/infra/spi/type/ordered/cache/OrderedServicesCache.java:57-80 | When a batch is replayed as a trace of stores, the last entry under each key is found, and every key outside the batch answers as the starting holder did. |
| CacheBatch.BatchLivenessAndInstalls | infra/spi/src/main/java/org/apache/shardingsphere/infra/spi/type/ordered/cache/OrderedServicesCache.java:68-79 | A batch replayed as a trace of stores leaves the holder live exactly when it started live or the batch is non-empty. It creates one map exactly when it starts reclaimed and the batch is non-empty. |
| CacheScenarios.StoreFindClear | infra/spi/src/main/java/org/apache/shardingsphere/infra/spi/type/ordered/cache/OrderedServicesCache.java:57-90 | On a fresh cache: store `(1, [])`, then the find of `(1, [])` hits and the find of `(1, [7])` misses. After a clear, the find of `(1, [])` misses. |
| CacheScenarios.TypesAreOrdered | infra/spi/src/main/java/org/apache/shardingsphere/infra/spi/type/ordered/cache/OrderedServicesCache.java:92-99 | A store under types `[2, 3]` is not found under `[3, 2]`, but is found under `[2, 3]`. |
| CacheScenarios.StoreAfterReclaim | infra/spi/src/main/java/org/apache/shardingsphere/infra/spi/type/ordered/cache/OrderedServicesCache.java:57-80 | After a reclamation the old entry misses. A new store is then found, and the old key still misses. |

## Left out

- Garbage collection and `SoftReference` semantics: memory pressure cannot be modelled, so reclamation is the explicit, freely interleaved `Reclaim` step.
- The `volatile` field and the double-checked `synchronized` block: only the sequential outcome is modelled, which is one map installed and then written to. Each call holds the map strongly in a local variable from its `get()` to its last use, so the map is not softly reachable meanwhile and a reclamation can only fall between calls. That is why each call is atomic with respect to `Reclaim`.
- The `ConcurrentHashMap` initial capacity 128 and load factor 1F: performance tuning with no observable effect.
- `Class<?>` identity and the contents of the cached `Map<?, ?>`: these are opaque type parameters.
- The runtime class of the `types` collection: its `equals` decides key equality. The model fixes it as an order-sensitive sequence, like a `List`. A `Set` would make permuted types collide.
- A store of a null value is not a trace step: the trace lemmas (`CacheTrace.RunLookup`, `CacheTrace.RunLiveness`, `CacheTrace.SingleInstall`) cover only stores of non-null values. A null store into a reclaimed holder still creates a map before it fails; `CacheServicesNullable` states that on its own.
- The `types` collection is kept by reference: neither `Key` nor `ConcurrentHashMap` copies it. A caller that mutates it after a store changes that key in place, and the entry can then no longer be found. The model treats `types` as an immutable value.
- A null `types` collection: Lombok's `equals` accepts it, but a sequence cannot be null.
- `GlobalDataSourceRegistry.java`: a singleton exposing two bare concurrent maps, with no logic of its own.
- `OrderedSPI.java`: an interface declaration (`getOrder`, `getTypeClass`) with no behaviour.
