/**
 A model of `OrderedServicesCache`: a process-wide memo of the ordered SPI
 instances found for an SPI interface and a collection of types.

 The Java class keeps the map behind a `SoftReference`, which the garbage collector
 may clear at any moment. Here the reference is a `Holder` value: either it
 still carries the live map, or it has been reclaimed. Reclamation is an
 explicit transition (`Reclaim`) that the environment may take between any two
 calls. Every operation is a pure function from the holder before the call to
 the holder after it.
 */
module OrderedServicesCache {
  import opened Options

  /** The cache key: an SPI interface plus the discriminating types.
      Equality is structural over both fields. In `OrderedServicesCache.java` `types` is a
      `java.util.Collection`, whose `equals` depends on its runtime class; this
      model fixes it as a sequence, so equality is order-sensitive as for a
      `List`: `[A, B]` and `[B, A]` are two different keys. */
  datatype Key<C, T> = Key(clazz: C, types: seq<T>)

  /** The soft-referenced holder of the cache map. */
  datatype Holder<K(==), V> = Reclaimed | Live(services: map<K, V>)

  /** The holder of this cache: keys are `Key`s, values are opaque service tables. */
  type Cache<C(==), T(==), V> = Holder<Key<C, T>, V>

  /** What a read of key `k` sees: a reclaimed holder answers nothing, a live
      one answers its entry for `k`, if any. */
  function Lookup<K(==,!new), V>(h: Holder<K, V>, k: K): Option<V>
  {
    if h.Live? && k in h.services then Some(h.services[k]) else None
  }

  /** The state at class initialisation: a live, empty map. */
  function Initial<K(==,!new), V>(): (h: Holder<K, V>)
    ensures h.Live?
    ensures forall k :: Lookup(h, k) == None
  {
    Live(map[])
  }

  /** `findCachedServices`: a pure read that never installs a map. A reclaimed
      holder misses; a live one hits exactly when it holds the key. */
  function FindCachedServices<C(==,!new), T(==,!new), V>(h: Cache<C, T, V>, spiClass: C, types: seq<T>): (r: Option<V>)
    // Implied by the next clause; kept so that the miss on a reclaimed holder reads directly.
    ensures h.Reclaimed? ==> r == None
    ensures r.Some? <==> h.Live? && Key(spiClass, types) in h.services
    ensures r.Some? ==> r.value == h.services[Key(spiClass, types)]
  {
    Lookup(h, Key(spiClass, types))
  }

  /** The lazy (re-)creation at the head of `cacheServices`: keep the live map
      if there is one, otherwise install a fresh empty one. Only the sequential
      outcome of the double-checked lock is modelled: exactly one map. */
  function EnsureLive<K(==,!new), V>(h: Holder<K, V>): (h': Holder<K, V>)
    ensures h'.Live?
    ensures h.Live? ==> h' == h
    ensures forall k :: Lookup(h', k) == Lookup(h, k)
  {
    if h.Live? then h else Live(map[])
  }

  /** `cacheServices` with non-null `services`: make the holder live, then put
      the entry, overwriting any earlier value under the same key. */
  function CacheServices<C(==,!new), T(==,!new), V>(h: Cache<C, T, V>, spiClass: C, types: seq<T>, services: V): (h': Cache<C, T, V>)
    ensures h'.Live?
    ensures Lookup(h', Key(spiClass, types)) == Some(services)
    ensures forall k :: k != Key(spiClass, types) ==> Lookup(h', k) == Lookup(h, k)
    ensures h'.services.Keys == (if h.Live? then h.services.Keys else {}) + {Key(spiClass, types)}
  {
    var live := EnsureLive(h);
    Live(live.services[Key(spiClass, types) := services])
  }

  /** How a call of `cacheServices` ends: normally, or with the
      `NullPointerException` that `ConcurrentHashMap.put` throws for a null
      value. Either way `after` is the holder the call leaves behind. */
  datatype StoreOutcome<H> = Stored(after: H) | NullPointer(after: H)

  /** `cacheServices` with a possibly-null `services` (`None` is Java's null).
      The map is installed before `put` rejects the null value, so a failed
      call still leaves the holder live, but with every entry as it was. */
  function CacheServicesNullable<C(==,!new), T(==,!new), V>(h: Cache<C, T, V>, spiClass: C, types: seq<T>, services: Option<V>)
    : (r: StoreOutcome<Cache<C, T, V>>)
    ensures r.after.Live?
    ensures r.Stored? <==> services.Some?
    ensures services.Some? ==> r.after == CacheServices(h, spiClass, types, services.value)
    ensures r.NullPointer? ==> forall k :: Lookup(r.after, k) == Lookup(h, k)
  {
    match services
    case Some(s) => Stored(CacheServices(h, spiClass, types, s))
    case None => NullPointer(EnsureLive(h))
  }

  /** `clearCache`: empty a live map in place; a reclaimed holder stays
      reclaimed and no map is created. */
  function ClearCache<K(==,!new), V>(h: Holder<K, V>): (h': Holder<K, V>)
    ensures h'.Live? <==> h.Live?
    ensures forall k :: Lookup(h', k) == None
  {
    if h.Live? then Live(map[]) else h
  }

  /** The collector clearing the soft reference: nothing is live afterwards. */
  function Reclaim<K(==,!new), V>(h: Holder<K, V>): (h': Holder<K, V>)
    ensures !h'.Live?
    ensures forall k :: Lookup(h', k) == None
  {
    Reclaimed
  }

  /** A find right after a store of the same key returns the stored value,
      whether or not the holder was live before the store. */
  lemma FindAfterStore<C(!new), T(!new), V>(h: Cache<C, T, V>, spiClass: C, types: seq<T>, services: V)
    ensures FindCachedServices(CacheServices(h, spiClass, types, services), spiClass, types) == Some(services)
  {
  }

  /** Storing into a reclaimed holder leaves it live with exactly one entry. */
  lemma StoreIntoReclaimed<C(!new), T(!new), V>(spiClass: C, types: seq<T>, services: V)
    ensures CacheServices(Reclaimed, spiClass, types, services) == Live(map[Key(spiClass, types) := services])
  {
    var h' := CacheServices(Reclaimed, spiClass, types, services);
    assert h'.services.Keys == {Key(spiClass, types)};
  }

  /** A store under one key leaves every find under another key as it was;
      in particular the same interface with different types is another key. */
  lemma StoreKeepsOtherKeys<C(!new), T(!new), V>(h: Cache<C, T, V>, spiClass: C, types: seq<T>, services: V,
                                            otherClass: C, otherTypes: seq<T>)
    requires otherClass != spiClass || otherTypes != types
    ensures FindCachedServices(CacheServices(h, spiClass, types, services), otherClass, otherTypes)
         == FindCachedServices(h, otherClass, otherTypes)
  {
  }

  /** Two stores under the same key: the later one wins, and the earlier one
      leaves no trace. */
  lemma LastWriterWins<C(!new), T(!new), V>(h: Cache<C, T, V>, spiClass: C, types: seq<T>, first: V, second: V)
    ensures CacheServices(CacheServices(h, spiClass, types, first), spiClass, types, second)
         == CacheServices(h, spiClass, types, second)
  {
  }

  /** Right after a clear every find misses. That the misses last until the
      next store under the key is `CacheTrace.ClearedKeyMisses`. */
  lemma ClearThenFind<C(!new), T(!new), V>(h: Cache<C, T, V>, spiClass: C, types: seq<T>)
    ensures FindCachedServices(ClearCache(h), spiClass, types) == None
    ensures ClearCache(h).Live? == h.Live?
  {
  }
}
