/**
 Many `cacheServices` calls in a row, the sequential outcome of callers racing
 to fill the cache after it was reclaimed: one map is installed, every entry
 lands in it, and the last store under a key wins. The batch is a trace of
 stores in the sense of `CacheTrace` (`AsStores`): `CacheAll` keeps its
 result equal to the replay of that trace, and its contract follows from the
 trace lemmas through `BatchLookups` and `BatchLivenessAndInstalls`.
 */
module CacheBatch {
  import opened Options
  import opened OrderedServicesCache
  import opened CacheTrace

  /** The arguments of one `cacheServices` call. */
  datatype Entry<C, T, V> = Entry(spiClass: C, types: seq<T>, services: V)

  /** The batch as a trace of stores, in the same order. */
  function AsStores<C, T, V>(batch: seq<Entry<C, T, V>>): seq<Op<C, T, V>>
  {
    seq(|batch|, i requires 0 <= i < |batch| => StoreOp(batch[i].spiClass, batch[i].types, batch[i].services))
  }

  function KeyOf<C, T, V>(e: Entry<C, T, V>): Key<C, T>
  {
    Key(e.spiClass, e.types)
  }

  /** `batch[i]` is the last entry of the batch under its key. */
  ghost predicate LastUnderKey<C, T, V>(batch: seq<Entry<C, T, V>>, i: int)
  {
    0 <= i < |batch| && forall j :: i < j < |batch| ==> KeyOf(batch[j]) != KeyOf(batch[i])
  }

  /** No entry of the batch has key `k`. */
  ghost predicate KeyAbsent<C, T, V>(batch: seq<Entry<C, T, V>>, k: Key<C, T>)
  {
    forall j :: 0 <= j < |batch| ==> KeyOf(batch[j]) != k
  }

  /** Replaying one more entry of the batch is one more store step, which
      installs a map exactly when the holder it meets is reclaimed. */
  lemma ReplayOneMore<C(!new), T(!new), V>(h: Cache<C, T, V>, batch: seq<Entry<C, T, V>>, n: int)
    requires 0 <= n < |batch|
    ensures Run(h, AsStores(batch[..n + 1]))
         == CacheServices(Run(h, AsStores(batch[..n])), batch[n].spiClass, batch[n].types, batch[n].services)
    ensures Installs(h, AsStores(batch[..n + 1]))
         == Installs(h, AsStores(batch[..n])) + (if Run(h, AsStores(batch[..n])).Reclaimed? then 1 else 0)
  {
    var ops := AsStores(batch[..n + 1]);
    assert ops[..n] == AsStores(batch[..n]);
    assert ops[n] == StoreOp(batch[n].spiClass, batch[n].types, batch[n].services);
  }

  /** After replaying a batch as a trace of stores, the last entry under
      each key is found, and keys outside the batch answer as before. */
  lemma BatchLookups<C(!new), T(!new), V>(h: Cache<C, T, V>, batch: seq<Entry<C, T, V>>)
    ensures forall i :: LastUnderKey(batch, i) ==>
              Lookup(Run(h, AsStores(batch)), KeyOf(batch[i])) == Some(batch[i].services)
    ensures forall k :: KeyAbsent(batch, k) ==> Lookup(Run(h, AsStores(batch)), k) == Lookup(h, k)
  {
    var ops := AsStores(batch);
    forall i | LastUnderKey(batch, i)
      ensures Lookup(Run(h, ops), KeyOf(batch[i])) == Some(batch[i].services)
    {
      assert StoredAt(ops, i, KeyOf(batch[i]), batch[i].services);
      RunLookup(h, ops, KeyOf(batch[i]), batch[i].services);
    }
    forall k | KeyAbsent(batch, k)
      ensures Lookup(Run(h, ops), k) == Lookup(h, k)
    {
      assert SurvivesAfter(ops, -1, k);
      assert forall i, v :: !StoredAt(ops, i, k, v);
      var r := Lookup(Run(h, ops), k);
      if r.Some? {
        RunLookup(h, ops, k, r.value);
      }
      if Lookup(h, k).Some? {
        RunLookup(h, ops, k, Lookup(h, k).value);
      }
    }
  }

  /** A batch replayed as a trace of stores leaves the holder live exactly
      when it was live or the batch is not empty, and installs one map exactly
      when it starts reclaimed and the batch is not empty. */
  lemma BatchLivenessAndInstalls<C(!new), T(!new), V>(h: Cache<C, T, V>, batch: seq<Entry<C, T, V>>)
    ensures Run(h, AsStores(batch)).Live? <==> h.Live? || |batch| > 0
    ensures Installs(h, AsStores(batch)) == (if h.Reclaimed? && |batch| > 0 then 1 else 0)
  {
    var ops := AsStores(batch);
    assert forall i :: -1 <= i < |ops| ==> NoReclaimAfter(ops, i);
    RunLiveness(h, ops);
    SingleInstall(h, ops);
    if |batch| > 0 {
      assert ops[|ops| - 1].StoreOp?;
      assert LiveStoreIn(ops) && HasStore(ops);
    }
  }

  /** Store every entry of `batch`, oldest first, as `cacheServices` calls.
      `installs` counts the maps created by the lazy re-creation: one if the
      holder started reclaimed and the batch is not empty, none otherwise. The
      loop replays the batch as a trace of stores (`CacheTrace.Run`,
      `CacheTrace.Installs`); `BatchLookups` and `BatchLivenessAndInstalls`
      state the trace-side facts the contract is drawn from. */
  method CacheAll<C(==,!new), T(==,!new), V>(h: Cache<C, T, V>, batch: seq<Entry<C, T, V>>)
    returns (h': Cache<C, T, V>, installs: nat)
    ensures h'.Live? <==> h.Live? || |batch| > 0
    ensures installs == (if h.Reclaimed? && |batch| > 0 then 1 else 0)
    ensures forall i :: LastUnderKey(batch, i) ==>
              Lookup(h', KeyOf(batch[i])) == Some(batch[i].services)
    ensures forall k :: KeyAbsent(batch, k) ==> Lookup(h', k) == Lookup(h, k)
  {
    h' := h;
    installs := 0;
    var n := 0;
    assert AsStores(batch[..0]) == [];
    while n < |batch|
      invariant 0 <= n <= |batch|
      invariant h' == Run(h, AsStores(batch[..n]))
      invariant installs == Installs(h, AsStores(batch[..n]))
    {
      var e := batch[n];
      ReplayOneMore(h, batch, n);
      if h'.Reclaimed? {
        installs := installs + 1;
      }
      h' := CacheServices(h', e.spiClass, e.types, e.services);
      n := n + 1;
    }
    assert batch[..n] == batch;
    BatchLookups(h, batch);
    BatchLivenessAndInstalls(h, batch);
  }
}
