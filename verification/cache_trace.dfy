/**
 Sequences of calls on the cache, interleaved with reclamation by the
 collector, and what a find sees at the end of such a sequence.

 `Run` replays a trace operation by operation. The lemmas compare it with
 declarative readings of the same trace: which store a find sees, when the
 holder is live, how many maps are ever installed.
 */
module CacheTrace {
  import opened Options
  import opened OrderedServicesCache

  /** One call on the cache, or the collector clearing the soft reference.
      A trace's stores carry non-null services: the failing store of a null
      value (`CacheServicesNullable`) is not a trace step. */
  datatype Op<C, T, V> =
    | FindOp(spiClass: C, types: seq<T>)
    | StoreOp(spiClass: C, types: seq<T>, services: V)
    | ClearOp
    | ReclaimOp

  /** The holder after one operation. A find is a pure read. */
  function Step<C(==,!new), T(==,!new), V>(h: Cache<C, T, V>, op: Op<C, T, V>): Cache<C, T, V>
  {
    match op
    case FindOp(_, _) => h
    case StoreOp(c, t, v) => CacheServices(h, c, t, v)
    case ClearOp => ClearCache(h)
    case ReclaimOp => Reclaim(h)
  }

  /** The holder after a whole trace, oldest operation first. */
  function Run<C(==,!new), T(==,!new), V>(h: Cache<C, T, V>, ops: seq<Op<C, T, V>>): Cache<C, T, V>
    decreases |ops|
  {
    if ops == [] then h else Step(Run(h, ops[..|ops| - 1]), ops[|ops| - 1])
  }

  /** How many finds a trace holds. */
  function FindCount<C, T, V>(ops: seq<Op<C, T, V>>): nat
    decreases |ops|
  {
    if ops == [] then 0 else FindCount(ops[..|ops| - 1]) + (if ops[|ops| - 1].FindOp? then 1 else 0)
  }

  /** The answers of the finds of a trace, in order: one per find. */
  function Answers<C(==,!new), T(==,!new), V>(h: Cache<C, T, V>, ops: seq<Op<C, T, V>>): (r: seq<Option<V>>)
    ensures |r| == FindCount(ops)
    decreases |ops|
  {
    if ops == [] then []
    else
      var before := Run(h, ops[..|ops| - 1]);
      var last := ops[|ops| - 1];
      Answers(h, ops[..|ops| - 1])
        + (if last.FindOp? then [FindCachedServices(before, last.spiClass, last.types)] else [])
  }

  /** Whether `op` ends the life of an entry stored earlier under `k`: a store
      under the same key, a clear, or a reclamation. */
  predicate Overrides<C(==), T(==), V>(op: Op<C, T, V>, k: Key<C, T>)
  {
    match op
    case FindOp(_, _) => false
    case StoreOp(c, t, _) => Key(c, t) == k
    case ClearOp => true
    case ReclaimOp => true
  }

  /** No operation after index `i` overrides key `k`. */
  ghost predicate SurvivesAfter<C, T, V>(ops: seq<Op<C, T, V>>, i: int, k: Key<C, T>)
  {
    forall j :: i < j < |ops| && 0 <= j ==> !Overrides(ops[j], k)
  }

  /** `ops[i]` stores `v` under `k`, and nothing later overrides it. */
  ghost predicate StoredAt<C, T, V>(ops: seq<Op<C, T, V>>, i: int, k: Key<C, T>, v: V)
  {
    && 0 <= i < |ops|
    && ops[i].StoreOp?
    && Key(ops[i].spiClass, ops[i].types) == k
    && ops[i].services == v
    && SurvivesAfter(ops, i, k)
  }

  /** A find of `k` after a trace sees `v` exactly when the newest operation
      touching `k` is a store of `v`, or nothing touched `k` and the holder
      already held `v`. Stores under other keys, and finds, are invisible. */
  lemma {:induction false} RunLookup<C(!new), T(!new), V>(h: Cache<C, T, V>, ops: seq<Op<C, T, V>>, k: Key<C, T>, v: V)
    ensures Lookup(Run(h, ops), k) == Some(v)
        <==> (exists i :: StoredAt(ops, i, k, v)) || (SurvivesAfter(ops, -1, k) && Lookup(h, k) == Some(v))
    decreases |ops|
  {
    if ops != [] {
      var n := |ops| - 1;
      var p := ops[..n];
      RunLookup(h, p, k, v);
      assert Run(h, ops) == Step(Run(h, p), ops[n]);
      assert forall i :: 0 <= i < n ==> (StoredAt(ops, i, k, v) <==> StoredAt(p, i, k, v) && !Overrides(ops[n], k));
      assert SurvivesAfter(ops, -1, k) <==> SurvivesAfter(p, -1, k) && !Overrides(ops[n], k);
      if Overrides(ops[n], k) {
        assert !SurvivesAfter(ops, -1, k);
        if StoredAt(ops, n, k, v) {
          assert Lookup(Run(h, ops), k) == Some(v);
        } else {
          assert forall i :: !StoredAt(ops, i, k, v);
        }
      } else {
        assert Lookup(Run(h, ops), k) == Lookup(Run(h, p), k);
        assert !StoredAt(ops, n, k, v);
        if exists i :: StoredAt(p, i, k, v) {
          var i :| StoredAt(p, i, k, v);
          assert StoredAt(ops, i, k, v);
        }
      }
    }
  }

  /** On a fresh cache, a find after a trace hits exactly when some store
      under its key has not been overridden since. */
  lemma FreshCacheLookup<C(!new), T(!new), V>(ops: seq<Op<C, T, V>>, k: Key<C, T>)
    ensures Lookup(Run(Initial(), ops), k).Some? <==> exists i, v :: StoredAt(ops, i, k, v)
  {
    var h: Cache<C, T, V> := Initial();
    if Lookup(Run(h, ops), k).Some? {
      RunLookup(h, ops, k, Lookup(Run(h, ops), k).value);
    }
    if exists i, v :: StoredAt(ops, i, k, v) {
      var i, v :| StoredAt(ops, i, k, v);
      RunLookup(h, ops, k, v);
    }
  }

  /** No reclamation happens after index `i`. */
  ghost predicate NoReclaimAfter<C, T, V>(ops: seq<Op<C, T, V>>, i: int)
  {
    forall j :: i < j < |ops| && 0 <= j ==> !ops[j].ReclaimOp?
  }

  /** Some store at or after index 0 is not followed by a reclamation. */
  ghost predicate LiveStoreIn<C, T, V>(ops: seq<Op<C, T, V>>)
  {
    exists i :: 0 <= i < |ops| && ops[i].StoreOp? && NoReclaimAfter(ops, i)
  }

  /** The holder is live after a trace exactly when a store came after the last
      reclamation, or the holder was live and nothing was reclaimed: finds and
      clears never install a map, and a clear never drops one. */
  lemma {:induction false} RunLiveness<C(!new), T(!new), V>(h: Cache<C, T, V>, ops: seq<Op<C, T, V>>)
    ensures Run(h, ops).Live? <==> LiveStoreIn(ops) || (h.Live? && NoReclaimAfter(ops, -1))
    decreases |ops|
  {
    if ops != [] {
      var n := |ops| - 1;
      var p := ops[..n];
      RunLiveness(h, p);
      assert Run(h, ops) == Step(Run(h, p), ops[n]);
      assert forall i :: 0 <= i < n ==> (NoReclaimAfter(ops, i) <==> NoReclaimAfter(p, i) && !ops[n].ReclaimOp?);
      assert NoReclaimAfter(ops, -1) <==> NoReclaimAfter(p, -1) && !ops[n].ReclaimOp?;
      if ops[n].StoreOp? {
        assert NoReclaimAfter(ops, n);
      } else if ops[n].ReclaimOp? {
        assert !LiveStoreIn(ops) by {
          assert forall i :: 0 <= i < n ==> !NoReclaimAfter(ops, i);
        }
      } else if LiveStoreIn(p) {
        var i :| 0 <= i < |p| && p[i].StoreOp? && NoReclaimAfter(p, i);
        assert NoReclaimAfter(ops, i);
      }
    }
  }

  /** Reads and clears on a reclaimed holder never create a map. */
  lemma ReadsAndClearsNeverAllocate<C(!new), T(!new), V>(h: Cache<C, T, V>, ops: seq<Op<C, T, V>>)
    requires h.Reclaimed?
    requires forall i :: 0 <= i < |ops| ==> !ops[i].StoreOp?
    ensures Run(h, ops).Reclaimed?
  {
    RunLiveness(h, ops);
  }

  /** How many times a trace executes the `new ConcurrentHashMap` of the lazy
      re-creation: once for every store that finds the holder reclaimed. */
  function Installs<C(==,!new), T(==,!new), V>(h: Cache<C, T, V>, ops: seq<Op<C, T, V>>): nat
    decreases |ops|
  {
    if ops == [] then 0
    else
      var n := |ops| - 1;
      Installs(h, ops[..n]) + (if ops[n].StoreOp? && Run(h, ops[..n]).Reclaimed? then 1 else 0)
  }

  /** Some operation of the trace is a store. */
  ghost predicate HasStore<C, T, V>(ops: seq<Op<C, T, V>>)
  {
    exists i :: 0 <= i < |ops| && ops[i].StoreOp?
  }

  /** Without reclamation, a trace installs at most one map: exactly one when
      it starts reclaimed and stores something, none otherwise. So a burst of
      stores into a reclaimed holder shares one map and loses no entry. */
  lemma {:induction false} SingleInstall<C(!new), T(!new), V>(h: Cache<C, T, V>, ops: seq<Op<C, T, V>>)
    requires NoReclaimAfter(ops, -1)
    ensures Installs(h, ops) == (if h.Reclaimed? && HasStore(ops) then 1 else 0)
    decreases |ops|
  {
    if ops != [] {
      var n := |ops| - 1;
      var p := ops[..n];
      assert NoReclaimAfter(p, -1);
      SingleInstall(h, p);
      RunLiveness(h, p);
      assert forall i :: 0 <= i < n ==> NoReclaimAfter(p, i);
      assert LiveStoreIn(p) <==> HasStore(p);
      if HasStore(p) {
        var i :| 0 <= i < |p| && p[i].StoreOp?;
        assert ops[i].StoreOp?;
      }
      if ops[n].StoreOp? {
        assert HasStore(ops);
      } else if HasStore(ops) {
        var i :| 0 <= i < |ops| && ops[i].StoreOp?;
        assert p[i].StoreOp?;
      }
    }
  }

  /** The trace with its finds removed, the other operations kept in order:
      no find is left, every other operation is kept, and exactly the finds
      are dropped. The order is `WritesKeepOrder`. */
  function Writes<C, T, V>(ops: seq<Op<C, T, V>>): (r: seq<Op<C, T, V>>)
    ensures |r| + FindCount(ops) == |ops|
    ensures forall j :: 0 <= j < |r| ==> !r[j].FindOp?
    ensures forall i :: 0 <= i < |ops| && !ops[i].FindOp? ==> ops[i] in r
    decreases |ops|
  {
    if ops == [] then []
    else
      var n := |ops| - 1;
      Writes(ops[..n]) + (if ops[n].FindOp? then [] else [ops[n]])
  }

  /** `Writes` keeps the other operations in their order: removing the finds
      from two consecutive pieces of a trace and joining the results is the
      same as removing them from the whole. */
  lemma {:induction false} WritesKeepOrder<C, T, V>(a: seq<Op<C, T, V>>, b: seq<Op<C, T, V>>)
    ensures Writes(a + b) == Writes(a) + Writes(b)
    decreases |b|
  {
    if b == [] {
      assert a + b == a;
    } else {
      var m := |b| - 1;
      var tail := if b[m].FindOp? then [] else [b[m]];
      assert (a + b)[..|a + b| - 1] == a + b[..m];
      assert (a + b)[|a + b| - 1] == b[m];
      calc {
        Writes(a + b);
        Writes(a + b[..m]) + tail;
        { WritesKeepOrder(a, b[..m]); }
        (Writes(a) + Writes(b[..m])) + tail;
        Writes(a) + (Writes(b[..m]) + tail);
        Writes(a) + Writes(b);
      }
    }
  }

  /** Finds leave no trace: replaying only the writes reaches the same holder. */
  lemma {:induction false} FindsLeaveNoTrace<C(!new), T(!new), V>(h: Cache<C, T, V>, ops: seq<Op<C, T, V>>)
    ensures Run(h, ops) == Run(h, Writes(ops))
    decreases |ops|
  {
    if ops != [] {
      var n := |ops| - 1;
      var p := ops[..n];
      FindsLeaveNoTrace(h, p);
      assert Run(h, ops) == Step(Run(h, p), ops[n]);
      if !ops[n].FindOp? {
        assert Writes(ops) == Writes(p) + [ops[n]];
        Extend(h, Writes(p), ops[n]);
      } else {
        assert Writes(ops) == Writes(p);
      }
    }
  }

  /** Without a store, every find on a fresh cache misses, however the trace
      interleaves finds, clears and reclamations. */
  lemma {:induction false} FindsOnFreshCacheMiss<C(!new), T(!new), V>(ops: seq<Op<C, T, V>>)
    requires forall i :: 0 <= i < |ops| ==> !ops[i].StoreOp?
    ensures forall a <- Answers(Initial(), ops) :: a == None
    decreases |ops|
  {
    if ops != [] {
      var n := |ops| - 1;
      var p := ops[..n];
      FindsOnFreshCacheMiss(p);
      if ops[n].FindOp? {
        var k := Key(ops[n].spiClass, ops[n].types);
        var h: Cache<C, T, V> := Initial();
        if Lookup(Run(h, p), k).Some? {
          var v := Lookup(Run(h, p), k).value;
          RunLookup(h, p, k, v);
          assert false;
        }
      }
    }
  }

  /** Extending a trace by one operation: the holder takes one more step, and
      a find adds its answer, read from the holder before it. */
  lemma Extend<C(!new), T(!new), V>(h: Cache<C, T, V>, ops: seq<Op<C, T, V>>, op: Op<C, T, V>)
    ensures Run(h, ops + [op]) == Step(Run(h, ops), op)
    ensures Answers(h, ops + [op])
         == Answers(h, ops) + (if op.FindOp? then [FindCachedServices(Run(h, ops), op.spiClass, op.types)] else [])
  {
    assert (ops + [op])[..|ops|] == ops;
  }

  /** After a clear, a find of `k` misses until the next store under `k`:
      finds, clears, reclamations and stores under other keys cannot bring
      an entry for `k` back. */
  lemma {:induction false} ClearedKeyMisses<C(!new), T(!new), V>(h: Cache<C, T, V>, ops: seq<Op<C, T, V>>, i: int, k: Key<C, T>)
    requires 0 <= i < |ops| && ops[i].ClearOp?
    requires forall j :: i < j < |ops| ==> !(ops[j].StoreOp? && Key(ops[j].spiClass, ops[j].types) == k)
    ensures Lookup(Run(h, ops), k) == None
  {
    var r := Lookup(Run(h, ops), k);
    if r.Some? {
      RunLookup(h, ops, k, r.value);
      assert false;
    }
  }
}
