/**
 Concrete call sequences on the cache, with interface and type identities
 written as small numbers and service tables as strings.
 */
module CacheScenarios {
  import opened Options
  import opened OrderedServicesCache
  import opened CacheTrace

  /** A fresh cache keyed by numbered interfaces and types, holding named tables. */
  const Fresh: Cache<int, int, string> := Initial()

  /** Store then find hits; a find with other types misses; after a clear the
      same find misses. */
  lemma StoreFindClear()
    ensures Answers(Fresh, [StoreOp(1, [], "T1"), FindOp(1, []), FindOp(1, [7]), ClearOp, FindOp(1, [])])
         == [Some("T1"), None, None]
  {
    var t0: seq<Op<int, int, string>> := [];
    var t1 := t0 + [StoreOp(1, [], "T1")];
    var t2 := t1 + [FindOp(1, [])];
    var t3 := t2 + [FindOp(1, [7])];
    var t4 := t3 + [ClearOp];
    var t5 := t4 + [FindOp(1, [])];
    Extend(Fresh, t0, t1[0]);
    Extend(Fresh, t1, t2[1]);
    Extend(Fresh, t2, t3[2]);
    Extend(Fresh, t3, t4[3]);
    Extend(Fresh, t4, t5[4]);
    assert Key(1, [7]) != Key(1, []) by {
      assert |Key(1, [7]).types| == 1;
    }
    assert t5 == [StoreOp(1, [], "T1"), FindOp(1, []), FindOp(1, [7]), ClearOp, FindOp(1, [])];
  }

  /** The types are a sequence: the same types in another order are another key. */
  lemma TypesAreOrdered()
    ensures Answers(Fresh, [StoreOp(1, [2, 3], "T"), FindOp(1, [3, 2]), FindOp(1, [2, 3])])
         == [None, Some("T")]
  {
    var t0: seq<Op<int, int, string>> := [];
    var t1 := t0 + [StoreOp(1, [2, 3], "T")];
    var t2 := t1 + [FindOp(1, [3, 2])];
    var t3 := t2 + [FindOp(1, [2, 3])];
    Extend(Fresh, t0, t1[0]);
    Extend(Fresh, t1, t2[1]);
    assert Key(1, [3, 2]) != Key(1, [2, 3]) by {
      assert [3, 2][0] != [2, 3][0];
    }
    Extend(Fresh, t2, t3[2]);
  }

  /** After a reclamation the old entry is gone, and a new store is retrievable
      on its own. */
  lemma StoreAfterReclaim()
    ensures Answers(Fresh, [StoreOp(1, [], "T1"), ReclaimOp, FindOp(1, []), StoreOp(2, [], "T2"), FindOp(2, []), FindOp(1, [])])
         == [None, Some("T2"), None]
  {
    var t0: seq<Op<int, int, string>> := [];
    var t1 := t0 + [StoreOp(1, [], "T1")];
    var t2 := t1 + [ReclaimOp];
    var t3 := t2 + [FindOp(1, [])];
    var t4 := t3 + [StoreOp(2, [], "T2")];
    var t5 := t4 + [FindOp(2, [])];
    var t6 := t5 + [FindOp(1, [])];
    Extend(Fresh, t0, t1[0]);
    Extend(Fresh, t1, t2[1]);
    assert Run(Fresh, t2) == Reclaimed;
    Extend(Fresh, t2, t3[2]);
    assert Answers(Fresh, t3) == [None];
    Extend(Fresh, t3, t4[3]);
    var stored := Run(Fresh, t4);
    assert Lookup(stored, Key(2, [])) == Some("T2");
    assert Lookup(stored, Key(1, [])) == None;
    Extend(Fresh, t4, t5[4]);
    assert Answers(Fresh, t5) == [None, Some("T2")];
    Extend(Fresh, t5, t6[5]);
    assert t6 == [StoreOp(1, [], "T1"), ReclaimOp, FindOp(1, []), StoreOp(2, [], "T2"), FindOp(2, []), FindOp(1, [])];
  }
}
