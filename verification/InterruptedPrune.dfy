/**
 A restart after an interrupted prune: a run in which a read that the new floor permits
 returns a wrong value.
 */
module InterruptedPrune {
  import opened Common
  import opened StateHistory
  import opened Pruning
  import opened BlockStorage
  import opened RetentionFloor

  /** An ordinary contract, or the global counter. */
  function Address(system: bool): Felt {
    if system then 2 else 7
  }

  function Key(system: bool): HistoryKey {
    StorageKey(Address(system), 1)
  }

  /** Slot 1 of the contract is set to 5, and to 6 in the next block. The counter needs no deployment. */
  function Chain(system: bool): seq<Block> {
    var a := Address(system);
    [Block(0, StateUpdate(10, StateDiff(map[(a, 1) := 5], map[], if system then map[] else map[a := 9], map[])), []),
     Block(1, StateUpdate(11, StateDiff(map[(a, 1) := 6], map[], map[], map[])), []),
     Block(2, StateUpdate(12, StateDiff(map[], map[], map[], map[])), [])]
  }

  lemma ChainValues(system: bool)
    ensures var d, k := Diffs(Chain(system)), Key(system);
            ValueAt(d, k, 1) == 5 && ValueAt(d, k, 2) == 6 && ValueAt(d, k, 3) == 6 && LastWrite(d, k, 2) == 1
  {
    var d, k := Diffs(Chain(system)), Key(system);
    assert d[0].Touches(k) && d[1].Touches(k) && !d[2].Touches(k);
    assert LastWrite(d, k, 1) == 0 && LastWrite(d, k, 2) == 1 && LastWrite(d, k, 3) == 1;
  }

  /** Either contract is recorded as deployed in block 0. */
  lemma ChainHeights(system: bool, newLayout: bool)
    ensures HeightsAfter(Diffs(Chain(system)), newLayout, 3) == map[Address(system) := 0]
  {
    hide Empty, ValueAt, LastWrite, HeightsWith, WritesTo;
    var d, a := Diffs(Chain(system)), Address(system);
    ChainValues(system);
    ChainWrites(system);
    NotEmpty(d, a, 1);
    NotEmpty(d, a, 2);
    HeightsKept(d, newLayout, 0, a);
    HeightsKept(d, newLayout, 1, a);
    HeightsKept(d, newLayout, 2, a);
  }

  /** A block that deploys or writes to no other contract. */
  lemma HeightsKept(d: seq<StateDiff>, newLayout: bool, n: nat, a: Felt)
    requires n < |d| && d[n].deployed.Keys <= {a}
    requires forall x :: x in SYSTEM_CONTRACTS && WritesTo(d[n], x) ==> x == a && !Empty(d, a, n + 1)
    requires if n == 0 then a in d[n].deployed || (a in SYSTEM_CONTRACTS && WritesTo(d[n], a))
             else HeightsAfter(d, newLayout, n) == map[a := 0] && a !in d[n].deployed
    ensures HeightsAfter(d, newLayout, n + 1) == map[a := 0]
  {
    hide Empty, WritesTo, HeightsWith;
    var written := set x | x in SYSTEM_CONTRACTS && WritesTo(d[n], x);
    var emptied := set x | x in written && newLayout && Empty(d, x, n + 1);
    assert written <= {a} && emptied == {};
    OneHeight(HeightsAfter(d, newLayout, n), d[n].deployed.Keys, written, n, a);
  }

  lemma OneHeight(heights: Heights, deployed: set<Felt>, written: set<Felt>, b: nat, a: Felt)
    requires deployed <= {a} && written <= {a}
    requires if b == 0 then heights == map[] && a in deployed + written else heights == map[a := 0] && a !in deployed
    ensures HeightsWith(heights, deployed, written, {}, b) == map[a := 0]
  {
    assert HeightsWith(heights, deployed, written, {}, b).Keys == {a};
  }

  lemma ChainWrites(system: bool)
    ensures forall i: nat, x :: i < 3 ==> (WritesTo(Diffs(Chain(system))[i], x) <==> i < 2 && x == Address(system))
  {
    var d, a := Diffs(Chain(system)), Address(system);
    assert (a, 1) in d[0].storage && (a, 1) in d[1].storage;
  }

  lemma NotEmpty(d: seq<StateDiff>, a: Felt, n: nat)
    requires n <= |d| && ValueAt(d, StorageKey(a, 1), n) != 0
    ensures !Empty(d, a, n)
  {
  }

  lemma ChainDistinct(system: bool)
    ensures Distinct(Chain(system))
  {
    var c := Chain(system);
    assert forall n: nat :: n < |c| ==> HashOf(c, n) == 10 + n && c[n].txs == [];
  }

  /** Stores the chain in a new store. */
  method StoreChain(system: bool, newLayout: bool) returns (store: KeyValueStore, ghost ws: set<nat>)
    ensures fresh(store) && Retained(store.db, Chain(system), ws, newLayout, 0, 0, 0) && store.height == HeightOf(Chain(system))
  {
    var c := Chain(system);
    store := new KeyValueStore(EmptyContents);
    EmptyRetained(newLayout);
    ChainDistinct(system);
    ws := {};
    hide Retained, Distinct;
    for n := 0 to 3
      invariant Retained(store.db, c[..n], ws, newLayout, 0, 0, 0)
      invariant store.height == HeightOf(c[..n])
    {
      assert c[..n] + [c[n]] == c[..n + 1];
      DistinctPrefix(c, n + 1);
      StoreBlock(store, c[..n], c[n], newLayout, ws, 0, 0, 0);
      ws := ws + CompletedWindows(n);
    }
    assert c[..3] == c;
  }

  /** What a read of slot 1 after block 0 answers, before and after the history below 2 is gone. */
  lemma ChainAnswers(system: bool, newLayout: bool)
    ensures var d, heights := Diffs(Chain(system)), HeightsAfter(Diffs(Chain(system)), newLayout, 3);
            && heights == map[Address(system) := 0] && Recorded(heights, d)
            && Answer(d, heights, newLayout, Key(system), 0, 0) == Some(5)
            && Answer(d, heights, newLayout, Key(system), 0, 2) == Some(if newLayout then 0 else 6)
  {
    ChainValues(system);
    ChainHeights(system, newLayout);
    HeightsRecorded(Diffs(Chain(system)), newLayout, 3);
    hide ValueAt, LastWrite, HeightsAfter, Recorded;
  }

  /** Blocks below 2 are pruned, and the process stops before the range delete. */
  method StopBeforeDelete(system: bool, newLayout: bool) returns (store: KeyValueStore, ghost ws: set<nat>, ghost m: nat)
    ensures fresh(store) && Retained(store.db, Chain(system), ws, newLayout, 0, 2, m) && store.height == HeightOf(Chain(system))
  {
    var c := Chain(system);
    ChainDistinct(system);
    store, ws := StoreChain(system, newLayout);
    hide Retained, Distinct;
    var blocksPruned, oldestKept, status, flushed, mapped := PruneUpto(
      store, 2, n => false, n => false, n => n == 3, c, ws, newLayout, 0, 0, 0);
    m := mapped;
  }

  /**
   The restart seeds a floor of 0, since block 0 still has its commitments. The state
   after block 0 is then permitted, and slot 1 is read as 6, or as 0 in the new layout,
   and not as 5.
   */
  method ReadAfterRestart(system: bool, newLayout: bool) returns (permitted: bool, v: Option<Felt>)
    ensures permitted && v == Some(if newLayout then 0 else 6)
    ensures var d := Diffs(Chain(system));
            Answer(d, HeightsAfter(d, newLayout, 3), newLayout, Key(system), 0, 0) == Some(5)
  {
    hide Diffs, Retained, HeightsAfter, Recorded, ReadsExact, NothingOverwritten, LastWrite, ValueAt, Answer;
    var heights: Heights := map[Address(system) := 0];
    ChainValues(system);
    ChainAnswers(system, newLayout);
    var store, ws, m := StopBeforeDelete(system, newLayout);
    var floor := NewRetentionFloor(store.db, heights, Chain(system), ws, newLayout, 0, 2, m);
    permitted, v := ReadRetained(store, floor, heights, newLayout, 6, Key(system), 0, Chain(system), ws, 0, 2, m);
  }
}
