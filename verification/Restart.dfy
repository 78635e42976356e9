/**
 A node that stops and starts again: what the running filter knows after start-up, given
 the snapshot that an earlier shutdown wrote and the chain as it is now.

 Models Write in core/running_event_filter.go, called at shutdown only, together with
 InitializeRunningEventFilter in pruner/running_event_filter.go.
 */
module Restart {
  import opened Common
  import opened Words
  import opened Bloom
  import opened FilterCodec
  import opened EventMatcher
  import opened RunningEventFilter
  import opened FilterInitialization
  import opened MatchedBlockIterator
  import opened ChainIndex
  import opened StaleCache

  /** The store holds one snapshot at a time. */
  lemma StoredUnique(data: seq<Byte>, s: Snapshot, s': Snapshot)
    requires Stored(Some(data), s) && Stored(Some(data), s')
    ensures s == s'
  {
    hide DecodeRow, ParseHeader, EncodeSnapshot, ValidSnapshot;
    SnapshotIffParts(data, s);
    SnapshotIffParts(data, s');
    DecodesUnique(data[4..4 + BLOB_SIZE], s.fromBlock, s.rows, s'.rows);
  }

  /** The retained blocks of the index, as start-up reads them. */
  lemma IndexPresent(index: Index)
    requires index.Valid() && 0 < index.running.next && index.running.next + 3 * NUM_BLOCKS < TWO_64
    ensures BlocksPresent(index.database, index.h, index.running.chain, index.running.floor)
    ensures StoredPrefix(index.database.filters, index.running.chain, index.running.floor)
  {
    hide Exact, ExactBelow, IsBloomOf, StoredPrefix;
    ReachableStoredPrefix(index.running.inner, index.database.filters, index.running.chain, index.running.floor);
  }

  lemma NoneStored(index: Index)
    requires index.Valid() && index.running.next == 0
    ensures NoneAbove(index.database.filters, 0)
  {
    hide WindowExact, AllStored, NoneAbove, BlocksIndexed;
  }

  /**
   A snapshot in use leaves the filter exact for the chain if and only if the blooms that
   it knows of its window are those of the chain, from the floor on. Without one the
   filter is rebuilt, and is exact unless the head's unfinished window is stored.
   */
  method Start(index: Index, ghost s: Snapshot, ghost told: seq<BloomFilter>, ghost floor: nat)
    returns (rf: RunningFilter, err: Option<FilterError>)
    requires index.Valid() && index.running.next + 3 * NUM_BLOCKS < TWO_64
    requires Written(s, told, floor) && floor <= index.running.floor && index.database.snapshot == Some(EncodeSnapshot(s))
    modifies index.database`filters
    ensures fresh(rf) && fresh(rf.inner) && rf.database == index.database && err.None?
    ensures index.running.next == 0 ==> rf.Valid() && rf.chain == [] && rf.floor == 0
    ensures index.running.next > 0 && Resumable(s, index.running.next - 1) ==>
              && rf.Valid() && rf.next == index.running.next && rf.floor == index.running.floor
              && s.fromBlock <= |told| <= |index.running.chain|
              && rf.chain == Remembered(index.running.chain, told, s.fromBlock)
              && (Exact(rf.inner, rf.database.filters, rf.next, index.running.chain, rf.floor) <==>
                  forall n: nat :: Max(s.fromBlock, rf.floor) <= n < |told| ==> told[n] == index.running.chain[n])
    ensures index.running.next > 0 && !Resumable(s, index.running.next - 1) ==>
              (Exact(rf.inner, rf.database.filters, rf.next, index.running.chain, rf.floor) <==>
               !old(HeadWindowStored(index.database.filters, index.running.next - 1)))
  {
    hide Exact, ExactBelow, IsBloomOf, StoredPrefix, SnapshotOf, EncodeSnapshot, ValidSnapshot, WindowExact;
    HeightOfNext(index);
    ghost var chain := index.running.chain;
    assert Stored(index.database.snapshot, s);
    forall s': Snapshot | Stored(index.database.snapshot, s') ensures s' == s {
      StoredUnique(index.database.snapshot.value, s, s');
    }
    if index.database.height.None? {
      NoneStored(index);
    } else {
      IndexPresent(index);
      if Resumable(s, |chain| - 1) {
        WrittenSnapshot(s, told, floor, index.running.inner, index.database.filters, chain, index.running.floor);
        RememberedIff(chain, told, s.fromBlock, index.running.floor);
      }
    }
    rf, err := Initialize(index.database, index.h, index.running.floor, told, chain);
    if index.database.height.Some? && Resumable(s, |chain| - 1) {
      ExactForIff(rf.inner, rf.database.filters, rf.next, rf.chain, chain, rf.floor);
    } else if Exact(rf.inner, rf.database.filters, rf.next, chain, rf.floor) {
      ExactBounds(rf.inner, rf.database.filters, rf.next, chain, rf.floor);
    }
  }

  /**
   The filter is written, the head replaced by another block of the same window, and the
   node starts again without having written since: the filter is exact for the chain with
   the block that is gone.
   */
  method ReplaceWritten(index: Index, hash: Felt, txs: seq<TransactionEvents>) returns (rf: RunningFilter)
    requires index.Valid() && index.running.inner.fromBlock < index.running.next && index.running.next + 3 * NUM_BLOCKS < TWO_64
    requires index.running.floor == 0 || index.running.floor + 1 < index.running.next
    modifies index.database, index.running, index.running.inner
    ensures fresh(rf) && fresh(rf.inner) && rf.database == index.database && rf.Valid()
    ensures rf.next == old(index.running.next) && rf.chain == old(index.running.chain) && rf.floor == old(index.running.floor)
    ensures index.database.height == Some(rf.next - 1)
    ensures rf.next - 1 in index.database.blocks && index.database.blocks[rf.next - 1] == txs
  {
    hide Exact, ExactBelow, IsBloomOf, BlocksIndexed, Agrees, Written, EncodeSnapshot, Remembered, Aligned, Index.KeepsCache, Index.DropsCached;
    HeightOfNext(index);
    WindowOf(index);
    ghost var told, floor := index.running.chain, index.running.floor;
    ghost var s := WriteSnapshot(index.running);
    var reverted := index.RevertHead();
    index.StoreBlock(hash, txs);
    WindowOf(index);
    HeightOfNext(index);
    RememberedHead(index.running.chain, told, s.fromBlock);
    var err;
    rf, err := Start(index, s, told, floor);
  }

  lemma RememberedHead(chain: seq<BloomFilter>, told: seq<BloomFilter>, from: nat)
    requires from < |told| == |chain| && chain[..|told| - 1] == told[..|told| - 1]
    ensures Remembered(chain, told, from) == told
  {
    forall n | 0 <= n < |told| - 1 ensures chain[n] == told[n] {
      assert chain[..|told| - 1][n] == told[..|told| - 1][n];
    }
  }

  lemma WindowOf(index: Index)
    requires index.Valid()
    ensures index.running.inner.fromBlock == Aligned(index.running.next)
    ensures index.running.inner.toBlock == index.running.inner.fromBlock + MAX_BLOCK_OFFSET
  {
    hide Exact, ExactBelow, BlocksIndexed;
    ExactBounds(index.running.inner, index.database.filters, index.running.next, index.running.chain, index.running.floor);
  }

  /**
   An empty block is stored and the filter written; a block with contract 7's event
   replaces it before a restart. A query for the contract's events does not find it.
   */
  method MissedAfterRestart() returns (index: Index, rf: RunningFilter, yielded: seq<nat>)
    ensures index.database.height == Some(0) && rf.next == 1 && rf.database == index.database
    ensures var m, txs := Matcher([7], []), [TransactionEvents(1, [Event(7, [], [])])];
            && 0 in index.database.blocks && index.database.blocks[0] == txs
            && Matches(m, txs[0].events[0])
    ensures yielded == []
  {
    hide Exact, ExactBelow, IsBloomOf, BlocksIndexed, BloomAdmits, CandidateBlock;
    var h: Locations := k => [0];
    var m, txs := Matcher([7], []), [TransactionEvents(1, [Event(7, [], [])])];
    index := new Index(h);
    index.StoreBlock(0, []);
    EmptyHead(index, m);
    WindowOf(index);
    rf := ReplaceWritten(index, 1, txs);
    yielded := QueryFirst(m, h, rf);
    assert Candidates(m, h, rf.chain, 1, 1) == [];
  }

  /** Queries block 0 with an empty cache. */
  method QueryFirst(m: Matcher, h: Locations, rf: RunningFilter) returns (yielded: seq<nat>)
    requires rf.Valid() && Blooms(rf.chain) && rf.floor == 0
    ensures yielded == Candidates(m, h, rf.chain, 0, 1)
  {
    hide Exact, ExactBelow, Candidates;
    var cache := new FilterCache();
    var resume;
    yielded, resume := Drain(0, 0, 0, m, h, cache, rf);
  }
}
