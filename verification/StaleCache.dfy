/**
 A cached window after a reorg: a run in which a query of a stored block with a matching
 event yields nothing, because the view of its window was cached before the block was
 replaced.
 */
module StaleCache {
  import opened Common
  import opened Words
  import opened Bloom
  import opened FilterCodec
  import opened AggregatedFilter
  import opened EventMatcher
  import opened Store
  import opened RunningEventFilter
  import opened MatchedBlockIterator
  import opened ChainIndex

  /** A view that agrees with the store of an exact index is exact for its chain. */
  lemma CachedViewExact(entries: map<RangeKey, seq<Byte>>, filters: map<RangeKey, seq<Byte>>, inner: FilterView, next: nat,
                        chain: seq<BloomFilter>, floor: nat, w: nat)
    requires Exact(inner, filters, next, chain, floor) && Agrees(entries, filters, floor)
    requires w % NUM_BLOCKS == 0 && Aligned(floor) <= w < inner.fromBlock && KeyOf(w) in entries
    ensures ViewExact(entries[KeyOf(w)], w, chain, floor)
  {
    hide WindowExact, GoodBlob;
    assert StoredExact(filters, w, chain, floor) && KeyOf(w).fromBlock == w;
  }

  /** A range within one window below the running one that is cached answers for whatever its view is exact for. */
  lemma OneViewAnswers(entries: map<RangeKey, seq<Byte>>, filters: map<RangeKey, seq<Byte>>, inner: FilterView,
                       chain: seq<BloomFilter>, floor: nat, n: nat, w: nat)
    requires w == Aligned(n) < inner.fromBlock && KeyOf(w) in entries && ViewExact(entries[KeyOf(w)], w, chain, floor)
    ensures Answering(entries, filters, inner, chain, floor, n, n)
  {
    hide ViewExact;
    AlignedOrder(n, n);
    forall v: nat | v % NUM_BLOCKS == 0 && Aligned(n) <= v <= n ensures v == w {
      if w < v {
        WindowGap(w, v);
      }
    }
  }

  /**
   The head is the last block of a stored window that is cached. It is reverted, and a
   block with a matching event is stored in its place: the index is exact, the bloom of
   the block admits the filter, and iterating over the block yields nothing.
   */
  method ReplaceHead(index: Index, hash: Felt, txs: seq<TransactionEvents>, m: Matcher, ghost t: nat, ghost e: nat)
    returns (yielded: seq<nat>)
    requires index.Valid() && index.cache.Coherent(index.database.filters, index.running.floor)
    requires index.running.next == index.running.inner.fromBlock > 0 && index.running.floor + 1 < index.running.next
    requires KeyOf(index.running.next - NUM_BLOCKS) in index.cache.entries
    requires index.running.next + 3 * NUM_BLOCKS < TWO_64
    requires !CandidateBlock(m, index.h, index.running.chain, index.running.next - 1)
    requires t < |txs| && e < |txs[t].events| && Matches(m, txs[t].events[e])
    modifies index.database, index.running, index.running.inner, index.cache
    ensures index.Valid() && index.running.next == old(index.running.next)
    ensures var n := index.running.next - 1;
            && n in index.database.blocks && index.database.blocks[n] == txs
            && CandidateBlock(m, index.h, index.running.chain, n)
    ensures yielded == Candidates(m, index.h, old(index.running.chain), index.running.next - 1, index.running.next) == []
  {
    hide Exact, ExactBelow, IsBloomOf, BloomAdmits, ViewExact, Answering, BlocksIndexed, Agrees;
    ghost var before, floor := index.running.chain, index.running.floor;
    ghost var n: nat, w: nat := index.running.next - 1, index.running.next - NUM_BLOCKS;
    HeadWindow(index);
    CachedViewExact(index.cache.entries, index.database.filters, index.running.inner, index.running.next, before, floor, w);
    var number := index.running.next - 1;
    var reverted := index.RevertHead();
    index.StoreBlock(hash, txs);
    StoredBlock(index, txs, m, t, e);
    OneViewAnswers(index.cache.entries, index.database.filters, index.running.inner, before, floor, n, w);
    var resume;
    yielded, resume := DrainSeen(number, number, 0, m, index.h, index.cache, index.running, before);
    hide CandidateBlock;
    assert Candidates(m, index.h, before, n + 1, n + 1) == [];
  }

  /** The head of a chain that ends with a window. */
  lemma HeadWindow(index: Index)
    requires index.Valid() && index.running.next == index.running.inner.fromBlock > 0 && index.running.floor + 1 < index.running.next
    ensures var w := index.running.next - NUM_BLOCKS;
            && w >= 0 && w % NUM_BLOCKS == 0 && w == Aligned(index.running.next - 1) && Aligned(index.running.floor) <= w
    ensures index.database.height == Some(index.running.next - 1)
  {
    hide WindowExact, AllStored, NoneAbove, IsBloomOf;
    WindowGap(0, index.running.next);
    AlignedOrder(index.running.floor, index.running.next - 1);
  }

  lemma StoredBlock(index: Index, txs: seq<TransactionEvents>, m: Matcher, t: nat, e: nat)
    requires index.Valid() && 0 < index.running.next && index.running.floor < index.running.next
    requires index.running.next - 1 in index.database.blocks && index.database.blocks[index.running.next - 1] == txs
    requires t < |txs| && e < |txs[t].events| && Matches(m, txs[t].events[e])
    ensures CandidateBlock(m, index.h, index.running.chain, index.running.next - 1)
    ensures index.running.inner.fromBlock == Aligned(index.running.next) && index.running.next <= index.running.inner.toBlock
  {
    hide WindowExact, AllStored, NoneAbove, IsBloomOf, BloomAdmits;
    NoFalseNegatives(m, index.h, txs, index.running.chain[index.running.next - 1], t, e);
  }

  // ---------------------------------------------------------------- a whole run

  /** One window of empty blocks, stored and queried once. */
  method OneWindow(h: Locations) returns (index: Index)
    ensures fresh(index) && fresh(index.database) && fresh(index.running) && fresh(index.running.inner) && fresh(index.cache)
    ensures index.Valid() && index.cache.Coherent(index.database.filters, 0) && index.h == h
    ensures index.running.floor == 0 && index.running.next == index.running.inner.fromBlock == NUM_BLOCKS
    ensures NUM_BLOCKS - 1 in index.database.blocks && index.database.blocks[NUM_BLOCKS - 1] == []
    ensures KeyOf(0) in index.cache.entries
  {
    hide Exact, ExactBelow, IsBloomOf, BlocksIndexed, Agrees, Answering, Iterator.BitsExact;
    index := new Index(h);
    for i := 0 to NUM_BLOCKS
      invariant fresh(index) && fresh(index.database) && fresh(index.running) && fresh(index.running.inner) && fresh(index.cache)
      invariant index.Valid() && index.cache.Coherent(index.database.filters, 0) && index.cache.entries == map[] && index.h == h
      invariant index.running.floor == 0 && index.running.next == i
      invariant i > 0 ==> i - 1 in index.database.blocks && index.database.blocks[i - 1] == []
    {
      index.StoreBlock(0, []);
    }
    FullWindow(index);
    CoherentAnswers(
      index.cache.entries, index.database.filters, index.running.inner, index.running.next, index.running.chain, 0, 0, 0);
    var it := new Iterator(0, 0, 0, Matcher([], []), h, index.cache, index.running, index.running.chain);
    var bits := new BitSet(NUM_BLOCKS);
    ghost var before := index.cache.entries;
    var err := it.FillFromStored(bits, 0);
    RefreshedAgrees(before, index.cache.entries, index.database.filters, 0);
  }

  lemma FullWindow(index: Index)
    requires index.Valid() && index.running.next == NUM_BLOCKS
    ensures index.running.inner.fromBlock == NUM_BLOCKS
  {
    hide WindowExact, AllStored, NoneAbove, IsBloomOf, BlocksIndexed;
  }

  /** Contract 7's event replaces an empty block, and a query for its events does not find it. */
  method MissedEvent() returns (index: Index, yielded: seq<nat>)
    ensures index.Valid() && index.database.height == Some(NUM_BLOCKS - 1)
    ensures var m, txs := Matcher([7], []), [TransactionEvents(1, [Event(7, [], [])])];
            && NUM_BLOCKS - 1 in index.database.blocks && index.database.blocks[NUM_BLOCKS - 1] == txs
            && Matches(m, txs[0].events[0])
    ensures yielded == []
  {
    var h: Locations := k => [0];
    var m, txs := Matcher([7], []), [TransactionEvents(1, [Event(7, [], [])])];
    index := OneWindow(h);
    EmptyHead(index, m);
    yielded := ReplaceHead(index, 0, txs, m, 0, 0);
    HeightOfNext(index);
  }

  /** An empty block is no candidate for a filter by address, if every key has a location. */
  lemma EmptyHead(index: Index, m: Matcher)
    requires index.Valid() && 0 == index.running.floor < index.running.next
    requires index.running.next - 1 in index.database.blocks && index.database.blocks[index.running.next - 1] == []
    requires m == Matcher([7], []) && index.h(AddressKey(7)) != []
    ensures !CandidateBlock(m, index.h, index.running.chain, index.running.next - 1)
  {
    hide WindowExact, AllStored, NoneAbove;
    var n := index.running.next - 1;
    var bloom := index.running.chain[n];
    assert IsBloomOf(index.h, [], bloom);
    var i := Indices(index.h, AddressKey(7))[0];
    assert !Justified(index.h, [], i);
  }
}
