/**
 The chain store together with its event index, over runs of stored, reverted and
 pruned blocks. The index follows the chain exactly through every run; the cache of
 stored windows stays right under a condition stated for each step.

 Models the parts of Store and RevertHead in blockchain/statebackend/statebackend.go,
 and of PruneBlockDataUpto in pruner/accessors.go, that concern the event index.
 */
module ChainIndex {
  import opened Common
  import opened Words
  import opened Bloom
  import opened FilterCodec
  import opened AggregatedFilter
  import opened Store
  import opened RunningEventFilter
  import opened MatchedBlockIterator

  /** The store holds exactly the retained blocks, and the index has the bloom of each of them. */
  ghost predicate BlocksIndexed(database: Database, running: RunningFilter, h: Locations)
    requires database.height.Some?
    reads database`height, database`commitments, database`blocks, database`hashes, running, running.inner
  {
    var height := database.height.value;
    && running.next == height + 1 == |running.chain|
    && running.inner.fromBlock <= height + 1 <= running.inner.toBlock
    && running.floor <= height < TWO_64 - 1
    && (forall n: nat :: n in database.commitments <==> running.floor <= n <= height)
    && (forall n: nat :: running.floor <= n <= height ==> n in database.blocks && n in database.hashes)
    && (forall n: nat :: running.floor <= n <= height ==> IsBloomOf(h, database.blocks[n], running.chain[n]))
  }

  class Index {
    const database: Database
    const running: RunningFilter
    const cache: FilterCache
    const h: Locations

    /** An empty chain with an empty index. */
    constructor (h: Locations)
      ensures Valid() && cache.Coherent(database.filters, 0) && this.h == h && cache.entries == map[]
      ensures running.chain == [] && running.floor == 0 && database.height.None? && database.filters == map[]
      ensures fresh(database) && fresh(running) && fresh(running.inner) && fresh(cache)
    {
      var store := new Database();
      var inner := new FilterView.New(0);
      EmptyExact(inner.bitmap, 0, [], 0);
      var filter := new RunningFilter(store, inner, 0, [], 0);
      var views := new FilterCache();
      database, running, cache, this.h := store, filter, views, h;
    }

    ghost predicate Valid()
      reads database, running, running.inner
    {
      && running.database == database && running.Valid()
      && Blooms(running.chain) && |running.chain| == running.next
      && (database.height.None? ==> running.next == 0 && running.floor == 0 && database.commitments == {})
      && (database.height.Some? ==> BlocksIndexed(database, running, h))
    }

    /** Storing this block would persist a window that the cache already holds a view of. */
    predicate OverwritesCached()
      reads running, running.inner, cache
    {
      running.next == running.inner.toBlock && KeyOf(running.inner.fromBlock) in cache.entries
    }

    /** Reverting the head would drop a stored window that the cache holds a view of. */
    predicate DropsCached()
      reads running, running.inner, cache
    {
      running.next == running.inner.fromBlock && KeyOf(running.inner.fromBlock) in cache.entries
    }

    /** The window that storing this block would persist, if it is the last one of its window. */
    ghost function NextWindow(txs: seq<TransactionEvents>): seq<Byte>
      requires running.Valid()
      reads running, running.inner, running.database`filters
    {
      Encode(running.inner.fromBlock, running.inner.toBlock,
             InsertedRows(running.inner.bitmap.rows, running.next - running.inner.fromBlock, BloomOf(h, txs)))
    }

    /** Storing this block leaves the cache right: no cached window is persisted with other contents. */
    ghost predicate KeepsCache(txs: seq<TransactionEvents>)
      requires running.Valid()
      reads running, running.inner, running.database`filters, cache
    {
      OverwritesCached() ==> cache.entries[KeyOf(running.inner.fromBlock)] == NextWindow(txs)
    }

    /**
     Adds the bloom of the next block. The cache goes stale exactly when a cached
     window is persisted again with other contents.
     */
    method IndexBlock(txs: seq<TransactionEvents>)
      requires running.database == database && running.Valid() && running.next + 3 * NUM_BLOCKS < TWO_64
      requires running.floor <= running.next
      modifies database`filters, running, running.inner
      ensures running.inner == old(running.inner) || fresh(running.inner)
      ensures running.Valid() && Blooms(running.chain) && running.inner.fromBlock <= running.next <= running.inner.toBlock
      ensures running.next == old(running.next) + 1 && running.floor == old(running.floor)
      ensures old(|running.chain|) + 1 == |running.chain| && running.chain[..old(|running.chain|)] == old(running.chain)
      ensures IsBloomOf(h, txs, running.chain[old(|running.chain|)])
      ensures old(cache.Coherent(database.filters, running.floor)) ==>
                (cache.Coherent(database.filters, running.floor) <==> old(KeepsCache(txs)))
    {
      hide Exact, ExactBelow, IsBloomOf, Agrees, Encode, InsertedRows;
      ExactBounds(running.inner, database.filters, running.next, running.chain, running.floor);
      AlignedOrder(running.floor, running.next);
      var bloom := EventsBloom(h, txs);
      BloomUnique(h, txs, bloom, BloomOf(h, txs));
      ghost var key, filters := KeyOf(running.inner.fromBlock), database.filters;
      var err := running.Insert(Some(bloom), running.next);
      if Agrees(cache.entries, filters, running.floor) && key in database.filters {
        AgreesAfterPut(cache.entries, filters, key, database.filters[key], running.floor);
      }
    }

    /** Appends a block. */
    method StoreBlock(hash: Felt, txs: seq<TransactionEvents>)
      requires Valid() && running.next + 3 * NUM_BLOCKS < TWO_64
      modifies database, running, running.inner
      ensures Valid() && database.height == Some(old(running.next))
      ensures running.inner == old(running.inner) || fresh(running.inner)
      ensures running.floor == old(running.floor) && running.next == old(running.next) + 1
      ensures database.blocks == old(database.blocks)[old(running.next) := txs]
      ensures database.hashes == old(database.hashes)[old(running.next) := hash] && database.snapshot == old(database.snapshot)
      ensures running.chain[..old(|running.chain|)] == old(running.chain) && |running.chain| == old(|running.chain|) + 1
      ensures old(cache.Coherent(database.filters, running.floor)) ==>
                (cache.Coherent(database.filters, running.floor) <==> old(KeepsCache(txs)))
    {
      hide Exact, ExactBelow, IsBloomOf, Agrees, KeepsCache;
      var number := running.next;
      database.blocks := database.blocks[number := txs];
      database.hashes := database.hashes[number := hash];
      database.commitments := database.commitments + {number};
      database.height := Some(number);
      IndexBlock(txs);
    }

    /** Removes the head's bloom. The cache goes stale exactly when the window left behind is cached. */
    method UnindexHead()
      requires running.database == database && running.Valid() && running.floor < running.next == |running.chain|
      modifies database`filters, running, running.inner
      ensures running.inner == old(running.inner) || fresh(running.inner)
      ensures running.Valid() && Blooms(running.chain) && running.inner.fromBlock <= running.next <= running.inner.toBlock
      ensures running.next == old(running.next) - 1 && running.floor == old(running.floor)
      ensures |running.chain| == running.next <= old(|running.chain|) && running.chain == old(running.chain)[..running.next]
      ensures old(cache.Coherent(database.filters, running.floor)) ==>
                (cache.Coherent(database.filters, running.floor) <==> !old(DropsCached()))
    {
      hide Exact, ExactBelow, Agrees;
      ExactBounds(running.inner, database.filters, running.next, running.chain, running.floor);
      AlignedOrder(running.floor, running.next);
      if Agrees(cache.entries, database.filters, running.floor) {
        AgreesAfterDelete(cache.entries, database.filters, KeyOf(running.inner.fromBlock), running.floor);
      }
      var err := running.OnReorg();
    }

    /** Removes the head block; nothing happens on an empty chain. */
    method RevertHead() returns (reverted: bool)
      requires Valid()
      requires database.height.Some? ==> running.floor < database.height.value || running.floor == 0
      modifies database, running, running.inner
      ensures Valid()
      ensures running.inner == old(running.inner) || fresh(running.inner)
      ensures reverted <==> old(running.next) > 0
      ensures !reverted ==> unchanged(database) && unchanged(running)
      ensures reverted ==> running.next == old(running.next) - 1
      ensures reverted ==> database.blocks == old(database.blocks) - {old(running.next) - 1}
      ensures reverted ==> database.hashes == old(database.hashes) - {old(running.next) - 1}
      ensures running.floor == old(running.floor) && database.snapshot == old(database.snapshot)
      ensures reverted ==> running.chain == old(running.chain)[..running.next]
      ensures old(cache.Coherent(database.filters, running.floor)) ==>
                (cache.Coherent(database.filters, running.floor) <==> !reverted || !old(DropsCached()))
    {
      hide Exact, ExactBelow, IsBloomOf, Agrees;
      if database.height.None? {
        return false;
      }
      var number := database.height.value;
      UnindexHead();
      database.blocks := database.blocks - {number};
      database.hashes := database.hashes - {number};
      database.commitments := database.commitments - {number};
      database.height := if number == 0 then None else Some(number - 1);
      return true;
    }

    /**
     Deletes the blocks below a bound, but for the last headers, and the windows wholly
     below it. A view of a dropped window may stay in the cache; no query asks for it.
     */
    method Prune(bound: nat)
      requires Valid() && database.height.Some? && running.floor <= bound <= database.height.value
      modifies database`commitments, database`blocks, database`hashes, database`filters, running`floor
      ensures Valid() && running.floor == bound && database.height == old(database.height)
      ensures forall n: nat :: n in database.blocks <==> n in old(database.blocks) && bound <= n
      ensures forall n: nat :: n in database.blocks ==> database.blocks[n] == old(database.blocks)[n]
      ensures forall n: nat :: n in database.hashes <==> n in old(database.hashes) && bound <= n + BLOCK_HASH_LAG
      ensures forall k :: k in database.filters <==> k in old(database.filters) && Aligned(bound) <= k.fromBlock
      ensures old(cache.Coherent(database.filters, running.floor)) ==> cache.Coherent(database.filters, running.floor)
    {
      hide Exact, ExactBelow, IsBloomOf, Agrees;
      AlignedOrder(running.floor, bound);
      ghost var filters := database.filters;
      DropBelow(bound);
      if Agrees(cache.entries, filters, running.floor) {
        AgreesAfterPrune(cache.entries, filters, database.filters, running.floor, bound);
      }
      PrunedExact(running.inner, filters, database.filters, running.next, running.chain, running.floor, bound);
      running.floor := bound;
    }

    /** The range deletes. */
    method DropBelow(bound: nat)
      modifies database`commitments, database`blocks, database`hashes, database`filters
      ensures forall n: nat :: n in database.commitments <==> n in old(database.commitments) && bound <= n
      ensures forall n: nat :: n in database.blocks <==> n in old(database.blocks) && bound <= n
      ensures forall n: nat :: n in database.blocks ==> database.blocks[n] == old(database.blocks)[n]
      ensures forall n: nat :: n in database.hashes <==> n in old(database.hashes) && bound <= n + BLOCK_HASH_LAG
      ensures forall n: nat :: n in database.hashes ==> database.hashes[n] == old(database.hashes)[n]
      ensures forall k :: k in database.filters <==> k in old(database.filters) && Aligned(bound) <= k.fromBlock
      ensures forall k :: k in database.filters ==> database.filters[k] == old(database.filters)[k]
    {
      database.commitments := set n | n in database.commitments && bound <= n;
      database.blocks := map n | n in database.blocks && bound <= n :: database.blocks[n];
      database.hashes := map n | n in database.hashes && bound <= n + BLOCK_HASH_LAG :: database.hashes[n];
      database.filters := map k | k in database.filters && Aligned(bound) <= k.fromBlock :: database.filters[k];
    }
  }

  const BLOCK_HASH_LAG: nat := 10

  lemma AgreesAfterPut(
    entries: map<RangeKey, seq<Byte>>, filters: map<RangeKey, seq<Byte>>, key: RangeKey, blob: seq<Byte>, floor: nat)
    requires Agrees(entries, filters, floor) && Aligned(floor) <= key.fromBlock
    ensures Agrees(entries, filters[key := blob], floor) <==> (key in entries ==> entries[key] == blob)
  {
  }

  lemma AgreesAfterPrune(
    entries: map<RangeKey, seq<Byte>>, filters: map<RangeKey, seq<Byte>>, after: map<RangeKey, seq<Byte>>, floor: nat, bound: nat)
    requires Agrees(entries, filters, floor) && floor <= bound
    requires forall k :: k in after <==> k in filters && Aligned(bound) <= k.fromBlock
    requires forall k :: k in after ==> after[k] == filters[k]
    ensures Agrees(entries, after, bound)
  {
    AlignedOrder(floor, bound);
  }

  lemma AgreesAfterDelete(entries: map<RangeKey, seq<Byte>>, filters: map<RangeKey, seq<Byte>>, key: RangeKey, floor: nat)
    requires Agrees(entries, filters, floor) && Aligned(floor) <= key.fromBlock
    ensures Agrees(entries, filters - {key}, floor) <==> key !in entries
  {
  }

  // ---------------------------------------------------------------- runs

  datatype Op = StoreOp(hash: Felt, txs: seq<TransactionEvents>) | RevertOp | PruneOp(bound: nat)

  /** The chain as if nothing were pruned, and the lowest block kept. */
  datatype Chain = Chain(blocks: seq<seq<TransactionEvents>>, floor: nat)

  function Applied(c: Chain, op: Op): Chain {
    match op
    case StoreOp(_, txs) => c.(blocks := c.blocks + [txs])
    case RevertOp => c.(blocks := if c.blocks == [] then [] else c.blocks[..|c.blocks| - 1])
    case PruneOp(bound) => c.(floor := bound)
  }

  /** Pruned blocks are not reverted, nor the oldest one kept, and the head is not pruned. */
  predicate Allowed(c: Chain, op: Op) {
    match op
    case StoreOp(_, _) => true
    case RevertOp => c.floor == 0 || c.floor + 1 < |c.blocks|
    case PruneOp(bound) => c.floor <= bound < |c.blocks|
  }

  /** The chain after a run. */
  function Replayed(ops: seq<Op>): (c: Chain)
    ensures |c.blocks| <= |ops|
  {
    if ops == [] then Chain([], 0) else Applied(Replayed(ops[..|ops| - 1]), ops[|ops| - 1])
  }

  /** After any run of stored, reverted and pruned blocks, the store holds the retained part of the chain and the index is exact for it. */
  method Replay(index: Index, ops: seq<Op>)
    requires index.Valid() && index.running.next == 0 && index.running.floor == 0
    requires |ops| + 3 * NUM_BLOCKS < TWO_64
    requires forall i :: 0 <= i < |ops| ==> Allowed(Replayed(ops[..i]), ops[i])
    modifies index.database, index.running, index.running.inner
    ensures index.Valid() && index.running.floor == Replayed(ops).floor && index.running.next == |Replayed(ops).blocks|
    ensures forall n: nat :: Replayed(ops).floor <= n < |Replayed(ops).blocks| ==>
              n in index.database.blocks && index.database.blocks[n] == Replayed(ops).blocks[n]
  {
    hide Exact, ExactBelow, BlocksIndexed, Agrees;
    var database, running := index.database, index.running;
    for i := 0 to |ops|
      invariant running.inner == old(running.inner) || fresh(running.inner)
      invariant index.Valid() && Follows(index, Replayed(ops[..i]))
    {
      assert ops[..i + 1][..i] == ops[..i];
      Perform(index, ops[i], Replayed(ops[..i]));
    }
    assert ops[..|ops|] == ops;
  }

  ghost predicate Follows(index: Index, c: Chain)
    reads index.running, index.database
  {
    && index.running.floor == c.floor && index.running.next == |c.blocks|
    && forall n: nat :: c.floor <= n < |c.blocks| ==> n in index.database.blocks && index.database.blocks[n] == c.blocks[n]
  }

  method Perform(index: Index, op: Op, ghost c: Chain)
    requires index.Valid() && Follows(index, c) && Allowed(c, op) && |c.blocks| + 3 * NUM_BLOCKS < TWO_64
    modifies index.database, index.running, index.running.inner
    ensures index.running.inner == old(index.running.inner) || fresh(index.running.inner)
    ensures index.Valid() && Follows(index, Applied(c, op))
  {
    HeightOfNext(index);
    hide Exact, ExactBelow, BlocksIndexed, Agrees;
    match op {
      case StoreOp(hash, txs) => index.StoreBlock(hash, txs);
      case RevertOp => var reverted := index.RevertHead();
      case PruneOp(bound) => index.Prune(bound);
    }
  }

  lemma HeightOfNext(index: Index)
    requires index.Valid()
    ensures index.database.height == if index.running.next == 0 then None else Some(index.running.next - 1)
  {
    hide Exact, ExactBelow;
  }
}
