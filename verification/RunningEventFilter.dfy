/**
 The running event filter: the window of the aggregated bloom filter that contains
 the next block. It rolls forward as blocks are stored, persisting each full window,
 and back as blocks are reverted.

 Models core/running_event_filter.go and pruner/running_event_filter.go. The ghost
 field `chain` is the bloom of every block below `next`; the invariant says that the
 index agrees with it on every block from `floor` on, the lowest retained block.
 Locks and the lazy initialiser hook are outside the model.
 */
module RunningEventFilter {
  import opened Common
  import opened Words
  import opened Bloom
  import opened FilterCodec
  import opened AggregatedFilter
  import opened Store

  datatype FilterError = KeyNotFound | CorruptFilter

  function Aligned(n: nat): (w: nat)
    ensures w <= n < w + NUM_BLOCKS && w % NUM_BLOCKS == 0
  {
    n - n % NUM_BLOCKS
  }

  /** Distinct window starts are at least a window apart. */
  lemma WindowGap(v: nat, w: nat)
    requires v % NUM_BLOCKS == 0 && w % NUM_BLOCKS == 0 && v < w
    ensures v + NUM_BLOCKS <= w
  {
  }

  lemma AlignedOrder(a: nat, b: nat)
    requires a <= b
    ensures Aligned(a) % NUM_BLOCKS == 0 && Aligned(b) % NUM_BLOCKS == 0 && Aligned(a) <= Aligned(b)
    ensures Aligned(a) <= a < Aligned(a) + NUM_BLOCKS
  {
  }

  function KeyOf(w: nat): RangeKey {
    RangeKey(w, w + MAX_BLOCK_OFFSET)
  }

  function NoEvents(): (bloom: BloomFilter)
    ensures |bloom| == BLOOM_LENGTH
  {
    seq(BLOOM_LENGTH, _ => false)
  }

  function BloomOrEmpty(bloom: Option<BloomFilter>): BloomFilter {
    match bloom
    case None => NoEvents()
    case Some(b) => b
  }

  ghost predicate Blooms(chain: seq<BloomFilter>) {
    forall n :: 0 <= n < |chain| ==> |chain[n]| == BLOOM_LENGTH
  }

  // ---------------------------------------------------------------- exactness

  /** Column of block `n` in window `w`: its bloom if the block is in the chain, empty above it. */
  ghost predicate ColumnExact(b: Bitmap, w: nat, chain: seq<BloomFilter>, n: nat)
    requires ValidBitmap(b) && w <= n < w + NUM_BLOCKS
  {
    ColumnIs(b, n - w, if n < |chain| then chain[n] else NoEvents())
  }

  /** The window agrees with the chain on every block from `floor` on. */
  ghost predicate WindowExact(b: Bitmap, w: nat, chain: seq<BloomFilter>, floor: nat) {
    && ValidBitmap(b)
    && forall n: nat :: w <= n < w + NUM_BLOCKS && floor <= n ==> ColumnExact(b, w, chain, n)
  }

  /** The blob of a window: well formed, with every row readable. */
  ghost predicate GoodBlob(data: seq<Byte>, w: nat) {
    && ParseHeader(data) == Ok(Header(w, w + MAX_BLOCK_OFFSET))
    && FullyReadable(BlobRows(data))
  }

  ghost predicate StoredExact(filters: map<RangeKey, seq<Byte>>, w: nat, chain: seq<BloomFilter>, floor: nat) {
    && KeyOf(w) in filters
    && GoodBlob(filters[KeyOf(w)], w)
    && WindowExact(BlobRows(filters[KeyOf(w)]), w, chain, floor)
  }

  lemma WindowExactTransfer(a: Bitmap, b: Bitmap, w: nat, chain: seq<BloomFilter>, floor: nat)
    requires SameRows(a, b) && WindowExact(a, w, chain, floor)
    ensures WindowExact(b, w, chain, floor)
  {
    forall n: nat | w <= n < w + NUM_BLOCKS && floor <= n ensures ColumnExact(b, w, chain, n) {
      assert ColumnExact(a, w, chain, n);
    }
  }

  /** The chain above a window does not matter to it. */
  lemma WindowExactExtend(b: Bitmap, w: nat, chain: seq<BloomFilter>, chain': seq<BloomFilter>, floor: nat)
    requires WindowExact(b, w, chain, floor)
    requires w + NUM_BLOCKS <= |chain| && w + NUM_BLOCKS <= |chain'|
    requires chain[..w + NUM_BLOCKS] == chain'[..w + NUM_BLOCKS]
    ensures WindowExact(b, w, chain', floor)
  {
    forall n: nat | w <= n < w + NUM_BLOCKS && floor <= n ensures ColumnExact(b, w, chain', n) {
      assert ColumnExact(b, w, chain, n);
      assert chain[n] == chain[..w + NUM_BLOCKS][n] == chain'[n];
    }
  }

  /** Two windows exact for the same chain have the same columns from the floor on. */
  lemma ExactWindowsAgree(a: Bitmap, b: Bitmap, w: nat, chain: seq<BloomFilter>, floor: nat, i: nat, n: nat)
    requires WindowExact(a, w, chain, floor) && WindowExact(b, w, chain, floor)
    requires i < BLOOM_LENGTH && w <= n < w + NUM_BLOCKS && floor <= n
    ensures Cell(a, i, n - w) <==> Cell(b, i, n - w)
  {
    assert ColumnExact(a, w, chain, n) && ColumnExact(b, w, chain, n);
  }

  /** The stored form of a window: a well-formed blob with the rows of the window. */
  method MarshalWindow(filter: FilterView) returns (blob: seq<Byte>)
    requires filter.InMemory() && filter.toBlock < TWO_64
    ensures GoodBlob(blob, filter.fromBlock)
    ensures SameRows(filter.bitmap, BlobRows(blob))
    ensures blob == Encode(filter.fromBlock, filter.toBlock, filter.bitmap.rows)
  {
    hide ParseHeader, DecodeRow, Encode;
    blob := filter.MarshalBinary();
    HeaderOfEncode(filter.fromBlock, filter.bitmap.rows);
    MarshalledRows(filter.fromBlock, filter.toBlock, filter.bitmap.rows);
    SameRowsReadable(filter.bitmap.rows, blob);
  }

  lemma SameRowsReadable(rows: seq<Row>, data: seq<Byte>)
    requires SameRows(MemRows(rows), BlobRows(data))
    ensures FullyReadable(BlobRows(data))
  {
    forall i: nat | i < BLOOM_LENGTH ensures RowAt(BlobRows(data), i).Ok? {
      assert RowAt(BlobRows(data), i) == RowAt(MemRows(rows), i);
    }
  }

  // ---------------------------------------------------------------- the filter

  class RunningFilter {
    var inner: FilterView
    var next: nat
    const database: Database
    ghost var chain: seq<BloomFilter>
    ghost var floor: nat

    /** NewRunningEventFilterHot. */
    constructor (database: Database, inner: FilterView, next: nat, ghost chain: seq<BloomFilter>, ghost floor: nat)
      ensures this.database == database && this.inner == inner && this.next == next
      ensures this.chain == chain && this.floor == floor
    {
      this.database, this.inner, this.next := database, inner, next;
      this.chain, this.floor := chain, floor;
    }

    ghost predicate Valid()
      reads this, inner, database`filters
    {
      Indexed() && Exact(inner, database.filters, next, chain, floor)
    }

    /** Valid, but for what may be stored above the window. */
    ghost predicate Indexed()
      reads this, inner, database`filters
    {
      ExactBelow(inner, database.filters, next, chain, floor) && inner.fromBlock + 2 * NUM_BLOCKS < TWO_64
    }

    /** The bitmap a query consults for window `w`. */
    ghost function Consulted(w: nat): Bitmap
      requires w == inner.fromBlock || KeyOf(w) in database.filters
      reads this, inner, database
    {
      if w == inner.fromBlock then inner.bitmap else BlobRows(database.filters[KeyOf(w)])
    }

    /** Every retained block of the chain has its bloom as its column in the window a query consults. */
    lemma ConsultedExact(n: nat)
      requires Valid() && floor <= n < next
      ensures Aligned(n) == inner.fromBlock || KeyOf(Aligned(n)) in database.filters
      ensures ValidBitmap(Consulted(Aligned(n))) && ColumnIs(Consulted(Aligned(n)), n - Aligned(n), chain[n])
    {
      hide GoodBlob, ColumnIs, NoneAbove;
      var w := Aligned(n);
      if w == inner.fromBlock {
        assert ColumnExact(inner.bitmap, w, chain, n);
      } else {
        assert StoredExact(database.filters, w, chain, floor);
        assert ColumnExact(BlobRows(database.filters[KeyOf(w)]), w, chain, n);
      }
    }

    /**
     Adds the bloom of a block to its column, persisting the window and starting a new one
     when it is the last. Fails for a block outside the window. Given blocks in order, the
     index stays exact.
     */
    method Insert(bloom: Option<BloomFilter>, blockNumber: nat) returns (err: Option<Error>)
      requires inner.InMemory() && inner.toBlock < TWO_64
      modifies this, inner, database`filters
      ensures err == if blockNumber < old(inner.fromBlock) || old(inner.toBlock) < blockNumber then Some(BlockOutOfRange)
                     else if bloom.Some? && |bloom.value| != BLOOM_LENGTH then Some(BloomSizeMismatch) else None
      ensures inner == old(inner) || fresh(inner)
      ensures floor == old(floor)
      ensures err.Some? ==> unchanged(this) && unchanged(inner) && unchanged(database)
      ensures err.None? ==> next == blockNumber + 1
      ensures err.None? && blockNumber != old(inner.toBlock) ==>
                && inner == old(inner) && inner.fromBlock == old(inner.fromBlock) && database.filters == old(database.filters)
                && inner.bitmap == if bloom.None? then old(inner.bitmap)
                                   else MemRows(InsertedRows(old(inner.bitmap.rows), blockNumber - inner.fromBlock, bloom.value))
      ensures err.None? && blockNumber == old(inner.toBlock) ==>
                && inner.InMemory() && inner.fromBlock == blockNumber + 1
                && (forall i: nat, j: nat :: i < BLOOM_LENGTH && j < NUM_BLOCKS ==> !Cell(inner.bitmap, i, j))
                && KeyOf(old(inner.fromBlock)) in database.filters
                && database.filters == old(database.filters)[KeyOf(old(inner.fromBlock)) := database.filters[KeyOf(old(inner.fromBlock))]]
      ensures err.None? && bloom.Some? && blockNumber == old(inner.toBlock) ==>
                database.filters[KeyOf(old(inner.fromBlock))] ==
                Encode(old(inner.fromBlock), old(inner.toBlock),
                       InsertedRows(old(inner.bitmap.rows), blockNumber - old(inner.fromBlock), bloom.value))
      ensures err.None? && old(Indexed()) && blockNumber == old(next) ==> chain == old(chain) + [BloomOrEmpty(bloom)]
      ensures err.None? && old(Indexed()) && blockNumber == old(next) && next + 2 * NUM_BLOCKS < TWO_64 ==>
                Indexed() && Blooms(chain) && inner.fromBlock <= next <= inner.toBlock
      ensures err.None? && old(Valid()) && blockNumber == old(next) && next + 2 * NUM_BLOCKS < TWO_64 ==> Valid()
    {
      hide InsertedRows, Encode, ColumnExact, StoredExact, WindowExact, AllStored;
      ghost var w, before := inner.fromBlock, inner.bitmap;
      ghost var inOrder := Indexed() && blockNumber == next;
      err := inner.Insert(bloom, blockNumber);
      if err.Some? {
        return;
      }
      ghost var chain' := if inOrder then chain + [BloomOrEmpty(bloom)] else chain;
      if inOrder {
        InsertedExact(before, inner.bitmap, w, chain, bloom, floor);
        StoredExtends(database.filters, w, chain, chain', floor);
      }
      if blockNumber == inner.toBlock {
        RollOver(blockNumber, chain');
      }
      next := blockNumber + 1;
      chain := chain';
    }

    /** Persists the full window and starts the next one. */
    method RollOver(blockNumber: nat, ghost chain': seq<BloomFilter>)
      requires inner.InMemory() && inner.toBlock == blockNumber < TWO_64
      modifies this`inner, database`filters
      ensures fresh(inner) && inner.InMemory() && inner.fromBlock == blockNumber + 1
      ensures forall i: nat, j: nat :: i < BLOOM_LENGTH && j < NUM_BLOCKS ==> !Cell(inner.bitmap, i, j)
      ensures KeyOf(old(inner.fromBlock)) in database.filters
      ensures database.filters == old(database.filters)[KeyOf(old(inner.fromBlock)) := database.filters[KeyOf(old(inner.fromBlock))]]
      ensures database.filters[KeyOf(old(inner.fromBlock))] == old(Encode(inner.fromBlock, inner.toBlock, inner.bitmap.rows))
      ensures old(Full(chain')) ==> ExactBelow(inner, database.filters, blockNumber + 1, chain', floor)
    {
      hide Encode, ParseHeader, DecodeRow, WindowExact, AllStored;
      var blob := MarshalWindow(inner);
      if Full(chain') {
        PersistedExact(inner.fromBlock, inner.bitmap, blob, database.filters, chain', floor);
      }
      database.filters := database.filters[KeyOf(inner.fromBlock) := blob];
      inner := new FilterView.New(blockNumber + 1);
      if |chain'| == blockNumber + 1 {
        EmptyExact(inner.bitmap, blockNumber + 1, chain', floor);
      }
    }

    /** The window and those below it are exact for a chain that ends with it. */
    ghost predicate Full(chain': seq<BloomFilter>)
      reads this, inner, database`filters
    {
      && |chain'| == inner.toBlock + 1 && Blooms(chain') && inner.fromBlock % NUM_BLOCKS == 0
      && WindowExact(inner.bitmap, inner.fromBlock, chain', floor)
      && AllStored(database.filters, inner.fromBlock, chain', floor)
    }

    /** Reverts the last block, re-entering the previous stored window when the current one is empty. */
    method OnReorg() returns (err: Option<FilterError>)
      requires Valid() && (next == 0 || floor < next)
      modifies this, inner, database`filters
      ensures inner == old(inner) || fresh(inner)
      ensures floor == old(floor)
      ensures err.Some? <==> old(next) == 0
      ensures err.Some? ==> unchanged(this) && unchanged(inner)
      ensures err.None? ==> Valid() && next == old(next) - 1 && chain == old(chain)[..next]
      ensures err.None? ==> Blooms(chain) && inner.fromBlock <= next <= inner.toBlock
      ensures database.filters ==
                if old(next) == old(inner.fromBlock) then old(database.filters) - {KeyOf(old(inner.fromBlock))}
                else old(database.filters)
      // the stored copy of a window that is re-entered stays behind
      ensures err.None? && old(next) == old(inner.fromBlock) ==>
                next == inner.toBlock && KeyOf(inner.fromBlock) in database.filters
    {
      hide WindowExact, AllStored;
      var currRangeStart := inner.fromBlock;
      var curBlock := Dec(next);
      if curBlock == Dec(currRangeStart) {
        err := ReEnterWindow(curBlock);
        if err.Some? {
          return;
        }
      }
      ghost var before := inner.bitmap;
      ghost var chain' := chain[..curBlock];
      next := curBlock;
      var clearErr := inner.Clear(curBlock);
      ClearedExact(before, inner.bitmap, inner.fromBlock, chain, floor);
      StoredShrinks(old(database.filters), database.filters, inner.fromBlock, old(inner.fromBlock), chain, floor);
      chain := chain';
      err := None;
    }

    /** A block that is stored and reverted leaves the columns of every retained block as they were, also across a window boundary. */
    method InsertThenReorg(bloom: Option<BloomFilter>)
      requires Valid() && floor <= next && next + 1 + 2 * NUM_BLOCKS < TWO_64
      requires bloom.Some? ==> |bloom.value| == BLOOM_LENGTH
      modifies this, inner, database`filters
      ensures Valid() && next == old(next) && chain == old(chain) && inner.fromBlock == old(inner.fromBlock)
      ensures forall i: nat, j: nat :: i < BLOOM_LENGTH && j < NUM_BLOCKS && floor <= inner.fromBlock + j ==>
                (Cell(inner.bitmap, i, j) <==> Cell(old(inner.bitmap), i, j))
    {
      ghost var w, before := inner.fromBlock, inner.bitmap;
      var inserted := Insert(bloom, next);
      var reverted := OnReorg();
      SameWindow(w, inner.fromBlock, next);
      assert chain == old(chain);
      forall i: nat, j: nat | i < BLOOM_LENGTH && j < NUM_BLOCKS && floor <= w + j
        ensures Cell(inner.bitmap, i, j) <==> Cell(before, i, j)
      {
        ExactWindowsAgree(inner.bitmap, before, w, chain, floor, i, w + j);
      }
    }

    /** Leaves the current window, dropping any stored copy of it, and loads the stored window of `curBlock`. */
    method ReEnterWindow(curBlock: nat) returns (err: Option<FilterError>)
      requires Valid() && (next == 0 || floor < next)
      requires next == inner.fromBlock && curBlock == Dec(next)
      modifies this`inner, database`filters
      ensures err.Some? <==> next == 0
      ensures err.Some? ==> inner == old(inner)
      ensures err.None? ==> fresh(inner) && inner.InMemory() && inner.fromBlock == next - NUM_BLOCKS
      ensures err.None? ==> WindowExact(inner.bitmap, inner.fromBlock, chain, floor)
      ensures database.filters == old(database.filters) - {KeyOf(next)}
      ensures err.None? ==> KeyOf(inner.fromBlock) in database.filters
    {
      hide ParseHeader, DecodeRow;
      database.filters := database.filters - {KeyOf(inner.fromBlock)};
      var rangeStartAligned := Aligned(curBlock);
      if next > 0 {
        assert StoredExact(old(database.filters), rangeStartAligned, chain, floor);
      }
      if KeyOf(rangeStartAligned) !in database.filters {
        return Some(KeyNotFound);
      }
      var data := database.filters[KeyOf(rangeStartAligned)];
      var rows := UnmarshalRows(data);
      if rows.Err? {
        return Some(CorruptFilter);
      }
      WindowExactTransfer(BlobRows(data), MemRows(rows.value), rangeStartAligned, chain, floor);
      inner := new FilterView.FromValue(MemRows(rows.value), rangeStartAligned);
      err := None;
    }
  }

  lemma SameWindow(v: nat, w: nat, n: nat)
    requires v % NUM_BLOCKS == 0 && w % NUM_BLOCKS == 0 && v <= n < v + NUM_BLOCKS && w <= n < w + NUM_BLOCKS
    ensures v == w
  {
  }

  /** uint64 decrement, which wraps at zero. */
  function Dec(n: nat): nat {
    if n == 0 then TWO_64 - 1 else n - 1
  }

  /** The whole index, current window and stored windows, agrees with the chain from `floor` on. */
  ghost predicate Exact(inner: FilterView, filters: map<RangeKey, seq<Byte>>, next: nat, chain: seq<BloomFilter>, floor: nat)
    reads inner
  {
    ExactBelow(inner, filters, next, chain, floor) && NoneAbove(filters, inner.fromBlock)
  }

  ghost predicate ExactBelow(inner: FilterView, filters: map<RangeKey, seq<Byte>>, next: nat, chain: seq<BloomFilter>, floor: nat)
    reads inner
  {
    && inner.InMemory()
    && |chain| == next && Blooms(chain)
    && inner.fromBlock % NUM_BLOCKS == 0
    && inner.fromBlock <= next <= inner.toBlock
    && WindowExact(inner.bitmap, inner.fromBlock, chain, floor)
    && AllStored(filters, inner.fromBlock, chain, floor)
  }

  /** Every retained window below `top` is stored and exact. */
  ghost predicate AllStored(filters: map<RangeKey, seq<Byte>>, top: nat, chain: seq<BloomFilter>, floor: nat) {
    forall w: nat :: w % NUM_BLOCKS == 0 && Aligned(floor) <= w < top ==> StoredExact(filters, w, chain, floor)
  }

  /** No window above `top` is stored. */
  ghost predicate NoneAbove(filters: map<RangeKey, seq<Byte>>, top: nat) {
    forall w: nat :: top < w && w % NUM_BLOCKS == 0 ==> KeyOf(w) !in filters
  }

  lemma ExactBounds(inner: FilterView, filters: map<RangeKey, seq<Byte>>, next: nat, chain: seq<BloomFilter>, floor: nat)
    requires Exact(inner, filters, next, chain, floor)
    ensures inner.InMemory() && inner.fromBlock == Aligned(next) && inner.toBlock == inner.fromBlock + MAX_BLOCK_OFFSET
    ensures |chain| == next && Blooms(chain)
  {
    hide WindowExact, AllStored, NoneAbove;
  }

  /** The blocks from the floor on are the same. */
  ghost predicate AgreeFrom(floor: nat, a: seq<BloomFilter>, b: seq<BloomFilter>)
    requires |a| == |b|
  {
    forall n: nat :: floor <= n < |a| ==> a[n] == b[n]
  }

  lemma ColumnUnique(b: Bitmap, w: nat, chain: seq<BloomFilter>, chain': seq<BloomFilter>, n: nat)
    requires ValidBitmap(b) && w <= n < w + NUM_BLOCKS && n < |chain| == |chain'| && Blooms(chain) && Blooms(chain')
    requires ColumnExact(b, w, chain, n) && ColumnExact(b, w, chain', n)
    ensures chain[n] == chain'[n]
  {
    hide Cell;
    forall i: nat | i < BLOOM_LENGTH ensures chain[n][i] == chain'[n][i] {
      assert Cell(b, i, n - w) <==> chain[n][i];
    }
  }

  lemma WindowExactSwap(b: Bitmap, w: nat, chain: seq<BloomFilter>, chain': seq<BloomFilter>, floor: nat)
    requires WindowExact(b, w, chain, floor) && |chain| == |chain'| && AgreeFrom(floor, chain, chain')
    ensures WindowExact(b, w, chain', floor)
  {
    hide ColumnIs;
    forall n: nat | w <= n < w + NUM_BLOCKS && floor <= n ensures ColumnExact(b, w, chain', n) {
      assert ColumnExact(b, w, chain, n);
    }
  }

  /** An index exact for one chain is exact for another of its length if and only if they agree from the floor on. */
  lemma ExactForIff(
    inner: FilterView, filters: map<RangeKey, seq<Byte>>, next: nat, chain: seq<BloomFilter>, chain': seq<BloomFilter>, floor: nat)
    requires Exact(inner, filters, next, chain, floor) && |chain| == |chain'| && Blooms(chain')
    ensures Exact(inner, filters, next, chain', floor) <==> AgreeFrom(floor, chain, chain')
  {
    hide ColumnExact, GoodBlob, AgreeFrom;
    if AgreeFrom(floor, chain, chain') {
      WindowExactSwap(inner.bitmap, inner.fromBlock, chain, chain', floor);
      forall w: nat | w % NUM_BLOCKS == 0 && Aligned(floor) <= w < inner.fromBlock ensures StoredExact(filters, w, chain', floor) {
        assert StoredExact(filters, w, chain, floor);
        WindowExactSwap(BlobRows(filters[KeyOf(w)]), w, chain, chain', floor);
      }
    }
    if Exact(inner, filters, next, chain', floor) {
      ExactForBoth(inner, filters, next, chain, chain', floor);
    }
  }

  lemma ExactForBoth(
    inner: FilterView, filters: map<RangeKey, seq<Byte>>, next: nat, chain: seq<BloomFilter>, chain': seq<BloomFilter>, floor: nat)
    requires Exact(inner, filters, next, chain, floor) && Exact(inner, filters, next, chain', floor)
    ensures AgreeFrom(floor, chain, chain')
  {
    hide ColumnExact, GoodBlob, NoneAbove;
    forall n: nat | floor <= n < |chain| ensures chain[n] == chain'[n] {
      var w := Aligned(n);
      AlignedOrder(floor, n);
      if w == inner.fromBlock {
        ColumnUnique(inner.bitmap, w, chain, chain', n);
      } else {
        assert StoredExact(filters, w, chain, floor) && StoredExact(filters, w, chain', floor);
        ColumnUnique(BlobRows(filters[KeyOf(w)]), w, chain, chain', n);
      }
    }
  }

  /** Raising the floor and dropping windows wholly below it keeps the index exact. */
  lemma PrunedExact(
    inner: FilterView, filters: map<RangeKey, seq<Byte>>, after: map<RangeKey, seq<Byte>>, next: nat, chain: seq<BloomFilter>,
    floor: nat, bound: nat)
    requires Exact(inner, filters, next, chain, floor) && floor <= bound
    requires forall k :: k in after <==> k in filters && Aligned(bound) <= k.fromBlock
    requires forall k :: k in after ==> after[k] == filters[k]
    ensures Exact(inner, after, next, chain, bound) && ExactBelow(inner, after, next, chain, bound)
  {
    hide ColumnExact, GoodBlob;
    AlignedOrder(floor, bound);
    forall w: nat | w % NUM_BLOCKS == 0 && Aligned(bound) <= w < inner.fromBlock ensures StoredExact(after, w, chain, bound) {
      assert KeyOf(w).fromBlock == w;
      assert StoredExact(filters, w, chain, floor);
    }
  }

  lemma InsertedExact(before: Bitmap, after: Bitmap, w: nat, chain: seq<BloomFilter>, bloom: Option<BloomFilter>, floor: nat)
    requires WindowExact(before, w, chain, floor) && ValidBitmap(after)
    requires w <= |chain| < w + NUM_BLOCKS
    requires bloom.Some? ==> |bloom.value| == BLOOM_LENGTH
    requires bloom.None? ==> after == before
    requires bloom.Some? ==>
               forall i: nat, j: nat :: i < BLOOM_LENGTH && j < NUM_BLOCKS ==>
                 (Cell(after, i, j) <==> Cell(before, i, j) || (j == |chain| - w && bloom.value[i]))
    ensures WindowExact(after, w, chain + [BloomOrEmpty(bloom)], floor)
  {
    var chain' := chain + [BloomOrEmpty(bloom)];
    forall n: nat | w <= n < w + NUM_BLOCKS && floor <= n ensures ColumnExact(after, w, chain', n) {
      assert ColumnExact(before, w, chain, n);
    }
  }

  lemma ClearedExact(before: Bitmap, after: Bitmap, w: nat, chain: seq<BloomFilter>, floor: nat)
    requires WindowExact(before, w, chain, floor) && ValidBitmap(after)
    requires 0 < |chain| && w <= |chain| - 1 < w + NUM_BLOCKS
    requires forall i: nat, j: nat :: i < BLOOM_LENGTH && j < NUM_BLOCKS ==>
               (Cell(after, i, j) <==> Cell(before, i, j) && j != |chain| - 1 - w)
    ensures WindowExact(after, w, chain[..|chain| - 1], floor)
  {
    var chain' := chain[..|chain| - 1];
    forall n: nat | w <= n < w + NUM_BLOCKS && floor <= n ensures ColumnExact(after, w, chain', n) {
      assert ColumnExact(before, w, chain, n);
    }
  }

  lemma EmptyExact(b: Bitmap, w: nat, chain: seq<BloomFilter>, floor: nat)
    requires ValidBitmap(b) && (|chain| <= w || |chain| <= floor)
    requires forall i: nat, j: nat :: i < BLOOM_LENGTH && j < NUM_BLOCKS ==> !Cell(b, i, j)
    ensures WindowExact(b, w, chain, floor)
  {
    forall n: nat | w <= n < w + NUM_BLOCKS && floor <= n ensures ColumnExact(b, w, chain, n) {
    }
  }

  /** Only the chain below `top` matters to the windows below `top`. */
  lemma StoredExtends(filters: map<RangeKey, seq<Byte>>, top: nat, chain: seq<BloomFilter>, chain': seq<BloomFilter>, floor: nat)
    requires AllStored(filters, top, chain, floor) && top % NUM_BLOCKS == 0
    requires top <= |chain| && top <= |chain'| && chain[..top] == chain'[..top]
    ensures AllStored(filters, top, chain', floor)
  {
    hide WindowExact, GoodBlob;
    forall w: nat | w % NUM_BLOCKS == 0 && Aligned(floor) <= w < top ensures StoredExact(filters, w, chain', floor) {
      assert StoredExact(filters, w, chain, floor);
      assert chain[..w + NUM_BLOCKS] == chain[..top][..w + NUM_BLOCKS] == chain'[..w + NUM_BLOCKS];
      WindowExactExtend(BlobRows(filters[KeyOf(w)]), w, chain, chain', floor);
    }
  }

  lemma PersistedExact(
    w: nat, b: Bitmap, blob: seq<Byte>, filters: map<RangeKey, seq<Byte>>, chain: seq<BloomFilter>, floor: nat)
    requires WindowExact(b, w, chain, floor) && w % NUM_BLOCKS == 0
    requires GoodBlob(blob, w) && SameRows(b, BlobRows(blob))
    requires AllStored(filters, w, chain, floor)
    ensures AllStored(filters[KeyOf(w) := blob], w + NUM_BLOCKS, chain, floor)
  {
    WindowExactTransfer(b, BlobRows(blob), w, chain, floor);
    StoredGrows(filters, w, blob, chain, floor);
  }

  lemma StoredGrows(filters: map<RangeKey, seq<Byte>>, top: nat, blob: seq<Byte>, chain: seq<BloomFilter>, floor: nat)
    requires AllStored(filters, top, chain, floor) && top % NUM_BLOCKS == 0
    requires GoodBlob(blob, top) && WindowExact(BlobRows(blob), top, chain, floor)
    ensures AllStored(filters[KeyOf(top) := blob], top + NUM_BLOCKS, chain, floor)
  {
    hide WindowExact, GoodBlob;
    forall w: nat | w % NUM_BLOCKS == 0 && Aligned(floor) <= w < top + NUM_BLOCKS
      ensures StoredExact(filters[KeyOf(top) := blob], w, chain, floor)
    {
      if w != top {
        assert StoredExact(filters, w, chain, floor);
      }
    }
  }

  lemma StoredShrinks(filters: map<RangeKey, seq<Byte>>, filters': map<RangeKey, seq<Byte>>, top': nat, top: nat, chain: seq<BloomFilter>, floor: nat)
    requires AllStored(filters, top, chain, floor)
    requires top' <= top && top' % NUM_BLOCKS == 0 && top' < |chain|
    requires filters' == filters || filters' == filters - {KeyOf(top)}
    ensures AllStored(filters', top', chain[..|chain| - 1], floor)
  {
    forall w: nat | w % NUM_BLOCKS == 0 && Aligned(floor) <= w < top' ensures StoredExact(filters', w, chain, floor) {
      assert StoredExact(filters, w, chain, floor);
    }
    StoredExtends(filters', top', chain, chain[..|chain| - 1], floor);
  }
}
