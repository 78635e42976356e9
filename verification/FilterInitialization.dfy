/**
 Bringing the running event filter up to the chain head at start-up: reuse the
 persisted snapshot when it is caught up or in the head's window, and rebuild from
 the most recent persisted window otherwise.

 Models the initialisers and the snapshot codec of core/running_event_filter.go and
 pruner/running_event_filter.go. A node that does not prune is the case `floor == 0`.
 */
module FilterInitialization {
  import opened Common
  import opened Words
  import opened Bloom
  import opened FilterCodec
  import opened AggregatedFilter
  import opened Store
  import opened RunningEventFilter

  // ---------------------------------------------------------------- snapshot codec

  datatype Snapshot = Snapshot(fromBlock: nat, rows: seq<Row>, next: nat)

  ghost predicate ValidSnapshot(s: Snapshot) {
    ValidRows(s.rows) && s.fromBlock < TWO_64 && s.next < TWO_64
  }

  /** RunningEventFilter.MarshalBinary: length-prefixed window, then the next block. */
  function EncodeSnapshot(s: Snapshot): (data: seq<Byte>) {
    var inner := Encode(s.fromBlock, (s.fromBlock + MAX_BLOCK_OFFSET) % TWO_64, s.rows);
    PutBE(|inner|, 4) + inner + PutBE(s.next, 8)
  }

  /** RunningEventFilter.UnmarshalBinary: a snapshot exactly if the data starts with its encoding. */
  method DecodeSnapshot(data: seq<Byte>) returns (r: Option<Snapshot>)
    ensures r.Some? ==> ValidSnapshot(r.value) && EncodeSnapshot(r.value) <= data
    ensures forall s: Snapshot :: ValidSnapshot(s) && EncodeSnapshot(s) <= data ==> r == Some(s)
  {
    hide DecodeRow, ParseHeader, EncodeSnapshot, ValidSnapshot;
    forall s: Snapshot | ValidSnapshot(s) && EncodeSnapshot(s) <= data ensures SnapshotParts(data, s) {
      SnapshotIffParts(data, s);
    }
    if |data| < 4 {
      return None;
    }
    var innerLen := GetBE(data[..4]);
    if |data| < 4 + innerLen {
      return None;
    }
    var inner := data[4..4 + innerLen];
    var header := ParseHeader(inner);
    if header.Err? {
      return None;
    }
    var rows := UnmarshalRows(inner);
    if rows.Err? {
      DecodesReadable(inner);
      return None;
    }
    if |data| < 4 + innerLen + 8 {
      return None;
    }
    r := Some(Snapshot(header.value.fromBlock, rows.value, GetBE(data[4 + innerLen..4 + innerLen + 8])));
    SameRowsDecode(inner, rows.value);
    SnapshotIffParts(data, r.value);
    forall s: Snapshot | ValidSnapshot(s) && EncodeSnapshot(s) <= data ensures r == Some(s) {
      assert SnapshotParts(data, s) && SnapshotParts(data, r.value);
      DecodesUnique(inner, s.fromBlock, s.rows, r.value.rows);
    }
  }

  /** What a decoder reads off the bytes of a snapshot. */
  ghost predicate SnapshotParts(data: seq<Byte>, s: Snapshot) {
    && |data| >= 4 + BLOB_SIZE + 8
    && GetBE(data[..4]) == BLOB_SIZE
    && Decodes(data[4..4 + BLOB_SIZE], s.fromBlock, s.rows)
    && GetBE(data[4 + BLOB_SIZE..4 + BLOB_SIZE + 8]) == s.next
  }

  lemma SnapshotIffParts(data: seq<Byte>, s: Snapshot)
    ensures ValidSnapshot(s) && EncodeSnapshot(s) <= data <==> SnapshotParts(data, s)
  {
    hide DecodeRow, Encode, ParseHeader, Decodes;
    Pow256Values();
    if ValidSnapshot(s) && EncodeSnapshot(s) <= data {
      SnapshotLayout(data, s);
    }
    if SnapshotParts(data, s) {
      SnapshotFromParts(data, s);
    }
  }

  lemma SnapshotLayout(data: seq<Byte>, s: Snapshot)
    requires ValidSnapshot(s) && EncodeSnapshot(s) <= data
    ensures SnapshotParts(data, s)
  {
    hide DecodeRow, Encode, ParseHeader, Decodes, GetBE, PutBE;
    var inner := Encode(s.fromBlock, (s.fromBlock + MAX_BLOCK_OFFSET) % TWO_64, s.rows);
    EncodeParts(s.fromBlock, (s.fromBlock + MAX_BLOCK_OFFSET) % TWO_64, s.rows, 0);
    DecodesIffCanonical(inner, s.fromBlock, s.rows);
    Pow256Values();
    GetPut(BLOB_SIZE, 4);
    GetPut(s.next, 8);
    ThreeParts(PutBE(BLOB_SIZE, 4), inner, PutBE(s.next, 8));
    PrefixSlice(EncodeSnapshot(s), data, 0, 4);
    PrefixSlice(EncodeSnapshot(s), data, 4, 4 + BLOB_SIZE);
    PrefixSlice(EncodeSnapshot(s), data, 4 + BLOB_SIZE, 4 + BLOB_SIZE + 8);
  }

  lemma PrefixSlice<T>(s: seq<T>, t: seq<T>, a: nat, b: nat)
    requires s <= t && a <= b <= |s|
    ensures s[a..b] == t[a..b]
  {
    assert s == t[..|s|];
    SliceOfSlice(t, 0, |s|, a, b);
  }

  lemma SnapshotFromParts(data: seq<Byte>, s: Snapshot)
    requires SnapshotParts(data, s)
    ensures ValidSnapshot(s) && EncodeSnapshot(s) <= data
  {
    hide DecodeRow, Encode, ParseHeader, Decodes;
    var inner := data[4..4 + BLOB_SIZE];
    DecodesIffCanonical(inner, s.fromBlock, s.rows);
    PutGet(data[..4]);
    PutGet(data[4 + BLOB_SIZE..4 + BLOB_SIZE + 8]);
    Pow256Values();
    Split(data, 0, 4, 4 + BLOB_SIZE);
    Split(data, 0, 4 + BLOB_SIZE, 4 + BLOB_SIZE + 8);
    assert EncodeSnapshot(s) == data[..4 + BLOB_SIZE + 8];
  }

  lemma DecodesReadable(data: seq<Byte>)
    requires |data| == BLOB_SIZE && !FullyReadable(BlobRows(data))
    ensures forall fromBlock: nat, rows: seq<Row> :: !Decodes(data, fromBlock, rows)
  {
    hide ParseHeader, DecodeRow;
  }

  lemma SameRowsDecode(data: seq<Byte>, rows: seq<Row>)
    requires ParseHeader(data).Ok? && SameRows(BlobRows(data), MemRows(rows))
    ensures Decodes(data, ParseHeader(data).value.fromBlock, rows)
  {
    hide ParseHeader, DecodeRow;
    forall i | 0 <= i < BLOOM_LENGTH ensures DecodeRow(data, i) == Ok(rows[i]) {
      assert RowAt(BlobRows(data), i) == RowAt(MemRows(rows), i);
    }
  }

  lemma DecodesUnique(data: seq<Byte>, fromBlock: nat, a: seq<Row>, b: seq<Row>)
    requires Decodes(data, fromBlock, a) && exists f: nat :: Decodes(data, f, b)
    ensures a == b && Decodes(data, fromBlock, b)
  {
    hide ParseHeader, DecodeRow;
    forall i | 0 <= i < BLOOM_LENGTH ensures a[i] == b[i] {
      assert DecodeRow(data, i) == Ok(a[i]);
    }
  }

  lemma ThreeParts<T>(a: seq<T>, b: seq<T>, c: seq<T>)
    ensures var s := a + b + c;
            && s[..|a|] == a && s[|a|..|a| + |b|] == b
            && s[|a| + |b|..|a| + |b| + |c|] == c
  {
  }

  // ---------------------------------------------------------------- what start-up relies on

  /** The receipts of every retained block are present, and `chain` holds their blooms. */
  ghost predicate BlocksPresent(database: Database, h: Locations, chain: seq<BloomFilter>, floor: nat)
    reads database
  {
    && Blooms(chain) && 0 < |chain| && floor < |chain| && |chain| + 3 * NUM_BLOCKS < TWO_64
    && database.height == Some(|chain| - 1)
    && BlocksFrom(database, h, chain, floor)
  }

  ghost predicate BlocksFrom(database: Database, h: Locations, chain: seq<BloomFilter>, from: nat)
    reads database
  {
    forall n: nat :: from <= n < |chain| ==> n in database.blocks && IsBloomOf(h, database.blocks[n], chain[n])
  }

  /** A stored window that ends at or below the head is exact, and so are all retained windows below it. */
  ghost predicate StoredPrefix(filters: map<RangeKey, seq<Byte>>, chain: seq<BloomFilter>, floor: nat) {
    && 0 < |chain|
    && NoneAbove(filters, Aligned(|chain|))
    && (Aligned(|chain|) == |chain| && KeyOf(|chain|) in filters ==> KeyOf(Aligned(|chain| - 1)) in filters)
    && forall w: nat :: w % NUM_BLOCKS == 0 && Aligned(floor) <= w && w + NUM_BLOCKS <= |chain| && KeyOf(w) in filters
         ==> AllStored(filters, w + NUM_BLOCKS, chain, floor)
  }

  /** In every reachable state of the running filter the stored windows are as start-up relies on. */
  lemma ReachableStoredPrefix(inner: FilterView, filters: map<RangeKey, seq<Byte>>, chain: seq<BloomFilter>, floor: nat)
    requires Exact(inner, filters, |chain|, chain, floor) && floor < |chain|
    ensures StoredPrefix(filters, chain, floor)
  {
    hide ParseHeader, DecodeRow;
    assert inner.fromBlock == Aligned(|chain|);
    if Aligned(|chain|) == |chain| {
      assert StoredExact(filters, Aligned(|chain| - 1), chain, floor);
    }
  }

  /** The window of the head is stored although the head is not its last block. */
  predicate HeadWindowStored(filters: map<RangeKey, seq<Byte>>, latest: nat) {
    KeyOf(Aligned(latest)) in filters && latest != Aligned(latest) + MAX_BLOCK_OFFSET
  }

  /**
   A reorg back into the previous window leaves that window's stored copy behind, so a
   rebuild from the state it reaches ends beyond the head, and the next block cannot be
   stored.
   */
  method ReorgThenRebuild(rf: RunningFilter, h: Locations, floor: nat, bloom: Option<BloomFilter>)
    returns (rebuilt: RunningFilter, stored: Option<Error>)
    requires rf.Valid() && 0 < rf.next == rf.inner.fromBlock && floor == rf.floor < rf.next - 1
    requires rf.database.height == Some(rf.next - 1) && BlocksPresent(rf.database, h, rf.chain, rf.floor)
    modifies rf, rf.inner, rf.database
    ensures rf.next == old(rf.next) - 1 && rf.database.height == Some(rf.next - 1)
    ensures rebuilt.next == rf.next + 1 && rebuilt.inner.fromBlock == rebuilt.next && stored == Some(BlockOutOfRange)
  {
    hide IsBloomOf, StoredPrefix, Exact, ExactBelow;
    var database := rf.database;
    var err := rf.OnReorg();
    ExactBounds(rf.inner, database.filters, rf.next, rf.chain, rf.floor);
    database.height := Some(rf.next - 1);
    ReachableStoredPrefix(rf.inner, database.filters, rf.chain, rf.floor);
    rebuilt := RebuildRunningEventFilter(database, h, rf.next - 1, floor, rf.chain);
    stored := rebuilt.Insert(bloom, rf.next);
  }

  // ---------------------------------------------------------------- fill and rebuild

  /** Inserts the bloom of every block in [from, latest], crossing any number of windows. */
  method FillRunningEventFilter(
    database: Database, h: Locations, rf: RunningFilter, from: nat, latest: nat, ghost chain: seq<BloomFilter>)
    returns (err: Option<FilterError>)
    requires rf.Indexed() && rf.database == database && rf.next == from <= latest + 1 == |chain|
    requires NoneAbove(database.filters, Aligned(|chain|))
    requires BlocksFrom(database, h, chain, from) && Blooms(chain) && |chain| + 3 * NUM_BLOCKS < TWO_64
    requires rf.chain == chain[..from]
    modifies rf, rf.inner, database`filters
    ensures rf.inner == old(rf.inner) || fresh(rf.inner)
    ensures err.None? && rf.Valid() && rf.next == latest + 1 && rf.chain == chain && rf.floor == old(rf.floor)
  {
    hide WindowExact, AllStored, InsertedRows, Encode, Cell, IsBloomOf;
    var blockNum := from;
    while blockNum <= latest
      invariant from <= blockNum <= latest + 1
      invariant rf.inner == old(rf.inner) || fresh(rf.inner)
      invariant rf.Indexed() && rf.next == blockNum && rf.chain == chain[..blockNum] && rf.floor == old(rf.floor)
      invariant NoneAbove(database.filters, Aligned(|chain|))
    {
      if blockNum !in database.blocks {
        return Some(KeyNotFound);
      }
      var bloom := EventsBloom(h, database.blocks[blockNum]);
      BloomUnique(h, database.blocks[blockNum], bloom, chain[blockNum]);
      var insertErr := rf.Insert(Some(bloom), blockNum);
      if insertErr.Some? {
        return Some(CorruptFilter);
      }
      assert chain[..blockNum + 1] == chain[..blockNum] + [chain[blockNum]];
      blockNum := blockNum + 1;
    }
    assert chain[..|chain|] == chain;
    err := None;
  }

  ghost predicate NoneBetween(filters: map<RangeKey, seq<Byte>>, lo: nat, hi: nat) {
    forall w: nat :: lo <= w <= hi && w % NUM_BLOCKS == 0 ==> KeyOf(w) !in filters
  }

  /** Where the walk back from the head's window ends: after the most recent stored window, or at the floor. */
  ghost predicate ResumePoint(filters: map<RangeKey, seq<Byte>>, latest: nat, floor: nat, continueFrom: nat, windowStart: nat) {
    && windowStart % NUM_BLOCKS == 0
    && NoneBetween(filters, windowStart, Aligned(latest))
    && (|| (continueFrom == floor && windowStart == Aligned(floor))
        || (&& continueFrom == windowStart
            && Aligned(floor) + NUM_BLOCKS <= windowStart <= Aligned(latest) + NUM_BLOCKS
            && KeyOf(windowStart - NUM_BLOCKS) in filters))
  }

  method FindResumePoint(database: Database, latest: nat, floor: nat) returns (continueFrom: nat, windowStart: nat)
    requires floor <= latest
    ensures ResumePoint(database.filters, latest, floor, continueFrom, windowStart)
  {
    AlignedOrder(floor, latest);
    NoneBetweenShrinks(database.filters, Aligned(latest) + 1, Aligned(latest) + 1, Aligned(latest));
    hide NoneBetween, Aligned;
    var floorAligned := Aligned(floor);
    var rangeStartAligned := Aligned(latest);
    continueFrom, windowStart := floor, floorAligned;
    while true
      invariant rangeStartAligned % NUM_BLOCKS == 0 && floorAligned <= rangeStartAligned <= Aligned(latest)
      invariant NoneBetween(database.filters, rangeStartAligned + 1, Aligned(latest))
      invariant continueFrom == floor && windowStart == floorAligned
      decreases rangeStartAligned
    {
      if KeyOf(rangeStartAligned) in database.filters {
        continueFrom := rangeStartAligned + NUM_BLOCKS;
        windowStart := continueFrom;
        NoneBetweenShrinks(database.filters, rangeStartAligned + 1, windowStart, Aligned(latest));
        break;
      }
      NoneBetweenGrows(database.filters, rangeStartAligned, Aligned(latest));
      if rangeStartAligned <= floorAligned {
        NoneBetweenShrinks(
          database.filters, if rangeStartAligned < NUM_BLOCKS then 0 else rangeStartAligned - NUM_BLOCKS + 1,
          rangeStartAligned, Aligned(latest));
        break;
      }
      WindowGap(floorAligned, rangeStartAligned);
      rangeStartAligned := rangeStartAligned - NUM_BLOCKS;
    }
  }

  lemma NoneBetweenShrinks(filters: map<RangeKey, seq<Byte>>, lo: nat, lo': nat, hi: nat)
    requires lo <= lo' && (lo <= hi ==> NoneBetween(filters, lo, hi))
    ensures NoneBetween(filters, lo', hi)
  {
  }

  lemma NoneBetweenGrows(filters: map<RangeKey, seq<Byte>>, w: nat, hi: nat)
    requires NoneBetween(filters, w + 1, hi) && w % NUM_BLOCKS == 0 && KeyOf(w) !in filters
    ensures NoneBetween(filters, if w < NUM_BLOCKS then 0 else w - NUM_BLOCKS + 1, hi)
  {
    forall v: nat | w < v + NUM_BLOCKS && v <= hi && v % NUM_BLOCKS == 0 ensures KeyOf(v) !in filters {
      if v < w {
        WindowGap(v, w);
      }
    }
  }

  lemma ResumeStored(
    filters: map<RangeKey, seq<Byte>>, chain: seq<BloomFilter>, floor: nat, continueFrom: nat, windowStart: nat)
    requires floor < |chain| && StoredPrefix(filters, chain, floor)
    requires ResumePoint(filters, |chain| - 1, floor, continueFrom, windowStart) && continueFrom <= |chain|
    ensures AllStored(filters, windowStart, chain[..continueFrom], floor)
    ensures NoneAbove(filters, windowStart)
  {
    hide StoredExact;
    if windowStart > Aligned(floor) {
      StoredExtends(filters, windowStart, chain, chain[..continueFrom], floor);
    }
    ResumeNoneAbove(filters, chain, floor, continueFrom, windowStart);
  }

  lemma ResumeNoneAbove(
    filters: map<RangeKey, seq<Byte>>, chain: seq<BloomFilter>, floor: nat, continueFrom: nat, windowStart: nat)
    requires floor < |chain| && StoredPrefix(filters, chain, floor)
    requires ResumePoint(filters, |chain| - 1, floor, continueFrom, windowStart) && continueFrom <= |chain|
    ensures NoneAbove(filters, windowStart)
  {
    hide StoredExact, AllStored;
    var head := Aligned(|chain| - 1);
    forall w: nat | windowStart < w && w % NUM_BLOCKS == 0 ensures KeyOf(w) !in filters {
      if w > head {
        WindowGap(head, w);
        if w == |chain| {
          assert KeyOf(head) !in filters;
        }
      }
    }
  }

  /** The resume point lies beyond the head exactly when the head's window is stored ahead of time. */
  lemma ResumeBeyondHead(filters: map<RangeKey, seq<Byte>>, latest: nat, floor: nat, continueFrom: nat, windowStart: nat)
    requires floor <= latest && ResumePoint(filters, latest, floor, continueFrom, windowStart)
    ensures continueFrom > latest + 1 <==> HeadWindowStored(filters, latest)
    ensures continueFrom > latest + 1 ==> continueFrom == Aligned(latest) + NUM_BLOCKS
  {
    var head := Aligned(latest);
    if head < windowStart {
      WindowGap(head, windowStart);
    }
  }

  /**
   Walks back from the head's window to the most recent stored one and fills forward.
   A stored window is taken to be complete, so the filter ends exactly at the head if
   and only if the head's own window is not stored ahead of time.
   */
  method RebuildRunningEventFilter(database: Database, h: Locations, latest: nat, floor: nat, ghost chain: seq<BloomFilter>)
    returns (rf: RunningFilter)
    requires BlocksPresent(database, h, chain, floor) && |chain| == latest + 1
    requires StoredPrefix(database.filters, chain, floor)
    modifies database`filters
    ensures fresh(rf) && fresh(rf.inner) && rf.database == database
    ensures rf.next == if old(HeadWindowStored(database.filters, latest)) then Aligned(latest) + NUM_BLOCKS else latest + 1
    ensures rf.next == latest + 1 ==> rf.Valid() && rf.chain == chain && rf.floor == floor
    ensures rf.next > latest + 1 ==> rf.inner.InMemory() && rf.inner.fromBlock == rf.next
  {
    hide ParseHeader, DecodeRow;
    var continueFrom, windowStart := FindResumePoint(database, latest, floor);
    ResumeBeyondHead(database.filters, latest, floor, continueFrom, windowStart);
    var filter := new FilterView.New(windowStart);
    if continueFrom > latest + 1 {
      // nothing to fill: the filter starts beyond the head
      rf := new RunningFilter(database, filter, continueFrom, [], floor);
      return;
    }
    EmptyExact(filter.bitmap, windowStart, chain[..continueFrom], floor);
    ResumeStored(database.filters, chain, floor, continueFrom, windowStart);
    rf := new RunningFilter(database, filter, continueFrom, chain[..continueFrom], floor);
    var err := FillRunningEventFilter(database, h, rf, continueFrom, latest, chain);
  }

  // ---------------------------------------------------------------- start-up

  /** What an exact running filter writes when the chain is `told`. */
  ghost predicate Written(s: Snapshot, told: seq<BloomFilter>, floor: nat) {
    && ValidSnapshot(s) && s.fromBlock % NUM_BLOCKS == 0 && s.fromBlock <= s.next <= s.fromBlock + MAX_BLOCK_OFFSET
    && |told| == s.next && Blooms(told)
    && WindowExact(MemRows(s.rows), s.fromBlock, told, floor)
  }

  /** RunningEventFilter.Write. */
  method WriteSnapshot(rf: RunningFilter) returns (ghost s: Snapshot)
    requires rf.Valid()
    modifies rf.database`snapshot
    ensures s == Snapshot(rf.inner.fromBlock, rf.inner.bitmap.rows, rf.next) && Written(s, rf.chain, rf.floor)
    ensures rf.database.snapshot == Some(EncodeSnapshot(s))
  {
    hide WindowExact, AllStored, NoneAbove, Encode, PutBE;
    var innerBytes := rf.inner.MarshalBinary();
    rf.database.snapshot := Some(PutBE(|innerBytes|, 4) + innerBytes + PutBE(rf.next, 8));
    s := Snapshot(rf.inner.fromBlock, rf.inner.bitmap.rows, rf.next);
  }

  /** The stored windows below the snapshot's own are exact for the chain now, and there is none above the head's. */
  ghost predicate SnapshotOf(
    filters: map<RangeKey, seq<Byte>>, s: Snapshot, told: seq<BloomFilter>, chain: seq<BloomFilter>, floor: nat)
  {
    && Written(s, told, floor) && s.next <= |chain|
    && AllStored(filters, s.fromBlock, chain, floor) && NoneAbove(filters, Aligned(|chain|))
  }

  /** The snapshot is used as it is, or filled in place. */
  predicate Resumable(s: Snapshot, latest: nat) {
    s.next == latest + 1 || (s.next <= latest && latest <= s.fromBlock + MAX_BLOCK_OFFSET)
  }

  /** It is caught up with a chain of that length, or behind it with the chain's head in its window. */
  lemma ResumableIff(s: Snapshot, length: nat)
    requires 0 < length
    ensures Resumable(s, length - 1) <==>
            s.next <= length && (s.next == length || length <= s.fromBlock + 8192)
  {
  }

  /** The chain with the part that a snapshot remembers of its window. */
  ghost function Remembered(chain: seq<BloomFilter>, told: seq<BloomFilter>, from: nat): (r: seq<BloomFilter>)
    requires from <= |told| <= |chain|
    ensures |r| == |chain|
    ensures forall n :: 0 <= n < |chain| ==> r[n] == if from <= n < |told| then told[n] else chain[n]
  {
    chain[..from] + told[from..] + chain[|told|..]
  }

  /** From the floor on it is the chain itself exactly if the blooms of that part are those of the chain. */
  lemma RememberedIff(chain: seq<BloomFilter>, told: seq<BloomFilter>, from: nat, floor: nat)
    requires from <= |told| <= |chain|
    ensures AgreeFrom(floor, Remembered(chain, told, from), chain) <==>
            forall n: nat :: Max(from, floor) <= n < |told| ==> told[n] == chain[n]
  {
    var r := Remembered(chain, told, from);
    if AgreeFrom(floor, r, chain) {
      forall n: nat | Max(from, floor) <= n < |told| ensures told[n] == chain[n] {
        assert r[n] == chain[n];
      }
    }
  }

  /**
   A snapshot written earlier, found in a later state of an exact index whose floor is
   no lower: if it is resumable there, it is as start-up relies on.
   */
  lemma WrittenSnapshot(
    s: Snapshot, told: seq<BloomFilter>, floor: nat,
    inner: FilterView, filters: map<RangeKey, seq<Byte>>, chain: seq<BloomFilter>, floor': nat)
    requires Written(s, told, floor) && floor <= floor' && 0 < |chain| && Resumable(s, |chain| - 1)
    requires Exact(inner, filters, |chain|, chain, floor')
    ensures SnapshotOf(filters, s, told, chain, floor')
  {
    hide ColumnExact, StoredExact;
    if s.fromBlock < inner.fromBlock {
      WindowGap(s.fromBlock, inner.fromBlock);
    } else if inner.fromBlock < s.fromBlock {
      WindowGap(inner.fromBlock, s.fromBlock);
    }
  }

  /** A running filter from a snapshot, moved up to the floor if it lies below. */
  method Resume(database: Database, s: Snapshot, floor: nat, latest: nat, ghost told: seq<BloomFilter>, ghost chain: seq<BloomFilter>)
    returns (rf: RunningFilter)
    requires |chain| == latest + 1 && floor <= latest && Blooms(chain) && |chain| + 3 * NUM_BLOCKS < TWO_64
    requires SnapshotOf(database.filters, s, told, chain, floor) && Resumable(s, latest)
    ensures fresh(rf) && fresh(rf.inner) && rf.database == database && rf.floor == floor && rf.Indexed()
    ensures rf.next == Max(s.next, if s.next == latest + 1 then 0 else floor) && rf.next <= latest + 1
    ensures rf.chain == Remembered(chain, told, s.fromBlock)[..rf.next]
  {
    hide ParseHeader, DecodeRow, ColumnIs;
    var next := if s.next == latest + 1 then s.next else if s.next < floor then floor else s.next;
    var inner := new FilterView.FromValue(MemRows(s.rows), s.fromBlock);
    ghost var r := Remembered(chain, told, s.fromBlock);
    forall n: nat | s.fromBlock <= n < s.fromBlock + NUM_BLOCKS && floor <= n
      ensures ColumnExact(inner.bitmap, s.fromBlock, r[..next], n)
    {
      assert ColumnExact(inner.bitmap, s.fromBlock, told, n);
    }
    assert chain[..s.fromBlock] == r[..next][..s.fromBlock];
    StoredExtends(database.filters, s.fromBlock, chain, r[..next], floor);
    rf := new RunningFilter(database, inner, next, r[..next], floor);
  }

  /** The oldest retained block, or 0. */
  method RetentionFloor(database: Database, ghost floor: nat) returns (r: nat)
    requires forall n: nat :: n in database.commitments <==> database.height.Some? && floor <= n <= database.height.value
    requires if database.height.Some? then floor <= database.height.value else floor == 0
    ensures r == floor
  {
    assert database.height.Some? ==> floor in database.commitments;
    var oldest := OldestRetainedBlock(database.commitments);
    r := if oldest.Some? then oldest.value else 0;
  }

  /** The stored snapshot decodes to `s`. */
  ghost predicate Stored(snapshot: Option<seq<Byte>>, s: Snapshot) {
    snapshot.Some? && ValidSnapshot(s) && EncodeSnapshot(s) <= snapshot.value
  }

  /**
   Brings the running filter to the head: from the stored snapshot when it is resumable,
   by rebuilding otherwise; no block below the floor is read. From a snapshot it is exact
   for the chain with what the snapshot remembers (see RememberedIff); from a rebuild it
   is exact for the chain unless the head's unfinished window is stored.
   */
  method Initialize(database: Database, h: Locations, ghost floor: nat, ghost told: seq<BloomFilter>, ghost chain: seq<BloomFilter>)
    returns (rf: RunningFilter, err: Option<FilterError>)
    requires forall n: nat :: n in database.commitments <==> database.height.Some? && floor <= n <= database.height.value
    requires database.height.None? ==> chain == [] && floor == 0 && NoneAbove(database.filters, 0)
    requires database.height.Some? ==> BlocksPresent(database, h, chain, floor) && StoredPrefix(database.filters, chain, floor)
    requires forall s: Snapshot :: database.height.Some? && Stored(database.snapshot, s) && Resumable(s, |chain| - 1) ==>
               SnapshotOf(database.filters, s, told, chain, floor)
    modifies database`filters
    ensures fresh(rf) && fresh(rf.inner) && rf.database == database
    ensures err.Some? <==>
            database.height.Some? && database.snapshot.Some? && forall s: Snapshot :: !Stored(database.snapshot, s)
    ensures database.height.None? ==> rf.Valid() && rf.next == 0 && rf.chain == [] && rf.floor == floor
    ensures forall s: Snapshot :: database.height.Some? && Stored(database.snapshot, s) && Resumable(s, |chain| - 1) ==>
              && rf.Valid() && rf.next == |chain| && rf.floor == floor
              && s.fromBlock <= |told| <= |chain| && rf.chain == Remembered(chain, told, s.fromBlock)
    ensures database.height.Some? && err.None? && (forall s: Snapshot :: Stored(database.snapshot, s) ==> !Resumable(s, |chain| - 1)) ==>
              && rf.next == (if old(HeadWindowStored(database.filters, |chain| - 1)) then Aligned(|chain| - 1) + NUM_BLOCKS else |chain|)
              && (rf.next == |chain| ==> rf.Valid() && rf.chain == chain && rf.floor == floor)
  {
    hide Exact, ExactBelow, IsBloomOf, StoredPrefix, ValidSnapshot, EncodeSnapshot, SnapshotOf;
    if database.height.None? {
      rf := EmptyFilter(database);
      return rf, None;
    }
    var latest := database.height.value;
    var from := RetentionFloor(database, floor);
    if database.snapshot.Some? {
      var s := DecodeSnapshot(database.snapshot.value);
      if s.None? {
        rf := EmptyFilter(database);
        return rf, Some(CorruptFilter);
      }
      assert Stored(database.snapshot, s.value);
      if Resumable(s.value, latest) {
        rf := ResumeAndFill(database, h, s.value, from, latest, told, chain);
        return rf, None;
      }
    }
    rf := RebuildRunningEventFilter(database, h, latest, from, chain);
    err := None;
  }

  method ResumeAndFill(
    database: Database, h: Locations, s: Snapshot, floor: nat, latest: nat, ghost told: seq<BloomFilter>, ghost chain: seq<BloomFilter>)
    returns (rf: RunningFilter)
    requires BlocksPresent(database, h, chain, floor) && |chain| == latest + 1
    requires SnapshotOf(database.filters, s, told, chain, floor) && Resumable(s, latest)
    modifies database`filters
    ensures fresh(rf) && fresh(rf.inner) && rf.database == database && rf.Valid() && rf.next == |chain| && rf.floor == floor
    ensures s.fromBlock <= |told| <= |chain| && rf.chain == Remembered(chain, told, s.fromBlock)
  {
    hide Exact, ExactBelow, IsBloomOf, WindowExact, AllStored, NoneAbove;
    rf := Resume(database, s, floor, latest, told, chain);
    ghost var r := Remembered(chain, told, s.fromBlock);
    assert r[..|chain|] == r;
    var err := FillRunningEventFilter(database, h, rf, rf.next, latest, r);
  }

  method EmptyFilter(database: Database) returns (rf: RunningFilter)
    ensures fresh(rf) && fresh(rf.inner) && rf.database == database && rf.next == 0 && rf.chain == [] && rf.floor == 0
    ensures NoneAbove(database.filters, 0) ==> rf.Valid()
  {
    var filter := new FilterView.New(0);
    EmptyExact(filter.bitmap, 0, [], 0);
    rf := new RunningFilter(database, filter, 0, [], 0);
  }
}
