/**
 The event filter: which events match, which blocks may hold a match, and the loop
 that collects the matches of one block up to a page size.

 Models blockchain/event_matcher.go. A Go map used as a set of keys is a `set`; its
 unspecified iteration order is a nondeterministic choice.
 */
module EventMatcher {
  import opened Common
  import opened Bloom
  import opened FilterCodec
  import opened AggregatedFilter

  /** Accepted emitters (none means any) and, per key position, the accepted values (none means any). */
  datatype Matcher = Matcher(addresses: seq<Felt>, keys: seq<set<Felt>>)

  // ---------------------------------------------------------------- exact matching

  predicate AddressMatches(m: Matcher, from: Felt) {
    m.addresses == [] || from in m.addresses
  }

  /** What the filter means for an event's keys. */
  ghost predicate KeysMatch(m: Matcher, eventKeys: seq<Felt>) {
    && |m.keys| <= |eventKeys|
    && forall i :: 0 <= i < |m.keys| ==> m.keys[i] == {} || eventKeys[i] in m.keys[i]
  }

  ghost predicate Matches(m: Matcher, event: Event) {
    AddressMatches(m, event.from) && KeysMatch(m, event.keys)
  }

  method MatchesEventKeys(m: Matcher, eventKeys: seq<Felt>) returns (r: bool)
    ensures r <==> KeysMatch(m, eventKeys)
  {
    if |eventKeys| < |m.keys| {
      return false;
    }
    for index := 0 to |eventKeys|
      invariant index <= |m.keys|
      invariant forall i :: 0 <= i < index ==> m.keys[i] == {} || eventKeys[i] in m.keys[i]
    {
      if index >= |m.keys| {
        return true;
      }
      if m.keys[index] == {} {
        continue;
      }
      if eventKeys[index] !in m.keys[index] {
        return false;
      }
    }
    return true;
  }

  // ---------------------------------------------------------------- candidate blocks

  /** The block's bloom admits a matching event. */
  ghost predicate BloomAdmits(m: Matcher, h: Locations, bloom: BloomFilter)
    requires |bloom| == BLOOM_LENGTH
  {
    && (m.addresses == [] || exists a :: a in m.addresses && BloomTest(h, bloom, AddressKey(a)))
    && forall i :: 0 <= i < |m.keys| ==> PositionAdmits(m, h, bloom, i)
  }

  ghost predicate PositionAdmits(m: Matcher, h: Locations, bloom: BloomFilter, i: nat)
    requires |bloom| == BLOOM_LENGTH && i < |m.keys|
  {
    m.keys[i] == {} || exists k :: k in m.keys[i] && BloomTest(h, bloom, IndexedKey(k, i))
  }

  method TestBloom(m: Matcher, h: Locations, bloom: BloomFilter) returns (possible: bool)
    requires |bloom| == BLOOM_LENGTH
    ensures possible <==> BloomAdmits(m, h, bloom)
  {
    possible := true;
    if |m.addresses| > 0 {
      possible := exists a :: a in m.addresses && BloomTest(h, bloom, AddressKey(a));
      if !possible {
        return;
      }
    }
    for index := 0 to |m.keys|
      invariant possible
      invariant forall i :: 0 <= i < index ==> PositionAdmits(m, h, bloom, i)
    {
      var remaining := m.keys[index];
      while remaining != {}
        invariant remaining <= m.keys[index]
        invariant possible || m.keys[index] != {}
        invariant possible ==> remaining == m.keys[index]
        invariant forall k :: k in m.keys[index] - remaining ==> !BloomTest(h, bloom, IndexedKey(k, index))
        decreases remaining
      {
        var key :| key in remaining;
        possible := BloomTest(h, bloom, IndexedKey(key, index));
        if possible {
          break;
        }
        remaining := remaining - {key};
      }
      if !possible {
        assert !PositionAdmits(m, h, bloom, index);
        return;
      }
    }
  }

  /** No addresses and no keys: every block is a candidate without reading an index. */
  method MatchesAllBlocks(m: Matcher) returns (r: bool)
    ensures r <==> m.addresses == [] && forall i :: 0 <= i < |m.keys| ==> m.keys[i] == {}
    ensures r ==> forall h: Locations, bloom :: |bloom| == BLOOM_LENGTH ==> BloomAdmits(m, h, bloom)
  {
    if |m.addresses| > 0 {
      return false;
    }
    for index := 0 to |m.keys|
      invariant forall i :: 0 <= i < index ==> m.keys[i] == {}
    {
      if m.keys[index] != {} {
        return false;
      }
    }
    return true;
  }

  /** Block `j` of the window is a candidate, read off the bit matrix. */
  ghost predicate Candidate(m: Matcher, h: Locations, b: Bitmap, j: nat)
    requires ValidBitmap(b) && j < NUM_BLOCKS
  {
    HitUpTo(m, h, b, |m.keys|, j)
  }

  ghost predicate HitUpTo(m: Matcher, h: Locations, b: Bitmap, n: nat, j: nat)
    requires ValidBitmap(b) && j < NUM_BLOCKS && n <= |m.keys|
  {
    AddressHit(m, h, b, j) && forall i :: 0 <= i < n ==> PositionHit(m, h, b, i, j)
  }

  ghost predicate AddressHit(m: Matcher, h: Locations, b: Bitmap, j: nat)
    requires ValidBitmap(b) && j < NUM_BLOCKS
  {
    m.addresses == [] || exists a :: a in m.addresses && RowsHit(b, Indices(h, AddressKey(a)), j)
  }

  ghost predicate PositionHit(m: Matcher, h: Locations, b: Bitmap, i: nat, j: nat)
    requires ValidBitmap(b) && j < NUM_BLOCKS && i < |m.keys|
  {
    m.keys[i] == {} || exists k :: k in m.keys[i] && RowsHit(b, Indices(h, IndexedKey(k, i)), j)
  }

  /** The matrix and the block's own bloom agree on whether the block is a candidate. */
  lemma CandidateIffBloomAdmits(m: Matcher, h: Locations, b: Bitmap, j: nat, bloom: BloomFilter)
    requires ValidBitmap(b) && j < NUM_BLOCKS && ColumnIs(b, j, bloom)
    ensures Candidate(m, h, b, j) <==> BloomAdmits(m, h, bloom)
  {
    forall key ensures RowsHit(b, Indices(h, key), j) <==> BloomTest(h, bloom, key) {
      ColumnAnswersLikeBloom(b, h, key, j, bloom);
    }
    forall i | 0 <= i < |m.keys| ensures PositionHit(m, h, b, i, j) <==> PositionAdmits(m, h, bloom, i) {
    }
  }

  /** A block holding an event that matches is never ruled out by its bloom. */
  lemma NoFalseNegatives(m: Matcher, h: Locations, txs: seq<TransactionEvents>, bloom: BloomFilter, t: nat, e: nat)
    requires IsBloomOf(h, txs, bloom)
    requires t < |txs| && e < |txs[t].events| && Matches(m, txs[t].events[e])
    ensures BloomAdmits(m, h, bloom)
  {
    var event := txs[t].events[e];
    assert KeyOfEvent(event, AddressKey(event.from));
    assert KeyOfBlock(txs, AddressKey(event.from));
    forall i | 0 <= i < |m.keys| ensures PositionAdmits(m, h, bloom, i) {
      var key := IndexedKey(event.keys[i], i);
      assert KeyOfEvent(event, key);
      assert KeyOfBlock(txs, key);
    }
  }

  method IndexedKeys(kMap: set<Felt>, index: nat) returns (keys: seq<BloomKey>)
    ensures forall x :: x in keys <==> x.IndexedKey? && x.index == index && x.key in kMap
    ensures keys == [] <==> kMap == {}
  {
    keys := [];
    var remaining := kMap;
    while remaining != {}
      invariant remaining <= kMap
      invariant forall x :: x in keys <==> x.IndexedKey? && x.index == index && x.key in kMap - remaining
      invariant keys == [] <==> remaining == kMap
      decreases remaining
    {
      var key :| key in remaining;
      keys := keys + [IndexedKey(key, index)];
      remaining := remaining - {key};
    }
  }

  /** Candidate blocks of a window, by intersecting one row query per constrained position. */
  method CandidateBlocksInto(m: Matcher, h: Locations, filter: FilterView, out: BitSet?) returns (err: Option<Error>)
    requires filter.Valid() && (out != null ==> out.Valid())
    modifies out
    ensures out != null ==> out.Valid()
    ensures out == null ==> err == Some(BufferNil)
    ensures out != null && out.len != NUM_BLOCKS ==> err == Some(BufferSizeMismatch)
    ensures out != null && out.len == NUM_BLOCKS && FullyReadable(filter.bitmap) ==> err.None?
    ensures err.None? ==> out != null && out.len == NUM_BLOCKS
    ensures err.None? ==> forall j: nat :: j < NUM_BLOCKS ==> (out.Test(j) <==> Candidate(m, h, filter.bitmap, j))
  {
    if out == null {
      return Some(BufferNil);
    }
    if out.len != NUM_BLOCKS {
      return Some(BufferSizeMismatch);
    }
    out.SetAll();
    var innerMatch := new BitSet(NUM_BLOCKS);
    ghost var b := filter.bitmap;
    if |m.addresses| > 0 {
      err := IntersectAddresses(m, h, filter, out, innerMatch);
      if err.Some? {
        return;
      }
      var none := out.None();
      if none {
        return None;
      }
    }
    for index := 0 to |m.keys|
      invariant out.Valid() && innerMatch.Valid()
      invariant forall j: nat :: j < NUM_BLOCKS ==> (out.Test(j) <==> HitUpTo(m, h, b, index, j))
    {
      err := IntersectPosition(m, h, filter, index, out, innerMatch);
      if err.Some? {
        return;
      }
      var none := out.None();
      if none {
        return None;
      }
    }
    err := None;
  }

  method IntersectAddresses(m: Matcher, h: Locations, filter: FilterView, out: BitSet, innerMatch: BitSet)
    returns (err: Option<Error>)
    requires filter.Valid() && out != innerMatch && m.addresses != []
    requires out.Valid() && out.len == NUM_BLOCKS && innerMatch.Valid() && innerMatch.len == NUM_BLOCKS
    modifies out, innerMatch
    ensures out.Valid() && innerMatch.Valid()
    ensures FullyReadable(filter.bitmap) ==> err.None?
    ensures err.None? ==> forall j: nat :: j < NUM_BLOCKS ==>
              (out.Test(j) <==> old(out.Test(j)) && AddressHit(m, h, filter.bitmap, j))
  {
    var keys := seq(|m.addresses|, i requires 0 <= i < |m.addresses| => AddressKey(m.addresses[i]));
    err := IntersectKeys(h, filter, keys, out, innerMatch);
    forall j: nat | j < NUM_BLOCKS ensures KeysHit(filter.bitmap, h, keys, j) <==> AddressHit(m, h, filter.bitmap, j) {
      AddressKeysHit(m, h, filter.bitmap, keys, j);
    }
  }

  method IntersectPosition(m: Matcher, h: Locations, filter: FilterView, index: nat, out: BitSet, innerMatch: BitSet)
    returns (err: Option<Error>)
    requires filter.Valid() && out != innerMatch && index < |m.keys|
    requires out.Valid() && out.len == NUM_BLOCKS && innerMatch.Valid() && innerMatch.len == NUM_BLOCKS
    modifies out, innerMatch
    ensures out.Valid() && innerMatch.Valid()
    ensures FullyReadable(filter.bitmap) ==> err.None?
    ensures err.None? ==> forall j: nat :: j < NUM_BLOCKS ==>
              (out.Test(j) <==> old(out.Test(j)) && PositionHit(m, h, filter.bitmap, index, j))
  {
    var keys := IndexedKeys(m.keys[index], index);
    err := IntersectKeys(h, filter, keys, out, innerMatch);
    forall j: nat | j < NUM_BLOCKS
      ensures KeysHit(filter.bitmap, h, keys, j) <==> PositionHit(m, h, filter.bitmap, index, j)
    {
      IndexedKeysHit(m, h, filter.bitmap, keys, index, j);
    }
  }

  /** Keeps in `out` the blocks that may hold one of the keys. */
  method IntersectKeys(h: Locations, filter: FilterView, keys: seq<BloomKey>, out: BitSet, innerMatch: BitSet)
    returns (err: Option<Error>)
    requires filter.Valid() && out != innerMatch
    requires out.Valid() && out.len == NUM_BLOCKS && innerMatch.Valid() && innerMatch.len == NUM_BLOCKS
    modifies out, innerMatch
    ensures out.Valid() && innerMatch.Valid()
    ensures err.None? <==> AllReadable(filter.bitmap, h, keys)
    ensures err.None? ==> forall j: nat :: j < NUM_BLOCKS ==>
              (out.Test(j) <==> old(out.Test(j)) && KeysHit(filter.bitmap, h, keys, j))
  {
    err := filter.BlocksForKeysInto(h, keys, innerMatch);
    if err.None? {
      assert forall j: nat :: j < NUM_BLOCKS ==> (innerMatch.Test(j) <==> RowBit(innerMatch.words, j));
      out.InPlaceIntersection(innerMatch.words);
    }
  }

  /** No false negative, end to end: a block with a matching event passes its bloom and is found by the matrix it is inserted into. */
  method InsertThenQuery(m: Matcher, h: Locations, txs: seq<TransactionEvents>, filter: FilterView, offset: nat, ghost t: nat, ghost e: nat)
    returns (possible: bool, candidate: bool)
    requires filter.InMemory() && offset < NUM_BLOCKS
    requires forall i: nat :: i < BLOOM_LENGTH ==> !Cell(filter.bitmap, i, offset)
    requires t < |txs| && e < |txs[t].events| && Matches(m, txs[t].events[e])
    modifies filter`bitmap
    ensures possible && candidate
  {
    hide IsBloomOf, BloomAdmits, Candidate, RowBit, FullyReadable;
    var bloom := EventsBloom(h, txs);
    NoFalseNegatives(m, h, txs, bloom, t, e);
    possible := TestBloom(m, h, bloom);
    var inserted := filter.Insert(Some(bloom), filter.fromBlock + offset);
    MemReadable(filter.bitmap);
    CandidateIffBloomAdmits(m, h, filter.bitmap, offset, bloom);
    var out := new BitSet(NUM_BLOCKS);
    var err := CandidateBlocksInto(m, h, filter, out);
    candidate := out.Test(offset);
  }

  lemma AddressKeysHit(m: Matcher, h: Locations, b: Bitmap, keys: seq<BloomKey>, j: nat)
    requires ValidBitmap(b) && j < NUM_BLOCKS && m.addresses != []
    requires |keys| == |m.addresses|
    requires forall i :: 0 <= i < |keys| ==> keys[i] == AddressKey(m.addresses[i])
    ensures KeysHit(b, h, keys, j) <==> AddressHit(m, h, b, j)
  {
    forall a | a in m.addresses && RowsHit(b, Indices(h, AddressKey(a)), j) ensures KeysHit(b, h, keys, j) {
      var i :| 0 <= i < |m.addresses| && m.addresses[i] == a;
      assert RowsHit(b, Indices(h, keys[i]), j);
    }
  }

  lemma IndexedKeysHit(m: Matcher, h: Locations, b: Bitmap, keys: seq<BloomKey>, index: nat, j: nat)
    requires ValidBitmap(b) && j < NUM_BLOCKS && index < |m.keys|
    requires forall x :: x in keys <==> x.IndexedKey? && x.index == index && x.key in m.keys[index]
    requires keys == [] <==> m.keys[index] == {}
    ensures KeysHit(b, h, keys, j) <==> PositionHit(m, h, b, index, j)
  {
    if k :| 0 <= k < |keys| && RowsHit(b, Indices(h, keys[k]), j) {
      assert keys[k] in keys;
      assert keys[k] == IndexedKey(keys[k].key, index);
    }
    forall k | k in m.keys[index] && RowsHit(b, Indices(h, IndexedKey(k, index)), j) ensures KeysHit(b, h, keys, j) {
      assert IndexedKey(k, index) in keys;
    }
  }

  // ---------------------------------------------------------------- collecting matches

  datatype FilteredEvent = FilteredEvent(
    event: Event,
    blockNumber: nat,
    blockHash: Option<Felt>,
    transactionHash: Felt,
    transactionIndex: nat,
    eventIndex: nat)

  /** One block as an event query sees it. */
  datatype BlockEvents = BlockEvents(number: nat, hash: Option<Felt>, txs: seq<TransactionEvents>)

  function Item(block: BlockEvents, t: nat, i: nat): (r: FilteredEvent)
    requires t < |block.txs| && i < |block.txs[t].events|
  {
    FilteredEvent(block.txs[t].events[i], block.number, block.hash, block.txs[t].transactionHash, t, i)
  }

  /** The events of the first `t` transactions, in block order. */
  function ItemsUpTo(block: BlockEvents, t: nat): (items: seq<FilteredEvent>)
    requires t <= |block.txs|
  {
    if t == 0 then []
    else
      var n := |block.txs[t - 1].events|;
      ItemsUpTo(block, t - 1) + seq(n, i requires 0 <= i < n => Item(block, t - 1, i))
  }

  function Items(block: BlockEvents): (items: seq<FilteredEvent>) {
    ItemsUpTo(block, |block.txs|)
  }

  lemma {:induction false} ItemsPrefix(block: BlockEvents, t: nat, u: nat)
    requires t <= u <= |block.txs|
    ensures ItemsUpTo(block, t) <= ItemsUpTo(block, u)
    decreases u
  {
    if t < u {
      ItemsPrefix(block, t, u - 1);
    }
  }

  lemma {:induction false} ItemAt(block: BlockEvents, t: nat, i: nat)
    requires t < |block.txs| && i < |block.txs[t].events|
    ensures |ItemsUpTo(block, t)| + i < |Items(block)|
    ensures Items(block)[|ItemsUpTo(block, t)| + i] == Item(block, t, i)
  {
    ItemOfTransaction(block, t, i);
    ItemsPrefix(block, t + 1, |block.txs|);
    hide ItemsUpTo;
  }

  lemma {:induction false} ItemOfTransaction(block: BlockEvents, t: nat, i: nat)
    requires t < |block.txs| && i < |block.txs[t].events|
    ensures |ItemsUpTo(block, t)| + i < |ItemsUpTo(block, t + 1)|
    ensures ItemsUpTo(block, t + 1)[|ItemsUpTo(block, t)| + i] == Item(block, t, i)
  {
  }

  /** Every listed item is some event of the block. */
  lemma {:induction false} ItemsSound(block: BlockEvents, t: nat, n: nat) returns (u: nat, i: nat)
    requires t <= |block.txs| && n < |ItemsUpTo(block, t)|
    ensures u < |block.txs| && i < |block.txs[u].events| && ItemsUpTo(block, t)[n] == Item(block, u, i)
  {
    var front := ItemsUpTo(block, t - 1);
    if n < |front| {
      u, i := ItemsSound(block, t - 1, n);
    } else {
      u, i := t - 1, n - |front|;
    }
  }

  /** The event lies where its indices say, in a transaction of that hash. */
  ghost predicate Points(e: FilteredEvent, txs: seq<TransactionEvents>) {
    && e.transactionIndex < |txs| && txs[e.transactionIndex].transactionHash == e.transactionHash
    && e.eventIndex < |txs[e.transactionIndex].events| && txs[e.transactionIndex].events[e.eventIndex] == e.event
  }

  /** The order of events: by block, transaction and position. */
  predicate Precedes(a: FilteredEvent, b: FilteredEvent) {
    || a.blockNumber < b.blockNumber
    || (&& a.blockNumber == b.blockNumber
        && (|| a.transactionIndex < b.transactionIndex
            || (a.transactionIndex == b.transactionIndex && a.eventIndex < b.eventIndex)))
  }

  ghost predicate InOrder(events: seq<FilteredEvent>) {
    forall i, j :: 0 <= i < j < |events| ==> Precedes(events[i], events[j])
  }

  /** The number of events in the first `t` transactions. */
  ghost function EventsBefore(txs: seq<TransactionEvents>, t: nat): nat
    requires t <= |txs|
  {
    if t == 0 then 0 else EventsBefore(txs, t - 1) + |txs[t - 1].events|
  }

  /** Which event of the block it is, counted from zero. */
  ghost function Ordinal(e: FilteredEvent, txs: seq<TransactionEvents>): nat
    requires e.transactionIndex < |txs|
  {
    EventsBefore(txs, e.transactionIndex) + e.eventIndex
  }

  /** The list of a block's events: each is where it says, with the block's number and hash, and is the n-th event of the block. */
  lemma {:induction false} ItemsListed(block: BlockEvents, t: nat)
    requires t <= |block.txs|
    ensures |ItemsUpTo(block, t)| == EventsBefore(block.txs, t)
    ensures forall n :: 0 <= n < |ItemsUpTo(block, t)| ==> ItemOf(ItemsUpTo(block, t)[n], block, t, n)
    ensures InOrder(ItemsUpTo(block, t))
  {
    if t > 0 {
      ItemsListed(block, t - 1);
    }
  }

  ghost predicate ItemOf(e: FilteredEvent, block: BlockEvents, t: nat, n: nat) {
    && e.blockNumber == block.number && e.blockHash == block.hash && Points(e, block.txs)
    && e.transactionIndex < t && Ordinal(e, block.txs) == n
  }

  ghost function Select(m: Matcher, items: seq<FilteredEvent>): (r: seq<FilteredEvent>)
    ensures |r| <= |items|
  {
    if items == [] then []
    else
      var last := items[|items| - 1];
      Select(m, items[..|items| - 1]) + (if Matches(m, last.event) then [last] else [])
  }

  lemma {:induction false} SelectConcat(m: Matcher, a: seq<FilteredEvent>, b: seq<FilteredEvent>)
    ensures Select(m, a + b) == Select(m, a) + Select(m, b)
  {
    if b == [] {
      assert a + b == a;
    } else {
      var front := b[..|b| - 1];
      SelectConcat(m, a, front);
      assert (a + b)[..|a + b| - 1] == a + front;
    }
  }

  lemma {:induction false} SelectNone(m: Matcher, items: seq<FilteredEvent>)
    requires forall n :: 0 <= n < |items| ==> !Matches(m, items[n].event)
    ensures Select(m, items) == []
  {
    if items != [] {
      SelectNone(m, items[..|items| - 1]);
    }
  }

  /** The matches of a block from its event number `skip` on. */
  ghost function MatchesFrom(m: Matcher, block: BlockEvents, skip: nat): (r: seq<FilteredEvent>) {
    var items := Items(block);
    Select(m, items[Min(skip, |items|)..])
  }

  /** The event is one of the block's, from its event number `skip` on, and matches. */
  ghost predicate Belongs(m: Matcher, block: BlockEvents, skip: nat, e: FilteredEvent) {
    && e.blockNumber == block.number && e.blockHash == block.hash && Points(e, block.txs)
    && skip <= Ordinal(e, block.txs) && Matches(m, e.event)
  }

  lemma {:induction false} SelectListed(m: Matcher, items: seq<FilteredEvent>)
    requires InOrder(items)
    ensures InOrder(Select(m, items)) && forall e :: e in Select(m, items) <==> e in items && Matches(m, e.event)
  {
    if items != [] {
      var n := |items| - 1;
      var front := Select(m, items[..n]);
      SelectListed(m, items[..n]);
      assert items == items[..n] + [items[n]];
      forall e | e in front ensures Precedes(e, items[n]) {
        assert e in items[..n];
      }
    }
  }

  lemma ItemListed(block: BlockEvents, e: FilteredEvent)
    requires e.blockNumber == block.number && e.blockHash == block.hash && Points(e, block.txs)
    ensures Ordinal(e, block.txs) < |Items(block)| && Items(block)[Ordinal(e, block.txs)] == e
  {
    ItemAt(block, e.transactionIndex, e.eventIndex);
    ItemsListed(block, e.transactionIndex);
  }

  /** The matches of a block are exactly the events that belong, in order. */
  lemma MatchesListed(m: Matcher, block: BlockEvents, skip: nat)
    ensures InOrder(MatchesFrom(m, block, skip))
    ensures forall e :: e in MatchesFrom(m, block, skip) <==> Belongs(m, block, skip, e)
  {
    hide Points, Ordinal, Select, ItemsUpTo, Matches;
    var items := Items(block);
    var k := Min(skip, |items|);
    ItemsListed(block, |block.txs|);
    SelectListed(m, items[k..]);
    forall e | Belongs(m, block, skip, e) ensures e in items[k..] {
      ItemListed(block, e);
      assert items[k..][Ordinal(e, block.txs) - k] == e;
    }
    forall e | e in items[k..]
      ensures e.blockNumber == block.number && e.blockHash == block.hash && Points(e, block.txs) && skip <= Ordinal(e, block.txs)
    {
      var n :| 0 <= n < |items[k..]| && items[k..][n] == e;
      assert ItemOf(items[k + n], block, |block.txs|, k + n);
    }
  }

  /** A block whose bloom is ruled out contributes nothing. */
  lemma RuledOutHasNoMatches(m: Matcher, h: Locations, block: BlockEvents, bloom: BloomFilter, skip: nat)
    requires IsBloomOf(h, block.txs, bloom) && !BloomAdmits(m, h, bloom)
    ensures MatchesFrom(m, block, skip) == []
  {
    var items := Items(block);
    var tail := items[Min(skip, |items|)..];
    forall n | 0 <= n < |tail| ensures !Matches(m, tail[n].event) {
      var t, i := ItemsSound(block, |block.txs|, Min(skip, |items|) + n);
      if Matches(m, block.txs[t].events[i]) {
        NoFalseNegatives(m, h, block.txs, bloom, t, i);
      }
    }
    SelectNone(m, tail);
  }

  /** The matches among the first `n` items, leaving out the first `skip`. */
  ghost function Collected(m: Matcher, items: seq<FilteredEvent>, skip: nat, n: nat): (r: seq<FilteredEvent>)
    requires n <= |items|
  {
    Select(m, items[Min(skip, n)..n])
  }

  lemma CollectedStep(m: Matcher, items: seq<FilteredEvent>, skip: nat, n: nat)
    requires n < |items|
    ensures Collected(m, items, skip, n + 1)
         == Collected(m, items, skip, n) + (if skip <= n && Matches(m, items[n].event) then [items[n]] else [])
  {
    if skip <= n {
      assert items[skip..n + 1][..n - skip] == items[skip..n];
    } else {
      assert items[n..n] == [] && items[n + 1..n + 1] == [];
    }
  }

  /**
   Appends a block's matches until the page holds `chunkSize` events. When it stops
   early, `processed` is the number of the first match left out.
   */
  method AppendBlockEvents(m: Matcher, sofar: seq<FilteredEvent>, block: BlockEvents, skipped: nat, chunkSize: nat)
    returns (matched: seq<FilteredEvent>, processed: nat, chunkReached: bool)
    ensures !chunkReached ==> matched == sofar + MatchesFrom(m, block, skipped)
    ensures chunkReached ==> skipped <= processed < |Items(block)|
    ensures chunkReached ==> matched == sofar + Select(m, Items(block)[skipped..processed])
    ensures chunkReached ==> Matches(m, Items(block)[processed].event)
    ensures chunkReached ==> |matched| >= chunkSize
    ensures |sofar| <= chunkSize ==> |matched| <= chunkSize
  {
    matched, processed := sofar, 0;
    ghost var items := Items(block);
    assert Collected(m, items, skipped, 0) == [];
    for t := 0 to |block.txs|
      invariant processed == |ItemsUpTo(block, t)| <= |items|
      invariant matched == sofar + Collected(m, items, skipped, processed)
      invariant |sofar| <= chunkSize ==> |matched| <= chunkSize
    {
      matched, processed, chunkReached :=
        AppendTransactionEvents(m, matched, block, t, skipped, processed, chunkSize, sofar);
      if chunkReached {
        return;
      }
      ItemsPrefix(block, t + 1, |block.txs|);
    }
    chunkReached := false;
    assert items[Min(skipped, |items|)..processed] == items[Min(skipped, |items|)..];
  }

  /** The inner loop of AppendBlockEvents, over the events of transaction `t`. */
  method AppendTransactionEvents(
    m: Matcher, before: seq<FilteredEvent>, block: BlockEvents, t: nat, skipped: nat, start: nat, chunkSize: nat,
    ghost sofar: seq<FilteredEvent>)
    returns (matched: seq<FilteredEvent>, processed: nat, chunkReached: bool)
    requires t < |block.txs| && start == |ItemsUpTo(block, t)| <= |Items(block)|
    requires before == sofar + Collected(m, Items(block), skipped, start)
    ensures processed <= |Items(block)|
    ensures matched == sofar + Collected(m, Items(block), skipped, processed)
    ensures !chunkReached ==> processed == |ItemsUpTo(block, t + 1)|
    ensures chunkReached ==> skipped <= processed < |Items(block)| && Matches(m, Items(block)[processed].event)
    ensures chunkReached ==> |matched| >= chunkSize
    ensures |before| <= chunkSize ==> |matched| <= chunkSize
  {
    matched, processed := before, start;
    ghost var items := Items(block);
    var events := block.txs[t].events;
    for i := 0 to |events|
      invariant processed == start + i <= |items|
      invariant matched == sofar + Collected(m, items, skipped, processed)
      invariant |before| <= chunkSize ==> |matched| <= chunkSize
    {
      ItemAt(block, t, i);
      CollectedStep(m, items, skipped, processed);
      if processed < skipped {
        processed := processed + 1;
        continue;
      }
      if |m.addresses| > 0 && events[i].from !in m.addresses {
        processed := processed + 1;
        continue;
      }
      var keysMatch := MatchesEventKeys(m, events[i].keys);
      if !keysMatch {
        processed := processed + 1;
        continue;
      }
      if |matched| < chunkSize {
        matched := matched + [Item(block, t, i)];
      } else {
        return matched, processed, true;
      }
      processed := processed + 1;
    }
    chunkReached := false;
  }
}
