/**
 Iterating over the candidate blocks of a range, window by window, with the windows
 taken from the running filter, the cache of stored windows or the store.

 Models blockchain/aggregated_bloom_filter_cache.go. The LRU cache is a map that may
 drop any of its entries when one is added.
 */
module MatchedBlockIterator {
  import opened Common
  import opened Words
  import opened Bloom
  import opened FilterCodec
  import opened AggregatedFilter
  import opened EventMatcher
  import opened Store
  import opened RunningEventFilter

  datatype IteratorError = MaxScannedBlockLimitExceed | FetchFailed | CandidatesFailed | FetchedBoundsMismatch

  /** The bloom of block `n` admits a match; blocks above the chain have no events. */
  ghost predicate CandidateBlock(m: Matcher, h: Locations, chain: seq<BloomFilter>, n: nat)
    requires Blooms(chain)
  {
    BloomAdmits(m, h, if n < |chain| then chain[n] else NoEvents())
  }

  ghost predicate NoCandidates(m: Matcher, h: Locations, chain: seq<BloomFilter>, lo: nat, hi: nat)
    requires Blooms(chain)
  {
    forall n: nat :: lo <= n < hi ==> !CandidateBlock(m, h, chain, n)
  }

  /** An exact window yields exactly the candidate blocks from the floor on. */
  lemma WindowCandidates(m: Matcher, h: Locations, b: Bitmap, w: nat, chain: seq<BloomFilter>, floor: nat)
    requires WindowExact(b, w, chain, floor) && Blooms(chain)
    ensures forall j: nat :: j < NUM_BLOCKS && floor <= w + j ==>
              (Candidate(m, h, b, j) <==> CandidateBlock(m, h, chain, w + j))
  {
    forall j: nat | j < NUM_BLOCKS && floor <= w + j
      ensures Candidate(m, h, b, j) <==> CandidateBlock(m, h, chain, w + j)
    {
      assert ColumnExact(b, w, chain, w + j);
      CandidateIffBloomAdmits(m, h, b, j, if w + j < |chain| then chain[w + j] else NoEvents());
    }
  }

  /** Every view of a retained window is what the store holds for it. */
  ghost predicate Agrees(entries: map<RangeKey, seq<Byte>>, filters: map<RangeKey, seq<Byte>>, floor: nat) {
    forall k :: k in entries && Aligned(floor) <= k.fromBlock ==> k in filters && entries[k] == filters[k]
  }

  /** Every view was there before or is what the store holds. */
  ghost predicate Refreshed(before: map<RangeKey, seq<Byte>>, after: map<RangeKey, seq<Byte>>, filters: map<RangeKey, seq<Byte>>) {
    forall k :: k in after ==> (k in before && after[k] == before[k]) || (k in filters && after[k] == filters[k])
  }

  lemma RefreshedAgrees(
    before: map<RangeKey, seq<Byte>>, after: map<RangeKey, seq<Byte>>, filters: map<RangeKey, seq<Byte>>, floor: nat)
    requires Agrees(before, filters, floor) && Refreshed(before, after, filters)
    ensures Agrees(after, filters, floor)
  {
  }

  lemma RefreshedTwice(
    a: map<RangeKey, seq<Byte>>, b: map<RangeKey, seq<Byte>>, c: map<RangeKey, seq<Byte>>, filters: map<RangeKey, seq<Byte>>)
    requires Refreshed(a, b, filters) && Refreshed(b, c, filters)
    ensures Refreshed(a, c, filters)
  {
  }

  /** A blob of window `w` that is exact for a chain. */
  ghost predicate ViewExact(blob: seq<Byte>, w: nat, chain: seq<BloomFilter>, floor: nat) {
    GoodBlob(blob, w) && WindowExact(BlobRows(blob), w, chain, floor)
  }

  /** Whatever is consulted for window `w` is exact for the chain; above the running window there is nothing. */
  ghost predicate Answers(
    entries: map<RangeKey, seq<Byte>>, filters: map<RangeKey, seq<Byte>>, inner: FilterView, chain: seq<BloomFilter>, floor: nat, w: nat)
    reads inner
  {
    if w == inner.fromBlock then inner.InMemory() && WindowExact(inner.bitmap, w, chain, floor)
    else if w > inner.fromBlock then KeyOf(w) !in entries && KeyOf(w) !in filters
    else if KeyOf(w) in entries then ViewExact(entries[KeyOf(w)], w, chain, floor)
    else KeyOf(w) in filters && ViewExact(filters[KeyOf(w)], w, chain, floor)
  }

  /** And still is when its view is dropped from the cache. */
  ghost predicate Survives(
    entries: map<RangeKey, seq<Byte>>, filters: map<RangeKey, seq<Byte>>, inner: FilterView, chain: seq<BloomFilter>, floor: nat, w: nat)
    reads inner
  {
    w < inner.fromBlock && KeyOf(w) in entries ==> KeyOf(w) in filters && ViewExact(filters[KeyOf(w)], w, chain, floor)
  }

  /** The sources of a range answer for the chain. Within one window no view of it is dropped while it is read. */
  ghost predicate Answering(
    entries: map<RangeKey, seq<Byte>>, filters: map<RangeKey, seq<Byte>>, inner: FilterView, chain: seq<BloomFilter>, floor: nat,
    lo: nat, hi: nat)
    reads inner
  {
    forall w: nat :: w % NUM_BLOCKS == 0 && Aligned(lo) <= w <= hi ==>
      && Answers(entries, filters, inner, chain, floor, w)
      && (Aligned(lo) + NUM_BLOCKS <= hi ==> Survives(entries, filters, inner, chain, floor, w))
  }

  /** With an exact index and a cache that agrees with the store, every range answers for the chain itself. */
  lemma CoherentAnswers(
    entries: map<RangeKey, seq<Byte>>, filters: map<RangeKey, seq<Byte>>, inner: FilterView, next: nat, chain: seq<BloomFilter>,
    floor: nat, lo: nat, hi: nat)
    requires Exact(inner, filters, next, chain, floor) && Agrees(entries, filters, floor) && floor <= lo
    ensures Answering(entries, filters, inner, chain, floor, lo, hi)
  {
    hide WindowExact, GoodBlob;
    forall w: nat | w % NUM_BLOCKS == 0 && Aligned(lo) <= w <= hi
      ensures Answers(entries, filters, inner, chain, floor, w) && Survives(entries, filters, inner, chain, floor, w)
    {
      AlignedOrder(floor, lo);
      assert KeyOf(w).fromBlock == w;
      assert w < inner.fromBlock ==> StoredExact(filters, w, chain, floor);
    }
  }

  /** Caching the stored view of one window of the range keeps it answering, whatever is evicted. */
  lemma AddKeepsAnswering(
    before: map<RangeKey, seq<Byte>>, after: map<RangeKey, seq<Byte>>, filters: map<RangeKey, seq<Byte>>, inner: FilterView,
    chain: seq<BloomFilter>, floor: nat, lo: nat, hi: nat, v: nat)
    requires Answering(before, filters, inner, chain, floor, lo, hi)
    requires v % NUM_BLOCKS == 0 && Aligned(lo) <= v <= hi && v < inner.fromBlock && KeyOf(v) !in before && KeyOf(v) in filters
    requires after.Keys <= before.Keys + {KeyOf(v)}
    requires forall k :: k in after ==> after[k] == if k == KeyOf(v) then filters[KeyOf(v)] else before[k]
    ensures Answering(after, filters, inner, chain, floor, lo, hi) && Refreshed(before, after, filters)
  {
    hide ViewExact, WindowExact;
    forall w: nat | w % NUM_BLOCKS == 0 && Aligned(lo) <= w <= hi
      ensures Answers(after, filters, inner, chain, floor, w)
      ensures Aligned(lo) + NUM_BLOCKS <= hi ==> Survives(after, filters, inner, chain, floor, w)
    {
      assert Answers(before, filters, inner, chain, floor, w) && Answers(before, filters, inner, chain, floor, v);
      AlignedOrder(lo, lo);
      if w < v {
        WindowGap(w, v);
      } else if v < w {
        WindowGap(v, w);
      }
    }
  }

  /** LRU-cached views of stored windows. */
  class FilterCache {
    var entries: map<RangeKey, seq<Byte>>

    constructor ()
      ensures entries == map[]
    {
      entries := map[];
    }

    /** Every cached view of a retained window is what the store holds for it. */
    ghost predicate Coherent(filters: map<RangeKey, seq<Byte>>, floor: nat)
      reads this
    {
      Agrees(entries, filters, floor)
    }

    /** Adds an entry; the cache may evict any others. */
    method Add(key: RangeKey, view: seq<Byte>)
      modifies this
      ensures key in entries && entries.Keys <= old(entries.Keys) + {key}
      ensures forall k :: k in entries ==> entries[k] == if k == key then view else old(entries)[k]
    {
      var evicted: set<RangeKey> := *;
      entries := (entries - evicted)[key := view];
    }
  }

  class Iterator {
    var currentBits: BitSet?
    var nextIndex: nat
    var currentWindowStart: nat
    var done: bool
    var scannedCount: nat
    const rangeStart: nat
    const rangeEnd: nat
    const maxScanned: nat
    const cache: FilterCache
    const running: RunningFilter
    const matcher: Matcher
    const h: Locations
    ghost const seen: seq<BloomFilter>  // the chain that the sources answer for
    ghost var pos: nat  // every block of the range below pos has been dealt with

    /** NewMatchedBlockIterator. */
    constructor (
      fromBlock: nat, toBlock: nat, maxScanned: nat, matcher: Matcher, h: Locations,
      cache: FilterCache, running: RunningFilter, ghost seen: seq<BloomFilter>)
      requires running.Valid() && Blooms(seen) && running.floor <= fromBlock
      requires Answering(cache.entries, running.database.filters, running.inner, seen, running.floor, fromBlock, toBlock)
      ensures this.rangeStart == fromBlock && this.rangeEnd == toBlock && this.maxScanned == maxScanned
      ensures this.matcher == matcher && this.h == h && this.cache == cache && this.running == running && this.seen == seen
      ensures done <==> fromBlock > toBlock
      ensures Index() && pos == fromBlock
      ensures !done ==> Valid()
      ensures currentBits == null && nextIndex == 0 && scannedCount == 0
    {
      this.rangeStart, this.rangeEnd, this.maxScanned := fromBlock, toBlock, maxScanned;
      this.matcher, this.h, this.cache, this.running, this.seen := matcher, h, cache, running, seen;
      currentBits := null;
      nextIndex := 0;
      currentWindowStart := Aligned(fromBlock);
      done := fromBlock > toBlock;
      scannedCount := 0;
      pos := fromBlock;
    }

    /** The windows that the iterator consults are exact for `seen`. */
    ghost predicate Index()
      reads running, running.inner, running.database, cache
    {
      && running.Valid() && Blooms(seen) && running.floor <= rangeStart
      && Answering(cache.entries, running.database.filters, running.inner, seen, running.floor, rangeStart, rangeEnd)
    }

    /** The invariant of an iterator that is not done. */
    ghost predicate Valid()
      reads this, running, running.inner, running.database, cache, currentBits
    {
      && Index()
      && !done
      && rangeStart <= rangeEnd && rangeStart <= pos
      && currentWindowStart % NUM_BLOCKS == 0 && currentWindowStart <= rangeEnd
      && (currentBits == null ==> pos == rangeStart && currentWindowStart == Aligned(rangeStart))
      && (currentBits != null ==>
            && pos == currentWindowStart + nextIndex && nextIndex <= NUM_BLOCKS
            && BitsExact(currentBits, currentWindowStart))
    }

    /** The bitset holds the candidates of window `w`. */
    ghost predicate BitsExact(bits: BitSet, w: nat)
      requires Blooms(seen)
      reads running, bits
    {
      && bits.Valid() && bits.len == NUM_BLOCKS
      && forall j: nat :: j < NUM_BLOCKS && running.floor <= w + j ==> (bits.Test(j) <==> CandidateBlock(matcher, h, seen, w + j))
    }

    /** Fills the bitset with the candidates of a window, from whichever source has it. */
    method FillCurrentBits(bits: BitSet, fromAligned: nat) returns (err: Option<IteratorError>)
      requires Index() && bits.Valid() && bits.len == NUM_BLOCKS
      requires fromAligned % NUM_BLOCKS == 0 && Aligned(rangeStart) <= fromAligned <= rangeEnd
      modifies bits, cache
      ensures Index() && bits.Valid() && Refreshed(old(cache.entries), cache.entries, running.database.filters)
      ensures err.None? ==> BitsExact(bits, fromAligned)
      ensures err.Some? ==> running.inner.fromBlock < fromAligned && err != Some(MaxScannedBlockLimitExceed)
    {
      hide ParseHeader, DecodeRow;
      var all := MatchesAllBlocks(matcher);
      if all {
        bits.SetAll();
        return None;
      }
      assert Answers(cache.entries, running.database.filters, running.inner, seen, running.floor, fromAligned);
      if fromAligned == running.inner.fromBlock {
        WindowCandidates(matcher, h, running.inner.bitmap, fromAligned, seen, running.floor);
        MemReadable(running.inner.bitmap);
        var e := CandidateBlocksInto(matcher, h, running.inner, bits);
        err := if e.Some? then Some(CandidatesFailed) else None;
        return;
      }
      err := FillFromStored(bits, fromAligned);
    }

    /** A window below the running one: cached, or fetched from the store and cached. */
    method FillFromStored(bits: BitSet, fromAligned: nat) returns (err: Option<IteratorError>)
      requires Index() && bits.Valid() && bits.len == NUM_BLOCKS
      requires fromAligned % NUM_BLOCKS == 0 && Aligned(rangeStart) <= fromAligned <= rangeEnd && fromAligned != running.inner.fromBlock
      modifies bits, cache
      ensures Index() && bits.Valid() && Refreshed(old(cache.entries), cache.entries, running.database.filters)
      ensures err.None? ==> BitsExact(bits, fromAligned) && KeyOf(fromAligned) in cache.entries
      ensures err.Some? ==> running.inner.fromBlock < fromAligned && err != Some(MaxScannedBlockLimitExceed)
    {
      hide ParseHeader, DecodeRow, Exact, Survives;
      var key := KeyOf(fromAligned);
      assert Answers(cache.entries, running.database.filters, running.inner, seen, running.floor, fromAligned);
      var data;
      if key in cache.entries {
        data := cache.entries[key];
      } else {
        if key !in running.database.filters {
          return Some(FetchFailed);
        }
        data := running.database.filters[key];
        var header := ParseHeader(data);
        if header.Err? {
          return Some(FetchFailed);
        }
        if header.value.fromBlock != fromAligned {
          return Some(FetchedBoundsMismatch);
        }
        ghost var before := cache.entries;
        cache.Add(key, data);
        AddKeepsAnswering(
          before, cache.entries, running.database.filters, running.inner, seen, running.floor, rangeStart, rangeEnd, fromAligned);
      }
      var view := new FilterView.FromValue(BlobRows(data), fromAligned);
      WindowCandidates(matcher, h, view.bitmap, fromAligned, seen, running.floor);
      var e := CandidateBlocksInto(matcher, h, view, bits);
      err := if e.Some? then Some(CandidatesFailed) else None;
    }

    /** Moves to the next window, or finishes when it starts beyond the range. */
    method LoadNextWindow() returns (err: Option<IteratorError>)
      requires Valid()
      requires currentBits != null ==> forall j: nat :: nextIndex <= j < NUM_BLOCKS ==> !currentBits.Test(j)
      modifies this, currentBits, cache
      ensures Index() && scannedCount == old(scannedCount)
      ensures Refreshed(old(cache.entries), cache.entries, running.database.filters)
      ensures old(currentBits) != null ==> currentBits == old(currentBits)
      ensures old(currentBits) == null ==> currentBits != null && fresh(currentBits)
      ensures err.Some? ==> running.inner.toBlock < rangeEnd && err != Some(MaxScannedBlockLimitExceed)
      ensures err.None? && done ==> NoCandidates(matcher, h, seen, old(pos), rangeEnd + 1)
      ensures err.None? && !done ==> Valid() && old(pos) <= pos && NoCandidates(matcher, h, seen, old(pos), pos)
      ensures err.None? && !done && old(currentBits) != null ==> currentWindowStart == old(currentWindowStart) + NUM_BLOCKS
    {
      hide WindowExact, AllStored, NoneAbove, CandidateBlock, RowBit;
      var windowStart: nat;
      if currentBits == null {
        currentBits := new BitSet(NUM_BLOCKS);
        windowStart := currentWindowStart;
        nextIndex := rangeStart % NUM_BLOCKS;
      } else {
        windowStart := currentWindowStart + NUM_BLOCKS;
        nextIndex := 0;
        NoneInRest(currentBits, currentWindowStart, pos, NUM_BLOCKS);
      }
      if windowStart > rangeEnd {
        done := true;
        return None;
      }
      err := FillCurrentBits(currentBits, windowStart);
      if err.Some? {
        WindowGap(running.inner.fromBlock, windowStart);
        return;
      }
      currentWindowStart := windowStart;
      pos := windowStart + nextIndex;
    }

    /** Clear bits from `lo` up to bit `end` of the window are blocks that are not candidates. */
    lemma NoneInRest(bits: BitSet, w: nat, lo: nat, end: nat)
      requires Blooms(seen) && BitsExact(bits, w)
      requires w <= lo && end <= NUM_BLOCKS && running.floor <= lo
      requires forall j: nat :: lo - w <= j < end ==> !bits.Test(j)
      ensures NoCandidates(matcher, h, seen, lo, w + end)
    {
      forall n: nat | lo <= n < w + end ensures !CandidateBlock(matcher, h, seen, n) {
        assert !bits.Test(n - w);
      }
    }

    /** Advances to the first set bit at or after the current position, loading windows as needed. */
    method Search() returns (next: nat, err: Option<IteratorError>)
      requires Valid()
      modifies this, currentBits, cache
      ensures Index() && scannedCount == old(scannedCount)
      ensures Refreshed(old(cache.entries), cache.entries, running.database.filters)
      ensures currentBits != null
      ensures old(currentBits) != null ==> currentBits == old(currentBits)
      ensures old(currentBits) == null ==> fresh(currentBits)
      ensures err.Some? ==> running.inner.toBlock < rangeEnd && err != Some(MaxScannedBlockLimitExceed)
      ensures err.None? && done ==> NoCandidates(matcher, h, seen, old(pos), rangeEnd + 1)
      ensures err.None? && !done ==> Valid() && next < NUM_BLOCKS && old(pos) <= currentWindowStart + next
      ensures err.None? && !done ==> NoCandidates(matcher, h, seen, old(pos), currentWindowStart + next)
      ensures err.None? && !done ==> CandidateBlock(matcher, h, seen, currentWindowStart + next)
    {
      hide Exact, ExactBelow, CandidateBlock, RowBit, RunningFilter.Valid, Answering, Blooms;
      next := 0;
      if currentBits == null {
        err := LoadNextWindow();
        if err.Some? || done {
          return;
        }
      }
      var found;
      found, next := currentBits.NextSet(nextIndex);
      while !found
        invariant Valid() && currentBits != null && scannedCount == old(scannedCount)
        invariant Refreshed(old(cache.entries), cache.entries, running.database.filters)
        invariant old(currentBits) != null ==> currentBits == old(currentBits)
        invariant old(currentBits) == null ==> fresh(currentBits)
        invariant old(pos) <= pos && NoCandidates(matcher, h, seen, old(pos), pos)
        invariant found ==> nextIndex <= next < NUM_BLOCKS && currentBits.Test(next)
        invariant forall j: nat :: nextIndex <= j < (if found then next else NUM_BLOCKS) ==> !currentBits.Test(j)
        decreases rangeEnd + NUM_BLOCKS - currentWindowStart
      {
        ghost var before := cache.entries;
        err := LoadNextWindow();
        RefreshedTwice(old(cache.entries), before, cache.entries, running.database.filters);
        if err.Some? || done {
          return;
        }
        found, next := currentBits.NextSet(nextIndex);
      }
      NoneInRest(currentBits, currentWindowStart, pos, next);
      err := None;
    }

    /**
     The next candidate of the range. With a scan limit, the first candidate beyond
     the limit is reported as the place to resume from.
     */
    method Next() returns (blockNum: nat, ok: bool, err: Option<IteratorError>)
      requires done ==> Index()
      requires !done ==> Valid()
      modifies this, currentBits, cache
      ensures Index() && Refreshed(old(cache.entries), cache.entries, running.database.filters)
      ensures old(currentBits) != null ==> currentBits == old(currentBits)
      ensures old(currentBits) == null && currentBits != null ==> fresh(currentBits)
      ensures ok ==> err.None? && !old(done) && !done && Valid() && pos == blockNum + 1
      ensures !ok ==> done
      ensures old(done) ==> !ok && err.None?
      ensures !ok && err != Some(MaxScannedBlockLimitExceed) ==> blockNum == 0
      // a candidate, with none skipped before it
      ensures ok || err == Some(MaxScannedBlockLimitExceed) ==>
                && old(pos) <= blockNum <= rangeEnd
                && CandidateBlock(matcher, h, seen, blockNum)
                && NoCandidates(matcher, h, seen, old(pos), blockNum)
      // the end: nothing left in the range
      ensures !ok && err.None? && !old(done) ==> NoCandidates(matcher, h, seen, old(pos), rangeEnd + 1)
      ensures err.Some? && err != Some(MaxScannedBlockLimitExceed) ==> running.inner.toBlock < rangeEnd
      // the scan limit
      ensures ok ==> maxScanned == 0 || scannedCount <= maxScanned
      ensures err == Some(MaxScannedBlockLimitExceed) ==> 0 < maxScanned < scannedCount
      ensures scannedCount == old(scannedCount) + if maxScanned > 0 && (ok || err == Some(MaxScannedBlockLimitExceed)) then 1 else 0
    {
      hide Exact, ExactBelow, CandidateBlock, RowBit;
      if done {
        return 0, false, None;
      }
      var next;
      next, err := Search();
      if err.Some? {
        done := true;
        return 0, false, err;
      }
      if done {
        return 0, false, None;
      }
      blockNum := currentWindowStart + next;
      if blockNum > rangeEnd {
        done := true;
        return 0, false, None;
      }
      nextIndex := next + 1;
      pos := blockNum + 1;
      if maxScanned > 0 {
        scannedCount := scannedCount + 1;
        if scannedCount > maxScanned {
          done := true;
          return blockNum, false, Some(MaxScannedBlockLimitExceed);
        }
      }
      return blockNum, true, None;
    }
  }

  // ---------------------------------------------------------------- whole iterations

  /** The candidate blocks of [lo, hi) in order. */
  ghost function Candidates(m: Matcher, h: Locations, chain: seq<BloomFilter>, lo: nat, hi: nat): seq<nat>
    requires Blooms(chain)
    decreases hi - lo
  {
    if lo >= hi then []
    else if CandidateBlock(m, h, chain, lo) then [lo] + Candidates(m, h, chain, lo + 1, hi)
    else Candidates(m, h, chain, lo + 1, hi)
  }

  predicate StrictlyAscending(xs: seq<nat>) {
    forall i, j :: 0 <= i < j < |xs| ==> xs[i] < xs[j]
  }

  /** Each candidate once, in ascending order. */
  lemma {:induction false} CandidatesListed(m: Matcher, h: Locations, chain: seq<BloomFilter>, lo: nat, hi: nat)
    requires Blooms(chain)
    ensures forall n :: n in Candidates(m, h, chain, lo, hi) <==> lo <= n < hi && CandidateBlock(m, h, chain, n)
    ensures StrictlyAscending(Candidates(m, h, chain, lo, hi))
    decreases hi - lo
  {
    hide CandidateBlock;
    if lo < hi {
      CandidatesListed(m, h, chain, lo + 1, hi);
      var rest := Candidates(m, h, chain, lo + 1, hi);
      assert forall i :: 0 <= i < |rest| ==> rest[i] in rest;
    }
  }

  lemma {:induction false} CandidatesSkip(m: Matcher, h: Locations, chain: seq<BloomFilter>, lo: nat, b: nat, hi: nat)
    requires Blooms(chain) && lo <= b <= hi && NoCandidates(m, h, chain, lo, b)
    ensures Candidates(m, h, chain, lo, hi) == Candidates(m, h, chain, b, hi)
    decreases b - lo
  {
    hide CandidateBlock;
    if lo < b {
      CandidatesSkip(m, h, chain, lo + 1, b, hi);
    }
  }

  /**
   Running an iterator to its end, over any number of windows, yields the candidates of
   the range; with a limit, the first ones up to the limit, and the one after them as
   the block to resume from.
   */
  method Drain(
    fromBlock: nat, toBlock: nat, maxScanned: nat, matcher: Matcher, h: Locations, cache: FilterCache, running: RunningFilter)
    returns (yielded: seq<nat>, resume: Option<nat>)
    requires running.Valid() && Blooms(running.chain) && cache.Coherent(running.database.filters, running.floor)
    requires running.floor <= fromBlock && toBlock <= running.inner.toBlock
    modifies cache
    ensures var all := Candidates(matcher, h, running.chain, fromBlock, toBlock + 1);
            if maxScanned == 0 || |all| <= maxScanned then yielded == all && resume.None?
            else yielded == all[..maxScanned] && resume == Some(all[maxScanned])
  {
    hide Exact, ExactBelow, Answering, Candidates;
    CoherentAnswers(
      cache.entries, running.database.filters, running.inner, running.next, running.chain, running.floor, fromBlock, toBlock);
    yielded, resume := DrainSeen(fromBlock, toBlock, maxScanned, matcher, h, cache, running, running.chain);
  }

  /** The same for whichever chain the sources answer for. */
  method DrainSeen(
    fromBlock: nat, toBlock: nat, maxScanned: nat, matcher: Matcher, h: Locations, cache: FilterCache, running: RunningFilter,
    ghost chain: seq<BloomFilter>)
    returns (yielded: seq<nat>, resume: Option<nat>)
    requires running.Valid() && Blooms(chain) && running.floor <= fromBlock && toBlock <= running.inner.toBlock
    requires Answering(cache.entries, running.database.filters, running.inner, chain, running.floor, fromBlock, toBlock)
    modifies cache
    ensures var all := Candidates(matcher, h, chain, fromBlock, toBlock + 1);
            if maxScanned == 0 || |all| <= maxScanned then yielded == all && resume.None?
            else yielded == all[..maxScanned] && resume == Some(all[maxScanned])
  {
    hide Exact, ExactBelow, CandidateBlock, RunningFilter.Valid, Iterator.Valid, Answering, Candidates, NoCandidates;
    var it := new Iterator(fromBlock, toBlock, maxScanned, matcher, h, cache, running, chain);
    ghost var all := Candidates(matcher, h, chain, fromBlock, toBlock + 1);
    yielded := [];
    while true
      invariant fresh(it) && (it.currentBits != null ==> fresh(it.currentBits)) && it.Index()
      invariant it.running == running && it.cache == cache && it.matcher == matcher && it.h == h && it.maxScanned == maxScanned
      invariant it.rangeEnd == toBlock && it.seen == chain
      invariant if it.done then fromBlock > toBlock && yielded == [] else it.Valid() && it.pos <= toBlock + 1
      invariant all == yielded + Candidates(matcher, h, chain, it.pos, toBlock + 1)
      invariant it.pos == fromBlock || !it.done
      invariant it.scannedCount == if maxScanned > 0 then |yielded| else 0
      invariant maxScanned > 0 ==> |yielded| <= maxScanned
      decreases 1 + toBlock - it.pos
    {
      ghost var p, wasDone := it.pos, it.done;
      var cur, ok, err := it.Next();
      if ok || err == Some(MaxScannedBlockLimitExceed) {
        CandidatesFrom(matcher, h, chain, p, cur, toBlock + 1);
      } else {
        NoneLeft(matcher, h, chain, p, toBlock + 1);
      }
      if !ok {
        resume := if err.Some? then Some(cur) else None;
        return;
      }
      yielded := yielded + [cur];
    }
  }

  lemma CandidatesFrom(m: Matcher, h: Locations, chain: seq<BloomFilter>, lo: nat, cur: nat, hi: nat)
    requires Blooms(chain) && lo <= cur < hi && NoCandidates(m, h, chain, lo, cur) && CandidateBlock(m, h, chain, cur)
    ensures Candidates(m, h, chain, lo, hi) == [cur] + Candidates(m, h, chain, cur + 1, hi)
  {
    CandidatesSkip(m, h, chain, lo, cur, hi);
  }

  lemma NoneLeft(m: Matcher, h: Locations, chain: seq<BloomFilter>, lo: nat, hi: nat)
    requires Blooms(chain) && (lo < hi ==> NoCandidates(m, h, chain, lo, hi))
    ensures Candidates(m, h, chain, lo, hi) == []
  {
    if lo < hi {
      CandidatesSkip(m, h, chain, lo, hi, hi);
    }
  }
}
