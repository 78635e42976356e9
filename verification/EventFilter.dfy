/**
 The paged event query. A query scans a range of canonical blocks, then the
 pre-confirmed blocks above them, and returns a page of matching events with a
 continuation token for the next page.

 Models blockchain/event_filter.go. The reference is `Scan`: read every block of the
 range in order and keep the matching events.
 */
module EventFilter {
  import opened Common
  import opened Words
  import opened Bloom
  import opened EventMatcher
  import opened Store
  import opened RunningEventFilter
  import opened MatchedBlockIterator
  import opened ChainIndex

  /** A filter bound standing for the pre-confirmed tag. */
  const SENTINEL: nat := TWO_64 - 1

  datatype Token = Token(fromBlock: nat, processedEvents: nat)

  const NoToken := Token(0, 0)

  /** Tokens are ordered by block, then by event within the block. */
  predicate Before(a: Token, b: Token) {
    a.fromBlock < b.fromBlock || (a.fromBlock == b.fromBlock && a.processedEvents < b.processedEvents)
  }

  /** A pre-confirmed block with the bloom of its events. */
  datatype Entry = Entry(block: BlockEvents, bloom: BloomFilter)

  datatype QueryError = HeightNotFound | BlockPruned | IndexFailed | BlockNotFound

  datatype Page = Page(events: seq<FilteredEvent>, token: Token) | Failed(error: QueryError)

  // ---------------------------------------------------------------- the naive scan

  /** What a query can see: canonical blocks up to `latest`, pre-confirmed ones right above. */
  datatype View = View(latest: nat, oldest: nat, blocks: map<nat, seq<TransactionEvents>>, hashes: map<nat, Felt>, entries: seq<Entry>)
  {
    ghost function Tip(): nat {
      latest + |entries|
    }

    ghost predicate Has(n: nat) {
      oldest <= n <= Tip()
    }

    ghost predicate Complete() {
      && oldest <= latest + 1
      && Tip() < SENTINEL
      && (forall n: nat :: oldest <= n <= latest ==> n in blocks && n in hashes)
      && forall i :: 0 <= i < |entries| ==> entries[i].block.number == latest + 1 + i
    }

    ghost function BlockAt(n: nat): BlockEvents
      requires Complete() && Has(n)
    {
      if n <= latest then BlockEvents(n, Some(hashes[n]), blocks[n]) else entries[n - latest - 1].block
    }

    /** The last block of a range that ends at `toBlock`. */
    ghost function End(toBlock: nat): nat {
      if toBlock <= latest then toBlock else Min(toBlock, Tip())
    }

    /** The block a token or a start bound stands for: the tip for the pre-confirmed tag. */
    ghost function StartOf(block: nat): nat {
      if block == SENTINEL && entries != [] then Tip() else block
    }

    /** Where a scan from `block` enters the pre-confirmed range. */
    ghost function Enter(block: nat): (n: nat)
      requires Complete()
      ensures latest < n
    {
      if block <= latest then latest + 1 else StartOf(block)
    }
  }

  /** The reference: every block from `n` to `end` in order, the first from its event `skip` on. */
  ghost function Scan(m: Matcher, v: View, n: nat, skip: nat, end: nat): (events: seq<FilteredEvent>)
    requires v.Complete() && v.oldest <= n && end <= v.Tip()
    decreases end + 1 - n
  {
    if n > end then [] else MatchesFrom(m, v.BlockAt(n), skip) + Scan(m, v, n + 1, 0, end)
  }

  // ---------------------------------------------------------------- what the scan holds

  /** The event is that of a block the query can see, at the place its indices say. */
  ghost predicate Shows(v: View, e: FilteredEvent)
    requires v.Complete() && v.Has(e.blockNumber)
  {
    if e.blockNumber <= v.latest then
      e.blockHash == Some(v.hashes[e.blockNumber]) && Points(e, v.blocks[e.blockNumber])
    else
      var block := v.entries[e.blockNumber - v.latest - 1].block;
      e.blockHash == block.hash && Points(e, block.txs)
  }

  ghost function TransactionsAt(v: View, n: nat): seq<TransactionEvents>
    requires v.Complete() && v.Has(n)
  {
    if n <= v.latest then v.blocks[n] else v.entries[n - v.latest - 1].block.txs
  }

  /** The event is one that a query of the blocks from `n` to `end`, the first from its event `skip` on, is for. */
  ghost predicate Due(m: Matcher, v: View, n: nat, skip: nat, end: nat, e: FilteredEvent)
    requires v.Complete() && v.oldest <= n && end <= v.Tip()
  {
    && n <= e.blockNumber <= end && Shows(v, e) && Matches(m, e.event)
    && (e.blockNumber == n ==> skip <= Ordinal(e, TransactionsAt(v, n)))
  }

  /** Exactly the events that are due, each once, by block, transaction and position. */
  ghost predicate Lists(m: Matcher, v: View, n: nat, skip: nat, end: nat, events: seq<FilteredEvent>)
    requires v.Complete() && v.oldest <= n && end <= v.Tip()
  {
    InOrder(events) && forall e :: e in events <==> Due(m, v, n, skip, end, e)
  }

  lemma {:induction false} ScanLists(m: Matcher, v: View, n: nat, skip: nat, end: nat)
    requires v.Complete() && v.oldest <= n && end <= v.Tip()
    ensures Lists(m, v, n, skip, end, Scan(m, v, n, skip, end))
    decreases end + 1 - n
  {
    hide MatchesFrom, Points, Ordinal, Matches;
    if n <= end {
      ScanLists(m, v, n + 1, 0, end);
      MatchesListed(m, v.BlockAt(n), skip);
      var first, rest := MatchesFrom(m, v.BlockAt(n), skip), Scan(m, v, n + 1, 0, end);
      forall e | e in first ensures e.blockNumber == n {
        assert Belongs(m, v.BlockAt(n), skip, e);
      }
      forall e ensures e in first + rest <==> Due(m, v, n, skip, end, e) {
        assert e in first <==> Belongs(m, v.BlockAt(n), skip, e);
        assert e in rest <==> Due(m, v, n + 1, 0, end, e);
      }
      InOrderConcat(first, rest);
    }
  }

  lemma InOrderConcat(a: seq<FilteredEvent>, b: seq<FilteredEvent>)
    requires InOrder(a) && InOrder(b) && forall x, y :: x in a && y in b ==> Precedes(x, y)
    ensures InOrder(a + b)
  {
    hide Precedes;
  }

  /** One sequence lists them. */
  lemma {:induction false} ListsOnce(a: seq<FilteredEvent>, b: seq<FilteredEvent>)
    requires InOrder(a) && InOrder(b) && forall e :: e in a <==> e in b
    ensures a == b
  {
    assert (a != [] ==> a[0] in b) && (b != [] ==> b[0] in a);
    if a != [] && b != [] {
      var n, k := |a| - 1, |b| - 1;
      assert a[n] in b && b[k] in a;
      forall e ensures e in a[..n] <==> e in b[..k] {
        assert e in a[..n] <==> e in a && e != a[n];
        assert e in b[..k] <==> e in b && e != b[k];
      }
      ListsOnce(a[..n], b[..k]);
      assert a == a[..n] + [a[n]] && b == b[..k] + [b[k]];
    }
  }

  lemma ScanEmpty(m: Matcher, v: View, n: nat, skip: nat, end: nat)
    requires v.Complete() && v.oldest <= n && end < n && end <= v.Tip()
    ensures Scan(m, v, n, skip, end) == []
  {
  }

  /** Blocks without matches can be skipped. */
  lemma {:induction false} ScanSkip(m: Matcher, v: View, n: nat, skip: nat, b: nat, end: nat)
    requires v.Complete() && v.oldest <= n <= b && end <= v.Tip()
    requires forall c: nat, k: nat :: n <= c < b && c <= end ==> MatchesFrom(m, v.BlockAt(c), k) == []
    ensures Scan(m, v, n, skip, end) == Scan(m, v, b, if b == n then skip else 0, end)
    decreases b - n
  {
    hide MatchesFrom;
    if n < b && n <= end {
      ScanSkip(m, v, n + 1, 0, b, end);
    }
  }

  /** A block ruled out by its bloom can be skipped. */
  lemma ScanRuledOut(m: Matcher, h: Locations, v: View, n: nat, skip: nat, end: nat, bloom: BloomFilter)
    requires v.Complete() && v.oldest <= n <= end <= v.Tip()
    requires IsBloomOf(h, v.BlockAt(n).txs, bloom) && !BloomAdmits(m, h, bloom)
    ensures Scan(m, v, n, skip, end) == Scan(m, v, n + 1, 0, end)
  {
    RuledOutHasNoMatches(m, h, v.BlockAt(n), bloom, skip);
  }

  lemma {:induction false} ScanSplit(m: Matcher, v: View, n: nat, skip: nat, mid: nat, end: nat)
    requires v.Complete() && v.oldest <= n <= mid + 1 && mid <= end <= v.Tip()
    ensures Scan(m, v, n, skip, end) == Scan(m, v, n, skip, mid) + Scan(m, v, mid + 1, if n == mid + 1 then skip else 0, end)
    decreases mid + 1 - n
  {
    hide MatchesFrom;
    if n <= mid {
      ScanSplit(m, v, n + 1, 0, mid, end);
      var first, rest, last := MatchesFrom(m, v.BlockAt(n), skip), Scan(m, v, n + 1, 0, mid), Scan(m, v, mid + 1, 0, end);
      assert Scan(m, v, n, skip, end) == first + (rest + last);
      assert Scan(m, v, n, skip, mid) == first + rest;
      assert first + rest + last == first + (rest + last);
    }
  }

  /** The scan of a block splits at any event of the block. */
  lemma ScanWithin(m: Matcher, v: View, n: nat, skip: nat, k: nat, end: nat)
    requires v.Complete() && v.oldest <= n <= end <= v.Tip()
    requires skip <= k <= |Items(v.BlockAt(n))|
    ensures Scan(m, v, n, skip, end) == Select(m, Items(v.BlockAt(n))[skip..k]) + Scan(m, v, n, k, end)
  {
    hide MatchesFrom;
    MatchesSplit(m, v.BlockAt(n), skip, k);
  }

  lemma MatchesSplit(m: Matcher, block: BlockEvents, skip: nat, k: nat)
    requires skip <= k <= |Items(block)|
    ensures MatchesFrom(m, block, skip) == Select(m, Items(block)[skip..k]) + MatchesFrom(m, block, k)
  {
    var items := Items(block);
    assert items[skip..] == items[skip..k] + items[k..];
    SelectConcat(m, items[skip..k], items[k..]);
  }

  // ---------------------------------------------------------------- pages

  /** The events collected on top of `sofar` are all of the scan from (n, skip), or all of it up to the token. */
  ghost predicate Continues(
    m: Matcher, v: View, sofar: seq<FilteredEvent>, n: nat, skip: nat, end: nat,
    events: seq<FilteredEvent>, token: Token)
    requires v.Complete() && v.oldest <= n && end <= v.Tip()
  {
    if token == NoToken then
      events == sofar + Scan(m, v, n, skip, end)
    else
      && v.oldest <= token.fromBlock <= end
      && token.processedEvents <= |Items(v.BlockAt(token.fromBlock))|
      && events + Scan(m, v, token.fromBlock, token.processedEvents, end) == sofar + Scan(m, v, n, skip, end)
  }

  /** A page of the scan from (n, skip), with any token further on. */
  ghost predicate PageOf(m: Matcher, v: View, n: nat, skip: nat, end: nat, events: seq<FilteredEvent>, token: Token)
    requires v.Complete() && v.oldest <= n && end <= v.Tip()
  {
    && Continues(m, v, [], n, skip, end, events, token)
    && (token == NoToken || Before(Token(n, skip), token))
  }

  /** A page holds, in order, exactly the events that are due at its position and no longer at its token. */
  lemma PageLists(m: Matcher, v: View, n: nat, skip: nat, end: nat, events: seq<FilteredEvent>, token: Token)
    requires v.Complete() && v.oldest <= n && end <= v.Tip() && PageOf(m, v, n, skip, end, events, token)
    ensures InOrder(events)
    ensures forall e :: e in events <==>
              && Due(m, v, n, skip, end, e)
              && (token != NoToken ==> !Due(m, v, token.fromBlock, token.processedEvents, end, e))
  {
    hide Scan, Items, Due;
    ScanLists(m, v, n, skip, end);
    if token == NoToken {
      assert [] + Scan(m, v, n, skip, end) == Scan(m, v, n, skip, end);
    } else {
      var rest := Scan(m, v, token.fromBlock, token.processedEvents, end);
      ScanLists(m, v, token.fromBlock, token.processedEvents, end);
      assert [] + Scan(m, v, n, skip, end) == events + rest;
      InOrderApart(events, rest);
      forall e ensures e in events <==>
                Due(m, v, n, skip, end, e) && !Due(m, v, token.fromBlock, token.processedEvents, end, e)
      {
        assert e in events + rest <==> Due(m, v, n, skip, end, e);
        assert e in rest <==> Due(m, v, token.fromBlock, token.processedEvents, end, e);
      }
    }
  }

  lemma InOrderApart(a: seq<FilteredEvent>, b: seq<FilteredEvent>)
    requires InOrder(a + b)
    ensures InOrder(a) && forall e :: e in a ==> e !in b
  {
    var all := a + b;
    forall i, j | 0 <= i < j < |a| ensures Precedes(a[i], a[j]) {
      assert Precedes(all[i], all[j]);
    }
    forall i, j | 0 <= i < |a| && 0 <= j < |b| ensures a[i] != b[j] {
      assert Precedes(all[i], all[|a| + j]);
    }
  }

  /** A page that stopped inside [n, mid] is also a page of the longer range. */
  lemma PageExtends(m: Matcher, v: View, n: nat, skip: nat, mid: nat, end: nat, events: seq<FilteredEvent>, token: Token)
    requires v.Complete() && v.oldest <= n <= mid <= end <= v.Tip()
    requires token != NoToken && PageOf(m, v, n, skip, mid, events, token)
    ensures PageOf(m, v, n, skip, end, events, token)
  {
    hide Scan, Items;
    ScanSplit(m, v, n, skip, mid, end);
    ScanSplit(m, v, token.fromBlock, token.processedEvents, mid, end);
    var rest := Scan(m, v, mid + 1, 0, end);
    var tail := Scan(m, v, token.fromBlock, token.processedEvents, mid);
    assert events + (tail + rest) == (events + tail) + rest;
  }

  /** All of [n, mid] followed by a page of (mid, end] is a page of [n, end]. */
  lemma PageJoins(
    m: Matcher, v: View, n: nat, skip: nat, mid: nat, end: nat,
    first: seq<FilteredEvent>, events: seq<FilteredEvent>, token: Token)
    requires v.Complete() && v.oldest <= n <= mid <= end <= v.Tip()
    requires first == Scan(m, v, n, skip, mid)
    requires Continues(m, v, first, mid + 1, 0, end, events, token)
    requires token == NoToken || mid < token.fromBlock
    ensures PageOf(m, v, n, skip, end, events, token)
  {
    hide Scan, Items;
    ScanSplit(m, v, n, skip, mid, end);
  }

  /** A page that fills up inside block `cur`. */
  lemma FullPage(
    m: Matcher, v: View, n: nat, skip: nat, end: nat, sofar: seq<FilteredEvent>, cur: nat, skip': nat,
    events: seq<FilteredEvent>, processed: nat)
    requires v.Complete() && v.oldest <= n <= cur <= end <= v.Tip() && processed <= |Items(v.BlockAt(cur))|
    requires Scan(m, v, n, skip, end) == sofar + Scan(m, v, cur, skip', end) == events + Scan(m, v, cur, processed, end)
    requires cur == n ==> skip < processed
    ensures PageOf(m, v, n, skip, end, events, Token(cur, processed))
  {
    hide Scan, Items;
  }

  /** Collects one block of the scan into the page; on a full page, `processed` is where the scan resumes. */
  method CollectBlock(
    m: Matcher, ghost v: View, block: BlockEvents, sofar: seq<FilteredEvent>, skip: nat, chunkSize: nat, ghost end: nat)
    returns (matched: seq<FilteredEvent>, processed: nat, reached: bool)
    requires v.Complete() && v.oldest <= block.number <= end <= v.Tip() && block == v.BlockAt(block.number)
    requires chunkSize >= 1 && |sofar| <= chunkSize
    ensures |matched| <= chunkSize
    ensures !reached ==>
              sofar + Scan(m, v, block.number, skip, end) == matched + Scan(m, v, block.number + 1, 0, end)
    ensures reached ==>
              sofar + Scan(m, v, block.number, skip, end) == matched + Scan(m, v, block.number, processed, end)
    ensures reached ==> skip <= processed <= |Items(block)| && (sofar == [] ==> skip < processed)
  {
    hide MatchesFrom;
    matched, processed, reached := AppendBlockEvents(m, sofar, block, skip, chunkSize);
    if reached {
      ScanWithin(m, v, block.number, skip, processed, end);
    }
  }

  /** The loop over the pre-confirmed blocks, oldest first. */
  method ScanEntries(
    m: Matcher, h: Locations, ghost v: View, entries: seq<Entry>, sofar: seq<FilteredEvent>,
    fromBlock: nat, skipped: nat, toBlock: nat, chunkSize: nat)
    returns (page: Page)
    requires v.Complete() && entries == v.entries != [] && v.latest < toBlock
    requires forall i :: 0 <= i < |entries| ==>
               |entries[i].bloom| == BLOOM_LENGTH && IsBloomOf(h, entries[i].block.txs, entries[i].bloom)
    requires chunkSize >= 1 && |sofar| <= chunkSize
    requires if fromBlock <= v.latest then skipped == 0 else sofar == []
    ensures page.Page? && |page.events| <= chunkSize
    ensures Continues(m, v, sofar, Max(fromBlock, v.latest + 1), skipped, v.End(toBlock), page.events, page.token)
    ensures page.token != NoToken ==> v.latest < page.token.fromBlock
    ensures page.token != NoToken && v.latest < fromBlock ==> Before(Token(fromBlock, skipped), page.token)
  {
    hide Scan, Items, BloomAdmits, IsBloomOf;
    ghost var start, end := Max(fromBlock, v.latest + 1), v.End(toBlock);
    if start > end {
      ScanEmpty(m, v, start, skipped, end);
    }
    var matched, skip := sofar, skipped;
    for i := 0 to |entries|
      invariant |matched| <= chunkSize
      invariant v.latest + 1 + i <= start ==> matched == sofar && skip == skipped
      invariant start < v.latest + 1 + i ==>
                  sofar + Scan(m, v, start, skipped, end) == matched + Scan(m, v, v.latest + 1 + i, 0, end)
    {
      var entry := entries[i];
      var number := entry.block.number;
      if number < fromBlock {
        continue;
      }
      if number > toBlock {
        ScanEmpty(m, v, number, 0, end);
        return Page(matched, NoToken);
      }
      if number != fromBlock {
        skip := 0;
      }
      var possible := TestBloom(m, h, entry.bloom);
      if !possible {
        ScanRuledOut(m, h, v, number, skip, end, entry.bloom);
        continue;
      }
      var processed, reached;
      matched, processed, reached := CollectBlock(m, v, entry.block, matched, skip, chunkSize, end);
      if reached {
        return Page(matched, Token(number, processed));
      }
    }
    ScanEmpty(m, v, v.Tip() + 1, 0, end);
    return Page(matched, NoToken);
  }

  /** EventFilter: a filter bound to the store, its index and a pre-confirmed chain. */
  class Query {
    const database: Database
    const matcher: Matcher
    const h: Locations
    const cache: FilterCache
    const running: RunningFilter
    const preConfirmed: seq<Entry>  // oldest first; empty when there is no pre-confirmed chain
    var fromBlock: nat
    var toBlock: nat
    var maxScanned: nat

    constructor (
      database: Database, matcher: Matcher, h: Locations, cache: FilterCache, running: RunningFilter,
      preConfirmed: seq<Entry>, fromBlock: nat, toBlock: nat, maxScanned: nat)
      ensures this.database == database && this.matcher == matcher && this.h == h && this.cache == cache
      ensures this.running == running && this.preConfirmed == preConfirmed
      ensures this.fromBlock == fromBlock && this.toBlock == toBlock && this.maxScanned == maxScanned
    {
      this.database, this.matcher, this.h, this.cache := database, matcher, h, cache;
      this.running, this.preConfirmed := running, preConfirmed;
      this.fromBlock, this.toBlock, this.maxScanned := fromBlock, toBlock, maxScanned;
    }

    /** The index is exact for the retained blocks, and the cache agrees with the store. */
    ghost predicate Ready()
      reads this`fromBlock, database, running, running.inner, cache
    {
      && running.database == database && running.Valid() && Blooms(running.chain) && fromBlock < TWO_64
      && cache.Coherent(database.filters, running.floor)
      && (database.height.None? <==> running.next == 0)
      && (database.height.None? ==> database.commitments == {} && Contiguous())
      && (database.height.Some? ==> StoreReady())
    }

    /** The store holds every retained block, and the index covers them all. */
    ghost predicate StoreReady()
      requires database.height.Some?
      reads database, running, running.inner
    {
      BlocksIndexed(database, running, h) && PreConfirmedReady()
    }

    /** The pre-confirmed chain was built on a retained canonical block. */
    ghost predicate PreConfirmedReady()
      requires database.height.Some?
      reads database, running
    {
      && Contiguous()
      && (preConfirmed != [] ==> running.floor + |preConfirmed| <= TipNumber() <= database.height.value + |preConfirmed|)
    }

    function TipNumber(): nat
      requires preConfirmed != []
    {
      preConfirmed[|preConfirmed| - 1].block.number
    }

    /** The pre-confirmed blocks are numbered without gaps, each with the bloom of its events. */
    ghost predicate Contiguous() {
      preConfirmed != [] ==>
        && |preConfirmed| <= TipNumber() + 1 && TipNumber() < SENTINEL
        && forall i :: 0 <= i < |preConfirmed| ==>
             preConfirmed[i].block.number == TipNumber() - |preConfirmed| + 1 + i && EntryReady(preConfirmed[i])
    }

    ghost predicate EntryReady(e: Entry) {
      |e.bloom| == BLOOM_LENGTH && IsBloomOf(h, e.block.txs, e.bloom)
    }

    /** What this query sees: no pre-confirmed block if its range ends in the canonical chain. */
    ghost function Sees(): (v: View)
      requires database.height.Some? && StoreReady()
      reads this, database, running, running.inner
      ensures v.Complete() && v.latest <= database.height.value < running.inner.toBlock
      ensures v.oldest == running.floor && v.blocks == database.blocks && v.hashes == database.hashes
      ensures v.entries != [] ==> v.latest < toBlock
      ensures v.entries == [] ==> v.latest == database.height.value
      ensures v.entries == if toBlock <= database.height.value then [] else preConfirmed
    {
      var entries := if toBlock <= database.height.value then [] else preConfirmed;
      var latest := if entries == [] then database.height.value
                    else TipNumber() - |preConfirmed|;
      View(latest, running.floor, database.blocks, database.hashes, entries)
    }

    /** What a query without a canonical chain sees: the pre-confirmed blocks only. */
    ghost function SeesAbove(): (v: View)
      requires Contiguous() && preConfirmed != [] && |preConfirmed| <= TipNumber()
      ensures v.Complete()
    {
      View(TipNumber() - |preConfirmed|, TipNumber() - |preConfirmed| + 1, map[], map[], preConfirmed)
    }

    /**
     The canonical head that divides the query, and the pre-confirmed blocks above it.
     A chain height is needed unless the range ends at the pre-confirmed tag and there
     are such blocks; the head below block 0 is the largest block number.
     */
    method HeadAndPreConfirmed() returns (latest: nat, entries: seq<Entry>, err: Option<QueryError>)
      requires Ready()
      ensures err == if database.height.None? && (toBlock != SENTINEL || preConfirmed == []) then Some(HeightNotFound) else None
      ensures err.Some? ==> latest == 0 && entries == []
      ensures err.None? && database.height.Some? ==> latest == Sees().latest && entries == Sees().entries
      ensures err.None? && database.height.None? && |preConfirmed| > TipNumber() ==> latest == SENTINEL
      ensures err.None? && database.height.None? && |preConfirmed| <= TipNumber() ==>
                latest == SeesAbove().latest && entries == SeesAbove().entries
    {
      latest, entries := 0, [];
      if toBlock != SENTINEL {
        if database.height.None? {
          return 0, [], Some(HeightNotFound);
        }
        latest := database.height.value;
        if toBlock <= latest {
          return latest, [], None;
        }
      }
      if preConfirmed == [] {
        if database.height.None? {
          return 0, [], Some(HeightNotFound);
        }
        return database.height.value, [], None;
      }
      return (TipNumber() - |preConfirmed|) % TWO_64, preConfirmed, None;
    }

    /** Blocks ruled out by the index hold no match. */
    lemma RuledOut(lo: nat, hi: nat)
      requires database.height.Some? && StoreReady() && Blooms(running.chain)
      requires running.floor <= lo && hi <= Sees().latest + 1
      requires NoCandidates(matcher, h, running.chain, lo, hi)
      ensures forall c: nat, k: nat :: lo <= c < hi ==> MatchesFrom(matcher, Sees().BlockAt(c), k) == []
    {
      hide BloomAdmits, IsBloomOf;
      forall c: nat, k: nat | lo <= c < hi ensures MatchesFrom(matcher, Sees().BlockAt(c), k) == [] {
        assert !CandidateBlock(matcher, h, running.chain, c);
        RuledOutHasNoMatches(matcher, h, Sees().BlockAt(c), running.chain[c], k);
      }
    }

    /** The iterator of a canonical scan of this query. */
    ghost predicate Scans(it: Iterator, from: nat, to: nat)
      reads this, it, running, running.inner, database, cache, it.cache, it.currentBits
    {
      && it.running == running && it.cache == cache && it.matcher == matcher && it.h == h && it.seen == running.chain
      && it.rangeStart == from && it.rangeEnd == to && it.maxScanned == maxScanned
      && Ready()
      && (it.done ==> it.Index())
      && (!it.done ==> it.Valid() && from <= it.pos <= to + 1)
    }

    lemma IndexAnswers(from: nat, to: nat)
      requires Ready() && running.floor <= from
      ensures Answering(cache.entries, database.filters, running.inner, running.chain, running.floor, from, to)
    {
      hide Exact, ExactBelow, Agrees, Answering;
      CoherentAnswers(cache.entries, database.filters, running.inner, running.next, running.chain, running.floor, from, to);
    }

    /** Moves a scan at (pos, skip) to its next candidate block; without one, the scan is over. */
    method NextCandidate(it: Iterator, ghost from: nat, ghost to: nat, ghost skip: nat)
      returns (cur: nat, ok: bool, err: Option<IteratorError>)
      requires database.height.Some? && Scans(it, from, to) && running.floor <= from && to <= Sees().latest
      modifies it, it.currentBits, cache
      ensures Scans(it, from, to) && Sees() == old(Sees())
      ensures old(it.currentBits) != null ==> it.currentBits == old(it.currentBits)
      ensures old(it.currentBits) == null && it.currentBits != null ==> fresh(it.currentBits)
      ensures err.None? || err == Some(MaxScannedBlockLimitExceed)
      ensures ok ==> err.None? && !it.done && it.pos == cur + 1
      ensures ok || err.Some? ==>
                && !old(it.done) && old(it.pos) <= cur <= to
                && Scan(matcher, Sees(), old(it.pos), skip, to)
                   == Scan(matcher, Sees(), cur, if cur == old(it.pos) then skip else 0, to)
      ensures !ok && err.None? && !old(it.done) ==> Scan(matcher, Sees(), old(it.pos), skip, to) == []
      ensures it.scannedCount == old(it.scannedCount) + if maxScanned > 0 && (ok || err.Some?) then 1 else 0
      ensures ok ==> maxScanned == 0 || it.scannedCount <= maxScanned
      ensures err.Some? ==> 0 < maxScanned < it.scannedCount
    {
      hide Exact, ExactBelow, CandidateBlock, NoCandidates, MatchesFrom, StoreReady, Sees;
      ghost var p, wasDone, before := it.pos, it.done, cache.entries;
      cur, ok, err := it.Next();
      RefreshedAgrees(before, cache.entries, database.filters, running.floor);
      if ok || err.Some? {
        SkipTo(p, cur, skip, to);
      } else if !wasDone {
        SkipTo(p, to + 1, skip, to);
      }
    }

    /** One candidate block of a canonical scan from (from, skipped): all its matches, or a full page. */
    method CollectCandidate(
      ghost v: View, ghost from: nat, ghost to: nat, ghost skipped: nat, cur: nat, skip: nat, sofar: seq<FilteredEvent>, chunkSize: nat)
      returns (matched: seq<FilteredEvent>, full: Option<Page>)
      requires Ready() && database.height.Some? && v == Sees() && chunkSize >= 1 && |sofar| <= chunkSize
      requires running.floor <= from <= cur <= to <= v.latest
      requires if cur == from then sofar == [] && skip == skipped else skip == 0
      requires Scan(matcher, v, from, skipped, to) == sofar + Scan(matcher, v, cur, skip, to)
      ensures |matched| <= chunkSize
      ensures full.None? ==> Scan(matcher, v, from, skipped, to) == matched + Scan(matcher, v, cur + 1, 0, to)
      ensures full.Some? ==>
                && full.value.Page? && |full.value.events| <= chunkSize
                && PageOf(matcher, v, from, skipped, to, full.value.events, full.value.token)
    {
      hide Exact, ExactBelow, Scan, Items, StoreReady, Continues;
      if cur !in database.blocks || cur !in database.hashes {
        return sofar, Some(Failed(BlockNotFound));
      }
      var block := BlockEvents(cur, Some(database.hashes[cur]), database.blocks[cur]);
      var processed, reached;
      matched, processed, reached := CollectBlock(matcher, v, block, sofar, skip, chunkSize, to);
      if reached {
        FullPage(matcher, v, from, skipped, to, sofar, cur, skip, matched, processed);
        return matched, Some(Page(matched, Token(cur, processed)));
      }
      full := None;
    }

    /** The canonical part of a page. */
    method CanonicalEvents(from: nat, to: nat, skipped: nat, chunkSize: nat) returns (page: Page)
      requires Ready() && database.height.Some? && chunkSize >= 1
      requires running.floor <= from && to <= Sees().latest && to <= toBlock
      modifies cache
      ensures Ready()
      ensures page.Page? && |page.events| <= chunkSize
      ensures PageOf(matcher, Sees(), from, skipped, to, page.events, page.token)
    {
      hide Exact, ExactBelow, Scan, Items, StoreReady, Sees, Iterator.Valid, Iterator.Index, Blooms;
      hide FilterCache.Coherent, RunningFilter.Valid, Answering, View.Complete, View.BlockAt;
      ghost var v := Sees();
      if from > to {
        ScanEmpty(matcher, v, from, skipped, to);
      }
      IndexAnswers(from, to);
      var it := new Iterator(from, to, maxScanned, matcher, h, cache, running, running.chain);
      var matched: seq<FilteredEvent> := [];
      var lastProcessed: nat, skip: nat := 0, skipped;
      while true
        invariant Scans(it, from, to) && Sees() == v && fresh(it) && (it.currentBits != null ==> fresh(it.currentBits))
        invariant it.done ==> from > to && it.scannedCount == 0 && matched == []
        invariant |matched| <= chunkSize && it.scannedCount <= maxScanned
        invariant it.pos == from ==> matched == [] && it.scannedCount == 0 && skip == skipped
        invariant !it.done ==>
                    Scan(matcher, v, from, skipped, to) ==
                    matched + Scan(matcher, v, it.pos, if it.pos == from then skipped else 0, to)
        decreases 1 + to - it.pos
      {
        var cur, ok, err := NextCandidate(it, from, to, if it.pos == from then skipped else 0);
        if !ok {
          if err.Some? {
            lastProcessed := cur;
          }
          break;
        }
        lastProcessed := cur;
        if cur != from {
          skip := 0;
        }
        var full;
        matched, full := CollectCandidate(v, from, to, skipped, cur, skip, matched, chunkSize);
        if full.Some? {
          return full.value;
        }
      }
      if it.scannedCount > it.maxScanned && lastProcessed <= toBlock {
        return Page(matched, Token(lastProcessed, 0));
      }
      return Page(matched, NoToken);
    }

    /** The scan passes over blocks that are not candidates. */
    lemma SkipTo(lo: nat, hi: nat, skip: nat, end: nat)
      requires database.height.Some? && StoreReady() && Blooms(running.chain)
      requires running.floor <= lo <= hi <= end + 1 && end <= Sees().latest
      requires NoCandidates(matcher, h, running.chain, lo, hi)
      ensures Scan(matcher, Sees(), lo, skip, end) == Scan(matcher, Sees(), hi, if hi == lo then skip else 0, end)
    {
      hide StoreReady, Sees;
      RuledOut(lo, hi);
      ScanSkip(matcher, Sees(), lo, skip, hi, end);
    }

    /** The pre-confirmed part of a page: the blocks right above `latest`, from `from` on. */
    method PreConfirmedEvents(
      ghost v: View, sofar: seq<FilteredEvent>, entries: seq<Entry>, latest: nat, from: nat, skipped: nat, chunkSize: nat)
      returns (page: Page)
      requires v.Complete() && entries == v.entries && latest == v.latest < toBlock
      requires forall i :: 0 <= i < |entries| ==> EntryReady(entries[i])
      requires chunkSize >= 1 && |sofar| <= chunkSize
      requires if from <= latest then skipped == 0 else sofar == []
      ensures page.Page? && |page.events| <= chunkSize
      ensures Continues(matcher, v, sofar, v.Enter(from), skipped, v.End(toBlock), page.events, page.token)
      ensures page.token != NoToken ==> latest < page.token.fromBlock
      ensures page.token != NoToken && latest < from ==> Before(Token(v.Enter(from), skipped), page.token)
    {
      hide Scan, Items, IsBloomOf;
      if entries == [] {
        ScanEmpty(matcher, v, v.Enter(from), skipped, v.End(toBlock));
        return Page(sofar, NoToken);
      }
      var fromBlock := if from == SENTINEL then entries[|entries| - 1].block.number else from;
      page := ScanEntries(matcher, h, v, entries, sofar, fromBlock, skipped, toBlock, chunkSize);
    }

    lemma EntriesReady()
      requires database.height.Some? && StoreReady()
      ensures forall i :: 0 <= i < |Sees().entries| ==> EntryReady(Sees().entries[i])
    {
      hide EntryReady;
    }

    /** There is something to query: a canonical chain, or pre-confirmed blocks and a range that ends with them. */
    ghost predicate Queryable()
      reads this, database, running, running.inner
    {
      if database.height.Some? then StoreReady()
      else toBlock == SENTINEL && preConfirmed != [] && Contiguous() && |preConfirmed| <= TipNumber()
    }

    ghost function Visible(): (v: View)
      requires Queryable()
      reads this, database, running, running.inner
      ensures v.Complete()
    {
      if database.height.Some? then Sees() else SeesAbove()
    }

    /** The position a call starts at. */
    ghost function Position(token: Option<Token>): (t: Token)
      requires Queryable()
      reads this, database, running, running.inner
    {
      match token
      case None => Token(Visible().StartOf(fromBlock), 0)
      case Some(t) => Token(Visible().StartOf(t.fromBlock), t.processedEvents)
    }

    ghost function Last(): nat
      requires Queryable()
      reads this, database, running, running.inner
    {
      Visible().End(toBlock)
    }

    /**
     One page. It is the naive scan from the given position up to the returned token,
     which lies further on, or to the end of the range if no token is returned.
     */
    method Events(cToken: Option<Token>, chunkSize: nat) returns (page: Page)
      requires Ready() && chunkSize >= 1
      requires cToken.Some? ==> cToken.value.fromBlock < TWO_64
      modifies cache
      ensures Ready()
      // the head below pre-confirmed block 0 wraps to the largest number, and no block up to it is retained
      ensures !Queryable() ==> page == Failed(if toBlock != SENTINEL || preConfirmed == [] then HeightNotFound else BlockPruned)
      ensures Queryable() ==>
                (page.Failed? <==> Position(cToken).fromBlock <= Visible().latest && Position(cToken).fromBlock < Visible().oldest)
      ensures page.Failed? && Queryable() ==> page.error == BlockPruned
      ensures page.Page? ==>
                && Queryable() && Visible().oldest <= Position(cToken).fromBlock && |page.events| <= chunkSize
                && PageOf(matcher, Visible(), Position(cToken).fromBlock, Position(cToken).processedEvents, Last(), page.events, page.token)
    {
      hide Exact, ExactBelow, StoreReady, Sees, PageOf, Contiguous, RunningFilter.Valid, FilterCache.Coherent;
      var latest, entries, err := HeadAndPreConfirmed();
      if err.Some? {
        return Failed(err.value);
      }
      var skipped, startBlock := 0, fromBlock;
      if cToken.Some? {
        skipped, startBlock := cToken.value.processedEvents, cToken.value.fromBlock;
      }
      if startBlock <= latest {
        if database.height.Some? {
          Commitments(startBlock);
        }
        if startBlock !in database.commitments {
          return Failed(BlockPruned);
        }
      }
      if database.height.None? {
        page := EventsAbove(startBlock, skipped, latest, entries, chunkSize);
        return;
      }
      page := EventsOnChain(startBlock, skipped, latest, entries, chunkSize);
    }

    /** A page of pre-confirmed blocks only. */
    method EventsAbove(startBlock: nat, start: nat, latest: nat, entries: seq<Entry>, chunkSize: nat) returns (page: Page)
      requires Contiguous() && preConfirmed != [] && |preConfirmed| <= TipNumber() && toBlock == SENTINEL && chunkSize >= 1
      requires latest == SeesAbove().latest < startBlock && entries == SeesAbove().entries
      ensures page.Page? && |page.events| <= chunkSize
      ensures PageOf(matcher, SeesAbove(), SeesAbove().StartOf(startBlock), start, SeesAbove().End(toBlock), page.events, page.token)
    {
      hide Scan, Items, EntryReady;
      page := PreConfirmedEvents(SeesAbove(), [], entries, latest, startBlock, start, chunkSize);
    }

    /** A page of a range that starts at a retained block. */
    method EventsOnChain(startBlock: nat, start: nat, latest: nat, entries: seq<Entry>, chunkSize: nat) returns (page: Page)
      requires Ready() && database.height.Some? && chunkSize >= 1 && running.floor <= startBlock
      requires latest == Sees().latest && entries == Sees().entries
      modifies cache
      ensures Ready()
      ensures page.Page? && |page.events| <= chunkSize
      ensures PageOf(matcher, Sees(), Sees().StartOf(startBlock), start, Sees().End(toBlock), page.events, page.token)
    {
      hide Exact, ExactBelow, StoreReady, Sees, PageOf, RunningFilter.Valid, FilterCache.Coherent;
      if toBlock <= latest {
        page := CanonicalEvents(startBlock, toBlock, start, chunkSize);
        return;
      }
      page := EventsAcrossHead(startBlock, start, latest, entries, chunkSize);
    }

    /** A page of a range that ends above the canonical head. */
    method EventsAcrossHead(startBlock: nat, start: nat, latest: nat, entries: seq<Entry>, chunkSize: nat) returns (page: Page)
      requires Ready() && database.height.Some? && chunkSize >= 1 && running.floor <= startBlock
      requires latest == Sees().latest < toBlock && entries == Sees().entries
      modifies cache
      ensures Ready()
      ensures page.Page? && |page.events| <= chunkSize
      ensures PageOf(matcher, Sees(), Sees().StartOf(startBlock), start, Sees().End(toBlock), page.events, page.token)
    {
      hide Exact, ExactBelow, StoreReady, Sees, Scan, Items;
      var matched: seq<FilteredEvent>, skipped := [], start;
      if startBlock <= latest {
        page := CanonicalEvents(startBlock, latest, skipped, chunkSize);
        if page.token != NoToken {
          PageExtends(matcher, Sees(), startBlock, skipped, latest, Sees().End(toBlock), page.events, page.token);
          return;
        }
        matched, skipped := page.events, 0;
      }
      EntriesReady();
      page := PreConfirmedEvents(Sees(), matched, entries, latest, startBlock, skipped, chunkSize);
      if startBlock <= latest {
        PageJoins(matcher, Sees(), startBlock, start, latest, Sees().End(toBlock), matched, page.events, page.token);
      }
    }

    lemma Commitments(n: nat)
      requires database.height.Some? && StoreReady()
      ensures n <= Sees().latest ==> (n in database.commitments <==> running.floor <= n)
    {
    }
  
    /** The events of the block at a position that are still to be read. */
    ghost function Room(t: Token): int
      requires Queryable()
      reads this, database, running, running.inner
    {
      if Visible().oldest <= t.fromBlock <= Last() then |Items(Visible().BlockAt(t.fromBlock))| - t.processedEvents else 0
    }

    /**
     Following the tokens to the end, with any page sizes and any scan limit, yields
     exactly the naive scan of the range: no event is lost or repeated. The pages are
     finite because every token lies beyond the previous one.
     */
    method FollowTokens(chunkSize: nat -> nat) returns (events: seq<FilteredEvent>)
      requires Ready() && Queryable() && Visible().oldest <= Visible().StartOf(fromBlock)
      requires forall i: nat :: chunkSize(i) >= 1
      modifies cache
      ensures Ready() && Queryable()
      ensures events == Scan(matcher, Visible(), Visible().StartOf(fromBlock), 0, Last())
      ensures Lists(matcher, Visible(), Visible().StartOf(fromBlock), 0, Last(), events)
    {
      hide Exact, ExactBelow, StoreReady, Sees, SeesAbove, Scan, Items, Contiguous, Lists, View.BlockAt, RunningFilter.Valid;
      ghost var v, end, start := Visible(), Last(), Visible().StartOf(fromBlock);
      var token: Option<Token>, pages := None, 0;
      events := [];
      ghost var pos := Position(token);
      while true
        invariant Ready() && Queryable() && Visible() == v && Last() == end && v.StartOf(fromBlock) == start && pos == Position(token)
        invariant v.oldest <= pos.fromBlock && (token.Some? ==> token.value.fromBlock < TWO_64)
        invariant events + Scan(matcher, v, pos.fromBlock, pos.processedEvents, end) == Scan(matcher, v, start, 0, end)
        decreases end + 1 - pos.fromBlock, Room(pos)
      {
        var page := Events(token, chunkSize(pages));
        if page.Failed? {
          return;
        }
        ghost var rest := Scan(matcher, v, pos.fromBlock, pos.processedEvents, end);
        assert events + rest == Scan(matcher, v, start, 0, end);
        if page.token == NoToken {
          events := events + page.events;
          ScanLists(matcher, v, start, 0, end);
          return;
        }
        ghost var rest' := Scan(matcher, v, page.token.fromBlock, page.token.processedEvents, end);
        assert events + (page.events + rest') == (events + page.events) + rest';
        events := events + page.events;
        token, pages := Some(page.token), pages + 1;
        pos := Position(token);
      }
    }
  }
}
