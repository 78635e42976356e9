/**
 Deleting block data below a bound. Number-keyed buckets go in one range delete at the
 end; hash-keyed buckets and state history go block by block, through a batch that may
 be flushed after any block. A call may be cancelled between blocks, and the process
 may stop before any write of a batch.

 Models pruner/accessors.go. The contents of the store after any such sequence are a
 function of the chain and three numbers: `o`, the oldest block with number-keyed
 data; `r`, the oldest block with hash-keyed lookups and history; and `m`, the oldest
 block whose hash is still mapped to its number.
 */
module Pruning {
  import opened Common
  import opened StateHistory
  import opened Words
  import RunningEventFilter
  import FilterCodec
  import opened Store

  const BLOCK_HASH_LAG: nat := 10

  datatype Transaction = Transaction(hash: Felt, message: Option<Felt>)

  datatype StateUpdate = StateUpdate(blockHash: Felt, diff: StateDiff)

  datatype Block = Block(timestamp: nat, update: StateUpdate, txs: seq<Transaction>)

  datatype Header = Header(hash: Felt, timestamp: nat)

  /** The store: one field per bucket. */
  datatype Contents = Contents(
    headers: map<nat, Header>,
    commitments: set<nat>,
    updates: map<nat, StateUpdate>,
    transactions: map<nat, seq<Transaction>>,
    windows: set<nat>,
    numbers: map<Felt, nat>,
    lookups: map<Felt, (nat, nat)>,
    messages: map<Felt, Felt>,
    oldHistory: map<Entry, Felt>,
    newHistory: map<Entry, Felt>)

  /** Queued deletes. */
  datatype Batch = Batch(hashes: set<Felt>, txHashes: set<Felt>, messages: set<Felt>, oldRows: set<Entry>, newRows: set<Entry>)

  const EmptyBatch := Batch({}, {}, {}, {}, {})

  function Apply(db: Contents, batch: Batch): Contents {
    db.(numbers := db.numbers - batch.hashes,
        lookups := db.lookups - batch.txHashes,
        messages := db.messages - batch.messages,
        oldHistory := db.oldHistory - batch.oldRows,
        newHistory := db.newHistory - batch.newRows)
  }

  class KeyValueStore {
    var db: Contents
    var height: Option<nat>     // chain height
    var l1Head: Option<nat>     // number of the L1-confirmed head

    constructor (db: Contents)
      ensures this.db == db && height.None? && l1Head.None?
    {
      this.db, height, l1Head := db, None, None;
    }
  }

  // ---------------------------------------------------------------- contents of a pruned store

  function HashOf(c: seq<Block>, n: nat): Felt
    requires n < |c|
  {
    c[n].update.blockHash
  }

  function Diffs(c: seq<Block>): (d: seq<StateDiff>)
    ensures |d| == |c| && forall n :: 0 <= n < |c| ==> d[n] == c[n].update.diff
  {
    seq(|c|, n requires 0 <= n < |c| => c[n].update.diff)
  }

  ghost predicate SameMessage(a: Transaction, b: Transaction) {
    a.message.Some? && a.message == b.message
  }

  /** Hashes of blocks, transactions and messages identify them. */
  ghost predicate Distinct(c: seq<Block>) {
    && (forall n: nat, p: nat :: n < |c| && p < |c| && HashOf(c, n) == HashOf(c, p) ==> n == p)
    && (forall n: nat, i: nat, p: nat, j: nat ::
          n < |c| && i < |c[n].txs| && p < |c| && j < |c[p].txs| && c[n].txs[i].hash == c[p].txs[j].hash ==> n == p && i == j)
    && (forall n: nat, i: nat, p: nat, j: nat ::
          n < |c| && i < |c[n].txs| && p < |c| && j < |c[p].txs| && SameMessage(c[n].txs[i], c[p].txs[j]) ==> n == p && i == j)
  }

  ghost predicate HeadersFrom(headers: map<nat, Header>, c: seq<Block>, o: nat) {
    && (forall n: nat :: n in headers <==> o <= n + BLOCK_HASH_LAG && n < |c|)
    && (forall n: nat :: n in headers && n < |c| ==> headers[n] == Header(HashOf(c, n), c[n].timestamp))
  }

  ghost predicate CommitmentsFrom(commitments: set<nat>, c: seq<Block>, o: nat) {
    forall n: nat :: n in commitments <==> o <= n < |c|
  }

  ghost predicate UpdatesFrom(updates: map<nat, StateUpdate>, c: seq<Block>, o: nat) {
    && (forall n: nat :: n in updates <==> o <= n < |c|)
    && (forall n: nat :: n in updates && n < |c| ==> updates[n] == c[n].update)
  }

  ghost predicate TransactionsFrom(transactions: map<nat, seq<Transaction>>, c: seq<Block>, o: nat) {
    && (forall n: nat :: n in transactions <==> o <= n < |c|)
    && (forall n: nat :: n in transactions && n < |c| ==> transactions[n] == c[n].txs)
  }

  ghost predicate WindowsFrom(windows: set<nat>, ws: set<nat>, o: nat) {
    forall w: nat :: w in windows <==> w in ws && RunningEventFilter.Aligned(o) <= w
  }

  /** Number-keyed buckets of a store pruned below `o`; `ws` are the filter windows ever stored. */
  ghost predicate NumberKeyed(db: Contents, c: seq<Block>, ws: set<nat>, o: nat) {
    && HeadersFrom(db.headers, c, o) && CommitmentsFrom(db.commitments, c, o)
    && UpdatesFrom(db.updates, c, o) && TransactionsFrom(db.transactions, c, o)
    && WindowsFrom(db.windows, ws, o)
  }

  /** Hash to number, from block `m` on. */
  ghost predicate Mapped(numbers: map<Felt, nat>, c: seq<Block>, m: nat) {
    && (forall n: nat :: n < |c| ==> (HashOf(c, n) in numbers <==> m <= n))
    && (forall x :: x in numbers ==> numbers[x] < |c| && HashOf(c, numbers[x]) == x)
  }

  /** Transaction lookups, for the transactions of the blocks from `r` on. */
  ghost predicate LookedUp(lookups: map<Felt, (nat, nat)>, c: seq<Block>, r: nat) {
    && (forall n: nat, i: nat :: n < |c| && i < |c[n].txs| ==> (c[n].txs[i].hash in lookups <==> r <= n))
    && (forall x :: x in lookups ==>
          lookups[x].0 < |c| && lookups[x].1 < |c[lookups[x].0].txs| && c[lookups[x].0].txs[lookups[x].1].hash == x)
  }

  /** Message lookups, for the L1 handler transactions of the blocks from `r` on. */
  ghost predicate MessagesKept(messages: map<Felt, Felt>, c: seq<Block>, r: nat) {
    && (forall n: nat, i: nat :: n < |c| && i < |c[n].txs| && c[n].txs[i].message.Some? ==>
          (c[n].txs[i].message.value in messages <==> r <= n))
    && (forall n: nat, i: nat :: n < |c| && i < |c[n].txs| && c[n].txs[i].message.Some? && r <= n ==>
          c[n].txs[i].message.value in messages && messages[c[n].txs[i].message.value] == c[n].txs[i].hash)
    && (forall x :: x in messages ==>
          exists n: nat, i: nat :: n < |c| && i < |c[n].txs| && c[n].txs[i].message == Some(x))
  }

  /** State history in the layout of the node, pruned below `r`. */
  ghost predicate HistoryKept(db: Contents, c: seq<Block>, newState: bool, r: nat)
    requires r <= |c|
  {
    if newState then NewKept(db.newHistory, Diffs(c), r) && db.oldHistory == map[]
    else OldKept(db.oldHistory, Diffs(c), r) && db.newHistory == map[]
  }

  ghost predicate HashKeyed(db: Contents, c: seq<Block>, newState: bool, r: nat, m: nat)
    requires r <= |c|
  {
    Mapped(db.numbers, c, m) && LookedUp(db.lookups, c, r) && MessagesKept(db.messages, c, r) && HistoryKept(db, c, newState, r)
  }

  /** The contents of the store, from (o, r, m). */
  ghost predicate Retained(db: Contents, c: seq<Block>, ws: set<nat>, newState: bool, o: nat, r: nat, m: nat) {
    && o <= r <= |c| < TWO_64 && m <= r <= m + 1
    && NumberKeyed(db, c, ws, o) && HashKeyed(db, c, newState, r, m)
  }

  const EmptyContents := Contents(map[], {}, map[], map[], {}, map[], map[], map[], map[], map[])

  lemma EmptyRetained(newLayout: bool)
    ensures Retained(EmptyContents, [], {}, newLayout, 0, 0, 0)
  {
    hide RunningEventFilter.Aligned;
    var d: seq<StateDiff> := [];
    assert Diffs([]) == d;
    assert OldKept(map[], d, 0) && NewKept(map[], d, 0);
  }

  lemma DistinctPrefix(c: seq<Block>, n: nat)
    requires Distinct(c) && n <= |c|
    ensures Distinct(c[..n])
  {
    assert forall i: nat :: i < n ==> HashOf(c[..n], i) == HashOf(c, i);
  }

  // ---------------------------------------------------------------- one block

  ghost predicate TxHashes(txs: seq<Transaction>, deleted: set<Felt>) {
    forall x :: x in deleted <==> exists i :: 0 <= i < |txs| && txs[i].hash == x
  }

  ghost predicate TxMessages(txs: seq<Transaction>, deleted: set<Felt>) {
    forall x :: x in deleted <==> exists i :: 0 <= i < |txs| && txs[i].message == Some(x)
  }

  lemma MappedStep(numbers: map<Felt, nat>, c: seq<Block>, m: nat, n: nat)
    requires Distinct(c) && Mapped(numbers, c, m) && n < |c| && n <= m
    ensures Mapped(numbers - {HashOf(c, n)}, c, Max(m, n + 1))
  {
  }

  lemma LookedUpStep(lookups: map<Felt, (nat, nat)>, c: seq<Block>, x: nat, n: nat, deleted: set<Felt>)
    requires Distinct(c) && LookedUp(lookups, c, x) && n < |c| && n <= x && TxHashes(c[n].txs, deleted)
    ensures LookedUp(lookups - deleted, c, Max(x, n + 1))
  {
    forall p: nat, i: nat | p < |c| && i < |c[p].txs|
      ensures c[p].txs[i].hash in lookups - deleted <==> Max(x, n + 1) <= p
    {
      if c[p].txs[i].hash in deleted {
        var j :| 0 <= j < |c[n].txs| && c[n].txs[j].hash == c[p].txs[i].hash;
      }
    }
  }

  lemma MessagesStep(messages: map<Felt, Felt>, c: seq<Block>, x: nat, n: nat, deleted: set<Felt>)
    requires Distinct(c) && MessagesKept(messages, c, x) && n < |c| && n <= x && TxMessages(c[n].txs, deleted)
    ensures MessagesKept(messages - deleted, c, Max(x, n + 1))
  {
    forall p: nat, i: nat | p < |c| && i < |c[p].txs| && c[p].txs[i].message.Some?
      ensures c[p].txs[i].message.value in deleted <==> p == n
    {
      var msg := c[p].txs[i].message.value;
      if msg in deleted {
        var j :| 0 <= j < |c[n].txs| && c[n].txs[j].message == Some(msg);
      }
    }
  }

  /** The reverse lookups of a block's transactions. */
  method DeleteReverseLookups(txs: seq<Transaction>) returns (txHashes: set<Felt>, messages: set<Felt>)
    ensures TxHashes(txs, txHashes) && TxMessages(txs, messages)
  {
    txHashes, messages := {}, {};
    for t := 0 to |txs|
      invariant forall x :: x in txHashes <==> exists i :: 0 <= i < t && txs[i].hash == x
      invariant forall x :: x in messages <==> exists i :: 0 <= i < t && txs[i].message == Some(x)
    {
      txHashes := txHashes + {txs[t].hash};
      if txs[t].message.Some? {
        messages := messages + {txs[t].message.value};
      }
    }
  }

  /** The new layout is in use if any of its buckets holds a row. */
  predicate HasNewStateHistory(db: Contents) {
    db.newHistory != map[]
  }

  /** A new-layout node without any row has never written state. */
  lemma NoRowsNoWrites(d: seq<StateDiff>, f: nat, x: nat)
    requires f <= |d| && x <= |d| && NewKept(map[], d, f)
    ensures NewKept(map[], d, x)
  {
    var none: map<Entry, Felt> := map[];
    forall k: HistoryKey, b: nat ensures !Keeps(d, f, k, b) {
      assert Entry(k, b) !in none;
    }
    forall k: HistoryKey, b: nat ensures !Keeps(d, x, k, b) {
      var e := LastWrite(d, k, f);
      assert e >= 0 ==> Keeps(d, f, k, e);
      assert !Keeps(d, f, k, b);
    }
  }

  /** The history rows of block `n`, in whichever layout is in use. */
  method PruneHistory(
    db: Contents, batch: Batch, n: nat, newState: bool, diff: StateDiff,
    ghost c: seq<Block>, ghost newLayout: bool, ghost f: nat)
    returns (oldRows: set<Entry>, newRows: set<Entry>)
    requires n < |c| && f <= |c| && diff == c[n].update.diff
    requires if newState then newLayout else db.newHistory == map[]
    requires HistoryKept(db, c, newLayout, f) && HistoryKept(Apply(db, batch), c, newLayout, Max(f, n))
    ensures forall r: Batch :: r.oldRows == batch.oldRows + oldRows && r.newRows == batch.newRows + newRows ==>
              HistoryKept(Apply(db, r), c, newLayout, Max(f, n + 1))
  {
    hide NewKept, OldKept;
    oldRows, newRows := {}, {};
    if newState {
      newRows := PruneNewBlock(db.newHistory.Keys, n, diff);
      NewKeptStep(db.newHistory, batch.newRows, newRows, Diffs(c), f, n);
    } else {
      oldRows := PruneOldBlock(n, diff);
      if newLayout {
        NoRowsNoWrites(Diffs(c), f, Max(f, n + 1));
      } else {
        OldKeptStep(db.oldHistory, batch.oldRows, oldRows, Diffs(c), f, n);
      }
    }
  }

  /**
   Queues the deletes of block `n`. The queued state moves from max(f, n) to
   max(f, n+1), where the store itself is flushed up to `f`; blocks below `f` are
   pruned again without effect.
   */
  method PruneBlock(
    db: Contents, batch: Batch, n: nat, endExclusive: nat, newState: bool,
    ghost c: seq<Block>, ghost newLayout: bool, ghost f: nat, ghost fm: nat, ghost m: nat)
    returns (r: Batch)
    requires Distinct(c) && n < |c| && f <= |c|
    requires n in db.updates && n in db.transactions && db.updates[n] == c[n].update && db.transactions[n] == c[n].txs
    requires HashKeyed(db, c, newLayout, f, fm)
    requires if newState then newLayout else db.newHistory == map[]
    requires HashKeyed(Apply(db, batch), c, newLayout, Max(f, n), m) && n <= m
    ensures HashKeyed(Apply(db, r), c, newLayout, Max(f, n + 1), if n == endExclusive - 1 then m else Max(m, n + 1))
  {
    hide HistoryKept, Mapped, LookedUp, MessagesKept, Distinct;
    var update := db.updates[n];
    r := batch;
    if n != endExclusive - 1 {
      r := r.(hashes := r.hashes + {update.blockHash});
      MappedStep(db.numbers - batch.hashes, c, m, n);
      assert db.numbers - r.hashes == (db.numbers - batch.hashes) - {HashOf(c, n)};
    }
    var txHashes, messages := DeleteReverseLookups(db.transactions[n]);
    LookedUpStep(db.lookups - batch.txHashes, c, Max(f, n), n, txHashes);
    MessagesStep(db.messages - batch.messages, c, Max(f, n), n, messages);
    r := r.(txHashes := r.txHashes + txHashes, messages := r.messages + messages);
    assert db.lookups - r.txHashes == (db.lookups - batch.txHashes) - txHashes;
    assert db.messages - r.messages == (db.messages - batch.messages) - messages;
    var oldRows, newRows := PruneHistory(db, batch, n, newState, update.diff, c, newLayout, f);
    r := r.(oldRows := r.oldRows + oldRows, newRows := r.newRows + newRows);
  }

  // ---------------------------------------------------------------- whole calls

  datatype Status = Completed | Cancelled | Crashed | Failed

  /** The lowest mapped hash once blocks up to `k` are pruned: the mapping of endExclusive-1 stays. */
  function MapFloor(m: nat, k: nat, endExclusive: nat): nat {
    Max(m, if k == endExclusive && 0 < k then k - 1 else k)
  }

  /** The call (m, start, endExclusive) has queued the blocks below `k` and flushed those below `flushed`. */
  ghost predicate InFlight(
    db: Contents, batch: Batch, newState: bool, c: seq<Block>, ws: set<nat>, newLayout: bool,
    start: nat, endExclusive: nat, r: nat, m: nat, k: nat, flushed: nat, mapped: nat)
  {
    && start <= flushed <= k <= endExclusive && k <= |c| && r <= |c|
    && NumberKeyed(db, c, ws, start)
    && (if newState then newLayout else db.newHistory == map[])
    && m <= mapped <= MapFloor(m, flushed, endExclusive) && Max(r, flushed) <= mapped + 1
    && HashKeyed(db, c, newLayout, Max(r, flushed), mapped)
    && HashKeyed(Apply(db, batch), c, newLayout, Max(r, k), MapFloor(m, k, endExclusive))
  }

  /** Where a call is cancelled, where its batch is rotated, and where the process stops. */
  datatype Script = Script(cancelled: nat -> bool, full: nat -> bool, stops: nat -> bool)

  /** The loop goes on past block `k` of a chain of `n` blocks: not cancelled, there, and not stopped in a write. */
  ghost predicate GoesOn(script: Script, k: nat, n: nat) {
    !script.cancelled(k) && k < n && !(script.full(k) && script.stops(k))
  }

  /** Where the loop ends. */
  ghost function Reached(script: Script, k: nat, endExclusive: nat, n: nat): (r: nat)
    requires k <= endExclusive
    ensures k <= r <= endExclusive
    decreases endExclusive - k
  {
    if k < endExclusive && GoesOn(script, k, n) then Reached(script, k + 1, endExclusive, n) else k
  }

  /** How far the batches written before block `k` reach. */
  ghost function WrittenUpTo(script: Script, start: nat, k: nat): (f: nat)
    requires start <= k
    ensures start <= f <= k
  {
    if k == start then start else if script.full(k - 1) then k else WrittenUpTo(script, start, k - 1)
  }

  /** The numbers that describe a store: see Retained. */
  datatype Numbers = Numbers(o: nat, r: nat, m: nat)

  ghost function WrittenNumbers(x: Numbers, k: nat, endExclusive: nat, script: Script): Numbers
    requires x.o <= k
  {
    var f := WrittenUpTo(script, x.o, k);
    Numbers(x.o, Max(x.r, f), if f == x.o then x.m else MapFloor(x.m, f, endExclusive))
  }

  /** The loop has come to block `k`. */
  ghost predicate Progress(script: Script, start: nat, endExclusive: nat, n: nat, m: nat, k: nat, flushed: nat, mapped: nat) {
    && start <= k <= endExclusive && flushed == WrittenUpTo(script, start, k)
    && mapped == (if flushed == start then m else MapFloor(m, flushed, endExclusive))
    && Reached(script, start, endExclusive, n) == Reached(script, k, endExclusive, n)
  }

  lemma ProgressStart(script: Script, start: nat, endExclusive: nat, n: nat, m: nat)
    requires start <= endExclusive
    ensures Progress(script, start, endExclusive, n, m, start, start, m)
  {
  }

  lemma ProgressStep(
    script: Script, start: nat, endExclusive: nat, n: nat, m: nat, k: nat, flushed: nat, mapped: nat, flushed': nat, mapped': nat)
    requires Progress(script, start, endExclusive, n, m, k, flushed, mapped) && k < endExclusive && GoesOn(script, k, n)
    requires if script.full(k) then flushed' == k + 1 && mapped' == MapFloor(m, k + 1, endExclusive)
             else flushed' == flushed && mapped' == mapped
    ensures Progress(script, start, endExclusive, n, m, k + 1, flushed', mapped')
  {
  }

  lemma ProgressEnd(
    script: Script, start: nat, endExclusive: nat, n: nat, r: nat, m: nat, k: nat, flushed: nat, mapped: nat)
    requires Progress(script, start, endExclusive, n, m, k, flushed, mapped)
    ensures k == endExclusive || !GoesOn(script, k, n) ==> Reached(script, start, endExclusive, n) == k
    ensures WrittenNumbers(Numbers(start, r, m), k, endExclusive, script) == Numbers(start, Max(r, flushed), mapped)
  {
  }

  /** What one call makes of the numbers of a chain of `n` blocks, and how it ends. */
  ghost function PrunedUpto(x: Numbers, n: nat, endExclusive: nat, script: Script): (Numbers, Status) {
    if x.o >= n || endExclusive <= x.o then (x, Completed)
    else
      var k := Reached(script, x.o, endExclusive, n);
      if k < endExclusive && !script.cancelled(k) then
        (WrittenNumbers(x, k, endExclusive, script), if k >= n then Failed else Crashed)
      else if script.stops(endExclusive) then
        (WrittenNumbers(x, k, endExclusive, script), Crashed)
      else
        var y := Numbers(k, Max(x.r, k), MapFloor(x.m, k, endExclusive));
        if script.stops(endExclusive + 1) then (y.(o := x.o), Crashed)
        else (y, if k == endExclusive then Completed else Cancelled)
  }

  /** A call that is neither cancelled nor stopped reaches its bound. */
  lemma PrunedQuietly(x: Numbers, n: nat, endExclusive: nat, script: Script)
    requires x.o < endExclusive <= n && forall k :: !script.cancelled(k) && !script.stops(k)
    ensures PrunedUpto(x, n, endExclusive, script)
         == (Numbers(endExclusive, Max(x.r, endExclusive), MapFloor(x.m, endExclusive, endExclusive)), Completed)
  {
    ReachesEnd(script, x.o, endExclusive, n);
  }

  lemma {:induction false} ReachesEnd(script: Script, k: nat, endExclusive: nat, n: nat)
    requires k <= endExclusive <= n && forall i :: !script.cancelled(i) && !script.stops(i)
    ensures Reached(script, k, endExclusive, n) == endExclusive
    decreases endExclusive - k
  {
    if k < endExclusive {
      ReachesEnd(script, k + 1, endExclusive, n);
    }
  }

  /** Block `k`, and the write of the batch if it is full. */
  method PruneAndRotate(
    store: KeyValueStore, batch: Batch, k: nat, endExclusive: nat, newState: bool, full: bool, stops: bool,
    ghost c: seq<Block>, ghost ws: set<nat>, ghost newLayout: bool, ghost start: nat, ghost r: nat, ghost m: nat,
    ghost flushed: nat, ghost mapped: nat)
    returns (next: Batch, status: Status, ghost flushed': nat, ghost mapped': nat)
    requires Distinct(c) && k < endExclusive
    requires InFlight(store.db, batch, newState, c, ws, newLayout, start, endExclusive, r, m, k, flushed, mapped)
    modifies store`db
    ensures status.Completed? || status.Failed? || status.Crashed?
    ensures status.Completed? ==>
              InFlight(store.db, next, newState, c, ws, newLayout, start, endExclusive, r, m, k + 1, flushed', mapped')
    ensures !status.Completed? ==> store.db == old(store.db) && flushed' == flushed && mapped' == mapped
    ensures status.Failed? <==> k >= |c|
    ensures status.Crashed? <==> k < |c| && full && stops
    ensures status.Completed? && !full ==> store.db == old(store.db) && flushed' == flushed && mapped' == mapped
    ensures status.Completed? && full ==> next == EmptyBatch && flushed' == k + 1 && mapped' == MapFloor(m, k + 1, endExclusive)
  {
    hide HashKeyed, Distinct, NumberKeyed, Apply;
    next, flushed', mapped' := batch, flushed, mapped;
    NumberKeyedAt(store.db, c, ws, start, k);
    if k !in store.db.updates || k !in store.db.transactions {
      status := Failed;
      return;
    }
    next := PruneBlock(
      store.db, batch, k, endExclusive, newState, c, newLayout, Max(r, flushed), mapped, MapFloor(m, k, endExclusive));
    status := Completed;
    if full {
      if stops {
        status := Crashed;
        return;
      }
      ApplyNumberKeyed(store.db, next, c, ws, start);
      store.db := Apply(store.db, next);
      next := EmptyBatch;
      EmptyBatchIdle(store.db);
      flushed' := k + 1;
      mapped' := MapFloor(m, k + 1, endExclusive);
    }
  }

  /**
   The per-block loop. `cancelled` says whether the context is found cancelled before
   a block, `full` whether the batch is rotated after it, and `stops` whether the
   process stops before a write.
   */
  method PruneHashKeyedUpto(
    store: KeyValueStore, start: nat, endExclusive: nat, newState: bool,
    cancelled: nat -> bool, full: nat -> bool, stops: nat -> bool,
    ghost c: seq<Block>, ghost ws: set<nat>, ghost newLayout: bool, ghost r: nat, ghost m: nat)
    returns (blockNum: nat, status: Status, ghost flushed: nat, ghost mapped: nat)
    requires Distinct(c) && start < endExclusive
    requires Retained(store.db, c, ws, newLayout, start, r, m) && newState == HasNewStateHistory(store.db)
    modifies store`db
    ensures NumberKeyed(store.db, c, ws, start)
    ensures start <= blockNum <= endExclusive && start <= flushed <= endExclusive && flushed <= |c|
    ensures status.Completed? ==> blockNum == endExclusive <= |c|
    ensures status.Cancelled? ==> blockNum < endExclusive && blockNum <= |c| && cancelled(blockNum)
    ensures status.Crashed? ==> exists n: nat :: n <= endExclusive && stops(n)
    ensures status.Completed? || status.Cancelled? ==>
              HashKeyed(store.db, c, newLayout, Max(r, blockNum), MapFloor(m, blockNum, endExclusive))
    ensures status.Crashed? || status.Failed? ==>
              && HashKeyed(store.db, c, newLayout, Max(r, flushed), mapped)
              && m <= mapped <= MapFloor(m, flushed, endExclusive) && Max(r, flushed) <= mapped + 1
    ensures status.Failed? ==> |c| < endExclusive
    ensures var script := Script(cancelled, full, stops);
            var k := Reached(script, start, endExclusive, |c|);
            && blockNum == k
            && (status.Completed? <==> k == endExclusive && !stops(endExclusive))
            && (status.Cancelled? <==> k < endExclusive && cancelled(k) && !stops(endExclusive))
            && (status.Failed? <==> k < endExclusive && !cancelled(k) && k >= |c|)
            && (status.Crashed? || status.Failed? ==>
                  Numbers(start, Max(r, flushed), mapped) == WrittenNumbers(Numbers(start, r, m), k, endExclusive, script))
  {
    hide HashKeyed, Distinct, NumberKeyed, Apply, Reached, WrittenNumbers, Progress;
    var batch := EmptyBatch;
    blockNum, flushed, mapped := start, start, m;
    ProgressStart(Script(cancelled, full, stops), start, endExclusive, |c|, m);
    EmptyBatchIdle(store.db);
    LayoutInUse(store.db, c, newLayout, r, m);
    if start > 0 {
      HeaderBelow(store.db, c, ws, start);
      if start - 1 !in store.db.headers {
        return blockNum, Failed, flushed, mapped;
      }
      batch := batch.(hashes := {store.db.headers[start - 1].hash});
      FirstDelete(store.db, c, newLayout, r, m, start);
    }
    while blockNum < endExclusive
      invariant InFlight(store.db, batch, newState, c, ws, newLayout, start, endExclusive, r, m, blockNum, flushed, mapped)
      invariant Progress(Script(cancelled, full, stops), start, endExclusive, |c|, m, blockNum, flushed, mapped)
    {
      ProgressEnd(Script(cancelled, full, stops), start, endExclusive, |c|, r, m, blockNum, flushed, mapped);
      if cancelled(blockNum) {
        break;
      }
      ghost var f, mf := flushed, mapped;
      batch, status, flushed, mapped := PruneAndRotate(
        store, batch, blockNum, endExclusive, newState, full(blockNum), stops(blockNum),
        c, ws, newLayout, start, r, m, flushed, mapped);
      if !status.Completed? {
        return;
      }
      ProgressStep(Script(cancelled, full, stops), start, endExclusive, |c|, m, blockNum, f, mf, flushed, mapped);
      blockNum := blockNum + 1;
    }
    ProgressEnd(Script(cancelled, full, stops), start, endExclusive, |c|, r, m, blockNum, flushed, mapped);
    if stops(endExclusive) {
      return blockNum, Crashed, flushed, mapped;
    }
    ApplyNumberKeyed(store.db, batch, c, ws, start);
    store.db := Apply(store.db, batch);
    status := if blockNum == endExclusive then Completed else Cancelled;
  }

  lemma HeaderBelow(db: Contents, c: seq<Block>, ws: set<nat>, o: nat)
    requires NumberKeyed(db, c, ws, o) && 0 < o <= |c|
    ensures o - 1 in db.headers && db.headers[o - 1].hash == HashOf(c, o - 1)
  {
  }

  lemma NumberKeyedAt(db: Contents, c: seq<Block>, ws: set<nat>, o: nat, n: nat)
    requires NumberKeyed(db, c, ws, o) && o <= n
    ensures n in db.updates <==> n < |c|
    ensures n in db.transactions <==> n < |c|
    ensures n < |c| ==> db.updates[n] == c[n].update && db.transactions[n] == c[n].txs
  {
  }

  lemma ApplyNumberKeyed(db: Contents, batch: Batch, c: seq<Block>, ws: set<nat>, o: nat)
    requires NumberKeyed(db, c, ws, o)
    ensures NumberKeyed(Apply(db, batch), c, ws, o)
    ensures db.newHistory == map[] ==> Apply(db, batch).newHistory == map[]
  {
  }

  lemma LayoutInUse(db: Contents, c: seq<Block>, newLayout: bool, r: nat, m: nat)
    requires r <= |c| && HashKeyed(db, c, newLayout, r, m)
    ensures HasNewStateHistory(db) ==> newLayout
  {
  }

  /** The mapping that the previous call left for block start-1. */
  lemma FirstDelete(db: Contents, c: seq<Block>, newLayout: bool, r: nat, m: nat, start: nat)
    requires r <= |c| && HashKeyed(db, c, newLayout, r, m) && Distinct(c) && 0 < start <= |c| && start <= m + 1
    ensures HashKeyed(Apply(db, EmptyBatch.(hashes := {HashOf(c, start - 1)})), c, newLayout, r, Max(m, start))
  {
    hide NewKept, OldKept, Mapped, LookedUp, MessagesKept, Distinct;
    MappedStep(db.numbers, c, m, start - 1);
    EmptyBatchIdle(db);
  }

  lemma EmptyBatchIdle(db: Contents)
    ensures Apply(db, EmptyBatch) == db
  {
  }

  /** The range deletes of the number-keyed buckets. */
  method PruneBlockDataUpto(store: KeyValueStore, rangeEndExclusive: nat, ghost c: seq<Block>, ghost ws: set<nat>, ghost o: nat)
    requires NumberKeyed(store.db, c, ws, o) && o <= rangeEndExclusive <= |c| < TWO_64
    modifies store`db
    ensures NumberKeyed(store.db, c, ws, rangeEndExclusive)
    ensures store.db.numbers == old(store.db.numbers) && store.db.lookups == old(store.db.lookups)
    ensures store.db.messages == old(store.db.messages)
    ensures store.db.oldHistory == old(store.db.oldHistory) && store.db.newHistory == old(store.db.newHistory)
  {
    RunningEventFilter.AlignedOrder(o, rangeEndExclusive);
    var headerEnd := 0;
    if rangeEndExclusive > BLOCK_HASH_LAG {
      headerEnd := rangeEndExclusive - BLOCK_HASH_LAG;
    }
    var headers := DeleteRange(store.db.headers, Number, headerEnd);
    var commitments := DeleteRange(map n | n in store.db.commitments :: true, Number, rangeEndExclusive);
    var updates := DeleteRange(store.db.updates, Number, rangeEndExclusive);
    var transactions := DeleteRange(store.db.transactions, CborNumber, rangeEndExclusive);
    store.db := store.db.(headers := headers, commitments := commitments.Keys, updates := updates, transactions := transactions);
    var windows := PruneWindowsUpto(store.db.windows, rangeEndExclusive);
    store.db := store.db.(windows := windows);
  }

  /** How a bucket encodes the block number of its key. */
  datatype KeyCodec = Number | CborNumber

  function KeyOf(codec: KeyCodec, n: Word): (key: seq<Byte>)
    ensures if codec.Number? then |key| == 8 && GetBE(key) == n else |key| != 8 && CborValue(key) == n
  {
    Pow256Values();
    GetPut(n, 8);
    CborKeyReads(n);
    if codec.Number? then PutBE(n, 8) else CborKey(n)
  }

  lemma KeyOfOrder(codec: KeyCodec, x: Word, y: Word)
    ensures BytesLess(KeyOf(codec, x), KeyOf(codec, y)) <==> x < y
  {
    hide PutBE, BytesLess, CborKey;
    Pow256Values();
    KeyOrder(x, y, 8);
    CborKeyOrder(x, y);
  }

  /** Deletes the rows from key 0 up to key `end`, in the byte order of the keys. */
  method DeleteRange<T>(bucket: map<nat, T>, codec: KeyCodec, end: Word) returns (r: map<nat, T>)
    requires forall n :: n in bucket ==> n < TWO_64
    ensures forall n: nat :: n in r <==> n in bucket && end <= n
    ensures forall n: nat :: n in r ==> r[n] == bucket[n]
  {
    hide KeyOf;
    forall n: Word ensures BytesLess(KeyOf(codec, n), KeyOf(codec, end)) <==> n < end {
      KeyOfOrder(codec, n, end);
    }
    r := map n | n in bucket && !BytesLess(KeyOf(codec, n), KeyOf(codec, end)) :: bucket[n];
  }

  /** Deletes the filter windows that lie wholly below the bound. */
  method PruneWindowsUpto(windows: set<nat>, rangeEndExclusive: nat) returns (r: set<nat>)
    ensures forall w: nat :: w in r <==> w in windows && RunningEventFilter.Aligned(rangeEndExclusive) <= w
  {
    if rangeEndExclusive < FilterCodec.NUM_BLOCKS {
      return windows;
    }
    var oldestKept := rangeEndExclusive - rangeEndExclusive % FilterCodec.NUM_BLOCKS;
    r := set w | w in windows && oldestKept <= w;
  }

  /** The process stops before write `at` and no earlier. */
  ghost predicate StopsFirst(stops: nat -> bool, at: nat) {
    stops(at) && forall n: nat :: n < at ==> !stops(n)
  }

  /**
   Prunes everything below `endExclusive`, from wherever the last call left off. Every
   outcome leaves contents of the form Retained(o, r, m); a completed call leaves
   exactly the blocks from `endExclusive` on, the block-hash lag of headers below
   them, and the hash mapping of endExclusive-1.
   */
  method PruneUpto(
    store: KeyValueStore, endExclusive: nat,
    cancelled: nat -> bool, full: nat -> bool, stops: nat -> bool,
    ghost c: seq<Block>, ghost ws: set<nat>, ghost newLayout: bool, ghost o: nat, ghost r: nat, ghost m: nat)
    returns (blocksPruned: nat, oldestKept: nat, status: Status, ghost flushed: nat, ghost mapped: nat)
    requires Distinct(c) && Retained(store.db, c, ws, newLayout, o, r, m)
    modifies store`db
    // nothing to prune
    ensures o == |c| || endExclusive <= o ==> status.Completed? && blocksPruned == 0 && store.db == old(store.db)
    ensures o < |c| && endExclusive <= o ==> oldestKept == o
    // a call that runs to its end, or is cancelled between two blocks
    ensures o < endExclusive && o < |c| && (status.Completed? || status.Cancelled?) ==>
              && o <= oldestKept <= endExclusive && blocksPruned == oldestKept - o
              && (status.Completed? <==> oldestKept == endExclusive)
              && Retained(store.db, c, ws, newLayout, oldestKept, Max(r, oldestKept), MapFloor(m, oldestKept, endExclusive))
    // a call that stops short leaves a state from which the next call starts over
    ensures status.Crashed? || status.Failed? ==>
              && o <= flushed <= Min(endExclusive, |c|) && m <= mapped <= MapFloor(m, flushed, endExclusive)
              && Retained(store.db, c, ws, newLayout, o, Max(r, flushed), mapped)
    // why it stops
    ensures status.Cancelled? ==> cancelled(oldestKept)
    ensures status.Crashed? ==> exists n :: stops(n)
    ensures status.Failed? ==> |c| < endExclusive
    // stopped before the range delete only: all lookups and history below the bound are gone
    ensures o < endExclusive <= |c| && (forall n :: !cancelled(n)) && StopsFirst(stops, endExclusive + 1) ==>
              status.Crashed? && flushed == endExclusive && mapped == MapFloor(m, endExclusive, endExclusive)
    // all of it at once
    ensures var (y, how) := PrunedUpto(Numbers(o, r, m), |c|, endExclusive, Script(cancelled, full, stops));
            && status == how && Retained(store.db, c, ws, newLayout, y.o, y.r, y.m)
            && (status.Crashed? || status.Failed? ==> y == Numbers(o, Max(r, flushed), mapped) && blocksPruned == oldestKept == 0)
            && (status.Completed? || status.Cancelled? ==> blocksPruned == y.o - o && oldestKept == if o < |c| then y.o else 0)
  {
    hide HashKeyed, HeadersFrom, UpdatesFrom, TransactionsFrom, WindowsFrom, Distinct, Reached, WrittenNumbers;
    flushed, mapped := o, m;
    assert o < |c| ==> o in store.db.commitments;
    var start := OldestRetainedBlock(store.db.commitments);
    if start.None? {
      return 0, 0, Completed, o, m;
    }
    if start.value >= endExclusive {
      return 0, start.value, Completed, o, m;
    }
    hide Retained, MapFloor;
    blocksPruned, oldestKept, status, flushed, mapped := PruneFrom(
      store, start.value, endExclusive, cancelled, full, stops, c, ws, newLayout, r, m);
  }

  /** The call from its first block on. */
  method PruneFrom(
    store: KeyValueStore, start: nat, endExclusive: nat,
    cancelled: nat -> bool, full: nat -> bool, stops: nat -> bool,
    ghost c: seq<Block>, ghost ws: set<nat>, ghost newLayout: bool, ghost r: nat, ghost m: nat)
    returns (blocksPruned: nat, oldestKept: nat, status: Status, ghost flushed: nat, ghost mapped: nat)
    requires Distinct(c) && Retained(store.db, c, ws, newLayout, start, r, m) && start < endExclusive && start < |c|
    modifies store`db
    ensures var (y, how) := PrunedUpto(Numbers(start, r, m), |c|, endExclusive, Script(cancelled, full, stops));
            && status == how && Retained(store.db, c, ws, newLayout, y.o, y.r, y.m)
            && (status.Crashed? || status.Failed? ==> y == Numbers(start, Max(r, flushed), mapped) && blocksPruned == oldestKept == 0)
            && (status.Completed? || status.Cancelled? ==>
                  y == Numbers(oldestKept, Max(r, oldestKept), MapFloor(m, oldestKept, endExclusive)) && blocksPruned == y.o - start)
    ensures start <= oldestKept <= endExclusive || status.Crashed? || status.Failed?
    ensures status.Crashed? || status.Failed? ==>
              start <= flushed <= Min(endExclusive, |c|) && m <= mapped <= MapFloor(m, flushed, endExclusive)
    ensures status.Completed? ==> oldestKept == endExclusive
    ensures status.Cancelled? ==> cancelled(oldestKept) && oldestKept < endExclusive
    ensures status.Crashed? ==> exists n :: stops(n)
    ensures status.Failed? ==> |c| < endExclusive
    ensures endExclusive <= |c| && (forall n :: !cancelled(n)) && StopsFirst(stops, endExclusive + 1) ==>
              status.Crashed? && flushed == endExclusive && mapped == MapFloor(m, endExclusive, endExclusive)
  {
    hide HashKeyed, NumberKeyed, Distinct, Reached, WrittenUpTo, MapFloor;
    var newState := HasNewStateHistory(store.db);
    var blockNum;
    blockNum, status, flushed, mapped := PruneHashKeyedUpto(
      store, start, endExclusive, newState, cancelled, full, stops, c, ws, newLayout, r, m);
    if status.Failed? || status.Crashed? {
      PruneBounds(r, m, flushed, endExclusive);
      return 0, 0, status, flushed, mapped;
    }
    PruneBounds(r, m, blockNum, endExclusive);
    if stops(endExclusive + 1) {
      return 0, 0, Crashed, blockNum, MapFloor(m, blockNum, endExclusive);
    }
    ghost var before := store.db;
    PruneBlockDataUpto(store, blockNum, c, ws, start);
    SameHashKeyed(before, store.db, c, newLayout, Max(r, blockNum), MapFloor(m, blockNum, endExclusive));
    return blockNum - start, blockNum, status, flushed, mapped;
  }

  lemma PruneBounds(r: nat, m: nat, k: nat, endExclusive: nat)
    requires m <= r <= m + 1
    ensures m <= MapFloor(m, k, endExclusive) <= Max(r, k) <= MapFloor(m, k, endExclusive) + 1
  {
  }

  lemma {:induction false} ReachedStops(script: Script, k: nat, endExclusive: nat, n: nat)
    requires k <= endExclusive
    ensures var r := Reached(script, k, endExclusive, n);
            r == endExclusive || !GoesOn(script, r, n)
    decreases endExclusive - k
  {
    if k < endExclusive && GoesOn(script, k, n) {
      ReachedStops(script, k + 1, endExclusive, n);
    }
  }

  /** No number goes down; without stops, lookups and history stay level with the blocks. */
  lemma PrunedGrows(x: Numbers, n: nat, endExclusive: nat, script: Script)
    ensures var y := PrunedUpto(x, n, endExclusive, script).0;
            && x.o <= y.o && x.r <= y.r
            && (x.r == x.o && endExclusive <= n && NeverStops(script) ==> y.r == y.o)
  {
    if x.o < endExclusive {
      ReachedStops(script, x.o, endExclusive, n);
    }
  }

  ghost function PrunedRepeatedly(x: Numbers, n: nat, bounds: seq<nat>, scripts: seq<Script>): Numbers
    requires |bounds| == |scripts|
  {
    if bounds == [] then x
    else
      var i := |bounds| - 1;
      PrunedUpto(PrunedRepeatedly(x, n, bounds[..i], scripts[..i]), n, bounds[i], scripts[i]).0
  }

  /**
   Every sequence of calls, each cancelled, rotated or stopped anywhere: the contents
   keep their form. If none of the calls is stopped, lookups and history reach exactly
   as far down as the blocks, and the hash mapping at most one block further.
   */
  method PruneRepeatedly(
    store: KeyValueStore, bounds: seq<nat>, scripts: seq<Script>,
    ghost c: seq<Block>, ghost ws: set<nat>, ghost newLayout: bool, ghost o: nat, ghost r: nat, ghost m: nat)
    returns (ghost o': nat, ghost r': nat, ghost m': nat)
    requires Distinct(c) && Retained(store.db, c, ws, newLayout, o, r, m) && |bounds| == |scripts|
    modifies store`db
    ensures Retained(store.db, c, ws, newLayout, o', r', m') && o <= o' && r <= r'
    ensures Numbers(o', r', m') == PrunedRepeatedly(Numbers(o, r, m), |c|, bounds, scripts)
    ensures r == o && (forall i :: 0 <= i < |bounds| ==> bounds[i] <= |c| && NeverStops(scripts[i])) ==> r' == o' && m' <= o' <= m' + 1
  {
    hide Retained, Distinct, PrunedUpto;
    o', r', m' := o, r, m;
    for i := 0 to |bounds|
      invariant Retained(store.db, c, ws, newLayout, o', r', m') && o <= o' && r <= r'
      invariant Numbers(o', r', m') == PrunedRepeatedly(Numbers(o, r, m), |c|, bounds[..i], scripts[..i])
      invariant r == o && (forall j :: 0 <= j < i ==> bounds[j] <= |c| && NeverStops(scripts[j])) ==> r' == o'
    {
      RetainedBounds(store.db, c, ws, newLayout, o', r', m');
      assert bounds[..i + 1][..i] == bounds[..i] && scripts[..i + 1][..i] == scripts[..i];
      var blocksPruned, oldestKept, status, flushed, mapped := PruneUpto(
        store, bounds[i], scripts[i].cancelled, scripts[i].full, scripts[i].stops, c, ws, newLayout, o', r', m');
      assert scripts[i] == Script(scripts[i].cancelled, scripts[i].full, scripts[i].stops);
      PrunedGrows(Numbers(o', r', m'), |c|, bounds[i], scripts[i]);
      ghost var after := PrunedUpto(Numbers(o', r', m'), |c|, bounds[i], scripts[i]).0;
      o', r', m' := after.o, after.r, after.m;
    }
    assert bounds[..|bounds|] == bounds && scripts[..|scripts|] == scripts;
    RetainedBounds(store.db, c, ws, newLayout, o', r', m');
  }

  ghost predicate NeverStops(script: Script) {
    forall n :: !script.stops(n)
  }

  lemma RetainedBounds(db: Contents, c: seq<Block>, ws: set<nat>, newLayout: bool, o: nat, r: nat, m: nat)
    requires Retained(db, c, ws, newLayout, o, r, m)
    ensures o <= r <= |c| && m <= r <= m + 1
  {
  }

  lemma SameHashKeyed(a: Contents, b: Contents, c: seq<Block>, newState: bool, r: nat, m: nat)
    requires r <= |c| && HashKeyed(a, c, newState, r, m)
    requires a.numbers == b.numbers && a.lookups == b.lookups && a.messages == b.messages
    requires a.oldHistory == b.oldHistory && a.newHistory == b.newHistory
    ensures HashKeyed(b, c, newState, r, m)
  {
  }

  /** Bucket by bucket, what a completed call leaves of a store whose history reached no further down than its blocks. */
  lemma CompletedContents(db: Contents, c: seq<Block>, ws: set<nat>, newLayout: bool, end: nat, m: nat)
    requires 0 < end <= |c| && m < end && Retained(db, c, ws, newLayout, end, end, MapFloor(m, end, end))
    ensures forall n: nat :: n in db.commitments <==> end <= n < |c|
    ensures forall n: nat :: n in db.updates <==> end <= n < |c|
    ensures forall n: nat :: n in db.transactions <==> end <= n < |c|
    ensures forall n: nat :: n in db.headers <==> end <= n + 10 && n < |c|
    ensures forall n: nat :: n < |c| ==> (c[n].update.blockHash in db.numbers <==> end <= n + 1)
    ensures forall n: nat, i: nat :: n < |c| && i < |c[n].txs| ==> (c[n].txs[i].hash in db.lookups <==> end <= n)
    ensures forall n: nat, i: nat :: n < |c| && i < |c[n].txs| && c[n].txs[i].message.Some? ==>
              (c[n].txs[i].message.value in db.messages <==> end <= n)
  {
    hide HistoryKept, WindowsFrom;
    forall n: nat | n < |c| ensures c[n].update.blockHash in db.numbers <==> end <= n + 1 {
      assert HashOf(c, n) == c[n].update.blockHash;
    }
  }

  // ---------------------------------------------------------------- the contents are determined

  lemma MappedUnique(a: map<Felt, nat>, b: map<Felt, nat>, c: seq<Block>, m: nat)
    requires Distinct(c) && Mapped(a, c, m) && Mapped(b, c, m)
    ensures a == b
  {
    forall x ensures x in a <==> x in b {
      assert x in a ==> x == HashOf(c, a[x]);
      assert x in b ==> x == HashOf(c, b[x]);
    }
  }

  lemma LookedUpUnique(a: map<Felt, (nat, nat)>, b: map<Felt, (nat, nat)>, c: seq<Block>, r: nat)
    requires Distinct(c) && LookedUp(a, c, r) && LookedUp(b, c, r)
    ensures a == b
  {
    forall x ensures x in a <==> x in b {
      assert x in a ==> x == c[a[x].0].txs[a[x].1].hash;
      assert x in b ==> x == c[b[x].0].txs[b[x].1].hash;
    }
  }

  lemma MessagesUnique(a: map<Felt, Felt>, b: map<Felt, Felt>, c: seq<Block>, r: nat)
    requires MessagesKept(a, c, r) && MessagesKept(b, c, r)
    ensures a == b
  {
    forall x ensures x in a <==> x in b {
    }
    forall x | x in a ensures a[x] == b[x] {
      var n: nat, i: nat :| n < |c| && i < |c[n].txs| && c[n].txs[i].message == Some(x);
    }
  }

  lemma HistoryUnique(a: Contents, b: Contents, c: seq<Block>, newLayout: bool, r: nat)
    requires r <= |c| && HistoryKept(a, c, newLayout, r) && HistoryKept(b, c, newLayout, r)
    ensures a.oldHistory == b.oldHistory && a.newHistory == b.newHistory
  {
    var x, y := if newLayout then a.newHistory else a.oldHistory, if newLayout then b.newHistory else b.oldHistory;
    forall e: Entry ensures e in x <==> e in y {
      assert e == Entry(e.key, e.block);
    }
    forall e: Entry | e in x ensures x[e] == y[e] {
      assert e == Entry(e.key, e.block);
      assert newLayout ==> Keeps(Diffs(c), r, e.key, e.block);
    }
  }

  /** The three numbers fix every bucket. */
  lemma RetainedUnique(a: Contents, b: Contents, c: seq<Block>, ws: set<nat>, newLayout: bool, o: nat, r: nat, m: nat)
    requires Distinct(c) && Retained(a, c, ws, newLayout, o, r, m) && Retained(b, c, ws, newLayout, o, r, m)
    ensures a == b
  {
    NumberKeyedUnique(a, b, c, ws, o);
    hide NumberKeyed, Distinct, Mapped, LookedUp, MessagesKept, HistoryKept;
    MappedUnique(a.numbers, b.numbers, c, m);
    LookedUpUnique(a.lookups, b.lookups, c, r);
    MessagesUnique(a.messages, b.messages, c, r);
    HistoryUnique(a, b, c, newLayout, r);
  }

  lemma NumberKeyedUnique(a: Contents, b: Contents, c: seq<Block>, ws: set<nat>, o: nat)
    requires NumberKeyed(a, c, ws, o) && NumberKeyed(b, c, ws, o)
    ensures a.headers == b.headers && a.commitments == b.commitments && a.updates == b.updates
    ensures a.transactions == b.transactions && a.windows == b.windows
  {
  }

  /**
   A call that stops between two writes, and a repeat of it that completes, end in the
   same contents as one call that completes at once.
   */
  lemma RepeatAfterCrash(
    once: Contents, repeated: Contents, c: seq<Block>, ws: set<nat>, newLayout: bool,
    r: nat, m: nat, endExclusive: nat, flushed: nat, mapped: nat)
    requires Distinct(c) && flushed <= endExclusive && m <= mapped <= MapFloor(m, flushed, endExclusive)
    requires Retained(once, c, ws, newLayout, endExclusive, Max(r, endExclusive), MapFloor(m, endExclusive, endExclusive))
    requires Retained(repeated, c, ws, newLayout, endExclusive,
                      Max(Max(r, flushed), endExclusive), MapFloor(mapped, endExclusive, endExclusive))
    ensures once == repeated
  {
    hide Retained, Distinct;
    assert Max(Max(r, flushed), endExclusive) == Max(r, endExclusive);
    assert MapFloor(mapped, endExclusive, endExclusive) == MapFloor(m, endExclusive, endExclusive);
    RetainedUnique(once, repeated, c, ws, newLayout, endExclusive, Max(r, endExclusive), MapFloor(m, endExclusive, endExclusive));
  }

  // ---------------------------------------------------------------- reads

  /** The history lookup of a read of a pruned store, at any height. */
  method ReadHistory(
    db: Contents, newLayout: bool, head: Felt, k: HistoryKey, height: nat,
    ghost c: seq<Block>, ghost ws: set<nat>, ghost o: nat, ghost r: nat, ghost m: nat)
    returns (v: Felt)
    requires Retained(db, c, ws, newLayout, o, r, m) && height < |c|
    requires !newLayout ==> head == ValueAt(Diffs(c), k, |c|)
    ensures !newLayout ==> v == ValueAt(Diffs(c), k, NextLogged(Diffs(c), k, Max(height + 1, r)))
    ensures (!newLayout && k.ClassHashKey? ==> NotDeployedAbove(Diffs(c), k.address, height)) ==>
              && v == ReadValue(Diffs(c), newLayout, k, height, r)
              && (r <= height + 1 ==> v == ValueAt(Diffs(c), k, height + 1) == Get(AppliedUpTo(Diffs(c), height + 1), k))
  {
    hide NumberKeyed, Mapped, LookedUp, MessagesKept, OldKept, NewKept, ValueAt, LastWrite, AppliedUpTo, Get;
    ValueIsApplied(Diffs(c), k, height + 1);
    if newLayout {
      v := ReadNew(db.newHistory, k, height, Diffs(c), r);
    } else {
      v := ReadOld(db.oldHistory, head, k, height, Diffs(c), r);
    }
  }

  /**
   A historical read. It is refused for a contract that is not deployed at the height; the
   old layout looks up a slot first, and only then asks if it is zero.
   */
  method ReadState(
    db: Contents, heights: Heights, newLayout: bool, head: Felt, k: HistoryKey, height: nat,
    ghost c: seq<Block>, ghost ws: set<nat>, ghost o: nat, ghost r: nat, ghost m: nat)
    returns (v: Option<Felt>)
    requires Retained(db, c, ws, newLayout, o, r, m) && height < |c| && Recorded(heights, Diffs(c))
    requires !newLayout ==> head == ValueAt(Diffs(c), k, |c|)
    ensures v == Answer(Diffs(c), heights, newLayout, k, height, r)
    ensures r <= height + 1 ==> v == Answer(Diffs(c), heights, newLayout, k, height, 0)
    ensures r <= height + 1 && v.Some? ==> v.value == Get(AppliedUpTo(Diffs(c), height + 1), k)
    ensures DeployedAt(heights, k.address, height) ==> v.Some?
    ensures !DeployedAt(heights, k.address, height) && (newLayout || !k.StorageKey?) ==> v.None?
    ensures !DeployedAt(heights, k.address, height) && !newLayout && k.StorageKey? ==> v != Some(0)
  {
    hide Retained, ValueAt, LastWrite, AppliedUpTo, Get;
    ValueIsApplied(Diffs(c), k, height + 1);
    if newLayout || !k.StorageKey? {
      if !DeployedAt(heights, k.address, height) {
        return None;
      }
      assert NotDeployedAbove(Diffs(c), k.address, heights[k.address]);
      var x := ReadHistory(db, newLayout, head, k, height, c, ws, o, r, m);
      return Some(x);
    }
    var x := ReadHistory(db, newLayout, head, k, height, c, ws, o, r, m);
    if x != 0 {
      return Some(x);
    }
    if !DeployedAt(heights, k.address, height) {
      return None;
    }
    return Some(x);
  }
}
