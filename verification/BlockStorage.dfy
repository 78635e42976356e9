/**
 Storing a block on top of a pruned chain: what the write adds to every bucket, and
 that the three numbers which describe the contents of the store stay the same.
 */
module BlockStorage {
  import opened Common
  import opened StateHistory
  import opened Pruning
  import opened Words

  /** What storing block `b` on top of `c` writes; `added` are filter windows completed by it. */
  ghost predicate Stores(db: Contents, after: Contents, c: seq<Block>, b: Block, newLayout: bool, added: set<nat>) {
    && after.headers == db.headers[|c| := Header(b.update.blockHash, b.timestamp)]
    && after.commitments == db.commitments + {|c|}
    && after.updates == db.updates[|c| := b.update]
    && after.transactions == db.transactions[|c| := b.txs]
    && after.windows == db.windows + added
    && after.numbers == db.numbers[b.update.blockHash := |c|]
    && StoresLookups(db.lookups, after.lookups, |c|, b.txs)
    && StoresMessages(db.messages, after.messages, b.txs)
    && StoresHistory(db, after, c, b, newLayout)
  }

  ghost predicate StoresLookups(lookups: map<Felt, (nat, nat)>, after: map<Felt, (nat, nat)>, n: nat, txs: seq<Transaction>) {
    && (forall x :: x in after <==> x in lookups || exists i :: 0 <= i < |txs| && txs[i].hash == x)
    && (forall x :: x in lookups && (forall i :: 0 <= i < |txs| ==> txs[i].hash != x) ==> after[x] == lookups[x])
    && (forall i: nat :: i < |txs| ==> txs[i].hash in after && after[txs[i].hash] == (n, i))
  }

  ghost predicate StoresMessages(messages: map<Felt, Felt>, after: map<Felt, Felt>, txs: seq<Transaction>) {
    && (forall x :: x in after <==> x in messages || exists i :: 0 <= i < |txs| && txs[i].message == Some(x))
    && (forall x :: x in messages && (forall i :: 0 <= i < |txs| ==> txs[i].message != Some(x)) ==> after[x] == messages[x])
    && (forall i: nat :: i < |txs| && txs[i].message.Some? ==>
          txs[i].message.value in after && after[txs[i].message.value] == txs[i].hash)
  }

  /** Old layout: the logged keys with their values before the block; new layout: the written keys with theirs after it. */
  ghost predicate StoresHistory(db: Contents, after: Contents, c: seq<Block>, b: Block, newLayout: bool) {
    if newLayout then
      after.oldHistory == db.oldHistory && NewRows(db.newHistory, after.newHistory, |c|, b.update.diff)
    else
      after.newHistory == db.newHistory && OldRows(db.oldHistory, after.oldHistory, Diffs(c), b.update.diff)
  }

  ghost predicate NewRows(history: map<Entry, Felt>, after: map<Entry, Felt>, n: nat, diff: StateDiff) {
    && (forall k: HistoryKey, x: nat :: Entry(k, x) in after <==> if x == n then diff.Touches(k) else Entry(k, x) in history)
    && (forall k: HistoryKey, x: nat :: Entry(k, x) in after && x != n && Entry(k, x) in history ==> after[Entry(k, x)] == history[Entry(k, x)])
    && (forall k: HistoryKey :: Entry(k, n) in after && diff.Touches(k) ==> after[Entry(k, n)] == diff.ValueOf(k))
  }

  ghost predicate OldRows(history: map<Entry, Felt>, after: map<Entry, Felt>, d: seq<StateDiff>, diff: StateDiff) {
    && (forall k: HistoryKey, x: nat :: Entry(k, x) in after <==> if x == |d| then diff.Logs(k) else Entry(k, x) in history)
    && (forall k: HistoryKey, x: nat :: Entry(k, x) in after && x != |d| && Entry(k, x) in history ==> after[Entry(k, x)] == history[Entry(k, x)])
    && (forall k: HistoryKey :: Entry(k, |d|) in after ==> after[Entry(k, |d|)] == ValueAt(d, k, |d|))
  }

  lemma {:induction false} LastWriteExtends(d: seq<StateDiff>, diff: StateDiff, k: HistoryKey, n: nat)
    requires n <= |d|
    ensures LastWrite(d + [diff], k, n) == LastWrite(d, k, n)
  {
    if n > 0 {
      LastWriteExtends(d, diff, k, n - 1);
    }
  }

  lemma NewKeptExtends(history: map<Entry, Felt>, after: map<Entry, Felt>, d: seq<StateDiff>, diff: StateDiff, r: nat)
    requires r <= |d| && NewKept(history, d, r) && NewRows(history, after, |d|, diff)
    ensures NewKept(after, d + [diff], r)
  {
    hide LastWrite;
    forall k: HistoryKey, x: nat ensures Entry(k, x) in after <==> Keeps(d + [diff], r, k, x) {
      LastWriteExtends(d, diff, k, r);
      assert x != |d| ==> (Entry(k, x) in history <==> Keeps(d, r, k, x));
    }
    forall k: HistoryKey, x: nat | Entry(k, x) in after && Keeps(d + [diff], r, k, x)
      ensures after[Entry(k, x)] == (d + [diff])[x].ValueOf(k)
    {
      LastWriteExtends(d, diff, k, r);
      assert x != |d| ==> Entry(k, x) in history && Keeps(d, r, k, x);
    }
  }

  lemma OldKeptExtends(history: map<Entry, Felt>, after: map<Entry, Felt>, d: seq<StateDiff>, diff: StateDiff, r: nat)
    requires r <= |d| && OldKept(history, d, r) && OldRows(history, after, d, diff)
    ensures OldKept(after, d + [diff], r)
  {
    hide LastWrite;
    forall k: HistoryKey, x: nat ensures Entry(k, x) in after <==> r <= x < |d + [diff]| && (d + [diff])[x].Logs(k) {
      assert x != |d| ==> (Entry(k, x) in history <==> r <= x < |d| && d[x].Logs(k));
    }
    forall k: HistoryKey, x: nat | Entry(k, x) in after && x < |d + [diff]|
      ensures after[Entry(k, x)] == ValueAt(d + [diff], k, x)
    {
      LastWriteExtends(d, diff, k, x);
    }
  }

  lemma MappedExtends(numbers: map<Felt, nat>, c: seq<Block>, b: Block, m: nat)
    requires Distinct(c + [b]) && Mapped(numbers, c, m) && m <= |c|
    ensures Mapped(numbers[b.update.blockHash := |c|], c + [b], m)
  {
    forall n: nat | n < |c + [b]| ensures HashOf(c + [b], n) in numbers[b.update.blockHash := |c|] <==> m <= n {
      assert HashOf(c + [b], |c|) == b.update.blockHash;
      assert n < |c| ==> HashOf(c + [b], n) == HashOf(c, n);
    }
  }

  lemma LookupExtends(
    lookups: map<Felt, (nat, nat)>, after: map<Felt, (nat, nat)>, c: seq<Block>, b: Block, r: nat, n: nat, i: nat)
    requires Distinct(c + [b]) && LookedUp(lookups, c, r) && r <= |c| && StoresLookups(lookups, after, |c|, b.txs)
    requires n < |c + [b]| && i < |(c + [b])[n].txs|
    ensures (c + [b])[n].txs[i].hash in after <==> r <= n
  {
    var c' := c + [b];
    assert c'[|c|] == b;
    if n == |c| {
      assert b.txs[i].hash in after;
    } else {
      assert c'[n] == c[n];
      forall j: nat | j < |b.txs| ensures b.txs[j].hash != c[n].txs[i].hash {
        assert c'[|c|].txs[j].hash != c'[n].txs[i].hash;
      }
      assert c[n].txs[i].hash in lookups <==> r <= n;
    }
  }

  lemma LookedUpExtends(lookups: map<Felt, (nat, nat)>, after: map<Felt, (nat, nat)>, c: seq<Block>, b: Block, r: nat)
    requires Distinct(c + [b]) && LookedUp(lookups, c, r) && r <= |c| && StoresLookups(lookups, after, |c|, b.txs)
    ensures LookedUp(after, c + [b], r)
  {
    hide Distinct;
    var c' := c + [b];
    forall n: nat, i: nat | n < |c'| && i < |c'[n].txs| ensures c'[n].txs[i].hash in after <==> r <= n {
      LookupExtends(lookups, after, c, b, r, n, i);
    }
    forall x | x in after
      ensures after[x].0 < |c'| && after[x].1 < |c'[after[x].0].txs| && c'[after[x].0].txs[after[x].1].hash == x
    {
      if i :| 0 <= i < |b.txs| && b.txs[i].hash == x {
        assert c'[|c|] == b;
      } else {
        assert x in lookups && after[x] == lookups[x];
      }
    }
  }

  lemma MessagesExtend(messages: map<Felt, Felt>, after: map<Felt, Felt>, c: seq<Block>, b: Block, r: nat)
    requires Distinct(c + [b]) && MessagesKept(messages, c, r) && r <= |c| && StoresMessages(messages, after, b.txs)
    ensures MessagesKept(after, c + [b], r)
  {
    var c' := c + [b];
    assert c'[|c|] == b;
    forall n: nat, i: nat | n < |c'| && i < |c'[n].txs| && c'[n].txs[i].message.Some?
      ensures c'[n].txs[i].message.value in after <==> r <= n
      ensures r <= n ==> after[c'[n].txs[i].message.value] == c'[n].txs[i].hash
    {
      if n < |c| {
        assert c'[n] == c[n];
        forall j | 0 <= j < |b.txs| ensures b.txs[j].message != c'[n].txs[i].message {
          assert !SameMessage(c'[|c|].txs[j], c'[n].txs[i]);
        }
      }
    }
    forall x | x in after ensures exists n: nat, i: nat :: n < |c'| && i < |c'[n].txs| && c'[n].txs[i].message == Some(x) {
      if i :| 0 <= i < |b.txs| && b.txs[i].message == Some(x) {
        assert c'[|c|].txs[i].message == Some(x);
      } else {
        var n: nat, i: nat :| n < |c| && i < |c[n].txs| && c[n].txs[i].message == Some(x);
        assert c'[n].txs[i].message == Some(x);
      }
    }
  }

  lemma NumberKeyedExtends(db: Contents, after: Contents, c: seq<Block>, ws: set<nat>, b: Block, newLayout: bool, added: set<nat>, o: nat)
    requires NumberKeyed(db, c, ws, o) && o <= |c| && Stores(db, after, c, b, newLayout, added)
    requires forall w :: w in added ==> RunningEventFilter.Aligned(o) <= w
    ensures NumberKeyed(after, c + [b], ws + added, o)
  {
    hide StoresLookups, StoresMessages, StoresHistory, RunningEventFilter.Aligned, HeadersFrom, UpdatesFrom, TransactionsFrom;
    HeadersExtend(db.headers, c, b, o);
    UpdatesExtend(db.updates, c, b, o);
    TransactionsExtend(db.transactions, c, b, o);
  }

  lemma HeadersExtend(headers: map<nat, Header>, c: seq<Block>, b: Block, o: nat)
    requires HeadersFrom(headers, c, o) && o <= |c|
    ensures HeadersFrom(headers[|c| := Header(b.update.blockHash, b.timestamp)], c + [b], o)
  {
  }

  lemma UpdatesExtend(updates: map<nat, StateUpdate>, c: seq<Block>, b: Block, o: nat)
    requires UpdatesFrom(updates, c, o) && o <= |c|
    ensures UpdatesFrom(updates[|c| := b.update], c + [b], o)
  {
  }

  lemma TransactionsExtend(transactions: map<nat, seq<Transaction>>, c: seq<Block>, b: Block, o: nat)
    requires TransactionsFrom(transactions, c, o) && o <= |c|
    ensures TransactionsFrom(transactions[|c| := b.txs], c + [b], o)
  {
  }

  /** Storing a block keeps the three numbers. */
  lemma RetainedExtends(
    db: Contents, after: Contents, c: seq<Block>, ws: set<nat>, b: Block, newLayout: bool, added: set<nat>, o: nat, r: nat, m: nat)
    requires Distinct(c + [b]) && Retained(db, c, ws, newLayout, o, r, m) && Stores(db, after, c, b, newLayout, added)
    requires |c| + 1 < TWO_64
    requires forall w :: w in added ==> RunningEventFilter.Aligned(o) <= w
    ensures Retained(after, c + [b], ws + added, newLayout, o, r, m)
  {
    NumberKeyedExtends(db, after, c, ws, b, newLayout, added, o);
    hide NumberKeyed, Distinct, Mapped, LookedUp, MessagesKept, HistoryKept, StoresLookups, StoresMessages, StoresHistory, RunningEventFilter.Aligned;
    MappedExtends(db.numbers, c, b, m);
    LookedUpExtends(db.lookups, after.lookups, c, b, r);
    MessagesExtend(db.messages, after.messages, c, b, r);
    HistoryExtends(db, after, c, b, newLayout, r);
  }

  lemma HistoryExtends(db: Contents, after: Contents, c: seq<Block>, b: Block, newLayout: bool, r: nat)
    requires r <= |c| && HistoryKept(db, c, newLayout, r) && StoresHistory(db, after, c, b, newLayout)
    ensures HistoryKept(after, c + [b], newLayout, r)
  {
    hide NewKept, OldKept, NewRows, OldRows;
    assert Diffs(c + [b]) == Diffs(c) + [b.update.diff];
    if newLayout {
      NewKeptExtends(db.newHistory, after.newHistory, Diffs(c), b.update.diff, r);
    } else {
      OldKeptExtends(db.oldHistory, after.oldHistory, Diffs(c), b.update.diff, r);
    }
  }

  // ---------------------------------------------------------------- the write

  lemma LookupStored(lookups: map<Felt, (nat, nat)>, before: map<Felt, (nat, nat)>, n: nat, txs: seq<Transaction>, t: nat)
    requires t < |txs| && StoresLookups(lookups, before, n, txs[..t])
    requires forall i: nat :: i < t ==> txs[i].hash != txs[t].hash
    ensures StoresLookups(lookups, before[txs[t].hash := (n, t)], n, txs[..t + 1])
  {
    var pre, post := txs[..t], txs[..t + 1];
    assert post[t] == txs[t] && forall i :: 0 <= i < t ==> post[i] == pre[i];
  }

  method StoreLookups(lookups: map<Felt, (nat, nat)>, n: nat, txs: seq<Transaction>) returns (after: map<Felt, (nat, nat)>)
    requires forall i: nat, j: nat :: i < |txs| && j < |txs| && txs[i].hash == txs[j].hash ==> i == j
    ensures StoresLookups(lookups, after, n, txs)
  {
    after := lookups;
    assert StoresLookups(lookups, after, n, txs[..0]);
    hide StoresLookups;
    for t := 0 to |txs|
      invariant StoresLookups(lookups, after, n, txs[..t])
    {
      LookupStored(lookups, after, n, txs, t);
      after := after[txs[t].hash := (n, t)];
    }
    assert txs[..|txs|] == txs;
  }

  lemma MessageStored(messages: map<Felt, Felt>, before: map<Felt, Felt>, txs: seq<Transaction>, t: nat)
    requires t < |txs| && StoresMessages(messages, before, txs[..t])
    requires forall i: nat :: i < t ==> !SameMessage(txs[i], txs[t])
    ensures StoresMessages(
              messages, if txs[t].message.Some? then before[txs[t].message.value := txs[t].hash] else before, txs[..t + 1])
  {
    var pre, post := txs[..t], txs[..t + 1];
    assert post[t] == txs[t] && forall i :: 0 <= i < t ==> post[i] == pre[i];
    forall i: nat | i < t && txs[t].message.Some? ensures pre[i].message != txs[t].message {
      assert !SameMessage(txs[i], txs[t]);
    }
  }

  method StoreMessages(messages: map<Felt, Felt>, txs: seq<Transaction>) returns (after: map<Felt, Felt>)
    requires forall i: nat, j: nat :: i < |txs| && j < |txs| && SameMessage(txs[i], txs[j]) ==> i == j
    ensures StoresMessages(messages, after, txs)
  {
    after := messages;
    assert StoresMessages(messages, after, txs[..0]);
    hide StoresMessages, SameMessage;
    for t := 0 to |txs|
      invariant StoresMessages(messages, after, txs[..t])
    {
      MessageStored(messages, after, txs, t);
      if txs[t].message.Some? {
        after := after[txs[t].message.value := txs[t].hash];
      }
    }
    assert txs[..|txs|] == txs;
  }

  /** The rows of the layout in use; `d` are the diffs of the blocks below, which give the values before this one. */
  method StoreHistory(db: Contents, d: seq<StateDiff>, diff: StateDiff, newLayout: bool)
    returns (oldHistory: map<Entry, Felt>, newHistory: map<Entry, Felt>)
    requires forall k: HistoryKey, x: nat :: x >= |d| ==> Entry(k, x) !in db.oldHistory && Entry(k, x) !in db.newHistory
    ensures newLayout ==> oldHistory == db.oldHistory && NewRows(db.newHistory, newHistory, |d|, diff)
    ensures !newLayout ==> newHistory == db.newHistory && OldRows(db.oldHistory, oldHistory, d, diff)
  {
    oldHistory, newHistory := db.oldHistory, db.newHistory;
    if newLayout {
      newHistory := newHistory + map k | k in diff.Keys() :: Entry(k, |d|) := diff.ValueOf(k);
    } else {
      oldHistory := oldHistory + map k | k in diff.Keys() && diff.Logs(k) :: Entry(k, |d|) := ValueAt(d, k, |d|);
    }
  }

  lemma RowsBelowHead(db: Contents, c: seq<Block>, newLayout: bool, r: nat)
    requires r <= |c| && HistoryKept(db, c, newLayout, r)
    ensures forall k: HistoryKey, x: nat :: x >= |c| ==> Entry(k, x) !in db.oldHistory && Entry(k, x) !in db.newHistory
  {
    forall k: HistoryKey, x: nat | x >= |c| ensures Entry(k, x) !in db.oldHistory && Entry(k, x) !in db.newHistory {
      assert newLayout ==> !Keeps(Diffs(c), r, k, x);
    }
  }

  /** The filter window that block `n` completes. */
  function CompletedWindows(n: nat): (ws: set<nat>)
    ensures forall w: nat :: w in ws <==> w == RunningEventFilter.Aligned(w) && w + FilterCodec.NUM_BLOCKS == n + 1
  {
    if (n + 1) % FilterCodec.NUM_BLOCKS == 0 then {n + 1 - FilterCodec.NUM_BLOCKS} else {}
  }

  lemma CompletedIsKept(n: nat, o: nat)
    requires o <= n
    ensures forall w :: w in CompletedWindows(n) ==> RunningEventFilter.Aligned(o) <= w
  {
  }

  /** Stores the block that follows the first |c| blocks of the chain. */
  method StoreBlock(
    store: KeyValueStore, c: seq<Block>, b: Block, newLayout: bool,
    ghost ws: set<nat>, ghost o: nat, ghost r: nat, ghost m: nat)
    requires Distinct(c + [b]) && Retained(store.db, c, ws, newLayout, o, r, m) && |c| + 1 < TWO_64
    modifies store`db, store`height
    ensures Retained(store.db, c + [b], ws + CompletedWindows(|c|), newLayout, o, r, m) && store.height == Some(|c|)
  {
    var db := store.db;
    DistinctInBlock(c, b);
    RowsBelowHead(db, c, newLayout, r);
    CompletedIsKept(|c|, o);
    hide Distinct, NumberKeyed, HashKeyed, HistoryKept, StoresLookups, StoresMessages, NewRows, OldRows, CompletedWindows;
    var lookups := StoreLookups(db.lookups, |c|, b.txs);
    var messages := StoreMessages(db.messages, b.txs);
    var oldHistory, newHistory := StoreHistory(db, Diffs(c), b.update.diff, newLayout);
    var after := Contents(
      db.headers[|c| := Header(b.update.blockHash, b.timestamp)], db.commitments + {|c|}, db.updates[|c| := b.update],
      db.transactions[|c| := b.txs], db.windows + CompletedWindows(|c|), db.numbers[b.update.blockHash := |c|],
      lookups, messages, oldHistory, newHistory);
    assert Stores(db, after, c, b, newLayout, CompletedWindows(|c|));
    RetainedExtends(db, after, c, ws, b, newLayout, CompletedWindows(|c|), o, r, m);
    store.db, store.height := after, Some(|c|);
  }

  lemma DistinctInBlock(c: seq<Block>, b: Block)
    requires Distinct(c + [b])
    ensures forall i: nat, j: nat :: i < |b.txs| && j < |b.txs| && b.txs[i].hash == b.txs[j].hash ==> i == j
    ensures forall i: nat, j: nat :: i < |b.txs| && j < |b.txs| && SameMessage(b.txs[i], b.txs[j]) ==> i == j
  {
    assert (c + [b])[|c|] == b;
  }
}
