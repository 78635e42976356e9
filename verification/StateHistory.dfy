/**
 Historical state reads in both history layouts, and what pruning keeps of them.

 In the old layout the entry of a key at block n holds the value before n, and a read
 at height h takes the first entry above h, or the head state. In the new layout the
 entry holds the value after n, and a read takes the last entry at or below h.

 Models the history reads of core/deprecatedstate/state.go and
 core/state/state_reader.go, and the history part of pruner/accessors.go.
 */
module StateHistory {
  import opened Common
  import opened Words

  type Felt = nat

  datatype HistoryKey = StorageKey(address: Felt, slot: Felt) | NonceKey(address: Felt) | ClassHashKey(address: Felt)

  /** A row of a history bucket: its key prefix and the block number that ends it. */
  datatype Entry = Entry(key: HistoryKey, block: nat)

  datatype StateDiff = StateDiff(
    storage: map<(Felt, Felt), Felt>,
    nonces: map<Felt, Felt>,
    deployed: map<Felt, Felt>,
    replaced: map<Felt, Felt>)
  {
    /** The block writes this key. */
    predicate Touches(k: HistoryKey) {
      match k
      case StorageKey(a, s) => (a, s) in storage
      case NonceKey(a) => a in nonces
      case ClassHashKey(a) => a in deployed || a in replaced
    }

    /** The value after the block. */
    function ValueOf(k: HistoryKey): Felt
      requires Touches(k)
    {
      match k
      case StorageKey(a, s) => storage[(a, s)]
      case NonceKey(a) => nonces[a]
      case ClassHashKey(a) => if a in replaced then replaced[a] else deployed[a]
    }

    /** The old layout logs the key: a deployment has no previous class hash to log. */
    predicate Logs(k: HistoryKey) {
      Touches(k) && (k.ClassHashKey? ==> k.address in replaced)
    }

    /** The keys of the diff, in the order-free form in which its maps are iterated. */
    function Keys(): (keys: set<HistoryKey>)
      ensures forall k :: k in keys <==> Touches(k)
    {
      (set p | p in storage.Keys :: StorageKey(p.0, p.1)) + (set a | a in nonces.Keys :: NonceKey(a))
      + (set a | a in deployed.Keys + replaced.Keys :: ClassHashKey(a))
    }
  }

  // ---------------------------------------------------------------- the true history

  /** The last block below `n` that writes the key. */
  function LastWrite(c: seq<StateDiff>, k: HistoryKey, n: nat): (b: int)
    requires n <= |c|
    ensures -1 <= b < n
    ensures b >= 0 ==> c[b].Touches(k)
    ensures forall x :: b < x < n ==> !c[x].Touches(k)
  {
    if n == 0 then -1 else if c[n - 1].Touches(k) then n - 1 else LastWrite(c, k, n - 1)
  }

  /** The value of the key after the first `n` blocks. */
  function ValueAt(c: seq<StateDiff>, k: HistoryKey, n: nat): Felt
    requires n <= |c|
  {
    var b := LastWrite(c, k, n);
    if b < 0 then 0 else c[b].ValueOf(k)
  }

  /** The state after the first `n` blocks, by applying the maps of their diffs in order; replaced classes last. */
  datatype Applied = Applied(storage: map<(Felt, Felt), Felt>, nonces: map<Felt, Felt>, classes: map<Felt, Felt>)

  ghost function AppliedUpTo(c: seq<StateDiff>, n: nat): Applied
    requires n <= |c|
  {
    if n == 0 then Applied(map[], map[], map[])
    else
      var before, d := AppliedUpTo(c, n - 1), c[n - 1];
      Applied(before.storage + d.storage, before.nonces + d.nonces, before.classes + d.deployed + d.replaced)
  }

  /** What that state holds; a missing entry reads as zero. */
  ghost function Get(st: Applied, k: HistoryKey): Felt {
    match k
    case StorageKey(a, s) => if (a, s) in st.storage then st.storage[(a, s)] else 0
    case NonceKey(a) => if a in st.nonces then st.nonces[a] else 0
    case ClassHashKey(a) => if a in st.classes then st.classes[a] else 0
  }

  lemma {:induction false} ValueIsApplied(c: seq<StateDiff>, k: HistoryKey, n: nat)
    requires n <= |c|
    ensures ValueAt(c, k, n) == Get(AppliedUpTo(c, n), k)
  {
    if n > 0 {
      ValueIsApplied(c, k, n - 1);
    }
  }

  lemma {:induction false} ValueUnchanged(c: seq<StateDiff>, k: HistoryKey, n: nat, m: nat)
    requires n <= m <= |c|
    requires forall x :: n <= x < m ==> !c[x].Touches(k)
    ensures LastWrite(c, k, n) == LastWrite(c, k, m) && ValueAt(c, k, n) == ValueAt(c, k, m)
    decreases m
  {
    if n < m {
      ValueUnchanged(c, k, n, m - 1);
    }
  }

  // ---------------------------------------------------------------- what is kept

  /** Old layout, pruned below `r`: the logged entries from `r` on. */
  ghost predicate OldKept(history: map<Entry, Felt>, c: seq<StateDiff>, r: nat) {
    && (forall k: HistoryKey, b: nat :: Entry(k, b) in history <==> r <= b < |c| && c[b].Logs(k))
    && (forall k: HistoryKey, b: nat :: Entry(k, b) in history && b < |c| ==> history[Entry(k, b)] == ValueAt(c, k, b))
  }

  /** An entry of the new layout that pruning below `r` keeps: at or above `r`, or the last one below. */
  ghost predicate Keeps(c: seq<StateDiff>, r: nat, k: HistoryKey, b: nat)
    requires r <= |c|
  {
    b < |c| && c[b].Touches(k) && (r <= b || LastWrite(c, k, r) == b)
  }

  ghost predicate NewKept(history: map<Entry, Felt>, c: seq<StateDiff>, r: nat)
    requires r <= |c|
  {
    && (forall k: HistoryKey, b: nat :: Entry(k, b) in history <==> Keeps(c, r, k, b))
    && (forall k: HistoryKey, b: nat :: Entry(k, b) in history && Keeps(c, r, k, b) ==> history[Entry(k, b)] == c[b].ValueOf(k))
  }

  // ---------------------------------------------------------------- reads

  /** The first row of the key above a height. */
  method FirstAbove(rows: set<Entry>, k: HistoryKey, height: nat) returns (r: Option<nat>)
    ensures r.Some? ==> r.value > height && Entry(k, r.value) in rows
    ensures forall b: nat :: height < b && (r.None? || b < r.value) ==> Entry(k, b) !in rows
  {
    var above := set e | e in rows && e.key == k && e.block > height :: e.block;
    forall b: nat | Entry(k, b) in rows && height < b ensures b in above {
      assert Entry(k, b).block == b;
    }
    if above == {} {
      return None;
    }
    ghost var x :| x in above;
    LeastExists(above, x);
    var b :| b in above && forall y :: y in above ==> b <= y;
    return Some(b);
  }

  /** The last row of the key at or below a height. */
  method LastAtOrBelow(rows: set<Entry>, k: HistoryKey, height: nat) returns (r: Option<nat>)
    ensures r.Some? ==> r.value <= height && Entry(k, r.value) in rows
    ensures forall b: nat :: b <= height && (r.None? || r.value < b) ==> Entry(k, b) !in rows
  {
    var below := set e | e in rows && e.key == k && e.block <= height :: e.block;
    forall b: nat | Entry(k, b) in rows && b <= height ensures b in below {
      assert Entry(k, b).block == b;
    }
    if below == {} {
      return None;
    }
    ghost var x :| x in below;
    GreatestExists(below, x, height + 1);
    var b :| b in below && forall y :: y in below ==> y <= b;
    return Some(b);
  }

  /**
   What a read of rows pruned below `r` returns: from height r-1 on the true value. Below
   that, the old layout answers with the value at r, and the new one only if the key was
   not written between the height and r.
   */
  ghost function ReadValue(c: seq<StateDiff>, newLayout: bool, k: HistoryKey, height: nat, r: nat): Felt
    requires height < |c| && r <= |c|
  {
    if !newLayout then ValueAt(c, k, Max(height + 1, r))
    else if r <= height + 1 || LastWrite(c, k, r) <= height then ValueAt(c, k, height + 1)
    else 0
  }

  /** No later block deploys the contract: what it writes of it is logged. */
  ghost predicate NotDeployedAbove(c: seq<StateDiff>, address: Felt, height: nat) {
    forall b: nat :: height < b < |c| ==> address !in c[b].deployed
  }

  /** The first block from `n` on that logs the key, or the end of the chain. */
  ghost function NextLogged(c: seq<StateDiff>, k: HistoryKey, n: nat): (b: nat)
    requires n <= |c|
    ensures n <= b <= |c| && (b < |c| ==> c[b].Logs(k)) && forall x: nat :: n <= x < b ==> !c[x].Logs(k)
    decreases |c| - n
  {
    if n == |c| || c[n].Logs(k) then n else NextLogged(c, k, n + 1)
  }

  /**
   Old layout, with the head state where no row is left above the height. The value is
   that before the next logged write, which is the value at the height unless a later
   block deploys the contract whose class hash is read.
   */
  method ReadOld(history: map<Entry, Felt>, head: Felt, k: HistoryKey, height: nat, ghost c: seq<StateDiff>, ghost r: nat)
    returns (v: Felt)
    requires height < |c| && r <= |c| && head == ValueAt(c, k, |c|) && OldKept(history, c, r)
    ensures v == ValueAt(c, k, NextLogged(c, k, Max(height + 1, r)))
    ensures (k.ClassHashKey? ==> NotDeployedAbove(c, k.address, height)) ==> v == ReadValue(c, false, k, height, r)
  {
    hide ValueAt, LastWrite;
    var first := FirstAbove(history.Keys, k, height);
    ghost var start, end := Max(height + 1, r), if first.None? then |c| else first.value;
    v := if first.None? then head else history[Entry(k, first.value)];
    forall x: nat | start <= x < end && x < |c| ensures !c[x].Logs(k) {
      assert Entry(k, x) !in history;
    }
    assert end == NextLogged(c, k, start);
    if k.ClassHashKey? ==> NotDeployedAbove(c, k.address, height) {
      ValueUnchanged(c, k, start, end);
    }
  }

  /** Which is why the deployment is asked for: a class hash looked up before its contract is deployed is the one it gets then. */
  lemma ClassHashTooEarly(c: seq<StateDiff>, k: HistoryKey)
    requires c == [StateDiff(map[], map[], map[], map[]), StateDiff(map[], map[], map[7 := 9], map[])] && k == ClassHashKey(7)
    ensures ValueAt(c, k, 1) == 0 && ValueAt(c, k, NextLogged(c, k, 1)) == 9
    ensures Answer(c, HeightsAfter(c, false, 2), false, k, 0, 0) == None
  {
    assert !c[0].Touches(k) && c[1].Touches(k) && !c[1].Logs(k);
    assert LastWrite(c, k, 1) == -1 && LastWrite(c, k, 2) == 1;
    assert NextLogged(c, k, 2) == 2;
    ContractHeights(c, false, 7, 2);
  }

  /** New layout, without reading the head state. */
  method ReadNew(history: map<Entry, Felt>, k: HistoryKey, height: nat, ghost c: seq<StateDiff>, ghost r: nat)
    returns (v: Felt)
    requires height < |c| && r <= |c| && NewKept(history, c, r)
    ensures v == ReadValue(c, true, k, height, r)
  {
    var last := LastAtOrBelow(history.Keys, k, height);
    ghost var b := LastWrite(c, k, Max(height + 1, r));
    if r <= height + 1 && 0 <= b < r {
      ValueUnchanged(c, k, r, height + 1);
    }
    if height + 1 < r && b <= height {
      ValueUnchanged(c, k, height + 1, r);
    }
    assert 0 <= b <= height ==> Keeps(c, r, k, b) && Entry(k, b) in history;
    if last.None? {
      return 0;
    }
    assert Keeps(c, r, k, last.value);
    v := history[Entry(k, last.value)];
  }

  lemma {:induction false} LastWriteGrows(c: seq<StateDiff>, k: HistoryKey, n: nat, m: nat)
    requires n <= m <= |c|
    ensures LastWrite(c, k, n) <= LastWrite(c, k, m)
    decreases m
  {
    if n < m {
      LastWriteGrows(c, k, n, m - 1);
    }
  }

  // ---------------------------------------------------------------- pruning one block

  /** The buckets of the new layout. */
  function Bucket(k: HistoryKey): Byte {
    match k
    case ClassHashKey(_) => 43
    case NonceKey(_) => 44
    case StorageKey(_, _) => 45
  }

  function Slot(k: HistoryKey): Felt {
    if k.StorageKey? then k.slot else 0
  }

  predicate KeyLess(a: HistoryKey, b: HistoryKey) {
    || Bucket(a) < Bucket(b)
    || (Bucket(a) == Bucket(b) && (a.address < b.address || (a.address == b.address && Slot(a) < Slot(b))))
  }

  /** Row order of the store: by bucket, address and slot, then by block. */
  predicate RowLess(a: Entry, b: Entry) {
    KeyLess(a.key, b.key) || (a.key == b.key && a.block < b.block)
  }

  /** The key of a row in the store. */
  function RowBytes(e: Entry): seq<Byte> {
    [Bucket(e.key)] + KeyBytes(e.key) + PutBE(e.block, 8)
  }

  function KeyBytes(k: HistoryKey): seq<Byte> {
    PutBE(k.address, 32) + if k.StorageKey? then PutBE(k.slot, 32) else []
  }

  /** Where a row's key has its parts. */
  lemma RowLayout(e: Entry)
    requires Fits(e)
    ensures var bytes := RowBytes(e);
            && |bytes| == (if e.key.StorageKey? then 73 else 41)
            && bytes[0] == (match e.key case ClassHashKey(_) => 43 case NonceKey(_) => 44 case StorageKey(_, _) => 45)
            && GetBE(bytes[1..33]) == e.key.address
            && (e.key.StorageKey? ==> GetBE(bytes[33..65]) == e.key.slot)
            && GetBE(bytes[|bytes| - 8..]) == e.block
  {
    hide PutBE, GetBE, Pow256;
    Pow256Values();
    GetPut(e.key.address, 32);
    GetPut(e.block, 8);
    var bytes := RowBytes(e);
    assert bytes[1..33] == PutBE(e.key.address, 32) && bytes[|bytes| - 8..] == PutBE(e.block, 8);
    if e.key.StorageKey? {
      GetPut(e.key.slot, 32);
      assert bytes[33..65] == PutBE(e.key.slot, 32);
    }
  }

  ghost predicate Fits(e: Entry) {
    e.key.address < Pow256(32) && Slot(e.key) < Pow256(32) && e.block < TWO_64
  }

  /** The order that seeking relies on is the byte order of the keys. */
  lemma RowLessIsByteOrder(a: Entry, b: Entry)
    requires Fits(a) && Fits(b)
    ensures BytesLess(RowBytes(a), RowBytes(b)) <==> RowLess(a, b)
  {
    hide PutBE, Pow256, BytesLess;
    var p, q := [Bucket(a.key)] + KeyBytes(a.key), [Bucket(b.key)] + KeyBytes(b.key);
    if Bucket(a.key) == Bucket(b.key) {
      KeyBytesOrder(a.key, b.key);
      FirstByte(Bucket(a.key), Bucket(b.key), KeyBytes(a.key), KeyBytes(b.key));
      RowOrder(p, q, a.block, b.block);
      assert p == q <==> KeyBytes(a.key) == KeyBytes(b.key) by {
        assert p[1..] == KeyBytes(a.key) && q[1..] == KeyBytes(b.key);
      }
    } else {
      var x, y := KeyBytes(a.key) + PutBE(a.block, 8), KeyBytes(b.key) + PutBE(b.block, 8);
      assert RowBytes(a) == [Bucket(a.key)] + x && RowBytes(b) == [Bucket(b.key)] + y;
      FirstByte(Bucket(a.key), Bucket(b.key), x, y);
    }
  }

  lemma FirstByte(p: Byte, q: Byte, x: seq<Byte>, y: seq<Byte>)
    ensures BytesLess([p] + x, [q] + y) <==> p < q || (p == q && BytesLess(x, y))
  {
    assert ([p] + x)[1..] == x && ([q] + y)[1..] == y;
  }

  lemma KeyBytesOrder(a: HistoryKey, b: HistoryKey)
    requires Bucket(a) == Bucket(b)
    requires a.address < Pow256(32) && Slot(a) < Pow256(32) && b.address < Pow256(32) && Slot(b) < Pow256(32)
    ensures BytesLess(KeyBytes(a), KeyBytes(b)) <==> KeyLess(a, b)
    ensures KeyBytes(a) == KeyBytes(b) <==> a == b
    ensures |KeyBytes(a)| == |KeyBytes(b)|
  {
    hide PutBE, Pow256;
    KeyOrder(a.address, b.address, 32);
    GetPut(a.address, 32);
    GetPut(b.address, 32);
    var x, y := if a.StorageKey? then PutBE(a.slot, 32) else [], if b.StorageKey? then PutBE(b.slot, 32) else [];
    if a.StorageKey? {
      KeyOrder(a.slot, b.slot, 32);
      GetPut(a.slot, 32);
      GetPut(b.slot, 32);
    }
    BytesLessConcat(PutBE(a.address, 32), PutBE(b.address, 32), x, y);
    assert KeyBytes(a)[..32] == PutBE(a.address, 32) && KeyBytes(b)[..32] == PutBE(b.address, 32);
    assert KeyBytes(a)[32..] == x && KeyBytes(b)[32..] == y;
  }

  /** Seek to a row, then step back: the greatest row below it. */
  method SeekPrev(rows: set<Entry>, target: Entry) returns (r: Option<Entry>)
    ensures r.None? ==> forall e :: e in rows ==> !RowLess(e, target)
    ensures r.Some? ==> r.value in rows && RowLess(r.value, target)
    ensures r.Some? ==> forall e :: e in rows && RowLess(e, target) ==> e == r.value || RowLess(e, r.value)
  {
    r := None;
    var remaining := rows;
    while remaining != {}
      invariant remaining <= rows
      invariant r.None? ==> forall e :: e in rows - remaining ==> !RowLess(e, target)
      invariant r.Some? ==> r.value in rows && RowLess(r.value, target)
      invariant r.Some? ==>
                  forall e :: e in rows - remaining && RowLess(e, target) ==> e == r.value || RowLess(e, r.value)
      decreases remaining
    {
      var e :| e in remaining;
      if RowLess(e, target) && (r.None? || RowLess(r.value, e)) {
        r := Some(e);
      }
      remaining := remaining - {e};
    }
  }

  /** supersededPruner.prune: the latest row of the key below block `n`, if there is one. */
  method Superseded(rows: set<Entry>, key: HistoryKey, n: nat) returns (r: Option<Entry>)
    ensures r.Some? ==> r.value in rows && r.value.key == key && r.value.block < n
    ensures r.Some? ==> forall b: nat :: Entry(key, b) in rows && b < n ==> b <= r.value.block
    ensures r.None? ==> forall b: nat :: Entry(key, b) in rows ==> n <= b
  {
    r := SeekPrev(rows, Entry(key, n));
    forall b: nat | Entry(key, b) in rows && b < n ensures RowLess(Entry(key, b), Entry(key, n)) {
    }
    if r.Some? && r.value.key != key {
      r := None;
    }
  }

  /** The old layout: the rows that block `n` logged. */
  method PruneOldBlock(n: nat, diff: StateDiff) returns (deleted: set<Entry>)
    ensures forall e: Entry :: e in deleted <==> e.block == n && diff.Logs(e.key)
  {
    deleted := {};
    var remaining := diff.Keys();
    while remaining != {}
      invariant remaining <= diff.Keys()
      invariant forall e: Entry :: e in deleted <==> e.block == n && diff.Logs(e.key) && e.key !in remaining
      decreases remaining
    {
      var k :| k in remaining;
      if diff.Logs(k) {
        deleted := deleted + {Entry(k, n)};
      }
      remaining := remaining - {k};
    }
  }

  /** The new layout: for every key that block `n` writes, the row that it supersedes. */
  method PruneNewBlock(rows: set<Entry>, n: nat, diff: StateDiff) returns (deleted: set<Entry>)
    ensures forall e: Entry :: e in deleted <==> IsSuperseded(rows, n, diff, e)
  {
    deleted := {};
    var remaining := diff.Keys();
    while remaining != {}
      invariant remaining <= diff.Keys()
      invariant forall e: Entry :: e in deleted <==> IsSuperseded(rows, n, diff, e) && e.key !in remaining
      decreases remaining
    {
      var k :| k in remaining;
      var row := Superseded(rows, k, n);
      forall e: Entry | e.key == k && IsSuperseded(rows, n, diff, e) ensures row == Some(e) {
        assert Entry(k, e.block) in rows;
        if row.Some? {
          assert Entry(k, row.value.block) in rows;
        }
      }
      if row.Some? {
        deleted := deleted + {row.value};
      }
      remaining := remaining - {k};
    }
  }

  /** The last row of its key below `n`, for a key that block `n` writes. */
  ghost predicate IsSuperseded(rows: set<Entry>, n: nat, diff: StateDiff, e: Entry) {
    && e in rows && e.block < n && diff.Touches(e.key)
    && forall b: nat :: Entry(e.key, b) in rows && b < n ==> b <= e.block
  }

  /**
   Pruning block `n` against rows flushed up to `f` moves the pending state from
   max(f, n) to max(f, n+1). For a block whose deletes were already flushed (n < f)
   nothing is left to delete.
   */
  lemma NewKeptStep(
    rows: map<Entry, Felt>, pending: set<Entry>, deleted: set<Entry>, c: seq<StateDiff>, f: nat, n: nat)
    requires n < |c| && f <= |c| && NewKept(rows, c, f)
    requires NewKept(rows - pending, c, if f < n then n else f)
    requires forall e: Entry :: e in deleted <==> IsSuperseded(rows.Keys, n, c[n], e)
    ensures NewKept(rows - (pending + deleted), c, if f < n + 1 then n + 1 else f)
  {
    var x, x' := if f < n then n else f, if f < n + 1 then n + 1 else f;
    var after := rows - (pending + deleted);
    forall k: HistoryKey, b: nat ensures Entry(k, b) in after <==> Keeps(c, x', k, b) {
      DeletedIsLastWrite(rows, deleted, c, f, n, k, b);
      assert Entry(k, b) in rows - pending <==> Keeps(c, x, k, b);
    }
    forall k: HistoryKey, b: nat | Entry(k, b) in after && Keeps(c, x', k, b)
      ensures after[Entry(k, b)] == c[b].ValueOf(k)
    {
      assert Entry(k, b) in rows && Keeps(c, f, k, b);
    }
  }

  /** The rows that block `n` supersedes are the last writes below it, unless they are gone already. */
  lemma DeletedIsLastWrite(rows: map<Entry, Felt>, deleted: set<Entry>, c: seq<StateDiff>, f: nat, n: nat, k: HistoryKey, b: nat)
    requires n < |c| && f <= |c| && NewKept(rows, c, f)
    requires forall e: Entry :: e in deleted <==> IsSuperseded(rows.Keys, n, c[n], e)
    ensures Entry(k, b) in deleted <==> f <= n && c[n].Touches(k) && b == LastWrite(c, k, n)
  {
    assert Entry(k, b) in deleted <==> IsSuperseded(rows.Keys, n, c[n], Entry(k, b));
    if c[n].Touches(k) {
      var last := LastWrite(c, k, n);
      if f <= n {
        if last >= 0 {
          if last < f {
            ValueUnchanged(c, k, f, n);
          }
          assert Keeps(c, f, k, last);
          assert Entry(k, last) in rows.Keys;
        }
      }
      if Entry(k, b) in rows && b < n {
        assert Keeps(c, f, k, b);
      }
    }
  }

  lemma OldKeptStep(
    rows: map<Entry, Felt>, pending: set<Entry>, deleted: set<Entry>, c: seq<StateDiff>, f: nat, n: nat)
    requires n < |c| && OldKept(rows, c, f)
    requires OldKept(rows - pending, c, if f < n then n else f)
    requires forall e: Entry :: e in deleted <==> e.block == n && c[n].Logs(e.key)
    ensures OldKept(rows - (pending + deleted), c, if f < n + 1 then n + 1 else f)
  {
    var x, x' := if f < n then n else f, if f < n + 1 then n + 1 else f;
    var after := rows - (pending + deleted);
    forall k: HistoryKey, b: nat ensures Entry(k, b) in after <==> x' <= b < |c| && c[b].Logs(k) {
      assert Entry(k, b) in rows - pending <==> x <= b < |c| && c[b].Logs(k);
    }
  }

  // ---------------------------------------------------------------- deployment heights

  /** The height at which each contract of the head state was deployed. Pruning leaves these alone. */
  type Heights = map<Felt, nat>

  predicate DeployedAt(heights: Heights, address: Felt, height: nat) {
    address in heights && heights[address] <= height
  }

  /** No contract is deployed above its recorded height. */
  ghost predicate Recorded(heights: Heights, c: seq<StateDiff>) {
    forall a :: a in heights ==> NotDeployedAbove(c, a, heights[a])
  }

  /** The block-hash contract and the global counter, which have no class and are in no list of deployments. */
  const SYSTEM_CONTRACTS: set<Felt> := {1, 2}

  ghost predicate WritesTo(d: StateDiff, address: Felt) {
    exists slot :: (address, slot) in d.storage
  }

  ghost predicate Empty(c: seq<StateDiff>, address: Felt, n: nat)
    requires n <= |c|
  {
    forall slot :: ValueAt(c, StorageKey(address, slot), n) == 0
  }

  /**
   The heights recorded by storing the first `n` blocks, without reorgs. A system contract
   is created by the first block that writes to it; the new layout drops it again with any
   block that leaves all of its slots zero.
   */
  ghost function HeightsAfter(c: seq<StateDiff>, newLayout: bool, n: nat): Heights
    requires n <= |c|
  {
    if n == 0 then map[]
    else
      var written := set a | a in SYSTEM_CONTRACTS && WritesTo(c[n - 1], a);
      var emptied := set a | a in written && newLayout && Empty(c, a, n);
      HeightsWith(HeightsAfter(c, newLayout, n - 1), c[n - 1].deployed.Keys, written, emptied, n - 1)
  }

  function HeightsWith(heights: Heights, deployed: set<Felt>, written: set<Felt>, emptied: set<Felt>, b: nat): Heights {
    var present := heights.Keys + deployed + written - emptied;
    map a | a in present :: if a in deployed || a !in heights then b else heights[a]
  }

  lemma {:induction false} HeightsRecorded(c: seq<StateDiff>, newLayout: bool, n: nat)
    requires n <= |c|
    ensures forall a, b: nat :: a in HeightsAfter(c, newLayout, n) && HeightsAfter(c, newLayout, n)[a] < b < n ==> a !in c[b].deployed
    ensures n == |c| ==> Recorded(HeightsAfter(c, newLayout, n), c)
  {
    if n > 0 {
      HeightsRecorded(c, newLayout, n - 1);
    }
  }

  lemma NoHeights(c: seq<StateDiff>, newLayout: bool)
    ensures HeightsAfter(c, newLayout, 0) == map[]
  {
  }

  /** One block and one contract. */
  lemma HeightOfBlock(c: seq<StateDiff>, newLayout: bool, n: nat, a: Felt)
    requires n < |c|
    ensures var before, after := HeightsAfter(c, newLayout, n), HeightsAfter(c, newLayout, n + 1);
            var written := a in SYSTEM_CONTRACTS && WritesTo(c[n], a);
            && (a in after <==> (a in before || a in c[n].deployed || written) && !(written && newLayout && Empty(c, a, n + 1)))
            && (a in after ==> after[a] == if a in c[n].deployed || a !in before then n else before[a])
  {
    hide Empty, WritesTo;
  }

  /** Any other contract is recorded once it is deployed, at the last block that deploys it. */
  lemma {:induction false} ContractHeights(c: seq<StateDiff>, newLayout: bool, address: Felt, n: nat)
    requires n <= |c| && address !in SYSTEM_CONTRACTS
    ensures if address in HeightsAfter(c, newLayout, n)
            then
              var h := HeightsAfter(c, newLayout, n)[address];
              h < n && address in c[h].deployed && forall b: nat :: h < b < n ==> address !in c[b].deployed
            else forall b: nat :: b < n ==> address !in c[b].deployed
  {
    hide Empty, WritesTo, HeightsAfter, HeightsWith;
    if n == 0 {
      NoHeights(c, newLayout);
    } else {
      ContractHeights(c, newLayout, address, n - 1);
      HeightOfBlock(c, newLayout, n - 1, address);
    }
  }

  /** A system contract in the old layout: at the first block that writes to it. */
  lemma {:induction false} OldSystemHeights(c: seq<StateDiff>, address: Felt, n: nat)
    requires n <= |c| && address in SYSTEM_CONTRACTS && forall b: nat :: b < n ==> address !in c[b].deployed
    ensures if address in HeightsAfter(c, false, n)
            then
              var h := HeightsAfter(c, false, n)[address];
              h < n && WritesTo(c[h], address) && forall b: nat :: b < h ==> !WritesTo(c[b], address)
            else forall b: nat :: b < n ==> !WritesTo(c[b], address)
  {
    hide Empty, WritesTo, HeightsAfter, HeightsWith;
    if n == 0 {
      NoHeights(c, false);
    } else {
      OldSystemHeights(c, address, n - 1);
      HeightOfBlock(c, false, n - 1, address);
    }
  }

  lemma EmptyKept(c: seq<StateDiff>, address: Felt, n: nat)
    requires n < |c| && !WritesTo(c[n], address)
    ensures Empty(c, address, n + 1) <==> Empty(c, address, n)
  {
    forall slot ensures ValueAt(c, StorageKey(address, slot), n + 1) == ValueAt(c, StorageKey(address, slot), n) {
      assert !c[n].Touches(StorageKey(address, slot));
    }
  }

  /**
   A system contract in the new layout is there exactly if it has a non-zero slot, and its
   height is the last one below which it was empty.
   */
  lemma {:induction false} SystemHeights(c: seq<StateDiff>, address: Felt, n: nat)
    requires n <= |c| && address in SYSTEM_CONTRACTS && forall b: nat :: b < n ==> address !in c[b].deployed
    ensures address in HeightsAfter(c, true, n) <==> !Empty(c, address, n)
    ensures address in HeightsAfter(c, true, n) ==>
              var h := HeightsAfter(c, true, n)[address];
              h < n && Empty(c, address, h) && forall m: nat :: h < m <= n ==> !Empty(c, address, m)
  {
    hide Empty, WritesTo;
    if n == 0 {
      EmptyAtFirst(c, address);
    } else {
      SystemHeights(c, address, n - 1);
      if !WritesTo(c[n - 1], address) {
        EmptyKept(c, address, n - 1);
      }
    }
  }

  lemma EmptyAtFirst(c: seq<StateDiff>, address: Felt)
    ensures Empty(c, address, 0)
  {
  }

  // ---------------------------------------------------------------- reads above a floor

  /** A read of the state after `n` blocks is not refused for want of the contract; old-layout storage is read first. */
  ghost predicate Served(heights: Heights, newLayout: bool, k: HistoryKey, n: nat) {
    (!newLayout && k.StorageKey?) || (k.address in heights && heights[k.address] < n)
  }

  /** What a reader answers with rows pruned below `r`: nothing for a contract that is not deployed at the height. */
  ghost function Answer(c: seq<StateDiff>, heights: Heights, newLayout: bool, k: HistoryKey, height: nat, r: nat): Option<Felt>
    requires height < |c| && r <= |c|
  {
    var v := ReadValue(c, newLayout, k, height, r);
    // in the old layout a non-zero slot is taken to prove the deployment
    if DeployedAt(heights, k.address, height) || (!newLayout && k.StorageKey? && v != 0) then Some(v) else None
  }

  /** Every read from `from` blocks on is answered as if nothing were pruned, though rows are pruned below `r`. */
  ghost predicate ReadsExact(c: seq<StateDiff>, heights: Heights, newLayout: bool, from: nat, r: nat)
    requires r <= |c|
  {
    forall k: HistoryKey, height: nat :: height < |c| && from <= height + 1 ==>
      Answer(c, heights, newLayout, k, height, r) == Answer(c, heights, newLayout, k, height, 0)
  }

  lemma AnswerIff(c: seq<StateDiff>, heights: Heights, newLayout: bool, k: HistoryKey, height: nat, r: nat)
    requires height < |c| && r <= |c|
    ensures Answer(c, heights, newLayout, k, height, r) == Answer(c, heights, newLayout, k, height, 0) <==>
            (Served(heights, newLayout, k, height + 1) ==> ReadValue(c, newLayout, k, height, r) == ValueAt(c, k, height + 1))
  {
    hide ValueAt, LastWrite;
  }

  /** Block `b` writes over a value that a pruned read would miss: another one in the old layout, a non-zero one in the new. */
  ghost predicate Overwrites(c: seq<StateDiff>, heights: Heights, newLayout: bool, k: HistoryKey, b: nat)
    requires b < |c|
  {
    && c[b].Touches(k) && Served(heights, newLayout, k, b)
    && ValueAt(c, k, b) != if newLayout then 0 else c[b].ValueOf(k)
  }

  ghost predicate NothingOverwritten(c: seq<StateDiff>, heights: Heights, newLayout: bool, from: nat, r: nat)
    requires r <= |c|
  {
    forall k: HistoryKey, b: nat :: from <= b < r ==> !Overwrites(c, heights, newLayout, k, b)
  }

  lemma {:induction false} ValueKept(c: seq<StateDiff>, heights: Heights, k: HistoryKey, n: nat, r: nat)
    requires n <= r <= |c| && Served(heights, false, k, n) && NothingOverwritten(c, heights, false, n, r)
    ensures ValueAt(c, k, n) == ValueAt(c, k, r)
    decreases r
  {
    if n < r {
      ValueKept(c, heights, k, n, r - 1);
      assert !Overwrites(c, heights, false, k, r - 1);
    }
  }

  /** The first write at or after `n`, when there is one below `r`. */
  lemma {:induction false} FirstWrite(c: seq<StateDiff>, k: HistoryKey, n: nat, r: nat) returns (b: nat)
    requires n <= r <= |c| && n <= LastWrite(c, k, r)
    ensures n <= b < r && c[b].Touches(k) && ValueAt(c, k, b) == ValueAt(c, k, n)
    decreases r - n
  {
    if c[n].Touches(k) {
      b := n;
    } else {
      b := FirstWrite(c, k, n + 1, r);
      ValueUnchanged(c, k, n, n + 1);
    }
  }

  /**
   All reads from a floor on are answered as by the unpruned chain if and only if no block
   between the floor and the pruned history overwrites a value of a contract that was
   there before; the updates of those blocks are still stored. For whatever deployment
   heights are recorded.
   */
  lemma ReadsExactIff(c: seq<StateDiff>, heights: Heights, newLayout: bool, from: nat, r: nat)
    requires 1 <= from && r <= |c|
    ensures ReadsExact(c, heights, newLayout, from, r) <==> NothingOverwritten(c, heights, newLayout, from, r)
  {
    hide Answer, Served;
    if NothingOverwritten(c, heights, newLayout, from, r) {
      forall k: HistoryKey, height: nat | height < |c| && from <= height + 1
        ensures Answer(c, heights, newLayout, k, height, r) == Answer(c, heights, newLayout, k, height, 0)
      {
        KeptReads(c, heights, newLayout, from, r, k, height);
      }
    }
    if ReadsExact(c, heights, newLayout, from, r) {
      forall k: HistoryKey, b: nat | from <= b < r ensures !Overwrites(c, heights, newLayout, k, b) {
        if Overwrites(c, heights, newLayout, k, b) {
          LostRead(c, heights, newLayout, from, r, k, b);
        }
      }
    }
  }

  lemma KeptReads(c: seq<StateDiff>, heights: Heights, newLayout: bool, from: nat, r: nat, k: HistoryKey, height: nat)
    requires r <= |c| && NothingOverwritten(c, heights, newLayout, from, r) && height < |c| && from <= height + 1
    ensures Answer(c, heights, newLayout, k, height, r) == Answer(c, heights, newLayout, k, height, 0)
  {
    hide Answer;
    AnswerIff(c, heights, newLayout, k, height, r);
    if height + 1 < r && Served(heights, newLayout, k, height + 1) {
      if !newLayout {
        ValueKept(c, heights, k, height + 1, r);
      } else if height < LastWrite(c, k, r) {
        var b := FirstWrite(c, k, height + 1, r);
        assert !Overwrites(c, heights, newLayout, k, b);
      }
    }
  }

  /** An overwritten value is lost to the read right below the block, or to the one right above. */
  lemma LostValue(c: seq<StateDiff>, newLayout: bool, r: nat, k: HistoryKey, b: nat)
    requires 1 <= b < r <= |c| && c[b].Touches(k) && ValueAt(c, k, b) != if newLayout then 0 else c[b].ValueOf(k)
    ensures ReadValue(c, newLayout, k, b - 1, r) != ValueAt(c, k, b) || ReadValue(c, newLayout, k, b, r) != ValueAt(c, k, b + 1)
  {
    assert LastWrite(c, k, b + 1) == b;
    LastWriteGrows(c, k, b + 1, r);
  }

  lemma LostRead(c: seq<StateDiff>, heights: Heights, newLayout: bool, from: nat, r: nat, k: HistoryKey, b: nat)
    requires 1 <= from <= b < r <= |c| && Overwrites(c, heights, newLayout, k, b)
    ensures !ReadsExact(c, heights, newLayout, from, r)
  {
    hide Answer, ReadValue, ValueAt;
    LostValue(c, newLayout, r, k, b);
    AnswerIff(c, heights, newLayout, k, b - 1, r);
    AnswerIff(c, heights, newLayout, k, b, r);
  }

  /** A new-layout read of a system contract is answered exactly if some slot of it was non-zero after every block since. */
  lemma SystemAnsweredIff(c: seq<StateDiff>, address: Felt, slot: Felt, height: nat)
    requires height < |c| && address in SYSTEM_CONTRACTS && forall b: nat :: b < |c| ==> address !in c[b].deployed
    ensures Answer(c, HeightsAfter(c, true, |c|), true, StorageKey(address, slot), height, 0).Some? <==>
            forall m: nat :: height < m <= |c| ==> !Empty(c, address, m)
  {
    hide Empty, HeightsAfter;
    SystemHeights(c, address, |c|);
  }

  /** The counter is set, cleared and set again: its first value is in the history, and the read is refused. */
  lemma ClearedCounter(c: seq<StateDiff>)
    requires c == [StateDiff(map[(2, 1) := 5], map[], map[], map[]), StateDiff(map[(2, 1) := 0], map[], map[], map[]),
                   StateDiff(map[(2, 1) := 7], map[], map[], map[])]
    ensures ValueAt(c, StorageKey(2, 1), 1) == 5
    ensures Answer(c, HeightsAfter(c, true, 3), true, StorageKey(2, 1), 0, 0) == None
  {
    forall slot ensures ValueAt(c, StorageKey(2, slot), 2) == 0 {
      assert c[1].Touches(StorageKey(2, slot)) <==> slot == 1;
      assert c[0].Touches(StorageKey(2, slot)) <==> slot == 1;
    }
    assert Empty(c, 2, 2);
    SystemAnsweredIff(c, 2, 1, 0);
  }

  /** Every write of a diff changes the value. */
  ghost predicate WritesChange(c: seq<StateDiff>) {
    forall k: HistoryKey, b: nat :: b < |c| && c[b].Touches(k) ==> c[b].ValueOf(k) != ValueAt(c, k, b)
  }

  /** Then, in the old layout, the condition is that those blocks write to no contract that was there before them. */
  lemma ReadsExactIffUntouched(c: seq<StateDiff>, heights: Heights, from: nat, r: nat)
    requires 1 <= from && r <= |c| && WritesChange(c)
    ensures ReadsExact(c, heights, false, from, r) <==>
            forall k: HistoryKey, b: nat :: from <= b < r && c[b].Touches(k) ==> !Served(heights, false, k, b)
  {
    ReadsExactIff(c, heights, false, from, r);
    assert forall k: HistoryKey, b: nat :: from <= b < r ==>
             (Overwrites(c, heights, false, k, b) <==> c[b].Touches(k) && Served(heights, false, k, b));
  }
}
