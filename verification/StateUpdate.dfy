/**
 State diffs as objects: hashing, counting and merging.

 Models core/state_update.go, and the accumulation of a block's diff in
 builder/executor.go. The sponge is a function of what it absorbed.
 */
module StateUpdate {
  import opened FeltSort
  import opened StateDiffStream

  class Digest {
    var absorbed: seq<Felt>

    constructor ()
      ensures absorbed == []
    {
      absorbed := [];
    }

    method Update(x: Felt)
      modifies this
      ensures absorbed == old(absorbed) + [x]
    {
      absorbed := absorbed + [x];
    }
  }

  // ---------------------------------------------------------------- digests

  lemma PairsSnoc(keys: seq<Felt>, k: Felt, m: map<Felt, Felt>)
    ensures Pairs(keys + [k], m) == Pairs(keys, m) + [k, Lookup(m, k)]
  {
    assert (keys + [k])[..|keys|] == keys;
  }

  method PairsDigest(keys: seq<Felt>, m: map<Felt, Felt>, digest: Digest)
    modifies digest
    ensures digest.absorbed == old(digest.absorbed) + Pairs(keys, m)
  {
    hide Pairs;
    for i := 0 to |keys|
      invariant digest.absorbed == old(digest.absorbed) + Pairs(keys[..i], m)
    {
      PairsSnoc(keys[..i], keys[i], m);
      assert keys[..i + 1] == keys[..i] + [keys[i]];
      digest.Update(keys[i]);
      digest.Update(Lookup(m, keys[i]));
      assert digest.absorbed == old(digest.absorbed) + (Pairs(keys[..i], m) + [keys[i], Lookup(m, keys[i])]);
    }
    assert keys[..|keys|] == keys;
  }

  method CountedDigest(count: nat, keys: seq<Felt>, m: map<Felt, Felt>, digest: Digest)
    modifies digest
    ensures digest.absorbed == old(digest.absorbed) + ([count] + Pairs(keys, m))
  {
    hide Pairs;
    digest.Update(count);
    PairsDigest(keys, m, digest);
  }

  method UpdatedContractsDigest(deployed: map<Felt, Felt>, replaced: map<Felt, Felt>, digest: Digest)
    modifies digest
    ensures digest.absorbed == old(digest.absorbed) + UpdatedContracts(deployed, replaced)
  {
    hide Bag, Ascend, Pairs;
    var updated := deployed + replaced;
    var keys := SortedKeys(updated.Keys);
    CountedDigest(|deployed| + |replaced|, keys, updated, digest);
  }

  method DeclaredClassesDigest(declared: map<Felt, Felt>, migrated: map<Felt, Felt>, digest: Digest)
    modifies digest
    ensures digest.absorbed == old(digest.absorbed) + DeclaredClasses(declared, migrated)
  {
    hide Bag, Ascend, Pairs;
    var a := Collect(declared.Keys);
    var b := Collect(migrated.Keys);
    var keys := Sort(a + b);
    CountedDigest(|declared| + |migrated|, keys, migrated + declared, digest);
  }

  method StorageDiffDigest(storage: map<Felt, map<Felt, Felt>>, digest: Digest)
    modifies digest
    ensures digest.absorbed == old(digest.absorbed) + ([|storage|] + Contracts(Ascend(Bag(storage.Keys)), storage))
  {
    hide Bag, Ascend, Slots;
    digest.Update(|storage|);
    ghost var before := digest.absorbed;
    var addresses := SortedKeys(storage.Keys);
    assert Contracts(addresses[..0], storage) == [];
    hide Contracts;
    for i := 0 to |addresses|
      invariant digest.absorbed == before + Contracts(addresses[..i], storage)
    {
      var address := addresses[i];
      ContractsSnoc(addresses[..i], address, storage);
      assert addresses[..i + 1] == addresses[..i] + [address];
      ContractDigest(address, StorageOf(storage, address), digest);
    }
    assert addresses[..|addresses|] == addresses;
  }

  method ContractDigest(address: Felt, m: map<Felt, Felt>, digest: Digest)
    modifies digest
    ensures digest.absorbed == old(digest.absorbed) + ([address] + Slots(m))
  {
    hide Slots;
    digest.Update(address);
    SlotsDigest(m, digest);
  }

  lemma {:induction false} ContractsSnoc(addresses: seq<Felt>, address: Felt, storage: map<Felt, map<Felt, Felt>>)
    ensures Contracts(addresses + [address], storage) == Contracts(addresses, storage) + ([address] + Slots(StorageOf(storage, address)))
  {
    hide Slots;
    if addresses == [] {
      assert [address][1..] == [];
    } else {
      ContractsSnoc(addresses[1..], address, storage);
      assert (addresses + [address])[1..] == addresses[1..] + [address];
    }
  }

  /** A map's size and its entries: the slots of one contract, or the nonces. */
  method SlotsDigest(m: map<Felt, Felt>, digest: Digest)
    modifies digest
    ensures digest.absorbed == old(digest.absorbed) + Slots(m)
  {
    hide Bag, Ascend, Pairs;
    var keys := SortedKeys(m.Keys);
    CountedDigest(|m|, keys, m, digest);
  }

  // ---------------------------------------------------------------- counting

  ghost function SlotTotal(addresses: seq<Felt>, storage: map<Felt, map<Felt, Felt>>): nat {
    if addresses == [] then 0 else |StorageOf(storage, addresses[0])| + SlotTotal(addresses[1..], storage)
  }

  lemma {:induction false} SlotTotalAppend(a: seq<Felt>, b: seq<Felt>, storage: map<Felt, map<Felt, Felt>>)
    ensures SlotTotal(a + b, storage) == SlotTotal(a, storage) + SlotTotal(b, storage)
  {
    if a == [] {
      assert a + b == b;
    } else {
      SlotTotalAppend(a[1..], b, storage);
      assert (a + b)[1..] == a[1..] + b;
    }
  }

  /** The order in which contracts are counted does not matter. */
  lemma {:induction false} SlotTotalAnyOrder(a: seq<Felt>, b: seq<Felt>, storage: map<Felt, map<Felt, Felt>>)
    requires multiset(a) == multiset(b)
    ensures SlotTotal(a, storage) == SlotTotal(b, storage)
    decreases |a|
  {
    if a == [] {
      assert |multiset(b)| == |b|;
    } else {
      HeadTail(a);
      assert a[0] in multiset(b);
      var j := FindIn(a[0], b);
      RemoveOne(a, b, j);
      SlotTotalAnyOrder(a[1..], b[..j] + b[j + 1..], storage);
      SlotTotalAppend(b[..j], b[j + 1..], storage);
      SlotTotalAppend(b[..j], b[j..], storage);
      assert b == b[..j] + b[j..] && b[j..][0] == a[0] && b[j..][1..] == b[j + 1..];
    }
  }

  lemma FindIn(x: Felt, b: seq<Felt>) returns (j: nat)
    requires x in multiset(b)
    ensures j < |b| && b[j] == x
  {
    assert x in b;
    j :| 0 <= j < |b| && b[j] == x;
  }

  lemma RemoveOne(a: seq<Felt>, b: seq<Felt>, j: nat)
    requires a != [] && multiset(a) == multiset(b) && j < |b| && b[j] == a[0]
    ensures multiset(a[1..]) == multiset(b[..j] + b[j + 1..])
  {
    assert multiset(a[1..]) == multiset(a) - multiset{a[0]} by {
      assert a == [a[0]] + a[1..];
    }
    assert multiset(b[..j] + b[j + 1..]) == multiset(b) - multiset{b[j]} by {
      assert b == b[..j] + [b[j]] + b[j + 1..];
    }
  }

  /** The counts that the hash absorbs, but for the number of contracts with storage. */
  ghost function TotalCount(d: Diff): nat {
    (|d.deployed| + |d.replaced|) + (|d.declaredV1| + |d.migrated|) + |d.declaredV0|
    + SlotTotal(Ascend(Bag(d.storage.Keys)), d.storage) + |d.nonces|
  }

  lemma {:induction false} ContractsLength(addresses: seq<Felt>, storage: map<Felt, map<Felt, Felt>>)
    ensures |Contracts(addresses, storage)| == 2 * |addresses| + 2 * SlotTotal(addresses, storage)
  {
    hide Slots;
    if addresses != [] {
      SlotsLength(StorageOf(storage, addresses[0]));
      ContractsLength(addresses[1..], storage);
    }
  }

  lemma SlotsLength(m: map<Felt, Felt>)
    ensures |Slots(m)| == 1 + 2 * |m|
  {
    hide Bag, Ascend, Pairs;
    AscendOfSet(m.Keys);
  }

  /** The size of what is absorbed is a function of the diff's length, its deprecated classes and its contracts with storage. */
  lemma StreamLength(d: Diff)
    requires Disjoint(d)
    ensures |Stream(d)| + |d.declaredV0| == 8 + 2 * TotalCount(d) + 2 * |d.storage|
  {
    hide Bag, Ascend, Slots, UpdatedContracts, DeclaredClasses, Contracts, SlotTotal;
    UpdatedSection(d.deployed, d.replaced);
    UnionSize(d.deployed, d.replaced);
    SlotsLength(d.deployed + d.replaced);
    DeclaredSection(d.declaredV1, d.migrated);
    UnionSize(d.migrated, d.declaredV1);
    SlotsLength(d.migrated + d.declaredV1);
    AscendSorts(multiset(d.declaredV0));
    assert |multiset(Ascend(multiset(d.declaredV0)))| == |Ascend(multiset(d.declaredV0))|;
    AscendOfSet(d.storage.Keys);
    ContractsLength(Ascend(Bag(d.storage.Keys)), d.storage);
    SlotsLength(d.nonces);
  }

  // ---------------------------------------------------------------- merging

  function MergedStorage(s: map<Felt, map<Felt, Felt>>, t: map<Felt, map<Felt, Felt>>): map<Felt, map<Felt, Felt>> {
    map a | a in s.Keys + t.Keys :: StorageOf(s, a) + StorageOf(t, a)
  }

  function Merged(d: Diff, e: Diff): Diff {
    Diff(
      MergedStorage(d.storage, e.storage), d.nonces + e.nonces, d.deployed + e.deployed, d.declaredV0 + e.declaredV0,
      d.declaredV1 + e.declaredV1, d.replaced + e.replaced, d.migrated + e.migrated)
  }

  lemma MergedWithNothing(s: map<Felt, map<Felt, Felt>>)
    ensures MergedStorage(s, map[]) == s
  {
    forall a | a in s ensures MergedStorage(s, map[])[a] == s[a] {
      assert s[a] + map[] == s[a];
    }
  }

  lemma MergedAt(s: map<Felt, map<Felt, Felt>>, t: map<Felt, map<Felt, Felt>>, x: Felt)
    ensures x in MergedStorage(s, t) <==> x in s || x in t
    ensures StorageOf(MergedStorage(s, t), x) == StorageOf(s, x) + StorageOf(t, x)
  {
    assert x !in s && x !in t ==> StorageOf(s, x) + StorageOf(t, x) == map[];
  }

  /** One more contract of the incoming storage. */
  lemma MergedOneMore(s: map<Felt, map<Felt, Felt>>, t: map<Felt, map<Felt, Felt>>, remaining: set<Felt>, a: Felt)
    requires a in remaining && a in t
    ensures MergedStorage(s, t - (remaining - {a})) ==
              MergedStorage(s, t - remaining)[a := StorageOf(MergedStorage(s, t - remaining), a) + t[a]]
  {
    hide MergedStorage;
    var u, u' := t - remaining, t - (remaining - {a});
    var m, m' := MergedStorage(s, u), MergedStorage(s, u');
    var expected := m[a := StorageOf(m, a) + t[a]];
    forall x ensures (x in m' <==> x in expected) && StorageOf(m', x) == StorageOf(expected, x) {
      MergedAt(s, u, x);
      MergedAt(s, u', x);
      assert x == a ==> StorageOf(s, x) + map[] == StorageOf(s, x);
      assert x != a ==> StorageOf(u, x) == StorageOf(u', x);
    }
    SameEverywhere(m', expected);
  }

  lemma SameEverywhere(m: map<Felt, map<Felt, Felt>>, n: map<Felt, map<Felt, Felt>>)
    requires forall x :: (x in m <==> x in n) && StorageOf(m, x) == StorageOf(n, x)
    ensures m == n
  {
    forall x | x in m ensures m[x] == n[x] {
      assert StorageOf(m, x) == StorageOf(n, x);
    }
  }

  const EmptyDiff := Diff(map[], map[], map[], [], map[], map[], map[])

  lemma Regroup(t: seq<Felt>, u: seq<Felt>, d: seq<Felt>, v: seq<Felt>, s: seq<Felt>, n: seq<Felt>)
    ensures [] + t + u + d + v + [1] + [0] + s + n == t + (u + (d + (v + ([1, 0] + (s + n)))))
  {
  }

  /** Sorting the deprecated classes does not change what is absorbed. */
  lemma SortedAlready(d: Diff)
    ensures Stream(d.(declaredV0 := Ascend(multiset(d.declaredV0)))) == Stream(d)
    ensures multiset(Ascend(multiset(d.declaredV0))) == multiset(d.declaredV0)
  {
    hide Bag, Ascend, UpdatedContracts, DeclaredClasses, Contracts, Slots;
    var xs := Ascend(multiset(d.declaredV0));
    AscendSorts(multiset(d.declaredV0));
    assert |xs| == |multiset(xs)| == |d.declaredV0|;
  }

  class StateDiff {
    var storage: map<Felt, map<Felt, Felt>>
    var nonces: map<Felt, Felt>
    var deployed: map<Felt, Felt>
    var declaredV0: seq<Felt>
    var declaredV1: map<Felt, Felt>
    var replaced: map<Felt, Felt>
    var migrated: map<Felt, Felt>

    ghost function Value(): Diff
      reads this
    {
      Diff(storage, nonces, deployed, declaredV0, declaredV1, replaced, migrated)
    }

    constructor ()
      ensures Value() == EmptyDiff
    {
      storage, nonces, deployed, declaredV0, declaredV1, replaced, migrated := map[], map[], map[], [], map[], map[], map[];
    }

    /** The hash of the stream. The deprecated classes are sorted in place, so hashing again absorbs the same. */
    method Hash(finish: seq<Felt> -> Felt) returns (h: Felt)
      modifies this`declaredV0
      ensures h == finish(Stream(old(Value()))) == finish(Stream(Value()))
      ensures Value() == old(Value()).(declaredV0 := Ascend(multiset(old(declaredV0))))
      ensures multiset(declaredV0) == multiset(old(declaredV0))
    {
      hide Bag, Ascend, UpdatedContracts, DeclaredClasses, DeprecatedClasses, Slots, Contracts;
      ghost var d := Value();
      var digest := new Digest();
      digest.Update(STARKNET_STATE_DIFF0);
      UpdatedContractsDigest(deployed, replaced, digest);
      DeclaredClassesDigest(declaredV1, migrated, digest);
      DeprecatedDeclaredClassesDigest(digest);
      digest.Update(1);
      digest.Update(0);
      StorageDiffDigest(storage, digest);
      SlotsDigest(nonces, digest);
      Regroup(
        [STARKNET_STATE_DIFF0], UpdatedContracts(deployed, replaced), DeclaredClasses(declaredV1, migrated), DeprecatedClasses(d),
        StorageDiffs(d), Slots(nonces));
      SortedAlready(d);
      h := finish(digest.absorbed);
    }

    method DeprecatedDeclaredClassesDigest(digest: Digest)
      modifies this`declaredV0, digest
      ensures declaredV0 == Ascend(multiset(old(declaredV0))) && multiset(declaredV0) == multiset(old(declaredV0))
      ensures digest.absorbed == old(digest.absorbed) + DeprecatedClasses(old(Value()))
    {
      hide Ascend;
      digest.Update(|declaredV0|);
      ghost var before := digest.absorbed;
      AscendSorts(multiset(declaredV0));
      var sorted := Sort(declaredV0);
      declaredV0 := sorted;
      for i := 0 to |sorted|
        invariant declaredV0 == sorted && digest.absorbed == before + sorted[..i]
      {
        digest.Update(sorted[i]);
      }
      assert sorted[..|sorted|] == sorted;
    }

    /** The sum of the counts. */
    method Length() returns (length: nat)
      ensures length == TotalCount(Value())
    {
      hide Bag, Ascend;
      length := 0;
      var addresses := Collect(storage.Keys);
      for i := 0 to |addresses|
        invariant length == SlotTotal(addresses[..i], storage)
      {
        SlotTotalAppend(addresses[..i], [addresses[i]], storage);
        assert addresses[..i + 1] == addresses[..i] + [addresses[i]];
        length := length + |StorageOf(storage, addresses[i])|;
      }
      assert addresses[..|addresses|] == addresses;
      AscendSorts(Bag(storage.Keys));
      SlotTotalAnyOrder(addresses, Ascend(Bag(storage.Keys)), storage);
      length := length + |nonces| + |deployed| + |declaredV0| + |declaredV1| + |replaced| + |migrated|;
    }

    method Merge(incoming: Diff)
      modifies this
      ensures Value() == Merged(old(Value()), incoming)
    {
      hide MergedStorage;
      var remaining := incoming.storage.Keys;
      MergedWithNothing(storage);
      assert incoming.storage - remaining == map[];
      while remaining != {}
        invariant remaining <= incoming.storage.Keys
        invariant storage == MergedStorage(old(storage), incoming.storage - remaining)
        invariant Value() == old(Value()).(storage := storage)
        decreases remaining
      {
        var a :| a in remaining;
        MergedOneMore(old(storage), incoming.storage, remaining, a);
        assert map[] + incoming.storage[a] == incoming.storage[a];
        storage := storage[a := if a in storage then storage[a] + incoming.storage[a] else incoming.storage[a]];
        remaining := remaining - {a};
      }
      assert incoming.storage - {} == incoming.storage;
      nonces := nonces + incoming.nonces;
      deployed := deployed + incoming.deployed;
      declaredV1 := declaredV1 + incoming.declaredV1;
      replaced := replaced + incoming.replaced;
      migrated := migrated + incoming.migrated;
      declaredV0 := declaredV0 + incoming.declaredV0;
    }
  }

  // ---------------------------------------------------------------- merging is sequential composition

  /** What a diff is applied to. */
  datatype State = State(
    classes: map<Felt, Felt>,
    storage: map<Felt, map<Felt, Felt>>,
    nonces: map<Felt, Felt>,
    compiled: map<Felt, Felt>,
    deprecated: set<Felt>)

  function Apply(d: Diff, st: State): State {
    State(
      st.classes + d.deployed + d.replaced, MergedStorage(st.storage, d.storage), st.nonces + d.nonces,
      st.compiled + d.declaredV1 + d.migrated, st.deprecated + set c | c in d.declaredV0)
  }

  /** A contract is deployed once and replaced only after; a class is declared once and migrated only after. */
  ghost predicate Applies(d: Diff, st: State) {
    && d.deployed.Keys !! st.classes.Keys && d.replaced.Keys <= st.classes.Keys + d.deployed.Keys
    && d.declaredV1.Keys !! st.compiled.Keys && d.migrated.Keys <= st.compiled.Keys + d.declaredV1.Keys
  }

  lemma MergedStorageAssociative(s: map<Felt, map<Felt, Felt>>, t: map<Felt, map<Felt, Felt>>, u: map<Felt, map<Felt, Felt>>)
    ensures MergedStorage(MergedStorage(s, t), u) == MergedStorage(s, MergedStorage(t, u))
  {
    hide MergedStorage;
    var m, n := MergedStorage(MergedStorage(s, t), u), MergedStorage(s, MergedStorage(t, u));
    forall x ensures (x in m <==> x in n) && StorageOf(m, x) == StorageOf(n, x) {
      MergedAt(s, t, x);
      MergedAt(t, u, x);
      MergedAt(MergedStorage(s, t), u, x);
      MergedAt(s, MergedStorage(t, u), x);
      UnionAssociative(StorageOf(s, x), StorageOf(t, x), StorageOf(u, x));
    }
    SameEverywhere(m, n);
  }

  lemma UnionAssociative(a: map<Felt, Felt>, b: map<Felt, Felt>, c: map<Felt, Felt>)
    ensures a + b + c == a + (b + c)
  {
  }

  /** Merging is associative. */
  lemma MergedAssociative(d: Diff, e: Diff, f: Diff)
    ensures Merged(Merged(d, e), f) == Merged(d, Merged(e, f))
  {
    hide MergedStorage;
    MergedStorageAssociative(d.storage, e.storage, f.storage);
    UnionAssociative(d.nonces, e.nonces, f.nonces);
    UnionAssociative(d.deployed, e.deployed, f.deployed);
    UnionAssociative(d.declaredV1, e.declaredV1, f.declaredV1);
    UnionAssociative(d.replaced, e.replaced, f.replaced);
    UnionAssociative(d.migrated, e.migrated, f.migrated);
    assert d.declaredV0 + e.declaredV0 + f.declaredV0 == d.declaredV0 + (e.declaredV0 + f.declaredV0);
  }

  /** Where the second diff creates what the first one changed, and does not change it again, they must agree. */
  ghost predicate Compatible(changed: map<Felt, Felt>, created: map<Felt, Felt>, changedAgain: map<Felt, Felt>) {
    forall k :: k in created && k in changed && k !in changedAgain ==> created[k] == changed[k]
  }

  /** Creations first, changes over them: in one go or in two. */
  lemma LayersIff(m: map<Felt, Felt>, created: map<Felt, Felt>, changed: map<Felt, Felt>, created': map<Felt, Felt>, changed': map<Felt, Felt>)
    ensures m + (created + created') + (changed + changed') == m + created + changed + created' + changed' <==>
            Compatible(changed, created', changed')
  {
    var once, twice := m + (created + created') + (changed + changed'), m + created + changed + created' + changed';
    if Compatible(changed, created', changed') {
      assert once == twice;
    } else {
      var k :| k in created' && k in changed && k !in changed' && created'[k] != changed[k];
      assert once[k] != twice[k];
    }
  }

  /** Applying the merged diff equals applying the parts in order, exactly if the parts are compatible. */
  lemma MergedIsSequentialIff(d: Diff, e: Diff, st: State)
    ensures Apply(Merged(d, e), st) == Apply(e, Apply(d, st)) <==>
            Compatible(d.replaced, e.deployed, e.replaced) && Compatible(d.migrated, e.declaredV1, e.migrated)
  {
    hide MergedStorage, Compatible;
    LayersIff(st.classes, d.deployed, d.replaced, e.deployed, e.replaced);
    LayersIff(st.compiled, d.declaredV1, d.migrated, e.declaredV1, e.migrated);
    MergedStorageAssociative(st.storage, d.storage, e.storage);
    UnionAssociative(st.nonces, d.nonces, e.nonces);
    assert (set c | c in d.declaredV0 + e.declaredV0) == (set c | c in d.declaredV0) + set c | c in e.declaredV0;
  }

  /** A contract replaced by one transaction and deployed with another class by the next ends with the first class when merged. */
  lemma ReplaceThenDeploy(d: Diff, e: Diff, st: State)
    requires d == Diff(map[], map[], map[], [], map[], map[1 := 2], map[])
    requires e == Diff(map[], map[], map[1 := 3], [], map[], map[], map[])
    ensures Apply(Merged(d, e), st).classes[1] == 2 && Apply(e, Apply(d, st)).classes[1] == 3
  {
  }

  /** Under the deploy and declare guarantees the parts are always compatible, and the merged diff meets them too. */
  lemma MergedIsSequential(d: Diff, e: Diff, st: State)
    requires Applies(d, st) && Applies(e, Apply(d, st))
    ensures Applies(Merged(d, e), st) && Apply(Merged(d, e), st) == Apply(e, Apply(d, st))
  {
    hide MergedStorage, Compatible;
    LayersApply(st.classes, d.deployed, d.replaced, e.deployed, e.replaced);
    LayersApply(st.compiled, d.declaredV1, d.migrated, e.declaredV1, e.migrated);
    MergedIsSequentialIff(d, e, st);
  }

  lemma LayersApply(m: map<Felt, Felt>, created: map<Felt, Felt>, changed: map<Felt, Felt>, created': map<Felt, Felt>, changed': map<Felt, Felt>)
    requires created.Keys !! m.Keys && changed.Keys <= m.Keys + created.Keys
    requires created'.Keys !! (m + created + changed).Keys && changed'.Keys <= (m + created + changed).Keys + created'.Keys
    ensures Compatible(changed, created', changed')
    ensures (created + created').Keys !! m.Keys && (changed + changed').Keys <= m.Keys + (created + created').Keys
  {
    assert (m + created + changed).Keys == m.Keys + created.Keys + changed.Keys;
  }

  // ---------------------------------------------------------------- accumulation

  ghost function MergedAll(d: Diff, diffs: seq<Diff>): Diff {
    if diffs == [] then d else Merged(MergedAll(d, diffs[..|diffs| - 1]), diffs[|diffs| - 1])
  }

  /** The diffs of a batch of transactions are merged into the block's. */
  method UpdatePreconfirmedBlock(total: StateDiff, diffs: seq<Diff>)
    modifies total
    ensures total.Value() == MergedAll(old(total.Value()), diffs)
  {
    for i := 0 to |diffs|
      invariant total.Value() == MergedAll(old(total.Value()), diffs[..i])
    {
      total.Merge(diffs[i]);
      assert diffs[..i + 1][..i] == diffs[..i];
    }
    assert diffs[..|diffs|] == diffs;
  }

  ghost function Flat(batches: seq<seq<Diff>>): seq<Diff> {
    if batches == [] then [] else Flat(batches[..|batches| - 1]) + batches[|batches| - 1]
  }

  lemma {:induction false} MergedAllAppend(d: Diff, a: seq<Diff>, b: seq<Diff>)
    ensures MergedAll(d, a + b) == MergedAll(MergedAll(d, a), b)
    decreases |b|
  {
    if b == [] {
      assert a + b == a;
    } else {
      MergedAllAppend(d, a, b[..|b| - 1]);
      assert (a + b)[..|a + b| - 1] == a + b[..|b| - 1];
    }
  }

  /** However the transactions are split into batches, the block's diff is the same. */
  method AccumulateBatches(total: StateDiff, batches: seq<seq<Diff>>)
    modifies total
    ensures total.Value() == MergedAll(old(total.Value()), Flat(batches))
  {
    for i := 0 to |batches|
      invariant total.Value() == MergedAll(old(total.Value()), Flat(batches[..i]))
    {
      UpdatePreconfirmedBlock(total, batches[i]);
      assert batches[..i + 1][..i] == batches[..i];
      MergedAllAppend(old(total.Value()), Flat(batches[..i]), batches[i]);
    }
    assert batches[..|batches|] == batches;
  }

  /** A batch may as well be merged by itself first. */
  lemma {:induction false} MergedFirst(d: Diff, diffs: seq<Diff>)
    requires diffs != []
    ensures MergedAll(d, diffs) == Merged(d, MergedAll(diffs[0], diffs[1..]))
    decreases |diffs|
  {
    hide Merged;
    var n := |diffs| - 1;
    if n == 0 {
      assert diffs[..0] == [] && diffs[1..] == [];
    } else {
      MergedFirst(d, diffs[..n]);
      assert diffs[..n][1..] == diffs[1..][..n - 1] && diffs[..n][0] == diffs[0];
      MergedAssociative(d, MergedAll(diffs[0], diffs[1..][..n - 1]), diffs[n]);
    }
  }

  /** Applying diff after diff. */
  ghost function ApplyAll(diffs: seq<Diff>, st: State): State {
    if diffs == [] then st else Apply(diffs[|diffs| - 1], ApplyAll(diffs[..|diffs| - 1], st))
  }

  ghost predicate AllApply(diffs: seq<Diff>, st: State) {
    forall i :: 0 <= i < |diffs| ==> Applies(diffs[i], ApplyAll(diffs[..i], st))
  }

  /** The accumulated diff of a block takes the state where its transactions took it one by one. */
  lemma {:induction false} AccumulatedIsSequential(diffs: seq<Diff>, st: State)
    requires AllApply(diffs, st)
    ensures Applies(MergedAll(EmptyDiff, diffs), st) && Apply(MergedAll(EmptyDiff, diffs), st) == ApplyAll(diffs, st)
    decreases |diffs|
  {
    hide Merged, Apply, Applies;
    if diffs == [] {
      EmptyApplies(st);
    } else {
      var n := |diffs| - 1;
      assert AllApply(diffs[..n], st) by {
        forall i | 0 <= i < n ensures Applies(diffs[..n][i], ApplyAll(diffs[..n][..i], st)) {
          assert diffs[..n][..i] == diffs[..i];
        }
      }
      AccumulatedIsSequential(diffs[..n], st);
      MergedIsSequential(MergedAll(EmptyDiff, diffs[..n]), diffs[n], st);
    }
  }

  lemma EmptyApplies(st: State)
    ensures Applies(EmptyDiff, st) && Apply(EmptyDiff, st) == st
  {
    MergedWithNothing(st.storage);
  }

  // ---------------------------------------------------------------- merging and the hash

  /** The merged diff keeps the guarantee that the hash relies on exactly if no contract or class crosses over. */
  lemma MergedDisjointIff(d: Diff, e: Diff)
    ensures Disjoint(Merged(d, e)) <==>
            && Disjoint(d) && Disjoint(e)
            && d.deployed.Keys !! e.replaced.Keys && e.deployed.Keys !! d.replaced.Keys
            && d.declaredV1.Keys !! e.migrated.Keys && e.declaredV1.Keys !! d.migrated.Keys
  {
    hide MergedStorage;
    UnionsDisjoint(d.deployed, e.deployed, d.replaced, e.replaced);
    UnionsDisjoint(d.declaredV1, e.declaredV1, d.migrated, e.migrated);
  }

  /** Deploying and replacing a contract in one block meets every guarantee transaction by transaction, and the merged diff overlaps. */
  lemma DeployThenReplace(d: Diff, e: Diff, st: State)
    requires d == Diff(map[], map[], map[1 := 2], [], map[], map[], map[])
    requires e == Diff(map[], map[], map[], [], map[], map[1 := 3], map[])
    requires 1 !in st.classes
    ensures Disjoint(d) && Disjoint(e) && Applies(d, st) && Applies(e, Apply(d, st))
    ensures !Disjoint(Merged(d, e)) && Apply(Merged(d, e), st).classes[1] == 3
  {
    assert 1 in Merged(d, e).deployed && 1 in Merged(d, e).replaced;
  }

  lemma UnionsDisjoint(a: map<Felt, Felt>, b: map<Felt, Felt>, c: map<Felt, Felt>, d: map<Felt, Felt>)
    ensures (a + b).Keys !! (c + d).Keys <==> a.Keys !! c.Keys && a.Keys !! d.Keys && b.Keys !! c.Keys && b.Keys !! d.Keys
  {
    assert (a + b).Keys == a.Keys + b.Keys && (c + d).Keys == c.Keys + d.Keys;
  }
}
