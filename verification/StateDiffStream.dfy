/**
 The sequence of field elements that the hash of a state diff absorbs, and what it
 determines. A 64-bit count is its own field element.

 Specifies the hash of core/state_update.go.
 */
module StateDiffStream {
  import opened FeltSort

  /** "STARKNET_STATE_DIFF0" as a number. */
  const STARKNET_STATE_DIFF0: Felt := 0x535441524b4e45545f53544154455f4449464630

  datatype Diff = Diff(
    storage: map<Felt, map<Felt, Felt>>,
    nonces: map<Felt, Felt>,
    deployed: map<Felt, Felt>,
    declaredV0: seq<Felt>,
    declaredV1: map<Felt, Felt>,
    replaced: map<Felt, Felt>,
    migrated: map<Felt, Felt>)

  /** The guarantee of the sequencer for one block. */
  ghost predicate Disjoint(d: Diff) {
    d.deployed.Keys !! d.replaced.Keys && d.declaredV1.Keys !! d.migrated.Keys
  }

  // ---------------------------------------------------------------- what the hash absorbs

  function Lookup(m: map<Felt, Felt>, k: Felt): Felt {
    if k in m then m[k] else 0
  }

  ghost function Pairs(keys: seq<Felt>, m: map<Felt, Felt>): (r: seq<Felt>)
    ensures |r| == 2 * |keys|
    ensures forall i :: 0 <= i < |keys| ==> r[2 * i] == keys[i] && r[2 * i + 1] == Lookup(m, keys[i])
  {
    if keys == [] then []
    else
      var last := keys[|keys| - 1];
      Pairs(keys[..|keys| - 1], m) + [last, Lookup(m, last)]
  }

  /** A count, then the entries of the keys in ascending order. */
  ghost function CountedPairs(count: nat, keys: multiset<Felt>, m: map<Felt, Felt>): seq<Felt> {
    [count] + Pairs(Ascend(keys), m)
  }

  /** Deployments and replacements, as one map. */
  ghost function UpdatedContracts(deployed: map<Felt, Felt>, replaced: map<Felt, Felt>): seq<Felt> {
    CountedPairs(|deployed| + |replaced|, Bag((deployed + replaced).Keys), deployed + replaced)
  }

  /** Declarations and migrations: a class in both is listed twice, with its declared hash. */
  ghost function DeclaredClasses(declared: map<Felt, Felt>, migrated: map<Felt, Felt>): seq<Felt> {
    CountedPairs(|declared| + |migrated|, Bag(declared.Keys) + Bag(migrated.Keys), migrated + declared)
  }

  ghost function DeprecatedClasses(d: Diff): seq<Felt> {
    [|d.declaredV0|] + Ascend(multiset(d.declaredV0))
  }

  function StorageOf(storage: map<Felt, map<Felt, Felt>>, address: Felt): map<Felt, Felt> {
    if address in storage then storage[address] else map[]
  }

  ghost function Slots(m: map<Felt, Felt>): seq<Felt> {
    CountedPairs(|m|, Bag(m.Keys), m)
  }

  ghost function Contracts(addresses: seq<Felt>, storage: map<Felt, map<Felt, Felt>>): seq<Felt> {
    if addresses == [] then []
    else [addresses[0]] + Slots(StorageOf(storage, addresses[0])) + Contracts(addresses[1..], storage)
  }

  ghost function StorageDiffs(d: Diff): seq<Felt> {
    [|d.storage|] + Contracts(Ascend(Bag(d.storage.Keys)), d.storage)
  }

  ghost function Stream(d: Diff): seq<Felt> {
    [STARKNET_STATE_DIFF0] + (UpdatedContracts(d.deployed, d.replaced) + (DeclaredClasses(d.declaredV1, d.migrated) + (DeprecatedClasses(d)
    + ([1, 0] + (StorageDiffs(d) + Slots(d.nonces))))))
  }

  // ---------------------------------------------------------------- unique decoding

  lemma Cut(x: seq<Felt>, y: seq<Felt>, rest: seq<Felt>, rest': seq<Felt>)
    requires x + rest == y + rest' && |x| == |y|
    ensures x == y && rest == rest'
  {
    assert x == (x + rest)[..|x|] && y == (y + rest')[..|y|];
    assert rest == (x + rest)[|x|..] && rest' == (y + rest')[|y|..];
  }

  /** Pairs give back the map, if the keys are its keys. */
  lemma PairsDetermine(keys: seq<Felt>, keys': seq<Felt>, m: map<Felt, Felt>, m': map<Felt, Felt>)
    requires Pairs(keys, m) == Pairs(keys', m')
    requires (forall k :: k in keys <==> k in m) && (forall k :: k in keys' <==> k in m')
    ensures m == m'
  {
    hide Pairs;
    assert |keys| == |keys'|;
    forall i | 0 <= i < |keys| ensures keys[i] == keys'[i] && Lookup(m, keys[i]) == Lookup(m', keys[i]) {
      assert Pairs(keys, m)[2 * i] == Pairs(keys', m')[2 * i];
      assert Pairs(keys, m)[2 * i + 1] == Pairs(keys', m')[2 * i + 1];
    }
    assert keys == keys';
    forall k | k in m ensures m[k] == m'[k] {
      assert k in keys;
    }
  }

  /** A counted map ends where the next section starts. */
  lemma SlotsDetermine(m: map<Felt, Felt>, m': map<Felt, Felt>, rest: seq<Felt>, rest': seq<Felt>)
    requires Slots(m) + rest == Slots(m') + rest'
    ensures m == m' && rest == rest'
  {
    hide Bag, Ascend, Pairs;
    AscendOfSet(m.Keys);
    AscendOfSet(m'.Keys);
    var keys, keys' := Ascend(Bag(m.Keys)), Ascend(Bag(m'.Keys));
    CountedCut(|m|, |m'|, Pairs(keys, m), Pairs(keys', m'), rest, rest');
    Cut(Pairs(keys, m), Pairs(keys', m'), rest, rest');
    PairsDetermine(keys, keys', m, m');
  }

  lemma {:induction false} ContractsDetermine(
    a: seq<Felt>, a': seq<Felt>, s: map<Felt, map<Felt, Felt>>, s': map<Felt, map<Felt, Felt>>, rest: seq<Felt>, rest': seq<Felt>)
    requires |a| == |a'| && Contracts(a, s) + rest == Contracts(a', s') + rest'
    ensures a == a' && (forall i :: 0 <= i < |a| ==> StorageOf(s, a[i]) == StorageOf(s', a[i])) && rest == rest'
    decreases |a|
  {
    hide Slots;
    if a == [] {
      assert Contracts(a, s) + rest == rest && Contracts(a', s') + rest' == rest';
    } else {
      var x, x' := Contracts(a[1..], s) + rest, Contracts(a'[1..], s') + rest';
      var m, m' := StorageOf(s, a[0]), StorageOf(s', a'[0]);
      assert Contracts(a, s) + rest == [a[0]] + (Slots(m) + x);
      assert Contracts(a', s') + rest' == [a'[0]] + (Slots(m') + x');
      Cut([a[0]], [a'[0]], Slots(m) + x, Slots(m') + x');
      SlotsDetermine(m, m', x, x');
      ContractsDetermine(a[1..], a'[1..], s, s', rest, rest');
      assert a == [a[0]] + a[1..] && a' == [a'[0]] + a'[1..];
    }
  }

  lemma StorageDetermines(d: Diff, d': Diff, rest: seq<Felt>, rest': seq<Felt>)
    requires StorageDiffs(d) + rest == StorageDiffs(d') + rest'
    ensures d.storage == d'.storage && rest == rest'
  {
    hide Bag, Contracts, Ascend;
    AscendOfSet(d.storage.Keys);
    AscendOfSet(d'.storage.Keys);
    var a, a' := Ascend(Bag(d.storage.Keys)), Ascend(Bag(d'.storage.Keys));
    CountedCut(|d.storage|, |d'.storage|, Contracts(a, d.storage), Contracts(a', d'.storage), rest, rest');
    ContractsDetermine(a, a', d.storage, d'.storage, rest, rest');
    SameStorage(a, d.storage, d'.storage);
  }

  lemma CountedCut(n: nat, n': nat, x: seq<Felt>, x': seq<Felt>, rest: seq<Felt>, rest': seq<Felt>)
    requires [n] + x + rest == [n'] + x' + rest'
    ensures n == n' && x + rest == x' + rest'
  {
    assert [n] + x + rest == [n] + (x + rest) && [n'] + x' + rest' == [n'] + (x' + rest');
    Cut([n], [n'], x + rest, x' + rest');
  }

  lemma SameStorage(a: seq<Felt>, s: map<Felt, map<Felt, Felt>>, s': map<Felt, map<Felt, Felt>>)
    requires forall k :: k in a <==> k in s
    requires forall k :: k in a <==> k in s'
    requires forall i :: 0 <= i < |a| ==> StorageOf(s, a[i]) == StorageOf(s', a[i])
    ensures s == s'
  {
    forall k | k in s ensures k in s' && s[k] == s'[k] {
      assert k in a;
    }
  }

  lemma UnionSize(m: map<Felt, Felt>, m': map<Felt, Felt>)
    requires m.Keys !! m'.Keys
    ensures |m + m'| == |m| + |m'| && (m + m').Keys == m.Keys + m'.Keys
  {
    assert (m + m').Keys == m.Keys + m'.Keys;
    assert |m.Keys + m'.Keys| == |m.Keys| + |m'.Keys|;
  }

  /** Under the sequencer's guarantee the first two sections are counted maps. */
  lemma UpdatedSection(deployed: map<Felt, Felt>, replaced: map<Felt, Felt>)
    requires deployed.Keys !! replaced.Keys
    ensures UpdatedContracts(deployed, replaced) == Slots(deployed + replaced)
  {
    hide CountedPairs;
    UnionSize(deployed, replaced);
  }

  lemma DeclaredSection(declared: map<Felt, Felt>, migrated: map<Felt, Felt>)
    requires declared.Keys !! migrated.Keys
    ensures DeclaredClasses(declared, migrated) == Slots(migrated + declared)
  {
    hide CountedPairs, Bag;
    UnionSize(migrated, declared);
    BagOfDisjoint(declared.Keys, migrated.Keys);
  }

  lemma DeprecatedDetermine(d: Diff, d': Diff, rest: seq<Felt>, rest': seq<Felt>)
    requires DeprecatedClasses(d) + rest == DeprecatedClasses(d') + rest'
    ensures multiset(d.declaredV0) == multiset(d'.declaredV0) && rest == rest'
  {
    hide Ascend;
    var x, x' := Ascend(multiset(d.declaredV0)), Ascend(multiset(d'.declaredV0));
    AscendSorts(multiset(d.declaredV0));
    AscendSorts(multiset(d'.declaredV0));
    assert |x| == |multiset(x)| == |d.declaredV0| && |x'| == |multiset(x')| == |d'.declaredV0|;
    CountedCut(|d.declaredV0|, |d'.declaredV0|, x, x', rest, rest');
    Cut(x, x', rest, rest');
  }

  /**
   What the hash absorbs determines the updated contracts, the declared or migrated
   classes, the multiset of deprecated classes, the storage diffs and the nonces.
   */
  lemma StreamDetermines(d: Diff, d': Diff)
    requires Disjoint(d) && Disjoint(d') && Stream(d) == Stream(d')
    ensures d.deployed + d.replaced == d'.deployed + d'.replaced
    ensures d.migrated + d.declaredV1 == d'.migrated + d'.declaredV1
    ensures multiset(d.declaredV0) == multiset(d'.declaredV0)
    ensures d.storage == d'.storage && d.nonces == d'.nonces
  {
    hide Slots, DeprecatedClasses, StorageDiffs, UpdatedContracts, DeclaredClasses;
    UpdatedSection(d.deployed, d.replaced);
    UpdatedSection(d'.deployed, d'.replaced);
    DeclaredSection(d.declaredV1, d.migrated);
    DeclaredSection(d'.declaredV1, d'.migrated);
    var r5, r5' := StorageDiffs(d) + Slots(d.nonces), StorageDiffs(d') + Slots(d'.nonces);
    var r4, r4' := [1, 0] + r5, [1, 0] + r5';
    var r3, r3' := DeprecatedClasses(d) + r4, DeprecatedClasses(d') + r4';
    var r2, r2' := DeclaredClasses(d.declaredV1, d.migrated) + r3, DeclaredClasses(d'.declaredV1, d'.migrated) + r3';
    var r1, r1' := UpdatedContracts(d.deployed, d.replaced) + r2, UpdatedContracts(d'.deployed, d'.replaced) + r2';
    Cut([STARKNET_STATE_DIFF0], [STARKNET_STATE_DIFF0], r1, r1');
    SlotsDetermine(d.deployed + d.replaced, d'.deployed + d'.replaced, r2, r2');
    SlotsDetermine(d.migrated + d.declaredV1, d'.migrated + d'.declaredV1, r3, r3');
    DeprecatedDetermine(d, d', r4, r4');
    Cut([1, 0], [1, 0], r5, r5');
    StorageDetermines(d, d', Slots(d.nonces), Slots(d'.nonces));
    assert Slots(d.nonces) + [] == Slots(d.nonces) && Slots(d'.nonces) + [] == Slots(d'.nonces);
    SlotsDetermine(d.nonces, d'.nonces, [], []);
  }

  // ---------------------------------------------------------------- the format, read from left to right

  /** What a reader got, and what it has left to read. */
  datatype Read<+T> = Fail | Got(value: T, rest: seq<Felt>) {
    predicate IsFailure() { Fail? }
    function PropagateFailure<U>(): Read<U> requires Fail? { Fail }
    function Extract(): Read<T> requires Got? { this }
  }

  /** A count, then as many keys with values. */
  function ReadMap(s: seq<Felt>): Read<seq<(Felt, Felt)>> {
    if s == [] || |s| < 1 + 2 * s[0] then Fail
    else Got(seq(s[0], i requires 0 <= i < s[0] => (s[1 + 2 * i], s[2 + 2 * i])), s[1 + 2 * s[0]..])
  }

  /** A count, then as many elements. */
  function ReadList(s: seq<Felt>): Read<seq<Felt>> {
    if s == [] || |s| < 1 + s[0] then Fail else Got(s[1..1 + s[0]], s[1 + s[0]..])
  }

  /** That many addresses, each with a counted map. */
  function ReadContracts(s: seq<Felt>, count: nat): Read<seq<(Felt, seq<(Felt, Felt)>)>>
    decreases count
  {
    if count == 0 then Got([], s)
    else if s == [] then Fail
    else
      var slots :- ReadMap(s[1..]);
      var others :- ReadContracts(slots.rest, count - 1);
      Got([(s[0], slots.value)] + others.value, others.rest)
  }

  datatype Sections = Sections(
    updated: seq<(Felt, Felt)>,
    declared: seq<(Felt, Felt)>,
    deprecated: seq<Felt>,
    storage: seq<(Felt, seq<(Felt, Felt)>)>,
    nonces: seq<(Felt, Felt)>)

  /** The tag, updated contracts, declared classes, deprecated classes, 1, 0, storage diffs and nonces. */
  function ReadStream(s: seq<Felt>): Read<Sections> {
    if s == [] || s[0] != STARKNET_STATE_DIFF0 then Fail
    else
      var updated :- ReadMap(s[1..]);
      var declared :- ReadMap(updated.rest);
      var deprecated :- ReadList(declared.rest);
      var t := deprecated.rest;
      if |t| < 3 || t[0] != 1 || t[1] != 0 then Fail
      else
        var storage :- ReadContracts(t[3..], t[2]);
        var nonces :- ReadMap(storage.rest);
        Got(Sections(updated.value, declared.value, deprecated.value, storage.value, nonces.value), nonces.rest)
  }

  /** The entries of the map, by ascending key. */
  ghost predicate IsListOf(pairs: seq<(Felt, Felt)>, m: map<Felt, Felt>) {
    && (forall i, j :: 0 <= i < j < |pairs| ==> pairs[i].0 < pairs[j].0)
    && (forall i :: 0 <= i < |pairs| ==> pairs[i].0 in m && m[pairs[i].0] == pairs[i].1)
    && (forall k :: k in m ==> exists i :: 0 <= i < |pairs| && pairs[i].0 == k)
  }

  ghost predicate IsStorageOf(list: seq<(Felt, seq<(Felt, Felt)>)>, storage: map<Felt, map<Felt, Felt>>) {
    && (forall i, j :: 0 <= i < j < |list| ==> list[i].0 < list[j].0)
    && (forall i :: 0 <= i < |list| ==> list[i].0 in storage && IsListOf(list[i].1, storage[list[i].0]))
    && (forall a :: a in storage ==> exists i :: 0 <= i < |list| && list[i].0 == a)
  }

  /** The name of the format as a big-endian number. */
  function FromAscii(text: string): nat {
    if text == "" then 0 else 256 * FromAscii(text[..|text| - 1]) + text[|text| - 1] as int
  }

  lemma TagIsName()
    ensures STARKNET_STATE_DIFF0 == FromAscii("STARKNET_STATE_DIFF0")
  {
    var text := "STARKNET_STATE_DIFF0";
    Digits(text, 0, 0, 0x5354_4152);
    Digits(text, 4, 0x5354_4152, 0x5354_4152_4b4e_4554);
    Digits(text, 8, 0x5354_4152_4b4e_4554, 0x5354_4152_4b4e_4554_5f53_5441);
    Digits(text, 12, 0x5354_4152_4b4e_4554_5f53_5441, 0x5354_4152_4b4e_4554_5f53_5441_5445_5f44);
    Digits(text, 16, 0x5354_4152_4b4e_4554_5f53_5441_5445_5f44, STARKNET_STATE_DIFF0);
    assert text[..20] == text;
  }

  /** Four more characters of a text. */
  lemma Digits(text: string, n: nat, x: nat, y: nat)
    requires n + 4 <= |text| && FromAscii(text[..n]) == x
    requires y == 256 * (256 * (256 * (256 * x + text[n] as int) + text[n + 1] as int) + text[n + 2] as int) + text[n + 3] as int
    ensures FromAscii(text[..n + 4]) == y
  {
    assert text[..n + 1][..n] == text[..n] && text[..n + 2][..n + 1] == text[..n + 1];
    assert text[..n + 3][..n + 2] == text[..n + 2] && text[..n + 4][..n + 3] == text[..n + 3];
    assert FromAscii(text[..n + 1]) == 256 * x + text[n] as int;
    assert FromAscii(text[..n + 2]) == 256 * (256 * x + text[n] as int) + text[n + 1] as int;
    assert FromAscii(text[..n + 3]) == 256 * FromAscii(text[..n + 2]) + text[n + 2] as int;
  }

  lemma ReadsSlots(m: map<Felt, Felt>, rest: seq<Felt>)
    ensures ReadMap(Slots(m) + rest).Got? && ReadMap(Slots(m) + rest).rest == rest
    ensures IsListOf(ReadMap(Slots(m) + rest).value, m)
  {
    hide Bag, Ascend, Pairs;
    AscendOfSet(m.Keys);
    AscendOfSetStrictly(m.Keys);
    var keys := Ascend(Bag(m.Keys));
    var s := Slots(m) + rest;
    assert s[0] == |m| == |keys| && |Slots(m)| == 1 + 2 * |m|;
    assert s[1 + 2 * |m|..] == rest;
    var pairs := ReadMap(s).value;
    forall i | 0 <= i < |keys| ensures pairs[i] == (keys[i], m[keys[i]]) {
      assert s[1 + 2 * i] == Pairs(keys, m)[2 * i] && s[2 + 2 * i] == Pairs(keys, m)[2 * i + 1];
      assert keys[i] in keys;
    }
    forall k | k in m ensures exists i :: 0 <= i < |pairs| && pairs[i].0 == k {
      assert k in keys;
      var i :| 0 <= i < |keys| && keys[i] == k;
      assert pairs[i].0 == k;
    }
  }

  lemma ReadsDeprecated(d: Diff, rest: seq<Felt>)
    ensures var r := ReadList(DeprecatedClasses(d) + rest);
            r.Got? && r.rest == rest && multiset(r.value) == multiset(d.declaredV0) && Ascending(r.value)
  {
    hide Ascend, Ascending;
    var x := Ascend(multiset(d.declaredV0));
    AscendSorts(multiset(d.declaredV0));
    assert |x| == |multiset(x)| == |d.declaredV0|;
    var s := DeprecatedClasses(d) + rest;
    assert s[0] == |x| && s[1..1 + |x|] == x && s[1 + |x|..] == rest;
  }

  lemma {:induction false} ReadsContracts(a: seq<Felt>, storage: map<Felt, map<Felt, Felt>>, rest: seq<Felt>)
    ensures var r := ReadContracts(Contracts(a, storage) + rest, |a|);
            && r.Got? && r.rest == rest && |r.value| == |a|
            && forall i :: 0 <= i < |a| ==> r.value[i].0 == a[i] && IsListOf(r.value[i].1, StorageOf(storage, a[i]))
    decreases |a|
  {
    hide Slots, IsListOf, ReadMap;
    if a == [] {
      assert Contracts(a, storage) + rest == rest;
    } else {
      var m, others := StorageOf(storage, a[0]), Contracts(a[1..], storage) + rest;
      var s := Contracts(a, storage) + rest;
      assert s == [a[0]] + (Slots(m) + others);
      assert s[0] == a[0] && s[1..] == Slots(m) + others;
      ReadsSlots(m, others);
      ReadsContracts(a[1..], storage, rest);
    }
  }

  lemma ReadsStorage(d: Diff, rest: seq<Felt>)
    ensures var s := StorageDiffs(d) + rest;
            && 0 < |s|
            && ReadContracts(s[1..], s[0]).Got? && ReadContracts(s[1..], s[0]).rest == rest
            && IsStorageOf(ReadContracts(s[1..], s[0]).value, d.storage)
  {
    hide Bag, Ascend, Contracts, ReadContracts, IsListOf;
    AscendOfSet(d.storage.Keys);
    AscendOfSetStrictly(d.storage.Keys);
    var a := Ascend(Bag(d.storage.Keys));
    var s := StorageDiffs(d) + rest;
    assert s[0] == |a| && s[1..] == Contracts(a, d.storage) + rest;
    ReadsContracts(a, d.storage, rest);
    var list := ReadContracts(s[1..], s[0]).value;
    forall i | 0 <= i < |list| ensures list[i].0 in d.storage && IsListOf(list[i].1, d.storage[list[i].0]) {
      assert a[i] in a;
    }
    forall k | k in d.storage ensures exists i :: 0 <= i < |list| && list[i].0 == k {
      assert k in a;
      var i :| 0 <= i < |a| && a[i] == k;
      assert list[i].0 == k;
    }
  }

  /** The stream of every diff reads back as its five components, in the order of the format, and nothing is left over. */
  lemma StreamReads(d: Diff)
    requires Disjoint(d)
    ensures var r := ReadStream(Stream(d));
            && r.Got? && r.rest == []
            && IsListOf(r.value.updated, d.deployed + d.replaced)
            && IsListOf(r.value.declared, d.migrated + d.declaredV1)
            && multiset(r.value.deprecated) == multiset(d.declaredV0) && Ascending(r.value.deprecated)
            && IsStorageOf(r.value.storage, d.storage)
            && IsListOf(r.value.nonces, d.nonces)
  {
    hide Slots, DeprecatedClasses, StorageDiffs, UpdatedContracts, DeclaredClasses, ReadMap, ReadList, ReadContracts;
    hide IsListOf, IsStorageOf, Ascending;
    UpdatedSection(d.deployed, d.replaced);
    DeclaredSection(d.declaredV1, d.migrated);
    var r5 := StorageDiffs(d) + Slots(d.nonces);
    var r4 := [1, 0] + r5;
    var r3 := DeprecatedClasses(d) + r4;
    var r2 := DeclaredClasses(d.declaredV1, d.migrated) + r3;
    var r1 := UpdatedContracts(d.deployed, d.replaced) + r2;
    assert Stream(d)[1..] == r1;
    ReadsSlots(d.deployed + d.replaced, r2);
    ReadsSlots(d.migrated + d.declaredV1, r3);
    ReadsDeprecated(d, r4);
    ReadsStorage(d, Slots(d.nonces));
    assert r4[0] == 1 && r4[1] == 0 && r4[2] == r5[0] && r4[3..] == r5[1..];
    assert Slots(d.nonces) + [] == Slots(d.nonces);
    ReadsSlots(d.nonces, []);
  }

  /** One deprecated class, one slot and one nonce. */
  lemma SmallStream(d: Diff)
    requires d == Diff(map[5 := map[1 := 2]], map[9 := 3], map[], [8], map[], map[], map[])
    ensures Stream(d) == [STARKNET_STATE_DIFF0, 0, 0, 1, 8, 1, 0, 1, 5, 1, 1, 2, 1, 9, 3]
  {
    hide UpdatedContracts, DeclaredClasses, DeprecatedClasses, StorageDiffs, Slots;
    NoneUpdated();
    NoneDeclared();
    SmallSections(d);
  }

  lemma SmallSections(d: Diff)
    requires d.storage == map[5 := map[1 := 2]] && d.nonces == map[9 := 3] && d.declaredV0 == [8]
    ensures DeprecatedClasses(d) == [1, 8] && StorageDiffs(d) == [1, 5, 1, 1, 2] && Slots(d.nonces) == [1, 9, 3]
  {
    hide Slots, Bag, Ascend;
    AscendingIsAscend([8]);
    SortedSet([5], d.storage.Keys);
    OneSlot(1, 2);
    OneSlot(9, 3);
    assert Contracts([5], d.storage) == [5] + Slots(map[1 := 2]) + Contracts([], d.storage);
  }

  lemma OneSlot(k: Felt, v: Felt)
    ensures Slots(map[k := v]) == [1, k, v]
  {
    hide CountedPairs, Bag;
    CountedPairsOf(1, [k], map[k := v]);
  }

  lemma NoneUpdated()
    ensures UpdatedContracts(map[], map[]) == [0]
  {
    hide CountedPairs, Bag;
    var none: map<Felt, Felt> := map[];
    assert none + none == none;
    CountedPairsOf(0, [], none);
  }

  /** Without the guarantee it does not: a contract both deployed and replaced, against two deployments. */
  lemma OverlapCollides(d: Diff, d': Diff)
    requires d == Diff(map[], map[], map[0 := 9], [], map[7 := 0], map[0 := 4], map[])
    requires d' == Diff(map[], map[], map[0 := 4, 1 := 7], [], map[], map[], map[])
    ensures Stream(d) == Stream(d') && !Disjoint(d) && d.nonces == d'.nonces && d.declaredV1 != d'.declaredV1
  {
    assert 0 in d.deployed.Keys && 0 in d.replaced.Keys && 7 in d.declaredV1;
    hide Stream;
    FirstStream(d);
    SecondStream(d');
  }

  lemma FirstStream(d: Diff)
    requires d == Diff(map[], map[], map[0 := 9], [], map[7 := 0], map[0 := 4], map[])
    ensures Stream(d) == [STARKNET_STATE_DIFF0, 2, 0, 4, 1, 7, 0, 0, 1, 0, 0, 0]
  {
    hide UpdatedContracts, DeclaredClasses, Stream;
    OneUpdated();
    OneDeclared();
    EmptyTail(d);
  }

  lemma SecondStream(d: Diff)
    requires d == Diff(map[], map[], map[0 := 4, 1 := 7], [], map[], map[], map[])
    ensures Stream(d) == [STARKNET_STATE_DIFF0, 2, 0, 4, 1, 7, 0, 0, 1, 0, 0, 0]
  {
    hide UpdatedContracts, DeclaredClasses, Stream;
    TwoUpdated(d.deployed);
    NoneDeclared();
    EmptyTail(d);
  }

  lemma OneUpdated()
    ensures UpdatedContracts(map[0 := 9], map[0 := 4]) == [2, 0, 4]
  {
    hide CountedPairs, Bag;
    assert map[0 := 9] + map[0 := 4] == map[0 := 4];
    CountedPairsOf(2, [0], map[0 := 4]);
  }

  lemma TwoUpdated(m: map<Felt, Felt>)
    requires m == map[0 := 4, 1 := 7]
    ensures UpdatedContracts(m, map[]) == [2, 0, 4, 1, 7]
  {
    hide CountedPairs, Bag, UpdatedContracts, Pairs;
    UpdatedSection(m, map[]);
    assert m + map[] == m;
    TwoSlots(m);
  }

  lemma TwoSlots(m: map<Felt, Felt>)
    requires m == map[0 := 4, 1 := 7]
    ensures Slots(m) == [2, 0, 4, 1, 7]
  {
    hide CountedPairs, Bag, Pairs;
    CountedPairsOf(2, [0, 1], m);
    assert |m.Keys - {0}| == 1 by {
      assert m.Keys - {0} == {1};
    }
    TwoPairs(m);
  }

  lemma TwoPairs(m: map<Felt, Felt>)
    requires m == map[0 := 4, 1 := 7]
    ensures Pairs([0, 1], m) == [0, 4, 1, 7]
  {
  }

  lemma OneDeclared()
    ensures DeclaredClasses(map[7 := 0], map[]) == [1, 7, 0]
  {
    DeclaredSection(map[7 := 0], map[]);
    hide CountedPairs, Bag, DeclaredClasses;
    assert map[] + map[7 := 0] == map[7 := 0];
    CountedPairsOf(1, [7], map[7 := 0]);
  }

  lemma NoneDeclared()
    ensures DeclaredClasses(map[], map[]) == [0]
  {
    DeclaredSection(map[], map[]);
    hide CountedPairs, Bag, DeclaredClasses;
    var none: map<Felt, Felt> := map[];
    assert none + none == none;
    CountedPairsOf(0, [], none);
  }

  lemma EmptyTail(d: Diff)
    requires d.declaredV0 == [] && d.storage == map[] && d.nonces == map[]
    ensures Stream(d) == [STARKNET_STATE_DIFF0] + UpdatedContracts(d.deployed, d.replaced) + DeclaredClasses(d.declaredV1, d.migrated) + [0, 1, 0, 0, 0]
  {
    hide UpdatedContracts, DeclaredClasses, DeprecatedClasses, StorageDiffs, Slots;
    EmptySections(d);
  }

  lemma EmptySections(d: Diff)
    requires d.declaredV0 == [] && d.storage == map[] && d.nonces == map[]
    ensures DeprecatedClasses(d) == StorageDiffs(d) == Slots(d.nonces) == [0]
  {
    hide Ascend, CountedPairs, Bag;
    AscendingIsAscend([]);
    SortedSet([], d.storage.Keys);
    CountedPairsOf(0, [], map[]);
  }

  lemma CountedPairsOf(count: nat, keys: seq<Felt>, m: map<Felt, Felt>)
    requires forall i, j :: 0 <= i < j < |keys| ==> keys[i] < keys[j]
    requires forall k :: k in keys <==> k in m
    ensures CountedPairs(count, Bag(m.Keys), m) == [count] + Pairs(keys, m)
  {
    hide Bag, Ascend, Pairs;
    SortedSet(keys, m.Keys);
  }
}
