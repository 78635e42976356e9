/**
 Event data and the bloom filter of one block's events.

 The hash functions of the bloom library are a parameter: a function from a key to
 the sequence of its (unreduced) locations. Models EventsBloom of
 core/transaction.go.
 */
module Bloom {

  const BLOOM_LENGTH: nat := 8192

  type Felt = nat

  datatype Event = Event(from: Felt, keys: seq<Felt>, data: seq<Felt>)

  /** The events of one transaction, as projected from its receipt. */
  datatype TransactionEvents = TransactionEvents(transactionHash: Felt, events: seq<Event>)

  /**
   The byte strings added to a bloom filter: the address bytes of an event, and the
   bytes of a key followed by its index.
   */
  datatype BloomKey = AddressKey(address: Felt) | IndexedKey(key: Felt, index: nat)

  type Locations = BloomKey -> seq<nat>

  /** The bitset of a bloom filter; its length is the filter's size in bits. */
  type BloomFilter = seq<bool>

  function Indices(h: Locations, key: BloomKey): (r: seq<nat>)
    ensures |r| == |h(key)|
    ensures forall k :: 0 <= k < |r| ==> r[k] < BLOOM_LENGTH
  {
    seq(|h(key)|, k requires 0 <= k < |h(key)| => h(key)[k] % BLOOM_LENGTH)
  }

  /** The library's membership test: every location of the key is set. */
  predicate BloomTest(h: Locations, filter: BloomFilter, key: BloomKey)
    requires |filter| == BLOOM_LENGTH
  {
    forall k :: 0 <= k < |Indices(h, key)| ==> filter[Indices(h, key)[k]]
  }

  /** The keys under which one event is indexed. */
  ghost predicate KeyOfEvent(event: Event, key: BloomKey) {
    match key
    case AddressKey(address) => address == event.from
    case IndexedKey(k, index) => index < |event.keys| && event.keys[index] == k
  }

  ghost predicate KeyOfBlock(txs: seq<TransactionEvents>, key: BloomKey) {
    exists t, i :: 0 <= t < |txs| && 0 <= i < |txs[t].events| && KeyOfEvent(txs[t].events[i], key)
  }

  /** Bit `i` of the filter is justified by some location of a key of the block. */
  ghost predicate Justified(h: Locations, txs: seq<TransactionEvents>, i: nat) {
    exists key :: KeyOfBlock(txs, key) && i in Indices(h, key)
  }

  method AddKey(h: Locations, filter: BloomFilter, key: BloomKey) returns (r: BloomFilter)
    requires |filter| == BLOOM_LENGTH
    ensures |r| == BLOOM_LENGTH
    ensures forall i :: 0 <= i < |r| ==> (r[i] <==> filter[i] || i in Indices(h, key))
  {
    r := filter;
    var indices := Indices(h, key);
    for k := 0 to |indices|
      invariant |r| == BLOOM_LENGTH
      invariant forall i :: 0 <= i < |r| ==> (r[i] <==> filter[i] || i in indices[..k])
    {
      r := r[indices[k] := true];
      assert indices[..k + 1] == indices[..k] + [indices[k]];
    }
    assert indices[..|indices|] == indices;
  }

  /** Keys of the first `t` transactions and the first `i` events of the next one. */
  ghost predicate KeySoFar(txs: seq<TransactionEvents>, t: nat, i: nat, key: BloomKey) {
    exists a, b :: 0 <= a < |txs| && 0 <= b < |txs[a].events| && (a < t || (a == t && b < i))
                && KeyOfEvent(txs[a].events[b], key)
  }

  /** `filter` holds exactly the locations of the keys of the block's events. */
  ghost predicate IsBloomOf(h: Locations, txs: seq<TransactionEvents>, filter: BloomFilter) {
    && |filter| == BLOOM_LENGTH
    && (forall key :: KeyOfBlock(txs, key) ==> BloomTest(h, filter, key))
    && (forall i :: 0 <= i < |filter| && filter[i] ==> Justified(h, txs, i))
  }

  /** The bloom filter of a block. */
  ghost function BloomOf(h: Locations, txs: seq<TransactionEvents>): (filter: BloomFilter)
    ensures IsBloomOf(h, txs, filter)
  {
    var filter := seq(BLOOM_LENGTH, i requires 0 <= i < BLOOM_LENGTH => Justified(h, txs, i));
    assert forall key, k :: KeyOfBlock(txs, key) && 0 <= k < |Indices(h, key)| ==> Justified(h, txs, Indices(h, key)[k]);
    filter
  }

  /** A block has only one bloom filter. */
  lemma BloomUnique(h: Locations, txs: seq<TransactionEvents>, a: BloomFilter, b: BloomFilter)
    requires IsBloomOf(h, txs, a) && IsBloomOf(h, txs, b)
    ensures a == b
  {
    forall i | 0 <= i < BLOOM_LENGTH ensures a[i] == b[i] {
      if a[i] || b[i] {
        var key :| KeyOfBlock(txs, key) && i in Indices(h, key);
        assert BloomTest(h, a, key) && BloomTest(h, b, key);
      }
    }
  }

  /**
   Builds the bloom filter of a block. Every key of every event tests positive, and
   every set bit is a location of some key of the block.
   */
  method EventsBloom(h: Locations, txs: seq<TransactionEvents>) returns (filter: BloomFilter)
    ensures |filter| == BLOOM_LENGTH && IsBloomOf(h, txs, filter)
  {
    filter := seq(BLOOM_LENGTH, _ => false);
    for t := 0 to |txs|
      invariant |filter| == BLOOM_LENGTH
      invariant forall key :: KeySoFar(txs, t, 0, key) ==> BloomTest(h, filter, key)
      invariant forall i :: 0 <= i < |filter| && filter[i] ==> Justified(h, txs, i)
    {
      var events := txs[t].events;
      for e := 0 to |events|
        invariant |filter| == BLOOM_LENGTH
        invariant forall key :: KeySoFar(txs, t, e, key) ==> BloomTest(h, filter, key)
        invariant forall i :: 0 <= i < |filter| && filter[i] ==> Justified(h, txs, i)
      {
        ghost var before := filter;
        filter := AddEvent(h, txs, t, e, filter);
        forall key | KeySoFar(txs, t, e + 1, key) ensures BloomTest(h, filter, key) {
          if !KeyOfEvent(events[e], key) {
            assert KeySoFar(txs, t, e, key);
            assert BloomTest(h, before, key);
          }
        }
      }
    }
  }

  method AddEvent(h: Locations, txs: seq<TransactionEvents>, t: nat, e: nat, filter: BloomFilter)
    returns (r: BloomFilter)
    requires t < |txs| && e < |txs[t].events|
    requires |filter| == BLOOM_LENGTH
    requires forall i :: 0 <= i < |filter| && filter[i] ==> Justified(h, txs, i)
    ensures |r| == BLOOM_LENGTH
    ensures forall i :: 0 <= i < |r| && filter[i] ==> r[i]
    ensures forall key :: KeyOfEvent(txs[t].events[e], key) ==> BloomTest(h, r, key)
    ensures forall i :: 0 <= i < |r| && r[i] ==> Justified(h, txs, i)
  {
    var event := txs[t].events[e];
    assert KeyOfEvent(event, AddressKey(event.from));
    assert KeyOfBlock(txs, AddressKey(event.from));
    r := AddKey(h, filter, AddressKey(event.from));
    for index := 0 to |event.keys|
      invariant |r| == BLOOM_LENGTH
      invariant forall i :: 0 <= i < |r| && filter[i] ==> r[i]
      invariant BloomTest(h, r, AddressKey(event.from))
      invariant forall x :: 0 <= x < index ==> BloomTest(h, r, IndexedKey(event.keys[x], x))
      invariant forall i :: 0 <= i < |r| && r[i] ==> Justified(h, txs, i)
    {
      var key := IndexedKey(event.keys[index], index);
      assert KeyOfEvent(event, key);
      assert KeyOfBlock(txs, key);
      r := AddKey(h, r, key);
    }
  }
}
