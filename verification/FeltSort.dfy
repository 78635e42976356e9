/** Sorting field elements: whatever order a map is iterated in, its sorted keys are one sequence. */
module FeltSort {
  import opened Common

  type Felt = nat

  ghost predicate Ascending(xs: seq<Felt>) {
    forall i, j :: 0 <= i < j < |xs| ==> xs[i] <= xs[j]
  }

  lemma ConsAscending(ms: multiset<Felt>, m: Felt, rest: seq<Felt>)
    requires m in ms && (forall y :: y in ms ==> m <= y) && multiset(rest) == ms - multiset{m} && Ascending(rest)
    ensures multiset([m] + rest) == ms && Ascending([m] + rest)
  {
    forall i | 0 <= i < |rest| ensures m <= rest[i] {
      assert rest[i] in multiset(rest);
    }
  }

  lemma Tail(xs: seq<Felt>)
    requires xs != [] && Ascending(xs)
    ensures multiset(xs[1..]) == multiset(xs) - multiset{xs[0]} && Ascending(xs[1..])
    ensures forall y :: y in multiset(xs) ==> xs[0] <= y
  {
    assert xs == [xs[0]] + xs[1..];
    forall y | y in multiset(xs) ensures xs[0] <= y {
      assert y in xs;
    }
  }

  ghost function Least(ms: multiset<Felt>): (m: Felt)
    requires |ms| > 0
    ensures m in ms && forall y :: y in ms ==> m <= y
  {
    var x :| x in ms;
    var elements := set y | y in ms;
    LeastExists(elements, x);
    var m :| m in elements && forall y :: y in elements ==> m <= y;
    assert forall y :: y in ms ==> y in elements;
    m
  }

  /** The elements in ascending order. */
  ghost function Ascend(ms: multiset<Felt>): seq<Felt>
    decreases |ms|
  {
    if |ms| == 0 then [] else [Least(ms)] + Ascend(ms - multiset{Least(ms)})
  }

  lemma {:induction false} AscendSorts(ms: multiset<Felt>)
    ensures multiset(Ascend(ms)) == ms && Ascending(Ascend(ms))
    decreases |ms|
  {
    hide Ascending;
    if |ms| == 0 {
      EmptyAscends();
    } else {
      AscendSorts(ms - multiset{Least(ms)});
      ConsAscending(ms, Least(ms), Ascend(ms - multiset{Least(ms)}));
    }
  }

  lemma EmptyAscends()
    ensures Ascending([])
  {
  }

  lemma {:induction false} AscendStep(ms: multiset<Felt>, m: Felt, rest: seq<Felt>)
    requires m in ms && (forall y :: y in ms ==> m <= y) && rest == Ascend(ms - multiset{m})
    ensures Ascend(ms) == [m] + rest
  {
    assert m == Least(ms);
  }

  lemma HeadTail(xs: seq<Felt>)
    requires xs != []
    ensures xs == [xs[0]] + xs[1..] && xs[0] in multiset(xs)
  {
  }

  /** An ascending sequence is determined by its elements. */
  lemma {:induction false} AscendingIsAscend(xs: seq<Felt>)
    requires Ascending(xs)
    ensures xs == Ascend(multiset(xs))
  {
    hide Ascending;
    if xs != [] {
      HeadTail(xs);
      Tail(xs);
      AscendingIsAscend(xs[1..]);
      hide Ascend;
      AscendStep(multiset(xs), xs[0], xs[1..]);
    }
  }

  lemma InsertedInOrder(xs: seq<Felt>, i: nat, x: Felt)
    requires Ascending(xs) && i <= |xs| && (forall j :: 0 <= j < i ==> xs[j] <= x) && (i < |xs| ==> x < xs[i])
    ensures Ascending(xs[..i] + [x] + xs[i..])
  {
    var r := xs[..i] + [x] + xs[i..];
    assert forall j :: 0 <= j < |r| ==> r[j] == if j < i then xs[j] else if j == i then x else xs[j - 1];
  }

  lemma InsertedElements(xs: seq<Felt>, i: nat, x: Felt)
    requires i <= |xs|
    ensures multiset(xs[..i] + [x] + xs[i..]) == multiset(xs) + multiset{x}
  {
    assert xs == xs[..i] + xs[i..];
  }

  /** Puts one more element in place. */
  method Insert(xs: seq<Felt>, x: Felt) returns (r: seq<Felt>)
    requires Ascending(xs)
    ensures Ascending(r) && multiset(r) == multiset(xs) + multiset{x}
  {
    var i := 0;
    while i < |xs| && xs[i] <= x
      invariant i <= |xs| && forall j :: 0 <= j < i ==> xs[j] <= x
    {
      i := i + 1;
    }
    r := xs[..i] + [x] + xs[i..];
    InsertedInOrder(xs, i, x);
    hide Ascending;
    InsertedElements(xs, i, x);
  }

  method Sort(xs: seq<Felt>) returns (r: seq<Felt>)
    ensures r == Ascend(multiset(xs))
  {
    r := [];
    for i := 0 to |xs|
      invariant Ascending(r) && multiset(r) == multiset(xs[..i])
    {
      assert xs[..i + 1] == xs[..i] + [xs[i]];
      r := Insert(r, xs[i]);
    }
    assert xs[..|xs|] == xs;
    AscendingIsAscend(r);
  }

  /** A set, each element once. */
  ghost function Bag(keys: set<Felt>): multiset<Felt> {
    multiset(keys)
  }

  lemma BagOfSet(keys: set<Felt>)
    ensures |Bag(keys)| == |keys| && forall k :: k in Bag(keys) <==> k in keys
  {
  }

  /** The keys, collected in the order in which they come, and sorted. */
  method SortedKeys(keys: set<Felt>) returns (r: seq<Felt>)
    ensures r == Ascend(Bag(keys))
  {
    var collected := Collect(keys);
    r := Sort(collected);
  }

  method Collect(keys: set<Felt>) returns (r: seq<Felt>)
    ensures multiset(r) == Bag(keys)
  {
    var remaining := keys;
    r := [];
    while remaining != {}
      invariant remaining <= keys
      invariant forall k :: multiset(r)[k] == if k in keys && k !in remaining then 1 else 0
      decreases remaining
    {
      var k :| k in remaining;
      r := r + [k];
      remaining := remaining - {k};
    }
    assert multiset(r) == multiset(keys);
  }

  /** Ascending keys of a set, each once. */
  lemma AscendOfSet(s: set<Felt>)
    ensures |Ascend(Bag(s))| == |s|
    ensures forall k :: k in Ascend(Bag(s)) <==> k in s
  {
    hide Bag, Ascend;
    var xs := Ascend(Bag(s));
    BagOfSet(s);
    AscendSorts(Bag(s));
    assert |multiset(xs)| == |xs|;
    forall k ensures k in xs <==> k in s {
      assert k in xs <==> k in multiset(xs);
    }
  }

  lemma CountsBoth(xs: seq<Felt>, i: nat, j: nat)
    requires i < j < |xs|
    ensures xs[i] == xs[j] ==> multiset(xs)[xs[i]] >= 2
  {
    assert xs == xs[..i] + [xs[i]] + xs[i + 1..j] + [xs[j]] + xs[j + 1..];
  }

  /** And no two of them are equal. */
  lemma AscendOfSetStrictly(s: set<Felt>)
    ensures forall i, j :: 0 <= i < j < |Ascend(Bag(s))| ==> Ascend(Bag(s))[i] < Ascend(Bag(s))[j]
  {
    hide Ascend;
    var xs := Ascend(Bag(s));
    AscendSorts(Bag(s));
    forall i, j | 0 <= i < j < |xs| ensures xs[i] < xs[j] {
      CountsBoth(xs, i, j);
    }
  }

  lemma BagOfDisjoint(a: set<Felt>, b: set<Felt>)
    requires a !! b
    ensures Bag(a) + Bag(b) == Bag(b + a)
  {
  }

  /** Distinct elements in ascending order are the sorted set. */
  lemma SortedSet(keys: seq<Felt>, s: set<Felt>)
    requires forall i, j :: 0 <= i < j < |keys| ==> keys[i] < keys[j]
    requires forall k :: k in keys <==> k in s
    ensures keys == Ascend(Bag(s))
  {
    CountsOnce(keys);
    assert multiset(keys) == Bag(s);
    AscendingIsAscend(keys);
  }

  lemma {:induction false} CountsOnce(keys: seq<Felt>)
    requires forall i, j :: 0 <= i < j < |keys| ==> keys[i] < keys[j]
    ensures forall k :: multiset(keys)[k] == if k in keys then 1 else 0
  {
    if keys != [] {
      var n := |keys| - 1;
      CountsOnce(keys[..n]);
      assert keys == keys[..n] + [keys[n]];
    }
  }
}
