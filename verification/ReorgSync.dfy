/**
 Following a remote chain through reorgs: detecting that the remote has left the local
 chain, reverting to where they agree, storing the remote's blocks, and announcing the
 range of blocks that were reverted.

 Models the reorg part of sync/sync.go. A chain is the sequence of its block hashes; the
 parent hash of a block is the hash before it, and zero for block 0.
 */
module ReorgSync {
  import opened Common
  import opened Words

  type Hash = nat

  /** Equal hashes mean equal blocks on equal chains; no hash is zero. */
  ghost predicate Linked(a: seq<Hash>, b: seq<Hash>) {
    && (forall i: nat, j: nat :: i < |a| && j < |b| && a[i] == b[j] ==> i == j)
    && (forall i: nat :: i < |a| && i < |b| && a[i] == b[i] ==> a[..i] == b[..i])
    && (forall i :: 0 <= i < |a| ==> a[i] != 0) && (forall i :: 0 <= i < |b| ==> b[i] != 0)
    && |a| < TWO_64 && |b| < TWO_64
  }

  function ParentHash(c: seq<Hash>, n: nat): Hash
    requires n < |c|
  {
    if n == 0 then 0 else c[n - 1]
  }

  /** The length of the longest common prefix. */
  ghost function Fork(a: seq<Hash>, b: seq<Hash>): (n: nat)
    ensures n <= |a| && n <= |b| && a[..n] == b[..n]
    ensures n < |a| && n < |b| ==> a[n] != b[n]
  {
    if a == [] || b == [] || a[0] != b[0] then 0
    else
      var n := Fork(a[1..], b[1..]);
      assert a[..n + 1] == [a[0]] + a[1..][..n];
      assert b[..n + 1] == [b[0]] + b[1..][..n];
      n + 1
  }

  /** On linked chains, block hashes agree exactly below the fork. */
  lemma AgreeBelowFork(a: seq<Hash>, b: seq<Hash>, n: nat)
    requires Linked(a, b) && n < |a| && n < |b|
    ensures a[n] == b[n] <==> n < Fork(a, b)
    ensures ParentHash(a, n) == ParentHash(b, n) <==> n <= Fork(a, b)
  {
    var f := Fork(a, b);
    assert n < f ==> a[n] == a[..f][n] && b[n] == b[..f][n];
    assert 0 < n <= f ==> a[n - 1] == a[..f][n - 1] && b[n - 1] == b[..f][n - 1];
  }

  // ---------------------------------------------------------------- detection

  /** Is the remote on another chain, and at which height may the two still agree. */
  method IsReverting(local: seq<Hash>, remote: seq<Hash>, nextHeight: nat) returns (bound: Word, isReorg: bool)
    requires Linked(local, remote)
    ensures isReorg <==> local != [] && nextHeight == |local| && 0 < |remote| <= |local| && Fork(local, remote) < |remote|
    ensures isReorg && 1 < |remote| ==> Fork(local, remote) <= bound + 1 == |remote| - 1
    ensures isReorg && |remote| == 1 ==> bound == MAX_WORD
    ensures !isReorg ==> bound == 0
  {
    if local == [] {
      return 0, false;
    }
    var localHeight := |local| - 1;
    if localHeight + 1 != nextHeight {
      return 0, false;
    }
    if remote == [] {
      return 0, false;
    }
    var remoteHeight := |remote| - 1;
    if remoteHeight > localHeight {
      return 0, false;
    }
    if remoteHeight < localHeight {
      localHeight := remoteHeight;
    }
    AgreeBelowFork(local, remote, remoteHeight);
    if remote[remoteHeight] == local[localHeight] {
      return 0, false;
    }
    return if remoteHeight == 0 then MAX_WORD else remoteHeight - 1, true;
  }

  // ---------------------------------------------------------------- the synchroniser

  datatype ReorgRange = ReorgRange(startHash: Hash, startNum: nat, endHash: Hash, endNum: nat)

  /** The range names the blocks `gone` that stood on top of the chain, first and last. */
  ghost predicate Announces(range: Option<ReorgRange>, height: nat, gone: seq<Hash>) {
    if gone == [] then range.None?
    else range == Some(ReorgRange(gone[0], height, gone[|gone| - 1], height + |gone| - 1))
  }

  datatype StoreResult = Stored | ParentMismatch | WrongNumber

  class Synchronizer {
    var chain: seq<Hash>
    var currReorg: Option<ReorgRange>
    var published: seq<ReorgRange>       // the reorg feed
    ghost var before: seq<Hash>          // the chain when a block was last stored

    /** Since the last stored block, only reverts: they took off `before[|chain|..]`. */
    ghost predicate Valid()
      reads this
    {
      chain <= before && Announces(currReorg, |chain|, before[|chain|..])
    }

    constructor (chain: seq<Hash>)
      ensures Valid() && this.chain == before == chain && published == []
    {
      this.chain, this.before, this.currReorg, this.published := chain, chain, None, [];
    }

    method RevertHead()
      requires Valid() && chain != []
      modifies this`chain, this`currReorg
      ensures Valid() && chain == old(chain)[..|old(chain)| - 1]
    {
      var n := |chain| - 1;
      var hash := chain[n];
      ghost var gone := before[n + 1..];
      assert before[n..] == [hash] + gone;
      chain := chain[..n];
      if currReorg.None? {
        currReorg := Some(ReorgRange(hash, n, hash, n));
      } else {
        currReorg := Some(currReorg.value.(startHash := hash, startNum := n));
      }
    }

    /**
     Reverts heads above the bound unseen, and below it while the remote disagrees.
     The remote may fail to serve a block. No common block is taken off unless the
     bound is below it, and a remote that serves all its blocks settles where the walk
     ends.
     */
    method RevertTask(bound: Word, remote: seq<Hash>, serves: nat -> bool)
      requires Valid() && Linked(chain, remote)
      modifies this`chain, this`currReorg
      ensures Valid() && chain <= old(chain)
      ensures Fork(old(chain), remote) <= bound + 1 ==> Fork(old(chain), remote) <= |chain|
      ensures (forall n :: serves(n)) ==> chain == old(chain)[..RevertsTo(old(chain), remote, bound)]
      ensures |chain| == RevertsTo(old(chain), remote, bound) || (0 < |chain| <= bound + 1 && !serves(|chain| - 1))
      ensures forall n :: |chain| <= n < |old(chain)| && n <= bound ==> serves(n)
    {
      hide Linked, Announces, Fork;
      ghost var first := chain;
      ghost var fork := Fork(first, remote);
      var shouldContinue := true;
      while shouldContinue
        invariant Valid() && chain == first[..|chain|] && |chain| <= |first|
        invariant fork <= bound + 1 ==> fork <= |chain|
        invariant forall n :: |chain| <= n < |first| && n <= bound ==> serves(n)
        invariant shouldContinue ==> |chain| == |first| || bound < |chain| || Continues(first, remote, bound, |chain|)
        invariant !shouldContinue ==> |chain| == fork == RevertsTo(first, remote, bound)
        decreases |chain|, shouldContinue
      {
        if chain == [] {
          return;
        }
        var n := |chain| - 1;
        if n <= bound {
          if !serves(n) || n >= |remote| {
            return;
          }
          AgreeBelowFork(first, remote, n);
          if remote[n] == chain[n] {
            return;
          }
          shouldContinue := ParentHash(remote, n) != ParentHash(chain, n);
        }
        RevertHead();
      }
    }

    /** Does the block follow the head; if so it becomes the head. */
    method Store(number: nat, hash: Hash, parentHash: Hash) returns (r: StoreResult)
      requires Valid()
      modifies this`chain
      ensures r.Stored? <==> number == |old(chain)| && parentHash == HeadHash(old(chain))
      ensures r.ParentMismatch? <==> number == |old(chain)| && parentHash != HeadHash(old(chain))
      ensures chain == if r.Stored? then old(chain) + [hash] else old(chain)
    {
      if number != |chain| {
        return WrongNumber;
      }
      if parentHash != HeadHash(chain) {
        return ParentMismatch;
      }
      chain := chain + [hash];
      r := Stored;
    }

    /**
     Stores the remote's block, and announces the reorg it completes; or, if its parent
     is not the head, reverts. Then the fork is always reached: the wrap of number-2 at
     block 1 is harmless.
     */
    method StoreTask(number: nat, remote: seq<Hash>, serves: nat -> bool) returns (r: StoreResult)
      requires Valid() && Linked(chain, remote) && number < |remote|
      modifies this
      ensures Valid()
      ensures r.WrongNumber? <==> number != |old(chain)|
      ensures r.WrongNumber? ==> chain == old(chain) && published == old(published) && currReorg == old(currReorg) && before == old(before)
      ensures r.Stored? <==> number == |old(chain)| && old(chain) <= remote
      ensures r.Stored? ==> chain == remote[..number + 1] && currReorg.None? && before == chain
      ensures r.Stored? ==> published == old(published) + (if old(currReorg).Some? then [old(currReorg).value] else [])
      ensures r.ParentMismatch? ==> published == old(published) && before == old(before) && chain <= old(chain)
      ensures r.ParentMismatch? && (forall n :: serves(n)) ==> chain == old(chain)[..Fork(old(chain), remote)]
    {
      if number == |chain| {
        PrefixIffParent(chain, remote);
      }
      r := Store(number, remote[number], ParentHash(remote, number));
      if r.ParentMismatch? {
        RevertTask(if number == 1 then MAX_WORD else number - 2, remote, serves);
      } else if r.Stored? {
        if currReorg.Some? {
          published := published + [currReorg.value];
          currReorg := None;
        }
        before := chain;
      }
    }

    /** The fetcher at the tip: a remote that is not ahead of us. */
    method CheckTip(remote: seq<Hash>, serves: nat -> bool)
      requires Valid() && Linked(chain, remote) && (forall n :: serves(n)) && 0 < |remote| <= |chain|
      modifies this`chain, this`currReorg
      ensures Valid()
      ensures chain == if remote <= old(chain) || Stuck(old(chain), remote) then old(chain) else old(chain)[..Fork(old(chain), remote)]
    {
      hide Valid, Announces;
      var bound, isReorg := IsReverting(chain, remote, |chain|);
      PrefixIffFork(remote, chain);
      if isReorg {
        RevertTask(bound, remote, serves);
        assert old(chain) == old(chain)[..|old(chain)|];
      }
    }

    /** Stores block after block of a remote that extends our chain. */
    method CatchUp(remote: seq<Hash>, serves: nat -> bool)
      requires Valid() && Linked(remote, remote) && chain < remote
      modifies this
      ensures Valid() && chain == before == remote && currReorg.None?
      ensures published == old(published) + (if old(currReorg).Some? then [old(currReorg).value] else [])
    {
      hide Announces;
      while |chain| < |remote|
        invariant Valid() && chain <= remote
        invariant if |chain| == |old(chain)| then
                    published == old(published) && currReorg == old(currReorg)
                  else
                    && currReorg.None? && before == chain
                    && published == old(published) + (if old(currReorg).Some? then [old(currReorg).value] else [])
        decreases |remote| - |chain|
      {
        LinkedPrefix(remote, remote, |chain|);
        assert chain == remote[..|chain|];
        var r := StoreTask(|chain|, remote, serves);
      }
    }

    /**
     Follows a remote that stays put. The chain becomes the remote's, and one range,
     exactly the blocks above the fork, is announced. There are two exceptions: a
     remote whose chain is a prefix of ours is left alone; and a remote at height 0
     with another genesis is never followed from above it, since its bound wraps and
     the remote has no block to compare with the head.
     */
    method Follow(remote: seq<Hash>, serves: nat -> bool)
      requires Valid() && before == chain && Linked(chain, remote) && Linked(remote, remote) && remote != []
      requires forall n :: serves(n)
      modifies this
      ensures Valid()
      ensures remote <= old(chain) || Stuck(old(chain), remote) ==> chain == old(chain) && published == old(published)
      ensures !(remote <= old(chain)) && !Stuck(old(chain), remote) ==>
                && chain == before == remote
                && exists range: Option<ReorgRange> ::
                     && Announces(range, Fork(old(chain), remote), old(chain)[Fork(old(chain), remote)..])
                     && published == old(published) + (if range.Some? then [range.value] else [])
    {
      hide Announces, Linked;
      ghost var first, fork := chain, Fork(chain, remote);
      PrefixIffFork(remote, chain);
      PrefixIffFork(chain, remote);
      if |chain| >= |remote| {
        CheckTip(remote, serves);
        if |chain| >= |remote| {
          return;
        }
      } else if chain != remote[..|chain|] {
        var r := StoreTask(|chain|, remote, serves);
      }
      assert chain == first[..fork] && chain < remote;
      ghost var range := currReorg;
      assert Announces(range, fork, first[fork..]);
      CatchUp(remote, serves);
    }
  }

  /** The remote has one block, it is not ours, and we have more than one. */
  ghost predicate Stuck(local: seq<Hash>, remote: seq<Hash>) {
    |remote| == 1 && 1 < |local| && local[0] != remote[0]
  }

  function HeadHash(c: seq<Hash>): Hash {
    if c == [] then 0 else c[|c| - 1]
  }

  lemma PrefixIffFork(a: seq<Hash>, b: seq<Hash>)
    ensures a <= b <==> Fork(a, b) == |a|
    ensures a <= b <==> Fork(b, a) == |a|
  {
    assert a[..|a|] == a;
  }

  lemma LinkedPrefix(a: seq<Hash>, b: seq<Hash>, n: nat)
    requires Linked(a, b) && n <= |a|
    ensures Linked(a[..n], b)
  {
    forall i: nat | i < n && i < |b| && a[..n][i] == b[i] ensures a[..n][..i] == b[..i] {
      assert a[..n][..i] == a[..i];
    }
  }

  /** The parent of the remote's next block is our head exactly if we are a prefix of the remote. */
  lemma PrefixIffParent(local: seq<Hash>, remote: seq<Hash>)
    requires Linked(local, remote) && |local| < |remote|
    ensures ParentHash(remote, |local|) == HeadHash(local) <==> local <= remote
  {
    PrefixIffFork(local, remote);
    if local != [] {
      AgreeBelowFork(local, remote, |local| - 1);
    }
  }

  /** The walk has compared a block at or below the bound, and is above the fork. */
  ghost predicate Continues(first: seq<Hash>, remote: seq<Hash>, bound: nat, n: nat) {
    Fork(first, remote) < n < |first| && n <= bound && RevertsTo(first, remote, bound) == Fork(first, remote)
  }

  /** The first height at which the walk compares, or -1. */
  function FirstCompared(local: seq<Hash>, bound: nat): int {
    if bound < |local| then bound else |local| - 1
  }

  /** Where the walk ends: at once if the remote lacks the first block to compare, at the bound if that is below the fork, else at the fork. */
  ghost function RevertsTo(local: seq<Hash>, remote: seq<Hash>, bound: nat): (n: nat)
    ensures n <= |local|
  {
    if FirstCompared(local, bound) >= |remote| then FirstCompared(local, bound) + 1
    else if bound + 1 < Fork(local, remote) then bound + 1
    else Fork(local, remote)
  }

  /**
   The walk ends at the fork if and only if the bound is not below the last common
   block and the first block to compare is one that the remote has.
   */
  lemma RevertsToForkIff(local: seq<Hash>, remote: seq<Hash>, bound: nat)
    ensures RevertsTo(local, remote, bound) == Fork(local, remote) <==>
              Fork(local, remote) <= bound + 1 && FirstCompared(local, bound) < |remote|
  {
  }
}
