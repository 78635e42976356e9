/**
 The published retention floor: a cell that concurrent calls raise by compare-and-swap
 and readers load without a lock, and the retention test that readers make with it.

 Models pruner/retention.go.
 */
module RetentionFloor {
  import opened Common
  import opened Words
  import opened Store
  import opened StateHistory
  import opened Pruning

  /** What the cell holds for a floor: floor+1 in 64 bits, so the largest floor wraps to unseeded. */
  function Target(floor: Word): (t: Word) {
    if floor == MAX_WORD then 0 else floor + 1
  }

  class Floor {
    var state: Word    // floor+1; 0 is unseeded

    constructor ()
      ensures state == 0
    {
      state := 0;
    }

    method CompareAndSwap(cur: Word, next: Word) returns (swapped: bool)
      modifies this
      ensures swapped <==> old(state) == cur
      ensures state == if swapped then next else old(state)
    {
      swapped := state == cur;
      if swapped {
        state := next;
      }
    }

    /** A call that no other call interferes with. */
    method RaiseTo(floor: Word)
      modifies this
      ensures state == Max(old(state), Target(floor))
      ensures state == if floor == MAX_WORD then old(state) else Max(old(state), floor + 1)
    {
      var cur := state;
      if Target(floor) <= cur {
        return;
      }
      var swapped := CompareAndSwap(cur, Target(floor));
      assert swapped;
    }

    /** Seeding from a store pruned to (o, r, m): the floor is one below the oldest block, and never drops. */
    method Seed(db: Contents, ghost c: seq<Block>, ghost ws: set<nat>, ghost newLayout: bool, ghost o: nat, ghost r: nat, ghost m: nat)
      requires Retained(db, c, ws, newLayout, o, r, m) && |c| < TWO_64
      modifies this
      ensures 0 < state && state == Max(old(state), if o < |c| then Max(o, 1) else 1)
    {
      hide HashKeyed, HeadersFrom, UpdatesFrom, TransactionsFrom, WindowsFrom;
      assert o < |c| ==> o in db.commitments;
      var oldest := OldestRetainedBlock(db.commitments);
      var floor: Word := if oldest.Some? then Max(oldest.value, 1) - 1 else 0;
      RaiseTo(floor);
    }

    /** The floor, if seeded. */
    method Load() returns (r: Option<Word>)
      ensures r == if state == 0 then None else Some(state - 1)
    {
      r := if state == 0 then None else Some(state - 1);
    }
  }

  // ---------------------------------------------------------------- concurrent raises

  /** A call of raiseTo: before its load, between load and swap, or returned. */
  datatype Call = Start(target: Word) | Loaded(target: Word, cur: Word) | Done(target: Word)

  datatype Cell = Cell(state: Word, calls: seq<Call>)

  /** The next atomic step of call `i`. */
  function Step(s: Cell, i: nat): Cell
    requires i < |s.calls|
  {
    match s.calls[i]
    case Start(t) => s.(calls := s.calls[i := if t <= s.state then Done(t) else Loaded(t, s.state)])
    case Loaded(t, cur) =>
      if s.state == cur then Cell(t, s.calls[i := Done(t)]) else s.(calls := s.calls[i := Start(t)])
    case Done(_) => s
  }

  /** An interleaving: at every step, a call that has not returned. */
  ghost predicate Interleaving(s: Cell, schedule: seq<nat>)
    decreases |schedule|
  {
    schedule == [] ||
    (schedule[0] < |s.calls| && !s.calls[schedule[0]].Done? && Interleaving(Step(s, schedule[0]), schedule[1..]))
  }

  ghost function Run(s: Cell, schedule: seq<nat>): (r: Cell)
    requires Interleaving(s, schedule)
    ensures |r.calls| == |s.calls|
    decreases |schedule|
  {
    if schedule == [] then s else Run(Step(s, schedule[0]), schedule[1..])
  }

  ghost predicate Initial(s: Cell) {
    forall i :: 0 <= i < |s.calls| ==> s.calls[i].Start?
  }

  /** Returned calls are covered; a loaded value is below its target and no newer than the cell. */
  ghost predicate Consistent(s: Cell, first: Word) {
    && first <= s.state
    && (forall i :: 0 <= i < |s.calls| && s.calls[i].Done? ==> s.calls[i].target <= s.state)
    && (forall i :: 0 <= i < |s.calls| && s.calls[i].Loaded? ==> s.calls[i].cur < s.calls[i].target && s.calls[i].cur <= s.state)
    && (s.state == first || exists i :: 0 <= i < |s.calls| && s.calls[i].target == s.state)
  }

  ghost predicate SameTargets(a: Cell, b: Cell) {
    |a.calls| == |b.calls| && forall i :: 0 <= i < |a.calls| ==> a.calls[i].target == b.calls[i].target
  }

  lemma StepConsistent(s: Cell, i: nat, first: Word)
    requires i < |s.calls| && Consistent(s, first)
    ensures Consistent(Step(s, i), first) && s.state <= Step(s, i).state && SameTargets(s, Step(s, i))
  {
    var s' := Step(s, i);
    if s'.state == s.state {
      if s.state != first {
        var j :| 0 <= j < |s.calls| && s.calls[j].target == s.state;
        assert s'.calls[j].target == s'.state;
      }
    } else {
      assert s'.calls[i].target == s'.state;
    }
  }

  lemma {:induction false} RunConsistent(s: Cell, schedule: seq<nat>, first: Word)
    requires Interleaving(s, schedule) && Consistent(s, first)
    ensures Consistent(Run(s, schedule), first) && s.state <= Run(s, schedule).state && SameTargets(s, Run(s, schedule))
    decreases |schedule|
  {
    if schedule != [] {
      StepConsistent(s, schedule[0], first);
      RunConsistent(Step(s, schedule[0]), schedule[1..], first);
    }
  }

  /** `top` is the greatest of the first value and the targets. */
  ghost predicate Greatest(top: Word, first: Word, calls: seq<Call>) {
    && first <= top && (forall c :: c in calls ==> c.target <= top)
    && (top == first || exists c :: c in calls && c.target == top)
  }

  /** In every interleaving the floor never drops, and once all calls have returned it is the greatest value raised to. */
  lemma RaisesReachMaximum(s: Cell, schedule: seq<nat>)
    requires Initial(s) && Interleaving(s, schedule)
    ensures s.state <= Run(s, schedule).state
    ensures (forall c :: c in Run(s, schedule).calls ==> c.Done?) ==> Greatest(Run(s, schedule).state, s.state, s.calls)
  {
    RunConsistent(s, schedule, s.state);
    var end := Run(s, schedule);
    if forall c :: c in end.calls ==> c.Done? {
      forall c | c in s.calls ensures c.target <= end.state {
        var i :| 0 <= i < |s.calls| && s.calls[i] == c;
        assert end.calls[i] in end.calls;
      }
      if end.state != s.state {
        var i :| 0 <= i < |end.calls| && end.calls[i].target == end.state;
        assert s.calls[i] in s.calls && s.calls[i].target == end.state;
      }
    }
  }

  /** Any two moments of an interleaving: the later floor is at least the earlier one. */
  lemma {:induction false} FloorNeverDrops(s: Cell, schedule: seq<nat>, k: nat)
    requires Interleaving(s, schedule) && k <= |schedule| && Consistent(s, s.state)
    ensures Interleaving(s, schedule[..k]) && Run(s, schedule[..k]).state <= Run(s, schedule).state
    decreases k
  {
    if k == 0 {
      RunConsistent(s, schedule, s.state);
      assert schedule[..0] == [];
    } else {
      var next := Step(s, schedule[0]);
      StepConsistent(s, schedule[0], s.state);
      FloorNeverDrops(next, schedule[1..], k - 1);
      assert schedule[..k][1..] == schedule[1..][..k - 1];
    }
  }

  // ---------------------------------------------------------------- lock freedom

  /**
   Steps left to a call if nothing else moves, plus `weight` for not having returned: a
   load is followed by a swap; a swap that must fail, because the cell moved since the
   load, by another load.
   */
  ghost function Cost(c: Call, state: Word, weight: nat): nat {
    match c
    case Done(_) => 0
    case Start(_) => weight + 2
    case Loaded(_, cur) => if cur == state then weight + 1 else weight + 3
  }

  ghost function TotalCost(calls: seq<Call>, state: Word, weight: nat): nat {
    if calls == [] then 0 else TotalCost(calls[..|calls| - 1], state, weight) + Cost(calls[|calls| - 1], state, weight)
  }

  lemma {:induction false} CostOfUpdate(calls: seq<Call>, i: nat, c: Call, state: Word, weight: nat)
    requires i < |calls|
    ensures TotalCost(calls[i := c], state, weight) == TotalCost(calls, state, weight) - Cost(calls[i], state, weight) + Cost(c, state, weight)
  {
    var n := |calls| - 1;
    if i == n {
      assert calls[i := c][..n] == calls[..n];
    } else {
      assert calls[i := c][..n] == calls[..n][i := c];
      CostOfUpdate(calls[..n], i, c, state, weight);
    }
  }

  /** A swap makes other loads stale, at two steps each. */
  lemma {:induction false} CostOfSwap(calls: seq<Call>, state: Word, next: Word, weight: nat)
    ensures TotalCost(calls, next, weight) <= TotalCost(calls, state, weight) + 2 * |calls|
  {
    if calls != [] {
      CostOfSwap(calls[..|calls| - 1], state, next, weight);
    }
  }

  lemma StepCosts(s: Cell, i: nat, weight: nat)
    requires i < |s.calls| && !s.calls[i].Done? && weight == 2 * |s.calls|
    ensures TotalCost(Step(s, i).calls, Step(s, i).state, weight) < TotalCost(s.calls, s.state, weight)
  {
    var s' := Step(s, i);
    CostOfUpdate(s.calls, i, s'.calls[i], s.state, weight);
    if s'.state != s.state {
      CostOfSwap(s'.calls, s.state, s'.state, weight);
    }
  }

  lemma {:induction false} InitialCost(calls: seq<Call>, state: Word, weight: nat)
    requires forall i :: 0 <= i < |calls| ==> calls[i].Start?
    ensures TotalCost(calls, state, weight) == |calls| * (weight + 2)
  {
    if calls != [] {
      InitialCost(calls[..|calls| - 1], state, weight);
      assert |calls| * (weight + 2) == (|calls| - 1) * (weight + 2) + (weight + 2);
    }
  }

  lemma {:induction false} RunCosts(s: Cell, schedule: seq<nat>)
    requires Interleaving(s, schedule)
    ensures |schedule| <= TotalCost(s.calls, s.state, 2 * |s.calls|)
    decreases |schedule|
  {
    if schedule != [] {
      StepCosts(s, schedule[0], 2 * |s.calls|);
      RunCosts(Step(s, schedule[0]), schedule[1..]);
    }
  }

  /** Retries are bounded: n concurrent calls take at most n(2n+2) steps, whatever the interleaving. */
  lemma RaisesTerminate(s: Cell, schedule: seq<nat>)
    requires Initial(s) && Interleaving(s, schedule)
    ensures |schedule| <= |s.calls| * (2 * |s.calls| + 2)
  {
    RunCosts(s, schedule);
    InitialCost(s.calls, s.state, 2 * |s.calls|);
  }

  // ---------------------------------------------------------------- readers

  ghost function HeightOf(c: seq<Block>): Option<nat> {
    if c == [] then None else Some(|c| - 1)
  }

  /**
   State retention by number. A height that passes is one at which every historical
   read is exact (r <= n+1), provided the published floor covers what was deleted; in
   general that is ReadsExactIff. An unseeded floor falls back to the hash mapping,
   which needs no such proviso.
   */
  method RequireStateRetainedByBlockNumber(
    store: KeyValueStore, floor: Floor, n: nat,
    ghost c: seq<Block>, ghost ws: set<nat>, ghost newLayout: bool, ghost o: nat, ghost r: nat, ghost m: nat)
    returns (ok: bool)
    requires Retained(store.db, c, ws, newLayout, o, r, m) && store.height == HeightOf(c)
    ensures floor.state > 0 ==> (ok <==> floor.state <= n + 1 && n < |c|)
    ensures floor.state == 0 ==> (ok <==> m <= n < |c|)
    ensures floor.state == 0 || r <= floor.state ==> (ok ==> r <= n + 1)
  {
    hide LookedUp, MessagesKept, HistoryKept, UpdatesFrom, TransactionsFrom, WindowsFrom, CommitmentsFrom;
    var f := floor.Load();
    if f.Some? {
      return n >= f.value && store.height.Some? && n <= store.height.value;
    }
    assert n < |c| ==> (HashOf(c, n) in store.db.numbers <==> m <= n);
    return n in store.db.headers && store.db.headers[n].hash in store.db.numbers;
  }

  /** A historical read as readers make it: the retention test and the read, at one height. */
  method ReadRetained(
    store: KeyValueStore, floor: Floor, heights: Heights, newLayout: bool, head: Felt, k: HistoryKey, n: nat,
    ghost c: seq<Block>, ghost ws: set<nat>, ghost o: nat, ghost r: nat, ghost m: nat)
    returns (permitted: bool, v: Option<Felt>)
    requires Retained(store.db, c, ws, newLayout, o, r, m) && store.height == HeightOf(c) && Recorded(heights, Diffs(c))
    requires !newLayout ==> head == ValueAt(Diffs(c), k, |c|)
    ensures permitted <==> n < |c| && if floor.state > 0 then floor.state <= n + 1 else m <= n
    ensures permitted ==> v == Answer(Diffs(c), heights, newLayout, k, n, r)
    ensures permitted && (floor.state == 0 || r <= floor.state) ==> v == Answer(Diffs(c), heights, newLayout, k, n, 0)
    ensures permitted && (floor.state == 0 || r <= floor.state) && v.Some? ==> v.value == Get(AppliedUpTo(Diffs(c), n + 1), k)
    ensures !permitted ==> v.None?
  {
    hide Retained, Recorded, Answer, ValueAt, AppliedUpTo, Get;
    permitted := RequireStateRetainedByBlockNumber(store, floor, n, c, ws, newLayout, o, r, m);
    if !permitted {
      return false, None;
    }
    v := ReadState(store.db, heights, newLayout, head, k, n, c, ws, o, r, m);
  }

  /**
   A floor seeded after a restart is one below the oldest block. All reads it permits
   are exact if and only if no block from there up to the pruned history, whose updates
   are still stored, overwrites a value. There is no such block unless an interrupted
   prune has deleted history beyond the oldest block.
   */
  method NewRetentionFloor(
    db: Contents, ghost heights: Heights,
    ghost c: seq<Block>, ghost ws: set<nat>, ghost newLayout: bool, ghost o: nat, ghost r: nat, ghost m: nat)
    returns (floor: Floor)
    requires Retained(db, c, ws, newLayout, o, r, m) && o < |c|
    ensures fresh(floor) && floor.state == Max(o, 1)
    ensures ReadsExact(Diffs(c), heights, newLayout, floor.state, r) <==> NothingOverwritten(Diffs(c), heights, newLayout, Max(o, 1), r)
    ensures r <= Max(o, 1) ==> ReadsExact(Diffs(c), heights, newLayout, floor.state, r)
  {
    floor := new Floor();
    floor.Seed(db, c, ws, newLayout, o, r, m);
    hide Retained, ReadsExact, Overwrites;
    ReadsExactIff(Diffs(c), heights, newLayout, Max(o, 1), r);
  }
}
