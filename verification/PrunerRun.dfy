/**
 The pruning service over whole runs: head events and sample ticks, interleaved with
 blocks and L1 heads being stored, and every prune cancelled or stopped anywhere.

 Models pruner/pruner.go. Time is in nanoseconds, block timestamps in seconds.
 */
module PrunerRun {
  import opened Common
  import opened Words
  import opened Store
  import opened Pruning
  import opened BlockStorage
  import opened RetentionFloor

  const SECOND: nat := 1_000_000_000

  /** now - minAge as whole seconds. */
  function Cutoff(now: nat, minAge: nat): nat
    requires minAge <= now
  {
    (now - minAge) / SECOND
  }

  /** The block is at least minAge old. */
  predicate IsOld(b: Block, minAge: nat, now: nat) {
    b.timestamp * SECOND + minAge <= now
  }

  /** The block's second is not over before the window of the last minAge begins. */
  predicate IsYoung(b: Block, minAge: nat, now: nat) {
    now < (b.timestamp + 1) * SECOND + minAge
  }

  lemma YoungIff(b: Block, minAge: nat, now: nat)
    requires minAge <= now
    ensures IsYoung(b, minAge, now) <==> Cutoff(now, minAge) <= b.timestamp
    ensures !IsYoung(b, minAge, now) ==> IsOld(b, minAge, now)
  {
  }

  /** The first young block from `from` on, or the head if there is none. */
  ghost predicate FirstYoung(s: nat, from: nat, c: seq<Block>, minAge: nat, now: nat) {
    && from <= s < |c| && (forall n :: from <= n < s ==> !IsYoung(c[n], minAge, now))
    && (IsYoung(c[s], minAge, now) || s == |c| - 1)
  }

  ghost predicate TimeOrdered(c: seq<Block>) {
    forall i, j :: 0 <= i <= j < |c| ==> c[i].timestamp <= c[j].timestamp
  }

  // ---------------------------------------------------------------- binary search

  datatype Search = Found(block: nat) | NoBlockInWindow | MissingHeader

  /** The first block of [lower, upper] at or after the cutoff. */
  method FindOldestBlockAtOrAfter(headers: map<nat, Header>, lower: nat, upper: nat, cutoff: nat, ghost c: seq<Block>, ghost o: nat)
    returns (r: Search)
    requires TimeOrdered(c) && HeadersFrom(headers, c, o) && o <= lower + BLOCK_HASH_LAG && upper < |c|
    ensures r.Found? ==> lower <= r.block <= upper && cutoff <= c[r.block].timestamp
    ensures r.Found? ==> forall n :: lower <= n < r.block ==> c[n].timestamp < cutoff
    ensures r.NoBlockInWindow? ==> forall n :: lower <= n <= upper ==> c[n].timestamp < cutoff
    ensures !r.MissingHeader?
  {
    if lower > upper {
      return NoBlockInWindow;
    }
    var low, high := lower, upper + 1;
    while low < high
      invariant lower <= low <= high <= upper + 1
      invariant forall n :: lower <= n < low ==> c[n].timestamp < cutoff
      invariant high <= upper ==> cutoff <= c[high].timestamp
    {
      var mid := low + (high - low) / 2;
      if mid !in headers {
        return MissingHeader;
      }
      if headers[mid].timestamp < cutoff {
        low := mid + 1;
      } else {
        high := mid;
      }
    }
    r := if low > upper then NoBlockInWindow else Found(low);
  }

  // ---------------------------------------------------------------- the service

  /** One prune: the blocks [first, to) it may delete, and the clock and heads at that moment. */
  datatype Prune = Prune(first: nat, to: nat, now: nat, l1Head: nat, l2Head: nat)

  /** The prune is left to run. */
  ghost predicate Quiet(script: Script) {
    forall n :: !script.cancelled(n) && !script.stops(n)
  }

  /** The prune leaves numRetained blocks below both heads, and deletes no block younger than minAge. */
  ghost predicate IsSafe(p: Prune, c: seq<Block>, numRetained: nat, minAge: nat) {
    && p.to + numRetained <= Min(p.l1Head, p.l2Head) && p.to <= |c|
    && (minAge > 0 ==> forall n :: p.first <= n < p.to ==> IsOld(c[n], minAge, p.now))
  }

  ghost predicate WentIn(prunes: seq<Prune>, n: nat) {
    exists i :: 0 <= i < |prunes| && prunes[i].first <= n < prunes[i].to
  }

  /** Every prune so far was safe, and whatever is gone since the start went in one of them. */
  ghost predicate PrunesSafe(prunes: seq<Prune>, c: seq<Block>, r: nat, base: nat, numRetained: nat, minAge: nat) {
    && (forall i :: 0 <= i < |prunes| ==> IsSafe(prunes[i], c, numRetained, minAge))
    && (forall n :: base <= n < r ==> WentIn(prunes, n))
  }

  /** The sample is a retained block, and every block kept below it is old. */
  ghost predicate SampleSound(sampled: nat, o: nat, c: seq<Block>, minAge: nat, clock: nat) {
    minAge > 0 ==> o <= sampled && forall n :: o <= n < sampled && n < |c| ==> IsOld(c[n], minAge, clock)
  }

  /** The timestamp is no older than the window, measured from now. */
  predicate WithinTimeWindow(timestamp: nat, minAge: nat, now: nat)
    requires minAge <= now
  {
    timestamp >= Cutoff(now, minAge)
  }

  /** The chain as if nothing were pruned, the layout, and the numbers that say what is kept of it. */
  datatype Kept = Kept(c: seq<Block>, ws: set<nat>, newLayout: bool, o: nat, r: nat, m: nat) {
    ghost function Numbers(): Numbers {
      Pruning.Numbers(o, r, m)
    }
  }

  ghost predicate Holds(db: Contents, height: Option<nat>, k: Kept) {
    && Distinct(k.c) && TimeOrdered(k.c) && |k.c| < TWO_64 && height == HeightOf(k.c)
    && (if k.c == [] then k.o == 0 else k.o < |k.c|)
    && Retained(db, k.c, k.ws, k.newLayout, k.o, k.r, k.m)
  }

  lemma HoldsBounds(db: Contents, height: Option<nat>, k: Kept)
    requires Holds(db, height, k)
    ensures k.o <= k.r <= |k.c| < TWO_64 && height == HeightOf(k.c) && (if k.c == [] then k.o == 0 else k.o < |k.c|)
  {
  }

  /** A new store: every run may start from it. */
  lemma NewStoreHolds(newLayout: bool)
    ensures Holds(EmptyContents, None, Kept([], {}, newLayout, 0, 0, 0))
  {
    EmptyRetained(newLayout);
    hide Retained;
  }

  /** The published floor covers whatever this service has deleted beyond `base`. */
  ghost predicate Covered(r: nat, base: nat, state: nat) {
    r == base || r <= state
  }

  // ---------------------------------------------------------------- the service as a function

  datatype Settings = Settings(numRetained: nat, minAge: nat, l2HeadsPerPrune: nat)

  /** What the service and its store come to: the number of blocks stored, what is kept of them, and the service's own state. */
  datatype Service = Service(height: nat, kept: Numbers, l1Head: Option<nat>, pending: nat, sampled: nat, floor: nat)

  /** The first young block from `from` on, or the last one. */
  ghost function Sampled(c: seq<Block>, from: nat, minAge: nat, now: nat): (s: nat)
    requires from < |c|
    ensures FirstYoung(s, from, c, minAge, now)
    decreases |c| - from
  {
    if IsYoung(c[from], minAge, now) || from == |c| - 1 then from else Sampled(c, from + 1, minAge, now)
  }

  lemma FirstYoungOnce(s: nat, s': nat, from: nat, c: seq<Block>, minAge: nat, now: nat)
    requires FirstYoung(s, from, c, minAge, now) && FirstYoung(s', from, c, minAge, now)
    ensures s == s'
  {
  }

  /** The floor goes up first; the sample follows what is kept, unless the call fails or stops. */
  ghost function Pruned(s: Service, bound: nat, script: Script): Service {
    var (kept, how) := PrunedUpto(s.kept, s.height, bound, script);
    s.(kept := kept, floor := Max(s.floor, bound),
       sampled := if how.Completed? || how.Cancelled? then Max(s.sampled, kept.o) else s.sampled)
  }

  ghost function AfterBlock(s: Service, settings: Settings, b: Block, number: nat, now: nat, script: Script): Service {
    if s.l1Head.None? || s.l1Head.value <= number || number < settings.numRetained then s
    else if s.pending + 1 < settings.l2HeadsPerPrune then s.(pending := s.pending + 1)
    else
      var bound := number - settings.numRetained;
      Pruned(s.(pending := 0), if settings.minAge > 0 && IsYoung(b, settings.minAge, now) then Min(s.sampled, bound) else bound, script)
  }

  ghost function AfterL1Head(s: Service, settings: Settings, number: nat, script: Script): Service {
    if s.height <= number + 1 || number < settings.numRetained then s
    else
      var bound := number - settings.numRetained;
      Pruned(s.(pending := 0), if settings.minAge > 0 then Min(s.sampled, bound) else bound, script)
  }

  class Pruner {
    const numRetainedBlocks: nat
    const minAge: nat              // nanoseconds; 0 disables the age floor
    const l2HeadsPerPrune: nat
    const store: KeyValueStore
    const retentionFloor: Floor
    var pendingL2Heads: nat
    var latestSampledHeight: nat

    ghost const base: nat          // the oldest block with history when the service starts
    ghost var kept: Kept
    ghost var clock: nat
    ghost var prunes: seq<Prune>

    ghost predicate Valid()
      reads this, store, retentionFloor
    {
      && Holds(store.db, store.height, kept)
      && latestSampledHeight < Max(1, |kept.c|)
      && SampleSound(latestSampledHeight, kept.o, kept.c, minAge, clock)
      && PrunesSafe(prunes, kept.c, kept.r, base, numRetainedBlocks, minAge)
      && Covered(kept.r, base, retentionFloor.state)
    }

    ghost function State(): Service
      reads this, store, retentionFloor
    {
      Service(|kept.c|, kept.Numbers(), store.l1Head, pendingL2Heads, latestSampledHeight, retentionFloor.state)
    }

    ghost function Set(): Settings {
      Settings(numRetainedBlocks, minAge, l2HeadsPerPrune)
    }

    /** What a step may not undo. */
    twostate predicate Later()
      reads this, retentionFloor
    {
      && old(kept.o) <= kept.o && old(kept.r) <= kept.r && old(prunes) <= prunes && old(clock) <= clock
      && old(retentionFloor.state) <= retentionFloor.state && (old(kept.r <= retentionFloor.state) ==> kept.r <= retentionFloor.state)
      && kept.c == old(kept.c) && kept.newLayout == old(kept.newLayout)
    }

    /** A service over any store, also one that an interrupted prune has left behind. */
    constructor (
      store: KeyValueStore, floor: Floor, numRetainedBlocks: nat, minAge: nat, l2HeadsPerPrune: nat, now: nat,
      ghost kept: Kept)
      requires Holds(store.db, store.height, kept) && minAge <= now
      ensures this.store == store && retentionFloor == floor && this.numRetainedBlocks == numRetainedBlocks && this.minAge == minAge
      ensures Valid() && this.kept == kept && prunes == [] && base == kept.r && clock == now
      ensures pendingL2Heads == 0 && this.l2HeadsPerPrune == l2HeadsPerPrune
      ensures if minAge > 0 && kept.c != [] then FirstYoung(latestSampledHeight, kept.o, kept.c, minAge, now) else latestSampledHeight == 0
    {
      hide Holds;
      this.store, this.retentionFloor := store, floor;
      this.numRetainedBlocks, this.minAge, this.l2HeadsPerPrune := numRetainedBlocks, minAge, l2HeadsPerPrune;
      this.pendingL2Heads, this.latestSampledHeight := 0, 0;
      this.kept, this.base, this.clock, this.prunes := kept, kept.r, now, [];
      new;
      if minAge > 0 {
        SeedFloor(now);
      }
    }

    /** The oldest retained block, as the start of the first search, and that search. */
    method SeedFloor(now: nat)
      requires Holds(store.db, store.height, kept) && Covered(kept.r, base, retentionFloor.state)
      requires PrunesSafe(prunes, kept.c, kept.r, base, numRetainedBlocks, minAge)
      requires latestSampledHeight == 0 && 0 < minAge <= now && clock == now
      modifies this`latestSampledHeight, this`clock
      ensures Valid() && clock == now
      ensures if kept.c != [] then FirstYoung(latestSampledHeight, kept.o, kept.c, minAge, now) else latestSampledHeight == 0
    {
      hide Holds, PrunesSafe;
      HoldsBounds(store.db, store.height, kept);
      OldestIsFirst(store.db, store.height, kept);
      var oldest := OldestRetainedBlock(store.db.commitments);
      if oldest.None? {
        return;
      }
      latestSampledHeight := oldest.value;
      var ok := SampleHeight(now);
    }

    /** A sample tick. No header that the search reads is missing. */
    method SampleHeight(now: nat) returns (ok: bool)
      requires Valid() && 0 < minAge <= now && clock <= now
      modifies this`latestSampledHeight, this`clock
      ensures Valid() && ok && clock == now
      ensures if kept.c != [] then FirstYoung(latestSampledHeight, old(latestSampledHeight), kept.c, minAge, now)
              else latestSampledHeight == old(latestSampledHeight)
    {
      hide Holds, PrunesSafe, TimeOrdered, HeadersFrom;
      HoldsBounds(store.db, store.height, kept);
      clock := now;
      if store.height.None? {
        return true;
      }
      HeadersKept(store.db, store.height, kept);
      forall n | 0 <= n < |kept.c| ensures IsYoung(kept.c[n], minAge, now) <==> Cutoff(now, minAge) <= kept.c[n].timestamp {
        YoungIff(kept.c[n], minAge, now);
      }
      var found := FindOldestBlockAtOrAfter(
        store.db.headers, latestSampledHeight, store.height.value, Cutoff(now, minAge), kept.c, kept.o);
      ok := true;
      match found {
        case NoBlockInWindow => latestSampledHeight := store.height.value;
        case Found(block) => latestSampledHeight := block;
        case MissingHeader => ok := false;
      }
    }

    /** The lower of the two floors. */
    method ApplyTimeFloor(standardFloor: nat) returns (f: nat)
      ensures f <= standardFloor && (minAge > 0 ==> f <= latestSampledHeight)
      ensures f == standardFloor || (minAge > 0 && f == latestSampledHeight)
    {
      f := if minAge == 0 then standardFloor else Min(latestSampledHeight, standardFloor);
    }

    /**
     Raises the floor, then deletes. The bound must be safe at this moment; then at
     every point at which the process may stop the floor covers everything deleted.
     */
    method PruneBelow(oldestBlockToKeep: nat, now: nat, script: Script)
      requires Valid() && clock <= now && store.l1Head.Some? && kept.c != []
      requires IsSafe(Prune(kept.o, oldestBlockToKeep, now, store.l1Head.value, |kept.c| - 1), kept.c, numRetainedBlocks, minAge)
      modifies this`latestSampledHeight, this`kept, this`clock, this`prunes, store`db, retentionFloor
      ensures Valid() && Later() && clock == now
      ensures prunes == old(prunes) + [Prune(old(kept.o), oldestBlockToKeep, now, store.l1Head.value, |kept.c| - 1)]
      ensures kept.o <= Max(old(kept.o), oldestBlockToKeep) && kept.r <= Max(old(kept.r), oldestBlockToKeep)
      ensures Quiet(script) ==> kept.o == Max(old(kept.o), oldestBlockToKeep)
      ensures retentionFloor.state == Max(old(retentionFloor.state), oldestBlockToKeep)
      ensures minAge > 0 ==> latestSampledHeight == Max(old(latestSampledHeight), kept.o)
      ensures State() == Pruned(old(State()), oldestBlockToKeep, script)
    {
      hide Holds, PrunesSafe, Reached, WrittenNumbers, SampleSound;
      HoldsBounds(store.db, store.height, kept);
      if oldestBlockToKeep > 0 {
        retentionFloor.RaiseTo(oldestBlockToKeep - 1);
      }
      ghost var before, entry := kept, Prune(kept.o, oldestBlockToKeep, now, store.l1Head.value, |kept.c| - 1);
      var oldestKept;
      oldestKept, kept := CallPruneUpto(store, oldestBlockToKeep, script, kept);
      SampleFollows(latestSampledHeight, before.o, kept.o, kept.c, minAge, clock, now);
      clock := now;
      if oldestKept.Some? {
        latestSampledHeight := Max(latestSampledHeight, oldestKept.value);
      }
      prunes := prunes + [entry];
      LogExtends(old(prunes), entry, kept.c, base, before.r, kept.r, numRetainedBlocks, minAge);
    }

    /** An L2 head: drives the floor while L2 is behind L1. */
    method OnNewBlock(number: nat, timestamp: nat, now: nat, script: Script)
      requires Valid() && number < |kept.c| && timestamp == kept.c[number].timestamp && clock <= now && minAge <= now
      modifies this`pendingL2Heads, this`latestSampledHeight, this`kept, this`clock, this`prunes, store`db, retentionFloor
      ensures Valid() && Later() && clock <= now
      ensures store.l1Head.None? || store.l1Head.value <= number || number < numRetainedBlocks ==>
                store.db == old(store.db) && prunes == old(prunes) && pendingL2Heads == old(pendingL2Heads)
      ensures store.l1Head.Some? && number < store.l1Head.value && numRetainedBlocks <= number ==>
                if old(pendingL2Heads) + 1 < l2HeadsPerPrune then
                  store.db == old(store.db) && prunes == old(prunes) && pendingL2Heads == old(pendingL2Heads) + 1
                else
                  && pendingL2Heads == 0 && |prunes| == |old(prunes)| + 1
                  && prunes[|prunes| - 1].to ==
                       (if minAge > 0 && IsYoung(kept.c[number], minAge, now)
                        then Min(old(latestSampledHeight), number - numRetainedBlocks) else number - numRetainedBlocks)
      ensures Quiet(script) && |prunes| > |old(prunes)| ==> kept.o == Max(old(kept.o), prunes[|prunes| - 1].to)
      ensures |prunes| > |old(prunes)| ==> retentionFloor.state == Max(old(retentionFloor.state), prunes[|prunes| - 1].to)
      ensures minAge > 0 && |prunes| > |old(prunes)| ==> latestSampledHeight == Max(old(latestSampledHeight), kept.o)
      ensures |prunes| == |old(prunes)| ==>
                latestSampledHeight == old(latestSampledHeight) && retentionFloor.state == old(retentionFloor.state)
      ensures State() == AfterBlock(old(State()), Set(), kept.c[number], number, now, script)
    {
      hide Holds, PrunesSafe, Pruned;
      HoldsBounds(store.db, store.height, kept);
      if store.l1Head.None? {
        return;
      }
      if store.l1Head.value <= number || number < numRetainedBlocks {
        return;
      }
      pendingL2Heads := pendingL2Heads + 1;
      if pendingL2Heads < l2HeadsPerPrune {
        return;
      }
      pendingL2Heads := 0;
      YoungIff(kept.c[number], minAge, now);
      var standardFloor := number - numRetainedBlocks;
      var oldestToKeep := standardFloor;
      if minAge > 0 && WithinTimeWindow(timestamp, minAge, now) {
        oldestToKeep := ApplyTimeFloor(standardFloor);
      } else if minAge > 0 {
        BypassSafe(store.db, store.height, kept, number, minAge, now);
      }
      PruneBelow(oldestToKeep, now, script);
    }

    /** An L1 head: drives the floor while L1 is behind L2. */
    method OnNewL1Head(number: nat, now: nat, script: Script)
      requires Valid() && store.l1Head.Some? && number <= store.l1Head.value && clock <= now
      modifies this`pendingL2Heads, this`latestSampledHeight, this`kept, this`clock, this`prunes, store`db, retentionFloor
      ensures Valid() && Later() && clock <= now
      ensures kept.c == [] || |kept.c| - 1 <= number || number < numRetainedBlocks ==>
                store.db == old(store.db) && prunes == old(prunes) && pendingL2Heads == old(pendingL2Heads)
      ensures number + 1 < |kept.c| && numRetainedBlocks <= number ==>
                && pendingL2Heads == 0 && |prunes| == |old(prunes)| + 1
                && prunes[|prunes| - 1].to ==
                     (if minAge > 0 then Min(old(latestSampledHeight), number - numRetainedBlocks) else number - numRetainedBlocks)
      ensures Quiet(script) && |prunes| > |old(prunes)| ==> kept.o == Max(old(kept.o), prunes[|prunes| - 1].to)
      ensures |prunes| > |old(prunes)| ==> retentionFloor.state == Max(old(retentionFloor.state), prunes[|prunes| - 1].to)
      ensures minAge > 0 && |prunes| > |old(prunes)| ==> latestSampledHeight == Max(old(latestSampledHeight), kept.o)
      ensures |prunes| == |old(prunes)| ==>
                latestSampledHeight == old(latestSampledHeight) && retentionFloor.state == old(retentionFloor.state)
      ensures State() == AfterL1Head(old(State()), Set(), number, script)
    {
      hide Holds, PrunesSafe, Pruned;
      HoldsBounds(store.db, store.height, kept);
      if store.height.None? {
        return;
      }
      if number >= store.height.value || number < numRetainedBlocks {
        return;
      }
      pendingL2Heads := 0;
      var oldestBlockToKeep := ApplyTimeFloor(number - numRetainedBlocks);
      PruneBelow(oldestBlockToKeep, now, script);
    }
  }

  // ---------------------------------------------------------------- runs

  /** Head events arrive after the head they announce is stored; later heads may be stored by then. */
  datatype Event =
    | BlockStored
    | L1HeadStored(number: nat)
    | NewBlock(number: nat, script: Script)
    | NewL1Head(number: nat, script: Script)
    | Tick

  datatype Timed = Timed(now: nat, event: Event)

  /** One event. A head event that announces nothing stored is none. */
  ghost function Handled(s: Service, settings: Settings, chain: seq<Block>, timed: Timed): Service
    requires s.height <= |chain|
  {
    match timed.event
    case BlockStored => if s.height < |chain| then s.(height := s.height + 1) else s
    case L1HeadStored(number) => s.(l1Head := Some(if s.l1Head.None? then number else Max(s.l1Head.value, number)))
    case NewBlock(number, script) =>
      if number < s.height then AfterBlock(s, settings, chain[number], number, timed.now, script) else s
    case NewL1Head(number, script) =>
      if s.l1Head.Some? && number <= s.l1Head.value then AfterL1Head(s, settings, number, script) else s
    case Tick =>
      if settings.minAge > 0 && s.sampled < s.height
      then s.(sampled := Sampled(chain[..s.height], s.sampled, settings.minAge, timed.now)) else s
  }

  ghost function HandledAll(s: Service, settings: Settings, chain: seq<Block>, events: seq<Timed>): (r: Service)
    requires s.height <= |chain|
    ensures r.height <= |chain|
  {
    if events == [] then s
    else Handled(HandledAll(s, settings, chain, events[..|events| - 1]), settings, chain, events[|events| - 1])
  }

  /** The next block of the chain is stored. */
  method StoreNext(p: Pruner, chain: seq<Block>, newLayout: bool)
    requires p.Valid() && p.kept.c <= chain && newLayout == p.kept.newLayout
    requires Distinct(chain) && TimeOrdered(chain) && |chain| < TWO_64
    modifies p`kept, p.store`db, p.store`height
    ensures p.Valid() && old(p.kept.c) <= p.kept.c <= chain
    ensures p.kept == old(p.kept).(c := p.kept.c, ws := p.kept.ws)
    ensures old(p.kept.c) < chain ==> |p.kept.c| == |old(p.kept.c)| + 1
  {
    hide Distinct, TimeOrdered, Holds, PrunesSafe;
    ghost var k := p.kept;
    HoldsBounds(p.store.db, p.store.height, k);
    p.kept := AppendBlock(p.store, chain, newLayout, k);
    SafeOnLongerChain(p.prunes, k.c, p.kept.c, k.r, p.base, p.numRetainedBlocks, p.minAge);
  }

  method AppendBlock(store: KeyValueStore, chain: seq<Block>, newLayout: bool, ghost kept: Kept) returns (ghost kept': Kept)
    requires Holds(store.db, store.height, kept) && kept.c <= chain && newLayout == kept.newLayout
    requires Distinct(chain) && TimeOrdered(chain) && |chain| < TWO_64
    modifies store`db, store`height
    ensures Holds(store.db, store.height, kept') && kept' == kept.(c := kept'.c, ws := kept'.ws) && kept.c <= kept'.c <= chain
    ensures kept.c < chain ==> |kept'.c| == |kept.c| + 1
  {
    hide Retained, Distinct, TimeOrdered;
    kept' := kept;
    var n := if store.height.None? then 0 else store.height.value + 1;
    if n >= |chain| {
      return;
    }
    assert kept.c == chain[..n] && chain[..n] + [chain[n]] == chain[..n + 1];
    PrefixOf(chain, n + 1);
    StoreBlock(store, chain[..n], chain[n], newLayout, kept.ws, kept.o, kept.r, kept.m);
    kept' := kept.(c := chain[..n + 1], ws := kept.ws + CompletedWindows(n));
  }

  lemma PrefixOf(chain: seq<Block>, n: nat)
    requires Distinct(chain) && TimeOrdered(chain) && n <= |chain|
    ensures Distinct(chain[..n]) && TimeOrdered(chain[..n])
  {
    DistinctPrefix(chain, n);
    hide Distinct;
  }

  lemma SafeOnLongerChain(prunes: seq<Prune>, c: seq<Block>, c': seq<Block>, r: nat, base: nat, numRetained: nat, minAge: nat)
    requires PrunesSafe(prunes, c, r, base, numRetained, minAge) && c <= c'
    ensures PrunesSafe(prunes, c', r, base, numRetained, minAge)
  {
  }

  /**
   Every run: with a clock that never goes back and a chain with ordered timestamps,
   the service stays valid. So every prune of the run, wherever it was cancelled or
   stopped, was safe at its moment; everything gone went in one of them; the published
   floor never dropped and covers everything the run deleted, and everything deleted if
   it did so at first; and the store holds exactly what the three numbers say.
   */
  method Run(p: Pruner, chain: seq<Block>, newLayout: bool, events: seq<Timed>)
    requires p.Valid() && p.kept.c <= chain && newLayout == p.kept.newLayout
    requires Distinct(chain) && TimeOrdered(chain) && |chain| < TWO_64
    requires forall i :: 0 <= i < |events| ==> p.clock <= events[i].now && p.minAge <= events[i].now
    requires forall i, j :: 0 <= i < j < |events| ==> events[i].now <= events[j].now
    modifies p, p.store, p.retentionFloor
    ensures p.Valid() && old(p.kept.c) <= p.kept.c <= chain
    ensures old(p.prunes) <= p.prunes && old(p.kept.o) <= p.kept.o && old(p.kept.r) <= p.kept.r
    ensures old(p.retentionFloor.state) <= p.retentionFloor.state
    ensures old(p.kept.r <= p.retentionFloor.state) ==> p.kept.r <= p.retentionFloor.state
    ensures p.State() == HandledAll(old(p.State()), p.Set(), chain, events)
  {
    hide Distinct, TimeOrdered, Holds, PrunesSafe, SampleSound, Handled;
    for i := 0 to |events|
      invariant p.Valid() && old(p.kept.c) <= p.kept.c <= chain && newLayout == p.kept.newLayout
      invariant i < |events| ==> p.clock <= events[i].now
      invariant old(p.prunes) <= p.prunes && old(p.kept.o) <= p.kept.o && old(p.kept.r) <= p.kept.r
      invariant old(p.retentionFloor.state) <= p.retentionFloor.state
      invariant old(p.kept.r <= p.retentionFloor.state) ==> p.kept.r <= p.retentionFloor.state
      invariant p.State() == HandledAll(old(p.State()), p.Set(), chain, events[..i])
    {
      assert events[..i + 1][..i] == events[..i];
      Dispatch(p, chain, newLayout, events[i]);
    }
    assert events[..|events|] == events;
  }

  method Dispatch(p: Pruner, chain: seq<Block>, newLayout: bool, timed: Timed)
    requires p.Valid() && p.kept.c <= chain && newLayout == p.kept.newLayout
    requires Distinct(chain) && TimeOrdered(chain) && |chain| < TWO_64 && p.clock <= timed.now && p.minAge <= timed.now
    modifies p, p.store, p.retentionFloor
    ensures p.Valid() && old(p.kept.c) <= p.kept.c <= chain && newLayout == p.kept.newLayout && p.clock <= timed.now
    ensures old(p.prunes) <= p.prunes && old(p.kept.o) <= p.kept.o && old(p.kept.r) <= p.kept.r
    ensures old(p.retentionFloor.state) <= p.retentionFloor.state
    ensures old(p.kept.r <= p.retentionFloor.state) ==> p.kept.r <= p.retentionFloor.state
    ensures p.State() == Handled(old(p.State()), p.Set(), chain, timed)
  {
    hide Distinct, TimeOrdered, Holds, PrunesSafe, SampleSound, Pruned, Sampled, FirstYoung, AfterBlock, AfterL1Head;
    HoldsBounds(p.store.db, p.store.height, p.kept);
    var now := timed.now;
    assert p.kept.c == chain[..|p.kept.c|];
    match timed.event {
      case BlockStored => StoreNext(p, chain, newLayout);
      case L1HeadStored(number) =>
        p.store.l1Head := Some(if p.store.l1Head.None? then number else Max(p.store.l1Head.value, number));
      case NewBlock(number, script) =>
        if p.store.height.Some? && number <= p.store.height.value {
          p.OnNewBlock(number, chain[number].timestamp, now, script);
        }
      case NewL1Head(number, script) =>
        if p.store.l1Head.Some? && number <= p.store.l1Head.value {
          p.OnNewL1Head(number, now, script);
        }
      case Tick =>
        if p.minAge > 0 {
          ghost var before := p.latestSampledHeight;
          var ok := p.SampleHeight(now);
          if p.kept.c != [] {
            FirstYoungOnce(p.latestSampledHeight, Sampled(p.kept.c, before, p.minAge, now), before, p.kept.c, p.minAge, now);
          }
        }
    }
  }

  /** PruneUpto, with the new numbers: an oldest kept block unless the call failed or stopped. */
  method CallPruneUpto(store: KeyValueStore, endExclusive: nat, script: Script, ghost kept: Kept)
    returns (oldestKept: Option<nat>, ghost kept': Kept)
    requires Holds(store.db, store.height, kept) && kept.c != [] && endExclusive < |kept.c|
    modifies store`db
    ensures Holds(store.db, store.height, kept')
    ensures kept'.c == kept.c && kept'.newLayout == kept.newLayout
    ensures kept.o <= kept'.o <= Max(kept.o, endExclusive) && kept.r <= kept'.r <= Max(kept.r, endExclusive)
    ensures if oldestKept.Some? then oldestKept.value == kept'.o else kept'.o == kept.o
    ensures Quiet(script) ==> kept'.o == Max(kept.o, endExclusive)
    ensures var (after, how) := PrunedUpto(kept.Numbers(), |kept.c|, endExclusive, script);
            kept'.Numbers() == after && (oldestKept.Some? <==> how.Completed? || how.Cancelled?)
  {
    hide Retained, Distinct, TimeOrdered, Reached, WrittenNumbers;
    assert script == Script(script.cancelled, script.full, script.stops);
    RetainedBounds(store.db, kept.c, kept.ws, kept.newLayout, kept.o, kept.r, kept.m);
    var blocksPruned, oldest, status, flushed, mapped := PruneUpto(
      store, endExclusive, script.cancelled, script.full, script.stops,
      kept.c, kept.ws, kept.newLayout, kept.o, kept.r, kept.m);
    kept' := kept;
    if status.Crashed? || status.Failed? {
      kept' := kept.(r := Max(kept.r, flushed), m := mapped);
      return None, kept';
    }
    if kept.o < endExclusive {
      kept' := kept.(o := oldest, r := Max(kept.r, oldest), m := MapFloor(kept.m, oldest, endExclusive));
    }
    oldestKept := Some(oldest);
  }

  // ---------------------------------------------------------------- small steps

  lemma OldestIsFirst(db: Contents, height: Option<nat>, k: Kept)
    requires Holds(db, height, k)
    ensures forall n :: n in db.commitments ==> k.o <= n < |k.c|
    ensures k.o < |k.c| ==> k.o in db.commitments
  {
    hide HashKeyed, HeadersFrom, UpdatesFrom, TransactionsFrom, WindowsFrom, Distinct;
  }

  lemma HeadersKept(db: Contents, height: Option<nat>, k: Kept)
    requires Holds(db, height, k)
    ensures HeadersFrom(db.headers, k.c, k.o) && TimeOrdered(k.c)
  {
    hide HashKeyed, HeadersFrom, CommitmentsFrom, UpdatesFrom, TransactionsFrom, WindowsFrom, Distinct, TimeOrdered;
  }

  /** A block older than the window: everything up to it is old. */
  lemma BypassSafe(db: Contents, height: Option<nat>, k: Kept, number: nat, minAge: nat, now: nat)
    requires Holds(db, height, k) && number < |k.c| && minAge <= now && !WithinTimeWindow(k.c[number].timestamp, minAge, now)
    ensures forall n :: 0 <= n <= number ==> IsOld(k.c[n], minAge, now)
  {
    hide Retained, Distinct;
  }

  lemma SampleFollows(sampled: nat, o: nat, o': nat, c: seq<Block>, minAge: nat, clock: nat, now: nat)
    requires SampleSound(sampled, o, c, minAge, clock) && o <= o' && clock <= now
    ensures SampleSound(Max(sampled, o'), o', c, minAge, now)
    ensures minAge > 0 ==> o <= sampled
    ensures o' == o ==> SampleSound(sampled, o, c, minAge, now)
  {
  }

  lemma LogExtends(
    prunes: seq<Prune>, entry: Prune, c: seq<Block>, base: nat, r: nat, r': nat, numRetained: nat, minAge: nat)
    requires PrunesSafe(prunes, c, r, base, numRetained, minAge) && IsSafe(entry, c, numRetained, minAge)
    requires entry.first <= r && r' <= Max(r, entry.to)
    ensures PrunesSafe(prunes + [entry], c, r', base, numRetained, minAge)
  {
    var all := prunes + [entry];
    forall n | base <= n < r' ensures WentIn(all, n) {
      if n < r {
        assert WentIn(prunes, n);
        var i :| 0 <= i < |prunes| && prunes[i].first <= n < prunes[i].to;
        assert all[i] == prunes[i];
      } else {
        assert all[|prunes|] == entry;
      }
    }
  }
}
