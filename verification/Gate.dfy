/**
 The admission gate: requests enter through a counter and a semaphore, each operation
 on which is one atomic step, in any interleaving.

 Models jsonrpc/gate.go.
 */
module Gate {
  import opened Common
  import opened Words

  /** Where a request is between its atomic steps. */
  datatype Phase =
    | Idle(tries: bool)          // before Acquire, or before TryAcquire
    | Waiting                    // counted by Acquire and admitted, not yet holding a slot
    | Trying                     // counted by TryAcquire
    | Running(tried: bool)       // holding a slot
    | Releasing                  // slot given back, still counted
    | Cancelling                 // cancelled while waiting, still counted
    | Rejecting                  // turned away, still counted
    | Refusing                   // turned away, not yet in the rejection counter
    | Refused
    | Finished
  {
    predicate IsCounted() {
      Waiting? || Trying? || Running? || Releasing? || Cancelling? || Rejecting?
    }

    /** Admitted through Acquire, waiting or running. */
    predicate IsAdmitted() {
      Waiting? || (Running? && !tried)
    }

    predicate IsOver() {
      Refused? || Finished?
    }
  }

  datatype State = State(
    maxConcurrent: nat, maxRequests: nat,
    slots: nat, activeRequests: nat, rejected: nat,
    requests: seq<Phase>)

  /** The sum of the two limits, or the largest word if that overflows. */
  method NewGate(maxConcurrent: Word, maxQueue: Word, requests: seq<Phase>) returns (g: State)
    requires |requests| < TWO_64 && forall i :: 0 <= i < |requests| ==> requests[i].Idle?
    ensures g.maxConcurrent == maxConcurrent
    ensures g.maxRequests == if maxConcurrent + maxQueue < TWO_64 then maxConcurrent + maxQueue else MAX_WORD
    ensures Consistent(g) && g.requests == requests
  {
    var maxRequests: Word := (maxQueue + maxConcurrent) % TWO_64;
    if maxRequests < maxQueue {
      maxRequests := MAX_WORD;
    }
    g := State(maxConcurrent, maxRequests, 0, 0, 0, requests);
    NoneCounted(requests, Counted);
    NoneCounted(requests, Holding);
    NoneCounted(requests, Admitted);
    NoneCounted(requests, Turned);
  }

  // ---------------------------------------------------------------- steps

  /** A step of request `i` is possible. A waiting request can be cancelled at any time, or take a free slot. */
  predicate Enabled(g: State, i: nat, cancelled: bool) {
    && i < |g.requests| && !g.requests[i].IsOver()
    && (g.requests[i].Waiting? && !cancelled ==> g.slots < g.maxConcurrent)
    && (g.requests[i].Running? ==> 0 < g.slots)
    && (g.requests[i].IsCounted() ==> 0 < g.activeRequests)
  }

  /** `cancelled` is what the request finds its context to be, where it looks. */
  function Step(g: State, i: nat, cancelled: bool): State
    requires Enabled(g, i, cancelled)
  {
    match g.requests[i]
    case Idle(tries) =>
      if !tries && cancelled then To(g, i, Finished)
      else
        var counted := g.(activeRequests := g.activeRequests + 1);
        To(counted, i, if tries then Trying else if counted.activeRequests > g.maxRequests then Rejecting else Waiting)
    case Waiting =>
      if cancelled then To(g, i, Cancelling) else To(g.(slots := g.slots + 1), i, Running(false))
    case Trying =>
      if g.slots < g.maxConcurrent then To(g.(slots := g.slots + 1), i, Running(true)) else To(g, i, Rejecting)
    case Running(_) => To(g.(slots := g.slots - 1), i, Releasing)
    case Releasing => To(Uncount(g), i, Finished)
    case Cancelling => To(Uncount(g), i, Finished)
    case Rejecting => To(Uncount(g), i, Refusing)
    case Refusing => To(g.(rejected := g.rejected + 1), i, Refused)
    case Refused => g
    case Finished => g
  }

  function To(g: State, i: nat, phase: Phase): State
    requires i < |g.requests|
  {
    g.(requests := g.requests[i := phase])
  }

  function Uncount(g: State): State
    requires 0 < g.activeRequests
  {
    g.(activeRequests := g.activeRequests - 1)
  }

  // ---------------------------------------------------------------- invariant

  const Counted: Phase -> bool := (p: Phase) => p.IsCounted()
  const Holding: Phase -> bool := (p: Phase) => p.Running?
  const Admitted: Phase -> bool := (p: Phase) => p.IsAdmitted()
  const Present: Phase -> bool := (p: Phase) => p.Waiting? || p.Running?
  const Tried: Phase -> bool := (p: Phase) => p.Running? && p.tried
  const Turned: Phase -> bool := (p: Phase) => p.Refused?

  ghost function Count(requests: seq<Phase>, which: Phase -> bool): (n: nat)
    ensures n <= |requests|
  {
    if requests == [] then 0
    else Count(requests[..|requests| - 1], which) + if which(requests[|requests| - 1]) then 1 else 0
  }

  /**
   The semaphore holds the running requests, within its capacity; the counter holds
   the requests in flight, waiting and running; Acquire admits no more than the limit.
   */
  ghost predicate Consistent(g: State) {
    && |g.requests| < TWO_64
    && g.slots == Count(g.requests, Holding) <= g.maxConcurrent
    && g.activeRequests == Count(g.requests, Counted)
    && Count(g.requests, Admitted) <= g.maxRequests
    && g.rejected == Count(g.requests, Turned)
  }

  lemma {:induction false} NoneCounted(requests: seq<Phase>, which: Phase -> bool)
    requires forall i :: 0 <= i < |requests| ==> !which(requests[i])
    ensures Count(requests, which) == 0
  {
    if requests != [] {
      NoneCounted(requests[..|requests| - 1], which);
    }
  }

  lemma {:induction false} CountUpdate(requests: seq<Phase>, i: nat, phase: Phase, which: Phase -> bool)
    requires i < |requests|
    ensures Count(requests[i := phase], which) + (if which(requests[i]) then 1 else 0)
         == Count(requests, which) + (if which(phase) then 1 else 0)
  {
    var n := |requests| - 1;
    if i == n {
      assert requests[i := phase][..n] == requests[..n];
    } else {
      assert requests[i := phase][..n] == requests[..n][i := phase];
      CountUpdate(requests[..n], i, phase, which);
    }
  }

  lemma {:induction false} CountWithin(requests: seq<Phase>, part: Phase -> bool, whole: Phase -> bool)
    requires forall p :: part(p) ==> whole(p)
    ensures Count(requests, part) <= Count(requests, whole)
  {
    if requests != [] {
      CountWithin(requests[..|requests| - 1], part, whole);
    }
  }

  /** Every step of every request keeps the invariant. */
  lemma StepConsistent(g: State, i: nat, cancelled: bool)
    requires Consistent(g) && Enabled(g, i, cancelled)
    ensures Consistent(Step(g, i, cancelled))
  {
    var g' := Step(g, i, cancelled);
    var phase := g'.requests[i];
    assert g'.requests == g.requests[i := phase];
    CountUpdate(g.requests, i, phase, Holding);
    CountUpdate(g.requests, i, phase, Counted);
    CountUpdate(g.requests, i, phase, Admitted);
    CountUpdate(g.requests, i, phase, Turned);
    CountWithin(g'.requests, Admitted, Counted);
  }

  lemma {:induction false} CountPositive(requests: seq<Phase>, i: nat, which: Phase -> bool)
    requires i < |requests| && which(requests[i])
    ensures 0 < Count(requests, which)
  {
    if i < |requests| - 1 {
      CountPositive(requests[..|requests| - 1], i, which);
    }
  }

  // ---------------------------------------------------------------- runs

  ghost predicate Interleaving(g: State, schedule: seq<(nat, bool)>)
    decreases |schedule|
  {
    schedule == [] ||
    (Enabled(g, schedule[0].0, schedule[0].1) && Interleaving(Step(g, schedule[0].0, schedule[0].1), schedule[1..]))
  }

  ghost function Run(g: State, schedule: seq<(nat, bool)>): State
    requires Interleaving(g, schedule)
    decreases |schedule|
  {
    if schedule == [] then g else Run(Step(g, schedule[0].0, schedule[0].1), schedule[1..])
  }

  /**
   In every interleaving: running requests stay within maxConcurrent; those admitted
   through Acquire, waiting or running, within maxRequests; the counter is exact; and
   at rest both the counter and the semaphore are empty.
   */
  lemma {:induction false} Safe(g: State, schedule: seq<(nat, bool)>)
    requires Consistent(g) && Interleaving(g, schedule)
    ensures var end := Run(g, schedule);
            && Consistent(end) && end.maxConcurrent == g.maxConcurrent && end.maxRequests == g.maxRequests
            && |end.requests| == |g.requests|
            && Count(end.requests, Holding) <= g.maxConcurrent && Count(end.requests, Admitted) <= g.maxRequests
            && ((forall i :: 0 <= i < |end.requests| ==> end.requests[i].IsOver()) ==> end.activeRequests == 0 && end.slots == 0)
    decreases |schedule|
  {
    if schedule == [] {
      if forall i :: 0 <= i < |g.requests| ==> g.requests[i].IsOver() {
        NoneCounted(g.requests, Counted);
        NoneCounted(g.requests, Holding);
      }
    } else {
      StepConsistent(g, schedule[0].0, schedule[0].1);
      Safe(Step(g, schedule[0].0, schedule[0].1), schedule[1..]);
    }
  }

  /** The counter never goes below zero and no slot is taken back that is not there: only a full semaphore holds a request up. */
  lemma NeverUnderflows(g: State, i: nat, cancelled: bool)
    requires Consistent(g) && i < |g.requests|
    ensures Enabled(g, i, cancelled) <==>
            !g.requests[i].IsOver() && (g.requests[i].Waiting? && !cancelled ==> g.slots < g.maxConcurrent)
  {
    if g.requests[i].IsCounted() {
      CountPositive(g.requests, i, Counted);
    }
    if g.requests[i].Running? {
      CountPositive(g.requests, i, Holding);
    }
  }

  /**
   When a request is turned away: by Acquire, exactly if the requests in flight, waiting
   and running already reach the limit; by TryAcquire, exactly if every slot is taken.
   And a request turned away is not admitted later, but counted as rejected.
   */
  lemma TurnedAwayIff(g: State, i: nat)
    requires Consistent(g) && i < |g.requests| && Enabled(g, i, false)
    ensures g.requests[i] == Idle(false) ==>
              (Step(g, i, false).requests[i] == if Count(g.requests, Counted) < g.maxRequests then Waiting else Rejecting)
    ensures g.requests[i] == Trying ==>
              (Step(g, i, false).requests[i] == if Count(g.requests, Holding) < g.maxConcurrent then Running(true) else Rejecting)
    ensures g.requests[i] == Rejecting ==> Step(g, i, false).requests[i] == Refusing
    ensures g.requests[i] == Refusing ==>
              Step(g, i, false).requests[i] == Refused && Count(Step(g, i, false).requests, Turned) == Count(g.requests, Turned) + 1
  {
    if g.requests[i] == Refusing {
      CountUpdate(g.requests, i, Refused, Turned);
    }
  }

  // ---------------------------------------------------------------- outcomes

  /** The entry test of the request fails: Acquire with the counter at its limit, TryAcquire with every slot taken. */
  predicate FailsEntry(g: State, i: nat, cancelled: bool) {
    && i < |g.requests|
    && (|| (g.requests[i] == Idle(false) && !cancelled && g.maxRequests <= g.activeRequests)
        || (g.requests[i] == Trying && g.maxConcurrent <= g.slots))
  }

  /** Acquire finds its context cancelled, on entry or while it waits. TryAcquire has no context. */
  predicate GivesUp(g: State, i: nat, cancelled: bool) {
    i < |g.requests| && cancelled && (g.requests[i] == Idle(false) || g.requests[i] == Waiting)
  }

  predicate TakesSlot(g: State, i: nat, cancelled: bool) {
    && i < |g.requests|
    && ((g.requests[i] == Waiting && !cancelled) || (g.requests[i] == Trying && g.slots < g.maxConcurrent))
  }

  /** How often something happens in a run: at the steps of request `who`, or at all steps. */
  ghost function Times(g: State, schedule: seq<(nat, bool)>, who: Option<nat>, what: (State, nat, bool) -> bool): nat
    requires Interleaving(g, schedule)
    decreases |schedule|
  {
    if schedule == [] then 0
    else
      var (i, cancelled) := schedule[0];
      (if (who == None || who == Some(i)) && what(g, i, cancelled) then 1 else 0)
      + Times(Step(g, i, cancelled), schedule[1..], who, what)
  }

  const Pending: Phase -> bool := (p: Phase) => p.Rejecting? || p.Refusing?

  /** At every moment the rejection counter, with those about to be counted, has grown by the entry tests that failed. */
  lemma {:induction false} RejectedExactly(g: State, schedule: seq<(nat, bool)>)
    requires Interleaving(g, schedule)
    ensures var end := Run(g, schedule);
            end.rejected + Count(end.requests, Pending)
            == g.rejected + Count(g.requests, Pending) + Times(g, schedule, None, FailsEntry)
    decreases |schedule|
  {
    if schedule != [] {
      var (i, cancelled) := schedule[0];
      var g' := Step(g, i, cancelled);
      assert g'.requests == g.requests[i := g'.requests[i]];
      CountUpdate(g.requests, i, g'.requests[i], Pending);
      RejectedExactly(g', schedule[1..]);
    }
  }

  /** From which phases a request can come to which. */
  lemma {:induction false} Phases(g: State, schedule: seq<(nat, bool)>, i: nat)
    requires Interleaving(g, schedule) && i < |g.requests|
    ensures i < |Run(g, schedule).requests|
    ensures var from, to := g.requests[i], Run(g, schedule).requests[i];
            && (from.IsOver() ==> to == from)
            && (from.Running? || from.Releasing? || from.Cancelling? || from.Finished? ==>
                  to.Running? || to.Releasing? || to.Cancelling? || to.Finished?)
            && (from.Rejecting? || from.Refusing? || from.Refused? ==> to.Rejecting? || to.Refusing? || to.Refused?)
            && (from.Running? && to.Running? ==> to == from)
            && (from.Releasing? || from.Cancelling? || from.Finished? ==> !to.Running?)
            && (from == Idle(true) || from.Trying? ==> !to.Waiting? && (to.Running? ==> to.tried))
            && (from == Idle(false) || from.Waiting? ==> !to.Trying? && (to.Running? ==> !to.tried))
    decreases |schedule|
  {
    if schedule != [] {
      Phases(Step(g, schedule[0].0, schedule[0].1), schedule[1..], i);
    }
  }

  /** How often a request takes a slot, gives up or fails its entry test. */
  lemma {:induction false} OutcomeCounts(g: State, schedule: seq<(nat, bool)>, i: nat)
    requires Interleaving(g, schedule) && i < |g.requests|
    ensures i < |Run(g, schedule).requests|
    ensures var from, to := g.requests[i], Run(g, schedule).requests[i];
            var took, left := Times(g, schedule, Some(i), TakesSlot), Times(g, schedule, Some(i), GivesUp);
            var failed := Times(g, schedule, Some(i), FailsEntry);
            && (!from.Idle? && !from.Waiting? && !from.Trying? ==> took + left + failed == 0)
            && took + left + failed <= 1
            && (from.Waiting? ==> failed == 0)
            && (from == Idle(true) || from.Trying? ==> left == 0)
            && (to.Idle? || to.Waiting? || to.Trying? ==> (from.Idle? || from.Waiting? || from.Trying?) && took + left + failed == 0)
            && (to.Rejecting? || to.Refusing? || to.Refused? ==>
                  took + left == 0 && (failed == 1 || from.Rejecting? || from.Refusing? || from.Refused?))
            && (to.Running? || to.Releasing? || to.Cancelling? || to.Finished? ==>
                  failed == 0 && (took + left == 1 || from.Running? || from.Releasing? || from.Cancelling? || from.Finished?))
    decreases |schedule|
  {
    if schedule != [] {
      var (j, cancelled) := schedule[0];
      OutcomeCounts(Step(g, j, cancelled), schedule[1..], i);
    }
  }

  /**
   What becomes of a request, from where it is to where a run leaves it: it takes a slot,
   gives up or fails its entry test, at most one of these and once, and never after it is
   past them. A request turned away ends up refused; any other that ends has finished.
   */
  lemma Outcome(g: State, schedule: seq<(nat, bool)>, i: nat)
    requires Interleaving(g, schedule) && i < |g.requests|
    ensures i < |Run(g, schedule).requests|
    ensures var from, to := g.requests[i], Run(g, schedule).requests[i];
            var took, left := Times(g, schedule, Some(i), TakesSlot), Times(g, schedule, Some(i), GivesUp);
            var failed := Times(g, schedule, Some(i), FailsEntry);
            && took + left + failed <= 1
            && (from.IsOver() ==> to == from)
            && (from.Running? || from.Releasing? || from.Cancelling? || from.Finished? ==>
                  took + left + failed == 0 && (to.Running? || to.Releasing? || to.Cancelling? || to.Finished?))
            && (from.Rejecting? || from.Refusing? || from.Refused? ==>
                  took + left + failed == 0 && (to.Rejecting? || to.Refusing? || to.Refused?))
            && (from.Waiting? ==> failed == 0)
            && (from == Idle(true) || from.Trying? ==> left == 0)
            && (to.Rejecting? || to.Refusing? || to.Refused? <==> failed == 1 || from.Rejecting? || from.Refusing? || from.Refused?)
            && (to.Finished? && (from.Idle? || from.Waiting? || from.Trying?) ==> took + left == 1)
            && (from.Running? && to.Running? ==> to == from)
            && (from.Releasing? || from.Cancelling? || from.Finished? ==> !to.Running?)
            && (from == Idle(true) || from.Trying? ==> !to.Waiting? && (to.Running? ==> to.tried))
            && (from == Idle(false) || from.Waiting? ==> !to.Trying? && (to.Running? ==> !to.tried))
  {
    hide Times, Run, Interleaving;
    Phases(g, schedule, i);
    OutcomeCounts(g, schedule, i);
  }

  /** Any request, once it is over: refused exactly if its entry test failed, else it took a slot or, in Acquire, gave up. */
  lemma RefusedIff(g: State, schedule: seq<(nat, bool)>, i: nat)
    requires Interleaving(g, schedule) && i < |g.requests| && g.requests[i].Idle?
    requires i < |Run(g, schedule).requests| && Run(g, schedule).requests[i].IsOver()
    ensures var end := Run(g, schedule).requests[i];
            var took, left := Times(g, schedule, Some(i), TakesSlot), Times(g, schedule, Some(i), GivesUp);
            && (end == Refused <==> Times(g, schedule, Some(i), FailsEntry) == 1)
            && (end == Finished <==> took + left == 1)
            && (g.requests[i].tries ==> left == 0)
  {
    Outcome(g, schedule, i);
  }

  function StepsLeft(p: Phase): nat {
    match p
    case Idle(_) => 4
    case Waiting => 3
    case Trying => 3
    case Running(_) => 2
    case Rejecting => 2
    case Releasing => 1
    case Cancelling => 1
    case Refusing => 1
    case Refused => 0
    case Finished => 0
  }

  ghost function Work(requests: seq<Phase>): (n: nat)
    ensures n <= 4 * |requests|
  {
    if requests == [] then 0 else Work(requests[..|requests| - 1]) + StepsLeft(requests[|requests| - 1])
  }

  lemma {:induction false} WorkUpdate(requests: seq<Phase>, i: nat, phase: Phase)
    requires i < |requests|
    ensures Work(requests[i := phase]) + StepsLeft(requests[i]) == Work(requests) + StepsLeft(phase)
  {
    var n := |requests| - 1;
    if i == n {
      assert requests[i := phase][..n] == requests[..n];
    } else {
      assert requests[i := phase][..n] == requests[..n][i := phase];
      WorkUpdate(requests[..n], i, phase);
    }
  }

  lemma StepOfOne(g: State, i: nat, cancelled: bool)
    requires Enabled(g, i, cancelled)
    ensures var g' := Step(g, i, cancelled);
            && |g'.requests| == |g.requests| && g'.requests == g.requests[i := g'.requests[i]]
            && StepsLeft(g'.requests[i]) < StepsLeft(g.requests[i])
  {
  }

  /** No request goes round in circles: a run of n requests has at most 4n steps. */
  lemma {:induction false} RunsEnd(g: State, schedule: seq<(nat, bool)>)
    requires Interleaving(g, schedule)
    ensures |schedule| + Work(Run(g, schedule).requests) <= Work(g.requests) <= 4 * |g.requests|
    decreases |schedule|
  {
    if schedule != [] {
      var (i, cancelled) := schedule[0];
      var g' := Step(g, i, cancelled);
      StepOfOne(g, i, cancelled);
      hide Step;
      WorkUpdate(g.requests, i, g'.requests[i]);
      RunsEnd(g', schedule[1..]);
    }
  }

  /** With at least one slot, some unfinished request can always go on without being cancelled. */
  lemma NoDeadlock(g: State, i: nat)
    requires Consistent(g) && 0 < g.maxConcurrent && i < |g.requests| && !g.requests[i].IsOver()
    ensures exists j :: Enabled(g, j, false)
  {
    NeverUnderflows(g, i, false);
    if g.requests[i].Waiting? && g.slots == g.maxConcurrent {
      var j := FindHolder(g.requests);
      NeverUnderflows(g, j, false);
    }
  }

  lemma {:induction false} FindHolder(requests: seq<Phase>) returns (j: nat)
    requires 0 < Count(requests, Holding)
    ensures j < |requests| && requests[j].Running?
  {
    var n := |requests| - 1;
    if requests[n].Running? {
      j := n;
    } else {
      j := FindHolder(requests[..n]);
    }
  }

  lemma {:induction false} AdmittedOrTried(requests: seq<Phase>)
    ensures Count(requests, Present) == Count(requests, Admitted) + Count(requests, Tried)
  {
    if requests != [] {
      AdmittedOrTried(requests[..|requests| - 1]);
    }
  }

  /** Requests waiting or running exceed maxRequests by no more than those that entered through TryAcquire. */
  lemma ExceededOnlyByTried(g: State)
    requires Consistent(g)
    ensures Count(g.requests, Present) <= g.maxRequests + Count(g.requests, Tried)
    ensures Count(g.requests, Present) <= g.maxRequests + g.maxConcurrent
  {
    AdmittedOrTried(g.requests);
    CountWithin(g.requests, Tried, Holding);
  }

  /** They can: a request admitted by Acquire waits while TryAcquire takes the only slot. */
  lemma TryAcquireExceeds(g: State)
    requires g == State(1, 1, 0, 0, 0, [Idle(false), Idle(true)])
    ensures Interleaving(g, [(0, false), (1, false), (1, false)])
    ensures var end := Run(g, [(0, false), (1, false), (1, false)]);
            end.requests == [Waiting, Running(true)] && |end.requests| > g.maxRequests
  {
    var g1 := Step(g, 0, false);
    var g2 := Step(g1, 1, false);
    var g3 := Step(g2, 1, false);
    assert g3.requests == [Waiting, Running(true)];
    assert Run(g3, []) == g3;
    assert [(1, false)][1..] == [] && [(1, false), (1, false)][1..] == [(1, false)];
    assert Run(g2, [(1, false)]) == g3;
    assert Run(g1, [(1, false), (1, false)]) == g3;
    assert [(0, false), (1, false), (1, false)][1..] == [(1, false), (1, false)];
  }
}
