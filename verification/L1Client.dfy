/**
 Tracking the L1-confirmed head: state-update logs by L1 height, dropped once they are
 finalised, and a backward scan of the log history at start-up that stops early.

 Models l1/l1.go.
 */
module L1Client {
  import opened Common
  import opened Words

  /** A state-update log of the core contract: its L1 height, and the L2 head it confirms. */
  datatype StateUpdate = StateUpdate(l1RefHeight: Word, removed: bool, l2BlockNumber: nat, l2BlockHash: nat, stateRoot: nat)

  type Logs = map<Word, StateUpdate>

  // ---------------------------------------------------------------- the full history

  /** Later logs of one L1 block replace earlier ones. */
  ghost function Record(events: seq<StateUpdate>): (m: Logs)
    ensures forall h :: h in m ==> m[h].l1RefHeight == h
  {
    if events == [] then map[]
    else
      var last := events[|events| - 1];
      Record(events[..|events| - 1])[last.l1RefHeight := last]
  }

  ghost function Between(m: Logs, from: int, to: int): Logs {
    map h | h in m && from <= h <= to :: m[h]
  }

  ghost predicate NoneUpTo(m: Logs, height: int) {
    forall h :: h in m ==> height < h
  }

  ghost predicate Newest(m: Logs, height: int, h: Word) {
    h in m && h <= height && forall g :: g in m && g <= height ==> g <= h
  }

  /** The head is the newest log at or below a height; without one it is what it was at first. */
  ghost predicate HeadAt(head: Option<StateUpdate>, first: Option<StateUpdate>, m: Logs, height: int) {
    || (head == first && NoneUpTo(m, height))
    || exists h :: Newest(m, height, h) && head == Some(m[h])
  }

  /** The logs of a range of L1 blocks, as the provider returns them. */
  function FilterStateUpdate(history: seq<StateUpdate>, from: Word, to: Word): (r: seq<StateUpdate>)
    ensures forall i :: 0 <= i < |r| ==> from <= r[i].l1RefHeight <= to && r[i] in history
  {
    if history == [] then []
    else
      var last := history[|history| - 1];
      FilterStateUpdate(history[..|history| - 1], from, to) + if from <= last.l1RefHeight <= to then [last] else []
  }

  lemma BetweenUpdate(m: Logs, from: int, to: int, h: Word, update: StateUpdate)
    ensures Between(m[h := update], from, to) == if from <= h <= to then Between(m, from, to)[h := update] else Between(m, from, to)
  {
  }

  lemma {:induction false} RecordOfFilter(history: seq<StateUpdate>, from: Word, to: Word)
    ensures Record(FilterStateUpdate(history, from, to)) == Between(Record(history), from, to)
  {
    if history != [] {
      var n := |history| - 1;
      var last := history[n];
      RecordOfFilter(history[..n], from, to);
      BetweenUpdate(Record(history[..n]), from, to, last.l1RefHeight, last);
      var rest := FilterStateUpdate(history[..n], from, to);
      assert rest + [] == rest && (rest + [last])[..|rest|] == rest;
    }
  }

  // ---------------------------------------------------------------- the client

  datatype Event = Update(update: StateUpdate) | Poll(finalisedHeight: Word)

  class Client {
    var nonFinalisedLogs: Logs
    var l1Head: Option<StateUpdate>       // as written to the store

    ghost const first: Option<StateUpdate>
    ghost var history: Logs               // what nonFinalisedLogs would be if polls dropped nothing
    ghost var polled: int                 // the last finalised height acted upon, or -1

    /** The logs kept are those above the last poll, and the head is what the full history says at it. */
    ghost predicate Valid()
      reads this
    {
      && polled >= -1
      && nonFinalisedLogs == Between(history, polled + 1, MAX_WORD)
      && HeadAt(l1Head, first, history, polled)
    }

    constructor (stored: Option<StateUpdate>)
      ensures Valid() && first == stored && l1Head == stored && history == map[] && polled == -1
      ensures nonFinalisedLogs == map[]
    {
      nonFinalisedLogs, l1Head, first, history, polled := map[], stored, stored, map[], -1;
    }

    /** A removed log takes every log at or above it with it. */
    method ApplyStateUpdate(update: StateUpdate)
      modifies this`nonFinalisedLogs
      ensures nonFinalisedLogs == Applied(old(nonFinalisedLogs), update)
    {
      if update.removed {
        var remaining := nonFinalisedLogs.Keys;
        while remaining != {}
          invariant remaining <= old(nonFinalisedLogs).Keys
          invariant nonFinalisedLogs ==
                    map h | h in old(nonFinalisedLogs) && (h in remaining || h < update.l1RefHeight) :: old(nonFinalisedLogs)[h]
          decreases remaining
        {
          var h :| h in remaining;
          if h >= update.l1RefHeight {
            nonFinalisedLogs := nonFinalisedLogs - {h};
          }
          remaining := remaining - {h};
        }
      } else {
        nonFinalisedLogs := nonFinalisedLogs[update.l1RefHeight := update];
      }
    }

    /** The newest log at or below the finalised height becomes the head; all of those are dropped. In any order of the map. */
    method SetL1Head(finalisedHeight: Word)
      modifies this`nonFinalisedLogs, this`l1Head
      ensures nonFinalisedLogs == Between(old(nonFinalisedLogs), finalisedHeight + 1, MAX_WORD)
      ensures HeadAt(l1Head, old(l1Head), old(nonFinalisedLogs), finalisedHeight)
    {
      var logs := nonFinalisedLogs;
      var maxFinalisedNumber: Word := 0;
      var maxFinalisedHead: Option<StateUpdate> := None;
      var remaining := logs.Keys;
      while remaining != {}
        invariant remaining <= logs.Keys && l1Head == old(l1Head)
        invariant nonFinalisedLogs == map h | h in logs && (h in remaining || h > finalisedHeight) :: logs[h]
        invariant maxFinalisedHead.None? ==> maxFinalisedNumber == 0 && forall h :: h in logs && h !in remaining ==> h > finalisedHeight
        invariant maxFinalisedHead.Some? ==>
                    && maxFinalisedNumber in logs && maxFinalisedNumber <= finalisedHeight
                    && maxFinalisedHead.value == logs[maxFinalisedNumber]
                    && forall h :: h in logs && h !in remaining && h <= finalisedHeight ==> h <= maxFinalisedNumber
        decreases remaining
      {
        var h :| h in remaining;
        if h <= finalisedHeight {
          if h >= maxFinalisedNumber {
            maxFinalisedNumber := h;
            maxFinalisedHead := Some(nonFinalisedLogs[maxFinalisedNumber]);
          }
          nonFinalisedLogs := nonFinalisedLogs - {h};
        }
        remaining := remaining - {h};
      }
      if maxFinalisedHead.Some? {
        assert Newest(logs, finalisedHeight, maxFinalisedNumber);
        l1Head := maxFinalisedHead;
      }
    }

    /**
     The start-up scan: backwards from `latest` in chunks, until a chunk holds a log that
     was finalised when first asked, then the poll. The head is the newest log of the
     whole history at or below both the polled height and `latest`.
     */
    method CatchUpL1HeadUpdates(provider: seq<StateUpdate>, latest: Word, finalised: Word, polledHeight: Word, chunkSize: Word)
      returns (ghost chunks: seq<(Word, Word)>)
      requires Valid() && history == map[] && polled == -1
      requires chunkSize >= 1 && finalised <= polledHeight
      requires forall i :: 0 <= i < |provider| ==> !provider[i].removed
      modifies this
      ensures Valid() && history == Between(Record(provider), 0, latest) && polled == polledHeight
      ensures Tiles(chunks, latest, chunkSize)
    {
      assert nonFinalisedLogs == map[] && l1Head == first;
      hide Record, Between, HeadAt, TilesDownTo, NoneUpTo;
      ghost var all := Between(Record(provider), 0, latest);
      EmptyScan(provider, latest, chunkSize);
      chunks := [];
      var to := latest;
      var from, foundFinalised := ScanChunk(provider, to, finalised, chunkSize, latest, chunks);
      chunks := [(from, to)];
      while !foundFinalised && from != 0
        invariant TilesDownTo(chunks, latest, chunkSize, from - 1) && chunks != [] && chunks[|chunks| - 1].0 == from <= latest
        invariant nonFinalisedLogs == Between(Record(provider), from, latest) && l1Head == first
        invariant foundFinalised <==> !NoneUpTo(nonFinalisedLogs, finalised)
        decreases from
      {
        to := from - 1;
        from, foundFinalised := ScanChunk(provider, to, finalised, chunkSize, latest, chunks);
        chunks := chunks + [(from, to)];
      }
      ghost var scanned := nonFinalisedLogs;
      SetL1Head(polledHeight);
      history, polled := all, polledHeight;
      BetweenBetween(Record(provider), from, latest);
      ScanSuffices(l1Head, first, all, scanned, from, finalised, polledHeight);
    }

    /** One chunk of the scan, ending at `to`. */
    method ScanChunk(provider: seq<StateUpdate>, to: Word, finalised: Word, chunkSize: Word, ghost latest: Word, ghost chunks: seq<(Word, Word)>)
      returns (from: Word, foundFinalised: bool)
      requires chunkSize >= 1 && to <= latest && TilesDownTo(chunks, latest, chunkSize, to)
      requires forall i :: 0 <= i < |provider| ==> !provider[i].removed
      requires nonFinalisedLogs == Between(Record(provider), to + 1, latest)
      requires NoneUpTo(nonFinalisedLogs, finalised)
      modifies this`nonFinalisedLogs
      ensures from <= to && TilesDownTo(chunks + [(from, to)], latest, chunkSize, from - 1)
      ensures nonFinalisedLogs == Between(Record(provider), from, latest)
      ensures foundFinalised <==> !NoneUpTo(nonFinalisedLogs, finalised)
    {
      hide Record, Between;
      from := 0;
      var next: Word := if to == MAX_WORD then 0 else to + 1;
      if next > chunkSize {
        from := next - chunkSize;
      }
      var events := FilterStateUpdate(provider, from, to);
      foundFinalised := ApplyAll(events, finalised);
      RecordOfFilter(provider, from, to);
      BetweenSplit(Record(provider), from, to, latest, finalised);
      assert (chunks + [(from, to)])[..|chunks|] == chunks;
    }

    method ApplyAll(events: seq<StateUpdate>, finalised: Word) returns (foundFinalised: bool)
      requires forall i :: 0 <= i < |events| ==> !events[i].removed
      modifies this`nonFinalisedLogs
      ensures nonFinalisedLogs == old(nonFinalisedLogs) + Record(events)
      ensures foundFinalised <==> !NoneUpTo(Record(events), finalised)
    {
      foundFinalised := false;
      for i := 0 to |events|
        invariant nonFinalisedLogs == old(nonFinalisedLogs) + Record(events[..i])
        invariant foundFinalised <==> !NoneUpTo(Record(events[..i]), finalised)
      {
        assert events[..i + 1][..i] == events[..i];
        ghost var h := events[i].l1RefHeight;
        assert Record(events[..i + 1]) == Record(events[..i])[h := events[i]];
        ApplyStateUpdate(events[i]);
        if events[i].l1RefHeight <= finalised {
          foundFinalised := true;
          assert h in Record(events[..i + 1]);
        }
      }
      assert events[..|events|] == events;
    }

    /** A log arrives, or finality is polled. */
    method Handle(event: Event)
      requires Valid() && Admissible(event, polled)
      modifies this`nonFinalisedLogs, this`l1Head, this`history, this`polled
      ensures Valid() && polled == PolledAfter(old(polled), event)
      ensures history == if event.Update? then Applied(old(history), event.update) else old(history)
    {
      match event {
        case Update(update) =>
          ApplyStateUpdate(update);
          HeadKept(l1Head, first, history, update, polled);
          history := Applied(history, update);
        case Poll(finalisedHeight) =>
          ghost var before, logs := l1Head, nonFinalisedLogs;
          SetL1Head(finalisedHeight);
          DroppedLosesNothing(before, l1Head, first, history, polled, finalisedHeight);
          polled := finalisedHeight;
      }
    }

    /**
     Every run of updates, removals and polls: after each poll the recorded head is the
     newest log at or below the polled height, though the logs it came from are dropped.
     If L1 reorgs are orderly, that is among the logs of the contract, each of which came
     once and went only if it was removed itself.
     */
    method Run(events: seq<Event>, ghost live: seq<StateUpdate>)
      requires Valid() && AllAdmissible(events, polled)
      modifies this`nonFinalisedLogs, this`l1Head, this`history, this`polled
      ensures Valid() && history == AppliedAll(old(history), events)
      ensures events != [] && events[|events| - 1].Poll? ==>
                HeadAt(l1Head, first, AppliedAll(old(history), events), events[|events| - 1].finalisedHeight)
      ensures old(history) == Record(live) && Orderly(live, events) && events != [] && events[|events| - 1].Poll? ==>
                HeadAt(l1Head, first, Record(Lived(live, events)), events[|events| - 1].finalisedHeight)
    {
      for i := 0 to |events|
        invariant Valid() && history == AppliedAll(old(history), events[..i]) && AllAdmissible(events[i..], polled)
        invariant i > 0 && events[i - 1].Poll? ==> polled == events[i - 1].finalisedHeight
      {
        Handle(events[i]);
        assert events[i..][1..] == events[i + 1..];
        assert events[..i + 1][..i] == events[..i];
      }
      assert events[..|events|] == events;
      if old(history) == Record(live) && Orderly(live, events) && events != [] && events[|events| - 1].Poll? {
        LogByLog(live, events);
        HeadOfLive(l1Head, first, live, events);
      }
    }

    /** A start-up scan and then any run: the head is what all logs since the first say at the last poll. */
    method CatchUpThenRun(
      provider: seq<StateUpdate>, latest: Word, finalised: Word, polledHeight: Word, chunkSize: Word, events: seq<Event>)
      requires Valid() && history == map[] && polled == -1
      requires chunkSize >= 1 && finalised <= polledHeight
      requires forall i :: 0 <= i < |provider| ==> !provider[i].removed
      requires AllAdmissible(events, polledHeight) && Orderly(FilterStateUpdate(provider, 0, latest), events)
      modifies this
      ensures Valid()
      ensures events != [] && events[|events| - 1].Poll? ==>
                HeadAt(l1Head, first, Record(Lived(FilterStateUpdate(provider, 0, latest), events)), events[|events| - 1].finalisedHeight)
    {
      hide HeadAt, Record, Lived, Orderly, Between, AllAdmissible;
      var chunks := CatchUpL1HeadUpdates(provider, latest, finalised, polledHeight, chunkSize);
      RecordOfFilter(provider, 0, latest);
      Run(events, FilterStateUpdate(provider, 0, latest));
    }
  }

  // ---------------------------------------------------------------- specification

  ghost function Applied(m: Logs, update: StateUpdate): Logs {
    if update.removed then map h | h in m && h < update.l1RefHeight :: m[h] else m[update.l1RefHeight := update]
  }

  ghost function AppliedAll(m: Logs, events: seq<Event>): Logs {
    if events == [] then m
    else
      var rest, last := AppliedAll(m, events[..|events| - 1]), events[|events| - 1];
      if last.Update? then Applied(rest, last.update) else rest
  }

  /** The last such log taken off. */
  ghost function Without(live: seq<StateUpdate>, log: StateUpdate): seq<StateUpdate> {
    if live == [] then []
    else
      var n := |live| - 1;
      if live[n] == log then live[..n] else Without(live[..n], log) + [live[n]]
  }

  /** The logs of the contract after a run, log by log. */
  ghost function Lived(live: seq<StateUpdate>, events: seq<Event>): seq<StateUpdate> {
    if events == [] then live
    else
      var rest, last := Lived(live, events[..|events| - 1]), events[|events| - 1];
      if last.Poll? then rest
      else if last.update.removed then Without(rest, last.update.(removed := false))
      else rest + [last.update]
  }

  /** The lowest L1 height from which logs have been removed since the last new one. */
  ghost function Cut(events: seq<Event>): (cut: nat)
    ensures cut <= TWO_64
  {
    if events == [] then TWO_64
    else
      var rest, last := Cut(events[..|events| - 1]), events[|events| - 1];
      if last.Poll? then rest else if last.update.removed then Min(rest, last.update.l1RefHeight) else TWO_64
  }

  ghost predicate NoneFrom(live: seq<StateUpdate>, height: nat) {
    forall i :: 0 <= i < |live| ==> live[i].l1RefHeight < height
  }

  /**
   An L1 reorg removes every log from some height on, in any order, before new ones come;
   what is finalised meanwhile lies below.
   */
  ghost predicate Orderly(live: seq<StateUpdate>, events: seq<Event>) {
    events != [] ==>
      var before, last := events[..|events| - 1], events[|events| - 1];
      && Orderly(live, before)
      && match last {
           case Update(update) => update.removed || NoneFrom(Lived(live, before), Cut(before))
           case Poll(finalisedHeight) => finalisedHeight < Cut(before) || NoneFrom(Lived(live, before), Cut(before))
         }
  }

  /** Logs come and go only above the finalised height, which never drops. */
  ghost predicate Admissible(event: Event, polled: int) {
    match event
    case Update(update) => update.l1RefHeight > polled
    case Poll(finalisedHeight) => finalisedHeight >= polled
  }

  ghost function PolledAfter(polled: int, event: Event): int {
    if event.Poll? then event.finalisedHeight else polled
  }

  ghost predicate AllAdmissible(events: seq<Event>, polled: int) {
    events == [] || (Admissible(events[0], polled) && AllAdmissible(events[1..], PolledAfter(polled, events[0])))
  }

  /** Chunks are adjacent, non-empty, of at most the chunk size (but for a wrapped tip), and go down from the tip. */
  ghost predicate TilesDownTo(chunks: seq<(Word, Word)>, latest: Word, chunkSize: nat, to: int) {
    if chunks == [] then to == latest
    else
      var last := chunks[|chunks| - 1];
      && last.0 <= last.1 && (last.1 == MAX_WORD || last.1 - last.0 < chunkSize) && to == last.0 - 1
      && TilesDownTo(chunks[..|chunks| - 1], latest, chunkSize, last.1)
  }

  ghost predicate Tiles(chunks: seq<(Word, Word)>, latest: Word, chunkSize: nat) {
    chunks != [] && (var from: int := chunks[|chunks| - 1].0; TilesDownTo(chunks, latest, chunkSize, from - 1))
  }

  // ---------------------------------------------------------------- proofs

  lemma EmptyScan(provider: seq<StateUpdate>, latest: Word, chunkSize: nat)
    ensures Between(Record(provider), latest + 1, latest) == map[] && TilesDownTo([], latest, chunkSize, latest)
  {
  }

  lemma BetweenSplit(m: Logs, from: nat, to: nat, latest: Word, finalised: Word)
    requires from <= to <= latest && NoneUpTo(Between(m, to + 1, latest), finalised)
    ensures Between(m, to + 1, latest) + Between(m, from, to) == Between(m, from, latest)
    ensures NoneUpTo(Between(m, from, latest), finalised) <==> NoneUpTo(Between(m, from, to), finalised)
  {
    var all, upper, lower := Between(m, from, latest), Between(m, to + 1, latest), Between(m, from, to);
    assert forall h :: h in all <==> h in upper || h in lower;
  }

  lemma BetweenBetween(m: Logs, from: nat, latest: Word)
    ensures Between(m, from, latest) == Between(Between(m, 0, latest), from, MAX_WORD)
  {
  }

  /** Logs below the scan do not matter: a scan that stops early has found a finalised log above them. */
  lemma ScanSuffices(head: Option<StateUpdate>, first: Option<StateUpdate>, all: Logs, scanned: Logs, from: int, finalised: int, polled: int)
    requires scanned == Between(all, from, MAX_WORD) && finalised <= polled
    requires from == 0 || !NoneUpTo(scanned, finalised)
    requires HeadAt(head, first, scanned, polled)
    ensures HeadAt(head, first, all, polled)
    ensures Between(scanned, polled + 1, MAX_WORD) == Between(all, polled + 1, MAX_WORD)
  {
    if from == 0 {
      assert scanned == all;
    } else {
      var g :| g in scanned && g <= finalised;
      var h :| Newest(scanned, polled, h) && head == Some(scanned[h]);
      forall x | x in all && x <= polled ensures x <= h {
        assert x >= from ==> x in scanned;
      }
      assert Newest(all, polled, h);
    }
  }

  /** The head at a height does not depend on logs above it. */
  lemma HeadKept(head: Option<StateUpdate>, first: Option<StateUpdate>, history: Logs, update: StateUpdate, polled: int)
    requires HeadAt(head, first, history, polled) && update.l1RefHeight > polled
    ensures HeadAt(head, first, Applied(history, update), polled)
  {
    var after := Applied(history, update);
    if h :| Newest(history, polled, h) && head == Some(history[h]) {
      assert Newest(after, polled, h);
    }
  }

  /** A poll over the logs above the last poll finds what the full history holds, or the old head still stands. */
  lemma DroppedLosesNothing(
    before: Option<StateUpdate>, after: Option<StateUpdate>, first: Option<StateUpdate>, history: Logs, polled: int, finalised: int)
    requires HeadAt(before, first, history, polled) && polled <= finalised
    requires HeadAt(after, before, Between(history, polled + 1, MAX_WORD), finalised)
    ensures HeadAt(after, first, history, finalised)
  {
    var logs := Between(history, polled + 1, MAX_WORD);
    assert forall h :: h in history && h > polled ==> h in logs;
    if h :| Newest(logs, finalised, h) && after == Some(logs[h]) {
      assert Newest(history, finalised, h);
    } else if h :| Newest(history, polled, h) && before == Some(history[h]) {
      assert Newest(history, finalised, h);
    }
  }

  // ---------------------------------------------------------------- log by log

  lemma {:induction false} RecordKeys(live: seq<StateUpdate>)
    ensures forall h :: h in Record(live) <==> exists i :: 0 <= i < |live| && live[i].l1RefHeight == h
  {
    if live != [] {
      var n := |live| - 1;
      RecordKeys(live[..n]);
      forall h ensures h in Record(live) <==> exists i :: 0 <= i < |live| && live[i].l1RefHeight == h {
        if h in Record(live[..n]) {
          var i :| 0 <= i < n && live[..n][i].l1RefHeight == h;
          assert live[i].l1RefHeight == h;
        }
        assert h == live[n].l1RefHeight ==> exists i :: 0 <= i < |live| && live[i].l1RefHeight == h;
        if i :| 0 <= i < n && live[i].l1RefHeight == h {
          assert live[..n][i].l1RefHeight == h;
        }
      }
    }
  }

  /** Removing one log changes nothing below its height. */
  lemma {:induction false} RecordWithout(live: seq<StateUpdate>, log: StateUpdate, to: int)
    requires to < log.l1RefHeight
    ensures Between(Record(Without(live, log)), 0, to) == Between(Record(live), 0, to)
  {
    if live != [] {
      var n := |live| - 1;
      BetweenUpdate(Record(live[..n]), 0, to, live[n].l1RefHeight, live[n]);
      if live[n] != log {
        var rest := Without(live[..n], log);
        RecordWithout(live[..n], log, to);
        assert (rest + [live[n]])[..|rest|] == rest;
        BetweenUpdate(Record(rest), 0, to, live[n].l1RefHeight, live[n]);
      }
    }
  }

  lemma NoneFromIff(live: seq<StateUpdate>, cut: nat)
    ensures Between(Record(live), 0, cut - 1) == Record(live) <==> NoneFrom(live, cut)
  {
    var all, below := Record(live), Between(Record(live), 0, cut - 1);
    RecordKeys(live);
    if NoneFrom(live, cut) {
      forall h | h in all ensures h in below {
        var i :| 0 <= i < |live| && live[i].l1RefHeight == h;
      }
    } else {
      var i :| 0 <= i < |live| && live[i].l1RefHeight >= cut;
      assert live[i].l1RefHeight in all && live[i].l1RefHeight !in below;
    }
  }

  /** The client's rule, a removal drops everything above it, keeps the logs below the cut; so all of them exactly if none is above it. */
  lemma {:induction false} LogByLog(live: seq<StateUpdate>, events: seq<Event>)
    requires Orderly(live, events)
    ensures AppliedAll(Record(live), events) == Between(Record(Lived(live, events)), 0, Cut(events) - 1)
    ensures AppliedAll(Record(live), events) == Record(Lived(live, events)) <==> NoneFrom(Lived(live, events), Cut(events))
  {
    hide Record, NoneFrom;
    if events != [] {
      var before, last := events[..|events| - 1], events[|events| - 1];
      var rest, cut := Lived(live, before), Cut(before);
      LogByLog(live, before);
      if last.Update? {
        AppliedToLive(rest, cut, last.update);
      }
    }
    NoneFromIff(Lived(live, events), Cut(events));
  }

  lemma AppliedToLive(live: seq<StateUpdate>, cut: nat, update: StateUpdate)
    requires cut <= TWO_64 && (update.removed || NoneFrom(live, cut))
    ensures var m := Between(Record(live), 0, cut - 1);
            if update.removed
            then Applied(m, update) == Between(Record(Without(live, update.(removed := false))), 0, Min(cut, update.l1RefHeight) - 1)
            else Applied(m, update) == Between(Record(live + [update]), 0, TWO_64 - 1)
  {
    if update.removed {
      var log := update.(removed := false);
      RecordWithout(live, log, Min(cut, update.l1RefHeight) - 1);
      assert Applied(Between(Record(live), 0, cut - 1), update) == Between(Record(live), 0, Min(cut, update.l1RefHeight) - 1);
    } else {
      NoneFromIff(live, cut);
      assert (live + [update])[..|live|] == live;
    }
  }

  /** The head at a height below the cut does not depend on the logs above it. */
  lemma HeadBelow(head: Option<StateUpdate>, first: Option<StateUpdate>, all: Logs, cut: int, finalised: int)
    requires HeadAt(head, first, Between(all, 0, cut - 1), finalised) && (finalised < cut || Between(all, 0, cut - 1) == all)
    ensures HeadAt(head, first, all, finalised)
  {
    var below := Between(all, 0, cut - 1);
    forall h | h in all && h <= finalised ensures h in below {
    }
    if h :| Newest(below, finalised, h) && head == Some(below[h]) {
      assert Newest(all, finalised, h);
    }
  }

  lemma HeadOfLive(head: Option<StateUpdate>, first: Option<StateUpdate>, live: seq<StateUpdate>, events: seq<Event>)
    requires events != [] && events[|events| - 1].Poll? && Orderly(live, events)
    requires HeadAt(head, first, Between(Record(Lived(live, events)), 0, Cut(events) - 1), events[|events| - 1].finalisedHeight)
    ensures HeadAt(head, first, Record(Lived(live, events)), events[|events| - 1].finalisedHeight)
  {
    hide Record, Between, HeadAt, NoneFrom;
    NoneFromIff(Lived(live, events), Cut(events));
    HeadBelow(head, first, Record(Lived(live, events)), Cut(events), events[|events| - 1].finalisedHeight);
  }

  /** A removal that is not followed by those of the logs above it: the client forgets a log that is still there. */
  lemma RemovedAlone(low: StateUpdate, high: StateUpdate)
    requires !low.removed && !high.removed && low.l1RefHeight < high.l1RefHeight
    ensures var live, events := [low, high], [Update(low.(removed := true))];
            && Orderly(live, events) && AppliedAll(Record(live), events) == map[]
            && Record(Lived(live, events)) == map[high.l1RefHeight := high]
  {
    var live, events := [low, high], [Update(low.(removed := true))];
    assert events[..0] == [] && live[..1] == [low] && [low][..0] == [] && low.(removed := false) == low;
    assert Record([low]) == map[low.l1RefHeight := low];
    assert Record(live) == map[low.l1RefHeight := low, high.l1RefHeight := high];
    assert Without([low], low) == [] && Without(live, low) == [high];
    assert [high][..0] == [];
    assert Lived(live, []) == live && Lived(live, events) == [high];
    assert AppliedAll(Record(live), []) == Record(live);
  }
}
