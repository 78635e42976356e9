# Juno: event index, pruning, reorgs, L1 head, state diffs and admission, in Dafny

Juno is a Starknet full node. This project models six of its parts and proves what they
promise, for all inputs and over whole runs. Each part is imperative Dafny where the
node's code is (classes with fields, loops with invariants) and is proved against an
independent reference.

1. **The event index and the paged event query.** A block's events go into a bloom
   filter; the blooms of 8192 consecutive blocks form one bit matrix; a running matrix
   follows the chain through stored, reverted and pruned blocks and through restarts, and
   full windows are stored as binary blobs that queries read in place. The reference is the naive scan
   `EventFilter.Scan`: read every block of the range in order, keep the matching events.
   `EventFilter.Query.FollowTokens` proves that following continuation tokens to the end
   yields exactly that scan, for every filter, scan limit and sequence of chunk sizes. The
   scan itself is characterised without it: exactly the matching events of the visible
   blocks, each where its indices say, in order and once (`ScanLists`, `ListsOnce`).
2. **The pruner.** The contents of the store are a function of the unpruned chain and
   three numbers (`Pruning.Retained`): the oldest block with number-keyed data, the
   oldest with lookups and history, and the oldest whose hash is mapped. Every call of
   `PruneUpto`, wherever it is cancelled, rotated or stopped, keeps this form. What a
   historical read returns is known at every height; from one below the second number on
   it is what the unpruned chain says. `PrunerRun.Run` carries this and the age and distance guarantees through every
   run of the service.
3. **Reorgs.** On hash-linked chains, reverting ends at the fork, and following a remote
   makes its chain ours and announces exactly the reverted range.
4. **The L1 head.** The recorded head is the newest log at or below finality in the full
   history, although logs are dropped and the start-up scan stops early.
5. **State diffs.** A reader of the hash's format gets the five components of the diff back
   from what the hash absorbs; merging is sequential composition, with its exact condition.
6. **The admission gate.** Its limits hold in every interleaving of atomic steps, and what
   becomes of every request, and is counted as rejected, is exact.

## Properties that hold only under a condition

Each of these is false of the code as first stated. The exact condition is proved, and
each entry names the member that shows a concrete failing case.

- A rebuild ends at the block after the head unless the head's own window is stored
  although it is not full (`RebuildRunningEventFilter`). Failing case: reverting across a
  window boundary leaves exactly such a window behind; the rebuilt window lies above the
  head, and storing the next block fails (`ReorgThenRebuild`).
- A cached view of a stored window agrees with the store after a block is stored or
  reverted exactly if that step does not rewrite a cached window with other contents or
  drop one, which is stated on the state before the step (`StoreBlock`, `RevertHead` of
  `ChainIndex.Index`). Failing case: a query of a stored block with a matching event
  yields nothing, for every index in that state (`ReplaceHead`) and in a run from an
  empty chain (`MissedEvent`).
- A running filter resumed from a snapshot is exact for the chain, from the floor on,
  exactly if the blooms that the snapshot knows of its window are those of the chain, from
  the floor on (`Restart.Start`, `ExactForIff`): a replaced block is harmless if it is
  pruned or has the same bloom. Snapshots are written at shutdown only. Failing case: the head is replaced after the
  write and the node starts again without another; a query misses the new block's event
  (`ReplaceWritten`, `MissedAfterRestart`).
- All reads that a floor seeded after a restart permits are answered as if nothing were
  pruned exactly if no block from the floor up to the pruned history overwrites a value of
  a contract whose recorded deployment height is below it (`ReadsExactIff`,
  `NewRetentionFloor`); there is no such block unless a prune was interrupted. The system
  contracts 0x1 and 0x2 are in no list of deployments: their height is that of the first
  write to their storage (`HeightsAfter`), so overwriting a slot of 0x2 counts. Failing
  case: a prune stopped before its range delete, a restart, and a permitted read that
  returns a wrong value, in both layouts, of an ordinary contract and of 0x2
  (`ReadAfterRestart`).
- A new-layout read of a system contract is answered exactly if the contract had a
  non-zero slot after every block from the height on, because a block that leaves all its
  slots zero drops its record (`SystemAnsweredIff`). Failing case: `ClearedCounter`.
- The L1 client keeps the logs of the contract exactly if none is left at or above the
  lowest height removed since the last new log (`LogByLog`). Failing case: a removal that
  is not followed by those of the logs above it (`RemovedAlone`).
- Reverting ends at the fork exactly under `RevertsToForkIff`. Failing case: a remote at
  height 0 with another genesis is not followed from above it, because its bound wraps
  (`Synchronizer.Follow`).
- Merging equals applying in order exactly for compatible parts
  (`MergedIsSequentialIff`). Failing case: `ReplaceThenDeploy`.
- A merged diff keeps the disjointness the hash relies on exactly under
  `MergedDisjointIff`. Failing case: a contract deployed and then replaced in one block
  (`DeployThenReplace`). Without disjointness two diffs can absorb the same
  (`OverlapCollides`).
- Requests waiting or running can exceed the gate's total limit, by no more than those
  that entered through `TryAcquire` (`ExceededOnlyByTried`). Failing case:
  `TryAcquireExceeds`.

## Conventions

- Machine words are natural numbers below 2^64; wrap-around is written out where the
  code depends on it. Block numbers stay a few windows below 2^64.
- Hashes are data: bloom hashing is a parameter `h` from keys to row indices, chains are
  sequences of block hashes with "equal hash, equal prefix", and the Poseidon sponge is
  a function of what it absorbed.
- The store is one field per bucket. A batch write is one step; the process may stop
  before any of them.
- Paging needs a chunk size of at least one, and the store, index and pre-confirmed chain
  fixed across pages. Pruner runs need a clock that never goes back, ordered block
  timestamps and no reorg below the pruned blocks. The L1 scan needs a chunk size of at
  least one; logs come and go only above the finalised height.

## Model

| member | source | states |
|---|---|---|
| `Words.KeyOrder` | db/schema.go:192-196 | fixed-width big-endian keys sort exactly like the numbers they encode |
| `Words.RowOrder` | db/schema.go:141-154 | history rows sort by key prefix, then by block number |
| `Words.CborKeyOrder` | core/typed_buckets.go:162-169 | shortest-form CBOR integer keys, whose widths differ, sort like the numbers |
| `Words.CborKeyReads` | core/typed_buckets.go:162-169 | such a key reads back as its number: major type 0 with the argument in the first byte or in the 1, 2, 4 or 8 bytes it announces |
| `Bloom.EventsBloom` | core/transaction.go:853-868 | the filter holds a bit exactly if the sender or an indexed key of some event of the block sets it |
| `Bloom.BloomUnique` | core/transaction.go:853-868 | a block has one such filter, so filters rebuilt from receipts are the stored ones |
| `FilterCodec.DecodeRowOfEncode` | core/aggregated_bloom_filter_rows.go:109-121 | any row read in place from a marshalled matrix is the row that was marshalled |
| `FilterCodec.HeaderOfEncode` | core/aggregated_bloom_filter_view.go:83-107 | the header of a marshalled window is accepted and gives back its range; first and last block and row count stand at bytes 0, 8 and 16 |
| `FilterCodec.HeaderRefused` | core/aggregated_bloom_filter_view.go:83-107 | which of the four faults a refused header has |
| `FilterCodec.EncodeRowOfDecode` | core/aggregated_bloom_filter_rows.go:109-121 | a row that decodes has exactly the bytes that encoding it gives |
| `FilterCodec.DecodesIffCanonical` | core/aggregated_bloom_filter_view.go:75-107 | a blob is accepted and decodes to (from, rows) if and only if it is the encoding of (from, rows): canonical length, row count and block range, and nothing else |
| `AggregatedFilter.MarshalledRows` | core/aggregated_bloom_filter.go:186-218 | the marshalled blob has the rows of the matrix |
| `AggregatedFilter.BitInBlob` | core/aggregated_bloom_filter.go:186-218 | the bit of block j in row i is bit j%8 of one byte of the blob, at a stated offset |
| `AggregatedFilter.LazyViewRefinesMatrix` | core/aggregated_bloom_filter_view.go:38-70 | for every key list, the query of the blob in place succeeds and equals the query of the rows in memory |
| `AggregatedFilter.ColumnAnswersLikeBloom` | core/aggregated_bloom_filter_view.go:38-70 | intersecting a key's rows tests the column's bloom for that key |
| `AggregatedFilter.IntersectMemRows` | core/aggregated_bloom_filter_rows.go:43-54 | the accumulator keeps exactly the blocks set in all given rows |
| `AggregatedFilter.IntersectBlobRows` | core/aggregated_bloom_filter_rows.go:84-100 | the same on the blob; fails exactly if a row cannot be read |
| `AggregatedFilter.UnmarshalRows` | core/aggregated_bloom_filter_rows.go:56-77 | decodes to the rows of the blob, exactly if all can be read |
| `AggregatedFilter.MarshalBitset` | core/aggregated_bloom_filter.go:186-218 | the length-prefixed bitset form of one row |
| `AggregatedFilter.FilterView.New` | core/aggregated_bloom_filter.go:94-107 | an empty matrix for the window |
| `AggregatedFilter.FilterView.Insert` | core/aggregated_bloom_filter.go:112-135 | adds the bloom to the block's column and changes no other cell; the two error cases change nothing |
| `AggregatedFilter.FilterView.Clear` | core/aggregated_bloom_filter.go:139-151 | empties the block's column and no other |
| `AggregatedFilter.FilterView.BlocksForKeysInto` | core/aggregated_bloom_filter_view.go:38-70 | sets exactly the blocks hit by some key; each error exactly in its case |
| `AggregatedFilter.FilterView.MatchKey` | core/aggregated_bloom_filter_view.go:38-70 | the blocks whose column has all rows of the key |
| `AggregatedFilter.FilterView.MarshalBinary` | core/aggregated_bloom_filter.go:186-218 | the encoding of the window and its rows |
| `EventMatcher.MatchesEventKeys` | blockchain/event_matcher.go:45-73 | true exactly if every filter position is empty or holds the event's key |
| `EventMatcher.TestBloom` | blockchain/event_matcher.go:75-105 | true exactly if the bloom admits some address and, at each position, some key |
| `EventMatcher.MatchesAllBlocks` | blockchain/event_matcher.go:110-120 | true exactly for the filter without conditions, which every bloom admits |
| `EventMatcher.CandidateBlocksInto` | blockchain/event_matcher.go:129-175 | sets exactly the candidate blocks of the window |
| `EventMatcher.IntersectAddresses` | blockchain/event_matcher.go:143-154 | keeps exactly the blocks that hit some address |
| `EventMatcher.IntersectPosition` | blockchain/event_matcher.go:156-172 | keeps exactly the blocks that hit some key of the position |
| `EventMatcher.CandidateIffBloomAdmits` | blockchain/event_matcher.go:129-175 | the matrix query and the bloom test agree on every block whose column is its bloom |
| `EventMatcher.NoFalseNegatives` | blockchain/event_matcher.go:45-105 | a block with an event that passes the address and key test is admitted by its bloom |
| `EventMatcher.InsertThenQuery` | blockchain/event_matcher.go:75-175 | end to end: such a block passes `TestBloom`, and is a candidate of the matrix its bloom was inserted into |
| `EventMatcher.RuledOutHasNoMatches` | blockchain/event_matcher.go:75-105 | a block that its bloom rules out contributes nothing to a scan |
| `EventMatcher.AppendBlockEvents` | blockchain/event_matcher.go:184-300 | appends the block's matches from the skip count on, in order; on a full chunk, `processed` is where the rest starts |
| `EventMatcher.AppendTransactionEvents` | blockchain/event_matcher.go:199-243 | the same for the events of one transaction |
| `EventMatcher.ItemsListed` | blockchain/event_matcher.go:229-236 | each listed event carries the block's number and hash, and its transaction's hash and index and its own index are where it stands; the n-th listed is the n-th of the block |
| `EventMatcher.MatchesListed` | blockchain/event_matcher.go:184-300 | the matches of a block are exactly its matching events from the skip count on, in order |
| `Store.OldestRetainedBlock` | pruner/retention.go:179-198 | the least block with commitments, or none |
| `RunningEventFilter.RunningFilter.Insert` | core/running_event_filter.go:95-127 | for any block: each error exactly in its case and without effect; otherwise the column gains the bloom and `next` follows the block, and the last block of a window persists it and starts an empty one; in order, exactness of every consulted window is kept |
| `RunningEventFilter.RunningFilter.RollOver` | core/running_event_filter.go:114-123 | the persisted blob is the encoding of the window and the new window is empty; exact if the window was |
| `RunningEventFilter.RunningFilter.OnReorg` | core/running_event_filter.go:233-269 | drops the last block, re-entering the stored window when the current one is empty; exactness is kept; which stored windows remain |
| `RunningEventFilter.RunningFilter.ReEnterWindow` | core/running_event_filter.go:244-265 | drops the key of the window it leaves and loads the one before, exact for the chain |
| `RunningEventFilter.RunningFilter.ConsultedExact` | core/running_event_filter.go:95-127 | every retained block below `next` has its bloom as its column in the window a query consults |
| `RunningEventFilter.RunningFilter.InsertThenReorg` | core/running_event_filter.go:95-269 | an insert followed by a reorg restores the window and the columns of all retained blocks, also across a boundary |
| `RunningEventFilter.ExactWindowsAgree` | core/running_event_filter.go:233-269 | windows exact for one chain have equal columns from the floor on, zero above the chain |
| `RunningEventFilter.ExactForIff` | core/running_event_filter.go:95-127 | an index exact for one chain is exact for another of its length if and only if their blooms agree from the floor on |
| `RunningEventFilter.PrunedExact` | pruner/accessors.go:446-459 | dropping the windows wholly below a higher floor keeps the index exact from that floor on |
| `FilterInitialization.DecodeSnapshot` | core/running_event_filter.go:426-453 | yields a snapshot exactly if the data starts with its encoding, and nothing otherwise |
| `FilterInitialization.SnapshotIffParts` | core/running_event_filter.go:403-453 | which bytes are the encoding of a snapshot |
| `FilterInitialization.FillRunningEventFilter` | pruner/running_event_filter.go:88-104 | over any number of rollovers, ends with next == latest+1 and exact, reading only blocks from the floor on |
| `FilterInitialization.FindResumePoint` | pruner/running_event_filter.go:119-150 | the walk back ends after the most recent stored window, or at the floor |
| `FilterInitialization.RebuildRunningEventFilter` | core/running_event_filter.go:360-401 | next == latest+1 and exact, unless the head's unfinished window is stored; then next is the end of that window and the window in memory starts there |
| `FilterInitialization.ReachableStoredPrefix` | core/running_event_filter.go:360-401 | the stored windows of every reachable running filter are what the rebuild relies on |
| `FilterInitialization.ReorgThenRebuild` | core/running_event_filter.go:244-265 | after a reorg across a window boundary a rebuild ends one block beyond the head with a window that starts there, and inserting the next block fails as out of range |
| `FilterInitialization.Resume` | pruner/running_event_filter.go:49-60 | a resumable snapshot, clamped to the floor, is exact for the chain with the part of its window that it remembers |
| `FilterInitialization.Initialize` | pruner/running_event_filter.go:15-80 | reads the height, the floor and the stored snapshot: fails exactly if a stored snapshot does not decode; with a resumable one, next == latest+1 and exact for what it remembers and the blocks filled in; otherwise the two outcomes of a rebuild |
| `FilterInitialization.ResumeAndFill` | pruner/running_event_filter.go:49-68 | a resumed snapshot is filled to the head without reading a block below the floor |
| `FilterInitialization.RememberedIff` | pruner/running_event_filter.go:49-68 | what a snapshot remembers is the chain from the floor on exactly if the blooms it knows there are those of the chain |
| `FilterInitialization.ResumableIff` | pruner/running_event_filter.go:49-58 | when a snapshot is used: caught up, or behind with the head in its window |
| `FilterInitialization.WriteSnapshot` | core/running_event_filter.go:272-281 | stores the encoding of the window, exact for the chain at that moment |
| `FilterInitialization.WrittenSnapshot` | core/running_event_filter.go:272-281 | a snapshot so written meets what start-up relies on in every later state of an exact index in which it is resumable |
| `Restart.Start` | pruner/running_event_filter.go:15-80 | start-up of any node with a snapshot it wrote: with a resumable one the index is exact for the chain, from the floor on, if and only if the blooms the snapshot knows there are those of the chain; otherwise if and only if the head's unfinished window is not stored |
| `Restart.ReplaceWritten` | pruner/running_event_filter.go:49-52 | write, replace the head, start again: the filter is exact for the chain with the block that is gone |
| `Restart.MissedAfterRestart` | pruner/running_event_filter.go:49-52 | a run from an empty chain in which a query then misses the event of the stored block |
| `MatchedBlockIterator.WindowCandidates` | blockchain/aggregated_bloom_filter_cache.go:165-222 | an exact window yields exactly the candidate blocks |
| `MatchedBlockIterator.CoherentAnswers` | blockchain/aggregated_bloom_filter_cache.go:165-222 | with an exact index and a cache that agrees with the store on retained windows, every consulted window is exact, also if its view is evicted meanwhile |
| `MatchedBlockIterator.Iterator.constructor` | blockchain/aggregated_bloom_filter_cache.go:104-126 | starts at the range's first window, done at once for an empty range |
| `MatchedBlockIterator.Iterator.FillCurrentBits` | blockchain/aggregated_bloom_filter_cache.go:165-222 | the bits are exact for the window, from the running filter, the cache or the store |
| `MatchedBlockIterator.Iterator.LoadNextWindow` | blockchain/aggregated_bloom_filter_cache.go:132-161 | moves one window on, or ends the range |
| `MatchedBlockIterator.Iterator.Next` | blockchain/aggregated_bloom_filter_cache.go:228-275 | the next candidate with none skipped; at the end none is left; past the limit, the block to resume from |
| `MatchedBlockIterator.CandidatesListed` | blockchain/aggregated_bloom_filter_cache.go:228-275 | the reference list holds each candidate of the range once, ascending |
| `MatchedBlockIterator.Drain` | blockchain/aggregated_bloom_filter_cache.go:104-275 | over any number of windows the iterator yields that list; with a limit n its first n, then the (n+1)-th as the resume point; it terminates; views of pruned windows may be cached |
| `MatchedBlockIterator.DrainSeen` | blockchain/aggregated_bloom_filter_cache.go:104-275 | the same for whichever chain the consulted windows are exact for, such as an older one after a reorg |
| `ChainIndex.Index.StoreBlock` | blockchain/statebackend/statebackend.go:106-140 | store and index stay in step; the cache stays right exactly if any cached view of the window being completed is already the encoding of its rows with the new bloom inserted |
| `ChainIndex.Index.RevertHead` | blockchain/statebackend/statebackend.go:142-174 | store and index stay in step; the cache stays right exactly if no cached window is dropped |
| `ChainIndex.Index.Prune` | pruner/accessors.go:133-161 | store, index and cache stay in step from the new floor on, also if a cached window is dropped |
| `ChainIndex.Replay` | blockchain/statebackend/statebackend.go:106-174 | after any run of stored, reverted and pruned blocks the store holds the retained part of the resulting chain and the index is exact for it |
| `StaleCache.ReplaceHead` | blockchain/aggregated_bloom_filter_cache.go:165-222 | for every index whose head ends a cached window: after the head is replaced, iterating over the new block yields nothing, although its bloom admits the filter |
| `StaleCache.MissedEvent` | blockchain/aggregated_bloom_filter_cache.go:165-222 | a run from an empty chain that reaches such a state: the stored block has a matching event and is not found |
| `EventFilter.ScanSkip` | blockchain/event_filter.go:246-323 | blocks without matches can be left out of the naive scan |
| `EventFilter.ScanSplit` | blockchain/event_filter.go:145-212 | the naive scan splits at any block |
| `EventFilter.ScanWithin` | blockchain/event_filter.go:294-311 | and at any event of a block |
| `EventFilter.ScanLists` | blockchain/event_filter.go:145-391 | the scan holds exactly the events that are due: of a visible block of the range, at the indices and with the hashes they carry, and matching; in strictly ascending order |
| `EventFilter.ListsOnce` | blockchain/event_filter.go:145-391 | only one sequence does |
| `EventFilter.PageLists` | blockchain/event_filter.go:145-212 | a page holds, in order, exactly the events due at its position and no longer at its token |
| `EventFilter.Query.HeadAndPreConfirmed` | blockchain/event_filter.go:220-244 | the head that divides the query and the pre-confirmed blocks right above it; without a chain height, an error except for the pre-confirmed tag with such blocks, where the head below block 0 wraps |
| `EventFilter.Query.NextCandidate` | blockchain/event_filter.go:264-282 | moving to the next candidate loses nothing of the scan |
| `EventFilter.Query.CollectCandidate` | blockchain/event_filter.go:284-311 | a candidate block adds its matches to the scan so far, or fills the page with a token inside it |
| `EventFilter.Query.CanonicalEvents` | blockchain/event_filter.go:246-323 | a page of the naive scan of the canonical range: all of it, or all up to a token strictly further on |
| `EventFilter.ScanEntries` | blockchain/event_filter.go:340-391 | the same for the pre-confirmed blocks, on top of what was collected before |
| `EventFilter.Query.PreConfirmedEvents` | blockchain/event_filter.go:329-391 | the pre-confirmed part of a page continues the scan right above the head |
| `EventFilter.Query.Events` | blockchain/event_filter.go:145-212 | every page is a page of the scan from the token's position, with a canonical chain or of pre-confirmed blocks alone; each error exactly in its case |
| `EventFilter.Query.EventsOnChain` | blockchain/event_filter.go:171-211 | a page of a range that starts at a retained block |
| `EventFilter.Query.EventsAbove` | blockchain/event_filter.go:203-211 | a page of pre-confirmed blocks without a canonical chain |
| `EventFilter.Query.EventsAcrossHead` | blockchain/event_filter.go:183-211 | a page that crosses from canonical to pre-confirmed blocks |
| `EventFilter.Query.FollowTokens` | blockchain/event_filter.go:145-391 | following tokens to the end, with any chunk sizes >= 1 and any scan limit, yields the naive scan: exactly the events that are due, none lost or repeated, in order and in finitely many pages; also without a canonical chain |
| `StateHistory.ReadOld` | core/deprecatedstate/state.go:851-940 | "value before block" layout pruned below r: the value before the next logged write, at any height; from r-1 on the true value, but for a class hash below the deployment |
| `StateHistory.ReadNew` | core/state/state_reader.go:230-319 | "value after block" layout pruned below r: the same, without the head state |
| `StateHistory.ClassHashTooEarly` | core/deprecatedstate/history.go:33-46 | a class hash looked up before its contract is deployed is the one it gets then; the deployment test refuses the read |
| `StateHistory.ValueIsApplied` | core/state/state.go:530-558 | the value of a key after n blocks is what applying the maps of their diffs in order gives, replaced classes last |
| `StateHistory.ReadsExactIff` | pruner/retention.go:77-142 | all reads from a height on are answered as by the unpruned chain, with rows pruned below r, if and only if no block in between overwrites another value (old layout) or a non-zero one (new layout) of a contract recorded as deployed below it; for any recorded heights |
| `StateHistory.ReadsExactIffUntouched` | core/deprecatedstate/history.go:62-83 | where every write changes its value, in the old layout: if and only if no block in between writes what is served |
| `StateHistory.HeightsRecorded` | core/state/state.go:494-513 | the heights recorded by storing blocks, system contracts included, have no contract deployed above them |
| `StateHistory.ContractHeights` | core/state/state.go:494-513 | an ordinary contract is recorded once deployed, at the last block that deploys it |
| `StateHistory.OldSystemHeights` | core/deprecatedstate/state.go:434-451 | in the old layout a system contract is recorded at the first block that writes to it |
| `StateHistory.SystemHeights` | core/state/state.go:296-320 | in the new layout a system contract is recorded exactly if it has a non-zero slot, at the last height below which it had none |
| `StateHistory.SystemAnsweredIff` | core/state/history.go:50-60 | a read of a system contract is answered exactly if it had a non-zero slot after every block from the height on |
| `StateHistory.ClearedCounter` | core/state/state.go:296-320 | a counter that is set, cleared and set again: the read of its first value is refused |
| `StateHistory.RowLessIsByteOrder` | db/schema.go:141-154 | the order in which seek and step back meet the rows is the byte order of their keys: bucket, address, slot, block number |
| `StateHistory.RowLayout` | db/schema.go:141-154 | where a row's key has its bucket, address, slot and block number |
| `StateHistory.Superseded` | pruner/accessors.go:427-438 | seek and step back find the latest row of the key below the block, and no row of another key |
| `StateHistory.PruneOldBlock` | pruner/accessors.go:291-319 | exactly the rows that the block logged |
| `StateHistory.PruneNewBlock` | pruner/accessors.go:355-404 | exactly the rows that the block's writes supersede |
| `StateHistory.NewKeptStep` | pruner/accessors.go:355-404 | pruning a block moves the kept rows on by one block; re-pruning a flushed block deletes nothing |
| `StateHistory.OldKeptStep` | pruner/accessors.go:291-319 | the same in the old layout |
| `Pruning.DeleteReverseLookups` | pruner/accessors.go:250-273 | exactly the transaction and message hashes of the block |
| `Pruning.PruneHistory` | pruner/accessors.go:225-232 | the history deletes of a block, in the layout in use |
| `Pruning.PruneBlock` | pruner/accessors.go:202-232 | queueing a block moves the queued state on by one block, keeping the hash mapping of endExclusive-1 |
| `Pruning.PruneAndRotate` | pruner/accessors.go:202-239 | a block and a possible batch write: what is flushed and what is queued stay of known form |
| `Pruning.PruneHashKeyedUpto` | pruner/accessors.go:179-243 | the loop, cancelled, rotated or stopped anywhere: where it ends, how, and how far its writes reach; the lookup of the header at start-1 never fails |
| `Pruning.PruneWindowsUpto` | pruner/accessors.go:446-459 | deletes exactly the filter windows wholly below the bound |
| `Pruning.DeleteRange` | pruner/accessors.go:143-158 | a range delete in the byte order of the keys, fixed-width or CBOR, deletes exactly the numbers below the bound |
| `Pruning.PruneBlockDataUpto` | pruner/accessors.go:133-161 | commitments, updates and transactions survive exactly from the bound on, headers from ten below it |
| `Pruning.PruneUpto` | pruner/accessors.go:77-115 | for every way of cancelling, rotating and stopping: how the call ends, the exact contents it leaves and the counts it returns |
| `Pruning.PrunedQuietly` | pruner/accessors.go:77-115 | a call that is neither cancelled nor stopped reaches its bound |
| `Pruning.CompletedContents` | pruner/accessors.go:34-76 | bucket by bucket, which keys a completed call leaves: ten headers and one hash mapping below the bound |
| `Pruning.PruneRepeatedly` | pruner/accessors.go:77-243 | the exact contents after every sequence of calls; without stops, lookups and history reach exactly as far as the blocks, the mapping at most one further |
| `Pruning.RetainedUnique` | pruner/accessors.go:34-76 | chain, layout and the three numbers determine every bucket |
| `Pruning.RepeatAfterCrash` | pruner/accessors.go:34-76 | a stopped call and a repeat with the same bound reach the same contents as one call |
| `Pruning.ReadHistory` | core/deprecatedstate/history.go:33-83 | what the history lookup for storage, nonces and class hashes of a pruned store returns at every height, in both layouts; the value of the unpruned chain from one below the kept history on |
| `Pruning.ReadState` | core/deprecatedstate/history.go:33-83 | a whole historical read with its deployment test, at every height and in both layouts: what it answers, or that it is refused; what is kept reads as the state that applying the diffs gives |
| `BlockStorage.RetainedExtends` | blockchain/statebackend/block_ops.go:118-158 | storing a block on a pruned chain keeps the three numbers |
| `BlockStorage.StoreBlock` | blockchain/statebackend/block_ops.go:118-158 | the write does that for every bucket, with the filter window that the block completes |
| `BlockStorage.CompletedWindows` | core/running_event_filter.go:114-123 | the window of which the block is the last, if any |
| `RetentionFloor.Floor.RaiseTo` | pruner/retention.go:92-102 | the greater of the two floors; the largest 64-bit floor wraps and is ignored |
| `RetentionFloor.Floor.Seed` | pruner/retention.go:81-88 | one below the oldest block, never lower than before |
| `RetentionFloor.RaisesReachMaximum` | pruner/retention.go:92-102 | in every interleaving of compare-and-swap retries the floor never drops and ends at the greatest value raised |
| `RetentionFloor.FloorNeverDrops` | pruner/retention.go:92-102 | no reader sees the floor go down between any two moments |
| `RetentionFloor.RaisesTerminate` | pruner/retention.go:92-102 | n concurrent raises take at most n(2n+2) steps |
| `RetentionFloor.RequireStateRetainedByBlockNumber` | pruner/retention.go:117-142 | which heights pass, seeded or not; a height that passes is one where every read is exact, if the floor covers what was deleted |
| `RetentionFloor.ReadRetained` | pruner/retention.go:117-142 | the test and the read at one height: when it is permitted, and that it is exact if the floor covers what was deleted |
| `RetentionFloor.NewRetentionFloor` | pruner/retention.go:69-88 | one below the oldest block; all reads it permits are answered as by the unpruned chain if and only if no block from there up to the pruned history overwrites a value of a contract recorded as deployed below it |
| `InterruptedPrune.ReadAfterRestart` | pruner/retention.go:69-142 | stores three blocks, prunes with a stop before the range delete, seeds a new floor, passes its test and reads a wrong value, in both layouts, of an ordinary contract or of system contract 0x2 |
| `PrunerRun.NewStoreHolds` | pruner/pruner.go:198-215 | the empty store satisfies what every run starts from |
| `PrunerRun.FindOldestBlockAtOrAfter` | pruner/pruner.go:274-301 | the first block of the range at or after the cutoff, or none; no header is missing |
| `PrunerRun.Pruner.SeedFloor` | pruner/pruner.go:333-344 | the first sample is the first retained block whose second ends after now - minAge, or the head if there is none |
| `PrunerRun.Pruner.constructor` | pruner/pruner.go:198-215 | the same once the service has started; nothing is pruned yet |
| `PrunerRun.Pruner.SampleHeight` | pruner/pruner.go:304-329 | the same from the previous sample on: the first such block, or the head; everything kept below it is at least minAge old |
| `PrunerRun.Pruner.ApplyTimeFloor` | pruner/pruner.go:348-353 | the lower of the two floors |
| `PrunerRun.Pruner.PruneBelow` | pruner/pruner.go:406-436 | the floor is raised first, so it covers everything deleted wherever the call stops; the exact state after |
| `PrunerRun.Pruner.OnNewBlock` | pruner/pruner.go:355-384 | when it prunes, up to where, the exact state after, and that this is safe, also in the catch-up bypass |
| `PrunerRun.Pruner.OnNewL1Head` | pruner/pruner.go:386-404 | the same for an L1 head, also with a stale event |
| `PrunerRun.Dispatch` | pruner/pruner.go:217-262 | which handler an event reaches, and the exact state after |
| `PrunerRun.Run` | pruner/pruner.go:198-436 | every run ends in the state that its events lead to, one by one; no prune deleted a block younger than minAge at its moment, nor one at or above min(l1,l2)-retained; everything gone went in such a prune; the floor never dropped and covers it |
| `ReorgSync.AgreeBelowFork` | sync/sync.go:457-493 | on linked chains hashes agree exactly below the fork, parent hashes exactly up to it |
| `ReorgSync.IsReverting` | sync/sync.go:242-291 | reports a reorg exactly if the remote is not ahead and not a prefix; the bound is never below the last common block, except for the wrap at height 0 |
| `ReorgSync.Synchronizer.RevertHead` | sync/sync.go:574-598 | takes off the head and keeps the announced range equal to the blocks taken off |
| `ReorgSync.Synchronizer.RevertTask` | sync/sync.go:457-493 | where the walk ends, for every bound and remote, or at the first block the remote does not serve; never below the fork unless the bound is |
| `ReorgSync.RevertsToForkIff` | sync/sync.go:457-493 | the walk ends exactly at the longest common prefix if and only if the bound is not below it and the remote has the first block to compare |
| `ReorgSync.Synchronizer.Store` | blockchain/statebackend/block_ops.go:30-54 | stores exactly the block that follows the head |
| `ReorgSync.Synchronizer.StoreTask` | sync/sync.go:376-455 | stores and announces, or on a parent mismatch always reverts to the longest common prefix |
| `ReorgSync.Synchronizer.Follow` | sync/sync.go:210-493 | the chain becomes the remote's with one range, exactly the blocks above the fork, announced; and the two cases in which nothing happens |
| `L1Client.Client.ApplyStateUpdate` | l1/l1.go:287-303 | records the log, or drops every log at or above a removed one |
| `L1Client.Client.SetL1Head` | l1/l1.go:431-475 | in any order of the map, the newest log at or below finality becomes the head and exactly those logs are dropped |
| `L1Client.Client.CatchUpL1HeadUpdates` | l1/l1.go:317-402 | adjacent disjoint chunks, terminating; the head is the newest log of the whole history at or below the polled height and the tip, despite the early stop |
| `L1Client.ScanSuffices` | l1/l1.go:382-400 | logs below an early stop cannot be the head |
| `L1Client.DroppedLosesNothing` | l1/l1.go:431-458 | a poll over the logs kept finds what the full history holds |
| `L1Client.Client.Run` | l1/l1.go:249-303 | after every run of updates, removals and polls the head is what the logs received, by the client's rule for removals, say at the last poll; under orderly L1 reorgs also what the logs of the contract say, taken log by log |
| `L1Client.LogByLog` | l1/l1.go:287-303 | the client's rule, a removal drops everything above it, gives the logs of the contract below the lowest height removed since the last new log; all of them if and only if none is left above |
| `L1Client.RemovedAlone` | l1/l1.go:287-303 | a removal alone makes the client forget a log that is still there |
| `L1Client.Client.CatchUpThenRun` | l1/l1.go:249-402 | the start-up scan followed by any orderly run: the head is what all logs since the first say at the last poll |
| `StateDiffStream.StreamDetermines` | core/state_update.go:77-134 | for disjoint keys, what the hash absorbs determines updated contracts, declared or migrated classes, the multiset of deprecated classes, storage diffs and nonces |
| `StateDiffStream.StreamReads` | core/state_update.go:77-134 | a reader of the format gets the five components back in its order, each by ascending key, and nothing is left over |
| `StateDiffStream.SmallStream` | core/state_update.go:77-134 | the elements absorbed for a deprecated class, a slot and a nonce |
| `StateDiffStream.TagIsName` | core/state_update.go:74-74 | the first element is the name of the format in ASCII, read as a big-endian number |
| `StateDiffStream.OverlapCollides` | core/state_update.go:203-219 | without the sequencer's guarantee two different diffs absorb the same |
| `FeltSort.SortedKeys` | core/state_update.go:199-201 | whatever order the map is iterated in, one sorted sequence |
| `StateUpdate.UpdatedContractsDigest` | core/state_update.go:203-219 | absorbs the section of deployments and replacements |
| `StateUpdate.DeclaredClassesDigest` | core/state_update.go:221-254 | absorbs the section of declarations and migrations |
| `StateUpdate.StorageDiffDigest` | core/state_update.go:266-284 | absorbs the storage section, contract by contract |
| `StateUpdate.SlotsDigest` | core/state_update.go:286-294 | absorbs a counted map: nonces, or one contract's slots |
| `StateUpdate.StateDiff.DeprecatedDeclaredClassesDigest` | core/state_update.go:256-264 | absorbs the deprecated classes and leaves them sorted |
| `StateUpdate.StateDiff.Hash` | core/state_update.go:77-134 | the hash of the stream, independent of map order; hashing again gives the same |
| `StateUpdate.StateDiff.Length` | core/state_update.go:39-53 | the sum of the counts that the hash absorbs, in any order of the contracts |
| `StateUpdate.StreamLength` | core/state_update.go:39-134 | the number of elements absorbed, from the length, the deprecated classes and the contracts with storage |
| `StateUpdate.StateDiff.Merge` | core/state_update.go:55-72 | the merged diff, contract by contract |
| `StateUpdate.MergedAssociative` | core/state_update.go:55-72 | merging is associative |
| `StateUpdate.MergedIsSequentialIff` | core/state_update.go:55-72 | applying the merged diff equals applying the parts in order, if and only if the parts are compatible |
| `StateUpdate.ReplaceThenDeploy` | core/state_update.go:55-72 | incompatible parts: the merged diff ends with another class |
| `StateUpdate.MergedIsSequential` | core/state_update.go:207-210 | under the deploy and declare guarantees they always are, and the merged diff meets the guarantees too |
| `StateUpdate.MergedDisjointIff` | core/state_update.go:207-210 | when a merged diff keeps the disjointness that the hash relies on |
| `StateUpdate.DeployThenReplace` | core/state_update.go:207-210 | two diffs that meet every guarantee in order and whose merged diff is not disjoint |
| `StateUpdate.UpdatePreconfirmedBlock` | builder/executor.go:153-169 | merges the batch into the block's diff |
| `StateUpdate.AccumulateBatches` | builder/executor.go:153-169 | the block's diff does not depend on how its transactions are split into batches |
| `StateUpdate.MergedFirst` | builder/executor.go:153-169 | nor on whether a batch is merged by itself first |
| `StateUpdate.AccumulatedIsSequential` | builder/executor.go:153-169 | the block's diff takes the state where its transactions take it one by one |
| `Gate.NewGate` | jsonrpc/gate.go:34-45 | the sum of the limits, saturated at the largest word |
| `Gate.StepConsistent` | jsonrpc/gate.go:50-108 | every atomic step of every request keeps the invariant |
| `Gate.Safe` | jsonrpc/gate.go:50-108 | every interleaving: running within maxConcurrent, admitted through Acquire within maxRequests, counter exact, both zero at rest |
| `Gate.TurnedAwayIff` | jsonrpc/gate.go:50-84 | exactly when Acquire and TryAcquire turn a request away, and that it is then counted as rejected |
| `Gate.Outcome` | jsonrpc/gate.go:50-108 | a request takes a slot, gives up or fails its entry test at most once; one that waits, runs, is released or cancelled is never turned away later |
| `Gate.RefusedIff` | jsonrpc/gate.go:50-108 | a request that is over was refused exactly if its entry test failed; any other took a slot or, in Acquire, found its context cancelled |
| `Gate.RejectedExactly` | jsonrpc/gate.go:50-104 | over every run the rejection counter grows by exactly the entry tests that failed |
| `Gate.RunsEnd` | jsonrpc/gate.go:50-108 | n requests take at most 4n steps |
| `Gate.NeverUnderflows` | jsonrpc/gate.go:88-108 | the counter and the semaphore are never taken below zero |
| `Gate.NoDeadlock` | jsonrpc/gate.go:50-91 | with a slot, some unfinished request can always go on |
| `Gate.ExceededOnlyByTried` | jsonrpc/gate.go:73-84 | the total exceeds maxRequests by no more than the requests that entered through TryAcquire |
| `Gate.TryAcquireExceeds` | jsonrpc/gate.go:73-84 | and it can |

## Left out

- Bloom, Pedersen, Poseidon and Keccak hashing, tries and field arithmetic: parameters or uninterpreted values.
- `ContinuationToken` strings: formatting and scanning of two decimal numbers by the Go library.
- Filter setters, by number, hash or L1 head: single assignments.
- `StateDiff.Commitment`: hashes the same sections in another grouping; it would only repeat the digest results.
- `StateRootIfStateRetainedByBlockNumber`, `RequireRetained`: the same tests as `RequireStateRetainedByBlockNumber` with other results.
- The mutex and lazy initialisation of the running filter, and `Clone`: every operation is one step.
- The batch of `InsertWithBatch` and `OnReorgWithBatch`: its writes are modelled as direct writes.
- The lookup of a block's hash while appending its events: the hash is given with the block.
- The cache's fallback function and `SetMany`: a missing view is read from the store.
- `RevertHead` of the synchroniser failing in the store, plugins, listeners, worker streams and catch-up mode: reverting succeeds, tasks are steps.
- The protocol version check of `verifyBlockSuccession`.
- Retries, timeouts and cancellation of L1 calls: a call returns its result; a scan that fails midway is not modelled.
- The rollback of a failed batch write: a write happens or the process stops before it.
- Pebble, snapshots, the LRU library and CBOR values: maps, atomic writes, and a partial map that may drop entries.
- VM, compiler, RPC handlers, HTTP and websocket serving, p2p, mempool, migrations and metrics.
- Initialize: a stored snapshot that decodes and is resumable is taken to be one that the node wrote (`WrittenSnapshot`).
- Query.Events: requires a pre-confirmed chain that is contiguous and, if there is a canonical chain, built on a retained block of it, as its producer keeps it.
- ReadOld: a class-hash read is of a contract that no later block deploys, which `ReadState` establishes from the recorded heights.
- ReadState: takes the recorded deployment heights as given; `HeightsAfter` is what storing blocks records, and what reverting a block does to them is not modelled.
- CatchUpThenRun: requires orderly L1 reorgs: all logs from some height on are removed, in any order, before a new one comes or that height is finalised.
- CatchUpL1HeadUpdates: requires the final poll at or above the first finalised height; historical logs are not marked removed.
- StoreBlock: an environment step for the pruner; state tries, classes and receipts are not modelled.
