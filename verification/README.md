# MinIO gateway core: heal protocol, healing tracker, bitrot format and index-addressed loops

This project models the parts of the MinIO code under `juicedata-minio/cmd` in which order, aliasing
or interleaving matter, and proves what they guarantee for every input, every run or every
interleaving.

- **Heal worker** (`HealWorker`). Callers of `queueHealTask` hand tasks to one worker over unbuffered
  channels and wait for a response or for cancellation. A run is any interleaving of rendezvous and
  select branches, over any number of calls and sequences. `HealSources` adds the program's callers: the
  source channels, their filter for no-ops, and the traversals.
- **Heal sequence lifecycle** (`TraversalMonitor`). The monitor goroutine, the traversal, the drain
  goroutine and cancellation race.
- **Heal results** (`HealSequences`). The bounded buffer that numbers results for a polling client.
- **Heal registry** (`HealRegistry`). Launching, stopping, finishing and cleaning of registered sequences.
- **Healing tracker** (`HealingTrackers`, `TrackerRuns`, `RangeDelete`). Queue and healed lists changed
  in place, deletion while ranging, and counters across saves, crashes and loads.
- **Tracker codec** (`MsgPack`, `TrackerCodec`, `TrackerReceivers`, `BucketSlices`). The generated
  MessagePack encoder, decoder and size estimate.
- **Bitrot protection** (`Bitrot`, `BitrotStreaming`, `BitrotWhole`). The hash-then-block format, its
  size formula, the verifier, and both kinds of writer and reader. The hash is any function; nothing
  assumes that it has no collisions.
- **Multi-object delete** (`MultiDelete`). Vetting, deduplication and placement of results by index.
- **DNS reconciliation** (`Federation`), **lock grouping** (`TopLocks`), **name encoding** (`S3Encode`)
  and **stale notification queues** (`BucketNotification`).

Code that changes fields, arrays or maps in place is modelled by classes and methods, each proved
against a specification function; the laws are lemmas about those functions. Concurrent code is
modelled by atomic actions, one per critical section or channel rendezvous, and the laws quantify over
all runs. Every induction is written out: the lemmas switch off the verifier's automatic induction.

## What the proofs found

Some laws that the code suggests are false. For each of them the project holds an input or a run that
breaks it, and the exact condition under which it holds.

- At the bare interface of `queueHealTask`, responses reach their calls in every run if and only if
  callers queue no no-op tasks, or nothing else (`NopStealsResponse`, `MatchedExactlyWithoutMixedNops`).
  The program is not exposed: the receiver of the source channel drops no-ops, so the law holds in all
  its runs, and a no-op is a barrier for its sender (`ProgramResponsesReachTheirCall`, `NopIsABarrier`).
- A caller that is cancelled while the worker heals its task leaves the worker blocked on the response
  for ever, and no sequence makes progress again (`CancelledCallerStallsTheWorker`,
  `AbandonedTaskStallsEverySequence`, `WorkerRecoversIffCallerWaits`).
- An end time does not mean that the traversal has stopped (`CancelledSequenceMayStillWalk`); it does
  exactly when the monitor has returned and no drain goroutine waits (`EndMeansWalkOverExactly`).
- The comment in `healSequenceStart` says that a goroutine drains the result channel after a
  cancellation (`CancellationSpawnsTheDrain`). It never returns if the walk never ends
  (`UnendedWalkKeepsItsDrain`), as when the walk queues an item on a stalled worker, where it stays,
  cancelled or not (`AbandonedTaskStallsEverySequence`); nor does it return for a sequence that is fed
  from a source channel (`SourceSequenceLeaksItsDrain`).
- `stopHealSequence` deletes by path after it has released the lock, so a stop can remove the entry of
  a newer sequence and let two sequences run on one path (`StopAdmitsOverlap`,
  `RegistrationLostExactlyByDeletion`). A stop that compared before it deletes would be safe
  (`ComparingStopsAreSafe`).
- `bucketDone` panics exactly when the bucket is queued last and also earlier (`DuplicatePanics`,
  `HealingTracker.BucketDone`); it removes every occurrence exactly under the condition of
  `DoneRemovesExactlyWhen`. The program is not exposed: `setQueuedBuckets` runs right after every load,
  on the listed bucket names and two fixed ones (`background-newdisks-heal-ops.go:372-416`), and then
  no bucketDone panics (`NoBucketIsForgotten`).
- `healErasureSet` resumes the counters only when it enters another bucket than the one last worked on.
  A crash inside a bucket therefore counts its objects twice (`CrashInsideBucketCountsTwice`,
  `CountersAfterEntering`, `CreditIsOwnWork`).
- The tracker survives encoding if and only if every length fits 32 bits
  (`RoundTripExactlyWhenLengthsFit`). Decoded into an object whose two bucket slices share cells, the
  second list overwrites the first (`SharedCellsShowHealedNames`); the exact conditions are
  `RestoredUnlessClash` and `RestoresAllUnlessOverlap`. `loadHealingTracker` decodes into a new
  tracker, whose slices have no cells.
- `bitrotVerify` accepts any stream for a negative part size whose formula gives the wanted size
  (`BitrotVerify`). That needs a negative wanted size; the caller passes a file size.
- The whole-file reader keeps the buffer of a failed load, and later calls hand out unverified bytes
  (`RetryAfterFailedLoad`, `RetryReturnsCorruptBytes`). Its one caller drops a reader that failed
  (`erasure-decode.go:174`).
- In multi-object delete, an answer whose record is unknown to the map is placed at index zero. The
  filesystem backend returns empty records for failed and for versioned entries, so errors overwrite
  each other and the record of a successful deletion is wiped (`FsLosesAnError`, `FsWipesARecord`); the
  exact conditions are `HomeExactlyIfEchoed` and `FsComesHomeExactly`.
- DNS reconciliation may replace the entry of another server that registered the bucket after the
  listing (`WritesOthersEntryExactlyIfRaced`, `RegisteredMeanwhile`).
- A lock entry may list one server several times (`ServerListedTwice`); it lists each once exactly when
  every peer reports the lock once and peers have different addresses (`ServersAreDistinctExactly`).

## Model

| member | source | states |
|---|---|---|
| HealWorker.RunKeepsInv | juicedata-minio/cmd/admin-heal-ops.go:713-792 | every run keeps: the worker holds the task and sequence of the call it took it from and the result of healing it, and (without no-ops) only that call waits, abandoned calls were cancelled, answers match |
| HealWorker.ResponsesReachTheirCall | juicedata-minio/cmd/admin-heal-ops.go:713-792 | without no-ops, in every interleaving each answer is the result of healing the very call's task, and only the call that queued a task can receive its response |
| HealWorker.UnawaitedResponseWasCancelled | juicedata-minio/cmd/background-heal-ops.go:95-133 | without no-ops, the worker blocks on a response nobody can receive only if the sequence was cancelled |
| HealSources.ProgramResponsesReachTheirCall | juicedata-minio/cmd/admin-heal-ops.go:794-830 | in every run of the program, whatever is sent on the source channels, both of these laws hold without a proviso: the filter keeps no-ops from the worker |
| HealSources.NopIsABarrier | juicedata-minio/cmd/background-newdisks-heal-ops.go:326-331 | when the send of a no-op on a source channel completes, every item sent on it before was healed and answered with its own result, or the sequence was cancelled |
| HealSources.BarrierIsPassed | juicedata-minio/cmd/background-newdisks-heal-ops.go:326-331 | a run in which an item is sent, healed and answered, and then the no-op goes through |
| HealSources.LoopSurvivesCancelledCall | juicedata-minio/cmd/admin-heal-ops.go:794-830 | a run in which the loop takes the next item after a call was given up |
| HealSources.QuitLoopTakesNothing | juicedata-minio/cmd/admin-heal-ops.go:794-830 | after the loop has quit, no continuation sends anything on its source channel |
| HealWorker.NopStealsResponse | juicedata-minio/cmd/background-heal-ops.go:95-125 | through the bare interface of queueHealTask, a run in which a waiting no-op call receives another call's result |
| HealWorker.MatchedExactlyWithoutMixedNops | juicedata-minio/cmd/background-heal-ops.go:95-133 | for a set of tasks, all runs match answers to calls if and only if the set holds no no-op or only no-ops |
| HealWorker.AbandonedTaskStallsEverySequence | juicedata-minio/cmd/background-heal-ops.go:53-55 | after a caller leaves while its task is worked on, no continuation answers any call of any sequence, and calls that were queueing a task never get past it, cancelled or not |
| HealWorker.CancelledCallerStallsTheWorker | juicedata-minio/cmd/admin-heal-ops.go:739-791 | a run of one call that ends in such a stall |
| HealWorker.WorkerRecoversIffCallerWaits | juicedata-minio/cmd/background-heal-ops.go:95-125 | a busy worker can become idle again if and only if the caller still waits |
| HealWorker.StoppedWorkerServesNobody | juicedata-minio/cmd/background-heal-ops.go:119-123 | after the worker has stopped, no continuation gives it a task or answers another call |
| TraversalMonitor.EverySequenceEndsOnce | juicedata-minio/cmd/admin-heal-ops.go:659-704 | in every interleaving the value is received at most once, no receiver finds the channel closed, the end is recorded at most once, and a failure detail is the traversal's error |
| TraversalMonitor.SummaryTellsHowItEnded | juicedata-minio/cmd/admin-heal-ops.go:659-704 | running from start to end; stopped with the error if the monitor received one from the walk; finished if it received none or after a cancellation |
| TraversalMonitor.EndTimeWasRecorded | juicedata-minio/cmd/admin-heal-ops.go:673-694 | the end time is the time at which the run recorded the end, and there is at most one |
| TraversalMonitor.CancelledExactlyByCancel | juicedata-minio/cmd/admin-heal-ops.go:582-585 | a sequence counts as cancelled exactly after a cancellation |
| TraversalMonitor.EndedSequenceStaysAsItEnded | juicedata-minio/cmd/admin-heal-ops.go:673-703 | once the end time is set, no continuation changes status, end time or failure detail |
| TraversalMonitor.CancelledSequenceMayStillWalk | juicedata-minio/cmd/admin-heal-ops.go:689-703 | a run in which the end time is set and the traversal still walks |
| TraversalMonitor.EndMeansWalkOverExactly | juicedata-minio/cmd/admin-heal-ops.go:673-703 | once the end time is set, the walk is over if and only if the monitor has returned and no drain waits; always so without a cancellation |
| TraversalMonitor.AtRestMeansNothingEnabled | juicedata-minio/cmd/admin-heal-ops.go:659-704 | the states called at rest are exactly those in which only a cancellation or the end of the walk is possible |
| TraversalMonitor.RunsAreShort | juicedata-minio/cmd/admin-heal-ops.go:659-704 | every action but a cancellation lowers a rank, so runs are bounded |
| TraversalMonitor.TraversalRunsComeToRest | juicedata-minio/cmd/admin-heal-ops.go:867-871 | a run takes at most ten actions besides cancellations; at rest all goroutines have returned if and only if the walk ended, and otherwise the monitor or the drain still waits |
| TraversalMonitor.CancellationSpawnsTheDrain | juicedata-minio/cmd/admin-heal-ops.go:689-703 | in either mode, a run without an end of the walk that comes to rest with the drain goroutine waiting |
| TraversalMonitor.UnendedWalkKeepsItsDrain | juicedata-minio/cmd/admin-heal-ops.go:689-703 | in runs in which the walk never ends, a spawned drain goroutine never returns |
| TraversalMonitor.SourceSequenceLeaksItsDrain | juicedata-minio/cmd/global-heal.go:39-68 | a source-fed sequence ends only by cancellation, and its drain goroutine never returns |
| HealSequences.HealSequence.PushHealResultItem | juicedata-minio/cmd/admin-heal-ops.go:594-650 | one pass of the push: appends the next index exactly when fewer than 1000 items wait; else changes nothing and retries, stops or times out by what happened |
| HealSequences.HealSequence.PopHealStatus | juicedata-minio/cmd/admin-heal-ops.go:338-382 | a wrong token changes nothing; the right one takes all items, also when encoding fails |
| HealSequences.HealSequence.ResetHealStatusCounters | juicedata-minio/cmd/admin-heal-ops.go:492-501 | empties the buffer and restarts the numbering |
| HealSequences.ResultsAreNumberedWithoutGap | juicedata-minio/cmd/admin-heal-ops.go:594-650 | over every mix of events, polled and pending items together are the accepted results numbered 1, 2, 3, ..., and at most 1000 are pending |
| HealSequences.EachEventCounts | juicedata-minio/cmd/admin-heal-ops.go:594-650 | what each push, poll and reset at the end of any history adds: a push is accepted unless 1000 items wait, a poll with the right token takes all of them |
| HealSequences.ReceivedUnlessLost | juicedata-minio/cmd/admin-heal-ops.go:368-382 | the client receives as much as was polled if and only if no batch that held something failed to encode |
| HealSequences.ClientSeesEverythingUnlessLost | juicedata-minio/cmd/admin-heal-ops.go:338-382 | the client has seen exactly 1 up to the last index sent if and only if no batch that held something was lost |
| HealRegistry.AllHealState.Launch | juicedata-minio/cmd/admin-heal-ops.go:278-331 | registers exactly when no registered path that has not ended is a prefix of the new one or has it as a prefix, else reports one that is; keeps non-overlap; is the launch action of the run model |
| HealRegistry.AllHealState.DeleteStopped | juicedata-minio/cmd/admin-heal-ops.go:254-261 | keeps non-overlap and is the deletion action of the run model, whichever sequence the path names by then |
| HealRegistry.AllHealState.Clean | juicedata-minio/cmd/admin-heal-ops.go:186-210 | removes exactly the ended sequences whose keep time has passed, as the cleaning action of the run model does |
| HealRegistry.RegisteredNeverOverlap | juicedata-minio/cmd/admin-heal-ops.go:278-315 | in every run of concurrent requests, of two registered sequences that run neither path is a prefix of the other |
| HealRegistry.RunningKeepsItsEntry | juicedata-minio/cmd/admin-heal-ops.go:186-210 | over every run of launches, cleaning, stops and ends, a registered sequence keeps its entry while it runs, unless a stop deletes under its own path |
| HealRegistry.BackgroundKeepsItsEntry | juicedata-minio/cmd/admin-heal-ops.go:571-579 | a registered background sequence never counts as ended and keeps its entry, whatever its end time |
| HealRegistry.StepRegistration | juicedata-minio/cmd/admin-heal-ops.go:234-262 | a step leaves every running sequence registered if and only if it does not delete the entry of a running one |
| HealRegistry.RegistrationLostExactlyByDeletion | juicedata-minio/cmd/admin-heal-ops.go:234-262 | running sequences stay registered throughout a run if and only if no stop deletes the entry of a running one |
| HealRegistry.RunningNeverOverlapWhileRegistered | juicedata-minio/cmd/admin-heal-ops.go:278-315 | in runs without such deletions this holds of any two running sequences |
| HealRegistry.ComparingStopsAreSafe | juicedata-minio/cmd/admin-heal-ops.go:254-261 | in every run in which each stop finds the sequence it stopped or nothing, no running sequence loses its entry |
| HealRegistry.StopAdmitsOverlap | juicedata-minio/cmd/admin-heal-ops.go:234-262 | a run in which one stop request lets two sequences run on one path |
| MsgPack.SkipRemovesOneObject | juicedata-minio/cmd/background-newdisks-heal-ops_gen.go:642-647 | skipping succeeds with a given rest if and only if the input is one object of the MessagePack specification, of any format and nesting, followed by that rest; the formats are defined apart from the reader |
| MsgPack.ReadStringOfHead | juicedata-minio/cmd/background-newdisks-heal-ops_gen.go:489-496 | a string is read from every string format of the specification, a key also from every binary one, and from no other format |
| MsgPack.ReadNumberOfHead | juicedata-minio/cmd/background-newdisks-heal-ops_gen.go:502 | a number is read from every integer format of either signedness and any width, and from no other |
| MsgPack.ReadHeadersOfHead | juicedata-minio/cmd/background-newdisks-heal-ops_gen.go:604 | array and map counts are read from exactly their formats |
| MsgPack.WrittenString | juicedata-minio/cmd/background-newdisks-heal-ops_gen.go:410 | a string is written in the shortest string format of the specification |
| MsgPack.WrittenHeaders | juicedata-minio/cmd/background-newdisks-heal-ops_gen.go:465 | array and map headers are written in their shortest format |
| MsgPack.WrittenUint | juicedata-minio/cmd/background-newdisks-heal-ops_gen.go:434 | an unsigned number is written in its shortest unsigned format |
| MsgPack.WrittenInt | juicedata-minio/cmd/background-newdisks-heal-ops_gen.go:413 | an integer is written in its shortest signed format |
| MsgPack.ReadWriteInt | juicedata-minio/cmd/background-newdisks-heal-ops_gen.go:410-413 | every 64-bit integer is read back from its shortest form, whatever follows |
| MsgPack.ReadWriteString | juicedata-minio/cmd/background-newdisks-heal-ops_gen.go:409-410 | every string shorter than 2^32 bytes is read back, as a value and as a map key |
| TrackerCodec.AnyOrderDecodes | juicedata-minio/cmd/background-newdisks-heal-ops_gen.go:478-651 | any list of entries that gives every field, in any order and mixed with unknown well-formed entries, decodes to the same tracker for every receiver and leaves the rest |
| TrackerCodec.AnyEntriesDecode | juicedata-minio/cmd/background-newdisks-heal-ops_gen.go:478-651 | any list of valid entries decodes: the fields it gives take their values, all others keep what the receiver had |
| TrackerCodec.ZeroTrackerIsEmpty | juicedata-minio/cmd/background-newdisks-heal-ops.go:98 | the receiver that loading uses holds empty texts and lists, zero numbers and times |
| TrackerCodec.UnmarshalAfterMarshal | juicedata-minio/cmd/background-newdisks-heal-ops_gen.go:405-475 | as a value, decoding an encoded tracker gives it back for every previous value and every trailing bytes; TrackerReceivers.RestoredUnlessClash is the law for objects |
| TrackerCodec.RoundTripExactlyWhenLengthsFit | juicedata-minio/cmd/background-newdisks-heal-ops_gen.go:405-651 | the round trip holds for a tracker if and only if its lengths fit 32 bits |
| TrackerCodec.OnlyFittingTrackersAreDecoded | juicedata-minio/cmd/background-newdisks-heal-ops_gen.go:478-651 | whatever bytes are decoded into an empty receiver, the lengths in the result fit 32 bits |
| TrackerCodec.MsgSizeInParts | juicedata-minio/cmd/background-newdisks-heal-ops_gen.go:654-664 | the estimate is three bytes, the numbers of the source for the twenty entries, and the lengths of the texts and lists |
| TrackerCodec.ListSizeIs | juicedata-minio/cmd/background-newdisks-heal-ops_gen.go:656-662 | a list counts five bytes for each text besides its length |
| TrackerCodec.EncodingWithinMsgSize | juicedata-minio/cmd/background-newdisks-heal-ops_gen.go:654-664 | the encoding is never longer than the size estimate |
| TrackerCodec.NamesAreSpelled | juicedata-minio/cmd/background-newdisks-heal-ops_gen.go:407-469 | the twenty field names of the encoding and of the decoder's switch |
| TrackerCodec.EncodingIsOneObject | juicedata-minio/cmd/background-newdisks-heal-ops_gen.go:405-475 | the encoding of a tracker is exactly one MessagePack object, so a decoder that does not know it skips it |
| TrackerCodec.LoopIsBoundedByInput | juicedata-minio/cmd/background-newdisks-heal-ops_gen.go:478-491 | whatever count the map header announces, a successful decoding consumes two bytes per entry |
| TrackerReceivers.TrackerReceiver.UnmarshalEntry | juicedata-minio/cmd/background-newdisks-heal-ops_gen.go:487-648 | one entry, through the in-place list readers, changes the receiver as specified for every layout of its two slices |
| TrackerReceivers.TrackerReceiver.UnmarshalMsg | juicedata-minio/cmd/background-newdisks-heal-ops_gen.go:478-651 | the whole decoder on an object with two slices computes the specified decoding, or its error, for every input |
| TrackerReceivers.DisjointReceiverDecodesAsValue | juicedata-minio/cmd/background-newdisks-heal-ops_gen.go:478-651 | a receiver whose slices share no cells decodes every input, well-formed or not, as a value does, whatever capacity is reused |
| TrackerReceivers.RestoredUnlessClash | juicedata-minio/cmd/background-newdisks-heal-ops_gen.go:603-640 | whatever a receiver held and however its slices lie, an encoded tracker is restored if and only if the two lists do not clash in shared cells |
| TrackerReceivers.RestoresAllUnlessOverlap | juicedata-minio/cmd/background-newdisks-heal-ops_gen.go:603-640 | a receiver restores every tracker if and only if its two slices can reach no common cell |
| TrackerReceivers.SharedCellsShowHealedNames | juicedata-minio/cmd/background-newdisks-heal-ops_gen.go:603-640 | with both slices over the same cells the queued list ends up showing the healed names |
| TrackerReceivers.RoundTrip | juicedata-minio/cmd/background-newdisks-heal-ops_gen.go:405-651 | encoding and decoding into an object leaves the trailing bytes always, and the tracker exactly without a clash |
| TrackerReceivers.MarshalMsg | juicedata-minio/cmd/background-newdisks-heal-ops_gen.go:405-475 | the encoder appends exactly the specified encoding to what the buffer held |
| BucketSlices.AppendBuckets | juicedata-minio/cmd/background-newdisks-heal-ops_gen.go:464-473 | the appending loop adds the encoding of the list and keeps what was there |
| BucketSlices.FillCells | juicedata-minio/cmd/background-newdisks-heal-ops_gen.go:616-621 | the loop overwrites exactly the cells of the list with the strings read |
| BucketSlices.ReadBuckets | juicedata-minio/cmd/background-newdisks-heal-ops_gen.go:603-621 | the slice is reused exactly if its capacity suffices, then no other cell changes; otherwise it gets a new array; either way it holds the strings read |
| RangeDelete.DeleteWhileRanging | juicedata-minio/cmd/background-newdisks-heal-ops.go:191-196 | the loop on the shared backing array panics exactly when an earlier and the last element are hit and there is no guard; else it leaves the swept list and touches nothing behind it |
| RangeDelete.SweepDropsOnlyHits | juicedata-minio/cmd/background-newdisks-heal-ops.go:191-196 | elements that are not hit all survive, in order |
| RangeDelete.SweepRemovesAllUnlessAdjacent | juicedata-minio/cmd/background-newdisks-heal-ops.go:191-196 | the loop equals order-preserving removal if and only if no two neighbours are hit |
| TrackerRuns.LoadAfterSave | juicedata-minio/cmd/background-newdisks-heal-ops.go:85-109 | loading a saved tracker gives it back under the disk's identifier, or reports the mismatch |
| TrackerRuns.DoneRemovesExactlyWhen | juicedata-minio/cmd/background-newdisks-heal-ops.go:185-197 | the deletion loop ends and leaves exactly the other buckets if and only if no second occurrence is right behind another or at the end |
| TrackerRuns.DuplicatePanics | juicedata-minio/cmd/background-newdisks-heal-ops.go:191-196 | a queue that holds a bucket twice and nothing else makes bucketDone panic |
| TrackerRuns.NoBucketIsForgotten | juicedata-minio/cmd/background-newdisks-heal-ops.go:185-209 | over every run on distinct names, from an empty queue or from whatever was loaded and then listed anew, the queue stays free of duplicates and disjoint from the healed list, every listed bucket is in one of them, and no bucketDone panics |
| TrackerRuns.TrackerStoreIsFaithful | juicedata-minio/cmd/background-newdisks-heal-ops.go:139-157 | saving through the codec and loading recover the changing fields exactly, for the same disk |
| TrackerRuns.CountersAfterEntering | juicedata-minio/cmd/global-heal.go:166-183 | over every run with saves, crashes and loads, the counters after entering a bucket are the totals credited to the healed buckets if and only if another bucket was entered or loaded before, or nothing was pending |
| TrackerRuns.CreditIsOwnWork | juicedata-minio/cmd/global-heal.go:166-281 | over every history and every walk of a bucket, the bucket is credited with exactly its own walk if and only if another bucket was entered or loaded before, or the counters stood at the resume numbers |
| TrackerRuns.NextBucketResumes | juicedata-minio/cmd/global-heal.go:174-183 | leaving a bucket for another one, after any walk, records the new bucket and throws away what was not finished |
| TrackerRuns.CrashInsideBucketCountsTwice | juicedata-minio/cmd/global-heal.go:166-290 | a run in which one object is credited as two after a crash inside a bucket |
| HealingTrackers.HealingTracker.constructor | juicedata-minio/cmd/background-newdisks-heal-ops.go:112-125 | a new tracker has the disk's identifier, empty lists and zero counters |
| HealingTrackers.HealingTracker.IsHealed | juicedata-minio/cmd/background-newdisks-heal-ops.go:166-173 | true exactly for the buckets in the healed list |
| HealingTrackers.HealingTracker.Resume | juicedata-minio/cmd/background-newdisks-heal-ops.go:176-181 | the four counters take their resume values and nothing else changes |
| HealingTrackers.HealingTracker.Enter | juicedata-minio/cmd/global-heal.go:174-183 | records the bucket, clears the object, and resumes the counters exactly when coming from another bucket |
| HealingTrackers.HealingTracker.Leave | juicedata-minio/cmd/global-heal.go:284-285 | at the end no bucket and no object is recorded |
| HealingTrackers.HealingTracker.BucketDone | juicedata-minio/cmd/background-newdisks-heal-ops.go:185-197 | panics exactly in the stated case; else the counters become the resume numbers, the bucket is healed, and a queue of distinct names loses it and nothing else |
| HealingTrackers.HealingTracker.SetQueuedBuckets | juicedata-minio/cmd/background-newdisks-heal-ops.go:201-209 | the queue becomes the listed names that are not healed, in order |
| Bitrot.SizeFormula | juicedata-minio/cmd/bitrot.go:143-148 | the size formula counts the blocks one by one |
| Bitrot.QuotientTruncates | juicedata-minio/cmd/utils.go:702-717 | the quotient in the size formula is truncated toward zero for either sign |
| Bitrot.FrameHasShardFileSize | juicedata-minio/cmd/bitrot-streaming.go:89-97 | a framed file has exactly the announced size |
| Bitrot.FramedIsIntact | juicedata-minio/cmd/bitrot.go:164-199 | framed data passes block-by-block checking and is recovered, whatever follows |
| Bitrot.IntactIffStartsFramed | juicedata-minio/cmd/bitrot.go:164-199 | block-by-block checking succeeds if and only if the bytes start with the frame of some data of that length |
| Bitrot.VerifyBlock | juicedata-minio/cmd/bitrot.go:176-197 | one pass: the block is cut to what is left, which shrinks and stays non-negative; only the last block is smaller than the shard size; the hash is compared with the bytes that are there |
| Bitrot.VerifyBlocks | juicedata-minio/cmd/bitrot.go:176-199 | the loop accepts exactly the intact streams and reports a corrupt file exactly for a hash that does not match |
| Bitrot.BitrotVerify | juicedata-minio/cmd/bitrot.go:151-199 | accepts if and only if the wanted size is the framed size and, for a part that is not empty, the stream starts with the frame of some data of the part's length; reports a corrupt file exactly for a wrong size or a hash that does not match |
| BitrotStreaming.StreamingBitrotWriter.Write | juicedata-minio/cmd/bitrot-streaming.go:48-60 | an empty write adds nothing; otherwise the hash and the block, or what a fault lets through |
| BitrotStreaming.WritesAreFramed | juicedata-minio/cmd/bitrot-streaming.go:48-60 | writing data block by block produces its frame |
| BitrotStreaming.InBlocks | juicedata-minio/cmd/bitrot-streaming.go:48-60 | all data can be written block by block, for every shard size |
| BitrotStreaming.StreamingBitrotReader.ReadAt | juicedata-minio/cmd/bitrot-streaming.go:125-168 | one call agrees with the specified step, state and result alike |
| BitrotStreaming.OpenRangeReads | juicedata-minio/cmd/bitrot-streaming.go:148-168 | on an open stream a sequential run succeeds if and only if the bytes are intact, and returns their data |
| BitrotStreaming.CorruptRangeIsReported | juicedata-minio/cmd/bitrot-streaming.go:148-168 | a sequential run reports a corrupt file if and only if a complete block does not match its hash while all before it do |
| BitrotStreaming.BlockOutcome | juicedata-minio/cmd/bitrot-streaming.go:148-168 | one read gives the block, a short read or a corrupt file, each exactly when it should, and moves on by one block |
| BitrotStreaming.WrongOffsetIsRefused | juicedata-minio/cmd/bitrot-streaming.go:127-151 | an unaligned offset, or another one than the stream stands at, is refused and changes nothing |
| BitrotStreaming.FrameSplits | juicedata-minio/cmd/bitrot-streaming.go:135 | at an aligned offset a frame splits into the frames of both parts |
| BitrotStreaming.SequentialReadReturnsTheSlice | juicedata-minio/cmd/bitrot-streaming.go:125-183 | from any aligned offset to any readable end, a run of block-sized reads returns exactly that slice, from disk or inline, whatever follows the frame |
| BitrotStreaming.ReaderAgreesWithVerifier | juicedata-minio/cmd/bitrot-streaming.go:125-183 | for every file, reading it whole succeeds if and only if it starts with the frame of some data of that length |
| BitrotWhole.WholeBitrotWriter.Write | juicedata-minio/cmd/bitrot-whole.go:37-49 | the hash absorbs exactly what the disk accepted |
| BitrotWhole.LandedIsPrefix | juicedata-minio/cmd/bitrot-whole.go:37-49 | an append leaves a prefix of its bytes on the disk, all of them if accepted, and is acknowledged whole or not at all |
| BitrotWhole.WriterSatisfiesVerifier | juicedata-minio/cmd/bitrot.go:151-162 | for every chunking and every pattern of failures, verification accepts if and only if no failing append left bytes behind |
| BitrotWhole.ChunkingIsIrrelevant | juicedata-minio/cmd/bitrot-whole.go:37-49 | when all writes succeed, file and sum depend only on the data, and verification accepts |
| BitrotWhole.VerifyWholeExactly | juicedata-minio/cmd/bitrot.go:151-162 | a file is accepted if and only if it can be read, has the wanted size and matches the sum; else it is corrupt |
| BitrotWhole.ReadFileVerifies | juicedata-minio/cmd/xl-storage.go:1187-1277 | a verified read succeeds exactly for readable ranges of files that match the sum as a whole, and returns the range |
| BitrotWhole.ReadFileOutcome | juicedata-minio/cmd/xl-storage.go:1187-1277 | what the buffer holds after a read, successful or not, and which error is reported |
| BitrotWhole.ReadFileRefuses | juicedata-minio/cmd/xl-storage.go:1188-1190 | a negative offset is an invalid argument |
| BitrotWhole.WholeBitrotReader.ReadAt | juicedata-minio/cmd/bitrot-whole.go:70-85 | one call agrees with the specified step, state and result alike |
| BitrotWhole.WholeReadReturnsTheSlice | juicedata-minio/cmd/bitrot-whole.go:70-85 | a fresh sequential run succeeds if and only if the range exists and the file matches the sum; it returns the slice |
| BitrotWhole.ReadersAgree | juicedata-minio/cmd/bitrot-whole.go:70-85 | over the same data both readers return identical bytes for every sequential run |
| BitrotWhole.VerifiedDelivery | juicedata-minio/cmd/bitrot-whole.go:70-85 | if the first call loads, every run of calls delivers consecutive verified bytes from its offset |
| BitrotWhole.RetryAfterFailedLoad | juicedata-minio/cmd/bitrot-whole.go:70-85 | over every run of calls after a failed load, nothing unverified is handed out if and only if each call asks for nothing or for more than the buffer left behind |
| BitrotWhole.RetryReturnsCorruptBytes | juicedata-minio/cmd/bitrot-whole.go:70-85 | the retry returns the bytes of a file that does not match its sum |
| MultiDelete.VettingDecides | juicedata-minio/cmd/bucket-handlers.go:466-537 | exactly when an entry is admitted, dropped without a report, rejected or ends the request, and the code, message, key and version of each rejection |
| MultiDelete.AdmittedEntry | juicedata-minio/cmd/bucket-handlers.go:500-520 | the admitted entry, field by field: which replication field becomes pending, and the transition status copied |
| MultiDelete.Collect | juicedata-minio/cmd/bucket-handlers.go:465-543 | the request aborts exactly for a fatal entry; else every rejected entry has its error, and the map gives each admitted entry its first index |
| MultiDelete.ToNames | juicedata-minio/cmd/bucket-handlers.go:545-555 | the list holds every key exactly once, in some order |
| MultiDelete.PlaceResults | juicedata-minio/cmd/bucket-handlers.go:560-589 | the loop places the answers in order at the looked-up indexes, inside both arrays |
| MultiDelete.HomeExactlyIfEchoed | juicedata-minio/cmd/bucket-handlers.go:566-573 | all answers land at their entry's index if and only if each echoes its entry, or is unknown and answers the entry at index zero |
| MultiDelete.OutcomesComeHome | juicedata-minio/cmd/bucket-handlers.go:560-589 | then every outcome is at its own index in exactly one array, and all other indexes keep their error and no object |
| MultiDelete.EchoedAnswersAsExpected | juicedata-minio/cmd/bucket-handlers.go:545-589 | with an echoing backend the result is a function of the request alone, for every map order |
| MultiDelete.DeleteMultiple | juicedata-minio/cmd/bucket-handlers.go:465-589 | the whole core computes that function |
| MultiDelete.ResultsNameTheirEntry | juicedata-minio/cmd/bucket-handlers.go:465-589 | with an echoing backend that keeps its list, what is shown at an index carries the name and version of the request entry at that index |
| MultiDelete.EchoableExactly | juicedata-minio/cmd/bucket-handlers.go:561-572 | some backend echoes a request if and only if no admitted entry names a delete marker version |
| MultiDelete.UnknownFailureOverwritesIndexZero | juicedata-minio/cmd/bucket-handlers.go:573-588 | a failure with an unknown record replaces the error at index zero and no other |
| MultiDelete.FsComesHomeExactly | juicedata-minio/cmd/fs-v1.go:1216-1237 | for every request to the filesystem backend, versioned entries included, the exact condition under which all outcomes land at their own index |
| MultiDelete.FsWipesARecord | juicedata-minio/cmd/fs-v1.go:1220-1227 | a versioned entry wipes the record of a successful deletion, and nothing is reported of either |
| MultiDelete.FsLosesAnError | juicedata-minio/cmd/fs-v1.go:1216-1237 | of two failing entries only one error is left |
| Federation.ClassifyBuckets | juicedata-minio/cmd/bucket-handlers.go:90-134 | each local bucket is exactly one of unchanged, to update and conflicting, by its listed hosts |
| Federation.StaleEntries | juicedata-minio/cmd/bucket-handlers.go:156-168 | exactly the listed entries that are ours and not local are to be deleted |
| Federation.MakePlan | juicedata-minio/cmd/bucket-handlers.go:78-168 | the whole selection, including no buckets, a failed listing and a nil listing |
| Federation.PlanLeavesOthersAlone | juicedata-minio/cmd/bucket-handlers.go:78-180 | no listed entry of another server is written or deleted, and no local bucket's entry is deleted |
| Federation.WritesOthersEntryExactlyIfRaced | juicedata-minio/cmd/bucket-handlers.go:136-180 | in every run, an entry about to be changed belongs to another server if and only if others made it so after the listing |
| Federation.LastActionDecides | juicedata-minio/cmd/bucket-handlers.go:136-180 | after any run the entry of a bucket is what the last action on it left |
| Federation.DeletesFollowSuccessfulPuts | juicedata-minio/cmd/bucket-handlers.go:141-149 | deletion starts only after every planned put has succeeded and none has failed |
| Federation.PlansCanBeCarriedOut | juicedata-minio/cmd/bucket-handlers.go:136-180 | every plan has a complete successful run |
| Federation.RegisteredMeanwhile | juicedata-minio/cmd/bucket-handlers.go:136-149 | a run in which a put is about to replace another server's entry |
| Federation.SecondRunChangesNothing | juicedata-minio/cmd/bucket-handlers.go:78-180 | after a complete successful run a second one changes nothing if and only if the domain is not missing or no local entry is ours |
| TopLocks.GroupByLock | juicedata-minio/cmd/admin-handlers.go:341-356 | one entry per lock, with one address per reported record, for every map order |
| TopLocks.Select | juicedata-minio/cmd/admin-handlers.go:357-368 | sorted by time, exactly the entries that are stale-listed or reach their quorum, each once |
| TopLocks.TopLockEntries | juicedata-minio/cmd/admin-handlers.go:323-369 | conservation of holders, and both directions of the stale and quorum filters |
| TopLocks.ServersAreDistinctExactly | juicedata-minio/cmd/admin-handlers.go:347-355 | the list of a lock names no server twice if and only if each peer reports the lock at most once and no two peers that report it share an address |
| TopLocks.ServerListedTwice | juicedata-minio/cmd/admin-handlers.go:347-355 | a server that reports a lock under two resources is listed twice |
| S3Encode.Count | juicedata-minio/cmd/api-utils.go:40-50 | the bytes to escape are counted exactly, and whether there are spaces |
| S3Encode.ReplaceSpaces | juicedata-minio/cmd/api-utils.go:66-74 | the space-only path computes the encoding |
| S3Encode.FillEscapes | juicedata-minio/cmd/api-utils.go:76-93 | the general path stays inside the buffer and fills it exactly with the encoding |
| S3Encode.S3UrlEncode | juicedata-minio/cmd/api-utils.go:39-93 | all three paths compute one function, of length len + 2 * hexCount |
| S3Encode.SafeBytes | juicedata-minio/cmd/api-utils.go:23-33 | exactly letters, digits and the five marks stand for themselves |
| S3Encode.HexDigits | juicedata-minio/cmd/api-utils.go:84-85 | escapes use the digits 0 to 9 and A to F by value |
| S3Encode.EncodedAlphabet | juicedata-minio/cmd/api-utils.go:34-93 | encodings hold only safe bytes, percent and plus signs, and a name is left alone if and only if all its bytes are safe |
| S3Encode.DecodeAfterEncode | juicedata-minio/cmd/api-utils.go:34-93 | plus and percent decoding gives every name back |
| S3Encode.EncodeIsInjective | juicedata-minio/cmd/api-utils.go:34-93 | distinct names never encode alike |
| S3Encode.EncodeAfterDecode | juicedata-minio/cmd/api-utils.go:23-93 | a text is an encoding if and only if it consists of plus signs, safe bytes and upper-case escapes of bytes that are neither safe nor a space |
| S3Encode.EncodeNameIsInjective | juicedata-minio/cmd/api-utils.go:96-108 | under any one encoding type distinct names stay distinct |
| S3Encode.EncodeNameExactly | juicedata-minio/cmd/api-utils.go:96-108 | a name is encoded exactly if the type is "url" in any case, else returned as it is |
| BucketNotification.RemoveStale | juicedata-minio/cmd/bucket-notification-handlers.go:78-93 | never leaves the list, keeps all entries with another ARN in order, and removes all stale ones if and only if no two are neighbours |
| BucketNotification.NeighbourSurvives | juicedata-minio/cmd/bucket-notification-handlers.go:78-93 | of two neighbouring stale entries the second survives |

## Left out

- HTTP handlers, routers, headers, XML and JSON responses, audit logging and event sending.
- Authentication and policies: what they answer for one entry of a request is a parameter.
- Error tables, lifecycle rules and the bootstrap peer checks.
- Object healing itself, storage calls and the DNS client: abstract steps whose outcomes are arbitrary, apart from the verified file read behind the whole-file reader.
- What `queueHealTask` does with an answer before it returns, apart from returning.
- Clocks, timers and keep-alive loops: a time is a parameter and waiting is a nondeterministic choice; `waitForLowHTTPReq` is not modelled.
- The per-type item counters that `queueHealTask` keeps for reporting.
- HealSequences.HealSequence.PushHealResultItem: one pass of the waiting loop; a timeout is modelled as nothing appended, and the deferred timer drain after it is not.
- HealSequences.ResultsAreNumberedWithoutGap: indexes are unbounded integers, without the 64-bit wrap-around.
- MultiDelete.DeleteMultiple: the slots are promised for a backend that echoes and answers each entry on its own; for others, HomeExactlyIfEchoed and OutcomesComeHome say where answers land.
- HealRegistry.AllHealState.Launch: paths are compared as on systems with case-sensitive names.
- The streaming twins `EncodeMsg` and `DecodeMsg` of the tracker codec, which use the same formats.
- TrackerReceivers.TrackerReceiver.UnmarshalMsg: nothing is promised about the receiver's fields after an error, when the source has assigned part of them. The fields other than the two lists are one map.
- The twenty appends of `MarshalMsg` are a loop over the list of fields; key literals are the string encodings of the field names.
- The MessagePack primitives follow the MessagePack specification; the library that implements them is not part of this model. The time value is an opaque payload of twelve bytes.
- HealingTrackers.HealingTracker.Enter: leaves out `forwardTo`, the position in the listing from which a bucket that is entered again is walked.
- Aliasing between a tracker and the copies made by `toHealingDisk`.
- BitrotStreaming.StreamingBitrotReader.ReadAt: a negative offset fails when the stream is opened, also for inline data, where the source fails at the first read.
- The other hash algorithms and their selection, and closing of readers and writers.
- Bitrot sizes and offsets are unbounded integers, without the int64 range.
- BitrotWhole.WholeBitrotWriter.Write: hashing itself never fails.
- Go's own sort: entries are sorted by insertion, and the order of entries with equal times is open in the source.
