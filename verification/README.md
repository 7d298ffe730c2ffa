# Kevo: a verified model of its storage and transaction core

Kevo is a log-structured key-value store with concurrent transactions, key locks and deadlock
resolution. This project models the parts of it whose correctness rests on an argument rather than
on a single function body, and proves that argument for every input, run or reachable state.
`dafny verify dfyconfig.toml` checks the whole project.

## How the model is laid out

| files | what they model |
|---|---|
| `WaitGraph`, `LockTable`, `Locks` | the waits-for graph and its cycle finder, the lock manager as a system of atomic steps, and the class with its seven maps that takes exactly those steps |
| `Transactions`, `Calls`, `Isolation`, `Deadlock`, `Buffer` | transactions as an interleaved step system (one step per critical section or access to the `active` flag) with its invariant; what each call achieves; what keeps concurrent writes apart and which steps break it; how deadlocks last and are resolved; the write buffer behind reads and commits |
| `WalFormat`, `WalRoundTrip`, `WalBatch`, `Wal` | the log's record format, its writer and reader, fragments, batches and truncated files |
| `Replication` | the entry codec and the replica's batch applier |
| `SkipList`, `MemTable` | the linked skip list, the memtable and the pool of tables |
| `Recovery` | the way from logged calls through a log cut off anywhere to what lookups answer after a restart |
| `Merge` | the k-way merge over sorted sources, with the searches of both iterators that do it |
| `Levels`, `Compaction`, `Executor` | key ranges and levels, the choice of compaction inputs, and the executor |
| `BlockFormat`, `BlockLayout`, `BlockRoundTrip`, `Block` | the prefix-compressed block, its builder, reader and iterator |
| `Queue`, `Retry` | the request queue and the retry loop |
| `Options`, `Bytes`, `Sequences` | optional values, byte strings (order, little-endian numbers, buffers), lists of lists |

State that the code updates in place is a class whose methods are proved against functions and step
relations on values; the theorems are about those. Checksums are parameters (any function of the
bytes), and so are heights, jitter, clock-dependent tombstone decisions and the outcome of each call
to the store. A nil slice is `None`, an empty one is `Some([])`.

In the proofs about whole files the reader and the encoder, or the decoder of replicated entries, are
parameters too: the argument about sequences of entries is made once for any pair that fits, and the
concrete pair is shown to be one (`WalRoundTrip.EntriesInverse`, `Replication.ReplicaConverges`).

## Where the code does not do what it says

* **An exhausted lock wait reports success.** `RetryWithConfig` returns nil when its waiting time runs
  out (pkg/common/retry/retry.go:84-107), so `AcquireLock` returns nil without holding the key, although
  its comment promises an error (pkg/locks/locks.go:132-133). The step `GiveUp` models this.
  `GiveUpShares` states with whom the key is shared afterwards, `GiveUpBreaksIsolation` that from every
  state with a pending write to the key the giving-up transaction can put its own write into storage under
  it, and `ExhaustedWaitRun` is such a run.
* **Rollback does not wait for a commit.** `Rollback` releases the key locks before it takes the
  transaction's mutex (pkg/transaction/transaction.go:373-381), and a session's `Close` calls it from
  another goroutine (pkg/sessreg/sessstate.go:93-98). Between a commit's reset of `active` and the
  application of its batch, this lets a waiter lock and buffer a key before the batch reaches storage
  (`InterruptionBreaksIsolation`, `InterruptedCommitRun`). Between the commit's test of `active` and its
  reset, the release callback, which does not take the mutex, closes the transaction too: the isolation
  lock is given back twice and the transaction is counted twice. `ExactlyOneRelease` and `ActiveCount`
  hold for all runs with the number of such races in them, `RacedExactly` says which runs have one,
  `RaceReleasesTwice` that every one has this effect, `RacedCommitIsFatal` is a run that ends in a fatal
  unlock and `SerializedBesideAnother` one in which a serialized transaction is not alone.
* **Isolation therefore has an exact condition.** `WritesAreIsolated` holds in every interleaving without
  these two kinds of step, and each kind breaks it: `GiveUpBreaksIsolation`, `InterruptionBreaksIsolation`
  after the commit's reset, and before it `RaceBreaksIsolation` when the commit still reads its buffer and
  `EmptyRaceBreaksIsolation` when the buffer was cleared first.
* **An exhausted wait stays recorded**, so deadlock detection can choose a transaction that waits for
  nothing (`PhantomDeadlock`). `GiveUpLeavesWait` says when a wait is left behind, and `MembersReallyWait`
  that a member of a detected cycle really waits if it never gave up.
* **The jitter call panics on small backoffs.** `rand.Int63n(backoff / 10)` panics below ten nanoseconds,
  and the last sleep is cut to what is left of the budget. `PanicsExactly` gives the exact condition on
  the four numbers of the configuration. The lock manager's own defaults meet it (`LockDefaultsPanic`),
  the default retry configuration does not (`DefaultsNeverPanic`). Without a positive `CapTotalWaitTime` a
  failed operation is never retried.
* **A nil key stops a scan.** The engine accepts a nil key and keeps it as it is in the memtable
  (pkg/memtable/memtable.go:40-41); an iterator that stands at it takes it for "no key yet" and searches
  from the start again. `Scan` shows that a full scan ends with the merge if the newest version of the empty
  key is not nil, and `ScanOfNilKey` that otherwise no number of steps does: the iterator stays there for
  ever or, in the variant of pkg/iterator only, misses the key.
* **A table whose smallest key is empty reads as a table without keys.** The engine accepts the empty key,
  but an iterator that stands at one counts as invalid (pkg/sstable/block/block_iterator.go:192-194), so
  such a table loads with no first key, no last key and no items (pkg/compaction/base_strategy.go:80-94).
  An empty first key resets the running minimum in `selectL0Compaction`
  (pkg/compaction/tiered_strategy.go:99): `SelectionIsExact` gives the exact condition on the selected
  tables under which the selection is right, and `KeylessTableHidesOthers` three stored tables that fail
  it. Its keys are gone after a compaction (`UnreadKeysAreLost`).
* **A batch near the size limit consumes sequence numbers and then fails.** The size test of `Batch.Write`
  ignores the 17 bytes of entry framing; `Writer.WriteBatch` states for which sizes. It also tests `closed`
  and not the rotating status.
* **A batch entry has no effect on a replica.** The applier hands it to `ApplyBatch`
  (pkg/replication/engine_applier.go:87-88), which looks only at puts and deletes
  (pkg/engine/storage/manager.go:398-409). `EffectAnswers` says so, and convergence is stated for the
  operations of the log as the applier takes them.
* **The codec has caps that the serializer does not.** An entry survives the replication codec exactly when
  its key is at most 1 MiB and its value at most 10 MiB (`CodecRoundTrip`).
* **The block iterator shows its first entry twice**, because seeking decodes it without moving on
  (`ScanVisitsAll`).
* **Rollback of a read-committed transaction always reports a closed transaction**, since the release
  callback has closed it by the time `rollbackLocked` looks; in the other modes it does so exactly when
  the transaction was closed before (`RollbackReportsClosed`).
* **The number of active transactions is overstated** by begins that failed to draw an id, and
  transactions of an unknown mode stay counted forever (`ActiveCount`).
* **The queue's set of hashes forgets a hash with the first of its items**, so it stays exact only as long
  as no remaining item has that hash (`Queue.Dequeue`).

## Model

| member | source | states |
|---|---|---|
| `WaitGraph.DetectDeadlockCycle` | pkg/locks/deadlocks.go:32-55 | terminates; reports a deadlock exactly when following the waits from the start never ends, and then returns a simple cycle (distinct nodes, each waiting on the next, the last on the first) that the start leads into |
| `WaitGraph.PathClosesCycle` | pkg/locks/deadlocks.go:45-48 | when the next node is already on the path, the path from there on is a simple cycle and the start never stops waiting |
| `WaitGraph.PathStops` | pkg/locks/deadlocks.go:40-43 | a path that reaches a node not waiting shows that the start's waits end |
| `WaitGraph.ReachingACycleIsEndless` | pkg/locks/deadlocks.go:39-53 | whoever's waits lead into a simple cycle waits forever |
| `WaitGraph.NoNewCycle` | pkg/locks/locks.go:200-211 | taking a node out of the graph puts nobody on a cycle who was not on one |
| `WaitGraph.WalkToVictimStops` | pkg/locks/locks.go:200-211 | once a node is taken out, every walk that led to it is finite |
| `WaitGraph.BreakingACycle` | pkg/locks/locks.go:200-211 | taking out a member of a cycle leaves all waits into that cycle finite and strictly lowers the number of nodes on cycles |
| `LockTable.StepKeepsInv` | pkg/locks/locks.go:134-309 | every step keeps: owners, waiters and victims are registered, and nobody awaits a key of its own |
| `LockTable.RunKeepsInv` | pkg/locks/locks.go:134-309 | the invariant holds in every state of every interleaving |
| `LockTable.StepKeepsOwner` | pkg/locks/locks.go:156-163 | a key keeps its owner through a step if and only if the step is not the release by that registered owner |
| `LockTable.RunKeepsOwner` | pkg/locks/locks.go:134-217 | over any stretch of a run without the owner's release the key stays with its owner |
| `LockTable.RegisteredExactly` | pkg/locks/locks.go:185-211 | in every run, a transaction is registered exactly when a registration of it was not followed by its release |
| `LockTable.MarkedExactly` | pkg/locks/locks.go:200-266 | it is marked exactly when a detection chose it since its last release |
| `LockTable.OwnedExactly` | pkg/locks/locks.go:156-163 | it owns a key exactly when an attempt of it got the key since its last release |
| `LockTable.AttemptAnswers` | pkg/locks/locks.go:138-171 | every answer from the run before it: refused when unknown, terminated when chosen as a victim, and otherwise the key unless somebody else has got it and not released it |
| `LockTable.OwnerGetsKeyAgain` | pkg/locks/locks.go:156-163 | a transaction that got a key gets it again at every later attempt, without changing any owner, until its release or a mark |
| `LockTable.DetectMarks` | pkg/locks/locks.go:246-263 | marking a member with the fewest keys is a detection step, and the one marked lies on a cycle |
| `LockTable.CycleSurvives` | pkg/locks/locks.go:138-217 | a waits-for cycle survives a step if and only if the step is neither a member's release nor a member's attempt on a key of somebody else than it waits on |
| `LockTable.DeadlockPersists` | pkg/locks/locks.go:152-170 | as long as no step breaks the cycle, the cycle stays, the victim stays marked and every attempt of it is terminated |
| `LockTable.ReleaseCutsGraph` | pkg/locks/locks.go:200-211 | a release removes exactly the one node from the waits-for graph |
| `LockTable.ReleaseResolvesDeadlock` | pkg/locks/locks.go:200-266 | releasing a member leaves every former member's waits finite, creates no cycle and strictly lowers the number of transactions on cycles |
| `LockTable.ReleaseAddsNoCycle` | pkg/locks/locks.go:200-217 | no release puts a transaction on a cycle |
| `Locks.LockManager.constructor` | pkg/locks/locks.go:88-97 | an empty manager satisfies the invariant of all its maps |
| `Locks.LockManager.RegisterTx` | pkg/locks/locks.go:185-190 | takes the register step and keeps the maps consistent |
| `Locks.LockManager.AddToLock` | pkg/locks/locks.go:268-276 | key-to-owner and owner-to-keys stay exact inverses, and the key goes to the transaction |
| `Locks.LockManager.RemoveFromLock` | pkg/locks/locks.go:278-287 | the two maps stay exact inverses with no empty key set, and exactly this key is free |
| `Locks.LockManager.AddAwaiting` | pkg/locks/locks.go:289-298 | every waiting transaction stays listed under its key, and exactly one waiter is added |
| `Locks.LockManager.RemoveAwaiting` | pkg/locks/locks.go:300-309 | exactly one waiter is removed and no waiter set is left empty |
| `Locks.LockManager.AttemptAcquire` | pkg/locks/locks.go:138-171 | one pass of the wait loop is one attempt step with its outcome; waiter sets stay free of stale members while transactions only attempt the key they await |
| `Locks.LockManager.ReleaseOwned` | pkg/locks/locks.go:204-207 | removes exactly the keys the transaction owns |
| `Locks.LockManager.ReleaseLocksAndUnregisterTx` | pkg/locks/locks.go:200-217 | takes the release step, and the callback runs exactly when the transaction was registered with one |
| `Locks.LockManager.KeyCountIsOwned` | pkg/locks/locks.go:253-254 | the size of the per-transaction key set is the number of keys owned |
| `Locks.LockManager.ChooseVictim` | pkg/locks/locks.go:250-258 | the victim is a cycle member and no member owns fewer keys |
| `Locks.LockManager.DetectDeadlock` | pkg/locks/locks.go:229-266 | takes the detection step; reports a deadlock exactly when the start's waits never end, and the victim then lies on a cycle and is marked |
| `Transactions.StartTxKeeps` | pkg/transaction/manager.go:61-83 | beginning a transaction keeps the system invariant |
| `Transactions.BeginFailedKeeps` | pkg/transaction/manager.go:66-71 | a begin that draws no id keeps it |
| `Transactions.TakeIsolationKeeps` | pkg/transaction/manager.go:85-98 | taking the shared or exclusive isolation lock keeps it |
| `Transactions.EnrollKeeps` | pkg/transaction/manager.go:91-95 | registering with the lock manager keeps it |
| `Transactions.StartWriteKeeps` | pkg/transaction/transaction.go:169-189 | starting a Put or Delete, in any mode and also on a closed transaction, keeps it |
| `Transactions.TryLockKeeps` | pkg/locks/locks.go:138-171 | one lock attempt, whatever its outcome, keeps it |
| `Transactions.AbandonWaitKeeps` | pkg/common/retry/retry.go:84-107 | running out of waiting time keeps it, with the key recorded as given up until it is acquired |
| `Transactions.StoreWriteKeeps` | pkg/transaction/buffer.go:38-72 | buffering the write keeps it: the key is owned unless its wait was given up |
| `Transactions.LeavingKeeps` | pkg/transaction/transaction.go:83-108 | giving back a hold keeps the count of readers in step with the holders, short of one for each race, and is fatal only after a race |
| `Transactions.ReleaseKeysKeeps` | pkg/transaction/transaction.go:386-412 | releasing the key locks of a transaction that is not waiting to apply its batch closes it through its callback, once, and keeps it |
| `Transactions.RollbackLockedKeeps` | pkg/transaction/transaction.go:414-445 | a rollback under the transaction's mutex keeps it |
| `Transactions.ReleaseThenKeeps` | pkg/transaction/transaction.go:318-323 | the release after a failed wait or an applied commit keeps it |
| `Transactions.CloseThenIdleKeeps` | pkg/transaction/transaction.go:464-469 | closing after a failed wait keeps it |
| `Transactions.StartCommitKeeps` | pkg/transaction/transaction.go:289-298 | Commit's test of `active` keeps it |
| `Transactions.CloseCommitKeeps` | pkg/transaction/transaction.go:300-327 | Commit's reset of `active`, in any mode and with or without a Rollback since the test, keeps it |
| `Transactions.ApplyBufferKeeps` | pkg/transaction/transaction.go:329-366 | applying the batch, with success or failure, keeps it |
| `Transactions.UnlockThenIdleKeeps` | pkg/transaction/transaction.go:320-327 | giving back the isolation lock at the end of a commit keeps it |
| `Transactions.RaceKeeps` | pkg/transaction/transaction.go:386-412 | a Rollback between Commit's test and reset of `active` keeps it, with the race recorded |
| `Transactions.ExposeKeeps` | pkg/transaction/transaction.go:373-377 | a Rollback between the reset and the application of the batch keeps it, and takes exactly the key locks |
| `Transactions.StartRollbackKeeps` | pkg/transaction/transaction.go:373-377 | Rollback's first part keeps it at whatever point the transaction's own call is |
| `Transactions.RollbackReportsClosed` | pkg/transaction/transaction.go:379-384 | Rollback's second part finds no read-committed transaction open, and in every mode changes something exactly when the transaction is open |
| `Transactions.EndRollbackKeeps` | pkg/transaction/transaction.go:379-384 | Rollback's second part keeps it |
| `Transactions.MarkVictimKeeps` | pkg/locks/locks.go:229-266 | a deadlock detection keeps it |
| `Transactions.StepKeepsSystemInv` | pkg/transaction/transaction.go:169-474 | every enabled step of every transaction keeps the system invariant |
| `Transactions.RunKeepsSystemInv` | pkg/transaction/transaction.go:169-474 | the invariant holds in every state of every interleaving, with Rollback arriving at any time |
| `Transactions.HolderIsCounted` | pkg/transaction/transaction.go:83-108 | a transaction that holds the isolation lock shows in the lock's state unless some commit was raced |
| `Transactions.StepFrame` | pkg/transaction/transaction.go:169-384 | a step moves at most its own transaction, closed stays closed, the buffer only grows until it is applied, only a Rollback that hits a commit marks it, and only an applied batch changes storage |
| `Transactions.RacedExactly` | pkg/transaction/transaction.go:289-300 | a transaction is marked as raced if and only if its run has a Rollback between Commit's test and reset of `active` |
| `Transactions.ExactlyOneRelease` | pkg/transaction/transaction.go:289-445 | in every state of every run each transaction that no longer holds the isolation lock gave it back exactly once, and once more if and only if it was raced; the callback acts at most once and nothing is fatal without a race |
| `Transactions.ActiveCount` | pkg/transaction/manager.go:123-133 | started - completed - aborted is the number of transactions still open, plus the begins that failed, less one for each race |
| `Transactions.SerializedIsAlone` | pkg/transaction/transaction.go:83-88 | unless some commit was raced, no other transaction holds the isolation lock beside a serialized one |
| `Calls.BeginOpens` | pkg/transaction/manager.go:61-101 | in every state whose isolation lock admits the mode, a begin's steps exist and leave exactly one more open transaction that holds the lock and, when read-committed, is registered |
| `Calls.WriteIsRefused` | pkg/transaction/transaction.go:447-456 | a Put or Delete does nothing exactly when the transaction is closed or its mode may not write |
| `Calls.AttemptDecides` | pkg/transaction/transaction.go:465-472 | one lock attempt gets the key, records the wait, or fails, by who is registered, marked and owning |
| `Calls.WriteIsBuffered` | pkg/transaction/transaction.go:169-221 | from every state in which nobody else owns the key, a Put or Delete, the first or a later one, leads to the buffer with exactly that write, and to the key locked |
| `Calls.WritesAreBuffered` | pkg/transaction/transaction.go:169-221 | any number of writes leave the buffer with the last one to each key |
| `Calls.ApplyDoes` | pkg/transaction/transaction.go:329-366 | the store gets exactly the buffer, or nothing, as it reports, and exactly one counter is raised: completed on success or for an empty buffer, aborted otherwise |
| `Calls.CommitApplies` | pkg/transaction/transaction.go:287-366 | an open transaction's commit puts its buffer into storage, deletions included, leaves every other key alone, and counts as completed |
| `Calls.CommitCompletes` | pkg/transaction/transaction.go:287-369 | and then gives back its key locks and its hold, once, and touches nothing else |
| `Calls.ReadOnlyCommits` | pkg/transaction/transaction.go:307-317 | a read-only commit gives its hold back, changes nothing and counts as completed |
| `Calls.TransactionTakesEffect` | pkg/transaction/transaction.go:169-369 | after any writes and a commit, storage is what making the writes one after the other gives |
| `Calls.RollbackDiscards` | pkg/transaction/transaction.go:373-384 | Rollback drops the buffer, gives everything back, leaves storage alone and counts as aborted, in every mode |
| `Calls.FailedWaitCloses` | pkg/transaction/transaction.go:465-470 | a failed lock wait closes the transaction in the same way |
| `Isolation.RunStaysClean` | pkg/transaction/transaction.go:169-384 | in a run without exhausted waits and without a Rollback that hits an unfinished commit nobody has given up a key, been raced or been exposed |
| `Isolation.BuffersAreDisjoint` | pkg/transaction/transaction.go:191-193 | two transactions have pending writes to the same key only if one of them gave up waiting for it or was hit by a Rollback during its commit |
| `Isolation.OthersBatchMisses` | pkg/transaction/transaction.go:329-362 | in such a run a batch about to be applied does not touch a key with another transaction's pending write |
| `Isolation.PendingWriteGuardsKey` | pkg/transaction/transaction.go:180-193 | while a write is pending no such step but the application of its own batch changes storage at its key, and only its own transaction replaces the pending value |
| `Isolation.WritesAreIsolated` | pkg/transaction/transaction.go:169-369 | strict two-phase writes: in every interleaving of such steps, from the Put until the batch is applied or dropped the transaction owns the key and storage does not change at it |
| `Isolation.GiveUpShares` | pkg/common/retry/retry.go:84-107 | in every state, an open transaction that gives up its wait buffers its write all the same, and shares the key with another one if and only if that one had a pending write to it |
| `Isolation.GiveUpBreaksIsolation` | pkg/common/retry/retry.go:84-107 | from every state with somebody's pending write to the key, giving up leads by the transaction's own steps to its write in storage under the pending one |
| `Isolation.ReleaseFrees` | pkg/transaction/transaction.go:373-377 | a Rollback that hits a commit frees the keys of its batch before the batch is applied |
| `Isolation.InterruptionBreaksIsolation` | pkg/transaction/transaction.go:329-384 | from every state with a commit about to apply its batch and a waiter for one of its keys, a Rollback leads to the batch in storage under the waiter's pending write, without an exhausted wait |
| `Isolation.RaceReleasesTwice` | pkg/transaction/transaction.go:289-412 | from every state without races, a Rollback between Commit's test and reset makes the transaction give back its hold twice: fatal if nobody else holds the lock, and otherwise another one's hold is given away |
| `Isolation.RaceAdmitsSerialized` | pkg/transaction/transaction.go:83-108 | after such a race beside one other holder a serialized transaction can start beside that holder |
| `Isolation.RaceBreaksIsolation` | pkg/transaction/transaction.go:289-412 | from every state without races with a commit between its test and its reset of `active` and a waiter for one of its keys, a Rollback leads to the batch in storage under the waiter's pending write |
| `Isolation.EmptyRaceBreaksIsolation` | pkg/transaction/transaction.go:83-108 | from every such state a Rollback between Commit's test and reset leads, even when it clears the buffer first, to a serialized transaction's write in storage under the other holder's pending one |
| `Isolation.ExhaustedWaitRun` | pkg/locks/locks.go:134-183 | for any two transactions there is a run in which one tries the other's key, waits in vain, and then changes storage under the other's pending write |
| `Isolation.InterruptedCommitRun` | pkg/transaction/transaction.go:289-384 | for any two transactions there is such a run without an exhausted wait, by a Rollback during a commit |
| `Isolation.RacedCommitRun` | pkg/transaction/transaction.go:289-412 | for any two transactions there is a run with such a race, without an exhausted wait |
| `Isolation.RacedCommitIsFatal` | pkg/transaction/transaction.go:289-412 | there is a run in which Commit and Rollback of one transaction end in a fatal unlock |
| `Isolation.SerializedBesideAnother` | pkg/transaction/transaction.go:83-108 | there is a run in which, after a race, a serialized transaction holds the lock beside another one |
| `Deadlock.TakesLockStep` | pkg/transaction/transaction.go:169-474 | every step of a transaction takes one lock-table step or leaves the table alone |
| `Deadlock.StepKeepsWaits` | pkg/locks/locks.go:134-183 | every step but its own giving up keeps, for every transaction: if it is recorded as waiting it is still acquiring exactly that key, or its wait has failed |
| `Deadlock.RunKeepsWaits` | pkg/locks/locks.go:134-183 | this holds in every state of every run for every transaction that did not give up a wait |
| `Deadlock.AttemptsAreBlocking` | pkg/locks/locks.go:166-170 | a waiting transaction attempts no key but the one it awaits, so no stale waiter is left behind |
| `Deadlock.CycleSurvivesStep` | pkg/locks/locks.go:134-217 | unless by a member that gave up a wait, a waits-for cycle survives a step if and only if it is not a member's release after a failed wait or by a Rollback |
| `Deadlock.DeadlockPersistsInRun` | pkg/locks/locks.go:134-217 | over any stretch of a run a deadlock whose members gave up no wait persists until a member leaves |
| `Deadlock.MembersReallyWait` | pkg/locks/locks.go:229-266 | in every run, a member of a waits-for cycle that never gave up a wait is really waiting for its key, or its wait has failed |
| `Deadlock.VictimFindsOut` | pkg/locks/locks.go:152-154 | a marked member is still waiting or already failed, and its next attempt only tells it so |
| `Deadlock.VictimResolves` | pkg/locks/locks.go:152-266 | the next attempt and release of a marked member that really waits are enabled in every deadlocked state, leave strictly fewer transactions on cycles, and make every former member's wait finite |
| `Deadlock.RunKeepsRecorded` | pkg/locks/locks.go:166-170 | in every run, a registered transaction whose attempt failed is recorded as waiting for exactly that key |
| `Deadlock.GiveUpLeavesWait` | pkg/common/retry/retry.go:84-107 | in every run, a wait that is given up stays recorded although it is over, if and only if the transaction is still registered |
| `Deadlock.PhantomDeadlock` | pkg/locks/locks.go:229-266 | there is a run in which an open transaction that waits for nothing is chosen as victim, and is refused every lock from then on |
| `Buffer.OverlayIsInOrder` | pkg/transaction/buffer.go:38-72 | overlaying the last write per key equals making all writes in their order |
| `Buffer.ListedWrites` | pkg/transaction/buffer.go:96-124 | a list holding the pending write of each key means exactly the pending writes, in whatever order |
| `Buffer.InsertByKey` | pkg/transaction/buffer.go:118-121 | insertion keeps the list strictly sorted and adds exactly the operation |
| `Buffer.Buffer.Put` | pkg/transaction/buffer.go:38-55 | adds the write to the history that the buffer stands for |
| `Buffer.Buffer.Delete` | pkg/transaction/buffer.go:58-72 | adds the deletion to that history |
| `Buffer.Buffer.Get` | pkg/transaction/buffer.go:76-93 | the last pending write to the key, a deletion being found with no value |
| `Buffer.Buffer.Operations` | pkg/transaction/buffer.go:96-124 | strictly key-sorted, exactly one operation per pending key, whatever order the map yields |
| `Buffer.Buffer.Read` | pkg/transaction/transaction.go:143-164 | read-your-writes: the answer is that of storage after all writes so far, or the closed error |
| `Buffer.Buffer.Batch` | pkg/transaction/transaction.go:329-352 | the committed batch lists one entry per pending key in key order, and applying it gives the storage that the transaction's own reads saw |
| `WalRoundTrip.RecordReads` | pkg/wal/reader.go:101-134 | a written record is read back with its type and data, and reading stops behind it |
| `WalRoundTrip.RecordCut` | pkg/wal/reader.go:101-134 | any proper prefix of a record reads as missing or cut-short bytes |
| `WalRoundTrip.RecordExactly` | pkg/wal/reader.go:101-134 | for arbitrary bytes, a record is read exactly when the bytes start with it, its length and checksum included |
| `WalRoundTrip.PayloadParses` | pkg/wal/reader.go:160-222 | the payload of every entry parses to that entry |
| `WalRoundTrip.ParsesExactly` | pkg/wal/reader.go:160-222 | arbitrary bytes parse to an entry exactly when they start with its payload |
| `WalRoundTrip.OnlyWrittenIsRead` | pkg/wal/reader.go:40-134 | whatever the bytes are, an entry is returned only if it stands in them: as one checked record, or as a first fragment, middle ones and a last one put together |
| `WalRoundTrip.FragmentedShape` | pkg/wal/wal.go:493-560 | a fragmented entry has a non-empty first record that fits, and data left for a last record |
| `WalRoundTrip.FragmentsRead` | pkg/wal/reader.go:67-157 | the fragments after the first, however many, are put together again |
| `WalRoundTrip.FragmentsCut` | pkg/wal/reader.go:40-134 | a cut anywhere in the fragments reads as an interruption |
| `WalRoundTrip.EntryReads` | pkg/wal/reader.go:40-98 | every entry, fragmented or not, is read back and the reader stands behind it |
| `WalRoundTrip.EntryCut` | pkg/wal/reader.go:40-134 | every proper prefix of an entry's bytes reads as an interruption and never as an entry, and as a plain end of file exactly when it is empty or a bare record header |
| `WalRoundTrip.WholeEntriesMeaning` | pkg/wal/reader.go:40-98 | the count of whole entries in a prefix is exactly the number whose bytes fit in it |
| `WalRoundTrip.PrefixReadsWholeEntries` | pkg/wal/reader.go:40-134 | truncation safety: from every byte prefix of a log the reader returns exactly the leading entries that lie wholly inside, then stops for lack of bytes |
| `WalRoundTrip.LogReadsBack` | pkg/wal/reader.go:40-98 | the whole log reads back as the entries in order, then end of file |
| `WalBatch.DecodeBatch` | pkg/wal/batch.go:158-245 | the decoding loop, with each error it may report, against the decoder on values |
| `WalBatch.OperationDecodes` | pkg/wal/batch.go:184-242 | each operation's bytes decode to the operation and leave the rest |
| `WalBatch.OperationExactly` | pkg/wal/batch.go:184-242 | arbitrary bytes decode to an operation exactly when they start with its bytes |
| `WalBatch.BatchDecodes` | pkg/wal/batch.go:158-245 | the entry that carries a batch decodes to its sequence number and operations |
| `WalBatch.BatchExactly` | pkg/wal/batch.go:158-245 | an arbitrary entry decodes to a batch exactly when it carries that batch's data |
| `Wal.Writer.WriteRawRecord` | pkg/wal/wal.go:405-432 | appends exactly one record, or nothing when the data does not fit one |
| `Wal.Writer.FillPayload` | pkg/wal/wal.go:352-390 | the buffer filled by offset is the entry's payload |
| `Wal.Writer.WriteFragmentedRecord` | pkg/wal/wal.go:493-560 | appends the first record and all further fragments of the entry |
| `Wal.Writer.WriteEntry` | pkg/wal/wal.go:239-258 | the file stays the encoding of all entries written so far, with this one added |
| `Wal.Writer.Append` | pkg/wal/wal.go:217-274 | fails exactly when the log is not active or the type is unknown; otherwise logs the entry under the next sequence number, and numbers increase until the counter wraps |
| `Wal.Writer.FillBatch` | pkg/wal/batch.go:107-137 | the batch buffer holds the count, the sequence number and the operations |
| `Wal.BatchSizes` | pkg/wal/batch.go:68-82 | a batch's entry is 17 bytes larger than the size that is tested, whatever its sequence number |
| `Wal.Writer.WriteBatch` | pkg/wal/batch.go:85-155 | succeeds exactly when the batch is not empty, the log is open and data plus framing fit one record; the entry then decodes to the batch; otherwise nothing is logged, though sequence numbers may be consumed |
| `Wal.Reader.ReadRecord` | pkg/wal/reader.go:101-134 | reads as the record reader on values, for arbitrary bytes |
| `Wal.Reader.Combine` | pkg/wal/reader.go:137-150 | the copied buffer is the fragments end to end |
| `Wal.Reader.ReadEntry` | pkg/wal/reader.go:40-98 | reads as the entry reader on values, for arbitrary bytes and any pending fragments |
| `Wal.ReadBack` | pkg/wal/reader.go:40-98 | whatever calls wrote the file, reading it returns the entries in order and then end of file |
| `Wal.ReadFile` | pkg/wal/reader.go:40-98 | over arbitrary bytes, returns what the reader on values returns up to its first failure |
| `Wal.ReadCut` | pkg/wal/reader.go:40-134 | from a log cut off at any byte, exactly the entries written in full before the cut |
| `Replication.CodecRoundTrip` | pkg/replication/common.go:96-287 | an entry survives the codec if and only if its lengths are under the caps; it is never changed |
| `Replication.DeserializesExactly` | pkg/replication/common.go:159-287 | arbitrary bytes give an entry exactly when they start with its payload and its lengths are under the caps |
| `Replication.BatchApplier.constructor` | pkg/replication/batch.go:157-169 | the next number expected is one after the start, also from zero |
| `Replication.BatchApplier.ApplyEntries` | pkg/replication/batch.go:172-239 | for every batch and every failure: gap flag, result, store and counters, with the next number always one after the highest applied |
| `Replication.BatchApplier.AcknowledgeUpTo` | pkg/replication/batch.go:242-253 | the acknowledged number never falls |
| `Replication.BatchApplier.Reset` | pkg/replication/batch.go:280-293 | all counters restart from the number given |
| `Replication.LoopIsConsecutive` | pkg/replication/batch.go:195-203 | the entries of a batch that reach the store are numbered consecutively |
| `Replication.AgreesStep` | pkg/replication/batch.go:219-227 | applying the next operation, again or for the first time, moves the agreement with the primary up by one |
| `Replication.AgreesFallsBack` | pkg/replication/batch.go:219-225 | after a failure, counting less than was applied leaves the store in agreement outside the keys of the operations left behind |
| `Replication.LoopAgrees` | pkg/replication/batch.go:193-228 | the loop keeps the store in agreement however far it gets |
| `Replication.EffectAnswers` | pkg/replication/engine_applier.go:122-144 | what an entry does to each key: nothing to others, and to its own a value, a deletion, or for a batch entry nothing |
| `Replication.BatchEnds` | pkg/replication/batch.go:193-233 | how a batch ends, exactly: success when every entry follows, decodes and is applied, otherwise the first that does not is reported with its reason, and the store has the effects of those before it |
| `Replication.GapExactly` | pkg/replication/batch.go:195-203 | a gap at an entry is reported if and only if its number does not follow and everything before it went through |
| `Replication.BatchAdvances` | pkg/replication/batch.go:172-239 | progress: a batch numbered from the expected number on, whose entries decode and are applied, succeeds and moves the applied number on by its length |
| `Replication.ReplicaAdvances` | pkg/replication/batch.go:172-239 | and leaves a converging replica with exactly the primary's prefix up to its end |
| `Replication.ReplicaCatchesUp` | pkg/replication/batch.go:172-239 | from every converging replica one batch with the serialized rest of the log, applied without failure, brings it to exactly the primary's store |
| `Replication.DeliverConverges` | pkg/replication/batch.go:172-239 | one delivery, of whatever entries and with whatever failures, keeps the replica converging |
| `Replication.NothingOutstanding` | pkg/replication/batch.go:230-233 | when no applied operation is uncounted the whole store equals the primary's prefix |
| `Replication.RestartConverges` | pkg/replication/batch.go:280-293 | a reset to a number not beyond the applied one keeps the replica converging |
| `Replication.PayloadsAreFaithful` | pkg/replication/common.go:96-156 | entries that carry what the primary serializes for their number are what convergence asks for |
| `Replication.RunConverges` | pkg/replication/batch.go:157-293 | convergence over any run of lost, repeated, reordered or half-failing batches and of resets: every key not written by an outstanding operation has its value from the primary's prefix up to the applied number, and the whole store equals that prefix when nothing is outstanding |
| `Replication.ReplicaConverges` | pkg/replication/batch.go:157-293 | with the real serializer, a replica started from any prefix and sent serialized operations holds, whenever nothing is outstanding, exactly the prefix it counts as applied |
| `SkipList.InsertSortedSorts` | pkg/memtable/skiplist.go:65-77 | inserting at the position the comparison gives keeps the order (key up, sequence down) and adds exactly the entry |
| `SkipList.InsertEachSorts` | pkg/memtable/skiplist.go:147-184 | any sequence of insertions yields the sort of everything inserted |
| `SkipList.NewestIsNewest` | pkg/memtable/skiplist.go:211-222 | the first entry of a key in the sorted list has the highest sequence number, and is missing exactly when the key is |
| `SkipList.NextTallBefore` | pkg/memtable/skiplist.go:174-180 | where a link that starts before the insertion point leads once the node is in |
| `SkipList.SpliceKeepsLinked` | pkg/memtable/skiplist.go:174-180 | after relinking, every node points at every level to the next node tall enough for it |
| `SkipList.SkipList.constructor` | pkg/memtable/skiplist.go:116-124 | an empty list is linked and sorted |
| `SkipList.SkipList.Descend` | pkg/memtable/skiplist.go:161-172 | the descent finds at each level the last node before the split that is tall enough |
| `SkipList.SkipList.Relink` | pkg/memtable/skiplist.go:174-180 | at each of its levels the node takes over its predecessor's link; no other link changes |
| `SkipList.SkipList.Insert` | pkg/memtable/skiplist.go:147-184 | for every choice of height all levels stay linked and level 0 stays sorted, exactly the entry is added in its place, and level 0 is the sort of everything inserted so far |
| `SkipList.SkipList.WalkLevel` | pkg/memtable/skiplist.go:97-105 | following the links of a level visits exactly the nodes tall enough for it, in order |
| `SkipList.SkipList.SeekNode` | pkg/memtable/skiplist.go:263-281 | stops at the first entry whose key is at or past the target |
| `SkipList.SkipList.Find` | pkg/memtable/skiplist.go:188-223 | the entry of the key with the highest sequence number, or nothing exactly when the key is absent |
| `SkipList.Iterator.SeekToFirst` | pkg/memtable/skiplist.go:258-260 | stands at the first entry |
| `SkipList.Iterator.Seek` | pkg/memtable/skiplist.go:263-281 | every entry before is below the target and none from here on is |
| `SkipList.Iterator.Next` | pkg/memtable/skiplist.go:250-255 | moves to the next entry of level 0, or off the end |
| `MemTable.LastWriteIsNewest` | pkg/memtable/mempool.go:55-74 | with increasing sequence numbers the last write of a key is its newest entry |
| `MemTable.TableAnswersLastWrite` | pkg/memtable/memtable.go:72-105 | a sorted table that holds exactly these writes finds the last one |
| `MemTable.BatchReplays` | pkg/memtable/memtable.go:176-192 | replaying the entry a batch was written as makes the batch's writes in order, numbered consecutively |
| `MemTable.MemTable.Insert` | pkg/memtable/memtable.go:31-66 | a frozen table ignores writes; otherwise the write goes into the table's own skip list, which gains only new nodes, and the sequence counter is updated |
| `MemTable.MemTable.Get` | pkg/memtable/memtable.go:72-105 | found in the skip list: the last write to the key, a deletion being found without a value |
| `MemTable.MemTable.ProcessWALEntry` | pkg/memtable/memtable.go:170-194 | the table takes exactly the writes of the entry, and a batch that does not decode changes nothing and is reported |
| `MemTable.Pool.Write` | pkg/memtable/mempool.go:36-53 | the write comes last in the pool's history, and the pool stays valid: every frozen list is as recorded |
| `MemTable.Pool.WriteActive` | pkg/memtable/mempool.go:36-53 | the write reaches the active table's nodes alone: every frozen list keeps its nodes and each node its links |
| `MemTable.Pool.StartNext` | pkg/memtable/mempool.go:120-125 | the new table shares neither its list nor a node with any other |
| `MemTable.Pool.SwitchToNewMemTable` | pkg/memtable/mempool.go:113-132 | freezes the active table as it is, loses and reorders no write, and changes no list |
| `MemTable.Pool.Get` | pkg/memtable/mempool.go:57-74 | last writer wins over all tables, with a tombstone hiding older tables, whenever sequence numbers increase along the history |
| `Recovery.OperationReplays` | pkg/memtable/memtable.go:170-194 | replaying a put makes its key answer the value, replaying a deletion makes it answer that there is none, and every other key answers as before; a merge changes no answer |
| `Recovery.OperationsReplay` | pkg/memtable/memtable.go:176-191 | the same for the operations of a batch, one after the other |
| `Recovery.LogReflects` | pkg/wal/wal.go:217-274 | replaying the log of any calls makes every key answer with the last operation that they logged for it |
| `Recovery.KeptIsExact` | pkg/wal/batch.go:85-155 | each call logs at most one entry, so every prefix of the log is the log of a number of whole calls |
| `Recovery.KeptWereWritten` | pkg/wal/reader.go:40-134 | that number is exactly the number of calls whose bytes lie wholly before the cut |
| `Recovery.ReplayInto` | pkg/memtable/recovery.go:44-79 | replays all entries in order, whatever heights are drawn |
| `Recovery.GetAfterRestart` | pkg/memtable/recovery.go:35-94 | log, read back, replay, look up: for any calls of Append and of batches, the answer is the last operation logged for the key |
| `Recovery.GetAfterCrash` | pkg/memtable/recovery.go:35-94 | crash atomicity and durability: with the log cut off at any byte, lookups answer as after exactly the calls written in full before it, and no batch is recovered in part |
| `Merge.LookupMeaning` | pkg/iterator/hierarchical_iterator.go:10-14 | the answer of a merge is the first version of the key in the earliest source that has it |
| `Merge.SmallestIsLeast` | pkg/common/iterator/composite/hierarchical.go:226-266 | the running minimum over the sources is the smallest key the search is after, with that answer |
| `Merge.SeenIsSmallest` | pkg/iterator/hierarchical_iterator.go:249-263 | without a nil key the check for keys seen in newer sources never changes the running minimum |
| `Merge.AnswerIsLeast` | pkg/iterator/hierarchical_iterator.go:209-263 | unless the newest version of the empty key is nil, both searches answer with the smallest key and its newest version |
| `Merge.AnswerWithNil` | pkg/iterator/hierarchical_iterator.go:209-263 | if the newest version of the empty key is nil, either search answers with exactly that version, or else, without an index, with another key |
| `Merge.Source.SkipPast` | pkg/iterator/hierarchical_iterator.go:225-247 | stops at the first key past the previous one, and ends |
| `Merge.HierarchicalIterator.SeekToFirst` | pkg/iterator/hierarchical_iterator.go:36-47 | stands at the smallest key of all sources, or is invalid exactly when there is none; where the newest version of the empty key is nil, stands at it or has missed it |
| `Merge.HierarchicalIterator.FindNextUniqueKey` | pkg/iterator/hierarchical_iterator.go:208-274 | the smallest key past the previous one with its newest value, or invalid exactly when there is none; the same exception for a nil key |
| `Merge.HierarchicalIterator.Next` | pkg/iterator/hierarchical_iterator.go:145-158 | moves to the next distinct key, or stays invalid; from a nil key it stays exactly where it is |
| `Merge.HierarchicalIterator.Seek` | pkg/iterator/hierarchical_iterator.go:87-142 | the smallest key at or past the target with its newest value, or invalid exactly when there is none; the same exception for a nil key |
| `Merge.HierarchicalIterator.SearchByIndex` | pkg/common/iterator/composite/hierarchical.go:226-290 | the search of the composite package gives the running minimum, and the second look at the newer sources changes nothing |
| `Merge.HierarchicalIterator.NewestValue` | pkg/common/iterator/composite/hierarchical.go:268-281 | the second look at the newer sources takes the first value shown for the key, or keeps the one found |
| `Merge.ScanStep` | pkg/iterator/hierarchical_iterator.go:145-158 | one step extends a merge by the item it leaves |
| `Merge.AboveShrinks` | pkg/iterator/hierarchical_iterator.go:145-158 | each step to a later key leaves strictly fewer keys ahead |
| `Merge.MergesUnique` | pkg/iterator/hierarchical_iterator.go:10-14 | the merge of given contents is a unique list |
| `Merge.Scan` | pkg/iterator/hierarchical_iterator.go:36-47 | if the newest version of the empty key is not nil, a full scan ends and lists the strictly ascending distinct union of the keys, each with the first version from the earliest source holding it |
| `Merge.ScanFrom` | pkg/iterator/hierarchical_iterator.go:87-158 | the same from a target on; beyond the empty key without any condition |
| `Merge.ScanOfNilKey` | pkg/iterator/hierarchical_iterator.go:145-158 | the condition is exact: otherwise the first steps of a scan, however many, show only the nil key again and again or, without an index, never the empty key |
| `Merge.WrittenNilKey` | pkg/memtable/memtable.go:31-47 | a source to which a nil key was written is one of these |
| `Levels.OverlapsMeansSharedKey` | pkg/compaction/compaction.go:41-52 | two key ranges overlap exactly when some key lies in both |
| `Levels.LoadIsSound` | pkg/compaction/base_strategy.go:80-107 | every sorted table is sound as read, and reads as one without keys exactly when it is empty or its smallest key is |
| `Levels.BystanderIsMissed` | pkg/compaction/tiered_strategy.go:107-119 | a table that misses the deciding range meets no output, even where inputs reach beyond that range |
| `Levels.PiecesAreDisjoint` | pkg/compaction/executor.go:164-169 | consecutive pieces of one strictly ascending run do not overlap |
| `Levels.CompactionKeepsLevels` | pkg/compaction/tiered_strategy.go:75-228 | after any chosen compaction replaced its inputs by its outputs every level from 1 on is still free of overlap |
| `Compaction.HullLast` | pkg/compaction/tiered_strategy.go:102-104 | the computed maximum is at least every selected table's last key |
| `Compaction.CoveredWhenRecovered` | pkg/compaction/tiered_strategy.go:96-105 | the computed range holds every selected table if and only if after each table without keys some later table starts no later than the ones before it |
| `Compaction.SelectionIsExact` | pkg/compaction/tiered_strategy.go:96-119 | under that condition, and only then, no table passed over in level 1 can meet an output |
| `Compaction.KeylessTableHidesOthers` | pkg/compaction/tiered_strategy.go:98-105 | three stored tables, the middle one with the empty key alone, whose computed range leaves the first one out |
| `Compaction.SortBySequence` | pkg/compaction/tiered_strategy.go:81-86 | oldest first, and a permutation |
| `Compaction.PickOverlapping` | pkg/compaction/tiered_strategy.go:171-177 | exactly the tables that overlap the range |
| `Compaction.HullOf` | pkg/compaction/tiered_strategy.go:96-105 | the loop computes the range on which the exactness results are stated |
| `Compaction.PairIsChosen` | pkg/compaction/tiered_strategy.go:159-190 | taking what a covering range overlaps one level down is a choice that keeps the levels |
| `Compaction.TieredStrategy.SelectL0Compaction` | pkg/compaction/tiered_strategy.go:75-132 | the oldest tables and exactly what their range overlaps; a choice that keeps the levels under the exact condition; nothing below two tables |
| `Compaction.TieredStrategy.SelectPromotionCompaction` | pkg/compaction/tiered_strategy.go:135-157 | moves the oldest table, which keeps the levels when the next one is empty |
| `Compaction.TieredStrategy.SelectOverlappingCompaction` | pkg/compaction/tiered_strategy.go:160-190 | the oldest table and exactly what it overlaps, always a choice that keeps the levels |
| `Compaction.TieredStrategy.SelectRange` | pkg/compaction/tiered_strategy.go:193-241 | exactly what the range overlaps in every level, written below the deepest, which keeps the levels; nothing exactly when nothing overlaps |
| `Compaction.TieredStrategy.GetLevelSize` | pkg/compaction/base_strategy.go:143-149 | the sum of the tables' sizes |
| `Compaction.TotalSizeAdds` | pkg/compaction/base_strategy.go:143-149 | the size of tables together is the sum of their sizes |
| `Compaction.OutgrownMeans` | pkg/compaction/tiered_strategy.go:47-68 | a level has outgrown the next exactly when it holds tables and the next none, or its size is at least the ratio times the next one's |
| `Compaction.FirstOutgrownMeans` | pkg/compaction/tiered_strategy.go:47-68 | the first level found is the first that holds something with nothing below it or less than the ratio allows, and none is found exactly when there is none |
| `Compaction.TieredStrategy.SelectAt` | pkg/compaction/tiered_strategy.go:49-67 | selects exactly when the level has outgrown the next, takes its oldest table, and keeps the levels |
| `Compaction.TieredStrategy.SelectBySize` | pkg/compaction/tiered_strategy.go:47-71 | the first level above the deepest that has outgrown the next, or nothing when there is none |
| `Compaction.TieredStrategy.SelectCompaction` | pkg/compaction/tiered_strategy.go:33-72 | level 0 when it holds enough tables (nothing when that is fewer than two), otherwise the first level that has outgrown the next; whatever is selected keeps the levels, under the exact condition on the level-0 tables |
| `Executor.KeptMembers` | pkg/compaction/executor.go:135-146 | dropping tombstones keeps the order and exactly the items that are to be kept |
| `Executor.KeptSurvive` | pkg/compaction/executor.go:135-146 | every item with a value survives, and a tombstone exactly when it is to be kept; nothing else does, and the order stays |
| `Executor.CompactFiles` | pkg/compaction/executor.go:50-188 | the outputs end to end are exactly the live items of the merge and the tombstones to keep; every key with a value in the inputs answers the same in the outputs, and none without; every output but the last holds exactly the maximum, the last at least one |
| `Executor.OutputsAreWritten` | pkg/compaction/executor.go:123-188 | outputs are sorted runs of input keys, as the argument about levels needs |
| `Executor.UnreadKeysAreLost` | pkg/compaction/executor.go:123-128 | keys stored only in a table whose smallest key is empty do not survive its compaction |
| `Executor.Compact` | pkg/compaction/tiered_strategy.go:243-265 | running a chosen task: afterwards each level holds exactly its other tables, and the target the outputs; every key answers from the outputs as it did from the inputs; all levels from 1 on stay free of overlap |
| `Executor.UpperLevelWins` | pkg/compaction/executor.go:54-65 | the merge of the inputs answers a key from the first level that has it |
| `BlockFormat.FullReads` | pkg/sstable/block/block_iterator.go:264-280 | an entry written in full is decoded to itself, and the position moves behind it |
| `BlockFormat.DeltaReads` | pkg/sstable/block/block_iterator.go:281-324 | an entry written as a difference is decoded to itself, given the key before |
| `BlockLayout.BlockOpens` | pkg/sstable/block/block_reader.go:19-56 | opening a written block finds exactly its restart points |
| `BlockLayout.OpensExactly` | pkg/sstable/block/block_reader.go:19-56 | arbitrary bytes open exactly when the last eight are the checksum of all the others and there is room for the restart points claimed |
| `BlockLayout.RestartMember` | pkg/sstable/block/block_iterator.go:254-262 | an entry's offset is a restart point if and only if it was written in full |
| `BlockLayout.LastRestart` | pkg/sstable/block/block_iterator.go:51-54 | the last restart point is that of the last entry written in full |
| `BlockLayout.PieceAt` | pkg/sstable/block/block_iterator.go:251-251 | from an entry's offset on the block starts with that entry's bytes |
| `BlockRoundTrip.NextDecodes` | pkg/sstable/block/block_iterator.go:246-324 | before any entry, restart or not, the next decoding yields it |
| `BlockRoundTrip.FirstDecodes` | pkg/sstable/block/block_iterator.go:20-40 | seeking to the first shows the first entry and does not move past it |
| `BlockRoundTrip.LastDecodes` | pkg/sstable/block/block_iterator.go:43-85 | seeking to the last lands on the last entry, across any number of restart intervals |
| `BlockRoundTrip.ScanVisitsAll` | pkg/sstable/block/block_iterator.go:159-179 | a scan sees every entry in order, the first one twice, and never panics |
| `Block.SharedLength` | pkg/sstable/block/block_builder.go:149-156 | the longest common prefix |
| `Block.Unique` | pkg/sstable/block/block_builder.go:97-110 | keeps exactly the entries whose key the next one does not repeat |
| `Block.LastOfEachMeans` | pkg/sstable/block/block_builder.go:97-110 | exactly the last entry of each run of equal keys is kept, one of each run |
| `Block.AscendingKeepsAll` | pkg/sstable/block/block_builder.go:97-110 | so it changes nothing in what Add accepted |
| `Block.WriteEntry` | pkg/sstable/block/block_builder.go:133-192 | the entry's bytes, failing exactly when the unshared part is too long for its field |
| `Block.WriteEntries` | pkg/sstable/block/block_builder.go:116-196 | all entries back to back with exactly the offsets of those written in full |
| `Block.Builder.Add` | pkg/sstable/block/block_builder.go:34-58 | accepts exactly the keys past the last one, so the entries stay strictly ascending |
| `Block.Builder.Finish` | pkg/sstable/block/block_builder.go:90-224 | the serialized block, failing exactly for an empty block or an oversized key difference |
| `Block.NewReader` | pkg/sstable/block/block_reader.go:19-56 | opens or refuses arbitrary bytes as the reader on values does |
| `Block.Iterator.DecodeCurrent` | pkg/sstable/block/block_iterator.go:203-243 | decodes in place, for arbitrary bytes |
| `Block.Iterator.DecodeNext` | pkg/sstable/block/block_iterator.go:246-324 | decodes and moves on, for arbitrary bytes, including how far a failed decoding gets and when it panics |
| `Block.Iterator.SeekToFirst` | pkg/sstable/block/block_iterator.go:20-40 | the cursor of the model's first position, for arbitrary blocks |
| `Block.Iterator.SeekToLast` | pkg/sstable/block/block_iterator.go:43-85 | the cursor of the model's last position, or a panic on the way; the loop ends for arbitrary blocks |
| `Block.Iterator.Next` | pkg/sstable/block/block_iterator.go:159-179 | the model's next cursor or a panic, starting at the first when not yet positioned |
| `Block.WriteAndScan` | pkg/sstable/block/block_iterator.go:20-179 | for all writable ascending entries: building, opening and scanning sees them all in order, the first twice, and seeking to the last finds the last |
| `Queue.Queue.constructor` | pkg/common/reqprocessor/queue.go:29-37 | an empty queue satisfies the invariant |
| `Queue.Queue.Enqueue` | pkg/common/reqprocessor/queue.go:40-48 | appends to the FIFO contents; the head stays in the first half and the check set holds only hashes of live items |
| `Queue.Queue.Dequeue` | pkg/common/reqprocessor/queue.go:53-80 | takes the oldest item; elements copied so far plus the head never exceed items dequeued; the check set stays exact if and only if no remaining item has the hash that left |
| `Retry.FillingBounds` | pkg/common/retry/retry.go:80-103 | all sleeps but one shortened last one are at least the smaller backoff, which bounds their number by the cap |
| `Retry.RestEnds` | pkg/common/retry/retry.go:68-107 | from any point of the loop, whatever the operation and the draws do: total sleep never exceeds the cap, at most cap / min(initial, max) + 2 attempts even with unlimited retries, and nil without success only when retries or time are used up |
| `Retry.RetryWithConfig` | pkg/common/retry/retry.go:56-108 | the loop does what the model says, with these bounds; the configuration is refused exactly when neither limit is given |
| `Retry.SumsFill` | pkg/common/retry/retry.go:81-86 | the sums that a number of full sleeps can have fill the whole interval between the smallest and the largest |
| `Retry.UncutSums` | pkg/common/retry/retry.go:81-103 | as long as the cap is not used up, the sum of the sleeps lies between these two bounds |
| `Retry.PanicsExactly` | pkg/common/retry/retry.go:80-86 | some outcomes and draws make the jitter call panic if and only if the initial backoff is below ten, or the first sleep is, or the most that the possible number of full sleeps can add up to comes within nine of the cap |
| `Retry.LockDefaultsPanic` | pkg/locks/locks.go:109-119 | outcomes and draws under which the lock manager's own configuration panics |
| `Retry.DefaultsNeverPanic` | pkg/common/retry/retry.go:32-39 | the default configuration never panics, whatever the operation and the draws do |
| `Retry.SafeNeverPanics` | pkg/common/retry/retry.go:80-86 | so a configuration is safe when both backoffs are at least ten and the cap covers all retries at the largest one |

## Left out

- gRPC services, transport, command line, benchmarks, statistics, logging, configuration and manifest files: plumbing around the modelled parts.
- Replica and primary connection loops, heartbeats, compression, batch building on the primary: timers, I/O and external codecs.
- `WAL.AppendBatch`, `AppendWithSequence`, `AppendExactBytes`, syncing, observers and rotation: sequence numbers are claimed within one log only; `AppendBatch` writes a header that its own reader does not parse as a batch.
- `ReplayWALFile` and its skipping of corrupt records: only `ReadEntry` and what it returns on arbitrary bytes are modelled. `RecoverFromWAL` is modelled with one log file and one memtable; starting further tables by size is `Pool.SwitchToNewMemTable`. A zero-length First record, which no writer produces, is an explicit panic outcome.
- The wait loop of `AcquireLock` as one call: it appears as attempt steps followed by success, failure or a given-up wait, and a wait may be given up at any point after its first failed attempt, which allows more runs than the code has.
- The release callback is one step with the release it is called from, as both run under the lock manager's mutex; whether a racing commit reads the buffer before or after the callback clears it is a parameter of that step. Writer preference of the isolation lock is not modelled.
- A transaction's own calls are sequential, except `Rollback`, which may arrive at any time.
- `ApplyBatch` of the store is atomic in the model, and may report failure before or after it took effect.
- `GetForUpdate`, which locks its own non-reentrant mutex again, and the transaction iterators.
- MemTable.MemTable.Insert: the height drawn is a parameter; concurrent readers during an insertion, the overflow of `nextSeqNum`, and size and age limits are not modelled; nil and empty keys, which compare equal, are one there and only told apart in `Merge`.
- SkipList.SkipList.Insert: a single writer, as under the memtable's mutex; the compare-and-swap on the height always succeeds.
- `HierarchicalIterator.SeekToLast`, which for a source with several versions of its last key shows the oldest of them.
- Version precedence between level-0 inputs of a compaction (they are listed oldest first while the merge prefers earlier sources): merge results are stated by list position.
- Executor.CompactFiles: readers that are nil, file errors and file names are left out, and the maximum size is positive.
- Tombstones through tables on disk: the block format does not keep a value's absence, so no claim about deletes is made below the memtables.
- Block `Seek` over several restart points, lookups across blocks and bloom filters: the code does not give the first key at or past the target there.
- Block.Builder.Add: the running size and restart estimate, which `Finish` recomputes, are not modelled.
- Block.Iterator.DecodeNext: the restart index, which is written and never read, is not modelled.
- Retry.RetryWithConfig: durations are unbounded integers, and the panic of the random source is an outcome. That panic inside a lock wait ends the process, so it is not a step of the transaction system.
- CRC-32 and xxhash are arbitrary functions: no claim that corruption is detected.
