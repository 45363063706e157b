# Central repository and DBMS servers, verified

This is a Dafny model of the stateful parts of two Symbian servers and of one small parser, with
proofs about them. `dafny verify dfyconfig.toml` checks all of it.

**The central repository server** lets any number of client sessions run read, exclusive
read/write and optimistic concurrent read/write transactions on one shared array of settings.
The array in memory mirrors a file; a failed commit throws it away and the next request reloads
it. One signed counter encodes the readers or the single writer, another counts the optimistic
transactions, and a queue holds everyone, each with a bit-encoded state. Inside a transaction a
session sees its own settings, with placeholders for deletions, laid over the persistent ones.

**Its cache** keeps repositories nobody is using in memory until a time-out or until another one
needs the space.

**The DBMS server** hands its clients handles to server objects, buffered streams over files,
coalesced database events and lookup keys packed into messages.

**The parser** unquotes a command line in the buffer it is scanning.

## How the model is made

State that the servers update in place is in classes: `SharedRepository`, `ServerSubSession`,
`CacheManager`, `Server`, `ClientBuf`, `ServerStream`, `Session`, `HObserver`,
`SessionNotifier` and others. Each method states its whole new state, mostly by equating it with a
function of the old one. The functions are ordinary values on which the lemmas reason.

| files | what they hold |
|---|---|
| `Settings`, `Merge`, `Bits`, `Overlay`, `Find`, `Operations`, `DeleteRange` | sorted arrays of settings, the commit merge, the overlay a session reads, the write operations |
| `Locks`, `Transactions`, `Commits`, `Sessions` | lock counters and queue, commit, reload and writes as functions, and what each keeps |
| `SharedRepository`, `SubSession`, `ResetDiff`, `Reset` | the objects that do it in place, and the reset to default contents |
| `Runs`, `Serializability`, `Reload`, `Losses`, `RetainedKeys` | runs of any number of sessions, their serial replay, when a reload loses the file, the transactions that outlive it, and the keys a failed commit makes undeletable |
| `IdleList`, `Eviction`, `Leaving`, `Naming`, `Accounts` | the idle list, forced evictions by a reference into arrays that move, a last client leaving, what a slot names in the end, and when the accounts stay in order, as functions (with `Sequences`) |
| `Cache`, `Server` | the open repositories, the cache and the clients as objects, access, and runs of all of it |
| `Notifier` | pending change requests and their fan-out |
| `FlatFile`, `StreamBuf` | a file with two cursors, and the client buffer that refines it |
| `HandleTable`, `Observer`, `LookupKey` | handles, events, packed keys |
| `CmdParse` | the tokenizer |

The main results are `Serializability.RunsAreSerializable`, `Serializability.RunsKeepLocks`,
`Commits.CommitEffect`, `Sessions.WriteInsideEffect`, `Sessions.WriteOutsideAllOrNothing`,
`Reload.FailedCommitLosesFileIff`, `RetainedKeys.RetainedUntilUnloaded`,
`StreamBuf.ClientBuf.PerformAll`, `StreamBuf.ClientBuf.PerformFirstRead`,
`Leaving.LeaveIff`, `Accounts.LeaveSoundIff`, `Cache.CacheManager.RunL`, `Server.Server.AccessL`, `Server.Server.Run`,
`HandleTable.HandleResolvesIff`, `Observer.NothingLost`, `CmdParse.ConstructL` with
`CmdParse.RoundTrip`, `LookupKey.RoundTrip`, `Reset.ResetAllNoPersist` and `Notifier.RunConserves`.

## Where the code does not do what one would expect

Each of these is stated exactly, with a condition for all inputs, and most with a concrete case as well.

* The comparison of two settings takes an integer zero for an empty string, because it looks at the
  pointer in their union. A commit drops an empty string written over a zero
  (`Overlay.CommitPublishesValues`, `Overlay.EmptyStringOverZeroIsLost`), and a reset does not
  notify the opposite change (`ResetDiff.DiffersOnValues`). Metadata of a setting written with an
  equal value is not committed either (`Overlay.CommitPublishesView`).
* A range deletion walks addresses into the transaction's own array while it inserts placeholders
  there. It deletes the wrong entry exactly when a matching key the transaction has not written lies
  below one that it has (`DeleteRange.RangeDeletionCorrectIff`, `DeleteRange.CreatedKeySurvives`).
* The array of deleted keys is not emptied before a reload. If the file lists one of its keys, the
  file counts as corrupt and is deleted (`Reload.FailedCommitLosesFileIff`,
  `Reload.DeletedKeyLosesFile`). The access that finds it fails its own transaction only; others go on, and
  one that commits over the defaults may have seen what fits no serial order (`Losses.CommitOverLoss`).
  Serializability holds for every run without such a commit (`Serializability.RunsAreSerializable`).
* A backed-up key whose deletion failed stays on that array, and so does, when the file is lost, every
  listed key that the defaults hold backed up. Each later deletion of it fails, until one of the
  requests that end this, which are stated exactly (`RetainedKeys.FailedDeletionRetains`,
  `RetainedKeys.LossRetainsIff`, `RetainedKeys.StepRetainedIff`, `RetainedKeys.RetainedUntilUnloaded`).
* A stream opened for writing remembers a read position it never reached, the length of a
  bufferful. A first read from exactly there gets the beginning of the file instead
  (`StreamBuf.ClientBuf.PerformFirstRead`); everything else is as it should be
  (`StreamBuf.ClientBuf.PerformAll`).
* The cache takes a repository by a reference into an array whose elements it moves. The timer
  passes a slot of the idle list that is removed first, so that the next repository is made idle a
  second time unless the slot was the last (`Cache.CacheManager.RunL`,
  `Cache.CacheManager.OtherIdleTwice`); a closing client passes a slot of the open list that forced
  evictions move (`Leaving.LeaveIff`, `Accounts.LeaveSoundIff`, `Server.Server.ThirdBecomesIdle`,
  `Server.Server.ThirdIsUnloaded`). When the accounts stay in order is stated from what is known before
  (`Accounts.IdleSlotKeepsIff`, `Accounts.LeaveKeepsIff`). Neither breaks an access: what is open still
  mirrors its file, in every state (`Server.Server.Run`).
* A repository that is on the idle list twice, and due twice, is unloaded twice; its size is then read from
  a deleted object (`Cache.TimerReadsOpenIff`, `Cache.CacheManager.DeletedIsRead`). With the accounts in
  order that does not happen (`Accounts.SoundReadsOpen`).
* Enabling the cache again with a limit below the usage breaks its accounts
  (`Cache.CacheManager.EnableCache`, `Cache.CacheManager.EnableBelowUsage`). An access can then unload
  what it gives the client, exactly if that is idle twice and has to go for itself
  (`Eviction.LocalStaysIff`, `Eviction.LocalUnloadedOnlyIf`, `Server.Server.AccessUnloads`).

## Parameters of the model

What the servers get from outside is an input: the allocation that fails in a merge (one failing
iteration, or none), the errors of forming the file name and of writing the file, the backup state,
the outcome of policy and argument checks, the time, the order that the forced-eviction sort
delivers (its comparison is not transitive, so nothing is assumed of it but that it rearranges),
old memory contents in a grown handle table, and the character mapping of the upper-casing.

## Model

| member | source | states |
|---|---|---|
| `Settings.LookupInsert` | persistentstorage/centralrepository/common/inc/datatype.inl:23-60 | an ordered insertion changes the lookup of its own key and of no other |
| `Settings.LookupDetermines` | persistentstorage/centralrepository/common/src/datatype.cpp:72-117 | two sorted arrays with the same lookups are the same array |
| `Merge.MergeTransaction` | persistentstorage/centralrepository/common/src/datatype.cpp:427-480 | the in-place commit merge, backwards with deletions from the list it walks, leaves the arrays and the error of the specification |
| `Merge.MergeAt` | persistentstorage/centralrepository/common/src/datatype.cpp:427-480 | after an error-free merge each key holds what publishing its own entry alone gives; the change list is exactly the entries that changed something; the deleted list gains removed backed-up keys and loses re-created ones |
| `Merge.MergeMeans` | persistentstorage/centralrepository/common/src/datatype.cpp:427-480 | the same for merging the first n entries, from any state |
| `Merge.MergeFailsIffBlocked` | persistentstorage/centralrepository/common/src/datatype.cpp:427-480 | with enough memory the merge fails if and only if some deletion is of a backed-up key that is on the deleted list already, and then with KErrAlreadyExists |
| `Merge.MergeStops` | persistentstorage/centralrepository/common/src/datatype.cpp:427-480 | whether the merge fails, at which entry and with which error, for any failing allocation; the deleted list it leaves is that of the entries after the one it stopped at, and of no other |
| `Merge.DeletedAfterMerge` | persistentstorage/centralrepository/common/src/datatype.cpp:427-480 | the same for a whole merge, failed or not, at one key |
| `Merge.ErrorKeepsChanges` | persistentstorage/centralrepository/common/src/datatype.cpp:427-480 | after an error the change list is not empty, which the commit relies on to know that memory is to be thrown away |
| `Overlay.CommitPublishesView` | persistentstorage/centralrepository/cenrepsrv/srvrepos_noc.h:264-276 | each key of the committed array equals what the transaction saw, if and only if the comparison does not mask a difference; a masked key keeps its old setting |
| `Overlay.CommitPublishesValues` | persistentstorage/centralrepository/common/inc/setting.inl:397-403 | for values alone: the committed value is the one seen, except exactly for an empty string written over an integer zero |
| `Overlay.EmptyStringOverZeroIsLost` | persistentstorage/centralrepository/common/inc/setting.inl:397-403 | a concrete commit that reports no change and loses the empty string |
| `Overlay.ChangesAreTheDifference` | persistentstorage/centralrepository/cenrepsrv/shrepos.cpp:95-182 | the keys left in the change list are exactly those whose persistent setting differs afterwards |
| `Overlay.MergeKeepsLive` | persistentstorage/centralrepository/common/src/datatype.cpp:427-480 | no placeholder reaches the persistent array |
| `Bits.MatchBounds` | persistentstorage/centralrepository/common/src/datatype.cpp:72-117 | every 32-bit key that matches a mask lies between the two bounds the search scans |
| `Find.FindSlots` | persistentstorage/centralrepository/common/src/datatype.cpp:72-117 | the bounded scan finds exactly the matching slots, ascending |
| `Find.MergePointers` | persistentstorage/centralrepository/common/src/datatype.cpp:130-201 | the in-place merge of two ascending pointer arrays: source entries replace those with their key, deleted ones remove them, nothing else is touched |
| `Find.FindSettings` | persistentstorage/centralrepository/cenrepsrv/srvrepos_noc.h:285-300 | a search in a transaction returns exactly the own live matches and the persistent matches without an own entry, ascending |
| `Find.FoundIsVisible` | persistentstorage/centralrepository/cenrepsrv/srvrepos_noc.h:278-300 | a key is found if and only if it matches and a read of it would succeed, and with that setting |
| `Find.FoundAnswers` | persistentstorage/centralrepository/cenrepsrv/srvrepos_noc.h:278-300 | the settings at the found addresses are the answer a reader of the overlay expects, key by key |
| `Operations.SetChangesView` | persistentstorage/centralrepository/common/inc/operations.h:112-153 | a set changes the view of its own key to the new value, or fails on a type mismatch and changes nothing |
| `Operations.CreateChangesView` | persistentstorage/centralrepository/common/inc/operations.h:165-199 | a create fails if and only if the key is visible, and otherwise shows exactly the new value |
| `Operations.DeleteChangesView` | persistentstorage/centralrepository/common/inc/operations.h:78-104 | a delete fails if and only if the key is not visible, and otherwise hides it and nothing else |
| `DeleteRange.DeleteSettingsRange` | persistentstorage/centralrepository/common/inc/operations.h:39-71 | the deletion loop through addresses into the array it inserts into computes its specification |
| `DeleteRange.RangeDeletionCorrectIff` | persistentstorage/centralrepository/common/inc/operations.h:39-71 | a range deletion removes exactly the visible matches if and only if no matching key the transaction only inherited lies below a matching key it wrote itself |
| `DeleteRange.CreatedKeySurvives` | persistentstorage/centralrepository/common/inc/operations.h:39-71 | a concrete transaction in which a created key survives the deletion of everything |
| `Locks.ReleaseIsSane` | persistentstorage/centralrepository/cenrepsrv/obsrvr_noc.cpp:927-947 | the sanity assertions of a lock release hold whenever the counters describe the queue |
| `Locks.ReleaseLeavesOut` | persistentstorage/centralrepository/cenrepsrv/obsrvr_noc.cpp:927-947 | a release leaves the counters describing everyone but the session that released |
| `Locks.StartKeeps` | persistentstorage/centralrepository/cenrepsrv/shrepos.cpp:830-868 | starting a transaction keeps the counters equal to the numbers of active transactions of each kind |
| `Locks.FailKeeps` | persistentstorage/centralrepository/cenrepsrv/shrepos.cpp:916-926 | failing a transaction releases its lock exactly once |
| `Locks.CancelKeeps` | persistentstorage/centralrepository/cenrepsrv/obsrvr_noc.cpp:908-919 | cancelling keeps the counters and the queue in step |
| `Locks.PromoteKeeps` | persistentstorage/centralrepository/cenrepsrv/shrepos.cpp:954-974 | promotion keeps the counters, and succeeds if and only if the session is the only active reader |
| `Locks.FailAllMeans` | persistentstorage/centralrepository/cenrepsrv/shrepos.cpp:935-948 | failing everyone but one leaves both counters zero, fails exactly the active others with KErrLocked, and touches nobody else |
| `Locks.CommitOrder` | persistentstorage/centralrepository/cenrepsrv/shrepos.cpp:878-913 | release first, then fail the others: no transaction counts as active although the committer is still marked so, and removing the committer restores the invariant |
| `SharedRepository.Transactor.SetFailed` | persistentstorage/centralrepository/cenrepsrv/shrepos.h:217-226 | the failed state of a transactor |
| `SharedRepository.SharedInfo.ReleaseTransactionLock` | persistentstorage/centralrepository/cenrepsrv/obsrvr_noc.cpp:927-947 | updates the counters as specified, its assertions proved |
| `SharedRepository.SharedInfo.CancelTransaction` | persistentstorage/centralrepository/cenrepsrv/obsrvr_noc.cpp:908-919 | releases the lock, unlinks the transactor from the queue and resets it |
| `SharedRepository.SharedRepository.StartTransaction` | persistentstorage/centralrepository/cenrepsrv/shrepos.cpp:830-868 | the whole new state and the error for every mode |
| `SharedRepository.SharedRepository.FailTransaction` | persistentstorage/centralrepository/cenrepsrv/shrepos.cpp:916-926 | the whole new state: lock released, then marked failed |
| `SharedRepository.SharedRepository.FailAllTransactions` | persistentstorage/centralrepository/cenrepsrv/shrepos.cpp:935-948 | the loop over the queue computes the specification, skipping the excluded transactor |
| `SharedRepository.SharedRepository.AttemptPromoteTransactionToReadWrite` | persistentstorage/centralrepository/cenrepsrv/shrepos.cpp:954-974 | the new state and the error |
| `SharedRepository.SharedRepository.CommitToFile` | persistentstorage/centralrepository/cenrepsrv/shrepos.cpp:69-90 | file written or memory to be reloaded; callable only when no transaction counts as active |
| `SharedRepository.SharedRepository.DoCommitTransactionSettings` | persistentstorage/centralrepository/cenrepsrv/shrepos.cpp:95-182 | merge, lock-out of the others, file, notification, in that order: the whole new state, error and key information |
| `SharedRepository.SharedRepository.CommitTransaction` | persistentstorage/centralrepository/cenrepsrv/shrepos.cpp:878-913 | the whole new state, error and key information, and the transactor out of the queue |
| `SharedRepository.SharedRepository.RestoreConsistency` | persistentstorage/centralrepository/cenrepsrv/shrepos.cpp:623-658 | the reload, which reads the file's deleted keys into the array that still holds the old ones |
| `SharedRepository.SharedRepository.InternalizeDeleted` | persistentstorage/centralrepository/common/src/cregen.cpp:215-225 | reading stops at the first key that is in the array already |
| `Commits.CommitEffect` | persistentstorage/centralrepository/cenrepsrv/shrepos.cpp:878-913 | commit of an active transaction: on success memory and file are the old contents with its settings published over them, on failure the file is untouched and memory is to be reloaded; notified keys are exactly the changed ones, each once, in order, counted in the key information, and none after a failure; whoever is still active afterwards was before and sees unchanged contents |
| `Commits.FailedCommitEffect` | persistentstorage/centralrepository/cenrepsrv/shrepos.cpp:878-913 | commit of a failed transaction returns the stored reason and only leaves the queue |
| `Commits.DoCommitStores` | persistentstorage/centralrepository/cenrepsrv/shrepos.cpp:95-182 | what a commit puts in memory and on file |
| `Commits.DoCommitNotifies` | persistentstorage/centralrepository/cenrepsrv/shrepos.cpp:168-181 | whom a commit notifies of what |
| `Commits.DoCommitOthers` | persistentstorage/centralrepository/cenrepsrv/shrepos.cpp:126-131 | what a commit leaves of the other transactions |
| `Transactions.NoChangeNoEffect` | persistentstorage/centralrepository/cenrepsrv/shrepos.cpp:103-114 | a merge that reports no change succeeded and changed nothing |
| `Transactions.MergeIsPublishAll` | persistentstorage/centralrepository/cenrepsrv/shrepos.cpp:102-102 | an error-free merge does not depend on the deleted list or the failing allocation |
| `Sessions.WriteInsideEffect` | persistentstorage/centralrepository/cenrepsrv/srvsubsess.cpp:220-278 | a write in a transaction, exactly: a reader that is not alone is failed with KErrLocked and the key; any other session becomes or stays a writer with the operation's result for its own settings, failed if and only if the operation fails it or leaves, with that code and with the key only if the operation failed it; nobody else changes |
| `Sessions.WriteOutsideEffect` | persistentstorage/centralrepository/cenrepsrv/srvsubsess.cpp:240-277 | a write outside a transaction leaves no trace, or is one commit of a transaction holding the operation's settings |
| `Sessions.WriteOutsideAllOrNothing` | persistentstorage/centralrepository/cenrepsrv/srvsubsess.cpp:240-277 | on every return, failure and leave: no transaction and no lock is left, and the file has all of the operation's changes exactly when KErrNone is returned, none otherwise |
| `Sessions.ErrorLeavesOwn` | persistentstorage/centralrepository/cenrepsrv/srvsubsess.cpp:429-431 | an operation that reports an error without failing the transaction has not changed its settings |
| `SubSession.ServerSubSession.Get` | persistentstorage/centralrepository/cenrepsrv/srvrepos_noc.h:264-276 | a read shows the transaction's own settings over the persistent ones |
| `SubSession.ServerSubSession.Operate` | persistentstorage/centralrepository/common/inc/operations.h:39-199 | the operation on the transaction's own array |
| `SubSession.ServerSubSession.ServerFunction` | persistentstorage/centralrepository/cenrepsrv/srvsubsess.cpp:409-432 | the check for a reader that could not be promoted, the operation, and the failing of the transaction |
| `SubSession.ServerSubSession.WriteInTransaction` | persistentstorage/centralrepository/cenrepsrv/srvsubsess.cpp:249-266 | promotion, operation, and failure on a leave |
| `SubSession.ServerSubSession.WriteInTemporaryTransaction` | persistentstorage/centralrepository/cenrepsrv/srvsubsess.cpp:240-277 | the temporary transaction from start to commit or cancel |
| `SubSession.ServerSubSession.WriteOperations` | persistentstorage/centralrepository/cenrepsrv/srvsubsess.cpp:220-278 | the whole dispatch, with the refusals during backup and in a failed transaction |
| `Serializability.RunsAreSerializable` | persistentstorage/centralrepository/cenrepsrv/shrepos.cpp:95-182 | in every run of starts, reads, searches, writes, promotions, failures, cancels, commits and resets by any number of sessions, with evictions by the cache in between, the file equals the serial replay, in commit order, of exactly the transactions that committed with KErrNone and the resets, a lost file counting as a reset to the defaults, and every read and write of those transactions is answered in the replay as it was in the run; as long as no transaction that was open when the file was lost has committed |
| `Serializability.RunCrosses` | persistentstorage/centralrepository/cenrepsrv/shrepos.cpp:878-913 | what the replay invariant is given up for is exactly such a commit |
| `Serializability.NoLossNoCrossing` | persistentstorage/centralrepository/cenrepsrv/shrepos.cpp:878-913 | without a lost file there is none |
| `Losses.RunStale` | persistentstorage/centralrepository/cenrepsrv/srvsubsess.cpp:52-177 | a transaction is one of those if and only if some reload lost the file while it was open, in a request of another session, and the session has not started another since |
| `Losses.LossReplaysIff` | persistentstorage/centralrepository/common/src/heaprepos.cpp:325-344 | at the losing step what was logged before still replays to the file if and only if the old contents equal the defaults |
| `Losses.CommitOverLoss` | persistentstorage/centralrepository/cenrepsrv/srvsubsess.cpp:52-177 | a concrete run: a reader has seen a setting, the file is lost to another session, the reader sees that the setting is gone and commits with KErrNone; no log that holds its transaction, whatever else and in whatever order, replays from any contents |
| `Serializability.RunsKeepLocks` | persistentstorage/centralrepository/cenrepsrv/obsrvr_noc.cpp:908-947 | in every reachable state the counters describe the queue, and a transaction is active if and only if a counter says so |
| `Serializability.RunLosesFile` | persistentstorage/centralrepository/cenrepsrv/shrepos.cpp:750-818 | a run has lost the file if and only if some state of it had a reload due whose deleted keys meet those in memory |
| `Serializability.StepKeepsInv` | persistentstorage/centralrepository/cenrepsrv/srvsubsess.cpp:52-177 | every request keeps the invariant the replay rests on |
| `Serializability.CommitKeepsInv` | persistentstorage/centralrepository/cenrepsrv/shrepos.cpp:878-913 | a commit extends the replay by its own transaction, and leaves every surviving one replayable |
| `Serializability.WriteKeepsInv` | persistentstorage/centralrepository/cenrepsrv/srvsubsess.cpp:220-278 | a write extends the trace of its transaction, or fails it, or is a transaction of its own |
| `Serializability.ReadKeepsInv` | persistentstorage/centralrepository/cenrepsrv/srvsubsess.cpp:194-214 | a read extends the trace of its transaction, or is one of its own |
| `Reload.RestoreEffect` | persistentstorage/centralrepository/cenrepsrv/shrepos.cpp:623-658 | a reload brings memory back to the file, and fails if and only if the two lists of deleted keys meet |
| `Reload.FailedCommitDeleted` | persistentstorage/centralrepository/common/src/datatype.cpp:427-480 | the list of deleted keys in memory after a failed commit, whether the merge or the writing failed |
| `Reload.FailedCommitLosesFileIff` | persistentstorage/centralrepository/common/src/heaprepos.cpp:325-344 | after any failed commit the next access loses the file if and only if the file lists a deleted key that is still, or by then, on the list in memory, once the entries merged before the failure have had their effect |
| `Reload.FailedWriteLosesFileIff` | persistentstorage/centralrepository/common/src/heaprepos.cpp:325-344 | when the merge succeeded and the lists were equal before: if and only if the file lists a deleted key that the failed transaction had not created anew |
| `Reload.DeletedKeyLosesFile` | persistentstorage/centralrepository/common/src/cregen.cpp:215-225 | a concrete failed commit after which the repository falls back to its defaults |
| `RetainedKeys.FailedDeletionRetains` | persistentstorage/centralrepository/common/src/datatype.cpp:427-480 | a failed commit that was to delete a backed-up key leaves the key in the file and on the list in memory, if and only if it was listed before or the merge had got to it |
| `RetainedKeys.CommitRetainedIff` | persistentstorage/centralrepository/common/src/datatype.cpp:440-462 | a commit that is to delete such a key fails; any commit keeps the key on the list and in the file, if and only if it does not succeed with a different setting for it that is not backed up |
| `RetainedKeys.CommitKeepsRetained` | persistentstorage/centralrepository/common/src/datatype.cpp:440-462 | so one whose entry has the backup bit of the setting keeps it |
| `RetainedKeys.DeleteRetainedFails` | persistentstorage/centralrepository/cenrepsrv/srvsubsess.cpp:240-277 | deleting such a key outside a transaction fails with KErrAlreadyExists, whatever the memory and the file system do |
| `RetainedKeys.ReplayKeepsBackup` | persistentstorage/centralrepository/common/inc/operations.h:39-199 | whatever operations a transaction makes, its entry for an existing key keeps the backup bit of the setting |
| `RetainedKeys.LossRetainsIff` | persistentstorage/centralrepository/common/src/heaprepos.cpp:325-344 | a loss empties no list: such a key is from then on exactly one that the defaults hold backed up and that was on the list, or is put there from the file before the key at which reading stops |
| `RetainedKeys.StepRetainedIff` | persistentstorage/centralrepository/cenrepsrv/shrepos.cpp:623-658 | each request but these keeps such a key listed and in the file: an unloading, unless the file lists the key; a loss, unless the defaults hold it backed up; a reset; a successful commit, of a transaction that was open when the file was lost, that takes its backup bit off |
| `RetainedKeys.RunKeepsRetained` | persistentstorage/centralrepository/cenrepsrv/shrepos.cpp:623-658 | in every run, lost files or not, such a key stays listed and in the file until one of those requests |
| `RetainedKeys.RetainedUntilUnloaded` | persistentstorage/centralrepository/cenrepsrv/shrepos.cpp:878-913 | in every run, until then every commit of a transaction that deletes the key fails, with KErrAlreadyExists if memory does not run out |
| `Reset.ResetAllNoPersist` | persistentstorage/centralrepository/cenrepsrv/shrepos.cpp:305-374 | contents become the new array, the deleted list empty, and the notified keys are exactly those on which the arrays differ, each once, in order |
| `ResetDiff.DiffKeysTold` | persistentstorage/centralrepository/cenrepsrv/shrepos.cpp:318-357 | the two scans meet every difference once |
| `ResetDiff.DiffersOnValues` | persistentstorage/centralrepository/common/inc/setting.inl:397-403 | two settings count as different if and only if their values are, except for a zero coming in for an empty string |
| `ResetDiff.ResetEffect` | persistentstorage/centralrepository/cenrepsrv/srvsubsess.cpp:1124-1155 | a reset leaves nobody in an active transaction, notifies exactly the differing keys, and leaves the file with the new contents or as it was |
| `Reset.ResetAll` | persistentstorage/centralrepository/cenrepsrv/srvsubsess.cpp:1124-1155 | the whole new state and the error |
| `Serializability.ResetKeepsInv` | persistentstorage/centralrepository/cenrepsrv/srvsubsess.cpp:280-295 | a reset is an entry of the log of its own, or fails the transaction it was asked for in, or is refused |
| `Serializability.UnloadKeepsInv` | persistentstorage/centralrepository/cenrepsrv/cachemgr.cpp:355-358 | transactions survive the unloading of their repository |
| `IdleList.SumRearranged` | persistentstorage/centralrepository/cenrepsrv/cachemgr.cpp:264-281 | sorting the idle list does not change the usage |
| `IdleList.SortByTime` | persistentstorage/centralrepository/cenrepsrv/cachemgr.cpp:278-279 | the idle list sorted by time, rearranged only |
| `IdleList.InsertByTime` | persistentstorage/centralrepository/cenrepsrv/cachemgr.cpp:296-307 | an insertion behind everything that is not later keeps the list in order of time |
| `Eviction.EvictedIdle` | persistentstorage/centralrepository/cenrepsrv/cachemgr.cpp:264-271 | after n forced evictions the idle list is without its first n entries, and the usage without their sizes |
| `Eviction.EvictedOpen` | persistentstorage/centralrepository/cenrepsrv/cachemgr.cpp:264-271 | a repository is open after n evictions if and only if it was before and is not one of the first n |
| `Eviction.StartBooks` | persistentstorage/centralrepository/cenrepsrv/cachemgr.cpp:234-329 | whatever is idle twice or has been unloaded, whatever the reference, the sorting and the memory: the usage stays the sum of the sizes on the list, the list in order of time, one repository open for each uid, and the usage within the limit where it was |
| `Eviction.LocalStaysIff` | persistentstorage/centralrepository/cenrepsrv/cachemgr.cpp:234-281 | an open repository that is made idle by a variable of its own is still open afterwards if and only if it is not among the idle ones at the front of the order that must go for its size |
| `Eviction.LocalUnloadedOnlyIf` | persistentstorage/centralrepository/cenrepsrv/cachemgr.cpp:234-281 | so only a repository that is idle twice can be unloaded for itself, and only with a usage above the limit |
| `Eviction.LocalAcceptedIff` | persistentstorage/centralrepository/cenrepsrv/cachemgr.cpp:283-312 | it becomes idle if and only if there is memory and its size is below the limit or fits beside what is idle; a refusal with memory forces nothing out |
| `Eviction.ReadsOpenIff` | persistentstorage/centralrepository/cenrepsrv/cachemgr.cpp:264-271 | n evictions read the sizes of open repositories alone if and only if each of the first n is open and not among the ones before it; a size is otherwise read from a deleted object |
| `Eviction.SlotKept` | persistentstorage/centralrepository/cenrepsrv/cachemgr.cpp:264-271 | a slot of the open list names its element as long as what is unloaded lies behind it, or the slot is at the end by then |
| `Eviction.SlotLost` | persistentstorage/centralrepository/cenrepsrv/cachemgr.cpp:264-271 | from the first unloading that does neither, the element lies before its slot for good |
| `Leaving.TurnsVersus` | persistentstorage/centralrepository/cenrepsrv/cachemgr.cpp:264-271 | how many are forced out for a slot: as many as for the repository itself while they spare the slot, and more than came before the first that does not |
| `Leaving.LeaveIff` | persistentstorage/centralrepository/cenrepsrv/obsrvr_noc.cpp:94-113 | a repository whose last client goes is idle or unloaded afterwards if and only if it was idle twice, or each of those at the front of the order that must go for its size spares its slot; from what is known before the call |
| `Leaving.LeaveBooks` | persistentstorage/centralrepository/cenrepsrv/obsrvr_noc.cpp:94-113 | a leaving keeps the books and the limit |
| `Naming.IdleAcceptedIff` | persistentstorage/centralrepository/cenrepsrv/cachemgr.cpp:254-312 | whether what a slot of the idle list names in the end becomes idle, from the order, the sizes, the usage and the slot alone |
| `Naming.OpenAcceptedIff` | persistentstorage/centralrepository/cenrepsrv/cachemgr.cpp:254-312 | how many are forced out for a slot of the open list, what it names then, and whether that becomes idle, from the order, the open list, the sizes and the usage alone; so a refusal with memory may have forced others out |
| `Accounts.SoundReadsOpen` | persistentstorage/centralrepository/cenrepsrv/cachemgr.cpp:264-271 | with the accounts in order no eviction reads a deleted repository |
| `Accounts.StartSoundIff` | persistentstorage/centralrepository/cenrepsrv/cachemgr.cpp:234-329 | with the accounts in order (each idle repository open and on the list once) an eviction keeps them if and only if it inserts nothing, or something that is open and not on the list |
| `Accounts.LocalSound` | persistentstorage/centralrepository/cenrepsrv/cachemgr.cpp:234-329 | for a variable of its own it always does |
| `Accounts.IdleSlotSoundIff` | persistentstorage/centralrepository/cenrepsrv/cachemgr.cpp:373-387 | for the slot of an idle repository if and only if that is the last one or nothing is inserted |
| `Accounts.IdleSlotKeepsIff` | persistentstorage/centralrepository/cenrepsrv/cachemgr.cpp:373-387 | the same from what is known before: it is not the last and what the slot names in the end is accepted |
| `Accounts.LeaveSoundIff` | persistentstorage/centralrepository/cenrepsrv/obsrvr_noc.cpp:94-113 | with the accounts in order a repository whose last client goes is idle at the given time, or no longer open, if and only if each of those that must go lies behind it in the open list, or, while there is memory, the list has by then shrunk to its slot |
| `Accounts.LeaveKeepsIff` | persistentstorage/centralrepository/cenrepsrv/obsrvr_noc.cpp:94-113 | a leaving keeps the accounts if and only if what the slot names in the end is the repository itself or not idle, or is refused when the list has shrunk to the slot; from what is known before |
| `Cache.Observable.FindOpenRepository` | persistentstorage/centralrepository/cenrepsrv/obsrvr_noc.cpp:216-228 | the slot of the repository of a uid |
| `Cache.Observable.RemoveOpenRepository` | persistentstorage/centralrepository/cenrepsrv/obsrvr_noc.cpp:202-214 | exactly that repository is no longer open; one that is not open is ignored |
| `Cache.BusyMeans` | persistentstorage/centralrepository/cenrepsrv/cachemgr.cpp:373-387 | the timer stops at the first repository that is due and in use, if any is |
| `Cache.CacheManager.RemoveIdleRepository` | persistentstorage/centralrepository/cenrepsrv/cachemgr.cpp:185-225 | the last entry of the repository leaves the idle list, the usage drops by its size; the array memory afterwards |
| `Cache.CacheManager.StartEviction` | persistentstorage/centralrepository/cenrepsrv/cachemgr.cpp:234-329 | both arrays, the memory behind them, the usage and the answer, for any kind of reference, in any consistent state |
| `Cache.CacheManager.EvictUntilFits` | persistentstorage/centralrepository/cenrepsrv/cachemgr.cpp:264-271 | the do-while loop computes the specification: until what the reference names by then fits |
| `Cache.CacheManager.FlushCache` | persistentstorage/centralrepository/cenrepsrv/cachemgr.cpp:331-352 | from any idle list the accounts are in order again, the list empty; what stays open is exactly what was not idle or has a client |
| `Cache.CacheManager.RunL` | persistentstorage/centralrepository/cenrepsrv/cachemgr.cpp:361-412 | all that is due is unloaded if none of it is in use; otherwise the first one in use is made idle by its slot, and accounts that are in order stay so if and only if that was the last one or nothing is inserted; consistent in either case |
| `Cache.CacheManager.OtherIdleTwice` | persistentstorage/centralrepository/cenrepsrv/cachemgr.cpp:373-387 | two idle repositories, the first due and in use: the second is idle twice and counted twice, the first not at all |
| `Cache.CacheManager.DeletedIsRead` | persistentstorage/centralrepository/cenrepsrv/cachemgr.cpp:394-402 | and when both its entries are due, its size is read after it has been deleted |
| `Cache.TimerReadsOpenIff` | persistentstorage/centralrepository/cenrepsrv/cachemgr.cpp:373-402 | what the timer reads of the due repositories is in memory if and only if each of them is open and not due twice |
| `Cache.CacheManager.DisableCache` | persistentstorage/centralrepository/cenrepsrv/cachemgr.cpp:143-156 | from any state: no repository is idle any more and the accounts are in order |
| `Cache.CacheManager.EnableCache` | persistentstorage/centralrepository/cenrepsrv/cachemgr.cpp:119-141 | accounts that are in order stay so under a new limit if and only if the present usage is within it |
| `Cache.CacheManager.EnableBelowUsage` | persistentstorage/centralrepository/cenrepsrv/cachemgr.cpp:119-141 | a usage of 3 and a new limit of 2: the accounts are not in order |
| `Server.Server.AccessL` | persistentstorage/centralrepository/cenrepsrv/obsrvr_noc.cpp:832-892 | in any consistent state: the open repository of the uid, or a new one, not waiting for a reload, with the contents of its file; it fails if and only if the reload of an open one loses the file; it is still open, and the only one of its uid, if and only if it is not forced out for itself; with room and memory its time-out starts anew |
| `Server.Server.AccessUnloads` | persistentstorage/centralrepository/cenrepsrv/obsrvr_noc.cpp:832-892 | idle twice and a limit between its size and twice that: an access unloads what it gives the client |
| `Server.Server.Restore` | persistentstorage/centralrepository/cenrepsrv/shrepos.cpp:623-658 | the reload of an open repository; an error if and only if it loses the file |
| `Server.Server.CommitOn` | persistentstorage/centralrepository/cenrepsrv/shrepos.cpp:69-90 | a commit on an open repository, failed or not, keeps memory and file in step |
| `Server.Server.RemoveObserver` | persistentstorage/centralrepository/cenrepsrv/obsrvr_noc.cpp:72-117 | both lists, usage and memory after a client has gone, in any consistent state, also when the insertion runs out of memory |
| `Server.Server.ThirdBecomesIdle` | persistentstorage/centralrepository/cenrepsrv/obsrvr_noc.cpp:94-113 | three open repositories, the first idle, the second losing its last client: the first is unloaded, the third becomes idle in use, the second neither |
| `Server.Server.ThirdIsUnloaded` | persistentstorage/centralrepository/cenrepsrv/obsrvr_noc.cpp:94-113 | if the third is larger than the limit it is refused, although the first had to go, and unloaded; the second stays open |
| `Server.Server.Run` | persistentstorage/centralrepository/cenrepsrv/obsrvr_noc.cpp:832-892 | over every run of accesses, connections, closings, timer events, commits, flushes and switches of the cache: one repository in memory for each uid, mirroring its file, and right books; and the usage within the limit as long as that is not lowered |
| `Server.AccessAfter` | persistentstorage/centralrepository/cenrepsrv/obsrvr_noc.cpp:832-892 | so, in every state a new server reaches without its limit having been lowered, an access that does not fail gives the one open repository of the uid, equal to its file |
| `Sequences.PermutedSame` | persistentstorage/centralrepository/cenrepsrv/cachemgr.cpp:259-260 | any permutation of positions is a rearrangement of the list |
| `StreamBuf.ClientBuf.WriteAndReadBack` | persistentstorage/dbms/sdbms/SD_BUF.CPP:51-285 | what was written through the buffer is read back through it, sent to the server or not |
| `StreamBuf.ServerStream.ReadL` | persistentstorage/dbms/sdbms/SD_BUF.CPP:305-329 | bytes of the file from the position asked for, unless the position remembered is that one and wrong |
| `StreamBuf.ServerStream.WriteL` | persistentstorage/dbms/sdbms/SD_BUF.CPP:331-351 | the file with the data at the position, transferred in chunks |
| `StreamBuf.ClientBuf.UnderflowL` | persistentstorage/dbms/sdbms/SD_BUF.CPP:51-68 | outstanding writes are sent and the read area refilled without any visible change; nothing comes only at the end of the file |
| `StreamBuf.ClientBuf.OverflowL` | persistentstorage/dbms/sdbms/SD_BUF.CPP:70-82 | the write area becomes the whole buffer without any visible change |
| `StreamBuf.ClientBuf.IpcWriteL` | persistentstorage/dbms/sdbms/SD_BUF.CPP:255-273 | the known extent stays right |
| `StreamBuf.ClientBuf.IpcReadL` | persistentstorage/dbms/sdbms/SD_BUF.CPP:235-253 | the known extent stays right, also when learnt from a short read |
| `StreamBuf.ClientBuf.BaseReadL` | persistentstorage/store/USTRM/US_BUF.CPP:483-513 | the read loop of the base class reads what the flat file reads |
| `StreamBuf.ClientBuf.BaseWriteL` | persistentstorage/store/USTRM/US_BUF.CPP:568-596 | the write loop of the base class writes what the flat file writes |
| `StreamBuf.ClientBuf.DoReadL` | persistentstorage/dbms/sdbms/SD_BUF.CPP:103-134 | as the flat file, for any length against any buffer size |
| `StreamBuf.ClientBuf.DoWriteL` | persistentstorage/dbms/sdbms/SD_BUF.CPP:136-166 | as the flat file, for any length against any buffer size |
| `StreamBuf.ClientBuf.DoSeekL` | persistentstorage/dbms/sdbms/SD_BUF.CPP:168-233 | as the flat file, for either cursor or both, limits and end-of-file error included |
| `StreamBuf.ClientBuf.DoSynchL` | persistentstorage/dbms/sdbms/SD_BUF.CPP:89-101 | nothing visible changes and the file has all that was written |
| `StreamBuf.ClientBuf.PerformAll` | persistentstorage/dbms/sdbms/SD_BUF.CPP:51-285 | refinement: on any stream, to read, to write or both, any sequence of reads, writes, seeks and synchronisations gives the answers and the final state of the flat file, on a stream whose server remembers a wrong read position provided the first read is from another one; the read and the write area are never both non-empty |
| `StreamBuf.OpenStream` | persistentstorage/dbms/sdbms/SD_SESS.CPP:799-821 | a newly opened stream is a flat file at its beginning, whether it came whole with the reply or not |
| `StreamBuf.ClientBuf.PerformFirstRead` | persistentstorage/dbms/sdbms/SD_SESS.CPP:799-821 | the first read of a stream opened to write, exactly, after any operations that read nothing: the bytes at the cursor, but at the one position remembered those of the beginning; the answers are the flat file's if and only if the cursor is elsewhere or the bytes happen to be the same |
| `HandleTable.AllocKeeps` | persistentstorage/dbms/sdbms/SD_SESS.CPP:844-862 | growth only when no entry is free; entries keep their places; afterwards there is a free entry, or the limit is reached or memory is out and nothing has changed |
| `HandleTable.AddKeeps` | persistentstorage/dbms/sdbms/SD_SESS.CPP:865-880 | an object is put only into a free entry, and the free list loses just that |
| `HandleTable.FreeKeeps` | persistentstorage/dbms/sdbms/SD_SESS.CPP:882-890 | a freed entry heads the free list |
| `HandleTable.RunKeeps` | persistentstorage/dbms/sdbms/SD_SESS.CPP:844-890 | in every run the free list visits exactly the free entries, each once, and ends at the end of the table |
| `HandleTable.HandleFields` | persistentstorage/dbms/sdbms/SD_STD.INL:47-50 | a handle is its index, tag and type and nothing else |
| `HandleTable.NotTheSession` | persistentstorage/dbms/sdbms/SD_STD.INL:52-55 | no object's handle is the one that stands for the session |
| `HandleTable.TagCounts` | persistentstorage/dbms/sdbms/SD_SESS.CPP:865-880 | the tag of an entry counts its uses modulo sixteen, from whatever the memory held |
| `HandleTable.HandleResolvesIff` | persistentstorage/dbms/sdbms/SD_SESS.CPP:892-904 | a handle issued earlier is accepted if and only if its entry is in use by an object of the same type with a policy and has been used again a multiple of sixteen times |
| `HandleTable.StaleHandleRejected` | persistentstorage/dbms/sdbms/SD_SESS.CPP:892-904 | with fewer than sixteen uses since, an accepted handle names the very object it was issued for |
| `HandleTable.LiveHandlesDistinct` | persistentstorage/dbms/sdbms/SD_SESS.CPP:865-880 | two live entries never share a handle |
| `HandleTable.Session.AllocL` | persistentstorage/dbms/sdbms/SD_SESS.CPP:844-862 | the growth loop computes the specification, also when the reallocation fails |
| `HandleTable.Session.DoAdd` | persistentstorage/dbms/sdbms/SD_SESS.CPP:865-880 | the new table and the handle |
| `HandleTable.Session.Free` | persistentstorage/dbms/sdbms/SD_SESS.CPP:882-890 | the new table |
| `HandleTable.Session.Object` | persistentstorage/dbms/sdbms/SD_SESS.CPP:892-904 | the entry of a handle, or none |
| `HandleTable.Session.CountResources` | persistentstorage/dbms/sdbms/SD_SESS.CPP:907-921 | the number of entries in use |
| `HandleTable.Session.Release` | persistentstorage/dbms/sdbms/SD_SESS.CPP:121-134 | the destructor releases every object once, by descending type |
| `Observer.CompletedOnce` | persistentstorage/dbms/sdbms/SD_SRC.CPP:36-86 | each request is completed once, in the order of asking, or it is the outstanding one |
| `Observer.NothingLost` | persistentstorage/dbms/sdbms/SD_SRC.CPP:46-86 | what is stored is the most significant event that found no request since the last completion |
| `Observer.NextRequest` | persistentstorage/dbms/sdbms/SD_SRC.CPP:46-55 | the next request is completed at once with that event, or with a close event if the database is closed, or waits |
| `Observer.OutstandingRequest` | persistentstorage/dbms/sdbms/SD_SRC.CPP:70-86 | every event completes the outstanding request but an unlock event on a request for changes |
| `Observer.ChangeIsNotUnlock` | persistentstorage/dbms/sdbms/SD_SRC.CPP:77-80 | a request for changes is never completed by an unlock event |
| `Observer.DetachedIffClosed` | persistentstorage/dbms/sdbms/SD_SRC.CPP:72-76 | a notifier is detached if and only if a close event has reached it |
| `Observer.HObserver.NotifyL` | persistentstorage/dbms/sdbms/SD_SRC.CPP:46-55 | the new state of a notifier after a request |
| `Observer.HObserver.Happened` | persistentstorage/dbms/sdbms/SD_SRC.CPP:70-86 | the new state of a notifier after an event |
| `Observer.DatabaseObserver.RunL` | persistentstorage/dbms/sdbms/SD_SRC.CPP:163-172 | every queued notifier gets the event, or the error the notification ended with, once; a close event empties the queue and closes the source |
| `Observer.DatabaseObserver.CloseObserver` | persistentstorage/dbms/sdbms/SD_SRC.CPP:92-96 | a closing client's request is cancelled and its notifier leaves the queue |
| `CmdParse.ConstructL` | persistentstorage/dbms/SPConv/cn_cmdparse.cpp:56-106 | unquoting in the buffer being scanned gives the upper-cased arguments of the original line, each intact at the end |
| `CmdParse.RoundTrip` | persistentstorage/dbms/SPConv/cn_cmdparse.cpp:70-105 | parsing any quoted list of arguments, with any gaps, gives the list back |
| `CmdParse.Shift` | persistentstorage/dbms/SPConv/cn_cmdparse.cpp:85-85 | the output never touches what is still to be read |
| `CmdParse.TakeQuoted` | persistentstorage/dbms/SPConv/cn_cmdparse.cpp:88-101 | the quoted part of the scan, doubled quotes included |
| `CmdParse.TakeBare` | persistentstorage/dbms/SPConv/cn_cmdparse.cpp:83-86 | the unquoted part of the scan |
| `LookupKey.PrepareLC` | persistentstorage/dbms/sdbms/SD_OBJ.CPP:93-144 | the packed columns with offsets for pointers, and the texts behind them |
| `LookupKey.LookupKeyLC` | persistentstorage/dbms/sdbms/SD_SESS.CPP:661-686 | the offsets turned back into addresses, if there is text |
| `LookupKey.RoundTrip` | persistentstorage/dbms/sdbms/SD_OBJ.CPP:93-144 | every column arrives with its type, length and value, and its text reads the same, also without any text |
| `LookupKey.Regions` | persistentstorage/dbms/sdbms/SD_OBJ.CPP:111-142 | offsets lie in the buffer and texts do not overlap |
| `LookupKey.EvenOffset` | persistentstorage/dbms/sdbms/SD_OBJ.CPP:128-134 | a 16-bit text lies at an even offset if and only if the key and the 8-bit texts before it have an even number of bytes |
| `Notifier.NotifyExact` | persistentstorage/centralrepository/cenrepsrv/sessnotf.cpp:28-55 | a change completes exactly the requests that wait for its key, all with the reported key, and touches no other |
| `Notifier.NotifyConserves` | persistentstorage/centralrepository/cenrepsrv/sessnotf.cpp:28-55 | a change neither loses a request nor completes one twice |
| `Notifier.StepConserves` | persistentstorage/centralrepository/cenrepsrv/sessnotf.cpp:57-123 | so does every other operation, and the single-key requests stay in order |
| `Notifier.RunConserves` | persistentstorage/centralrepository/cenrepsrv/sessnotf.cpp:28-123 | over any run the accepted requests are the pending and the completed ones, each once |
| `Notifier.SessionNotifier.NotifyKey` | persistentstorage/centralrepository/cenrepsrv/sessnotf.cpp:28-55 | the loops compute the specification |
| `Notifier.SessionNotifier.AddRequest` | persistentstorage/centralrepository/cenrepsrv/sessnotf.cpp:57-64 | one request to a key, in order; KErrAlreadyExists before KErrNoMemory |
| `Notifier.SessionNotifier.CancelRequest` | persistentstorage/centralrepository/cenrepsrv/sessnotf.cpp:76-89 | the new state and the error |
| `Notifier.SessionNotifier.CancelGroupRequest` | persistentstorage/centralrepository/cenrepsrv/sessnotf.cpp:91-106 | the new state and the error |
| `Notifier.SessionNotifier.CancelAllRequests` | persistentstorage/centralrepository/cenrepsrv/sessnotf.cpp:108-123 | the new state: everything completed, nothing pending |
| `Notifier.Observers.NotifyChange` | persistentstorage/centralrepository/cenrepsrv/obsrvr_noc.cpp:119-129 | every session on the uid gets the change once, and no other session |
| `Notifier.Observers.AddObserver` | persistentstorage/centralrepository/cenrepsrv/obsrvr_noc.cpp:57-70 | in order, and not twice: adding one that is listed changes nothing and is no error |
| `Notifier.Observers.FindConnectedRepository` | persistentstorage/centralrepository/cenrepsrv/obsrvr_noc.cpp:131-137 | the first observer of a uid |

## Left out

- Sessions.WriteInsideEffect: an operation that leaves midway may have changed its array in any sorted way; which way is not modelled, because the transaction is then failed and its settings dropped.
- Serializability.RunsAreSerializable: resets of a single key, restores, software installation and ROM updates are not steps of the runs.
- Server.Server.AccessL: opens that fail because no file exists or memory is short; the persists file or one default file is there.
- Cache.CacheManager.RunL: a read of a deleted repository, which gives what was in it; `Cache.TimerReadsOpenIff` says when there is one. The timer that calls it, which cenrepsrv/cachemgr.cpp does not always re-arm; a transaction that is active on a repository is membership of its uid in an input set.
- Server.Server.Run: a read of a deleted repository (`Eviction.ReadsOpenIff`) gives what was in it and the server goes on. The transaction information of a repository, which the server keeps apart from it, comes with each commit.
- Cache.CacheManager.StartEviction: an object that has been deleted keeps its size when it is read through a reference that still names it, and an insertion may also move the array to other memory; nothing is read through the reference after that.
- Server.Server.RemoveObserver: an index beyond the end of the open list stops the server; what follows is not modelled.
- Find.FindSlots: an array of matches that cannot grow for lack of memory.
- Find.MergePointers: an insertion that fails for lack of memory.
- Find.FindSettings: the memory errors of the two searches and of the merge.
- DeleteRange.DeleteSettingsRange: an insertion that leaves for lack of memory, and the reallocation of the array under the addresses, which are slots here.
- SharedRepository.SharedRepository.DoCommitTransactionSettings: repositories in the protected area, whose uids are entered in an array before the write and taken out of it if the write fails.
- SharedRepository.SharedRepository.RestoreConsistency: default contents merged from install, ini and several ROM files are one array.
- Reset.ResetAll: the loading and merging of the default contents, which are an input.
- StreamBuf.ClientBuf.OverflowL: a buffer without a server stream, on which writing trips the assertion of sdbms/SD_OBJ.CPP:38-57.
- StreamBuf.ClientBuf.BaseWriteL: a buffer without a server stream, likewise.
- StreamBuf.ClientBuf.DoWriteL: a buffer without a server stream, likewise.
- StreamBuf.ClientBuf.DoSynchL: a buffer without a server stream, likewise.
- StreamBuf.ClientBuf.PerformAll: bytes are returned as sequences instead of being copied into the caller's memory; leaves of the server half-way through a transfer.
- HandleTable.Session.Release: what releasing each kind of object does; the policy behind an entry is a flag.
- CmdParse.ConstructL: characters are mapped one by one, and the program name as argument 0.
- Reallocation of the array of a transaction's settings, which can move the entries a range deletion has addresses of; the model's addresses are slots.
- Access policies, capability checks, the contents of metadata beyond the default and backup bits, and protected keyspaces.
- The move operation, search by value and the two-message return of search results.
- File formats, ROM, install and multi-ROFS merging, backup and restore; a repository file is its settings and deleted keys, or absent. The reload is that of a build for a single ROM.
- Finding the repository of a uid for the transaction information, and opening and closing of client sessions beyond the cache's view of them.
- DBMS cursors, incremental operations, row transfer and security policies.
- The server of the notifier requests between two events, that is the re-issuing of the request to the data source.
