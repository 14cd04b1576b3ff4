# A verified model of the file explorer's services

This project models the service layer of a Go file server in Dafny and proves what that layer promises.
`dafny verify dfyconfig.toml` checks all of it.

**Files.** A tree maps the path of each entry (a list of names below the storage root) to a directory, a
file with its bytes, or a symbolic link to a regular file. `Disk.dfy` gives the operating system calls as
functions on trees and an object that applies them in place. On top of it stand conflict resolution
(`Conflict.dfy`), the two copy algorithms (`Copying.dfy`, `CopyTermination.dfy`), the move across devices
(`Moving.dfy`), the move and copy requests (`Operations.dfy`), the trash with its record table
(`Trash.dfy`, `TrashRuns.dfy`, with the paths of thumbnails in `TrashPaths.dfy` and `Purging.dfy`) and the
delete and restore requests, which take paths as clients send them (`Deleting.dfy`, `Restoring.dfy`).
Each method is proved equal to a function of the old tree; the theorems are about these functions, for
single calls, lists of sources, and whole runs. What a request answers is tied to what it did, source by
source, in terms of the trees and the records before and after each turn (`TransferAnswers.dfy` for moves
and copies, `Deleting.DeleteAnswers`, `Restoring.RestoreAnswers`).

**Uploads.** `ChunkedUpload.dfy` has the session as an object over an array, `Assembly.dfy` why its file is
the file of the client, and `UploadRaces.dfy` the same session as a machine whose threads interleave
between lookup, lock and every later system call. `UploadAnswers.dfy` keeps a record of what the calls of
each request returned, and says what the request answers by that record and that every request gets on.

**Jobs.** `Jobs.dfy` is the machine of the queue, the worker and the subscriber channels, `JobRuns.dfy` its
invariants over all runs, `JobService.dfy` the object whose methods are steps of the machine,
`JobUpdates.dfy` what subscribers are told, field by field, and `JobResults.dfy` ties the outcomes of the
operations to the items and the counters of a job.

**Paths, listings, search.** `Paths.dfy` works on strings: the lexical rules for cleaning, joining and
relating paths on Unix, the path validator and the way back to API paths; it also shows on which paths
strings and lists of segments are the same thing. `Resolving.dfy` says which places requests can name, and
how the forms of a path that the services use compare. `Search.dfy` compares the pruned walk with a filter over
the full one. `Listing.dfy` has stable sorting and `Paging.dfy` pages.

**Time.** `Login.dfy` bounds the password checks a lockout lets through, `RateBounds.dfy` says from times
alone how many requests the rate limiter lets through, and `RateLimit.dfy` when evicting idle limiters can
be noticed.

Properties that do not hold of the code in general are stated with the exact condition under which they
do, as an "if and only if", and several with a lemma that shows the failure:

- the policy `overwrite` removes the target before the source is looked at
  (`Operations.OverwriteLosesOnlyTheTarget`, `Operations.OverwritingCopyCanLoseItsSource`);
- the recursive copy into its own source never returns (`CopyTermination.CopyReturnsIffApart`, and for
  requests `CopyTermination.CopyRequestReturnsIff`);
- the fallback of a move across devices turns links into files (`Moving.FallbackIsRename`);
- emptying the trash drops the records of entries it could not remove (`TrashRuns.EmptyKeepsInvIff`);
- the number of chunks is computed in 64 bits and can overflow (`ChunkedUpload.TotalChunksIsCeiling`);
- the bytes of a chunk are neither cut to the chunk size nor counted: `Assembly.AssemblesIff` and, over all
  interleavings, `UploadRaces.PublishedIsWholeIff` say exactly which bodies can do harm, and
  `Assembly.OverlongBodySpoils` shows one that does;
- a path whose last name ends in white space, or that has a backslash, does not make the round trip through
  the validator (`Paths.APIPathRoundTrip`, `Paths.NormalizeIsIdempotentIff`);
- the requests that normalize a path first resolve it to another place when its last name ends in white
  space (`Resolving.NormalizedResolvesAlikeIff`, with `Resolving.NormalizedLeadsAside`);
- the test for internal paths reads the path as written, the validator reads backslashes as slashes
  (`Resolving.GuardAgreesIff`, with `Resolving.BackslashPassesTheGuard`);
- a permanent delete misses the thumbnails of files whose names end in white space, unless the collected
  path of a file with a backslash happens to lead there (`Purging.PurgeLeavesNoThumbnailsIff`);
- the item of a job counts as skipped by the words of its reason, which can come from the name of a file
  (`JobResults.ItemsAreOutcomes`);
- the bound on guesses needs the table to store both the counter and the lock
  (`Login.BoundNeedsBothUpdates`, with `Login.UnrecordedGuessesAreFree`);
- below the root `/` the containment test refuses every path but the root itself
  (`Paths.ResolvesExactly`);
- a request that is slow between looking its limiter up and using it can notice an eviction
  (`RateLimit.EvictionIsUnobservableIff`).

## Model

| member | source | states |
|---|---|---|
| Conflict.ResolveConflictTarget | internal/service/conflict_service.go:34-79 | the loop over candidates and the removal end in the tree and the answer of the specification, for each policy |
| Conflict.RenameTakesLeastFreeCandidate | internal/service/conflict_service.go:58-75 | renaming leaves the tree alone, answers the least-numbered free candidate, and gives up exactly when all 10000 are taken |
| Conflict.RoomForAnotherName | internal/service/conflict_service.go:58-75 | with fewer than 10000 entries in the directory a name is always found, because the numbered names differ |
| Conflict.CandidateInjective | internal/service/conflict_service.go:59-64 | two numbers never give the same candidate path |
| Conflict.AnsweredPathIsFree | internal/service/conflict_service.go:45-75 | under any policy a path that is answered is free afterwards; only overwrite changes the tree, and only below the target |
| Conflict.CandidateIs | internal/service/conflict_service.go:58-64 | the k-th candidate is in the directory of the target and named "base (k).ext", split at the last dot |
| Names.CandidateNameHasTheForm | internal/service/conflict_service.go:53-62 | the same of the name: base and extension together are the old name, the extension starts at its last dot, and the number is in decimal |
| Names.DecimalIsTheNumber | internal/service/conflict_service.go:64 | the digits written for a number have its value and no leading zero |
| Conflict.PolicyWords | internal/service/conflict_service.go:18-32 | which words are accepted for a policy, which policy each means, and that none means rename |
| TransferAnswers.ResolvedPlace | internal/service/conflict_service.go:34-79 | in a directory, resolution answers the entry's own place when it is free or made free, the first free numbered one under rename, and otherwise why there is none |
| Copying.CopyRecursive | internal/service/operations_service.go:304-350 | to a free place outside the source, the copy adds exactly the source subtree without links below its root |
| Copying.CopyEntries | internal/service/operations_service.go:315-329 | the loop over the entries of a directory completes that copy |
| Copying.CopyPathRecursive | internal/service/trash_service.go:294-333 | the copy by a walk adds exactly the source subtree with links replaced by the files they lead to |
| Copying.CopyFile | internal/service/trash_service.go:335-361 | the copy of one file, link or not, puts its bytes at the destination |
| Copying.WalkVisit | internal/service/trash_service.go:308-332 | a visit of the walk copies the whole subtree of the entry to its place relative to the source |
| Moving.MovePath | internal/service/trash_service.go:263-283 | the rename and the fallback end in the tree and the error of the specification |
| Moving.FallbackIsRename | internal/service/trash_service.go:263-333 | copying and removing ends in the same tree as a rename exactly when the moved subtree has no link |
| Moving.CopiesAgree | internal/service/trash_service.go:294-333 | the walk-based copy and the recursive copy build the same tree exactly when the source has no link below its root |
| Disks.MovedBack | internal/service/trash_service.go:72-75 | moving an entry to a vacant place and back restores the whole tree, which the rollback rests on |
| CopyTermination.CopyReturnsIffApart | internal/service/operations_service.go:304-350 | the recursion to a free place ends exactly when that place is not inside the source directory |
| CopyTermination.CopyIntoItselfNeverReturns | internal/service/operations_service.go:310-327 | copying a directory to a free place inside it exceeds every depth |
| CopyTermination.CopyRequestReturnsIff | internal/service/operations_service.go:166-210 | the loop over any list of sources returns exactly when the resolution of each source that contains the destination leads to no target, and then with the promised answer |
| CopyTermination.CopyElsewhereReturns | internal/service/operations_service.go:304-350 | elsewhere the depth is bounded by the number of entries of the source, and the copy is exact |
| Operations.Rename | internal/storage/storage.go:89-109 | makes the parent directory, then renames; failures leave the tree of the specification |
| Operations.MoveOne | internal/service/operations_service.go:101-134 | one turn of the loop: root and same-place cases, conflict resolution, rename |
| Operations.Move | internal/service/operations_service.go:76-139 | the checks, making the destination, and the loop give the tree and the response of the specification |
| Operations.MoveLosesNothing | internal/service/operations_service.go:101-136 | under rename and skip, for any list of sources, the multiset of file contents is unchanged and what is not below a moved source stays |
| Operations.MoveRequestLosesNothing | internal/service/operations_service.go:76-139 | the same for the whole request; a refused request changes nothing |
| Operations.MoveRecordsEachSource | internal/service/operations_service.go:101-136 | each source is reported moved or failed, exactly once |
| Operations.OverwriteLosesOnlyTheTarget | internal/service/operations_service.go:101-134 | under overwrite exactly the old target subtree is lost, and the source arrives exactly when it exists, is not in that subtree and does not contain the destination |
| Operations.OverwritesLoseOnlyTargets | internal/service/operations_service.go:101-136 | over a list under overwrite the loss is the sum of the targets as they were when their turn came, and what is neither at a target nor below a moved source stays |
| TransferAnswers.MoveAnswers | internal/service/operations_service.go:101-136 | for any list and any policy: the root is refused and a source at its own target is reported moved and stays; any other source is reported moved exactly when at its turn it is there, does not contain the destination and has a place; then its subtree, and nothing else, has gone to that place, which is the one reported; otherwise nothing changed but what overwrite removed, and the reason names the case |
| TransferAnswers.MoveRequestAnswers | internal/service/operations_service.go:76-139 | the same for the whole request, with the refusals that change nothing |
| Operations.CopyOne | internal/service/operations_service.go:166-208 | one turn of the copy loop, when it returns |
| Operations.Copy | internal/service/operations_service.go:141-213 | the checks, making the destination, and the loop give the tree and the response of the specification |
| Operations.CopyAddsExactlyTheCopies | internal/service/operations_service.go:166-210 | under rename and skip every old entry keeps its content, only reported targets are added, each equal to its source without links |
| Operations.CopyRequestAddsExactlyTheCopies | internal/service/operations_service.go:141-213 | the same for the whole request: every new entry is a directory on the way to the destination or lies below a reported target that was free |
| Operations.CopyRecordsEachSource | internal/service/operations_service.go:166-210 | each source is reported copied or failed, exactly once |
| TransferAnswers.CopyAnswers | internal/service/operations_service.go:166-210 | for any list and any policy: a source is reported copied exactly when at its turn it is there, has a place and is not what overwrite removed; then its subtree without links lies at the place reported and nothing else is new |
| TransferAnswers.CopyRequestAnswers | internal/service/operations_service.go:141-213 | the same for the whole request, with the refusals that change nothing |
| Operations.OverwritingCopyCanLoseItsSource | internal/service/operations_service.go:182-208 | under overwrite a copy succeeds exactly when its source is not in the target subtree; otherwise both are gone |
| Operations.OverwritingCopiesTouchOnlyTargets | internal/service/operations_service.go:166-210 | over a list under overwrite a copy touches nothing but the targets |
| Operations.CopyOntoItselfDeletes | internal/service/operations_service.go:166-208 | copying an entry into its own directory with overwrite deletes it and fails |
| Trash.TrashRepository.Create | internal/repository/trash_repo.go:23-36 | adds the record or, when the call fails, changes nothing |
| Trash.TrashRepository.FindLatestByPath | internal/repository/trash_repo.go:38-59 | answers a newest unrestored record of the path, if there is one |
| Trash.TrashRepository.MarkRestored | internal/repository/trash_repo.go:61-77 | marks the record if it is unrestored and the call does not fail |
| Trash.TrashRepository.FindByID | internal/repository/trash_repo.go:129-149 | answers the record if it is unrestored |
| Trash.TrashRepository.Delete | internal/repository/trash_repo.go:151-160 | removes the record |
| Trash.TrashRepository.DeleteAllNotRestored | internal/repository/trash_repo.go:162-175 | removes every unrestored record and no other |
| Trash.TrashService.SoftDelete | internal/service/trash_service.go:47-78 | the move into the trash, the record, and the move back when the record cannot be stored |
| Trash.TrashService.RestoreLatest | internal/service/trash_service.go:80-117 | the newest record, the checks of the target, the move and its rollback |
| Trash.TrashService.PermanentDelete | internal/service/trash_service.go:124-149 | removes the entry, the thumbnails of the collected paths and the record; when the entry cannot be removed nothing happens |
| Trash.TrashService.EmptyTrash | internal/service/trash_service.go:151-190 | removes every entry that can be removed, with its thumbnails, and all unrestored records; the count is that of the removed entries |
| Trash.TrashService.RemoveThumbnailsForPath | internal/service/trash_service.go:192-206 | removes the thumbnails of what the path resolves to in every size from 32 to 2048, none when the path is refused |
| Trash.CollectOriginalFilePaths | internal/service/trash_service.go:213-247 | the walk collects the normalised path of every file of the entry and nothing else |
| TrashRuns.StepKeepsInv | internal/service/trash_service.go:47-190 | every operation keeps unrestored records and entries one to one, each entry equal to what was deleted |
| TrashRuns.RunKeepsInv | internal/service/trash_service.go:47-190 | so does every run, whatever happens outside the trash in between |
| TrashRuns.EmptyKeepsInvIff | internal/service/trash_service.go:151-190 | emptying keeps that exactly when every removal succeeds |
| TrashRuns.RestoreEffect | internal/service/trash_service.go:80-117 | a restore succeeds exactly when the path is free and the table update works; otherwise every file stays where it was, and an existing target is never touched |
| TrashRuns.RunBalance | internal/service/trash_service.go:47-190 | over a run, file contents are conserved up to what permanent deletes and emptying discard |
| TrashRuns.RestoreBringsBackTheVersion | internal/service/trash_service.go:80-117 | a restore puts back the tree that the path held when the record was made |
| TrashRuns.DeletedComesBack | internal/service/trash_service.go:47-117 | delete, any run, restore: the same subtree is back |
| TrashRuns.DeletedComesBackWhateverElse | internal/service/trash_service.go:47-117 | the same without asking what the table answers, if the run does not delete the path again or take its record out |
| TrashRuns.DeleteThenRestoreIsIdentity | internal/service/trash_service.go:47-117 | delete and restore with nothing in between give back the whole tree |
| TrashRuns.NewestComesBack | internal/repository/trash_repo.go:38-59 | with increasing deletion times a restore brings back the newest unrestored version and never overwrites |
| TrashRuns.EntryIsExactIff | internal/service/trash_service.go:263-333 | a deletion puts exactly what the path held into the trash if and only if no link is carried across devices |
| Resolving.ResolvedIsResolvePath | internal/storage/path_validator.go:35-68 | the segments a path resolves to are what the validator puts below the root |
| TrashPaths.TrashPathNames | internal/service/trash_service.go:249-261 | for an accepted path the trash's own normal form lists what the path resolves to |
| Resolving.NameableIff | internal/storage/path_validator.go:35-68 | some request names a file exactly when its path has no backslash and no control character |
| TrashPaths.CollectedResolvesIff | internal/service/trash_service.go:192-247 | the path collected for a file resolves to the file's own place exactly when its path has no backslash, no control character and no white space at the end |
| TrashPaths.TrailingSpaceIsMissed | internal/service/trash_service.go:192-261 | a file whose name ends in white space can be requested, but its collected path leads elsewhere |
| TrashPaths.TrailingSpaceExample | internal/service/trash_service.go:192-261 | the file "a " in a directory deleted as "/d" is such a file |
| TrashPaths.CollectedLeads | internal/service/trash_service.go:192-261 | without backslashes, a collected path leads to the file, to a directory above it, or to a name that does not end in white space |
| TrashPaths.BackslashHitsANeighbour | internal/service/trash_service.go:192-261 | for every file there is a name with backslashes whose collected path leads to that file |
| Purging.PurgeLeavesNoThumbnailsIff | internal/service/trash_service.go:124-149 | after a permanent delete no thumbnail of the files is left, whatever images that requests can name were cached, exactly when each file that can be named is plain or hit by the collected path of a file with a backslash |
| Purging.AllFoundWithoutBackslashes | internal/service/trash_service.go:124-149 | without backslashes in the entry that is: no file that can be named ends in white space |
| Purging.ShadowedIsFound | internal/service/trash_service.go:192-261 | a neighbour with backslashes in its name lets the purge find any file that can be named |
| Purging.PurgeTakesOnlyItsThumbnails | internal/service/trash_service.go:124-149 | when all files are plain, exactly their thumbnails go |
| Purging.PurgeEffect | internal/service/trash_service.go:124-149 | a purge succeeds exactly for an open record; then the entry and the record are gone and every other file and record is as before |
| Purging.EmptyEffect | internal/service/trash_service.go:151-190 | emptying leaves the restored records, the entries that could not be removed as they were deleted, nothing of the others, and everything outside the trash |
| Deleting.DeletePaths | internal/service/operations_service.go:215-243 | the loop over the paths, normalized, refused ones included, gives the state and the response of the specification |
| Deleting.DeleteRecordsEachPath | internal/service/operations_service.go:223-240 | each path is reported deleted or failed under its API path, exactly once |
| Deleting.DeletingLosesNothing | internal/service/operations_service.go:223-240 | deleting any list keeps the trash in order, conserves file contents and leaves alone what is not below a deleted path |
| Deleting.DeleteAnswers | internal/service/operations_service.go:223-240 | a path is reported deleted exactly when at its turn it leads to an entry and the record is stored; then the subtree lies in the trash with a record of the path and the rest is as before; a path reported failed changed nothing, and the reason says why |
| Restoring.RestorePaths | internal/service/operations_service.go:245-277 | the loop restores each path, normalized, with what the table answers at that moment |
| Restoring.RestoreRecordsEachPath | internal/service/operations_service.go:253-274 | each path is reported restored or failed under its API path, exactly once |
| Restoring.RestoringLosesNothing | internal/service/operations_service.go:253-274 | restoring any list keeps the trash in order, overwrites nothing outside it, and conserves file contents |
| Restoring.RestoreAnswers | internal/service/operations_service.go:253-274 | a path is reported restored exactly when at its turn a record of it is open, it leads to a free place and the mark is stored; then the tree the record held lies there and the record is marked; a path reported failed left every file and record as it was, and the reason says why |
| ChunkedUpload.TotalChunksIsCeiling | internal/service/chunked_upload_service.go:101 | the chunks cover the file exactly when the 64-bit sum does not overflow |
| ChunkedUpload.OverflowGivesNoChunks | internal/service/chunked_upload_service.go:101 | an input that overflows and gets no chunks |
| ChunkedUpload.OverflowIsNotPositive | internal/service/chunked_upload_service.go:101 | an overflow gives no chunks or a negative number, and which of them |
| ChunkedUpload.InitUpload | internal/service/chunked_upload_service.go:93-134 | the checks of the sizes, the temporary file, and a session that is empty; a negative number of chunks ends in a panic that leaves the file behind |
| ChunkedUpload.UploadSession.WriteChunk | internal/service/chunked_upload_service.go:166-207 | the write at the offset, the bitmap and the counter; a failed body leaves its bytes but no mark |
| ChunkedUpload.UploadSession.CheckComplete | internal/service/chunked_upload_service.go:224-240 | passes exactly when every chunk was received, and otherwise lists the first ten missing |
| ChunkedUpload.WriteAtPoints | internal/service/chunked_upload_service.go:187-193 | what each byte of the file is after a write, with zeros in a gap |
| ChunkedUpload.MissingIsExact | internal/service/chunked_upload_service.go:225-233 | the missing chunks are listed in order, each once |
| Assembly.WriteAgrees | internal/service/chunked_upload_service.go:179-201 | a write of bytes of the file from the start of a chunk on, however long, complete or broken off, keeps all received chunks in place |
| Assembly.CompleteIsWhole | internal/service/chunked_upload_service.go:224 | when the counter is full the temporary file is the whole file |
| Assembly.AnyOrderAssembles | internal/service/chunked_upload_service.go:157-240 | honest bodies in any order and with any repeats assemble the file |
| Assembly.AssemblesIff | internal/service/chunked_upload_service.go:157-240 | whatever is sent besides the chunks of a file, every complete session has the file if and only if each other body carries bytes of the file from the start of its chunk on and, if it ended well, leaves out nothing of the chunk but zeros before the end |
| Assembly.OverlongBodySpoils | internal/service/chunked_upload_service.go:187-201 | a body that is a byte too long spoils the next chunk, and the session is complete all the same |
| UploadRaces.StepInv | internal/service/chunked_upload_service.go:157-427 | every step of write, complete, abort and cleanup, whatever it sends, keeps at most one publication and none while a thread may still write; if no body can do harm, also that received chunks are in place |
| UploadRaces.PublishedAtMostOnce | internal/service/chunked_upload_service.go:212-340 | over every interleaving of any requests a session publishes at most one file |
| UploadRaces.PublishedIsWhole | internal/service/chunked_upload_service.go:212-340 | if no body can do harm, what is published is the file |
| UploadRaces.PublishedIsWholeIff | internal/service/chunked_upload_service.go:157-340 | over every interleaving of chunks and other writes, what is published is the file if and only if each of the other bodies can do no harm |
| UploadRaces.WritesRun | internal/service/chunked_upload_service.go:157-208 | writes that do not overlap in time do in the machine what the method does to the session, one after the other |
| UploadRaces.NoLateChange | internal/service/chunked_upload_service.go:157-208 | once published, no later step of any request changes a byte of the file or takes it back |
| UploadRaces.NoChunksPublishNothing | internal/service/chunked_upload_service.go:224-340 | a session without chunks is complete at once and publishes an empty file |
| UploadAnswers.AnswersFollowCalls | internal/service/chunked_upload_service.go:157-370 | over every interleaving: a completion succeeds exactly when the session is found and complete, the content accepted, the target resolved, the file moved there, published once by this request, and the final stat works; a skip or a rejected content publishes nothing and leaves neither file nor session; an incomplete session is left alone; writes and aborts answer by their calls likewise |
| UploadAnswers.RequestsGetOn | internal/service/chunked_upload_service.go:157-370 | in every interleaving each request ends after at most 11 steps of its own, or waits for one that gets on |
| JobServices.JobService.CreateOperationJob | internal/service/job_service.go:57-111 | checks the operation, the items, the destination and the policy in that order, then registers and queues a job; with a full queue the job is registered and its caller waits |
| JobServices.CheckedRequests | internal/service/job_service.go:57-85 | what a request has to have, in the order of the checks, and that what is registered has the kind whose word was sent, its sources and its paths |
| JobServices.JobService.EnterQueue | internal/service/job_service.go:101-111 | a waiting job enters the queue at its end |
| JobServices.JobService.Begin | internal/service/job_service.go:159-194 | the worker takes the first job, marks it running, tells the subscribers and looks the request up |
| JobServices.JobService.Finalize | internal/service/job_service.go:252-310 | records the result, tells the subscribers and closes their channels |
| JobServices.JobService.Tally | internal/service/job_service.go:267-273 | the counting loop |
| JobServices.JobService.Subscribe | internal/service/job_service.go:324-339 | a new channel on the list of the job |
| JobServices.JobService.Unsubscribe | internal/service/job_service.go:341-352 | takes the first occurrence of the channel off the list |
| JobServices.JobService.NotifySubscribers | internal/service/job_service.go:354-365 | sends the update to every channel on the list, without waiting |
| JobRuns.EndsWell | internal/service/job_service.go:252-288 | success and failed add up to processed; without an error processed is the total and the status says how many succeeded |
| JobRuns.StatusOnlyGoesOn | internal/service/job_service.go:165-288 | a job goes from queued to running to one final status and then does not change |
| JobRuns.RequestIsThere | internal/service/job_service.go:242-250 | the request is present when the worker looks for it |
| JobRuns.QueuedJobsStart | internal/service/job_service.go:159-194 | an idle worker takes the first job of the queue, and two steps later the job is running and executed |
| JobRuns.ExecutedJobsEnd | internal/service/job_service.go:252-310 | three steps after the operation returned the job has its items and a final status, its channels are closed, its request is gone and the worker is idle |
| JobRuns.JobsAreDoneOnceInOrder | internal/service/job_service.go:57-310 | every accepted job is finished once, in the order of the queue |
| JobRuns.ChannelsAreSafe | internal/service/job_service.go:290-365 | no send or close on a closed channel and no dropped update in any run; every channel that was notified last and did not leave is closed with the final update |
| JobRuns.SubscribersGetTheFinalUpdate | internal/service/job_service.go:290-365 | over runs: whoever is on the list of a job before its last notification and does not leave has the final update last and a closed channel when the job is finished |
| JobUpdates.UpdatesSayWhatHappened | internal/service/job_service.go:165-298 | in every run each update ever sent says of its job either that it is running with nothing counted, or its final status with the number of all items, of the successes and of the others, and the total |
| JobUpdates.SubscribersHearOfTheStart | internal/service/job_service.go:175-183 | whoever is on the list when a job starts is told that it runs |
| JobUpdates.SubscribersLearnTheEnd | internal/service/job_service.go:290-365 | whoever joins the list of a job before its last notification and does not leave ends with a closed channel whose last update says how the job ended, field by field |
| JobUpdates.FollowersLearnTheEnd | internal/service/job_service.go:290-365 | the same from any moment at which a channel is on the list |
| JobUpdates.LeaversHearNothing | internal/service/job_service.go:341-352 | whoever leaves the list gets no further update, and its channel is not closed |
| JobUpdates.TotalIsAsRegistered | internal/service/job_service.go:64-94 | the total of a job, and of its updates, is the number of sources or paths it was registered with |
| JobResults.MoveIsAccountable | internal/service/job_service.go:209-224 | a move accounts for every source of its job |
| JobResults.CopyIsAccountable | internal/service/job_service.go:193-208 | a copy accounts for every source of its job |
| JobResults.DeleteIsAccountable | internal/service/job_service.go:225-236 | a delete accounts for every path of its job |
| JobResults.ItemsAreOutcomes | internal/service/job_service.go:193-224 | the items of a move or a copy job: a success for each source done, then for each other one a skip exactly when its target exists under skip or the words of its error contain "skipped", and a failure otherwise |
| JobResults.MoveJobEndsWell | internal/service/job_service.go:209-288 | a move job is completed exactly when every source was moved |
| JobResults.CopyJobEndsWell | internal/service/job_service.go:193-288 | a copy job is completed exactly when every source was copied |
| JobResults.DeleteJobEndsWell | internal/service/job_service.go:225-288 | a delete job ends with an item for each path, is completed exactly when every path was deleted, and failed exactly when none was |
| Paths.ResolvesExactly | internal/storage/path_validator.go:35-68 | the accepted paths are exactly those without control characters and double dots, and the result is the root with the named segments |
| Paths.ResolvedIsContained | internal/storage/path_validator.go:80-95 | the result is the root or lies below it, in clean form |
| Paths.ResolvedAPIPath | internal/service/directory_service.go:426-438 | the API path of a resolved path is made of the segments the client named |
| Paths.APIPathRoundTrip | internal/service/directory_service.go:426-451 | resolving and converting back gives the API path of the input exactly when the input has no backslash and the last segment it names does not end in white space |
| Paths.NormalizeIsIdempotentIff | internal/service/directory_service.go:440-451 | normalizing twice is normalizing once exactly when the input does not climb above its start and the last name it keeps does not end in white space |
| Paths.SpaceBeforeSlash | internal/service/directory_service.go:440-451 | a name that ends in white space survives before a slash, and the result is not its own API path |
| Paths.TrailingSpaceExample | internal/service/directory_service.go:440-451 | "/a /" becomes "/a ", which is not its own API path |
| Paths.ClimbingExample | internal/service/directory_service.go:440-451 | ".." becomes "/..", which is not its own API path |
| Paths.BackslashesResolveAsSlashes | internal/storage/path_validator.go:36 | the validator reads every backslash as a slash |
| Paths.BackslashExample | internal/service/directory_service.go:426-451 | two names with a backslash between them do not make the round trip |
| Paths.InternalByFirstSegment | internal/service/directory_service.go:463-470 | any string is an internal path exactly when the first segment of its API path is one of the three names |
| Resolving.NormalizedResolvesAlikeIff | internal/service/directory_service.go:440-451 | an accepted path and its API path resolve to the same place exactly when the last segment named does not end in white space |
| Resolving.NormalizedLeadsAside | internal/service/directory_service.go:440-451 | "/a /" resolves to "a ", its API path to "a", for every plain name |
| Resolving.DoubleDotsNormalizeAway | internal/service/directory_service.go:440-451 | "/a/../b" is refused, its API path resolves to "b", for any plain names |
| Resolving.GuardAgreesIff | internal/service/directory_service.go:41-48 | what the test refuses is internal, and an accepted path to an internal place is refused exactly when the first segment it names has no backslash |
| Resolving.BackslashPassesTheGuard | internal/service/directory_service.go:463-470 | a backslash in front of any plain name passes the test and resolves to the name |
| Paths.PlainPathsAreSegments | internal/storage/path_validator.go:35-68 | on plain paths resolving, converting back and joining are operations on segments, and paths determine segments |
| Search.SearchWalk.Visit | internal/service/search_service.go:88-190 | one call of the callback adds the entry exactly when it is a hit, and skips only directories out of reach |
| Search.SearchWalk.WalkDir | internal/service/search_service.go:88-190 | the pruned walk adds the hits of the full walk, or as many as there is room for |
| Search.SearchService.Search | internal/service/search_service.go:39-221 | for any start path: the test for internal paths, the validator, the errors, and the requested page of the first 1000 hits of the full walk, sorted by name in some way |
| Search.SortByName | internal/service/search_service.go:196-198 | some arrangement of the items by lower-case name |
| Search.PruningLosesNothing | internal/service/search_service.go:103-125 | a directory that is skipped has no hit below it |
| Search.WalkVisitsAll | internal/service/search_service.go:88 | the full walk visits exactly the entries below the start |
| Search.WalkIsInOrder | internal/service/search_service.go:88 | it visits them in path order, none twice |
| Search.SearchFindsTheFirstHits | internal/service/search_service.go:88-190 | the result is the beginning, in path order, of all entries within depth, without internal names on the way, no links, that match |
| Search.HitsAreWanted | internal/service/search_service.go:88-190 | the hits of the walk are, each once, the entries that the client's words ask for: files or directories within depth, without an internal name on the way, whose name contains the text and has the extension, of the kind asked for; each is shown with its kind, size and extension |
| Search.PathLessIsLexicographic | internal/service/search_service.go:88 | the order of the walk compares paths name by name and names character by character |
| Login.AuthService.Login | internal/service/auth_service.go:68-103 | the test of the lock, the check of the password, the counter and the lock, with updates that may fail unnoticed; no other row changes |
| Login.LoginAnswers | internal/service/auth_service.go:68-103 | exactly when a login gives which answer: success for a known user without a lock at that moment whose password checks, a lock from the fifth failure in a row on |
| Login.LoginLeaves | internal/service/auth_service.go:74-103 | what each answer leaves in the table when its updates are stored, with 15 minutes of lock |
| Login.UserRepository.IncrementFailedAttempts | internal/repository/user_repo.go:110-118 | adds one to the counter of that row, or fails without effect |
| Login.UserRepository.LockAccount | internal/repository/user_repo.go:120-128 | sets the lock of that row, or fails without effect |
| Login.UserRepository.ResetFailedAttempts | internal/repository/user_repo.go:130-138 | clears the counter and the lock of that row, or fails without effect |
| Login.OnlyOwnLoginsMatter | internal/service/auth_service.go:68-103 | an account depends on the logins of its own user alone |
| Login.CounterCountsFailures | internal/service/auth_service.go:82-103 | the counter is the number of failed checks since the last success |
| Login.LockoutBoundsChecks | internal/service/auth_service.go:74-98 | k failed checks without a success in between take time T with k at most 5 plus T / 15 minutes rounded down, if they are counted and locks are stored |
| Login.LockoutBoundsServedChecks | internal/service/auth_service.go:68-103 | the same for one user of a service with many, from any point of a run |
| Login.PatientGuessesAreChecked | internal/service/auth_service.go:74-98 | patient guessing reaches that bound |
| Login.UnrecordedGuessesAreFree | internal/service/auth_service.go:82-92 | when the updates of the counter fail, or those of the lock, any number of guesses is checked at one moment |
| Login.BoundNeedsBothUpdates | internal/service/auth_service.go:74-98 | the bound holds of every account and run if and only if neither the update of the counter nor that of the lock may fail |
| RateLimit.RateLimitMiddleware.GcLocked | internal/middleware/ratelimit.go:96-107 | the loop removes exactly the clients that are idle, once there are 1000 |
| RateLimit.RateLimitMiddleware.GetLimiter | internal/middleware/ratelimit.go:77-94 | finds or makes the client, notes when it was seen, collects idle ones |
| RateLimit.RateLimitMiddleware.Handle | internal/middleware/ratelimit.go:44-75 | the exempt path, the choice of the bucket, and the answer |
| RateBounds.AnswersAreExact | internal/middleware/ratelimit.go:44-94 | in any sequential run, with evictions if no request takes over 9 minutes: a request is allowed exactly when no stretch of time that ends with it gets more requests of its client and kind than rpm and one for each interval; thumbnails always are; the other kind and other clients do not matter |
| RateBounds.AllowedWithinAnyTime | internal/middleware/ratelimit.go:44-94 | between any two allowed requests of one client and kind that are time T apart at most rpm + T / (1 minute / rpm) were allowed |
| RateBounds.FirstBurst | internal/middleware/ratelimit.go:77-94 | of n requests of one kind at one moment a new client gets exactly the first rpm allowed |
| RateLimit.HandleSimulates | internal/middleware/ratelimit.go:77-107 | with and without evictions a request gets the same answer, and the maps go on corresponding |
| RateLimit.EvictionIsUnobservableIff | internal/middleware/ratelimit.go:77-107 | evictions never change an answer exactly when the longest time between lookup and use leaves room for one token within 10 minutes |
| RateLimit.NineMinutesAreSafe | internal/middleware/ratelimit.go:77-107 | 9 minutes are little enough for any limits |
| Listings.SortIsStable | internal/service/directory_service.go:339-407 | the sort is the only sorted arrangement that keeps ties in order, in every field and both directions |
| Listings.CompareIsPreorder | internal/service/directory_service.go:347-395 | the comparison is a total preorder in every field |
| Listings.ListingIsInOrder | internal/service/directory_service.go:339-407 | of two items of a sorted listing the first is not after the second in the size, the time, the kind or the lower-case name, whichever the client's word stands for, and the other way round for "desc" |
| Listings.DirectoryService.List | internal/service/directory_service.go:28-149 | for any path: the test for internal paths, the validator, the errors, and the requested page of the sorted visible entries |
| Listings.DirectoryService.VisibleEntries | internal/service/directory_service.go:59-104 | the loop keeps the entries that are not internal, in order |
| Listings.VisibleAreShown | internal/service/directory_service.go:59-104 | each item shows an entry of the directory that is not internal, with its kind, size and time |
| Listings.ShownAreAll | internal/service/directory_service.go:59-104 | every such entry is shown |
| Listings.ShownInOrder | internal/service/directory_service.go:59-104 | each once, in the order of names |
| Paging.CutPage | internal/service/directory_service.go:108-139 | the bounds of a page and the number of pages |
| Paging.PagesPartition | internal/service/directory_service.go:108-139 | the pages up to the last are not empty, all but the last are full, together they are the list, and later ones are empty |
| Listings.PagesMakeUpTheListing | internal/service/directory_service.go:106-139 | for every order and page size the pages together are the stable sort of the entries |

## Left out

- Operations.Copy: requires that the copy of each source returns; by `CopyTermination.CopyRequestReturnsIff` that is when the code does, but for one request: copying the storage root onto itself with overwrite, which empties the storage and then fails.
- Operations.CopyOne: the same requirement on one source.
- Operations.CopyAddsExactlyTheCopies: the same requirement on the sources.
- Operations.OverwritingCopiesTouchOnlyTargets: the same requirement on the sources.
- Copying.CopyRecursive: requires a free target outside the source, which is what conflict resolution leaves it; other targets are in `CopyTermination`.
- Copying.CopyPathRecursive: requires a free destination outside the source, as its one caller, the move across devices, has it.
- Copying.CopyFile: requires a free destination, as its callers have it; the code truncates an existing one before it reads the source.
- Copying.WalkVisit: the same, for each entry.
- Moving.MovePath: requires a free destination outside the source, as the trash has it; a rename onto an existing file is in `Disk.dfy` only.
- JobServices.JobService.NotifySubscribers: a notification is one step. The code walks the list outside its lock, so that an unsubscription in the middle of it is not part of this model.
- TrashRuns.StepKeepsInv: links are moved only within one device, because across devices an entry is not what was deleted (`TrashRuns.EntryIsExactIff`); names and ids of records are fresh, and operations stay clear of the trash directory.
- TrashRuns.RunKeepsInv: the same conditions on every step of the run.
- Trash.TrashService.PermanentDelete: a removal that fails half way, and thumbnails that cannot be removed.
- Trash.TrashService.RemoveThumbnailsForPath: a thumbnail that cannot be removed, which is an error in the code.
- Trash.TrashService.EmptyTrash: the same failures as for one permanent delete; an entry is removed with its thumbnails or not at all.
- Deleting.DeletePaths: paths into the trash or to directories that contain it, among them other spellings of the root than "/".
- Restoring.RestorePaths: the same paths.
- Deleting.DeletingLosesNothing: moves across devices in a tree that has links, which turn links into files (`Moving.FallbackIsRename`).
- Restoring.RestoringLosesNothing: the same moves.
- Deleting.DeleteAnswers: the same moves; names and ids of records are fresh.
- Restoring.RestoreAnswers: the same moves.
- TransferAnswers.CopyAnswers: requires that the copy of each source returns.
- TransferAnswers.CopyRequestAnswers: the same requirement.
- JobResults.ItemsAreOutcomes: the words of errors are a parameter.
- UploadRaces.PublishedAtMostOnce: removals of the temporary file succeed. It is not claimed that completing and aborting exclude each other; both can succeed.
- ChunkedUpload.InitUpload: file names, destinations and conflict policies of uploads, which only the publication uses.
- RateLimit.RateLimitMiddleware.Handle: tokens are exact numbers, not floating point; the path of a request is classified already; a client's buckets are values in the map, so a limiter that is evicted while a request holds it ends with that request; requests come one after the other.
- Login.AuthService.Login: sequential; concurrent logins that read the same counter are not modelled, and user names are taken in one spelling.
- Search.SearchService.Search: the deadline and the errors of single entries.
- Listings.DirectoryService.List: formatted sizes, permissions, previews, child counts and the paths of the items.
- Moves, copies and the trash itself work on resolved paths, as lists of segments; strings and segments correspond as `Paths.ResolvesExactly`, `Paths.PlainPathsAreSegments` and `Resolving.NormalizedResolvesAlikeIff` say.
- Symbolic links lead to regular files outside the tree; links to directories, broken links and links into the tree.
- Errors of devices, permissions, partial writes other than a chunk that breaks off, and names that are too long. Failures that are modelled are flags of the tables, a rename across devices, and removals from the trash.
- A subscription made after a job ended: its channel is not closed by the code.
- Auditing, progress numbers, persistence of jobs, pages of job items, the directory tree view.
- HTTP, SQL, tokens, password hashing, MIME detection, thumbnails as images, and file name sanitizing. Hashed thumbnail names are identified with the resolved path and the size they are made of.
- Strings are sequences of Unicode scalars; invalid UTF-8 is not modelled. Lower-casing is a parameter.
