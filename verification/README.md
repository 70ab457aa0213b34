# Verification model of Procyon's backend

Procyon is a two-pane file manager. This project models the parts of its backend whose
correctness is hardest to see by reading, and proves what users and clients rely on.

- **File operations** (`FileTree`, `StackWalk`, `Decimal`, `FreshName`, `DeleteOperation`,
  `CopyOperation`, `CopyRun`, `CopyTheorems`, `SkipRun`, `AskRun`, `CopyPolicies`,
  `MoveOperation`, `MoveLimits`). A file system is a finite map from paths to files, directories and links; the
  first name of a path is its provider. Executors plan with explicit stacks and then execute one
  item at a time; providers enumerate directories in any order and any pages, and may fail at
  any call (`faults`). The scheduler's two passes, over the plan and over the deferred conflicts,
  are modelled with them.
- **Directory service** (`Listing`, `ListingOrder`, `Deltas`, `Replica`, `DirectoryService`,
  `DirectoryTheorems`, `DirectoryListing`, `PollWatcher`). Sorting and paging, delta publication and the client replica that follows it,
  and the panes and watches as a state machine in which every section that holds a lock is one
  step, so that its runs are all interleavings.
- **Archives** (`ArchiveCache`, `ArchiveRewrite`, `ArchiveTree`, `ArchiveSubtree`). The bounded
  extraction cache, the transactional rewrite of a ZIP file, and the directory tree implied by
  stored paths.
- **Smaller cores** (`ChecksumFile`, `OperationHistory`, `RangedRead`).

## Where the code does less than one would expect

- Planning a move rejects a destination inside the source, but not one that is a proper ancestor
  of it. With the policy to overwrite, such a move loses data, natively and as copy-then-delete.
  `MoveLimits` gives the exact condition.
- A move removes its whole source after the root arrived, even if items below were skipped
  (`SkipRun.MixedMoveConservesIff`).
- A conflict on the root is put aside while the items below it are already executed. Answering it
  with a new name therefore splits the tree (`AskRun.AskThenRenameSplits`), which the policy to
  rename never does (`CopyTheorems.CopyRenamed`).
- A move between two providers is planned as copy-then-delete, but path validation runs first and
  refuses paths of different providers, so it is never executed
  (crates/fm-application/src/operation_planner.rs:1234-1235, crates/fm-operations/src/safety.rs:47-49).
- Deleting overlapping sources plans entries twice (`DeleteOperation.PlannedOnceIffDisjoint`); the
  second remove only warns, and the result is the same.
- A later page is served from the listing of the time when it was asked for, and puts that
  listing back into the pane. A publication that arrives in between is lost to the pane's cache,
  although its deltas were sent (`DirectoryListing.LaterPageRevertsPublication`,
  `DirectoryListing.LatestIffUndisturbed`).
- An overwriting native move removes the occupant before it renames; if the rename fails, the
  occupant is lost (`MoveOperation.MoveExecutor.ExecuteNative`).
- After a later page was served, deltas are computed against that page alone
  (`Deltas.PagedReplayIff`). A publish that finds no difference raises the revision without an
  event, so the client's next delta looks like a gap and it lists again
  (`Replica.PublishTracked`).

## Model

| member | source | states |
|---|---|---|
| `StackWalk.PushChildren` | crates/fm-application/src/operation_planner.rs:832-850 | pushing each page back to front leaves the children on the stack so that they are popped in one fixed order, whatever the pages are |
| `FileTree.WalkCoversTree` | crates/fm-application/src/operation_planner.rs:1419-1500 | a walk that follows no links reaches exactly the entries at or below its root, each once |
| `FileTree.PostOrderPutsChildrenFirst` | crates/fm-application/src/operation_planner.rs:804-859 | in a post-order every entry comes after everything below it |
| `FileTree.PreOrderPutsParentsFirst` | crates/fm-application/src/operation_planner.rs:1419-1500 | in a pre-order the root is first and every other entry comes after its parent |
| `DeleteOperation.DeleteExecutor.Plan` | crates/fm-application/src/operation_planner.rs:804-859 | planning succeeds exactly if every source exists and no entry of any source tree is read-only without the override; the plan is the post-order of each source in turn; an error names its culprit |
| `DeleteOperation.DeleteExecutor.PlanOne` | crates/fm-application/src/operation_planner.rs:815-856 | the stack walk ends and appends exactly the post-order of one source, or stops at a protected entry of that source |
| `DeleteOperation.DeleteExecutor.Execute` | crates/fm-application/src/operation_planner.rs:861-893 | one non-recursive remove: a warning exactly if the provider fails or the entry is gone or is a non-empty directory, and then nothing changes |
| `DeleteOperation.DeleteExecutor.Run` | crates/fm-application/src/operation_planner.rs:804-893 | a rejected plan removes nothing; otherwise every item is executed, and items removed and warnings add up to the plan |
| `DeleteOperation.Expand` | crates/fm-application/src/operation_planner.rs:831-850 | replacing a directory on the stack by its marker and its children leaves the remaining plan as it was |
| `DeleteOperation.ForestCovers` | crates/fm-application/src/operation_planner.rs:804-859 | the plan holds exactly the entries at or below some source, descendants first, whether or not sources overlap |
| `DeleteOperation.PlannedOnceIffDisjoint` | crates/fm-application/src/operation_planner.rs:804-859 | every entry is planned once if and only if no source lies at or below another |
| `DeleteOperation.RemoveRunFrame` | crates/fm-application/src/operation_planner.rs:861-893 | a run changes no entry and removes only planned ones |
| `DeleteOperation.NonEmptyOnlyAfterFailure` | crates/fm-application/src/operation_planner.rs:861-893 | a planned remove meets a non-empty directory only if an earlier remove of one of its descendants failed |
| `DeleteOperation.RemoveKeepsWellFormed` | crates/fm-application/src/operation_planner.rs:861-893 | whatever fails, nothing is ever left without its directory |
| `DeleteOperation.DeletesExactlyTheSources` | crates/fm-application/src/operation_planner.rs:804-893 | without provider failures a deletion removes exactly the trees of its sources, overlapping or not |
| `FreshName.CopyNameInjective` | crates/fm-application/src/operation_planner.rs:2067-2077 | different suffixes give different names |
| `FreshName.CopyNameKeepsParts` | crates/fm-application/src/operation_planner.rs:2067-2077 | a copy name keeps the stem and the extension, which begins with the last dot unless that dot comes first |
| `FreshName.FirstFree` | crates/fm-application/src/operation_planner.rs:1709-1727 | the destination found is the unoccupied candidate with the smallest suffix; exhaustion means that every candidate is taken |
| `FreshName.SearchCopyDestination` | crates/fm-application/src/operation_planner.rs:1697-1728 | the suffix loop returns that candidate |
| `FreshName.CandidatesAreDistinct` | crates/fm-application/src/operation_planner.rs:1709-1727 | the first n candidates are n different paths |
| `FreshName.SearchSucceeds` | crates/fm-application/src/operation_planner.rs:1697-1728 | in every directory with fewer than 2^32 - 1 entries the search finds a name |
| `CopyOperation.CopyExecutor.Plan` | crates/fm-application/src/operation_planner.rs:1381-1504 | copying links: planning succeeds exactly if the source exists, has a name and does not contain its destination, and gives the pre-order of the source with every entry headed for its place; following links: the same condition if no link dangles; each directory id is entered through a link at most once; every real entry of the tree is planned; the plan is closed, so that everything in a planned directory is planned, except a link to a directory that another planned entry stands for; each entry is copied from itself or from what it links to; and if no link leads to a directory, every entry is headed for its place |
| `CopyOperation.CopyExecutor.PlanTree` | crates/fm-application/src/operation_planner.rs:1419-1500 | the stack loop ends on every finite file system and every cycle of links: each turn records a new directory id or leaves fewer real tree nodes to visit |
| `CopyOperation.PlanningAdvances` | crates/fm-application/src/operation_planner.rs:1419-1449 | one turn of that loop lowers the lexicographic measure |
| `CopyOperation.LinkPlansComplete` | crates/fm-application/src/operation_planner.rs:1457-1500 | the recorded plan covers the source tree and nothing else |
| `CopyOperation.CopyExecutor.PrepareItem` | crates/fm-application/src/operation_planner.rs:1525-1570 | what is decided for an occupied place: failure for different kinds, a conflict, a skip, a removal, a reuse, or a fresh name with rebased plans |
| `CopyOperation.CopyExecutor.RebasePlannedDestinations` | crates/fm-application/src/operation_planner.rs:1666-1695 | every planned destination at or below the old root moves to the new one and no other changes, in any order of the updates |
| `CopyOperation.CopyExecutor.Execute` | crates/fm-application/src/operation_planner.rs:1506-1622 | onto a free place the item arrives with its content, or the write fails and becomes a warning below the root if errors are to be continued after; another kind fails; onto its own kind, the decision or else the policy skips, asks, overwrites (a directory is merged into, a file replaced, a link removed and written again) or places the copy at the first free name, with the plans below a renamed root; nothing else changes |
| `CopyOperation.OneStep` | crates/fm-application/src/operation_planner.rs:2079-2090 | the same for one step: skipping, overwriting and renaming policies do what they say, asking and keeping the newer one are conflicts, and a decision wins over each of them |
| `CopyRun.RunPlan` | crates/fm-operations/src/scheduler.rs:449-514 | the first pass: items in plan order, conflicts put aside in order, the first other error ends it; without decisions each policy treats every item alike, one decision for all items wins over every policy, and unless something says overwrite no entry that existed changes |
| `CopyRun.RunFollows` | crates/fm-operations/src/scheduler.rs:449-514 | a run is any sequence of states in which each follows from the one before |
| `CopyTheorems.FreeCopyIsExact` | crates/fm-application/src/operation_planner.rs:1381-1622 | onto a free root the result holds an exact image of the source tree there and nothing else, every earlier entry is unchanged, and the file system stays well formed |
| `CopyTheorems.CopyOntoFreeRoot` | crates/fm-application/src/operation_planner.rs:1381-1622 | executing the plan onto a free root yields that image, whatever the per-item resolutions are |
| `CopyTheorems.CopyRenamed` | crates/fm-application/src/operation_planner.rs:1561-1570 | a copy that renames its occupied root is an exact copy onto the first free name |
| `CopyTheorems.OverwriteMerges` | crates/fm-application/src/operation_planner.rs:1543-1560 | an overwriting copy merges the source into the destination, and gets to its end if and only if no entry meets one of another kind |
| `CopyRun.NeverClobbers` | crates/fm-application/src/operation_planner.rs:1506-1622 | unless told to overwrite, no run touches an entry that existed, wherever it stops and whatever fails |
| `CopyTheorems.OverwriteStaysBelow` | crates/fm-application/src/operation_planner.rs:1506-1622 | an overwriting run changes nothing outside the destination root, wherever it stops and whatever fails |
| `CopyTheorems.AliveRunsClean` | crates/fm-application/src/operation_planner.rs:1606-1622 | when errors are not turned into warnings, a run that got to its end met no failure that mattered |
| `SkipRun.SkipFillsGaps` | crates/fm-application/src/operation_planner.rs:1540-1542 | a skipping copy onto an occupied root adds exactly the entries that were missing |
| `CopyPolicies.CopyTree` | crates/fm-application/src/operation_planner.rs:1381-1622 | a whole copy by policy: an exact copy onto a free place; skipping fills the gaps; overwriting merges and gets to its end if and only if kinds agree; renaming copies to the first free name; asking fills the gaps and puts exactly the occupied items aside |
| `AskRun.AnswerConflicts` | crates/fm-operations/src/scheduler.rs:515-571 | the second pass: the deferred items in order, each with its answer, ended by the first error or warning |
| `AskRun.AskThenSkip` | crates/fm-operations/src/scheduler.rs:449-571 | being asked and answering every conflict with skip gives what the policy of skipping gives, for every plan and every failure of the first pass |
| `AskRun.AskingFillsGaps` | crates/fm-operations/src/scheduler.rs:481-491 | an undecided root does not hold back what lies below it: before any answer, the gaps of the occupied destination are filled, and exactly the items with occupied places are deferred |
| `AskRun.AskThenOverwrite` | crates/fm-operations/src/scheduler.rs:449-571 | being asked and answering every conflict with overwrite gives what the policy of overwriting gives |
| `AskRun.AskThenRenameSplits` | crates/fm-operations/src/scheduler.rs:449-582 | answering with a new name loses nothing but splits the tree: what met no conflict is already merged into the occupied directory; a moved tree arrives whole under the new name if and only if every place was occupied |
| `MoveOperation.MoveExecutor.Plan` | crates/fm-application/src/operation_planner.rs:1217-1255 | accepted exactly if the source exists, has a name, the destination is in the same provider, and is not the source nor inside it; copy-then-delete exactly if a native rename is not possible |
| `MoveOperation.MoveExecutor.ExecuteNative` | crates/fm-application/src/operation_planner.rs:1257-1325 | completed exactly if nothing fails and the place is free below a directory, or an entry of the same kind is overwritten that is no ancestor of the source, or a fresh name exists; then the tree stands at its new root and nothing else does, nothing is left at the source, and all else is as it was. Skipping, asking and other failures change nothing; a failed overwriting move has removed the occupant |
| `MoveOperation.MoveExecutor.Finish` | crates/fm-application/src/operation_planner.rs:1331-1377 | the source is removed only after a fallback that was not cancelled, whose root arrived and is still there |
| `MoveOperation.MoveExecutor.RunFallback` | crates/fm-application/src/operation_planner.rs:1257-1377 | executing the items of a copy-then-delete move and finishing it |
| `MoveOperation.MoveExecutor.Run` | crates/fm-application/src/operation_planner.rs:1216-1377 | a rejected move changes nothing; of an accepted one, for each policy without decisions and for one decision on all items: skipping and asking leave everything alone, and if nothing fails the whole tree is gone from the source and stands at the free place, merged into or instead of the overwritten one, or at the first free name, with all else unchanged |
| `MoveOperation.FallbackOutcome` | crates/fm-application/src/operation_planner.rs:1216-1377 | the same for a copy-then-delete move |
| `MoveOperation.CopyKeepsSource` | crates/fm-application/src/operation_planner.rs:1506-1622 | wherever the copy stops, the source is still there |
| `MoveOperation.RemovalSparesCopy` | crates/fm-application/src/operation_planner.rs:1366-1375 | removing the source does not reach a copy at an unrelated root |
| `MoveOperation.SkippedRootNeverCompletes` | crates/fm-application/src/operation_planner.rs:1615-1620 | a skipped root never counts as completed, so its source is never removed |
| `MoveOperation.CompletedRootHoldsCopy` | crates/fm-application/src/operation_planner.rs:1347-1375 | a run that got to its end with a completed root has copied the whole tree there |
| `MoveOperation.FallbackMoveConserves` | crates/fm-application/src/operation_planner.rs:1216-1377 | under one fixed resolution, for every stop, every pattern of failures, cancelled or not: the source is intact, or all of it sits at its new root; a cancelled or skipped move keeps it intact. Excluded is only overwriting an ancestor of the source |
| `MoveLimits.NativeMoveConservesIff` | crates/fm-application/src/operation_planner.rs:1257-1325 | a native move conserves its source if and only if it does not overwrite an ancestor of a source directory |
| `MoveLimits.AncestorMoveLoses` | crates/fm-application/src/operation_planner.rs:1216-1377 | for every source and every proper ancestor that planning accepts as destination there is a file system in which an overwriting copy-then-delete move destroys its only file |
| `MoveLimits.FallbackMoveConservesIff` | crates/fm-application/src/operation_planner.rs:1216-1377 | a copy-then-delete move is safe on every file system if and only if it does not overwrite a proper ancestor of its source |
| `SkipRun.MixedMoveConservesIff` | crates/fm-application/src/operation_planner.rs:1365-1374 | root merged, items below skipped: the source is removed all the same, so the move conserves it if and only if every skipped item was already there |
| `Listing.CompareIsTotalOrder` | crates/fm-application/src/directory.rs:877-917 | for every list of sort descriptors the comparator is antisymmetric, transitive, and equal only for equal names |
| `ListingOrder.CompareMeansText` | crates/fm-application/src/directory.rs:903-917 | text is ordered by the first character that differs |
| `ListingOrder.ListingIsOrdered` | crates/fm-application/src/directory.rs:877-917 | with folders first no directory stands behind anything else; otherwise the first descriptor that tells two entries apart puts them in order, ascending or descending, absent values lowest and names folded, and at last the plain name decides |
| `ListingOrder.FirstColumnIsMonotone` | crates/fm-application/src/directory.rs:892-899 | the column of the first descriptor is non-decreasing or non-increasing among entries that the folder rule leaves together |
| `Listing.SortSorts` | crates/fm-application/src/directory.rs:877-901 | sorting gives a sorted permutation |
| `Listing.SortedUnique` | crates/fm-application/src/directory.rs:877-901 | entries with distinct names have one sorted arrangement, so any sorting algorithm gives the same listing |
| `Listing.ListAll` | crates/fm-application/src/directory.rs:710-734 | following a provider to its last page collects every page in order |
| `Listing.CanonicalListing` | crates/fm-application/src/directory.rs:189-212 | one and the same sorted permutation of the visible entries for every enumeration order and every split into provider pages |
| `Listing.FollowTokens` | crates/fm-application/src/directory.rs:213-251 | following the continuation tokens ends and gives back the whole listing in order |
| `Decimal.ParsePrintIff` | crates/fm-application/src/directory.rs:931-938 | a printed offset reads back if and only if it fits `usize`, with or without a plus sign |
| `Decimal.NotANumber` | crates/fm-application/src/directory.rs:931-938 | empty text and text with anything but digits behind a sign is refused |
| `Deltas.ReplayDiff` | crates/fm-application/src/directory.rs:815-866 | applying the added, updated and removed batches to the stored snapshot gives exactly the new listing |
| `Deltas.DiffSaysWhatChanged` | crates/fm-application/src/directory.rs:815-866 | the added batch holds exactly the entries that are new, the updated batch those that differ, the removed batch the ids that are gone, and none is empty |
| `Deltas.AddedIsSent` | crates/fm-application/src/directory.rs:822-855 | a new entry is announced |
| `Deltas.UpdatedIsSent` | crates/fm-application/src/directory.rs:829-861 | a changed entry is announced |
| `Deltas.RemovedIsSent` | crates/fm-application/src/directory.rs:839-866 | a removed entry is announced |
| `Deltas.ReplayDiffPoint` | crates/fm-application/src/directory.rs:815-866 | what the batches do, entry by entry, to any replica that holds at least the stored snapshot |
| `Deltas.PagedReplayIff` | crates/fm-application/src/directory.rs:245-253 | a client that holds more than the stored page reaches the new listing if and only if everything it holds beyond that page is still listed |
| `Replica.DiffIsChange` | crates/fm-application/src/directory.rs:815-866 | no deltas are emitted only if nothing changed |
| `Replica.PublishKeepsInvariant` | crates/fm-application/src/directory.rs:736-796 | a publish keeps: unique ids, strictly increasing revisions, and a log that replays from the first snapshot to the current listing |
| `Replica.PublishMovesOn` | crates/fm-application/src/directory.rs:755-785 | a publish raises the revision by the number of its deltas, and by one if there are none |
| `Replica.PublishAllKeepsInvariant` | crates/fm-application/src/directory.rs:736-796 | so does every sequence of publishes |
| `Replica.ApplyById` | frontend/src/app/app-shell.ts:1200-1221 | the ordered list the client shows and the map of its entries change alike |
| `Replica.RefetchIffGap` | frontend/src/app/app-shell.ts:1168-1177 | a client asks for a fresh listing if and only if some delta left a gap when it arrived |
| `Replica.UpsertKeepsPlaces` | frontend/src/app/app-shell.ts:1200-1221 | an entry that is known keeps its place in the list, and a new one goes to the end |
| `Replica.ClientNeverDiverges` | frontend/src/app/app-shell.ts:1165-1221 | in whatever order deltas arrive, and whichever are lost or repeated, the client holds exactly the state of the revision it claims; at the pane's revision, the pane's listing |
| `Replica.PublishTracked` | crates/fm-application/src/directory.rs:736-796 | a client in step that receives a publish in order shows the new listing; it keeps the revision too if and only if the publish was a reset or found a difference |
| `DirectoryTheorems.NextKeeps` | crates/fm-application/src/directory.rs:128-288 | every atomic step keeps the invariant of the service |
| `DirectoryTheorems.RunKeepsInvariant` | crates/fm-application/src/directory.rs:128-288 | the invariant holds after every interleaving of listing, publishing, acquiring and releasing |
| `DirectoryListing.PanesShowTheirHistory` | crates/fm-application/src/directory.rs:136-288 | after every run each pane holds the listing that its history says, under the location and options it navigated with, and each call the listing that it continues, if it does |
| `DirectoryListing.NavigationShowsItsOwnListing` | crates/fm-application/src/directory.rs:147-255 | a request that does not ask for more is answered from its own enumeration: a success, whatever happened meanwhile, puts that listing into the pane, under the location and options of the request, and a first page is its first 256 entries |
| `DirectoryListing.SucceedsIffNewest` | crates/fm-application/src/directory.rs:213-225 | an open request succeeds if and only if no later one began for its pane and its token is absent or the offset of a place in the listing |
| `DirectoryListing.PublicationIsShown` | crates/fm-application/src/directory.rs:736-786 | a publication replaces the listing of the panes that show its location, raises their revision, and touches no other pane |
| `DirectoryListing.LatestIffUndisturbed` | crates/fm-application/src/directory.rs:189-235 | panes always hold what was last enumerated for or published to them if and only if no other listing arrived while a later page was under way |
| `DirectoryListing.LaterPageRevertsPublication` | crates/fm-application/src/directory.rs:180-235 | in every reachable state, a publication that arrives while a later page is under way is lost to the cache of the pane |
| `DirectoryListing.FirstPagesAreWatched` | crates/fm-application/src/directory.rs:257-284 | exactly a successful first page of a provider that can be watched is going to be watched, under the token of its pane |
| `DirectoryListing.WatchSteps` | crates/fm-application/src/directory.rs:458-524 | an acquired watch runs as it was asked for with one more reference, a failed or released one is gone, and an aborted request never completes |
| `DirectoryTheorems.OnlyTheNewestSucceeds` | crates/fm-application/src/directory.rs:218-255 | a list succeeds only for the newest request of its pane, with a revision above every revision the pane ever had, which its snapshot carries |
| `DirectoryTheorems.SnapshotIsSlice` | crates/fm-application/src/directory.rs:213-253 | in every reachable state the snapshot of a pane is a slice of its cached listing, and its token says where the next slice starts |
| `DirectoryTheorems.NextPageContinues` | crates/fm-application/src/directory.rs:136-253 | asking for the page behind the one shown serves exactly the next slice of the same listing, without enumerating again |
| `DirectoryTheorems.SupersededFails` | crates/fm-application/src/directory.rs:218-225 | a request after which another began for its pane never succeeds |
| `DirectoryTheorems.OneLiveWatchPerPane` | crates/fm-application/src/directory.rs:136-186 | at most one running watch of a pane has a live token, and it is the pane's own |
| `DirectoryTheorems.AcquireCounts` | crates/fm-application/src/directory.rs:458-513 | acquiring keeps the count of each location equal to its running watches |
| `DirectoryTheorems.ReleaseCounts` | crates/fm-application/src/directory.rs:515-524 | so does releasing, and no registration stays without a watch |
| `DirectoryTheorems.SourceCancelledAtLastRelease` | crates/fm-application/src/directory.rs:515-524 | a release cancels the shared source if and only if it was the last one |
| `PollWatcher.Turn` | crates/fm-application/src/directory.rs:605-620 | one turn: the next fingerprint and backoff, and a change reported only against an earlier success |
| `PollWatcher.TurnFollows` | crates/fm-application/src/directory.rs:605-620 | the fields of the watcher are a function of the polls so far |
| `PollWatcher.Watch` | crates/fm-application/src/directory.rs:558-623 | for every sequence of polls, a change is reported exactly for the successes that differ from the previous success, never for the first, and every wait is the backoff of the failures in a row for an active pane and four times that for others |
| `PollWatcher.BackoffDoubles` | crates/fm-application/src/directory.rs:617-619 | the backoff starts at 1, each further failure doubles it, and it stays at 8 |
| `PollWatcher.WaitIsBounded` | crates/fm-application/src/directory.rs:587-597 | every wait lies between 1 and 32 base intervals |
| `PollWatcher.ReorderedPollIsSilent` | crates/fm-application/src/directory.rs:606-614 | a provider that only changes its order is not reported |
| `ArchiveCache.SessionExtractionCache.Read` | crates/fm-archive/src/lib.rs:725-739 | a hit gives the bytes of the last accepted insert and makes the entry the newest; a lost file drops its entry |
| `ArchiveCache.SessionExtractionCache.MakeRoom` | crates/fm-archive/src/lib.rs:750-766 | eviction ends with room below 512 entries and 512 MiB, removes only entries no more recently used than every survivor, not one more than needed, and none if the new entry fits |
| `ArchiveCache.SessionExtractionCache.Insert` | crates/fm-archive/src/lib.rs:741-779 | an oversized entry changes nothing; otherwise exactly the necessary evictions happen and the entry is the newest, or the write failed and the key is gone |
| `ArchiveCache.TotalWithout` | crates/fm-archive/src/lib.rs:725-779 | the byte count is the sum of the entries, in whatever order they are taken |
| `ArchiveCache.RunOperations` | crates/fm-archive/src/lib.rs:687-780 | over every run of reads, inserts and disappearing files the bounds hold and every hit returns the last accepted bytes |
| `ArchiveCache.ReadThrough` | crates/fm-archive/src/lib.rs:782-807 | reading through the cache is the same as extracting |
| `ArchiveRewrite.ZipFile.CopyEntries` | crates/fm-archive/src/lib.rs:1651-1694 | the copying loop keeps exactly the entries the rewrite does not name, in order, or stops at the first obstacle |
| `ArchiveRewrite.ZipFile.Apply` | crates/fm-archive/src/lib.rs:1629-1736 | unless cancelled, a rewrite succeeds exactly if all names are safe and nothing named, or nothing below, is in the way; an added file is the last entry, with its bytes and the only one of its name, and an added directory is last behind everything; a removal leaves exactly what is not at or below its name; all other entries stay in order; any error names its cause and leaves the archive unchanged |
| `ArchiveRewrite.PermittedMeansPossible` | crates/fm-archive/src/lib.rs:1651-1722 | the obstacles that the loop meets, in terms of the names that are stored |
| `ArchiveRewrite.RewrittenMeans` | crates/fm-archive/src/lib.rs:1651-1722 | what each successful rewrite leaves, in terms of positions, names and bytes |
| `ArchiveRewrite.KeptConcat` | crates/fm-archive/src/lib.rs:1651-1694 | keeping distributes over parts of the archive, so order and neighbours are preserved |
| `ArchiveRewrite.KeptMembers` | crates/fm-archive/src/lib.rs:1657-1694 | an entry is kept if and only if it is not named |
| `ArchiveRewrite.OnlyTheNamedGoes` | crates/fm-archive/src/lib.rs:1651-1721 | where one entry is named, what is before and after it stays in place |
| `ArchiveRewrite.OthersUntouched` | crates/fm-archive/src/lib.rs:1651-1721 | no entry that the rewrite does not name is touched |
| `ArchiveRewrite.AddThenRemoveIff` | crates/fm-archive/src/lib.rs:1629-1736 | adding a file and removing it, not recursively, is the identity if and only if nothing was stored at or below its name |
| `ArchiveSubtree.JoinInjective` | crates/fm-archive/src/lib.rs:1675-1682 | different segment paths have different text |
| `ArchiveSubtree.RemovesSubtree` | crates/fm-archive/src/lib.rs:1674-1689 | a removal names exactly the entry and its subtree, and is blocked exactly by what lies below when it is not recursive |
| `ArchiveTree.StripIsSegments` | crates/fm-archive/src/lib.rs:1282-1295 | stripping the requested directory as text is stripping its segments |
| `ArchiveTree.CollectChildren` | crates/fm-archive/src/lib.rs:1278-1326 | a listing fails if and only if two stored paths give one child different kinds; otherwise it has each offered child once, with its kind, a file with the size of the first entry that offers it |
| `ArchiveTree.ListingFailsIff` | crates/fm-archive/src/lib.rs:941-993 | the same by segments: some child is stored as a file and is also a directory |
| `ArchiveTree.ContributionBySegments` | crates/fm-archive/src/lib.rs:1288-1307 | what one stored path offers to a directory is what its segments say |
| `ArchiveTree.ListTree` | crates/fm-archive/src/lib.rs:941-993 | listing recursively ends; it fails if and only if some path below is both a file and a directory; otherwise it gives every stored path and implied ancestor, each once and with its kind |
| `ArchiveTree.StoredOrderIrrelevant` | crates/fm-archive/src/lib.rs:1278-1326 | two archives with the same paths in any order have the same tree |
| `ChecksumFile.WriteChecksumFile` | crates/fm-checksum/src/checksum_file.rs:104-119 | the text is the header and one line for each entry |
| `ChecksumFile.ReadChecksumFile` | crates/fm-checksum/src/checksum_file.rs:128-143 | the loop gives the entries of all lines, or the first error |
| `ChecksumFile.LineReadsBack` | crates/fm-checksum/src/checksum_file.rs:145-180 | a written line parses as its entry |
| `ChecksumFile.LineKinds` | crates/fm-checksum/src/checksum_file.rs:145-180 | a marked line reads as a text or a binary entry, and any other marker, a missing path or a bad digest is an error with the number of the line |
| `ChecksumFile.NoSeparator` | crates/fm-checksum/src/checksum_file.rs:146-159 | a line without a separator, or with nothing behind it, is malformed |
| `ChecksumFile.IgnoredLines` | crates/fm-checksum/src/checksum_file.rs:133-140 | blank lines and comments are passed over, and a carriage return at the end does not matter |
| `ChecksumFile.LowerIsLower` | crates/fm-checksum/src/checksum_file.rs:176-179 | digests change only their case |
| `ChecksumFile.WidthsAndNames` | crates/fm-checksum/src/checksum_file.rs:85-92 | the algorithm is known for 8 and 32 digits only, and the header names it |
| `ChecksumFile.RoundTrip` | crates/fm-checksum/src/checksum_file.rs:104-180 | what was written reads back, paths unchanged and digests in lower case, in order |
| `ChecksumFile.RoundTripIff` | crates/fm-checksum/src/checksum_file.rs:104-180 | this holds if and only if every path is non-empty, has no newline, does not end in a carriage return, and every digest is hexadecimal of even, non-zero length |
| `ChecksumFile.VerifiesIff` | crates/fm-checksum/src/checksum_file.rs:189-213 | verifying a file against the digests it was written from reports only matches if and only if no path carries two different digests |
| `ChecksumFile.StatusByDigest` | crates/fm-checksum/src/checksum_file.rs:189-213 | a path that was not computed is missing; one computed once matches if the digests agree but for case, and otherwise both digests are reported |
| `OperationHistory.PrunedIsSubsequence` | crates/fm-application/src/operation_history.rs:93-125 | pruning keeps the order of insertion |
| `OperationHistory.PrunedCount` | crates/fm-application/src/operation_history.rs:105-125 | at most 100 finished operations remain, and all of them if there are no more |
| `OperationHistory.PrunedKeepsOngoing` | crates/fm-application/src/operation_history.rs:99-104 | an operation that is going on stays |
| `OperationHistory.PrunedDropsEarliest` | crates/fm-application/src/operation_history.rs:99-125 | nothing expired stays, and no unexpired operation is dropped that completed later than a kept one |
| `OperationHistory.RetentionByTime` | crates/fm-application/src/operation_history.rs:99-125 | an ended operation that is older than the cutoff goes, and whatever else has not ended, or is within the limit of 100, stays |
| `OperationHistory.RunRetains` | crates/fm-application/src/operation_history.rs:51-168 | after every run of load and observe: unique ids, insertion order, only latest snapshots, no ongoing operation lost, at most 100 finished |
| `OperationHistory.LoadedIsFinished` | crates/fm-application/src/operation_history.rs:51-70 | after loading nothing is unfinished |
| `OperationHistory.LoadedFromStored` | crates/fm-application/src/operation_history.rs:58-64 | loading interrupts what had not ended, now, and changes nothing else |
| `OperationHistory.History.Load` | crates/fm-application/src/operation_history.rs:51-70 | the loaded history, also when stored ids repeat |
| `OperationHistory.History.PruneOperations` | crates/fm-application/src/operation_history.rs:93-125 | the list in place becomes the pruned list |
| `OperationHistory.History.Observe` | crates/fm-application/src/operation_history.rs:151-168 | the snapshot replaces the one with its id, or is appended, and the list is pruned |
| `RangedRead.ReadStream.Read` | crates/fm-application/src/content_streaming.rs:97-103 | a stream delivers what comes next, as much as it likes but at least one byte before the end |
| `RangedRead.SkipBytes` | crates/fm-application/src/content_streaming.rs:27-38 | skipping ends at the offset or at the end of a shorter stream, however reads are split |
| `RangedRead.Fill` | crates/fm-application/src/content_streaming.rs:95-107 | the reading loop gives the next bytes, as many as asked for or as there are |
| `RangedRead.ReadFileRange` | crates/fm-application/src/content_streaming.rs:48-117 | random access and skipping give the same bytes; the end is reported exactly if fewer bytes than asked for exist; a length of zero or above the limit is refused; a sound stream never fails |
| `RangedRead.RangesGiveTheFile` | crates/fm-application/src/content_streaming.rs:48-117 | reading range after range until the end gives the whole file |

## Left out

- CopyOperation.CopyExecutor.Plan: when links lead to directories, the destinations are not stated, because a directory reached both directly and through a link is planned twice and keeps the destination planned last.
- MoveOperation.MoveExecutor.Run: ends with the first pass when conflicts are open; the second pass is stated for copies and for finishing a move in `AskRun`, with no provider failures except where said.
- DirectoryTheorems.RunKeepsInvariant: the service is a state machine on values, because its sections interleave; a list call that is dropped while it inspects the location under the pane lock is not a step.
- Listing.SortSorts: sorting is an insertion sort on values, since the standard library's algorithm is not in the repository; `Listing.SortedUnique` shows that the algorithm does not matter for distinct names.
- FileTree.WalkCoversTree: paths are canonical, so one entry has one path; symbolic links in the middle of a path, hard links and case-insensitive file systems are not modelled.
- OperationHistory.History.Load: the stored file is given as its list of operations; reading, writing and serializing it, and the queries that show finished operations, are not modelled.
- ArchiveRewrite.ZipFile.Apply: entries are opaque bytes with a name and a flag for unsafe names; compression, temporary files and failures of the final rename are not modelled.
- ArchiveTree.CollectChildren: the final sort by name and modification times are not modelled; children are a map.
- ChecksumFile.RoundTripIff: failures of the reader and the writer, and text that is not UTF-8, are not modelled.
- RangedRead.ReadFileRange: the guess whether the data is binary, and the provider look-up, are not modelled.
- Rebasing planned destinations compares location text by prefix; every planned destination lies at or below the root, so comparing by path segments, as here, gives the same.
- Temporary files, byte streaming inside one file copy, timestamps and permissions of copied directories, free space, progress and pausing.
- The choice of transfer strategy from provider capabilities: a fixed decision table; its result is a parameter.
- Groups of copies and moves, duplicates, trash, archive creation, plain rename, and creating files and directories: thin layers over the operations above.
- Git status, volume data, totals, pane activity look-up and event delivery; real time is a parameter or a labelled step.
- Lower-casing names and Unicode order are parameters or compare code points.
- RAR, 7z, tar and gzip readers, passwords, size limits, session locks and clean-up of abandoned sessions.
- Searching in files, thumbnails, folder sizes, comparison, remote connections, plugins, hosts and the user interface.
