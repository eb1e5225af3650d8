# A verified model of fabric-fs

fabric-fs serves a file system to FUSE clients over a message broker. A server dispatches requests,
numbers the resulting invalidations per namespace and broadcasts them; every client keeps a path
cache that it must never trust further than the invalidations it has seen. This project models the
parts where that can go wrong and proves what holds over whole runs:

- the client's path cache and open-handle table, and their coherence with the server
  (`Paths`, `PathComponents`, `PathIndex`, `CacheState`, `PathCache`, `KernelState`, `CacheKernel`,
  `CacheRuns`, `OpenHandles`, `PathFates`, `Coherence`, `LateAnswers`, `HandleNames`, `LookupCounts`,
  `Batches`, `CacheSequence`, `FuseAdapter`);
- the protocol tables, the dispatcher's sequence numbers, and the agreement of server and client on
  what has to be announced (`Operations`, `Payloads`, `Invalidations`, `Envelopes`, `Dispatch`,
  `SequenceNumbers`, `ServedTree`, `Coverage`, `CoveredReplies`);
- concurrent publication, admission of signed messages, retries, the filter for a client's own
  invalidations, and delivery with handle release (`Publication`, `LockProgress`, `LostNumbers`,
  `Observers`, `OwnReplies`, `Admission`, `Readmission`, `Executions`, `ReplayCache`, `RetryingClient`,
  `RetryDeadlines`, `AtMostOnce`, `EndToEnd`, `ReplayFilter`, `ReplayFilterRuns`,
  `OwnInvalidationReplay`, `Delivery`);
- published checkpoints and directory paging (`PublishedStore`, `DirectoryPaging`).

`Wrappers`, `Sequences` and `Rpc` hold what several of them share.

Objects that the source updates in place are classes whose methods are proved against functions on
values; what the source promises is proved about those functions and about runs built from them.
Code that runs concurrently is a state machine whose events may interleave in any order. What the
network, the broker, the file system service, the authorizer and the clock do is a parameter of the
calls or an event of the run.

Some properties that one might expect are false of the code; each has its exact condition:

- A signed message can be admitted to dispatch twice: a worker may pass the deadline test, stall, and
  claim the replay entry after it expired (`Readmission.StalledWorkerReadmits`). It is admitted at
  most once exactly when no claim comes at or after the stored expiry (`Readmission.AdmittedOnceIff`).
  The handler still runs at most once, because the dispatcher tests the deadline again
  (`Admission.HandledAtMostOnce`).
- A lookup answer that is newer than the cache's sequence can leave a healthy, up-to-date cache wrong
  for good (`LateAnswers.LateAnswerBreaksCoherence`). Once the cache has followed the log up to a
  number, it is right exactly when the log has dropped the answered path on the way, or the place
  where the log's renames have taken the path is given the answered inode by the server's tree
  (`LateAnswers.LateAnswerIff`). So an answer that is right as of that number does harm only if a
  rename in between moves the path (`LateAnswers.UnmovedAnswerIsHarmless`).
- A file that the kernel still references can fall out of a healthy cache: the counter goes with the
  file's last path, and a later forget of an older reference then takes a newer one along
  (`LookupCounts.ForgottenTooEarly`). The counter is the number of references held exactly when the
  file has not lost all its paths since the kernel last held none (`LookupCounts.CountIsCreditIff`).
- A handle opened by a dispatched request can leak. It is replied without a release, or released once,
  exactly when the response fits the frame and either nothing goes wrong in the delivery or the
  backend does the release it is asked for; the release is asked for once exactly when the response
  fits (`Delivery.ServeDispatched`).
- A rename that is delivered again moves a handle opened at its old path since
  (`OpenHandles.RedeliveryMovesNewHandle`). A redelivery leaves a handle alone exactly when the handle
  is not below the old path by then (`OpenHandles.RenameRedelivered`).
- The path kept for an open handle can name another file for good
  (`HandleNames.StaleHandleStaysWrong`), since the handle also follows renames that the server made
  before the file was opened. It names the opened file exactly when the renames seen since the
  client's own number lead to the same place as those since the opening (`HandleNames.HandleNamesIff`).
- An observer can miss a number without any message being lost between broker and client. The numbers
  it never gets are exactly those of responses that could not be framed and of publishes that failed
  before they reached the broker (`LostNumbers.EveryNumberAccounted`).
- A client's own success poisons its cache, although nothing was lost, exactly when a number issued
  before it is still undrained (`OwnReplies.OwnReplyPoisonsIff`).
- Invalidations already taken by a drain are lost when a later message cannot be read
  (`RetryingClients.FileSystemClient.DrainInvalidations`); the adapter then poisons its cache.
- Reading a directory page by page ends exactly when its last resume offset fits the kernel's type
  (`DirectoryPaging.PagingEndsIff`).
- The string subtree test with the root as its root holds for the root alone
  (`PathComponents.RootSubtreeIsOnlyTheRoot`); for every other root it is the component-prefix test.
  Names "." and ".." pass the child-name check, and exactly those make an invalid path
  (`PathComponents.JoinThenParent`).

## Model

| member | source | states |
|---|---|---|
| PathComponents.ValidPathIsRendered | fs-protocol/src/path.rs:38-51 | every path that passes the string check is the rendering of its components, all of them valid |
| PathComponents.RenderedIsValid | fs-protocol/src/path.rs:38-51 | every list of valid components renders to a valid path with exactly those components (the inverse) |
| PathComponents.SubtreeIsPrefix | fs-protocol/src/path.rs:88-93 | for a non-root root the string subtree test holds iff the root's components are a prefix |
| PathComponents.RootSubtreeIsOnlyTheRoot | fs-fuse/src/cache.rs:629-637 | with "/" as root only "/" passes, although every path has its components as a prefix |
| PathComponents.RenameAcceptedIff | fs-protocol/src/path.rs:9-18 | a rename is accepted iff neither path's components are a prefix of the other's |
| PathComponents.RebaseComponents | fs-fuse/src/cache.rs:639-641 | replacing a subtree prefix replaces the component prefix and keeps the path valid |
| PathComponents.RebaseInjective | fs-fuse/src/cache.rs:482-487 | two paths of a subtree collide after the replacement iff they are the same path |
| PathComponents.JoinThenParent | fs-fuse/src/cache.rs:643-663 | the parent path undoes joining a child name; the joined path is valid iff the name is not a dot name; its components are the parent's plus the name |
| PathIndex.InverseIff | fs-fuse/src/cache.rs:411-417 | the two index directions agree, with no empty path set, iff one is the inverse map of the other |
| PathIndex.RenamedAt | fs-fuse/src/cache.rs:477-493 | what a rename means path by path: the old subtree is found below the new root suffix by suffix, whatever was there is gone, all else is unchanged |
| PathIndex.RenamedBack | fs-fuse/src/cache.rs:477-493 | with nothing cached below the target the reverse rename restores the index, and no inode is lost on the way |
| CacheState.RenameBack | fs-fuse/src/cache.rs:477-493 | the same for the whole cache, lookup counts included |
| CacheState.MovedKeepCounts | fs-fuse/src/cache.rs:477-493 | a moved path keeps its inode and a moved inode its lookup count |
| CacheState.BaselineIff | fs-fuse/src/cache.rs:534-544 | the six size tests hold iff the cache is healthy and knows nothing but the root |
| CacheState.InsertKeepsWellFormed | fs-fuse/src/cache.rs:432-446 | insertion keeps the two-way index, the root entry and path validity |
| CacheState.InsertLookupKeepsWellFormed | fs-fuse/src/cache.rs:448-459 | so does inserting a lookup answer, with counts positive and only on indexed inodes other than the root |
| CacheState.ForgetKeepsWellFormed | fs-fuse/src/cache.rs:461-475 | so does forgetting |
| CacheState.RemovePathKeepsWellFormed | fs-fuse/src/cache.rs:495-503 | so does removing a subtree |
| CacheState.RenameKeepsWellFormed | fs-fuse/src/cache.rs:477-493 | so does a rename, all renamed paths being valid protocol paths |
| PathCaches.PathCache.constructor | fs-fuse/src/cache.rs:420-430 | a new cache holds the root as inode 1 and nothing else |
| PathCaches.PathCache.Insert | fs-fuse/src/cache.rs:432-446 | in-place updates of both indexes amount to one map update, the previous inode's entry and count being dropped with its last path |
| PathCaches.PathCache.InsertLookup | fs-fuse/src/cache.rs:448-451 | insertion followed by the saturating count |
| PathCaches.PathCache.AddLookup | fs-fuse/src/cache.rs:453-459 | counts saturate at the largest 64-bit value and skip inodes 0, 1 and unknown ones |
| PathCaches.PathCache.Forget | fs-fuse/src/cache.rs:461-475 | a partial forget lowers the count, a complete one removes the inode with all its paths |
| PathCaches.PathCache.RemoveInode | fs-fuse/src/cache.rs:505-515 | removing all paths of an inode in both indexes is removing that value from the map |
| PathCaches.PathCache.RemovePath | fs-fuse/src/cache.rs:495-503 | the loop over the subtree removes exactly it, in whatever order |
| PathCaches.PathCache.Rename | fs-fuse/src/cache.rs:477-493 | the loop, which breaks the index between its steps, yields the one meaning of the rename whatever the iteration order, and fails iff the paths are not a valid rename |
| PathCaches.PathCache.RemoveSubtreeExcept | fs-fuse/src/cache.rs:586-598 | removes the subtree except for the listed paths |
| PathCaches.PathCache.PathsInSubtree | fs-fuse/src/cache.rs:578-584 | lists every cached entry of the subtree once, with its inode |
| PathCaches.PathCache.RepresentativePath | fs-fuse/src/cache.rs:600-604 | the lexicographically least path of an inode, or none iff it is not cached |
| PathCaches.PathCache.RemoveInodePath | fs-fuse/src/cache.rs:606-616 | detaches one path; the inode and its count go with the last one |
| PathCaches.PathCache.DetachInodePathForRename | fs-fuse/src/cache.rs:618-626 | detaches one path and leaves the count alone |
| PathCaches.PathCache.Poison | fs-fuse/src/cache.rs:517-523 | the cache is emptied down to the root, with no counts, and marked; its sequence is kept |
| PathCaches.PathCache.ResetWithSequence | fs-fuse/src/cache.rs:525-532 | the cache is emptied down to the root and healthy at the given sequence |
| LookupCounts.CountIsCreditSince | fs-fuse/src/cache.rs:448-475 | in every run, deliveries, resyncs and poisonings included, an inode's counter is the saturating number of references since it last lost all its paths |
| LookupCounts.SeveredIff | fs-fuse/src/cache.rs:606-616 | an inode loses all its paths exactly by a poisoning, a malformed message, a gap, a change or resync that drops each of them, an answer that takes its only one, or the forget of the last counted reference |
| LookupCounts.CountIsCreditIff | fs-fuse/src/cache.rs:453-475 | for a kernel that never gives back more than it holds, the counter never exceeds the references held, and equals them iff the inode has not lost all its paths since the kernel last held none |
| LookupCounts.CachedWhileReferenced | fs-fuse/src/cache.rs:461-475 | so a referenced inode is cached unless it lost all its paths that way |
| LookupCounts.ForgottenTooEarly | fs-fuse/src/cache.rs:606-616 | a lookup, a deletion, a lookup under another name and a forget of the first reference take a still referenced file out of a healthy cache |
| LookupCounts.LastForgetRemoves | fs-fuse/src/cache.rs:461-475 | giving back the last reference removes that inode, all its paths, and nothing else |
| KernelState.FailureIsPoison | fs-fuse/src/cache.rs:132-198 | an application errs only with the cache poisoned afterwards, reports a resync iff it was a valid own one, and otherwise keeps the cache's health |
| KernelState.HealthyMeansApplied | fs-fuse/src/cache.rs:158-198 | a cache healthy after an own change took it in order, or knew nothing but the root, with no handle open and the baseline allowed |
| KernelState.TakenIff | fs-fuse/src/cache.rs:158-198 | an own change is taken iff it has the next number, or the baseline is allowed, the number is not 0, no handle is open and the healthy cache knows nothing but the root |
| CacheKernels.CacheKernel.ApplyInvalidation | fs-fuse/src/cache.rs:132-198 | the in-place application equals the value-level one; the branch for a failing rename is unreachable |
| CacheKernels.CacheKernel.RenameHandlePaths | fs-fuse/src/cache.rs:682-693 | every handle path below the old root is rebased, every other kept |
| CacheKernels.CacheKernel.PathForInode | fs-fuse/src/cache.rs:546-551 | a cached path of the inode, or the stale-cache error iff the cache is poisoned or does not know it |
| CacheKernels.CacheKernel.ChildPath | fs-fuse/src/cache.rs:553-557 | a cached path of the parent joined with the name, errors exactly characterized |
| CacheKernels.CacheKernel.PathForHandleBoundCall | fs-fuse/src/cache.rs:665-680 | an open handle's remembered path even from a poisoned cache, otherwise a cached path, otherwise an error |
| CacheRuns.WellFormedAlways | fs-fuse/src/cache.rs:419-532 | the two-way index, count, root and path-validity invariant holds in every reachable state |
| CacheRuns.HandlePathsValidAlways | fs-fuse/src/cache.rs:682-693 | remembered handle paths stay valid protocol paths however often they are renamed |
| CacheRuns.HealedByResync | fs-fuse/src/cache.rs:517-532 | a poisoned cache becomes healthy only through a valid full resync of its namespace |
| CacheRuns.NoResolvedSendWhilePoisoned | fs-fuse/src/lib.rs:854-881 | between a poisoning and the next cache-resolved request there is a valid full resync |
| CacheSequence.AtNumberReached | fs-fuse/src/cache.rs:132-198 | in every run the cache is at the number of the last own invalidation that was neither malformed nor behind a gap; poisonings, gaps, malformed messages and everything else leave it where it was |
| CacheSequence.FollowsInOrder | fs-fuse/src/cache.rs:158-198 | every cache, poisoned or not, takes valid own invalidations with the numbers after its own without an error, and only a resync among them changes its health |
| CacheSequence.FollowsAfterPoisoning | fs-fuse/src/cache.rs:517-523 | after a distrust, a gap or a malformed delivery the changes that follow the old number are all taken and the drain that brings them goes through |
| OpenHandles.HandleFollowsRenames | fs-fuse/src/cache.rs:147-193 | from opening to release a handle stays, through gaps, poisonings, resyncs, deletes and forgets, at the path that follows each delivered rename once |
| OpenHandles.OnlyReleaseDropsHandle | fs-fuse/src/cache.rs:53-74 | a handle leaves the table only by its release |
| OpenHandles.RenameRedelivered | fs-fuse/src/cache.rs:159-163 | after any events, delivering the same rename again leaves a handle alone iff its path is not in the old path's subtree by then |
| OpenHandles.RenameRepeated | fs-fuse/src/cache.rs:682-693 | delivered again at once it moves no handle |
| OpenHandles.RedeliveryMovesNewHandle | fs-fuse/src/cache.rs:159-163 | a handle opened at the old path between two deliveries of a rename is moved by the second |
| HandleNames.HandleNamesIff | fs-fuse/src/cache.rs:682-693 | a handle opened as of n by a client at s names its file after following the log to m iff the renames since s lead where those since n lead |
| HandleNames.HandleRightIffNotMoved | fs-fuse/src/lib.rs:274-296 | right after catching up with the opening it does iff the renames in between leave its path alone |
| HandleNames.HandleStaysRight | fs-fuse/src/cache.rs:682-693 | and then it stays right while the log does not take the file from its name |
| HandleNames.StaleHandleStaysWrong | fs-fuse/src/cache.rs:682-693 | a legal server and a late opening leave a handle at another file's path, and a resync does not repair it |
| Coherence.CoherentAlways | fs-fuse/src/cache.rs:132-198 | under any loss, duplication, reordering and resync of one server's log, with lookups answered at the cache's own sequence, every healthy state agrees with the server's tree as of its sequence |
| PathFates.PairKept | fs-fuse/src/cache.rs:175-197 | a cached pair goes where the fate of its path says: dropped, moved by a rename, or kept |
| PathFates.PairOrigin | fs-fuse/src/cache.rs:175-197 | every pair after a change was made by it or came along that way |
| Coherence.TreeFollowsFate | fs-fuse/src/cache.rs:175-197 | the server's tree of components moves names as the fates of path strings say |
| LateAnswers.LateAnswerIff | fs-fuse/src/lib.rs:198-211 | an answer of any time followed by the log in order ends healthy and up to date, and coherent iff the log dropped the path or the tree gives the path's fate, a valid non-root path, the answered inode |
| LateAnswers.UnmovedAnswerIsHarmless | fs-fuse/src/lib.rs:198-211 | an answer right as of the number reached does no harm unless a rename on the way moves the path |
| LateAnswers.LateAnswerBreaksCoherence | fs-fuse/src/lib.rs:198-211 | for every rename followed by a re-creation, a late answer ends in a healthy, up-to-date, wrong cache |
| Batches.PoisonedAfterBatch | fs-fuse/src/lib.rs:1079-1104 | after a drain the cache is poisoned iff an error is reported, or it was poisoned and no resync came |
| Batches.ResyncHealsBatch | fs-fuse/src/lib.rs:1079-1104 | anything, then a resync at s, then valid s+1 … s+k ends without error, healthy and at s+k |
| FuseAdapters.RequestIdsDiffer | fs-fuse/src/lib.rs:882-884 | request ids of different numbers differ |
| FuseAdapters.SentIdsDiffer | fs-fuse/src/lib.rs:882-884 | no two requests an adapter has sent share their number |
| FuseAdapters.FuseAdapter.DrainRemoteInvalidations | fs-fuse/src/lib.rs:1055-1105 | the error is the first one no later resync of the batch made up for; a failed drain poisons; no request is sent |
| FuseAdapters.FuseAdapter.ApplyBatch | fs-fuse/src/lib.rs:1079-1104 | the loop over the batch applies every entry and keeps that error |
| FuseAdapters.FuseAdapter.CallWithCachePolicy | fs-fuse/src/lib.rs:854-940 | nothing is sent from a poisoned cache when a healthy one is required; the result is a success iff the reply answers the request, is well formed and covered, and then the cache is what its invalidations make of it in order; a refusal changes nothing; a path mutation in doubt leaves the cache poisoned |
| FuseAdapters.FuseAdapter.SettleReply | fs-fuse/src/lib.rs:892-939 | the same for the part after sending: refusals are told apart from doubtful outcomes |
| FuseAdapters.FuseAdapter.ApplyResponseInvalidations | fs-fuse/src/lib.rs:917-919 | all invalidations of a response are applied in order unless one is malformed, which poisons; a gap is not an error of the call |
| FuseAdapters.FuseAdapter.PoisonAfterUncertainPathMutation | fs-fuse/src/cache.rs:235-242 | poisons exactly for path mutations |
| FuseAdapters.FuseAdapter.ResyncComesFirst | fs-fuse/src/lib.rs:854-881 | in every state of an adapter, after a mutation ended in doubt the next cache-resolved request follows a valid full resync |
| FuseAdapters.FuseAdapter.Call | fs-fuse/src/lib.rs:842-852 | the request is sent unless the cache is required healthy and is not, or the request is invalid; it succeeds iff it is sent and the reply settles it as a success, whose payload, of the variant the operation calls for, is returned |
| FuseAdapters.FuseAdapter.Lookup | fs-fuse/src/lib.rs:198-211 | what is sent names a child of the parent as the drained cache has it; succeeds iff the drain passes, the child can be addressed and the reply grants it, with the answered attributes, and caches the answered inode under that very path |
| FuseAdapters.FuseAdapter.Create | fs-fuse/src/lib.rs:340-368 | likewise, with the inode and the handle of the reply, and the handle is remembered under the same path |
| FuseAdapters.FuseAdapter.Open | fs-fuse/src/lib.rs:274-296 | what is sent names a cached path of the inode; succeeds iff the drain passes, the inode is known and the reply grants it, with the handle of the reply, which is remembered under that path |
| FuseAdapters.FuseAdapter.Rename | fs-fuse/src/lib.rs:370-388 | both paths sent are children in one and the same state of the drained cache; succeeds iff the drain passes, both can be addressed and the reply grants it |
| FuseAdapters.FuseAdapter.Write | fs-fuse/src/lib.rs:318-338 | after a clean drain an open handle's request is sent whatever the health of the cache, with the path the handle has by then; succeeds iff the drain passes, there is a path and the reply grants it, with the reply's number |
| FuseAdapters.FuseAdapter.HandlePath | fs-fuse/src/cache.rs:665-680 | there is a path iff the handle is open or the healthy cache knows its inode; it is always a valid protocol path, so the path check that follows cannot fail |
| FuseAdapters.FuseAdapter.Release | fs-fuse/src/lib.rs:500-513 | an open handle's release is sent at once, without a drain and with the handle's path; whatever is answered exactly this handle is gone afterwards; succeeds iff there was a path and the reply grants it |
| FuseAdapters.FuseAdapter.ForgetInode | fs-fuse/src/lib.rs:815-817 | a forget reaches the cache at once and sends nothing |
| Invalidations.KindOf | fs-protocol/src/invalidation.rs:30-41 | the wire value decodes to a kind iff that kind encodes to it |
| Envelopes.SuccessFor | fs-protocol/src/envelope.rs:99-128 | a built success passes the full check against its request and carries what it was given |
| Dispatching.ValidRequestMeetsRoles | fs-protocol/src/payload.rs:206-266 | a valid request meets the operation table's root policy in every path role, and one with nothing else to check is valid iff it does |
| Payloads.AnswerFitsIff | fs-protocol/src/payload.rs:501-571 | an answer of the right operation meets the response limit of the operation table iff it is no larger than what the request asked for or gave |
| Dispatching.AnnouncedPaths | fs-core/src/lib.rs:781-800 | what is announced has the path its kind needs: non-root for creations and removals, two for renames |
| Dispatching.AnnouncementValid | fs-core/src/lib.rs:640-687 | the invalidation of every valid announced request is valid |
| Dispatching.SuccessNeverRefused | fs-core/src/lib.rs:404-424 | once a number is taken building the success cannot fail |
| Dispatching.Dispatcher.NextInvalidationSequence | fs-core/src/lib.rs:689-704 | hands out this namespace's next number, starting at 1, and advances only its counter |
| Dispatching.Dispatcher.InvalidationsForSuccess | fs-core/src/lib.rs:640-687 | one invalidation with the next number for announced requests, none and no number otherwise |
| Dispatching.Dispatcher.Dispatch | fs-core/src/lib.rs:404-432 | the response is a success, with the service's payload, iff nothing speaks against the call; a number is taken exactly when the response is a success that carries it, and a refusal moves no counter; the refusal after a taken number is unreachable |
| Dispatching.OkIff | fs-core/src/lib.rs:404-460 | the response is a success iff the envelope is valid, the metadata match, the deadline is absent or ahead, nothing sent or asked for is too large, the authorizer does not object, and the service answers what was asked; otherwise it carries the error of the first thing against it |
| Dispatching.DeniedOnly | fs-core/src/lib.rs:434-460 | a call against which only the authorizer speaks is refused with the authorizer's error |
| Dispatching.Dispatcher.FullResync | fs-core/src/lib.rs:386-393 | an external resync carries and takes the next number |
| SequenceNumbers.NoNumberLeaked | fs-core/src/lib.rs:386-432 | over every run each namespace's issued invalidations are numbered 1, 2, 3, … and its counter is one past them |
| SequenceNumbers.OneEventIssues | fs-core/src/lib.rs:689-704 | one event advances only the counter of the namespace it issues in, by what it issues |
| SequenceNumbers.IssuedValid | fs-core/src/lib.rs:640-687 | everything issued is a valid invalidation |
| ServedTree.PerformedIsAnnounced | fs-core/src/lib.rs:640-687 | when a call did to the names what it was asked, its announcement tells exactly that change |
| ServedTree.DispatchedLogIsLegal | fs-core/src/lib.rs:404-432 | so the dispatcher's issued invalidations of a namespace are a legal log with the trees as of each number |
| ServedTree.ClientsOfDispatcherCoherent | fs-fuse/src/cache.rs:132-198 | and the coherence theorem holds for clients of the dispatcher itself |
| Coverage.NeededIffAnnounced | fs-fuse/src/cache.rs:326-396 | for every valid request and answer the client requires coverage iff the server announces |
| Coverage.RequiredAsAnnounced | fs-fuse/src/cache.rs:326-362 | and what it requires is the kind, paths and inode the server announces |
| Coverage.CorrectServerIsAccepted | fs-fuse/src/cache.rs:211-233 | whatever a dispatcher answers to a scoped request, after restoring the caller's id the client's checks accept it and its coverage |
| Coverage.AnnouncementCovers | fs-fuse/src/cache.rs:364-384 | the announcement matches the required invalidation under the restored request id |
| CoveredReplies.CoveredIffAnnounced | fs-fuse/src/cache.rs:211-233 | a success of a path mutation is covered iff one of its invalidations, under this namespace and request id, tells exactly the requested change or asks for a full resync |
| CoveredReplies.MutationShown | fs-fuse/src/lib.rs:892-939 | applied as far as that invalidation, a cache that is healthy shows the change: a new name has its inode, a removed or renamed one is gone with all below it |
| Publication.OrderedAlways | fabricfs-transport/src/server.rs:191-235 | in every interleaving of workers, failures included, one worker at a time is inside a namespace and its broadcasts leave valid and in strictly increasing order |
| Publication.StepKeepsExclusive | fabricfs-transport/src/policy.rs:304-342 | the namespace lock admits one worker at a time |
| LockProgress.LockedIffHeld | fabricfs-transport/src/policy.rs:304-342 | in every reachable state a namespace is locked iff a worker is inside it |
| LockProgress.EntersIff | fabricfs-transport/src/policy.rs:311-328 | after any run a new worker gets inside iff nobody holds its namespace, otherwise nothing changes |
| LockProgress.HolderMakesWay | fabricfs-transport/src/policy.rs:335-342 | after any run the holder can leave by its own steps, no other worker touched, and then a new worker gets inside |
| LockProgress.CountsServed | fabricfs-transport/src/server.rs:158-189 | over every run the counters are those of a dispatcher that served the dispatched calls one by one, lost responses included |
| LockProgress.BroadcastsWhatIsServed | fabricfs-transport/src/server.rs:352-374 | as long as nothing fails a namespace's broadcasts are exactly what was issued for the served calls, in order, up to the one in flight |
| LostNumbers.EveryNumberAccounted | fabricfs-transport/src/server.rs:158-235 | in every run each number handed out is broadcast, in flight, or lost by a response that could not be framed or a publish that never reached the broker, and never two of these |
| Publication.CompleteAlways | fabricfs-transport/src/server.rs:352-374 | as long as nothing fails the broadcasts are numbered exactly 1, 2, 3, … |
| Observers.ObserverNeverPoisoned | fs-fuse/src/lib.rs:1079-1104 | a lossless observer of such a server never errs, is never poisoned, and its sequence counts its namespace's broadcasts |
| Observers.FollowsStream | fs-fuse/src/cache.rs:132-198 | the same for any consecutive valid stream with other namespaces mixed in |
| Observers.BatchesConcat | fs-fuse/src/lib.rs:1079-1104 | draining in several batches is draining once |
| OwnReplies.OwnReplyPoisonsIff | fs-fuse/src/cache.rs:200-209 | applying the reply to an own announced call poisons a healthy cache iff a number issued before it is still undrained, else the cache is at the reply's number |
| OwnReplies.SoleMutatorNeverPoisoned | fs-fuse/src/cache.rs:200-209 | the only mutator of a namespace that applies its replies in order is never poisoned |
| ReplayFilterRuns.EchoNotDelivered | fabricfs-transport/src/policy.rs:90-109 | the echo of an own request is not delivered while pending nor through the next 1023 completions |
| Admission.SafeAlways | fabricfs-transport/src/policy.rs:198-251 | before a message's deadline at most one worker is on the way to its handler and the replay entry outlives the deadline |
| Admission.HandledAtMostOnce | fabricfs-transport/src/policy.rs:145-161 | however workers, clock, sweeper and duplicates interleave, no signed message reaches its handler twice |
| Executions.ExecutedExactly | fabricfs-transport/src/server.rs:191-235 | over every run the executions are, in order, exactly the messages whose worker was granted its claim and dispatched before the deadline, read off the events by a reference without replay cache, discards or sweeper |
| Executions.HandledExactlyOnce | fs-core/src/lib.rs:404-432 | a message that arrives acceptable, is claimed for the first time and dispatched before its deadline is executed exactly once, whatever happens around it and afterwards |
| Executions.ClaimedIffAdmitted | fabricfs-transport/src/policy.rs:145-161 | a message was admitted before iff a claim of it is on record |
| Executions.SweepLeavesTheLiving | fabricfs-transport/src/policy.rs:264-302 | after a sweep the cache holds exactly the claims that have not run out |
| Readmission.EntryKeptUntilExpiry | fabricfs-transport/src/policy.rs:264-302 | sweeps and claims forget a message only after its stored expiry |
| Readmission.AdmitsIff | fabricfs-transport/src/policy.rs:145-161 | a claim is granted iff the message was never admitted or its stored expiry has come |
| Readmission.AdmittedOnceIff | fabricfs-transport/src/policy.rs:198-251 | every message is admitted at most once iff the run has no claim at or after a stored expiry |
| Readmission.LateClaimMissesDeadline | fs-core/src/lib.rs:452-457 | such a claim is past the deadline too, so the dispatcher turns it away |
| Readmission.StalledWorkerReadmits | fabricfs-transport/src/policy.rs:198-251 | every acceptable message can be admitted twice by a worker that stalls before its claim |
| ReplayCaches.AuthenticatedReplayCache.Claim | fabricfs-transport/src/policy.rs:145-161 | the in-place claim equals the value-level one |
| ReplayCaches.AuthenticatedReplayCache.Discard | fabricfs-transport/src/policy.rs:265-267 | drops exactly the entries whose expiry has come and keeps the others as they are |
| RetryingClients.PathMutationsAreAmbiguous | fabricfs-transport/src/policy.rs:28-46 | a request that needs covering is never one that may be sent again |
| RetryingClients.RetriableIff | fabricfs-transport/src/policy.rs:16-46 | exactly the operations that only read and the release may be sent again |
| RetryingClients.OkIffAnswered | fabricfs-transport/src/client.rs:203-308 | the verdict on the last attempt is a success iff the broker hands over a valid reply to an attempt that is made, and then it is that reply |
| RetryingClients.FileSystemClient.RoundTripRegistered | fabricfs-transport/src/client.rs:203-308 | the result is the verdict on the last attempt, and a success iff the broker answers validly an attempt that is made: one with only retryable failures before it, within the attempts, and the first unless the request may be sent again; one publication, with its own inbox, for each attempt made that can be published |
| RetryingClients.FileSystemClient.RoundTrip | fabricfs-transport/src/client.rs:175-201 | an oversized frame or a lost connection is refused before anything is registered; otherwise it succeeds iff the broker answers, and the request id is begun, and completed iff it succeeded, abandoned otherwise |
| RetryingClients.FileSystemClient.Call | fabricfs-transport/src/client.rs:399-433 | the request leaves under the client's scope; the caller gets an answer iff the request is sent and the broker answers it, and it is that reply with the scoped id replaced by the caller's, checked against the caller's request |
| Coverage.RestoredIsValid | fabricfs-transport/src/client.rs:380-396 | giving the caller's id back keeps a checked reply a checked reply |
| Coverage.ScopedIdsIff | fabricfs-transport/src/client.rs:368-370 | scoped ids of any two clients are equal iff scope and caller's id are, for callers' ids without a colon |
| Coverage.EffectiveDeadline | fabricfs-transport/src/policy.rs:48-56 | the earlier of the caller's deadline, if it has one, and the timeout's |
| RetryingClients.FileSystemClient.DrainInvalidations | fabricfs-transport/src/client.rs:435-473 | takes what was recovered and then, in order, the namespace's messages of no pending or completed own request, up to the first unreadable one; delivers all it took iff there is none, else loses it; what pending requests held back stays held back; messages of other namespaces are thrown away |
| AtMostOnce.ExecutedAtMostAsPublished | fabricfs-transport/src/server.rs:191-235 | the handler runs at most once per published message, whatever the broker repeats, delays or loses |
| EndToEnd.ExchangeExecuted | fabricfs-transport/src/client.rs:203-308 | a request is executed at most as often as the retry loop allows, and at most once if its effects are ambiguous |
| EndToEnd.Mount.Call | fs-fuse/src/lib.rs:882-892 | the client's exchanges carry the adapter's request ids, each one new; the call is sent iff the cache is healthy enough and the request valid, and then what the broker answers is settled, a success being applied to the cache |
| EndToEnd.ServedCallSettles | fabricfs-transport/src/client.rs:399-433 | when the broker hands over the dispatcher's response to the scoped request, the caller gets it under its own id and it settles the call: a success iff nothing spoke against the call, with the service's payload |
| EndToEnd.CallsExecutedAtMostOnce | fabricfs-transport/src/client.rs:368-377 | over all calls of an adapter through its client: each call is executed at most as often as the retry loop allows, and at most once if its effects are ambiguous |
| RetryDeadlines.HandledInTime | fabricfs-transport/src/policy.rs:204-219 | only what arrived before its deadline is ever handled |
| RetryDeadlines.RetryExecutedOnlyEarly | fabricfs-transport/src/policy.rs:48-56 | a retry is executed only if every earlier attempt ended before the deadline, none of them by a timeout |
| AtMostOnce.HandledArrived | fabricfs-transport/src/server.rs:191-235 | nothing is handled that did not arrive |
| ReplayFilterRuns.ConsistentAlways | fabricfs-transport/src/policy.rs:58-137 | deferred ids are pending, pending and completed are disjoint, the window equals the completed set without duplicates and within 1024 |
| ReplayFilterRuns.Conservation | fabricfs-transport/src/policy.rs:58-137 | every received invalidation is delivered, dropped or held, none lost, none multiplied |
| ReplayFilterRuns.OnlyCompletedDropped | fabricfs-transport/src/policy.rs:90-109 | only echoes of requests this client completed are dropped |
| ReplayFilterRuns.HoldsWhatWaits | fabricfs-transport/src/policy.rs:90-109 | an id holds exactly what arrived for it while pending, in order |
| ReplayFilterRuns.RescuedInOrder | fabricfs-transport/src/policy.rs:83-123 | what abandoned requests had waiting comes out once and in order, namespace by namespace |
| ReplayFilterRuns.DrainEmpties | fabricfs-transport/src/policy.rs:111-123 | after draining a namespace all of its share has been taken |
| ReplayFilterRuns.StaysSuppressed | fabricfs-transport/src/policy.rs:125-137 | an id completed while pending stays suppressed through the next 1023 completions unless begun again |
| OwnInvalidationReplays.OwnInvalidationReplay.Begin | fabricfs-transport/src/policy.rs:68-75 | the in-place update equals the value-level one, invariants kept |
| OwnInvalidationReplays.OwnInvalidationReplay.Complete | fabricfs-transport/src/policy.rs:77-81 | likewise, dropping what was deferred |
| OwnInvalidationReplays.OwnInvalidationReplay.Abandon | fabricfs-transport/src/policy.rs:83-88 | likewise, handing over what was deferred |
| OwnInvalidationReplays.OwnInvalidationReplay.HandleInvalidation | fabricfs-transport/src/policy.rs:90-109 | likewise, delivering unless completed or pending |
| OwnInvalidationReplays.OwnInvalidationReplay.TakeRecovered | fabricfs-transport/src/policy.rs:111-123 | the loop splits the queue by namespace and keeps both orders |
| OwnInvalidationReplays.OwnInvalidationReplay.RememberCompleted | fabricfs-transport/src/policy.rs:125-137 | the eviction loop keeps the newest 1024 and the set equal to them |
| Delivery.DeliverPreparedResponse | fabricfs-transport/src/policy.rs:351-403 | Ok iff no publish failed and, for a response with a handle to a request with a deadline, both clock readings are before it, with no cleanup; otherwise exactly one cleanup after everything sent; a timeout only for such a handle; invalidations in order before the reply |
| Delivery.ReleaseIffHandle | fs-core/src/lib.rs:820-835 | transport and dispatcher agree on which checked responses carry a handle; the release is a valid request for it |
| Delivery.ReleasedExactlyOnce | fs-core/src/lib.rs:720-731 | a failed delivery asks for one release if the response carried a handle and for none otherwise, and it is done unless the backend fails |
| Delivery.ServeDispatched | fabricfs-transport/src/server.rs:158-189 | from dispatch to delivery: an opened handle is replied without release or asked to be released once iff the response fits the frame; it is replied or really released once iff moreover nothing goes wrong or the backend does the release |
| PublishedStore.WriteOnce | fabricfs-server/src/published_store.rs:534-554 | a key's bytes never change once stored |
| PublishedStore.TruthfulAlways | fabricfs-server/src/published_store.rs:534-554 | success means the stored bytes are the caller's, conflict that they are not, also for claims that stored but reported an error |
| PublishedStore.ReadDecides | fabricfs-server/src/published_store.rs:547-551 | after a failed claim a successful read ends the publisher iff the key has bytes, as a conflict iff they differ from its own; a failed read sends it back to claiming |
| PublishedStore.OutcomeIsFinal | fabricfs-server/src/published_store.rs:556-604 | what a publisher has been told is never revised; one that gives up is told of the timeout and leaves the bucket alone |
| PublishedStore.PublisherIsTold | fabricfs-server/src/published_store.rs:534-554 | a new publisher whose claim reports success has stored its bytes; one whose claim reports an error is told whether the bytes there, perhaps its own, are the ones it wanted |
| PublishedStore.SuccessesAgree | fabricfs-server/src/published_store.rs:534-554 | after one success a publisher of that key succeeds iff its bytes are the same |
| PublishedStore.StoredAtMostOnce | fabricfs-server/src/published_store.rs:534-554 | at most one publisher of a key is told it stored the bytes |
| PublishedStore.WithRetry | fabricfs-server/src/published_store.rs:556-604 | between one and the configured number of tries; retried only after JetStream errors, which alone turn into a timeout |
| DirectoryPaging.DirectoryEntries | fabricfs-fuse/src/reply.rs:309-344 | the page is exactly the part of the whole directory that starts at the kernel's offset: "." with the directory's inode, ".." with the parent's, then the listing's entries with inode, kind and name |
| DirectoryPaging.ReplyDirectory | fabricfs-fuse/src/reply.rs:501-520 | the longest prefix whose entries all fit |
| DirectoryPaging.CollectsWholeDirectory | fabricfs-fuse/src/reply.rs:165-175 | wherever pages are cut, resuming at the last accepted offset ends and shows ".", ".." and every entry as it is in the listing, once and in order |
| DirectoryPaging.NamesShownOnce | fabricfs-server/src/service.rs:110-139 | with distinct checked server names no name is shown twice |
| DirectoryPaging.PagingEndsIff | fabricfs-fuse/src/reply.rs:334-344 | however pages are cut, reading ends after some number of pages iff the last resume offset fits the kernel's type; beyond that no number of pages ends it |

## Left out

- FuseAdapters.FuseAdapter.CallWithCachePolicy: calls of one adapter are taken one at a time, so a poisoning between the health test and the sending is not modelled; its drain-before-call flag, which no caller sets, is not modelled either.
- FuseAdapters.FuseAdapter.Write: stands for all handle-bound calls (read, flush, fsync, locks, copy, allocate, seek), which resolve and send in the same way.
- FuseAdapters.FuseAdapter.Lookup: the remaining path-resolved callbacks (getattr, unlink, mkdir, rmdir, symlink, hardlink, setattr, xattr calls) resolve, send and cache in the same ways and would only repeat it.
- Admission.Step: wall clock and monotonic clock are one clock; overflow of the monotonic clock is not modelled; a replay token stands for its message.
- Dispatching.Dispatcher.NextInvalidationSequence: numbers are unbounded; 64-bit wrap-around is not modelled.
- RetryingClients.FileSystemClient.RoundTripRegistered: I/O error kinds are not told apart beyond timeout and the rest; back-off times are not modelled.
- PublishedStore.WithRetry: the doubling delay between tries is not modelled; deletion of keys is not modelled.
- Publication.Step: full resyncs of the storage watcher are numbered outside the namespace lock and are kept apart by a gate of their own, which is not part of this model; `SequenceNumbers` covers their numbering.
- ServedTree.Serves: an unannounced call is taken to leave the tree alone; a handler that changes names and whose answer is then refused, or that fails half-way, is not covered.
- RetryDeadlines.RetryExecutedOnlyEarly: the client's and the server's clocks are one clock.
- Recovery after a poisoned mutex, which restarts numbering or clears the handle table.
- Protobuf encoding, the broker itself, HMAC signatures and peer authentication: encoding is the identity on valid envelopes.
- Trace, caller and observation fields, error texts, metrics, spans.
- Session protocol, overlay, inode map, lock tables, storage back end, command line.
