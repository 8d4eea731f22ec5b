# Verified model of the drive backend

This project models the concurrent and algorithmic core of a self-hosted drive and proves what it relies on. Verify with
`dafny verify dfyconfig.toml` (Dafny 4.11).

The database is a set of row maps, a committed transaction or a single statement is one atomic step, and whatever was
read before a step is an argument of the step: it may be stale. Values drawn at random (ids, tokens, object keys) are
parameters or counters that have not been used before. Clock readings are arguments of the steps as well, and nothing is
assumed about their order unless a lemma says so.

| part | files |
|---|---|
| Upload sessions: a token with a 15-minute lease, two rows that move together, part arithmetic | `TransferStates`, `UploadParts`, `UploadSessions`, `UploadSessionStore`, `UploadProtocol`, `UploadRuns` |
| The file tree: parent pointers, trash, transactions that lock one row after another | `Forest`, `FileTrees`, `TreeTransactions`, `TreeRuns`, `HierarchyWrites`, `TreeCopies`, `TreeEffects`, `FileNodeStore` |
| Names: derived keys, the unique index, numbered names and the search for a free one | `FileNames`, `FileNameRules`, `FileNameSearch`, `NameKeys`, `NameEffects`, `FileCatalog` |
| Stored objects and the rows that point to them | `BlobReferences`, `BlobStories` |
| Shares: loading a tree, roles, access from below | `ShareTrees`, `ShareScopes` |
| Download intents and the limits of a share | `DownloadIntents`, `ShareDownloads`, `ShareVisits` |
| Rate-limit buckets: single callers, whole runs, pruning | `RateLimits`, `RateLimitRuns`, `RateLimitPruning` |
| The audit listing | `AuditScan` |

Stores whose methods change rows are classes; each method is tied to a function of the old row, and the state machines
run those same functions in every interleaving. The tables appear in more than one file, each time with the columns that
matter there: `FileTrees` has the tree, `NameKeys` adds names and keys, `BlobReferences` keeps content keys only. The
checks on the hierarchy that precede a write are in `FileNodeStore` and `TreeTransactions`; `FileCatalog` takes them as
done and says what the names do. `FileNodeStore` has the operations one by one, and `TreeTransactions` shows that their
statements, interleaved in any way, come to the same (`TreeTransactions.CommitsAreSequential`).

Safety is stated over all interleavings, and what the steps achieve is stated beside it without naming the functions that
the steps apply: undisturbed workers complete an upload (`UploadRuns`), undisturbed transactions do what may be done
(`TreeRuns`), with the effect of each request on each column in `TreeEffects`; objects reach rows and leave the store
(`BlobStories`), intents and shares can be used up to their limits and no further (`ShareVisits`).

What the code promises less of than one might expect is stated exactly:

- A caller reads its clock before its first statement, so what a limit admits within a span of real time depends on how
  old readings can be. `RateLimitRuns.SpanAdmitsAtMost` gives the bound and `MostIsReached` shows that it is exact; without
  delay a window admits up to twice the limit less one. The bound needs buckets that are retained for a window and twice
  the delay, or once for a limit of one (`EarlyPruningExceeds`), and so does the invisibility of pruning
  (`RateLimitPruning`). The configured retention leaves half an hour for the delay.
- A reported expiry of a download intent turns into a completion exactly when transactions that read their clocks before
  the deadline commit the rest of its uses (`ShareDownloads.ExpiryIsTakenBackIff`); a reported completion is final.
- Two numbers give the same candidate name exactly when the name has 255 bytes and carries both of them already, one before
  its extension and one at the end (`FileNameSearch.ConflictIffMeets`). One pair at most does, so the search succeeds for
  every name below 9997 taken siblings, and below 9998 for all names without such a pair.
- The trash stays in order exactly when no archiving that commits is behind the clock of the trash below its active nodes
  (`TreeTransactions.TrashInOrderIffClocksFit`); servers whose clocks disagree can leave an active node below an archived one
  (`FileTrees.UnfitClockBreaksTrash`). Forest, housing and the cutoff of cleanups do not depend on clocks.
- An archiving or deletion that counts children in a snapshot older than its locks, beside a move or copy at a lower
  isolation level, does no harm exactly when nothing unfit has come in below its rows since
  (`FileTrees.ArchivedOnOldSnapshot`, `FileTrees.RemovedOnOldSnapshot`, and `FileTrees.LateMoveBreaksTrash` for one that has).
- A caller who waits as many seconds as a refusal says finds the window over exactly when it does not end after a whole
  positive number of seconds, because the window includes its last millisecond (`RateLimits.WaitingIsEnough`).

Archiving a folder and restoring it in place is the identity except when a node below already carries the very
millisecond that the archiving writes (`FileTrees.ArchiveThenRestore`).

## Model

| member | source | states |
|---|---|---|
| `TransferStates.TransitionSources` | backend/src/common/transfers/transfer-task-state.ts:78-100 | The sources offered for a status are exactly the statuses that may change into it |
| `TransferStates.TerminalMeansNoExit` | backend/src/common/transfers/transfer-task-state.ts:65-113 | A status is terminal exactly when nothing but itself can follow it; every other status can still expire or be canceled |
| `TransferStates.SourcesOf` | backend/src/common/transfers/transfer-task-state.ts:64-100 | Which statuses may change into which, one by one |
| `TransferStates.ReportedFromDeadline` | backend/src/common/transfers/transfer-task-state.ts:109-126 | A status that can still change is reported as expired from the moment of its deadline on |
| `UploadParts.RangeBounds` | backend/src/modules/files/file-upload-session.helper.ts:98-127 | Where the byte range of a part index lies: full chunks up to the last part, which ends with the last byte |
| `UploadParts.CompleteTableTiles` | backend/src/modules/files/file-upload-session.helper.ts:98-155 | A complete part table cuts [0, sizeBytes) into disjoint ranges without a gap whose sizes add up |
| `UploadParts.PartIsExpected` | backend/src/modules/files/file-upload-session.helper.ts:141-152 | A part passes exactly when its index is still outstanding and its range and tag are the expected ones |
| `UploadParts.TakeExpected` | backend/src/modules/files/file-upload-session.helper.ts:134-153 | The loop passes exactly the lists whose parts all match and whose indexes are taken once each from the expected set; what is left is the set without them |
| `UploadParts.AssertUploadSessionComplete` | backend/src/modules/files/file-upload-session.helper.ts:129-155 | The completeness check accepts exactly the lists that hold every expected part once |
| `UploadParts.AcceptedListingIffCompleteTable` | backend/src/modules/files/upload-session-parts.ts:17-23 | What the check accepts about a listing is completeness of the table it was read from, and conversely |
| `UploadSessionStores.UploadSessionStore.Claim` | backend/src/modules/files/upload-session-completion.ts:23-102 | Claims the completion under all guards of both rows, or leaves both rows as they were |
| `UploadSessionStores.UploadSessionStore.Refresh` | backend/src/modules/files/upload-session-completion.ts:104-176 | Renews the lease of the holder and never shortens a deadline |
| `UploadSessionStores.UploadSessionStore.MarkStorageFinalized` | backend/src/modules/files/upload-session-completion.ts:178-195 | Marks storage as finalized for the current holder only; from then on no token, at whatever time, claims or stores a part |
| `UploadSessionStores.UploadSessionStore.PersistNode` | backend/src/modules/files/file-upload-completion-write.ts:226-246 | The session half of the node write: it needs the current token, a running session and a live deadline |
| `UploadSessionStores.UploadSessionStore.Complete` | backend/src/modules/files/upload-session-completion.ts:216-294 | Completes transfer and session together for the holder whose node is on the session |
| `UploadSessionStores.UploadSessionStore.FailTransfer` | backend/src/modules/files/upload-session-completion.ts:318-351 | The transfer half of a failure: changed, found failed in the same way already, or refused |
| `UploadSessionStores.UploadSessionStore.Fail` | backend/src/modules/files/upload-session-completion.ts:296-386 | Fails or expires both rows for the holder, depending on the deadline it had read |
| `UploadSessionStores.UploadSessionStore.CancelHeld` | backend/src/modules/files/upload-session-completion.ts:388-461 | Cancels both rows for the holder |
| `UploadSessionStores.UploadSessionStore.ClaimWrite` | backend/src/modules/files/upload-session-parts.ts:53-108 | Takes the token for one part write unless a fresh lease is held or storage is finalized |
| `UploadSessionStores.UploadSessionStore.CommitWrite` | backend/src/modules/files/upload-session-parts.ts:110-167 | Exactly for the holder of the token, on a running session in time, the table gets this part at its index and keeps all others, and the token is given back |
| `UploadSessionStores.UploadSessionStore.ReleaseWrite` | backend/src/modules/files/upload-session-parts.ts:169-179 | Gives the token back in the holder's name only; it stores nothing any more, and anyone can claim the session again exactly until a deadline passes |
| `UploadSessionStores.UploadSessionStore.Resume` | backend/src/modules/files/upload-session-lifecycle.ts:184-280 | Resumes both rows when nobody holds a fresh lease; progress never falls |
| `UploadSessionStores.UploadSessionStore.TransitionFailure` | backend/src/modules/files/upload-session-lifecycle.ts:282-394 | Fails or expires both rows from outside under a stale view of the session, without breaking a fresh lease |
| `UploadSessionStores.UploadSessionStore.Cancel` | backend/src/modules/files/upload-session-lifecycle.ts:396-491 | Cancels both rows from outside, without breaking a fresh lease |
| `UploadSessionStores.UploadSessionStore.SetLegacyExpiry` | backend/src/modules/files/upload-session-lifecycle.ts:23-92 | Gives both rows a deadline they lack, or finds the same one on both |
| `UploadProtocol.StepKeepsInv` | backend/src/modules/files/file-upload.service.ts:528-626 | Every step of every worker keeps: equal rows, a complete table behind finalized storage, true memories behind current tokens |
| `UploadProtocol.FinalizedPartsTile` | backend/src/modules/files/file-upload.service.ts:532-569 | In every interleaving of writers and completers with stale takeovers, finalized storage was finalized from a part table that tiles the file |
| `UploadProtocol.FinalizedPartsNeverChange` | backend/src/modules/files/upload-session-parts.ts:110-167 | Once storage is finalized the part table stays as it is in every continuation |
| `UploadProtocol.NodeWrittenAtMostOnce` | backend/src/modules/files/file-upload.service.ts:570-601 | A session writes at most one file node in its whole life; a completed one has written it from finalized storage |
| `UploadProtocol.StatusesAgree` | backend/src/modules/files/upload-session-completion.ts:23-461 | Session and transfer agree on status and failure code; one terminal audit event exists exactly when the transfer has ended |
| `UploadProtocol.StepAdvances` | backend/src/modules/files/upload-session-lifecycle.ts:184-491 | Each status change is allowed by the table; finalized parts, node ids, audit events and progress are never taken back |
| `UploadProtocol.TerminalStatusIsFinal` | backend/src/modules/files/upload-session-lifecycle.ts:282-491 | Completed, expired and canceled are never left by any continuation |
| `UploadProtocol.LeaseExcludesOthers` | backend/src/modules/files/upload-session-completion.ts:64-97 | While a token is younger than 15 minutes, no step in another name touches session, parts, node writes, audit or status |
| `UploadProtocol.LeaseRunsOut` | backend/src/modules/files/upload-session-completion.ts:23-102 | From then on, and in time, a completion can be claimed, and a part write before finalization |
| `UploadRuns.UndisturbedUploadCompletes` | backend/src/modules/files/file-upload.service.ts:333-626 | Liveness: workers who meet nobody else, with any clocks before the deadline, send each part and complete: after 2n+6 steps both rows are completed, the table lists exactly the parts sent, and the one node written is on both rows |
| `UploadProtocol.SupersededTokenIsInert` | backend/src/modules/files/upload-session-parts.ts:113-179 | A superseded token never becomes current again, and every step in its name leaves both rows unchanged |
| `Forest.AcyclicIffNoCycle` | backend/src/modules/files/file-node-hierarchy-write.ts:39-70 | Every climb ends exactly when no node is its own ancestor |
| `Forest.ReattachKeepsAcyclic` | backend/src/modules/files/file-node-hierarchy-write.ts:117-166 | Hanging a node below a target whose climb ends and avoids it keeps the forest acyclic |
| `Forest.RemovalKeepsAcyclic` | backend/src/modules/files/file-node-versions.repository.ts:762-770 | Removing rows keeps the forest acyclic |
| `FileTrees.MovedOk` | backend/src/modules/files/file-nodes.repository.ts:217-253 | A move after its checks keeps forest, trash order and housing |
| `FileTrees.WithNewOk` | backend/src/modules/files/file-nodes.repository.ts:150-211 | A creation of a folder or file after its checks keeps forest, trash order and housing |
| `FileTrees.ArchivedOk` | backend/src/modules/files/file-node-versions.repository.ts:79-119 | Archiving a set closed under children keeps all places; it keeps the order of the trash exactly when nothing in the trash directly below an active node is ahead of the clock |
| `FileTrees.UnfitClockBreaksTrash` | backend/src/modules/files/file-node-versions.repository.ts:84-140 | Three archivings by two clocks and one restoration that leave an active node below an archived one |
| `FileTrees.ArchivedOnOldSnapshot` | backend/src/modules/files/file-node-versions.repository.ts:690-716 | If the children were counted in an older snapshot, archiving keeps the order of the trash exactly when the clock fits and nothing active, or later in the trash, has come in below active rows of the set |
| `FileTrees.LateMoveBreaksTrash` | backend/src/modules/files/file-nodes.repository.ts:217-253 | A move between the listing and the lock of an archiving that leaves an active node below an archived one |
| `FileTrees.RemovedOnOldSnapshot` | backend/src/modules/files/file-node-versions.repository.ts:729-770 | With the cascading foreign key a deletion takes exactly the rows it has checked when none has come in below them; the tree stays in order in any case |
| `FileTrees.RestoreBatchClosed` | backend/src/modules/files/file-node-versions.repository.ts:131-140 | The rows selected by equal timestamp are closed under parents up to the restored root |
| `FileTrees.RestoredOk` | backend/src/modules/files/file-node-versions.repository.ts:121-210 | A restoration leaves no active node below an archived one and keeps the forest |
| `FileTrees.RemovedOk` | backend/src/modules/files/file-node-versions.repository.ts:720-786 | Deleting a set closed under children leaves no parent pointer dangling |
| `FileTrees.AncestorsOfActiveAreActive` | backend/src/modules/files/file-node-versions.repository.ts:88-113 | In a tree in order every ancestor of an active node is active |
| `FileTrees.ListingHangs` | backend/src/modules/files/file-node-versions.repository.ts:212-221 | What a listing from below a root returns hangs from the root, wherever the root itself was read to hang |
| `FileTrees.SnapshotIsSubtree` | backend/src/modules/files/file-node-versions.repository.ts:677-718 | A snapshot whose rows are unchanged and lack no child is the subtree of the moment |
| `FileTrees.TrashBelowIsOlder` | backend/src/modules/files/file-node-versions.repository.ts:256-292 | Whatever lies below a node archived before the cutoff was archived before the cutoff |
| `FileTrees.ArchiveThenRestore` | backend/src/modules/files/file-node-versions.repository.ts:79-210 | Archiving and restoring in place gives the tree back exactly when no node below carries the very timestamp that was written |
| `TreeTransactions.StepKeepsInv` | backend/src/modules/files/file-node-hierarchy-write.ts:28-166 | Each single step of the locking transactions keeps, with any clocks: forest and housing, and per transaction a still-true locked chain, snapshot or collected level |
| `TreeTransactions.UnderLocksRespects` | backend/src/modules/files/file-node-versions.repository.ts:677-718 | A write under its locks changes no row another transaction has locked, and hangs or revives nothing below one |
| `TreeTransactions.CommitsAreSequential` | backend/src/modules/files/file-node-hierarchy-write.ts:28-166 | In every interleaving each commit of a move, creation, copy, archiving, restoration or deletion does to the state in which it commits exactly what its request does alone, stated column by column: legal target, the parent asked for, the whole subtree of that state archived, revived, removed or copied, and nothing else changed |
| `TreeTransactions.RunIsSequential` | backend/src/modules/files/file-node-hierarchy-write.ts:28-166 | The tree of every run is reached by requests done one after another and each alone |
| `TreeRuns.UndisturbedRequestsComeThrough` | backend/src/modules/files/file-node-hierarchy-write.ts:28-115 | Liveness: a request that may be done, and whose transaction meets no locks of others, comes through in some run, does it, and gives its locks back |
| `TreeRuns.CommitsMayBeDone` | backend/src/modules/files/file-node-hierarchy-write.ts:28-115 | Conversely whatever is about to commit in any interleaving may be done in that state |
| `TreeTransactions.CollectedIsTree` | backend/src/modules/files/file-node-hierarchy-write.ts:74-115 | What the level-by-level walk of a copy has locked and collected is the active tree below its root in the state in which it commits |
| `TreeTransactions.ForestStaysForest` | backend/src/modules/files/file-node-hierarchy-write.ts:28-72 | With any clocks, no interleaving of moves, creations, copies, archivings, restorations and deletions makes a cycle or a dangling parent |
| `TreeTransactions.TrashInOrderIffClocksFit` | backend/src/modules/files/file-node-versions.repository.ts:79-119 | In every interleaving the trash stays in order in all states exactly when each archiving that commits has a reading that is not behind the trash below the active nodes it takes |
| `TreeTransactions.OneClockFits` | backend/src/modules/files/file-node-versions.repository.ts:79-119 | Readings that never fall are enough for that |
| `TreeTransactions.NothingActiveBelowArchived` | backend/src/modules/files/file-node-versions.repository.ts:677-718 | With clocks that fit, in no reachable state does an active node lie below an archived one; its ancestors are folders of its workspace and space |
| `TreeTransactions.TrashOrderHolds` | backend/src/modules/files/file-node-versions.repository.ts:88-113 | With clocks that fit, in every reachable state timestamps do not rise on the way down the trash |
| `TreeTransactions.CleanupDeletesOnlyOldTrash` | backend/src/modules/files/file-node-versions.repository.ts:720-786 | With any clocks, a cleanup deletes only nodes archived before its cutoff, and all children of each of them |
| `TreeTransactions.RestorationIsClosed` | backend/src/modules/files/file-node-versions.repository.ts:129-205 | With clocks that fit, a committed restoration revives each row together with its parent, and only rows of the root's timestamp |
| `HierarchyWrites.LockAndValidateActiveParent` | backend/src/modules/files/file-node-hierarchy-write.ts:28-72 | The climb accepts exactly the targets that are fitting folders with only active ancestors, none forbidden, and with a top; each refusal has its reason |
| `HierarchyWrites.CollectLockedActiveTree` | backend/src/modules/files/file-node-hierarchy-write.ts:74-115 | The walk lists each active node below the root once, root first; it gives up only for an inactive root or a cycle |
| `FileNodeStores.FileNodeStore.Move` | backend/src/modules/files/file-nodes.repository.ts:217-253 | A move succeeds exactly when the node is active and the target legal; then its parent is the one asked for, the top level included, all else stays, and the tree stays in order |
| `FileNodeStores.FileNodeStore.CreateFolder` | backend/src/modules/files/file-nodes.repository.ts:150-211 | A creation succeeds exactly when the target is legal; it adds one active row there with the columns given, and keeps the tree in order |
| `FileNodeStores.FileNodeStore.ArchiveTree` | backend/src/modules/files/file-node-versions.repository.ts:79-119 | Row by row, the subtree is archived; what is in the trash keeps its time and its former place; the tree stays in order exactly when the clock fits |
| `FileNodeStores.FileNodeStore.RestoreTree` | backend/src/modules/files/file-node-versions.repository.ts:121-210 | A restoration succeeds exactly when the root is archived and the target legal; it revives the rows of equal timestamp |
| `FileNodeStores.FileNodeStore.CopyTree` | backend/src/modules/files/file-nodes.repository.ts:339-459 | A copy is made exactly for an active root and a legal target; it adds one active row for each row of the active tree, root included, with its contents, kind and place, the copied root below the target, and leaves the old rows alone |
| `FileNodeStores.DrawIds` | backend/src/modules/files/file-nodes.repository.ts:373-379 | Each copied row gets an id of its own that no row had |
| `TreeCopies.ActiveBelowIsWholeSubtree` | backend/src/modules/files/file-node-hierarchy-write.ts:85-114 | In a tree in order, the walk over active children reaches all active rows of the subtree |
| `TreeCopies.CopyIsIsomorphic` | backend/src/modules/files/file-nodes.repository.ts:383-430 | Every row of the copy, root included, is active and has contents, kind, workspace and space of its original; the id map carries parents to parents in both directions, and the new root hangs from the target |
| `TreeCopies.CollectedIsActiveBelow` | backend/src/modules/files/file-node-hierarchy-write.ts:85-114 | Active rows that hang from the root and lack no active child are exactly the active tree below it |
| `TreeCopies.CopyOk` | backend/src/modules/files/file-nodes.repository.ts:339-459 | A tree with a copy in it is acyclic and housed, and in order if it was |
| `TreeCopies.CannotCopyIntoItself` | backend/src/modules/files/file-nodes.repository.ts:359-371 | No node inside the copied folder is a legal target |
| `BlobReferences.StepKeepsInv` | backend/src/modules/files/file-node-versions.repository.ts:489-675 | Each step of uploads, edits, copies, version restores, prunes, deletions and cleanups keeps: referenced keys are stored and not marked for removal |
| `BlobReferences.ReferencedIsStored` | backend/src/modules/files/file-upload.service.ts:680-688 | In every run, whatever a node or version points to is stored |
| `BlobReferences.UnreferencedStaysUnreferenced` | backend/src/modules/files/file-node-versions.repository.ts:645-675 | A key that the filter found unreferenced is referenced in no later state |
| `BlobStories.UploadIsWritten` | backend/src/modules/files/file-upload-completion-write.ts:112-224 | A finalized upload becomes a new node, or the content of a node whose old content stays as a version |
| `BlobStories.EditIsWritten` | backend/src/modules/files/file-nodes.repository.ts:262-321 | A saved edit becomes the content of its node, and what was there stays as a version |
| `BlobStories.RowsTakeOver` | backend/src/modules/files/file-node-versions.repository.ts:489-547 | A copy has the content of its original; a restored version becomes the content and what was there a version |
| `BlobStories.DeletionFreesExactly` | backend/src/modules/files/file-node-versions.repository.ts:720-786 | A deletion removes the rows of the tree; after its clean-up an object of it is gone exactly when no row outside points to it |
| `BlobStories.PruningFreesExactly` | backend/src/modules/files/file-node-versions.repository.ts:614-675 | A pruning removes the versions named; after its clean-up an object of one is gone exactly when no row left points to it |
| `BlobStories.OverwriteFreesExactly` | backend/src/modules/files/file-upload-completion-write.ts:85-174 | After an upload has overwritten a node and its clean-up has run, the old object is gone exactly when no other row points to it |
| `BlobStories.RepeatedCleanUpFreesExactly` | backend/src/modules/files/file-upload.service.ts:680-688 | The clean-up after an overwrite can be repeated at any time and frees the old object as soon as no row points to it |
| `BlobStories.OverwriteNeedsTarget` | backend/src/modules/files/file-upload-completion-write.ts:104-111 | An overwrite whose target has other content by then changes nothing |
| `BlobStories.UnwrittenGoes` | backend/src/modules/files/file-upload.service.ts:435-467 | The object of an upload that is canceled or an edit that is given up before it is written leaves the store with its clean-up |
| `BlobReferences.FilterUnreferencedObjectKeys` | backend/src/modules/files/file-node-versions.repository.ts:645-675 | The batched filter returns each candidate once that was unreferenced when its batch was looked up, and nothing else; the references may change from batch to batch |
| `BlobReferences.PruningRule` | backend/src/modules/files/file-node-versions.repository.ts:614-643 | A version is deleted exactly when it has no open finding and is not among the newest ones within the retention time |
| `FileNames.TruncateUtf8` | backend/src/common/security/file-name-policy.ts:207-217 | The loop returns the longest run of whole code points that fits |
| `FileNames.PrefixFittingIs` | backend/src/common/security/file-name-policy.ts:207-217 | That run is determined by fitting and by the next code point not fitting |
| `FileNames.NormalizeGivesNames` | backend/src/common/security/file-name-policy.ts:16-41 | What normalization accepts is a name, and normalizing a name changes nothing |
| `FileNameRules.AcceptedIff` | backend/src/common/security/file-name-policy.ts:16-66 | Which values are accepted: trimmed, not empty or dots, without forbidden characters or a dot at the end, not a device name, and at most 255 bytes of UTF-8 |
| `FileNameRules.RefusedFor` | backend/src/common/security/file-name-policy.ts:16-66 | A refusal names the first rule that is broken |
| `FileNameRules.ByteLengthIsEncoded` | backend/src/common/security/file-name-policy.ts:207-217 | The length in bytes is that of the UTF-8 form (sections 3 and 4 of RFC 3629) |
| `FileNameRules.KeysAreOneIff` | backend/src/common/security/file-name-policy.ts:43-46 | Two names have one key exactly when they agree between their blanks, letter by letter, upper and lower case aside |
| `FileNames.NumberedNameIsName` | backend/src/common/security/file-name-policy.ts:68-89 | A numbered name is accepted, at most 255 bytes long, and made of a beginning of the old name, the number and the extension if there is room |
| `FileNameRules.NumberedNameKeepsBase` | backend/src/common/security/file-name-policy.ts:68-89 | With room for it the extension is kept, and before the number the longest beginning of the base that fits |
| `FileNameRules.NumberedNameDropsExtension` | backend/src/common/security/file-name-policy.ts:68-89 | Without that room the extension is dropped and the longest beginning of the whole name is kept, without blanks at its end |
| `FileNames.CandidatesDiffer` | backend/src/common/security/file-name-policy.ts:68-89 | Two numbers that treat the extension alike give candidates with different keys |
| `FileNameSearch.ConflictIffMeets` | backend/src/common/security/file-name-policy.ts:68-89 | A number that keeps the extension and one that drops it conflict exactly when the name has 255 bytes, its base ends with the first number and the name with the second; both then give the name back |
| `FileNameSearch.NumbersConflictIff` | backend/src/common/security/file-name-policy.ts:68-89 | Any two numbers conflict exactly when they meet in that way |
| `FileNameSearch.OnePairMeets` | backend/src/common/security/file-name-policy.ts:68-89 | For one name at most one pair of numbers meets |
| `FileNameSearch.NumbersCanMeet` | backend/src/common/security/file-name-policy.ts:74-88 | An accepted name that the numbers 2 and 10 both give back |
| `FileNameSearch.CandidatesCounted` | backend/src/modules/files/file-node-versions.repository.ts:886-890 | The numbers from 2 to 9999 give 9998 different keys, or 9997 if two of them meet |
| `FileNameSearch.SearchSucceeds` | backend/src/modules/files/file-node-versions.repository.ts:886-890 | For every name, with fewer taken keys than that, and so always with fewer than 9997, some number from 2 to 9999 is free |
| `FileNameSearch.SearchCanFail` | backend/src/modules/files/file-node-versions.repository.ts:886-890 | With as many taken keys as candidates the search can find none |
| `FileNameSearch.FirstFreeNumber` | backend/src/modules/files/file-upload-completion-write.ts:315-322 | The loop finds the least free number, or none is free |
| `FileNameSearch.ResolveAvailableName` | backend/src/modules/files/file-nodes.service.ts:833-846 | The search returns the wanted name if it is free and otherwise the first free candidate; it fails only if all are taken, and never below 9997 siblings |
| `NameKeys.UniqueIffNamesDiffer` | backend/src/common/security/file-name-policy.ts:47-66 | With coherent keys the unique index holds exactly when no two active siblings of one scope share a folded name |
| `NameKeys.EndDecides` | backend/src/modules/files/file-node-versions.repository.ts:171-203 | A transaction over archived or new rows violates the index at some statement only if its final state does |
| `NameKeys.TrashNeverClashes` | backend/src/modules/files/file-node-versions.repository.ts:89-112 | Archiving violates the index at no statement, in whatever order |
| `FileCatalogs.SiblingKeysAreClashes` | backend/src/modules/files/file-upload-completion-write.ts:298-314 | The sibling query of the name search sees exactly the rows that the index would compare |
| `FileCatalogs.RestoreClashesOnlyOnTwins` | backend/src/modules/files/file-node-versions.repository.ts:158-203 | A restoration under a free root name clashes exactly when two rows of the batch had one name in one folder |
| `FileCatalogs.BatchCanComeBack` | backend/src/modules/files/file-node-versions.repository.ts:131-156 | In a tree in order the rows selected by equal timestamp form a batch as the restoration of names needs it |
| `FileCatalogs.OneArchivingHasNoTwins` | backend/src/modules/files/file-node-versions.repository.ts:89-112 | Rows archived by one archiving never clash with each other when they come back |
| `FileCatalogs.TreeCanBeCopied` | backend/src/modules/files/file-node-hierarchy-write.ts:74-115 | In a tree in order the locked walk collects rows as the copying of names needs them |
| `FileCatalogs.CopyClashesOnlyAtRoot` | backend/src/modules/files/file-nodes.repository.ts:383-430 | A copy clashes exactly when the name of the new root is taken at the target |
| `FileCatalogs.FileCatalog.WriteRow` | backend/src/modules/files/file-upload-completion-write.ts:325-349 | A statement is refused exactly when it would break the unique index |
| `FileCatalogs.FileCatalog.Commit` | backend/src/modules/files/file-node-versions.repository.ts:171-203 | A transaction commits exactly when none of its statements is refused, and otherwise changes nothing |
| `FileCatalogs.FileCatalog.CreateFolder` | backend/src/modules/files/file-nodes.repository.ts:156-200 | A folder is created, with its columns and coherent keys, exactly unless its name is taken there or a personal owner is missing |
| `FileCatalogs.FileCatalog.UpdateNodeIdentity` | backend/src/modules/files/file-nodes.repository.ts:902-961 | A rename or move of an active row commits exactly when the new name is free at the new place; nothing but name, parent and keys changes |
| `FileCatalogs.FileCatalog.UploadRenamed` | backend/src/modules/files/file-upload-completion-write.ts:175-224 | An upload that may rename takes the name asked for if it is free and else the least number that is; it never clashes and succeeds with fewer siblings than candidates |
| `FileCatalogs.FileCatalog.UploadReplaced` | backend/src/modules/files/file-upload-completion-write.ts:85-174 | Exactly the expected target is replaced; its place in the index does not change, so it never clashes |
| `FileCatalogs.FileCatalog.ArchiveTree` | backend/src/modules/files/file-node-versions.repository.ts:89-112 | Archiving always commits and keeps names, owners and coherent keys; what is in the trash keeps its time and place |
| `FileCatalogs.FileCatalog.RestoreTree` | backend/src/modules/files/file-node-versions.repository.ts:158-203 | A restoration takes the free root name that the search finds, commits exactly when the batch holds no twins, and brings the rows back with their names, owners and contents |
| `FileCatalogs.FileCatalog.CopyTree` | backend/src/modules/files/file-nodes.repository.ts:383-430 | A copy commits exactly when the name of its root is free at the target; each new row has contents, owner and, below the root, name of its original |
| `ShareTrees.AssertTreeAcyclic` | backend/src/modules/shares/share-content.service.ts:722-739 | The check with its memo accepts exactly the parent relations without a cycle |
| `ShareTrees.LoadActiveTree` | backend/src/modules/shares/share-content.service.ts:670-720 | The work list ends; it holds exactly the roots and, within their workspace, space and owner, the active children of the folders found; it is refused exactly for mixed scopes or a cycle |
| `ShareScopes.CollectDescendants` | backend/src/modules/shares/share-content.service.ts:741-759 | The depth-first listing holds each node strictly below the root once |
| `ShareScopes.IsDescendant` | backend/src/modules/shares/share-content.service.ts:822-836 | Answers exactly whether the root is a proper ancestor, also in the presence of cycles |
| `ShareScopes.RemoveCoveredSelections` | backend/src/modules/shares/share-content.service.ts:761-790 | Refuses exactly when a selection is not below the root; keeps exactly the selections without a selected folder above them |
| `ShareScopes.KeptIsAntichain` | backend/src/modules/shares/share-content.service.ts:775-789 | No kept selection lies below another |
| `ShareScopes.KeptHasSameClosure` | backend/src/modules/shares/share-content.service.ts:775-789 | Kept and given selections have the same nodes at or below them |
| `ShareScopes.GetAncestorsWithinRoot` | backend/src/modules/shares/share-content.service.ts:792-820 | Lists exactly the proper ancestors below the root; refuses exactly a node that is not below it |
| `ShareScopes.SetRoles` | backend/src/modules/shares/share-content.service.ts:912-921 | A role is replaced by a higher one only |
| `ShareScopes.ResolveSelectedScope` | backend/src/modules/shares/share-content.service.ts:201-231 | The role of each node is a function of the set of kept selections: root, selected, navigation, descendant, or none |
| `ShareScopes.RolesDoNotCompete` | backend/src/modules/shares/share-content.service.ts:912-921 | No node has two reasons for different roles, so the order of selections cannot matter |
| `ShareScopes.RolesAreClosed` | backend/src/modules/shares/share-content.service.ts:220-231 | The parent of each node with a role has a role, up to the root |
| `ShareScopes.SharedIsClosure` | backend/src/modules/shares/share-content.service.ts:213-230 | Selected and descendant nodes together are what lies at or below the given selections |
| `ShareScopes.ResolveFolderCreateScope` | backend/src/modules/shares/share-content.service.ts:179-245 | Accepts exactly acyclic folders with, if needed, selections below them, and assigns those roles |
| `ShareScopes.TopItemsSuffice` | backend/src/modules/shares/share-content.service.ts:260-268 | Items that a requested folder covers can go: the closure stays, and none of the rest lies below another |
| `ShareScopes.ResolveItemScope` | backend/src/modules/shares/share-content.service.ts:247-278 | The top items are roots, everything below them is a descendant, and nothing else has a role |
| `ShareScopes.IsWithinDynamicFolder` | backend/src/modules/shares/share-content.service.ts:609-643 | Answers exactly whether the climb over existing active rows comes to the root under the scope checks |
| `ShareScopes.UpwardAgreesWithDownward` | backend/src/modules/shares/share-content.service.ts:437-469 | For files housed with their owner, the upward check accepts an active node exactly when the downward listing contains it |
| `DownloadIntents.ClaimThenCommit` | backend/src/modules/shares/share-download-commit.repository.ts:87-108 | A usable row claimed as it was read commits with the new token exactly until its deadline, with no other token, and never twice; the use is counted within the limit |
| `DownloadIntents.LeaseHidesRow` | backend/src/modules/shares/share-download-intent.repository.ts:88-122 | A claimed row is found again exactly after 30 seconds; whoever takes it over makes the first token commit and clear nothing any more |
| `DownloadIntents.ReleaseUndoesClaim` | backend/src/modules/shares/share-download-intent.repository.ts:139-161 | Releasing or failing a claim leaves the row as before the claim but for an abandoned claim, the failure and the time of change; it can be claimed again exactly until its deadline |
| `DownloadIntents.FinalReports` | backend/src/modules/shares/share-download-intent.mapper.ts:31-72 | After later changes at any clocks, completed is still reported; expired is still reported unless commits have used the intent up |
| `DownloadIntents.ReportedIs` | backend/src/modules/shares/share-download-intent.mapper.ts:31-72 | What is reported of a row, case by case |
| `ShareVisits.CommitsIff` | backend/src/modules/shares/share-download-commit.repository.ts:45-140 | A commit happens exactly for a live share, a matching visitor, a claim of this token in time and a use that is left: 1 for a download, 64 for a preview; it gives the claim back, counts the use and notes a started download |
| `ShareVisits.ClaimsIff` | backend/src/modules/shares/share-download-intent.repository.ts:88-122 | A claim succeeds exactly for a usable row that nobody has changed since it was read, and takes it under a new token |
| `ShareVisits.ClearsIff` | backend/src/modules/shares/share-download-intent.repository.ts:139-161 | A claim is released or failed exactly in its own name, before the deadline and before anything is consumed |
| `ShareVisits.PreviewsReachLimit` | backend/src/modules/shares/share-download-commit.repository.ts:87-108 | Every number of commits up to 64 of one preview intent happens in a run from the start, and the intent is reported completed after the 64th and not before |
| `ShareVisits.DownloadsReachLimit` | backend/src/modules/shares/share-download-commit.repository.ts:75-140 | Every number of started downloads up to the limit of the share happens in a run from the start, and any number without a limit |
| `ShareDownloads.DownloadsStayBelowLimit` | backend/src/modules/shares/share-download-commit.repository.ts:75-140 | In every run no more download_started events exist than the share allows |
| `ShareDownloads.IntentsCommitWithinLimit` | backend/src/modules/shares/share-download-commit.repository.ts:87-108 | A download intent commits once at most and a preview intent 64 times at most, pruned rows included |
| `ShareDownloads.ClaimCommitsAtMostOnce` | backend/src/modules/shares/share-download-commit.repository.ts:89-108 | No claim token pays for two commits |
| `ShareDownloads.NothingCommitsAfterRevocation` | backend/src/modules/shares/share-download-commit.repository.ts:52-62 | After a revocation no commit happens, whoever holds a claim |
| `ShareDownloads.CommitsAreInTime` | backend/src/modules/shares/share-download-commit.repository.ts:63-66 | Every commit in the log was made before the deadline of the share |
| `ShareDownloads.NothingCommitsAfterExpiry` | backend/src/modules/shares/share-download-commit.repository.ts:63-66 | Steps whose clocks lie after the deadline of the share commit nothing |
| `ShareDownloads.LeaseExcludesOthers` | backend/src/modules/shares/share-download-intent.repository.ts:168-179 | A claim younger than 30 seconds is ended only in the name of its token or together with its row |
| `ShareDownloads.LeaseHolds` | backend/src/modules/shares/share-download-intent.repository.ts:168-179 | Over a whole run within the lease and without the token the claimed row stays as it is, for as long as it exists |
| `ShareDownloads.LostTokenIsInert` | backend/src/modules/shares/share-download-commit.repository.ts:87-108 | A token that was given back, used up or taken over commits nothing in any continuation |
| `ShareDownloads.PruningHidesNothing` | backend/src/modules/shares/share-download-intent.repository.ts:132-137 | With prunings that are not ahead of later clocks, a run makes the same commits, downloads and tokens as the run without them, and the rows left are the same |
| `ShareDownloads.CompletedIffUsedUp` | backend/src/modules/shares/share-download-intent.mapper.ts:31-72 | An intent is reported completed exactly when its commits in the log have used it up, at any clock |
| `ShareDownloads.CompletedIsFinal` | backend/src/modules/shares/share-download-intent.mapper.ts:42-58 | Completed is reported by any clock after any continuation |
| `ShareDownloads.ExpiryIsTakenBackIff` | backend/src/modules/shares/share-download-commit.repository.ts:51-108 | A reported expiry turns into a completion exactly when later steps commit what is left of the uses, each with a reading before the deadline; otherwise it stays |
| `ShareDownloads.ExpiredIsFinal` | backend/src/modules/shares/share-download-intent.mapper.ts:42-58 | Expired is final where no later commit of the intent carries a reading from before its deadline |
| `ShareDownloads.ExpiryIsTakenBack` | backend/src/modules/shares/share-download-commit.repository.ts:51-108 | A run from the start that turns a reported expiry into a completion |
| `RateLimits.LockedForIsLeast` | backend/src/modules/shares/share-rate-limit.repository.ts:149-167 | The answer is positive exactly while the lock holds, and is the least number of seconds that outlasts it |
| `RateLimits.WaitingIsEnough` | backend/src/modules/shares/share-rate-limit.repository.ts:211-224 | Waiting as told outlasts the window exactly when the window does not end after a whole positive number of seconds |
| `RateLimits.AloneIs` | backend/src/modules/shares/share-rate-limit.repository.ts:26-89 | A caller alone is refused exactly when the window, its last millisecond included, holds the limit already, with the least whole number of seconds that reaches its end; otherwise the bucket counts it or starts anew |
| `RateLimits.BucketStore.Consume` | backend/src/modules/shares/share-rate-limit.repository.ts:26-89 | With others between any two statements the answer is what the last statement decides by itself and no earlier one decided anything; exhausted attempts never admit; alone, the first attempt decides |
| `RateLimits.BucketStore.Increment` | backend/src/modules/shares/share-rate-limit.repository.ts:91-133 | A failure is counted by the last statement alone, or the attempts are used up; alone, it continues or starts the window |
| `RateLimits.BucketStore.ActivateLock` | backend/src/modules/shares/share-rate-limit.repository.ts:135-167 | From now on the lock is reported exactly until its duration has passed |
| `RateLimitRuns.CountIsAdmitted` | backend/src/modules/shares/share-rate-limit.repository.ts:36-78 | Under any interleaving and any clocks the count is the number of callers admitted since the last reset or creation, at most the limit |
| `RateLimitRuns.SpanAdmitsAtMost` | backend/src/modules/shares/share-rate-limit.repository.ts:36-78 | In any interleaving of callers whose readings are at most `delay` old, with buckets retained for the window and twice the delay (once for a limit of one), the admissions that take effect within any span of time are at most `MostInSpan`: about one limit per window in the span and the delay, and one more |
| `RateLimitRuns.MostIsReached` | backend/src/modules/shares/share-rate-limit.repository.ts:36-78 | For every limit, window, span and delay a run reaches exactly that number |
| `RateLimitRuns.UndelayedSpan` | backend/src/modules/shares/share-rate-limit.repository.ts:36-78 | Without delay a span of one window admits at most twice the limit less one |
| `RateLimitRuns.SpanAdmitsWithPruning` | backend/src/modules/shares/share-rate-limit.repository.ts:180-188 | With a shorter retention, but of at least the delay, any span still has a bound |
| `RateLimitRuns.EarlyPruningExceeds` | backend/src/modules/shares/share-rate-limit.repository.ts:180-188 | For every limit, window, delay and shorter retention some run exceeds `MostInSpan` |
| `RateLimitRuns.NoBoundBeyondRetention` | backend/src/modules/shares/share-rate-limit.repository.ts:180-188 | With a retention shorter than the delay any number of callers can be admitted in one moment |
| `RateLimitPruning.PruningIsInvisible` | backend/src/modules/shares/share-rate-limit.repository.ts:26-188 | With prunings between any statements of any callers, every answer that a statement decides is the one its call would have got if the calls had run one after another and nothing had been pruned |
| `RateLimitPruning.PruningIsInvisibleForOne` | backend/src/modules/shares/share-rate-limit.repository.ts:26-188 | For a limit of one the same with a retention of window and delay |
| `RateLimitPruning.EarlyPruningShows` | backend/src/modules/shares/share-rate-limit.repository.ts:180-188 | For every limit and every retention below window and twice the delay (once for a limit of one), a run in which pruning changes an answer |
| `RateLimitPruning.RetainsForHalfAnHour` | backend/src/modules/shares/share-abuse-protection.service.ts:464-477 | The configured retention is long enough for callers who are done within half an hour of their reading |
| `AuditScan.KeysetIsOrder` | backend/src/modules/logs/audit.service.ts:406-458 | For every column and direction the keyset condition selects exactly the rows later in the order |
| `AuditScan.OrderIsTotal` | backend/src/modules/logs/audit.service.ts:406-420 | The order is a strict total order on rows with different ids |
| `AuditScan.FilterCommutesWithSort` | backend/src/modules/logs/audit.service.ts:61-67 | Filtering before sorting and after it come to the same |
| `AuditScan.QueryIsNextBatch` | backend/src/modules/logs/audit.service.ts:61-67 | The rows behind the cursor are the next stretch of the sorted listing |
| `AuditScan.ListEvents` | backend/src/modules/logs/audit.service.ts:37-95 | For every batch size the scan ends, and its page, totals and facets are cut, at the offset and limit asked for and bounded, from the list of exactly the matching rows, each once, in which neighbours rise or fall in the column named and ties go newest first |

## Left out

- Database engines: SQL dialects, error shapes, retries, deadlocks and liveness. A statement reads the latest committed
  rows; snapshots that a mixed isolation level could show are not modelled. A transaction that fails has no effect.
- `updatedAt` and other columns that no guard reads, audit payloads and integrity columns, except where a guard uses them.
- Steps of the transfers service that change only the transfer row; the agreement of both rows covers the session stores.
- Entry points that the services never reach: `updateStatus` on sessions, the unguarded `upsert` of parts, the `archived`
  flag of `updateState`, and `persistNode` of the completion store.
- Creation of upload sessions, progress of a session, and the choice of a conflict strategy.
- `TreeTransactions.NothingActiveBelowArchived`: in the runs every statement reads the latest committed rows. The transactions
  of moves and copies name no isolation level and the others are serializable, so a database may let an archiving or deletion
  count children in an older snapshot beside them. What one such write does, and when it does no harm, is
  `FileTrees.ArchivedOnOldSnapshot` and `FileTrees.RemovedOnOldSnapshot`; whole runs of that kind are not modelled.
- TreeTransactions: rows of versions and integrity anomalies, which a deletion checks as well, have no part in the tree.
- `RateLimits.BucketStore.Consume`: the refusal of a caller whose eight attempts are exhausted looks at the window only, and is
  not one of the answers that `RateLimitPruning` compares.
- `UploadSessionStores.UploadSessionStore.PersistNode`: the file row that the same transaction writes is in `FileCatalog`.
- Deleting a user clears the owner of its files in the database without renewing their keys; coherence of keys is shown
  for the operations on files.
- NameKeys: the prefixes of the name key are constructors, and an empty directory key is an absent one.
- FileNames: strings are sequences of valid code points, lower-casing maps one code point to one and leaves digits,
  brackets, blanks and dots alone, and composition of characters (NFC) is not modelled.
- ShareTrees: the rows do not change while a tree is loaded, so the load's guards against listings that contradict each
  other never fire.
- ShareScopes: roles of shares in the legacy format, snapshots and availability of members.
- Runs over the table of file download intents: `DownloadIntents` holds the steps, `ShareDownloads` runs them for shares.
- Visitor fingerprints are a yes or no answer.
- Overview metrics, filters and search values of the audit service are arbitrary predicates here.
- Object storage beyond "this object is stored", streams, multipart transfers, hashing, tokens, mail, controllers and the
  frontend.
