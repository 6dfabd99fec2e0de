# Revisioned text in fresh-gui, verified

A Dafny model of how fresh-gui keeps text consistent between its client, its daemon and the
disk, with proofs of what the design promises. `dafny verify dfyconfig.toml` checks all of it.

- **Text.** `Utf8` models text as bytes with a validity predicate (section 3 of RFC 3629) and
  the one-byte boundary test. `Edits` has sequential range edits, the collapse of an edited text
  into one replacement, and the diff; both ends compute the same one. `Pages` and `LspPosition`
  prove that windowed and chunked code equals the whole-document definition. UTF-16 widths are
  those of section 2.1 of RFC 2781, positions those of LSP 3.17.
- **Protocol.** `EditSync` is the client's draft tracker, `TextBuffer` the daemon buffer, and
  `EditProtocol` runs any number of clients against it with lost messages, reconnects and other
  writers. A history from revision to text, for one daemon lifetime, says what was agreed.
- **Large files.** `PagedEdits` applies transactions to one page and keeps a journal that can be
  replayed; `PatchedWrite` streams a save.
- **Disk.** `SaveAuthority` interleaves a buffer with other writers of its files. `DraftStore`
  lets a crash or failure strike at every file operation of a checkpoint.
- **Commands.** `WorkerCommands` says what the editing commands of the worker do to a buffer and
  `WorkerAnswers` what a client can count on; `JournalReplay` has what a replay does to any
  document, `DraftRestore` how a buffer becomes a draft and a draft a buffer. In `DraftLifecycle`
  the worker runs the commands with their checkpoints, and every dirty buffer keeps a draft that
  brings back what it shows. `DraftExamples` has worlds in which a restore fails.
- **Requests and search.** `LspBridge` has the language-server bookkeeping, `SearchReview`,
  `ProjectSession` and `ProjectScan` search and replace, `UniqueLines` the line deduplication.

Classes carry the fields the program updates in place. Where many methods update the same
state, a datatype holds its value, functions say what each step does to it, methods are proved
against them, and lemmas state what every step and every run keeps.

## What the proofs found

- A forgotten notice: when a draft was restored over a changed source, the file counts as known
  and only the pending notice guards it. A refused Save As for another file replaces that notice,
  and the next plain Save then overwrites the changed source (`SaveAuthority.ForgottenNotice`;
  the exact condition is `SaveAuthority.SaveJustified`).
- Removing duplicate lines at an unterminated end of text can lose an empty line, as in turning
  "a\n\na" into "a\n" (`UniqueLines.FinalEmptyLineLost`, exact condition in
  `UniqueLines.SurvivorsComplete`). Lines are meant with their terminators, as the code divides
  them; an editor still shows an empty line after the last terminator.
- A stale `.json.bak` beside a live draft file can bring an old draft back
  (`DraftStore.BackupResurrects`). When deleting a backup fails the error is dropped; contracts
  of `DraftStore` name that outcome `swallowed`.
- A paged file that is opened before its draft is restored hides the draft: the restore returns
  the unedited buffer (`DraftExamples.OpenedFirstHides`, exact condition in
  `DraftLifecycle.RestoreShows`).
- Restoring a paged draft onto a buffer with other edits stacks the two journals
  (`DraftExamples.StackedJournals`; `DraftRestore.RestoringExact` says when that is harmless).
- Two buffers can come to share a draft id, and then each checkpoint replaces the draft of the
  other: by restoring a draft without a file twice (`DraftLifecycle.RestoredTwice`), or by
  opening a file again after it was saved under another name
  (`DraftLifecycle.ReopenedAfterSaveAs`).
- An edited paged buffer whose file was last saved within the limit does not come back after a
  crash, because the file then opens as an ordinary one (`DraftExamples.ShrunkIsLost`, exact
  condition in `DraftLifecycle.CrashRestores`).
- Growing a text over the limit by an on-save action or a formatter makes later drafts empty or
  stale, even after an undo (`DraftRestore.SavedTooLong`, `DraftRestore.GrownStaysStale`).
- Discarding a draft whose buffer then fails to close leaves a dirty buffer without draft
  (`DraftLifecycle.Worker.DiscardDraft`).
- A language-server request with bad parameters is answered once per server and once more
  (`LspBridge.LspBridge.Begin`).

## Model

| member | source | states |
|---|---|---|
| `Utf8.BoundaryIffSplit` | crates/fresh-gui/src/editor_worker.rs:3220-3224 | the one-byte boundary test of an offset holds exactly when both halves of a valid text are valid UTF-8 |
| `Utf8.FloorNear` | crates/fresh-gui/src/editor_worker.rs:3123-3142 | in valid text the boundary at or below an offset is at most three bytes away |
| `Utf8.CutText` | crates/fresh-gui/src/editor_worker.rs:1547-1569 | cutting valid text anywhere leaves whole characters followed by at most one incomplete, well-formed one |
| `Utf8.TruncatedCompletes` | crates/fresh-gui/src/editor_worker.rs:1550-1557 | bytes the decoder calls incomplete are exactly those that more bytes could complete to a character |
| `Edits.LimitOnlyRefuses` | crates/fresh-gui/src/editor_worker.rs:3219-3236 | the 2 MiB limit can only refuse: an accepted list of edits gives the result of applying them one after another |
| `Edits.AcceptedExactly` | crates/fresh-gui/src/editor_worker.rs:3219-3236 | a list of edits is accepted exactly when each in turn fits the text the ones before it left and leaves it within the limit |
| `Edits.SuffixLockstep` | crates/fresh-gui-client/src/edit_sync.rs:241-255 | over a common tail an offset is a boundary of one text exactly when it is a boundary of the other |
| `Edits.Collapse` | crates/fresh-gui/src/editor_worker.rs:3245-3279 | the daemon finds the longest common boundary-aligned prefix and then the longest such suffix |
| `Edits.CollapsedUnique` | crates/fresh-gui/src/editor_worker.rs:3245-3279 | two texts have only one such pair of common ends |
| `Edits.DiffRebuilds` | crates/fresh-gui-client/src/edit_sync.rs:229-261 | the client diff of two valid texts is one edit that fits the old text and gives exactly the new one, unless over the limit |
| `Edits.DiffUnique` | crates/fresh-gui-client/src/edit_sync.rs:229-261 | there is only one such diff |
| `Edits.EventsSplice` | crates/fresh-gui/src/editor_worker.rs:3280-3293 | one delete and one insert have the effect of the replacement they stand for |
| `EditSync.ContiguousDiff` | crates/fresh-gui-client/src/edit_sync.rs:229-261 | the client computes the diff whose ends are those of the daemon collapse; it is empty exactly for equal texts |
| `EditSync.CeilsMeet` | crates/fresh-gui-client/src/edit_sync.rs:250-255 | moving the two raw ends up to a boundary of their own text keeps them equally far from the end |
| `TextBuffer.NetEvents` | crates/fresh-gui/src/editor_worker.rs:3245-3293 | the two events sent to Fresh turn the old text into the sequentially edited one, and name the very replacement the client diff names |
| `TextBuffer.ApplyAll` | crates/fresh-gui/src/editor_worker.rs:3219-3236 | all edits are validated on a copy: accepted exactly when each fits the result of the ones before and stays within the limit |
| `TextBuffer.ServedExactly` | crates/fresh-gui/src/editor_worker.rs:3203-3241 | a request is stale exactly under another revision; of the others exactly those are applied whose edits fit in turn and whose selection fits the result |
| `EditSync.EditSync.FromInitialSnapshot` | crates/fresh-gui-client/src/edit_sync.rs:84-97 | the first snapshot is adopted unless the user typed something else before it came |
| `EditSync.EditSync.BeginEdit` | crates/fresh-gui-client/src/edit_sync.rs:115-125 | a request is made exactly when nothing is in flight, no conflict is pending and the draft differs; it carries the diff from the acknowledged text |
| `EditSync.EditSync.Finish` | crates/fresh-gui-client/src/edit_sync.rs:127-143 | an acceptance replaces the base, a rejection keeps base and draft and records the conflict |
| `EditSync.EditSync.ResolveConflict` | crates/fresh-gui-client/src/edit_sync.rs:148-154 | the base becomes the text and revision of the conflict |
| `EditSync.EditSync.ReconcileSnapshot` | crates/fresh-gui-client/src/edit_sync.rs:159-198 | which of Adopted, KeepDraft and Conflict a reconnect gives, with the complete new state |
| `EditSync.EditSync.ReconcileProtectedSnapshot` | crates/fresh-gui-client/src/edit_sync.rs:204-226 | an unsaved daemon text that is neither base, draft nor in flight is a conflict that keeps the base and drops what was in flight; otherwise as an ordinary reconciliation |
| `TextBuffer.TextBuffer.SyncFreshText` | crates/fresh-gui/src/editor_worker.rs:4079-4122 | a change Fresh made on its own gets a revision of its own |
| `TextBuffer.TextBuffer.RangeEdit` | crates/fresh-gui/src/editor_worker.rs:3172-3320 | compare-and-swap on the revision: stale and refused requests change nothing, an accepted one leaves the sequentially edited text and one new revision if it changed |
| `EditProtocol.StepInv` | crates/fresh-gui/src/editor_worker.rs:3203-3319 | every step of any client, the connection or another writer keeps the protocol invariant |
| `EditProtocol.RunInv` | crates/fresh-gui-client/src/edit_sync.rs:115-226 | so does every run |
| `EditProtocol.RunAppends` | crates/fresh-gui-client/src/edit_sync.rs:115-226 | a run goes on step by step, and every step possible in it is one of the run |
| `EditProtocol.ReachableOn` | crates/fresh-gui-client/src/edit_sync.rs:115-226 | so reachable states are closed under every possible step |
| `EditProtocol.AcknowledgedInHistory` | crates/fresh-gui-client/src/edit_sync.rs:115-198 | in every reachable state a client without conflict has a revision and text the buffer really held together |
| `EditProtocol.AcceptedIsTheDraft` | crates/fresh-gui/src/editor_worker.rs:3203-3319 | a request is accepted exactly when made from the current revision within the limit, and then the buffer holds the draft it was made from |
| `EditProtocol.AdoptionLosesNothing` | crates/fresh-gui-client/src/edit_sync.rs:159-198 | an Adopted reconciliation discards only a draft equal to the snapshot, to the last acknowledged text, or empty before a first snapshot |
| `EditProtocol.DraftKept` | crates/fresh-gui-client/src/edit_sync.rs:84-226 | a draft changes only by typing, by adoption, or by choosing the text of the server |
| `EditProtocol.ProtectedConflict` | crates/fresh-gui-client/src/edit_sync.rs:204-224 | an unsaved daemon text that a synced client has not seen is a conflict even under an unchanged draft: draft and base stay, nothing is in flight, both texts are in the conflict |
| `EditProtocol.ProtectedElse` | crates/fresh-gui-client/src/edit_sync.rs:204-226 | in every other case the guard changes nothing |
| `EditProtocol.Reconnects` | crates/fresh-gui-client/src/edit_sync.rs:159-198 | what an ordinary snapshot makes of every field of a synced client |
| `EditProtocol.FirstSnapshot` | crates/fresh-gui-client/src/edit_sync.rs:84-97 | text typed before the first snapshot is never replaced |
| `EditProtocol.ReplyTaken` | crates/fresh-gui-client/src/edit_sync.rs:127-143 | an acceptance is the new base, a rejection keeps the base and shows both texts; neither touches the draft |
| `EditProtocol.ConflictResolved` | crates/fresh-gui-client/src/edit_sync.rs:148-154 | either resolution takes the text of the conflict as base; only choosing it gives up the draft |
| `EditProtocol.ConflictPersists` | crates/fresh-gui-client/src/edit_sync.rs:115-154 | under a conflict nothing is sent; it ends by resolution, by a later reconciliation, or by a late acceptance |
| `EditProtocol.ConflictBlocks` | crates/fresh-gui-client/src/edit_sync.rs:115-154 | in every run in which none of these happens, the conflict stays and the client sends nothing |
| `EditProtocol.ExchangeProgress` | crates/fresh-gui-client/src/edit_sync.rs:115-142 | while the texts differ some step of the send and acknowledge exchange is possible |
| `EditProtocol.ExchangeConverges` | crates/fresh-gui-client/src/edit_sync.rs:115-142 | with typing stopped and no loss every run of the exchange takes at most five steps and two acceptances and can only end with acknowledged text, buffer and draft equal |
| `Pages.PageIsSlice` | crates/fresh-gui/src/editor_worker.rs:3112-3162 | a page is an exact run of whole characters within 64 KiB: from the last boundary at or before its start to the first one at or past its wanted end, or the last in the limit |
| `Pages.PageExists` | crates/fresh-gui/src/editor_worker.rs:3086-3115 | which pages there are |
| `Pages.ReadPage` | crates/fresh-gui/src/editor_worker.rs:3046-3163 | loading a small window with three bytes of margin and cutting it gives the page defined on the whole document, errors included |
| `Pages.PageInWindow` | crates/fresh-gui/src/editor_worker.rs:3139-3154 | floor and ceiling boundaries computed inside the window are those of the document |
| `Pages.LoadAligned` | crates/fresh-gui/src/editor_worker.rs:3116-3138 | a raw window of a valid document decodes, after trimming, to the aligned slice |
| `Pages.WalkIsDocument` | crates/fresh-gui/src/editor_worker.rs:3112-3162 | walking pages of any length terminates, every page is non-empty and bounded, and together they are the document |
| `PagedEdits.TransactIsSequential` | crates/fresh-gui/src/editor_worker.rs:3382-3535 | an accepted paged transaction gives the document that its edits give one after another on the whole document |
| `PagedEdits.TransactAccepts` | crates/fresh-gui/src/editor_worker.rs:3323-3470 | a transaction is accepted exactly when its page is readable, its budgets hold, each edit fits the document the ones before it left and stays in the viewport and page, whose ends move with the text, and the selection stays in the page |
| `PagedEdits.ViewAccepts` | crates/fresh-gui/src/editor_worker.rs:3402-3435 | the loop over the loaded page lets exactly these edits through |
| `PagedEdits.Budgets` | crates/fresh-gui/src/editor_worker.rs:3370-3400 | cost is 32 bytes an edit and the inserted text, and what is inserted less what is deleted is the growth |
| `PagedEdits.ViewIsSequential` | crates/fresh-gui/src/editor_worker.rs:3402-3435 | edits applied to the loaded page alone are the sequential edits of the document around it |
| `PagedEdits.ReplayAccepts` | crates/fresh-gui/src/editor_worker.rs:2807-2845 | whether a transaction is accepted does not depend on the caret, so a replay from the page start accepts it too |
| `PagedEdits.ReplaysSnoc` | crates/fresh-gui/src/editor_worker.rs:3514-3524 | appending an accepted transaction keeps the journal replayable to the new document |
| `PagedEdits.PagedBuffer.RecoveryReproduces` | crates/fresh-gui/src/editor_worker.rs:2807-2845 | in every state replaying the journal from the source is accepted step by step and gives the buffer back |
| `PagedEdits.PagedBuffer.constructor` | crates/fresh-gui/src/editor_worker.rs:2650-2690 | a paged buffer starts with an empty journal over its source |
| `PagedEdits.PagedBuffer.Read` | crates/fresh-gui/src/editor_worker.rs:3053-3066 | a page is served exactly when the source file is unchanged and the page exists |
| `PagedEdits.PagedBuffer.RangeEdit` | crates/fresh-gui/src/editor_worker.rs:3323-3535 | answered exactly for an intact source and, from the current revision, an acceptable transaction; refused, nothing changes; accepted, the document is the sequential result and the journal grows by it; the page returned is one of the document |
| `PagedEdits.PagedBuffer.Saved` | crates/fresh-gui/src/editor_worker.rs:4875-4884 | a save makes the buffer its own source with an empty journal |
| `LspPosition.LspPositionToByte` | crates/fresh-gui/src/editor_worker.rs:1465-1580 | for every split of a document into leaves and chunks, also inside characters, the carrying scanner gives the offset of the whole-document scan; an error means the document is not UTF-8 |
| `LspPosition.ScanChunk` | crates/fresh-gui/src/editor_worker.rs:1547-1576 | one chunk keeps the carry, line and column in step with the whole document |
| `LspPosition.PositionMeaning` | crates/fresh-gui/src/editor_worker.rs:1465-1580 | the scan finds the first boundary of the wanted line at or past the wanted column, the end of a shorter line, or the end of a shorter document |
| `LspPosition.Utf16ColumnToByte` | crates/fresh-gui-client/src/edit_sync.rs:263-275 | a UTF-16 column of a line gives a byte offset or none |
| `LspPosition.ColumnsRoundTrip` | crates/fresh-gui-client/src/edit_sync.rs:263-283 | column to byte and byte to column are inverse on boundaries, and neither gives anything else |
| `LspPosition.ScanAgreesWithClient` | crates/fresh-gui/src/editor_worker.rs:1465-1580 | the daemon scan and the client conversion agree on every column that names a boundary |
| `LspBridge.LspBridge.Begin` | crates/fresh-gui/src/editor_worker.rs:1647-1936 | a new request is either entered with as many awaited servers as took it or answered at once, how often and with what exactly; the live request in its slot, and no other, is told once that it is superseded |
| `LspBridge.LspBridge.Settle` | crates/fresh-gui/src/editor_worker.rs:1690-1936 | each check in turn, with what it reports |
| `LspBridge.LspBridge.Dispatch` | crates/fresh-gui/src/editor_worker.rs:1842-1936 | queued at one server at least and with good parameters the request is live, else it is answered once, or once per server and once more when its parameters are bad |
| `LspBridge.Queue` | crates/fresh-gui/src/editor_worker.rs:1842-1912 | which server requests become pending, under which ids, and one problem report per server when the parameters are bad |
| `LspBridge.LspBridge.Supersede` | crates/fresh-gui/src/editor_worker.rs:1662-1689 | at most one live request holds the slot; it is cancelled and answered once |
| `LspBridge.LspBridge.Cancel` | crates/fresh-gui/src/editor_worker.rs:2095-2132 | only a request of the named buffer and view is dropped, with its own pending server requests |
| `LspBridge.LspBridge.Answer` | crates/fresh-gui/src/editor_worker.rs:2186-2300 | a server answer keeps the invariant and never revives a request |
| `LspBridge.AnswerCloses` | crates/fresh-gui/src/editor_worker.rs:2206-2300 | the last awaited answer, or one after an edit, ends the request with one result: stale and empty after an edit, else everything gathered and the first error |
| `LspBridge.AnswerContinues` | crates/fresh-gui/src/editor_worker.rs:2206-2300 | an answer that is not the last adds its value behind the earlier ones, or keeps the first error, waits for one less and touches no other request |
| `LspBridge.GatherAll` | crates/fresh-gui/src/editor_worker.rs:2206-2300 | over any inbox: while the buffer keeps its revision a request ends with the last of its servers, in one result with every value in order of arrival and the first error |
| `LspBridge.LspBridge.Drain` | crates/fresh-gui/src/editor_worker.rs:2134-2200 | the inbox is taken answer by answer |
| `LspBridge.AnswerInv` | crates/fresh-gui/src/editor_worker.rs:2186-2300 | every answer keeps the maps consistent |
| `LspBridge.ExpireInv` | crates/fresh-gui/src/editor_worker.rs:2421-2463 | an expired request is removed with its server requests and answered by one result: what was gathered, or stale and empty after an edit |
| `LspBridge.LspBridge.Expire` | crates/fresh-gui/src/editor_worker.rs:2421-2463 | exactly the requests past their deadline end, each answered once |
| `LspBridge.LspBridge.Poll` | crates/fresh-gui/src/editor_worker.rs:2134-2364 | no request outlives the first poll after its deadline |
| `LspBridge.RegisterInv` | crates/fresh-gui/src/editor_worker.rs:1919-1936 | entering a request keeps the maps consistent when its slot is free |
| `LspBridge.CancelInv` | crates/fresh-gui/src/editor_worker.rs:2095-2132 | a cancellation keeps the maps consistent and sends nothing |
| `LspBridge.LspBridge.CancelBuffer` | crates/fresh-gui/src/editor_worker.rs:2465-2494 | exactly the live requests of the closed buffer end, each answered once |
| `LspBridge.LspBridge.CancelAll` | crates/fresh-gui/src/editor_worker.rs:2496-2518 | every live request ends, each answered once |
| `LspBridge.LspBridge.CancelStale` | crates/fresh-gui/src/editor_worker.rs:2520-2563 | the requests left are those whose buffer still has the revision they were made for |
| `LspBridge.LspBridge.Withdraw` | crates/fresh-gui/src/editor_worker.rs:2465-2563 | a set of live requests is given up, each answered once and no other |
| `LspBridge.DropRequests` | crates/fresh-gui/src/editor_worker.rs:2112-2120 | which pending server requests go and which ones of another view are put back |
| `SaveAuthority.SaveJustified` | crates/fresh-gui/src/editor_worker.rs:4733-4770 | a save that succeeds replaces a missing file, the generation last loaded or saved without unresolved notice, or the one named by Overwrite, if and only if the notice about the own file was not forgotten |
| `SaveAuthority.CarefulSaves` | crates/fresh-gui/src/editor_worker.rs:4733-4770 | over every interleaving with other writers, a save that could succeed at any point is justified if and only if no step displaces a dirty notice that still guards the own file |
| `SaveAuthority.StepRemembers` | crates/fresh-gui/src/editor_worker.rs:4758-4770 | only such a step makes the buffer forget a notice |
| `SaveAuthority.DisplacedSaves` | crates/fresh-gui/src/editor_worker.rs:4733-4770 | and after it the very next plain Save goes ahead and is not justified |
| `SaveAuthority.RunInv` | crates/fresh-gui/src/editor_worker.rs:4410-4884 | what every run of polls, resolutions, saves, edits, restores and foreign writes keeps |
| `SaveAuthority.ForgottenNotice` | crates/fresh-gui/src/editor_worker.rs:4759-4769 | a restored draft with changed source, a refused Save As, then Save: the changed source is replaced though its notice was never resolved |
| `SaveAuthority.PollReacts` | crates/fresh-gui/src/editor_worker.rs:4410-4529 | a poll never changes unsaved text and never passes over a changed file: the buffer is reloaded from it or remembers the change |
| `SaveAuthority.KeepRefuses` | crates/fresh-gui/src/editor_worker.rs:4579-4585 | after Keep the kept file cannot be saved over |
| `SaveAuthority.OverwriteIsExact` | crates/fresh-gui/src/editor_worker.rs:4586-4592 | after Overwrite the save succeeds on exactly the named generation, whatever other programs do meanwhile |
| `SaveAuthority.AuthoritySpent` | crates/fresh-gui/src/editor_worker.rs:4875-4892 | after a save only missing files and the generation it wrote can be saved over |
| `SaveAuthority.TrackedBuffer.Open` | crates/fresh-gui/src/editor_worker.rs:2565-2690 | a buffer opened on a file knows its generation and has no notice and no authority |
| `SaveAuthority.TrackedBuffer.PollExternalChanges` | crates/fresh-gui/src/editor_worker.rs:4410-4529 | a changed file reloads a clean buffer and warns a dirty one, paged ones included, once per generation |
| `SaveAuthority.TrackedBuffer.CheckResolution` | crates/fresh-gui/src/editor_worker.rs:4540-4597 | which resolutions are refused |
| `SaveAuthority.TrackedBuffer.ResolveExternal` | crates/fresh-gui/src/editor_worker.rs:4531-4645 | the complete effect of Keep, Overwrite and Reload |
| `SaveAuthority.TrackedBuffer.CheckSave` | crates/fresh-gui/src/editor_worker.rs:4656-4758 | when a save goes ahead, when it conflicts and when it cannot start |
| `SaveAuthority.TrackedBuffer.SaveBuffer` | crates/fresh-gui/src/editor_worker.rs:4647-4892 | a save succeeds exactly under the guard; a refused one only remembers the file it would have replaced |
| `SaveAuthority.TrackedBuffer.RestoreDraft` | crates/fresh-gui/src/editor_worker.rs:2859-2900 | a restored draft with changed source leaves a dirty notice and takes the current generation as known; the revision goes up when the text differs |
| `DraftStore.HexIdInjective` | crates/fresh-gui/src/drafts.rs:52-58 | hexadecimal names are injective |
| `DraftStore.PartitionsApart` | crates/fresh-gui/src/drafts.rs:82-97 | no two workspaces or partitions share a file |
| `DraftStore.NamedDraftsApart` | crates/fresh-gui/src/drafts.rs:69-75 | draft ids of named files are injective in workspace and path |
| `DraftStore.DraftStore.WritePartition` | crates/fresh-gui/src/drafts.rs:118-161 | after every file operation the partition is as before or holds exactly the new list, everything else unchanged |
| `DraftStore.DraftStore.RemoveFromPartition` | crates/fresh-gui/src/drafts.rs:180-199 | after every file operation the partition reads as before or without the draft |
| `DraftStore.DraftStore.Checkpoint` | crates/fresh-gui/src/drafts.rs:201-217 | a crash or failure at any file operation leaves the draft as before or as wanted and every other draft of every workspace unchanged; completed, it is in exactly one partition |
| `DraftStore.DraftStore.Discard` | crates/fresh-gui/src/drafts.rs:253-256 | the same for discarding; completed, the draft is gone, unless a lone backup could not be deleted and the error was dropped |
| `DraftStore.DraftStore.List` | crates/fresh-gui/src/drafts.rs:163-178 | the merged list gives for every id what `get` gives, paged drafts first |
| `DraftStore.WritingIsAtomic` | crates/fresh-gui/src/drafts.rs:201-216 | publishing the new list is all or nothing for readers, also when the other partition still has an old copy |
| `DraftStore.RemovingIsAtomic` | crates/fresh-gui/src/drafts.rs:180-217 | so is taking the other copy out |
| `DraftStore.RunHistory` | crates/fresh-gui/src/drafts.rs:99-256 | whatever script of checkpoints and discards runs from a store without backups, failing or cut off by a crash at any file operation, each draft reads as its last completed value or that of a later interrupted operation on it |
| `DraftStore.BackupResurrects` | crates/fresh-gui/src/drafts.rs:187-195 | with a backup beside the live file, a crash between the two deletions is harmless exactly if the backup repeats the deleted draft |
| `DraftStore.ProtectedPaths` | crates/fresh-gui/src/drafts.rs:225-243 | the path of every draft a client could get back is protected, and only paths of current records are; it fails exactly when one of these does not parse |
| `WorkerCommands.EditedInStep` | crates/fresh-gui/src/editor_worker.rs:2946-3006 | a full-text edit keeps fields and Fresh text in step; a refused one changes nothing unsaved |
| `WorkerCommands.RangedInStep` | crates/fresh-gui/src/editor_worker.rs:3172-3535 | so does a range edit, paged ones with journal included; a stale or refused one changes nothing unsaved |
| `WorkerCommands.SmartGuard` | crates/fresh-gui/src/editor_worker.rs:3683-3703 | the estimate that guards smart edits lets no text over the limit through and, unless events remove more than there was, refuses no other |
| `WorkerCommands.LineCountIs` | crates/fresh-gui/src/editor_worker.rs:3593-3596 | the lines counted for a comment toggle |
| `WorkerCommands.CommentGuard` | crates/fresh-gui/src/editor_worker.rs:3593-3610 | room for one prefix on every line is room for whatever comments each line at most once |
| `WorkerCommands.ActedInStep` | crates/fresh-gui/src/editor_worker.rs:3537-3712 | under these guards every action keeps fields and Fresh text in step, except exactly an undo or redo that goes back over the limit |
| `WorkerCommands.SyncedInStep` | crates/fresh-gui/src/editor_worker.rs:4079-4122 | a sync of a buffer in step only lowers the dirty flag |
| `WorkerCommands.FormattedInStep` | crates/fresh-gui/src/editor_worker.rs:4224-4333 | a formatter keeps the buffer in step exactly if its text is within the limit |
| `WorkerCommands.ControlledInStep` | crates/fresh-gui/src/editor_worker.rs:4969-5118 | recoding and reopening do under the same condition, inspecting always |
| `WorkerCommands.SavedInStep` | crates/fresh-gui/src/editor_worker.rs:4860-4892 | a save does exactly if the text after the on-save actions is within the limit, or unmodified and what the file holds |
| `WorkerCommands.PolledInStep` | crates/fresh-gui/src/editor_worker.rs:4410-4529 | a poll does exactly if no clean buffer is reloaded with a text over the limit |
| `WorkerCommands.ReloadedInStep` | crates/fresh-gui/src/editor_worker.rs:4593-4634 | a Reload does exactly if the file is within the limit |
| `WorkerAnswers.StaleRefused` | crates/fresh-gui/src/editor_worker.rs:2946-3618 | no edit, action, format, file control or save from another revision is accepted, and none changes text, revision or journal |
| `WorkerAnswers.EditAnswered` | crates/fresh-gui/src/editor_worker.rs:2946-3006 | a full-text edit is answered exactly from the current revision, within the limit and not paged; every field afterwards |
| `WorkerAnswers.RangeAnswered` | crates/fresh-gui/src/editor_worker.rs:3172-3535 | which range edits are answered and accepted, plain and paged, and every field afterwards |
| `WorkerAnswers.OverLimitRefused` | crates/fresh-gui/src/editor_worker.rs:3199-3202 | a text that outgrew the limit takes no more range edits |
| `WorkerAnswers.ActionAnswered` | crates/fresh-gui/src/editor_worker.rs:3537-3712 | which actions are accepted and what each leaves, over the limit too; deduplication always is |
| `WorkerAnswers.FormatAnswered` | crates/fresh-gui/src/editor_worker.rs:4224-4333 | a formatter runs from the current revision only and is accepted when it changed something |
| `WorkerAnswers.ControlAnswered` | crates/fresh-gui/src/editor_worker.rs:4969-5118 | when inspecting, recoding and rereading are answered, and every field afterwards |
| `WorkerAnswers.SaveAnswered` | crates/fresh-gui/src/editor_worker.rs:4647-4892 | which saves go through, paged ones only while their source is intact, and every field afterwards |
| `WorkerAnswers.PollAnswered` | crates/fresh-gui/src/editor_worker.rs:4410-4529 | unsaved text stays, a clean buffer follows its file |
| `WorkerAnswers.ReloadAnswered` | crates/fresh-gui/src/editor_worker.rs:4593-4634 | a Reload makes the buffer one of the noticed file |
| `WorkerAnswers.SyncAnsweredAs` | crates/fresh-gui/src/editor_worker.rs:3797-3811 | a sync changes the dirty flag at most |
| `JournalReplay.AdvanceReplays` | crates/fresh-gui/src/editor_worker.rs:2822-2845 | what a replay recorded, whether it got through or stopped, is itself a journal that replays step by step to the same document |
| `JournalReplay.ReplaysAdvance` | crates/fresh-gui/src/editor_worker.rs:2822-2845 | a journal that replays step by step is recorded again whole |
| `JournalReplay.ReplaysConcat` | crates/fresh-gui/src/editor_worker.rs:2822-2845 | journals that fit end to end join to one |
| `JournalReplay.ReplayIsSequential` | crates/fresh-gui/src/editor_worker.rs:2822-2845 | a replay that gets through gives the sequence of all its edits |
| `JournalReplay.TraceIsSequential` | crates/fresh-gui/src/editor_worker.rs:2822-2845 | edits do the same to every document of a length: each byte of the result is a fixed inserted one or a fixed byte of the document |
| `JournalReplay.SameResult` | crates/fresh-gui/src/editor_worker.rs:2822-2845 | two documents replay to the same text exactly if they agree on every byte that the edits keep, and in length |
| `DraftRestore.DraftSaves` | crates/fresh-gui/src/editor_worker.rs:2705-2738 | the draft of a buffer in step stands for what the buffer shows |
| `DraftRestore.RestoringExact` | crates/fresh-gui/src/editor_worker.rs:2807-2910 | a restored buffer is in step, and shows what the draft stands for exactly if it had no paged edits, or the edits of the draft overwrite all that these changed |
| `DraftRestore.RestoringPaged` | crates/fresh-gui/src/editor_worker.rs:2807-2857 | the replay branch, which always succeeds on a buffer without edits |
| `DraftRestore.RestoringPlain` | crates/fresh-gui/src/editor_worker.rs:2859-2910 | the full-text branch, which succeeds exactly within the limit |
| `DraftRestore.RestoringFields` | crates/fresh-gui/src/editor_worker.rs:2807-2910 | exactly when a draft goes into a buffer, and every field afterwards |
| `DraftRestore.RestoredHolds` | crates/fresh-gui/src/editor_worker.rs:2757-2779 | a paged buffer is that of its draft once restored |
| `DraftRestore.OpenedFirst` | crates/fresh-gui/src/editor_worker.rs:2757-2779 | a paged file opened before its draft is restored already counts as the buffer of the draft |
| `DraftRestore.NothingRecorded` | crates/fresh-gui/src/editor_worker.rs:2822-2845 | a replay that stops before any transaction had an effect leaves the document as it was |
| `DraftRestore.SavedTooLong` | crates/fresh-gui/src/editor_worker.rs:4862-4892 | an on-save action over the limit leaves an unsaved text whose draft brings back nothing |
| `DraftRestore.GrownStaysStale` | crates/fresh-gui/src/editor_worker.rs:4079-4101 | after a formatter over the limit the draft of an undo, even back within the limit, is the text before the undo |
| `DraftLifecycle.CheckpointSaves` | crates/fresh-gui/src/editor_worker.rs:2705-2738 | a completed checkpoint of a dirty buffer in step brings back what it shows |
| `DraftLifecycle.SharedDraft` | crates/fresh-gui/src/editor_worker.rs:2705-2738 | a checkpoint endangers another buffer exactly if both share a draft id and show different texts |
| `DraftLifecycle.Worker.Edit` | crates/fresh-gui/src/editor_worker.rs:1093-1106 | a full-text edit is answered exactly from the current revision within the limit, leaves the requested text one revision on, and every dirty buffer has a draft that brings back what it shows |
| `DraftLifecycle.Worker.RangeEdit` | crates/fresh-gui/src/editor_worker.rs:1107-1133 | so after a range edit, plain or paged |
| `DraftLifecycle.Worker.Action` | crates/fresh-gui/src/editor_worker.rs:1134-1162 | after an action, unless exactly undo or redo went back over the limit; an accepted one leaves a draft of a dirty buffer and none of a clean one |
| `DraftLifecycle.Worker.Sync` | crates/fresh-gui/src/editor_worker.rs:1163-1170 | after a sync always |
| `DraftLifecycle.Worker.LspGet` | crates/fresh-gui/src/editor_worker.rs:1287-1298 | so after a poll of language-server state, checkpointed when the client is behind |
| `DraftLifecycle.Worker.Refresh` | crates/fresh-gui/src/editor_worker.rs:4579-4592 | so after what only syncs a buffer: a page read, a Keep, an Overwrite |
| `DraftLifecycle.SyncedUnedited` | crates/fresh-gui/src/editor_worker.rs:4124-4139 | syncing all buffers changes no text: only dirty flags, which then are those of Fresh |
| `DraftLifecycle.Worker.New` | crates/fresh-gui/src/editor_worker.rs:4335-4386 | a new untitled buffer keeps the others recoverable exactly if its draft id is fresh |
| `DraftLifecycle.Worker.Save` | crates/fresh-gui/src/editor_worker.rs:1211-1232 | which save succeeds, what it leaves, and the exact condition on the on-save actions |
| `DraftLifecycle.Worker.FileControl` | crates/fresh-gui/src/editor_worker.rs:1233-1245 | after file control exactly if the text stays within the limit |
| `DraftLifecycle.Worker.Format` | crates/fresh-gui/src/editor_worker.rs:1304-1320 | after a formatter, checkpointed only when it changed something, under the same condition |
| `DraftLifecycle.Worker.Poll` | crates/fresh-gui/src/editor_worker.rs:4410-4529 | after the turn of a buffer in a poll exactly if it was not reloaded over the limit; warned dirty buffers are checkpointed |
| `DraftLifecycle.Worker.Reload` | crates/fresh-gui/src/editor_worker.rs:4593-4634 | a Reload gives up the draft of this buffer and no other |
| `DraftLifecycle.Worker.CheckpointEntry` | crates/fresh-gui/src/editor_worker.rs:2705-2738 | nothing happens to clean buffers; a dirty one has its draft stored |
| `DraftLifecycle.Worker.Commit` | crates/fresh-gui/src/editor_worker.rs:1093-1245 | what is kept after a command: every dirty buffer recoverable exactly if this one is in step and shares its draft id with no other; a crash inside leaves the draft as before or as after |
| `DraftLifecycle.Worker.Open` | crates/fresh-gui/src/editor_worker.rs:2565-2703 | a file opens exactly if it exists and no other workspace has it open; all buffers are synced, and every one stays recoverable exactly if the draft id it gives out is not in use |
| `DraftLifecycle.Worker.Restore` | crates/fresh-gui/src/editor_worker.rs:2740-2910 | the three outcomes with the complete new state; every dirty buffer stays recoverable exactly if no edits stack, a replay that stops leaves the text as it was, and no other buffer has the draft id |
| `DraftLifecycle.PlannedExactly` | crates/fresh-gui/src/editor_worker.rs:2747-2800 | which of its three outcomes a restore has; a paged draft is only used with the very source it was made on |
| `DraftLifecycle.OpenedForTarget` | crates/fresh-gui/src/editor_worker.rs:2565-2703 | the buffer a restore opens: that of the file with its edits, a new one of the file, or an untitled one |
| `DraftLifecycle.RestoreShows` | crates/fresh-gui/src/editor_worker.rs:2740-2910 | exactly when a restore shows what the draft stands for: handed back, a buffer that is dirty, or edits that leave every byte as it was; otherwise no stacking |
| `DraftLifecycle.RecoversIdle` | crates/fresh-gui/src/editor_worker.rs:2757-2779 | a draft whose edits change the length of the file is hidden by a clean buffer |
| `DraftExamples.OpenedFirstHides` | crates/fresh-gui/src/editor_worker.rs:2757-2779 | an example: a file opened after a crash hides its draft from every restore |
| `DraftExamples.StackedJournals` | crates/fresh-gui/src/editor_worker.rs:2781-2857 | an example: a draft restored over edits of another shows neither text |
| `JournalReplay.IdleExact` | crates/fresh-gui/src/editor_worker.rs:2822-2845 | a sequence of edits gives the document back exactly if each byte it leaves is the one that was there; never if it changes the length |
| `DraftLifecycle.RestoredAgain` | crates/fresh-gui/src/editor_worker.rs:2757-2779 | restoring a paged draft twice replays it once |
| `DraftLifecycle.RestoredTwice` | crates/fresh-gui/src/editor_worker.rs:2781-2789 | restoring a draft without a file twice gives two buffers under one draft id |
| `DraftLifecycle.ReopenedAfterSaveAs` | crates/fresh-gui/src/editor_worker.rs:2604-2657 | after a Save As the old file opens in a new buffer under the same draft id |
| `DraftLifecycle.AtomicOperation` | crates/fresh-gui/src/editor_worker.rs:2705-2738 | whichever file operation of a checkpoint or discard a crash follows, every other dirty buffer is recoverable and the draft of this one is as before or as afterwards |
| `DraftLifecycle.CrashSafe` | crates/fresh-gui/src/editor_worker.rs:2705-2738 | so after a crash inside a command the text before it or the text after it can be brought back, and every other unsaved text |
| `DraftLifecycle.CrashRestores` | crates/fresh-gui/src/editor_worker.rs:2740-2910 | restoring brings a text that a crash left safe back exactly if its draft is paged and its file unchanged, over the limit and opening, or neither is paged and it is within the limit |
| `DraftExamples.ShrunkIsLost` | crates/fresh-gui/src/editor_worker.rs:2810-2821 | an example: no restore brings an edited paged buffer of a small file back |
| `DraftLifecycle.Worker.DiscardDraft` | crates/fresh-gui/src/editor_worker.rs:1375-1388 | the draft is gone; every dirty buffer stays recoverable exactly if the buffer closed or had nothing to lose |
| `DraftLifecycle.Worker.Close` | crates/fresh-gui/src/editor_worker.rs:4057-4077 | closing keeps every other buffer recoverable |
| `SearchReview.ApplyMatches` | crates/fresh-gui-client/src/search.rs:121-140 | the back-to-front loop gives the simultaneous substitution exactly for ascending, disjoint, boundary-aligned matches, and nothing otherwise; no replacement can panic |
| `SearchReview.BackwardStep` | crates/fresh-gui-client/src/search.rs:136-139 | with everything behind a match replaced, replacing the match fits and is the substitution from it on |
| `SearchReview.DescendingSubstitutes` | crates/fresh-gui/src/editor_worker.rs:3219-3236 | applying the descending edits one after another gives the same text |
| `SearchReview.DaemonAgrees` | crates/fresh-gui/src/project_session.rs:184-202 | for any accepted set the daemon edits, when within the limit, give what the client review shows |
| `SearchReview.VisitsEachOnce` | crates/fresh-gui-client/src/search.rs:26-42 | from any start every match is visited exactly once, on from there and around |
| `SearchReview.SearchReview.At` | crates/fresh-gui-client/src/search.rs:26-42 | a review starts with nothing accepted and wraps once |
| `SearchReview.SearchReview.Current` | crates/fresh-gui-client/src/search.rs:44-52 | the current match is the next in visiting order and is not accepted yet |
| `SearchReview.SearchReview.Accept` | crates/fresh-gui-client/src/search.rs:59-65 | the current match, and no other, becomes accepted |
| `SearchReview.SearchReview.Skip` | crates/fresh-gui-client/src/search.rs:68-72 | skipping accepts nothing |
| `SearchReview.SearchReview.AcceptAll` | crates/fresh-gui-client/src/search.rs:75-80 | everything not yet visited becomes accepted, what was skipped stays skipped |
| `SearchReview.SearchReview.Replacements` | crates/fresh-gui-client/src/search.rs:93-113 | the result is the substitution of the accepted matches exactly when they are ascending and disjoint, which they are when all matches are, and nothing otherwise |
| `SearchReview.SelectedEdits` | crates/fresh-gui/src/project_session.rs:177-202 | indices in any order and repetition give the descending edits of the matches they select, or a rejection |
| `ProjectSession.ProjectSession.Begin` | crates/fresh-gui/src/project_session.rs:53-71 | a new search supersedes the old one even under the same id |
| `ProjectSession.ProjectSession.Clear` | crates/fresh-gui/src/project_session.rs:40-44 | clearing cancels the current generation |
| `ProjectSession.ProjectSession.Cancel` | crates/fresh-gui/src/project_session.rs:45-52 | only the named search is cancelled |
| `ProjectSession.ProjectSession.FinishScan` | crates/fresh-gui/src/project_session.rs:109-124 | a scan that ends stores its result only in its own, still current generation |
| `ProjectSession.ProjectSession.TakeResult` | crates/fresh-gui/src/project_session.rs:157-170 | a result is handed out exactly when id, workspace and root match a finished scan, and never twice |
| `ProjectSession.ReplacementEdits` | crates/fresh-gui/src/project_session.rs:172-202 | each selection gets the edits of its chosen matches exactly when its file is known and selected for the first time |
| `ProjectSession.EditedOnce` | crates/fresh-gui/src/project_session.rs:176-179 | no two selections edit the same file |
| `ProjectSession.FindFileIs` | crates/fresh-gui/src/project_session.rs:176-183 | an id means the first file listed under it |
| `ProjectScan.Scan.SearchWorkspace` | crates/fresh-gui/src/project_search.rs:77-266 | kept files are genuine, no path of an in-root open buffer is read from disk, no overlay is searched twice, and a scan that reports neither truncation nor cancellation missed nothing: not the last open buffer of an admitted path, nor the disk where none is open |
| `ProjectScan.Scan.CacheAndEmit` | crates/fresh-gui/src/project_search.rs:340-384 | files emitted are the files kept, matches never exceed min(requested, 2000) nor kept bytes 32 MiB |
| `ProjectScan.Scan.SearchText` | crates/fresh-gui/src/project_search.rs:242-264 | the remaining budget never underflows, and unless cut short all matches of the text are kept |
| `ProjectScan.Scan.SearchDetached` | crates/fresh-gui/src/project_search.rs:88-148 | pathless buffers and those of missing files, and no others, are searched from memory |
| `ProjectScan.Scan.SearchEntry` | crates/fresh-gui/src/project_search.rs:174-264 | an open path is searched in its overlay, once, any other on disk |
| `ProjectScan.Scan.SearchTree` | crates/fresh-gui/src/project_search.rs:149-266 | every admitted path of the tree is searched that way, each overlay once at most |
| `ProjectScan.StillOnce` | crates/fresh-gui/src/project_search.rs:174-188 | an overlay is given up with the entry that used it |
| `ProjectScan.OverlaysAre` | crates/fresh-gui/src/project_search.rs:88-148 | exactly the existing paths that some open buffer holds are overlaid, each by the last buffer that holds it |
| `ProjectScan.PayloadTotal` | crates/fresh-gui/src/project_search.rs:340-384 | what a match counts towards the budgets |
| `ProjectScan.LineAndColumn` | crates/fresh-gui/src/project_search.rs:425-440 | line and column name the start of the line the match is in and the byte distance from it |
| `PatchedWrite.EditorFileSystem.WritePatched` | crates/fresh-gui/src/editor_fs.rs:74-143 | success publishes exactly the output of the recipe; any failure or crash before the rename leaves every file but the temporary one unchanged |
| `PatchedWrite.EditorFileSystem.StreamCopy` | crates/fresh-gui/src/editor_fs.rs:99-116 | reads of any size copy exactly the range, or fail when the source is too short |
| `PatchedWrite.EditorFileSystem.Stream` | crates/fresh-gui/src/editor_fs.rs:97-119 | the temporary file grows to the output of the recipe |
| `PatchedWrite.OutputIsPieces` | crates/fresh-gui/src/editor_fs.rs:97-119 | the output is the concatenation of copied ranges and inserts in order |
| `PatchedWrite.PieceIs` | crates/fresh-gui/src/editor_fs.rs:97-119 | what one operation contributes, and when it cannot |
| `PatchedWrite.TempIsNotDestination` | crates/fresh-gui/src/editor_fs.rs:27-34 | the temporary name is never the destination |
| `UniqueLines.UniqueSelectedLines` | crates/fresh-gui/src/editor_worker.rs:3721-3795 | the loops compute the edit and the selection defined on the lines of the text |
| `UniqueLines.DeduplicatedLines` | crates/fresh-gui/src/editor_worker.rs:3741-3795 | the edited text has the same lines outside the selection and of the selected ones each key once, at its first occurrence, unless the final empty line is lost |
| `UniqueLines.SurvivorsComplete` | crates/fresh-gui/src/editor_worker.rs:3762-3774 | every key survives exactly when not: the selection reaches an unterminated last line and the last key to survive is empty |
| `UniqueLines.FinalEmptyLineLost` | crates/fresh-gui/src/editor_worker.rs:3766-3774 | an example where it is lost |
| `UniqueLines.DeduplicatedOnce` | crates/fresh-gui/src/editor_worker.rs:3757-3786 | the returned selection covers the replacement in the same direction, and a second run on it finds nothing to do |
| `UniqueLines.DeduplicatedFits` | crates/fresh-gui/src/editor_worker.rs:3760-3792 | the edit cuts between characters and replaces by valid text, as range edits require |
| `UniqueLines.LinesUnique` | crates/fresh-gui/src/editor_worker.rs:3728-3734 | a text has only one division into lines |
| `UniqueLines.FirstOccurrencesAre` | crates/fresh-gui/src/editor_worker.rs:3746-3756 | the surviving keys are distinct and are all the keys |
| `UniqueLines.KeyIs` | crates/fresh-gui/src/editor_worker.rs:3746-3756 | a key is its line without LF or CRLF |
| `UniqueLines.FirstIndicesAre` | crates/fresh-gui/src/editor_worker.rs:3746-3756 | a key survives exactly where no earlier one is the same |
| `UniqueLines.KeptExactly` | crates/fresh-gui/src/editor_worker.rs:3746-3756 | the lines kept are the ones at these places, in order |
| `UniqueLines.DeduplicatedShrinks` | crates/fresh-gui/src/editor_worker.rs:3760-3792 | the text never grows and the selection lies between characters, so the edit is always taken |
| `UniqueLines.KeptKeys` | crates/fresh-gui/src/editor_worker.rs:3746-3756 | the kept lines have exactly these keys |
| `UniqueLines.FindLine` | crates/fresh-gui/src/editor_worker.rs:3735-3740 | the line of an offset; an offset past the end belongs to the last line |

## Left out

- Fresh itself: its buffer is a byte sequence with insert, delete and a modified flag; undo log, formatter, encodings, cursors and piece tree are not modelled.
- Transport, serde types, processes, terminals, file watching, SSH and memory sampling: plumbing.
- Races inside one worker command: every command is one atomic step, except the file operations of `DraftStore` and `PatchedWrite`.
- Daemon restart inside `EditProtocol`: revisions restart then, so the history is that of one lifetime.
- Machine integers: offsets, revisions and costs are unbounded, so saturating additions and `u32` line and column casts are not modelled.
- Rejections of an empty `view_id` in range edits and of full-text edits: branches that change nothing.
- `external_reconciliation`, `NavigationHistory`, `LspRequestTracker` and settings merging: they would only add easy members.
- File-finder ranking: its comment and its ordering disagree, and it has no promise beyond that.
- Regular-expression search, ignore rules and globs: `ProjectScan` takes what a search finds and which paths are admitted as parameters; unreadable, binary and non-UTF-8 files are absent from its disk, and errors of the search expression itself are not modelled.
- Preview snippets of project matches, and the cap on the number of warnings.
- Workspace edits offered by servers, navigation targets, completion triggers and response normalisation: responses are opaque strings, and a missing prepareRename method counts as an answer.
- Path identity: paths are compared as already canonical, so symbolic links and case are not modelled; read-only checks, ownership and unreadable files are left out of `SaveAuthority`.
- The bytes a save writes: `SaveAuthority` is about which generation is replaced, `PatchedWrite` about the content.
- Durability order on power loss: a crash keeps every file operation issued before it.
- What Fresh's actions do to the text beyond the events they consist of; it is taken to comment each line the worker counts at most once, and a cursor move to change no text.
- `project_replace` beyond the edits it applies, project snapshots, and applying edits a language server offers: `DraftLifecycle` has the commands on one buffer only.
- Leave for a save or a Reload, and whether a file changed, in `DraftLifecycle`: flags there; what decides them is `SaveAuthority`.
- Which of its buffers Fresh opens a file in: the one tracked under that path, or else a new one; reasons for which an open fails other than a missing file or another workspace are one flag.
- Whole text of a paged buffer: an ordinary draft restored onto one fails, as when Fresh has not loaded all regions.
- Line-ending normalisation in the dirty test after a save, and bytes that do not decode: `DraftLifecycle` compares texts as they are.
- Failing file operations in `DraftLifecycle`: there every checkpoint completes; the interrupted ones are in `DraftStore`.
- PatchedWrite.EditorFileSystem.StreamCopy: the source is taken as unchanged while it is copied; a shorter source fails, a rewritten one is not modelled.
- EditProtocol.ExchangeConverges: covers one client with no other writer, as the promise does; with other writers the exchange can be overtaken for ever.
