/** From a buffer to its draft and back: what a checkpoint records, what restoring does to the
    buffer it goes into, and when that shows what the draft stands for. */
module DraftRestore {
  import opened Utf8
  import opened Wrappers
  import opened Edits
  import opened Pages
  import opened TextBuffer
  import opened PagedEdits
  import opened JournalReplay
  import opened WorkerCommands
  import opened DraftStore

  /** The record a checkpoint writes: a journal only when there is one. */
  function DraftOf(b: Buffer): Draft {
    Draft(b.draftId, b.recoveryPath, b.text,
          if b.generation.Some? && b.journal != [] then Some(PagedDraft(b.generation.value, b.journal)) else None)
  }

  /** The text a draft stands for. */
  function Recovered(draft: Draft, contents: map<nat, Text>): Option<Text> {
    if draft.pages == None then Some(draft.text)
    else if draft.pages.value.generation !in contents then None
    else Replay(contents[draft.pages.value.generation], 0, draft.pages.value.edits)
  }

  /** A paged draft as this program writes it: every transaction of it takes effect. */
  predicate JournalOk(p: PagedDraft, contents: map<nat, Text>) {
    && p.edits != [] && ValidJournal(p.edits) && p.generation in contents
    && Advance(contents[p.generation], 0, p.edits).1 == p.edits && Advance(contents[p.generation], 0, p.edits).2
  }

  predicate DraftOk(draft: Draft, contents: map<nat, Text>) {
    Utf8.Valid(draft.text) && (draft.pages.Some? ==> JournalOk(draft.pages.value, contents))
  }

  /** What a buffer in step checkpoints is what it shows. */
  lemma DraftSaves(b: Buffer, contents: map<nat, Text>)
    requires InStep(b, contents) && b.dirty
    ensures Recovered(DraftOf(b), contents) == Some(b.live) && DraftOk(DraftOf(b), contents)
    ensures DraftOf(b).id == b.draftId && DraftOf(b).path == b.recoveryPath && (DraftOf(b).pages.Some? <==> b.paged)
  {
    hide Utf8.Valid;
    EmptyIsValid();
    if b.paged {
      ReplaysIsReplay(contents[b.generation.value], 0, b.journal, b.live, JournalCost(b.journal));
      ReplaysAdvance(contents[b.generation.value], 0, b.journal, b.live, JournalCost(b.journal));
    }
  }

  // ---- Restoring ------------------------------------------------------------------------

  /** A paged buffer that already is the one of this draft. */
  predicate Holds(b: Buffer, draft: Draft) {
    b.draftId == draft.id && b.paged && draft.pages.Some? && b.generation == Some(draft.pages.value.generation)
  }

  /** The draft id of a named file, as bytes. */
  function NamedId(workspace: Text, p: Text): Text {
    var id := NamedDraftId(workspace, p);
    seq(|id|, i requires 0 <= i < |id| => if id[i] as int < 256 then id[i] as int else 0)
  }

  /** A buffer just opened on a file: paged when the file is over the limit. */
  function OpenedOn(workspace: Text, p: Text, g: nat, text: Text): Buffer {
    var paged := |text| > MAX_SNAPSHOT_BYTES;
    Buffer(workspace, NamedId(workspace, p), Some(p), Some(p), 0, if paged then [] else text, false, paged,
           if paged then Some(g) else None, [], text, false)
  }

  function Untitled(workspace: Text, draftId: Text): Buffer {
    Buffer(workspace, draftId, None, None, 0, [], false, false, None, [], [], false)
  }

  /** `restore_draft` once a buffer is open: a paged draft needs the buffer of its generation, and
      its edits are replayed on whatever that buffer shows; an ordinary one needs a buffer that is
      not paged. A replay that fails has changed the buffer up to there. */
  function Restoring(b: Buffer, workspace: Text, draft: Draft): Outcome {
    if draft.pages.Some? then
      if !b.paged || b.generation != Some(draft.pages.value.generation) then Failed(b)
      else
        var (end, done, ok) := Advance(b.live, JournalCost(b.journal), draft.pages.value.edits);
        var c := b.(live := end, journal := b.journal + done, rev := b.rev + |done|,
                    dirty := b.dirty || done != [], modified := b.modified || done != []);
        if ok then Answered(true, Claimed(c, workspace, draft).(dirty := true)) else Failed(c)
    else if b.paged then Failed(b)
    else
      var o := if b.live == draft.text then Answered(true, b) else Edited(b, b.rev, draft.text);
      if o.Failed? then o
      else Answered(true, Claimed(o.next, workspace, draft).(text := draft.text, dirty := true, modified := true))
  }

  function Claimed(b: Buffer, workspace: Text, draft: Draft): Buffer {
    b.(draftId := draft.id, workspace := workspace, recoveryPath := draft.path)
  }

  /** The draft's edits would do to what the buffer shows what they do to the source. */
  predicate Stackable(b: Buffer, draft: Draft, contents: map<nat, Text>) {
    draft.pages.Some? && draft.pages.value.generation in contents && b.journal != [] ==>
      AgreeWhereKept(b.live, contents[draft.pages.value.generation], AllEdits(draft.pages.value.edits))
  }

  /** A replay that stops leaves the text as it was: it had changed nothing, or had undone it. */
  predicate Undisturbed(b: Buffer, draft: Draft) {
    draft.pages.Some? && b.paged && b.generation == Some(draft.pages.value.generation) ==>
      Advance(b.live, JournalCost(b.journal), draft.pages.value.edits).0 == b.live
  }

  lemma FailedShows(b: Buffer, workspace: Text, draft: Draft)
    ensures var o := Restoring(b, workspace, draft);
      o.Failed? && (draft.pages.Some? || b.paged) ==> (o.next.live == b.live <==> Undisturbed(b, draft))
  {
    hide Advance;
  }

  /** In particular when its first transactions up to the refused one have no effect. */
  lemma NothingRecorded(doc: Text, prior: nat, journal: seq<Logged>)
    ensures Advance(doc, prior, journal).1 == [] ==> Advance(doc, prior, journal).0 == doc
  {
    hide Transact;
    hide PageAt;
    AdvanceReplays(doc, prior, journal);
  }

  /** What restoring leaves is in step; it shows what the draft stands for exactly if the buffer
      had no paged edits of its own, or none that the draft's edits do not overwrite. */
  lemma RestoringExact(b: Buffer, workspace: Text, draft: Draft, contents: map<nat, Text>)
    requires InStep(b, contents) && DraftOk(draft, contents)
    requires forall g :: g in contents ==> Utf8.Valid(contents[g])
    ensures var o := Restoring(b, workspace, draft);
      && InStep(o.next, contents)
      && (o.Answered? ==> o.next.dirty && o.next.workspace == workspace && o.next.draftId == draft.id)
      && (o.Answered? ==> (Recovered(draft, contents) == Some(o.next.live) <==> Stackable(b, draft, contents)))
      && (o.Failed? ==> SameKey(o.next, b) && (b.dirty ==> o.next.dirty) && (b.journal == [] ==> Quiet(b, o.next)))
  {
    hide Utf8.Valid;
    if draft.pages.Some? && b.paged && b.generation == Some(draft.pages.value.generation) {
      RestoringPaged(b, workspace, draft, contents);
    } else if draft.pages == None && !b.paged {
      RestoringPlain(b, workspace, draft, contents);
    }
  }

  /** Every field of a buffer a draft went into, and when it does. */
  lemma RestoringFields(b: Buffer, workspace: Text, draft: Draft, contents: map<nat, Text>)
    requires InStep(b, contents)
    ensures var o := Restoring(b, workspace, draft);
      && (o.Answered? <==>
            if draft.pages.Some? then
              && b.paged && b.generation == Some(draft.pages.value.generation)
              && Replay(b.live, JournalCost(b.journal), draft.pages.value.edits).Some?
            else !b.paged && |draft.text| <= MAX_SNAPSHOT_BYTES)
      && (o.Answered? ==>
            var n := o.next;
            && n.draftId == draft.id && n.workspace == workspace && n.recoveryPath == draft.path && n.path == b.path
            && n.dirty && n.paged == b.paged && n.generation == b.generation && o.accepted
            && if draft.pages == None
               then n.live == n.text == draft.text && n.modified && n.rev == b.rev + if draft.text == b.live then 0 else 1
               else Replay(b.live, JournalCost(b.journal), draft.pages.value.edits) == Some(n.live)
                    && b.journal <= n.journal && n.rev == b.rev + |n.journal| - |b.journal|)
  {
    hide Utf8.Valid;
    hide Advance;
    hide Replay;
    if draft.pages.Some? {
      AdvanceReplays(b.live, JournalCost(b.journal), draft.pages.value.edits);
    }
  }

  lemma RestoringPlain(b: Buffer, workspace: Text, draft: Draft, contents: map<nat, Text>)
    requires InStep(b, contents) && DraftOk(draft, contents) && draft.pages == None && !b.paged
    ensures var o := Restoring(b, workspace, draft);
      && InStep(o.next, contents)
      && (o.Answered? ==> o.next.dirty && o.next.workspace == workspace && o.next.draftId == draft.id)
      && (o.Answered? ==> o.next.live == draft.text) && (o.Answered? <==> |draft.text| <= MAX_SNAPSHOT_BYTES)
      && (o.Failed? ==> SameKey(o.next, b) && (b.dirty ==> o.next.dirty) && Quiet(b, o.next))
  {
    hide Utf8.Valid;
  }

  lemma RestoringPaged(b: Buffer, workspace: Text, draft: Draft, contents: map<nat, Text>)
    requires InStep(b, contents) && DraftOk(draft, contents)
    requires forall g :: g in contents ==> Utf8.Valid(contents[g])
    requires draft.pages.Some? && b.paged && b.generation == Some(draft.pages.value.generation)
    ensures var o := Restoring(b, workspace, draft);
      && InStep(o.next, contents)
      && (o.Answered? ==> o.next.dirty && o.next.workspace == workspace && o.next.draftId == draft.id)
      && (o.Answered? ==> (Recovered(draft, contents) == Some(o.next.live) <==> Stackable(b, draft, contents)))
      && (b.journal == [] ==> o.Answered?)
      && (o.Failed? ==> SameKey(o.next, b) && (b.dirty ==> o.next.dirty))
  {
    hide Utf8.Valid;
    hide Replays;
    hide Replay;
    hide Advance;
    hide Transact;
    hide JournalCost;
    hide Sequential;
    hide AgreeWhereKept;
    var edits, source, cost := draft.pages.value.edits, contents[draft.pages.value.generation], JournalCost(b.journal);
    var (end, done, ok) := Advance(b.live, cost, edits);
    AdvanceReplays(b.live, cost, edits);
    AdvanceReplays(source, 0, edits);
    ReplaysConcat(source, 0, b.journal, b.live, cost, done, end, cost + JournalCost(done));
    JournalCostConcat(b.journal, done);
    ReplaysIsReplay(b.live, cost, done, end, cost + JournalCost(done));
    ReplayIsSequential(b.live, cost, done);
    if ok {
      ReplayIsSequential(b.live, cost, edits);
      ReplayIsSequential(source, 0, edits);
      SameResult(b.live, source, AllEdits(edits));
    }
    if b.journal == [] {
      JournalCostNone();
      ReplaysNothing(source, b.live, cost);
      assert b.journal + done == done;
    }
  }

  lemma ReplaysNothing(source: Text, doc: Text, cost: nat)
    ensures Replays(source, 0, [], doc, cost) ==> doc == source && cost == 0
  {
  }

  /** A paged draft that was restored is not replayed again: its buffer is now the one it names. */
  lemma RestoredHolds(b: Buffer, workspace: Text, draft: Draft)
    requires draft.pages.Some? && Restoring(b, workspace, draft).Answered?
    ensures Holds(Restoring(b, workspace, draft).next, draft)
  {
    hide Advance;
  }

  /** On-save actions that leave a modified text over the limit turn the buffer into a paged one
      without journal: its draft brings back nothing. */
  lemma SavedTooLong(b: Buffer, contents: map<nat, Text>, dest: Option<Text>, g: nat, done: Aftermath)
    requires InStep(b, contents) && !b.paged && |done.text| > MAX_SNAPSHOT_BYTES && done.modified
    ensures var next := SavedAs(b, dest, g, done);
      next.dirty && next.live == done.text && Recovered(DraftOf(next), contents) == Some([])
  {
    hide Utf8.Valid;
  }

  /** A formatter that leaves a text over the limit makes the next action's checkpoint stale: even
      an undo back within the limit is recorded as the formatter's text. */
  lemma GrownStaysStale(b: Buffer, contents: map<nat, Text>, text: Text, modified: bool, after: Text, selection: Selection)
    requires InStep(b, contents) && !b.paged && b.live != text && |text| > MAX_SNAPSHOT_BYTES
    requires SelectionFits(text, selection)
    ensures var c := Formatted(b, b.rev, true, text, modified).next;
      var o := Acted(c, c.rev, UndoRedo(after, true), selection);
      && o.Answered? && o.accepted && o.next.dirty && o.next.live == after
      && Recovered(DraftOf(o.next), contents) == Some(text)
  {
    hide Utf8.Valid;
    hide SelectionFits;
  }

  lemma OpenedInStep(workspace: Text, p: Text, g: nat, contents: map<nat, Text>)
    requires g in contents && Utf8.Valid(contents[g])
    ensures InStep(OpenedOn(workspace, p, g, contents[g]), contents)
  {
    hide Utf8.Valid;
    JournalCostNone();
  }

  /** Opened before its draft is restored, a paged file is already the buffer of that draft, and
      shows the file. */
  lemma OpenedFirst(workspace: Text, p: Text, g: nat, text: Text, draft: Draft)
    requires |text| > MAX_SNAPSHOT_BYTES && draft.pages.Some? && draft.pages.value.generation == g
    requires draft.id == NamedId(workspace, p)
    ensures Holds(OpenedOn(workspace, p, g, text), draft) && OpenedOn(workspace, p, g, text).live == text
  {
  }
}
