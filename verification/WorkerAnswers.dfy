/** What a client can count on when a command of the editor worker is answered or refused: which
    requests go through, and every field of the buffer afterwards, for a buffer in step. */
module WorkerAnswers {
  import opened Utf8
  import opened Wrappers
  import opened Edits
  import opened Pages
  import opened TextBuffer
  import opened PagedEdits
  import opened UniqueLines
  import opened WorkerCommands

  /** Nothing but the dirty flag may differ, which then follows Fresh. */
  predicate Unedited(b: Buffer, next: Buffer) {
    next == b || next == b.(dirty := b.modified)
  }

  predicate Accepted(o: Outcome) {
    o.Answered? && o.accepted
  }

  /** The whole text: only from the current revision, within the limit, and not when paged. */
  predicate EditAnswer(b: Buffer, baseRev: nat, text: Text, o: Outcome) {
    && (o.Answered? <==> !b.paged && |text| <= MAX_SNAPSHOT_BYTES && baseRev == b.rev)
    && (o.Failed? ==> Unedited(b, o.next))
    && (o.Answered? ==> o.accepted && o.next == b.(live := text, text := text, rev := baseRev + 1, dirty := true,
                                                   modified := b.modified || text != b.live))
  }

  lemma EditAnswered(b: Buffer, contents: map<nat, Text>, baseRev: nat, text: Text)
    requires InStep(b, contents)
    ensures EditAnswer(b, baseRev, text, Edited(b, baseRev, text))
  {
    hide Utf8.Valid;
  }

  predicate PlainServed(text: Text, edits: seq<RangeEdit>, selection: Selection) {
    && (forall k :: 0 <= k < |edits| ==> InLimit(text, edits, k))
    && Sequential(text, edits).Some?
    && var after := Sequential(text, edits).value;
       && selection.anchor <= |after| && IsBoundary(after, selection.anchor)
       && selection.head <= |after| && IsBoundary(after, selection.head)
  }

  ghost predicate PagedServed(b: Buffer, disk: Option<nat>, baseRev: nat, edits: seq<RangeEdit>, view: Option<Viewport>,
                              selection: Selection)
  {
    && view.Some? && b.generation == disk
    && if baseRev == b.rev && edits != []
       then Acceptable(b.live, JournalCost(b.journal), view.value, edits, selection)
       else view.value.start <= |b.live| && view.value.len <= MAX_PAGE_BYTES
            && PageAt(b.live, view.value.start, view.value.len).Ok?
  }

  /** Edits: a stale request is answered, but nothing is accepted; of the others those go through
      whose edits fit in turn. */
  ghost predicate RangeAnswer(b: Buffer, disk: Option<nat>, baseRev: nat, edits: seq<RangeEdit>,
                              view: Option<Viewport>, selection: Selection, o: Outcome)
  {
    && (o.Answered? ==> (o.accepted <==> baseRev == b.rev))
    && (!Accepted(o) ==> Unedited(b, o.next))
    && (o.Answered? <==> if b.paged then PagedServed(b, disk, baseRev, edits, view, selection)
                         else baseRev != b.rev || PlainServed(b.live, edits, selection))
    && (Accepted(o) ==>
          && (b.paged ==> view.Some?) && Sequential(b.live, edits) == Some(o.next.live)
          && if o.next.live == b.live then Unedited(b, o.next)
             else o.next == b.(live := o.next.live, text := if b.paged then [] else o.next.live, rev := b.rev + 1,
                               dirty := true, modified := true,
                               journal := if b.paged then b.journal + [Logged(view.value, edits)] else []))
  }

  lemma RangeAnswered(b: Buffer, contents: map<nat, Text>, disk: Option<nat>, baseRev: nat, edits: seq<RangeEdit>,
                      view: Option<Viewport>, selection: Selection)
    requires InStep(b, contents) && ValidEdits(edits)
    ensures RangeAnswer(b, disk, baseRev, edits, view, selection, Ranged(b, disk, baseRev, edits, view, selection))
  {
    hide Utf8.Valid;
    hide Acceptable;
    hide Transact;
    hide PageAt;
    hide Replays;
    hide JournalCost;
    hide InLimit;
    hide Sequential;
    hide IsBoundary;
    hide ValidEdits;
    hide Serve;
    SequentialNothing(b.live);
    if !b.paged {
      ServedExactly(b.rev, b.live, baseRev, edits, selection);
    } else if view.Some? && edits != [] {
      TransactAccepts(b.live, JournalCost(b.journal), view.value, edits, selection);
      AcceptableReads(b.live, JournalCost(b.journal), view.value, edits, selection);
      if Transact(b.live, JournalCost(b.journal), view.value, edits, selection).Some? {
        TransactIsSequential(b.live, JournalCost(b.journal), view.value, edits, selection);
      }
    }
  }

  /** A text that outgrew the limit takes no more range edits. */
  lemma OverLimitRefused(b: Buffer, disk: Option<nat>, baseRev: nat, edits: seq<RangeEdit>, view: Option<Viewport>,
                         selection: Selection)
    requires !b.paged && |b.live| > MAX_SNAPSHOT_BYTES
    ensures Ranged(b, disk, baseRev, edits, view, selection).Failed?
  {
  }

  /** What an action would leave as the text; none if it cannot be carried out within the limit. */
  function Wanted(text: Text, action: Action, selection: Selection): Option<Text> {
    match action
    case Deduplicate =>
      (match Deduplicated(text, selection)
       case None => Some(text)
       case Some((e, _)) => if e.start <= e.end <= |text| then Some(text[..e.start] + e.text + text[e.end..]) else None)
    case Move => Some(text)
    case Smart(works, events, _) =>
      if works && |text| + Added(events) <= MAX_SNAPSHOT_BYTES + Removed(events) && Added(events) <= MAX_SNAPSHOT_BYTES
      then ApplyEvents(text, events) else None
    case ToggleComment(prefix, events, _) =>
      if |text| + prefix * LineCount(text) <= MAX_SNAPSHOT_BYTES then ApplyEvents(text, events) else None
    case UndoRedo(restored, _) => Some(restored)
  }

  /** An action: stale ones are answered without being accepted. Afterwards the recorded text and
      revision follow Fresh's text, except for one over the limit. */
  predicate ActionAnswer(b: Buffer, baseRev: nat, action: Action, selection: Selection, o: Outcome) {
    && (o.Answered? ==> (o.accepted <==> baseRev == b.rev))
    && (o.Answered? <==>
          && !b.paged
          && (baseRev != b.rev || (
                && selection.anchor <= |b.live| && IsBoundary(b.live, selection.anchor)
                && selection.head <= |b.live| && IsBoundary(b.live, selection.head)
                && Wanted(b.live, action, selection).Some?)))
    && (!Accepted(o) ==> Unedited(b, o.next))
    && (Accepted(o) ==>
          var text, n := Wanted(b.live, action, selection).value, o.next;
          && n.live == text && n.dirty == n.modified
          && (|text| <= MAX_SNAPSHOT_BYTES ==>
                n == b.(live := text, text := text, rev := if text == b.live then b.rev else b.rev + 1,
                        dirty := n.dirty, modified := n.modified))
          && (|text| > MAX_SNAPSHOT_BYTES ==>
                n == b.(live := text, paged := true, dirty := n.dirty, modified := n.modified))
          && n.modified == (match action
               case Deduplicate => b.modified || text != b.live
               case Move => b.modified
               case Smart(_, _, modified) => modified
               case ToggleComment(_, _, modified) => modified
               case UndoRedo(_, modified) => modified))
  }

  lemma ActionAnswered(b: Buffer, contents: map<nat, Text>, baseRev: nat, action: Action, selection: Selection)
    requires InStep(b, contents) && FromFresh(b.live, action)
    ensures ActionAnswer(b, baseRev, action, selection, Acted(b, baseRev, action, selection))
  {
    hide Utf8.Valid;
    hide Deduplicated;
    hide Replays;
    hide ApplyEvents;
    hide IsBoundary;
    hide Lines;
    match action
    case Deduplicate =>
      if !b.paged && baseRev == b.rev && SelectionFits(b.live, selection) && Deduplicated(b.live, selection).Some? {
        DeduplicationAccepted(b, selection);
      }
    case Smart(_, events, _) => SmartWanted(b.live, events);
    case ToggleComment(prefix, _, _) => TimesAtMost(prefix, prefix, LineCount(b.live));
    case _ =>
  }

  lemma DeduplicationAccepted(b: Buffer, selection: Selection)
    requires Utf8.Valid(b.live) && |b.live| <= MAX_SNAPSHOT_BYTES && Deduplicated(b.live, selection).Some?
    ensures var (e, next) := Deduplicated(b.live, selection).value;
      Fits(b.live, e) &&
      Serve(b.rev, b.live, b.rev, [e], next) == Applied(Splice(b.live, e.start, e.end, e.text))
  {
    hide Utf8.Valid;
    hide Deduplicated;
    hide SelectionFits;
    hide IsBoundary;
    DeduplicatedShrinks(b.live, selection);
    var (e, next) := Deduplicated(b.live, selection).value;
    var after := Splice(b.live, e.start, e.end, e.text);
    assert [e][1..] == [];
    assert ApplyEdits(after, []) == Some(after);
    assert ApplyEdits(b.live, [e]) == Some(after);
  }

  lemma SmartWanted(text: Text, events: seq<Event>)
    ensures SmartFits(text, events) <==>
      |text| + Added(events) <= MAX_SNAPSHOT_BYTES + Removed(events) && Added(events) <= MAX_SNAPSHOT_BYTES
  {
  }

  /** A formatter: from the current revision only, and accepted when it changed something. */
  predicate FormatAnswer(b: Buffer, baseRev: nat, works: bool, text: Text, modified: bool, o: Outcome) {
    && (o.Answered? <==> !b.paged && baseRev == b.rev && works)
    && (Accepted(o) <==> o.Answered? && text != b.live)
    && (!Accepted(o) ==> Unedited(b, o.next))
    && (Accepted(o) ==>
          o.next == b.(live := text, text := text, rev := baseRev + 1, dirty := true, modified := modified))
  }

  lemma FormatAnswered(b: Buffer, contents: map<nat, Text>, baseRev: nat, works: bool, text: Text, modified: bool)
    requires InStep(b, contents)
    ensures FormatAnswer(b, baseRev, works, text, modified, Formatted(b, baseRev, works, text, modified))
  {
    hide Utf8.Valid;
  }

  /** File control: from the current revision only; only unmodified buffers are reread. */
  predicate ControlAnswer(b: Buffer, baseRev: nat, control: Control, o: Outcome) {
    && (o.Answered? <==> baseRev == b.rev && match control
          case Inspect => true
          case Recode(works, _, _) => works && !b.paged
          case Reopen(works, _) => works && !b.paged && !b.modified)
    && (o.Answered? ==> o.accepted)
    && (o.Failed? || control.Inspect? ==> Unedited(b, o.next))
    && (o.Answered? ==> match control
          case Inspect => o.next.dirty == b.modified
          case Recode(_, text, modified) =>
            o.next == b.(live := text, text := text, rev := baseRev + 1, dirty := modified, modified := modified)
          case Reopen(_, text) =>
            o.next == b.(live := text, text := text, rev := baseRev + 1, dirty := false, modified := false))
  }

  lemma ControlAnswered(b: Buffer, contents: map<nat, Text>, baseRev: nat, control: Control)
    requires InStep(b, contents)
    ensures ControlAnswer(b, baseRev, control, Controlled(b, baseRev, control))
  {
    hide Utf8.Valid;
  }

  /** A save goes through from the current revision, with leave, to a known place; a paged buffer
      only while its source is intact (`disk` is its present generation). */
  predicate MaySave(b: Buffer, baseRev: nat, dest: Option<Text>, disk: Option<nat>, allowed: bool) {
    && baseRev == b.rev && allowed
    && (dest.Some? || b.path.Some? || b.recoveryPath.Some?)
    && (b.paged ==> (b.path.Some? || b.recoveryPath.Some?) && disk.Some? && b.generation == disk)
  }

  /** The saved buffer: of the file it went to, one revision on. A paged one shows what it showed
      and has nothing unsaved; any other shows what the on-save actions left. */
  predicate SavedBuffer(b: Buffer, dest: Option<Text>, g: nat, done: Aftermath, next: Buffer) {
    && next.path == (if dest.Some? then dest else if b.path.Some? then b.path else b.recoveryPath)
    && next.recoveryPath == next.path && next.workspace == b.workspace && next.draftId == b.draftId
    && next.rev == b.rev + 1 && next.journal == []
    && (if b.paged then
          next.paged && next.live == b.live && !next.dirty && !next.modified
        else
          && next.live == done.text && next.modified == done.modified
          && (next.paged <==> |done.text| > MAX_SNAPSHOT_BYTES)
          && (next.dirty <==> done.modified || (!next.paged && done.written != done.text)))
    && next.text == (if next.paged then [] else next.live)
    && next.generation == (if next.paged then Some(g) else None)
  }

  lemma SaveAnswered(b: Buffer, contents: map<nat, Text>, baseRev: nat, dest: Option<Text>, disk: Option<nat>,
                     allowed: bool, g: nat, done: Aftermath)
    requires InStep(b, contents)
    ensures Writes(b, baseRev, dest, disk, allowed) <==> MaySave(b, baseRev, dest, disk, allowed)
    ensures SavedBuffer(b, dest, g, done, SavedAs(b, dest, g, done)) && Unedited(b, Synced(b))
    ensures Effects(b, done).written == if b.paged then b.live else done.written
  {
    hide Utf8.Valid;
  }

  /** A poll of a changed file: unsaved text stays, a clean buffer follows the file, and if the file
      cannot be read as text the buffer counts as unsaved. */
  predicate PollTurn(b: Buffer, changed: bool, text: Option<Text>, next: Buffer) {
    if !changed || b.paged then next == b
    else if b.modified then Unedited(b, next)
    else if text == None then next == b.(dirty := true, modified := true)
    else next == b.(live := text.value, text := text.value, rev := b.rev + 1, dirty := false, modified := false)
  }

  lemma PollAnswered(b: Buffer, contents: map<nat, Text>, changed: bool, text: Option<Text>)
    requires InStep(b, contents)
    ensures PollTurn(b, changed, text, WorkerCommands.Polled(b, changed, text))
  {
    hide Utf8.Valid;
  }

  predicate ReloadAnswer(b: Buffer, allowed: bool, p: Text, text: Text, o: Outcome) {
    && (o.Answered? <==> allowed && !b.paged)
    && (o.Failed? ==> Unedited(b, o.next))
    && (o.Answered? ==> o.accepted && o.next == b.(live := text, text := text, rev := b.rev + 1, dirty := false,
                                                   modified := false, path := Some(p), recoveryPath := Some(p)))
  }

  lemma ReloadAnswered(b: Buffer, contents: map<nat, Text>, allowed: bool, p: Text, text: Text)
    requires InStep(b, contents)
    ensures ReloadAnswer(b, allowed, p, text, Reloaded(b, allowed, p, text))
  {
    hide Utf8.Valid;
  }

  predicate SyncAnswer(b: Buffer, o: Outcome) {
    && (o.Answered? <==> !b.paged) && Unedited(b, o.next)
    && (o.Answered? ==> o.accepted && o.next.dirty == b.modified)
  }

  lemma SyncAnsweredAs(b: Buffer, contents: map<nat, Text>)
    requires InStep(b, contents)
    ensures SyncAnswer(b, SyncAnswered(b)) && Unedited(b, Synced(b)) && Synced(b).dirty == b.modified
  {
    hide Utf8.Valid;
  }

  /** No command from another revision is accepted, and none changes text, revision or journal:
      what another writer did since is never overwritten unseen. */
  lemma StaleRefused(b: Buffer, contents: map<nat, Text>, baseRev: nat, text: Text, edits: seq<RangeEdit>,
                     view: Option<Viewport>, selection: Selection, action: Action, control: Control,
                     works: bool, modified: bool, dest: Option<Text>, disk: Option<nat>, allowed: bool)
    requires InStep(b, contents) && baseRev != b.rev && ValidEdits(edits) && FromFresh(b.live, action)
    ensures var outcomes := [Edited(b, baseRev, text), Ranged(b, disk, baseRev, edits, view, selection),
                             Acted(b, baseRev, action, selection), Formatted(b, baseRev, works, text, modified),
                             Controlled(b, baseRev, control)];
      forall o :: o in outcomes ==> !Accepted(o) && Unedited(b, o.next)
    ensures !Writes(b, baseRev, dest, disk, allowed)
  {
    hide Edited;
    hide Ranged;
    hide Acted;
    hide Formatted;
    hide Controlled;
    hide InStep;
    hide PagedServed;
    hide PlainServed;
    EditAnswered(b, contents, baseRev, text);
    RangeAnswered(b, contents, disk, baseRev, edits, view, selection);
    ActionAnswered(b, contents, baseRev, action, selection);
    FormatAnswered(b, contents, baseRev, works, text, modified);
    ControlAnswered(b, contents, baseRev, control);
    SaveAnswered(b, contents, baseRev, dest, disk, allowed, 0, Aftermath(text, modified, text));
  }
}
