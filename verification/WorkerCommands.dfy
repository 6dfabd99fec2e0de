/** What the editing commands of the worker do to one open buffer: when it fails, when it
    answers, and what the buffer's fields are afterwards. Fresh's own edits come as parameters. */
module WorkerCommands {
  import opened Utf8
  import opened Wrappers
  import opened Edits
  import opened Pages
  import opened TextBuffer
  import opened PagedEdits
  import opened UniqueLines
  import opened Seqs

  /** A tracked buffer. `live` and `modified` are Fresh's text and modified flag; a paged buffer
      keeps no text of its own but a journal over the file with its generation. */
  datatype Buffer = Buffer(workspace: Text, draftId: Text, path: Option<Text>, recoveryPath: Option<Text>,
                           rev: nat, text: Text, dirty: bool, paged: bool, generation: Option<nat>,
                           journal: seq<Logged>, live: Text, modified: bool)

  /** An error, or an answer, which may still say that nothing was accepted. */
  datatype Outcome = Failed(next: Buffer) | Answered(accepted: bool, next: Buffer)

  predicate ValidJournal(journal: seq<Logged>) {
    forall t :: t in journal ==> ValidEdits(t.edits)
  }

  /** The fields say what Fresh shows: as text within the limit, or, paged, as a journal that
      replays to it from the contents of the source generation. */
  ghost predicate InStep(b: Buffer, contents: map<nat, Text>) {
    Utf8.Valid(b.live) &&
    if b.paged then
      && b.generation.Some? && b.generation.value in contents && b.text == [] && ValidJournal(b.journal)
      && Replays(contents[b.generation.value], 0, b.journal, b.live, JournalCost(b.journal))
      && b.dirty == b.modified && (b.dirty <==> b.journal != [])
    else
      && b.generation == None && b.journal == [] && b.text == b.live && |b.live| <= MAX_SNAPSHOT_BYTES
      && (b.modified ==> b.dirty)
  }

  // ---- Commands -----------------------------------------------------------------------

  /** `sync_fresh_text`. */
  function Synced(b: Buffer): Buffer {
    if |b.live| > MAX_SNAPSHOT_BYTES || b.paged then b.(paged := true, dirty := b.modified)
    else b.(text := b.live, dirty := b.modified, rev := if b.text == b.live then b.rev else b.rev + 1)
  }

  /** Fresh's text replaced, and recorded. */
  function Rewritten(b: Buffer, text: Text, dirty: bool, modified: bool): Buffer {
    b.(live := text, text := text, rev := b.rev + 1, dirty := dirty, modified := modified)
  }

  /** `edit_buffer`: the whole text at once. */
  function Edited(b: Buffer, baseRev: nat, text: Text): Outcome {
    if b.paged || |text| > MAX_SNAPSHOT_BYTES then Failed(b)
    else
      var s := Synced(b);
      if s.rev != baseRev then Failed(s)
      else Answered(true, Rewritten(s, text, true, s.modified || s.live != text))
  }

  /** `range_edit_buffer`; `disk` is the present generation of the buffer's file. */
  function Ranged(b: Buffer, disk: Option<nat>, baseRev: nat, edits: seq<RangeEdit>, view: Option<Viewport>,
                  selection: Selection): Outcome
  {
    if b.paged then PagedRanged(b, disk, baseRev, edits, view, selection)
    else
      var s := Synced(b);
      if |s.live| > MAX_SNAPSHOT_BYTES then Failed(s)
      else match Serve(s.rev, s.live, baseRev, edits, selection)
        case Stale => Answered(false, s)
        case Refused => Failed(s)
        case Applied(text) => Answered(true, if text == s.live then s else Rewritten(s, text, true, true))
  }

  predicate PageServed(b: Buffer, disk: Option<nat>, viewport: Viewport) {
    b.generation.Some? && b.generation == disk && PageAt(b.live, viewport.start, viewport.len).Ok?
  }

  /** `paged_range_edit`. */
  function PagedRanged(b: Buffer, disk: Option<nat>, baseRev: nat, edits: seq<RangeEdit>, view: Option<Viewport>,
                       selection: Selection): Outcome
  {
    if view == None || view.value.start > |b.live| || view.value.len > MAX_PAGE_BYTES then Failed(b)
    else if b.rev != baseRev || edits == [] then
      if PageServed(b, disk, view.value) then Answered(b.rev == baseRev, b) else Failed(b)
    else if b.generation == None || b.generation != disk then Failed(b)
    else
      match Transact(b.live, JournalCost(b.journal), view.value, edits, selection)
      case None => Failed(b)
      case Some(doc) => Answered(true, if doc == b.live then b else Journaled(b, doc, Logged(view.value, edits)))
  }

  function Journaled(b: Buffer, doc: Text, t: Logged): Buffer {
    b.(live := doc, journal := b.journal + [t], text := [], rev := b.rev + 1, dirty := true, modified := true)
  }

  /** Deduplication is the worker's own. The rest is Fresh's: a move, events it proposes for a
      smart edit, the events of commenting (with the length of a comment prefix and its space),
      or whatever text its undo log has; the last three leave some modified flag. */
  datatype Action =
    | Deduplicate
    | Move
    | Smart(works: bool, events: seq<Event>, modified: bool)
    | ToggleComment(prefix: nat, events: seq<Event>, modified: bool)
    | UndoRedo(text: Text, modified: bool)

  function Added(events: seq<Event>): nat {
    if events == [] then 0 else (if events[0].Insert? then |events[0].text| else 0) + Added(events[1..])
  }

  function Removed(events: seq<Event>): int {
    if events == [] then 0
    else (if events[0].Delete? then events[0].end - events[0].start else 0) + Removed(events[1..])
  }

  /** The worker's estimate of a smart edit, with a saturating subtraction, is within the limit. */
  predicate SmartFits(text: Text, events: seq<Event>) {
    (if Removed(events) <= |text| then |text| - Removed(events) else 0) + Added(events) <= MAX_SNAPSHOT_BYTES
  }

  function LineCount(text: Text): nat {
    if text == [] then 1 else |Lines(text)|
  }

  /** However a text divides into lines, they are counted; an empty text has one to comment. */
  lemma LineCountIs(lines: seq<Text>)
    requires AreLines(lines)
    ensures LineCount(Flatten(lines)) == if lines == [] then 1 else |lines|
  {
    hide Lines;
    hide Flatten;
    hide AreLines;
    LinesUnique(lines);
    if lines == [] {
      FlattenNone<byte>();
    } else {
      LinesText(lines);
    }
  }

  lemma LinesText(lines: seq<Text>)
    requires AreLines(lines) && lines != []
    ensures Flatten(lines) != []
  {
    hide Lines;
    assert IsLine(lines[0]);
    FlattenCons(lines[0], lines[1..]);
    assert lines == [lines[0]] + lines[1..];
  }

  /** Room for a prefix on every line. */
  predicate CommentFits(text: Text, prefix: nat) {
    |text| + LineCount(text) * prefix <= MAX_SNAPSHOT_BYTES
  }

  /** What Fresh leaves is text; commenting puts at most one prefix on each line. */
  predicate FromFresh(text: Text, action: Action) {
    match action
    case Smart(_, events, _) => ApplyEvents(text, events).Some? ==> Utf8.Valid(ApplyEvents(text, events).value)
    case ToggleComment(prefix, events, _) =>
      && (ApplyEvents(text, events).Some? ==> Utf8.Valid(ApplyEvents(text, events).value))
      && |events| <= LineCount(text) && forall e :: e in events && e.Insert? ==> |e.text| <= prefix
    case UndoRedo(restored, _) => Utf8.Valid(restored)
    case _ => true
  }

  /** Fresh applies its events, and the worker takes the text over. */
  function Dispatched(s: Buffer, events: seq<Event>, modified: bool): Outcome {
    match ApplyEvents(s.live, events)
    case None => Failed(s)
    case Some(text) => Answered(true, Synced(s.(live := text, modified := modified)))
  }

  /** `action_buffer`. */
  function Acted(b: Buffer, baseRev: nat, action: Action, selection: Selection): Outcome {
    if b.paged then Failed(b)
    else
      var s := Synced(b);
      if s.rev != baseRev then Answered(false, s)
      else if !SelectionFits(s.live, selection) then Failed(s)
      else match action
        case Deduplicate =>
          (match Deduplicated(s.live, selection)
           case None => Answered(true, s)
           case Some((e, next)) => Ranged(s, None, baseRev, [e], None, next))
        case Move => Answered(true, s)
        case Smart(works, events, modified) =>
          if works && SmartFits(s.live, events) then Dispatched(s, events, modified) else Failed(s)
        case ToggleComment(prefix, events, modified) =>
          if CommentFits(s.live, prefix) then Dispatched(s, events, modified) else Failed(s)
        case UndoRedo(text, modified) => Answered(true, Synced(s.(live := text, modified := modified)))
  }

  /** `sync_buffer`. */
  function SyncAnswered(b: Buffer): Outcome {
    if b.paged then Failed(b) else Answered(true, Synced(b))
  }

  /** `format_buffer`; accepted when the formatter changed something. */
  function Formatted(b: Buffer, baseRev: nat, works: bool, text: Text, modified: bool): Outcome {
    if b.paged then Failed(b)
    else
      var s := Synced(b);
      if s.rev != baseRev || !works then Failed(s)
      else if text == s.live then Answered(false, s)
      else Answered(true, Rewritten(s, text, true, modified))
  }

  /** Inspect, a change of encoding or line ending, or rereading the file. */
  datatype Control = Inspect | Recode(works: bool, text: Text, modified: bool) | Reopen(works: bool, text: Text)

  /** `file_control`. */
  function Controlled(b: Buffer, baseRev: nat, control: Control): Outcome {
    var s := Synced(b);
    if s.rev != baseRev then Failed(s)
    else match control
      case Inspect => Answered(true, s)
      case Recode(works, text, modified) =>
        if s.paged || !works then Failed(s) else Answered(true, Rewritten(s, text, modified, modified))
      case Reopen(works, text) =>
        if s.paged || s.modified || s.dirty || !works then Failed(s)
        else Answered(true, Rewritten(s, text, false, false))
  }

  /** What a write and the on-save actions after it leave: Fresh's text and modified flag, and
      the file. */
  datatype Aftermath = Aftermath(text: Text, modified: bool, written: Text)

  function OwnPath(b: Buffer): Option<Text> {
    if b.path.Some? then b.path else b.recoveryPath
  }

  function SaveTarget(b: Buffer, dest: Option<Text>): Option<Text> {
    if dest.Some? then dest else OwnPath(b)
  }

  /** A save gets as far as writing: right revision, a place to go, an intact paged source
      (`disk` is its present generation), and leave of the guard against replacing other text. */
  predicate Writes(b: Buffer, baseRev: nat, dest: Option<Text>, disk: Option<nat>, allowed: bool) {
    var s := Synced(b);
    && s.rev == baseRev && SaveTarget(s, dest).Some? && allowed
    && (s.paged ==> OwnPath(s).Some? && s.generation.Some? && s.generation == disk)
  }

  /** What a save leaves: a paged buffer is written as it is and runs no on-save actions. */
  function Effects(b: Buffer, done: Aftermath): Aftermath {
    if b.paged then Aftermath(b.live, false, b.live) else done
  }

  /** `save_buffer` after the write, at generation `g`. */
  function SavedAs(b: Buffer, dest: Option<Text>, g: nat, done: Aftermath): Buffer {
    var s := Synced(b);
    var p := SaveTarget(s, dest);
    var e := Effects(s, done);
    var paged := |e.text| > MAX_SNAPSHOT_BYTES || s.paged;
    s.(path := p, recoveryPath := p, rev := s.rev + 1, live := e.text, modified := e.modified, journal := [],
       paged := paged, text := if paged then [] else e.text, generation := if paged then Some(g) else None,
       dirty := e.modified || (!paged && e.written != e.text))
  }

  /** One buffer's turn in `poll_external_changes`; `text` is what a changed file decodes to. */
  function Polled(b: Buffer, changed: bool, text: Option<Text>): Buffer {
    if !changed || b.paged then b
    else
      var s := Synced(b);
      if s.dirty then s
      else if text == None then s.(dirty := true, modified := true)
      else Rewritten(s, text.value, false, false)
  }

  /** A Reload resolution: the buffer becomes one of the noticed file `p`. */
  function Reloaded(b: Buffer, allowed: bool, p: Text, text: Text): Outcome {
    var s := Synced(b);
    if !allowed || s.paged then Failed(s)
    else Answered(true, Rewritten(s, text, false, false).(path := Some(p), recoveryPath := Some(p)))
  }

  predicate SameKey(a: Buffer, b: Buffer) {
    a.workspace == b.workspace && a.draftId == b.draftId
  }

  /** Nothing that a stored draft of `b` would not still bring back. */
  predicate Quiet(b: Buffer, next: Buffer) {
    next.live == b.live && (next.dirty ==> b.dirty)
  }

  // ---- Buffers stay in step -----------------------------------------------------------

  /** Without edits of Fresh's own a sync only ever lowers the dirty flag. */
  lemma SyncedInStep(b: Buffer, contents: map<nat, Text>)
    requires InStep(b, contents)
    ensures var s := Synced(b); InStep(s, contents) && s == b.(dirty := b.modified) && (s.dirty ==> b.dirty)
  {
    hide Utf8.Valid;
  }

  lemma EditedInStep(b: Buffer, contents: map<nat, Text>, baseRev: nat, text: Text)
    requires InStep(b, contents) && Utf8.Valid(text)
    ensures var o := Edited(b, baseRev, text);
      InStep(o.next, contents) && SameKey(o.next, b) && (o.Failed? ==> Quiet(b, o.next))
  {
    hide Utf8.Valid;
  }

  lemma {:induction false} ApplyEditsBounded(t: Text, edits: seq<RangeEdit>)
    requires |t| <= MAX_SNAPSHOT_BYTES && ApplyEdits(t, edits).Some?
    ensures |ApplyEdits(t, edits).value| <= MAX_SNAPSHOT_BYTES
    decreases |edits|
  {
    if edits != [] {
      ApplyEditsBounded(Splice(t, edits[0].start, edits[0].end, edits[0].text), edits[1..]);
    }
  }

  lemma RangedInStep(b: Buffer, contents: map<nat, Text>, disk: Option<nat>, baseRev: nat, edits: seq<RangeEdit>,
                     view: Option<Viewport>, selection: Selection)
    requires InStep(b, contents) && ValidEdits(edits)
    ensures var o := Ranged(b, disk, baseRev, edits, view, selection);
      && InStep(o.next, contents) && SameKey(o.next, b)
      && (o.Failed? || !o.accepted ==> Quiet(b, o.next))
  {
    hide Transact;
    hide Replays;
    hide PageAt;
    hide JournalCost;
    hide ApplyEdits;
    hide SelectionFits;
    hide Utf8.Valid;
    hide ValidEdits;
    if !b.paged && ApplyEdits(b.live, edits).Some? {
      ApplyEditsBounded(b.live, edits);
      ApplyEditsValid(b.live, edits);
    }
    if b.paged && view.Some? && edits != [] {
      var next := Transact(b.live, JournalCost(b.journal), view.value, edits, selection);
      if next.Some? && next.value != b.live {
        var t := Logged(view.value, edits);
        TransactIsSequential(b.live, JournalCost(b.journal), view.value, edits, selection);
        ReplaysSnoc(contents[b.generation.value], 0, b.journal, b.live, JournalCost(b.journal), t, selection);
        JournalCostSnoc(b.journal, t);
      }
    }
  }

  lemma {:induction false} EventsLength(text: Text, events: seq<Event>)
    requires ApplyEvents(text, events).Some?
    ensures |ApplyEvents(text, events).value| == |text| + Added(events) - Removed(events)
    decreases |events|
  {
    if events != [] {
      EventsLength(ApplyEvent(text, events[0]), events[1..]);
    }
  }

  /** The guard on smart edits lets no text over the limit through, and refuses no other, unless
      more is removed than there was. */
  lemma SmartGuard(text: Text, events: seq<Event>)
    requires ApplyEvents(text, events).Some?
    ensures SmartFits(text, events) ==> |ApplyEvents(text, events).value| <= MAX_SNAPSHOT_BYTES
    ensures Removed(events) <= |text| ==>
      (SmartFits(text, events) <==> |ApplyEvents(text, events).value| <= MAX_SNAPSHOT_BYTES)
  {
    EventsLength(text, events);
  }

  lemma {:induction false} AddedBounded(events: seq<Event>, prefix: nat)
    requires forall e :: e in events && e.Insert? ==> |e.text| <= prefix
    ensures Added(events) <= |events| * prefix
  {
    if events != [] {
      assert events[0] in events && forall e :: e in events[1..] ==> e in events;
      AddedBounded(events[1..], prefix);
      TimesNext(|events[1..]|, prefix);
    }
  }

  lemma TimesNext(n: nat, c: nat)
    ensures (n + 1) * c == n * c + c
  {
  }

  lemma {:induction false} RemovedCounts(text: Text, events: seq<Event>)
    requires ApplyEvents(text, events).Some?
    ensures Removed(events) >= 0
    decreases |events|
  {
    if events != [] {
      RemovedCounts(ApplyEvent(text, events[0]), events[1..]);
    }
  }

  /** Nor does the guard on commenting. */
  lemma CommentGuard(text: Text, prefix: nat, events: seq<Event>)
    requires ApplyEvents(text, events).Some? && CommentFits(text, prefix)
    requires |events| <= LineCount(text) && forall e :: e in events && e.Insert? ==> |e.text| <= prefix
    ensures |ApplyEvents(text, events).value| <= MAX_SNAPSHOT_BYTES
  {
    hide LineCount;
    hide ApplyEvents;
    EventsLength(text, events);
    AddedBounded(events, prefix);
    RemovedCounts(text, events);
    TimesAtMost(|events|, LineCount(text), prefix);
  }

  lemma TimesAtMost(a: nat, b: nat, c: nat)
    requires a <= b
    ensures a * c <= b * c
  {
  }

  /** Only undo and redo can put a buffer out of step: exactly by going back to a text over the
      limit. */
  lemma ActedInStep(b: Buffer, contents: map<nat, Text>, baseRev: nat, action: Action, selection: Selection)
    requires InStep(b, contents) && FromFresh(b.live, action)
    ensures var o := Acted(b, baseRev, action, selection);
      && SameKey(o.next, b) && o.next.journal == b.journal && Utf8.Valid(o.next.text)
      && (o.Failed? || !o.accepted ==> Quiet(b, o.next))
    ensures var o := Acted(b, baseRev, action, selection);
      InStep(o.next, contents) <==>
      (o.Answered? && o.accepted && action.UndoRedo? ==> |action.text| <= MAX_SNAPSHOT_BYTES)
  {
    hide Utf8.Valid;
    hide Deduplicated;
    hide Replays;
    hide JournalCost;
    hide PagedRanged;
    hide Serve;
    hide SelectionFits;
    hide ApplyEvents;
    hide SmartFits;
    hide CommentFits;
    hide Lines;
    EmptyIsValid();
    match action
    case Deduplicate =>
      if Deduplicated(b.live, selection).Some? {
        var (e, next) := Deduplicated(b.live, selection).value;
        DeduplicatedFits(b.live, selection);
        RangedInStep(Synced(b), contents, None, baseRev, [e], None, next);
      }
    case Smart(works, events, _) =>
      if ApplyEvents(b.live, events).Some? {
        SmartGuard(b.live, events);
      }
    case ToggleComment(prefix, events, _) =>
      if ApplyEvents(b.live, events).Some? && CommentFits(b.live, prefix) {
        CommentGuard(b.live, prefix, events);
      }
    case _ =>
  }

  /** A formatter keeps the buffer in step exactly if its text is within the limit. */
  lemma FormattedInStep(b: Buffer, contents: map<nat, Text>, baseRev: nat, works: bool, text: Text, modified: bool)
    requires InStep(b, contents) && Utf8.Valid(text)
    ensures var o := Formatted(b, baseRev, works, text, modified);
      && SameKey(o.next, b) && o.next.journal == b.journal && Utf8.Valid(o.next.text)
      && (o.Failed? || !o.accepted ==> Quiet(b, o.next))
    ensures var o := Formatted(b, baseRev, works, text, modified);
      InStep(o.next, contents) <==> (o.Answered? && o.accepted ==> |text| <= MAX_SNAPSHOT_BYTES)
  {
    hide Utf8.Valid;
    EmptyIsValid();
  }

  lemma ControlledInStep(b: Buffer, contents: map<nat, Text>, baseRev: nat, control: Control)
    requires InStep(b, contents) && (!control.Inspect? ==> Utf8.Valid(control.text))
    ensures var o := Controlled(b, baseRev, control);
      && SameKey(o.next, b) && o.next.journal == b.journal && Utf8.Valid(o.next.text)
      && (o.Failed? ==> Quiet(b, o.next))
    ensures var o := Controlled(b, baseRev, control);
      InStep(o.next, contents) <==> (o.Answered? && !control.Inspect? ==> |control.text| <= MAX_SNAPSHOT_BYTES)
  {
    hide Utf8.Valid;
    EmptyIsValid();
  }

  /** A save does exactly if the text after the on-save actions is still within the limit, or is
      unmodified and what the file holds. */
  lemma SavedInStep(b: Buffer, contents: map<nat, Text>, dest: Option<Text>, g: nat, done: Aftermath)
    requires InStep(b, contents) && Utf8.Valid(done.text)
    ensures var t := SavedAs(b, dest, g, done);
      SameKey(t, b) && t.journal == [] && Utf8.Valid(t.text)
    ensures var e := Effects(Synced(b), done);
      InStep(SavedAs(b, dest, g, done), contents[g := e.written]) <==>
      |e.text| <= MAX_SNAPSHOT_BYTES || (e.text == e.written && !e.modified)
  {
    hide Utf8.Valid;
    EmptyIsValid();
  }

  lemma PolledInStep(b: Buffer, contents: map<nat, Text>, changed: bool, text: Option<Text>)
    requires InStep(b, contents) && (text.Some? ==> Utf8.Valid(text.value))
    ensures var next := Polled(b, changed, text);
      && SameKey(next, b) && next.journal == b.journal && Utf8.Valid(next.text)
      && (!changed ==> next == b)
    ensures InStep(Polled(b, changed, text), contents) <==>
      (changed && !b.paged && !b.modified && text.Some? ==> |text.value| <= MAX_SNAPSHOT_BYTES)
  {
    hide Utf8.Valid;
    EmptyIsValid();
  }

  lemma ReloadedInStep(b: Buffer, contents: map<nat, Text>, allowed: bool, p: Text, text: Text)
    requires InStep(b, contents) && Utf8.Valid(text)
    ensures var o := Reloaded(b, allowed, p, text);
      && SameKey(o.next, b) && o.next.journal == b.journal && Utf8.Valid(o.next.text)
      && (o.Failed? ==> Quiet(b, o.next))
    ensures var o := Reloaded(b, allowed, p, text);
      InStep(o.next, contents) <==> (o.Answered? ==> |text| <= MAX_SNAPSHOT_BYTES)
  {
    hide Utf8.Valid;
    EmptyIsValid();
  }
}
