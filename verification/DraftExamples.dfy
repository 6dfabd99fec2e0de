/** Worlds the editor worker can get into, and what restoring a draft then fails to show. */
module DraftExamples {
  import opened Utf8
  import opened Wrappers
  import opened Edits
  import opened Pages
  import opened TextBuffer
  import opened PagedEdits
  import opened JournalReplay
  import opened WorkerCommands
  import opened DraftStore
  import opened DraftRestore
  import opened DraftLifecycle

  const WORKSPACE: Text := [119]
  const FILE: Text := [102]

  /** One file, over the limit or not, and the paged drafts of one workspace. */
  function WorldOf(text: Text, drafts: seq<Draft>, b: Buffer): World {
    World(map[File(WORKSPACE, true, Live) := Records(drafts)], map[FILE := 0], map[0 := text], 1, map[0 := b])
  }

  lemma WorldReady(text: Text, drafts: seq<Draft>, b: Buffer)
    requires Utf8.Valid(text) && Distinct(drafts) && forall d :: d in drafts ==> DraftOk(d, map[0 := text])
    ensures var w := WorldOf(text, drafts, b);
      && Ready(w) && (forall id :: Get(w.disk, WORKSPACE, id) == Ok(Find(drafts, id)))
      && (Recoverable(w) <==> Kept(w, 0))
  {
    hide DraftOk;
    hide Utf8.Valid;
    hide Merged;
    hide InStep;
    hide Find;
    hide Distinct;
    var w := WorldOf(text, drafts, b);
    forall v, id
      ensures Get(w.disk, v, id) == Ok(if v == WORKSPACE then Find(drafts, id) else None)
      ensures Find(drafts, id).Some? ==> DraftOk(Find(drafts, id).value, map[0 := text])
    {
      GetIs(w.disk, v, id);
      FindAbsent(drafts, id);
      FindAbsent([], id);
    }
  }

  // ---- Drafts that insert a byte at the start of the file ----------------------------------

  function Prepending(c: byte): Logged {
    Logged(Viewport(0, 0), [RangeEdit(0, 0, [c])])
  }

  function PrependingDraft(id: Text, c: byte): Draft {
    Draft(id, Some(FILE), [], Some(PagedDraft(0, [Prepending(c)])))
  }

  lemma {:induction false} AsciiValid(text: Text)
    requires forall i :: 0 <= i < |text| ==> text[i] < 0x80
    ensures Utf8.Valid(text)
  {
    if text != [] {
      AsciiValid(text[1..]);
    }
  }

  lemma Prepended(doc: Text, prior: nat, c: byte)
    requires prior <= 1024
    ensures Advance(doc, prior, [Prepending(c)]) == ([c] + doc, [Prepending(c)], true)
    ensures JournalCost([Prepending(c)]) == 33
  {
    var t := Prepending(c);
    assert PageAt(doc, 0, 0) == Ok(Page(0, []));
    assert t.edits[1..] == [];
    assert PagedEdits.Inserted(t.edits) == 1 && Deleted(t.edits) == 0 && Cost(t.edits) == 33;
    var empty: Text := [];
    assert Splice(empty, 0, 0, [c]) == [c];
    assert ViewEdits(0, t.viewport, 0, [], t.edits) == Some([c]);
    assert doc[..0] == [] && doc[0..] == doc && [] + [c] + doc == [c] + doc;
    assert Transact(doc, prior, t.viewport, t.edits, Selection(0, 0)) == Some([c] + doc);
    assert |[c] + doc| != |doc| && [t][1..] == [] && [t] + [] == [t];
    JournalCostOne(t);
  }

  lemma PrependingOk(id: Text, c: byte, text: Text)
    requires c < 0x80 && Utf8.Valid(text)
    ensures var draft := PrependingDraft(id, c);
      DraftOk(draft, map[0 := text]) && Recovered(draft, map[0 := text]) == Some([c] + text)
  {
    hide Utf8.Valid;
    hide Transact;
    hide PageAt;
    EmptyIsValid();
    AsciiValid([c]);
    Prepended(text, 0, c);
    AdvanceReplays(text, 0, [Prepending(c)]);
  }

  /** The paged buffer of the file after such an edit. */
  lemma PrependedInStep(text: Text, b: Buffer)
    requires Utf8.Valid(text) && b.paged && b.generation == Some(0) && b.text == [] && b.dirty && b.modified
    requires b.journal == [Prepending(121)] && b.live == [121] + text
    ensures InStep(b, map[0 := text])
  {
    hide Utf8.Valid;
    hide Replays;
    hide Advance;
    AsciiValid([121]);
    ValidConcat([121], text);
    Prepended(text, 0, 121);
    AdvanceReplays(text, 0, b.journal);
  }

  // ---- Opened before the draft is restored ---------------------------------------------------

  function Large(): Text {
    seq(MAX_SNAPSHOT_BYTES + 1, i => 120)
  }

  lemma LargeValid()
    ensures Utf8.Valid(Large())
  {
    AsciiValid(Large());
  }

  /** The file was opened after a crash; restoring its draft hands the unedited buffer back. */
  lemma OpenedFirstHides()
    ensures var draft, b := PrependingDraft(NamedId(WORKSPACE, FILE), 121), OpenedOn(WORKSPACE, FILE, 0, Large());
      var w := WorldOf(Large(), [draft], b);
      && Recoverable(w) && Recovered(draft, w.contents).Some? && Recovered(draft, w.contents) != Some(b.live)
      && forall target, untitled, works ::
           Planned(w, WORKSPACE, draft.id, target, untitled, works) == AlreadyOpen(draft)
  {
    hide Utf8.Valid;
    hide Large;
    hide Recovered;
    hide DraftOk;
    hide Get;
    var draft, b := PrependingDraft(NamedId(WORKSPACE, FILE), 121), OpenedOn(WORKSPACE, FILE, 0, Large());
    var w := WorldOf(Large(), [draft], b);
    LargeIs();
    LargeValid();
    PrependingOk(draft.id, 121, Large());
    WorldReady(Large(), [draft], b);
    OpenedInStep(WORKSPACE, FILE, 0, w.contents);
    assert |[121 as byte] + Large()| != |Large()|;
    assert Find([draft], draft.id) == Some(draft);
    assert Holds(w.buffers[0], draft);
  }

  lemma LargeIs()
    ensures |Large()| == MAX_SNAPSHOT_BYTES + 1
  {
  }

  // ---- Stacked journals ------------------------------------------------------------------------

  /** The open file was edited; another draft of the same file, left from before it was saved under
      this name, is then restored on top of the edits, and shows neither. */
  lemma StackedJournals()
    ensures var draft := PrependingDraft(NamedId(WORKSPACE, FILE), 121);
      var other := PrependingDraft(NamedId(WORKSPACE, FILE + FILE), 122);
      var b := OpenedOn(WORKSPACE, FILE, 0, Large()).(rev := 1, live := [121] + Large(), journal := [Prepending(121)],
                                                      dirty := true, modified := true);
      var w := WorldOf(Large(), [draft, other], b);
      && Recoverable(w)
      && forall untitled :: var plan := Planned(w, WORKSPACE, other.id, 0, untitled, true);
           && plan.Into? && plan.outcome.Answered? && plan.outcome.next.live == [122, 121] + Large()
           && Recovered(other, w.contents) == Some([122] + Large())
           && plan.outcome.next.live != [122] + Large()
  {
    hide Utf8.Valid;
    hide Large;
    hide Recovered;
    hide DraftOk;
    hide Get;
    hide Advance;
    hide Replays;
    hide JournalCost;
    var draft := PrependingDraft(NamedId(WORKSPACE, FILE), 121);
    var other := PrependingDraft(NamedId(WORKSPACE, FILE + FILE), 122);
    var b := OpenedOn(WORKSPACE, FILE, 0, Large()).(rev := 1, live := [121] + Large(), journal := [Prepending(121)],
                                                    dirty := true, modified := true);
    var w := WorldOf(Large(), [draft, other], b);
    LargeIs();
    LargeValid();
    PrependingOk(draft.id, 121, Large());
    PrependingOk(other.id, 122, Large());
    assert |draft.id| != |other.id|;
    WorldReady(Large(), [draft, other], b);
    PrependedInStep(Large(), b);
    assert Find([draft, other], draft.id) == Some(draft);
    assert [draft, other][1..] == [other] && Find([draft, other], other.id) == Some(other);
    Prepended(Large(), 0, 121);
    Prepended(b.live, 33, 122);
    assert [122] + b.live == [122, 121] + Large();
    assert |[122, 121] + Large()| != |[122] + Large()|;
    assert Kept(w, 0);
  }

  // ---- A paged buffer of a small file ------------------------------------------------------------

  /** A paged buffer, shrunk and saved within the limit and edited again, is recoverable as long as
      the editor runs. After a crash no restore brings it back. */
  lemma ShrunkIsLost()
    ensures var draft, text := PrependingDraft(NamedId(WORKSPACE, FILE), 121), [120];
      var b := OpenedOn(WORKSPACE, FILE, 0, text).(rev := 2, paged := true, generation := Some(0), text := [],
        live := [121] + text, journal := [Prepending(121)], dirty := true, modified := true);
      var w := WorldOf(text, [draft], b);
      && Recoverable(w)
      && forall target, untitled, works ::
           var plan := Planned(w.(buffers := map[]), WORKSPACE, b.draftId, target, untitled, works);
           !(plan.Into? && plan.outcome.Answered? && plan.outcome.next.live == b.live)
  {
    hide Utf8.Valid;
    hide Recovered;
    hide DraftOk;
    hide Get;
    hide Advance;
    hide Planned;
    hide InStep;
    var draft, text: Text := PrependingDraft(NamedId(WORKSPACE, FILE), 121), [120];
    var b := OpenedOn(WORKSPACE, FILE, 0, text).(rev := 2, paged := true, generation := Some(0), text := [],
      live := [121] + text, journal := [Prepending(121)], dirty := true, modified := true);
    var w := WorldOf(text, [draft], b);
    AsciiValid(text);
    PrependingOk(draft.id, 121, text);
    WorldReady(text, [draft], b);
    PrependedInStep(text, b);
    assert Find([draft], draft.id) == Some(draft);
    assert Kept(w, 0);
    forall target, untitled, works
      ensures var plan := Planned(w.(buffers := map[]), WORKSPACE, b.draftId, target, untitled, works);
        !(plan.Into? && plan.outcome.Answered? && plan.outcome.next.live == b.live)
    {
      CrashRestores(w, b, target, untitled, works);
      assert !GoesBack(w, draft, works);
    }
  }
}
