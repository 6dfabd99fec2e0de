/** A fully loaded daemon buffer: revisioned range edits over Fresh's live text. */
module TextBuffer {
  import opened Utf8
  import opened Wrappers
  import opened Edits

  datatype Selection = Selection(anchor: nat, head: nat)

  predicate SelectionFits(t: Text, s: Selection) {
    s.anchor <= |t| && s.head <= |t| && IsBoundary(t, s.anchor) && IsBoundary(t, s.head)
  }

  /** What a request does to a buffer at `rev` holding `text`. */
  datatype Served = Stale | Refused | Applied(text: Text)

  function Serve(rev: nat, text: Text, baseRev: nat, edits: seq<RangeEdit>, selection: Selection): Served {
    if rev != baseRev then Stale
    else match ApplyEdits(text, edits)
      case None => Refused
      case Some(working) => if SelectionFits(working, selection) then Applied(working) else Refused
  }

  /** A request is stale exactly under another revision; of the others those are accepted whose
      edits fit in turn, within the limit, and whose selection fits the result. */
  lemma ServedExactly(rev: nat, text: Text, baseRev: nat, edits: seq<RangeEdit>, selection: Selection)
    ensures var served := Serve(rev, text, baseRev, edits, selection);
      && (served.Stale? <==> rev != baseRev)
      && (served.Applied? <==>
            && rev == baseRev && (forall k :: 0 <= k < |edits| ==> InLimit(text, edits, k))
            && Sequential(text, edits).Some?
            && var after := Sequential(text, edits).value;
               && selection.anchor <= |after| && IsBoundary(after, selection.anchor)
               && selection.head <= |after| && IsBoundary(after, selection.head))
      && (served.Applied? ==> Sequential(text, edits) == Some(served.text))
  {
    hide IsBoundary;
    hide InLimit;
    AcceptedExactly(text, edits);
    LimitOnlyRefuses(text, edits);
  }

  datatype Transaction = Transaction(accepted: bool, rev: nat, text: Text, dirty: bool)

  datatype EditError = InvalidRange | TooLarge | BadSelection

  /** Validate and apply every edit on a copy, each on the result of the one before. */
  method ApplyAll(initial: Text, edits: seq<RangeEdit>) returns (r: Result<Text, EditError>)
    requires Utf8.Valid(initial) && |initial| <= MAX_SNAPSHOT_BYTES && ValidEdits(edits)
    ensures match ApplyEdits(initial, edits)
      case None => r.Err?
      case Some(working) => r == Ok(working) && Utf8.Valid(working) && |working| <= MAX_SNAPSHOT_BYTES
  {
    hide Utf8.Valid;
    var working, i := initial, 0;
    while i < |edits|
      invariant i <= |edits| && Utf8.Valid(working) && |working| <= MAX_SNAPSHOT_BYTES
      invariant ApplyEdits(initial, edits) == ApplyEdits(working, edits[i..])
    {
      var e := edits[i];
      assert edits[i..][0] == e && edits[i..][1..] == edits[i + 1..];
      if !Fits(working, e) {
        return Err(InvalidRange);
      }
      SpliceValid(working, e.start, e.end, e.text);
      working := Splice(working, e.start, e.end, e.text);
      if |working| > MAX_SNAPSHOT_BYTES {
        return Err(TooLarge);
      }
      i := i + 1;
    }
    r := Ok(working);
  }

  /** One delete and one insert with the effect of all the edits: the very replacement the
      client's diff of the same two texts names. */
  method NetEvents(initial: Text, working: Text) returns (events: seq<Event>)
    ensures ApplyEvents(initial, events) == Some(working)
    ensures forall d: seq<RangeEdit> {:trigger IsDiff(initial, working, d)} ::
      IsDiff(initial, working, d) && d != [] ==>
      events == ReplacementEvents(d[0].start, d[0].end, d[0].text)
  {
    var prefix, oldEnd, newEnd := Collapse(initial, working);
    events := ReplacementEvents(prefix, oldEnd, working[prefix..newEnd]);
    CommonEndsRebuild(initial, working, prefix, |initial| - oldEnd);
    EventsSplice(initial, prefix, oldEnd, working[prefix..newEnd]);
    ghost var own := [RangeEdit(prefix, oldEnd, working[prefix..newEnd])];
    forall d: seq<RangeEdit> | IsDiff(initial, working, d) && d != [] ensures d == own {
      assert IsDiff(initial, working, own);
      DiffUnique(initial, working, d, own);
    }
  }

  class TextBuffer {
    var live: Text       // Fresh's buffer, which Fresh may also change on its own
    var modified: bool   // Fresh's modified flag
    var text: Text
    var rev: nat
    var dirty: bool

    ghost predicate Valid()
      reads this
    {
      Utf8.Valid(live) && |live| <= MAX_SNAPSHOT_BYTES
    }

    /** Take over a change Fresh made on its own; it gets a revision of its own. */
    method SyncFreshText()
      modifies this
      ensures live == old(live) && modified == old(modified)
      ensures text == live && dirty == modified
      ensures rev == if old(text) == live then old(rev) else old(rev) + 1
    {
      dirty := modified;
      if text != live {
        text, rev := live, rev + 1;
      }
    }

    /** Compare-and-swap on the revision. Every edit is checked before Fresh is touched; Fresh
        then gets one delete and one insert, whose effect is that of all the edits in turn. */
    method RangeEdit(baseRev: nat, edits: seq<RangeEdit>, selection: Selection)
      returns (r: Result<Transaction, EditError>)
      requires Valid() && ValidEdits(edits)
      modifies this
      ensures Valid() && text == live
      ensures var rev0 := if old(text) == old(live) then old(rev) else old(rev) + 1;
        match Serve(rev0, old(live), baseRev, edits, selection)
        case Stale =>
          && r == Ok(Transaction(false, rev, live, dirty))
          && live == old(live) && rev == rev0 && dirty == modified == old(modified)
        case Refused =>
          && r.Err?
          && live == old(live) && rev == rev0 && dirty == modified == old(modified)
        case Applied(working) =>
          && r == Ok(Transaction(true, rev, working, dirty))
          && live == working
          && rev == (if working == old(live) then rev0 else rev0 + 1)
          && dirty == modified == (working != old(live) || old(modified))
    {
      SyncFreshText();
      var initial := live;
      if rev != baseRev {
        return Ok(Transaction(false, rev, live, dirty));
      }
      var applied := ApplyAll(initial, edits);
      if applied.Err? {
        return Err(applied.error);
      }
      var working := applied.value;
      if !SelectionFits(working, selection) {
        return Err(BadSelection);
      }
      var events := NetEvents(initial, working);
      live := ApplyEvents(initial, events).value;
      if working != initial {
        modified := true;
        rev := rev + 1;
        dirty := true;
      }
      text := working;
      r := Ok(Transaction(true, rev, live, dirty));
    }
  }
}
