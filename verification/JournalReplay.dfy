/** Replaying a journal on some document: which transactions take effect, how journals join, and
    when two documents replay to the same text. */
module JournalReplay {
  import opened Utf8
  import opened Wrappers
  import opened Edits
  import opened Pages
  import opened TextBuffer
  import opened PagedEdits

  /** How far a replay gets: the document, the transactions that changed it, and whether all were
      accepted. Only those that change something are recorded, and count towards the cost. */
  function Advance(doc: Text, prior: nat, journal: seq<Logged>): (Text, seq<Logged>, bool)
    decreases |journal|
  {
    if journal == [] then (doc, [], true)
    else
      var t := journal[0];
      match PageAt(doc, t.viewport.start, t.viewport.len)
      case Err(_) => (doc, [], false)
      case Ok(page) =>
        match Transact(doc, prior, t.viewport, t.edits, Selection(page.start, page.start))
        case None => (doc, [], false)
        case Some(next) =>
          if next == doc then Advance(doc, prior, journal[1..])
          else
            var (end, rest, ok) := Advance(next, prior + Cost(t.edits), journal[1..]);
            (end, [t] + rest, ok)
  }

  lemma {:induction false} JournalCostConcat(a: seq<Logged>, b: seq<Logged>)
    ensures JournalCost(a + b) == JournalCost(a) + JournalCost(b)
    decreases |b|
  {
    if b == [] {
      assert a + b == a;
    } else {
      var init, last := b[..|b| - 1], b[|b| - 1];
      JournalCostConcat(a, init);
      JournalCostSnoc(a + init, last);
      assert a + b == a + init + [last] && b == init + [last];
      JournalCostSnoc(init, last);
    }
  }

  lemma JournalCostOne(t: Logged)
    ensures JournalCost([t]) == Cost(t.edits)
  {
    assert [t][..0] == [];
  }

  /** What a replay did is itself a journal that replays step by step. */
  lemma {:induction false} AdvanceReplays(doc: Text, prior: nat, journal: seq<Logged>)
    ensures var (end, done, ok) := Advance(doc, prior, journal);
      && Replays(doc, prior, done, end, prior + JournalCost(done))
      && Replay(doc, prior, journal) == (if ok then Some(end) else None)
      && forall t :: t in done ==> t in journal
    decreases |journal|
  {
    hide Transact;
    hide PageAt;
    hide Cost;
    hide JournalCost;
    JournalCostNone();
    if journal != [] && PageAt(doc, journal[0].viewport.start, journal[0].viewport.len).Ok? {
      var t := journal[0];
      var at := PageAt(doc, t.viewport.start, t.viewport.len).value.start;
      var next := Transact(doc, prior, t.viewport, t.edits, Selection(at, at));
      if next.Some? && next.value == doc {
        AdvanceReplays(doc, prior, journal[1..]);
      } else if next.Some? {
        AdvanceReplays(next.value, prior + Cost(t.edits), journal[1..]);
        var rest := Advance(next.value, prior + Cost(t.edits), journal[1..]).1;
        assert ([t] + rest)[1..] == rest;
        JournalCostConcat([t], rest);
        JournalCostOne(t);
      }
    }
  }

  lemma JournalCostNone()
    ensures JournalCost([]) == 0
  {
  }

  /** A journal that replays step by step takes effect whole. */
  lemma {:induction false} ReplaysAdvance(doc: Text, prior: nat, journal: seq<Logged>, end: Text, cost: nat)
    requires Replays(doc, prior, journal, end, cost)
    ensures Advance(doc, prior, journal) == (end, journal, true)
    decreases |journal|
  {
    hide Transact;
    hide PageAt;
    hide Cost;
    if journal != [] {
      var t := journal[0];
      var at := PageAt(doc, t.viewport.start, t.viewport.len).value.start;
      var next := Transact(doc, prior, t.viewport, t.edits, Selection(at, at)).value;
      ReplaysAdvance(next, prior + Cost(t.edits), journal[1..], end, cost);
      assert journal == [t] + journal[1..];
    }
  }

  lemma {:induction false} ReplaysConcat(doc: Text, prior: nat, a: seq<Logged>, middle: Text, cost: nat,
                                         b: seq<Logged>, end: Text, total: nat)
    requires Replays(doc, prior, a, middle, cost) && Replays(middle, cost, b, end, total)
    ensures Replays(doc, prior, a + b, end, total)
    decreases |a|
  {
    hide Transact;
    hide PageAt;
    hide Cost;
    if a == [] {
      assert a + b == b;
    } else {
      var t := a[0];
      var at := PageAt(doc, t.viewport.start, t.viewport.len).value.start;
      var next := Transact(doc, prior, t.viewport, t.edits, Selection(at, at)).value;
      ReplaysConcat(next, prior + Cost(t.edits), a[1..], middle, cost, b, end, total);
      assert (a + b)[1..] == a[1..] + b;
    }
  }

  // ---- When two documents replay to the same text ---------------------------------------

  function AllEdits(journal: seq<Logged>): seq<RangeEdit> {
    if journal == [] then [] else journal[0].edits + AllEdits(journal[1..])
  }

  lemma {:induction false} SequentialConcat(doc: Text, a: seq<RangeEdit>, b: seq<RangeEdit>)
    requires Sequential(doc, a).Some?
    ensures Sequential(doc, a + b) == Sequential(Sequential(doc, a).value, b)
    decreases |a|
  {
    hide IsBoundary;
    if a == [] {
      assert a + b == b;
    } else {
      assert (a + b)[1..] == a[1..] + b;
      SequentialConcat(Splice(doc, a[0].start, a[0].end, a[0].text), a[1..], b);
    }
  }

  /** A replay that goes through is the sequence of all its edits. */
  lemma {:induction false} ReplayIsSequential(doc: Text, prior: nat, journal: seq<Logged>)
    requires Utf8.Valid(doc) && forall t :: t in journal ==> ValidEdits(t.edits)
    requires Replay(doc, prior, journal).Some?
    ensures Sequential(doc, AllEdits(journal)) == Replay(doc, prior, journal)
    ensures Utf8.Valid(Replay(doc, prior, journal).value)
    decreases |journal|
  {
    hide Utf8.Valid;
    hide Transact;
    hide PageAt;
    hide Sequential;
    hide ValidEdits;
    SequentialNothing(doc);
    if journal != [] {
      var t := journal[0];
      var at := PageAt(doc, t.viewport.start, t.viewport.len).value.start;
      var next := Transact(doc, prior, t.viewport, t.edits, Selection(at, at)).value;
      TransactIsSequential(doc, prior, t.viewport, t.edits, Selection(at, at));
      ReplayIsSequential(next, if next == doc then prior else prior + Cost(t.edits), journal[1..]);
      SequentialConcat(doc, t.edits, AllEdits(journal[1..]));
    }
  }

  /** Where each byte of an edited text comes from: an offset of the first text, or an edit. */
  datatype Cell = Original(offset: nat) | Inserted(value: byte)

  function Untouched(len: nat): seq<Cell> {
    seq(len, i requires 0 <= i < len => Original(i))
  }

  function InsertedCells(text: Text): seq<Cell> {
    seq(|text|, i requires 0 <= i < |text| => Cell.Inserted(text[i]))
  }

  function Traced(cells: seq<Cell>, edits: seq<RangeEdit>): seq<Cell>
    decreases |edits|
  {
    if edits == [] || !(edits[0].start <= edits[0].end <= |cells|) then cells
    else Traced(cells[..edits[0].start] + InsertedCells(edits[0].text) + cells[edits[0].end..], edits[1..])
  }

  predicate WithinText(cells: seq<Cell>, len: nat) {
    forall c :: c in cells && c.Original? ==> c.offset < len
  }

  function Rendered(cells: seq<Cell>, doc: Text): Text
    requires WithinText(cells, |doc|)
  {
    seq(|cells|, i requires 0 <= i < |cells| =>
      assert cells[i] in cells; if cells[i].Original? then doc[cells[i].offset] else cells[i].value)
  }

  /** Edits do the same to every text of a length: the trace, filled in, is the result. */
  lemma {:induction false} TraceIsSequential(doc: Text, cells: seq<Cell>, edits: seq<RangeEdit>)
    requires WithinText(cells, |doc|) && Sequential(Rendered(cells, doc), edits).Some?
    ensures WithinText(Traced(cells, edits), |doc|)
    ensures Sequential(Rendered(cells, doc), edits) == Some(Rendered(Traced(cells, edits), doc))
    decreases |edits|
  {
    hide IsBoundary;
    if edits != [] {
      var e := edits[0];
      var next := cells[..e.start] + InsertedCells(e.text) + cells[e.end..];
      SplicedCells(doc, cells, e);
      TraceIsSequential(doc, next, edits[1..]);
    }
  }

  lemma SplicedCells(doc: Text, cells: seq<Cell>, e: RangeEdit)
    requires WithinText(cells, |doc|) && e.start <= e.end <= |cells|
    ensures var next := cells[..e.start] + InsertedCells(e.text) + cells[e.end..];
      WithinText(next, |doc|) && Rendered(next, doc) == Splice(Rendered(cells, doc), e.start, e.end, e.text)
  {
    var next := cells[..e.start] + InsertedCells(e.text) + cells[e.end..];
    forall c | c in next && c.Original? ensures c.offset < |doc| {
      assert c in cells;
    }
    var a, b := Rendered(next, doc), Splice(Rendered(cells, doc), e.start, e.end, e.text);
    assert |a| == |b|;
    forall i | 0 <= i < |a| ensures a[i] == b[i] {
    }
  }

  lemma UntouchedRenders(doc: Text)
    ensures WithinText(Untouched(|doc|), |doc|) && Rendered(Untouched(|doc|), doc) == doc
  {
  }

  /** The texts have one length and differ only in bytes that the edits remove. */
  predicate AgreeWhereKept(a: Text, b: Text, edits: seq<RangeEdit>) {
    |a| == |b| && forall c :: c in Traced(Untouched(|a|), edits) && c.Original? && c.offset < |a| ==>
      a[c.offset] == b[c.offset]
  }

  /** The same edits give the same text exactly for texts that agree where the edits keep them. */
  lemma SameResult(a: Text, b: Text, edits: seq<RangeEdit>)
    requires Sequential(a, edits).Some? && Sequential(b, edits).Some?
    ensures Sequential(a, edits) == Sequential(b, edits) <==> AgreeWhereKept(a, b, edits)
  {
    hide Sequential;
    hide Traced;
    SequentialLength(a, edits);
    SequentialLength(b, edits);
    UntouchedRenders(a);
    UntouchedRenders(b);
    TraceIsSequential(a, Untouched(|a|), edits);
    TraceIsSequential(b, Untouched(|b|), edits);
    if |a| == |b| {
      var cells := Traced(Untouched(|a|), edits);
      var x, y := Rendered(cells, a), Rendered(cells, b);
      if x == y {
        forall c | c in cells && c.Original? ensures a[c.offset] == b[c.offset] {
          var i :| 0 <= i < |cells| && cells[i] == c;
          assert x[i] == a[c.offset] && y[i] == b[c.offset];
        }
      } else {
        var i :| 0 <= i < |cells| && x[i] != y[i];
        assert cells[i] in cells;
      }
    }
  }

  /** Every byte that the edits leave, kept or inserted, is the one that was there. */
  predicate Idle(doc: Text, edits: seq<RangeEdit>) {
    var cells := Traced(Untouched(|doc|), edits);
    |cells| == |doc| && forall i :: 0 <= i < |doc| ==>
      match cells[i]
      case Original(offset) => offset < |doc| && doc[offset] == doc[i]
      case Inserted(value) => value == doc[i]
  }

  /** Edits undo each other exactly then; never when they change the length. */
  lemma IdleExact(doc: Text, edits: seq<RangeEdit>)
    requires Sequential(doc, edits).Some?
    ensures Sequential(doc, edits) == Some(doc) <==> Idle(doc, edits)
    ensures Idle(doc, edits) ==> Growth(edits) == 0
  {
    hide Sequential;
    hide Traced;
    SequentialLength(doc, edits);
    UntouchedRenders(doc);
    TraceIsSequential(doc, Untouched(|doc|), edits);
    var cells := Traced(Untouched(|doc|), edits);
    var end := Rendered(cells, doc);
    if end == doc {
      forall i | 0 <= i < |doc|
        ensures match cells[i]
          case Original(offset) => offset < |doc| && doc[offset] == doc[i]
          case Inserted(value) => value == doc[i]
      {
        assert end[i] == doc[i] && cells[i] in cells;
      }
    } else if |end| == |doc| {
      var i :| 0 <= i < |doc| && end[i] != doc[i];
      assert cells[i] in cells;
    }
  }
}
