/** Edits to a document too large to load: each transaction works on the page under its
    viewport, and a journal of the accepted ones can be replayed from the source file. */
module PagedEdits {
  import opened Utf8
  import opened Wrappers
  import opened Edits
  import opened Pages
  import opened TextBuffer

  const MAX_PAGED_RECOVERY_BYTES: nat := 4 * 1024 * 1024
  const MAX_PAGED_EDITS: nat := 128

  datatype Viewport = Viewport(start: nat, len: nat)

  datatype Logged = Logged(viewport: Viewport, edits: seq<RangeEdit>)

  function Inserted(edits: seq<RangeEdit>): nat {
    if edits == [] then 0 else |edits[0].text| + Inserted(edits[1..])
  }

  function Deleted(edits: seq<RangeEdit>): nat {
    if edits == [] then 0
    else (if edits[0].end > edits[0].start then edits[0].end - edits[0].start else 0) + Deleted(edits[1..])
  }

  function Cost(edits: seq<RangeEdit>): nat {
    if edits == [] then 0 else 32 + |edits[0].text| + Cost(edits[1..])
  }

  function JournalCost(journal: seq<Logged>): nat {
    if journal == [] then 0 else JournalCost(journal[..|journal| - 1]) + Cost(journal[|journal| - 1].edits)
  }

  /** Apply the edits, given in document offsets, to the loaded page alone. The end of the
      viewport moves with the length of the text; the page limit holds after every edit. */
  function ViewEdits(at: nat, viewport: Viewport, delta: int, working: Text, edits: seq<RangeEdit>): Option<Text>
    decreases |edits|
  {
    if edits == [] then Some(working)
    else
      var e := edits[0];
      if e.start > e.end || e.start < at || e.end > at + |working|
        || viewport.start + viewport.len + delta < 0
        || e.start < viewport.start || e.end > viewport.start + viewport.len + delta
        || !IsBoundary(working, e.start - at) || !IsBoundary(working, e.end - at)
      then None
      else
        var next := Splice(working, e.start - at, e.end - at, e.text);
        if |next| > MAX_PAGE_BYTES then None
        else ViewEdits(at, viewport, delta + |e.text| - (e.end - e.start), next, edits[1..])
  }

  predicate SelectionInView(at: nat, working: Text, s: Selection) {
    && at <= s.anchor <= at + |working| && at <= s.head <= at + |working|
    && IsBoundary(working, s.anchor - at) && IsBoundary(working, s.head - at)
  }

  /** The document after a transaction, or None if it is refused. `prior` is the journal cost. */
  function Transact(doc: Text, prior: nat, viewport: Viewport, edits: seq<RangeEdit>, selection: Selection)
    : Option<Text>
  {
    if viewport.start > |doc| || viewport.len > MAX_PAGE_BYTES then None
    else if edits == [] then Some(doc)
    else if |edits| > MAX_PAGED_EDITS || Inserted(edits) > MAX_PAGE_BYTES || Deleted(edits) > MAX_PAGE_BYTES
      || prior + Cost(edits) > MAX_PAGED_RECOVERY_BYTES
    then None
    else match PageAt(doc, viewport.start, viewport.len)
      case Err(_) => None
      case Ok(page) =>
        match ViewEdits(page.start, viewport, 0, page.text, edits)
        case None => None
        case Some(working) =>
          if SelectionInView(page.start, working, selection) && page.start + |page.text| <= |doc|
          then Some(doc[..page.start] + working + doc[page.start + |page.text|..]) else None
  }

  // ---- A transaction on the page is the same edits on the document -----------------

  /** The page at a viewport, also an empty one, is a run of whole characters. */
  lemma PageCuts(doc: Text, viewport: Viewport)
    requires Valid(doc) && PageAt(doc, viewport.start, viewport.len).Ok?
    ensures var p := PageAt(doc, viewport.start, viewport.len).value;
      && p.start <= viewport.start && p.start + |p.text| <= |doc|
      && doc[p.start..p.start + |p.text|] == p.text && |p.text| <= MAX_PAGE_BYTES
      && Valid(doc[..p.start]) && Valid(p.text) && Valid(doc[p.start + |p.text|..])
  {
    hide Valid;
    hide IsBoundary;
    var p := PageAt(doc, viewport.start, viewport.len).value;
    EmptyIsValid();
    if viewport.len > 0 {
      PageIsSlice(doc, viewport.start, viewport.len);
    }
    SplitAtBoundary(doc, p.start);
    SplitAtBoundary(doc, p.start + |p.text|);
  }

  lemma BoundaryInMiddle(a: Text, w: Text, c: Text, k: nat)
    requires Valid(a) && Valid(w) && Valid(c) && k <= |w| && IsBoundary(w, k)
    ensures IsBoundary(a + w + c, |a| + k)
  {
    hide Valid;
    SplitAtBoundary(w, k);
    ValidConcat(a, w[..k]);
    ValidConcat(w[k..], c);
    ValidConcat(a + w[..k], w[k..] + c);
    MiddleParts(a, w, c, k);
    ValidPrefixBoundary(a + w + c, |a| + k);
  }

  lemma MiddleParts(a: Text, w: Text, c: Text, k: nat)
    requires k <= |w|
    ensures a + w + c == (a + w[..k]) + (w[k..] + c)
    ensures (a + w + c)[..|a| + k] == a + w[..k]
  {
    assert w == w[..k] + w[k..];
  }

  lemma SpliceInMiddle(a: Text, w: Text, c: Text, i: nat, j: nat, ins: Text)
    requires i <= j <= |w|
    ensures Splice(a + w + c, |a| + i, |a| + j, ins) == a + Splice(w, i, j, ins) + c
  {
    assert (a + w + c)[..|a| + i] == a + w[..i];
    assert (a + w + c)[|a| + j..] == w[j..] + c;
  }

  lemma {:induction false} ViewIsSequential(a: Text, working: Text, c: Text, viewport: Viewport, delta: int,
                                            edits: seq<RangeEdit>)
    requires Valid(a) && Valid(working) && Valid(c) && ValidEdits(edits)
    requires ViewEdits(|a|, viewport, delta, working, edits).Some?
    ensures var w := ViewEdits(|a|, viewport, delta, working, edits).value;
      Valid(w) && Sequential(a + working + c, edits) == Some(a + w + c)
    decreases |edits|
  {
    hide Valid;
    hide IsBoundary;
    if edits != [] {
      var e := edits[0];
      var i, j := e.start - |a|, e.end - |a|;
      BoundaryInMiddle(a, working, c, i);
      BoundaryInMiddle(a, working, c, j);
      SpliceInMiddle(a, working, c, i, j, e.text);
      SpliceValid(working, i, j, e.text);
      ViewIsSequential(a, Splice(working, i, j, e.text), c, viewport, delta + |e.text| - (e.end - e.start),
                       edits[1..]);
    }
  }

  /** What a page-bounded transaction makes of the document is what its edits mean. */
  lemma TransactIsSequential(doc: Text, prior: nat, viewport: Viewport, edits: seq<RangeEdit>, selection: Selection)
    requires Valid(doc) && ValidEdits(edits)
    requires Transact(doc, prior, viewport, edits, selection).Some?
    ensures Sequential(doc, edits) == Transact(doc, prior, viewport, edits, selection)
    ensures Valid(Transact(doc, prior, viewport, edits, selection).value)
  {
    hide Valid;
    hide IsBoundary;
    hide ViewEdits;
    hide PageAt;
    if edits != [] {
      PageCuts(doc, viewport);
      var p := PageAt(doc, viewport.start, viewport.len).value;
      var a, c := doc[..p.start], doc[p.start + |p.text|..];
      assert a + p.text + c == doc;
      ViewIsSequential(a, p.text, c, viewport, 0, edits);
      var w := ViewEdits(p.start, viewport, 0, p.text, edits).value;
      ValidConcat(a, w);
      ValidConcat(a + w, c);
    }
  }

  // ---- Which transactions are accepted --------------------------------------------------

  /** The k-th edit fits the document as the ones before it left it; it stays in the viewport and
      the page, whose ends have moved with the length of the text, and keeps the page in the limit. */
  predicate Allowed(doc: Text, at: nat, len: int, viewport: Viewport, delta: int, edits: seq<RangeEdit>, k: nat)
    requires k < |edits|
  {
    var before, grown := Sequential(doc, edits[..k]), Growth(edits[..k]);
    && before.Some? && Fits(before.value, edits[k])
    && at <= edits[k].start && edits[k].end <= at + len + grown
    && viewport.start <= edits[k].start && edits[k].end <= viewport.start + viewport.len + delta + grown
    && len + Growth(edits[..k + 1]) <= MAX_PAGE_BYTES
  }

  /** After the first edit the others are judged on the document it left. */
  lemma AllowedRest(doc: Text, at: nat, len: int, viewport: Viewport, delta: int, edits: seq<RangeEdit>, k: nat)
    requires k + 1 < |edits| && Fits(doc, edits[0])
    ensures var e := edits[0]; var grown := |e.text| - (e.end - e.start);
      Allowed(doc, at, len, viewport, delta, edits, k + 1) <==>
      Allowed(Splice(doc, e.start, e.end, e.text), at, len + grown, viewport, delta + grown, edits[1..], k)
  {
    assert edits[..k + 1][1..] == edits[1..][..k];
    assert edits[..k + 2][1..] == edits[1..][..k + 1];
  }

  /** On the page alone exactly these edits go through. */
  lemma {:induction false} ViewAccepts(a: Text, working: Text, c: Text, viewport: Viewport, delta: int,
                                       edits: seq<RangeEdit>)
    requires Valid(a) && Valid(working) && Valid(c) && ValidEdits(edits)
    ensures ViewEdits(|a|, viewport, delta, working, edits).Some? <==>
      forall k :: 0 <= k < |edits| ==> Allowed(a + working + c, |a|, |working|, viewport, delta, edits, k)
    decreases |edits|
  {
    hide Valid;
    hide Allowed;
    if edits != [] {
      var e, doc := edits[0], a + working + c;
      FirstAllowed(a, working, c, viewport, delta, edits);
      if Allowed(doc, |a|, |working|, viewport, delta, edits, 0) {
        var i, j := e.start - |a|, e.end - |a|;
        var next := Splice(working, i, j, e.text);
        SpliceInMiddle(a, working, c, i, j, e.text);
        SpliceValid(working, i, j, e.text);
        ViewAccepts(a, next, c, viewport, delta + |e.text| - (e.end - e.start), edits[1..]);
        forall k | 0 < k < |edits|
          ensures Allowed(doc, |a|, |working|, viewport, delta, edits, k) <==>
            Allowed(a + next + c, |a|, |next|, viewport, delta + |e.text| - (e.end - e.start), edits[1..], k - 1)
        {
          AllowedRest(doc, |a|, |working|, viewport, delta, edits, k - 1);
        }
        AllFromOne(doc, |a|, |working|, viewport, delta, edits, next, a + next + c);
      }
    }
  }

  lemma FirstAllowed(a: Text, working: Text, c: Text, viewport: Viewport, delta: int, edits: seq<RangeEdit>)
    requires Valid(a) && Valid(working) && Valid(c) && edits != []
    ensures var e := edits[0];
      Allowed(a + working + c, |a|, |working|, viewport, delta, edits, 0) <==>
      && |a| <= e.start <= e.end <= |a| + |working|
      && viewport.start <= e.start && e.end <= viewport.start + viewport.len + delta
      && IsBoundary(working, e.start - |a|) && IsBoundary(working, e.end - |a|)
      && |Splice(working, e.start - |a|, e.end - |a|, e.text)| <= MAX_PAGE_BYTES
    ensures Allowed(a + working + c, |a|, |working|, viewport, delta, edits, 0) ==> Fits(a + working + c, edits[0])
  {
    hide Valid;
    hide IsBoundary;
    hide Sequential;
    hide Growth;
    var e := edits[0];
    assert edits[..0] == [] && edits[..1] == [e];
    SequentialNothing(a + working + c);
    GrowthOne(e);
    GrowthNone();
    if |a| <= e.start <= e.end <= |a| + |working| {
      SameBoundary(a, working, c, e.start - |a|);
      SameBoundary(a, working, c, e.end - |a|);
    }
  }

  lemma SameBoundary(a: Text, w: Text, c: Text, k: nat)
    requires Valid(a) && Valid(w) && Valid(c) && k <= |w|
    ensures IsBoundary(a + w + c, |a| + k) <==> IsBoundary(w, k)
  {
    if IsBoundary(w, k) {
      BoundaryInMiddle(a, w, c, k);
    } else {
      assert (a + w + c)[|a| + k] == w[k];
    }
  }

  lemma AllFromOne(doc: Text, at: nat, len: int, viewport: Viewport, delta: int, edits: seq<RangeEdit>, next: Text,
                   after: Text)
    requires edits != [] && Allowed(doc, at, len, viewport, delta, edits, 0)
    requires var d := delta + |edits[0].text| - (edits[0].end - edits[0].start);
      forall k :: 0 < k < |edits| ==>
        (Allowed(doc, at, len, viewport, delta, edits, k) <==>
         Allowed(after, at, |next|, viewport, d, edits[1..], k - 1))
    ensures var d := delta + |edits[0].text| - (edits[0].end - edits[0].start);
      (forall k :: 0 <= k < |edits| ==> Allowed(doc, at, len, viewport, delta, edits, k)) <==>
      (forall k :: 0 <= k < |edits[1..]| ==> Allowed(after, at, |next|, viewport, d, edits[1..], k))
  {
    hide Allowed;
    var d := delta + |edits[0].text| - (edits[0].end - edits[0].start);
    if forall k :: 0 <= k < |edits[1..]| ==> Allowed(after, at, |next|, viewport, d, edits[1..], k) {
      forall k | 0 <= k < |edits| ensures Allowed(doc, at, len, viewport, delta, edits, k) {
        assert k > 0 ==> Allowed(after, at, |next|, viewport, d, edits[1..], k - 1);
      }
    } else {
      var k :| 0 <= k < |edits[1..]| && !Allowed(after, at, |next|, viewport, d, edits[1..], k);
      assert !Allowed(doc, at, len, viewport, delta, edits, k + 1);
    }
  }

  /** The selection lies in the page as the edits left it, between characters. */
  predicate SelectionStays(doc: Text, p: Page, edits: seq<RangeEdit>, s: Selection) {
    var after, end := Sequential(doc, edits), p.start + |p.text| + Growth(edits);
    && after.Some? && p.start <= s.anchor <= end && p.start <= s.head <= end
    && IsBoundary(after.value, s.anchor) && IsBoundary(after.value, s.head)
  }

  /** A transaction is within its budgets. */
  predicate InBudget(prior: nat, edits: seq<RangeEdit>) {
    && |edits| <= MAX_PAGED_EDITS && Inserted(edits) <= MAX_PAGE_BYTES && Deleted(edits) <= MAX_PAGE_BYTES
    && prior + Cost(edits) <= MAX_PAGED_RECOVERY_BYTES
  }

  /** The page is there, the budgets hold, every edit is allowed in its turn, and the selection is
      in the page afterwards. */
  ghost predicate Acceptable(doc: Text, prior: nat, viewport: Viewport, edits: seq<RangeEdit>, selection: Selection) {
    && viewport.start <= |doc| && viewport.len <= MAX_PAGE_BYTES && InBudget(prior, edits)
    && PageAt(doc, viewport.start, viewport.len).Ok?
    && var p := PageAt(doc, viewport.start, viewport.len).value;
    && (forall k :: 0 <= k < |edits| ==> Allowed(doc, p.start, |p.text|, viewport, 0, edits, k))
    && SelectionStays(doc, p, edits, selection)
  }

  lemma TransactAccepts(doc: Text, prior: nat, viewport: Viewport, edits: seq<RangeEdit>, selection: Selection)
    requires Valid(doc) && ValidEdits(edits) && edits != []
    ensures Transact(doc, prior, viewport, edits, selection).Some? <==>
      Acceptable(doc, prior, viewport, edits, selection)
  {
    hide Valid;
    hide IsBoundary;
    hide ViewEdits;
    hide PageAt;
    hide Allowed;
    hide Growth;
    hide SelectionInView;
    hide SelectionStays;
    if PageAt(doc, viewport.start, viewport.len).Ok? {
      PageCuts(doc, viewport);
      var p := PageAt(doc, viewport.start, viewport.len).value;
      var a, c := doc[..p.start], doc[p.start + |p.text|..];
      assert a + p.text + c == doc;
      ViewAccepts(a, p.text, c, viewport, 0, edits);
      if ViewEdits(p.start, viewport, 0, p.text, edits).Some? {
        ViewIsSequential(a, p.text, c, viewport, 0, edits);
        SelectionAfter(doc, p, edits, a, ViewEdits(p.start, viewport, 0, p.text, edits).value, c, selection);
      }
    }
  }

  lemma AcceptableReads(doc: Text, prior: nat, viewport: Viewport, edits: seq<RangeEdit>, selection: Selection)
    ensures Acceptable(doc, prior, viewport, edits, selection) ==>
      viewport.start <= |doc| && viewport.len <= MAX_PAGE_BYTES
  {
  }

  lemma SelectionAfter(doc: Text, p: Page, edits: seq<RangeEdit>, a: Text, w: Text, c: Text, s: Selection)
    requires Valid(a) && Valid(w) && Valid(c) && doc == a + p.text + c && |a| == p.start
    requires Sequential(doc, edits) == Some(a + w + c)
    ensures SelectionInView(p.start, w, s) <==> SelectionStays(doc, p, edits, s)
  {
    hide Valid;
    hide Sequential;
    SequentialLength(doc, edits);
    assert |w| == |p.text| + Growth(edits);
    if p.start <= s.anchor <= p.start + |w| {
      SameBoundary(a, w, c, s.anchor - |a|);
    }
    if p.start <= s.head <= p.start + |w| {
      SameBoundary(a, w, c, s.head - |a|);
    }
  }

  /** What the budgets count. */
  lemma {:induction false} Budgets(doc: Text, edits: seq<RangeEdit>)
    ensures Cost(edits) == 32 * |edits| + Inserted(edits)
    ensures Sequential(doc, edits).Some? ==> Growth(edits) == Inserted(edits) - Deleted(edits)
    decreases |edits|
  {
    hide IsBoundary;
    if edits != [] {
      Budgets(if Fits(doc, edits[0]) then Splice(doc, edits[0].start, edits[0].end, edits[0].text) else doc, edits[1..]);
    }
  }

  // ---- The journal ----------------------------------------------------------------

  /** Recovery: each logged transaction again, with a caret at the start of its page. */
  function Replay(doc: Text, prior: nat, journal: seq<Logged>): Option<Text>
    decreases |journal|
  {
    if journal == [] then Some(doc)
    else
      var t := journal[0];
      match PageAt(doc, t.viewport.start, t.viewport.len)
      case Err(_) => None
      case Ok(page) =>
        match Transact(doc, prior, t.viewport, t.edits, Selection(page.start, page.start))
        case None => None
        case Some(next) => Replay(next, if next == doc then prior else prior + Cost(t.edits), journal[1..])
  }

  /** Where the caret is does not decide anything a replay depends on. */
  lemma ReplayAccepts(doc: Text, prior: nat, t: Logged, selection: Selection)
    requires t.edits != [] && Transact(doc, prior, t.viewport, t.edits, selection).Some?
    ensures PageAt(doc, t.viewport.start, t.viewport.len).Ok?
    ensures var at := PageAt(doc, t.viewport.start, t.viewport.len).value.start;
      Transact(doc, prior, t.viewport, t.edits, Selection(at, at)) ==
      Transact(doc, prior, t.viewport, t.edits, selection)
  {
  }

  /** The cost a replay has run up; every logged transaction changed the document. */
  ghost predicate Replays(source: Text, prior: nat, journal: seq<Logged>, doc: Text, cost: nat)
    decreases |journal|
  {
    if journal == [] then doc == source && cost == prior
    else
      var t := journal[0];
      && PageAt(source, t.viewport.start, t.viewport.len).Ok?
      && var at := PageAt(source, t.viewport.start, t.viewport.len).value.start;
      && var next := Transact(source, prior, t.viewport, t.edits, Selection(at, at));
      && next.Some? && next.value != source
      && Replays(next.value, prior + Cost(t.edits), journal[1..], doc, cost)
  }

  lemma {:induction false} ReplaysIsReplay(source: Text, prior: nat, journal: seq<Logged>, doc: Text, cost: nat)
    requires Replays(source, prior, journal, doc, cost)
    ensures Replay(source, prior, journal) == Some(doc)
    decreases |journal|
  {
    hide Transact;
    hide PageAt;
    if journal != [] {
      var t := journal[0];
      var at := PageAt(source, t.viewport.start, t.viewport.len).value.start;
      var next := Transact(source, prior, t.viewport, t.edits, Selection(at, at)).value;
      ReplaysIsReplay(next, prior + Cost(t.edits), journal[1..], doc, cost);
    }
  }

  lemma {:induction false} ReplaysSnoc(source: Text, prior: nat, journal: seq<Logged>, doc: Text, cost: nat,
                                       t: Logged, selection: Selection)
    requires Replays(source, prior, journal, doc, cost) && t.edits != []
    requires Transact(doc, cost, t.viewport, t.edits, selection).Some?
    requires Transact(doc, cost, t.viewport, t.edits, selection).value != doc
    ensures Replays(source, prior, journal + [t],
                    Transact(doc, cost, t.viewport, t.edits, selection).value, cost + Cost(t.edits))
    decreases |journal|
  {
    hide Transact;
    hide PageAt;
    if journal == [] {
      ReplayAccepts(doc, cost, t, selection);
      assert ([] + [t])[1..] == [];
      assert [t][1..] == [];
      assert journal + [t] == [t];
    } else {
      var h := journal[0];
      var at := PageAt(source, h.viewport.start, h.viewport.len).value.start;
      var next := Transact(source, prior, h.viewport, h.edits, Selection(at, at)).value;
      ReplaysSnoc(next, prior + Cost(h.edits), journal[1..], doc, cost, t, selection);
      assert (journal + [t])[1..] == journal[1..] + [t];
    }
  }

  lemma JournalCostSnoc(journal: seq<Logged>, t: Logged)
    ensures JournalCost(journal + [t]) == JournalCost(journal) + Cost(t.edits)
  {
    assert (journal + [t])[..|journal|] == journal;
  }

  // ---- The paged buffer -----------------------------------------------------------

  datatype PagedReply = PagedReply(accepted: bool, rev: nat, page: Page, dirty: bool)

  datatype PagedError =
    | NoViewport | BadViewport | SourceChanged | TooManyEdits | PayloadTooLarge | JournalFull
    | PageUnreadable | OutsideViewport | NotOnBoundary | ViewportTooLarge | BadSelection

  class PagedBuffer {
    var live: Text               // Fresh's piece tree over the source file
    var rev: nat
    var dirty: bool
    var generation: nat          // the source file's generation the pieces refer to
    var journal: seq<Logged>
    ghost var source: Text       // what the source file held at that generation

    ghost predicate Valid()
      reads this
    {
      && Utf8.Valid(live)
      && JournalCost(journal) <= MAX_PAGED_RECOVERY_BYTES
      && Replays(source, 0, journal, live, JournalCost(journal))
    }

    /** At every state replaying the journal from the source is accepted step by step and
        gives the buffer back. */
    lemma RecoveryReproduces()
      requires Valid()
      ensures Replay(source, 0, journal) == Some(live)
    {
      ReplaysIsReplay(source, 0, journal, live, JournalCost(journal));
    }

    constructor (text: Text, generation: nat)
      requires Utf8.Valid(text)
      ensures Valid() && live == source == text && journal == [] && rev == 0 && !dirty
      ensures this.generation == generation
    {
      live, source, journal, rev, dirty := text, text, [], 0, false;
      this.generation := generation;
    }

    /** The page under a viewport; reads are blocked once the source file has changed. */
    method Read(viewport: Viewport, disk: nat) returns (r: Result<Page, PagedError>)
      requires Valid()
      ensures r.Ok? <==> disk == generation && PageAt(live, viewport.start, viewport.len).Ok?
      ensures r.Ok? ==> r.value == PageAt(live, viewport.start, viewport.len).value
    {
      if disk != generation {
        return Err(SourceChanged);
      }
      var page := ReadPage(live, viewport.start, viewport.len);
      r := if page.Ok? then Ok(page.value) else Err(PageUnreadable);
    }

    method RangeEdit(baseRev: nat, edits: seq<RangeEdit>, view: Option<Viewport>, selection: Selection, disk: nat)
      returns (r: Result<PagedReply, PagedError>)
      requires Valid() && ValidEdits(edits)
      modifies this
      ensures Valid() && source == old(source) && generation == old(generation)
      ensures r.Ok? <==>
        && view.Some? && disk == generation
        && if baseRev == old(rev) && edits != []
           then Acceptable(old(live), JournalCost(old(journal)), view.value, edits, selection)
           else view.value.start <= |old(live)| && view.value.len <= MAX_PAGE_BYTES
                && PageAt(old(live), view.value.start, view.value.len).Ok?
      ensures r.Err? ==>
        live == old(live) && journal == old(journal) && rev == old(rev) && dirty == old(dirty)
      ensures r.Ok? ==> r.value.rev == rev && r.value.dirty == dirty && (r.value.accepted <==> baseRev == old(rev))
      ensures r.Ok? && !r.value.accepted ==>
        live == old(live) && journal == old(journal) && rev == old(rev) && dirty == old(dirty)
      ensures r.Ok? && r.value.accepted ==>
        && Sequential(old(live), edits) == Some(live)
        && (live == old(live) ==> journal == old(journal) && rev == old(rev) && dirty == old(dirty))
        && (live != old(live) ==>
              journal == old(journal) + [Logged(view.value, edits)] && rev == old(rev) + 1 && dirty)
      ensures r.Ok? ==> var p := r.value.page;
        p.start <= view.value.start && p.start + |p.text| <= |live| && live[p.start..p.start + |p.text|] == p.text
    {
      hide Utf8.Valid;
      hide IsBoundary;
      hide PageAt;
      hide Replays;
      hide JournalCost;
      hide Acceptable;
      hide Transact;
      hide Sequential;
      hide ValidEdits;
      if view.None? {
        return Err(NoViewport);
      }
      var viewport := view.value;
      if rev == baseRev && edits != [] {
        TransactAccepts(live, JournalCost(journal), viewport, edits, selection);
        AcceptableReads(live, JournalCost(journal), viewport, edits, selection);
      }
      if viewport.start > |live| || viewport.len > MAX_PAGE_BYTES {
        return Err(BadViewport);
      }
      if rev != baseRev || edits == [] {
        var page := Read(viewport, disk);
        if page.Err? {
          return Err(page.error);
        }
        PageCuts(live, viewport);
        SequentialNothing(live);
        return Ok(PagedReply(rev == baseRev, rev, page.value, dirty));
      }
      if disk != generation {
        return Err(SourceChanged);
      }
      r := Transaction(viewport, edits, selection);
    }

    /** Check, apply and log a transaction on the page under the viewport. */
    method Transaction(viewport: Viewport, edits: seq<RangeEdit>, selection: Selection)
      returns (r: Result<PagedReply, PagedError>)
      requires Valid() && ValidEdits(edits) && edits != []
      requires viewport.start <= |live| && viewport.len <= MAX_PAGE_BYTES
      modifies this
      ensures Valid() && source == old(source) && generation == old(generation)
      ensures r.Ok? <==> Transact(old(live), JournalCost(old(journal)), viewport, edits, selection).Some?
      ensures r.Err? || live == old(live) ==>
        live == old(live) && journal == old(journal) && rev == old(rev) && dirty == old(dirty)
      ensures r.Ok? ==> Sequential(old(live), edits) == Some(live)
      ensures r.Ok? && live != old(live) ==>
        journal == old(journal) + [Logged(viewport, edits)] && rev == old(rev) + 1 && dirty
      ensures r.Ok? ==> var p := r.value.page;
        && r.value.accepted && r.value.rev == rev && r.value.dirty == dirty
        && p.start <= viewport.start && p.start + |p.text| <= |live| && live[p.start..p.start + |p.text|] == p.text
    {
      hide Utf8.Valid;
      hide IsBoundary;
      hide ViewEdits;
      hide PageAt;
      hide Sequential;
      hide Replays;
      hide JournalCost;
      hide Cost;
      hide Inserted;
      hide Deleted;
      hide ApplyEvents;
      hide SelectionInView;
      if |edits| > MAX_PAGED_EDITS {
        return Err(TooManyEdits);
      }
      if Inserted(edits) > MAX_PAGE_BYTES || Deleted(edits) > MAX_PAGE_BYTES {
        return Err(PayloadTooLarge);
      }
      if JournalCost(journal) + Cost(edits) > MAX_PAGED_RECOVERY_BYTES {
        return Err(JournalFull);
      }
      var initial := Read(viewport, generation);
      if initial.Err? {
        return Err(initial.error);
      }
      var page := initial.value;
      var edited := EditView(page, viewport, edits);
      if edited.Err? {
        return Err(edited.error);
      }
      var working := edited.value;
      if !SelectionInView(page.start, working, selection) {
        return Err(PagedError.BadSelection);
      }
      PageCuts(live, viewport);
      var events := ViewEvents(live, page, working);
      var next := ApplyEvents(live, events).value;
      assert Transact(live, JournalCost(journal), viewport, edits, selection) == Some(next);
      SameOutside(live, page, working);
      TransactIsSequential(live, JournalCost(journal), viewport, edits, selection);
      if page.text != working {
        ReplaysSnoc(source, 0, journal, live, JournalCost(journal), Logged(viewport, edits), selection);
        JournalCostSnoc(journal, Logged(viewport, edits));
        live := next;
        rev, dirty := rev + 1, true;
        journal := journal + [Logged(viewport, edits)];
      }
      r := Ok(PagedReply(true, rev, Page(page.start, working), dirty));
    }

    /** A save makes the buffer its own source under a new generation. */
    method Saved(disk: nat)
      requires Valid()
      modifies this
      ensures Valid() && live == old(live) == source && journal == [] && generation == disk
      ensures rev == old(rev) + 1 && !dirty
    {
      source, journal, generation, rev, dirty := live, [], disk, rev + 1, false;
    }
  }

  lemma SameOutside(doc: Text, page: Page, working: Text)
    requires page.start + |page.text| <= |doc| && doc[page.start..page.start + |page.text|] == page.text
    ensures doc[..page.start] + working + doc[page.start + |page.text|..] == doc <==> working == page.text
  {
    var a, c := doc[..page.start], doc[page.start + |page.text|..];
    assert doc == a + page.text + c;
    if a + working + c == doc {
      assert |working| == |page.text|;
      assert (a + working + c)[|a|..|a| + |working|] == working;
    }
  }

  /** Validate and apply the edits one after another on a copy of the page. */
  method EditView(page: Page, viewport: Viewport, edits: seq<RangeEdit>) returns (r: Result<Text, PagedError>)
    ensures match ViewEdits(page.start, viewport, 0, page.text, edits)
      case None => r.Err?
      case Some(working) => r == Ok(working)
  {
    var working, delta: int, i := page.text, 0, 0;
    while i < |edits|
      invariant i <= |edits|
      invariant ViewEdits(page.start, viewport, 0, page.text, edits) ==
        ViewEdits(page.start, viewport, delta, working, edits[i..])
    {
      var e := edits[i];
      assert edits[i..][0] == e && edits[i..][1..] == edits[i + 1..];
      var viewportEnd := viewport.start + viewport.len + delta;
      if e.start > e.end || e.start < page.start || e.end > page.start + |working|
        || viewportEnd < 0 || e.start < viewport.start || e.end > viewportEnd
      {
        return Err(OutsideViewport);
      }
      if !IsBoundary(working, e.start - page.start) || !IsBoundary(working, e.end - page.start) {
        return Err(NotOnBoundary);
      }
      working := Splice(working, e.start - page.start, e.end - page.start, e.text);
      delta := delta + |e.text| - (e.end - e.start);
      if |working| > MAX_PAGE_BYTES {
        return Err(ViewportTooLarge);
      }
      i := i + 1;
    }
    r := Ok(working);
  }

  /** One replacement inside the page, in document offsets. */
  method ViewEvents(doc: Text, page: Page, working: Text) returns (events: seq<Event>)
    requires page.start + |page.text| <= |doc| && doc[page.start..page.start + |page.text|] == page.text
    ensures ApplyEvents(doc, events) == Some(doc[..page.start] + working + doc[page.start + |page.text|..])
  {
    hide IsBoundary;
    hide Collapsed;
    var prefix, oldEnd, newEnd := ViewCollapse(page.text, working);
    events := ReplacementEvents(page.start + prefix, page.start + oldEnd, working[prefix..newEnd]);
    EventsSplice(doc, page.start + prefix, page.start + oldEnd, working[prefix..newEnd]);
    var a, c := doc[..page.start], doc[page.start + |page.text|..];
    assert doc == a + page.text + c;
    SpliceInMiddle(a, page.text, c, prefix, oldEnd, working[prefix..newEnd]);
  }

  method ViewCollapse(initial: Text, working: Text) returns (prefix: nat, oldEnd: nat, newEnd: nat)
    ensures prefix <= oldEnd <= |initial| && prefix <= newEnd <= |working|
    ensures Splice(initial, prefix, oldEnd, working[prefix..newEnd]) == working
  {
    prefix, oldEnd, newEnd := Collapse(initial, working);
    CommonEndsRebuild(initial, working, prefix, |initial| - oldEnd);
  }
}
