/** Reading one bounded page of a large document through a small window of bytes. */
module Pages {
  import opened Utf8
  import opened Wrappers
  import opened Seqs

  const MAX_PAGE_BYTES: nat := 64 * 1024

  datatype Page = Page(start: nat, text: Text)

  datatype PageError = StartPastEnd | NotABoundary | TooLong | NotText

  /** The page as a function of the whole document: out to whole characters at both ends,
      then cut back to the page limit. */
  function PageAt(doc: Text, start: nat, len: nat): Result<Page, PageError> {
    if start > |doc| then Err(StartPastEnd)
    else if len == 0 then
      if IsBoundary(doc, start) then Ok(Page(start, [])) else Err(NotABoundary)
    else if len > MAX_PAGE_BYTES then Err(TooLong)
    else
      var s := FloorBoundary(doc, start);
      Ok(Page(s, doc[s..PageEnd(doc, s, if start + len < |doc| then start + len else |doc|)]))
  }

  function PageEnd(doc: Text, s: nat, wanted: nat): (e: nat)
    requires s <= wanted <= |doc| && IsBoundary(doc, s)
    ensures s <= e <= |doc| && IsBoundary(doc, e)
  {
    var e := CeilBoundary(doc, wanted);
    if e - s > MAX_PAGE_BYTES then
      FloorIsLast(doc, s + MAX_PAGE_BYTES, s);
      FloorBoundary(doc, s + MAX_PAGE_BYTES)
    else e
  }

  // ---- What a page is -----------------------------------------------------------

  /** A page is an exact run of whole characters of the document, within the limit; it starts
      at most three bytes early, and reaches past `start` unless that is the end. */
  lemma PageIsSlice(doc: Text, start: nat, len: nat)
    requires Valid(doc) && start <= |doc| && 1 <= len <= MAX_PAGE_BYTES
    ensures PageAt(doc, start, len).Ok?
    ensures var p := PageAt(doc, start, len).value;
      && p.start <= start <= p.start + 3
      && p.start + |p.text| <= |doc| && doc[p.start..p.start + |p.text|] == p.text
      && IsBoundary(doc, p.start) && IsBoundary(doc, p.start + |p.text|) && Valid(p.text)
      && |p.text| <= MAX_PAGE_BYTES
      && (start < |doc| ==> start < p.start + |p.text|)
      && (IsBoundary(doc, start) ==> p.start == start)
    ensures var p := PageAt(doc, start, len).value;
      var wanted, end := if start + len < |doc| then start + len else |doc|, p.start + |p.text|;
      && (wanted <= end || p.start + MAX_PAGE_BYTES - 3 <= end)
      && (forall k: nat :: k <= start && IsBoundary(doc, k) ==> k <= p.start)
      && (forall k: nat :: wanted <= k <= |doc| && IsBoundary(doc, k) && k <= p.start + MAX_PAGE_BYTES ==> end <= k)
      && (forall k: nat :: k <= wanted && IsBoundary(doc, k) && k <= p.start + MAX_PAGE_BYTES ==> k <= end)
  {
    hide Valid;
    hide IsBoundary;
    var s := FloorBoundary(doc, start);
    var wanted := if start + len < |doc| then start + len else |doc|;
    var e := PageEnd(doc, s, wanted);
    FloorNear(doc, start);
    SliceValid(doc, s, e);
    PageEndReaches(doc, s, wanted);
    PageEndExact(doc, s, wanted);
    forall k: nat | k <= start && IsBoundary(doc, k) ensures k <= s {
      FloorIsLast(doc, start, k);
    }
  }

  /** The end is the first boundary from the wanted one on, or else the last one in the limit. */
  lemma PageEndExact(doc: Text, s: nat, wanted: nat)
    requires s <= wanted <= |doc| && IsBoundary(doc, s)
    ensures var e := PageEnd(doc, s, wanted);
      && (forall k: nat :: wanted <= k <= |doc| && IsBoundary(doc, k) && k <= s + MAX_PAGE_BYTES ==> e <= k)
      && (forall k: nat :: k <= wanted && IsBoundary(doc, k) && k <= s + MAX_PAGE_BYTES ==> k <= e)
  {
    hide IsBoundary;
    forall k: nat | wanted <= k <= |doc| && IsBoundary(doc, k) ensures CeilBoundary(doc, wanted) <= k {
      CeilIsFirst(doc, wanted, k);
    }
    if CeilBoundary(doc, wanted) - s > MAX_PAGE_BYTES {
      forall k: nat | k <= s + MAX_PAGE_BYTES && IsBoundary(doc, k) ensures k <= FloorBoundary(doc, s + MAX_PAGE_BYTES) {
        FloorIsLast(doc, s + MAX_PAGE_BYTES, k);
      }
    }
  }

  /** Which pages there are; the empty one is where it was asked for. */
  lemma PageExists(doc: Text, start: nat, len: nat)
    ensures PageAt(doc, start, len).Ok? <==>
      start <= |doc| && len <= MAX_PAGE_BYTES && (len == 0 ==> IsBoundary(doc, start))
    ensures len == 0 && PageAt(doc, start, len).Ok? ==> PageAt(doc, start, len).value == Page(start, [])
  {
  }

  lemma PageEndReaches(doc: Text, s: nat, wanted: nat)
    requires Valid(doc) && s <= wanted <= |doc| && IsBoundary(doc, s)
    ensures PageEnd(doc, s, wanted) <= s + MAX_PAGE_BYTES
    ensures wanted <= PageEnd(doc, s, wanted) || s + MAX_PAGE_BYTES - 3 <= PageEnd(doc, s, wanted)
  {
    hide Valid;
    if CeilBoundary(doc, wanted) - s > MAX_PAGE_BYTES {
      FloorNear(doc, s + MAX_PAGE_BYTES);
    }
  }

  /** The pages met by starting each read where the last one ended. */
  ghost function Walk(doc: Text, start: nat, len: nat): (pages: seq<Text>)
    requires Valid(doc) && start <= |doc| && 1 <= len <= MAX_PAGE_BYTES
    decreases |doc| - start
  {
    if start == |doc| then []
    else
      PageIsSlice(doc, start, len);
      var p := PageAt(doc, start, len).value;
      [p.text] + Walk(doc, p.start + |p.text|, len)
  }

  /** Walking terminates and yields the document, each byte once, in non-empty pages. */
  lemma {:induction false} WalkIsDocument(doc: Text, start: nat, len: nat)
    requires Valid(doc) && start <= |doc| && IsBoundary(doc, start) && 1 <= len <= MAX_PAGE_BYTES
    ensures Flatten(Walk(doc, start, len)) == doc[start..]
    ensures forall page :: page in Walk(doc, start, len) ==> 0 < |page| <= MAX_PAGE_BYTES
    decreases |doc| - start
  {
    hide Valid;
    hide PageAt;
    hide IsBoundary;
    hide Flatten;
    if start == |doc| {
      FlattenNone<byte>();
    } else {
      var p := NextPage(doc, start, len);
      var e := start + |p.text|;
      WalkIsDocument(doc, e, len);
      FlattenCons(p.text, Walk(doc, e, len));
      assert doc[start..] == doc[start..e] + doc[e..];
    }
  }

  lemma NextPage(doc: Text, start: nat, len: nat) returns (p: Page)
    requires Valid(doc) && start < |doc| && IsBoundary(doc, start) && 1 <= len <= MAX_PAGE_BYTES
    ensures 0 < |p.text| <= MAX_PAGE_BYTES && start + |p.text| <= |doc|
    ensures doc[start..start + |p.text|] == p.text && IsBoundary(doc, start + |p.text|)
    ensures Walk(doc, start, len) == [p.text] + Walk(doc, start + |p.text|, len)
  {
    hide Valid;
    hide IsBoundary;
    hide PageAt;
    PageIsSlice(doc, start, len);
    p := PageAt(doc, start, len).value;
  }

  // ---- The windowed read --------------------------------------------------------

  /** A window from a boundary to `to` holds whole characters up to the last boundary in it. */
  lemma WindowText(doc: Text, from: nat, to: nat)
    requires Valid(doc) && from <= to <= |doc| && IsBoundary(doc, from)
    ensures FromUtf8(doc[from..to]) == (if ValidUpTo(doc[from..to]) == to - from then Complete
                                        else Incomplete(ValidUpTo(doc[from..to])))
    ensures from + ValidUpTo(doc[from..to]) == FloorBoundary(doc, to)
  {
    hide Valid;
    hide ValidUpTo;
    hide IsBoundary;
    hide Truncated;
    hide FloorBoundary;
    var bytes := doc[from..to];
    var v := ValidUpTo(bytes);
    SplitAtBoundary(doc, from);
    WindowRest(doc, from, to, 0);
    assert bytes[0..] == bytes;
    CutText(bytes, doc[to..]);
    CutBoundary(doc, from, to);
    WindowRest(doc, from, to, v);
    if v < |bytes| {
      CutMiddle(doc, from + v, to);
      LastBefore(doc, from + v, to);
    } else {
      LastBefore(doc, to, to);
    }
  }

  lemma WindowRest(doc: Text, from: nat, to: nat, v: nat)
    requires from <= to <= |doc| && v <= to - from
    ensures doc[from..to][v..] == doc[from + v..to]
    ensures doc[from + v..to] + doc[to..] == doc[from + v..]
  {
  }

  lemma CutBoundary(doc: Text, from: nat, to: nat)
    requires Valid(doc) && from <= to <= |doc| && IsBoundary(doc, from)
    ensures IsBoundary(doc, from + ValidUpTo(doc[from..to]))
  {
    hide Valid;
    hide ValidUpTo;
    var v := ValidUpTo(doc[from..to]);
    SplitAtBoundary(doc, from);
    ValidUpToIsValid(doc[from..to]);
    assert doc[from..to][..v] == doc[from..][..v];
    ValidPrefixBoundary(doc[from..], v);
    if 0 < v < |doc| - from {
      assert doc[from..][v] == doc[from + v];
    }
  }

  lemma {:induction false} LastBefore(doc: Text, b: nat, to: nat)
    requires b <= to <= |doc| && IsBoundary(doc, b) && (to < |doc| || b == to)
    requires forall k :: b < k <= to ==> IsCont(doc[k])
    ensures FloorBoundary(doc, to) == b
  {
    if b < to {
      LastBefore(doc, b, to - 1);
    }
  }

  /** Inside a cut character there are only continuation bytes. */
  lemma CutMiddle(doc: Text, b: nat, to: nat)
    requires b < to <= |doc| && Truncated(doc[b..to]) && Valid(doc[b..])
    ensures to < |doc|
    ensures forall k :: b < k <= to ==> IsCont(doc[k])
  {
    var s := doc[b..];
    assert StartsWithChar(s) && s[0] == doc[b..to][0];
    forall k | b < k <= to ensures IsCont(doc[k]) {
      assert doc[k] == s[k - b];
    }
  }

  /** Load bytes, back up to a character start, and drop a cut character at the end. */
  method LoadAligned(doc: Text, from: nat, to: nat) returns (r: Result<Page, PageError>)
    requires Valid(doc) && from <= to <= |doc| && (from < to || from == 0)
    ensures FloorBoundary(doc, from) <= FloorBoundary(doc, to)
    ensures r == Ok(Page(FloorBoundary(doc, from), doc[FloorBoundary(doc, from)..FloorBoundary(doc, to)]))
  {
    hide Valid;
    hide ValidUpTo;
    var loadStart := from;
    var bytes := doc[loadStart..to];
    while loadStart > 0 && bytes != [] && IsCont(bytes[0])
      invariant loadStart <= from && bytes == doc[loadStart..to]
      invariant FloorBoundary(doc, loadStart) == FloorBoundary(doc, from)
      decreases loadStart
    {
      loadStart := loadStart - 1;
      bytes := doc[loadStart..to];
    }
    assert IsBoundary(doc, loadStart);
    WindowText(doc, loadStart, to);
    var decoded := FromUtf8(bytes);
    if decoded.Malformed? {
      return Err(NotText);
    }
    var validLen := if decoded.Complete? then |bytes| else decoded.validUpTo;
    r := Ok(Page(loadStart, bytes[..validLen]));
    assert bytes[..validLen] == doc[loadStart..loadStart + validLen];
  }

  method AlignDown(t: Text, i: nat) returns (b: nat)
    requires i <= |t|
    ensures b == FloorBoundary(t, i)
  {
    b := i;
    while b > 0 && !IsBoundary(t, b)
      invariant b <= i && FloorBoundary(t, b) == FloorBoundary(t, i)
    {
      b := b - 1;
    }
  }

  method AlignUp(t: Text, i: nat) returns (b: nat)
    requires i <= |t|
    ensures b == CeilBoundary(t, i)
  {
    b := i;
    while b < |t| && !IsBoundary(t, b)
      invariant b <= |t| && CeilBoundary(t, b) == CeilBoundary(t, i)
    {
      b := b + 1;
    }
  }

  /** Boundaries searched for inside a loaded window are those of the document. */
  lemma {:induction false} FloorInWindow(doc: Text, s: nat, e: nat, i: nat)
    requires Valid(doc) && s <= e <= |doc| && IsBoundary(doc, s) && IsBoundary(doc, e) && i <= e - s
    ensures s + FloorBoundary(doc[s..e], i) == FloorBoundary(doc, s + i)
  {
    hide Valid;
    BoundaryInSlice(doc, s, e, i);
    if !IsBoundary(doc, s + i) {
      FloorInWindow(doc, s, e, i - 1);
    }
  }

  lemma {:induction false} CeilInWindow(doc: Text, s: nat, e: nat, i: nat)
    requires Valid(doc) && s <= e <= |doc| && IsBoundary(doc, s) && IsBoundary(doc, e) && i <= e - s
    ensures s + CeilBoundary(doc[s..e], i) == CeilBoundary(doc, s + i)
    decreases e - s - i
  {
    hide Valid;
    BoundaryInSlice(doc, s, e, i);
    if !IsBoundary(doc, s + i) {
      CeilInWindow(doc, s, e, i + 1);
    }
  }

  /** The whole read looks at no more than eleven bytes around the page. */
  method ReadPage(doc: Text, start: nat, len: nat) returns (r: Result<Page, PageError>)
    requires Valid(doc)
    ensures r == PageAt(doc, start, len)
  {
    hide Valid;
    hide PageEnd;
    hide FloorBoundary;
    hide CeilBoundary;
    if start > |doc| {
      return Err(StartPastEnd);
    }
    var from: nat := if start > 4 then start - 4 else 0;
    if len == 0 {
      if 0 < start < |doc| {
        var probeEnd: nat := if start + 4 < |doc| then start + 4 else |doc|;
        WindowCovers(doc, start, probeEnd);
        var loaded := LoadAligned(doc, from, probeEnd);
        var probe := loaded.value;
        BoundaryInSlice(doc, probe.start, probe.start + |probe.text|, start - probe.start);
        if !IsBoundary(probe.text, start - probe.start) {
          return Err(NotABoundary);
        }
      }
      return Ok(Page(start, []));
    }
    if len > MAX_PAGE_BYTES {
      return Err(TooLong);
    }
    var requestedEnd: nat := if start + len < |doc| then start + len else |doc|;
    var loadEnd: nat := if requestedEnd + 4 < |doc| then requestedEnd + 4 else |doc|;
    WindowCovers(doc, requestedEnd, loadEnd);
    var loaded := LoadAligned(doc, from, loadEnd);
    if loaded.Err? {
      return loaded;
    }
    r := CutPage(doc, loaded.value, start, requestedEnd);
  }

  /** Four spare bytes are enough for the last boundary in a window not to fall short. */
  lemma WindowCovers(doc: Text, i: nat, to: nat)
    requires Valid(doc) && i <= to <= |doc| && (to == |doc| || to == i + 4)
    ensures i <= FloorBoundary(doc, to)
  {
    FloorNear(doc, to);
  }

  /** Ends found in a window, with the document offset of the window added, are the page's. */
  lemma PageInWindow(doc: Text, s: nat, e: nat, start: nat, wanted: nat)
    requires Valid(doc) && s <= start <= wanted <= e <= |doc|
    requires IsBoundary(doc, s) && IsBoundary(doc, e)
    ensures var ls, le := FloorBoundary(doc[s..e], start - s), CeilBoundary(doc[s..e], wanted - s);
      && s + ls == FloorBoundary(doc, start)
      && (le - ls <= MAX_PAGE_BYTES ==> s + le == PageEnd(doc, s + ls, wanted))
      && (le - ls > MAX_PAGE_BYTES ==>
            s + FloorBoundary(doc[s..e], ls + MAX_PAGE_BYTES) == PageEnd(doc, s + ls, wanted))
  {
    hide Valid;
    hide IsBoundary;
    FloorInWindow(doc, s, e, start - s);
    CeilInWindow(doc, s, e, wanted - s);
    var ls, le := FloorBoundary(doc[s..e], start - s), CeilBoundary(doc[s..e], wanted - s);
    if le - ls > MAX_PAGE_BYTES {
      FloorInWindow(doc, s, e, ls + MAX_PAGE_BYTES);
    }
  }

  method CutPage(ghost doc: Text, window: Page, start: nat, requestedEnd: nat)
    returns (r: Result<Page, PageError>)
    requires Valid(doc) && start <= requestedEnd <= |doc|
    requires window.start <= start && requestedEnd <= window.start + |window.text| <= |doc|
    requires window.text == doc[window.start..window.start + |window.text|]
    requires IsBoundary(doc, window.start) && IsBoundary(doc, window.start + |window.text|)
    ensures r == Ok(Page(FloorBoundary(doc, start),
                         doc[FloorBoundary(doc, start)..PageEnd(doc, FloorBoundary(doc, start), requestedEnd)]))
  {
    hide *;
    var loaded := window.text;
    PageInWindow(doc, window.start, window.start + |loaded|, start, requestedEnd);
    var localStart := AlignDown(loaded, start - window.start);
    var localEnd := AlignUp(loaded, requestedEnd - window.start);
    if localEnd - localStart > MAX_PAGE_BYTES {
      localEnd := AlignDown(loaded, localStart + MAX_PAGE_BYTES);
    }
    SliceOfSlice(doc, window.start, window.start + |loaded|, localStart, localEnd);
    r := Ok(Page(window.start + localStart, loaded[localStart..localEnd]));
  }
}
