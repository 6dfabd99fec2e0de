/** Range edits, and the collapse of an edited text into one replacement. */
module Edits {
  import opened Utf8
  import opened Wrappers

  const MAX_SNAPSHOT_BYTES: nat := 2 * 1024 * 1024

  /** Replace `start..end` by `text`; offsets address the result of the edits before it. */
  datatype RangeEdit = RangeEdit(start: nat, end: nat, text: Text)

  predicate ValidEdits(edits: seq<RangeEdit>) {
    forall e :: e in edits ==> Valid(e.text)
  }

  function Splice(t: Text, start: nat, end: nat, ins: Text): Text
    requires start <= end <= |t|
  {
    t[..start] + ins + t[end..]
  }

  predicate Fits(t: Text, e: RangeEdit) {
    e.start <= e.end <= |t| && IsBoundary(t, e.start) && IsBoundary(t, e.end)
  }

  /** Sequential application; None when an edit does not fit or a result is over the limit. */
  function ApplyEdits(t: Text, edits: seq<RangeEdit>): Option<Text>
    decreases |edits|
  {
    if edits == [] then Some(t)
    else if !Fits(t, edits[0]) then None
    else
      var next := Splice(t, edits[0].start, edits[0].end, edits[0].text);
      if |next| > MAX_SNAPSHOT_BYTES then None else ApplyEdits(next, edits[1..])
  }

  /** The meaning of a list of edits: each in turn, on a text of any size. */
  function Sequential(t: Text, edits: seq<RangeEdit>): Option<Text>
    decreases |edits|
  {
    if edits == [] then Some(t)
    else if !Fits(t, edits[0]) then None
    else Sequential(Splice(t, edits[0].start, edits[0].end, edits[0].text), edits[1..])
  }

  /** The limit only ever refuses: what it lets through is the sequential result. */
  lemma {:induction false} LimitOnlyRefuses(t: Text, edits: seq<RangeEdit>)
    ensures ApplyEdits(t, edits).Some? ==> ApplyEdits(t, edits) == Sequential(t, edits)
    decreases |edits|
  {
    if edits != [] && Fits(t, edits[0]) {
      LimitOnlyRefuses(Splice(t, edits[0].start, edits[0].end, edits[0].text), edits[1..]);
    }
  }

  lemma SequentialNothing(doc: Text)
    ensures Sequential(doc, []) == Some(doc)
  {
  }

  /** By how much edits change the length. */
  function Growth(edits: seq<RangeEdit>): int {
    if edits == [] then 0 else |edits[0].text| - (edits[0].end - edits[0].start) + Growth(edits[1..])
  }

  lemma {:induction false} SequentialLength(doc: Text, edits: seq<RangeEdit>)
    requires Sequential(doc, edits).Some?
    ensures |Sequential(doc, edits).value| == |doc| + Growth(edits)
    decreases |edits|
  {
    hide IsBoundary;
    if edits != [] {
      SequentialLength(Splice(doc, edits[0].start, edits[0].end, edits[0].text), edits[1..]);
    }
  }

  /** The k-th edit fits the text as the ones before it left it, and leaves it within the limit. */
  predicate InLimit(t: Text, edits: seq<RangeEdit>, k: nat)
    requires k < |edits|
  {
    var before := Sequential(t, edits[..k]);
    before.Some? && Fits(before.value, edits[k]) && |t| + Growth(edits[..k + 1]) <= MAX_SNAPSHOT_BYTES
  }

  lemma InLimitRest(t: Text, edits: seq<RangeEdit>, k: nat)
    requires 0 < k < |edits| && Fits(t, edits[0])
    ensures var e := edits[0];
      InLimit(t, edits, k) <==> InLimit(Splice(t, e.start, e.end, e.text), edits[1..], k - 1)
  {
    assert edits[..k][1..] == edits[1..][..k - 1];
    assert edits[..k + 1][1..] == edits[1..][..k];
  }

  /** Exactly these lists of edits are accepted. */
  lemma {:induction false} AcceptedExactly(t: Text, edits: seq<RangeEdit>)
    ensures ApplyEdits(t, edits).Some? <==> forall k :: 0 <= k < |edits| ==> InLimit(t, edits, k)
    decreases |edits|
  {
    hide InLimit;
    hide IsBoundary;
    if edits != [] {
      var e := edits[0];
      FirstInLimit(t, edits);
      if InLimit(t, edits, 0) {
        var next := Splice(t, e.start, e.end, e.text);
        AcceptedExactly(next, edits[1..]);
        forall k | 0 < k < |edits| ensures InLimit(t, edits, k) <==> InLimit(next, edits[1..], k - 1) {
          InLimitRest(t, edits, k);
        }
        if ApplyEdits(t, edits).Some? {
          forall k | 0 <= k < |edits| ensures InLimit(t, edits, k) {
            assert k > 0 ==> InLimit(next, edits[1..], k - 1);
          }
        } else {
          var k :| 0 <= k < |edits[1..]| && !InLimit(next, edits[1..], k);
          assert !InLimit(t, edits, k + 1);
        }
      }
    }
  }

  lemma FirstInLimit(t: Text, edits: seq<RangeEdit>)
    requires edits != []
    ensures var e := edits[0];
      InLimit(t, edits, 0) <==>
      Fits(t, e) && |Splice(t, e.start, e.end, e.text)| <= MAX_SNAPSHOT_BYTES
  {
    var e := edits[0];
    assert edits[..0] == [] && edits[..1] == [e];
    GrowthOne(e);
    assert Sequential(t, []) == Some(t);
    if Fits(t, e) {
      assert |Splice(t, e.start, e.end, e.text)| == |t| + |e.text| - (e.end - e.start);
    }
  }

  lemma GrowthNone()
    ensures Growth([]) == 0
  {
  }

  lemma GrowthOne(e: RangeEdit)
    ensures Growth([e]) == |e.text| - (e.end - e.start)
  {
    assert [e][1..] == [];
  }

  lemma SpliceValid(t: Text, start: nat, end: nat, ins: Text)
    requires Valid(t) && Valid(ins)
    requires start <= end <= |t| && IsBoundary(t, start) && IsBoundary(t, end)
    ensures Valid(Splice(t, start, end, ins))
  {
    SplitAtBoundary(t, start);
    SplitAtBoundary(t, end);
    ValidConcat(t[..start], ins);
    ValidConcat(t[..start] + ins, t[end..]);
  }

  lemma {:induction false} ApplyEditsValid(t: Text, edits: seq<RangeEdit>)
    requires Valid(t) && ValidEdits(edits)
    ensures ApplyEdits(t, edits).Some? ==> Valid(ApplyEdits(t, edits).value)
    decreases |edits|
  {
    if edits != [] && Fits(t, edits[0]) {
      SpliceValid(t, edits[0].start, edits[0].end, edits[0].text);
      ApplyEditsValid(Splice(t, edits[0].start, edits[0].end, edits[0].text), edits[1..]);
    }
  }

  lemma {:induction false} ApplyEditsSnoc(t: Text, edits: seq<RangeEdit>, e: RangeEdit)
    ensures ApplyEdits(t, edits + [e]) ==
      match ApplyEdits(t, edits)
      case None => None
      case Some(u) =>
        if Fits(u, e) && |Splice(u, e.start, e.end, e.text)| <= MAX_SNAPSHOT_BYTES
        then Some(Splice(u, e.start, e.end, e.text)) else None
    decreases |edits|
  {
    if edits == [] {
      assert [e][1..] == [];
      assert edits + [e] == [e];
    } else {
      assert (edits + [e])[1..] == edits[1..] + [e];
      if Fits(t, edits[0]) {
        ApplyEditsSnoc(Splice(t, edits[0].start, edits[0].end, edits[0].text), edits[1..], e);
      }
    }
  }

  lemma {:induction false} SequentialSnoc(t: Text, edits: seq<RangeEdit>, e: RangeEdit)
    ensures Sequential(t, edits + [e]) ==
      match Sequential(t, edits)
      case None => None
      case Some(u) => if Fits(u, e) then Some(Splice(u, e.start, e.end, e.text)) else None
    decreases |edits|
  {
    if edits == [] {
      assert [e][1..] == [];
      assert edits + [e] == [e];
    } else {
      assert (edits + [e])[1..] == edits[1..] + [e];
      if Fits(t, edits[0]) {
        SequentialSnoc(Splice(t, edits[0].start, edits[0].end, edits[0].text), edits[1..], e);
      }
    }
  }

  // ---- The common ends of two texts -------------------------------------------

  /** The texts share a prefix of `p` and a suffix of `s` bytes, cut between characters. */
  ghost predicate CommonEnds(before: Text, after: Text, p: nat, s: nat) {
    && p + s <= |before| && p + s <= |after|
    && before[..p] == after[..p]
    && before[|before| - s..] == after[|after| - s..]
    && IsBoundary(before, p) && IsBoundary(after, p)
    && IsBoundary(before, |before| - s) && IsBoundary(after, |after| - s)
  }

  ghost predicate SharedPrefix(before: Text, after: Text, p: nat) {
    p <= |before| && p <= |after| && before[..p] == after[..p] && IsBoundary(before, p) && IsBoundary(after, p)
  }

  /** The longest such prefix, then the longest such suffix that does not overlap it. */
  ghost predicate Collapsed(before: Text, after: Text, p: nat, s: nat) {
    && CommonEnds(before, after, p, s)
    && (forall q: nat :: SharedPrefix(before, after, q) ==> q <= p)
    && (forall t: nat :: CommonEnds(before, after, p, t) ==> t <= s)
  }

  lemma CollapsedUnique(before: Text, after: Text, p: nat, s: nat, p': nat, s': nat)
    requires Collapsed(before, after, p, s) && Collapsed(before, after, p', s')
    ensures p == p' && s == s'
  {
    assert SharedPrefix(before, after, p) && SharedPrefix(before, after, p');
  }

  /** Replacing the middle of one text by the middle of the other gives the other. */
  lemma CommonEndsRebuild(before: Text, after: Text, p: nat, s: nat)
    requires CommonEnds(before, after, p, s)
    ensures Splice(before, p, |before| - s, after[p..|after| - s]) == after
  {
    assert after[..p] + after[p..|after| - s] + after[|after| - s..] == after;
  }

  /** In valid text, a boundary before the end depends only on the byte at that offset. */
  lemma BoundaryByByte(t: Text, i: nat)
    requires Valid(t) && i < |t|
    ensures IsBoundary(t, i) <==> !IsCont(t[i])
  {
  }

  /** Boundaries counted from the end agree on a common suffix. */
  lemma SuffixLockstep(before: Text, after: Text, s: nat)
    requires Valid(before) && Valid(after) && s <= |before| && s <= |after|
    requires before[|before| - s..] == after[|after| - s..]
    ensures IsBoundary(before, |before| - s) <==> IsBoundary(after, |after| - s)
  {
    if s > 0 {
      assert before[|before| - s..][0] == after[|after| - s..][0];
      BoundaryByByte(before, |before| - s);
      BoundaryByByte(after, |after| - s);
    }
  }

  /** Bytes that agree at both ends: no longer run does. */
  lemma NoLongerPrefix(before: Text, after: Text, c: nat)
    requires c <= |before| && c <= |after|
    requires c < |before| && c < |after| ==> before[c] != after[c]
    ensures forall q: nat :: SharedPrefix(before, after, q) ==> q <= c
  {
    forall q: nat | c < q <= |before| && q <= |after| ensures before[..q] != after[..q] {
      assert before[..q][c] == before[c];
      assert after[..q][c] == after[c];
    }
  }

  ghost predicate SameTail(before: Text, after: Text, s: nat) {
    s <= |before| && s <= |after| && before[|before| - s..] == after[|after| - s..]
  }

  lemma NoLongerSuffix(before: Text, after: Text, p: nat, c: nat)
    requires p + c <= |before| && p + c <= |after|
    requires p + c < |before| && p + c < |after| ==> before[|before| - c - 1] != after[|after| - c - 1]
    ensures forall t: nat :: CommonEnds(before, after, p, t) ==> t <= c
  {
    forall t: nat | c < t && p + t <= |before| && p + t <= |after|
      ensures !SameTail(before, after, t)
    {
      assert before[|before| - t..][t - c - 1] == before[|before| - c - 1];
      assert after[|after| - t..][t - c - 1] == after[|after| - c - 1];
    }
    forall t: nat | CommonEnds(before, after, p, t) ensures SameTail(before, after, t) {}
  }

  /** The aligned common prefix: compare bytes, then back up to a character boundary. */
  method AlignedPrefix(before: Text, after: Text) returns (prefix: nat)
    ensures prefix <= |before| && prefix <= |after| && SharedPrefix(before, after, prefix)
    ensures forall q: nat :: SharedPrefix(before, after, q) ==> q <= prefix
  {
    prefix := 0;
    while prefix < |before| && prefix < |after| && before[prefix] == after[prefix]
      invariant prefix <= |before| && prefix <= |after| && before[..prefix] == after[..prefix]
    {
      prefix := prefix + 1;
    }
    NoLongerPrefix(before, after, prefix);
    while !IsBoundary(before, prefix) || !IsBoundary(after, prefix)
      invariant prefix <= |before| && prefix <= |after| && before[..prefix] == after[..prefix]
      invariant forall q: nat :: SharedPrefix(before, after, q) ==> q <= prefix
      decreases prefix
    {
      ghost var was := prefix;
      prefix := prefix - 1;
      assert before[..was][..prefix] == after[..was][..prefix];
      assert before[..was][..prefix] == before[..prefix] && after[..was][..prefix] == after[..prefix];
    }
  }

  lemma SameTailStep(before: Text, after: Text, s: nat)
    requires s < |before| && s < |after|
    ensures SameTail(before, after, s + 1) <==>
      SameTail(before, after, s) && before[|before| - s - 1] == after[|after| - s - 1]
  {
    assert before[|before| - s - 1..] == [before[|before| - s - 1]] + before[|before| - s..];
    assert after[|after| - s - 1..] == [after[|after| - s - 1]] + after[|after| - s..];
    assert before[|before| - s - 1..][1..] == before[|before| - s..];
    assert after[|after| - s - 1..][1..] == after[|after| - s..];
    assert before[|before| - s - 1..][0] == before[|before| - s - 1];
    assert after[|after| - s - 1..][0] == after[|after| - s - 1];
  }

  /** The common suffix in bytes, at most `limit` long. */
  method RawSuffix(before: Text, after: Text, ghost p: nat, limit: nat) returns (suffix: nat)
    requires p + limit <= |before| && p + limit <= |after|
    requires p + limit == |before| || p + limit == |after|
    ensures suffix <= limit && SameTail(before, after, suffix)
    ensures forall t: nat :: CommonEnds(before, after, p, t) ==> t <= suffix
  {
    suffix := 0;
    while suffix < limit && before[|before| - suffix - 1] == after[|after| - suffix - 1]
      invariant suffix <= limit && SameTail(before, after, suffix)
    {
      SameTailStep(before, after, suffix);
      suffix := suffix + 1;
    }
    NoLongerSuffix(before, after, p, suffix);
  }

  predicate BothBoundary(before: Text, after: Text, s: nat)
    requires s <= |before| && s <= |after|
  {
    IsBoundary(before, |before| - s) && IsBoundary(after, |after| - s)
  }

  /** One suffix counter moves back until it is aligned on both texts. */
  method AlignSuffix(before: Text, after: Text, raw: nat) returns (suffix: nat)
    requires SameTail(before, after, raw)
    ensures suffix <= raw && SameTail(before, after, suffix) && BothBoundary(before, after, suffix)
    ensures forall t: nat :: suffix < t <= raw ==> !BothBoundary(before, after, t)
  {
    suffix := raw;
    while suffix > 0 && !BothBoundary(before, after, suffix)
      invariant suffix <= raw && SameTail(before, after, suffix)
      invariant forall t: nat :: suffix < t <= raw ==> !BothBoundary(before, after, t)
    {
      SameTailStep(before, after, suffix - 1);
      suffix := suffix - 1;
    }
  }

  lemma AlignedIsCollapsed(before: Text, after: Text, prefix: nat, raw: nat, s: nat)
    requires SharedPrefix(before, after, prefix)
    requires forall q: nat :: SharedPrefix(before, after, q) ==> q <= prefix
    requires prefix + raw <= |before| && prefix + raw <= |after|
    requires forall t: nat :: CommonEnds(before, after, prefix, t) ==> t <= raw
    requires s <= raw && SameTail(before, after, s) && BothBoundary(before, after, s)
    requires forall t: nat :: s < t <= raw ==> !BothBoundary(before, after, t)
    ensures Collapsed(before, after, prefix, s)
  {
    assert CommonEnds(before, after, prefix, s);
    forall t: nat | CommonEnds(before, after, prefix, t) ensures BothBoundary(before, after, t) {}
  }

  /** The daemon's collapse of an edited text. */
  method Collapse(initial: Text, working: Text) returns (prefix: nat, oldEnd: nat, newEnd: nat)
    ensures prefix <= oldEnd <= |initial| && prefix <= newEnd <= |working|
    ensures |initial| - oldEnd == |working| - newEnd
    ensures Collapsed(initial, working, prefix, |initial| - oldEnd)
  {
    prefix := AlignedPrefix(initial, working);
    var suffixMax: nat := if |initial| < |working| then |initial| - prefix else |working| - prefix;
    var raw: nat := RawSuffix(initial, working, prefix, suffixMax);
    var suffix: nat := AlignSuffix(initial, working, raw);
    AlignedIsCollapsed(initial, working, prefix, raw, suffix);
    oldEnd := |initial| - suffix;
    newEnd := |working| - suffix;
  }

  // ---- The one diff -----------------------------------------------------------

  ghost function PrefixBelow(before: Text, after: Text, limit: nat): (p: nat)
    requires limit <= |before| && limit <= |after|
    ensures p <= limit && SharedPrefix(before, after, p)
    ensures forall q: nat :: SharedPrefix(before, after, q) && q <= limit ==> q <= p
  {
    if SharedPrefix(before, after, limit) then limit else PrefixBelow(before, after, limit - 1)
  }

  ghost function SuffixBelow(before: Text, after: Text, p: nat, limit: nat): (s: nat)
    requires SharedPrefix(before, after, p) && p + limit <= |before| && p + limit <= |after|
    ensures s <= limit && CommonEnds(before, after, p, s)
    ensures forall t: nat :: CommonEnds(before, after, p, t) && t <= limit ==> t <= s
  {
    if CommonEnds(before, after, p, limit) then limit
    else
      assert CommonEnds(before, after, p, 0);
      SuffixBelow(before, after, p, limit - 1)
  }

  /** The edits are the one diff between two texts: none if they agree, otherwise the
      replacement of everything between the longest common ends. */
  ghost predicate IsDiff(before: Text, after: Text, edits: seq<RangeEdit>) {
    if before == after then edits == []
    else
      && |edits| == 1
      && edits[0].start <= edits[0].end <= |before|
      && Collapsed(before, after, edits[0].start, |before| - edits[0].end)
      && edits[0].text == after[edits[0].start..|after| - (|before| - edits[0].end)]
  }

  lemma DiffUnique(before: Text, after: Text, d: seq<RangeEdit>, e: seq<RangeEdit>)
    requires IsDiff(before, after, d) && IsDiff(before, after, e)
    ensures d == e
  {
    if before != after {
      CollapsedUnique(before, after, d[0].start, |before| - d[0].end, e[0].start, |before| - e[0].end);
    }
  }

  lemma DiffExists(before: Text, after: Text)
    ensures exists edits :: IsDiff(before, after, edits)
  {
    if before == after {
      assert IsDiff(before, after, []);
    } else {
      var m := if |before| < |after| then |before| else |after|;
      var p := PrefixBelow(before, after, m);
      var s := SuffixBelow(before, after, p, m - p);
      assert IsDiff(before, after, [RangeEdit(p, |before| - s, after[p..|after| - s])]);
    }
  }

  lemma ApplyOne(t: Text, e: RangeEdit, after: Text)
    requires Fits(t, e) && Splice(t, e.start, e.end, e.text) == after
    ensures ApplyEdits(t, [e]) == if |after| <= MAX_SNAPSHOT_BYTES then Some(after) else None
  {
    assert [e][1..] == [];
  }

  /** A diff fits the text it was taken from, carries whole characters, and rebuilds the
      other text: sending it succeeds exactly when that text is within the limit. */
  lemma DiffRebuilds(before: Text, after: Text, edits: seq<RangeEdit>)
    requires Valid(before) && Valid(after) && before != after && IsDiff(before, after, edits)
    ensures ValidEdits(edits) && |edits| == 1 && Fits(before, edits[0])
    ensures ApplyEdits(before, edits) == if |after| <= MAX_SNAPSHOT_BYTES then Some(after) else None
  {
    hide Valid;
    var e := edits[0];
    var s: nat := |before| - e.end;
    assert CommonEnds(before, after, e.start, s);
    SliceValid(after, e.start, |after| - s);
    CommonEndsRebuild(before, after, e.start, s);
    ApplyOne(before, e, after);
    assert edits == [e];
  }

  // ---- Events on the edited buffer ----------------------------------------------

  datatype Event = Delete(start: nat, end: nat) | Insert(position: nat, text: Text)

  predicate EventFits(t: Text, e: Event) {
    match e
    case Delete(start, end) => start <= end <= |t|
    case Insert(position, _) => position <= |t|
  }

  function ApplyEvent(t: Text, e: Event): Text
    requires EventFits(t, e)
  {
    match e
    case Delete(start, end) => t[..start] + t[end..]
    case Insert(position, text) => t[..position] + text + t[position..]
  }

  /** The batch a replacement is sent as: a delete and an insert, either left out if empty. */
  function ReplacementEvents(start: nat, end: nat, text: Text): seq<Event> {
    (if end > start then [Delete(start, end)] else []) + (if text != [] then [Insert(start, text)] else [])
  }

  function ApplyEvents(t: Text, events: seq<Event>): Option<Text>
    decreases |events|
  {
    if events == [] then Some(t)
    else if !EventFits(t, events[0]) then None
    else ApplyEvents(ApplyEvent(t, events[0]), events[1..])
  }

  lemma EventsSplice(t: Text, start: nat, end: nat, text: Text)
    requires start <= end <= |t|
    ensures ApplyEvents(t, ReplacementEvents(start, end, text)) == Some(Splice(t, start, end, text))
  {
    var u := t[..start] + t[end..];
    assert u[..start] + text + u[start..] == Splice(t, start, end, text);
    if end == start {
      assert u == t;
    }
    if text == [] {
      assert Splice(t, start, end, text) == u;
    }
    if end > start && text != [] {
      assert ReplacementEvents(start, end, text)[1..] == [Insert(start, text)];
      assert ApplyEvents(u, [Insert(start, text)]) == Some(Splice(t, start, end, text)) by {
        assert [Insert(start, text)][1..] == [];
      }
    }
  }
}
