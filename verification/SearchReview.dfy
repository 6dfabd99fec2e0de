/** Reviewed replacements: the client decides match by match, and the client and the daemon apply
    the accepted ones back to front. */
module SearchReview {
  import opened Utf8
  import opened Wrappers
  import opened Edits
  import Seqs

  datatype Match = Match(start: nat, end: nat, replacement: Text)

  function EditOf(m: Match): RangeEdit {
    RangeEdit(m.start, m.end, m.replacement)
  }

  /** In order, apart, and cut between characters. */
  predicate Ascending(text: Text, matches: seq<Match>) {
    && (forall i :: 0 <= i < |matches| ==> Fits(text, EditOf(matches[i])))
    && (forall i, j :: 0 <= i < j < |matches| ==> matches[i].end <= matches[j].start)
  }

  predicate ValidReplacements(matches: seq<Match>) {
    forall m :: m in matches ==> Valid(m.replacement)
  }

  /** All matches replaced at once, read from left to right from offset `from` on. */
  function Substituted(text: Text, matches: seq<Match>, from: nat): Text
    requires Ascending(text, matches) && from <= |text|
    requires matches != [] ==> from <= matches[0].start
  {
    if matches == [] then text[from..]
    else
      AscendingRest(text, matches);
      text[from..matches[0].start] + matches[0].replacement + Substituted(text, matches[1..], matches[0].end)
  }

  lemma AscendingRest(text: Text, matches: seq<Match>)
    requires Ascending(text, matches) && matches != []
    ensures Ascending(text, matches[1..]) && Fits(text, EditOf(matches[0]))
    ensures |matches| > 1 ==> matches[0].end <= matches[1..][0].start
  {
    assert Fits(text, EditOf(matches[0]));
    forall i | 0 <= i < |matches[1..]| ensures Fits(text, EditOf(matches[1..][i])) {
      assert Fits(text, EditOf(matches[i + 1]));
    }
  }

  lemma SubstitutedFrom(text: Text, matches: seq<Match>, from: nat, to: nat)
    requires Ascending(text, matches) && from <= to <= |text|
    requires matches != [] ==> to <= matches[0].start
    ensures Substituted(text, matches, from) == text[from..to] + Substituted(text, matches, to)
  {
    hide Ascending;
    hide IsBoundary;
    if matches == [] {
      Seqs.SliceDrop(text, from, to);
    } else {
      AscendingRest(text, matches);
      var m := matches[0];
      var rest := Substituted(text, matches[1..], m.end);
      Joined(text, from, to, m.start, m.replacement, rest);
    }
  }

  lemma Joined(text: Text, from: nat, to: nat, start: nat, middle: Text, rest: Text)
    requires from <= to <= start <= |text|
    ensures text[from..start] + middle + rest == text[from..to] + (text[to..start] + middle + rest)
  {
    assert text[from..start] == text[from..to] + text[to..start];
  }

  lemma {:induction false} SubstitutedValid(text: Text, matches: seq<Match>, from: nat)
    requires Valid(text) && Ascending(text, matches) && ValidReplacements(matches)
    requires from <= |text| && IsBoundary(text, from) && (matches != [] ==> from <= matches[0].start)
    ensures Valid(Substituted(text, matches, from))
  {
    hide Valid;
    hide IsBoundary;
    if matches == [] {
      SplitAtBoundary(text, from);
    } else {
      AscendingRest(text, matches);
      SubstitutedValid(text, matches[1..], matches[0].end);
      SliceValid(text, from, matches[0].start);
      ValidConcat(text[from..matches[0].start], matches[0].replacement);
      ValidConcat(text[from..matches[0].start] + matches[0].replacement,
                  Substituted(text, matches[1..], matches[0].end));
    }
  }

  /** With everything behind a match already replaced, replacing the match itself fits, and
      leaves everything from it on replaced. */
  lemma BackwardStep(text: Text, matches: seq<Match>)
    requires Valid(text) && Ascending(text, matches) && ValidReplacements(matches) && matches != []
    ensures Ascending(text, matches[1..])
    ensures var behind := Substituted(text, matches[1..], 0); var e := EditOf(matches[0]);
      Fits(behind, e) && Splice(behind, e.start, e.end, e.text) == Substituted(text, matches, 0)
  {
    hide Valid;
    hide IsBoundary;
    AscendingRest(text, matches);
    var m := matches[0];
    var behind, rest := Substituted(text, matches[1..], 0), Substituted(text, matches[1..], m.end);
    SubstitutedFrom(text, matches[1..], 0, m.end);
    assert text[0..m.end] == text[..m.end] && behind == text[..m.end] + rest;
    EndsAreBoundaries(text);
    SubstitutedValid(text, matches[1..], 0);
    SplitAtBoundary(text, m.start);
    SplitAtBoundary(text, m.end);
    assert behind[..m.end] == text[..m.end] && behind[m.end..] == rest;
    assert behind[..m.start] == text[..m.start];
    ValidPrefixBoundary(behind, m.end);
    ValidPrefixBoundary(behind, m.start);
    assert text[0..m.start] == text[..m.start];
  }

  /** `apply_matches`: substitution when the ranges are well formed, nothing otherwise. */
  method ApplyMatches(text: Text, matches: seq<Match>) returns (result: Option<Text>)
    requires Valid(text) && ValidReplacements(matches)
    ensures result == if Ascending(text, matches) then Some(Substituted(text, matches, 0)) else None
    ensures result.Some? ==> Valid(result.value)
  {
    hide Valid;
    hide IsBoundary;
    var previousEnd, i := 0, 0;
    while i < |matches|
      invariant i <= |matches| && Ascending(text, matches[..i])
      invariant previousEnd == if i == 0 then 0 else matches[i - 1].end
    {
      var m := matches[i];
      if m.start < previousEnd || !Fits(text, EditOf(m)) {
        assert (i > 0 && m.start < matches[i - 1].end) || !Fits(text, EditOf(matches[i]));
        return None;
      }
      AscendingSnoc(text, matches, i);
      previousEnd := m.end;
      i := i + 1;
    }
    assert matches[..i] == matches;
    var edited := text;
    assert matches[i..] == [] && text[0..] == text;
    while i > 0
      invariant i <= |matches| && Ascending(text, matches[i..])
      invariant edited == Substituted(text, matches[i..], 0)
    {
      i := i - 1;
      var m := matches[i];
      AscendingSuffix(text, matches, i);
      assert matches[i..][1..] == matches[i + 1..];
      BackwardStep(text, matches[i..]);
      assert Fits(edited, EditOf(m));
      edited := Splice(edited, m.start, m.end, m.replacement);
    }
    assert matches[0..] == matches;
    EndsAreBoundaries(text);
    SubstitutedValid(text, matches, 0);
    return Some(edited);
  }

  lemma AscendingSnoc(text: Text, matches: seq<Match>, i: nat)
    requires i < |matches| && Ascending(text, matches[..i]) && Fits(text, EditOf(matches[i]))
    requires i > 0 ==> matches[i - 1].end <= matches[i].start
    ensures Ascending(text, matches[..i + 1])
  {
    var before, after := matches[..i], matches[..i + 1];
    forall k | 0 <= k < i ensures after[k] == before[k] && before[k].end <= matches[i].start {
      assert Fits(text, EditOf(before[k]));
      if k < i - 1 {
        assert before[k].end <= before[i - 1].start;
        assert Fits(text, EditOf(before[i - 1]));
      }
    }
  }

  lemma AscendingSuffix(text: Text, matches: seq<Match>, i: nat)
    requires i <= |matches| && Ascending(text, matches)
    ensures Ascending(text, matches[i..])
  {
    forall k | 0 <= k < |matches[i..]| ensures Fits(text, EditOf(matches[i..][k])) {
      assert Fits(text, EditOf(matches[i + k]));
    }
  }

  // ---- The daemon's edits ---------------------------------------------------------------

  function Descending(matches: seq<Match>): seq<RangeEdit> {
    if matches == [] then [] else Descending(matches[1..]) + [EditOf(matches[0])]
  }

  /** Applied one after another, the descending edits give the same text. */
  lemma {:induction false} DescendingSubstitutes(text: Text, matches: seq<Match>)
    requires Valid(text) && Ascending(text, matches) && ValidReplacements(matches)
    ensures Sequential(text, Descending(matches)) == Some(Substituted(text, matches, 0))
  {
    hide Valid;
    hide IsBoundary;
    hide Fits;
    if matches == [] {
      assert text[0..] == text;
    } else {
      BackwardStep(text, matches);
      DescendingSubstitutes(text, matches[1..]);
      SequentialSnoc(text, Descending(matches[1..]), EditOf(matches[0]));
    }
  }

  // ---- Decisions ---------------------------------------------------------------------------

  /** The matches from index `from` on whose index is in `keep`, in order. */
  function Chosen(matches: seq<Match>, keep: set<nat>, from: nat): seq<Match>
    requires from <= |matches|
    decreases |matches| - from
  {
    if from == |matches| then []
    else (if from in keep then [matches[from]] else []) + Chosen(matches, keep, from + 1)
  }

  lemma {:induction false} ChosenMembers(matches: seq<Match>, keep: set<nat>, from: nat)
    requires from <= |matches|
    ensures forall m :: m in Chosen(matches, keep, from) <==>
      exists i :: from <= i < |matches| && i in keep && matches[i] == m
    decreases |matches| - from
  {
    if from < |matches| {
      ChosenMembers(matches, keep, from + 1);
    }
  }

  lemma {:induction false} ChosenAscending(text: Text, matches: seq<Match>, keep: set<nat>, from: nat)
    requires Ascending(text, matches) && from <= |matches|
    ensures Ascending(text, Chosen(matches, keep, from))
    decreases |matches| - from
  {
    hide Fits;
    if from < |matches| {
      ChosenAscending(text, matches, keep, from + 1);
      ChosenMembers(matches, keep, from + 1);
      var c := Chosen(matches, keep, from + 1);
      assert forall i :: 0 <= i < |c| ==> c[i] in c;
      assert Fits(text, EditOf(matches[from]));
      assert forall i :: 0 < i < |[matches[from]] + c| ==> ([matches[from]] + c)[i] == c[i - 1];
    }
  }

  lemma {:induction false} ChosenSkips(matches: seq<Match>, keep: set<nat>, from: nat, to: nat)
    requires from <= to <= |matches| && forall i :: from <= i < to ==> i !in keep
    ensures Chosen(matches, keep, from) == Chosen(matches, keep, to)
    decreases |matches| - from
  {
    if from < to {
      ChosenSkips(matches, keep, from + 1, to);
    }
  }

  /** Whatever was accepted, the daemon's edits for it, when within the size limit, give the text
      that the client's review shows. */
  lemma DaemonAgrees(text: Text, matches: seq<Match>, keep: set<nat>)
    requires Valid(text) && Ascending(text, matches) && ValidReplacements(matches)
    ensures Ascending(text, Chosen(matches, keep, 0))
    ensures var chosen := Chosen(matches, keep, 0);
      && Sequential(text, Descending(chosen)) == Some(Substituted(text, chosen, 0))
      && (ApplyEdits(text, Descending(chosen)).Some? ==>
            ApplyEdits(text, Descending(chosen)) == Some(Substituted(text, chosen, 0)))
  {
    ChosenAscending(text, matches, keep, 0);
    ChosenMembers(matches, keep, 0);
    DescendingSubstitutes(text, Chosen(matches, keep, 0));
    LimitOnlyRefuses(text, Descending(Chosen(matches, keep, 0)));
  }

  /** The order of a review that starts somewhere and wraps once. */
  function VisitOrder(len: nat, start: nat): seq<nat> {
    var at := if start < len then start else 0;
    seq(len, k requires 0 <= k < len => if at + k < len then at + k else at + k - len)
  }

  /** Wherever a review starts it passes every match exactly once, on from there and around. */
  lemma VisitsEachOnce(len: nat, start: nat)
    ensures |VisitOrder(len, start)| == len
    ensures forall k :: 0 <= k < len ==> 0 <= VisitOrder(len, start)[k] < len
    ensures forall i :: 0 <= i < len ==> i in VisitOrder(len, start)
    ensures len > 0 ==> VisitOrder(len, start)[0] == if start < len then start else 0
    ensures forall k :: 0 < k < len ==>
      var before := VisitOrder(len, start)[k - 1];
      VisitOrder(len, start)[k] == if before == len - 1 then 0 else before + 1
    ensures forall j, k :: 0 <= j < k < len ==> VisitOrder(len, start)[j] != VisitOrder(len, start)[k]
  {
    var at := if start < len then start else 0;
    forall i | 0 <= i < len ensures i in VisitOrder(len, start) {
      assert VisitOrder(len, start)[if i >= at then i - at else i + len - at] == i;
    }
  }

  class SearchReview {
    const text: Text
    const matches: seq<Match>
    const visitOrder: seq<nat>
    var visitPosition: nat
    var accepted: seq<bool>
    /** What was decided at each visited position. */
    ghost var decisions: seq<bool>

    ghost predicate IsReview()
      reads this
    {
      && Valid(text) && ValidReplacements(matches)
      && |visitOrder| == |matches| == |accepted|
      && (forall k :: 0 <= k < |visitOrder| ==> visitOrder[k] < |matches|)
      && (forall i :: 0 <= i < |matches| ==> i in visitOrder)
      && (forall j, k :: 0 <= j < k < |visitOrder| ==> visitOrder[j] != visitOrder[k])
      && |decisions| == visitPosition <= |matches|
      && (forall k :: 0 <= k < |matches| ==> accepted[visitOrder[k]] == (k < visitPosition && decisions[k]))
    }

    ghost function Accepted(): set<nat>
      reads this
    {
      set i: nat | i < |accepted| && accepted[i]
    }

    constructor At(text: Text, matches: seq<Match>, start: nat)
      requires Valid(text) && ValidReplacements(matches)
      ensures IsReview() && this.text == text && this.matches == matches
      ensures visitOrder == VisitOrder(|matches|, start) && decisions == [] && Accepted() == {}
    {
      hide Valid;
      this.text, this.matches, this.visitOrder := text, matches, VisitOrder(|matches|, start);
      visitPosition, accepted, decisions := 0, seq(|matches|, k => false), [];
      VisitsEachOnce(|matches|, start);
    }

    method Current() returns (index: Option<nat>)
      requires IsReview()
      ensures index == if visitPosition < |matches| then Some(visitOrder[visitPosition]) else None
      ensures index.Some? ==> index.value < |matches| && index.value !in Accepted()
    {
      if visitPosition < |visitOrder| {
        return Some(visitOrder[visitPosition]);
      }
      return None;
    }

    method Accept()
      requires IsReview()
      modifies this
      ensures IsReview()
      ensures if old(visitPosition) < |matches|
        then decisions == old(decisions) + [true] && Accepted() == old(Accepted()) + {visitOrder[old(visitPosition)]}
        else decisions == old(decisions) && Accepted() == old(Accepted())
    {
      hide Valid;
      if visitPosition < |visitOrder| {
        var index := visitOrder[visitPosition];
        accepted := accepted[index := true];
        visitPosition := visitPosition + 1;
        decisions := decisions + [true];
      }
    }

    method Skip()
      requires IsReview()
      modifies this
      ensures IsReview() && Accepted() == old(Accepted())
      ensures decisions == if old(visitPosition) < |matches| then old(decisions) + [false] else old(decisions)
    {
      hide Valid;
      if visitPosition < |visitOrder| {
        visitPosition := visitPosition + 1;
        decisions := decisions + [false];
      }
    }

    /** Everything not yet visited is accepted; what was skipped stays skipped. */
    method AcceptAll()
      requires IsReview()
      modifies this
      ensures IsReview() && visitPosition == |matches|
      ensures forall k :: 0 <= k < |matches| ==> decisions[k] == (k >= old(visitPosition) || old(decisions)[k])
      ensures forall k :: 0 <= k < |matches| ==>
        (visitOrder[k] in Accepted() <==> k >= old(visitPosition) || visitOrder[k] in old(Accepted()))
    {
      hide Valid;
      accepted := MarkRest(accepted, visitOrder, visitPosition);
      decisions := decisions + seq(|matches| - visitPosition, k => true);
      visitPosition := |visitOrder|;
    }

    /** The reviewed text: the accepted matches substituted, however the review was walked. */
    method Replacements() returns (result: Option<Text>)
      requires IsReview()
      ensures var chosen := Chosen(matches, Accepted(), 0);
        && result == (if Ascending(text, chosen) then Some(Substituted(text, chosen, 0)) else None)
        && (Ascending(text, matches) ==> Ascending(text, chosen))
      ensures result.Some? ==> Valid(result.value)
    {
      hide Valid;
      var chosen := Collect(matches, accepted);
      ChosenMembers(matches, Accepted(), 0);
      if Ascending(text, matches) {
        ChosenAscending(text, matches, Accepted(), 0);
      }
      result := ApplyMatches(text, chosen);
    }
  }

  method MarkRest(accepted: seq<bool>, order: seq<nat>, position: nat) returns (marked: seq<bool>)
    requires position <= |order| && forall k :: 0 <= k < |order| ==> order[k] < |accepted|
    requires forall j, k :: 0 <= j < k < |order| ==> order[j] != order[k]
    ensures |marked| == |accepted|
    ensures forall k :: 0 <= k < |order| ==> marked[order[k]] == (k >= position || accepted[order[k]])
  {
    marked := accepted;
    var i := position;
    while i < |order|
      invariant position <= i <= |order| && |marked| == |accepted|
      invariant forall k :: 0 <= k < |order| ==> marked[order[k]] == (position <= k < i || accepted[order[k]])
    {
      marked := marked[order[i] := true];
      i := i + 1;
    }
  }

  method Collect(matches: seq<Match>, accepted: seq<bool>) returns (chosen: seq<Match>)
    requires |accepted| == |matches|
    ensures chosen == Chosen(matches, set i: nat | i < |accepted| && accepted[i], 0)
  {
    ghost var keep := set i: nat | i < |accepted| && accepted[i];
    chosen := [];
    var i := 0;
    while i < |matches|
      invariant i <= |matches| && chosen + Chosen(matches, keep, i) == Chosen(matches, keep, 0)
    {
      if accepted[i] {
        chosen := chosen + [matches[i]];
      }
      i := i + 1;
    }
  }

  // ---- The daemon's replacement of selected matches ----------------------------------------

  datatype Selection = Edits(edits: seq<RangeEdit>) | Rejected(reason: string)

  function SetOf(indices: seq<nat>): set<nat> {
    set i | i in indices
  }

  predicate Increasing(s: seq<nat>) {
    forall i, j :: 0 <= i < j < |s| ==> s[i] < s[j]
  }

  function Insert(s: seq<nat>, x: nat): seq<nat> {
    if s == [] || x < s[0] then [x] + s
    else if x == s[0] then s
    else [s[0]] + Insert(s[1..], x)
  }

  lemma {:induction false} InsertKeeps(s: seq<nat>, x: nat)
    requires Increasing(s)
    ensures Increasing(Insert(s, x))
    ensures forall y :: y in Insert(s, x) <==> y == x || y in s
  {
    if s != [] && s[0] < x {
      var rest := Insert(s[1..], x);
      InsertKeeps(s[1..], x);
      assert Insert(s, x) == [s[0]] + rest && s == [s[0]] + s[1..];
      forall i, j | 0 <= i < j < |Insert(s, x)| ensures Insert(s, x)[i] < Insert(s, x)[j] {
        assert rest[j - 1] in rest;
        assert rest[j - 1] in s[1..] ==> s[0] < rest[j - 1] by {
          if rest[j - 1] in s[1..] {
            var k :| 0 <= k < |s[1..]| && s[1..][k] == rest[j - 1];
            assert s[k + 1] == rest[j - 1];
          }
        }
      }
    }
  }

  method SortedDistinct(indices: seq<nat>) returns (sorted: seq<nat>)
    ensures Increasing(sorted) && SetOf(sorted) == SetOf(indices)
  {
    sorted := [];
    var i := 0;
    while i < |indices|
      invariant i <= |indices| && Increasing(sorted)
      invariant forall y :: y in sorted <==> y in indices[..i]
    {
      InsertKeeps(sorted, indices[i]);
      sorted := Insert(sorted, indices[i]);
      i := i + 1;
    }
    assert indices[..i] == indices;
  }

  /** Edits for the selected matches of a file, whatever order and repetition they came in. */
  method SelectedEdits(matches: seq<Match>, indices: seq<nat>) returns (selection: Selection)
    ensures selection.Rejected? <==> indices == [] || exists i :: i in indices && i >= |matches|
    ensures selection.Edits? ==> selection.edits == Descending(Chosen(matches, SetOf(indices), 0))
  {
    if indices == [] {
      return Rejected("No matches selected");
    }
    ghost var keep := SetOf(indices);
    var sorted := SortedDistinct(indices);
    assert forall k :: 0 <= k < |sorted| ==> sorted[k] in SetOf(sorted);
    var edits := [];
    var i: nat, top: nat := |sorted|, |matches|;
    while i > 0
      invariant i <= |sorted| && top <= |matches|
      invariant forall k :: i <= k < |sorted| ==> top <= sorted[k] < |matches|
      invariant i < |sorted| ==> sorted[i] == top
      invariant i == |sorted| ==> top == |matches|
      invariant edits == Descending(Chosen(matches, keep, top))
    {
      i := i - 1;
      var index := sorted[i];
      if index >= |matches| {
        assert index in indices;
        return Rejected("Unknown match index");
      }
      edits := edits + [EditOf(matches[index])];
      NoneBetween(sorted, i, index + 1, top);
      ChosenSkips(matches, keep, index + 1, top);
      top := index;
    }
    forall x | x in indices ensures x < |matches| {
      assert x in SetOf(indices);
      assert x in sorted;
    }
    NoneBelow(sorted, top);
    ChosenSkips(matches, keep, 0, top);
    return Selection.Edits(edits);
  }

  lemma NoneBetween(sorted: seq<nat>, i: nat, from: nat, to: nat)
    requires Increasing(sorted) && i < |sorted| && from == sorted[i] + 1
    requires forall k :: i < k < |sorted| ==> to <= sorted[k]
    ensures forall x :: from <= x < to ==> x !in SetOf(sorted)
  {
    assert forall k :: 0 <= k < i ==> sorted[k] < sorted[i];
    assert forall k :: 0 <= k < |sorted| ==> sorted[k] < from || to <= sorted[k];
  }

  lemma NoneBelow(sorted: seq<nat>, top: nat)
    requires forall k :: 0 <= k < |sorted| ==> top <= sorted[k]
    ensures forall x :: 0 <= x < top ==> x !in SetOf(sorted)
  {
  }
}
