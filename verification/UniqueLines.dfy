/** Dropping the repeated lines of a selection. */
module UniqueLines {
  import opened Utf8
  import opened Wrappers
  import opened Seqs
  import opened Edits
  import opened TextBuffer

  // ---- Lines --------------------------------------------------------------------------

  /** Length of the first line, with its terminator. */
  function LineLength(t: Text): (n: nat)
    requires t != []
    ensures 1 <= n <= |t|
    ensures forall k :: 0 <= k < n - 1 ==> t[k] != LF
    ensures t[n - 1] == LF || n == |t|
  {
    if t[0] == LF || |t| == 1 then 1 else 1 + LineLength(t[1..])
  }

  function Lines(t: Text): seq<Text> {
    if t == [] then [] else [t[..LineLength(t)]] + Lines(t[LineLength(t)..])
  }

  predicate Terminated(line: Text) {
    line != [] && line[|line| - 1] == LF
  }

  predicate IsLine(line: Text) {
    line != [] && forall k :: 0 <= k < |line| - 1 ==> line[k] != LF
  }

  /** Non-empty, a terminator only at the end, and missing in the last at most. */
  predicate AreLines(lines: seq<Text>) {
    && (forall i :: 0 <= i < |lines| ==> IsLine(lines[i]))
    && (forall i :: 0 <= i < |lines| - 1 ==> Terminated(lines[i]))
  }

  lemma FlattenLines(t: Text)
    requires t != [] && Flatten(Lines(t[LineLength(t)..])) == t[LineLength(t)..]
    ensures Flatten(Lines(t)) == t
  {
    var n := LineLength(t);
    TakeDrop(t, n);
    FlattenCons(t[..n], Lines(t[n..]));
  }

  lemma LinesCons(line: Text, lines: seq<Text>)
    requires IsLine(line) && AreLines(lines) && (Terminated(line) || lines == [])
    ensures AreLines([line] + lines)
  {
    hide IsLine;
    hide Terminated;
  }

  lemma {:induction false} LinesOf(t: Text)
    ensures AreLines(Lines(t)) && Flatten(Lines(t)) == t
  {
    if t != [] {
      var n := LineLength(t);
      LinesOf(t[n..]);
      FlattenLines(t);
      LinesCons(t[..n], Lines(t[n..]));
      if n < |t| {
        assert Terminated(t[..n]);
      } else {
        assert t[n..] == [];
      }
    }
  }

  lemma LineLengthOf(line: Text, rest: Text)
    requires IsLine(line) && (Terminated(line) || rest == [])
    ensures LineLength(line + rest) == |line|
  {
    var t, n := line + rest, LineLength(line + rest);
    assert t[|line| - 1] == line[|line| - 1];
    assert forall k :: 0 <= k < |line| - 1 ==> t[k] == line[k];
    assert t[n - 1] == LF || n == |t|;
  }

  /** A text has only one division into lines. */
  lemma {:induction false} LinesUnique(lines: seq<Text>)
    requires AreLines(lines)
    ensures Lines(Flatten(lines)) == lines
  {
    if lines != [] {
      var rest := Flatten(lines[1..]);
      assert lines == [lines[0]] + lines[1..];
      FlattenCons(lines[0], lines[1..]);
      if |lines| == 1 {
        FlattenNone<byte>();
      }
      LineLengthOf(lines[0], rest);
      LinesUnique(lines[1..]);
      assert (lines[0] + rest)[..|lines[0]|] == lines[0] && (lines[0] + rest)[|lines[0]|..] == rest;
    }
  }

  /** The offset where line `i` starts. */
  function Start(lines: seq<Text>, i: nat): nat
    requires i <= |lines|
  {
    |Flatten(lines[..i])|
  }

  lemma StartNext(lines: seq<Text>, i: nat)
    requires i < |lines|
    ensures Start(lines, i + 1) == Start(lines, i) + |lines[i]|
    ensures Start(lines, i + 1) <= |Flatten(lines)|
  {
    FlattenAround(lines, i);
  }

  lemma {:induction false} StartsIncrease(lines: seq<Text>, i: nat, j: nat)
    requires AreLines(lines) && i < j <= |lines|
    ensures Start(lines, i) < Start(lines, j)
    decreases j - i
  {
    StartNext(lines, i);
    if i + 1 < j {
      StartsIncrease(lines, i + 1, j);
    }
  }

  /** The line holding an offset; offsets past the end belong to the last line. */
  function LineAt(lines: seq<Text>, offset: nat): (i: nat)
    requires AreLines(lines) && lines != []
    ensures i < |lines| && Start(lines, i) <= Clamped(lines, offset) < Start(lines, i + 1)
  {
    WholeStart(lines);
    Located(lines, Clamped(lines, offset), |lines|)
  }

  lemma WholeStart(lines: seq<Text>)
    requires AreLines(lines)
    ensures Start(lines, |lines|) == |Flatten(lines)| && Start(lines, 0) == 0
    ensures lines != [] ==> Flatten(lines) != []
  {
    assert lines[..|lines|] == lines && lines[..0] == [];
    if lines != [] {
      StartsIncrease(lines, 0, |lines|);
    }
  }

  function Clamped(lines: seq<Text>, offset: nat): nat {
    var len := |Flatten(lines)|;
    if len == 0 then 0 else if offset < len then offset else len - 1
  }

  /** Searching from the back. */
  function Located(lines: seq<Text>, offset: nat, i: nat): (r: nat)
    requires AreLines(lines) && 0 < i <= |lines| && offset < Start(lines, i)
    ensures r < i && Start(lines, r) <= offset < Start(lines, r + 1)
  {
    if i == 1 || Start(lines, i - 1) <= offset then i - 1 else Located(lines, offset, i - 1)
  }

  // ---- Keys ----------------------------------------------------------------------------

  /** A line without its terminator, which is a line feed after an optional carriage return. */
  function Key(line: Text): Text {
    if !Terminated(line) then line
    else
      var stripped := line[..|line| - 1];
      if stripped != [] && stripped[|stripped| - 1] == CR then stripped[..|stripped| - 1] else stripped
  }

  /** A key is the line without LF or CRLF at its end, whichever it has. */
  lemma KeyIs(line: Text)
    ensures line == Key(line) || line == Key(line) + [LF] || line == Key(line) + [CR, LF]
    ensures Terminated(line) <==> line != Key(line)
    ensures line == Key(line) + [LF] ==> Key(line) == [] || Key(line)[|Key(line)| - 1] != CR
  {
  }

  function Keys(lines: seq<Text>): (keys: seq<Text>)
    ensures |keys| == |lines| && forall i :: 0 <= i < |lines| ==> keys[i] == Key(lines[i])
  {
    seq(|lines|, i requires 0 <= i < |lines| => Key(lines[i]))
  }

  /** Each key once, where it first occurs. */
  function FirstOccurrences(keys: seq<Text>): seq<Text> {
    if keys == [] then []
    else
      var init, last := keys[..|keys| - 1], keys[|keys| - 1];
      if last in init then FirstOccurrences(init) else FirstOccurrences(init) + [last]
  }

  /** The lines whose key no earlier line has. */
  function KeptLines(lines: seq<Text>): seq<Text> {
    if lines == [] then []
    else
      var init, last := lines[..|lines| - 1], lines[|lines| - 1];
      if Key(last) in Keys(init) then KeptLines(init) else KeptLines(init) + [last]
  }

  /** Where keys occur first. */
  function FirstIndices(keys: seq<Text>): (indices: seq<nat>)
    ensures forall i :: 0 <= i < |indices| ==> indices[i] < |keys|
  {
    if keys == [] then []
    else
      var n := |keys| - 1;
      FirstIndices(keys[..n]) + if keys[n] in keys[..n] then [] else [n]
  }

  lemma {:induction false} FirstIndicesIncrease(keys: seq<Text>)
    ensures forall i, j :: 0 <= i < j < |FirstIndices(keys)| ==> FirstIndices(keys)[i] < FirstIndices(keys)[j]
  {
    if keys != [] {
      FirstIndicesIncrease(keys[..|keys| - 1]);
    }
  }

  /** Exactly where no earlier key is the same. */
  lemma {:induction false} FirstIndicesAre(keys: seq<Text>, k: nat)
    requires k < |keys|
    ensures k in FirstIndices(keys) <==> keys[k] !in keys[..k]
  {
    var n := |keys| - 1;
    var init := keys[..n];
    assert k in FirstIndices(keys) <==> k in FirstIndices(init) || (k == n && keys[n] !in init);
    if k < n {
      FirstIndicesAre(init, k);
      assert init[..k] == keys[..k];
    }
  }

  /** The lines kept are those at which their key occurs first, and these are the surviving keys. */
  lemma {:induction false} KeptExactly(lines: seq<Text>)
    ensures var indices := FirstIndices(Keys(lines));
      && |KeptLines(lines)| == |FirstOccurrences(Keys(lines))| == |indices|
      && forall i :: 0 <= i < |indices| ==>
           KeptLines(lines)[i] == lines[indices[i]] && FirstOccurrences(Keys(lines))[i] == Key(lines[indices[i]])
  {
    hide Key;
    if lines != [] {
      var n := |lines| - 1;
      KeptExactly(lines[..n]);
      assert Keys(lines)[..n] == Keys(lines[..n]) && Keys(lines)[n] == Key(lines[n]);
    }
  }

  predicate AllDifferent(keys: seq<Text>) {
    forall i, j :: 0 <= i < j < |keys| ==> keys[i] != keys[j]
  }

  lemma KeysSnoc(lines: seq<Text>, line: Text)
    ensures Keys(lines + [line]) == Keys(lines) + [Key(line)]
  {
  }

  lemma {:induction false} FirstOccurrencesAre(keys: seq<Text>)
    ensures AllDifferent(FirstOccurrences(keys))
    ensures forall k :: k in FirstOccurrences(keys) <==> k in keys
    ensures |FirstOccurrences(keys)| <= |keys|
    ensures |FirstOccurrences(keys)| == |keys| <==> AllDifferent(keys)
    ensures AllDifferent(keys) ==> FirstOccurrences(keys) == keys
  {
    if keys != [] {
      var init, last := keys[..|keys| - 1], keys[|keys| - 1];
      assert keys == init + [last];
      FirstOccurrencesAre(init);
    }
  }

  lemma {:induction false} KeptKeys(lines: seq<Text>)
    ensures Keys(KeptLines(lines)) == FirstOccurrences(Keys(lines))
    ensures |KeptLines(lines)| <= |lines|
    ensures forall k :: k in KeptLines(lines) ==> k in lines
    ensures |KeptLines(lines)| == |lines| ==> KeptLines(lines) == lines
  {
    hide Key;
    if lines != [] {
      var init, last := lines[..|lines| - 1], lines[|lines| - 1];
      KeptKeys(init);
      assert lines == init + [last];
      KeysSnoc(init, last);
      KeysSnoc(KeptLines(init), last);
      assert Keys(lines)[..|lines| - 1] == Keys(init);
    }
  }

  // ---- The edit ---------------------------------------------------------------------------

  /** An unterminated text whose last line was dropped stays unterminated. */
  function Transformed(lines: seq<Text>, first: nat, last: nat): Text
    requires first <= last < |lines|
  {
    var t := Flatten(KeptLines(lines[first..last + 1]));
    if last + 1 == |lines| && !Terminated(lines[last]) then Key(t) else t
  }

  function Low(s: Selection): nat {
    if s.anchor < s.head then s.anchor else s.head
  }

  function High(s: Selection): nat {
    if s.anchor < s.head then s.head else s.anchor
  }

  function FirstLine(lines: seq<Text>, s: Selection): nat
    requires AreLines(lines) && lines != []
  {
    LineAt(lines, Low(s))
  }

  /** A selection that ends where a line starts does not include that line. */
  function LastLine(lines: seq<Text>, s: Selection): nat
    requires AreLines(lines) && lines != []
  {
    if High(s) > Low(s) then LineAt(lines, High(s) - 1) else LineAt(lines, Low(s))
  }

  /** First and last selected line. */
  function Selected(text: Text, s: Selection): (r: (nat, nat))
    requires text != []
    ensures r.0 <= r.1 < |Lines(text)|
  {
    LinesOf(text);
    LastNotBefore(Lines(text), s);
    (FirstLine(Lines(text), s), LastLine(Lines(text), s))
  }

  /** The edit and the selection after it; none when no selected line repeats another. */
  function EditFor(lines: seq<Text>, first: nat, last: nat, s: Selection): Option<(RangeEdit, Selection)>
    requires first <= last < |lines|
  {
    if |KeptLines(lines[first..last + 1])| == last - first + 1 then None
    else
      var t := Transformed(lines, first, last);
      var from, to := Start(lines, first), Start(lines, first) + |t|;
      Some((RangeEdit(from, Start(lines, last + 1), t),
            if s.anchor <= s.head then Selection(from, to) else Selection(to, from)))
  }

  function Deduplicated(text: Text, s: Selection): Option<(RangeEdit, Selection)> {
    if text == [] then None
    else EditFor(Lines(text), Selected(text, s).0, Selected(text, s).1, s)
  }

  lemma LastNotBefore(lines: seq<Text>, s: Selection)
    requires AreLines(lines) && lines != []
    ensures FirstLine(lines, s) <= LastLine(lines, s) < |lines|
  {
    var first, last := FirstLine(lines, s), LastLine(lines, s);
    if last < first {
      if last + 1 < first {
        StartsIncrease(lines, last + 1, first);
      }
      assert false;
    }
  }

  // ---- What the edit does ----------------------------------------------------------------------

  /** The selection reaches an unterminated last line, which repeats an earlier one, and the last
      line to survive is empty: without its terminator it is no line at all. */
  predicate Loses(lines: seq<Text>, first: nat, last: nat)
    requires first <= last < |lines|
  {
    var survivors := FirstOccurrences(Keys(lines[first..last + 1]));
    && last + 1 == |lines| && !Terminated(lines[last])
    && survivors != [] && survivors[|survivors| - 1] == []
  }

  lemma KeyOfLast(init: Text, line: Text)
    requires Terminated(line) && (init == [] || Terminated(init))
    ensures Key(init + line) == init + Key(line)
  {
    assert (init + line)[..|init + line| - 1] == init + line[..|line| - 1];
    var u := init + line[..|line| - 1];
    if |line| > 1 {
      assert u[|u| - 1] == line[|line| - 2];
      assert u[..|u| - 1] == init + line[..|line| - 1][..|line| - 2];
    } else {
      assert u == init;
    }
  }

  lemma FlattenEnds(lines: seq<Text>)
    requires lines != [] && lines[|lines| - 1] != []
    ensures Flatten(lines) != [] && (Terminated(Flatten(lines)) <==> Terminated(lines[|lines| - 1]))
  {
    var init, last := lines[..|lines| - 1], lines[|lines| - 1];
    assert lines == init + [last];
    FlattenConcat(init, [last]);
    FlattenOne(last);
    assert (Flatten(init) + last)[|Flatten(init) + last| - 1] == last[|last| - 1];
  }

  /** The selected lines are lines by themselves. */
  lemma SliceAreLines(lines: seq<Text>, first: nat, last: nat)
    requires AreLines(lines) && first <= last <= |lines|
    ensures AreLines(lines[first..last])
  {
    hide IsLine;
    hide Terminated;
  }

  /** Keeping some lines: they are terminated, unless the unterminated last one is kept. */
  lemma {:induction false} KeptAreLines(lines: seq<Text>)
    requires AreLines(lines)
    ensures AreLines(KeptLines(lines))
    ensures lines != [] ==> KeptLines(lines) != []
    ensures lines != [] && Key(lines[|lines| - 1]) in Keys(lines[..|lines| - 1]) ==>
      forall k :: k in KeptLines(lines) ==> Terminated(k)
  {
    hide IsLine;
    hide Terminated;
    hide Key;
    if lines != [] {
      var init, last := lines[..|lines| - 1], lines[|lines| - 1];
      SliceAreLines(lines, 0, |lines| - 1);
      assert lines[0..|lines| - 1] == init;
      KeptAreLines(init);
      KeptKeys(init);
      assert forall k :: k in init ==> Terminated(k);
      var kept := KeptLines(init);
      assert forall i :: 0 <= i < |kept| ==> kept[i] in kept;
    }
  }

  /** No line survives that lacks a terminator, unless the last one does. */
  lemma WholeSurvivors(selected: seq<Text>)
    requires AreLines(selected) && selected != []
    requires var final := selected[|selected| - 1];
      Terminated(final) || Key(final) !in Keys(selected[..|selected| - 1])
    ensures var final := selected[|selected| - 1]; var kept := KeptLines(selected);
      && kept != [] && AreLines(kept)
      && Terminated(kept[|kept| - 1]) == Terminated(final)
      && (!Terminated(final) ==> Key(Flatten(kept)) == Flatten(kept) && Key(kept[|kept| - 1]) != [])
  {
    hide IsLine;
    var final, kept := selected[|selected| - 1], KeptLines(selected);
    KeptAreLines(selected);
    KeptKeys(selected);
    assert kept[|kept| - 1] in kept;
    if Terminated(final) {
      AllTerminated(selected);
    } else {
      LineNotEmpty(selected, |selected| - 1);
      FlattenEnds(kept);
    }
  }

  /** The last line is unterminated and goes: the last survivor gives up its terminator. */
  lemma StrippedSurvivors(selected: seq<Text>) returns (pieces: seq<Text>)
    requires AreLines(selected) && selected != []
    requires var final := selected[|selected| - 1];
      !Terminated(final) && Key(final) in Keys(selected[..|selected| - 1])
    ensures pieces != [] && AreLines(pieces) && Flatten(pieces) == Key(Flatten(KeptLines(selected)))
    ensures FirstOccurrences(Keys(selected)) != []
    ensures var survivors := FirstOccurrences(Keys(selected));
      Keys(pieces) == if survivors[|survivors| - 1] == [] then survivors[..|survivors| - 1] else survivors
  {
    hide IsLine;
    hide KeptLines;
    hide FirstOccurrences;
    var final, kept := selected[|selected| - 1], KeptLines(selected);
    KeptAreLines(selected);
    KeptKeys(selected);
    LineNotEmpty(selected, |selected| - 1);
    pieces := Stripped(kept);
    FirstOccurrencesAre(Keys(selected));
    assert Keys(selected)[|selected| - 1] == final;
    assert final in FirstOccurrences(Keys(selected));
  }

  /** The lines of the replacement, and which of the keys they have. */
  lemma Pieces(lines: seq<Text>, first: nat, last: nat) returns (pieces: seq<Text>)
    requires AreLines(lines) && first <= last < |lines|
    ensures pieces != [] && AreLines(pieces)
    ensures |KeptLines(lines[first..last + 1])| < last + 1 - first ==>
      Flatten(pieces) == Transformed(lines, first, last)
    ensures last + 1 < |lines| ==> Terminated(pieces[|pieces| - 1])
    ensures var survivors := FirstOccurrences(Keys(lines[first..last + 1]));
      Keys(pieces) == if Loses(lines, first, last) then survivors[..|survivors| - 1] else survivors
  {
    hide IsLine;
    hide Terminated;
    hide Key;
    hide KeptLines;
    hide FirstOccurrences;
    var selected := lines[first..last + 1];
    SliceAreLines(lines, first, last + 1);
    var final := selected[|selected| - 1];
    assert final == lines[last];
    KeptKeys(selected);
    if Terminated(final) || Key(final) !in Keys(selected[..|selected| - 1]) {
      WholeSurvivors(selected);
      pieces := KeptLines(selected);
    } else {
      pieces := StrippedSurvivors(selected);
    }
  }

  lemma LineNotEmpty(lines: seq<Text>, i: nat)
    requires AreLines(lines) && i < |lines|
    ensures lines[i] != []
  {
    assert IsLine(lines[i]);
  }

  lemma AllTerminated(lines: seq<Text>)
    requires lines != [] && AreLines(lines) && Terminated(lines[|lines| - 1])
    ensures forall k :: k in lines ==> Terminated(k)
  {
  }

  /** Taking the terminator off the last line shortens it, or makes it vanish if it was empty. */
  lemma Stripped(kept: seq<Text>) returns (pieces: seq<Text>)
    requires kept != [] && AreLines(kept) && forall k :: k in kept ==> Terminated(k)
    ensures AreLines(pieces) && Flatten(pieces) == Key(Flatten(kept))
    ensures var l := kept[|kept| - 1];
      Keys(pieces) == if Key(l) == [] then Keys(kept)[..|kept| - 1] else Keys(kept)
  {
    var init, l := kept[..|kept| - 1], kept[|kept| - 1];
    assert kept == init + [l];
    SliceAreLines(kept, 0, |kept| - 1);
    assert kept[0..|kept| - 1] == init;
    FlattenConcat(init, [l]);
    FlattenOne(l);
    if init != [] {
      assert init[|init| - 1] in kept;
      FlattenEnds(init);
    } else {
      FlattenNone<byte>();
    }
    KeyOfLast(Flatten(init), l);
    KeysSnoc(init, l);
    if Key(l) == [] {
      pieces := init;
    } else {
      pieces := init + [Key(l)];
      KeyIsLine(l);
      FlattenConcat(init, [Key(l)]);
      FlattenOne(Key(l));
      KeysSnoc(init, Key(l));
      assert forall i :: 0 <= i < |init| ==> init[i] in kept;
    }
  }

  lemma KeyIsLine(line: Text)
    requires IsLine(line) && Terminated(line) && Key(line) != []
    ensures IsLine(Key(line)) && !Terminated(Key(line)) && Key(Key(line)) == Key(line)
  {
    var k := Key(line);
    assert forall i :: 0 <= i < |k| ==> k[i] == line[i];
  }

  /** The edited text has the same lines before and after, and of the selected ones each key
      once, where it first occurred, unless the final empty line gets lost. */
  ghost predicate DropsRepeats(text: Text, first: nat, last: nat, e: RangeEdit)
    requires first <= last < |Lines(text)|
  {
    && e.start <= e.end <= |text| && e.text != []
    && Lines(Splice(text, e.start, e.end, e.text)) == Lines(text)[..first] + Lines(e.text) + Lines(text)[last + 1..]
    && var survivors := FirstOccurrences(Keys(Lines(text)[first..last + 1]));
       Keys(Lines(e.text)) == if Loses(Lines(text), first, last) then survivors[..|survivors| - 1] else survivors
  }

  lemma DeduplicatedIs(text: Text, s: Selection)
    requires Deduplicated(text, s).Some?
    ensures text != []
    ensures var (first, last) := Selected(text, s); var e := Deduplicated(text, s).value.0;
      && e == RangeEdit(Start(Lines(text), first), Start(Lines(text), last + 1), Transformed(Lines(text), first, last))
      && |KeptLines(Lines(text)[first..last + 1])| < last + 1 - first
  {
    hide Transformed;
    hide Selected;
    hide Lines;
    hide KeptLines;
    hide Flatten;
    hide Keys;
    var (first, last) := Selected(text, s);
    KeptKeys(Lines(text)[first..last + 1]);
  }

  lemma DeduplicatedLines(text: Text, s: Selection)
    requires Deduplicated(text, s).Some?
    ensures text != []
    ensures DropsRepeats(text, Selected(text, s).0, Selected(text, s).1, Deduplicated(text, s).value.0)
  {
    hide Deduplicated;
    hide Transformed;
    hide Lines;
    hide Selected;
    hide AreLines;
    hide KeptLines;
    hide Loses;
    hide Key;
    hide FirstOccurrences;
    hide Start;
    DeduplicatedIs(text, s);
    LinesOf(text);
    var (first, last) := Selected(text, s);
    var pieces := Pieces(Lines(text), first, last);
    LinesUnique(pieces);
    Rebuilt(Lines(text), first, last, pieces);
  }

  lemma Rebuilt(lines: seq<Text>, first: nat, last: nat, pieces: seq<Text>)
    requires AreLines(lines) && first <= last < |lines| && AreLines(pieces) && pieces != []
    requires last + 1 < |lines| ==> Terminated(pieces[|pieces| - 1])
    ensures Start(lines, first) <= Start(lines, last + 1) <= |Flatten(lines)|
    ensures Lines(Splice(Flatten(lines), Start(lines, first), Start(lines, last + 1), Flatten(pieces))) ==
      lines[..first] + pieces + lines[last + 1..]
    ensures Flatten(pieces) != []
  {
    hide IsLine;
    hide Terminated;
    hide Lines;
    StartsIncrease(lines, first, last + 1);
    StartNext(lines, last);
    var before, after := lines[..first], lines[last + 1..];
    var t := Flatten(lines);
    TakeDrop(lines, first);
    TakeDrop(lines, last + 1);
    FlattenConcat(before, lines[first..]);
    FlattenConcat(lines[..last + 1], after);
    assert t[..Start(lines, first)] == Flatten(before);
    assert t[Start(lines, last + 1)..] == Flatten(after);
    FlattenConcat(before, pieces);
    FlattenConcat(before + pieces, after);
    JoinedLines(lines, first, last, pieces);
    LinesUnique(before + pieces + after);
    LineNotEmpty(pieces, |pieces| - 1);
    FlattenEnds(pieces);
  }

  lemma JoinedLines(lines: seq<Text>, first: nat, last: nat, pieces: seq<Text>)
    requires AreLines(lines) && first <= last < |lines| && AreLines(pieces) && pieces != []
    requires last + 1 < |lines| ==> Terminated(pieces[|pieces| - 1])
    ensures AreLines(lines[..first] + pieces + lines[last + 1..])
  {
    hide IsLine;
    hide Terminated;
  }

  /** Every key survives, at its first occurrence, exactly when no final empty line gets lost. */
  lemma SurvivorsComplete(text: Text, s: Selection)
    requires Deduplicated(text, s).Some?
    ensures text != []
    ensures var (first, last) := Selected(text, s); var e := Deduplicated(text, s).value.0;
      Keys(Lines(e.text)) == FirstOccurrences(Keys(Lines(text)[first..last + 1])) <==> !Loses(Lines(text), first, last)
  {
    DeduplicatedLines(text, s);
  }

  /** An empty line between two equal ones, all selected, the second unterminated: it is lost.
      Lines are those that end with their terminator, as in the code; an editor that counts what
      follows the last terminator still shows an empty line there. */
  lemma FinalEmptyLineLost()
    ensures exists text: Text, s: Selection ::
      && text != [] && Deduplicated(text, s).Some?
      && Loses(Lines(text), Selected(text, s).0, Selected(text, s).1)
  {
    var lines, text, s := ExampleLines();
    ExampleKeys();
    KeptKeys(lines);
    assert lines[0..3] == lines;
    assert Deduplicated(text, s).Some? && Loses(Lines(text), Selected(text, s).0, Selected(text, s).1);
  }

  const EXAMPLE: seq<Text> := [[97, LF], [LF], [97]]

  lemma ExampleKeys()
    ensures FirstOccurrences(Keys(EXAMPLE)) == [[97], []]
  {
    var keys := Keys(EXAMPLE);
    assert Key([97, LF]) == [97] && Key([LF]) == [] && Key([97]) == [97];
    assert keys[..2] == [[97], []] && keys[..2][..1] == [[97]];
    assert FirstOccurrences(keys[..2][..1]) == [[97]];
    assert FirstOccurrences(keys[..2]) == [[97], []];
  }

  lemma ExampleLines() returns (lines: seq<Text>, text: Text, s: Selection)
    ensures lines == EXAMPLE && text == [97, LF, LF, 97] && Lines(text) == lines && Selected(text, s) == (0, 2)
  {
    lines, text, s := EXAMPLE, [97, LF, LF, 97], Selection(0, 4);
    assert AreLines(lines);
    assert Flatten(lines) == text by {
      assert lines == [[97, LF]] + ([[LF]] + [[97]]);
      FlattenOne([97 as byte]);
      FlattenCons([LF], [[97 as byte]]);
      FlattenCons([97, LF], [[LF]] + [[97]]);
    }
    LinesUnique(lines);
    WholeStart(lines);
    SelectedBlock(lines, 0, 3, s);
  }

  lemma LineAtIs(lines: seq<Text>, offset: nat, i: nat)
    requires AreLines(lines) && i < |lines| && Start(lines, i) <= Clamped(lines, offset) < Start(lines, i + 1)
    ensures LineAt(lines, offset) == i
  {
    var r := LineAt(lines, offset);
    if r < i && r + 1 < i {
      StartsIncrease(lines, r + 1, i);
    } else if i < r && i + 1 < r {
      StartsIncrease(lines, i + 1, r);
    }
  }

  /** The returned selection covers the replacement, and a second run finds nothing to do. */
  lemma DeduplicatedOnce(text: Text, s: Selection)
    requires Deduplicated(text, s).Some?
    ensures var (e, next) := Deduplicated(text, s).value;
      && e.start <= e.end <= |text|
      && Low(next) == e.start && High(next) == e.start + |e.text| && (next.anchor <= next.head <==> s.anchor <= s.head)
      && Deduplicated(Splice(text, e.start, e.end, e.text), next) == None
  {
    hide Lines;
    hide AreLines;
    hide Keys;
    hide FirstOccurrences;
    hide Key;
    hide KeptLines;
    hide Transformed;
    hide FirstLine;
    hide LastLine;
    DeduplicatedLines(text, s);
    DeduplicatedIs(text, s);
    LinesOf(text);
    var (first, last) := Selected(text, s);
    var (e, next) := Deduplicated(text, s).value;
    var after := Splice(text, e.start, e.end, e.text);
    var pieces := Lines(e.text);
    LinesOf(after);
    LinesOf(e.text);
    SelectedAgain(Lines(text), first, last, pieces, e.start, next);
    assert Lines(after)[first..first + |pieces|] == pieces;
    FirstOccurrencesAre(Keys(Lines(text)[first..last + 1]));
    SurvivorsStay(pieces, FirstOccurrences(Keys(Lines(text)[first..last + 1])));
  }

  lemma SurvivorsStay(pieces: seq<Text>, survivors: seq<Text>)
    requires AllDifferent(survivors)
    requires Keys(pieces) == survivors || (survivors != [] && Keys(pieces) == survivors[..|survivors| - 1])
    ensures |KeptLines(pieces)| == |pieces|
  {
    hide KeptLines;
    hide Key;
    assert AllDifferent(Keys(pieces));
    FirstOccurrencesAre(Keys(pieces));
    KeptKeys(pieces);
  }

  lemma SelectedAgain(lines: seq<Text>, first: nat, last: nat, pieces: seq<Text>, from: nat, next: Selection)
    requires first <= last < |lines| && pieces != [] && Flatten(pieces) != [] && from == Start(lines, first)
    requires AreLines(lines[..first] + pieces + lines[last + 1..])
    requires Low(next) == from && High(next) == from + |Flatten(pieces)|
    ensures FirstLine(lines[..first] + pieces + lines[last + 1..], next) == first
    ensures LastLine(lines[..first] + pieces + lines[last + 1..], next) == first + |pieces| - 1
  {
    hide AreLines;
    hide Flatten;
    var all := lines[..first] + pieces + lines[last + 1..];
    assert all[..first] == lines[..first] && all[..first + |pieces|] == lines[..first] + pieces;
    FlattenConcat(lines[..first], pieces);
    SelectedBlock(all, first, first + |pieces|, next);
  }

  /** A selection from one line start to another selects the lines between. */
  lemma SelectedBlock(lines: seq<Text>, first: nat, end: nat, s: Selection)
    requires AreLines(lines) && first < end <= |lines|
    requires Low(s) == Start(lines, first) && High(s) == Start(lines, end)
    ensures FirstLine(lines, s) == first && LastLine(lines, s) == end - 1
  {
    hide AreLines;
    hide Flatten;
    StartNext(lines, first);
    StartNext(lines, end - 1);
    StartsIncrease(lines, first, first + 1);
    StartsIncrease(lines, end - 1, end);
    StartsIncrease(lines, first, end);
    LineAtIs(lines, Low(s), first);
    LineAtIs(lines, High(s) - 1, end - 1);
  }

  lemma StartBoundary(text: Text, i: nat)
    requires Valid(text) && i <= |Lines(text)|
    ensures Start(Lines(text), i) <= |text| && IsBoundary(text, Start(Lines(text), i))
  {
    hide Lines;
    hide Valid;
    LinesOf(text);
    var lines := Lines(text);
    TakeDrop(lines, i);
    FlattenConcat(lines[..i], lines[i..]);
    if 0 < i < |lines| {
      LineNotEmpty(lines, i - 1);
      FlattenEnds(lines[..i]);
      assert text[Start(lines, i) - 1] == LF;
      AfterAscii(text, Start(lines, i));
    } else {
      assert lines[..0] == [] && lines[..|lines|] == lines;
      EndsAreBoundaries(text);
    }
  }

  lemma {:induction false} LinesValid(text: Text)
    requires Valid(text)
    ensures forall line :: line in Lines(text) ==> Valid(line)
  {
    hide Valid;
    if text != [] {
      var n := LineLength(text);
      if n < |text| {
        AfterAscii(text, n);
      } else {
        EndsAreBoundaries(text);
      }
      SplitAtBoundary(text, n);
      LinesValid(text[n..]);
    }
  }

  lemma {:induction false} FlattenValid(pieces: seq<Text>)
    requires forall p :: p in pieces ==> Valid(p)
    ensures Valid(Flatten(pieces))
  {
    hide Valid;
    if pieces == [] {
      EmptyIsValid();
    } else {
      FlattenValid(pieces[1..]);
      ValidConcat(pieces[0], Flatten(pieces[1..]));
    }
  }

  lemma KeyValid(t: Text)
    requires Valid(t)
    ensures Valid(Key(t))
  {
    hide Valid;
    if Terminated(t) {
      SplitAtBoundary(t, |t| - 1);
      var u := t[..|t| - 1];
      if u != [] && u[|u| - 1] == CR {
        SplitAtBoundary(u, |u| - 1);
      }
    }
  }

  lemma TransformedValid(lines: seq<Text>, first: nat, last: nat)
    requires first <= last < |lines| && forall line :: line in lines ==> Valid(line)
    ensures Valid(Transformed(lines, first, last))
  {
    hide Valid;
    hide Key;
    var selected := lines[first..last + 1];
    KeptKeys(selected);
    assert forall line :: line in selected ==> line in lines;
    FlattenValid(KeptLines(selected));
    KeyValid(Flatten(KeptLines(selected)));
  }

  lemma DeduplicatedValid(text: Text, s: Selection)
    requires Valid(text) && Deduplicated(text, s).Some?
    ensures Valid(Deduplicated(text, s).value.0.text)
  {
    hide Valid;
    hide Lines;
    hide Deduplicated;
    hide Transformed;
    hide Start;
    DeduplicatedIs(text, s);
    var (first, last) := Selected(text, s);
    LinesValid(text);
    TransformedValid(Lines(text), first, last);
  }

  /** The edit cuts between characters and inserts whole ones, so the buffer takes it. */
  lemma DeduplicatedFits(text: Text, s: Selection)
    requires Valid(text) && Deduplicated(text, s).Some?
    ensures Fits(text, Deduplicated(text, s).value.0)
    ensures ValidEdits([Deduplicated(text, s).value.0])
  {
    hide Valid;
    hide IsBoundary;
    hide Lines;
    hide Deduplicated;
    hide Transformed;
    hide Selected;
    DeduplicatedIs(text, s);
    DeduplicatedLines(text, s);
    var (first, last) := Selected(text, s);
    StartBoundary(text, first);
    StartBoundary(text, last + 1);
    DeduplicatedValid(text, s);
  }

  lemma {:induction false} KeptShorter(lines: seq<Text>)
    ensures |Flatten(KeptLines(lines))| <= |Flatten(lines)|
  {
    hide Flatten;
    hide Keys;
    if lines == [] {
      assert KeptLines(lines) == lines;
    } else {
      var init, last := lines[..|lines| - 1], lines[|lines| - 1];
      KeptShorter(init);
      assert lines == init + [last];
      FlattenConcat(init, [last]);
      FlattenConcat(KeptLines(init), [last]);
    }
  }

  lemma TransformedShorter(lines: seq<Text>, first: nat, last: nat)
    requires first <= last < |lines|
    ensures |Transformed(lines, first, last)| <= Start(lines, last + 1) - Start(lines, first)
  {
    hide Flatten;
    hide KeptLines;
    KeptShorter(lines[first..last + 1]);
    assert lines[..last + 1] == lines[..first] + lines[first..last + 1];
    FlattenConcat(lines[..first], lines[first..last + 1]);
    KeyShorter(Flatten(KeptLines(lines[first..last + 1])));
  }

  lemma KeyShorter(line: Text)
    ensures |Key(line)| <= |line|
  {
  }

  /** The text never grows, and the selection it leaves lies between characters. */
  lemma DeduplicatedShrinks(text: Text, s: Selection)
    requires Valid(text) && Deduplicated(text, s).Some?
    ensures var (e, next) := Deduplicated(text, s).value;
      && Fits(text, e) && |Splice(text, e.start, e.end, e.text)| <= |text|
      && SelectionFits(Splice(text, e.start, e.end, e.text), next)
  {
    hide Valid;
    hide IsBoundary;
    hide Lines;
    hide Deduplicated;
    hide Transformed;
    hide Selected;
    hide Flatten;
    hide AreLines;
    DeduplicatedIs(text, s);
    var (first, last) := Selected(text, s);
    TransformedShorter(Lines(text), first, last);
    DeduplicatedFits(text, s);
    DeduplicatedOnce(text, s);
    var (e, next) := Deduplicated(text, s).value;
    assert e in [e];
    SplicedBoundaries(text, e);
  }

  lemma SplicedBoundaries(text: Text, e: RangeEdit)
    requires Valid(text) && Valid(e.text) && Fits(text, e)
    ensures IsBoundary(Splice(text, e.start, e.end, e.text), e.start)
    ensures IsBoundary(Splice(text, e.start, e.end, e.text), e.start + |e.text|)
  {
    hide Valid;
    hide IsBoundary;
    var after := Splice(text, e.start, e.end, e.text);
    SpliceValid(text, e.start, e.end, e.text);
    SplitAtBoundary(text, e.start);
    ValidConcat(text[..e.start], e.text);
    assert after[..e.start] == text[..e.start] && after[..e.start + |e.text|] == text[..e.start] + e.text;
    ValidPrefixBoundary(after, e.start);
    ValidPrefixBoundary(after, e.start + |e.text|);
  }

  // ---- The method ---------------------------------------------------------------------------

  method UniqueSelectedLines(text: Text, s: Selection) returns (edits: seq<RangeEdit>, next: Selection)
    ensures match Deduplicated(text, s)
      case None => edits == [] && next == s
      case Some((e, selection)) => edits == [e] && next == selection
  {
    hide Lines;
    hide AreLines;
    hide EditFor;
    hide Start;
    LinesOf(text);
    if text == [] {
      return [], s;
    }
    var lines := Lines(text);
    var starts := LineStarts(lines);
    var low := if s.anchor < s.head then s.anchor else s.head;
    var high := if s.anchor < s.head then s.head else s.anchor;
    var first := FindLine(lines, starts, low);
    var last := first;
    if high > low {
      last := FindLine(lines, starts, high - 1);
    }
    LastNotBefore(lines, s);
    edits, next := Replacement(lines, starts, first, last, s);
  }

  method Replacement(lines: seq<Text>, starts: seq<nat>, first: nat, last: nat, s: Selection)
    returns (edits: seq<RangeEdit>, next: Selection)
    requires |starts| == |lines| && forall i :: 0 <= i < |lines| ==> starts[i] == Start(lines, i)
    requires first <= last < |lines|
    ensures match EditFor(lines, first, last, s)
      case None => edits == [] && next == s
      case Some((e, selection)) => edits == [e] && next == selection
  {
    hide Key;
    hide KeptLines;
    hide Flatten;
    hide Terminated;
    var keep := KeepFirst(lines, first, last);
    if |keep| == last - first + 1 {
      return [], s;
    }
    var from := starts[first];
    StartNext(lines, last);
    var end := starts[last] + |lines[last]|;
    var transformed := Joined(keep);
    if !Terminated(lines[last]) && last + 1 == |lines| {
      transformed := Key(transformed);
    }
    var to := from + |transformed|;
    next := if s.anchor <= s.head then Selection(from, to) else Selection(to, from);
    return [RangeEdit(from, end, transformed)], next;
  }

  method LineStarts(lines: seq<Text>) returns (starts: seq<nat>)
    ensures |starts| == |lines| && forall i :: 0 <= i < |lines| ==> starts[i] == Start(lines, i)
  {
    starts := [];
    var offset, i := 0, 0;
    while i < |lines|
      invariant i <= |lines| && |starts| == i && offset == Start(lines, i)
      invariant forall k :: 0 <= k < i ==> starts[k] == Start(lines, k)
    {
      StartNext(lines, i);
      starts := starts + [offset];
      offset := offset + |lines[i]|;
      i := i + 1;
    }
  }

  /** The last line that starts at or before the offset. */
  method FindLine(lines: seq<Text>, starts: seq<nat>, offset: nat) returns (line: nat)
    requires AreLines(lines) && lines != [] && |starts| == |lines|
    requires forall i :: 0 <= i < |lines| ==> starts[i] == Start(lines, i)
    ensures line == LineAt(lines, offset)
  {
    hide AreLines;
    WholeStart(lines);
    var len := |Flatten(lines)|;
    var at := if offset < len then offset else len - 1;
    line := |lines| - 1;
    while starts[line] > at
      invariant line < |lines| && at < Start(lines, line + 1)
      decreases line
    {
      line := line - 1;
    }
    LineAtIs(lines, offset, line);
  }

  method KeepFirst(lines: seq<Text>, first: nat, last: nat) returns (keep: seq<Text>)
    requires first <= last < |lines|
    ensures keep == KeptLines(lines[first..last + 1])
  {
    hide Key;
    var seen: set<Text> := {};
    keep := [];
    var index := first;
    while index < last + 1
      invariant first <= index <= last + 1 && keep == KeptLines(lines[first..index])
      invariant forall k :: k in seen <==> k in Keys(lines[first..index])
    {
      var key := Key(lines[index]);
      assert lines[first..index + 1] == lines[first..index] + [lines[index]];
      assert lines[first..index + 1][..index - first] == lines[first..index];
      KeysSnoc(lines[first..index], lines[index]);
      if key !in seen {
        keep := keep + [lines[index]];
      }
      seen := seen + {key};
      index := index + 1;
    }
  }

  method Joined(pieces: seq<Text>) returns (text: Text)
    ensures text == Flatten(pieces)
  {
    text := [];
    var i := 0;
    while i < |pieces|
      invariant i <= |pieces| && text == Flatten(pieces[..i])
    {
      FlattenAround(pieces, i);
      text := text + pieces[i];
      i := i + 1;
    }
    assert pieces[..i] == pieces;
  }
}
