/** Positions of the Language Server Protocol 3.17 ('Position': zero-based line, UTF-16
    column) found in a UTF-8 document that is only ever seen in pieces. UTF-16 widths are
    those of section 2.1 of RFC 2781. */
module LspPosition {
  import opened Utf8
  import opened Wrappers
  import opened Seqs

  const CHUNK: nat := 32 * 1024

  /** Code units of a character: two exactly for the four-byte characters. */
  function Units(lead: byte): nat {
    if Width(lead) == 4 then 2 else 1
  }

  /** UTF-16 length of a text. */
  function Utf16Length(t: Text): nat {
    if StartsWithChar(t) then Units(t[0]) + Utf16Length(t[Width(t[0])..]) else 0
  }

  // ---- Whole-document scan --------------------------------------------------------

  datatype Scan = Found(offset: nat) | More(line: nat, units: nat)

  /** One pass over characters; columns are counted on the wanted line only. */
  function ScanText(t: Text, base: nat, line: nat, units: nat, wantedLine: nat, wantedUnits: nat): Scan
    decreases |t|
  {
    if !StartsWithChar(t) then More(line, units)
    else if line == wantedLine && units >= wantedUnits then Found(base)
    else if t[0] == LF then
      if line == wantedLine then Found(base)
      else ScanText(t[1..], base + 1, line + 1, 0, wantedLine, wantedUnits)
    else
      var w := Width(t[0]);
      ScanText(t[w..], base + w, line, if line == wantedLine then units + Units(t[0]) else units,
               wantedLine, wantedUnits)
  }

  function Position(doc: Text, line: nat, character: nat): nat {
    match ScanText(doc, 0, 0, 0, line, character)
    case Found(offset) => offset
    case More(_, _) => |doc|
  }

  /** One character of the scan. */
  lemma ScanStep(t: Text, base: nat, line: nat, units: nat, wl: nat, wu: nat)
    requires StartsWithChar(t)
    ensures ScanText(t, base, line, units, wl, wu) ==
      if line == wl && (units >= wu || t[0] == LF) then Found(base)
      else ScanText(t[Width(t[0])..], base + Width(t[0]),
                    if t[0] == LF then line + 1 else line,
                    if t[0] == LF then 0 else if line == wl then units + Units(t[0]) else units, wl, wu)
  {
  }

  lemma ScanNothing(base: nat, line: nat, units: nat, wl: nat, wu: nat)
    ensures ScanText([], base, line, units, wl, wu) == More(line, units)
  {
  }

  lemma {:induction false} ScanConcat(a: Text, b: Text, base: nat, line: nat, units: nat, wl: nat, wu: nat)
    requires Valid(a)
    ensures ScanText(a + b, base, line, units, wl, wu) ==
      match ScanText(a, base, line, units, wl, wu)
      case Found(offset) => Found(offset)
      case More(l, u) => ScanText(b, base + |a|, l, u, wl, wu)
    decreases |a|
  {
    hide Valid;
    hide StartsWithChar;
    hide Width;
    hide ScanText;
    if a == [] {
      assert a + b == b;
      ScanNothing(base, line, units, wl, wu);
    } else {
      FirstChar(a);
      CharExtends(a, b);
      var w := Width(a[0]);
      assert (a + b)[0] == a[0] && (a + b)[w..] == a[w..] + b;
      ScanStep(a, base, line, units, wl, wu);
      ScanStep(a + b, base, line, units, wl, wu);
      ScanConcat(a[w..], b, base + w,
                 if a[0] == LF then line + 1 else line,
                 if a[0] == LF then 0 else if line == wl then units + Units(a[0]) else units, wl, wu);
    }
  }

  lemma LfIsOneByte()
    ensures Width(LF) == 1 && !IsCont(LF)
  {
  }

  lemma NoChar()
    ensures !StartsWithChar([])
  {
  }

  // ---- The scan in pieces -----------------------------------------------------------

  datatype ScanError = InvalidUtf8 | EndsInsideCharacter

  /** Scan the whole characters in `bytes`, starting from the state reached so far. */
  method ScanBytes(bytes: Text, base: nat, wantedLine: nat, wantedUnits: nat, line: nat, units: nat)
    returns (scan: Scan)
    requires Valid(bytes)
    ensures scan == ScanText(bytes, base, line, units, wantedLine, wantedUnits)
  {
    hide Valid;
    hide StartsWithChar;
    LfIsOneByte();
    var at: nat, l: nat, u: nat := 0, line, units;
    assert bytes[0..] == bytes;
    while at < |bytes|
      invariant at <= |bytes| && Valid(bytes[at..])
      invariant ScanText(bytes, base, line, units, wantedLine, wantedUnits) ==
        ScanText(bytes[at..], base + at, l, u, wantedLine, wantedUnits)
      decreases |bytes| - at
    {
      FirstChar(bytes[at..]);
      var lead := bytes[at..][0];
      var w := Width(lead);
      assert bytes[at..][w..] == bytes[at + w..];
      if l == wantedLine && u >= wantedUnits {
        return Found(base + at);
      }
      if lead == LF {
        if l == wantedLine {
          return Found(base + at);
        }
        l, u := l + 1, 0;
      } else if l == wantedLine {
        u := u + Units(lead);
      }
      at := at + w;
    }
    NoChar();
    assert bytes[at..] == [];
    scan := More(l, u);
  }

  /** What is known after any number of chunks: everything before `done` was scanned without
      a hit, and the carry is the part of one character that follows it. */
  ghost predicate Progress(doc: Text, done: nat, off: nat, carry: Text, line: nat, units: nat, wl: nat, wu: nat) {
    && done <= off <= |doc|
    && Valid(doc[..done])
    && carry == doc[done..off]
    && (carry == [] || Truncated(carry))
    && ScanText(doc[..done], 0, 0, 0, wl, wu) == More(line, units)
  }

  /** The next chunk, put after the carry, extends the scanned part by its whole characters. */
  lemma NextChunk(doc: Text, done: nat, off: nat, carry: Text, line: nat, units: nat, wl: nat, wu: nat, to: nat)
    requires Progress(doc, done, off, carry, line, units, wl, wu) && off <= to <= |doc|
    ensures carry + doc[off..to] == doc[done..to]
    ensures var v := ValidUpTo(doc[done..to]);
      && Valid(doc[done..to][..v]) && Valid(doc[..done + v])
      && doc[done..to][v..] == doc[done + v..to]
      && ScanText(doc[..done + v], 0, 0, 0, wl, wu) == ScanText(doc[done..to][..v], done, line, units, wl, wu)
  {
    hide Valid;
    hide ValidUpTo;
    hide ScanText;
    hide Truncated;
    var v := ValidUpTo(doc[done..to]);
    ValidUpToIsValid(doc[done..to]);
    SliceOfSlice(doc, done, to, 0, v);
    SliceOfSlice(doc, done, to, v, to - done);
    assert doc[done..to][v..] == doc[done..to][v..to - done];
    SliceDrop(doc, done, done + v);
    SliceDrop(doc[..to], done, off);
    assert doc[..to][done..off] == doc[done..off] && doc[..to][off..] == doc[off..to];
    assert doc[..to][done..] == doc[done..to];
    ValidConcat(doc[..done], doc[done..done + v]);
    ScanConcat(doc[..done], doc[done..done + v], 0, 0, 0, wl, wu);
  }

  lemma WholeChars(t: Text)
    requires Valid(t)
    ensures !Truncated(t)
  {
  }

  /** A malformed chunk, or a character cut by the end, shows that the document is not text. */
  lemma MalformedChunk(doc: Text, done: nat, to: nat)
    requires done <= to <= |doc| && Valid(doc[..done])
    ensures FromUtf8(doc[done..to]).Malformed? ==> !Valid(doc)
    ensures Truncated(doc[done..]) ==> !Valid(doc)
  {
    hide Valid;
    hide ValidUpTo;
    if Valid(doc) {
      TakeDrop(doc, done);
      ValidRest(doc[..done], doc[done..]);
      SliceDrop(doc, done, to);
      CutText(doc[done..to], doc[to..]);
      WholeChars(doc[done..]);
    }
  }

  /** A hit inside a valid beginning of the document is the hit of the whole scan. */
  lemma FoundEarly(doc: Text, n: nat, wl: nat, wu: nat)
    requires n <= |doc| && Valid(doc[..n])
    ensures ScanText(doc[..n], 0, 0, 0, wl, wu).Found? ==>
      Position(doc, wl, wu) == ScanText(doc[..n], 0, 0, 0, wl, wu).offset
    ensures n == |doc| && ScanText(doc[..n], 0, 0, 0, wl, wu).More? ==> Position(doc, wl, wu) == |doc|
  {
    hide Valid;
    hide ScanText;
    assert doc[..n] + doc[n..] == doc;
    if n == |doc| {
      assert doc[..n] == doc;
    }
    ScanConcat(doc[..n], doc[n..], 0, 0, 0, wl, wu);
  }

  /** One chunk: decode carry and chunk together, scan the whole characters, keep the rest. */
  method ScanChunk(ghost doc: Text, ghost done: nat, off: nat, carry: Text, line: nat, units: nat,
                   bytes: Text, wantedLine: nat, wantedUnits: nat)
    returns (r: Result<Option<nat>, ScanError>, ghost done': nat, carry': Text, line': nat, units': nat)
    requires Progress(doc, done, off, carry, line, units, wantedLine, wantedUnits)
    requires off + |bytes| <= |doc| && bytes == doc[off..off + |bytes|]
    ensures r.Err? ==> !Valid(doc)
    ensures r.Ok? && r.value.Some? ==> Position(doc, wantedLine, wantedUnits) == r.value.value
    ensures r.Ok? && r.value.None? ==>
      Progress(doc, done', off + |bytes|, carry', line', units', wantedLine, wantedUnits)
  {
    hide Valid;
    hide ValidUpTo;
    hide ScanText;
    hide Truncated;
    done', carry', line', units' := done, carry, line, units;
    var base := off - |carry|;
    var combined := carry + bytes;
    ghost var to := off + |bytes|;
    NextChunk(doc, done, off, carry, line, units, wantedLine, wantedUnits, to);
    MalformedChunk(doc, done, to);
    var decoded := FromUtf8(combined);
    if decoded.Malformed? {
      return Err(InvalidUtf8), done', carry', line', units';
    }
    var validLen := if decoded.Complete? then |combined| else decoded.validUpTo;
    var scan := ScanBytes(combined[..validLen], base, wantedLine, wantedUnits, line, units);
    FoundEarly(doc, done + validLen, wantedLine, wantedUnits);
    if scan.Found? {
      return Ok(Some(scan.offset)), done', carry', line', units';
    }
    done', carry', line', units' := done + validLen, combined[validLen..], scan.line, scan.units;
    r := Ok(None);
  }

  /** Scan a document held in leaves, in chunks that may end anywhere and may be shorter than
      asked for. Whatever the split, a valid document gives the whole-document answer. */
  method LspPositionToByte(leaves: seq<Text>, wantedLine: nat, wantedUnits: nat)
    returns (r: Result<nat, ScanError>)
    ensures Valid(Flatten(leaves)) ==> r == Ok(Position(Flatten(leaves), wantedLine, wantedUnits))
    ensures r.Ok? ==> r.value == Position(Flatten(leaves), wantedLine, wantedUnits)
  {
    hide Valid;
    hide ScanText;
    hide Truncated;
    ghost var doc := Flatten(leaves);
    var total := TotalBytes(leaves);
    ghost var done: nat := 0;
    var off: nat, carry: Text, line: nat, units: nat := 0, [], 0, 0;
    StartProgress(doc, wantedLine, wantedUnits);
    var i := 0;
    while i < |leaves|
      invariant i <= |leaves| && off == |Flatten(leaves[..i])|
      invariant Progress(doc, done, off, carry, line, units, wantedLine, wantedUnits)
    {
      var leaf := leaves[i];
      FlattenAround(leaves, i);
      ghost var before := Flatten(leaves[..i]);
      var within := 0;
      while within < |leaf|
        invariant within <= |leaf| && off == |before| + within
        invariant Progress(doc, done, off, carry, line, units, wantedLine, wantedUnits)
        decreases |leaf| - within
      {
        var length := if |leaf| - within < CHUNK then |leaf| - within else CHUNK;
        var got: nat :| 1 <= got <= length;
        LeafSlice(before, leaf, Flatten(leaves[i + 1..]), within, within + got);
        var chunk, done', carry', line', units' :=
          ScanChunk(doc, done, off, carry, line, units, leaf[within..within + got], wantedLine, wantedUnits);
        if chunk.Err? {
          return Err(chunk.error);
        }
        if chunk.value.Some? {
          return Ok(chunk.value.value);
        }
        done, carry, line, units := done', carry', line', units';
        off := off + got;
        within := within + got;
      }
      i := i + 1;
    }
    assert leaves[..i] == leaves;
    MalformedChunk(doc, done, |doc|);
    assert doc[done..off] == doc[done..];
    if carry != [] {
      return Err(EndsInsideCharacter);
    }
    FoundEarly(doc, done, wantedLine, wantedUnits);
    r := Ok(total);
  }

  method TotalBytes(leaves: seq<Text>) returns (total: nat)
    ensures total == |Flatten(leaves)|
  {
    total := 0;
    var i := 0;
    assert leaves[..0] == [];
    while i < |leaves|
      invariant i <= |leaves| && total == |Flatten(leaves[..i])|
    {
      FlattenAround(leaves, i);
      total := total + |leaves[i]|;
      i := i + 1;
    }
    assert leaves[..i] == leaves;
  }

  lemma StartProgress(doc: Text, wl: nat, wu: nat)
    ensures Progress(doc, 0, 0, [], 0, 0, wl, wu)
  {
  }

  lemma LeafSlice(before: Text, leaf: Text, after: Text, i: nat, j: nat)
    requires i <= j <= |leaf|
    ensures (before + leaf + after)[|before| + i..|before| + j] == leaf[i..j]
  {
  }

  // ---- What the position means --------------------------------------------------

  /** The offset just after the n-th line feed, counting bytes. */
  function LineStart(t: Text, n: nat): Option<nat> {
    if n == 0 then Some(0)
    else if t == [] then None
    else match LineStart(t[1..], if t[0] == LF then n - 1 else n)
      case None => None
      case Some(o) => Some(o + 1)
  }

  /** The bytes before the first line feed. */
  function LineLength(t: Text): (n: nat)
    ensures n <= |t|
  {
    if t == [] || t[0] == LF then 0 else 1 + LineLength(t[1..])
  }

  /** `r` is the first boundary of the line at or past the column, or the line's end. */
  ghost predicate AtColumn(line: Text, units: nat, r: nat) {
    && r <= |line| && IsBoundary(line, r)
    && (r == |line| || Utf16Length(line[..r]) >= units)
    && (forall k :: 0 <= k < r && IsBoundary(line, k) ==> Utf16Length(line[..k]) < units)
  }

  /** Line feeds never hide inside a character, so lines may be counted by bytes. */
  lemma {:induction false} SkipContinuation(t: Text, w: nat, n: nat)
    requires n > 0 && w <= |t| && forall k :: 0 <= k < w ==> t[k] != LF
    ensures LineStart(t, n) == match LineStart(t[w..], n) case None => None case Some(o) => Some(o + w)
    ensures LineLength(t) == w + LineLength(t[w..])
  {
    if w > 0 {
      SkipContinuation(t[1..], w - 1, n);
      assert t[1..][w - 1..] == t[w..];
    } else {
      assert t[0..] == t;
    }
  }

  /** Before the wanted line the scan only looks for line feeds. */
  lemma {:induction false} ScanToLine(t: Text, base: nat, line: nat, wl: nat, wu: nat)
    requires Valid(t) && line < wl
    ensures match LineStart(t, wl - line)
      case None => ScanText(t, base, line, 0, wl, wu).More?
      case Some(o) =>
        && o <= |t| && IsBoundary(t, o) && Valid(t[o..])
        && ScanText(t, base, line, 0, wl, wu) == ScanText(t[o..], base + o, wl, 0, wl, wu)
    decreases |t|
  {
    hide Valid;
    hide StartsWithChar;
    hide Width;
    hide ScanText;
    LfIsOneByte();
    if t == [] {
      ScanNothing(base, line, 0, wl, wu);
    } else {
      FirstChar(t);
      ScanStep(t, base, line, 0, wl, wu);
      var w := Width(t[0]);
      var next := if t[0] == LF then line + 1 else line;
      if t[0] == LF {
        if next == wl {
          assert LineStart(t[1..], 0) == Some(0);
          assert t[1..][0..] == t[1..];
        } else {
          ScanToLine(t[1..], base + 1, next, wl, wu);
          LineBoundary(t, 1, wl - next);
        }
      } else {
        SkipContinuation(t, w, wl - line);
        ScanToLine(t[w..], base + w, line, wl, wu);
        LineBoundary(t, w, wl - line);
      }
    }
  }

  lemma LineBoundary(t: Text, w: nat, n: nat)
    requires Valid(t) && w <= |t| && IsBoundary(t, w)
    requires LineStart(t[w..], n).Some? ==>
      LineStart(t[w..], n).value <= |t| - w && IsBoundary(t[w..], LineStart(t[w..], n).value)
    ensures LineStart(t[w..], n).Some? ==>
      var o := LineStart(t[w..], n).value; IsBoundary(t, w + o) && t[w..][o..] == t[w + o..]
  {
    hide Valid;
    if LineStart(t[w..], n).Some? {
      var o := LineStart(t[w..], n).value;
      assert t[w..|t|] == t[w..];
      BoundaryInSlice(t, w, |t|, o);
    }
  }

  lemma Utf16Step(t: Text, k: nat)
    requires StartsWithChar(t) && Width(t[0]) <= k <= |t|
    ensures Utf16Length(t[..k]) == Units(t[0]) + Utf16Length(t[Width(t[0])..][..k - Width(t[0])])
  {
    var w := Width(t[0]);
    assert t[..k][w..] == t[w..][..k - w];
    assert StartsWithChar(t[..k]);
  }

  /** On the wanted line the scan stops at the first boundary at or past the column. */
  lemma {:induction false} ScanInLine(t: Text, base: nat, units: nat, wl: nat, wu: nat)
    requires Valid(t)
    ensures var scan := ScanText(t, base, wl, units, wl, wu);
      && (scan.Found? ==> base <= scan.offset)
      && var r := if scan.Found? then scan.offset - base else |t|;
      && r <= LineLength(t) && IsBoundary(t, r)
      && (r == LineLength(t) || units + Utf16Length(t[..r]) >= wu)
      && (forall k :: 0 <= k < r && IsBoundary(t, k) ==> units + Utf16Length(t[..k]) < wu)
    decreases |t|
  {
    hide Valid;
    hide StartsWithChar;
    hide Width;
    hide ScanText;
    LfIsOneByte();
    if t == [] {
      ScanNothing(base, wl, units, wl, wu);
    } else {
      FirstChar(t);
      ScanStep(t, base, wl, units, wl, wu);
      NoChar();
      assert Utf16Length(t[..0]) == 0;
      if units < wu && t[0] != LF {
        var w := Width(t[0]);
        SkipContinuation(t, w, 1);
        ScanInLine(t[w..], base + w, units + Units(t[0]), wl, wu);
        var scan := ScanText(t, base, wl, units, wl, wu);
        var r := if scan.Found? then scan.offset - base else |t|;
        Utf16Step(t, r);
        assert t[w..|t|] == t[w..];
        BoundaryInSlice(t, w, |t|, r - w);
        forall k | 0 <= k < r && IsBoundary(t, k) ensures units + Utf16Length(t[..k]) < wu {
          if k > 0 {
            Utf16Step(t, k);
            BoundaryInSlice(t, w, |t|, k - w);
          }
        }
      }
    }
  }

  lemma AtColumnInLine(t: Text, n: nat, units: nat, r: nat)
    requires r <= n <= |t| && IsBoundary(t, r)
    requires r == n || Utf16Length(t[..r]) >= units
    requires forall k :: 0 <= k < r && IsBoundary(t, k) ==> Utf16Length(t[..k]) < units
    ensures AtColumn(t[..n], units, r)
  {
    var line := t[..n];
    forall k | 0 <= k <= r ensures line[..k] == t[..k] {}
    forall k | 0 <= k < r && IsBoundary(line, k) ensures Utf16Length(line[..k]) < units {
      assert line[..k] == t[..k];
    }
  }

  /** A position is found on its line, clamped to the line's end; a line past the last one is
      the end of the document. */
  lemma PositionMeaning(doc: Text, line: nat, character: nat)
    requires Valid(doc)
    ensures match LineStart(doc, line)
      case None => Position(doc, line, character) == |doc|
      case Some(s) =>
        && s <= Position(doc, line, character) && s <= |doc|
        && AtColumn(doc[s..s + LineLength(doc[s..])], character, Position(doc, line, character) - s)
  {
    hide Valid;
    hide ScanText;
    hide AtColumn;
    hide LineStart;
    LinePosition(doc, line, character);
    if LineStart(doc, line).Some? {
      var s := LineStart(doc, line).value;
      var rest := doc[s..];
      ScanInLine(rest, s, 0, line, character);
      AtColumnInLine(rest, LineLength(rest), character, Position(doc, line, character) - s);
      assert rest[..LineLength(rest)] == doc[s..s + LineLength(rest)];
    }
  }

  lemma LinePosition(doc: Text, line: nat, character: nat)
    requires Valid(doc)
    ensures match LineStart(doc, line)
      case None => Position(doc, line, character) == |doc|
      case Some(s) =>
        && s <= |doc| && Valid(doc[s..])
        && ScanText(doc, 0, 0, 0, line, character) == ScanText(doc[s..], s, line, 0, line, character)
  {
    hide Valid;
    hide ScanText;
    if line > 0 {
      ScanToLine(doc, 0, 0, line, character);
    } else {
      assert doc[0..] == doc;
    }
  }

  // ---- The client's column conversions ------------------------------------------

  function ByteToUtf16Column(line: Text, b: nat): Option<nat> {
    if b <= |line| && IsBoundary(line, b) then Some(Utf16Length(line[..b])) else None
  }

  /** The client's scan of the rest of a line, with `units` columns behind it. */
  function ColumnFrom(rest: Text, at: nat, units: nat, column: nat): Option<nat>
    decreases |rest|
  {
    if units == column then Some(at)
    else if !StartsWithChar(rest) then None
    else
      var u := units + Units(rest[0]);
      if u > column then None else ColumnFrom(rest[Width(rest[0])..], at + Width(rest[0]), u, column)
  }

  method Utf16ColumnToByte(line: Text, column: nat) returns (r: Option<nat>)
    requires Valid(line)
    ensures r == ColumnFrom(line, 0, 0, column)
  {
    hide Valid;
    hide StartsWithChar;
    hide Width;
    var at: nat, units: nat := 0, 0;
    assert line[0..] == line;
    while at < |line|
      invariant at <= |line| && Valid(line[at..]) && units <= column
      invariant ColumnFrom(line, 0, 0, column) == ColumnFrom(line[at..], at, units, column)
      decreases |line| - at
    {
      FirstChar(line[at..]);
      var lead := line[at..][0];
      assert line[at..][Width(lead)..] == line[at + Width(lead)..];
      if units == column {
        return Some(at);
      }
      units := units + Units(lead);
      if units > column {
        return None;
      }
      at := at + Width(lead);
    }
    NoChar();
    assert line[at..] == [];
    r := if units == column then Some(|line|) else None;
  }

  lemma {:induction false} ColumnFromMeaning(t: Text, at: nat, units: nat, column: nat, b: nat)
    requires Valid(t) && units <= column
    ensures ColumnFrom(t, at, units, column) == Some(b) <==>
      (at <= b <= at + |t| && IsBoundary(t, b - at) && units + Utf16Length(t[..b - at]) == column)
    decreases |t|
  {
    hide Valid;
    hide StartsWithChar;
    hide Width;
    NoChar();
    if t == [] {
      assert t[..0] == [];
    } else {
      assert t[..0] == [];
      FirstChar(t);
      var w := Width(t[0]);
      if units + Units(t[0]) <= column {
        ColumnFromMeaning(t[w..], at + w, units + Units(t[0]), column, b);
      }
      if at + w <= b <= at + |t| {
        Utf16Step(t, b - at);
        assert t[w..|t|] == t[w..];
        BoundaryInSlice(t, w, |t|, b - at - w);
      }
    }
  }

  /** The two conversions are inverse to each other, in both directions. */
  lemma ColumnsRoundTrip(line: Text, b: nat, column: nat)
    requires Valid(line)
    ensures ColumnFrom(line, 0, 0, column) == Some(b) <==> ByteToUtf16Column(line, b) == Some(column)
  {
    ColumnFromMeaning(line, 0, 0, column, b);
  }

  lemma {:induction false} Utf16LengthConcat(a: Text, b: Text)
    requires Valid(a)
    ensures Utf16Length(a + b) == Utf16Length(a) + Utf16Length(b)
    decreases |a|
  {
    hide Valid;
    hide StartsWithChar;
    hide Width;
    NoChar();
    if a == [] {
      assert a + b == b;
    } else {
      FirstChar(a);
      CharExtends(a, b);
      var w := Width(a[0]);
      assert (a + b)[w..] == a[w..] + b && (a + b)[0] == a[0];
      Utf16LengthConcat(a[w..], b);
    }
  }

  lemma Utf16Increases(line: Text, i: nat, j: nat)
    requires Valid(line) && i < j <= |line| && IsBoundary(line, i) && IsBoundary(line, j)
    ensures Utf16Length(line[..i]) < Utf16Length(line[..j])
  {
    hide Valid;
    hide IsBoundary;
    SliceValid(line, i, j);
    SplitAtBoundary(line, i);
    assert line[..j] == line[..i] + line[i..j];
    Utf16LengthConcat(line[..i], line[i..j]);
    FirstChar(line[i..j]);
  }

  /** Where the client's conversion succeeds, the daemon's scan finds the same byte. */
  lemma ScanAgreesWithClient(line: Text, column: nat, b: nat, r: nat)
    requires Valid(line) && ByteToUtf16Column(line, b) == Some(column) && AtColumn(line, column, r)
    ensures r == b
  {
    hide Valid;
    if r < b {
      Utf16Increases(line, r, b);
    }
  }
}
