/** UTF-8 text as byte sequences (section 3 of RFC 3629), with the character-boundary
    test the Rust standard library uses and the three outcomes of its checked decoder. */
module Utf8 {

  type byte = x: int | 0 <= x < 256
  type Text = seq<byte>

  const LF: byte := 0x0A
  const CR: byte := 0x0D

  /** A byte of the form 10xxxxxx. */
  predicate IsCont(b: byte) {
    0x80 <= b < 0xC0
  }

  /** How many bytes the character led by `b` takes; 0 if no character starts with `b`. */
  function Width(b: byte): nat {
    if b < 0x80 then 1
    else if 0xC2 <= b <= 0xDF then 2
    else if 0xE0 <= b <= 0xEF then 3
    else if 0xF0 <= b <= 0xF4 then 4
    else 0
  }

  /** The second byte excludes overlong forms, surrogates and values past U+10FFFF. */
  predicate SecondOk(lead: byte, second: byte) {
    if lead == 0xE0 then 0xA0 <= second < 0xC0
    else if lead == 0xED then 0x80 <= second < 0xA0
    else if lead == 0xF0 then 0x90 <= second < 0xC0
    else if lead == 0xF4 then 0x80 <= second < 0x90
    else IsCont(second)
  }

  /** What is present of a leading character is well formed so far. */
  predicate CharSoFar(s: Text) {
    && s != []
    && Width(s[0]) > 0
    && (Width(s[0]) >= 2 && |s| >= 2 ==> SecondOk(s[0], s[1]))
    && (Width(s[0]) >= 3 && |s| >= 3 ==> IsCont(s[2]))
    && (Width(s[0]) >= 4 && |s| >= 4 ==> IsCont(s[3]))
  }

  predicate StartsWithChar(s: Text) {
    CharSoFar(s) && Width(s[0]) <= |s|
  }

  predicate Valid(s: Text) {
    s == [] || (StartsWithChar(s) && Valid(s[Width(s[0])..]))
  }

  /** `str::is_char_boundary`: it looks at one byte only. */
  predicate IsBoundary(s: Text, i: int) {
    i == 0 || i == |s| || (0 < i < |s| && !IsCont(s[i]))
  }

  /** A proper, well-formed beginning of one character. */
  predicate Truncated(s: Text) {
    CharSoFar(s) && |s| < Width(s[0])
  }

  /** `Utf8Error::valid_up_to`. */
  function ValidUpTo(s: Text): (n: nat)
    ensures n <= |s|
  {
    if StartsWithChar(s) then Width(s[0]) + ValidUpTo(s[Width(s[0])..]) else 0
  }

  /** The three outcomes of `str::from_utf8`; Incomplete is `error_len() == None`. */
  datatype Decoded = Complete | Incomplete(validUpTo: nat) | Malformed(errorAt: nat)

  function FromUtf8(s: Text): (d: Decoded) {
    var v := ValidUpTo(s);
    if v == |s| then Complete
    else if Truncated(s[v..]) then Incomplete(v)
    else Malformed(v)
  }

  /** The greatest character boundary at or below `i`. */
  function FloorBoundary(s: Text, i: nat): (b: nat)
    requires i <= |s|
    ensures b <= i && IsBoundary(s, b)
  {
    if IsBoundary(s, i) then i else FloorBoundary(s, i - 1)
  }

  /** The least character boundary at or above `i`. */
  function CeilBoundary(s: Text, i: nat): (b: nat)
    requires i <= |s|
    ensures i <= b <= |s| && IsBoundary(s, b)
    decreases |s| - i
  {
    if IsBoundary(s, i) then i else CeilBoundary(s, i + 1)
  }

  lemma {:induction false} FloorIsLast(s: Text, i: nat, k: nat)
    requires k <= i <= |s| && IsBoundary(s, k)
    ensures k <= FloorBoundary(s, i)
  {
    if !IsBoundary(s, i) {
      FloorIsLast(s, i - 1, k);
    }
  }

  lemma {:induction false} CeilIsFirst(s: Text, i: nat, k: nat)
    requires i <= k <= |s| && IsBoundary(s, k)
    ensures CeilBoundary(s, i) <= k
    decreases k - i
  {
    if !IsBoundary(s, i) {
      CeilIsFirst(s, i + 1, k);
    }
  }

  // ---- Validity and splitting -------------------------------------------------

  lemma EndsAreBoundaries(s: Text)
    ensures IsBoundary(s, 0) && IsBoundary(s, |s|)
  {
  }

  lemma EmptyIsValid()
    ensures Valid([])
  {
  }

  lemma CharExtends(a: Text, b: Text)
    requires StartsWithChar(a)
    ensures 0 < Width(a[0]) <= |a|
    ensures StartsWithChar(a + b) && Width((a + b)[0]) == Width(a[0])
  {
    forall k | 0 <= k < |a| ensures (a + b)[k] == a[k] {}
  }

  lemma {:induction false} ValidConcat(a: Text, b: Text)
    requires Valid(a) && Valid(b)
    ensures Valid(a + b)
  {
    hide StartsWithChar;
    if a == [] {
      assert a + b == b;
    } else {
      CharExtends(a, b);
      var w := Width(a[0]);
      ValidConcat(a[w..], b);
      assert (a + b)[w..] == a[w..] + b;
    }
  }

  /** A valid text that begins with a valid text continues with one. */
  lemma {:induction false} ValidRest(a: Text, b: Text)
    requires Valid(a) && Valid(a + b)
    ensures Valid(b)
  {
    hide StartsWithChar;
    if a == [] {
      assert a + b == b;
    } else {
      CharExtends(a, b);
      var w := Width(a[0]);
      assert (a + b)[w..] == a[w..] + b;
      ValidRest(a[w..], b);
    }
  }

  lemma SliceOfSlice(t: Text, s: nat, e: nat, i: nat, j: nat)
    requires s <= e <= |t| && i <= j <= e - s
    ensures t[s..e][i..j] == t[s + i..s + j]
  {
    var u, v := t[s..e][i..j], t[s + i..s + j];
    assert |u| == |v|;
    forall k | 0 <= k < |u| ensures u[k] == v[k] {
      assert u[k] == t[s..e][i + k];
    }
    assert u == v;
  }

  lemma SliceOfDrop(s: Text, w: nat, i: nat)
    requires w <= i <= |s|
    ensures s[w..][..i - w] == s[w..i] && s[w..][i - w..] == s[i..] && s[..i][w..] == s[w..i]
  {
  }

  lemma {:induction false} SplitAtBoundary(s: Text, i: nat)
    requires Valid(s) && i <= |s| && IsBoundary(s, i)
    ensures Valid(s[..i]) && Valid(s[i..])
  {
    if i == 0 {
      assert s[..0] == [] && s[0..] == s;
    } else {
      var w := Width(s[0]);
      assert i >= w;
      SplitAtBoundary(s[w..], i - w);
      SliceOfDrop(s, w, i);
      assert s[..i][0] == s[0];
    }
  }

  /** The one-byte boundary test is exactly "both sides are valid text". */
  lemma BoundaryIffSplit(s: Text, i: nat)
    requires Valid(s) && i <= |s|
    ensures IsBoundary(s, i) <==> Valid(s[..i]) && Valid(s[i..])
  {
    if IsBoundary(s, i) {
      SplitAtBoundary(s, i);
    } else {
      assert s[i..][0] == s[i];
    }
  }

  lemma SliceValid(s: Text, i: nat, j: nat)
    requires Valid(s) && i <= j <= |s| && IsBoundary(s, i) && IsBoundary(s, j)
    ensures Valid(s[i..j])
  {
    SplitAtBoundary(s, j);
    assert s[..j][i..] == s[i..j];
    assert IsBoundary(s[..j], i);
    SplitAtBoundary(s[..j], i);
  }

  /** A valid text ends, and may be continued, only at a boundary. */
  lemma ValidPrefixBoundary(s: Text, i: nat)
    requires Valid(s) && i <= |s| && Valid(s[..i])
    ensures IsBoundary(s, i)
  {
    assert s[..i] + s[i..] == s;
    ValidRest(s[..i], s[i..]);
    BoundaryIffSplit(s, i);
  }

  lemma BoundaryInSlice(s: Text, i: nat, j: nat, k: nat)
    requires Valid(s) && i <= j <= |s| && IsBoundary(s, i) && IsBoundary(s, j)
    requires k <= j - i
    ensures IsBoundary(s[i..j], k) <==> IsBoundary(s, i + k)
  {
    if 0 < k < j - i {
      assert s[i..j][k] == s[i + k];
    }
  }

  /** A character has at most four bytes, so a boundary is at most three bytes back. */
  lemma {:induction false} FloorNear(s: Text, i: nat)
    requires Valid(s) && i <= |s|
    ensures i - 3 <= FloorBoundary(s, i)
  {
    if s != [] && Width(s[0]) <= i {
      var w := Width(s[0]);
      FloorNear(s[w..], i - w);
      var b := FloorBoundary(s[w..], i - w);
      assert IsBoundary(s, w + b) by {
        if b == 0 {
          SplitAtBoundaryAfterFirst(s);
        } else if b < |s| - w {
          assert s[w..][b] == s[w + b];
        }
      }
      FloorIsLast(s, i, w + b);
    }
  }

  lemma SplitAtBoundaryAfterFirst(s: Text)
    requires Valid(s) && s != []
    ensures IsBoundary(s, Width(s[0]))
  {
    var w := Width(s[0]);
    if w < |s| {
      assert s[w..][0] == s[w];
    }
  }

  /** The first character of a text: one lead byte, then continuation bytes only. */
  lemma FirstChar(s: Text)
    requires Valid(s) && s != []
    ensures StartsWithChar(s) && 1 <= Width(s[0]) <= 4 && Width(s[0]) <= |s|
    ensures Valid(s[Width(s[0])..]) && IsBoundary(s, Width(s[0])) && !IsCont(s[0])
    ensures forall k :: 0 < k < Width(s[0]) ==> IsCont(s[k])
  {
    SplitAtBoundaryAfterFirst(s);
  }

  // ---- Reading a prefix of a valid text ---------------------------------------

  /** Whether a prefix of a character holds all of it is a matter of length only. */
  lemma CutChar(a: Text, b: Text)
    requires a != [] && StartsWithChar(a + b)
    ensures if Width(a[0]) <= |a| then StartsWithChar(a) else Truncated(a)
    ensures Width((a + b)[0]) == Width(a[0])
  {
    forall k | 0 <= k < |a| ensures (a + b)[k] == a[k] {}
  }

  lemma ValidUpToStep(a: Text)
    requires StartsWithChar(a)
    ensures ValidUpTo(a) == Width(a[0]) + ValidUpTo(a[Width(a[0])..])
    ensures a[ValidUpTo(a)..] == a[Width(a[0])..][ValidUpTo(a[Width(a[0])..])..]
  {
  }

  /** Cutting valid text anywhere leaves whole characters and at most one cut one. */
  lemma {:induction false} CutText(a: Text, b: Text)
    requires Valid(a + b)
    ensures a[ValidUpTo(a)..] == [] || Truncated(a[ValidUpTo(a)..])
    ensures Valid(a[ValidUpTo(a)..] + b)
    decreases |a|
  {
    if a == [] {
      assert a[0..] + b == a + b;
    } else {
      CutChar(a, b);
      var w := Width(a[0]);
      if w <= |a| {
        assert (a + b)[w..] == a[w..] + b;
        CutText(a[w..], b);
        ValidUpToStep(a);
      } else {
        assert ValidUpTo(a) == 0 && a[0..] == a;
      }
    }
  }

  lemma {:induction false} ValidUpToIsValid(a: Text)
    ensures Valid(a[..ValidUpTo(a)])
    ensures ValidUpTo(a) == |a| <==> Valid(a)
  {
    if StartsWithChar(a) {
      var w := Width(a[0]);
      ValidUpToIsValid(a[w..]);
      var v := ValidUpTo(a[w..]);
      assert a[..w + v][w..] == a[w..][..v];
      assert a[..w + v][0] == a[0];
    }
  }

  /** A truncated character is what its name says: some bytes complete it, none it has do. */
  lemma TruncatedCompletes(s: Text)
    requires s != []
    ensures Truncated(s) <==> !StartsWithChar(s) && exists t: Text :: StartsWithChar(s + t)
  {
    if Truncated(s) {
      var t: Text := [if s[0] == 0xE0 || s[0] == 0xF0 then 0xA0 else 0x80, 0x80, 0x80];
      if |s| == 1 {
        assert StartsWithChar(s + t);
      } else {
        assert StartsWithChar(s + [0x80, 0x80]);
      }
    }
    forall t: Text | StartsWithChar(s + t) && !StartsWithChar(s) ensures Truncated(s) {
      assert (s + t)[0] == s[0];
    }
  }

  /** A character starts after every ASCII character. */
  lemma {:induction false} AfterAscii(s: Text, i: nat)
    requires Valid(s) && 0 < i <= |s| && s[i - 1] < 0x80
    ensures IsBoundary(s, i)
  {
    FirstChar(s);
    var w := Width(s[0]);
    if w < i {
      AfterAscii(s[w..], i - w);
      assert i < |s| ==> s[w..][i - w] == s[i];
    }
  }
}
