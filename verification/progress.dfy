/** `Utill.ProgressBar` (`Downloader.cs` lines 47-68): a bracketed bar of
    twenty cells, each worth five percent, drawn with full blocks, a half
    block for a remainder above two, and spaces, then the percentage and
    the raw counts.

    The percentage `i` is a parameter: the source computes it in floating
    point from `val` and `max` (line 49), which this model leaves out. */
module Progress {
  import opened Text

  const FullBlock: char := '\U{2588}'
  const HalfBlock: char := '\U{258C}'

  /** C#'s `/` on `int`: the quotient rounded toward zero. */
  function TruncDiv(a: int, b: nat): (q: int)
    requires b > 0
    ensures a >= 0 ==> q == a / b
    ensures a < 0 ==> q == -((-a) / b)
  {
    if a >= 0 then a / b else -((-a) / b)
  }

  /** The magnitude of `a`. */
  function Abs(a: int): nat
  {
    if a < 0 then -a else a
  }

  /** Division rounded toward zero, without reference to Dafny's own
      division: the quotient's magnitude is the number of whole `b`s in
      `|a|`, and its sign is that of `a` unless it is zero. */
  lemma TruncDivMeaning(a: int, b: nat)
    requires b > 0
    ensures Abs(TruncDiv(a, b)) * b <= Abs(a) < (Abs(TruncDiv(a, b)) + 1) * b
    ensures TruncDiv(a, b) == 0 || (TruncDiv(a, b) < 0 <==> a < 0)
  {
    var n := Abs(a);
    assert n / b * b + n % b == n;
    assert (n / b + 1) * b == n / b * b + b;
  }

  /** C#'s `%` on `int`: the remainder takes the sign of `a`. */
  function TruncRem(a: int, b: nat): (r: int)
    requires b > 0
    ensures a == TruncDiv(a, b) * b + r
    ensures a >= 0 ==> 0 <= r < b && r == a % b
    ensures a < 0 ==> -(b as int) < r <= 0
  {
    a - TruncDiv(a, b) * b
  }

  /** How many full blocks the bar shows: `i / 5`, none when that is
      negative. */
  function Blocks(i: int): nat
  {
    var f := TruncDiv(i, 5);
    if f > 0 then f else 0
  }

  /** Whether the bar shows a half block: the bar is not full and the
      remainder is above two (lines 56-59). */
  predicate HasHalf(i: int)
  {
    TruncDiv(i, 5) != 20 && TruncRem(i, 5) > 2
  }

  /** The cells between the brackets: padded to twenty unless `i / 5` is
      exactly 20, and never fewer than the blocks drawn. */
  function Cells(i: int): nat
  {
    var drawn := Blocks(i) + (if HasHalf(i) then 1 else 0);
    if TruncDiv(i, 5) != 20 then (if drawn < 20 then 20 else drawn) else drawn
  }

  /** What cell `k` (from 1) of the bar shows. */
  function Glyph(i: int, k: nat): char
  {
    if k <= Blocks(i) then FullBlock
    else if k == Blocks(i) + 1 && HasHalf(i) then HalfBlock
    else ' '
  }

  /** The bar, cell by cell, between its brackets. */
  function Bar(i: int): (bar: string)
    ensures |bar| == Cells(i) + 2
    ensures bar[0] == '[' && bar[|bar| - 1] == ']'
    ensures forall k :: 1 <= k <= Cells(i) ==> bar[k] == Glyph(i, k)
  {
    var inner := seq(Cells(i), k requires 0 <= k < Cells(i) => Glyph(i, k + 1));
    "[" + inner + "]"
  }

  /** `ProgressBar(val, max)` with the percentage `i` given: the bar built
      with a `StringBuilder` (lines 51-66), then a space, `i` right-aligned
      in three characters, `%`, and the counts (line 67). */
  method ProgressBar(val: int, max: int, i: int) returns (s: string)
    ensures s == Bar(i) + " " + PadLeft(IntToString(i), 3) + "% (" + IntToString(val) + "/" + IntToString(max) + ")"
  {
    var sb := "[";
    var fullChars := TruncDiv(i, 5);
    var j := 0;
    while j < fullChars
      invariant 0 <= j <= Blocks(i)
      invariant sb == "[" + Repeat(FullBlock, j)
    {
      sb := sb + [FullBlock];
      j := j + 1;
    }
    assert j == Blocks(i);
    if 20 - fullChars != 0 {
      if TruncRem(i, 5) > 2 {
        sb := sb + [HalfBlock];
      }
      ghost var drawn := |sb|;
      assert drawn == 1 + Blocks(i) + (if HasHalf(i) then 1 else 0);
      assert forall k :: 0 < k < drawn ==> sb[k] == Glyph(i, k);
      while |sb| < 21
        invariant drawn <= |sb| <= (if drawn < 21 then 21 else drawn)
        invariant forall k :: 0 < k < |sb| ==> sb[k] == Glyph(i, k)
        invariant sb[0] == '['
        decreases 21 - |sb|
      {
        sb := sb + " ";
      }
    }
    assert |sb| == Cells(i) + 1;
    sb := sb + "]";
    assert sb == Bar(i);
    s := sb + " " + PadLeft(IntToString(i), 3) + "% (" + IntToString(val) + "/" + IntToString(max) + ")";
  }

  /** A string made of `a` copies of `c`, then `h`, then copies of `d`. */
  lemma Runs(s: string, a: nat, h: string, c: char, d: char)
    requires a + |h| <= |s|
    requires forall k :: 0 <= k < a ==> s[k] == c
    requires s[a..a + |h|] == h
    requires forall k :: a + |h| <= k < |s| ==> s[k] == d
    ensures s == Repeat(c, a) + h + Repeat(d, |s| - a - |h|)
  {
    assert s[..a] == Repeat(c, a);
    assert s[a + |h|..] == Repeat(d, |s| - a - |h|);
    assert s == s[..a] + s[a..a + |h|] + s[a + |h|..];
  }

  /** The half block of a bar for `i` from 0 to 100, written with Dafny's
      operators: shown when `i / 5` is not 20 and `i % 5` is above 2. */
  function HalfPiece(i: int): (half: string)
    requires 0 <= i <= 100
  {
    if i / 5 != 20 && i % 5 > 2 then [HalfBlock] else []
  }

  /** For a percentage from 0 to 100 the bar is a bracket, `i / 5` full
      blocks, a half block exactly when `i / 5` is not 20 and `i % 5` is
      above 2, spaces up to twenty cells, and a closing bracket. */
  lemma BarPieces(i: int)
    requires 0 <= i <= 100
    ensures Bar(i) == "[" + (Repeat(FullBlock, i / 5) + HalfPiece(i) + Repeat(' ', 20 - i / 5 - |HalfPiece(i)|)) + "]"
  {
    var half := HalfPiece(i);
    var bar := Bar(i);
    assert Cells(i) == 20;
    var inner := bar[1..21];
    forall k | 0 <= k < 20 ensures inner[k] == Glyph(i, k + 1) {
      assert inner[k] == bar[k + 1];
    }
    InnerRuns(i, i / 5, half, inner);
    Bracketed(bar, inner);
  }

  /** The twenty cells of a bar for `i` from 0 to 100, as runs. */
  lemma InnerRuns(i: int, f: nat, half: string, inner: string)
    requires 0 <= i <= 100 && f == i / 5
    requires half == if i / 5 != 20 && i % 5 > 2 then [HalfBlock] else []
    requires |inner| == 20 && forall k :: 0 <= k < 20 ==> inner[k] == Glyph(i, k + 1)
    ensures inner == Repeat(FullBlock, f) + half + Repeat(' ', 20 - f - |half|)
  {
    assert Blocks(i) == f;
    assert HasHalf(i) <==> |half| == 1;
    assert inner[f..f + |half|] == half;
    Runs(inner, f, half, FullBlock, ' ');
  }

  lemma Bracketed(bar: string, inner: string)
    requires |bar| == 22 && bar[0] == '[' && bar[21] == ']' && inner == bar[1..21]
    ensures bar == "[" + inner + "]"
  {
  }

  /** For a percentage from 0 to 100 the bar is 22 characters holding
      `i / 5` full blocks, one half block when `i / 5` is not 20 and
      `i % 5` is above 2, and spaces for the rest of its twenty cells. */
  lemma BarLayout(i: int)
    requires 0 <= i <= 100
    ensures var bar := Bar(i);
            var half := if i / 5 != 20 && i % 5 > 2 then 1 else 0;
            && |bar| == 22
            && bar[0] == '[' && bar[21] == ']'
            && multiset(bar)[FullBlock] == i / 5
            && multiset(bar)[HalfBlock] == half
            && multiset(bar)[' '] == 20 - i / 5 - half
  {
    var half := HalfPiece(i);
    BarPieces(i);
    PiecesCount(Bar(i), i / 5, half, 20 - i / 5 - |half|);
  }

  /** What a bar made of runs holds: its length, its brackets, and how
      many of each glyph. */
  lemma PiecesCount(bar: string, f: nat, half: string, sp: nat)
    requires half == [] || half == [HalfBlock]
    requires bar == "[" + (Repeat(FullBlock, f) + half + Repeat(' ', sp)) + "]"
    ensures |bar| == f + |half| + sp + 2
    ensures bar[0] == '[' && bar[|bar| - 1] == ']'
    ensures multiset(bar)[FullBlock] == f
    ensures multiset(bar)[HalfBlock] == |half|
    ensures multiset(bar)[' '] == sp
  {
    var full, spaces := Repeat(FullBlock, f), Repeat(' ', sp);
    var inner := full + half + spaces;
    BracketCount(inner, FullBlock);
    BracketCount(inner, HalfBlock);
    BracketCount(inner, ' ');
    RepeatCount(FullBlock, f, FullBlock);
    RepeatCount(FullBlock, f, HalfBlock);
    RepeatCount(FullBlock, f, ' ');
    RepeatCount(' ', sp, FullBlock);
    RepeatCount(' ', sp, HalfBlock);
    RepeatCount(' ', sp, ' ');
  }

  /** The brackets hold none of the bar's glyphs. */
  lemma BracketCount(inner: string, c: char)
    requires c != '[' && c != ']'
    ensures multiset("[" + inner + "]")[c] == multiset(inner)[c]
  {
  }

  /** For `i` from 0 to 100 the whole string starts with the bar, a space
      and `i` right-aligned to three characters before the percent sign. */
  lemma ProgressLayout(val: int, max: int, i: int, s: string)
    requires 0 <= i <= 100
    requires s == Bar(i) + " " + PadLeft(IntToString(i), 3) + "% (" + IntToString(val) + "/" + IntToString(max) + ")"
    ensures |s| > 27 && s[..22] == Bar(i) && s[22] == ' ' && s[26] == '%'
    ensures s[23..26] == PadLeft(NatToString(i), 3)
  {
    BarLayout(i);
    NatToStringShort(i);
    Columns(Bar(i), PadLeft(IntToString(i), 3), IntToString(val), IntToString(max));
  }

  /** Where the pieces of the line fall, for a bar of 22 characters and a
      percentage of 3. */
  lemma Columns(bar: string, pct: string, v: string, m: string)
    requires |bar| == 22 && |pct| == 3
    ensures var s := bar + " " + pct + "% (" + v + "/" + m + ")";
            |s| > 27 && s[..22] == bar && s[22] == ' ' && s[23..26] == pct && s[26] == '%'
  {
    var s := bar + " " + pct + "% (" + v + "/" + m + ")";
    var rest := "% (" + v + "/" + m + ")";
    assert s == bar + " " + pct + rest;
  }
}
