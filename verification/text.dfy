/** The .NET string operations the modelled code relies on: `Trim`,
    `Split(char)`, `Replace(string, string)`, `int.ToString()` and right
    alignment in a composite format, over strings as sequences of chars. */
module Text {

  /** `char.IsWhiteSpace`: the Unicode space, line and paragraph separators
      plus the control characters U+0009..U+000D and U+0085. */
  predicate IsWhiteSpace(c: char)
  {
    || c == ' '
    || ('\U{0009}' <= c <= '\U{000D}')
    || c == '\U{0085}'
    || c == '\U{00A0}'
    || c == '\U{1680}'
    || ('\U{2000}' <= c <= '\U{200A}')
    || c == '\U{2028}'
    || c == '\U{2029}'
    || c == '\U{202F}'
    || c == '\U{205F}'
    || c == '\U{3000}'
  }

  /** `TrimStart()`: the longest suffix of `s` that does not start with white space. */
  function TrimStart(s: string): (r: string)
    ensures |r| <= |s| && r == s[|s| - |r|..]
    ensures forall k :: 0 <= k < |s| - |r| ==> IsWhiteSpace(s[k])
    ensures |r| > 0 ==> !IsWhiteSpace(r[0])
    decreases |s|
  {
    if |s| > 0 && IsWhiteSpace(s[0]) then
      var r := TrimStart(s[1..]);
      assert forall k :: 1 <= k < |s| - |r| ==> s[k] == s[1..][k - 1];
      r
    else s
  }

  /** `TrimEnd()`: the longest prefix of `s` that does not end with white space. */
  function TrimEnd(s: string): (r: string)
    ensures |r| <= |s| && r == s[..|r|]
    ensures forall k :: |r| <= k < |s| ==> IsWhiteSpace(s[k])
    ensures |r| > 0 ==> !IsWhiteSpace(r[|r| - 1])
    decreases |s|
  {
    if |s| > 0 && IsWhiteSpace(s[|s| - 1]) then
      var r := TrimEnd(s[..|s| - 1]);
      assert forall k :: |r| <= k < |s| - 1 ==> s[k] == s[..|s| - 1][k];
      r
    else s
  }

  /** `Trim()`: `s` without its leading and trailing white space. */
  function Trim(s: string): (r: string)
    ensures |r| > 0 ==> !IsWhiteSpace(r[0]) && !IsWhiteSpace(r[|r| - 1])
    ensures (|r| == 0) <==> (forall k :: 0 <= k < |s| ==> IsWhiteSpace(s[k]))
  {
    var t := TrimStart(s);
    var r := TrimEnd(t);
    TrimBoth(s, t, r);
    r
  }

  /** The two trims together: what is left neither starts nor ends with
      white space, and nothing is left exactly when all was white space. */
  lemma TrimBoth(s: string, t: string, r: string)
    requires t == TrimStart(s) && r == TrimEnd(t)
    ensures |r| > 0 ==> !IsWhiteSpace(r[0]) && !IsWhiteSpace(r[|r| - 1])
    ensures (|r| == 0) <==> (forall k :: 0 <= k < |s| ==> IsWhiteSpace(s[k]))
  {
    if |t| > 0 {
      SuffixIndex(s, t, 0);
    }
  }

  lemma SuffixIndex(s: string, t: string, k: nat)
    requires |t| <= |s| && t == s[|s| - |t|..] && k < |t|
    ensures t[k] == s[|s| - |t| + k]
  {
  }

  /** Trimming twice is trimming once. */
  lemma TrimIdempotent(s: string)
    ensures Trim(Trim(s)) == Trim(s)
  {
    var r := Trim(s);
    assert TrimStart(r) == r;
    assert TrimEnd(r) == r;
  }

  /** The position of the first `c` in `s` (`IndexOf(char)`). */
  function IndexOf(s: string, c: char): (p: nat)
    requires c in s
    ensures p < |s| && s[p] == c && c !in s[..p]
    decreases |s|
  {
    if s[0] == c then 0
    else
      var p := 1 + IndexOf(s[1..], c);
      assert s[..p] == [s[0]] + s[1..][..p - 1];
      p
  }

  /** The inverse of `Split`: the parts with one `sep` between neighbours. */
  function Join(parts: seq<string>, sep: char): string
    requires |parts| > 0
    decreases |parts|
  {
    if |parts| == 1 then parts[0] else parts[0] + [sep] + Join(parts[1..], sep)
  }

  /** `Split(sep)`: the maximal `sep`-free pieces of `s`, one more than the
      number of separators, which `Join` puts back together. */
  function Split(s: string, sep: char): (r: seq<string>)
    ensures |r| == multiset(s)[sep] + 1
    ensures forall t :: t in r ==> sep !in t
    ensures Join(r, sep) == s
    decreases |s|
  {
    if sep !in s then
      assert multiset(s)[sep] == 0;
      [s]
    else
      var p := IndexOf(s, sep);
      var rest := Split(s[p + 1..], sep);
      SplitCons(s, sep, p, rest);
      [s[..p]] + rest
  }

  /** The pieces of `s`: the text before its first separator, at `p`, then
      the pieces of what follows it. */
  lemma SplitCons(s: string, sep: char, p: nat, rest: seq<string>)
    requires p < |s| && s[p] == sep && sep !in s[..p]
    requires |rest| == multiset(s[p + 1..])[sep] + 1
    requires forall t :: t in rest ==> sep !in t
    requires Join(rest, sep) == s[p + 1..]
    ensures |[s[..p]] + rest| == multiset(s)[sep] + 1
    ensures forall t :: t in [s[..p]] + rest ==> sep !in t
    ensures Join([s[..p]] + rest, sep) == s
  {
    var r := [s[..p]] + rest;
    assert s == s[..p] + [sep] + s[p + 1..];
    assert multiset(s) == multiset(s[..p]) + multiset([sep]) + multiset(s[p + 1..]);
    assert multiset(s[..p])[sep] == 0;
    assert r[0] == s[..p] && r[1..] == rest;
  }

  /** Splitting `a + [sep] + b` on a separator neither side contains gives back `a` and `b`. */
  lemma SplitTwo(a: string, b: string, sep: char)
    requires sep !in a && sep !in b
    ensures Split(a + [sep] + b, sep) == [a, b]
  {
    var s := a + [sep] + b;
    assert s[|a|] == sep;
    assert s[..|a|] == a;
    var p := IndexOf(s, sep);
    assert s[p + 1..] == b;
  }

  /** The converse of `SplitTwo`: a string that splits into two pieces is
      those pieces around a single separator. */
  lemma SplitPair(s: string, sep: char, a: string, b: string)
    requires var parts := Split(s, sep); |parts| == 2 && parts[0] == a && parts[1] == b
    ensures s == a + [sep] + b
    ensures sep !in a && sep !in b
  {
    var parts := Split(s, sep);
    assert parts[0] in parts && parts[1] in parts;
    assert parts[1..] == [b];
  }

  /** `e` is what follows the last `sep` of `s`: a `sep`-free suffix that
      is either all of `s` or comes right after a `sep`. */
  predicate IsLastPiece(s: string, sep: char, e: string)
  {
    && |e| <= |s| && e == s[|s| - |e|..]
    && sep !in e
    && (|e| < |s| ==> s[|s| - |e| - 1] == sep)
  }

  /** Only one suffix is the last piece. */
  lemma LastPieceUnique(s: string, sep: char, e: string, f: string)
    requires IsLastPiece(s, sep, e) && IsLastPiece(s, sep, f)
    ensures e == f
  {
  }

  /** The last piece of a split is the text after the last separator. */
  lemma {:induction false} SplitLast(s: string, sep: char)
    ensures IsLastPiece(s, sep, Split(s, sep)[|Split(s, sep)| - 1])
    decreases |s|
  {
    if sep in s {
      var p := IndexOf(s, sep);
      var tail := s[p + 1..];
      var rest := Split(tail, sep);
      assert Split(s, sep) == [s[..p]] + rest;
      assert Split(s, sep)[|Split(s, sep)| - 1] == rest[|rest| - 1];
      SplitLast(tail, sep);
      LastPieceOfTail(s, sep, p, rest[|rest| - 1]);
    }
  }

  /** The last piece of what follows a separator at `p` is the last piece
      of the whole text. */
  lemma LastPieceOfTail(s: string, sep: char, p: nat, e: string)
    requires p < |s| && s[p] == sep && IsLastPiece(s[p + 1..], sep, e)
    ensures IsLastPiece(s, sep, e)
  {
    var tail := s[p + 1..];
    var start := |s| - |e|;
    assert |tail| - |e| + p + 1 == start;
    forall k | 0 <= k < |e| ensures e[k] == s[start + k] {
      assert e[k] == tail[|tail| - |e| + k];
    }
    assert e == s[start..];
    if |e| < |tail| {
      assert tail[|tail| - |e| - 1] == s[start - 1];
    }
  }

  /** `s` starts with `pat` (`StartsWith(string)`, ordinal). */
  predicate StartsWith(s: string, pat: string)
  {
    |pat| <= |s| && s[..|pat|] == pat
  }

  /** `pat` occurs in `s` starting at position `k`. */
  predicate OccursAt(s: string, pat: string, k: nat)
  {
    k + |pat| <= |s| && s[k..k + |pat|] == pat
  }

  /** `pat` occurs somewhere in `s` (`Contains(string)`, ordinal). */
  predicate Occurs(s: string, pat: string)
  {
    exists k: nat :: k <= |s| && OccursAt(s, pat, k)
  }

  /** `Replace(pat, rep)`: every occurrence of `pat`, found left to right
      without overlap, replaced by `rep`. .NET refuses an empty `pat`. */
  function Replace(s: string, pat: string, rep: string): (r: string)
    requires |pat| > 0
    ensures !Occurs(s, pat) ==> r == s
    decreases |s|
  {
    if |s| == 0 then s
    else if StartsWith(s, pat) then
      assert OccursAt(s, pat, 0);
      rep + Replace(s[|pat|..], pat, rep)
    else
      assert !Occurs(s, pat) ==> !Occurs(s[1..], pat) by {
        if Occurs(s[1..], pat) {
          var k: nat :| k <= |s[1..]| && OccursAt(s[1..], pat, k);
          assert s[k + 1..k + 1 + |pat|] == s[1..][k..k + |pat|];
          assert OccursAt(s, pat, k + 1);
        }
      }
      [s[0]] + Replace(s[1..], pat, rep)
  }

  /** What `Replace` begins with: the replacement when `s` starts with the
      pattern, otherwise the first character of `s`. */
  lemma ReplaceHead(s: string, pat: string, rep: string)
    requires |pat| > 0 && |s| > 0
    ensures StartsWith(s, pat) ==> StartsWith(Replace(s, pat, rep), rep)
    ensures !StartsWith(s, pat) ==> |Replace(s, pat, rep)| > 0 && Replace(s, pat, rep)[0] == s[0]
  {
    if StartsWith(s, pat) {
      var r := Replace(s, pat, rep);
      assert r == rep + Replace(s[|pat|..], pat, rep);
      assert r[..|rep|] == rep;
    }
  }

  /** Prefixing a string free of the two-character `pat` with a `rep`
      that shares no character with `pat` forms no occurrence. */
  lemma NoPairAfterReplacement(rep: string, rt: string, pat: string)
    requires |pat| == 2 && pat[0] !in rep && pat[1] !in rep
    requires !Occurs(rt, pat)
    ensures !Occurs(rep + rt, pat)
  {
    var r := rep + rt;
    if Occurs(r, pat) {
      var k: nat :| k <= |r| && OccursAt(r, pat, k);
      if k + 1 > |rep| {
        assert rt[k - |rep|..k - |rep| + 2] == r[k..k + 2];
        assert OccursAt(rt, pat, k - |rep|);
      }
    }
  }

  /** Prefixing a string free of the two-character `pat` with one character
      forms an occurrence only at the seam. */
  lemma NoPairAfterChar(c: char, rt: string, pat: string)
    requires |pat| == 2
    requires !Occurs(rt, pat)
    requires c == pat[0] && |rt| > 0 ==> rt[0] != pat[1]
    ensures !Occurs([c] + rt, pat)
  {
    var r := [c] + rt;
    if Occurs(r, pat) {
      var k: nat :| k <= |r| && OccursAt(r, pat, k);
      if k > 0 {
        assert rt[k - 1..k + 1] == r[k..k + 2];
        assert OccursAt(rt, pat, k - 1);
      }
    }
  }

  /** A two-character pattern does not survive `Replace` when the
      replacement is non-empty and shares no character with it: no
      occurrence is left over and none is formed at a seam. */
  lemma {:induction false} ReplaceLeavesNoPair(s: string, pat: string, rep: string)
    requires |pat| == 2 && |rep| > 0
    requires pat[0] !in rep && pat[1] !in rep
    ensures !Occurs(Replace(s, pat, rep), pat)
    decreases |s|
  {
    if |s| == 0 {
    } else if StartsWith(s, pat) {
      var t := s[|pat|..];
      ReplaceLeavesNoPair(t, pat, rep);
      NoPairAfterReplacement(rep, Replace(t, pat, rep), pat);
    } else {
      var t := s[1..];
      var rt := Replace(t, pat, rep);
      ReplaceLeavesNoPair(t, pat, rep);
      if s[0] == pat[0] && |rt| > 0 {
        // what follows s[0] is the start of `rep` or s[1], and s[1] is not
        // pat[1] because s does not start with the pattern
        ReplaceHead(t, pat, rep);
        if !StartsWith(t, pat) {
          assert s[..2] == [s[0], s[1]];
        }
      }
      NoPairAfterChar(s[0], rt, pat);
    }
  }

  /** `n` copies of `c`. */
  function Repeat(c: char, n: nat): (r: string)
    ensures |r| == n
    ensures forall k :: 0 <= k < n ==> r[k] == c
    decreases n
  {
    if n == 0 then [] else Repeat(c, n - 1) + [c]
  }

  /** `n` copies of `c` hold `n` of `c` and nothing else. */
  lemma {:induction false} RepeatCount(c: char, n: nat, d: char)
    ensures multiset(Repeat(c, n))[d] == if d == c then n else 0
    decreases n
  {
    if n > 0 {
      RepeatCount(c, n - 1, d);
    }
  }

  predicate IsDigit(c: char)
  {
    '0' <= c <= '9'
  }

  /** The number a string of decimal digits denotes. */
  function DigitsValue(s: string): nat
    requires forall k :: 0 <= k < |s| ==> IsDigit(s[k])
    decreases |s|
  {
    if |s| == 0 then 0
    else
      assert IsDigit(s[|s| - 1]);
      DigitsValue(s[..|s| - 1]) * 10 + (s[|s| - 1] as int - '0' as int)
  }

  /** `n.ToString()` for a non-negative `n`: the shortest decimal numeral
      that denotes `n` (no sign, no leading zero). */
  function NatToString(n: nat): (s: string)
    ensures |s| > 0 && forall k :: 0 <= k < |s| ==> IsDigit(s[k])
    ensures |s| > 1 ==> s[0] != '0'
    ensures DigitsValue(s) == n
    decreases n
  {
    var last := ('0' as int + n % 10) as char;
    if n < 10 then [last]
    else
      var s := NatToString(n / 10) + [last];
      assert s[..|s| - 1] == NatToString(n / 10);
      s
  }

  /** A number below 1000 has at most three digits. */
  lemma NatToStringShort(n: nat)
    requires n < 1000
    ensures |NatToString(n)| <= 3
  {
    if n >= 10 {
      assert |NatToString(n / 10)| <= 2 by {
        if n / 10 >= 10 {
          assert |NatToString(n / 100)| == 1;
        }
      }
    }
  }

  /** `i.ToString()` for an `int`, with the invariant-culture minus sign. */
  function IntToString(i: int): (s: string)
    ensures |s| > 0
    ensures i >= 0 ==> s == NatToString(i)
    ensures i < 0 ==> s == "-" + NatToString(-i)
    ensures s[0] == '-' <==> i < 0
    ensures var digits := if i < 0 then s[1..] else s;
            && |digits| > 0
            && (forall k :: 0 <= k < |digits| ==> IsDigit(digits[k]))
            && DigitsValue(digits) == (if i < 0 then -i else i)
  {
    if i < 0 then "-" + NatToString(-i) else NatToString(i)
  }

  /** Right alignment `{x,width}`: spaces in front up to `width` characters. */
  function PadLeft(s: string, width: nat): (r: string)
    ensures |s| >= width ==> r == s
    ensures |s| < width ==> |r| == width && r[width - |s|..] == s
    ensures forall k :: 0 <= k < |r| - |s| ==> r[k] == ' '
  {
    if |s| >= width then s else Repeat(' ', width - |s|) + s
  }
}
