/** The input checks of `Program.PreviewGen` and the quoting helper
    `Extensions.PathFix` (`Program.cs`). */
module Preview {
  import opened Text

  // ---------------------------------------------------------------------
  // PathFix (lines 175-180)

  const Quote: char := '"'

  /** `s` starts and ends with a double quote (a one-character `"` does
      both). */
  predicate Quoted(s: string)
  {
    |s| > 0 && s[0] == Quote && s[|s| - 1] == Quote
  }

  /** `PathFix`: a path with a space is put in double quotes for the
      command line, unless it already starts and ends with one. */
  function PathFix(a: string): (r: string)
    ensures ' ' in r <==> ' ' in a
    ensures ' ' in r ==> Quoted(r)
    ensures ' ' !in a || Quoted(a) ==> r == a
    ensures r != a ==> |r| == |a| + 2 && r[1..|r| - 1] == a && Quoted(r)
  {
    if ' ' !in a then a
    else if |a| > 0 && a[0] == Quote && a[|a| - 1] == Quote then a
    else
      var r := [Quote] + a + [Quote];
      assert r[1..|r| - 1] == a;
      assert forall c :: c in r <==> c == Quote || c in a;
      r
  }

  /** Quoting once is enough. */
  lemma PathFixIdempotent(a: string)
    ensures PathFix(PathFix(a)) == PathFix(a)
  {
  }

  // ---------------------------------------------------------------------
  // The extension check (lines 21, 100-101)

  /** Line 21. */
  const AcceptedExtensions: seq<string> := ["mkv", "mp4", "m4v"]

  /** `input.Split('.').Last()`: the last piece of the split. */
  function Extension(input: string): (e: string)
  {
    var parts := Split(input, '.');
    parts[|parts| - 1]
  }

  /** The text after the last `.`, read from the end of the string; the
      whole string when it has no `.`. */
  function AfterLastDot(s: string): (e: string)
    ensures IsLastPiece(s, '.', e)
    decreases |s|
  {
    if |s| == 0 || s[|s| - 1] == '.' then []
    else
      var e := AfterLastDot(s[..|s| - 1]) + [s[|s| - 1]];
      assert s[..|s| - 1][|s| - |e|..] + [s[|s| - 1]] == s[|s| - |e|..];
      e
  }

  /** The last piece of `Split('.')` is the text after the last dot. */
  lemma ExtensionIsAfterLastDot(input: string)
    ensures Extension(input) == AfterLastDot(input)
  {
    SplitLast(input, '.');
    LastPieceUnique(input, '.', Extension(input), AfterLastDot(input));
  }

  /** The outcome of the checks: the exit code `PreviewGen` returns, or
      going on to run the transcoder. */
  datatype Verdict = Exit(code: int) | Proceed

  /** Lines 100-101: a missing file is reported first, with exit code 2;
      then an extension outside the list, case-sensitive, with exit
      code 3. Whether the file exists is the parameter `fileExists`. */
  function CheckInput(fileExists: bool, input: string): (v: Verdict)
    ensures !fileExists ==> v == Exit(2)
    ensures fileExists ==> (v == Proceed <==> Extension(input) in AcceptedExtensions)
    ensures fileExists && Extension(input) !in AcceptedExtensions ==> v == Exit(3)
    ensures v == Proceed || v == Exit(2) || v == Exit(3)
  {
    if !fileExists then Exit(2)
    else if Extension(input) !in AcceptedExtensions then Exit(3)
    else Proceed
  }

  /** `s` ends with `tail`. */
  predicate EndsWith(s: string, tail: string)
  {
    |tail| <= |s| && s[|s| - |tail|..] == tail
  }

  /** A dot-free word is the last piece exactly when the string is that
      word or ends with a dot and that word. */
  lemma LastPieceWord(input: string, ext: string)
    requires '.' !in ext
    ensures IsLastPiece(input, '.', ext) <==> (input == ext || EndsWith(input, "." + ext))
  {
    if EndsWith(input, "." + ext) {
      assert input[|input| - |ext|..] == ("." + ext)[1..];
      assert input[|input| - |ext| - 1] == ("." + ext)[0];
    }
    if IsLastPiece(input, '.', ext) && input != ext {
      assert input[|input| - |ext| - 1..] == "." + ext;
    }
  }

  /** `input` names a file with extension `ext`: it ends with a dot and
      `ext`, or it is `ext` alone. */
  predicate HasExtension(input: string, ext: string)
  {
    input == ext || EndsWith(input, "." + ext)
  }

  /** The last piece is a given dot-free word exactly when the input has
      that extension. */
  lemma ExtensionIs(input: string, ext: string)
    requires '.' !in ext
    ensures Extension(input) == ext <==> HasExtension(input, ext)
  {
    ExtensionIsAfterLastDot(input);
    LastPieceWord(input, ext);
    if IsLastPiece(input, '.', ext) {
      LastPieceUnique(input, '.', AfterLastDot(input), ext);
    }
  }

  /** An existing file is accepted exactly when its name ends in `.mkv`,
      `.mp4` or `.m4v`, or is nothing but one of those three words (which
      has no dot, so it is its own last piece). */
  lemma AcceptedNames(input: string)
    ensures CheckInput(true, input) == Proceed <==>
              exists ext :: ext in AcceptedExtensions && HasExtension(input, ext)
  {
    var e := Extension(input);
    if e in AcceptedExtensions {
      ExtensionIs(input, e);
    }
    forall ext | ext in AcceptedExtensions && HasExtension(input, ext)
      ensures e in AcceptedExtensions
    {
      ExtensionIs(input, ext);
    }
  }
}
