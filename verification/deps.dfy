/** The dependency index of `Deps.cs`: the `key=value` lines of
    `deps/index.weeb` turned into a map from dependency names to file paths,
    and the lookup that ends the program when a name is missing.

    Reading the file and probing for it are left to the caller: the lines
    and whether the file exists are parameters. `Path.Combine` is the
    parameter `combine`. */
module Deps {
  import opened Common
  import opened Text

  /** The value that stands for "the key itself". */
  const Local: string := "[LOCAL]"

  /** A retained line of the index: the two tokens around its `=`. */
  datatype Entry = Entry(key: string, value: string)

  /** Line 24, up to `select tokens`: trim the line; drop it when empty,
      when it starts with `#`, when it has no `=` or splits into other than
      two tokens, or when either token is blank. The tokens themselves are
      kept as they stand in the trimmed line, untrimmed. */
  function ParseLine(l: string): Option<Entry>
  {
    ParseTrimmed(Trim(l))
  }

  /** `ParseLine` after the trim. */
  function ParseTrimmed(line: string): Option<Entry>
  {
    if |line| == 0 then None
    else if line[0] == '#' || '=' !in line then None
    else
      var tokens := Split(line, '=');
      if |tokens| != 2 then None
      else if |Trim(tokens[0])| == 0 || |Trim(tokens[1])| == 0 then None
      else Some(Entry(tokens[0], tokens[1]))
  }

  /** The lines the index retains, described without `Split`: the trimmed
      line is `key=value` with exactly that one `=`, the key does not start
      with `#`, and neither side is blank. */
  predicate WellFormed(l: string, key: string, value: string)
  {
    && Trim(l) == key + "=" + value
    && '=' !in key && '=' !in value
    && |Trim(key)| > 0 && |Trim(value)| > 0
    && key[0] != '#'
  }

  /** What a parsed line is made of. */
  lemma ParseLineSound(l: string, key: string, value: string)
    requires ParseLine(l) == Some(Entry(key, value))
    ensures WellFormed(l, key, value)
  {
    TrimmedSound(Trim(l), key, value);
  }

  /** A trimmed line that parses is `key=value` with a single `=`, neither
      side blank, and no `#` in front. */
  lemma TrimmedSound(line: string, key: string, value: string)
    requires ParseTrimmed(line) == Some(Entry(key, value))
    ensures line == key + "=" + value
    ensures '=' !in key && '=' !in value && key[0] != '#'
    ensures |Trim(key)| > 0 && |Trim(value)| > 0
  {
    TrimmedParts(line, key, value);
    SplitPair(line, '=', key, value);
    assert line[0] == key[0];
  }

  /** The checks a parsed line has passed. */
  lemma TrimmedParts(line: string, key: string, value: string)
    requires ParseTrimmed(line) == Some(Entry(key, value))
    ensures var tokens := Split(line, '='); |tokens| == 2 && tokens[0] == key && tokens[1] == value
    ensures |Trim(key)| > 0 && |Trim(value)| > 0 && line[0] != '#'
  {
  }

  /** Every well-formed line parses. */
  lemma ParseLineComplete(l: string, key: string, value: string)
    requires WellFormed(l, key, value)
    ensures ParseLine(l) == Some(Entry(key, value))
  {
    var line := Trim(l);
    SplitTwo(key, value, '=');
    assert line == key + ['='] + value;
    assert line[|key|] == '=';
    assert line[0] == key[0];
  }

  /** A line parses to `Entry(key, value)` exactly when it is well formed
      with that key and value. */
  lemma ParseLineMeaning(l: string, key: string, value: string)
    ensures ParseLine(l) == Some(Entry(key, value)) <==> WellFormed(l, key, value)
  {
    if ParseLine(l) == Some(Entry(key, value)) {
      ParseLineSound(l, key, value);
    }
    if WellFormed(l, key, value) {
      ParseLineComplete(l, key, value);
    }
  }

  /** Blank lines and comment lines produce no entry. */
  lemma BlankAndCommentDropped(l: string)
    requires (forall k :: 0 <= k < |l| ==> IsWhiteSpace(l[k])) || (|Trim(l)| > 0 && Trim(l)[0] == '#')
    ensures ParseLine(l) == None
  {
  }

  /** A line with two `=` or more produces no entry. */
  lemma ManyEqualsDropped(l: string)
    requires multiset(Trim(l))['='] >= 2
    ensures ParseLine(l) == None
  {
  }

  /** The values `f` keeps, in order: LINQ's `where` and `select` over a
      sequence. */
  function FilterMap<A, B>(xs: seq<A>, f: A -> Option<B>): (ys: seq<B>)
    ensures forall i :: 0 <= i < |xs| && f(xs[i]).Some? ==> f(xs[i]).value in ys
    ensures forall k :: 0 <= k < |ys| ==> exists i :: 0 <= i < |xs| && f(xs[i]) == Some(ys[k])
    ensures |ys| <= |xs|
    decreases |xs|
  {
    if |xs| == 0 then []
    else
      var rest := FilterMap(xs[1..], f);
      assert forall i :: 1 <= i < |xs| ==> xs[i] == xs[1..][i - 1];
      match f(xs[0])
      case Some(y) =>
        assert forall k :: 1 <= k < |rest| + 1 ==> ([y] + rest)[k] == rest[k - 1];
        [y] + rest
      case None => rest
  }

  /** `FilterMap` distributes over concatenation: what a line yields does
      not depend on the lines around it. */
  lemma {:induction false} FilterMapSplit<A, B>(xs: seq<A>, zs: seq<A>, f: A -> Option<B>)
    ensures FilterMap(xs + zs, f) == FilterMap(xs, f) + FilterMap(zs, f)
    decreases |xs|
  {
    if |xs| == 0 {
      assert xs + zs == zs;
    } else {
      assert (xs + zs)[0] == xs[0];
      assert (xs + zs)[1..] == xs[1..] + zs;
      FilterMapSplit(xs[1..], zs, f);
      var rest := FilterMap(xs[1..], f);
      if f(xs[0]).Some? {
        assert [f(xs[0]).value] + (rest + FilterMap(zs, f)) == ([f(xs[0]).value] + rest) + FilterMap(zs, f);
      }
    }
  }

  /** Order and multiplicity: a retained element `i` has its value at
      position `|FilterMap(xs[..i], f)|` of the result, and of two retained
      elements the earlier one comes first, at a different position. */
  lemma FilterMapOrder<A, B>(xs: seq<A>, f: A -> Option<B>, i: nat, j: nat)
    requires i < j < |xs| && f(xs[i]).Some? && f(xs[j]).Some?
    ensures var ys := FilterMap(xs, f);
            var k1 := |FilterMap(xs[..i], f)|;
            var k2 := |FilterMap(xs[..j], f)|;
            && k1 < k2 < |ys|
            && ys[k1] == f(xs[i]).value
            && ys[k2] == f(xs[j]).value
  {
    RetainedAt(xs, f, i);
    RetainedAt(xs, f, j);
    var prefix := xs[..j];
    RetainedAt(prefix, f, i);
    assert prefix[..i] == xs[..i];
  }

  /** A retained element's value sits right after what the elements before
      it yield. */
  lemma RetainedAt<A, B>(xs: seq<A>, f: A -> Option<B>, i: nat)
    requires i < |xs| && f(xs[i]).Some?
    ensures |FilterMap(xs[..i], f)| < |FilterMap(xs, f)|
    ensures FilterMap(xs, f)[|FilterMap(xs[..i], f)|] == f(xs[i]).value
  {
    assert xs == xs[..i] + ([xs[i]] + xs[i + 1..]);
    FilterMapSplit(xs[..i], [xs[i]] + xs[i + 1..], f);
    assert ([xs[i]] + xs[i + 1..])[0] == xs[i];
    assert ([xs[i]] + xs[i + 1..])[1..] == xs[i + 1..];
  }

  /** The entries of the retained lines, in file order. */
  function Entries(lines: seq<string>): (es: seq<Entry>)
    ensures forall i :: 0 <= i < |lines| && ParseLine(lines[i]).Some? ==> ParseLine(lines[i]).value in es
    ensures forall k :: 0 <= k < |es| ==> exists i :: 0 <= i < |lines| && ParseLine(lines[i]) == Some(es[k])
  {
    FilterMap(lines, ParseLine)
  }

  /** The `ToDictionary` value selector of line 24: `[LOCAL]` stands for
      the key itself; anything else is a path inside the dependency folder. */
  function Resolve(folder: string, combine: (string, string) -> string, e: Entry): (path: string)
    ensures e.value == Local ==> path == e.key
    ensures e.value != Local ==> path == combine(folder, e.value)
  {
    if e.value != Local then combine(folder, e.value) else e.key
  }

  /** No two entries share a key. */
  predicate DistinctKeys(es: seq<Entry>)
  {
    forall i, j :: 0 <= i < j < |es| ==> es[i].key != es[j].key
  }

  /** The keys of the entries. */
  function Keys(es: seq<Entry>): (ks: set<string>)
    ensures forall k :: k in ks <==> exists i :: 0 <= i < |es| && es[i].key == k
  {
    set i | 0 <= i < |es| :: es[i].key
  }

  /** Adding one entry at the end keeps the keys distinct exactly when its
      key is new, and adds that key. */
  lemma Snoc(init: seq<Entry>, last: Entry)
    ensures DistinctKeys(init + [last]) <==> DistinctKeys(init) && last.key !in Keys(init)
    ensures Keys(init + [last]) == Keys(init) + {last.key}
  {
    var es := init + [last];
    assert forall i :: 0 <= i < |init| ==> es[i] == init[i];
    assert es[|init|] == last;
    assert Keys(es) == Keys(init) + {last.key} by {
      forall k | k in Keys(es) ensures k in Keys(init) + {last.key} {
        var i :| 0 <= i < |es| && es[i].key == k;
        if i < |init| {
          assert init[i].key == k;
        }
      }
      forall k | k in Keys(init) ensures k in Keys(es) {
        var i :| 0 <= i < |init| && init[i].key == k;
        assert es[i].key == k;
      }
      assert es[|init|].key == last.key;
    }
    if DistinctKeys(init) && last.key !in Keys(init) {
      forall i, j | 0 <= i < j < |es| ensures es[i].key != es[j].key {
        if j == |init| {
          assert es[i].key in Keys(init);
        }
      }
    }
    if DistinctKeys(es) {
      forall i, j | 0 <= i < j < |init| ensures init[i].key != init[j].key {
        assert es[i] == init[i] && es[j] == init[j];
      }
    }
  }

  /** Entry `j` repeats a key of the entries before it, which are
      themselves distinct: the key `ToDictionary` fails on. */
  predicate FirstRepeat(es: seq<Entry>, j: int)
  {
    0 < j < |es| && DistinctKeys(es[..j]) && es[j].key in Keys(es[..j])
  }

  /** `ToDictionary`: the entries added one at a time in order; adding a
      key already present throws, so the first repeated key is the one
      reported. */
  function ToDictionary(es: seq<Entry>, folder: string, combine: (string, string) -> string): (r: Result<map<string, string>>)
    ensures r.Success? <==> DistinctKeys(es)
    ensures r.Success? ==> r.value.Keys == Keys(es)
    ensures r.Success? ==> forall i :: 0 <= i < |es| ==> r.value[es[i].key] == Resolve(folder, combine, es[i])
    ensures r.Failure? ==> exists j :: FirstRepeat(es, j) && r.error == DuplicateKey(es[j].key)
    decreases |es|
  {
    if |es| == 0 then Success(map[])
    else
      var init := es[..|es| - 1];
      var last := es[|es| - 1];
      match ToDictionary(init, folder, combine)
      case Failure(e) =>
        RepeatCarries(es, init, e);
        Failure(e)
      case Success(m) =>
        if last.key in m then
          RepeatAtEnd(es);
          Failure(DuplicateKey(last.key))
        else
          var m' := m[last.key := Resolve(folder, combine, last)];
          AddNew(es, init, last, m, m', folder, combine);
          Success(m')
  }

  /** A repeat among all entries but the last is one among them all. */
  lemma RepeatCarries(es: seq<Entry>, init: seq<Entry>, e: Fault)
    requires |es| > 0 && init == es[..|es| - 1]
    requires exists j :: FirstRepeat(init, j) && e == DuplicateKey(init[j].key)
    ensures exists j :: FirstRepeat(es, j) && e == DuplicateKey(es[j].key)
    ensures !DistinctKeys(es)
  {
    var j :| FirstRepeat(init, j) && e == DuplicateKey(init[j].key);
    assert init[..j] == es[..j];
    assert init[j] == es[j];
    RepeatNotDistinct(es, j);
  }

  /** The last entry repeating a key of the distinct entries before it is
      the first repeat. */
  lemma RepeatAtEnd(es: seq<Entry>)
    requires |es| > 0 && DistinctKeys(es[..|es| - 1]) && es[|es| - 1].key in Keys(es[..|es| - 1])
    ensures FirstRepeat(es, |es| - 1)
    ensures !DistinctKeys(es)
  {
    RepeatNotDistinct(es, |es| - 1);
  }

  lemma RepeatNotDistinct(es: seq<Entry>, j: int)
    requires FirstRepeat(es, j)
    ensures !DistinctKeys(es)
  {
    var i :| 0 <= i < j && es[..j][i].key == es[j].key;
    assert es[i].key == es[j].key;
  }

  /** Adding an entry with a new key to the map of the entries before it
      gives the map of them all. */
  lemma AddNew(es: seq<Entry>, init: seq<Entry>, last: Entry, m: map<string, string>, m': map<string, string>, folder: string, combine: (string, string) -> string)
    requires |es| > 0 && init == es[..|es| - 1] && last == es[|es| - 1]
    requires DistinctKeys(init) && m.Keys == Keys(init) && last.key !in m
    requires forall i :: 0 <= i < |init| ==> m[init[i].key] == Resolve(folder, combine, init[i])
    requires m' == m[last.key := Resolve(folder, combine, last)]
    ensures DistinctKeys(es) && m'.Keys == Keys(es)
    ensures forall i :: 0 <= i < |es| ==> m'[es[i].key] == Resolve(folder, combine, es[i])
  {
    assert es == init + [last];
    Snoc(init, last);
    forall i | 0 <= i < |es| ensures m'[es[i].key] == Resolve(folder, combine, es[i]) {
      if i < |init| {
        assert es[i] == init[i];
      }
    }
  }

  /** `GetPaths` (lines 13-26): no map (C#'s `null`) when the index file
      does not exist; otherwise the map built from its lines, or the
      failure of a repeated key. */
  function GetPaths(indexExists: bool, lines: seq<string>, folder: string, combine: (string, string) -> string): (r: Result<Option<map<string, string>>>)
    ensures !indexExists ==> r == Success(None)
    ensures indexExists && r.Success? ==> r.value.Some? && r.value.value.Keys == Keys(Entries(lines))
    ensures indexExists ==> (r.Success? <==> DistinctKeys(Entries(lines)))
  {
    if !indexExists then Success(None)
    else
      match ToDictionary(Entries(lines), folder, combine)
      case Success(m) => Success(Some(m))
      case Failure(e) => Failure(e)
  }

  /** Two well-formed lines that declare the same name give two entries
      with that key. */
  lemma NotDistinct(lines: seq<string>, i: nat, j: nat, key: string, v1: string, v2: string)
    requires i < j < |lines|
    requires WellFormed(lines[i], key, v1) && WellFormed(lines[j], key, v2)
    ensures !DistinctKeys(Entries(lines))
  {
    ParseLineMeaning(lines[i], key, v1);
    ParseLineMeaning(lines[j], key, v2);
    FilterMapOrder(lines, ParseLine, i, j);
    var es := Entries(lines);
    var k1, k2 := |FilterMap(lines[..i], ParseLine)|, |FilterMap(lines[..j], ParseLine)|;
    assert k1 < k2 < |es| && es[k1].key == es[k2].key;
  }

  /** Two well-formed lines that declare the same name make `GetPaths`
      fail, whatever lies between them: `ToDictionary` throws on a repeated
      key. */
  lemma DuplicateLinesFail(lines: seq<string>, folder: string, combine: (string, string) -> string, i: nat, j: nat, key: string, v1: string, v2: string)
    requires i < j < |lines|
    requires WellFormed(lines[i], key, v1) && WellFormed(lines[j], key, v2)
    ensures GetPaths(true, lines, folder, combine).Failure?
    ensures exists k :: 0 <= k < |Entries(lines)| && GetPaths(true, lines, folder, combine).error == DuplicateKey(Entries(lines)[k].key)
  {
    NotDistinct(lines, i, j, key, v1, v2);
    var es := Entries(lines);
    var r := ToDictionary(es, folder, combine);
    assert r.Failure?;
    var k :| FirstRepeat(es, k) && r.error == DuplicateKey(es[k].key);
  }

  /** `GetFilename` (lines 27-37), an extension method applied to what
      `GetPaths` returned: on the null of a missing index, `dict.Keys`
      (line 29) throws; otherwise the path stored under `key`, or the
      program exits with code -1. */
  function GetFilename(dict: Option<map<string, string>>, key: string): (r: Result<string>)
    ensures dict.None? ==> r == Failure(NullReference)
    ensures dict.Some? && key in dict.value ==> r == Success(dict.value[key])
    ensures dict.Some? && key !in dict.value ==> r == Failure(ProcessExit(-1))
  {
    match dict
    case None => Failure(NullReference)
    case Some(m) => if key in m then Success(m[key]) else Failure(ProcessExit(-1))
  }

  /** Without an index file every lookup throws, whatever the name. */
  lemma MissingIndexThrows(lines: seq<string>, folder: string, combine: (string, string) -> string, key: string)
    ensures GetPaths(false, lines, folder, combine).Success?
    ensures GetFilename(GetPaths(false, lines, folder, combine).value, key) == Failure(NullReference)
  {
  }

  /** Looking up a name after reading the index: a well-formed line for it
      gives its resolved path, and a name no retained line declares ends
      the program. */
  lemma LookupAfterParse(lines: seq<string>, folder: string, combine: (string, string) -> string, i: nat, key: string, value: string)
    requires GetPaths(true, lines, folder, combine).Success?
    requires i < |lines| && WellFormed(lines[i], key, value)
    ensures var m := GetPaths(true, lines, folder, combine).value;
            GetFilename(m, key) == Success(if value == Local then key else combine(folder, value))
  {
    var es := Entries(lines);
    ParseLineMeaning(lines[i], key, value);
    var e := Entry(key, value);
    assert e in es;
    var k :| 0 <= k < |es| && es[k] == e;
  }

  /** A name that no line declares is missing from the map. */
  lemma MissingName(lines: seq<string>, folder: string, combine: (string, string) -> string, key: string)
    requires GetPaths(true, lines, folder, combine).Success?
    requires forall i, v :: 0 <= i < |lines| ==> !WellFormed(lines[i], key, v)
    ensures GetFilename(GetPaths(true, lines, folder, combine).value, key) == Failure(ProcessExit(-1))
  {
    var es := Entries(lines);
    if key in Keys(es) {
      var k :| 0 <= k < |es| && es[k].key == key;
      assert es[k] in es;
      var i :| 0 <= i < |lines| && ParseLine(lines[i]) == Some(es[k]);
      ParseLineMeaning(lines[i], key, es[k].value);
    }
  }
}
