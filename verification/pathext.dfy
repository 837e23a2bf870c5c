/** The file-name filter of the scanner: an entry is inspected when the
    extension of its name (`filepath.Ext`, with `/` as the path separator)
    equals ".md" ignoring case (`strings.EqualFold`). */
module PathExt {

  /** The position of the last '.' before position `i` of `path` that is not
      followed by a separator before `i`, or -1 when there is none. */
  function LastDot(path: string, i: nat): (k: int)
    requires i <= |path|
    ensures -1 <= k < i
    ensures k >= 0 ==> path[k] == '.'
    decreases i
  {
    if i == 0 || path[i - 1] == '/' then -1
    else if path[i - 1] == '.' then i - 1
    else LastDot(path, i - 1)
  }

  /** The extension of `path`: the suffix starting at the last '.' of the
      final path segment, or empty when that segment has no '.'. */
  function Ext(path: string): (e: string)
    ensures |e| <= |path| && e == path[|path| - |e|..]
    ensures e != [] ==> e[0] == '.'
  {
    var k := LastDot(path, |path|);
    if k < 0 then "" else path[k..]
  }

  /** `LastDot` finds the right '.': nothing between it and `i` is a '.' or a
      separator, and when it finds none, every '.' before `i` has a separator
      after it, still before `i`. */
  lemma {:induction false} LastDotIsLast(path: string, i: nat)
    requires i <= |path|
    ensures LastDot(path, i) >= 0 ==>
      forall j :: LastDot(path, i) < j < i ==> path[j] != '.' && path[j] != '/'
    ensures LastDot(path, i) < 0 ==>
      forall j :: 0 <= j < i && path[j] == '.' ==> '/' in path[j + 1..i]
    decreases i
  {
    if i > 0 && path[i - 1] != '/' && path[i - 1] != '.' {
      LastDotIsLast(path, i - 1);
      if LastDot(path, i) < 0 {
        forall j | 0 <= j < i && path[j] == '.' ensures '/' in path[j + 1..i] {
          assert j < i - 1;
          assert '/' in path[j + 1..i - 1];
          assert path[j + 1..i - 1] <= path[j + 1..i];
        }
      }
    } else if i > 0 && path[i - 1] == '/' {
      forall j | 0 <= j < i && path[j] == '.' ensures '/' in path[j + 1..i] {
        assert path[j + 1..i][i - 1 - (j + 1)] == '/';
      }
    }
  }

  /** What `filepath.Ext` returns: a suffix of the name, empty or starting
      with '.', with no other '.' and no separator in it; and empty only when
      every '.' in the name has a separator after it. */
  lemma ExtIsFinalSegmentSuffix(path: string)
    ensures var e := Ext(path);
      && |e| <= |path| && e == path[|path| - |e|..]
      && (e != [] ==> e[0] == '.')
      && (forall i :: 0 < i < |e| ==> e[i] != '.' && e[i] != '/')
      && (e == [] ==> forall k :: 0 <= k < |path| && path[k] == '.' ==> '/' in path[k + 1..])
  {
    LastDotIsLast(path, |path|);
    var k := LastDot(path, |path|);
    if k >= 0 {
      var e := path[k..];
      forall i | 0 < i < |e| ensures e[i] != '.' && e[i] != '/' {
        assert e[i] == path[k + i];
      }
    } else {
      forall j | 0 <= j < |path| && path[j] == '.' ensures '/' in path[j + 1..] {
        assert path[j + 1..|path|] == path[j + 1..];
      }
    }
  }

  /** `filepath.Ext` as the Go library computes it: a backward scan that stops
      at the first separator and returns the suffix at the first '.'. */
  method ExtScan(path: string) returns (e: string)
    ensures e == Ext(path)
  {
    var i := |path|;
    while i > 0 && path[i - 1] != '/'
      invariant 0 <= i <= |path|
      invariant LastDot(path, i) == LastDot(path, |path|)
      decreases i
    {
      if path[i - 1] == '.' {
        return path[i - 1..];
      }
      i := i - 1;
    }
    return "";
  }

  /** ASCII case folding. */
  function Fold(c: char): char {
    if 'A' <= c <= 'Z' then (c as int + 32) as char else c
  }

  /** Two characters fold to the same one exactly when they are equal or are
      the upper- and lower-case forms of one ASCII letter. */
  lemma FoldEqIff(x: char, y: char)
    ensures Fold(x) == Fold(y) <==>
      || x == y
      || ('A' <= x <= 'Z' && y as int == x as int + 32)
      || ('a' <= x <= 'z' && x as int == y as int + 32)
  {
  }

  /** `strings.EqualFold` restricted to ASCII case: equal length, and equal
      letter by letter once both are folded. */
  function EqualFold(a: string, b: string): (r: bool)
    ensures a == b ==> r
    ensures r ==> |a| == |b|
    ensures r ==> forall i :: 0 <= i < |a| && !('A' <= a[i] <= 'Z') && !('a' <= a[i] <= 'z') ==> b[i] == a[i]
    ensures r <==> |a| == |b| && forall i :: 0 <= i < |a| ==>
      || a[i] == b[i]
      || ('A' <= a[i] <= 'Z' && b[i] as int == a[i] as int + 32)
      || ('a' <= a[i] <= 'z' && a[i] as int == b[i] as int + 32)
  {
    |a| == |b| && forall i :: 0 <= i < |a| ==> Fold(a[i]) == Fold(b[i])
  }

  /** The filter exactly as the scanner writes it:
      `strings.EqualFold(filepath.Ext(name), ".md")`. */
  function ExtEqualsMd(name: string): (r: bool)
    ensures r <==> IsMarkdown(name)
  {
    IsMarkdownIff(name);
    EqualFold(Ext(name), ".md")
  }

  /** The filter applied to every tar entry name, in the form the rest of the
      model uses: the name ends in '.', then 'm' or 'M', then 'd' or 'D'.
      `IsMarkdownIff` proves it equal to `ExtEqualsMd`. */
  predicate IsMarkdown(name: string) {
    && |name| >= 3
    && name[|name| - 3] == '.'
    && name[|name| - 2] in "mM"
    && name[|name| - 1] in "dD"
  }

  /** The extension of a name equals ".md" ignoring case exactly when the
      name ends in '.', then 'm' or 'M', then 'd' or 'D': the extension is
      then those three characters, and any other extension either has
      another length or another letter. */
  lemma IsMarkdownIff(name: string)
    ensures EqualFold(Ext(name), ".md") <==> IsMarkdown(name)
  {
    var n := |name|;
    LastDotIsLast(name, n);
    var k := LastDot(name, n);
    if EqualFold(Ext(name), ".md") {
      var e := Ext(name);
      assert k == n - 3 && e == name[n - 3..];
      assert Fold(e[1]) == 'm' && Fold(e[2]) == 'd';
    }
    if IsMarkdown(name) {
      assert k == n - 3;
      var e := Ext(name);
      assert e == [name[n - 3], name[n - 2], name[n - 1]];
      assert Fold(e[0]) == '.' && Fold(e[1]) == 'm' && Fold(e[2]) == 'd';
    }
  }

  /** The cases the filter is meant to get right: upper-case extensions and
      dotted directories count, longer extensions and bare names do not.
      They follow from the contract of `ExtEqualsMd`. */
  lemma FilterExamples()
    ensures ExtEqualsMd("README.MD")
    ensures ExtEqualsMd("a/b.x.md")
    ensures ExtEqualsMd("docs/.md")
    ensures !ExtEqualsMd("notes.mdx")
    ensures !ExtEqualsMd("md")
    ensures !ExtEqualsMd("a.md/README")
  {
  }
}
