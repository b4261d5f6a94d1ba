/**
 * The string operations the handler borrows from Qt: `QStringList::join`,
 * `QString::contains`, `QFileInfo::fileName` and `QFileInfo::suffix`.
 * Each function is characterised by a lemma beside it, which callers invoke
 * where they need the property.
 */
module Strings {
  import opened Wrappers

  /** `xs` joined with `sep` between neighbours, as `QStringList::join`. */
  function Join(xs: seq<string>, sep: string): string
    decreases |xs|
  {
    if |xs| == 0 then [] else if |xs| == 1 then xs[0] else xs[0] + sep + Join(xs[1..], sep)
  }

  /** `sub` occurs in `s` starting at position `j`. */
  predicate OccursAt(s: string, sub: string, j: int) {
    0 <= j && j + |sub| <= |s| && s[j..j + |sub|] == sub
  }

  /** The first position at which `sub` occurs in `s`. */
  function IndexOf(s: string, sub: string): Option<nat>
    decreases |s|
  {
    if |s| < |sub| then None
    else if s[..|sub|] == sub then Some(0)
    else
      match IndexOf(s[1..], sub)
      case None => None
      case Some(i) => Some(i + 1)
  }

  /** `IndexOf` finds an occurrence, and no earlier one exists; `None` means there is none. */
  lemma {:induction false} IndexOfSpec(s: string, sub: string)
    ensures var r := IndexOf(s, sub);
            (r.Some? ==> OccursAt(s, sub, r.value)) &&
            (r.Some? ==> forall j :: 0 <= j < r.value ==> !OccursAt(s, sub, j)) &&
            (r.None? ==> forall j :: !OccursAt(s, sub, j))
    decreases |s|
  {
    if |s| >= |sub| && s[..|sub|] != sub {
      var t := s[1..];
      IndexOfSpec(t, sub);
      forall j | OccursAt(s, sub, j) && j > 0
        ensures OccursAt(t, sub, j - 1)
      {
        assert t[j - 1..j - 1 + |sub|] == s[j..j + |sub|];
      }
      forall j | OccursAt(t, sub, j)
        ensures OccursAt(s, sub, j + 1)
      {
        assert t[j..j + |sub|] == s[j + 1..j + 1 + |sub|];
      }
    }
  }

  /** Whether `sub` occurs in `s`, as `QString::contains`. */
  function Contains(s: string, sub: string): bool {
    IndexOf(s, sub).Some?
  }

  /** `Contains` holds exactly when `sub` occurs at some position. */
  lemma ContainsSpec(s: string, sub: string)
    ensures Contains(s, sub) <==> exists j :: OccursAt(s, sub, j)
  {
    IndexOfSpec(s, sub);
  }

  /** `s` cut at every occurrence of `sep`, scanning from the left. */
  function Split(s: string, sep: string): (r: seq<string>)
    requires |sep| > 0
    decreases |s|
  {
    match IndexOf(s, sep)
    case None => [s]
    case Some(i) =>
      IndexOfSpec(s, sep);
      [s[..i]] + Split(s[i + |sep|..], sep)
  }

  /** Everything after the last `c` in `s`, or all of `s` when there is none. */
  function AfterLast(s: string, c: char): string
    decreases |s|
  {
    if s == [] then []
    else if s[|s| - 1] == c then []
    else AfterLast(s[..|s| - 1], c) + [s[|s| - 1]]
  }

  /**
   * `AfterLast` is the longest tail of `s` without `c`: a tail, free of `c`,
   * and either all of `s` or preceded by `c`.
   */
  lemma {:induction false} AfterLastSpec(s: string, c: char)
    ensures var r := AfterLast(s, c);
            |r| <= |s| && r == s[|s| - |r|..] && c !in r &&
            (|r| < |s| ==> s[|s| - |r| - 1] == c)
    decreases |s|
  {
    if s != [] && s[|s| - 1] != c {
      var init, last := s[..|s| - 1], s[|s| - 1];
      AfterLastSpec(init, c);
      var r0 := AfterLast(init, c);
      var r := r0 + [last];
      assert AfterLast(s, c) == r;
      assert s == init + [last];
      assert s[|s| - |r|..] == init[|init| - |r0|..] + [last];
      assert c !in r;
      if |r0| < |init| {
        assert s[|s| - |r| - 1] == init[|init| - |r0| - 1];
      }
    }
  }

  /** Without `c` in `s`, everything is kept. */
  lemma AfterLastAbsent(s: string, c: char)
    requires c !in s
    ensures AfterLast(s, c) == s
  {
    AfterLastSpec(s, c);
  }

  /** What follows the last `c` is kept, when `c` does not occur in it. */
  lemma AfterLastAppend(s: string, c: char, t: string)
    requires c !in t
    ensures AfterLast(s + [c] + t, c) == t
  {
    var u := s + [c] + t;
    AfterLastSpec(u, c);
    var r := AfterLast(u, c);
    assert u[|u| - |t|..] == t;
    assert u[|s|] == c;
  }

  /** Appending text without `c` extends what follows the last `c` by that text. */
  lemma {:induction false} AfterLastConcat(s: string, t: string, c: char)
    requires c !in t
    ensures AfterLast(s + t, c) == AfterLast(s, c) + t
    decreases |t|
  {
    if t == [] {
      assert s + t == s;
    } else {
      var init := t[..|t| - 1];
      assert (s + t)[..|s + t| - 1] == s + init;
      AfterLastConcat(s, init, c);
      assert init + [t[|t| - 1]] == t;
    }
  }

  /** The last component of a path, as `QFileInfo::fileName`. */
  function FileName(path: string): string {
    AfterLast(path, '/')
  }

  /** The file name is the tail of the path after its last `/`. */
  lemma FileNameSpec(path: string)
    ensures var r := FileName(path);
            '/' !in r && |r| <= |path| && r == path[|path| - |r|..] &&
            (|r| < |path| ==> path[|path| - |r| - 1] == '/')
  {
    AfterLastSpec(path, '/');
  }

  /**
   * The extension of a path, as `QFileInfo::suffix`: what follows the last
   * `.` of its file name, or nothing if the name has no `.`.
   */
  function Suffix(path: string): string {
    var name := FileName(path);
    if '.' in name then AfterLast(name, '.') else []
  }

  /** `r` is what follows an occurrence of `c` at the end of `s`. */
  predicate TailAfter(s: string, c: char, r: string) {
    |r| < |s| && s[|s| - |r| - 1] == c && s[|s| - |r|..] == r
  }

  /** When `c` occurs in `s`, the tail after its last `c` follows a `c`. */
  lemma AfterLastFound(s: string, c: char)
    requires c in s
    ensures TailAfter(s, c, AfterLast(s, c))
  {
    AfterLastSpec(s, c);
  }

  /** A character absent from `s` is absent from the tail after its last `c`. */
  lemma AfterLastKeeps(s: string, c: char, d: char)
    requires d !in s
    ensures d !in AfterLast(s, c)
  {
    AfterLastSpec(s, c);
    var r := AfterLast(s, c);
    forall i | 0 <= i < |r| ensures r[i] != d {
      assert r[i] == s[|s| - |r| + i];
    }
  }

  /** The suffix is free of `.` and `/`, and follows a `.` of the file name. */
  lemma SuffixSpec(path: string)
    ensures '.' !in Suffix(path) && '/' !in Suffix(path)
    ensures '.' !in FileName(path) ==> Suffix(path) == []
    ensures '.' in FileName(path) ==> TailAfter(FileName(path), '.', Suffix(path))
  {
    var name := FileName(path);
    FileNameSpec(path);
    if '.' in name {
      var r := AfterLast(name, '.');
      assert Suffix(path) == r;
      AfterLastSpec(name, '.');
      AfterLastFound(name, '.');
      AfterLastKeeps(name, '.', '/');
    }
  }

  /** `sub` occurs nowhere in `s`. */
  ghost predicate Lacks(s: string, sub: string) {
    forall j :: !OccursAt(s, sub, j)
  }

  /** A piece without the separator has no cut in it. */
  lemma NoCut(s: string, sep: string)
    requires Lacks(s, sep)
    ensures IndexOf(s, sep) == None
  {
    IndexOfSpec(s, sep);
  }

  /**
   * In `x + sep + rest`, the first occurrence of `sep` is the one after `x`,
   * when `x` lacks `sep` and `sep` does not start again inside itself: an
   * occurrence straddling the end of `x` would put `sep[0]` inside `sep`.
   */
  lemma FirstCut(x: string, sep: string, rest: string)
    requires |sep| > 0 && sep[0] !in sep[1..] && Lacks(x, sep)
    ensures IndexOf(x + sep + rest, sep) == Some(|x|)
  {
    var s := x + sep + rest;
    assert s[|x|..|x| + |sep|] == sep;
    assert OccursAt(s, sep, |x|);
    IndexOfSpec(s, sep);
    var i := IndexOf(s, sep).value;
    if i + |sep| <= |x| {
      assert x[i..i + |sep|] == s[i..i + |sep|];
      assert OccursAt(x, sep, i);
    }
  }

  /**
   * Splitting a join gives back the pieces when no piece contains the
   * separator and the separator's first character does not recur in it
   * (an empty list joins to "", which splits into one empty piece, so the
   * list must be non-empty).
   */
  lemma {:induction false} SplitJoin(xs: seq<string>, sep: string)
    requires |sep| > 0 && sep[0] !in sep[1..] && |xs| > 0
    requires forall i :: 0 <= i < |xs| ==> Lacks(xs[i], sep)
    ensures Split(Join(xs, sep), sep) == xs
    decreases |xs|
  {
    if |xs| == 1 {
      NoCut(xs[0], sep);
    } else {
      var x, rest := xs[0], Join(xs[1..], sep);
      var s := x + sep + rest;
      FirstCut(x, sep, rest);
      assert s[..|x|] == x;
      assert s[|x| + |sep|..] == rest;
      SplitJoin(xs[1..], sep);
    }
  }
}
