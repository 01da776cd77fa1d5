/**
 * The three `System.IO.Path` operations the rewrite passes use, with their
 * Windows meaning for plain drive-letter and separator-rooted paths.
 */
module WinPath {
  import opened Text

  predicate IsSeparator(c: char)
  {
    c == '\\' || c == '/'
  }

  predicate IsDriveLetter(c: char)
  {
    ('a' <= c <= 'z') || ('A' <= c <= 'Z')
  }

  /** Path.IsPathRooted: starts with a separator, or with a drive letter and a colon. */
  predicate IsPathRooted(p: string)
  {
    (|p| >= 1 && IsSeparator(p[0])) || (|p| >= 2 && IsDriveLetter(p[0]) && p[1] == ':')
  }

  /**
   * Path.Combine(dir, name): `name` itself when it is rooted or `dir` is empty,
   * `dir` when `name` is empty, otherwise the two joined by one backslash
   * unless a separator already stands between them.
   */
  function Combine(dir: string, name: string): (r: string)
    ensures IsPathRooted(name) || dir == [] ==> r == name
    ensures name == [] ==> r == dir
    ensures dir != [] && !IsPathRooted(name) ==> dir <= r
    ensures |name| <= |r| && r[|r| - |name|..] == name
  {
    if name == [] then dir
    else if dir == [] || IsPathRooted(name) then name
    else if IsSeparator(dir[|dir| - 1]) || IsSeparator(name[0]) then dir + name
    else dir + "\\" + name
  }

  /** Length of the drive prefix `X:` that Path.GetFileName never cuts into. */
  function DriveRootLength(p: string): nat
  {
    if |p| >= 2 && IsDriveLetter(p[0]) && p[1] == ':' then 2 else 0
  }

  /** Index just after the last separator of `p[..n]`, or 0 when there is none. */
  function AfterLastSeparator(p: string, n: nat): (r: nat)
    requires n <= |p|
    ensures r <= n
    ensures forall i :: r <= i < n ==> !IsSeparator(p[i])
    ensures r > 0 ==> IsSeparator(p[r - 1])
  {
    if n == 0 then 0
    else if IsSeparator(p[n - 1]) then n
    else AfterLastSeparator(p, n - 1)
  }

  /** Path.GetFileName: what follows the last separator (and the drive prefix). */
  function GetFileName(p: string): (r: string)
    ensures |r| <= |p| && r == p[|p| - |r|..]
    ensures forall i :: 0 <= i < |r| ==> !IsSeparator(r[i])
  {
    var cut := AfterLastSeparator(p, |p|);
    var start := if cut < DriveRootLength(p) then DriveRootLength(p) else cut;
    p[start..]
  }

  /** A file name that is a plain name is kept by GetFileName after any directory. */
  lemma {:induction false} FileNameOfCombine(dir: string, name: string)
    requires dir != [] && name != []
    requires forall i :: 0 <= i < |name| ==> !IsSeparator(name[i]) && name[i] != ':'
    ensures GetFileName(Combine(dir, name)) == name
  {
    var r := Combine(dir, name);
    assert !IsPathRooted(name);
    var k := |r| - |name|;
    assert r[k..] == name;
    assert k > 0 ==> IsSeparator(r[k - 1]) by {
      if !IsSeparator(dir[|dir| - 1]) {
        assert r == dir + "\\" + name;
        assert r[k - 1] == '\\';
      } else {
        assert r == dir + name;
        assert r[k - 1] == dir[|dir| - 1];
      }
    }
    assert k > 0;
    SeparatorFreeSuffix(r, k);
    assert AfterLastSeparator(r, |r|) == k;
    assert DriveRootLength(r) <= k;
  }

  lemma {:induction false} SeparatorFreeSuffix(p: string, k: nat)
    requires 0 < k <= |p| && IsSeparator(p[k - 1])
    requires forall i :: k <= i < |p| ==> !IsSeparator(p[i])
    ensures AfterLastSeparator(p, |p|) == k
  {
    var n := |p|;
    while n > k
      invariant k <= n <= |p|
      invariant AfterLastSeparator(p, n) == AfterLastSeparator(p, |p|)
    {
      n := n - 1;
    }
  }

  /** Combining onto a rooted directory gives a rooted path. */
  lemma CombineRooted(dir: string, name: string)
    requires IsPathRooted(dir)
    ensures IsPathRooted(Combine(dir, name))
  {
  }

  /** Stripping quotes from a rooted path keeps it rooted. */
  lemma RootedTrimQuotes(p: string)
    requires IsPathRooted(p)
    ensures IsPathRooted(TrimOf(p, {'"'}))
  {
    var cs: set<char> := {'"'};
    TrimStartKeeps(p, cs);
    assert TrimOf(p, cs) == TrimEndOf(p, cs);
    var k := if IsSeparator(p[0]) then 0 else 1;
    TrimEndKeeps(p, cs, k);
    var r := TrimEndOf(p, cs);
    assert r[0] == p[0];
    assert k == 1 ==> r[1] == p[1];
  }

  /** A string whose first character is not trimmed is its own TrimStart. */
  lemma TrimStartKeeps(s: string, cs: set<char>)
    requires s != [] && s[0] !in cs
    ensures TrimStartOf(s, cs) == s
  {
  }

  /** TrimEnd keeps every character up to one that is not trimmed. */
  lemma {:induction false} TrimEndKeeps(s: string, cs: set<char>, k: nat)
    requires k < |s| && s[k] !in cs
    ensures |TrimEndOf(s, cs)| > k && TrimEndOf(s, cs) == s[..|TrimEndOf(s, cs)|]
    decreases |s|
  {
    if s[|s| - 1] in cs {
      var init := s[..|s| - 1];
      assert init[k] == s[k];
      TrimEndKeeps(init, cs, k);
      assert TrimEndOf(s, cs) == TrimEndOf(init, cs);
      var m := |TrimEndOf(init, cs)|;
      assert init[..m] == s[..m];
    }
  }
}
