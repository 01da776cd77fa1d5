/**
 * String helpers with the meaning the .NET string API gives them on ASCII
 * text: trimming, ordinal and case-insensitive matching, search, replacement,
 * splitting and joining. Case-insensitive comparison is ASCII lower-casing, and
 * white space is the ASCII white space (space, tab, line feed, vertical tab,
 * form feed, carriage return).
 */
module Text {

  datatype Option<T> = None | Some(value: T)

  const WhiteSpace: set<char> := {' ', '\t', '\n', '\r', '\U{000B}', '\U{000C}'}

  // ---------------------------------------------------------------------
  // Trimming
  // ---------------------------------------------------------------------

  /** Drops every leading character that belongs to `cs` (String.TrimStart). */
  function TrimStartOf(s: string, cs: set<char>): (r: string)
    ensures |r| <= |s| && r == s[|s| - |r|..]
    ensures r == [] || r[0] !in cs
    ensures forall i :: 0 <= i < |s| - |r| ==> s[i] in cs
    decreases |s|
  {
    if s != [] && s[0] in cs then TrimStartOf(s[1..], cs) else s
  }

  /** Drops every trailing character that belongs to `cs` (String.TrimEnd). */
  function TrimEndOf(s: string, cs: set<char>): (r: string)
    ensures |r| <= |s| && r == s[..|r|]
    ensures r == [] || r[|r| - 1] !in cs
    ensures forall i :: |r| <= i < |s| ==> s[i] in cs
    decreases |s|
  {
    if s != [] && s[|s| - 1] in cs then TrimEndOf(s[..|s| - 1], cs) else s
  }

  /** Drops the leading and trailing characters that belong to `cs` (String.Trim(chars)). */
  function TrimOf(s: string, cs: set<char>): (r: string)
    ensures IsInfix(r, s)
    ensures r == [] || (r[0] !in cs && r[|r| - 1] !in cs)
  {
    var t := TrimStartOf(s, cs);
    var r := TrimEndOf(t, cs);
    InfixOfSuffix(s, |s| - |t|, |r|);
    r
  }

  /** A prefix of a suffix of `s` occurs in `s`. */
  lemma InfixOfSuffix(s: string, i: nat, n: nat)
    requires i + n <= |s|
    ensures InfixAt(s[i..][..n], s, i)
  {
    assert s[i..][..n] == s[i..i + n];
  }

  /** String.Trim(): strips white space at both ends. */
  function Trim(s: string): (r: string)
    ensures IsInfix(r, s)
    ensures r == [] || (r[0] !in WhiteSpace && r[|r| - 1] !in WhiteSpace)
  {
    TrimOf(s, WhiteSpace)
  }

  /** String.TrimEnd(): strips trailing white space. */
  function TrimEnd(s: string): (r: string)
    ensures |r| <= |s| && r == s[..|r|]
    ensures r == [] || r[|r| - 1] !in WhiteSpace
  {
    TrimEndOf(s, WhiteSpace)
  }

  /** Trimming a string that neither starts nor ends with white space keeps it. */
  lemma TrimUnchanged(s: string)
    requires s != [] && s[0] !in WhiteSpace && s[|s| - 1] !in WhiteSpace
    ensures Trim(s) == s
  {
    assert TrimStartOf(s, WhiteSpace) == s;
    assert TrimEndOf(s, WhiteSpace) == s;
  }

  /** TrimEnd drops a final line feed and stops at the character before it. */
  lemma TrimEndLineFeed(s: string)
    requires s != [] && s[|s| - 1] !in WhiteSpace
    ensures TrimEnd(s + "\n") == s
  {
    assert (s + "\n")[..|s + "\n"| - 1] == s;
    assert TrimEndOf(s, WhiteSpace) == s;
  }

  /** `a` occurs contiguously in `s`. */
  ghost predicate IsInfix(a: string, s: string)
  {
    exists i :: 0 <= i && InfixAt(a, s, i)
  }

  /** `a` occurs in `s` starting at index `i`. */
  predicate InfixAt(a: string, s: string, i: nat)
  {
    i + |a| <= |s| && s[i..i + |a|] == a
  }

  // ---------------------------------------------------------------------
  // Case and matching
  // ---------------------------------------------------------------------

  function Lower(c: char): char
  {
    if 'A' <= c <= 'Z' then (c as int + 32) as char else c
  }

  function LowerAll(s: string): (r: string)
    ensures |r| == |s|
  {
    seq(|s|, i requires 0 <= i < |s| => Lower(s[i]))
  }

  /** StringComparison.OrdinalIgnoreCase equality (ASCII case folding). */
  predicate EqualsIgnoreCase(a: string, b: string)
  {
    LowerAll(a) == LowerAll(b)
  }

  /** Ordinal or case-insensitive comparison of two equally long strings. */
  predicate Same(a: string, b: string, ignoreCase: bool)
  {
    if ignoreCase then EqualsIgnoreCase(a, b) else a == b
  }

  /** `p` occurs in `s` at index `i`. */
  predicate MatchAt(s: string, i: nat, p: string, ignoreCase: bool)
  {
    i + |p| <= |s| && Same(s[i..i + |p|], p, ignoreCase)
  }

  predicate StartsWith(s: string, p: string)
  {
    p <= s
  }

  predicate StartsWithIgnoreCase(s: string, p: string)
  {
    MatchAt(s, 0, p, true)
  }

  /** First index at or after `from` where `p` occurs. */
  function IndexFrom(s: string, p: string, ignoreCase: bool, from: nat): (r: Option<nat>)
    requires from <= |s|
    ensures r.Some? ==> from <= r.value && MatchAt(s, r.value, p, ignoreCase)
    ensures r.Some? ==> forall j :: from <= j < r.value ==> !MatchAt(s, j, p, ignoreCase)
    ensures r.None? ==> forall j :: from <= j <= |s| ==> !MatchAt(s, j, p, ignoreCase)
    decreases |s| - from
  {
    if MatchAt(s, from, p, ignoreCase) then Some(from)
    else if from == |s| then None
    else IndexFrom(s, p, ignoreCase, from + 1)
  }

  /** String.IndexOf: the first index where `p` occurs, if any. */
  function IndexOf(s: string, p: string, ignoreCase: bool): (r: Option<nat>)
    ensures r.Some? ==> MatchAt(s, r.value, p, ignoreCase)
    ensures r.Some? ==> forall j :: 0 <= j < r.value ==> !MatchAt(s, j, p, ignoreCase)
    ensures r.None? ==> forall j :: 0 <= j <= |s| ==> !MatchAt(s, j, p, ignoreCase)
  {
    IndexFrom(s, p, ignoreCase, 0)
  }

  /** String.Contains. */
  predicate Contains(s: string, p: string, ignoreCase: bool)
  {
    IndexOf(s, p, ignoreCase).Some?
  }

  lemma ContainsAt(s: string, p: string, ignoreCase: bool, i: nat)
    requires MatchAt(s, i, p, ignoreCase)
    ensures Contains(s, p, ignoreCase)
  {
  }

  /** Searching for a one-character string is membership of the character. */
  lemma ContainsChar(s: string, c: char)
    ensures Contains(s, [c], false) <==> c in s
  {
    if c in s {
      var i :| 0 <= i < |s| && s[i] == c;
      assert s[i..i + 1] == [c];
      ContainsAt(s, [c], false, i);
    }
    if Contains(s, [c], false) {
      var i := IndexOf(s, [c], false).value;
      assert s[i..i + 1][0] == s[i];
    }
  }

  /** A string differing from `p` at some index of both does not start with `p`. */
  lemma Differs(s: string, p: string, i: nat)
    requires i < |s| && i < |p| && s[i] != p[i]
    ensures !StartsWith(s, p)
  {
  }

  /** No case-sensitive match of `p` starts at a character other than its first. */
  lemma FirstCharNoMatch(s: string, i: nat, p: string)
    requires i < |s| && |p| > 0 && s[i] != p[0]
    ensures !MatchAt(s, i, p, false)
  {
    if i + |p| <= |s| {
      assert s[i..i + |p|][0] == s[i];
    }
  }

  /** A string contains what was appended to it. */
  lemma ContainsAppended(x: string, p: string)
    ensures Contains(x + p, p, false)
  {
    ContainsSuffix(x + p, p);
  }

  /** A string contains each of its suffixes. */
  lemma ContainsSuffix(s: string, p: string)
    requires |p| <= |s| && s[|s| - |p|..] == p
    ensures Contains(s, p, false)
  {
    ContainsAt(s, p, false, |s| - |p|);
  }

  /** An occurrence inside an infix of `s` is an occurrence inside `s`. */
  lemma ContainsInInfix(a: string, s: string, p: string, ignoreCase: bool)
    requires IsInfix(a, s) && Contains(a, p, ignoreCase)
    ensures Contains(s, p, ignoreCase)
  {
    var i :| 0 <= i && InfixAt(a, s, i);
    var j := IndexOf(a, p, ignoreCase).value;
    assert MatchAt(a, j, p, ignoreCase);
    var x, y := a[j..j + |p|], s[i + j..i + j + |p|];
    forall k | 0 <= k < |x|
      ensures x[k] == y[k]
    {
      assert x[k] == s[i..i + |a|][j + k];
    }
    assert x == y;
    ContainsAt(s, p, ignoreCase, i + j);
  }

  /** Lower-casing works character by character. */
  lemma LowerAllConcat(a: string, b: string)
    ensures LowerAll(a + b) == LowerAll(a) + LowerAll(b)
  {
  }

  /** Only `c` itself lower-cases to a character `c` that is no letter. */
  lemma LowerNonLetter(x: char, c: char)
    requires !('A' <= c <= 'Z') && !('a' <= c <= 'z')
    ensures Lower(x) == c <==> x == c
  {
  }

  /** In a case-insensitive match, each character lower-cases to the pattern's. */
  lemma MatchLower(s: string, i: nat, p: string, k: nat)
    requires MatchAt(s, i, p, true) && k < |p|
    ensures Lower(s[i + k]) == Lower(p[k])
  {
    assert LowerAll(s[i..i + |p|])[k] == LowerAll(p)[k];
  }

  /** Every character of an occurrence of `p` occurs in the string. */
  lemma MatchHasChars(s: string, i: nat, p: string, k: nat)
    requires MatchAt(s, i, p, false) && k < |p|
    ensures s[i + k] == p[k]
  {
    assert s[i..i + |p|][k] == p[k];
  }

  // ---------------------------------------------------------------------
  // Replacement
  // ---------------------------------------------------------------------

  /**
   * String.Replace(old, new[, comparison]): scans left to right and replaces
   * every non-overlapping occurrence of `p`; the replacement text is not
   * scanned again.
   */
  function ReplaceAll(s: string, p: string, rep: string, ignoreCase: bool): (r: string)
    requires |p| > 0
    decreases |s|
  {
    if |s| < |p| then s
    else if Same(s[..|p|], p, ignoreCase) then rep + ReplaceAll(s[|p|..], p, rep, ignoreCase)
    else [s[0]] + ReplaceAll(s[1..], p, rep, ignoreCase)
  }

  lemma MatchShift(s: string, p: string, ignoreCase: bool, j: nat)
    requires |s| > 0
    ensures MatchAt(s[1..], j, p, ignoreCase) <==> MatchAt(s, j + 1, p, ignoreCase)
  {
    if j + 1 + |p| <= |s| {
      assert s[1..][j..j + |p|] == s[j + 1..j + 1 + |p|];
    }
  }

  lemma ContainsTail(s: string, p: string, ignoreCase: bool)
    requires |s| > 0 && Contains(s[1..], p, ignoreCase)
    ensures Contains(s, p, ignoreCase)
  {
    var j := IndexOf(s[1..], p, ignoreCase).value;
    MatchShift(s, p, ignoreCase, j);
    ContainsAt(s, p, ignoreCase, j + 1);
  }

  lemma ContainsPrefixed(x: string, s: string, p: string, ignoreCase: bool)
    requires Contains(s, p, ignoreCase)
    ensures Contains(x + s, p, ignoreCase)
  {
    var j := IndexOf(s, p, ignoreCase).value;
    assert (x + s)[|x| + j..|x| + j + |p|] == s[j..j + |p|];
    ContainsAt(x + s, p, ignoreCase, |x| + j);
  }

  /** Replacing a pattern that does not occur changes nothing. */
  lemma {:induction false} ReplaceAbsent(s: string, p: string, rep: string, ignoreCase: bool)
    requires |p| > 0 && !Contains(s, p, ignoreCase)
    ensures ReplaceAll(s, p, rep, ignoreCase) == s
    decreases |s|
  {
    if |s| >= |p| {
      assert !MatchAt(s, 0, p, ignoreCase);
      assert s[0..|p|] == s[..|p|];
      if Contains(s[1..], p, ignoreCase) {
        ContainsTail(s, p, ignoreCase);
      }
      ReplaceAbsent(s[1..], p, rep, ignoreCase);
      assert [s[0]] + s[1..] == s;
    }
  }

  /** Replacement leaves a prefix alone when no occurrence starts inside it. */
  lemma {:induction false} ReplaceKeepsPrefix(q: string, t: string, p: string, rep: string, ignoreCase: bool)
    requires |p| > 0
    requires forall i :: 0 <= i < |q| ==> !MatchAt(q + t, i, p, ignoreCase)
    ensures ReplaceAll(q + t, p, rep, ignoreCase) == q + ReplaceAll(t, p, rep, ignoreCase)
    decreases |q|
  {
    if q == [] {
      assert q + t == t;
    } else {
      var s := q + t;
      assert s[0] == q[0];
      if |s| < |p| {
        ReplaceShort(t, p, rep, ignoreCase);
      } else {
        assert s[0..|p|] == s[..|p|];
        assert !MatchAt(s, 0, p, ignoreCase);
        assert s[1..] == q[1..] + t;
        forall i | 0 <= i < |q[1..]|
          ensures !MatchAt(q[1..] + t, i, p, ignoreCase)
        {
          MatchShift(s, p, ignoreCase, i);
        }
        ReplaceKeepsPrefix(q[1..], t, p, rep, ignoreCase);
        assert [q[0]] + q[1..] == q;
      }
    }
  }

  lemma ReplaceShort(t: string, p: string, rep: string, ignoreCase: bool)
    requires 0 < |p| && |t| < |p|
    ensures ReplaceAll(t, p, rep, ignoreCase) == t
  {
  }

  /**
   * A string with exactly one occurrence of `p`, the first `mid`, becomes
   * the text before it, the replacement and the text after it.
   */
  lemma ReplaceOnce(pre: string, mid: string, post: string, p: string, rep: string, ignoreCase: bool)
    requires |p| > 0 && |mid| == |p| && Same(mid, p, ignoreCase)
    requires forall i :: 0 <= i < |pre| ==> !MatchAt(pre + mid + post, i, p, ignoreCase)
    requires !Contains(post, p, ignoreCase)
    ensures ReplaceAll(pre + mid + post, p, rep, ignoreCase) == pre + rep + post
  {
    assert pre + mid + post == pre + (mid + post);
    ReplaceKeepsPrefix(pre, mid + post, p, rep, ignoreCase);
    assert (mid + post)[..|p|] == mid && (mid + post)[|p|..] == post;
    ReplaceAbsent(post, p, rep, ignoreCase);
  }

  /** Where the pattern occurs, the replacement text occurs in the result. */
  lemma {:induction false} ReplacePresent(s: string, p: string, rep: string, ignoreCase: bool)
    requires |p| > 0 && Contains(s, p, ignoreCase)
    ensures Contains(ReplaceAll(s, p, rep, ignoreCase), rep, false)
    decreases |s|
  {
    var j := IndexOf(s, p, ignoreCase).value;
    assert s[0..|p|] == s[..|p|];
    if Same(s[..|p|], p, ignoreCase) {
      var r := rep + ReplaceAll(s[|p|..], p, rep, ignoreCase);
      assert r[0..|rep|] == rep;
      ContainsAt(r, rep, false, 0);
    } else {
      assert j > 0;
      MatchShift(s, p, ignoreCase, j - 1);
      ContainsAt(s[1..], p, ignoreCase, j - 1);
      ReplacePresent(s[1..], p, rep, ignoreCase);
      ContainsPrefixed([s[0]], ReplaceAll(s[1..], p, rep, ignoreCase), rep, false);
    }
  }

  // ---------------------------------------------------------------------
  // Splitting and joining
  // ---------------------------------------------------------------------

  /**
   * String.Split(separators): the pieces between separator characters,
   * empty pieces included; always at least one piece.
   */
  function SplitOn(s: string, seps: set<char>): (r: seq<string>)
    ensures |r| >= 1
    ensures forall k, i :: 0 <= k < |r| && 0 <= i < |r[k]| ==> r[k][i] !in seps
    decreases |s|
  {
    if s == [] then [[]]
    else
      var t := SplitOn(s[1..], seps);
      if s[0] in seps then [[]] + t else [[s[0]] + t[0]] + t[1..]
  }

  /** String.Join(sep, xs). */
  function Join(xs: seq<string>, sep: string): string
  {
    if |xs| == 0 then []
    else if |xs| == 1 then xs[0]
    else xs[0] + sep + Join(xs[1..], sep)
  }

  lemma {:induction false} JoinAppend(xs: seq<string>, y: string, sep: string)
    requires |xs| >= 1
    ensures Join(xs + [y], sep) == Join(xs, sep) + sep + y
    decreases |xs|
  {
    if |xs| > 1 {
      assert (xs + [y])[1..] == xs[1..] + [y];
      JoinAppend(xs[1..], y, sep);
    }
  }

  /** Appending `c + item` to a string appends `item` to its pieces, and joining undoes it. */
  lemma SplitAppend(v: string, c: char, item: string)
    requires forall i :: 0 <= i < |item| ==> item[i] != c
    ensures Join(SplitOn(v, {c}) + [item], [c]) == v + [c] + item
    ensures SplitOn(v + [c] + item, {c}) == SplitOn(v, {c}) + [item]
  {
    JoinAppend(SplitOn(v, {c}), item, [c]);
    JoinSplit(v, c);
    SplitConcat(v, c, item, {c});
    SplitNoSeparator(item, {c});
  }

  /** StringSplitOptions.RemoveEmptyEntries: keeps the non-empty pieces, in order. */
  function NonEmpty(xs: seq<string>): (r: seq<string>)
    ensures forall k :: 0 <= k < |r| ==> r[k] != []
    ensures forall x :: x in r ==> x in xs
  {
    if xs == [] then []
    else if xs[0] == [] then NonEmpty(xs[1..])
    else [xs[0]] + NonEmpty(xs[1..])
  }

  /** Joining the pieces of a split with the separator gives the string back. */
  lemma {:induction false} JoinSplit(s: string, c: char)
    ensures Join(SplitOn(s, {c}), [c]) == s
    decreases |s|
  {
    if s != [] {
      var t := SplitOn(s[1..], {c});
      JoinSplit(s[1..], c);
      if s[0] == c {
        assert SplitOn(s, {c}) == [[]] + t;
        assert ([[]] + t)[1..] == t;
      } else {
        assert SplitOn(s, {c}) == [[s[0]] + t[0]] + t[1..];
        if |t| > 1 {
          assert ([[s[0]] + t[0]] + t[1..])[1..] == t[1..];
        }
      }
    }
  }

  /** A string without separators is a single piece. */
  lemma {:induction false} SplitNoSeparator(s: string, seps: set<char>)
    requires forall i :: 0 <= i < |s| ==> s[i] !in seps
    ensures SplitOn(s, seps) == [s]
    decreases |s|
  {
    if s != [] {
      SplitNoSeparator(s[1..], seps);
      assert [s[0]] + s[1..] == s;
    }
  }

  /** Splitting distributes over a separator character. */
  lemma {:induction false} SplitConcat(a: string, d: char, b: string, seps: set<char>)
    requires d in seps
    ensures SplitOn(a + [d] + b, seps) == SplitOn(a, seps) + SplitOn(b, seps)
    decreases |a|
  {
    if a == [] {
      assert [] + [d] + b == [d] + b;
      assert ([d] + b)[1..] == b;
    } else {
      var s := a + [d] + b;
      assert s[1..] == a[1..] + [d] + b;
      SplitConcat(a[1..], d, b, seps);
    }
  }

  /** Splitting a join of separator-free pieces gives the pieces back. */
  lemma {:induction false} SplitJoin(xs: seq<string>, c: char)
    requires |xs| >= 1
    requires forall k, i :: 0 <= k < |xs| && 0 <= i < |xs[k]| ==> xs[k][i] != c
    ensures SplitOn(Join(xs, [c]), {c}) == xs
    decreases |xs|
  {
    SplitNoSeparator(xs[0], {c});
    if |xs| > 1 {
      SplitJoin(xs[1..], c);
      SplitConcat(xs[0], c, Join(xs[1..], [c]), {c});
      assert [xs[0]] + xs[1..] == xs;
    }
  }

  lemma {:induction false} NonEmptyConcat(a: seq<string>, b: seq<string>)
    ensures NonEmpty(a + b) == NonEmpty(a) + NonEmpty(b)
    decreases |a|
  {
    if a == [] {
      assert a + b == b;
    } else {
      assert (a + b)[0] == a[0];
      assert (a + b)[1..] == a[1..] + b;
      NonEmptyConcat(a[1..], b);
    }
  }

  /** Every piece of a split occurs contiguously in the split string. */
  lemma {:induction false} SplitPieceIsInfix(s: string, seps: set<char>, k: nat)
    requires k < |SplitOn(s, seps)|
    ensures IsInfix(SplitOn(s, seps)[k], s)
    decreases |s|
  {
    var r := SplitOn(s, seps);
    if s == [] {
      assert InfixAt(r[k], s, 0);
    } else {
      var t := SplitOn(s[1..], seps);
      if s[0] in seps {
        if k == 0 {
          assert InfixAt(r[k], s, 0);
        } else {
          SplitPieceIsInfix(s[1..], seps, k - 1);
          InfixOfTail(t[k - 1], s);
        }
      } else if k == 0 {
        PrefixPiece(s, seps);
        assert InfixAt(r[0], s, 0);
      } else {
        SplitPieceIsInfix(s[1..], seps, k);
        InfixOfTail(t[k], s);
      }
    }
  }

  lemma InfixOfTail(a: string, s: string)
    requires |s| > 0 && IsInfix(a, s[1..])
    ensures IsInfix(a, s)
  {
    var i :| 0 <= i && InfixAt(a, s[1..], i);
    assert s[i + 1..i + 1 + |a|] == a;
    assert InfixAt(a, s, i + 1);
  }

  lemma InfixTrans(a: string, b: string, c: string)
    requires IsInfix(a, b) && IsInfix(b, c)
    ensures IsInfix(a, c)
  {
    var i :| 0 <= i && InfixAt(a, b, i);
    var j :| 0 <= j && InfixAt(b, c, j);
    forall t | 0 <= t < |a|
      ensures c[j + i + t] == a[t]
    {
      assert a[t] == b[i..i + |a|][t] == b[i + t];
      assert b[i + t] == c[j..j + |b|][i + t];
    }
    assert c[j + i..j + i + |a|] == a;
    assert InfixAt(a, c, j + i);
  }

  lemma InfixDrop(s: string, k: nat)
    requires k <= |s|
    ensures IsInfix(s[k..], s)
  {
    assert InfixAt(s[k..], s, k);
  }

  /** The first piece of a split is a prefix of the string. */
  lemma {:induction false} PrefixPiece(s: string, seps: set<char>)
    ensures SplitOn(s, seps)[0] <= s
    decreases |s|
  {
    if s != [] {
      PrefixPiece(s[1..], seps);
    }
  }
}
