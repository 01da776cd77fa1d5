/**
 * DpiService.ParseBatFile and ExpandBatVariables: a strategy script is split
 * into non-empty lines; a first pass collects every `set NAME=VALUE`
 * assignment into a case-insensitive dictionary, a second pass takes the
 * first line that mentions `winws.exe`, expands the variables in it and lexes
 * what follows `winws.exe`.
 */
module BatScript {
  import opened Text
  import opened ArgLexer

  // ---------------------------------------------------------------------
  // The variable dictionary (Dictionary with StringComparer.OrdinalIgnoreCase)
  // ---------------------------------------------------------------------

  /** Entries in the order their keys were first inserted, which is the enumeration order. */
  type Vars = seq<(string, string)>

  /** Index of the first entry whose key equals `name` ignoring case, searching from `from`. */
  function KeyFrom(vars: Vars, name: string, from: nat): (r: Option<nat>)
    requires from <= |vars|
    ensures r.Some? ==> from <= r.value < |vars| && EqualsIgnoreCase(vars[r.value].0, name)
    ensures r.Some? ==> forall j :: from <= j < r.value ==> !EqualsIgnoreCase(vars[j].0, name)
    ensures r.None? ==> forall j :: from <= j < |vars| ==> !EqualsIgnoreCase(vars[j].0, name)
    decreases |vars| - from
  {
    if from == |vars| then None
    else if EqualsIgnoreCase(vars[from].0, name) then Some(from)
    else KeyFrom(vars, name, from + 1)
  }

  /** The value stored under `name`, ignoring case. */
  function Lookup(vars: Vars, name: string): Option<string>
  {
    match KeyFrom(vars, name, 0)
    case None => None
    case Some(i) => Some(vars[i].1)
  }

  /** The indexer set `vars[name] = value`: an existing key keeps its spelling and its place. */
  function Assign(vars: Vars, name: string, value: string): (r: Vars)
    ensures |r| >= |vars|
  {
    match KeyFrom(vars, name, 0)
    case None => vars + [(name, value)]
    case Some(i) => vars[i := (vars[i].0, value)]
  }

  /** After `vars[name] = value`, every name equal to `name` ignoring case finds `value`, and every other name finds what it found before. */
  lemma AssignLookup(vars: Vars, name: string, value: string, q: string)
    ensures Lookup(Assign(vars, name, value), q) ==
      if EqualsIgnoreCase(q, name) then Some(value) else Lookup(vars, q)
  {
    var r := Assign(vars, name, value);
    var k := KeyFrom(r, q, 0);
    match KeyFrom(vars, name, 0)
    case None =>
      if EqualsIgnoreCase(q, name) {
        assert EqualsIgnoreCase(r[|vars|].0, q);
        forall j | 0 <= j < |vars|
          ensures !EqualsIgnoreCase(r[j].0, q)
        {
          assert r[j] == vars[j];
          assert !EqualsIgnoreCase(vars[j].0, name);
        }
        assert k == Some(|vars|);
      } else {
        assert forall j :: 0 <= j < |vars| ==> r[j] == vars[j];
        assert !EqualsIgnoreCase(r[|vars|].0, q);
        assert k == KeyFrom(vars, q, 0);
      }
    case Some(i) =>
      assert forall j :: 0 <= j < |vars| && j != i ==> r[j] == vars[j];
      assert r[i].0 == vars[i].0;
      assert k == KeyFrom(vars, q, 0);
  }

  // ---------------------------------------------------------------------
  // First pass: the `set` assignments
  // ---------------------------------------------------------------------

  /** The lines of the script: split at CR and LF, empty entries removed. */
  function Lines(content: string): seq<string>
  {
    NonEmpty(SplitOn(content, {'\r', '\n'}))
  }

  /**
   * The assignment a line makes: after trimming it starts with `set `
   * (ignoring case), and what follows holds an `=` after at least one
   * character. The name is trimmed; the value loses its surrounding quotes.
   */
  function SetAssignment(line: string): (r: Option<(string, string)>)
    ensures r.Some? ==> StartsWithIgnoreCase(Trim(line), "set ")
    ensures r.Some? ==> r.value.0 == [] || (r.value.0[0] !in WhiteSpace && r.value.0[|r.value.0| - 1] !in WhiteSpace)
    ensures r.Some? ==> r.value.1 == [] || (r.value.1[0] != '"' && r.value.1[|r.value.1| - 1] != '"')
  {
    var trimmed := Trim(line);
    if !StartsWithIgnoreCase(trimmed, "set ") then None
    else NameAndValue(Trim(trimmed[4..]))
  }

  /** The text after `set `: split at its first `=`, which must not be its first character. */
  function NameAndValue(assignment: string): (r: Option<(string, string)>)
    ensures r.Some? ==> r.value.0 == [] || (r.value.0[0] !in WhiteSpace && r.value.0[|r.value.0| - 1] !in WhiteSpace)
    ensures r.Some? ==> r.value.1 == [] || (r.value.1[0] != '"' && r.value.1[|r.value.1| - 1] != '"')
  {
    match IndexOf(assignment, "=", false)
    case None => None
    case Some(e) =>
      if e > 0 then Some((Trim(assignment[..e]), TrimOf(assignment[e + 1..], {'"'}))) else None
  }

  /**
   * A line records an assignment exactly when, trimmed, it starts with
   * `set ` and the rest, trimmed, holds an `=` that is not its first character.
   */
  lemma SetAssignmentRecorded(line: string)
    ensures SetAssignment(line).Some? <==>
      (StartsWithIgnoreCase(Trim(line), "set ") &&
       '=' in Trim(Trim(line)[4..]) && Trim(Trim(line)[4..])[0] != '=')
  {
    var trimmed := Trim(line);
    if StartsWithIgnoreCase(trimmed, "set ") {
      EqualsAfterStart(Trim(trimmed[4..]));
    }
  }

  /** The first `=` of `a` lies after its first character exactly when `a` holds an `=` but does not start with one. */
  lemma EqualsAfterStart(a: string)
    ensures (match IndexOf(a, "=", false) case None => false case Some(e) => e > 0) <==> ('=' in a && a[0] != '=')
  {
    ContainsChar(a, '=');
    match IndexOf(a, "=", false)
    case None =>
    case Some(e) =>
      assert a[e..e + 1] == "=";
      if e > 0 {
        assert !MatchAt(a, 0, "=", false);
        assert a[0..1] == [a[0]];
      }
  }

  /** The dictionary after the first pass over `lines`. */
  function CollectVars(lines: seq<string>): Vars
  {
    if lines == [] then []
    else
      var vars := CollectVars(lines[..|lines| - 1]);
      match SetAssignment(lines[|lines| - 1])
      case None => vars
      case Some(a) => Assign(vars, a.0, a.1)
  }

  /** Reference: the value of the last assignment in `lines` to a name equal to `name` ignoring case. */
  function LastAssigned(lines: seq<string>, name: string): Option<string>
  {
    if lines == [] then None
    else
      var a := SetAssignment(lines[|lines| - 1]);
      if a.Some? && EqualsIgnoreCase(name, a.value.0) then Some(a.value.1)
      else LastAssigned(lines[..|lines| - 1], name)
  }

  /**
   * The first pass keeps, for every name, the value of its last assignment
   * anywhere in the script, whatever the case of the name.
   */
  lemma {:induction false} CollectVarsLookup(lines: seq<string>, name: string)
    ensures Lookup(CollectVars(lines), name) == LastAssigned(lines, name)
  {
    if lines != [] {
      var init := lines[..|lines| - 1];
      CollectVarsLookup(init, name);
      var a := SetAssignment(lines[|lines| - 1]);
      if a.Some? {
        AssignLookup(CollectVars(init), a.value.0, a.value.1, name);
      }
    }
  }

  /** The first loop of ParseBatFile. */
  method CollectVariables(lines: seq<string>) returns (processedVariables: Vars)
    ensures processedVariables == CollectVars(lines)
  {
    processedVariables := [];
    for i := 0 to |lines|
      invariant processedVariables == CollectVars(lines[..i])
    {
      CollectVarsStep(lines, i);
      var isAssignment, varName, varValue := AssignmentLine(lines[i]);
      if isAssignment {
        processedVariables := Assign(processedVariables, varName, varValue);
      }
    }
    assert lines[..|lines|] == lines;
  }

  lemma CollectVarsStep(lines: seq<string>, i: nat)
    requires i < |lines|
    ensures CollectVars(lines[..i + 1]) ==
      match SetAssignment(lines[i])
      case None => CollectVars(lines[..i])
      case Some(a) => Assign(CollectVars(lines[..i]), a.0, a.1)
  {
    assert lines[..i + 1][..i] == lines[..i];
  }

  /** The body of ParseBatFile's first loop for one line. */
  method AssignmentLine(line: string) returns (isAssignment: bool, varName: string, varValue: string)
    ensures SetAssignment(line) == if isAssignment then Some((varName, varValue)) else None
  {
    isAssignment, varName, varValue := false, [], [];
    var trimmedLine := Trim(line);
    if StartsWithIgnoreCase(trimmedLine, "set ") {
      var assignment := Trim(trimmedLine[4..]);
      var equalsIndex := IndexOf(assignment, "=", false);
      if equalsIndex.Some? && equalsIndex.value > 0 {
        varName := Trim(assignment[..equalsIndex.value]);
        varValue := TrimOf(assignment[equalsIndex.value + 1..], {'"'});
        isAssignment := true;
      }
    }
  }

  // ---------------------------------------------------------------------
  // Variable expansion
  // ---------------------------------------------------------------------

  /** The dictionary's replacements, in enumeration order. */
  function ExpandVars(s: string, vars: Vars): string
  {
    if vars == [] then s
    else
      var last := vars[|vars| - 1];
      ReplaceAll(ExpandVars(s, vars[..|vars| - 1]), "%" + last.0 + "%", last.1, true)
  }

  /** ExpandBatVariables: the dictionary, then `%~dp0` to the folder and a backslash, then `%cd%` to the folder. */
  function Expand(line: string, vars: Vars, exeFolder: string): string
  {
    var r := ExpandVars(line, vars);
    ReplaceAll(ReplaceAll(r, "%~dp0", exeFolder + "\\", true), "%cd%", exeFolder, true)
  }

  method ExpandBatVariables(line: string, variables: Vars, exeFolder: string) returns (result: string)
    ensures result == Expand(line, variables, exeFolder)
  {
    result := line;
    for i := 0 to |variables|
      invariant result == ExpandVars(line, variables[..i])
    {
      assert variables[..i + 1][..i] == variables[..i];
      var kvp := variables[i];
      result := ReplaceAll(result, "%" + kvp.0 + "%", kvp.1, true);
    }
    assert variables[..|variables|] == variables;
    result := ReplaceAll(result, "%~dp0", exeFolder + "\\", true);
    result := ReplaceAll(result, "%cd%", exeFolder, true);
  }

  /** A pattern holding a character that is no letter cannot match a string without that character. */
  lemma AbsentCharNoMatch(s: string, p: string, k: nat)
    requires k < |p| && p[k] !in s && !('A' <= p[k] <= 'Z') && !('a' <= p[k] <= 'z')
    ensures !Contains(s, p, true)
  {
    forall j | 0 <= j && j + |p| <= |s|
      ensures !MatchAt(s, j, p, true)
    {
      assert s[j..j + |p|][k] == s[j + k];
      assert Lower(s[j + k]) != Lower(p[k]);
      assert LowerAll(s[j..j + |p|])[k] != LowerAll(p)[k];
    }
  }

  /** Entries whose pattern does not occur leave the string unchanged. */
  lemma {:induction false} ExpandVarsNoMatch(s: string, vars: Vars)
    requires forall k :: 0 <= k < |vars| ==> !Contains(s, "%" + vars[k].0 + "%", true)
    ensures ExpandVars(s, vars) == s
  {
    if vars != [] {
      var n := |vars| - 1;
      assert forall k :: 0 <= k < n ==> vars[..n][k] == vars[k];
      ExpandVarsNoMatch(s, vars[..n]);
      ReplaceAbsent(s, "%" + vars[n].0 + "%", vars[n].1, true);
    }
  }

  /** The replacements of `a + b` are those of `a`, then those of `b`. */
  lemma {:induction false} ExpandVarsConcat(s: string, a: Vars, b: Vars)
    ensures ExpandVars(s, a + b) == ExpandVars(ExpandVars(s, a), b)
    decreases |b|
  {
    if b == [] {
      assert a + b == a;
    } else {
      var n := |b| - 1;
      assert (a + b)[..|a + b| - 1] == a + b[..n];
      assert (a + b)[|a + b| - 1] == b[n];
      ExpandVarsConcat(s, a, b[..n]);
    }
  }

  lemma ExpandVarsPercentFree(s: string, vars: Vars)
    requires '%' !in s
    ensures ExpandVars(s, vars) == s
  {
    forall k | 0 <= k < |vars|
      ensures !Contains(s, "%" + vars[k].0 + "%", true)
    {
      AbsentCharNoMatch(s, "%" + vars[k].0 + "%", 0);
    }
    ExpandVarsNoMatch(s, vars);
  }

  /** A line without `%` has nothing to expand. */
  lemma ExpandPercentFree(line: string, vars: Vars, exeFolder: string)
    requires '%' !in line
    ensures Expand(line, vars, exeFolder) == line
  {
    ExpandVarsPercentFree(line, vars);
    ExpandPercentAfterVars(line, exeFolder);
  }

  /** The only `%` of `pre + "%" + name + "%" + post` are the two around `name`. */
  lemma PercentAt(pre: string, name: string, post: string, j: nat)
    requires '%' !in pre && '%' !in name && '%' !in post
    requires j < |pre + "%" + name + "%" + post| && (pre + "%" + name + "%" + post)[j] == '%'
    ensures j == |pre| || j == |pre| + |name| + 1
  {
  }

  /**
   * In `pre + "%" + name + "%" + post` the pattern of a dictionary key
   * matches only at the `%` before `name`, and only for a key equal to
   * `name` ignoring case.
   */
  lemma VarPatternMatch(pre: string, name: string, post: string, key: string, i: nat)
    requires '%' !in pre && '%' !in name && '%' !in post
    requires MatchAt(pre + "%" + name + "%" + post, i, "%" + key + "%", true)
    ensures i == |pre| && EqualsIgnoreCase(key, name)
  {
    var s := pre + "%" + name + "%" + post;
    var p := "%" + key + "%";
    MatchLower(s, i, p, 0);
    LowerNonLetter(s[i], '%');
    MatchLower(s, i, p, |key| + 1);
    LowerNonLetter(s[i + |key| + 1], '%');
    PercentAt(pre, name, post, i);
    PercentAt(pre, name, post, i + |key| + 1);
    assert s[i..i + |p|] == "%" + name + "%";
    LowerAllConcat("%" + name, "%");
    LowerAllConcat("%", name);
    LowerAllConcat("%" + key, "%");
    LowerAllConcat("%", key);
    assert LowerAll(name) == LowerAll("%" + name + "%")[1..|name| + 1];
    assert LowerAll(key) == LowerAll(p)[1..|key| + 1];
  }

  /** `%name%` and `%key%` are equal ignoring case when the names are. */
  lemma PatternIgnoreCase(name: string, key: string)
    requires EqualsIgnoreCase(key, name)
    ensures EqualsIgnoreCase("%" + name + "%", "%" + key + "%")
  {
    LowerAllConcat("%" + name, "%");
    LowerAllConcat("%", name);
    LowerAllConcat("%" + key, "%");
    LowerAllConcat("%", key);
  }

  /**
   * A `%name%` whose name the dictionary holds, in any case, becomes the
   * stored value; the rest of the line is kept. The line and the value hold
   * no other `%`, so no other entry and no later replacement touches them.
   */
  lemma ExpandVarsVariable(pre: string, name: string, post: string, vars: Vars)
    requires '%' !in pre && '%' !in name && '%' !in post
    requires Lookup(vars, name).Some? && '%' !in Lookup(vars, name).value
    ensures ExpandVars(pre + "%" + name + "%" + post, vars) == pre + Lookup(vars, name).value + post
  {
    var i := KeyFrom(vars, name, 0).value;
    EntriesBeforeKey(pre, name, post, vars, i);
    EntryOfKey(pre, name, post, vars[i].0, vars[i].1);
    ExpandVarsPercentFree(pre + vars[i].1 + post, vars[i + 1..]);
    ExpandVarsSplit(pre + "%" + name + "%" + post, vars, i);
  }

  /** The replacements of `vars` are those before entry `i`, entry `i`'s, then those after it. */
  lemma ExpandVarsSplit(s: string, vars: Vars, i: nat)
    requires i < |vars|
    ensures ExpandVars(s, vars) ==
      ExpandVars(ReplaceAll(ExpandVars(s, vars[..i]), "%" + vars[i].0 + "%", vars[i].1, true), vars[i + 1..])
  {
    var t := ExpandVars(s, vars[..i]);
    assert ExpandVars(t, [vars[i]]) == ReplaceAll(t, "%" + vars[i].0 + "%", vars[i].1, true) by {
      assert [vars[i]][..0] == [];
    }
    assert vars == vars[..i] + ([vars[i]] + vars[i + 1..]);
    ExpandVarsConcat(s, vars[..i], [vars[i]] + vars[i + 1..]);
    ExpandVarsConcat(t, [vars[i]], vars[i + 1..]);
  }

  /** The entries before the one for `name` leave `pre %name% post` unchanged. */
  lemma EntriesBeforeKey(pre: string, name: string, post: string, vars: Vars, i: nat)
    requires '%' !in pre && '%' !in name && '%' !in post
    requires i <= |vars| && forall k :: 0 <= k < i ==> !EqualsIgnoreCase(vars[k].0, name)
    ensures ExpandVars(pre + "%" + name + "%" + post, vars[..i]) == pre + "%" + name + "%" + post
  {
    var s := pre + "%" + name + "%" + post;
    forall k | 0 <= k < |vars[..i]|
      ensures !Contains(s, "%" + vars[..i][k].0 + "%", true)
    {
      var q := "%" + vars[k].0 + "%";
      if Contains(s, q, true) {
        VarPatternMatch(pre, name, post, vars[k].0, IndexOf(s, q, true).value);
        assert false;
      }
    }
    ExpandVarsNoMatch(s, vars[..i]);
  }

  /** The entry whose key equals `name` ignoring case replaces `%name%` by its value. */
  lemma EntryOfKey(pre: string, name: string, post: string, key: string, v: string)
    requires '%' !in pre && '%' !in name && '%' !in post
    requires EqualsIgnoreCase(key, name)
    ensures ReplaceAll(pre + "%" + name + "%" + post, "%" + key + "%", v, true) == pre + v + post
  {
    var s := pre + "%" + name + "%" + post;
    var p := "%" + key + "%";
    assert s == pre + ("%" + name + "%") + post;
    forall k | 0 <= k < |pre|
      ensures !MatchAt(pre + ("%" + name + "%") + post, k, p, true)
    {
      if MatchAt(s, k, p, true) {
        VarPatternMatch(pre, name, post, key, k);
        assert false;
      }
    }
    AbsentCharNoMatch(post, p, 0);
    PatternIgnoreCase(name, key);
    ReplaceOnce(pre, "%" + name + "%", post, p, v, true);
  }

  /**
   * ExpandBatVariables on a line holding one `%name%` the dictionary knows:
   * the stored value stands in its place.
   */
  lemma ExpandVariable(pre: string, name: string, post: string, vars: Vars, exeFolder: string)
    requires '%' !in pre && '%' !in name && '%' !in post
    requires Lookup(vars, name).Some? && '%' !in Lookup(vars, name).value
    ensures Expand(pre + "%" + name + "%" + post, vars, exeFolder) == pre + Lookup(vars, name).value + post
  {
    ExpandVarsVariable(pre, name, post, vars);
    ExpandPercentAfterVars(pre + Lookup(vars, name).value + post, exeFolder);
  }

  /** After the dictionary, a line without `%` passes the two folder replacements unchanged. */
  lemma ExpandPercentAfterVars(t: string, exeFolder: string)
    requires '%' !in t
    ensures ReplaceAll(ReplaceAll(t, "%~dp0", exeFolder + "\\", true), "%cd%", exeFolder, true) == t
  {
    AbsentCharNoMatch(t, "%~dp0", 0);
    ReplaceAbsent(t, "%~dp0", exeFolder + "\\", true);
    AbsentCharNoMatch(t, "%cd%", 0);
    ReplaceAbsent(t, "%cd%", exeFolder, true);
  }

  /** A string whose only `%` is at `q` matches no dictionary pattern. */
  lemma OnePercentNoMatch(s: string, q: nat, key: string)
    requires forall j :: 0 <= j < |s| && s[j] == '%' ==> j == q
    ensures !Contains(s, "%" + key + "%", true)
  {
    var p := "%" + key + "%";
    if Contains(s, p, true) {
      var i := IndexOf(s, p, true).value;
      MatchLower(s, i, p, 0);
      LowerNonLetter(s[i], '%');
      MatchLower(s, i, p, |key| + 1);
      LowerNonLetter(s[i + |key| + 1], '%');
      assert false;
    }
  }

  /**
   * `%~dp0`, in any case, becomes the executable's folder followed by a
   * backslash, in a line with no other `%`.
   */
  lemma ExpandScriptFolder(pre: string, tag: string, post: string, vars: Vars, exeFolder: string)
    requires '%' !in pre && '%' !in post && '%' !in exeFolder
    requires EqualsIgnoreCase(tag, "%~dp0")
    ensures Expand(pre + tag + post, vars, exeFolder) == pre + exeFolder + "\\" + post
  {
    var s := pre + tag + post;
    var p := "%~dp0";
    assert Lower(tag[0]) == '%' by {
      assert LowerAll(tag)[0] == LowerAll(p)[0];
    }
    LowerNonLetter(tag[0], '%');
    forall k | 1 <= k < |tag|
      ensures tag[k] != '%'
    {
      assert LowerAll(tag)[k] == LowerAll(p)[k];
    }
    forall j | 0 <= j < |s| && s[j] == '%'
      ensures j == |pre|
    {
      if |pre| <= j < |pre| + |tag| {
        assert s[j] == tag[j - |pre|];
      }
    }
    forall k | 0 <= k < |vars|
      ensures !Contains(s, "%" + vars[k].0 + "%", true)
    {
      OnePercentNoMatch(s, |pre|, vars[k].0);
    }
    ExpandVarsNoMatch(s, vars);
    forall k | 0 <= k < |pre|
      ensures !MatchAt(s, k, p, true)
    {
      if MatchAt(s, k, p, true) {
        MatchLower(s, k, p, 0);
        LowerNonLetter(s[k], '%');
        assert false;
      }
    }
    AbsentCharNoMatch(post, p, 0);
    ReplaceOnce(pre, tag, post, p, exeFolder + "\\", true);
    var t := pre + (exeFolder + "\\") + post;
    assert t == pre + exeFolder + "\\" + post;
    AbsentCharNoMatch(t, "%cd%", 0);
    ReplaceAbsent(t, "%cd%", exeFolder, true);
  }

  /**
   * A value that starts with `%~dp0`, as in `set BIN=%~dp0bin\\`: the
   * dictionary pass puts it in place of the reference, and the `%~dp0`
   * pass after it turns its start into the executable's folder.
   */
  lemma ExpandFolderInValue(pre: string, name: string, post: string, w: string, vars: Vars, exeFolder: string)
    requires '%' !in pre && '%' !in name && '%' !in post && '%' !in w && '%' !in exeFolder
    requires Lookup(vars, name) == Some("%~dp0" + w)
    ensures Expand(pre + "%" + name + "%" + post, vars, exeFolder) == pre + exeFolder + "\\" + w + post
  {
    var rest := w + post;
    FolderValueInPlace(pre, name, post, w, vars);
    assert LowerAll("%~dp0") == LowerAll("%~dp0");
    ExpandScriptFolder(pre, "%~dp0", rest, [], exeFolder);
    assert pre + "%~dp0" + rest == pre + ("%~dp0" + w) + post;
    assert pre + exeFolder + "\\" + rest == pre + exeFolder + "\\" + w + post;
  }

  /** The dictionary pass puts a value `%~dp0…` in place of its reference, and no later entry touches it. */
  lemma FolderValueInPlace(pre: string, name: string, post: string, w: string, vars: Vars)
    requires '%' !in pre && '%' !in name && '%' !in post && '%' !in w
    requires Lookup(vars, name) == Some("%~dp0" + w)
    ensures ExpandVars(pre + "%" + name + "%" + post, vars) == pre + ("%~dp0" + w) + post
  {
    var i := KeyFrom(vars, name, 0).value;
    EntriesBeforeKey(pre, name, post, vars, i);
    EntryOfKey(pre, name, post, vars[i].0, vars[i].1);
    var t := pre + ("%~dp0" + w) + post;
    assert t == pre + "%" + ("~dp0" + w + post);
    SinglePercent(pre, "~dp0" + w + post);
    var later := vars[i + 1..];
    forall k | 0 <= k < |later|
      ensures !Contains(t, "%" + later[k].0 + "%", true)
    {
      OnePercentNoMatch(t, |pre|, later[k].0);
    }
    ExpandVarsNoMatch(t, later);
    ExpandVarsSplit(pre + "%" + name + "%" + post, vars, i);
  }

  /** In `pre % u` with no `%` in `pre` or `u`, the only `%` is the one after `pre`. */
  lemma SinglePercent(pre: string, u: string)
    requires '%' !in pre && '%' !in u
    ensures forall j :: 0 <= j < |pre + "%" + u| && (pre + "%" + u)[j] == '%' ==> j == |pre|
  {
    var t := pre + "%" + u;
    forall j | 0 <= j < |t| && j != |pre|
      ensures t[j] != '%'
    {
      if j < |pre| {
        assert t[j] == pre[j];
      } else {
        assert t[j] == u[j - |pre| - 1];
      }
    }
  }

  /**
   * `%cd%`, in any case, becomes the executable's folder when the
   * dictionary has no variable of that name (one that has takes
   * precedence) and the text after it does not start with `~dp0` in any
   * case (which would turn its closing `%` into the start of a `%~dp0`).
   */
  lemma ExpandCurrentDirectory(pre: string, name: string, post: string, vars: Vars, exeFolder: string)
    requires '%' !in pre && '%' !in post && '%' !in exeFolder
    requires EqualsIgnoreCase(name, "cd") && Lookup(vars, name).None?
    requires !StartsWithIgnoreCase(post, "~dp0")
    ensures Expand(pre + "%" + name + "%" + post, vars, exeFolder) == pre + exeFolder + post
  {
    var s := pre + "%" + name + "%" + post;
    CdName(name);
    EntriesBeforeKey(pre, name, post, vars, |vars|);
    assert vars[..|vars|] == vars;
    NoScriptFolderAfterCd(pre, name, post);
    ReplaceAbsent(s, "%~dp0", exeFolder + "\\", true);
    EntryOfKey(pre, name, post, "cd", exeFolder);
    assert "%" + "cd" + "%" == "%cd%";
  }

  /** A name equal to `cd` ignoring case is two characters, `c` or `C` and then no `%`. */
  lemma CdName(name: string)
    requires EqualsIgnoreCase(name, "cd")
    ensures |name| == 2 && Lower(name[0]) == 'c' && '%' !in name
  {
    assert |LowerAll(name)| == |LowerAll("cd")|;
    forall k | 0 <= k < |name|
      ensures name[k] != '%'
    {
      assert LowerAll(name)[k] == LowerAll("cd")[k];
    }
    assert LowerAll(name)[0] == LowerAll("cd")[0];
  }

  /** A `%~dp0` in `pre %cd% post` can only be the closing `%` of `%cd%` and a `post` that starts with `~dp0`. */
  lemma CdScriptFolderMatch(pre: string, name: string, post: string, i: nat)
    requires '%' !in pre && '%' !in post && EqualsIgnoreCase(name, "cd")
    requires MatchAt(pre + "%" + name + "%" + post, i, "%~dp0", true)
    ensures i == |pre| + 3 && StartsWithIgnoreCase(post, "~dp0")
  {
    var s := pre + "%" + name + "%" + post;
    var p := "%~dp0";
    CdName(name);
    MatchLower(s, i, p, 0);
    LowerNonLetter(s[i], '%');
    PercentAt(pre, name, post, i);
    MatchLower(s, i, p, 1);
    LowerNonLetter(s[i + 1], '~');
    assert s[|pre| + 1] == name[0];
    assert i == |pre| + 3;
    forall k | 0 <= k < 4
      ensures LowerAll(post[..4])[k] == LowerAll("~dp0")[k]
    {
      MatchLower(s, i, p, k + 1);
      assert s[i + k + 1] == post[k] && p[k + 1] == "~dp0"[k];
    }
  }

  /** `pre %cd% post` holds no `%~dp0` when `post` does not start with `~dp0` ignoring case. */
  lemma NoScriptFolderAfterCd(pre: string, name: string, post: string)
    requires '%' !in pre && '%' !in post
    requires EqualsIgnoreCase(name, "cd")
    requires !StartsWithIgnoreCase(post, "~dp0")
    ensures !Contains(pre + "%" + name + "%" + post, "%~dp0", true)
  {
    var s := pre + "%" + name + "%" + post;
    if Contains(s, "%~dp0", true) {
      CdScriptFolderMatch(pre, name, post, IndexOf(s, "%~dp0", true).value);
      assert false;
    }
  }

  /**
   * The other direction: when the text after `%cd%` starts with `~dp0`,
   * the earlier `%~dp0` replacement takes the closing `%` of `%cd%`, and
   * what is left of `%cd` stays in the line.
   */
  lemma CurrentDirectoryBeforeScriptFolder(pre: string, name: string, post: string, vars: Vars, exeFolder: string)
    requires '%' !in pre && '%' !in post && '%' !in exeFolder
    requires EqualsIgnoreCase(name, "cd") && Lookup(vars, name).None?
    requires StartsWithIgnoreCase(post, "~dp0")
    ensures Expand(pre + "%" + name + "%" + post, vars, exeFolder) == pre + "%" + name + exeFolder + "\\" + post[4..]
  {
    CdName(name);
    EntriesBeforeKey(pre, name, post, vars, |vars|);
    assert vars[..|vars|] == vars;
    ScriptFolderAfterCd(pre, name, post, exeFolder);
    var u := name + exeFolder + "\\" + post[4..];
    assert pre + "%" + name + exeFolder + "\\" + post[4..] == pre + "%" + u;
    SinglePercentKept(pre, u, exeFolder);
  }

  /** The `%~dp0` replacement in `pre %cd~dp0…`: the closing `%` of `%cd%` and the `~dp0` after it become the folder. */
  lemma ScriptFolderAfterCd(pre: string, name: string, post: string, exeFolder: string)
    requires '%' !in pre && '%' !in post
    requires EqualsIgnoreCase(name, "cd") && StartsWithIgnoreCase(post, "~dp0")
    ensures ReplaceAll(pre + "%" + name + "%" + post, "%~dp0", exeFolder + "\\", true) ==
      pre + "%" + name + exeFolder + "\\" + post[4..]
  {
    var s := pre + "%" + name + "%" + post;
    var p := "%~dp0";
    var q, mid, rest := pre + "%" + name, "%" + post[..4], post[4..];
    assert s == q + mid + rest;
    forall j | 0 <= j < |q|
      ensures !MatchAt(s, j, p, true)
    {
      if MatchAt(s, j, p, true) {
        CdScriptFolderMatch(pre, name, post, j);
        assert false;
      }
    }
    LowerAllConcat("%", post[..4]);
    LowerAllConcat("%", "~dp0");
    assert "%" + "~dp0" == p;
    AbsentCharNoMatch(rest, p, 0);
    ReplaceOnce(q, mid, rest, p, exeFolder + "\\", true);
    assert q + (exeFolder + "\\") + rest == pre + "%" + name + exeFolder + "\\" + post[4..];
  }

  /** The `%cd%` replacement keeps a line whose only `%` is the one after `pre`. */
  lemma SinglePercentKept(pre: string, u: string, exeFolder: string)
    requires '%' !in pre && '%' !in u
    ensures ReplaceAll(pre + "%" + u, "%cd%", exeFolder, true) == pre + "%" + u
  {
    var t := pre + "%" + u;
    SinglePercent(pre, u);
    OnePercentNoMatch(t, |pre|, "cd");
    assert "%" + "cd" + "%" == "%cd%";
    ReplaceAbsent(t, "%cd%", exeFolder, true);
  }

  // ---------------------------------------------------------------------
  // Second pass: the invocation line
  // ---------------------------------------------------------------------

  const ExeName := "winws.exe"

  /** Blank lines and lines starting with `rem`, `::` or `:` are skipped before `@` is stripped. */
  predicate IsSkipped(trimmed: string)
  {
    trimmed == [] || StartsWithIgnoreCase(trimmed, "rem") || StartsWith(trimmed, "::") || StartsWith(trimmed, ":")
  }

  /** The line after skipping and stripping a leading `@`, when it mentions winws.exe. */
  function Candidate(line: string): Option<string>
  {
    var trimmed := Trim(line);
    if IsSkipped(trimmed) then None
    else
      var t := if StartsWith(trimmed, "@") then Trim(trimmed[1..]) else trimmed;
      if Contains(t, ExeName, true) then Some(t) else None
  }

  /** A candidate is a part of its line that mentions winws.exe. */
  lemma CandidateInLine(line: string)
    requires Candidate(line).Some?
    ensures IsInfix(Candidate(line).value, line) && Contains(Candidate(line).value, ExeName, true)
  {
    var trimmed := Trim(line);
    if StartsWith(trimmed, "@") {
      InfixDrop(trimmed, 1);
      InfixTrans(trimmed[1..], trimmed, line);
      InfixTrans(Trim(trimmed[1..]), trimmed[1..], line);
    }
  }

  /** A trimmed line that does not start with `r`, `R` or `:` is not skipped. */
  lemma NotSkipped(t: string)
    requires t != [] && Lower(t[0]) != 'r' && t[0] != ':'
    ensures !IsSkipped(t)
  {
    if |t| >= 3 {
      assert LowerAll(t[0..3])[0] == Lower(t[0]);
      assert LowerAll("rem")[0] == 'r';
    }
    Differs(t, "::", 0);
    Differs(t, ":", 0);
  }

  /** `set` lines are not skipped: one that mentions winws.exe is itself the invocation line. */
  lemma SetLineIsCandidate(line: string)
    requires StartsWithIgnoreCase(Trim(line), "set ")
    requires Contains(Trim(line), ExeName, true)
    ensures Candidate(line) == Some(Trim(line))
  {
    var t := Trim(line);
    assert Lower(t[0]) == 's' by {
      assert LowerAll(t[0..4])[0] == Lower(t[0]);
      assert LowerAll("set ")[0] == 's';
    }
    NotSkipped(t);
    Differs(t, "@", 0);
  }

  /**
   * The skip test looks at the line before its `@` is stripped, so `@rem`
   * and `@::` lines are not skipped: what follows the `@` is the candidate.
   */
  lemma AtLineStripped(line: string)
    requires Trim(line) != [] && Trim(line)[0] == '@'
    requires Contains(Trim(Trim(line)[1..]), ExeName, true)
    ensures Candidate(line) == Some(Trim(Trim(line)[1..]))
  {
    var t := Trim(line);
    NotSkipped(t);
    assert StartsWith(t, "@");
  }

  /** The lexed text after the first winws.exe of an expanded line, if it has one. */
  function ArgumentsAfterExe(expanded: string): Option<seq<string>>
  {
    match IndexOf(expanded, ExeName, true)
    case None => None
    case Some(k) => Some(Tokens(Trim(expanded[k + |ExeName|..])))
  }

  /** What a candidate line contributes: the arguments after winws.exe in its expansion. */
  function ExpandedArguments(t: string, vars: Vars, exeFolder: string): Option<seq<string>>
  {
    ArgumentsAfterExe(Expand(t, vars, exeFolder))
  }

  /** What one line contributes, if anything. */
  function LineArguments(line: string, vars: Vars, exeFolder: string): Option<seq<string>>
  {
    match Candidate(line)
    case None => None
    case Some(t) => ExpandedArguments(t, vars, exeFolder)
  }

  lemma FirstSomeAt(found: seq<Option<seq<string>>>, i: nat)
    requires i < |found|
    ensures found[i].Some? ==> FirstSome(found, i) == found[i].value
    ensures found[i].None? ==> FirstSome(found, i) == FirstSome(found, i + 1)
  {
  }

  /** The first present entry from index `i` on, or the empty list. */
  function FirstSome(found: seq<Option<seq<string>>>, i: nat): seq<string>
    requires i <= |found|
    decreases |found| - i
  {
    if i == |found| then []
    else match found[i]
      case Some(a) => a
      case None => FirstSome(found, i + 1)
  }

  /** What each line of the script contributes. */
  function Contributions(lines: seq<string>, vars: Vars, exeFolder: string): (r: seq<Option<seq<string>>>)
    ensures |r| == |lines|
  {
    if lines == [] then []
    else Contributions(lines[..|lines| - 1], vars, exeFolder) + [LineArguments(lines[|lines| - 1], vars, exeFolder)]
  }

  /** Entry `k` of the contributions is what line `k` contributes. */
  lemma {:induction false} ContributionAt(lines: seq<string>, vars: Vars, exeFolder: string, k: nat)
    requires k < |lines|
    ensures Contributions(lines, vars, exeFolder)[k] == LineArguments(lines[k], vars, exeFolder)
  {
    if k < |lines| - 1 {
      ContributionAt(lines[..|lines| - 1], vars, exeFolder, k);
      assert lines[..|lines| - 1][k] == lines[k];
    }
  }

  /** ParseBatFile on the script text; `exeFolder` stands for AppConfig.ExeFolder. */
  function BatArguments(content: string, exeFolder: string): seq<string>
  {
    var lines := Lines(content);
    FirstSome(Contributions(lines, CollectVars(lines), exeFolder), 0)
  }

  method ParseBatFile(batContent: string, exeFolder: string) returns (arguments: seq<string>)
    ensures arguments == BatArguments(batContent, exeFolder)
  {
    var lines := Lines(batContent);
    var processedVariables := CollectVariables(lines);
    arguments := SecondPass(lines, processedVariables, exeFolder);
  }

  /** ParseBatFile's second loop: the arguments of the first contributing line, or `[]`. */
  method SecondPass(lines: seq<string>, processedVariables: Vars, exeFolder: string) returns (arguments: seq<string>)
    ensures arguments == FirstSome(Contributions(lines, processedVariables, exeFolder), 0)
  {
    ghost var found := Contributions(lines, processedVariables, exeFolder);
    forall k | 0 <= k < |lines|
      ensures found[k] == LineArguments(lines[k], processedVariables, exeFolder)
    {
      ContributionAt(lines, processedVariables, exeFolder, k);
    }
    arguments := FirstContribution(lines, processedVariables, exeFolder, found);
  }

  /** The loop itself, over the contributions `found` of the lines. */
  method FirstContribution(lines: seq<string>, processedVariables: Vars, exeFolder: string,
                           ghost found: seq<Option<seq<string>>>)
    returns (arguments: seq<string>)
    requires |found| == |lines|
    requires forall k {:trigger LineArguments(lines[k], processedVariables, exeFolder)} ::
      0 <= k < |lines| ==> found[k] == LineArguments(lines[k], processedVariables, exeFolder)
    ensures arguments == FirstSome(found, 0)
  {
    arguments := [];
    var i := 0;
    while i < |lines|
      invariant i <= |lines|
      invariant FirstSome(found, i) == FirstSome(found, 0)
    {
      var isInvocation, lineArguments := ContributionOf(lines, i, processedVariables, exeFolder, found);
      if isInvocation {
        arguments := lineArguments;
        return;
      }
      i := i + 1;
    }
  }

  /** One iteration of ParseBatFile's second loop: line `i` ends the search or passes it on. */
  method ContributionOf(lines: seq<string>, i: nat, processedVariables: Vars, exeFolder: string,
                        ghost found: seq<Option<seq<string>>>)
    returns (isInvocation: bool, arguments: seq<string>)
    requires i < |lines| == |found|
    requires forall k {:trigger LineArguments(lines[k], processedVariables, exeFolder)} ::
      0 <= k < |lines| ==> found[k] == LineArguments(lines[k], processedVariables, exeFolder)
    ensures isInvocation ==> arguments == FirstSome(found, i)
    ensures !isInvocation ==> FirstSome(found, i) == FirstSome(found, i + 1)
  {
    isInvocation, arguments := InvocationLine(lines[i], processedVariables, exeFolder);
    FirstSomeAt(found, i);
  }

  /** The body of ParseBatFile's second loop for one line; `true` where the source breaks out. */
  method InvocationLine(line: string, processedVariables: Vars, exeFolder: string)
    returns (isInvocation: bool, arguments: seq<string>)
    ensures LineArguments(line, processedVariables, exeFolder) == if isInvocation then Some(arguments) else None
  {
    isInvocation, arguments := false, [];
    var trimmedLine := Trim(line);
    if IsSkipped(trimmedLine) {
      return;
    }
    if StartsWith(trimmedLine, "@") {
      trimmedLine := Trim(trimmedLine[1..]);
    }
    if Contains(trimmedLine, ExeName, true) {
      assert Candidate(line) == Some(trimmedLine);
      isInvocation, arguments := ExpandedLine(trimmedLine, processedVariables, exeFolder);
    }
  }

  method ExpandedLine(trimmedLine: string, processedVariables: Vars, exeFolder: string)
    returns (isInvocation: bool, arguments: seq<string>)
    ensures ExpandedArguments(trimmedLine, processedVariables, exeFolder) == if isInvocation then Some(arguments) else None
  {
    isInvocation, arguments := false, [];
    var expandedLine := ExpandBatVariables(trimmedLine, processedVariables, exeFolder);
    var exeIndex := IndexOf(expandedLine, ExeName, true);
    if exeIndex.Some? {
      var afterExe := Trim(expandedLine[exeIndex.value + |ExeName|..]);
      arguments := ParseCommandLineArguments(afterExe);
      isInvocation := true;
    }
  }

  // ---------------------------------------------------------------------
  // Properties
  // ---------------------------------------------------------------------

  /** Only the first contributing line counts. */
  lemma {:induction false} FirstLineWins(found: seq<Option<seq<string>>>, i: nat, j: nat)
    requires i <= j < |found| && found[j].Some?
    requires forall k :: i <= k < j ==> found[k].None?
    ensures FirstSome(found, i) == found[j].value
    decreases j - i
  {
    if i < j {
      FirstLineWins(found, i + 1, j);
    }
  }

  lemma {:induction false} NoneContribute(found: seq<Option<seq<string>>>, i: nat)
    requires i <= |found|
    requires forall k :: i <= k < |found| ==> found[k].None?
    ensures FirstSome(found, i) == []
    decreases |found| - i
  {
    if i < |found| {
      NoneContribute(found, i + 1);
    }
  }

  /**
   * The arguments come from the first line that contributes: the lexed text
   * after winws.exe in its expansion.
   */
  lemma FirstInvocationWins(content: string, exeFolder: string, j: nat)
    requires j < |Lines(content)|
    requires LineArguments(Lines(content)[j], CollectVars(Lines(content)), exeFolder).Some?
    requires forall k :: 0 <= k < j ==> LineArguments(Lines(content)[k], CollectVars(Lines(content)), exeFolder).None?
    ensures BatArguments(content, exeFolder) == LineArguments(Lines(content)[j], CollectVars(Lines(content)), exeFolder).value
  {
    var lines := Lines(content);
    FirstContributionWins(lines, CollectVars(lines), exeFolder, j);
  }

  lemma FirstContributionWins(lines: seq<string>, vars: Vars, exeFolder: string, j: nat)
    requires j < |lines|
    requires LineArguments(lines[j], vars, exeFolder).Some?
    requires forall k :: 0 <= k < j ==> LineArguments(lines[k], vars, exeFolder).None?
    ensures FirstSome(Contributions(lines, vars, exeFolder), 0) == LineArguments(lines[j], vars, exeFolder).value
  {
    var found := Contributions(lines, vars, exeFolder);
    ContributionAt(lines, vars, exeFolder, j);
    forall k | 0 <= k < j
      ensures found[k].None?
    {
      ContributionAt(lines, vars, exeFolder, k);
    }
    FirstLineWins(found, 0, j);
  }

  /** `line` is a `set` of a name equal to `name` ignoring case. */
  predicate AssignsTo(line: string, name: string)
  {
    SetAssignment(line).Some? && EqualsIgnoreCase(name, SetAssignment(line).value.0)
  }

  /** The last line assigning `name`, ignoring case, decides its value. */
  lemma {:induction false} LastAssignedAt(lines: seq<string>, k: nat, name: string)
    requires k < |lines| && AssignsTo(lines[k], name)
    requires forall m :: k < m < |lines| ==> !AssignsTo(lines[m], name)
    ensures LastAssigned(lines, name) == Some(SetAssignment(lines[k]).value.1)
    decreases |lines|
  {
    if k < |lines| - 1 {
      var init := lines[..|lines| - 1];
      forall m | k < m < |init|
        ensures !AssignsTo(init[m], name)
      {
        assert init[m] == lines[m];
      }
      assert init[k] == lines[k];
      LastAssignedAt(init, k, name);
      LastAssignedSkips(lines, name);
    } else {
      assert k == |lines| - 1;
      LastAssignedLast(lines, name);
    }
  }

  lemma LastAssignedSkips(lines: seq<string>, name: string)
    requires lines != [] && !AssignsTo(lines[|lines| - 1], name)
    ensures LastAssigned(lines, name) == LastAssigned(lines[..|lines| - 1], name)
  {
  }

  lemma LastAssignedLast(lines: seq<string>, name: string)
    requires lines != [] && AssignsTo(lines[|lines| - 1], name)
    ensures LastAssigned(lines, name) == Some(SetAssignment(lines[|lines| - 1]).value.1)
  {
  }

  /**
   * The dictionary is collected from the whole script before the invocation
   * line is expanded, so the assignment that supplies `%name%` may stand
   * anywhere, also after the invocation line: line `j`, whose candidate is
   * `pre %name% post`, contributes the arguments of `pre v post`, where `v`
   * is the value of the last `set` of a name equal to `name` ignoring case.
   */
  lemma AssignmentAfterInvocation(lines: seq<string>, j: nat, k: nat, pre: string, name: string, post: string, exeFolder: string)
    requires j < k < |lines|
    requires Candidate(lines[j]) == Some(pre + "%" + name + "%" + post)
    requires '%' !in pre && '%' !in name && '%' !in post
    requires AssignsTo(lines[k], name) && '%' !in SetAssignment(lines[k]).value.1
    requires forall m :: k < m < |lines| ==> !AssignsTo(lines[m], name)
    ensures LineArguments(lines[j], CollectVars(lines), exeFolder) ==
      ArgumentsAfterExe(pre + SetAssignment(lines[k]).value.1 + post)
  {
    LastAssignedAt(lines, k, name);
    CollectVarsLookup(lines, name);
    ExpandVariable(pre, name, post, CollectVars(lines), exeFolder);
  }

  lemma LineOfContent(content: string, k: nat)
    requires k < |Lines(content)|
    ensures IsInfix(Lines(content)[k], content)
  {
    var pieces := SplitOn(content, {'\r', '\n'});
    assert Lines(content)[k] in pieces;
    var m :| 0 <= m < |pieces| && pieces[m] == Lines(content)[k];
    SplitPieceIsInfix(content, {'\r', '\n'}, m);
  }

  /** A script that never mentions winws.exe, in any case, yields no arguments. */
  lemma NoInvocationNoArguments(content: string, exeFolder: string)
    requires !Contains(content, ExeName, true)
    ensures BatArguments(content, exeFolder) == []
  {
    var lines := Lines(content);
    var vars := CollectVars(lines);
    forall k | 0 <= k < |lines|
      ensures LineArguments(lines[k], vars, exeFolder).None?
    {
      LineOfContent(content, k);
      var c := Candidate(lines[k]);
      if c.Some? {
        CandidateInLine(lines[k]);
        InfixTrans(c.value, lines[k], content);
        ContainsInInfix(c.value, content, ExeName, true);
      }
    }
    forall k | 0 <= k < |lines|
      ensures Contributions(lines, vars, exeFolder)[k].None?
    {
      ContributionAt(lines, vars, exeFolder, k);
    }
    NoneContribute(Contributions(lines, vars, exeFolder), 0);
  }
}
