/**
 * ExpandBatVariables on a line with several `%name%` references. The line
 * is read as a template: plain pieces of text with references between
 * them. Each dictionary entry fills every reference to its key, ignoring
 * case, and leaves the rest of the line alone, as long as no text between
 * two references can itself be read as a `%key%`.
 */
module BatExpand {
  import opened Text
  import opened ArgLexer
  import opened BatScript

  /** A reference still written `%name%`, or the text that now stands in its place. */
  datatype Slot = Ref(name: string) | Filled(text: string)

  function SlotText(x: Slot): string
  {
    match x
    case Ref(n) => "%" + n + "%"
    case Filled(t) => t
  }

  predicate PlainSlot(x: Slot)
  {
    match x
    case Ref(n) => '%' !in n
    case Filled(t) => '%' !in t
  }

  /** The line `pieces[0] slots[0] pieces[1] … slots[k - 1] pieces[k]`. */
  function Render(pieces: seq<string>, slots: seq<Slot>): string
    requires |pieces| == |slots| + 1
    decreases |slots|
  {
    if slots == [] then pieces[0]
    else pieces[0] + SlotText(slots[0]) + Render(pieces[1..], slots[1..])
  }

  /** The references to `names` after the entries `vars`: filled where the dictionary holds the name, in any case. */
  function SlotsAfter(names: seq<string>, vars: Vars): (r: seq<Slot>)
    ensures |r| == |names|
  {
    seq(|names|, i requires 0 <= i < |names| =>
      match Lookup(vars, names[i])
      case Some(v) => Filled(v)
      case None => Ref(names[i]))
  }

  /** One entry `(key, v)`: every reference to `key`, in any case, becomes `v`. */
  function FillKey(slots: seq<Slot>, key: string, v: string): (r: seq<Slot>)
    ensures |r| == |slots|
  {
    seq(|slots|, i requires 0 <= i < |slots| =>
      if slots[i].Ref? && EqualsIgnoreCase(slots[i].name, key) then Filled(v) else slots[i])
  }

  predicate NotLetter(c: char)
  {
    !('A' <= c <= 'Z') && !('a' <= c <= 'z')
  }

  /**
   * The pieces hold no `%`; every piece between two references holds the
   * character `sep`, and so do the references and filled texts hold no `%`.
   */
  predicate Plain(pieces: seq<string>, slots: seq<Slot>, sep: char)
    requires |pieces| == |slots| + 1
  {
    (forall i :: 0 <= i < |pieces| ==> '%' !in pieces[i]) &&
    (forall i :: 0 < i < |slots| ==> sep in pieces[i]) &&
    (forall i :: 0 <= i < |slots| ==> PlainSlot(slots[i]))
  }

  // ---------------------------------------------------------------------
  // Where a `%key%` can match
  // ---------------------------------------------------------------------

  /** A match of `%key%` starts and ends at a `%`. */
  lemma PercentMatch(s: string, i: nat, key: string)
    ensures MatchAt(s, i, "%" + key + "%", true) ==> s[i] == '%' && s[i + |key| + 1] == '%'
  {
    var p := "%" + key + "%";
    if MatchAt(s, i, p, true) {
      MatchLower(s, i, p, 0);
      LowerNonLetter(s[i], '%');
      MatchLower(s, i, p, |key| + 1);
      LowerNonLetter(s[i + |key| + 1], '%');
    }
  }

  /** Between the two `%` of a match stand the key's characters up to case, and so no `%`. */
  lemma MatchInside(s: string, i: nat, key: string)
    requires '%' !in key
    ensures MatchAt(s, i, "%" + key + "%", true) ==>
      forall c :: i < c <= i + |key| ==> s[c] != '%' && Lower(s[c]) == Lower(key[c - i - 1])
  {
    if MatchAt(s, i, "%" + key + "%", true) {
      forall c | i < c <= i + |key|
        ensures s[c] != '%' && Lower(s[c]) == Lower(key[c - i - 1])
      {
        MatchInsideAt(s, i, key, c);
      }
    }
  }

  lemma MatchInsideAt(s: string, i: nat, key: string, c: nat)
    requires '%' !in key && MatchAt(s, i, "%" + key + "%", true) && i < c <= i + |key|
    ensures s[c] != '%' && Lower(s[c]) == Lower(key[c - i - 1])
  {
    var p := "%" + key + "%";
    MatchLower(s, i, p, c - i);
    assert p[c - i] == key[c - i - 1];
    LowerNonLetter(key[c - i - 1], '%');
  }

  /** Only a character that is no letter lower-cases to it. */
  lemma LowerFixes(sep: char)
    requires NotLetter(sep)
    ensures forall y {:trigger Lower(y)} :: Lower(y) == sep <==> y == sep
  {
    forall y
      ensures Lower(y) == sep <==> y == sep
    {
      LowerNonLetter(y, sep);
    }
  }

  /** `%key%` matches at a reference `%n%` only when `key` equals `n` ignoring case. */
  lemma RefMatch(n: string, rest: string, key: string)
    requires '%' !in n && '%' !in key
    ensures MatchAt("%" + n + "%" + rest, 0, "%" + key + "%", true) ==> EqualsIgnoreCase(n, key)
  {
    var s := "%" + n + "%" + rest;
    PercentMatch(s, 0, key);
    MatchInside(s, 0, key);
    if MatchAt(s, 0, "%" + key + "%", true) {
      assert s[|n| + 1] == '%';
      forall c | 0 <= c < |n|
        ensures LowerAll(n)[c] == LowerAll(key)[c]
      {
        assert s[1 + c] == n[c];
      }
    }
  }

  /** No `%key%` starts at a character other than `%`. */
  lemma NoMatchOffPercent(s: string, i: nat, key: string)
    requires i < |s| && s[i] != '%'
    ensures !MatchAt(s, i, "%" + key + "%", true)
  {
    PercentMatch(s, i, key);
  }

  /**
   * No `%key%` starts at the closing `%` of a reference: the text after it
   * either holds no `%` for the match to end on, or holds `sep`, which no
   * key does.
   */
  lemma NoMatchAtClose(n: string, first: string, more: string, key: string, sep: char)
    requires '%' !in first && '%' !in key && sep !in key && NotLetter(sep)
    requires more == [] || sep in first
    ensures !MatchAt("%" + n + "%" + (first + more), |n| + 1, "%" + key + "%", true)
  {
    var s := "%" + n + "%" + (first + more);
    PercentMatch(s, |n| + 1, key);
    MatchInside(s, |n| + 1, key);
    LowerFixes(sep);
    var p := "%" + key + "%";
    if more != [] {
      var c :| 0 <= c < |first| && first[c] == sep;
      assert s[|n| + 2 + c] == sep;
    }
  }

  /** A plain prefix holds no start of a `%key%` match. */
  lemma NoMatchInPlain(q: string, t: string, key: string)
    requires '%' !in q && '%' !in key
    ensures forall i :: 0 <= i < |q| ==> !MatchAt(q + t, i, "%" + key + "%", true)
  {
    forall i | 0 <= i < |q|
      ensures !MatchAt(q + t, i, "%" + key + "%", true)
    {
      NoMatchOffPercent(q + t, i, key);
    }
  }

  // ---------------------------------------------------------------------
  // One dictionary entry
  // ---------------------------------------------------------------------

  function FillOne(x: Slot, key: string, v: string): Slot
  {
    if x.Ref? && EqualsIgnoreCase(x.name, key) then Filled(v) else x
  }

  /**
   * A plain piece, one slot, then the rest of the line: the entry replaces
   * the slot if it is a matching reference, and goes on with the rest.
   */
  lemma SlotStep(q: string, x: Slot, first: string, more: string, key: string, v: string, sep: char)
    requires '%' !in q && PlainSlot(x) && '%' !in first && '%' !in key && sep !in key && NotLetter(sep)
    requires more == [] || sep in first
    ensures ReplaceAll(q + SlotText(x) + (first + more), "%" + key + "%", v, true) ==
      q + SlotText(FillOne(x, key, v)) + ReplaceAll(first + more, "%" + key + "%", v, true)
  {
    if x.Ref? && EqualsIgnoreCase(x.name, key) {
      MatchingRefStep(q, x.name, first + more, key, v);
    } else {
      SlotNoMatch(x, first, more, key, sep);
      KeptBeforeRest(q, SlotText(x), first + more, key, v);
    }
  }

  /** A reference to `key` in any case: replaced by `v`. */
  lemma MatchingRefStep(q: string, n: string, r: string, key: string, v: string)
    requires '%' !in q && '%' !in key && EqualsIgnoreCase(n, key)
    ensures ReplaceAll(q + ("%" + n + "%") + r, "%" + key + "%", v, true) == q + v + ReplaceAll(r, "%" + key + "%", v, true)
  {
    var p := "%" + key + "%";
    var x := "%" + n + "%";
    NoMatchInPlain(q, x + r, key);
    ReplaceKeepsPrefix(q, x + r, p, v, true);
    assert q + x + r == q + (x + r);
    PatternIgnoreCase(n, key);
    assert |n| == |key| by {
      assert |LowerAll(n)| == |LowerAll(key)|;
    }
    assert (x + r)[..|p|] == x && (x + r)[|p|..] == r;
  }

  /** Any other slot holds no start of a `%key%` match. */
  lemma SlotNoMatch(x: Slot, first: string, more: string, key: string, sep: char)
    requires PlainSlot(x) && '%' !in first && '%' !in key && sep !in key && NotLetter(sep)
    requires more == [] || sep in first
    requires !(x.Ref? && EqualsIgnoreCase(x.name, key))
    ensures forall i :: 0 <= i < |SlotText(x)| ==> !MatchAt(SlotText(x) + (first + more), i, "%" + key + "%", true)
  {
    var r := first + more;
    match x
    case Filled(t) =>
      NoMatchInPlain(t, r, key);
    case Ref(n) =>
      var s := SlotText(x) + r;
      assert s == "%" + n + "%" + r;
      RefMatch(n, r, key);
      forall i | 0 < i < |SlotText(x)|
        ensures !MatchAt(s, i, "%" + key + "%", true)
      {
        if i <= |n| {
          assert s[i] == n[i - 1];
          NoMatchOffPercent(s, i, key);
        } else {
          NoMatchAtClose(n, first, more, key, sep);
        }
      }
  }

  /** A plain piece and a slot that holds no match: both are kept, and the entry goes on with the rest. */
  lemma KeptBeforeRest(q: string, y: string, r: string, key: string, v: string)
    requires '%' !in q && '%' !in key
    requires forall i :: 0 <= i < |y| ==> !MatchAt(y + r, i, "%" + key + "%", true)
    ensures ReplaceAll(q + y + r, "%" + key + "%", v, true) == q + y + ReplaceAll(r, "%" + key + "%", v, true)
  {
    var p := "%" + key + "%";
    var s := q + y + r;
    forall i | 0 <= i < |q + y|
      ensures !MatchAt((q + y) + r, i, p, true)
    {
      if i < |q| {
        assert s[i] == q[i];
        NoMatchOffPercent(s, i, key);
      } else {
        ShiftedMatch(q, y + r, p, i - |q|);
        assert q + (y + r) == s;
      }
    }
    ReplaceKeepsPrefix(q + y, r, p, v, true);
  }

  /** A match after a prefix `q` is a match in the text after it. */
  lemma ShiftedMatch(q: string, t: string, p: string, j: nat)
    ensures MatchAt(q + t, |q| + j, p, true) <==> MatchAt(t, j, p, true)
  {
    if |q| + j + |p| <= |q + t| {
      assert (q + t)[|q| + j..|q| + j + |p|] == t[j..j + |p|];
    }
  }

  /** The pieces after the first, with their slots, are again plain. */
  lemma PlainTail(pieces: seq<string>, slots: seq<Slot>, sep: char)
    requires |pieces| == |slots| + 1 && slots != [] && Plain(pieces, slots, sep)
    ensures Plain(pieces[1..], slots[1..], sep)
  {
    assert forall i :: 0 <= i < |pieces[1..]| ==> pieces[1..][i] == pieces[i + 1];
    assert forall i :: 0 <= i < |slots[1..]| ==> slots[1..][i] == slots[i + 1];
  }

  /** What a plain template says about its first slot and the pieces around it. */
  lemma PlainHead(pieces: seq<string>, slots: seq<Slot>, sep: char)
    requires |pieces| == |slots| + 1 && slots != [] && Plain(pieces, slots, sep)
    ensures '%' !in pieces[0] && '%' !in pieces[1] && PlainSlot(slots[0])
    ensures |slots| > 1 ==> sep in pieces[1]
  {
  }

  /** The text after the first slot starts with the second piece. */
  lemma RenderAfterFirst(pieces: seq<string>, slots: seq<Slot>)
    requires |pieces| == |slots| + 1 && slots != []
    ensures Render(pieces[1..], slots[1..]) ==
      pieces[1] + (if |slots| == 1 then [] else SlotText(slots[1]) + Render(pieces[2..], slots[2..]))
  {
    assert pieces[1..][0] == pieces[1];
    if |slots| > 1 {
      assert pieces[1..][1..] == pieces[2..] && slots[1..][1..] == slots[2..];
    }
  }

  lemma FillKeyCons(slots: seq<Slot>, key: string, v: string)
    requires slots != []
    ensures FillKey(slots, key, v)[0] == FillOne(slots[0], key, v)
    ensures FillKey(slots, key, v)[1..] == FillKey(slots[1..], key, v)
  {
  }

  /** One entry `(key, v)` fills exactly the references to `key`, in any case, and keeps the rest of the line. */
  lemma {:induction false} ReplaceRender(pieces: seq<string>, slots: seq<Slot>, key: string, v: string, sep: char)
    requires |pieces| == |slots| + 1 && Plain(pieces, slots, sep)
    requires '%' !in key && sep !in key && NotLetter(sep)
    ensures ReplaceAll(Render(pieces, slots), "%" + key + "%", v, true) == Render(pieces, FillKey(slots, key, v))
    decreases |slots|
  {
    var p := "%" + key + "%";
    if slots == [] {
      AbsentCharNoMatch(pieces[0], p, 0);
      ReplaceAbsent(pieces[0], p, v, true);
    } else {
      PlainTail(pieces, slots, sep);
      ReplaceRender(pieces[1..], slots[1..], key, v, sep);
      FillKeyCons(slots, key, v);
      PlainHead(pieces, slots, sep);
      var more := if |slots| == 1 then [] else SlotText(slots[1]) + Render(pieces[2..], slots[2..]);
      RenderAfterFirst(pieces, slots);
      SlotStep(pieces[0], slots[0], pieces[1], more, key, v, sep);
    }
  }

  // ---------------------------------------------------------------------
  // The whole dictionary
  // ---------------------------------------------------------------------

  /** Adding an entry at the end changes the lookup only of names the dictionary did not hold. */
  lemma LookupStep(vars: Vars, name: string)
    requires vars != []
    ensures Lookup(vars, name) ==
      match Lookup(vars[..|vars| - 1], name)
      case Some(v) => Some(v)
      case None => if EqualsIgnoreCase(vars[|vars| - 1].0, name) then Some(vars[|vars| - 1].1) else None
  {
    var init := vars[..|vars| - 1];
    assert forall j :: 0 <= j < |init| ==> init[j] == vars[j];
    match KeyFrom(init, name, 0)
    case Some(i) =>
      assert EqualsIgnoreCase(vars[i].0, name);
    case None =>
  }

  /** An entry of a prefix of the dictionary is the entry of the whole dictionary. */
  lemma {:induction false} LookupPrefix(vars: Vars, j: nat, name: string)
    requires j <= |vars| && Lookup(vars[..j], name).Some?
    ensures Lookup(vars, name) == Lookup(vars[..j], name)
    decreases |vars| - j
  {
    if j < |vars| {
      assert vars[..j + 1][..j] == vars[..j];
      LookupStep(vars[..j + 1], name);
      LookupPrefix(vars, j + 1, name);
    } else {
      assert vars[..j] == vars;
    }
  }

  /** The conditions under which the dictionary pass fills a template reference by reference. */
  predicate Expandable(pieces: seq<string>, names: seq<string>, vars: Vars, sep: char)
  {
    |pieces| == |names| + 1 && NotLetter(sep) &&
    (forall i :: 0 <= i < |pieces| ==> '%' !in pieces[i]) &&
    (forall i :: 0 < i < |names| ==> sep in pieces[i]) &&
    (forall i :: 0 <= i < |names| ==> '%' !in names[i]) &&
    (forall k :: 0 <= k < |vars| ==> '%' !in vars[k].0 && sep !in vars[k].0) &&
    (forall i :: 0 <= i < |names| && Lookup(vars, names[i]).Some? ==> '%' !in Lookup(vars, names[i]).value)
  }

  /** The conditions hold for every prefix of the dictionary. */
  lemma ExpandablePrefix(pieces: seq<string>, names: seq<string>, vars: Vars, sep: char, j: nat)
    requires Expandable(pieces, names, vars, sep) && j <= |vars|
    ensures Expandable(pieces, names, vars[..j], sep)
  {
    forall i | 0 <= i < |names| && Lookup(vars[..j], names[i]).Some?
      ensures '%' !in Lookup(vars[..j], names[i]).value
    {
      LookupPrefix(vars, j, names[i]);
    }
  }

  /** The template's slots after any dictionary are plain. */
  lemma SlotsPlain(pieces: seq<string>, names: seq<string>, vars: Vars, sep: char)
    requires Expandable(pieces, names, vars, sep)
    ensures Plain(pieces, SlotsAfter(names, vars), sep)
  {
    forall i | 0 <= i < |names|
      ensures PlainSlot(SlotsAfter(names, vars)[i])
    {
    }
  }

  /**
   * The dictionary pass on a template: after the entries `vars`, every
   * reference whose name the dictionary holds, in any case, has become the
   * stored value, and every other reference and all the text around them
   * are unchanged.
   */
  lemma {:induction false} ExpandVarsRender(pieces: seq<string>, names: seq<string>, vars: Vars, sep: char)
    requires Expandable(pieces, names, vars, sep)
    ensures ExpandVars(Render(pieces, SlotsAfter(names, [])), vars) == Render(pieces, SlotsAfter(names, vars))
    decreases |vars|
  {
    if vars == [] {
    } else {
      var init := vars[..|vars| - 1];
      var last := vars[|vars| - 1];
      ExpandablePrefix(pieces, names, vars, sep, |vars| - 1);
      ExpandVarsRender(pieces, names, init, sep);
      SlotsPlain(pieces, names, init, sep);
      ReplaceRender(pieces, SlotsAfter(names, init), last.0, last.1, sep);
      FillLastEntry(names, vars);
    }
  }

  /** The last entry of the dictionary fills what the entries before it left as references to its key. */
  lemma FillLastEntry(names: seq<string>, vars: Vars)
    requires vars != []
    ensures FillKey(SlotsAfter(names, vars[..|vars| - 1]), vars[|vars| - 1].0, vars[|vars| - 1].1) == SlotsAfter(names, vars)
  {
    var init := vars[..|vars| - 1];
    var last := vars[|vars| - 1];
    forall i | 0 <= i < |names|
      ensures FillKey(SlotsAfter(names, init), last.0, last.1)[i] == SlotsAfter(names, vars)[i]
    {
      LookupStep(vars, names[i]);
    }
  }

  /** A template whose slots are all filled with text without `%` holds no `%`. */
  lemma {:induction false} RenderPercentFree(pieces: seq<string>, slots: seq<Slot>)
    requires |pieces| == |slots| + 1
    requires forall i :: 0 <= i < |pieces| ==> '%' !in pieces[i]
    requires forall i :: 0 <= i < |slots| ==> slots[i].Filled? && '%' !in slots[i].text
    ensures '%' !in Render(pieces, slots)
    decreases |slots|
  {
    if slots != [] {
      assert forall i :: 0 <= i < |pieces[1..]| ==> pieces[1..][i] == pieces[i + 1];
      assert forall i :: 0 <= i < |slots[1..]| ==> slots[1..][i] == slots[i + 1];
      RenderPercentFree(pieces[1..], slots[1..]);
    }
  }

  /**
   * ExpandBatVariables on a line `t0 %n1% t1 … %nk% tk` whose names the
   * dictionary all holds: the line becomes `t0 v1 t1 … vk tk`, each `vi`
   * the value stored under `ni` ignoring case. No piece, name, key or value
   * holds `%`, and every piece between two references holds a character
   * `sep`, no letter, that no key holds.
   */
  lemma ExpandTemplate(pieces: seq<string>, names: seq<string>, vars: Vars, exeFolder: string, sep: char)
    requires Expandable(pieces, names, vars, sep)
    requires forall i :: 0 <= i < |names| ==> Lookup(vars, names[i]).Some?
    ensures Expand(Render(pieces, SlotsAfter(names, [])), vars, exeFolder) == Render(pieces, SlotsAfter(names, vars))
    ensures forall i :: 0 <= i < |names| ==> SlotsAfter(names, vars)[i] == Filled(Lookup(vars, names[i]).value)
  {
    ExpandVarsRender(pieces, names, vars, sep);
    RenderPercentFree(pieces, SlotsAfter(names, vars));
    ExpandPercentAfterVars(Render(pieces, SlotsAfter(names, vars)), exeFolder);
  }

  /** A template of two references. */
  lemma RenderTwo(pre: string, mid: string, post: string, x: Slot, y: Slot)
    ensures Render([pre, mid, post], [x, y]) == pre + SlotText(x) + mid + SlotText(y) + post
  {
    RenderOne(mid, post, y);
    assert [pre, mid, post][1..] == [mid, post] && [x, y][1..] == [y];
  }

  lemma RenderOne(mid: string, post: string, y: Slot)
    ensures Render([mid, post], [y]) == mid + SlotText(y) + post
  {
    assert [mid, post][1..] == [post] && [y][1..] == [];
  }

  /**
   * Two references separated by text holding a blank, as in
   * `"%BIN%" %ARGS% …`: both are replaced by their values.
   */
  lemma ExpandTwoReferences(pre: string, n1: string, mid: string, n2: string, post: string, vars: Vars, exeFolder: string)
    requires '%' !in pre && '%' !in mid && '%' !in post && '%' !in n1 && '%' !in n2 && ' ' in mid
    requires forall k :: 0 <= k < |vars| ==> '%' !in vars[k].0 && ' ' !in vars[k].0
    requires Lookup(vars, n1).Some? && '%' !in Lookup(vars, n1).value
    requires Lookup(vars, n2).Some? && '%' !in Lookup(vars, n2).value
    ensures Expand(pre + ("%" + n1 + "%") + mid + ("%" + n2 + "%") + post, vars, exeFolder) ==
      pre + Lookup(vars, n1).value + mid + Lookup(vars, n2).value + post
  {
    var pieces := [pre, mid, post];
    var names := [n1, n2];
    var v1, v2 := Lookup(vars, n1).value, Lookup(vars, n2).value;
    TwoExpandable(pre, n1, mid, n2, post, vars);
    ExpandTemplate(pieces, names, vars, exeFolder, ' ');
    TwoSlots(n1, n2, vars);
    RenderTwo(pre, mid, post, Ref(n1), Ref(n2));
    RenderTwo(pre, mid, post, Filled(v1), Filled(v2));
  }

  lemma TwoExpandable(pre: string, n1: string, mid: string, n2: string, post: string, vars: Vars)
    requires '%' !in pre && '%' !in mid && '%' !in post && '%' !in n1 && '%' !in n2 && ' ' in mid
    requires forall k :: 0 <= k < |vars| ==> '%' !in vars[k].0 && ' ' !in vars[k].0
    requires Lookup(vars, n1).Some? && '%' !in Lookup(vars, n1).value
    requires Lookup(vars, n2).Some? && '%' !in Lookup(vars, n2).value
    ensures Expandable([pre, mid, post], [n1, n2], vars, ' ')
    ensures forall i :: 0 <= i < |[n1, n2]| ==> Lookup(vars, [n1, n2][i]).Some?
  {
  }

  lemma TwoSlots(n1: string, n2: string, vars: Vars)
    requires Lookup(vars, n1).Some? && Lookup(vars, n2).Some?
    ensures SlotsAfter([n1, n2], []) == [Ref(n1), Ref(n2)]
    ensures SlotsAfter([n1, n2], vars) == [Filled(Lookup(vars, n1).value), Filled(Lookup(vars, n2).value)]
  {
  }

  /** The text after the two references of the sample invocation line. */
  const ExampleTail := " --hostlist=other.txt --new --filter-tcp=443"

  lemma ExamplePlain()
    ensures "%BIN%" == "%" + "BIN" + "%" && "%ARGS%" == "%" + "ARGS" + "%"
    ensures ' ' in "\" " && '%' !in ExampleTail && '%' !in "--wf-tcp=80,443 --wf-udp=443"
  {
    assert ("\" ")[1] == ' ';
  }

  /**
   * The line `"%BIN%" %ARGS% --hostlist=other.txt --new --filter-tcp=443`
   * of the sample script, with `BIN` and `ARGS` set as its `set` lines set them.
   */
  lemma ExpandExampleLine(vars: Vars, exeFolder: string)
    requires forall k :: 0 <= k < |vars| ==> '%' !in vars[k].0 && ' ' !in vars[k].0
    requires Lookup(vars, "BIN") == Some("winws.exe")
    requires Lookup(vars, "ARGS") == Some("--wf-tcp=80,443 --wf-udp=443")
    ensures Expand("\"" + "%BIN%" + "\" " + "%ARGS%" + ExampleTail, vars, exeFolder) ==
      "\"" + "winws.exe" + "\" " + "--wf-tcp=80,443 --wf-udp=443" + ExampleTail
  {
    ExamplePlain();
    ExpandTwoReferences("\"", "BIN", "\" ", "ARGS", ExampleTail, vars, exeFolder);
  }

  /**
   * The text between two references is itself read as a reference when
   * the dictionary holds it: in `%a%b%c%` the entry for `b` matches the
   * `%b%` formed by the `%` that closes `%a%` and the `%` that opens
   * `%c%`, which leaves `%a` and `c%` behind.
   */
  lemma TextBetweenReferences(a: string, b: string, c: string, x: string)
    requires '%' !in a && '%' !in b && '%' !in c
    requires !EqualsIgnoreCase(a, b)
    ensures ExpandVars("%" + a + "%" + b + "%" + c + "%", [(b, x)]) == "%" + a + x + c + "%"
  {
    var s := "%" + a + "%" + b + "%" + c + "%";
    var pre, mid, post := "%" + a, "%" + b + "%", c + "%";
    assert s == pre + mid + post;
    assert [(b, x)][..0] == [];
    assert ExpandVars(s, [(b, x)]) == ReplaceAll(s, mid, x, true);
    BetweenReplaced(a, b, c, x);
    assert pre + x + post == "%" + a + x + c + "%";
  }

  lemma BetweenReplaced(a: string, b: string, c: string, x: string)
    requires '%' !in a && '%' !in b && '%' !in c
    requires !EqualsIgnoreCase(a, b)
    ensures ReplaceAll(("%" + a) + ("%" + b + "%") + (c + "%"), "%" + b + "%", x, true) == ("%" + a) + x + (c + "%")
  {
    var pre, mid, post := "%" + a, "%" + b + "%", c + "%";
    assert pre + mid + post == "%" + a + "%" + (b + "%" + c + "%");
    PrefixOfFirstReference(a, b + "%" + c + "%", b);
    OnePercentNoMatch(post, |c|, b);
    PatternIgnoreCase(b, b);
    ReplaceOnce(pre, mid, post, mid, x, true);
  }

  /** No `%b%` starts inside `%a` when `b` differs from `a` ignoring case. */
  lemma PrefixOfFirstReference(a: string, rest: string, b: string)
    requires '%' !in a && '%' !in b && !EqualsIgnoreCase(a, b)
    ensures forall i :: 0 <= i < |a| + 1 ==> !MatchAt("%" + a + "%" + rest, i, "%" + b + "%", true)
  {
    var s := "%" + a + "%" + rest;
    RefMatch(a, rest, b);
    forall i | 0 < i < |a| + 1
      ensures !MatchAt(s, i, "%" + b + "%", true)
    {
      assert s[i] == a[i - 1];
      NoMatchOffPercent(s, i, b);
    }
  }

  // ---------------------------------------------------------------------
  // Dictionaries read from a script
  // ---------------------------------------------------------------------

  /** The name of an assignment ends before its first `=`, so it holds none. */
  lemma NameHasNoEquals(assignment: string)
    ensures NameAndValue(assignment).Some? ==> '=' !in NameAndValue(assignment).value.0
  {
    match IndexOf(assignment, "=", false)
    case None =>
    case Some(e) =>
      if e > 0 {
        BeforeFirstEquals(assignment, e);
        InfixLacks(Trim(assignment[..e]), assignment[..e], '=');
      }
  }

  lemma BeforeFirstEquals(assignment: string, e: nat)
    requires IndexOf(assignment, "=", false) == Some(e)
    ensures '=' !in assignment[..e]
  {
    forall j | 0 <= j < e
      ensures assignment[..e][j] != '='
    {
      assert !MatchAt(assignment, j, "=", false);
      assert assignment[j..j + 1] == [assignment[j]];
    }
  }

  /** A character missing from `s` is missing from every infix of it. */
  lemma InfixLacks(r: string, s: string, c: char)
    requires IsInfix(r, s) && c !in s
    ensures c !in r
  {
    var i :| 0 <= i && InfixAt(r, s, i);
    forall k | 0 <= k < |r|
      ensures r[k] != c
    {
      assert r[k] == s[i..i + |r|][k] == s[i + k];
    }
  }

  /** A `set` line names a variable without `=`. */
  lemma SetNameHasNoEquals(line: string)
    ensures SetAssignment(line).Some? ==> '=' !in SetAssignment(line).value.0
  {
    if StartsWithIgnoreCase(Trim(line), "set ") {
      NameHasNoEquals(Trim(Trim(line)[4..]));
    }
  }

  /** Assigning a name without `=` keeps every key free of `=`. */
  lemma AssignKeysNoEquals(vars: Vars, name: string, value: string)
    requires '=' !in name && forall k :: 0 <= k < |vars| ==> '=' !in vars[k].0
    ensures forall k :: 0 <= k < |Assign(vars, name, value)| ==> '=' !in Assign(vars, name, value)[k].0
  {
    var r := Assign(vars, name, value);
    match KeyFrom(vars, name, 0)
    case None =>
      assert forall k :: 0 <= k < |vars| ==> r[k] == vars[k];
    case Some(i) =>
      assert forall k :: 0 <= k < |vars| ==> r[k].0 == vars[k].0;
  }

  /** No key of a dictionary read from a script holds `=`: `=` can always separate references. */
  lemma {:induction false} ParsedKeysHaveNoEquals(lines: seq<string>)
    ensures forall k :: 0 <= k < |CollectVars(lines)| ==> '=' !in CollectVars(lines)[k].0
    decreases |lines|
  {
    if lines != [] {
      var init := lines[..|lines| - 1];
      ParsedKeysHaveNoEquals(init);
      SetNameHasNoEquals(lines[|lines| - 1]);
      match SetAssignment(lines[|lines| - 1])
      case None =>
      case Some(a) =>
        AssignKeysNoEquals(CollectVars(init), a.0, a.1);
    }
  }

  // ---------------------------------------------------------------------
  // The sample script
  // ---------------------------------------------------------------------

  /** Every match of `winws.exe` has its `.` five characters in. */
  lemma ExeDot(s: string, j: nat)
    ensures MatchAt(s, j, ExeName, true) ==> s[j + 5] == '.'
  {
    if MatchAt(s, j, ExeName, true) {
      MatchLower(s, j, ExeName, 5);
      LowerNonLetter(s[j + 5], '.');
    }
  }

  /** A line starting with `@` is not skipped, and its `@` is stripped. */
  lemma AtLineKept(s: string)
    requires s != [] && s[0] == '@'
    ensures !IsSkipped(s) && StartsWith(s, "@")
  {
    assert !StartsWithIgnoreCase(s, "rem") by {
      if |s| >= 3 {
        assert LowerAll(s[..3])[0] == Lower('@') != LowerAll("rem")[0];
      }
    }
    assert !StartsWith(s, "::") by {
      if |s| >= 2 {
        assert s[..2][0] != "::"[0];
      }
    }
    assert !StartsWith(s, ":") by {
      assert s[..1][0] != ":"[0];
    }
    assert s[..1] == "@";
  }

  /** `@echo off` is not skipped: it is trimmed already and starts with `@`. */
  lemma EchoOffKept(line: string)
    requires line == "@echo off"
    ensures Trim(line) == line && !IsSkipped(line) && StartsWith(line, "@")
  {
    assert line[0] == '@' && line[|line| - 1] == 'f';
    TrimUnchanged(line);
    AtLineKept(line);
  }

  /** What follows the `@` of `@echo off` is too short to hold `winws.exe`. */
  lemma EchoOffRest(line: string)
    requires line == "@echo off"
    ensures Trim(line[1..]) == line[1..] && !Contains(line[1..], ExeName, true)
  {
    TrimUnchanged(line[1..]);
    assert |line[1..]| < |ExeName|;
  }

  /** `@echo off` is no invocation line: it does not mention `winws.exe`. */
  lemma EchoOffIgnored(line: string, vars: Vars, exeFolder: string)
    requires line == "@echo off"
    ensures LineArguments(line, vars, exeFolder).None?
  {
    EchoOffKept(line);
    EchoOffRest(line);
    assert Candidate(line).None?;
  }

  /** The first `.` of `set BIN=winws.exe` is its fourteenth character. */
  lemma SetLineFirstDot(line: string)
    requires line == "set BIN=winws.exe"
    ensures forall j :: 0 <= j < 13 ==> line[j] != '.'
  {
  }

  /** `winws.exe` first occurs in `set BIN=winws.exe` at index 8. */
  lemma SetLineIndex(line: string)
    requires line == "set BIN=winws.exe"
    ensures IndexOf(line, ExeName, true) == Some(8)
  {
    assert line[8..17] == ExeName;
    assert MatchAt(line, 8, ExeName, true);
    SetLineFirstDot(line);
    forall j | 0 <= j < 8
      ensures !MatchAt(line, j, ExeName, true)
    {
      ExeDot(line, j);
    }
  }

  /** `set BIN=winws.exe` is its own invocation candidate. */
  lemma SetLineCandidate(line: string)
    requires line == "set BIN=winws.exe"
    ensures Candidate(line) == Some(line)
  {
    TrimUnchanged(line);
    SetLineIndex(line);
    ContainsAt(line, ExeName, true, 8);
    assert StartsWithIgnoreCase(line, "set ") by {
      assert line[..4] == "set ";
    }
    SetLineIsCandidate(line);
  }

  /** Nothing follows `winws.exe` in `set BIN=winws.exe`, so its expansion gives no arguments. */
  lemma SetLineExpanded(line: string, vars: Vars, exeFolder: string)
    requires line == "set BIN=winws.exe"
    ensures ExpandedArguments(line, vars, exeFolder) == Some([])
  {
    ExpandPercentFree(line, vars, exeFolder);
    SetLineIndex(line);
    assert line[8 + |ExeName|..] == [];
    assert Trim([]) == [] && Tokens([]) == [];
  }

  /** `set BIN=winws.exe` mentions `winws.exe`, so it is an invocation line, and nothing follows the name. */
  lemma SetLineInvokes(line: string, vars: Vars, exeFolder: string)
    requires line == "set BIN=winws.exe"
    ensures LineArguments(line, vars, exeFolder) == Some([])
  {
    SetLineCandidate(line);
    SetLineExpanded(line, vars, exeFolder);
  }

  /**
   * ParseBatFile's second pass on the sample script yields no
   * arguments, under any dictionary: its second line, `set BIN=winws.exe`,
   * is the first to mention `winws.exe`. What the later lines say does not
   * matter.
   */
  lemma ExampleScriptArguments(lines: seq<string>, vars: Vars, exeFolder: string)
    requires |lines| >= 2 && lines[0] == "@echo off" && lines[1] == "set BIN=winws.exe"
    ensures FirstSome(Contributions(lines, vars, exeFolder), 0) == []
  {
    EchoOffIgnored(lines[0], vars, exeFolder);
    SetLineInvokes(lines[1], vars, exeFolder);
    assert forall k :: 0 <= k < 1 ==> LineArguments(lines[k], vars, exeFolder).None? by {
      forall k | 0 <= k < 1
        ensures LineArguments(lines[k], vars, exeFolder).None?
      {
        assert k == 0;
      }
    }
    FirstContributionWins(lines, vars, exeFolder, 1);
  }
}
