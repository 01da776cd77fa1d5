/**
 * HostsService: appends the proxy-domain table to the Windows hosts file,
 * filters those entries out again, and tells whether any of them is active.
 * The file is a value the operations read and, on success, replace.
 */
module HostsService {
  import opened Text

  /** The hosts file: absent, or present with its text; `writable` is false where writing it throws. */
  datatype HostsFile = Missing | Present(text: string, writable: bool)

  /** The `_proxyDomains` dictionary, in its enumeration order: domain and address. */
  const ProxyDomains: seq<(string, string)> := [
    ("chat.openai.com", "127.0.0.1"),
    ("api.openai.com", "127.0.0.1"),
    ("openai.com", "127.0.0.1"),
    ("spotify.com", "127.0.0.1"),
    ("www.spotify.com", "127.0.0.1"),
    ("twitch.tv", "127.0.0.1"),
    ("www.twitch.tv", "127.0.0.1")
  ]

  /** `_proxyDomains.ContainsKey(d)`: the dictionary compares keys ordinally. */
  predicate IsProxyDomain(table: seq<(string, string)>, d: string)
  {
    exists j :: 0 <= j < |table| && table[j].0 == d
  }

  // ---------------------------------------------------------------------
  // AddProxyDomainsAsync
  // ---------------------------------------------------------------------

  /** The hosts line written for one table entry, without its line feed. */
  function EntryLine(e: (string, string)): string
  {
    e.1 + " " + e.0
  }

  /** The entry lines of `table`, each followed by a line feed. */
  function EntryText(table: seq<(string, string)>): string
  {
    if table == [] then []
    else EntryText(table[..|table| - 1]) + EntryLine(table[|table| - 1]) + "\n"
  }

  /** What the old content becomes before the entries: trailing white space dropped, then a blank line unless nothing is left. */
  function Kept(content: string): string
  {
    var t := TrimEnd(content);
    if t == [] then [] else t + "\n\n"
  }

  /** The text AddProxyDomainsAsync writes. */
  function Added(content: string, table: seq<(string, string)>): string
  {
    Kept(content) + EntryText(table)
  }

  // ---------------------------------------------------------------------
  // RemoveProxyDomainsAsync
  // ---------------------------------------------------------------------

  /** The space/tab separated fields of a trimmed line, empty fields removed. */
  function Fields(trimmed: string): seq<string>
  {
    NonEmpty(SplitOn(trimmed, {' ', '\t'}))
  }

  /**
   * A line survives unless, trimmed, it is neither blank nor a `#` comment
   * and its second field is one of the proxy domains.
   */
  predicate Survives(line: string, table: seq<(string, string)>)
  {
    var t := Trim(line);
    t == [] || StartsWith(t, "#") || |Fields(t)| < 2 || !IsProxyDomain(table, Fields(t)[1])
  }

  /** The lines satisfying `p`, in their order. */
  function Filter(lines: seq<string>, p: string -> bool): seq<string>
  {
    if lines == [] then []
    else Filter(lines[..|lines| - 1], p) + (if p(lines[|lines| - 1]) then [lines[|lines| - 1]] else [])
  }

  /** The surviving lines, in their order. */
  function Surviving(lines: seq<string>, table: seq<(string, string)>): seq<string>
  {
    Filter(lines, line => Survives(line, table))
  }

  /** The text RemoveProxyDomainsAsync writes. */
  function Removed(content: string, table: seq<(string, string)>): string
  {
    Join(Surviving(SplitOn(content, {'\n'}), table), "\n")
  }

  // ---------------------------------------------------------------------
  // IsProxyDomainsActive
  // ---------------------------------------------------------------------

  /** A line activates `domain` when, trimmed, it is no `#` comment and holds `domain`. */
  predicate Activates(line: string, domain: string)
  {
    !StartsWith(Trim(line), "#") && Contains(Trim(line), domain, false)
  }

  /** Some line of `lines` satisfies `p`. */
  predicate AnyLine(lines: seq<string>, p: string -> bool)
  {
    lines != [] && (AnyLine(lines[..|lines| - 1], p) || p(lines[|lines| - 1]))
  }

  /** AnyLine means what it says. */
  lemma {:induction false} AnyLineExists(lines: seq<string>, p: string -> bool)
    ensures AnyLine(lines, p) <==> exists k :: 0 <= k < |lines| && p(lines[k])
  {
    if lines != [] {
      var init := lines[..|lines| - 1];
      AnyLineExists(init, p);
      if AnyLine(init, p) {
        var k :| 0 <= k < |init| && p(init[k]);
        assert lines[k] == init[k];
      }
      forall k | 0 <= k < |init| && p(lines[k])
        ensures AnyLine(init, p)
      {
        assert init[k] == lines[k];
      }
    }
  }

  /** Some line of `content` activates `domain`. */
  predicate ActivatedBy(content: string, domain: string)
  {
    AnyLine(SplitOn(content, {'\n'}), line => Activates(line, domain))
  }

  /** Some proxy domain is activated by some line of `content`. */
  predicate Active(content: string, table: seq<(string, string)>)
  {
    exists j :: 0 <= j < |table| && ActivatedBy(content, table[j].0)
  }

  // ---------------------------------------------------------------------
  // The service
  // ---------------------------------------------------------------------

  /** The service; `proxyDomains` is its readonly `_proxyDomains` table. */
  class Service {
    const proxyDomains: seq<(string, string)>

    constructor()
      ensures proxyDomains == ProxyDomains
    {
      proxyDomains := ProxyDomains;
    }

    /** AddProxyDomainsAsync: the result and the hosts file afterwards. */
    method AddProxyDomains(hosts: HostsFile) returns (ok: bool, after: HostsFile)
      ensures ok <==> hosts.Present? && hosts.writable
      ensures after == if ok then Present(Added(hosts.text, proxyDomains), true) else hosts
    {
      if !hosts.Present? {
        return false, hosts;
      }
      var content := hosts.text;
      var newContent := TrimEnd(content);
      if newContent != [] {
        newContent := newContent + "\n\n";
      }
      assert newContent == Kept(content) + EntryText([]);
      for i := 0 to |proxyDomains|
        invariant newContent == Kept(content) + EntryText(proxyDomains[..i])
      {
        assert proxyDomains[..i + 1][..i] == proxyDomains[..i];
        var domain := proxyDomains[i];
        newContent := newContent + domain.1 + " " + domain.0 + "\n";
      }
      assert proxyDomains[..|proxyDomains|] == proxyDomains;
      if !hosts.writable {
        return false, hosts;
      }
      return true, Present(newContent, true);
    }

    /** RemoveProxyDomainsAsync: the result and the hosts file afterwards. */
    method RemoveProxyDomains(hosts: HostsFile) returns (ok: bool, after: HostsFile)
      ensures ok <==> hosts.Present? && hosts.writable
      ensures after == if ok then Present(Removed(hosts.text, proxyDomains), true) else hosts
    {
      if !hosts.Present? {
        return false, hosts;
      }
      var content := hosts.text;
      var lines := SplitOn(content, {'\n'});
      var newLines := [];
      for i := 0 to |lines|
        invariant newLines == Surviving(lines[..i], proxyDomains)
      {
        assert lines[..i + 1][..i] == lines[..i];
        var line := lines[i];
        var keep := SurvivesLine(line);
        if keep {
          newLines := newLines + [line];
        }
      }
      assert lines[..|lines|] == lines;
      var newContent := Join(newLines, "\n");
      if !hosts.writable {
        return false, hosts;
      }
      return true, Present(newContent, true);
    }

    /** The body of RemoveProxyDomainsAsync's loop: whether `line` is added to `newLines`. */
    method SurvivesLine(line: string) returns (keep: bool)
      ensures keep == Survives(line, proxyDomains)
    {
      var trimmedLine := Trim(line);
      if trimmedLine == [] || StartsWith(trimmedLine, "#") {
        return true;
      }
      var parts := NonEmpty(SplitOn(trimmedLine, {' ', '\t'}));
      if |parts| >= 2 {
        var domain := parts[1];
        keep := !IsProxyDomain(proxyDomains, domain);
      } else {
        keep := true;
      }
    }

    /** IsProxyDomainsActive: false for a missing file. */
    method IsProxyDomainsActive(hosts: HostsFile) returns (active: bool)
      ensures active <==> hosts.Present? && Active(hosts.text, proxyDomains)
    {
      if !hosts.Present? {
        return false;
      }
      var content := hosts.text;
      for j := 0 to |proxyDomains|
        invariant forall j' :: 0 <= j' < j ==> !ActivatedBy(content, proxyDomains[j'].0)
      {
        var found := DomainActive(content, proxyDomains[j].0);
        if found {
          return true;
        }
      }
      return false;
    }

    /** The test of IsProxyDomainsActive's inner loop for one line. */
    static method LineActivates(line: string, domain: string) returns (activates: bool)
      ensures activates == Activates(line, domain)
    {
      var trimmedLine := Trim(line);
      activates := !StartsWith(trimmedLine, "#") && Contains(trimmedLine, domain, false);
    }

    /** The body of IsProxyDomainsActive's outer loop for one domain; `true` where the source returns true. */
    static method DomainActive(content: string, domain: string) returns (found: bool)
      ensures found <==> ActivatedBy(content, domain)
    {
      if Contains(content, domain, false) {
        var lines := SplitOn(content, {'\n'});
        found := AnyLineActivates(lines, domain);
      } else {
        AbsentNotActivated(content, domain);
        found := false;
      }
    }

    /** IsProxyDomainsActive's inner loop over the lines of the file. */
    static method AnyLineActivates(lines: seq<string>, domain: string) returns (found: bool)
      ensures found <==> AnyLine(lines, line => Activates(line, domain))
    {
      for k := 0 to |lines|
        invariant !AnyLine(lines[..k], line => Activates(line, domain))
      {
        assert lines[..k + 1][..k] == lines[..k];
        var activates := LineActivates(lines[k], domain);
        if activates {
          AnyLineExists(lines, line => Activates(line, domain));
          return true;
        }
      }
      assert lines[..|lines|] == lines;
      return false;
    }
  }

  /** A domain the text does not contain is activated by none of its lines. */
  lemma AbsentNotActivated(content: string, domain: string)
    requires !Contains(content, domain, false)
    ensures !ActivatedBy(content, domain)
  {
    var lines := SplitOn(content, {'\n'});
    AnyLineExists(lines, line => Activates(line, domain));
    forall k | 0 <= k < |lines|
      ensures !Contains(Trim(lines[k]), domain, false)
    {
      SplitPieceIsInfix(content, {'\n'}, k);
      InfixTrans(Trim(lines[k]), lines[k], content);
      if Contains(Trim(lines[k]), domain, false) {
        ContainsInInfix(Trim(lines[k]), content, domain, false);
      }
    }
  }

  // ---------------------------------------------------------------------
  // Properties
  // ---------------------------------------------------------------------

  /** Filter keeps exactly the lines satisfying `p`, and distributes over concatenation. */
  lemma {:induction false} FilterMembers(lines: seq<string>, p: string -> bool, x: string)
    ensures x in Filter(lines, p) <==> x in lines && p(x)
  {
    if lines != [] {
      var init := lines[..|lines| - 1];
      FilterMembers(init, p, x);
      assert lines == init + [lines[|lines| - 1]];
    }
  }

  lemma {:induction false} FilterConcat(a: seq<string>, b: seq<string>, p: string -> bool)
    ensures Filter(a + b, p) == Filter(a, p) + Filter(b, p)
    decreases |b|
  {
    if b != [] {
      var init := b[..|b| - 1];
      assert (a + b)[..|a + b| - 1] == a + init;
      FilterConcat(a, init, p);
    } else {
      assert a + b == a;
    }
  }

  /** Lines that all satisfy `p` are kept as they are. */
  lemma {:induction false} FilterAll(lines: seq<string>, p: string -> bool)
    requires forall k :: 0 <= k < |lines| ==> p(lines[k])
    ensures Filter(lines, p) == lines
  {
    if lines != [] {
      var init := lines[..|lines| - 1];
      FilterAll(init, p);
      assert init + [lines[|lines| - 1]] == lines;
    }
  }

  /** The lines of the text RemoveProxyDomainsAsync writes are the surviving lines (one blank line when none survive). */
  lemma RemovedLines(content: string, table: seq<(string, string)>)
    ensures var kept := Surviving(SplitOn(content, {'\n'}), table);
      SplitOn(Removed(content, table), {'\n'}) == if kept == [] then [[]] else kept
  {
    var lines := SplitOn(content, {'\n'});
    var kept := Surviving(lines, table);
    if kept != [] {
      forall k, i | 0 <= k < |kept| && 0 <= i < |kept[k]|
        ensures kept[k][i] != '\n'
      {
        FilterMembers(lines, line => Survives(line, table), kept[k]);
      }
      SplitJoin(kept, '\n');
    }
  }

  /** Removing the proxy entries a second time changes nothing. */
  lemma RemoveIdempotent(content: string, table: seq<(string, string)>)
    ensures Removed(Removed(content, table), table) == Removed(content, table)
  {
    var kept := Surviving(SplitOn(content, {'\n'}), table);
    RemovedLines(content, table);
    if kept != [] {
      forall k | 0 <= k < |kept|
        ensures Survives(kept[k], table)
      {
        FilterMembers(SplitOn(content, {'\n'}), line => Survives(line, table), kept[k]);
      }
      FilterAll(kept, line => Survives(line, table));
    } else {
      assert Survives([], table);
      assert Surviving([[]], table) == Surviving([], table) + [[]];
    }
  }

  /** A blank or `#` comment line of the hosts text is still a line of the text written back. */
  lemma CommentsSurvive(content: string, table: seq<(string, string)>, k: nat)
    requires k < |SplitOn(content, {'\n'})|
    requires var t := Trim(SplitOn(content, {'\n'})[k]); t == [] || StartsWith(t, "#")
    ensures SplitOn(content, {'\n'})[k] in SplitOn(Removed(content, table), {'\n'})
  {
    var lines := SplitOn(content, {'\n'});
    FilterMembers(lines, line => Survives(line, table), lines[k]);
    RemovedLines(content, table);
  }

  /** A line whose second field names a proxy domain is not a line of the text written back. */
  lemma ProxyEntriesDropped(content: string, table: seq<(string, string)>, line: string)
    requires var t := Trim(line); t != [] && !StartsWith(t, "#") && |Fields(t)| >= 2 && IsProxyDomain(table, Fields(t)[1])
    ensures line !in Surviving(SplitOn(content, {'\n'}), table)
  {
    FilterMembers(SplitOn(content, {'\n'}), line => Survives(line, table), line);
  }

  /** The entry lines of `table`, without line feeds. */
  function EntryLines(table: seq<(string, string)>): (r: seq<string>)
    ensures |r| == |table|
  {
    seq(|table|, i requires 0 <= i < |table| => EntryLine(table[i]))
  }

  lemma {:induction false} EntryTextJoin(table: seq<(string, string)>)
    requires |table| >= 1
    ensures EntryText(table) == Join(EntryLines(table), "\n") + "\n"
  {
    var init := table[..|table| - 1];
    if |init| == 0 {
      assert EntryLines(table) == [EntryLine(table[0])];
    } else {
      EntryTextJoin(init);
      assert EntryLines(table) == EntryLines(init) + [EntryLine(table[|table| - 1])];
      JoinAppend(EntryLines(init), EntryLine(table[|table| - 1]), "\n");
    }
  }

  /** An entry whose parts are non-empty, hold no white space and whose address does not start with `#`. */
  predicate WellFormed(e: (string, string))
  {
    e.0 != [] && e.1 != [] && e.1[0] != '#' &&
    (forall i :: 0 <= i < |e.0| ==> e.0[i] !in WhiteSpace) &&
    (forall i :: 0 <= i < |e.1| ==> e.1[i] !in WhiteSpace)
  }

  /** Splitting lines joined by line feeds and ended by one, after an optional block and a blank line. */
  lemma SplitBlock(t: string, ls: seq<string>)
    requires |ls| >= 1 && forall k, i :: 0 <= k < |ls| && 0 <= i < |ls[k]| ==> ls[k][i] != '\n'
    ensures SplitOn(Join(ls, "\n") + "\n", {'\n'}) == ls + [[]]
    ensures SplitOn(t + "\n\n" + Join(ls, "\n") + "\n", {'\n'}) == SplitOn(t, {'\n'}) + [[]] + ls + [[]]
  {
    var b := Join(ls, "\n") + "\n";
    SplitEntryBlock(ls);
    SplitAfterBlank(t, b);
    assert t + "\n\n" + Join(ls, "\n") + "\n" == t + "\n\n" + b;
    assert SplitOn(t, {'\n'}) + [[]] + (ls + [[]]) == SplitOn(t, {'\n'}) + [[]] + ls + [[]];
  }

  /** Lines joined by line feeds and ended by one split into those lines and an empty piece. */
  lemma SplitEntryBlock(ls: seq<string>)
    requires |ls| >= 1 && forall k, i :: 0 <= k < |ls| && 0 <= i < |ls[k]| ==> ls[k][i] != '\n'
    ensures SplitOn(Join(ls, "\n") + "\n", {'\n'}) == ls + [[]]
  {
    var j := Join(ls, "\n");
    SplitJoin(ls, '\n');
    assert j + "\n" == j + ['\n'] + [];
    SplitConcat(j, '\n', [], {'\n'});
  }

  /** A text, a blank line and a block split into the text's pieces, an empty piece and the block's pieces. */
  lemma SplitAfterBlank(t: string, b: string)
    ensures SplitOn(t + "\n\n" + b, {'\n'}) == SplitOn(t, {'\n'}) + [[]] + SplitOn(b, {'\n'})
  {
    var seps: set<char> := {'\n'};
    var tail := [] + ['\n'] + b;
    assert t + "\n\n" + b == t + ['\n'] + tail;
    SplitConcat(t, '\n', tail, seps);
    SplitConcat([], '\n', b, seps);
  }

  /** The lines of the text AddProxyDomainsAsync writes: the old trimmed lines and a blank line, the entries, and the empty piece after the final line feed. */
  lemma AddedLines(content: string, table: seq<(string, string)>)
    requires |table| >= 1 && forall j :: 0 <= j < |table| ==> WellFormed(table[j])
    ensures var t := TrimEnd(content);
      SplitOn(Added(content, table), {'\n'}) ==
      (if t == [] then [] else SplitOn(t, {'\n'}) + [[]]) + EntryLines(table) + [[]]
  {
    var ls := EntryLines(table);
    EntryTextJoin(table);
    EntryLinesSingle(table);
    var t := TrimEnd(content);
    SplitBlock(t, ls);
    if t == [] {
      assert Added(content, table) == Join(ls, "\n") + "\n";
    } else {
      assert Added(content, table) == t + "\n\n" + Join(ls, "\n") + "\n";
    }
  }

  /** No entry line holds a line feed. */
  lemma EntryLinesSingle(table: seq<(string, string)>)
    requires forall j :: 0 <= j < |table| ==> WellFormed(table[j])
    ensures forall k, i :: 0 <= k < |table| && 0 <= i < |EntryLines(table)[k]| ==> EntryLines(table)[k][i] != '\n'
  {
    forall k, i | 0 <= k < |table| && 0 <= i < |EntryLines(table)[k]|
      ensures EntryLines(table)[k][i] != '\n'
    {
      EntryLineSingle(table[k], i);
    }
  }

  /** An entry line holds no line feed. */
  lemma EntryLineSingle(e: (string, string), i: nat)
    requires WellFormed(e) && i < |EntryLine(e)|
    ensures EntryLine(e)[i] != '\n'
  {
    if i > |e.1| {
      assert EntryLine(e)[i] == e.0[i - |e.1| - 1];
    }
  }

  /** An entry line is already trimmed and is no comment. */
  lemma EntryTrimmed(e: (string, string))
    requires WellFormed(e)
    ensures Trim(EntryLine(e)) == EntryLine(e)
    ensures !StartsWith(EntryLine(e), "#")
  {
    var line := EntryLine(e);
    assert line[0] == e.1[0] && line[|line| - 1] == e.0[|e.0| - 1];
    TrimUnchanged(line);
    Differs(line, "#", 0);
  }

  /** A trimmed, uncommented entry line whose second field is a proxy domain does not survive. */
  lemma Dropped(e: (string, string), table: seq<(string, string)>)
    requires IsProxyDomain(table, e.0)
    requires Trim(EntryLine(e)) == EntryLine(e) && !StartsWith(EntryLine(e), "#")
    requires Fields(EntryLine(e)) == [e.1, e.0]
    ensures !Survives(EntryLine(e), table)
  {
  }

  lemma FieldsOfPair(a: string, b: string)
    requires a != [] && b != []
    requires forall i :: 0 <= i < |a| ==> a[i] !in WhiteSpace
    requires forall i :: 0 <= i < |b| ==> b[i] !in WhiteSpace
    ensures Fields(a + " " + b) == [a, b]
  {
    var seps: set<char> := {' ', '\t'};
    forall i | 0 <= i < |a|
      ensures a[i] !in seps
    {
      assert a[i] !in WhiteSpace;
    }
    forall i | 0 <= i < |b|
      ensures b[i] !in seps
    {
      assert b[i] !in WhiteSpace;
    }
    assert a + " " + b == a + [' '] + b;
    SplitConcat(a, ' ', b, seps);
    SplitNoSeparator(a, seps);
    SplitNoSeparator(b, seps);
    assert SplitOn(a + " " + b, seps) == [a, b];
    assert NonEmpty([b]) == [b] by {
      assert [b][1..] == [];
    }
    assert NonEmpty([a, b]) == [a] + NonEmpty([b]) by {
      assert [a, b][1..] == [b];
    }
  }

  /** With nothing satisfying `p`, Filter keeps nothing. */
  lemma {:induction false} FilterNone(lines: seq<string>, p: string -> bool)
    requires forall k :: 0 <= k < |lines| ==> !p(lines[k])
    ensures Filter(lines, p) == []
  {
    if lines != [] {
      FilterNone(lines[..|lines| - 1], p);
    }
  }

  /** Filtering a block, lines none of which pass, and an empty line that passes. */
  lemma FilterBlock(front: seq<string>, ls: seq<string>, p: string -> bool)
    requires forall k :: 0 <= k < |ls| ==> !p(ls[k])
    requires p([])
    ensures Filter(front + ls + [[]], p) == Filter(front, p) + [[]]
    ensures Filter(front + [[]], p) == Filter(front, p) + [[]]
  {
    FilterNone(ls, p);
    assert Filter([[]], p) == [[]];
    FilterConcat(front, ls, p);
    FilterConcat(front + ls, [[]], p);
    FilterConcat(front, [[]], p);
  }

  /** No entry line of a well-formed table survives RemoveProxyDomainsAsync. */
  lemma EntriesDropped(table: seq<(string, string)>)
    requires forall j :: 0 <= j < |table| ==> WellFormed(table[j])
    ensures forall k :: 0 <= k < |EntryLines(table)| ==> !Survives(EntryLines(table)[k], table)
  {
    forall k | 0 <= k < |table|
      ensures !Survives(EntryLines(table)[k], table)
    {
      assert IsProxyDomain(table, table[k].0);
      EntryDropped(table[k], table);
    }
  }

  /** The line written for a well-formed entry whose domain is in the table does not survive. */
  lemma EntryDropped(e: (string, string), table: seq<(string, string)>)
    requires WellFormed(e) && IsProxyDomain(table, e.0)
    ensures !Survives(EntryLine(e), table)
  {
    FieldsOfPair(e.1, e.0);
    EntryTrimmed(e);
    Dropped(e, table);
  }

  /**
   * Removing the entries right after adding them leaves the old trimmed
   * lines that survive on their own, the blank line written before the
   * entries and the empty piece after the last line feed.
   */
  lemma RemoveUndoesAdd(content: string, table: seq<(string, string)>)
    requires |table| >= 1 && forall j :: 0 <= j < |table| ==> WellFormed(table[j])
    ensures var t := TrimEnd(content);
      Surviving(SplitOn(Added(content, table), {'\n'}), table) ==
      (if t == [] then [] else Surviving(SplitOn(t, {'\n'}), table) + [[]]) + [[]]
  {
    var t := TrimEnd(content);
    AddedLines(content, table);
    EntriesDropped(table);
    assert Survives([], table);
    var p := line => Survives(line, table);
    if t == [] {
      FilterBlock([], EntryLines(table), p);
    } else {
      FilterBlock(SplitOn(t, {'\n'}), [], p);
      FilterBlock(SplitOn(t, {'\n'}) + [[]], EntryLines(table), p);
    }
  }

  /** Right after AddProxyDomainsAsync, every domain of the table is active. */
  lemma AddActivates(content: string, table: seq<(string, string)>, j: nat)
    requires j < |table| && forall i :: 0 <= i < |table| ==> WellFormed(table[i])
    ensures ActivatedBy(Added(content, table), table[j].0)
    ensures Active(Added(content, table), table)
  {
    AddedLines(content, table);
    var t := TrimEnd(content);
    var front := if t == [] then [] else SplitOn(t, {'\n'}) + [[]];
    EntryActivates(table[j]);
    LineActivated(SplitOn(Added(content, table), {'\n'}), front, EntryLines(table), j, table[j].0);
  }

  /** An entry line activates its own domain. */
  lemma EntryActivates(e: (string, string))
    requires WellFormed(e)
    ensures Activates(EntryLine(e), e.0)
  {
    EntryTrimmed(e);
    ContainsAppended(e.1 + " ", e.0);
  }

  lemma LineActivated(lines: seq<string>, front: seq<string>, ls: seq<string>, j: nat, domain: string)
    requires lines == front + ls + [[]] && j < |ls| && Activates(ls[j], domain)
    ensures AnyLine(lines, line => Activates(line, domain))
  {
    assert lines[|front| + j] == ls[j];
    AnyLineExists(lines, line => Activates(line, domain));
  }

  /** The entry text ends with a line feed after a character that is no white space. */
  lemma EntryTextEnd(table: seq<(string, string)>)
    requires |table| >= 1 && WellFormed(table[|table| - 1])
    ensures var e := EntryText(table); |e| >= 2 && e[|e| - 1] == '\n' && e[|e| - 2] !in WhiteSpace
  {
    var last := table[|table| - 1];
    var e := EntryText(table);
    assert e == EntryText(table[..|table| - 1]) + (last.1 + " " + last.0) + "\n";
    assert e[|e| - 2] == last.0[|last.0| - 1];
  }

  /** A text ending in a line feed after a non-blank character loses just that line feed before the entries. */
  lemma KeptAfterLineFeed(a: string)
    requires |a| >= 2 && a[|a| - 1] == '\n' && a[|a| - 2] !in WhiteSpace
    ensures Kept(a) == a + "\n"
  {
    var x := a[..|a| - 1];
    assert a == x + "\n";
    TrimEndLineFeed(x);
  }

  lemma AddAgain(a: string, table: seq<(string, string)>)
    requires |a| >= 2 && a[|a| - 1] == '\n' && a[|a| - 2] !in WhiteSpace
    ensures Added(a, table) == a + "\n" + EntryText(table)
  {
    KeptAfterLineFeed(a);
  }

  lemma EndsWithLineFeed(x: string, e: string)
    requires |e| >= 2 && e[|e| - 1] == '\n' && e[|e| - 2] !in WhiteSpace
    ensures var a := x + e; |a| >= 2 && a[|a| - 1] == '\n' && a[|a| - 2] !in WhiteSpace
  {
    var a := x + e;
    assert a[|a| - 1] == e[|e| - 1] && a[|a| - 2] == e[|e| - 2];
  }

  /** AddProxyDomainsAsync does not look for existing entries: a second call appends them all again after a blank line. */
  lemma AddTwice(content: string, table: seq<(string, string)>)
    requires |table| >= 1 && WellFormed(table[|table| - 1])
    ensures Added(Added(content, table), table) == Added(content, table) + "\n" + EntryText(table)
  {
    var a := Added(content, table);
    EntryTextEnd(table);
    EndsWithLineFeed(Kept(content), EntryText(table));
    assert a == Kept(content) + EntryText(table);
    AddAgain(a, table);
  }

  /** The table the service is built with meets the conditions of the lemmas above. */
  lemma ProxyDomainsWellFormed()
    ensures |ProxyDomains| >= 1
    ensures forall j :: 0 <= j < |ProxyDomains| ==> WellFormed(ProxyDomains[j])
  {
    forall j | 0 <= j < |ProxyDomains|
      ensures WellFormed(ProxyDomains[j])
    {
      var e := ProxyDomains[j];
      NoWhiteSpace(e.0);
      NoWhiteSpace(e.1);
    }
  }

  /** Letters, digits and dots are no white space. */
  lemma NoWhiteSpace(s: string)
    requires forall i :: 0 <= i < |s| ==> s[i] == '.' || '0' <= s[i] <= '9' || 'a' <= s[i] <= 'z'
    ensures forall i :: 0 <= i < |s| ==> s[i] !in WhiteSpace
  {
  }
}
