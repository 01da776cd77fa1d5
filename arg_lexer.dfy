/**
 * DpiService.ParseCommandLineArguments: the cmd-style tokenizer that turns
 * the text after `winws.exe` into an argument list. `^` before another
 * character copies that character literally, an unescaped `"` toggles
 * quoting and is dropped, an unquoted space or tab ends the current token,
 * and empty tokens are never emitted.
 */
module ArgLexer {
  import opened Text

  /** The tokenizer's variables: emitted tokens, the token being built, and the two flags. */
  datatype Lexer = Lexer(done: seq<string>, current: string, inQuotes: bool, escaped: bool)

  const Start := Lexer([], [], false, false)

  predicate IsBlank(c: char)
  {
    c == ' ' || c == '\t'
  }

  /** One character of the loop; `hasNext` says whether another character follows it. */
  function Step(st: Lexer, c: char, hasNext: bool): Lexer
  {
    if st.escaped then st.(current := st.current + [c], escaped := false)
    else if c == '^' && hasNext then st.(escaped := true)
    else if c == '"' then st.(inQuotes := !st.inQuotes)
    else if IsBlank(c) && !st.inQuotes then
      if |st.current| > 0 then st.(done := st.done + [st.current], current := []) else st
    else st.(current := st.current + [c])
  }

  /** The loop run over all of `s` from state `st`. */
  function Run(st: Lexer, s: string): Lexer
    decreases |s|
  {
    if s == [] then st else Run(Step(st, s[0], |s| > 1), s[1..])
  }

  /** After the loop: a non-empty pending token is emitted. */
  function Finish(st: Lexer): seq<string>
  {
    if |st.current| > 0 then st.done + [st.current] else st.done
  }

  predicate NoEmptyToken(st: Lexer)
  {
    forall k :: 0 <= k < |st.done| ==> st.done[k] != []
  }

  lemma {:induction false} RunKeepsNoEmptyToken(st: Lexer, s: string)
    requires NoEmptyToken(st)
    ensures NoEmptyToken(Run(st, s))
    decreases |s|
  {
    if s != [] {
      RunKeepsNoEmptyToken(Step(st, s[0], |s| > 1), s[1..]);
    }
  }

  /** The tokens of a command line; none of them is empty. */
  function Tokens(s: string): (r: seq<string>)
    ensures forall k :: 0 <= k < |r| ==> r[k] != []
  {
    RunKeepsNoEmptyToken(Start, s);
    Finish(Run(Start, s))
  }

  /** The source's loop, with the StringBuilder as a string. */
  method ParseCommandLineArguments(commandLine: string) returns (arguments: seq<string>)
    ensures arguments == Tokens(commandLine)
  {
    arguments := [];
    var currentArg: string := [];
    var inQuotes := false;
    var escaped := false;
    for i := 0 to |commandLine|
      invariant Run(Lexer(arguments, currentArg, inQuotes, escaped), commandLine[i..]) == Run(Start, commandLine)
    {
      assert commandLine[i..][1..] == commandLine[i + 1..];
      var c := commandLine[i];
      if escaped {
        currentArg := currentArg + [c];
        escaped := false;
        continue;
      }
      if c == '^' && i + 1 < |commandLine| {
        escaped := true;
        continue;
      }
      if c == '"' {
        inQuotes := !inQuotes;
        continue;
      }
      if (c == ' ' || c == '\t') && !inQuotes {
        if |currentArg| > 0 {
          arguments := arguments + [currentArg];
          currentArg := [];
        }
        continue;
      }
      currentArg := currentArg + [c];
    }
    if |currentArg| > 0 {
      arguments := arguments + [currentArg];
    }
  }

  // ---------------------------------------------------------------------
  // Properties
  // ---------------------------------------------------------------------

  /** Running over `a` then `b` is running over `a + b`, unless `a` ends in a `^` that would escape `b`. */
  lemma {:induction false} RunConcat(st: Lexer, a: string, b: string)
    requires a == [] || a[|a| - 1] != '^'
    ensures Run(st, a + b) == Run(Run(st, a), b)
    decreases |a|
  {
    if a != [] {
      assert (a + b)[0] == a[0];
      assert (a + b)[1..] == a[1..] + b;
      assert Step(st, a[0], |a + b| > 1) == Step(st, a[0], |a| > 1);
      RunConcat(Step(st, a[0], |a + b| > 1), a[1..], b);
    } else {
      assert a + b == b;
    }
  }

  /** Characters that are neither quotes nor escapes nor blanks. */
  predicate Plain(s: string)
  {
    forall i :: 0 <= i < |s| ==> s[i] != '"' && s[i] != '^' && !IsBlank(s[i])
  }

  /** Outside quotes, plain characters extend the current token. */
  lemma {:induction false} RunPlain(st: Lexer, s: string)
    requires !st.escaped && Plain(s)
    ensures Run(st, s) == st.(current := st.current + s)
    decreases |s|
  {
    if s != [] {
      assert Plain(s[1..]);
      RunPlain(Step(st, s[0], |s| > 1), s[1..]);
      assert st.current + [s[0]] + s[1..] == st.current + s;
    }
  }

  /** Inside quotes, any text without quotes and escapes extends the current token, blanks included. */
  lemma {:induction false} RunQuoted(st: Lexer, s: string)
    requires !st.escaped && st.inQuotes
    requires forall i :: 0 <= i < |s| ==> s[i] != '"' && s[i] != '^'
    ensures Run(st, s) == st.(current := st.current + s)
    decreases |s|
  {
    if s != [] {
      RunQuoted(Step(st, s[0], |s| > 1), s[1..]);
      assert st.current + [s[0]] + s[1..] == st.current + s;
    }
  }

  const Blanks: set<char> := {' ', '\t'}

  /**
   * Without quotes and escapes the lexer is String.Split on space and tab
   * with empty entries removed, continuing the pending token.
   */
  lemma {:induction false} RunUnquoted(st: Lexer, s: string)
    requires !st.escaped && !st.inQuotes
    requires forall i :: 0 <= i < |s| ==> s[i] != '"' && s[i] != '^'
    ensures var pieces := SplitOn(s, Blanks);
      Finish(Run(st, s)) == st.done + NonEmpty([st.current + pieces[0]] + pieces[1..])
    decreases |s|
  {
    if s == [] {
      assert st.current + [] == st.current;
    } else {
      var st' := Step(st, s[0], |s| > 1);
      var rest := SplitOn(s[1..], Blanks);
      assert Run(st, s) == Run(st', s[1..]);
      RunUnquoted(st', s[1..]);
      if IsBlank(s[0]) {
        assert st'.current == [] && st'.done == st.done + NonEmpty([st.current]);
        assert SplitOn(s, Blanks) == [[]] + rest;
        BlankPiece(st.done, st.current, rest);
      } else {
        assert st' == st.(current := st.current + [s[0]]);
        assert SplitOn(s, Blanks) == [[s[0]] + rest[0]] + rest[1..];
        CharPiece(st.done, st.current, s[0], rest);
      }
    }
  }

  /** A blank ends the pending token: the pieces after it start afresh. */
  lemma BlankPiece(done: seq<string>, cur: string, rest: seq<string>)
    requires |rest| >= 1
    ensures var pieces := [[]] + rest;
      (done + NonEmpty([cur])) + NonEmpty([[] + rest[0]] + rest[1..]) ==
      done + NonEmpty([cur + pieces[0]] + pieces[1..])
  {
    var pieces := [[]] + rest;
    assert [] + rest[0] == rest[0];
    assert [rest[0]] + rest[1..] == rest;
    assert cur + pieces[0] == cur;
    assert [cur + pieces[0]] + pieces[1..] == [cur] + rest;
    NonEmptyConcat([cur], rest);
  }

  /** Any other character extends the pending token and the first piece alike. */
  lemma CharPiece(done: seq<string>, cur: string, c: char, rest: seq<string>)
    requires |rest| >= 1
    ensures var pieces := [[c] + rest[0]] + rest[1..];
      done + NonEmpty([(cur + [c]) + rest[0]] + rest[1..]) ==
      done + NonEmpty([cur + pieces[0]] + pieces[1..])
  {
    assert (cur + [c]) + rest[0] == cur + ([c] + rest[0]);
  }

  lemma EmptyFirst(pieces: seq<string>)
    requires |pieces| >= 1
    ensures [[] + pieces[0]] + pieces[1..] == pieces
  {
    assert [] + pieces[0] == pieces[0];
  }

  /** A command line without quotes and escapes lexes to its blank-separated words. */
  lemma TokensUnquoted(s: string)
    requires forall i :: 0 <= i < |s| ==> s[i] != '"' && s[i] != '^'
    ensures Tokens(s) == NonEmpty(SplitOn(s, Blanks))
  {
    RunUnquoted(Start, s);
    EmptyFirst(SplitOn(s, Blanks));
  }

  /** `^` copies the next character literally, even a quote or a blank. */
  lemma EscapeCopies(st: Lexer, c: char, rest: string)
    requires !st.escaped
    ensures Run(st, ['^', c] + rest) == Run(st.(current := st.current + [c]), rest)
  {
    assert (['^', c] + rest)[1..] == [c] + rest;
    assert ([c] + rest)[1..] == rest;
  }

  /** A `^` with nothing after it is kept as a literal character. */
  lemma TrailingCaretKept(st: Lexer)
    requires !st.escaped
    ensures Run(st, "^") == st.(current := st.current + "^")
  {
  }

  /** An unescaped quote is never emitted: it only flips the quoting flag. */
  lemma QuoteToggles(st: Lexer, rest: string)
    requires !st.escaped
    ensures Run(st, ['"'] + rest) == Run(st.(inQuotes := !st.inQuotes), rest)
  {
    assert (['"'] + rest)[1..] == rest;
  }

  /**
   * A quoted executable name leaves its closing quote in front of the rest of
   * the line, which then quotes all of it: the whole rest becomes one token.
   */
  lemma LeadingQuoteSwallowsBlanks(rest: string)
    requires rest != []
    requires forall i :: 0 <= i < |rest| ==> rest[i] != '"' && rest[i] != '^'
    ensures Tokens(['"'] + rest) == [rest]
  {
    QuoteToggles(Start, rest);
    RunQuoted(Start.(inQuotes := true), rest);
    assert [] + rest == rest;
  }
}
