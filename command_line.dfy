/**
 * The launch string of StrategyRunnerService.StartStrategy: every argument
 * containing a space or a tab is wrapped in double quotes, and the results
 * are joined by single spaces. Lexing that string with the script lexer
 * gives the argument list back for arguments without quotes and escapes.
 */
module CommandLine {
  import opened Text
  import opened ArgLexer

  predicate HasBlank(arg: string)
  {
    Contains(arg, " ", false) || Contains(arg, "\t", false)
  }

  /** One argument as it appears in the launch string. */
  function QuoteArg(arg: string): string
  {
    if HasBlank(arg) then "\"" + arg + "\"" else arg
  }

  function QuoteAll(args: seq<string>): (r: seq<string>)
    ensures |r| == |args|
  {
    seq(|args|, k requires 0 <= k < |args| => QuoteArg(args[k]))
  }

  /** string.Join(" ", args.Select(QuoteArg)). */
  function LaunchString(args: seq<string>): string
  {
    Join(QuoteAll(args), " ")
  }

  /** Exactly the arguments containing a space or a tab are quoted; the others are kept as they are. */
  lemma QuotesExactlyBlankArgs(arg: string)
    ensures (' ' in arg || '\t' in arg) ==> QuoteArg(arg) == ['"'] + arg + ['"']
    ensures !(' ' in arg || '\t' in arg) ==> QuoteArg(arg) == arg
  {
    ContainsChar(arg, ' ');
    ContainsChar(arg, '\t');
  }

  /** An argument the lexer reads back unchanged: non-empty, without quotes and escapes. */
  predicate Lexable(arg: string)
  {
    arg != [] && forall i :: 0 <= i < |arg| ==> arg[i] != '"' && arg[i] != '^'
  }

  /** Between tokens, the lexer state: nothing pending, no quoting, no escape. */
  predicate Idle(st: Lexer)
  {
    st.current == [] && !st.inQuotes && !st.escaped
  }

  lemma QuotedEnd(arg: string)
    requires Lexable(arg)
    ensures QuoteArg(arg) != [] && QuoteArg(arg)[|QuoteArg(arg)| - 1] != '^'
  {
    QuotesExactlyBlankArgs(arg);
  }

  /** From an idle state, one launch-string argument becomes the pending token. */
  lemma RunQuotedArg(st: Lexer, arg: string)
    requires Idle(st) && Lexable(arg)
    ensures Run(st, QuoteArg(arg)) == st.(current := arg)
  {
    QuotesExactlyBlankArgs(arg);
    if ' ' in arg || '\t' in arg {
      var q: string := ['"'];
      RunConcat(st, q, arg + q);
      var st1 := st.(inQuotes := true);
      assert Run(st, q) == st1;
      RunConcat(st1, arg, q);
      RunQuoted(st1, arg);
      assert [] + arg == arg;
      assert q + (arg + q) == QuoteArg(arg);
    } else {
      assert Plain(arg);
      RunPlain(st, arg);
      assert [] + arg == arg;
    }
  }

  lemma QuoteAllTail(args: seq<string>)
    requires |args| > 0
    ensures QuoteAll(args)[1..] == QuoteAll(args[1..])
  {
  }

  /** From an idle state, a launch string lexes to its arguments after the tokens already emitted. */
  lemma {:induction false} RunLaunchString(st: Lexer, args: seq<string>)
    requires Idle(st) && |args| > 0
    requires forall k :: 0 <= k < |args| ==> Lexable(args[k])
    ensures Finish(Run(st, LaunchString(args))) == st.done + args
    decreases |args|
  {
    RunQuotedArg(st, args[0]);
    if |args| == 1 {
      assert LaunchString(args) == QuoteArg(args[0]);
    } else {
      var st3 := st.(done := st.done + [args[0]]);
      RunFirstArg(st, args);
      RunLaunchString(st3, args[1..]);
      assert st.done + [args[0]] + args[1..] == st.done + args;
    }
  }

  /** Lexing the first argument and the space after it emits that argument and leaves the lexer idle. */
  lemma RunFirstArg(st: Lexer, args: seq<string>)
    requires Idle(st) && |args| > 1 && Lexable(args[0])
    ensures Run(st, LaunchString(args)) == Run(st.(done := st.done + [args[0]]), LaunchString(args[1..]))
  {
    RunQuotedArg(st, args[0]);
    QuotedEnd(args[0]);
    LaunchStringCons(args);
    RunThenSpace(st, QuoteArg(args[0]), args[0], LaunchString(args[1..]));
  }

  /** The launch string of two or more arguments: the first one, a space, the launch string of the rest. */
  lemma LaunchStringCons(args: seq<string>)
    requires |args| > 1
    ensures LaunchString(args) == QuoteArg(args[0]) + (" " + LaunchString(args[1..]))
  {
    QuoteAllTail(args);
  }

  /** A piece that leaves `a` pending, followed by a space, emits `a`. */
  lemma RunThenSpace(st: Lexer, piece: string, a: string, rest: string)
    requires Idle(st) && a != [] && piece != [] && piece[|piece| - 1] != '^'
    requires Run(st, piece) == st.(current := a)
    ensures Run(st, piece + (" " + rest)) == Run(st.(done := st.done + [a]), rest)
  {
    RunConcat(st, piece, " " + rest);
    RunConcat(st.(current := a), " ", rest);
    assert Run(st.(current := a), " ") == st.(done := st.done + [a]);
  }

  /**
   * Quoting, joining and lexing again gives back every list of non-empty
   * arguments without quotes and escapes.
   */
  lemma LaunchStringRoundTrip(args: seq<string>)
    requires forall k :: 0 <= k < |args| ==> Lexable(args[k])
    ensures Tokens(LaunchString(args)) == args
  {
    if args != [] {
      RunLaunchString(Start, args);
      assert [] + args == args;
    }
  }
}
