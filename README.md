# KG-Zapret strategy engine, modelled in Dafny

KG-Zapret launches the `winws.exe` packet-filter worker with arguments taken from a
`.bat` strategy script. This project models the core of that engine and proves
properties of the model:

- **Script parsing** (`DpiService`). `ParseBatFile` splits the script into lines. A
  first pass collects `set NAME=VALUE` assignments into a case-insensitive dictionary.
  A second pass takes the first line that mentions `winws.exe`, expands `%VAR%`,
  `%~dp0` and `%cd%` in it (`ExpandBatVariables`), and lexes what follows `winws.exe`
  with a cmd-style tokenizer (`ParseCommandLineArguments`). The tokenizer has a `^`
  escape and `"` quote toggling. Modules `BatScript` and `ArgLexer`; module
  `BatExpand` proves what expansion does to a line holding any number of references.
- **Argument rewriting** (`StrategyRunnerService`). Five passes run over the argument
  list: path resolution, allzone substitution, game-filter port extension, ipset
  injection and wssize injection. Then the quoting join builds the launch string.
  Modules `ArgRewrite` and `CommandLine`, with the generic "insert after marked
  positions" reasoning in `Insertion`.
- **Worker supervision** (`StrategyRunnerService`). `StartStrategy`, `Stop` and
  `IsRunning` operate on the single `_winwsProcess` slot, over an abstract operating
  system. Every call into the system is recorded in a ghost trace of effects.
  Module `StrategyRunner`.
- **Process monitoring** (`ProcessService`). The `.exe`-stripping lookups
  `IsProcessRunning` and `GetProcessId`; the change detector that `StartMonitoring`
  runs; the two fields that `StartMonitoring` and `StopMonitoring` reassign.
  Module `ProcessService`.
- **Hosts-file editing** (`HostsService`). `AddProxyDomainsAsync`,
  `RemoveProxyDomainsAsync` and `IsProxyDomainsActive` over the fixed table of seven
  proxy domains. Module `HostsService`.

Modules `Text` (trimming, ASCII case folding, search, replace, split, join) and
`WinPath` (simplified `Path.IsPathRooted`, `Path.Combine`, `Path.GetFileName`) hold
the string library the source relies on.

Every loop of the source is a Dafny method with a loop, proved equal to a
specification function. The properties are lemmas about those functions. The files
are verified together, with or without the last flag:
`dafny verify --resource-limit 2000000 --verification-time-limit 0 --warn-contradictory-assumptions *.dfy`.

Several lemmas are about a sample strategy script of four lines:

```
@echo off
set BIN=winws.exe
set ARGS=--wf-tcp=80,443 --wf-udp=443
"%BIN%" %ARGS% --hostlist=other.txt --new --filter-tcp=443
```

Its last line is the sample invocation line.

Behaviour of the code a reader may not expect:

- `ApplyWssize` synthesises `--filter-tcp=443 --wssize=1:6` whenever its first loop
  inserted nothing. That includes an input whose every 443 filter is already
  followed by `--wssize=1:6`, so such a group is duplicated
  (`ArgRewrite.WssizeDuplicatesCoveredGroup`).
- In `Stop`, an exception from `Kill` on the held process skips the name-based kill
  and the driver teardown. Both stand in the same `try` block. The driver teardown
  is therefore not unconditional.
- A trailing `^` is kept, and a `set` line that mentions `winws.exe` is itself taken
  as the invocation line.
- Expansion is a chain of plain text replacements, not a parse of references. In
  `%a%b%c%` with `b` defined, the `%` that closes `%a%` and the one that opens `%c%`
  form `%b%`, which is replaced, leaving `%a` and `c%`
  (`BatExpand.TextBetweenReferences`). Likewise `%cd%~dp0` loses the closing `%` of
  `%cd%` to the earlier `%~dp0` replacement (`BatScript.CurrentDirectoryBeforeScriptFolder`).
- In the sample script the line `set BIN=winws.exe` comes before the
  `"%BIN%" %ARGS% …` line and mentions `winws.exe`. The second pass stops at it and
  yields no arguments at all, so the `"%BIN%" %ARGS%` line is never reached
  (`BatExpand.ExampleScriptArguments`).
- The four feature switches of the gated passes are local constants, all `false`. The
  model makes them parameters (`ArgRewrite.PassFlags`); `ArgRewrite.SourceFlags` holds
  the shipped values.

## Model

| member | source | states |
|---|---|---|
| ArgLexer.Tokens | Services/DpiService.cs:180-193 | no lexed token is empty |
| ArgLexer.ParseCommandLineArguments | Services/DpiService.cs:155-196 | the character loop with its `inQuotes`/`escaped` flags computes exactly the token list of the lexer specification |
| ArgLexer.RunKeepsNoEmptyToken | Services/DpiService.cs:180-193 | running the lexer over any input never adds an empty token |
| ArgLexer.EscapeCopies | Services/DpiService.cs:164-173 | `^` followed by a character appends that character literally and leaves the quote state alone |
| ArgLexer.TrailingCaretKept | Services/DpiService.cs:170-188 | a `^` at the very end is appended as a literal character |
| ArgLexer.QuoteToggles | Services/DpiService.cs:175-178 | an unescaped `"` flips the quote state and emits nothing |
| ArgLexer.RunQuoted | Services/DpiService.cs:175-188 | inside quotes, text without `"` and `^` (blanks included) is appended to the current token |
| ArgLexer.RunUnquoted | Services/DpiService.cs:180-193 | outside quotes, text without `"` and `^` is cut at spaces and tabs, and empty pieces are dropped |
| ArgLexer.TokensUnquoted | Services/DpiService.cs:155-196 | a command line without quotes and carets lexes to its non-empty blank-separated pieces |
| ArgLexer.LeadingQuoteSwallowsBlanks | Services/DpiService.cs:175-186 | a leading `"` with no closing quote makes the whole rest one token, blanks included |
| CommandLine.QuoteAll | Services/StrategyRunnerService.cs:43-48 | quoting keeps one string per argument |
| CommandLine.QuotesExactlyBlankArgs | Services/StrategyRunnerService.cs:43-48 | an argument is wrapped in `"` exactly when it contains a space or a tab; otherwise it is unchanged |
| CommandLine.LaunchStringRoundTrip | Services/StrategyRunnerService.cs:43-48 | the launch string, lexed by the script lexer, gives back every list of non-empty arguments without `"` and `^` |
| BatScript.KeyFrom | Services/DpiService.cs:89-99 | the dictionary lookup finds the first entry whose key equals the name ignoring case, or reports none matches |
| BatScript.Assign | Services/DpiService.cs:99 | assigning never removes an entry |
| BatScript.AssignLookup | Services/DpiService.cs:99 | after an assignment, a lookup of a name equal to it ignoring case gives the new value; other names keep their value |
| BatScript.SetAssignment | Services/DpiService.cs:93-98 | an assignment comes only from a line starting with `set ` after trimming; its name is trimmed and its value has no surrounding quotes |
| BatScript.SetAssignmentRecorded | Services/DpiService.cs:93-96 | a line records an assignment if and only if it starts with `set ` and the rest, trimmed, holds an `=` that is not its first character |
| BatScript.NameAndValue | Services/DpiService.cs:94-98 | the text after `set ` gives a pair only when its first `=` is past its first character; the name then has no surrounding white space and the value no surrounding quotes |
| BatScript.CollectVarsLookup | Services/DpiService.cs:89-103 | after the first pass, every name maps to the value of its last assignment anywhere in the script, whatever the case of the name |
| BatScript.LastAssignedAt | Services/DpiService.cs:91-103 | the last line that assigns a name, ignoring case, supplies that name's value |
| BatScript.CollectVariables | Services/DpiService.cs:91-103 | the first loop builds exactly the dictionary of the specification |
| BatScript.AssignmentLine | Services/DpiService.cs:92-101 | one iteration of the first loop yields a name/value pair exactly when the line is an assignment |
| BatScript.ExpandBatVariables | Services/DpiService.cs:142-153 | the loop applies the dictionary's replacements in enumeration order, then `%~dp0` and `%cd%` |
| BatScript.ExpandVarsPercentFree | Services/DpiService.cs:145-147 | the dictionary replacements leave a string without `%` unchanged |
| BatScript.ExpandPercentFree | Services/DpiService.cs:142-153 | expansion leaves a line without `%` unchanged |
| BatScript.ExpandVarsVariable | Services/DpiService.cs:145-147 | in `pre %name% post` with no other `%`, the dictionary's replacements put the value stored under `name`, matched ignoring case, in place of `%name%`; every other entry leaves the line alone |
| BatScript.ExpandVariable | Services/DpiService.cs:142-153 | when `pre`, `name`, `post` and the stored value hold no `%`, `ExpandBatVariables` turns `pre %name% post` into `pre value post`, where `value` is the dictionary's value for `name` ignoring case |
| BatScript.ExpandScriptFolder | Services/DpiService.cs:142-153 | when the text before and after it and the executable's folder hold no `%`, `%~dp0`, in any case, becomes the executable's folder followed by a backslash |
| BatScript.ExpandCurrentDirectory | Services/DpiService.cs:142-153 | when `pre`, `post` and the executable's folder hold no `%`, `%cd%`, in any case, becomes the executable's folder, provided the dictionary defines no `cd` (the dictionary is applied first) and the text after `%cd%` does not start with `~dp0` in any case (the `%~dp0` replacement runs first) |
| BatScript.CdScriptFolderMatch | Services/DpiService.cs:149-150 | in `pre %cd% post` without other `%`, a `%~dp0` can only be the closing `%` of `%cd%` followed by a `post` that starts with `~dp0` |
| BatScript.NoScriptFolderAfterCd | Services/DpiService.cs:149-150 | when `post` does not start with `~dp0` in any case, `pre %cd% post` holds no `%~dp0` for the earlier replacement to take |
| BatScript.CurrentDirectoryBeforeScriptFolder | Services/DpiService.cs:142-153 | when the text after `%cd%` starts with `~dp0`, the line becomes `pre %cd` followed by the folder, a backslash and the rest after `~dp0`: `%cd%` is never replaced |
| BatScript.ExpandFolderInValue | Services/DpiService.cs:142-153 | when `pre`, `name`, `post`, the rest `w` of the value and the executable's folder hold no `%`, a stored value `%~dp0` followed by `w`, as in `set BIN=%~dp0bin`, is put in place of its reference and its start then becomes the executable's folder and a backslash |
| BatScript.FolderValueInPlace | Services/DpiService.cs:145-147 | the dictionary pass puts a `%~dp0…` value in place of its reference, and no other entry alters the line |
| BatScript.ExpandVarsConcat | Services/DpiService.cs:145-147 | applying the entries of `a + b` is applying those of `a`, then those of `b` |
| BatScript.ExpandVarsNoMatch | Services/DpiService.cs:145-147 | entries whose `%key%` does not occur leave the line unchanged |
| BatExpand.ReplaceRender | Services/DpiService.cs:146 | one entry's replacement turns exactly the references to its key, matched ignoring case, into its value, and keeps all other text and references, in a line of references separated by text holding a non-letter no key holds |
| BatExpand.SlotStep | Services/DpiService.cs:146 | the replacement handles a line reference by reference: text before a reference is kept, and the reference is filled when it names the key |
| BatExpand.RefMatch | Services/DpiService.cs:146 | a `%key%` that matches at the start of `%name%…` means `name` equals `key` ignoring case |
| BatExpand.NoMatchAtClose | Services/DpiService.cs:146 | no `%key%` can start at the `%` that closes a reference, because the text after it holds a character no key holds |
| BatExpand.LookupStep | Services/DpiService.cs:89 | adding a new last entry changes the case-insensitive lookup only of names the dictionary did not hold |
| BatExpand.LookupPrefix | Services/DpiService.cs:89 | a name found in a prefix of the dictionary maps to the same value in the whole dictionary |
| BatExpand.ExpandVarsRender | Services/DpiService.cs:145-147 | the whole dictionary loop turns the line `t0 %n1% t1 … %nk% tk` into the same line with each reference whose name is defined, in any case, replaced by its value, and every other reference kept |
| BatExpand.RenderPercentFree | Services/DpiService.cs:149-150 | a line whose references have all been filled with `%`-free values holds no `%`, so the `%~dp0` and `%cd%` passes leave it alone |
| BatExpand.ExpandTemplate | Services/DpiService.cs:142-153 | `ExpandBatVariables` turns `t0 %n1% t1 … %nk% tk`, every name defined, into `t0 v1 t1 … vk tk` where `vi` is the value stored under `ni` ignoring case; pieces, names, keys and values hold no `%`, and each inner piece holds a non-letter that no key holds |
| BatExpand.ExpandTwoReferences | Services/DpiService.cs:142-153 | two references separated by text holding a blank, both defined and no key holding a blank, both become their values |
| BatExpand.ExpandExampleLine | Services/DpiService.cs:142-153 | the sample invocation line `"%BIN%" %ARGS% --hostlist=other.txt --new --filter-tcp=443` with `BIN=winws.exe` and `ARGS=--wf-tcp=80,443 --wf-udp=443` expands to `"winws.exe" --wf-tcp=80,443 --wf-udp=443 --hostlist=other.txt --new --filter-tcp=443` |
| BatExpand.TextBetweenReferences | Services/DpiService.cs:145-147 | in `%a%b%c%` with only `b` defined, the `%b%` formed across two references is replaced by its value, leaving `%a` and `c%` |
| BatExpand.PrefixOfFirstReference | Services/DpiService.cs:146 | no `%b%` starts inside the `%a` that opens a line, when `a` and `b` differ ignoring case |
| BatExpand.NameHasNoEquals | Services/DpiService.cs:94-97 | a name cut from an assignment ends before its first `=`, so it holds no `=` |
| BatExpand.SetNameHasNoEquals | Services/DpiService.cs:93-98 | the name of any `set` line's assignment holds no `=` |
| BatExpand.AssignKeysNoEquals | Services/DpiService.cs:98 | storing a name without `=` keeps every key of the dictionary free of `=` |
| BatExpand.ParsedKeysHaveNoEquals | Services/DpiService.cs:89-103 | no key of the dictionary read from a script holds `=`, so `=` in the text between references always separates them |
| BatExpand.AtLineKept | Services/DpiService.cs:108-116 | a trimmed line starting with `@` is never skipped, and its `@` is stripped |
| BatExpand.EchoOffKept | Services/DpiService.cs:106-116 | `@echo off` is already trimmed, is not skipped and has its `@` stripped |
| BatExpand.EchoOffRest | Services/DpiService.cs:115-119 | what follows the `@` of `@echo off` is trimmed already and does not mention `winws.exe` |
| BatExpand.EchoOffIgnored | Services/DpiService.cs:105-119 | the line `@echo off`, stripped of `@`, does not mention `winws.exe` and contributes nothing |
| BatExpand.SetLineIndex | Services/DpiService.cs:124 | the first `winws.exe` of `set BIN=winws.exe` is at index 8 |
| BatExpand.SetLineCandidate | Services/DpiService.cs:105-119 | `set BIN=winws.exe` is not skipped and is itself the invocation candidate |
| BatExpand.SetLineExpanded | Services/DpiService.cs:122-128 | expanding `set BIN=winws.exe` and lexing what follows its `winws.exe` gives the empty argument list |
| BatExpand.SetLineInvokes | Services/DpiService.cs:105-131 | `set BIN=winws.exe` is taken as the invocation line and contributes the empty argument list |
| BatExpand.ExampleScriptArguments | Services/DpiService.cs:105-133 | any script whose first two lines are `@echo off` and `set BIN=winws.exe`, as in the sample script, yields no arguments, whatever its later lines and dictionary |
| BatScript.NotSkipped | Services/DpiService.cs:108-113 | a trimmed line that does not start with `r`, `R` or `:` is not skipped |
| BatScript.SetLineIsCandidate | Services/DpiService.cs:105-119 | `set` lines are not skipped: one that mentions `winws.exe` is itself the invocation candidate |
| BatScript.AtLineStripped | Services/DpiService.cs:108-117 | the skip test runs before the `@` is stripped, so an `@rem` or `@::` line mentioning `winws.exe` is a candidate |
| BatScript.CandidateInLine | Services/DpiService.cs:106-119 | a candidate is a part of its line and mentions `winws.exe` ignoring case |
| BatScript.FirstLineWins | Services/DpiService.cs:105-133 | the scan returns the arguments of the first contributing line |
| BatScript.NoneContribute | Services/DpiService.cs:105-133 | with no contributing line, the result is the empty list |
| BatScript.InvocationLine | Services/DpiService.cs:106-131 | one iteration of the second loop yields arguments exactly when the line contributes them |
| BatScript.ExpandedLine | Services/DpiService.cs:122-131 | a candidate contributes the lexed, trimmed text after the first `winws.exe` of its expansion |
| BatScript.ParseBatFile | Services/DpiService.cs:84-140 | the two loops compute exactly the specification: the first contributing line's arguments, or `[]` |
| BatScript.SecondPass | Services/DpiService.cs:105-133 | the second loop stops at the first line that contributes arguments and returns that contribution, or `[]` when no line does |
| BatScript.FirstContribution | Services/DpiService.cs:105-133 | given what each line contributes, the loop returns the first contribution present, or `[]` |
| BatScript.ContributionOf | Services/DpiService.cs:106-131 | one iteration of the second loop either ends the search with the answer from its line on, or passes the same answer on to the next line |
| BatScript.ContributionAt | Services/DpiService.cs:105-133 | the contributions list holds, at every index, what that line contributes |
| BatScript.FirstInvocationWins | Services/DpiService.cs:105-133 | the result is the contribution of the first line that makes one; later lines are ignored |
| BatScript.LineOfContent | Services/DpiService.cs:88 | every split line is a part of the script text |
| BatScript.AssignmentAfterInvocation | Services/DpiService.cs:89-133 | the dictionary is built from the whole script before any line is expanded, so a `set` after the `winws.exe` line still supplies the value that replaces `%name%` in that line's arguments; this is for a candidate `pre %name% post` whose `pre`, `name` and `post` hold no `%`, with the last assignment's value free of `%` |
| BatScript.NoInvocationNoArguments | Services/DpiService.cs:84-140 | a script that never mentions `winws.exe` (ignoring case) yields the empty argument list |
| ArgRewrite.SplitAtFirstEquals | Services/StrategyRunnerService.cs:199 | `Split('=', 2)` gives one or two parts |
| ArgRewrite.RewriteFlagValue | Services/StrategyRunnerService.cs:199-224 | a flag's value is kept when it is rooted (or hex, where hex is kept), and is otherwise replaced by the directory combined with the unquoted value |
| ArgRewrite.ResolveListArg | Services/StrategyRunnerService.cs:197-210 | a hostlist or ipset flag with a non-rooted value becomes `flag=Combine(listsDir, value.Trim('"'))`; a rooted value is kept |
| ArgRewrite.ResolveFakeArg | Services/StrategyRunnerService.cs:211-224 | a fake-payload flag never rewrites a `0x` value; otherwise a non-rooted value is resolved against `binDir` |
| ArgRewrite.ResolveOtherArg | Services/StrategyRunnerService.cs:225-227 | an argument with none of the eight flags is unchanged |
| ArgRewrite.ResolveAll | Services/StrategyRunnerService.cs:191-231 | path resolution keeps the list's length |
| ArgRewrite.ResolveAllAt | Services/StrategyRunnerService.cs:196-228 | each output position holds its input argument resolved, in order |
| ArgRewrite.ResolveFilePaths | Services/StrategyRunnerService.cs:191-231 | the loop computes exactly the argument-wise resolution |
| ArgRewrite.ResolveArgIdempotent | Services/StrategyRunnerService.cs:196-228 | with rooted list and bin directories, resolving an argument twice equals resolving it once |
| ArgRewrite.ResolveAllIdempotent | Services/StrategyRunnerService.cs:191-231 | with rooted directories, path resolution is idempotent on whole lists |
| ArgRewrite.OtherListPlain | Services/StrategyRunnerService.cs:278-279 | the four "other" list names are plain, unquoted, non-rooted file names |
| ArgRewrite.HostlistNaming | Services/StrategyRunnerService.cs:275-280 | a `--hostlist=` whose unquoted path has an "other" file name is recognised as an other-group hostlist |
| ArgRewrite.ResolveKeepsOtherHostlist | Services/StrategyRunnerService.cs:275-280 | path resolution keeps an other-group hostlist recognisable by the later passes |
| ArgRewrite.AllzoneArg | Services/StrategyRunnerService.cs:243-248 | only `--hostlist=` arguments containing `other.txt` change; they stay hostlists and then mention `allzone.txt` |
| ArgRewrite.AllzoneKeepsFlag | Services/StrategyRunnerService.cs:243-244 | replacing `other.txt` keeps the `--hostlist=` prefix |
| ArgRewrite.AllzoneEach | Services/StrategyRunnerService.cs:242-249 | allzone substitution keeps the list's length |
| ArgRewrite.AllzoneAt | Services/StrategyRunnerService.cs:242-249 | each position is its input argument with the substitution applied |
| ArgRewrite.ApplyAllzoneReplacement | Services/StrategyRunnerService.cs:233-256 | the pass is the identity when off and the argument-wise substitution when on |
| ArgRewrite.AddGamePortsAppends | Services/StrategyRunnerService.cs:287-290 | adding the game ports appends `,1024-65535`, keeps the `--filter-tcp=` prefix and extends the port list by one item |
| ArgRewrite.GameUpTo | Services/StrategyRunnerService.cs:264-297 | the game filter emits one argument per input argument |
| ArgRewrite.GameAt | Services/StrategyRunnerService.cs:268-297 | each position holds the game-filtered form of its input argument |
| ArgRewrite.ApplyGameFilter | Services/StrategyRunnerService.cs:258-304 | the loop computes exactly the specification; where the source overwrites `result[result.Count - 1]` (:286-292), the model appends the finished argument instead, which gives the same list because the argument was the last one added |
| ArgRewrite.GameFilterArg | Services/StrategyRunnerService.cs:269-294 | one iteration yields the argument's game-filtered form |
| ArgRewrite.ScanGroup | Services/StrategyRunnerService.cs:273-284 | the inner loop reports whether an other-group hostlist appears before the next `--new` |
| ArgRewrite.ScanMarked | Services/StrategyRunnerService.cs:273-284 | the same loop, read over one flag per argument, finds a flagged argument before the next `--new` exactly when there is one |
| ArgRewrite.GroupHasMarkedOther | Services/StrategyRunnerService.cs:273-284 | flagging exactly the other-group hostlists, "a flagged argument in the group" and "an other-group hostlist in the group" mean the same |
| ArgRewrite.OtherHostlistAt | Services/StrategyRunnerService.cs:275-282 | the test of one argument agrees with that argument's flag |
| ArgRewrite.GameArgAppends | Services/StrategyRunnerService.cs:286-292 | a filter gains `1024-65535` exactly when it is a `--filter-tcp=` without that item and its group has an other hostlist |
| ArgRewrite.GameFilterShape | Services/StrategyRunnerService.cs:268-297 | the length never changes; non-filter arguments and filters already holding the ports are unchanged |
| ArgRewrite.GameKeepsGroups | Services/StrategyRunnerService.cs:274-284 | the pass changes no `--new` and no hostlist, so every group keeps its other-hostlist status |
| ArgRewrite.GameArgSettled | Services/StrategyRunnerService.cs:286-292 | a second pass leaves every argument of the first pass's result as it is |
| ArgRewrite.GameFilterIdempotent | Services/StrategyRunnerService.cs:258-304 | applying the enabled game filter twice equals applying it once |
| ArgRewrite.IpsetMarks | Services/StrategyRunnerService.cs:329-336 | one insertion decision per input position |
| ArgRewrite.ApplyIpsetLists | Services/StrategyRunnerService.cs:306-345 | the loop computes the input when the pass is off or `ipset-all.txt` is missing, and the marked insertions otherwise |
| ArgRewrite.InsertIpset | Services/StrategyRunnerService.cs:325-338 | the loop copies every argument in order and puts the ipset argument right after exactly the marked ones |
| ArgRewrite.IpsetStep | Services/StrategyRunnerService.cs:326-337 | one iteration emits the argument, followed by the ipset argument exactly when it is an "other" hostlist not already followed by `ipset-all.txt` |
| ArgRewrite.IpsetKeepsAndInserts | Services/StrategyRunnerService.cs:325-338 | every input argument survives in order, and the ipset argument follows exactly the other hostlists whose next argument lacks `ipset-all.txt` |
| ArgRewrite.IpsetOnlyInserts | Services/StrategyRunnerService.cs:325-338 | every output argument is an input argument or an inserted ipset argument right after a hostlist that needed it |
| ArgRewrite.IpsetArgMentionsList | Services/StrategyRunnerService.cs:313-333 | the inserted argument mentions `ipset-all.txt` |
| ArgRewrite.IpsetArgNotHostlist | Services/StrategyRunnerService.cs:333 | the inserted argument is not a hostlist |
| ArgRewrite.IpsetNotNeededAgain | Services/StrategyRunnerService.cs:329-336 | no position of the result needs another insertion |
| ArgRewrite.IpsetIdempotent | Services/StrategyRunnerService.cs:306-345 | applying the ipset pass twice equals applying it once |
| ArgRewrite.WssizeMarks | Services/StrategyRunnerService.cs:360-361 | one insertion decision per input position |
| ArgRewrite.InsertPosition | Services/StrategyRunnerService.cs:369-375 | the backward scan stops just after the last `--wf-tcp=`/`--wf-udp=`, or gives the end when there is none |
| ArgRewrite.InsertWssizeAfter443 | Services/StrategyRunnerService.cs:356-366 | the first loop inserts `--wssize=1:6` after the marked 443 filters, and reports whether it inserted any |
| ArgRewrite.FindInsertPosition | Services/StrategyRunnerService.cs:369-375 | the backward loop computes the insert position |
| ArgRewrite.ApplyWssize | Services/StrategyRunnerService.cs:347-387 | the two loops and the three inserts compute exactly the specification |
| ArgRewrite.InsertWssizeGroup | Services/StrategyRunnerService.cs:377-381 | the three inserts place `--filter-tcp=443 --wssize=1:6` at the position, followed by a `--new` that is added only when one is not already there |
| ArgRewrite.WssizeNotFilter | Services/StrategyRunnerService.cs:360-362 | the inserted `--wssize=1:6` is not itself a 443 filter |
| ArgRewrite.WssizeCovers | Services/StrategyRunnerService.cs:356-366 | after the first loop every `--filter-tcp=` argument containing `443` is immediately followed by `--wssize=1:6` |
| ArgRewrite.WssizeNotDoubled | Services/StrategyRunnerService.cs:356-366 | the first loop never puts two `--wssize=1:6` in a row unless the input already has two in a row; with `WssizeCovers`, each 443 filter is followed by exactly one |
| ArgRewrite.Synthesized443 | Services/StrategyRunnerService.cs:377 | the synthesised filter is a 443 filter |
| ArgRewrite.WssizeAlwaysApplied | Services/StrategyRunnerService.cs:353-384 | the result always holds a 443 filter immediately followed by `--wssize=1:6` |
| ArgRewrite.WssizeSynthesizedGroup | Services/StrategyRunnerService.cs:368-381 | with nothing inserted, the group goes just after the last WinDivert filter (or at the end), followed by `--new` unless `--new` already stands there, with the rest in order |
| ArgRewrite.WssizeDuplicatesCoveredGroup | Services/StrategyRunnerService.cs:368 | an input whose only 443 filter already has `--wssize=1:6` gets a second synthesised group |
| ArgRewrite.GatedPassesOff | Services/StrategyRunnerService.cs:233-351 | each gated pass returns its input when off, and so does the ipset pass when `ipset-all.txt` is missing |
| ArgRewrite.PipelineAsShipped | Services/StrategyRunnerService.cs:36-41 | with the switches as shipped, the five passes keep the length and resolve each argument in place |
| ArgRewrite.ProcessArguments | Services/StrategyRunnerService.cs:36-41 | the passes run in the source's order and compute the pipeline |
| HostsService.Service.constructor | Services/HostsService.cs:13-21 | the service holds the seven proxy domains in source order |
| HostsService.Service.AddProxyDomains | Services/HostsService.cs:28-54 | succeeds exactly when the hosts file exists and can be written; then it writes the kept text followed by one entry line per domain, otherwise nothing changes |
| HostsService.Service.RemoveProxyDomains | Services/HostsService.cs:56-94 | succeeds exactly when the file exists and can be written; then it writes the surviving lines joined by `\n`, otherwise nothing changes |
| HostsService.Service.SurvivesLine | Services/HostsService.cs:67-82 | one iteration keeps a line exactly when the filter predicate keeps it |
| HostsService.Service.IsProxyDomainsActive | Services/HostsService.cs:96-121 | true exactly when the file exists and some proxy domain is activated by one of its lines |
| HostsService.Service.DomainActive | Services/HostsService.cs:104-114 | one domain is found exactly when some line of the text activates it; the whole-text `Contains` pre-check never hides an activating line |
| HostsService.Service.AnyLineActivates | Services/HostsService.cs:106-113 | the line loop answers true exactly when some line activates the domain |
| HostsService.Service.LineActivates | Services/HostsService.cs:108-109 | a line activates a domain exactly when, trimmed, it is no `#` comment and contains the domain |
| HostsService.AnyLineExists | Services/HostsService.cs:106-112 | the line scan succeeds exactly when some line satisfies the test |
| HostsService.AbsentNotActivated | Services/HostsService.cs:104-113 | a domain the text does not contain activates no line, so the guard skips no answer |
| HostsService.FilterMembers | Services/HostsService.cs:66-83 | the kept lines are exactly the input lines the test accepts |
| HostsService.RemovedLines | Services/HostsService.cs:63-85 | splitting the written text at `\n` gives back the kept lines, untrimmed and in order |
| HostsService.RemoveIdempotent | Services/HostsService.cs:56-94 | removing twice gives the same text as removing once |
| HostsService.CommentsSurvive | Services/HostsService.cs:67-71 | a blank or `#`-comment line is kept |
| HostsService.ProxyEntriesDropped | Services/HostsService.cs:73-79 | a non-comment line whose second token is a proxy domain is dropped |
| HostsService.EntryLines | Services/HostsService.cs:42-44 | one entry line per table entry |
| HostsService.EntryTextJoin | Services/HostsService.cs:42-44 | the appended block is the entry lines joined by `\n`, with a final `\n` |
| HostsService.AddedLines | Services/HostsService.cs:35-44 | the added text's lines are those of the trimmed original, a blank line, the entry lines, and a final empty line |
| HostsService.EntryTrimmed | Services/HostsService.cs:43 | an entry line is already trimmed and is no comment |
| HostsService.Dropped | Services/HostsService.cs:73-78 | a trimmed non-comment line whose tokens are an address and a proxy domain is dropped |
| HostsService.EntriesDropped | Services/HostsService.cs:42-78 | the remove filter drops every line the add operation wrote |
| HostsService.EntryDropped | Services/HostsService.cs:43-78 | the remove filter drops a written entry line |
| HostsService.RemoveUndoesAdd | Services/HostsService.cs:28-94 | removing after adding leaves the surviving lines of the trimmed original and only blank lines besides |
| HostsService.AddActivates | Services/HostsService.cs:28-121 | right after adding, every proxy domain is activated, so the hosts file counts as active |
| HostsService.EntryActivates | Services/HostsService.cs:43-109 | an entry line activates its own domain |
| HostsService.KeptAfterLineFeed | Services/HostsService.cs:36-40 | a text ending in a non-blank character and then `\n` is kept as itself followed by one more `\n` |
| HostsService.AddAgain | Services/HostsService.cs:35-44 | adding to such a text appends a blank line and the entries again |
| HostsService.AddTwice | Services/HostsService.cs:28-54 | nothing checks for existing entries: adding twice appends the block a second time |
| HostsService.ProxyDomainsWellFormed | Services/HostsService.cs:13-21 | every entry of the table has a non-empty domain and address without blanks, and the address does not start with `#` |
| ProcessService.ByName | Services/ProcessService.cs:21 | the lookup returns exactly the processes whose name equals the stripped name ignoring case |
| ProcessService.ByNameFirst | Services/ProcessService.cs:140 | the first process returned is the first matching process in table order |
| ProcessService.IsProcessRunning | Services/ProcessService.cs:19-28 | true exactly when the table is readable and some process has the stripped name; false when the lookup throws |
| ProcessService.GetProcessId | Services/ProcessService.cs:137-145 | -1 exactly when no process has the stripped name or the lookup throws |
| ProcessService.FirstProcessId | Services/ProcessService.cs:137-145 | any other answer is the id of the first matching process in table order |
| ProcessService.StripsExe | Services/ProcessService.cs:21 | a dotless name is looked up as itself, with or without `.exe` |
| ProcessService.SameLookup | Services/ProcessService.cs:19-28 | `winws.exe` and `winws` give the same running state and process id |
| ProcessService.Monitor | Services/ProcessService.cs:91-119 | the loop raises exactly the events of the specification and ends in its recorded state; the baseline poll raises nothing |
| ProcessService.EventsNameProcess | Services/ProcessService.cs:99-108 | every event names the monitored process, and there is at most one per poll |
| ProcessService.SteadyIsSilent | Services/ProcessService.cs:99-108 | polls that all agree with the recorded state raise nothing and keep the state |
| ProcessService.EventsAlternate | Services/ProcessService.cs:92-108 | with no throwing subscriber, events alternate, the first being the opposite of the baseline |
| ProcessService.SettlesOnLastPoll | Services/ProcessService.cs:99-108 | with no throwing subscriber, the recorded state ends as the last poll's |
| ProcessService.RaisedAgainAfterThrow | Services/ProcessService.cs:101-115 | a subscriber that throws leaves the state unchanged, so the same event is raised again on the next poll showing the change |
| ProcessService.TwoEvents | Services/ProcessService.cs:92-108 | baseline stopped, then stopped, running, running, stopped gives exactly two events: started, then stopped |
| ProcessService.Service.constructor | Services/ProcessService.cs:15-17 | a new service has no monitor and no watcher |
| ProcessService.Service.StopMonitoring | Services/ProcessService.cs:122-135 | cancels and disposes the source, stops and disposes the watcher, nulls both; harmless with neither; every source made is cancelled |
| ProcessService.Service.StartMonitoring | Services/ProcessService.cs:85-89 | stops any previous monitor, then installs a fresh source; only that source is live |
| StrategyRunner.Runner.constructor | Services/StrategyRunnerService.cs:18-23 | a new runner holds no process and has made no call |
| StrategyRunner.Runner.StopWinDivertService | Services/StrategyRunnerService.cs:158-189 | starts `sc stop windivert`, then `sc delete windivert` unless starting the first throws |
| StrategyRunner.Runner.Stop | Services/StrategyRunnerService.cs:79-95 | the effects and new slot are those of the specification: a live held process is killed and cleared, then the name-based kill and the driver teardown run, unless the kill throws |
| StrategyRunner.Runner.StartStrategy | Services/StrategyRunnerService.cs:25-77 | true exactly when the executable exists and the started process has not exited; the effects are Stop's, then, with the executable, the command log and the launch; the slot holds what Process.Start returned |
| StrategyRunner.Runner.IsRunning | Services/StrategyRunnerService.cs:97-102 | true exactly when the held process is alive or some process named `winws` is in the process table |
| StrategyRunner.StopLeavesNothingAlive | Services/StrategyRunnerService.cs:81-86 | after Stop no live process is held, unless the kill threw on a live one |
| StrategyRunner.StopTearsDown | Services/StrategyRunnerService.cs:80-94 | the name-based kill and the driver stop run exactly when the kill did not throw on a live held process, and they end the trace |
| StrategyRunner.TeardownOrder | Services/StrategyRunnerService.cs:158-189 | the name-based kill comes first, then the driver stop; the delete follows exactly when starting the stop did not throw |
| StrategyRunner.StopTwice | Services/StrategyRunnerService.cs:79-95 | when the first Stop's `Kill` did not throw and the set of exited processes only grew in between, a second Stop finds nothing to kill in the slot, leaves it as it is, and only kills by name and tears down; after a throwing `Kill` the second Stop kills the held process again (`StrategyRunner.StopAfterThrowingKill`) |
| StrategyRunner.StopAfterThrowingKill | Services/StrategyRunnerService.cs:79-95 | a Stop whose `Kill` threw leaves the process in the slot, and a second Stop, while it still runs, starts by killing it again |
| StrategyRunner.ExitedHandleKept | Services/StrategyRunnerService.cs:81-86 | a held process that has already exited is neither killed nor cleared |
| StrategyRunner.StartStopsFirst | Services/StrategyRunnerService.cs:29 | StartStrategy's calls begin with Stop's |
| StrategyRunner.NoLaunchWithoutExe | Services/StrategyRunnerService.cs:31-34 | without the executable nothing is logged or launched, the answer is false, and the slot is as Stop left it |
| StrategyRunner.StopNeverLaunches | Services/StrategyRunnerService.cs:79-95 | Stop never logs and never launches |
| StrategyRunner.LogBeforeLaunch | Services/StrategyRunnerService.cs:43-63 | with the executable, the last call is the only launch, and just before it the path, a space and the launch string are logged |
| StrategyRunner.LaunchRoundTrip | Services/StrategyRunnerService.cs:43-48 | lexing the launch string as the script lexer does gives back exactly the processed arguments, when none is empty or holds `"` or `^` |
| StrategyRunner.ShippedLaunch | Services/StrategyRunnerService.cs:36-63 | with the switches as shipped, lexing the launch string as the script lexer does gives back the script's arguments one for one, with their list and payload paths resolved |
| StrategyRunner.StartedIsRunning | Services/StrategyRunnerService.cs:63-71 | a true answer leaves the started process in the slot, so IsRunning holds |
| StrategyRunner.FailedLaunchSlot | Services/StrategyRunnerService.cs:63-75 | a null from Process.Start clears the slot; a throwing Process.Start leaves it as Stop did |
| StrategyRunner.RunningAfterStop | Services/StrategyRunnerService.cs:79-102 | after a Stop that did not throw, IsRunning is the name lookup alone |

## Left out

- File, process and service I/O are not modelled. This covers reading and writing the hosts file, `LogFullCommand`'s two files, `Process.Start`, `Kill`, `WaitForExit`, `taskkill` and `sc`. The system's answers are parameters (`StrategyRunner.Os`, `StrategyRunner.LaunchResult`, `HostsService.HostsFile`, `ProcessService.Poll`), and the calls are recorded as a ghost trace.
- Logging through `ILoggerService` is not modelled. It has no effect on results.
- `Task.Run`, `Task.Delay`, the cancellation token and the polling interval are left out, because they are concurrency and time. The monitor loop is a fold over the sequence of polls made until cancellation.
- The WMI query is left out, because it is a foreign OS call. Its instance count, or its failure, is a field of each poll. `IsProcessRunningWmi`'s fallback to the name lookup is modelled.
- `ProcessService.KillProcess` is only a recorded call. Its enumeration of processes and its `taskkill` use are OS calls.
- `Thread.Sleep(1000)` between the two `sc` calls is left out, because it only affects timing.
- `GetCurrentStrategyInfo` is not modelled. It returns a constant placeholder.
- `StartDpiAsync` and `StopDpiAsync` in DpiService are not modelled. They are async orchestration over the strategy catalog.
- `Path.Combine`, `Path.IsPathRooted` and `Path.GetFileName` are simplified, in module `WinPath`. Rooted means a leading separator or a drive letter and a colon. `Combine` joins with one backslash. UNC paths, invalid characters and `Path.GetFileName`'s special cases are not modelled.
- The argument splitting done by the launched winws.exe (the Windows C runtime's argv rules, where backslashes before a `"` escape it) is not modelled. The launch string is only proved to lex back under the script lexer. The plain quoting at Services/StrategyRunnerService.cs:43-48 does not survive those rules for an argument ending in `\`: `C:\a b\` is written as `"C:\a b\"`, which Windows reads as an argument that runs on into the next one.
- `OrdinalIgnoreCase`, `Trim` and `Split` are modelled on ASCII only. Non-ASCII case folding and Unicode white space are not.
- The culture-sensitive `string.StartsWith(string)` without a comparison argument (e.g. Services/StrategyRunnerService.cs:197-211, Services/DpiService.cs:108-115) is modelled as an ordinal prefix test; culture-specific collation, such as ignorable characters, is not.
- BatScript.ExpandBatVariables: the template lemma `BatExpand.ExpandTemplate` covers lines whose pieces, names, keys and values hold no `%`, and whose inner pieces each hold a non-letter that no key holds. Values holding `%` are covered only for a leading `%~dp0` (`BatScript.ExpandFolderInValue`) and adjacent references like `%a%%b%` only through the general definition.
- StrategyRunner.Runner.IsRunning: the held process's `HasExited` and the process table are read from one snapshot (`Os`); `HasExited` throwing is not modelled.
- StrategyRunner.Runner.Stop: only a throwing `Kill` is modelled. A throwing `WaitForExit`, `Dispose` or `HasExited` is not; each would also skip the rest of the `try` block.
- StrategyRunner.Runner.StartStrategy: an exception thrown by the rewrite passes or by building the launch string is not modelled. `LogFullCommand` swallows its own failures, so these are the remaining sources. Only `Process.Start` throwing is modelled.
- HostsService.Service.AddProxyDomains: a failing read of an existing hosts file is not modelled. Only a failing write (`writable`) is, and it leaves the file unchanged.
- HostsService.Service.RemoveProxyDomains: a failing read is not modelled, as above.
- HostsService.Service.IsProxyDomainsActive: a failing read, which the source answers with false, is not modelled.
- ProcessService.Service.StopMonitoring: an exception from `Cancel` or `Dispose` is not modelled. In the source it would leave the fields as they were.
- ProcessService.Monitor: an `OperationCanceledException` ends the loop; it is modelled as the end of the poll sequence.
