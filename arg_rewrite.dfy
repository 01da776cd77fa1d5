/**
 * The argument rewrite pipeline that StrategyRunnerService applies to the
 * parsed `winws.exe` arguments before launch: path resolution, then the four
 * feature passes (allzone substitution, game-filter ports, ipset injection,
 * wssize injection), each gated by its own flag. Every pass maps an argument
 * list to an argument list; each is a method with the source's loop, proved
 * against a specification function, and the properties are lemmas about the
 * specification functions.
 */
module ArgRewrite {
  import opened Text
  import opened WinPath
  import opened Insertion

  const FilterTcpFlag := "--filter-tcp="
  const HostlistFlag := "--hostlist="
  const NewGroup := "--new"
  const WssizeArg := "--wssize=1:6"
  const GamePorts := "1024-65535"
  const IpsetAllName := "ipset-all.txt"

  /** The hostlist names both the game-filter and the ipset pass react to. */
  const OtherLists: set<string> := {"other.txt", "allzone.txt", "other2.txt", "russia-blacklist.txt"}

  /** String.Trim('"'). */
  function Unquote(s: string): string
  {
    TrimOf(s, {'"'})
  }

  // ---------------------------------------------------------------------
  // Path resolution (StrategyRunnerService.ResolveFilePaths)
  // ---------------------------------------------------------------------

  const ListFlags: seq<string> := ["--hostlist=", "--ipset=", "--hostlist-exclude=", "--ipset-exclude="]

  const FakeFlags: seq<string> :=
    ["--dpi-desync-fake-tls=", "--dpi-desync-fake-syndata=", "--dpi-desync-fake-quic=", "--dpi-desync-fake-unknown-udp="]

  /** An argument naming a list file. */
  predicate IsListArg(arg: string)
  {
    StartsWith(arg, "--hostlist=") || StartsWith(arg, "--ipset=") ||
    StartsWith(arg, "--hostlist-exclude=") || StartsWith(arg, "--ipset-exclude=")
  }

  /** An argument naming a fake-payload file (or carrying a `0x` literal payload). */
  predicate IsFakeArg(arg: string)
  {
    StartsWith(arg, "--dpi-desync-fake-tls=") || StartsWith(arg, "--dpi-desync-fake-syndata=") ||
    StartsWith(arg, "--dpi-desync-fake-quic=") || StartsWith(arg, "--dpi-desync-fake-unknown-udp=")
  }

  /** String.Split('=', 2): the text before the first `=` and the rest, or the whole string. */
  function SplitAtFirstEquals(s: string): (r: seq<string>)
    ensures 1 <= |r| <= 2
  {
    match IndexOf(s, "=", false)
    case None => [s]
    case Some(i) => [s[..i], s[i + 1..]]
  }

  /** A flag is a name without `=` followed by one `=`. */
  predicate FlagShape(flag: string)
  {
    |flag| > 0 && flag[|flag| - 1] == '=' && forall j :: 0 <= j < |flag| - 1 ==> flag[j] != '='
  }

  /** Splitting `flag + value` at the first `=` separates the flag name from the value. */
  lemma SplitFlag(arg: string, flag: string)
    requires FlagShape(flag) && StartsWith(arg, flag)
    ensures SplitAtFirstEquals(arg) == [flag[..|flag| - 1], arg[|flag|..]]
  {
    var e := |flag| - 1;
    assert MatchAt(arg, e, "=", false) by {
      assert arg[e..e + 1] == [arg[e]];
      assert arg[e] == flag[e];
    }
    forall j | 0 <= j < e
      ensures !MatchAt(arg, j, "=", false)
    {
      assert arg[j] == flag[j];
      assert j + 1 <= |arg| ==> arg[j..j + 1] == [arg[j]];
    }
    assert IndexOf(arg, "=", false) == Some(e);
    assert arg[..e] == flag[..e];
  }

  /**
   * Rewrite the value of `name=value` to Combine(dir, value without quotes)
   * unless it is rooted, or (for payload flags) a `0x` literal.
   */
  function RewriteValue(arg: string, dir: string, keepHex: bool): string
  {
    var parts := SplitAtFirstEquals(arg);
    if |parts| == 2 && !(keepHex && StartsWith(parts[1], "0x")) then
      var filename := Unquote(parts[1]);
      if !IsPathRooted(filename) then parts[0] + "=" + Combine(dir, filename) else arg
    else arg
  }

  /** One argument after path resolution: list files against listsDir, payload files against binDir. */
  function ResolveArg(arg: string, listsDir: string, binDir: string): string
  {
    if IsListArg(arg) then RewriteValue(arg, listsDir, false)
    else if IsFakeArg(arg) then RewriteValue(arg, binDir, true)
    else arg
  }

  /** RewriteValue on `flag + value` for any well-shaped flag. */
  lemma RewriteFlagValue(flag: string, value: string, dir: string, keepHex: bool)
    requires FlagShape(flag)
    ensures RewriteValue(flag + value, dir, keepHex) ==
      if (keepHex && StartsWith(value, "0x")) || IsPathRooted(Unquote(value)) then flag + value
      else flag + Combine(dir, Unquote(value))
  {
    var arg := flag + value;
    assert StartsWith(arg, flag);
    SplitFlag(arg, flag);
    assert arg[|flag|..] == value;
    assert flag[..|flag| - 1] + "=" == flag;
  }

  lemma ListFlagShape(flag: string)
    requires flag in ListFlags
    ensures FlagShape(flag) && IsListArg(flag)
  {
  }

  lemma FakeFlagShape(flag: string)
    requires flag in FakeFlags
    ensures FlagShape(flag) && IsFakeArg(flag)
  {
  }

  /** No list flag has a `d` at index 2, and every payload flag has. */
  lemma NotListArg(s: string)
    requires |s| > 2 && s[2] == 'd'
    ensures !IsListArg(s)
  {
    Differs(s, "--hostlist=", 2);
    Differs(s, "--ipset=", 2);
    Differs(s, "--hostlist-exclude=", 2);
    Differs(s, "--ipset-exclude=", 2);
  }

  lemma PrefixStartsWith(flag: string, value: string, p: string)
    requires StartsWith(flag, p)
    ensures StartsWith(flag + value, p)
  {
  }

  /**
   * A list flag with a non-rooted value is rewritten to the flag followed by
   * Combine(listsDir, value without its quotes); a rooted value is kept.
   */
  lemma ResolveListArg(flag: string, value: string, listsDir: string, binDir: string)
    requires flag in ListFlags
    ensures ResolveArg(flag + value, listsDir, binDir) ==
      if IsPathRooted(Unquote(value)) then flag + value else flag + Combine(listsDir, Unquote(value))
  {
    ListFlagShape(flag);
    assert IsListArg(flag + value) by {
      if flag == ListFlags[0] {
        PrefixStartsWith(flag, value, "--hostlist=");
      } else if flag == ListFlags[1] {
        PrefixStartsWith(flag, value, "--ipset=");
      } else if flag == ListFlags[2] {
        PrefixStartsWith(flag, value, "--hostlist-exclude=");
      } else {
        PrefixStartsWith(flag, value, "--ipset-exclude=");
      }
    }
    RewriteFlagValue(flag, value, listsDir, false);
  }

  /**
   * A fake-payload flag with a non-rooted value is rewritten against binDir;
   * a `0x` literal payload and a rooted value are kept.
   */
  lemma ResolveFakeArg(flag: string, value: string, listsDir: string, binDir: string)
    requires flag in FakeFlags
    ensures ResolveArg(flag + value, listsDir, binDir) ==
      if StartsWith(value, "0x") || IsPathRooted(Unquote(value)) then flag + value
      else flag + Combine(binDir, Unquote(value))
  {
    FakeFlagShape(flag);
    assert IsFakeArg(flag + value) by {
      if flag == FakeFlags[0] {
        PrefixStartsWith(flag, value, "--dpi-desync-fake-tls=");
      } else if flag == FakeFlags[1] {
        PrefixStartsWith(flag, value, "--dpi-desync-fake-syndata=");
      } else if flag == FakeFlags[2] {
        PrefixStartsWith(flag, value, "--dpi-desync-fake-quic=");
      } else {
        PrefixStartsWith(flag, value, "--dpi-desync-fake-unknown-udp=");
      }
    }
    assert (flag + value)[2] == flag[2] == 'd';
    NotListArg(flag + value);
    RewriteFlagValue(flag, value, binDir, true);
  }

  /** Every other argument passes through unchanged. */
  lemma ResolveOtherArg(arg: string, listsDir: string, binDir: string)
    requires forall flag :: flag in ListFlags + FakeFlags ==> !StartsWith(arg, flag)
    ensures ResolveArg(arg, listsDir, binDir) == arg
  {
    assert !StartsWith(arg, ListFlags[0]) && !StartsWith(arg, ListFlags[1]);
    assert !StartsWith(arg, ListFlags[2]) && !StartsWith(arg, ListFlags[3]);
    assert !StartsWith(arg, FakeFlags[0]) && !StartsWith(arg, FakeFlags[1]);
    assert !StartsWith(arg, FakeFlags[2]) && !StartsWith(arg, FakeFlags[3]);
  }

  /** The flag a list argument starts with. */
  lemma ListFlagOf(arg: string) returns (flag: string)
    requires IsListArg(arg)
    ensures flag in ListFlags && StartsWith(arg, flag) && arg == flag + arg[|flag|..]
  {
    if StartsWith(arg, "--hostlist=") {
      flag := "--hostlist=";
    } else if StartsWith(arg, "--ipset=") {
      flag := "--ipset=";
    } else if StartsWith(arg, "--hostlist-exclude=") {
      flag := "--hostlist-exclude=";
    } else {
      flag := "--ipset-exclude=";
    }
  }

  /** The flag a fake-payload argument starts with. */
  lemma FakeFlagOf(arg: string) returns (flag: string)
    requires IsFakeArg(arg)
    ensures flag in FakeFlags && StartsWith(arg, flag) && arg == flag + arg[|flag|..]
  {
    if StartsWith(arg, "--dpi-desync-fake-tls=") {
      flag := "--dpi-desync-fake-tls=";
    } else if StartsWith(arg, "--dpi-desync-fake-syndata=") {
      flag := "--dpi-desync-fake-syndata=";
    } else if StartsWith(arg, "--dpi-desync-fake-quic=") {
      flag := "--dpi-desync-fake-quic=";
    } else {
      flag := "--dpi-desync-fake-unknown-udp=";
    }
  }

  /** ResolveFilePaths on a whole argument list: every argument resolved, in order. */
  function ResolveAll(args: seq<string>, listsDir: string, binDir: string): (r: seq<string>)
    ensures |r| == |args|
  {
    if args == [] then []
    else ResolveAll(args[..|args| - 1], listsDir, binDir) + [ResolveArg(args[|args| - 1], listsDir, binDir)]
  }

  lemma {:induction false} ResolveAllAt(args: seq<string>, listsDir: string, binDir: string, i: nat)
    requires i < |args|
    ensures ResolveAll(args, listsDir, binDir)[i] == ResolveArg(args[i], listsDir, binDir)
  {
    if i < |args| - 1 {
      ResolveAllAt(args[..|args| - 1], listsDir, binDir, i);
    }
  }

  method ResolveFilePaths(args: seq<string>, listsDir: string, binDir: string) returns (resolved: seq<string>)
    ensures resolved == ResolveAll(args, listsDir, binDir)
  {
    resolved := [];
    for i := 0 to |args|
      invariant resolved == ResolveAll(args[..i], listsDir, binDir)
    {
      assert args[..i + 1][..i] == args[..i];
      resolved := resolved + [ResolveArg(args[i], listsDir, binDir)];
    }
    assert args[..|args|] == args;
  }

  /**
   * With rooted list and asset directories, resolving a resolved argument
   * changes nothing: every rewritten value is rooted.
   */
  lemma ResolveArgIdempotent(arg: string, listsDir: string, binDir: string)
    requires IsPathRooted(listsDir) && IsPathRooted(binDir)
    ensures ResolveArg(ResolveArg(arg, listsDir, binDir), listsDir, binDir) == ResolveArg(arg, listsDir, binDir)
  {
    if IsListArg(arg) {
      var flag := ListFlagOf(arg);
      var name := Unquote(arg[|flag|..]);
      ResolveListArg(flag, arg[|flag|..], listsDir, binDir);
      if !IsPathRooted(name) {
        CombineRooted(listsDir, name);
        RootedTrimQuotes(Combine(listsDir, name));
        ResolveListArg(flag, Combine(listsDir, name), listsDir, binDir);
      }
    } else if IsFakeArg(arg) {
      var flag := FakeFlagOf(arg);
      var name := Unquote(arg[|flag|..]);
      ResolveFakeArg(flag, arg[|flag|..], listsDir, binDir);
      if !StartsWith(arg[|flag|..], "0x") && !IsPathRooted(name) {
        CombineRooted(binDir, name);
        RootedTrimQuotes(Combine(binDir, name));
        ResolveFakeArg(flag, Combine(binDir, name), listsDir, binDir);
      }
    }
  }

  /** ResolveFilePaths applied twice is ResolveFilePaths applied once. */
  lemma {:induction false} ResolveAllIdempotent(args: seq<string>, listsDir: string, binDir: string)
    requires IsPathRooted(listsDir) && IsPathRooted(binDir)
    ensures ResolveAll(ResolveAll(args, listsDir, binDir), listsDir, binDir) == ResolveAll(args, listsDir, binDir)
  {
    if args != [] {
      var r := ResolveAll(args, listsDir, binDir);
      var init := args[..|args| - 1];
      assert r[..|r| - 1] == ResolveAll(init, listsDir, binDir);
      ResolveAllIdempotent(init, listsDir, binDir);
      ResolveArgIdempotent(args[|args| - 1], listsDir, binDir);
    }
  }

  /** The "other" list names are plain file names. */
  lemma OtherListPlain(name: string)
    requires name in OtherLists
    ensures name != [] && name[0] != '"' && name[|name| - 1] != '"' && !IsPathRooted(name)
    ensures forall i :: 0 <= i < |name| ==> !IsSeparator(name[i]) && name[i] != ':'
  {
  }

  /** A hostlist whose unquoted file name is an "other" list is an "other" hostlist. */
  lemma HostlistNaming(path: string, name: string)
    requires name in OtherLists && GetFileName(Unquote(path)) == name
    ensures IsOtherHostlist(HostlistFlag + path)
  {
    assert (HostlistFlag + path)[|HostlistFlag|..] == path;
  }

  /**
   * A hostlist naming one of the "other" lists by a plain file name still
   * names it after resolution against a rooted lists directory, so the
   * later passes still recognise it.
   */
  lemma ResolveKeepsOtherHostlist(name: string, listsDir: string, binDir: string)
    requires name in OtherLists && IsPathRooted(listsDir)
    ensures IsOtherHostlist(ResolveArg(HostlistFlag + name, listsDir, binDir))
  {
    ResolveOtherName(name, listsDir, binDir);
    CombinedOtherHostlist(name, listsDir);
  }

  /** A plain "other" list name is resolved against the lists directory. */
  lemma ResolveOtherName(name: string, listsDir: string, binDir: string)
    requires name in OtherLists
    ensures ResolveArg(HostlistFlag + name, listsDir, binDir) == HostlistFlag + Combine(listsDir, name)
  {
    OtherListPlain(name);
    UnquotePlain(name);
    ResolveListArg(HostlistFlag, name, listsDir, binDir);
  }

  /** A hostlist naming an "other" list inside a rooted directory is an "other" hostlist. */
  lemma CombinedOtherHostlist(name: string, listsDir: string)
    requires name in OtherLists && IsPathRooted(listsDir)
    ensures IsOtherHostlist(HostlistFlag + Combine(listsDir, name))
  {
    var path := Combine(listsDir, name);
    CombinedListPath(name, listsDir);
    UnquotePlain(path);
    HostlistNaming(path, name);
  }

  /** An "other" list combined with a rooted directory is unquoted and keeps its file name. */
  lemma CombinedListPath(name: string, listsDir: string)
    requires name in OtherLists && IsPathRooted(listsDir)
    ensures var path := Combine(listsDir, name);
      path != [] && path[0] != '"' && path[|path| - 1] != '"' && GetFileName(path) == name
  {
    OtherListPlain(name);
    var path := Combine(listsDir, name);
    FileNameOfCombine(listsDir, name);
    assert path[0] == listsDir[0];
  }

  /** A string that neither starts nor ends with a quote is its own Unquote. */
  lemma UnquotePlain(s: string)
    requires s != [] && s[0] != '"' && s[|s| - 1] != '"'
    ensures Unquote(s) == s
  {
    assert TrimStartOf(s, {'"'}) == s;
    assert TrimEndOf(s, {'"'}) == s;
  }

  // ---------------------------------------------------------------------
  // Allzone substitution (StrategyRunnerService.ApplyAllzoneReplacement)
  // ---------------------------------------------------------------------

  predicate IsOtherTxtHostlist(arg: string)
  {
    StartsWith(arg, HostlistFlag) && Contains(arg, "other.txt", false)
  }

  /**
   * One argument after allzone substitution: a `--hostlist=` argument
   * mentioning `other.txt` has every `other.txt` replaced by `allzone.txt`,
   * stays a `--hostlist=` argument and then mentions `allzone.txt`; every
   * other argument is kept.
   */
  function AllzoneArg(arg: string): (r: string)
    ensures !IsOtherTxtHostlist(arg) ==> r == arg
    ensures IsOtherTxtHostlist(arg) ==> StartsWith(r, HostlistFlag) && Contains(r, "allzone.txt", false)
  {
    if IsOtherTxtHostlist(arg) then
      AllzoneKeepsFlag(arg);
      ReplacePresent(arg, "other.txt", "allzone.txt", false);
      ReplaceAll(arg, "other.txt", "allzone.txt", false)
    else arg
  }

  lemma AllzoneKeepsFlag(arg: string)
    requires StartsWith(arg, HostlistFlag)
    ensures StartsWith(ReplaceAll(arg, "other.txt", "allzone.txt", false), HostlistFlag)
  {
    var t := arg[|HostlistFlag|..];
    assert arg == HostlistFlag + t;
    forall i | 0 <= i < |HostlistFlag|
      ensures !MatchAt(HostlistFlag + t, i, "other.txt", false)
    {
      var s := HostlistFlag + t;
      assert s[i] == HostlistFlag[i];
      if i + 1 < |HostlistFlag| {
        assert s[i + 1] == HostlistFlag[i + 1];
      }
      if i + 9 <= |s| {
        assert s[i..i + 9][0] == s[i] && s[i..i + 9][1] == s[i + 1];
      }
    }
    ReplaceKeepsPrefix(HostlistFlag, t, "other.txt", "allzone.txt", false);
  }

  function AllzoneEach(args: seq<string>): (r: seq<string>)
    ensures |r| == |args|
  {
    if args == [] then [] else AllzoneEach(args[..|args| - 1]) + [AllzoneArg(args[|args| - 1])]
  }

  function AllzoneAll(args: seq<string>, allzoneEnabled: bool): seq<string>
  {
    if allzoneEnabled then AllzoneEach(args) else args
  }

  lemma {:induction false} AllzoneAt(args: seq<string>, i: nat)
    requires i < |args|
    ensures AllzoneEach(args)[i] == AllzoneArg(args[i])
  {
    if i < |args| - 1 {
      AllzoneAt(args[..|args| - 1], i);
    }
  }

  method ApplyAllzoneReplacement(args: seq<string>, allzoneEnabled: bool) returns (result: seq<string>)
    ensures result == AllzoneAll(args, allzoneEnabled)
  {
    if !allzoneEnabled {
      return args;
    }
    result := [];
    for i := 0 to |args|
      invariant result == AllzoneEach(args[..i])
    {
      assert args[..i + 1][..i] == args[..i];
      var arg := args[i];
      if StartsWith(arg, HostlistFlag) && Contains(arg, "other.txt", false) {
        result := result + [ReplaceAll(arg, "other.txt", "allzone.txt", false)];
      } else {
        result := result + [arg];
      }
    }
    assert args[..|args|] == args;
  }

  // ---------------------------------------------------------------------
  // Game filter (StrategyRunnerService.ApplyGameFilter)
  // ---------------------------------------------------------------------

  /** A `--hostlist=` argument whose file name is one of the "other" lists. */
  predicate IsOtherHostlist(arg: string)
  {
    StartsWith(arg, HostlistFlag) && GetFileName(Unquote(arg[|HostlistFlag|..])) in OtherLists
  }

  /** Some argument from index `j` up to the next `--new` is an "other" hostlist. */
  predicate GroupHasOtherHostlist(args: seq<string>, j: nat)
    decreases |args| - j
  {
    j < |args| && args[j] != NewGroup && (IsOtherHostlist(args[j]) || GroupHasOtherHostlist(args, j + 1))
  }

  /** The comma-separated port items of a `--filter-tcp=` argument. */
  function Ports(arg: string): seq<string>
    requires StartsWith(arg, FilterTcpFlag)
  {
    SplitOn(arg[|FilterTcpFlag|..], {','})
  }

  predicate NeedsGamePorts(args: seq<string>, i: nat)
    requires i < |args|
  {
    StartsWith(args[i], FilterTcpFlag) && GroupHasOtherHostlist(args, i + 1) && GamePorts !in Ports(args[i])
  }

  function GameArg(args: seq<string>, i: nat): string
    requires i < |args|
  {
    if NeedsGamePorts(args, i) then AddGamePorts(args[i]) else args[i]
  }

  /** A `--filter-tcp=` argument with the game ports added as one more item. */
  function AddGamePorts(arg: string): string
    requires StartsWith(arg, FilterTcpFlag)
  {
    FilterTcpFlag + Join(Ports(arg) + [GamePorts], ",")
  }

  /** Adding the game ports appends `,1024-65535`; the port list gains exactly that item. */
  lemma AddGamePortsAppends(arg: string)
    requires StartsWith(arg, FilterTcpFlag)
    ensures AddGamePorts(arg) == arg + "," + GamePorts
    ensures StartsWith(AddGamePorts(arg), FilterTcpFlag)
    ensures Ports(AddGamePorts(arg)) == Ports(arg) + [GamePorts]
  {
    var v := arg[|FilterTcpFlag|..];
    assert FilterTcpFlag + v == arg;
    SplitAppend(v, ',', GamePorts);
    var r := AddGamePorts(arg);
    assert r == FilterTcpFlag + (v + "," + GamePorts);
    assert r[|FilterTcpFlag|..] == v + [','] + GamePorts;
  }

  /** The game filter's output built from the first `n` arguments. */
  function GameUpTo(args: seq<string>, n: nat): (r: seq<string>)
    requires n <= |args|
    ensures |r| == n
  {
    if n == 0 then [] else GameUpTo(args, n - 1) + [GameArg(args, n - 1)]
  }

  function GameAll(args: seq<string>, enabled: bool): seq<string>
  {
    if enabled then GameUpTo(args, |args|) else args
  }

  lemma {:induction false} GameAt(args: seq<string>, n: nat, i: nat)
    requires i < n <= |args|
    ensures GameUpTo(args, n)[i] == GameArg(args, i)
  {
    if i < n - 1 {
      GameAt(args, n - 1, i);
    }
  }

  method ApplyGameFilter(args: seq<string>, gameFilterEnabled: bool) returns (result: seq<string>)
    ensures result == GameAll(args, gameFilterEnabled)
  {
    if !gameFilterEnabled {
      return args;
    }
    result := [];
    var i := 0;
    while i < |args|
      invariant 0 <= i <= |args|
      invariant result == GameUpTo(args, i)
    {
      var arg := GameFilterArg(args, i);
      result := result + [arg];
      i := i + 1;
    }
  }

  /** The body of the game filter's outer loop for argument `i`. */
  method GameFilterArg(args: seq<string>, i: nat) returns (arg: string)
    requires i < |args|
    ensures arg == GameArg(args, i)
  {
    arg := args[i];
    if StartsWith(arg, FilterTcpFlag) {
      var hasOtherHostlist := ScanGroup(args, i + 1);
      if hasOtherHostlist {
        var ports := SplitOn(arg[|FilterTcpFlag|..], {','});
        if GamePorts !in ports {
          ports := ports + [GamePorts];
          arg := FilterTcpFlag + Join(ports, ",");
        }
      }
    }
  }

  /** The inner scan of the game filter: up to the next `--new`, is there an "other" hostlist? */
  method ScanGroup(args: seq<string>, from: nat) returns (hasOtherHostlist: bool)
    ensures hasOtherHostlist == GroupHasOtherHostlist(args, from)
  {
    ghost var others := seq(|args|, k requires 0 <= k < |args| => IsOtherHostlist(args[k]));
    GroupHasMarkedOther(args, others, from);
    hasOtherHostlist := ScanMarked(args, from, others);
  }

  /** The group from `j` on holds an argument flagged in `others`. */
  predicate GroupHasMarked(args: seq<string>, others: seq<bool>, j: nat)
    requires |others| == |args|
    decreases |args| - j
  {
    j < |args| && args[j] != NewGroup && (others[j] || GroupHasMarked(args, others, j + 1))
  }

  /** Flagging exactly the "other" hostlists, the two group predicates agree. */
  lemma {:induction false} GroupHasMarkedOther(args: seq<string>, others: seq<bool>, j: nat)
    requires |others| == |args|
    requires forall k :: 0 <= k < |args| ==> others[k] == IsOtherHostlist(args[k])
    ensures GroupHasMarked(args, others, j) == GroupHasOtherHostlist(args, j)
    decreases |args| - j
  {
    if j < |args| && args[j] != NewGroup {
      GroupHasMarkedOther(args, others, j + 1);
    }
  }

  /** The loop of the inner scan, over the flags `others` of the arguments. */
  method ScanMarked(args: seq<string>, from: nat, ghost others: seq<bool>) returns (hasOtherHostlist: bool)
    requires |others| == |args|
    requires forall k {:trigger IsOtherHostlist(args[k])} :: 0 <= k < |args| ==> others[k] == IsOtherHostlist(args[k])
    ensures hasOtherHostlist == GroupHasMarked(args, others, from)
  {
    hasOtherHostlist := false;
    var j := from;
    while j < |args| && args[j] != NewGroup
      invariant from <= j
      invariant GroupHasMarked(args, others, from) == GroupHasMarked(args, others, j)
      decreases |args| - j
    {
      var other := OtherHostlistAt(args, j, others);
      if other {
        hasOtherHostlist := true;
        return;
      }
      j := j + 1;
    }
  }

  /** The test of the inner scan at argument `j`, read against its flag. */
  method OtherHostlistAt(args: seq<string>, j: nat, ghost others: seq<bool>) returns (other: bool)
    requires j < |args| == |others|
    requires forall k {:trigger IsOtherHostlist(args[k])} :: 0 <= k < |args| ==> others[k] == IsOtherHostlist(args[k])
    ensures other == others[j]
  {
    other := OtherHostlistTest(args[j]);
  }

  /** The test of the inner scan for one argument. */
  method OtherHostlistTest(arg: string) returns (other: bool)
    ensures other == IsOtherHostlist(arg)
  {
    other := false;
    if StartsWith(arg, HostlistFlag) {
      var filename := GetFileName(Unquote(arg[|HostlistFlag|..]));
      if filename in OtherLists {
        other := true;
      }
    }
  }

  /**
   * The game filter appends `,1024-65535` to the port list exactly when the
   * argument is a `--filter-tcp=`, an "other" hostlist follows before the
   * next `--new`, and the item is not already in the list.
   */
  lemma GameArgAppends(args: seq<string>, i: nat)
    requires i < |args|
    ensures GameArg(args, i) == if NeedsGamePorts(args, i) then args[i] + "," + GamePorts else args[i]
    ensures NeedsGamePorts(args, i) ==> Ports(GameArg(args, i)) == Ports(args[i]) + [GamePorts]
  {
    if NeedsGamePorts(args, i) {
      AddGamePortsAppends(args[i]);
    }
  }

  /** The game filter keeps the length and changes only `--filter-tcp=` arguments lacking the game ports. */
  lemma GameFilterShape(args: seq<string>, enabled: bool, i: nat)
    requires i < |args|
    ensures |GameAll(args, enabled)| == |args|
    ensures !StartsWith(args[i], FilterTcpFlag) ==> GameAll(args, enabled)[i] == args[i]
    ensures StartsWith(args[i], FilterTcpFlag) && GamePorts in Ports(args[i]) ==> GameAll(args, enabled)[i] == args[i]
  {
    if enabled {
      GameAt(args, |args|, i);
    }
  }

  lemma NotNewOrHostlist(a: string)
    requires StartsWith(a, FilterTcpFlag)
    ensures a != NewGroup && !IsOtherHostlist(a)
  {
    Differs(a, HostlistFlag, 2);
    assert a[2] == 'f';
  }

  /** A rewritten argument is a group boundary or an "other" hostlist exactly when the original was. */
  lemma GameArgKind(args: seq<string>, j: nat)
    requires j < |args|
    ensures (GameArg(args, j) == NewGroup) == (args[j] == NewGroup)
    ensures IsOtherHostlist(GameArg(args, j)) == IsOtherHostlist(args[j])
  {
    if NeedsGamePorts(args, j) {
      AddGamePortsAppends(args[j]);
      NotNewOrHostlist(args[j]);
      NotNewOrHostlist(AddGamePorts(args[j]));
    }
  }

  /** The filter rewrites no group boundary and no hostlist, so every group keeps its hostlists. */
  lemma {:induction false} GameKeepsGroups(args: seq<string>, j: nat)
    ensures GroupHasOtherHostlist(GameAll(args, true), j) == GroupHasOtherHostlist(args, j)
    decreases |args| - j
  {
    if j < |args| {
      GameAt(args, |args|, j);
      GameArgKind(args, j);
      GameKeepsGroups(args, j + 1);
    }
  }

  lemma {:induction false} GameFixed(xs: seq<string>, n: nat)
    requires n <= |xs|
    requires forall i :: 0 <= i < n ==> GameArg(xs, i) == xs[i]
    ensures GameUpTo(xs, n) == xs[..n]
  {
    if n > 0 {
      GameFixed(xs, n - 1);
      assert xs[..n - 1] + [xs[n - 1]] == xs[..n];
    }
  }

  /** A second game-filter pass leaves each argument of the first pass's output alone. */
  lemma GameArgSettled(args: seq<string>, i: nat)
    requires i < |args|
    ensures GameArg(GameAll(args, true), i) == GameAll(args, true)[i]
  {
    var r := GameAll(args, true);
    GameAt(args, |args|, i);
    GameKeepsGroups(args, i + 1);
    if NeedsGamePorts(args, i) {
      AddGamePortsAppends(args[i]);
      assert GamePorts in Ports(r[i]);
    }
  }

  /** Applying the game filter twice is applying it once. */
  lemma GameFilterIdempotent(args: seq<string>)
    ensures GameAll(GameAll(args, true), true) == GameAll(args, true)
  {
    var r := GameAll(args, true);
    forall i | 0 <= i < |r|
      ensures GameArg(r, i) == r[i]
    {
      GameArgSettled(args, i);
    }
    GameFixed(r, |r|);
    assert r[..|r|] == r;
  }

  // ---------------------------------------------------------------------
  // Ipset injection (StrategyRunnerService.ApplyIpsetLists)
  // ---------------------------------------------------------------------

  /** An "other" hostlist whose next input argument does not already mention ipset-all.txt. */
  predicate NeedsIpset(args: seq<string>, i: nat)
    requires i < |args|
  {
    IsOtherHostlist(args[i]) && (i + 1 >= |args| || !Contains(args[i + 1], IpsetAllName, false))
  }

  /** The input positions after which the ipset pass inserts its argument. */
  function IpsetMarks(args: seq<string>): (m: seq<bool>)
    ensures |m| == |args|
  {
    seq(|args|, i requires 0 <= i < |args| => NeedsIpset(args, i))
  }

  function IpsetArg(listsDir: string): string
  {
    "--ipset=" + Combine(listsDir, IpsetAllName)
  }

  function IpsetAll(args: seq<string>, enabled: bool, ipsetFileExists: bool, listsDir: string): seq<string>
  {
    if !enabled || !ipsetFileExists then args else InsertAfterMarked(args, IpsetMarks(args), IpsetArg(listsDir))
  }

  method ApplyIpsetLists(args: seq<string>, ipsetEnabled: bool, ipsetFileExists: bool, listsDir: string)
    returns (result: seq<string>)
    ensures result == IpsetAll(args, ipsetEnabled, ipsetFileExists, listsDir)
  {
    if !ipsetEnabled {
      return args;
    }
    var ipsetPath := Combine(listsDir, IpsetAllName);
    if !ipsetFileExists {
      return args;
    }
    result := InsertIpset(args, ipsetPath);
  }

  /** ApplyIpsetLists's loop: copies `args`, adding the ipset argument after each marked one. */
  method InsertIpset(args: seq<string>, ipsetPath: string) returns (result: seq<string>)
    ensures result == InsertAfterMarked(args, IpsetMarks(args), "--ipset=" + ipsetPath)
  {
    ghost var marks := IpsetMarks(args);
    result := [];
    for i := 0 to |args|
      invariant result == InsertAfterMarked(args[..i], marks[..i], "--ipset=" + ipsetPath)
    {
      PrefixInsert(args, marks, "--ipset=" + ipsetPath, i);
      var step := IpsetStep(args, i, ipsetPath);
      result := result + step;
    }
    assert args[..|args|] == args && marks[..|args|] == marks;
  }

  /** The body of ApplyIpsetLists's loop: the argument, then the ipset argument where it is needed. */
  method IpsetStep(args: seq<string>, i: nat, ipsetPath: string) returns (step: seq<string>)
    requires i < |args|
    ensures step == [args[i]] + (if IpsetMarks(args)[i] then ["--ipset=" + ipsetPath] else [])
  {
    var arg := args[i];
    step := [arg];
    if StartsWith(arg, HostlistFlag) {
      var filename := GetFileName(Unquote(arg[|HostlistFlag|..]));
      if filename in OtherLists {
        if i + 1 >= |args| || !Contains(args[i + 1], IpsetAllName, false) {
          step := step + ["--ipset=" + ipsetPath];
        }
      }
    }
  }

  /**
   * Every input argument survives the ipset pass in order, and right after
   * each "other" hostlist not already followed by an ipset-all list stands
   * `--ipset=<lists>\ipset-all.txt`.
   */
  lemma IpsetKeepsAndInserts(args: seq<string>, listsDir: string, j: nat)
    requires j < |args|
    ensures Pos(IpsetMarks(args), j) < |IpsetAll(args, true, true, listsDir)|
    ensures IpsetAll(args, true, true, listsDir)[Pos(IpsetMarks(args), j)] == args[j]
    ensures NeedsIpset(args, j) ==>
      Pos(IpsetMarks(args), j) + 1 < |IpsetAll(args, true, true, listsDir)| &&
      IpsetAll(args, true, true, listsDir)[Pos(IpsetMarks(args), j) + 1] == IpsetArg(listsDir)
  {
    KeepsAndInserts(args, IpsetMarks(args), IpsetArg(listsDir), j);
  }

  /**
   * Everything in the ipset pass's output is an input argument, or the ipset
   * argument right after an "other" hostlist that needed it.
   */
  lemma IpsetOnlyInserts(args: seq<string>, listsDir: string, k: nat) returns (j: nat)
    requires k < |IpsetAll(args, true, true, listsDir)|
    ensures j < |args|
    ensures IpsetAll(args, true, true, listsDir)[k] == args[j] ||
      (0 < k && IpsetAll(args, true, true, listsDir)[k] == IpsetArg(listsDir) &&
       IpsetAll(args, true, true, listsDir)[k - 1] == args[j] && NeedsIpset(args, j))
  {
    j := Neighbour(args, IpsetMarks(args), IpsetArg(listsDir), k);
  }

  lemma IpsetArgMentionsList(listsDir: string)
    ensures Contains(IpsetArg(listsDir), IpsetAllName, false)
  {
    var path := Combine(listsDir, IpsetAllName);
    ContainsSuffix(path, IpsetAllName);
    ContainsPrefixed("--ipset=", path, IpsetAllName, false);
  }

  lemma IpsetArgNotHostlist(listsDir: string)
    ensures !StartsWith(IpsetArg(listsDir), HostlistFlag)
  {
    Differs(IpsetArg(listsDir), HostlistFlag, 2);
  }

  lemma IpsetNotNeededAgain(args: seq<string>, listsDir: string, k: nat)
    requires k < |IpsetAll(args, true, true, listsDir)|
    ensures !NeedsIpset(IpsetAll(args, true, true, listsDir), k)
  {
    IpsetArgMentionsList(listsDir);
    IpsetArgNotHostlist(listsDir);
    var j := Neighbour(args, IpsetMarks(args), IpsetArg(listsDir), k);
  }

  /** A second ipset pass adds nothing: every "other" hostlist is already followed by the list. */
  lemma IpsetIdempotent(args: seq<string>, listsDir: string)
    ensures IpsetAll(IpsetAll(args, true, true, listsDir), true, true, listsDir) == IpsetAll(args, true, true, listsDir)
  {
    var r := IpsetAll(args, true, true, listsDir);
    forall k | 0 <= k < |r|
      ensures !IpsetMarks(r)[k]
    {
      IpsetNotNeededAgain(args, listsDir, k);
    }
    NoneMarked(r, IpsetMarks(r), IpsetArg(listsDir));
  }

  // ---------------------------------------------------------------------
  // Wssize injection (StrategyRunnerService.ApplyWssize)
  // ---------------------------------------------------------------------

  predicate Is443Filter(arg: string)
  {
    StartsWith(arg, FilterTcpFlag) && Contains(arg, "443", false)
  }

  /** A 443 filter whose next input argument is not already `--wssize=1:6`. */
  predicate NeedsWssize(args: seq<string>, i: nat)
    requires i < |args|
  {
    Is443Filter(args[i]) && (i + 1 >= |args| || args[i + 1] != WssizeArg)
  }

  /** The input positions after which the first loop inserts `--wssize=1:6`. */
  function WssizeMarks(args: seq<string>): (m: seq<bool>)
    ensures |m| == |args|
  {
    seq(|args|, i requires 0 <= i < |args| => NeedsWssize(args, i))
  }

  predicate IsWinDivertFilter(arg: string)
  {
    StartsWith(arg, "--wf-tcp=") || StartsWith(arg, "--wf-udp=")
  }

  /** Index just after the last `--wf-tcp=`/`--wf-udp=` among the first `n` arguments, or |args|. */
  function InsertPosition(args: seq<string>, n: nat): (p: nat)
    requires n <= |args|
    ensures p <= |args|
    ensures p < |args| ==> 0 < p && IsWinDivertFilter(args[p - 1])
    ensures forall k :: p <= k < n ==> !IsWinDivertFilter(args[k])
  {
    if n == 0 then |args|
    else if IsWinDivertFilter(args[n - 1]) then n
    else InsertPosition(args, n - 1)
  }

  /** The synthesised group `--filter-tcp=443 --wssize=1:6 [--new]` inserted at `p`. */
  function SynthesizeGroup(r: seq<string>, p: nat): seq<string>
    requires p <= |r|
  {
    r[..p] + ["--filter-tcp=443", WssizeArg] + (if p < |r| && r[p] == NewGroup then [] else [NewGroup]) + r[p..]
  }

  function WssizeAll(args: seq<string>, enabled: bool): seq<string>
  {
    if !enabled then args
    else if true in WssizeMarks(args) then InsertAfterMarked(args, WssizeMarks(args), WssizeArg)
    else SynthesizeGroup(args, InsertPosition(args, |args|))
  }

  /** The first loop of ApplyWssize. */
  method InsertWssizeAfter443(args: seq<string>) returns (result: seq<string>, added: bool)
    ensures result == InsertAfterMarked(args, WssizeMarks(args), WssizeArg)
    ensures added == (true in WssizeMarks(args))
  {
    ghost var marks := WssizeMarks(args);
    result := [];
    added := false;
    for i := 0 to |args|
      invariant result == InsertAfterMarked(args[..i], marks[..i], WssizeArg)
      invariant added == (true in marks[..i])
    {
      PrefixInsert(args, marks, WssizeArg, i);
      assert marks[..i + 1] == marks[..i] + [marks[i]];
      var arg := args[i];
      result := result + [arg];
      if StartsWith(arg, FilterTcpFlag) && Contains(arg, "443", false) {
        if i + 1 >= |args| || args[i + 1] != WssizeArg {
          result := result + [WssizeArg];
          added := true;
        }
      }
      assert marks[i] == NeedsWssize(args, i);
    }
    assert args[..|args|] == args && marks[..|args|] == marks;
  }

  /** The backward scan of ApplyWssize for the last WinDivert filter. */
  method FindInsertPosition(args: seq<string>) returns (insertPos: nat)
    ensures insertPos == InsertPosition(args, |args|)
  {
    insertPos := |args|;
    var i := |args| - 1;
    while i >= 0
      invariant -1 <= i < |args|
      invariant InsertPosition(args, |args|) == InsertPosition(args, i + 1)
    {
      if StartsWith(args[i], "--wf-tcp=") || StartsWith(args[i], "--wf-udp=") {
        insertPos := i + 1;
        return;
      }
      i := i - 1;
    }
  }

  method ApplyWssize(args: seq<string>, wssizeEnabled: bool) returns (result: seq<string>)
    ensures result == WssizeAll(args, wssizeEnabled)
  {
    if !wssizeEnabled {
      return args;
    }
    var added;
    result, added := InsertWssizeAfter443(args);
    if !added {
      NoneMarked(args, WssizeMarks(args), WssizeArg);
      var insertPos := FindInsertPosition(result);
      result := InsertWssizeGroup(result, insertPos);
    }
  }

  /** The three inserts of ApplyWssize when no 443 filter was found. */
  method InsertWssizeGroup(args: seq<string>, insertPos: nat) returns (result: seq<string>)
    requires insertPos <= |args|
    ensures result == SynthesizeGroup(args, insertPos)
  {
    result := args[..insertPos] + ["--filter-tcp=443"] + args[insertPos..];
    result := result[..insertPos + 1] + [WssizeArg] + result[insertPos + 1..];
    assert result == args[..insertPos] + ["--filter-tcp=443", WssizeArg] + args[insertPos..];
    if insertPos + 2 >= |result| || result[insertPos + 2] != NewGroup {
      result := result[..insertPos + 2] + [NewGroup] + result[insertPos + 2..];
    }
  }

  lemma WssizeNotFilter()
    ensures !Is443Filter(WssizeArg)
  {
    Differs(WssizeArg, FilterTcpFlag, 2);
  }

  /**
   * After the first loop every 443 filter is immediately followed by
   * `--wssize=1:6`: either it was inserted, or the input already had it there.
   */
  lemma WssizeCovers(args: seq<string>, k: nat)
    requires k < |InsertAfterMarked(args, WssizeMarks(args), WssizeArg)|
    ensures var r := InsertAfterMarked(args, WssizeMarks(args), WssizeArg);
      Is443Filter(r[k]) ==> k + 1 < |r| && r[k + 1] == WssizeArg
  {
    WssizeNotFilter();
    var j := Neighbour(args, WssizeMarks(args), WssizeArg, k);
  }

  /**
   * The first loop never doubles `--wssize=1:6`: it inserts one only where
   * the next input argument is not already `--wssize=1:6`, and never after
   * a `--wssize=1:6` itself, so two in a row in the result were two in a row
   * in the input.
   */
  lemma WssizeNotDoubled(args: seq<string>, k: nat)
    requires k + 1 < |InsertAfterMarked(args, WssizeMarks(args), WssizeArg)|
    ensures var r := InsertAfterMarked(args, WssizeMarks(args), WssizeArg);
      r[k] == WssizeArg && r[k + 1] == WssizeArg ==>
      exists j :: 0 <= j < |args| - 1 && args[j] == WssizeArg && args[j + 1] == WssizeArg
  {
    var m := WssizeMarks(args);
    var r := InsertAfterMarked(args, m, WssizeArg);
    if r[k] == WssizeArg && r[k + 1] == WssizeArg {
      WssizeNotFilter();
      var j := Source(args, m, WssizeArg, k + 1);
      Lands(args, m, WssizeArg, j);
      if k + 1 == Pos(m, j) {
        // The second one is input `j`; the first stands just before it.
        assert j > 0;
        PosStep(m, j - 1);
        Lands(args, m, WssizeArg, j - 1);
        assert !m[j - 1] by {
          assert args[j] == WssizeArg;
        }
        assert args[j - 1] == WssizeArg && args[j] == WssizeArg;
      } else {
        // The second one was inserted after input `j`, which is then both a
        // 443 filter and `--wssize=1:6`.
        assert false;
      }
    }
  }

  lemma Synthesized443()
    ensures Is443Filter("--filter-tcp=443")
  {
    ContainsAt("--filter-tcp=443", "443", false, 13);
  }

  /**
   * With the pass enabled, the result always holds a 443 filter immediately
   * followed by `--wssize=1:6`: either the first loop inserted one, or a new
   * group was synthesised.
   */
  lemma WssizeAlwaysApplied(args: seq<string>)
    ensures exists k :: (0 <= k < |WssizeAll(args, true)| - 1 &&
      Is443Filter(WssizeAll(args, true)[k]) && WssizeAll(args, true)[k + 1] == WssizeArg)
  {
    var r := WssizeAll(args, true);
    var m := WssizeMarks(args);
    if true in m {
      var j :| 0 <= j < |m| && m[j];
      KeepsAndInserts(args, m, WssizeArg, j);
      var k := Pos(m, j);
      assert Is443Filter(r[k]) && r[k + 1] == WssizeArg;
    } else {
      var p := InsertPosition(args, |args|);
      Synthesized443();
      assert r[p] == "--filter-tcp=443" && r[p + 1] == WssizeArg;
    }
  }

  /**
   * When the first loop inserted nothing, `--filter-tcp=443 --wssize=1:6`
   * goes in just after the last `--wf-tcp=`/`--wf-udp=` (at the end when
   * there is none), followed by `--new` unless `--new` already stands there;
   * everything else keeps its order.
   */
  lemma WssizeSynthesizedGroup(args: seq<string>)
    requires true !in WssizeMarks(args)
    ensures var p := InsertPosition(args, |args|);
      var r := WssizeAll(args, true);
      (p == |args| || (0 < p && IsWinDivertFilter(args[p - 1]))) &&
      (forall k :: p <= k < |args| ==> !IsWinDivertFilter(args[k])) &&
      |r| >= p + 3 && r[..p] == args[..p] && r[p] == "--filter-tcp=443" && r[p + 1] == WssizeArg &&
      r[p + 2] == NewGroup &&
      r[p + 3..] == (if p < |args| && args[p] == NewGroup then args[p + 1..] else args[p..])
  {
    var p := InsertPosition(args, |args|);
    var r := WssizeAll(args, true);
    if p < |args| && args[p] == NewGroup {
      assert r == args[..p] + ["--filter-tcp=443", WssizeArg] + args[p..];
      assert r[p + 2] == args[p];
      assert r[p + 3..] == args[p + 1..];
    } else {
      assert r == args[..p] + ["--filter-tcp=443", WssizeArg, NewGroup] + args[p..];
      assert r[p + 3..] == args[p..];
    }
  }

  /**
   * The code synthesises the group whenever the first loop inserted nothing,
   * so an input whose only 443 filter is already followed by `--wssize=1:6`
   * gets a second group appended.
   */
  lemma WssizeDuplicatesCoveredGroup()
    ensures WssizeAll(["--filter-tcp=443", WssizeArg], true) ==
      ["--filter-tcp=443", WssizeArg, "--filter-tcp=443", WssizeArg, NewGroup]
  {
    var args := ["--filter-tcp=443", WssizeArg];
    WssizeNotFilter();
    assert WssizeMarks(args) == [false, false];
    Differs(args[0], "--wf-tcp=", 2);
    Differs(args[0], "--wf-udp=", 2);
    Differs(args[1], "--wf-tcp=", 3);
    Differs(args[1], "--wf-udp=", 3);
    assert InsertPosition(args, 2) == 2;
  }

  // ---------------------------------------------------------------------
  // The whole pipeline
  // ---------------------------------------------------------------------

  /** The four feature switches; the source hard-wires all four to off. */
  datatype PassFlags = PassFlags(allzone: bool, gameFilter: bool, ipset: bool, wssize: bool)

  const SourceFlags := PassFlags(false, false, false, false)

  function Pipeline(args: seq<string>, flags: PassFlags, listsDir: string, binDir: string, ipsetFileExists: bool)
    : seq<string>
  {
    var resolved := ResolveAll(args, listsDir, binDir);
    var allzone := AllzoneAll(resolved, flags.allzone);
    var game := GameAll(allzone, flags.gameFilter);
    var ipset := IpsetAll(game, flags.ipset, ipsetFileExists, listsDir);
    WssizeAll(ipset, flags.wssize)
  }

  /** A pass whose switch is off, and the ipset pass without ipset-all.txt, return their input. */
  lemma GatedPassesOff(args: seq<string>, listsDir: string, ipsetFileExists: bool)
    ensures AllzoneAll(args, false) == args
    ensures GameAll(args, false) == args
    ensures IpsetAll(args, false, ipsetFileExists, listsDir) == args
    ensures IpsetAll(args, true, false, listsDir) == args
    ensures WssizeAll(args, false) == args
  {
  }

  /**
   * With the four switches as the source sets them, the pipeline is path
   * resolution alone: same length, and every argument resolved in place.
   */
  lemma PipelineAsShipped(args: seq<string>, listsDir: string, binDir: string, ipsetFileExists: bool, i: nat)
    requires i < |args|
    ensures |Pipeline(args, SourceFlags, listsDir, binDir, ipsetFileExists)| == |args|
    ensures Pipeline(args, SourceFlags, listsDir, binDir, ipsetFileExists)[i] == ResolveArg(args[i], listsDir, binDir)
  {
    ResolveAllAt(args, listsDir, binDir, i);
  }

  /** Methods applying the passes in the source's order (StrategyRunnerService.StartStrategy). */
  method ProcessArguments(args: seq<string>, flags: PassFlags, listsDir: string, binDir: string, ipsetFileExists: bool)
    returns (processed: seq<string>)
    ensures processed == Pipeline(args, flags, listsDir, binDir, ipsetFileExists)
  {
    processed := ResolveFilePaths(args, listsDir, binDir);
    processed := ApplyAllzoneReplacement(processed, flags.allzone);
    processed := ApplyGameFilter(processed, flags.gameFilter);
    processed := ApplyIpsetLists(processed, flags.ipset, ipsetFileExists, listsDir);
    processed := ApplyWssize(processed, flags.wssize);
  }
}
