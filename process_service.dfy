/**
 * ProcessService: name lookups over the process table, the change detector
 * that StartMonitoring runs on a background task, and the two fields that
 * StartMonitoring and StopMonitoring reassign.
 */
module ProcessService {
  import opened Text

  // ---------------------------------------------------------------------
  // Name lookups
  // ---------------------------------------------------------------------

  /** A running process as Process.GetProcessesByName reports it. */
  datatype OsProcess = OsProcess(name: string, id: nat)

  /** The process table; None where enumerating it throws. */
  type ProcessTable = Option<seq<OsProcess>>

  /** `processName.Replace(".exe", "")`: every ordinal occurrence of `.exe` removed. */
  function LookupName(processName: string): string
  {
    ReplaceAll(processName, ".exe", "", false)
  }

  /** Process.GetProcessesByName: the processes whose name equals `name` ignoring case, in table order. */
  function ByName(procs: seq<OsProcess>, name: string): (r: seq<OsProcess>)
    ensures |r| <= |procs|
    ensures forall p :: p in r <==> p in procs && EqualsIgnoreCase(p.name, name)
  {
    if procs == [] then []
    else (if EqualsIgnoreCase(procs[0].name, name) then [procs[0]] else []) + ByName(procs[1..], name)
  }

  /** The first process of the table with the given name. */
  lemma {:induction false} ByNameFirst(procs: seq<OsProcess>, name: string)
    requires ByName(procs, name) != []
    ensures exists k :: (0 <= k < |procs| && procs[k] == ByName(procs, name)[0] &&
      forall i :: 0 <= i < k ==> !EqualsIgnoreCase(procs[i].name, name))
  {
    if !EqualsIgnoreCase(procs[0].name, name) {
      ByNameFirst(procs[1..], name);
      var k :| 0 <= k < |procs[1..]| && procs[1..][k] == ByName(procs[1..], name)[0] &&
        forall i :: 0 <= i < k ==> !EqualsIgnoreCase(procs[1..][i].name, name);
      assert procs[k + 1] == ByName(procs, name)[0];
      forall i | 0 <= i < k + 1
        ensures !EqualsIgnoreCase(procs[i].name, name)
      {
        if i > 0 {
          assert procs[i] == procs[1..][i - 1];
        }
      }
    } else {
      assert procs[0] == ByName(procs, name)[0];
    }
  }

  /** IsProcessRunning: some process has the stripped name; false where the lookup throws. */
  function IsProcessRunning(processName: string, table: ProcessTable): (r: bool)
    ensures r <==> table.Some? && exists p :: p in table.value && EqualsIgnoreCase(p.name, LookupName(processName))
  {
    match table
    case None => false
    case Some(procs) =>
      var matching := ByName(procs, LookupName(processName));
      assert matching != [] ==> matching[0] in matching;
      |matching| > 0
  }

  /** GetProcessId: the id of the first process with the stripped name, or -1 when there is none or the lookup throws. */
  function GetProcessId(processName: string, table: ProcessTable): (r: int)
    ensures r == -1 <==> !IsProcessRunning(processName, table)
  {
    match table
    case None => -1
    case Some(procs) =>
      var matching := ByName(procs, LookupName(processName));
      if |matching| > 0 then matching[0].id else -1
  }

  /** The id GetProcessId returns belongs to the first process of the table with the stripped name. */
  lemma FirstProcessId(processName: string, table: ProcessTable)
    requires GetProcessId(processName, table) != -1
    ensures exists k :: (0 <= k < |table.value| && table.value[k].id == GetProcessId(processName, table) &&
      EqualsIgnoreCase(table.value[k].name, LookupName(processName)) &&
      forall i :: 0 <= i < k ==> !EqualsIgnoreCase(table.value[i].name, LookupName(processName)))
  {
    var procs := table.value;
    var name := LookupName(processName);
    var matching := ByName(procs, name);
    ByNameFirst(procs, name);
    assert matching[0] in matching;
  }

  /** A name without a dot is looked up as itself, with or without a `.exe` suffix. */
  lemma StripsExe(base: string)
    requires '.' !in base
    ensures LookupName(base) == base
    ensures LookupName(base + ".exe") == base
  {
    forall j | 0 <= j <= |base|
      ensures !MatchAt(base, j, ".exe", false)
    {
      if j < |base| {
        FirstCharNoMatch(base, j, ".exe");
      }
    }
    ReplaceAbsent(base, ".exe", "", false);
    forall i | 0 <= i < |base|
      ensures !MatchAt(base + ".exe", i, ".exe", false)
    {
      assert (base + ".exe")[i] == base[i];
      FirstCharNoMatch(base + ".exe", i, ".exe");
    }
    ReplaceKeepsPrefix(base, ".exe", ".exe", "", false);
    assert ReplaceAll(".exe", ".exe", "", false) == "" + ReplaceAll([], ".exe", "", false);
  }

  /** So `winws.exe` and `winws` find the same processes. */
  lemma SameLookup(base: string, table: ProcessTable)
    requires '.' !in base
    ensures IsProcessRunning(base + ".exe", table) == IsProcessRunning(base, table)
    ensures GetProcessId(base + ".exe", table) == GetProcessId(base, table)
  {
    StripsExe(base);
  }

  // ---------------------------------------------------------------------
  // The change detector
  // ---------------------------------------------------------------------

  /**
   * One poll of the monitor: the instance count of the WMI query, or None
   * where the query throws and IsProcessRunningWmi falls back to the name
   * lookup over `table`; `handlerThrows` says whether a subscriber of
   * ProcessStatusChanged throws when this poll raises the event.
   */
  datatype Poll = Poll(wmiCount: Option<nat>, table: ProcessTable, handlerThrows: bool)

  /** The event raised on a change. */
  datatype StatusChanged = StatusChanged(processName: string, isRunning: bool)

  /** IsProcessRunningWmi: the WMI count when the query works, the name lookup when it throws. */
  function IsProcessRunningWmi(processName: string, poll: Poll): bool
  {
    match poll.wmiCount
    case Some(count) => count > 0
    case None => IsProcessRunning(processName, poll.table)
  }

  /**
   * The events raised for the polls after the baseline `wasRunning`: one
   * whenever a poll differs from the recorded state. The state is updated
   * after the event is raised, so a throwing subscriber leaves it as it was.
   */
  function Changes(processName: string, wasRunning: bool, polls: seq<Poll>): seq<StatusChanged>
    decreases |polls|
  {
    if polls == [] then []
    else
      var isRunning := IsProcessRunningWmi(processName, polls[0]);
      if isRunning != wasRunning then
        [StatusChanged(processName, isRunning)] +
        Changes(processName, if polls[0].handlerThrows then wasRunning else isRunning, polls[1..])
      else Changes(processName, wasRunning, polls[1..])
  }

  /** The recorded state after the polls. */
  function Settled(processName: string, wasRunning: bool, polls: seq<Poll>): bool
    decreases |polls|
  {
    if polls == [] then wasRunning
    else
      var isRunning := IsProcessRunningWmi(processName, polls[0]);
      if isRunning != wasRunning && !polls[0].handlerThrows then Settled(processName, isRunning, polls[1..])
      else Settled(processName, wasRunning, polls[1..])
  }

  /**
   * The body of the task StartMonitoring runs: `baseline` is the poll made
   * before the loop, `polls` those made until the token is cancelled.
   */
  method Monitor(processName: string, baseline: Poll, polls: seq<Poll>)
    returns (events: seq<StatusChanged>, wasRunning: bool)
    ensures events == Changes(processName, IsProcessRunningWmi(processName, baseline), polls)
    ensures wasRunning == Settled(processName, IsProcessRunningWmi(processName, baseline), polls)
  {
    wasRunning := IsProcessRunningWmi(processName, baseline);
    events := [];
    var i := 0;
    while i < |polls|
      invariant i <= |polls|
      invariant events + Changes(processName, wasRunning, polls[i..]) ==
        Changes(processName, IsProcessRunningWmi(processName, baseline), polls)
      invariant Settled(processName, wasRunning, polls[i..]) ==
        Settled(processName, IsProcessRunningWmi(processName, baseline), polls)
    {
      PollStep(processName, wasRunning, polls, i);
      var isRunning := IsProcessRunningWmi(processName, polls[i]);
      if isRunning != wasRunning {
        ghost var rest := Changes(processName, if polls[i].handlerThrows then wasRunning else isRunning, polls[i + 1..]);
        assert events + [StatusChanged(processName, isRunning)] + rest ==
          events + ([StatusChanged(processName, isRunning)] + rest);
        events := events + [StatusChanged(processName, isRunning)];
        if !polls[i].handlerThrows {
          wasRunning := isRunning;
        }
      } else {
        assert [] + Changes(processName, wasRunning, polls[i + 1..]) == Changes(processName, wasRunning, polls[i + 1..]);
      }
      i := i + 1;
    }
  }

  /** What poll `i` raises and the state it leaves, from state `wasRunning`. */
  lemma PollStep(processName: string, wasRunning: bool, polls: seq<Poll>, i: nat)
    requires i < |polls|
    ensures var isRunning := IsProcessRunningWmi(processName, polls[i]);
      var next := if isRunning != wasRunning && !polls[i].handlerThrows then isRunning else wasRunning;
      Changes(processName, wasRunning, polls[i..]) ==
        (if isRunning != wasRunning then [StatusChanged(processName, isRunning)] else []) +
        Changes(processName, next, polls[i + 1..]) &&
      Settled(processName, wasRunning, polls[i..]) == Settled(processName, next, polls[i + 1..])
  {
    assert polls[i..][0] == polls[i];
    assert polls[i..][1..] == polls[i + 1..];
  }

  predicate NoHandlerThrows(polls: seq<Poll>)
  {
    forall k :: 0 <= k < |polls| ==> !polls[k].handlerThrows
  }

  /** Every event names the monitored process, and there is at most one per poll. */
  lemma {:induction false} EventsNameProcess(processName: string, wasRunning: bool, polls: seq<Poll>)
    ensures |Changes(processName, wasRunning, polls)| <= |polls|
    ensures forall k :: 0 <= k < |Changes(processName, wasRunning, polls)| ==>
      Changes(processName, wasRunning, polls)[k].processName == processName
    decreases |polls|
  {
    if polls != [] {
      EventsNameProcess(processName, wasRunning, polls[1..]);
      var isRunning := IsProcessRunningWmi(processName, polls[0]);
      EventsNameProcess(processName, if polls[0].handlerThrows then wasRunning else isRunning, polls[1..]);
    }
  }

  /** Polls that all agree with the baseline raise nothing. */
  lemma {:induction false} SteadyIsSilent(processName: string, wasRunning: bool, polls: seq<Poll>)
    requires forall k :: 0 <= k < |polls| ==> IsProcessRunningWmi(processName, polls[k]) == wasRunning
    ensures Changes(processName, wasRunning, polls) == []
    ensures Settled(processName, wasRunning, polls) == wasRunning
    decreases |polls|
  {
    if polls != [] {
      SteadyIsSilent(processName, wasRunning, polls[1..]);
    }
  }

  /**
   * With no throwing subscriber, the events alternate, starting with the
   * opposite of the baseline.
   */
  lemma {:induction false} EventsAlternate(processName: string, wasRunning: bool, polls: seq<Poll>)
    requires NoHandlerThrows(polls)
    ensures forall k :: 0 <= k < |Changes(processName, wasRunning, polls)| ==>
      Changes(processName, wasRunning, polls)[k].isRunning == (if k % 2 == 0 then !wasRunning else wasRunning)
    decreases |polls|
  {
    if polls != [] {
      var isRunning := IsProcessRunningWmi(processName, polls[0]);
      assert NoHandlerThrows(polls[1..]);
      var e := Changes(processName, wasRunning, polls);
      if isRunning != wasRunning {
        EventsAlternate(processName, isRunning, polls[1..]);
        var rest := Changes(processName, isRunning, polls[1..]);
        assert e == [StatusChanged(processName, isRunning)] + rest;
        forall k | 0 <= k < |e|
          ensures e[k].isRunning == (if k % 2 == 0 then !wasRunning else wasRunning)
        {
          if k > 0 {
            assert e[k] == rest[k - 1];
            assert (k - 1) % 2 == 0 <==> k % 2 != 0;
          }
        }
      } else {
        EventsAlternate(processName, wasRunning, polls[1..]);
        assert e == Changes(processName, wasRunning, polls[1..]);
      }
    }
  }

  /** With no throwing subscriber, the recorded state is the last poll's. */
  lemma {:induction false} SettlesOnLastPoll(processName: string, wasRunning: bool, polls: seq<Poll>)
    requires NoHandlerThrows(polls) && polls != []
    ensures Settled(processName, wasRunning, polls) == IsProcessRunningWmi(processName, polls[|polls| - 1])
    decreases |polls|
  {
    if |polls| > 1 {
      assert NoHandlerThrows(polls[1..]);
      var isRunning := IsProcessRunningWmi(processName, polls[0]);
      SettlesOnLastPoll(processName, if isRunning != wasRunning then isRunning else wasRunning, polls[1..]);
    }
  }

  /** A subscriber that throws makes the same change be raised again on the next poll that still shows it. */
  lemma RaisedAgainAfterThrow(processName: string, wasRunning: bool, p: Poll, q: Poll, rest: seq<Poll>)
    requires p.handlerThrows
    requires IsProcessRunningWmi(processName, p) != wasRunning
    requires IsProcessRunningWmi(processName, q) == IsProcessRunningWmi(processName, p)
    ensures var e := Changes(processName, wasRunning, [p, q] + rest);
      |e| >= 2 && e[0] == e[1] == StatusChanged(processName, IsProcessRunningWmi(processName, p))
  {
    assert ([p, q] + rest)[1..] == [q] + rest;
    assert ([q] + rest)[1..] == rest;
  }

  /** A poll that WMI answers with `n` instances. */
  function WmiPoll(n: nat): Poll
  {
    Poll(Some(n), None, false)
  }

  /** Baseline stopped, then stopped, running, running, stopped: exactly two events, started then stopped. */
  lemma TwoEvents(processName: string)
    ensures Changes(processName, false, [WmiPoll(0), WmiPoll(1), WmiPoll(1), WmiPoll(0)]) ==
      [StatusChanged(processName, true), StatusChanged(processName, false)]
  {
    var polls := [WmiPoll(0), WmiPoll(1), WmiPoll(1), WmiPoll(0)];
    assert polls[1..] == [WmiPoll(1), WmiPoll(1), WmiPoll(0)];
    assert polls[1..][1..] == [WmiPoll(1), WmiPoll(0)];
    assert polls[1..][1..][1..] == [WmiPoll(0)];
  }

  // ---------------------------------------------------------------------
  // StartMonitoring / StopMonitoring
  // ---------------------------------------------------------------------

  /** A CancellationTokenSource. */
  class CancellationSource {
    var cancelled: bool
    var disposed: bool

    constructor()
      ensures !cancelled && !disposed
    {
      cancelled, disposed := false, false;
    }

    method Cancel()
      modifies this
      ensures cancelled && disposed == old(disposed)
    {
      cancelled := true;
    }

    method Dispose()
      modifies this
      ensures disposed && cancelled == old(cancelled)
    {
      disposed := true;
    }
  }

  /** A ManagementEventWatcher. */
  class Watcher {
    var stopped: bool
    var disposed: bool

    constructor()
      ensures !stopped && !disposed
    {
      stopped, disposed := false, false;
    }

    method Stop()
      modifies this
      ensures stopped && disposed == old(disposed)
    {
      stopped := true;
    }

    method Dispose()
      modifies this
      ensures disposed && stopped == old(stopped)
    {
      disposed := true;
    }
  }

  /** The service's monitoring fields; `sources` is every source StartMonitoring made. */
  class Service {
    var monitoringCts: CancellationSource?
    var processWatcher: Watcher?
    ghost var sources: set<CancellationSource>

    /** The current source, if any, is live; every earlier one has been cancelled. */
    ghost predicate Valid()
      reads this, sources
    {
      (monitoringCts != null ==> monitoringCts in sources && !monitoringCts.cancelled && !monitoringCts.disposed) &&
      forall s :: s in sources && s != monitoringCts ==> s.cancelled
    }

    constructor()
      ensures Valid()
      ensures monitoringCts == null && processWatcher == null && sources == {}
    {
      monitoringCts := null;
      processWatcher := null;
      sources := {};
    }

    /** StopMonitoring: cancels and drops the source, stops and drops the watcher; harmless with neither. */
    method StopMonitoring()
      requires Valid()
      modifies this, sources, processWatcher
      ensures Valid()
      ensures monitoringCts == null && processWatcher == null && sources == old(sources)
      ensures forall s :: s in sources ==> s.cancelled
      ensures old(monitoringCts) != null ==> old(monitoringCts).disposed
      ensures old(processWatcher) != null ==> old(processWatcher).stopped && old(processWatcher).disposed
    {
      if monitoringCts != null {
        monitoringCts.Cancel();
        monitoringCts.Dispose();
      }
      monitoringCts := null;
      if processWatcher != null {
        processWatcher.Stop();
        processWatcher.Dispose();
      }
      processWatcher := null;
    }

    /** StartMonitoring: stops any previous monitor, then installs a fresh source; only that one is live. */
    method StartMonitoring(processName: string)
      requires Valid()
      modifies this, sources, processWatcher
      ensures Valid()
      ensures monitoringCts != null && fresh(monitoringCts)
      ensures sources == old(sources) + {monitoringCts}
      ensures processWatcher == null
      ensures forall s :: s in sources && !s.cancelled ==> s == monitoringCts
    {
      StopMonitoring();
      var cts := new CancellationSource();
      monitoringCts := cts;
      sources := sources + {cts};
    }
  }
}
