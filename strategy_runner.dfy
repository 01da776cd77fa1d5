/**
 * StrategyRunnerService: the single worker slot that StartStrategy fills
 * and Stop clears, over an abstract operating system. Every call the
 * service makes into the system is recorded, in order, in a trace of
 * effects; a call that throws ends the try block it stands in, as in the
 * source, so the effects after it in that block are not made.
 */
module StrategyRunner {
  import opened Text
  import WinPath
  import ArgRewrite
  import CommandLine
  import ArgLexer
  import ProcessService

  /** A Process object returned by Process.Start. */
  datatype Handle = Handle(id: nat)

  /** A call the service makes into the system. */
  datatype Effect =
    | Kill(h: Handle)                 // Kill, WaitForExit(5000) and Dispose on the held process
    | KillByName(processName: string) // ProcessService.KillProcess
    | StopDriver                      // starting `sc stop windivert`
    | DeleteDriver                    // starting `sc delete windivert`
    | LogCommand(fullCommand: string) // LogFullCommand
    | Launch(fileName: string, arguments: string, workingDirectory: string) // Process.Start

  /**
   * What the system answers during one call: whether winws.exe and
   * ipset-all.txt exist, which processes have exited, whether Kill on the
   * held process throws, whether starting `sc stop` throws, and the process
   * table the name lookup sees.
   */
  datatype Os = Os(
    exeExists: bool,
    ipsetExists: bool,
    exited: set<Handle>,
    killThrows: bool,
    scStopThrows: bool,
    processes: ProcessService.ProcessTable)

  /** What Process.Start does: throw, return null, or return a process. */
  datatype LaunchResult = StartThrows | NoProcess | Started(h: Handle)

  const WinwsName := "winws.exe"

  /** `_winwsProcess != null && !_winwsProcess.HasExited`. */
  predicate Alive(slot: Option<Handle>, os: Os)
  {
    slot.Some? && slot.value !in os.exited
  }

  /** StopWinDivertService: `sc stop`, then `sc delete` unless starting the first throws. */
  function Teardown(os: Os): seq<Effect>
  {
    if os.scStopThrows then [StopDriver] else [StopDriver, DeleteDriver]
  }

  /** The part of Stop after the slot: the name-based kill, then the driver teardown. */
  function AfterSlot(os: Os): seq<Effect>
  {
    [KillByName(WinwsName)] + Teardown(os)
  }

  /** The calls Stop makes; a throwing Kill skips the rest of the try block. */
  function StopEffects(slot: Option<Handle>, os: Os): seq<Effect>
  {
    if Alive(slot, os) then [Kill(slot.value)] + (if os.killThrows then [] else AfterSlot(os))
    else AfterSlot(os)
  }

  /** The slot after Stop: cleared only when it held a live process and Kill did not throw. */
  function StopSlot(slot: Option<Handle>, os: Os): Option<Handle>
  {
    if Alive(slot, os) && !os.killThrows then None else slot
  }

  /** The launch string StartStrategy passes to Process.Start. */
  function LaunchArguments(processed: seq<string>): string
  {
    CommandLine.LaunchString(processed)
  }

  /** The calls StartStrategy makes after Stop: none without the executable, else log then launch. */
  function LaunchEffects(os: Os, exePath: string, exeFolder: string, processed: seq<string>): seq<Effect>
  {
    if os.exeExists then
      [LogCommand(exePath + " " + LaunchArguments(processed)), Launch(exePath, LaunchArguments(processed), exeFolder)]
    else []
  }

  /** The slot after StartStrategy: Process.Start's result is stored unless it throws. */
  function StartSlot(slot: Option<Handle>, os: Os, launch: LaunchResult): Option<Handle>
  {
    var stopped := StopSlot(slot, os);
    if !os.exeExists then stopped
    else
      match launch
      case StartThrows => stopped
      case NoProcess => None
      case Started(h) => Some(h)
  }

  /** StartStrategy's answer: a process was started and has not exited. */
  predicate Launched(os: Os, launch: LaunchResult)
  {
    os.exeExists && launch.Started? && launch.h !in os.exited
  }

  /** IsRunning: the held process is alive, or the name lookup finds winws.exe. */
  predicate Running(slot: Option<Handle>, os: Os)
  {
    Alive(slot, os) || ProcessService.IsProcessRunning(WinwsName, os.processes)
  }

  class Runner {
    /** AppConfig.ExeFolder: the working directory of winws.exe, holding lists/ and bin/. */
    const exeFolder: string
    /** The four switches of the gated rewrite passes. */
    const flags: ArgRewrite.PassFlags
    var winwsProcess: Option<Handle>
    ghost var effects: seq<Effect>

    constructor(exeFolder: string, flags: ArgRewrite.PassFlags)
      ensures this.exeFolder == exeFolder && this.flags == flags
      ensures winwsProcess == None && effects == []
    {
      this.exeFolder := exeFolder;
      this.flags := flags;
      winwsProcess := None;
      effects := [];
    }

    /** AppConfig.WinwsExe. */
    function WinwsExePath(): string
    {
      WinPath.Combine(exeFolder, WinwsName)
    }

    function ListsDir(): string
    {
      WinPath.Combine(exeFolder, "lists")
    }

    function BinDir(): string
    {
      WinPath.Combine(exeFolder, "bin")
    }

    /** The argument list after the five rewrite passes. */
    function Processed(arguments: seq<string>, os: Os): seq<string>
    {
      ArgRewrite.Pipeline(arguments, flags, ListsDir(), BinDir(), os.ipsetExists)
    }

    method StopWinDivertService(os: Os)
      modifies this
      ensures effects == old(effects) + Teardown(os)
      ensures winwsProcess == old(winwsProcess)
    {
      effects := effects + [StopDriver];
      if !os.scStopThrows {
        effects := effects + [DeleteDriver];
      }
    }

    /** Stop: kill and clear a live held process, then kill by name and tear down the driver. */
    method Stop(os: Os)
      modifies this
      ensures effects == old(effects) + StopEffects(old(winwsProcess), os)
      ensures winwsProcess == StopSlot(old(winwsProcess), os)
    {
      if winwsProcess.Some? && winwsProcess.value !in os.exited {
        effects := effects + [Kill(winwsProcess.value)];
        if os.killThrows {
          return;
        }
        winwsProcess := None;
      }
      effects := effects + [KillByName(WinwsName)];
      StopWinDivertService(os);
    }

    /** StartStrategy: stop, check the executable, rewrite, log, launch. */
    method StartStrategy(strategyId: string, arguments: seq<string>, strategyName: string, os: Os, launch: LaunchResult)
      returns (ok: bool)
      modifies this
      ensures ok <==> Launched(os, launch)
      ensures effects == old(effects) + StopEffects(old(winwsProcess), os) +
        LaunchEffects(os, WinwsExePath(), exeFolder, Processed(arguments, os))
      ensures winwsProcess == StartSlot(old(winwsProcess), os, launch)
    {
      Stop(os);
      if !os.exeExists {
        return false;
      }
      var processed := ArgRewrite.ProcessArguments(arguments, flags, ListsDir(), BinDir(), os.ipsetExists);
      var argumentsString := CommandLine.LaunchString(processed);
      effects := effects + [LogCommand(WinwsExePath() + " " + argumentsString)];
      effects := effects + [Launch(WinwsExePath(), argumentsString, exeFolder)];
      match launch
      case StartThrows =>
        ok := false;
      case NoProcess =>
        winwsProcess := None;
        ok := false;
      case Started(h) =>
        winwsProcess := Some(h);
        ok := h !in os.exited;
    }

    /** IsRunning: the held process is alive, or some process named `winws` is running. */
    function IsRunning(os: Os): (r: bool)
      reads this
      ensures r <==> (Alive(winwsProcess, os) ||
        (os.processes.Some? && exists p :: p in os.processes.value && EqualsIgnoreCase(p.name, "winws")))
    {
      ProcessService.StripsExe("winws");
      assert WinwsName == "winws" + ".exe";
      Running(winwsProcess, os)
    }
  }

  // ---------------------------------------------------------------------
  // Properties of Stop
  // ---------------------------------------------------------------------

  /** After Stop the held process is dead or gone, unless Kill threw on a live one. */
  lemma StopLeavesNothingAlive(slot: Option<Handle>, os: Os)
    ensures !Alive(StopSlot(slot, os), os) <==> !(Alive(slot, os) && os.killThrows)
  {
  }

  /** The name-based kill and the driver teardown run unless Kill threw on a live held process. */
  lemma StopTearsDown(slot: Option<Handle>, os: Os)
    ensures KillByName(WinwsName) in StopEffects(slot, os) <==> !(Alive(slot, os) && os.killThrows)
    ensures StopDriver in StopEffects(slot, os) <==> !(Alive(slot, os) && os.killThrows)
    ensures !(Alive(slot, os) && os.killThrows) ==> AfterSlot(os) <= StopEffects(slot, os)[|StopEffects(slot, os)| - |AfterSlot(os)|..]
  {
    var e := StopEffects(slot, os);
    if Alive(slot, os) && os.killThrows {
      assert e == [Kill(slot.value)];
    } else if Alive(slot, os) {
      assert e == [Kill(slot.value)] + AfterSlot(os);
      assert e[|e| - |AfterSlot(os)|..] == AfterSlot(os);
      assert e[1] == KillByName(WinwsName) && e[2] == StopDriver;
    } else {
      assert e[0] == KillByName(WinwsName) && e[1] == StopDriver;
    }
  }

  /** The driver is stopped before it is deleted, and the name-based kill comes first. */
  lemma TeardownOrder(os: Os)
    ensures AfterSlot(os)[0] == KillByName(WinwsName) && AfterSlot(os)[1] == StopDriver
    ensures DeleteDriver in AfterSlot(os) <==> !os.scStopThrows
  {
  }

  /**
   * Stopping twice: the second Stop finds nothing to kill in the slot and
   * only kills by name and tears the driver down, unless the first Kill threw.
   */
  lemma StopTwice(slot: Option<Handle>, os: Os, os2: Os)
    requires !(Alive(slot, os) && os.killThrows)
    requires os2.exited >= os.exited
    ensures StopSlot(StopSlot(slot, os), os2) == StopSlot(slot, os)
    ensures StopEffects(StopSlot(slot, os), os2) == AfterSlot(os2)
  {
  }

  /** After a Stop whose Kill threw, the process stays in the slot, and a second Stop kills it again while it runs. */
  lemma StopAfterThrowingKill(h: Handle, os: Os, os2: Os)
    requires h !in os.exited && os.killThrows
    requires h !in os2.exited
    ensures StopSlot(Some(h), os) == Some(h)
    ensures StopEffects(StopSlot(Some(h), os), os2)[0] == Kill(h)
  {
  }

  /** A held process that has already exited is not cleared by Stop. */
  lemma ExitedHandleKept(h: Handle, os: Os)
    requires h in os.exited
    ensures StopSlot(Some(h), os) == Some(h)
    ensures StopEffects(Some(h), os) == AfterSlot(os)
  {
  }

  // ---------------------------------------------------------------------
  // Properties of StartStrategy
  // ---------------------------------------------------------------------

  /** StartStrategy always runs Stop first. */
  lemma StartStopsFirst(slot: Option<Handle>, os: Os, exePath: string, exeFolder: string, processed: seq<string>)
    ensures StopEffects(slot, os) <= StopEffects(slot, os) + LaunchEffects(os, exePath, exeFolder, processed)
  {
  }

  /** Without the executable nothing is logged or launched, the answer is false, and the slot is as Stop left it. */
  lemma NoLaunchWithoutExe(slot: Option<Handle>, os: Os, launch: LaunchResult, exePath: string, exeFolder: string,
                           processed: seq<string>)
    requires !os.exeExists
    ensures forall e :: e in StopEffects(slot, os) + LaunchEffects(os, exePath, exeFolder, processed) ==>
      !e.Launch? && !e.LogCommand?
    ensures !Launched(os, launch)
    ensures StartSlot(slot, os, launch) == StopSlot(slot, os)
  {
    assert LaunchEffects(os, exePath, exeFolder, processed) == [];
    assert StopEffects(slot, os) + [] == StopEffects(slot, os);
  }

  /** Stop never logs and never launches. */
  lemma StopNeverLaunches(slot: Option<Handle>, os: Os)
    ensures forall e :: e in StopEffects(slot, os) ==> !e.Launch? && !e.LogCommand?
  {
  }

  /**
   * With the executable present, the full command is logged immediately
   * before the launch, as the executable path, a space and the launch string.
   */
  lemma LogBeforeLaunch(slot: Option<Handle>, os: Os, exePath: string, exeFolder: string, processed: seq<string>)
    requires os.exeExists
    ensures var e := StopEffects(slot, os) + LaunchEffects(os, exePath, exeFolder, processed);
      |e| >= 2 &&
      e[|e| - 1] == Launch(exePath, LaunchArguments(processed), exeFolder) &&
      e[|e| - 2] == LogCommand(exePath + " " + e[|e| - 1].arguments) &&
      forall k :: 0 <= k < |e| - 1 ==> !e[k].Launch?
  {
    var s := StopEffects(slot, os);
    var e := s + LaunchEffects(os, exePath, exeFolder, processed);
    StopNeverLaunches(slot, os);
    forall k | 0 <= k < |e| - 1
      ensures !e[k].Launch?
    {
      if k < |s| {
        assert e[k] == s[k];
        assert s[k] in s;
      }
    }
  }

  /**
   * Lexing the launch string as the script lexer does gives back exactly
   * the processed arguments, when none is empty or holds a quote or a caret.
   */
  lemma LaunchRoundTrip(processed: seq<string>)
    requires forall k :: 0 <= k < |processed| ==> CommandLine.Lexable(processed[k])
    ensures ArgLexer.Tokens(LaunchArguments(processed)) == processed
  {
    CommandLine.LaunchStringRoundTrip(processed);
  }

  /**
   * With the switches as shipped, lexing the launch string as the script
   * lexer does gives back the script's arguments with their list and
   * fake-payload paths resolved, one for one.
   */
  lemma ShippedLaunch(arguments: seq<string>, exeFolder: string, ipsetExists: bool)
    requires var p := ArgRewrite.Pipeline(arguments, ArgRewrite.SourceFlags, WinPath.Combine(exeFolder, "lists"),
                                          WinPath.Combine(exeFolder, "bin"), ipsetExists);
      forall k :: 0 <= k < |p| ==> CommandLine.Lexable(p[k])
    ensures var launched := ArgLexer.Tokens(LaunchArguments(ArgRewrite.Pipeline(arguments, ArgRewrite.SourceFlags,
                                            WinPath.Combine(exeFolder, "lists"), WinPath.Combine(exeFolder, "bin"), ipsetExists)));
      |launched| == |arguments| &&
      forall i :: 0 <= i < |arguments| ==>
        launched[i] == ArgRewrite.ResolveArg(arguments[i], WinPath.Combine(exeFolder, "lists"), WinPath.Combine(exeFolder, "bin"))
  {
    var listsDir := WinPath.Combine(exeFolder, "lists");
    var binDir := WinPath.Combine(exeFolder, "bin");
    var p := ArgRewrite.Pipeline(arguments, ArgRewrite.SourceFlags, listsDir, binDir, ipsetExists);
    LaunchRoundTrip(p);
    if arguments != [] {
      ArgRewrite.PipelineAsShipped(arguments, listsDir, binDir, ipsetExists, 0);
    }
    forall i | 0 <= i < |arguments|
      ensures p[i] == ArgRewrite.ResolveArg(arguments[i], listsDir, binDir)
    {
      ArgRewrite.PipelineAsShipped(arguments, listsDir, binDir, ipsetExists, i);
    }
  }

  /** A true answer leaves a live process in the slot, so IsRunning holds while it has not exited. */
  lemma StartedIsRunning(slot: Option<Handle>, os: Os, launch: LaunchResult)
    requires Launched(os, launch)
    ensures StartSlot(slot, os, launch) == Some(launch.h)
    ensures Running(StartSlot(slot, os, launch), os)
  {
  }

  /** A null from Process.Start clears the slot; a throwing Process.Start leaves it as Stop did. */
  lemma FailedLaunchSlot(slot: Option<Handle>, os: Os)
    requires os.exeExists
    ensures StartSlot(slot, os, NoProcess) == None
    ensures StartSlot(slot, os, StartThrows) == StopSlot(slot, os)
  {
  }

  /** After a Stop that did not throw, IsRunning is the name lookup alone. */
  lemma RunningAfterStop(slot: Option<Handle>, os: Os)
    requires !(Alive(slot, os) && os.killThrows)
    ensures Running(StopSlot(slot, os), os) <==> ProcessService.IsProcessRunning(WinwsName, os.processes)
  {
  }
}
