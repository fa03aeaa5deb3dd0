/** Starting and stopping one executable or one service. The operating
    system (file existence, process launch, process lookup and termination,
    the service manager) is given as parameters describing what each call
    would report; the model computes which calls are made, with what
    arguments, and what the operator is told. */
module Lifecycle {
  import opened Text
  import opened Model

  // ---- Starting an executable

  /** What `cmd.exe` receives before the path: `start` with an empty window
      title, then the opening quote of the path. */
  const StartPrefix: string := "/c start \"\" \""

  /** The argument string of the launch: `start "" "<path>" <parameters>`,
      with trailing whitespace trimmed. */
  function Arguments(path: string, parameters: string): (r: string)
    ensures StartPrefix + path + "\"" <= r
    ensures r <= StartPrefix + path + "\" " + parameters
    ensures !IsWhiteSpace(r[|r| - 1])
  {
    var quoted := StartPrefix + path + "\"";
    var full := StartPrefix + path + "\" " + parameters;
    var r := TrimEnd(full);
    assert full[|quoted| - 1] == '"';
    assert full[..|quoted|] == quoted;
    r
  }

  /** The launched command is the quoted path followed, after one space, by
      the parameters verbatim up to their trailing whitespace; blank
      parameters leave the closing quote last. */
  lemma ArgumentsShape(path: string, parameters: string)
    ensures Arguments(path, parameters) ==
            if IsBlank(parameters) then StartPrefix + path + "\""
            else StartPrefix + path + "\" " + TrimEnd(parameters)
  {
    var quoted := StartPrefix + path + "\"";
    assert StartPrefix + path + "\" " == quoted + " ";
    TrimEndAppend(StartPrefix + path + "\" ", parameters);
    if IsBlank(parameters) {
      TrimEndAppend(quoted, " ");
      assert quoted[|quoted| - 1] == '"';
      assert TrimEnd(quoted) == quoted;
    }
  }

  /** The `ProcessStartInfo` of a launch. */
  datatype LaunchRequest = LaunchRequest(
    program: string,
    arguments: string,
    workingDirectory: string,
    useShellExecute: bool,
    createNoWindow: bool,
    windowHidden: bool)

  datatype StartResult =
    | FileMissing(path: string)
    | Launched(request: LaunchRequest)
    | LaunchFailed(message: string)

  /** `StartExecutable`: a missing file is reported and nothing is launched;
      otherwise `cmd.exe` is started hidden in the program's directory
      (`directoryName`, the value of `Path.GetDirectoryName`, or the current
      directory when that has none). `launchError` is the message of the
      exception `Process.Start` would throw, if any. */
  function StartExecutable(item: ExecutableItem, fileExists: bool, directoryName: Option<string>,
                           currentDirectory: string, launchError: Option<string>): (r: StartResult)
    ensures r.FileMissing? <==> !fileExists
    ensures r.FileMissing? ==> r.path == item.Path
    ensures r.LaunchFailed? <==> fileExists && launchError.Some?
    ensures r.LaunchFailed? ==> r.message == launchError.value
    ensures r.Launched? ==>
              && r.request.program == "cmd.exe"
              && r.request.arguments == (if IsBlank(item.Parameters) then StartPrefix + item.Path + "\""
                                         else StartPrefix + item.Path + "\" " + TrimEnd(item.Parameters))
              && r.request.workingDirectory == directoryName.GetOr(currentDirectory)
              && !r.request.useShellExecute && r.request.createNoWindow && r.request.windowHidden
  {
    ArgumentsShape(item.Path, item.Parameters);
    if !fileExists then FileMissing(item.Path)
    else if launchError.Some? then LaunchFailed(launchError.value)
    else Launched(LaunchRequest("cmd.exe", Arguments(item.Path, item.Parameters),
                                directoryName.GetOr(currentDirectory), false, true, true))
  }

  // ---- The process name of an executable

  predicate IsSeparator(c: char)
  {
    c == '\\' || c == '/'
  }

  /** `Path.GetFileName`: the text after the last directory separator. */
  function FileName(path: string): (r: string)
    ensures |r| <= |path| && r == path[|path| - |r|..]
    ensures forall i :: 0 <= i < |r| ==> !IsSeparator(r[i])
    ensures |r| < |path| ==> IsSeparator(path[|path| - |r| - 1])
  {
    if path == [] || IsSeparator(path[|path| - 1]) then []
    else
      var init := path[..|path| - 1];
      var r := FileName(init) + [path[|path| - 1]];
      assert init[|init| - (|r| - 1)..] + [path[|path| - 1]] == path[|path| - |r|..];
      r
  }

  /** `Path.GetFileNameWithoutExtension` applied to a file name: the part
      before its last '.', or the whole name when it has none. */
  function StripExtension(name: string): (r: string)
    ensures |r| <= |name| && r == name[..|r|]
    ensures '.' !in name ==> r == name
    ensures '.' in name ==> |r| < |name| && name[|r|] == '.' && '.' !in name[|r| + 1..]
  {
    if name == [] then []
    else if name[|name| - 1] == '.' then name[..|name| - 1]
    else
      var init := name[..|name| - 1];
      var r := StripExtension(init);
      assert name == init + [name[|name| - 1]];
      if '.' in init then
        assert name[|r| + 1..] == init[|r| + 1..] + [name[|name| - 1]];
        r
      else name
  }

  /** The name processes are looked up by when stopping an executable:
      the file name of the path up to its last '.', or the whole file name
      when it has no '.'. */
  function ProcessName(path: string): (r: string)
    ensures |r| <= |path|
    ensures forall i :: 0 <= i < |r| ==> !IsSeparator(r[i])
  {
    StripExtension(FileName(path))
  }

  lemma {:induction false} FileNameAfterSeparator(dir: string, sep: char, name: string)
    requires IsSeparator(sep)
    requires forall i :: 0 <= i < |name| ==> !IsSeparator(name[i])
    ensures FileName(dir + [sep] + name) == name
    decreases |name|
  {
    var p := dir + [sep] + name;
    if name == [] {
      assert p[|p| - 1] == sep;
    } else {
      var init := name[..|name| - 1];
      assert p[..|p| - 1] == dir + [sep] + init;
      FileNameAfterSeparator(dir, sep, init);
      assert init + [name[|name| - 1]] == name;
    }
  }

  lemma {:induction false} StripLastExtension(stem: string, ext: string)
    requires '.' !in ext
    ensures StripExtension(stem + "." + ext) == stem
    decreases |ext|
  {
    var n := stem + "." + ext;
    if ext == [] {
      assert n[..|n| - 1] == stem;
    } else {
      var init := ext[..|ext| - 1];
      assert n[..|n| - 1] == stem + "." + init;
      assert ext == init + [ext[|ext| - 1]];
      StripLastExtension(stem, init);
      assert '.' in stem + "." + init by {
        assert (stem + "." + init)[|stem|] == '.';
      }
    }
  }

  /** For `<directory>\<stem>.<extension>`, the process name is the stem,
      whatever dots the stem itself contains. */
  lemma ProcessNameOfProgram(dir: string, sep: char, stem: string, ext: string)
    requires IsSeparator(sep)
    requires forall i :: 0 <= i < |stem| ==> !IsSeparator(stem[i])
    requires forall i :: 0 <= i < |ext| ==> !IsSeparator(ext[i]) && ext[i] != '.'
    ensures ProcessName(dir + [sep] + stem + "." + ext) == stem
  {
    var name := stem + "." + ext;
    assert forall i :: 0 <= i < |name| ==> !IsSeparator(name[i]) by {
      forall i | 0 <= i < |name| ensures !IsSeparator(name[i]) {
        if i < |stem| { assert name[i] == stem[i]; }
        else if i > |stem| { assert name[i] == ext[i - |stem| - 1]; }
      }
    }
    assert dir + [sep] + stem + "." + ext == dir + [sep] + name;
    FileNameAfterSeparator(dir, sep, name);
    StripLastExtension(stem, ext);
  }

  /** The process name is the path's file name up to its last '.', or the
      whole file name when it has no '.'. */
  lemma ProcessNameOfPath(path: string)
    ensures var f, r := FileName(path), ProcessName(path);
            && |r| <= |f| && r == f[..|r|]
            && ('.' !in f ==> r == f)
            && ('.' in f ==> |r| < |f| && f[|r|] == '.' && '.' !in f[|r| + 1..])
  {
  }

  /** A path without a directory is its own file name: `notepad.exe`
      gives `notepad`, and a name without '.' is kept whole. */
  lemma ProcessNameOfBareName(name: string)
    requires forall i :: 0 <= i < |name| ==> !IsSeparator(name[i])
    ensures ProcessName(name) == StripExtension(name)
  {
    var f := FileName(name);
    if |f| < |name| {
      assert false;
    }
    assert f == name[0..];
  }

  // ---- Stopping an executable

  /** One process found by name, with how its two calls would fare: whether
      `Kill(true)` throws and whether `WaitForExit(3000)` throws. */
  datatype ProcessHandle = ProcessHandle(id: nat, killThrows: bool, waitThrows: bool)

  /** What `Process.GetProcessesByName` reports: the processes, or the
      message of the exception it throws. */
  datatype ProcessLookup = Found(processes: seq<ProcessHandle>) | LookupFailed(message: string)

  datatype ProcessCall =
    | Kill(id: nat, entireProcessTree: bool, threw: bool)
    | WaitForExit(id: nat, milliseconds: nat, threw: bool)

  datatype StopResult =
    | NotRunning(processName: string)
    | Attempted(processName: string, calls: seq<ProcessCall>)
    | StopFailed(message: string)

  const ExitWaitMilliseconds: nat := 3000

  /** The calls the kill loop makes, in order: for each process a kill of
      its process tree, then a wait of up to 3 seconds, each recorded with
      whether it threw. */
  function KillCalls(procs: seq<ProcessHandle>): (r: seq<ProcessCall>)
    ensures |r| == 2 * |procs|
  {
    if procs == [] then []
    else
      var p := procs[|procs| - 1];
      KillCalls(procs[..|procs| - 1]) +
      [Kill(p.id, true, p.killThrows), WaitForExit(p.id, ExitWaitMilliseconds, p.waitThrows)]
  }

  /** Every process gets its kill attempt and its wait, in list order,
      whether or not earlier calls threw. */
  lemma {:induction false} KillCallsShape(procs: seq<ProcessHandle>)
    ensures |KillCalls(procs)| == 2 * |procs|
    ensures forall k :: 0 <= k < |procs| ==>
              && KillCalls(procs)[2 * k] == Kill(procs[k].id, true, procs[k].killThrows)
              && KillCalls(procs)[2 * k + 1] == WaitForExit(procs[k].id, ExitWaitMilliseconds, procs[k].waitThrows)
  {
    if procs != [] {
      var init := procs[..|procs| - 1];
      KillCallsShape(init);
      forall k | 0 <= k < |init| ensures procs[k] == init[k] { }
    }
  }

  /** One more process adds its kill and its wait to the calls. */
  lemma KillCallsStep(procs: seq<ProcessHandle>, k: nat)
    requires k < |procs|
    ensures var p := procs[k];
            KillCalls(procs[..k + 1]) ==
            KillCalls(procs[..k]) + [Kill(p.id, true, p.killThrows), WaitForExit(p.id, ExitWaitMilliseconds, p.waitThrows)]
  {
    assert procs[..k + 1][..k] == procs[..k];
  }

  /** `StopExecutable`: every process carrying the executable's process name
      is killed with its process tree and waited for, in order; a call that
      throws is ignored and the loop goes on. No process found means "not
      running" and no call at all. */
  method StopExecutable(path: string, processesByName: string -> ProcessLookup) returns (r: StopResult)
    ensures match processesByName(ProcessName(path))
      case LookupFailed(message) => r == StopFailed(message)
      case Found(procs) =>
        if procs == [] then r == NotRunning(ProcessName(path))
        else r == Attempted(ProcessName(path), KillCalls(procs))
  {
    var name := ProcessName(path);
    var lookup := processesByName(name);
    if lookup.LookupFailed? {
      return StopFailed(lookup.message);
    }
    var procs := lookup.processes;
    if |procs| == 0 {
      return NotRunning(name);
    }
    var calls: seq<ProcessCall> := [];
    var k := 0;
    while k < |procs|
      invariant 0 <= k <= |procs|
      invariant calls == KillCalls(procs[..k])
    {
      var p := procs[k];
      KillCallsStep(procs, k);
      calls := calls + [Kill(p.id, true, p.killThrows)];
      calls := calls + [WaitForExit(p.id, ExitWaitMilliseconds, p.waitThrows)];
      k := k + 1;
    }
    assert procs[..k] == procs;
    r := Attempted(name, calls);
  }

  // ---- Starting and stopping a service

  /** `ServiceControllerStatus`. */
  datatype ServiceStatus =
    Stopped | StartPending | StopPending | Running | ContinuePending | PausePending | Paused

  /** Reading `ServiceController.Status`: the status, or a failure (an
      unknown service name or no access to the service manager). */
  datatype StatusQuery = Reported(status: ServiceStatus) | QueryFailed

  datatype ServiceCommand = StartCommand | StopCommand

  datatype ServiceCall = RequestStart | RequestStop | WaitForStatus(target: ServiceStatus, seconds: nat)

  /** Why a service command failed. The operator sees the same hint for each. */
  datatype ServiceFailure = StatusUnavailable | RequestRefused | WaitTimedOut

  datatype ServiceRun = ServiceRun(calls: seq<ServiceCall>, failure: Option<ServiceFailure>)

  const ServiceWaitSeconds: nat := 30

  /** The status a command acts from: start from Stopped or Paused, stop
      from Running. */
  predicate ActsFrom(command: ServiceCommand, status: ServiceStatus)
  {
    match command
    case StartCommand => status == Stopped || status == Paused
    case StopCommand => status == Running
  }

  function Target(command: ServiceCommand): ServiceStatus
  {
    if command == StartCommand then Running else Stopped
  }

  function Request(command: ServiceCommand): ServiceCall
  {
    if command == StartCommand then RequestStart else RequestStop
  }

  /** `StartService` and `StopService`: read the status; from a status the
      command acts from, send the request and wait up to 30 seconds for the
      target status. `requestSucceeds` says whether `Start()`/`Stop()`
      returns normally, `reachesTarget` whether the wait sees the target
      status in time. Any exception is caught. */
  function ControlService(command: ServiceCommand, query: StatusQuery, requestSucceeds: bool, reachesTarget: bool): (r: ServiceRun)
    ensures RequestStart in r.calls <==> command == StartCommand && query.Reported? && query.status in {Stopped, Paused}
    ensures RequestStop in r.calls <==> command == StopCommand && query == Reported(Running)
    ensures r.calls == [] <==> query.QueryFailed? || !ActsFrom(command, query.status)
    ensures r.failure == Some(StatusUnavailable) <==> query.QueryFailed?
    ensures r.failure == Some(WaitTimedOut) <==>
              query.Reported? && ActsFrom(command, query.status) && requestSucceeds && !reachesTarget
    ensures r.failure == Some(RequestRefused) <==>
              query.Reported? && ActsFrom(command, query.status) && !requestSucceeds
    ensures r.calls == if query.Reported? && ActsFrom(command, query.status)
                       then [Request(command)] + (if requestSucceeds then [WaitForStatus(Target(command), ServiceWaitSeconds)] else [])
                       else []
    ensures r.failure.None? ==> forall c :: c in r.calls ==> c == Request(command) || c == WaitForStatus(Target(command), ServiceWaitSeconds)
  {
    match query
    case QueryFailed => ServiceRun([], Some(StatusUnavailable))
    case Reported(status) =>
      if !ActsFrom(command, status) then ServiceRun([], None)
      else if !requestSucceeds then ServiceRun([Request(command)], Some(RequestRefused))
      else if !reachesTarget then ServiceRun([Request(command), WaitForStatus(Target(command), ServiceWaitSeconds)], Some(WaitTimedOut))
      else ServiceRun([Request(command), WaitForStatus(Target(command), ServiceWaitSeconds)], None)
  }

  /** The status a run leaves the service in: the target when the request
      was sent and the wait saw it, the reported status otherwise. */
  function StatusAfter(command: ServiceCommand, status: ServiceStatus, requestSucceeds: bool, reachesTarget: bool): ServiceStatus
  {
    if ActsFrom(command, status) && requestSucceeds && reachesTarget then Target(command) else status
  }

  /** The two commands never both act from one status, and a command that
      succeeded leaves a status from which repeating it sends nothing, while
      the opposite command then acts. */
  lemma ServiceCommandsAlternate(command: ServiceCommand, status: ServiceStatus, requestSucceeds: bool, reachesTarget: bool)
    ensures !(ActsFrom(StartCommand, status) && ActsFrom(StopCommand, status))
    ensures var after := StatusAfter(command, status, requestSucceeds, reachesTarget);
            ControlService(command, Reported(status), requestSucceeds, reachesTarget).failure.None? &&
            ActsFrom(command, status) ==>
              ControlService(command, Reported(after), true, true).calls == [] &&
              ActsFrom(if command == StartCommand then StopCommand else StartCommand, after)
  {
  }

  /** The text of every service failure dialog. */
  const AdministratorHint: string := "Please run this application as Administrator."

  /** The dialog shown for a failed service command, as (text, caption):
      the same advice to run as Administrator whatever the command, with a
      caption naming the command. */
  function FailureDialog(command: ServiceCommand): (r: (string, string))
    ensures r.0 == AdministratorHint
  {
    (AdministratorHint, if command == StartCommand then "Start Service failed" else "Stop Service failed")
  }

  /** The dialog a service command ends with: the failure dialog exactly
      when the run failed, and none when it succeeded or had nothing to do. */
  function DialogShown(command: ServiceCommand, run: ServiceRun): (r: Option<(string, string)>)
    ensures r.Some? <==> run.failure.Some?
    ensures r.Some? ==> r.value.0 == AdministratorHint
  {
    if run.failure.Some? then Some(FailureDialog(command)) else None
  }

  /** The operator cannot tell failures apart: an unreadable status, a
      refused request and a timed-out wait end with one and the same dialog
      for a given command, and a run that did not fail shows none. */
  lemma FailuresLookAlike(command: ServiceCommand,
                          query1: StatusQuery, requestSucceeds1: bool, reachesTarget1: bool,
                          query2: StatusQuery, requestSucceeds2: bool, reachesTarget2: bool)
    ensures var run1 := ControlService(command, query1, requestSucceeds1, reachesTarget1);
            var run2 := ControlService(command, query2, requestSucceeds2, reachesTarget2);
            run1.failure.Some? && run2.failure.Some? ==>
              DialogShown(command, run1) == DialogShown(command, run2) == Some(FailureDialog(command))
    ensures DialogShown(command, ControlService(command, Reported(Target(command)), requestSucceeds1, reachesTarget1)) == None
  {
  }
}
