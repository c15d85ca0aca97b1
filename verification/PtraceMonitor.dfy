/**
 * The run loop of PtraceMonitor and its event handlers.  Everything the operating system, the
 * clock and the Notify object contribute to an iteration is part of the iteration's input.
 */
module PtraceMonitor {
  import opened Words

  datatype Status = Ok | SetupError | Violation | Signaled | Timeout | ExternalKill | InternalError
  datatype Reason =
    | Code(n: nat)
    | FailedKill | FailedInterrupt | FailedChild | FailedMonitor | FailedFetch | FailedInspect | FailedGetevent
    | ViolationSyscall | ViolationArch | ViolationNetwork
  datatype Final = Final(status: Status, reason: Reason)

  datatype Syscall = Syscall(nr: nat)
  const SIGSYS: nat := 31
  const NR_CLONE := Syscall(56)
  const NR_FORK := Syscall(57)
  const NR_VFORK := Syscall(58)
  const NR_EXECVE := Syscall(59)
  const NR_EXECVEAT := Syscall(322)
  const NR_CLONE3 := Syscall(435)

  // Inputs ------------------------------------------------------------------------------

  /** What Regs::Fetch did. */
  datatype Fetch = Fetched | Gone | FetchFailed

  /** What Notify::EventSyscallTrace answered; `skipped` is whether the return value could be replaced. */
  datatype Response = Allow | InspectAfterReturn | RespondWithErrno(skipped: bool) | Deny

  datatype Cause = ExitCode(code: nat) | Signal(sig: nat)

  datatype Stop =
    | SignalDelivery(sig: nat)
    | EventGone                  // PTRACE_GETEVENTMSG: ESRCH
    | EventFailed                // PTRACE_GETEVENTMSG: another error
    | SyscallExit(exitRegs: Fetch, value: int)
    | NewProcess(child: int)     // fork, vfork and clone events
    | Exec
    | Exit(cause: Cause, regs: Fetch)
    | Seccomp(knownArch: bool, hostArch: bool, seccompRegs: Fetch, syscall: Syscall, response: Response)
    | OtherStop                  // VFORK_DONE, STOP and unknown events

  datatype Wait =
    | NoEvent
    | NoChild                    // waitpid: ECHILD
    | WaitFailed
    | Exited(pid: nat, code: nat)
    | Killed(pid: nat, sig: nat)
    | Stopped(pid: nat, stop: Stop)
    | Continued(pid: nat)

  /** One pass through the loop: clocks and requests, whether each kill and the interrupt work, and the wait. */
  datatype Input = Input(
    hardDeadlinePassed: bool, deadlinePassed: bool, dumpRequested: bool, killRequested: bool, networkViolated: bool,
    timeoutKillWorks: bool, interruptWorks: bool, requestedKillWorks: bool, violationKillWorks: bool, wait: Wait)

  // What Notify is told about inspected syscalls -------------------------------------------

  datatype Note =
    | Traced(pid: nat, syscall: Syscall)
    | Returned(pid: nat, syscall: Syscall, value: int)
    | Forgotten(pid: nat)

  function After(pending: map<nat, Syscall>, n: Note): map<nat, Syscall> {
    if n.Traced? then pending[n.pid := n.syscall] else pending - {n.pid}
  }

  /** The syscalls whose return is still to be reported. */
  function Pending(log: seq<Note>): map<nat, Syscall>
    decreases |log|
  {
    if log == [] then map[] else After(Pending(log[..|log| - 1]), log[|log| - 1])
  }

  lemma PendingSnoc(log: seq<Note>, n: Note)
    ensures Pending(log + [n]) == After(Pending(log), n)
  {
    assert (log + [n])[..|log|] == log;
  }

  /** Note `i` is the last one about its process before position `j`. */
  ghost predicate LastBefore(log: seq<Note>, i: nat, j: nat)
    requires i < j <= |log|
  {
    forall k :: i < k < j ==> log[k].pid != log[i].pid
  }

  /** A syscall is pending exactly if the last note about its process is that it was traced. */
  lemma {:induction false} PendingIsLatestTrace(log: seq<Note>, pid: nat)
    ensures pid in Pending(log) <==>
              exists i: nat :: i < |log| && log[i].pid == pid && log[i].Traced? && LastBefore(log, i, |log|)
    ensures pid in Pending(log) ==>
              exists i: nat :: i < |log| && log[i] == Traced(pid, Pending(log)[pid]) && LastBefore(log, i, |log|)
    decreases |log|
  {
    if log != [] {
      var n := |log| - 1;
      var rest := log[..n];
      PendingIsLatestTrace(rest, pid);
      if log[n].pid == pid {
        assert LastBefore(log, n, |log|);
        forall i: nat | i < |log| && log[i].pid == pid && LastBefore(log, i, |log|) ensures i == n {
        }
      } else {
        forall i: nat | i < n && rest[i].pid == pid
          ensures LastBefore(rest, i, n) <==> LastBefore(log, i, |log|)
        {
          if LastBefore(log, i, |log|) {
            forall k | i < k < n ensures rest[k].pid != rest[i].pid {
              assert log[k].pid != log[i].pid;
            }
          }
        }
      }
    }
  }

  /** Every return that was reported was pending at that point. */
  ghost predicate Consistent(log: seq<Note>) {
    forall j {:trigger log[j]} :: 0 <= j < |log| && log[j].Returned? ==>
      log[j].pid in Pending(log[..j]) && Pending(log[..j])[log[j].pid] == log[j].syscall
  }

  lemma ConsistentSnoc(log: seq<Note>, n: Note)
    requires Consistent(log)
    requires n.Returned? ==> n.pid in Pending(log) && Pending(log)[n.pid] == n.syscall
    ensures Consistent(log + [n])
  {
    var log' := log + [n];
    forall j | 0 <= j < |log'| && log'[j].Returned?
      ensures log'[j].pid in Pending(log'[..j]) && Pending(log'[..j])[log'[j].pid] == log'[j].syscall
    {
      assert log'[..j] == log[..j];
      if j == |log| {
        assert log[..j] == log;
      }
    }
  }

  /** Note `j` reports the return of the syscall traced at `i`. */
  ghost predicate Reports(log: seq<Note>, j: nat, i: nat)
    requires i < j < |log|
  {
    log[j].Returned? && log[i] == Traced(log[j].pid, log[j].syscall) && LastBefore(log, i, j)
  }

  /** Each reported return is that of the latest syscall of that process chosen for inspection. */
  lemma ReturnReportsLatestTrace(log: seq<Note>, j: nat)
    requires Consistent(log) && j < |log| && log[j].Returned?
    ensures exists i: nat :: i < j && Reports(log, j, i)
  {
    PendingIsLatestTrace(log[..j], log[j].pid);
    var i: nat :| i < j && log[..j][i] == Traced(log[j].pid, log[j].syscall) && LastBefore(log[..j], i, j);
    forall k | i < k < j ensures log[k].pid != log[i].pid {
      assert log[..j][k].pid != log[..j][i].pid;
    }
    assert Reports(log, j, i);
  }

  /** ... and no traced syscall is reported twice. */
  lemma ReportedAtMostOnce(log: seq<Note>, i: nat, j: nat, k: nat)
    requires i < j < |log| && i < k < |log| && Reports(log, j, i) && Reports(log, k, i)
    ensures j == k
  {
  }

  predicate IsNewProcess(sc: Syscall) {
    sc == NR_CLONE || sc == NR_CLONE3 || sc == NR_FORK || sc == NR_VFORK
  }

  predicate IsExec(sc: Syscall) {
    sc == NR_EXECVE || sc == NR_EXECVEAT
  }

  // What the handlers do, on values --------------------------------------------------------

  datatype Config = Config(mainPid: nat, collectStacktraceOnExit: bool, logAllStackTraces: bool, permitAll: bool)

  datatype State = State(
    result: Option<Final>, pending: map<nat, Syscall>,
    externalKill: bool, networkViolation: bool, timedOut: bool, hardDeadlineSet: bool,
    waitForExecveat: bool, sandboxeeExited: bool, log: seq<Note>)

  function Start(waitForExecveat: bool): State {
    State(None, map[], false, false, false, false, waitForExecveat, false, [])
  }

  function End(s: State, status: Status, reason: Reason): State {
    s.(result := Some(Final(status, reason)))
  }

  function Noted(s: State, n: Note): State {
    s.(pending := After(s.pending, n), log := s.log + [n])
  }

  function Report(s: State, pid: nat, value: int): State
    requires pid in s.pending
  {
    Noted(s, Returned(pid, s.pending[pid], value))
  }

  function OnTracedSyscall(c: Config, s: State, pid: nat, syscall: Syscall, response: Response): State {
    if syscall == NR_EXECVEAT && s.waitForExecveat then s
    else match response
         case Allow => s
         case InspectAfterReturn => Noted(s, Traced(pid, syscall))
         case RespondWithErrno(skipped) => if skipped then s else End(s, InternalError, FailedMonitor)
         case Deny => if c.permitAll then s else End(s, Violation, ViolationSyscall)
  }

  function OnSeccomp(c: Config, s: State, pid: nat, knownArch: bool, hostArch: bool, regs: Fetch, syscall: Syscall,
                     response: Response): State {
    if !knownArch || regs.Gone? then s
    else if regs.FetchFailed? then End(s, InternalError, FailedFetch)
    else if !hostArch then End(s, Violation, ViolationArch)
    else OnTracedSyscall(c, s, pid, syscall, response)
  }

  function OnSyscallExit(s: State, pid: nat, regs: Fetch, value: int): State {
    if pid !in s.pending then End(s, InternalError, FailedInspect)
    else match regs
         case Fetched => Report(s, pid, value)
         case Gone => s
         case FetchFailed => End(s, InternalError, FailedFetch)
  }

  /** No syscall-exit-stop follows a successful fork, clone or exec: its return is reported with the event. */
  function OnReturnWithoutStop(s: State, pid: nat, expected: Syscall -> bool, value: int): State {
    if pid !in s.pending then s
    else if !expected(s.pending[pid]) then End(s, InternalError, FailedInspect)
    else Report(s, pid, value)
  }

  function OnExec(s: State, pid: nat): State {
    if s.waitForExecveat then s.(waitForExecveat := false) else OnReturnWithoutStop(s, pid, IsExec, 0)
  }

  /** Why the main process ended, in the order the monitor looks for reasons. */
  function EndOfMain(s: State, cause: Cause): Final {
    if s.networkViolation then Final(Violation, ViolationNetwork)
    else if s.externalKill then Final(ExternalKill, Code(0))
    else if s.timedOut then Final(Timeout, Code(0))
    else match cause
         case ExitCode(code) => Final(Ok, Code(code))
         case Signal(sig) => Final(Signaled, Code(sig))
  }

  function OnExit(c: Config, s: State, pid: nat, cause: Cause, regs: Fetch): State {
    OnCause(c, Noted(s, Forgotten(pid)), pid, cause, regs)
  }

  function OnCause(c: Config, t: State, pid: nat, cause: Cause, regs: Fetch): State {
    var isSeccomp := cause == Signal(SIGSYS);
    if cause.ExitCode? && (!c.collectStacktraceOnExit || pid != c.mainPid) then t
    else if (isSeccomp || pid == c.mainPid || c.logAllStackTraces) && !regs.Fetched?
    then End(t, InternalError, FailedFetch)
    else if isSeccomp then End(t, Violation, ViolationSyscall)
    else if pid == c.mainPid then t.(result := Some(EndOfMain(t, cause)))
    else t
  }

  function OnStop(c: Config, s: State, pid: nat, stop: Stop): State {
    match stop
    case SignalDelivery(_) => s
    case EventGone => s
    case EventFailed => End(s, InternalError, FailedGetevent)
    case SyscallExit(regs, value) => OnSyscallExit(s, pid, regs, value)
    case NewProcess(child) => OnReturnWithoutStop(s, pid, IsNewProcess, child)
    case Exec => OnExec(s, pid)
    case Exit(cause, regs) => OnExit(c, s, pid, cause, regs)
    case Seccomp(known, host, regs, syscall, response) => OnSeccomp(c, s, pid, known, host, regs, syscall, response)
    case OtherStop => s
  }

  function OnWait(c: Config, s: State, wait: Wait): State {
    match wait
    case NoChild => End(s, InternalError, FailedChild)
    case Exited(pid, code) =>
      if pid != c.mainPid then s
      else if s.waitForExecveat then End(s, SetupError, FailedMonitor).(sandboxeeExited := true)
      else End(s, Ok, Code(code)).(sandboxeeExited := true)
    case Killed(pid, sig) =>
      if pid != c.mainPid then s
      else s.(result := Some(EndOfMain(s, Signal(sig))), sandboxeeExited := true)
    case Stopped(pid, stop) => OnStop(c, s, pid, stop)
    case _ => s
  }

  function OnKill(s: State, works: bool): State {
    if works then s.(hardDeadlineSet := true) else End(s, InternalError, FailedKill)
  }

  /** One request after the other, as long as there is no result. */
  function OnRequest(s: State, requested: bool, s': State): State {
    if s.result.None? && requested then s' else s
  }

  /** Deadlines and a request to dump the stack. */
  function OnClock(s: State, i: Input): State {
    if s.hardDeadlineSet && i.hardDeadlinePassed then End(s, Timeout, Code(0))
    else
      var t := OnRequest(s, i.deadlinePassed, OnKill(s.(timedOut := true), i.timeoutKillWorks));
      OnRequest(t, i.dumpRequested, if i.interruptWorks then t else End(t, InternalError, FailedInterrupt))
  }

  /** Requests to kill the sandboxee. */
  function OnKillRequests(s: State, i: Input): State {
    var t := OnRequest(s, i.killRequested, OnKill(s.(externalKill := true), i.requestedKillWorks));
    OnRequest(t, i.networkViolated && !t.networkViolation, OnKill(t.(networkViolation := true), i.violationKillWorks))
  }

  function OnRequests(s: State, i: Input): State {
    OnKillRequests(OnClock(s, i), i)
  }

  function Iterate(c: Config, s: State, i: Input): State {
    var t := OnRequests(s, i);
    if t.result.Some? then t else OnWait(c, t, i.wait)
  }

  function RunLoop(c: Config, s: State, inputs: seq<Input>): State
    decreases |inputs|
  {
    if s.result.Some? || inputs == [] then s else RunLoop(c, Iterate(c, s, inputs[0]), inputs[1..])
  }

  class Monitor {
    const config: Config

    var result: Option<Final>
    var syscallsInProgress: map<nat, Syscall>
    var externalKill: bool
    var networkViolation: bool
    var timedOut: bool
    var hardDeadlineSet: bool
    var waitForExecveat: bool
    var sandboxeeExited: bool
    /** How often SetExitStatusCode has been called, and what Notify was told. */
    ghost var sets: nat
    ghost var log: seq<Note>

    ghost function Now(): State
      reads this
    {
      State(result, syscallsInProgress, externalKill, networkViolation, timedOut, hardDeadlineSet, waitForExecveat,
            sandboxeeExited, log)
    }

    ghost predicate Valid()
      reads this
    {
      && sets == (if result.Some? then 1 else 0)
      && syscallsInProgress == Pending(log)
      && Consistent(log)
      && (hardDeadlineSet ==> KillRequested())
      && (result.Some? ==> Explained(result.value))
    }

    predicate KillRequested()
      reads this
    {
      timedOut || externalKill || networkViolation
    }

    /** What a final status says about what happened before. */
    predicate Explained(f: Final)
      reads this
    {
      match f.status
      case ExternalKill => externalKill && !networkViolation
      case Timeout => KillRequested()
      case Signaled => !KillRequested()
      case Violation => f.reason == ViolationNetwork ==> networkViolation
      case _ => true
    }

    constructor (config: Config, waitForExecveat: bool)
      ensures Valid() && Now() == Start(waitForExecveat)
    {
      this.config, this.waitForExecveat := config, waitForExecveat;
      result, syscallsInProgress, log, sets := None, map[], [], 0;
      externalKill, networkViolation, timedOut, hardDeadlineSet, sandboxeeExited := false, false, false, false, false;
    }

    /** The precondition on `result` is the CHECK in MonitorBase::SetExitStatusCode. */
    method SetExitStatusCode(status: Status, reason: Reason)
      requires Valid() && result.None? && Explained(Final(status, reason))
      modifies `result, `sets
      ensures Valid() && Now() == End(old(Now()), status, reason)
    {
      result, sets := Some(Final(status, reason)), sets + 1;
    }

    method KillSandboxee(works: bool) returns (ok: bool)
      requires Valid() && result.None? && KillRequested()
      modifies `result, `sets, `hardDeadlineSet
      ensures Valid() && ok == works && Now() == OnKill(old(Now()), works)
    {
      if !works {
        SetExitStatusCode(InternalError, FailedKill);
        return false;
      }
      hardDeadlineSet := true;
      return true;
    }

    method InterruptSandboxee(works: bool) returns (ok: bool)
      requires Valid() && result.None?
      modifies `result, `sets
      ensures Valid() && ok == works
      ensures Now() == if works then old(Now()) else End(old(Now()), InternalError, FailedInterrupt)
    {
      if !works {
        SetExitStatusCode(InternalError, FailedInterrupt);
      }
      return works;
    }

    /** Keeps the record of what Notify was told. */
    ghost method Remember(n: Note)
      requires Consistent(log) && (n.Returned? ==> n.pid in Pending(log) && Pending(log)[n.pid] == n.syscall)
      modifies `log
      ensures log == old(log) + [n] && Consistent(log) && Pending(log) == After(Pending(old(log)), n)
    {
      PendingSnoc(log, n);
      ConsistentSnoc(log, n);
      log := log + [n];
    }

    /** Notify::EventSyscallReturn for the syscall in progress, which is then forgotten. */
    method ReportReturn(pid: nat, value: int)
      requires Valid() && pid in syscallsInProgress
      modifies `syscallsInProgress, `log
      ensures Valid() && Now() == Report(old(Now()), pid, value)
    {
      hide Pending, Consistent;
      Remember(Returned(pid, syscallsInProgress[pid], value));
      syscallsInProgress := syscallsInProgress - {pid};
    }

    method ActionProcessSyscall(pid: nat, syscall: Syscall, response: Response)
      requires Valid() && result.None?
      modifies `result, `sets, `syscallsInProgress, `log
      ensures Valid() && Now() == OnTracedSyscall(config, old(Now()), pid, syscall, response)
    {
      hide Pending, Consistent;
      if syscall == NR_EXECVEAT && waitForExecveat {
        return;
      }
      match response
      case Allow =>
      case InspectAfterReturn =>
        Remember(Traced(pid, syscall));
        syscallsInProgress := syscallsInProgress[pid := syscall];
      case RespondWithErrno(skipped) =>
        if !skipped {
          SetExitStatusCode(InternalError, FailedMonitor);
        }
      case Deny =>
        if !config.permitAll {
          SetExitStatusCode(Violation, ViolationSyscall);
        }
    }

    method EventPtraceSeccomp(
      pid: nat, knownArch: bool, hostArch: bool, regs: Fetch, syscall: Syscall, response: Response)
      requires Valid() && result.None?
      modifies `result, `sets, `syscallsInProgress, `log
      ensures Valid() && Now() == OnSeccomp(config, old(Now()), pid, knownArch, hostArch, regs, syscall, response)
    {
      if !knownArch || regs.Gone? {
        return;
      }
      if regs.FetchFailed? {
        SetExitStatusCode(InternalError, FailedFetch);
        return;
      }
      if !hostArch {
        SetExitStatusCode(Violation, ViolationArch);
        return;
      }
      ActionProcessSyscall(pid, syscall, response);
    }

    method EventSyscallExit(pid: nat, regs: Fetch, value: int)
      requires Valid() && result.None?
      modifies `result, `sets, `syscallsInProgress, `log
      ensures Valid() && Now() == OnSyscallExit(old(Now()), pid, regs, value)
    {
      if pid !in syscallsInProgress {
        SetExitStatusCode(InternalError, FailedInspect);
        return;
      }
      match regs
      case Gone =>
      case FetchFailed =>
        SetExitStatusCode(InternalError, FailedFetch);
      case Fetched =>
        ReportReturn(pid, value);
    }

    method EventPtraceNewProcess(pid: nat, child: int)
      requires Valid() && result.None?
      modifies `result, `sets, `syscallsInProgress, `log
      ensures Valid() && Now() == OnReturnWithoutStop(old(Now()), pid, IsNewProcess, child)
    {
      if pid in syscallsInProgress {
        if !IsNewProcess(syscallsInProgress[pid]) {
          SetExitStatusCode(InternalError, FailedInspect);
          return;
        }
        ReportReturn(pid, child);
      }
    }

    method EventPtraceExec(pid: nat)
      requires Valid() && result.None?
      modifies `result, `sets, `syscallsInProgress, `log, `waitForExecveat
      ensures Valid() && Now() == OnExec(old(Now()), pid)
    {
      if waitForExecveat {
        waitForExecveat := false;
      } else if pid in syscallsInProgress {
        if !IsExec(syscallsInProgress[pid]) {
          SetExitStatusCode(InternalError, FailedInspect);
          return;
        }
        ReportReturn(pid, 0);
      }
    }

    /** The chain of reasons that EventPtraceExit and the loop share. */
    method SetEndOfMain(cause: Cause)
      requires Valid() && result.None?
      modifies `result, `sets
      ensures Valid() && Now() == old(Now()).(result := Some(EndOfMain(old(Now()), cause)))
    {
      hide Pending, Consistent;
      if networkViolation {
        SetExitStatusCode(Violation, ViolationNetwork);
      } else if externalKill {
        SetExitStatusCode(ExternalKill, Code(0));
      } else if timedOut {
        SetExitStatusCode(Timeout, Code(0));
      } else if cause.ExitCode? {
        SetExitStatusCode(Ok, Code(cause.code));
      } else {
        SetExitStatusCode(Signaled, Code(cause.sig));
      }
    }

    method EventPtraceExit(pid: nat, cause: Cause, regs: Fetch)
      requires Valid() && result.None?
      modifies `result, `sets, `syscallsInProgress, `log
      ensures Valid() && Now() == OnExit(config, old(Now()), pid, cause, regs)
    {
      hide Pending, Consistent, OnCause;
      Remember(Forgotten(pid));
      syscallsInProgress := syscallsInProgress - {pid};
      HandleCause(pid, cause, regs);
    }

    /** The rest of EventPtraceExit, with the process forgotten. */
    method HandleCause(pid: nat, cause: Cause, regs: Fetch)
      requires Valid() && result.None?
      modifies `result, `sets
      ensures Valid() && Now() == OnCause(config, old(Now()), pid, cause, regs)
    {
      hide Pending, Consistent, EndOfMain;
      if cause.ExitCode? && (!config.collectStacktraceOnExit || pid != config.mainPid) {
        return;
      }
      var isSeccomp := cause == Signal(SIGSYS);
      if isSeccomp || pid == config.mainPid || config.logAllStackTraces {
        if !regs.Fetched? {
          SetExitStatusCode(InternalError, FailedFetch);
          return;
        }
      }
      if isSeccomp {
        SetExitStatusCode(Violation, ViolationSyscall);
        return;
      }
      if pid == config.mainPid {
        SetEndOfMain(cause);
      }
    }

    method StateProcessStopped(pid: nat, stop: Stop)
      requires Valid() && result.None?
      modifies `result, `sets, `syscallsInProgress, `log, `waitForExecveat
      ensures Valid() && Now() == OnStop(config, old(Now()), pid, stop)
    {
      hide Pending, Consistent;
      match stop
      case SignalDelivery(_) =>
      case EventGone =>
      case EventFailed => SetExitStatusCode(InternalError, FailedGetevent);
      case SyscallExit(regs, value) => EventSyscallExit(pid, regs, value);
      case NewProcess(child) => EventPtraceNewProcess(pid, child);
      case Exec => EventPtraceExec(pid);
      case Exit(cause, regs) => EventPtraceExit(pid, cause, regs);
      case Seccomp(known, host, regs, syscall, response) =>
        EventPtraceSeccomp(pid, known, host, regs, syscall, response);
      case OtherStop =>
    }

    /** What the loop does with the outcome of a wait. */
    method HandleWait(wait: Wait)
      requires Valid() && result.None?
      modifies `result, `sets, `syscallsInProgress, `log, `waitForExecveat, `sandboxeeExited
      ensures Valid() && Now() == OnWait(config, old(Now()), wait)
    {
      hide Pending, Consistent;
      match wait
      case NoEvent =>
      case WaitFailed =>
      case NoChild => SetExitStatusCode(InternalError, FailedChild);
      case Exited(pid, code) =>
        if pid == config.mainPid {
          if !waitForExecveat {
            SetExitStatusCode(Ok, Code(code));
          } else {
            SetExitStatusCode(SetupError, FailedMonitor);
          }
          sandboxeeExited := true;
        }
      case Killed(pid, sig) =>
        if pid == config.mainPid {
          SetEndOfMain(Signal(sig));
          sandboxeeExited := true;
        }
      case Stopped(pid, stop) => StateProcessStopped(pid, stop);
      case Continued(pid) =>
    }

    /** The part of an iteration before the wait; false where the loop is left. */
    method HandleRequests(i: Input) returns (go: bool)
      requires Valid() && result.None?
      modifies `result, `sets, `timedOut, `externalKill, `networkViolation, `hardDeadlineSet
      ensures Valid() && Now() == OnRequests(old(Now()), i)
      ensures go <==> result.None?
    {
      hide Pending, Consistent;
      go := HandleClock(i);
      if go {
        go := HandleKillRequests(i);
      }
    }

    method HandleClock(i: Input) returns (go: bool)
      requires Valid() && result.None?
      modifies `result, `sets, `timedOut, `hardDeadlineSet
      ensures Valid() && Now() == OnClock(old(Now()), i)
      ensures go <==> result.None?
    {
      hide Pending, Consistent;
      if hardDeadlineSet && i.hardDeadlinePassed {
        SetExitStatusCode(Timeout, Code(0));
        return false;
      }
      if i.deadlinePassed {
        timedOut := true;
        go := KillSandboxee(i.timeoutKillWorks);
        if !go {
          return;
        }
      }
      if i.dumpRequested {
        go := InterruptSandboxee(i.interruptWorks);
        if !go {
          return;
        }
      }
      return true;
    }

    method HandleKillRequests(i: Input) returns (go: bool)
      requires Valid() && result.None?
      modifies `result, `sets, `externalKill, `networkViolation, `hardDeadlineSet
      ensures Valid() && Now() == OnKillRequests(old(Now()), i)
      ensures go <==> result.None?
    {
      hide Pending, Consistent;
      if i.killRequested {
        externalKill := true;
        go := KillSandboxee(i.requestedKillWorks);
        if !go {
          return;
        }
      }
      if i.networkViolated && !networkViolation {
        networkViolation := true;
        go := KillSandboxee(i.violationKillWorks);
        if !go {
          return;
        }
      }
      return true;
    }

    /**
     * The main loop over the inputs of its iterations, from any state that has no result yet.
     * `done` is false if all inputs have been used and the loop would go on.
     */
    method Run(inputs: seq<Input>) returns (done: bool)
      requires Valid() && result.None?
      modifies this
      ensures Valid() && Now() == RunLoop(config, old(Now()), inputs)
      ensures done <==> result.Some?
      ensures done ==> sets == 1
    {
      hide OnRequests, OnWait;
      var n := 0;
      while result.None? && n < |inputs|
        invariant Valid() && n <= |inputs|
        invariant RunLoop(config, Now(), inputs[n..]) == RunLoop(config, old(Now()), inputs)
        decreases |inputs| - n
      {
        var i := inputs[n];
        assert inputs[n..][1..] == inputs[n + 1..];
        n := n + 1;
        var go := HandleRequests(i);
        if !go {
          break;
        }
        HandleWait(i.wait);
      }
      return result.Some?;
    }
  }
}
