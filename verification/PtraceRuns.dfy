/**
 * What a run of the ptrace monitor's main loop ends with and reports, said of its inputs alone.
 */
module PtraceRuns {
  import opened Words
  import opened PtraceMonitor

  // What was asked for --------------------------------------------------------------------

  ghost predicate TimedOut(ins: seq<Input>) { exists j :: 0 <= j < |ins| && ins[j].deadlinePassed }
  ghost predicate KillAsked(ins: seq<Input>) { exists j :: 0 <= j < |ins| && ins[j].killRequested }
  ghost predicate Violated(ins: seq<Input>) { exists j :: 0 <= j < |ins| && ins[j].networkViolated }

  /** Some input was a reason to kill the sandboxee. */
  ghost predicate Doomed(ins: seq<Input>) { TimedOut(ins) || KillAsked(ins) || Violated(ins) }

  predicate IsFirstExec(i: Input) { i.wait.Stopped? && i.wait.stop.Exec? }

  /** The sandbox is not enabled yet: no exec has been seen. */
  ghost predicate SettingUp(w: bool, ins: seq<Input>) { w && forall j :: 0 <= j < |ins| ==> !IsFirstExec(ins[j]) }

  lemma Snoc(w: bool, ins: seq<Input>, i: Input)
    ensures TimedOut(ins + [i]) <==> TimedOut(ins) || i.deadlinePassed
    ensures KillAsked(ins + [i]) <==> KillAsked(ins) || i.killRequested
    ensures Violated(ins + [i]) <==> Violated(ins) || i.networkViolated
    ensures SettingUp(w, ins + [i]) <==> SettingUp(w, ins) && !IsFirstExec(i)
  {
    var all := ins + [i];
    assert all[|ins|] == i;
    assert forall j :: 0 <= j < |ins| ==> all[j] == ins[j];
    if SettingUp(w, all) {
      forall j | 0 <= j < |ins| ensures !IsFirstExec(ins[j]) {
        assert !IsFirstExec(all[j]);
      }
    }
    if TimedOut(ins) {
      var j :| 0 <= j < |ins| && ins[j].deadlinePassed;
      assert all[j].deadlinePassed;
    }
    if KillAsked(ins) {
      var j :| 0 <= j < |ins| && ins[j].killRequested;
      assert all[j].killRequested;
    }
    if Violated(ins) {
      var j :| 0 <= j < |ins| && ins[j].networkViolated;
      assert all[j].networkViolated;
    }
  }

  // Verdicts --------------------------------------------------------------------------------

  /** The hard deadline has passed after an earlier kill. */
  ghost predicate OutOfTime(before: seq<Input>, i: Input) { Doomed(before) && i.hardDeadlinePassed }

  predicate InterruptFails(i: Input) { i.dumpRequested && !i.interruptWorks }

  /** Some kill that is due fails. */
  ghost predicate KillFails(before: seq<Input>, i: Input) {
    || (i.deadlinePassed && !i.timeoutKillWorks)
    || (i.killRequested && !i.requestedKillWorks)
    || (i.networkViolated && !Violated(before) && !i.violationKillWorks)
  }

  /** The iteration comes to its wait. */
  ghost predicate Waits(before: seq<Input>, i: Input) {
    !OutOfTime(before, i) && !InterruptFails(i) && !KillFails(before, i)
  }

  /** The main process ended in a way for which the monitor looks for a reason. */
  predicate MainEnded(c: Config, wait: Wait, cause: Cause) {
    || (wait.Killed? && wait.pid == c.mainPid && cause == Signal(wait.sig))
    || (wait == Stopped(c.mainPid, Exit(cause, Fetched)) && cause != Signal(SIGSYS)
        && (cause.ExitCode? ==> c.collectStacktraceOnExit))
  }

  ghost predicate SomehowEnded(c: Config, wait: Wait) {
    exists cause :: MainEnded(c, wait, cause)
  }

  predicate Refused(c: Config, settingUp: bool, wait: Wait) {
    && wait.Stopped? && wait.stop.Seccomp?
    && wait.stop.knownArch && wait.stop.hostArch && wait.stop.seccompRegs.Fetched?
    && wait.stop.response.Deny? && !c.permitAll && !(wait.stop.syscall == NR_EXECVEAT && settingUp)
  }

  predicate KilledBySeccomp(wait: Wait) {
    wait.Stopped? && wait.stop == Exit(Signal(SIGSYS), Fetched)
  }

  predicate ForeignArch(wait: Wait) {
    wait.Stopped? && wait.stop.Seccomp? && wait.stop.knownArch && !wait.stop.hostArch && wait.stop.seccompRegs.Fetched?
  }

  /** A stop at which registers are needed and cannot be had. */
  predicate RegistersFail(c: Config, pending: map<nat, Syscall>, wait: Wait) {
    && wait.Stopped?
    && match wait.stop {
         case SyscallExit(regs, _) => wait.pid in pending && regs.FetchFailed?
         case Seccomp(known, _, regs, _, _) => known && regs.FetchFailed?
         case Exit(cause, regs) =>
           && !regs.Fetched?
           && !(cause.ExitCode? && !(c.collectStacktraceOnExit && wait.pid == c.mainPid))
           && (cause == Signal(SIGSYS) || wait.pid == c.mainPid || c.logAllStackTraces)
         case _ => false
       }
  }

  // clone, fork, vfork and clone3; execve and execveat
  const MAKES_PROCESS: set<nat> := {56, 57, 58, 435}
  const EXECUTES: set<nat> := {59, 322}

  /** A stop that does not go with the syscall in progress. */
  predicate Unexpected(pending: map<nat, Syscall>, settingUp: bool, wait: Wait) {
    && wait.Stopped?
    && match wait.stop {
         case SyscallExit(_, _) => wait.pid !in pending
         case NewProcess(_) => wait.pid in pending && pending[wait.pid].nr !in MAKES_PROCESS
         case Exec => !settingUp && wait.pid in pending && pending[wait.pid].nr !in EXECUTES
         case _ => false
       }
  }

  predicate SkipFails(settingUp: bool, wait: Wait) {
    && wait.Stopped? && wait.stop.Seccomp?
    && wait.stop.knownArch && wait.stop.hostArch && wait.stop.seccompRegs.Fetched?
    && wait.stop.response == RespondWithErrno(false) && !(wait.stop.syscall == NR_EXECVEAT && settingUp)
  }

  /** Input `i` after the inputs `before` ends the loop with result `f`: one condition for each status and reason. */
  ghost predicate Verdict(c: Config, w: bool, before: seq<Input>, i: Input, f: Final) {
    var now, settingUp := before + [i], SettingUp(w, before);
    var pending := Pending(Notes(c, w, before));
    match f
    case Final(Ok, Code(n)) =>
      && Waits(before, i)
      && ((i.wait == Exited(c.mainPid, n) && !settingUp) || (!Doomed(now) && MainEnded(c, i.wait, ExitCode(n))))
    case Final(Signaled, Code(sig)) => Waits(before, i) && !Doomed(now) && MainEnded(c, i.wait, Signal(sig))
    case Final(Timeout, Code(n)) =>
      && n == 0
      && (OutOfTime(before, i)
          || (Waits(before, i) && SomehowEnded(c, i.wait) && TimedOut(now) && !KillAsked(now) && !Violated(now)))
    case Final(ExternalKill, Code(n)) =>
      n == 0 && Waits(before, i) && SomehowEnded(c, i.wait) && KillAsked(now) && !Violated(now)
    case Final(Violation, ViolationNetwork) => Waits(before, i) && SomehowEnded(c, i.wait) && Violated(now)
    case Final(Violation, ViolationSyscall) =>
      Waits(before, i) && (KilledBySeccomp(i.wait) || Refused(c, settingUp, i.wait))
    case Final(Violation, ViolationArch) => Waits(before, i) && ForeignArch(i.wait)
    case Final(SetupError, FailedMonitor) =>
      Waits(before, i) && i.wait.Exited? && i.wait.pid == c.mainPid && settingUp
    case Final(InternalError, FailedKill) =>
      && !OutOfTime(before, i) && KillFails(before, i)
      && (InterruptFails(i) ==> i.deadlinePassed && !i.timeoutKillWorks)
    case Final(InternalError, FailedInterrupt) =>
      !OutOfTime(before, i) && InterruptFails(i) && !(i.deadlinePassed && !i.timeoutKillWorks)
    case Final(InternalError, FailedChild) => Waits(before, i) && i.wait.NoChild?
    case Final(InternalError, FailedGetevent) => Waits(before, i) && i.wait.Stopped? && i.wait.stop.EventFailed?
    case Final(InternalError, FailedFetch) => Waits(before, i) && RegistersFail(c, pending, i.wait)
    case Final(InternalError, FailedInspect) => Waits(before, i) && Unexpected(pending, settingUp, i.wait)
    case Final(InternalError, FailedMonitor) => Waits(before, i) && SkipFails(settingUp, i.wait)
    case _ => false
  }

  // Notes -----------------------------------------------------------------------------------

  /** What Notify is told, or the monitor forgets, at a wait. */
  function NoteOf(settingUp: bool, pending: map<nat, Syscall>, wait: Wait): Option<Note> {
    if !wait.Stopped? then None
    else match wait.stop
         case Seccomp(true, true, Fetched, sc, InspectAfterReturn) =>
           if sc == NR_EXECVEAT && settingUp then None else Some(Traced(wait.pid, sc))
         case SyscallExit(Fetched, value) => ReturnOf(pending, wait.pid, true, value)
         case NewProcess(child) =>
           ReturnOf(pending, wait.pid, wait.pid in pending && pending[wait.pid].nr in MAKES_PROCESS, child)
         case Exec =>
           ReturnOf(pending, wait.pid, !settingUp && wait.pid in pending && pending[wait.pid].nr in EXECUTES, 0)
         case Exit(_, _) => Some(Forgotten(wait.pid))
         case _ => None
  }

  function ReturnOf(pending: map<nat, Syscall>, pid: nat, fits: bool, value: int): Option<Note> {
    if pid in pending && fits then Some(Returned(pid, pending[pid], value)) else None
  }

  function Append(log: seq<Note>, n: Option<Note>): seq<Note> {
    if n.Some? then log + [n.value] else log
  }

  /** All notes of a run, input by input. */
  ghost function Notes(c: Config, w: bool, ins: seq<Input>): seq<Note>
    decreases |ins|
  {
    if ins == [] then []
    else
      var before, i := ins[..|ins| - 1], ins[|ins| - 1];
      var notes := Notes(c, w, before);
      if Waits(before, i) then Append(notes, NoteOf(SettingUp(w, before), Pending(notes), i.wait)) else notes
  }

  // One iteration ---------------------------------------------------------------------------

  /** The state of a loop that has gone through the inputs `before` without a result. */
  ghost predicate Reflects(c: Config, s: State, w: bool, before: seq<Input>) {
    && s.result.None? && !s.sandboxeeExited
    && (s.timedOut <==> TimedOut(before))
    && (s.externalKill <==> KillAsked(before))
    && (s.networkViolation <==> Violated(before))
    && (s.hardDeadlineSet <==> Doomed(before))
    && (s.waitForExecveat <==> SettingUp(w, before))
    && s.log == Notes(c, w, before)
    && s.pending == Pending(s.log)
  }

  /** The state at the wait. */
  ghost function AtWait(s: State, now: seq<Input>): State {
    s.(timedOut := TimedOut(now), externalKill := KillAsked(now), networkViolation := Violated(now),
       hardDeadlineSet := Doomed(now))
  }

  /** The requests of one iteration in terms of the flags before it. */
  lemma RequestsByFlags(s: State, i: Input)
    requires s.result.None?
    ensures var t := OnRequests(s, i);
            var newViolation := i.networkViolated && !s.networkViolation;
            var out := s.hardDeadlineSet && i.hardDeadlinePassed;
            var firstKillFails := i.deadlinePassed && !i.timeoutKillWorks;
            var killFails := || firstKillFails || (i.killRequested && !i.requestedKillWorks)
                             || (newViolation && !i.violationKillWorks);
            if !out && !InterruptFails(i) && !killFails then
              t == s.(timedOut := s.timedOut || i.deadlinePassed, externalKill := s.externalKill || i.killRequested,
                      networkViolation := s.networkViolation || i.networkViolated,
                      hardDeadlineSet := s.hardDeadlineSet || i.deadlinePassed || i.killRequested || newViolation)
            else
              && t.log == s.log && t.pending == s.pending
              && t.result == Some(if out then Final(Timeout, Code(0))
                                  else if InterruptFails(i) && !firstKillFails
                                  then Final(InternalError, FailedInterrupt)
                                  else Final(InternalError, FailedKill))
  {
  }

  lemma RequestsOutcome(c: Config, s: State, w: bool, before: seq<Input>, i: Input)
    requires Reflects(c, s, w, before)
    ensures Waits(before, i) ==> OnRequests(s, i) == AtWait(s, before + [i])
    ensures !Waits(before, i) ==>
              var t := OnRequests(s, i);
              && t.log == s.log && t.pending == s.pending
              && t.result == Some(if OutOfTime(before, i) then Final(Timeout, Code(0))
                                  else if InterruptFails(i) && !(i.deadlinePassed && !i.timeoutKillWorks)
                                  then Final(InternalError, FailedInterrupt)
                                  else Final(InternalError, FailedKill))
  {
    hide TimedOut, KillAsked, Violated, Notes, Pending, SettingUp, OnRequests, InterruptFails;
    Snoc(w, before, i);
    RequestsByFlags(s, i);
  }

  // Verdicts at a wait, in terms of the state there; the main process first

  ghost predicate MainVerdict(c: Config, t: State, wait: Wait, f: Final) {
    var doomed := t.timedOut || t.externalKill || t.networkViolation;
    match f
    case Final(Ok, Code(n)) =>
      (wait == Exited(c.mainPid, n) && !t.waitForExecveat) || (!doomed && MainEnded(c, wait, ExitCode(n)))
    case Final(Signaled, Code(sig)) => !doomed && MainEnded(c, wait, Signal(sig))
    case Final(Timeout, Code(n)) =>
      n == 0 && SomehowEnded(c, wait) && t.timedOut && !t.externalKill && !t.networkViolation
    case Final(ExternalKill, Code(n)) => n == 0 && SomehowEnded(c, wait) && t.externalKill && !t.networkViolation
    case Final(Violation, ViolationNetwork) => SomehowEnded(c, wait) && t.networkViolation
    case Final(SetupError, FailedMonitor) => wait.Exited? && wait.pid == c.mainPid && t.waitForExecveat
    case _ => false
  }

  ghost predicate SyscallVerdict(c: Config, t: State, wait: Wait, f: Final) {
    || (f == Final(Violation, ViolationSyscall) && (KilledBySeccomp(wait) || Refused(c, t.waitForExecveat, wait)))
    || (f == Final(Violation, ViolationArch) && ForeignArch(wait))
  }

  ghost predicate FailureVerdict(c: Config, t: State, wait: Wait, f: Final) {
    && f.status.InternalError?
    && match f.reason {
         case FailedChild => wait.NoChild?
         case FailedGetevent => wait.Stopped? && wait.stop.EventFailed?
         case FailedFetch => RegistersFail(c, t.pending, wait)
         case FailedInspect => Unexpected(t.pending, t.waitForExecveat, wait)
         case FailedMonitor => SkipFails(t.waitForExecveat, wait)
         case _ => false
       }
  }

  ghost predicate WaitVerdict(c: Config, t: State, wait: Wait, f: Final) {
    MainVerdict(c, t, wait, f) || SyscallVerdict(c, t, wait, f) || FailureVerdict(c, t, wait, f)
  }

  lemma EndedForms(c: Config, wait: Wait)
    ensures wait.Stopped? && !wait.stop.Exit? ==> !SomehowEnded(c, wait)
    ensures wait.Stopped? && wait.stop.Exit? ==>
              (SomehowEnded(c, wait) <==> MainEnded(c, wait, wait.stop.cause))
    ensures wait.Killed? ==> (SomehowEnded(c, wait) <==> wait.pid == c.mainPid)
    ensures !wait.Stopped? && !wait.Killed? ==> !SomehowEnded(c, wait)
  {
    if wait.Killed? && wait.pid == c.mainPid {
      assert MainEnded(c, wait, Signal(wait.sig));
    }
  }

  lemma NoMainVerdict(c: Config, t: State, wait: Wait, f: Final)
    requires wait.Stopped? && (wait.stop.Exit? ==> !MainEnded(c, wait, wait.stop.cause))
    ensures !MainVerdict(c, t, wait, f)
  {
    hide SomehowEnded;
    EndedForms(c, wait);
  }

  lemma SeccompOutcome(c: Config, t: State, pid: nat, stop: Stop, f: Final)
    requires t.result.None? && stop.Seccomp?
    ensures OnSeccomp(c, t, pid, stop.knownArch, stop.hostArch, stop.seccompRegs, stop.syscall, stop.response).result
            == Some(f)
            <==> WaitVerdict(c, t, Stopped(pid, stop), f)
  {
    NoMainVerdict(c, t, Stopped(pid, stop), f);
    hide MainVerdict, Noted;
    if stop.knownArch && stop.hostArch && stop.seccompRegs.Fetched? {
      TracedOutcome(c, t, pid, stop, f);
    }
  }

  lemma TracedOutcome(c: Config, t: State, pid: nat, stop: Stop, f: Final)
    requires t.result.None? && stop.Seccomp? && stop.knownArch && stop.hostArch && stop.seccompRegs.Fetched?
    ensures OnTracedSyscall(c, t, pid, stop.syscall, stop.response).result == Some(f)
            <==> SyscallVerdict(c, t, Stopped(pid, stop), f) || FailureVerdict(c, t, Stopped(pid, stop), f)
  {
    TracedFailures(c, t, pid, stop, f);
    hide FailureVerdict, Noted;
    assert !KilledBySeccomp(Stopped(pid, stop)) && !ForeignArch(Stopped(pid, stop));
  }

  lemma TracedFailures(c: Config, t: State, pid: nat, stop: Stop, f: Final)
    requires stop.Seccomp? && stop.knownArch && stop.hostArch && stop.seccompRegs.Fetched?
    ensures FailureVerdict(c, t, Stopped(pid, stop), f)
            <==> f == Final(InternalError, FailedMonitor) && SkipFails(t.waitForExecveat, Stopped(pid, stop))
  {
  }

  lemma SyscallExitOutcome(c: Config, t: State, pid: nat, regs: Fetch, value: int, f: Final)
    requires t.result.None?
    ensures OnSyscallExit(t, pid, regs, value).result == Some(f)
            <==> WaitVerdict(c, t, Stopped(pid, SyscallExit(regs, value)), f)
  {
    NoMainVerdict(c, t, Stopped(pid, SyscallExit(regs, value)), f);
    hide MainVerdict;
  }

  lemma NewProcessOutcome(c: Config, t: State, pid: nat, child: int, f: Final)
    requires t.result.None?
    ensures OnReturnWithoutStop(t, pid, IsNewProcess, child).result == Some(f)
            <==> WaitVerdict(c, t, Stopped(pid, NewProcess(child)), f)
  {
    NoMainVerdict(c, t, Stopped(pid, NewProcess(child)), f);
    hide MainVerdict;
  }

  lemma ExecOutcome(c: Config, t: State, pid: nat, f: Final)
    requires t.result.None?
    ensures OnExec(t, pid).result == Some(f) <==> WaitVerdict(c, t, Stopped(pid, Exec), f)
  {
    NoMainVerdict(c, t, Stopped(pid, Exec), f);
    hide MainVerdict;
  }

  lemma QuietOutcome(c: Config, t: State, pid: nat, stop: Stop, f: Final)
    requires stop.SignalDelivery? || stop.EventGone? || stop.OtherStop? || stop.EventFailed?
    ensures WaitVerdict(c, t, Stopped(pid, stop), f) <==> stop.EventFailed? && f == Final(InternalError, FailedGetevent)
  {
    NoMainVerdict(c, t, Stopped(pid, stop), f);
    hide MainVerdict;
  }

  lemma StopOutcome(c: Config, t: State, pid: nat, stop: Stop, f: Final)
    requires t.result.None?
    ensures OnStop(c, t, pid, stop).result == Some(f) <==> WaitVerdict(c, t, Stopped(pid, stop), f)
  {
    hide WaitVerdict, OnSeccomp, OnSyscallExit, OnReturnWithoutStop, OnExec, OnExit;
    match stop
    case SyscallExit(regs, value) => SyscallExitOutcome(c, t, pid, regs, value, f);
    case NewProcess(child) => NewProcessOutcome(c, t, pid, child, f);
    case Exec => ExecOutcome(c, t, pid, f);
    case Exit(cause, regs) => ExitOutcome(c, t, pid, cause, regs, f);
    case Seccomp(_, _, _, _, _) => SeccompOutcome(c, t, pid, stop, f);
    case _ => QuietOutcome(c, t, pid, stop, f);
  }

  lemma ExitOutcome(c: Config, t: State, pid: nat, cause: Cause, regs: Fetch, f: Final)
    requires t.result.None?
    ensures OnExit(c, t, pid, cause, regs).result == Some(f) <==> WaitVerdict(c, t, Stopped(pid, Exit(cause, regs)), f)
  {
    var wait := Stopped(pid, Exit(cause, regs));
    if MainEnded(c, wait, cause) {
      MainExit(c, t, pid, cause, regs);
      MainOutcome(c, t, wait, cause, f);
      hide *;
    } else {
      NoMainVerdict(c, t, wait, f);
      OtherExit(c, t, pid, cause, regs, f);
      hide *;
    }
  }

  lemma MainExit(c: Config, t: State, pid: nat, cause: Cause, regs: Fetch)
    requires MainEnded(c, Stopped(pid, Exit(cause, regs)), cause)
    ensures OnExit(c, t, pid, cause, regs).result == Some(EndOfMain(t, cause))
  {
  }

  lemma OtherExit(c: Config, t: State, pid: nat, cause: Cause, regs: Fetch, f: Final)
    requires t.result.None? && !MainEnded(c, Stopped(pid, Exit(cause, regs)), cause)
    ensures var wait := Stopped(pid, Exit(cause, regs));
            OnExit(c, t, pid, cause, regs).result == Some(f)
            <==> SyscallVerdict(c, t, wait, f) || FailureVerdict(c, t, wait, f)
  {
    var wait := Stopped(pid, Exit(cause, regs));
    OtherExitResult(c, t, pid, cause, regs);
    hide OnExit;
    assert !Refused(c, t.waitForExecveat, wait) && !ForeignArch(wait) && !SkipFails(t.waitForExecveat, wait);
    assert !Unexpected(t.pending, t.waitForExecveat, wait);
  }

  lemma OtherExitResult(c: Config, t: State, pid: nat, cause: Cause, regs: Fetch)
    requires t.result.None? && !MainEnded(c, Stopped(pid, Exit(cause, regs)), cause)
    ensures var wait := Stopped(pid, Exit(cause, regs));
            OnExit(c, t, pid, cause, regs).result ==
            if RegistersFail(c, t.pending, wait) then Some(Final(InternalError, FailedFetch))
            else if KilledBySeccomp(wait) then Some(Final(Violation, ViolationSyscall))
            else None
  {
    hide EndOfMain;
  }

  lemma MainOutcome(c: Config, t: State, wait: Wait, cause: Cause, f: Final)
    requires MainEnded(c, wait, cause)
    ensures EndOfMain(t, cause) == f <==> MainVerdict(c, t, wait, f)
    ensures !SyscallVerdict(c, t, wait, f) && !FailureVerdict(c, t, wait, f)
  {
    hide SomehowEnded;
    EndedForms(c, wait);
  }

  lemma WaitOutcome(c: Config, t: State, wait: Wait, f: Final)
    requires t.result.None?
    ensures OnWait(c, t, wait).result == Some(f) <==> WaitVerdict(c, t, wait, f)
  {
    if wait.Stopped? {
      hide OnStop, WaitVerdict;
      StopOutcome(c, t, wait.pid, wait.stop, f);
    } else if wait.Killed? && wait.pid == c.mainPid {
      MainOutcome(c, t, wait, Signal(wait.sig), f);
    } else {
      hide SomehowEnded;
      EndedForms(c, wait);
    }
  }

  /** What a wait changes besides the result. */
  ghost predicate Moves(t: State, wait: Wait, u: State) {
    && u.timedOut == t.timedOut && u.externalKill == t.externalKill && u.networkViolation == t.networkViolation
    && u.hardDeadlineSet == t.hardDeadlineSet
    && u.waitForExecveat == (t.waitForExecveat && !(wait.Stopped? && wait.stop.Exec?))
    && u.log == Append(t.log, NoteOf(t.waitForExecveat, t.pending, wait))
    && u.pending == AfterNote(t.pending, NoteOf(t.waitForExecveat, t.pending, wait))
    && (u.result.None? ==> u.sandboxeeExited == t.sandboxeeExited)
  }

  function AfterNote(pending: map<nat, Syscall>, n: Option<Note>): map<nat, Syscall> {
    if n.Some? then After(pending, n.value) else pending
  }

  lemma MovesStill(t: State, wait: Wait)
    requires NoteOf(t.waitForExecveat, t.pending, wait) == None
    requires wait.Stopped? && wait.stop.Exec? ==> !t.waitForExecveat
    ensures Moves(t, wait, t)
    ensures forall status, reason :: Moves(t, wait, End(t, status, reason))
  {
    hide NoteOf;
  }

  lemma MovesNoted(t: State, wait: Wait, n: Note)
    requires NoteOf(t.waitForExecveat, t.pending, wait) == Some(n)
    requires wait.Stopped? && wait.stop.Exec? ==> !t.waitForExecveat
    ensures Moves(t, wait, Noted(t, n))
    ensures forall f :: Moves(t, wait, Noted(t, n).(result := Some(f)))
  {
    hide NoteOf, After;
  }

  lemma ReturnMoves(t: State, pid: nat, stop: Stop)
    requires t.result.None?
    ensures stop.SyscallExit? ==> Moves(t, Stopped(pid, stop), OnSyscallExit(t, pid, stop.exitRegs, stop.value))
    ensures stop.NewProcess? ==> Moves(t, Stopped(pid, stop), OnReturnWithoutStop(t, pid, IsNewProcess, stop.child))
  {
    hide Moves, Noted, End;
    var note := NoteOf(t.waitForExecveat, t.pending, Stopped(pid, stop));
    if note.Some? {
      MovesNoted(t, Stopped(pid, stop), note.value);
    } else if stop.SyscallExit? || stop.NewProcess? {
      MovesStill(t, Stopped(pid, stop));
    }
  }

  lemma ExecMoves(t: State, pid: nat)
    requires t.result.None?
    ensures Moves(t, Stopped(pid, Exec), OnExec(t, pid))
  {
    var wait := Stopped(pid, Exec);
    if !t.waitForExecveat {
      hide Moves, Noted, End;
      var note := NoteOf(t.waitForExecveat, t.pending, wait);
      if note.Some? {
        MovesNoted(t, wait, note.value);
      } else {
        MovesStill(t, wait);
      }
    }
  }

  lemma SeccompMoves(c: Config, t: State, pid: nat, stop: Stop)
    requires t.result.None? && stop.Seccomp?
    ensures Moves(t, Stopped(pid, stop),
                  OnSeccomp(c, t, pid, stop.knownArch, stop.hostArch, stop.seccompRegs, stop.syscall, stop.response))
  {
    hide Moves, Noted, End;
    var note := NoteOf(t.waitForExecveat, t.pending, Stopped(pid, stop));
    if note.Some? {
      MovesNoted(t, Stopped(pid, stop), note.value);
    } else {
      MovesStill(t, Stopped(pid, stop));
    }
  }

  lemma ExitMoves(c: Config, t: State, pid: nat, cause: Cause, regs: Fetch)
    requires t.result.None?
    ensures Moves(t, Stopped(pid, Exit(cause, regs)), OnExit(c, t, pid, cause, regs))
  {
    hide Moves, Noted, EndOfMain;
    MovesNoted(t, Stopped(pid, Exit(cause, regs)), Forgotten(pid));
  }

  lemma QuietMoves(t: State, wait: Wait, u: State)
    requires || !wait.Stopped? || wait.stop.SignalDelivery? || wait.stop.EventGone? || wait.stop.OtherStop?
             || wait.stop.EventFailed?
    requires t.result.None? && u == t.(result := u.result, sandboxeeExited := u.sandboxeeExited)
    requires u.result.None? ==> u == t
    ensures Moves(t, wait, u)
  {
  }

  lemma WaitMoves(c: Config, t: State, wait: Wait)
    requires t.result.None?
    ensures Moves(t, wait, OnWait(c, t, wait))
  {
    hide Moves, OnSeccomp, OnSyscallExit, OnReturnWithoutStop, OnExec, OnExit, EndOfMain;
    if wait.Stopped? && wait.stop.Seccomp? {
      SeccompMoves(c, t, wait.pid, wait.stop);
    } else if wait.Stopped? && wait.stop.Exit? {
      ExitMoves(c, t, wait.pid, wait.stop.cause, wait.stop.regs);
    } else if wait.Stopped? && wait.stop.Exec? {
      ExecMoves(t, wait.pid);
    } else if wait.Stopped? && (wait.stop.SyscallExit? || wait.stop.NewProcess?) {
      ReturnMoves(t, wait.pid, wait.stop);
    } else {
      QuietMoves(t, wait, OnWait(c, t, wait));
    }
  }

  lemma VerdictAtWait(c: Config, s: State, w: bool, before: seq<Input>, i: Input, f: Final)
    requires Reflects(c, s, w, before) && Waits(before, i)
    ensures Verdict(c, w, before, i, f) <==> WaitVerdict(c, AtWait(s, before + [i]), i.wait, f)
  {
    hide TimedOut, KillAsked, Violated, SettingUp, Notes, Pending, MainEnded, SomehowEnded, KilledBySeccomp, Refused,
         ForeignArch, RegistersFail, Unexpected, SkipFails;
  }

  /** An iteration ends the loop with `f` exactly if that is the verdict on its input. */
  lemma IterateVerdict(c: Config, s: State, w: bool, before: seq<Input>, i: Input, f: Final)
    requires Reflects(c, s, w, before)
    ensures Iterate(c, s, i).result == Some(f) <==> Verdict(c, w, before, i, f)
  {
    RequestsOutcome(c, s, w, before, i);
    if Waits(before, i) {
      hide OnRequests, OnWait, Verdict, WaitVerdict, Waits;
      WaitOutcome(c, AtWait(s, before + [i]), i.wait, f);
      VerdictAtWait(c, s, w, before, i, f);
    } else {
      hide OnRequests, OnWait, Verdict, Waits;
      VerdictWithoutWait(c, w, before, i, f);
    }
  }

  lemma VerdictWithoutWait(c: Config, w: bool, before: seq<Input>, i: Input, f: Final)
    requires !Waits(before, i)
    ensures Verdict(c, w, before, i, f) <==>
            f == if OutOfTime(before, i) then Final(Timeout, Code(0))
                 else if InterruptFails(i) && !(i.deadlinePassed && !i.timeoutKillWorks)
                 then Final(InternalError, FailedInterrupt)
                 else Final(InternalError, FailedKill)
  {
    hide Notes, Pending, TimedOut, KillAsked, Violated, SettingUp, InterruptFails, OutOfTime, Doomed, SomehowEnded,
         MainEnded, RegistersFail, Unexpected, SkipFails, Refused, ForeignArch, KilledBySeccomp;
  }

  lemma NotesSnoc(c: Config, w: bool, before: seq<Input>, i: Input)
    ensures Notes(c, w, before + [i]) ==
            var notes := Notes(c, w, before);
            if Waits(before, i) then Append(notes, NoteOf(SettingUp(w, before), Pending(notes), i.wait)) else notes
  {
    assert (before + [i])[..|before|] == before;
  }

  lemma PendingAppend(log: seq<Note>, n: Option<Note>)
    ensures Pending(Append(log, n)) == AfterNote(Pending(log), n)
  {
    if n.Some? {
      PendingSnoc(log, n.value);
    }
  }

  /** An iteration without a result leads to a state that reflects one input more. */
  lemma IterateReflects(c: Config, s: State, w: bool, before: seq<Input>, i: Input)
    requires Reflects(c, s, w, before) && Iterate(c, s, i).result.None?
    ensures Reflects(c, Iterate(c, s, i), w, before + [i])
  {
    hide TimedOut, KillAsked, Violated, SettingUp, Notes, Pending, OnRequests, OnWait, NoteOf, Waits, Append, AfterNote;
    RequestsOutcome(c, s, w, before, i);
    Snoc(w, before, i);
    NotesSnoc(c, w, before, i);
    WaitMoves(c, AtWait(s, before + [i]), i.wait);
    PendingAppend(s.log, NoteOf(s.waitForExecveat, s.pending, i.wait));
  }

  // Whole runs ------------------------------------------------------------------------------

  lemma {:induction false} RunSnoc(c: Config, s: State, ins: seq<Input>, i: Input)
    ensures var t := RunLoop(c, s, ins);
            RunLoop(c, s, ins + [i]) == if t.result.Some? then t else Iterate(c, t, i)
    decreases |ins|
  {
    hide Iterate;
    if s.result.None? {
      if ins == [] {
        assert ins + [i] == [i] && [i][1..] == [];
      } else {
        assert (ins + [i])[1..] == ins[1..] + [i];
        RunSnoc(c, Iterate(c, s, ins[0]), ins[1..], i);
      }
    }
  }

  ghost predicate Decided(c: Config, w: bool, before: seq<Input>, i: Input) {
    exists f :: Verdict(c, w, before, i, f)
  }

  /** No input so far has ended the loop. */
  ghost predicate Undecided(c: Config, w: bool, ins: seq<Input>) {
    forall j: nat {:trigger Decided(c, w, ins[..j], ins[j])} :: j < |ins| ==> !Decided(c, w, ins[..j], ins[j])
  }

  /** Input `k` is the first that ends the loop, and ends it with `f`. */
  ghost predicate EndsAt(c: Config, w: bool, ins: seq<Input>, k: nat, f: Final) {
    k < |ins| && Undecided(c, w, ins[..k]) && Verdict(c, w, ins[..k], ins[k], f)
  }

  lemma UndecidedSnoc(c: Config, w: bool, before: seq<Input>, i: Input)
    ensures Undecided(c, w, before + [i]) <==> Undecided(c, w, before) && !Decided(c, w, before, i)
  {
    hide Decided;
    var ins := before + [i];
    assert ins[..|before|] == before && ins[|before|] == i;
    assert forall j: nat :: j < |before| ==> ins[..j] == before[..j] && ins[j] == before[j];
    if Undecided(c, w, ins) {
      assert !Decided(c, w, ins[..|before|], ins[|before|]);
      forall j: nat | j < |before| ensures !Decided(c, w, before[..j], before[j]) {
        assert !Decided(c, w, ins[..j], ins[j]);
      }
    }
    if Undecided(c, w, before) && !Decided(c, w, before, i) {
      forall j: nat | j < |ins| ensures !Decided(c, w, ins[..j], ins[j]) {
        assert j < |before| ==> !Decided(c, w, before[..j], before[j]);
      }
    }
  }

  lemma IterateDecided(c: Config, s: State, w: bool, before: seq<Input>, i: Input)
    requires Reflects(c, s, w, before)
    ensures Iterate(c, s, i).result.Some? <==> Decided(c, w, before, i)
  {
    hide Iterate, Verdict, Reflects;
    forall f ensures Iterate(c, s, i).result == Some(f) <==> Verdict(c, w, before, i, f) {
      IterateVerdict(c, s, w, before, i, f);
    }
    if Iterate(c, s, i).result.Some? {
      assert Verdict(c, w, before, i, Iterate(c, s, i).result.value);
    }
  }

  lemma StartReflects(c: Config, w: bool)
    ensures Reflects(c, Start(w), w, [])
  {
  }

  /**
   * A loop goes on exactly as long as no input decides; and while it goes on, each flag is set if and only
   * if some input asked for it, and the notes are those of the inputs.
   */
  lemma {:induction false} RunReflects(c: Config, w: bool, ins: seq<Input>)
    ensures var t := RunLoop(c, Start(w), ins);
            && (t.result.None? <==> Undecided(c, w, ins))
            && (t.result.None? ==> Reflects(c, t, w, ins))
    decreases |ins|
  {
    hide Iterate, Reflects, Decided;
    if ins == [] {
      StartReflects(c, w);
    } else {
      var before, i := ins[..|ins| - 1], ins[|ins| - 1];
      assert ins == before + [i];
      RunReflects(c, w, before);
      RunSnoc(c, Start(w), before, i);
      UndecidedSnoc(c, w, before, i);
      var t := RunLoop(c, Start(w), before);
      hide Undecided, RunLoop;
      if t.result.None? {
        IterateDecided(c, t, w, before, i);
        if Iterate(c, t, i).result.None? {
          IterateReflects(c, t, w, before, i);
        }
      }
    }
  }

  lemma EndsAtSnoc(c: Config, w: bool, before: seq<Input>, i: Input, k: nat, f: Final)
    ensures k < |before| ==> (EndsAt(c, w, before + [i], k, f) <==> EndsAt(c, w, before, k, f))
    ensures EndsAt(c, w, before + [i], |before|, f) <==> Undecided(c, w, before) && Verdict(c, w, before, i, f)
  {
    hide Undecided, Verdict;
    var ins := before + [i];
    assert ins[..|before|] == before && ins[|before|] == i;
    assert k < |before| ==> ins[..k] == before[..k] && ins[k] == before[k];
  }

  /** A loop ends with `f` if and only if `f` is the verdict on the first of its inputs that has one. */
  lemma {:induction false} RunEndsIff(c: Config, w: bool, ins: seq<Input>, f: Final)
    ensures RunLoop(c, Start(w), ins).result == Some(f) <==> exists k: nat :: EndsAt(c, w, ins, k, f)
    decreases |ins|
  {
    hide Iterate, Reflects, Verdict, Undecided;
    if ins != [] {
      var before, i := ins[..|ins| - 1], ins[|ins| - 1];
      var t := RunLoop(c, Start(w), before);
      assert ins == before + [i];
      RunEndsIff(c, w, before, f);
      RunSnoc(c, Start(w), before, i);
      RunReflects(c, w, before);
      forall k: nat ensures k < |before| ==> (EndsAt(c, w, ins, k, f) <==> EndsAt(c, w, before, k, f)) {
        EndsAtSnoc(c, w, before, i, k, f);
      }
      EndsAtSnoc(c, w, before, i, 0, f);
      hide RunLoop;
      if t.result.None? {
        IterateVerdict(c, t, w, before, i, f);
      }
      EndsWithin(c, w, ins, f);
      EndsWithin(c, w, before, f);
    }
  }

  lemma EndsWithin(c: Config, w: bool, ins: seq<Input>, f: Final)
    ensures forall k: nat :: EndsAt(c, w, ins, k, f) ==> k < |ins|
  {
  }

  /** Inputs after the result are not looked at. */
  lemma {:induction false} RunStops(c: Config, s: State, ins: seq<Input>, more: seq<Input>)
    requires RunLoop(c, s, ins).result.Some?
    ensures RunLoop(c, s, ins + more) == RunLoop(c, s, ins)
    decreases |ins|
  {
    hide Iterate;
    if s.result.None? {
      assert (ins + more)[1..] == ins[1..] + more;
      RunStops(c, Iterate(c, s, ins[0]), ins[1..], more);
    }
  }

  /** The flags of an iteration that ends the loop: each request counts unless an earlier one ended it. */
  ghost predicate FinalFlags(t: State, before: seq<Input>, i: Input) {
    var first := !OutOfTime(before, i);
    var second := first && !(i.deadlinePassed && !i.timeoutKillWorks) && !InterruptFails(i);
    var third := second && !(i.killRequested && !i.requestedKillWorks);
    && (t.timedOut <==> TimedOut(before) || (first && i.deadlinePassed))
    && (t.externalKill <==> KillAsked(before) || (second && i.killRequested))
    && (t.networkViolation <==> Violated(before) || (third && i.networkViolated))
  }

  lemma IterateFlags(c: Config, s: State, w: bool, before: seq<Input>, i: Input)
    requires Reflects(c, s, w, before)
    ensures FinalFlags(Iterate(c, s, i), before, i)
  {
    hide TimedOut, KillAsked, Violated, Notes, Pending, SettingUp, OnWait, InterruptFails;
    RequestFlags(s, i);
    if OnRequests(s, i).result.None? {
      WaitMoves(c, OnRequests(s, i), i.wait);
    }
    hide OnRequests;
  }

  lemma RequestFlags(s: State, i: Input)
    requires s.result.None?
    ensures var t := OnRequests(s, i);
            var first := !(s.hardDeadlineSet && i.hardDeadlinePassed);
            var second := first && !(i.deadlinePassed && !i.timeoutKillWorks) && !InterruptFails(i);
            var third := second && !(i.killRequested && !i.requestedKillWorks);
            && t.timedOut == (s.timedOut || (first && i.deadlinePassed))
            && t.externalKill == (s.externalKill || (second && i.killRequested))
            && t.networkViolation == (s.networkViolation || (third && i.networkViolated))
  {
    hide OnClock, OnKillRequests;
    ClockFlags(s, i);
    KillFlags(OnClock(s, i), i);
  }

  lemma ClockFlags(s: State, i: Input)
    requires s.result.None?
    ensures var t := OnClock(s, i);
            var first := !(s.hardDeadlineSet && i.hardDeadlinePassed);
            && t.timedOut == (s.timedOut || (first && i.deadlinePassed))
            && t.externalKill == s.externalKill && t.networkViolation == s.networkViolation
            && (t.result.None? <==> first && !(i.deadlinePassed && !i.timeoutKillWorks) && !InterruptFails(i))
  {
  }

  lemma KillFlags(s: State, i: Input)
    ensures var t := OnKillRequests(s, i);
            var second := s.result.None?;
            var third := second && !(i.killRequested && !i.requestedKillWorks);
            && t.timedOut == s.timedOut
            && t.externalKill == (s.externalKill || (second && i.killRequested))
            && t.networkViolation == (s.networkViolation || (third && i.networkViolated))
  {
    if s.result.None? {
      var t := OnRequest(s, i.killRequested, OnKill(s.(externalKill := true), i.requestedKillWorks));
      assert t.result.None? <==> !(i.killRequested && !i.requestedKillWorks);
      assert t.externalKill == (s.externalKill || i.killRequested) && t.networkViolation == s.networkViolation;
      assert t.timedOut == s.timedOut;
    } else {
      assert OnKillRequests(s, i) == s;
    }
  }

  /** What is left behind when the loop ends: the flags and the notes of the inputs up to the one that ends it. */
  lemma RunLeaves(c: Config, w: bool, ins: seq<Input>, k: nat, f: Final)
    requires EndsAt(c, w, ins, k, f)
    ensures RunLoop(c, Start(w), ins).log == Notes(c, w, ins[..k + 1])
    ensures FinalFlags(RunLoop(c, Start(w), ins), ins[..k], ins[k])
  {
    hide Iterate, Reflects, Verdict, Undecided, RunLoop, FinalFlags, Notes;
    var before, i := ins[..k], ins[k];
    var s := RunLoop(c, Start(w), before);
    assert ins[..k + 1] == before + [i];
    RunReflects(c, w, before);
    RunSnoc(c, Start(w), before, i);
    IterateVerdict(c, s, w, before, i, f);
    assert EndsAt(c, w, ins, k, f) ==> s.result.None?;
    RunStops(c, Start(w), before + [i], ins[k + 1..]);
    assert ins == before + [i] + ins[k + 1..];
    IterateFlags(c, s, w, before, i);
    IterateNotes(c, s, w, before, i);
  }

  lemma IterateNotes(c: Config, s: State, w: bool, before: seq<Input>, i: Input)
    requires Reflects(c, s, w, before)
    ensures Iterate(c, s, i).log == Notes(c, w, before + [i])
  {
    hide Notes, OnRequests, OnWait, NoteOf, Waits, SettingUp, Pending, Append, AfterNote, TimedOut, KillAsked, Violated;
    RequestsOutcome(c, s, w, before, i);
    NotesSnoc(c, w, before, i);
    WaitMoves(c, AtWait(s, before + [i]), i.wait);
  }

  /** After a request to kill, the loop does not outlive the hard deadline. */
  lemma HardDeadlineEndsTheLoop(c: Config, w: bool, ins: seq<Input>, j: nat, k: nat)
    requires j < k < |ins| && (ins[j].deadlinePassed || ins[j].killRequested || ins[j].networkViolated)
    requires ins[k].hardDeadlinePassed
    ensures RunLoop(c, Start(w), ins).result.Some?
  {
    RunReflects(c, w, ins);
    var before := ins[..k];
    assert before[j] == ins[j];
    assert Doomed(before);
    assert Verdict(c, w, before, ins[k], Final(Timeout, Code(0)));
    assert Decided(c, w, ins[..k], ins[k]);
  }

  /** Every report in the notes of a run is of a syscall that was in progress. */
  lemma {:induction false} NotesConsistent(c: Config, w: bool, ins: seq<Input>)
    ensures Consistent(Notes(c, w, ins))
    decreases |ins|
  {
    if ins != [] {
      var before, i := ins[..|ins| - 1], ins[|ins| - 1];
      NotesConsistent(c, w, before);
      var note := NoteOf(SettingUp(w, before), Pending(Notes(c, w, before)), i.wait);
      if note.Some? {
        ConsistentSnoc(Notes(c, w, before), note.value);
      }
    }
  }

  /** So in every run each reported return is that of the latest inspected syscall of that process. */
  lemma RunReportsLatestTrace(c: Config, w: bool, ins: seq<Input>, j: nat)
    requires j < |Notes(c, w, ins)| && Notes(c, w, ins)[j].Returned?
    ensures exists i: nat :: i < j && Reports(Notes(c, w, ins), j, i)
  {
    NotesConsistent(c, w, ins);
    ReturnReportsLatestTrace(Notes(c, w, ins), j);
  }

  // The verdicts most asked for, spelled out ---------------------------------------------------

  /** The main process exits with code `n` after the first exec, or stops at that exit with no kill asked for. */
  ghost predicate ExitsAt(c: Config, w: bool, ins: seq<Input>, k: nat, n: nat) {
    && k < |ins| && Undecided(c, w, ins[..k]) && Waits(ins[..k], ins[k])
    && ((ins[k].wait == Exited(c.mainPid, n) && !SettingUp(w, ins[..k]))
        || (!Doomed(ins[..k] + [ins[k]]) && MainEnded(c, ins[k].wait, ExitCode(n))))
  }

  /** A process is killed by seccomp, or a traced syscall is denied after set-up. */
  ghost predicate ViolatesAt(c: Config, w: bool, ins: seq<Input>, k: nat) {
    && k < |ins| && Undecided(c, w, ins[..k]) && Waits(ins[..k], ins[k])
    && (KilledBySeccomp(ins[k].wait) || Refused(c, SettingUp(w, ins[..k]), ins[k].wait))
  }

  lemma EndsOkIff(c: Config, w: bool, ins: seq<Input>, n: nat)
    ensures RunLoop(c, Start(w), ins).result == Some(Final(Ok, Code(n))) <==> exists k: nat :: ExitsAt(c, w, ins, k, n)
  {
    hide Undecided, RunLoop, Waits, SettingUp, Doomed, MainEnded;
    RunEndsIff(c, w, ins, Final(Ok, Code(n)));
    assert forall k: nat :: EndsAt(c, w, ins, k, Final(Ok, Code(n))) <==> ExitsAt(c, w, ins, k, n);
  }

  lemma EndsInSyscallViolationIff(c: Config, w: bool, ins: seq<Input>)
    ensures RunLoop(c, Start(w), ins).result == Some(Final(Violation, ViolationSyscall))
            <==> exists k: nat :: ViolatesAt(c, w, ins, k)
  {
    hide Undecided, RunLoop, Waits, SettingUp, KilledBySeccomp, Refused;
    RunEndsIff(c, w, ins, Final(Violation, ViolationSyscall));
    assert forall k: nat :: EndsAt(c, w, ins, k, Final(Violation, ViolationSyscall)) <==> ViolatesAt(c, w, ins, k);
  }
}
