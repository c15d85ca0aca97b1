/**
 * The user-notification monitor: it rewrites the policy so that killing and traced
 * returns become notifications, keeps the original, and evaluates it again to find
 * out what a notification was for.
 */
module UnotifyMonitor {
  import opened Words
  import opened Bpf
  import opened SyscallPolicy
  import opened DefaultPolicy

  const DO_USER_NOTIF: Instr := Stmt(RET_K, RET_USER_NOTIF)

  predicate Notifies(i: Instr) {
    i.code == RET_K && (i.k == RET_KILL || i.k == SANDBOX2_TRACE.k)
  }

  function Rewrite(i: Instr): Instr { if Notifies(i) then DO_USER_NOTIF else i }

  function Modified(code: seq<Instr>): (m: seq<Instr>)
    ensures |m| == |code|
    ensures forall i :: 0 <= i < |code| ==> m[i] == Rewrite(code[i])
  {
    if code == [] then [] else [Rewrite(code[0])] + Modified(code[1..])
  }

  /** What becomes of an outcome: constant KILL and host TRACE returns turn into notifications, nothing else changes. */
  function Notified(o: Outcome): Outcome {
    match o
    case Return(v, true) => if v == RET_KILL || v == SANDBOX2_TRACE.k then Return(RET_USER_NOTIF, true) else o
    case _ => o
  }

  lemma ModifiedDrop(code: seq<Instr>, n: nat)
    requires n <= |code|
    ensures Modified(code)[n..] == Modified(code[n..])
  {
  }

  lemma RewriteStep(i: Instr, d: Data, r: Regs)
    ensures Step(Rewrite(i), d, r) ==
            match Step(i, d, r)
            case Answer(v, true) =>
              if v == RET_KILL || v == SANDBOX2_TRACE.k then Answer(RET_USER_NOTIF, true) else Answer(v, true)
            case e => e
  {
  }

  /** The rewritten program runs in lockstep with the original, and only the notified returns differ. */
  lemma {:induction false} ModifyPolicyMeaning(code: seq<Instr>, d: Data, r: Regs)
    ensures Run(Modified(code), d, r) == Notified(Run(code, d, r))
    ensures Cost(Modified(code), d, r) == Cost(code, d, r) <= |code|
    decreases |code|
  {
    hide Step, Rewrite;
    if code != [] {
      assert Modified(code)[0] == Rewrite(code[0]);
      RewriteStep(code[0], d, r);
      match Step(code[0], d, r)
      case Continue(r', skip) =>
        if skip < |code| {
          ModifiedDrop(code, 1 + skip);
          hide Modified;
          ModifyPolicyMeaning(code[1 + skip..], d, r');
        }
      case _ =>
    }
  }

  // What a notification leads to ---------------------------------------------------------

  datatype TraceAction = Allow | Deny | RespondWithErrno(errno: int) | InspectAfterReturn

  datatype Decision =
    | Kernel(v: u32)           // the kernel acts on its own
    | ContinueSyscall
    | Violation
    | Errno(errno: int)
    | NotifyFailed             // the syscall cannot be continued
    | Fatal                    // an answer this monitor does not support
    | EvaluationFailed         // no result to act on

  /** What an answer of the notify object leads to; continuing a syscall needs the kernel's support. */
  function OnTrace(answer: TraceAction, continueSupported: bool): Decision {
    match answer
    case Allow => if continueSupported then ContinueSyscall else NotifyFailed
    case Deny => Violation
    case RespondWithErrno(e) => Errno(e)
    case InspectAfterReturn => Fatal
  }

  /** What the policy as written asks for. */
  function Intended(o: Outcome, answer: TraceAction, continueSupported: bool): Decision {
    match o
    case Return(v, constant) =>
      if constant && v == SANDBOX2_TRACE.k then OnTrace(answer, continueSupported)
      else if (constant && v == RET_KILL) || v == RET_USER_NOTIF then Violation
      else Kernel(v)
    case _ => EvaluationFailed
  }

  class Monitor {
    var originalPolicy: seq<Instr>
    var waitForExecveat: bool

    /** Whether an execveat is waited for is up to the executor. */
    constructor (waitForExecveat: bool)
      ensures originalPolicy == [] && this.waitForExecveat == waitForExecveat
    {
      originalPolicy, this.waitForExecveat := [], waitForExecveat;
    }

    method ModifyPolicy(policy: array<Instr>)
      modifies this, policy
      ensures originalPolicy == old(policy[..])
      ensures policy[..] == Modified(old(policy[..]))
      ensures waitForExecveat == old(waitForExecveat)
    {
      originalPolicy := policy[..];
      var i := 0;
      while i < policy.Length
        invariant 0 <= i <= policy.Length
        invariant originalPolicy == old(policy[..]) && waitForExecveat == old(waitForExecveat)
        invariant forall j :: 0 <= j < i ==> policy[j] == Rewrite(originalPolicy[j])
        invariant forall j :: i <= j < policy.Length ==> policy[j] == originalPolicy[j]
      {
        if (policy[i].code == RET_K && policy[i].k == RET_KILL)
           || (policy[i].code == SANDBOX2_TRACE.code && policy[i].k == SANDBOX2_TRACE.k)
        {
          policy[i] := DO_USER_NOTIF;
        }
        i := i + 1;
      }
    }

    /** HandleUnotify for a received request; `answer` is what the notify object says when asked. */
    method HandleUnotify(data: Data, continueSupported: bool, answer: TraceAction) returns (decision: Decision)
      modifies this
      ensures originalPolicy == old(originalPolicy)
      ensures var firstExecveat := old(waitForExecveat) && Nr(data) == NR_EXECVEAT && continueSupported;
              && waitForExecveat == (old(waitForExecveat) && !firstExecveat)
              && decision ==
                 if firstExecveat then ContinueSyscall
                 else match Meaning(Addressable(originalPolicy), data)
                      case None => EvaluationFailed
                      case Some(v) => if v == SANDBOX2_TRACE.k then OnTrace(answer, continueSupported) else Violation
      // which answers lead where
      ensures var first := old(waitForExecveat) && Nr(data) == NR_EXECVEAT && continueSupported;
              var wanted := Meaning(Addressable(originalPolicy), data);
              var asked := !first && wanted == Some(0x7ff0_CAF1);
              && (decision == ContinueSyscall <==> first || (asked && answer == Allow && continueSupported))
              && (decision == NotifyFailed <==> asked && answer == Allow && !continueSupported)
              && (decision == Violation <==> !first && wanted.Some? && (!asked || answer == Deny))
              && (forall e :: decision == Errno(e) <==> asked && answer == RespondWithErrno(e))
              && (decision == Fatal <==> asked && answer == InspectAfterReturn)
    {
      if waitForExecveat && Nr(data) == NR_EXECVEAT && continueSupported {
        waitForExecveat := false;
        return ContinueSyscall;
      }
      var policyRet := Evaluate(originalPolicy, data);
      if policyRet.None? {
        return EvaluationFailed;
      }
      var traceResponse := Deny;
      if policyRet.value == SANDBOX2_TRACE.k {
        traceResponse := answer;
      }
      decision := OnTrace(traceResponse, continueSupported);
    }
  }

  /** What a request leads to after the first execveat: the kernel runs the rewritten program, the monitor the other. */
  function Observed(original: seq<Instr>, data: Data, answer: TraceAction, continueSupported: bool): Decision {
    match Run(Modified(original), data, INITIAL)
    case Return(v, _) =>
      if v != RET_USER_NOTIF then Kernel(v)
      else
        match Meaning(original, data) {
          case None => EvaluationFailed
          case Some(w) => if w == SANDBOX2_TRACE.k then OnTrace(answer, continueSupported) else Violation
        }
    case _ => EvaluationFailed
  }

  /** Rewriting loses nothing: evaluating the saved original recovers exactly what the policy asks for. */
  lemma MonitorRecoversIntent(original: seq<Instr>, data: Data, answer: TraceAction, continueSupported: bool)
    ensures Observed(original, data, answer, continueSupported)
            == Intended(Run(original, data, INITIAL), answer, continueSupported)
  {
    hide Run;
    ModifyPolicyMeaning(original, data, INITIAL);
  }

  /** A notification can only come from a program whose evaluation succeeds, so its result is there to be used. */
  lemma NotificationsEvaluate(original: seq<Instr>, data: Data)
    requires Meaning(Modified(original), data) == Some(RET_USER_NOTIF)
    ensures Meaning(original, data).Some?
  {
    hide Run;
    ModifyPolicyMeaning(original, data, INITIAL);
  }
}
