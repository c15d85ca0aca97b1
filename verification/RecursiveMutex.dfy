/**
 * RecursiveMutex: a re-entrant lock built from a plain mutex, an atomic owner id and a plain
 * recursion counter.  Threads interleave at every access to shared memory; the increment and
 * the decrement of the counter are a read and a later write.
 */
module RecursiveMutex {
  import opened Words

  /** What a thread does next. */
  datatype Pc =
    | Idle
    | Acquire                // Lock: mutex_.Lock(), having read another owner
    | Claim                  // Lock: owner_.store(tid)
    | ReadUp                 // Lock: read the depth to increment it
    | WriteUp(depth: int)    // Lock: write it back
    | WriteDown(depth: int)  // Unlock: write back the decremented depth and test it
    | Disown                 // Unlock: owner_.store(0)
    | Release                // Unlock: mutex_.Unlock()

  /** `locks` counts the Locks of the thread that have returned minus its Unlocks that have decremented. */
  datatype Thread = Thread(pc: Pc, locks: nat)

  /** Thread ids are positive; `inner` is the holder of the plain mutex, or 0. */
  datatype State = State(owner: nat, inner: nat, depth: int, threads: map<nat, Thread>)

  predicate Start(s: State) {
    && s.owner == 0 && s.inner == 0 && s.depth == 0
    && forall t :: t in s.threads ==> t != 0 && s.threads[t] == Thread(Idle, 0)
  }

  /** The next step of thread `t`; an idle thread starts Lock, or Unlock if it has something to unlock. */
  function Step(s: State, t: nat, unlock: bool): Option<State> {
    if t !in s.threads then None
    else
      var th := s.threads[t];
      match th.pc
      case Idle =>
        if unlock then
          if th.locks > 0 then Some(Goto(s, t, WriteDown(s.depth))) else None
        else
          Some(Goto(s, t, if s.owner == t then ReadUp else Acquire))
      case Acquire => if s.inner == 0 then Some(Goto(s, t, Claim).(inner := t)) else None
      case Claim => Some(Goto(s, t, ReadUp).(owner := t))
      case ReadUp => Some(Goto(s, t, WriteUp(s.depth)))
      case WriteUp(depth) => Some(s.(depth := depth + 1, threads := s.threads[t := Thread(Idle, th.locks + 1)]))
      case WriteDown(depth) =>
        if th.locks > 0 then
          Some(s.(depth := depth - 1,
                  threads := s.threads[t := Thread(if depth - 1 > 0 then Idle else Disown, th.locks - 1)]))
        else None
      case Disown => Some(Goto(s, t, Release).(owner := 0))
      case Release => Some(Goto(s, t, Idle).(inner := 0))
  }

  function Goto(s: State, t: nat, pc: Pc): State
    requires t in s.threads
  {
    s.(threads := s.threads[t := s.threads[t].(pc := pc)])
  }

  /** A schedule says which thread steps next and, if it is idle, whether it unlocks. */
  function Run(s: State, schedule: seq<(nat, bool)>): Option<State>
    decreases |schedule|
  {
    if schedule == [] then Some(s)
    else match Step(s, schedule[0].0, schedule[0].1)
         case None => None
         case Some(s') => Run(s', schedule[1..])
  }

  /** The thread is between acquiring and releasing the plain mutex. */
  predicate Inside(th: Thread) {
    !th.pc.Acquire? && (th.pc.Idle? ==> th.locks > 0)
  }

  ghost predicate ThreadOk(s: State, t: nat)
    requires t in s.threads
  {
    var th := s.threads[t];
    && t != 0
    && (s.inner == t <==> Inside(th))
    && (s.owner == t <==> Inside(th) && !th.pc.Claim? && !th.pc.Release?)
    && (!Inside(th) ==> th.locks == 0)
    && (Inside(th) ==> s.depth == th.locks)
    && (th.pc.WriteUp? || th.pc.WriteDown? ==> th.pc.depth == s.depth)
    && (th.pc.WriteDown? ==> th.locks > 0)
    && (th.pc.Claim? || th.pc.Disown? || th.pc.Release? ==> th.locks == 0)
  }

  ghost predicate Inv(s: State) {
    && (s.inner == 0 || s.inner in s.threads)
    && (s.owner == 0 || s.owner in s.threads)
    && (s.inner == 0 ==> s.depth == 0)
    && forall t {:trigger ThreadOk(s, t)} :: t in s.threads ==> ThreadOk(s, t)
  }

  lemma StepInv(s: State, t: nat, unlock: bool)
    requires Inv(s) && Step(s, t, unlock).Some?
    ensures Inv(Step(s, t, unlock).value)
  {
    var s' := Step(s, t, unlock).value;
    assert ThreadOk(s, t);
    forall u | u in s'.threads ensures ThreadOk(s', u) {
      assert ThreadOk(s, u);
    }
  }

  lemma {:induction false} RunInv(s: State, schedule: seq<(nat, bool)>)
    requires Inv(s) && Run(s, schedule).Some?
    ensures Inv(Run(s, schedule).value)
    decreases |schedule|
  {
    hide Inv, Step;
    if schedule != [] {
      StepInv(s, schedule[0].0, schedule[0].1);
      RunInv(Step(s, schedule[0].0, schedule[0].1).value, schedule[1..]);
    }
  }

  /** A state that some interleaving of some number of threads leads to. */
  ghost predicate Reachable(s: State) {
    exists start: State, schedule: seq<(nat, bool)> :: Start(start) && Run(start, schedule) == Some(s)
  }

  lemma ReachableInv(s: State)
    requires Reachable(s)
    ensures Inv(s)
  {
    var start: State, schedule: seq<(nat, bool)> :| Start(start) && Run(start, schedule) == Some(s);
    assert forall t :: t in start.threads ==> ThreadOk(start, t);
    RunInv(start, schedule);
  }

  /** At most one thread is inside, however deep each thread's recursion is. */
  lemma MutualExclusion(s: State, t: nat, u: nat)
    requires Reachable(s) && t in s.threads && u in s.threads
    requires Inside(s.threads[t]) && Inside(s.threads[u])
    ensures t == u
  {
    ReachableInv(s);
    assert ThreadOk(s, t) && ThreadOk(s, u);
  }

  /** A thread about to Lock finds its own id in owner_ exactly when it already has the lock. */
  lemma OwnIdMeansHeld(s: State, t: nat)
    requires Reachable(s) && t in s.threads && s.threads[t].pc.Idle?
    ensures s.owner == t <==> s.threads[t].locks > 0
    ensures s.inner == t <==> s.threads[t].locks > 0
  {
    ReachableInv(s);
    assert ThreadOk(s, t);
  }

  /** The counter is the number of outstanding Locks of the one thread inside, and 0 when there is none. */
  lemma DepthCountsLocks(s: State)
    requires Reachable(s)
    ensures s.inner == 0 ==> s.depth == 0 && forall t :: t in s.threads ==> s.threads[t].locks == 0
    ensures s.inner != 0 ==> s.inner in s.threads && s.depth == s.threads[s.inner].locks
    ensures forall t :: t in s.threads && t != s.inner ==> s.threads[t].locks == 0
  {
    ReachableInv(s);
    forall t | t in s.threads ensures t != 0 && (t != s.inner ==> s.threads[t].locks == 0) {
      assert ThreadOk(s, t);
    }
    if s.inner != 0 {
      assert ThreadOk(s, s.inner);
    }
  }

  /** Unlock lets go of the plain mutex exactly when it takes back the last outstanding Lock. */
  lemma ReleasedAtZero(s: State, t: nat)
    requires Reachable(s) && t in s.threads && s.threads[t].pc.WriteDown?
    ensures Step(s, t, true).Some?
    ensures var th := Step(s, t, true).value.threads[t];
            if s.threads[t].locks == 1 then th == Thread(Disown, 0) else th == Thread(Idle, s.threads[t].locks - 1)
  {
    ReachableInv(s);
    assert ThreadOk(s, t);
  }

  /** A step that reads or writes the unprotected counter is made by the holder of the plain mutex. */
  lemma OnlyTheHolderTouchesDepth(s: State, t: nat)
    requires Reachable(s) && t in s.threads
    requires s.threads[t].pc.ReadUp? || s.threads[t].pc.WriteUp? || s.threads[t].pc.WriteDown?
          || (s.threads[t].pc.Idle? && s.threads[t].locks > 0)
    ensures s.inner == t
  {
    ReachableInv(s);
    assert ThreadOk(s, t);
  }

  /** A thread is stuck only while another one holds the plain mutex, and that one is not stuck. */
  lemma NoDeadlock(s: State, t: nat)
    requires Reachable(s) && t in s.threads
    ensures Step(s, t, false).None? ==>
              && s.threads[t].pc.Acquire? && s.inner != 0 && s.inner != t
              && s.inner in s.threads && Step(s, s.inner, true).Some?
  {
    ReachableInv(s);
    assert ThreadOk(s, t);
    if s.inner != 0 {
      assert ThreadOk(s, s.inner);
    }
  }
}
