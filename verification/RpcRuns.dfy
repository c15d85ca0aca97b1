/**
 * Whole runs of the call/callback protocol: which value reaches whom, said of the actions that
 * were taken, and the whole protocol seen as nested calls in one process.
 */
module RpcRuns {
  import opened Words
  import opened Rpc

  /** Action `k` of a run is `a`, and `s` is the state it is taken in. */
  ghost predicate TakenIn(actions: seq<Action>, k: nat, a: Action, s: State) {
    k < |actions| && actions[k] == a && Run(INIT, actions[..k]) == Some(s)
  }

  // Runs in two parts -----------------------------------------------------------------------

  lemma {:induction false} RunAppends(s: State, a: seq<Action>, b: seq<Action>)
    requires Run(s, a + b).Some?
    ensures Run(s, a).Some? && Run(Run(s, a).value, b) == Run(s, a + b)
    decreases |a|
  {
    hide Step;
    if a == [] {
      assert a + b == b;
    } else {
      assert (a + b)[1..] == a[1..] + b;
      RunAppends(Step(s, a[0]).value, a[1..], b);
    }
  }

  lemma RunSplit(s: State, actions: seq<Action>, k: nat)
    requires k <= |actions| && Run(s, actions).Some?
    ensures Run(s, actions[..k]).Some?
    ensures Run(Run(s, actions[..k]).value, actions[k..]) == Run(s, actions)
  {
    hide Run;
    assert actions == actions[..k] + actions[k..];
    RunAppends(s, actions[..k], actions[k..]);
  }

  /** The run from action `k` on starts with that action, in the state it was taken in. */
  lemma RunFrom(actions: seq<Action>, k: nat, a: Action, s: State, t: State)
    requires TakenIn(actions, k, a, s) && Run(INIT, actions) == Some(t)
    ensures Step(s, a).Some? && Run(Step(s, a).value, actions[k + 1..]) == Some(t)
    ensures FullInv(s) && FullInv(Step(s, a).value) && FullInv(t)
  {
    hide Step, FullInv;
    RunSplit(INIT, actions, k);
    assert actions[k..][0] == a && actions[k..][1..] == actions[k + 1..];
    InitFullInv();
    RunFullInv(INIT, actions[..k]);
    RunFullInv(INIT, actions);
    StepFullInv(s, a);
  }

  lemma StepFullInv(s: State, a: Action)
    requires FullInv(s) && Step(s, a).Some?
    ensures FullInv(Step(s, a).value)
  {
    hide Step, FullInv;
    assert Run(s, [a]) == Step(s, a) by {
      assert [a][1..] == [];
    }
    RunFullInv(s, [a]);
  }

  // What has been sent stays --------------------------------------------------------------

  lemma FullGrows(s: State, a: Action)
    requires FullInv(s) && Step(s, a).Some?
    ensures Full(s) <= Full(Step(s, a).value)
  {
    hide Stacks, LogOk, Frames, Results, Replies;
    var t := Step(s, a).value;
    if s.toGuest != [] || s.toHost != [] {
      InFlight(s);
      DeliveryKeepsFull(s, t);
    }
  }

  lemma {:induction false} RunFullGrows(s: State, actions: seq<Action>)
    requires FullInv(s) && Run(s, actions).Some?
    ensures Full(s) <= Full(Run(s, actions).value)
    decreases |actions|
  {
    hide Step, FullInv;
    if actions != [] {
      FullGrows(s, actions[0]);
      StepFullInv(s, actions[0]);
      RunFullGrows(Step(s, actions[0]).value, actions[1..]);
    }
  }

  /** Every end of `id` in the log carries `ret`. */
  ghost predicate EndsWith(log: seq<Event>, id: Id, ret: FuncRet) {
    forall i :: 0 <= i < |log| && log[i].End? && log[i].id == id ==> log[i].ret == ret
  }

  /** ... and there is exactly one. */
  ghost predicate EndsOnceWith(log: seq<Event>, id: Id, ret: FuncRet) {
    && EndsWith(log, id, ret)
    && (exists i :: 0 <= i < |log| && log[i] == End(id, ret))
    && (forall i, j :: 0 <= i < j < |log| && log[i] == End(id, ret) ==> log[j] != End(id, ret))
  }

  lemma EndIsUnique(log: seq<Event>, next: nat, at: nat, id: Id, ret: FuncRet)
    requires LogOk(log, next) && at < |log| && log[at] == End(id, ret)
    ensures EndsOnceWith(log, id, ret)
  {
    assert forall i :: 0 <= i < |log| && log[i].End? && log[i].id == id ==> i == at;
  }

  lemma EndsWithPrefix(log: seq<Event>, whole: seq<Event>, id: Id, ret: FuncRet)
    requires log <= whole && EndsWith(whole, id, ret)
    ensures EndsWith(log, id, ret)
  {
    assert forall i :: 0 <= i < |log| ==> log[i] == whole[i];
  }

  lemma LogsInFull(s: State)
    requires FullInv(s)
    ensures s.hostLog <= Full(s) && s.guestLog <= Full(s)
  {
    hide Stacks, LogOk, Frames, Results, Replies;
  }

  /** An event that the sender has logged is the only end of its id, in both logs and for ever. */
  lemma EndIsKept(s: State, actions: seq<Action>, id: Id, ret: FuncRet)
    requires FullInv(s) && Run(s, actions).Some?
    requires Full(s) != [] && Top(Full(s)) == End(id, ret)
    ensures var t := Run(s, actions).value;
            && EndsOnceWith(Full(t), id, ret) && EndsWith(t.hostLog, id, ret) && EndsWith(t.guestLog, id, ret)
  {
    hide Run, Inv, LogOk, Frames, Results, Replies, Full, EndsWith;
    var t := Run(s, actions).value;
    RunFullInv(s, actions);
    RunFullGrows(s, actions);
    LogsInFull(t);
    EndIsUnique(Full(t), t.next, |Full(s)| - 1, id, ret);
    EndsWithPrefix(t.hostLog, Full(t), id, ret);
    EndsWithPrefix(t.guestLog, Full(t), id, ret);
  }

  // Callbacks ------------------------------------------------------------------------------

  /**
   * The value a callback of the embedder returns is what its one kMsgCallbackRet carries, in both
   * histories, and what sapi_client_HandleCallback hands on; unless that message is still in flight
   * it has been handed on.
   */
  lemma CallbackValueArrives(actions: seq<Action>, k: nat, value: nat, s: State, t: State)
    requires TakenIn(actions, k, EndCallback(value), s) && Run(INIT, actions) == Some(t)
    ensures s.host != [] && Top(s.host).InCallback?
    ensures var cb, reply := Top(s.host).cb, FuncRet(0, true, value);
            && EndsOnceWith(t.hostLog, Callback(cb), reply)
            && EndsWith(t.guestLog, Callback(cb), reply)
            && (cb in t.replies ==> t.replies[cb] == value)
            && (cb in t.replies || t.toGuest == [End(Callback(cb), reply)])
  {
    hide Run, Step, FullInv;
    var a := EndCallback(value);
    RunFrom(actions, k, a, s, t);
    SentByHost(s, a);
    ReplyArrives(Step(s, a).value, actions[k + 1..], t, Top(s.host).cb, FuncRet(0, true, value));
  }

  lemma ReplyArrives(s: State, actions: seq<Action>, t: State, cb: nat, reply: FuncRet)
    requires FullInv(s) && Run(s, actions) == Some(t) && FullInv(t)
    requires s.toGuest == [End(Callback(cb), reply)] && Full(s) != [] && Top(Full(s)) == s.toGuest[0]
    ensures EndsOnceWith(t.hostLog, Callback(cb), reply) && EndsWith(t.guestLog, Callback(cb), reply)
    ensures cb in t.replies ==> t.replies[cb] == reply.value
    ensures cb in t.replies || t.toGuest == [End(Callback(cb), reply)]
  {
    EndIsKept(s, actions, Callback(cb), reply);
    RunSettles(s, actions, cb);
    hide Run, Stacks, LogOk, Frames, Results;
    HostHasReply(t, cb, reply);
    if cb in t.replies {
      var i :| 0 <= i < |t.guestLog| && t.guestLog[i].End? && t.guestLog[i].id == Callback(cb)
               && t.guestLog[i].ret.value == t.replies[cb];
    } else {
      assert t.hostLog[|t.guestLog|] == t.toGuest[0];
    }
  }

  lemma SentByHost(s: State, a: Action)
    requires FullInv(s) && a.EndCallback? && Step(s, a).Some?
    ensures s.host != [] && Top(s.host).InCallback?
    ensures var s' := Step(s, a).value;
            && s'.toGuest == [End(Callback(Top(s.host).cb), FuncRet(0, true, a.value))]
            && Full(s') != [] && Top(Full(s')) == s'.toGuest[0]
  {
    hide Stacks, LogOk, Frames, Results, Replies;
    if s.toGuest != [] || s.toHost != [] {
      InFlight(s);
    }
  }

  /** A kMsgCallbackRet is in the history of the host, who sent it. */
  lemma HostHasReply(t: State, cb: nat, reply: FuncRet)
    requires OneInFlight(t) && EndsOnceWith(Full(t), Callback(cb), reply)
    ensures EndsOnceWith(t.hostLog, Callback(cb), reply)
  {
    var i :| 0 <= i < |Full(t)| && Full(t)[i] == End(Callback(cb), reply);
    assert i < |t.hostLog| && t.hostLog[i] == Full(t)[i];
    assert t.hostLog <= Full(t);
  }

  /** The reply to `cb` has been handed on or is in flight. */
  ghost predicate Settling(s: State, cb: nat) {
    cb in s.replies || (|s.toGuest| == 1 && s.toGuest[0].End? && s.toGuest[0].id == Callback(cb))
  }

  lemma StepSettles(s: State, a: Action, cb: nat)
    requires FullInv(s) && Step(s, a).Some? && Settling(s, cb)
    ensures Settling(Step(s, a).value, cb)
  {
    hide Stacks, LogOk, Frames, Results, Replies;
    if s.toGuest != [] || s.toHost != [] {
      InFlight(s);
    }
  }

  lemma {:induction false} RunSettles(s: State, actions: seq<Action>, cb: nat)
    requires FullInv(s) && Run(s, actions).Some? && Settling(s, cb)
    ensures Settling(Run(s, actions).value, cb)
    decreases |actions|
  {
    hide Step, FullInv, Settling;
    if actions != [] {
      StepSettles(s, actions[0], cb);
      StepFullInv(s, actions[0]);
      RunSettles(Step(s, actions[0]).value, actions[1..], cb);
    }
  }

  /** The activation that began callback `cb` is waiting on top of `below`, or it is over. */
  ghost predicate Suspended(s: State, below: seq<GuestFrame>, cb: nat) {
    && cb < s.next
    && (forall i :: 0 <= i < |s.guest| && s.guest[i] == AwaitingReply(cb) ==> s.guest[..i] == below)
  }

  lemma StepSuspended(s: State, a: Action, below: seq<GuestFrame>, cb: nat)
    requires Step(s, a).Some? && Suspended(s, below, cb)
    ensures Suspended(Step(s, a).value, below, cb)
  {
    var t := Step(s, a).value;
    assert forall i :: 0 <= i < |s.guest| && i < |t.guest| ==> t.guest[i] == s.guest[i] && t.guest[..i] == s.guest[..i];
  }

  lemma {:induction false} RunSuspended(s: State, actions: seq<Action>, below: seq<GuestFrame>, cb: nat)
    requires Run(s, actions).Some? && Suspended(s, below, cb)
    ensures Suspended(Run(s, actions).value, below, cb)
    decreases |actions|
  {
    hide Step, Suspended;
    if actions != [] {
      StepSuspended(s, actions[0], below, cb);
      RunSuspended(Step(s, actions[0]).value, actions[1..], below, cb);
    }
  }

  ghost predicate CallbacksBegun(s: State) {
    forall i :: 0 <= i < |s.guest| && s.guest[i].AwaitingReply? ==> s.guest[i].cb < s.next
  }

  lemma StepCallbacksBegun(s: State, a: Action)
    requires Step(s, a).Some? && CallbacksBegun(s)
    ensures CallbacksBegun(Step(s, a).value)
  {
  }

  lemma {:induction false} RunCallbacksBegun(s: State, actions: seq<Action>)
    requires Run(s, actions).Some? && CallbacksBegun(s)
    ensures CallbacksBegun(Run(s, actions).value)
    decreases |actions|
  {
    hide Step, CallbacksBegun;
    if actions != [] {
      StepCallbacksBegun(s, actions[0]);
      RunCallbacksBegun(Step(s, actions[0]).value, actions[1..]);
    }
  }

  /**
   * The reply to a callback is taken by the activation that began it: it is for that callback, and
   * what runs on is exactly what was running when the callback was begun.
   */
  lemma ReplyReachesItsCaller(actions: seq<Action>, i: nat, s: State, j: nat, u: State, t: State)
    requires TakenIn(actions, i, StartCallback, s) && TakenIn(actions, j, TakeReply, u) && i < j
    requires Run(INIT, actions) == Some(t) && u.guest != [] && Top(u.guest) == AwaitingReply(s.next)
    ensures u.toGuest != [] && u.toGuest[0].End? && u.toGuest[0].id == Callback(s.next)
    ensures Step(u, TakeReply).Some? && Step(u, TakeReply).value.guest == s.guest
  {
    hide Run, Step, FullInv;
    RunFrom(actions, j, TakeReply, u, t);
    RunBetween(actions, i, StartCallback, s, j, u);
    RunCallbacksBegun(INIT, actions[..i]);
    var s' := Step(s, StartCallback).value;
    assert Suspended(s', s.guest, s.next) by {
      CallbackBegins(s);
    }
    RunSuspended(s', actions[i + 1..j], s.guest, s.next);
    ReplyTaken(u, s.guest, s.next);
  }

  lemma RunBetween(actions: seq<Action>, i: nat, a: Action, s: State, j: nat, u: State)
    requires TakenIn(actions, i, a, s) && i < j <= |actions| && Run(INIT, actions[..j]) == Some(u)
    ensures Step(s, a).Some? && Run(Step(s, a).value, actions[i + 1..j]) == Some(u)
  {
    var before := actions[..j];
    assert before[..i] == actions[..i] && before[i + 1..] == actions[i + 1..j];
    RunFrom(before, i, a, s, u);
  }

  lemma CallbackBegins(s: State)
    requires CallbacksBegun(s) && Step(s, StartCallback).Some?
    ensures Suspended(Step(s, StartCallback).value, s.guest, s.next)
  {
  }

  lemma ReplyTaken(u: State, below: seq<GuestFrame>, cb: nat)
    requires FullInv(u) && Step(u, TakeReply).Some? && Suspended(u, below, cb)
    requires Top(u.guest) == AwaitingReply(cb)
    ensures u.toGuest != [] && u.toGuest[0].End? && u.toGuest[0].id == Callback(cb)
    ensures Step(u, TakeReply).value.guest == below
  {
    InFlight(u);
    hide Inv, Frames, Results, Replies, LogOk;
    assert u.guest[..|u.guest| - 1] == below;
  }

  // Calls ------------------------------------------------------------------------------------

  /**
   * What ProcessRequest computed for a call is what its one kMsgReturn carries, in both histories; the
   * caller gets it exactly if it is of the type this call was made with and was a success.
   */
  lemma CallResultArrives(actions: seq<Action>, i: nat, exp: nat, s: State, k: nat, ret: FuncRet, u: State, t: State)
    requires TakenIn(actions, i, StartCall(exp), s) && TakenIn(actions, k, EndCall(ret), u) && i < k
    requires Run(INIT, actions) == Some(t) && u.guest != [] && Top(u.guest) == Processing(s.next)
    ensures var c := s.next;
            && EndsOnceWith(t.guestLog, Call(c), ret)
            && EndsWith(t.hostLog, Call(c), ret)
            && (c in t.results ==>
                  t.results[c] == if ret.retType == exp && ret.success then Some(ret) else None)
            && (c in t.results || t.toHost == [End(Call(c), ret)])
  {
    hide Run, Step, FullInv;
    var c := s.next;
    RunFrom(actions, i, StartCall(exp), s, t);
    CallBegins(s, exp);
    RunExpected(Step(s, StartCall(exp)).value, actions[i + 1..], c, exp);
    RunFrom(actions, k, EndCall(ret), u, t);
    SentByGuest(u, ret);
    ReturnArrives(Step(u, EndCall(ret)).value, actions[k + 1..], t, c, ret);
  }

  /** Call `c` was made with expected type `exp`. */
  ghost predicate Expects(s: State, c: nat, exp: nat) {
    c < s.next && c in s.expected && s.expected[c] == exp
  }

  /** The innermost activation of Exchange with call `c` is on top of `below`, or it is over. */
  ghost predicate Calling(s: State, below: seq<HostFrame>, c: nat) {
    && c < s.next
    && (forall i :: 0 <= i < |s.host| && s.host[i].call == c ==> s.host[..i] == below)
  }

  lemma CallBegins(s: State, exp: nat)
    requires FullInv(s) && Step(s, StartCall(exp)).Some?
    ensures var s' := Step(s, StartCall(exp)).value; Expects(s', s.next, exp) && Calling(s', s.host, s.next)
  {
    hide Inv, LogOk, Results, Replies;
  }

  lemma StepExpected(s: State, a: Action, c: nat, exp: nat)
    requires Step(s, a).Some? && Expects(s, c, exp)
    ensures Expects(Step(s, a).value, c, exp)
  {
  }

  lemma {:induction false} RunExpected(s: State, actions: seq<Action>, c: nat, exp: nat)
    requires Run(s, actions).Some? && Expects(s, c, exp)
    ensures Expects(Run(s, actions).value, c, exp)
    decreases |actions|
  {
    hide Step, Expects;
    if actions != [] {
      StepExpected(s, actions[0], c, exp);
      RunExpected(Step(s, actions[0]).value, actions[1..], c, exp);
    }
  }

  lemma SentByGuest(s: State, ret: FuncRet)
    requires FullInv(s) && Step(s, EndCall(ret)).Some?
    ensures s.guest != [] && Top(s.guest).Processing?
    ensures var s' := Step(s, EndCall(ret)).value;
            && s'.toHost == [End(Call(Top(s.guest).call), ret)]
            && Full(s') != [] && Top(Full(s')) == s'.toHost[0]
  {
    hide Stacks, LogOk, Frames, Results, Replies;
    if s.toGuest != [] || s.toHost != [] {
      InFlight(s);
    }
  }

  lemma ReturnArrives(s: State, actions: seq<Action>, t: State, c: nat, ret: FuncRet)
    requires FullInv(s) && Run(s, actions) == Some(t) && FullInv(t)
    requires s.toHost == [End(Call(c), ret)] && Full(s) != [] && Top(Full(s)) == s.toHost[0]
    ensures EndsOnceWith(t.guestLog, Call(c), ret) && EndsWith(t.hostLog, Call(c), ret)
    ensures c in t.results ==> c in t.expected && t.results[c] == Accept(ret, t.expected[c])
    ensures c in t.results || t.toHost == [End(Call(c), ret)]
  {
    EndIsKept(s, actions, Call(c), ret);
    RunReturning(s, actions, c);
    hide Run, Stacks, LogOk, Frames, Replies;
    GuestHasReturn(t, c, ret);
    if c in t.results {
      var i :| 0 <= i < |t.hostLog| && t.hostLog[i].End? && t.hostLog[i].id == Call(c)
               && Accept(t.hostLog[i].ret, t.expected[c]) == t.results[c];
    } else {
      assert t.guestLog[|t.hostLog|] == t.toHost[0];
    }
  }

  /** A kMsgReturn is in the history of the sandboxee, who sent it. */
  lemma GuestHasReturn(t: State, c: nat, ret: FuncRet)
    requires OneInFlight(t) && EndsOnceWith(Full(t), Call(c), ret)
    ensures EndsOnceWith(t.guestLog, Call(c), ret)
  {
    var i :| 0 <= i < |Full(t)| && Full(t)[i] == End(Call(c), ret);
    assert i < |t.guestLog| && t.guestLog[i] == Full(t)[i];
    assert t.guestLog <= Full(t);
  }

  /** The result of call `c` has been returned or is in flight. */
  ghost predicate Returning(s: State, c: nat) {
    c in s.results || (|s.toHost| == 1 && s.toHost[0].End? && s.toHost[0].id == Call(c))
  }

  lemma StepReturning(s: State, a: Action, c: nat)
    requires FullInv(s) && Step(s, a).Some? && Returning(s, c)
    ensures Returning(Step(s, a).value, c)
  {
    hide Stacks, LogOk, Frames, Results, Replies;
    if s.toGuest != [] || s.toHost != [] {
      InFlight(s);
    }
  }

  lemma {:induction false} RunReturning(s: State, actions: seq<Action>, c: nat)
    requires FullInv(s) && Run(s, actions).Some? && Returning(s, c)
    ensures Returning(Run(s, actions).value, c)
    decreases |actions|
  {
    hide Step, FullInv, Returning;
    if actions != [] {
      StepReturning(s, actions[0], c);
      StepFullInv(s, actions[0]);
      RunReturning(Step(s, actions[0]).value, actions[1..], c);
    }
  }

  lemma HostShape(s: State, a: Action)
    requires Step(s, a).Some?
    ensures var h, h' := s.host, Step(s, a).value.host;
            && s.next <= Step(s, a).value.next
            && (|| h' == h
                || (h' != [] && h' == h + [Top(h')] && Top(h').call == s.next)
                || (h != [] && h' == Pop(h))
                || (h != [] && h' != [] && h' == Pop(h) + [Top(h')] && Top(h').call == Top(h).call))
  {
  }

  lemma StepCalling(s: State, a: Action, below: seq<HostFrame>, c: nat)
    requires Step(s, a).Some? && Calling(s, below, c)
    ensures Calling(Step(s, a).value, below, c)
  {
    HostShape(s, a);
    hide Step;
    var t := Step(s, a).value;
    assert forall i :: 0 <= i < |s.host| && i < |t.host| ==>
                         t.host[i].call == s.host[i].call && t.host[..i] == s.host[..i];
  }

  lemma {:induction false} RunCalling(s: State, actions: seq<Action>, below: seq<HostFrame>, c: nat)
    requires Run(s, actions).Some? && Calling(s, below, c)
    ensures Calling(Run(s, actions).value, below, c)
    decreases |actions|
  {
    hide Step, Calling;
    if actions != [] {
      StepCalling(s, actions[0], below, c);
      RunCalling(Step(s, actions[0]).value, actions[1..], below, c);
    }
  }

  /** A kMsgReturn is taken by the activation of Exchange that made the call, which then is over. */
  lemma ReturnReachesItsCaller(actions: seq<Action>, i: nat, exp: nat, s: State, j: nat, u: State, t: State)
    requires TakenIn(actions, i, StartCall(exp), s) && TakenIn(actions, j, TakeReturn, u) && i < j
    requires Run(INIT, actions) == Some(t) && u.host != [] && Top(u.host).call == s.next
    ensures u.toHost != [] && u.toHost[0].End? && u.toHost[0].id == Call(s.next)
    ensures Step(u, TakeReturn).Some? && Step(u, TakeReturn).value.host == s.host
  {
    hide Run, Step, FullInv;
    RunFrom(actions, i, StartCall(exp), s, t);
    RunFrom(actions, j, TakeReturn, u, t);
    RunBetween(actions, i, StartCall(exp), s, j, u);
    CallBegins(s, exp);
    RunCalling(Step(s, StartCall(exp)).value, actions[i + 1..j], s.host, s.next);
    ReturnTaken(u, s.host, s.next);
  }

  lemma ReturnTaken(u: State, below: seq<HostFrame>, c: nat)
    requires FullInv(u) && Step(u, TakeReturn).Some? && Calling(u, below, c) && Top(u.host).call == c
    ensures u.toHost != [] && u.toHost[0].End? && u.toHost[0].id == Call(c)
    ensures Step(u, TakeReturn).value.host == below
  {
    InFlight(u);
    hide Inv, Frames, Results, Replies, LogOk;
    assert u.host[..|u.host| - 1] == below;
  }

  // The protocol as nested calls in one process ------------------------------------------------

  datatype Item = InCall(n: nat, exp: nat) | InCallbackOf(n: nat)

  /** One stack, no messages: who is in the middle of what, and what has been handed back so far. */
  datatype Local = Local(
    stack: seq<Item>, log: seq<Event>, next: nat, returned: map<nat, Option<FuncRet>>, replied: map<nat, nat>)

  const IDLE := Local([], [], 0, map[], map[])

  /** Calling pushes, returning pops and hands back; that something is received is of no interest. */
  function LocalStep(l: Local, a: Action): Local {
    match a
    case StartCall(exp) =>
      l.(stack := l.stack + [InCall(l.next, exp)], log := l.log + [Begin(Call(l.next))], next := l.next + 1)
    case StartCallback =>
      l.(stack := l.stack + [InCallbackOf(l.next)], log := l.log + [Begin(Callback(l.next))], next := l.next + 1)
    case EndCall(ret) =>
      if l.stack == [] || !Top(l.stack).InCall? then l
      else
        var c := Top(l.stack);
        var handed := if ret.success && ret.retType == c.exp then Some(ret) else None;
        l.(stack := Pop(l.stack), log := l.log + [End(Call(c.n), ret)], returned := l.returned[c.n := handed])
    case EndCallback(value) =>
      if l.stack == [] || !Top(l.stack).InCallbackOf? then l
      else
        var cb := Top(l.stack).n;
        l.(stack := Pop(l.stack), log := l.log + [End(Callback(cb), FuncRet(0, true, value))],
           replied := l.replied[cb := value])
    case _ => l
  }

  function LocalRun(l: Local, actions: seq<Action>): Local
    decreases |actions|
  {
    if actions == [] then l else LocalRun(LocalStep(l, actions[0]), actions[1..])
  }

  function Items(host: seq<HostFrame>): seq<Item> {
    if host == [] then [] else Items(Pop(host)) + FrameItems(Top(host))
  }

  function FrameItems(f: HostFrame): seq<Item> {
    match f
    case Waiting(c, exp) => [InCall(c, exp)]
    case InCallback(c, exp, cb) => [InCall(c, exp), InCallbackOf(cb)]
  }

  /** The state as it will be when the message in flight, if there is one, has been received. */
  function Abstract(s: State): Local {
    var over := s.toHost != [] && s.toHost[0].End? && s.host != [];
    var calls := s.toHost != [] && s.toHost[0].Begin?;
    var replies := s.toGuest != [] && s.toGuest[0].End?;
    Local(
      if over then Items(Pop(s.host))
      else if calls then Items(s.host) + [InCallbackOf(s.toHost[0].id.n)]
      else Items(s.host),
      Full(s), s.next,
      if over then s.results[Top(s.host).call := Accept(s.toHost[0].ret, Top(s.host).exp)] else s.results,
      if replies then s.replies[s.toGuest[0].id.n := s.toGuest[0].ret.value] else s.replies)
  }

  lemma ItemsSnoc(host: seq<HostFrame>, f: HostFrame)
    ensures Items(host + [f]) == Items(host) + FrameItems(f)
  {
    assert Pop(host + [f]) == host;
  }

  lemma ItemsTop(host: seq<HostFrame>)
    requires host != []
    ensures Items(host) == Items(Pop(host)) + FrameItems(Top(host)) && Items(host) != []
    ensures Top(host).InCallback? ==>
              && Top(Items(host)) == InCallbackOf(Top(host).cb)
              && Pop(Items(host)) == Items(Pop(host)) + [InCall(Top(host).call, Top(host).exp)]
    ensures Top(host).Waiting? ==>
              && Top(Items(host)) == InCall(Top(host).call, Top(host).exp)
              && Pop(Items(host)) == Items(Pop(host))
  {
  }

  /** Receiving a message is no step of the local machine. */
  lemma DeliveryIsNoStep(s: State, a: Action)
    requires Inv(s) && Step(s, a).Some?
    requires a.TakeCallback? || a.TakeReturn? || a.TakeRequest? || a.TakeReply?
    ensures Abstract(Step(s, a).value) == Abstract(s)
  {
    hide Stacks, Items, HostOpen, GuestOpen, Alternates, Open, After;
    var t := Step(s, a).value;
    InFlight(s);
    DeliveryKeepsFull(s, t);
    hide Full;
    if a.TakeCallback? {
      ItemsTop(s.host);
      ItemsSnoc(Pop(s.host), Top(t.host));
    }
  }

  lemma HostSendingIsAStep(s: State, a: Action)
    requires Inv(s) && Step(s, a).Some? && (a.StartCall? || a.EndCallback?)
    ensures Abstract(Step(s, a).value) == LocalStep(Abstract(s), a)
  {
    hide Stacks, Items, HostOpen, GuestOpen, Alternates, Open, After;
    if s.toGuest != [] || s.toHost != [] {
      InFlight(s);
    }
    var t := Step(s, a).value;
    if a.StartCall? {
      ItemsSnoc(s.host, Top(t.host));
    } else {
      ItemsTop(s.host);
      ItemsSnoc(Pop(s.host), Top(t.host));
    }
  }

  /** The call being processed is the one its caller waits for. */
  lemma SameCall(s: State)
    requires Inv(s) && GuestRuns(s) && s.toGuest == [] && s.toHost == []
    ensures s.host != [] && Top(s.host) == Waiting(Top(s.guest).call, Top(s.host).exp)
  {
    hide Stacks, HostOpen, GuestOpen;
    Quiet(s);
    GuestTop(s.guest);
    if s.host == [] {
      HostBottom();
    } else {
      HostTop(s.host);
    }
  }

  lemma GuestSendingIsAStep(s: State, a: Action)
    requires Inv(s) && Step(s, a).Some? && (a.StartCallback? || a.EndCall?)
    ensures Abstract(Step(s, a).value) == LocalStep(Abstract(s), a)
  {
    hide Stacks, Items, HostOpen, GuestOpen, Alternates, Open, After;
    if s.toGuest != [] || s.toHost != [] {
      InFlight(s);
    }
    if a.EndCall? {
      SameCall(s);
      ItemsTop(s.host);
    }
  }

  lemma StepIsLocal(s: State, a: Action)
    requires Inv(s) && Step(s, a).Some?
    ensures Abstract(Step(s, a).value) == LocalStep(Abstract(s), a)
  {
    hide Inv, Step, Abstract;
    match a
    case StartCall(_) => HostSendingIsAStep(s, a);
    case EndCallback(_) => HostSendingIsAStep(s, a);
    case StartCallback => GuestSendingIsAStep(s, a);
    case EndCall(_) => GuestSendingIsAStep(s, a);
    case _ => DeliveryIsNoStep(s, a);
  }

  lemma {:induction false} RunIsLocal(s: State, actions: seq<Action>)
    requires Inv(s) && Run(s, actions).Some?
    ensures Abstract(Run(s, actions).value) == LocalRun(Abstract(s), actions)
    decreases |actions|
  {
    hide Inv, Step, Abstract, LocalStep;
    if actions != [] {
      StepIsLocal(s, actions[0]);
      StepInv(s, actions[0]);
      RunIsLocal(Step(s, actions[0]).value, actions[1..]);
    }
  }

  /**
   * A run of the two processes hands back what the same calls nested in one process hand back: nothing
   * different while a message is in flight, and all of it when none is.
   */
  lemma RunsLikeLocalCalls(actions: seq<Action>, t: State)
    requires Run(INIT, actions) == Some(t)
    ensures var l := LocalRun(IDLE, actions);
            && t.hostLog <= l.log && t.guestLog <= l.log
            && (forall c :: c in t.results ==> c in l.returned && t.results[c] == l.returned[c])
            && (forall cb :: cb in t.replies ==> cb in l.replied && t.replies[cb] == l.replied[cb])
            && (t.toGuest == [] && t.toHost == [] ==>
                  && t.hostLog == t.guestLog == l.log && Items(t.host) == l.stack
                  && t.results == l.returned && t.replies == l.replied)
  {
    hide Run, Step, LocalStep, LocalRun, Abstract, Inv, LogOk, Frames, Results, Replies;
    InitFullInv();
    RunFullInv(INIT, actions);
    assert Abstract(INIT) == IDLE by { AbstractInit(); }
    RunIsLocal(INIT, actions);
    HandedBack(t);
  }

  lemma AbstractInit()
    ensures Abstract(INIT) == IDLE
  {
  }

  /** What has been handed back is part of the abstract state, and all of it if nothing is in flight. */
  lemma HandedBack(t: State)
    requires FullInv(t)
    ensures var l := Abstract(t);
            && t.hostLog <= l.log && t.guestLog <= l.log
            && (forall c :: c in t.results ==> c in l.returned && t.results[c] == l.returned[c])
            && (forall cb :: cb in t.replies ==> cb in l.replied && t.replies[cb] == l.replied[cb])
            && (t.toGuest == [] && t.toHost == [] ==>
                  && t.hostLog == t.guestLog == l.log && Items(t.host) == l.stack
                  && t.results == l.returned && t.replies == l.replied)
  {
    LogsInFull(t);
    ResultInFlightIsNew(t);
    ReplyInFlightIsNew(t);
    if t.toGuest != [] || t.toHost != [] {
      InFlight(t);
    }
    hide Stacks, LogOk, Frames, Results, Replies, Items;
  }

  lemma EndsTwice(log: seq<Event>, next: nat, i: nat, j: nat)
    requires LogOk(log, next) && i < j < |log| && log[i].End? && log[j].End?
    ensures log[i].id != log[j].id
  {
  }

  /** A result in flight has not been handed back before. */
  lemma ResultInFlightIsNew(t: State)
    requires FullInv(t)
    ensures t.toHost != [] && t.toHost[0].End? ==> t.toHost[0].id.n !in t.results
  {
    hide Stacks, LogOk, Frames, Replies;
    if t.toHost != [] && t.toHost[0].End? && t.toHost[0].id.n in t.results {
      var c := t.toHost[0].id.n;
      assert Answered(t.hostLog, c, t.expected[c], t.results[c]);
      var i :| 0 <= i < |t.hostLog| && t.hostLog[i].End? && t.hostLog[i].id == Call(c);
      assert Full(t)[|t.hostLog|] == t.toHost[0];
      EndsTwice(Full(t), t.next, i, |t.hostLog|);
    }
  }

  /** The same for a reply. */
  lemma ReplyInFlightIsNew(t: State)
    requires FullInv(t)
    ensures t.toGuest != [] && t.toGuest[0].End? ==> t.toGuest[0].id.n !in t.replies
  {
    hide Stacks, LogOk, Frames, Results;
    if t.toGuest != [] && t.toGuest[0].End? && t.toGuest[0].id.n in t.replies {
      var cb := t.toGuest[0].id.n;
      assert Replied(t.guestLog, cb, t.replies[cb]);
      var i :| 0 <= i < |t.guestLog| && t.guestLog[i].End? && t.guestLog[i].id == Callback(cb);
      assert Full(t)[|t.guestLog|] == t.toGuest[0];
      EndsTwice(Full(t), t.next, i, |t.guestLog|);
    }
  }
}
