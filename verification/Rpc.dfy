/**
 * The nested call/callback protocol between Sandbox2RPCChannel::Exchange (the host) and
 * ProcessRequest / sapi_client_HandleCallback (the sandboxee): two stack machines that
 * exchange tagged messages over a duplex FIFO channel.  Messages carry no identity; the
 * ids below exist only so that properties can say which call a message belongs to, and
 * no step looks at them.
 */
module Rpc {
  import opened Words

  datatype Id = Call(n: nat) | Callback(n: nat)
  datatype FuncRet = FuncRet(retType: nat, success: bool, value: nat)

  /**
   * A message, and the event of sending or receiving it: Begin(Call) is any request tag,
   * End(Call) kMsgReturn, Begin(Callback) kMsgCallback and End(Callback) kMsgCallbackRet.
   */
  datatype Event = Begin(id: Id) | End(id: Id, ret: FuncRet)

  /** One activation of Exchange: blocked in ExchangeTLV, or running a callback of the embedder. */
  datatype HostFrame = Waiting(call: nat, exp: nat) | InCallback(call: nat, exp: nat, cb: nat)

  /** One activation of ProcessRequest, or of sapi_client_HandleCallback blocked in ExchangeTLV. */
  datatype GuestFrame = Processing(call: nat) | AwaitingReply(cb: nat)

  datatype State = State(
    host: seq<HostFrame>, guest: seq<GuestFrame>,
    toGuest: seq<Event>, toHost: seq<Event>,
    hostLog: seq<Event>, guestLog: seq<Event>,
    next: nat, expected: map<nat, nat>, results: map<nat, Option<FuncRet>>, replies: map<nat, nat>)

  const INIT := State([], [], [], [], [], [], 0, map[], map[], map[])

  function Top<T>(s: seq<T>): T
    requires s != []
  {
    s[|s| - 1]
  }

  function Pop<T>(s: seq<T>): seq<T>
    requires s != []
  {
    s[..|s| - 1]
  }

  /** What Exchange makes of a kMsgReturn. */
  function Accept(ret: FuncRet, exp: nat): Option<FuncRet> {
    if ret.retType == exp && ret.success then Some(ret) else None
  }

  // The host is free to run its own code, or blocked in a receive; the same for the guest.

  predicate HostRuns(s: State) { s.host == [] || Top(s.host).InCallback? }
  predicate HostWaits(s: State) { s.host != [] && Top(s.host).Waiting? }
  predicate GuestRuns(s: State) { s.guest != [] && Top(s.guest).Processing? }
  predicate GuestWaits(s: State) { s.guest == [] || Top(s.guest).AwaitingReply? }

  datatype Action =
    | StartCall(exp: nat)       // Exchange sends a request
    | TakeCallback              // Exchange receives kMsgCallback and runs the callback
    | EndCallback(value: nat)   // ... and sends its result
    | TakeReturn                // Exchange receives kMsgReturn and returns
    | TakeRequest               // the sandboxee receives a request
    | StartCallback             // the function being called calls back
    | EndCall(ret: FuncRet)     // ProcessRequest is done, kMsgReturn is sent
    | TakeReply                 // sapi_client_HandleCallback receives kMsgCallbackRet

  /** The state after one step; None when the step is not possible. */
  function Step(s: State, a: Action): Option<State> {
    match a
    case StartCall(exp) =>
      if HostRuns(s) then
        Some(HostSends(s, Begin(Call(s.next)))
             .(host := s.host + [Waiting(s.next, exp)], next := s.next + 1, expected := s.expected[s.next := exp]))
      else None
    case TakeCallback =>
      if HostWaits(s) && s.toHost != [] && s.toHost[0].Begin? && s.toHost[0].id.Callback? then
        var f := Top(s.host);
        Some(HostReceives(s).(host := Pop(s.host) + [InCallback(f.call, f.exp, s.toHost[0].id.n)]))
      else None
    case EndCallback(value) =>
      if s.host != [] && Top(s.host).InCallback? then
        var f := Top(s.host);
        Some(HostSends(s, End(Callback(f.cb), FuncRet(0, true, value)))
             .(host := Pop(s.host) + [Waiting(f.call, f.exp)]))
      else None
    case TakeReturn =>
      if HostWaits(s) && s.toHost != [] && s.toHost[0].End? && s.toHost[0].id.Call? then
        var f := Top(s.host);
        Some(HostReceives(s).(host := Pop(s.host), results := s.results[f.call := Accept(s.toHost[0].ret, f.exp)]))
      else None
    case TakeRequest =>
      if GuestWaits(s) && s.toGuest != [] && s.toGuest[0].Begin? && s.toGuest[0].id.Call? then
        Some(GuestReceives(s).(guest := s.guest + [Processing(s.toGuest[0].id.n)]))
      else None
    case StartCallback =>
      if GuestRuns(s) then
        Some(GuestSends(s, Begin(Callback(s.next))).(guest := s.guest + [AwaitingReply(s.next)], next := s.next + 1))
      else None
    case EndCall(ret) =>
      if GuestRuns(s) then
        Some(GuestSends(s, End(Call(Top(s.guest).call), ret)).(guest := Pop(s.guest)))
      else None
    case TakeReply =>
      if s.guest != [] && Top(s.guest).AwaitingReply?
         && s.toGuest != [] && s.toGuest[0].End? && s.toGuest[0].id.Callback? then
        Some(GuestReceives(s).(guest := Pop(s.guest), replies := s.replies[Top(s.guest).cb := s.toGuest[0].ret.value]))
      else None
  }

  function HostSends(s: State, e: Event): State { s.(toGuest := s.toGuest + [e], hostLog := s.hostLog + [e]) }
  function GuestSends(s: State, e: Event): State { s.(toHost := s.toHost + [e], guestLog := s.guestLog + [e]) }

  function HostReceives(s: State): State
    requires s.toHost != []
  {
    s.(toHost := s.toHost[1..], hostLog := s.hostLog + [s.toHost[0]])
  }

  function GuestReceives(s: State): State
    requires s.toGuest != []
  {
    s.(toGuest := s.toGuest[1..], guestLog := s.guestLog + [s.toGuest[0]])
  }

  /** The state after a whole run; None if some step of it is not possible. */
  function Run(s: State, actions: seq<Action>): Option<State>
    decreases |actions|
  {
    if actions == [] then Some(s)
    else match Step(s, actions[0])
         case None => None
         case Some(s') => Run(s', actions[1..])
  }

  // Well-bracketed logs -----------------------------------------------------------------

  /** What is still open after a log, innermost last; None if the log is not well bracketed. */
  function Open(log: seq<Event>): Option<seq<Id>>
    decreases |log|
  {
    if log == [] then Some([])
    else match Open(Pop(log))
         case None => None
         case Some(open) => After(open, Top(log))
  }

  function After(open: seq<Id>, e: Event): Option<seq<Id>> {
    match e
    case Begin(id) => Some(open + [id])
    case End(id, _) => if open != [] && Top(open) == id then Some(Pop(open)) else None
  }

  lemma OpenSnoc(log: seq<Event>, e: Event)
    ensures Open(log + [e]) == match Open(log) { case None => None case Some(open) => After(open, e) }
  {
    assert Pop(log + [e]) == log;
  }

  /** Calls and callbacks alternate, outermost a call. */
  predicate Alternates(open: seq<Id>) {
    open == [] || (Alternates(Pop(open)) && (Top(open).Call? <==> Pop(open) == [] || Top(Pop(open)).Callback?))
  }

  lemma AlternatesSnoc(open: seq<Id>, id: Id)
    ensures Alternates(open + [id]) <==> Alternates(open) && (id.Call? <==> open == [] || Top(open).Callback?)
  {
    assert Pop(open + [id]) == open;
  }

  /** The ids a stack is in the middle of. */
  function HostOpen(host: seq<HostFrame>): seq<Id> {
    if host == [] then [] else HostOpen(Pop(host)) + FrameIds(Top(host))
  }

  function FrameIds(f: HostFrame): seq<Id> {
    match f
    case Waiting(c, _) => [Call(c)]
    case InCallback(c, _, cb) => [Call(c), Callback(cb)]
  }

  function GuestOpen(guest: seq<GuestFrame>): seq<Id> {
    if guest == [] then [] else GuestOpen(Pop(guest)) + [GuestId(Top(guest))]
  }

  function GuestId(f: GuestFrame): Id {
    match f
    case Processing(c) => Call(c)
    case AwaitingReply(cb) => Callback(cb)
  }

  lemma HostOpenSnoc(host: seq<HostFrame>, f: HostFrame)
    ensures HostOpen(host + [f]) == HostOpen(host) + FrameIds(f)
  {
    assert Pop(host + [f]) == host;
  }

  lemma GuestOpenSnoc(guest: seq<GuestFrame>, f: GuestFrame)
    ensures GuestOpen(guest + [f]) == GuestOpen(guest) + [GuestId(f)]
  {
    assert Pop(guest + [f]) == guest;
  }

  // The invariant -----------------------------------------------------------------------

  /** At most one message is in flight, and it is what one log is ahead of the other. */
  ghost predicate OneInFlight(s: State) {
    || (s.toGuest == [] && s.toHost == [] && s.hostLog == s.guestLog)
    || (s.toHost == [] && |s.toGuest| == 1 && s.hostLog == s.guestLog + s.toGuest && FromHost(s.toGuest[0]))
    || (s.toGuest == [] && |s.toHost| == 1 && s.guestLog == s.hostLog + s.toHost && !FromHost(s.toHost[0]))
  }

  predicate FromHost(e: Event) {
    e.Begin? <==> e.id.Call?
  }

  ghost predicate Stacks(s: State) {
    && Open(s.hostLog) == Some(HostOpen(s.host)) && Alternates(HostOpen(s.host))
    && Open(s.guestLog) == Some(GuestOpen(s.guest)) && Alternates(GuestOpen(s.guest))
  }

  ghost predicate Inv(s: State) {
    OneInFlight(s) && Stacks(s)
  }

  lemma HostTop(host: seq<HostFrame>)
    requires host != []
    ensures HostOpen(host) == HostOpen(Pop(host)) + FrameIds(Top(host))
    ensures HostOpen(host) != []
    ensures Top(host).Waiting? ==> Top(HostOpen(host)) == Call(Top(host).call)
    ensures Top(host).InCallback? ==> Top(HostOpen(host)) == Callback(Top(host).cb)
  {
  }

  lemma HostBottom()
    ensures HostOpen([]) == []
  {
  }

  lemma GuestTop(guest: seq<GuestFrame>)
    requires guest != []
    ensures GuestOpen(guest) == GuestOpen(Pop(guest)) + [GuestId(Top(guest))]
  {
  }

  lemma GuestBottom()
    ensures GuestOpen([]) == []
  {
  }

  /** Only the host can open a call or close a callback; only the sandboxee can do the opposite. */
  lemma TurnChange(open: seq<Id>, e: Event)
    requires Alternates(open) && After(open, e).Some? && Alternates(After(open, e).value)
    ensures var open' := After(open, e).value;
            if FromHost(e) then (open == [] || Top(open).Callback?) && open' != [] && Top(open').Call?
            else (open' == [] || Top(open').Callback?) && open != [] && Top(open).Call?
  {
    if e.Begin? {
      AlternatesSnoc(open, e.id);
    } else {
      AlternatesSnoc(Pop(open), e.id);
      assert open == Pop(open) + [e.id];
    }
  }

  lemma AlternatesAfter(open: seq<Id>, e: Event)
    requires Alternates(open) && After(open, e).Some?
    requires e.Begin? ==> (e.id.Call? <==> open == [] || Top(open).Callback?)
    ensures Alternates(After(open, e).value)
  {
    if e.Begin? {
      AlternatesSnoc(open, e.id);
    }
  }

  /** While a message is in flight neither side runs, and a result in flight belongs to the innermost activation. */
  lemma InFlight(s: State)
    requires Inv(s) && (s.toGuest != [] || s.toHost != [])
    ensures HostWaits(s) && GuestWaits(s) && |s.toGuest| + |s.toHost| == 1
    ensures s.toGuest != [] ==> FromHost(s.toGuest[0])
    ensures s.toHost != [] ==> !FromHost(s.toHost[0])
    ensures s.toGuest != [] ==> After(GuestOpen(s.guest), s.toGuest[0]) == Some(HostOpen(s.host))
    ensures s.toHost != [] ==> After(HostOpen(s.host), s.toHost[0]) == Some(GuestOpen(s.guest))
    ensures s.toGuest != [] && s.toGuest[0].End? ==> s.guest != [] && s.toGuest[0].id == GuestId(Top(s.guest))
    ensures s.toHost != [] && s.toHost[0].End? ==> s.toHost[0].id == Call(Top(s.host).call)
  {
    hide HostOpen, GuestOpen, Alternates, Open, After;
    StackTops(s);
    if s.toGuest != [] {
      var e := s.toGuest[0];
      assert s.toGuest == [e];
      OpenSnoc(s.guestLog, e);
      TurnChange(GuestOpen(s.guest), e);
      EndsInnermost(GuestOpen(s.guest), e);
    } else {
      var e := s.toHost[0];
      assert s.toHost == [e];
      OpenSnoc(s.hostLog, e);
      TurnChange(HostOpen(s.host), e);
      EndsInnermost(HostOpen(s.host), e);
    }
  }

  /** Both stacks end in what they are in the middle of. */
  lemma StackTops(s: State)
    ensures s.host == [] <==> HostOpen(s.host) == []
    ensures s.host != [] ==>
              Top(HostOpen(s.host))
              == match Top(s.host) { case Waiting(c, _) => Call(c) case InCallback(_, _, cb) => Callback(cb) }
    ensures s.guest == [] <==> GuestOpen(s.guest) == []
    ensures s.guest != [] ==> Top(GuestOpen(s.guest)) == GuestId(Top(s.guest))
  {
    hide HostOpen, GuestOpen;
    if s.host != [] {
      HostTop(s.host);
    } else {
      HostBottom();
    }
    if s.guest != [] {
      GuestTop(s.guest);
    } else {
      GuestBottom();
    }
  }

  lemma EndsInnermost(open: seq<Id>, e: Event)
    requires After(open, e).Some?
    ensures e.End? ==> open != [] && Top(open) == e.id
  {
  }

  /** While nothing is in flight exactly one side runs, and both are in the middle of the same things. */
  lemma Quiet(s: State)
    requires Inv(s) && s.toGuest == [] && s.toHost == []
    ensures HostRuns(s) <==> GuestWaits(s)
    ensures HostOpen(s.host) == GuestOpen(s.guest) && s.hostLog == s.guestLog
  {
    hide HostOpen, GuestOpen, Open, Alternates;
    StackTops(s);
    assert s.host != [] ==> (Top(HostOpen(s.host)).Callback? <==> Top(s.host).InCallback?);
  }

  lemma HostSendsInv(s: State, t: State, e: Event)
    requires Inv(s) && HostRuns(s)
    requires t.hostLog == s.hostLog + [e] && t.toGuest == s.toGuest + [e]
    requires t.guestLog == s.guestLog && t.toHost == s.toHost && t.guest == s.guest
    requires After(HostOpen(s.host), e) == Some(HostOpen(t.host)) && FromHost(e)
    requires e.Begin? ==> HostOpen(s.host) == [] || Top(HostOpen(s.host)).Callback?
    ensures Inv(t)
  {
    hide HostOpen, GuestOpen, Alternates;
    if s.toGuest != [] || s.toHost != [] {
      InFlight(s);
    }
    Quiet(s);
    OpenSnoc(s.hostLog, e);
    AlternatesAfter(HostOpen(s.host), e);
  }

  lemma GuestSendsInv(s: State, t: State, e: Event)
    requires Inv(s) && GuestRuns(s)
    requires t.guestLog == s.guestLog + [e] && t.toHost == s.toHost + [e]
    requires t.hostLog == s.hostLog && t.toGuest == s.toGuest && t.host == s.host
    requires After(GuestOpen(s.guest), e) == Some(GuestOpen(t.guest)) && !FromHost(e)
    requires e.Begin? ==> GuestOpen(s.guest) != [] && Top(GuestOpen(s.guest)).Call?
    ensures Inv(t)
  {
    hide HostOpen, GuestOpen, Alternates;
    if s.toGuest != [] || s.toHost != [] {
      InFlight(s);
    }
    Quiet(s);
    OpenSnoc(s.guestLog, e);
    AlternatesAfter(GuestOpen(s.guest), e);
  }

  /** Delivering the message in flight brings both sides to the same point. */
  lemma DeliveredInv(s: State, t: State)
    requires Inv(s) && (s.toGuest != [] || s.toHost != [])
    requires t.toGuest == [] && t.toHost == []
    requires s.toHost != [] ==>
               t.hostLog == s.hostLog + [s.toHost[0]] && t.guestLog == s.guestLog && t.guest == s.guest &&
               HostOpen(t.host) == GuestOpen(s.guest)
    requires s.toGuest != [] ==>
               t.guestLog == s.guestLog + [s.toGuest[0]] && t.hostLog == s.hostLog && t.host == s.host &&
               GuestOpen(t.guest) == HostOpen(s.host)
    ensures Inv(t)
  {
    hide HostOpen, GuestOpen, Alternates;
    assert s.toHost != [] ==> s.toHost == [s.toHost[0]];
    assert s.toGuest != [] ==> s.toGuest == [s.toGuest[0]];
  }

  lemma StartCallInv(s: State, exp: nat)
    requires Inv(s) && HostRuns(s)
    ensures Inv(Step(s, StartCall(exp)).value)
  {
    hide Inv, Open, Alternates, HostOpen, GuestOpen;
    if s.host != [] {
      HostTop(s.host);
    } else {
      HostBottom();
    }
    HostOpenSnoc(s.host, Waiting(s.next, exp));
    HostSendsInv(s, Step(s, StartCall(exp)).value, Begin(Call(s.next)));
  }

  lemma EndCallbackInv(s: State, value: nat)
    requires Inv(s) && s.host != [] && Top(s.host).InCallback?
    ensures Inv(Step(s, EndCallback(value)).value)
  {
    hide Inv, Open, Alternates, HostOpen, GuestOpen;
    var f, t := Top(s.host), Step(s, EndCallback(value)).value;
    HostTop(s.host);
    HostOpenSnoc(Pop(s.host), Waiting(f.call, f.exp));
    assert Pop(HostOpen(s.host)) == HostOpen(t.host);
    HostSendsInv(s, t, End(Callback(f.cb), FuncRet(0, true, value)));
  }

  lemma HostTakesInv(s: State, a: Action)
    requires Inv(s) && Step(s, a).Some? && (a.TakeCallback? || a.TakeReturn?)
    ensures Inv(Step(s, a).value)
  {
    hide Inv, Open, Alternates, HostOpen, GuestOpen;
    var f, t := Top(s.host), Step(s, a).value;
    InFlight(s);
    HostTop(s.host);
    if a.TakeCallback? {
      HostOpenSnoc(Pop(s.host), Top(t.host));
    } else {
      assert Pop(HostOpen(s.host)) == HostOpen(t.host);
    }
    DeliveredInv(s, t);
  }

  lemma GuestStepInv(s: State, a: Action)
    requires Inv(s) && Step(s, a).Some?
    requires a.TakeRequest? || a.StartCallback? || a.EndCall? || a.TakeReply?
    ensures Inv(Step(s, a).value)
  {
    hide Inv, Open, Alternates, HostOpen, GuestOpen;
    var t := Step(s, a).value;
    if s.guest != [] {
      GuestTop(s.guest);
    }
    if a.StartCallback? {
      GuestOpenSnoc(s.guest, AwaitingReply(s.next));
      GuestSendsInv(s, t, Top(t.guestLog));
    } else if a.EndCall? {
      GuestSendsInv(s, t, Top(t.guestLog));
    } else {
      InFlight(s);
      if a.TakeRequest? {
        GuestOpenSnoc(s.guest, Top(t.guest));
      }
      DeliveredInv(s, t);
    }
  }

  // Theorems ----------------------------------------------------------------------------

  lemma StepInv(s: State, a: Action)
    requires Inv(s) && Step(s, a).Some?
    ensures Inv(Step(s, a).value)
  {
    hide Inv;
    match a
    case StartCall(exp) => StartCallInv(s, exp);
    case EndCallback(value) => EndCallbackInv(s, value);
    case TakeCallback => HostTakesInv(s, a);
    case TakeReturn => HostTakesInv(s, a);
    case TakeRequest => GuestStepInv(s, a);
    case StartCallback => GuestStepInv(s, a);
    case EndCall(_) => GuestStepInv(s, a);
    case TakeReply => GuestStepInv(s, a);
  }

  lemma {:induction false} RunInv(s: State, actions: seq<Action>)
    requires Inv(s) && Run(s, actions).Some?
    ensures Inv(Run(s, actions).value)
    decreases |actions|
  {
    hide Inv, Step;
    if actions != [] {
      StepInv(s, actions[0]);
      RunInv(Step(s, actions[0]).value, actions[1..]);
    }
  }

  /** A state some run from the start leads to. */
  ghost predicate Reachable(s: State) {
    exists actions: seq<Action> :: Run(INIT, actions) == Some(s)
  }

  lemma ReachableInv(s: State)
    requires Reachable(s)
    ensures Inv(s)
  {
    var actions: seq<Action> :| Run(INIT, actions) == Some(s);
    RunInv(INIT, actions);
  }

  /** Exactly one of the two sides runs, or exactly one message is in flight. */
  lemma ExactlyOneTurn(s: State)
    requires Reachable(s)
    ensures |s.toGuest| + |s.toHost| <= 1
    ensures |s.toGuest| + |s.toHost| == 1 ==> !HostRuns(s) && !GuestRuns(s)
    ensures |s.toGuest| + |s.toHost| == 0 ==> (HostRuns(s) <==> !GuestRuns(s))
    ensures |s.toGuest| + |s.toHost| == 0 ==> HostOpen(s.host) == GuestOpen(s.guest) && s.hostLog == s.guestLog
  {
    ReachableInv(s);
    if s.toGuest != [] || s.toHost != [] {
      InFlight(s);
    } else {
      Quiet(s);
    }
  }

  /** Each side's history is well bracketed, and what is open in it is what its stack is in the middle of. */
  lemma WellBracketed(s: State)
    requires Reachable(s)
    ensures Open(s.hostLog) == Some(HostOpen(s.host))
    ensures Open(s.guestLog) == Some(GuestOpen(s.guest))
    ensures s.hostLog <= s.guestLog || s.guestLog <= s.hostLog
  {
    ReachableInv(s);
  }

  /** No side ever receives a tag it does not expect: never "Received unexpected tag", never "unknown tag". */
  lemma NoUnexpectedTag(s: State)
    requires Reachable(s)
    ensures s.toHost != [] ==> Step(s, TakeCallback).Some? || Step(s, TakeReturn).Some?
    ensures s.toGuest != [] ==> Step(s, TakeRequest).Some? || Step(s, TakeReply).Some?
    ensures s.toHost != [] && s.toHost[0].End? ==> s.toHost[0].id == Call(Top(s.host).call)
    ensures s.toGuest != [] && s.toGuest[0].End? ==> s.guest != [] && s.toGuest[0].id == GuestId(Top(s.guest))
  {
    hide Inv, HostOpen, GuestOpen;
    ReachableInv(s);
    if s.toGuest != [] || s.toHost != [] {
      InFlight(s);
    }
  }

  /** Unless the host is idle some step other than a new call is possible. */
  lemma NoDeadlock(s: State)
    requires Reachable(s) && s.host != []
    ensures exists a: Action :: !a.StartCall? && Step(s, a).Some?
  {
    ReachableInv(s);
    if s.toGuest != [] || s.toHost != [] {
      NoUnexpectedTag(s);
    } else {
      Quiet(s);
      assert HostRuns(s) ==> Step(s, EndCallback(0)).Some?;
      assert GuestRuns(s) ==> Step(s, EndCall(FuncRet(0, true, 0))).Some?;
    }
  }

  /** When a top-level call has returned nothing is left over anywhere. */
  lemma IdleIsClean(s: State)
    requires Reachable(s) && s.host == []
    ensures s.guest == [] && s.toGuest == [] && s.toHost == []
    ensures s.hostLog == s.guestLog && Open(s.hostLog) == Some([])
  {
    ReachableInv(s);
    if s.toGuest != [] || s.toHost != [] {
      InFlight(s);
    }
    Quiet(s);
    if s.guest != [] {
      GuestTop(s.guest);
    }
  }

  // Results -------------------------------------------------------------------------------

  /** Ids are never reused: two events of one id are its Begin and, later, its End. */
  ghost predicate LogOk(log: seq<Event>, next: nat) {
    && (forall i :: 0 <= i < |log| ==> log[i].id.n < next)
    && (forall i, j :: 0 <= i < j < |log| && log[i].id == log[j].id ==> log[i].Begin? && log[j].End?)
  }

  ghost predicate Distinct(open: seq<Id>) {
    forall i, j :: 0 <= i < j < |open| ==> open[i] != open[j]
  }

  /** What is open has begun and not ended. */
  ghost predicate NotEnded(log: seq<Event>, open: seq<Id>) {
    forall k, i :: 0 <= k < |open| && 0 <= i < |log| && log[i].id == open[k] ==> log[i].Begin?
  }

  lemma {:induction false} OpenNotEnded(log: seq<Event>, next: nat)
    requires LogOk(log, next) && Open(log).Some?
    ensures Distinct(Open(log).value) && NotEnded(log, Open(log).value)
    ensures forall k :: 0 <= k < |Open(log).value| ==> exists i :: 0 <= i < |log| && log[i].id == Open(log).value[k]
    decreases |log|
  {
    if log != [] {
      var rest, e := Pop(log), Top(log);
      OpenNotEnded(rest, next);
      var before, open := Open(rest).value, Open(log).value;
      assert forall i :: 0 <= i < |rest| ==> log[i] == rest[i];
      if e.Begin? {
        forall k | 0 <= k < |before| ensures before[k] != e.id {
          var i :| 0 <= i < |rest| && rest[i].id == before[k];
        }
      } else {
        assert forall k :: 0 <= k < |open| ==> open[k] == before[k] && open[k] != e.id;
      }
    }
  }

  lemma LogOkSnoc(log: seq<Event>, e: Event, next: nat, next': nat)
    requires LogOk(log, next) && Open(log + [e]).Some? && next <= next'
    requires e.Begin? ==> e.id.n == next < next'
    ensures LogOk(log + [e], next')
  {
    OpenSnoc(log, e);
    OpenNotEnded(log, next);
    if e.End? {
      var open := Open(log).value;
      assert open[|open| - 1] == e.id;
      var j :| 0 <= j < |log| && log[j].id == open[|open| - 1];
    }
  }

  /** The longer of the two histories. */
  function Full(s: State): seq<Event> {
    if |s.guestLog| <= |s.hostLog| then s.hostLog else s.guestLog
  }

  lemma DeliveryKeepsFull(s: State, t: State)
    requires OneInFlight(s)
    requires (s.toHost != [] && t.hostLog == s.hostLog + [s.toHost[0]] && t.guestLog == s.guestLog)
          || (s.toGuest != [] && t.guestLog == s.guestLog + [s.toGuest[0]] && t.hostLog == s.hostLog)
    ensures Full(t) == Full(s)
  {
    assert s.toHost != [] ==> s.toHost == [s.toHost[0]];
    assert s.toGuest != [] ==> s.toGuest == [s.toGuest[0]];
  }

  lemma StepLog(s: State, a: Action)
    requires Inv(s) && Step(s, a).Some? && LogOk(Full(s), s.next)
    ensures LogOk(Full(Step(s, a).value), Step(s, a).value.next)
  {
    hide Open, Alternates, HostOpen, GuestOpen, LogOk;
    var t := Step(s, a).value;
    StepInv(s, a);
    if s.toGuest != [] || s.toHost != [] {
      InFlight(s);
      DeliveryKeepsFull(s, t);
    } else if a.StartCall? || a.EndCallback? {
      LogOkSnoc(s.hostLog, Top(t.hostLog), s.next, t.next);
    } else {
      LogOkSnoc(s.guestLog, Top(t.guestLog), s.next, t.next);
    }
  }

  /** The log has a kMsgReturn for call `c` that Exchange turns into `r`. */
  ghost predicate Answered(log: seq<Event>, c: nat, exp: nat, r: Option<FuncRet>) {
    exists i :: 0 <= i < |log| && log[i].End? && log[i].id == Call(c) && Accept(log[i].ret, exp) == r
  }

  ghost predicate Frames(s: State) {
    && (forall c :: c in s.expected ==> c < s.next)
    && (forall i :: 0 <= i < |s.host| ==> s.host[i].call in s.expected && s.host[i].exp == s.expected[s.host[i].call])
  }

  ghost predicate Results(s: State) {
    forall c :: c in s.results ==> c in s.expected && Answered(s.hostLog, c, s.expected[c], s.results[c])
  }

  /** The log has a kMsgCallbackRet for callback `cb` that carries `value`. */
  ghost predicate Replied(log: seq<Event>, cb: nat, value: nat) {
    exists i :: 0 <= i < |log| && log[i].End? && log[i].id == Callback(cb) && log[i].ret.value == value
  }

  ghost predicate Replies(s: State) {
    forall cb :: cb in s.replies ==> Replied(s.guestLog, cb, s.replies[cb])
  }

  ghost predicate FullInv(s: State) {
    Inv(s) && LogOk(Full(s), s.next) && Frames(s) && Results(s) && Replies(s)
  }

  lemma InitFullInv()
    ensures FullInv(INIT)
  {
  }

  lemma AnsweredSnoc(log: seq<Event>, e: Event, c: nat, exp: nat, r: Option<FuncRet>)
    requires Answered(log, c, exp, r) || (e.End? && e.id == Call(c) && Accept(e.ret, exp) == r)
    ensures Answered(log + [e], c, exp, r)
  {
    if Answered(log, c, exp, r) {
      var i :| 0 <= i < |log| && log[i].End? && log[i].id == Call(c) && Accept(log[i].ret, exp) == r;
      assert (log + [e])[i] == log[i];
    } else {
      assert (log + [e])[|log|] == e;
    }
  }

  lemma StepFrames(s: State, a: Action)
    requires Frames(s) && Step(s, a).Some?
    ensures Frames(Step(s, a).value)
  {
  }

  lemma StepShape(s: State, a: Action)
    requires Frames(s) && Step(s, a).Some?
    ensures var t := Step(s, a).value;
            && (t.hostLog == s.hostLog || (t.hostLog != [] && t.hostLog == s.hostLog + [Top(t.hostLog)]))
            && (forall c :: c in s.expected ==> c in t.expected && t.expected[c] == s.expected[c])
            && (!a.TakeReturn? ==> t.results == s.results)
  {
  }

  lemma TakeReturnResults(s: State)
    requires Inv(s) && Frames(s) && Results(s) && Step(s, TakeReturn).Some?
    ensures Results(Step(s, TakeReturn).value)
  {
    InFlight(s);
    hide Inv, Answered;
    var t := Step(s, TakeReturn).value;
    forall c | c in t.results ensures c in t.expected && Answered(t.hostLog, c, t.expected[c], t.results[c]) {
      AnsweredSnoc(s.hostLog, s.toHost[0], c, t.expected[c], t.results[c]);
    }
  }

  lemma StepResults(s: State, a: Action)
    requires Inv(s) && Frames(s) && Results(s) && Step(s, a).Some?
    ensures Results(Step(s, a).value)
  {
    hide Inv, Answered, Step;
    var t := Step(s, a).value;
    StepShape(s, a);
    if a.TakeReturn? {
      TakeReturnResults(s);
      return;
    }
    forall c | c in t.results ensures c in t.expected && Answered(t.hostLog, c, t.expected[c], t.results[c]) {
      if t.hostLog != s.hostLog {
        AnsweredSnoc(s.hostLog, Top(t.hostLog), c, t.expected[c], t.results[c]);
      }
    }
  }

  lemma RepliedSnoc(log: seq<Event>, e: Event, cb: nat, value: nat)
    requires Replied(log, cb, value) || (e.End? && e.id == Callback(cb) && e.ret.value == value)
    ensures Replied(log + [e], cb, value)
  {
    if Replied(log, cb, value) {
      var i :| 0 <= i < |log| && log[i].End? && log[i].id == Callback(cb) && log[i].ret.value == value;
      assert (log + [e])[i] == log[i];
    } else {
      assert (log + [e])[|log|] == e;
    }
  }

  lemma RepliesShape(s: State, a: Action)
    requires Step(s, a).Some?
    ensures var t := Step(s, a).value;
            && (t.guestLog == s.guestLog || (t.guestLog != [] && t.guestLog == s.guestLog + [Top(t.guestLog)]))
            && (!a.TakeReply? ==> t.replies == s.replies)
  {
  }

  lemma StepReplies(s: State, a: Action)
    requires Inv(s) && Replies(s) && Step(s, a).Some?
    ensures Replies(Step(s, a).value)
  {
    hide Inv, Replied;
    var t := Step(s, a).value;
    if a.TakeReply? {
      InFlight(s);
    } else {
      RepliesShape(s, a);
      hide Step;
    }
    forall cb | cb in t.replies ensures Replied(t.guestLog, cb, t.replies[cb]) {
      if t.guestLog != s.guestLog {
        RepliedSnoc(s.guestLog, Top(t.guestLog), cb, t.replies[cb]);
      }
    }
  }

  lemma {:induction false} RunFullInv(s: State, actions: seq<Action>)
    requires FullInv(s) && Run(s, actions).Some?
    ensures FullInv(Run(s, actions).value)
    decreases |actions|
  {
    hide Inv, Step, LogOk, Frames, Results, Replies;
    if actions != [] {
      StepInv(s, actions[0]);
      StepLog(s, actions[0]);
      StepFrames(s, actions[0]);
      StepResults(s, actions[0]);
      StepReplies(s, actions[0]);
      RunFullInv(Step(s, actions[0]).value, actions[1..]);
    }
  }

  /**
   * What a call returned to its caller is what the sandboxee computed for that very call, and the
   * sandboxee has answered it exactly once.
   */
  lemma EachCallGetsItsOwnResult(s: State, c: nat)
    requires Reachable(s) && c in s.results
    ensures c in s.expected
    ensures exists i :: 0 <= i < |s.guestLog| && IsReturnOf(s.guestLog[i], c)
                        && s.results[c] == Accept(s.guestLog[i].ret, s.expected[c])
    ensures forall i, j :: 0 <= i < j < |s.guestLog| && IsReturnOf(s.guestLog[i], c) ==> !IsReturnOf(s.guestLog[j], c)
  {
    var actions: seq<Action> :| Run(INIT, actions) == Some(s);
    InitFullInv();
    RunFullInv(INIT, actions);
    hide Stacks, LogOk;
    var i :| 0 <= i < |s.hostLog| && s.hostLog[i].End? && s.hostLog[i].id == Call(c)
             && Accept(s.hostLog[i].ret, s.expected[c]) == s.results[c];
    ReturnIsShared(s, i);
    OneReturn(Full(s), s.next, c);
    assert s.guestLog <= Full(s);
  }

  /** A kMsgReturn in the host's history is not the message that is still in flight to the sandboxee. */
  lemma ReturnIsShared(s: State, i: nat)
    requires OneInFlight(s) && i < |s.hostLog| && s.hostLog[i].End? && s.hostLog[i].id.Call?
    ensures i < |s.guestLog| && s.guestLog[i] == s.hostLog[i]
    ensures s.guestLog <= Full(s)
  {
  }

  lemma OneReturn(log: seq<Event>, next: nat, c: nat)
    requires LogOk(log, next)
    ensures forall i, j :: 0 <= i < j < |log| && IsReturnOf(log[i], c) ==> !IsReturnOf(log[j], c)
  {
  }

  predicate IsReturnOf(e: Event, c: nat) {
    e.End? && e.id == Call(c)
  }
}
