/**
 * The byte transport never gets stuck: from every state that any interleaving leads to, short of a
 * Terminate, the two sides can go on until everything that was written has been read.
 */
module TransportProgress {
  import opened Words
  import opened ByteTransport

  /** Terminate has not been called, and nobody acts on a word that says so; a reader that copies wants something. */
  ghost predicate NotClosed(s: State) {
    && !s.word.closed && !s.closeWake && !s.w.WFailed? && !s.r.RFailed?
    && (s.r.RCopy? || s.r.RCas1? || s.r.RCas2? ==> !s.r.s.closed)
    && (s.r.RCopy? ==> s.want > 0)
  }

  ghost predicate Good(s: State) { Inv(s) && NotClosed(s) }

  lemma WriterNotClosed(s: State)
    requires Good(s) && WriterNext(s).Some?
    ensures NotClosed(WriterNext(s).value)
  {
    hide ReaderOk, Stream, Splice;
  }

  lemma ReaderNotClosed(s: State)
    requires Good(s) && ReaderNext(s).Some?
    ensures NotClosed(ReaderNext(s).value)
  {
    hide WriterOk, Stream;
  }

  lemma StepGood(s: State, a: Action)
    requires Good(s) && Step(s, a).Some? && a != Close
    ensures Good(Step(s, a).value)
  {
    StepInv(s, a);
    hide Inv, WriterNext, ReaderNext;
    if a.WriterStep? {
      WriterNotClosed(s);
    } else if a.ReaderStep? {
      ReaderNotClosed(s);
    }
  }

  lemma {:induction false} RunGood(s: State, actions: seq<Action>)
    requires Good(s) && Run(s, actions).Some? && Close !in actions
    ensures Good(Run(s, actions).value)
    decreases |actions|
  {
    hide Good, Step;
    if actions != [] {
      StepGood(s, actions[0]);
      RunGood(Step(s, actions[0]).value, actions[1..]);
    }
  }

  // What is left to do ------------------------------------------------------------------------

  function Unread(s: State): nat { if ReadFrom(s) <= s.word.index then s.word.index - ReadFrom(s) else 0 }

  function Remaining(s: State): nat { Unread(s) + |s.todo| }

  /** Nothing remains exactly if everything that was handed to Write has been handed out by Read. */
  lemma RemainingIff(s: State)
    requires Inv(s)
    ensures |s.given| == |s.consumed| + Remaining(s)
    ensures Remaining(s) == 0 <==> s.consumed == s.given
  {
    hide WriterOk, ReaderOk;
  }

  function WakeDue(s: State): nat { if s.w.WWake? then 1 else 0 }

  /** The reader is giving the buffer back. */
  function ResetRank(s: State): nat {
    match s.r
    case RCas1(_) => 4
    case RCas2(_, _) => 3
    case RWake => 2
    case RZero => 1
    case _ => 0
  }

  function ReaderRank(s: State): nat {
    match s.r
    case RWaitCas(seen) => if seen == s.word then 4 else 8
    case RBlock(seen) => if seen == s.word then 3 else 7
    case RLoad => if s.want == 0 then 6 else 5
    case _ => 0
  }

  function WriterRank(s: State): nat {
    match s.w
    case WCopy(seen) => if seen == s.word then 4 else 9
    case WCas1(seen) => if seen == s.word then 3 else 8
    case WCas2(_, _) => 7
    case WWaitCas(_) => 6
    case WBlock(_) => 6
    case WLoad => 5
    case _ => 0
  }

  ghost predicate Closer(t: State, s: State) {
    || Remaining(t) < Remaining(s)
    || (Remaining(t) == Remaining(s)
        && (|| |t.todo| < |s.todo|
            || (|t.todo| == |s.todo|
                && (|| WakeDue(t) < WakeDue(s)
                    || (WakeDue(t) == WakeDue(s)
                        && (|| ResetRank(t) < ResetRank(s)
                            || (ResetRank(t) == ResetRank(s)
                                && (|| ReaderRank(t) < ReaderRank(s)
                                    || (ReaderRank(t) == ReaderRank(s) && WriterRank(t) < WriterRank(s))))))))))
  }

  // One step closer ---------------------------------------------------------------------------

  /** The reader has nothing to do until the writer has done something. */
  predicate ReaderIdle(s: State) { s.r.RAsleep? || (s.r.RLoad? && s.want == 0 && Unread(s) == 0) }

  /** Then either the buffer is empty and given back, or the writer is about to wake the reader. */
  lemma IdleMeansEmpty(s: State)
    requires Good(s) && ReaderIdle(s)
    ensures s.w.WWake? || (s.word.index == 0 && s.readIndex == 0)
  {
    hide WriterOk;
  }

  /** Into the empty buffer the writer's chunk fits, so it neither sleeps nor waits for long. */
  lemma WriterFits(s: State)
    requires Good(s) && !s.w.WWake? && s.word.index == 0 && s.todo != [] && (s.r.RAsleep? || s.r.RLoad?)
    ensures 0 < ChunkSize(s) <= s.capacity == |s.data|
    ensures !s.w.WAsleep? && !s.w.WFailed?
    ensures s.w.WBlock? || s.w.WWaitCas? ==> s.w.s != s.word
    ensures s.w.WCopy? ==> s.w.s.index + ChunkSize(s) <= s.capacity
  {
    hide ReaderOk;
  }

  lemma Published(s: State, index: nat, wake: bool)
    requires s.todo != [] && s.word.index == index == ReadFrom(s)
    ensures var t := Publish(s, index, wake); Remaining(t) == Remaining(s) && |t.todo| < |s.todo|
  {
  }

  lemma WriterPublishes(s: State)
    requires Good(s) && !s.w.WWake? && s.word.index == 0 && s.readIndex == 0 && s.todo != []
    requires (s.r.RAsleep? || s.r.RLoad?) && (s.w.WCas1? || s.w.WCas2?)
    ensures WriterNext(s).Some? && Closer(WriterNext(s).value, s)
  {
    hide Inv, Publish;
    Published(s, 0, true);
    Published(s, 0, false);
  }

  /** A step that changes nothing but where the writer is. */
  ghost predicate OnlyWriterMoved(s: State, t: State) {
    t == s.(w := t.w, data := t.data)
  }

  lemma RankFalls(s: State, t: State)
    requires OnlyWriterMoved(s, t) && WakeDue(t) == WakeDue(s) && WriterRank(t) < WriterRank(s)
    ensures Closer(t, s)
  {
  }

  lemma WriterRetries(s: State)
    requires Good(s) && s.word.index == 0 && s.todo != [] && (s.r.RAsleep? || s.r.RLoad?)
    requires s.w.WLoad? || s.w.WCopy? || s.w.WWaitCas? || s.w.WBlock?
    ensures WriterNext(s).Some?
    ensures var t := WriterNext(s).value; OnlyWriterMoved(s, t) && !t.w.WWake? && WriterRank(t) < WriterRank(s)
  {
    WriterFits(s);
    hide Inv, Splice, Publish;
  }

  lemma WriterWakes(s: State)
    requires s.w.WWake?
    ensures WriterNext(s).Some? && Closer(WriterNext(s).value, s)
  {
  }

  lemma WriterMoves(s: State)
    requires Good(s) && ReaderIdle(s) && Remaining(s) > 0
    ensures WriterNext(s).Some? && Closer(WriterNext(s).value, s)
  {
    IdleMeansEmpty(s);
    if s.w.WWake? {
      WriterWakes(s);
      return;
    }
    WriterFits(s);
    hide Good, WriterNext, Closer, WriterRank;
    if s.w.WCas1? || s.w.WCas2? {
      WriterPublishes(s);
    } else {
      WriterRetries(s);
      RankFalls(s, WriterNext(s).value);
    }
  }

  lemma ReaderMoves(s: State)
    requires Good(s) && !ReaderIdle(s) && !(s.r.RLoad? && s.want == 0)
    ensures ReaderNext(s).Some? && Closer(ReaderNext(s).value, s)
  {
    hide WriterOk;
  }

  /** Who goes next, and with what. */
  function Next(s: State): Action {
    if ReaderIdle(s) then WriterStep else if s.r.RLoad? && s.want == 0 then Recv(1) else ReaderStep
  }

  lemma OneStepCloser(s: State)
    requires Good(s) && Remaining(s) > 0
    ensures Step(s, Next(s)).Some?
    ensures var t := Step(s, Next(s)).value; Good(t) && Closer(t, s) && t.given == s.given
  {
    hide Good, WriterNext, ReaderNext;
    if ReaderIdle(s) {
      WriterMoves(s);
      WriterKeepsGiven(s);
    } else if !(s.r.RLoad? && s.want == 0) {
      ReaderMoves(s);
      ReaderKeepsGiven(s);
    }
    StepGood(s, Next(s));
  }

  lemma WriterKeepsGiven(s: State)
    requires WriterNext(s).Some?
    ensures WriterNext(s).value.given == s.given
  {
  }

  lemma ReaderKeepsGiven(s: State)
    requires ReaderNext(s).Some?
    ensures ReaderNext(s).value.given == s.given
  {
  }

  lemma {:induction false} Finish(s: State) returns (t: State, more: seq<Action>)
    requires Good(s)
    ensures Run(s, more) == Some(t) && t.given == s.given && t.consumed == t.given
    ensures forall a :: a in more ==> a == WriterStep || a == ReaderStep || a == Recv(1)
    decreases Remaining(s), |s.todo|, WakeDue(s), ResetRank(s), ReaderRank(s), WriterRank(s)
  {
    hide Step, Inv, NotClosed, Remaining, WakeDue, ResetRank, ReaderRank, WriterRank, ReaderIdle;
    RemainingIff(s);
    if Remaining(s) == 0 {
      t, more := s, [];
    } else {
      OneStepCloser(s);
      var rest;
      t, rest := Finish(Step(s, Next(s)).value);
      more := [Next(s)] + rest;
      assert more[1..] == rest;
    }
  }

  /**
   * Whatever writer and reader have done so far, in whatever order, there is a way on in which they
   * alone, with enough reads, get everything across: no state is a dead end.
   */
  lemma EverythingCanArrive(capacity: nat, actions: seq<Action>, s: State)
    requires capacity >= CHUNK && Run(Init(capacity), actions) == Some(s) && Close !in actions
    ensures exists more: seq<Action>, t: State ::
              && Run(s, more) == Some(t) && t.given == s.given && t.consumed == s.given
              && forall a :: a in more ==> a == WriterStep || a == ReaderStep || a == Recv(1)
  {
    InitInv(capacity);
    hide Run, Inv;
    RunGood(Init(capacity), actions);
    var t, more := Finish(s);
  }

  // Waiting -----------------------------------------------------------------------------------

  /** Whoever is going to sleep has put its bit in the word and sleeps on that very word. */
  lemma WaitingIsAnnounced(s: State)
    ensures s.w.WWaitCas? ==>
              var t := WriterNext(s).value;
              t.w.WBlock? <==> s.word == s.w.s && t.word == s.word.(waitW := true) && t.w == WBlock(t.word)
    ensures s.r.RWaitCas? ==>
              var t := ReaderNext(s).value;
              t.r.RBlock? <==> s.word == s.r.s && t.word == s.word.(waitR := true) && t.r == RBlock(t.word)
  {
  }

  /** After an exchange's write the reader waits exactly if nothing has happened to the word since its last read. */
  lemma ParkWaits(s: State)
    requires Step(s, Park).Some?
    ensures var t := ReaderNext(Step(s, Park).value).value;
            t.r.RBlock? <==> s.word.index == s.readIndex && !s.word.waitR && !s.word.waitW && !s.word.closed
  {
  }
}
