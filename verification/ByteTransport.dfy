/**
 * One direction of AsynchronousByteTransport: a writer and a reader share a buffer and one atomic
 * word that holds the write index and three flags.  Both sides interleave at every access to the
 * word, and Terminate may come in between at any time.
 */
module ByteTransport {
  import opened Words

  const CHUNK: nat := 8192

  /** The futex word. */
  datatype Word = Word(index: nat, waitR: bool, waitW: bool, closed: bool)

  /** Where the writer is in Write; `s` is the word it loaded, `copy` the one its first CAS found. */
  datatype WPc =
    | WLoad | WCopy(s: Word) | WCas1(s: Word) | WCas2(s: Word, copy: Word)
    | WWaitCas(s: Word) | WBlock(s: Word) | WAsleep | WWake | WFailed

  /** Where the reader is in Read. */
  datatype RPc =
    | RLoad | RCopy(s: Word) | RCas1(s: Word) | RCas2(s: Word, copy: Word) | RWake | RZero
    | RWaitCas(s: Word) | RBlock(s: Word) | RAsleep | RFailed

  /**
   * `todo` and `want` are what is left of the current Write and Read; `given`, `published` and
   * `consumed` are all bytes ever handed to Write, made visible in the word, and handed out by Read.
   */
  datatype State = State(
    capacity: nat, word: Word, data: seq<u8>, readIndex: nat,
    w: WPc, todo: seq<u8>, r: RPc, want: nat, closeWake: bool,
    given: seq<u8>, published: seq<u8>, consumed: seq<u8>)

  function Init(capacity: nat): State {
    State(capacity, Word(0, false, false, false), seq(capacity, _ => 0), 0,
          WLoad, [], RLoad, 0, false, [], [], [])
  }

  /** The size of the chunk the writer is working on. */
  function ChunkSize(s: State): nat { Min(CHUNK, |s.todo|) }

  datatype Action =
    | Send(bytes: seq<u8>)   // Write is called
    | Recv(n: nat)           // Read is called
    | Park                   // the end of Exchange's Write: wait for an answer before reading it
    | WriterStep
    | ReaderStep
    | Close                  // Terminate sets the closed bit
    | CloseWakes             // ... and wakes everybody

  function Step(s: State, a: Action): Option<State> {
    match a
    case Send(bytes) =>
      if s.w.WLoad? && s.todo == [] then Some(s.(todo := bytes, given := s.given + bytes)) else None
    case Recv(n) => if s.r.RLoad? && s.want == 0 then Some(s.(want := n)) else None
    case Park =>
      if s.r.RLoad? && s.want == 0 then Some(s.(r := RWaitCas(Word(s.readIndex, false, false, false)))) else None
    case WriterStep => WriterNext(s)
    case ReaderStep => ReaderNext(s)
    case Close => Some(s.(word := s.word.(closed := true), closeWake := true))
    case CloseWakes =>
      if s.closeWake then
        Some(s.(closeWake := false, w := if s.w.WAsleep? then WLoad else s.w, r := if s.r.RAsleep? then RLoad else s.r))
      else None
  }

  /** A successful UpdateWriteIndex. */
  function Publish(s: State, index: nat, wake: bool): State {
    var n := ChunkSize(s);
    s.(word := Word(index + n, false, false, false), todo := s.todo[n..], published := s.published + s.todo[..n],
       w := if wake then WWake else WLoad)
  }

  function WriterNext(s: State): Option<State> {
    var n := ChunkSize(s);
    match s.w
    case WLoad =>
      if s.todo == [] then None
      else if s.word.closed then Some(s.(w := WFailed))
      else if n > s.capacity - s.word.index then Some(s.(w := WWaitCas(s.word)))
      else Some(s.(w := WCopy(s.word)))
    case WCopy(seen) =>
      if seen.index + n <= |s.data| then
        Some(s.(data := Splice(s.data, seen.index, s.todo[..n]), w := WCas1(seen)))
      else None
    case WCas1(seen) =>
      if s.word == seen then Some(Publish(s, seen.index, seen.waitR)) else Some(s.(w := WCas2(seen, s.word)))
    case WCas2(seen, copy) =>
      var seen' := seen.(waitR := true);
      if seen' == copy && s.word == seen' then Some(Publish(s, seen.index, true)) else Some(s.(w := WLoad))
    case WWaitCas(seen) =>
      var seen' := seen.(waitW := true);
      if s.word == seen then Some(s.(word := seen', w := WBlock(seen'))) else Some(s.(w := WLoad))
    case WBlock(seen) => Some(s.(w := if s.word == seen then WAsleep else WLoad))
    case WAsleep => None
    case WWake => Some(s.(w := WLoad, r := if s.r.RAsleep? then RLoad else s.r))
    case WFailed => None
  }

  /** A successful ResetWriteIndex; `closed` is the bit as the reader loaded it. */
  function Reset(s: State, closed: bool, wake: bool): State {
    s.(word := Word(0, false, false, closed), r := if wake then RWake else RZero)
  }

  function ReaderNext(s: State): Option<State> {
    match s.r
    case RLoad =>
      if s.want == 0 then None
      else if s.word.index == 0 || s.readIndex == s.capacity then
        Some(s.(r := if s.word.closed then RFailed else RWaitCas(s.word)))
      else Some(s.(r := RCopy(s.word)))
    case RCopy(seen) =>
      if s.readIndex <= seen.index <= |s.data| then
        var c := Min(Min(CHUNK, seen.index - s.readIndex), s.want);
        Some(s.(consumed := s.consumed + s.data[s.readIndex..s.readIndex + c], readIndex := s.readIndex + c,
                want := s.want - c, r := if s.readIndex + c == seen.index then RCas1(seen) else RLoad))
      else None
    case RCas1(seen) =>
      if s.word == seen then Some(Reset(s, seen.closed, seen.waitW)) else Some(s.(r := RCas2(seen, s.word)))
    case RCas2(seen, copy) =>
      var seen' := seen.(waitW := seen.waitW || copy.waitW, closed := seen.closed || copy.closed);
      if seen' == copy && s.word == seen' then Some(Reset(s, seen.closed, seen'.waitW)) else Some(s.(r := RLoad))
    case RWake => Some(s.(r := RZero, w := if s.w.WAsleep? then WLoad else s.w))
    case RZero => Some(s.(readIndex := 0, r := RLoad))
    case RWaitCas(seen) =>
      var seen' := seen.(waitR := true);
      if s.word == seen then Some(s.(word := seen', r := RBlock(seen'))) else Some(s.(r := RLoad))
    case RBlock(seen) => Some(s.(r := if s.word == seen then RAsleep else RLoad))
    case RAsleep => None
    case RFailed => None
  }

  function Run(s: State, actions: seq<Action>): Option<State>
    decreases |actions|
  {
    if actions == [] then Some(s)
    else match Step(s, actions[0])
         case None => None
         case Some(s') => Run(s', actions[1..])
  }

  // The invariant -----------------------------------------------------------------------

  /** Where the next unread byte is: between the reset of the word and that of the index it is 0. */
  function ReadFrom(s: State): nat {
    if s.r.RWake? || s.r.RZero? then 0 else s.readIndex
  }

  /** No byte is lost, duplicated or reordered. */
  ghost predicate Stream(s: State) {
    && |s.data| == s.capacity >= CHUNK
    && ReadFrom(s) <= s.word.index <= s.capacity
    && s.published == s.consumed + s.data[ReadFrom(s)..s.word.index]
    && s.given == s.published + s.todo
  }

  ghost predicate WriterOk(s: State) {
    var n := ChunkSize(s);
    match s.w
    case WCopy(seen) => s.todo != [] && !seen.closed && s.word.index <= seen.index && seen.index + n <= s.capacity
    case WCas1(seen) => HasCopied(s, seen)
    case WCas2(seen, _) => HasCopied(s, seen)
    case WWaitCas(seen) => s.todo != [] && !seen.closed && n > s.capacity - seen.index
    case WBlock(seen) => seen.waitW && (s.word.waitW ==> n > s.capacity - s.word.index)
    case WAsleep =>
      && (s.word.waitW ==> n > s.capacity - s.word.index)
      && (s.word.waitW || s.r.RWake? || s.closeWake)
    case _ => true
  }

  /** The chunk is in the buffer, above everything the reader may look at. */
  ghost predicate HasCopied(s: State, seen: Word) {
    var n := ChunkSize(s);
    && s.todo != [] && !seen.closed && s.word.index <= seen.index
    && seen.index + n <= s.capacity == |s.data| && s.data[seen.index..seen.index + n] == s.todo[..n]
  }

  /** How the word may change while the reader is not touching it: more data, or more flags. */
  predicate Evolves(seen: Word, now: Word) {
    || now.index > seen.index
    || (now.index == seen.index && now.waitR == seen.waitR && (seen.waitW ==> now.waitW)
        && (seen.closed ==> now.closed && now.waitW == seen.waitW))
  }

  ghost predicate ReaderOk(s: State) {
    match s.r
    case RCopy(seen) =>
      s.readIndex <= seen.index && (s.readIndex < seen.index || seen.closed) && 0 < seen.index && Evolves(seen, s.word)
    case RCas1(seen) => s.readIndex == seen.index && Evolves(seen, s.word)
    case RCas2(seen, copy) => s.readIndex == seen.index && copy != seen && Evolves(seen, copy) && Evolves(copy, s.word)
    case RLoad => AllReadMeansClosed(s)
    case RWaitCas(seen) => !seen.closed && (seen.index == 0 || seen.index == s.readIndex) && AllReadMeansClosed(s)
    case RBlock(seen) => s.readIndex == 0 && seen.waitR
    case RAsleep => s.readIndex == 0 && (s.word.waitR || s.w.WWake? || s.closeWake)
    case _ => true
  }

  /** With everything read and the index not reset, a reset has failed, which takes a Terminate. */
  ghost predicate AllReadMeansClosed(s: State) {
    s.readIndex == s.word.index && s.word.index > 0 ==> s.word.closed
  }

  ghost predicate Inv(s: State) {
    Stream(s) && WriterOk(s) && ReaderOk(s) && (s.word.waitR ==> s.word.index == 0)
  }

  // The bytes -----------------------------------------------------------------------------

  lemma PublishBytes(published: seq<u8>, consumed: seq<u8>, data: seq<u8>, lo: nat, hi: nat, n: nat, todo: seq<u8>)
    requires lo <= hi <= hi + n <= |data| && n <= |todo| && data[hi..hi + n] == todo[..n]
    requires published == consumed + data[lo..hi]
    ensures published + todo[..n] == consumed + data[lo..hi + n]
    ensures published + todo == published + todo[..n] + todo[n..]
  {
    assert data[lo..hi + n] == data[lo..hi] + data[hi..hi + n];
    assert todo == todo[..n] + todo[n..];
  }

  lemma PublishStream(s: State, seen: Word, wake: bool)
    requires Stream(s) && HasCopied(s, seen) && seen.index == s.word.index
    ensures Stream(Publish(s, s.word.index, wake))
  {
    PublishBytes(s.published, s.consumed, s.data, ReadFrom(s), s.word.index, ChunkSize(s), s.todo);
  }

  lemma SpliceSlices(data: seq<u8>, at: nat, chunk: seq<u8>, lo: nat, hi: nat)
    requires at + |chunk| <= |data| && lo <= hi <= at
    ensures |Splice(data, at, chunk)| == |data|
    ensures Splice(data, at, chunk)[lo..hi] == data[lo..hi]
    ensures Splice(data, at, chunk)[at..at + |chunk|] == chunk
  {
  }

  lemma WriterStream(s: State)
    requires Inv(s) && WriterNext(s).Some?
    ensures Stream(WriterNext(s).value)
  {
    hide ReaderOk;
    if s.w.WCopy? {
      SpliceSlices(s.data, s.w.s.index, s.todo[..ChunkSize(s)], ReadFrom(s), s.word.index);
    } else if s.w.WCas1? || s.w.WCas2? {
      if s.word.index == s.w.s.index {
        PublishStream(s, s.w.s, true);
        PublishStream(s, s.w.s, false);
      }
    }
  }

  lemma ConsumeStream(s: State, c: nat)
    requires Stream(s) && s.r.RCopy? && s.readIndex + c <= s.word.index
    ensures s.published == s.consumed + s.data[s.readIndex..s.readIndex + c] + s.data[s.readIndex + c..s.word.index]
  {
    var lo, hi := s.readIndex, s.word.index;
    assert s.data[lo..hi] == s.data[lo..lo + c] + s.data[lo + c..hi];
  }

  lemma ReaderStream(s: State)
    requires Inv(s) && ReaderNext(s).Some?
    ensures Stream(ReaderNext(s).value)
  {
    hide WriterOk;
    if s.r.RCopy? {
      ConsumeStream(s, Min(Min(CHUNK, s.r.s.index - s.readIndex), s.want));
    }
  }

  // The word ------------------------------------------------------------------------------

  lemma EvolvesTransitive(a: Word, b: Word, c: Word)
    requires Evolves(a, b) && Evolves(b, c)
    ensures Evolves(a, c)
  {
  }

  /** What the writer and Terminate can do to the word. */
  lemma WriterEvolves(s: State)
    requires Inv(s) && WriterNext(s).Some?
    ensures Evolves(s.word, WriterNext(s).value.word)
  {
    hide ReaderOk, Stream;
  }

  /** Nothing but the word and a wake-up reaches the reader from outside. */
  lemma ReaderOkKept(s: State, t: State)
    requires ReaderOk(s) && Evolves(s.word, t.word)
    requires t.readIndex == s.readIndex && ReadFrom(s) <= s.word.index
    requires t.r == s.r || (s.r.RAsleep? && t.r.RLoad?)
    requires s.r.RAsleep? && t.r.RAsleep? ==> t.word.waitR || t.w.WWake? || t.closeWake
    ensures ReaderOk(t)
  {
    match s.r
    case RCopy(seen) => EvolvesTransitive(seen, s.word, t.word);
    case RCas1(seen) => EvolvesTransitive(seen, s.word, t.word);
    case RCas2(seen, copy) => EvolvesTransitive(copy, s.word, t.word);
    case _ =>
  }

  lemma WriterKeepsReaderOk(s: State)
    requires Inv(s) && WriterNext(s).Some?
    ensures ReaderOk(WriterNext(s).value)
  {
    assert ReadFrom(s) <= s.word.index;
    hide Stream, Evolves;
    WriterEvolves(s);
    ReaderOkKept(s, WriterNext(s).value);
  }

  lemma WriterKeepsWriterOk(s: State)
    requires Inv(s) && WriterNext(s).Some?
    ensures WriterOk(WriterNext(s).value)
  {
    hide ReaderOk;
    if s.w.WCopy? {
      SpliceSlices(s.data, s.w.s.index, s.todo[..ChunkSize(s)], 0, 0);
    }
  }

  lemma WriterInv(s: State)
    requires Inv(s) && WriterNext(s).Some?
    ensures Inv(WriterNext(s).value)
  {
    hide Stream, WriterOk, ReaderOk;
    WriterStream(s);
    WriterKeepsReaderOk(s);
    WriterKeepsWriterOk(s);
  }

  /** Nothing but the word and a wake-up reaches the writer from outside. */
  lemma WriterOkKept(s: State, t: State)
    requires WriterOk(s)
    requires t.data == s.data && t.todo == s.todo && t.capacity == s.capacity
    requires t.word.index <= s.word.index
    requires t.word.waitW ==> s.word.waitW && t.word.index == s.word.index
    requires t.w == s.w || (s.w.WAsleep? && t.w.WLoad?)
    requires s.w.WAsleep? && t.w.WAsleep? ==> t.word.waitW || t.r.RWake? || t.closeWake
    ensures WriterOk(t)
  {
  }

  /** The reader never raises the index and never touches the buffer. */
  lemma ReaderKeepsWriterOk(s: State)
    requires Inv(s) && ReaderNext(s).Some?
    ensures WriterOk(ReaderNext(s).value)
  {
    hide ReaderOk, Stream;
    assert s.w.WAsleep? ==> s.word.waitW || s.r.RWake? || s.closeWake;
    hide WriterOk;
    WriterOkKept(s, ReaderNext(s).value);
  }

  /** A reset fails only if there is more to read or Terminate has come. */
  lemma FailedReset(s: State)
    requires s.r.RCas2? && ReaderOk(s) && ReaderNext(s).Some? && ReaderNext(s).value.r.RLoad?
    ensures AllReadMeansClosed(s)
  {
  }

  lemma ReaderKeepsReaderOk(s: State)
    requires Inv(s) && ReaderNext(s).Some?
    ensures ReaderOk(ReaderNext(s).value)
  {
    hide WriterOk;
    if s.r.RCas2? && ReaderNext(s).value.r.RLoad? {
      FailedReset(s);
    }
  }

  lemma ReaderInv(s: State)
    requires Inv(s) && ReaderNext(s).Some?
    ensures Inv(ReaderNext(s).value)
  {
    hide WriterOk;
    ReaderStream(s);
    ReaderKeepsReaderOk(s);
    ReaderKeepsWriterOk(s);
  }

  // Theorems ------------------------------------------------------------------------------

  lemma SendInv(s: State, bytes: seq<u8>)
    requires Inv(s) && s.w.WLoad? && s.todo == []
    ensures Inv(Step(s, Send(bytes)).value)
  {
    hide Evolves, HasCopied;
    assert s.given + bytes == s.published + bytes;
  }

  lemma RecvInv(s: State, a: Action)
    requires Inv(s) && Step(s, a).Some? && (a.Recv? || a.Park?)
    ensures Inv(Step(s, a).value)
  {
    assert s.w.WAsleep? ==> s.word.waitW || s.r.RWake? || s.closeWake;
    hide Evolves, WriterOk;
    WriterOkKept(s, Step(s, a).value);
  }

  lemma CloseInv(s: State, a: Action)
    requires Inv(s) && Step(s, a).Some? && (a.Close? || a.CloseWakes?)
    ensures Inv(Step(s, a).value)
  {
    hide WriterOk, ReaderOk;
    ReaderOkKept(s, Step(s, a).value);
    WriterOkKept(s, Step(s, a).value);
  }

  lemma StepInv(s: State, a: Action)
    requires Inv(s) && Step(s, a).Some?
    ensures Inv(Step(s, a).value)
  {
    hide Inv, WriterNext, ReaderNext;
    if a.WriterStep? {
      WriterInv(s);
    } else if a.ReaderStep? {
      ReaderInv(s);
    } else if a.Close? || a.CloseWakes? {
      CloseInv(s, a);
    } else if a.Send? {
      SendInv(s, a.bytes);
    } else {
      RecvInv(s, a);
    }
  }

  lemma {:induction false} RunInv(s: State, actions: seq<Action>)
    requires Inv(s) && Run(s, actions).Some?
    ensures Inv(Run(s, actions).value)
    decreases |actions|
  {
    hide Inv, Step;
    if actions != [] {
      StepInv(s, actions[0]);
      RunInv(Step(s, actions[0]).value, actions[1..]);
    }
  }

  ghost predicate Reachable(s: State) {
    exists actions: seq<Action> :: Run(Init(s.capacity), actions) == Some(s)
  }

  lemma ReachableInv(s: State)
    requires Reachable(s) && s.capacity >= CHUNK
    ensures Inv(s)
  {
    hide Step;
    var actions: seq<Action> :| Run(Init(s.capacity), actions) == Some(s);
    InitInv(s.capacity);
    hide Inv;
    RunInv(Init(s.capacity), actions);
  }

  lemma InitInv(capacity: nat)
    requires capacity >= CHUNK
    ensures Inv(Init(capacity))
  {
  }

  /** What Read has handed out is always a prefix of what was handed to Write, and the rest is still there. */
  lemma ReliableStream(s: State)
    requires Reachable(s) && s.capacity >= CHUNK
    ensures ReadFrom(s) <= s.word.index <= |s.data|
    ensures s.given == s.consumed + s.data[ReadFrom(s)..s.word.index] + s.todo
  {
    ReachableInv(s);
  }

  /** A sleeper has nothing to do, or whoever gave it something to do is about to wake it. */
  lemma NoLostWakeUp(s: State)
    requires Reachable(s) && s.capacity >= CHUNK
    ensures s.r.RAsleep? ==> ReadFrom(s) == s.word.index || s.w.WWake? || s.closeWake
    ensures s.w.WAsleep? ==> ChunkSize(s) > s.capacity - s.word.index || s.r.RWake? || s.closeWake
  {
    ReachableInv(s);
  }

  /** The two sides never sleep waiting for each other. */
  lemma NotBothAsleep(s: State)
    requires Reachable(s) && s.capacity >= CHUNK
    ensures s.r.RAsleep? && s.w.WAsleep? ==> s.closeWake
  {
    ReachableInv(s);
  }

  // The closed bit ------------------------------------------------------------------------

  /** The reader's second CAS succeeds although Terminate came after its load. */
  predicate ForgetsClose(s: State, a: Action) {
    && a.ReaderStep? && s.r.RCas2?
    && !s.r.s.closed
    && s.word == s.r.copy == s.r.s.(waitW := s.r.s.waitW || s.r.copy.waitW, closed := s.r.copy.closed)
  }

  /**
   * A step takes back the closed bit exactly if it is the second CAS of ResetWriteIndex and the reader
   * loaded the word before Terminate set the bit: the new word is computed from that load.
   */
  lemma ClosedBitIsKeptUnless(s: State, a: Action)
    requires Reachable(s) && s.capacity >= CHUNK && Step(s, a).Some? && s.word.closed
    ensures !Step(s, a).value.word.closed <==> ForgetsClose(s, a)
  {
    ReachableInv(s);
    hide Stream;
  }

  /** The run of the exception: one byte is written, the reader takes it, and Terminate comes before the reset. */
  lemma ClosedBitCanBeLost(capacity: nat)
    requires capacity >= CHUNK
    ensures exists actions: seq<Action>, s: State ::
              Run(Init(capacity), actions) == Some(s) && Close in actions && !s.word.closed
  {
    hide Run, Init;
    var s, a := OneByteWritten(capacity);
    var t, b := ReadAndForget(s);
    RunConcat(Init(capacity), a, s, b);
    assert Close in a + b;
  }

  lemma OneByteWritten(capacity: nat) returns (s: State, actions: seq<Action>)
    requires capacity >= CHUNK
    ensures Run(Init(capacity), actions) == Some(s)
    ensures s.word == Word(1, false, false, false) && s.readIndex == 0 && s.r == RLoad && s.want == 0
    ensures s.capacity == |s.data| == capacity && s.w == WLoad && s.todo == []
  {
    var s0 := Init(capacity);
    var s1 := Step(s0, Send([7])).value;
    assert s1.todo == [7];
    var s2 := Step(s1, WriterStep).value;
    assert s2 == s1.(w := WCopy(s0.word));
    var s3 := Step(s2, WriterStep).value;
    s := Step(s3, WriterStep).value;
    actions := [Send([7]), WriterStep, WriterStep] + ([WriterStep] + []);
    hide Step;
    RunOne(s3, WriterStep, s, []);
    RunThree(s0, actions[..3], s1, s2, s3, [WriterStep] + []);
    assert actions[..3] + ([WriterStep] + []) == actions;
  }

  lemma ReadAndForget(s: State) returns (t: State, actions: seq<Action>)
    requires s.word == Word(1, false, false, false) && s.readIndex == 0 && s.r == RLoad && s.want == 0
    requires s.capacity == |s.data| >= CHUNK
    ensures Run(s, actions) == Some(t) && Close in actions && !t.word.closed
    ensures t.r == RZero && t.word == Word(0, false, false, false) && t.closeWake && t.want == 0
    ensures t.w == s.w && t.todo == s.todo && t.capacity == s.capacity
  {
    var s1 := Step(s, Recv(1)).value;
    var s2 := Step(s1, ReaderStep).value;
    var s3 := Step(s2, ReaderStep).value;
    assert s3.r == RCas1(s.word);
    var s4 := Step(s3, Close).value;
    var s5 := Step(s4, ReaderStep).value;
    assert s5.r == RCas2(s.word, s4.word);
    t := Step(s5, ReaderStep).value;
    hide Step;
    var b := [Close, ReaderStep, ReaderStep] + [];
    actions := [Recv(1), ReaderStep, ReaderStep] + b;
    RunThree(s3, b, s4, s5, t, []);
    RunThree(s, actions[..3], s1, s2, s3, b);
    assert b + [] == b && actions[..3] + b == actions && actions[3] == Close;
  }

  /**
   * What comes of it: Terminate, called by the other side, has set the bit and woken everybody, and yet
   * the reader sleeps with nothing to read, no bit set and no wake-up to come.
   */
  lemma TerminationCanBeMissed(capacity: nat)
    requires capacity >= CHUNK
    ensures exists actions: seq<Action>, s: State ::
              && Run(Init(capacity), actions) == Some(s) && Close in actions && CloseWakes in actions
              && s.r == RAsleep && !s.word.closed && !s.closeWake && ReadFrom(s) == s.word.index
              && s.w == WLoad && s.todo == []
  {
    hide Run, Init;
    var s, a := OneByteWritten(capacity);
    var t, b := ReadAndForget(s);
    var u, d := SleepsOn(t);
    RunConcat(s, b, t, d);
    RunConcat(Init(capacity), a, s, b + d);
    assert Close in a + (b + d) && CloseWakes in a + (b + d);
  }

  lemma SleepsOn(s: State) returns (t: State, actions: seq<Action>)
    requires s.r == RZero && s.word == Word(0, false, false, false) && s.closeWake && s.want == 0
    requires s.w == WLoad && s.todo == [] && s.capacity >= CHUNK
    ensures Run(s, actions) == Some(t) && CloseWakes in actions
    ensures t.r == RAsleep && !t.word.closed && !t.closeWake && ReadFrom(t) == t.word.index
    ensures t.w == WLoad && t.todo == []
  {
    var s1 := Step(s, CloseWakes).value;
    var s2 := Step(s1, ReaderStep).value;
    var s3 := Step(s2, Recv(1)).value;
    var s4 := Step(s3, ReaderStep).value;
    var s5 := Step(s4, ReaderStep).value;
    t := Step(s5, ReaderStep).value;
    hide Step;
    var b := [ReaderStep, ReaderStep, ReaderStep] + [];
    actions := [CloseWakes, ReaderStep, Recv(1)] + b;
    RunThree(s3, b, s4, s5, t, []);
    RunThree(s, actions[..3], s1, s2, s3, b);
    assert b + [] == b && actions[..3] + b == actions && actions[0] == CloseWakes;
  }

  lemma {:induction false} RunConcat(s: State, a: seq<Action>, t: State, b: seq<Action>)
    requires Run(s, a) == Some(t)
    ensures Run(s, a + b) == Run(t, b)
    decreases |a|
  {
    hide Step;
    if a == [] {
      assert a + b == b;
    } else {
      RunConcat(Step(s, a[0]).value, a[1..], t, b);
      assert (a + b)[1..] == a[1..] + b;
    }
  }

  lemma RunOne(s: State, a: Action, t: State, rest: seq<Action>)
    requires Step(s, a) == Some(t)
    ensures Run(s, [a] + rest) == Run(t, rest)
  {
    hide Step;
    assert ([a] + rest)[1..] == rest;
  }

  lemma RunThree(s: State, a: seq<Action>, t1: State, t2: State, t3: State, rest: seq<Action>)
    requires |a| == 3 && Step(s, a[0]) == Some(t1) && Step(t1, a[1]) == Some(t2) && Step(t2, a[2]) == Some(t3)
    ensures Run(s, a + rest) == Run(t3, rest)
  {
    hide Step, Run;
    RunOne(t2, a[2], t3, rest);
    RunOne(t1, a[1], t2, [a[2]] + rest);
    RunOne(s, a[0], t1, [a[1]] + ([a[2]] + rest));
    assert a + rest == [a[0]] + ([a[1]] + ([a[2]] + rest));
  }
}
