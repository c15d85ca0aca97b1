/**
 * CreatePolicyOnSyscalls: compiling "apply this policy to these syscalls" to BPF.
 *
 * The compiler prepends, from the last syscall to the first, one comparison per
 * syscall, and computes 8-bit and 32-bit jump distances from the size of what it
 * has built so far.
 */
module SyscallPolicy {
  import opened Words
  import opened Bpf

  // Constants of an x86-64 build
  const NR_PTRACE: u32 := 101
  const NR_BPF: u32 := 321
  const HOST_ARCH: u32 := 0xCAF1

  const RET_KILL: u32 := 0
  const RET_TRAP: u32 := 0x0003_0000
  const RET_ERRNO: u32 := 0x0005_0000
  const RET_USER_NOTIF: u32 := 0x7fc0_0000
  const RET_TRACE: u32 := 0x7ff0_0000
  const RET_ALLOW: u32 := 0x7fff_0000

  const LOAD_SYSCALL_NR: Instr := Stmt(LD_W_ABS, 0)
  const KILL: Instr := Stmt(RET_K, RET_KILL)
  const ALLOW: Instr := Stmt(RET_K, RET_ALLOW)
  const SANDBOX2_TRACE: Instr := Stmt(RET_K, RET_TRACE + HOST_ARCH)

  const MAX_SHORT_JUMP: nat := 255

  /** CheckBpfBounds, on the class and operation fields of the raw opcode. */
  predicate CheckBpfBounds(i: Instr, maxJump: nat) {
    if i.code % 8 == 5 then
      if i.code / 16 % 16 == 0 then i.k <= maxJump else i.jt <= maxJump && i.jf <= maxJump
    else true
  }

  predicate BoundsOk(policy: seq<Instr>) {
    forall i :: 0 <= i < |policy| ==> CheckBpfBounds(policy[i], |policy| - i - 1)
  }

  /** The evaluator knows every jump of the policy. */
  ghost predicate JumpsDecode(policy: seq<Instr>) {
    forall i :: 0 <= i < |policy| && policy[i].code % 8 == 5 ==>
                  Decode(policy[i].code).Ja? || Decode(policy[i].code).Jcc?
  }

  /** A jump opcode the evaluator does not know, whose distances would lead past `ahead` instructions. */
  ghost predicate UnknownLeaves(i: Instr, ahead: nat) {
    && i.code % 8 == 5 && Decode(i.code).Invalid?
    && (if i.code / 16 % 16 == 0 then i.k > ahead else i.jt > ahead || i.jf > ahead)
  }

  lemma CheckIff(i: Instr, ahead: nat)
    ensures CheckBpfBounds(i, ahead) <==> JumpFits(i, ahead) && !UnknownLeaves(i, ahead)
  {
  }

  /** The check passes exactly the policies whose jumps stay inside, as far as the evaluator knows them. */
  lemma BoundsIff(policy: seq<Instr>)
    ensures BoundsOk(policy) <==>
              && JumpsInside(policy)
              && forall i :: 0 <= i < |policy| ==> !UnknownLeaves(policy[i], |policy| - i - 1)
    ensures JumpsDecode(policy) ==> (BoundsOk(policy) <==> JumpsInside(policy))
  {
    hide CheckBpfBounds, JumpFits, Decode;
    forall i | 0 <= i < |policy|
      ensures CheckBpfBounds(policy[i], |policy| - i - 1) <==>
                JumpFits(policy[i], |policy| - i - 1) && !UnknownLeaves(policy[i], |policy| - i - 1)
    {
      CheckIff(policy[i], |policy| - i - 1);
    }
  }

  /** A TRACE return must carry the host architecture in its data bits. */
  predicate IsForeignTrace(i: Instr) {
    && i.code == RET_K
    && i.k / 0x1_0000 % 0x8000 == RET_TRACE / 0x1_0000
    && i.k % 0x1_0000 != HOST_ARCH
  }

  function Patch(i: Instr): Instr {
    if IsForeignTrace(i) then SANDBOX2_TRACE else i
  }

  function Patched(policy: seq<Instr>): (p: seq<Instr>)
    ensures |p| == |policy|
    ensures forall i :: 0 <= i < |policy| ==> p[i] == Patch(policy[i])
  {
    if policy == [] then [] else [Patch(policy[0])] + Patched(policy[1..])
  }

  predicate Forbidden(nr: u32) { nr == NR_BPF || nr == NR_PTRACE }

  // The compiler as a function -----------------------------------------------

  /** Code built so far, and its size when the front was last a way into the policy. */
  datatype Built = Built(out: seq<Instr>, loc: nat)

  function Test(nr: u32, jt: u8, jf: u8): Instr { Instr(JMP_JEQ_K, jt, jf, nr) }

  /**
   * The test for `nr`, prepended.  The last test also skips the policy, with a jump of
   * its own when the distance needs more than eight bits; any other test brings a helper
   * jump along when the way into the policy has become too far.
   */
  function Prepend(b: Built, nr: u32, last: bool, policyLen: nat): (b': Built)
    requires policyLen <= |b.out|
    requires b.loc <= |b.out| <= b.loc + MAX_SHORT_JUMP + 1
    requires last ==> |b.out| == b.loc < TWO32
    ensures b'.loc <= |b'.out| <= b'.loc + MAX_SHORT_JUMP + 1
    ensures |b.out| < |b'.out| <= |b.out| + 2
  {
    var n := |b.out|;
    if last then
      if n > MAX_SHORT_JUMP then Built([Test(nr, 1, 0), Stmt(JMP_JA, n)] + b.out, b.loc)
      else Built([Test(nr, 0, n)] + b.out, b.loc)
    else if n - b.loc > MAX_SHORT_JUMP then
      Built([Test(nr, 0, 1), Stmt(JMP_JA, (n - policyLen) % TWO32)] + b.out, n + 1)
    else
      Built([Test(nr, n - b.loc, 0)] + b.out, b.loc)
  }

  function Build(nums: seq<u32>, body: seq<Instr>, policyLen: nat): (b: Built)
    requires policyLen <= |body| < TWO32
    ensures b.loc <= |b.out| <= b.loc + MAX_SHORT_JUMP + 1
    ensures |body| + |nums| <= |b.out| <= |body| + 2 * |nums|
  {
    if nums == [] then Built(body, |body|)
    else Prepend(Build(nums[1..], body, policyLen), nums[0], |nums| == 1, policyLen)
  }

  /** The policy with its trailing reload: on leaving, A holds the syscall number again. */
  function Body(policy: seq<Instr>): (b: seq<Instr>)
    ensures |b| == |policy| + 1
  {
    Patched(policy) + [LOAD_SYSCALL_NR]
  }

  predicate Accepted(nums: seq<u32>, policy: seq<Instr>) {
    && nums != []
    && BoundsOk(policy)
    && |policy| + 1 < TWO32
    && forall i :: 0 <= i < |nums| ==> !Forbidden(nums[i])
  }

  function Compile(nums: seq<u32>, policy: seq<Instr>): seq<Instr>
    requires |policy| + 1 < TWO32
  {
    Build(nums, Body(policy), |policy|).out
  }

  /** The first loop: bounds are verified and foreign TRACE returns replaced, in place. */
  method VerifyAndPatch(policy: seq<Instr>) returns (out: seq<Instr>, ok: bool)
    ensures ok == BoundsOk(policy)
    ensures JumpsDecode(policy) ==> (ok <==> JumpsInside(policy))
    ensures ok ==> out == Patched(policy)
  {
    hide JumpsInside, JumpsDecode;
    BoundsIff(policy);
    out := policy;
    var i := 0;
    while i < |out|
      invariant 0 <= i <= |out| == |policy|
      invariant forall j :: 0 <= j < i ==> CheckBpfBounds(policy[j], |policy| - j - 1)
      invariant forall j :: 0 <= j < i ==> out[j] == Patch(policy[j])
      invariant forall j :: i <= j < |out| ==> out[j] == policy[j]
    {
      if !CheckBpfBounds(out[i], |out| - i - 1) {
        return out, false;
      }
      if IsForeignTrace(out[i]) {
        out := out[i := SANDBOX2_TRACE];
      }
      i := i + 1;
    }
    ok := true;
  }

  /** One turn of the second loop, with the distances cut to 8 and 32 bits as the source stores them. */
  method PrependTest(b: Built, nr: u32, last: bool, policyLen: nat) returns (b': Built)
    requires policyLen <= |b.out|
    requires b.loc <= |b.out| <= b.loc + MAX_SHORT_JUMP + 1
    requires last ==> |b.out| == b.loc < TWO32
    ensures b' == Prepend(b, nr, last, policyLen)
  {
    var out, doPolicyLoc := b.out, b.loc;
    var jf: u8 := 0;
    if last {
      if |out| > MAX_SHORT_JUMP {
        out := [Stmt(JMP_JA, |out| % TWO32)] + out;
      } else {
        jf := |out| % 0x100;
      }
    }
    if |out| - doPolicyLoc > MAX_SHORT_JUMP {
      out := [Stmt(JMP_JA, (|out| - policyLen) % TWO32)] + out;
      doPolicyLoc := |out|;
      jf := (jf + 1) % 0x100;
    }
    var jt: u8 := (|out| - doPolicyLoc) % 0x100;
    b' := Built([Instr(JMP_JEQ_K, jt, jf, nr)] + out, doPolicyLoc);
    assert b'.out == Prepend(b, nr, last, policyLen).out;
  }

  method CreatePolicyOnSyscalls(nums: seq<u32>, policy: seq<Instr>) returns (r: Option<seq<Instr>>)
    ensures r == if Accepted(nums, policy) then Some(Compile(nums, policy)) else None
    ensures r.Some? ==> JumpsInside(policy)
    // nothing else is refused than no syscalls, a jump that leaves, too long a policy and the two forbidden syscalls
    ensures JumpsDecode(policy) ==>
              (r.Some? <==>
                 && nums != [] && JumpsInside(policy) && |policy| < TWO32 - 1
                 && NR_BPF !in nums && NR_PTRACE !in nums)
  {
    hide JumpsInside, JumpsDecode, BoundsOk;
    BoundsIff(policy);
    if nums == [] {
      return None;
    }
    var out, ok := VerifyAndPatch(policy);
    if !ok {
      return None;
    }
    out := out + [LOAD_SYSCALL_NR];
    if |out| > TWO32 - 1 {
      return None;
    }
    var built := Built(out, |out|);
    ghost var body: seq<Instr> := out;
    var i := |nums|;
    while i > 0
      invariant 0 <= i <= |nums|
      invariant built == Build(nums[i..], body, |policy|)
      invariant forall j :: i <= j < |nums| ==> !Forbidden(nums[j])
    {
      if nums[i - 1] == NR_BPF || nums[i - 1] == NR_PTRACE {
        return None;
      }
      assert nums[i - 1..][1..] == nums[i..];
      built := PrependTest(built, nums[i - 1], i == |nums|, |policy|);
      i := i - 1;
    }
    assert nums[0..] == nums;
    return Some(built.out);
  }

  // Shape of the compiled code -----------------------------------------------

  lemma BoundsGiveJumpsInside(policy: seq<Instr>)
    requires BoundsOk(policy)
    ensures JumpsInside(Patched(policy)) && JumpsInside(Body(policy))
  {
    var p := Patched(policy);
    forall i | 0 <= i < |p| ensures JumpFits(p[i], |p| - i - 1) {
      assert CheckBpfBounds(policy[i], |policy| - i - 1);
    }
    JumpsInsideAppend(p, [LOAD_SYSCALL_NR]);
  }

  /** The answer asks for TRACE, whatever the architecture it names. */
  predicate AsksTrace(v: u32) { v / 0x1_0000 == 0x7ff0 || v / 0x1_0000 == 0xfff0 }

  /** What patching makes of an outcome: every constant TRACE answer names the host's architecture. */
  function Native(o: Outcome): Outcome {
    match o
    case Return(v, true) => if AsksTrace(v) && v % 0x1_0000 != HOST_ARCH then Return(0x7ff0_CAF1, true) else o
    case _ => o
  }

  lemma PatchStep(i: Instr, d: Data, r: Regs)
    ensures Step(Patch(i), d, r) ==
            match Step(i, d, r)
            case Answer(v, true) =>
              if AsksTrace(v) && v % 0x1_0000 != HOST_ARCH then Answer(0x7ff0_CAF1, true) else Answer(v, true)
            case e => e
  {
  }

  lemma PatchedDrop(policy: seq<Instr>, n: nat)
    requires n <= |policy|
    ensures Patched(policy)[n..] == Patched(policy[n..])
  {
  }

  lemma {:induction false} PatchMeaning(policy: seq<Instr>, d: Data, r: Regs)
    ensures Run(Patched(policy), d, r) == Native(Run(policy, d, r))
    decreases |policy|
  {
    hide Step, Patch, AsksTrace;
    if policy != [] {
      assert Patched(policy)[0] == Patch(policy[0]);
      PatchStep(policy[0], d, r);
      match Step(policy[0], d, r)
      case Continue(r', skip) =>
        if skip < |policy| {
          PatchedDrop(policy, 1 + skip);
          hide Patched;
          PatchMeaning(policy[1 + skip..], d, r');
        }
      case _ =>
    }
  }

  /** How many syscalls, counted from the end of the list, jump straight into the policy. */
  function DirectReach(bodyLen: nat): nat {
    if bodyLen > MAX_SHORT_JUMP then MAX_SHORT_JUMP else MAX_SHORT_JUMP + 1
  }

  lemma SuffixOfConcat(pre: seq<Instr>, code: seq<Instr>, n: nat)
    requires n <= |code|
    ensures (pre + code)[|pre + code| - n..] == code[|code| - n..]
  {
  }

  /** What Prepend puts in front. */
  function Front(b: Built, nr: u32, last: bool, policyLen: nat): (pre: seq<Instr>)
    requires policyLen <= |b.out|
    requires b.loc <= |b.out| <= b.loc + MAX_SHORT_JUMP + 1
    requires last ==> |b.out| == b.loc < TWO32
    ensures Prepend(b, nr, last, policyLen).out == pre + b.out
    ensures pre != [] && |pre| <= 2
  {
    var out := Prepend(b, nr, last, policyLen).out;
    out[..|out| - |b.out|]
  }

  ghost predicate EndsWith(code: seq<Instr>, body: seq<Instr>) {
    |body| <= |code| && code[|code| - |body|..] == body
  }

  lemma EndsWithConcat(pre: seq<Instr>, code: seq<Instr>, body: seq<Instr>)
    requires EndsWith(code, body)
    ensures EndsWith(pre + code, body)
  {
    SuffixOfConcat(pre, code, |body|);
  }

  lemma {:induction false} PrependJumpsInside(pre: seq<Instr>, code: seq<Instr>)
    requires JumpsInside(code)
    requires forall i :: 0 <= i < |pre| ==> JumpFits(pre[i], |pre| - i - 1 + |code|)
    ensures JumpsInside(pre + code)
  {
    var c := pre + code;
    forall i | 0 <= i < |c| ensures JumpFits(c[i], |c| - i - 1) {
      if i < |pre| {
        assert JumpFits(pre[i], |pre| - i - 1 + |code|);
      } else {
        assert JumpFits(code[i - |pre|], |code| - (i - |pre|) - 1);
      }
    }
  }

  /** No jump of the compiled code leaves it, for lists of any length. */
  lemma {:induction false} BuildJumpsInside(nums: seq<u32>, body: seq<Instr>, p: nat)
    requires |body| == p + 1 < TWO32 && JumpsInside(body)
    ensures JumpsInside(Build(nums, body, p).out)
  {
    if nums != [] {
      BuildJumpsInside(nums[1..], body, p);
      var b := Build(nums[1..], body, p);
      PrependJumpsInside(Front(b, nums[0], |nums| == 1, p), b.out);
    }
  }

  // Where control goes ---------------------------------------------------------

  datatype Landing = At(ahead: seq<Instr>, r: Regs) | Over

  /** Runs until at most `stop` instructions are ahead. */
  function RunTo(code: seq<Instr>, d: Data, r: Regs, stop: nat): Landing
    decreases |code|
  {
    if |code| <= stop then At(code, r)
    else
      match Step(code[0], d, r)
      case Continue(r', skip) => if skip >= |code| then Over else RunTo(code[1 + skip..], d, r', stop)
      case _ => Over
  }

  lemma {:induction false} RunFromLanding(code: seq<Instr>, d: Data, r: Regs, stop: nat)
    requires RunTo(code, d, r, stop).At?
    ensures var l := RunTo(code, d, r, stop); Run(code, d, r) == Run(l.ahead, d, l.r)
    decreases |code|
  {
    hide Step;
    if |code| > stop {
      match Step(code[0], d, r)
      case Continue(r', skip) => RunFromLanding(code[1 + skip..], d, r', stop);
    }
  }

  /** The first position of `nr`, counted from the end of the list. */
  function RankFromEnd(nums: seq<u32>, nr: u32): (k: nat)
    requires nr in nums
    ensures k < |nums| && nums[|nums| - 1 - k] == nr
  {
    if nums[0] == nr then |nums| - 1 else RankFromEnd(nums[1..], nr)
  }

  /** What is ahead when the dispatch code is done. */
  function Target(nums: seq<u32>, nr: u32, body: seq<Instr>): seq<Instr>
    requires body != []
  {
    if nr !in nums then []
    else if RankFromEnd(nums, nr) < DirectReach(|body|) then body
    else body[1..]
  }

  /** The code from where tests jump to. */
  function Entry(b: Built): seq<Instr>
    requires b.loc <= |b.out|
  {
    b.out[|b.out| - b.loc..]
  }

  /** From the entry that tests jump to, control reaches the policy or misses its first instruction. */
  ghost predicate WayIn(b: Built, body: seq<Instr>, d: Data, r: Regs)
    requires b.loc <= |b.out| && body != []
  {
    RunTo(Entry(b), d, r, |body|)
    == At(if b.loc == |body| then body else body[1..], r)
  }

  /** What the loop keeps after `n` syscalls. */
  ghost predicate Good(b: Built, n: nat, body: seq<Instr>, d: Data, r: Regs) {
    && body != []
    && |body| <= b.loc <= |b.out| <= b.loc + MAX_SHORT_JUMP + 1
    && EndsWith(b.out, body)
    && (n == 0 ==> |b.out| == b.loc < TWO32)
    && (b.loc == |body| <==> n <= DirectReach(|body|))
    && (b.loc == |body| ==> |b.out| - b.loc == n + if n > 0 && |body| > MAX_SHORT_JUMP then 1 else 0)
    && (b.loc == |body| || |b.out| - |body| < TWO32 ==> WayIn(b, body, d, r))
  }

  lemma BodyGood(body: seq<Instr>, d: Data, r: Regs)
    requires 0 < |body| < TWO32
    ensures Good(Built(body, |body|), 0, body, d, r)
  {
    assert body[0..] == body;
  }

  lemma PrependGood(b: Built, n: nat, nr: u32, body: seq<Instr>, d: Data, r: Regs)
    requires Good(b, n, body, d, r)
    ensures Good(Prepend(b, nr, n == 0, |body| - 1), n + 1, body, d, r)
  {
    hide WayIn;
    EndsWithConcat(Front(b, nr, n == 0, |body| - 1), b.out, body);
    var b' := Prepend(b, nr, n == 0, |body| - 1);
    if b'.loc == |body| || |b'.out| - |body| < TWO32 {
      PrependWayIn(b, nr, n == 0, body, d, r);
    }
  }

  lemma {:induction false} BuildGood(nums: seq<u32>, body: seq<Instr>, p: nat, d: Data, r: Regs)
    requires |body| == p + 1 < TWO32
    ensures Good(Build(nums, body, p), |nums|, body, d, r)
  {
    hide Good, Prepend;
    if nums == [] {
      BodyGood(body, d, r);
    } else {
      BuildGood(nums[1..], body, p, d, r);
      PrependGood(Build(nums[1..], body, p), |nums| - 1, nums[0], body, d, r);
    }
  }

  /** Prepending keeps the way in, or makes a helper jump the way in. */
  lemma PrependWayIn(t: Built, nr: u32, last: bool, body: seq<Instr>, d: Data, r: Regs)
    requires 0 < |body| <= t.loc <= |t.out| <= t.loc + MAX_SHORT_JUMP + 1
    requires last ==> |t.out| == t.loc < TWO32
    requires var b := Prepend(t, nr, last, |body| - 1); b.loc == |body| || |b.out| - |body| < TWO32
    requires EndsWith(t.out, body)
    requires WayIn(t, body, d, r)
    ensures WayIn(Prepend(t, nr, last, |body| - 1), body, d, r)
  {
    hide RunTo, Prepend, EndsWith, Stmt, Entry;
    var b := Prepend(t, nr, last, |body| - 1);
    PrependEntry(t, nr, last, |body| - 1);
    if b.loc != t.loc {
      assert |t.out| - (|body| - 1) == |t.out| - |body| + 1;
      HelperJump(t.out, body, d, r);
    }
  }

  lemma PrependEntry(t: Built, nr: u32, last: bool, p: nat)
    requires p < t.loc <= |t.out| <= t.loc + MAX_SHORT_JUMP + 1
    requires last ==> |t.out| == t.loc < TWO32
    requires var b := Prepend(t, nr, last, p); b.loc == p + 1 || |b.out| - (p + 1) < TWO32
    ensures var b := Prepend(t, nr, last, p);
            && t.loc <= b.loc
            && (b.loc != t.loc ==> |t.out| - p < TWO32)
            && Entry(b) ==
               if b.loc == t.loc then Entry(t)
               else [Stmt(JMP_JA, |t.out| - p)] + t.out
  {
    var b := Prepend(t, nr, last, p);
    if b.loc == t.loc {
      hide Prepend;
      SuffixOfConcat(Front(t, nr, last, p), t.out, t.loc);
    } else {
      HelperEntry(t, nr, p);
    }
  }

  lemma HelperEntry(t: Built, nr: u32, p: nat)
    requires p < t.loc && |t.out| == t.loc + MAX_SHORT_JUMP + 1 && |t.out| - p < TWO32
    ensures var b, n := Prepend(t, nr, false, p), |t.out|;
            b.loc == n + 1 && b.out[1..] == [Stmt(JMP_JA, n - p)] + t.out
  {
    var b, n := Prepend(t, nr, false, p), |t.out|;
    assert (n - p) % TWO32 == n - p;
    assert b.out == [Test(nr, 0, 1), Stmt(JMP_JA, n - p)] + t.out;
  }

  /** The helper jump, as it is computed, goes past the first instruction of the body. */
  lemma HelperJump(code: seq<Instr>, body: seq<Instr>, d: Data, r: Regs)
    requires EndsWith(code, body) && body != [] && |code| - |body| + 1 < TWO32
    ensures RunTo([Stmt(JMP_JA, |code| - |body| + 1)] + code, d, r, |body|) == At(body[1..], r)
  {
    var k := |code| - |body| + 1;
    var c := [Stmt(JMP_JA, k)] + code;
    assert Step(c[0], d, r) == Continue(r, k);
    assert c[1 + k..] == code[|code| - |body|..][1..];
  }

  lemma JumpToEnd(code: seq<Instr>, d: Data, r: Regs, stop: nat)
    requires stop <= |code| < TWO32
    ensures RunTo([Stmt(JMP_JA, |code|)] + code, d, r, stop) == At([], r)
  {
    var c := [Stmt(JMP_JA, |code|)] + code;
    assert Step(c[0], d, r) == Continue(r, |code|);
    assert c[1 + |code|..] == [];
  }

  lemma TestRuns(code: seq<Instr>, d: Data, r: Regs, stop: nat)
    requires |code| > stop && code[0].code == JMP_JEQ_K
    ensures var skip := if r.a == code[0].k then code[0].jt else code[0].jf;
            RunTo(code, d, r, stop) == if skip >= |code| then Over else RunTo(code[1 + skip..], d, r, stop)
  {
    assert Step(code[0], d, r) == Continue(r, if r.a == code[0].k then code[0].jt else code[0].jf);
  }

  lemma EmptyLands(d: Data, r: Regs, stop: nat)
    ensures RunTo([], d, r, stop) == At([], r)
  {
  }

  /** One test: a match jumps to the way in, a mismatch goes on to the next test or leaves. */
  lemma {:induction false} OneTest(b: Built, nr: u32, last: bool, p: nat, d: Data, r: Regs)
    requires p < |b.out|
    requires p + 1 <= b.loc <= |b.out| <= b.loc + MAX_SHORT_JUMP + 1
    requires last ==> |b.out| == b.loc == p + 1 < TWO32
    ensures var b' := Prepend(b, nr, last, p);
            RunTo(b'.out, d, r, p + 1) ==
            if r.a == nr then RunTo(Entry(b'), d, r, p + 1)
            else if last then At([], r)
            else RunTo(b.out, d, r, p + 1)
  {
    hide RunTo;
    var b' := Prepend(b, nr, last, p);
    var i := b'.out[0];
    TestRuns(b'.out, d, r, p + 1);
    EmptyLands(d, r, p + 1);
    if r.a == nr {
      assert 1 + i.jt == |b'.out| - b'.loc;
    } else if last {
      if |b.out| > MAX_SHORT_JUMP {
        assert b'.out[1..] == [Stmt(JMP_JA, |b.out|)] + b.out;
        JumpToEnd(b.out, d, r, p + 1);
      } else {
        assert b'.out[1 + i.jf..] == [];
      }
    } else {
      assert b'.out[1 + i.jf..] == b.out;
    }
  }

  /** The syscall is close enough to the end for a short jump, or the helper jumps fit in 32 bits. */
  ghost predicate InReach(nums: seq<u32>, nr: u32, body: seq<Instr>, p: nat)
    requires |body| == p + 1 < TWO32
  {
    nr in nums ==> RankFromEnd(nums, nr) < DirectReach(|body|) || |Build(nums, body, p).out| - |body| < TWO32
  }

  /** Dispatch, for lists of any length: exactly where control arrives, with every register as it was. */
  lemma {:induction false} Dispatch(nums: seq<u32>, body: seq<Instr>, p: nat, d: Data, r: Regs)
    requires |body| == p + 1 < TWO32 && nums != []
    requires InReach(nums, r.a, body, p)
    ensures RunTo(Build(nums, body, p).out, d, r, |body|) == At(Target(nums, r.a, body), r)
  {
    hide RunTo, EndsWith;
    BuildGood(nums[1..], body, p, d, r);
    OneTest(Build(nums[1..], body, p), nums[0], |nums| == 1, p, d, r);
    if r.a == nums[0] {
      BuildGood(nums, body, p, d, r);
    } else if |nums| > 1 {
      Dispatch(nums[1..], body, p, d, r);
      assert r.a in nums <==> r.a in nums[1..];
    }
  }

  /** Control reaches the whole policy if and only if the syscall is listed close enough to the end. */
  lemma DispatchReachesPolicy(nums: seq<u32>, policy: seq<Instr>, d: Data, r: Regs)
    requires Accepted(nums, policy) && InReach(nums, r.a, Body(policy), |policy|)
    ensures RunTo(Compile(nums, policy), d, r, |policy| + 1) == At(Body(policy), r)
            <==> r.a in nums && RankFromEnd(nums, r.a) < DirectReach(|policy| + 1)
  {
    hide RunTo, Build, InReach, RankFromEnd;
    Dispatch(nums, Body(policy), |policy|, d, r);
  }

  // Meaning of the compiled code ------------------------------------------------

  /** What is run for a listed syscall: the policy, without its first instruction when the list is too long. */
  function Applied(nums: seq<u32>, policy: seq<Instr>, nr: u32): seq<Instr>
    requires nr in nums
  {
    if RankFromEnd(nums, nr) < DirectReach(|policy| + 1) || policy == [] then Patched(policy)
    else Patched(policy)[1..]
  }

  /** Reloading A on the way out. */
  function Reloading(o: Outcome, d: Data): Outcome {
    match o
    case Exit(r) => Exit(r.(a := Nr(d)))
    case _ => o
  }

  function PolicyMeaning(nums: seq<u32>, policy: seq<Instr>, d: Data, r: Regs): Outcome {
    if r.a in nums then Reloading(Run(Applied(nums, policy, r.a), d, r), d) else Exit(r)
  }

  lemma BodyMeaning(policy: seq<Instr>, n: nat, d: Data, r: Regs)
    requires BoundsOk(policy) && n <= |policy|
    ensures Run(Body(policy)[n..], d, r) == Reloading(Run(Patched(policy)[n..], d, r), d)
  {
    BoundsGiveJumpsInside(policy);
    JumpsInsideDrop(Patched(policy), n);
    assert Body(policy)[n..] == Patched(policy)[n..] + [LOAD_SYSCALL_NR];
    RunAppend(Patched(policy)[n..], [LOAD_SYSCALL_NR], d, r);
    forall r': Regs ensures Run([LOAD_SYSCALL_NR], d, r') == Exit(r'.(a := Nr(d))) {
      assert Step(LOAD_SYSCALL_NR, d, r') == Continue(r'.(a := Nr(d)), 0);
      assert [LOAD_SYSCALL_NR][1..] == [];
    }
  }

  /** The compiled code means: apply the policy to the listed syscalls, leave everything else alone. */
  lemma CompileMeaning(nums: seq<u32>, policy: seq<Instr>, d: Data, r: Regs)
    requires Accepted(nums, policy)
    requires r.a == Nr(d)
    requires InReach(nums, r.a, Body(policy), |policy|)
    ensures Run(Compile(nums, policy), d, r) == PolicyMeaning(nums, policy, d, r)
  {
    hide RunTo, Step;
    Dispatch(nums, Body(policy), |policy|, d, r);
    RunFromLanding(Compile(nums, policy), d, r, |policy| + 1);
    if r.a in nums {
      BodyMeaning(policy, 0, d, r);
      assert Body(policy)[0..] == Body(policy) && Patched(policy)[0..] == Patched(policy);
      if policy != [] {
        BodyMeaning(policy, 1, d, r);
      }
    }
  }

  /** The compiled code can be followed by anything. */
  lemma CompileJumpsInside(nums: seq<u32>, policy: seq<Instr>)
    requires Accepted(nums, policy)
    ensures JumpsInside(Compile(nums, policy))
  {
    BoundsGiveJumpsInside(policy);
    BuildJumpsInside(nums, Body(policy), |policy|);
  }

  /** Short lists: every listed syscall gets the whole policy. */
  lemma ShortListsAreExact(nums: seq<u32>, policy: seq<Instr>, d: Data, r: Regs)
    requires Accepted(nums, policy) && |nums| <= MAX_SHORT_JUMP
    requires r.a == Nr(d)
    ensures Run(Compile(nums, policy), d, r) ==
            if r.a in nums then Reloading(Run(Patched(policy), d, r), d) else Exit(r)
  {
    CompileMeaning(nums, policy, d, r);
  }

  /**
   * Longer lists miss: under the one-instruction policy ALLOW, the first syscall of any
   * list of more than 256 is not allowed but passes through the block unanswered.
   */
  lemma LongListMisses(nums: seq<u32>, d: Data, r: Regs)
    requires Accepted(nums, [ALLOW]) && MAX_SHORT_JUMP + 1 < |nums| < TWO32 / 2
    requires r.a == Nr(d) == nums[0]
    ensures Run(Patched([ALLOW]), d, r) == Return(RET_ALLOW, true)
    ensures Run(Compile(nums, [ALLOW]), d, r) == Exit(r)
  {
    hide Accepted, Build;
    var policy := [ALLOW];
    assert Patched(policy) == policy && policy[1..] == [];
    CompileMeaning(nums, policy, d, r);
    assert Applied(nums, policy, nums[0]) == [];
  }

  /** The syscalls base, base + 1, ..., base + n - 1. */
  function Consecutive(base: u32, n: nat): (nums: seq<u32>)
    requires base + n < TWO32
    ensures |nums| == n
    ensures forall i :: 0 <= i < n ==> nums[i] == base + i
  {
    if n == 0 then [] else Consecutive(base, n - 1) + [base + n - 1]
  }

  /** Such a list: the 257 syscalls from 1000 on. */
  lemma LongListExample(n: nat)
    requires n == 257
    ensures var nums := Consecutive(1000, n);
            Accepted(nums, [ALLOW]) && nums[0] == 1000 && MAX_SHORT_JUMP + 1 < |nums| < TWO32 / 2
  {
    var policy := [ALLOW];
    assert CheckBpfBounds(policy[0], 0);
  }
}
