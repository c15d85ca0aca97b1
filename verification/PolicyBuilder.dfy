/**
 * PolicyBuilder: a sequence of builder calls, the code it accumulates, and the
 * ordered list of rules that this code means.
 */
module PolicyBuilder {
  import opened Words
  import opened Bpf
  import opened SyscallPolicy
  import opened DefaultPolicy

  const MAX_USER_POLICY_LENGTH: nat := 30000

  function Errno(error: u32): u32 { RET_ERRNO + error % 0x1_0000 }

  predicate CheckMapExec(nr: u32) { nr == NR_MPROTECT || nr == NR_PKEY_MPROTECT || nr == NR_MMAP }

  // Rules ----------------------------------------------------------------------------

  datatype Rule =
    | Simple(nr: u32, action: u32)
    | Custom(nums: seq<u32>, policy: seq<Instr>)
    | Always(action: u32)

  /** What a rule answers to the syscall in A; Exit passes the syscall on. */
  function RuleMeaning(rule: Rule, d: Data, r: Regs): Outcome {
    match rule
    case Simple(nr, action) => if r.a == nr then Return(action, true) else Exit(r)
    case Custom(nums, policy) => PolicyMeaning(nums, policy, d, r)
    case Always(action) => Return(action, true)
  }

  /** The first rule that answers wins. */
  function RulesMeaning(rules: seq<Rule>, d: Data, r: Regs): Outcome {
    if rules == [] then Exit(r)
    else
      match RuleMeaning(rules[0], d, r)
      case Exit(r') => RulesMeaning(rules[1..], d, r')
      case other => other
  }

  ghost predicate WellFormed(rule: Rule) {
    rule.Custom? ==> Accepted(rule.nums, rule.policy) && 2 * |rule.nums| < TWO32
  }

  function RuleCode(rule: Rule): seq<Instr> {
    match rule
    case Simple(nr, action) => [Instr(JMP_JEQ_K, 0, 1, nr), Ret(action)]
    case Custom(nums, policy) => if |policy| + 1 < TWO32 then Compile(nums, policy) else []
    case Always(action) => [Ret(action)]
  }

  function RulesCode(rules: seq<Rule>): seq<Instr> {
    if rules == [] then [] else RuleCode(rules[0]) + RulesCode(rules[1..])
  }

  lemma RuleCodeMeaning(rule: Rule, d: Data, r: Regs)
    requires WellFormed(rule) && r.a == Nr(d)
    ensures JumpsInside(RuleCode(rule))
    ensures Run(RuleCode(rule), d, r) == RuleMeaning(rule, d, r)
    ensures RuleMeaning(rule, d, r).Exit? ==> RuleMeaning(rule, d, r).r.a == Nr(d)
  {
    match rule
    case Simple(nr, action) =>
      var code := RuleCode(rule);
      assert Step(code[0], d, r) == Continue(r, if r.a == nr then 0 else 1);
      assert code[1..] == [Ret(action)] && code[2..] == [];
      assert JumpFits(code[0], 1) && JumpFits(code[1], 0);
    case Custom(nums, policy) =>
      CompileMeaning(nums, policy, d, r);
      CompileJumpsInside(nums, policy);
    case Always(action) =>
  }

  /** The accumulated code means the list of rules, in order. */
  lemma {:induction false} RulesCodeMeaning(rules: seq<Rule>, d: Data, r: Regs)
    requires forall rule <- rules :: WellFormed(rule)
    requires r.a == Nr(d)
    ensures JumpsInside(RulesCode(rules))
    ensures Run(RulesCode(rules), d, r) == RulesMeaning(rules, d, r)
  {
    hide Run, JumpsInside, RuleMeaning, RuleCode;
    if rules == [] {
      NoCode(d, r);
    } else {
      RuleCodeMeaning(rules[0], d, r);
      RunAppend(RuleCode(rules[0]), RulesCode(rules[1..]), d, r);
      var next := match RuleMeaning(rules[0], d, r) case Exit(r') => r' case _ => r;
      RulesCodeMeaning(rules[1..], d, next);
      JumpsInsideAppend(RuleCode(rules[0]), RulesCode(rules[1..]));
    }
  }

  lemma NoCode(d: Data, r: Regs)
    ensures JumpsInside([]) && Run([], d, r) == Exit(r)
  {
  }

  lemma {:induction false} RulesCodeAppend(rules: seq<Rule>, more: seq<Rule>)
    ensures RulesCode(rules + more) == RulesCode(rules) + RulesCode(more)
  {
    if rules == [] {
      assert rules + more == more;
    } else {
      assert (rules + more)[1..] == rules[1..] + more;
      RulesCodeAppend(rules[1..], more);
    }
  }

  // Builder calls ------------------------------------------------------------------------

  datatype Call =
    | AllowSyscall(nr: u32)
    | BlockSyscallWithErrno(nr: u32, error: u32)
    | AddPolicyOnSyscalls(nums: seq<u32>, policy: seq<Instr>)
    | OverridableBlockSyscallWithErrno(nr: u32, error: u32)
    | OverridableAddPolicyOnSyscalls(nums: seq<u32>, policy: seq<Instr>)
    | DefaultActionAllowAll
    | DefaultActionTraceAll
    | AllowMapExec
    | AllowSafeBpf
    | TrapPtrace

  datatype State = State(
    ok: bool,
    userPolicy: seq<Instr>,
    overridablePolicy: seq<Instr>,
    defaultAction: Option<Instr>,
    handled: set<u32>,
    allowed: set<u32>,
    blocked: set<u32>,
    handlesBpf: bool,
    handlesPtrace: bool,
    mapExec: bool,
    safeBpf: bool)

  /** Executable mappings are on from the start. */
  const FRESH: State := State(true, [], [], None, {}, {}, {}, false, false, true, false)

  function Apply(s: State, c: Call): State {
    match c
    case AllowSyscall(nr) =>
      if nr in s.handled then s
      else if nr in s.allowed then s.(handled := s.handled + {nr})
      else
        var s' := s.(handled := s.handled + {nr}, allowed := s.allowed + {nr});
        if !s.mapExec && CheckMapExec(nr) then s'.(ok := false)
        else s'.(userPolicy := s.userPolicy + RuleCode(Simple(nr, RET_ALLOW)))
    case BlockSyscallWithErrno(nr, error) =>
      if nr in s.handled then s
      else if nr in s.blocked then s.(handled := s.handled + {nr})
      else s.(handled := s.handled + {nr},
              blocked := s.blocked + {nr},
              userPolicy := s.userPolicy + RuleCode(Simple(nr, Errno(error))),
              handlesBpf := s.handlesBpf || nr == NR_BPF,
              handlesPtrace := s.handlesPtrace || nr == NR_PTRACE)
    case AddPolicyOnSyscalls(nums, policy) =>
      if Accepted(nums, policy) then s.(userPolicy := s.userPolicy + Compile(nums, policy)) else s.(ok := false)
    case OverridableBlockSyscallWithErrno(nr, error) =>
      s.(overridablePolicy := s.overridablePolicy + RuleCode(Simple(nr, Errno(error))))
    case OverridableAddPolicyOnSyscalls(nums, policy) =>
      if Accepted(nums, policy) then s.(overridablePolicy := s.overridablePolicy + Compile(nums, policy))
      else s.(ok := false)
    case DefaultActionAllowAll => s.(defaultAction := Some(ALLOW))
    case DefaultActionTraceAll => s.(defaultAction := Some(SANDBOX2_TRACE))
    case AllowMapExec => s.(mapExec := true)
    case AllowSafeBpf => s.(safeBpf := true)
    case TrapPtrace =>
      if NR_PTRACE in s.handled then s
      else s.(handled := s.handled + {NR_PTRACE},
              userPolicy := s.userPolicy + RuleCode(Simple(NR_PTRACE, RET_TRAP)),
              handlesPtrace := true)
  }

  function ApplyAll(calls: seq<Call>): State {
    if calls == [] then FRESH else Apply(ApplyAll(calls[..|calls| - 1]), calls[|calls| - 1])
  }

  predicate CanBuild(s: State) { s.ok && |s.userPolicy| <= MAX_USER_POLICY_LENGTH }

  /** The user policy that TryBuild hands to the Policy object. */
  function BuiltPolicy(s: State): seq<Instr> {
    s.userPolicy + (if s.defaultAction.Some? then [s.defaultAction.value] else []) + s.overridablePolicy
  }

  // The rules that a sequence of calls stands for --------------------------------------------

  function Mentions(c: Call): set<u32> {
    if c.AllowSyscall? || c.BlockSyscallWithErrno? then {c.nr}
    else if c.TrapPtrace? then {NR_PTRACE}
    else {}
  }

  /** The syscalls for which an allow, block or trap call was made. */
  function Mentioned(calls: seq<Call>): set<u32> {
    if calls == [] then {}
    else
      Mentioned(calls[..|calls| - 1]) + Mentions(calls[|calls| - 1])
  }

  /** The rule that a call adds to the user rules: of the allow, block and trap calls for a syscall the first counts. */
  function UserRule(before: seq<Call>, c: Call): seq<Rule> {
    match c
    case AllowSyscall(nr) => if nr in Mentioned(before) then [] else [Simple(nr, RET_ALLOW)]
    case BlockSyscallWithErrno(nr, error) => if nr in Mentioned(before) then [] else [Simple(nr, Errno(error))]
    case AddPolicyOnSyscalls(nums, policy) => [Custom(nums, policy)]
    case TrapPtrace => if NR_PTRACE in Mentioned(before) then [] else [Simple(NR_PTRACE, RET_TRAP)]
    case _ => []
  }

  function UserRules(calls: seq<Call>): seq<Rule> {
    if calls == [] then []
    else
      var before := calls[..|calls| - 1];
      UserRules(before) + UserRule(before, calls[|calls| - 1])
  }

  function OverridableRule(c: Call): seq<Rule> {
    match c
    case OverridableBlockSyscallWithErrno(nr, error) => [Simple(nr, Errno(error))]
    case OverridableAddPolicyOnSyscalls(nums, policy) => [Custom(nums, policy)]
    case _ => []
  }

  function OverridableRules(calls: seq<Call>): seq<Rule> {
    if calls == [] then []
    else OverridableRules(calls[..|calls| - 1]) + OverridableRule(calls[|calls| - 1])
  }

  /** The last default action wins. */
  function DefaultRule(calls: seq<Call>): seq<Rule> {
    if calls == [] then []
    else match calls[|calls| - 1]
      case DefaultActionAllowAll => [Always(RET_ALLOW)]
      case DefaultActionTraceAll => [Always(RET_TRACE + HOST_ARCH)]
      case _ => DefaultRule(calls[..|calls| - 1])
  }

  function AllRules(calls: seq<Call>): seq<Rule> {
    UserRules(calls) + DefaultRule(calls) + OverridableRules(calls)
  }

  ghost predicate AllAccepted(rules: seq<Rule>) {
    forall rule :: rule in rules && rule.Custom? ==> Accepted(rule.nums, rule.policy)
  }

  ghost predicate CodeOf(code: seq<Instr>, rules: seq<Rule>) {
    code == RulesCode(rules) && AllAccepted(rules)
  }

  /** The state after any sequence of calls: its code is the code of the rules of that sequence. */
  ghost predicate Tracks(s: State, calls: seq<Call>) {
    && s.handled == Mentioned(calls)
    && s.allowed <= s.handled && s.blocked <= s.handled
    && CodeOf(DefaultCodeOf(s), DefaultRule(calls))
    && (s.ok ==> CodeOf(s.userPolicy, UserRules(calls)))
    && (s.ok ==> CodeOf(s.overridablePolicy, OverridableRules(calls)))
  }

  lemma CodeOfAppend(code: seq<Instr>, rules: seq<Rule>, rule: Rule)
    requires CodeOf(code, rules)
    requires rule.Custom? ==> Accepted(rule.nums, rule.policy)
    ensures CodeOf(code + RuleCode(rule), rules + [rule])
    ensures rule.Custom? ==> RuleCode(rule) == Compile(rule.nums, rule.policy)
  {
    hide Accepted;
    RulesCodeAppend(rules, [rule]);
    assert RulesCode([rule]) == RuleCode(rule);
    assert rule.Custom? ==> |rule.policy| + 1 < TWO32 by { AcceptedShort(rule); }
  }

  lemma AcceptedShort(rule: Rule)
    requires rule.Custom? ==> Accepted(rule.nums, rule.policy)
    ensures rule.Custom? ==> |rule.policy| + 1 < TWO32
  {
  }

  lemma AlwaysCode(action: u32)
    ensures CodeOf([Ret(action)], [Always(action)])
  {
  }

  lemma StepUser(s: State, before: seq<Call>, c: Call)
    requires Tracks(s, before)
    requires Apply(s, c).ok
    ensures CodeOf(Apply(s, c).userPolicy, UserRules(before) + UserRule(before, c))
  {
    hide RuleCode, CodeOf, Accepted;
    var rules := UserRules(before);
    var added := UserRule(before, c);
    if added == [] {
      assert rules + added == rules;
    } else {
      CodeOfAppend(s.userPolicy, rules, added[0]);
    }
  }

  lemma StepOverridable(s: State, before: seq<Call>, c: Call)
    requires Tracks(s, before)
    requires Apply(s, c).ok
    ensures CodeOf(Apply(s, c).overridablePolicy, OverridableRules(before) + OverridableRule(c))
  {
    hide RuleCode, CodeOf, Accepted;
    var rules := OverridableRules(before);
    var added := OverridableRule(c);
    if added == [] {
      assert rules + added == rules;
    } else {
      CodeOfAppend(s.overridablePolicy, rules, added[0]);
    }
  }

  lemma StepSets(s: State, before: seq<Call>, c: Call)
    requires s.handled == Mentioned(before) && s.allowed <= s.handled && s.blocked <= s.handled
    ensures var s' := Apply(s, c);
            s'.handled == Mentioned(before + [c]) && s'.allowed <= s'.handled && s'.blocked <= s'.handled
  {
    hide Apply, Mentioned, Mentions;
    MentionedStep(before, c);
    SetsByCall(s, c);
  }

  lemma SetsByCall(s: State, c: Call)
    ensures var s' := Apply(s, c);
            && s'.handled == s.handled + Mentions(c)
            && s'.allowed <= s.allowed + Mentions(c) && s'.blocked <= s.blocked + Mentions(c)
  {
    if Mentions(c) == {} {
      OtherCallsKeepSets(s, c);
    } else if c.AllowSyscall? {
      hide RuleCode, CheckMapExec;
    } else if c.BlockSyscallWithErrno? {
      hide RuleCode, Errno;
    } else {
      hide RuleCode;
    }
  }

  lemma OtherCallsKeepSets(s: State, c: Call)
    requires Mentions(c) == {}
    ensures var s' := Apply(s, c); s'.handled == s.handled && s'.allowed == s.allowed && s'.blocked == s.blocked
  {
    hide RuleCode, Accepted, Compile, Errno;
  }

  function DefaultCodeOf(s: State): seq<Instr> {
    if s.defaultAction.Some? then [s.defaultAction.value] else []
  }

  lemma StepDefault(s: State, before: seq<Call>, c: Call)
    requires CodeOf(DefaultCodeOf(s), DefaultRule(before))
    ensures CodeOf(DefaultCodeOf(Apply(s, c)), DefaultRule(before + [c]))
  {
    hide RuleCode, CodeOf, Accepted, DefaultRule, Compile;
    DefaultRuleStep(before, c);
    AlwaysCode(RET_ALLOW);
    AlwaysCode(RET_TRACE + HOST_ARCH);
  }

  lemma StepTracks(s: State, before: seq<Call>, c: Call)
    requires Tracks(s, before)
    ensures Tracks(Apply(s, c), before + [c])
  {
    hide CodeOf, Apply, Mentioned, DefaultRule, UserRules, OverridableRules, UserRule, OverridableRule;
    StepSets(s, before, c);
    StepDefault(s, before, c);
    if Apply(s, c).ok {
      StepUser(s, before, c);
      StepOverridable(s, before, c);
      RulesStep(before, c);
    }
  }

  lemma RulesStep(before: seq<Call>, c: Call)
    ensures UserRules(before + [c]) == UserRules(before) + UserRule(before, c)
    ensures OverridableRules(before + [c]) == OverridableRules(before) + OverridableRule(c)
  {
    assert (before + [c])[..|before|] == before;
  }

  lemma MentionedStep(before: seq<Call>, c: Call)
    ensures Mentioned(before + [c]) == Mentioned(before) + Mentions(c)
  {
    assert (before + [c])[..|before|] == before;
  }

  lemma DefaultRuleStep(before: seq<Call>, c: Call)
    ensures DefaultRule(before + [c]) ==
            if c.DefaultActionAllowAll? then [Always(RET_ALLOW)]
            else if c.DefaultActionTraceAll? then [Always(RET_TRACE + HOST_ARCH)]
            else DefaultRule(before)
  {
    assert (before + [c])[..|before|] == before;
  }

  lemma {:induction false} BuilderTracksRules(calls: seq<Call>)
    ensures Tracks(ApplyAll(calls), calls)
  {
    hide Apply;
    if calls != [] {
      var before := calls[..|calls| - 1];
      BuilderTracksRules(before);
      StepTracks(ApplyAll(before), before, calls[|calls| - 1]);
      assert before + [calls[|calls| - 1]] == calls;
    }
  }

  // Meaning of what is built ---------------------------------------------------------------

  lemma {:induction false} RuleCodeFits(rules: seq<Rule>, rule: Rule)
    requires rule in rules
    ensures |RuleCode(rule)| <= |RulesCode(rules)|
  {
    if rule != rules[0] {
      RuleCodeFits(rules[1..], rule);
    }
  }

  /** Overridable lists are not covered by the length limit; this is what keeps their jumps in 32 bits. */
  ghost predicate Compact(calls: seq<Call>) {
    forall c :: c in calls && c.OverridableAddPolicyOnSyscalls? ==> 2 * |c.nums| < TWO32
  }

  lemma {:induction false} OverridableCompact(calls: seq<Call>, rule: Rule)
    requires Compact(calls) && rule in OverridableRules(calls) && rule.Custom?
    ensures 2 * |rule.nums| < TWO32
  {
    var before := calls[..|calls| - 1];
    if rule in OverridableRules(before) {
      OverridableCompact(before, rule);
    }
  }

  lemma {:induction false} DefaultRuleShape(calls: seq<Call>)
    ensures DefaultRule(calls) == [] || (|DefaultRule(calls)| == 1 && DefaultRule(calls)[0].Always?)
  {
    if calls != [] {
      DefaultRuleShape(calls[..|calls| - 1]);
    }
  }

  lemma AllRulesWellFormed(calls: seq<Call>)
    requires CanBuild(ApplyAll(calls)) && Compact(calls)
    ensures forall rule <- AllRules(calls) :: WellFormed(rule)
  {
    BuilderTracksRules(calls);
    DefaultRuleShape(calls);
    forall rule | rule in AllRules(calls) ensures WellFormed(rule) {
      if rule.Custom? {
        if rule in UserRules(calls) {
          RuleCodeFits(UserRules(calls), rule);
          assert |Compile(rule.nums, rule.policy)| >= |rule.policy| + 1 + |rule.nums|;
        } else {
          OverridableCompact(calls, rule);
        }
      }
    }
  }

  datatype Environment = Environment(userNotif: bool, preExecve: bool, continueSupported: bool)

  function OptionsOf(s: State, e: Environment): Options {
    Options(e.userNotif, e.preExecve, e.continueSupported, s.handlesPtrace, s.handlesBpf, s.safeBpf, s.mapExec)
  }

  /** The program that is installed. */
  function FinalProgram(s: State, e: Environment): seq<Instr> {
    GetPolicy(OptionsOf(s, e), BuiltPolicy(s))
  }

  lemma BuiltPolicyIsRules(calls: seq<Call>)
    requires ApplyAll(calls).ok
    ensures BuiltPolicy(ApplyAll(calls)) == RulesCode(AllRules(calls))
  {
    BuilderTracksRules(calls);
    RulesCodeAppend(UserRules(calls) + DefaultRule(calls), OverridableRules(calls));
    RulesCodeAppend(UserRules(calls), DefaultRule(calls));
  }

  /**
   * For every sequence of builder calls that builds, the installed program evaluates to:
   * the default rules; then the first user rule that answers; then the default action;
   * then the overridable rules; then KILL.  It never runs off its end.
   */
  lemma FinalProgramMeaning(calls: seq<Call>, e: Environment, d: Data)
    requires CanBuild(ApplyAll(calls)) && Compact(calls)
    ensures var s := ApplyAll(calls);
            Run(FinalProgram(s, e), d, INITIAL) ==
            Decided(DefaultDecision(OptionsOf(s, e), d),
                    match RulesMeaning(AllRules(calls), d, INITIAL.(a := Nr(d)))
                    case Exit(_) => Return(RET_KILL, true)
                    case other => other)
  {
    hide Run, DefaultDecision, GetPolicy, JumpsInside, RulesMeaning, AllRules, CanBuild;
    var s := ApplyAll(calls);
    AllRulesWellFormed(calls);
    RulesCodeMeaning(AllRules(calls), d, INITIAL.(a := Nr(d)));
    assert CanBuild(s) ==> s.ok by { BuildNeedsOk(s); }
    BuiltPolicyIsRules(calls);
    PolicyAnswers(OptionsOf(s, e), BuiltPolicy(s), d);
  }

  lemma BuildNeedsOk(s: State)
    ensures CanBuild(s) ==> s.ok
  {
  }

  // Executable mappings ------------------------------------------------------------------------

  /** No call takes it back, so executable mappings are on for every policy that is built. */
  lemma {:induction false} MapExecIsAlwaysOn(calls: seq<Call>)
    ensures ApplyAll(calls).mapExec
  {
    hide Apply;
    if calls != [] {
      MapExecIsAlwaysOn(calls[..|calls| - 1]);
      MapExecIsKept(ApplyAll(calls[..|calls| - 1]), calls[|calls| - 1]);
    }
  }

  lemma MapExecIsKept(s: State, c: Call)
    requires s.mapExec
    ensures Apply(s, c).mapExec
  {
    hide RuleCode, Accepted, Compile, CheckMapExec;
  }

  /** The error that asks for Allow(MapExec) is never reported: allowing a syscall never fails. */
  lemma AllowingNeverFails(calls: seq<Call>, nr: u32)
    ensures Apply(ApplyAll(calls), AllowSyscall(nr)).ok == ApplyAll(calls).ok
  {
    MapExecIsAlwaysOn(calls);
  }

  /** A mapping or shared memory attachment that asks for execution, on the host architecture. */
  predicate AsksForExec(d: Data) {
    && Arch(d) == AUDIT_ARCH_HOST
    && (|| (Nr(d) in EXEC_MAPPERS && And(ArgLow(d, 2), PROT_EXEC) != 0)
        || (Nr(d) == NR_SHMAT && And(ArgLow(d, 2), SHM_EXEC) != 0))
  }

  /** The default rules decide about such a call if and only if the policy has executable mappings off. */
  lemma ExecDecidedIff(o: Options, d: Data)
    requires AsksForExec(d)
    ensures DefaultDecision(o, d) == if o.mapExec then None else Some(RET_KILL)
  {
    assert forall nr :: nr in EXEC_MAPPERS <==> nr == NR_MMAP || nr == NR_MPROTECT || nr == NR_PKEY_MPROTECT;
  }

  /** In a built policy the rules against executable mappings are not there, neither their code nor their effect. */
  lemma ExecRulesAreNeverBuilt(calls: seq<Call>, e: Environment, rest: seq<Instr>, d: Data)
    ensures ExecPart(OptionsOf(ApplyAll(calls), e), rest) == rest
    ensures ExecDecision(OptionsOf(ApplyAll(calls), e), d) == None
  {
    MapExecIsAlwaysOn(calls);
  }

  /** An executable mapping gets exactly what the rules of the builder say, whether MapExec was allowed or not. */
  lemma ExecutableMappingsGetTheRules(calls: seq<Call>, e: Environment, d: Data)
    requires CanBuild(ApplyAll(calls)) && Compact(calls) && AsksForExec(d)
    ensures Run(FinalProgram(ApplyAll(calls), e), d, INITIAL) ==
            match RulesMeaning(AllRules(calls), d, INITIAL.(a := Nr(d)))
            case Exit(_) => Return(RET_KILL, true)
            case other => other
  {
    hide Run, DefaultDecision, RulesMeaning, FinalProgram, AllRules, CanBuild, AsksForExec;
    MapExecIsAlwaysOn(calls);
    ExecDecidedIff(OptionsOf(ApplyAll(calls), e), d);
    FinalProgramMeaning(calls, e, d);
  }

  /** So without any Allow(MapExec) an executable mapping can be allowed: by a default action, for instance. */
  lemma ExecutableMappingIsAllowed(e: Environment, d: Data)
    requires AsksForExec(d)
    ensures var calls := [DefaultActionAllowAll];
            && AllowMapExec !in calls && CanBuild(ApplyAll(calls))
            && Run(FinalProgram(ApplyAll(calls), e), d, INITIAL) == Return(RET_ALLOW, true)
  {
    hide Run, FinalProgram, AsksForExec;
    var calls := [DefaultActionAllowAll];
    assert calls[..0] == [];
    assert ApplyAll(calls) == FRESH.(defaultAction := Some(ALLOW));
    assert AllRules(calls) == [Always(RET_ALLOW)];
    ExecutableMappingsGetTheRules(calls, e, d);
  }

  // ptrace and bpf ---------------------------------------------------------------------------

  predicate IsErrno(v: u32) { RET_ERRNO <= v < RET_ERRNO + 0x1_0000 }

  /** An errno, or for ptrace the trap if one was asked for. */
  predicate Refuses(calls: seq<Call>, nr: u32, v: u32) {
    IsErrno(v) || (nr == NR_PTRACE && v == RET_TRAP && TrapPtrace in calls)
  }

  function Handles(s: State, nr: u32): bool { if nr == NR_BPF then s.handlesBpf else s.handlesPtrace }

  /** The call is one that refuses `nr`. */
  predicate BlocksCall(c: Call, nr: u32) {
    (c.BlockSyscallWithErrno? && c.nr == nr) || (c.TrapPtrace? && nr == NR_PTRACE)
  }

  ghost predicate HasRule(rules: seq<Rule>, nr: u32) {
    exists i :: 0 <= i < |rules| && rules[i].Simple? && rules[i].nr == nr
  }

  ghost predicate OnlyRefused(rules: seq<Rule>, calls: seq<Call>, nr: u32) {
    forall i :: 0 <= i < |rules| && rules[i].Simple? && rules[i].nr == nr ==> Refuses(calls, nr, rules[i].action)
  }

  lemma {:induction false} RulesAreMentioned(calls: seq<Call>, nr: u32)
    requires HasRule(UserRules(calls), nr)
    ensures nr in Mentioned(calls)
  {
    if calls != [] {
      var before := calls[..|calls| - 1];
      if HasRule(UserRules(before), nr) {
        RulesAreMentioned(before, nr);
      }
    }
  }

  lemma HandlesStep(s: State, c: Call, nr: u32)
    requires Forbidden(nr) && s.blocked <= s.handled
    ensures Handles(Apply(s, c), nr) <==> Handles(s, nr) || (BlocksCall(c, nr) && nr !in s.handled)
  {
    hide RuleCode, Accepted, Compile;
  }

  lemma HasRuleAppend(rules: seq<Rule>, added: seq<Rule>, nr: u32)
    requires HasRule(rules, nr) || HasRule(added, nr)
    ensures HasRule(rules + added, nr)
  {
    if HasRule(rules, nr) {
      var i :| 0 <= i < |rules| && rules[i].Simple? && rules[i].nr == nr;
      assert (rules + added)[i] == rules[i];
    } else {
      var i :| 0 <= i < |added| && added[i].Simple? && added[i].nr == nr;
      assert (rules + added)[|rules| + i] == added[i];
    }
  }

  lemma OnlyRefusedAppend(rules: seq<Rule>, added: seq<Rule>, before: seq<Call>, calls: seq<Call>, nr: u32)
    requires OnlyRefused(rules, before, nr) && OnlyRefused(added, calls, nr) && before <= calls
    ensures OnlyRefused(rules + added, calls, nr)
  {
    var all := rules + added;
    forall i | 0 <= i < |all| && all[i].Simple? && all[i].nr == nr ensures Refuses(calls, nr, all[i].action) {
      if i < |rules| {
        assert Refuses(before, nr, rules[i].action);
      } else {
        assert all[i] == added[i - |rules|];
      }
    }
  }

  lemma AddedRule(before: seq<Call>, c: Call, calls: seq<Call>, nr: u32)
    requires calls == before + [c]
    ensures nr in Mentioned(before) ==> OnlyRefused(UserRule(before, c), calls, nr)
    ensures BlocksCall(c, nr) && nr !in Mentioned(before) ==>
              HasRule(UserRule(before, c), nr) && OnlyRefused(UserRule(before, c), calls, nr)
  {
    assert calls[|before|] == c;
    if BlocksCall(c, nr) && nr !in Mentioned(before) {
      assert UserRule(before, c)[0].nr == nr;
    }
  }

  /** A handled flag is only set together with a refusing rule, and no other rule for that syscall is ever added. */
  lemma {:induction false} HandledMeansRefused(calls: seq<Call>, nr: u32)
    requires Forbidden(nr) && Handles(ApplyAll(calls), nr)
    ensures HasRule(UserRules(calls), nr) && OnlyRefused(UserRules(calls), calls, nr)
  {
    hide Apply, HasRule, OnlyRefused, UserRule, CodeOf, BlocksCall;
    var before, c := calls[..|calls| - 1], calls[|calls| - 1];
    assert calls == before + [c];
    BuilderTracksRules(before);
    HandlesStep(ApplyAll(before), c, nr);
    AddedRule(before, c, calls, nr);
    if Handles(ApplyAll(before), nr) {
      HandledMeansRefused(before, nr);
      RulesAreMentioned(before, nr);
    } else if !OnlyRefused(UserRules(before), before, nr) {
      NotOnlyRefused(UserRules(before), before, nr);
      RulesAreMentioned(before, nr);
    }
    HasRuleAppend(UserRules(before), UserRule(before, c), nr);
    OnlyRefusedAppend(UserRules(before), UserRule(before, c), before, calls, nr);
  }

  lemma NotOnlyRefused(rules: seq<Rule>, calls: seq<Call>, nr: u32)
    requires !OnlyRefused(rules, calls, nr)
    ensures HasRule(rules, nr)
  {
  }

  /** No custom policy can list ptrace or bpf, so only the refusing rule answers. */
  lemma {:induction false} OnlyRefusedAnswers(rules: seq<Rule>, calls: seq<Call>, more: seq<Rule>, d: Data, r: Regs)
    requires HasRule(rules, r.a) && OnlyRefused(rules, calls, r.a) && AllAccepted(rules) && Forbidden(r.a)
    requires forall rule <- rules :: !rule.Always?
    ensures var o := RulesMeaning(rules + more, d, r); o.Return? && o.constant && Refuses(calls, r.a, o.v)
  {
    var tail := rules[1..];
    assert (rules + more)[1..] == tail + more;
    if !(rules[0].Simple? && rules[0].nr == r.a) {
      assert rules[0] in rules;
      assert RuleMeaning(rules[0], d, r) == Exit(r) by {
        if rules[0].Custom? {
          assert Accepted(rules[0].nums, rules[0].policy);
        }
      }
      var i :| 0 <= i < |rules| && rules[i].Simple? && rules[i].nr == r.a;
      assert tail[i - 1] == rules[i];
      assert OnlyRefused(tail, calls, r.a) by {
        forall j | 0 <= j < |tail| && tail[j].Simple? && tail[j].nr == r.a ensures Refuses(calls, r.a, tail[j].action) {
          assert tail[j] == rules[j + 1];
        }
      }
      OnlyRefusedAnswers(tail, calls, more, d, r);
    }
  }

  lemma {:induction false} UserRulesAreNotAlways(calls: seq<Call>)
    ensures forall rule <- UserRules(calls) :: !rule.Always?
  {
    if calls != [] {
      UserRulesAreNotAlways(calls[..|calls| - 1]);
    }
  }

  /**
   * Whatever calls were made, ptrace and bpf are killed, refused with an errno or, for ptrace
   * and only on request, trapped, but never allowed; the one exception are the safe bpf
   * commands, when those were asked for.
   */
  lemma ForbiddenSyscallsAreNeverAllowed(calls: seq<Call>, e: Environment, d: Data)
    requires CanBuild(ApplyAll(calls)) && Compact(calls)
    requires Arch(d) == AUDIT_ARCH_HOST && Forbidden(Nr(d))
    requires !(Nr(d) == NR_BPF && ApplyAll(calls).safeBpf && ArgLow(d, 0) in SAFE_BPF_COMMANDS)
    ensures var m := Meaning(FinalProgram(ApplyAll(calls), e), d);
            m.Some? && (m.value == RET_KILL || Refuses(calls, Nr(d), m.value))
  {
    hide Run, RulesMeaning, FinalProgram, CanBuild, Apply, ApplyAll, AllRules, DefaultDecision, Compact, Refuses;
    var s := ApplyAll(calls);
    FinalProgramMeaning(calls, e, d);
    ForbiddenDefault(OptionsOf(s, e), d);
    if Handles(s, Nr(d)) {
      BuildNeedsOk(s);
      HandledAnswers(calls, d, INITIAL.(a := Nr(d)));
    }
  }

  /** A handled syscall gets its refusal from the user rules. */
  lemma HandledAnswers(calls: seq<Call>, d: Data, r: Regs)
    requires ApplyAll(calls).ok && Forbidden(r.a) && Handles(ApplyAll(calls), r.a)
    ensures var o := RulesMeaning(AllRules(calls), d, r); o.Return? && o.constant && Refuses(calls, r.a, o.v)
  {
    hide RulesMeaning, HasRule, OnlyRefused, Apply, ApplyAll, UserRules, AllAccepted, DefaultRule, OverridableRules,
         Refuses;
    BuilderTracksRules(calls);
    HandledMeansRefused(calls, r.a);
    UserRulesAreNotAlways(calls);
    var more := DefaultRule(calls) + OverridableRules(calls);
    OnlyRefusedAnswers(UserRules(calls), calls, more, d, r);
    assert AllRules(calls) == UserRules(calls) + more;
  }

  lemma ForbiddenDefault(o: Options, d: Data)
    requires Arch(d) == AUDIT_ARCH_HOST && Forbidden(Nr(d))
    requires !(Nr(d) == NR_BPF && o.safeBpf && ArgLow(d, 0) in SAFE_BPF_COMMANDS)
    ensures DefaultDecision(o, d) ==
            if (Nr(d) == NR_BPF && o.handlesBpf) || (Nr(d) == NR_PTRACE && o.handlesPtrace) then None
            else Some(RET_KILL)
  {
    assert NR_PTRACE !in EXEC_MAPPERS && NR_BPF !in EXEC_MAPPERS;
  }

  /** The safe bpf commands are allowed exactly if some call asked for them. */
  lemma {:induction false} SafeBpfIff(calls: seq<Call>)
    ensures ApplyAll(calls).safeBpf <==> AllowSafeBpf in calls
  {
    hide Apply;
    if calls != [] {
      var before, c := calls[..|calls| - 1], calls[|calls| - 1];
      SafeBpfIff(before);
      SafeBpfStep(ApplyAll(before), c);
      assert calls == before + [c];
    }
  }

  lemma SafeBpfStep(s: State, c: Call)
    ensures Apply(s, c).safeBpf <==> s.safeBpf || c == AllowSafeBpf
  {
    hide RuleCode, Accepted, Compile, CheckMapExec;
  }

  /** A safe bpf command is allowed if AllowSafeBpf was called, whatever else was; otherwise bpf is refused. */
  lemma SafeBpfCommandsAreAllowed(calls: seq<Call>, e: Environment, d: Data)
    requires CanBuild(ApplyAll(calls)) && Compact(calls)
    requires Arch(d) == AUDIT_ARCH_HOST && Nr(d) == NR_BPF && ArgLow(d, 0) in SAFE_BPF_COMMANDS
    ensures var m := Meaning(FinalProgram(ApplyAll(calls), e), d);
            if AllowSafeBpf in calls then m == Some(RET_ALLOW)
            else m.Some? && (m.value == RET_KILL || IsErrno(m.value))
  {
    hide Run, RulesMeaning, FinalProgram, CanBuild, Apply, ApplyAll, AllRules, Compact;
    SafeBpfIff(calls);
    if AllowSafeBpf in calls {
      FinalProgramMeaning(calls, e, d);
    } else {
      ForbiddenSyscallsAreNeverAllowed(calls, e, d);
    }
  }

  // Which call decides ---------------------------------------------------------------------------

  /** What a call asks for: allow, an errno whose lower 16 bits are kept, or a trap. */
  function Wanted(c: Call): Option<u32> {
    match c
    case AllowSyscall(_) => Some(0x7fff_0000)
    case BlockSyscallWithErrno(_, error) => Some(0x5_0000 + error % 0x1_0000)
    case TrapPtrace => Some(0x3_0000)
    case _ => None
  }

  /** The call has a say on syscall `nr`. */
  predicate Concerns(c: Call, nr: u32) {
    match c
    case AllowSyscall(n) => n == nr
    case BlockSyscallWithErrno(n, _) => n == nr
    case TrapPtrace => nr == NR_PTRACE
    case AddPolicyOnSyscalls(nums, _) => nr in nums
    case _ => false
  }

  /**
   * A syscall that the default rules leave alone gets the answer of the first call that allows, blocks or
   * traps it, unless a policy that lists it was added earlier; no later call changes that.
   */
  lemma FirstCallDecides(calls: seq<Call>, k: nat, e: Environment, d: Data)
    requires CanBuild(ApplyAll(calls)) && Compact(calls)
    requires DefaultDecision(OptionsOf(ApplyAll(calls), e), d) == None
    requires k < |calls| && Concerns(calls[k], Nr(d)) && Wanted(calls[k]).Some?
    requires forall i :: 0 <= i < k ==> !Concerns(calls[i], Nr(d))
    ensures Run(FinalProgram(ApplyAll(calls), e), d, INITIAL) == Return(Wanted(calls[k]).value, true)
  {
    hide Run, RulesMeaning, FinalProgram, CanBuild, ApplyAll, UserRules, DefaultDecision, DefaultRule,
         OverridableRules, Compact;
    var before, r := calls[..k], INITIAL.(a := Nr(d));
    FinalProgramMeaning(calls, e, d);
    var later := RulesInOrder(calls, k);
    var more := later + DefaultRule(calls) + OverridableRules(calls);
    FirstRule(before, calls[k], Nr(d));
    var rule := UserRule(before, calls[k])[0];
    assert AllRules(calls) == UserRules(before) + ([rule] + more);
    NotConcerned(before, [rule] + more, d, r);
    FirstAnswers(rule, more, d, r);
  }

  lemma FirstRule(before: seq<Call>, c: Call, nr: u32)
    requires Concerns(c, nr) && Wanted(c).Some? && forall i :: 0 <= i < |before| ==> !Concerns(before[i], nr)
    ensures UserRule(before, c) == [Simple(nr, Wanted(c).value)]
  {
    NotMentioned(before, nr);
  }

  lemma FirstAnswers(rule: Rule, more: seq<Rule>, d: Data, r: Regs)
    requires rule.Simple? && rule.nr == r.a
    ensures RulesMeaning([rule] + more, d, r) == Return(rule.action, true)
  {
  }

  /** The user rules, those of the first calls first. */
  lemma {:induction false} RulesInOrder(calls: seq<Call>, k: nat) returns (later: seq<Rule>)
    requires k < |calls|
    ensures UserRules(calls) == UserRules(calls[..k]) + UserRule(calls[..k], calls[k]) + later
  {
    hide UserRule;
    var n := |calls| - 1;
    if k == n {
      later := [];
    } else {
      var init := calls[..n];
      var rest := RulesInOrder(init, k);
      assert init[..k] == calls[..k] && init[k] == calls[k];
      later := rest + UserRule(init, calls[n]);
    }
  }

  lemma {:induction false} NotMentioned(calls: seq<Call>, nr: u32)
    requires forall i :: 0 <= i < |calls| ==> !Concerns(calls[i], nr)
    ensures nr !in Mentioned(calls)
  {
    if calls != [] {
      NotMentioned(calls[..|calls| - 1], nr);
      assert !Concerns(calls[|calls| - 1], nr);
    }
  }

  /** Calls that do not concern a syscall leave it to the rules that follow. */
  lemma {:induction false} NotConcerned(calls: seq<Call>, more: seq<Rule>, d: Data, r: Regs)
    requires forall i :: 0 <= i < |calls| ==> !Concerns(calls[i], r.a)
    ensures RulesMeaning(UserRules(calls) + more, d, r) == RulesMeaning(more, d, r)
  {
    if calls == [] {
      assert UserRules(calls) + more == more;
    } else {
      var before, c := calls[..|calls| - 1], calls[|calls| - 1];
      var added := UserRule(before, c);
      NotConcerned(before, added + more, d, r);
      assert UserRules(calls) + more == UserRules(before) + (added + more);
      PassesOn(before, c, more, d, r);
    }
  }

  lemma PassesOn(before: seq<Call>, c: Call, more: seq<Rule>, d: Data, r: Regs)
    requires !Concerns(c, r.a)
    ensures RulesMeaning(UserRule(before, c) + more, d, r) == RulesMeaning(more, d, r)
  {
    var added := UserRule(before, c);
    if added == [] {
      assert added + more == more;
    } else {
      assert (added + more)[1..] == more;
      assert RuleMeaning(added[0], d, r) == Exit(r);
    }
  }

  // The builder object -------------------------------------------------------------------------

  class Builder {
    var ok: bool
    var userPolicy: seq<Instr>
    var overridablePolicy: seq<Instr>
    var defaultAction: Option<Instr>
    var handledSyscalls: set<u32>
    var allowedSyscalls: set<u32>
    var blockedSyscalls: set<u32>
    var handlesBpf: bool
    var handlesPtrace: bool
    var mapExec: bool
    var safeBpf: bool
    var alreadyBuilt: bool

    function Snapshot(): State
      reads this
    {
      State(ok, userPolicy, overridablePolicy, defaultAction, handledSyscalls, allowedSyscalls, blockedSyscalls,
            handlesBpf, handlesPtrace, mapExec, safeBpf)
    }

    constructor ()
      ensures Snapshot() == ApplyAll([]) && !alreadyBuilt
    {
      ok, userPolicy, overridablePolicy, defaultAction := true, [], [], None;
      handledSyscalls, allowedSyscalls, blockedSyscalls := {}, {}, {};
      handlesBpf, handlesPtrace, mapExec, safeBpf, alreadyBuilt := false, false, true, false, false;
    }

    method AllowSyscall(nr: u32)
      modifies this
      ensures Snapshot() == Apply(old(Snapshot()), Call.AllowSyscall(nr)) && alreadyBuilt == old(alreadyBuilt)
    {
      var newlyHandled := nr !in handledSyscalls;
      handledSyscalls := handledSyscalls + {nr};
      if newlyHandled {
        var newlyAllowed := nr !in allowedSyscalls;
        allowedSyscalls := allowedSyscalls + {nr};
        if newlyAllowed {
          if !mapExec && CheckMapExec(nr) {
            ok := false;
            return;
          }
          userPolicy := userPolicy + [Instr(JMP_JEQ_K, 0, 1, nr), ALLOW];
        }
      }
    }

    method BlockSyscallWithErrno(nr: u32, error: u32)
      modifies this
      ensures Snapshot() == Apply(old(Snapshot()), Call.BlockSyscallWithErrno(nr, error))
      ensures alreadyBuilt == old(alreadyBuilt)
    {
      var newlyHandled := nr !in handledSyscalls;
      handledSyscalls := handledSyscalls + {nr};
      if newlyHandled {
        var newlyBlocked := nr !in blockedSyscalls;
        blockedSyscalls := blockedSyscalls + {nr};
        if newlyBlocked {
          userPolicy := userPolicy + [Instr(JMP_JEQ_K, 0, 1, nr), Ret(Errno(error))];
          if nr == NR_BPF {
            handlesBpf := true;
          } else if nr == NR_PTRACE {
            handlesPtrace := true;
          }
        }
      }
    }

    method TrapPtrace()
      modifies this
      ensures Snapshot() == Apply(old(Snapshot()), Call.TrapPtrace) && alreadyBuilt == old(alreadyBuilt)
    {
      if NR_PTRACE !in handledSyscalls {
        handledSyscalls := handledSyscalls + {NR_PTRACE};
        userPolicy := userPolicy + [Instr(JMP_JEQ_K, 0, 1, NR_PTRACE), Ret(RET_TRAP)];
        handlesPtrace := true;
      }
    }

    method AddPolicyOnSyscalls(nums: seq<u32>, policy: seq<Instr>)
      modifies this
      ensures Snapshot() == Apply(old(Snapshot()), Call.AddPolicyOnSyscalls(nums, policy))
      ensures alreadyBuilt == old(alreadyBuilt)
    {
      var out := CreatePolicyOnSyscalls(nums, policy);
      if out.None? {
        ok := false;
        return;
      }
      userPolicy := userPolicy + out.value;
    }

    method OverridableAddPolicyOnSyscalls(nums: seq<u32>, policy: seq<Instr>)
      modifies this
      ensures Snapshot() == Apply(old(Snapshot()), Call.OverridableAddPolicyOnSyscalls(nums, policy))
      ensures alreadyBuilt == old(alreadyBuilt)
    {
      var out := CreatePolicyOnSyscalls(nums, policy);
      if out.None? {
        ok := false;
        return;
      }
      overridablePolicy := overridablePolicy + out.value;
    }

    /**
     * The policy part of TryBuild: None on an earlier error, an overlong policy, a second build, or
     * if `compatible` says that the Landlock, network and hostname settings do not go together.
     */
    method TryBuild(compatible: bool) returns (policy: Option<seq<Instr>>)
      modifies this
      ensures policy ==
              if CanBuild(old(Snapshot())) && !old(alreadyBuilt) && compatible
              then Some(BuiltPolicy(old(Snapshot()))) else None
      ensures alreadyBuilt == (old(alreadyBuilt) || policy.Some?)
      ensures Snapshot() == if policy.Some? then old(Snapshot()).(userPolicy := []) else old(Snapshot())
    {
      if !ok {
        return None;
      }
      if |userPolicy| > MAX_USER_POLICY_LENGTH {
        return None;
      }
      if alreadyBuilt {
        return None;
      }
      if !compatible {
        return None;
      }
      var built := userPolicy;
      userPolicy := [];
      if defaultAction.Some? {
        built := built + [defaultAction.value];
      }
      built := built + overridablePolicy;
      assert built == BuiltPolicy(old(Snapshot()));
      alreadyBuilt := true;
      return Some(built);
    }
  }
}
