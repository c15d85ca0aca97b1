/**
 * The part of every policy that is not up to the user: GetDefaultPolicy, written
 * with labels as in the source, and GetPolicy, which puts it in front.
 *
 * Each piece of code is a function of what follows it, so that its meaning can be
 * stated for every continuation.
 */
module DefaultPolicy {
  import opened Words
  import opened Bpf
  import opened BpfLabels
  import opened SyscallPolicy

  const AUDIT_ARCH_HOST: u32 := 0xC000_003E
  const AUDIT_ARCH_I386: u32 := 0x4000_0003
  const CPU_X86: u32 := 0xCAF2
  const CPU_UNKNOWN: u32 := 0xCAF0
  const EXECVE_MAGIC: u32 := 0x921c_2c34
  const MAGIC_SYSCALL_NO: u32 := 0x2f00_0fdb
  const MAGIC_SYSCALL_ERR: u32 := 0xfdb
  const ENOSYS: u32 := 38
  const AT_EMPTY_PATH: u32 := 0x1000
  const PROT_EXEC: u32 := 4
  const SHM_EXEC: u32 := 0x8000
  const NEW_NAMESPACES: u32 := 0x7E02_0000
  const CLONE_UNTRACED: u32 := 0x0080_0000
  const FILTER_FLAG_NEW_LISTENER: u32 := 8

  const NR_MMAP: u32 := 9
  const NR_MPROTECT: u32 := 10
  const NR_SHMAT: u32 := 30
  const NR_CLONE: u32 := 56
  const NR_UNSHARE: u32 := 272
  const NR_SECCOMP: u32 := 317
  const NR_EXECVEAT: u32 := 322
  const NR_PKEY_MPROTECT: u32 := 329
  const NR_CLONE3: u32 := 435

  // Map lookup, next key, object get, next map id, map fd by id, object info
  const SAFE_BPF_COMMANDS: seq<u32> := [1, 7, 4, 12, 14, 15]

  // Macros ------------------------------------------------------------------------

  function Ret(v: u32): Instr { Stmt(RET_K, v) }
  function Load(word: nat): Instr
    requires word < 16
  {
    Stmt(LD_W_ABS, 4 * word)
  }
  function LoadArg(i: nat): Instr
    requires i < 6
  {
    Load(4 + 2 * i)
  }
  function IfEq(v: u32, then_: Instr, rest: seq<Instr>): seq<Instr> { [Instr(JMP_JEQ_K, 0, 1, v), then_] + rest }
  function IfNe(v: u32, then_: Instr, rest: seq<Instr>): seq<Instr> { [Instr(JMP_JEQ_K, 1, 0, v), then_] + rest }
  function IfAny(v: u32, then_: Instr, rest: seq<Instr>): seq<Instr> { [Instr(JMP_JSET_K, 0, 1, v), then_] + rest }

  /** Meaning from a label on. */
  function Goto(code: seq<Instr>, id: u32, d: Data, r: Regs): Outcome {
    var s := Seek(code, id);
    if s.None? then Error else RunLabelled(s.value, d, r)
  }

  /** Meaning of a single return or label jump in front of `rest`. */
  function Branch(i: Instr, rest: seq<Instr>, d: Data, r: Regs): Outcome {
    if i.code == RET_K then Return(i.k, true)
    else if IsJump(i) then Goto(rest, i.k, d, r)
    else Error
  }

  predicate IsBranch(i: Instr) { i.code == RET_K || IsJump(i) }

  lemma RunLoad(word: nat, rest: seq<Instr>, d: Data, r: Regs)
    requires word < 16
    ensures RunLabelled([Load(word)] + rest, d, r) == RunLabelled(rest, d, r.(a := d[word]))
  {
    var c := [Load(word)] + rest;
    assert Step(c[0], d, r) == Continue(r.(a := d[word]), 0);
    assert c[1..] == rest;
  }

  lemma RunBranch(i: Instr, rest: seq<Instr>, d: Data, r: Regs)
    requires IsBranch(i)
    ensures RunLabelled([i] + rest, d, r) == Branch(i, rest, d, r)
  {
    var c := [i] + rest;
    assert c[1..] == rest;
  }

  lemma RunLabel(id: u32, rest: seq<Instr>, d: Data, r: Regs)
    ensures RunLabelled([Label(id)] + rest, d, r) == RunLabelled(rest, d, r)
    ensures Goto([Label(id)] + rest, id, d, r) == RunLabelled(rest, d, r)
  {
    var c := [Label(id)] + rest;
    assert c[1..] == rest;
  }

  lemma RunIf(test: Instr, i: Instr, rest: seq<Instr>, d: Data, r: Regs, cond: bool)
    requires IsBranch(i)
    requires Step(test, d, r) == Continue(r, if cond then 0 else 1)
    requires test.code != JMP_JA
    ensures RunLabelled([test, i] + rest, d, r) == if cond then Branch(i, rest, d, r) else RunLabelled(rest, d, r)
  {
    var c := [test, i] + rest;
    assert c[1..] == [i] + rest;
    assert c[2..] == rest;
    RunBranch(i, rest, d, r);
  }

  lemma RunIfEq(v: u32, i: Instr, rest: seq<Instr>, d: Data, r: Regs)
    requires IsBranch(i)
    ensures RunLabelled(IfEq(v, i, rest), d, r) == if r.a == v then Branch(i, rest, d, r) else RunLabelled(rest, d, r)
  {
    RunIf(Instr(JMP_JEQ_K, 0, 1, v), i, rest, d, r, r.a == v);
  }

  lemma RunIfNe(v: u32, i: Instr, rest: seq<Instr>, d: Data, r: Regs)
    requires IsBranch(i)
    ensures RunLabelled(IfNe(v, i, rest), d, r) == if r.a != v then Branch(i, rest, d, r) else RunLabelled(rest, d, r)
  {
    RunIf(Instr(JMP_JEQ_K, 1, 0, v), i, rest, d, r, r.a != v);
  }

  lemma RunIfAny(v: u32, i: Instr, rest: seq<Instr>, d: Data, r: Regs)
    requires IsBranch(i)
    ensures RunLabelled(IfAny(v, i, rest), d, r) ==
            if And(r.a, v) != 0 then Branch(i, rest, d, r) else RunLabelled(rest, d, r)
  {
    RunIf(Instr(JMP_JSET_K, 0, 1, v), i, rest, d, r, And(r.a, v) != 0);
  }

  lemma GotoPast(i: Instr, rest: seq<Instr>, id: u32, d: Data, r: Regs)
    requires i != Label(id)
    ensures Goto([i] + rest, id, d, r) == Goto(rest, id, d, r)
  {
    assert ([i] + rest)[1..] == rest;
  }

  lemma GotoPastTwo(i: Instr, j: Instr, rest: seq<Instr>, id: u32, d: Data, r: Regs)
    requires i != Label(id) && j != Label(id)
    ensures Goto([i, j] + rest, id, d, r) == Goto(rest, id, d, r)
  {
    assert [i, j] + rest == [i] + ([j] + rest);
    GotoPast(i, [j] + rest, id, d, r);
    GotoPast(j, rest, id, d, r);
  }

  // Pieces ------------------------------------------------------------------------

  /** The outcome of a piece that may answer. */
  function Decided(v: Option<u32>, otherwise: Outcome): Outcome {
    if v.Some? then Return(v.value, true) else otherwise
  }

  /** Deny syscall `nr` when argument `i` has one of `flags`; afterwards A may hold the argument. */
  function DenyFlags(nr: u32, i: nat, flags: u32, id: u32, rest: seq<Instr>): seq<Instr>
    requires i < 6
  {
    IfNe(nr, JumpTo(id), [LoadArg(i)] + IfAny(flags, KILL, [Label(id)] + rest))
  }

  lemma DenyFlagsMeaning(nr: u32, i: nat, flags: u32, id: u32, rest: seq<Instr>, d: Data, r: Regs)
    requires i < 6
    ensures RunLabelled(DenyFlags(nr, i, flags, id, rest), d, r) ==
            if r.a != nr then RunLabelled(rest, d, r)
            else if And(ArgLow(d, i), flags) != 0 then Return(RET_KILL, true)
            else RunLabelled(rest, d, r.(a := ArgLow(d, i)))
  {
    hide RunLabelled, Goto;
    var c2 := [Label(id)] + rest;
    var c1 := IfAny(flags, KILL, c2);
    var r' := r.(a := ArgLow(d, i));
    RunIfNe(nr, JumpTo(id), [LoadArg(i)] + c1, d, r);
    RunLoad(4 + 2 * i, c1, d, r);
    RunIfAny(flags, KILL, c2, d, r');
    RunLabel(id, rest, d, r);
    RunLabel(id, rest, d, r');
    GotoPast(LoadArg(i), c1, id, d, r);
    GotoPastTwo(Instr(JMP_JSET_K, 0, 1, flags), KILL, c2, id, d, r);
  }

  /** Tests on arguments: any mismatch leaves for the label. */
  function Conditions(conds: seq<(nat, u32)>, id: u32, rest: seq<Instr>): (code: seq<Instr>)
    requires forall c <- conds :: c.0 < 6
    ensures |code| == |rest| + 3 * |conds|
  {
    if conds == [] then rest
    else [LoadArg(conds[0].0)] + IfNe(conds[0].1, JumpTo(id), Conditions(conds[1..], id, rest))
  }

  predicate Hold(conds: seq<(nat, u32)>, d: Data)
    requires forall c <- conds :: c.0 < 6
  {
    forall c <- conds :: ArgLow(d, c.0) == c.1
  }

  lemma {:induction false} GotoPastConditions(conds: seq<(nat, u32)>, id: u32, rest: seq<Instr>, d: Data, r: Regs)
    requires forall c <- conds :: c.0 < 6
    ensures Goto(Conditions(conds, id, rest), id, d, r) == Goto(rest, id, d, r)
  {
    hide Goto;
    if conds != [] {
      var tail := Conditions(conds[1..], id, rest);
      GotoPastConditions(conds[1..], id, rest, d, r);
      GotoPast(LoadArg(conds[0].0), IfNe(conds[0].1, JumpTo(id), tail), id, d, r);
      GotoPastTwo(Instr(JMP_JEQ_K, 1, 0, conds[0].1), JumpTo(id), tail, id, d, r);
    }
  }

  /** A label followed by the reload of the syscall number. */
  function Rejoin(id: u32, rest: seq<Instr>): seq<Instr> { [Label(id)] + ([LOAD_SYSCALL_NR] + rest) }

  lemma RejoinMeaning(id: u32, rest: seq<Instr>, d: Data, r: Regs)
    ensures RunLabelled(Rejoin(id, rest), d, r) == RunLabelled(rest, d, r.(a := Nr(d)))
    ensures Goto(Rejoin(id, rest), id, d, r) == RunLabelled(rest, d, r.(a := Nr(d)))
  {
    hide RunLabelled, Goto;
    RunLabel(id, [LOAD_SYSCALL_NR] + rest, d, r);
    RunLoad(0, rest, d, r);
  }

  lemma {:induction false} ConditionsMeaning(
    conds: seq<(nat, u32)>, id: u32, action: u32, rest: seq<Instr>, d: Data, r: Regs)
    requires forall c <- conds :: c.0 < 6
    ensures RunLabelled(Conditions(conds, id, [Ret(action)] + Rejoin(id, rest)), d, r) ==
            if Hold(conds, d) then Return(action, true) else RunLabelled(rest, d, r.(a := Nr(d)))
  {
    hide RunLabelled, Goto;
    var end := [Ret(action)] + Rejoin(id, rest);
    if conds == [] {
      RunBranch(Ret(action), Rejoin(id, rest), d, r);
    } else {
      var (i, v) := conds[0];
      var tail := Conditions(conds[1..], id, end);
      var r' := r.(a := ArgLow(d, i));
      RunLoad(4 + 2 * i, IfNe(v, JumpTo(id), tail), d, r);
      RunIfNe(v, JumpTo(id), tail, d, r');
      ConditionsMeaning(conds[1..], id, action, rest, d, r');
      GotoPastConditions(conds[1..], id, end, d, r');
      GotoPast(Ret(action), Rejoin(id, rest), id, d, r');
      RejoinMeaning(id, rest, d, r');
      assert Hold(conds, d) <==> ArgLow(d, i) == v && Hold(conds[1..], d);
    }
  }

  /** Answer `action` to syscall `nr` when its arguments are as listed. */
  function AnswerIf(nr: u32, conds: seq<(nat, u32)>, action: u32, id: u32, rest: seq<Instr>): seq<Instr>
    requires forall c <- conds :: c.0 < 6
  {
    IfNe(nr, JumpTo(id), Conditions(conds, id, [Ret(action)] + Rejoin(id, rest)))
  }

  lemma AnswerIfMeaning(nr: u32, conds: seq<(nat, u32)>, action: u32, id: u32, rest: seq<Instr>, d: Data, r: Regs)
    requires forall c <- conds :: c.0 < 6
    requires r.a == Nr(d)
    ensures RunLabelled(AnswerIf(nr, conds, action, id, rest), d, r) ==
            Decided(if Nr(d) == nr && Hold(conds, d) then Some(action) else None, RunLabelled(rest, d, r))
  {
    hide RunLabelled, Goto;
    var end := [Ret(action)] + Rejoin(id, rest);
    RunIfNe(nr, JumpTo(id), Conditions(conds, id, end), d, r);
    ConditionsMeaning(conds, id, action, rest, d, r);
    GotoPastConditions(conds, id, end, d, r);
    GotoPast(Ret(action), Rejoin(id, rest), id, d, r);
    RejoinMeaning(id, rest, d, r);
  }

  function AllowAny(values: seq<u32>, rest: seq<Instr>): (code: seq<Instr>)
    ensures |code| == |rest| + 2 * |values|
  {
    if values == [] then rest else IfEq(values[0], ALLOW, AllowAny(values[1..], rest))
  }

  lemma {:induction false} AllowAnyMeaning(values: seq<u32>, rest: seq<Instr>, id: u32, d: Data, r: Regs)
    ensures RunLabelled(AllowAny(values, rest), d, r) ==
            if r.a in values then Return(RET_ALLOW, true) else RunLabelled(rest, d, r)
    ensures Goto(AllowAny(values, rest), id, d, r) == Goto(rest, id, d, r)
  {
    hide RunLabelled, Goto;
    if values != [] {
      RunIfEq(values[0], ALLOW, AllowAny(values[1..], rest), d, r);
      GotoPastTwo(Instr(JMP_JEQ_K, 0, 1, values[0]), ALLOW, AllowAny(values[1..], rest), id, d, r);
      AllowAnyMeaning(values[1..], rest, id, d, r);
    }
  }

  /** Allow syscall `nr` for the listed values of its first argument. */
  function AllowCommands(nr: u32, values: seq<u32>, id: u32, rest: seq<Instr>): seq<Instr> {
    IfNe(nr, JumpTo(id), [LoadArg(0)] + AllowAny(values, Rejoin(id, rest)))
  }

  lemma AllowCommandsMeaning(nr: u32, values: seq<u32>, id: u32, rest: seq<Instr>, d: Data, r: Regs)
    requires r.a == Nr(d)
    ensures RunLabelled(AllowCommands(nr, values, id, rest), d, r) ==
            Decided(if Nr(d) == nr && ArgLow(d, 0) in values then Some(RET_ALLOW) else None, RunLabelled(rest, d, r))
  {
    hide RunLabelled, Goto;
    var end := Rejoin(id, rest);
    var r' := r.(a := ArgLow(d, 0));
    RunIfNe(nr, JumpTo(id), [LoadArg(0)] + AllowAny(values, end), d, r);
    RunLoad(4, AllowAny(values, end), d, r);
    AllowAnyMeaning(values, end, id, d, r');
    AllowAnyMeaning(values, end, id, d, r);
    GotoPast(LoadArg(0), AllowAny(values, end), id, d, r);
    RejoinMeaning(id, rest, d, r);
    RejoinMeaning(id, rest, d, r');
  }

  /** Deny the listed syscalls when their protection argument asks for execution. */
  function DenyExec(nums: seq<u32>, check: u32, past: u32, rest: seq<Instr>): (code: seq<Instr>)
    ensures |code| == |rest| + 2 * |nums| + 7
  {
    if nums == [] then
      [JumpTo(past)] + ([Label(check)] + ([LoadArg(2)] +
        IfAny(PROT_EXEC, KILL, [LOAD_SYSCALL_NR] + ([Label(past)] + rest))))
    else IfEq(nums[0], JumpTo(check), DenyExec(nums[1..], check, past, rest))
  }

  lemma {:induction false} DenyExecMeaning(nums: seq<u32>, check: u32, past: u32, rest: seq<Instr>, d: Data, r: Regs)
    requires r.a == Nr(d) && check != past
    ensures RunLabelled(DenyExec(nums, check, past, rest), d, r) ==
            Decided(if Nr(d) in nums && And(ArgLow(d, 2), PROT_EXEC) != 0 then Some(RET_KILL) else None,
                    RunLabelled(rest, d, r))
    ensures Goto(DenyExec(nums, check, past, rest), check, d, r) ==
            Decided(if And(ArgLow(d, 2), PROT_EXEC) != 0 then Some(RET_KILL) else None, RunLabelled(rest, d, r))
  {
    hide RunLabelled, Goto;
    if nums == [] {
      DenyExecTail(check, past, rest, d, r);
    } else {
      var tail := DenyExec(nums[1..], check, past, rest);
      RunIfEq(nums[0], JumpTo(check), tail, d, r);
      DenyExecMeaning(nums[1..], check, past, rest, d, r);
      GotoPastTwo(Instr(JMP_JEQ_K, 0, 1, nums[0]), JumpTo(check), tail, check, d, r);
    }
  }

  lemma DenyExecTail(check: u32, past: u32, rest: seq<Instr>, d: Data, r: Regs)
    requires r.a == Nr(d) && check != past
    ensures RunLabelled(DenyExec([], check, past, rest), d, r) == RunLabelled(rest, d, r)
    ensures Goto(DenyExec([], check, past, rest), check, d, r) ==
            Decided(if And(ArgLow(d, 2), PROT_EXEC) != 0 then Some(RET_KILL) else None, RunLabelled(rest, d, r))
  {
    hide RunLabelled, Goto;
    var c5 := [Label(past)] + rest;
    var c4 := [LOAD_SYSCALL_NR] + c5;
    var c3 := IfAny(PROT_EXEC, KILL, c4);
    var c2 := [LoadArg(2)] + c3;
    var c1 := [Label(check)] + c2;
    var r' := r.(a := ArgLow(d, 2));
    RunBranch(JumpTo(past), c1, d, r);
    GotoPast(Label(check), c2, past, d, r);
    GotoPast(LoadArg(2), c3, past, d, r);
    GotoPastTwo(Instr(JMP_JSET_K, 0, 1, PROT_EXEC), KILL, c4, past, d, r);
    GotoPast(LOAD_SYSCALL_NR, c5, past, d, r);
    RunLabel(past, rest, d, r);
    GotoPast(JumpTo(past), c1, check, d, r);
    RunLabel(check, c2, d, r);
    RunLoad(8, c3, d, r);
    RunIfAny(PROT_EXEC, KILL, c4, d, r');
    RunLoad(0, c5, d, r');
    assert r'.(a := Nr(d)) == r;
  }

  // The default policy --------------------------------------------------------------

  datatype Options = Options(
    userNotif: bool,           // unotify monitor rather than ptrace
    preExecve: bool,           // sandboxing is enabled before execve
    continueSupported: bool,   // SECCOMP_USER_NOTIF_FLAG_CONTINUE
    handlesPtrace: bool,       // the user policy blocks ptrace itself
    handlesBpf: bool,
    safeBpf: bool,
    mapExec: bool)

  // Labels
  const PAST_SECCOMP: u32 := 0
  const PAST_EXECVEAT: u32 := 1
  const PAST_BPF: u32 := 2
  const CHECK_PROT_ARG: u32 := 3
  const PAST_MAP_EXEC: u32 := 4
  const PAST_SHMAT: u32 := 5
  const PAST_CLONE_UNSAFE: u32 := 6
  const PAST_UNSHARE_UNSAFE: u32 := 7
  const PAST_SECCOMP_NEW_LISTENER: u32 := 8
  const LABEL_COUNT: nat := 9

  const SECCOMP_CONDITIONS: seq<(nat, u32)> := [(3, EXECVE_MAGIC)]
  const EXECVEAT_CONDITIONS: seq<(nat, u32)> := [(4, AT_EMPTY_PATH), (5, EXECVE_MAGIC)]
  const EXEC_MAPPERS: seq<u32> := [NR_MMAP, NR_MPROTECT, NR_PKEY_MPROTECT]

  function UnsafeCloneFlags(o: Options): u32 {
    if o.userNotif then NEW_NAMESPACES else NEW_NAMESPACES + CLONE_UNTRACED
  }

  function ExecveAction(o: Options): u32 {
    if !o.userNotif then RET_TRACE + HOST_ARCH
    else if o.continueSupported then RET_USER_NOTIF
    else RET_ALLOW
  }

  function ArchPart(o: Options, rest: seq<Instr>): seq<Instr> {
    if o.userNotif then
      [Load(1)] + IfNe(AUDIT_ARCH_HOST, KILL, [LOAD_SYSCALL_NR] + rest)
    else
      [Load(1)] + IfEq(AUDIT_ARCH_I386, Ret(RET_TRACE + CPU_X86),
        IfNe(AUDIT_ARCH_HOST, Ret(RET_TRACE + CPU_UNKNOWN), [LOAD_SYSCALL_NR] + rest))
  }

  function SetupPart(o: Options, rest: seq<Instr>): seq<Instr> {
    var execveat :=
      if o.preExecve then AnswerIf(NR_EXECVEAT, EXECVEAT_CONDITIONS, ExecveAction(o), PAST_EXECVEAT, rest) else rest;
    if o.userNotif then AnswerIf(NR_SECCOMP, SECCOMP_CONDITIONS, RET_ALLOW, PAST_SECCOMP, execveat) else execveat
  }

  function MagicPart(o: Options, rest: seq<Instr>): seq<Instr> {
    IfEq(MAGIC_SYSCALL_NO, Ret(RET_ERRNO + MAGIC_SYSCALL_ERR),
      if o.handlesPtrace then rest else IfEq(NR_PTRACE, KILL, rest))
  }

  function BpfPart(o: Options, rest: seq<Instr>): seq<Instr> {
    var deny := if o.handlesBpf then rest else IfEq(NR_BPF, KILL, rest);
    if o.safeBpf then AllowCommands(NR_BPF, SAFE_BPF_COMMANDS, PAST_BPF, deny) else deny
  }

  function ExecPart(o: Options, rest: seq<Instr>): seq<Instr> {
    if o.mapExec then rest
    else DenyExec(EXEC_MAPPERS, CHECK_PROT_ARG, PAST_MAP_EXEC,
                  DenyFlags(NR_SHMAT, 2, SHM_EXEC, PAST_SHMAT, [LOAD_SYSCALL_NR] + rest))
  }

  function ClonePart(o: Options, rest: seq<Instr>): seq<Instr> {
    IfEq(NR_CLONE3, Ret(RET_ERRNO + ENOSYS),
      DenyFlags(NR_CLONE, 0, UnsafeCloneFlags(o), PAST_CLONE_UNSAFE, [LOAD_SYSCALL_NR] +
        DenyFlags(NR_UNSHARE, 0, NEW_NAMESPACES, PAST_UNSHARE_UNSAFE, [LOAD_SYSCALL_NR] + rest)))
  }

  function ListenerPart(): seq<Instr> {
    DenyFlags(NR_SECCOMP, 1, FILTER_FLAG_NEW_LISTENER, PAST_SECCOMP_NEW_LISTENER, [])
  }

  function DefaultCode(o: Options): seq<Instr> {
    ArchPart(o, SetupPart(o, MagicPart(o, BpfPart(o, ExecPart(o, ClonePart(o, ListenerPart()))))))
  }

  // Its meaning, part by part ----------------------------------------------------------

  function ArchDecision(o: Options, d: Data): Option<u32> {
    if Arch(d) == AUDIT_ARCH_HOST then None
    else if o.userNotif then Some(RET_KILL)
    else if Arch(d) == AUDIT_ARCH_I386 then Some(RET_TRACE + CPU_X86)
    else Some(RET_TRACE + CPU_UNKNOWN)
  }

  function SetupDecision(o: Options, d: Data): Option<u32> {
    if o.userNotif && Nr(d) == NR_SECCOMP && ArgLow(d, 3) == EXECVE_MAGIC then Some(RET_ALLOW)
    else if o.preExecve && Nr(d) == NR_EXECVEAT && ArgLow(d, 4) == AT_EMPTY_PATH && ArgLow(d, 5) == EXECVE_MAGIC
    then Some(ExecveAction(o))
    else None
  }

  function MagicDecision(o: Options, d: Data): Option<u32> {
    if Nr(d) == MAGIC_SYSCALL_NO then Some(RET_ERRNO + MAGIC_SYSCALL_ERR)
    else if !o.handlesPtrace && Nr(d) == NR_PTRACE then Some(RET_KILL)
    else None
  }

  function BpfDecision(o: Options, d: Data): Option<u32> {
    if Nr(d) != NR_BPF then None
    else if o.safeBpf && ArgLow(d, 0) in SAFE_BPF_COMMANDS then Some(RET_ALLOW)
    else if !o.handlesBpf then Some(RET_KILL)
    else None
  }

  function ExecDecision(o: Options, d: Data): Option<u32> {
    if o.mapExec then None
    else if Nr(d) in EXEC_MAPPERS && And(ArgLow(d, 2), PROT_EXEC) != 0 then Some(RET_KILL)
    else if Nr(d) == NR_SHMAT && And(ArgLow(d, 2), SHM_EXEC) != 0 then Some(RET_KILL)
    else None
  }

  function CloneDecision(o: Options, d: Data): Option<u32> {
    if Nr(d) == NR_CLONE3 then Some(RET_ERRNO + ENOSYS)
    else if Nr(d) == NR_CLONE && And(ArgLow(d, 0), UnsafeCloneFlags(o)) != 0 then Some(RET_KILL)
    else if Nr(d) == NR_UNSHARE && And(ArgLow(d, 0), NEW_NAMESPACES) != 0 then Some(RET_KILL)
    else None
  }

  function ListenerDecision(d: Data): Option<u32> {
    if Nr(d) == NR_SECCOMP && And(ArgLow(d, 1), FILTER_FLAG_NEW_LISTENER) != 0 then Some(RET_KILL) else None
  }

  function OrElse(v: Option<u32>, w: Option<u32>): Option<u32> { if v.Some? then v else w }

  /** The default policy as a decision table. */
  function DefaultDecision(o: Options, d: Data): Option<u32> {
    OrElse(ArchDecision(o, d), OrElse(SetupDecision(o, d), OrElse(MagicDecision(o, d),
      OrElse(BpfDecision(o, d), OrElse(ExecDecision(o, d), OrElse(CloneDecision(o, d), ListenerDecision(d)))))))
  }

  lemma ArchMeaning(o: Options, rest: seq<Instr>, d: Data, r: Regs)
    ensures RunLabelled(ArchPart(o, rest), d, r) ==
            Decided(ArchDecision(o, d), RunLabelled(rest, d, r.(a := Nr(d))))
  {
    hide RunLabelled, Goto;
    var r' := r.(a := Arch(d));
    var tail := [LOAD_SYSCALL_NR] + rest;
    RunLoad(0, rest, d, r');
    if o.userNotif {
      RunLoad(1, IfNe(AUDIT_ARCH_HOST, KILL, tail), d, r);
      RunIfNe(AUDIT_ARCH_HOST, KILL, tail, d, r');
    } else {
      var c := IfNe(AUDIT_ARCH_HOST, Ret(RET_TRACE + CPU_UNKNOWN), tail);
      RunLoad(1, IfEq(AUDIT_ARCH_I386, Ret(RET_TRACE + CPU_X86), c), d, r);
      RunIfEq(AUDIT_ARCH_I386, Ret(RET_TRACE + CPU_X86), c, d, r');
      RunIfNe(AUDIT_ARCH_HOST, Ret(RET_TRACE + CPU_UNKNOWN), tail, d, r');
    }
  }

  lemma SetupMeaning(o: Options, rest: seq<Instr>, d: Data, r: Regs)
    requires r.a == Nr(d)
    ensures RunLabelled(SetupPart(o, rest), d, r) == Decided(SetupDecision(o, d), RunLabelled(rest, d, r))
  {
    hide RunLabelled, Goto, AnswerIf;
    var execveat :=
      if o.preExecve then AnswerIf(NR_EXECVEAT, EXECVEAT_CONDITIONS, ExecveAction(o), PAST_EXECVEAT, rest) else rest;
    AnswerIfMeaning(NR_EXECVEAT, EXECVEAT_CONDITIONS, ExecveAction(o), PAST_EXECVEAT, rest, d, r);
    AnswerIfMeaning(NR_SECCOMP, SECCOMP_CONDITIONS, RET_ALLOW, PAST_SECCOMP, execveat, d, r);
    assert Hold(EXECVEAT_CONDITIONS, d) <==> ArgLow(d, 4) == AT_EMPTY_PATH && ArgLow(d, 5) == EXECVE_MAGIC by {
      assert EXECVEAT_CONDITIONS[0] == (4, AT_EMPTY_PATH) && EXECVEAT_CONDITIONS[1] == (5, EXECVE_MAGIC);
    }
    assert Hold(SECCOMP_CONDITIONS, d) <==> ArgLow(d, 3) == EXECVE_MAGIC by {
      assert SECCOMP_CONDITIONS[0] == (3, EXECVE_MAGIC);
    }
  }

  lemma MagicMeaning(o: Options, rest: seq<Instr>, d: Data, r: Regs)
    requires r.a == Nr(d)
    ensures RunLabelled(MagicPart(o, rest), d, r) == Decided(MagicDecision(o, d), RunLabelled(rest, d, r))
  {
    hide RunLabelled, Goto;
    RunIfEq(NR_PTRACE, KILL, rest, d, r);
    RunIfEq(MAGIC_SYSCALL_NO, Ret(RET_ERRNO + MAGIC_SYSCALL_ERR),
            if o.handlesPtrace then rest else IfEq(NR_PTRACE, KILL, rest), d, r);
  }

  lemma BpfMeaning(o: Options, rest: seq<Instr>, d: Data, r: Regs)
    requires r.a == Nr(d)
    ensures RunLabelled(BpfPart(o, rest), d, r) == Decided(BpfDecision(o, d), RunLabelled(rest, d, r))
  {
    hide RunLabelled, Goto, AllowCommands;
    RunIfEq(NR_BPF, KILL, rest, d, r);
    AllowCommandsMeaning(NR_BPF, SAFE_BPF_COMMANDS, PAST_BPF,
                         if o.handlesBpf then rest else IfEq(NR_BPF, KILL, rest), d, r);
  }

  lemma ExecMeaning(o: Options, rest: seq<Instr>, d: Data, r: Regs)
    requires r.a == Nr(d)
    ensures RunLabelled(ExecPart(o, rest), d, r) == Decided(ExecDecision(o, d), RunLabelled(rest, d, r))
  {
    hide RunLabelled, Goto, DenyExec, DenyFlags;
    var tail := [LOAD_SYSCALL_NR] + rest;
    DenyExecMeaning(EXEC_MAPPERS, CHECK_PROT_ARG, PAST_MAP_EXEC,
                    DenyFlags(NR_SHMAT, 2, SHM_EXEC, PAST_SHMAT, tail), d, r);
    DenyFlagsMeaning(NR_SHMAT, 2, SHM_EXEC, PAST_SHMAT, tail, d, r);
    RunLoad(0, rest, d, r);
    RunLoad(0, rest, d, r.(a := ArgLow(d, 2)));
    assert r.(a := Nr(d)) == r;
  }

  lemma CloneMeaning(o: Options, rest: seq<Instr>, d: Data, r: Regs)
    requires r.a == Nr(d)
    ensures RunLabelled(ClonePart(o, rest), d, r) == Decided(CloneDecision(o, d), RunLabelled(rest, d, r))
  {
    hide RunLabelled, Goto, DenyFlags;
    var r' := r.(a := ArgLow(d, 0));
    var t2 := [LOAD_SYSCALL_NR] + rest;
    var c2 := DenyFlags(NR_UNSHARE, 0, NEW_NAMESPACES, PAST_UNSHARE_UNSAFE, t2);
    var t1 := [LOAD_SYSCALL_NR] + c2;
    var c1 := DenyFlags(NR_CLONE, 0, UnsafeCloneFlags(o), PAST_CLONE_UNSAFE, t1);
    RunIfEq(NR_CLONE3, Ret(RET_ERRNO + ENOSYS), c1, d, r);
    DenyFlagsMeaning(NR_CLONE, 0, UnsafeCloneFlags(o), PAST_CLONE_UNSAFE, t1, d, r);
    RunLoad(0, c2, d, r);
    RunLoad(0, c2, d, r');
    DenyFlagsMeaning(NR_UNSHARE, 0, NEW_NAMESPACES, PAST_UNSHARE_UNSAFE, t2, d, r);
    RunLoad(0, rest, d, r);
    RunLoad(0, rest, d, r');
    assert r.(a := Nr(d)) == r && r'.(a := Nr(d)) == r;
  }

  lemma ListenerMeaning(d: Data, r: Regs)
    requires r.a == Nr(d)
    ensures RunLabelled(ListenerPart(), d, r) ==
            Decided(ListenerDecision(d), Exit(if Nr(d) == NR_SECCOMP then r.(a := ArgLow(d, 1)) else r))
  {
    DenyFlagsMeaning(NR_SECCOMP, 1, FILTER_FLAG_NEW_LISTENER, PAST_SECCOMP_NEW_LISTENER, [], d, r);
  }

  /** The labelled default policy answers what the table says, and otherwise leaves X and M alone. */
  lemma DefaultCodeMeaning(o: Options, d: Data, r: Regs)
    ensures RunLabelled(DefaultCode(o), d, r) ==
            Decided(DefaultDecision(o, d),
                    Exit(r.(a := if Nr(d) == NR_SECCOMP then ArgLow(d, 1) else Nr(d))))
  {
    hide RunLabelled, ArchPart, SetupPart, MagicPart, BpfPart, ExecPart, ClonePart, ListenerPart;
    hide ArchDecision, SetupDecision, MagicDecision, BpfDecision, ExecDecision, CloneDecision, ListenerDecision;
    var r' := r.(a := Nr(d));
    var c6 := ListenerPart();
    var c5 := ClonePart(o, c6);
    var c4 := ExecPart(o, c5);
    var c3 := BpfPart(o, c4);
    var c2 := MagicPart(o, c3);
    var c1 := SetupPart(o, c2);
    ArchMeaning(o, c1, d, r);
    SetupMeaning(o, c2, d, r');
    MagicMeaning(o, c3, d, r');
    BpfMeaning(o, c4, d, r');
    ExecMeaning(o, c5, d, r');
    CloneMeaning(o, c6, d, r');
    ListenerMeaning(d, r');
  }

  // It resolves, and its jumps stay inside ------------------------------------------------

  ghost predicate Fine(code: seq<Instr>, labels: set<u32>) {
    && Resolve(code, LABEL_COUNT).Some?
    && LabelsOf(code) == labels
    && JumpsInside(Resolve(code, LABEL_COUNT).value)
  }

  lemma ResolveCons(i: Instr, rest: seq<Instr>)
    requires Resolve(rest, LABEL_COUNT).Some? && |rest| < TWO32
    requires i.code == JMP_JA ==> i.k < LABEL_COUNT && (IsLabel(i) || IsJump(i))
    requires IsLabel(i) ==> i.k !in LabelsOf(rest)
    requires IsJump(i) ==> i.k in LabelsOf(rest)
    ensures var head := ResolveOne(i, rest, LABEL_COUNT);
            && head.Some?
            && Resolve([i] + rest, LABEL_COUNT) == Some([head.value] + Resolve(rest, LABEL_COUNT).value)
  {
    hide ResolveOne;
    assert ([i] + rest)[1..] == rest;
    ResolveOneSucceeds(i, rest);
  }

  lemma ResolveOneSucceeds(i: Instr, rest: seq<Instr>)
    requires |rest| < TWO32
    requires i.code == JMP_JA ==> i.k < LABEL_COUNT && (IsLabel(i) || IsJump(i))
    requires IsLabel(i) ==> i.k !in LabelsOf(rest)
    requires IsJump(i) ==> i.k in LabelsOf(rest)
    ensures ResolveOne(i, rest, LABEL_COUNT).Some?
  {
    hide LabelsOf, Seek;
    SeekIffLabel(rest, i.k);
  }

  lemma LabelsOfCons(i: Instr, rest: seq<Instr>)
    ensures LabelsOf([i] + rest) == LabelsOf(rest) + if IsLabel(i) then {i.k} else {}
  {
    assert ([i] + rest)[1..] == rest;
  }

  lemma FineCons(i: Instr, rest: seq<Instr>, labels: set<u32>)
    requires Fine(rest, labels) && |rest| < TWO32
    requires i.code == JMP_JA ==> i.k < LABEL_COUNT && (IsLabel(i) || IsJump(i))
    requires IsLabel(i) ==> i.k !in labels
    requires IsJump(i) ==> i.k in labels
    requires i.code != JMP_JA ==> JumpFits(i, |rest|)
    ensures Fine([i] + rest, labels + if IsLabel(i) then {i.k} else {})
  {
    hide Resolve, LabelsOf, JumpsInside;
    ResolveCons(i, rest);
    LabelsOfCons(i, rest);
    PrependJumpsInside([ResolveOne(i, rest, LABEL_COUNT).value], Resolve(rest, LABEL_COUNT).value);
  }

  lemma FinePlain(i: Instr, rest: seq<Instr>, labels: set<u32>)
    requires Fine(rest, labels) && |rest| < TWO32
    requires i.code == LD_W_ABS || i.code == RET_K
    ensures Fine([i] + rest, labels)
  {
    hide Fine;
    FineCons(i, rest, labels);
    assert labels + {} == labels;
  }

  lemma FineIf(test: Instr, i: Instr, rest: seq<Instr>, labels: set<u32>)
    requires Fine(rest, labels) && |rest| + 1 < TWO32
    requires test.code == JMP_JEQ_K || test.code == JMP_JSET_K
    requires test.jt <= 1 && test.jf <= 1
    requires IsBranch(i)
    requires IsJump(i) ==> i.k in labels && i.k < LABEL_COUNT
    ensures Fine([test, i] + rest, labels)
  {
    hide Fine;
    assert labels + {} == labels;
    FineCons(i, rest, labels);
    FineCons(test, [i] + rest, labels);
    assert [test, i] + rest == [test] + ([i] + rest);
  }

  lemma FineDenyFlags(nr: u32, i: nat, flags: u32, id: u32, rest: seq<Instr>, labels: set<u32>)
    requires i < 6 && id < LABEL_COUNT && id !in labels
    requires Fine(rest, labels) && |rest| < 0x1_0000
    ensures Fine(DenyFlags(nr, i, flags, id, rest), labels + {id})
  {
    hide Fine;
    var c2 := [Label(id)] + rest;
    var c1 := IfAny(flags, KILL, c2);
    FineCons(Label(id), rest, labels);
    FineIf(Instr(JMP_JSET_K, 0, 1, flags), KILL, c2, labels + {id});
    FinePlain(LoadArg(i), c1, labels + {id});
    FineIf(Instr(JMP_JEQ_K, 1, 0, nr), JumpTo(id), [LoadArg(i)] + c1, labels + {id});
  }

  lemma FineRejoin(id: u32, rest: seq<Instr>, labels: set<u32>)
    requires id < LABEL_COUNT && id !in labels
    requires Fine(rest, labels) && |rest| < 0x1_0000
    ensures Fine(Rejoin(id, rest), labels + {id})
  {
    hide Fine;
    FinePlain(LOAD_SYSCALL_NR, rest, labels);
    FineCons(Label(id), [LOAD_SYSCALL_NR] + rest, labels);
  }

  lemma {:induction false} FineConditions(conds: seq<(nat, u32)>, id: u32, rest: seq<Instr>, labels: set<u32>)
    requires forall c <- conds :: c.0 < 6
    requires id < LABEL_COUNT && id in labels
    requires Fine(rest, labels) && |rest| + 3 * |conds| < 0x1_0000
    ensures Fine(Conditions(conds, id, rest), labels)
  {
    hide Fine;
    if conds != [] {
      var tail := Conditions(conds[1..], id, rest);
      FineConditions(conds[1..], id, rest, labels);
      FineIf(Instr(JMP_JEQ_K, 1, 0, conds[0].1), JumpTo(id), tail, labels);
      FinePlain(LoadArg(conds[0].0), IfNe(conds[0].1, JumpTo(id), tail), labels);
    }
  }

  lemma FineAnswerIf(nr: u32, conds: seq<(nat, u32)>, action: u32, id: u32, rest: seq<Instr>, labels: set<u32>)
    requires forall c <- conds :: c.0 < 6
    requires id < LABEL_COUNT && id !in labels
    requires Fine(rest, labels) && |rest| + 3 * |conds| < 0x1000
    ensures Fine(AnswerIf(nr, conds, action, id, rest), labels + {id})
  {
    hide Fine;
    var end := [Ret(action)] + Rejoin(id, rest);
    FineRejoin(id, rest, labels);
    FinePlain(Ret(action), Rejoin(id, rest), labels + {id});
    FineConditions(conds, id, end, labels + {id});
    FineIf(Instr(JMP_JEQ_K, 1, 0, nr), JumpTo(id), Conditions(conds, id, end), labels + {id});
  }

  lemma {:induction false} FineAllowAny(values: seq<u32>, rest: seq<Instr>, labels: set<u32>)
    requires Fine(rest, labels) && |rest| + 2 * |values| < 0x1_0000
    ensures Fine(AllowAny(values, rest), labels)
  {
    hide Fine;
    if values != [] {
      FineAllowAny(values[1..], rest, labels);
      FineIf(Instr(JMP_JEQ_K, 0, 1, values[0]), ALLOW, AllowAny(values[1..], rest), labels);
    }
  }

  lemma FineAllowCommands(nr: u32, values: seq<u32>, id: u32, rest: seq<Instr>, labels: set<u32>)
    requires id < LABEL_COUNT && id !in labels
    requires Fine(rest, labels) && |rest| + 2 * |values| < 0x1000
    ensures Fine(AllowCommands(nr, values, id, rest), labels + {id})
  {
    hide Fine;
    var end := Rejoin(id, rest);
    FineRejoin(id, rest, labels);
    FineAllowAny(values, end, labels + {id});
    FinePlain(LoadArg(0), AllowAny(values, end), labels + {id});
    FineIf(Instr(JMP_JEQ_K, 1, 0, nr), JumpTo(id), [LoadArg(0)] + AllowAny(values, end), labels + {id});
  }

  lemma {:induction false} FineDenyExec(nums: seq<u32>, check: u32, past: u32, rest: seq<Instr>, labels: set<u32>)
    requires check < LABEL_COUNT && past < LABEL_COUNT && check != past
    requires check !in labels && past !in labels
    requires Fine(rest, labels) && |rest| + 2 * |nums| < 0x1000
    ensures Fine(DenyExec(nums, check, past, rest), labels + {past} + {check})
  {
    hide Fine;
    var l1 := labels + {past};
    var l2 := l1 + {check};
    if nums == [] {
      var c5 := [Label(past)] + rest;
      var c4 := [LOAD_SYSCALL_NR] + c5;
      var c3 := IfAny(PROT_EXEC, KILL, c4);
      var c2 := [LoadArg(2)] + c3;
      FineCons(Label(past), rest, labels);
      FinePlain(LOAD_SYSCALL_NR, c5, l1);
      FineIf(Instr(JMP_JSET_K, 0, 1, PROT_EXEC), KILL, c4, l1);
      FinePlain(LoadArg(2), c3, l1);
      FineCons(Label(check), c2, l1);
      FineCons(JumpTo(past), [Label(check)] + c2, l2);
      assert l2 + {} == l2;
    } else {
      FineDenyExec(nums[1..], check, past, rest, labels);
      FineIf(Instr(JMP_JEQ_K, 0, 1, nums[0]), JumpTo(check), DenyExec(nums[1..], check, past, rest), l2);
    }
  }

  lemma FineTail(o: Options)
    ensures Fine(ClonePart(o, ListenerPart()), {PAST_SECCOMP_NEW_LISTENER, PAST_UNSHARE_UNSAFE, PAST_CLONE_UNSAFE})
  {
    assert Fine([], {});
    hide Fine;
    var c6 := ListenerPart();
    FineDenyFlags(NR_SECCOMP, 1, FILTER_FLAG_NEW_LISTENER, PAST_SECCOMP_NEW_LISTENER, [], {});
    var l6 := {} + {PAST_SECCOMP_NEW_LISTENER};
    FinePlain(LOAD_SYSCALL_NR, c6, l6);
    var t2 := [LOAD_SYSCALL_NR] + c6;
    FineDenyFlags(NR_UNSHARE, 0, NEW_NAMESPACES, PAST_UNSHARE_UNSAFE, t2, l6);
    var c2 := DenyFlags(NR_UNSHARE, 0, NEW_NAMESPACES, PAST_UNSHARE_UNSAFE, t2);
    var l2 := l6 + {PAST_UNSHARE_UNSAFE};
    FinePlain(LOAD_SYSCALL_NR, c2, l2);
    FineDenyFlags(NR_CLONE, 0, UnsafeCloneFlags(o), PAST_CLONE_UNSAFE, [LOAD_SYSCALL_NR] + c2, l2);
    var c1 := DenyFlags(NR_CLONE, 0, UnsafeCloneFlags(o), PAST_CLONE_UNSAFE, [LOAD_SYSCALL_NR] + c2);
    FineIf(Instr(JMP_JEQ_K, 0, 1, NR_CLONE3), Ret(RET_ERRNO + ENOSYS), c1, l2 + {PAST_CLONE_UNSAFE});
    assert l2 + {PAST_CLONE_UNSAFE} == {PAST_SECCOMP_NEW_LISTENER, PAST_UNSHARE_UNSAFE, PAST_CLONE_UNSAFE};
  }

  /** At most `bound` instructions, and no label below `lo`. */
  ghost predicate FineBelow(code: seq<Instr>, bound: nat, lo: u32) {
    && |code| <= bound
    && Fine(code, LabelsOf(code))
    && forall l: u32 :: l in LabelsOf(code) ==> l >= lo
  }

  lemma ShowFineBelow(code: seq<Instr>, labels: set<u32>, bound: nat, lo: u32)
    requires Fine(code, labels) && |code| <= bound
    requires forall l: u32 :: l in labels ==> l >= lo
    ensures FineBelow(code, bound, lo)
  {
  }

  lemma FineExecPart(o: Options, rest: seq<Instr>)
    requires FineBelow(rest, 0x100, PAST_CLONE_UNSAFE)
    ensures FineBelow(ExecPart(o, rest), 0x200, CHECK_PROT_ARG)
  {
    hide Fine;
    var labels := LabelsOf(rest);
    if !o.mapExec {
      var tail := [LOAD_SYSCALL_NR] + rest;
      var c := DenyFlags(NR_SHMAT, 2, SHM_EXEC, PAST_SHMAT, tail);
      FinePlain(LOAD_SYSCALL_NR, rest, labels);
      FineDenyFlags(NR_SHMAT, 2, SHM_EXEC, PAST_SHMAT, tail, labels);
      FineDenyExec(EXEC_MAPPERS, CHECK_PROT_ARG, PAST_MAP_EXEC, c, labels + {PAST_SHMAT});
      var more := labels + {PAST_SHMAT} + {PAST_MAP_EXEC} + {CHECK_PROT_ARG};
      ShowFineBelow(ExecPart(o, rest), more, 0x200, CHECK_PROT_ARG);
    }
  }

  lemma FineBpfPart(o: Options, rest: seq<Instr>)
    requires FineBelow(rest, 0x200, CHECK_PROT_ARG)
    ensures FineBelow(BpfPart(o, rest), 0x300, PAST_BPF)
  {
    hide Fine;
    var labels := LabelsOf(rest);
    var deny := if o.handlesBpf then rest else IfEq(NR_BPF, KILL, rest);
    FineIf(Instr(JMP_JEQ_K, 0, 1, NR_BPF), KILL, rest, labels);
    FineAllowCommands(NR_BPF, SAFE_BPF_COMMANDS, PAST_BPF, deny, labels);
    ShowFineBelow(BpfPart(o, rest), if o.safeBpf then labels + {PAST_BPF} else labels, 0x300, PAST_BPF);
  }

  lemma FineMagicPart(o: Options, rest: seq<Instr>)
    requires FineBelow(rest, 0x300, PAST_BPF)
    ensures FineBelow(MagicPart(o, rest), 0x310, PAST_BPF)
  {
    hide Fine;
    var labels := LabelsOf(rest);
    FineIf(Instr(JMP_JEQ_K, 0, 1, NR_PTRACE), KILL, rest, labels);
    FineIf(Instr(JMP_JEQ_K, 0, 1, MAGIC_SYSCALL_NO), Ret(RET_ERRNO + MAGIC_SYSCALL_ERR),
           if o.handlesPtrace then rest else IfEq(NR_PTRACE, KILL, rest), labels);
    ShowFineBelow(MagicPart(o, rest), labels, 0x310, PAST_BPF);
  }

  lemma FineSetupPart(o: Options, rest: seq<Instr>)
    requires FineBelow(rest, 0x310, PAST_BPF)
    ensures FineBelow(SetupPart(o, rest), 0x400, 0)
  {
    hide Fine;
    var labels := LabelsOf(rest);
    var execveat :=
      if o.preExecve then AnswerIf(NR_EXECVEAT, EXECVEAT_CONDITIONS, ExecveAction(o), PAST_EXECVEAT, rest) else rest;
    var l1 := if o.preExecve then labels + {PAST_EXECVEAT} else labels;
    FineAnswerIf(NR_EXECVEAT, EXECVEAT_CONDITIONS, ExecveAction(o), PAST_EXECVEAT, rest, labels);
    FineAnswerIf(NR_SECCOMP, SECCOMP_CONDITIONS, RET_ALLOW, PAST_SECCOMP, execveat, l1);
    ShowFineBelow(SetupPart(o, rest), if o.userNotif then l1 + {PAST_SECCOMP} else l1, 0x400, 0);
  }

  lemma FineArchPart(o: Options, rest: seq<Instr>)
    requires FineBelow(rest, 0x400, 0)
    ensures FineBelow(ArchPart(o, rest), 0x410, 0)
  {
    hide Fine;
    var labels := LabelsOf(rest);
    var tail := [LOAD_SYSCALL_NR] + rest;
    FinePlain(LOAD_SYSCALL_NR, rest, labels);
    if o.userNotif {
      FineIf(Instr(JMP_JEQ_K, 1, 0, AUDIT_ARCH_HOST), KILL, tail, labels);
      FinePlain(Load(1), IfNe(AUDIT_ARCH_HOST, KILL, tail), labels);
    } else {
      var c := IfNe(AUDIT_ARCH_HOST, Ret(RET_TRACE + CPU_UNKNOWN), tail);
      FineIf(Instr(JMP_JEQ_K, 1, 0, AUDIT_ARCH_HOST), Ret(RET_TRACE + CPU_UNKNOWN), tail, labels);
      FineIf(Instr(JMP_JEQ_K, 0, 1, AUDIT_ARCH_I386), Ret(RET_TRACE + CPU_X86), c, labels);
      FinePlain(Load(1), IfEq(AUDIT_ARCH_I386, Ret(RET_TRACE + CPU_X86), c), labels);
    }
    ShowFineBelow(ArchPart(o, rest), labels, 0x410, 0);
  }

  lemma FineClonePart(o: Options)
    ensures FineBelow(ClonePart(o, ListenerPart()), 0x100, PAST_CLONE_UNSAFE)
  {
    FineTail(o);
    hide Fine;
    ShowFineBelow(ClonePart(o, ListenerPart()),
                  {PAST_SECCOMP_NEW_LISTENER, PAST_UNSHARE_UNSAFE, PAST_CLONE_UNSAFE}, 0x100, PAST_CLONE_UNSAFE);
  }

  lemma FineDefaultCode(o: Options)
    ensures FineBelow(DefaultCode(o), 0x410, 0)
  {
    hide FineBelow, ArchPart, SetupPart, MagicPart, BpfPart, ExecPart, ClonePart, ListenerPart;
    var c5 := ClonePart(o, ListenerPart());
    var c4 := ExecPart(o, c5);
    var c3 := BpfPart(o, c4);
    var c2 := MagicPart(o, c3);
    FineClonePart(o);
    FineExecPart(o, c5);
    FineBpfPart(o, c4);
    FineMagicPart(o, c3);
    FineSetupPart(o, c2);
    FineArchPart(o, SetupPart(o, c2));
  }

  /** bpf_resolve_jumps accepts the default policy under every combination of options. */
  lemma DefaultCodeResolves(o: Options)
    ensures 1 <= |DefaultCode(o)| <= BPF_MAXINSNS
    ensures Resolve(DefaultCode(o), LABEL_COUNT).Some?
    ensures JumpsInside(Resolve(DefaultCode(o), LABEL_COUNT).value)
  {
    hide SetupPart, JumpsInside, Resolve, LabelsOf;
    FineDefaultCode(o);
  }

  // The whole policy --------------------------------------------------------------------

  function GetDefaultPolicy(o: Options): seq<Instr> {
    DefaultCodeResolves(o);
    Resolve(DefaultCode(o), LABEL_COUNT).value
  }

  function GetPolicy(o: Options, userPolicy: seq<Instr>): seq<Instr> {
    GetDefaultPolicy(o) + ([LOAD_SYSCALL_NR] + (userPolicy + [KILL]))
  }

  /** The default policy, resolved, is the decision table. */
  lemma DefaultPolicyMeaning(o: Options, d: Data, r: Regs)
    ensures JumpsInside(GetDefaultPolicy(o))
    ensures Run(GetDefaultPolicy(o), d, r) ==
            Decided(DefaultDecision(o, d),
                    Exit(r.(a := if Nr(d) == NR_SECCOMP then ArgLow(d, 1) else Nr(d))))
  {
    hide Run, RunLabelled, DefaultCode, DefaultDecision, JumpsInside, Resolve;
    DefaultCodeResolves(o);
    ResolvePreservesMeaning(DefaultCode(o), LABEL_COUNT, d, r);
    DefaultCodeMeaning(o, d, r);
  }

  /**
   * The default rules come first: whatever code follows, their answer stands; otherwise
   * that code runs with the syscall number in A and no other register touched.
   */
  lemma DefaultRulesDominate(o: Options, suffix: seq<Instr>, d: Data, r: Regs)
    ensures Run(GetDefaultPolicy(o) + ([LOAD_SYSCALL_NR] + suffix), d, r) ==
            Decided(DefaultDecision(o, d), Run(suffix, d, r.(a := Nr(d))))
  {
    hide DefaultDecision, GetDefaultPolicy;
    DefaultPolicyMeaning(o, d, r);
    RunAppend(GetDefaultPolicy(o), [LOAD_SYSCALL_NR] + suffix, d, r);
    RunReload(suffix, d, r.(a := if Nr(d) == NR_SECCOMP then ArgLow(d, 1) else Nr(d)));
  }

  lemma RunReload(rest: seq<Instr>, d: Data, r: Regs)
    ensures Run([LOAD_SYSCALL_NR] + rest, d, r) == Run(rest, d, r.(a := Nr(d)))
  {
    var c := [LOAD_SYSCALL_NR] + rest;
    assert Step(c[0], d, r) == Continue(r.(a := Nr(d)), 0);
    assert c[1..] == rest;
  }

  /** Evaluation of a whole policy: default rules, user code, and KILL when nobody answered. */
  lemma PolicyAnswers(o: Options, userPolicy: seq<Instr>, d: Data)
    requires JumpsInside(userPolicy)
    ensures Run(GetPolicy(o, userPolicy), d, INITIAL) ==
            Decided(DefaultDecision(o, d),
                    match Run(userPolicy, d, INITIAL.(a := Nr(d)))
                    case Exit(_) => Return(RET_KILL, true)
                    case other => other)
  {
    hide DefaultDecision, GetDefaultPolicy, Run;
    DefaultRulesDominate(o, userPolicy + [KILL], d, INITIAL);
    RunAppend(userPolicy, [KILL], d, INITIAL.(a := Nr(d)));
    forall r: Regs ensures Run([KILL], d, r) == Return(RET_KILL, true) {
      RunReturn(RET_KILL, d, r);
    }
  }

  lemma RunReturn(v: u32, d: Data, r: Regs)
    ensures Run([Ret(v)], d, r) == Return(v, true)
  {
  }

  /** Assembling the policy: resolve the labels in place, then append the rest. */
  method AssemblePolicy(o: Options, userPolicy: seq<Instr>) returns (policy: seq<Instr>)
    ensures policy == GetPolicy(o, userPolicy)
  {
    var code := DefaultCode(o);
    DefaultCodeResolves(o);
    hide DefaultCode, Resolve, JumpsInside;
    var filter := new Instr[|code|](i requires 0 <= i < |code| => code[i]);
    assert filter[..] == code;
    var ok := BpfResolveJumps(filter, LABEL_COUNT);
    assert ok;
    policy := filter[..];
    policy := policy + [LOAD_SYSCALL_NR];
    policy := policy + userPolicy;
    policy := policy + [KILL];
    assert policy == filter[..] + ([LOAD_SYSCALL_NR] + (userPolicy + [KILL]));
  }

  /**
   * The dangerous calls named in the source are denied on the host architecture, whatever the user policy.
   * The two clauses about execution need a policy with executable mappings off.
   */
  lemma DangerousCallsAreDenied(o: Options, suffix: seq<Instr>, d: Data)
    requires Arch(d) == AUDIT_ARCH_HOST
    requires || (Nr(d) == NR_CLONE && And(ArgLow(d, 0), UnsafeCloneFlags(o)) != 0)
             || (Nr(d) == NR_UNSHARE && And(ArgLow(d, 0), NEW_NAMESPACES) != 0)
             || (!o.mapExec && Nr(d) in EXEC_MAPPERS && And(ArgLow(d, 2), PROT_EXEC) != 0)
             || (!o.mapExec && Nr(d) == NR_SHMAT && And(ArgLow(d, 2), SHM_EXEC) != 0)
             || (!o.handlesPtrace && Nr(d) == NR_PTRACE)
    ensures Meaning(GetDefaultPolicy(o) + ([LOAD_SYSCALL_NR] + suffix), d) == Some(RET_KILL)
  {
    hide GetDefaultPolicy, Run;
    DefaultRulesDominate(o, suffix, d, INITIAL);
    assert NR_MMAP in EXEC_MAPPERS && NR_CLONE !in EXEC_MAPPERS && NR_UNSHARE !in EXEC_MAPPERS;
    assert MAGIC_SYSCALL_NO !in EXEC_MAPPERS && NR_SECCOMP !in EXEC_MAPPERS && NR_EXECVEAT !in EXEC_MAPPERS;
    assert NR_BPF !in EXEC_MAPPERS && NR_PTRACE !in EXEC_MAPPERS;
  }
}
