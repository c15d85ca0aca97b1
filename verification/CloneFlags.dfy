/** What the masks of the default policy stand for, flag by flag and monitor by monitor. */
module CloneFlags {
  import opened Words
  import opened Bits
  import opened Bpf
  import opened SyscallPolicy
  import opened DefaultPolicy

  // CLONE_NEWNS, NEWCGROUP, NEWUTS, NEWIPC, NEWUSER, NEWPID and NEWNET as bit numbers
  const NAMESPACE_BITS: seq<nat> := [17, 25, 26, 27, 28, 29, 30]
  const UNTRACED_BIT: nat := 23

  lemma Powers()
    ensures Pow2(17) == 0x2_0000 && Pow2(23) == 0x80_0000 && Pow2(25) == 0x200_0000 && Pow2(26) == 0x400_0000
    ensures Pow2(27) == 0x800_0000 && Pow2(28) == 0x1000_0000 && Pow2(29) == 0x2000_0000 && Pow2(30) == 0x4000_0000
  {
    assert Pow2(8) == 0x100;
    assert Pow2(16) == 0x1_0000;
    assert Pow2(24) == 0x100_0000;
    assert Pow2(28) == 0x1000_0000;
  }

  lemma FromSeven(b: seq<nat>)
    requires |b| == 7
    ensures FromBits(b) == Pow2(b[0]) + Pow2(b[1]) + Pow2(b[2]) + Pow2(b[3]) + Pow2(b[4]) + Pow2(b[5]) + Pow2(b[6])
  {
    hide Pow2;
    assert b[..6][..5] == b[..5] && b[..5][..4] == b[..4] && b[..4][..3] == b[..3];
    assert b[..3][..2] == b[..2] && b[..2][..1] == b[..1] && b[..1][..0] == [];
    assert FromBits(b[..1]) == Pow2(b[0]);
    assert FromBits(b[..2]) == FromBits(b[..1]) + Pow2(b[1]);
    assert FromBits(b[..3]) == FromBits(b[..2]) + Pow2(b[2]);
    assert FromBits(b[..4]) == FromBits(b[..3]) + Pow2(b[3]);
    assert FromBits(b[..5]) == FromBits(b[..4]) + Pow2(b[4]);
    assert FromBits(b[..6]) == FromBits(b[..5]) + Pow2(b[5]);
  }

  /** The mask of both rules is made of the seven namespace flags and nothing else. */
  lemma NamespaceMask(i: nat)
    ensures Bit(NEW_NAMESPACES, i) <==> i in NAMESPACE_BITS
  {
    hide Pow2, Bit, FromBits;
    Powers();
    FromSeven(NAMESPACE_BITS);
    FromBitsHas(NAMESPACE_BITS, i);
  }

  /** Under ptrace CLONE_UNTRACED is refused with them. */
  lemma CloneMask(o: Options, i: nat)
    ensures Bit(UnsafeCloneFlags(o), i) <==> i in NAMESPACE_BITS || (!o.userNotif && i == UNTRACED_BIT)
  {
    hide Pow2, Bit;
    Powers();
    NamespaceMask(i);
    NamespaceMask(UNTRACED_BIT);
    AddedBit(NEW_NAMESPACES, UNTRACED_BIT, i);
  }

  /** A bit of `flags` that the rule for the syscall refuses. */
  predicate Unsafe(o: Options, nr: u32, flags: u32, i: nat) {
    Bit(flags, i) && (i in NAMESPACE_BITS || (nr == NR_CLONE && !o.userNotif && i == UNTRACED_BIT))
  }

  /**
   * clone and unshare are killed by the default rules exactly if they ask for a new namespace, or under
   * ptrace for a child that is not traced; otherwise they are left to the rules that follow.
   */
  lemma NewNamespacesAreDenied(o: Options, suffix: seq<Instr>, d: Data, r: Regs)
    requires Arch(d) == AUDIT_ARCH_HOST && (Nr(d) == NR_CLONE || Nr(d) == NR_UNSHARE)
    ensures Run(GetDefaultPolicy(o) + ([LOAD_SYSCALL_NR] + suffix), d, r) ==
            if exists i: nat :: Unsafe(o, Nr(d), ArgLow(d, 0), i) then Return(RET_KILL, true)
            else Run(suffix, d, r.(a := Nr(d)))
  {
    hide Run, GetDefaultPolicy, Bit, And, Step;
    var mask := if Nr(d) == NR_CLONE then UnsafeCloneFlags(o) else NEW_NAMESPACES;
    DefaultRulesDominate(o, suffix, d, r);
    MaskIff(ArgLow(d, 0), mask);
    forall i: nat ensures Share(ArgLow(d, 0), mask, i) <==> Unsafe(o, Nr(d), ArgLow(d, 0), i) {
      CloneMask(o, i);
      NamespaceMask(i);
    }
    assert DefaultDecision(o, d) == if And(ArgLow(d, 0), mask) != 0 then Some(RET_KILL) else None by {
      NoOtherRule(o, d);
    }
  }

  lemma NoOtherRule(o: Options, d: Data)
    requires Arch(d) == AUDIT_ARCH_HOST && (Nr(d) == NR_CLONE || Nr(d) == NR_UNSHARE)
    ensures DefaultDecision(o, d) == CloneDecision(o, d)
  {
    assert Nr(d) !in EXEC_MAPPERS;
  }

  /** The execveat of the set-up is traced under ptrace, notified or allowed under user notification. */
  lemma FirstExecveat(o: Options, suffix: seq<Instr>, d: Data, r: Regs)
    requires Arch(d) == AUDIT_ARCH_HOST && o.preExecve
    requires Nr(d) == NR_EXECVEAT && ArgLow(d, 4) == AT_EMPTY_PATH && ArgLow(d, 5) == EXECVE_MAGIC
    ensures var answer := Run(GetDefaultPolicy(o) + ([LOAD_SYSCALL_NR] + suffix), d, r);
            && (!o.userNotif ==> answer == Return(0x7ff0_CAF1, true))
            && (o.userNotif && o.continueSupported ==> answer == Return(0x7fc0_0000, true))
            && (o.userNotif && !o.continueSupported ==> answer == Return(0x7fff_0000, true))
  {
    hide Run, GetDefaultPolicy, Step;
    DefaultRulesDominate(o, suffix, d, r);
  }
}
