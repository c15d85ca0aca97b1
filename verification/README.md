# Verified models of Sandboxed API

This project models the parts of Sandboxed API (Sandbox2 and the SAPI runtime) whose correctness is
hardest to see, and proves properties of them over all inputs, all runs or all interleavings.
`dafny verify dfyconfig.toml` checks everything.

* **The seccomp-BPF compiler.** `Bpf` is the interpreter and the semantics of programs as a function on
  the remaining code, `BpfAlu` what its opcodes and arithmetic mean (with `Bits`); `BpfLabels` the label
  resolver; `SyscallPolicy` the dispatch compiler of
  `PolicyBuilder`; `DefaultPolicy` the built-in rules, `CloneFlags` what their masks stand for; `PolicyBuilder` the builder and the installed
  program; `UnotifyMonitor` the rewriting for seccomp notifications. The main results are
  meaning-preservation theorems: from any sequence of builder calls to the value the kernel gets.
* **Shared memory.** `Allocator` is the best-fit allocator on a mutable object with a byte array,
  `SharedChannel` the channel above it, described as one map from remote addresses to allocations
  whichever heap they live in.
* **The protocols.** `Rpc` is the nested call/callback protocol as two stack machines over FIFO channels,
  `RpcRuns` its whole runs and their likeness to nested calls in one process, `RecursiveMutex` the re-entrant lock and `ByteTransport` the shared-memory byte transport at the
  granularity of single atomic accesses (`TransportProgress`: it never gets stuck), `Tlv` the message framing over arbitrarily fragmented streams.
* **Process set-up and monitoring.** `MoveFds` is the parallel move of file descriptors, `Mounts` the
  mount tree, `PtraceMonitor` the run loop of the ptrace monitor, `PtraceRuns` what its runs end with and
  report, said of their inputs alone.

Four properties one would expect turn out false of the code. Each has a concrete counterexample and the
exact condition under which it holds.

* The helper jump of the dispatch compiler is one instruction too long, so a syscall reaches the whole
  policy if and only if it is among the last 256 (or 255) of its list (`SyscallPolicy`).
* A comment in the transport says the closed bit is kept when the index is reset; it is lost exactly when
  Terminate falls between the load of the reader and its first compare-and-swap, and then the reader can
  sleep through the termination (`ByteTransport`).
* `SimpleAllocator::Reallocate` looks a block up without asking whether it is free, so its result is a live
  block if and only if the address it was given is one (`Allocator`).
* The documentation of `Allow(MapExec)` says executable mappings are refused by default. The builder starts
  with them on and nothing turns them off, so the rules against them are in no policy it makes: such a call
  gets exactly what the user rules say, and the clauses about execution of
  `DefaultPolicy.DangerousCallsAreDenied` apply to no built policy (`PolicyBuilder`). They apply to a policy
  if and only if it has executable mappings off.

What the kernel, the peer, the clock and the Notify object decide is a parameter of the operation or a
nondeterministic choice. Memory accesses are sequentially consistent. Constants are those of an x86-64 build.

## Model

| member | source | states |
|---|---|---|
| `Bpf.Interpreter.EvaluateSingleInstruction` | sandboxed_api/sandbox2/bpf_evaluator.cc:85-223 | one turn of the interpreter object, all opcodes and error exits, agrees with the one-instruction semantics `Step`, and a jump is refused exactly when its target is not an instruction |
| `Bpf.Interpreter.Evaluate` | sandboxed_api/sandbox2/bpf_evaluator.cc:225-232 | the pc-based loop computes the suffix semantics `Run`, from any register state |
| `Bpf.Evaluate` | sandboxed_api/sandbox2/bpf_evaluator.cc:236-240 | the entry point computes the meaning of the program: a value exactly if some instruction returns one |
| `Bpf.RunAppend` | sandboxed_api/sandbox2/bpf_evaluator.cc:85-223 | code whose jumps stay inside composes: it answers, fails, or hands its registers to whatever follows |
| `Bpf.JumpsInsideAppend` | sandboxed_api/sandbox2/bpf_evaluator.cc:190-222 | such code can be concatenated without a jump leaving its part |
| `Bpf.CostBound` | sandboxed_api/sandbox2/bpf_evaluator.cc:225-232 | every evaluation ends within as many steps as there are instructions |
| `BpfLabels.BpfResolveJumps` | sandboxed_api/sandbox2/util/bpf_helper.c:31-78 | the in-place backward pass succeeds exactly if, within the limits, every JA has a known label, every jump has it ahead and no label has it again, and then leaves the resolved program in the array |
| `BpfLabels.ResolveBackwards` | sandboxed_api/sandbox2/util/bpf_helper.c:43-76 | the pass itself, without the limits |
| `BpfLabels.ResolveInstruction` | sandboxed_api/sandbox2/util/bpf_helper.c:46-75 | one instruction against the label table: both error returns and the three rewrites |
| `BpfLabels.ResolvePreservesMeaning` | sandboxed_api/sandbox2/util/bpf_helper.c:31-78 | the resolved program means, on every input, what the labelled program means when a jump continues at its label |
| `BpfLabels.ResolvedJumpLandsOnLabel` | sandboxed_api/sandbox2/util/bpf_helper.c:54-63 | the offset stored in a resolved jump leads to the label it named |
| `BpfLabels.ResolvesIff` | sandboxed_api/sandbox2/util/bpf_helper.c:46-75 | resolution succeeds exactly if every JA has a known label, every jump has its label ahead, and no label has itself ahead |
| `BpfLabels.SeekIffLabel` | sandboxed_api/sandbox2/util/bpf_helper.c:64-74 | a label is found ahead exactly if it occurs ahead |
| `SyscallPolicy.VerifyAndPatch` | sandboxed_api/sandbox2/policybuilder.cc:206-221 | the first loop accepts exactly the policies whose jumps stay inside, provided their opcodes are known, and replaces exactly the foreign TRACE returns |
| `SyscallPolicy.BoundsIff` | sandboxed_api/sandbox2/policybuilder.cc:179-187 | the bounds check passes if and only if no known jump leaves the policy and no unknown jump opcode would by its fields |
| `SyscallPolicy.PatchMeaning` | sandboxed_api/sandbox2/policybuilder.cc:210-220 | on every input the patched policy answers what the policy does, except that every constant TRACE answer names the host architecture |
| `SyscallPolicy.PrependTest` | sandboxed_api/sandbox2/policybuilder.cc:239-260 | one turn of the second loop: no distance is cut by its 8-bit or 32-bit field |
| `SyscallPolicy.Prepend` | sandboxed_api/sandbox2/policybuilder.cc:239-260 | the distance to the way into the policy never exceeds what eight bits hold, and one or two instructions are added |
| `SyscallPolicy.Build` | sandboxed_api/sandbox2/policybuilder.cc:228-262 | the same over the whole list, with bounds on the size of the result |
| `SyscallPolicy.Patched` | sandboxed_api/sandbox2/policybuilder.cc:207-221 | instruction by instruction, the policy after verification |
| `SyscallPolicy.CreatePolicyOnSyscalls` | sandboxed_api/sandbox2/policybuilder.cc:198-263 | the whole function: refuses exactly empty lists, policies with a jump that leaves them, overlong policies and lists with bpf or ptrace, and otherwise yields the compiled block |
| `SyscallPolicy.BoundsGiveJumpsInside` | sandboxed_api/sandbox2/policybuilder.cc:179-187 | the bounds check implies that no jump of the patched policy, with its trailing load, leaves it |
| `SyscallPolicy.BuildJumpsInside` | sandboxed_api/sandbox2/policybuilder.cc:228-262 | no jump of the dispatch code leaves the block, for lists of any length |
| `SyscallPolicy.CompileJumpsInside` | sandboxed_api/sandbox2/policybuilder.cc:198-263 | an accepted block can be followed by anything |
| `SyscallPolicy.OneTest` | sandboxed_api/sandbox2/policybuilder.cc:238-260 | a match goes to the way into the policy, a mismatch to the next test or past the block |
| `SyscallPolicy.HelperJump` | sandboxed_api/sandbox2/policybuilder.cc:251-258 | the helper jump lands one instruction past the start of the policy |
| `SyscallPolicy.Dispatch` | sandboxed_api/sandbox2/policybuilder.cc:227-261 | for lists of any length, where control arrives for each syscall, with all registers as they were |
| `SyscallPolicy.DispatchReachesPolicy` | sandboxed_api/sandbox2/policybuilder.cc:231-261 | control reaches the whole policy if and only if the syscall is listed and is among the last 256 (short skip) or 255 (long skip) of the list |
| `SyscallPolicy.CompileMeaning` | sandboxed_api/sandbox2/policybuilder.cc:198-263 | the compiled block means: apply the policy to the listed syscalls and reload the number, leave all others untouched |
| `SyscallPolicy.ShortListsAreExact` | sandboxed_api/sandbox2/policybuilder.cc:198-263 | for at most 255 syscalls every listed syscall gets exactly the policy |
| `SyscallPolicy.LongListMisses` | sandboxed_api/sandbox2/policybuilder.cc:251-258 | in every longer list over 256, the first syscall under the policy ALLOW passes through unanswered |
| `SyscallPolicy.LongListExample` | sandboxed_api/sandbox2/policybuilder.cc:251-258 | such a list exists: 257 consecutive numbers |
| `DefaultPolicy.DenyFlagsMeaning` | sandboxed_api/sandbox2/policy.cc:271-293 | the clone/unshare/seccomp pattern kills exactly the named syscall with one of the flags |
| `DefaultPolicy.AnswerIfMeaning` | sandboxed_api/sandbox2/policy.cc:129-148 | the magic-argument pattern answers exactly if all its conditions hold and otherwise restores the syscall number |
| `DefaultPolicy.AllowCommandsMeaning` | sandboxed_api/sandbox2/policy.cc:203-214 | the safe-bpf pattern allows exactly the listed commands |
| `DefaultPolicy.DenyExecMeaning` | sandboxed_api/sandbox2/policy.cc:221-242 | the check with two labels kills exactly executable mappings |
| `DefaultPolicy.ArchMeaning` | sandboxed_api/sandbox2/policy.cc:123-161 | the architecture prologue, for both monitors |
| `DefaultPolicy.SetupMeaning` | sandboxed_api/sandbox2/policy.cc:129-181 | the execveat and seccomp exceptions used during set-up |
| `DefaultPolicy.MagicMeaning` | sandboxed_api/sandbox2/policy.cc:189-197 | the magic syscall and the ptrace rule |
| `DefaultPolicy.BpfMeaning` | sandboxed_api/sandbox2/policy.cc:202-218 | the bpf rules under both options |
| `DefaultPolicy.ExecMeaning` | sandboxed_api/sandbox2/policy.cc:220-250 | the rules against executable mappings and shmat |
| `DefaultPolicy.CloneMeaning` | sandboxed_api/sandbox2/policy.cc:252-284 | clone3, clone and unshare |
| `DefaultPolicy.ListenerMeaning` | sandboxed_api/sandbox2/policy.cc:285-293 | seccomp with a new listener |
| `DefaultPolicy.DefaultCodeMeaning` | sandboxed_api/sandbox2/policy.cc:113-294 | the labelled default policy equals a decision table, and where the table is silent X and M are untouched |
| `DefaultPolicy.DefaultCodeResolves` | sandboxed_api/sandbox2/policy.cc:296-298 | label resolution succeeds for every combination of options, so the fatal branch is dead |
| `DefaultPolicy.DefaultPolicyMeaning` | sandboxed_api/sandbox2/policy.cc:113-301 | the resolved default policy is the decision table, and no jump leaves it |
| `DefaultPolicy.DefaultRulesDominate` | sandboxed_api/sandbox2/policy.cc:89-98 | whatever code follows, a default decision stands; otherwise that code starts with the syscall number in A |
| `DefaultPolicy.PolicyAnswers` | sandboxed_api/sandbox2/policy.cc:82-105 | the whole policy: default rules, then user code, then KILL; it never runs off its end |
| `DefaultPolicy.AssemblePolicy` | sandboxed_api/sandbox2/policy.cc:82-105 | building the policy step by step, with the in-place resolver, gives that program |
| `DefaultPolicy.DangerousCallsAreDenied` | sandboxed_api/sandbox2/policy.cc:195-293 | unsafe clone, unshare and unhandled ptrace are killed under every user policy, and so are executable mappings and shmat in a policy that has them off |
| `BpfAlu.DecodeEncode` | sandboxed_api/sandbox2/bpf_evaluator.cc:85-223 | every operation is recognised by the opcode composed of its class, mode, operation and source operand |
| `BpfAlu.EncodeDecode` | sandboxed_api/sandbox2/bpf_evaluator.cc:85-223 | and by no other: every opcode is that of its operation, or of none and refused |
| `BpfAlu.AluMeaning` | sandboxed_api/sandbox2/bpf_evaluator.cc:20-48 | each arithmetic operation yields the word that it means: sums and differences up to one wrap, products up to multiples of 2^32, quotients, and and/or/xor and shifts bit by bit; it fails exactly for a division by zero or a shift by 32 or more |
| `BpfAlu.ResultIsUnique` | sandboxed_api/sandbox2/bpf_evaluator.cc:20-48 | there is only one such word |
| `BpfAlu.CmpMeaning` | sandboxed_api/sandbox2/bpf_evaluator.cc:50-63 | JGT is decided at the highest differing bit, JGE is its converse, JEQ means equal bits and JSET a common bit |
| `CloneFlags.NamespaceMask` | sandboxed_api/sandbox2/policy.cc:252-254 | the namespace mask has exactly the seven CLONE_NEW* bits |
| `CloneFlags.CloneMask` | sandboxed_api/sandbox2/policy.cc:256-261 | the clone mask has those, and CLONE_UNTRACED exactly under ptrace |
| `CloneFlags.NewNamespacesAreDenied` | sandboxed_api/sandbox2/policy.cc:252-284 | for every suffix: clone and unshare are killed exactly if one of these flags is set, and otherwise left to the rules that follow |
| `CloneFlags.FirstExecveat` | sandboxed_api/sandbox2/policy.cc:115-150 | the execveat of the set-up is traced, notified or allowed, depending on the monitor and on continue support |
| `PolicyBuilder.RuleCodeMeaning` | sandboxed_api/sandbox2/policybuilder.cc:309-372 | the code of one rule answers what the rule says and otherwise keeps the syscall number in A |
| `PolicyBuilder.RulesCodeMeaning` | sandboxed_api/sandbox2/policybuilder.cc:309-372 | accumulated code means the ordered list of rules: the first that answers wins |
| `PolicyBuilder.BuilderTracksRules` | sandboxed_api/sandbox2/policybuilder.cc:309-372 | after every sequence of builder calls the accumulated code is that of the rules defined from the calls alone |
| `PolicyBuilder.FinalProgramMeaning` | sandboxed_api/sandbox2/policybuilder.cc:1690-1698 | for every sequence of calls that builds, the installed program evaluates to default rules, user rules in order, default action, overridable rules, KILL |
| `PolicyBuilder.HandledMeansRefused` | sandboxed_api/sandbox2/policybuilder.cc:338-352 | a handled-by-user flag is set only together with an errno rule or, for ptrace, the trap asked for, and no other rule for that syscall exists |
| `PolicyBuilder.MapExecIsAlwaysOn` | sandboxed_api/sandbox2/policybuilder.h:1117 | after every sequence of calls executable mappings are on |
| `PolicyBuilder.AllowingNeverFails` | sandboxed_api/sandbox2/policybuilder.cc:312-317 | so the error that asks for MapExec is never reported |
| `PolicyBuilder.ExecDecidedIff` | sandboxed_api/sandbox2/policy.cc:220-250 | the default rules decide about a call that asks for execution if and only if the policy has executable mappings off |
| `PolicyBuilder.ExecRulesAreNeverBuilt` | sandboxed_api/sandbox2/policy.cc:220-250 | the rules against executable mappings are in no policy the builder makes, neither as code nor in effect |
| `PolicyBuilder.ExecutableMappingsGetTheRules` | sandboxed_api/sandbox2/policybuilder.cc:1680-1696 | for every sequence of calls that builds, a call that asks for execution gets exactly what the rule list says |
| `PolicyBuilder.ExecutableMappingIsAllowed` | sandboxed_api/sandbox2/policybuilder.h:187-195 | the counterexample to the documented default: without MapExec, under the default action ALLOW, it is allowed |
| `PolicyBuilder.ForbiddenSyscallsAreNeverAllowed` | sandboxed_api/sandbox2/policybuilder.cc:234-237 | for every sequence of calls ptrace and bpf are killed, get an errno or, ptrace on request, a trap; safe bpf commands excepted |
| `PolicyBuilder.FirstCallDecides` | sandboxed_api/sandbox2/policybuilder.cc:309-352 | a syscall the default rules leave alone gets the answer of the first call that allows, blocks or traps it, unless a policy that lists it came earlier; the errno keeps its lower 16 bits |
| `PolicyBuilder.SafeBpfCommandsAreAllowed` | sandboxed_api/sandbox2/policy.cc:199-219 | for every sequence of calls, the safe bpf commands are allowed if AllowSafeBpf is among them, and otherwise bpf is killed or gets an errno |
| `PolicyBuilder.Builder.constructor` | sandboxed_api/sandbox2/policybuilder.h:1117-1143 | an empty builder, with executable mappings on |
| `PolicyBuilder.Builder.AllowSyscall` | sandboxed_api/sandbox2/policybuilder.cc:309-321 | the call on the object is the corresponding step, including the map-exec error |
| `PolicyBuilder.Builder.BlockSyscallWithErrno` | sandboxed_api/sandbox2/policybuilder.cc:338-352 | the same, with the bpf and ptrace flags |
| `PolicyBuilder.Builder.TrapPtrace` | sandboxed_api/sandbox2/policybuilder.cc:2033-2039 | the trap rule and the ptrace flag, unless ptrace was handled before |
| `PolicyBuilder.Builder.AddPolicyOnSyscalls` | sandboxed_api/sandbox2/policybuilder.cc:1534-1545 | the same, with the error of the compiler |
| `PolicyBuilder.Builder.OverridableAddPolicyOnSyscalls` | sandboxed_api/sandbox2/policybuilder.cc:354-365 | the same for the overridable list |
| `PolicyBuilder.Builder.TryBuild` | sandboxed_api/sandbox2/policybuilder.cc:1617-1698 | builds exactly once, and only without an earlier error, within 30000 instructions and with compatible Landlock, network and hostname settings |
| `UnotifyMonitor.Monitor.ModifyPolicy` | sandboxed_api/sandbox2/monitor_unotify.cc:167-176 | the in-place rewrite and the saved copy |
| `UnotifyMonitor.ModifyPolicyMeaning` | sandboxed_api/sandbox2/monitor_unotify.cc:167-176 | on every program and input the rewritten program runs in lockstep and differs only by notifying where the original ends at a constant KILL or host TRACE |
| `UnotifyMonitor.Monitor.HandleUnotify` | sandboxed_api/sandbox2/monitor_unotify.cc:233-284 | the decision for a notified syscall: the first execveat, and for each answer of Notify exactly when it leads to continuing, an errno, a violation or a failure |
| `UnotifyMonitor.MonitorRecoversIntent` | sandboxed_api/sandbox2/monitor_unotify.cc:243-284 | kernel plus monitor decide exactly what the policy as written asks for |
| `UnotifyMonitor.NotificationsEvaluate` | sandboxed_api/sandbox2/monitor_unotify.cc:243-248 | a notified syscall never makes the evaluation of the original fail |
| `Allocator.AlignSize` | sandboxed_api/shared_memory_rpcchannel.cc:49-57 | rounds up to the next multiple of 8; refuses exactly zero and sizes that could overflow |
| `Allocator.SimpleAllocator.constructor` | sandboxed_api/shared_memory_rpcchannel.cc:61-67 | one free block covers the region, be it empty, and the invariant holds |
| `Allocator.SimpleAllocator.SplitBlock` | sandboxed_api/shared_memory_rpcchannel.cc:69-82 | the block is cut and the rest is a free block in the index |
| `Allocator.SimpleAllocator.Allocate` | sandboxed_api/shared_memory_rpcchannel.cc:84-106 | succeeds exactly if some free block is large enough; takes the smallest sufficient one, lowest address among equals, and adds exactly one live block |
| `Allocator.SimpleAllocator.TakeBlock` | sandboxed_api/shared_memory_rpcchannel.cc:94-105 | a free block becomes live and what is not needed goes back to the index |
| `Allocator.SimpleAllocator.Free` | sandboxed_api/shared_memory_rpcchannel.cc:152-200 | succeeds exactly on live blocks, removes exactly that one, keeps the invariant and coalescing; the CHECK on the index never fails |
| `Allocator.SimpleAllocator.ReleaseForward` | sandboxed_api/shared_memory_rpcchannel.cc:160-175 | the forward half of Free |
| `Allocator.SimpleAllocator.ReleaseBackward` | sandboxed_api/shared_memory_rpcchannel.cc:177-199 | the backward half of Free |
| `Allocator.SimpleAllocator.Reallocate` | sandboxed_api/shared_memory_rpcchannel.cc:108-150 | stays in place exactly if there is room, otherwise takes the best fit, and fails exactly if neither is there; on a live block: new size, contents kept up to the smaller size, all other blocks and bytes untouched, same address unless it grows, nothing changed on failure; the result is live if and only if the address was, and for a freed address blocks and keys are those of the resize |
| `Allocator.FreedBlockIsReallocated` | sandboxed_api/shared_memory_rpcchannel.cc:113-143 | the exception: on a fresh allocator Reallocate of the base succeeds with a block that is not live |
| `Allocator.SimpleAllocator.ResizeInPlace` | sandboxed_api/shared_memory_rpcchannel.cc:111-144 | succeeds exactly if the block, with its free successor, has room, and gives the resulting blocks and index, for live and freed blocks alike |
| `Allocator.Resized` | sandboxed_api/shared_memory_rpcchannel.cc:118-143 | of a live block: invariant kept, one size changed, coalescing kept by growth; a freed block does not become live |
| `Allocator.SimpleAllocator.MoveBlock` | sandboxed_api/shared_memory_rpcchannel.cc:145-149 | allocate, copy, free; runs out exactly if no free block is large enough, and otherwise takes the best fit; on a freed address the new block stays allocated and the call fails |
| `Allocator.SimpleAllocator.CopyBlock` | sandboxed_api/shared_memory_rpcchannel.cc:147 | the copy reaches only the target block |
| `Allocator.SimpleAllocator.GetAllocationMetadata` | sandboxed_api/shared_memory_rpcchannel.cc:202-217 | finds the one block an address lies in, for exactly the addresses of the region |
| `Allocator.TilingSplit` | sandboxed_api/shared_memory_rpcchannel.cc:69-82 | splitting keeps the blocks a gapless, disjoint cover of the region |
| `Allocator.TilingMerge` | sandboxed_api/shared_memory_rpcchannel.cc:166-175 | so does merging with the successor |
| `Allocator.GrabInv` | sandboxed_api/shared_memory_rpcchannel.cc:94-105 | taking a free block keeps the cover and the index and makes exactly one block live |
| `Allocator.GrabCoalesced` | sandboxed_api/shared_memory_rpcchannel.cc:94-105 | taking a block creates no pair of free neighbours |
| `Allocator.FreeForwardTiling` | sandboxed_api/shared_memory_rpcchannel.cc:160-175 | the forward merge keeps the cover |
| `Allocator.FreeForwardIndex` | sandboxed_api/shared_memory_rpcchannel.cc:160-175 | and the index, up to the block being freed |
| `Allocator.FreeBackwardInv` | sandboxed_api/shared_memory_rpcchannel.cc:177-199 | after the backward merge the full invariant holds again |
| `Allocator.FreeBackwardCoalesced` | sandboxed_api/shared_memory_rpcchannel.cc:177-199 | and no two free blocks are neighbours |
| `Allocator.ResizeInv` | sandboxed_api/shared_memory_rpcchannel.cc:118-143 | resizing in place keeps the invariant and changes one live size |
| `Allocator.GrowthStaysCoalesced` | sandboxed_api/shared_memory_rpcchannel.cc:123-143 | growing creates no free neighbours |
| `Allocator.ShrinkingCoalesces` | sandboxed_api/shared_memory_rpcchannel.cc:137-143 | shrinking keeps blocks coalesced if and only if the successor is not free |
| `Allocator.AllFreeIsOneBlock` | sandboxed_api/shared_memory_rpcchannel.cc:152-200 | when everything is free and coalesced one block covers the region |
| `Allocator.BlocksAreDisjoint` | sandboxed_api/shared_memory_rpcchannel.cc:202-217 | no address lies in two blocks |
| `SharedChannel.SharedMemoryRPCChannel.ToLocalAddr` | sandboxed_api/shared_memory_rpcchannel.cc:395-399 | maps the remote region into the local one, undone by ToRemoteAddr |
| `SharedChannel.SharedMemoryRPCChannel.ToRemoteAddr` | sandboxed_api/shared_memory_rpcchannel.cc:401-405 | maps back into the remote region |
| `SharedChannel.SharedMemoryRPCChannel.Allocate` | sandboxed_api/shared_memory_rpcchannel.cc:253-266 | one new allocation of at least the size asked for, all others unchanged; it is in the region exactly if that is permitted and a free block is large enough |
| `SharedChannel.SharedMemoryRPCChannel.Free` | sandboxed_api/shared_memory_rpcchannel.cc:291-298 | removes exactly that allocation; in the region it succeeds exactly if there is one |
| `SharedChannel.SharedMemoryRPCChannel.Reallocate` | sandboxed_api/shared_memory_rpcchannel.cc:268-289 | the allocation moves or stays, keeps its contents up to the smaller size, and no other allocation changes, across both heaps; it stays in the region exactly if the region can serve it, and otherwise succeeds exactly if the inner channel grants and copies; failure changes nothing unless a clean-up fails |
| `SharedChannel.SharedMemoryRPCChannel.ReallocateShared` | sandboxed_api/shared_memory_rpcchannel.cc:275-288 | inside the region, it succeeds exactly if there is room behind the block or a free block is large enough; running out implies that the unaligned request is larger than the old block |
| `SharedChannel.SharedMemoryRPCChannel.ReallocateInNonSharedMemory` | sandboxed_api/shared_memory_rpcchannel.cc:377-393 | the fallback: the copy of the whole old block fits in what was allocated |
| `SharedChannel.SharedMemoryRPCChannel.EnsureWithinAllocationBounds` | sandboxed_api/shared_memory_rpcchannel.cc:413-423 | accepts exactly the ranges inside one block |
| `SharedChannel.SharedMemoryRPCChannel.CopyToSandbox` | sandboxed_api/shared_memory_rpcchannel.cc:300-310 | succeeds exactly then, changes the written range of the one allocation that holds it, and nothing else |
| `SharedChannel.SharedMemoryRPCChannel.CopyFromSandbox` | sandboxed_api/shared_memory_rpcchannel.cc:312-322 | returns the bytes of the allocation that holds the range |
| `SharedChannel.WriteThenRead` | sandboxed_api/shared_memory_rpcchannel.cc:300-322 | over the two calls: a write to a live allocation succeeds and is read back, the rest of the allocation and every other allocation read as before |
| `SharedChannel.OthersUntouched` | sandboxed_api/shared_memory_rpcchannel.cc:300-310 | no other allocation, in either heap, holds the written range |
| `Rpc.RunInv` | sandboxed_api/sandbox2_rpcchannel.cc:64-125 | every run of calls, callbacks and nested calls, to any depth, keeps the protocol invariant |
| `Rpc.ExactlyOneTurn` | sandboxed_api/sandbox2_rpcchannel.cc:64-125 | in every reachable state one side runs or one message is in flight, never both; with nothing in flight both stacks are in the middle of the same calls |
| `Rpc.WellBracketed` | sandboxed_api/client.cc:283-315 | each side has seen a well-bracketed history whose open part is its stack, and one history is a prefix of the other |
| `Rpc.NoUnexpectedTag` | sandboxed_api/sandbox2_rpcchannel.cc:103-107 | no side receives a tag it does not handle, and a return or reply belongs to the innermost activation |
| `Rpc.NoDeadlock` | sandboxed_api/client.cc:299-309 | unless the host is idle some step other than a new call is possible |
| `Rpc.IdleIsClean` | sandboxed_api/sandbox2_rpcchannel.cc:57-62 | when a top-level call has returned both channels and the other stack are empty and both histories agree |
| `Rpc.EachCallGetsItsOwnResult` | sandboxed_api/sandbox2_rpcchannel.cc:108-124 | what a call returned is what the sandboxee computed for that call, with the type and success checks, answered exactly once |
| `RpcRuns.CallbackValueArrives` | sandboxed_api/sandbox2_rpcchannel.cc:84-100 | over every run: the value a callback returned is what its one reply carries in both histories and what the sandboxee hands on, and it is handed on unless still in flight |
| `RpcRuns.ReplyReachesItsCaller` | sandboxed_api/client.cc:283-315 | a reply is taken by the activation that began that callback, which goes on with exactly the stack it had |
| `RpcRuns.CallResultArrives` | sandboxed_api/sandbox2_rpcchannel.cc:108-124 | over every run: what was computed for a call is what its one return carries; the caller gets it exactly if its type is the one the call was made with and it succeeded |
| `RpcRuns.ReturnReachesItsCaller` | sandboxed_api/sandbox2_rpcchannel.cc:64-125 | a return is taken by the activation that made the call, which then is over |
| `RpcRuns.RunIsLocal` | sandboxed_api/sandbox2_rpcchannel.cc:64-125 | every run of the two processes, up to the message in flight, is a run of one stack machine without messages |
| `RpcRuns.RunsLikeLocalCalls` | sandboxed_api/sandbox2_rpcchannel.cc:64-125 | so calls and callbacks hand back what they would if nested in one process: never anything different, and all of it when nothing is in flight |
| `Rpc.OpenNotEnded` | sandboxed_api/client.cc:346-357 | what is open in a well-bracketed history has begun and not ended |
| `RecursiveMutex.RunInv` | sandboxed_api/sandbox2_rpcchannel.h:40-77 | every interleaving of any number of threads keeps the lock invariant |
| `RecursiveMutex.MutualExclusion` | sandboxed_api/sandbox2_rpcchannel.h:48-55 | at most one thread is inside |
| `RecursiveMutex.OwnIdMeansHeld` | sandboxed_api/sandbox2_rpcchannel.h:49-53 | a thread about to lock reads its own id exactly if it holds the lock |
| `RecursiveMutex.DepthCountsLocks` | sandboxed_api/sandbox2_rpcchannel.h:54 | the depth is the number of outstanding locks of the one holder, zero without a holder |
| `RecursiveMutex.ReleasedAtZero` | sandboxed_api/sandbox2_rpcchannel.h:57-63 | the plain mutex is let go exactly with the last outstanding lock |
| `RecursiveMutex.OnlyTheHolderTouchesDepth` | sandboxed_api/sandbox2_rpcchannel.h:54-60 | the plain counter is only accessed by the holder |
| `RecursiveMutex.NoDeadlock` | sandboxed_api/sandbox2_rpcchannel.h:48-63 | a thread is stuck only while another holds the mutex, and that one is not |
| `Tlv.LeRoundTrip` | sandboxed_api/sandbox2/comms.h:351-354 | the little-endian fields of the header read back |
| `Tlv.FromLeRoundTrip` | sandboxed_api/sandbox2/comms.h:351-354 | every byte string is the encoding of the number it reads as |
| `Tlv.DecodeEncode` | sandboxed_api/sandbox2/comms.cc:246-284 | a message within the limit decodes to itself, whatever follows |
| `Tlv.EncodeDecode` | sandboxed_api/sandbox2/comms.cc:948-970 | only encodings decode |
| `Tlv.StreamRoundTrip` | sandboxed_api/sandbox2/comms.cc:246-284 | every sequence of messages is received as exactly that sequence, with the rest of the stream intact |
| `Tlv.Comms.Send` | sandboxed_api/sandbox2/comms.cc:883-916 | however writes are split, success means all bytes went out and failure that a prefix did; it fails exactly with the transport, and exactly a fatal error ends the connection |
| `Tlv.Comms.Recv` | sandboxed_api/sandbox2/comms.cc:918-945 | however reads are split, success yields exactly the next bytes; it fails exactly with the transport, and exactly a fatal error or the end of the stream ends the connection |
| `Tlv.Comms.SendTLV` | sandboxed_api/sandbox2/comms.cc:246-284 | both size branches put one encoded message on the wire, or a prefix of it |
| `Tlv.Comms.RecvTL` | sandboxed_api/sandbox2/comms.cc:948-970 | the header of the stream, refused if the length is over the limit |
| `Tlv.Comms.RecvTLV` | sandboxed_api/sandbox2/comms.h:399-408 | success is the first message of the stream; on a reliable stream it succeeds exactly if there is one |
| `Tlv.Comms.RecvTLVInto` | sandboxed_api/sandbox2/comms.cc:980-1002 | the same with a buffer and an expected tag; a refused message has lost its header |
| `Tlv.Comms.Exchange` | sandboxed_api/sandbox2/comms.cc:337-357 | the same effect with and without RawExchange |
| `Tlv.Comms.ExchangeTLV` | sandboxed_api/sandbox2/comms.cc:286-335 | the effect of SendTLV followed by RecvTLV, on both size branches |
| `Tlv.Deliver` | sandboxed_api/sandbox2/comms.cc:246-284 | end to end over the methods: however writes and reads are split, the peer receives exactly the messages sent |
| `MoveFds.Process.MoveFDs` | sandboxed_api/sandbox2/forkedprocess.cc:185-213 | for all chains, cycles and choices of dup: each valid closer ends at its target with its file, temporaries and sources are closed, everything else is untouched; it gives up exactly if the kernel refused a dup or dup2, and asks the kernel for nothing if there is nothing to move |
| `MoveFds.Process.MoveOne` | sandboxed_api/sandbox2/forkedprocess.cc:193-212 | one move keeps the invariant that makes this true, fails exactly with the kernel, and makes an occupant step aside only if there is one |
| `MoveFds.Process.Assign` | sandboxed_api/util/fileops.h:34-38 | an assigned closer closes what it held |
| `MoveFds.StepAsideInv` | sandboxed_api/sandbox2/forkedprocess.cc:198-205 | moving an occupant out of the way |
| `MoveFds.PlaceInv` | sandboxed_api/sandbox2/forkedprocess.cc:206-211 | moving a descriptor to a free target |
| `MoveFds.Collision` | sandboxed_api/sandbox2/forkedprocess.cc:199 | fd_map knows every occupant that still has to move |
| `MoveFds.MovedIsUnique` | sandboxed_api/sandbox2/forkedprocess.cc:185-213 | the outcome does not depend on what dup picked |
| `Mounts.FailedWalkChangesNothing` | sandboxed_api/sandbox2/mounts.cc:334-384 | a failed walk, although it creates entries on the way, leaves tree and counter unchanged |
| `Mounts.FailedOpChangesNothing` | sandboxed_api/sandbox2/mounts.cc:289-385 | so does every operation that does not return Ok |
| `Mounts.WalkAt` | sandboxed_api/sandbox2/mounts.cc:334-384 | path by path, the tree after a successful Insert |
| `Mounts.PruneAt` | sandboxed_api/sandbox2/mounts.cc:256-271 | path by path, the tree after a successful Remove |
| `Mounts.RemoveIff` | sandboxed_api/sandbox2/mounts.cc:239-272 | Remove succeeds exactly on a clean path that is there with no file on the way, and which error it returns otherwise |
| `Mounts.WhatIsThereCanBeRemoved` | sandboxed_api/sandbox2/mounts.cc:256-271 | in every reachable tree exactly what is there can be removed, whatever is below it |
| `Mounts.InsertIff` | sandboxed_api/sandbox2/mounts.cc:289-385 | Insert succeeds exactly for a clean path and a mountable node with no file between, if the path has the same target, or nothing and, for a file, nothing below |
| `Mounts.RunInv` | sandboxed_api/sandbox2/mounts.cc:239-385 | every run of Insert and Remove keeps: files are leaves, indices are distinct and grow from parent to child |
| `Mounts.FilesAreLeaves` | sandboxed_api/sandbox2/mounts.cc:343-347 | from the empty tree, nothing is ever below a file |
| `Mounts.IndexIsCreationOrder` | sandboxed_api/sandbox2/mounts.cc:335-340 | an entry keeps its index, and a new one is above all before it |
| `Mounts.SiblingsNeverTie` | sandboxed_api/sandbox2/mounts.cc:637-648 | siblings have different indices, so the sort order is unique |
| `Mounts.GetSortedEntries` | sandboxed_api/sandbox2/mounts.cc:637-648 | each entry once, by index |
| `Mounts.ResolveIsDeepestMount` | sandboxed_api/sandbox2/mounts.cc:405-437 | a path resolves through the deepest entry on its way, exactly or below a directory |
| `Mounts.JoinInSteps` | sandboxed_api/util/path.cc:34-52 | below a mounted directory, going down in two steps is going down at once |
| `Mounts.JoinIsInjective` | sandboxed_api/util/path.cc:34-52 | different paths below a mounted directory are different files outside |
| `Mounts.SameTargetIsEquivalence` | sandboxed_api/sandbox2/mounts.cc:142-162 | having the same target is an equivalence |
| `Mounts.InsertMounts` | sandboxed_api/sandbox2/mounts.cc:353-384 | a successful Insert leaves the path on the target asked for, at least as writable |
| `Mounts.RunKeepsMounted` | sandboxed_api/sandbox2/mounts.cc:239-385 | no run takes that away without removing the path or an ancestor |
| `Mounts.InsertedKeepsResolving` | sandboxed_api/sandbox2/mounts.cc:405-437 | so an inserted file or directory keeps resolving to the same file until it or an ancestor is removed |
| `Mounts.RemovedIsGone` | sandboxed_api/sandbox2/mounts.cc:269-271 | nothing is mounted at or below a removed path |
| `Mounts.Mounts.constructor` | sandboxed_api/sandbox2/mounts.h:119-123 | the empty tree with a read-only root |
| `Mounts.Mounts.InsertNode` | sandboxed_api/sandbox2/mounts.cc:289-385 | the object form of Insert, with all its error returns and its exact condition for success |
| `Mounts.Mounts.RemovePath` | sandboxed_api/sandbox2/mounts.cc:239-272 | the object form of Remove; it succeeds exactly on a clean path that is there |
| `Mounts.Mounts.ResolvePath` | sandboxed_api/sandbox2/mounts.cc:405-437 | the component loop computes the recursive resolution |
| `PtraceMonitor.Monitor.Run` | sandboxed_api/sandbox2/monitor_ptrace.cc:357-473 | over every sequence of inputs the object goes through the states of the value-level loop that the PtraceRuns rows are about, stops exactly when a result is set, and then it has been set exactly once |
| `PtraceRuns.RunEndsIff` | sandboxed_api/sandbox2/monitor_ptrace.cc:357-473 | every run ends with a given status and reason if and only if that is the verdict on the first of its inputs that has one; the verdict is one condition per status and reason, on the inputs alone |
| `PtraceRuns.RunReflects` | sandboxed_api/sandbox2/monitor_ptrace.cc:357-398 | the loop goes on exactly as long as no input decides; while it does, each flag is set if and only if some input asked for it, the hard deadline is armed exactly after a reason to kill, set-up lasts exactly until the first exec, and what Notify was told is what the inputs say |
| `PtraceRuns.RunLeaves` | sandboxed_api/sandbox2/monitor_ptrace.cc:357-473 | the flags and notes a finished loop leaves behind: each request of the last iteration counts unless an earlier one ended it |
| `PtraceRuns.EndsOkIff` | sandboxed_api/sandbox2/monitor_ptrace.cc:427-441 | OK with a code exactly if the main process exits with it after the first exec, or stops at that exit with stack traces wanted and no kill asked for |
| `PtraceRuns.EndsInSyscallViolationIff` | sandboxed_api/sandbox2/monitor_ptrace.cc:742-813 | a syscall violation exactly if a process dies of SIGSYS or a traced syscall is denied outside set-up |
| `PtraceRuns.HardDeadlineEndsTheLoop` | sandboxed_api/sandbox2/monitor_ptrace.cc:358-365 | after any reason to kill, a passed hard deadline ends the loop |
| `PtraceRuns.RequestsByFlags` | sandboxed_api/sandbox2/monitor_ptrace.cc:358-397 | deadlines, dump, kill and network requests of an iteration: what they set, and which of them ends the loop |
| `PtraceRuns.MainOutcome` | sandboxed_api/sandbox2/monitor_ptrace.cc:444-463 | the end of the main process: network violation before external kill before timeout before the cause itself, each exactly then |
| `PtraceRuns.TracedOutcome` | sandboxed_api/sandbox2/monitor_ptrace.cc:742-795 | a traced syscall ends the loop exactly if it is denied, or its errno cannot be put in place, outside set-up |
| `PtraceRuns.SeccompOutcome` | sandboxed_api/sandbox2/monitor_ptrace.cc:815-854 | a seccomp stop ends the loop exactly for a foreign architecture, unreadable registers, or a traced syscall that does |
| `PtraceRuns.SyscallExitOutcome` | sandboxed_api/sandbox2/monitor_ptrace.cc:856-880 | a syscall exit ends the loop exactly without a syscall in progress or with unreadable registers |
| `PtraceRuns.NewProcessOutcome` | sandboxed_api/sandbox2/monitor_ptrace.cc:882-909 | a new process ends the loop exactly if the syscall in progress is not one that makes processes |
| `PtraceRuns.ExecOutcome` | sandboxed_api/sandbox2/monitor_ptrace.cc:911-934 | an exec ends the loop exactly after set-up with another syscall in progress |
| `PtraceRuns.ExitOutcome` | sandboxed_api/sandbox2/monitor_ptrace.cc:936-1005 | an exit event ends the loop exactly by a seccomp kill, unreadable registers where they are needed, or the end of the main process |
| `PtraceRuns.StopOutcome` | sandboxed_api/sandbox2/monitor_ptrace.cc:1021-1112 | the same for every stop |
| `PtraceRuns.WaitOutcome` | sandboxed_api/sandbox2/monitor_ptrace.cc:407-472 | and for every outcome of the wait |
| `PtraceRuns.WaitMoves` | sandboxed_api/sandbox2/monitor_ptrace.cc:760-938 | what a wait does besides: the one note it makes and the syscall it remembers or forgets, in terms of the event |
| `PtraceRuns.NotesConsistent` | sandboxed_api/sandbox2/monitor_ptrace.cc:856-880 | in every run each return that is reported was pending |
| `PtraceRuns.RunReportsLatestTrace` | sandboxed_api/sandbox2/monitor_ptrace.cc:856-934 | so in every run each reported return is that of the latest inspected syscall of that process |
| `PtraceMonitor.Monitor.SetExitStatusCode` | sandboxed_api/sandbox2/monitor_base.cc:301-305 | its CHECK holds at every call |
| `PtraceMonitor.PendingIsLatestTrace` | sandboxed_api/sandbox2/monitor_ptrace.cc:760-766 | a syscall is in progress exactly if the last note about its process is that it was traced |
| `PtraceMonitor.ReturnReportsLatestTrace` | sandboxed_api/sandbox2/monitor_ptrace.cc:856-880 | every reported return is that of the latest inspected syscall of that process |
| `PtraceMonitor.ReportedAtMostOnce` | sandboxed_api/sandbox2/monitor_ptrace.cc:877-878 | no inspected syscall is reported twice |
| `ByteTransport.RunInv` | sandboxed_api/sandbox2/util/asynchronous_byte_transport.cc:225-402 | every interleaving of writer, reader and Terminate keeps the invariant |
| `ByteTransport.ReliableStream` | sandboxed_api/sandbox2/util/asynchronous_byte_transport.cc:225-324 | what was read, what is unread in the buffer and what is left to write are together exactly what was handed to Write, in order |
| `ByteTransport.NoLostWakeUp` | sandboxed_api/sandbox2/util/asynchronous_byte_transport.cc:387-423 | a sleeping side has nothing to do or is about to be woken |
| `ByteTransport.NotBothAsleep` | sandboxed_api/sandbox2/util/asynchronous_byte_transport.cc:387-447 | the two sides never sleep waiting for each other |
| `ByteTransport.FailedReset` | sandboxed_api/sandbox2/util/asynchronous_byte_transport.cc:326-353 | resetting the index fails only if there is more to read or Terminate has come |
| `ByteTransport.ClosedBitIsKeptUnless` | sandboxed_api/sandbox2/util/asynchronous_byte_transport.cc:326-353 | the closed bit is lost if and only if the second CAS of the reset succeeds on a word loaded before Terminate |
| `ByteTransport.TerminationCanBeMissed` | sandboxed_api/sandbox2/util/asynchronous_byte_transport.cc:326-353 | its consequence: Terminate has set the bit and woken everybody, and the reader sleeps with nothing to read, no bit and no wake-up to come |
| `ByteTransport.ClosedBitCanBeLost` | sandboxed_api/sandbox2/util/asynchronous_byte_transport.cc:326-353 | a run in which that happens, for every buffer size |
| `TransportProgress.EverythingCanArrive` | sandboxed_api/sandbox2/util/asynchronous_byte_transport.cc:225-423 | from every state any interleaving without Terminate leads to, writer and reader alone, with enough reads, can get everything across: no state is a dead end |
| `TransportProgress.OneStepCloser` | sandboxed_api/sandbox2/util/asynchronous_byte_transport.cc:225-423 | in every such state the side whose turn it is can step and gets closer, in a well-founded order |
| `TransportProgress.WaitingIsAnnounced` | sandboxed_api/sandbox2/util/asynchronous_byte_transport.cc:387-402 | whoever goes to sleep has its bit in the word and sleeps on that very word |
| `TransportProgress.ParkWaits` | sandboxed_api/sandbox2/util/asynchronous_byte_transport.cc:431-449 | after the write of an exchange the reader waits exactly if the word is its read index without flags |

## Left out

- SyscallPolicy.Dispatch: a listed syscall that is not among the last 256 needs dispatch code of less than 2^32 instructions, which is what a helper jump can span; that takes a list of over two billion entries to fail.
- SyscallPolicy.DispatchReachesPolicy: the same bound, for such a syscall only.
- SyscallPolicy.CompileMeaning: the same bound, for such a syscall only.
- PolicyBuilder.FinalProgramMeaning: overridable lists, which the source does not limit in length, must have less than 2^31 syscalls each.
- PolicyBuilder.Builder.TryBuild: whether the Landlock, network and hostname settings are compatible is a parameter.
- Allocator.SimpleAllocator.Reallocate: after resizing a freed block the index is a set of keys as they were inserted; what the ordered container of the source does with an element whose key has changed is not modelled.
- SharedChannel.SharedMemoryRPCChannel.Reallocate: callers must not pass the address of a freed block, as for realloc in C.
- SharedChannel.SharedMemoryRPCChannel.ReallocateShared: the same.
- UnotifyMonitor.Monitor.HandleUnotify: that the response itself cannot be delivered is not modelled.
- MoveFds.Process.MoveFDs: targets of valid descriptors must be distinct; with equal targets the last one wins.
- Mounts.Mounts.InsertNode: the source walks the tree by pointer and changes it in place; here the path is rebuilt as a value.
- Shifts by 32 or more in BPF programs are undefined in the source and are errors here.
- The tracking policy and the permit-all and log-file modes: no decision is left to verify.
- The failed evaluation in HandleUnotify: the source sets a status and then uses the missing value; here it is an outcome of its own.
- Constructing Mounts from a stored MountSpecs, mount propagation flags and the mount system calls themselves.
- Relative and unclean paths in Mounts: paths are lists of components.
- RegisterCallback, UnregisterCallback, and the Exit, file-descriptor and thread messages of the RPC channel.
- Malformed messages from the sandboxee: both ends of the RPC protocol follow the source.
- Strlen, Symbol and the other channel calls that only forward.
- In the byte transport, the termination state local to each side and the flag for the last data read.
- The set-up phase and the graceful-exit phase of PtraceMonitor::Run, stack traces and resource usage.
- Overflow of the recursion depth of RecursiveMutex, which is a 32-bit int in the source.
- Namespaces, Landlock, the fork server, the executor, limits, the disassembler and the Allow* lists of the builder: little logic, or only easy members.
- contrib/ and oss-internship-2020/: wrappers around other libraries.
