# bpftime: verified models

bpftime runs eBPF programs in user space. This project models the parts of it that rewrite programs, that let
several parties share memory, or that do bounded arithmetic, and proves what they promise for every input and every
run; where threads, processors or a host work on the same memory, for every interleaving of their accesses.

- **Register guard** (`RegisterGuard*.dfy`, `PtxMachine.dfy`). A PTX function that carries a compiled eBPF program is
  rewritten line by line: registers declared at its top are saved after the declarations and restored before each
  return. The rewriting is modelled as the loops it is, over classified lines. A small-step machine for PTX text, with
  the meaning of ordinary instructions left as a parameter, gives the rewritten text its meaning. Proved: no line is
  lost, changed or reordered; exactly which registers are saved, from the declarations; every run that returns has them
  back; and the body does step for step what it did before if and only if every conditional return it comes to is
  harmless, since the guard restores in front of those whether or not they are taken. Registers are compared by value
  throughout.
- **Memory capture** (`Ebpf.dfy`, `Memcapture.dfy`). A generated eBPF prologue builds the text of a PTX line on the
  stack and is put in front of any program. Proved over an eBPF interpreter: which bytes the prologue leaves in memory,
  exactly which lines are captured as they are, that prologue and program together do what the program alone does, and
  that the string stays throughout the run of any program whose stores miss it.
- **System call trampoline** (`SyscallTrampoline.dfy`, `TrampolineRuns.dfy`). Two-byte system call instructions become
  calls to the address in rax, a sled of no-operations at address zero leads on to an assembly routine, and that one
  to the tracing hook. Proved over an x86-64 fragment: the hook receives the number and the six arguments the kernel
  would have received, the default hook hands the kernel those seven values, and control comes back behind the site
  with its stack.
- **GPU runtime** (`GpuProtocol*.dfy`, `GpuRing*.dfy`, `GpuThreadId.dfy`). Helper calls from GPU threads to the host
  through one shared request block guarded by a lock; a ring buffer per thread; thread numbers and the addresses
  computed from them. The first two are step machines in which threads and host interleave freely; the ring also lies
  in device memory byte by byte, where each store and the host's drain do what the steps do.
- **Map relocation** (`Relocation*.dfy`). Map descriptors in a loaded program become map ids.
  Proved: slot by slot is the same as instruction by instruction exactly when no second slot of a wide load looks like
  a reference, and the relocated program over ids behaves like the original over descriptors, with byte memory that
  helpers read and write, spilled map references, local calls, narrow loads and stores and atomic updates.
- **Packet helpers** (`Checksum.dfy`, `Xdp.dfy`). The checksum difference against RFC 1071 (section 2) and RFC 1624
  (section 3), and the helpers that move a packet's ends.
- **Kernel sections** (`KernelSections.dfy`). Finding a kernel's text by its braces and replacing it.
- **Daemon** (`ExecTracker*.dfy`, `PerfEvent*.dfy`). Which processes started and exited, from successive scans of a
  table; and the perf_event_open handlers that edit the caller's memory on entry and undo it on exit. The entry handler
  edits the request in one buffer that all processors share, so its accesses to that buffer and to memory are separate
  steps, and calls interleave freely. Proved: what a call's buffers hold at every point of every interleaving, and from
  that exactly when they are as they were.

`Words.dfy` holds fixed-width integers, little-endian words and byte-addressed memory; `Wrappers.dfy` an option type.

Code that loops or updates state is a method or a class here, tied by its `ensures` to a function, and the
properties are lemmas about that function.

## Where the code does less than one might expect

Each of these is stated as an exact condition, or as a lemma with a failing case beside the lemma for the rest.

- A conditional return gets a restoring block that runs whether or not the return is taken
  (`RegisterGuardMeaning.MeaningKeptIff`, `RegisterGuardExamples.EarlyExitChangesMeaning`).
- A function ends, for the guard, at the first line holding only a closing brace, and a parameter list on lines of its
  own leaves it unguarded (`RegisterGuardText.UnguardedAfterFirstClose`, `RegisterGuardText.GuardedIff`).
- A single register is not saved if a declaration with count 1 of the same base comes before it, although that one
  declares a different register (`RegisterGuardSaved.SavedIff`, `RegisterGuardSaved.SingleTakenForDuplicate`).
- A captured line loses characters past 0x8000, and characters from 128 on smear over their word
  (`Memcapture.PlainTextCapturedIff`, `Memcapture.CapturesIff`).
- The signal-return path reaches the kernel with the stack eight bytes too low: the instruction that would pop the
  return address is commented out (`TrampolineRuns.SigreturnShiftsStack`).
- A helper call's key is copied to the shared block before the lock is taken (`GpuProtocol.KeysRespectedIff`).
- A drain can overtake a push between its look at the dirty flag and its look at the tail (`GpuRing.TornDelivery`);
  a schedule delivers every record complete, whatever the records, if and only if that never happens in it
  (`GpuRingSchedules.AlwaysFifoIff`).
- Thread numbers are not row-major when a row starts past 31 bits (`GpuThreadId.GlobalIdIff`); they are then still
  unique in a single layer of fewer than 2^32 threads, or in layers of exactly that many, and in no other grid
  (`GpuThreadId.UniqueIff`).
- The comment in the checksum helper says that an overflowing sum comes out negative; past 32 bits it is positive
  again, and no longer congruent to the true difference (`Checksum.CongruentIff`, `Checksum.OverflowUnreported`). The
  model follows the code.
- A scan abandoned at a young process forgets the starts it has reported (`ExecTracker.RunFaithfulIff`,
  `ExecTracker.AbandonedScanRepeats`).
- The perf_event_open entry handlers of all processors edit requests in one static buffer. If another entry reads its
  request into it after this one has and before this one writes back, this caller gets the other's request, and exit
  does not undo that (`PerfEventRuns.RequestMixedUp`, `PerfEventRestore.RequestRestoredIff`). Another entry that only
  clears the offset there does no harm, since exit puts the offset back.
- An entry that lost the buffer to another call writes the new path over that call's path, even after its exit
  (`PerfEventRuns.PathMixedUp`, `PerfEventRestore.CallRestoredIff`). A call that has the buffer to itself, and is
  reported, has its request and path back (`PerfEventRestore.AloneRestoredIff`).
- Leaving perf_event_open writes all 255 bytes of the path's buffer (`PerfEventRestore.WindowRestoredIff`,
  `PerfEventRuns.ByteBehindPathLost`).
- Moving a packet's head past its headroom moves the bytes but not the end (`Xdp.PayloadKeptIff`), and may put them
  past the buffer (`Xdp.WritesInsideIff`).

## Model

| member | source | states |
|---|---|---|
| `RegisterGuard.FindOpeningBrace` | attach/nv_attach_impl/nv_attach_impl_register_guard_patcher.cpp:100-139 | the first opening brace reached over comments, blank lines and declarations only, or none |
| `RegisterGuard.CollectRegisters` | attach/nv_attach_impl/nv_attach_impl_register_guard_patcher.cpp:187-318 | the saved declarations in order, with predicates, stack pointers, unknown types, temporaries and duplicates left out |
| `RegisterGuard.EmitBlocks` | attach/nv_attach_impl/nv_attach_impl_register_guard_patcher.cpp:324-491 | save area, ascending stores and descending loads for all collected registers |
| `RegisterGuard.Instrument` | attach/nv_attach_impl/nv_attach_impl_register_guard_patcher.cpp:494-587 | what is put in front of each line of a function, and that empty lines vanish |
| `RegisterGuard.GuardFunction` | attach/nv_attach_impl/nv_attach_impl_register_guard_patcher.cpp:98-587 | the guarded text of one captured function; unchanged if no opening brace is found |
| `RegisterGuard.AddRegisterGuard` | attach/nv_attach_impl/nv_attach_impl_register_guard_patcher.cpp:54-599 | the guarded text of a whole input, functions left open included |
| `RegisterGuardText.GuardKeepsLines` | attach/nv_attach_impl/nv_attach_impl_register_guard_patcher.cpp:79-97 | for every text, each output line is an input line or of a kind the guard inserts, and every input line that is not empty comes through once, unchanged and in order |
| `RegisterGuardText.EndInsertionsNeverMade` | attach/nv_attach_impl/nv_attach_impl_register_guard_patcher.cpp:559-574 | in every captured function the insertion point lies before the last line, so neither insertion at the end happens |
| `RegisterGuardText.CapturedShape` | attach/nv_attach_impl/nv_attach_impl_register_guard_patcher.cpp:79-97 | what the scan captures is a header, lines up to a brace, and a body whose only closing-brace line is the last |
| `RegisterGuardText.GuardedIff` | attach/nv_attach_impl/nv_attach_impl_register_guard_patcher.cpp:100-139 | a captured function is instrumented if and only if nothing but comments, blank lines and declarations precede its opening brace |
| `RegisterGuardText.UnguardedAfterFirstClose` | attach/nv_attach_impl/nv_attach_impl_register_guard_patcher.cpp:79-97 | lines after the first closing-brace line of a body are copied as they are until the next header |
| `RegisterGuardText.CapturedIff` | attach/nv_attach_impl/nv_attach_impl_register_guard_patcher.cpp:79-97 | lines are taken for one function if and only if they begin with a header, have a lone opening brace, and end with the first lone closing one behind it |
| `RegisterGuardText.GuardedPieces` | attach/nv_attach_impl/nv_attach_impl_register_guard_patcher.cpp:79-97 | in every text, each function is replaced by its guarded text, and what is in front and behind is treated as if it stood alone |
| `RegisterGuardText.OutsideCopied` | attach/nv_attach_impl/nv_attach_impl_register_guard_patcher.cpp:79-97 | text without a function header is copied |
| `RegisterGuardSaved.DecimalReads` | attach/nv_attach_impl/nv_attach_impl_register_guard_patcher.cpp:275-291 | a register's number is written with digits that read back give the number, without leading zeros |
| `RegisterGuardSaved.SavedIff` | attach/nv_attach_impl/nv_attach_impl_register_guard_patcher.cpp:198-318 | from the declarations alone: a register is saved with a width if and only if a declaration of that width that the test for duplicates lets through introduces it: each of the N numbered ones of a declaration with a count, or the one named |
| `RegisterGuardSaved.FirstOfBaseSaved` | attach/nv_attach_impl/nv_attach_impl_register_guard_patcher.cpp:260-318 | in particular every register of a base declared for the first time, of a listed type, that is no stack pointer and no temporary |
| `RegisterGuardSaved.SingleTakenForDuplicate` | attach/nv_attach_impl/nv_attach_impl_register_guard_patcher.cpp:243-258 | a single register declared behind one counted register of the same base is not saved |
| `RegisterGuardSaved.DeclarationsEnd` | attach/nv_attach_impl/nv_attach_impl_register_guard_patcher.cpp:141-174 | the declarations are the lines behind the opening brace up to the first that is no declaration, comment or blank line |
| `RegisterGuardSaved.DeclaredRestored` | attach/nv_attach_impl/nv_attach_impl_register_guard_patcher.cpp:198-557 | on every run to a recognised return, every register that one declaration introduces and that is chosen for saving has its entry value again, if that was no wider than its type |
| `RegisterGuardBlocks.ModifierWidth` | attach/nv_attach_impl/nv_attach_impl_register_guard_patcher.cpp:23-52 | the storage modifier chosen for a register size moves exactly that many bytes |
| `RegisterGuardBlocks.CollectedUsable` | attach/nv_attach_impl/nv_attach_impl_register_guard_patcher.cpp:198-318 | every saved register has a valid storage type and is not one of the two temporaries |
| `RegisterGuardBlocks.PushEffect` | attach/nv_attach_impl/nv_attach_impl_register_guard_patcher.cpp:383-430 | the saving block runs through, changes no register but the temporaries, and fills every slot of the area |
| `RegisterGuardBlocks.PopEffect` | attach/nv_attach_impl/nv_attach_impl_register_guard_patcher.cpp:432-491 | the restoring block runs through and brings back the saved registers, leaving the others and the area alone |
| `RegisterGuardCorrect.Placed` | attach/nv_attach_impl/nv_attach_impl_register_guard_patcher.cpp:498-557 | where the inserted text and the line itself stand in the guarded code, for every line |
| `RegisterGuardCorrect.LabelPlaced` | attach/nv_attach_impl/nv_attach_impl_register_guard_patcher.cpp:498-557 | a jump in the guarded code goes to the line the jump went to before, past the saving block and any restoring block |
| `RegisterGuardCorrect.GuardRestores` | attach/nv_attach_impl/nv_attach_impl_register_guard_patcher.cpp:332-557 | on every run that reaches a recognised return, each saved register holds its entry value, cut to the width it was saved with |
| `RegisterGuardCorrect.GuardRestoresValues` | attach/nv_attach_impl/nv_attach_impl_register_guard_patcher.cpp:332-557 | a register declared once and no wider than its type holds exactly its entry value |
| `RegisterGuardMeaning.MeaningKeptIff` | attach/nv_attach_impl/nv_attach_impl_register_guard_patcher.cpp:498-557 | for every function, start and n, the guarded run does with the text made from the first n executed lines what the original does with those lines, same register values, memory and executed instructions, if and only if every conditional return the original comes to is harmless |
| `RegisterGuardMeaning.GuardPreservesMeaning` | attach/nv_attach_impl/nv_attach_impl_register_guard_patcher.cpp:141-174 | as long as none does harm, every point of the original run has a point of the guarded run at the same line with the same executed instructions, registers and memory, and it ends the same way |
| `RegisterGuardMeaning.PlainIsHarmless` | attach/nv_attach_impl/nv_attach_impl_register_guard_patcher.cpp:504-557 | functions without conditional returns, and functions that save no register, are harmless throughout |
| `RegisterGuardMeaning.RestoringKeepsIff` | attach/nv_attach_impl/nv_attach_impl_register_guard_patcher.cpp:432-491 | a restoring block leaves every register outside the temporaries with the value it had if and only if all saved registers hold the value it would put there |
| `RegisterGuardMeaning.GuardEndsOnlyIf` | attach/nv_attach_impl/nv_attach_impl_register_guard_patcher.cpp:498-557 | if the guarded run ends then the original run ends, alike |
| `RegisterGuardExamples.EarlyExitChangesMeaning` | attach/nv_attach_impl/nv_attach_impl_register_guard_patcher.cpp:504-557 | a function with a conditional return that publishes 7 publishes 0 once guarded |
| `Ebpf.ShiftRun` | attach/nv_attach_impl/nv_attach_impl_patcher.cpp:245-246 | a program behind any prefix runs step for step as it did alone, shifted, if its jumps stay inside it |
| `Ebpf.EscapeRunsPrefix` | attach/nv_attach_impl/nv_attach_impl_patcher.cpp:245-246 | a jump in front of the program faults alone but lands in the prefix behind one |
| `Ebpf.LocalCallReturns` | vm/llvm-jit/src/compiler.cpp:1018-1070 | a local call goes to its target one frame lower, and when the callee leaves, the caller goes on behind the call with r6 to r9, frame pointer and frames as before |
| `Ebpf.ParameterSteps` | vm/llvm-jit/src/compiler.cpp:354-1084 | instructions given by parameters do what those say and go on to the next slot, two-slot loads to the one after |
| `Memcapture.PackWord` | attach/nv_attach_impl/nv_attach_impl_patcher.cpp:212-220 | the loop that or-s up to eight shifted characters into a word |
| `Memcapture.PrependCapture` | attach/nv_attach_impl/nv_attach_impl_patcher.cpp:190-246 | the prologue for a line, followed by the program unchanged |
| `Memcapture.PackedBytes` | attach/nv_attach_impl/nv_attach_impl_patcher.cpp:212-220 | the eight bytes of a packed word, for all characters: each one, or ones after a negative one |
| `Memcapture.PrologueRuns` | attach/nv_attach_impl/nv_attach_impl_patcher.cpp:190-244 | the state after the prologue: lowered r10, r1 at the string, each word stored at its 16-bit offset |
| `Memcapture.CapturesIff` | attach/nv_attach_impl/nv_attach_impl_patcher.cpp:183-244 | for at most 0x8000 characters, r1 points at exactly the line and a NUL if and only if no negative character smears over a different one |
| `Memcapture.LongLineLost` | attach/nv_attach_impl/nv_attach_impl_patcher.cpp:238-243 | in a longer line character 0x8000 is never stored |
| `Memcapture.PlainTextCapturedIff` | attach/nv_attach_impl/nv_attach_impl_patcher.cpp:183-244 | plain text is captured on every start if and only if it has at most 0x8000 characters |
| `Memcapture.ProbeRuns` | attach/nv_attach_impl/nv_attach_impl_patcher.cpp:190-246 | prologue and program together run the prologue and then do what the program alone does from there |
| `Memcapture.StringStays` | attach/nv_attach_impl/nv_attach_impl_patcher.cpp:190-246 | after every number of steps of every program, with stores of any width through any register and local calls, the line and a NUL are where the prologue put them, as long as no store but those below r10 meets them and helpers spare them |
| `Memcapture.TameRun` | vm/llvm-jit/src/compiler.cpp:1018-1070 | over every run of such steps, r10 is its entry value less one frame per local call under way, and the bytes they spare are unchanged |
| `Memcapture.FilterUnprintable` | attach/nv_attach_impl/nv_attach_impl.cpp:414-434 | exactly the tabs, line feeds and bytes from 32 to 126 up to the last closing brace, in order, all of them plain text |
| `Memcapture.PrintablesAre` | attach/nv_attach_impl/nv_attach_impl.cpp:414-429 | exactly tabs, line feeds and bytes from 32 to 126 come through, each at the place that the number of those before it gives |
| `Memcapture.FilteredLinesSafe` | attach/nv_attach_impl/nv_attach_impl.cpp:414-434 | every line cut out of filtered text meets the condition for being captured as it is |
| `SyscallTrampoline.WriteSled` | attach/text_segment_transformer/text_segment_transformer.cpp:206-236 | the page starts with 512 no-operations and the jump to the hook routine; the rest of it is as before |
| `SyscallTrampoline.RewriteSegment` | attach/text_segment_transformer/text_segment_transformer.cpp:138-156 | code with each reported kernel entry rewritten, in place |
| `SyscallTrampoline.EntriesPatched` | attach/text_segment_transformer/text_segment_transformer.cpp:146-154 | every reported kernel entry but the tracer's own ends up as a call through rax, later rewrites notwithstanding |
| `SyscallTrampoline.RestUnchanged` | attach/text_segment_transformer/text_segment_transformer.cpp:146-154 | no other byte of the segment changes |
| `X86.DecodedIff` | attach/text_segment_transformer/text_segment_transformer.cpp:139-236 | which of the bytes that are written or replaced are which instruction, both ways |
| `TrampolineRuns.ReachesHook` | attach/text_segment_transformer/text_segment_transformer.cpp:206-236 | from a patched site with a number up to 512, the hook routine is entered with return address and number on the stack |
| `TrampolineRuns.SiteCallsHook` | attach/text_segment_transformer/text_segment_transformer.cpp:57-85 | for every register state and number up to 512 but 15, the hook is called with the number and the six system call arguments, on an aligned stack |
| `TrampolineRuns.SiteReturns` | attach/text_segment_transformer/text_segment_transformer.cpp:84-85 | whatever a hook does within its calling convention, control returns behind the site with its rsp, rbp and stack, and the hook's result |
| `TrampolineRuns.DefaultHookCallsKernel` | attach/text_segment_transformer/text_segment_transformer.cpp:87-100 | called with seven arguments, the default hook executes a system call with exactly those |
| `TrampolineRuns.TracedCallIsOriginalCall` | attach/text_segment_transformer/text_segment_transformer.cpp:108-113 | site, hook and default hook together hand the kernel the call the site would have made |
| `TrampolineRuns.SigreturnShiftsStack` | attach/text_segment_transformer/text_segment_transformer.cpp:59-100 | signal return reaches the kernel with number and arguments in place and rsp eight bytes low |
| `TrampolineRuns.Beyond512` | attach/text_segment_transformer/text_segment_transformer.cpp:206-236 | with number 513 the hook routine takes the return address for the number |
| `GpuProtocol.RunInv` | attach/nv_attach_impl/trampoline_ptx.h:98-121 | every state of every interleaving of any number of threads with the host satisfies the protocol's invariant |
| `GpuProtocol.MutualExclusion` | attach/nv_attach_impl/trampoline_ptx.h:100-120 | at most one thread is between taking and releasing the lock |
| `GpuProtocol.OutstandingRequestStable` | attach/nv_attach_impl/trampoline_ptx.h:104-119 | while a thread waits, the block holds its request and map, and a raised response is for them |
| `GpuProtocol.ResultsAnswerCalls` | runtime/src/attach/bpf_attach_ctx_cuda.cpp:76-186 | the k-th result read is the host's answer to the k-th call raised, and goes to the thread that raised it |
| `GpuProtocolCalls.AnswerGiven` | runtime/src/attach/bpf_attach_ctx_cuda.cpp:76-186 | in every interleaving, the k-th answer was given in one step of the host to the k-th call: for the six known requests with its request and map, the key then in the block and the value that step computed, for others what was there |
| `GpuProtocolCalls.CallBegun` | attach/nv_attach_impl/trampoline_ptx.h:98-121 | every call raised is one its thread began, for that request, map and key |
| `GpuProtocolCalls.CallCompletes` | attach/nv_attach_impl/trampoline_ptx.h:98-121 | from every state reached with the lock free, an idle thread can complete a call: it reads the host's answer to it, and lock and flags are free again |
| `GpuProtocol.KeysMixedUp` | attach/nv_attach_impl/trampoline_ptx.h:286-317 | any two threads have an interleaving in which the first one's call is answered for the second one's key |
| `GpuProtocol.KeysRespectedIff` | attach/nv_attach_impl/trampoline_ptx.h:346-369 | with a key per call, calls are answered for their own key in every interleaving if and only if no two threads may use different keys |
| `GpuRing.RunInv` | attach/nv_attach_impl/trampoline_ptx.h:991-1091 | in every interleaving of pushing and draining steps, head <= tail <= head + capacity and no unread record is overwritten |
| `GpuRing.FullPushRefused` | attach/nv_attach_impl/trampoline_ptx.h:991-996 | a push onto a full ring changes nothing |
| `GpuRing.DeliveryComplete` | runtime/src/bpf_map/gpu/nv_gpu_ringbuf_map.cpp:46-69 | a delivered record is complete unless it is not all written yet or the ring has come round and its slot is written again |
| `GpuRing.DrainDelivers` | runtime/src/bpf_map/gpu/nv_gpu_ringbuf_map.cpp:46-69 | an undisturbed drain changes nothing or delivers the oldest undelivered record, complete |
| `GpuRing.FifoSteps` | runtime/src/bpf_map/gpu/nv_gpu_ringbuf_map.cpp:46-69 | over every interleaving of single pushing and draining steps in which no record is handed on before it is all written or when its slot is written again, what was delivered is the first records pushed, in order and complete |
| `GpuRingSchedules.AlwaysFifoIff` | runtime/src/bpf_map/gpu/nv_gpu_ringbuf_map.cpp:46-69 | for every order of steps, what was delivered is the first records pushed, in order and complete, whatever the records are, if and only if no delivery in it comes before its record is all written or when its slot is written again |
| `GpuRingSchedules.TearShows` | runtime/src/bpf_map/gpu/nv_gpu_ringbuf_map.cpp:46-69 | for every order of steps with such a delivery there are records with which it is seen |
| `GpuRing.FifoRun` | runtime/src/bpf_map/gpu/nv_gpu_ringbuf_map.cpp:46-69 | the same without that condition when each drain happens in one piece |
| `GpuRing.TornDelivery` | runtime/src/bpf_map/gpu/nv_gpu_ringbuf_map.cpp:46-69 | an interleaving in which a drain delivers a record that is still being written |
| `GpuRingBytes.CopyBytes` | attach/nv_attach_impl/trampoline_ptx.h:1041-1089 | the unrolled copy with its remainder writes exactly the first n bytes and nothing else, for every length |
| `GpuRingBytes.WriteWord` | attach/nv_attach_impl/trampoline_ptx.h:1038-1040 | a number's little-endian bytes at one place of the buffer, nothing else |
| `GpuRingBytes.CopyRecord` | attach/nv_attach_impl/trampoline_ptx.h:1041-1089 | a whole record at its place |
| `GpuRingBytes.Push` | attach/nv_attach_impl/trampoline_ptx.h:957-1095 | 2 and an unchanged buffer if full, else 0, the buffer with the record written, and what memory was after each store |
| `GpuRingBytes.PushAppends` | attach/nv_attach_impl/trampoline_ptx.h:991-1095 | an accepted push appends its record to the unread ones read back from the bytes, keeps the counters in range, leaves the dirty flag clear, and touches no other thread's region |
| `GpuRingBytes.DirtyThroughout` | attach/nv_attach_impl/trampoline_ptx.h:996-1091 | the dirty flag is set before the tail moves, stays set whatever part of the data is copied, and is clear when all is written |
| `GpuRingBytes.PushedLayout` | attach/nv_attach_impl/trampoline_ptx.h:991-1091 | in plain numbers, where tail, flag, size and data are after a push |
| `GpuRingBytes.RegionsApart` | runtime/src/bpf_map/gpu/nv_gpu_ringbuf_map.cpp:18-21 | regions of different threads do not overlap |
| `GpuRingDrain.DrainData` | runtime/src/bpf_map/gpu/nv_gpu_ringbuf_map.cpp:46-69 | memory and deliveries after the loop over all threads' rings |
| `GpuRingDrain.DrainDelivers` | runtime/src/bpf_map/gpu/nv_gpu_ringbuf_map.cpp:46-69 | for any number of rings and all contents, a drain goes up to the first dirty ring, hands on the oldest unread record of each ring before it, in order, and takes just those out |
| `GpuRingDrain.PushThenDrain` | runtime/src/bpf_map/gpu/nv_gpu_ringbuf_map.cpp:46-69 | after an accepted push with no ring dirty, the next drain hands on that ring's oldest record |
| `GpuRingDrain.PushRefines` | attach/nv_attach_impl/trampoline_ptx.h:991-1091 | each store of a push does to the bytes what the pushing thread's step does to the ring of the step machine |
| `GpuRingDrain.DrainRefines` | runtime/src/bpf_map/gpu/nv_gpu_ringbuf_map.cpp:50-66 | draining one ring in memory does what the drain in one piece does to that ring, and hands on the same slot |
| `GpuThreadId.GlobalIdValue` | attach/nv_attach_impl/trampoline_ptx.h:134-158 | the computed number is the row-major one plus what the 32-bit row product lost |
| `GpuThreadId.GlobalIdIff` | attach/nv_attach_impl/trampoline_ptx.h:134-158 | every thread computes its row-major number if and only if the last row starts within 31 bits |
| `GpuThreadId.GlobalIdInRange` | attach/nv_attach_impl/trampoline_ptx.h:134-158 | then every number is below the grid's thread count |
| `GpuThreadId.FirstThread` | attach/nv_attach_impl/trampoline_ptx.h:134-158 | the first thread of the first block has number 0 |
| `GpuThreadId.NextThread` | attach/nv_attach_impl/trampoline_ptx.h:134-137 | the next thread of a block has the next number, and the same thread of the next block one higher by the threads of a block |
| `GpuThreadId.NextRow` | attach/nv_attach_impl/trampoline_ptx.h:138-156 | if rows start within 31 bits, a thread one row up has a number higher by a row, and one block up by a block's rows |
| `GpuThreadId.NextLayer` | attach/nv_attach_impl/trampoline_ptx.h:142-157 | a thread one layer up has a number higher by a layer, and one block up by a block's layers |
| `GpuThreadId.UniqueIff` | attach/nv_attach_impl/trampoline_ptx.h:134-158 | different threads have different numbers if and only if all rows start within 31 bits, layers have exactly 2^32 threads, or there is one layer of fewer |
| `GpuThreadId.UniqueExamples` | attach/nv_attach_impl/trampoline_ptx.h:154-158 | a grid with wrapped but unique numbers, and one with repeated ones |
| `GpuThreadId.ValueAddressIs` | attach/nv_attach_impl/trampoline_ptx.h:172-205 | the wrapping address computation gives the value's place in the buffer, inside it |
| `GpuThreadId.ValuesApart` | runtime/src/bpf_map/gpu/nv_gpu_array_map.cpp:45-60 | different keys or threads get values that do not overlap |
| `Relocation.Relocate` | daemon/user/bpftime_driver.cpp:88-119 | the slots before the first unknown map are relocated and the rest unchanged; success means all are |
| `Relocation.OnlyMapRefsChange` | runtime/syscall-server/syscall_context.cpp:284-320 | nothing but the constant of a wide load with source 1 or 2 changes |
| `Relocation.RelocatedIs` | daemon/user/bpftime_driver.cpp:92-108 | in plain numbers, which slots get which constant |
| `Relocation.AllKnownIff` | daemon/user/bpftime_driver.cpp:94-101 | a program is relocated whole if and only if every referenced descriptor has an id that is not negative |
| `Relocation.SlotwiseIff` | daemon/user/bpftime_driver.cpp:88-119 | relocating slot by slot equals relocating instruction by instruction, for all ids, if and only if no second slot looks like a reference |
| `Relocation.AcceptedHidesNothing` | vm/llvm-jit/src/compiler.cpp:773-880 | programs whose second slots are blank hide no reference |
| `Relocation.PointerRoundTrip` | runtime/src/bpftime_shm.cpp:631-646 | a helper finds behind a map's pointer exactly that map, and none behind the invalid pointer |
| `Relocation.PointerIs` | runtime/src/bpftime_shm.cpp:631-646 | a map's pointer has the id in its upper half and ones in its lower |
| `RelocationMeaning.RelocationPreservesMeaning` | runtime/src/bpf_helper.cpp:375-396 | for every program and number of steps, registers, saved frames, every byte of memory, maps and outcome of the relocated run over ids are those of the original run over descriptors, with each map reference replaced by its pointer |
| `RelocationMeaning.HelperAlike` | runtime/src/bpf_helper.cpp:375-417 | a helper that reads program memory, but no spilled map reference, returns and writes the same on both sides |
| `RelocationMeaning.ValueAlike` | runtime/src/bpftime_shm.cpp:631-646 | a spilled map reference is read back as its pointer |
| `RelocationMachine.StoreIs` | vm/llvm-jit/src/compiler.cpp:712-735 | what a store of each width writes, and that nothing else changes |
| `RelocationMachine.LoadIs` | vm/llvm-jit/src/compiler.cpp:737-756 | what a load of each width reads |
| `RelocationMachine.SpilledReference` | vm/llvm-jit/src/compiler.cpp:751-756 | a map reference stored whole is read back, and part of one cannot be read |
| `RelocationMachine.AtomicIs` | vm/llvm-jit/src/compiler.cpp:1234-1330 | what an atomic instruction of each width replaces, and where the number that was there goes |
| `RelocationMachine.ArithmeticIs` | vm/llvm-jit/src/compiler.cpp:354-708 | which registers arithmetic looks at and which it writes |
| `RelocationMachine.JumpIs` | vm/llvm-jit/src/compiler.cpp:994-1232 | where each jump leads |
| `RelocationMachine.CallReturns` | vm/llvm-jit/src/compiler.cpp:1018-1099 | a local call goes one frame lower, and on return the caller has r6 to r9, frame pointer and frames as before |
| `RelocationMachine.WideIs` | vm/llvm-jit/src/compiler.cpp:758-880 | what a two-slot load puts into its register: a constant, a map's pointer, or the address in a map's first value |
| `RelocationMachine.HelperIs` | vm/llvm-jit/src/compiler.cpp:1018-1084 | which arguments a helper gets, and where its result and the bytes it writes go |
| `RelocationMachine.InterpretersAgree` | vm/llvm-jit/src/compiler.cpp:354-1232 | on the instructions both spell out, this machine and the interpreter for generated code take the same step |
| `Checksum.CsumDiff` | runtime/src/bpf_helper.cpp:623-654 | the loops with wrapping sums return the wrapped total, or the error for odd sizes and negative totals |
| `Checksum.SumInBytes` | runtime/src/bpf_helper.cpp:634-637 | the words' sum is that of the bytes at even places plus 256 times that of those at odd places |
| `Checksum.ResultInBytes` | runtime/src/bpf_helper.cpp:623-654 | for all arguments, the result in terms of the buffers' bytes: -22 for odd sizes and for sums with the top bit set, else the low 32 bits |
| `Checksum.HalvesAdded` | runtime/src/bpf_helper.cpp:634-637 | one 32-bit number alone gives the sum of its halves |
| `Checksum.ExactIff` | runtime/src/bpf_helper.cpp:633-651 | the result is the true sum if and only if that lies between 0 and 2^31, or is the error code itself |
| `Checksum.OverflowUnreported` | runtime/src/bpf_helper.cpp:645-651 | a sum in the range just above 2^32 comes out as a plain positive number |
| `Checksum.CongruentIff` | runtime/src/bpf_helper.cpp:623-654 | for all buffers, the result is no error and congruent to seed plus new words minus old words modulo 65535 if and only if the words add up to less than 2^31 |
| `Checksum.ShortEnough` | runtime/src/bpf_helper.cpp:645-648 | that holds whenever seed and 65535 for each word stay below 2^31 |
| `Checksum.TurnsLost` | runtime/src/bpf_helper.cpp:633-651 | a result that is no error is the true sum less fewer than 2^15 full turns of 32 bits |
| `Checksum.DiffIs` | runtime/src/bpf_helper.cpp:633-643 | the unwrapped difference, in terms of the two sums |
| `Checksum.ChainIff` | runtime/src/bpf_helper.cpp:623-654 | calling for a to b, then with that result for b to c, gives no error and the right residue for a to c if and only if the words of both calls stay below 2^31, and then one call from a to c agrees |
| `Checksum.FoldIs` | runtime/src/bpf_helper.cpp:623-654 | end-around carry folding gives the residue modulo 65535, with 65535 for zero residues of positive numbers |
| `Checksum.FoldAlikeIff` | runtime/src/bpf_helper.cpp:623-654 | congruent sums fold alike if and only if both or neither are zero |
| `Checksum.PatchAgreesIff` | runtime/src/bpf_helper.cpp:623-654 | folding the helper's result for a packet's folded sum gives the patched packet's folded sum if and only if the words stay below 2^31 and that packet has a nonzero word or nothing was replaced in one that had none |
| `KernelSections.SectionEnd` | attach/nv_attach_impl/nv_attach_impl_patcher.cpp:297-309 | the scan ends at the first place where the braces opened since the header balance |
| `KernelSections.ClosesUnique` | attach/nv_attach_impl/nv_attach_impl_patcher.cpp:297-309 | there is at most one such place |
| `KernelSections.ClosesMoves` | attach/nv_attach_impl/nv_attach_impl_patcher.cpp:297-309 | where a section ends depends on nothing outside it |
| `KernelSections.BlockCloses` | attach/nv_attach_impl/nv_attach_impl_patcher.cpp:297-309 | for every nesting of blocks, a kernel's section ends right behind the block that follows its header |
| `KernelSections.PatchedSlices` | attach/nv_attach_impl/nv_attach_impl_patcher.cpp:340-345 | the patched text is the probe, a line feed, what was in front, the new section and what was behind |
| `KernelSections.OthersUntouched` | attach/nv_attach_impl/nv_attach_impl_patcher.cpp:322-345 | patching one kernel moves every other kernel's section but keeps its text and where it ends |
| `ExecTracker.Tracker.constructor` | daemon/user/bpf_tracer.cpp:80-80 | nothing is believed to run and nothing has been reported |
| `ExecTracker.Tracker.Scan` | daemon/user/bpf_tracer.cpp:71-126 | the remembered processes and the reports after one scan, abandoned or not |
| `ExecTracker.ReportExits` | daemon/user/bpf_tracer.cpp:118-123 | one exit notice for each process left over, in order |
| `ExecTrackerReports.ScanReports` | daemon/user/bpf_tracer.cpp:80-124 | from the table alone: remembered are exactly the listed processes with their records, a start is reported for exactly those not remembered before, an exit for exactly those no longer listed |
| `ExecTrackerReports.AbandonedReports` | daemon/user/bpf_tracer.cpp:98-107 | an abandoned scan changes no memory of processes and has reported starts for exactly the unknown ones listed before the young one |
| `ExecTracker.FaithfulAt` | daemon/user/bpf_tracer.cpp:80-124 | for one process, a scan keeps its reports alternating and its belief right if and only if it was seen at most once and no start was forgotten |
| `ExecTracker.ScanFaithfulIff` | daemon/user/bpf_tracer.cpp:80-124 | the same for all processes at once |
| `ExecTracker.RunFaithfulIff` | daemon/user/bpf_tracer.cpp:80-124 | over every run of scans, after each of them starts and exits of each process alternate beginning with a start and exactly the started ones are remembered, if and only if every scan sees each process at most once and forgets no start |
| `ExecTracker.AbandonedScanRepeats` | daemon/user/bpf_tracer.cpp:102-107 | two abandoned scans report the same start twice |
| `PerfEvent.Tracer.constructor` | daemon/kernel/bpf_tracer.bpf.c:387-392 | no calls under way, the shared buffer zero, memory as given |
| `PerfEvent.Tracer.OnEnter` | daemon/kernel/bpf_tracer.bpf.c:468-487 | the arguments, path and offset that entry notes, if the thread is traced |
| `PerfEvent.Tracer.OnGo` | daemon/kernel/bpf_tracer.bpf.c:394-498 | the next access of the entry handler: reading the request into the shared buffer, clearing the offset there, writing the path it names, writing it back, storing the record |
| `PerfEvent.Tracer.OnExit` | daemon/kernel/bpf_tracer.bpf.c:500-550 | memory and records after the exit handler |
| `PerfEventRuns.EnterTracesIff` | daemon/kernel/bpf_kernel_config.h:28-39 | entering begins a handler if and only if there is no target or the thread is it, and the thread is not the daemon's, and does nothing else |
| `PerfEventRuns.ExitActsIff` | daemon/kernel/bpf_tracer.bpf.c:500-550 | leaving does something if and only if the thread is traced, has a record, and there is room for its event if it is to be reported |
| `PerfEventRuns.EditedIff` | daemon/kernel/bpf_tracer.bpf.c:394-444 | in terms of memory: which requests an uninterrupted entry redirects, and which are reported |
| `PerfEventRuns.RedirectionBytes` | daemon/kernel/bpf_tracer.bpf.c:410-411 | a redirected request is the request with bytes 64 to 71 zero |
| `PerfEventRuns.PathLenIs` | daemon/kernel/bpf_tracer.bpf.c:412-415 | how many bytes of a path are copied: up to its terminator, 254 at most |
| `PerfEventRestore.RunDescribed` | daemon/kernel/bpf_tracer.bpf.c:387-550 | in every interleaving of any calls and writes, at every point, each byte of a call's request and of the 255 at its path: what was noted, what was last written back from the shared buffer, the new path as far as anyone wrote it there, or what exit put back |
| `PerfEventRestore.CallRestoredIff` | daemon/kernel/bpf_tracer.bpf.c:538-542 | for every schedule and all contents, at every point, the request is as it was if and only if what was written back agrees with it outside what exit put back, and the path with its terminator if and only if what of the new path lies over it agrees with it |
| `PerfEventRestore.RequestRestoredIff` | daemon/kernel/bpf_tracer.bpf.c:401-432 | for every schedule of different requests, at every point, the request is as it was if and only if it was not written back, or no other entry read its request into the shared buffer in between and exit put the offset back or it was zero |
| `PerfEventRestore.AloneRestoredIff` | daemon/kernel/bpf_tracer.bpf.c:401-542 | for every schedule in which a call has the shared buffer to itself, whatever others do to buffers of their own, its request and its path are as they were if and only if exit reported it or entry wrote nothing that differs |
| `PerfEventRestore.WindowRestoredIff` | daemon/kernel/bpf_tracer.bpf.c:538-540 | for every schedule and all contents, at every point, all 255 bytes at the path are as they were if and only if what of the new path lies there, and the zeros exit put behind a reported path, agree with them |
| `PerfEventRuns.EntryAlone` | daemon/kernel/bpf_tracer.bpf.c:394-498 | an entry that nothing interrupts redirects exactly the uprobe requests that may be hooked and have a readable path, and reports exactly those or, without redirection, all uprobe requests |
| `PerfEventRuns.EntryOverwrites` | daemon/kernel/bpf_tracer.bpf.c:404-434 | a redirected request has a zero offset and the new path, cut to the length of its own, in place of it, and nothing else changes |
| `PerfEventRuns.RequestMixedUp` | daemon/kernel/bpf_tracer.bpf.c:401-432 | a schedule of two calls that leaves one caller with the other's path in its request |
| `PerfEventRuns.PathMixedUp` | daemon/kernel/bpf_tracer.bpf.c:424-426 | a schedule of two calls in which one writes the new path over the other's path after that one's exit |
| `PerfEventRuns.ByteBehindPathLost` | daemon/kernel/bpf_tracer.bpf.c:539-540 | a byte in use behind an empty path is zeroed |
| `PerfEventRuns.UnreportedStaysEdited` | daemon/kernel/bpf_tracer.bpf.c:516-523 | if no event can be reserved, exit leaves the edits in place and the record stored |
| `Xdp.XdpMd.MoveHead` | runtime/src/bpf_helper.cpp:658-674 | success exactly when an Ethernet header is left; the new start; memory unchanged within the headroom, else the packet's bytes copied behind the buffer's start; nothing changed on refusal |
| `Xdp.XdpMd.MoveTail` | runtime/src/bpf_helper.cpp:676-686 | success exactly when the new end lies between start and buffer end; only the end changes; nothing on refusal |
| `Xdp.XdpMd.LoadBytes` | runtime/src/bpf_helper.cpp:688-698 | succeeds if and only if all bytes asked for are in the packet, and returns exactly those |
| `Xdp.MoveKeepsValid` | runtime/src/bpf_helper.cpp:658-686 | every move keeps the packet inside its buffer, and a refused one changes nothing |
| `Xdp.RunKeepsValid` | runtime/src/bpf_helper.cpp:658-686 | so does every run of moves |
| `Xdp.HeadSucceedsIff` | runtime/src/bpf_helper.cpp:661-663 | a head move returns 0 if at least 14 bytes stay behind the new start, else -22 |
| `Xdp.TailSucceedsIff` | runtime/src/bpf_helper.cpp:679-684 | a tail move returns 0 and sets the end if the new end lies between start and buffer end, else -22 |
| `Xdp.HeadMovesCompose` | runtime/src/bpf_helper.cpp:658-674 | successful head moves within the headroom add up |
| `Xdp.PayloadKeptIff` | runtime/src/bpf_helper.cpp:664-672 | a successful head move keeps the packet's bytes if and only if it stays within the headroom |
| `Xdp.MovedBytes` | runtime/src/bpf_helper.cpp:664-672 | past the headroom, the bytes that still fit stand behind a gap |
| `Xdp.WritesInsideIff` | runtime/src/bpf_helper.cpp:664-672 | a successful head move leaves memory outside the buffer alone, whatever memory holds, if and only if it is within the headroom, has nothing to copy, or the copy ends inside the buffer |
| `Xdp.RunStaysInBuffer` | runtime/src/bpf_helper.cpp:658-686 | over every run of such moves, memory outside the buffer is unchanged |
| `Xdp.CopyPastBuffer` | runtime/src/bpf_helper.cpp:664-672 | a head move that copies past the buffer |

## Left out

- RegisterGuard.CollectRegisters: the regular expressions that sort lines into kinds are taken as given, so lines arrive classified; a return the pattern misses is a kind of its own and gets no restoring block.
- RegisterGuard.EmitBlocks: offsets are unbounded numbers; the original's int overflows past 2^28 registers.
- RegisterGuardMeaning.GuardPreservesMeaning: requires the conditional returns the run comes to to be harmless, because the property is false otherwise; MeaningKeptIff shows the condition to be exact.
- RegisterGuardCorrect.GuardRestores: `.f64x2` registers count as 8 bytes wide, as in the code.
- Ebpf.ShiftRun: the interpreter has the wide load, stores of all widths, moves, subtraction, jumps, calls and exit; all other instructions are a parameter of the machine.
- Memcapture.PrologueRuns: r10 is assumed to have room for the line below it; the size of the stack is not modelled.
- Memcapture.StringStays: helpers and instructions the interpreter does not spell out are a parameter that must leave r10 and the string alone; local calls must not go so deep that an offset would wrap below address zero.
- Memcapture.FilterUnprintable: text without a closing brace is excluded, since the original then pops from an empty string.
- SyscallTrampoline.RewriteSegment: instruction boundaries come from the disassembler and are taken as given; memory protection changes are not modelled.
- TrampolineRuns.SiteReturns: caller-saved registers, flags and the red zone after the call are not described; each instruction of the two assembly routines takes one address unit.
- TrampolineRuns.TracedCallIsOriginalCall: that the compiled C++ function between the two assembly routines passes its seven arguments on is a hypothesis, since its machine code is not part of the repository.
- GpuProtocol.RunInv: memory is sequentially consistent and the response is read as a whole; the meaning of each helper on the host is a parameter.
- GpuRingSchedules.AlwaysFifoIff: exact for a schedule with all records it could carry; with given records, one handed on too early may have the right bytes by accident.
- GpuRingBytes.PushAppends: records longer than the slot, and a tail counter about to pass 2^64, are excluded.
- GpuThreadId.ValueAddressIs: the thread number is assumed below the map's thread count.
- RelocationMeaning.RelocationPreservesMeaning: the original faults, and nothing is claimed, when a program computes with a map reference, reads part of one, or lets a helper look at one; ids fit 31 bits; a helper's outcome depends on memory only through the bytes it says it looks at.
- KernelSections.SectionEnd: text whose braces never balance is excluded, since the original then runs off its end; the regular expressions that find headers and insert the calls are not modelled.
- ExecTracker.Tracker.Scan: the clock is replaced by a flag on each entry that says whether the process is too young.
- GpuRingDrain.DrainData: the drain runs in one piece here; its steps among those of a push are in GpuRing and GpuRingSchedules, for one ring.
- RegisterGuardSaved.DeclaredRestored: a register that two declarations introduce is left to GuardRestores, which says with what width it comes back.
- PerfEvent.Tracer.OnExit: the contents of the reported event are not modelled, only that it is or is not reported.
- PerfEvent.Tracer.OnEnter: reading the request and its path for the record is one step; neither goes through a shared buffer.
- PerfEvent.Tracer.OnGo: a copy of a whole request or path is one step, so no two copies overlap byte by byte; clearing the offset and measuring the path are one step; the second static buffer, old_uprobe_path, is only ever written, so it is not part of the state; a path's 255 bytes are mapped as a whole or not at all.
- PerfEventRestore.RunDescribed: the request and its path do not overlap each other or the buffers of other calls, except that a path written from the shared buffer may be this call's; the thread makes no second call.
- PerfEventRestore.AloneRestoredIff: other requests have their paths at other addresses, since an entry that lost the buffer to a request with the same address would write there.
- Xdp.XdpMd.MoveHead: the buffer lies above the first 14 addresses and below 2^63; packet metadata is not used by the original.
- The handler manager, shared-memory import and export as JSON, the map implementations, the virtual machine and its compiler, the verifier wrapper, and the system call server's pass-through code are not modelled: they are dispatch, library calls or input and output.
- Compiling PTX, the CUDA runtime, function hooking with Frida and disassembly are foreign code.
- Benchmarks, examples and command line tools are drivers.
