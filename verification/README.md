# T81: a verified model

T81 is a register machine for balanced ternary: a bytecode interpreter, a trace
compiler that replays hot stretches of a program with a dispatch of its own, a policy kernel
(Axion) that judges every step, a garbage collector for tensors and infinite forms, an
assembler, 128-trit arithmetic, interned option and result values, tiers that bound recursion,
and a language front end. Most of it exists twice, once in a simple form and once in a fast,
compiled, packed or in-place form. This project models both forms and proves how they relate.

`dafny verify dfyconfig.toml` checks everything.

## Layout

- Host integers and bytes: `Word`, `WordBits` (the operators, bit by bit), `Bytes`, `Wrappers`,
  `Multiples`.
- Trace compiler against interpreter: `Isa`, `VmState`, `Interpreter`, `Jit`, `JitRefinement`
  (one instruction, one trace), `TracingVm`, `VmRefinement` (whole runs with hot spots, recorder
  and trace table), `Machine` (the same on registers and memory changed in place), `NestedLoops`
  (a program that the trace compiler gets wrong), `MachineLimits` (constants and tables, by what they
  do).
- Policies: `AxionPolicy` (clauses and their direct evaluation), `AxionLog` (what the machine logs and
  which clauses it satisfies), `PolicyBytecode` (encoder,
  byte machine, compiler), `PolicyEngine` (whole runs), `PolicyWire` (the serialized form),
  `PolicyStreams` (writing and reading it byte by byte), `PolicyFormat` (its numbers),
  `PolicyDeployment` (all of it composed), `PolicyObjects` (compiler and engine as objects).
- Memory: `GcHeap`, `Marker`, `TensorHeap`, `Collector` (marking and sweeping in place),
  `Survival` (what a collection keeps, by the trees that values stand for),
  `Allocator` (stack frames and heap blocks).
- Assembler: `Assembler`, `IrMeaning` (what the intermediate code means), `AssemblerRefinement`; `EndToEnd` composes it with the trace compiler.
- Arithmetic: `Ternary`, `Native`, `NativeProduct`, `NativeArithmetic` (loops over digit
  arrays), `Fractions`.
- Values: `Interning`, `InterningProofs`, `InterningCompare`, `InternPools`.
- Front end: `ExprParser`, `ExprRoundTrip`, `Precedence`, `ParserObject` (expressions with their trees);
  `Grammar` (the whole parser: declarations, statements, blocks, match expressions, patterns,
  types, attributes), `Recovery` (errors, and agreement with the expression parser), `GrammarTables` (its words),
  `GrammarObject` (the same as an object with loops and handlers).
- The rest of the machine: `CallDepth`, `Gossip`, `Strings`, `Broadcast`.

A specification is a function; code that changes things step by step is a class or a method with
loops whose postcondition is that function.

## What is assumed

- Signed overflow of 64-bit words wraps around. Shift amounts are taken modulo 64.
- The interpreter and the trace compiler run one context under an engine and a hook that allow
  everything, except that a trace's hook may deny. Programs of the whole-run theorem write none of
  R0 and R75 to R80 and read none of R75 and R77: the interpreter refreshes those after every
  step, a trace does not.
- The answers of the policy engine to promotion requests, the reading of decimal literals, the
  order of values that are handles into other pools, the signatures kept in R76 to R78 and the
  measures of a step that tiers depend on (branch entropy, symbolic complexity, tensor rank, shape)
  are parameters.
- `T81BigInt` is the mathematical integer. Floating-point numbers are elements without arithmetic.
- Fewer than 2^31 instructions, fewer than 2^32 - 1 policy symbols, pools and vectors smaller than
  2^63: the limits of the integers that count them.

## What was found

- A trace omits checks that the interpreter makes, and compares handles and capabilities by their
  words, where the interpreter compares what they stand for. `MatchesIff` and
  `DivergesIffUnchecked` give the exact conditions on one instruction, `ComparedAlikeIffRaw` the
  types that are affected.
- When a register index fails its check, the trace still sets the flags from that register
  (runtime/jit/jit_compiler.cpp:832-843), outside the register file. `UndefinedIff` says exactly
  when; `NoTraceReadsOutside` shows that no run without a fault gets there, because only
  instructions that ran are compiled.
- Entering a compiled trace while another is being recorded can leave a gap in the recording
  (core/vm/vm.cpp:303-411), so that the trace later compiled is no stretch of the program.
  `EnteringKeepsContiguousIff` and `CompilesSliceIff` say exactly when. `NestedLoops` runs
  two nested loops from the load: the outer loop is compiled without the inner one.
- The interpreter checks the bounds of a load on the address narrowed to 32 bits and then uses
  all 64 (core/vm/vm.cpp:1314-1324). `StepUndefinedIff` says exactly when it reads outside memory,
  `LoadBeyond` gives such an address for every data address below 2^31.
- A loop requirement without a bound, or with a negative line, column or bound, waits for one text
  when evaluated and for another when compiled. `CompilesFaithfullyIff` says for every policy
  exactly when that changes no verdict. A compiled policy also checks the tier, which the direct
  evaluator does not.
- A guard requirement is satisfied by the test of any enum and variant whose names begin with the
  ones it asks for, and a segment requirement for address 4 by an access at 40 to 49, because the log
  search compares no further (`LongerNamesSatisfy`, `TenfoldAddressSatisfies`;
  kernel/axion/policy_engine.cpp:371-410). `GuardSatisfiedIff` and `SegmentSatisfiedIff` are exact.
- Loading a policy writes into the log what its loop requirements wait for
  (core/vm/vm.cpp:216-235), so that evaluated directly they never deny anything (`LoopsNeverDeny`).
- The wire form drops the quotas on tensors, tensor elements, symbolic nodes and graphs and
  infinite forms, the bound of an infinite loop, and symbols without byte code.
- Tensors of a program's pool and tensors allocated in traces are not counted, so reclaiming them
  takes the element counter below zero, where it wraps around.
- Multiplication of 128-trit integers is off by 256 * 3^127 when all 128 products of the widest
  column are one, and a shift by 128 or more gives the most negative number, not zero.
- A jump to an undefined label goes to address zero; of several definitions the last one counts.
- Compiled traces make option, result and enum values without interning them, so that equal values
  have different handles, and enum values without the number of their enum. An enum value inside a
  value makes comparison unanswerable, even with itself.
- A stack frame popped word by word is granted again while still on record. Empty blocks at the end
  of the heap cannot be freed and block those under them.
- The branch of the hard recursion ceiling in `Call` is dead code.
- The bands of branch entropy replace the tier that recursion requires instead of raising it
  (core/vm/vm.cpp:5037-5041), so that steps deep in recursion count as quiet
  (`EntropyHidesRecursion`). `RequiredCoversIff` says exactly when the recursion is covered;
  where it is not, the later test of the call depth keeps the tier (`DepthTestDecidesIff`).
- Comparison calls any two capability tokens of one type equal, inside options and results too.
- `x["k"]` is read as a generic type, because a string literal counts as the start of a type.
- Panic mode discards the closing brace of a block when the error is right before it
  (`BraceDiscardedIff`); `BraceIsLost` is a program that loses two functions to it.
- `recurse`, `distributed`, `infinite` and `train` are read at the top level only: inside a block
  they are refused (`RefusedIff`; lang/frontend/parser.cpp:769-772), although the specification
  shows `infinite` inside a function.
- Parts that do not contain the separator may still split elsewhere after being joined.

## Model

| member | source | states |
|---|---|---|
| Word.TruncDivision | core/vm/value_ops.cpp:13-23 | C++ division and remainder recompose the dividend; the remainder is smaller than the divisor and has the sign of the dividend. |
| WordBits.CastsCongruent | core/vm/vm.cpp:482-486 | The casts give the one word congruent to their argument; narrowing keeps the low 32 bits. |
| WordBits.BitwiseBits | core/vm/vm.cpp:1142-1158 | Bit by bit, `&` is both, `|` is either and `^` is not the same, for every word. |
| WordBits.ComplementBits | core/vm/vm.cpp:1160-1169 | `~` turns every bit. |
| WordBits.ShiftBits | core/vm/vm.cpp:1171-1189 | Bit by bit, the three shifts move the word: zeros come in, but copies of the sign in an arithmetic one, and the amount counts modulo 64. |
| WordBits.WordByBits | core/vm/vm.cpp:1142-1189 | A word is its 64 bits, so that the bits say everything about the operators. |
| MachineLimits.ReservedIff | core/vm/runtime_state_helpers.cpp:81-107 | The registers that instructions may not write are those that a refresh may change. |
| MachineLimits.AddressesIff | core/vm/vm.cpp:147-160 | In the layout of a loaded program data begins right behind the code, and a jump may go to any instruction or to the end. |
| MachineLimits.CodeOkIff | runtime/jit/jit_compiler.cpp:773-803 | A trace calls and returns to instructions only, not to the end. |
| MachineLimits.CallRefusedIff | core/vm/vm.cpp:2398-2438 | A call is refused for its depth exactly from 729 calls on. |
| MachineLimits.RecordedIff | runtime/jit/jit_compiler.cpp:869-944 | Everything is recorded but what stops the machine, does nothing or transfers control to a computed place, and a branch ends the recording. |
| MachineLimits.TokensIff | core/vm/vm.cpp:573-609 | The types whose values all compare equal are those that the runtime tokens name. |
| MachineLimits.ComparedByContentsIff | core/vm/vm.cpp:907-989 | Six types, and no other, are compared by what their handles stand for. |
| Interpreter.RunKeepsBounds | core/vm/vm.cpp:5129-5137 | Over runs of any length the stack pointer stays in its segment and memory keeps its size. |
| Interpreter.RunCompose | core/vm/vm.cpp:5129-5137 | A run of m + n steps is a run of n steps after a run of m. |
| Interpreter.PopUndoesPush | core/vm/vm.cpp:2092-2123 | A push and a pop move a value with its type from one register to another and restore the stack; one word below the stack pointer was overwritten. |
| Interpreter.RetUndoesCall | core/vm/vm.cpp:2398-2482 | Whatever a called routine does, if it returns with stack pointer, call depth and the word on top as the call left them, it returns to the instruction after the call. |
| Interpreter.StepUndefinedIff | core/vm/vm.cpp:1314-1324 | A step reads outside memory exactly at a load whose narrowed address is a data address while the address itself lies outside memory; nothing else does. |
| Interpreter.LoadBeyond | core/vm/vm.cpp:1314-1324 | Every data address below 2^31 has such an address 2^32 above it, in any memory of up to 2^32 words; itself it is none. |
| VmState.SyncShowsNothing | core/vm/runtime_state_helpers.cpp:81-107 | Refreshing the reserved registers of a machine in order shows only in R75 and R77. |
| Jit.DispatchKeepsBounds | runtime/jit/jit_compiler.cpp:95-857 | No dispatched instruction leaves the stack segment or resizes memory. |
| JitRefinement.TernaryAgrees | runtime/jit/jit_compiler.cpp:208-231 | The ternary operators of the trace, which clamp differently, compute what the interpreter computes. |
| JitRefinement.AluAgrees | runtime/jit/jit_compiler.cpp:106-160 | The arithmetic of the trace computes what the interpreter computes, where no divisor is zero. |
| JitRefinement.CompareMatches | runtime/jit/jit_compiler.cpp:589-642 | A comparison in a trace matches the interpreter on equal tags that both answer alike. |
| JitRefinement.LoadImmMatches | runtime/jit/jit_compiler.cpp:232-281 | Loading a literal, capability tokens included, matches. |
| JitRefinement.LoadMatches | runtime/jit/jit_compiler.cpp:282-290 | A load matches where the address is a data address. |
| JitRefinement.StoreMatches | runtime/jit/jit_compiler.cpp:291-299 | A store matches where the address is a data address. |
| JitRefinement.StackMatches | runtime/jit/jit_compiler.cpp:300-353 | Push and pop match where the stack quota is kept. |
| JitRefinement.CmpMatches | runtime/jit/jit_compiler.cpp:643-661 | A test of two integers matches; on other types the trace gives up. |
| JitRefinement.BranchMatches | runtime/jit/jit_compiler.cpp:730-772 | A branch matches where its target is an instruction or the end of the program. |
| JitRefinement.InstructionMatches | runtime/jit/jit_compiler.cpp:95-857 | Every recordable instruction: from states that agree, the trace and the interpreter go on to states that agree, or the trace leaves through a guard with nothing done, unless a check that the trace omits fails or a comparison is answered differently. |
| JitRefinement.MatchesIff | runtime/jit/jit_compiler.cpp:95-857 | And only then: the two match on an instruction exactly when no omitted check fails and no comparison is answered differently. |
| JitRefinement.CompareMatchesIff | runtime/jit/jit_compiler.cpp:589-642 | The same for comparisons alone, with the exact condition under which the interpreter faults where the trace runs on. |
| JitRefinement.ComparedAlikeIffRaw | core/vm/vm.cpp:907-988 | The types whose comparisons the trace always answers as the interpreter does are exactly those compared as words; two capabilities of one type are unequal to the trace and equal to the interpreter. |
| JitRefinement.UncheckedDiverges | runtime/jit/jit_compiler.cpp:589-642 | Where an omitted check fails the interpreter faults and the trace runs on. |
| JitRefinement.DivergesIffUnchecked | runtime/jit/jit_compiler.cpp:95-857 | The interpreter faults where the trace runs on exactly when an omitted check fails (unequal types compared, a code address loaded or stored, the stack quota exceeded, a jump out of the program) or the values compared have no order. |
| JitRefinement.ExecuteShape | runtime/jit/jit_compiler.cpp:95-857 | How far a trace gets and where it leaves the program counter for each of its four exits. |
| JitRefinement.SuffixRefines | runtime/jit/jit_compiler.cpp:95-857 | From any instruction of a trace on, executing the rest refines the interpreter. |
| JitRefinement.TraceRefines | runtime/jit/jit_compiler.cpp:95-857 | Executing a contiguous trace ends where as many interpreter steps end; at a failed guard the program counter is the failing instruction and all but the flags is the interpreter's state before it; a trace is undefined only if the interpreter faults within its instructions. |
| JitRefinement.TraceEndsWithInterpreter | runtime/jit/jit_compiler.cpp:95-857 | From every state from which the interpreter runs the instructions of a trace without a fault, the trace ends, in the state of as many interpreter steps. |
| JitRefinement.UndefinedIff | runtime/jit/jit_compiler.cpp:832-843 | A trace sets the flags from outside the register file exactly when it runs through to an instruction that sets them and whose register does not exist. |
| TracingVm.StepWellFormed | core/vm/vm.cpp:295-420 | Everything the trace compiler holds comes from the program, after every step. |
| VmRefinement.ExecCongruent | core/vm/vm.cpp:1193-2482 | Instructions that keep off the counting registers cannot tell apart states that differ only there. |
| VmRefinement.StepCongruent | core/vm/vm.cpp:295-420 | Nor can whole steps. |
| VmRefinement.StepKeepsContiguous | runtime/jit/jit_compiler.cpp:869-951 | Recorded and compiled traces stay stretches of the program that start at their entries, over every step that does not enter a trace while recording. |
| VmRefinement.EnteringKeepsContiguousIff | core/vm/vm.cpp:303-411 | Entering a compiled trace while recording keeps the recording a stretch of the program exactly when the trace comes back to its entry or its first guard fails, whatever the exit. |
| VmRefinement.CompilesSliceIff | runtime/jit/jit_compiler.cpp:869-951 | What the recorder collects is recorded further or compiled, and it is a stretch of the program exactly when what came before is and the instruction that went by is the one the program holds next. |
| VmRefinement.NoTraceReadsOutside | runtime/jit/jit_compiler.cpp:832-951 | No run of the machine, orderly or not, enters a trace that sets the flags from outside the register file: only instructions that ran are compiled. |
| VmRefinement.TraceFollows | core/vm/vm.cpp:303-386 | A step that enters a trace is followed by the interpreter alone over exactly the instructions the trace executes. |
| VmRefinement.RunRefines | core/vm/vm.cpp:295-420 | An orderly run of the machine with recorder and traces corresponds to the run of the interpreter alone over exactly the instructions it retires: the states agree unless the interpreter faults on one of those. |
| VmRefinement.RetiredGrows | core/vm/vm.cpp:295-420 | A machine still running has retired at least one instruction a step. |
| VmRefinement.RunRefinesFromLoad | core/vm/vm.cpp:147-420 | The same from a machine just loaded, whatever its reserved registers hold. |
| NestedLoops.ReachesHead | core/vm/vm.cpp:295-420 | Two nested loops: every machine just loaded with them, whatever the sizes of its segments, gets in 345 steps to the head of the outer loop, about to be recorded, with the inner loop compiled. |
| NestedLoops.CompiledWithoutInnerLoop | core/vm/vm.cpp:303-411 | From every machine just loaded, the trace that the run compiles for the outer loop is no stretch of the program, and after its first trip the machine is in a state that the interpreter alone, which never faults, does not get to in any number of steps. |
| NestedLoops.NotOrderly | core/vm/vm.cpp:303-411 | So the condition of the whole-run theorem, that no trace is entered while recording, cannot be dropped. |
| NestedLoops.RunKeepsCounted | core/vm/vm.cpp:295-420 | The interpreter alone leaves the inner loop with its counter at zero, in every run. |
| EndToEnd.TracedProgramFollowsSource | core/vm/vm.cpp:295-420 | The machine that records and runs traces on an emitted program follows the run of the intermediate code over exactly the instructions it retires. |
| Machine.Context.constructor | core/vm/vm.cpp:140-190 | A fresh context: memory zero, stack empty, reserved registers refreshed before the policy of the program is known. |
| Machine.Context.Refresh | core/vm/runtime_state_helpers.cpp:81-107 | The reserved registers take the values of the specification, in place. |
| Machine.Context.DispatchThree | runtime/jit/jit_compiler.cpp:106-160 | These opcodes, on registers and memory changed in place, end as the trace specification says and leave the state it says. |
| Machine.Context.DispatchTwo | runtime/jit/jit_compiler.cpp:179-207 | These opcodes, on registers and memory changed in place, end as the trace specification says and leave the state it says. |
| Machine.Context.DispatchOne | runtime/jit/jit_compiler.cpp:161-178 | These opcodes, on registers and memory changed in place, end as the trace specification says and leave the state it says. |
| Machine.Context.DispatchLoadImm | runtime/jit/jit_compiler.cpp:232-281 | These opcodes, on registers and memory changed in place, end as the trace specification says and leave the state it says. |
| Machine.Context.DispatchMemory | runtime/jit/jit_compiler.cpp:282-353 | These opcodes, on registers and memory changed in place, end as the trace specification says and leave the state it says. |
| Machine.Context.DispatchCmp | runtime/jit/jit_compiler.cpp:643-661 | These opcodes, on registers and memory changed in place, end as the trace specification says and leave the state it says. |
| Machine.Context.DispatchBranch | runtime/jit/jit_compiler.cpp:730-772 | These opcodes, on registers and memory changed in place, end as the trace specification says and leave the state it says. |
| Machine.Context.DispatchCall | runtime/jit/jit_compiler.cpp:773-803 | These opcodes, on registers and memory changed in place, end as the trace specification says and leave the state it says. |
| Machine.Context.DispatchRet | runtime/jit/jit_compiler.cpp:804-824 | These opcodes, on registers and memory changed in place, end as the trace specification says and leave the state it says. |
| Machine.Context.Dispatch | runtime/jit/jit_compiler.cpp:105-830 | The switch over opcodes leaves the state of the trace specification. |
| Machine.Context.Execute | runtime/jit/jit_compiler.cpp:95-857 | The loop over a trace, with hook, flags and exits, leaves the state of the trace specification. |
| Machine.Context.SetRegister | core/vm/vm.cpp:469-473 | In place, the state and the fault of the interpreter specification. |
| Machine.Context.ExecAlu | core/vm/vm.cpp:1294-1313 | In place, the state and the fault of the interpreter specification. |
| Machine.Context.ExecUnary | core/vm/vm.cpp:1268-1275 | In place, the state and the fault of the interpreter specification. |
| Machine.Context.ExecIncrement | core/vm/vm.cpp:1276-1293 | In place, the state and the fault of the interpreter specification. |
| Machine.Context.ExecLoadImm | core/vm/vm.cpp:1211-1228 | In place, the state and the fault of the interpreter specification. |
| Machine.Context.ExecLoad | core/vm/vm.cpp:1314-1330 | In place, the state and the fault of the interpreter specification. |
| Machine.Context.ExecStore | core/vm/vm.cpp:1883-1899 | In place, the state and the fault of the interpreter specification. |
| Machine.Context.ExecPush | core/vm/vm.cpp:2092-2107 | In place, the state and the fault of the interpreter specification. |
| Machine.Context.ExecPop | core/vm/vm.cpp:2108-2123 | In place, the state and the fault of the interpreter specification. |
| Machine.Context.ExecCompare | core/vm/vm.cpp:2005-2054 | In place, the state and the fault of the interpreter specification. |
| Machine.Context.ExecCmp | core/vm/vm.cpp:2055-2076 | In place, the state and the fault of the interpreter specification. |
| Machine.Context.ExecSetF | core/vm/vm.cpp:2077-2091 | In place, the state and the fault of the interpreter specification. |
| Machine.Context.ExecBranch | core/vm/vm.cpp:1931-2004 | In place, the state and the fault of the interpreter specification. |
| Machine.Context.ExecCall | core/vm/vm.cpp:2398-2452 | In place, the state and the fault of the interpreter specification. |
| Machine.Context.ExecRet | core/vm/vm.cpp:2453-2482 | In place, the state and the fault of the interpreter specification. |
| Machine.Context.PushWord | core/vm/memory_segments.cpp:17-30 | In place, the stack and the refusal of the interpreter specification. |
| Machine.Context.Exec | core/vm/vm.cpp:1192-2486 | The switch of the interpreter leaves the state of its specification. |
| Machine.Context.Interpret | core/vm/vm.cpp:388-402 | One interpreted step, in place. |
| Machine.TracingInterpreter.constructor | core/vm/vm.cpp:118-126 | Nothing recorded, counted or compiled. |
| Machine.TracingInterpreter.RecordInstruction | runtime/jit/jit_compiler.cpp:869-944 | The recorder of the specification, in place. |
| Machine.TracingInterpreter.Observe | core/vm/vm.cpp:402-420 | Hot spots, recorder and trace table after one instruction has gone by. |
| Machine.TracingInterpreter.Step | core/vm/vm.cpp:295-420 | One step of the tracing machine, trace first, in place. |
| AxionPolicy.CheckLoopsMeaning | kernel/axion/policy_engine.cpp:303-309 | The scan with remembered hints finds every loop requirement exactly when the log holds all of them, and remembers only what the log holds. |
| AxionPolicy.EvaluateMeaning | kernel/axion/policy_engine.cpp:238-347 | The clause-by-clause engine, with its remembered hints, denies exactly the violations. |
| AxionPolicy.FlagsStaySound | kernel/axion/policy_engine.cpp:349-360 | What is remembered stays true as the log grows. |
| Bytes.ContainsPart | kernel/axion/policy_engine.cpp:380-384 | A text is found in every text it is part of, wherever it stands. |
| Bytes.ContainedIsPart | kernel/axion/policy_engine.cpp:380-384 | And only there: what is found can be cut out. |
| Bytes.DigitsReadBack | kernel/axion/policy_engine.cpp:16-20 | The digits printed for a number, read from the first on, are that number. |
| AxionLog.FieldContainedIff | kernel/axion/policy_engine.cpp:371-384 | In an entry printed from words a search for name and value finds exactly a field of that name whose value begins so. |
| AxionLog.GuardSatisfiedIff | core/vm/vm.cpp:3487-3502 | A guard requirement is satisfied by the entry of exactly those tests whose enum, variant, payload and outcome begin with what it asks for. |
| AxionLog.LongerNamesSatisfy | kernel/axion/policy_engine.cpp:371-388 | So the tests of enums and variants with longer names satisfy it, too. |
| AxionLog.SegmentSatisfiedIff | kernel/axion/policy_engine.cpp:390-410 | What a segment requirement finds in an entry with segment, address and size: the address need only begin with the digits asked for. |
| AxionLog.AccessSatisfies | core/vm/policy_trace_bridge.cpp:47-59 | The entry of a memory access satisfies the requirement for its action, segment and address. |
| AxionLog.JudgedSatisfies | core/vm/policy_trace_bridge.cpp:67-76 | So does the entry of an access that was judged, whatever reason follows. |
| AxionLog.TenfoldAddressSatisfies | kernel/axion/policy_engine.cpp:390-410 | A requirement for one address is met by an access at ten times that address. |
| AxionLog.LoopSatisfied | kernel/axion/policy_engine.cpp:349-360 | A loop requirement is satisfied by its entry inside any longer one. |
| AxionLog.LoopsNeverDeny | core/vm/vm.cpp:216-235 | The machine logs at load what every loop requirement waits for, so that none of them denies anything afterwards. |
| AxionLog.AlignmentSatisfied | kernel/axion/policy_engine.cpp:361-369 | An alignment requirement is satisfied by an entry with both words in either order. |
| PolicyBytecode.FetchInvertsEncode | kernel/axion/policy_engine.cpp:40-60 | Decoding gives back the encoded instruction and its size, whatever follows. |
| PolicyBytecode.ExecuteMeaning | kernel/axion/policy_engine.cpp:32-213 | Byte code of whole instructions that ends in Return halts, reads nothing past its end, and denies exactly when one instruction does. |
| PolicyBytecode.LoopsMeaning | kernel/axion/policy_serialization.cpp:186-194 | The emitted loop requirements deny exactly when a reason printed from their operands is missing, with symbols interned. |
| PolicyBytecode.GuardsMeaning | kernel/axion/policy_serialization.cpp:196-202 | The emitted match guards deny exactly when a guard event is missing. |
| PolicyBytecode.SegmentsMeaning | kernel/axion/policy_serialization.cpp:204-210 | The emitted segment requirements deny exactly when an event is missing. |
| PolicyBytecode.EventsMeaning | kernel/axion/policy_serialization.cpp:212-215 | The emitted event requirements deny exactly when a reason is missing. |
| PolicyBytecode.AlignmentsMeaning | kernel/axion/policy_serialization.cpp:217-220 | The emitted alignment requirements deny exactly when a reason is missing. |
| PolicyBytecode.LimitsMeaning | kernel/axion/policy_serialization.cpp:162-184 | The emitted tier check and limits deny exactly on a failed tier or an exceeded quota. |
| PolicyBytecode.ClausesMeaning | kernel/axion/policy_serialization.cpp:141-223 | The instructions of any compiled policy deny exactly when the tier check fails or a clause, loops taken by their operands, is violated. |
| PolicyEngine.CompiledDecides | kernel/axion/policy_engine.cpp:238-268 | Every compiled policy decides every context without reading past its code, and denies exactly on the tensor-hash rule, a failed tier or a clause that its operands violate. |
| PolicyEngine.CompiledJudges | kernel/axion/policy_engine.cpp:238-268 | Where both kinds of loop reasons demand the same, that is exactly on the tensor-hash rule, a failed tier or a violated clause. |
| PolicyEngine.CompilationPreservesVerdicts | kernel/axion/policy_serialization.cpp:141-223 | Over runs whose logs only grow, compiled and clause-by-clause engines give the same verdicts, but for the tier check, wherever the loop requirements demand the same in both forms. |
| PolicyEngine.ExpectationsEqualIffPrintable | kernel/axion/policy_engine.cpp:121-148 | Clause and operands of a loop requirement wait for the same text exactly when its positions are not negative and it is infinite or has a bound that is not negative. |
| PolicyEngine.CompilesFaithfullyIff | kernel/axion/policy_serialization.cpp:141-223 | Any policy, compiled, decides every context by its clauses and its tier exactly when a log of the reasons its loop clauses wait for satisfies the compiled requirements, and the other way round. |
| PolicyEngine.SameDemandsIfPrintable | kernel/axion/policy_serialization.cpp:186-194 | That is so when every loop requirement prints alike from clause and operands; for a single one, only then. |
| PolicyEngine.LoopCompilesFaithfullyIffPrintable | kernel/axion/policy_serialization.cpp:186-194 | Of policies with one loop requirement, whatever their other clauses, exactly those compile faithfully whose requirement prints alike. |
| PolicyObjects.Compiler.AddSym | kernel/axion/policy_serialization.cpp:144-150 | Interning a symbol in place. |
| PolicyObjects.Compiler.EmitLittle | kernel/axion/policy_serialization.cpp:152-160 | The loop over bytes appends the little-endian form. |
| PolicyObjects.Compiler.EmitTierAndLimits | kernel/axion/policy_serialization.cpp:162-184 | The loop appends the encoding of its clauses and extends the symbols as specified. |
| PolicyObjects.Compiler.EmitLoopClauses | kernel/axion/policy_serialization.cpp:186-194 | The loop appends the encoding of its clauses and extends the symbols as specified. |
| PolicyObjects.Compiler.EmitGuardClauses | kernel/axion/policy_serialization.cpp:196-202 | The loop appends the encoding of its clauses and extends the symbols as specified. |
| PolicyObjects.Compiler.EmitSegmentClauses | kernel/axion/policy_serialization.cpp:204-210 | The loop appends the encoding of its clauses and extends the symbols as specified. |
| PolicyObjects.Compiler.EmitEventClauses | kernel/axion/policy_serialization.cpp:212-215 | The loop appends the encoding of its clauses and extends the symbols as specified. |
| PolicyObjects.Compiler.EmitAlignmentClauses | kernel/axion/policy_serialization.cpp:217-220 | The loop appends the encoding of its clauses and extends the symbols as specified. |
| PolicyObjects.Compiler.CompileToBytecode | kernel/axion/policy_serialization.cpp:141-223 | Bytes and symbols of the whole policy are those of the specification. |
| PolicyObjects.Engine.ExecuteBytecode | kernel/axion/policy_engine.cpp:32-213 | The loop over the code, with its offset, ends as the byte machine does. |
| PolicyObjects.Engine.LoopHintSatisfied | kernel/axion/policy_engine.cpp:349-360 | The search of the log, with the flag it sets. |
| PolicyObjects.Engine.MatchGuardSatisfied | kernel/axion/policy_engine.cpp:371-388 | The loop over the log, token by token, finds a guard event exactly when there is one. |
| PolicyObjects.Engine.SegmentEventSatisfied | kernel/axion/policy_engine.cpp:390-410 | The loop over the log, token by token, finds a segment event exactly when there is one. |
| PolicyObjects.Engine.AxionEventSatisfied | kernel/axion/policy_engine.cpp:412-420 | The loop over the log finds a reason exactly when it is there. |
| PolicyObjects.Engine.AlignmentEventSatisfied | kernel/axion/policy_engine.cpp:361-369 | The loop over the log finds an alignment event exactly when there is one. |
| PolicyObjects.Engine.EventsMissing | kernel/axion/policy_engine.cpp:310-345 | The loops over four kinds of clauses report exactly whether one is missing. |
| PolicyObjects.Engine.QuotaExceeded | kernel/axion/policy_engine.cpp:266-301 | The quotas tested one after the other report exactly whether one is exceeded. |
| PolicyObjects.Engine.HashDenied | kernel/axion/policy_engine.cpp:245-262 | The loop over the listed hashes denies exactly as the rule for loading by hash does. |
| PolicyObjects.Engine.Evaluate | kernel/axion/policy_engine.cpp:269-347 | Verdict and flags of the clause-by-clause evaluation. |
| PolicyObjects.Engine.EvaluateInternal | kernel/axion/policy_engine.cpp:238-347 | Verdict and flags of the engine: hash rule, byte code if any, clauses otherwise. |
| PolicyWire.DeserializeSerialize | kernel/axion/policy_serialization.cpp:48-139 | Reading back what was written gives the canonical form of any policy that fits the wire. |
| PolicyWire.RoundTripIff | kernel/axion/policy_serialization.cpp:225-322 | A policy comes back unchanged exactly when it uses no field without a tag, its loops have a bound exactly when not infinite, and it has no symbols without code. |
| PolicyFormat.QuotaForms | include/t81/axion/policy.hpp:15-31 | The bytes of the form of a policy with a tier and one quota, number by number. |
| PolicyFormat.SectionForms | include/t81/axion/policy.hpp:15-31 | The tags of the other sections and the flags in them, number by number. |
| PolicyStreams.Output.WriteLittle | kernel/axion/policy_serialization.cpp:9-19 | The loop that writes an integer byte by byte. |
| PolicyStreams.Output.WriteTexts | kernel/axion/policy_serialization.cpp:76-82 | The loop over texts with their lengths. |
| PolicyStreams.Output.WriteLoops | kernel/axion/policy_serialization.cpp:84-98 | The loop over loop hints, field by field. |
| PolicyStreams.Output.WriteGuards | kernel/axion/policy_serialization.cpp:100-107 | The loop over match guards, field by field. |
| PolicyStreams.Output.WriteSegments | kernel/axion/policy_serialization.cpp:109-115 | The loop over segment requirements, field by field. |
| PolicyStreams.Output.WriteReasons | kernel/axion/policy_serialization.cpp:117-125 | The loops over event and alignment requirements. |
| PolicyStreams.Output.WritePolicy | kernel/axion/policy_serialization.cpp:48-139 | Writing a policy piece by piece appends its wire form. |
| PolicyStreams.Input.ReadLittle | kernel/axion/policy_serialization.cpp:26-39 | The loop that shifts bytes into an integer, also past the end of the stream. |
| PolicyStreams.Input.ReadTexts | kernel/axion/policy_serialization.cpp:259-265 | The loop over texts. |
| PolicyStreams.Input.ReadLoop | kernel/axion/policy_serialization.cpp:266-280 | A loop hint, field by field. |
| PolicyStreams.Input.ReadField | kernel/axion/policy_serialization.cpp:233-318 | The switch over tags: policy and remaining bytes, or an unknown tag. |
| PolicyStreams.Input.ReadPolicy | kernel/axion/policy_serialization.cpp:225-322 | The reading loop, on any bytes, gives the policy or the error of the specification. |
| PolicyDeployment.DeployedPolicyJudgesAlike | kernel/axion/policy_serialization.cpp:141-322 | A policy compiled, written, read back and enforced judges every run as its clauses do, plus the tier check. |
| Bytes.LittleInverts | kernel/axion/policy_serialization.cpp:9-45 | Bytes written least significant first read back as the number. |
| Bytes.DecimalInjective | kernel/axion/policy_engine.cpp:129-134 | Different numbers print differently. |
| Marker.ScanCovers | core/vm/gc_helpers.cpp:36-75 | A scan visits or marks its value, keeps what was covered, and covers the payload of every entry it visits, even around cycles. |
| Marker.ScanJustified | core/vm/gc_helpers.cpp:36-75 | A scan from a reachable value marks only what is reachable. |
| Marker.MarkingIsReachability | core/vm/gc_helpers.cpp:10-89 | After all roots are scanned a slot is marked exactly when a chain of payloads leads to it from a register, a memory word or a snapshot. |
| TensorHeap.CollectExact | core/vm/gc_helpers.cpp:10-111 | Collection reclaims a tensor or an infinite form exactly when no chain of payloads reaches it; every survivor keeps its slot unchanged. |
| TensorHeap.CollectTwice | core/vm/gc_helpers.cpp:10-111 | A second collection from the same roots changes nothing. |
| Survival.LeavesSurvive | core/vm/gc_helpers.cpp:31-71 | Whatever mix of options, results and enum values a root stands for, the tensor or infinite form at the bottom survives every collection. |
| Survival.CollectKeepsLeaves | core/vm/gc_helpers.cpp:13-110 | A collection keeps exactly what is at the bottom of the trees that the roots stand for. |
| Survival.ProgramKeepsLeaves | core/vm/gc_helpers.cpp:13-110 | So it does after everything that a program may have made and taken apart since it was loaded. |
| TensorHeap.CounterExactIff | core/vm/gc_helpers.cpp:91-99 | After a collection the element counter has lost what was reclaimed exactly when that much had been counted, and wraps around otherwise. |
| TensorHeap.PoolAccountedIff | core/vm/vm.cpp:140-178 | A program just loaded is accounted for exactly when no tensor of its pool has elements. |
| TensorHeap.PoolTensorWrapsCounter | core/vm/vm.cpp:170-176 | Reclaiming one unreferenced pool tensor takes the counter below zero. |
| TensorHeap.TraceAllocateAccountedIff | runtime/jit/jit_compiler.cpp:44-56 | The allocator of a compiled trace keeps the counter right exactly for tensors without elements. |
| TensorHeap.FreeListCounts | core/vm/tensor_helpers.cpp:31-33 | Slots less free slots are the live ones, of tensors and of infinite forms. |
| TensorHeap.AllocationIsFresh | core/vm/tensor_helpers.cpp:44-56 | A granted allocation uses an empty or a new slot and moves no live tensor. |
| TensorHeap.RunKeepsSlots | core/vm/tensor_helpers.cpp:26-56 | Over any interleaving of allocations and collections both free lists hold exactly the empty slots, each once, and the count of infinite forms is exact. |
| TensorHeap.RunKeepsDrift | core/vm/tensor_helpers.cpp:58-62 | Over any run the element counter and the live elements keep their difference. |
| TensorHeap.GrantedIffFits | core/vm/tensor_helpers.cpp:26-42 | From an accounted state within quota the policy grants exactly the allocations that fit. |
| TensorHeap.InfiniteGrantedIffFits | core/vm/vm.cpp:724-755 | So is an infinite form granted exactly when it fits. |
| TensorHeap.RunKeepsQuota | core/vm/tensor_helpers.cpp:26-62 | From an accounted state within quota live tensors, live elements and live infinite forms never exceed the policy. |
| Collector.Flags.constructor | core/vm/gc_helpers.cpp:11-15 | All flags down, one for every slot and entry. |
| Collector.Flags.MarkSlot | core/vm/gc_helpers.cpp:17-33 | The flag of a slot, raised in place. |
| Collector.Flags.VisitEntry | core/vm/gc_helpers.cpp:41-71 | Whether a pool entry is visited for the first time; then its flag goes up. |
| Collector.Flags.ScanValue | core/vm/gc_helpers.cpp:35-75 | The recursive scan ends on cyclic payloads and raises exactly the flags of the specification. |
| Collector.Flags.ScanValues | core/vm/gc_helpers.cpp:84-87 | The loop over memory words. |
| Collector.Flags.ScanTable | core/vm/gc_helpers.cpp:77-82 | The loops over contexts and snapshots. |
| Collector.Store.constructor | core/vm/vm.cpp:166-178 | Slots filled from the program's pool, nothing counted. |
| Collector.Store.Mark | core/vm/gc_helpers.cpp:11-89 | The flags after all roots. |
| Collector.Store.MarkAndSweep | core/vm/gc_helpers.cpp:10-111 | The heap of the specification, with the reclaimed tensors counted as live tensors lost and free slots gained. |
| Collector.Store.SweepTensorSlots | core/vm/gc_helpers.cpp:91-99 | The loop that empties unmarked tensor slots. |
| Collector.Store.SweepInfiniteSlots | core/vm/gc_helpers.cpp:101-108 | The loop that empties unmarked infinite-form slots. |
| Collector.Store.AllocateTensor | core/vm/vm.cpp:497-525 | Policy, accounting and slot of an allocation, in place. |
| Collector.Store.AllocateInfinite | core/vm/vm.cpp:724-755 | Policy, accounting and slot of an infinite form, in place. |
| Assembler.LabelsAreAddresses | core/isa/binary_emitter.cpp:373-380 | The first pass maps exactly the defined labels, each to the number of instructions before the place where it stands last. |
| Assembler.EmitLowers | core/isa/binary_emitter.cpp:382-437 | The emitted program has one instruction per instruction of the source, at its address, with labels, symbols and decimal literals resolved as one reading of the whole program resolves them. |
| Assembler.SymbolHandles | core/isa/binary_emitter.cpp:361-370 | A symbol handle names its text, and handles are equal exactly when texts are. |
| Assembler.EmitFailsIff | core/isa/binary_emitter.cpp:417-433 | Emission fails exactly on a text that is neither a symbol nor a decimal literal the host can read. |
| Assembler.FamilyNames | core/isa/binary_emitter.cpp:10-55 | On floats and fractions the four operations become the opcode of that family. |
| Assembler.EnsureSymbolIn | core/isa/binary_emitter.cpp:361-370 | Pool and index map after interning, as specified. |
| Assembler.CollectLabels | core/isa/binary_emitter.cpp:373-380 | The loop of the first pass. |
| Assembler.EmitInstruction | core/isa/binary_emitter.cpp:384-436 | One round of the second pass. |
| Assembler.EmitProgram | core/isa/binary_emitter.cpp:357-443 | Both passes produce the specified program or error. |
| AssemblerRefinement.BranchMatches | core/isa/binary_emitter.cpp:389-397 | A branch to a label and the emitted jump reach the same place, the end of the program included. |
| AssemblerRefinement.MeaningIsExec | core/isa/binary_emitter.cpp:95-215 | Every instruction of the integer fragment, by the meaning of its own operation, relation and operands, does what the instruction emitted for it does. |
| AssemblerRefinement.StepMatches | core/isa/binary_emitter.cpp:357-443 | One executed instruction is one step of the emitted program; a label is none. |
| AssemblerRefinement.LabelRunIsRun | core/isa/binary_emitter.cpp:357-443 | Every run of the intermediate code is a run of the emitted program of as many steps as it executes instructions. |
| AssemblerRefinement.RunIsLabelRun | core/isa/binary_emitter.cpp:357-443 | Every run of the emitted program, of any length, is reached by the intermediate code. |
| AssemblerRefinement.AssemblyPreservesMeaning | core/isa/binary_emitter.cpp:357-443 | Both directions, from the start of any code of the integer fragment whose labels are defined. |
| AssemblerRefinement.LabelValueLeadsToLabel | core/isa/binary_emitter.cpp:404-406 | A label's address in a register leads to its label, or to labels before it. |
| AssemblerRefinement.UndefinedLabelIsZero | core/isa/binary_emitter.cpp:394-406 | In every emitted program a label operand that no one defines stands as address zero. |
| AssemblerRefinement.UndefinedLabelJumpsToStart | core/isa/binary_emitter.cpp:394-396 | So a branch to it, where the intermediate code has nowhere to go, goes to the start of the program whenever it is taken, and a plain jump always. |
| Native.UnpackPack | include/t81/native.hpp:43-62 | Digits come back from a packed word. |
| Native.PackUnpackIff | include/t81/native.hpp:43-62 | A word comes back from its digits exactly when it has no bit pair 3. |
| Native.NumberDetermines | include/t81/native.hpp:43-51 | Canonical words that are congruent modulo 3^128 are the same word. |
| Native.AddEntry | include/t81/simd/add_helpers.hpp:14-35 | An entry of the addition table recomposes its operands and carry. |
| Native.AddIsExact | include/t81/native.hpp:109-145 | Addition is exact modulo 3^128, with a canonical result. |
| Native.NegateIsExact | include/t81/native.hpp:90-108 | Negation is exact. |
| Native.SubtractIsExact | include/t81/native.hpp:160-160 | Subtraction is exact modulo 3^128. |
| Native.AdditionGroup | include/t81/native.hpp:109-160 | As bytes, addition commutes and associates, and subtraction undoes it. |
| Native.ShiftExactIff | include/t81/native.hpp:147-158 | A shift is exact modulo 3^128 exactly below 128: beyond, the result is a word of zero bytes, which denotes -(3^128 - 1) / 2. |
| NativeProduct.ColumnsValue | include/t81/native.hpp:167-172 | The columns of the schoolbook scheme denote the product. |
| NativeProduct.ColumnBound | include/t81/native.hpp:167-172 | A column is at most the number of rows that reach it, and as much only when all its products are one. |
| NativeProduct.WrapsOnlyIfOverflow | include/t81/native.hpp:167-172 | An accumulator of one byte holds its column, except the widest when all its 128 products are one. |
| NativeProduct.CarryPassValue | include/t81/native.hpp:173-179 | The carry pass keeps the number, but for the last carry. |
| NativeProduct.CarryPass | include/t81/native.hpp:173-179 | Every digit it leaves is -1, 0 or 1. |
| NativeProduct.ProductValue | include/t81/native.hpp:162-187 | What the digits of a product denote modulo 3^128, overflow included. |
| NativeProduct.MultiplyExactIff | include/t81/native.hpp:162-187 | Multiplication is exact modulo 3^128 exactly when the 128 products of the widest column are not all one. |
| NativeProduct.OnesOverflow | include/t81/native.hpp:162-187 | The word of all ones, squared, overflows. |
| NativeProduct.MultiplyCommutes | include/t81/native.hpp:162-187 | As bytes the factors commute, overflow or not. |
| NativeProduct.MultiplyDistributes | include/t81/native.hpp:109-187 | As bytes multiplication distributes over addition where nothing overflows. |
| NativeArithmetic.Unpack | include/t81/native.hpp:43-51 | The nested loops leave the digits of the word. |
| NativeArithmetic.Pack | include/t81/native.hpp:53-62 | The loops leave the packed digits. |
| NativeArithmetic.NegateWord | include/t81/native.hpp:99-106 | Digits negated in place. |
| NativeArithmetic.AddWords | include/t81/native.hpp:130-142 | The loop with a carry: the specified word, exact modulo 3^128. |
| NativeArithmetic.SubtractWords | include/t81/native.hpp:160-160 | The specified word, exact modulo 3^128. |
| NativeArithmetic.ShiftWord | include/t81/native.hpp:147-158 | The specified word for every shift that is not negative. |
| NativeArithmetic.Accumulate | include/t81/native.hpp:167-172 | Byte by byte, the array holds the columns, each as a signed byte. |
| NativeArithmetic.Carry | include/t81/native.hpp:173-179 | The carry pass in place, with a carry that stays within 65. |
| NativeArithmetic.MultiplyWords | include/t81/native.hpp:162-187 | The specified word; exact modulo 3^128 exactly without the overflow. |
| Interning.PushKeepsDistinctIff | runtime/jit/jit_compiler.cpp:57-61 | Adding without looking keeps a pool free of duplicates exactly when the entry is new. |
| Interning.TreeUnique | core/vm/vm.cpp:756-813 | A value stands for one tree only. |
| Interning.ValueUnique | core/vm/vm.cpp:756-813 | In pools without duplicates a tree has one value only. |
| Interning.HandlesAreTrees | core/vm/vm.cpp:756-813 | Two handles are equal exactly when their trees are. |
| Interning.DenotesGrows | core/vm/vm.cpp:756-813 | Growing pools leave every tree as it was. |
| InterningProofs.ExecKeepsValid | core/vm/vm.cpp:3284-3510 | Every instruction keeps: no duplicates, every cell and payload a tree, payloads older than their holders of the same kind. |
| InterningProofs.RunKeepsValid | core/vm/vm.cpp:3284-3510 | So does every run, and pools only grow. |
| InterningProofs.RunIsHashConsing | core/vm/vm.cpp:756-813 | Whatever a program has done since it was loaded, two cells hold the same value exactly when they stand for the same tree. |
| InterningProofs.ExecIsTreeStep | core/vm/vm.cpp:3284-3510 | Every instruction on handles is the instruction on whole trees: it faults alike, and its cell stands for the tree that is made or taken out. |
| InterningProofs.RunIsTreeRun | core/vm/vm.cpp:3284-3510 | The machine with interned handles refines the machine that copies whole trees, over every run. |
| InterningProofs.EnumNumberIsShift | include/t81/enum_meta.hpp:25-30 | The number of an enum is the number of its variant shifted by 16. |
| InterningCompare.CompareIsTreeCompare | core/vm/vm.cpp:907-989 | Comparison of handles ends, and compares the trees: the history of the pools does not matter. |
| InterningCompare.CompareIsCompareValue | core/vm/vm.cpp:907-989 | On values without a payload it is the comparison that the registers are compared with. |
| InterningCompare.CompareZeroIff | core/vm/vm.cpp:907-989 | Whatever the leaves are, comparison says "equal" exactly for values of the same shape, without an enum inside, whose leaves of one type compare as equal. |
| InterningCompare.SameHandleIff | core/vm/vm.cpp:907-989 | Where a leaf compares as equal with itself alone, comparison says "equal" exactly for the same handle. |
| InterningCompare.ToldApartByTag | core/vm/vm.cpp:907-989 | So it is for every type compared as words, and not for capability tokens, which are all equal. |
| InterningCompare.EnumsNeverEqual | core/vm/vm.cpp:985-986 | With an enum value inside, comparison says "equal" of nothing, and gives no answer on the value itself. |
| InterningCompare.CompareIsOrder | core/vm/vm.cpp:907-989 | Over words compared as such and capability tokens, in options and results to any depth, comparison is an order where it answers. |
| InterningCompare.TraceInternsIff | runtime/jit/jit_compiler.cpp:57-72 | A compiled trace makes the interpreter's value, and keeps handles unique, exactly when the value was not interned before. |
| InterningCompare.TraceNeverInternsEnums | runtime/jit/jit_compiler.cpp:79-83 | The enum entry a trace makes is never the interpreter's; the handle is exactly when the interpreter would have added an entry too, and handles stay unique exactly when no trace made this value before. |
| InterningCompare.TraceBreaksUniqueness | runtime/jit/jit_compiler.cpp:68-72 | Two results made alike in a trace have different handles that compare equal. |
| InternPools.PoolStore.constructor | core/vm/vm.cpp:188-190 | Empty pools. |
| InternPools.PoolStore.InternOption | core/vm/vm.cpp:756-772 | The scan and the append: handle and pool as specified, duplicates never made. |
| InternPools.PoolStore.InternResult | core/vm/vm.cpp:773-788 | The scan and the append: handle and pool as specified, duplicates never made. |
| InternPools.PoolStore.InternEnum | core/vm/vm.cpp:789-813 | The scan and the append: handle and pool as specified; a negative variant gets handle zero. |
| ExprRoundTrip.RoundExpression | lang/frontend/parser.cpp:920-1255 | A tree that respects the levels, printed before anything that ends it, reads back as itself. |
| ExprRoundTrip.RoundLevel | lang/frontend/parser.cpp:943-1110 | So on every rung of the ladder. |
| ExprRoundTrip.YieldExpression | lang/frontend/parser.cpp:920-1255 | A parse without errors yields a tree that respects the levels and prints as exactly the tokens consumed. |
| ExprRoundTrip.YieldLevel | lang/frontend/parser.cpp:943-1110 | So on every rung of the ladder. |
| ExprRoundTrip.ParsesIff | lang/frontend/parser.cpp:920-1255 | Tokens read as a tree, without error and to the end, exactly when the tree respects the levels and prints as them. |
| ExprRoundTrip.Unambiguous | lang/frontend/parser.cpp:920-1255 | No two trees that respect the levels print alike. |
| Precedence.TighterBinds | lang/frontend/parser.cpp:943-1100 | For each pair of neighbouring rungs, named by their operators, the tighter one takes the name between the two, on either side. |
| Precedence.RungAssociates | lang/frontend/parser.cpp:943-1100 | Operators of one rung associate to the left, `**` to the right. |
| Precedence.PrefixBinds | lang/frontend/parser.cpp:1088-1110 | A prefix operator binds tighter than `**`. |
| Precedence.AssignmentBinds | lang/frontend/parser.cpp:920-938 | Assignment binds looser than `||`. |
| Precedence.OnlyThesePrefixes | lang/frontend/parser.cpp:1103-1110 | Of the operators only `!`, `-` and `~` begin an expression. |
| Precedence.AssignableIff | lang/frontend/parser.cpp:925-938 | Exactly names, indices and fields are assigned to; for anything else an error is reported. |
| Precedence.FieldsIff | lang/frontend/parser.cpp:1222-1240 | Which tokens name a field after a dot, and that all others throw. |
| Precedence.EnumLiteralIff | lang/frontend/parser.cpp:1599-1625 | Which names with one dot are enum literals and not variables. |
| ExprRoundTrip.QuotedIndexIsAType | lang/frontend/parser.cpp:1176-1198 | An identifier indexed by a quoted string is read as a generic type. |
| ParserObject.Parser.constructor | lang/frontend/parser.cpp:293-298 | All tokens ahead, no error. |
| ParserObject.Parser.Match | lang/frontend/parser.cpp:322-330 | A token of the kind is consumed, or nothing. |
| ParserObject.Parser.ParseExpression | lang/frontend/parser.cpp:920-938 | Tree, remaining tokens, errors and exceptions of the specification. |
| ParserObject.Parser.ParseLevel | lang/frontend/parser.cpp:943-1110 | Tree, remaining tokens, errors and exceptions of the specification. |
| ParserObject.Parser.ParseEnd | lang/frontend/parser.cpp:1015-1024 | The operators read at most once. |
| ParserObject.Parser.ParseLoop | lang/frontend/parser.cpp:943-952 | The loop of a level that associates to the left. |
| ParserObject.Parser.ParseUnary | lang/frontend/parser.cpp:1103-1110 | Prefix operators. |
| ParserObject.Parser.ParsePrimary | lang/frontend/parser.cpp:1129-1222 | Literals, names and groupings. |
| ParserObject.Parser.ParsePostfix | lang/frontend/parser.cpp:1223-1254 | The loop over calls, fields and indices. |
| ParserObject.Parser.ParseArguments | lang/frontend/parser.cpp:1232-1240 | The loop over arguments. |
| Recovery.SynchronizeStops | lang/frontend/parser.cpp:370-390 | Panic mode consumes at least one token and stops at the first place where it may. |
| Recovery.StopsBeforeIff | lang/frontend/parser.cpp:370-387 | The reserved words that stop panic mode. |
| Recovery.NumberReadBack | lang/frontend/parser.cpp:1445-1490 | A number printed in decimal is read back below 2^63 and refused from there on. |
| GrammarTables.TierIff | lang/frontend/parser.cpp:1555-1597 | A tier is a whole number from 1 to 5; another one is read with an error, and a number that is not whole throws. |
| GrammarTables.AttributesIff | lang/frontend/parser.cpp:1492-1597 | The names that make an attribute. |
| GrammarTables.TypeBeginsIff | lang/frontend/parser.cpp:1685-1704 | What a type begins with; elsewhere an error is reported and nothing is read. |
| Recovery.BraceDiscardedIff | lang/frontend/parser.cpp:370-390 | Panic mode discards a closing brace exactly when nothing before the brace, and not the brace itself, stops it. |
| Recovery.BlockLosesBrace | lang/frontend/parser.cpp:725-861 | An error right before the end of a block makes the block go on past its closing brace. |
| Recovery.BraceIsLost | lang/frontend/parser.cpp:394-414 | A program of two functions, the first with an unfinished last statement: the first takes the second into its body, runs into the end, and neither is declared. |
| Recovery.RefusedIff | lang/frontend/parser.cpp:394-414 | A block refuses a reserved word on the spot exactly when it begins no item or is one of `recurse`, `distributed`, `infinite` and `train`, which a declaration at the top level accepts. |
| Recovery.ExpressionAgrees | lang/frontend/parser.cpp:920-938 | Wherever the expression parser with its trees has an answer, the whole parser agrees: same tokens left, an error exactly when the tree is not clean, a target exactly when the tree is one, an exception exactly as there. |
| Recovery.LevelAgrees | lang/frontend/parser.cpp:943-1110 | The same on every rung of the ladder. |
| Recovery.PostfixAgrees | lang/frontend/parser.cpp:1223-1252 | The same for calls, fields and indices. |
| Recovery.PrintedProgramParses | lang/frontend/parser.cpp:310-316 | Every list of levelled expressions, printed with semicolons, is read back as as many declarations without an error. |
| Grammar.Synchronize | lang/frontend/parser.cpp:370-390 | Panic mode moves on unless it is at the end. |
| Grammar.Skip | lang/frontend/parser.cpp:1269-1273 | Skipping stops at a separator, a closing brace or the end, and discards no closing brace. |
| Grammar.SkipPast | lang/frontend/parser.cpp:1269-1274 | With the separator it moves on unless it starts at a closing brace or the end. |
| Grammar.StructuralAttributes | lang/frontend/parser.cpp:1492-1553 | Attributes: an exception only with an error; tokens consumed whenever one was seen. |
| Grammar.FunctionAttributes | lang/frontend/parser.cpp:1555-1597 | The same for tiers. |
| Grammar.TypeExpr | lang/frontend/parser.cpp:1685-1704 | A type consumes a token wherever one begins; where none does it reports an error and returns. |
| Grammar.GenericType | lang/frontend/parser.cpp:1629-1670 | A generic type that returns has consumed tokens; one that throws has reported an error. |
| Grammar.Expression | lang/frontend/parser.cpp:920-938 | An expression that returns has consumed a token; one that throws has reported an error. |
| Grammar.Level | lang/frontend/parser.cpp:943-1110 | The same on every rung. |
| Grammar.Primary | lang/frontend/parser.cpp:1129-1255 | The same for every form of primary expression, match, if, block and literals included. |
| Grammar.RecordLiteral | lang/frontend/parser.cpp:1300-1313 | The same for record literals. |
| Grammar.IfExpression | lang/frontend/parser.cpp:889-908 | The same for if expressions. |
| Grammar.BlockExpression | lang/frontend/parser.cpp:882-887 | The same for block expressions. |
| Grammar.MatchExpression | lang/frontend/parser.cpp:1257-1298 | The same for match expressions. |
| Grammar.MatchArms | lang/frontend/parser.cpp:1263-1294 | The loop over arms never throws and ends at a closing brace or at the end, whatever the arms hold. |
| Grammar.MatchArm | lang/frontend/parser.cpp:1413-1443 | An arm that returns has consumed a token; one that throws has reported an error. |
| Grammar.MatchPattern | lang/frontend/parser.cpp:1315-1411 | The same for patterns, nested ones included. |
| Grammar.RecordPattern | lang/frontend/parser.cpp:1317-1361 | The loop over a record pattern never throws and ends at a closing brace or at the end. |
| Grammar.PatternField | lang/frontend/parser.cpp:1317-1361 | Every round of it consumes a token. |
| Grammar.TuplePattern | lang/frontend/parser.cpp:1380-1401 | The loop over a tuple pattern never throws and stays inside the tokens. |
| Grammar.Block | lang/frontend/parser.cpp:865-880 | A block that returns has consumed its closing brace. |
| Grammar.BlockBody | lang/frontend/parser.cpp:725-861 | The loop over the items of a block never throws; it ends at a closing brace or at the end unless an error was reported. |
| Grammar.BlockItem | lang/frontend/parser.cpp:729-859 | Every item that returns has consumed a token, and one that leaves the loop stands before a closing brace or has reported an error. |
| Grammar.Statement | lang/frontend/parser.cpp:613-693 | A statement of any kind that returns has consumed a token; one that throws has reported an error. |
| Grammar.LoopStatement | lang/frontend/parser.cpp:695-723 | The same for loops with and without annotation. |
| Grammar.LoopAnnotation | lang/frontend/parser.cpp:1445-1490 | The same for the annotation. |
| Grammar.FunctionDeclaration | lang/frontend/parser.cpp:450-491 | The same for functions. |
| Grammar.Members | lang/frontend/parser.cpp:512-574 | The loop over the fields of a record or the variants of an enum ends at a closing brace or at the end unless by an exception. |
| Grammar.DeclarationBody | lang/frontend/parser.cpp:394-414 | A declaration of any kind that returns has consumed a token; one that throws has reported an error. |
| Grammar.Declaration | lang/frontend/parser.cpp:394-414 | With its handler a declaration never throws, and always consumes a token. |
| Grammar.Program | lang/frontend/parser.cpp:310-316 | Parsing any tokens ends at their end, after at most as many declarations as there are tokens. |
| GrammarObject.Parser.constructor | lang/frontend/parser.cpp:293-298 | At the first token, without errors. |
| GrammarObject.Parser.PanicMode | lang/frontend/parser.cpp:370-390 | The loop of panic mode. In place, the position, the errors and the exception of the grammar function. |
| GrammarObject.Parser.SkipTo | lang/frontend/parser.cpp:1269-1273 | The loop that skips to a separator or a closing brace. In place, the position, the errors and the exception of the grammar function. |
| GrammarObject.Parser.ParseStructuralAttributes | lang/frontend/parser.cpp:1492-1553 | The loop over attributes. In place, the position, the errors and the exception of the grammar function. |
| GrammarObject.Parser.ParseFunctionAttributes | lang/frontend/parser.cpp:1555-1597 | The loop over tiers. In place, the position, the errors and the exception of the grammar function. |
| GrammarObject.Parser.ParseMoreParameters | lang/frontend/parser.cpp:1644-1666 | The loop over the parameters of a generic type. In place, the position, the errors and the exception of the grammar function. |
| GrammarObject.Parser.ParseExpression | lang/frontend/parser.cpp:920-938 | Assignment, to the right. In place, the position, the errors and the exception of the grammar function. |
| GrammarObject.Parser.ParseLevel | lang/frontend/parser.cpp:943-1110 | A rung of the ladder. In place, the position, the errors and the exception of the grammar function. |
| GrammarObject.Parser.ParseOperators | lang/frontend/parser.cpp:943-1100 | The loop over the operators of a left-associative rung. In place, the position, the errors and the exception of the grammar function. |
| GrammarObject.Parser.ParseEnd | lang/frontend/parser.cpp:1015-1024 | The rungs that read an operator once at most. In place, the position, the errors and the exception of the grammar function. |
| GrammarObject.Parser.ParsePostfix | lang/frontend/parser.cpp:1223-1252 | The loop over calls, fields and indices. In place, the position, the errors and the exception of the grammar function. |
| GrammarObject.Parser.ParseArguments | lang/frontend/parser.cpp:1232-1240 | The loop over arguments. In place, the position, the errors and the exception of the grammar function. |
| GrammarObject.Parser.ParseVectorLiteral | lang/frontend/parser.cpp:1137-1154 | The loop over the elements of a vector. In place, the position, the errors and the exception of the grammar function. |
| GrammarObject.Parser.ParseFieldValues | lang/frontend/parser.cpp:1300-1310 | The loop over the fields of a record literal. In place, the position, the errors and the exception of the grammar function. |
| GrammarObject.Parser.ParseMatchArms | lang/frontend/parser.cpp:1263-1294 | The loop over arms, which catches what an arm throws. In place, the position, the errors and the exception of the grammar function. |
| GrammarObject.Parser.ParseRecordPattern | lang/frontend/parser.cpp:1317-1361 | The loop over the fields of a record pattern. In place, the position, the errors and the exception of the grammar function. |
| GrammarObject.Parser.ParseTuplePattern | lang/frontend/parser.cpp:1380-1401 | The loop over the names of a tuple. In place, the position, the errors and the exception of the grammar function. |
| GrammarObject.Parser.ParseBlockBody | lang/frontend/parser.cpp:725-861 | The loop over items, which catches what an item throws. In place, the position, the errors and the exception of the grammar function. |
| GrammarObject.Parser.ParseFormalParameters | lang/frontend/parser.cpp:464-476 | The loop over parameters. In place, the position, the errors and the exception of the grammar function. |
| GrammarObject.Parser.ParseMembers | lang/frontend/parser.cpp:512-574 | The loop over fields or variants. In place, the position, the errors and the exception of the grammar function. |
| GrammarObject.Parser.ParseDeclaration | lang/frontend/parser.cpp:394-418 | A declaration, with its handler. In place, the position, the errors and the exception of the grammar function. |
| GrammarObject.Parser.ParseProgram | lang/frontend/parser.cpp:310-316 | The loop over declarations consumes every token. In place, the position, the errors and the exception of the grammar function. |
| Allocator.Align | core/vm/memory_segments.cpp:42-47 | The least multiple of 81 that is not smaller. |
| Allocator.RunKeepsValid | core/vm/vm.cpp:2092-2299 | Over every run the stack pointer and every frame stay inside the stack segment, and the heap blocks tile the heap up to its pointer. |
| Allocator.TilesPartition | core/vm/vm.cpp:2216-2256 | Tiles are disjoint and hold exactly the addresses up to the heap pointer. |
| Allocator.RunPartitionsHeap | core/vm/vm.cpp:2216-2299 | In every reachable state the granted heap blocks partition the used heap. |
| Allocator.RunKeepsQuota | core/vm/vm.cpp:2127-2172 | The stack never grows beyond the policy's quota. |
| Allocator.GrantedIffLeft | core/vm/vm.cpp:2127-2256 | Space is granted exactly when it is asked for properly and left in the segment, rounded up and within the quota; the block is the words next to the pointer. A push goes through exactly when a word is left and the quota has it. |
| Allocator.HeapFreeUndoesIff | core/vm/vm.cpp:2216-2299 | Freeing a block at once restores the heap, except an empty block at the very end, which cannot be freed. |
| Allocator.StackFreeUndoesIff | core/vm/vm.cpp:2127-2215 | Freeing a frame restores the stack whatever was pushed or popped in between, except an empty frame at the very top. |
| Allocator.StuckBlock | core/vm/vm.cpp:2257-2299 | Under an empty block at the end nothing can be freed. |
| Allocator.StackedDisjoint | core/vm/vm.cpp:2127-2172 | Frames that lie one below the other are disjoint. |
| Allocator.StackedIff | core/vm/vm.cpp:2092-2215 | Every operation keeps the frames disjoint, except exactly a pop that reaches into the frame on top. |
| Allocator.PoppedFrameIsGrantedAgain | core/vm/vm.cpp:2108-2172 | On every stack that grants a first frame, that frame popped word by word is granted a second time while still on record. |
| Allocator.Segments.constructor | core/vm/vm.cpp:148-187 | Empty stack and heap. |
| Allocator.Segments.PushWord | core/vm/memory_segments.cpp:17-30 | The stack pointer of the specification, or a fault. |
| Allocator.Segments.PopWord | core/vm/memory_segments.cpp:32-40 | The stack pointer of the specification, or a fault. |
| Allocator.Segments.AllocateFrame | core/vm/vm.cpp:2127-2172 | Frame, address or fault of the specification. |
| Allocator.Segments.FreeFrame | core/vm/vm.cpp:2173-2215 | Frames and fault of the specification. |
| Allocator.Segments.AllocateBlock | core/vm/vm.cpp:2216-2256 | Block, address or fault of the specification. |
| Allocator.Segments.FreeBlock | core/vm/vm.cpp:2257-2299 | Blocks and fault of the specification. |
| Allocator.Segments.CompactHeap | core/vm/gc_helpers.cpp:113-119 | No blocks, and the heap pointer at the start. |
| CallDepth.PromoteWhileStops | core/vm/vm.cpp:4955-4975 | Promotion ends, asks only while the tier is too low, and stops at the first tier that is not or at the first refusal. |
| CallDepth.EnsureMinTierRaises | core/vm/vm.cpp:829-854 | Granted, the tier is at least the required one; it never goes down or beyond it. |
| CallDepth.ExecKeepsSafe | core/vm/vm.cpp:2398-2482 | Calls, returns, promotions and demotions keep the depth within the limit of the tier. |
| CallDepth.RunKeepsSafe | core/vm/vm.cpp:2398-2482 | In every reachable state the depth is within the limit of the current tier, and so within 729, whatever the engine answers. |
| CallDepth.CeilingUnreachable | core/vm/vm.cpp:2425-2438 | The branch of the hard ceiling is taken in no state at all. |
| CallDepth.CallSucceedsIff | core/vm/vm.cpp:2398-2452 | When exactly a call goes through, and that its tier is then the lowest that admits the depth. |
| CallDepth.TierOfDepth | core/vm/tier_limits.cpp:26-41 | A call that goes through leaves the machine in the tier of its depth, by the numbers 1, 10, 81, 243 and 729, or in the higher one it was in. |
| CallDepth.SettleDemotesIff | core/vm/vm.cpp:5066-5095 | When exactly a tier is left, whatever the load and its branch entropy, and that the calls in progress fit the one below. |
| CallDepth.OnlyGraphsCount | core/vm/vm.cpp:5066-5095 | Of what is tested before a tier is left beside the depth only symbolic graphs decide anything: messages and infinite forms already require the tiers that admit them. |
| CallDepth.RequiredCoversIff | core/vm/vm.cpp:5035-5064 | The required tier covers the calls in progress exactly when no band of entropy replaces the recursion, the band is no lower, or something after it raises the tier enough. |
| CallDepth.DepthTestDecidesIff | core/vm/vm.cpp:5066-5095 | When exactly a tier is kept for the depth of the calls alone. |
| CallDepth.EntropyHidesRecursion | core/vm/vm.cpp:5035-5064 | A hundred calls deep, which needs the fourth tier, a step of moderate entropy requires the second: it counts as quiet, and only the test of the depth keeps the tier. |
| CallDepth.Controller.Settled | core/vm/vm.cpp:5035-5100 | What is done after a step, in place: rank, quiet steps and depth of the specification. |
| CallDepth.Controller.constructor | core/vm/vm.cpp:183-183 | No calls, the lowest tier. |
| CallDepth.Controller.Ensure | core/vm/vm.cpp:829-854 | The loop asks and promotes as specified. |
| CallDepth.Controller.Fit | core/vm/vm.cpp:4955-4975 | The loop promotes tier by tier as specified. |
| CallDepth.Controller.EnterCall | core/vm/vm.cpp:2398-2452 | State and fault of the specification; the depth stays within the limit and the ceiling is not met. |
| Gossip.NewerTotal | experimental/distributed/distributed.cpp:32-37 | Of two different messages exactly one is newer. |
| Gossip.TextLessIff | experimental/distributed/distributed.cpp:33-38 | Senders are ordered as in a dictionary. |
| Gossip.MergedIsNewest | experimental/distributed/distributed.cpp:28-51 | What a merge takes out has the latest tick, among those the first sender, then the smallest tag, then the smallest payload. |
| Gossip.ArrangementUnique | experimental/distributed/distributed.cpp:38-44 | Newest first and without duplicates a set of messages has one arrangement. |
| Gossip.ArrangedMeaning | experimental/distributed/distributed.cpp:32-44 | Sorting and removing duplicates arranges the messages newest first, each once, none lost. |
| Gossip.DrainDependsOnSet | experimental/distributed/distributed.cpp:27-51 | Draining an inbox depends on the set of its messages alone: messages, order and clock. |
| Gossip.DrainClock | experimental/distributed/distributed.cpp:27-51 | Where it does not wrap, the clock ends at the larger of its old value and the newest tick, plus the number of messages. |
| Gossip.SentLater | experimental/distributed/distributed.cpp:12-25 | Over any run the clock never goes back and what is sent is stamped later than any clock value before. |
| Gossip.SentAfterMergeIsLater | experimental/distributed/distributed.cpp:12-51 | Every message sent after merging a message carries a larger tick. |
| Gossip.NodeState.constructor | experimental/distributed/distributed.cpp:12-12 | Clock at zero, nothing received or sent. |
| Gossip.NodeState.SyncTick | experimental/distributed/distributed.cpp:14-18 | The larger of two clocks. |
| Gossip.NodeState.SendMessage | experimental/distributed/distributed.cpp:20-25 | Clock and outbox of the specification. |
| Gossip.NodeState.MergeMessage | experimental/distributed/distributed.cpp:27-51 | The newest message, removed with all its copies; every other message stays. |
| Strings.Find | core/vm/vm.cpp:2864-2880 | The first place from a start where the text stands, or none. |
| Strings.JoinSplit | core/vm/vm.cpp:2962-3012 | Joining the parts restores the text. |
| Strings.PartsAreFree | core/vm/vm.cpp:2962-2973 | No part contains the separator. |
| Strings.SplitJoinIff | core/vm/vm.cpp:2962-3012 | Splitting undoes joining exactly for parts that, followed by the separator, have it first at their end, the last having none. |
| Strings.FreePartsNotSeparable | core/vm/vm.cpp:2962-3012 | Parts without the separator need not be such parts. |
| Strings.StrSplitMeaning | core/vm/vm.cpp:2947-2973 | What the split instruction gives: parts that join to the text and hold no separator; no answer exactly for an empty separator. |
| Strings.ReplaceByItself | core/vm/vm.cpp:2881-2916 | Replacing a text by itself changes nothing. |
| Strings.SplitText | core/vm/vm.cpp:2962-2973 | The loop of the split instruction. |
| Strings.JoinTexts | core/vm/vm.cpp:3005-3012 | The loop of the join instruction. |
| Strings.ReplaceText | core/vm/vm.cpp:2893-2916 | The one-pass loop gives what splitting and joining give, and ends. |
| Fractions.MakeIsCanonical | include/t81/fraction.hpp:82-104 | Construction gives the lowest terms, with a positive denominator and zero as 0/1, of the same number; it fails exactly on denominator zero. |
| Fractions.CanonicalUnique | include/t81/fraction.hpp:8-12 | Canonical fractions denote the same number exactly when their fields are equal. |
| Fractions.ArithmeticExact | include/t81/fraction.hpp:25-57 | Sum, difference, product, quotient and opposite are canonical and exact; division fails exactly on zero. |
| Fractions.CmpIsOrder | include/t81/fraction.hpp:59-65 | Comparison is zero exactly for equal fractions and is a total order. |
| Fractions.CmpIsSignOfDifference | include/t81/fraction.hpp:60-65 | The answer is the sign of the exact difference. |
| Fractions.CmpCompatible | include/t81/fraction.hpp:25-65 | Adding the same fraction to both sides keeps the comparison. |
| Fractions.Rational.Create | include/t81/fraction.hpp:18-19 | Construction, with its exception. |
| Fractions.Rational.Normalize | include/t81/fraction.hpp:82-104 | Numerator and denominator reduced in place. |
| Broadcast.DecodeFlat | include/t81/tensor.hpp:111-117 | Decoding the position of a multi-index gives it back. |
| Broadcast.FlatDecode | include/t81/tensor.hpp:111-117 | Every position is the position of the multi-index it decodes to, which is in range. |
| Broadcast.SourceInRange | include/t81/tensor.hpp:118-125 | Every element that is read exists. |
| Broadcast.Expand | include/t81/tensor.hpp:69-129 | It is refused exactly for an empty or non-positive shape, a mismatch or too many elements; otherwise the result has the new shape. |
| Broadcast.RefusedIff | include/t81/tensor.hpp:69-109 | A shape is refused exactly when it is empty or has a dimension that is not positive, when a dimension of the tensor is neither one nor that of the shape, counted from the last, or when there would be 2^64 elements or more. |
| Broadcast.ExpandAt | include/t81/tensor.hpp:69-129 | At every multi-index the element of the input at that index, dimensions of size one read at zero. |
| Broadcast.ExpandTrailing | include/t81/tensor.hpp:69-129 | Said of the input alone: its dimensions are the last ones of the result, and its element is found at the last places of the multi-index. |
| Broadcast.ExpandTwice | include/t81/tensor.hpp:69-129 | Broadcasting in two compatible stages is broadcasting in one. |
| Broadcast.TransposeAt | include/t81/tensor.hpp:56-66 | Rows and columns change places. |
| Broadcast.TransposeTwice | include/t81/tensor.hpp:56-66 | Transposing twice changes nothing. |
| Broadcast.Strides | include/t81/tensor.hpp:83-95 | Each stride is the number of elements of the dimensions after it. |
| Broadcast.Index | include/t81/tensor.hpp:112-117 | The loop that decodes a position. |
| Broadcast.Offset | include/t81/tensor.hpp:118-124 | The loop that adds up strides, with dimensions of size one at zero. |
| Broadcast.BroadcastTo | include/t81/tensor.hpp:69-129 | The loop over all positions produces the specified tensor. |

## Left out

- Opcodes outside the integer fragment, in the interpreter and in traces: floats, fractions,
  tensors, strings, options and the blocked opcodes. Options, results, enums and strings are
  modelled by themselves, not inside traces.
- Several contexts, Axion log events, fault injection, telemetry and collection while stepping.
- Whole runs that enter a trace while recording: the code differs from the interpreter there.
- Loading a second program into the same machine, which keeps the traces of the first.
- `Machine.Context.ExecCall`: takes every promotion as granted; `CallDepth` models the promotions.
- `Allocator.Segments.PushWord`: moves the stack pointer only; the word and its type are those of
  `Machine.Context.PushWord`.
- `Allocator.Segments.PopWord`: moves the stack pointer only, likewise.
- `JitRefinement.TraceRefines`: does not compare the instruction count after a failed guard, which
  the code counts twice, nor the program counter after the hook denies.
- `PolicyEngine.CompilationPreservesVerdicts`: compares verdicts, not the texts of their reasons,
  which come in a different order.
- The ethics checks of `PolicyEngine::evaluate`.
- Log entries other than those of guard tests, memory accesses, judged accesses and loop hints.
- `Collector.Store.MarkAndSweep`: roots are what the code scans; program literals and gossip
  payloads are not among them.
- `TensorHeap.RunKeepsQuota`: from accounted states only, since the code does not count pool tensors,
  and for fewer than 2^63 slots and elements.
- The contents of stack and heap words in `Allocator`; heap blocks do not survive a collection.
- Operands of the assembler that are immediates where a register is read, type aliases and the
  tensor pool. Opcodes outside the integer fragment are carried by name.
- The vector paths of 128-trit arithmetic and negative shifts.
- `ExprRoundTrip.ParsesIff`: leaves out vector, record and enum literals, generic types, `match`,
  `if`, block, `infer` and infinite-literal expressions; the expression parser answers `LeftOut`
  there, and `Grammar.Primary` reads them.
- `Grammar.Program`: says which tokens are read, how every rule ends and how many errors are reported,
  not the trees of declarations, statements, patterns and types.
- The order of merges under ticks that wrap, and the network between nodes.
- Tier ceilings other than the call depth.
- `Broadcast.Expand`: requires a rank of at least one, and not above that of a new shape that is
  not empty. With a higher rank the code writes the surplus dimensions before the start of `cur`,
  ahead of every check (include/t81/tensor.hpp:74); a default-constructed tensor, of rank zero, is
  read at an element that it does not have. Which exception is thrown is not told apart.
- Conversion between doubles and fractions, hashing, CanonFS, weights, binary streams, type checking and code generation.
