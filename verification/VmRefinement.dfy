/** Whole runs: the machine with its trace compiler against the interpreter alone. */
module VmRefinement {
  import opened Isa
  import opened VmState
  import opened TracingVm
  import I = Interpreter
  import J = Jit
  import R = JitRefinement

  // ---------- the interpreter cannot tell agreeing states apart

  ghost predicate SameOutcome(r: I.Outcome, q: I.Outcome) {
    match r
    case Next(core) => q.Next? && Agree(core, q.core)
    case Fault(core, fault) => q.Fault? && fault == q.fault && Agree(core, q.core)
    case Undefined => q.Undefined?
  }

  lemma AluCongruent(insn: Insn, s: Core, t: Core)
    requires Encoded(insn) && R.Guarded(insn) && Agree(s, t)
    requires ThreeRegister(insn.op)
    ensures SameOutcome(I.ExecAlu(insn, s), I.ExecAlu(insn, t))
  {
    hide I.Alu;
    if RegOk(insn.a) && RegOk(insn.b) && RegOk(insn.c) {
      R.AgreeOnRegister(s, t, insn.b);
      R.AgreeOnRegister(s, t, insn.c);
      match I.Alu(insn.op, s.regs[insn.b], s.regs[insn.c])
      case None =>
      case Some(v) => R.AgreeAfterPut(s, t, insn.a, v, IntTag);
    }
  }

  lemma UnaryCongruent(insn: Insn, s: Core, t: Core)
    requires Encoded(insn) && R.Guarded(insn) && Agree(s, t)
    requires TwoRegister(insn.op)
    ensures SameOutcome(I.ExecUnary(insn, s), I.ExecUnary(insn, t))
  {
    if RegOk(insn.a) && RegOk(insn.b) {
      R.AgreeOnRegister(s, t, insn.b);
      if insn.op.Mov? {
        R.AgreeAfterPut(s, t, insn.a, s.regs[insn.b], s.tags[insn.b]);
      } else {
        R.AgreeAfterPut(s, t, insn.a, I.Unary(insn.op, s.regs[insn.b]), IntTag);
      }
    }
  }

  lemma OneCongruent(env: Env, insn: Insn, s: Core, t: Core)
    requires R.Guarded(insn) && Agree(s, t)
    ensures insn.op.Inc? || insn.op.Dec? ==> SameOutcome(I.ExecIncrement(insn, s), I.ExecIncrement(insn, t))
    ensures insn.op.SetF? ==> SameOutcome(I.ExecSetF(insn, s), I.ExecSetF(insn, t))
    ensures insn.op.LoadImm? ==> SameOutcome(I.ExecLoadImm(env, insn, s), I.ExecLoadImm(env, insn, t))
  {
    if RegOk(insn.a) {
      R.AgreeOnRegister(s, t, insn.a);
      if insn.op.Inc? || insn.op.Dec? {
        R.AgreeAfterPut(s, t, insn.a, I.ExecIncrement(insn, s).core.regs[insn.a], IntTag);
      } else if insn.op.SetF? {
        R.AgreeAfterPut(s, t, insn.a, I.FlagWord(s.flags), IntTag);
      } else if insn.op.LoadImm? {
        var s1 := I.ExecLoadImm(env, insn, s).core;
        R.AgreeAfterPut(s, t, insn.a, s1.regs[insn.a], s1.tags[insn.a]);
      }
    }
  }

  lemma CompareCongruent(env: Env, insn: Insn, s: Core, t: Core)
    requires Encoded(insn) && R.Guarded(insn) && Agree(s, t)
    ensures IsComparison(insn.op) ==> SameOutcome(I.ExecCompare(env, insn, s), I.ExecCompare(env, insn, t))
    ensures insn.op.Cmp? ==> SameOutcome(I.ExecCmp(env, insn, s), I.ExecCmp(env, insn, t))
  {
    hide I.CompareValue;
    if RegOk(insn.a) { R.AgreeOnRegister(s, t, insn.a); }
    if RegOk(insn.b) { R.AgreeOnRegister(s, t, insn.b); }
    if RegOk(insn.c) { R.AgreeOnRegister(s, t, insn.c); }
    if IsComparison(insn.op) && RegOk(insn.a) {
      R.AgreeAfterPut(s, t, insn.a, 0, IntTag);
      R.AgreeAfterPut(s, t, insn.a, 1, IntTag);
    }
  }

  lemma MemoryCongruent(env: Env, insn: Insn, s: Core, t: Core)
    requires Loaded(env) && InBounds(env, s) && InBounds(env, t)
    requires Encoded(insn) && R.Guarded(insn) && Agree(s, t)
    ensures insn.op.Load? ==> SameOutcome(I.ExecLoad(env, insn, s), I.ExecLoad(env, insn, t))
    ensures insn.op.Store? ==> SameOutcome(I.ExecStore(env, insn, s), I.ExecStore(env, insn, t))
    ensures insn.op.Push? ==> SameOutcome(I.ExecPush(env, insn, s), I.ExecPush(env, insn, t))
    ensures insn.op.Pop? ==> SameOutcome(I.ExecPop(env, insn, s), I.ExecPop(env, insn, t))
  {
    if insn.op.Store? && RegOk(insn.b) {
      R.AgreeOnRegister(s, t, insn.b);
    } else if RegOk(insn.a) {
      R.AgreeOnRegister(s, t, insn.a);
      if insn.op.Load? && 0 <= insn.b < |s.memory| {
        R.AgreeAfterPut(s, t, insn.a, s.memory[insn.b], s.memoryTags[insn.b]);
      } else if insn.op.Pop? && s.sp < s.stackBase {
        R.AgreeAfterPut(s.(sp := s.sp + 1), t.(sp := t.sp + 1), insn.a, s.memory[s.sp], s.memoryTags[s.sp]);
      }
    }
  }

  lemma ControlCongruent(env: Env, insn: Insn, s: Core, t: Core)
    requires Loaded(env) && InBounds(env, s) && InBounds(env, t)
    requires Encoded(insn) && R.Guarded(insn) && Agree(s, t)
    ensures IsBranch(insn.op) ==> SameOutcome(I.ExecBranch(env, insn, s), I.ExecBranch(env, insn, t))
    ensures insn.op.Call? ==> SameOutcome(I.ExecCall(env, insn, s), I.ExecCall(env, insn, t))
    ensures SameOutcome(I.ExecRet(env, s), I.ExecRet(env, t))
  {
    if ReadsB(insn.op) && RegOk(insn.b) {
      R.AgreeOnRegister(s, t, insn.b);
    }
  }

  lemma ExecCongruent(env: Env, insn: Insn, s: Core, t: Core)
    requires Loaded(env) && InBounds(env, s) && InBounds(env, t)
    requires Encoded(insn) && R.Guarded(insn) && Agree(s, t)
    ensures SameOutcome(I.Exec(env, insn, s), I.Exec(env, insn, t))
  {
    hide I.ExecCompare, I.ExecAlu, I.ExecUnary, I.ExecLoadImm, I.ExecLoad, I.ExecStore, I.ExecPush;
    hide I.ExecPop, I.ExecCmp, I.ExecSetF, I.ExecIncrement, I.ExecCall, I.ExecRet, I.ExecBranch;
    hide R.Guarded, InBounds;
    if IsComparison(insn.op) || insn.op.Cmp? {
      CompareCongruent(env, insn, s, t);
    } else if ThreeRegister(insn.op) {
      AluCongruent(insn, s, t);
    } else if TwoRegister(insn.op) {
      UnaryCongruent(insn, s, t);
    } else if insn.op.Load? || insn.op.Store? || insn.op.Push? || insn.op.Pop? {
      MemoryCongruent(env, insn, s, t);
    } else if IsBranch(insn.op) || insn.op.Call? || insn.op.Ret? {
      ControlCongruent(env, insn, s, t);
    } else {
      OneCongruent(env, insn, s, t);
    }
  }

  predicate GuardedProgram(env: Env) {
    forall i :: 0 <= i < |env.program| ==> R.Guarded(env.program[i])
  }

  /** While it runs, the machine keeps its registers in order. */
  predicate InOrder(env: Env, s: Core) {
    InBounds(env, s) && (!s.halted ==> Synced(env, s))
  }

  lemma SyncAgrees(env: Env, s: Core, t: Core)
    requires Agree(s, t)
    ensures Agree(Sync(env, s), Sync(env, t))
  {
    assert Observable(Sync(env, s)).regs == Observable(Sync(env, t)).regs by {
      forall q | RegOk(q) ensures Observable(Sync(env, s)).regs[q] == Observable(Sync(env, t)).regs[q] {
        R.AgreeOnRegister(s, t, q);
      }
    }
    assert Sync(env, s).tags == Sync(env, t).tags;
  }

  lemma StepCongruent(env: Env, s: Core, t: Core)
    requires Loaded(env) && GuardedProgram(env) && InOrder(env, s) && InOrder(env, t) && Agree(s, t)
    ensures SameOutcome(I.Step(env, s), I.Step(env, t))
    ensures I.Step(env, s).Next? ==> InOrder(env, I.Step(env, s).core)
    ensures I.Step(env, t).Next? ==> InOrder(env, I.Step(env, t).core)
  {
    hide I.Exec, R.Guarded, Sync;
    I.StepKeepsBounds(env, s);
    I.StepKeepsBounds(env, t);
    if !s.halted && s.pc < |env.program| {
      var insn := env.program[s.pc];
      var f, g := I.Fetch(s), I.Fetch(t);
      ExecCongruent(env, insn, f, g);
      var r, q := I.Exec(env, insn, f), I.Exec(env, insn, g);
      if !r.Undefined? && !q.Undefined? {
        SyncAgrees(env, r.core, q.core);
        SyncSyncs(env, r.core);
        SyncSyncs(env, q.core);
      }
    }
  }

  lemma {:induction false} RunCongruent(env: Env, s: Core, t: Core, n: nat)
    requires Loaded(env) && GuardedProgram(env) && InOrder(env, s) && InOrder(env, t) && Agree(s, t)
    ensures SameOutcome(I.Run(env, s, n), I.Run(env, t, n))
    ensures I.Run(env, s, n).Next? ==> InOrder(env, I.Run(env, s, n).core)
    ensures I.Run(env, t, n).Next? ==> InOrder(env, I.Run(env, t, n).core)
    decreases n
  {
    hide I.Step, Synced, Observable, R.Guarded;
    if n > 0 {
      StepCongruent(env, s, t);
      if I.Step(env, s).Next? {
        RunCongruent(env, I.Step(env, s).core, I.Step(env, t).core, n - 1);
      }
    }
  }

  lemma {:induction false} FaultPersists(env: Env, s: Core, m: nat, n: nat)
    requires Loaded(env) && InBounds(env, s) && m <= n
    requires !I.Run(env, s, m).Next?
    ensures !I.Run(env, s, n).Next?
    decreases m
  {
    hide I.Step, InBounds;
    if m > 0 && I.Step(env, s).Next? {
      I.StepKeepsBounds(env, s);
      FaultPersists(env, I.Step(env, s).core, m - 1, n - 1);
    }
  }

  // ---------- what the recorder has collected

  predicate TraceOk(env: Env, entry: nat, trace: seq<Insn>) {
    && trace != [] && R.Slice(env, entry, trace)
    && forall i :: 0 <= i < |trace| ==> J.Recordable(trace[i].op) || IsBranch(trace[i].op)
  }

  /** Every trace is the stretch of program that starts at its entry, and so is what has
      been recorded up to the program counter. */
  predicate Contiguous(env: Env, vm: Vm) {
    && (forall p :: p in vm.traces ==> TraceOk(env, p, vm.traces[p]))
    && (vm.recorder.tracing ==>
          && vm.recorder.start + |vm.recorder.buffer| == vm.core.pc
          && R.Slice(env, vm.recorder.start, vm.recorder.buffer)
          && forall i :: 0 <= i < |vm.recorder.buffer| ==> J.Recordable(vm.recorder.buffer[i].op))
  }

  /** The machine is about to run a compiled trace while another is being recorded. */
  predicate EntersWhileRecording(vm: Vm) {
    vm.recorder.tracing && AtTrace(vm)
  }

  lemma SliceExtends(env: Env, start: nat, insns: seq<Insn>)
    requires R.Slice(env, start, insns) && start + |insns| < |env.program|
    ensures R.Slice(env, start, insns + [env.program[start + |insns|]])
  {
  }

  /** A recorded instruction that is not a branch falls through. */
  lemma RecordableFallsThrough(env: Env, insn: Insn, s: Core)
    requires Loaded(env) && InBounds(env, s) && Encoded(insn) && J.Recordable(insn.op)
    ensures I.Exec(env, insn, s).Next? ==> I.Exec(env, insn, s).core.pc == s.pc
  {
    hide I.ExecCompare, I.ExecAlu, I.ExecUnary, I.ExecLoadImm, I.ExecLoad, I.ExecStore, I.ExecPush;
    hide I.ExecPop, I.ExecCmp, I.ExecSetF, I.ExecIncrement, I.ExecCall, I.ExecRet, I.ExecBranch;
  }

  lemma InterpretKeepsContiguous(env: Env, vm: Vm)
    requires WellFormed(env, vm) && Contiguous(env, vm)
    ensures Interpret(env, vm).Running? ==> Contiguous(env, Interpret(env, vm).vm)
  {
    hide I.Exec, Sync, R.Slice;
    if !vm.core.halted && vm.core.pc < |env.program| && I.Step(env, vm.core).Next? {
      var pc := vm.core.pc;
      var insn := env.program[pc];
      var observed := Observe(env, vm);
      var rec := if vm.recorder.tracing then vm.recorder else J.StartTracing(pc);
      SliceExtends(env, rec.start, rec.buffer);
      if J.Recordable(insn.op) {
        RecordableFallsThrough(env, insn, I.Fetch(vm.core));
        SyncKeepsPc(env, I.Exec(env, insn, I.Fetch(vm.core)).core);
      }
    }
  }

  lemma SyncKeepsPc(env: Env, s: Core)
    ensures Sync(env, s).pc == s.pc
  {
  }

  /** The traces stay contiguous over a step that does not enter one while recording. */
  lemma StepKeepsContiguous(env: Env, vm: Vm)
    requires WellFormed(env, vm) && Contiguous(env, vm) && !EntersWhileRecording(vm)
    ensures Step(env, vm).Running? ==> Contiguous(env, Step(env, vm).vm)
  {
    hide Interpret, RunTrace, InBounds, R.Slice;
    if !AtTrace(vm) {
      InterpretKeepsContiguous(env, vm);
    } else if RunTrace(env, vm).Ended? {
      AfterTraceInBounds(env, vm);
      if RunTrace(env, vm).exit.GuardDeopt? {
        InterpretKeepsContiguous(env, AfterTrace(env, vm));
      }
    }
  }

  // ---------- whole runs

  /** The trace about to be entered, if there is one, answers every comparison as the interpreter does. */
  predicate TraceComparesAlike(env: Env, vm: Vm)
    requires WellFormed(env, vm)
  {
    if !AtTrace(vm) then true
    else
      FromProgramEncoded(env, vm.traces[vm.core.pc]);
      R.ComparesAlike(env, AllowAll(), vm.traces[vm.core.pc], vm.core, 0)
  }

  /** The two machines side by side. */
  ghost predicate Paired(env: Env, vm: Vm, s: Core) {
    && WellFormed(env, vm) && GuardedProgram(env)
    && InOrder(env, vm.core) && InOrder(env, s)
    && Agree(vm.core, s)
  }

  /** `s` is where `k` steps of the interpreter lead unless they fault; the machine is
      then still running, in a state that agrees. */
  ghost predicate Follows(env: Env, vm: VmOutcome, r: I.Outcome) {
    r.Next? ==> vm.Running? && Paired(env, vm.vm, r.core)
  }

  lemma InterpretFollows(env: Env, vm: Vm, s: Core)
    requires Paired(env, vm, s)
    ensures Follows(env, Interpret(env, vm), I.Run(env, s, 1))
  {
    hide I.Step, Observe, Synced, Observable, R.Guarded, InBounds;
    StepCongruent(env, vm.core, s);
    InterpretWellFormed(env, vm);
    assert I.Run(env, s, 1) == I.Step(env, s);
  }

  /** A state that agrees with one in order is in order. */
  lemma InOrderOfAgree(env: Env, s: Core, t: Core)
    requires InOrder(env, t) && Agree(s, t) && InBounds(env, s)
    ensures InOrder(env, s)
  {
    if !s.halted {
      forall q | RegOk(q) ensures s.tags[q] == t.tags[q] && (!Volatile(q) ==> s.regs[q] == t.regs[q]) {
        R.AgreeOnRegister(s, t, q);
      }
    }
  }

  /** The instructions one step of the machine retires: the one it interprets, or those
      its trace executes; a trace that ends undefined is charged with all of its own. */
  function Retires(env: Env, vm: Vm): nat
    requires WellFormed(env, vm)
  {
    if !AtTrace(vm) then 1
    else match RunTrace(env, vm)
      case Ended(_, executed, _) => executed
      case Undefined => |vm.traces[vm.core.pc]|
  }

  /** The instructions retired by `n` steps of the machine. */
  function Retired(env: Env, vm: Vm, n: nat): nat
    requires WellFormed(env, vm)
    decreases n
  {
    if n == 0 then 0
    else Retires(env, vm) + match Step(env, vm)
      case Running(next) => StepWellFormed(env, vm); Retired(env, next, n - 1)
      case Stopped(_) => 0
  }

  lemma RetiresSome(env: Env, vm: Vm)
    requires WellFormed(env, vm) && Contiguous(env, vm)
    ensures Retires(env, vm) >= 1
  {
    hide J.Execute, InBounds, R.Slice;
    if AtTrace(vm) {
      var trace := vm.traces[vm.core.pc];
      FromProgramEncoded(env, trace);
      R.ExecuteShape(env, AllowAll(), trace, vm.core, 0);
      R.NeverDenied(env, AllowAll(), trace, vm.core, 0);
    }
  }

  lemma TraceFollows(env: Env, vm: Vm, s: Core)
    requires Paired(env, vm, s) && Contiguous(env, vm)
    requires AtTrace(vm) && TraceComparesAlike(env, vm)
    ensures Follows(env, Step(env, vm), I.Run(env, s, Retires(env, vm)))
  {
    hide I.Step, J.Execute, Observe, Synced, Observable, R.Guarded, InBounds, Interpret, R.ComparesAlike;
    var trace := vm.traces[vm.core.pc];
    FromProgramEncoded(env, trace);
    ProgramTraceable(env, vm.core.pc, trace);
    R.TraceRefines(env, AllowAll(), trace, vm.core);
    R.ExecuteShape(env, AllowAll(), trace, vm.core, 0);
    R.NeverDenied(env, AllowAll(), trace, vm.core, 0);
    var result := RunTrace(env, vm);
    var k := Retires(env, vm);
    if result.Undefined? {
      RunCongruent(env, vm.core, s, k);
    } else {
      AfterTraceInBounds(env, vm);
      if result.exit.GuardDeopt? {
        DeoptFollows(env, vm, s, result);
      } else {
        RunCongruent(env, vm.core, s, k);
        if I.Run(env, s, k).Next? {
          TickBlind(result.core, I.Run(env, vm.core, k).core, k);
          AgreeTransitive(AfterTrace(env, vm).core, I.Run(env, vm.core, k).core, I.Run(env, s, k).core);
          InOrderOfAgree(env, AfterTrace(env, vm).core, I.Run(env, s, k).core);
        }
      }
    }
  }

  lemma TickBlind(s: Core, t: Core, n: nat)
    requires Agree(s, t)
    ensures Agree(s.(ticks := s.ticks + n), t)
  {
  }

  lemma AgreeTransitive(s: Core, t: Core, u: Core)
    requires Agree(s, t) && Agree(t, u)
    ensures Agree(s, u)
  {
  }

  lemma ProgramTraceable(env: Env, entry: nat, trace: seq<Insn>)
    requires Loaded(env) && GuardedProgram(env) && TraceOk(env, entry, trace)
    ensures R.Traceable(trace)
  {
    forall i | 0 <= i < |trace| ensures R.Guarded(trace[i]) {
      assert trace[i] == env.program[entry..entry + |trace|][i] == env.program[entry + i];
    }
  }

  /** A failed guard hands over to the interpreter at the instruction it failed on. */
  lemma DeoptFollows(env: Env, vm: Vm, s: Core, result: J.TraceResult)
    requires Paired(env, vm, s) && AtTrace(vm)
    requires result == RunTrace(env, vm) && result.Ended? && result.exit.GuardDeopt? && result.executed > 0
    requires result.executed <= |vm.traces[vm.core.pc]|
    requires R.Refines(env, vm.core.pc, 0, |vm.traces[vm.core.pc]|, result, vm.core)
    ensures Follows(env, Step(env, vm), I.Run(env, s, result.executed))
  {
    hide I.Step, J.Execute, Observe, Synced, Observable, R.Guarded, InBounds, Interpret;
    var n := result.executed - 1;
    RunCongruent(env, vm.core, s, n);
    if I.Run(env, s, n + 1).Next? {
      if !I.Run(env, s, n).Next? {
        FaultPersists(env, s, n, n + 1);
      }
      var t, u := I.Run(env, vm.core, n).core, I.Run(env, s, n).core;
      I.RunCompose(env, s, n, 1);
      assert I.Run(env, u, 1) == I.Step(env, u);
      StepCongruent(env, t, u);
      AfterTraceInBounds(env, vm);
      var core := AfterTrace(env, vm).core;
      TickBlind(result.core, t, result.executed);
      AgreeTransitive(core, t, u);
      InOrderOfAgree(env, core, u);
      InterpretFollows(env, AfterTrace(env, vm), u);
    }
  }

  /** No step of the run enters a trace while recording, or a trace that answers a
      comparison otherwise than the interpreter. */
  predicate Orderly(env: Env, vm: Vm, n: nat)
    requires WellFormed(env, vm)
    decreases n
  {
    if n == 0 then true
    else
      && !EntersWhileRecording(vm)
      && TraceComparesAlike(env, vm)
      && match Step(env, vm)
         case Running(next) => StepWellFormed(env, vm); Orderly(env, next, n - 1)
         case Stopped(_) => true
  }

  /** A machine that is still running has retired an instruction at every step. */
  lemma {:induction false} RetiredGrows(env: Env, vm: Vm, n: nat)
    requires WellFormed(env, vm) && Contiguous(env, vm) && Orderly(env, vm, n)
    ensures Run(env, vm, n).Running? ==> Retired(env, vm, n) >= n
    decreases n
  {
    hide Step, TraceComparesAlike, EntersWhileRecording, Contiguous, WellFormed, Retires;
    if n > 0 {
      StepWellFormed(env, vm);
      RetiresSome(env, vm);
      StepKeepsContiguous(env, vm);
      if Step(env, vm).Running? {
        RetiredGrows(env, Step(env, vm).vm, n - 1);
      }
    }
  }

  /** The trace compiler is invisible.  An orderly run of `n` steps corresponds to the run
      of the interpreter alone over the instructions that it retires: unless the interpreter
      faults on one of them, the machine is still running and the two agree on all registers
      but the instruction counters, on tags, flags, memory, stack, program counter and call
      depth. */
  lemma {:induction false} RunRefines(env: Env, vm: Vm, s: Core, n: nat)
    requires Paired(env, vm, s) && Contiguous(env, vm) && Orderly(env, vm, n)
    ensures InBounds(env, s) && WellFormed(env, vm)
    ensures I.Run(env, s, Retired(env, vm, n)).Next? ==>
              Run(env, vm, n).Running? && Agree(Run(env, vm, n).vm.core, I.Run(env, s, Retired(env, vm, n)).core)
    decreases n
  {
    hide Step, TraceComparesAlike, EntersWhileRecording, Contiguous, InOrder, GuardedProgram, Observable;
    hide I.Step, InBounds, WellFormed, Paired, AtTrace, Interpret, Retires;
    PairedInBounds(env, vm, s);
    if n > 0 {
      var k := Retires(env, vm);
      if AtTrace(vm) {
        TraceFollows(env, vm, s);
      } else {
        StepInterprets(env, vm);
        InterpretFollows(env, vm, s);
      }
      StepWellFormed(env, vm);
      StepKeepsContiguous(env, vm);
      if I.Run(env, s, k).Next? {
        RunRefines(env, Step(env, vm).vm, I.Run(env, s, k).core, n - 1);
        RunComposeInOrder(env, s, k, Retired(env, Step(env, vm).vm, n - 1));
      } else {
        FaultPersists(env, s, k, Retired(env, vm, n));
      }
    }
  }

  /** The first step of a machine just loaded, whose registers need not be in order yet. */
  lemma FirstStep(env: Env, vm: Vm)
    requires WellFormed(env, vm) && GuardedProgram(env) && vm.traces == map[] && !vm.recorder.tracing
    ensures Contiguous(env, vm)
    ensures Step(env, vm) == Interpret(env, vm) && Retires(env, vm) == 1
    ensures match Step(env, vm)
            case Running(next) =>
              I.Step(env, vm.core) == I.Next(next.core) && Paired(env, next, next.core) && Contiguous(env, next)
            case Stopped(_) => !I.Step(env, vm.core).Next?
  {
    hide I.Exec, Sync, Synced, R.Guarded, Observe;
    InterpretWellFormed(env, vm);
    StepKeepsContiguous(env, vm);
    I.StepKeepsBounds(env, vm.core);
    if !vm.core.halted && vm.core.pc < |env.program| {
      var r := I.Exec(env, env.program[vm.core.pc], I.Fetch(vm.core));
      if r.Next? {
        SyncSyncs(env, r.core);
      }
    }
  }

  /** The same from a machine just loaded: nothing is compiled, and the registers that the
      machine refreshes may hold anything. */
  lemma RunRefinesFromLoad(env: Env, vm: Vm, n: nat)
    requires WellFormed(env, vm) && GuardedProgram(env) && vm.traces == map[] && !vm.recorder.tracing
    requires Orderly(env, vm, n)
    ensures var m := Retired(env, vm, n);
            I.Run(env, vm.core, m).Next? ==>
              Run(env, vm, n).Running? && Agree(Run(env, vm, n).vm.core, I.Run(env, vm.core, m).core)
  {
    hide Step, TraceComparesAlike, EntersWhileRecording, Contiguous, InOrder, GuardedProgram, Observable;
    hide I.Step, InBounds, WellFormed, Paired, AtTrace, Interpret, Retires;
    FirstStep(env, vm);
    if n > 0 {
      StepWellFormed(env, vm);
      if Step(env, vm).Running? {
        RunRefines(env, Step(env, vm).vm, Step(env, vm).vm.core, n - 1);
      }
    }
  }

  lemma StepInterprets(env: Env, vm: Vm)
    requires WellFormed(env, vm) && !AtTrace(vm)
    ensures Step(env, vm) == Interpret(env, vm) && Retires(env, vm) == 1
  {
  }

  lemma PairedInBounds(env: Env, vm: Vm, s: Core)
    requires Paired(env, vm, s)
    ensures WellFormed(env, vm) && Loaded(env)
    ensures InBounds(env, s) && InOrder(env, s) && Agree(vm.core, s)
  {
  }

  lemma RunComposeInOrder(env: Env, s: Core, m: nat, n: nat)
    requires Loaded(env) && InOrder(env, s) && I.Run(env, s, m).Next?
    ensures InBounds(env, I.Run(env, s, m).core)
    ensures I.Run(env, s, m + n) == I.Run(env, I.Run(env, s, m).core, n)
  {
    I.RunCompose(env, s, m, n);
  }

  // ---------- why the recorder matters

  /** The trace about to be entered comes back to its entry, or leaves through a guard on
      its first instruction. */
  predicate LeavesNoGap(env: Env, vm: Vm)
    requires WellFormed(env, vm) && AtTrace(vm) && RunTrace(env, vm).Ended?
  {
    var r := RunTrace(env, vm);
    if r.exit.GuardDeopt? then r.executed == 1 else r.core.pc == vm.core.pc
  }

  lemma DispatchOfBranch(env: Env, insn: Insn, s: Core, executed: nat)
    requires Loaded(env) && InBounds(env, s) && Encoded(insn)
    ensures var e := J.Dispatch(env, insn, s, executed);
            && e.core.halted == s.halted
            && (IsBranch(insn.op) && e.Deopt? ==> ReadsB(insn.op) && !RegOk(insn.b))
  {
    hide J.Value;
  }

  /** A trace does not halt the machine; a guard that fails on a branch is the one on its
      register. */
  lemma {:induction false} DeoptShape(env: Env, hook: J.Hook, trace: seq<Insn>, s: Core, k: nat)
    requires Loaded(env) && InBounds(env, s)
    requires k <= |trace| && forall i :: 0 <= i < |trace| ==> Encoded(trace[i])
    ensures var r := J.Execute(env, hook, trace, s, k);
            r.Ended? ==>
              && r.core.halted == s.halted
              && (r.exit.GuardDeopt? ==>
                    && k < r.executed <= |trace|
                    && var insn := trace[r.executed - 1];
                       IsBranch(insn.op) ==> ReadsB(insn.op) && !RegOk(insn.b))
    decreases |trace| - k
  {
    hide J.Dispatch, J.AfterSwitch;
    if k < |trace| && hook(s.pc + k, trace[k], k) {
      var effect := J.Dispatch(env, trace[k], s, k + 1);
      var after := J.AfterSwitch(trace[k], effect.core);
      J.DispatchKeepsBounds(env, trace[k], s, k + 1);
      DispatchOfBranch(env, trace[k], s, k + 1);
      R.AfterSwitchKeepsBounds(env, trace[k], effect.core);
      R.AfterSwitchOfDeopt(trace[k], effect.core);
      if effect.Done? && after.Some? {
        DeoptShape(env, hook, trace, after.value, k + 1);
      }
    }
  }

  /** Interpreting an instruction of the trace when the buffer does not reach the program
      counter. */
  lemma InterpretKeepsGap(env: Env, vm: Vm)
    requires WellFormed(env, vm) && vm.recorder.tracing && !vm.core.halted && vm.core.pc < |env.program|
    requires vm.recorder.start + |vm.recorder.buffer| != vm.core.pc
    requires var insn := env.program[vm.core.pc];
             J.Recordable(insn.op) || (IsBranch(insn.op) && ReadsB(insn.op) && !RegOk(insn.b))
    ensures Interpret(env, vm).Running? ==> !Contiguous(env, Interpret(env, vm).vm)
  {
    hide I.Exec, Sync, R.Slice;
    var insn := env.program[vm.core.pc];
    if J.Recordable(insn.op) {
      RecordableFallsThrough(env, insn, I.Fetch(vm.core));
      if I.Step(env, vm.core).Next? {
        SyncKeepsPc(env, I.Exec(env, insn, I.Fetch(vm.core)).core);
      }
    } else {
      BadBranchFaults(env, insn, I.Fetch(vm.core));
    }
  }

  lemma BadBranchFaults(env: Env, insn: Insn, s: Core)
    requires Loaded(env) && InBounds(env, s) && Encoded(insn)
    requires IsBranch(insn.op) && ReadsB(insn.op) && !RegOk(insn.b)
    ensures !I.Exec(env, insn, s).Next?
  {
  }

  /** Entering a trace while recording keeps the recording a stretch of the program exactly
      when the trace leaves no gap. */
  lemma EnteringKeepsContiguousIff(env: Env, vm: Vm)
    requires WellFormed(env, vm) && Contiguous(env, vm) && EntersWhileRecording(vm)
    requires Step(env, vm).Running?
    ensures RunTrace(env, vm).Ended?
    ensures Contiguous(env, Step(env, vm).vm) <==> LeavesNoGap(env, vm)
  {
    hide J.Execute, Interpret, InBounds;
    var trace := vm.traces[vm.core.pc];
    FromProgramEncoded(env, trace);
    R.ExecuteShape(env, AllowAll(), trace, vm.core, 0);
    DeoptShape(env, AllowAll(), trace, vm.core, 0);
    AfterTraceInBounds(env, vm);
    var r := RunTrace(env, vm);
    if r.exit.GuardDeopt? {
      var back := AfterTrace(env, vm);
      if r.executed == 1 {
        InterpretKeepsContiguous(env, back);
      } else {
        assert trace[r.executed - 1] == env.program[vm.core.pc..vm.core.pc + |trace|][r.executed - 1];
        InterpretKeepsGap(env, back);
      }
    }
  }

  /** What the recorder has collected once the instruction at the program counter has gone
      by. */
  function Collected(env: Env, vm: Vm): seq<Insn>
    requires vm.core.pc < |env.program|
  {
    var insn := env.program[vm.core.pc];
    if J.Recordable(insn.op) || IsBranch(insn.op) then vm.recorder.buffer + [insn] else vm.recorder.buffer
  }

  /** What is collected is recorded further or compiled, and it is a stretch of the program
      exactly when what came before is and the instruction that went by is the one the
      program holds next.  So a recording that is no stretch is compiled to no stretch. */
  lemma CompilesSliceIff(env: Env, vm: Vm)
    requires vm.core.pc < |env.program| && vm.recorder.tracing
    ensures var after, collected := Observe(env, vm), Collected(env, vm);
            var next := vm.recorder.start + |vm.recorder.buffer|;
            && (after.recorder.tracing ==>
                after.recorder.start == vm.recorder.start && after.recorder.buffer == collected)
            && (!after.recorder.tracing && collected != [] ==>
                  vm.recorder.start in after.traces && after.traces[vm.recorder.start] == collected)
            && (R.Slice(env, vm.recorder.start, collected) <==>
                  && R.Slice(env, vm.recorder.start, vm.recorder.buffer)
                  && (collected != vm.recorder.buffer ==>
                        next < |env.program| && env.program[next] == env.program[vm.core.pc]))
  {
    var start, buffer, collected := vm.recorder.start, vm.recorder.buffer, Collected(env, vm);
    if collected != buffer {
      var next := start + |buffer|;
      if R.Slice(env, start, collected) {
        assert buffer == env.program[start..next + 1][..|buffer|] == env.program[start..next];
        assert env.program[next] == env.program[start..next + 1][|buffer|] == collected[|buffer|];
      } else if R.Slice(env, start, buffer) && next < |env.program| && env.program[next] == env.program[vm.core.pc] {
        SliceExtends(env, start, buffer);
      }
    }
  }

  // ---------- compiled traces read registers that exist

  /** Every instruction that sets the flags sets them from a register of the file. */
  predicate FlagsReadable(insns: seq<Insn>) {
    forall i :: 0 <= i < |insns| ==> J.KeepsFlags(insns[i].op) || RegOk(insns[i].a)
  }

  predicate Readable(vm: Vm) {
    && FlagsReadable(vm.recorder.buffer)
    && forall p :: p in vm.traces ==> FlagsReadable(vm.traces[p])
  }

  lemma RunsOnlyReadable(env: Env, insn: Insn, s: Core)
    requires Loaded(env) && InBounds(env, s) && Encoded(insn) && J.Recordable(insn.op)
    ensures I.Exec(env, insn, s).Next? ==> J.KeepsFlags(insn.op) || RegOk(insn.a)
  {
    hide I.Alu, I.Unary, I.CompareValue, I.Relation, I.FlagWord;
  }

  lemma InterpretKeepsReadable(env: Env, vm: Vm)
    requires WellFormed(env, vm) && Readable(vm)
    ensures Interpret(env, vm).Running? ==> Readable(Interpret(env, vm).vm)
  {
    hide I.Exec, Sync;
    if !vm.core.halted && vm.core.pc < |env.program| && J.Recordable(env.program[vm.core.pc].op) {
      RunsOnlyReadable(env, env.program[vm.core.pc], I.Fetch(vm.core));
    }
  }

  lemma StepKeepsReadable(env: Env, vm: Vm)
    requires WellFormed(env, vm) && Readable(vm)
    ensures AtTrace(vm) ==> RunTrace(env, vm).Ended?
    ensures Step(env, vm).Running? ==> Readable(Step(env, vm).vm)
  {
    hide Interpret, InBounds, J.Execute;
    if !AtTrace(vm) {
      InterpretKeepsReadable(env, vm);
    } else {
      var trace := vm.traces[vm.core.pc];
      FromProgramEncoded(env, trace);
      R.UndefinedIff(env, AllowAll(), trace, vm.core, 0);
      AfterTraceInBounds(env, vm);
      InterpretKeepsReadable(env, AfterTrace(env, vm));
    }
  }

  /** A trace is compiled from instructions that ran, so that no run of the machine, orderly
      or not, enters a trace that sets the flags from outside the register file. */
  lemma {:induction false} NoTraceReadsOutside(env: Env, vm: Vm, n: nat)
    requires WellFormed(env, vm) && Readable(vm) && Run(env, vm, n).Running?
    ensures WellFormed(env, Run(env, vm, n).vm) && Readable(Run(env, vm, n).vm)
    ensures AtTrace(Run(env, vm, n).vm) ==> RunTrace(env, Run(env, vm, n).vm).Ended?
    decreases n
  {
    hide Step, WellFormed, Readable, RunTrace, AtTrace;
    StepKeepsReadable(env, vm);
    if n > 0 {
      StepWellFormed(env, vm);
      NoTraceReadsOutside(env, Step(env, vm).vm, n - 1);
    }
  }
}
