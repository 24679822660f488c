/** Two nested loops that the trace compiler gets wrong: the inner loop is compiled first,
    its trace runs while the outer loop is being recorded, and the trace of the outer loop
    is compiled without it.  The run starts from a machine just loaded. */
module NestedLoops {
  import opened Word
  import opened Isa
  import opened VmState
  import opened TracingVm
  import opened VmRefinement
  import I = Interpreter
  import J = Jit
  import R = JitRefinement

  /** Trips through the outer loop. */
  const TRIPS := 60

  /** The trips after which the inner loop has been compiled. */
  const COLD := 16

  /** R1 counts the trips of the outer loop, from address 1 to 5; each sets R2 to the trips of
      the inner one, at addresses 2 and 3. */
  function Program(): seq<Insn> {
    [ Insn(LoadImm, 1, TRIPS, 0, IntLiteral),
      Insn(LoadImm, 2, 3, 0, IntLiteral),
      Insn(Dec, 2, 0, 0, IntLiteral),
      Insn(JumpIfNotZero, 2, 2, 0, IntLiteral),
      Insn(Dec, 1, 0, 0, IntLiteral),
      Insn(JumpIfNotZero, 1, 1, 0, IntLiteral),
      Insn(Halt, 0, 0, 0, IntLiteral) ]
  }

  /** The program is loaded, whatever the sizes of the segments behind it. */
  predicate Holds(env: Env) {
    Loaded(env) && env.program == Program()
  }

  /** The inner loop, compiled. */
  function Inner(): seq<Insn> {
    [Program()[2], Program()[3]]
  }

  /** What is compiled for the outer loop. */
  function Outer(): seq<Insn> {
    [Program()[1], Program()[4], Program()[5]]
  }

  // ---------- the interpreter

  function NextPc(s: Core): nat {
    if s.pc == 3 && s.regs[2] != 0 then 2
    else if s.pc == 5 && s.regs[1] != 0 then 1
    else s.pc + 1
  }

  function NextR1(s: Core): Word {
    if s.pc == 0 then TRIPS else if s.pc == 4 then Wrap(s.regs[1] as int - 1) else s.regs[1]
  }

  function NextR2(s: Core): Word {
    if s.pc == 1 then 3 else if s.pc == 2 then Wrap(s.regs[2] as int - 1) else s.regs[2]
  }

  /** What the instruction at the program counter does, before the registers are refreshed. */
  predicate Does(s: Core, r: I.Outcome) {
    && r.Next? && r.core.halted == (s.pc == 6) && r.core.pc == NextPc(s)
    && r.core.regs[1] == NextR1(s) && r.core.regs[2] == NextR2(s)
  }

  lemma CountDown(s: Core, a: Int32)
    requires a == 1 || a == 2
    ensures var r := I.ExecIncrement(Insn(Dec, a, 0, 0, IntLiteral), s);
            r.Next? && r.core == s.(regs := s.regs[a := Wrap(s.regs[a] as int - 1)], tags := r.core.tags,
                                    flags := r.core.flags)
  {
  }

  lemma LoadNumber(env: Env, s: Core, a: Int32, n: Word)
    requires a == 1 || a == 2
    ensures var r := I.ExecLoadImm(env, Insn(LoadImm, a, n, 0, IntLiteral), s);
            r.Next? && r.core == s.(regs := s.regs[a := n], tags := r.core.tags, flags := r.core.flags)
  {
  }

  lemma BranchBack(env: Env, s: Core, k: nat)
    requires Holds(env) && (k == 3 || k == 5)
    ensures var r := I.ExecBranch(env, Program()[k], s);
            && r.Next?
            && r.core == s.(pc := if k == 3 && s.regs[2] != 0 then 2 else if k == 5 && s.regs[1] != 0 then 1 else s.pc)
  {
  }

  lemma ExecOf(env: Env, s: Core, pc: nat)
    requires Holds(env) && InBounds(env, s) && pc < 7
    ensures I.Exec(env, Program()[pc], s) ==
              if pc <= 1 then I.ExecLoadImm(env, Program()[pc], s)
              else if pc == 2 || pc == 4 then I.ExecIncrement(Program()[pc], s)
              else if pc == 3 || pc == 5 then I.ExecBranch(env, Program()[pc], s)
              else I.Next(s.(halted := true))
  {
    hide I.ExecIncrement, I.ExecLoadImm, I.ExecBranch;
  }

  lemma ExecTo(env: Env, s: Core)
    requires Holds(env) && InBounds(env, s) && !s.halted && s.pc < 7
    ensures Does(s, I.Exec(env, Program()[s.pc], I.Fetch(s)))
  {
    hide I.ExecIncrement, I.ExecLoadImm, I.ExecBranch, Wrap, I.Exec, Loaded;
    var f := I.Fetch(s);
    ExecOf(env, f, s.pc);
    if s.pc <= 1 {
      LoadNumber(env, f, s.pc + 1, if s.pc == 0 then TRIPS else 3);
    } else if s.pc == 2 || s.pc == 4 {
      CountDown(f, if s.pc == 2 then 2 else 1);
    } else if s.pc < 6 {
      BranchBack(env, f, s.pc);
    }
  }

  lemma SyncKeepsCounters(env: Env, s: Core)
    ensures var t := Sync(env, s);
            t.regs[1] == s.regs[1] && t.regs[2] == s.regs[2] && t.pc == s.pc && t.halted == s.halted
  {
  }

  lemma StepTo(env: Env, s: Core)
    requires Holds(env) && InBounds(env, s) && !s.halted && s.pc < 7
    ensures I.Step(env, s).Next? && InBounds(env, I.Step(env, s).core)
    ensures Does(s, I.Step(env, s))
  {
    hide I.Exec, Sync, Wrap;
    ExecTo(env, s);
    I.StepKeepsBounds(env, s);
    SyncKeepsCounters(env, I.Exec(env, Program()[s.pc], I.Fetch(s)).core);
  }

  /** Outside the inner loop R2 is zero. */
  predicate Counted(env: Env, s: Core) {
    && InBounds(env, s) && (s.halted || s.pc < 7)
    && if !s.halted && s.pc == 2 then 1 <= s.regs[2] <= 3
       else if !s.halted && s.pc == 3 then 0 <= s.regs[2] <= 2
       else s.regs[2] == 0
  }

  lemma {:induction false} RunKeepsCounted(env: Env, s: Core, n: nat)
    requires Holds(env) && Counted(env, s)
    ensures I.Run(env, s, n).Next? && Counted(env, I.Run(env, s, n).core)
    decreases n
  {
    hide I.Exec, Sync, Loaded;
    if n > 0 {
      if !s.halted {
        StepTo(env, s);
      }
      RunKeepsCounted(env, I.Step(env, s).core, n - 1);
    }
  }

  // ---------- the traces

  /** The dispatch of an instruction of the program, by its handler. */
  lemma DispatchOf(env: Env, s: Core, pc: nat, n: nat)
    requires Holds(env) && InBounds(env, s) && pc < 6 && Encoded(Program()[pc])
    ensures J.Dispatch(env, Program()[pc], s, n) ==
              if pc <= 1 then J.DispatchLoadImm(env, Program()[pc], s)
              else if pc == 2 || pc == 4 then J.DispatchOne(Program()[pc], s)
              else J.DispatchBranch(Program()[pc], s)
  {
    hide J.DispatchLoadImm, J.DispatchOne, J.DispatchBranch;
  }

  lemma Handlers(env: Env, s: Core)
    ensures J.DispatchLoadImm(env, Insn(LoadImm, 2, 3, 0, IntLiteral), s) == J.Done(Put(s, 2, 3, IntTag))
    ensures forall a: Int32 :: (a == 1 || a == 2) ==>
              J.DispatchOne(Insn(Dec, a, 0, 0, IntLiteral), s) == J.Done(Put(s, a, Wrap(s.regs[a] as int - 1), IntTag))
    ensures forall a: Int32 :: (a == 1 || a == 2) ==>
              J.DispatchBranch(Insn(JumpIfNotZero, a, a, 0, IntLiteral), s) ==
                if s.regs[a] != 0 then J.Jumped(s.(pc := a)) else J.Done(s)
  {
  }

  lemma InnerDispatch(env: Env, s: Core, n: nat)
    requires Holds(env) && InBounds(env, s) && Encoded(Program()[2]) && Encoded(Program()[3])
    ensures var e := J.Dispatch(env, Program()[2], s, n);
            e.Done? && e.core == s.(regs := s.regs[2 := Wrap(s.regs[2] as int - 1)], tags := e.core.tags)
    ensures J.Dispatch(env, Program()[3], s, n) == if s.regs[2] != 0 then J.Jumped(s.(pc := 2)) else J.Done(s)
  {
    hide Wrap, J.DispatchOne, J.DispatchBranch, J.DispatchLoadImm, J.Dispatch, InBounds, Loaded;
    DispatchOf(env, s, 2, n);
    DispatchOf(env, s, 3, n);
    Handlers(env, s);
  }

  lemma InnerTrace(env: Env, s: Core)
    requires Holds(env) && InBounds(env, s) && s.pc == 2 && s.regs[2] > 0
    requires forall i :: 0 <= i < |Inner()| ==> Encoded(Inner()[i])
    ensures var r := J.Execute(env, AllowAll(), Inner(), s, 0);
            && r.Ended? && r.executed == 2 && InBounds(env, r.core)
            && r.core.halted == s.halted && r.core.regs[1] == s.regs[1] && r.core.regs[2] as int == s.regs[2] - 1
            && if r.core.regs[2] != 0 then r.exit.Branch? && r.core.pc == 2 else r.exit.Completed? && r.core.pc == 4
  {
    hide J.Dispatch, Loaded;
    InnerDispatch(env, s, 1);
    var e := J.Dispatch(env, Inner()[0], s, 1).core;
    var s1 := SetFlags(e, e.regs[2]);
    InnerDispatch(env, s1, 2);
    assert J.Execute(env, AllowAll(), Inner(), s, 0) == J.Execute(env, AllowAll(), Inner(), s1, 1);
  }

  /** The three instructions of the outer trace. */
  lemma OuterDispatch(env: Env, s: Core, n: nat)
    requires Holds(env) && InBounds(env, s)
    requires Encoded(Program()[1]) && Encoded(Program()[4]) && Encoded(Program()[5])
    ensures var e := J.Dispatch(env, Program()[1], s, n);
            e.Done? && e.core == s.(regs := s.regs[2 := 3], tags := e.core.tags)
    ensures var e := J.Dispatch(env, Program()[4], s, n);
            e.Done? && e.core == s.(regs := s.regs[1 := Wrap(s.regs[1] as int - 1)], tags := e.core.tags)
    ensures var e := J.Dispatch(env, Program()[5], s, n);
            s.regs[1] != 0 ==> e == J.Jumped(s.(pc := 1))
  {
    hide Wrap, J.DispatchLoadImm, J.DispatchOne, J.DispatchBranch, J.Dispatch, InBounds, Loaded;
    DispatchOf(env, s, 1, n);
    DispatchOf(env, s, 4, n);
    DispatchOf(env, s, 5, n);
    Handlers(env, s);
  }

  /** The trace goes on after its first two instructions, and branches after the third. */
  lemma OuterContinues(env: Env, s: Core, k: nat)
    requires Holds(env) && InBounds(env, s) && k < 2
    requires forall i :: 0 <= i < |Outer()| ==> Encoded(Outer()[i])
    ensures var e := J.Dispatch(env, Outer()[k], s, k + 1).core;
            var t := SetFlags(e, e.regs[Outer()[k].a]);
            && e == s.(regs := s.regs[Outer()[k].a := if k == 0 then 3 else Wrap(s.regs[1] as int - 1)], tags := e.tags)
            && InBounds(env, t)
            && J.Execute(env, AllowAll(), Outer(), s, k) == J.Execute(env, AllowAll(), Outer(), t, k + 1)
  {
    hide J.Dispatch, Wrap, Loaded;
    OuterDispatch(env, s, k + 1);
  }

  lemma OuterBranches(env: Env, s: Core)
    requires Holds(env) && InBounds(env, s) && s.regs[1] != 0
    requires forall i :: 0 <= i < |Outer()| ==> Encoded(Outer()[i])
    ensures J.Execute(env, AllowAll(), Outer(), s, 2) == J.Ended(s.(pc := 1), 3, J.Branch)
  {
    hide J.Dispatch, Loaded;
    OuterDispatch(env, s, 3);
  }

  lemma OuterTrace(env: Env, s: Core)
    requires Holds(env) && InBounds(env, s) && s.pc == 1 && s.regs[1] > 1
    requires forall i :: 0 <= i < |Outer()| ==> Encoded(Outer()[i])
    ensures var r := J.Execute(env, AllowAll(), Outer(), s, 0);
            && r.Ended? && r.executed == 3 && r.exit.Branch? && InBounds(env, r.core)
            && r.core.halted == s.halted && r.core.pc == 1 && r.core.regs[2] == 3
  {
    hide J.Dispatch, J.Execute, Loaded;
    OuterContinues(env, s, 0);
    var e := J.Dispatch(env, Outer()[0], s, 1).core;
    var s1 := SetFlags(e, e.regs[2]);
    OuterContinues(env, s1, 1);
    var e1 := J.Dispatch(env, Outer()[1], s1, 2).core;
    OuterBranches(env, SetFlags(e1, e1.regs[1]));
  }

  // ---------- the machine

  predicate At(env: Env, vm: Vm, pc: nat, r1: Word, r2: Word) {
    && WellFormed(env, vm)
    && !vm.core.halted && vm.core.pc == pc && vm.core.regs[1] == r1 && vm.core.regs[2] == r2
  }

  function Hot(vm: Vm, pc: nat): nat {
    if pc in vm.hot then vm.hot[pc] else 0
  }

  /** One interpreted instruction. */
  lemma Interprets(env: Env, vm: Vm)
    requires Holds(env) && WellFormed(env, vm) && !vm.core.halted && vm.core.pc < 6 && vm.core.pc !in vm.traces
    ensures var next := Step(env, vm);
            && next.Running? && next.vm == Observe(env, vm).(core := next.vm.core)
            && At(env, next.vm, NextPc(vm.core), NextR1(vm.core), NextR2(vm.core))
  {
    hide I.Step, Observe, Wrap, InBounds, Loaded;
    StepTo(env, vm.core);
    InterpretWellFormed(env, vm);
  }

  /** One that is only counted: nothing is recorded, and the place is not hot yet. */
  lemma Counts(env: Env, vm: Vm)
    requires Holds(env) && WellFormed(env, vm) && !vm.core.halted && vm.core.pc < 6 && vm.core.pc !in vm.traces
    requires !vm.recorder.tracing && Hot(vm, vm.core.pc) + 1 < HOT_SPOT_THRESHOLD
    ensures var next := Step(env, vm);
            && next.Running? && At(env, next.vm, NextPc(vm.core), NextR1(vm.core), NextR2(vm.core))
            && next.vm == vm.(core := next.vm.core, hot := vm.hot[vm.core.pc := Hot(vm, vm.core.pc) + 1])
  {
    hide Step, InBounds, NextR1, NextR2, NextPc;
    Interprets(env, vm);
  }

  /** One trip through the compiled inner loop. */
  lemma InnerTrip(env: Env, vm: Vm)
    requires Holds(env) && WellFormed(env, vm) && !vm.core.halted && vm.core.pc == 2 && vm.core.regs[2] > 0
    requires 2 in vm.traces && vm.traces[2] == Inner()
    ensures var next := Step(env, vm);
            && next.Running? && next.vm == vm.(core := next.vm.core)
            && At(env, next.vm, if vm.core.regs[2] == 1 then 4 else 2, vm.core.regs[1], vm.core.regs[2] - 1)
  {
    hide J.Execute, InBounds, Loaded;
    FromProgramEncoded(env, Inner());
    InnerTrace(env, vm.core);
    AfterTraceInBounds(env, vm);
  }

  lemma Advance(env: Env, vm: Vm, n: nat)
    requires WellFormed(env, vm) && Step(env, vm).Running?
    ensures WellFormed(env, Step(env, vm).vm)
    ensures Run(env, vm, n + 1) == Run(env, Step(env, vm).vm, n)
  {
    hide Step;
    StepWellFormed(env, vm);
  }

  // ---------- the first trips: nothing is compiled

  /** The head of the outer loop after `k` trips; nothing is compiled. */
  predicate Cold(env: Env, vm: Vm, k: nat) {
    && k <= TRIPS && At(env, vm, 1, TRIPS - k, 0)
    && !vm.recorder.tracing && vm.recorder.buffer == [] && vm.traces == map[]
    && Hot(vm, 1) == Hot(vm, 4) == Hot(vm, 5) == k && Hot(vm, 2) == Hot(vm, 3) == 3 * k
  }

  /** Only the counters and the core of a machine move. */
  predicate OnlyCounted(vm: Vm, next: Vm) {
    next == vm.(core := next.core, hot := next.hot)
  }

  /** One round of the inner loop that is only counted. */
  lemma ColdRound(env: Env, vm: Vm, n: nat) returns (next: Vm)
    requires Holds(env) && vm.core.regs[2] > 0 && At(env, vm, 2, vm.core.regs[1], vm.core.regs[2])
    requires !vm.recorder.tracing && vm.traces == map[]
    requires Hot(vm, 2) + 1 < HOT_SPOT_THRESHOLD && Hot(vm, 3) + 1 < HOT_SPOT_THRESHOLD
    ensures At(env, next, if vm.core.regs[2] == 1 then 4 else 2, vm.core.regs[1], vm.core.regs[2] - 1)
    ensures OnlyCounted(vm, next) && Run(env, vm, 2 + n) == Run(env, next, n)
    ensures Hot(next, 2) == Hot(vm, 2) + 1 && Hot(next, 3) == Hot(vm, 3) + 1
    ensures forall p :: p != 2 && p != 3 ==> Hot(next, p) == Hot(vm, p)
  {
    hide Step, InBounds, Loaded;
    Counts(env, vm);
    Advance(env, vm, 1 + n);
    next := Step(env, vm).vm;
    Counts(env, next);
    Advance(env, next, n);
    next := Step(env, next).vm;
  }

  /** The head of the outer loop, only counted. */
  lemma CountedHead(env: Env, vm: Vm, n: nat) returns (next: Vm)
    requires Holds(env) && At(env, vm, 1, vm.core.regs[1], vm.core.regs[2])
    requires !vm.recorder.tracing && 1 !in vm.traces && Hot(vm, 1) + 1 < HOT_SPOT_THRESHOLD
    ensures At(env, next, 2, vm.core.regs[1], 3)
    ensures OnlyCounted(vm, next) && Run(env, vm, 1 + n) == Run(env, next, n)
    ensures Hot(next, 1) == Hot(vm, 1) + 1 && forall p :: p != 1 ==> Hot(next, p) == Hot(vm, p)
  {
    hide Step, InBounds, Loaded;
    Counts(env, vm);
    Advance(env, vm, n);
    next := Step(env, vm).vm;
  }

  /** The end of the outer loop, only counted, when a trip is left. */
  lemma CountedTail(env: Env, vm: Vm, n: nat) returns (next: Vm)
    requires Holds(env) && vm.core.regs[1] > 1 && At(env, vm, 4, vm.core.regs[1], 0)
    requires !vm.recorder.tracing && 4 !in vm.traces && 5 !in vm.traces
    requires Hot(vm, 4) + 1 < HOT_SPOT_THRESHOLD && Hot(vm, 5) + 1 < HOT_SPOT_THRESHOLD
    ensures At(env, next, 1, vm.core.regs[1] - 1, 0)
    ensures OnlyCounted(vm, next) && Run(env, vm, 2 + n) == Run(env, next, n)
    ensures Hot(next, 4) == Hot(vm, 4) + 1 && Hot(next, 5) == Hot(vm, 5) + 1
    ensures forall p :: p != 4 && p != 5 ==> Hot(next, p) == Hot(vm, p)
  {
    hide Step, InBounds, Loaded;
    Counts(env, vm);
    Advance(env, vm, 1 + n);
    next := Step(env, vm).vm;
    Counts(env, next);
    Advance(env, next, n);
    next := Step(env, next).vm;
  }

  lemma ColdTrip(env: Env, vm: Vm, k: nat, n: nat) returns (next: Vm)
    requires Holds(env) && Cold(env, vm, k) && k < COLD
    ensures Cold(env, next, k + 1) && Run(env, vm, 9 + n) == Run(env, next, n)
  {
    hide Step, InBounds, Run, Hot, Loaded, WellFormed;
    next := CountedHead(env, vm, 8 + n);
    next := ColdRound(env, next, 6 + n);
    next := ColdRound(env, next, 4 + n);
    next := ColdRound(env, next, 2 + n);
    next := CountedTail(env, next, n);
  }

  lemma {:induction false} ColdTrips(env: Env, vm: Vm, k: nat, n: nat) returns (next: Vm)
    requires Holds(env) && Cold(env, vm, k) && k <= COLD
    ensures Cold(env, next, COLD) && Run(env, vm, 9 * (COLD - k) + n) == Run(env, next, n)
    decreases COLD - k
  {
    hide Cold, Run, Holds;
    if k == COLD {
      next := vm;
    } else {
      next := ColdTrip(env, vm, k, 9 * (COLD - k - 1) + n);
      next := ColdTrips(env, next, k + 1, n);
    }
  }

  // ---------- the inner loop is compiled

  /** The head of the outer loop after `k` trips; the inner loop is compiled. */
  predicate Warm(env: Env, vm: Vm, k: nat) {
    && k <= TRIPS && At(env, vm, 1, TRIPS - k, 0)
    && !vm.recorder.tracing && vm.recorder.buffer == [] && vm.traces == map[2 := Inner()]
    && Hot(vm, 1) == Hot(vm, 4) == Hot(vm, 5) == k
  }

  /** The fiftieth time round, the inner loop is recorded and its trace compiled. */
  lemma InnerCompiled(env: Env, vm: Vm, n: nat) returns (next: Vm)
    requires Holds(env) && vm.core.regs[2] == 2 && At(env, vm, 2, vm.core.regs[1], 2)
    requires !vm.recorder.tracing && vm.traces == map[] && Hot(vm, 2) == HOT_SPOT_THRESHOLD - 1
    ensures At(env, next, 2, vm.core.regs[1], 1)
    ensures !next.recorder.tracing && next.recorder.buffer == [] && next.traces == map[2 := Inner()]
    ensures Run(env, vm, 2 + n) == Run(env, next, n)
    ensures forall p :: p != 2 ==> Hot(next, p) == Hot(vm, p)
  {
    hide Step, InBounds, Loaded;
    Interprets(env, vm);
    Advance(env, vm, 1 + n);
    next := Step(env, vm).vm;
    assert next.recorder == J.Recorder(true, 2, [Program()[2]]);
    Interprets(env, next);
    Advance(env, next, n);
    next := Step(env, next).vm;
    assert [Program()[2]] + [Program()[3]] == Inner();
  }

  /** One trip through the compiled inner loop, as a run. */
  lemma InnerRun(env: Env, vm: Vm, n: nat) returns (next: Vm)
    requires Holds(env) && vm.core.regs[2] > 0 && At(env, vm, 2, vm.core.regs[1], vm.core.regs[2])
    requires vm.traces == map[2 := Inner()]
    ensures At(env, next, if vm.core.regs[2] == 1 then 4 else 2, vm.core.regs[1], vm.core.regs[2] - 1)
    ensures next == vm.(core := next.core) && Run(env, vm, 1 + n) == Run(env, next, n)
    ensures forall p :: Hot(next, p) == Hot(vm, p)
  {
    hide Step, InBounds, Loaded;
    InnerTrip(env, vm);
    Advance(env, vm, n);
    next := Step(env, vm).vm;
  }

  /** The trip on which this happens. */
  lemma CompilingTrip(env: Env, vm: Vm, n: nat) returns (next: Vm)
    requires Holds(env) && Cold(env, vm, COLD)
    ensures Warm(env, next, COLD + 1) && Run(env, vm, 8 + n) == Run(env, next, n)
  {
    hide Step, InBounds, Run, Hot, Loaded, WellFormed;
    next := CountedHead(env, vm, 7 + n);
    next := ColdRound(env, next, 5 + n);
    next := InnerCompiled(env, next, 3 + n);
    next := InnerRun(env, next, 2 + n);
    next := CountedTail(env, next, n);
  }

  lemma WarmTrip(env: Env, vm: Vm, k: nat, n: nat) returns (next: Vm)
    requires Holds(env) && Warm(env, vm, k) && k + 1 < HOT_SPOT_THRESHOLD
    ensures Warm(env, next, k + 1) && Run(env, vm, 6 + n) == Run(env, next, n)
  {
    hide Step, InBounds, Run, Hot, Loaded, WellFormed;
    next := CountedHead(env, vm, 5 + n);
    next := InnerRun(env, next, 4 + n);
    next := InnerRun(env, next, 3 + n);
    next := InnerRun(env, next, 2 + n);
    next := CountedTail(env, next, n);
  }

  lemma {:induction false} WarmTrips(env: Env, vm: Vm, k: nat, n: nat) returns (next: Vm)
    requires Holds(env) && Warm(env, vm, k) && k < HOT_SPOT_THRESHOLD
    ensures Warm(env, next, HOT_SPOT_THRESHOLD - 1)
    ensures Run(env, vm, 6 * (HOT_SPOT_THRESHOLD - 1 - k) + n) == Run(env, next, n)
    decreases HOT_SPOT_THRESHOLD - k
  {
    hide Warm, Run, Holds;
    if k == HOT_SPOT_THRESHOLD - 1 {
      next := vm;
    } else {
      next := WarmTrip(env, vm, k, 6 * (HOT_SPOT_THRESHOLD - 2 - k) + n);
      next := WarmTrips(env, next, k + 1, n);
    }
  }

  // ---------- the outer loop is compiled without it

  /** Four steps: the head is recorded, and three trips of the inner loop go by unseen. */
  lemma InnerLoopUnseen(env: Env, vm: Vm, n: nat) returns (next: Vm)
    requires Holds(env) && Warm(env, vm, HOT_SPOT_THRESHOLD - 1)
    ensures At(env, next, 4, vm.core.regs[1], 0) && next.traces == vm.traces
    ensures next.recorder == J.Recorder(true, 1, [Program()[1]])
    ensures Run(env, vm, 4 + n) == Run(env, next, n)
  {
    hide Step, InBounds, Loaded;
    Interprets(env, vm);
    Advance(env, vm, 3 + n);
    next := Step(env, vm).vm;
    next := InnerRun(env, next, 2 + n);
    next := InnerRun(env, next, 1 + n);
    next := InnerRun(env, next, n);
  }

  lemma OuterBodyRecorded(env: Env, vm: Vm, n: nat) returns (next: Vm)
    requires Holds(env) && At(env, vm, 4, vm.core.regs[1], 0) && vm.core.regs[1] >= 3
    requires vm.traces == map[2 := Inner()] && vm.recorder == J.Recorder(true, 1, [Program()[1]])
    ensures At(env, next, 5, vm.core.regs[1] - 1, 0) && next.traces == vm.traces
    ensures next.recorder == J.Recorder(true, 1, [Program()[1], Program()[4]])
    ensures Run(env, vm, 1 + n) == Run(env, next, n)
  {
    hide Step, InBounds, Loaded;
    Interprets(env, vm);
    Advance(env, vm, n);
    next := Step(env, vm).vm;
    assert [Program()[1]] + [Program()[4]] == [Program()[1], Program()[4]];
  }

  lemma OuterBranchRecorded(env: Env, vm: Vm, n: nat) returns (next: Vm)
    requires Holds(env) && At(env, vm, 5, vm.core.regs[1], 0) && vm.core.regs[1] > 0
    requires vm.traces == map[2 := Inner()] && vm.recorder == J.Recorder(true, 1, [Program()[1], Program()[4]])
    ensures At(env, next, 1, vm.core.regs[1], 0) && next.traces == vm.traces[1 := Outer()]
    ensures Run(env, vm, 1 + n) == Run(env, next, n)
  {
    hide Step, InBounds, Loaded;
    Interprets(env, vm);
    Advance(env, vm, n);
    next := Step(env, vm).vm;
    assert [Program()[1], Program()[4]] + [Program()[5]] == Outer();
  }

  /** Two more: the rest of the outer loop is recorded and its trace compiled. */
  lemma OuterLoopCompiled(env: Env, vm: Vm, n: nat) returns (next: Vm)
    requires Holds(env) && At(env, vm, 4, vm.core.regs[1], 0) && vm.core.regs[1] >= 3
    requires vm.traces == map[2 := Inner()] && vm.recorder == J.Recorder(true, 1, [Program()[1]])
    ensures At(env, next, 1, vm.core.regs[1] - 1, 0)
    ensures next.traces == map[2 := Inner()][1 := Outer()]
    ensures Run(env, vm, 2 + n) == Run(env, next, n)
  {
    hide Step, InBounds, Run, Loaded, WellFormed;
    next := OuterBodyRecorded(env, vm, 1 + n);
    next := OuterBranchRecorded(env, next, n);
  }

  /** One trip through the compiled outer loop. */
  lemma OuterTrip(env: Env, vm: Vm)
    requires Holds(env) && WellFormed(env, vm) && !vm.core.halted && vm.core.pc == 1 && vm.core.regs[1] > 1
    requires 1 in vm.traces && vm.traces[1] == Outer()
    ensures var next := Step(env, vm);
            next.Running? && !next.vm.core.halted && next.vm.core.pc == 1 && next.vm.core.regs[2] == 3
  {
    hide J.Execute, InBounds, Loaded;
    FromProgramEncoded(env, Outer());
    OuterTrace(env, vm.core);
  }

  lemma OuterIsNoSlice(env: Env)
    requires Holds(env)
    ensures !TraceOk(env, 1, Outer())
  {
    assert Outer()[1] != Program()[1..4][1];
  }

  // ---------- from the load

  /** A machine just loaded: nothing compiled, counted or recorded, and the two counters at
      zero, as all registers are. */
  predicate JustLoaded(env: Env, vm: Vm) {
    && WellFormed(env, vm)
    && !vm.core.halted && vm.core.pc == 0 && vm.core.regs[1] == vm.core.regs[2] == 0
    && vm == Vm(vm.core, J.Recorder(false, 0, []), map[], map[])
  }

  /** The first instruction. */
  lemma FirstInstruction(env: Env, vm: Vm, n: nat) returns (next: Vm)
    requires Holds(env) && JustLoaded(env, vm)
    ensures Cold(env, next, 0) && Run(env, vm, 1 + n) == Run(env, next, n)
  {
    hide Step, InBounds, Loaded;
    Counts(env, vm);
    Advance(env, vm, n);
    next := Step(env, vm).vm;
  }

  /** Steps until the outer loop is about to be recorded. */
  const STEPS := 1 + 9 * COLD + 8 + 6 * (HOT_SPOT_THRESHOLD - 1 - (COLD + 1))

  /** The machine just loaded gets to the head of the outer loop with the inner one compiled. */
  lemma ReachesHead(env: Env, vm: Vm, n: nat) returns (head: Vm)
    requires Holds(env) && JustLoaded(env, vm)
    ensures Warm(env, head, HOT_SPOT_THRESHOLD - 1) && Run(env, vm, STEPS + n) == Run(env, head, n)
  {
    hide Cold, Warm, Run, Holds, JustLoaded;
    var warm := 6 * (HOT_SPOT_THRESHOLD - 1 - (COLD + 1));
    head := FirstInstruction(env, vm, 9 * COLD + 8 + warm + n);
    head := ColdTrips(env, head, 0, 8 + warm + n);
    head := CompilingTrip(env, head, warm + n);
    head := WarmTrips(env, head, COLD + 1, n);
  }

  /** The interpreter never counts R2 up to three at the head of the outer loop. */
  lemma NeverAgree(env: Env, s: Core, t: Core, n: nat)
    requires Holds(env) && Counted(env, s) && !t.halted && t.pc == 1 && t.regs[2] == 3
    ensures I.Run(env, s, n).Next? && !Agree(t, I.Run(env, s, n).core)
  {
    hide I.Run, Loaded;
    RunKeepsCounted(env, s, n);
    var r := I.Run(env, s, n);
    if Agree(t, r.core) {
      R.AgreeOnRegister(t, r.core, 2);
    }
  }

  /** Where the run has compiled the outer loop, and one trip later. */
  lemma OuterLoopRuns(env: Env, vm: Vm)
    requires Holds(env) && JustLoaded(env, vm)
    ensures var compiled := Run(env, vm, STEPS + 6);
            compiled.Running? && 1 in compiled.vm.traces && compiled.vm.traces[1] == Outer()
    ensures var after := Run(env, vm, STEPS + 7);
            after.Running? && !after.vm.core.halted && after.vm.core.pc == 1 && after.vm.core.regs[2] == 3
  {
    hide Step, InBounds, Loaded, WellFormed, JustLoaded, Outer, Inner, Program;
    var head := ReachesHead(env, vm, 6);
    var unseen := InnerLoopUnseen(env, head, 2);
    var compiled := OuterLoopCompiled(env, unseen, 0);
    head := ReachesHead(env, vm, 7);
    unseen := InnerLoopUnseen(env, head, 3);
    compiled := OuterLoopCompiled(env, unseen, 1);
    OuterTrip(env, compiled);
    Advance(env, compiled, 0);
  }

  /** From every machine just loaded with this program: the trace compiled for the outer loop
      is not the stretch of program at its entry, and after its first trip the machine is in a
      state that the interpreter alone never gets to. */
  lemma CompiledWithoutInnerLoop(env: Env, vm: Vm)
    requires Holds(env) && JustLoaded(env, vm)
    ensures var compiled := Run(env, vm, STEPS + 6);
            compiled.Running? && 1 in compiled.vm.traces && !TraceOk(env, 1, compiled.vm.traces[1])
    ensures Run(env, vm, STEPS + 7).Running?
    ensures forall n: nat :: I.Run(env, vm.core, n).Next? &&
              !Agree(Run(env, vm, STEPS + 7).vm.core, I.Run(env, vm.core, n).core)
  {
    hide I.Run, TraceOk, Observable, Program, Outer, Inner, Loaded, Run, InBounds;
    OuterLoopRuns(env, vm);
    OuterIsNoSlice(env);
    var after := Run(env, vm, STEPS + 7).vm.core;
    forall n: nat ensures I.Run(env, vm.core, n).Next? && !Agree(after, I.Run(env, vm.core, n).core) {
      NeverAgree(env, vm.core, after, n);
    }
  }

  lemma ProgramGuarded(env: Env)
    requires Holds(env)
    ensures GuardedProgram(env)
  {
  }

  /** So this run is not orderly: the condition of the whole-run theorem cannot be dropped. */
  lemma NotOrderly(env: Env, vm: Vm)
    requires Holds(env) && JustLoaded(env, vm)
    ensures !Orderly(env, vm, STEPS + 7)
  {
    hide Run, I.Run, Orderly, Observable, InBounds, Loaded;
    ProgramGuarded(env);
    if Orderly(env, vm, STEPS + 7) {
      CompiledWithoutInnerLoop(env, vm);
      RunRefinesFromLoad(env, vm, STEPS + 7);
    }
  }
}
