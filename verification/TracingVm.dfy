/** The interpreter with its trace compiler: hot-spot counters, the recorder that
    watches the instructions go by, and the table of compiled traces, which a step
    enters before it fetches anything. */
module TracingVm {
  import opened Isa
  import opened VmState
  import I = Interpreter
  import J = Jit
  import R = JitRefinement

  const HOT_SPOT_THRESHOLD := 50

  datatype Vm = Vm(core: Core, recorder: J.Recorder, hot: map<nat, nat>, traces: map<nat, seq<Insn>>)

  datatype VmOutcome = Running(vm: Vm) | Stopped(outcome: I.Outcome)

  /** Everything the compiler holds came out of the program. */
  predicate FromProgram(env: Env, insns: seq<Insn>) {
    forall i :: 0 <= i < |insns| ==> insns[i] in env.program
  }

  predicate WellFormed(env: Env, vm: Vm) {
    && Loaded(env) && InBounds(env, vm.core)
    && FromProgram(env, vm.recorder.buffer)
    && forall p :: p in vm.traces ==> FromProgram(env, vm.traces[p])
  }

  lemma FromProgramEncoded(env: Env, insns: seq<Insn>)
    requires Loaded(env) && FromProgram(env, insns)
    ensures forall i :: 0 <= i < |insns| ==> Encoded(insns[i])
  {
    forall i | 0 <= i < |insns| ensures Encoded(insns[i]) {
      var j :| 0 <= j < |env.program| && env.program[j] == insns[i];
    }
  }

  function AllowAll(): J.Hook {
    (_, _, _) => true
  }

  predicate AtTrace(vm: Vm) {
    !vm.core.halted && vm.core.pc in vm.traces
  }

  function RunTrace(env: Env, vm: Vm): J.TraceResult
    requires WellFormed(env, vm) && AtTrace(vm)
  {
    FromProgramEncoded(env, vm.traces[vm.core.pc]);
    J.Execute(env, AllowAll(), vm.traces[vm.core.pc], vm.core, 0)
  }

  /** The machine after a trace; a failed guard drops the trace. */
  function AfterTrace(env: Env, vm: Vm): Vm
    requires WellFormed(env, vm) && AtTrace(vm) && RunTrace(env, vm).Ended?
  {
    var r := RunTrace(env, vm);
    var core := r.core.(ticks := r.core.ticks + r.executed);
    if r.exit.GuardDeopt? then vm.(core := core, traces := vm.traces - {vm.core.pc})
    else vm.(core := core)
  }

  /** Hot-spot detection, recording and compilation at the instruction about to run. */
  function Observe(env: Env, vm: Vm): Vm
    requires vm.core.pc < |env.program|
  {
    var pc := vm.core.pc;
    var count := (if pc in vm.hot then vm.hot[pc] else 0) + 1;
    var hot := if vm.recorder.tracing then vm.hot else vm.hot[pc := count];
    var started := if !vm.recorder.tracing && count >= HOT_SPOT_THRESHOLD then J.StartTracing(pc) else vm.recorder;
    var recorded := J.Record(started, env.program[pc]);
    if started.tracing && !recorded.tracing then
      var (idle, trace) := J.Compile(recorded);
      match trace
      case Some(insns) => vm.(recorder := idle, hot := hot, traces := vm.traces[idle.start := insns])
      case None => vm.(recorder := idle, hot := hot)
    else
      vm.(recorder := recorded, hot := hot)
  }

  /** The interpreted part of a step. */
  function Interpret(env: Env, vm: Vm): VmOutcome
    requires Loaded(env) && InBounds(env, vm.core)
  {
    var observed := if !vm.core.halted && vm.core.pc < |env.program| then Observe(env, vm) else vm;
    match I.Step(env, vm.core)
    case Next(core) => Running(observed.(core := core))
    case stop => Stopped(stop)
  }

  /** `Interpreter::step`: a compiled trace is run first; only a failed guard goes on
      to interpret, in the same step. */
  function Step(env: Env, vm: Vm): VmOutcome
    requires WellFormed(env, vm)
  {
    if !AtTrace(vm) then Interpret(env, vm)
    else
      var r := RunTrace(env, vm);
      if r.Undefined? then Stopped(I.Undefined)
      else if !r.exit.GuardDeopt? then Running(AfterTrace(env, vm))
      else AfterTraceInBounds(env, vm); Interpret(env, AfterTrace(env, vm))
  }

  lemma AfterTraceInBounds(env: Env, vm: Vm)
    requires WellFormed(env, vm) && AtTrace(vm) && RunTrace(env, vm).Ended?
    ensures WellFormed(env, AfterTrace(env, vm))
  {
    FromProgramEncoded(env, vm.traces[vm.core.pc]);
    R.ExecuteInBounds(env, AllowAll(), vm.traces[vm.core.pc], vm.core, 0);
  }

  lemma ObserveWellFormed(env: Env, vm: Vm)
    requires WellFormed(env, vm) && vm.core.pc < |env.program|
    ensures WellFormed(env, Observe(env, vm))
  {
    assert env.program[vm.core.pc] in env.program;
  }

  lemma InterpretWellFormed(env: Env, vm: Vm)
    requires WellFormed(env, vm)
    ensures Interpret(env, vm).Running? ==> WellFormed(env, Interpret(env, vm).vm)
  {
    hide I.Step, Observe, InBounds;
    I.StepKeepsBounds(env, vm.core);
    if !vm.core.halted && vm.core.pc < |env.program| {
      ObserveWellFormed(env, vm);
    }
  }

  lemma StepWellFormed(env: Env, vm: Vm)
    requires WellFormed(env, vm)
    ensures Step(env, vm).Running? ==> WellFormed(env, Step(env, vm).vm)
  {
    hide Interpret, AfterTrace, RunTrace, InBounds;
    if !AtTrace(vm) {
      InterpretWellFormed(env, vm);
    } else if RunTrace(env, vm).Ended? {
      AfterTraceInBounds(env, vm);
      InterpretWellFormed(env, AfterTrace(env, vm));
    }
  }

  function Run(env: Env, vm: Vm, n: nat): VmOutcome
    requires WellFormed(env, vm)
    decreases n
  {
    if n == 0 then Running(vm)
    else match Step(env, vm)
      case Running(next) => StepWellFormed(env, vm); Run(env, next, n - 1)
      case stop => stop
  }
}
