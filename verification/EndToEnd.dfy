/** From intermediate code to compiled traces: the machine that records and runs traces
    follows the code that was assembled. */
module EndToEnd {
  import opened VmState
  import opened TracingVm
  import opened VmRefinement
  import A = Assembler
  import I = Interpreter
  import R = AssemblerRefinement

  /** An orderly run of the tracing machine on an emitted program corresponds to the run of
      the intermediate code over the instructions that the machine retires: unless that one
      faults, the machine is still running and the two agree on all that a program can
      observe. */
  lemma TracedProgramFollowsSource(read: A.Reader, ir: A.Ir, env: Env, vm: Vm, s: Core, n: nat)
    requires A.Emit(read, ir).Ok? && R.Assembled(ir)
    requires var insns := A.Emit(read, ir).value.insns;
             && |env.program| == |insns| && env.layout.Contiguous() && env.layout.code.limit == |insns|
             && forall i :: 0 <= i < |insns| ==> insns[i].op.Core? && env.program[i] == R.ToInsn(insns[i])
    requires Paired(env, vm, s) && s.pc == 0 && Contiguous(env, vm) && Orderly(env, vm, n)
    ensures WellFormed(env, vm) && R.Ready(env, ir, R.At(0, s))
    ensures var k := R.Needed(env, ir, R.At(0, s), Retired(env, vm, n));
            var c := R.LabelRun(env, ir, R.At(0, s), k);
            c.At? ==> Run(env, vm, n).Running? && Agree(Run(env, vm, n).vm.core, c.core)
  {
    hide Paired, Contiguous, Orderly, Run, I.Run, R.LabelRun, R.Needed, R.Ready, Observable, A.Emit, R.Assembled;
    hide InBounds, WellFormed, InOrder, Retired;
    PairedInBounds(env, vm, s);
    RunRefines(env, vm, s, n);
    R.AssemblyPreservesMeaning(read, ir, env, s, Retired(env, vm, n));
  }
}
