/** A policy is compiled, written, shipped, read back and put to work. */
module PolicyDeployment {
  import opened AxionPolicy
  import opened PolicyBytecode
  import opened PolicyEngine
  import opened PolicyWire

  lemma {:induction false} JudgementsNeedOnlyCode(p: Policy, q: Policy, seen: seq<bool>, seen': seq<bool>,
      run: seq<SyscallContext>)
    requires p.bytecode == q.bytecode != [] && p.symbols == q.symbols && p.tensorHashes == q.tensorHashes
    requires |seen| == |p.loops| && |seen'| == |q.loops|
    ensures JudgeAll(p, seen, run) == JudgeAll(q, seen', run)
    decreases |run|
  {
    hide Execute;
    if run != [] {
      JudgementsNeedOnlyCode(p, q, seen, seen', run[1..]);
    }
  }

  /** The policy that arrives over the wire judges every run as the clause-by-clause
      engine of the policy that was compiled, plus its tier check. */
  lemma DeployedPolicyJudgesAlike(p: Policy, seen: seq<bool>, run: seq<SyscallContext>)
    requires Compilable(p) && Writable(Compile(p)) && LogsGrow(run)
    requires |seen| == |p.loops| && (run != [] ==> FlagsSound(p.loops, seen, run[0].trace))
    ensures var arrived := Deserialize(Serialize(Compile(p)));
            && arrived.Ok?
            && forall i :: 0 <= i < |run| ==>
                 var unseen := seq(|arrived.value.loops|, _ => false);
                 && JudgeAll(p, seen, run)[i].Judged?
                 && JudgeAll(arrived.value, unseen, run)[i]
                 == Judged(if TierFails(p, run[i]) then Deny else JudgeAll(p, seen, run)[i].verdict)
  {
    hide Serialize, Deserialize, Compile, Writable, JudgeAll, FlagsSound, TierFails, Compilable;
    var q := Compile(p);
    DeserializeSerialize(q);
    CompiledHasCode(p);
    var arrived := Canonical(q);
    JudgementsNeedOnlyCode(q, arrived, seen, seq(|arrived.loops|, _ => false), run);
    CompilationPreservesVerdicts(p, seen, seen, run);
  }

  lemma CompiledHasCode(p: Policy)
    ensures Compile(p).bytecode != [] && |Compile(p).loops| == |p.loops|
    ensures |Canonical(Compile(p)).loops| == |p.loops|
  {
    hide EmitClauses, Encode;
  }
}
