/** The constants and tables of the machine, said of what it does: its reserved registers, its
    segments, the depth of its calls, and what a trace may hold. */
module MachineLimits {
  import opened Word
  import opened Isa
  import opened Wrappers
  import opened VmState
  import I = Interpreter
  import J = Jit

  /** The reserved registers are those that a refresh may change: it leaves every other one as
      it is, and there are a machine and a state in which it changes this one. */
  lemma ReservedIff(env: Env, s: Core, r: nat)
    requires RegOk(r)
    ensures !Reserved(r) ==> Sync(env, s).regs[r] == s.regs[r] && Sync(env, s).tags[r] == s.tags[r]
    ensures Reserved(r) ==> exists e: Env, t: Core :: Sync(e, t).regs[r] != t.regs[r]
  {
    if Reserved(r) {
      var e := env.(entropy := (t: Core) => 0);
      var v: Word := if Sync(e, s).regs[r] == 0 then 1 else 0;
      var t := s.(regs := s.regs[r := v]);
      RefreshIgnores(e, s, t);
      assert Sync(e, t).regs[r] != t.regs[r];
    }
  }

  lemma RefreshIgnores(env: Env, s: Core, t: Core)
    requires t == s.(regs := t.regs) && env.entropy(s) == env.entropy(t)
    ensures forall r :: RegOk(r) && Reserved(r) ==> Sync(env, t).regs[r] == Sync(env, s).regs[r]
  {
  }

  /** In a program laid out in one piece the data addresses are those behind the code, and a
      jump may go to any instruction and to the end. */
  lemma AddressesIff(layout: Layout, a: int)
    requires layout.Contiguous()
    ensures layout.Data(a) <==> layout.code.limit <= a < layout.meta.limit
    ensures layout.Target(a) <==> 0 <= a <= layout.code.limit
  {
  }

  /** A trace calls and returns to instructions only, not to the end; where the program is
      empty, to any address in memory. */
  lemma CodeOkIff(env: Env, size: nat, addr: int)
    requires Loaded(env)
    ensures J.CodeOk(env, size, addr) <==> 0 <= addr < size && (env.program != [] ==> addr < |env.program|)
  {
  }

  /** A call through a register is refused for its depth exactly from 729 calls on. */
  lemma CallRefusedIff(env: Env, insn: Insn, s: Core)
    requires Loaded(env) && InBounds(env, s) && Encoded(insn) && insn.op.Call? && RegOk(insn.b)
    ensures I.ExecCall(env, insn, s) == I.Fault(s, I.TierFault) <==> s.callDepth >= 729
  {
  }

  /** Everything can be recorded but what stops the machine, does nothing, or transfers control
      to a computed place; a branch ends the trace it is recorded in. */
  lemma RecordedIff(r: J.Recorder, insn: Insn)
    requires r.tracing
    ensures var next := J.Record(r, insn);
            && (next.buffer == r.buffer + [insn] <==>
                  !insn.op.Nop? && !insn.op.Halt? && !insn.op.Trap? && !insn.op.Call? && !insn.op.Ret?)
            && (next.tracing <==> next.buffer == r.buffer + [insn] && !IsBranch(insn.op))
  {
    assert |r.buffer + [insn]| == |r.buffer| + 1;
  }

  /** The types whose values are all equal are those that the runtime tokens name. */
  lemma TokensIff(t: Tag)
    ensures I.ComparedAsToken(t) <==> exists name: string :: I.RuntimeToken(name) == Some(t)
  {
    if I.ComparedAsToken(t) {
      var name := TokenName(t);
      TokenNamed(t);
      assert I.RuntimeToken(name) == Some(t);
    }
    forall name: string ensures I.RuntimeToken(name) == Some(t) ==> I.ComparedAsToken(t) {
    }
  }

  function TokenName(t: Tag): string {
    if t.ProofHandle? then "std.sys.proof"
    else if t.IoStreamHandle? then "std.io.stream"
    else if t.IoNetHandle? then "std.io.net"
    else if t.AsyncThreadHandle? then "std.async.thread"
    else "std.async.promise"
  }

  lemma TokenNamed(t: Tag)
    requires I.ComparedAsToken(t)
    ensures I.RuntimeToken(TokenName(t)) == Some(t)
  {
  }

  /** Six types are compared by what their handles stand for, and no other: their comparison
      is the only one that depends on the contents of pools. */
  lemma ComparedByContentsIff(env: Env, t: Tag)
    ensures (t == FloatHandle || t == FractionHandle || t == SymbolHandle || t == OptionHandle || t == ResultHandle
             || t == ComplexHandle)
       <==> exists e: Env :: I.CompareValue(e, t, 0, 0) != I.CompareValue(env, t, 0, 0)
  {
    var unanswered := env.(compareHandles := (t: Tag, x: Word, y: Word) => None);
    var equal := env.(compareHandles := (t: Tag, x: Word, y: Word) => Some(0));
    assert I.CompareValue(unanswered, t, 0, 0) == I.CompareValue(env, t, 0, 0)
        || I.CompareValue(unanswered, t, 0, 0) != I.CompareValue(env, t, 0, 0);
    assert I.CompareValue(equal, t, 0, 0) == I.CompareValue(env, t, 0, 0)
        || I.CompareValue(equal, t, 0, 0) != I.CompareValue(env, t, 0, 0);
  }
}
