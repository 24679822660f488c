/** The assembler preserves meaning: the machine that runs intermediate code, where a
    jump goes to a label and a label does nothing, and the machine that runs the emitted
    program, where a jump goes to an address, match step for step. */
module AssemblerRefinement {
  import opened Word
  import opened Isa
  import opened Wrappers
  import opened VmState
  import opened Interpreter
  import opened IrMeaning
  import A = Assembler

  /** Code of the integer fragment in which every label that is used is defined, and
      operands that name registers are registers. */
  predicate Assembled(ir: A.Ir) {
    forall p :: 0 <= p < |ir| && ir[p].Instruction? ==>
      && Integral(ir[p])
      && (UsesSecond(ir[p]) ==> ir[p].text.None? && (|ir[p].operands| > 1 ==> ir[p].operands[1].Register?))
      && forall k :: 0 <= k < |ir[p].operands| && ir[p].operands[k].Label? ==>
           A.Definition(ir, ir[p].operands[k].id, |ir|).Some?
  }

  function ToInsn(e: A.Emitted): Insn
    requires e.op.Core?
  {
    Insn(e.op.op, e.a, e.b, e.c, e.literal)
  }

  function Mapped(i: A.Instruction): A.VmOp
    requires i.Instruction?
  {
    A.MapOpcode(i.op, i.primitive, i.booleanResult, i.relation)
  }

  lemma BinaryMaps(i: A.Instruction)
    requires i.Instruction? && Integral(i) && Binary(i.op)
    ensures Mapped(i).Core? && ThreeRegister(Mapped(i).op) && !IsComparison(Mapped(i).op)
  {
  }

  lemma JumpMaps(i: A.Instruction)
    requires i.Instruction? && IsJump(i.op)
    ensures Mapped(i).Core? && IsBranch(Mapped(i).op) && (ReadsB(Mapped(i).op) <==> TestsRegister(i.op))
  {
  }

  lemma OtherMaps(i: A.Instruction)
    requires i.Instruction? && Integral(i) && !Binary(i.op) && !IsJump(i.op)
    ensures Mapped(i).Core? && !IsBranch(Mapped(i).op) && (ReadsB(Mapped(i).op) <==> UsesSecond(i))
  {
  }

  /** Of the integer fragment, instructions become machine instructions that read the same
      operands from registers. */
  lemma MapsToCore(i: A.Instruction)
    requires i.Instruction? && Integral(i)
    ensures var v := Mapped(i);
            v.Core? && (ReadsB(v.op) <==> UsesSecond(i)) && (IsBranch(v.op) <==> IsJump(i.op))
  {
    hide Mapped, Integral;
    if Binary(i.op) {
      BinaryMaps(i);
    } else if IsJump(i.op) {
      JumpMaps(i);
    } else {
      OtherMaps(i);
    }
  }

  function InsnAt(ir: A.Ir, p: nat): (insn: Insn)
    requires Assembled(ir) && p < |ir| && ir[p].Instruction?
    ensures Encoded(insn)
  {
    MapsToCore(ir[p]);
    ToInsn(A.Lowered(ir, p))
  }

  /** The machine holds the emitted program. */
  ghost predicate Holds(env: Env, ir: A.Ir) {
    && Loaded(env) && Assembled(ir)
    && |env.program| == A.AddressAt(ir, |ir|)
    && forall p :: 0 <= p < |ir| && ir[p].Instruction? ==>
         A.AddressAt(ir, p) < |env.program| && env.program[A.AddressAt(ir, p)] == InsnAt(ir, p)
  }

  // ---------- the machine of the intermediate code

  /** A position in the code, or the end of the run. */
  datatype Config = At(pos: nat, core: Core) | Stopped(outcome: Outcome)

  /** The first position that has `address` instructions before it; the end if none has. */
  function Locate(ir: A.Ir, address: nat, p: nat): (q: nat)
    requires p <= |ir|
    ensures p <= q <= |ir|
    decreases |ir| - p
  {
    if p == |ir| || A.AddressAt(ir, p) == address then p else Locate(ir, address, p + 1)
  }

  predicate BranchesToLabel(ir: A.Ir, p: nat)
    requires p < |ir| && ir[p].Instruction?
  {
    IsJump(ir[p].op) && |ir[p].operands| > 0 && ir[p].operands[0].Label?
  }

  // ---------- an instruction means what the emitted one does

  lemma FieldsAre(ir: A.Ir, p: nat)
    requires Assembled(ir) && p < |ir| && ir[p].Instruction?
    ensures var i, insn := ir[p], InsnAt(ir, p);
            && Integral(i)
            && insn == Insn(insn.op, First(ir, p), Second(ir, p), Third(ir, p), i.literal)
            && Mapped(i) == A.Core(insn.op)
  {
    hide A.MapOpcode, A.Symbols, A.FloatsBefore, A.IndexOf, A.Resolved;
    MapsToCore(ir[p]);
  }

  lemma BinaryMeans(i: A.Instruction, insn: Insn, s: Core)
    requires i.Instruction? && Integral(i) && Binary(i.op) && Encoded(insn)
    requires Mapped(i) == A.Core(insn.op)
    ensures ThreeRegister(insn.op) && !IsComparison(insn.op)
    ensures RunBinary(i.op, insn.a, insn.b, insn.c, s) == ExecAlu(insn, s)
  {
    hide Mapped, Combine, Alu, Integral;
    BinaryMaps(i);
    if RegOk(insn.a) && RegOk(insn.b) && RegOk(insn.c) {
      CombineIsAlu(i, insn.op, s.regs[insn.b], s.regs[insn.c]);
    }
  }

  lemma CombineIsAlu(i: A.Instruction, op: Opcode, x: Word, y: Word)
    requires i.Instruction? && Integral(i) && Binary(i.op)
    requires Mapped(i) == A.Core(op)
    ensures Alu(op, x, y) == match Combine(i.op, x, y) case None => None case Some(v) => Some(Wrap(v))
  {
    hide Combine, Alu, Wrap;
    if OnlyIntegers(i.op) {
      BitsAreAlu(i, op, x, y);
    } else {
      SumsAreAlu(i, op, x, y);
    }
  }

  lemma SumsAreAlu(i: A.Instruction, op: Opcode, x: Word, y: Word)
    requires i.Instruction? && Integral(i) && Binary(i.op) && !OnlyIntegers(i.op)
    requires Mapped(i) == A.Core(op)
    ensures Alu(op, x, y) == match Combine(i.op, x, y) case None => None case Some(v) => Some(Wrap(v))
  {
    hide Wrap, TruncDiv;
  }

  lemma BitsAreAlu(i: A.Instruction, op: Opcode, x: Word, y: Word)
    requires i.Instruction? && OnlyIntegers(i.op)
    requires Mapped(i) == A.Core(op)
    ensures Alu(op, x, y) == match Combine(i.op, x, y) case None => None case Some(v) => Some(Wrap(v))
  {
    hide Bitwise, Shift, TruncMod, Wrap;
    WordStays(Bitwise(And, x, y));
    WordStays(Bitwise(Or, x, y));
    WordStays(Bitwise(Xor, x, y));
    WordStays(Shift(Left, x, y));
    WordStays(Shift(Arithmetic, x, y));
    WordStays(Shift(Logical, x, y));
  }

  lemma WordStays(w: Word)
    ensures Wrap(w) == w
  {
  }

  lemma UnaryMeans(i: A.Instruction, insn: Insn, s: Core)
    requires i.Instruction? && (i.op.NEG? || i.op.BITNOT? || i.op.MOV?) && Encoded(insn)
    requires Mapped(i) == A.Core(insn.op)
    ensures TwoRegister(insn.op) && RunUnary(i.op, insn.a, insn.b, s) == ExecUnary(insn, s)
  {
    hide Mapped, ExecUnary, RunUnary;
    UnaryMaps(i);
    if i.op.MOV? {
      MoveMeans(insn, s);
    } else {
      NegationMeans(i.op, insn, s);
    }
  }

  lemma UnaryMaps(i: A.Instruction)
    requires i.Instruction? && (i.op.NEG? || i.op.BITNOT? || i.op.MOV?)
    ensures Mapped(i) == A.Core(if i.op.NEG? then Neg else if i.op.BITNOT? then BitNot else Mov)
  {
  }

  lemma MoveMeans(insn: Insn, s: Core)
    requires insn.op.Mov? && Encoded(insn)
    ensures RunUnary(A.MOV, insn.a, insn.b, s) == ExecUnary(insn, s)
  {
  }

  lemma NegationMeans(op: A.IrOp, insn: Insn, s: Core)
    requires (op.NEG? && insn.op.Neg?) || (op.BITNOT? && insn.op.BitNot?)
    requires Encoded(insn)
    ensures RunUnary(op, insn.a, insn.b, s) == ExecUnary(insn, s)
  {
    if RegOk(insn.b) {
      WordStays(-1 - s.regs[insn.b]);
    }
    hide Wrap;
  }

  lemma CompareMeans(env: Env, i: A.Instruction, insn: Insn, s: Core)
    requires i.Instruction? && i.op.CMP? && Encoded(insn)
    requires Mapped(i) == A.Core(insn.op)
    ensures insn.op.Cmp? || IsComparison(insn.op)
    ensures RunCompare(env, i, insn.a, insn.b, insn.c, s) ==
              if insn.op.Cmp? then ExecCmp(env, insn, s) else ExecCompare(env, insn, s)
  {
    hide CompareValue;
  }

  lemma JumpMeans(env: Env, i: A.Instruction, insn: Insn, s: Core)
    requires i.Instruction? && IsJump(i.op) && Encoded(insn) && Loaded(env)
    requires Mapped(i) == A.Core(insn.op)
    ensures IsBranch(insn.op) && (ReadsB(insn.op) <==> TestsRegister(i.op))
    ensures RunJump(env, i.op, insn.a, insn.b, s) == ExecBranch(env, insn, s)
  {
  }

  /** Every instruction of the integer fragment means what the instruction emitted for it
      does. */
  lemma MeaningIsExec(env: Env, ir: A.Ir, p: nat, s: Core)
    requires Loaded(env) && InBounds(env, s) && Assembled(ir) && p < |ir| && ir[p].Instruction?
    ensures UsesSecond(ir[p]) ==> -TWO_31 <= Second(ir, p) < TWO_31
    ensures Meaning(env, ir, p, s) == Exec(env, InsnAt(ir, p), s)
  {
    hide RunBinary, RunUnary, RunCompare, RunJump, ExecAlu, ExecUnary, ExecCmp, ExecCompare, ExecBranch;
    hide First, Second, Third, Assembled, InBounds, Loaded, InsnAt, Mapped;
    hide ExecLoadImm, ExecLoad, ExecStore, ExecPush, ExecPop, ExecCall, ExecRet, Exec;
    FieldsAre(ir, p);
    SecondFits(ir, p);
    var i, insn := ir[p], InsnAt(ir, p);
    if Binary(i.op) {
      BinaryMeans(i, insn, s);
      RegistersExec(env, insn, s);
    } else if i.op.NEG? || i.op.BITNOT? || i.op.MOV? {
      UnaryMeans(i, insn, s);
      RegistersExec(env, insn, s);
    } else if i.op.CMP? {
      CompareMeans(env, i, insn, s);
      CompareExec(env, insn, s);
    } else if IsJump(i.op) {
      JumpMeans(env, i, insn, s);
      BranchIsExec(env, insn, s);
    } else {
      RestMaps(i);
      RestExec(env, insn, s);
    }
  }

  lemma RegistersExec(env: Env, insn: Insn, s: Core)
    requires Loaded(env) && InBounds(env, s) && Encoded(insn)
    requires (ThreeRegister(insn.op) && !IsComparison(insn.op)) || TwoRegister(insn.op)
    ensures Exec(env, insn, s) == if TwoRegister(insn.op) then ExecUnary(insn, s) else ExecAlu(insn, s)
  {
    hide ExecAlu, ExecUnary;
  }

  lemma CompareExec(env: Env, insn: Insn, s: Core)
    requires Loaded(env) && InBounds(env, s) && Encoded(insn) && (insn.op.Cmp? || IsComparison(insn.op))
    ensures Exec(env, insn, s) == if insn.op.Cmp? then ExecCmp(env, insn, s) else ExecCompare(env, insn, s)
  {
    hide ExecCmp, ExecCompare;
  }

  lemma RestExec(env: Env, insn: Insn, s: Core)
    requires Loaded(env) && InBounds(env, s) && Encoded(insn)
    ensures insn.op.LoadImm? ==> Exec(env, insn, s) == ExecLoadImm(env, insn, s)
    ensures insn.op.Load? ==> Exec(env, insn, s) == ExecLoad(env, insn, s)
    ensures insn.op.Store? ==> Exec(env, insn, s) == ExecStore(env, insn, s)
    ensures insn.op.Push? ==> Exec(env, insn, s) == ExecPush(env, insn, s)
    ensures insn.op.Pop? ==> Exec(env, insn, s) == ExecPop(env, insn, s)
    ensures insn.op.Call? ==> Exec(env, insn, s) == ExecCall(env, insn, s)
    ensures insn.op.Ret? ==> Exec(env, insn, s) == ExecRet(env, s)
    ensures insn.op.Nop? ==> Exec(env, insn, s) == Next(s)
    ensures insn.op.Halt? ==> Exec(env, insn, s) == Next(s.(halted := true))
    ensures insn.op.Trap? ==> Exec(env, insn, s) == Fault(s, TrapInstruction)
  {
    hide ExecLoadImm, ExecLoad, ExecStore, ExecPush, ExecPop, ExecCall, ExecRet;
  }

  lemma RestMaps(i: A.Instruction)
    requires i.Instruction? && Integral(i) && !Binary(i.op) && !IsJump(i.op)
    requires !i.op.NEG? && !i.op.BITNOT? && !i.op.MOV? && !i.op.CMP?
    ensures Mapped(i) == A.Core(
              if i.op.LOADI? then LoadImm else if i.op.LOAD? then Load else if i.op.STORE? then Store
              else if i.op.PUSH? then Push else if i.op.POP? then Pop else if i.op.CALL? then Call
              else if i.op.RET? then Ret else if i.op.NOP? then Nop else if i.op.HALT? then Halt else Trap)
  {
  }

  // ---------- the places of labels

  /** Where a label stands. */
  function Target(ir: A.Ir, p: nat): (q: nat)
    requires Assembled(ir) && p < |ir| && ir[p].Instruction? && BranchesToLabel(ir, p)
    ensures q < |ir| && ir[q] == A.LabelAt(ir[p].operands[0].id)
  {
    A.Definition(ir, ir[p].operands[0].id, |ir|).value
  }

  /** A branch goes to the place of its label. */
  function BranchStep(env: Env, ir: A.Ir, p: nat, s: Core): Config
    requires Assembled(ir) && p < |ir| && ir[p].Instruction? && BranchesToLabel(ir, p)
  {
    var op, r := ir[p].op, Second(ir, p);
    if TestsRegister(op) && !RegOk(r) then Stopped(Fault(Sync(env, s), DecodeFault))
    else if Taken(op, if TestsRegister(op) then s.regs[r] else 0, s.flags) then
      var q := Target(ir, p);
      At(q, Sync(env, s.(pc := A.AddressAt(ir, q))))
    else At(p + 1, Sync(env, s))
  }

  lemma SecondFits(ir: A.Ir, p: nat)
    requires Assembled(ir) && p < |ir| && ir[p].Instruction?
    ensures UsesSecond(ir[p]) ==> -TWO_31 <= Second(ir, p) < TWO_31
  {
  }

  /** One step: a label is passed over, a branch to a label goes there, and any other
      instruction does what it means; a computed transfer goes to the place with that many
      instructions before it. */
  function LabelStep(env: Env, ir: A.Ir, c: Config): Config
    requires Ready(env, ir, c)
  {
    if c.Stopped? || c.core.halted then c
    else if c.pos == |ir| then At(c.pos, c.core.(halted := true))
    else if ir[c.pos].LabelAt? then At(c.pos + 1, c.core)
    else if BranchesToLabel(ir, c.pos) then BranchStep(env, ir, c.pos, Fetch(c.core))
    else
      SecondFits(ir, c.pos);
      match Meaning(env, ir, c.pos, Fetch(c.core))
      case Next(s) => At(if s.pc == c.core.pc + 1 then c.pos + 1 else Locate(ir, s.pc, 0), Sync(env, s))
      case Fault(s, fault) => Stopped(Fault(Sync(env, s), fault))
      case Undefined => Stopped(Undefined)
  }

  /** The program counter is the address of the position; past the end, both are at rest. */
  predicate Placed(ir: A.Ir, c: Config) {
    c.At? ==>
      && c.pos <= |ir|
      && (c.core.pc == A.AddressAt(ir, c.pos) || (c.pos == |ir| && A.AddressAt(ir, |ir|) <= c.core.pc))
  }

  /** The same state, or the same end. */
  predicate Same(c: Config, o: Outcome) {
    match c
    case At(_, s) => o == Next(s)
    case Stopped(outcome) => o == outcome && !outcome.Next?
  }

  ghost predicate Ready(env: Env, ir: A.Ir, c: Config) {
    Holds(env, ir) && Placed(ir, c) && (c.At? ==> InBounds(env, c.core))
  }

  /** Whether the next step of the machine executes an instruction. */
  predicate Counts(ir: A.Ir, c: Config) {
    c.At? && !c.core.halted && (c.pos < |ir| ==> ir[c.pos].Instruction?)
  }

  lemma {:induction false} LocateFinds(ir: A.Ir, address: nat, p: nat)
    requires p <= |ir| && A.AddressAt(ir, p) <= address
    ensures var q := Locate(ir, address, p);
            A.AddressAt(ir, q) == address || (q == |ir| && A.AddressAt(ir, |ir|) <= address)
    decreases |ir| - p
  {
    if p < |ir| && A.AddressAt(ir, p) != address {
      A.AddressesGrow(ir, p, p + 1);
      assert A.AddressAt(ir, p + 1) <= A.AddressAt(ir, p) + 1;
      LocateFinds(ir, address, p + 1);
    }
  }

  lemma BranchMatches(env: Env, ir: A.Ir, p: nat, s: Core)
    requires Holds(env, ir) && p < |ir| && ir[p].Instruction? && BranchesToLabel(ir, p)
    requires InBounds(env, s) && s.pc == A.AddressAt(ir, p) + 1
    ensures var c := BranchStep(env, ir, p, s);
            && IsBranch(InsnAt(ir, p).op)
            && Placed(ir, c)
            && Same(c, After(env, ExecBranch(env, InsnAt(ir, p), s)))
  {
    hide Sync, A.AddressAt, A.Definition, InsnAt, Target, Assembled, A.MapOpcode, First, Second, Third, ExecBranch;
    var q := Target(ir, p);
    A.AddressesGrow(ir, q, |ir|);
    A.NextCounts(ir, p + 1);
    FieldsAre(ir, p);
    TargetAddress(ir, p);
    SyncKeepsPc(env);
    JumpMeans(env, ir[p], InsnAt(ir, p), s);
  }

  lemma TargetAddress(ir: A.Ir, p: nat)
    requires Assembled(ir) && p < |ir| && ir[p].Instruction? && BranchesToLabel(ir, p)
    ensures InsnAt(ir, p).a == A.AddressAt(ir, Target(ir, p))
  {
    hide Assembled, A.MapOpcode, A.IndexOf, A.Symbols, A.IsSymbol, A.IsFloat, Narrow;
    NarrowsToItself(A.AddressAt(ir, Target(ir, p)));
  }

  lemma NarrowsToItself(x: Int32)
    ensures Narrow(x) == x
  {
  }

  /** The step of the machine on the instruction at the program counter. */
  function After(env: Env, r: Outcome): Outcome {
    match r
    case Next(s) => Next(Sync(env, s))
    case Fault(s, fault) => Fault(Sync(env, s), fault)
    case Undefined => Undefined
  }

  lemma StepExecutes(env: Env, s: Core)
    requires Loaded(env) && InBounds(env, s) && !s.halted && s.pc < |env.program|
    ensures InBounds(env, Fetch(s))
    ensures Step(env, s) == After(env, Exec(env, env.program[s.pc], Fetch(s)))
  {
    hide Exec, Sync;
  }

  /** An instruction that is no branch to a label. */
  lemma OtherMatches(env: Env, ir: A.Ir, c: Config)
    requires Ready(env, ir, c) && c.At? && !c.core.halted && c.pos < |ir| && ir[c.pos].Instruction?
    requires !BranchesToLabel(ir, c.pos)
    ensures Placed(ir, LabelStep(env, ir, c)) && Same(LabelStep(env, ir, c), Step(env, c.core))
  {
    hide Sync, InBounds, Exec, Locate, Assembled, InsnAt, A.AddressAt, BranchesToLabel, Loaded, Meaning, Second;
    A.AddressesGrow(ir, c.pos, |ir|);
    A.NextCounts(ir, c.pos + 1);
    ReadyLoads(env, ir, c);
    StepExecutes(env, c.core);
    MeaningIsExec(env, ir, c.pos, Fetch(c.core));
    SyncKeepsPc(env);
    var r := Exec(env, InsnAt(ir, c.pos), Fetch(c.core));
    if r.Next? {
      StartsAtZero(ir);
      LocateFinds(ir, r.core.pc, 0);
    }
  }

  lemma StartsAtZero(ir: A.Ir)
    ensures A.AddressAt(ir, 0) == 0
  {
  }

  lemma BranchingMatches(env: Env, ir: A.Ir, c: Config)
    requires Ready(env, ir, c) && c.At? && !c.core.halted && c.pos < |ir| && ir[c.pos].Instruction?
    requires BranchesToLabel(ir, c.pos)
    ensures Placed(ir, LabelStep(env, ir, c)) && Same(LabelStep(env, ir, c), Step(env, c.core))
  {
    hide Sync, InBounds, Exec, Locate, Assembled, InsnAt, A.AddressAt, BranchStep, ExecBranch, Loaded;
    A.AddressesGrow(ir, c.pos, |ir|);
    ReadyLoads(env, ir, c);
    StepExecutes(env, c.core);
    BranchMatches(env, ir, c.pos, Fetch(c.core));
    BranchIsExec(env, InsnAt(ir, c.pos), Fetch(c.core));
  }

  lemma ReadyLoads(env: Env, ir: A.Ir, c: Config)
    requires Ready(env, ir, c)
    ensures Holds(env, ir) && Loaded(env) && (c.At? ==> InBounds(env, c.core))
  {
  }

  lemma ReadyAgain(env: Env, ir: A.Ir, c: Config)
    requires Ready(env, ir, c) && c.At? && Placed(ir, LabelStep(env, ir, c))
    requires Same(LabelStep(env, ir, c), Step(env, c.core))
    ensures Ready(env, ir, LabelStep(env, ir, c))
  {
    ReadyLoads(env, ir, c);
    hide Holds, InBounds, Placed, LabelStep, Step, Loaded;
    StepKeepsBounds(env, c.core);
  }

  /** One executed instruction is one step of the emitted program, and a label is none. */
  lemma StepMatches(env: Env, ir: A.Ir, c: Config)
    requires Ready(env, ir, c) && c.At?
    ensures Ready(env, ir, LabelStep(env, ir, c))
    ensures if Counts(ir, c) || c.core.halted then Same(LabelStep(env, ir, c), Step(env, c.core))
            else LabelStep(env, ir, c) == At(c.pos + 1, c.core)
  {
    hide Sync, InBounds, BranchStep, Exec, Locate, BranchesToLabel, Loaded, Assembled, A.AddressAt;
    ReadyLoads(env, ir, c);
    var s := c.core;
    if Counts(ir, c) {
      if c.pos == |ir| {
        ReadyAgain(env, ir, c);
      } else if BranchesToLabel(ir, c.pos) {
        BranchingMatches(env, ir, c);
        ReadyAgain(env, ir, c);
      } else {
        OtherMatches(env, ir, c);
        ReadyAgain(env, ir, c);
      }
    } else if !s.halted {
      A.NextCounts(ir, c.pos + 1);
    }
  }

  lemma BranchIsExec(env: Env, insn: Insn, s: Core)
    requires Loaded(env) && InBounds(env, s) && Encoded(insn) && IsBranch(insn.op)
    ensures Exec(env, insn, s) == ExecBranch(env, insn, s)
  {
  }

  lemma SyncKeepsPc(env: Env)
    ensures forall s :: Sync(env, s).pc == s.pc
  {
  }

  // ---------- runs

  function LabelRun(env: Env, ir: A.Ir, c: Config, n: nat): Config
    requires Ready(env, ir, c)
    decreases n
  {
    if n == 0 || c.Stopped? then c
    else StepMatches(env, ir, c); LabelRun(env, ir, LabelStep(env, ir, c), n - 1)
  }

  /** How many of `n` steps execute an instruction. */
  function Executed(env: Env, ir: A.Ir, c: Config, n: nat): (m: nat)
    requires Ready(env, ir, c)
    ensures m <= n
    decreases n
  {
    if n == 0 || c.Stopped? then 0
    else
      StepMatches(env, ir, c);
      Executed(env, ir, LabelStep(env, ir, c), n - 1) + if Counts(ir, c) then 1 else 0
  }

  /** The emitted program run from where `c` is. */
  function Emitted(env: Env, ir: A.Ir, c: Config, m: nat): Outcome
    requires Ready(env, ir, c) && c.At?
  {
    Run(env, c.core, m)
  }

  lemma {:induction false} HaltedStays(env: Env, ir: A.Ir, c: Config, m: nat)
    requires Ready(env, ir, c) && c.At? && c.core.halted
    ensures Emitted(env, ir, c, m) == Next(c.core)
    decreases m
  {
    hide Holds, InBounds;
    if m > 0 {
      HaltedStays(env, ir, c, m - 1);
    }
  }

  lemma {:induction false} HaltedRests(env: Env, ir: A.Ir, c: Config, n: nat)
    requires Ready(env, ir, c) && c.At? && c.core.halted
    ensures LabelRun(env, ir, c, n) == c && Executed(env, ir, c, n) == 0
    decreases n
  {
    hide Holds, InBounds;
    if n > 0 {
      HaltedRests(env, ir, c, n - 1);
    }
  }

  /** A run of the intermediate code begins with its first step. */
  lemma Unfold(env: Env, ir: A.Ir, c: Config, n: nat)
    requires Ready(env, ir, c)
    ensures Placed(ir, c)
    ensures n == 0 || c.Stopped? ==> LabelRun(env, ir, c, n) == c && Executed(env, ir, c, n) == 0
    ensures n > 0 && c.At? ==>
              && Ready(env, ir, LabelStep(env, ir, c))
              && LabelRun(env, ir, c, n) == LabelRun(env, ir, LabelStep(env, ir, c), n - 1)
              && Executed(env, ir, c, n) ==
                 Executed(env, ir, LabelStep(env, ir, c), n - 1) + if Counts(ir, c) then 1 else 0
  {
    hide Holds, InBounds, LabelStep;
    if c.At? {
      StepMatches(env, ir, c);
    }
  }

  /** So does a run of the emitted program; where the intermediate code passes a label,
      it waits. */
  lemma UnfoldEmitted(env: Env, ir: A.Ir, c: Config, m: nat)
    requires Ready(env, ir, c) && c.At? && !c.core.halted
    ensures Ready(env, ir, LabelStep(env, ir, c))
    ensures Emitted(env, ir, c, 0) == Next(c.core)
    ensures var c1 := LabelStep(env, ir, c);
            if Counts(ir, c) then
              if c1.At? then Emitted(env, ir, c, m + 1) == Emitted(env, ir, c1, m)
              else Emitted(env, ir, c, m + 1) == c1.outcome && !c1.outcome.Next?
            else c1.At? && Emitted(env, ir, c, m) == Emitted(env, ir, c1, m) && c1.pos == c.pos + 1
  {
    hide Holds, InBounds, LabelStep;
    StepMatches(env, ir, c);
  }

  /** Every run of the intermediate code is a run of the emitted program: as many steps
      as it executes instructions, labels counting for nothing. */
  lemma {:induction false} LabelRunIsRun(env: Env, ir: A.Ir, c: Config, n: nat)
    requires Ready(env, ir, c) && c.At?
    ensures Same(LabelRun(env, ir, c, n), Emitted(env, ir, c, Executed(env, ir, c, n)))
    decreases n
  {
    hide LabelStep, Emitted, LabelRun, Executed, Ready, Placed, Counts;
    Unfold(env, ir, c, n);
    if c.core.halted {
      HaltedRests(env, ir, c, n);
      HaltedStays(env, ir, c, 0);
    } else if n == 0 {
      UnfoldEmitted(env, ir, c, 0);
    } else {
      var c1 := LabelStep(env, ir, c);
      UnfoldEmitted(env, ir, c, Executed(env, ir, c1, n - 1));
      if c1.At? {
        LabelRunIsRun(env, ir, c1, n - 1);
      } else {
        Unfold(env, ir, c1, n - 1);
      }
    }
  }

  /** How many steps of the intermediate code make `m` steps of the emitted program: the
      labels on the way are passed over. */
  function Needed(env: Env, ir: A.Ir, c: Config, m: nat): nat
    requires Ready(env, ir, c)
    decreases m, if c.At? then |ir| - c.pos else 0
  {
    if m == 0 || c.Stopped? || c.core.halted then 0
    else
      StepMatches(env, ir, c);
      var c1 := LabelStep(env, ir, c);
      1 + Needed(env, ir, c1, if Counts(ir, c) then m - 1 else m)
  }

  lemma NeededUnfolds(env: Env, ir: A.Ir, c: Config, m: nat)
    requires Ready(env, ir, c) && c.At?
    ensures Ready(env, ir, LabelStep(env, ir, c))
    ensures Needed(env, ir, c, m) == if m == 0 || c.core.halted then 0
                                     else 1 + Needed(env, ir, LabelStep(env, ir, c), if Counts(ir, c) then m - 1 else m)
  {
    hide Holds, InBounds, LabelStep;
    StepMatches(env, ir, c);
  }

  /** Conversely every run of the emitted program, of any length, is reached. */
  lemma {:induction false} RunIsLabelRun(env: Env, ir: A.Ir, c: Config, m: nat)
    requires Ready(env, ir, c) && c.At?
    ensures Same(LabelRun(env, ir, c, Needed(env, ir, c, m)), Emitted(env, ir, c, m))
    decreases m, if Placed(ir, c) then |ir| - c.pos else 0
  {
    hide LabelStep, Emitted, LabelRun, Executed, Ready, Placed, Counts, Needed;
    var n := Needed(env, ir, c, m);
    NeededUnfolds(env, ir, c, m);
    Unfold(env, ir, c, n);
    if c.core.halted {
      HaltedStays(env, ir, c, m);
    } else {
      UnfoldEmitted(env, ir, c, if m > 0 && Counts(ir, c) then m - 1 else m);
      if m > 0 {
        var c1 := LabelStep(env, ir, c);
        Unfold(env, ir, c1, n - 1);
        if c1.At? {
          PlacedInside(ir, c1);
          RunIsLabelRun(env, ir, c1, if Counts(ir, c) then m - 1 else m);
        }
      }
    }
  }

  lemma PlacedInside(ir: A.Ir, c: Config)
    requires Placed(ir, c) && c.At?
    ensures c.pos <= |ir|
  {
  }

  /** What the assembler emits is what the machine must hold. */
  lemma EmissionHolds(read: A.Reader, ir: A.Ir, env: Env)
    requires A.Emit(read, ir).Ok? && Assembled(ir)
    requires var insns := A.Emit(read, ir).value.insns;
             && |env.program| == |insns| && env.layout.Contiguous() && env.layout.code.limit == |insns|
             && forall i :: 0 <= i < |insns| ==> insns[i].op.Core? && env.program[i] == ToInsn(insns[i])
    ensures Holds(env, ir)
  {
    var out := A.Emit(read, ir).value;
    A.EmitLowers(read, ir);
    BuiltHolds(read, ir, out, env);
  }

  lemma BuiltHolds(read: A.Reader, ir: A.Ir, out: A.Output, env: Env)
    requires Assembled(ir) && A.Built(read, ir, |ir|, out)
    requires |env.program| == |out.insns| && env.layout.Contiguous() && env.layout.code.limit == |out.insns|
    requires forall i :: 0 <= i < |out.insns| ==> out.insns[i].op.Core? && env.program[i] == ToInsn(out.insns[i])
    ensures Holds(env, ir)
  {
    hide A.Lowered, A.Symbols, A.FloatsBefore;
    forall i | 0 <= i < |env.program| ensures Encoded(env.program[i]) {
      var p := PositionOf(ir, i, |ir|);
      assert env.program[i] == InsnAt(ir, p);
    }
  }

  /** The position of the instruction with a given address. */
  lemma {:induction false} PositionOf(ir: A.Ir, i: nat, n: nat) returns (p: nat)
    requires n <= |ir| && i < A.AddressAt(ir, n)
    ensures p < n && ir[p].Instruction? && A.AddressAt(ir, p) == i
  {
    if ir[n - 1].Instruction? && A.AddressAt(ir, n - 1) == i {
      p := n - 1;
    } else {
      p := PositionOf(ir, i, n - 1);
    }
  }

  /** The assembler preserves meaning.  Started at the beginning, the emitted program and
      the intermediate code run alike, in both directions and for any number of steps. */
  lemma AssemblyPreservesMeaning(read: A.Reader, ir: A.Ir, env: Env, s: Core, n: nat)
    requires A.Emit(read, ir).Ok? && Assembled(ir)
    requires var insns := A.Emit(read, ir).value.insns;
             && |env.program| == |insns| && env.layout.Contiguous() && env.layout.code.limit == |insns|
             && forall i :: 0 <= i < |insns| ==> insns[i].op.Core? && env.program[i] == ToInsn(insns[i])
    requires InBounds(env, s) && s.pc == 0
    ensures Ready(env, ir, At(0, s))
    ensures Same(LabelRun(env, ir, At(0, s), n), Run(env, s, Executed(env, ir, At(0, s), n)))
    ensures Same(LabelRun(env, ir, At(0, s), Needed(env, ir, At(0, s), n)), Run(env, s, n))
  {
    EmissionHolds(read, ir, env);
    hide Holds, InBounds;
    assert A.AddressAt(ir, 0) == 0;
    LabelRunIsRun(env, ir, At(0, s), n);
    RunIsLabelRun(env, ir, At(0, s), n);
  }

  /** A label whose address was loaded into a register is where a call through that
      register goes: the place found is the label's, or labels lead from it to there. */
  lemma LabelValueLeadsToLabel(ir: A.Ir, q: nat)
    requires q < |ir| && ir[q].LabelAt?
    ensures var p := Locate(ir, A.AddressAt(ir, q), 0);
            p <= q && forall k :: p <= k < q ==> ir[k].LabelAt?
  {
    LocateFinds(ir, A.AddressAt(ir, q), 0);
    LocateFirst(ir, q, 0);
    var p := Locate(ir, A.AddressAt(ir, q), 0);
    forall k | p <= k < q ensures ir[k].LabelAt? {
      A.AddressesGrow(ir, p, k);
      A.AddressesGrow(ir, k, q);
    }
  }

  lemma {:induction false} LocateFirst(ir: A.Ir, q: nat, p: nat)
    requires p <= q < |ir|
    ensures Locate(ir, A.AddressAt(ir, q), p) <= q
    decreases q - p
  {
    if p < q && A.AddressAt(ir, p) != A.AddressAt(ir, q) {
      LocateFirst(ir, q, p + 1);
    }
  }

  /** Labels that no one defines are emitted all the same, as address zero. */
  lemma UndefinedLabelIsZero(read: A.Reader, ir: A.Ir, p: nat)
    requires A.Emit(read, ir).Ok? && p < |ir| && ir[p].Instruction?
    ensures A.AddressAt(ir, p) < |A.Emit(read, ir).value.insns|
    ensures var e, o := A.Emit(read, ir).value.insns[A.AddressAt(ir, p)], ir[p].operands;
            && (|o| > 0 && Unplaced(ir, o[0]) ==> e.a == 0)
            && (|o| > 1 && Unplaced(ir, o[1]) && ir[p].text.None? ==> e.b == 0)
  {
    hide A.Emit, A.Built;
    A.EmitLowers(read, ir);
    BuiltAt(read, ir, A.Emit(read, ir).value, p);
  }

  lemma BuiltAt(read: A.Reader, ir: A.Ir, out: A.Output, p: nat)
    requires A.Built(read, ir, |ir|, out) && p < |ir| && ir[p].Instruction?
    ensures A.AddressAt(ir, p) < |out.insns| && out.insns[A.AddressAt(ir, p)] == A.Lowered(ir, p)
  {
  }

  predicate Unplaced(ir: A.Ir, o: A.Operand) {
    o.Label? && A.Definition(ir, o.id, |ir|).None?
  }

  lemma BranchToZero(env: Env, insn: Insn, s: Core)
    requires Loaded(env) && InBounds(env, s) && Encoded(insn) && IsBranch(insn.op) && insn.a == 0
    ensures var r := Exec(env, insn, s);
            && (r.Next? ==> r.core == s || r.core == s.(pc := 0))
            && (insn.op.Jump? ==> r == Next(s.(pc := 0)))
  {
  }

  /** So a branch to one, where the intermediate code has nowhere to go, goes to the start of
      the program whenever it is taken; a plain jump always does. */
  lemma UndefinedLabelJumpsToStart(read: A.Reader, ir: A.Ir, p: nat, env: Env, s: Core)
    requires A.Emit(read, ir).Ok? && p < |ir| && ir[p].Instruction?
    requires |ir[p].operands| > 0 && Unplaced(ir, ir[p].operands[0])
    requires IsJump(ir[p].op)
    requires Loaded(env) && InBounds(env, s)
    ensures !Assembled(ir)
    ensures A.AddressAt(ir, p) < |A.Emit(read, ir).value.insns|
    ensures var e := A.Emit(read, ir).value.insns[A.AddressAt(ir, p)];
            && e.op.Core?
            && (Encoded(ToInsn(e)) ==>
                  var r := Exec(env, ToInsn(e), s);
                  && (r.Next? ==> r.core == s || r.core == s.(pc := 0))
                  && (ir[p].op.JMP? ==> r == Next(s.(pc := 0))))
  {
    hide A.Emit, A.Built, Exec, A.Definition;
    MapsToCore(ir[p]);
    UndefinedLabelIsZero(read, ir, p);
    A.EmitLowers(read, ir);
    BuiltAt(read, ir, A.Emit(read, ir).value, p);
    var e := A.Emit(read, ir).value.insns[A.AddressAt(ir, p)];
    if Encoded(ToInsn(e)) {
      BranchToZero(env, ToInsn(e), s);
    }
  }
}
