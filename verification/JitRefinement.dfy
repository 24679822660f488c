/** A compiled trace and the interpreter agree, instruction by instruction, except
    where the trace omits one of the interpreter's checks. */
module JitRefinement {
  import opened Word
  import opened Isa
  import opened Wrappers
  import opened VmState
  import I = Interpreter
  import J = Jit

  /** The operands keep off the registers that the interpreter refreshes after every
      step: none is written, and the two that change with every step are not read. */
  predicate Guarded(insn: Insn) {
    && (WritesA(insn.op) ==> !Reserved(insn.a))
    && (ReadsA(insn.op) ==> !Volatile(insn.a))
    && (ReadsB(insn.op) ==> !Volatile(insn.b))
    && (ThreeRegister(insn.op) ==> !Volatile(insn.c))
  }

  predicate Taken(insn: Insn, s: Core)
    requires IsBranch(insn.op) && (ReadsB(insn.op) ==> RegOk(insn.b))
  {
    || insn.op.Jump?
    || (insn.op.JumpIfZero? && s.regs[insn.b] == 0)
    || (insn.op.JumpIfNotZero? && s.regs[insn.b] != 0)
    || (insn.op.JumpIfNegative? && s.flags.negative)
    || (insn.op.JumpIfPositive? && s.flags.positive)
  }

  /** A check of the interpreter that the trace does not make fails: the words compared
      have different types, the address lies in the code segment, the stack quota is
      exceeded, or the jump leaves the program. */
  predicate Unchecked(env: Env, insn: Insn, s: Core) {
    if IsComparison(insn.op) then
      RegOk(insn.a) && RegOk(insn.b) && RegOk(insn.c) && s.tags[insn.b] != s.tags[insn.c]
    else if insn.op.Load? then
      RegOk(insn.a) && J.MemOk(s, insn.b) && !env.layout.Data(Narrow(insn.b))
    else if insn.op.Store? then
      RegOk(insn.b) && J.MemOk(s, insn.a) && !env.layout.Data(insn.a)
    else if insn.op.Push? then
      RegOk(insn.a) && s.sp > s.stackLimit && env.maxStack.Some? && s.stackBase - (s.sp - 1) > env.maxStack.value
    else if IsBranch(insn.op) then
      (ReadsB(insn.op) ==> RegOk(insn.b)) && Taken(insn, s) && !env.layout.Target(insn.a)
    else false
  }

  /** The interpreter, which orders handles and capabilities by what they stand for, and
      the trace, which goes by their words, answer a comparison alike. */
  predicate AnsweredAlike(env: Env, op: Opcode, tag: Tag, x: Word, y: Word)
    requires IsComparison(op)
  {
    var order := I.CompareValue(env, tag, x, y);
    order.Some? && (I.Relation(op, order.value) <==> J.Holds(op, x, y))
  }

  /** A comparison of two values of one type that the two answer differently. */
  predicate ComparesApart(env: Env, insn: Insn, s: Core) {
    && IsComparison(insn.op)
    && RegOk(insn.a) && RegOk(insn.b) && RegOk(insn.c)
    && s.tags[insn.b] == s.tags[insn.c]
    && !AnsweredAlike(env, insn.op, s.tags[insn.b], s.regs[insn.b], s.regs[insn.c])
  }

  /** A test of two registers of one type other than integer: the trace gives up, the
      interpreter need not. */
  predicate TestsOtherType(insn: Insn, s: Core) {
    && insn.op.Cmp?
    && RegOk(insn.a) && RegOk(insn.b)
    && s.tags[insn.a] == s.tags[insn.b] != IntTag
  }

  // ---------- observations

  lemma AgreeOnRegister(s: Core, t: Core, r: int)
    requires Agree(s, t) && RegOk(r)
    ensures s.tags[r] == t.tags[r]
    ensures !Volatile(r) ==> s.regs[r] == t.regs[r]
  {
    assert Observable(s).regs[r] == Observable(t).regs[r];
  }

  lemma AgreeAfterPut(s: Core, t: Core, r: int, v: Word, tag: Tag)
    requires Agree(s, t) && RegOk(r)
    ensures Agree(Put(s, r, v, tag), Put(t, r, v, tag))
  {
    assert s.regs[75 := 0][77 := 0] == t.regs[75 := 0][77 := 0];
    if !Volatile(r) {
      assert s.regs[r := v][75 := 0][77 := 0] == s.regs[75 := 0][77 := 0][r := v];
      assert t.regs[r := v][75 := 0][77 := 0] == t.regs[75 := 0][77 := 0][r := v];
    } else {
      assert s.regs[r := v][75 := 0][77 := 0] == s.regs[75 := 0][77 := 0];
      assert t.regs[r := v][75 := 0][77 := 0] == t.regs[75 := 0][77 := 0];
    }
  }

  lemma AgreeAfterFetch(s: Core, t: Core)
    requires Agree(s.(pc := t.pc), t)
    ensures Agree(s.(pc := I.Fetch(t).pc), I.Fetch(t))
  {
  }

  // ---------- one instruction

  /** What the two dispatches owe each other on one instruction.  `s` is the state of
      the trace, whose program counter lags behind; `t` that of the interpreter. */
  predicate Matches(env: Env, insn: Insn, s: Core, e: J.Effect, t: Core, r: I.Outcome) {
    match e
    case Done(s1) =>
      && r.Next?
      && r.core.pc == t.pc
      && J.AfterSwitch(insn, s1).Some?
      && Observable(J.AfterSwitch(insn, s1).value.(pc := t.pc)) == Observable(r.core)
    case Jumped(s1) =>
      && r.Next?
      && J.AfterSwitch(insn, s1) == Some(s1)
      && Observable(s1) == Observable(r.core)
    case Deopt(s1) =>
      && s1 == s
      && if TestsOtherType(insn, s) then J.AfterSwitch(insn, s1) == Some(s) else !r.Next?
  }

  lemma TernaryAgrees(op: Opcode, x: Word, y: Word)
    ensures I.ClampTrit(x) == J.Clamp(x)
    ensures I.TritOp(op, I.ClampTrit(x), I.ClampTrit(y)) == J.TritWord(op, x, y)
  {
  }

  /** The two arithmetic units compute the same word, and refuse the same division. */
  lemma AluAgrees(op: Opcode, x: Word, y: Word)
    requires ThreeRegister(op) && !IsComparison(op)
    ensures I.Alu(op, x, y).None? <==> (op.Div? || op.Mod?) && y == 0
    ensures I.Alu(op, x, y).Some? ==> I.Alu(op, x, y).value == J.Value(op, x, y)
  {
    TernaryAgrees(op, x, y);
  }

  lemma AluMatches(env: Env, insn: Insn, s: Core, t: Core)
    requires Encoded(insn) && Guarded(insn)
    requires Agree(s.(pc := t.pc), t)
    requires ThreeRegister(insn.op) && !IsComparison(insn.op)
    ensures Matches(env, insn, s, J.DispatchThree(insn, s), t, I.ExecAlu(insn, t))
  {
    hide I.Alu, J.Value;
    if RegOk(insn.a) && RegOk(insn.b) && RegOk(insn.c) {
      AgreeOnRegister(s.(pc := t.pc), t, insn.b);
      AgreeOnRegister(s.(pc := t.pc), t, insn.c);
      AluAgrees(insn.op, s.regs[insn.b], s.regs[insn.c]);
      var e := J.DispatchThree(insn, s);
      if e.Done? {
        var v := J.Value(insn.op, s.regs[insn.b], s.regs[insn.c]);
        AgreeAfterPut(s.(pc := t.pc), t, insn.a, v, IntTag);
      }
    }
  }

  lemma CompareMatches(env: Env, insn: Insn, s: Core, t: Core)
    requires Encoded(insn) && Guarded(insn)
    requires Agree(s.(pc := t.pc), t)
    requires IsComparison(insn.op) && !Unchecked(env, insn, s) && !ComparesApart(env, insn, s)
    ensures Matches(env, insn, s, J.DispatchThree(insn, s), t, I.ExecCompare(env, insn, t))
  {
    if RegOk(insn.a) && RegOk(insn.b) && RegOk(insn.c) {
      AgreeOnRegister(s.(pc := t.pc), t, insn.b);
      AgreeOnRegister(s.(pc := t.pc), t, insn.c);
      var v := J.Value(insn.op, s.regs[insn.b], s.regs[insn.c]);
      AgreeAfterPut(s.(pc := t.pc), t, insn.a, v, IntTag);
    }
  }

  /** The two compute the same word. */
  lemma UnaryAgrees(insn: Insn, s: Core)
    requires Encoded(insn) && TwoRegister(insn.op) && RegOk(insn.a) && RegOk(insn.b)
    ensures J.DispatchTwo(insn, s) ==
            J.Done(if insn.op.Mov? then Put(s, insn.a, s.regs[insn.b], s.tags[insn.b])
                   else Put(s, insn.a, I.Unary(insn.op, s.regs[insn.b]), IntTag))
  {
    TernaryAgrees(TNot, s.regs[insn.b], 0);
  }

  lemma TwoDeopts(insn: Insn, s: Core)
    requires Encoded(insn) && TwoRegister(insn.op) && !(RegOk(insn.a) && RegOk(insn.b))
    ensures J.DispatchTwo(insn, s) == J.Deopt(s)
  {
  }

  lemma TwoMatches(env: Env, insn: Insn, s: Core, t: Core)
    requires Loaded(env) && Encoded(insn) && Guarded(insn)
    requires Agree(s.(pc := t.pc), t)
    requires TwoRegister(insn.op)
    requires InBounds(env, s) && InBounds(env, t)
    ensures Matches(env, insn, s, J.DispatchTwo(insn, s), t, I.ExecUnary(insn, t))
  {
    hide J.DispatchTwo, I.Unary;
    if RegOk(insn.a) && RegOk(insn.b) {
      AgreeOnRegister(s.(pc := t.pc), t, insn.b);
      UnaryAgrees(insn, s);
      var e := J.DispatchTwo(insn, s);
      AgreeAfterPut(s.(pc := t.pc), t, insn.a, e.core.regs[insn.a], e.core.tags[insn.a]);
    } else {
      TwoDeopts(insn, s);
    }
  }

  /** Writing the same to a register on both sides. */
  lemma PutMatches(env: Env, insn: Insn, s: Core, t: Core, v: Word, tag: Tag)
    requires Agree(s.(pc := t.pc), t) && RegOk(insn.a) && !J.KeepsFlags(insn.op)
    ensures Matches(env, insn, s, J.Done(Put(s, insn.a, v, tag)), t, I.Next(SetFlags(Put(t, insn.a, v, tag), v)))
  {
    AgreeAfterPut(s.(pc := t.pc), t, insn.a, v, tag);
  }

  lemma LiteralAgrees(env: Env, insn: Insn, s: Core, t: Core) returns (v: Word, tag: Tag)
    requires insn.op.LoadImm? && RegOk(insn.a) && !Reserved(insn.a)
    ensures J.DispatchLoadImm(env, insn, s) == J.Done(Put(s, insn.a, v, tag))
    ensures I.ExecLoadImm(env, insn, t) == I.Next(SetFlags(Put(t, insn.a, v, tag), v))
  {
    hide FlagsOf;
    var e := J.DispatchLoadImm(env, insn, s);
    v, tag := e.core.regs[insn.a], e.core.tags[insn.a];
  }

  lemma LoadImmMatches(env: Env, insn: Insn, s: Core, t: Core)
    requires Loaded(env) && Encoded(insn) && Guarded(insn)
    requires Agree(s.(pc := t.pc), t)
    requires insn.op.LoadImm?
    requires InBounds(env, s) && InBounds(env, t)
    ensures Matches(env, insn, s, J.DispatchLoadImm(env, insn, s), t, I.ExecLoadImm(env, insn, t))
  {
    if RegOk(insn.a) {
      hide J.DispatchLoadImm, I.ExecLoadImm, Matches, Agree;
      var v, tag := LiteralAgrees(env, insn, s, t);
      PutMatches(env, insn, s, t, v, tag);
    }
  }

  lemma LoadMatches(env: Env, insn: Insn, s: Core, t: Core)
    requires Loaded(env) && InBounds(env, s) && InBounds(env, t) && Encoded(insn) && Guarded(insn)
    requires insn.op.Load? && Agree(s.(pc := t.pc), t) && !Unchecked(env, insn, s)
    ensures Matches(env, insn, s, J.DispatchMemory(env, insn, s), t, I.ExecLoad(env, insn, t))
  {
    assert s.memory == t.memory && s.memoryTags == t.memoryTags;
    if RegOk(insn.a) && J.MemOk(s, insn.b) {
      AgreeAfterPut(s.(pc := t.pc), t, insn.a, s.memory[insn.b], s.memoryTags[insn.b]);
    }
  }

  lemma StoreMatches(env: Env, insn: Insn, s: Core, t: Core)
    requires Loaded(env) && InBounds(env, s) && InBounds(env, t) && Encoded(insn) && Guarded(insn)
    requires insn.op.Store? && Agree(s.(pc := t.pc), t) && !Unchecked(env, insn, s)
    ensures Matches(env, insn, s, J.DispatchMemory(env, insn, s), t, I.ExecStore(env, insn, t))
  {
    assert s.memory == t.memory && s.memoryTags == t.memoryTags;
    if RegOk(insn.b) {
      AgreeOnRegister(s.(pc := t.pc), t, insn.b);
    }
  }

  lemma StackMatches(env: Env, insn: Insn, s: Core, t: Core)
    requires Loaded(env) && InBounds(env, s) && InBounds(env, t) && Encoded(insn) && Guarded(insn)
    requires insn.op.Push? || insn.op.Pop?
    requires Agree(s.(pc := t.pc), t) && !Unchecked(env, insn, s)
    ensures insn.op.Push? ==> Matches(env, insn, s, J.DispatchMemory(env, insn, s), t, I.ExecPush(env, insn, t))
    ensures insn.op.Pop? ==> Matches(env, insn, s, J.DispatchMemory(env, insn, s), t, I.ExecPop(env, insn, t))
  {
    var s0 := s.(pc := t.pc);
    assert s.memory == t.memory && s.memoryTags == t.memoryTags && s.sp == t.sp;
    if RegOk(insn.a) {
      if insn.op.Push? {
        AgreeOnRegister(s0, t, insn.a);
      } else if s.sp < s.stackBase {
        AgreeAfterPut(s0.(sp := s.sp + 1), t.(sp := t.sp + 1), insn.a, s.memory[s.sp], s.memoryTags[s.sp]);
      }
    }
  }

  lemma CountMatches(env: Env, insn: Insn, s: Core, t: Core)
    requires Guarded(insn)
    requires Agree(s.(pc := t.pc), t)
    requires insn.op.Inc? || insn.op.Dec?
    ensures Matches(env, insn, s, J.DispatchOne(insn, s), t, I.ExecIncrement(insn, t))
  {
    if RegOk(insn.a) {
      AgreeOnRegister(s.(pc := t.pc), t, insn.a);
      var e := J.DispatchOne(insn, s);
      AgreeAfterPut(s.(pc := t.pc), t, insn.a, e.core.regs[insn.a], IntTag);
    }
  }

  lemma SetFMatches(env: Env, insn: Insn, s: Core, t: Core)
    requires Guarded(insn)
    requires Agree(s.(pc := t.pc), t)
    requires insn.op.SetF?
    ensures Matches(env, insn, s, J.DispatchOne(insn, s), t, I.ExecSetF(insn, t))
  {
    if RegOk(insn.a) {
      AgreeAfterPut(s.(pc := t.pc), t, insn.a, I.FlagWord(t.flags), IntTag);
    }
  }

  lemma CmpMatches(env: Env, insn: Insn, s: Core, t: Core)
    requires Encoded(insn) && Guarded(insn)
    requires Agree(s.(pc := t.pc), t)
    requires insn.op.Cmp?
    ensures Matches(env, insn, s, J.DispatchCmp(insn, s), t, I.ExecCmp(env, insn, t))
  {
    if RegOk(insn.a) && RegOk(insn.b) {
      AgreeOnRegister(s.(pc := t.pc), t, insn.a);
      AgreeOnRegister(s.(pc := t.pc), t, insn.b);
    }
  }

  lemma BranchMatches(env: Env, insn: Insn, s: Core, t: Core)
    requires Encoded(insn) && Guarded(insn)
    requires Agree(s.(pc := t.pc), t)
    requires IsBranch(insn.op) && !Unchecked(env, insn, s)
    ensures Matches(env, insn, s, J.DispatchBranch(insn, s), t, I.ExecBranch(env, insn, t))
  {
    if ReadsB(insn.op) && RegOk(insn.b) {
      AgreeOnRegister(s.(pc := t.pc), t, insn.b);
    }
  }

  /** Every instruction a trace can hold, run by the two dispatches from states that
      agree: they go on to states that agree or leave the straight line together.  A
      failed guard means that the interpreter faults on that instruction too, except
      for a test of values that are not integers. */
  lemma InstructionMatches(env: Env, insn: Insn, s: Core, t: Core, executed: nat)
    requires Loaded(env) && Encoded(insn) && Guarded(insn)
    requires J.Recordable(insn.op) || IsBranch(insn.op)
    requires Agree(s.(pc := t.pc), t)
    requires !Unchecked(env, insn, s) && !ComparesApart(env, insn, s)
    requires InBounds(env, s) && InBounds(env, t)
    ensures Matches(env, insn, s, J.Dispatch(env, insn, s, executed), t, I.Exec(env, insn, t))
  {
    hide I.ExecCompare, I.ExecAlu, I.ExecUnary, I.ExecLoadImm, I.ExecLoad, I.ExecStore, I.ExecPush;
    hide I.ExecPop, I.ExecCmp, I.ExecSetF, I.ExecIncrement, I.ExecCall, I.ExecRet, I.ExecBranch;
    hide J.DispatchThree, J.DispatchTwo, J.DispatchOne, J.DispatchLoadImm, J.DispatchMemory;
    hide J.DispatchCmp, J.DispatchBranch, Matches, Unchecked, ComparesApart, Guarded, Observable;
    if IsComparison(insn.op) {
      CompareMatches(env, insn, s, t);
    } else if ThreeRegister(insn.op) {
      AluMatches(env, insn, s, t);
    } else if TwoRegister(insn.op) {
      TwoMatches(env, insn, s, t);
    } else if insn.op.LoadImm? {
      LoadImmMatches(env, insn, s, t);
    } else if insn.op.Load? || insn.op.Store? || insn.op.Push? || insn.op.Pop? {
      if insn.op.Load? {
        LoadMatches(env, insn, s, t);
      } else if insn.op.Store? {
        StoreMatches(env, insn, s, t);
      } else {
        StackMatches(env, insn, s, t);
      }
    } else if insn.op.Cmp? {
      CmpMatches(env, insn, s, t);
    } else if IsBranch(insn.op) {
      BranchMatches(env, insn, s, t);
    } else if insn.op.SetF? {
      SetFMatches(env, insn, s, t);
    } else {
      CountMatches(env, insn, s, t);
    }
  }

  /** The exception is exact: where a check is missing, the interpreter faults and the
      trace does not leave through a guard. */
  lemma UncheckedDiverges(env: Env, insn: Insn, s: Core, t: Core, executed: nat)
    requires Loaded(env) && Encoded(insn)
    requires Agree(s.(pc := t.pc), t)
    requires InBounds(env, s) && InBounds(env, t)
    requires Unchecked(env, insn, s) && Guarded(insn)
    ensures !I.Exec(env, insn, t).Next?
    ensures !J.Dispatch(env, insn, s, executed).Deopt?
  {
    if RegOk(insn.a) { AgreeOnRegister(s.(pc := t.pc), t, insn.a); }
    if RegOk(insn.b) { AgreeOnRegister(s.(pc := t.pc), t, insn.b); }
    if RegOk(insn.c) { AgreeOnRegister(s.(pc := t.pc), t, insn.c); }
  }

  /** A comparison of two values of one type that the interpreter cannot answer. */
  predicate Unanswered(env: Env, insn: Insn, s: Core) {
    && IsComparison(insn.op)
    && RegOk(insn.a) && RegOk(insn.b) && RegOk(insn.c)
    && s.tags[insn.b] == s.tags[insn.c]
    && I.CompareValue(env, s.tags[insn.b], s.regs[insn.b], s.regs[insn.c]).None?
  }

  lemma CompareMatchesIff(env: Env, insn: Insn, s: Core, t: Core)
    requires Encoded(insn) && Guarded(insn)
    requires Agree(s.(pc := t.pc), t)
    requires IsComparison(insn.op) && !Unchecked(env, insn, s)
    ensures Matches(env, insn, s, J.DispatchThree(insn, s), t, I.ExecCompare(env, insn, t)) <==>
            !ComparesApart(env, insn, s)
    ensures !I.ExecCompare(env, insn, t).Next? && !J.DispatchThree(insn, s).Deopt? <==> Unanswered(env, insn, s)
  {
    hide I.CompareValue, I.Relation, J.Holds;
    if RegOk(insn.a) && RegOk(insn.b) && RegOk(insn.c) {
      AgreeOnRegister(s.(pc := t.pc), t, insn.b);
      AgreeOnRegister(s.(pc := t.pc), t, insn.c);
      var e, r := J.DispatchThree(insn, s), I.ExecCompare(env, insn, t);
      if r.Next? && ComparesApart(env, insn, s) {
        assert e.core.regs[insn.a] != r.core.regs[insn.a];
        if Matches(env, insn, s, e, t, r) {
          AgreeOnRegister(J.AfterSwitch(insn, e.core).value.(pc := t.pc), r.core, insn.a);
        }
      }
    }
    if !ComparesApart(env, insn, s) {
      CompareMatches(env, insn, s, t);
    }
  }

  /** The exact condition on one instruction: the two dispatches match unless a check that
      the trace omits fails or a comparison is answered differently. */
  lemma MatchesIff(env: Env, insn: Insn, s: Core, t: Core, executed: nat)
    requires Loaded(env) && Encoded(insn) && Guarded(insn)
    requires J.Recordable(insn.op) || IsBranch(insn.op)
    requires Agree(s.(pc := t.pc), t)
    requires InBounds(env, s) && InBounds(env, t)
    ensures Matches(env, insn, s, J.Dispatch(env, insn, s, executed), t, I.Exec(env, insn, t))
            <==> !Unchecked(env, insn, s) && !ComparesApart(env, insn, s)
  {
    if Unchecked(env, insn, s) {
      MismatchOfUnchecked(env, insn, s, t, executed);
    } else if ComparesApart(env, insn, s) {
      CompareMatchesIff(env, insn, s, t);
      DispatchesComparison(env, insn, s, t, executed);
    } else {
      InstructionMatches(env, insn, s, t, executed);
    }
  }

  lemma DispatchesComparison(env: Env, insn: Insn, s: Core, t: Core, executed: nat)
    requires Loaded(env) && Encoded(insn) && InBounds(env, s) && InBounds(env, t)
    requires IsComparison(insn.op)
    ensures J.Dispatch(env, insn, s, executed) == J.DispatchThree(insn, s)
    ensures I.Exec(env, insn, t) == I.ExecCompare(env, insn, t)
  {
    hide J.DispatchThree, I.ExecCompare;
  }

  lemma MismatchOfUnchecked(env: Env, insn: Insn, s: Core, t: Core, executed: nat)
    requires Loaded(env) && Encoded(insn) && Guarded(insn)
    requires Agree(s.(pc := t.pc), t)
    requires InBounds(env, s) && InBounds(env, t)
    requires Unchecked(env, insn, s)
    ensures !Matches(env, insn, s, J.Dispatch(env, insn, s, executed), t, I.Exec(env, insn, t))
  {
    hide I.Exec, J.Dispatch, Unchecked, Guarded;
    UncheckedDiverges(env, insn, s, t, executed);
  }

  /** On one instruction, the interpreter faults where the trace runs on exactly when
      one of the checks the trace omits fails or values are compared that have no order. */
  lemma DivergesIffUnchecked(env: Env, insn: Insn, s: Core, t: Core, executed: nat)
    requires Loaded(env) && Encoded(insn) && Guarded(insn)
    requires J.Recordable(insn.op) || IsBranch(insn.op)
    requires Agree(s.(pc := t.pc), t)
    requires InBounds(env, s) && InBounds(env, t)
    ensures !I.Exec(env, insn, t).Next? && !J.Dispatch(env, insn, s, executed).Deopt?
            <==> Unchecked(env, insn, s) || Unanswered(env, insn, s)
  {
    hide I.Exec, J.Dispatch, Unchecked, Guarded, ComparesApart, I.CompareValue, I.ExecCompare, J.DispatchThree;
    if Unchecked(env, insn, s) {
      UncheckedDiverges(env, insn, s, t, executed);
    } else if IsComparison(insn.op) {
      CompareMatchesIff(env, insn, s, t);
      DispatchesComparison(env, insn, s, t, executed);
    } else {
      NoComparison(env, insn, s);
      InstructionMatches(env, insn, s, t, executed);
    }
  }

  lemma NoComparison(env: Env, insn: Insn, s: Core)
    requires !IsComparison(insn.op)
    ensures !ComparesApart(env, insn, s)
  {
  }

  /** Every comparison of two values of this type is answered alike, whatever they are
      handles of. */
  ghost predicate ComparedAlike(t: Tag) {
    forall env: Env, op: Opcode, x: Word, y: Word :: IsComparison(op) ==> AnsweredAlike(env, op, t, x, y)
  }

  /** Exactly the types that the interpreter compares as words are compared alike. */
  lemma ComparedAlikeIffRaw(t: Tag, env: Env)
    ensures ComparedAlike(t) <==> I.ComparedRaw(t)
    ensures I.ComparedAsToken(t) ==> !AnsweredAlike(env, Equal, t, 0, 1)
  {
    if !I.ComparedRaw(t) {
      var unordered := env.(compareHandles := (_, _, _) => None);
      assert !AnsweredAlike(unordered, Equal, t, 0, 1);
    }
  }

  // ---------- one trace

  lemma StorePushCmpKeepRegisters(env: Env, insn: Insn, t: Core)
    requires Loaded(env) && Encoded(insn) && InBounds(env, t)
    requires insn.op.Store? || insn.op.Push? || insn.op.Cmp?
    ensures var r := I.Exec(env, insn, t);
            r.Next? ==> r.core.regs == t.regs && r.core.tags == t.tags
  {
  }

  /** The interpreter leaves the reserved registers alone on a guarded instruction. */
  lemma GuardedKeepsReserved(env: Env, insn: Insn, t: Core)
    requires Loaded(env) && Encoded(insn) && Guarded(insn) && InBounds(env, t)
    requires J.Recordable(insn.op) || IsBranch(insn.op)
    requires I.Exec(env, insn, t).Next?
    ensures var t1 := I.Exec(env, insn, t).core;
            && t1.halted == t.halted && t1.callDepth == t.callDepth
            && forall q :: RegOk(q) && Reserved(q) ==> t1.regs[q] == t.regs[q] && t1.tags[q] == t.tags[q]
  {
    hide I.ExecCompare, I.ExecAlu, I.ExecUnary, I.ExecLoadImm, I.ExecLoad, I.ExecStore, I.ExecPush;
    hide I.ExecPop, I.ExecCmp, I.ExecSetF, I.ExecIncrement, I.ExecBranch;
    if insn.op.Store? || insn.op.Push? || insn.op.Cmp? {
      StorePushCmpKeepRegisters(env, insn, t);
    }
  }

  lemma GuardedKeepsSynced(env: Env, insn: Insn, t: Core)
    requires Loaded(env) && Encoded(insn) && Guarded(insn) && InBounds(env, t)
    requires J.Recordable(insn.op) || IsBranch(insn.op)
    requires Synced(env, t) && I.Exec(env, insn, t).Next?
    ensures Synced(env, I.Exec(env, insn, t).core)
    ensures I.Exec(env, insn, t).core.halted == t.halted
  {
    hide I.Exec, Wrap;
    GuardedKeepsReserved(env, insn, t);
  }

  /** A trace holds the instructions of the program from its entry on. */
  predicate Slice(env: Env, start: nat, trace: seq<Insn>) {
    start + |trace| <= |env.program| && env.program[start..start + |trace|] == trace
  }

  predicate Traceable(trace: seq<Insn>) {
    forall i :: 0 <= i < |trace| ==> Guarded(trace[i]) && (J.Recordable(trace[i].op) || IsBranch(trace[i].op))
  }

  /** Along this execution every comparison is answered as the interpreter answers it. */
  predicate ComparesAlike(env: Env, hook: J.Hook, trace: seq<Insn>, s: Core, k: nat)
    requires Loaded(env) && InBounds(env, s)
    requires k <= |trace| && forall i :: 0 <= i < |trace| ==> Encoded(trace[i])
    decreases |trace| - k
  {
    if k == |trace| || !hook(s.pc + k, trace[k], k) then true
    else
      && !ComparesApart(env, trace[k], s)
      && var effect := J.Dispatch(env, trace[k], s, k + 1);
         var after := J.AfterSwitch(trace[k], effect.core);
         if effect.Done? && after.Some? then
           J.DispatchKeepsBounds(env, trace[k], s, k + 1);
           ComparesAlike(env, hook, trace, after.value, k + 1)
         else true
  }

  /** What executing a trace of `length` instructions from instruction `k` on owes the
      interpreter, which is in state `t` there.  Each line is void when the interpreter
      faults on the way. */
  ghost predicate Refines(env: Env, entry: nat, k: nat, length: nat, result: J.TraceResult, t: Core)
    requires Loaded(env) && InBounds(env, t) && k <= length
  {
    match result
    case Undefined => !I.Run(env, t, length - k).Next?
    case Ended(s', executed, exit) =>
      && k <= executed <= length
      && match exit
         case Completed =>
           var r := I.Run(env, t, executed - k);
           r.Next? ==> Agree(s', r.core)
         case Branch =>
           var r := I.Run(env, t, executed - k);
           r.Next? ==> Agree(s', r.core)
         case PolicyDeny =>
           var r := I.Run(env, t, executed - k);
           s'.pc == entry && (r.Next? ==> r.core.pc == entry + executed && Agree(s'.(pc := r.core.pc), r.core))
         case GuardDeopt =>
           && executed > k
           && s'.pc == entry + executed - 1
           && var r := I.Run(env, t, executed - k - 1);
              r.Next? ==>
                && InBounds(env, r.core)
                && Agree(s'.(flags := r.core.flags), r.core)
                && (I.Step(env, r.core).Next? ==> Agree(s', r.core))
  }

  /** How far an execution that starts at instruction `k` gets, and where it leaves
      the program counter. */
  lemma {:induction false} ExecuteShape(env: Env, hook: J.Hook, trace: seq<Insn>, s: Core, k: nat)
    requires Loaded(env) && InBounds(env, s)
    requires k <= |trace| && forall i :: 0 <= i < |trace| ==> Encoded(trace[i])
    ensures var r := J.Execute(env, hook, trace, s, k);
            r.Ended? ==>
              && k <= r.executed <= |trace|
              && (r.exit.GuardDeopt? ==> k < r.executed && r.core.pc == s.pc + r.executed - 1)
              && (r.exit.PolicyDeny? ==> r.core.pc == s.pc)
              && (r.exit.Completed? ==> r.executed == |trace|)
              && (r.exit.Branch? ==> k < r.executed)
    decreases |trace| - k
  {
    hide J.Dispatch;
    if k < |trace| && hook(s.pc + k, trace[k], k) {
      var effect := J.Dispatch(env, trace[k], s, k + 1);
      var after := J.AfterSwitch(trace[k], effect.core);
      J.DispatchKeepsBounds(env, trace[k], s, k + 1);
      if effect.Done? && after.Some? {
        ExecuteShape(env, hook, trace, after.value, k + 1);
      }
    }
  }

  lemma {:induction false} ExecuteInBounds(env: Env, hook: J.Hook, trace: seq<Insn>, s: Core, k: nat)
    requires Loaded(env) && InBounds(env, s)
    requires k <= |trace| && forall i :: 0 <= i < |trace| ==> Encoded(trace[i])
    ensures var r := J.Execute(env, hook, trace, s, k); r.Ended? ==> InBounds(env, r.core)
    decreases |trace| - k
  {
    hide J.Dispatch, J.AfterSwitch;
    if k < |trace| && hook(s.pc + k, trace[k], k) {
      var effect := J.Dispatch(env, trace[k], s, k + 1);
      var after := J.AfterSwitch(trace[k], effect.core);
      J.DispatchKeepsBounds(env, trace[k], s, k + 1);
      AfterSwitchKeepsBounds(env, trace[k], effect.core);
      if effect.Done? && after.Some? {
        ExecuteInBounds(env, hook, trace, after.value, k + 1);
      }
    }
  }

  /** One instruction of a trace against one step of the interpreter. */
  ghost predicate StepAgrees(env: Env, insn: Insn, s: Core, effect: J.Effect, t: Core, r: I.Outcome)
    requires Loaded(env)
  {
    match effect
    case Done(s1) =>
      && r.Next?
      && InBounds(env, r.core) && r.core.pc == t.pc + 1 && !r.core.halted && Synced(env, r.core)
      && J.AfterSwitch(insn, s1).Some?
      && Agree(J.AfterSwitch(insn, s1).value.(pc := t.pc + 1), r.core)
    case Jumped(s1) => r.Next? && J.AfterSwitch(insn, s1) == Some(s1) && Agree(s1, r.core)
    case Deopt(s1) => s1 == s && (r.Next? ==> J.AfterSwitch(insn, s1) == Some(s))
  }

  lemma StepMatches(env: Env, insn: Insn, s: Core, t: Core, executed: nat)
    requires Loaded(env) && InBounds(env, s) && InBounds(env, t)
    requires t.pc < |env.program| && env.program[t.pc] == insn && Guarded(insn)
    requires J.Recordable(insn.op) || IsBranch(insn.op)
    requires !t.halted && Synced(env, t) && Agree(s.(pc := t.pc), t)
    requires !Unchecked(env, insn, s) && !ComparesApart(env, insn, s)
    ensures StepAgrees(env, insn, s, J.Dispatch(env, insn, s, executed), t, I.Step(env, t))
  {
    hide I.Exec, J.Dispatch, Unchecked, Guarded, ComparesApart, Sync;
    var f := I.Fetch(t);
    AgreeAfterFetch(s, t);
    InstructionMatches(env, insn, s, f, executed);
    I.StepKeepsBounds(env, t);
    var r := I.Exec(env, insn, f);
    if r.Next? {
      GuardedKeepsSynced(env, insn, f);
      SyncShowsNothing(env, r.core);
      SyncSyncs(env, r.core);
      assert Sync(env, r.core).pc == r.core.pc && Sync(env, r.core).halted == r.core.halted;
    }
  }

  lemma AfterSwitchKeepsBounds(env: Env, insn: Insn, s: Core)
    requires InBounds(env, s)
    ensures var a := J.AfterSwitch(insn, s); a.Some? ==> InBounds(env, a.value) && a.value.pc == s.pc
  {
  }

  /** The flags are all that a failed guard can disturb. */
  lemma AfterSwitchOfDeopt(insn: Insn, s: Core)
    ensures var a := J.AfterSwitch(insn, s); a.Some? ==> a.value == s.(flags := a.value.flags)
  {
  }

  lemma RefinesLater(env: Env, entry: nat, k: nat, length: nat, result: J.TraceResult, t: Core)
    requires Loaded(env) && InBounds(env, t) && k < length
    requires I.Step(env, t).Next? && InBounds(env, I.Step(env, t).core)
    requires Refines(env, entry, k + 1, length, result, I.Step(env, t).core)
    ensures Refines(env, entry, k, length, result, t)
  {
    hide I.Step, InBounds, Observable;
    var t1 := I.Step(env, t).core;
    if result.Undefined? {
      assert I.Run(env, t, length - k) == I.Run(env, t1, length - (k + 1));
    } else if result.exit.GuardDeopt? {
      assert I.Run(env, t, result.executed - k - 1) == I.Run(env, t1, result.executed - k - 2);
    } else {
      assert I.Run(env, t, result.executed - k) == I.Run(env, t1, result.executed - k - 1);
    }
  }

  lemma FaultStops(env: Env, t: Core)
    requires Loaded(env) && InBounds(env, t) && !t.halted && t.pc < |env.program|
    requires !I.Exec(env, env.program[t.pc], I.Fetch(t)).Next?
    ensures !I.Step(env, t).Next?
  {
    hide I.Exec;
  }

  /** If the interpreter faults where the trace goes on, nothing more is owed. */
  lemma SuffixFaults(env: Env, hook: J.Hook, trace: seq<Insn>, s: Core, k: nat, t: Core)
    requires Loaded(env) && InBounds(env, s) && InBounds(env, t)
    requires k < |trace| && hook(s.pc + k, trace[k], k)
    requires forall i :: 0 <= i < |trace| ==> Encoded(trace[i])
    requires !J.Dispatch(env, trace[k], s, k + 1).Deopt? && !I.Step(env, t).Next?
    ensures Refines(env, s.pc, k, |trace|, J.Execute(env, hook, trace, s, k), t)
  {
    hide I.Step, J.Dispatch, J.AfterSwitch, Observable;
    assert !I.Run(env, t, 1).Next?;
    var effect := J.Dispatch(env, trace[k], s, k + 1);
    var after := J.AfterSwitch(trace[k], effect.core);
    J.DispatchKeepsBounds(env, trace[k], s, k + 1);
    AfterSwitchKeepsBounds(env, trace[k], effect.core);
    if effect.Done? && after.Some? {
      ExecuteShape(env, hook, trace, after.value, k + 1);
    }
    FaultOwesNothing(env, s.pc, k, |trace|, J.Execute(env, hook, trace, s, k), t);
  }

  lemma FaultOwesNothing(env: Env, entry: nat, k: nat, length: nat, r: J.TraceResult, t: Core)
    requires Loaded(env) && InBounds(env, t) && !I.Step(env, t).Next? && k < length
    requires r.Ended? ==>
      && k < r.executed <= length
      && (r.exit.GuardDeopt? ==> k + 1 < r.executed && r.core.pc == entry + r.executed - 1)
      && (r.exit.PolicyDeny? ==> r.core.pc == entry)
    ensures Refines(env, entry, k, length, r, t)
  {
    hide I.Step, InBounds, Observable;
    assert !I.Run(env, t, 1).Next?;
    assert forall n: nat :: n > 0 ==> !I.Run(env, t, n).Next?;
  }

  lemma InSlice(env: Env, start: nat, trace: seq<Insn>, k: nat)
    requires Slice(env, start, trace) && k < |trace|
    ensures start + k < |env.program| && env.program[start + k] == trace[k]
  {
    assert env.program[start..start + |trace|][k] == trace[k];
  }

  lemma {:induction false} SuffixRefines(env: Env, hook: J.Hook, trace: seq<Insn>, s: Core, k: nat, t: Core)
    requires Loaded(env) && InBounds(env, s) && InBounds(env, t)
    requires k <= |trace| && Slice(env, s.pc, trace) && Traceable(trace)
    requires t.pc == s.pc + k && !t.halted && Synced(env, t)
    requires Agree(s.(pc := t.pc), t)
    requires forall i :: 0 <= i < |trace| ==> Encoded(trace[i])
    requires ComparesAlike(env, hook, trace, s, k)
    ensures Refines(env, s.pc, k, |trace|, J.Execute(env, hook, trace, s, k), t)
    decreases |trace| - k
  {
    hide I.Step, J.Dispatch, Unchecked, Guarded, ComparesApart, Sync, Synced, J.AfterSwitch, Slice;
    if k < |trace| && hook(s.pc + k, trace[k], k) {
      var insn := trace[k];
      InSlice(env, s.pc, trace, k);
      var effect := J.Dispatch(env, insn, s, k + 1);
      var r := I.Step(env, t);
      assert I.Run(env, t, 1) == r;
      if Unchecked(env, insn, s) {
        AgreeAfterFetch(s, t);
        UncheckedDiverges(env, insn, s, I.Fetch(t), k + 1);
        FaultStops(env, t);
        SuffixFaults(env, hook, trace, s, k, t);
      } else {
        StepMatches(env, insn, s, t, k + 1);
        if effect.Done? {
          var s1 := J.AfterSwitch(insn, effect.core).value;
          J.DispatchKeepsBounds(env, insn, s, k + 1);
          AfterSwitchKeepsBounds(env, insn, effect.core);
          SuffixRefines(env, hook, trace, s1, k + 1, r.core);
          RefinesLater(env, s.pc, k, |trace|, J.Execute(env, hook, trace, s1, k + 1), t);
        } else {
          AfterSwitchOfDeopt(insn, s);
        }
      }
    }
  }

  lemma {:induction false} NeverDenied(env: Env, hook: J.Hook, trace: seq<Insn>, s: Core, k: nat)
    requires Loaded(env) && InBounds(env, s)
    requires k <= |trace| && forall i :: 0 <= i < |trace| ==> Encoded(trace[i])
    requires forall pc: nat, insn, executed: nat :: hook(pc, insn, executed)
    ensures var r := J.Execute(env, hook, trace, s, k); r.Ended? ==> !r.exit.PolicyDeny?
    decreases |trace| - k
  {
    hide J.Dispatch, J.AfterSwitch;
    if k < |trace| {
      var effect := J.Dispatch(env, trace[k], s, k + 1);
      var after := J.AfterSwitch(trace[k], effect.core);
      J.DispatchKeepsBounds(env, trace[k], s, k + 1);
      AfterSwitchKeepsBounds(env, trace[k], effect.core);
      if effect.Done? && after.Some? {
        NeverDenied(env, hook, trace, after.value, k + 1);
      }
    }
  }

  /** Executing a trace is running the interpreter over the same instructions. */
  lemma TraceRefines(env: Env, hook: J.Hook, trace: seq<Insn>, s: Core)
    requires Loaded(env) && InBounds(env, s) && !s.halted && Synced(env, s)
    requires Slice(env, s.pc, trace) && Traceable(trace)
    requires forall i :: 0 <= i < |trace| ==> Encoded(trace[i])
    requires ComparesAlike(env, hook, trace, s, 0)
    ensures Refines(env, s.pc, 0, |trace|, J.Execute(env, hook, trace, s, 0), s)
  {
    SuffixRefines(env, hook, trace, s, 0, s);
  }

  /** What a trace that ran on the interpreter's instructions leaves behind, no fault being
      possible any more. */
  ghost predicate EndsWithInterpreter(env: Env, s: Core, r: J.TraceResult)
    requires Loaded(env) && InBounds(env, s)
  {
    && r.Ended?
    && (r.exit.GuardDeopt? ==> r.executed > 0)
    && var t := I.Run(env, s, if r.exit.GuardDeopt? then r.executed - 1 else r.executed);
       t.Next? && Agree(if r.exit.PolicyDeny? then r.core.(pc := t.core.pc) else r.core, t.core)
  }

  lemma {:induction false} PrefixRuns(env: Env, s: Core, m: nat, n: nat)
    requires Loaded(env) && InBounds(env, s) && m <= n && I.Run(env, s, n).Next?
    ensures I.Run(env, s, m).Next?
    decreases m
  {
    hide I.Step, InBounds;
    if m > 0 {
      I.StepKeepsBounds(env, s);
      PrefixRuns(env, I.Step(env, s).core, m - 1, n - 1);
    }
  }

  lemma LastStepRuns(env: Env, s: Core, n: nat)
    requires Loaded(env) && InBounds(env, s) && I.Run(env, s, n + 1).Next?
    ensures I.Run(env, s, n).Next? && InBounds(env, I.Run(env, s, n).core)
    ensures I.Step(env, I.Run(env, s, n).core).Next?
  {
    hide I.Step, InBounds;
    PrefixRuns(env, s, n, n + 1);
    I.RunCompose(env, s, n, 1);
    var t := I.Run(env, s, n).core;
    assert I.Run(env, t, 1) == I.Step(env, t);
  }

  lemma RefinedEnds(env: Env, s: Core, length: nat, r: J.TraceResult)
    requires Loaded(env) && InBounds(env, s) && Refines(env, s.pc, 0, length, r, s)
    requires I.Run(env, s, length).Next?
    ensures EndsWithInterpreter(env, s, r)
  {
    hide I.Step, InBounds, Observable, I.Run;
    if r.Ended? {
      PrefixRuns(env, s, r.executed, length);
      if r.exit.GuardDeopt? {
        LastStepRuns(env, s, r.executed - 1);
      }
    }
  }

  /** From every state from which the interpreter runs the instructions of a trace without a
      fault, the trace ends, and ends in the interpreter's state. */
  lemma TraceEndsWithInterpreter(env: Env, hook: J.Hook, trace: seq<Insn>, s: Core)
    requires Loaded(env) && InBounds(env, s) && !s.halted && Synced(env, s)
    requires Slice(env, s.pc, trace) && Traceable(trace)
    requires forall i :: 0 <= i < |trace| ==> Encoded(trace[i])
    requires ComparesAlike(env, hook, trace, s, 0)
    requires I.Run(env, s, |trace|).Next?
    ensures EndsWithInterpreter(env, s, J.Execute(env, hook, trace, s, 0))
  {
    hide I.Run, J.Execute, Synced, InBounds, Traceable, Slice, ComparesAlike, Refines, EndsWithInterpreter;
    TraceRefines(env, hook, trace, s);
    RefinedEnds(env, s, |trace|, J.Execute(env, hook, trace, s, 0));
  }

  // ---------- traces that read outside the register file

  /** The trace runs through its first `j` instructions and dispatches the next one, after
      which it sets the flags from a register that does not exist. */
  ghost predicate ReadsOutside(env: Env, hook: J.Hook, trace: seq<Insn>, s: Core, k: nat, j: nat)
    requires Loaded(env) && InBounds(env, s)
    requires k <= j < |trace| && forall i :: 0 <= i < |trace| ==> Encoded(trace[i])
  {
    var before := J.Execute(env, hook, trace[..j], s, k);
    && before.Ended? && before.exit.Completed?
    && hook(s.pc + j, trace[j], j)
    && !J.KeepsFlags(trace[j].op) && !RegOk(trace[j].a)
  }

  lemma ReadsOutsideUnfolds(env: Env, hook: J.Hook, trace: seq<Insn>, s: Core, k: nat, j: nat)
    requires Loaded(env) && InBounds(env, s)
    requires k < j < |trace| && forall i :: 0 <= i < |trace| ==> Encoded(trace[i])
    ensures var effect := J.Dispatch(env, trace[k], s, k + 1);
            var after := J.AfterSwitch(trace[k], effect.core);
            && (after.Some? ==> InBounds(env, after.value))
            && (ReadsOutside(env, hook, trace, s, k, j) <==>
                 hook(s.pc + k, trace[k], k) && effect.Done? && after.Some? &&
                 ReadsOutside(env, hook, trace, after.value, k + 1, j))
  {
    hide J.Dispatch, J.AfterSwitch;
    assert trace[..j][k] == trace[k];
    var effect := J.Dispatch(env, trace[k], s, k + 1);
    J.DispatchKeepsBounds(env, trace[k], s, k + 1);
    AfterSwitchKeepsBounds(env, trace[k], effect.core);
  }

  lemma ReadsOutsideHere(env: Env, hook: J.Hook, trace: seq<Insn>, s: Core, k: nat)
    requires Loaded(env) && InBounds(env, s)
    requires k < |trace| && forall i :: 0 <= i < |trace| ==> Encoded(trace[i])
    ensures ReadsOutside(env, hook, trace, s, k, k) <==>
              hook(s.pc + k, trace[k], k) && J.AfterSwitch(trace[k], J.Dispatch(env, trace[k], s, k + 1).core).None?
  {
    hide J.Dispatch;
  }

  /** A trace is undefined exactly when it reaches such an instruction. */
  lemma {:induction false} UndefinedIff(env: Env, hook: J.Hook, trace: seq<Insn>, s: Core, k: nat)
    requires Loaded(env) && InBounds(env, s)
    requires k <= |trace| && forall i :: 0 <= i < |trace| ==> Encoded(trace[i])
    ensures J.Execute(env, hook, trace, s, k).Undefined? <==>
              exists j :: k <= j < |trace| && ReadsOutside(env, hook, trace, s, k, j)
    decreases |trace| - k
  {
    hide J.Dispatch, J.AfterSwitch, ReadsOutside;
    if k < |trace| {
      ReadsOutsideHere(env, hook, trace, s, k);
      var effect := J.Dispatch(env, trace[k], s, k + 1);
      var after := J.AfterSwitch(trace[k], effect.core);
      J.DispatchKeepsBounds(env, trace[k], s, k + 1);
      AfterSwitchKeepsBounds(env, trace[k], effect.core);
      forall j | k < j < |trace|
        ensures ReadsOutside(env, hook, trace, s, k, j) <==>
                  hook(s.pc + k, trace[k], k) && effect.Done? && after.Some? &&
                  ReadsOutside(env, hook, trace, after.value, k + 1, j)
      {
        ReadsOutsideUnfolds(env, hook, trace, s, k, j);
      }
      if hook(s.pc + k, trace[k], k) && after.Some? && effect.Done? {
        UndefinedIff(env, hook, trace, after.value, k + 1);
        if J.Execute(env, hook, trace, s, k).Undefined? {
          var j :| k + 1 <= j < |trace| && ReadsOutside(env, hook, trace, after.value, k + 1, j);
          assert ReadsOutside(env, hook, trace, s, k, j);
        }
      }
    }
  }
}
