/** What the intermediate code means, operation by operation, on the state of the machine:
    said of its own operations, relations and operands, before any of them is mapped to an
    opcode. */
module IrMeaning {
  import opened Word
  import opened Isa
  import opened Wrappers
  import opened VmState
  import opened Interpreter
  import A = Assembler

  /** Operand `k`; zero where there is none. */
  function Operand(ir: A.Ir, p: nat, k: nat): Word
    requires p < |ir| && ir[p].Instruction?
  {
    if k < |ir[p].operands| then A.Resolved(ir, ir[p].operands[k]) else 0
  }

  /** The first operand, and the third, which takes no label: both fit an `int`. */
  function First(ir: A.Ir, p: nat): Int32
    requires p < |ir| && ir[p].Instruction?
  {
    Narrow(Operand(ir, p, 0))
  }

  function Third(ir: A.Ir, p: nat): Int32
    requires p < |ir| && ir[p].Instruction?
  {
    if |ir[p].operands| > 2 && ir[p].operands[2].Label? then 0 else Narrow(Operand(ir, p, 2))
  }

  /** The second operand, or where the text of the instruction stands in its pool. */
  function Second(ir: A.Ir, p: nat): Word
    requires p < |ir| && ir[p].Instruction?
  {
    if A.IsSymbol(ir[p]) then A.IndexOf(A.Symbols(ir, |ir|), ir[p].text.value)
    else if A.IsFloat(ir[p]) then A.FloatsBefore(ir, p) + 1
    else Operand(ir, p, 1)
  }

  predicate OnIntegers(kind: A.PrimitiveKind) {
    !kind.FloatKind? && !kind.FractionKind?
  }

  /** The sign of what was computed. */
  function Sign(v: int): Flags {
    Flags(zero := v == 0, negative := v < 0, positive := v > 0)
  }

  function Written(s: Core, r: int, v: Word): Outcome
    requires RegOk(r)
  {
    Next(s.(regs := s.regs[r := v], tags := s.tags[r := IntTag], flags := Sign(v)))
  }

  predicate Binary(op: A.IrOp) {
    || op.ADD? || op.FADD? || op.FRACADD? || op.SUB? || op.FSUB? || op.FRACSUB?
    || op.MUL? || op.FMUL? || op.FRACMUL? || op.DIV? || op.FDIV? || op.FRACDIV? || op.MOD?
    || op.BITAND? || op.BITOR? || op.BITXOR? || op.BITSHL? || op.BITSHR? || op.BITUSHR?
  }

  /** The integer that a binary operation makes of two; none where it divides by zero. */
  function Combine(op: A.IrOp, x: int, y: int): Option<int>
    requires Binary(op) && -TWO_63 <= x < TWO_63 && -TWO_63 <= y < TWO_63
  {
    match op
    case ADD | FADD | FRACADD => Some(x + y)
    case SUB | FSUB | FRACSUB => Some(x - y)
    case MUL | FMUL | FRACMUL => Some(x * y)
    case DIV | FDIV | FRACDIV => if y == 0 then None else Some(TruncDiv(x, y))
    case MOD => if y == 0 then None else Some(TruncMod(x, y))
    case BITAND => Some(Bitwise(And, x, y))
    case BITOR => Some(Bitwise(Or, x, y))
    case BITXOR => Some(Bitwise(Xor, x, y))
    case BITSHL => Some(Shift(Left, x, y))
    case BITSHR => Some(Shift(Arithmetic, x, y))
    case _ => Some(Shift(Logical, x, y))
  }

  /** `r0 := r1 op r2`. */
  function RunBinary(op: A.IrOp, r0: int, r1: int, r2: int, s: Core): Outcome
    requires Binary(op)
  {
    if !RegOk(r0) || !RegOk(r1) || !RegOk(r2) then Fault(s, DecodeFault)
    else match Combine(op, s.regs[r1], s.regs[r2])
      case None => Fault(s, DivisionFault)
      case Some(v) => Written(s, r0, Wrap(v))
  }

  /** `r0 := op r1`. */
  function RunUnary(op: A.IrOp, r0: int, r1: int, s: Core): Outcome
    requires op.NEG? || op.BITNOT? || op.MOV?
  {
    if !RegOk(r0) || !RegOk(r1) then Fault(s, DecodeFault)
    else
      var x: int := s.regs[r1];
      if op.NEG? then Written(s, r0, Wrap(-x))
      else if op.BITNOT? then Written(s, r0, Wrap(-1 - x))
      else if Reserved(r0) then Next(s.(flags := Sign(s.regs[r0])))
      else Next(s.(regs := s.regs[r0 := s.regs[r1]], tags := s.tags[r0 := s.tags[r1]], flags := Sign(s.regs[r1])))
  }

  predicate Answer(relation: A.Relation, order: int) {
    match relation
    case IsLess => order < 0
    case IsLessEqual => order < 0 || order == 0
    case IsGreater => order > 0
    case IsGreaterEqual => order > 0 || order == 0
    case IsEqual => order == 0
    case IsNotEqual => order != 0
    case NoRelation => false
  }

  /** A comparison with an answer puts one or zero into `r0`; one without leaves the order of
      `r0` and `r1` in the flags. */
  function RunCompare(env: Env, i: A.Instruction, r0: int, r1: int, r2: int, s: Core): Outcome
    requires i.Instruction?
  {
    if i.booleanResult && i.relation != A.NoRelation then
      if !RegOk(r0) || !RegOk(r1) || !RegOk(r2) then Fault(s, DecodeFault)
      else if s.tags[r1] != s.tags[r2] then Fault(s, TypeFault)
      else match CompareValue(env, s.tags[r1], s.regs[r1], s.regs[r2])
        case None => Fault(s, DecodeFault)
        case Some(order) => Written(s, r0, if Answer(i.relation, order) then 1 else 0)
    else
      if !RegOk(r0) || !RegOk(r1) then Fault(s, DecodeFault)
      else if s.tags[r0] != s.tags[r1] then Fault(s, TypeFault)
      else match CompareValue(env, s.tags[r0], s.regs[r0], s.regs[r1])
        case None => Fault(s, DecodeFault)
        case Some(order) => Next(s.(flags := Sign(order)))
  }

  predicate IsJump(op: A.IrOp) {
    op.JMP? || op.JZ? || op.JNZ? || op.JN? || op.JP?
  }

  /** Jumps that test a register. */
  predicate TestsRegister(op: A.IrOp) {
    op.JZ? || op.JNZ?
  }

  /** When a jump is taken: by the register it tests, or by the sign last computed. */
  predicate Taken(op: A.IrOp, tested: int, flags: Flags)
    requires IsJump(op)
  {
    match op
    case JMP => true
    case JZ => tested == 0
    case JNZ => tested != 0
    case JN => flags.negative
    case _ => flags.positive
  }

  /** A jump to an address. */
  function RunJump(env: Env, op: A.IrOp, address: int, r1: int, s: Core): Outcome
    requires IsJump(op)
  {
    if TestsRegister(op) && !RegOk(r1) then Fault(s, DecodeFault)
    else if !Taken(op, if TestsRegister(op) then s.regs[r1] else 0, s.flags) then Next(s)
    else if 0 <= address <= |env.program| then Next(s.(pc := address))
    else Fault(s, DecodeFault)
  }

  /** Operations that have no other kind of operands. */
  predicate OnlyIntegers(op: A.IrOp) {
    op.MOD? || op.BITAND? || op.BITOR? || op.BITXOR? || op.BITSHL? || op.BITSHR? || op.BITUSHR?
  }

  /** An instruction of the integer fragment. */
  predicate Integral(i: A.Instruction)
    requires i.Instruction?
  {
    !i.op.OTHER? && (Binary(i.op) ==> OnlyIntegers(i.op) || OnIntegers(i.primitive))
  }

  /** One whose second operand names a register. */
  predicate UsesSecond(i: A.Instruction)
    requires i.Instruction?
  {
    || Binary(i.op) || TestsRegister(i.op)
    || i.op.NEG? || i.op.BITNOT? || i.op.MOV? || i.op.CMP? || i.op.STORE? || i.op.CALL?
  }

  /** The meaning of one instruction.  Memory, stack, calls and literals are those of the
      machine; operations outside the integer fragment have none here. */
  function Meaning(env: Env, ir: A.Ir, p: nat, s: Core): Outcome
    requires Loaded(env) && InBounds(env, s) && p < |ir| && ir[p].Instruction?
    requires UsesSecond(ir[p]) ==> -TWO_31 <= Second(ir, p) < TWO_31
  {
    var i := ir[p];
    var a, b, c := First(ir, p), Second(ir, p), Third(ir, p);
    if !Integral(i) then Undefined
    else if Binary(i.op) then RunBinary(i.op, a, b, c, s)
    else match i.op
      case NEG | BITNOT | MOV => RunUnary(i.op, a, b, s)
      case CMP => RunCompare(env, i, a, b, c, s)
      case LOADI => ExecLoadImm(env, Insn(LoadImm, a, b, c, i.literal), s)
      case LOAD => ExecLoad(env, Insn(Load, a, b, c, i.literal), s)
      case STORE => ExecStore(env, Insn(Store, a, b, c, i.literal), s)
      case PUSH => ExecPush(env, Insn(Push, a, b, c, i.literal), s)
      case POP => ExecPop(env, Insn(Pop, a, b, c, i.literal), s)
      case JMP | JZ | JNZ | JN | JP => RunJump(env, i.op, a, b, s)
      case CALL => ExecCall(env, Insn(Call, a, b, c, i.literal), s)
      case RET => ExecRet(env, s)
      case NOP => Next(s)
      case HALT => Next(s.(halted := true))
      case TRAP => Fault(s, TrapInstruction)
      case _ => Undefined
  }
}
