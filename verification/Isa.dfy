/** The instruction set the trace compiler and the interpreter share: the integer
    fragment with its control flow. */
module Isa {
  import opened Word

  datatype Opcode =
    | Nop | Halt | Trap
    | Add | Sub | Mul | Div | Mod | Inc | Dec | Mov | Neg
    | TNot | TAnd | TOr | TXor
    | LoadImm | Load | Store | Push | Pop
    | Less | LessEqual | Greater | GreaterEqual | Equal | NotEqual
    | Cmp | SetF
    | BitAnd | BitOr | BitXor | BitNot | BitShl | BitShr | BitUShr
    | Jump | JumpIfZero | JumpIfNotZero | JumpIfNegative | JumpIfPositive
    | Call | Ret

  datatype LiteralKind =
    | IntLiteral | BoolLiteral | FloatLiteral | FractionLiteral
    | SymbolLiteral | TensorLiteral | ShapeLiteral

  datatype Insn = Insn(op: Opcode, a: Int32, b: Word, c: Int32, literal: LiteralKind)

  datatype Tag =
    | IntTag | BoolTag | FloatHandle | FractionHandle | SymbolHandle | WeightsTensorHandle
    | TensorHandle | ShapeHandle | OptionHandle | ResultHandle | EnumHandle | ComplexHandle
    | ReflectionHandle | ProofHandle | IoStreamHandle | IoNetHandle | AsyncThreadHandle
    | AsyncPromiseHandle | StringVectorHandle | SymbolicGraphHandle | Tier2FrameHandle
    | InfiniteHandle

  predicate IsComparison(op: Opcode) {
    (op.Less? || op.LessEqual? || op.Greater? || op.GreaterEqual? || op.Equal? || op.NotEqual?)
  }

  predicate IsBranch(op: Opcode) {
    (op.Jump? || op.JumpIfZero? || op.JumpIfNotZero? || op.JumpIfNegative? || op.JumpIfPositive?)
  }

  /** Opcodes that compute register `a` from registers `b` and `c`. */
  predicate ThreeRegister(op: Opcode) {
    || (op.Add? || op.Sub? || op.Mul? || op.Div? || op.Mod? || op.TAnd? || op.TOr? || op.TXor?)
    || (op.BitAnd? || op.BitOr? || op.BitXor? || op.BitShl? || op.BitShr? || op.BitUShr?)
    || IsComparison(op)
  }

  /** Opcodes that compute register `a` from register `b`. */
  predicate TwoRegister(op: Opcode) {
    (op.Mov? || op.Neg? || op.TNot? || op.BitNot?)
  }

  /** Opcodes whose operand `b` names a register. */
  predicate ReadsB(op: Opcode) {
    ThreeRegister(op) || TwoRegister(op) || (op.Store? || op.Cmp? || op.JumpIfZero? || op.JumpIfNotZero? || op.Call?)
  }

  /** Opcodes that write register `a`. */
  predicate WritesA(op: Opcode) {
    ThreeRegister(op) || TwoRegister(op) || (op.Inc? || op.Dec? || op.LoadImm? || op.Load? || op.Pop? || op.SetF?)
  }

  /** Opcodes that read register `a`. */
  predicate ReadsA(op: Opcode) {
    (op.Inc? || op.Dec? || op.Push? || op.Cmp?)
  }
}
