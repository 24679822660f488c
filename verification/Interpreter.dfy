/** One step of the interpreter, opcode by opcode. */
module Interpreter {
  import opened Word
  import opened Isa
  import opened Wrappers
  import opened VmState

  datatype Fault =
    | DecodeFault | TypeFault | BoundsFault | StackFault | DivisionFault | SecurityFault | TierFault
    | TrapInstruction

  /** `Undefined` marks an access outside the memory vector. */
  datatype Outcome = Next(core: Core) | Fault(core: Core, fault: Fault) | Undefined

  /** The deepest call the highest tier admits, when every promotion is granted. */
  const RECURSION_LIMIT := 729

  /** No register but `a` changed. */
  ghost predicate OthersKept(a: int, s: Core, t: Core) {
    forall q :: RegOk(q) && q != a ==> t.regs[q] == s.regs[q] && t.tags[q] == s.tags[q]
  }

  /** Register `a` and the flags are all an instruction changed. */
  ghost predicate OnlyRegister(a: int, s: Core, r: Outcome) {
    r.Next? ==>
      && r.core == s.(regs := r.core.regs, tags := r.core.tags, flags := r.core.flags)
      && OthersKept(a, s, r.core)
  }

  /** The instruction fell through, inside its segments, and wrote at most register `a`. */
  ghost predicate Straight(env: Env, a: int, s: Core, r: Outcome) {
    r.Next? ==>
      && InBounds(env, r.core)
      && r.core == s.(regs := r.core.regs, tags := r.core.tags, flags := r.core.flags, sp := r.core.sp,
                      memory := r.core.memory, memoryTags := r.core.memoryTags)
      && OthersKept(a, s, r.core)
  }

  function SetReg(s: Core, r: int, v: Word, t: Tag): Core
    requires RegOk(r)
  {
    if Reserved(r) then s else Put(s, r, v, t)
  }

  function ClampTrit(v: int): (t: int)
    ensures -1 <= t <= 1
  {
    if v > 0 then 1 else if v < 0 then -1 else 0
  }

  function TritOp(op: Opcode, lhs: int, rhs: int): (t: int)
    requires -1 <= lhs <= 1 && -1 <= rhs <= 1
    ensures -1 <= t <= 1
  {
    match op
    case TAnd => if lhs < rhs then lhs else rhs
    case TOr => if lhs > rhs then lhs else rhs
    case _ =>
      var d := lhs - rhs;
      if d > 1 then -1 else if d < -1 then 1 else d
  }

  /** The result of a three-register arithmetic, ternary or bitwise opcode. */
  function Alu(op: Opcode, x: Word, y: Word): Option<Word> {
    match op
    case Add => Some(Wrap(x + y))
    case Sub => Some(Wrap(x - y))
    case Mul => Some(Wrap(x * y))
    case Div => if y == 0 then None else Some(Wrap(TruncDiv(x, y)))
    case Mod => if y == 0 then None else Some(Wrap(TruncMod(x, y)))
    case BitAnd => Some(Bitwise(And, x, y))
    case BitOr => Some(Bitwise(Or, x, y))
    case BitXor => Some(Bitwise(Xor, x, y))
    case BitShl => Some(Shift(Left, x, y))
    case BitShr => Some(Shift(Arithmetic, x, y))
    case BitUShr => Some(Shift(Logical, x, y))
    case _ => Some(TritOp(op, ClampTrit(x), ClampTrit(y)))
  }

  function ExecAlu(insn: Insn, s: Core): (r: Outcome)
    requires Encoded(insn) && ThreeRegister(insn.op)
    ensures OnlyRegister(insn.a, s, r)
  {
    if !RegOk(insn.a) || !RegOk(insn.b) || !RegOk(insn.c) then Fault(s, DecodeFault)
    else match Alu(insn.op, s.regs[insn.b], s.regs[insn.c])
      case None => Fault(s, DivisionFault)
      case Some(v) => Next(SetFlags(Put(s, insn.a, v, IntTag), v))
  }

  /** The result of a negation: arithmetic, ternary or bitwise. */
  function Unary(op: Opcode, x: Word): Word {
    if op == Neg then Wrap(0 - x)
    else if op == TNot then -ClampTrit(x)
    else Complement(x)
  }

  function ExecUnary(insn: Insn, s: Core): (r: Outcome)
    requires Encoded(insn) && TwoRegister(insn.op)
    ensures OnlyRegister(insn.a, s, r)
  {
    if !RegOk(insn.a) || !RegOk(insn.b) then Fault(s, DecodeFault)
    else if insn.op.Mov? then
      var s' := SetReg(s, insn.a, s.regs[insn.b], s.tags[insn.b]);
      Next(SetFlags(s', s'.regs[insn.a]))
    else
      var v := Unary(insn.op, s.regs[insn.b]);
      Next(SetFlags(Put(s, insn.a, v, IntTag), v))
  }

  function ExecIncrement(insn: Insn, s: Core): (r: Outcome)
    ensures OnlyRegister(insn.a, s, r)
  {
    if !RegOk(insn.a) then Fault(s, DecodeFault)
    else
      var x: int := s.regs[insn.a];
      var v := Wrap(if insn.op.Inc? then x + 1 else x - 1);
      Next(SetFlags(Put(s, insn.a, v, IntTag), v))
  }

  /** The tag of an immediate, by its literal kind. */
  function LiteralTag(kind: LiteralKind): Tag {
    match kind
    case IntLiteral => IntTag
    case BoolLiteral => BoolTag
    case FloatLiteral => FloatHandle
    case FractionLiteral => FractionHandle
    case SymbolLiteral => SymbolHandle
    case TensorLiteral => TensorHandle
    case ShapeLiteral => ShapeHandle
  }

  /** The capability a symbol names, if it is one of the runtime tokens. */
  function RuntimeToken(symbol: string): Option<Tag> {
    if symbol == "std.sys.proof" then Some(ProofHandle)
    else if symbol == "std.io.stream" then Some(IoStreamHandle)
    else if symbol == "std.io.net" then Some(IoNetHandle)
    else if symbol == "std.async.thread" then Some(AsyncThreadHandle)
    else if symbol == "std.async.promise" then Some(AsyncPromiseHandle)
    else None
  }

  function SymbolToken(env: Env, handle: Word): Option<Tag> {
    if handle <= 0 || handle - 1 >= |env.symbols| then None
    else RuntimeToken(env.symbols[handle - 1])
  }

  function ExecLoadImm(env: Env, insn: Insn, s: Core): (r: Outcome)
    ensures OnlyRegister(insn.a, s, r)
  {
    if !RegOk(insn.a) then Fault(s, DecodeFault)
    else
      var tag := LiteralTag(insn.literal);
      var token := if tag == SymbolHandle then SymbolToken(env, insn.b) else None;
      var s' := match token
        case Some(t) => SetReg(s, insn.a, 1, t)
        case None => SetReg(s, insn.a, insn.b, tag);
      Next(SetFlags(s', s'.regs[insn.a]))
  }

  /** The bounds check takes its address as an `int`; the access uses the full word. */
  function ExecLoad(env: Env, insn: Insn, s: Core): (r: Outcome)
    requires InBounds(env, s)
    ensures OnlyRegister(insn.a, s, r)
  {
    if !RegOk(insn.a) then Fault(s, DecodeFault)
    else if !env.layout.Data(Narrow(insn.b)) then Fault(s, BoundsFault)
    else if !(0 <= insn.b < |s.memory|) then Undefined
    else
      var v := s.memory[insn.b];
      Next(SetFlags(Put(s, insn.a, v, s.memoryTags[insn.b]), v))
  }

  function ExecStore(env: Env, insn: Insn, s: Core): (r: Outcome)
    requires Loaded(env) && InBounds(env, s) && Encoded(insn) && ReadsB(insn.op)
    ensures Straight(env, insn.a, s, r)
  {
    if !RegOk(insn.b) then Fault(s, DecodeFault)
    else if !env.layout.Data(insn.a) then Fault(s, BoundsFault)
    else Next(s.(memory := s.memory[insn.a := s.regs[insn.b]],
                 memoryTags := s.memoryTags[insn.a := s.tags[insn.b]]))
  }

  /** `push_stack_word`. */
  function PushWord(env: Env, s: Core, v: Word, t: Tag): (r: Option<Core>)
    requires Loaded(env) && InBounds(env, s)
    ensures r.Some? ==> InBounds(env, r.value)
  {
    if s.sp <= s.stackLimit then None
    else if env.maxStack.Some? && s.stackBase - (s.sp - 1) > env.maxStack.value then None
    else Some(s.(sp := s.sp - 1,
                 memory := s.memory[s.sp - 1 := v],
                 memoryTags := s.memoryTags[s.sp - 1 := t]))
  }

  function ExecPush(env: Env, insn: Insn, s: Core): (r: Outcome)
    requires Loaded(env) && InBounds(env, s)
    ensures Straight(env, insn.a, s, r)
  {
    if !RegOk(insn.a) then Fault(s, DecodeFault)
    else match PushWord(env, s, s.regs[insn.a], s.tags[insn.a])
      case None => Fault(s, StackFault)
      case Some(s') => Next(s')
  }

  function ExecPop(env: Env, insn: Insn, s: Core): (r: Outcome)
    requires Loaded(env) && InBounds(env, s)
    ensures Straight(env, insn.a, s, r)
  {
    if !RegOk(insn.a) then Fault(s, DecodeFault)
    else if s.sp >= s.stackBase then Fault(s, StackFault)
    else
      var v := s.memory[s.sp];
      Next(SetFlags(Put(s.(sp := s.sp + 1), insn.a, v, s.memoryTags[s.sp]), v))
  }

  /** Tags whose values are compared as plain words. */
  predicate ComparedRaw(t: Tag) {
    (t.IntTag? || t.BoolTag? || t.StringVectorHandle? || t.SymbolicGraphHandle? || t.Tier2FrameHandle? ||
     t.InfiniteHandle? || t.TensorHandle? || t.ShapeHandle? || t.WeightsTensorHandle? || t.ReflectionHandle?)
  }

  /** Tags of capabilities: all values of one such tag have the same text. */
  predicate ComparedAsToken(t: Tag) {
    (t.ProofHandle? || t.IoStreamHandle? || t.IoNetHandle? || t.AsyncThreadHandle? || t.AsyncPromiseHandle?)
  }

  /** `compare_value`: the sign tells the order; `None` when there is none. */
  function CompareValue(env: Env, t: Tag, x: Word, y: Word): Option<int> {
    if ComparedAsToken(t) then Some(0)
    else if ComparedRaw(t) then Some(if x == y then 0 else if x < y then -1 else 1)
    else if t == EnumHandle then None
    else env.compareHandles(t, x, y)
  }

  predicate Relation(op: Opcode, relation: int)
    requires IsComparison(op)
  {
    match op
    case Less => relation < 0
    case LessEqual => relation <= 0
    case Greater => relation > 0
    case GreaterEqual => relation >= 0
    case Equal => relation == 0
    case NotEqual => relation != 0
  }

  function ExecCompare(env: Env, insn: Insn, s: Core): (r: Outcome)
    requires Encoded(insn) && IsComparison(insn.op)
    ensures OnlyRegister(insn.a, s, r)
  {
    if !RegOk(insn.a) || !RegOk(insn.b) || !RegOk(insn.c) then Fault(s, DecodeFault)
    else if s.tags[insn.b] != s.tags[insn.c] then Fault(s, TypeFault)
    else match CompareValue(env, s.tags[insn.b], s.regs[insn.b], s.regs[insn.c])
      case None => Fault(s, DecodeFault)
      case Some(relation) =>
        var v: Word := if Relation(insn.op, relation) then 1 else 0;
        Next(SetFlags(Put(s, insn.a, v, IntTag), v))
  }

  function ExecCmp(env: Env, insn: Insn, s: Core): (r: Outcome)
    requires Encoded(insn) && insn.op.Cmp?
    ensures OnlyRegister(insn.a, s, r)
  {
    if !RegOk(insn.a) || !RegOk(insn.b) then Fault(s, DecodeFault)
    else if s.tags[insn.a] != s.tags[insn.b] then Fault(s, TypeFault)
    else match CompareValue(env, s.tags[insn.a], s.regs[insn.a], s.regs[insn.b])
      case None => Fault(s, DecodeFault)
      case Some(relation) => Next(SetFlags(s, relation))
  }

  function FlagWord(f: Flags): Word {
    if f.negative then -1 else if !f.zero then 1 else 0
  }

  function ExecSetF(insn: Insn, s: Core): (r: Outcome)
    ensures OnlyRegister(insn.a, s, r)
  {
    if !RegOk(insn.a) then Fault(s, DecodeFault)
    else
      var v := FlagWord(s.flags);
      Next(SetFlags(SetReg(s, insn.a, v, IntTag), v))
  }

  function ExecBranch(env: Env, insn: Insn, s: Core): (r: Outcome)
    requires Encoded(insn) && IsBranch(insn.op)
    ensures r.Next? ==> r.core == s.(pc := r.core.pc)
  {
    if ReadsB(insn.op) && !RegOk(insn.b) then Fault(s, DecodeFault)
    else
      var taken := match insn.op
        case Jump => true
        case JumpIfZero => s.regs[insn.b] == 0
        case JumpIfNotZero => s.regs[insn.b] != 0
        case JumpIfNegative => s.flags.negative
        case JumpIfPositive => s.flags.positive;
      if !taken then Next(s)
      else if !env.layout.Target(insn.a) then Fault(s, DecodeFault)
      else Next(s.(pc := insn.a))
  }

  function ExecCall(env: Env, insn: Insn, s: Core): (r: Outcome)
    requires Loaded(env) && InBounds(env, s) && Encoded(insn) && insn.op.Call?
    ensures r.Next? ==> InBounds(env, r.core)
  {
    if !RegOk(insn.b) then Fault(s, DecodeFault)
    else if s.callDepth + 1 > RECURSION_LIMIT then Fault(s, TierFault)
    else if !env.layout.Target(Narrow(s.regs[insn.b])) then Fault(s, DecodeFault)
    else match PushWord(env, s, Wrap(s.pc), IntTag)
      case None => Fault(s, StackFault)
      case Some(s') => Next(s'.(callDepth := s.callDepth + 1, pc := Unsigned(s.regs[insn.b])))
  }

  function ExecRet(env: Env, s: Core): (r: Outcome)
    requires Loaded(env) && InBounds(env, s)
    ensures r.Next? ==> InBounds(env, r.core)
  {
    if s.sp >= s.stackBase then Fault(s, StackFault)
    else
      var addr := s.memory[s.sp];
      var popped := s.(sp := s.sp + 1);
      if s.memoryTags[s.sp] != IntTag then Fault(popped, TypeFault)
      else if !env.layout.Target(Narrow(addr)) then Fault(popped, DecodeFault)
      else
        var s' := popped.(pc := Unsigned(addr));
        Next(if s.callDepth > 0 then s'.(callDepth := s.callDepth - 1)
             else s'.(contradictions := s.contradictions + 1))
  }

  /** The dispatch of `Interpreter::step`; `s.pc` is already past the instruction. */
  function Exec(env: Env, insn: Insn, s: Core): Outcome
    requires Loaded(env) && InBounds(env, s) && Encoded(insn)
  {
    if insn.op.Nop? then Next(s)
    else if insn.op.Halt? then Next(s.(halted := true))
    else if insn.op.Trap? then Fault(s, TrapInstruction)
    else if insn.op.LoadImm? then ExecLoadImm(env, insn, s)
    else if insn.op.Load? then ExecLoad(env, insn, s)
    else if insn.op.Store? then ExecStore(env, insn, s)
    else if insn.op.Push? then ExecPush(env, insn, s)
    else if insn.op.Pop? then ExecPop(env, insn, s)
    else if insn.op.Cmp? then ExecCmp(env, insn, s)
    else if insn.op.SetF? then ExecSetF(insn, s)
    else if insn.op.Call? then ExecCall(env, insn, s)
    else if insn.op.Ret? then ExecRet(env, s)
    else if insn.op.Inc? || insn.op.Dec? then ExecIncrement(insn, s)
    else if IsBranch(insn.op) then ExecBranch(env, insn, s)
    else if IsComparison(insn.op) then ExecCompare(env, insn, s)
    else if TwoRegister(insn.op) then ExecUnary(insn, s)
    else ExecAlu(insn, s)
  }

  /** Fetch: the program counter and the instruction counter advance before dispatch. */
  function Fetch(s: Core): Core {
    s.(pc := s.pc + 1, ticks := s.ticks + 1)
  }

  /** `Interpreter::step` with an engine that allows everything and no compiled trace
      at the program counter. */
  function Step(env: Env, s: Core): Outcome
    requires Loaded(env) && InBounds(env, s)
  {
    if s.halted then Next(s)
    else if s.pc >= |env.program| then Next(s.(halted := true))
    else match Exec(env, env.program[s.pc], Fetch(s))
      case Next(s') => Next(Sync(env, s'))
      case Fault(s', fault) => Fault(Sync(env, s'), fault)
      case Undefined => Undefined
  }

  /** `n` steps; a fault ends the run. */
  function Run(env: Env, s: Core, n: nat): Outcome
    requires Loaded(env) && InBounds(env, s)
    decreases n
  {
    if n == 0 then Next(s)
    else match Step(env, s)
      case Next(s') => StepKeepsBounds(env, s); Run(env, s', n - 1)
      case stop => stop
  }

  lemma ExecKeepsBounds(env: Env, insn: Insn, s: Core)
    requires Loaded(env) && InBounds(env, s) && Encoded(insn)
    ensures Exec(env, insn, s).Next? ==> InBounds(env, Exec(env, insn, s).core)
  {
  }

  /** No step leaves the stack segment or resizes memory. */
  lemma StepKeepsBounds(env: Env, s: Core)
    requires Loaded(env) && InBounds(env, s)
    ensures Step(env, s).Next? ==> InBounds(env, Step(env, s).core)
  {
    if !s.halted && s.pc < |env.program| {
      ExecKeepsBounds(env, env.program[s.pc], Fetch(s));
    }
  }

  lemma {:induction false} RunKeepsBounds(env: Env, s: Core, n: nat)
    requires Loaded(env) && InBounds(env, s)
    ensures Run(env, s, n).Next? ==> InBounds(env, Run(env, s, n).core)
    decreases n
  {
    hide Step, InBounds;
    if n > 0 && Step(env, s).Next? {
      StepKeepsBounds(env, s);
      RunKeepsBounds(env, Step(env, s).core, n - 1);
    }
  }

  /** A run of `m + n` steps is a run of `n` steps after a run of `m`. */
  lemma {:induction false} RunCompose(env: Env, s: Core, m: nat, n: nat)
    requires Loaded(env) && InBounds(env, s)
    requires Run(env, s, m).Next?
    ensures InBounds(env, Run(env, s, m).core)
    ensures Run(env, s, m + n) == Run(env, Run(env, s, m).core, n)
    decreases m
  {
    hide Step, InBounds;
    RunKeepsBounds(env, s, m);
    if m > 0 {
      StepKeepsBounds(env, s);
      RunCompose(env, Step(env, s).core, m - 1, n);
    }
  }

  /** A load whose narrowed address is a data address while the address itself lies outside
      memory. */
  predicate LoadsOutside(env: Env, insn: Insn, s: Core) {
    insn.op.Load? && RegOk(insn.a) && env.layout.Data(Narrow(insn.b)) && !(0 <= insn.b < |s.memory|)
  }

  /** Such a load is the one access outside memory that the interpreter makes. */
  lemma StepUndefinedIff(env: Env, s: Core)
    requires Loaded(env) && InBounds(env, s)
    ensures Step(env, s).Undefined? <==>
              !s.halted && s.pc < |env.program| && LoadsOutside(env, env.program[s.pc], s)
  {
    hide Alu, Unary, CompareValue, Relation, Sync, FlagWord;
    if !s.halted && s.pc < |env.program| {
      ExecUndefinedIff(env, env.program[s.pc], Fetch(s));
    }
  }

  lemma ExecUndefinedIff(env: Env, insn: Insn, s: Core)
    requires Loaded(env) && InBounds(env, s) && Encoded(insn)
    ensures Exec(env, insn, s).Undefined? <==> LoadsOutside(env, insn, s)
  {
    hide Alu, Unary, CompareValue, Relation, FlagWord;
  }

  /** Addresses of 32 bits are checked as they are used; beyond, every data address has
      another address that passes its check and lies outside a memory of up to 2^32 words. */
  lemma LoadBeyond(env: Env, s: Core, a: Int32, d: nat, literal: LiteralKind)
    requires Loaded(env) && InBounds(env, s) && RegOk(a)
    requires env.layout.Data(d) && d < TWO_31 && |s.memory| <= TWO_32
    ensures !LoadsOutside(env, Insn(Load, a, d, 0, literal), s)
    ensures LoadsOutside(env, Insn(Load, a, TWO_32 + d, 0, literal), s)
  {
    assert Narrow(TWO_32 + d) == d;
  }

  /** A push and a pop move a value with its type from one register to another and restore
      the stack; only the word below the stack pointer was overwritten. */
  lemma PopUndoesPush(env: Env, push: Insn, pop: Insn, s: Core)
    requires Loaded(env) && InBounds(env, s)
    requires RegOk(pop.a) && ExecPush(env, push, s).Next?
    ensures InBounds(env, ExecPush(env, push, s).core)
    ensures var pushed := ExecPush(env, push, s).core;
            var r := ExecPop(env, pop, pushed);
            && r.Next?
            && r.core == SetFlags(Put(s, pop.a, s.regs[push.a], s.tags[push.a]), s.regs[push.a])
                           .(memory := pushed.memory, memoryTags := pushed.memoryTags)
            && forall i :: 0 <= i < |s.memory| && i != s.sp - 1 ==>
                 r.core.memory[i] == s.memory[i] && r.core.memoryTags[i] == s.memoryTags[i]
  {
  }

  /** Whatever a called routine does, if it returns with the stack pointer, the call depth
      and the word on top of the stack as the call left them, it returns to the instruction
      after the call with the stack as it was before. */
  lemma RetUndoesCall(env: Env, call: Insn, s: Core, t: Core)
    requires Loaded(env) && InBounds(env, s) && Encoded(call) && call.op.Call? && InBounds(env, t)
    requires s.pc <= |env.program| < TWO_31
    requires ExecCall(env, call, s).Next?
    requires var called := ExecCall(env, call, s).core;
             && t.sp == called.sp && t.callDepth == called.callDepth && t.stackBase == called.stackBase
             && t.memory[t.sp] == called.memory[t.sp] && t.memoryTags[t.sp] == called.memoryTags[t.sp]
    ensures ExecRet(env, t) == Next(t.(pc := s.pc, sp := s.sp, callDepth := s.callDepth))
  {
    assert Narrow(Wrap(s.pc)) == s.pc;
  }
}
