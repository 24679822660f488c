/** The trace compiler: a recorder that collects instructions as the interpreter runs
    them, and the executor that replays a recorded trace with its own dispatch. */
module Jit {
  import opened Word
  import opened Isa
  import opened Wrappers
  import opened VmState

  datatype Exit = Completed | Branch | GuardDeopt | PolicyDeny

  /** How the dispatch of one instruction ended. */
  datatype Effect = Done(core: Core) | Jumped(core: Core) | Deopt(core: Core)

  /** `Undefined` marks a read outside the register file. */
  datatype TraceResult = Ended(core: Core, executed: nat, exit: Exit) | Undefined

  type Hook = (nat, Insn, nat) -> bool

  predicate MemOk(s: Core, addr: int) {
    0 <= addr < |s.memory|
  }

  /** Unlike the interpreter's check, this one excludes the end of the program. */
  predicate CodeOk(env: Env, size: nat, addr: int) {
    0 <= addr < size && (env.layout.code.limit > env.layout.code.start ==> env.layout.code.Contains(addr))
  }

  function Clamp(v: int): (t: int)
    ensures -1 <= t <= 1
  {
    if v < -1 then -1 else if v > 1 then 1 else v
  }

  function TritOp(op: Opcode, lhs: int, rhs: int): (t: int)
    requires -1 <= lhs <= 1 && -1 <= rhs <= 1
    ensures -1 <= t <= 1
  {
    if op.TAnd? then if lhs < rhs then lhs else rhs
    else if op.TOr? then if lhs > rhs then lhs else rhs
    else
      var out := lhs - rhs;
      if out > 1 then -1 else if out < -1 then 1 else out
  }

  function TritWord(op: Opcode, x: Word, y: Word): Word {
    TritOp(op, Clamp(x), Clamp(y))
  }

  predicate Holds(op: Opcode, x: Word, y: Word) {
    if op.Less? then x < y
    else if op.LessEqual? then x <= y
    else if op.Greater? then x > y
    else if op.GreaterEqual? then x >= y
    else if op.Equal? then x == y
    else x != y
  }

  /** The word a three-register opcode computes; comparisons look at the words alone. */
  function Value(op: Opcode, x: Word, y: Word): Word
    requires ThreeRegister(op) && ((op.Div? || op.Mod?) ==> y != 0)
  {
    var i: int, j: int := x, y;
    if op.Add? then Wrap(i + j)
    else if op.Sub? then Wrap(i - j)
    else if op.Mul? then Wrap(i * j)
    else if op.Div? then Wrap(TruncDiv(x, y))
    else if op.Mod? then Wrap(TruncMod(x, y))
    else if op.BitAnd? then Bitwise(And, x, y)
    else if op.BitOr? then Bitwise(Or, x, y)
    else if op.BitXor? then Bitwise(Xor, x, y)
    else if op.BitShl? then Shift(Left, x, y)
    else if op.BitShr? then Shift(Arithmetic, x, y)
    else if op.BitUShr? then Shift(Logical, x, y)
    else if IsComparison(op) then if Holds(op, x, y) then 1 else 0
    else TritWord(op, x, y)
  }

  function DispatchThree(insn: Insn, s: Core): (e: Effect)
    requires Encoded(insn) && ThreeRegister(insn.op)
    ensures !e.Jumped? && e.core == s.(regs := e.core.regs, tags := e.core.tags, flags := e.core.flags)
  {
    if !RegOk(insn.a) || !RegOk(insn.b) || !RegOk(insn.c) then Deopt(s)
    else if (insn.op.Div? || insn.op.Mod?) && s.regs[insn.c] == 0 then Deopt(s)
    else Done(Put(s, insn.a, Value(insn.op, s.regs[insn.b], s.regs[insn.c]), IntTag))
  }

  function DispatchTwo(insn: Insn, s: Core): (e: Effect)
    requires Encoded(insn) && TwoRegister(insn.op)
    ensures !e.Jumped? && e.core == s.(regs := e.core.regs, tags := e.core.tags, flags := e.core.flags)
  {
    if !RegOk(insn.a) || !RegOk(insn.b) then Deopt(s)
    else
      var x: int := s.regs[insn.b];
      if insn.op.Mov? then Done(Put(s, insn.a, s.regs[insn.b], s.tags[insn.b]))
      else if insn.op.Neg? then Done(Put(s, insn.a, Wrap(0 - x), IntTag))
      else if insn.op.TNot? then Done(Put(s, insn.a, 0 - Clamp(x), IntTag))
      else Done(Put(s, insn.a, Complement(x), IntTag))
  }

  function DispatchOne(insn: Insn, s: Core): (e: Effect)
    requires insn.op.Inc? || insn.op.Dec? || insn.op.SetF?
    ensures !e.Jumped? && e.core == s.(regs := e.core.regs, tags := e.core.tags, flags := e.core.flags)
  {
    if !RegOk(insn.a) then Deopt(s)
    else
      var x: int := s.regs[insn.a];
      if insn.op.Inc? then Done(Put(s, insn.a, Wrap(x + 1), IntTag))
      else if insn.op.Dec? then Done(Put(s, insn.a, Wrap(x - 1), IntTag))
      else Done(Put(s, insn.a, if s.flags.negative then -1 else if !s.flags.zero then 1 else 0, IntTag))
  }

  function DispatchLoadImm(env: Env, insn: Insn, s: Core): (e: Effect)
    ensures !e.Jumped? && e.core == s.(regs := e.core.regs, tags := e.core.tags, flags := e.core.flags)
  {
    if !RegOk(insn.a) then Deopt(s)
    else match insn.literal
      case IntLiteral => Done(Put(s, insn.a, insn.b, IntTag))
      case BoolLiteral => Done(Put(s, insn.a, insn.b, BoolTag))
      case FloatLiteral => Done(Put(s, insn.a, insn.b, FloatHandle))
      case FractionLiteral => Done(Put(s, insn.a, insn.b, FractionHandle))
      case TensorLiteral => Done(Put(s, insn.a, insn.b, TensorHandle))
      case ShapeLiteral => Done(Put(s, insn.a, insn.b, ShapeHandle))
      case SymbolLiteral =>
        if 0 < insn.b <= |env.symbols| then
          var symbol := env.symbols[insn.b - 1];
          if symbol == "std.sys.proof" then Done(Put(s, insn.a, 1, ProofHandle))
          else if symbol == "std.io.stream" then Done(Put(s, insn.a, 1, IoStreamHandle))
          else if symbol == "std.io.net" then Done(Put(s, insn.a, 1, IoNetHandle))
          else if symbol == "std.async.thread" then Done(Put(s, insn.a, 1, AsyncThreadHandle))
          else if symbol == "std.async.promise" then Done(Put(s, insn.a, 1, AsyncPromiseHandle))
          else Done(Put(s, insn.a, insn.b, SymbolHandle))
        else Done(Put(s, insn.a, insn.b, SymbolHandle))
  }

  function DispatchMemory(env: Env, insn: Insn, s: Core): (e: Effect)
    requires Loaded(env) && InBounds(env, s) && Encoded(insn)
    requires insn.op.Load? || insn.op.Store? || insn.op.Push? || insn.op.Pop?
    ensures !e.Jumped? && InBounds(env, e.core) && e.core.pc == s.pc
  {
    if insn.op.Load? then
      if !RegOk(insn.a) || !MemOk(s, insn.b) then Deopt(s)
      else Done(Put(s, insn.a, s.memory[insn.b], s.memoryTags[insn.b]))
    else if insn.op.Store? then
      if !RegOk(insn.b) || !MemOk(s, insn.a) then Deopt(s)
      else Done(s.(memory := s.memory[insn.a := s.regs[insn.b]],
                   memoryTags := s.memoryTags[insn.a := s.tags[insn.b]]))
    else if insn.op.Push? then
      if !RegOk(insn.a) || s.sp <= s.stackLimit then Deopt(s)
      else Done(s.(sp := s.sp - 1,
                   memory := s.memory[s.sp - 1 := s.regs[insn.a]],
                   memoryTags := s.memoryTags[s.sp - 1 := s.tags[insn.a]]))
    else
      if !RegOk(insn.a) || s.sp >= s.stackBase then Deopt(s)
      else Done(Put(s.(sp := s.sp + 1), insn.a, s.memory[s.sp], s.memoryTags[s.sp]))
  }

  /** Only integers are compared in a trace: any other tag leaves it. */
  function DispatchCmp(insn: Insn, s: Core): (e: Effect)
    requires Encoded(insn) && insn.op.Cmp?
    ensures !e.Jumped? && e.core == s.(regs := e.core.regs, tags := e.core.tags, flags := e.core.flags)
  {
    if !RegOk(insn.a) || !RegOk(insn.b) then Deopt(s)
    else if s.tags[insn.a] != IntTag || s.tags[insn.b] != IntTag then Deopt(s)
    else
      var x, y := s.regs[insn.a], s.regs[insn.b];
      Done(s.(flags := Flags(x == y, x < y, x > y)))
  }

  /** Jump targets are not checked. */
  function DispatchBranch(insn: Insn, s: Core): (e: Effect)
    requires Encoded(insn) && IsBranch(insn.op)
    ensures e.core == s.(pc := e.core.pc) && (!e.Jumped? ==> e.core == s)
  {
    if ReadsB(insn.op) && !RegOk(insn.b) then Deopt(s)
    else
      var taken :=
        if insn.op.Jump? then true
        else if insn.op.JumpIfZero? then s.regs[insn.b] == 0
        else if insn.op.JumpIfNotZero? then s.regs[insn.b] != 0
        else if insn.op.JumpIfNegative? then s.flags.negative
        else s.flags.positive;
      if taken then Jumped(s.(pc := Unsigned(insn.a))) else Done(s)
  }

  /** `executed` counts this instruction, so the return address is `s.pc + executed`. */
  function DispatchCall(env: Env, insn: Insn, s: Core, executed: nat): (e: Effect)
    requires Loaded(env) && InBounds(env, s) && Encoded(insn) && insn.op.Call?
    ensures !e.Done? && InBounds(env, e.core) && (e.Deopt? ==> e.core.pc == s.pc)
  {
    if !RegOk(insn.b) || !CodeOk(env, |s.memory|, s.regs[insn.b]) || s.sp <= s.stackLimit then Deopt(s)
    else Jumped(s.(sp := s.sp - 1,
                   memory := s.memory[s.sp - 1 := Wrap(s.pc + executed)],
                   memoryTags := s.memoryTags[s.sp - 1 := IntTag],
                   callDepth := s.callDepth + 1,
                   pc := Unsigned(s.regs[insn.b])))
  }

  function DispatchRet(env: Env, s: Core): (e: Effect)
    requires Loaded(env) && InBounds(env, s)
    ensures !e.Done? && InBounds(env, e.core) && (e.Deopt? ==> e.core.pc == s.pc)
  {
    if s.sp >= s.stackBase then Deopt(s)
    else
      var addr, tag := s.memory[s.sp], s.memoryTags[s.sp];
      var s' := s.(sp := s.sp + 1);
      if tag != IntTag || !CodeOk(env, |s.memory|, addr) then Deopt(s')
      else Jumped(s'.(callDepth := if s.callDepth > 0 then s.callDepth - 1 else 0, pc := Unsigned(addr)))
  }

  /** The switch of `ThreadedJitTrace::execute`. */
  function Dispatch(env: Env, insn: Insn, s: Core, executed: nat): Effect
    requires Loaded(env) && InBounds(env, s) && Encoded(insn)
  {
    if ThreeRegister(insn.op) then DispatchThree(insn, s)
    else if TwoRegister(insn.op) then DispatchTwo(insn, s)
    else if insn.op.Inc? || insn.op.Dec? || insn.op.SetF? then DispatchOne(insn, s)
    else if insn.op.LoadImm? then DispatchLoadImm(env, insn, s)
    else if insn.op.Load? || insn.op.Store? || insn.op.Push? || insn.op.Pop? then DispatchMemory(env, insn, s)
    else if insn.op.Cmp? then DispatchCmp(insn, s)
    else if IsBranch(insn.op) then DispatchBranch(insn, s)
    else if insn.op.Call? then DispatchCall(env, insn, s, executed)
    else if insn.op.Ret? then DispatchRet(env, s)
    else Deopt(s)
  }

  /** Opcodes after which the flags are left alone. */
  predicate KeepsFlags(op: Opcode) {
    IsBranch(op) || op.Call? || op.Ret? || op.Store? || op.Push? || op.Cmp?
  }

  /** The flag update that follows the switch, also after a failed guard: it reads
      register `a` without checking that there is one. */
  function AfterSwitch(insn: Insn, s: Core): Option<Core> {
    if KeepsFlags(insn.op) then Some(s)
    else if !RegOk(insn.a) then None
    else Some(SetFlags(s, s.regs[insn.a]))
  }

  /** The rest of `execute`, from instruction `k` on; the program counter of the
      context stays at the entry of the trace until the trace ends. */
  function Execute(env: Env, hook: Hook, trace: seq<Insn>, s: Core, k: nat): TraceResult
    requires Loaded(env) && InBounds(env, s)
    requires k <= |trace| && forall i :: 0 <= i < |trace| ==> Encoded(trace[i])
    decreases |trace| - k
  {
    if k == |trace| then Ended(s.(pc := s.pc + k), k, Completed)
    else if !hook(s.pc + k, trace[k], k) then Ended(s, k, PolicyDeny)
    else
      var effect := Dispatch(env, trace[k], s, k + 1);
      match AfterSwitch(trace[k], effect.core)
      case None => Undefined
      case Some(s') =>
        if effect.Jumped? then Ended(s', k + 1, Branch)
        else if effect.Deopt? then Ended(s'.(pc := s'.pc + k), k + 1, GuardDeopt)
        else
          DispatchKeepsBounds(env, trace[k], s, k + 1);
          Execute(env, hook, trace, s', k + 1)
  }

  lemma DispatchKeepsBounds(env: Env, insn: Insn, s: Core, executed: nat)
    requires Loaded(env) && InBounds(env, s) && Encoded(insn)
    ensures InBounds(env, Dispatch(env, insn, s, executed).core)
    ensures !Dispatch(env, insn, s, executed).Jumped? ==> Dispatch(env, insn, s, executed).core.pc == s.pc
  {
  }

  /** The state of `JitCompiler`. */
  datatype Recorder = Recorder(tracing: bool, start: nat, buffer: seq<Insn>)

  /** Straight-line opcodes a trace may hold. */
  predicate Recordable(op: Opcode) {
    || ThreeRegister(op) || TwoRegister(op)
    || op.Inc? || op.Dec? || op.LoadImm? || op.Load? || op.Store? || op.Push? || op.Pop?
    || op.Cmp? || op.SetF?
  }

  function StartTracing(pc: nat): Recorder {
    Recorder(true, pc, [])
  }

  /** A branch is the last instruction of its trace; anything else that cannot be
      recorded ends the trace before it. */
  function Record(r: Recorder, insn: Insn): Recorder {
    if !r.tracing then r
    else if Recordable(insn.op) then r.(buffer := r.buffer + [insn])
    else if IsBranch(insn.op) then r.(buffer := r.buffer + [insn], tracing := false)
    else r.(tracing := false)
  }

  /** `compile`: the buffer becomes the trace, unless it is empty. */
  function Compile(r: Recorder): (Recorder, Option<seq<Insn>>) {
    if r.buffer == [] then (r.(tracing := false), None)
    else (r.(tracing := false, buffer := []), Some(r.buffer))
  }
}
