/** The machine as an object: a context whose registers, stack and memory the two
    dispatchers update in place, with the trace compiler beside it.  Every method is
    tied to the step function of the value model that it implements. */
module Machine {
  import opened Word
  import opened Isa
  import opened VmState
  import I = Interpreter
  import J = Jit
  import T = TracingVm

  datatype Effect = Went | Branched | Failed

  datatype Status = Continue | Trapped(fault: I.Fault) | OutsideMemory

  class Context {
    const env: Env
    const registers: array<Word>
    const tags: array<Tag>
    const memory: array<Word>
    const memoryTags: array<Tag>
    var flags: Flags
    var pc: nat
    var sp: nat
    var stackBase: nat
    var stackLimit: nat
    var callDepth: nat
    var contradictions: nat
    var ticks: nat
    var halted: bool

    ghost predicate Valid()
      reads this, registers, tags, memory, memoryTags
    {
      && registers.Length == REGISTERS && tags.Length == REGISTERS
      && registers != memory && tags != memoryTags
      && Loaded(env) && InBounds(env, State())
    }

    ghost function State(): Core
      requires registers.Length == REGISTERS && tags.Length == REGISTERS
      reads this, registers, tags, memory, memoryTags
    {
      Core(registers[..], tags[..], flags, pc, sp, stackBase, stackLimit, memory[..], memoryTags[..],
           callDepth, contradictions, ticks, halted)
    }

    /** A dispatch method ended as the value model says. */
    ghost predicate Ended(e: Effect, effect: J.Effect)
      requires registers.Length == REGISTERS && tags.Length == REGISTERS
      reads this, registers, tags, memory, memoryTags
    {
      State() == effect.core && e == (if effect.Done? then Went else if effect.Jumped? then Branched else Failed)
    }

    /** An interpreted opcode ended as the value model says. */
    ghost predicate Ran(s: Status, r: I.Outcome)
      requires registers.Length == REGISTERS && tags.Length == REGISTERS
      reads this, registers, tags, memory, memoryTags
    {
      match r
      case Next(core) => s == Continue && State() == core
      case Fault(core, fault) => s == Trapped(fault) && State() == core
      case Undefined => s == OutsideMemory
    }

    /** `load_program`: registers and memory are zero, the stack is empty.  The registers
        are refreshed before the policy of the program is known. */
    constructor (env: Env)
      requires Loaded(env)
      ensures Valid() && this.env == env && fresh(registers) && fresh(tags)
      ensures fresh(memory) && fresh(memoryTags)
      ensures !halted && pc == 0 && sp == stackBase && callDepth == 0 && ticks == 0
      ensures forall i :: 0 <= i < memory.Length ==> memory[i] == 0 && memoryTags[i] == IntTag
      ensures Synced(env.(mask := 0), State())
    {
      this.env := env;
      registers := new Word[REGISTERS](_ => 0);
      tags := new Tag[REGISTERS](_ => IntTag);
      memory := new Word[env.layout.meta.limit](_ => 0);
      memoryTags := new Tag[env.layout.meta.limit](_ => IntTag);
      flags := Flags(false, false, false);
      pc, sp := 0, env.layout.stack.limit;
      stackBase, stackLimit := env.layout.stack.limit, env.layout.stack.start;
      callDepth, contradictions, ticks, halted := 0, 0, 0, false;
      new;
      Refresh(0);
    }

    /** `sync_system_registers`; the mask is that of the policy in force. */
    method Refresh(mask: Word)
      requires Valid()
      modifies registers, tags
      ensures Valid() && State() == Sync(env.(mask := mask), old(State()))
      ensures Synced(env.(mask := mask), State())
    {
      ghost var s := State();
      var entropy := env.entropy(Core(registers[..], tags[..], flags, pc, sp, stackBase, stackLimit,
                                      memory[..], memoryTags[..], callDepth, contradictions, ticks, halted));
      var frames := if env.frames < callDepth then callDepth else env.frames;
      WriteRegister(0, 0, IntTag);
      WriteRegister(75, Wrap(ticks), IntTag);
      WriteRegister(76, env.lineage, IntTag);
      WriteRegister(77, entropy, IntTag);
      WriteRegister(78, mask, IntTag);
      WriteRegister(79, Wrap(frames), IntTag);
      WriteRegister(80, if halted then 0 else 1, IntTag);
      SyncSyncs(env.(mask := mask), s);
    }

    method WriteRegister(r: int, v: Word, t: Tag)
      requires Valid() && RegOk(r)
      modifies registers, tags
      ensures Valid() && State() == Put(old(State()), r, v, t)
    {
      registers[r] := v;
      tags[r] := t;
    }

    // ---------- the dispatch of a compiled trace

    method DispatchThree(insn: Insn) returns (e: Effect)
      requires Valid() && Encoded(insn) && ThreeRegister(insn.op)
      modifies registers, tags
      ensures Valid() && Ended(e, J.DispatchThree(insn, old(State())))
    {
      if !RegOk(insn.a) || !RegOk(insn.b) || !RegOk(insn.c) {
        return Failed;
      }
      var x, y := registers[insn.b], registers[insn.c];
      if (insn.op.Div? || insn.op.Mod?) && y == 0 {
        return Failed;
      }
      registers[insn.a] := J.Value(insn.op, x, y);
      tags[insn.a] := IntTag;
      return Went;
    }

    method DispatchTwo(insn: Insn) returns (e: Effect)
      requires Valid() && Encoded(insn) && TwoRegister(insn.op)
      modifies registers, tags
      ensures Valid() && Ended(e, J.DispatchTwo(insn, old(State())))
    {
      if !RegOk(insn.a) || !RegOk(insn.b) {
        return Failed;
      }
      var x: int := registers[insn.b];
      if insn.op.Mov? {
        WriteRegister(insn.a, registers[insn.b], tags[insn.b]);
      } else if insn.op.Neg? {
        WriteRegister(insn.a, Wrap(0 - x), IntTag);
      } else if insn.op.TNot? {
        WriteRegister(insn.a, 0 - J.Clamp(x), IntTag);
      } else {
        WriteRegister(insn.a, Complement(x), IntTag);
      }
      return Went;
    }

    method DispatchOne(insn: Insn) returns (e: Effect)
      requires Valid() && (insn.op.Inc? || insn.op.Dec? || insn.op.SetF?)
      modifies registers, tags
      ensures Valid() && Ended(e, J.DispatchOne(insn, old(State())))
    {
      if !RegOk(insn.a) {
        return Failed;
      }
      var x: int := registers[insn.a];
      if insn.op.Inc? {
        WriteRegister(insn.a, Wrap(x + 1), IntTag);
      } else if insn.op.Dec? {
        WriteRegister(insn.a, Wrap(x - 1), IntTag);
      } else {
        var flag: Word := 0;
        if flags.negative {
          flag := -1;
        } else if !flags.zero {
          flag := 1;
        }
        WriteRegister(insn.a, flag, IntTag);
      }
      return Went;
    }

    method DispatchLoadImm(insn: Insn) returns (e: Effect)
      requires Valid()
      modifies registers, tags
      ensures Valid() && Ended(e, J.DispatchLoadImm(env, insn, old(State())))
    {
      if !RegOk(insn.a) {
        return Failed;
      }
      registers[insn.a] := insn.b;
      match insn.literal {
        case IntLiteral => tags[insn.a] := IntTag;
        case BoolLiteral => tags[insn.a] := BoolTag;
        case FloatLiteral => tags[insn.a] := FloatHandle;
        case FractionLiteral => tags[insn.a] := FractionHandle;
        case TensorLiteral => tags[insn.a] := TensorHandle;
        case ShapeLiteral => tags[insn.a] := ShapeHandle;
        case SymbolLiteral =>
          tags[insn.a] := SymbolHandle;
          if 0 < insn.b <= |env.symbols| {
            var symbol := env.symbols[insn.b - 1];
            if symbol == "std.sys.proof" {
              WriteRegister(insn.a, 1, ProofHandle);
            } else if symbol == "std.io.stream" {
              WriteRegister(insn.a, 1, IoStreamHandle);
            } else if symbol == "std.io.net" {
              WriteRegister(insn.a, 1, IoNetHandle);
            } else if symbol == "std.async.thread" {
              WriteRegister(insn.a, 1, AsyncThreadHandle);
            } else if symbol == "std.async.promise" {
              WriteRegister(insn.a, 1, AsyncPromiseHandle);
            }
          }
      }
      return Went;
    }

    method DispatchMemory(insn: Insn) returns (e: Effect)
      requires Valid() && Encoded(insn)
      requires insn.op.Load? || insn.op.Store? || insn.op.Push? || insn.op.Pop?
      modifies this, registers, tags, memory, memoryTags
      ensures Valid() && Ended(e, J.DispatchMemory(env, insn, old(State())))
    {
      e := Went;
      if insn.op.Load? {
        if !RegOk(insn.a) || !(0 <= insn.b < memory.Length) {
          return Failed;
        }
        WriteRegister(insn.a, memory[insn.b], memoryTags[insn.b]);
      } else if insn.op.Store? {
        if !RegOk(insn.b) || !(0 <= insn.a < memory.Length) {
          return Failed;
        }
        memory[insn.a] := registers[insn.b];
        memoryTags[insn.a] := tags[insn.b];
      } else if insn.op.Push? {
        if !RegOk(insn.a) || sp <= stackLimit {
          return Failed;
        }
        sp := sp - 1;
        memory[sp] := registers[insn.a];
        memoryTags[sp] := tags[insn.a];
      } else {
        if !RegOk(insn.a) || sp >= stackBase {
          return Failed;
        }
        registers[insn.a] := memory[sp];
        tags[insn.a] := memoryTags[sp];
        sp := sp + 1;
      }
    }

    method DispatchCmp(insn: Insn) returns (e: Effect)
      requires Valid() && Encoded(insn) && insn.op.Cmp?
      modifies this
      ensures Valid() && Ended(e, J.DispatchCmp(insn, old(State())))
    {
      if !RegOk(insn.a) || !RegOk(insn.b) || tags[insn.a] != IntTag || tags[insn.b] != IntTag {
        return Failed;
      }
      var x, y := registers[insn.a], registers[insn.b];
      flags := Flags(x == y, x < y, x > y);
      return Went;
    }

    method DispatchBranch(insn: Insn) returns (e: Effect)
      requires Valid() && Encoded(insn) && IsBranch(insn.op)
      modifies this
      ensures Valid() && Ended(e, J.DispatchBranch(insn, old(State())))
    {
      if ReadsB(insn.op) && !RegOk(insn.b) {
        return Failed;
      }
      var taken;
      if insn.op.Jump? {
        taken := true;
      } else if insn.op.JumpIfZero? {
        taken := registers[insn.b] == 0;
      } else if insn.op.JumpIfNotZero? {
        taken := registers[insn.b] != 0;
      } else if insn.op.JumpIfNegative? {
        taken := flags.negative;
      } else {
        taken := flags.positive;
      }
      if !taken {
        return Went;
      }
      pc := Unsigned(insn.a);
      return Branched;
    }

    method DispatchCall(insn: Insn, executed: nat) returns (e: Effect)
      requires Valid() && Encoded(insn) && insn.op.Call?
      modifies this, memory, memoryTags
      ensures Valid() && Ended(e, J.DispatchCall(env, insn, old(State()), executed))
    {
      assert sp <= memory.Length;
      hide J.CodeOk, Wrap, Unsigned, Loaded;
      if !RegOk(insn.b) || !J.CodeOk(env, memory.Length, registers[insn.b]) || sp <= stackLimit {
        return Failed;
      }
      sp := sp - 1;
      memory[sp] := Wrap(pc + executed);
      memoryTags[sp] := IntTag;
      callDepth := callDepth + 1;
      pc := Unsigned(registers[insn.b]);
      return Branched;
    }

    method DispatchRet() returns (e: Effect)
      requires Valid()
      modifies this
      ensures Valid() && Ended(e, J.DispatchRet(env, old(State())))
    {
      if sp >= stackBase {
        return Failed;
      }
      var addr, tag := memory[sp], memoryTags[sp];
      sp := sp + 1;
      if tag != IntTag || !J.CodeOk(env, memory.Length, addr) {
        return Failed;
      }
      if callDepth > 0 {
        callDepth := callDepth - 1;
      }
      pc := Unsigned(addr);
      return Branched;
    }

    method Dispatch(insn: Insn, executed: nat) returns (e: Effect)
      requires Valid() && Encoded(insn)
      modifies this, registers, tags, memory, memoryTags
      ensures Valid() && Ended(e, J.Dispatch(env, insn, old(State()), executed))
    {
      hide J.DispatchThree, J.DispatchTwo, J.DispatchOne, J.DispatchLoadImm, J.DispatchMemory;
      hide J.DispatchCmp, J.DispatchBranch, J.DispatchCall, J.DispatchRet;
      if ThreeRegister(insn.op) {
        e := DispatchThree(insn);
      } else if TwoRegister(insn.op) {
        e := DispatchTwo(insn);
      } else if insn.op.Inc? || insn.op.Dec? || insn.op.SetF? {
        e := DispatchOne(insn);
      } else if insn.op.LoadImm? {
        e := DispatchLoadImm(insn);
      } else if insn.op.Load? || insn.op.Store? || insn.op.Push? || insn.op.Pop? {
        e := DispatchMemory(insn);
      } else if insn.op.Cmp? {
        e := DispatchCmp(insn);
      } else if IsBranch(insn.op) {
        e := DispatchBranch(insn);
      } else if insn.op.Call? {
        e := DispatchCall(insn, executed);
      } else if insn.op.Ret? {
        e := DispatchRet();
      } else {
        e := Failed;
      }
    }

    /** `update_flags`, of a register. */
    method UpdateFlags(r: int)
      requires Valid() && RegOk(r)
      modifies `flags
      ensures Valid() && State() == SetFlags(old(State()), registers[r])
    {
      flags := FlagsOf(registers[r]);
    }

    /** `ThreadedJitTrace::execute`.  `defined` is false when the flag update reads a
        register that does not exist. */
    method Execute(trace: seq<Insn>, hook: J.Hook) returns (executed: nat, exit: J.Exit, defined: bool)
      requires Valid() && forall i :: 0 <= i < |trace| ==> Encoded(trace[i])
      modifies this, registers, tags, memory, memoryTags
      ensures Valid()
      ensures var r := J.Execute(env, hook, trace, old(State()), 0);
              defined == r.Ended? && (defined ==> r == J.Ended(State(), executed, exit))
    {
      hide J.Dispatch, J.KeepsFlags, Loaded, FlagsOf;
      executed, exit, defined := 0, J.Completed, true;
      for k := 0 to |trace|
        invariant Valid() && executed == k && defined
        invariant J.Execute(env, hook, trace, old(State()), 0) == J.Execute(env, hook, trace, State(), k)
      {
        if !hook(pc + k, trace[k], k) {
          return executed, J.PolicyDeny, true;
        }
        executed := executed + 1;
        var e := Dispatch(trace[k], executed);
        if !J.KeepsFlags(trace[k].op) {
          if !RegOk(trace[k].a) {
            return executed, exit, false;
          }
          UpdateFlags(trace[k].a);
        }
        if e == Branched {
          return executed, J.Branch, true;
        } else if e == Failed {
          pc := pc + k;
          return executed, J.GuardDeopt, true;
        }
      }
      pc := pc + executed;
    }

    // ---------- the dispatch of the interpreter

    /** `set_reg`. */
    method SetRegister(r: int, v: Word, t: Tag)
      requires Valid() && RegOk(r)
      modifies registers, tags
      ensures Valid() && State() == I.SetReg(old(State()), r, v, t)
    {
      if Reserved(r) {
        return;
      }
      WriteRegister(r, v, t);
    }

    method ExecAlu(insn: Insn) returns (status: Status)
      requires Valid() && Encoded(insn) && ThreeRegister(insn.op)
      modifies this, registers, tags
      ensures Valid() && Ran(status, I.ExecAlu(insn, old(State())))
    {
      hide I.Alu;
      if !RegOk(insn.a) || !RegOk(insn.b) || !RegOk(insn.c) {
        return Trapped(I.DecodeFault);
      }
      var result := I.Alu(insn.op, registers[insn.b], registers[insn.c]);
      if result.None? {
        return Trapped(I.DivisionFault);
      }
      WriteRegister(insn.a, result.value, IntTag);
      flags := FlagsOf(registers[insn.a]);
      return Continue;
    }

    method ExecUnary(insn: Insn) returns (status: Status)
      requires Valid() && Encoded(insn) && TwoRegister(insn.op)
      modifies this, registers, tags
      ensures Valid() && Ran(status, I.ExecUnary(insn, old(State())))
    {
      hide I.Unary;
      if !RegOk(insn.a) || !RegOk(insn.b) {
        return Trapped(I.DecodeFault);
      }
      if insn.op.Mov? {
        SetRegister(insn.a, registers[insn.b], tags[insn.b]);
      } else {
        WriteRegister(insn.a, I.Unary(insn.op, registers[insn.b]), IntTag);
      }
      flags := FlagsOf(registers[insn.a]);
      return Continue;
    }

    method ExecIncrement(insn: Insn) returns (status: Status)
      requires Valid() && (insn.op.Inc? || insn.op.Dec?)
      modifies this, registers, tags
      ensures Valid() && Ran(status, I.ExecIncrement(insn, old(State())))
    {
      if !RegOk(insn.a) {
        return Trapped(I.DecodeFault);
      }
      var x: int := registers[insn.a];
      WriteRegister(insn.a, if insn.op.Inc? then Wrap(x + 1) else Wrap(x - 1), IntTag);
      flags := FlagsOf(registers[insn.a]);
      return Continue;
    }

    method ExecLoadImm(insn: Insn) returns (status: Status)
      requires Valid()
      modifies this, registers, tags
      ensures Valid() && Ran(status, I.ExecLoadImm(env, insn, old(State())))
    {
      hide I.RuntimeToken;
      if !RegOk(insn.a) {
        return Trapped(I.DecodeFault);
      }
      var tag, value := I.LiteralTag(insn.literal), insn.b;
      if tag == SymbolHandle {
        var token := I.SymbolToken(env, insn.b);
        if token.Some? {
          tag, value := token.value, 1;
        }
      }
      SetRegister(insn.a, value, tag);
      flags := FlagsOf(registers[insn.a]);
      return Continue;
    }

    method ExecLoad(insn: Insn) returns (status: Status)
      requires Valid()
      modifies this, registers, tags
      ensures Valid() && Ran(status, I.ExecLoad(env, insn, old(State())))
    {
      if !RegOk(insn.a) {
        return Trapped(I.DecodeFault);
      } else if !env.layout.Data(Narrow(insn.b)) {
        return Trapped(I.BoundsFault);
      } else if !(0 <= insn.b < memory.Length) {
        return OutsideMemory;
      }
      WriteRegister(insn.a, memory[insn.b], memoryTags[insn.b]);
      flags := FlagsOf(registers[insn.a]);
      return Continue;
    }

    method ExecStore(insn: Insn) returns (status: Status)
      requires Valid() && Encoded(insn) && ReadsB(insn.op)
      modifies this, memory, memoryTags
      ensures Valid() && Ran(status, I.ExecStore(env, insn, old(State())))
    {
      if !RegOk(insn.b) {
        return Trapped(I.DecodeFault);
      } else if !env.layout.Data(insn.a) {
        return Trapped(I.BoundsFault);
      }
      memory[insn.a] := registers[insn.b];
      memoryTags[insn.a] := tags[insn.b];
      return Continue;
    }

    /** `push_stack_word`. */
    method PushWord(v: Word, t: Tag) returns (ok: bool)
      requires Valid()
      modifies this, memory, memoryTags
      ensures Valid()
      ensures match I.PushWord(env, old(State()), v, t)
              case Some(s) => ok && State() == s
              case None => !ok && State() == old(State())
    {
      if sp <= stackLimit {
        return false;
      }
      var top := sp - 1;
      if env.maxStack.Some? && stackBase - top > env.maxStack.value {
        return false;
      }
      sp := top;
      memory[sp] := v;
      memoryTags[sp] := t;
      return true;
    }

    method ExecPush(insn: Insn) returns (status: Status)
      requires Valid()
      modifies this, memory, memoryTags
      ensures Valid() && Ran(status, I.ExecPush(env, insn, old(State())))
    {
      hide I.PushWord;
      if !RegOk(insn.a) {
        return Trapped(I.DecodeFault);
      }
      var ok := PushWord(registers[insn.a], tags[insn.a]);
      if !ok {
        return Trapped(I.StackFault);
      }
      return Continue;
    }

    method ExecPop(insn: Insn) returns (status: Status)
      requires Valid()
      modifies this, registers, tags
      ensures Valid() && Ran(status, I.ExecPop(env, insn, old(State())))
    {
      if !RegOk(insn.a) {
        return Trapped(I.DecodeFault);
      } else if sp >= stackBase {
        return Trapped(I.StackFault);
      }
      var top := sp;
      sp := sp + 1;
      WriteRegister(insn.a, memory[top], memoryTags[top]);
      flags := FlagsOf(registers[insn.a]);
      return Continue;
    }

    method ExecCompare(insn: Insn) returns (status: Status)
      requires Valid() && Encoded(insn) && IsComparison(insn.op)
      modifies this, registers, tags
      ensures Valid() && Ran(status, I.ExecCompare(env, insn, old(State())))
    {
      hide I.CompareValue;
      if !RegOk(insn.a) || !RegOk(insn.b) || !RegOk(insn.c) {
        return Trapped(I.DecodeFault);
      } else if tags[insn.b] != tags[insn.c] {
        return Trapped(I.TypeFault);
      }
      var relation := I.CompareValue(env, tags[insn.b], registers[insn.b], registers[insn.c]);
      if relation.None? {
        return Trapped(I.DecodeFault);
      }
      WriteRegister(insn.a, if I.Relation(insn.op, relation.value) then 1 else 0, IntTag);
      flags := FlagsOf(registers[insn.a]);
      return Continue;
    }

    method ExecCmp(insn: Insn) returns (status: Status)
      requires Valid() && Encoded(insn) && insn.op.Cmp?
      modifies this
      ensures Valid() && Ran(status, I.ExecCmp(env, insn, old(State())))
    {
      hide I.CompareValue;
      if !RegOk(insn.a) || !RegOk(insn.b) {
        return Trapped(I.DecodeFault);
      } else if tags[insn.a] != tags[insn.b] {
        return Trapped(I.TypeFault);
      }
      var relation := I.CompareValue(env, tags[insn.a], registers[insn.a], registers[insn.b]);
      if relation.None? {
        return Trapped(I.DecodeFault);
      }
      flags := FlagsOf(relation.value);
      return Continue;
    }

    method ExecSetF(insn: Insn) returns (status: Status)
      requires Valid()
      modifies this, registers, tags
      ensures Valid() && Ran(status, I.ExecSetF(insn, old(State())))
    {
      if !RegOk(insn.a) {
        return Trapped(I.DecodeFault);
      }
      var flag: Word := 0;
      if flags.negative {
        flag := -1;
      } else if !flags.zero {
        flag := 1;
      }
      SetRegister(insn.a, flag, IntTag);
      flags := FlagsOf(flag);
      return Continue;
    }

    method ExecBranch(insn: Insn) returns (status: Status)
      requires Valid() && Encoded(insn) && IsBranch(insn.op)
      modifies this
      ensures Valid() && Ran(status, I.ExecBranch(env, insn, old(State())))
    {
      if ReadsB(insn.op) && !RegOk(insn.b) {
        return Trapped(I.DecodeFault);
      }
      var taken;
      if insn.op.Jump? {
        taken := true;
      } else if insn.op.JumpIfZero? {
        taken := registers[insn.b] == 0;
      } else if insn.op.JumpIfNotZero? {
        taken := registers[insn.b] != 0;
      } else if insn.op.JumpIfNegative? {
        taken := flags.negative;
      } else {
        taken := flags.positive;
      }
      if taken {
        if !env.layout.Target(insn.a) {
          return Trapped(I.DecodeFault);
        }
        pc := insn.a;
      }
      return Continue;
    }

    method ExecCall(insn: Insn) returns (status: Status)
      requires Valid() && Encoded(insn) && insn.op.Call?
      modifies this, memory, memoryTags
      ensures Valid() && Ran(status, I.ExecCall(env, insn, old(State())))
    {
      if !RegOk(insn.b) {
        return Trapped(I.DecodeFault);
      } else if callDepth + 1 > I.RECURSION_LIMIT {
        return Trapped(I.TierFault);
      }
      var target := registers[insn.b];
      if !env.layout.Target(Narrow(target)) {
        return Trapped(I.DecodeFault);
      }
      var ok := PushWord(Wrap(pc), IntTag);
      if !ok {
        return Trapped(I.StackFault);
      }
      callDepth := callDepth + 1;
      pc := Unsigned(target);
      return Continue;
    }

    method ExecRet() returns (status: Status)
      requires Valid()
      modifies this
      ensures Valid() && Ran(status, I.ExecRet(env, old(State())))
    {
      if sp >= stackBase {
        return Trapped(I.StackFault);
      }
      var addr, tag := memory[sp], memoryTags[sp];
      sp := sp + 1;
      if tag != IntTag {
        return Trapped(I.TypeFault);
      } else if !env.layout.Target(Narrow(addr)) {
        return Trapped(I.DecodeFault);
      }
      if callDepth > 0 {
        callDepth := callDepth - 1;
      } else {
        contradictions := contradictions + 1;
      }
      pc := Unsigned(addr);
      return Continue;
    }

    method Exec(insn: Insn) returns (status: Status)
      requires Valid() && Encoded(insn)
      modifies this, registers, tags, memory, memoryTags
      ensures Valid() && Ran(status, I.Exec(env, insn, old(State())))
    {
      hide I.ExecCompare, I.ExecAlu, I.ExecUnary, I.ExecLoadImm, I.ExecLoad, I.ExecStore, I.ExecPush;
      hide I.ExecPop, I.ExecCmp, I.ExecSetF, I.ExecIncrement, I.ExecCall, I.ExecRet, I.ExecBranch;
      status := Continue;
      if insn.op.Nop? {
      } else if insn.op.Halt? {
        halted := true;
      } else if insn.op.Trap? {
        status := Trapped(I.TrapInstruction);
      } else if insn.op.LoadImm? {
        status := ExecLoadImm(insn);
      } else if insn.op.Load? {
        status := ExecLoad(insn);
      } else if insn.op.Store? {
        status := ExecStore(insn);
      } else if insn.op.Push? {
        status := ExecPush(insn);
      } else if insn.op.Pop? {
        status := ExecPop(insn);
      } else if insn.op.Cmp? {
        status := ExecCmp(insn);
      } else if insn.op.SetF? {
        status := ExecSetF(insn);
      } else if insn.op.Call? {
        status := ExecCall(insn);
      } else if insn.op.Ret? {
        status := ExecRet();
      } else if insn.op.Inc? || insn.op.Dec? {
        status := ExecIncrement(insn);
      } else if IsBranch(insn.op) {
        status := ExecBranch(insn);
      } else if IsComparison(insn.op) {
        status := ExecCompare(insn);
      } else if TwoRegister(insn.op) {
        status := ExecUnary(insn);
      } else {
        status := ExecAlu(insn);
      }
    }

    /** One interpreted step. */
    method Interpret() returns (status: Status)
      requires Valid()
      modifies this, registers, tags, memory, memoryTags
      ensures Valid() && Ran(status, I.Step(env, old(State())))
    {
      hide I.Exec, Sync;
      if halted {
        return Continue;
      }
      if pc >= |env.program| {
        halted := true;
        return Continue;
      }
      var insn := env.program[pc];
      pc := pc + 1;
      ticks := ticks + 1;
      status := Exec(insn);
      if status != OutsideMemory {
        Refresh(env.mask);
      }
    }
  }

  /** `Interpreter`: a context, the trace compiler's recorder and tables. */
  class TracingInterpreter {
    const context: Context
    var tracing: bool
    var startPc: nat
    var buffer: seq<Insn>
    var hot: map<nat, nat>
    var traces: map<nat, seq<Insn>>

    ghost predicate Valid()
      reads this, context, context.registers, context.tags, context.memory, context.memoryTags
    {
      context.Valid() && T.WellFormed(context.env, View())
    }

    ghost function View(): T.Vm
      requires context.registers.Length == REGISTERS && context.tags.Length == REGISTERS
      reads this, context, context.registers, context.tags, context.memory, context.memoryTags
    {
      T.Vm(context.State(), J.Recorder(tracing, startPc, buffer), hot, traces)
    }

    constructor (context: Context)
      requires context.Valid()
      ensures Valid() && this.context == context
      ensures View() == T.Vm(context.State(), J.Recorder(false, 0, []), map[], map[])
    {
      this.context := context;
      tracing, startPc, buffer := false, 0, [];
      hot, traces := map[], map[];
    }

    /** `start_tracing`. */
    method StartTracing(pc: nat)
      modifies this
      ensures J.Recorder(tracing, startPc, buffer) == J.StartTracing(pc)
      ensures hot == old(hot) && traces == old(traces)
    {
      tracing, startPc, buffer := true, pc, [];
    }

    /** `record_instruction`. */
    method RecordInstruction(insn: Insn)
      modifies this
      ensures J.Recorder(tracing, startPc, buffer) == J.Record(old(J.Recorder(tracing, startPc, buffer)), insn)
      ensures hot == old(hot) && traces == old(traces)
    {
      if !tracing {
        return;
      }
      if J.Recordable(insn.op) {
        buffer := buffer + [insn];
      } else if IsBranch(insn.op) {
        buffer := buffer + [insn];
        tracing := false;
      } else {
        tracing := false;
      }
    }

    /** Hot-spot detection, recording and compilation before an instruction runs. */
    method Observe()
      requires Valid() && context.pc < |context.env.program|
      modifies this
      ensures Valid() && View() == T.Observe(context.env, old(View()))
    {
      ghost var before := View();
      var pc := context.pc;
      if !tracing {
        var count := (if pc in hot then hot[pc] else 0) + 1;
        hot := hot[pc := count];
        if count >= T.HOT_SPOT_THRESHOLD {
          StartTracing(pc);
        }
      }
      if tracing {
        RecordInstruction(context.env.program[pc]);
        if !tracing && buffer != [] {
          traces := traces[startPc := buffer];
          buffer := [];
        }
      }
      T.ObserveWellFormed(context.env, before);
    }

    /** `step`. */
    method Step() returns (status: Status)
      requires Valid()
      modifies this, context, context.registers, context.tags, context.memory, context.memoryTags
      ensures context.Valid()
      ensures match T.Step(context.env, old(View()))
              case Running(vm) => status == Continue && Valid() && View() == vm
              case Stopped(r) => context.Ran(status, r)
    {
      hide I.Step, T.Observe, J.Execute, InBounds;
      ghost var before := View();
      T.StepWellFormed(context.env, before);
      if !context.halted && context.pc in traces {
        var entry := context.pc;
        T.FromProgramEncoded(context.env, traces[entry]);
        var executed, exit, defined := context.Execute(traces[entry], T.AllowAll());
        if !defined {
          return OutsideMemory;
        }
        context.ticks := context.ticks + executed;
        if exit != J.GuardDeopt {
          return Continue;
        }
        traces := traces - {entry};
        T.AfterTraceInBounds(context.env, before);
      }
      if !context.halted && context.pc < |context.env.program| {
        Observe();
      }
      status := context.Interpret();
    }
  }
}
