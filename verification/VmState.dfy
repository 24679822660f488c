/** The part of the virtual machine's state that the integer fragment reads and
    writes, and the bookkeeping registers the interpreter refreshes after every step. */
module VmState {
  import opened Word
  import opened Isa
  import opened Wrappers

  const REGISTERS := 243

  type RegisterFile = r: seq<Word> | |r| == REGISTERS witness seq(REGISTERS, _ => 0)
  type TagFile = t: seq<Tag> | |t| == REGISTERS witness seq(REGISTERS, _ => IntTag)

  datatype Flags = Flags(zero: bool, negative: bool, positive: bool)

  datatype Segment = Segment(start: nat, limit: nat) {
    predicate Contains(a: int) {
      start <= a < limit
    }
  }

  datatype Layout = Layout(code: Segment, stack: Segment, heap: Segment, tensor: Segment, meta: Segment) {
    /** The segments follow each other, starting with the code. */
    predicate Contiguous() {
      && code.start == 0
      && code.limit == stack.start <= stack.limit
      && stack.limit == heap.start <= heap.limit
      && heap.limit == tensor.start <= tensor.limit
      && tensor.limit == meta.start <= meta.limit
    }

    /** A data address: any segment but the code. */
    predicate Data(a: int) {
      stack.Contains(a) || heap.Contains(a) || tensor.Contains(a) || meta.Contains(a)
    }

    /** A jump target: an instruction, or the end of the program. */
    predicate Target(a: int) {
      code.start <= a <= code.limit
    }
  }

  datatype Core = Core(
    regs: RegisterFile,
    tags: TagFile,
    flags: Flags,
    pc: nat,
    sp: nat,
    stackBase: nat,
    stackLimit: nat,
    memory: seq<Word>,
    memoryTags: seq<Tag>,
    callDepth: nat,
    contradictions: nat,
    ticks: nat,
    halted: bool)

  /** What a run does not change: the loaded program and its layout, the symbol pool,
      the stack quota of the policy, the signatures kept in R76..R78, the number of
      open stack frames, and the order of values whose words are handles into a pool. */
  datatype Env = Env(
    program: seq<Insn>,
    layout: Layout,
    symbols: seq<string>,
    maxStack: Option<Word>,
    lineage: Word,
    mask: Word,
    frames: nat,
    entropy: Core -> Word,
    compareHandles: (Tag, Word, Word) -> Option<int>)

  predicate RegOk(r: int) {
    0 <= r < REGISTERS
  }

  /** R0 and R75..R80 belong to the machine: `set_reg` refuses to write them. */
  predicate Reserved(r: int) {
    r == 0 || 75 <= r <= 80
  }

  /** R75 counts instructions and R77 signs that count: both change at every step. */
  predicate Volatile(r: int) {
    r == 75 || r == 77
  }

  function FlagsOf(v: int): Flags {
    Flags(v == 0, v < 0, v > 0)
  }

  function Put(s: Core, r: int, v: Word, t: Tag): Core
    requires RegOk(r)
  {
    s.(regs := s.regs[r := v], tags := s.tags[r := t])
  }

  function SetFlags(s: Core, v: int): Core {
    s.(flags := FlagsOf(v))
  }

  /** Program and layout belong together, and an operand that names a register fits
      the `int` of the register index it was emitted from. */
  predicate Loaded(env: Env) {
    && env.layout.Contiguous()
    && env.layout.code.limit == |env.program|
    && forall i :: 0 <= i < |env.program| ==> Encoded(env.program[i])
  }

  predicate Encoded(insn: Insn) {
    ReadsB(insn.op) ==> -TWO_31 <= insn.b < TWO_31
  }

  predicate InBounds(env: Env, s: Core) {
    && |s.memory| == |s.memoryTags| == env.layout.meta.limit
    && env.layout.stack.start <= s.stackLimit <= s.sp <= s.stackBase <= env.layout.stack.limit
  }

  /** `sync_system_registers`. */
  function Sync(env: Env, s: Core): Core {
    var frames := if env.frames < s.callDepth then s.callDepth else env.frames;
    var s0 := Put(s, 0, 0, IntTag);
    var s1 := Put(s0, 75, Wrap(s.ticks), IntTag);
    var s2 := Put(s1, 76, env.lineage, IntTag);
    var s3 := Put(s2, 77, env.entropy(s), IntTag);
    var s4 := Put(s3, 78, env.mask, IntTag);
    var s5 := Put(s4, 79, Wrap(frames), IntTag);
    Put(s5, 80, if s.halted then 0 else 1, IntTag)
  }

  /** Everything but the instruction counter and the two registers computed from it. */
  function Observable(s: Core): Core {
    s.(regs := s.regs[75 := 0][77 := 0], ticks := 0)
  }

  ghost predicate Agree(s: Core, t: Core) {
    Observable(s) == Observable(t)
  }

  /** The reserved registers that are not volatile hold what `Sync` puts there. */
  predicate Synced(env: Env, s: Core) {
    var frames := if env.frames < s.callDepth then s.callDepth else env.frames;
    && s.regs[0] == 0
    && s.regs[76] == env.lineage
    && s.regs[78] == env.mask
    && s.regs[79] == Wrap(frames)
    && s.regs[80] == (if s.halted then 0 else 1)
    && s.tags[0] == s.tags[75] == s.tags[76] == s.tags[77] == IntTag
    && s.tags[78] == s.tags[79] == s.tags[80] == IntTag
  }

  /** Refreshing registers that are in order shows only in the volatile ones. */
  lemma SyncShowsNothing(env: Env, s: Core)
    requires Synced(env, s)
    ensures Agree(Sync(env, s), s)
  {
    assert Observable(Sync(env, s)).regs == Observable(s).regs;
    assert Sync(env, s).tags == s.tags;
  }

  lemma SyncSyncs(env: Env, s: Core)
    ensures Synced(env, Sync(env, s))
  {
  }
}
