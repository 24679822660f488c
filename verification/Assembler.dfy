/** The assembler: intermediate code with labels becomes instructions with addresses, in
    two passes.  The first numbers the instructions and notes where each label stands;
    the second fills in the operands and collects the literals into pools. */
module Assembler {
  import opened Word
  import opened Isa
  import opened Wrappers

  datatype PrimitiveKind = UnknownKind | IntegerKind | FloatKind | FractionKind | BooleanKind

  datatype Relation = NoRelation | IsLess | IsLessEqual | IsGreater | IsGreaterEqual | IsEqual | IsNotEqual

  /** Opcodes that the emitter maps one to one, to instructions outside the integer
      fragment, are carried by name. */
  datatype IrOp =
    | ADD | SUB | MUL | DIV | MOD | NEG
    | FADD | FSUB | FMUL | FDIV
    | FRACADD | FRACSUB | FRACMUL | FRACDIV
    | CMP | MOV | LOADI | LOAD | STORE | PUSH | POP
    | JMP | JZ | JNZ | JN | JP | CALL | RET
    | NOP | HALT | TRAP
    | BITAND | BITOR | BITXOR | BITNOT | BITSHL | BITSHR | BITUSHR
    | OTHER(name: string)

  datatype Operand = Register(index: Int32) | Immediate(value: Word) | Label(id: Int32)

  datatype Instruction =
    | LabelAt(id: Int32)
    | Instruction(op: IrOp, operands: seq<Operand>, primitive: PrimitiveKind, booleanResult: bool,
                  relation: Relation, literal: LiteralKind, text: Option<string>)

  /** Addresses are counted in an `int`. */
  type Ir = s: seq<Instruction> | |s| < 0x8000_0000 witness []
  type Address = x: int | 0 <= x < 0x8000_0000

  /** An opcode of the machine: of the integer fragment, or another one. */
  datatype VmOp = Core(op: Opcode) | Wide(name: string)

  datatype Emitted = Emitted(op: VmOp, a: Int32, b: Word, c: Int32, literal: LiteralKind)

  datatype EmitError = UnsupportedTextLiteral | MalformedNumber

  datatype Output = Output(insns: seq<Emitted>, floats: seq<real>, symbols: seq<string>)

  // ---------- opcodes

  function MapPrimitive(kind: PrimitiveKind, float: string, fraction: string, integer: Opcode): VmOp {
    match kind
    case FloatKind => Wide(float)
    case FractionKind => Wide(fraction)
    case _ => Core(integer)
  }

  function MapRelation(relation: Relation): Opcode {
    match relation
    case IsLess => Less
    case IsLessEqual => LessEqual
    case IsGreater => Greater
    case IsGreaterEqual => GreaterEqual
    case IsEqual => Equal
    case IsNotEqual => NotEqual
    case NoRelation => Cmp
  }

  function MapOpcode(op: IrOp, kind: PrimitiveKind, booleanResult: bool, relation: Relation): VmOp {
    match op
    case ADD | FADD | FRACADD => MapPrimitive(kind, "FAdd", "FracAdd", Add)
    case SUB | FSUB | FRACSUB => MapPrimitive(kind, "FSub", "FracSub", Sub)
    case MUL | FMUL | FRACMUL => MapPrimitive(kind, "FMul", "FracMul", Mul)
    case DIV | FDIV | FRACDIV => MapPrimitive(kind, "FDiv", "FracDiv", Div)
    case MOD => Core(Mod)
    case NEG => Core(Neg)
    case CMP => Core(if booleanResult && relation != NoRelation then MapRelation(relation) else Cmp)
    case MOV => Core(Mov)
    case LOADI => Core(LoadImm)
    case LOAD => Core(Load)
    case STORE => Core(Store)
    case PUSH => Core(Push)
    case POP => Core(Pop)
    case JMP => Core(Jump)
    case JZ => Core(JumpIfZero)
    case JNZ => Core(JumpIfNotZero)
    case JN => Core(JumpIfNegative)
    case JP => Core(JumpIfPositive)
    case CALL => Core(Call)
    case RET => Core(Ret)
    case NOP => Core(Nop)
    case HALT => Core(Halt)
    case TRAP => Core(Trap)
    case BITAND => Core(BitAnd)
    case BITOR => Core(BitOr)
    case BITXOR => Core(BitXor)
    case BITNOT => Core(BitNot)
    case BITSHL => Core(BitShl)
    case BITSHR => Core(BitShr)
    case BITUSHR => Core(BitUShr)
    case OTHER(name) => Wide(name)
  }

  /** The four operations that floats and fractions have, too. */
  function FamilyName(op: IrOp): string
    requires InFamily(op)
  {
    match op
    case ADD | FADD | FRACADD => "Add"
    case SUB | FSUB | FRACSUB => "Sub"
    case MUL | FMUL | FRACMUL => "Mul"
    case _ => "Div"
  }

  predicate InFamily(op: IrOp) {
    || op.ADD? || op.FADD? || op.FRACADD? || op.SUB? || op.FSUB? || op.FRACSUB?
    || op.MUL? || op.FMUL? || op.FRACMUL? || op.DIV? || op.FDIV? || op.FRACDIV?
  }

  /** The kind of the operands decides the family of the opcode, whatever the operation is
      called. */
  lemma FamilyNames(op: IrOp, flag: bool, relation: Relation)
    requires InFamily(op)
    ensures MapOpcode(op, FloatKind, flag, relation) == Wide("F" + FamilyName(op))
    ensures MapOpcode(op, FractionKind, flag, relation) == Wide("Frac" + FamilyName(op))
  {
  }

  // ---------- the two passes

  type Labels = map<Int32, Address>

  /** Labels and next address after the first `n` instructions. */
  function LabelPass(ir: Ir, n: nat): (r: (Labels, Address))
    requires n <= |ir|
    ensures r.1 <= n
  {
    if n == 0 then (map[], 0)
    else
      var (labels, address) := LabelPass(ir, n - 1);
      match ir[n - 1]
      case LabelAt(id) => (labels[id := address], address)
      case _ => (labels, address + 1)
  }

  /** Looking up a label that no one defined inserts address zero. */
  function AddressOf(labels: Labels, id: Int32): Address {
    if id in labels then labels[id] else 0
  }

  function OperandWord(labels: Labels, operand: Operand): Word {
    match operand
    case Register(index) => index
    case Immediate(value) => value
    case Label(id) => AddressOf(labels, id)
  }

  /** Fields `a` and `c` are `int`s; field `c` takes no label. */
  function FieldA(labels: Labels, operands: seq<Operand>): Int32 {
    if |operands| > 0 then Narrow(OperandWord(labels, operands[0])) else 0
  }

  function FieldB(labels: Labels, operands: seq<Operand>): Word {
    if |operands| > 1 then OperandWord(labels, operands[1]) else 0
  }

  function FieldC(labels: Labels, operands: seq<Operand>): Int32 {
    if |operands| > 2 && !operands[2].Label? then Narrow(OperandWord(labels, operands[2])) else 0
  }

  /** Where `text` stands in the pool, counted from one; zero when it does not. */
  function IndexOf(pool: seq<string>, text: string): (i: nat)
    ensures i <= |pool|
    ensures i > 0 ==> pool[i - 1] == text
    ensures i == 0 ==> text !in pool
  {
    if pool == [] then 0
    else
      var i := IndexOf(pool[..|pool| - 1], text);
      if i > 0 then i else if pool[|pool| - 1] == text then |pool| else 0
  }

  /** `ensure_symbol`. */
  function EnsureSymbol(pool: seq<string>, text: string): (r: (seq<string>, nat))
    ensures pool <= r.0 && 0 < r.1 <= |r.0| <= |pool| + 1 && r.0[r.1 - 1] == text
  {
    var i := IndexOf(pool, text);
    if i > 0 then (pool, i) else (pool + [text], |pool| + 1)
  }

  /** A decimal literal read by the host: `None` where it throws. */
  type Reader = string -> Option<real>

  function EmitOne(read: Reader, labels: Labels, instr: Instruction, out: Output): (r: Result<Output, EmitError>)
    requires instr.Instruction? && |out.floats| < 0x7FFF_FFFF && |out.symbols| < 0x7FFF_FFFF
    ensures r.Ok? ==>
              && |r.value.insns| == |out.insns| + 1
              && out.floats <= r.value.floats && |r.value.floats| <= |out.floats| + 1
              && out.symbols <= r.value.symbols && |r.value.symbols| <= |out.symbols| + 1
  {
    var insn := Emitted(MapOpcode(instr.op, instr.primitive, instr.booleanResult, instr.relation),
                        FieldA(labels, instr.operands), FieldB(labels, instr.operands),
                        FieldC(labels, instr.operands), instr.literal);
    match instr.text
    case None => Ok(out.(insns := out.insns + [insn]))
    case Some(text) =>
      match instr.literal
      case FloatLiteral =>
        (match read(text)
         case None => Err(MalformedNumber)
         case Some(x) => Ok(out.(insns := out.insns + [insn.(b := |out.floats| + 1)], floats := out.floats + [x])))
      case SymbolLiteral =>
        var (symbols, i) := EnsureSymbol(out.symbols, text);
        Ok(out.(insns := out.insns + [insn.(b := i)], symbols := symbols))
      case _ => Err(UnsupportedTextLiteral)
  }

  function CodePass(read: Reader, labels: Labels, ir: Ir, n: nat): (r: Result<Output, EmitError>)
    requires n <= |ir|
    ensures r.Ok? ==> |r.value.insns| <= n && |r.value.floats| <= n && |r.value.symbols| <= n
  {
    if n == 0 then Ok(Output([], [], []))
    else match CodePass(read, labels, ir, n - 1)
      case Err(e) => Err(e)
      case Ok(out) => if ir[n - 1].LabelAt? then Ok(out) else EmitOne(read, labels, ir[n - 1], out)
  }

  /** `BinaryEmitter::emit`. */
  function Emit(read: Reader, ir: Ir): Result<Output, EmitError> {
    CodePass(read, LabelPass(ir, |ir|).0, ir, |ir|)
  }

  // ---------- what the passes compute

  /** The address of a position: how many instructions come before it. */
  function AddressAt(ir: Ir, p: nat): (n: nat)
    requires p <= |ir|
    ensures n <= p
  {
    if p == 0 then 0 else AddressAt(ir, p - 1) + if ir[p - 1].LabelAt? then 0 else 1
  }

  /** The last of the first `n` positions where a label stands. */
  function Definition(ir: Ir, id: Int32, n: nat): (r: Option<nat>)
    requires n <= |ir|
    ensures r.Some? ==>
              && r.value < n && ir[r.value] == LabelAt(id)
              && forall q :: r.value < q < n ==> ir[q] != LabelAt(id)
    ensures r.None? ==> forall q :: 0 <= q < n ==> ir[q] != LabelAt(id)
  {
    if n == 0 then None
    else if ir[n - 1] == LabelAt(id) then Some(n - 1)
    else Definition(ir, id, n - 1)
  }

  /** The first pass maps each label to the address where it stands last, and nothing else. */
  lemma {:induction false} LabelsAreAddresses(ir: Ir, n: nat, id: Int32)
    requires n <= |ir|
    ensures var (labels, address) := LabelPass(ir, n);
            && address == AddressAt(ir, n)
            && (id in labels <==> Definition(ir, id, n).Some?)
            && (id in labels ==> labels[id] == AddressAt(ir, Definition(ir, id, n).value))
  {
    if n > 0 {
      LabelsAreAddresses(ir, n - 1, id);
    }
  }

  lemma {:induction false} AddressesGrow(ir: Ir, p: nat, q: nat)
    requires p <= q <= |ir|
    ensures AddressAt(ir, p) <= AddressAt(ir, q)
    ensures p < q && !ir[p].LabelAt? ==> AddressAt(ir, p) < AddressAt(ir, q)
    decreases q
  {
    if p < q {
      AddressesGrow(ir, p, q - 1);
    }
  }

  /** The distinct symbol texts of the first `n` instructions, in order of appearance. */
  function Symbols(ir: Ir, n: nat): (s: seq<string>)
    requires n <= |ir|
    ensures |s| <= n
  {
    if n == 0 then []
    else if IsSymbol(ir[n - 1]) then EnsureSymbol(Symbols(ir, n - 1), ir[n - 1].text.value).0
    else Symbols(ir, n - 1)
  }

  function FloatsBefore(ir: Ir, n: nat): (k: nat)
    requires n <= |ir|
    ensures k <= n
  {
    if n == 0 then 0 else FloatsBefore(ir, n - 1) + if IsFloat(ir[n - 1]) then 1 else 0
  }

  predicate IsSymbol(instr: Instruction) {
    instr.Instruction? && instr.text.Some? && instr.literal == SymbolLiteral
  }

  predicate IsFloat(instr: Instruction) {
    instr.Instruction? && instr.text.Some? && instr.literal == FloatLiteral
  }

  predicate Distinct(pool: seq<string>) {
    forall i, j :: 0 <= i < j < |pool| ==> pool[i] != pool[j]
  }

  lemma {:induction false} IndexInDistinct(pool: seq<string>, i: nat)
    requires Distinct(pool) && i < |pool|
    ensures IndexOf(pool, pool[i]) == i + 1
  {
    if i < |pool| - 1 {
      IndexInDistinct(pool[..|pool| - 1], i);
    }
  }

  lemma {:induction false} SymbolsDistinct(ir: Ir, n: nat)
    requires n <= |ir|
    ensures Distinct(Symbols(ir, n))
  {
    if n > 0 {
      SymbolsDistinct(ir, n - 1);
    }
  }

  lemma {:induction false} SymbolsGrow(ir: Ir, m: nat, n: nat)
    requires m <= n <= |ir|
    ensures Symbols(ir, m) <= Symbols(ir, n)
    decreases n
  {
    if m < n {
      SymbolsGrow(ir, m, n - 1);
    }
  }

  /** The value of an operand, for a program read as a whole: a label is the address of
      the place it names. */
  function Resolved(ir: Ir, operand: Operand): Word {
    match operand
    case Register(index) => index
    case Immediate(value) => value
    case Label(id) =>
      match Definition(ir, id, |ir|)
      case Some(q) => AddressAt(ir, q)
      case None => 0
  }

  /** The instruction at position `p`, read from the whole program: a symbol is its rank
      among the distinct texts, a decimal literal its rank among the literals. */
  function Lowered(ir: Ir, p: nat): Emitted
    requires p < |ir| && ir[p].Instruction?
  {
    var i := ir[p];
    var o := i.operands;
    var b: Word :=
      if IsSymbol(i) then IndexOf(Symbols(ir, |ir|), i.text.value)
      else if IsFloat(i) then FloatsBefore(ir, p) + 1
      else if |o| > 1 then Resolved(ir, o[1]) else 0;
    Emitted(MapOpcode(i.op, i.primitive, i.booleanResult, i.relation),
            if |o| > 0 then Narrow(Resolved(ir, o[0])) else 0,
            b,
            if |o| > 2 && !o[2].Label? then Narrow(Resolved(ir, o[2])) else 0,
            i.literal)
  }

  /** What the second pass has built after `n` instructions. */
  ghost predicate Built(read: Reader, ir: Ir, n: nat, out: Output)
    requires n <= |ir|
  {
    && |out.insns| == AddressAt(ir, n)
    && |out.floats| == FloatsBefore(ir, n)
    && out.symbols == Symbols(ir, n)
    && (forall p :: 0 <= p < n && ir[p].Instruction? ==>
          AddressAt(ir, p) < |out.insns| && out.insns[AddressAt(ir, p)] == Lowered(ir, p))
    && (forall p :: 0 <= p < n && IsFloat(ir[p]) ==>
          FloatsBefore(ir, p) < |out.floats| && read(ir[p].text.value) == Some(out.floats[FloatsBefore(ir, p)]))
  }

  lemma {:induction false} FloatsGrow(ir: Ir, p: nat, q: nat)
    requires p <= q <= |ir|
    ensures FloatsBefore(ir, p) <= FloatsBefore(ir, q)
    ensures p < q && IsFloat(ir[p]) ==> FloatsBefore(ir, p) < FloatsBefore(ir, q)
    decreases q
  {
    if p < q {
      FloatsGrow(ir, p, q - 1);
    }
  }

  lemma OperandsResolve(ir: Ir, operand: Operand)
    ensures OperandWord(LabelPass(ir, |ir|).0, operand) == Resolved(ir, operand)
  {
    if operand.Label? {
      LabelsAreAddresses(ir, |ir|, operand.id);
    }
  }

  lemma EmitOneLowers(read: Reader, ir: Ir, n: nat, out: Output)
    requires n < |ir| && ir[n].Instruction?
    requires |out.insns| <= n && |out.floats| == FloatsBefore(ir, n) && out.symbols == Symbols(ir, n)
    ensures var r := EmitOne(read, LabelPass(ir, |ir|).0, ir[n], out);
            r.Ok? ==>
              && r.value.insns == out.insns + [Lowered(ir, n)]
              && r.value.symbols == Symbols(ir, n + 1)
              && (if IsFloat(ir[n]) then
                  read(ir[n].text.value).Some? && r.value.floats == out.floats + [read(ir[n].text.value).value]
                  else r.value.floats == out.floats)
  {
    hide LabelPass, Resolved, OperandWord, IndexOf, MapOpcode;
    FieldsResolve(ir, ir[n].operands);
    if IsSymbol(ir[n]) {
      SymbolIsRanked(ir, n);
    }
  }

  lemma FieldsResolve(ir: Ir, o: seq<Operand>)
    ensures var labels := LabelPass(ir, |ir|).0;
            && FieldA(labels, o) == (if |o| > 0 then Narrow(Resolved(ir, o[0])) else 0)
            && FieldB(labels, o) == (if |o| > 1 then Resolved(ir, o[1]) else 0)
            && FieldC(labels, o) == (if |o| > 2 && !o[2].Label? then Narrow(Resolved(ir, o[2])) else 0)
  {
    hide LabelPass, Resolved, OperandWord, Narrow;
    if |o| > 0 { OperandsResolve(ir, o[0]); }
    if |o| > 1 { OperandsResolve(ir, o[1]); }
    if |o| > 2 { OperandsResolve(ir, o[2]); }
  }

  /** The index a text gets when it is first seen is its rank at the end. */
  lemma SymbolIsRanked(ir: Ir, n: nat)
    requires n < |ir| && IsSymbol(ir[n])
    ensures var (symbols, i) := EnsureSymbol(Symbols(ir, n), ir[n].text.value);
            symbols == Symbols(ir, n + 1) && i == IndexOf(Symbols(ir, |ir|), ir[n].text.value)
  {
    var (symbols, i) := EnsureSymbol(Symbols(ir, n), ir[n].text.value);
    assert symbols == Symbols(ir, n + 1);
    hide Symbols, EnsureSymbol, IndexOf;
    SymbolsGrow(ir, n + 1, |ir|);
    SymbolsDistinct(ir, |ir|);
    IndexInDistinct(Symbols(ir, |ir|), i - 1);
  }

  lemma {:induction false} CodePassBuilds(read: Reader, ir: Ir, n: nat)
    requires n <= |ir|
    ensures var r := CodePass(read, LabelPass(ir, |ir|).0, ir, n); r.Ok? ==> Built(read, ir, n, r.value)
  {
    hide LabelPass, Lowered, EmitOne, Symbols;
    if n > 0 {
      CodePassBuilds(read, ir, n - 1);
      var labels := LabelPass(ir, |ir|).0;
      var r0 := CodePass(read, labels, ir, n - 1);
      var r := CodePass(read, labels, ir, n);
      if r.Ok? {
        assert r0.Ok?;
        BuiltGrows(read, ir, n, r0.value, r.value);
      }
    } else {
      assert Symbols(ir, 0) == [] by { NoSymbols(ir); }
    }
  }

  lemma NoSymbols(ir: Ir)
    ensures Symbols(ir, 0) == []
  {
  }

  lemma NextCounts(ir: Ir, n: nat)
    requires 0 < n <= |ir|
    ensures AddressAt(ir, n) == AddressAt(ir, n - 1) + if ir[n - 1].LabelAt? then 0 else 1
    ensures FloatsBefore(ir, n) == FloatsBefore(ir, n - 1) + if IsFloat(ir[n - 1]) then 1 else 0
  {
  }

  lemma SymbolsSkip(ir: Ir, n: nat)
    requires 0 < n <= |ir| && ir[n - 1].LabelAt?
    ensures Symbols(ir, n) == Symbols(ir, n - 1)
  {
  }

  lemma BuiltGrows(read: Reader, ir: Ir, n: nat, out: Output, out': Output)
    requires 0 < n <= |ir| && Built(read, ir, n - 1, out) && |out.floats| < 0x7FFF_FFFF && |out.symbols| < 0x7FFF_FFFF
    requires if ir[n - 1].LabelAt? then out' == out
             else EmitOne(read, LabelPass(ir, |ir|).0, ir[n - 1], out) == Ok(out')
    ensures Built(read, ir, n, out')
  {
    hide LabelPass, Lowered, EmitOne, Symbols, AddressAt, FloatsBefore;
    NextCounts(ir, n);
    if ir[n - 1].LabelAt? {
      SymbolsSkip(ir, n);
    } else {
      EmitOneLowers(read, ir, n - 1, out);
    }
    forall p | 0 <= p < n && ir[p].Instruction?
      ensures AddressAt(ir, p) < AddressAt(ir, n) && out'.insns[AddressAt(ir, p)] == Lowered(ir, p)
    {
      AddressesGrow(ir, p, n - 1);
      AddressesGrow(ir, p, n);
    }
    forall p | 0 <= p < n && IsFloat(ir[p])
      ensures FloatsBefore(ir, p) < FloatsBefore(ir, n) &&
              read(ir[p].text.value) == Some(out'.floats[FloatsBefore(ir, p)])
    {
      FloatsGrow(ir, p, n - 1);
      FloatsGrow(ir, p, n);
    }
  }

  /** Two passes over the text and one reading of the whole agree: the emitted program has
      one instruction per instruction of the source, at its address, with every label
      resolved to the address where the label stands, every symbol to its rank among the
      distinct texts and every decimal literal to its rank among the literals. */
  lemma EmitLowers(read: Reader, ir: Ir)
    requires Emit(read, ir).Ok?
    ensures Built(read, ir, |ir|, Emit(read, ir).value)
  {
    CodePassBuilds(read, ir, |ir|);
  }

  /** A symbol handle names its text, and equal handles mean equal texts. */
  lemma SymbolHandles(ir: Ir, p: nat, q: nat)
    requires p < |ir| && q < |ir| && IsSymbol(ir[p]) && IsSymbol(ir[q])
    ensures ir[p].Instruction? && ir[p].text.Some? && ir[q].Instruction?
    ensures 0 < Lowered(ir, p).b <= |Symbols(ir, |ir|)|
    ensures Symbols(ir, |ir|)[Lowered(ir, p).b - 1] == ir[p].text.value
    ensures Lowered(ir, p).b == Lowered(ir, q).b <==> ir[p].text == ir[q].text
  {
    hide Lowered, Symbols, IndexOf;
    SymbolRank(ir, p);
    SymbolRank(ir, q);
  }

  lemma SymbolRank(ir: Ir, p: nat)
    requires p < |ir| && IsSymbol(ir[p])
    ensures ir[p].Instruction? && ir[p].text.Some?
    ensures 0 < Lowered(ir, p).b <= |Symbols(ir, |ir|)|
    ensures Lowered(ir, p).b == IndexOf(Symbols(ir, |ir|), ir[p].text.value)
    ensures Symbols(ir, |ir|)[Lowered(ir, p).b - 1] == ir[p].text.value
  {
    hide Symbols;
    SymbolPresent(ir, p);
  }

  lemma SymbolPresent(ir: Ir, p: nat)
    requires p < |ir| && IsSymbol(ir[p])
    ensures ir[p].text.value in Symbols(ir, |ir|)
  {
    SymbolsGrow(ir, p + 1, |ir|);
    var (symbols, i) := EnsureSymbol(Symbols(ir, p), ir[p].text.value);
    assert symbols[i - 1] in Symbols(ir, |ir|);
  }

  /** Emission fails exactly on a text that is neither a symbol nor a decimal literal the
      host can read. */
  lemma {:induction false} EmitFailsIff(read: Reader, ir: Ir, n: nat)
    requires n <= |ir|
    ensures CodePass(read, LabelPass(ir, |ir|).0, ir, n).Err? <==>
            exists p :: 0 <= p < n && Unreadable(read, ir[p])
  {
    hide LabelPass;
    if n > 0 {
      EmitFailsIff(read, ir, n - 1);
    }
  }

  predicate Unreadable(read: Reader, instr: Instruction) {
    && instr.Instruction? && instr.text.Some? && instr.literal != SymbolLiteral
    && (instr.literal == FloatLiteral ==> read(instr.text.value).None?)
  }

  // ---------- the emitter as it runs

  /** The index of symbols mirrors the pool. */
  ghost predicate Indexed(pool: seq<string>, indices: map<string, nat>) {
    forall text :: if text in indices then indices[text] == IndexOf(pool, text) > 0 else IndexOf(pool, text) == 0
  }

  lemma AppendIndex(pool: seq<string>, text: string)
    requires IndexOf(pool, text) == 0
    ensures IndexOf(pool + [text], text) == |pool| + 1
    ensures forall other :: other != text ==> IndexOf(pool + [text], other) == IndexOf(pool, other)
  {
    assert (pool + [text])[..|pool|] == pool;
  }

  method EnsureSymbolIn(pool: seq<string>, indices: map<string, nat>, text: string)
    returns (pool': seq<string>, indices': map<string, nat>, index: nat)
    requires Indexed(pool, indices)
    ensures (pool', index) == EnsureSymbol(pool, text) && Indexed(pool', indices')
  {
    if text in indices {
      return pool, indices, indices[text];
    }
    AppendIndex(pool, text);
    pool' := pool + [text];
    index := |pool'|;
    indices' := indices[text := index];
  }

  method CollectLabels(ir: Ir) returns (labels: Labels)
    ensures labels == LabelPass(ir, |ir|).0
  {
    labels := map[];
    var address := 0;
    for i := 0 to |ir|
      invariant (labels, address) == LabelPass(ir, i)
    {
      match ir[i]
      case LabelAt(id) => labels := labels[id := address];
      case _ => address := address + 1;
    }
  }

  method EmitInstruction(read: Reader, labels: Labels, instr: Instruction, out: Output, indices: map<string, nat>)
    returns (r: Result<Output, EmitError>, indices': map<string, nat>)
    requires instr.Instruction? && |out.floats| < 0x7FFF_FFFF && |out.symbols| < 0x7FFF_FFFF
    requires Indexed(out.symbols, indices)
    ensures r == EmitOne(read, labels, instr, out)
    ensures r.Ok? ==> Indexed(r.value.symbols, indices')
  {
    hide FieldA, FieldB, FieldC, MapOpcode, Indexed;
    var Output(insns, floats, symbols) := out;
    indices' := indices;
    var insn := Emitted(MapOpcode(instr.op, instr.primitive, instr.booleanResult, instr.relation),
                        FieldA(labels, instr.operands), FieldB(labels, instr.operands),
                        FieldC(labels, instr.operands), instr.literal);
    if instr.text.Some? {
      if instr.literal == FloatLiteral {
        var parsed := read(instr.text.value);
        if parsed.None? {
          return Err(MalformedNumber), indices;
        }
        floats := floats + [parsed.value];
        insn := insn.(b := |floats|);
      } else if instr.literal == SymbolLiteral {
        var index;
        symbols, indices', index := EnsureSymbolIn(symbols, indices, instr.text.value);
        insn := insn.(b := index);
      } else {
        return Err(UnsupportedTextLiteral), indices;
      }
    }
    r := Ok(Output(insns + [insn], floats, symbols));
  }

  method EmitProgram(read: Reader, ir: Ir) returns (program: Result<Output, EmitError>)
    ensures program == Emit(read, ir)
  {
    hide EmitOne, Indexed;
    var labels := CollectLabels(ir);
    var out := Output([], [], []);
    var indices := map[];
    NothingIndexed();
    for i := 0 to |ir|
      invariant CodePass(read, labels, ir, i) == Ok(out)
      invariant Indexed(out.symbols, indices)
    {
      if ir[i].Instruction? {
        var r;
        r, indices := EmitInstruction(read, labels, ir[i], out, indices);
        if r.Err? {
          FailureStays(read, labels, ir, i + 1, |ir|);
          return r;
        }
        out := r.value;
      }
    }
    program := Ok(out);
  }

  lemma NothingIndexed()
    ensures Indexed([], map[])
  {
  }

  lemma {:induction false} FailureStays(read: Reader, labels: Labels, ir: Ir, m: nat, n: nat)
    requires m <= n <= |ir| && CodePass(read, labels, ir, m).Err?
    ensures CodePass(read, labels, ir, n) == CodePass(read, labels, ir, m)
    decreases n
  {
    if m < n {
      FailureStays(read, labels, ir, m, n - 1);
    }
  }
}
