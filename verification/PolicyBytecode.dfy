/** The policy compiler and its byte-code machine: clauses become instructions with
    little-endian operands and indices into a symbol table. */
module PolicyBytecode {
  import opened Bytes
  import opened Wrappers
  import opened AxionPolicy

  datatype LimitKind = Instructions | Stack | Recursion | Reflections | MetaWrites

  datatype Instr =
    | CheckTier(tier: U32)
    | Limit(kind: LimitKind, limit: U64)
    | RequireLoop(id: U32, file: U32, line: U32, column: U32, infinite: Byte, bound: U64)
    | RequireMatchGuard(enumName: U32, variantName: U32, payload: U32, result: U32)
    | RequireSegmentEvent(segment: U32, action: U32, hasAddr: Byte, addr: U64)
    | RequireAxionEvent(reason: U32)
    | RequireAlignment(reason: U32)
    | Return

  const NO_PAYLOAD: U32 := 0xFFFF_FFFF

  function LimitCode(kind: LimitKind): Byte {
    match kind
    case Instructions => 0x02
    case Stack => 0x03
    case Recursion => 0x04
    case Reflections => 0x0A
    case MetaWrites => 0x0B
  }

  function Encode(i: Instr): (b: seq<Byte>)
    ensures b != []
  {
    match i
    case CheckTier(tier) => [0x01] + U32Bytes(tier)
    case Limit(kind, limit) => [LimitCode(kind)] + U64Bytes(limit)
    case RequireLoop(id, file, line, column, infinite, bound) =>
      [0x05] + (U32Bytes(id) +
                (U32Bytes(file) + (U32Bytes(line) + (U32Bytes(column) + ([infinite] + U64Bytes(bound))))))
    case RequireMatchGuard(enumName, variantName, payload, result) =>
      [0x06] + (U32Bytes(enumName) + (U32Bytes(variantName) + (U32Bytes(payload) + U32Bytes(result))))
    case RequireSegmentEvent(segment, action, hasAddr, addr) =>
      [0x07] + (U32Bytes(segment) + (U32Bytes(action) + ([hasAddr] + U64Bytes(addr))))
    case RequireAxionEvent(reason) => [0x08] + U32Bytes(reason)
    case RequireAlignment(reason) => [0x09] + U32Bytes(reason)
    case Return => [0xFF]
  }

  function EncodeAll(code: seq<Instr>): (b: seq<Byte>) {
    if code == [] then [] else EncodeAll(code[..|code| - 1]) + Encode(code[|code| - 1])
  }

  // ---------- the machine

  datatype Fetched = Fetched(instr: Instr, size: nat) | UnknownOp | PastEnd

  /** Decoding at the front of a non-empty stretch of code: the operation, then as many
      operand bytes as it takes. */
  function Fetch(b: seq<Byte>): (f: Fetched)
    requires b != []
    ensures f.Fetched? ==> 0 < f.size <= |b|
  {
    var op, n := b[0], |b|;
    if op == 0x01 then if n < 5 then PastEnd else Fetched(CheckTier(ReadU32(b[1..])), 5)
    else if op == 0x02 then if n < 9 then PastEnd else Fetched(Limit(Instructions, ReadU64(b[1..])), 9)
    else if op == 0x0A then if n < 9 then PastEnd else Fetched(Limit(Reflections, ReadU64(b[1..])), 9)
    else if op == 0x0B then if n < 9 then PastEnd else Fetched(Limit(MetaWrites, ReadU64(b[1..])), 9)
    else if op == 0x03 then if n < 9 then PastEnd else Fetched(Limit(Stack, ReadU64(b[1..])), 9)
    else if op == 0x04 then if n < 9 then PastEnd else Fetched(Limit(Recursion, ReadU64(b[1..])), 9)
    else if op == 0x05 then
      if n < 26 then PastEnd
      else Fetched(RequireLoop(ReadU32(b[1..]), ReadU32(b[5..]), ReadU32(b[9..]), ReadU32(b[13..]), b[17],
                               ReadU64(b[18..])), 26)
    else if op == 0x06 then
      if n < 17 then PastEnd
      else Fetched(RequireMatchGuard(ReadU32(b[1..]), ReadU32(b[5..]), ReadU32(b[9..]), ReadU32(b[13..])), 17)
    else if op == 0x07 then
      if n < 18 then PastEnd
      else Fetched(RequireSegmentEvent(ReadU32(b[1..]), ReadU32(b[5..]), b[9], ReadU64(b[10..])), 18)
    else if op == 0x08 then if n < 5 then PastEnd else Fetched(RequireAxionEvent(ReadU32(b[1..])), 5)
    else if op == 0x09 then if n < 5 then PastEnd else Fetched(RequireAlignment(ReadU32(b[1..])), 5)
    else if op == 0xFF then Fetched(Return, 1)
    else UnknownOp
  }

  function Symbol(symbols: seq<Text>, index: U32): Text {
    if index < |symbols| then symbols[index] else []
  }

  function Count(kind: LimitKind, ctx: SyscallContext): U64 {
    match kind
    case Instructions => ctx.instructionCount
    case Stack => ctx.stackUsage
    case Recursion => ctx.recursionDepth
    case Reflections => ctx.reflectionCount
    case MetaWrites => ctx.metaWriteCount
  }

  /** The guard an instruction stands for. */
  function GuardOf(symbols: seq<Text>, enumName: U32, variantName: U32, payload: U32, result: U32): MatchGuard {
    MatchGuard(Symbol(symbols, enumName), Symbol(symbols, variantName),
               if payload != NO_PAYLOAD then Some(Symbol(symbols, payload)) else None,
               Symbol(symbols, result))
  }

  function SegmentOf(symbols: seq<Text>, segment: U32, action: U32, hasAddr: Byte, addr: U64): SegmentEvent {
    SegmentEvent(Symbol(symbols, segment), Symbol(symbols, action),
                 if hasAddr != 0 then Some(ToInt64(addr)) else None)
  }

  predicate Denies(i: Instr, symbols: seq<Text>, ctx: SyscallContext) {
    match i
    case CheckTier(tier) => ToU32(ctx.currentTier) < tier
    case Limit(kind, limit) => Count(kind, ctx) > limit
    case RequireLoop(_, file, line, column, infinite, bound) =>
      !Logged(ctx.trace, LoopText(Symbol(symbols, file), line, column,
                                  if infinite != 0 then "infinite" else Decimal(bound)))
    case RequireMatchGuard(enumName, variantName, payload, result) =>
      ctx.next == HaltNext && !GuardLogged(ctx.trace, GuardOf(symbols, enumName, variantName, payload, result))
    case RequireSegmentEvent(segment, action, hasAddr, addr) =>
      ctx.next == HaltNext && !SegmentLogged(ctx.trace, SegmentOf(symbols, segment, action, hasAddr, addr))
    case RequireAxionEvent(reason) => ctx.next == HaltNext && !Logged(ctx.trace, Symbol(symbols, reason))
    case RequireAlignment(reason) => ctx.next == HaltNext && !AlignmentLogged(ctx.trace, Symbol(symbols, reason))
    case Return => false
  }

  datatype Execution = Halted(verdict: Verdict) | ReadPastEnd

  /** `execute_bytecode` from the first byte of `code` on. */
  function Execute(code: seq<Byte>, symbols: seq<Text>, ctx: SyscallContext): Execution {
    if code == [] then Halted(Allow)
    else match Fetch(code)
      case UnknownOp => Halted(Deny)
      case PastEnd => ReadPastEnd
      case Fetched(instr, size) =>
        if Denies(instr, symbols, ctx) then Halted(Deny)
        else if instr.Return? then Halted(Allow)
        else Execute(code[size..], symbols, ctx)
  }

  /** What lies behind a piece of the code. */
  lemma Behind(b: seq<Byte>, i: nat, piece: seq<Byte>, tail: seq<Byte>)
    requires i <= |b| && b[i..] == piece + tail
    ensures i + |piece| <= |b| && b[i + |piece|..] == tail
  {
    assert b[i + |piece|..] == b[i..][|piece|..];
  }

  lemma AppendInside(a: seq<Byte>, b: seq<Byte>, c: seq<Byte>)
    ensures (a + b) + c == a + (b + c)
  {
  }

  /** The operands of a loop requirement, each with what comes after it. */
  lemma LoopLayout(i: Instr, rest: seq<Byte>)
    requires i.RequireLoop?
    ensures var b := Encode(i) + rest;
            && |b| >= 26 && b[0] == 0x05 && |Encode(i)| == 26
            && b[1..] == U32Bytes(i.id) + b[5..] && b[5..] == U32Bytes(i.file) + b[9..]
            && b[9..] == U32Bytes(i.line) + b[13..] && b[13..] == U32Bytes(i.column) + b[17..]
            && b[17] == i.infinite && b[18..] == U64Bytes(i.bound) + rest
  {
    hide U32Bytes, U64Bytes;
    var b := Encode(i) + rest;
    var a18, a17 := U64Bytes(i.bound), [i.infinite] + U64Bytes(i.bound);
    var a13 := U32Bytes(i.column) + a17;
    var a9 := U32Bytes(i.line) + a13;
    var a5 := U32Bytes(i.file) + a9;
    var a1 := U32Bytes(i.id) + a5;
    AppendInside([0x05], a1, rest);
    AppendInside(U32Bytes(i.id), a5, rest);
    AppendInside(U32Bytes(i.file), a9, rest);
    AppendInside(U32Bytes(i.line), a13, rest);
    AppendInside(U32Bytes(i.column), a17, rest);
    AppendInside([i.infinite], a18, rest);
    assert b[0..] == b;
    Behind(b, 0, [0x05], a1 + rest);
    Behind(b, 1, U32Bytes(i.id), a5 + rest);
    Behind(b, 5, U32Bytes(i.file), a9 + rest);
    Behind(b, 9, U32Bytes(i.line), a13 + rest);
    Behind(b, 13, U32Bytes(i.column), a17 + rest);
    Behind(b, 17, [i.infinite], a18 + rest);
    assert b[17] == b[17..][0];
  }

  lemma LoopFetched(i: Instr, rest: seq<Byte>)
    requires i.RequireLoop?
    ensures Encode(i) + rest != []
    ensures Fetch(Encode(i) + rest) == Fetched(i, |Encode(i)|)
  {
    hide ReadU32, ReadU64, U32Bytes, U64Bytes, Encode;
    var b := Encode(i) + rest;
    LoopLayout(i, rest);
    ReadU32Inverts(i.id, b[5..]);
    ReadU32Inverts(i.file, b[9..]);
    ReadU32Inverts(i.line, b[13..]);
    ReadU32Inverts(i.column, b[17..]);
    ReadU64Inverts(i.bound, rest);
  }

  lemma GuardLayout(i: Instr, rest: seq<Byte>)
    requires i.RequireMatchGuard?
    ensures var b := Encode(i) + rest;
            && |b| >= 17 && b[0] == 0x06 && |Encode(i)| == 17
            && b[1..] == U32Bytes(i.enumName) + b[5..] && b[5..] == U32Bytes(i.variantName) + b[9..]
            && b[9..] == U32Bytes(i.payload) + b[13..] && b[13..] == U32Bytes(i.result) + rest
  {
    hide U32Bytes;
    var b := Encode(i) + rest;
    var a9 := U32Bytes(i.payload) + U32Bytes(i.result);
    var a5 := U32Bytes(i.variantName) + a9;
    var a1 := U32Bytes(i.enumName) + a5;
    AppendInside([0x06], a1, rest);
    AppendInside(U32Bytes(i.enumName), a5, rest);
    AppendInside(U32Bytes(i.variantName), a9, rest);
    AppendInside(U32Bytes(i.payload), U32Bytes(i.result), rest);
    assert b[0..] == b;
    Behind(b, 0, [0x06], a1 + rest);
    Behind(b, 1, U32Bytes(i.enumName), a5 + rest);
    Behind(b, 5, U32Bytes(i.variantName), a9 + rest);
    Behind(b, 9, U32Bytes(i.payload), U32Bytes(i.result) + rest);
  }

  lemma GuardFetched(i: Instr, rest: seq<Byte>)
    requires i.RequireMatchGuard?
    ensures Encode(i) + rest != []
    ensures Fetch(Encode(i) + rest) == Fetched(i, |Encode(i)|)
  {
    hide ReadU32, ReadU64, U32Bytes, U64Bytes, Encode;
    var b := Encode(i) + rest;
    GuardLayout(i, rest);
    ReadU32Inverts(i.enumName, b[5..]);
    ReadU32Inverts(i.variantName, b[9..]);
    ReadU32Inverts(i.payload, b[13..]);
    ReadU32Inverts(i.result, rest);
  }

  lemma SegmentLayout(i: Instr, rest: seq<Byte>)
    requires i.RequireSegmentEvent?
    ensures var b := Encode(i) + rest;
            && |b| >= 18 && b[0] == 0x07 && |Encode(i)| == 18
            && b[1..] == U32Bytes(i.segment) + b[5..] && b[5..] == U32Bytes(i.action) + b[9..]
            && b[9] == i.hasAddr && b[10..] == U64Bytes(i.addr) + rest
  {
    hide U32Bytes, U64Bytes;
    var b := Encode(i) + rest;
    var a9 := [i.hasAddr] + U64Bytes(i.addr);
    var a5 := U32Bytes(i.action) + a9;
    var a1 := U32Bytes(i.segment) + a5;
    AppendInside([0x07], a1, rest);
    AppendInside(U32Bytes(i.segment), a5, rest);
    AppendInside(U32Bytes(i.action), a9, rest);
    AppendInside([i.hasAddr], U64Bytes(i.addr), rest);
    assert b[0..] == b;
    Behind(b, 0, [0x07], a1 + rest);
    Behind(b, 1, U32Bytes(i.segment), a5 + rest);
    Behind(b, 5, U32Bytes(i.action), a9 + rest);
    Behind(b, 9, [i.hasAddr], U64Bytes(i.addr) + rest);
    assert b[9] == b[9..][0];
  }

  lemma SegmentFetched(i: Instr, rest: seq<Byte>)
    requires i.RequireSegmentEvent?
    ensures Encode(i) + rest != []
    ensures Fetch(Encode(i) + rest) == Fetched(i, |Encode(i)|)
  {
    hide ReadU32, ReadU64, U32Bytes, U64Bytes, Encode;
    var b := Encode(i) + rest;
    SegmentLayout(i, rest);
    ReadU32Inverts(i.segment, b[5..]);
    ReadU32Inverts(i.action, b[9..]);
    ReadU64Inverts(i.addr, rest);
  }

  lemma ShortFetched(i: Instr, rest: seq<Byte>)
    requires !i.RequireLoop? && !i.RequireMatchGuard? && !i.RequireSegmentEvent?
    ensures Encode(i) + rest != []
    ensures Fetch(Encode(i) + rest) == Fetched(i, |Encode(i)|)
  {
    hide ReadU32, ReadU64, U32Bytes, U64Bytes;
    var b := Encode(i) + rest;
    if i.Limit? {
      assert b[1..] == U64Bytes(i.limit) + rest;
      ReadU64Inverts(i.limit, rest);
    } else if i.CheckTier? {
      assert b[1..] == U32Bytes(i.tier) + rest;
      ReadU32Inverts(i.tier, rest);
    } else if !i.Return? {
      assert b[1..] == U32Bytes(i.reason) + rest;
      ReadU32Inverts(i.reason, rest);
    }
  }

  /** Decoding undoes encoding, whatever follows. */
  lemma FetchInvertsEncode(i: Instr, rest: seq<Byte>)
    ensures Encode(i) + rest != []
    ensures Fetch(Encode(i) + rest) == Fetched(i, |Encode(i)|)
    ensures (Encode(i) + rest)[|Encode(i)|..] == rest
  {
    hide Encode, Fetch;
    if i.RequireLoop? {
      LoopFetched(i, rest);
    } else if i.RequireMatchGuard? {
      GuardFetched(i, rest);
    } else if i.RequireSegmentEvent? {
      SegmentFetched(i, rest);
    } else {
      ShortFetched(i, rest);
    }
  }

  predicate AnyDenies(code: seq<Instr>, symbols: seq<Text>, ctx: SyscallContext) {
    exists i :: 0 <= i < |code| && Denies(code[i], symbols, ctx)
  }

  lemma {:induction false} EncodeAllFront(i: Instr, code: seq<Instr>)
    ensures EncodeAll([i] + code) == Encode(i) + EncodeAll(code)
  {
    hide Encode;
    var all := [i] + code;
    if code == [] {
      assert all[..|all| - 1] == [];
    } else {
      assert all[..|all| - 1] == [i] + code[..|code| - 1];
      EncodeAllFront(i, code[..|code| - 1]);
    }
  }

  /** Byte code of whole instructions that ends in `Return` runs to its end, reads no
      byte beyond it, and denies exactly when one of its instructions does. */
  lemma {:induction false} ExecuteMeaning(code: seq<Instr>, symbols: seq<Text>, ctx: SyscallContext)
    requires forall i :: 0 <= i < |code| ==> !code[i].Return?
    ensures Execute(EncodeAll(code + [Return]), symbols, ctx)
         == Halted(if AnyDenies(code, symbols, ctx) then Deny else Allow)
  {
    hide Encode, Fetch, Denies;
    if code == [] {
      assert EncodeAll([Return]) == Encode(Return) + [] by { assert [Return][..0] == []; }
      FetchInvertsEncode(Return, []);
      ReturnAllows(symbols, ctx);
    } else {
      var i, rest := code[0], code[1..];
      var all := code + [Return];
      assert all == [i] + (rest + [Return]);
      EncodeAllFront(i, rest + [Return]);
      FetchInvertsEncode(i, EncodeAll(rest + [Return]));
      ExecuteMeaning(rest, symbols, ctx);
      if AnyDenies(rest, symbols, ctx) {
        var k :| 0 <= k < |rest| && Denies(rest[k], symbols, ctx);
        assert Denies(code[k + 1], symbols, ctx);
      }
      if AnyDenies(code, symbols, ctx) && !Denies(i, symbols, ctx) {
        var k :| 0 <= k < |code| && Denies(code[k], symbols, ctx);
        assert Denies(rest[k - 1], symbols, ctx);
      }
    }
  }

  lemma ReturnAllows(symbols: seq<Text>, ctx: SyscallContext)
    ensures !Denies(Return, symbols, ctx)
  {
  }

  // ---------- the compiler

  /** `add_sym`: the index of the first equal symbol, or of a new one. */
  function IndexOf(symbols: seq<Text>, s: Text): (i: nat)
    ensures i <= |symbols| && (i < |symbols| ==> symbols[i] == s) && (i == |symbols| ==> s !in symbols)
  {
    if symbols == [] then 0
    else if symbols[0] == s then 0
    else 1 + IndexOf(symbols[1..], s)
  }

  function AddSymbol(symbols: seq<Text>, s: Text): (seq<Text>, U32) {
    var i := IndexOf(symbols, s);
    (if i < |symbols| then symbols else symbols + [s], ToU32(i))
  }

  function EmitLoop(symbols: seq<Text>, loop: LoopHint): (seq<Text>, Instr) {
    var (symbols1, file) := AddSymbol(symbols, loop.file);
    (symbols1,
     RequireLoop(ToU32(loop.id), file, ToU32(loop.line), ToU32(loop.column), if loop.infinite then 1 else 0,
                 ToU64(match loop.bound case Some(b) => b case None => 0)))
  }

  function EmitGuard(symbols: seq<Text>, g: MatchGuard): (seq<Text>, Instr) {
    var (symbols1, enumName) := AddSymbol(symbols, g.enumName);
    var (symbols2, variantName) := AddSymbol(symbols1, g.variantName);
    var (symbols3, payload) :=
      match g.payload case Some(t) => AddSymbol(symbols2, t) case None => (symbols2, NO_PAYLOAD);
    var (symbols4, result) := AddSymbol(symbols3, g.result);
    (symbols4, RequireMatchGuard(enumName, variantName, payload, result))
  }

  function EmitSegment(symbols: seq<Text>, e: SegmentEvent): (seq<Text>, Instr) {
    var (symbols1, segment) := AddSymbol(symbols, e.segment);
    var (symbols2, action) := AddSymbol(symbols1, e.action);
    (symbols2,
     RequireSegmentEvent(segment, action, if e.addr.Some? then 1 else 0,
                         ToU64(match e.addr case Some(a) => a case None => 0)))
  }

  function EmitEvent(symbols: seq<Text>, reason: Text): (seq<Text>, Instr) {
    var (symbols1, r) := AddSymbol(symbols, reason);
    (symbols1, RequireAxionEvent(r))
  }

  function EmitAlignment(symbols: seq<Text>, reason: Text): (seq<Text>, Instr) {
    var (symbols1, r) := AddSymbol(symbols, reason);
    (symbols1, RequireAlignment(r))
  }

  /** The code emitted so far and the symbols it refers to. */
  datatype Emission = Emission(code: seq<Instr>, symbols: seq<Text>)

  function EmitLoops(e: Emission, loops: seq<LoopHint>): Emission {
    if loops == [] then e
    else
      var prefix := EmitLoops(e, loops[..|loops| - 1]);
      var (symbols, instr) := EmitLoop(prefix.symbols, loops[|loops| - 1]);
      Emission(prefix.code + [instr], symbols)
  }

  function EmitGuards(e: Emission, guards: seq<MatchGuard>): Emission {
    if guards == [] then e
    else
      var prefix := EmitGuards(e, guards[..|guards| - 1]);
      var (symbols, instr) := EmitGuard(prefix.symbols, guards[|guards| - 1]);
      Emission(prefix.code + [instr], symbols)
  }

  function EmitSegments(e: Emission, events: seq<SegmentEvent>): Emission {
    if events == [] then e
    else
      var prefix := EmitSegments(e, events[..|events| - 1]);
      var (symbols, instr) := EmitSegment(prefix.symbols, events[|events| - 1]);
      Emission(prefix.code + [instr], symbols)
  }

  function EmitEvents(e: Emission, reasons: seq<Text>): Emission {
    if reasons == [] then e
    else
      var prefix := EmitEvents(e, reasons[..|reasons| - 1]);
      var (symbols, instr) := EmitEvent(prefix.symbols, reasons[|reasons| - 1]);
      Emission(prefix.code + [instr], symbols)
  }

  function EmitAlignments(e: Emission, reasons: seq<Text>): Emission {
    if reasons == [] then e
    else
      var prefix := EmitAlignments(e, reasons[..|reasons| - 1]);
      var (symbols, instr) := EmitAlignment(prefix.symbols, reasons[|reasons| - 1]);
      Emission(prefix.code + [instr], symbols)
  }

  function EmitLimit(kind: LimitKind, limit: Option<Int64>): seq<Instr> {
    match limit case Some(v) => [Limit(kind, ToU64(v))] case None => []
  }

  function EmitLimits(p: Policy): seq<Instr> {
    [CheckTier(ToU32(p.tier))] + EmitLimit(Instructions, p.maxInstructions) + EmitLimit(Stack, p.maxStack)
    + EmitLimit(Recursion, p.maxRecursion) + EmitLimit(Reflections, p.maxReflections)
    + EmitLimit(MetaWrites, p.maxMetaWrites)
  }

  function EmitClauses(p: Policy): Emission {
    var loops := EmitLoops(Emission(EmitLimits(p), []), p.loops);
    var guards := EmitGuards(loops, p.matchGuards);
    var segments := EmitSegments(guards, p.segmentEvents);
    EmitAlignments(EmitEvents(segments, p.axionEvents), p.alignments)
  }

  /** `compile_to_bytecode`. */
  function Compile(p: Policy): Policy {
    var e := EmitClauses(p);
    p.(bytecode := EncodeAll(e.code + [Return]), symbols := e.symbols)
  }

  // ---------- what the emitted instructions mean

  /** A loop hint prints the same from its clause and from its instruction. */
  predicate Printable(loop: LoopHint) {
    loop.line >= 0 && loop.column >= 0 && (loop.infinite || (loop.bound.Some? && loop.bound.value >= 0))
  }

  /** The reason the compiled requirement waits for: its numbers are unsigned, and a
      missing bound has become zero. */
  function CompiledExpectation(loop: LoopHint): Text {
    LoopText(loop.file, ToU32(loop.line), ToU32(loop.column),
             if loop.infinite then "infinite"
             else Decimal(ToU64(match loop.bound case Some(b) => b case None => 0)))
  }

  lemma AddSymbolExtends(symbols: seq<Text>, s: Text)
    ensures symbols <= AddSymbol(symbols, s).0
  {
  }

  /** The index stays good in every extension of the table that an index can reach. */
  lemma SymbolFound(symbols: seq<Text>, s: Text, final: seq<Text>)
    requires AddSymbol(symbols, s).0 <= final && |final| < NO_PAYLOAD
    ensures Symbol(final, AddSymbol(symbols, s).1) == s
    ensures AddSymbol(symbols, s).1 != NO_PAYLOAD
  {
  }

  lemma LoopMeaning(symbols: seq<Text>, loop: LoopHint, final: seq<Text>, ctx: SyscallContext)
    requires EmitLoop(symbols, loop).0 <= final && |final| < NO_PAYLOAD
    ensures symbols <= EmitLoop(symbols, loop).0
    ensures Denies(EmitLoop(symbols, loop).1, final, ctx) <==> !Logged(ctx.trace, CompiledExpectation(loop))
  {
    hide Logged, LoopText;
    AddSymbolExtends(symbols, loop.file);
    SymbolFound(symbols, loop.file, final);
  }

  lemma GuardMeaning(symbols: seq<Text>, g: MatchGuard, final: seq<Text>, ctx: SyscallContext)
    requires EmitGuard(symbols, g).0 <= final && |final| < NO_PAYLOAD
    ensures symbols <= EmitGuard(symbols, g).0
    ensures Denies(EmitGuard(symbols, g).1, final, ctx) <==> ctx.next == HaltNext && !GuardLogged(ctx.trace, g)
  {
    hide GuardLogged, AddSymbol, Symbol;
    var symbols1 := AddSymbol(symbols, g.enumName).0;
    var symbols2 := AddSymbol(symbols1, g.variantName).0;
    var symbols3 := match g.payload case Some(t) => AddSymbol(symbols2, t).0 case None => symbols2;
    AddSymbolExtends(symbols, g.enumName);
    AddSymbolExtends(symbols1, g.variantName);
    AddSymbolExtends(symbols3, g.result);
    if g.payload.Some? {
      AddSymbolExtends(symbols2, g.payload.value);
      SymbolFound(symbols2, g.payload.value, final);
    }
    SymbolFound(symbols, g.enumName, final);
    SymbolFound(symbols1, g.variantName, final);
    SymbolFound(symbols3, g.result, final);
  }

  lemma SegmentMeaning(symbols: seq<Text>, e: SegmentEvent, final: seq<Text>, ctx: SyscallContext)
    requires EmitSegment(symbols, e).0 <= final && |final| < NO_PAYLOAD
    ensures symbols <= EmitSegment(symbols, e).0
    ensures Denies(EmitSegment(symbols, e).1, final, ctx) <==> ctx.next == HaltNext && !SegmentLogged(ctx.trace, e)
  {
    hide SegmentLogged, AddSymbol, Symbol;
    var symbols1 := AddSymbol(symbols, e.segment).0;
    AddSymbolExtends(symbols, e.segment);
    AddSymbolExtends(symbols1, e.action);
    SymbolFound(symbols, e.segment, final);
    SymbolFound(symbols1, e.action, final);
    if e.addr.Some? {
      CastsInvert(0, e.addr.value);
    }
  }

  lemma EventMeaning(symbols: seq<Text>, reason: Text, final: seq<Text>, ctx: SyscallContext)
    requires |final| < NO_PAYLOAD && AddSymbol(symbols, reason).0 <= final
    ensures symbols <= AddSymbol(symbols, reason).0
    ensures Denies(EmitEvent(symbols, reason).1, final, ctx) <==> ctx.next == HaltNext && !Logged(ctx.trace, reason)
    ensures Denies(EmitAlignment(symbols, reason).1, final, ctx)
       <==> ctx.next == HaltNext && !AlignmentLogged(ctx.trace, reason)
  {
    hide Logged, AlignmentLogged, AddSymbol, Symbol;
    AddSymbolExtends(symbols, reason);
    SymbolFound(symbols, reason, final);
  }

  lemma AnyDeniesAppend(code: seq<Instr>, i: Instr, symbols: seq<Text>, ctx: SyscallContext)
    ensures AnyDenies(code + [i], symbols, ctx) <==> AnyDenies(code, symbols, ctx) || Denies(i, symbols, ctx)
  {
    hide Denies;
    var all := code + [i];
    if Denies(i, symbols, ctx) {
      assert Denies(all[|code|], symbols, ctx);
    }
    if AnyDenies(code, symbols, ctx) {
      var k :| 0 <= k < |code| && Denies(code[k], symbols, ctx);
      assert Denies(all[k], symbols, ctx);
    }
  }

  lemma {:induction false} LoopsMeaning(e: Emission, loops: seq<LoopHint>, final: seq<Text>, ctx: SyscallContext)
    requires EmitLoops(e, loops).symbols <= final && |final| < NO_PAYLOAD
    ensures e.symbols <= EmitLoops(e, loops).symbols
    ensures AnyDenies(EmitLoops(e, loops).code, final, ctx)
       <==> AnyDenies(e.code, final, ctx)
            || exists i :: 0 <= i < |loops| && !Logged(ctx.trace, CompiledExpectation(loops[i]))
  {
    hide Denies, AnyDenies, EmitLoop, Logged, CompiledExpectation;
    if loops != [] {
      var front, last := loops[..|loops| - 1], loops[|loops| - 1];
      var prefix := EmitLoops(e, front);
      LoopMeaning(prefix.symbols, last, final, ctx);
      LoopsMeaning(e, front, final, ctx);
      AnyDeniesAppend(prefix.code, EmitLoop(prefix.symbols, last).1, final, ctx);
      assert forall i :: 0 <= i < |loops| ==> loops[i] == if i < |front| then front[i] else last;
    }
  }

  lemma {:induction false} GuardsMeaning(e: Emission, guards: seq<MatchGuard>, final: seq<Text>, ctx: SyscallContext)
    requires EmitGuards(e, guards).symbols <= final && |final| < NO_PAYLOAD
    ensures e.symbols <= EmitGuards(e, guards).symbols
    ensures AnyDenies(EmitGuards(e, guards).code, final, ctx)
       <==> AnyDenies(e.code, final, ctx)
            || (ctx.next == HaltNext && exists i :: 0 <= i < |guards| && !GuardLogged(ctx.trace, guards[i]))
  {
    hide Denies, AnyDenies, EmitGuard, GuardLogged;
    if guards != [] {
      var front, last := guards[..|guards| - 1], guards[|guards| - 1];
      var prefix := EmitGuards(e, front);
      GuardMeaning(prefix.symbols, last, final, ctx);
      GuardsMeaning(e, front, final, ctx);
      AnyDeniesAppend(prefix.code, EmitGuard(prefix.symbols, last).1, final, ctx);
      assert forall i :: 0 <= i < |guards| ==> guards[i] == if i < |front| then front[i] else last;
    }
  }

  lemma {:induction false} SegmentsMeaning(e: Emission, events: seq<SegmentEvent>, final: seq<Text>,
      ctx: SyscallContext)
    requires EmitSegments(e, events).symbols <= final && |final| < NO_PAYLOAD
    ensures e.symbols <= EmitSegments(e, events).symbols
    ensures AnyDenies(EmitSegments(e, events).code, final, ctx)
       <==> AnyDenies(e.code, final, ctx)
            || (ctx.next == HaltNext && exists i :: 0 <= i < |events| && !SegmentLogged(ctx.trace, events[i]))
  {
    hide Denies, AnyDenies, EmitSegment, SegmentLogged;
    if events != [] {
      var front, last := events[..|events| - 1], events[|events| - 1];
      var prefix := EmitSegments(e, front);
      SegmentMeaning(prefix.symbols, last, final, ctx);
      SegmentsMeaning(e, front, final, ctx);
      AnyDeniesAppend(prefix.code, EmitSegment(prefix.symbols, last).1, final, ctx);
      assert forall i :: 0 <= i < |events| ==> events[i] == if i < |front| then front[i] else last;
    }
  }

  lemma {:induction false} EventsMeaning(e: Emission, reasons: seq<Text>, final: seq<Text>, ctx: SyscallContext)
    requires EmitEvents(e, reasons).symbols <= final && |final| < NO_PAYLOAD
    ensures e.symbols <= EmitEvents(e, reasons).symbols
    ensures AnyDenies(EmitEvents(e, reasons).code, final, ctx)
       <==> AnyDenies(e.code, final, ctx)
            || (ctx.next == HaltNext && exists i :: 0 <= i < |reasons| && !Logged(ctx.trace, reasons[i]))
  {
    hide Denies, AnyDenies, AddSymbol, Logged;
    if reasons != [] {
      var front, last := reasons[..|reasons| - 1], reasons[|reasons| - 1];
      var prefix := EmitEvents(e, front);
      EventMeaning(prefix.symbols, last, final, ctx);
      EventsMeaning(e, front, final, ctx);
      AnyDeniesAppend(prefix.code, EmitEvent(prefix.symbols, last).1, final, ctx);
      assert forall i :: 0 <= i < |reasons| ==> reasons[i] == if i < |front| then front[i] else last;
    }
  }

  lemma {:induction false} AlignmentsMeaning(e: Emission, reasons: seq<Text>, final: seq<Text>, ctx: SyscallContext)
    requires EmitAlignments(e, reasons).symbols <= final && |final| < NO_PAYLOAD
    ensures e.symbols <= EmitAlignments(e, reasons).symbols
    ensures AnyDenies(EmitAlignments(e, reasons).code, final, ctx)
       <==> AnyDenies(e.code, final, ctx)
            || (ctx.next == HaltNext && exists i :: 0 <= i < |reasons| && !AlignmentLogged(ctx.trace, reasons[i]))
  {
    hide Denies, AnyDenies, AddSymbol, AlignmentLogged;
    if reasons != [] {
      var front, last := reasons[..|reasons| - 1], reasons[|reasons| - 1];
      var prefix := EmitAlignments(e, front);
      EventMeaning(prefix.symbols, last, final, ctx);
      AlignmentsMeaning(e, front, final, ctx);
      AnyDeniesAppend(prefix.code, EmitAlignment(prefix.symbols, last).1, final, ctx);
      assert forall i :: 0 <= i < |reasons| ==> reasons[i] == if i < |front| then front[i] else last;
    }
  }

  predicate TierFails(p: Policy, ctx: SyscallContext) {
    ToU32(ctx.currentTier) < ToU32(p.tier)
  }

  lemma LimitMeaning(code: seq<Instr>, kind: LimitKind, limit: Option<Int64>, symbols: seq<Text>, ctx: SyscallContext)
    ensures AnyDenies(code + EmitLimit(kind, limit), symbols, ctx)
       <==> AnyDenies(code, symbols, ctx) || Exceeds(Count(kind, ctx), limit)
  {
    match limit
    case None => assert code + EmitLimit(kind, limit) == code;
    case Some(v) => AnyDeniesAppend(code, Limit(kind, ToU64(v)), symbols, ctx);
  }

  lemma LimitsMeaning(p: Policy, symbols: seq<Text>, ctx: SyscallContext)
    ensures AnyDenies(EmitLimits(p), symbols, ctx) <==> TierFails(p, ctx) || ExceedsQuota(p, ctx)
  {
    hide EmitLimit, Exceeds, AnyDenies;
    var code0 := [CheckTier(ToU32(p.tier))];
    assert AnyDenies(code0, symbols, ctx) <==> TierFails(p, ctx) by {
      AnyDeniesAppend([], code0[0], symbols, ctx);
      assert [] + [code0[0]] == code0;
      NothingDenies(symbols, ctx);
    }
    var code1 := code0 + EmitLimit(Instructions, p.maxInstructions);
    var code2 := code1 + EmitLimit(Stack, p.maxStack);
    var code3 := code2 + EmitLimit(Recursion, p.maxRecursion);
    var code4 := code3 + EmitLimit(Reflections, p.maxReflections);
    LimitMeaning(code0, Instructions, p.maxInstructions, symbols, ctx);
    LimitMeaning(code1, Stack, p.maxStack, symbols, ctx);
    LimitMeaning(code2, Recursion, p.maxRecursion, symbols, ctx);
    LimitMeaning(code3, Reflections, p.maxReflections, symbols, ctx);
    LimitMeaning(code4, MetaWrites, p.maxMetaWrites, symbols, ctx);
  }

  lemma NothingDenies(symbols: seq<Text>, ctx: SyscallContext)
    ensures !AnyDenies([], symbols, ctx)
  {
  }

  /** What the operands of the compiled clauses mean. */
  predicate CompiledViolates(p: Policy, ctx: SyscallContext) {
    || ExceedsQuota(p, ctx)
    || (exists i :: 0 <= i < |p.loops| && !Logged(ctx.trace, CompiledExpectation(p.loops[i])))
    || (ctx.next == HaltNext && MissesEvent(p, ctx.trace))
  }

  lemma ClausesMeaning(p: Policy, ctx: SyscallContext)
    requires |EmitClauses(p).symbols| < NO_PAYLOAD
    ensures AnyDenies(EmitClauses(p).code, EmitClauses(p).symbols, ctx)
       <==> TierFails(p, ctx) || CompiledViolates(p, ctx)
  {
    hide AnyDenies, EmitLoops, EmitGuards, EmitSegments, EmitEvents, EmitAlignments, EmitLimits;
    hide Logged, GuardLogged, SegmentLogged, AlignmentLogged, ExceedsQuota, TierFails, CompiledExpectation;
    var limits := Emission(EmitLimits(p), []);
    var loops := EmitLoops(limits, p.loops);
    var guards := EmitGuards(loops, p.matchGuards);
    var segments := EmitSegments(guards, p.segmentEvents);
    var events := EmitEvents(segments, p.axionEvents);
    var final := EmitClauses(p).symbols;
    AlignmentsMeaning(events, p.alignments, final, ctx);
    EventsMeaning(segments, p.axionEvents, final, ctx);
    SegmentsMeaning(guards, p.segmentEvents, final, ctx);
    GuardsMeaning(loops, p.matchGuards, final, ctx);
    LoopsMeaning(limits, p.loops, final, ctx);
    LimitsMeaning(p, final, ctx);
  }
}
