/** The policy compiler and engine as objects: code and symbols grow as clauses are
    emitted, flags are set as loop hints are found, and the byte-code machine walks its
    code with a byte pointer. */
module PolicyObjects {
  import opened Bytes
  import opened Wrappers
  import opened AxionPolicy
  import opened PolicyBytecode
  import opened PolicyEngine

  class Compiler {
    var bytecode: seq<Byte>
    var symbols: seq<Text>

    constructor ()
      ensures bytecode == [] && symbols == []
    {
      bytecode, symbols := [], [];
    }

    /** `add_sym`. */
    method AddSym(s: Text) returns (index: U32)
      modifies this`symbols
      ensures (symbols, index) == AddSymbol(old(symbols), s)
    {
      var i := 0;
      while i < |symbols|
        invariant i <= |symbols|
        invariant IndexOf(symbols, s) == i + IndexOf(symbols[i..], s)
      {
        if symbols[i] == s {
          return ToU32(i);
        }
        assert symbols[i..][1..] == symbols[i + 1..];
        i := i + 1;
      }
      symbols := symbols + [s];
      return ToU32(i);
    }

    method EmitU8(v: Byte)
      modifies this`bytecode
      ensures bytecode == old(bytecode) + [v]
    {
      bytecode := bytecode + [v];
    }

    /** `emit_u32` and `emit_u64`: `n` bytes, least significant first. */
    method EmitLittle(v: nat, n: nat)
      modifies this`bytecode
      ensures bytecode == old(bytecode) + Little(v, n)
    {
      var rest := v;
      for i := 0 to n
        invariant bytecode + Little(rest, n - i) == old(bytecode) + Little(v, n)
      {
        assert bytecode + Little(rest, n - i) == (bytecode + [rest % 256]) + Little(rest / 256, n - i - 1);
        EmitU8(rest % 256);
        rest := rest / 256;
      }
    }

    method EmitU32(v: U32)
      modifies this`bytecode
      ensures bytecode == old(bytecode) + U32Bytes(v)
    {
      EmitLittle(v, 4);
    }

    method EmitU64(v: U64)
      modifies this`bytecode
      ensures bytecode == old(bytecode) + U64Bytes(v)
    {
      EmitLittle(v, 8);
    }

    method EmitLimitOf(kind: LimitKind, limit: Option<Int64>, ghost code: seq<Instr>)
      requires bytecode == EncodeAll(code)
      modifies this`bytecode
      ensures bytecode == EncodeAll(code + EmitLimit(kind, limit))
    {
      hide U64Bytes, Encode, LimitCode, ToU64, EncodeAll;
      if limit.Some? {
        EmitU8(LimitCode(kind));
        EmitU64(ToU64(limit.value));
        LimitBytes(kind, ToU64(limit.value));
        EncodeAllAppend(code, Limit(kind, ToU64(limit.value)));
        assert bytecode == EncodeAll(code) + ([LimitCode(kind)] + U64Bytes(ToU64(limit.value)));
      } else {
        assert code + EmitLimit(kind, limit) == code;
      }
    }

    method EmitLoopHint(loop: LoopHint)
      modifies this
      ensures var (s, i) := EmitLoop(old(symbols), loop); symbols == s && bytecode == old(bytecode) + Encode(i)
    {
      hide U32Bytes, U64Bytes, AddSymbol, ToU32, ToU64;
      var bound := ToU64(match loop.bound case Some(b) => b case None => 0);
      EmitU8(0x05);
      EmitU32(ToU32(loop.id));
      var file := AddSym(loop.file);
      EmitU32(file);
      EmitU32(ToU32(loop.line));
      EmitU32(ToU32(loop.column));
      EmitU8(if loop.infinite then 1 else 0);
      EmitU64(bound);
      Regroup7(old(bytecode), [0x05], U32Bytes(ToU32(loop.id)), U32Bytes(file), U32Bytes(ToU32(loop.line)),
               U32Bytes(ToU32(loop.column)), [if loop.infinite then 1 else 0], U64Bytes(bound));
    }

    method EmitMatchGuard(g: MatchGuard)
      modifies this
      ensures var (s, i) := EmitGuard(old(symbols), g); symbols == s && bytecode == old(bytecode) + Encode(i)
    {
      hide U32Bytes, U64Bytes, AddSymbol;
      EmitU8(0x06);
      var enumName := AddSym(g.enumName);
      EmitU32(enumName);
      var variantName := AddSym(g.variantName);
      EmitU32(variantName);
      var payload := NO_PAYLOAD;
      if g.payload.Some? {
        payload := AddSym(g.payload.value);
      }
      EmitU32(payload);
      var result := AddSym(g.result);
      EmitU32(result);
      Regroup5(old(bytecode), [0x06], U32Bytes(enumName), U32Bytes(variantName), U32Bytes(payload), U32Bytes(result));
    }

    method EmitSegmentEvent(e: SegmentEvent)
      modifies this
      ensures var (s, i) := EmitSegment(old(symbols), e); symbols == s && bytecode == old(bytecode) + Encode(i)
    {
      hide U32Bytes, U64Bytes, AddSymbol, ToU64;
      var addr := ToU64(match e.addr case Some(a) => a case None => 0);
      EmitU8(0x07);
      var segment := AddSym(e.segment);
      EmitU32(segment);
      var action := AddSym(e.action);
      EmitU32(action);
      EmitU8(if e.addr.Some? then 1 else 0);
      EmitU64(addr);
      Regroup5(old(bytecode), [0x07], U32Bytes(segment), U32Bytes(action), [if e.addr.Some? then 1 else 0],
               U64Bytes(addr));
    }

    method EmitReason(op: Byte, reason: Text)
      modifies this
      ensures var (s, r) := AddSymbol(old(symbols), reason);
              symbols == s && bytecode == old(bytecode) + ([op] + U32Bytes(r))
    {
      hide U32Bytes, AddSymbol;
      EmitU8(op);
      var r := AddSym(reason);
      EmitU32(r);
    }

    /** The code and symbols emitted so far are those of `e`. */
    ghost predicate Holds(e: Emission)
      reads this
    {
      bytecode == EncodeAll(e.code) && symbols == e.symbols
    }

    method EmitTierAndLimits(p: Policy)
      requires bytecode == [] && symbols == []
      modifies this`bytecode
      ensures Holds(Emission(EmitLimits(p), []))
    {
      hide EmitLimit, U32Bytes, EncodeAll;
      EmitU8(0x01);
      EmitU32(ToU32(p.tier));
      ghost var code0 := [CheckTier(ToU32(p.tier))];
      CheckTierBytes(ToU32(p.tier));
      EmitLimitOf(Instructions, p.maxInstructions, code0);
      ghost var code1 := code0 + EmitLimit(Instructions, p.maxInstructions);
      EmitLimitOf(Stack, p.maxStack, code1);
      ghost var code2 := code1 + EmitLimit(Stack, p.maxStack);
      EmitLimitOf(Recursion, p.maxRecursion, code2);
      ghost var code3 := code2 + EmitLimit(Recursion, p.maxRecursion);
      EmitLimitOf(Reflections, p.maxReflections, code3);
      ghost var code4 := code3 + EmitLimit(Reflections, p.maxReflections);
      EmitLimitOf(MetaWrites, p.maxMetaWrites, code4);
    }

    method EmitLoopClauses(p: Policy, ghost before: Emission)
      requires Holds(before)
      modifies this
      ensures Holds(EmitLoops(before, p.loops))
    {
      hide EmitLoop, Encode, EncodeAll;
      for i := 0 to |p.loops|
        invariant Holds(EmitLoops(before, p.loops[..i]))
      {
        assert p.loops[..i + 1][..i] == p.loops[..i];
        ghost var e := EmitLoops(before, p.loops[..i]);
        EmitLoopHint(p.loops[i]);
        EncodeAllAppend(e.code, EmitLoop(e.symbols, p.loops[i]).1);
      }
      assert p.loops[..|p.loops|] == p.loops;
    }

    method EmitGuardClauses(p: Policy, ghost before: Emission)
      requires Holds(before)
      modifies this
      ensures Holds(EmitGuards(before, p.matchGuards))
    {
      hide EmitGuard, Encode, EncodeAll;
      for i := 0 to |p.matchGuards|
        invariant Holds(EmitGuards(before, p.matchGuards[..i]))
      {
        assert p.matchGuards[..i + 1][..i] == p.matchGuards[..i];
        ghost var e := EmitGuards(before, p.matchGuards[..i]);
        EmitMatchGuard(p.matchGuards[i]);
        EncodeAllAppend(e.code, EmitGuard(e.symbols, p.matchGuards[i]).1);
      }
      assert p.matchGuards[..|p.matchGuards|] == p.matchGuards;
    }

    method EmitSegmentClauses(p: Policy, ghost before: Emission)
      requires Holds(before)
      modifies this
      ensures Holds(EmitSegments(before, p.segmentEvents))
    {
      hide EmitSegment, Encode, EncodeAll;
      for i := 0 to |p.segmentEvents|
        invariant Holds(EmitSegments(before, p.segmentEvents[..i]))
      {
        assert p.segmentEvents[..i + 1][..i] == p.segmentEvents[..i];
        ghost var e := EmitSegments(before, p.segmentEvents[..i]);
        EmitSegmentEvent(p.segmentEvents[i]);
        EncodeAllAppend(e.code, EmitSegment(e.symbols, p.segmentEvents[i]).1);
      }
      assert p.segmentEvents[..|p.segmentEvents|] == p.segmentEvents;
    }

    method EmitEventClauses(p: Policy, ghost segments: Emission)
      requires Holds(segments)
      modifies this
      ensures Holds(EmitEvents(segments, p.axionEvents))
    {
      hide AddSymbol, U32Bytes, Encode, EncodeAll;
      for i := 0 to |p.axionEvents|
        invariant Holds(EmitEvents(segments, p.axionEvents[..i]))
      {
        assert p.axionEvents[..i + 1][..i] == p.axionEvents[..i];
        ghost var e := EmitEvents(segments, p.axionEvents[..i]);
        EmitReason(0x08, p.axionEvents[i]);
        ReasonBytes(AddSymbol(e.symbols, p.axionEvents[i]).1);
        EncodeAllAppend(e.code, EmitEvent(e.symbols, p.axionEvents[i]).1);
      }
      assert p.axionEvents[..|p.axionEvents|] == p.axionEvents;
    }

    method EmitAlignmentClauses(p: Policy, ghost events: Emission)
      requires Holds(events)
      modifies this
      ensures Holds(EmitAlignments(events, p.alignments))
    {
      hide AddSymbol, U32Bytes, Encode, EncodeAll;
      for i := 0 to |p.alignments|
        invariant Holds(EmitAlignments(events, p.alignments[..i]))
      {
        assert p.alignments[..i + 1][..i] == p.alignments[..i];
        ghost var e := EmitAlignments(events, p.alignments[..i]);
        EmitReason(0x09, p.alignments[i]);
        ReasonBytes(AddSymbol(e.symbols, p.alignments[i]).1);
        EncodeAllAppend(e.code, EmitAlignment(e.symbols, p.alignments[i]).1);
      }
      assert p.alignments[..|p.alignments|] == p.alignments;
    }

    /** `compile_to_bytecode`. */
    method CompileToBytecode(p: Policy)
      modifies this
      ensures p.(bytecode := bytecode, symbols := symbols) == Compile(p)
    {
      hide Encode, EmitLoops, EmitGuards, EmitSegments, EmitEvents, EmitAlignments, EmitLimits, EncodeAll;
      bytecode, symbols := [], [];
      EmitTierAndLimits(p);
      ghost var limits := Emission(EmitLimits(p), []);
      EmitLoopClauses(p, limits);
      ghost var loops := EmitLoops(limits, p.loops);
      EmitGuardClauses(p, loops);
      ghost var guards := EmitGuards(loops, p.matchGuards);
      EmitSegmentClauses(p, guards);
      ghost var segments := EmitSegments(guards, p.segmentEvents);
      EmitEventClauses(p, segments);
      EmitAlignmentClauses(p, EmitEvents(segments, p.axionEvents));
      EmitU8(0xFF);
      ReturnByte();
      EncodeAllAppend(EmitClauses(p).code, Return);
    }
  }

  lemma EncodeAllAppend(code: seq<Instr>, i: Instr)
    ensures EncodeAll(code + [i]) == EncodeAll(code) + Encode(i)
  {
    assert (code + [i])[..|code|] == code;
  }

  lemma LimitBytes(kind: LimitKind, limit: U64)
    ensures Encode(Limit(kind, limit)) == [LimitCode(kind)] + U64Bytes(limit)
  {
    hide U64Bytes, LimitCode;
  }

  lemma ReasonBytes(reason: U32)
    ensures Encode(RequireAxionEvent(reason)) == [0x08] + U32Bytes(reason)
    ensures Encode(RequireAlignment(reason)) == [0x09] + U32Bytes(reason)
  {
    hide U32Bytes;
  }

  lemma CheckTierBytes(tier: U32)
    ensures EncodeAll([CheckTier(tier)]) == [0x01] + U32Bytes(tier)
  {
    hide U32Bytes;
    assert [] + [CheckTier(tier)] == [CheckTier(tier)];
    EncodeAllAppend([], CheckTier(tier));
  }

  /** Concatenation associates. */
  lemma Regroup5(s: seq<Byte>, a: seq<Byte>, b: seq<Byte>, c: seq<Byte>, d: seq<Byte>, e: seq<Byte>)
    ensures s + a + b + c + d + e == s + (a + (b + (c + (d + e))))
  {
    assert s + a + b + c + d + e == s + a + b + c + (d + e);
    assert s + a + b + c + (d + e) == s + a + b + (c + (d + e));
    assert s + a + b + (c + (d + e)) == s + a + (b + (c + (d + e)));
  }

  lemma Regroup7(s: seq<Byte>, a: seq<Byte>, b: seq<Byte>, c: seq<Byte>, d: seq<Byte>, e: seq<Byte>, f: seq<Byte>,
      g: seq<Byte>)
    ensures s + a + b + c + d + e + f + g == s + (a + (b + (c + (d + (e + (f + g))))))
  {
    Regroup5(s + a + b, c, d, e, f, g);
    var t := c + (d + (e + (f + g)));
    assert s + a + b + t == s + a + (b + t);
    assert s + a + (b + t) == s + (a + (b + t));
  }

  lemma ReturnByte()
    ensures Encode(Return) == [0xFF]
  {
  }

  /** `PolicyEngine`: a policy and the flags of its loop requirements. */
  class Engine {
    const policy: Option<Policy>
    var seen: seq<bool>

    ghost predicate Valid()
      reads this
    {
      policy.Some? ==> |seen| == |policy.value.loops|
    }

    constructor (policy: Option<Policy>)
      ensures Valid() && this.policy == policy
      ensures policy.Some? ==> forall trace :: FlagsSound(policy.value.loops, seen, trace)
    {
      this.policy := policy;
      seen := match policy case Some(p) => seq(|p.loops|, _ => false) case None => [];
    }

    /** `execute_bytecode`: a byte pointer, and operands taken from under it. */
    method ExecuteBytecode(ctx: SyscallContext) returns (e: Execution)
      requires Valid() && policy.Some?
      ensures e == Execute(policy.value.bytecode, policy.value.symbols, ctx)
    {
      hide Fetch, Denies;
      var code, pc := policy.value.bytecode, 0;
      while pc < |code|
        invariant pc <= |code|
        invariant Execute(code, policy.value.symbols, ctx) == Execute(code[pc..], policy.value.symbols, ctx)
      {
        var fetched := Fetch(code[pc..]);
        if fetched.UnknownOp? {
          return Halted(Deny);
        } else if fetched.PastEnd? {
          return ReadPastEnd;
        }
        assert code[pc..][fetched.size..] == code[pc + fetched.size..];
        pc := pc + fetched.size;
        if Denies(fetched.instr, policy.value.symbols, ctx) {
          return Halted(Deny);
        } else if fetched.instr.Return? {
          return Halted(Allow);
        }
      }
      return Halted(Allow);
    }

    /** `loop_hint_satisfied`. */
    method LoopHintSatisfied(ctx: SyscallContext, i: nat) returns (found: bool)
      requires Valid() && policy.Some? && i < |seen|
      modifies this
      ensures Valid()
      ensures found == (old(seen)[i] || Logged(ctx.trace, Expected(policy.value.loops[i])))
      ensures seen == if found then old(seen)[i := true] else old(seen)
    {
      hide Expected, Contains;
      if seen[i] {
        assert seen == seen[i := true];
        return true;
      }
      var expected := Expected(policy.value.loops[i]);
      for k := 0 to |ctx.trace|
        invariant forall j :: 0 <= j < k ==> !Contains(ctx.trace[j], expected)
      {
        if Contains(ctx.trace[k], expected) {
          seen := seen[i := true];
          return true;
        }
      }
      return false;
    }

    /** `match_guard_satisfied`: the tokens of one entry after the other. */
    method MatchGuardSatisfied(trace: seq<Text>, g: MatchGuard) returns (found: bool)
      ensures found <==> GuardLogged(trace, g)
    {
      hide Contains;
      for k := 0 to |trace|
        invariant forall j :: 0 <= j < k ==> !GuardIn(trace[j], g)
      {
        var entry := trace[k];
        if !Contains(entry, "enum guard") {
          continue;
        }
        if g.enumName != [] && !Contains(entry, "enum=" + g.enumName) {
          continue;
        }
        if g.variantName != [] && !Contains(entry, "variant=" + g.variantName) {
          continue;
        }
        if g.payload.Some? && !Contains(entry, "payload=" + g.payload.value) {
          continue;
        }
        if !Contains(entry, "match=" + g.result) {
          continue;
        }
        return true;
      }
      return false;
    }

    /** `segment_event_satisfied`. */
    method SegmentEventSatisfied(trace: seq<Text>, e: SegmentEvent) returns (found: bool)
      ensures found <==> SegmentLogged(trace, e)
    {
      hide Contains, Decimal;
      for k := 0 to |trace|
        invariant forall j :: 0 <= j < k ==> !SegmentIn(trace[j], e)
      {
        var entry := trace[k];
        if !Contains(entry, e.action) {
          continue;
        }
        var segmentOk := e.segment == [];
        if !segmentOk {
          segmentOk := Contains(entry, "segment=" + e.segment) || Contains(entry, " " + e.segment + " ");
        }
        if !segmentOk {
          continue;
        }
        if e.addr.Some? && !Contains(entry, "addr=" + Decimal(e.addr.value)) {
          continue;
        }
        return true;
      }
      return false;
    }

    /** `axion_event_satisfied`. */
    method AxionEventSatisfied(trace: seq<Text>, reason: Text) returns (found: bool)
      ensures found <==> Logged(trace, reason)
    {
      hide Contains;
      for k := 0 to |trace|
        invariant forall j :: 0 <= j < k ==> !Contains(trace[j], reason)
      {
        if Contains(trace[k], reason) {
          return true;
        }
      }
      return false;
    }

    /** `alignment_event_satisfied`. */
    method AlignmentEventSatisfied(trace: seq<Text>, reason: Text) returns (found: bool)
      ensures found <==> AlignmentLogged(trace, reason)
    {
      hide Contains;
      for k := 0 to |trace|
        invariant forall j :: 0 <= j < k ==> !AlignmentIn(trace[j], reason)
      {
        if Contains(trace[k], "alignment") && Contains(trace[k], reason) {
          return true;
        }
      }
      return false;
    }

    /** The clauses judged before the last instruction, kind by kind. */
    method EventsMissing(trace: seq<Text>) returns (missing: bool)
      requires policy.Some?
      ensures missing <==> MissesEvent(policy.value, trace)
    {
      hide GuardLogged, SegmentLogged, Logged, AlignmentLogged;
      var p := policy.value;
      for i := 0 to |p.matchGuards|
        invariant forall j :: 0 <= j < i ==> GuardLogged(trace, p.matchGuards[j])
      {
        var found := MatchGuardSatisfied(trace, p.matchGuards[i]);
        if !found {
          return true;
        }
      }
      for i := 0 to |p.segmentEvents|
        invariant forall j :: 0 <= j < i ==> SegmentLogged(trace, p.segmentEvents[j])
      {
        var found := SegmentEventSatisfied(trace, p.segmentEvents[i]);
        if !found {
          return true;
        }
      }
      for i := 0 to |p.axionEvents|
        invariant forall j :: 0 <= j < i ==> Logged(trace, p.axionEvents[j])
      {
        var found := AxionEventSatisfied(trace, p.axionEvents[i]);
        if !found {
          return true;
        }
      }
      for i := 0 to |p.alignments|
        invariant forall j :: 0 <= j < i ==> AlignmentLogged(trace, p.alignments[j])
      {
        var found := AlignmentEventSatisfied(trace, p.alignments[i]);
        if !found {
          return true;
        }
      }
      return false;
    }

    /** The quotas, one after the other. */
    method QuotaExceeded(ctx: SyscallContext) returns (exceeded: bool)
      requires policy.Some?
      ensures exceeded <==> ExceedsQuota(policy.value, ctx)
    {
      var p := policy.value;
      if p.maxInstructions.Some? && ctx.instructionCount > ToU64(p.maxInstructions.value) {
        return true;
      }
      if p.maxRecursion.Some? && ctx.recursionDepth > ToU64(p.maxRecursion.value) {
        return true;
      }
      if p.maxStack.Some? && ctx.stackUsage > ToU64(p.maxStack.value) {
        return true;
      }
      if p.maxReflections.Some? && ctx.reflectionCount > ToU64(p.maxReflections.value) {
        return true;
      }
      return p.maxMetaWrites.Some? && ctx.metaWriteCount > ToU64(p.maxMetaWrites.value);
    }

    /** The rule for `TLOADHASH`. */
    method HashDenied(ctx: SyscallContext) returns (denied: bool)
      requires policy.Some?
      ensures denied <==> DeniesTensorHash(policy.value, ctx)
    {
      var hashes := policy.value.tensorHashes;
      if ctx.next != TLoadHashNext {
        return false;
      }
      if hashes == [] {
        return true;
      }
      if ctx.payload == [] {
        return false;
      }
      for i := 0 to |hashes|
        invariant forall j :: 0 <= j < i ==> hashes[j] != ctx.payload
      {
        if hashes[i] == ctx.payload {
          return false;
        }
      }
      return true;
    }

    /** The clause-by-clause evaluation. */
    method Evaluate(ctx: SyscallContext) returns (verdict: Verdict)
      requires Valid() && policy.Some?
      modifies this
      ensures Valid() && (verdict, seen) == EvaluateClauses(policy.value, old(seen), ctx)
    {
      hide ExceedsQuota, MissesEvent, Logged, Expected;
      var p := policy.value;
      var exceeded := QuotaExceeded(ctx);
      if exceeded {
        return Deny;
      }
      for i := 0 to |p.loops|
        invariant Valid() && i <= |p.loops|
        invariant CheckLoops(p.loops, old(seen), ctx.trace, 0) == CheckLoops(p.loops, seen, ctx.trace, i)
      {
        ghost var before := seen;
        var found := LoopHintSatisfied(ctx, i);
        if before[i] {
          assert before[i := true] == before;
        }
        if !found {
          return Deny;
        }
      }
      if ctx.next == HaltNext {
        var missing := EventsMissing(ctx.trace);
        if missing {
          return Deny;
        }
      }
      return Allow;
    }

    /** `evaluate_internal`. */
    method EvaluateInternal(ctx: SyscallContext) returns (j: Judgement)
      requires Valid()
      modifies this
      ensures Valid() && (j, seen) == Judge(policy, old(seen), ctx)
    {
      hide Execute, EvaluateClauses, DeniesTensorHash;
      if policy.None? {
        return Judged(if ctx.next == TLoadHashNext then Deny else Allow);
      }
      var denied := HashDenied(ctx);
      if denied {
        return Judged(Deny);
      }
      if policy.value.bytecode != [] {
        var e := ExecuteBytecode(ctx);
        return match e case Halted(v) => Judged(v) case ReadPastEnd => Broken;
      }
      var verdict := Evaluate(ctx);
      return Judged(verdict);
    }
  }
}
