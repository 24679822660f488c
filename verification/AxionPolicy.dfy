/** Axion policies, the contexts they judge, and the direct evaluation of their
    clauses against the reasons logged so far. */
module AxionPolicy {
  import opened Bytes
  import opened Wrappers

  datatype LoopHint = LoopHint(
    id: Int32, file: Text, line: Int32, column: Int32, annotated: bool, depth: Int32,
    infinite: bool, bound: Option<Int64>)

  datatype MatchGuard = MatchGuard(enumName: Text, variantName: Text, payload: Option<Text>, result: Text)

  datatype SegmentEvent = SegmentEvent(segment: Text, action: Text, addr: Option<Int64>)

  datatype Policy = Policy(
    tier: Int32,
    maxStack: Option<Int64>,
    maxInstructions: Option<Int64>,
    maxRecursion: Option<Int64>,
    maxReflections: Option<Int64>,
    maxMetaWrites: Option<Int64>,
    maxTensors: Option<Int64>,
    maxTensorElements: Option<Int64>,
    maxSymbolicNodes: Option<Int64>,
    maxSymbolicGraphs: Option<Int64>,
    maxInfiniteForms: Option<Int64>,
    tensorHashes: seq<Text>,
    loops: seq<LoopHint>,
    matchGuards: seq<MatchGuard>,
    segmentEvents: seq<SegmentEvent>,
    axionEvents: seq<Text>,
    alignments: seq<Text>,
    bytecode: seq<Byte>,
    symbols: seq<Text>)

  datatype NextOpcode = HaltNext | TLoadHashNext | OtherNext

  datatype SyscallContext = SyscallContext(
    next: NextOpcode, payload: Text, trace: seq<Text>,
    recursionDepth: U64, instructionCount: U64, stackUsage: U64,
    reflectionCount: U64, metaWriteCount: U64, currentTier: Int32)

  datatype Verdict = Allow | Deny

  /** Some reason logged so far contains `needle`. */
  predicate Logged(trace: seq<Text>, needle: Text) {
    exists i :: 0 <= i < |trace| && Contains(trace[i], needle)
  }

  function BoundText(loop: LoopHint): Text {
    if loop.infinite then "infinite"
    else match loop.bound
      case Some(b) => Decimal(b)
      case None => "unknown"
  }

  function LoopText(file: Text, line: int, column: int, bound: Text): Text {
    "loop hint file=" + (file + (" line=" + (Decimal(line) + (" column=" + (Decimal(column) + (" bound=" + bound))))))
  }

  /** The reason a loop hint waits for. */
  function Expected(loop: LoopHint): Text {
    LoopText(loop.file, loop.line, loop.column, BoundText(loop))
  }

  /** `match_guard_satisfied`. */
  predicate GuardLogged(trace: seq<Text>, g: MatchGuard) {
    exists i :: 0 <= i < |trace| && GuardIn(trace[i], g)
  }

  predicate GuardIn(entry: Text, g: MatchGuard) {
    && Contains(entry, "enum guard")
    && (g.enumName != [] ==> Contains(entry, "enum=" + g.enumName))
    && (g.variantName != [] ==> Contains(entry, "variant=" + g.variantName))
    && (g.payload.Some? ==> Contains(entry, "payload=" + g.payload.value))
    && Contains(entry, "match=" + g.result)
  }

  /** `segment_event_satisfied`. */
  predicate SegmentLogged(trace: seq<Text>, e: SegmentEvent) {
    exists i :: 0 <= i < |trace| && SegmentIn(trace[i], e)
  }

  predicate SegmentIn(entry: Text, e: SegmentEvent) {
    && Contains(entry, e.action)
    && (e.segment == [] || Contains(entry, "segment=" + e.segment) || Contains(entry, " " + e.segment + " "))
    && (e.addr.Some? ==> Contains(entry, "addr=" + Decimal(e.addr.value)))
  }

  /** `alignment_event_satisfied`. */
  predicate AlignmentLogged(trace: seq<Text>, reason: Text) {
    exists i :: 0 <= i < |trace| && AlignmentIn(trace[i], reason)
  }

  predicate AlignmentIn(entry: Text, reason: Text) {
    Contains(entry, "alignment") && Contains(entry, reason)
  }

  /** A quota is compared as an unsigned word. */
  predicate Exceeds(count: U64, limit: Option<Int64>) {
    limit.Some? && count > ToU64(limit.value)
  }

  predicate ExceedsQuota(p: Policy, ctx: SyscallContext) {
    || Exceeds(ctx.instructionCount, p.maxInstructions)
    || Exceeds(ctx.recursionDepth, p.maxRecursion)
    || Exceeds(ctx.stackUsage, p.maxStack)
    || Exceeds(ctx.reflectionCount, p.maxReflections)
    || Exceeds(ctx.metaWriteCount, p.maxMetaWrites)
  }

  /** The clauses that are judged only before the last instruction. */
  predicate MissesEvent(p: Policy, trace: seq<Text>) {
    || (exists i :: 0 <= i < |p.matchGuards| && !GuardLogged(trace, p.matchGuards[i]))
    || (exists i :: 0 <= i < |p.segmentEvents| && !SegmentLogged(trace, p.segmentEvents[i]))
    || (exists i :: 0 <= i < |p.axionEvents| && !Logged(trace, p.axionEvents[i]))
    || (exists i :: 0 <= i < |p.alignments| && !AlignmentLogged(trace, p.alignments[i]))
  }

  predicate DeniesTensorHash(p: Policy, ctx: SyscallContext) {
    && ctx.next == TLoadHashNext
    && (p.tensorHashes == [] || (ctx.payload != [] && ctx.payload !in p.tensorHashes))
  }

  /** The loop requirements from `i` on, with the flags of those already seen: a hint
      that is found is remembered, the first one missing ends the scan. */
  function CheckLoops(loops: seq<LoopHint>, seen: seq<bool>, trace: seq<Text>, i: nat): (r: (bool, seq<bool>))
    requires |seen| == |loops| && i <= |loops|
    ensures |r.1| == |loops|
    decreases |loops| - i
  {
    if i == |loops| then (true, seen)
    else if seen[i] then CheckLoops(loops, seen, trace, i + 1)
    else if Logged(trace, Expected(loops[i])) then CheckLoops(loops, seen[i := true], trace, i + 1)
    else (false, seen)
  }

  /** The clause-by-clause part of `evaluate_internal`, with its flags. */
  function EvaluateClauses(p: Policy, seen: seq<bool>, ctx: SyscallContext): (r: (Verdict, seq<bool>))
    requires |seen| == |p.loops|
    ensures |r.1| == |p.loops|
  {
    if ExceedsQuota(p, ctx) then (Deny, seen)
    else
      var (found, seen') := CheckLoops(p.loops, seen, ctx.trace, 0);
      if !found then (Deny, seen')
      else if ctx.next == HaltNext && MissesEvent(p, ctx.trace) then (Deny, seen')
      else (Allow, seen')
  }

  /** What the clauses mean, without flags. */
  predicate Violates(p: Policy, ctx: SyscallContext) {
    || ExceedsQuota(p, ctx)
    || (exists i :: 0 <= i < |p.loops| && !Logged(ctx.trace, Expected(p.loops[i])))
    || (ctx.next == HaltNext && MissesEvent(p, ctx.trace))
  }

  /** A flag is set only for a reason that is in the log. */
  predicate FlagsSound(loops: seq<LoopHint>, seen: seq<bool>, trace: seq<Text>) {
    |seen| == |loops| && forall i :: 0 <= i < |loops| && seen[i] ==> Logged(trace, Expected(loops[i]))
  }

  lemma {:induction false} CheckLoopsMeaning(loops: seq<LoopHint>, seen: seq<bool>, trace: seq<Text>, i: nat)
    requires FlagsSound(loops, seen, trace) && i <= |loops|
    ensures var (found, seen') := CheckLoops(loops, seen, trace, i);
            && (found <==> forall k :: i <= k < |loops| ==> Logged(trace, Expected(loops[k])))
            && FlagsSound(loops, seen', trace)
    decreases |loops| - i
  {
    hide Logged, Expected;
    if i < |loops| {
      if seen[i] {
        CheckLoopsMeaning(loops, seen, trace, i + 1);
      } else if Logged(trace, Expected(loops[i])) {
        CheckLoopsMeaning(loops, seen[i := true], trace, i + 1);
      }
    }
  }

  /** With sound flags the cached evaluation denies exactly the violations. */
  lemma EvaluateMeaning(p: Policy, seen: seq<bool>, ctx: SyscallContext)
    requires FlagsSound(p.loops, seen, ctx.trace)
    ensures var (verdict, seen') := EvaluateClauses(p, seen, ctx);
            && (verdict == Deny <==> Violates(p, ctx))
            && FlagsSound(p.loops, seen', ctx.trace)
  {
    hide ExceedsQuota, MissesEvent, Logged, Expected;
    CheckLoopsMeaning(p.loops, seen, ctx.trace, 0);
  }

  /** A reason once logged stays logged. */
  lemma LogGrows(older: seq<Text>, newer: seq<Text>, needle: Text)
    requires older <= newer && Logged(older, needle)
    ensures Logged(newer, needle)
  {
    hide Contains;
    var i :| 0 <= i < |older| && Contains(older[i], needle);
    assert newer[i] == older[i];
  }

  lemma FlagsStaySound(loops: seq<LoopHint>, seen: seq<bool>, older: seq<Text>, newer: seq<Text>)
    requires FlagsSound(loops, seen, older) && older <= newer
    ensures FlagsSound(loops, seen, newer)
  {
    hide Logged, Expected;
    forall i | 0 <= i < |loops| && seen[i] ensures Logged(newer, Expected(loops[i])) {
      LogGrows(older, newer, Expected(loops[i]));
    }
  }
}
