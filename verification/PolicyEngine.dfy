/** The policy engine over a whole run: a policy evaluated clause by clause, with the
    loop hints it has seen remembered, against the same policy compiled. */
module PolicyEngine {
  import opened Bytes
  import opened Wrappers
  import opened AxionPolicy
  import opened PolicyBytecode

  datatype Judgement = Judged(verdict: Verdict) | Broken

  /** `evaluate_internal`: the tensor-hash rule, then the byte code if there is any, and
      the clauses otherwise. */
  function Judge(policy: Option<Policy>, seen: seq<bool>, ctx: SyscallContext): (r: (Judgement, seq<bool>))
    requires policy.Some? ==> |seen| == |policy.value.loops|
    ensures policy.Some? ==> |r.1| == |policy.value.loops|
  {
    match policy
    case None => (Judged(if ctx.next == TLoadHashNext then Deny else Allow), seen)
    case Some(p) =>
      if DeniesTensorHash(p, ctx) then (Judged(Deny), seen)
      else if p.bytecode != [] then
        match Execute(p.bytecode, p.symbols, ctx)
        case Halted(v) => (Judged(v), seen)
        case ReadPastEnd => (Broken, seen)
      else
        var (v, seen') := EvaluateClauses(p, seen, ctx);
        (Judged(v), seen')
  }

  /** The judgements of one engine over a run of contexts. */
  function JudgeAll(p: Policy, seen: seq<bool>, run: seq<SyscallContext>): (r: seq<Judgement>)
    requires |seen| == |p.loops|
    ensures |r| == |run|
    decreases |run|
  {
    if run == [] then []
    else
      var (j, seen') := Judge(Some(p), seen, run[0]);
      [j] + JudgeAll(p, seen', run[1..])
  }

  /** The log is append-only. */
  predicate LogsGrow(run: seq<SyscallContext>) {
    forall i :: 0 < i < |run| ==> run[i - 1].trace <= run[i].trace
  }

  /** A policy that has not been compiled, with fewer symbols than the mark for "no payload". */
  predicate Source(p: Policy) {
    p.bytecode == [] && |EmitClauses(p).symbols| < NO_PAYLOAD
  }

  /** One context: the compiled policy decides without reading past its code, and denies
      exactly on a failed tier check or a clause that its operands violate. */
  lemma CompiledDecides(p: Policy, seen: seq<bool>, ctx: SyscallContext)
    requires Source(p) && |seen| == |p.loops|
    ensures Judge(Some(Compile(p)), seen, ctx)
         == (Judged(if DeniesTensorHash(p, ctx) || TierFails(p, ctx) || CompiledViolates(p, ctx) then Deny else Allow),
             seen)
  {
    hide EncodeAll, Execute, AnyDenies, EmitClauses, CompiledViolates, TierFails;
    var e := EmitClauses(p);
    NoReturnEmitted(p);
    ExecuteMeaning(e.code, e.symbols, ctx);
    ClausesMeaning(p, ctx);
    assert EncodeAll(e.code + [Return]) != [] by {
      EncodeAllNonEmpty(e.code);
    }
  }

  /** The reasons that the loop requirements wait for, as clauses and as operands. */
  function Reasons(loops: seq<LoopHint>): seq<Text> {
    seq(|loops|, i requires 0 <= i < |loops| => Expected(loops[i]))
  }

  function CompiledReasons(loops: seq<LoopHint>): seq<Text> {
    seq(|loops|, i requires 0 <= i < |loops| => CompiledExpectation(loops[i]))
  }

  predicate AllLogged(trace: seq<Text>, reasons: seq<Text>) {
    forall i :: 0 <= i < |reasons| ==> Logged(trace, reasons[i])
  }

  /** A log of the reasons of either kind, and of nothing else, satisfies the other. */
  predicate SameDemands(loops: seq<LoopHint>) {
    AllLogged(Reasons(loops), CompiledReasons(loops)) && AllLogged(CompiledReasons(loops), Reasons(loops))
  }

  predicate Compilable(p: Policy) {
    Source(p) && SameDemands(p.loops)
  }

  lemma LoggedThrough(trace: seq<Text>, texts: seq<Text>, needle: Text)
    requires AllLogged(trace, texts) && Logged(texts, needle)
    ensures Logged(trace, needle)
  {
    hide Contains;
    var i :| 0 <= i < |texts| && Contains(texts[i], needle);
    assert Logged(trace, texts[i]);
    var j :| 0 <= j < |trace| && Contains(trace[j], texts[i]);
    ContainsThrough(trace[j], texts[i], needle);
  }

  lemma AllLoggedThrough(trace: seq<Text>, texts: seq<Text>, reasons: seq<Text>)
    requires AllLogged(trace, texts) && AllLogged(texts, reasons)
    ensures AllLogged(trace, reasons)
  {
    hide Logged;
    forall i | 0 <= i < |reasons| ensures Logged(trace, reasons[i]) {
      LoggedThrough(trace, texts, reasons[i]);
    }
  }

  lemma AllLogThemselves(reasons: seq<Text>)
    ensures AllLogged(reasons, reasons)
  {
    hide Contains;
    forall i | 0 <= i < |reasons| ensures Logged(reasons, reasons[i]) {
      ContainsItself(reasons[i]);
    }
  }

  /** What the two kinds of reasons have to do with the clauses. */
  lemma ViolatesByReasons(p: Policy, ctx: SyscallContext)
    ensures Violates(p, ctx) <==> ExceedsQuota(p, ctx) || !AllLogged(ctx.trace, Reasons(p.loops))
                                  || (ctx.next == HaltNext && MissesEvent(p, ctx.trace))
    ensures CompiledViolates(p, ctx) <==> ExceedsQuota(p, ctx) || !AllLogged(ctx.trace, CompiledReasons(p.loops))
                                          || (ctx.next == HaltNext && MissesEvent(p, ctx.trace))
  {
    hide ExceedsQuota, MissesEvent, Logged, Expected, CompiledExpectation;
    var direct, compiled := Reasons(p.loops), CompiledReasons(p.loops);
    assert forall i :: 0 <= i < |p.loops| ==> direct[i] == Expected(p.loops[i]);
    assert forall i :: 0 <= i < |p.loops| ==> compiled[i] == CompiledExpectation(p.loops[i]);
  }

  /** A policy whose two kinds of reasons demand the same is denied, compiled, exactly on a
      failed tier check or a violated clause. */
  lemma CompiledJudges(p: Policy, seen: seq<bool>, ctx: SyscallContext)
    requires Compilable(p) && |seen| == |p.loops|
    ensures Judge(Some(Compile(p)), seen, ctx)
         == (Judged(if DeniesTensorHash(p, ctx) || TierFails(p, ctx) || Violates(p, ctx) then Deny else Allow), seen)
  {
    hide Violates, CompiledViolates, TierFails, AllLogged, Source, Judge, Compile, DeniesTensorHash;
    hide MissesEvent, ExceedsQuota;
    CompiledDecides(p, seen, ctx);
    ViolatesByReasons(p, ctx);
    var direct, compiled := Reasons(p.loops), CompiledReasons(p.loops);
    if AllLogged(ctx.trace, direct) {
      AllLoggedThrough(ctx.trace, direct, compiled);
    }
    if AllLogged(ctx.trace, compiled) {
      AllLoggedThrough(ctx.trace, compiled, direct);
    }
  }

  lemma EncodeAllNonEmpty(code: seq<Instr>)
    ensures EncodeAll(code + [Return]) != []
  {
  }

  lemma {:induction false} LoopsReturnFree(e: Emission, loops: seq<LoopHint>)
    requires ReturnFree(e.code)
    ensures ReturnFree(EmitLoops(e, loops).code)
  {
    hide EmitLoop;
    if loops != [] {
      LoopsReturnFree(e, loops[..|loops| - 1]);
      assert EmitLoop(EmitLoops(e, loops[..|loops| - 1]).symbols, loops[|loops| - 1]).1.RequireLoop? by {
        EmitLoopKind();
      }
    }
  }

  lemma EmitLoopKind()
    ensures forall symbols, loop :: EmitLoop(symbols, loop).1.RequireLoop?
  {
  }

  lemma {:induction false} GuardsReturnFree(e: Emission, guards: seq<MatchGuard>)
    requires ReturnFree(e.code)
    ensures ReturnFree(EmitGuards(e, guards).code)
  {
    if guards != [] {
      GuardsReturnFree(e, guards[..|guards| - 1]);
    }
  }

  lemma {:induction false} SegmentsReturnFree(e: Emission, events: seq<SegmentEvent>)
    requires ReturnFree(e.code)
    ensures ReturnFree(EmitSegments(e, events).code)
  {
    if events != [] {
      SegmentsReturnFree(e, events[..|events| - 1]);
    }
  }

  lemma {:induction false} EventsReturnFree(e: Emission, reasons: seq<Text>)
    requires ReturnFree(e.code)
    ensures ReturnFree(EmitEvents(e, reasons).code)
  {
    if reasons != [] {
      EventsReturnFree(e, reasons[..|reasons| - 1]);
    }
  }

  lemma {:induction false} AlignmentsReturnFree(e: Emission, reasons: seq<Text>)
    requires ReturnFree(e.code)
    ensures ReturnFree(EmitAlignments(e, reasons).code)
  {
    if reasons != [] {
      AlignmentsReturnFree(e, reasons[..|reasons| - 1]);
    }
  }

  predicate ReturnFree(code: seq<Instr>) {
    forall i :: 0 <= i < |code| ==> !code[i].Return?
  }

  lemma NoReturnEmitted(p: Policy)
    ensures ReturnFree(EmitClauses(p).code)
  {
    hide EmitLoops, EmitGuards, EmitSegments, EmitEvents, EmitAlignments;
    var limits := Emission(EmitLimits(p), []);
    var loops := EmitLoops(limits, p.loops);
    var guards := EmitGuards(loops, p.matchGuards);
    var segments := EmitSegments(guards, p.segmentEvents);
    LoopsReturnFree(limits, p.loops);
    GuardsReturnFree(loops, p.matchGuards);
    SegmentsReturnFree(guards, p.segmentEvents);
    EventsReturnFree(segments, p.axionEvents);
    AlignmentsReturnFree(EmitEvents(segments, p.axionEvents), p.alignments);
  }

  /** Compilation preserves meaning over whole runs: along contexts whose logs only grow,
      the compiled policy denies exactly when its tier check fails or the clause-by-clause
      engine, with the loop hints it remembers, denies; and it always decides. */
  lemma {:induction false} CompilationPreservesVerdicts(p: Policy, seen: seq<bool>, seen': seq<bool>,
      run: seq<SyscallContext>)
    requires Compilable(p) && |seen'| == |p.loops| && LogsGrow(run)
    requires run != [] ==> FlagsSound(p.loops, seen, run[0].trace)
    requires |seen| == |p.loops|
    ensures forall i :: 0 <= i < |run| ==>
              && JudgeAll(p, seen, run)[i].Judged?
              && JudgeAll(Compile(p), seen', run)[i]
              == Judged(if TierFails(p, run[i]) then Deny else JudgeAll(p, seen, run)[i].verdict)
    decreases |run|
  {
    hide Compile, Violates, TierFails, DeniesTensorHash, EvaluateClauses, Compilable, FlagsSound;
    if run != [] {
      var ctx, rest := run[0], run[1..];
      EvaluateMeaning(p, seen, ctx);
      CompiledJudges(p, seen', ctx);
      CompiledKeepsLoops(p);
      BytecodeEmpty(p);
      var (j, next) := Judge(Some(p), seen, ctx);
      if rest != [] {
        FlagsStaySound(p.loops, next, ctx.trace, run[1].trace);
      }
      CompilationPreservesVerdicts(p, next, seen', rest);
      assert JudgeAll(p, seen, run) == [j] + JudgeAll(p, next, rest);
      assert JudgeAll(Compile(p), seen', run) ==
             [Judge(Some(Compile(p)), seen', ctx).0] + JudgeAll(Compile(p), seen', rest);
    }
  }

  lemma CompiledKeepsLoops(p: Policy)
    ensures Compile(p).loops == p.loops
  {
  }

  lemma BytecodeEmpty(p: Policy)
    requires Compilable(p)
    ensures p.bytecode == []
  {
  }

  // ---------- the guard is exact

  predicate NoSpace(t: Text) {
    forall i :: 0 <= i < |t| ==> t[i] != ' '
  }

  lemma SplitAtSpace(u: Text, v: Text, r: Text, s: Text)
    requires NoSpace(u) && NoSpace(v)
    requires r != [] && s != [] && r[0] == s[0] == ' '
    requires u + r == v + s
    ensures u == v && r == s
  {
    assert |u| < |u + r| && (u + r)[|u|] == ' ' && |v| < |v + s| && (v + s)[|v|] == ' ';
    assert |u| == |v|;
    assert u == (u + r)[..|u|] == (v + s)[..|v|] == v;
    assert r == (u + r)[|u|..] == (v + s)[|v|..] == s;
  }

  lemma LoopTextInjective(file: Text, line: int, column: int, bound: Text, line': int, column': int, bound': Text)
    requires LoopText(file, line, column, bound) == LoopText(file, line', column', bound')
    ensures line == line' && column == column' && bound == bound'
  {
    hide Decimal;
    var head: Text := "loop hint file=" + (file + " line=");
    var columns: Text, columns': Text :=
      " column=" + (Decimal(column) + (" bound=" + bound)), " column=" + (Decimal(column') + (" bound=" + bound'));
    var bounds: Text, bounds': Text := " bound=" + bound, " bound=" + bound';
    assert LoopText(file, line, column, bound) == head + (Decimal(line) + columns);
    assert LoopText(file, line', column', bound') == head + (Decimal(line') + columns');
    assert Decimal(line) + columns == (head + (Decimal(line) + columns))[|head|..];
    assert Decimal(line') + columns' == (head + (Decimal(line') + columns'))[|head|..];
    SplitAtSpace(Decimal(line), Decimal(line'), columns, columns');
    DecimalInjective(line, line');
    assert Decimal(column) + bounds == columns[8..] && Decimal(column') + bounds' == columns'[8..];
    SplitAtSpace(Decimal(column), Decimal(column'), bounds, bounds');
    DecimalInjective(column, column');
    assert bound == bounds[7..] && bound' == bounds'[7..];
  }

  lemma UnknownIsNoNumber(x: int)
    ensures var unknown: Text := "unknown"; unknown != Decimal(x)
  {
    var unknown: Text := "unknown";
    assert unknown[0] == 'u';
  }

  /** The two expectations are one text exactly for hints that print alike. */
  lemma ExpectationsEqualIffPrintable(loop: LoopHint)
    ensures Expected(loop) == CompiledExpectation(loop) <==> Printable(loop)
  {
    hide LoopText, Decimal;
    if Expected(loop) == CompiledExpectation(loop) {
      var compiled: Text := if loop.infinite then "infinite"
                            else Decimal(ToU64(match loop.bound case Some(b) => b case None => 0));
      LoopTextInjective(loop.file, loop.line, loop.column, BoundText(loop),
                        ToU32(loop.line), ToU32(loop.column), compiled);
      if !loop.infinite {
        match loop.bound
        case Some(b) => DecimalInjective(b, ToU64(b));
        case None => UnknownIsNoNumber(0);
      }
    }
  }

  /** A context that asks for nothing but what its log holds. */
  function QuietContext(p: Policy, trace: seq<Text>): SyscallContext {
    SyscallContext(OtherNext, [], trace, 0, 0, 0, 0, 0, p.tier)
  }

  lemma QuietDecides(p: Policy, trace: seq<Text>)
    requires Source(p)
    ensures var ctx := QuietContext(p, trace);
            && (Judge(Some(Compile(p)), seq(|p.loops|, _ => false), ctx).0 == Judged(Allow)
                <==> AllLogged(trace, CompiledReasons(p.loops)))
            && (Violates(p, ctx) <==> !AllLogged(trace, Reasons(p.loops)))
            && !TierFails(p, ctx) && !DeniesTensorHash(p, ctx)
  {
    hide Violates, CompiledViolates, AllLogged, Source, Judge, Compile, MissesEvent;
    var ctx := QuietContext(p, trace);
    CompiledDecides(p, seq(|p.loops|, _ => false), ctx);
    ViolatesByReasons(p, ctx);
  }

  /** The compiled policy decides a context by the clauses of its source and by its tier. */
  predicate DecidesByClauses(p: Policy, ctx: SyscallContext) {
    Judge(Some(Compile(p)), seq(|p.loops|, _ => false), ctx).0
    == Judged(if DeniesTensorHash(p, ctx) || TierFails(p, ctx) || Violates(p, ctx) then Deny else Allow)
  }

  /** Of any policy: once compiled it decides every context by its clauses and its tier
      exactly when its loop requirements demand the same, compiled or not. */
  lemma CompilesFaithfullyIff(p: Policy)
    requires Source(p)
    ensures SameDemands(p.loops) <==> forall ctx :: DecidesByClauses(p, ctx)
  {
    hide Judge, Violates, TierFails, DeniesTensorHash, AllLogged, EmitClauses, EncodeAll;
    var unseen := seq(|p.loops|, _ => false);
    var direct, compiled := Reasons(p.loops), CompiledReasons(p.loops);
    if SameDemands(p.loops) {
      forall ctx ensures DecidesByClauses(p, ctx) {
        CompiledJudges(p, unseen, ctx);
      }
    } else {
      QuietDecides(p, direct);
      QuietDecides(p, compiled);
      AllLogThemselves(direct);
      AllLogThemselves(compiled);
      var ctx := QuietContext(p, if AllLogged(direct, compiled) then compiled else direct);
      assert !DecidesByClauses(p, ctx);
    }
  }

  lemma OneReason(s: Text, t: Text)
    ensures AllLogged([s], [t]) && AllLogged([t], [s]) <==> s == t
  {
    ContainsItself(s);
    assert [s][0] == s && [t][0] == t;
    if Contains(s, t) && Contains(t, s) {
      MutualContainment(s, t);
    }
  }

  /** Requirements that print alike demand the same; a single one only then. */
  lemma SameDemandsIfPrintable(loops: seq<LoopHint>)
    ensures (forall i :: 0 <= i < |loops| ==> Printable(loops[i])) ==> SameDemands(loops)
    ensures |loops| == 1 && SameDemands(loops) ==> Printable(loops[0])
  {
    hide Printable, Expected, CompiledExpectation, AllLogged;
    var direct, compiled := Reasons(loops), CompiledReasons(loops);
    forall i | 0 <= i < |loops| ensures direct[i] == compiled[i] <==> Printable(loops[i]) {
      ExpectationsEqualIffPrintable(loops[i]);
    }
    if forall i :: 0 <= i < |loops| ==> Printable(loops[i]) {
      assert direct == compiled;
      AllLogThemselves(direct);
    }
    if |loops| == 1 && SameDemands(loops) {
      assert direct == [direct[0]] && compiled == [compiled[0]];
      OneReason(direct[0], compiled[0]);
    }
  }

  /** So of policies with one loop requirement exactly those with a printable one compile
      faithfully. */
  lemma LoopCompilesFaithfullyIffPrintable(p: Policy)
    requires Source(p) && |p.loops| == 1
    ensures Printable(p.loops[0]) <==> forall ctx :: DecidesByClauses(p, ctx)
  {
    hide DecidesByClauses, SameDemands, Source, Printable;
    CompilesFaithfullyIff(p);
    SameDemandsIfPrintable(p.loops);
  }
}
