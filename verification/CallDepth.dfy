/** Cognitive tiers and call depth: calls promote, quiet stretches demote, and the depth
    stays within the limit of the current tier. */
module CallDepth {
  import opened Wrappers

  /** `TierId`, as `tier_rank` numbers it. */
  type Rank = r: int | 0 <= r <= 5

  const CEILING := 729

  /** `recursion_limit_for_tier`. */
  function Limit(r: Rank): nat {
    match r
    case 0 => 0
    case 1 => 1
    case 2 => 10
    case 3 => 81
    case 4 => 243
    case _ => 729
  }

  /** `tier_from_rank`. */
  function FromRank(r: int): Rank {
    if r < 0 then 0 else if r > 5 then 5 else r
  }

  /** What the policy engine answers to the n-th request for a promotion. */
  type Engine = nat -> bool

  /** Tier, and how many promotions have been asked for. */
  datatype Status = Status(rank: Rank, asked: nat)

  /** `try_promote`: one rank, if there is one and the engine agrees. */
  function TryPromote(engine: Engine, s: Status): (Status, bool) {
    if s.rank == 5 then (s, false)
    else if !engine(s.asked) then (s.(asked := s.asked + 1), false)
    else (Status(s.rank + 1, s.asked + 1), true)
  }

  /** `ensure_min_tier`. */
  function EnsureMinTier(engine: Engine, s: Status, required: Rank): (Status, bool)
    decreases required - s.rank
  {
    if s.rank >= required then (s, true)
    else
      var (s', granted) := TryPromote(engine, s);
      if granted then EnsureMinTier(engine, s', required) else (s', false)
  }

  /** A promotion loop: rank by rank, as long as the current tier is too low. */
  function PromoteWhile(engine: Engine, s: Status, tooLow: Rank -> bool): (Status, bool)
    decreases 5 - s.rank
  {
    if !tooLow(s.rank) || s.rank == 5 then (s, true)
    else
      var (s', granted) := EnsureMinTier(engine, s, FromRank(s.rank + 1));
      NextRank(engine, s);
      if granted then PromoteWhile(engine, s', tooLow) else (s', false)
  }

  lemma NextRank(engine: Engine, s: Status)
    requires s.rank < 5
    ensures var (s', granted) := EnsureMinTier(engine, s, FromRank(s.rank + 1));
            if engine(s.asked) then granted && s' == Status(s.rank + 1, s.asked + 1)
            else !granted && s' == Status(s.rank, s.asked + 1)
  {
    if engine(s.asked) {
      assert EnsureMinTier(engine, Status(s.rank + 1, s.asked + 1), FromRank(s.rank + 1)).1;
    }
  }

  // ---------- the machine

  datatype State = State(depth: nat, status: Status, quiet: nat)

  datatype Fault = TierFault | SecurityFault | DecodeFault | StackFault | TypeFault

  /** What else happens to a call: the target is a code address, the stack has room. */
  datatype Op =
    | Call(target: bool, room: bool)
    | Ret(popped: bool, tagged: bool, target: bool)
    | Require(rank: Rank)
    | Observe(tooLow: Rank -> bool)
    | Settle(load: Load)

  /** What a step observes besides the calls in progress: the depth of the tier-3 recursor,
      the entropy of the branches of the current epoch, the complexity of symbolic graphs and
      of tensors, and whether there are messages, infinite forms and symbolic graphs. */
  datatype Load = Load(
    recursor: nat, entropy: real, symbolic: nat, shape: nat, tensorRank: nat,
    messages: bool, infinite: bool, graphs: bool)

  /** The tiers that do not admit a depth. */
  function TooShallow(depth: nat): Rank -> bool {
    (r: Rank) => depth > Limit(r)
  }

  function ExecCall(engine: Engine, s: State, target: bool, room: bool): (State, Option<Fault>) {
    var next := s.depth + 1;
    var (status, granted) := PromoteWhile(engine, s.status, TooShallow(next));
    var s1 := s.(status := status);
    if !granted then (s1, Some(TierFault))
    else if next > Limit(status.rank) then (s1, Some(TierFault))
    else if s.depth >= CEILING then (s1, Some(SecurityFault))
    else if !target then (s1, Some(DecodeFault))
    else if !room then (s1, Some(StackFault))
    else (s1.(depth := next), None)
  }

  /** A return without a call is counted elsewhere and leaves the depth at zero. */
  function ExecRet(s: State, popped: bool, tagged: bool, target: bool): (State, Option<Fault>) {
    if !popped then (s, Some(StackFault))
    else if !tagged then (s, Some(TypeFault))
    else if !target then (s, Some(DecodeFault))
    else (s.(depth := if s.depth > 0 then s.depth - 1 else 0), None)
  }

  /** The lowest tier for a recursion of this depth. */
  function RankForDepth(depth: nat): (r: Rank)
    ensures r >= 1
  {
    if depth > Limit(4) then 5
    else if depth > Limit(3) then 4
    else if depth > Limit(2) then 3
    else if depth > Limit(1) then 2
    else 1
  }

  function Max(x: int, y: int): int {
    if x < y then y else x
  }

  /** The rank of the entropy band; zero below the first. */
  function EntropyRank(entropy: real): int {
    if entropy > 243.0 then 5
    else if entropy > 162.0 then 4
    else if entropy > 64.0 then 3
    else if entropy > 16.0 then 2
    else 0
  }

  /** The lowest tier for everything but recursion and entropy. */
  function ComplexityRank(load: Load): int {
    if load.infinite then 5
    else if load.messages then 4
    else if load.symbolic > 81 || load.tensorRank > 3 || load.shape > 19683 then 3
    else if load.tensorRank > 1 || load.shape > 81 then 2
    else 0
  }

  /** The tier a step requires: it starts from the recursion, which a band of entropy
      replaces; everything after that can only raise it. */
  function Required(depth: nat, load: Load): (r: int)
    ensures 1 <= r <= 5
  {
    var r0 := Max(1, RankForDepth(Deepest(depth, load)));
    var r1 := if load.entropy > 16.0 then 2 else r0;
    var r2 := if load.entropy > 64.0 then 3 else r1;
    var r3 := if load.entropy > 162.0 then 4 else r2;
    var r4 := if load.entropy > 243.0 then 5 else r3;
    var r5 := if load.symbolic > 81 then Max(r4, 3) else r4;
    var r6 := if load.tensorRank > 1 || load.shape > 81 then Max(r5, 2) else r5;
    var r7 := if load.tensorRank > 3 || load.shape > 19683 then Max(r6, 3) else r6;
    var r8 := if load.messages then Max(r7, 4) else r7;
    if load.infinite then Max(r8, 5) else r8
  }

  function Deepest(depth: nat, load: Load): nat {
    Max(depth, load.recursor)
  }

  /** Nothing that needs a higher tier is left. */
  predicate Converged(load: Load, candidate: int) {
    && (candidate < 5 ==> !load.infinite)
    && (candidate < 4 ==> !load.messages)
    && (candidate < 3 ==> !load.graphs)
  }

  /** After a step: a tier above what is required is left after 81 such steps, if the calls
      in progress and everything else fit the tier below. */
  function ExecSettle(s: State, load: Load): State {
    var required := Required(s.depth, load);
    if required < s.status.rank then
      var quiet := s.quiet + 1;
      var candidate := s.status.rank - 1;
      if quiet < 81 then s.(quiet := quiet)
      else if && s.depth <= Limit(FromRank(candidate)) && load.recursor <= Limit(FromRank(candidate))
              && Converged(load, candidate) && candidate >= required
      then s.(status := s.status.(rank := FromRank(candidate)), quiet := 0)
      else s.(quiet := quiet)
    else s.(quiet := 0)
  }

  function Exec(engine: Engine, s: State, op: Op): (State, Option<Fault>) {
    match op
    case Call(target, room) => ExecCall(engine, s, target, room)
    case Ret(popped, tagged, target) => ExecRet(s, popped, tagged, target)
    case Require(rank) =>
      var (status, granted) := EnsureMinTier(engine, s.status, rank);
      (s.(status := status), if granted then None else Some(TierFault))
    case Observe(tooLow) =>
      var (status, granted) := PromoteWhile(engine, s.status, tooLow);
      (s.(status := status), if granted && !tooLow(status.rank) then None else Some(TierFault))
    case Settle(load) => (ExecSettle(s, load), None)
  }

  /** A fault ends the run. */
  function Run(engine: Engine, s: State, ops: seq<Op>): State
    decreases |ops|
  {
    if ops == [] then s
    else
      var (s', fault) := Exec(engine, s, ops[0]);
      if fault.Some? then s' else Run(engine, s', ops[1..])
  }

  // ---------- safety

  predicate Safe(s: State) {
    s.depth <= Limit(s.status.rank)
  }

  lemma LimitsGrow(r: Rank, q: Rank)
    requires r <= q
    ensures Limit(r) <= Limit(q) <= CEILING
  {
  }

  /** The request on which rank `r` is left. */
  function Request(s: Status, r: int): nat
    requires s.rank <= r
  {
    s.asked + (r - s.rank)
  }

  /** Promotion ends, never lowers the tier, asks only while it is too low, and stops at the
      first tier that is not, or at the first refusal. */
  lemma {:induction false} PromoteWhileStops(engine: Engine, s: Status, tooLow: Rank -> bool)
    ensures var (s', granted) := PromoteWhile(engine, s, tooLow);
            && s.rank <= s'.rank
            && (forall r: Rank :: s.rank <= r < s'.rank ==> tooLow(r) && engine(Request(s, r)))
            && (granted ==> !tooLow(s'.rank) || s'.rank == 5)
            && (!granted ==> tooLow(s'.rank) && s'.rank < 5 && !engine(Request(s, s'.rank)))
    decreases 5 - s.rank
  {
    hide EnsureMinTier;
    if tooLow(s.rank) && s.rank < 5 {
      NextRank(engine, s);
      if engine(s.asked) {
        var s1 := Status(s.rank + 1, s.asked + 1);
        PromoteWhileStops(engine, s1, tooLow);
        forall r: Rank | s.rank <= r < PromoteWhile(engine, s, tooLow).0.rank
          ensures tooLow(r) && engine(Request(s, r))
        {
          if r > s.rank {
            assert tooLow(r) && Request(s1, r) == Request(s, r);
          }
        }
      }
    }
  }

  lemma {:induction false} EnsureMinTierRaises(engine: Engine, s: Status, required: Rank)
    ensures var (s', granted) := EnsureMinTier(engine, s, required);
            s.rank <= s'.rank && (granted ==> required <= s'.rank) && s'.rank <= Max(s.rank, required)
    decreases required - s.rank
  {
    if s.rank < required && engine(s.asked) {
      EnsureMinTierRaises(engine, Status(s.rank + 1, s.asked + 1), required);
    }
  }

  lemma ExecKeepsSafe(engine: Engine, s: State, op: Op)
    requires Safe(s)
    ensures Safe(Exec(engine, s, op).0)
  {
    hide PromoteWhile, EnsureMinTier, Limit;
    match op
    case Call(_, _) =>
      var next := s.depth + 1;
      PromoteWhileStops(engine, s.status, TooShallow(next));
      LimitsGrow(s.status.rank, Exec(engine, s, op).0.status.rank);
    case Ret(_, _, _) =>
    case Require(rank) =>
      EnsureMinTierRaises(engine, s.status, rank);
      LimitsGrow(s.status.rank, Exec(engine, s, op).0.status.rank);
    case Observe(tooLow) =>
      PromoteWhileStops(engine, s.status, tooLow);
      LimitsGrow(s.status.rank, Exec(engine, s, op).0.status.rank);
    case Settle(_) =>
  }

  /** In every reachable state the call depth is within the limit of the current tier, and so
      within the ceiling, whatever the engine answers. */
  lemma {:induction false} RunKeepsSafe(engine: Engine, s: State, ops: seq<Op>)
    requires Safe(s)
    ensures Safe(Run(engine, s, ops)) && Run(engine, s, ops).depth <= CEILING
    decreases |ops|
  {
    hide Exec;
    if ops == [] {
      LimitsGrow(s.status.rank, 5);
    } else {
      ExecKeepsSafe(engine, s, ops[0]);
      var (s', fault) := Exec(engine, s, ops[0]);
      if fault.Some? {
        LimitsGrow(s'.status.rank, 5);
      } else {
        RunKeepsSafe(engine, s', ops[1..]);
      }
    }
  }

  /** The branch of the hard ceiling is dead: in no state at all, reachable or not, does a
      call end there. */
  lemma CeilingUnreachable(engine: Engine, s: State, target: bool, room: bool)
    ensures ExecCall(engine, s, target, room).1 != Some(SecurityFault)
  {
    var next := s.depth + 1;
    LimitsGrow(PromoteWhile(engine, s.status, TooShallow(next)).0.rank, 5);
  }

  /** When a call goes through: the depth stays within the ceiling, every promotion it needs
      is granted, and the target and the stack are in order.  Its tier is then the lowest,
      from the current one up, that admits the depth. */
  lemma CallSucceedsIff(engine: Engine, s: State, target: bool, room: bool)
    ensures var (s', fault) := ExecCall(engine, s, target, room);
            && (fault.None? <==>
                  && s.depth < CEILING && target && room
                  && forall r: Rank :: s.status.rank <= r < 5 && s.depth + 1 > Limit(r) ==>
                     engine(Request(s.status, r)))
            && (fault.None? ==>
                  && s'.depth == s.depth + 1 && s.status.rank <= s'.status.rank
                  && s'.depth <= Limit(s'.status.rank)
                  && forall r: Rank :: s.status.rank <= r < s'.status.rank ==> s'.depth > Limit(r))
            && (fault.Some? ==> s'.depth == s.depth)
  {
    hide PromoteWhile, Limit;
    var next := s.depth + 1;
    var tooLow := TooShallow(next);
    PromoteWhileStops(engine, s.status, tooLow);
    var (status, granted) := PromoteWhile(engine, s.status, tooLow);
    TopLimit(status.rank);
    forall r: Rank | status.rank <= r ensures Limit(status.rank) <= Limit(r) {
      LimitsGrow(status.rank, r);
    }
    assert tooLow(status.rank) <==> next > Limit(status.rank);
    forall r: Rank | s.status.rank <= r < status.rank
      ensures next > Limit(r) && engine(Request(s.status, r))
    {
      assert tooLow(r);
    }
  }

  /** The tiers by the depths they admit: a call that goes through leaves the machine in the
      tier of its depth, unless it was in a higher one. */
  lemma TierOfDepth(engine: Engine, s: State, target: bool, room: bool)
    requires ExecCall(engine, s, target, room).1.None?
    ensures var s' := ExecCall(engine, s, target, room).0;
            var least := if s'.depth <= 1 then 1 else if s'.depth <= 10 then 2 else if s'.depth <= 81 then 3
                         else if s'.depth <= 243 then 4 else 5;
            && 1 <= s'.depth == s.depth + 1 <= 729
            && s'.status.rank == if s.status.rank < least then least else s.status.rank
  {
    hide ExecCall;
    CallSucceedsIff(engine, s, target, room);
    var s' := ExecCall(engine, s, target, room).0;
    if s.status.rank < s'.status.rank {
      assert s'.depth > Limit(s'.status.rank - 1);
    }
  }

  lemma TopLimit(r: Rank)
    ensures Limit(r) <= CEILING && (r == 5 ==> Limit(r) == CEILING)
  {
  }

  /** When exactly a tier is left: after 81 steps that required less, if calls, recursor and
      everything else fit the tier below.  The depth never changes, and the tier goes down by
      one at most. */
  lemma SettleDemotesIff(s: State, load: Load)
    ensures var s', rank := ExecSettle(s, load), s.status.rank;
            && s'.depth == s.depth && rank - 1 <= s'.status.rank <= rank
            && (s'.status.rank < rank <==>
                  && Required(s.depth, load) < rank && s.quiet >= 80
                  && Deepest(s.depth, load) <= Limit(FromRank(rank - 1)) && Converged(load, rank - 1))
  {
    hide Required;
  }

  /** Of what else is tested before a tier is left only the symbolic graphs count: messages and
      infinite forms already require the tiers that admit them. */
  lemma OnlyGraphsCount(depth: nat, load: Load, candidate: int)
    requires Required(depth, load) <= candidate
    ensures Converged(load, candidate) <==> (load.graphs ==> candidate >= 3)
    ensures load.messages ==> candidate >= 4
    ensures load.infinite ==> candidate >= 5
  {
  }

  /** A rank covers a depth exactly when it is not below the rank of the depth. */
  lemma CoversIff(depth: nat, r: int)
    requires 1 <= r < 5
    ensures depth <= Limit(FromRank(r)) <==> r >= RankForDepth(depth)
  {
  }

  /** The required tier covers the recursion exactly when the entropy is below its first band,
      or its band is high enough, or something else raises the tier far enough. */
  lemma RequiredCoversIff(depth: nat, load: Load)
    ensures var need := RankForDepth(Deepest(depth, load));
            Required(depth, load) >= need <==>
              || EntropyRank(load.entropy) == 0 || EntropyRank(load.entropy) >= need
              || ComplexityRank(load) >= need
  {
    RequiredIs(depth, load);
  }

  /** The required tier in one formula. */
  lemma RequiredIs(depth: nat, load: Load)
    ensures var band := EntropyRank(load.entropy);
            var base := if band == 0 then RankForDepth(Deepest(depth, load)) else band;
            Required(depth, load) == Max(base, ComplexityRank(load))
  {
    hide RankForDepth, Deepest;
  }

  /** From this tier the step would go down, if the depths fitted the tier below. */
  predicate DepthRefuses(depth: nat, load: Load, rank: Rank) {
    Required(depth, load) < rank && Deepest(depth, load) > Limit(FromRank(rank - 1))
  }

  /** The test of the depths decides a demotion exactly when the required tier does not cover
      the recursion: only then does it refuse a tier above the required one. */
  lemma DepthTestDecidesIff(depth: nat, load: Load)
    ensures (exists rank: Rank :: DepthRefuses(depth, load, rank))
            <==> Required(depth, load) < RankForDepth(Deepest(depth, load))
  {
    hide Required;
    var r, d := Required(depth, load), Deepest(depth, load);
    if r < RankForDepth(d) {
      var rank: Rank := r + 1;
      CoversIff(d, r);
      assert DepthRefuses(depth, load, rank);
    } else {
      forall rank: Rank ensures !DepthRefuses(depth, load, rank) {
        if r < rank {
          CoversIff(d, rank - 1);
        }
      }
    }
  }

  /** A call depth of 100 needs tier 4, and a little entropy makes the step require tier 2: the
      steps count as quiet, and the tier stays only because the depth is tested again. */
  lemma EntropyHidesRecursion(asked: nat, quiet: nat)
    requires quiet >= 80
    ensures var load := Load(0, 20.0, 0, 0, 0, false, false, false);
            var s := State(100, Status(4, asked), quiet);
            && Safe(s) && RankForDepth(100) == 4 && Required(100, load) == 2
            && ExecSettle(s, load) == s.(quiet := quiet + 1)
  {
  }

  // ---------- the loops as they run

  class Controller {
    const engine: Engine
    var rank: Rank
    var asked: nat
    var depth: nat
    var quiet: nat

    function View(): State
      reads this
    {
      State(depth, Status(rank, asked), quiet)
    }

    constructor (answers: Engine)
      ensures engine == answers && View() == State(0, Status(0, 0), 0) && Safe(View())
    {
      engine := answers;
      rank, asked, depth, quiet := 0, 0, 0, 0;
    }

    /** `ensure_min_tier`. */
    method Ensure(required: Rank) returns (granted: bool)
      modifies `rank, `asked
      ensures (Status(rank, asked), granted) == EnsureMinTier(engine, old(Status(rank, asked)), required)
    {
      while rank < required
        invariant EnsureMinTier(engine, old(Status(rank, asked)), required) ==
                  EnsureMinTier(engine, Status(rank, asked), required)
        decreases required - rank
      {
        var allowed := engine(asked);
        asked := asked + 1;
        if !allowed {
          return false;
        }
        rank := rank + 1;
      }
      granted := true;
    }

    /** `promote_to_fit_tier_limit`, and the loop of `Call`. */
    method Fit(tooLow: Rank -> bool) returns (granted: bool)
      modifies `rank, `asked
      ensures (Status(rank, asked), granted) == PromoteWhile(engine, old(Status(rank, asked)), tooLow)
    {
      hide EnsureMinTier;
      while tooLow(rank) && rank != 5
        invariant PromoteWhile(engine, old(Status(rank, asked)), tooLow) ==
                  PromoteWhile(engine, Status(rank, asked), tooLow)
        decreases 5 - rank
      {
        NextRank(engine, Status(rank, asked));
        granted := Ensure(FromRank(rank + 1));
        if !granted {
          return false;
        }
      }
      granted := true;
    }

    method EnterCall(target: bool, room: bool) returns (fault: Option<Fault>)
      requires Safe(View())
      modifies `rank, `asked, `depth
      ensures (View(), fault) == ExecCall(engine, old(View()), target, room)
      ensures Safe(View()) && fault != Some(SecurityFault)
    {
      hide PromoteWhile;
      ExecKeepsSafe(engine, View(), Call(target, room));
      CeilingUnreachable(engine, View(), target, room);
      var next := depth + 1;
      var granted := Fit(TooShallow(next));
      if !granted || next > Limit(rank) {
        return Some(TierFault);
      }
      if depth >= CEILING {
        return Some(SecurityFault);
      }
      if !target {
        return Some(DecodeFault);
      }
      if !room {
        return Some(StackFault);
      }
      depth := next;
      fault := None;
    }

    /** The end of a step: the required tier is raised test by test, and a tier that has not
        been required for 81 steps is left. */
    method Settled(load: Load)
      requires Safe(View())
      modifies `rank, `quiet
      ensures View() == ExecSettle(old(View()), load) && Safe(View())
    {
      hide RankForDepth, Limit;
      var required := Max(1, RankForDepth(Deepest(depth, load)));
      if load.entropy > 16.0 { required := 2; }
      if load.entropy > 64.0 { required := 3; }
      if load.entropy > 162.0 { required := 4; }
      if load.entropy > 243.0 { required := 5; }
      if load.symbolic > 81 { required := Max(required, 3); }
      if load.tensorRank > 1 || load.shape > 81 { required := Max(required, 2); }
      if load.tensorRank > 3 || load.shape > 19683 { required := Max(required, 3); }
      if load.messages { required := Max(required, 4); }
      if load.infinite { required := Max(required, 5); }
      if required >= rank {
        quiet := 0;
        return;
      }
      quiet := quiet + 1;
      if quiet >= 81 {
        var candidate := rank - 1;
        var fits := depth <= Limit(FromRank(candidate)) && load.recursor <= Limit(FromRank(candidate));
        if fits && Converged(load, candidate) && candidate >= required {
          rank, quiet := FromRank(candidate), 0;
        }
      }
    }
  }
}
