/** What interning keeps over every run, and what comparison of handles means. */
module InterningProofs {
  import opened Word
  import opened Isa
  import opened Wrappers
  import opened GcHeap
  import opened Interning
  import B = WordBits

  // ---------- one interning

  lemma LeafGrounded(pools: Pools, v: Value)
    requires IsLeaf(v)
    ensures Grounded(pools, v) && TreeOf(pools, v) == Leaf(v)
  {
    assert Denotes(pools, v, Leaf(v));
    TreeUnique(pools, v, Leaf(v), TreeOf(pools, v));
  }

  /** A grounded handle is in range. */
  lemma GroundedInRange(pools: Pools, v: Value)
    requires Grounded(pools, v)
    ensures v.tag.OptionHandle? ==> v.word <= |pools.options|
    ensures v.tag.ResultHandle? ==> v.word <= |pools.results|
    ensures v.tag.EnumHandle? ==> v.word <= |pools.enums|
  {
    var t := TreeOf(pools, v);
  }

  lemma WrapsToItself(n: nat)
    requires n < TWO_63
    ensures Wrap(n) == n
  {
  }

  ghost predicate PayloadTree(pools: Pools, hasPayload: bool, payload: Value, p: Tree) {
    hasPayload ==> Denotes(pools, payload, p)
  }

  lemma OptionInterned(pools: Pools, hasValue: bool, payload: Value, p: Tree)
    requires Room(pools, 1) && PayloadTree(pools, hasValue, payload, p)
    ensures var (pools', v) := InternOption(pools, hasValue, payload);
            Grows(pools, pools') && Denotes(pools', v, if hasValue then SomeTree(p) else NoneTree)
  {
    var (pools', v) := InternOption(pools, hasValue, payload);
    WrapsToItself(Intern(pools.options, OptionValue(hasValue, payload), SameOption).1);
    if hasValue {
      DenotesGrows(pools, pools', payload, p);
    }
  }

  lemma ResultInterned(pools: Pools, isOk: bool, payload: Value, p: Tree)
    requires Room(pools, 1) && Denotes(pools, payload, p)
    ensures var (pools', v) := InternResult(pools, isOk, payload);
            Grows(pools, pools') && Denotes(pools', v, if isOk then OkTree(p) else ErrTree(p))
  {
    var (pools', v) := InternResult(pools, isOk, payload);
    WrapsToItself(Intern(pools.results, ResultValue(isOk, payload), SameResult).1);
    DenotesGrows(pools, pools', payload, p);
  }

  lemma EnumInterned(pools: Pools, id: Int32, hasPayload: bool, payload: Value, p: Tree)
    requires Room(pools, 1) && PayloadTree(pools, hasPayload, payload, p)
    ensures var (pools', v) := InternEnum(pools, id, hasPayload, payload);
            Grows(pools, pools') &&
            Denotes(pools', v, if id < 0 then Leaf(v) else if hasPayload then VariantOf(id, p) else Variant(id))
  {
    hide DecodeEnumId;
    var (pools', v) := InternEnum(pools, id, hasPayload, payload);
    if id >= 0 {
      WrapsToItself(Intern(pools.enums, EnumValue(id, hasPayload, payload, DecodeEnumId(id)), SameEnum).1);
      if hasPayload {
        DenotesGrows(pools, pools', payload, p);
      }
    }
  }

  lemma InternKeepsNoDuplicates(pools: Pools, flag: bool, id: Int32, payload: Value)
    requires NoDuplicates(pools)
    ensures NoDuplicates(InternOption(pools, flag, payload).0)
    ensures NoDuplicates(InternResult(pools, flag, payload).0)
    ensures NoDuplicates(InternEnum(pools, id, flag, payload).0)
  {
    hide DecodeEnumId;
    InternKeepsDistinct(pools.options, OptionValue(flag, payload), SameOption);
    InternKeepsDistinct(pools.results, ResultValue(flag, payload), SameResult);
    InternKeepsDistinct(pools.enums, EnumValue(id, flag, payload, DecodeEnumId(id)), SameEnum);
  }

  // ---------- runs

  /** The payloads of every entry stand for trees and are older than their holder. */
  ghost predicate PayloadsOk(pools: Pools) {
    Valid(State(pools, []))
  }

  lemma ValidParts(s: State)
    ensures Valid(s) <==> PayloadsOk(s.pools) && forall i :: 0 <= i < |s.cells| ==> Grounded(s.pools, s.cells[i])
  {
    hide NoDuplicates, Grounded;
  }

  /** A pool that grew by at most one entry, with a payload of before. */
  lemma GrownPayloadsOk(pools: Pools, pools': Pools, payload: Value)
    requires PayloadsOk(pools) && NoDuplicates(pools') && Grows(pools, pools')
    requires |pools'.options| <= |pools.options| + 1 && |pools'.results| <= |pools.results| + 1
    requires |pools'.enums| <= |pools.enums| + 1
    requires |pools'.options| > |pools.options| && pools'.options[|pools.options|].hasValue ==>
               pools'.options[|pools.options|].payload == payload && Grounded(pools, payload)
    requires |pools'.results| > |pools.results| ==>
               pools'.results[|pools.results|].payload == payload && Grounded(pools, payload)
    requires |pools'.enums| > |pools.enums| && pools'.enums[|pools.enums|].hasPayload ==>
               pools'.enums[|pools.enums|].payload == payload && Grounded(pools, payload)
    ensures PayloadsOk(pools')
  {
    hide NoDuplicates, Grounded;
    var s := State(pools, []);
    if Grounded(pools, payload) {
      GroundedInRange(pools, payload);
      GroundedGrows(pools, pools', payload);
    }
    forall i | 0 <= i < |pools'.options| && pools'.options[i].hasValue
      ensures Grounded(pools', pools'.options[i].payload) && OlderThan(pools'.options[i].payload, OptionHandle, i + 1)
    {
      if i < |pools.options| {
        assert pools'.options[i] == s.pools.options[i];
        GroundedGrows(pools, pools', pools.options[i].payload);
      }
    }
    forall i | 0 <= i < |pools'.results|
      ensures Grounded(pools', pools'.results[i].payload) && OlderThan(pools'.results[i].payload, ResultHandle, i + 1)
    {
      if i < |pools.results| {
        assert pools'.results[i] == s.pools.results[i];
        GroundedGrows(pools, pools', pools.results[i].payload);
      }
    }
    forall i | 0 <= i < |pools'.enums| && pools'.enums[i].hasPayload
      ensures Grounded(pools', pools'.enums[i].payload) && OlderThan(pools'.enums[i].payload, EnumHandle, i + 1)
    {
      if i < |pools.enums| {
        assert pools'.enums[i] == s.pools.enums[i];
        GroundedGrows(pools, pools', pools.enums[i].payload);
      }
    }
  }

  /** Putting a value that stands for a tree into a cell, with pools that grew. */
  lemma MadeValid(s: State, a: nat, r: (Pools, Value), payload: Value)
    requires Valid(s) && a < |s.cells| && PayloadsOk(r.0) && Grows(s.pools, r.0) && Grounded(r.0, r.1)
    ensures Valid(Made(s, a, r))
  {
    hide Grounded, PayloadsOk, Valid;
    ValidParts(s);
    forall i | 0 <= i < |s.cells| ensures Grounded(r.0, s.cells[i]) {
      GroundedGrows(s.pools, r.0, s.cells[i]);
    }
    ValidParts(Made(s, a, r));
  }

  lemma DenotesGrounded(pools: Pools, v: Value, t: Tree)
    requires Denotes(pools, v, t)
    ensures Grounded(pools, v)
  {
  }

  lemma MakeOptionValid(s: State, a: nat, hasValue: bool, payload: Value)
    requires Valid(s) && Room(s.pools, 1) && a < |s.cells| && (hasValue ==> Grounded(s.pools, payload))
    ensures Valid(Made(s, a, InternOption(s.pools, hasValue, payload)))
  {
    var r := InternOption(s.pools, hasValue, payload);
    var p := if hasValue then TreeOf(s.pools, payload) else NoneTree;
    OptionInterned(s.pools, hasValue, payload, p);
    InternKeepsNoDuplicates(s.pools, hasValue, 0, payload);
    hide Grounded, Denotes, NoDuplicates, First;
    DenotesGrounded(r.0, r.1, if hasValue then SomeTree(p) else NoneTree);
    ValidParts(s);
    GrownPayloadsOk(s.pools, r.0, payload);
    MadeValid(s, a, r, payload);
  }

  lemma MakeResultValid(s: State, a: nat, isOk: bool, payload: Value)
    requires Valid(s) && Room(s.pools, 1) && a < |s.cells| && Grounded(s.pools, payload)
    ensures Valid(Made(s, a, InternResult(s.pools, isOk, payload)))
  {
    var r := InternResult(s.pools, isOk, payload);
    var p := TreeOf(s.pools, payload);
    ResultInterned(s.pools, isOk, payload, p);
    InternKeepsNoDuplicates(s.pools, isOk, 0, payload);
    hide Grounded, Denotes, NoDuplicates, First;
    DenotesGrounded(r.0, r.1, if isOk then OkTree(p) else ErrTree(p));
    ValidParts(s);
    GrownPayloadsOk(s.pools, r.0, payload);
    MadeValid(s, a, r, payload);
  }

  lemma MakeEnumValid(s: State, a: nat, id: Int32, hasPayload: bool, payload: Value)
    requires Valid(s) && Room(s.pools, 1) && a < |s.cells| && (hasPayload ==> Grounded(s.pools, payload))
    ensures Valid(Made(s, a, InternEnum(s.pools, id, hasPayload, payload)))
  {
    var r := InternEnum(s.pools, id, hasPayload, payload);
    var p := if hasPayload then TreeOf(s.pools, payload) else NoneTree;
    EnumInterned(s.pools, id, hasPayload, payload, p);
    InternKeepsNoDuplicates(s.pools, hasPayload, id, payload);
    hide Grounded, Denotes, NoDuplicates, First, DecodeEnumId;
    DenotesGrounded(r.0, r.1, if id < 0 then Leaf(r.1) else if hasPayload then VariantOf(id, p) else Variant(id));
    ValidParts(s);
    GrownPayloadsOk(s.pools, r.0, payload);
    MadeValid(s, a, r, payload);
  }

  lemma MoveValid(s: State, a: nat, v: Value)
    requires Valid(s) && a < |s.cells| && Grounded(s.pools, v)
    ensures Valid(s.(cells := s.cells[a := v]))
  {
    hide NoDuplicates, Grounded;
  }

  /** Every instruction keeps the machine valid and adds at most one entry. */
  lemma ExecKeepsValid(s: State, op: Op)
    requires Valid(s) && Room(s.pools, 1) && Admissible(s, op) && Exec(s, op).Some?
    ensures Valid(Exec(s, op).value) && |Exec(s, op).value.cells| == |s.cells|
  {
    hide NoDuplicates, Grounded, InternOption, InternResult, InternEnum;
    match op
    case PutLeaf(a, v) => LeafGrounded(s.pools, v); MoveValid(s, a, v);
    case Copy(a, b) => MoveValid(s, a, s.cells[b]);
    case MakeOptionSome(a, b) => MakeOptionValid(s, a, true, s.cells[b]);
    case MakeOptionNone(a) => MakeOptionValid(s, a, false, Value(IntTag, 0));
    case MakeResultOk(a, b) => MakeResultValid(s, a, true, s.cells[b]);
    case MakeResultErr(a, b) => MakeResultValid(s, a, false, s.cells[b]);
    case MakeEnumVariant(a, id) => MakeEnumValid(s, a, Narrow(id), false, Value(IntTag, 0));
    case MakeEnumVariantPayload(a, b, id) => MakeEnumValid(s, a, id, true, s.cells[b]);
    case OptionUnwrap(a, b) => MoveValid(s, a, s.pools.options[s.cells[b].word - 1].payload);
    case ResultUnwrapOk(a, b) => MoveValid(s, a, s.pools.results[s.cells[b].word - 1].payload);
    case ResultUnwrapErr(a, b) => MoveValid(s, a, s.pools.results[s.cells[b].word - 1].payload);
    case EnumUnwrapPayload(a, b) => MoveValid(s, a, s.pools.enums[s.cells[b].word - 1].payload);
  }

  lemma ExecGrows(s: State, op: Op)
    requires Admissible(s, op) && Exec(s, op).Some?
    ensures Grows(s.pools, Exec(s, op).value.pools)
    ensures forall n: nat | n > 0 && Room(s.pools, n) :: Room(Exec(s, op).value.pools, n - 1)
  {
    hide First, DecodeEnumId;
  }

  /** Instructions until one faults. */
  function Run(s: State, ops: seq<Op>): State
    requires forall op :: op in ops ==> Admissible(s, op)
    decreases |ops|
  {
    if ops == [] || Exec(s, ops[0]).None? then s
    else StillAdmissible(s, ops[0], ops[1..]); Run(Exec(s, ops[0]).value, ops[1..])
  }

  lemma StillAdmissible(s: State, op: Op, ops: seq<Op>)
    requires Admissible(s, op) && Exec(s, op).Some? && forall o :: o in ops ==> Admissible(s, o)
    ensures forall o :: o in ops ==> Admissible(Exec(s, op).value, o)
  {
    hide InternOption, InternResult, InternEnum;
  }

  /** Over every run, handles stay trees and equal trees stay equal handles. */
  lemma {:induction false} RunKeepsValid(s: State, ops: seq<Op>)
    requires Valid(s) && Room(s.pools, |ops|) && forall op :: op in ops ==> Admissible(s, op)
    ensures Valid(Run(s, ops)) && Grows(s.pools, Run(s, ops).pools)
    decreases |ops|
  {
    hide Valid, Exec, Admissible;
    if ops != [] && Exec(s, ops[0]).Some? {
      var s1 := Exec(s, ops[0]).value;
      StillAdmissible(s, ops[0], ops[1..]);
      ExecKeepsValid(s, ops[0]);
      ExecGrows(s, ops[0]);
      RunKeepsValid(s1, ops[1..]);
      GrowsTransitive(s.pools, s1.pools, Run(s1, ops[1..]).pools);
    }
  }

  lemma GrowsTransitive(p: Pools, q: Pools, r: Pools)
    requires Grows(p, q) && Grows(q, r)
    ensures Grows(p, r)
  {
  }

  /** A machine just loaded: plain values in every cell. */
  lemma LoadedValid(n: nat)
    ensures Valid(State(Pools([], [], []), seq(n, _ => Value(IntTag, 0))))
  {
    LeafGrounded(Pools([], [], []), Value(IntTag, 0));
  }

  /** Whatever a program has done since it was loaded, two cells hold the same handle
      exactly when they stand for the same tree. */
  lemma RunIsHashConsing(n: nat, ops: seq<Op>, i: nat, j: nat)
    requires |ops| < TWO_63 && i < n && j < n
    requires forall op :: op in ops ==> Admissible(State(Pools([], [], []), seq(n, _ => Value(IntTag, 0))), op)
    ensures var s := Run(State(Pools([], [], []), seq(n, _ => Value(IntTag, 0))), ops);
            && |s.cells| == n
            && Grounded(s.pools, s.cells[i]) && Grounded(s.pools, s.cells[j])
            && (s.cells[i] == s.cells[j] <==> TreeOf(s.pools, s.cells[i]) == TreeOf(s.pools, s.cells[j]))
  {
    var s0 := State(Pools([], [], []), seq(n, _ => Value(IntTag, 0)));
    LoadedValid(n);
    RunKeepsValid(s0, ops);
    RunKeepsCells(s0, ops);
    var s := Run(s0, ops);
    HandlesAreTrees(s.pools, s.cells[i], s.cells[j]);
  }

  lemma {:induction false} RunKeepsCells(s: State, ops: seq<Op>)
    requires forall op :: op in ops ==> Admissible(s, op)
    ensures |Run(s, ops).cells| == |s.cells|
    decreases |ops|
  {
    hide InternOption, InternResult, InternEnum;
    if ops != [] && Exec(s, ops[0]).Some? {
      StillAdmissible(s, ops[0], ops[1..]);
      RunKeepsCells(Exec(s, ops[0]).value, ops[1..]);
    }
  }

  /** The number of an enum is what a shift by 16 leaves of the number of its variant. */
  lemma EnumNumberIsShift(variant: Int32)
    requires variant >= 0
    ensures DecodeEnumId(variant) == Shift(Arithmetic, variant, 16)
  {
    PowerSixteen();
    hide Power2;
  }

  lemma PowerSixteen()
    ensures Power2(16) == 65536
  {
    hide Power2;
    B.PowerStep(0);
    B.PowerSum(1, 1);
    B.PowerSum(2, 2);
    B.PowerSum(4, 4);
    B.PowerSum(8, 8);
  }

  // ---------- the machine of trees

  /** The cell an instruction reads. */
  function Source(op: Op): nat {
    match op
    case Copy(_, b) => b
    case MakeOptionSome(_, b) => b
    case MakeResultOk(_, b) => b
    case MakeResultErr(_, b) => b
    case MakeEnumVariantPayload(_, b, _) => b
    case OptionUnwrap(_, b) => b
    case ResultUnwrapOk(_, b) => b
    case ResultUnwrapErr(_, b) => b
    case EnumUnwrapPayload(_, b) => b
    case _ => op.a
  }

  /** What an instruction makes of the tree it reads, handles aside; `None` is a fault. */
  function TreeStep(op: Op, t: Tree): Option<Tree> {
    match op
    case PutLeaf(_, v) => Some(Leaf(v))
    case Copy(_, _) => Some(t)
    case MakeOptionSome(_, _) => Some(SomeTree(t))
    case MakeOptionNone(_) => Some(NoneTree)
    case MakeResultOk(_, _) => Some(OkTree(t))
    case MakeResultErr(_, _) => Some(ErrTree(t))
    case MakeEnumVariant(_, word) =>
      Some(if Narrow(word) < 0 then Leaf(Value(EnumHandle, 0)) else Variant(Narrow(word)))
    case MakeEnumVariantPayload(_, _, id) => if id < 0 then None else Some(VariantOf(id, t))
    case OptionUnwrap(_, _) => if t.SomeTree? then Some(t.payload) else None
    case ResultUnwrapOk(_, _) => if t.OkTree? then Some(t.payload) else None
    case ResultUnwrapErr(_, _) => if t.ErrTree? then Some(t.payload) else None
    case EnumUnwrapPayload(_, _) => if t.VariantOf? then Some(t.payload) else None
  }

  /** Instructions on trees until one faults. */
  function TreeRun(trees: seq<Tree>, ops: seq<Op>): (r: seq<Tree>)
    requires forall op :: op in ops ==> op.a < |trees| && Source(op) < |trees|
    ensures |r| == |trees|
    decreases |ops|
  {
    if ops == [] || TreeStep(ops[0], trees[Source(ops[0])]).None? then trees
    else TreeRun(trees[ops[0].a := TreeStep(ops[0], trees[Source(ops[0])]).value], ops[1..])
  }

  /** The trees that the cells of a machine stand for. */
  ghost function Trees(s: State): (r: seq<Tree>)
    requires forall i :: 0 <= i < |s.cells| ==> Grounded(s.pools, s.cells[i])
    ensures |r| == |s.cells|
  {
    seq(|s.cells|, i requires 0 <= i < |s.cells| => TreeOf(s.pools, s.cells[i]))
  }

  lemma AdmissibleSource(s: State, op: Op)
    requires Admissible(s, op)
    ensures op.a < |s.cells| && Source(op) < |s.cells|
  {
  }

  /** The value an instruction puts into its cell, and the pools it leaves. */
  lemma PutMeaning(s: State, op: Op)
    requires Valid(s) && Room(s.pools, 1) && Admissible(s, op)
    ensures Source(op) < |s.cells| && Grounded(s.pools, s.cells[Source(op)])
    ensures var t := TreeStep(op, TreeOf(s.pools, s.cells[Source(op)]));
            && (Exec(s, op).Some? <==> t.Some?)
            && (t.Some? ==> Denotes(Exec(s, op).value.pools, Exec(s, op).value.cells[op.a], t.value))
  {
    hide NoDuplicates, InternOption, InternResult, InternEnum;
    var v := s.cells[Source(op)];
    var t := TreeOf(s.pools, v);
    match op
    case MakeOptionSome(_, _) => OptionInterned(s.pools, true, v, t);
    case MakeOptionNone(_) => OptionInterned(s.pools, false, Value(IntTag, 0), t);
    case MakeResultOk(_, _) => ResultInterned(s.pools, true, v, t);
    case MakeResultErr(_, _) => ResultInterned(s.pools, false, v, t);
    case MakeEnumVariant(_, word) =>
      EnumInterned(s.pools, Narrow(word), false, Value(IntTag, 0), t);
      NegativeVariant(s.pools, Narrow(word));
    case MakeEnumVariantPayload(_, _, id) =>
      if id >= 0 {
        EnumInterned(s.pools, id, true, v, t);
      }
    case _ =>
  }

  lemma NegativeVariant(pools: Pools, id: Int32)
    ensures id < 0 ==> InternEnum(pools, id, false, Value(IntTag, 0)).1 == Value(EnumHandle, 0)
  {
  }

  /** An instruction on handles is the instruction on trees: it faults alike, and the cell it
      writes stands for the tree it makes, while every other cell keeps its own. */
  lemma ExecIsTreeStep(s: State, op: Op)
    requires Valid(s) && Room(s.pools, 1) && Admissible(s, op)
    ensures op.a < |s.cells| && Source(op) < |s.cells|
    ensures var t := TreeStep(op, Trees(s)[Source(op)]);
            && (Exec(s, op).Some? <==> t.Some?)
            && (t.Some? ==> Valid(Exec(s, op).value) && Trees(Exec(s, op).value) == Trees(s)[op.a := t.value])
  {
    hide NoDuplicates, Exec, Denotes, Grounded, TreeStep, Admissible;
    AdmissibleSource(s, op);
    PutMeaning(s, op);
    if Exec(s, op).Some? {
      var s1 := Exec(s, op).value;
      ExecKeepsValid(s, op);
      ExecGrows(s, op);
      OnlyCell(s, op);
      TreeUnique(s1.pools, s1.cells[op.a], TreeOf(s1.pools, s1.cells[op.a]),
                 TreeStep(op, Trees(s)[Source(op)]).value);
      forall i | 0 <= i < |s.cells| && i != op.a ensures TreeOf(s1.pools, s1.cells[i]) == TreeOf(s.pools, s.cells[i]) {
        GroundedGrows(s.pools, s1.pools, s.cells[i]);
      }
    }
  }

  lemma OnlyCell(s: State, op: Op)
    requires Admissible(s, op) && Exec(s, op).Some?
    ensures var s1 := Exec(s, op).value;
            |s1.cells| == |s.cells| && forall i :: 0 <= i < |s.cells| && i != op.a ==> s1.cells[i] == s.cells[i]
  {
    hide InternOption, InternResult, InternEnum;
  }

  /** The machine with interned handles refines the machine that copies whole trees. */
  lemma {:induction false} RunIsTreeRun(s: State, ops: seq<Op>)
    requires Valid(s) && Room(s.pools, |ops|) && forall op :: op in ops ==> Admissible(s, op)
    ensures Valid(Run(s, ops))
    ensures forall op :: op in ops ==> op.a < |s.cells| && Source(op) < |s.cells|
    ensures Trees(Run(s, ops)) == TreeRun(Trees(s), ops)
    decreases |ops|
  {
    hide Exec, Admissible, TreeStep, NoDuplicates, Grounded;
    forall op | op in ops ensures op.a < |s.cells| && Source(op) < |s.cells| {
      AdmissibleSource(s, op);
    }
    if ops != [] {
      ExecIsTreeStep(s, ops[0]);
      if Exec(s, ops[0]).Some? {
        StillAdmissible(s, ops[0], ops[1..]);
        ExecGrows(s, ops[0]);
        RunIsTreeRun(Exec(s, ops[0]).value, ops[1..]);
      }
    }
  }
}
