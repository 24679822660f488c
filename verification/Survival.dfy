/** What a collection keeps, told by what the values stand for: the tensors and infinite
    forms that are leaves of the trees in registers, memory words and snapshots. */
module Survival {
  import opened Isa
  import opened Wrappers
  import opened GcHeap
  import opened Interning
  import opened InterningProofs
  import T = TensorHeap

  /** `w` is the value at the bottom of the tree. */
  predicate LeafOf(t: Tree, w: Value) {
    match t
    case Leaf(v) => v == w
    case NoneTree => false
    case SomeTree(p) => LeafOf(p, w)
    case OkTree(p) => LeafOf(p, w)
    case ErrTree(p) => LeafOf(p, w)
    case Variant(_) => false
    case VariantOf(_, p) => LeafOf(p, w)
  }

  /** Some root stands for a tree with the value at its bottom. */
  ghost predicate Held(roots: Roots, pools: Pools, w: Value) {
    exists v :: IsRoot(roots, v) && Grounded(pools, v) && LeafOf(TreeOf(pools, v), w)
  }

  lemma {:induction false} LeafReachable(roots: Roots, pools: Pools, v: Value, t: Tree, w: Value)
    requires Reachable(roots, pools, v) && Denotes(pools, v, t) && LeafOf(t, w)
    ensures Reachable(roots, pools, w)
    decreases t
  {
    hide IsRoot, Leads;
    if t.SomeTree? {
      PayloadReachable(roots, pools, v, pools.options[v.word - 1].payload);
      LeafReachable(roots, pools, pools.options[v.word - 1].payload, t.payload, w);
    } else if t.OkTree? || t.ErrTree? {
      PayloadReachable(roots, pools, v, pools.results[v.word - 1].payload);
      LeafReachable(roots, pools, pools.results[v.word - 1].payload, t.payload, w);
    } else if t.VariantOf? {
      PayloadReachable(roots, pools, v, pools.enums[v.word - 1].payload);
      LeafReachable(roots, pools, pools.enums[v.word - 1].payload, t.payload, w);
    }
  }

  /** Whatever mix of options, results and enum values a root stands for, the tensor or the
      infinite form at the bottom survives every collection. */
  lemma LeavesSurvive(h: T.Heap, roots: Roots, pools: Pools, v: Value, t: Tree, w: Value)
    requires IsRoot(roots, v) && Denotes(pools, v, t) && LeafOf(t, w)
    ensures |T.Collect(h, roots, pools).tensors| == |h.tensors|
    ensures |T.Collect(h, roots, pools).infinites| == |h.infinites|
    ensures w.tag.TensorHandle? && 0 < w.word <= |h.tensors| ==>
              T.Collect(h, roots, pools).tensors[w.word - 1] == h.tensors[w.word - 1]
    ensures w.tag.InfiniteHandle? && 0 < w.word <= |h.infinites| ==>
              T.Collect(h, roots, pools).infinites[w.word - 1] == h.infinites[w.word - 1]
  {
    hide Reachable, T.Collect, Denotes, IsRoot, LeafOf;
    RootReachable(roots, pools, v);
    LeafReachable(roots, pools, v, t, w);
    T.CollectExact(h, roots, pools);
    if w.tag.TensorHandle? && 0 < w.word <= |h.tensors| {
      assert SlotReachable(roots, pools, TensorHandle, w.word - 1);
    }
    if w.tag.InfiniteHandle? && 0 < w.word <= |h.infinites| {
      assert SlotReachable(roots, pools, InfiniteHandle, w.word - 1);
    }
  }

  // ---------- and nothing else does

  /** An empty option has no payload to speak of: it is made with an integer. */
  predicate EmptyOptionsInert(pools: Pools) {
    forall i :: 0 <= i < |pools.options| && !pools.options[i].hasValue ==> pools.options[i].payload.tag == IntTag
  }

  ghost predicate RootsGrounded(roots: Roots, pools: Pools) {
    forall v :: IsRoot(roots, v) ==> Grounded(pools, v)
  }

  /** What is at the bottom of this value is at the bottom of a root. */
  ghost predicate Accounted(roots: Roots, pools: Pools, u: Value) {
    u.tag.IntTag? || (Grounded(pools, u) && forall w :: LeafOf(TreeOf(pools, u), w) ==> Held(roots, pools, w))
  }

  lemma PayloadAccounted(roots: Roots, pools: Pools, u: Value, w: Value)
    requires EmptyOptionsInert(pools) && Accounted(roots, pools, u) && Payload(pools, u) == Some(w)
    ensures Accounted(roots, pools, w)
  {
    hide Held, Grounded;
    var t := TreeOf(pools, u);
    if t.SomeTree? || t.OkTree? || t.ErrTree? || t.VariantOf? {
      assert Denotes(pools, w, t.payload);
      GroundedBy(pools, w, t.payload);
      forall x | LeafOf(t.payload, x) ensures Held(roots, pools, x) {
        assert LeafOf(t, x);
      }
    }
  }

  lemma GroundedBy(pools: Pools, v: Value, t: Tree)
    requires Denotes(pools, v, t)
    ensures Grounded(pools, v) && TreeOf(pools, v) == t
  {
    TreeUnique(pools, v, t, TreeOf(pools, v));
  }

  lemma RootAccounted(roots: Roots, pools: Pools, v: Value)
    requires IsRoot(roots, v) && RootsGrounded(roots, pools)
    ensures Accounted(roots, pools, v)
  {
    hide IsRoot, Grounded;
    forall w | LeafOf(TreeOf(pools, v), w) ensures Held(roots, pools, w) {
    }
  }

  lemma ReachableAccounted(roots: Roots, pools: Pools, u: Value)
    requires EmptyOptionsInert(pools) && RootsGrounded(roots, pools) && Reachable(roots, pools, u)
    ensures Accounted(roots, pools, u)
  {
    hide IsRoot, EmptyOptionsInert, RootsGrounded, Accounted, Payload;
    var path :| Leads(roots, pools, path, u);
    var covered := iset x | Accounted(roots, pools, x);
    RootAccounted(roots, pools, path[0]);
    forall x, y | x in covered && Payload(pools, x) == Some(y) ensures y in covered {
      PayloadAccounted(roots, pools, x, y);
    }
    ChainInherits(pools, path, covered);
  }

  lemma SlotHeldIff(roots: Roots, pools: Pools, w: Value)
    requires EmptyOptionsInert(pools) && RootsGrounded(roots, pools)
    requires (w.tag.TensorHandle? || w.tag.InfiniteHandle?) && w.word > 0
    ensures SlotReachable(roots, pools, w.tag, w.word - 1) <==> Held(roots, pools, w)
  {
    hide IsRoot, EmptyOptionsInert, RootsGrounded, Reachable, Grounded;
    if SlotReachable(roots, pools, w.tag, w.word - 1) {
      var v :| Reachable(roots, pools, v) && v.tag == w.tag && v.word == w.word - 1 + 1;
      assert v == w;
      ReachableAccounted(roots, pools, w);
      LeafGrounded(pools, w);
      assert LeafOf(TreeOf(pools, w), w);
    } else if Held(roots, pools, w) {
      var v :| IsRoot(roots, v) && Grounded(pools, v) && LeafOf(TreeOf(pools, v), w);
      RootReachable(roots, pools, v);
      LeafReachable(roots, pools, v, TreeOf(pools, v), w);
    }
  }

  /** A collection keeps exactly what is at the bottom of a root's tree. */
  lemma CollectKeepsLeaves(h: T.Heap, roots: Roots, pools: Pools)
    requires EmptyOptionsInert(pools) && RootsGrounded(roots, pools)
    ensures var h' := T.Collect(h, roots, pools);
            && |h'.tensors| == |h.tensors| && |h'.infinites| == |h.infinites|
            && (forall w: Value :: w.tag == TensorHandle && 0 < w.word <= |h.tensors| ==>
                  h'.tensors[w.word - 1] == if Held(roots, pools, w) then h.tensors[w.word - 1] else None)
            && (forall w: Value :: w.tag == InfiniteHandle && 0 < w.word <= |h.infinites| ==>
                  h'.infinites[w.word - 1] == if Held(roots, pools, w) then h.infinites[w.word - 1] else None)
  {
    hide T.Collect, EmptyOptionsInert, RootsGrounded, SlotReachable, Held;
    T.CollectExact(h, roots, pools);
    forall w: Value | (w.tag == TensorHandle || w.tag == InfiniteHandle) && w.word > 0
      ensures SlotReachable(roots, pools, w.tag, w.word - 1) <==> Held(roots, pools, w)
    {
      SlotHeldIff(roots, pools, w);
    }
  }

  // ---------- of a program

  lemma {:induction false} RunKeepsInert(s: State, ops: seq<Op>)
    requires EmptyOptionsInert(s.pools) && forall op :: op in ops ==> Admissible(s, op)
    ensures EmptyOptionsInert(Run(s, ops).pools)
    decreases |ops|
  {
    hide Admissible, Exec, EmptyOptionsInert;
    if ops != [] && Exec(s, ops[0]).Some? {
      StillAdmissible(s, ops[0], ops[1..]);
      ExecKeepsInert(s, ops[0]);
      RunKeepsInert(Exec(s, ops[0]).value, ops[1..]);
    }
  }

  lemma ExecKeepsInert(s: State, op: Op)
    requires EmptyOptionsInert(s.pools) && Admissible(s, op) && Exec(s, op).Some?
    ensures EmptyOptionsInert(Exec(s, op).value.pools)
  {
    hide First, SameOption, SameResult, SameEnum;
  }

  /** The registers of a machine that has nothing else. */
  function Registers(s: State): Roots {
    Roots([s.cells], [], [])
  }

  /** Whatever a program has made and taken apart since it was loaded, a collection keeps
      exactly the tensors and the infinite forms at the bottom of what its cells stand for. */
  lemma ProgramKeepsLeaves(n: nat, ops: seq<Op>, h: T.Heap)
    requires |ops| < 0x8000_0000_0000_0000
    requires forall op :: op in ops ==> Admissible(State(Pools([], [], []), seq(n, _ => Value(IntTag, 0))), op)
    ensures var s := Run(State(Pools([], [], []), seq(n, _ => Value(IntTag, 0))), ops);
            var h' := T.Collect(h, Registers(s), s.pools);
            && |h'.tensors| == |h.tensors| && |h'.infinites| == |h.infinites|
            && (forall w: Value :: w.tag == TensorHandle && 0 < w.word <= |h.tensors| ==>
                  h'.tensors[w.word - 1] == if Held(Registers(s), s.pools, w) then h.tensors[w.word - 1] else None)
            && (forall w: Value :: w.tag == InfiniteHandle && 0 < w.word <= |h.infinites| ==>
                  h'.infinites[w.word - 1] == if Held(Registers(s), s.pools, w) then h.infinites[w.word - 1] else None)
  {
    hide T.Collect, Held, Run, Admissible;
    var s0 := State(Pools([], [], []), seq(n, _ => Value(IntTag, 0)));
    LoadedValid(n);
    RunKeepsValid(s0, ops);
    RunKeepsInert(s0, ops);
    var s := Run(s0, ops);
    CellsGrounded(s);
    CollectKeepsLeaves(h, Registers(s), s.pools);
  }

  lemma CellsGrounded(s: State)
    requires Valid(s)
    ensures RootsGrounded(Registers(s), s.pools)
  {
    hide Grounded;
  }
}
