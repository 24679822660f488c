/** What the garbage collector sees of a machine: tagged values, the pools whose
    entries hold further values, and the slots of tensors and infinite forms. */
module GcHeap {
  import opened Word
  import opened Isa
  import opened Wrappers

  datatype Value = Value(tag: Tag, word: Word)

  datatype OptionValue = OptionValue(hasValue: bool, payload: Value)
  datatype ResultValue = ResultValue(isOk: bool, payload: Value)
  datatype EnumValue = EnumValue(variant: Int32, hasPayload: bool, payload: Value, enumId: Int32)

  /** The pools that payload handles index, from one. */
  datatype Pools = Pools(options: seq<OptionValue>, results: seq<ResultValue>, enums: seq<EnumValue>)

  /** The values that keep others alive: the registers of every context, the memory
      words, and the registers of every reflection snapshot. */
  datatype Roots = Roots(contexts: seq<seq<Value>>, memory: seq<Value>, snapshots: seq<seq<Value>>)

  predicate Handle(word: int, size: nat) {
    0 < word <= size
  }

  /** The value a handle's entry holds. */
  function Payload(pools: Pools, v: Value): Option<Value> {
    if v.tag.OptionHandle? && Handle(v.word, |pools.options|) then
      Some(pools.options[v.word - 1].payload)
    else if v.tag.ResultHandle? && Handle(v.word, |pools.results|) then
      Some(pools.results[v.word - 1].payload)
    else if v.tag.EnumHandle? && Handle(v.word, |pools.enums|) && pools.enums[v.word - 1].hasPayload then
      Some(pools.enums[v.word - 1].payload)
    else None
  }

  predicate InAny(rows: seq<seq<Value>>, v: Value) {
    exists i :: 0 <= i < |rows| && v in rows[i]
  }

  predicate IsRoot(roots: Roots, v: Value) {
    InAny(roots.contexts, v) || v in roots.memory || InAny(roots.snapshots, v)
  }

  /** Each value is the payload of the one before it. */
  predicate Chain(pools: Pools, path: seq<Value>) {
    forall i :: 0 < i < |path| ==> Payload(pools, path[i - 1]) == Some(path[i])
  }

  predicate Leads(roots: Roots, pools: Pools, path: seq<Value>, v: Value) {
    path != [] && IsRoot(roots, path[0]) && Chain(pools, path) && path[|path| - 1] == v
  }

  /** A chain of payloads leads from a root to `v`. */
  ghost predicate Reachable(roots: Roots, pools: Pools, v: Value) {
    exists path :: Leads(roots, pools, path, v)
  }

  /** The value that names slot `i` of a kind: handles count from one. */
  ghost predicate SlotReachable(roots: Roots, pools: Pools, tag: Tag, i: nat) {
    exists v :: Reachable(roots, pools, v) && v.tag == tag && v.word == i + 1
  }

  lemma RootReachable(roots: Roots, pools: Pools, v: Value)
    requires IsRoot(roots, v)
    ensures Reachable(roots, pools, v)
  {
    assert Leads(roots, pools, [v], v);
  }

  lemma PayloadReachable(roots: Roots, pools: Pools, v: Value, w: Value)
    requires Reachable(roots, pools, v) && Payload(pools, v) == Some(w)
    ensures Reachable(roots, pools, w)
  {
    hide Payload, IsRoot;
    var path :| Leads(roots, pools, path, v);
    assert Leads(roots, pools, path + [w], w);
  }

  /** Any property of the roots that payloads inherit holds of everything reachable. */
  lemma {:induction false} ChainInherits(pools: Pools, path: seq<Value>, covered: iset<Value>)
    requires path != [] && Chain(pools, path) && path[0] in covered
    requires forall v, w | v in covered && Payload(pools, v) == Some(w) :: w in covered
    ensures path[|path| - 1] in covered
  {
    hide Payload;
    if |path| > 1 {
      var front := path[..|path| - 1];
      ChainInherits(pools, front, covered);
      assert front[|front| - 1] == path[|path| - 2];
    }
  }
}
