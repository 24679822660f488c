/** Hash-consing: option, result and enum values are interned, so that a handle stands for
    a tree and equal trees have equal handles. */
module Interning {
  import opened Word
  import opened Isa
  import opened Wrappers
  import opened GcHeap

  /** Sixteen bits of a variant's number are its own; the rest name the enum. */
  function DecodeEnumId(variant: Int32): Int32 {
    if variant < 0 then -1 else variant / 0x1_0000
  }

  // ---------- pools without duplicates

  type Same<!T> = (T, T) -> bool

  /** The first entry that is the same as `x`, or the size of the pool. */
  function First<T>(pool: seq<T>, x: T, same: Same<T>, i: nat): (r: nat)
    requires i <= |pool|
    ensures i <= r <= |pool|
    ensures r < |pool| ==> same(pool[r], x)
    ensures forall k :: i <= k < r ==> !same(pool[k], x)
    decreases |pool| - i
  {
    if i == |pool| || same(pool[i], x) then i else First(pool, x, same, i + 1)
  }

  /** The pool and the handle after interning. */
  function Intern<T>(pool: seq<T>, x: T, same: Same<T>): (r: (seq<T>, nat))
    ensures pool <= r.0 && 0 < r.1 <= |r.0|
  {
    var i := First(pool, x, same, 0);
    if i < |pool| then (pool, i + 1) else (pool + [x], |pool| + 1)
  }

  predicate Distinct<T>(pool: seq<T>, same: Same<T>) {
    forall i, j :: 0 <= i < j < |pool| ==> !same(pool[i], pool[j])
  }

  lemma InternKeepsDistinct<T>(pool: seq<T>, x: T, same: Same<T>)
    requires Distinct(pool, same)
    ensures Distinct(Intern(pool, x, same).0, same)
  {
  }

  /** Adding without looking keeps a pool free of duplicates exactly when the entry is new. */
  lemma PushKeepsDistinctIff<T>(pool: seq<T>, x: T, same: Same<T>)
    requires Distinct(pool, same)
    ensures Distinct(pool + [x], same) <==> First(pool, x, same, 0) == |pool|
  {
    var i := First(pool, x, same, 0);
    if i < |pool| {
      assert same((pool + [x])[i], (pool + [x])[|pool|]);
    }
  }

  predicate SameOption(o: OptionValue, p: OptionValue) {
    o.hasValue == p.hasValue && (!o.hasValue || o.payload == p.payload)
  }

  predicate SameResult(r: ResultValue, s: ResultValue) {
    r.isOk == s.isOk && r.payload == s.payload
  }

  predicate SameEnum(e: EnumValue, f: EnumValue) {
    && e.variant == f.variant && e.enumId == f.enumId && e.hasPayload == f.hasPayload
    && (!e.hasPayload || e.payload == f.payload)
  }

  function InternOption(pools: Pools, hasValue: bool, payload: Value): (Pools, Value) {
    var (options, handle) := Intern(pools.options, OptionValue(hasValue, payload), SameOption);
    (pools.(options := options), Value(OptionHandle, Wrap(handle)))
  }

  function InternResult(pools: Pools, isOk: bool, payload: Value): (Pools, Value) {
    var (results, handle) := Intern(pools.results, ResultValue(isOk, payload), SameResult);
    (pools.(results := results), Value(ResultHandle, Wrap(handle)))
  }

  /** A negative variant gets no entry and handle zero. */
  function InternEnum(pools: Pools, variant: Int32, hasPayload: bool, payload: Value): (Pools, Value) {
    if variant < 0 then (pools, Value(EnumHandle, 0))
    else
      var (enums, handle) := Intern(pools.enums, EnumValue(variant, hasPayload, payload, DecodeEnumId(variant)),
                                    SameEnum);
      (pools.(enums := enums), Value(EnumHandle, Wrap(handle)))
  }

  // ---------- trees

  datatype Tree =
    | Leaf(value: Value)
    | NoneTree
    | SomeTree(payload: Tree)
    | OkTree(payload: Tree)
    | ErrTree(payload: Tree)
    | Variant(id: Int32)
    | VariantOf(id: Int32, payload: Tree)

  predicate IsLeaf(v: Value) {
    (!v.tag.OptionHandle? && !v.tag.ResultHandle? && !v.tag.EnumHandle?) || v.word <= 0
  }

  predicate Node(v: Value, tag: Tag, size: nat) {
    v.tag == tag && Handle(v.word, size)
  }

  /** The tree `t` is what the value stands for in these pools. */
  predicate Denotes(pools: Pools, v: Value, t: Tree)
    decreases t
  {
    match t
    case Leaf(w) => v == w && IsLeaf(v)
    case NoneTree => Node(v, OptionHandle, |pools.options|) && !pools.options[v.word - 1].hasValue
    case SomeTree(p) =>
      && Node(v, OptionHandle, |pools.options|) && pools.options[v.word - 1].hasValue
      && Denotes(pools, pools.options[v.word - 1].payload, p)
    case OkTree(p) =>
      && Node(v, ResultHandle, |pools.results|) && pools.results[v.word - 1].isOk
      && Denotes(pools, pools.results[v.word - 1].payload, p)
    case ErrTree(p) =>
      && Node(v, ResultHandle, |pools.results|) && !pools.results[v.word - 1].isOk
      && Denotes(pools, pools.results[v.word - 1].payload, p)
    case Variant(id) =>
      && Node(v, EnumHandle, |pools.enums|) && pools.enums[v.word - 1].variant == id
      && !pools.enums[v.word - 1].hasPayload
    case VariantOf(id, p) =>
      && Node(v, EnumHandle, |pools.enums|) && pools.enums[v.word - 1].variant == id
      && pools.enums[v.word - 1].hasPayload
      && Denotes(pools, pools.enums[v.word - 1].payload, p)
  }

  /** The value stands for a tree: its payloads come to an end. */
  ghost predicate Grounded(pools: Pools, v: Value) {
    exists t :: Denotes(pools, v, t)
  }

  ghost function TreeOf(pools: Pools, v: Value): (t: Tree)
    requires Grounded(pools, v)
    ensures Denotes(pools, v, t)
  {
    var t :| Denotes(pools, v, t);
    t
  }

  predicate NoDuplicates(pools: Pools) {
    && Distinct(pools.options, SameOption)
    && Distinct(pools.results, SameResult)
    && Distinct(pools.enums, SameEnum)
    && forall i :: 0 <= i < |pools.enums| ==> pools.enums[i].enumId == DecodeEnumId(pools.enums[i].variant)
  }

  /** A value stands for one tree only. */
  lemma {:induction false} TreeUnique(pools: Pools, v: Value, t: Tree, u: Tree)
    requires Denotes(pools, v, t) && Denotes(pools, v, u)
    ensures t == u
    decreases t
  {
    if t.SomeTree? || t.OkTree? || t.ErrTree? || t.VariantOf? {
      var w := if t.SomeTree? then pools.options[v.word - 1].payload
               else if t.VariantOf? then pools.enums[v.word - 1].payload
               else pools.results[v.word - 1].payload;
      TreeUnique(pools, w, t.payload, u.payload);
    }
  }

  /** In pools without duplicates a tree has one value only. */
  lemma {:induction false} ValueUnique(pools: Pools, v: Value, w: Value, t: Tree)
    requires NoDuplicates(pools) && Denotes(pools, v, t) && Denotes(pools, w, t)
    ensures v == w
    decreases t
  {
    hide DecodeEnumId;
    var i, j := v.word - 1, w.word - 1;
    match t
    case Leaf(_) =>
    case NoneTree => SameEntry(pools.options, SameOption, i, j);
    case SomeTree(p) =>
      ValueUnique(pools, pools.options[i].payload, pools.options[j].payload, p);
      SameEntry(pools.options, SameOption, i, j);
    case OkTree(p) =>
      ValueUnique(pools, pools.results[i].payload, pools.results[j].payload, p);
      SameEntry(pools.results, SameResult, i, j);
    case ErrTree(p) =>
      ValueUnique(pools, pools.results[i].payload, pools.results[j].payload, p);
      SameEntry(pools.results, SameResult, i, j);
    case Variant(_) => SameEntry(pools.enums, SameEnum, i, j);
    case VariantOf(_, p) =>
      ValueUnique(pools, pools.enums[i].payload, pools.enums[j].payload, p);
      SameEntry(pools.enums, SameEnum, i, j);
  }

  lemma SameEntry<T>(pool: seq<T>, same: Same<T>, i: nat, j: nat)
    requires i < |pool| && j < |pool| && Distinct(pool, same) && same(pool[i], pool[j]) && same(pool[j], pool[i])
    ensures i == j
  {
  }

  /** Equal handles are equal trees: what hash-consing is for. */
  lemma HandlesAreTrees(pools: Pools, v: Value, w: Value)
    requires NoDuplicates(pools) && Grounded(pools, v) && Grounded(pools, w)
    ensures v == w <==> TreeOf(pools, v) == TreeOf(pools, w)
  {
    if TreeOf(pools, v) == TreeOf(pools, w) {
      ValueUnique(pools, v, w, TreeOf(pools, v));
    }
  }

  /** The pools only ever grow. */
  predicate Grows(pools: Pools, pools': Pools) {
    pools.options <= pools'.options && pools.results <= pools'.results && pools.enums <= pools'.enums
  }

  /** Growing pools leave every tree as it was. */
  lemma {:induction false} DenotesGrows(pools: Pools, pools': Pools, v: Value, t: Tree)
    requires Grows(pools, pools') && Denotes(pools, v, t)
    ensures Denotes(pools', v, t)
    decreases t
  {
    if t.SomeTree? || t.OkTree? || t.ErrTree? || t.VariantOf? {
      var w := if t.SomeTree? then pools.options[v.word - 1].payload
               else if t.VariantOf? then pools.enums[v.word - 1].payload
               else pools.results[v.word - 1].payload;
      DenotesGrows(pools, pools', w, t.payload);
    }
  }

  lemma GroundedGrows(pools: Pools, pools': Pools, v: Value)
    requires Grows(pools, pools') && Grounded(pools, v)
    ensures Grounded(pools', v) && TreeOf(pools', v) == TreeOf(pools, v)
  {
    hide Grows, Denotes;
    DenotesGrows(pools, pools', v, TreeOf(pools, v));
    TreeUnique(pools', v, TreeOf(pools, v), TreeOf(pools', v));
  }

  // ---------- the machine

  /** Pools, and every cell that can hold a value: registers, stack and memory words. */
  datatype State = State(pools: Pools, cells: seq<Value>)

  datatype Op =
    | PutLeaf(a: nat, value: Value)
    | Copy(a: nat, b: nat)
    | MakeOptionSome(a: nat, b: nat) | MakeOptionNone(a: nat)
    | MakeResultOk(a: nat, b: nat) | MakeResultErr(a: nat, b: nat)
    | MakeEnumVariant(a: nat, word: Word) | MakeEnumVariantPayload(a: nat, b: nat, id: Int32)
    | OptionUnwrap(a: nat, b: nat)
    | ResultUnwrapOk(a: nat, b: nat) | ResultUnwrapErr(a: nat, b: nat)
    | EnumUnwrapPayload(a: nat, b: nat)

  /** Operands name cells; a value that is put down is no handle into the three pools. */
  predicate Admissible(s: State, op: Op) {
    && op.a < |s.cells|
    && (op.PutLeaf? ==> !op.value.tag.OptionHandle? && !op.value.tag.ResultHandle? && !op.value.tag.EnumHandle?)
    && (match op
        case Copy(_, b) => b < |s.cells|
        case MakeOptionSome(_, b) => b < |s.cells|
        case MakeResultOk(_, b) => b < |s.cells|
        case MakeResultErr(_, b) => b < |s.cells|
        case MakeEnumVariantPayload(_, b, _) => b < |s.cells|
        case OptionUnwrap(_, b) => b < |s.cells|
        case ResultUnwrapOk(_, b) => b < |s.cells|
        case ResultUnwrapErr(_, b) => b < |s.cells|
        case EnumUnwrapPayload(_, b) => b < |s.cells|
        case _ => true)
  }

  function Made(s: State, a: nat, r: (Pools, Value)): State
    requires a < |s.cells|
  {
    State(r.0, s.cells[a := r.1])
  }

  /** One instruction; `None` is a fault, which changes nothing. */
  function Exec(s: State, op: Op): Option<State>
    requires Admissible(s, op)
  {
    match op
    case PutLeaf(a, v) => Some(s.(cells := s.cells[a := v]))
    case Copy(a, b) => Some(s.(cells := s.cells[a := s.cells[b]]))
    case MakeOptionSome(a, b) => Some(Made(s, a, InternOption(s.pools, true, s.cells[b])))
    case MakeOptionNone(a) => Some(Made(s, a, InternOption(s.pools, false, Value(IntTag, 0))))
    case MakeResultOk(a, b) => Some(Made(s, a, InternResult(s.pools, true, s.cells[b])))
    case MakeResultErr(a, b) => Some(Made(s, a, InternResult(s.pools, false, s.cells[b])))
    case MakeEnumVariant(a, id) => Some(Made(s, a, InternEnum(s.pools, Narrow(id), false, Value(IntTag, 0))))
    case MakeEnumVariantPayload(a, b, id) =>
      if id < 0 then None else Some(Made(s, a, InternEnum(s.pools, id, true, s.cells[b])))
    case OptionUnwrap(a, b) =>
      var v := s.cells[b];
      if Node(v, OptionHandle, |s.pools.options|) && s.pools.options[v.word - 1].hasValue
      then Some(s.(cells := s.cells[a := s.pools.options[v.word - 1].payload])) else None
    case ResultUnwrapOk(a, b) =>
      var v := s.cells[b];
      if Node(v, ResultHandle, |s.pools.results|) && s.pools.results[v.word - 1].isOk
      then Some(s.(cells := s.cells[a := s.pools.results[v.word - 1].payload])) else None
    case ResultUnwrapErr(a, b) =>
      var v := s.cells[b];
      if Node(v, ResultHandle, |s.pools.results|) && !s.pools.results[v.word - 1].isOk
      then Some(s.(cells := s.cells[a := s.pools.results[v.word - 1].payload])) else None
    case EnumUnwrapPayload(a, b) =>
      var v := s.cells[b];
      if Node(v, EnumHandle, |s.pools.enums|) && s.pools.enums[v.word - 1].hasPayload
      then Some(s.(cells := s.cells[a := s.pools.enums[v.word - 1].payload])) else None
  }

  /** Every cell and every payload stands for a tree, no pool has an entry twice, and a
      payload of an entry's own kind has a smaller handle than the entry. */
  ghost predicate Valid(s: State) {
    && NoDuplicates(s.pools)
    && (forall i :: 0 <= i < |s.cells| ==> Grounded(s.pools, s.cells[i]))
    && (forall i :: 0 <= i < |s.pools.options| ==>
          s.pools.options[i].hasValue ==>
              Grounded(s.pools, s.pools.options[i].payload) &&
              OlderThan(s.pools.options[i].payload, OptionHandle, i + 1))
    && (forall i :: 0 <= i < |s.pools.results| ==>
          Grounded(s.pools, s.pools.results[i].payload) && OlderThan(s.pools.results[i].payload, ResultHandle, i + 1))
    && (forall i :: 0 <= i < |s.pools.enums| ==>
          s.pools.enums[i].hasPayload ==>
              Grounded(s.pools, s.pools.enums[i].payload) && OlderThan(s.pools.enums[i].payload, EnumHandle, i + 1))
  }

  predicate OlderThan(v: Value, tag: Tag, handle: nat) {
    v.tag == tag ==> v.word < handle
  }

  /** There is room for `n` more entries in every pool. */
  predicate Room(pools: Pools, n: nat) {
    |pools.options| + n < TWO_63 && |pools.results| + n < TWO_63 && |pools.enums| + n < TWO_63
  }
}
