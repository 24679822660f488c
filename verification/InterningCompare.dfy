/** Comparison of values through their handles: it ends, it compares the trees, and it
    says "equal" exactly for trees that differ in nothing it tells apart. */
module InterningCompare {
  import opened Word
  import opened Isa
  import opened Wrappers
  import opened GcHeap
  import opened Interning
  import V = VmState
  import I = Interpreter

  /** How values that stand for pool contents compare: texts, floats, fractions, complex
      numbers. */
  type LeafOrder = (Tag, Word, Word) -> Option<int>

  function Sign(x: Word, y: Word): int {
    if x == y then 0 else if x < y then -1 else 1
  }

  function CompareLeaf(leaf: LeafOrder, tag: Tag, x: Word, y: Word): Option<int> {
    if I.ComparedAsToken(tag) then Some(0)
    else if I.ComparedRaw(tag) then Some(Sign(x, y))
    else leaf(tag, x, y)
  }

  /** The tree of an entry is over the tree of its payload. */
  lemma PayloadTrees(pools: Pools, v: Value)
    requires Grounded(pools, v)
    ensures Node(v, OptionHandle, |pools.options|) ==>
              var o := pools.options[v.word - 1];
              if o.hasValue then Grounded(pools, o.payload) && TreeOf(pools, v) == SomeTree(TreeOf(pools, o.payload))
              else TreeOf(pools, v) == NoneTree
    ensures Node(v, ResultHandle, |pools.results|) ==>
              var r := pools.results[v.word - 1];
              && Grounded(pools, r.payload)
              && TreeOf(pools, v) == (if r.isOk then OkTree(TreeOf(pools, r.payload))
                                      else ErrTree(TreeOf(pools, r.payload)))
  {
    var t := TreeOf(pools, v);
    if t.SomeTree? {
      assert Denotes(pools, pools.options[v.word - 1].payload, t.payload);
      TreeUnique(pools, pools.options[v.word - 1].payload, t.payload, TreeOf(pools, pools.options[v.word - 1].payload));
    } else if t.OkTree? || t.ErrTree? {
      assert Denotes(pools, pools.results[v.word - 1].payload, t.payload);
      TreeUnique(pools, pools.results[v.word - 1].payload, t.payload, TreeOf(pools, pools.results[v.word - 1].payload));
    }
  }

  /** `compare_value`.  It ends because each round goes to a payload of the left value. */
  function Compare(pools: Pools, leaf: LeafOrder, tag: Tag, x: Word, y: Word): Option<int>
    requires Grounded(pools, Value(tag, x))
    decreases TreeOf(pools, Value(tag, x))
  {
    PayloadTrees(pools, Value(tag, x));
    if tag.OptionHandle? then
      if !Handle(x, |pools.options|) || !Handle(y, |pools.options|) then None
      else
        var lhs, rhs := pools.options[x - 1], pools.options[y - 1];
        if lhs.hasValue != rhs.hasValue then Some(if lhs.hasValue then 1 else -1)
        else if !lhs.hasValue then Some(0)
        else if lhs.payload.tag != rhs.payload.tag then None
        else Compare(pools, leaf, lhs.payload.tag, lhs.payload.word, rhs.payload.word)
    else if tag.ResultHandle? then
      if !Handle(x, |pools.results|) || !Handle(y, |pools.results|) then None
      else
        var lhs, rhs := pools.results[x - 1], pools.results[y - 1];
        if lhs.isOk != rhs.isOk then Some(if lhs.isOk then 1 else -1)
        else if lhs.payload.tag != rhs.payload.tag then None
        else Compare(pools, leaf, lhs.payload.tag, lhs.payload.word, rhs.payload.word)
    else if tag.EnumHandle? then None
    else CompareLeaf(leaf, tag, x, y)
  }

  /** On values without a payload it is the comparison of the machine's registers. */
  lemma CompareIsCompareValue(pools: Pools, env: V.Env, tag: Tag, x: Word, y: Word)
    requires Single(tag) || tag.EnumHandle?
    requires Grounded(pools, Value(tag, x))
    ensures Compare(pools, env.compareHandles, tag, x, y) == I.CompareValue(env, tag, x, y)
  {
  }

  // ---------- comparison of trees

  /** The tag of any value that stands for a tree. */
  function TagOf(t: Tree): Tag {
    match t
    case Leaf(v) => v.tag
    case NoneTree | SomeTree(_) => OptionHandle
    case OkTree(_) | ErrTree(_) => ResultHandle
    case Variant(_) | VariantOf(_, _) => EnumHandle
  }

  function ComparePayloads(leaf: LeafOrder, t: Tree, u: Tree): Option<int>
    decreases t, 1
  {
    if TagOf(t) != TagOf(u) then None else CompareTrees(leaf, t, u)
  }

  /** None is below Some, Err below Ok; then the payloads decide. */
  function CompareTrees(leaf: LeafOrder, t: Tree, u: Tree): Option<int>
    decreases t, 0
  {
    match t
    case NoneTree => if u.NoneTree? then Some(0) else if u.SomeTree? then Some(-1) else None
    case SomeTree(p) =>
      if u.SomeTree? then ComparePayloads(leaf, p, u.payload) else if u.NoneTree? then Some(1) else None
    case OkTree(p) =>
      if u.OkTree? then ComparePayloads(leaf, p, u.payload) else if u.ErrTree? then Some(1) else None
    case ErrTree(p) =>
      if u.ErrTree? then ComparePayloads(leaf, p, u.payload) else if u.OkTree? then Some(-1) else None
    case Leaf(v) =>
      if u.Leaf? && Single(v.tag) then CompareLeaf(leaf, v.tag, v.word, u.value.word) else None
    case _ => None
  }

  lemma TreeTags(pools: Pools, v: Value)
    requires Grounded(pools, v)
    ensures TagOf(TreeOf(pools, v)) == v.tag
    ensures TreeOf(pools, v).Leaf? ==> TreeOf(pools, v).value == v
    ensures IsLeaf(v) <==> TreeOf(pools, v).Leaf?
    ensures v.tag.OptionHandle? && !IsLeaf(v) ==> Handle(v.word, |pools.options|)
    ensures v.tag.ResultHandle? && !IsLeaf(v) ==> Handle(v.word, |pools.results|)
  {
  }

  /** Comparing handles is comparing the trees they stand for: the history that filled the
      pools does not matter. */
  lemma {:induction false} CompareIsTreeCompare(pools: Pools, leaf: LeafOrder, tag: Tag, x: Word, y: Word)
    requires Grounded(pools, Value(tag, x)) && Grounded(pools, Value(tag, y))
    ensures Compare(pools, leaf, tag, x, y)
            == CompareTrees(leaf, TreeOf(pools, Value(tag, x)), TreeOf(pools, Value(tag, y)))
    decreases TreeOf(pools, Value(tag, x))
  {
    hide CompareLeaf, Grounded, Denotes;
    var v, w := Value(tag, x), Value(tag, y);
    PayloadTrees(pools, v);
    PayloadTrees(pools, w);
    TreeTags(pools, v);
    TreeTags(pools, w);
    if tag.OptionHandle? && Handle(x, |pools.options|) && Handle(y, |pools.options|) {
      var p, q := pools.options[x - 1].payload, pools.options[y - 1].payload;
      if pools.options[x - 1].hasValue && pools.options[y - 1].hasValue {
        TreeTags(pools, p);
        TreeTags(pools, q);
        if p.tag == q.tag {
          CompareIsTreeCompare(pools, leaf, p.tag, p.word, q.word);
        }
      }
    } else if tag.ResultHandle? && Handle(x, |pools.results|) && Handle(y, |pools.results|) {
      var p, q := pools.results[x - 1].payload, pools.results[y - 1].payload;
      if pools.results[x - 1].isOk == pools.results[y - 1].isOk {
        TreeTags(pools, p);
        TreeTags(pools, q);
        if p.tag == q.tag {
          CompareIsTreeCompare(pools, leaf, p.tag, p.word, q.word);
        }
      }
    }
  }

  // ---------- equality and order

  /** The same shape without an enum value, over leaves of one tag that compare as equal. */
  predicate Alike(leaf: LeafOrder, t: Tree, u: Tree) {
    match t
    case Leaf(v) =>
      u.Leaf? && Single(v.tag) && u.value.tag == v.tag && CompareLeaf(leaf, v.tag, v.word, u.value.word) == Some(0)
    case NoneTree => u.NoneTree?
    case SomeTree(p) => u.SomeTree? && Alike(leaf, p, u.payload)
    case OkTree(p) => u.OkTree? && Alike(leaf, p, u.payload)
    case ErrTree(p) => u.ErrTree? && Alike(leaf, p, u.payload)
    case _ => false
  }

  /** Values of this tag have no payload. */
  predicate Single(tag: Tag) {
    !tag.OptionHandle? && !tag.ResultHandle? && !tag.EnumHandle?
  }

  lemma {:induction false} TreesZeroIff(leaf: LeafOrder, t: Tree, u: Tree)
    requires TagOf(t) == TagOf(u)
    ensures CompareTrees(leaf, t, u) == Some(0) <==> Alike(leaf, t, u)
    decreases t
  {
    hide CompareLeaf;
    if (t.SomeTree? && u.SomeTree?) || (t.OkTree? && u.OkTree?) || (t.ErrTree? && u.ErrTree?) {
      if TagOf(t.payload) == TagOf(u.payload) {
        TreesZeroIff(leaf, t.payload, u.payload);
      }
    }
  }

  /** Comparison says "equal" exactly for alike trees, whatever the leaves are. */
  lemma CompareZeroIff(pools: Pools, leaf: LeafOrder, tag: Tag, x: Word, y: Word)
    requires Grounded(pools, Value(tag, x)) && Grounded(pools, Value(tag, y))
    ensures Compare(pools, leaf, tag, x, y) == Some(0)
       <==> Alike(leaf, TreeOf(pools, Value(tag, x)), TreeOf(pools, Value(tag, y)))
  {
    hide Grounded, Denotes, Compare, CompareTrees, Alike;
    var v, w := Value(tag, x), Value(tag, y);
    CompareIsTreeCompare(pools, leaf, tag, x, y);
    TreeTags(pools, v);
    TreeTags(pools, w);
    TreesZeroIff(leaf, TreeOf(pools, v), TreeOf(pools, w));
  }

  /** The leaf of this tree, if it has one, compares as equal with itself alone. */
  ghost predicate ToldApart(leaf: LeafOrder, t: Tree) {
    match t
    case Leaf(v) => Single(v.tag) && forall y: Word :: CompareLeaf(leaf, v.tag, v.word, y) == Some(0) <==> y == v.word
    case NoneTree => true
    case SomeTree(p) => ToldApart(leaf, p)
    case OkTree(p) => ToldApart(leaf, p)
    case ErrTree(p) => ToldApart(leaf, p)
    case _ => false
  }

  /** Words that are compared as such are told apart; capability tokens of one kind are not. */
  lemma ToldApartByTag(leaf: LeafOrder, v: Value)
    ensures I.ComparedRaw(v.tag) ==> ToldApart(leaf, Leaf(v))
    ensures I.ComparedAsToken(v.tag) ==> !ToldApart(leaf, Leaf(v))
  {
    var other: Word := if v.word == 0 then 1 else 0;
    if I.ComparedAsToken(v.tag) {
      assert CompareLeaf(leaf, v.tag, v.word, other) == Some(0);
    }
  }

  lemma {:induction false} AlikeIsSame(leaf: LeafOrder, t: Tree, u: Tree)
    requires ToldApart(leaf, t)
    ensures Alike(leaf, t, u) <==> t == u
    decreases t
  {
    hide CompareLeaf;
    if (t.SomeTree? && u.SomeTree?) || (t.OkTree? && u.OkTree?) || (t.ErrTree? && u.ErrTree?) {
      AlikeIsSame(leaf, t.payload, u.payload);
    }
  }

  /** Where the leaves are told apart, comparison says "equal" exactly for the same handle. */
  lemma SameHandleIff(pools: Pools, leaf: LeafOrder, tag: Tag, x: Word, y: Word)
    requires NoDuplicates(pools) && Grounded(pools, Value(tag, x)) && Grounded(pools, Value(tag, y))
    requires ToldApart(leaf, TreeOf(pools, Value(tag, x)))
    ensures Compare(pools, leaf, tag, x, y) == Some(0) <==> x == y
  {
    hide Grounded, Denotes, NoDuplicates, Compare, Alike, ToldApart;
    CompareZeroIff(pools, leaf, tag, x, y);
    AlikeIsSame(leaf, TreeOf(pools, Value(tag, x)), TreeOf(pools, Value(tag, y)));
    HandlesAreTrees(pools, Value(tag, x), Value(tag, y));
  }

  /** Options and results, nested to any depth, over words compared as such and tokens. */
  predicate Plain(t: Tree) {
    match t
    case Leaf(v) => I.ComparedRaw(v.tag) || I.ComparedAsToken(v.tag)
    case NoneTree => true
    case SomeTree(p) => Plain(p)
    case OkTree(p) => Plain(p)
    case ErrTree(p) => Plain(p)
    case _ => false
  }

  /** An enum value inside: not even equal to itself. */
  predicate HasEnum(t: Tree) {
    match t
    case Leaf(v) => v.tag.EnumHandle?
    case NoneTree => false
    case SomeTree(p) => HasEnum(p)
    case OkTree(p) => HasEnum(p)
    case ErrTree(p) => HasEnum(p)
    case _ => true
  }

  lemma {:induction false} EnumsNeverEqual(leaf: LeafOrder, t: Tree, u: Tree)
    requires HasEnum(t)
    ensures CompareTrees(leaf, t, u) != Some(0) && CompareTrees(leaf, t, t).None?
    decreases t
  {
    if t.SomeTree? || t.OkTree? || t.ErrTree? {
      if u.SomeTree? || u.OkTree? || u.ErrTree? {
        EnumsNeverEqual(leaf, t.payload, u.payload);
      } else {
        EnumsNeverEqual(leaf, t.payload, t.payload);
      }
    }
  }

  lemma {:induction false} CompareReverses(leaf: LeafOrder, t: Tree, u: Tree)
    requires Plain(t) && Plain(u)
    ensures CompareTrees(leaf, t, u).Some? && TagOf(t) == TagOf(u) ==>
              CompareTrees(leaf, u, t) == Some(-CompareTrees(leaf, t, u).value)
    decreases t
  {
    if (t.SomeTree? && u.SomeTree?) || (t.OkTree? && u.OkTree?) || (t.ErrTree? && u.ErrTree?) {
      CompareReverses(leaf, t.payload, u.payload);
    }
  }

  lemma {:induction false} CompareChains(leaf: LeafOrder, t: Tree, u: Tree, w: Tree)
    requires Plain(t) && Plain(u) && Plain(w) && TagOf(t) == TagOf(u) == TagOf(w)
    requires CompareTrees(leaf, t, u).Some? && CompareTrees(leaf, t, u).value <= 0
    requires CompareTrees(leaf, u, w).Some? && CompareTrees(leaf, u, w).value <= 0
    ensures CompareTrees(leaf, t, w).Some? && CompareTrees(leaf, t, w).value <= 0
    decreases t
  {
    if (t.SomeTree? && u.SomeTree? && w.SomeTree?) || (t.OkTree? && u.OkTree? && w.OkTree?)
       || (t.ErrTree? && u.ErrTree? && w.ErrTree?) {
      CompareChains(leaf, t.payload, u.payload, w.payload);
    }
  }

  /** Where it answers, comparison of plain values is an order on handles: reversing the
      operands reverses the sign, and it is transitive. */
  lemma CompareIsOrder(pools: Pools, leaf: LeafOrder, tag: Tag, x: Word, y: Word, z: Word)
    requires Grounded(pools, Value(tag, x)) && Grounded(pools, Value(tag, y)) && Grounded(pools, Value(tag, z))
    requires Plain(TreeOf(pools, Value(tag, x))) && Plain(TreeOf(pools, Value(tag, y))) &&
             Plain(TreeOf(pools, Value(tag, z)))
    ensures Compare(pools, leaf, tag, x, y).Some? ==>
              Compare(pools, leaf, tag, y, x) == Some(-Compare(pools, leaf, tag, x, y).value)
    ensures Compare(pools, leaf, tag, x, y).Some? && Compare(pools, leaf, tag, x, y).value <= 0 &&
            Compare(pools, leaf, tag, y, z).Some? && Compare(pools, leaf, tag, y, z).value <= 0 ==>
              Compare(pools, leaf, tag, x, z).Some? && Compare(pools, leaf, tag, x, z).value <= 0
  {
    hide Grounded, Denotes, Compare, CompareTrees, Plain;
    var t, u, w := TreeOf(pools, Value(tag, x)), TreeOf(pools, Value(tag, y)), TreeOf(pools, Value(tag, z));
    CompareIsTreeCompare(pools, leaf, tag, x, y);
    CompareIsTreeCompare(pools, leaf, tag, y, x);
    CompareIsTreeCompare(pools, leaf, tag, y, z);
    CompareIsTreeCompare(pools, leaf, tag, x, z);
    TreeTags(pools, Value(tag, x));
    TreeTags(pools, Value(tag, y));
    TreeTags(pools, Value(tag, z));
    CompareReverses(leaf, t, u);
    if CompareTrees(leaf, t, u).Some? && CompareTrees(leaf, t, u).value <= 0 &&
       CompareTrees(leaf, u, w).Some? && CompareTrees(leaf, u, w).value <= 0 {
      CompareChains(leaf, t, u, w);
    }
  }

  // ---------- compiled traces

  /** A compiled trace pushes where the interpreter interns. */
  function TraceMakeOption(pools: Pools, hasValue: bool, payload: Value): (Pools, Value) {
    (pools.(options := pools.options + [OptionValue(hasValue, payload)]),
     Value(OptionHandle, Wrap(|pools.options| + 1)))
  }

  function TraceMakeResult(pools: Pools, isOk: bool, payload: Value): (Pools, Value) {
    (pools.(results := pools.results + [ResultValue(isOk, payload)]),
     Value(ResultHandle, Wrap(|pools.results| + 1)))
  }

  /** It gives the interpreter's answer, and keeps handles unique, exactly when the value was
      not interned before. */
  lemma TraceInternsIff(pools: Pools, flag: bool, payload: Value)
    requires NoDuplicates(pools) && Room(pools, 1)
    ensures var isNew := First(pools.options, OptionValue(flag, payload), SameOption, 0) == |pools.options|;
            && (TraceMakeOption(pools, flag, payload) == InternOption(pools, flag, payload) <==> isNew)
            && (NoDuplicates(TraceMakeOption(pools, flag, payload).0) <==> isNew)
    ensures var isNew := First(pools.results, ResultValue(flag, payload), SameResult, 0) == |pools.results|;
            && (TraceMakeResult(pools, flag, payload) == InternResult(pools, flag, payload) <==> isNew)
            && (NoDuplicates(TraceMakeResult(pools, flag, payload).0) <==> isNew)
  {
    TraceInternsOptionIff(pools, flag, payload);
    TraceInternsResultIff(pools, flag, payload);
  }

  lemma TraceInternsOptionIff(pools: Pools, flag: bool, payload: Value)
    requires NoDuplicates(pools) && Room(pools, 1)
    ensures var isNew := First(pools.options, OptionValue(flag, payload), SameOption, 0) == |pools.options|;
            && (TraceMakeOption(pools, flag, payload) == InternOption(pools, flag, payload) <==> isNew)
            && (NoDuplicates(TraceMakeOption(pools, flag, payload).0) <==> isNew)
  {
    hide First, DecodeEnumId, Distinct, SameOption, Wrap;
    PushKeepsDistinctIff(pools.options, OptionValue(flag, payload), SameOption);
    assert |pools.options + [OptionValue(flag, payload)]| == |pools.options| + 1;
  }

  lemma TraceInternsResultIff(pools: Pools, flag: bool, payload: Value)
    requires NoDuplicates(pools) && Room(pools, 1)
    ensures var isNew := First(pools.results, ResultValue(flag, payload), SameResult, 0) == |pools.results|;
            && (TraceMakeResult(pools, flag, payload) == InternResult(pools, flag, payload) <==> isNew)
            && (NoDuplicates(TraceMakeResult(pools, flag, payload).0) <==> isNew)
  {
    hide First, DecodeEnumId, Distinct, SameResult, Wrap;
    PushKeepsDistinctIff(pools.results, ResultValue(flag, payload), SameResult);
    assert |pools.results + [ResultValue(flag, payload)]| == |pools.results| + 1;
  }

  /** A trace also records enum values without looking, and without the number of their
      enum. */
  function TraceMakeEnum(pools: Pools, variant: Int32, hasPayload: bool, payload: Value): (Pools, Value) {
    (pools.(enums := pools.enums + [EnumValue(variant, hasPayload, payload, -1)]),
     Value(EnumHandle, Wrap(|pools.enums| + 1)))
  }

  lemma EnumKnown(variant: Int32)
    ensures DecodeEnumId(variant) == -1 <==> variant < 0
  {
  }

  lemma LastDiffers<T>(pool: seq<T>, x: T, y: T)
    requires x != y
    ensures pool + [x] != pool + [y] && pool + [x] != pool
  {
    assert (pool + [x])[|pool|] != (pool + [y])[|pool|];
  }

  /** The entry is never the interpreter's; the handle is exactly when the interpreter would
      have added one too, and handles stay unique exactly when no trace made this value
      before. */
  lemma TraceNeverInternsEnums(pools: Pools, variant: Int32, hasPayload: bool, payload: Value)
    requires Distinct(pools.enums, SameEnum) && Room(pools, 1)
    ensures var made := TraceMakeEnum(pools, variant, hasPayload, payload);
            var interned := InternEnum(pools, variant, hasPayload, payload);
            var entry := EnumValue(variant, hasPayload, payload, DecodeEnumId(variant));
            && made.0 != interned.0
            && (made.1 == interned.1 <==> variant >= 0 && First(pools.enums, entry, SameEnum, 0) == |pools.enums|)
            && (Distinct(made.0.enums, SameEnum) <==>
                First(pools.enums, EnumValue(variant, hasPayload, payload, -1), SameEnum, 0) == |pools.enums|)
  {
    hide First, DecodeEnumId, Distinct, SameEnum;
    var entry := EnumValue(variant, hasPayload, payload, DecodeEnumId(variant));
    var blind := EnumValue(variant, hasPayload, payload, -1);
    PushKeepsDistinctIff(pools.enums, blind, SameEnum);
    EnumKnown(variant);
    if variant >= 0 {
      LastDiffers(pools.enums, blind, entry);
    }
  }

  /** Two results made alike in a trace: different handles, and yet comparison calls them
      equal. */
  lemma TraceBreaksUniqueness(leaf: LeafOrder)
    ensures var zero := Value(IntTag, 0);
            var (p1, v) := TraceMakeResult(Pools([], [], []), true, zero);
            var (p2, w) := TraceMakeResult(p1, true, zero);
            && v != w && Grounded(p2, v) && Grounded(p2, w)
            && Compare(p2, leaf, ResultHandle, v.word, w.word) == Some(0)
  {
    var zero := Value(IntTag, 0);
    var (p1, v) := TraceMakeResult(Pools([], [], []), true, zero);
    var (p2, w) := TraceMakeResult(p1, true, zero);
    assert p2.results == [ResultValue(true, zero), ResultValue(true, zero)];
    assert v.word == 1 && w.word == 2;
    assert Denotes(p2, zero, Leaf(zero));
    assert Denotes(p2, v, OkTree(Leaf(zero)));
    assert Denotes(p2, w, OkTree(Leaf(zero)));
    assert Compare(p2, leaf, IntTag, 0, 0) == Some(0);
  }
}
