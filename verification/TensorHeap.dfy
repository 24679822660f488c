/** Tensor slots: a vector of cells with a free list, an element counter and quotas,
    filled by allocation and emptied by collection.  Infinite forms are kept alike. */
module TensorHeap {
  import opened Bytes
  import opened Wrappers
  import opened Isa
  import opened GcHeap
  import opened Marker

  datatype Tensor = Tensor(shape: seq<int>, data: seq<real>)
  datatype InfiniteForm = InfiniteForm(canonical: string)

  datatype Heap = Heap(
    tensors: seq<Option<Tensor>>, freeTensors: seq<nat>, elements: U64,
    infinites: seq<Option<InfiniteForm>>, freeInfinites: seq<nat>, infiniteCount: U64)

  datatype Quota = Quota(maxTensors: Option<Int64>, maxElements: Option<Int64>, maxInfinites: Option<Int64>)

  // ---------- sweeping

  function SweepTensors(h: Heap, marked: seq<bool>, n: nat): (h': Heap)
    requires n <= |h.tensors| == |marked|
    ensures |h'.tensors| == |h.tensors|
  {
    if n == 0 then h
    else
      var h1 := SweepTensors(h, marked, n - 1);
      match h1.tensors[n - 1]
      case Some(t) =>
        if marked[n - 1] then h1
        else h1.(elements := ToU64(h1.elements - |t.data|),
                 tensors := h1.tensors[n - 1 := None],
                 freeTensors := h1.freeTensors + [n - 1])
      case None => h1
  }

  function SweepInfinites(h: Heap, marked: seq<bool>, n: nat): (h': Heap)
    requires n <= |h.infinites| == |marked|
    ensures |h'.infinites| == |h.infinites|
  {
    if n == 0 then h
    else
      var h1 := SweepInfinites(h, marked, n - 1);
      if h1.infinites[n - 1].Some? && !marked[n - 1] then
        h1.(infiniteCount := ToU64(h1.infiniteCount - 1),
            infinites := h1.infinites[n - 1 := None],
            freeInfinites := h1.freeInfinites + [n - 1])
      else h1
  }

  /** `mark_and_sweep`. */
  function Collect(h: Heap, roots: Roots, pools: Pools): Heap {
    var m := ScanRoots(roots, pools, |h.tensors|, |h.infinites|);
    SweepKeepsInfinites(h, m.tensors, |h.tensors|);
    SweepInfinites(SweepTensors(h, m.tensors, |h.tensors|), m.infinites, |h.infinites|)
  }

  lemma {:induction false} SweepKeepsInfinites(h: Heap, marked: seq<bool>, n: nat)
    requires n <= |h.tensors| == |marked|
    ensures var h' := SweepTensors(h, marked, n);
            h' == h.(tensors := h'.tensors, freeTensors := h'.freeTensors, elements := h'.elements)
    decreases n
  {
    if n > 0 {
      SweepKeepsInfinites(h, marked, n - 1);
    }
  }

  lemma {:induction false} SweepInfinitesKeepsTensors(h: Heap, marked: seq<bool>, n: nat)
    requires n <= |h.infinites| == |marked|
    ensures var h' := SweepInfinites(h, marked, n);
            && h' == h.(infinites := h'.infinites, freeInfinites := h'.freeInfinites, infiniteCount := h'.infiniteCount)
            && forall i :: 0 <= i < |h.infinites| ==>
                 h'.infinites[i] == if i < n && !marked[i] then None else h.infinites[i]
    decreases n
  {
    if n > 0 {
      SweepInfinitesKeepsTensors(h, marked, n - 1);
    }
  }

  lemma {:induction false} SweepTensorsCells(h: Heap, marked: seq<bool>, n: nat)
    requires n <= |h.tensors| == |marked|
    ensures forall i :: 0 <= i < |h.tensors| ==>
              SweepTensors(h, marked, n).tensors[i] == if i < n && !marked[i] then None else h.tensors[i]
    decreases n
  {
    if n > 0 {
      SweepTensorsCells(h, marked, n - 1);
    }
  }

  /** Collection is sound and complete: a tensor or an infinite form is reclaimed exactly
      when no chain of payloads reaches it, and every survivor keeps its slot. */
  lemma CollectExact(h: Heap, roots: Roots, pools: Pools)
    ensures var h' := Collect(h, roots, pools);
            && |h'.tensors| == |h.tensors| && |h'.infinites| == |h.infinites|
            && (forall i :: 0 <= i < |h.tensors| ==>
                  h'.tensors[i] == if SlotReachable(roots, pools, TensorHandle, i) then h.tensors[i] else None)
            && (forall i :: 0 <= i < |h.infinites| ==>
                  h'.infinites[i] == if SlotReachable(roots, pools, InfiniteHandle, i) then h.infinites[i] else None)
  {
    hide ScanRoots, SlotReachable;
    var m := ScanRoots(roots, pools, |h.tensors|, |h.infinites|);
    var swept := SweepTensors(h, m.tensors, |h.tensors|);
    SweepKeepsInfinites(h, m.tensors, |h.tensors|);
    SweepTensorsCells(h, m.tensors, |h.tensors|);
    SweepInfinitesKeepsTensors(swept, m.infinites, |h.infinites|);
    forall i: nat
      ensures i < |h.tensors| ==> (m.tensors[i] <==> SlotReachable(roots, pools, TensorHandle, i))
      ensures i < |h.infinites| ==> (m.infinites[i] <==> SlotReachable(roots, pools, InfiniteHandle, i))
    {
      MarkingIsReachability(roots, pools, |h.tensors|, |h.infinites|, i);
    }
  }

  // ---------- allocation

  datatype AllocPolicy = Allow | MaxTensorsExceeded | MaxTensorElementsExceeded

  /** `evaluate_tensor_alloc_policy`: sizes and quotas are unsigned words. */
  function EvaluateAlloc(h: Heap, quota: Option<Quota>, size: nat): AllocPolicy {
    match quota
    case None => Allow
    case Some(q) =>
      if q.maxTensors.Some? && ToU64(|h.tensors| - |h.freeTensors|) >= ToU64(q.maxTensors.value) then MaxTensorsExceeded
      else if q.maxElements.Some? && ToU64(h.elements + size) > ToU64(q.maxElements.value) then
        MaxTensorElementsExceeded
      else Allow
  }

  /** `store_tensor_slot`: the cell freed last is filled first. */
  function StoreSlot(h: Heap, t: Tensor): (r: (Heap, nat))
    requires SlotsOk(h.tensors, h.freeTensors)
  {
    if h.freeTensors != [] then
      var i := h.freeTensors[|h.freeTensors| - 1];
      assert i in h.freeTensors;
      (h.(freeTensors := h.freeTensors[..|h.freeTensors| - 1], tensors := h.tensors[i := Some(t)]), i + 1)
    else (h.(tensors := h.tensors + [Some(t)]), |h.tensors| + 1)
  }

  /** `alloc_tensor`. */
  function Allocate(h: Heap, quota: Option<Quota>, t: Tensor): (Heap, Option<nat>)
    requires SlotsOk(h.tensors, h.freeTensors)
  {
    if EvaluateAlloc(h, quota, |t.data|) != Allow then (h, None)
    else
      var (h', handle) := StoreSlot(h.(elements := ToU64(h.elements + |t.data|)), t);
      (h', Some(handle))
  }

  /** `alloc_infinite_form`. */
  function AllocateInfinite(h: Heap, quota: Option<Quota>, form: InfiniteForm): (r: (Heap, Option<nat>))
    requires SlotsOk(h.infinites, h.freeInfinites)
  {
    if quota.Some? && quota.value.maxInfinites.Some? &&
        ToU64(h.infiniteCount + 1) > ToU64(quota.value.maxInfinites.value) then
      (h, None)
    else
      var h1 := h.(infiniteCount := ToU64(h.infiniteCount + 1));
      if h.freeInfinites != [] then
        var i := h.freeInfinites[|h.freeInfinites| - 1];
        assert i in h.freeInfinites;
        (h1.(freeInfinites := h.freeInfinites[..|h.freeInfinites| - 1], infinites := h.infinites[i := Some(form)]),
         Some(i + 1))
      else (h1.(infinites := h.infinites + [Some(form)]), Some(|h.infinites| + 1))
  }

  // ---------- the free lists

  predicate NoDuplicates(s: seq<nat>) {
    forall i, j :: 0 <= i < j < |s| ==> s[i] != s[j]
  }

  /** The free list holds exactly the empty cells, each once. */
  predicate SlotsOk<T>(cells: seq<Option<T>>, free: seq<nat>) {
    && NoDuplicates(free)
    && (forall i :: 0 <= i < |free| ==> free[i] < |cells| && cells[free[i]].None?)
    && (forall i :: 0 <= i < |cells| && cells[i].None? ==> i in free)
  }

  /** Both free lists are exact. */
  predicate HeapOk(h: Heap) {
    SlotsOk(h.tensors, h.freeTensors) && SlotsOk(h.infinites, h.freeInfinites)
  }

  function LiveCount<T>(cells: seq<Option<T>>): (n: nat)
    ensures n <= |cells|
  {
    if cells == [] then 0 else (if cells[0].Some? then 1 else 0) + LiveCount(cells[1..])
  }

  function Size(cell: Option<Tensor>): nat {
    match cell case Some(t) => |t.data| case None => 0
  }

  function LiveElements(cells: seq<Option<Tensor>>): nat {
    if cells == [] then 0 else Size(cells[0]) + LiveElements(cells[1..])
  }

  lemma {:induction false} UpdateCount<T>(cells: seq<Option<T>>, i: nat, cell: Option<T>)
    requires i < |cells|
    ensures LiveCount(cells[i := cell]) ==
            LiveCount(cells) - (if cells[i].Some? then 1 else 0) + (if cell.Some? then 1 else 0)
    decreases |cells|
  {
    if i == 0 {
      assert cells[0 := cell][1..] == cells[1..];
    } else {
      UpdateCount(cells[1..], i - 1, cell);
      assert cells[i := cell][1..] == cells[1..][i - 1 := cell];
    }
  }

  lemma {:induction false} UpdateCell(cells: seq<Option<Tensor>>, i: nat, cell: Option<Tensor>)
    requires i < |cells|
    ensures LiveElements(cells[i := cell]) == LiveElements(cells) - Size(cells[i]) + Size(cell)
    decreases |cells|
  {
    if i == 0 {
      assert cells[0 := cell][1..] == cells[1..];
    } else {
      UpdateCell(cells[1..], i - 1, cell);
      assert cells[i := cell][1..] == cells[1..][i - 1 := cell];
    }
  }

  lemma {:induction false} AppendCount<T>(cells: seq<Option<T>>, cell: Option<T>)
    ensures LiveCount(cells + [cell]) == LiveCount(cells) + (if cell.Some? then 1 else 0)
    decreases |cells|
  {
    if cells == [] {
      assert [cell][1..] == [];
    } else {
      AppendCount(cells[1..], cell);
      assert (cells + [cell])[1..] == cells[1..] + [cell];
    }
  }

  lemma {:induction false} AppendCell(cells: seq<Option<Tensor>>, cell: Option<Tensor>)
    ensures LiveElements(cells + [cell]) == LiveElements(cells) + Size(cell)
    decreases |cells|
  {
    if cells == [] {
      assert [cell][1..] == [];
    } else {
      AppendCell(cells[1..], cell);
      assert (cells + [cell])[1..] == cells[1..] + [cell];
    }
  }

  lemma {:induction false} AllOccupied<T>(cells: seq<Option<T>>)
    requires forall i :: 0 <= i < |cells| ==> cells[i].Some?
    ensures LiveCount(cells) == |cells|
  {
    if cells != [] {
      AllOccupied(cells[1..]);
    }
  }

  /** Filling the cell freed last. */
  lemma TakeKeepsSlots<T>(cells: seq<Option<T>>, free: seq<nat>, x: T)
    requires SlotsOk(cells, free) && free != []
    ensures var i := free[|free| - 1];
            && i in free
            && SlotsOk(cells[i := Some(x)], free[..|free| - 1])
            && LiveCount(cells[i := Some(x)]) == LiveCount(cells) + 1
  {
    var i, front := free[|free| - 1], free[..|free| - 1];
    assert i in free;
    var cells' := cells[i := Some(x)];
    forall k | 0 <= k < |cells'| && cells'[k].None? ensures k in front {
      assert k in free;
    }
    UpdateCount(cells, i, Some(x));
  }

  /** Adding a cell. */
  lemma GrowKeepsSlots<T>(cells: seq<Option<T>>, x: T)
    requires SlotsOk(cells, [])
    ensures SlotsOk(cells + [Some(x)], []) && LiveCount(cells + [Some(x)]) == LiveCount(cells) + 1
  {
    AppendCount(cells, Some(x));
  }

  lemma ReleaseKeepsSlots<T>(cells: seq<Option<T>>, free: seq<nat>, i: nat)
    requires SlotsOk(cells, free) && i < |cells| && cells[i].Some?
    ensures SlotsOk(cells[i := None], free + [i]) && LiveCount(cells[i := None]) == LiveCount(cells) - 1
  {
    forall k | 0 <= k < |free| ensures free[k] != i {
      assert cells[free[k]].None?;
    }
    forall k | 0 <= k < |cells| && cells[i := None][k].None? ensures k in free + [i] {
      if k == i {
        assert (free + [i])[|free|] == i;
      } else {
        assert k in free;
      }
    }
    UpdateCount(cells, i, None);
  }

  /** Cells that are not on the free list are the live ones. */
  lemma {:induction false} FreeListCounts<T>(cells: seq<Option<T>>, free: seq<nat>, filler: T)
    requires SlotsOk(cells, free)
    ensures |cells| - |free| == LiveCount(cells)
    decreases |free|
  {
    if free == [] {
      AllOccupied(cells);
    } else {
      TakeKeepsSlots(cells, free, filler);
      FreeListCounts(cells[free[|free| - 1] := Some(filler)], free[..|free| - 1], filler);
    }
  }

  lemma {:induction false} SweepKeepsSlots(h: Heap, marked: seq<bool>, n: nat)
    requires n <= |h.tensors| == |marked| && SlotsOk(h.tensors, h.freeTensors)
    ensures var h' := SweepTensors(h, marked, n); SlotsOk(h'.tensors, h'.freeTensors)
    decreases n
  {
    hide SlotsOk, ToU64;
    if n > 0 {
      SweepKeepsSlots(h, marked, n - 1);
      SweepTensorsCells(h, marked, n - 1);
      var h1, h' := SweepTensors(h, marked, n - 1), SweepTensors(h, marked, n);
      if h1.tensors[n - 1].Some? && !marked[n - 1] {
        ReleaseKeepsSlots(h1.tensors, h1.freeTensors, n - 1);
      }
    }
  }

  /** The count of infinite forms is that of the live ones, as a word. */
  predicate InfinitesCounted(h: Heap) {
    h.infiniteCount == ToU64(LiveCount(h.infinites))
  }

  lemma CountsAsWord(n: nat)
    ensures ToU64(ToU64(n) + 1) == ToU64(n + 1)
    ensures n > 0 ==> ToU64(ToU64(n) - 1) == ToU64(n - 1)
  {
  }

  lemma {:induction false} SweepKeepsInfiniteSlots(h: Heap, marked: seq<bool>, n: nat)
    requires n <= |h.infinites| == |marked| && SlotsOk(h.infinites, h.freeInfinites)
    ensures var h' := SweepInfinites(h, marked, n);
            && SlotsOk(h'.infinites, h'.freeInfinites)
            && LiveCount(h'.infinites) <= LiveCount(h.infinites)
            && (InfinitesCounted(h) ==> InfinitesCounted(h'))
    decreases n
  {
    hide SlotsOk, ToU64, LiveCount;
    if n > 0 {
      SweepKeepsInfiniteSlots(h, marked, n - 1);
      SweepInfinitesKeepsTensors(h, marked, n - 1);
      var h1 := SweepInfinites(h, marked, n - 1);
      if h1.infinites[n - 1].Some? && !marked[n - 1] {
        ReleaseKeepsSlots(h1.infinites, h1.freeInfinites, n - 1);
        CountsAsWord(LiveCount(h1.infinites));
      }
    }
  }

  lemma StoreKeepsSlots(h: Heap, t: Tensor)
    requires SlotsOk(h.tensors, h.freeTensors)
    ensures var h' := StoreSlot(h, t).0; SlotsOk(h'.tensors, h'.freeTensors)
  {
    if h.freeTensors != [] {
      TakeKeepsSlots(h.tensors, h.freeTensors, t);
    } else {
      GrowKeepsSlots(h.tensors, t);
    }
  }

  lemma AllocateInfiniteKeepsSlots(h: Heap, quota: Option<Quota>, form: InfiniteForm)
    requires SlotsOk(h.infinites, h.freeInfinites)
    ensures var (h', handle) := AllocateInfinite(h, quota, form);
            && h' == h.(infinites := h'.infinites, freeInfinites := h'.freeInfinites, infiniteCount := h'.infiniteCount)
            && SlotsOk(h'.infinites, h'.freeInfinites)
            && LiveCount(h'.infinites) == LiveCount(h.infinites) + (if handle.Some? then 1 else 0)
            && (InfinitesCounted(h) ==> InfinitesCounted(h'))
  {
    hide SlotsOk, ToU64, LiveCount;
    CountsAsWord(LiveCount(h.infinites));
    if h.freeInfinites != [] {
      TakeKeepsSlots(h.infinites, h.freeInfinites, form);
    } else {
      GrowKeepsSlots(h.infinites, form);
    }
  }

  /** An allocation that is granted uses a cell that was empty, or a new one; no live
      tensor moves or changes. */
  lemma AllocationIsFresh(h: Heap, quota: Option<Quota>, t: Tensor)
    requires SlotsOk(h.tensors, h.freeTensors) && Allocate(h, quota, t).1.Some?
    ensures var (h', handle) := Allocate(h, quota, t);
            var i := handle.value - 1;
            && 0 <= i < |h'.tensors| && h'.tensors[i] == Some(t)
            && (i < |h.tensors| ==> h.tensors[i].None?)
            && |h.tensors| <= |h'.tensors|
            && forall k :: 0 <= k < |h.tensors| && k != i ==> h'.tensors[k] == h.tensors[k]
  {
    if h.freeTensors != [] {
      assert h.freeTensors[|h.freeTensors| - 1] in h.freeTensors;
    }
  }

  // ---------- runs

  datatype Op = AllocateOp(tensor: Tensor) | InfiniteOp(form: InfiniteForm) | CollectOp(roots: Roots, pools: Pools)

  function Step(h: Heap, quota: Option<Quota>, op: Op): Heap
    requires HeapOk(h)
  {
    match op
    case AllocateOp(t) => Allocate(h, quota, t).0
    case InfiniteOp(form) => AllocateInfinite(h, quota, form).0
    case CollectOp(roots, pools) => Collect(h, roots, pools)
  }

  lemma StepKeepsSlots(h: Heap, quota: Option<Quota>, op: Op)
    requires HeapOk(h)
    ensures HeapOk(Step(h, quota, op))
    ensures InfinitesCounted(h) ==> InfinitesCounted(Step(h, quota, op))
  {
    hide SlotsOk, ScanRoots, LiveCount;
    match op
    case AllocateOp(t) =>
      StoreKeepsSlots(h.(elements := ToU64(h.elements + |t.data|)), t);
    case InfiniteOp(form) =>
      AllocateInfiniteKeepsSlots(h, quota, form);
    case CollectOp(roots, pools) =>
      var m := ScanRoots(roots, pools, |h.tensors|, |h.infinites|);
      var swept := SweepTensors(h, m.tensors, |h.tensors|);
      SweepKeepsSlots(h, m.tensors, |h.tensors|);
      SweepKeepsInfinites(h, m.tensors, |h.tensors|);
      SweepInfinitesKeepsTensors(swept, m.infinites, |h.infinites|);
      SweepKeepsInfiniteSlots(swept, m.infinites, |h.infinites|);
  }

  function Run(h: Heap, quota: Option<Quota>, ops: seq<Op>): Heap
    requires HeapOk(h)
    decreases |ops|
  {
    if ops == [] then h
    else StepKeepsSlots(h, quota, ops[0]); Run(Step(h, quota, ops[0]), quota, ops[1..])
  }

  /** Over any interleaving of allocations and collections both free lists stay exact, so
      that the occupied slots number `tensors.size() - free_tensor_indices.size()`, and so
      does the count of infinite forms. */
  lemma {:induction false} RunKeepsSlots(h: Heap, quota: Option<Quota>, ops: seq<Op>)
    requires HeapOk(h)
    ensures var h' := Run(h, quota, ops);
            && HeapOk(h')
            && |h'.tensors| - |h'.freeTensors| == LiveCount(h'.tensors)
            && |h'.infinites| - |h'.freeInfinites| == LiveCount(h'.infinites)
            && (InfinitesCounted(h) ==> InfinitesCounted(h'))
    decreases |ops|
  {
    hide SlotsOk, Step, InfinitesCounted;
    if ops == [] {
      FreeListCounts(h.tensors, h.freeTensors, Tensor([], []));
      FreeListCounts(h.infinites, h.freeInfinites, InfiniteForm(""));
    } else {
      StepKeepsSlots(h, quota, ops[0]);
      RunKeepsSlots(Step(h, quota, ops[0]), quota, ops[1..]);
    }
  }

  /** How far the element counter is from the elements that are live, as a word. */
  function Drift(h: Heap): U64 {
    ToU64(h.elements - LiveElements(h.tensors))
  }

  lemma {:induction false} SweepKeepsDrift(h: Heap, marked: seq<bool>, n: nat)
    requires n <= |h.tensors| == |marked|
    ensures Drift(SweepTensors(h, marked, n)) == Drift(h)
    decreases n
  {
    if n > 0 {
      var h1, h' := SweepTensors(h, marked, n - 1), SweepTensors(h, marked, n);
      SweepKeepsDrift(h, marked, n - 1);
      if h1.tensors[n - 1].Some? && !marked[n - 1] {
        UpdateCell(h1.tensors, n - 1, None);
        WordShift(h1.elements, LiveElements(h1.tensors), -|h1.tensors[n - 1].value.data|);
      }
    }
  }

  /** Counter and sum moved by the same amount: their difference stays. */
  lemma WordShift(counter: U64, live: int, delta: int)
    ensures ToU64(ToU64(counter + delta) - (live + delta)) == ToU64(counter - live)
  {
    var q := (counter + delta) / U64_LIMIT;
    assert counter + delta == q * U64_LIMIT + ToU64(counter + delta);
    var d := counter - live;
    assert ToU64(counter + delta) - (live + delta) == d + U64_LIMIT * (-q);
    ModuloMultiple(d, -q);
  }

  lemma ModuloMultiple(d: int, q: int)
    ensures (d + U64_LIMIT * q) % U64_LIMIT == d % U64_LIMIT
  {
  }

  /** The counter follows the live elements: their difference is the same after any run. */
  lemma {:induction false} RunKeepsDrift(h: Heap, quota: Option<Quota>, ops: seq<Op>)
    requires HeapOk(h)
    ensures Drift(Run(h, quota, ops)) == Drift(h)
    decreases |ops|
  {
    hide HeapOk, Step, Drift;
    if ops != [] {
      StepKeepsSlots(h, quota, ops[0]);
      StepKeepsDrift(h, quota, ops[0]);
      RunKeepsDrift(Step(h, quota, ops[0]), quota, ops[1..]);
    }
  }

  lemma StepKeepsDrift(h: Heap, quota: Option<Quota>, op: Op)
    requires HeapOk(h)
    ensures Drift(Step(h, quota, op)) == Drift(h)
  {
    hide ScanRoots, SlotsOk, EvaluateAlloc;
    match op
    case AllocateOp(t) =>
      StoreAddsLive(h, t);
      WordShift(h.elements, LiveElements(h.tensors), |t.data|);
    case InfiniteOp(form) =>
      AllocateInfiniteKeepsSlots(h, quota, form);
    case CollectOp(roots, pools) =>
      var m := ScanRoots(roots, pools, |h.tensors|, |h.infinites|);
      SweepKeepsDrift(h, m.tensors, |h.tensors|);
      SweepKeepsInfinites(h, m.tensors, |h.tensors|);
      SweepInfinitesKeepsTensors(SweepTensors(h, m.tensors, |h.tensors|), m.infinites, |h.infinites|);
  }

  lemma StoreAddsLive(h: Heap, t: Tensor)
    requires SlotsOk(h.tensors, h.freeTensors)
    ensures var h' := StoreSlot(h, t).0;
            && LiveElements(h'.tensors) == LiveElements(h.tensors) + |t.data|
            && LiveCount(h'.tensors) == LiveCount(h.tensors) + 1
            && h'.elements == h.elements
  {
    if h.freeTensors != [] {
      var i := h.freeTensors[|h.freeTensors| - 1];
      assert i in h.freeTensors;
      UpdateCell(h.tensors, i, Some(t));
      UpdateCount(h.tensors, i, Some(t));
    } else {
      AppendCell(h.tensors, Some(t));
      AppendCount(h.tensors, Some(t));
    }
  }

  // ---------- quotas

  /** Every live element has been counted. */
  predicate Accounted(h: Heap) {
    Drift(h) == 0
  }

  predicate WithinQuota(h: Heap, q: Quota) {
    && (q.maxTensors.Some? ==> LiveCount(h.tensors) <= q.maxTensors.value)
    && (q.maxElements.Some? ==> LiveElements(h.tensors) <= q.maxElements.value)
    && (q.maxInfinites.Some? ==> LiveCount(h.infinites) <= q.maxInfinites.value)
  }

  /** No tensor is larger than an address space, and no vector longer. */
  predicate Plausible(h: Heap, op: Op) {
    && |h.tensors| < 0x8000_0000_0000_0000 && |h.infinites| < 0x8000_0000_0000_0000
    && (op.AllocateOp? ==> |op.tensor.data| < 0x8000_0000_0000_0000)
  }

  lemma {:induction false} SweepShrinks(h: Heap, marked: seq<bool>, n: nat)
    requires n <= |h.tensors| == |marked|
    ensures LiveCount(SweepTensors(h, marked, n).tensors) <= LiveCount(h.tensors)
    ensures LiveElements(SweepTensors(h, marked, n).tensors) <= LiveElements(h.tensors)
    decreases n
  {
    if n > 0 {
      var h1 := SweepTensors(h, marked, n - 1);
      SweepShrinks(h, marked, n - 1);
      UpdateCell(h1.tensors, n - 1, None);
      UpdateCount(h1.tensors, n - 1, None);
    }
  }

  lemma SmallDrift(counter: U64, live: nat)
    requires ToU64(counter - live) == 0 && live < 0x8000_0000_0000_0000
    ensures counter == live
  {
  }

  /** From an accounted state within quota, no step exceeds the quota. */
  lemma StepKeepsQuota(h: Heap, q: Quota, op: Op)
    requires HeapOk(h) && Accounted(h) && InfinitesCounted(h) && WithinQuota(h, q) && Plausible(h, op)
    ensures Accounted(Step(h, Some(q), op)) && WithinQuota(Step(h, Some(q), op), q)
  {
    hide ScanRoots, SlotsOk, ToU64;
    StepKeepsDrift(h, Some(q), op);
    match op
    case AllocateOp(t) =>
      if EvaluateAlloc(h, Some(q), |t.data|) == Allow {
        FreeListCounts(h.tensors, h.freeTensors, t);
        StoreAddsLive(h.(elements := ToU64(h.elements + |t.data|)), t);
        GrantedIffFits(h, q, t);
      }
    case InfiniteOp(form) =>
      AllocateInfiniteKeepsSlots(h, Some(q), form);
      InfiniteGrantedIffFits(h, q, form);
    case CollectOp(roots, pools) =>
      var m := ScanRoots(roots, pools, |h.tensors|, |h.infinites|);
      var swept := SweepTensors(h, m.tensors, |h.tensors|);
      SweepShrinks(h, m.tensors, |h.tensors|);
      SweepKeepsInfinites(h, m.tensors, |h.tensors|);
      SweepInfinitesKeepsTensors(swept, m.infinites, |h.infinites|);
      SweepKeepsInfiniteSlots(swept, m.infinites, |h.infinites|);
  }

  /** So is an infinite form granted exactly when it fits. */
  lemma InfiniteGrantedIffFits(h: Heap, q: Quota, form: InfiniteForm)
    requires SlotsOk(h.infinites, h.freeInfinites) && InfinitesCounted(h)
    requires |h.infinites| < 0x8000_0000_0000_0000
    requires q.maxInfinites.Some? ==> LiveCount(h.infinites) <= q.maxInfinites.value
    ensures AllocateInfinite(h, Some(q), form).1.Some? <==>
              (q.maxInfinites.Some? ==> LiveCount(h.infinites) + 1 <= q.maxInfinites.value)
  {
  }

  /** The policy grants exactly what fits. */
  lemma GrantedIffFits(h: Heap, q: Quota, t: Tensor)
    requires |h.tensors| - |h.freeTensors| == LiveCount(h.tensors)
    requires Accounted(h) && WithinQuota(h, q) && Plausible(h, AllocateOp(t))
    ensures EvaluateAlloc(h, Some(q), |t.data|) == Allow <==>
              && (q.maxTensors.Some? ==> LiveCount(h.tensors) + 1 <= q.maxTensors.value)
              && (q.maxElements.Some? ==> LiveElements(h.tensors) + |t.data| <= q.maxElements.value)
  {
    if q.maxElements.Some? {
      SmallDrift(h.elements, LiveElements(h.tensors));
    }
  }

  predicate PlausibleRun(h: Heap, quota: Option<Quota>, ops: seq<Op>)
    requires HeapOk(h)
    decreases |ops|
  {
    ops == [] ||
    (Plausible(h, ops[0]) && (StepKeepsSlots(h, quota, ops[0]); PlausibleRun(Step(h, quota, ops[0]), quota, ops[1..])))
  }

  /** Live tensors, live elements and live infinite forms never exceed the policy, in any run from an accounted
      state within it. */
  lemma {:induction false} RunKeepsQuota(h: Heap, q: Quota, ops: seq<Op>)
    requires HeapOk(h) && Accounted(h) && InfinitesCounted(h) && WithinQuota(h, q)
    requires PlausibleRun(h, Some(q), ops)
    ensures WithinQuota(Run(h, Some(q), ops), q) && Accounted(Run(h, Some(q), ops))
    decreases |ops|
  {
    hide HeapOk, InfinitesCounted, Step, Accounted, WithinQuota, Plausible;
    if ops != [] {
      StepKeepsSlots(h, Some(q), ops[0]);
      StepKeepsQuota(h, q, ops[0]);
      RunKeepsQuota(Step(h, Some(q), ops[0]), q, ops[1..]);
    }
  }

  // ---------- collecting again, and what is not accounted

  lemma {:induction false} SweepNothing(h: Heap, marked: seq<bool>, n: nat)
    requires n <= |h.tensors| == |marked| && forall i :: 0 <= i < n && h.tensors[i].Some? ==> marked[i]
    ensures SweepTensors(h, marked, n) == h
    decreases n
  {
    if n > 0 {
      SweepNothing(h, marked, n - 1);
    }
  }

  lemma {:induction false} SweepNoInfinites(h: Heap, marked: seq<bool>, n: nat)
    requires n <= |h.infinites| == |marked| && forall i :: 0 <= i < n && h.infinites[i].Some? ==> marked[i]
    ensures SweepInfinites(h, marked, n) == h
    decreases n
  {
    if n > 0 {
      SweepNoInfinites(h, marked, n - 1);
    }
  }

  /** A second collection from the same roots finds nothing left to reclaim. */
  lemma CollectTwice(h: Heap, roots: Roots, pools: Pools)
    ensures Collect(Collect(h, roots, pools), roots, pools) == Collect(h, roots, pools)
  {
    hide ScanRoots, SlotReachable, Collect;
    var h1 := Collect(h, roots, pools);
    CollectExact(h, roots, pools);
    var m := ScanRoots(roots, pools, |h1.tensors|, |h1.infinites|);
    forall i: nat
      ensures i < |h1.tensors| ==> (m.tensors[i] <==> SlotReachable(roots, pools, TensorHandle, i))
      ensures i < |h1.infinites| ==> (m.infinites[i] <==> SlotReachable(roots, pools, InfiniteHandle, i))
    {
      MarkingIsReachability(roots, pools, |h1.tensors|, |h1.infinites|, i);
    }
    SweepNothing(h1, m.tensors, |h1.tensors|);
    SweepNoInfinites(h1, m.infinites, |h1.infinites|);
    CollectUnfolds(h1, roots, pools);
  }

  lemma CollectUnfolds(h: Heap, roots: Roots, pools: Pools)
    ensures var m := ScanRoots(roots, pools, |h.tensors|, |h.infinites|);
            var h1 := SweepTensors(h, m.tensors, |h.tensors|);
            && |h1.infinites| == |h.infinites|
            && Collect(h, roots, pools) == SweepInfinites(h1, m.infinites, |h.infinites|)
  {
    hide ScanRoots;
    var m := ScanRoots(roots, pools, |h.tensors|, |h.infinites|);
    SweepKeepsInfinites(h, m.tensors, |h.tensors|);
  }

  /** The element counter after a collection is exact precisely when what is reclaimed had
      been counted; otherwise it wraps around. */
  lemma CounterExactIff(h: Heap, roots: Roots, pools: Pools)
    requires HeapOk(h) && LiveElements(h.tensors) < U64_LIMIT
    ensures var h' := Collect(h, roots, pools);
            var reclaimed := LiveElements(h.tensors) - LiveElements(h'.tensors);
            && 0 <= reclaimed
            && h'.elements == (if reclaimed <= h.elements then h.elements - reclaimed
                               else h.elements - reclaimed + U64_LIMIT)
  {
    hide ScanRoots, SlotsOk, EvaluateAlloc;
    var m := ScanRoots(roots, pools, |h.tensors|, |h.infinites|);
    SweepShrinks(h, m.tensors, |h.tensors|);
    SweepKeepsInfinites(h, m.tensors, |h.tensors|);
    SweepInfinitesKeepsTensors(SweepTensors(h, m.tensors, |h.tensors|), m.infinites, |h.infinites|);
    StepKeepsDrift(h, None, CollectOp(roots, pools));
    SameDrift(h.elements, LiveElements(h.tensors), Step(h, None, CollectOp(roots, pools)).elements,
              LiveElements(Step(h, None, CollectOp(roots, pools)).tensors));
  }

  lemma SameDrift(counter: U64, live: nat, counter': U64, live': nat)
    requires ToU64(counter - live) == ToU64(counter' - live') && live' <= live < U64_LIMIT
    ensures counter' == if live - live' <= counter then counter - (live - live')
                        else counter - (live - live') + U64_LIMIT
  {
  }

  /** `load_program`: the tensors of the program's pool fill slots, and are not counted. */
  function LoadPool(pool: seq<Tensor>): (h: Heap)
    ensures HeapOk(h) && InfinitesCounted(h)
  {
    Heap(seq(|pool|, i requires 0 <= i < |pool| => Some(pool[i])), [], 0, [], [], 0)
  }

  /** A loaded program is accounted for exactly when its pool holds no elements. */
  lemma PoolAccountedIff(pool: seq<Tensor>)
    requires LiveElements(LoadPool(pool).tensors) < U64_LIMIT
    ensures Accounted(LoadPool(pool)) <==> forall t :: t in pool ==> t.data == []
  {
    var h := LoadPool(pool);
    NothingLive(h.tensors);
    if Accounted(h) {
      forall t | t in pool ensures t.data == [] {
        var i :| 0 <= i < |pool| && pool[i] == t;
        assert Size(h.tensors[i]) == 0;
      }
    }
  }

  lemma {:induction false} NothingLive(cells: seq<Option<Tensor>>)
    ensures LiveElements(cells) == 0 <==> forall i :: 0 <= i < |cells| ==> Size(cells[i]) == 0
  {
    if cells != [] {
      NothingLive(cells[1..]);
      if forall i :: 0 <= i < |cells| ==> Size(cells[i]) == 0 {
        forall i | 0 <= i < |cells[1..]| ensures Size(cells[1..][i]) == 0 {
          assert cells[1..][i] == cells[i + 1];
        }
      }
      if LiveElements(cells) == 0 {
        forall i | 0 <= i < |cells| ensures Size(cells[i]) == 0 {
          if i > 0 {
            assert cells[i] == cells[1..][i - 1];
          }
        }
      }
    }
  }

  /** A pool tensor of one element that nothing refers to: reclaiming it takes the counter
      below zero. */
  lemma PoolTensorWrapsCounter()
    ensures Collect(LoadPool([Tensor([1], [0.0])]), Roots([], [], []), Pools([], [], [])).elements == U64_LIMIT - 1
  {
    var h, roots, pools := LoadPool([Tensor([1], [0.0])]), Roots([], [], []), Pools([], [], []);
    var h' := Collect(h, roots, pools);
    assert h.tensors[1..] == [];
    assert LiveElements(h.tensors) == 1;
    CollectExact(h, roots, pools);
    forall v ensures !Reachable(roots, pools, v) {
    }
    assert h'.tensors[0] == None && h'.tensors[1..] == [];
    CounterExactIff(h, roots, pools);
  }

  /** The allocator of a compiled trace fills a slot and counts nothing. */
  function TraceAllocate(h: Heap, t: Tensor): (Heap, nat)
    requires SlotsOk(h.tensors, h.freeTensors)
  {
    StoreSlot(h, t)
  }

  /** So the counter stays right exactly when the tensor has no elements. */
  lemma TraceAllocateAccountedIff(h: Heap, t: Tensor)
    requires SlotsOk(h.tensors, h.freeTensors) && Accounted(h) && |t.data| < U64_LIMIT
    ensures Accounted(TraceAllocate(h, t).0) <==> t.data == []
  {
    StoreAddsLive(h, t);
    Shortfall(h.elements, LiveElements(h.tensors), |t.data|);
  }

  lemma Shortfall(counter: U64, live: nat, size: nat)
    requires ToU64(counter - live) == 0 && size < U64_LIMIT
    ensures ToU64(counter - (live + size)) == 0 <==> size == 0
  {
  }
}
