/** The collector and the allocator as the machine runs them: flags raised in place by a
    recursive scan, then two sweeps over the slots, and slots handed out again. */
module Collector {
  import opened Bytes
  import opened Wrappers
  import opened GcHeap
  import opened Marker
  import opened TensorHeap

  /** The flags of one `mark_and_sweep`. */
  class Flags {
    const tensors: array<bool>
    const infinites: array<bool>
    const options: array<bool>
    const results: array<bool>
    const enums: array<bool>

    ghost predicate Valid() {
      && tensors != infinites && tensors != options && tensors != results && tensors != enums
      && infinites != options && infinites != results && infinites != enums
      && options != results && options != enums && results != enums
    }

    ghost predicate FitsPools(pools: Pools)
      reads tensors, infinites, options, results, enums
    {
      Fits(pools, Marks())
    }

    ghost function Marks(): Marks
      reads tensors, infinites, options, results, enums
    {
      Marker.Marks(tensors[..], infinites[..], options[..], results[..], enums[..])
    }

    ghost function Arrays(): set<object> {
      {tensors, infinites, options, results, enums}
    }

    constructor (pools: Pools, tensorSlots: nat, infiniteSlots: nat)
      ensures Valid() && fresh(Arrays())
      ensures Marks() == Unmarked(pools, tensorSlots, infiniteSlots)
    {
      tensors := new bool[tensorSlots](_ => false);
      infinites := new bool[infiniteSlots](_ => false);
      options := new bool[|pools.options|](_ => false);
      results := new bool[|pools.results|](_ => false);
      enums := new bool[|pools.enums|](_ => false);
      new;
      assert Marks() == Unmarked(pools, tensorSlots, infiniteSlots);
    }

    /** `mark_tensor` and `mark_infinite`. */
    method MarkSlot(v: Value)
      requires Valid()
      modifies Arrays()
      ensures Marks() == Marker.MarkSlot(old(Marks()), v)
    {
      if v.word <= 0 {
        return;
      }
      var i := v.word - 1;
      if v.tag.TensorHandle? && i < tensors.Length {
        tensors[i] := true;
      } else if v.tag.InfiniteHandle? && i < infinites.Length {
        infinites[i] := true;
      }
    }

    /** Whether `v` names a pool entry not visited before; if so it is visited now. */
    method VisitEntry(pools: Pools, v: Value) returns (first: bool)
      requires Valid() && FitsPools(pools) && IsHandle(pools, v)
      modifies Arrays()
      ensures first == !Visited(pools, old(Marks()), v)
      ensures Marks() == if first then Visit(pools, old(Marks()), v) else old(Marks())
    {
      var i := v.word - 1;
      if v.tag.OptionHandle? {
        first := !options[i];
        options[i] := true;
      } else if v.tag.ResultHandle? {
        first := !results[i];
        results[i] := true;
      } else {
        first := !enums[i];
        enums[i] := true;
      }
      assert old(Marks()).options == old(options[..]);
    }

    /** `scan_value`. */
    method ScanValue(pools: Pools, v: Value)
      requires Valid() && FitsPools(pools)
      modifies Arrays()
      ensures FitsPools(pools) && Marks() == Scan(pools, old(Marks()), v)
      decreases Unvisited(Marks())
    {
      hide Visit, Visited;
      if IsHandle(pools, v) {
        var first := VisitEntry(pools, v);
        if first {
          match Payload(pools, v)
          case Some(w) => ScanValue(pools, w);
          case None =>
        }
      } else {
        MarkSlot(v);
      }
    }

    method ScanValues(pools: Pools, values: seq<Value>)
      requires Valid() && FitsPools(pools)
      modifies Arrays()
      ensures FitsPools(pools) && Marks() == ScanAll(pools, old(Marks()), values)
    {
      hide Scan;
      for i := 0 to |values|
        invariant FitsPools(pools) && Marks() == ScanAll(pools, old(Marks()), values[..i])
      {
        ScanValue(pools, values[i]);
        assert values[..i + 1][..i] == values[..i];
      }
      assert values[..|values|] == values;
    }

    method ScanTable(pools: Pools, rows: seq<seq<Value>>)
      requires Valid() && FitsPools(pools)
      modifies Arrays()
      ensures FitsPools(pools) && Marks() == ScanRows(pools, old(Marks()), rows)
    {
      hide ScanAll;
      for i := 0 to |rows|
        invariant FitsPools(pools) && Marks() == ScanRows(pools, old(Marks()), rows[..i])
      {
        ScanValues(pools, rows[i]);
        assert rows[..i + 1][..i] == rows[..i];
      }
      assert rows[..|rows|] == rows;
    }
  }

  class Store {
    var contexts: seq<seq<Value>>
    var memory: seq<Value>
    var snapshots: seq<seq<Value>>
    var options: seq<OptionValue>
    var results: seq<ResultValue>
    var enums: seq<EnumValue>

    var tensors: seq<Option<Tensor>>
    var freeTensors: seq<nat>
    var elements: U64
    var infinites: seq<Option<InfiniteForm>>
    var freeInfinites: seq<nat>
    var infiniteCount: U64
    var quota: Option<Quota>

    ghost function Roots(): Roots
      reads this
    {
      GcHeap.Roots(contexts, memory, snapshots)
    }

    function Pools(): Pools
      reads this
    {
      GcHeap.Pools(options, results, enums)
    }

    function Heap(): Heap
      reads this
    {
      TensorHeap.Heap(tensors, freeTensors, elements, infinites, freeInfinites, infiniteCount)
    }

    /** The free lists are exact. */
    ghost predicate Valid()
      reads this
    {
      SlotsOk(tensors, freeTensors) && SlotsOk(infinites, freeInfinites)
    }

    /** The pool of a program just loaded. */
    constructor (pool: seq<Tensor>, policy: Option<Quota>)
      ensures Valid() && Heap() == LoadPool(pool) && quota == policy
    {
      contexts, memory, snapshots := [], [], [];
      options, results, enums := [], [], [];
      tensors := seq(|pool|, i requires 0 <= i < |pool| => Some(pool[i]));
      freeTensors, elements := [], 0;
      infinites, freeInfinites, infiniteCount := [], [], 0;
      quota := policy;
    }

    /** The marking half of `mark_and_sweep`: registers, memory, snapshots. */
    method Mark() returns (flags: Flags)
      ensures fresh(flags) && flags.Marks() == ScanRoots(Roots(), Pools(), |tensors|, |infinites|)
    {
      hide ScanRows, ScanAll;
      var pools := Pools();
      flags := new Flags(pools, |tensors|, |infinites|);
      flags.ScanTable(pools, contexts);
      flags.ScanValues(pools, memory);
      flags.ScanTable(pools, snapshots);
    }

    /** `mark_and_sweep`: what is reclaimed is counted, slot by slot. */
    method MarkAndSweep() returns (reclaimedTensors: nat, reclaimedInfinites: nat)
      requires Valid()
      modifies `tensors, `freeTensors, `elements, `infinites, `freeInfinites, `infiniteCount
      ensures Valid() && Heap() == Collect(old(Heap()), Roots(), Pools())
      ensures reclaimedTensors == LiveCount(old(tensors)) - LiveCount(tensors)
      ensures reclaimedTensors == |freeTensors| - |old(freeTensors)|
      ensures reclaimedInfinites == LiveCount(old(infinites)) - LiveCount(infinites)
      ensures reclaimedInfinites == |freeInfinites| - |old(freeInfinites)|
    {
      hide ScanRoots, SlotsOk, SlotReachable, Collect, SweepTensors, SweepInfinites;
      ghost var h, roots := Heap(), Roots();
      ghost var pools := Pools();
      var flags := Mark();
      CollectUnfolds(h, roots, pools);
      reclaimedTensors := SweepTensorSlots(flags);
      reclaimedInfinites := SweepInfiniteSlots(flags);
      StepKeepsSlots(h, quota, CollectOp(roots, pools));
      FreeListCounts(h.tensors, h.freeTensors, Tensor([], []));
      FreeListCounts(tensors, freeTensors, Tensor([], []));
      FreeListCounts(h.infinites, h.freeInfinites, InfiniteForm(""));
      FreeListCounts(infinites, freeInfinites, InfiniteForm(""));
    }

    method SweepTensorSlots(flags: Flags) returns (reclaimed: nat)
      requires flags.tensors.Length == |tensors|
      modifies `tensors, `freeTensors, `elements
      ensures Heap() == SweepTensors(old(Heap()), flags.tensors[..], |old(tensors)|)
      ensures reclaimed == |freeTensors| - |old(freeTensors)|
    {
      reclaimed := 0;
      for i := 0 to |tensors|
        invariant |tensors| == |old(tensors)|
        invariant Heap() == SweepTensors(old(Heap()), flags.tensors[..], i)
        invariant reclaimed == |freeTensors| - |old(freeTensors)|
      {
        if tensors[i].Some? && !flags.tensors[i] {
          elements := ToU64(elements - |tensors[i].value.data|);
          tensors := tensors[i := None];
          freeTensors := freeTensors + [i];
          reclaimed := reclaimed + 1;
        }
      }
    }

    method SweepInfiniteSlots(flags: Flags) returns (reclaimed: nat)
      requires flags.infinites.Length == |infinites|
      modifies `infinites, `freeInfinites, `infiniteCount
      ensures Heap() == SweepInfinites(old(Heap()), flags.infinites[..], |old(infinites)|)
      ensures reclaimed == |freeInfinites| - |old(freeInfinites)|
    {
      reclaimed := 0;
      for i := 0 to |infinites|
        invariant |infinites| == |old(infinites)|
        invariant Heap() == SweepInfinites(old(Heap()), flags.infinites[..], i)
        invariant reclaimed == |freeInfinites| - |old(freeInfinites)|
      {
        if infinites[i].Some? && !flags.infinites[i] {
          infiniteCount := ToU64(infiniteCount - 1);
          infinites := infinites[i := None];
          freeInfinites := freeInfinites + [i];
          reclaimed := reclaimed + 1;
        }
      }
    }

    /** `alloc_tensor`: policy, accounting, slot. */
    method AllocateTensor(t: Tensor) returns (handle: Option<nat>)
      requires Valid()
      modifies `tensors, `freeTensors, `elements
      ensures Valid()
      ensures (Heap(), handle) == Allocate(old(Heap()), quota, t)
    {
      hide EvaluateAlloc, ToU64;
      var verdict := EvaluateAlloc(Heap(), quota, |t.data|);
      if verdict != Allow {
        return None;
      }
      elements := ToU64(elements + |t.data|);
      StoreKeepsSlots(Heap(), t);
      if freeTensors != [] {
        var last := |freeTensors| - 1;
        var i := freeTensors[last];
        assert i in freeTensors;
        freeTensors := freeTensors[..last];
        tensors := tensors[i := Some(t)];
        handle := Some(i + 1);
      } else {
        tensors := tensors + [Some(t)];
        handle := Some(|tensors|);
      }
    }

    /** `alloc_infinite_form`. */
    method AllocateInfinite(form: InfiniteForm) returns (handle: Option<nat>)
      requires Valid()
      modifies `infinites, `freeInfinites, `infiniteCount
      ensures Valid()
      ensures (Heap(), handle) == TensorHeap.AllocateInfinite(old(Heap()), quota, form)
    {
      hide ToU64, NoDuplicates, LiveCount, LiveElements;
      if quota.Some? && quota.value.maxInfinites.Some?
         && ToU64(infiniteCount + 1) > ToU64(quota.value.maxInfinites.value) {
        return None;
      }
      AllocateInfiniteKeepsSlots(Heap(), quota, form);
      if freeInfinites != [] {
        var last := |freeInfinites| - 1;
        var i := freeInfinites[last];
        assert i in freeInfinites;
        freeInfinites := freeInfinites[..last];
        infinites := infinites[i := Some(form)];
        handle := Some(i + 1);
      } else {
        infinites := infinites + [Some(form)];
        handle := Some(|infinites|);
      }
      infiniteCount := ToU64(infiniteCount + 1);
    }
  }
}
