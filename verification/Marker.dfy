/** Marking: a recursive scan from every root, with one visited flag per pool entry, so
    that it ends even when payloads form a cycle. */
module Marker {
  import opened Isa
  import opened Wrappers
  import opened GcHeap

  /** Marks of slots, and visited flags of pool entries. */
  datatype Marks = Marks(
    tensors: seq<bool>, infinites: seq<bool>, options: seq<bool>, results: seq<bool>, enums: seq<bool>)

  function Clear(n: nat): (flags: seq<bool>)
    ensures |flags| == n && forall i :: 0 <= i < n ==> !flags[i]
  {
    seq(n, _ => false)
  }

  function Unmarked(pools: Pools, tensors: nat, infinites: nat): Marks {
    Marks(Clear(tensors), Clear(infinites), Clear(|pools.options|), Clear(|pools.results|), Clear(|pools.enums|))
  }

  predicate Fits(pools: Pools, m: Marks) {
    |m.options| == |pools.options| && |m.results| == |pools.results| && |m.enums| == |pools.enums|
  }

  /** How many flags are still down. */
  function Down(flags: seq<bool>): (n: nat)
    ensures n <= |flags|
  {
    if flags == [] then 0 else (if flags[0] then 0 else 1) + Down(flags[1..])
  }

  lemma {:induction false} RaiseOne(flags: seq<bool>, i: nat)
    requires i < |flags| && !flags[i]
    ensures Down(flags[i := true]) == Down(flags) - 1
    decreases |flags|
  {
    if i > 0 {
      RaiseOne(flags[1..], i - 1);
      assert flags[i := true][1..] == flags[1..][i - 1 := true];
    } else {
      assert flags[0 := true][1..] == flags[1..];
    }
  }

  function Unvisited(m: Marks): nat {
    Down(m.options) + Down(m.results) + Down(m.enums)
  }

  /** Raise the visited flag of the entry that `v` is a handle of. */
  function Visit(pools: Pools, m: Marks, v: Value): (m': Marks)
    requires Fits(pools, m) && IsHandle(pools, v) && !Visited(pools, m, v)
    ensures Fits(pools, m') && Unvisited(m') < Unvisited(m)
  {
    var i := v.word - 1;
    if v.tag.OptionHandle? then RaiseOne(m.options, i); m.(options := m.options[i := true])
    else if v.tag.ResultHandle? then RaiseOne(m.results, i); m.(results := m.results[i := true])
    else RaiseOne(m.enums, i); m.(enums := m.enums[i := true])
  }

  predicate IsHandle(pools: Pools, v: Value) {
    || (v.tag.OptionHandle? && Handle(v.word, |pools.options|))
    || (v.tag.ResultHandle? && Handle(v.word, |pools.results|))
    || (v.tag.EnumHandle? && Handle(v.word, |pools.enums|))
  }

  predicate Visited(pools: Pools, m: Marks, v: Value)
    requires Fits(pools, m) && IsHandle(pools, v)
  {
    if v.tag.OptionHandle? then m.options[v.word - 1]
    else if v.tag.ResultHandle? then m.results[v.word - 1]
    else m.enums[v.word - 1]
  }

  /** `mark_tensor` and `mark_infinite`. */
  function MarkSlot(m: Marks, v: Value): Marks {
    if v.tag.TensorHandle? && Handle(v.word, |m.tensors|) then m.(tensors := m.tensors[v.word - 1 := true])
    else if v.tag.InfiniteHandle? && Handle(v.word, |m.infinites|) then m.(infinites := m.infinites[v.word - 1 := true])
    else m
  }

  /** `scan_value`. */
  function Scan(pools: Pools, m: Marks, v: Value): (m': Marks)
    requires Fits(pools, m)
    ensures Fits(pools, m') && |m'.tensors| == |m.tensors| && |m'.infinites| == |m.infinites|
    decreases Unvisited(m)
  {
    if IsHandle(pools, v) then
      if Visited(pools, m, v) then m
      else
        var m1 := Visit(pools, m, v);
        match Payload(pools, v)
        case Some(w) => Scan(pools, m1, w)
        case None => m1
    else MarkSlot(m, v)
  }

  function ScanAll(pools: Pools, m: Marks, values: seq<Value>): (m': Marks)
    requires Fits(pools, m)
    ensures Fits(pools, m') && |m'.tensors| == |m.tensors| && |m'.infinites| == |m.infinites|
  {
    if values == [] then m
    else Scan(pools, ScanAll(pools, m, values[..|values| - 1]), values[|values| - 1])
  }

  function ScanRows(pools: Pools, m: Marks, rows: seq<seq<Value>>): (m': Marks)
    requires Fits(pools, m)
    ensures Fits(pools, m') && |m'.tensors| == |m.tensors| && |m'.infinites| == |m.infinites|
  {
    if rows == [] then m
    else ScanAll(pools, ScanRows(pools, m, rows[..|rows| - 1]), rows[|rows| - 1])
  }

  function ScanRoots(roots: Roots, pools: Pools, tensors: nat, infinites: nat): (m: Marks)
    ensures Fits(pools, m) && |m.tensors| == tensors && |m.infinites| == infinites
  {
    var m0 := Unmarked(pools, tensors, infinites);
    ScanRows(pools, ScanAll(pools, ScanRows(pools, m0, roots.contexts), roots.memory), roots.snapshots)
  }

  // ---------- what a scan leaves behind

  /** Nothing more is to be done about `v`. */
  predicate Covered(pools: Pools, m: Marks, v: Value)
    requires Fits(pools, m)
  {
    if IsHandle(pools, v) then Visited(pools, m, v)
    else if v.tag.TensorHandle? && Handle(v.word, |m.tensors|) then m.tensors[v.word - 1]
    else if v.tag.InfiniteHandle? && Handle(v.word, |m.infinites|) then m.infinites[v.word - 1]
    else true
  }

  ghost predicate Above(pools: Pools, m: Marks, m': Marks)
    requires Fits(pools, m) && Fits(pools, m')
  {
    && |m'.tensors| == |m.tensors| && |m'.infinites| == |m.infinites|
    && forall v :: Covered(pools, m, v) ==> Covered(pools, m', v)
  }

  /** The payload of every entry visited since `m` is covered. */
  ghost predicate Closed(pools: Pools, m: Marks, m': Marks)
    requires Fits(pools, m) && Fits(pools, m')
  {
    forall v, w :: IsHandle(pools, v) && Visited(pools, m', v) && !Visited(pools, m, v) && Payload(pools, v) == Some(w)
                   ==> Covered(pools, m', w)
  }

  /** Every mark has a reachable value to justify it. */
  ghost predicate Justified(roots: Roots, pools: Pools, m: Marks) {
    && (forall i :: 0 <= i < |m.tensors| && m.tensors[i] ==> SlotReachable(roots, pools, TensorHandle, i))
    && (forall i :: 0 <= i < |m.infinites| && m.infinites[i] ==> SlotReachable(roots, pools, InfiniteHandle, i))
  }

  lemma VisitCovers(pools: Pools, m: Marks, v: Value)
    requires Fits(pools, m) && IsHandle(pools, v) && !Visited(pools, m, v)
    ensures Above(pools, m, Visit(pools, m, v)) && Covered(pools, Visit(pools, m, v), v)
    ensures forall u :: IsHandle(pools, u) && Visited(pools, Visit(pools, m, v), u) && !Visited(pools, m, u) ==> u == v
  {
  }

  lemma MarkSlotCovers(pools: Pools, m: Marks, v: Value)
    requires Fits(pools, m) && !IsHandle(pools, v)
    ensures Fits(pools, MarkSlot(m, v)) && Above(pools, m, MarkSlot(m, v)) && Covered(pools, MarkSlot(m, v), v)
    ensures Closed(pools, m, MarkSlot(m, v))
  {
  }

  lemma {:induction false} ScanCovers(pools: Pools, m: Marks, v: Value)
    requires Fits(pools, m)
    ensures Above(pools, m, Scan(pools, m, v)) && Closed(pools, m, Scan(pools, m, v))
    ensures Covered(pools, Scan(pools, m, v), v)
    decreases Unvisited(m)
  {
    hide Visit, MarkSlot, Payload, IsHandle, Visited, Covered;
    if IsHandle(pools, v) {
      if Visited(pools, m, v) {
        assert Covered(pools, m, v) by { VisitedIsCovered(pools, m, v); }
      } else {
        var m1 := Visit(pools, m, v);
        VisitCovers(pools, m, v);
        match Payload(pools, v)
        case None =>
        case Some(w) =>
          ScanCovers(pools, m1, w);
      }
    } else {
      MarkSlotCovers(pools, m, v);
    }
  }

  lemma VisitedIsCovered(pools: Pools, m: Marks, v: Value)
    requires Fits(pools, m) && IsHandle(pools, v)
    ensures Covered(pools, m, v) <==> Visited(pools, m, v)
  {
  }

  lemma {:induction false} ScanJustified(roots: Roots, pools: Pools, m: Marks, v: Value)
    requires Fits(pools, m) && Justified(roots, pools, m) && Reachable(roots, pools, v)
    ensures Justified(roots, pools, Scan(pools, m, v))
    decreases Unvisited(m)
  {
    hide Payload, Reachable;
    if IsHandle(pools, v) && !Visited(pools, m, v) {
      match Payload(pools, v)
      case None =>
      case Some(w) =>
        PayloadReachable(roots, pools, v, w);
        ScanJustified(roots, pools, Visit(pools, m, v), w);
    }
  }

  lemma AboveClosedTransitive(pools: Pools, m: Marks, m1: Marks, m2: Marks)
    requires Fits(pools, m) && Fits(pools, m1) && Fits(pools, m2)
    requires Above(pools, m, m1) && Above(pools, m1, m2) && Closed(pools, m, m1) && Closed(pools, m1, m2)
    ensures Above(pools, m, m2) && Closed(pools, m, m2)
  {
    hide Payload, IsHandle, Visited, Covered;
    forall v, w | IsHandle(pools, v) && Visited(pools, m2, v) && !Visited(pools, m, v) && Payload(pools, v) == Some(w)
      ensures Covered(pools, m2, w)
    {
      if Visited(pools, m1, v) {
        assert Covered(pools, m1, w);
      }
    }
  }

  lemma AboveClosedReflexive(pools: Pools, m: Marks)
    requires Fits(pools, m)
    ensures Above(pools, m, m) && Closed(pools, m, m)
  {
  }

  lemma {:induction false} ScanAllCovers(pools: Pools, m: Marks, values: seq<Value>)
    requires Fits(pools, m)
    ensures Above(pools, m, ScanAll(pools, m, values)) && Closed(pools, m, ScanAll(pools, m, values))
    ensures forall v :: v in values ==> Covered(pools, ScanAll(pools, m, values), v)
  {
    hide Above, Closed, Covered, Fits;
    if values == [] {
      AboveClosedReflexive(pools, m);
    } else {
      var front, last := values[..|values| - 1], values[|values| - 1];
      var m1 := ScanAll(pools, m, front);
      ScanAllCovers(pools, m, front);
      ScanCovers(pools, m1, last);
      var m2 := Scan(pools, m1, last);
      AboveClosedTransitive(pools, m, m1, m2);
      forall v | v in values ensures Covered(pools, m2, v) {
        if v in front {
          AboveKeeps(pools, m1, m2, v);
        }
      }
    }
  }

  lemma AboveKeeps(pools: Pools, m: Marks, m': Marks, v: Value)
    requires Fits(pools, m) && Fits(pools, m') && Above(pools, m, m') && Covered(pools, m, v)
    ensures Covered(pools, m', v)
  {
  }

  lemma {:induction false} ScanRowsCovers(pools: Pools, m: Marks, rows: seq<seq<Value>>)
    requires Fits(pools, m)
    ensures Above(pools, m, ScanRows(pools, m, rows)) && Closed(pools, m, ScanRows(pools, m, rows))
    ensures forall v :: InAny(rows, v) ==> Covered(pools, ScanRows(pools, m, rows), v)
  {
    hide Above, Closed, Covered, Fits;
    if rows == [] {
      AboveClosedReflexive(pools, m);
    } else {
      var front, last := rows[..|rows| - 1], rows[|rows| - 1];
      var m1 := ScanRows(pools, m, front);
      ScanRowsCovers(pools, m, front);
      ScanAllCovers(pools, m1, last);
      var m2 := ScanAll(pools, m1, last);
      AboveClosedTransitive(pools, m, m1, m2);
      forall v | InAny(rows, v) ensures Covered(pools, m2, v) {
        var i :| 0 <= i < |rows| && v in rows[i];
        if i < |front| {
          assert v in front[i];
          AboveKeeps(pools, m1, m2, v);
        }
      }
    }
  }

  lemma {:induction false} ScanAllJustified(roots: Roots, pools: Pools, m: Marks, values: seq<Value>)
    requires Fits(pools, m) && Justified(roots, pools, m) && forall v :: v in values ==> IsRoot(roots, v)
    ensures Justified(roots, pools, ScanAll(pools, m, values))
  {
    hide Justified, IsRoot;
    if values != [] {
      ScanAllJustified(roots, pools, m, values[..|values| - 1]);
      RootReachable(roots, pools, values[|values| - 1]);
      ScanJustified(roots, pools, ScanAll(pools, m, values[..|values| - 1]), values[|values| - 1]);
    }
  }

  lemma {:induction false} ScanRowsJustified(roots: Roots, pools: Pools, m: Marks, rows: seq<seq<Value>>)
    requires Fits(pools, m) && Justified(roots, pools, m) && forall v :: InAny(rows, v) ==> IsRoot(roots, v)
    ensures Justified(roots, pools, ScanRows(pools, m, rows))
  {
    hide Justified, IsRoot;
    if rows != [] {
      var front, last := rows[..|rows| - 1], rows[|rows| - 1];
      forall v | InAny(front, v) ensures InAny(rows, v) {
        var i :| 0 <= i < |front| && v in front[i];
        assert v in rows[i];
      }
      forall v | v in last ensures InAny(rows, v) {
        assert v in rows[|rows| - 1];
      }
      ScanRowsJustified(roots, pools, m, front);
      ScanAllJustified(roots, pools, ScanRows(pools, m, front), last);
    }
  }

  lemma UnmarkedIsDown(roots: Roots, pools: Pools, tensors: nat, infinites: nat)
    ensures var m0 := Unmarked(pools, tensors, infinites);
            && Fits(pools, m0) && Justified(roots, pools, m0)
            && forall v :: IsHandle(pools, v) ==> !Visited(pools, m0, v)
  {
  }

  /** After all roots are scanned, everything reachable is covered. */
  lemma RootsCover(roots: Roots, pools: Pools, tensors: nat, infinites: nat, v: Value)
    requires Reachable(roots, pools, v)
    ensures Covered(pools, ScanRoots(roots, pools, tensors, infinites), v)
  {
    hide Covered, Visited, IsHandle, Payload, IsRoot, Scan, ScanAll, ScanRows, Unmarked, Chain;
    var m0 := Unmarked(pools, tensors, infinites);
    UnmarkedIsDown(roots, pools, tensors, infinites);
    var m1 := ScanRows(pools, m0, roots.contexts);
    var m2 := ScanAll(pools, m1, roots.memory);
    var m := ScanRoots(roots, pools, tensors, infinites);
    ScanRowsCovers(pools, m0, roots.contexts);
    ScanAllCovers(pools, m1, roots.memory);
    ScanRowsCovers(pools, m2, roots.snapshots);
    AboveClosedTransitive(pools, m0, m1, m2);
    AboveClosedTransitive(pools, m0, m2, m);
    var covered := iset u | Covered(pools, m, u);
    var path :| Leads(roots, pools, path, v);
    RootsAreCovered(roots, pools, m1, m2, m, path[0]);
    forall u, w | u in covered && Payload(pools, u) == Some(w) ensures w in covered {
      HandlesHavePayloads(pools, u);
      VisitedIsCovered(pools, m, u);
    }
    ChainInherits(pools, path, covered);
  }

  lemma HandlesHavePayloads(pools: Pools, v: Value)
    ensures Payload(pools, v).Some? ==> IsHandle(pools, v)
  {
  }

  lemma RootsAreCovered(roots: Roots, pools: Pools, m1: Marks, m2: Marks, m: Marks, v: Value)
    requires Fits(pools, m1) && Fits(pools, m2) && Fits(pools, m)
    requires Above(pools, m1, m2) && Above(pools, m2, m)
    requires forall u :: InAny(roots.contexts, u) ==> Covered(pools, m1, u)
    requires forall u :: u in roots.memory ==> Covered(pools, m2, u)
    requires forall u :: InAny(roots.snapshots, u) ==> Covered(pools, m, u)
    requires IsRoot(roots, v)
    ensures Covered(pools, m, v)
  {
    hide Covered;
  }

  lemma RootsJustified(roots: Roots, pools: Pools, tensors: nat, infinites: nat)
    ensures Justified(roots, pools, ScanRoots(roots, pools, tensors, infinites))
  {
    hide Justified, Scan, ScanAll, ScanRows, Unmarked, InAny;
    var m0 := Unmarked(pools, tensors, infinites);
    UnmarkedIsDown(roots, pools, tensors, infinites);
    var m1 := ScanRows(pools, m0, roots.contexts);
    var m2 := ScanAll(pools, m1, roots.memory);
    ScanRowsJustified(roots, pools, m0, roots.contexts);
    ScanAllJustified(roots, pools, m1, roots.memory);
    ScanRowsJustified(roots, pools, m2, roots.snapshots);
  }

  /** Marking is exact: a slot is marked exactly when a chain of payloads leads to it from
      a register, a memory word or a snapshot. */
  lemma MarkingIsReachability(roots: Roots, pools: Pools, tensors: nat, infinites: nat, i: nat)
    ensures i < tensors ==>
              (ScanRoots(roots, pools, tensors, infinites).tensors[i] <==> SlotReachable(roots, pools, TensorHandle, i))
    ensures i < infinites ==>
              (ScanRoots(roots, pools, tensors, infinites).infinites[i] <==>
               SlotReachable(roots, pools, InfiniteHandle, i))
  {
    hide Reachable, ScanRoots;
    var m := ScanRoots(roots, pools, tensors, infinites);
    RootsJustified(roots, pools, tensors, infinites);
    if SlotReachable(roots, pools, TensorHandle, i) {
      var v :| Reachable(roots, pools, v) && v.tag == TensorHandle && v.word == i + 1;
      RootsCover(roots, pools, tensors, infinites, v);
    }
    if SlotReachable(roots, pools, InfiniteHandle, i) {
      var v :| Reachable(roots, pools, v) && v.tag == InfiniteHandle && v.word == i + 1;
      RootsCover(roots, pools, tensors, infinites, v);
    }
  }
}
