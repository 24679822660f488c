/** The stack and heap segments as one allocator: words pushed and popped, stack frames and
    heap blocks in multiples of 81 words, and a compaction that drops every heap block. */
module Allocator {
  import opened Word
  import opened Wrappers
  import opened VmState

  const BLOCK := 81

  datatype Block = Block(addr: nat, size: nat)

  datatype Mem = Mem(sp: nat, frames: seq<Block>, heapPtr: nat, heapFrames: seq<Block>)

  datatype Fault = DecodeFault | StackFault | BoundsFault

  /** The two segments and the stack quota of the policy. */
  datatype Arena = Arena(stack: Segment, heap: Segment, maxStack: Option<Word>)

  datatype Op =
    | Push | Pop
    | StackAlloc(size: Word) | StackFree(ptr: Word, size: Word)
    | HeapAlloc(size: Word, held: Word) | HeapFree(ptr: Word, size: Word)
    | Compact

  predicate ValidSegment(s: Segment) {
    s.limit > s.start
  }

  /** `align_block81`. */
  function Align(size: nat): (r: nat)
    ensures r % 81 == 0 && size <= r < size + 81
  {
    if size % BLOCK != 0 then (size / BLOCK + 1) * BLOCK else size
  }

  /** The quota refuses a stack of this many words. */
  predicate OverQuota(a: Arena, words: int) {
    a.maxStack.Some? && words > a.maxStack.value
  }

  function Last(s: seq<Block>): Block
    requires s != []
  {
    s[|s| - 1]
  }

  function Front(s: seq<Block>): seq<Block>
    requires s != []
  {
    s[..|s| - 1]
  }

  function DoPush(a: Arena, m: Mem): Result<Mem, Fault> {
    if m.sp <= a.stack.start || OverQuota(a, a.stack.limit - (m.sp - 1)) then Err(StackFault)
    else Ok(m.(sp := m.sp - 1))
  }

  function DoPop(a: Arena, m: Mem): Result<Mem, Fault> {
    if m.sp >= a.stack.limit then Err(StackFault) else Ok(m.(sp := m.sp + 1))
  }

  function DoStackAlloc(a: Arena, m: Mem, words: Word): Result<Mem, Fault> {
    if words < 0 || !ValidSegment(a.stack) then Err(DecodeFault)
    else
      var size := Align(words);
      if m.sp < a.stack.start || size > m.sp - a.stack.start || OverQuota(a, a.stack.limit - (m.sp - size)) then
        Err(StackFault)
      else Ok(m.(sp := m.sp - size, frames := m.frames + [Block(m.sp - size, size)]))
  }

  function DoStackFree(a: Arena, m: Mem, ptr: Word, words: Word): Result<Mem, Fault> {
    if words < 0 then Err(DecodeFault)
    else if !ValidSegment(a.stack) || m.frames == [] then Err(StackFault)
    else if !a.stack.Contains(ptr) then Err(DecodeFault)
    else if Last(m.frames) != Block(ptr, Align(words)) then Err(StackFault)
    else Ok(m.(sp := ptr + Align(words), frames := Front(m.frames)))
  }

  /** The register that receives the block must hold zero. */
  function DoHeapAlloc(a: Arena, m: Mem, words: Word, held: Word): Result<Mem, Fault> {
    if !ValidSegment(a.heap) || words < 0 then Err(DecodeFault)
    else
      var size := Align(words);
      if size > a.heap.limit - a.heap.start || m.heapPtr < a.heap.start || m.heapPtr + size > a.heap.limit then
        Err(BoundsFault)
      else if held != 0 then Err(DecodeFault)
      else Ok(m.(heapPtr := m.heapPtr + size, heapFrames := m.heapFrames + [Block(m.heapPtr, size)]))
  }

  function DoHeapFree(a: Arena, m: Mem, ptr: Word, words: Word): Result<Mem, Fault> {
    if !ValidSegment(a.heap) then Err(BoundsFault)
    else if words < 0 then Err(DecodeFault)
    else if m.heapFrames == [] then Err(BoundsFault)
    else if !a.heap.Contains(ptr) || Last(m.heapFrames) != Block(ptr, Align(words)) then Err(DecodeFault)
    else Ok(m.(heapPtr := ptr, heapFrames := Front(m.heapFrames)))
  }

  function Exec(a: Arena, m: Mem, op: Op): Result<Mem, Fault> {
    match op
    case Push => DoPush(a, m)
    case Pop => DoPop(a, m)
    case StackAlloc(size) => DoStackAlloc(a, m, size)
    case StackFree(ptr, size) => DoStackFree(a, m, ptr, size)
    case HeapAlloc(size, held) => DoHeapAlloc(a, m, size, held)
    case HeapFree(ptr, size) => DoHeapFree(a, m, ptr, size)
    case Compact => Ok(m.(heapPtr := a.heap.start, heapFrames := []))
  }

  /** A faulting operation changes nothing. */
  function Step(a: Arena, m: Mem, op: Op): Mem {
    match Exec(a, m, op)
    case Ok(m') => m'
    case Err(_) => m
  }

  function Run(a: Arena, m: Mem, ops: seq<Op>): Mem
    decreases |ops|
  {
    if ops == [] then m else Run(a, Step(a, m, ops[0]), ops[1..])
  }

  function Fresh(a: Arena): Mem {
    Mem(a.stack.limit, [], a.heap.start, [])
  }

  // ---------- what every run keeps

  /** The blocks follow each other without gaps from `from` up to `to`. */
  predicate Tiled(blocks: seq<Block>, from: nat, to: nat) {
    if blocks == [] then from == to
    else
      && Last(blocks).addr + Last(blocks).size == to
      && Last(blocks).size % BLOCK == 0
      && Tiled(Front(blocks), from, Last(blocks).addr)
  }

  predicate FrameInside(a: Arena, b: Block) {
    a.stack.start <= b.addr && b.addr + b.size <= a.stack.limit && b.size % BLOCK == 0
  }

  predicate Valid(a: Arena, m: Mem) {
    && a.stack.start <= m.sp <= a.stack.limit
    && (forall i :: 0 <= i < |m.frames| ==> FrameInside(a, m.frames[i]))
    && Tiled(m.heapFrames, a.heap.start, m.heapPtr)
    && a.heap.start <= m.heapPtr <= a.heap.limit
  }

  lemma FreshValid(a: Arena)
    requires a.stack.start <= a.stack.limit && a.heap.start <= a.heap.limit
    ensures Valid(a, Fresh(a))
  {
  }

  lemma {:induction false} TiledBounds(blocks: seq<Block>, from: nat, to: nat)
    requires Tiled(blocks, from, to)
    ensures from <= to
    decreases |blocks|
  {
    if blocks != [] {
      TiledBounds(Front(blocks), from, Last(blocks).addr);
    }
  }

  lemma AlignedBlocks(size: nat)
    ensures Align(size) % BLOCK == 0
  {
  }

  lemma StackStepKeepsValid(a: Arena, m: Mem, op: Op)
    requires Valid(a, m) && (op.Push? || op.Pop? || op.StackAlloc? || op.StackFree?)
    ensures Valid(a, Step(a, m, op))
  {
    hide Align, Tiled;
    if (op.StackAlloc? || op.StackFree?) && op.size >= 0 {
      AlignedBlocks(op.size);
    }
  }

  lemma HeapStepKeepsValid(a: Arena, m: Mem, op: Op)
    requires Valid(a, m) && (op.HeapAlloc? || op.HeapFree? || op.Compact?)
    ensures Valid(a, Step(a, m, op))
  {
    hide Align;
    if op.HeapFree? && m.heapFrames != [] {
      TiledBounds(Front(m.heapFrames), a.heap.start, Last(m.heapFrames).addr);
    }
    if op.HeapAlloc? && Exec(a, m, op).Ok? {
      AlignedBlocks(op.size);
      assert Front(m.heapFrames + [Block(m.heapPtr, Align(op.size))]) == m.heapFrames;
    }
  }

  lemma StepKeepsValid(a: Arena, m: Mem, op: Op)
    requires Valid(a, m)
    ensures Valid(a, Step(a, m, op))
  {
    hide Valid, Step;
    if op.HeapAlloc? || op.HeapFree? || op.Compact? {
      HeapStepKeepsValid(a, m, op);
    } else {
      StackStepKeepsValid(a, m, op);
    }
  }

  /** Over every run the stack pointer and every frame stay inside the stack segment, and
      the heap blocks tile the heap up to its pointer. */
  lemma {:induction false} RunKeepsValid(a: Arena, m: Mem, ops: seq<Op>)
    requires Valid(a, m)
    ensures Valid(a, Run(a, m, ops))
    decreases |ops|
  {
    hide Valid, Step;
    if ops != [] {
      StepKeepsValid(a, m, ops[0]);
      RunKeepsValid(a, Step(a, m, ops[0]), ops[1..]);
    }
  }

  /** The block that holds an address. */
  predicate Holds(b: Block, addr: int) {
    b.addr <= addr < b.addr + b.size
  }

  /** Heap blocks that have been granted and neither freed nor compacted are disjoint, and
      between them hold every address from the start of the heap to its pointer. */
  lemma {:induction false} TilesPartition(blocks: seq<Block>, from: nat, to: nat, addr: int)
    requires Tiled(blocks, from, to)
    ensures from <= addr < to <==> exists i :: 0 <= i < |blocks| && Holds(blocks[i], addr)
    ensures forall i, j :: 0 <= i < j < |blocks| && Holds(blocks[i], addr) ==> !Holds(blocks[j], addr)
    decreases |blocks|
  {
    if blocks != [] {
      var front := Front(blocks);
      TilesPartition(front, from, Last(blocks).addr, addr);
      TiledBounds(front, from, Last(blocks).addr);
      if Holds(Last(blocks), addr) {
        assert Holds(blocks[|blocks| - 1], addr);
      }
      if from <= addr < Last(blocks).addr {
        var i :| 0 <= i < |front| && Holds(front[i], addr);
        assert Holds(blocks[i], addr);
      }
      forall i | 0 <= i < |front| && Holds(blocks[i], addr) ensures from <= addr < Last(blocks).addr {
        assert Holds(front[i], addr);
      }
    }
  }

  lemma RunPartitionsHeap(a: Arena, ops: seq<Op>, addr: int)
    requires a.stack.start <= a.stack.limit && a.heap.start <= a.heap.limit
    ensures var m := Run(a, Fresh(a), ops);
            && (a.heap.start <= addr < m.heapPtr <==>
                exists i :: 0 <= i < |m.heapFrames| && Holds(m.heapFrames[i], addr))
            && (forall i, j :: 0 <= i < j < |m.heapFrames| && Holds(m.heapFrames[i], addr) ==>
                !Holds(m.heapFrames[j], addr))
            && m.heapPtr <= a.heap.limit
  {
    hide Run;
    FreshValid(a);
    RunKeepsValid(a, Fresh(a), ops);
    var m := Run(a, Fresh(a), ops);
    TilesPartition(m.heapFrames, a.heap.start, m.heapPtr, addr);
  }

  // ---------- the stack quota

  /** Neither the stack nor any frame on record reaches below the quota. */
  predicate WithinQuota(a: Arena, m: Mem) {
    a.maxStack.Some? ==>
      && a.stack.limit - m.sp <= a.maxStack.value
      && forall i :: 0 <= i < |m.frames| ==> a.stack.limit - m.frames[i].addr <= a.maxStack.value
  }

  lemma StepKeepsQuota(a: Arena, m: Mem, op: Op)
    requires Valid(a, m) && WithinQuota(a, m)
    ensures WithinQuota(a, Step(a, m, op))
  {
  }

  lemma {:induction false} RunKeepsQuota(a: Arena, m: Mem, ops: seq<Op>)
    requires Valid(a, m) && WithinQuota(a, m)
    ensures WithinQuota(a, Run(a, m, ops))
    decreases |ops|
  {
    hide Valid, Step, WithinQuota;
    if ops != [] {
      StepKeepsValid(a, m, ops[0]);
      StepKeepsQuota(a, m, ops[0]);
      RunKeepsQuota(a, Step(a, m, ops[0]), ops[1..]);
    }
  }

  // ---------- what is granted

  /** In a valid state space is granted exactly when it is asked for properly and the rounded
      size is left in the segment, and on the stack within the quota; the heap grants the
      words from its pointer up, the stack those right below its own. */
  lemma GrantedIffLeft(a: Arena, m: Mem, words: Word, held: Word)
    requires Valid(a, m)
    ensures DoHeapAlloc(a, m, words, held).Ok?
            <==> ValidSegment(a.heap) && words >= 0 && held == 0 && m.heapPtr + Align(words) <= a.heap.limit
    ensures DoStackAlloc(a, m, words).Ok?
            <==> && ValidSegment(a.stack) && words >= 0 && a.stack.start + Align(words) <= m.sp
                 && (a.maxStack.Some? ==> a.stack.limit - m.sp + Align(words) <= a.maxStack.value)
    ensures DoPush(a, m).Ok?
            <==> m.sp > a.stack.start && (a.maxStack.Some? ==> a.stack.limit - m.sp + 1 <= a.maxStack.value)
    ensures DoHeapAlloc(a, m, words, held).Ok? ==>
              var m' := DoHeapAlloc(a, m, words, held).value;
              && m' == m.(heapPtr := m'.heapPtr, heapFrames := m.heapFrames + [Last(m'.heapFrames)])
              && forall addr :: Holds(Last(m'.heapFrames), addr) <==> m.heapPtr <= addr < m'.heapPtr
    ensures DoStackAlloc(a, m, words).Ok? ==>
              var m' := DoStackAlloc(a, m, words).value;
              && m' == m.(sp := m'.sp, frames := m.frames + [Last(m'.frames)])
              && forall addr :: Holds(Last(m'.frames), addr) <==> m'.sp <= addr < m.sp
  {
  }

  // ---------- allocation undone

  /** Freeing a heap block at once restores the heap, unless the block is empty and lies at
      the very end: then it cannot be freed. */
  lemma HeapFreeUndoesIff(a: Arena, m: Mem, words: Word, ptr: Word)
    requires Valid(a, m) && DoHeapAlloc(a, m, words, 0).Ok? && ptr == m.heapPtr
    ensures DoHeapFree(a, DoHeapAlloc(a, m, words, 0).value, ptr, words)
            == if m.heapPtr < a.heap.limit then Ok(m) else Err(DecodeFault)
  {
    var m1 := DoHeapAlloc(a, m, words, 0).value;
    assert Front(m1.heapFrames) == m.heapFrames;
  }

  /** So for stack frames, and whatever has been pushed or popped in between. */
  lemma StackFreeUndoesIff(a: Arena, m: Mem, words: Word, ptr: Word, sp: nat)
    requires Valid(a, m) && DoStackAlloc(a, m, words).Ok? && ptr == m.sp - Align(words)
    ensures DoStackFree(a, DoStackAlloc(a, m, words).value.(sp := sp), ptr, words)
            == if ptr < a.stack.limit then Ok(m) else Err(DecodeFault)
  {
    var m1 := DoStackAlloc(a, m, words).value;
    assert Front(m1.frames) == m.frames;
  }

  /** An empty block at the end of the heap stays: nothing under it can be freed until the
      next compaction. */
  lemma StuckBlock(a: Arena, m: Mem, ptr: Word, words: Word)
    requires m.heapFrames != [] && Last(m.heapFrames) == Block(a.heap.limit, 0)
    ensures DoHeapFree(a, m, ptr, words).Err?
  {
  }

  // ---------- stack frames and pops

  /** Frames lie one below the other, with the stack pointer below them all. */
  predicate Stacked(frames: seq<Block>, sp: nat, limit: nat) {
    if frames == [] then sp <= limit
    else sp <= Last(frames).addr && Stacked(Front(frames), Last(frames).addr + Last(frames).size, limit)
  }

  lemma {:induction false} StackedDisjoint(frames: seq<Block>, sp: nat, limit: nat)
    requires Stacked(frames, sp, limit)
    ensures sp <= limit && forall i :: 0 <= i < |frames| ==> sp <= frames[i].addr
    ensures forall i, j :: 0 <= i < j < |frames| ==> frames[j].addr + frames[j].size <= frames[i].addr
    decreases |frames|
  {
    if frames != [] {
      var front := Front(frames);
      StackedDisjoint(front, Last(frames).addr + Last(frames).size, limit);
      forall i, j | 0 <= i < j < |frames| ensures frames[j].addr + frames[j].size <= frames[i].addr {
        assert frames[i] == front[i];
        if j < |front| {
          assert frames[j] == front[j];
        }
      }
      forall i | 0 <= i < |frames| ensures sp <= frames[i].addr {
        if i < |front| {
          assert frames[i] == front[i];
        }
      }
    }
  }

  /** Every operation keeps the frames disjoint, except a pop that reaches into the frame on
      top: that one never does. */
  lemma StackedIff(a: Arena, m: Mem, op: Op)
    requires Valid(a, m) && Stacked(m.frames, m.sp, a.stack.limit)
    ensures var m' := Step(a, m, op);
            Stacked(m'.frames, m'.sp, a.stack.limit)
            <==> !(op.Pop? && m.frames != [] && m.sp == Last(m.frames).addr && m.sp < a.stack.limit)
  {
    StackedDisjoint(m.frames, m.sp, a.stack.limit);
    if op.StackAlloc? && Exec(a, m, op).Ok? {
      assert Front(m.frames + [Block(m.sp - Align(op.size), Align(op.size))]) == m.frames;
    }
    if op.StackFree? && Exec(a, m, op).Ok? {
      StackedDisjoint(Front(m.frames), Last(m.frames).addr + Last(m.frames).size, a.stack.limit);
      Lower(Front(m.frames), Last(m.frames).addr + Last(m.frames).size, a.stack.limit);
    }
  }

  lemma Lower(frames: seq<Block>, sp: nat, limit: nat)
    requires Stacked(frames, sp, limit)
    ensures forall lower: nat :: lower <= sp ==> Stacked(frames, lower, limit)
  {
  }

  function Pops(n: nat): seq<Op> {
    seq(n, _ => Pop)
  }

  lemma {:induction false} RunPops(a: Arena, m: Mem, n: nat)
    requires m.sp + n <= a.stack.limit
    ensures Run(a, m, Pops(n)) == m.(sp := m.sp + n)
    decreases n
  {
    if n > 0 {
      assert Pops(n)[1..] == Pops(n - 1);
      RunPops(a, m.(sp := m.sp + 1), n - 1);
    }
  }

  /** The frame first granted on any stack, popped word by word, is granted a second time
      while it is still on record. */
  lemma PoppedFrameIsGrantedAgain(a: Arena, words: Word)
    requires Exec(a, Fresh(a), StackAlloc(words)).Ok?
    ensures words >= 0
    ensures var m1 := Step(a, Fresh(a), StackAlloc(words));
            var m2 := Run(a, m1, Pops(Align(words)));
            && |m1.frames| == 1 && m2.frames == m1.frames
            && Step(a, m2, StackAlloc(words)).frames == m1.frames + m1.frames
  {
    RunPops(a, Step(a, Fresh(a), StackAlloc(words)), Align(words));
  }

  // ---------- the allocator as it runs

  class Segments {
    const arena: Arena
    var sp: nat
    var frames: seq<Block>
    var heapPtr: nat
    var heapFrames: seq<Block>

    function State(): Mem
      reads this
    {
      Mem(sp, frames, heapPtr, heapFrames)
    }

    ghost predicate Consistent()
      reads this
    {
      Valid(arena, State())
    }

    constructor (a: Arena)
      requires a.stack.start <= a.stack.limit && a.heap.start <= a.heap.limit
      ensures arena == a && State() == Fresh(a) && Consistent()
    {
      arena := a;
      sp, frames := a.stack.limit, [];
      heapPtr, heapFrames := a.heap.start, [];
    }

    /** `push_stack_word`, without the word. */
    method PushWord() returns (fault: Option<Fault>)
      requires Consistent()
      modifies `sp
      ensures Consistent() && State() == Step(arena, old(State()), Push)
      ensures fault.None? <==> Exec(arena, old(State()), Push).Ok?
    {
      if sp <= arena.stack.start {
        return Some(StackFault);
      }
      var newSp := sp - 1;
      if OverQuota(arena, arena.stack.limit - newSp) {
        return Some(StackFault);
      }
      sp := newSp;
      fault := None;
    }

    /** `pop_stack_word`, without the word. */
    method PopWord() returns (fault: Option<Fault>)
      requires Consistent()
      modifies `sp
      ensures Consistent() && State() == Step(arena, old(State()), Pop)
      ensures fault.None? <==> Exec(arena, old(State()), Pop).Ok?
    {
      if sp >= arena.stack.limit {
        return Some(StackFault);
      }
      sp := sp + 1;
      fault := None;
    }

    method AllocateFrame(words: Word) returns (r: Result<nat, Fault>)
      requires Consistent()
      modifies `sp, `frames
      ensures Consistent() && State() == Step(arena, old(State()), StackAlloc(words))
      ensures match Exec(arena, old(State()), StackAlloc(words))
              case Ok(m) => r == Ok(m.sp)
              case Err(f) => r == Err(f)
    {
      StepKeepsValid(arena, State(), StackAlloc(words));
      if words < 0 || !ValidSegment(arena.stack) {
        return Err(DecodeFault);
      }
      var size := Align(words);
      if size > sp - arena.stack.start {
        return Err(StackFault);
      }
      var newSp := sp - size;
      if OverQuota(arena, arena.stack.limit - newSp) {
        return Err(StackFault);
      }
      frames := frames + [Block(newSp, size)];
      sp := newSp;
      r := Ok(newSp);
    }

    method FreeFrame(ptr: Word, words: Word) returns (fault: Option<Fault>)
      requires Consistent()
      modifies `sp, `frames
      ensures Consistent() && State() == Step(arena, old(State()), StackFree(ptr, words))
      ensures fault == match Exec(arena, old(State()), StackFree(ptr, words)) case Ok(_) => None case Err(f) => Some(f)
    {
      StepKeepsValid(arena, State(), StackFree(ptr, words));
      if words < 0 {
        return Some(DecodeFault);
      }
      var size := Align(words);
      if !ValidSegment(arena.stack) || frames == [] {
        return Some(StackFault);
      }
      if !arena.stack.Contains(ptr) {
        return Some(DecodeFault);
      }
      var expected := frames[|frames| - 1];
      if expected.addr != ptr || expected.size != size {
        return Some(StackFault);
      }
      frames := frames[..|frames| - 1];
      sp := ptr + size;
      fault := None;
    }

    method AllocateBlock(words: Word, held: Word) returns (r: Result<nat, Fault>)
      requires Consistent()
      modifies `heapPtr, `heapFrames
      ensures Consistent() && State() == Step(arena, old(State()), HeapAlloc(words, held))
      ensures match Exec(arena, old(State()), HeapAlloc(words, held))
              case Ok(_) => r == Ok(old(heapPtr))
              case Err(f) => r == Err(f)
    {
      StepKeepsValid(arena, State(), HeapAlloc(words, held));
      if !ValidSegment(arena.heap) || words < 0 {
        return Err(DecodeFault);
      }
      var size := Align(words);
      if size > arena.heap.limit - arena.heap.start {
        return Err(BoundsFault);
      }
      var addr := heapPtr;
      if addr < arena.heap.start || addr + size > arena.heap.limit {
        return Err(BoundsFault);
      }
      if held != 0 {
        return Err(DecodeFault);
      }
      heapFrames := heapFrames + [Block(addr, size)];
      heapPtr := addr + size;
      r := Ok(addr);
    }

    method FreeBlock(ptr: Word, words: Word) returns (fault: Option<Fault>)
      requires Consistent()
      modifies `heapPtr, `heapFrames
      ensures Consistent() && State() == Step(arena, old(State()), HeapFree(ptr, words))
      ensures fault == match Exec(arena, old(State()), HeapFree(ptr, words)) case Ok(_) => None case Err(f) => Some(f)
    {
      StepKeepsValid(arena, State(), HeapFree(ptr, words));
      if !ValidSegment(arena.heap) {
        return Some(BoundsFault);
      }
      if words < 0 {
        return Some(DecodeFault);
      }
      if heapFrames == [] {
        return Some(BoundsFault);
      }
      var size := Align(words);
      if !arena.heap.Contains(ptr) {
        return Some(DecodeFault);
      }
      var expected := heapFrames[|heapFrames| - 1];
      if expected.addr != ptr || expected.size != size {
        return Some(DecodeFault);
      }
      heapFrames := heapFrames[..|heapFrames| - 1];
      heapPtr := ptr;
      fault := None;
    }

    /** `compact_heap`, to the start of the segment. */
    method CompactHeap()
      requires Consistent()
      modifies `heapPtr, `heapFrames
      ensures Consistent() && State() == Step(arena, old(State()), Compact)
    {
      StepKeepsValid(arena, State(), Compact);
      heapFrames := [];
      heapPtr := arena.heap.start;
    }
  }
}
