/** Whole runs of an arena and its boxes: separation of live values, lifetimes and destructors. */
module ArenaRuns {
  import opened Common
  import opened ArenaSpec

  type Bytes = seq<Byte>

  /** A value stored by `alloc`; `id` counts allocations and stands for the value whose destructor is kept. */
  datatype Element = Element(value: nat, id: nat)

  /** The arena, the memory its chunks live in, and the log of destructors run so far. */
  datatype Core = Core(
    arena: ArenaState,
    memory: map<nat, Byte>,
    elements: seq<Element>,
    generation: nat,
    dropped: seq<nat>,
    nextId: nat)

  /** A box handed out by `alloc`, possibly narrowed by `map`: it dies with its generation. */
  datatype BoxState = BoxState(ptr: nat, size: nat, generation: nat)

  /** `contents[i]` is what box `i` was last given: the value the program expects to read back. */
  datatype System = System(core: Core, boxes: seq<BoxState>, blocks: seq<Block>, contents: seq<Bytes>)

  /** Where an allocation landed. */
  datatype Block = Block(ptr: nat, layout: Layout, chunk: nat, generation: nat)

  // ---------------------------------------------------------------- memory

  function Written(memory: map<nat, Byte>, ptr: nat, bytes: Bytes): (r: map<nat, Byte>)
    decreases |bytes|
  {
    if bytes == [] then memory else Written(memory[ptr := bytes[0]], ptr + 1, bytes[1..])
  }

  function Peek(memory: map<nat, Byte>, a: nat): Byte {
    if a in memory then memory[a] else 0
  }

  function ReadBytes(memory: map<nat, Byte>, ptr: nat, size: nat): Bytes {
    seq<Byte>(size, i requires 0 <= i => Peek(memory, ptr + i))
  }

  lemma {:induction false} WrittenAt(memory: map<nat, Byte>, ptr: nat, bytes: Bytes, a: nat)
    ensures Peek(Written(memory, ptr, bytes), a) == if ptr <= a < ptr + |bytes| then bytes[a - ptr] else Peek(memory, a)
    decreases |bytes|
  {
    if bytes != [] {
      WrittenAt(memory[ptr := bytes[0]], ptr + 1, bytes[1..], a);
    }
  }

  lemma ReadBack(memory: map<nat, Byte>, ptr: nat, bytes: Bytes)
    ensures ReadBytes(Written(memory, ptr, bytes), ptr, |bytes|) == bytes
  {
    forall i | 0 <= i < |bytes|
      ensures ReadBytes(Written(memory, ptr, bytes), ptr, |bytes|)[i] == bytes[i]
    {
      WrittenAt(memory, ptr, bytes, ptr + i);
    }
  }

  lemma ReadElsewhere(memory: map<nat, Byte>, ptr: nat, bytes: Bytes, other: nat, size: nat)
    requires DisjointRanges(ptr, |bytes|, other, size)
    ensures ReadBytes(Written(memory, ptr, bytes), other, size) == ReadBytes(memory, other, size)
  {
    forall i | 0 <= i < size
      ensures ReadBytes(Written(memory, ptr, bytes), other, size)[i] == ReadBytes(memory, other, size)[i]
    {
      WrittenAt(memory, ptr, bytes, other + i);
    }
  }

  // ---------------------------------------------------------------- operations

  datatype Op =
    | OpAlloc(layout: Layout, bytes: Bytes, freshStart: nat)
    | OpWrite(box: nat, bytes: Bytes)
    | OpMap(box: nat, skip: nat, size: nat)
    | OpClear

  function CoreAlloc(c: Core, l: Layout, bytes: Bytes, freshStart: nat): (r: (Core, Option<nat>))
    requires c.arena.current < |c.arena.chunks|
  {
    var (arena, ptr) := Alloc(c.arena, l, freshStart);
    match ptr
    case None => (c.(arena := arena), None)
    case Some(p) =>
      (c.(arena := arena, memory := Written(c.memory, p, bytes),
          elements := c.elements + [Element(p, c.nextId)], nextId := c.nextId + 1),
       ptr)
  }

  function Ids(elements: seq<Element>): (r: seq<nat>)
    ensures |r| == |elements|
  {
    seq(|elements|, i requires 0 <= i < |elements| => elements[i].id)
  }

  /** `Arena::clear`: every stored value is dropped, in the order of allocation. */
  function CoreClear(c: Core): Core {
    Core(Clear(c.arena), c.memory, [], c.generation + 1, c.dropped + Ids(c.elements), c.nextId)
  }

  /** `ArenaBox::validate` */
  predicate Validates(s: System, box: nat)
    requires box < |s.boxes|
  {
    s.boxes[box].generation == s.core.generation
  }

  /** A dereference: the bytes, or the panic of `validate`. */
  function Deref(s: System, box: nat): Option<Bytes>
    requires box < |s.boxes|
  {
    if Validates(s, box) then Some(ReadBytes(s.core.memory, s.boxes[box].ptr, s.boxes[box].size)) else None
  }

  /** What the program must respect: values have their type's size, sub-objects lie inside, regions are fresh. */
  ghost predicate Legal(s: System, op: Op) {
    match op
    case OpAlloc(l, bytes, start) => |bytes| == l.size && FreshRegion(s.core.arena, start)
    case OpWrite(b, bytes) => b < |s.boxes| && |bytes| == s.boxes[b].size
    case OpMap(b, skip, size) => b < |s.boxes| && skip + size <= s.boxes[b].size
    case OpClear => true
  }

  /** A step; a dereference of a dead box panics and changes nothing. */
  function Step(s: System, op: Op): System
    requires s.core.arena.current < |s.core.arena.chunks| && |s.contents| == |s.boxes|
    requires op.OpWrite? || op.OpMap? ==> op.box < |s.boxes|
    requires op.OpMap? ==> op.skip + op.size <= |s.contents[op.box]|
  {
    match op
    case OpAlloc(l, bytes, start) =>
      var (core, ptr) := CoreAlloc(s.core, l, bytes, start);
      if ptr.None? then s.(core := core)
      else
        System(core,
               s.boxes + [BoxState(ptr.value, l.size, s.core.generation)],
               s.blocks + [Block(ptr.value, l, core.arena.current, s.core.generation)],
               s.contents + [bytes])
    case OpWrite(b, bytes) =>
      if !Validates(s, b) then s
      else s.(core := s.core.(memory := Written(s.core.memory, s.boxes[b].ptr, bytes)), contents := s.contents[b := bytes])
    case OpMap(b, skip, size) =>
      if !Validates(s, b) then s
      else s.(boxes := s.boxes[b := s.boxes[b].(ptr := s.boxes[b].ptr + skip, size := size)],
              contents := s.contents[b := s.contents[b][skip..skip + size]])
    case OpClear => s.(core := CoreClear(s.core))
  }

  // ---------------------------------------------------------------- the invariant

  ghost predicate LiveBlock(s: System, i: nat)
    requires i < |s.blocks|
  {
    s.blocks[i].generation == s.core.generation
  }

  /** A block lives until its destructor runs; till then it is aligned and lies in the used part of a chunk in use. */
  ghost predicate BlockPlaced(s: System, i: nat)
    requires i < |s.blocks|
  {
    var b, a := s.blocks[i], s.core.arena;
    && b.generation <= s.core.generation
    && (LiveBlock(s, i) <==> i >= |s.core.dropped|)
    && (LiveBlock(s, i) ==>
          && b.ptr % b.layout.align == 0
          && b.chunk <= a.current && b.chunk < |a.chunks|
          && a.chunks[b.chunk].start <= b.ptr
          && b.ptr + b.layout.size <= a.chunks[b.chunk].offset)
  }

  /** A box stays inside its block, of the same generation, and holds its contents while it lives. */
  ghost predicate BoxHolds(s: System, i: nat)
    requires i < |s.blocks| == |s.boxes| == |s.contents|
  {
    var x, b := s.boxes[i], s.blocks[i];
    && x.generation == b.generation
    && b.ptr <= x.ptr && x.ptr + x.size <= b.ptr + b.layout.size
    && |s.contents[i]| == x.size
    && (Validates(s, i) ==> ReadBytes(s.core.memory, x.ptr, x.size) == s.contents[i])
  }

  ghost predicate Separate(s: System, i: nat, j: nat)
    requires i < |s.blocks| && j < |s.blocks|
  {
    LiveBlock(s, i) && LiveBlock(s, j) ==>
      DisjointRanges(s.blocks[i].ptr, s.blocks[i].layout.size, s.blocks[j].ptr, s.blocks[j].layout.size)
  }

  /** Destructors already run, then those still due, name every allocation exactly once, in order. */
  ghost predicate DropsOnce(c: Core) {
    c.dropped + Ids(c.elements) == seq(c.nextId, i => i)
  }

  lemma StoredOnce(elements: seq<Element>, dropped: seq<nat>, nextId: nat, ptr: nat)
    requires dropped + Ids(elements) == seq(nextId, i => i)
    ensures dropped + Ids(elements + [Element(ptr, nextId)]) == seq(nextId + 1, i => i)
  {
    assert Ids(elements + [Element(ptr, nextId)]) == Ids(elements) + [nextId];
    assert dropped + (Ids(elements) + [nextId]) == (dropped + Ids(elements)) + [nextId];
  }

  ghost predicate Inv(s: System) {
    && WellFormed(s.core.arena)
    && |s.boxes| == |s.blocks| == |s.contents| == s.core.nextId
    && (forall i :: 0 <= i < |s.blocks| ==> BlockPlaced(s, i))
    && (forall i :: 0 <= i < |s.blocks| ==> BoxHolds(s, i))
    && (forall i, j :: 0 <= i < j < |s.blocks| ==> Separate(s, i, j))
    && DropsOnce(s.core)
  }

  function Initial(size: nat, start: nat, memory: map<nat, Byte>): System {
    System(Core(NewArena(size, start), memory, [], 0, [], 0), [], [], [])
  }

  lemma InitialInv(size: nat, start: nat, memory: map<nat, Byte>)
    requires size > 0 && start > 0
    ensures Inv(Initial(size, start, memory))
  {
    NewIsWellFormed(size, start);
  }

  /** A new block starts where its chunk's free part started, so it misses every live block. */
  lemma NewBlockIsSeparate(s: System, l: Layout, freshStart: nat, i: nat)
    requires Inv(s) && FreshRegion(s.core.arena, freshStart) && i < |s.blocks| && LiveBlock(s, i)
    requires Alloc(s.core.arena, l, freshStart).1.Some?
    ensures DisjointRanges(s.blocks[i].ptr, s.blocks[i].layout.size, Alloc(s.core.arena, l, freshStart).1.value, l.size)
  {
    var a := s.core.arena;
    var (a', ptr) := Alloc(a, l, freshStart);
    var b := s.blocks[i];
    assert BlockPlaced(s, i);
    AllocKeepsWellFormed(a, l, freshStart);
    AllocReturnsFreeBlock(a, l, freshStart);
    assert ChunkOk(a', a'.current) && ChunkOk(a, b.chunk) && ChunkOk(a', b.chunk);
    if b.chunk != a'.current {
      assert DisjointRanges(a'.chunks[b.chunk].start, a'.size, a'.chunks[a'.current].start, a'.size);
    }
  }

  lemma AllocKeepsBoxes(s: System, l: Layout, bytes: Bytes, freshStart: nat, i: nat)
    requires Inv(s) && Legal(s, OpAlloc(l, bytes, freshStart)) && i < |s.blocks|
    ensures var s' := Step(s, OpAlloc(l, bytes, freshStart));
      && |s'.boxes| == |s'.blocks| == |s'.contents| >= |s.boxes|
      && BlockPlaced(s', i) && BoxHolds(s', i)
  {
    var s' := Step(s, OpAlloc(l, bytes, freshStart));
    assert BlockPlaced(s, i) && BoxHolds(s, i);
    AllocKeepsWellFormed(s.core.arena, l, freshStart);
    var ptr := Alloc(s.core.arena, l, freshStart).1;
    if ptr.Some? && LiveBlock(s, i) {
      NewBlockIsSeparate(s, l, freshStart, i);
      ReadElsewhere(s.core.memory, ptr.value, bytes, s.boxes[i].ptr, s.boxes[i].size);
    }
  }

  lemma AllocKeepsInv(s: System, l: Layout, bytes: Bytes, freshStart: nat)
    requires Inv(s) && Legal(s, OpAlloc(l, bytes, freshStart))
    ensures Inv(Step(s, OpAlloc(l, bytes, freshStart)))
  {
    var s' := Step(s, OpAlloc(l, bytes, freshStart));
    var n := |s.blocks|;
    var ptr := Alloc(s.core.arena, l, freshStart).1;
    AllocKeepsWellFormed(s.core.arena, l, freshStart);
    AllocReturnsFreeBlock(s.core.arena, l, freshStart);
    forall i | 0 <= i < |s'.blocks|
      ensures BlockPlaced(s', i) && BoxHolds(s', i)
    {
      if i < n {
        AllocKeepsBoxes(s, l, bytes, freshStart, i);
      } else {
        ReadBack(s.core.memory, ptr.value, bytes);
      }
    }
    forall i, j | 0 <= i < j < |s'.blocks|
      ensures Separate(s', i, j)
    {
      if j < n {
        assert Separate(s, i, j);
      } else if LiveBlock(s, i) {
        NewBlockIsSeparate(s, l, freshStart, i);
      }
    }
    if ptr.Some? {
      StoredOnce(s.core.elements, s.core.dropped, s.core.nextId, ptr.value);
      DroppedAt(s.core);
    }
  }

  lemma WriteKeepsInv(s: System, b: nat, bytes: Bytes)
    requires Inv(s) && Legal(s, OpWrite(b, bytes))
    ensures Inv(Step(s, OpWrite(b, bytes)))
  {
    var s' := Step(s, OpWrite(b, bytes));
    assert BoxHolds(s, b);
    forall i | 0 <= i < |s'.blocks|
      ensures BlockPlaced(s', i) && BoxHolds(s', i)
    {
      assert BlockPlaced(s, i) && BoxHolds(s, i);
      if Validates(s, b) && Validates(s, i) {
        if i == b {
          ReadBack(s.core.memory, s.boxes[b].ptr, bytes);
        } else {
          assert if i < b then Separate(s, i, b) else Separate(s, b, i);
          ReadElsewhere(s.core.memory, s.boxes[b].ptr, bytes, s.boxes[i].ptr, s.boxes[i].size);
        }
      }
    }
    forall i, j | 0 <= i < j < |s'.blocks|
      ensures Separate(s', i, j)
    {
      assert Separate(s, i, j);
    }
  }

  lemma MapKeepsInv(s: System, b: nat, skip: nat, size: nat)
    requires Inv(s) && Legal(s, OpMap(b, skip, size))
    ensures BoxHolds(s, b) && Inv(Step(s, OpMap(b, skip, size)))
  {
    assert BoxHolds(s, b);
    var s' := Step(s, OpMap(b, skip, size));
    forall i | 0 <= i < |s'.blocks|
      ensures BlockPlaced(s', i) && BoxHolds(s', i)
    {
      assert BlockPlaced(s, i) && BoxHolds(s, i);
      if i == b && Validates(s, b) {
        var x := s.boxes[b];
        assert ReadBytes(s.core.memory, x.ptr + skip, size) == ReadBytes(s.core.memory, x.ptr, x.size)[skip..skip + size];
      }
    }
    forall i, j | 0 <= i < j < |s'.blocks|
      ensures Separate(s', i, j)
    {
      assert Separate(s, i, j);
    }
  }

  lemma ClearKeepsInv(s: System)
    requires Inv(s)
    ensures Inv(Step(s, OpClear))
  {
    var s' := Step(s, OpClear);
    ClearEmpties(s.core.arena);
    forall i | 0 <= i < |s'.blocks|
      ensures BlockPlaced(s', i) && BoxHolds(s', i)
    {
      assert BlockPlaced(s, i) && BoxHolds(s, i);
    }
    forall i, j | 0 <= i < j < |s'.blocks|
      ensures Separate(s', i, j)
    {
      assert BlockPlaced(s, i);
    }
    assert s'.core.dropped + Ids(s'.core.elements) == s.core.dropped + Ids(s.core.elements);
    DroppedAt(s'.core);
  }

  /** Every legal step, panics included, keeps the invariant. */
  lemma StepKeepsInv(s: System, op: Op)
    requires Inv(s) && Legal(s, op)
    ensures op.OpMap? ==> op.skip + op.size <= |s.contents[op.box]|
    ensures Inv(Step(s, op))
  {
    match op
    case OpAlloc(l, bytes, start) => AllocKeepsInv(s, l, bytes, start);
    case OpWrite(b, bytes) => WriteKeepsInv(s, b, bytes);
    case OpMap(b, skip, size) => MapKeepsInv(s, b, skip, size);
    case OpClear => ClearKeepsInv(s);
  }

  // ---------------------------------------------------------------- what each step lets boxes read

  /** Boxes other than `except` read after a step what they read before it. */
  ghost predicate SameReads(s: System, s': System, except: int) {
    && |s.boxes| <= |s'.boxes|
    && forall i :: 0 <= i < |s.boxes| && i != except ==> Deref(s', i) == Deref(s, i)
  }

  /** If the step keeps the contents of the other boxes, and their validity, it keeps what they read. */
  lemma ReadsFollowContents(s: System, s': System, except: int)
    requires Inv(s) && Inv(s') && |s.boxes| <= |s'.boxes|
    requires forall i :: 0 <= i < |s.boxes| && i != except ==>
               s'.contents[i] == s.contents[i] && (Validates(s', i) <==> Validates(s, i))
    ensures SameReads(s, s', except)
  {
    forall i | 0 <= i < |s.boxes| && i != except
      ensures Deref(s', i) == Deref(s, i)
    {
      assert BoxHolds(s, i) && BoxHolds(s', i);
    }
  }

  /** A write through a valid box is read back through it, and nothing else is read differently; else it panics. */
  lemma WriteThenDeref(s: System, b: nat, bytes: Bytes, s': System)
    requires Inv(s) && Legal(s, OpWrite(b, bytes)) && s' == Step(s, OpWrite(b, bytes))
    ensures |s'.boxes| == |s.boxes| && SameReads(s, s', b)
    ensures Deref(s', b) == if Validates(s, b) then Some(bytes) else None
    ensures !Validates(s, b) ==> s' == s
  {
    WriteKeepsInv(s, b, bytes);
    assert BoxHolds(s', b);
    ReadsFollowContents(s, s', b);
  }

  /** A valid box narrowed by a map reads that part of what it read, and nothing else is read differently. */
  lemma MapThenDeref(s: System, b: nat, skip: nat, size: nat, s': System)
    requires Inv(s) && StepsTo(s, OpMap(b, skip, size), s')
    ensures |s'.boxes| == |s.boxes| && SameReads(s, s', b)
    ensures Deref(s', b) == if Validates(s, b) then Some(Deref(s, b).value[skip..skip + size]) else None
    ensures s'.core == s.core && (!Validates(s, b) ==> s' == s)
  {
    MapKeepsInv(s, b, skip, size);
    assert BoxHolds(s, b) && BoxHolds(s', b);
    ReadsFollowContents(s, s', b);
  }

  /** A successful allocation adds a box that reads the value stored; nothing that was there is read differently. */
  lemma AllocThenDeref(s: System, l: Layout, bytes: Bytes, freshStart: nat, s': System)
    requires Inv(s) && Legal(s, OpAlloc(l, bytes, freshStart)) && s' == Step(s, OpAlloc(l, bytes, freshStart))
    ensures SameReads(s, s', -1) && s'.core.arena == Alloc(s.core.arena, l, freshStart).0
    ensures var n := |s.boxes|;
      if Alloc(s.core.arena, l, freshStart).1.Some? then |s'.boxes| == n + 1 && Deref(s', n) == Some(bytes)
      else |s'.boxes| == n && s'.core.memory == s.core.memory
  {
    AllocKeepsInv(s, l, bytes, freshStart);
    if Alloc(s.core.arena, l, freshStart).1.Some? {
      assert BoxHolds(s', |s.boxes|);
    }
    ReadsFollowContents(s, s', -1);
  }

  /** After a clear no box can be read. */
  lemma ClearThenDeref(s: System, s': System)
    requires Inv(s) && s' == Step(s, OpClear)
    ensures |s'.boxes| == |s.boxes| && forall i :: 0 <= i < |s.boxes| ==> Deref(s', i) == None
  {
    forall i | 0 <= i < |s.boxes|
      ensures Deref(s', i) == None
    {
      assert BlockPlaced(s, i) && BoxHolds(s, i);
    }
  }

  // ---------------------------------------------------------------- whole runs

  /** A run, as the states passed: each follows from the one before by a legal operation. */
  ghost predicate IsRun(states: seq<System>, ops: seq<Op>) {
    && |states| == |ops| + 1
    && Inv(states[0])
    && forall k :: 0 <= k < |ops| ==> StepsTo(states[k], ops[k], states[k + 1])
  }

  ghost predicate StepsTo(s: System, op: Op, s': System) {
    && s.core.arena.current < |s.core.arena.chunks| && |s.contents| == |s.boxes|
    && Legal(s, op)
    && (op.OpMap? ==> op.skip + op.size <= |s.contents[op.box]|)
    && s' == Step(s, op)
  }

  lemma {:induction false} RunKeepsInv(states: seq<System>, ops: seq<Op>, k: nat)
    requires IsRun(states, ops) && k <= |ops|
    ensures Inv(states[k])
  {
    if k > 0 {
      RunKeepsInv(states, ops, k - 1);
      assert StepsTo(states[k - 1], ops[k - 1], states[k]);
      StepKeepsInv(states[k - 1], ops[k - 1]);
    }
  }

  ghost predicate AlignedInChunk(a: ArenaState, b: Block) {
    && b.ptr % b.layout.align == 0
    && b.chunk < |a.chunks|
    && a.chunks[b.chunk].start <= b.ptr && b.ptr + b.layout.size <= a.chunks[b.chunk].start + a.size
  }

  /** Live allocations are aligned, lie inside one chunk and never overlap, at every point of every run. */
  lemma LiveBlocksAreSeparate(states: seq<System>, ops: seq<Op>, k: nat)
    requires IsRun(states, ops) && k <= |ops|
    ensures forall i :: 0 <= i < |states[k].blocks| && LiveBlock(states[k], i) ==>
              AlignedInChunk(states[k].core.arena, states[k].blocks[i])
    ensures forall i, j :: 0 <= i < j < |states[k].blocks| ==> Separate(states[k], i, j)
  {
    RunKeepsInv(states, ops, k);
    forall i | 0 <= i < |states[k].blocks| && LiveBlock(states[k], i)
      ensures AlignedInChunk(states[k].core.arena, states[k].blocks[i])
    {
      assert BlockPlaced(states[k], i);
      assert ChunkOk(states[k].core.arena, states[k].blocks[i].chunk);
    }
  }

  /** At every point a valid box reads its recorded contents, and a dead one panics. */
  lemma DerefReturnsContents(states: seq<System>, ops: seq<Op>, k: nat, i: nat)
    requires IsRun(states, ops) && k <= |ops| && i < |states[k].boxes|
    ensures i < |states[k].contents|
    ensures Deref(states[k], i) == if Validates(states[k], i) then Some(states[k].contents[i]) else None
  {
    RunKeepsInv(states, ops, k);
    assert BoxHolds(states[k], i);
  }

  /** Only a write or a map through box `i` itself changes what box `i` holds. */
  lemma {:induction false} OthersLeaveContents(states: seq<System>, ops: seq<Op>, first: nat, end: nat, i: nat)
    requires IsRun(states, ops) && first <= end <= |ops| && i < |states[first].boxes|
    requires forall k :: first <= k < end ==> !Through(ops[k], i)
    ensures i < |states[end].boxes| && |states[first].contents| == |states[first].boxes| && |states[end].contents| == |states[end].boxes|
    ensures states[end].boxes[i] == states[first].boxes[i] && states[end].contents[i] == states[first].contents[i]
    decreases end
  {
    RunKeepsInv(states, ops, end);
    if first < end {
      OthersLeaveContents(states, ops, first, end - 1, i);
      assert StepsTo(states[end - 1], ops[end - 1], states[end]);
    }
  }

  predicate Through(op: Op, b: nat) {
    (op.OpWrite? || op.OpMap?) && op.box == b
  }

  /** While nothing is written or mapped through it, a box that is still valid reads what it read. */
  lemma DerefUnchanged(states: seq<System>, ops: seq<Op>, first: nat, end: nat, b: nat)
    requires IsRun(states, ops) && first <= end <= |ops| && b < |states[first].boxes|
    requires forall k :: first <= k < end ==> !Through(ops[k], b)
    ensures b < |states[end].boxes|
    ensures Validates(states[end], b) && Validates(states[first], b) ==> Deref(states[end], b) == Deref(states[first], b)
  {
    OthersLeaveContents(states, ops, first, end, b);
    DerefReturnsContents(states, ops, first, b);
    DerefReturnsContents(states, ops, end, b);
  }

  /** A box that is still valid reads the bytes of the last write through it, whatever ran since. */
  lemma DerefReturnsLastWritten(states: seq<System>, ops: seq<Op>, k: nat, end: nat, b: nat)
    requires IsRun(states, ops) && k < end <= |ops| && b < |states[k].boxes| && Validates(states[k], b)
    requires ops[k].OpWrite? && ops[k].box == b && forall j :: k < j < end ==> !Through(ops[j], b)
    ensures b < |states[end].boxes|
    ensures Deref(states[end], b) == if Validates(states[end], b) then Some(ops[k].bytes) else None
  {
    RunKeepsInv(states, ops, k);
    assert StepsTo(states[k], ops[k], states[k + 1]);
    WriteThenDeref(states[k], b, ops[k].bytes, states[k + 1]);
    DerefUnchanged(states, ops, k + 1, end, b);
  }

  /** A box that is still valid and was never written or mapped reads the value it was allocated with. */
  lemma DerefReturnsAllocated(states: seq<System>, ops: seq<Op>, k: nat, end: nat, b: nat)
    requires IsRun(states, ops) && k < end <= |ops| && b == |states[k].boxes| < |states[k + 1].boxes|
    requires ops[k].OpAlloc? && forall j :: k < j < end ==> !Through(ops[j], b)
    ensures b < |states[end].boxes|
    ensures Deref(states[end], b) == if Validates(states[end], b) then Some(ops[k].bytes) else None
  {
    RunKeepsInv(states, ops, k);
    assert StepsTo(states[k], ops[k], states[k + 1]);
    AllocThenDeref(states[k], ops[k].layout, ops[k].bytes, ops[k].freshStart, states[k + 1]);
    DerefUnchanged(states, ops, k + 1, end, b);
  }

  /** A box validates exactly until the first clear after its allocation. */
  lemma {:induction false} ValidUntilCleared(states: seq<System>, ops: seq<Op>, first: nat, end: nat, i: nat)
    requires IsRun(states, ops) && first <= end <= |ops|
    requires i < |states[first].boxes| && Validates(states[first], i)
    ensures i < |states[end].boxes|
    ensures Validates(states[end], i) <==> forall k :: first <= k < end ==> ops[k] != OpClear
    ensures states[end].boxes[i].generation == states[first].boxes[i].generation <= states[end].core.generation
    decreases end
  {
    if first < end {
      ValidUntilCleared(states, ops, first, end - 1, i);
      assert StepsTo(states[end - 1], ops[end - 1], states[end]);
      RunKeepsInv(states, ops, end - 1);
    }
  }

  /** Destructors run in order of allocation, none twice. */
  lemma DestructorsRunOnce(states: seq<System>, ops: seq<Op>, k: nat)
    requires IsRun(states, ops) && k <= |ops|
    ensures states[k].core.dropped <= seq(states[k].core.nextId, i => i)
    ensures forall i, j :: 0 <= i < j < |states[k].core.dropped| ==> states[k].core.dropped[i] < states[k].core.dropped[j]
  {
    RunKeepsInv(states, ops, k);
    DroppedAt(states[k].core);
  }

  lemma DroppedAt(c: Core)
    requires DropsOnce(c)
    ensures |c.dropped| + |c.elements| == c.nextId
    ensures forall i :: 0 <= i < |c.dropped| ==> c.dropped[i] == i
    ensures forall i :: 0 <= i < |c.elements| ==> c.elements[i].id == |c.dropped| + i
  {
    var all := seq(c.nextId, i => i);
    var both := c.dropped + Ids(c.elements);
    assert |both| == |all|;
    assert forall i :: 0 <= i < |c.dropped| ==> c.dropped[i] == both[i] == all[i];
    assert forall i :: 0 <= i < |c.elements| ==> c.elements[i].id == both[|c.dropped| + i] == all[|c.dropped| + i];
  }

  /** What the validity cell is for: a box validates exactly while the destructor of its value has not run. */
  lemma ValidExactlyUntilDestroyed(states: seq<System>, ops: seq<Op>, k: nat, i: nat)
    requires IsRun(states, ops) && k <= |ops| && i < |states[k].boxes|
    ensures Validates(states[k], i) <==> i !in states[k].core.dropped
    ensures Validates(states[k], i) <==> exists e :: e in states[k].core.elements && e.id == i
  {
    var c := states[k].core;
    RunKeepsInv(states, ops, k);
    assert BlockPlaced(states[k], i) && BoxHolds(states[k], i);
    DroppedAt(c);
    if i < |c.dropped| {
      assert c.dropped[i] == i;
    } else {
      assert c.elements[i - |c.dropped|].id == i;
    }
  }

  /** Dropping the arena clears it, after which every value ever stored has been destroyed exactly once. */
  lemma DropDestroysEverything(states: seq<System>, ops: seq<Op>)
    requires IsRun(states, ops)
    ensures var last := states[|ops|].core; CoreClear(last).dropped == seq(last.nextId, i => i)
  {
    RunKeepsInv(states, ops, |ops|);
  }
}
