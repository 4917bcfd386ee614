/** The mutable arena of `arena.rs`: chunks, shared validity cells and boxes. */
module Arenas {
  import opened Common
  import opened ArenaSpec
  import opened ArenaRuns

  /** The bytes the raw pointers point into. */
  class Memory {
    var bytes: map<nat, Byte>

    constructor ()
    {
      bytes := map[];
    }
  }

  /** `Rc<Cell<bool>>`: one per generation, shared by the arena and its boxes. */
  class ValidCell {
    var value: bool

    constructor (v: bool)
      ensures value == v
    {
      value := v;
    }
  }

  class Chunk {
    const start: nat
    const end: nat
    var offset: nat

    ghost function State(): ChunkState
      reads this
    {
      ChunkState(start, offset)
    }

    /** `base` is the address the system allocator returns. */
    constructor (chunkSize: nat, base: nat)
      ensures start == offset == base && end == base + chunkSize
    {
      start, end, offset := base, base + chunkSize, base;
    }

    method Allocate(l: Layout) returns (ptr: Option<nat>)
      requires start <= end
      modifies this
      ensures (State(), ptr) == ChunkAllocate(old(State()), end - start, l)
      ensures ptr.None? <==> !HasRoom(old(State()), end - start, l)
    {
      ChunkRefusesOnlyWhenFull(State(), end - start, l);
      var aligned := offset + (l.align - offset % l.align) % l.align;
      var next := aligned + l.size;
      if next <= end {
        offset := next;
        ptr := Some(aligned);
      } else {
        ptr := None;
      }
    }

    method Reset()
      modifies this
      ensures State() == ArenaSpec.Reset(old(State()))
    {
      offset := start;
    }
  }

  datatype ArenaBox = ArenaBox(ptr: nat, size: nat, valid: ValidCell) {
    /** The bytes behind the box; `None` is the panic of a box whose arena was cleared. */
    method Deref(memory: Memory) returns (r: Option<Bytes>)
      ensures r == if valid.value then Some(ReadBytes(memory.bytes, ptr, size)) else None
    {
      if !valid.value {
        return None;
      }
      r := Some(ReadBytes(memory.bytes, ptr, size));
    }

    /** `*box = bytes` through `deref_mut`; false is the panic. */
    method Write(memory: Memory, bytes: Bytes) returns (ok: bool)
      requires |bytes| == size
      modifies memory
      ensures ok == valid.value
      ensures memory.bytes == if valid.value then Written(old(memory.bytes), ptr, bytes) else old(memory.bytes)
      ensures ok ==> ReadBytes(memory.bytes, ptr, size) == bytes
    {
      ReadBack(memory.bytes, ptr, bytes);
      if !valid.value {
        return false;
      }
      memory.bytes := Written(memory.bytes, ptr, bytes);
      ok := true;
    }

    /** Narrows the box to a part of its value; the part dies with the same arena generation. */
    method Map(skip: nat, part: nat) returns (r: Option<ArenaBox>)
      requires skip + part <= size
      ensures r == if valid.value then Some(ArenaBox(ptr + skip, part, valid)) else None
    {
      if !valid.value {
        return None;
      }
      r := Some(ArenaBox(ptr + skip, part, valid));
    }
  }

  class Arena {
    var chunks: seq<Chunk>
    var elements: seq<Element>
    var valid: ValidCell
    var currentChunkIndex: nat
    const chunkSize: nat
    const memory: Memory
    /** The destructors run so far, by allocation number. */
    var dropped: seq<nat>
    var nextId: nat
    /** The validity cell of every generation so far. */
    ghost var cells: seq<ValidCell>

    ghost predicate ChunksMatch()
      reads this, chunks
    {
      && (forall i :: 0 <= i < |chunks| ==> chunks[i].end == chunks[i].start + chunkSize)
      && forall i, j :: 0 <= i < j < |chunks| ==> chunks[i] != chunks[j]
    }

    ghost function State(): ArenaState
      reads this, chunks
    {
      ArenaState(seq(|chunks|, i requires 0 <= i < |chunks| reads this, chunks => chunks[i].State()),
                 currentChunkIndex, chunkSize)
    }

    /** The cell of a generation holds true exactly while that generation is the current one. */
    ghost predicate CellsMatch()
      reads this, cells
    {
      && cells != [] && cells[|cells| - 1] == valid
      && (forall g :: 0 <= g < |cells| ==> cells[g].value == (g == |cells| - 1))
    }

    ghost predicate Valid()
      reads this, chunks, cells
    {
      && ChunksMatch()
      && WellFormed(State())
      && CellsMatch()
      && DropsOnce(Core.Core(State(), map[], elements, |cells| - 1, dropped, nextId))
    }

    ghost function TheCore(): Core
      reads this, chunks, cells, memory
      requires cells != []
    {
      Core.Core(State(), memory.bytes, elements, |cells| - 1, dropped, nextId)
    }

    constructor (size: nat, base: nat, mem: Memory)
      requires size > 0 && base > 0
      ensures Valid() && memory == mem && fresh(chunks) && fresh(cells)
      ensures TheCore() == Initial(size, base, mem.bytes).core
    {
      var chunk := new Chunk(size, base);
      var cell := new ValidCell(true);
      chunks := [chunk];
      elements, dropped, nextId := [], [], 0;
      valid, cells := cell, [cell];
      currentChunkIndex, chunkSize := 0, size;
      memory := mem;
      new;
      NewIsWellFormed(size, base);
      assert State() == NewArena(size, base);
    }

    /** `capacity()` */
    method CapacityOf() returns (r: nat)
      requires Valid()
      ensures r == Capacity(State())
    {
      r := |chunks| * chunkSize;
    }

    /**
     Stores a value and hands out its box; `None` is the panic of a chunk size that is too small.
     `freshStart` is the address the system allocator returns if a chunk has to be added.
     */
    method Alloc(l: Layout, bytes: Bytes, freshStart: nat) returns (box: Option<ArenaBox>)
      requires Valid() && |bytes| == l.size && FreshRegion(State(), freshStart)
      modifies this, chunks, memory
      ensures Valid()
      ensures var (core, ptr) := CoreAlloc(old(TheCore()), l, bytes, freshStart);
        && TheCore() == core
        && box == (if ptr.Some? then Some(ArenaBox(ptr.value, l.size, valid)) else None)
      ensures box.None? <==> && !HasRoom(old(State()).chunks[old(currentChunkIndex)], chunkSize, l)
                             && !HasRoom(NextChunk(old(State()), freshStart), chunkSize, l)
      ensures valid == old(valid) && cells == old(cells)
      ensures forall c :: c in chunks ==> c in old(chunks) || fresh(c)
    {
      AllocIsNextFit(State(), l, freshStart);
      AllocKeepsWellFormed(State(), l, freshStart);
      var ptr := Place(l, freshStart);
      if ptr.None? {
        return None;
      }
      Register(ptr.value, bytes);
      box := Some(ArenaBox(ptr.value, l.size, valid));
    }

    /** Writes the value into its block and notes the destructor that is now due. */
    method Register(ptr: nat, bytes: Bytes)
      requires Valid()
      modifies this`elements, this`nextId, memory
      ensures Valid()
      ensures State() == old(State()) && memory.bytes == Written(old(memory.bytes), ptr, bytes)
      ensures elements == old(elements) + [Element(ptr, old(nextId))] && nextId == old(nextId) + 1
    {
      ghost var placed := State();
      memory.bytes := Written(memory.bytes, ptr, bytes);
      StoredOnce(elements, dropped, nextId, ptr);
      elements := elements + [Element(ptr, nextId)];
      nextId := nextId + 1;
      assert State() == placed;
    }

    /** Finds the block in the current chunk or in the next, adding a chunk when there is none. */
    method Place(l: Layout, freshStart: nat) returns (ptr: Option<nat>)
      requires ChunksMatch() && WellFormed(State())
      modifies this`chunks, this`currentChunkIndex, chunks
      ensures ChunksMatch()
      ensures (State(), ptr) == ArenaSpec.Alloc(old(State()), l, freshStart)
      ensures forall c :: c in chunks ==> c in old(chunks) || fresh(c)
    {
      ghost var st := State();
      assert ChunkOk(st, currentChunkIndex);
      ptr := chunks[currentChunkIndex].Allocate(l);
      if ptr.Some? {
        assert State().chunks == st.chunks[st.current := chunks[st.current].State()];
        return;
      }
      currentChunkIndex := currentChunkIndex + 1;
      if currentChunkIndex >= |chunks| {
        var chunk := new Chunk(chunkSize, freshStart);
        chunks := chunks + [chunk];
      } else {
        assert ChunkOk(st, currentChunkIndex);
      }
      ghost var grown := if st.current + 1 >= |st.chunks| then st.chunks + [ChunkState(freshStart, freshStart)] else st.chunks;
      assert State().chunks == grown;
      ptr := chunks[currentChunkIndex].Allocate(l);
      assert State().chunks == grown[st.current + 1 := chunks[currentChunkIndex].State()];
    }

    /** Ends the generation: its boxes die, its values are dropped, its chunks are emptied. */
    method Clear()
      requires Valid()
      modifies this, chunks, valid
      ensures Valid()
      ensures TheCore() == CoreClear(old(TheCore()))
      ensures chunks == old(chunks)
      ensures fresh(valid) && cells == old(cells) + [valid] && !old(valid).value
    {
      ghost var st := State();
      valid.value := false;
      valid := new ValidCell(true);
      cells := cells + [valid];
      dropped := dropped + Ids(elements);
      elements := [];
      assert State() == st;
      ResetChunks();
      ClearEmpties(st);
      assert dropped + Ids(elements) == dropped;
    }

    method ResetChunks()
      requires ChunksMatch() && currentChunkIndex < |chunks|
      modifies chunks, this`currentChunkIndex
      ensures ChunksMatch()
      ensures State() == ArenaSpec.Clear(old(State()))
    {
      ghost var st := State();
      for i := 0 to currentChunkIndex + 1
        modifies chunks
        invariant forall k :: 0 <= k < |chunks| ==>
                    chunks[k].State() == if k < i then ArenaSpec.Reset(st.chunks[k]) else st.chunks[k]
      {
        chunks[i].Reset();
      }
      currentChunkIndex := 0;
      assert State().chunks == ArenaSpec.Clear(st).chunks;
    }

    /** `Drop for Arena`: nothing stays valid and no destructor stays due. */
    method Drop()
      requires Valid()
      modifies this, chunks, valid
      ensures elements == [] && dropped == seq(nextId, i => i) && nextId == old(nextId)
      ensures forall g :: 0 <= g < |old(cells)| ==> !old(cells)[g].value
    {
      Clear();
      assert dropped + Ids(elements) == dropped;
    }
  }
}
