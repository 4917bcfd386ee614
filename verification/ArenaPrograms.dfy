/** A program that uses one arena through its boxes: the objects follow the runs of `ArenaRuns` step by step. */
module ArenaPrograms {
  import opened Common
  import opened ArenaSpec
  import opened ArenaRuns
  import opened Arenas

  /** The boxes as values: a generation stands for its validity cell. */
  ghost function Named(boxes: seq<ArenaBox>, generations: seq<nat>): (r: seq<BoxState>)
    requires |boxes| == |generations|
    ensures |r| == |boxes|
    ensures forall i :: 0 <= i < |r| ==> r[i] == BoxState(boxes[i].ptr, boxes[i].size, generations[i])
  {
    seq(|boxes|, i requires 0 <= i < |boxes| => BoxState(boxes[i].ptr, boxes[i].size, generations[i]))
  }

  lemma NamedAppend(boxes: seq<ArenaBox>, generations: seq<nat>, box: ArenaBox, generation: nat)
    requires |boxes| == |generations|
    ensures Named(boxes + [box], generations + [generation])
            == Named(boxes, generations) + [BoxState(box.ptr, box.size, generation)]
  {
  }

  lemma NamedUpdate(boxes: seq<ArenaBox>, generations: seq<nat>, i: nat, box: ArenaBox)
    requires |boxes| == |generations| && i < |boxes|
    ensures Named(boxes[i := box], generations)
            == Named(boxes, generations)[i := BoxState(box.ptr, box.size, generations[i])]
  {
  }

  /** What the pieces of the state after an allocation make together. */
  lemma AllocStep(s: System, l: Layout, bytes: Bytes, freshStart: nat, ptr: Option<nat>, s': System)
    requires Inv(s) && Legal(s, OpAlloc(l, bytes, freshStart))
    requires (s'.core, ptr) == CoreAlloc(s.core, l, bytes, freshStart)
    requires ptr.None? ==> s'.boxes == s.boxes && s'.blocks == s.blocks && s'.contents == s.contents
    requires ptr.Some? ==>
               && s'.boxes == s.boxes + [BoxState(ptr.value, l.size, s.core.generation)]
               && s'.blocks == s.blocks + [Block(ptr.value, l, s'.core.arena.current, s.core.generation)]
               && s'.contents == s.contents + [bytes]
    ensures Inv(s') && s' == Step(s, OpAlloc(l, bytes, freshStart))
  {
    AllocKeepsInv(s, l, bytes, freshStart);
  }

  class Program {
    const memory: Memory
    const arena: Arena
    /** Every box handed out, as its owner now holds it. */
    var boxes: seq<ArenaBox>
    /** The generation each box belongs to, where it was allocated, and what it was last given. */
    ghost var generations: seq<nat>
    ghost var blocks: seq<Block>
    ghost var contents: seq<Bytes>

    /** A box shares the validity cell of its generation. */
    ghost predicate BoxesMatch()
      reads this, arena
    {
      && |boxes| == |generations|
      && forall i :: 0 <= i < |boxes| ==> generations[i] < |arena.cells| && boxes[i].valid == arena.cells[generations[i]]
    }

    ghost function State(): System
      reads this, arena, arena.chunks, arena.cells, memory
      requires arena.cells != [] && arena.memory == memory && |boxes| == |generations|
    {
      System(arena.TheCore(), Named(boxes, generations), blocks, contents)
    }

    ghost predicate Valid()
      reads this, arena, arena.chunks, arena.cells, memory
    {
      arena.Valid() && arena.memory == memory && BoxesMatch() && Inv(State())
    }

    constructor (size: nat, base: nat, mem: Memory)
      requires size > 0 && base > 0
      ensures Valid() && State() == Initial(size, base, mem.bytes)
      ensures fresh(arena) && fresh(arena.chunks) && fresh(arena.cells) && memory == mem
    {
      var a := new Arena(size, base, mem);
      memory, arena := mem, a;
      boxes, generations, blocks, contents := [], [], [], [];
      new;
      InitialInv(size, base, mem.bytes);
    }

    /** The cell of a box tells whether the box validates. */
    lemma CellValidates(i: nat)
      requires Valid() && i < |boxes|
      ensures boxes[i].valid.value <==> Validates(State(), i)
    {
    }

    /** The box dereferences to what the run says, panics included. */
    method Deref(i: nat) returns (r: Option<Bytes>)
      requires Valid() && i < |boxes|
      ensures r == ArenaRuns.Deref(State(), i)
    {
      CellValidates(i);
      r := boxes[i].Deref(memory);
    }

    method Write(i: nat, bytes: Bytes)
      requires Valid() && i < |boxes| && |bytes| == boxes[i].size
      modifies memory, this`contents
      ensures Valid()
      ensures State() == Step(old(State()), OpWrite(i, bytes))
    {
      CellValidates(i);
      WriteKeepsInv(State(), i, bytes);
      var ok := boxes[i].Write(memory, bytes);
      if ok {
        contents := contents[i := bytes];
      }
    }

    method Map(i: nat, skip: nat, size: nat)
      requires Valid() && i < |boxes| && skip + size <= boxes[i].size
      modifies this`boxes, this`contents
      ensures Valid()
      ensures StepsTo(old(State()), OpMap(i, skip, size), State())
    {
      CellValidates(i);
      MapKeepsInv(State(), i, skip, size);
      var part := boxes[i].Map(skip, size);
      if part.Some? {
        NamedUpdate(boxes, generations, i, part.value);
        boxes, contents := boxes[i := part.value], contents[i := contents[i][skip..skip + size]];
      }
    }

    method Alloc(l: Layout, bytes: Bytes, freshStart: nat)
      requires Valid() && |bytes| == l.size && FreshRegion(arena.State(), freshStart)
      modifies this, arena, arena.chunks, memory
      ensures Valid()
      ensures State() == Step(old(State()), OpAlloc(l, bytes, freshStart))
      ensures forall c :: c in arena.chunks ==> c in old(arena.chunks) || fresh(c)
    {
      ghost var before := State();
      var box := arena.Alloc(l, bytes, freshStart);
      if box.Some? {
        ghost var block := Block(box.value.ptr, l, arena.currentChunkIndex, |arena.cells| - 1);
        Keep(box.value, block, bytes);
      }
      AllocStep(before, l, bytes, freshStart, if box.Some? then Some(box.value.ptr) else None, State());
    }

    /** A new box is kept with the others. */
    method Keep(box: ArenaBox, ghost block: Block, ghost bytes: Bytes)
      requires |boxes| == |generations|
      modifies this
      ensures boxes == old(boxes) + [box] && generations == old(generations) + [block.generation]
      ensures Named(boxes, generations)
              == Named(old(boxes), old(generations)) + [BoxState(box.ptr, box.size, block.generation)]
      ensures blocks == old(blocks) + [block] && contents == old(contents) + [bytes]
    {
      NamedAppend(boxes, generations, box, block.generation);
      boxes := boxes + [box];
      generations, blocks, contents := generations + [block.generation], blocks + [block], contents + [bytes];
    }

    method Clear()
      requires Valid()
      modifies arena, arena.chunks, arena.valid
      ensures Valid()
      ensures State() == Step(old(State()), OpClear)
      ensures arena.chunks == old(arena.chunks) && fresh(arena.valid)
    {
      ClearKeepsInv(State());
      arena.Clear();
    }
  }
}
