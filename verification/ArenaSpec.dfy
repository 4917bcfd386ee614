/** The chunked bump allocator of `arena.rs` as a value: what one operation does and what whole runs keep. */
module ArenaSpec {
  import opened Common

  type Byte = b: int | 0 <= b < 256

  datatype LayoutData = LayoutData(size: nat, align: nat)

  /** Alignments are powers of two in the source; only that they are positive matters here. */
  type Layout = l: LayoutData | l.align >= 1 witness LayoutData(0, 1)

  datatype ChunkState = ChunkState(start: nat, offset: nat)

  /** `size` is the chunk size, the same for all chunks. */
  datatype ArenaState = ArenaState(chunks: seq<ChunkState>, current: nat, size: nat)

  // ---------------------------------------------------------------- alignment

  /** `offset + align_offset(offset, align)` */
  function AlignUp(offset: nat, align: nat): nat
    requires align >= 1
  {
    offset + (align - offset % align) % align
  }

  lemma AlignUpIsLeastMultiple(offset: nat, align: nat)
    requires align >= 1
    ensures AlignUp(offset, align) % align == 0
    ensures offset <= AlignUp(offset, align) <= offset + align - 1
  {
    var r := offset % align;
    var q := offset / align;
    assert offset == align * q + r;
    Padding(r, align);
    if r != 0 {
      Distribute(align, q);
      MultipleHasNoRemainder(align, q + 1);
    }
  }

  lemma Padding(r: nat, align: nat)
    requires r < align
    ensures (align - r) % align == if r == 0 then 0 else align - r
  {
  }

  lemma Distribute(align: nat, q: nat)
    ensures align * (q + 1) == align * q + align
  {
  }

  lemma MultipleHasNoRemainder(align: nat, q: nat)
    requires align >= 1
    ensures (align * q) % align == 0
  {
    var d, r := (align * q) / align, (align * q) % align;
    assert align * q == align * d + r;
    assert r == align * (q - d);
    NonzeroMultiple(align, q - d);
  }

  lemma NonzeroMultiple(a: int, k: int)
    requires a >= 1
    ensures k >= 1 ==> a * k >= a
    ensures k <= -1 ==> a * k <= -a
  {
  }

  // ---------------------------------------------------------------- one operation

  function ChunkAllocate(chunk: ChunkState, chunkSize: nat, l: Layout): (r: (ChunkState, Option<nat>)) {
    var aligned := AlignUp(chunk.offset, l.align);
    var next := aligned + l.size;
    if next <= chunk.start + chunkSize then (chunk.(offset := next), Some(aligned)) else (chunk, None)
  }

  /**
   The allocation: the current chunk, else the next one, which is created at `freshStart` when there is
   none. `None` is the panic for a chunk size that is too small; the move to the next chunk stays.
   */
  function Alloc(st: ArenaState, l: Layout, freshStart: nat): (r: (ArenaState, Option<nat>))
    requires st.current < |st.chunks|
  {
    var (chunk, ptr) := ChunkAllocate(st.chunks[st.current], st.size, l);
    if ptr.Some? then (st.(chunks := st.chunks[st.current := chunk]), ptr)
    else
      var current := st.current + 1;
      var chunks := if current >= |st.chunks| then st.chunks + [ChunkState(freshStart, freshStart)] else st.chunks;
      var (chunk, ptr) := ChunkAllocate(chunks[current], st.size, l);
      (ArenaState(chunks[current := chunk], current, st.size), ptr)
  }

  function Reset(chunk: ChunkState): ChunkState {
    chunk.(offset := chunk.start)
  }

  /** Only chunks up to the current one are reset. */
  function Clear(st: ArenaState): ArenaState {
    ArenaState(seq(|st.chunks|, i requires 0 <= i < |st.chunks| =>
                     if i <= st.current then Reset(st.chunks[i]) else st.chunks[i]), 0, st.size)
  }

  function Capacity(st: ArenaState): nat {
    |st.chunks| * st.size
  }

  // ---------------------------------------------------------------- well-formed states

  ghost predicate DisjointRanges(a: nat, m: nat, b: nat, n: nat) {
    a + m <= b || b + n <= a
  }

  ghost predicate ChunkOk(st: ArenaState, i: nat)
    requires i < |st.chunks|
  {
    && 0 < st.chunks[i].start <= st.chunks[i].offset <= st.chunks[i].start + st.size
    && (i > st.current ==> st.chunks[i].offset == st.chunks[i].start)
  }

  /** All chunks above the current one are empty; chunks occupy separate memory. */
  ghost predicate WellFormed(st: ArenaState) {
    && st.size > 0
    && st.current < |st.chunks|
    && (forall i :: 0 <= i < |st.chunks| ==> ChunkOk(st, i))
    && forall i, j :: 0 <= i < j < |st.chunks| ==>
        DisjointRanges(st.chunks[i].start, st.size, st.chunks[j].start, st.size)
  }

  /** What the system allocator promises about the region of a new chunk. */
  ghost predicate FreshRegion(st: ArenaState, start: nat) {
    && start > 0
    && forall i :: 0 <= i < |st.chunks| ==> DisjointRanges(st.chunks[i].start, st.size, start, st.size)
  }

  function NewArena(size: nat, start: nat): ArenaState {
    ArenaState([ChunkState(start, start)], 0, size)
  }

  lemma NewIsWellFormed(size: nat, start: nat)
    requires size > 0 && start > 0
    ensures WellFormed(NewArena(size, start))
  {
    assert ChunkOk(NewArena(size, start), 0);
  }

  lemma ChunkAllocateFits(chunk: ChunkState, chunkSize: nat, l: Layout)
    requires chunk.start <= chunk.offset <= chunk.start + chunkSize
    ensures var (after, ptr) := ChunkAllocate(chunk, chunkSize, l);
      && after.start == chunk.start
      && chunk.offset <= after.offset <= chunk.start + chunkSize
      && after.offset <= chunk.offset + l.size + l.align - 1
      && (ptr.Some? ==> ptr.value % l.align == 0 && chunk.offset <= ptr.value && ptr.value + l.size == after.offset)
      && (ptr.None? ==> after == chunk && chunk.start + chunkSize < chunk.offset + l.size + l.align)
  {
    AlignUpIsLeastMultiple(chunk.offset, l.align);
  }

  /** An allocation keeps the arena well formed, keeps every chunk in place, and moves no offset back. */
  lemma AllocKeepsWellFormed(st: ArenaState, l: Layout, freshStart: nat)
    requires WellFormed(st) && FreshRegion(st, freshStart)
    ensures var (st', ptr) := Alloc(st, l, freshStart);
      && WellFormed(st') && st'.size == st.size && st.current <= st'.current <= st.current + 1
      && |st.chunks| <= |st'.chunks|
      && forall i :: 0 <= i < |st.chunks| ==>
          st'.chunks[i].start == st.chunks[i].start && st.chunks[i].offset <= st'.chunks[i].offset
  {
    var st' := Alloc(st, l, freshStart).0;
    assert ChunkOk(st, st.current);
    ChunkAllocateFits(st.chunks[st.current], st.size, l);
    if ChunkAllocate(st.chunks[st.current], st.size, l).1.None? {
      if st.current + 1 < |st.chunks| {
        assert ChunkOk(st, st.current + 1);
        ChunkAllocateFits(st.chunks[st.current + 1], st.size, l);
      } else {
        ChunkAllocateFits(ChunkState(freshStart, freshStart), st.size, l);
      }
    }
    forall i | 0 <= i < |st'.chunks|
      ensures ChunkOk(st', i)
    {
      assert i < |st.chunks| ==> ChunkOk(st, i);
    }
  }

  /** The returned block is aligned, lies in one chunk, and starts at or after that chunk's old offset. */
  lemma AllocReturnsFreeBlock(st: ArenaState, l: Layout, freshStart: nat)
    requires WellFormed(st) && FreshRegion(st, freshStart)
    ensures var (st', ptr) := Alloc(st, l, freshStart);
      ptr.Some? ==>
        && ptr.value > 0 && ptr.value % l.align == 0
        && st'.chunks[st'.current].start <= ptr.value && ptr.value + l.size == st'.chunks[st'.current].offset
        && (st'.current < |st.chunks| ==> st.chunks[st'.current].offset <= ptr.value)
  {
    assert ChunkOk(st, st.current);
    ChunkAllocateFits(st.chunks[st.current], st.size, l);
    if ChunkAllocate(st.chunks[st.current], st.size, l).1.None? {
      if st.current + 1 < |st.chunks| {
        assert ChunkOk(st, st.current + 1);
        ChunkAllocateFits(st.chunks[st.current + 1], st.size, l);
      } else {
        ChunkAllocateFits(ChunkState(freshStart, freshStart), st.size, l);
      }
    }
  }

  // ---------------------------------------------------------------- nothing that fits is refused

  /** Address `align * k` begins a block of layout `l` in the free part of the chunk. */
  ghost predicate FreeAt(chunk: ChunkState, chunkSize: nat, l: Layout, k: nat) {
    chunk.offset <= l.align * k && l.align * k + l.size <= chunk.start + chunkSize
  }

  ghost predicate HasRoom(chunk: ChunkState, chunkSize: nat, l: Layout) {
    exists k: nat :: FreeAt(chunk, chunkSize, l, k)
  }

  lemma MultipleOf(address: nat, align: nat) returns (k: nat)
    requires align >= 1 && address % align == 0
    ensures address == align * k
  {
    k := address / align;
  }

  /** `AlignUp` gives the first aligned address. */
  lemma AlignUpIsFirst(offset: nat, align: nat, k: nat)
    requires align >= 1 && offset <= align * k
    ensures AlignUp(offset, align) <= align * k
  {
    AlignUpIsLeastMultiple(offset, align);
    var first := MultipleOf(AlignUp(offset, align), align);
    NonzeroMultiple(align, first - k);
    assert align * (first - k) == align * first - align * k;
  }

  /** A chunk refuses a layout exactly when no aligned block of it is free, and else gives the first there is. */
  lemma ChunkRefusesOnlyWhenFull(chunk: ChunkState, chunkSize: nat, l: Layout)
    ensures ChunkAllocate(chunk, chunkSize, l).1.None? <==> !HasRoom(chunk, chunkSize, l)
    ensures ChunkAllocate(chunk, chunkSize, l).1.Some? ==>
              exists k: nat :: FreeAt(chunk, chunkSize, l, k) && ChunkAllocate(chunk, chunkSize, l).1.value == l.align * k
                               && forall j: nat :: FreeAt(chunk, chunkSize, l, j) ==> l.align * k <= l.align * j
  {
    AlignUpIsLeastMultiple(chunk.offset, l.align);
    var first := MultipleOf(AlignUp(chunk.offset, l.align), l.align);
    forall j: nat | FreeAt(chunk, chunkSize, l, j)
      ensures l.align * first <= l.align * j
    {
      AlignUpIsFirst(chunk.offset, l.align, j);
    }
    if ChunkAllocate(chunk, chunkSize, l).1.Some? {
      assert FreeAt(chunk, chunkSize, l, first);
    }
  }

  /** The chunk that serves when the current one does not: the next, or an empty one at `freshStart`. */
  function NextChunk(st: ArenaState, freshStart: nat): ChunkState
    requires st.current < |st.chunks|
  {
    if st.current + 1 < |st.chunks| then st.chunks[st.current + 1] else ChunkState(freshStart, freshStart)
  }

  /**
   An allocation leaves the current chunk only when the block has no room there, panics only when it has
   none in the next either, and grows the arena by one chunk only when it leaves the last one. Only the
   chunk that serves changes.
   */
  lemma AllocIsNextFit(st: ArenaState, l: Layout, freshStart: nat)
    requires st.current < |st.chunks|
    ensures var (st', ptr) := Alloc(st, l, freshStart);
      var stays := HasRoom(st.chunks[st.current], st.size, l);
      && (st'.current == st.current <==> stays)
      && (st'.current == st.current + 1 <==> !stays)
      && (ptr.None? <==> !stays && !HasRoom(NextChunk(st, freshStart), st.size, l))
      && Capacity(st') == Capacity(st) + (if !stays && st.current + 1 >= |st.chunks| then st.size else 0)
      && st'.size == st.size && |st.chunks| <= |st'.chunks|
      && (forall i :: 0 <= i < |st.chunks| && i != st'.current ==> st'.chunks[i] == st.chunks[i])
      && (ptr.None? && !stays ==> st'.current < |st'.chunks| && st'.chunks[st'.current] == NextChunk(st, freshStart))
  {
    ChunkRefusesOnlyWhenFull(st.chunks[st.current], st.size, l);
    ChunkRefusesOnlyWhenFull(NextChunk(st, freshStart), st.size, l);
    assert (|st.chunks| + 1) * st.size == |st.chunks| * st.size + st.size;
  }

  /** A fresh arena of `size` has that capacity, and a block of exactly that size fits it. */
  lemma FullChunkFits(size: nat, start: nat, l: Layout, freshStart: nat)
    requires size > 0 && start > 0 && start % l.align == 0 && l.size == size
    ensures Capacity(NewArena(size, start)) == size
    ensures Alloc(NewArena(size, start), l, freshStart).1 == Some(start)
  {
    var k := MultipleOf(start, l.align);
    var chunk := ChunkState(start, start);
    assert FreeAt(chunk, size, l, k);
    ChunkRefusesOnlyWhenFull(chunk, size, l);
    ChunkAllocateFits(chunk, size, l);
  }

  ghost predicate Empty(st: ArenaState) {
    && st.current == 0
    && forall i :: 0 <= i < |st.chunks| ==> st.chunks[i].offset == st.chunks[i].start
  }

  /** Resetting only the chunks up to the current one empties the whole arena. */
  lemma ClearEmpties(st: ArenaState)
    requires WellFormed(st)
    ensures WellFormed(Clear(st)) && Empty(Clear(st)) && Capacity(Clear(st)) == Capacity(st)
    ensures forall i :: 0 <= i < |st.chunks| ==> Clear(st).chunks[i].start == st.chunks[i].start
  {
    var st' := Clear(st);
    forall i | 0 <= i < |st'.chunks|
      ensures ChunkOk(st', i) && st'.chunks[i] == Reset(st.chunks[i])
    {
      assert ChunkOk(st, i);
    }
  }

  // ---------------------------------------------------------------- runs of allocations

  datatype Request = Request(layout: Layout, freshStart: nat)

  /** Allocates the requests in turn; a panic is caught and the run goes on. */
  function AllocAll(st: ArenaState, requests: seq<Request>): (r: (ArenaState, seq<Option<nat>>))
    requires st.current < |st.chunks|
    ensures r.0.current < |r.0.chunks| && |r.1| == |requests|
    decreases |requests|
  {
    if requests == [] then (st, [])
    else
      var (st', ptr) := Alloc(st, requests[0].layout, requests[0].freshStart);
      var (last, rest) := AllocAll(st', requests[1..]);
      (last, [ptr] + rest)
  }

  /** The new regions a run is given do not overlap the arena's chunks. */
  ghost predicate RegionsFresh(st: ArenaState, requests: seq<Request>)
    requires st.current < |st.chunks|
    decreases |requests|
  {
    requests != [] ==>
      && FreshRegion(st, requests[0].freshStart)
      && RegionsFresh(Alloc(st, requests[0].layout, requests[0].freshStart).0, requests[1..])
  }

  lemma {:induction false} AllocAllKeepsWellFormed(st: ArenaState, requests: seq<Request>)
    requires WellFormed(st) && RegionsFresh(st, requests)
    ensures WellFormed(AllocAll(st, requests).0) && AllocAll(st, requests).0.size == st.size
    ensures |st.chunks| <= |AllocAll(st, requests).0.chunks|
    ensures forall i :: 0 <= i < |st.chunks| ==> AllocAll(st, requests).0.chunks[i].start == st.chunks[i].start
    decreases |requests|
  {
    if requests != [] {
      AllocKeepsWellFormed(st, requests[0].layout, requests[0].freshStart);
      AllocAllKeepsWellFormed(Alloc(st, requests[0].layout, requests[0].freshStart).0, requests[1..]);
    }
  }

  // ---------------------------------------------------------------- replay

  ghost predicate SameLayouts(a: seq<Request>, b: seq<Request>) {
    |a| == |b| && forall i :: 0 <= i < |a| ==> a[i].layout == b[i].layout
  }

  /** `big` is `st` with the chunks that a run will create already there, empty. */
  ghost predicate Extends(st: ArenaState, big: ArenaState) {
    && big.size == st.size && big.current == st.current && |st.chunks| <= |big.chunks|
    && (forall i :: 0 <= i < |st.chunks| ==> big.chunks[i] == st.chunks[i])
    && forall i :: |st.chunks| <= i < |big.chunks| ==> big.chunks[i].offset == big.chunks[i].start
  }

  lemma AllocInLarger(st: ArenaState, l: Layout, freshStart: nat, big: ArenaState, other: nat)
    requires st.current < |st.chunks| && Extends(st, big)
    requires var st' := Alloc(st, l, freshStart).0;
             |st'.chunks| <= |big.chunks|
             && forall i :: 0 <= i < |st'.chunks| ==> big.chunks[i].start == st'.chunks[i].start
    ensures Alloc(big, l, other).1 == Alloc(st, l, freshStart).1
    ensures Extends(Alloc(st, l, freshStart).0, Alloc(big, l, other).0)
    ensures |Alloc(big, l, other).0.chunks| == |big.chunks|
    ensures forall i :: 0 <= i < |big.chunks| ==> Alloc(big, l, other).0.chunks[i].start == big.chunks[i].start
  {
    if st.current + 1 == |st.chunks| && ChunkAllocate(st.chunks[st.current], st.size, l).1.None? {
      assert Alloc(st, l, freshStart).0.chunks[st.current + 1].start == freshStart;
      assert big.chunks[st.current + 1] == ChunkState(freshStart, freshStart);
    }
  }

  /** A run does the same, without growing, in an arena that already has the chunks it would create. */
  lemma {:induction false} ReplayInLarger(st: ArenaState, requests: seq<Request>, big: ArenaState, again: seq<Request>)
    requires WellFormed(st) && RegionsFresh(st, requests) && SameLayouts(requests, again)
    requires Extends(st, big)
    requires var last := AllocAll(st, requests).0;
             |big.chunks| == |last.chunks|
             && forall i :: 0 <= i < |last.chunks| ==> big.chunks[i].start == last.chunks[i].start
    ensures AllocAll(big, again) == AllocAll(st, requests)
    decreases |requests|
  {
    if requests != [] {
      var l := requests[0].layout;
      assert l == again[0].layout;
      var st' := Alloc(st, l, requests[0].freshStart).0;
      var big' := Alloc(big, l, again[0].freshStart).0;
      AllocKeepsWellFormed(st, l, requests[0].freshStart);
      AllocAllKeepsWellFormed(st', requests[1..]);
      AllocInLarger(st, l, requests[0].freshStart, big, again[0].freshStart);
      assert forall i :: 0 <= i < |requests[1..]| ==> requests[1..][i] == requests[i + 1] && again[1..][i] == again[i + 1];
      ReplayInLarger(st', requests[1..], big', again[1..]);
    } else {
      assert big.chunks == st.chunks;
    }
  }

  /**
   Replaying the previous generation's layouts after `Clear` returns the same addresses and panics,
   whatever regions are on offer, and never grows the arena.
   */
  lemma ReplayAfterClear(st: ArenaState, requests: seq<Request>, again: seq<Request>)
    requires WellFormed(st) && Empty(st) && RegionsFresh(st, requests) && SameLayouts(requests, again)
    ensures var (last, ptrs) := AllocAll(st, requests);
      && AllocAll(Clear(last), again) == (last, ptrs)
      && Capacity(AllocAll(Clear(last), again).0) == Capacity(Clear(last))
  {
    var last := AllocAll(st, requests).0;
    AllocAllKeepsWellFormed(st, requests);
    ClearEmpties(last);
    assert forall i :: 0 <= i < |st.chunks| ==> Clear(last).chunks[i] == st.chunks[i];
    ReplayInLarger(st, requests, Clear(last), again);
  }

  // ---------------------------------------------------------------- how many chunks a run needs

  /** A request's size together with the most padding its alignment can need. */
  function Footprint(l: Layout): nat {
    l.size + l.align - 1
  }

  function TotalFootprint(requests: seq<Request>): nat {
    if requests == [] then 0 else Footprint(requests[0].layout) + TotalFootprint(requests[1..])
  }

  function Used(st: ArenaState): int
    requires st.current < |st.chunks|
  {
    st.chunks[st.current].offset - st.chunks[st.current].start
  }

  lemma AllocUsage(st: ArenaState, l: Layout, freshStart: nat, m: nat)
    requires WellFormed(st) && FreshRegion(st, freshStart) && Footprint(l) <= m <= st.size
    ensures var (st', ptr) := Alloc(st, l, freshStart);
      && ptr.Some?
      && st'.current * (st.size - m + 1) + Used(st')
         <= st.current * (st.size - m + 1) + Used(st) + Footprint(l)
  {
    assert ChunkOk(st, st.current);
    ChunkAllocateFits(st.chunks[st.current], st.size, l);
    if ChunkAllocate(st.chunks[st.current], st.size, l).1.None? {
      var d := st.size - m + 1;
      assert (st.current + 1) * d == st.current * d + d;
      if st.current + 1 < |st.chunks| {
        assert ChunkOk(st, st.current + 1);
        ChunkAllocateFits(st.chunks[st.current + 1], st.size, l);
      } else {
        ChunkAllocateFits(ChunkState(freshStart, freshStart), st.size, l);
      }
    }
  }

  lemma {:induction false} RunUsage(st: ArenaState, requests: seq<Request>, m: nat)
    requires WellFormed(st) && RegionsFresh(st, requests) && m <= st.size
    requires forall i :: 0 <= i < |requests| ==> Footprint(requests[i].layout) <= m
    ensures var (last, ptrs) := AllocAll(st, requests);
      && (forall i :: 0 <= i < |ptrs| ==> ptrs[i].Some?)
      && last.current * (st.size - m + 1) + Used(last)
         <= st.current * (st.size - m + 1) + Used(st) + TotalFootprint(requests)
    decreases |requests|
  {
    if requests != [] {
      var r := requests[0];
      AllocKeepsWellFormed(st, r.layout, r.freshStart);
      AllocUsage(st, r.layout, r.freshStart, m);
      RunUsage(Alloc(st, r.layout, r.freshStart).0, requests[1..], m);
    }
  }

  /**
   From an empty arena, requests of footprint at most `m <= size` never panic, and each abandoned chunk
   accounts for more than `size - m` of their total footprint.
   */
  lemma {:induction false} ChunkCountBound(st: ArenaState, requests: seq<Request>, m: nat)
    requires WellFormed(st) && Empty(st) && RegionsFresh(st, requests) && m <= st.size
    requires forall i :: 0 <= i < |requests| ==> Footprint(requests[i].layout) <= m
    ensures var (last, ptrs) := AllocAll(st, requests);
      && (forall i :: 0 <= i < |ptrs| ==> ptrs[i].Some?)
      && last.current * (st.size - m + 1) <= TotalFootprint(requests)
  {
    RunUsage(st, requests, m);
    AllocAllKeepsWellFormed(st, requests);
    assert ChunkOk(AllocAll(st, requests).0, AllocAll(st, requests).0.current);
  }
}
