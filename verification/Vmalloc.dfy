/** Virtual memory put together from physical chunks. */
module Vmalloc {
  import opened Blocks
  import opened Division
  import opened BuddyAllocator
  import opened HeapSupply
  import opened HeapCounts
  import opened Radix
  import opened PageTables
  import opened Layout
  import opened Regions
  import opened AddressSpaces

  const VMALLOC_BASE_ADDR: nat := 0xB000_0000_0000
  const VMALLOC_MAX_MAPPING_SIZE: nat := 0x1_0000_0000
  const VMALLOC_MAX_MAPPINGS: nat := 1024
  /** Order of the smallest block that is a page. */
  const PAGE_ORDER: nat := 3

  // ---------------------------------------------------------------- chunks of decreasing order

  function TotalOf(chunks: seq<Block>): nat {
    if chunks == [] then 0 else TotalOf(chunks[..|chunks| - 1]) + Bytes(chunks[|chunks| - 1].order)
  }

  ghost predicate NeverIncreases(chunks: seq<Block>) {
    forall i, j | 0 <= i < j < |chunks| :: chunks[i].order >= chunks[j].order
  }

  ghost predicate AlignedTo(x: int, k: nat) {
    x % Bytes(k) == 0
  }

  lemma {:induction false} Multiple(x: nat, k: nat, j: nat)
    requires j <= k && AlignedTo(x, k)
    ensures AlignedTo(x, j)
    decreases k
  {
    if j < k {
      var n, q := Bytes(k - 1), x / Bytes(k);
      assert x == 2 * n * q == n * (2 * q) + 0;
      DivMod(x, n, 2 * q, 0);
      Multiple(x, k - 1, j);
    }
  }

  lemma SumMultiple(x: nat, y: nat, n: nat)
    requires n > 0 && x % n == 0 && y % n == 0
    ensures (x + y) % n == 0
  {
    var p, q := x / n, y / n;
    assert x == n * p && y == n * q;
    assert x + y == n * (p + q) + 0;
    DivMod(x + y, n, p + q, 0);
  }

  lemma SumAligned(x: nat, y: nat, k: nat)
    requires AlignedTo(x, k) && AlignedTo(y, k)
    ensures AlignedTo(x + y, k)
  {
    SumMultiple(x, y, Bytes(k));
  }

  /** A chunk never larger than the ones before begins at a multiple of its own size. */
  lemma {:induction false} TotalIsMultiple(chunks: seq<Block>, k: nat)
    requires forall c <- chunks :: c.order >= k
    ensures AlignedTo(TotalOf(chunks), k)
  {
    if chunks != [] {
      var last := chunks[|chunks| - 1];
      TotalIsMultiple(chunks[..|chunks| - 1], k);
      SelfMultiple(Bytes(last.order));
      Multiple(Bytes(last.order), last.order, k);
      SumMultiple(TotalOf(chunks[..|chunks| - 1]), Bytes(last.order), Bytes(k));
    }
  }

  lemma SelfMultiple(n: nat)
    requires n > 0
    ensures n % n == 0
  {
  }

  lemma BlockIsAligned(b: Block)
    ensures AlignedTo(Start(b), b.order)
  {
    StartIsProduct(b);
    DivMod(Start(b), Bytes(b.order), b.index, 0);
  }

  // ---------------------------------------------------------------- mapping a chunk

  lemma PageBytes()
    ensures Bytes(0) == 512 && Bytes(1) == 1024 && Bytes(2) == 2048 && Bytes(PAGE_ORDER) == PAGE_SIZE
    ensures Bytes(12) == 0x20_0000 && Bytes(MAX_ORDER) == 0x40_0000
  {
    assert Bytes(8) == 0x2_0000;
    TopBytes();
  }

  lemma MaximalFits(n: Node, va: nat, end: nat)
    requires Maximal(n, va, end)
    ensures n.level < LEVELS && Span(n.level) <= end - va
  {
  }

  lemma DifferenceMultiple(x: nat, y: nat, n: nat)
    requires n > 0 && x % n == 0 && y % n == 0
    ensures (x - y) % n == 0
  {
    var p, q := x / n, y / n;
    assert x == n * p && y == n * q;
    assert x - y == n * (p - q) + 0;
    DivMod(x - y, n, p - q, 0);
  }

  /** Which order has the size of a translation block. */
  lemma SpanIsBytes(level: nat, k: nat)
    requires level < LEVELS && k <= MAX_ORDER && Span(level) <= Bytes(k)
    ensures level == 2 ==> k >= 12 && Span(level) == Bytes(12)
    ensures level == 3 ==> Span(level) == Bytes(PAGE_ORDER)
    ensures level >= 2
  {
    PageBytes();
    BytesGrow(k, MAX_ORDER);
    if k < 12 {
      BytesGrow(k, 11);
    }
  }

  /** A chunk whose two addresses are aligned to its own size is mapped by blocks for which they are congruent. */
  lemma ChunkIsCongruent(pa: nat, va: nat, k: nat)
    requires PAGE_ORDER <= k <= MAX_ORDER && AlignedTo(pa, k) && AlignedTo(va, k)
    ensures Congruent(pa, va, va + Bytes(k))
  {
    forall n | Maximal(n, va, va + Bytes(k))
      ensures (pa - va) % Span(n.level) == 0
    {
      CongruentAt(n, pa, va, k);
    }
  }

  lemma CongruentAt(n: Node, pa: nat, va: nat, k: nat)
    requires PAGE_ORDER <= k <= MAX_ORDER && AlignedTo(pa, k) && AlignedTo(va, k) && Maximal(n, va, va + Bytes(k))
    ensures (pa - va) % Span(n.level) == 0
  {
    hide Maximal, Bytes;
    MaximalFits(n, va, va + Bytes(k));
    SpanIsBytes(n.level, k);
    var j := if n.level == 2 then 12 else PAGE_ORDER;
    Multiple(pa, k, j);
    Multiple(va, k, j);
    DifferenceMultiple(pa, va, Bytes(j));
  }

  ghost predicate ChunkMapped(v: View, va: nat, b: Block) {
    forall a: nat | va <= a < va + Bytes(b.order) :: Translate(v, a) == Start(b) - VA_OFFSET + (a - va)
  }

  /** The chunks are mapped one after the other from vaddr on. */
  ghost predicate WindowMaps(v: View, vaddr: nat, chunks: seq<Block>) {
    forall i | 0 <= i < |chunks| :: ChunkMapped(v, vaddr + TotalOf(chunks[..i]), chunks[i])
  }

  /** The kernel's own mapping of the memory. */
  ghost predicate DirectMap(v: View) {
    forall a: nat | VA_OFFSET <= a < MEMORY_END :: Translate(v, a) == a - VA_OFFSET
  }

  lemma {:induction false} TotalOfPrefix(chunks: seq<Block>, i: nat)
    requires i < |chunks|
    ensures TotalOf(chunks[..i]) + Bytes(chunks[i].order) <= TotalOf(chunks)
    decreases |chunks|
  {
    var shorter := chunks[..|chunks| - 1];
    if i < |chunks| - 1 {
      TotalOfPrefix(shorter, i);
      assert shorter[..i] == chunks[..i];
    }
  }

  lemma NewChunkMapped(v: View, w: View, root: nat, va: nat, b: Block)
    requires VA_OFFSET <= Start(b) && AlignedTo(va, b.order)
      && Overlaid(v, w, Start(b) - VA_OFFSET, va, va + Bytes(b.order))
    requires Closed(w, root) && PAGE_ORDER <= b.order <= MAX_ORDER
    ensures ChunkMapped(w, va, b)
  {
    hide Overlaid, Closed, Translate, Congruent, Start, Bytes, AlignedTo;
    ChunkAligned(b);
    ChunkIsCongruent(Start(b) - VA_OFFSET, va, b.order);
    ChunkPages(va, b.order);
    OverlayTranslates(v, w, root, Start(b) - VA_OFFSET, va, va + Bytes(b.order));
  }

  lemma ChunkStays(v: View, w: View, pa: nat, va: nat, end: nat, at: nat, b: Block)
    requires Overlaid(v, w, pa, va, end) && ChunkMapped(v, at, b) && at + Bytes(b.order) <= va
    ensures ChunkMapped(w, at, b)
  {
    SameElsewhere(v, w, pa, va, end);
  }

  /** Mapping the next chunk leaves the earlier ones in place. */
  lemma ChunkAdded(v: View, w: View, root: nat, vaddr: nat, chunks: seq<Block>, b: Block)
    requires var va := vaddr + TotalOf(chunks);
      VA_OFFSET <= Start(b) && AlignedTo(va, b.order) && Overlaid(v, w, Start(b) - VA_OFFSET, va, va + Bytes(b.order))
    requires Closed(w, root) && WindowMaps(v, vaddr, chunks) && PAGE_ORDER <= b.order <= MAX_ORDER
    ensures WindowMaps(w, vaddr, chunks + [b])
  {
    hide Overlaid, Closed, ChunkMapped, Start, Bytes, TotalOf, AlignedTo;
    var va, all := vaddr + TotalOf(chunks), chunks + [b];
    NewChunkMapped(v, w, root, va, b);
    forall i | 0 <= i < |all|
      ensures ChunkMapped(w, vaddr + TotalOf(all[..i]), all[i])
    {
      if i < |chunks| {
        assert all[..i] == chunks[..i];
        TotalOfPrefix(chunks, i);
        ChunkStays(v, w, Start(b) - VA_OFFSET, va, va + Bytes(b.order), vaddr + TotalOf(chunks[..i]), chunks[i]);
      } else {
        assert all[..i] == chunks;
      }
    }
  }

  lemma ChunkAligned(b: Block)
    requires VA_OFFSET <= Start(b) && b.order <= MAX_ORDER
    ensures AlignedTo(Start(b) - VA_OFFSET, b.order)
  {
    BlockIsAligned(b);
    PageBytes();
    assert VA_OFFSET % 0x40_0000 == 0;
    Multiple(VA_OFFSET, MAX_ORDER, b.order);
    DifferenceMultiple(Start(b), VA_OFFSET, Bytes(b.order));
  }

  /** Chunks of at least a page are whole pages. */
  lemma ChunkPages(va: nat, k: nat)
    requires PAGE_ORDER <= k && AlignedTo(va, k)
    ensures va % PAGE_SIZE == 0 && (va + Bytes(k)) % PAGE_SIZE == 0 && Bytes(k) % PAGE_SIZE == 0
  {
    PageBytes();
    SelfMultiple(Bytes(k));
    Multiple(Bytes(k), k, PAGE_ORDER);
    Multiple(va, k, PAGE_ORDER);
    PageSum(va, Bytes(k));
  }

  lemma LeafWasThere(v: View, w: View, pa: nat, va: nat, end: nat, n: Node, a: nat)
    requires Overlaid(v, w, pa, va, end) && a >= end
    ensures IsLeaf(w, n) && Covers(n, a) ==> IsLeaf(v, n) && Covers(n, a)
  {
  }

  lemma StillUnmapped(v: View, w: View, pa: nat, va: nat, end: nat, limit: nat)
    requires Overlaid(v, w, pa, va, end) && Unmapped(v, va, limit) && va <= end
    ensures Unmapped(w, end, limit)
  {
    forall a: nat | end <= a < limit
      ensures !Mapped(w, a)
    {
      assert !Mapped(v, a);
      forall n
        ensures !(IsLeaf(w, n) && Covers(n, a))
      {
        LeafWasThere(v, w, pa, va, end, n, a);
      }
    }
  }

  lemma SameElsewhere(v: View, w: View, pa: nat, va: nat, end: nat)
    requires Overlaid(v, w, pa, va, end)
    ensures SameOutside(v, w, va, end)
  {
    forall a: nat | a < va || a >= end
      ensures Translate(w, a) == Translate(v, a) && (Mapped(w, a) <==> Mapped(v, a))
    {
      OverlayElsewhere(v, w, pa, va, end, a);
      if n :| IsLeaf(w, n) && Covers(n, a) {
        assert IsLeaf(v, n);
      }
      if n :| IsLeaf(v, n) && Covers(n, a) {
        assert OldLeaf(v, n, va, end);
        assert IsLeaf(w, n);
      }
    }
  }

  /** Outside of [va, end) the same addresses are mapped, to the same places. */
  ghost predicate SameOutside(v: View, w: View, va: nat, end: nat) {
    forall a: nat | a < va || a >= end :: Translate(w, a) == Translate(v, a) && (Mapped(w, a) <==> Mapped(v, a))
  }

  // ---------------------------------------------------------------- where chunks come from

  /** The heap lies in the memory the kernel maps, and not at its very start. */
  ghost predicate InMemory(roots: set<Block>) {
    forall r <- roots :: VA_OFFSET < Start(r) && Start(r) + Bytes(r.order) <= MEMORY_END
  }

  /** The heap that the buddy allocator sets up lies there. */
  lemma InitialHeapInMemory(staticEnd: nat)
    requires VA_OFFSET < staticEnd
    ensures InMemory(RootsBetween((staticEnd + TOP_BYTES - 1) / TOP_BYTES, MEMORY_END / TOP_BYTES))
  {
    var lo, hi := (staticEnd + TOP_BYTES - 1) / TOP_BYTES, MEMORY_END / TOP_BYTES;
    TopBytes();
    forall r | r in RootsBetween(lo, hi)
      ensures VA_OFFSET < Start(r) && Start(r) + Bytes(r.order) <= MEMORY_END
    {
      TopStart(r);
    }
  }

  lemma BlockInMemory(h: Heap, roots: set<Block>, b: Block)
    requires WellFormed(h, roots) && InMemory(roots) && b in h
    ensures VA_OFFSET < Start(b) < MEMORY_END
  {
    HoldsIsBlockAt(b, Start(b));
    PathUp(h, roots, Start(b), b.order, MAX_ORDER);
    var r := BlockAt(Start(b), MAX_ORDER);
    HoldsIsBlockAt(r, Start(b));
  }

  /** The chunks are live blocks of at least a page that were not live before, the larger ones first. */
  ghost predicate ChunksOk(h: Heap, live0: set<Block>, chunks: seq<Block>) {
    && (forall c <- chunks :: c in Live(h) && c !in live0 && PAGE_ORDER <= c.order <= MAX_ORDER)
    && NeverIncreases(chunks)
    && (forall i, j | 0 <= i < j < |chunks| :: chunks[i] != chunks[j])
  }

  /** The window maps the chunks and nothing after them; elsewhere the translation is that of v0. */
  ghost predicate WindowOk(v0: View, v: View, vaddr: nat, chunks: seq<Block>) {
    && WindowMaps(v, vaddr, chunks)
    && Unmapped(v, vaddr + TotalOf(chunks), vaddr + VMALLOC_MAX_MAPPING_SIZE)
    && SameOutside(v0, v, vaddr, vaddr + VMALLOC_MAX_MAPPING_SIZE)
  }

  /** The chunk after the first ones will be no larger than the last of them. */
  ghost predicate NextIsSmaller(h: Heap, structs: nat, chunks: seq<Block>, k: nat) {
    chunks != [] ==> Settled(h, structs, chunks[|chunks| - 1].order, k)
  }

  lemma NextChunk(h: Heap, structs: nat, live0: set<Block>, chunks: seq<Block>, k: nat, b: Block, k': nat, g: Heap)
    requires ChunksOk(h, live0, chunks) && NextIsSmaller(h, structs, chunks, k) && Reaches(h, structs, b.order)
    requires b.order <= k' && (chunks != [] ==> k' <= k)
    requires PAGE_ORDER <= b.order <= MAX_ORDER && b in Live(g) && b !in Live(h) && live0 <= Live(h) <= Live(g)
    ensures ChunksOk(g, live0, chunks + [b])
    ensures AlignedTo(TotalOf(chunks), b.order)
  {
    if chunks != [] {
      NextIsNoLarger(h, structs, chunks[|chunks| - 1].order, k, b.order, k');
    }
    TotalIsMultiple(chunks, b.order);
  }

  lemma LiveGrew(h: Heap, live0: set<Block>, chunks: seq<Block>, g: Heap)
    requires ChunksOk(h, live0, chunks) && Live(h) <= Live(g)
    ensures ChunksOk(g, live0, chunks)
  {
  }

  lemma LiveAfter(h: Heap, k: nat, c: Block, b: Block, g: Heap, roots: set<Block>)
    requires AllocatesFrom(h, k, c, b, g) && WellFormed(h, roots)
    ensures WellFormed(g, roots) && Live(g) == Live(h) + {b} && b !in Live(h) && b.order == k && b in g
  {
    AllocationKeeps(h, roots, k, b, g);
    assert b in Live(g);
  }

  lemma HeapShape(heap: Buddy)
    requires heap.Valid()
    ensures WellFormed(heap.heap, heap.roots)
  {
  }

  /** Which requests need a whole page. */
  lemma RequestOrder(rest: nat, pageAlign: bool)
    requires rest > 0
    ensures Bytes(OrderOf(rest, pageAlign)) >= rest
    ensures OrderOf(rest, pageAlign) > 0 <==> pageAlign || rest > 512
    ensures OrderOf(rest, pageAlign) >= PAGE_ORDER <==> pageAlign || rest > 2048
  {
    var n := Request(rest, pageAlign);
    OrderOfFits(rest, pageAlign);
    PageBytes();
    if n <= 512 {
      OrderBelow(OrderOf(rest, pageAlign), n, 0);
    } else if n <= 2048 {
      OrderBelow(OrderOf(rest, pageAlign), n, 2);
    }
  }

  class VmallocMapping {
    /** Starts of the chunks, newest first. */
    var blockList: seq<nat>
    var vaddress: nat
    var mappedBytes: nat
    var pageAlign: bool

    constructor (vaddress: nat, pageAlign: bool)
      ensures this.vaddress == vaddress && this.pageAlign == pageAlign && mappedBytes == 0 && blockList == []
    {
      this.vaddress, this.pageAlign, this.mappedBytes, this.blockList := vaddress, pageAlign, 0, [];
    }
  }

  ghost predicate ListsChunks(blockList: seq<nat>, chunks: seq<Block>) {
    |blockList| == |chunks| && forall i | 0 <= i < |chunks| :: blockList[|chunks| - 1 - i] == Start(chunks[i])
  }

  const BLOCK_RECORD_SIZE: nat := 16
  const MAPPING_RECORD_SIZE: nat := 48

  /** The chunk of a round with enough structs. */
  lemma TakenEnough(h: Heap, structs: nat, k: nat, b: Block, from: Block, g: Heap, left: nat)
    requires AllocatesFrom(h, b.order, from, b, g) && 0 < b.order <= k && (b.order == k || !Fits(h, b.order + 1))
    requires left == structs - 2 * (from.order - b.order)
    ensures Reaches(h, structs, b.order) && (b.order < k ==> Settled(g, left, b.order, k))
    ensures TakenOrder(h, k) == b.order
  {
    assert Fits(h, b.order);
    TakenOrderIs(h, k, b.order);
    if b.order < k {
      NoneMade(h, b.order, from, b, g, b.order + 1);
    }
  }

  lemma NoneMade(h: Heap, k: nat, c: Block, b: Block, g: Heap, j: nat)
    requires AllocatesFrom(h, k, c, b, g) && !Fits(h, j)
    ensures !Fits(g, j)
  {
    if Fits(g, j) {
      AllocationFits(h, k, c, b, g, j);
    }
  }

  /** The chunk of a round that ran out of structs. */
  lemma TakenShort(h: Heap, structs: nat, k: nat, b: Block, cut: Block, reached: nat, g: Heap, left: nat)
    requires SmallestFit(h, k, cut) && k < reached <= cut.order && left < 2
    requires b in h && h[b] == Free && b.order <= k && NoneBetween(h, b.order, k)
      && g == SplitDown(h, cut, reached)[b := Used]
    ensures Reaches(h, structs, b.order) && Settled(g, left, b.order, k)
  {
    SettledInVain(h, cut, reached, b, g, left, k);
  }

  /** kmalloc of something that fits in the smallest block. */
  method AllocateRecord(heap: Buddy, size: nat) returns (addr: nat, ghost b: Block, ghost c: Block)
    requires heap.Valid() && 0 < size <= 512
    modifies heap, heap.pool
    ensures heap.Valid() && heap.pool == old(heap.pool) && heap.roots == old(heap.roots)
    ensures WellFormed(old(heap.heap), heap.roots) && WellFormed(heap.heap, heap.roots)
    ensures old(Live(heap.heap)) <= Live(heap.heap)
    ensures addr != 0 ==> AllocatesFrom(old(heap.heap), 0, c, b, heap.heap) && c.order <= MAX_ORDER
    ensures addr != 0 ==> heap.pool.freeObjects == old(heap.pool.freeObjects) - 2 * c.order
    ensures old(heap.pool.freeObjects >= Missing(heap.heap)) ==> (addr != 0 <==> old(Fits(heap.heap, 0)))
    ensures KmallocTally(CountsOf(old(heap.heap)), old(heap.pool.freeObjects), 0)
      == Told(heap.heap, addr, 0, heap.pool.freeObjects)
    ensures Less(old(heap.heap), old(heap.pool.freeObjects), heap.heap, heap.pool.freeObjects, 0, 512, 2)
  {
    hide Buddy.Valid, Start, AllocatesFrom, Fits, SmallestFit, WellFormed, Live, Missing, Less, RunsShort, SplitDown,
      CountsOf, KmallocTally;
    HeapShape(heap);
    ghost var k, h, structs := 0, heap.heap, heap.pool.freeObjects;
    addr, k, b, c := heap.Kmalloc(size, false);
    OrderBelow(k, size, 0);
    HeapShape(heap);
    KmallocCounts(h, heap.roots, structs, 0, addr, c, b, heap.heap, heap.pool.freeObjects);
    if addr != 0 {
      Buddy.TakenFits(h, 0, c, b, heap.heap);
      LiveAfter(h, 0, c, b, heap.heap, heap.roots);
      LessRecord(h, heap.roots, structs, c, b, heap.heap, heap.pool.freeObjects);
    } else if Fits(h, 0) {
      RunsShortBy(h, 0, structs, c);
      LessShort(h, heap.roots, structs, 0, heap.heap, heap.pool.freeObjects, 0, 512, 2);
      if structs >= Missing(h) {
        Affordable(h, heap.roots, 0, structs);
      }
    } else {
      LessNothing(h, structs, 0, 512, 2);
    }
  }

  /** The allocations of one round of vmalloc_reallocate: a chunk, and the records of the chunk and its mapping. With
      structs for all three the round succeeds exactly for requests of more than 512 bytes, if a block of at least
      order 1 is free and the heap has the bytes; it takes the least order of the request, or the largest free one
      below it. */
  method TakeChunk(heap: Buddy, rest: nat, pageAlign: bool)
      returns (ok: bool, newMem: nat, appendedBytes: nat, ghost b: Block)
    requires heap.Valid() && InMemory(heap.roots) && 0 < rest <= MAX_REQUEST
    modifies heap, heap.pool
    ensures heap.Valid() && heap.pool == old(heap.pool) && heap.roots == old(heap.roots)
    ensures old(Live(heap.heap)) <= Live(heap.heap)
    ensures ok ==> newMem == Start(b) && VA_OFFSET < newMem < MEMORY_END && appendedBytes == Bytes(b.order)
    ensures ok ==> b in Live(heap.heap) && b !in old(Live(heap.heap))
    ensures ok ==> 0 < b.order <= OrderOf(rest, pageAlign) && b.order <= MAX_ORDER
    ensures ok ==> Reaches(old(heap.heap), old(heap.pool.freeObjects), b.order)
    ensures ok && b.order < OrderOf(rest, pageAlign) ==>
      Settled(heap.heap, heap.pool.freeObjects, b.order, OrderOf(rest, pageAlign))
    ensures old(heap.pool.freeObjects >= Missing(heap.heap) + 6) ==> (ok <==>
      && OrderOf(rest, pageAlign) > 0 && Fits(old(heap.heap), 1)
      && FreeBytes(old(heap.heap)) >= Bytes(TakenOrder(old(heap.heap), OrderOf(rest, pageAlign))) + 1024)
    ensures ok && old(heap.pool.freeObjects >= Missing(heap.heap) + 6) ==>
      b.order == TakenOrder(old(heap.heap), OrderOf(rest, pageAlign)) && RoundTaken(old(heap.heap), b, heap.heap)
    ensures ok && old(heap.pool.freeObjects >= Missing(heap.heap) + 6) ==>
      heap.pool.freeObjects - Missing(heap.heap) >= old(heap.pool.freeObjects - Missing(heap.heap)) - 6
    ensures RoundTally(CountsOf(old(heap.heap)), old(heap.pool.freeObjects), OrderOf(rest, pageAlign))
      == Tally(if ok then Some(b.order) else None, CountsOf(heap.heap), heap.pool.freeObjects)
    ensures Less(old(heap.heap), old(heap.pool.freeObjects), heap.heap, heap.pool.freeObjects, 1, 1024, 6)
  {
    hide Buddy.Valid, Bytes, Start, AllocatesFrom, Fits, InMemory, IsOrderFor, SmallestFit, WellFormed, Live, RunsShort,
      Reaches, Settled, TakenOrder, FreeBytes, OrderOf, RoundTaken, SplitDown, NoneBetween, Missing, Less, CountsOf,
      KmallocTally, LargestTally;
    ok, b := false, Block(0, 0);
    ghost var k, from, reached, c1, b1, c2, b2;
    ghost var h0, s0 := heap.heap, heap.pool.freeObjects;
    HeapShape(heap);
    newMem, appendedBytes, k, b, from, reached := heap.KmallocLargestAvailable(rest, pageAlign);
    OrderOfIs(rest, pageAlign, k);
    ghost var h1, s1 := heap.heap, heap.pool.freeObjects;
    LargestCounts(h0, heap.roots, s0, k, newMem, b, from, reached, h1, s1);
    if s0 >= Missing(h0) {
      Affordable(h0, heap.roots, k, s0);
    }
    if RunsShort(h0, k, s0) {
      LessShort(h0, heap.roots, s0, k, h1, s1, 1, 0, 2);
    }
    if newMem == 0 {
      if k == 0 || !RunsShort(h0, k, s0) {
        LessNothing(h0, s0, 1, 0, 2);
      }
      LessMore(h0, s0, h1, s1, 1, 0, 2, 1024, 4);
      return;
    }
    HeapShape(heap);
    InLive(h1, b);
    BlockInMemory(h1, heap.roots, b);
    if RunsShort(h0, k, s0) {
      TakenShort(h0, s0, k, b, from, reached, h1, s1);
    } else {
      TakenEnough(h0, s0, k, b, from, h1, s1);
      CutFacts(h0, heap.roots, b.order, from, b, h1);
      LessPiece(h0, heap.roots, s0, b.order, from, b, h1, s1);
    }
    var newBlk;
    newBlk, b1, c1 := AllocateRecord(heap, BLOCK_RECORD_SIZE);
    ghost var h2, s2 := heap.heap, heap.pool.freeObjects;
    LessTwice(h0, s0, h1, s1, h2, s2, 1, 0, 2, 0, 512, 2);
    BytesFit(h1);
    if newBlk == 0 {
      LessMore(h0, s0, h2, s2, 1, 512, 4, 512, 2);
      return;
    }
    RecordFacts(h1, s1, heap.roots, c1, b1, h2, s2, b.order, k);
    BytesFit(h2);
    var record;
    record, b2, c2 := AllocateRecord(heap, MAPPING_RECORD_SIZE);
    LessTwice(h0, s0, h2, s2, heap.heap, heap.pool.freeObjects, 1, 512, 4, 0, 512, 2);
    if record == 0 {
      return;
    }
    RecordFacts(h2, s2, heap.roots, c2, b2, heap.heap, heap.pool.freeObjects, b.order, k);
    if !RunsShort(h0, k, s0) {
      RoundIs(h0, b, from, h1, c1, b1, h2, c2, b2, heap.heap);
    }
    ok := true;
  }

  lemma InLive(h: Heap, b: Block)
    requires b in Live(h)
    ensures b in h
  {
  }

  lemma CutFacts(h: Heap, roots: set<Block>, k: nat, c: Block, b: Block, g: Heap)
    requires WellFormed(h, roots) && AllocatesFrom(h, k, c, b, g)
    ensures c.order <= MAX_ORDER && k <= c.order && FreeBytes(h) == FreeBytes(g) + Bytes(k) && Fits(h, k)
    ensures Missing(g) + 2 * (c.order - k) <= Missing(h) + 2
  {
    AllocationBytes(h, roots, k, c, b, g);
    AllocationCredit(h, roots, k, c, b, g);
  }

  lemma RecordFacts(h: Heap, structs: nat, roots: set<Block>, c: Block, b: Block, g: Heap, left: nat, o: nat, k: nat)
    requires WellFormed(h, roots) && AllocatesFrom(h, 0, c, b, g) && left == structs - 2 * c.order
    ensures FreeBytes(h) == FreeBytes(g) + 512 && Missing(g) + 2 * c.order <= Missing(h) + 2
    ensures Settled(h, structs, o, k) ==> Settled(g, left, o, k)
  {
    AllocationBytes(h, roots, 0, c, b, g);
    AllocationCredit(h, roots, 0, c, b, g);
    if Settled(h, structs, o, k) {
      SettledStays(h, structs, o, k, c, b, g, left);
    }
  }

  lemma RoundIs(h: Heap, b: Block, c: Block, h1: Heap, c1: Block, b1: Block, h2: Heap, c2: Block, b2: Block, g: Heap)
    requires AllocatesFrom(h, b.order, c, b, h1) && AllocatesFrom(h1, 0, c1, b1, h2) && AllocatesFrom(h2, 0, c2, b2, g)
    ensures RoundTaken(h, b, g)
  {
  }

  lemma StartOfWindow(h: Heap, live0: set<Block>, v: View, vaddr: nat)
    requires live0 == Live(h) && Unmapped(v, vaddr, vaddr + VMALLOC_MAX_MAPPING_SIZE)
    ensures ChunksOk(h, live0, []) && WindowOk(v, v, vaddr, []) && TotalOf([]) == 0 && ListsChunks([], [])
  {
  }

  /** The kernel's own mapping lies outside the window. */
  lemma KernelStays(v0: View, v: View, vaddr: nat, chunks: seq<Block>, a: nat)
    requires WindowOk(v0, v, vaddr, chunks) && DirectMap(v0) && MEMORY_END <= vaddr && VA_OFFSET <= a < MEMORY_END
    ensures Translate(v, a) == a - VA_OFFSET
  {
    assert Translate(v0, a) == a - VA_OFFSET;
  }

  /** What the map of the next chunk needs. */
  lemma ReadyToMap(v0: View, v: View, vaddr: nat, chunks: seq<Block>, b: Block)
    requires WindowOk(v0, v, vaddr, chunks) && TotalOf(chunks) <= MAX_REQUEST && b.order <= MAX_ORDER
    requires vaddr % VMALLOC_MAX_MAPPING_SIZE == 0 && vaddr + VMALLOC_MAX_MAPPING_SIZE <= PHYS_LIMIT
    requires VA_OFFSET <= Start(b) < MEMORY_END
    ensures var va := vaddr + TotalOf(chunks);
      Unmapped(v, va, va + Bytes(b.order)) && !Conflict(v, va, va + Bytes(b.order))
    ensures var va := vaddr + TotalOf(chunks); NoOverwrite(v, va, va + Bytes(b.order))
    ensures vaddr + TotalOf(chunks) + Bytes(b.order) <= PHYS_LIMIT
      && Start(b) - VA_OFFSET + Bytes(b.order) <= PHYS_LIMIT
    ensures b.order >= PAGE_ORDER && AlignedTo(TotalOf(chunks), b.order) ==>
      !Misaligned(Start(b) - VA_OFFSET, vaddr + TotalOf(chunks), Bytes(b.order))
        && AlignedTo(vaddr + TotalOf(chunks), b.order)
    ensures b.order < PAGE_ORDER ==> Misaligned(Start(b) - VA_OFFSET, vaddr + TotalOf(chunks), Bytes(b.order))
  {
    hide TotalOf, Start, NoOverwrite, Conflict, WindowMaps, AlignedTo;
    var va := vaddr + TotalOf(chunks);
    PageBytes();
    BytesGrow(b.order, MAX_ORDER);
    UnmappedIsSafe(v, va, va + Bytes(b.order));
    if b.order >= PAGE_ORDER && AlignedTo(TotalOf(chunks), b.order) {
      WindowBase(vaddr, b.order);
      SumAligned(vaddr, TotalOf(chunks), b.order);
      ChunkAligned(b);
      ChunkPages(va, b.order);
      ChunkPages(Start(b) - VA_OFFSET, b.order);
    }
  }

  lemma WindowBase(vaddr: nat, k: nat)
    requires vaddr % VMALLOC_MAX_MAPPING_SIZE == 0 && k <= MAX_ORDER
    ensures AlignedTo(vaddr, k)
  {
    PageBytes();
    assert vaddr % 0x40_0000 == 0;
    Multiple(vaddr, MAX_ORDER, k);
  }

  /** The window after the next chunk. */
  lemma WindowGrew(v0: View, v: View, w: View, root: nat, vaddr: nat, chunks: seq<Block>, b: Block)
    requires var va := vaddr + TotalOf(chunks);
      VA_OFFSET <= Start(b) && AlignedTo(va, b.order) && Overlaid(v, w, Start(b) - VA_OFFSET, va, va + Bytes(b.order))
    requires Closed(w, root) && WindowOk(v0, v, vaddr, chunks) && PAGE_ORDER <= b.order <= MAX_ORDER
    requires TotalOf(chunks) + Bytes(b.order) <= VMALLOC_MAX_MAPPING_SIZE
    ensures WindowOk(v0, w, vaddr, chunks + [b]) && TotalOf(chunks + [b]) == TotalOf(chunks) + Bytes(b.order)
  {
    hide WindowMaps, Unmapped, Overlaid, Closed, Start, Bytes, Translate, AlignedTo;
    var va := vaddr + TotalOf(chunks);
    assert (chunks + [b])[..|chunks|] == chunks;
    ChunkAdded(v, w, root, vaddr, chunks, b);
    StillUnmapped(v, w, Start(b) - VA_OFFSET, va, va + Bytes(b.order), vaddr + VMALLOC_MAX_MAPPING_SIZE);
    SameElsewhere(v, w, Start(b) - VA_OFFSET, va, va + Bytes(b.order));
  }

  lemma ChunkListed(blockList: seq<nat>, chunks: seq<Block>, b: Block)
    requires ListsChunks(blockList, chunks)
    ensures ListsChunks([Start(b)] + blockList, chunks + [b])
  {
    var l, c := [Start(b)] + blockList, chunks + [b];
    forall i | 0 <= i < |c|
      ensures l[|c| - 1 - i] == Start(c[i])
    {
      if i < |chunks| {
        assert l[|c| - 1 - i] == blockList[|chunks| - 1 - i];
      }
    }
  }

  lemma ChunkSize(k: nat)
    requires k <= MAX_ORDER
    ensures Bytes(k) <= 0x40_0000 && (k >= PAGE_ORDER ==> Bytes(k) >= 4096)
      && VMALLOC_MAX_MAPPING_SIZE > MAX_REQUEST + 0x40_0000
  {
    PageBytes();
    BytesGrow(k, MAX_ORDER);
    if k >= PAGE_ORDER {
      BytesGrow(PAGE_ORDER, k);
    }
  }

  function SpanAt(vaddr: nat, i: nat): nat {
    vaddr + 0x20_0000 * i
  }

  /** The table entries on the way to the first n pieces of 2 MiB of a window. */
  ghost function WindowTables(vaddr: nat, n: nat): set<Node> {
    set i: nat, l: nat | i < n && l < 3 :: NodeAt(SpanAt(vaddr, i), l)
  }

  /** Pieces of 2 MiB that the chunks for a request may touch. */
  function SpansFor(newSize: nat): nat {
    (newSize + TOP_BYTES) / 0x20_0000 + 1
  }

  /** Table pages that suffice for a request. */
  function PagesFor(newSize: nat): nat {
    3 * SpansFor(newSize)
  }

  lemma {:induction false} WindowTablesSize(vaddr: nat, n: nat)
    ensures |WindowTables(vaddr, n)| <= 3 * n
  {
    hide NodeAt;
    if n == 0 {
      assert WindowTables(vaddr, n) == {};
    } else {
      var a := SpanAt(vaddr, n - 1);
      WindowTablesSize(vaddr, n - 1);
      WindowTablesStep(vaddr, n);
      ThreeMore(WindowTables(vaddr, n - 1), NodeAt(a, 0), NodeAt(a, 1), NodeAt(a, 2));
    }
  }

  lemma WindowTablesStep(vaddr: nat, n: nat)
    requires n > 0
    ensures var a := SpanAt(vaddr, n - 1);
      WindowTables(vaddr, n) == WindowTables(vaddr, n - 1) + {NodeAt(a, 0), NodeAt(a, 1), NodeAt(a, 2)}
  {
    hide NodeAt;
    var a, all := SpanAt(vaddr, n - 1), WindowTables(vaddr, n);
    forall l: nat | l < 3
      ensures NodeAt(a, l) in all
    {
    }
    assert NodeAt(a, 0) in all && NodeAt(a, 1) in all && NodeAt(a, 2) in all;
  }

  lemma ThreeMore(s: set<Node>, a: Node, b: Node, c: Node)
    ensures |s + {a, b, c}| <= |s| + 3
  {
    assert s + {a, b, c} == s + {a} + {b} + {c};
  }

  lemma InWindow(vaddr: nat, n: nat, a: nat, l: nat)
    requires vaddr % 0x20_0000 == 0 && vaddr <= a < vaddr + 0x20_0000 * n && l < 3
    ensures NodeAt(a, l) in WindowTables(vaddr, n)
  {
    var i := (a - vaddr) / 0x20_0000;
    SameNode(vaddr, a, l);
    assert NodeAt(SpanAt(vaddr, i), l) in WindowTables(vaddr, n);
  }

  lemma SameNode(vaddr: nat, a: nat, l: nat)
    requires vaddr % 0x20_0000 == 0 && vaddr <= a && l < 3
    ensures NodeAt(SpanAt(vaddr, (a - vaddr) / 0x20_0000), l) == NodeAt(a, l)
  {
  }

  lemma ChunkTables(vaddr: nat, n: nat, va: nat, size: nat)
    requires vaddr % VMALLOC_MAX_MAPPING_SIZE == 0 && vaddr <= va && va + size <= vaddr + 0x20_0000 * n
    ensures TablesFor(va, size) <= WindowTables(vaddr, n)
  {
    hide NodeAt, WindowTables, Inside;
    assert vaddr % 0x20_0000 == 0;
    if size > 0 {
      forall e | e in TablesFor(va, size)
        ensures e in WindowTables(vaddr, n)
      {
        var end := va + size;
        assert e in EndPaths(va, end);
        var l := if e == NodeAt(va, 0) || e == NodeAt(end - 1, 0) then 0
          else if e == NodeAt(va, 1) || e == NodeAt(end - 1, 1) then 1 else 2;
        InWindow(vaddr, n, va, l);
        InWindow(vaddr, n, end - 1, l);
      }
    }
  }

  /** Pages for the window are pages for its next chunk. */
  lemma PagesForChunk(free: set<nat>, v: View, vaddr: nat, n: nat, va: nat, size: nat)
    requires vaddr % VMALLOC_MAX_MAPPING_SIZE == 0 && vaddr <= va && va + size <= vaddr + 0x20_0000 * n
    requires Spare(free, WindowTables(vaddr, n), v) >= 0
    ensures Spare(free, TablesFor(va, size), v) >= 0
  {
    hide Spare, TablesFor, WindowTables;
    ChunkTables(vaddr, n, va, size);
    ExtendsTrans(v, v, v);
    SpareOfMore(free, v, free, v, TablesFor(va, size), WindowTables(vaddr, n));
  }

  lemma PagesAfterChunk(free: set<nat>, v: View, free': set<nat>, w: View, vaddr: nat, n: nat, va: nat, size: nat)
    requires vaddr % VMALLOC_MAX_MAPPING_SIZE == 0 && vaddr <= va && va + size <= vaddr + 0x20_0000 * n
    requires Extends(v, w) && Spare(free', TablesFor(va, size), w) == Spare(free, TablesFor(va, size), v)
    ensures Spare(free', WindowTables(vaddr, n), w) >= Spare(free, WindowTables(vaddr, n), v)
  {
    hide Spare, TablesFor, WindowTables, Extends;
    ChunkTables(vaddr, n, va, size);
    SpareOfMore(free, v, free', w, TablesFor(va, size), WindowTables(vaddr, n));
  }

  /** Pages for the whole request, and how many are left. */
  lemma PagesEnough(free: set<nat>, v: View, free': set<nat>, w: View, vaddr: nat, newSize: nat)
    ensures |free| >= PagesFor(newSize) ==> Spare(free, WindowTables(vaddr, SpansFor(newSize)), v) >= 0
    ensures
      Spare(free', WindowTables(vaddr, SpansFor(newSize)), w) >= Spare(free, WindowTables(vaddr, SpansFor(newSize)), v)
      ==>
      |free'| >= |free| - PagesFor(newSize)
  {
    hide SpansFor, WindowTables;
    var tables := WindowTables(vaddr, SpansFor(newSize));
    WindowTablesSize(vaddr, SpansFor(newSize));
    SubsetSize(tables - v.Keys, tables);
  }

  lemma ChunkInSpans(newSize: nat, mapped: nat, bytes: nat)
    requires mapped < newSize && bytes <= TOP_BYTES
    ensures mapped + bytes <= 0x20_0000 * SpansFor(newSize)
  {
  }

  /** The regions of the chunks of a window, newest first. */
  ghost function ChunkRegions(vaddr: nat, chunks: seq<Block>): seq<Region> {
    if chunks == [] then [] else
    var n := |chunks| - 1;
    [ChunkRegion(vaddr + TotalOf(chunks[..n]), chunks[n])] + ChunkRegions(vaddr, chunks[..n])
  }

  /** Chunks lie in the memory that is mapped for the kernel. */
  ghost function ChunkRegion(vaddr: nat, b: Block): Region {
    Region(vaddr, if Start(b) < VA_OFFSET then 0 else Start(b) - VA_OFFSET, Bytes(b.order))
  }

  /** The mappings of the chunks stand in front of those that were listed before, newest first. */
  ghost predicate Listed(before: seq<AddressMapping>, list: seq<AddressMapping>, vaddr: nat, chunks: seq<Block>) {
    && |list| == |chunks| + |before| && list[|chunks|..] == before
    && RegionsOf(list[..|chunks|]) == ChunkRegions(vaddr, chunks)
  }

  lemma ListedNone(list: seq<AddressMapping>, vaddr: nat)
    ensures Listed(list, list, vaddr, [])
  {
  }

  /** One mapping more, for the region, at the head of the list. */
  ghost predicate Heads(list: seq<AddressMapping>, before: seq<AddressMapping>, r: Region) {
    list != [] && list == [list[0]] + before && list[0].region == r
  }

  lemma ListedMore(before: seq<AddressMapping>, list: seq<AddressMapping>, vaddr: nat, chunks: seq<Block>, b: Block,
      list': seq<AddressMapping>)
    requires Listed(before, list, vaddr, chunks) && Start(b) >= VA_OFFSET
    requires Heads(list', list, Region(vaddr + TotalOf(chunks), Start(b) - VA_OFFSET, Bytes(b.order)))
    ensures Listed(before, list', vaddr, chunks + [b])
  {
    hide Start, Bytes, TotalOf, ChunkRegions;
    ChunkRegionsMore(vaddr, chunks, b);
    RegionsMore(list, list[..|chunks|], list');
  }

  lemma HeadsFacts(list': seq<AddressMapping>, list: seq<AddressMapping>, vaddr: nat, chunks: seq<Block>, b: Block)
    requires Start(b) >= VA_OFFSET
    requires Heads(list', list, Region(vaddr + TotalOf(chunks), Start(b) - VA_OFFSET, Bytes(b.order)))
    ensures list' == [At(list', 0)] + list
  {
  }

  lemma RegionsMore(list: seq<AddressMapping>, front: seq<AddressMapping>, list': seq<AddressMapping>)
    requires front <= list && list' != [] && list' == [list'[0]] + list
    ensures list'[..|front| + 1] == [list'[0]] + front && list'[|front| + 1..] == list[|front|..]
    ensures RegionsOf(list'[..|front| + 1]) == [list'[0].region] + RegionsOf(front)
  {
    assert RegionsOf([list'[0]] + front) == [list'[0].region] + RegionsOf(front);
  }

  lemma ChunkRegionsMore(vaddr: nat, chunks: seq<Block>, b: Block)
    ensures ChunkRegions(vaddr, chunks + [b])
      == [ChunkRegion(vaddr + TotalOf(chunks), b)] + ChunkRegions(vaddr, chunks)
    ensures ChunkRegions(vaddr, []) == []
  {
    assert (chunks + [b])[..|chunks|] == chunks;
  }

  /** Through the list of mappings each byte of a chunk but the first leads to the chunk. */
  lemma {:induction false} ChunksAreFound(vaddr: nat, chunks: seq<Block>, rest: seq<Region>, k: nat, a: nat)
    requires k < |chunks| && Start(chunks[k]) >= VA_OFFSET
    requires vaddr + TotalOf(chunks[..k]) < a < vaddr + TotalOf(chunks[..k]) + Bytes(chunks[k].order)
    ensures FirstInside(ChunkRegions(vaddr, chunks) + rest, a)
      == Start(chunks[k]) - VA_OFFSET + (a - vaddr - TotalOf(chunks[..k]))
    decreases |chunks|
  {
    hide Start, Bytes;
    var n := |chunks| - 1;
    var all := ChunkRegions(vaddr, chunks) + rest;
    assert all[1..] == ChunkRegions(vaddr, chunks[..n]) + rest;
    if k < n {
      ChunksBefore(chunks, k, n);
      assert chunks[..n][..k] == chunks[..k];
      ChunksAreFound(vaddr, chunks[..n], rest, k, a);
    }
  }

  lemma {:induction false} ChunksBefore(chunks: seq<Block>, k: nat, n: nat)
    requires k < n <= |chunks|
    ensures TotalOf(chunks[..k]) + Bytes(chunks[k].order) <= TotalOf(chunks[..n])
    decreases n
  {
    assert chunks[..n][..n - 1] == chunks[..n - 1];
    if k < n - 1 {
      ChunksBefore(chunks, k, n - 1);
    }
  }

  /** The second half of a round of vmalloc_reallocate: the chunk is mapped behind the others and recorded. This fails
      exactly for chunks smaller than a page; then the mapping is taken out of the kernel's list again, else it heads
      the list and is active. */
  method MapChunk(space: AddressSpace, mapping: VmallocMapping, newMem: nat, appendedBytes: nat, ghost b: Block,
      ghost v0: View, ghost chunks: seq<Block>, ghost spans: nat) returns (failed: int)
    requires space.Valid() && space.pageTable.Valid()
    requires mapping.mappedBytes + appendedBytes <= 0x20_0000 * spans
    requires Spare(space.pageTable.FreePages(), WindowTables(mapping.vaddress, spans), space.pageTable.view) >= 0
    requires newMem == Start(b) && VA_OFFSET < newMem < MEMORY_END && appendedBytes == Bytes(b.order)
      && b.order <= MAX_ORDER
    requires mapping.mappedBytes == TotalOf(chunks) <= MAX_REQUEST && ListsChunks(mapping.blockList, chunks)
    requires mapping.vaddress % VMALLOC_MAX_MAPPING_SIZE == 0 && MEMORY_END <= mapping.vaddress
    requires mapping.vaddress + VMALLOC_MAX_MAPPING_SIZE <= PHYS_LIMIT
    requires DirectMap(v0) && WindowOk(v0, space.pageTable.view, mapping.vaddress, chunks)
    requires b.order >= PAGE_ORDER ==> AlignedTo(TotalOf(chunks), b.order)
    modifies mapping`blockList, mapping`mappedBytes, space`mappings, space`list, space.Head()`prev
    modifies space.pageTable`mem, space.pageTable`view, space.pageTable`leaked
    ensures space.Valid() && space.pageTable.Valid()
    ensures Spare(space.pageTable.FreePages(), WindowTables(mapping.vaddress, spans), space.pageTable.view)
      >= old(Spare(space.pageTable.FreePages(), WindowTables(mapping.vaddress, spans), space.pageTable.view))
    ensures failed != 0 ==> space.list == old(space.list) && space.mappings == old(space.mappings)
    ensures failed == 0 ==> space.mappings != null && fresh(space.mappings) && space.mappings.active
    ensures failed == 0 ==> Heads(space.list, old(space.list),
      Region(mapping.vaddress + old(mapping.mappedBytes), Start(b) - VA_OFFSET, Bytes(b.order)))
    ensures failed == if b.order >= PAGE_ORDER then 0 else 1
    ensures var all := if failed == 0 then chunks + [b] else chunks;
      WindowOk(v0, space.pageTable.view, mapping.vaddress, all) && mapping.mappedBytes == TotalOf(all)
        && ListsChunks(mapping.blockList, all)
    ensures failed == 0 ==> mapping.mappedBytes == old(mapping.mappedBytes) + appendedBytes
  {
    hide AddressSpace.Valid, PageTable.Sound, NoEmptyTable, PageTable.FreePages, Closed, WindowOk, ListsChunks, TotalOf,
      Bytes, Start, Unmapped, Overlaid, NoOverwrite, Conflict, Extends, Misaligned, Translate, DirectMap, AlignedTo,
      Spare, TablesFor, WindowTables, StoppedAtConflict;
    ghost var v, free := space.pageTable.view, space.pageTable.FreePages();
    space.ListFacts(0);
    ChunkSize(b.order);
    KernelStays(v0, v, mapping.vaddress, chunks, newMem);
    ReadyToMap(v0, v, mapping.vaddress, chunks, b);
    var vaddr := mapping.vaddress + mapping.mappedBytes;
    var newMapping := space.CreateMemoryRegionVirt(vaddr, newMem, appendedBytes, space.pageTable, true);
    if newMapping == null {
      assert false;
    }
    PagesForChunk(free, v, mapping.vaddress, spans, vaddr, appendedBytes);
    failed := space.MapMemoryRegion(newMapping);
    if failed != 0 {
      var err := space.UnmapAndRemoveMemoryRegion(newMapping, 0);
      space.ListFacts(0);
      return 1;
    }
    PagesAfterChunk(free, v, space.pageTable.FreePages(), space.pageTable.view, mapping.vaddress, spans, vaddr,
      appendedBytes);
    space.pageTable.SoundFacts();
    WindowGrew(v0, v, space.pageTable.view, space.pageTable.root, mapping.vaddress, chunks, b);
    ChunkListed(mapping.blockList, chunks, b);
    mapping.blockList := [newMem] + mapping.blockList;
    mapping.mappedBytes := mapping.mappedBytes + appendedBytes;
  }

  /** What is asked for can be mapped by whole pages: the last piece needs at least a page, or is made one. */
  predicate Mappable(newSize: nat, pageAlign: bool) {
    newSize == 0 || pageAlign || LastPiece(newSize) > 2048
  }

  /** A request of 1000 bytes cannot, nor one of 4 MiB and 1000 bytes; with the page-align flag both can. */
  lemma ThousandBytesFail()
    ensures !Mappable(1000, false) && !Mappable(0x40_03E8, false) && Mappable(1000, true) && Mappable(0x40_03E8, true)
  {
  }

  /** The bytes that the last chunk was asked to hold. */
  ghost function LastAsked(newSize: nat, chunks: seq<Block>): int
    requires chunks != []
  {
    newSize - TotalOf(chunks[..|chunks| - 1])
  }

  /** With supplies, a round takes the whole rest in one chunk, or a chunk of the top size. */
  lemma SuppliedRound(h: Heap, roots: set<Block>, rest: nat, pageAlign: bool)
    requires WellFormed(h, roots) && rest > 0 && Supplies(h, rest, pageAlign, 0) && OrderOf(rest, pageAlign) > 0
    ensures TakenOrder(h, OrderOf(rest, pageAlign)) == if rest <= TOP_BYTES then OrderOf(rest, pageAlign) else MAX_ORDER
    ensures Fits(h, 1) && FreeBytes(h) >= Bytes(TakenOrder(h, OrderOf(rest, pageAlign))) + 1024
  {
    hide FreeBytes;
    var k := OrderOf(rest, pageAlign);
    TopBytes();
    if rest <= TOP_BYTES {
      FitsLess(h, 1, k);
    } else {
      OrderOfFits(rest, pageAlign);
      if k <= MAX_ORDER {
        BytesGrow(k, MAX_ORDER);
        assert false;
      }
      TopsSupply(h, TOP_BYTES, true);
      OrderOfIs(TOP_BYTES, true, MAX_ORDER);
      FitsLess(h, 1, MAX_ORDER);
      TakenOrderIs(h, k, MAX_ORDER);
    }
  }

  /** The supplies for the rest, at a place in the loop of vmalloc_reallocate. */
  ghost predicate Supplied(h: Heap, structs: nat, newSize: nat, mapped: nat, pageAlign: bool) {
    if mapped < newSize then
      && Supplies(h, newSize - mapped, pageAlign, 0) && structs >= StructsFor(h, newSize - mapped)
      && LastPiece(newSize - mapped) == LastPiece(newSize)
    else
      Mappable(newSize, pageAlign)
  }

  lemma SuppliedAtStart(h: Heap, structs: nat, newSize: nat, pageAlign: bool)
    requires Supplies(h, newSize, pageAlign, 0) && structs >= StructsFor(h, newSize)
    ensures Supplied(h, structs, newSize, 0, pageAlign)
  {
  }

  /** The chunk a supplied round takes, if it takes one. */
  lemma SuppliedFacts(h: Heap, roots: set<Block>, structs: nat, newSize: nat, mapped: nat, pageAlign: bool)
    requires WellFormed(h, roots) && mapped < newSize && Supplied(h, structs, newSize, mapped, pageAlign)
    ensures structs >= Missing(h) + 6
    ensures var k := OrderOf(newSize - mapped, pageAlign);
      && (k == 0 ==> !Mappable(newSize, pageAlign))
      && (k > 0 ==> Fits(h, 1) && FreeBytes(h) >= Bytes(TakenOrder(h, k)) + 1024)
      && (k > 0 && TakenOrder(h, k) < PAGE_ORDER ==> !Mappable(newSize, pageAlign))
  {
    hide Supplies, Fits, FreeBytes, TakenOrder, Bytes, OrderOf, Missing;
    var rest := newSize - mapped;
    RequestOrder(rest, pageAlign);
    if OrderOf(rest, pageAlign) > 0 {
      SuppliedRound(h, roots, rest, pageAlign);
    }
  }

  /** After a round that mapped its chunk, the rest is supplied. */
  lemma SuppliedNext(h: Heap, roots: set<Block>, structs: nat, newSize: nat, mapped: nat, pageAlign: bool, b: Block,
      g: Heap, left: nat)
    requires WellFormed(h, roots) && mapped < newSize && Supplied(h, structs, newSize, mapped, pageAlign)
    requires PAGE_ORDER <= b.order == TakenOrder(h, OrderOf(newSize - mapped, pageAlign)) && RoundTaken(h, b, g)
    requires left - Missing(g) >= structs - Missing(h) - 6
    ensures Supplied(g, left, newSize, mapped + Bytes(b.order), pageAlign)
    ensures mapped + Bytes(b.order) < newSize ==>
      Pieces(newSize - mapped - Bytes(b.order)) == Pieces(newSize - mapped) - 1
  {
    hide Supplies, Fits, FreeBytes, TakenOrder, Bytes, OrderOf, RoundTaken, WellFormed, Missing;
    var rest := newSize - mapped;
    RequestOrder(rest, pageAlign);
    SuppliedRound(h, roots, rest, pageAlign);
    TopBytes();
    if rest > TOP_BYTES {
      RoundKeepsSupply(h, roots, rest, pageAlign, b, g);
    }
  }

  // ---------------------------------------------------------------- requests on numbers

  /** Whether a request was served, the orders of its chunks and what it leaves. */
  datatype Pieced = Pieced(done: bool, orders: seq<nat>, counts: Counts, structs: nat)

  /** vmalloc_reallocate as far as numbers of free blocks and structs go, after chunks of the given orders: it takes one
      chunk after the other, until the request is served, a round fails or a chunk is smaller than a page. */
  function RequestTally(c: Counts, structs: nat, rest: int, pageAlign: bool, orders: seq<nat>): Pieced
    decreases rest
  {
    if rest <= 0 then Pieced(true, orders, c, structs) else
    var t := RoundTally(c, structs, OrderOf(rest, pageAlign));
    if t.taken.None? || t.taken.order < PAGE_ORDER then Pieced(false, orders, t.counts, t.structs)
    else RequestTally(t.counts, t.structs, rest - Bytes(t.taken.order), pageAlign, orders + [t.taken.order])
  }

  ghost function Orders(chunks: seq<Block>): seq<nat> {
    seq(|chunks|, i requires 0 <= i < |chunks| => chunks[i].order)
  }

  lemma OrdersMore(chunks: seq<Block>, b: Block)
    ensures Orders(chunks + [b]) == Orders(chunks) + [b.order] && Orders([]) == []
  {
  }

  lemma RequestStep(c: Counts, structs: nat, rest: nat, pageAlign: bool, orders: seq<nat>, t: Tally)
    requires rest > 0 && t == RoundTally(c, structs, OrderOf(rest, pageAlign))
    ensures RequestTally(c, structs, rest, pageAlign, orders)
      == if t.taken.None? || t.taken.order < PAGE_ORDER then Pieced(false, orders, t.counts, t.structs)
        else RequestTally(t.counts, t.structs, rest - Bytes(t.taken.order), pageAlign, orders + [t.taken.order])
  {
    hide RoundTally, OrderOf;
  }

  lemma RequestServed(c: Counts, structs: nat, rest: int, pageAlign: bool, orders: seq<nat>)
    requires rest <= 0
    ensures RequestTally(c, structs, rest, pageAlign, orders) == Pieced(true, orders, c, structs)
  {
  }

  /** A request of 12 KiB is served from one free block of 8 KiB, one of 4 KiB and four records, without any structs. */
  lemma FragmentsServe(c: Counts, d: Counts)
    requires c == [4, 0, 0, 1, 1, 0, 0, 0, 0, 0, 0, 0, 0, 0] && d == [0, 0, 0, 0, 0, 0, 0, 0, 0, 0, 0, 0, 0, 0]
    ensures RequestTally(c, 0, 12288, true, []) == Pieced(true, [4, 3], d, 0)
  {
    hide RequestTally, OrderOf, RoundTally, Bytes;
    var between: Counts := [2, 0, 0, 1, 0, 0, 0, 0, 0, 0, 0, 0, 0, 0];
    ChunkOfEight(c, between);
    ChunkOfFour(between, d);
    RequestStep(c, 0, 12288, true, [], Tally(Some(4), between, 0));
    RequestStep(between, 0, 4096, true, [4], Tally(Some(3), d, 0));
    RequestServed(d, 0, 0, true, [4] + [3]);
    var none: seq<nat> := [];
    assert none + [4] == [4] && [4] + [3] == [4, 3];
  }

  lemma ChunkOfEight(c: Counts, d: Counts)
    requires c == [4, 0, 0, 1, 1, 0, 0, 0, 0, 0, 0, 0, 0, 0] && d == [2, 0, 0, 1, 0, 0, 0, 0, 0, 0, 0, 0, 0, 0]
    ensures RoundTally(c, 0, OrderOf(12288, true)) == Tally(Some(4), d, 0) && Bytes(4) == 8192
  {
    hide OrderOf;
    OrderOfIs(12288, true, 5);
    assert Smallest(c, 5) == 14;
    TwoRecordsOf(c[4 := 0], d);
  }

  lemma ChunkOfFour(c: Counts, d: Counts)
    requires c == [2, 0, 0, 1, 0, 0, 0, 0, 0, 0, 0, 0, 0, 0] && d == [0, 0, 0, 0, 0, 0, 0, 0, 0, 0, 0, 0, 0, 0]
    ensures RoundTally(c, 0, OrderOf(4096, true)) == Tally(Some(3), d, 0) && Bytes(3) == 4096
  {
    hide OrderOf;
    OrderOfIs(4096, true, 3);
    assert Smallest(c, 3) == 3;
    TwoRecordsOf(c[3 := 0], d);
  }

  lemma TwoRecordsOf(c: Counts, d: Counts)
    requires c[0] >= 2 && d == c[0 := c[0] - 2]
    ensures KmallocTally(c, 0, 0) == Tally(Some(0), c[0 := c[0] - 1], 0)
    ensures KmallocTally(c[0 := c[0] - 1], 0, 0) == Tally(Some(0), d, 0)
  {
    assert c[0 := c[0] - 1][0 := c[0] - 2] == d;
  }

  /** vmalloc_reallocate of a mapping that has no memory yet, given pages for the tables that are missing. It can run
      out of blocks or structs at any point; the numbers of free blocks and structs decide how far. A chunk below
      a page makes it fail, so without the page-align flag the last chunk must have been asked for more than 2048 bytes;
      with supplies for the whole request that decides it. */
  method Reallocate(heap: Buddy, space: AddressSpace, mapping: VmallocMapping, newSize: nat)
      returns (err: nat, ghost chunks: seq<Block>)
    requires heap.Valid() && space.Valid() && space.pageTable.Valid()
    requires mapping.mappedBytes == 0 && mapping.blockList == [] && newSize <= MAX_REQUEST
    requires mapping.vaddress % VMALLOC_MAX_MAPPING_SIZE == 0 && MEMORY_END <= mapping.vaddress
    requires mapping.vaddress + VMALLOC_MAX_MAPPING_SIZE <= PHYS_LIMIT
    requires Unmapped(space.pageTable.view, mapping.vaddress, mapping.vaddress + VMALLOC_MAX_MAPPING_SIZE)
    requires InMemory(heap.roots) && DirectMap(space.pageTable.view)
    requires Spare(space.pageTable.FreePages(), WindowTables(mapping.vaddress, SpansFor(newSize)),
      space.pageTable.view) >= 0
    modifies heap, heap.pool, mapping, space`mappings, space`list, space.Head()`prev
    modifies space.pageTable`mem, space.pageTable`view, space.pageTable`leaked
    ensures heap.Valid() && heap.roots == old(heap.roots) && heap.pool == old(heap.pool)
    ensures space.Valid() && space.pageTable.Valid()
    ensures old(Live(heap.heap)) <= Live(heap.heap)
    ensures ChunksOk(heap.heap, old(Live(heap.heap)), chunks)
    ensures WindowOk(old(space.pageTable.view), space.pageTable.view, mapping.vaddress, chunks)
    ensures ListsChunks(mapping.blockList, chunks)
    ensures mapping.vaddress == old(mapping.vaddress) && mapping.mappedBytes == TotalOf(chunks)
    ensures Listed(old(space.list), space.list, mapping.vaddress, chunks)
    ensures forall m <- space.list :: m.active || m in old(space.list)
    ensures err == if mapping.mappedBytes >= newSize then 0 else 1
    ensures err == 0 && newSize > 0 && !mapping.pageAlign ==> chunks != [] && LastAsked(newSize, chunks) > 2048
    ensures 0 < newSize <= 2048 && !mapping.pageAlign ==> err != 0
    ensures old(Supplies(heap.heap, newSize, mapping.pageAlign, 0)
      && heap.pool.freeObjects >= StructsFor(heap.heap, newSize)) ==>
      (err == 0 <==> Mappable(newSize, mapping.pageAlign))
    ensures Less(old(heap.heap), old(heap.pool.freeObjects), heap.heap, heap.pool.freeObjects,
      Pieces(newSize), 1024 * Pieces(newSize), 6 * Pieces(newSize))
    ensures RequestTally(CountsOf(old(heap.heap)), old(heap.pool.freeObjects), newSize, mapping.pageAlign, [])
      == Pieced(err == 0, Orders(chunks), CountsOf(heap.heap), heap.pool.freeObjects)
    ensures mapping.pageAlign == old(mapping.pageAlign)
    ensures Spare(space.pageTable.FreePages(), WindowTables(mapping.vaddress, SpansFor(newSize)), space.pageTable.view)
      >= old(Spare(space.pageTable.FreePages(), WindowTables(mapping.vaddress, SpansFor(newSize)),
        space.pageTable.view))
  {
    hide Buddy.Valid, AddressSpace.Valid, PageTable.Valid, PageTable.Sound, PageTable.FreePages, Closed, Live, ChunksOk,
      WindowOk, ListsChunks, TotalOf, Bytes, Start, Fits, Unmapped, Translate, InMemory, DirectMap, AlignedTo, Spare,
      WindowTables, SpansFor, Supplies, StructsFor, Mappable, FreeBytes, TakenOrder, OrderOf, Settled, Reaches, Less,
      Missing, Pieces, RoundTaken, WellFormed, LastAsked, CountsOf, RoundTally, RequestTally, Orders, Listed, Heads,
      Between, Ended;
    chunks := [];
    ghost var h0, s0, v0, vaddress := heap.heap, heap.pool.freeObjects, space.pageTable.view, mapping.vaddress;
    ghost var spans, pageAlign := SpansFor(newSize), mapping.pageAlign;
    ghost var last := OrderOf(newSize, pageAlign);
    StartOfWindow(h0, Live(h0), v0, vaddress);
    ListedNone(space.list, vaddress);
    BetweenAtStart(h0, s0, newSize, pageAlign);
    while mapping.mappedBytes < newSize
      invariant heap.Valid() && space.Valid() && space.pageTable.Valid() && heap.pool == old(heap.pool)
        && heap.roots == old(heap.roots)
      invariant mapping.vaddress == vaddress && mapping.pageAlign == pageAlign
      invariant mapping.mappedBytes == TotalOf(chunks) && ListsChunks(mapping.blockList, chunks)
      invariant WindowOk(v0, space.pageTable.view, vaddress, chunks)
      invariant Between(h0, s0, heap.heap, heap.pool.freeObjects, newSize, pageAlign, chunks, last)
      invariant Spare(space.pageTable.FreePages(), WindowTables(vaddress, spans), space.pageTable.view)
        >= old(Spare(space.pageTable.FreePages(), WindowTables(vaddress, spans), space.pageTable.view))
      invariant Listed(old(space.list), space.list, vaddress, chunks)
      invariant forall m <- space.list :: m.active || m in old(space.list)
      invariant space.mappings == old(space.mappings) || (space.mappings != null && fresh(space.mappings))
      decreases newSize - mapping.mappedBytes
    {
      ghost var h, structs, list := heap.heap, heap.pool.freeObjects, space.list;
      HeapShape(heap);
      BetweenFacts(h0, s0, h, structs, newSize, pageAlign, chunks, last);
      var ok, newMem, appendedBytes;
      ghost var b;
      ok, newMem, appendedBytes, b := TakeChunk(heap, newSize - mapping.mappedBytes, mapping.pageAlign);
      RoundDone(h0, s0, h, heap.roots, structs, newSize, pageAlign, chunks, last, ok, b, heap.heap,
        heap.pool.freeObjects);
      EndedFacts(h0, s0, heap.heap, heap.pool.freeObjects, newSize, pageAlign, chunks, false);
      if !ok {
        return 1, chunks;
      }
      ChunkSize(b.order);
      ChunkInSpans(newSize, mapping.mappedBytes, appendedBytes);
      var failed := MapChunk(space, mapping, newMem, appendedBytes, b, v0, chunks, spans);
      if failed != 0 {
        return 1, chunks;
      }
      space.ListFacts(0);
      HeadsFacts(space.list, list, vaddress, chunks, b);
      ListedMore(old(space.list), list, vaddress, chunks, b, space.list);
      last := OrderOf(newSize - TotalOf(chunks), pageAlign);
      chunks := chunks + [b];
    }
    AllServed(h0, s0, heap.heap, heap.pool.freeObjects, newSize, pageAlign, chunks, last);
    EndedFacts(h0, s0, heap.heap, heap.pool.freeObjects, newSize, pageAlign, chunks, true);
    return 0, chunks;
  }

  ghost predicate IsSupplied(h: Heap, structs: nat, newSize: nat, pageAlign: bool) {
    Supplies(h, newSize, pageAlign, 0) && structs >= StructsFor(h, newSize)
  }

  /** What holds between the rounds of vmalloc_reallocate: the state of the heap, how much is gone, and what the request
      is on numbers. */
  ghost predicate Between(h0: Heap, s0: nat, h: Heap, structs: nat, newSize: nat, pageAlign: bool, chunks: seq<Block>,
      last: nat) {
    && SoFar(h, structs, Live(h0), newSize, pageAlign, chunks, last, IsSupplied(h0, s0, newSize, pageAlign))
    && Less(h0, s0, h, structs, |chunks|, 1024 * |chunks|, 6 * |chunks|) && (newSize == 0 ==> chunks == [])
    && RequestTally(CountsOf(h0), s0, newSize, pageAlign, [])
      == RequestTally(CountsOf(h), structs, newSize - TotalOf(chunks), pageAlign, Orders(chunks))
  }

  /** What has become of the heap when vmalloc_reallocate returns. */
  ghost predicate Ended(h0: Heap, s0: nat, h: Heap, structs: nat, newSize: nat, pageAlign: bool, chunks: seq<Block>,
      served: bool) {
    && Live(h0) <= Live(h) && ChunksOk(h, Live(h0), chunks)
    && (served && newSize > 0 && !pageAlign ==> chunks != [] && LastAsked(newSize, chunks) > 2048)
    && (0 < newSize <= 2048 && !pageAlign ==> !served)
    && (IsSupplied(h0, s0, newSize, pageAlign) ==> (served <==> Mappable(newSize, pageAlign)))
    && Less(h0, s0, h, structs, Pieces(newSize), 1024 * Pieces(newSize), 6 * Pieces(newSize))
    && RequestTally(CountsOf(h0), s0, newSize, pageAlign, []) == Pieced(served, Orders(chunks), CountsOf(h), structs)
  }

  lemma EndedFacts(h0: Heap, s0: nat, h: Heap, structs: nat, newSize: nat, pageAlign: bool, chunks: seq<Block>,
      served: bool)
    ensures Ended(h0, s0, h, structs, newSize, pageAlign, chunks, served) ==>
      && Live(h0) <= Live(h) && ChunksOk(h, Live(h0), chunks)
      && (served && newSize > 0 && !pageAlign ==> chunks != [] && LastAsked(newSize, chunks) > 2048)
      && (0 < newSize <= 2048 && !pageAlign ==> !served)
      && (Supplies(h0, newSize, pageAlign, 0) && s0 >= StructsFor(h0, newSize) ==>
        (served <==> Mappable(newSize, pageAlign)))
      && Less(h0, s0, h, structs, Pieces(newSize), 1024 * Pieces(newSize), 6 * Pieces(newSize))
      && RequestTally(CountsOf(h0), s0, newSize, pageAlign, []) == Pieced(served, Orders(chunks), CountsOf(h), structs)
  {
    hide Live, ChunksOk, LastAsked, Supplies, StructsFor, Mappable, Less, Pieces, RequestTally, CountsOf, Orders;
  }

  lemma BetweenAtStart(h: Heap, structs: nat, newSize: nat, pageAlign: bool)
    ensures Between(h, structs, h, structs, newSize, pageAlign, [], OrderOf(newSize, pageAlign))
  {
    hide SoFar, Less, RequestTally, CountsOf, Orders, OrderOf, Supplies, StructsFor;
    LessNothing(h, structs, 0, 0, 0);
    OrdersMore([], Block(0, 0));
    SoFarNothing(h, structs, Live(h), newSize, pageAlign, OrderOf(newSize, pageAlign),
      IsSupplied(h, structs, newSize, pageAlign));
  }

  lemma BetweenFacts(h0: Heap, s0: nat, h: Heap, structs: nat, newSize: nat, pageAlign: bool, chunks: seq<Block>,
      last: nat)
    requires Between(h0, s0, h, structs, newSize, pageAlign, chunks, last)
    ensures newSize == 0 ==> chunks == []
  {
  }

  lemma AllServed(h0: Heap, s0: nat, h: Heap, structs: nat, newSize: nat, pageAlign: bool, chunks: seq<Block>,
      last: nat)
    requires Between(h0, s0, h, structs, newSize, pageAlign, chunks, last) && TotalOf(chunks) >= newSize
    ensures Ended(h0, s0, h, structs, newSize, pageAlign, chunks, true)
  {
    hide SoFar, Live, ChunksOk, LastAsked, Supplies, StructsFor, Mappable, Less, Pieces, RequestTally, CountsOf, Orders;
    RequestServed(CountsOf(h), structs, newSize - TotalOf(chunks), pageAlign, Orders(chunks));
    SoFarEnd(h, structs, Live(h0), newSize, pageAlign, chunks, last, IsSupplied(h0, s0, newSize, pageAlign));
    RoundsAreFew(h0, s0, h, structs, newSize, pageAlign, |chunks|);
  }

  /** A round of vmalloc_reallocate, with what TakeChunk says of it, ends the request or goes on to the next. */
  lemma RoundDone(h0: Heap, s0: nat, h: Heap, roots: set<Block>, structs: nat, newSize: nat, pageAlign: bool,
      chunks: seq<Block>, last: nat, ok: bool, b: Block, g: Heap, left: nat)
    requires Between(h0, s0, h, structs, newSize, pageAlign, chunks, last) && TotalOf(chunks) < newSize
    requires WellFormed(h, roots) && Live(h) <= Live(g)
    requires ok ==> b in Live(g) && b !in Live(h) && b.order <= MAX_ORDER && Reaches(h, structs, b.order)
    requires ok ==> 0 < b.order <= OrderOf(newSize - TotalOf(chunks), pageAlign)
    requires ok && b.order < OrderOf(newSize - TotalOf(chunks), pageAlign) ==>
      Settled(g, left, b.order, OrderOf(newSize - TotalOf(chunks), pageAlign))
    requires structs >= Missing(h) + 6 ==> (ok <==>
      && OrderOf(newSize - TotalOf(chunks), pageAlign) > 0 && Fits(h, 1)
      && FreeBytes(h) >= Bytes(TakenOrder(h, OrderOf(newSize - TotalOf(chunks), pageAlign))) + 1024)
    requires ok && structs >= Missing(h) + 6 ==>
      b.order == TakenOrder(h, OrderOf(newSize - TotalOf(chunks), pageAlign)) && RoundTaken(h, b, g)
    requires ok && structs >= Missing(h) + 6 ==> left - Missing(g) >= structs - Missing(h) - 6
    requires RoundTally(CountsOf(h), structs, OrderOf(newSize - TotalOf(chunks), pageAlign))
      == Tally(if ok then Some(b.order) else None, CountsOf(g), left)
    requires Less(h, structs, g, left, 1, 1024, 6)
    ensures !ok || b.order < PAGE_ORDER ==> Ended(h0, s0, g, left, newSize, pageAlign, chunks, false)
    ensures ok && b.order >= PAGE_ORDER ==> AlignedTo(TotalOf(chunks), b.order)
    ensures ok && b.order >= PAGE_ORDER ==>
      Between(h0, s0, g, left, newSize, pageAlign, chunks + [b], OrderOf(newSize - TotalOf(chunks), pageAlign))
  {
    hide SoFar, Live, ChunksOk, LastAsked, Supplies, StructsFor, Mappable, Less, Pieces, RequestTally, CountsOf, Orders,
      WellFormed, Reaches, OrderOf, Settled, Missing, Fits, FreeBytes, Bytes, TakenOrder, RoundTaken, RoundTally,
      AlignedTo, TotalOf;
    var n, supplied := |chunks|, IsSupplied(h0, s0, newSize, pageAlign);
    SoFarFacts(h, roots, structs, Live(h0), newSize, pageAlign, chunks, last, supplied);
    RequestStep(CountsOf(h), structs, newSize - TotalOf(chunks), pageAlign, Orders(chunks),
      Tally(if ok then Some(b.order) else None, CountsOf(g), left));
    LiveGrew(h, Live(h0), chunks, g);
    LessTwice(h0, s0, h, structs, g, left, n, 1024 * n, 6 * n, 1, 1024, 6);
    if ok && b.order >= PAGE_ORDER {
      SoFarNext(h, roots, structs, Live(h0), newSize, pageAlign, chunks, last, supplied, b, g, left);
      OrdersMore(chunks, b);
      TotalMore(chunks, b);
    } else {
      RoundsAreFew(h0, s0, g, left, newSize, pageAlign, n + 1);
    }
  }

  lemma TotalMore(chunks: seq<Block>, b: Block)
    ensures TotalOf(chunks + [b]) == TotalOf(chunks) + Bytes(b.order)
  {
    assert (chunks + [b])[..|chunks|] == chunks;
  }

  /** What holds of the heap and the chunks between the rounds of vmalloc_reallocate. */
  ghost predicate SoFar(h: Heap, structs: nat, live0: set<Block>, newSize: nat, pageAlign: bool, chunks: seq<Block>,
      last: nat, supplied: bool) {
    var mapped := TotalOf(chunks);
    && ChunksOk(h, live0, chunks) && live0 <= Live(h)
    && (mapped < newSize ==> NextIsSmaller(h, structs, chunks, last) && OrderOf(newSize - mapped, pageAlign) <= last)
    && (supplied ==> Supplied(h, structs, newSize, mapped, pageAlign))
    && (supplied ==> |chunks| + (if mapped < newSize then Pieces(newSize - mapped) else 0) <= Pieces(newSize))
    && (chunks != [] && !pageAlign ==> LastAsked(newSize, chunks) > 2048)
  }

  lemma SoFarNothing(h: Heap, structs: nat, live0: set<Block>, newSize: nat, pageAlign: bool, last: nat, supplied: bool)
    requires live0 == Live(h) && last == OrderOf(newSize, pageAlign)
    requires supplied ==> Supplies(h, newSize, pageAlign, 0) && structs >= StructsFor(h, newSize)
    ensures SoFar(h, structs, live0, newSize, pageAlign, [], last, supplied)
  {
    hide Supplies, OrderOf;
    if supplied {
      SuppliedAtStart(h, structs, newSize, pageAlign);
    }
  }

  lemma SoFarFacts(h: Heap, roots: set<Block>, structs: nat, live0: set<Block>, newSize: nat, pageAlign: bool,
      chunks: seq<Block>, last: nat, supplied: bool)
    requires SoFar(h, structs, live0, newSize, pageAlign, chunks, last, supplied) && WellFormed(h, roots)
    requires TotalOf(chunks) < newSize
    ensures ChunksOk(h, live0, chunks) && live0 <= Live(h)
    ensures var k := OrderOf(newSize - TotalOf(chunks), pageAlign);
      && (k >= PAGE_ORDER <==> pageAlign || newSize - TotalOf(chunks) > 2048)
      && (supplied ==> structs >= Missing(h) + 6 && |chunks| < Pieces(newSize))
      && (supplied && k == 0 ==> !Mappable(newSize, pageAlign))
      && (supplied && k > 0 ==> Fits(h, 1) && FreeBytes(h) >= Bytes(TakenOrder(h, k)) + 1024)
      && (supplied && k > 0 && TakenOrder(h, k) < PAGE_ORDER ==> !Mappable(newSize, pageAlign))
  {
    hide OrderOf, Supplied, Mappable, FreeBytes, TakenOrder, Fits, WellFormed, ChunksOk, NextIsSmaller, Bytes, Missing;
    RequestOrder(newSize - TotalOf(chunks), pageAlign);
    if supplied {
      SuppliedFacts(h, roots, structs, newSize, TotalOf(chunks), pageAlign);
    }
  }

  lemma SoFarNext(h: Heap, roots: set<Block>, structs: nat, live0: set<Block>, newSize: nat, pageAlign: bool,
      chunks: seq<Block>, last: nat, supplied: bool, b: Block, g: Heap, left: nat)
    requires SoFar(h, structs, live0, newSize, pageAlign, chunks, last, supplied) && WellFormed(h, roots)
    requires TotalOf(chunks) < newSize && PAGE_ORDER <= b.order <= MAX_ORDER
    requires b in Live(g) && b !in Live(h) && Live(h) <= Live(g)
    requires b.order <= OrderOf(newSize - TotalOf(chunks), pageAlign) && Reaches(h, structs, b.order)
    requires b.order < OrderOf(newSize - TotalOf(chunks), pageAlign) ==>
      Settled(g, left, b.order, OrderOf(newSize - TotalOf(chunks), pageAlign))
    requires supplied ==> b.order == TakenOrder(h, OrderOf(newSize - TotalOf(chunks), pageAlign)) && RoundTaken(h, b, g)
    requires supplied ==> left - Missing(g) >= structs - Missing(h) - 6
    ensures SoFar(g, left, live0, newSize, pageAlign, chunks + [b], OrderOf(newSize - TotalOf(chunks), pageAlign),
      supplied)
    ensures AlignedTo(TotalOf(chunks), b.order)
  {
    hide OrderOf, Supplied, Mappable, FreeBytes, TakenOrder, Fits, WellFormed, ChunksOk, NextIsSmaller, Bytes, Missing,
      Settled, Reaches, RoundTaken, Live, LastAsked, AlignedTo;
    var rest := newSize - TotalOf(chunks);
    var k := OrderOf(rest, pageAlign);
    RequestOrder(rest, pageAlign);
    assert (chunks + [b])[..|chunks|] == chunks;
    NextChunk(h, structs, live0, chunks, last, b, k, g);
    if supplied {
      SuppliedNext(h, roots, structs, newSize, newSize - rest, pageAlign, b, g, left);
    }
    if Bytes(b.order) < rest {
      NextStaysSmaller(g, left, chunks, b, k);
      OrderShrinks(rest, rest - Bytes(b.order), pageAlign);
    }
    AskedLast(newSize, chunks, b);
  }

  lemma SoFarEnd(h: Heap, structs: nat, live0: set<Block>, newSize: nat, pageAlign: bool, chunks: seq<Block>,
      last: nat, supplied: bool)
    requires SoFar(h, structs, live0, newSize, pageAlign, chunks, last, supplied) && TotalOf(chunks) >= newSize
    ensures ChunksOk(h, live0, chunks) && live0 <= Live(h)
    ensures supplied ==> Mappable(newSize, pageAlign) && |chunks| <= Pieces(newSize)
    ensures newSize > 0 && !pageAlign ==> chunks != [] && LastAsked(newSize, chunks) > 2048 && newSize > 2048
  {
    hide ChunksOk, Mappable;
    if supplied {
      SuppliedAtEnd(h, structs, newSize, TotalOf(chunks), pageAlign);
    }
    if newSize > 0 && !pageAlign {
      AskedIsLess(newSize, chunks);
    }
  }

  lemma SuppliedAtEnd(h: Heap, structs: nat, newSize: nat, mapped: nat, pageAlign: bool)
    requires mapped >= newSize
    ensures Supplied(h, structs, newSize, mapped, pageAlign) ==> Mappable(newSize, pageAlign)
  {
  }

  lemma AskedLast(newSize: nat, chunks: seq<Block>, b: Block)
    ensures LastAsked(newSize, chunks + [b]) == newSize - TotalOf(chunks)
  {
    assert (chunks + [b])[..|chunks|] == chunks;
  }

  lemma AskedIsLess(newSize: nat, chunks: seq<Block>)
    requires chunks != []
    ensures LastAsked(newSize, chunks) <= newSize
  {
  }

  lemma NextStaysSmaller(h: Heap, structs: nat, chunks: seq<Block>, b: Block, k: nat)
    requires Settled(h, structs, b.order, k)
    ensures NextIsSmaller(h, structs, chunks + [b], k)
  {
  }

  // ---------------------------------------------------------------- virtual address slots

  function SlotAddress(i: nat): nat {
    VMALLOC_BASE_ADDR + VMALLOC_MAX_MAPPING_SIZE * i
  }

  /** The windows of the slots lie one after the other, above the kernel's own mapping, each aligned to its size. */
  lemma SlotWindow(i: nat, j: nat)
    requires i < VMALLOC_MAX_MAPPINGS && j < VMALLOC_MAX_MAPPINGS
    ensures SlotAddress(i) % VMALLOC_MAX_MAPPING_SIZE == 0 && MEMORY_END <= SlotAddress(i)
    ensures SlotAddress(i) + VMALLOC_MAX_MAPPING_SIZE <= PHYS_LIMIT
    ensures i < j ==> SlotAddress(i) + VMALLOC_MAX_MAPPING_SIZE <= SlotAddress(j)
  {
  }

  /** The slots whose bit, bit i % 64 of word i / 64, is clear. */
  ghost function FreeSlots(freeMask: array2<bool>): set<nat>
    requires freeMask.Length0 == VMALLOC_MAX_MAPPINGS / 64 && freeMask.Length1 == 64
    reads freeMask
  {
    set i: nat | i < VMALLOC_MAX_MAPPINGS && !freeMask[i / 64, i % 64]
  }

  /** vmalloc_get_free_vaddr: takes the first free slot. */
  method GetFreeVaddr(freeMask: array2<bool>) returns (vaddr: nat, ghost slot: nat)
    requires freeMask.Length0 == VMALLOC_MAX_MAPPINGS / 64 && freeMask.Length1 == 64
    modifies freeMask
    ensures vaddr == 0 <==> old(FreeSlots(freeMask)) == {}
    ensures vaddr == 0 ==> FreeSlots(freeMask) == {}
    ensures vaddr != 0 ==> slot in old(FreeSlots(freeMask)) && (forall i <- old(FreeSlots(freeMask)) :: slot <= i)
    ensures vaddr != 0 ==> FreeSlots(freeMask) == old(FreeSlots(freeMask)) - {slot}
    ensures vaddr != 0 ==> vaddr == SlotAddress(slot) == 0xB000_0000_0000 + 0x1_0000_0000 * slot
  {
    slot := 0;
    var i := 0;
    while i < VMALLOC_MAX_MAPPINGS
      invariant i <= VMALLOC_MAX_MAPPINGS && slot == i
      invariant forall j <- FreeSlots(freeMask) :: j >= i
      invariant forall x: nat, y: nat | x < 16 && y < 64 :: freeMask[x, y] == old(freeMask[x, y])
    {
      var listIdx := i / 64;
      var bitIdx := i % 64;
      if !freeMask[listIdx, bitIdx] {
        assert i in old(FreeSlots(freeMask));
        freeMask[listIdx, bitIdx] := true;
        vaddr := VMALLOC_BASE_ADDR + VMALLOC_MAX_MAPPING_SIZE * i;
        return;
      }
      i := i + 1;
      slot := i;
    }
    return 0, slot;
  }

  /** Nothing is mapped in the windows of free slots. */
  ghost predicate FreeSlotsUnmapped(slots: set<nat>, v: View) {
    forall i <- slots ::
      i < VMALLOC_MAX_MAPPINGS && Unmapped(v, SlotAddress(i), SlotAddress(i) + VMALLOC_MAX_MAPPING_SIZE)
  }

  /** What vmalloc relies on and keeps. */
  ghost predicate Ready(heap: Buddy, space: AddressSpace, freeMask: array2<bool>)
    reads heap, heap.pool, space, space.list, space.pageTable, freeMask
  {
    && heap.Valid() && space.Valid() && space.pageTable.Valid()
    && InMemory(heap.roots) && DirectMap(space.pageTable.view)
    && freeMask.Length0 == VMALLOC_MAX_MAPPINGS / 64 && freeMask.Length1 == 64
    && FreeSlotsUnmapped(FreeSlots(freeMask), space.pageTable.view)
  }

  const VMALLOC_RECORD_SIZE: nat := 40

  /** What happened to the slots and to the translation: nothing, for want of a record or a slot; or one slot was taken,
      for good even when no window is returned, and only its window translates differently. */
  ghost predicate SlotTaken(slots: set<nat>, left: set<nat>, v: View, w: View, vaddr: nat) {
    || (vaddr == 0 && left == slots && w == v)
    || exists i :: IsTaken(slots, left, v, w, vaddr, i)
  }

  ghost predicate IsTaken(slots: set<nat>, left: set<nat>, v: View, w: View, vaddr: nat, i: nat) {
    && i in slots && left == slots - {i} && (vaddr == 0 || vaddr == SlotAddress(i))
    && SameOutside(v, w, SlotAddress(i), SlotAddress(i) + VMALLOC_MAX_MAPPING_SIZE)
  }

  /** A window other than the one taken translates as before. */
  lemma OtherWindows(slots: set<nat>, left: set<nat>, v: View, w: View, vaddr: nat, j: nat, a: nat)
    requires SlotTaken(slots, left, v, w, vaddr) && j !in slots && j < VMALLOC_MAX_MAPPINGS
    requires forall i <- slots :: i < VMALLOC_MAX_MAPPINGS
    requires SlotAddress(j) <= a < SlotAddress(j) + VMALLOC_MAX_MAPPING_SIZE
    ensures Translate(w, a) == Translate(v, a)
  {
    hide Translate;
    if i: nat :| IsTaken(slots, left, v, w, vaddr, i) {
      if i < j {
        SlotWindow(i, j);
      } else {
        SlotWindow(j, i);
      }
    }
  }

  /** vmalloc as far as numbers go: a record for the mapping, a free slot, and the request itself. */
  ghost predicate ServedFrom(c: Counts, structs: nat, slot: bool, size: nat, pageAlign: bool, served: bool,
      orders: seq<nat>, d: Counts, left: nat) {
    var record := KmallocTally(c, structs, 0);
    Pieced(served, orders, d, left) ==
      if record.taken.Some? && slot then RequestTally(record.counts, record.structs, size, pageAlign, [])
      else Pieced(false, [], record.counts, record.structs)
  }

  /** vmalloc: a window of fresh virtual addresses that translate to live blocks taken for this request, one after the
      other; every other address translates as before. */
  method Vmalloc(heap: Buddy, space: AddressSpace, freeMask: array2<bool>, size: nat, pageAlign: bool)
      returns (mapping: VmallocMapping?, ghost chunks: seq<Block>)
    requires Ready(heap, space, freeMask) && size <= MAX_REQUEST
    requires |space.pageTable.FreePages()| >= PagesFor(size)
    modifies heap, heap.pool, freeMask, space`mappings, space`list, space.Head()`prev
    modifies space.pageTable`mem, space.pageTable`view, space.pageTable`leaked
    ensures Ready(heap, space, freeMask)
    ensures old(Live(heap.heap)) <= Live(heap.heap)
    ensures |space.pageTable.FreePages()| >= old(|space.pageTable.FreePages()|) - PagesFor(size)
    ensures 0 < size <= 2048 && !pageAlign ==> mapping == null
    ensures mapping != null && size > 0 && !pageAlign ==> chunks != [] && LastAsked(size, chunks) > 2048
    ensures old(Supplies(heap.heap, size, pageAlign, 512)
      && heap.pool.freeObjects >= StructsFor(heap.heap, size) + 2) ==>
      (mapping != null <==> old(FreeSlots(freeMask)) != {} && Mappable(size, pageAlign))
    ensures Less(old(heap.heap), old(heap.pool.freeObjects), heap.heap, heap.pool.freeObjects,
      Pieces(size), 1024 * Pieces(size) + 512, 6 * Pieces(size) + 2)
    ensures ServedFrom(CountsOf(old(heap.heap)), old(heap.pool.freeObjects), old(FreeSlots(freeMask)) != {}, size,
      pageAlign, mapping != null, Orders(chunks), CountsOf(heap.heap), heap.pool.freeObjects)
    ensures ChunksOk(heap.heap, old(Live(heap.heap)), chunks)
    ensures SlotTaken(old(FreeSlots(freeMask)), FreeSlots(freeMask), old(space.pageTable.view), space.pageTable.view,
      if mapping == null then 0 else mapping.vaddress)
    ensures heap.roots == old(heap.roots) && heap.pool == old(heap.pool)
    ensures mapping != null ==> fresh(mapping) && mapping.pageAlign == pageAlign
    ensures mapping != null ==> TotalOf(chunks) == mapping.mappedBytes >= size
    ensures mapping != null ==> Listed(old(space.list), space.list, mapping.vaddress, chunks)
    ensures forall m <- space.list :: m.active || m in old(space.list)
    ensures mapping != null ==> exists i <- old(FreeSlots(freeMask)) ::
      (forall j <- old(FreeSlots(freeMask)) :: i <= j) && mapping.vaddress == 0xB000_0000_0000 + 0x1_0000_0000 * i
    ensures mapping == null ==>
      |space.list| == |chunks| + |old(space.list)| && space.list[|chunks|..] == old(space.list)
    ensures mapping != null ==>
      WindowMaps(space.pageTable.view, mapping.vaddress, chunks) && ListsChunks(mapping.blockList, chunks)
    ensures mapping != null ==>
      Unmapped(old(space.pageTable.view), mapping.vaddress, mapping.vaddress + VMALLOC_MAX_MAPPING_SIZE)
  {
    hide Buddy.Valid, AddressSpace.Valid, PageTable.Valid, PageTable.FreePages, Live, ChunksOk, WindowOk, WindowMaps,
      ListsChunks, TotalOf, Bytes, Start, Fits, Unmapped, InMemory, DirectMap, SameOutside, Spare, WindowTables,
      FreeSlotsUnmapped, FreeSlots, AllocatesFrom, WellFormed, Supplies, StructsFor, Mappable, SpansFor, LastAsked,
      PagesFor, FreeBytes, OrderOf, Less, Missing, Pieces, CountsOf, KmallocTally, RequestTally, Orders;
    chunks := [];
    OrdersMore(chunks, Block(0, 0));
    NoChunks(heap.heap);
    ghost var b, c;
    ghost var h0, v0, slots, free := heap.heap, space.pageTable.view, FreeSlots(freeMask), space.pageTable.FreePages();
    SupplyHasBytes(h0, size, pageAlign);
    var record;
    record, b, c := AllocateRecord(heap, VMALLOC_RECORD_SIZE);
    LiveGrew(h0, Live(h0), chunks, heap.heap);
    PagesEnough(free, v0, free, v0, 0, size);
    ghost var p := Pieces(size);
    if record == 0 {
      LessMore(h0, old(heap.pool.freeObjects), heap.heap, heap.pool.freeObjects, 0, 512, 2, 1024 * p, 6 * p);
      LessTops(h0, old(heap.pool.freeObjects), heap.heap, heap.pool.freeObjects, p, 512 + 1024 * p, 2 + 6 * p);
      return null, chunks;
    }
    ghost var s0, s1 := old(heap.pool.freeObjects), heap.pool.freeObjects;
    AllocationCredit(h0, heap.roots, 0, c, b, heap.heap);
    if Supplies(h0, size, pageAlign, 512) {
      SmallRecord(h0, heap.roots, size, pageAlign, 0, c, b, heap.heap);
    }
    ghost var slot, h1;
    h1 := heap.heap;
    SupplyHasBytes(h1, size, pageAlign);
    var vaddr;
    vaddr, slot := GetFreeVaddr(freeMask);
    OtherSlots(slots, v0, v0, slot);
    if vaddr == 0 {
      LessMore(h0, s0, h1, s1, 0, 512, 2, 1024 * p, 6 * p);
      LessTops(h0, s0, h1, s1, p, 512 + 1024 * p, 2 + 6 * p);
      assert slots - {slot} == {};
      return null, chunks;
    }
    SlotWindow(slot, slot);
    mapping := new VmallocMapping(vaddr, pageAlign);
    PagesEnough(free, v0, free, v0, vaddr, size);
    var err;
    err, chunks := Reallocate(heap, space, mapping, size);
    LessTwice(h0, s0, h1, s1, heap.heap, heap.pool.freeObjects, 0, 512, 2, p, 1024 * p, 6 * p);
    PagesEnough(free, v0, space.pageTable.FreePages(), space.pageTable.view, vaddr, size);
    LiveSince(heap.heap, Live(h0), Live(h1), chunks);
    WindowFacts(v0, space.pageTable.view, vaddr, chunks);
    StillDirect(v0, space.pageTable.view, vaddr);
    OtherSlots(slots, v0, space.pageTable.view, slot);
    assert IsTaken(slots, FreeSlots(freeMask), v0, space.pageTable.view, if err != 0 then 0 else vaddr, slot);
    if err != 0 {
      return null, chunks;
    }
  }

  lemma SupplyHasBytes(h: Heap, n: nat, pageAlign: bool)
    ensures Supplies(h, n, pageAlign, 512) ==> Fits(h, 0)
    ensures StructsFor(h, n) == Missing(h) + 6 * Pieces(n)
  {
    BytesFit(h);
  }

  lemma NoChunks(h: Heap)
    ensures ChunksOk(h, Live(h), [])
  {
  }

  lemma LiveSince(h: Heap, live0: set<Block>, live1: set<Block>, chunks: seq<Block>)
    requires ChunksOk(h, live1, chunks) && live0 <= live1
    ensures ChunksOk(h, live0, chunks)
  {
  }

  lemma WindowFacts(v0: View, v: View, vaddr: nat, chunks: seq<Block>)
    requires WindowOk(v0, v, vaddr, chunks)
    ensures WindowMaps(v, vaddr, chunks) && SameOutside(v0, v, vaddr, vaddr + VMALLOC_MAX_MAPPING_SIZE)
  {
  }

  lemma StillDirect(v0: View, v: View, vaddr: nat)
    requires DirectMap(v0) && MEMORY_END <= vaddr && SameOutside(v0, v, vaddr, vaddr + VMALLOC_MAX_MAPPING_SIZE)
    ensures DirectMap(v)
  {
  }

  /** Taking a slot and mapping in its window leaves the windows of the other free slots unmapped. */
  lemma OtherSlots(slots: set<nat>, v0: View, v: View, slot: nat)
    requires FreeSlotsUnmapped(slots, v0)
    requires v == v0 || SameOutside(v0, v, SlotAddress(slot), SlotAddress(slot) + VMALLOC_MAX_MAPPING_SIZE)
    ensures slot in slots ==>
      slot < VMALLOC_MAX_MAPPINGS && Unmapped(v0, SlotAddress(slot), SlotAddress(slot) + VMALLOC_MAX_MAPPING_SIZE)
    ensures FreeSlotsUnmapped(slots - {slot}, v)
  {
    forall i | i in slots - {slot}
      ensures Unmapped(v, SlotAddress(i), SlotAddress(i) + VMALLOC_MAX_MAPPING_SIZE)
    {
      assert Unmapped(v0, SlotAddress(i), SlotAddress(i) + VMALLOC_MAX_MAPPING_SIZE);
    }
  }
}
