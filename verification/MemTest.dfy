/** The kernel's own heap test: allocate a number of blocks, then free them all. */
module MemTest {
  import opened Blocks
  import opened BuddyAllocator
  import opened HeapRuns
  import opened HeapSupply
  import opened HeapCounts

  const POINTER_SIZE: nat := 8

  /** The heap is h0 with the given blocks allocated on top, as far as live blocks go. */
  ghost predicate Holding(heap: Heap, h0: Heap, blocks: seq<Block>) {
    && (forall b :: b in Live(heap) <==> b in Live(h0) || b in blocks)
    && (forall b <- blocks :: b !in Live(h0))
    && forall i, j | 0 <= i < j < |blocks| :: blocks[i] != blocks[j]
  }

  lemma HoldingMore(heap: Heap, h0: Heap, blocks: seq<Block>, g: Heap, b: Block)
    requires Holding(heap, h0, blocks) && Live(g) == Live(heap) + {b} && b !in Live(heap)
    ensures Holding(g, h0, blocks + [b])
  {
  }

  lemma HoldingLess(heap: Heap, h0: Heap, blocks: seq<Block>, g: Heap)
    requires Holding(heap, h0, blocks) && blocks != [] && Live(g) == Live(heap) - {blocks[0]}
    ensures Holding(g, h0, blocks[1..])
  {
  }

  ghost predicate Tidy(h: Heap, roots: set<Block>) {
    WellFormed(h, roots) && Canonical(h, roots)
  }

  /** With nothing held any more the live blocks are those from before, and so is the forest if both are canonical. */
  lemma HoldingNothing(heap: Heap, h0: Heap, roots: set<Block>)
    requires Holding(heap, h0, [])
    ensures Live(heap) == Live(h0)
    ensures Tidy(heap, roots) && Tidy(h0, roots) ==> heap == h0
  {
    assert Live(heap) == Live(h0);
    if Tidy(heap, roots) && Tidy(h0, roots) {
      SameLiveSameForest(heap, h0, roots);
    }
  }

  lemma StartsDiffer(h: Heap, roots: set<Block>, b: Block, c: Block)
    requires WellFormed(h, roots) && b in Live(h) && c in Live(h) && Start(b) == Start(c)
    ensures b == c
  {
    LiveBlocksApart(h, roots, b, c, Start(b));
  }

  /** Blocks that were not live when the pool's memory was reserved are not the pool's. */
  lemma NotThePools(heap: Buddy, h0: Heap, blocks: seq<Block>)
    requires heap.Valid() && heap.poolReserved && Holding(heap.heap, h0, blocks)
    requires forall d <- heap.pool.donated :: PoolBlock(h0, d)
    ensures forall b <- blocks :: Start(b) !in heap.pool.donated
  {
    forall b | b in blocks && Start(b) in heap.pool.donated
      ensures false
    {
      var c :| c in h0 && h0[c] == Used && Start(c) == Start(b);
      assert c in Live(h0);
      StartsDiffer(heap.heap, heap.roots, b, c);
    }
  }

  lemma ValidFacts(heap: Buddy)
    requires heap.Valid()
    ensures WellFormed(heap.heap, heap.roots)
    ensures heap.poolReserved ==> forall d <- heap.pool.donated :: PoolBlock(heap.heap, d)
  {
  }

  // ---------------------------------------------------------------- cuts in vain

  /** An allocation of order k fails, and yet there are structs to cut a block with. */
  predicate InVain(c: Counts, structs: nat, k: nat) {
    structs >= 2 && Short(c, structs, k)
  }

  /** None of n allocations of order k cuts a block in vain. */
  predicate NoneInVain(c: Counts, structs: nat, k: nat, n: nat)
    decreases n
  {
    n == 0 || (!InVain(c, structs, k) &&
      var t := KmallocTally(c, structs, k);
      NoneInVain(t.counts, t.structs, k, n - 1))
  }

  /** Neither does the allocation for the pointers nor, if it succeeds, any of those for the blocks. */
  predicate Undisturbed(c: Counts, structs: nat, blockSize: nat, numberBlocks: nat) {
    var k := OrderOf(8 * numberBlocks, false);
    !InVain(c, structs, k) &&
    var t := KmallocTally(c, structs, k);
    t.taken.Some? ==> NoneInVain(t.counts, t.structs, OrderOf(blockSize, false), numberBlocks)
  }

  /** The two halves of p are both free, though p is split. */
  ghost predicate FreeHalves(h: Heap, p: Block) {
    && p in h && h[p] == Split && p.order > 0 && Left(p) in h && Right(p) in h
    && h[Left(p)] == Status.Free && h[Right(p)] == Status.Free
  }

  ghost predicate StaysCut(h: Heap) {
    exists p :: FreeHalves(h, p)
  }

  lemma CutIsNotTidy(h: Heap, roots: set<Block>)
    ensures StaysCut(h) ==> !Tidy(h, roots)
  {
  }

  /** Where the structs run short the forest is cut: the lowest block that was split has two free halves, and the same
      request runs short again. */
  lemma ForestStaysCut(h: Heap, roots: set<Block>, k: nat, c: Block, structs: nat)
    requires WellFormed(h, roots) && SmallestFit(h, k, c) && 2 <= structs < 2 * (c.order - k)
    ensures var g := SplitDown(h, c, c.order - structs / 2);
      && WellFormed(g, roots) && Live(g) == Live(h) && g != h && !Canonical(g, roots)
      && StaysCut(g) && RunsShort(g, k, structs % 2)
  {
    var r: nat := c.order - structs / 2;
    var g, p := SplitDown(h, c, r), First(c, r + 1);
    SplitDownKeeps(h, roots, c, r);
    SplitDownKeeps(h, roots, c, r + 1);
    hide WellFormed;
    HalvesMade(SplitDown(h, c, r + 1), p);
    LowerStruct(h, roots, c, r);
    assert FreeHalves(g, p);
    StillShort(h, roots, k, c, r, structs % 2);
    CutIsNotTidy(g, roots);
  }

  lemma HalvesMade(h: Heap, p: Block)
    requires p.order > 0
    ensures FreeHalves(SplitOne(h, p), p)
  {
  }

  lemma LowerStruct(h: Heap, roots: set<Block>, c: Block, r: nat)
    requires WellFormed(h, roots) && c in h && h[c] == Status.Free && r < c.order
    ensures SplitDown(h, c, r) != h
  {
    hide WellFormed;
    HighHalfStays(h, roots, c, r);
    SplitOneKeeps(h, roots, c);
  }

  lemma StillShort(h: Heap, roots: set<Block>, k: nat, c: Block, r: nat, left: nat)
    requires WellFormed(h, roots) && SmallestFit(h, k, c) && k < r <= c.order && left < 2
    ensures RunsShort(SplitDown(h, c, r), k, left)
  {
    var g := SplitDown(h, c, r);
    SplitDownKeeps(h, roots, c, r);
    hide WellFormed;
    forall d | d in g && g[d] == Status.Free && d.order >= k
      ensures d.order >= r
    {
      SplitDownFree(h, c, r, d);
    }
    assert SmallestFit(g, k, First(c, r));
  }

  /** Merging does not reach two free halves of another block. */
  lemma {:induction false} HalvesStay(h: Heap, roots: set<Block>, b: Block, p: Block)
    requires WellFormed(h, roots) && b in h && h[b] == Status.Free && FreeHalves(h, p) && p != Parent(b)
    ensures FreeHalves(MergeUp(h, b), p)
    decreases MAX_ORDER - b.order
  {
    if b.order < MAX_ORDER {
      var q := Parent(b);
      HalfOfParent(b);
      if h[Left(q)] == Status.Free && h[Right(q)] == Status.Free {
        JoinKeeps(h, roots, q);
        HalvesStay(Join(h, q), roots, q, p);
      }
    }
  }

  /** A release leaves the two free halves of any block free. */
  lemma ReleaseLeavesCut(h: Heap, roots: set<Block>, b: Block)
    requires WellFormed(h, roots) && b in Live(h)
    ensures StaysCut(h) ==> StaysCut(Release(h, b))
  {
    if p :| FreeHalves(h, p) {
      MarkKeeps(h, roots, b, Status.Free);
      HalfOfParent(b);
      HalvesStay(h[b := Status.Free], roots, b, p);
    }
  }

  lemma TidyStays(h: Heap, roots: set<Block>, k: nat, b: Block, g: Heap)
    requires WellFormed(h, roots) && Allocates(h, k, b, g)
    ensures Tidy(h, roots) ==> Tidy(g, roots)
  {
    if Tidy(h, roots) {
      AllocationStaysCanonical(h, roots, k, b, g);
    }
  }

  /** An allocation that fails is short, or finds nothing to cut and changes nothing. */
  lemma FailedAllocation(h: Heap, roots: set<Block>, k: nat, c: Block, structs: nat, g: Heap, left: nat)
    requires WellFormed(h, roots)
    requires !Fits(h, k) ==> g == h && left == structs
    requires Fits(h, k) ==> SmallestFit(h, k, c) && c.order <= MAX_ORDER && structs < 2 * (c.order - k)
    requires Fits(h, k) ==> g == SplitDown(h, c, c.order - structs / 2) && left == structs % 2
    ensures Short(CountsOf(h), structs, k) <==> RunsShort(h, k, structs)
    ensures InVain(CountsOf(h), structs, k) ==> StaysCut(g) && RunsShort(g, k, left) && left < 2
    ensures !InVain(CountsOf(h), structs, k) ==> g == h && left == structs
  {
    hide CountsOf, WellFormed, StaysCut, SmallestFit, Short;
    ShortIs(h, roots, k, structs);
    if Fits(h, k) {
      RunsShortBy(h, k, structs, c);
      if structs >= 2 {
        ForestStaysCut(h, roots, k, c, structs);
      }
    } else {
      NothingToCut(h, k, structs);
    }
  }

  // ---------------------------------------------------------------- the calls of the test

  /** kmalloc and the forest: the heap gains one live block or none, and unless a block is cut in vain it stays
      canonical. After a cut in vain requests of the same order fail and change nothing. */
  method Allocate(heap: Buddy, size: nat) returns (addr: nat, ghost b: Block)
    requires heap.Valid() && size <= MAX_REQUEST
    modifies heap, heap.pool
    ensures heap.Valid() && heap.roots == old(heap.roots) && heap.pool == old(heap.pool)
    ensures heap.pool.donated == old(heap.pool.donated) && heap.poolReserved == old(heap.poolReserved)
    ensures addr == 0 ==> Live(heap.heap) == old(Live(heap.heap))
    ensures addr != 0 ==>
      addr == Start(b) && Live(heap.heap) == old(Live(heap.heap)) + {b} && b !in old(Live(heap.heap))
    ensures KmallocTally(CountsOf(old(heap.heap)), old(heap.pool.freeObjects), OrderOf(size, false))
      == Told(heap.heap, addr, OrderOf(size, false), heap.pool.freeObjects)
    ensures AllocatedOrNot(old(heap.heap), heap.roots, old(heap.pool.freeObjects), OrderOf(size, false), heap.heap,
      heap.pool.freeObjects)
  {
    hide Buddy.Valid, WellFormed, Tidy, Start, Bytes, AllocatesFrom, Live, IsOrderFor, SmallestFit, SplitDown, Fits,
      CountsOf, KmallocTally, OrderOf, InVain, StaysCut, RunsShort, Missing, AllocatedOrNot;
    ghost var h, structs := heap.heap, heap.pool.freeObjects;
    ghost var k, from;
    ValidFacts(heap);
    addr, k, b, from := heap.Kmalloc(size, false);
    OrderOfIs(size, false, k);
    KmallocCounts(h, heap.roots, structs, k, addr, from, b, heap.heap, heap.pool.freeObjects);
    ValidFacts(heap);
    if addr != 0 {
      assert Allocates(old(heap.heap), k, b, heap.heap);
      AllocationKeeps(old(heap.heap), heap.roots, k, b, heap.heap);
      AllocatedWell(h, heap.roots, structs, k, from, b, heap.heap, heap.pool.freeObjects);
    } else {
      FailedWell(h, heap.roots, structs, k, from, heap.heap, heap.pool.freeObjects);
    }
  }

  /** What an allocation does to the form of the heap and to its structs. */
  ghost predicate AllocatedOrNot(h: Heap, roots: set<Block>, structs: nat, k: nat, g: Heap, left: nat) {
    && (if InVain(CountsOf(h), structs, k) then StaysCut(g) && RunsShort(g, k, left) && left < 2
        else Tidy(h, roots) ==> Tidy(g, roots))
    && (RunsShort(h, k, structs) && structs < 2 ==> g == h && left == structs)
    && (structs >= Missing(h) ==> !InVain(CountsOf(h), structs, k) && left - Missing(g) >= structs - Missing(h) - 2)
  }

  lemma AllocatedWell(h: Heap, roots: set<Block>, structs: nat, k: nat, c: Block, b: Block, g: Heap, left: nat)
    requires WellFormed(h, roots) && AllocatesFrom(h, k, c, b, g) && structs >= 2 * (c.order - k)
    requires left == structs - 2 * (c.order - k)
    ensures AllocatedOrNot(h, roots, structs, k, g, left)
  {
    hide WellFormed, AllocatesFrom, Tidy, CountsOf, StaysCut, SmallestFit, Missing;
    CutFits(h, k, c, b, g);
    RunsShortBy(h, k, structs, c);
    ShortIs(h, roots, k, structs);
    AllocationCredit(h, roots, k, c, b, g);
    assert Allocates(h, k, b, g);
    TidyStays(h, roots, k, b, g);
  }

  lemma FailedWell(h: Heap, roots: set<Block>, structs: nat, k: nat, c: Block, g: Heap, left: nat)
    requires WellFormed(h, roots)
    requires !Fits(h, k) ==> g == h && left == structs
    requires Fits(h, k) ==> SmallestFit(h, k, c) && c.order <= MAX_ORDER && structs < 2 * (c.order - k)
    requires Fits(h, k) ==> g == SplitDown(h, c, c.order - structs / 2) && left == structs % 2
    ensures AllocatedOrNot(h, roots, structs, k, g, left)
  {
    hide WellFormed, Fits, SmallestFit, Tidy, CountsOf, StaysCut, Missing, SplitDown, RunsShort, Short;
    FailedAllocation(h, roots, k, c, structs, g, left);
    if structs >= Missing(h) {
      Affordable(h, roots, k, structs);
    }
  }

  lemma TidyAfterRelease(h: Heap, roots: set<Block>, b: Block)
    requires WellFormed(h, roots) && b in Live(h)
    ensures Tidy(h, roots) ==> Tidy(Release(h, b), roots)
    ensures Live(Release(h, b)) == Live(h) - {b}
    ensures StaysCut(h) ==> StaysCut(Release(h, b))
  {
    ReleaseKeeps(h, roots, b);
    ReleaseLeavesCut(h, roots, b);
  }

  /** free of a block that is held. */
  method Free(heap: Buddy, addr: nat, ghost b: Block)
    requires heap.Valid() && b in Live(heap.heap) && addr == Start(b) && addr !in heap.pool.donated
    modifies heap, heap.pool
    ensures heap.Valid() && heap.roots == old(heap.roots) && heap.pool == old(heap.pool)
    ensures heap.pool.donated == old(heap.pool.donated) && heap.poolReserved == old(heap.poolReserved)
    ensures Live(heap.heap) == old(Live(heap.heap)) - {b}
    ensures Tidy(old(heap.heap), heap.roots) ==> Tidy(heap.heap, heap.roots)
    ensures StaysCut(old(heap.heap)) ==> StaysCut(heap.heap)
  {
    hide Buddy.Valid, WellFormed, Tidy, Start, Bytes, MergeUp, StaysCut;
    ValidFacts(heap);
    var err;
    ghost var c;
    err, c := heap.TryFree(addr);
    assert old(heap.heap)[b] == Used;
    StartsDiffer(old(heap.heap), heap.roots, b, c);
    TidyAfterRelease(old(heap.heap), heap.roots, b);
  }

  lemma HoldingStart(h: Heap)
    ensures Holding(h, h, [])
  {
  }

  /** The pointers that are not null are the starts of the blocks, in order. */
  ghost predicate Points(pointers: seq<nat>, blocks: seq<Block>) {
    if pointers == [] then blocks == []
    else if pointers[0] == 0 then Points(pointers[1..], blocks)
    else blocks != [] && Start(blocks[0]) == pointers[0] && Points(pointers[1..], blocks[1..])
  }

  lemma {:induction false} PointsMore(pointers: seq<nat>, blocks: seq<Block>, addr: nat, b: Block)
    requires Points(pointers, blocks) && (addr != 0 ==> Start(b) == addr)
    ensures Points(pointers + [addr], if addr == 0 then blocks else blocks + [b])
  {
    if pointers == [] {
    } else {
      assert (pointers + [addr])[1..] == pointers[1..] + [addr];
      if pointers[0] == 0 {
        PointsMore(pointers[1..], blocks, addr, b);
      } else {
        PointsMore(pointers[1..], blocks[1..], addr, b);
        assert (blocks + [b])[1..] == blocks[1..] + [b];
      }
    }
  }

  lemma PointsNext(pointers: seq<nat>, blocks: seq<Block>)
    requires Points(pointers, blocks) && pointers != []
    ensures pointers[0] == 0 ==> Points(pointers[1..], blocks)
    ensures pointers[0] != 0 ==> blocks != [] && Start(blocks[0]) == pointers[0] && Points(pointers[1..], blocks[1..])
  {
  }

  lemma HeldIsLive(heap: Heap, h0: Heap, blocks: seq<Block>)
    requires Holding(heap, h0, blocks)
    ensures forall b <- blocks :: b in Live(heap)
  {
  }

  /** The numbers and the form of the heap after the first of n allocations, in which a block may have been cut in
      vain. */
  ghost predicate Along(h0: Heap, roots: set<Block>, s0: nat, k: nat, n: nat, h: Heap, structs: nat, rest: nat,
      vain: bool) {
    && (if vain then !NoneInVain(CountsOf(h0), s0, k, n) && StaysCut(h) && RunsShort(h, k, structs) && structs < 2
        else NoneInVain(CountsOf(h0), s0, k, n) <==> NoneInVain(CountsOf(h), structs, k, rest))
    && (!vain && Tidy(h0, roots) ==> Tidy(h, roots))
    && (s0 >= Missing(h0) + 2 * n ==> !vain && structs >= Missing(h) + 2 * rest)
  }

  lemma AlongAtStart(h: Heap, roots: set<Block>, structs: nat, k: nat, n: nat)
    ensures Along(h, roots, structs, k, n, h, structs, n, false)
  {
  }

  lemma AlongNext(h0: Heap, roots: set<Block>, s0: nat, k: nat, n: nat, h: Heap, structs: nat, rest: nat, vain: bool,
      addr: nat, g: Heap, left: nat)
    requires Along(h0, roots, s0, k, n, h, structs, rest, vain) && rest > 0
    requires KmallocTally(CountsOf(h), structs, k) == Told(g, addr, k, left)
    requires AllocatedOrNot(h, roots, structs, k, g, left)
    ensures Along(h0, roots, s0, k, n, g, left, rest - 1, vain || InVain(CountsOf(h), structs, k))
  {
    hide Tidy, CountsOf, StaysCut, RunsShort, Missing, KmallocTally, InVain;
  }

  lemma AlongAtEnd(h0: Heap, roots: set<Block>, s0: nat, k: nat, n: nat, h: Heap, structs: nat, vain: bool)
    requires Along(h0, roots, s0, k, n, h, structs, 0, vain)
    ensures if NoneInVain(CountsOf(h0), s0, k, n) then Tidy(h0, roots) ==> Tidy(h, roots) else StaysCut(h)
    ensures s0 >= Missing(h0) + 2 * n ==> NoneInVain(CountsOf(h0), s0, k, n)
  {
  }

  /** Allocates the blocks; a null pointer stands for an allocation that failed. */
  method AllocateAll(heap: Buddy, blockSize: nat, pointers: array<nat>) returns (ghost held: seq<Block>)
    requires heap.Valid() && blockSize <= MAX_REQUEST
    modifies heap, heap.pool, pointers
    ensures heap.Valid() && heap.roots == old(heap.roots) && heap.pool == old(heap.pool)
    ensures heap.pool.donated == old(heap.pool.donated) && heap.poolReserved == old(heap.poolReserved)
    ensures Holding(heap.heap, old(heap.heap), held) && Points(pointers[..], held)
    ensures
      if NoneInVain(CountsOf(old(heap.heap)), old(heap.pool.freeObjects), OrderOf(blockSize, false), pointers.Length)
      then Tidy(old(heap.heap), heap.roots) ==> Tidy(heap.heap, heap.roots)
      else StaysCut(heap.heap)
    ensures old(heap.pool.freeObjects >= Missing(heap.heap) + 2 * pointers.Length) ==>
      NoneInVain(CountsOf(old(heap.heap)), old(heap.pool.freeObjects), OrderOf(blockSize, false), pointers.Length)
  {
    hide Buddy.Valid, Tidy, Start, Bytes, Live, Holding, Points, Along, AllocatedOrNot, OrderOf, KmallocTally, CountsOf,
      StaysCut, NoneInVain, Missing, InVain;
    ghost var h0, s0, k, n := heap.heap, heap.pool.freeObjects, OrderOf(blockSize, false), pointers.Length;
    HoldingStart(h0);
    AlongAtStart(h0, heap.roots, s0, k, n);
    held := [];
    NoPointers();
    ghost var vain := false;
    var i := 0;
    while i < pointers.Length
      invariant i <= pointers.Length && heap.Valid() && heap.roots == old(heap.roots) && heap.pool == old(heap.pool)
      invariant heap.pool.donated == old(heap.pool.donated) && heap.poolReserved == old(heap.poolReserved)
      invariant Along(h0, heap.roots, s0, k, n, heap.heap, heap.pool.freeObjects, n - i, vain)
      invariant Holding(heap.heap, h0, held) && Points(pointers[..i], held)
    {
      ghost var b, before, structs;
      before, structs := heap.heap, heap.pool.freeObjects;
      var addr;
      addr, b := Allocate(heap, blockSize);
      AlongNext(h0, heap.roots, s0, k, n, before, structs, n - i, vain, addr, heap.heap, heap.pool.freeObjects);
      vain := vain || InVain(CountsOf(before), structs, k);
      PointsMore(pointers[..i], held, addr, b);
      if addr != 0 {
        HoldingMore(before, h0, held, heap.heap, b);
        held := held + [b];
      } else {
        HoldingSame(before, h0, held, heap.heap);
      }
      pointers[i] := addr;
      i := i + 1;
      assert pointers[..i] == pointers[..i - 1] + [addr];
    }
    assert pointers[..i] == pointers[..];
    AlongAtEnd(h0, heap.roots, s0, k, n, heap.heap, heap.pool.freeObjects, vain);
  }

  lemma HoldingSame(heap: Heap, h0: Heap, blocks: seq<Block>, g: Heap)
    requires Holding(heap, h0, blocks) && Live(g) == Live(heap)
    ensures Holding(g, h0, blocks)
  {
  }

  lemma NoPointers()
    ensures Points([], [])
  {
  }

  /** Frees the blocks; afterwards the live blocks are those from before they were allocated. */
  method FreeAll(heap: Buddy, pointers: array<nat>, ghost h0: Heap, ghost blocks: seq<Block>)
    requires heap.Valid() && Holding(heap.heap, h0, blocks) && Points(pointers[..], blocks)
    requires heap.poolReserved && forall d <- heap.pool.donated :: PoolBlock(h0, d)
    modifies heap, heap.pool
    ensures heap.Valid() && Live(heap.heap) == Live(h0) && heap.roots == old(heap.roots) && heap.pool == old(heap.pool)
    ensures heap.pool.donated == old(heap.pool.donated) && heap.poolReserved
    ensures Tidy(old(heap.heap), heap.roots) ==> Tidy(heap.heap, heap.roots)
    ensures StaysCut(old(heap.heap)) ==> StaysCut(heap.heap)
  {
    hide Buddy.Valid, Tidy, Start, Bytes, Live, Holding, Points, PoolBlock, StaysCut;
    ghost var held := blocks;
    assert pointers[0..] == pointers[..];
    var i := 0;
    while i < pointers.Length
      invariant i <= pointers.Length && heap.Valid() && heap.roots == old(heap.roots) && heap.pool == old(heap.pool)
      invariant heap.pool.donated == old(heap.pool.donated) && heap.poolReserved
      invariant Tidy(old(heap.heap), heap.roots) ==> Tidy(heap.heap, heap.roots)
      invariant StaysCut(old(heap.heap)) ==> StaysCut(heap.heap)
      invariant Holding(heap.heap, h0, held) && Points(pointers[i..], held)
    {
      PointsNext(pointers[i..], held);
      assert pointers[i..][1..] == pointers[i + 1..];
      if pointers[i] != 0 {
        ghost var before := heap.heap;
        NotThePools(heap, h0, held);
        HeldIsLive(before, h0, held);
        Free(heap, pointers[i], held[0]);
        HoldingLess(before, h0, held, heap.heap);
        held := held[1..];
      }
      i := i + 1;
    }
    NothingPointed(pointers[i..], held);
    HoldingNothing(heap.heap, h0, heap.roots);
  }

  lemma NothingPointed(pointers: seq<nat>, blocks: seq<Block>)
    requires Points(pointers, blocks) && pointers == []
    ensures blocks == []
  {
  }

  lemma FirstAllocation(h: Heap, roots: set<Block>, structs: nat, k: nat, addr: nat, g: Heap, left: nat)
    requires AllocatedOrNot(h, roots, structs, k, g, left)
    requires KmallocTally(CountsOf(h), structs, k) == Told(g, addr, k, left)
    ensures addr != 0 ==> !InVain(CountsOf(h), structs, k)
    ensures if InVain(CountsOf(h), structs, k) then StaysCut(g) else Tidy(h, roots) ==> Tidy(g, roots)
    ensures structs >= Missing(h) ==>
      !InVain(CountsOf(h), structs, k) && left - Missing(g) >= structs - Missing(h) - 2
  {
  }

  /** test_create_and_free: afterwards the live blocks are those from before, whatever was allocated in between and even
      if some of the allocations failed. The forest is the one from before exactly if no allocation cut a block in vain,
      which the numbers of free blocks and structs decide before the test; two structs for each allocation, besides
      those for the orders that are missing, always suffice. */
  method CreateAndFree(heap: Buddy, blockSize: nat, numberBlocks: nat) returns (err: nat)
    requires heap.Valid() && heap.poolReserved
    requires blockSize <= MAX_REQUEST && 8 * numberBlocks <= MAX_REQUEST
    modifies heap, heap.pool
    ensures heap.Valid() && heap.poolReserved && heap.roots == old(heap.roots)
    ensures err == 1 <==> KmallocTally(CountsOf(old(heap.heap)), old(heap.pool.freeObjects),
      OrderOf(8 * numberBlocks, false)).taken == None
    ensures err <= 1 && Live(heap.heap) == old(Live(heap.heap))
    ensures Tidy(old(heap.heap), heap.roots) ==>
      (heap.heap == old(heap.heap) <==>
        Undisturbed(CountsOf(old(heap.heap)), old(heap.pool.freeObjects), blockSize, numberBlocks))
    ensures heap.heap == old(heap.heap) ==> heap.pool.freeObjects == old(heap.pool.freeObjects)
    ensures old(heap.pool.freeObjects >= Missing(heap.heap) + 2 * numberBlocks + 2) ==>
      Undisturbed(CountsOf(old(heap.heap)), old(heap.pool.freeObjects), blockSize, numberBlocks)
  {
    hide Buddy.Valid, Tidy, Start, Bytes, Live, Holding, PoolBlock, Points, CountsOf, KmallocTally, OrderOf, NoneInVain,
      StaysCut, AllocatedOrNot, Missing, InVain;
    ghost var h0, s0 := heap.heap, heap.pool.freeObjects;
    ValidFacts(heap);
    heap.FreeStructs();
    HoldingStart(h0);
    ghost var b, k;
    k := OrderOf(POINTER_SIZE * numberBlocks, false);
    var record;
    record, b := Allocate(heap, POINTER_SIZE * numberBlocks);
    FirstAllocation(h0, heap.roots, s0, k, record, heap.heap, heap.pool.freeObjects);
    if record == 0 {
      HoldingSame(h0, h0, [], heap.heap);
      HoldingNothing(heap.heap, h0, heap.roots);
      CutIsNotTidy(heap.heap, heap.roots);
      heap.FreeStructs();
      return 1;
    }
    HoldingMore(h0, h0, [], heap.heap, b);
    ghost var h1, held := heap.heap, [b];
    assert [] + [b] == held;
    ValidFacts(heap);
    var pointers := new nat[numberBlocks];
    ghost var blocks := AllocateAll(heap, blockSize, pointers);
    FreeAll(heap, pointers, h1, blocks);
    HoldingSame(h1, h0, held, heap.heap);
    NotThePools(heap, h0, held);
    HeldIsLive(heap.heap, h0, held);
    ghost var h2 := heap.heap;
    Free(heap, record, b);
    HoldingLess(h2, h0, held, heap.heap);
    HoldingNothing(heap.heap, h0, heap.roots);
    CutIsNotTidy(heap.heap, heap.roots);
    heap.FreeStructs();
    return 0;
  }
}
