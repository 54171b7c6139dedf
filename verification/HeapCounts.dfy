/** How many blocks of each order are free: which allocations succeed follows from these numbers and that of the free
    structs alone. */
module HeapCounts {
  import opened Blocks
  import opened BuddyAllocator
  import opened HeapSupply

  type Counts = c: seq<nat> | |c| == MAX_ORDER + 1 witness [0, 0, 0, 0, 0, 0, 0, 0, 0, 0, 0, 0, 0, 0]

  // ---------------------------------------------------------------- the allocator on numbers

  /** The least order from k on of which a block is free, or MAX_ORDER + 1. */
  function Smallest(c: Counts, k: nat): (o: nat)
    ensures o <= MAX_ORDER + 1
    ensures o <= MAX_ORDER ==> k <= o && c[o] > 0
    ensures forall j | k <= j < o :: c[j] == 0
    decreases MAX_ORDER + 1 - k
  {
    if k > MAX_ORDER then MAX_ORDER + 1 else if c[k] > 0 then k else Smallest(c, k + 1)
  }

  /** A block of order o becomes two of the order below. */
  function CutOne(c: Counts, o: nat): (d: Counts)
    requires 0 < o <= MAX_ORDER && c[o] > 0
    ensures d[o - 1] > 0
    ensures forall j | 0 <= j < o - 1 :: d[j] == c[j]
  {
    c[o := c[o] - 1][o - 1 := c[o - 1] + 2]
  }

  /** A block of order o is cut down to order r. */
  function CutDown(c: Counts, o: nat, r: nat): (d: Counts)
    requires r <= o <= MAX_ORDER && c[o] > 0
    ensures d[r] > 0
    ensures forall j | 0 <= j < r :: d[j] == c[j]
    decreases o - r
  {
    if r == o then c else CutOne(CutDown(c, o, r + 1), r + 1)
  }

  function Without(c: Counts, k: nat): (d: Counts)
    requires k <= MAX_ORDER && c[k] > 0
  {
    c[k := c[k] - 1]
  }

  /** The order of the block that was allocated, or None, and what is left. */
  datatype Tally = Tally(taken: Taken, counts: Counts, structs: nat)

  datatype Taken = None | Some(order: nat)

  /** A block of order k cannot be cut for lack of structs. */
  predicate Short(c: Counts, structs: nat, k: nat) {
    Smallest(c, k) <= MAX_ORDER && structs < 2 * (Smallest(c, k) - k)
  }

  /** The structs there are go into a block that is cut in vain. */
  function CutInVain(c: Counts, structs: nat, k: nat): (d: Counts)
    requires Short(c, structs, k)
    ensures forall j | 0 <= j <= k && j <= MAX_ORDER :: d[j] == c[j]
  {
    CutDown(c, Smallest(c, k), Smallest(c, k) - structs / 2)
  }

  /** kmalloc of a block of order k */
  function KmallocTally(c: Counts, structs: nat, k: nat): Tally {
    var o := Smallest(c, k);
    if o > MAX_ORDER then Tally(None, c, structs)
    else if Short(c, structs, k) then Tally(None, CutInVain(c, structs, k), structs % 2)
    else Tally(Some(k), Without(CutDown(c, o, k), k), structs - 2 * (o - k))
  }

  /** The largest order below k, and above 0, of which a block is free, or 0. */
  function LargestBelow(c: Counts, k: nat): (j: nat)
    ensures j > 0 ==> j < k && j <= MAX_ORDER && c[j] > 0
    ensures forall i | j < i < k && i <= MAX_ORDER :: c[i] == 0
    decreases k
  {
    if k <= 1 then 0 else if k - 1 <= MAX_ORDER && c[k - 1] > 0 then k - 1 else LargestBelow(c, k - 1)
  }

  function TakeWhole(c: Counts, structs: nat, k: nat): Tally {
    var j := LargestBelow(c, k);
    if j == 0 then Tally(None, c, structs) else Tally(Some(j), Without(c, j), structs)
  }

  /** kmalloc_largest_available for a request of order k */
  function LargestTally(c: Counts, structs: nat, k: nat): Tally {
    if k == 0 then Tally(None, c, structs)
    else if Smallest(c, k) > MAX_ORDER then TakeWhole(c, structs, k)
    else if Short(c, structs, k) then TakeWhole(CutInVain(c, structs, k), structs % 2, k)
    else KmallocTally(c, structs, k)
  }

  /** A round of vmalloc_reallocate for a request of order k: the largest block available and two records. */
  function RoundTally(c: Counts, structs: nat, k: nat): Tally {
    var chunk := LargestTally(c, structs, k);
    if chunk.taken.None? then chunk else
    var first := KmallocTally(chunk.counts, chunk.structs, 0);
    if first.taken.None? then first else
    var second := KmallocTally(first.counts, first.structs, 0);
    if second.taken.None? then second else Tally(chunk.taken, second.counts, second.structs)
  }

  // ---------------------------------------------------------------- numbers of a heap

  ghost function FreeOf(h: Heap, o: nat): set<Block> {
    set d <- h | h[d] == Free && d.order == o
  }

  ghost function CountsOf(h: Heap): Counts {
    seq(MAX_ORDER + 1, o requires 0 <= o <= MAX_ORDER => |FreeOf(h, o)|)
  }

  lemma Counted(h: Heap, d: Block)
    requires d in h && h[d] == Free && d.order <= MAX_ORDER
    ensures CountsOf(h)[d.order] > 0
  {
    assert d in FreeOf(h, d.order);
  }

  lemma CountedBack(h: Heap, o: nat) returns (d: Block)
    requires o <= MAX_ORDER && CountsOf(h)[o] > 0
    ensures d in h && h[d] == Free && d.order == o
  {
    d :| d in FreeOf(h, o);
  }

  lemma SmallestIs(h: Heap, k: nat, c: Block)
    requires SmallestFit(h, k, c) && c.order <= MAX_ORDER
    ensures Smallest(CountsOf(h), k) == c.order
  {
    Counted(h, c);
    var o := Smallest(CountsOf(h), k);
    if o < c.order {
      var d := CountedBack(h, o);
    }
  }

  lemma NoneFits(h: Heap, roots: set<Block>, k: nat)
    requires WellFormed(h, roots)
    ensures Fits(h, k) <==> Smallest(CountsOf(h), k) <= MAX_ORDER
  {
    if d :| d in h && h[d] == Free && d.order >= k {
      Counted(h, d);
    }
    var o := Smallest(CountsOf(h), k);
    if o <= MAX_ORDER {
      var d := CountedBack(h, o);
    }
  }

  lemma SmallestBack(h: Heap, k: nat) returns (c: Block)
    requires Smallest(CountsOf(h), k) <= MAX_ORDER && forall d <- h :: d.order <= MAX_ORDER
    ensures SmallestFit(h, k, c) && c.order <= MAX_ORDER
  {
    c := CountedBack(h, Smallest(CountsOf(h), k));
    forall d | d in h && h[d] == Free && d.order >= k
      ensures d.order >= c.order
    {
      Counted(h, d);
    }
  }

  /** Whether the structs run short can be told from the numbers. */
  lemma ShortIs(h: Heap, roots: set<Block>, k: nat, structs: nat)
    requires WellFormed(h, roots)
    ensures Short(CountsOf(h), structs, k) <==> RunsShort(h, k, structs)
  {
    NoneFits(h, roots, k);
    if Smallest(CountsOf(h), k) <= MAX_ORDER {
      var c := SmallestBack(h, k);
      SmallestIs(h, k, c);
      RunsShortBy(h, k, structs, c);
    } else {
      NothingToCut(h, k, structs);
    }
  }

  lemma SameCounts(c: Counts, d: Counts)
    requires forall o | 0 <= o <= MAX_ORDER :: c[o] == d[o]
    ensures c == d
  {
  }

  lemma SplitOneFree(h: Heap, b: Block)
    requires b in h && h[b] == Free && b.order > 0 && Left(b) !in h && Right(b) !in h
    ensures FreeOf(SplitOne(h, b), b.order) == FreeOf(h, b.order) - {b}
    ensures FreeOf(SplitOne(h, b), b.order - 1) == FreeOf(h, b.order - 1) + {Left(b), Right(b)}
    ensures forall i: nat | i != b.order && i != b.order - 1 :: FreeOf(SplitOne(h, b), i) == FreeOf(h, i)
  {
    forall i: nat | i != b.order && i != b.order - 1
      ensures FreeOf(SplitOne(h, b), i) == FreeOf(h, i)
    {
    }
  }

  lemma SplitOneCounts(h: Heap, roots: set<Block>, b: Block)
    requires WellFormed(h, roots) && b in h && h[b] == Free && 0 < b.order <= MAX_ORDER
    ensures var c := CountsOf(h);
      c[b.order] > 0 && CountsOf(SplitOne(h, b)) == CutOne(c, b.order)
  {
    var g, o := SplitOne(h, b), b.order;
    Counted(h, b);
    SplitOneKeeps(h, roots, b);
    SplitOneFree(h, b);
    assert b in FreeOf(h, o) && Left(b) !in FreeOf(h, o - 1) && Right(b) !in FreeOf(h, o - 1) && Left(b) != Right(b);
    hide WellFormed, FreeOf, SplitOne;
    var c := CountsOf(h);
    SameCounts(CountsOf(g), CutOne(c, o));
  }

  lemma {:induction false} SplitDownCounts(h: Heap, roots: set<Block>, b: Block, k: nat)
    requires WellFormed(h, roots) && b in h && h[b] == Free && k <= b.order <= MAX_ORDER
    ensures CountsOf(h)[b.order] > 0 && CountsOf(SplitDown(h, b, k)) == CutDown(CountsOf(h), b.order, k)
    decreases b.order - k
  {
    Counted(h, b);
    if k < b.order {
      hide WellFormed, CountsOf, SplitOne, CutOne;
      SplitDownCounts(h, roots, b, k + 1);
      SplitDownKeeps(h, roots, b, k + 1);
      SplitOneCounts(SplitDown(h, b, k + 1), roots, First(b, k + 1));
    }
  }

  /** What a cut adds to the number of order j: it leaves one half of each order passed, and two of the last. */
  function CutAdds(o: nat, r: nat, j: nat): int {
    if r == o then 0 else if j == o then -1 else if j == r then 2 else if r < j < o then 1 else 0
  }

  lemma {:induction false} CutDownAdds(c: Counts, o: nat, r: nat, j: nat)
    requires r <= o <= MAX_ORDER && c[o] > 0 && j <= MAX_ORDER
    ensures CutDown(c, o, r)[j] == c[j] + CutAdds(o, r, j)
    decreases o - r
  {
    if r < o {
      CutDownAdds(c, o, r + 1, j);
    }
  }

  lemma CutCounts(h: Heap, roots: set<Block>, b: Block, k: nat, j: nat)
    requires WellFormed(h, roots) && b in h && h[b] == Free && k <= b.order <= MAX_ORDER && j <= MAX_ORDER
    ensures CountsOf(SplitDown(h, b, k))[j] == CountsOf(h)[j] + CutAdds(b.order, k, j)
  {
    hide WellFormed, CountsOf, SplitDown;
    SplitDownCounts(h, roots, b, k);
    CutDownAdds(CountsOf(h), b.order, k, j);
  }

  lemma UsedCounts(h: Heap, b: Block)
    requires b in h && h[b] == Free && b.order <= MAX_ORDER
    ensures CountsOf(h)[b.order] > 0 && CountsOf(h[b := Used]) == Without(CountsOf(h), b.order)
  {
    var g := h[b := Used];
    Counted(h, b);
    assert FreeOf(g, b.order) == FreeOf(h, b.order) - {b};
    forall i: nat | i <= MAX_ORDER && i != b.order
      ensures FreeOf(g, i) == FreeOf(h, i)
    {
    }
    SameCounts(CountsOf(g), Without(CountsOf(h), b.order));
  }

  lemma AllocationCounts(h: Heap, roots: set<Block>, k: nat, c: Block, b: Block, g: Heap)
    requires WellFormed(h, roots) && AllocatesFrom(h, k, c, b, g)
    ensures c.order <= MAX_ORDER && Smallest(CountsOf(h), k) == c.order
    ensures CountsOf(g) == Without(CutDown(CountsOf(h), c.order, k), k)
  {
    SmallestIs(h, k, c);
    SplitDownCounts(h, roots, c, k);
    SplitDownKeeps(h, roots, c, k);
    UsedCounts(SplitDown(h, c, k), b);
  }

  // ---------------------------------------------------------------- the allocator refines the numbers

  lemma KmallocTaken(h: Heap, roots: set<Block>, structs: nat, k: nat, c: Block, b: Block, g: Heap, left: nat)
    requires WellFormed(h, roots) && AllocatesFrom(h, k, c, b, g) && structs >= 2 * (c.order - k)
    requires left == structs - 2 * (c.order - k)
    ensures KmallocTally(CountsOf(h), structs, k) == Tally(Some(k), CountsOf(g), left)
  {
    hide CountsOf, WellFormed, AllocatesFrom;
    AllocationCounts(h, roots, k, c, b, g);
  }

  lemma KmallocNone(h: Heap, roots: set<Block>, structs: nat, k: nat)
    requires WellFormed(h, roots) && !Fits(h, k)
    ensures KmallocTally(CountsOf(h), structs, k) == Tally(None, CountsOf(h), structs)
  {
    NoneFits(h, roots, k);
  }

  lemma ShortCounts(h: Heap, roots: set<Block>, structs: nat, k: nat, c: Block)
    requires WellFormed(h, roots) && SmallestFit(h, k, c) && c.order <= MAX_ORDER && structs < 2 * (c.order - k)
    ensures Short(CountsOf(h), structs, k) && structs / 2 <= c.order
    ensures CutInVain(CountsOf(h), structs, k) == CountsOf(SplitDown(h, c, c.order - structs / 2))
  {
    hide CountsOf, WellFormed, CutDown, SplitDown;
    SmallestIs(h, k, c);
    SplitDownCounts(h, roots, c, c.order - structs / 2);
  }

  ghost function Told(h: Heap, addr: nat, o: nat, structs: nat): Tally {
    Tally(if addr == 0 then None else Some(o), CountsOf(h), structs)
  }

  /** What kmalloc does to a heap, KmallocTally does to its numbers. */
  lemma KmallocCounts(h: Heap, roots: set<Block>, structs: nat, k: nat, addr: nat, c: Block, b: Block, g: Heap,
      left: nat)
    requires WellFormed(h, roots)
    requires !Fits(h, k) ==> addr == 0 && g == h && left == structs
    requires Fits(h, k) ==> SmallestFit(h, k, c) && k <= c.order <= MAX_ORDER
    requires Fits(h, k) ==> (addr != 0 <==> structs >= 2 * (c.order - k))
    requires addr != 0 ==> AllocatesFrom(h, k, c, b, g) && left == structs - 2 * (c.order - k)
    requires Fits(h, k) && addr == 0 ==> g == SplitDown(h, c, c.order - structs / 2) && left == structs % 2
    ensures KmallocTally(CountsOf(h), structs, k) == Told(g, addr, k, left)
  {
    hide CountsOf, WellFormed, AllocatesFrom, SmallestFit, Fits, SplitDown;
    if addr != 0 {
      KmallocTaken(h, roots, structs, k, c, b, g, left);
    } else if Fits(h, k) {
      ShortCounts(h, roots, structs, k, c);
      SmallestIs(h, k, c);
    } else {
      KmallocNone(h, roots, structs, k);
    }
  }

  // ---------------------------------------------------------------- the largest block available

  lemma LargestBelowIs(h: Heap, roots: set<Block>, k: nat, b: Block)
    requires WellFormed(h, roots) && b in h && h[b] == Free && 0 < b.order < k && NoneBetween(h, b.order, k)
    ensures LargestBelow(CountsOf(h), k) == b.order
  {
    Counted(h, b);
    var j := LargestBelow(CountsOf(h), k);
    if j > b.order {
      var d := CountedBack(h, j);
    }
  }

  lemma NoneBelow(h: Heap, k: nat)
    requires NoneBetween(h, 0, k)
    ensures LargestBelow(CountsOf(h), k) == 0
  {
    var j := LargestBelow(CountsOf(h), k);
    if j > 0 {
      var d := CountedBack(h, j);
    }
  }

  lemma TakenWhole(h: Heap, roots: set<Block>, structs: nat, k: nat, addr: nat, b: Block, g: Heap)
    requires WellFormed(h, roots)
    requires addr != 0 <==> !NoneBetween(h, 0, k)
    requires addr == 0 ==> g == h
    requires addr != 0 ==> b in h && h[b] == Free && 0 < b.order < k && NoneBetween(h, b.order, k) && g == h[b := Used]
    ensures TakeWhole(CountsOf(h), structs, k) == Told(g, addr, b.order, structs)
  {
    hide CountsOf;
    if addr == 0 {
      NoneBelow(h, k);
    } else {
      LargestBelowIs(h, roots, k, b);
      UsedCounts(h, b);
    }
  }

  /** What kmalloc_largest_available does to a heap, LargestTally does to its numbers. */
  lemma LargestCounts(h: Heap, roots: set<Block>, structs: nat, k: nat, addr: nat, b: Block, c: Block, reached: nat,
      g: Heap, left: nat)
    requires WellFormed(h, roots) && (addr != 0 ==> 0 < b.order <= k)
    requires k == 0 ==> addr == 0 && g == h && left == structs
    requires k > 0 && !RunsShort(h, k, structs) ==> Buddy.TakesLargest(h, structs, k, addr != 0, b, c, g, left)
    requires k > 0 && RunsShort(h, k, structs) ==> Buddy.TakesSmaller(h, structs, k, addr != 0, b, c, reached, g, left)
    ensures LargestTally(CountsOf(h), structs, k) == Told(g, addr, b.order, left)
  {
    hide CountsOf, WellFormed, RunsShort, Buddy.TakesLargest, Buddy.TakesSmaller;
    if k > 0 {
      if RunsShort(h, k, structs) {
        SmallerCounts(h, roots, structs, k, addr, b, c, reached, g, left);
      } else {
        WholeCounts(h, roots, structs, k, addr, b, c, g, left);
      }
    }
  }

  lemma CutWhole(h: Heap, k: nat, c: Block, b: Block, g: Heap)
    requires AllocatesFrom(h, b.order, c, b, g) && b.order < k && !Fits(h, b.order + 1)
    ensures b in h && h[b] == Free && NoneBetween(h, b.order, k) && g == h[b := Used] && c == b && !Fits(h, k)
  {
  }

  lemma WholeCounts(h: Heap, roots: set<Block>, structs: nat, k: nat, addr: nat, b: Block, c: Block, g: Heap, left: nat)
    requires WellFormed(h, roots) && k > 0 && (addr != 0 ==> 0 < b.order <= k) && !RunsShort(h, k, structs)
    requires Buddy.TakesLargest(h, structs, k, addr != 0, b, c, g, left)
    ensures LargestTally(CountsOf(h), structs, k) == Told(g, addr, b.order, left)
  {
    hide CountsOf, WellFormed, RunsShort, AllocatesFrom, Fits, NoneBetween;
    NoneFits(h, roots, k);
    NothingFits(h, k);
    if addr == 0 {
      TakenWhole(h, roots, structs, k, addr, b, g);
    } else if b.order == k {
      CutFits(h, k, c, b, g);
      FitsBy(h, k, c);
      RunsShortBy(h, k, structs, c);
      KmallocTaken(h, roots, structs, k, c, b, g, left);
    } else {
      CutWhole(h, k, c, b, g);
      TakenWhole(h, roots, structs, k, addr, b, g);
    }
  }

  lemma FitsBy(h: Heap, k: nat, c: Block)
    requires SmallestFit(h, k, c)
    ensures Fits(h, k)
  {
  }

  lemma NothingFits(h: Heap, k: nat)
    requires k > 0
    ensures !Fits(h, 1) ==> NoneBetween(h, 0, k) && !Fits(h, k)
    ensures !Fits(h, k) && NoneBetween(h, 0, k) ==> !Fits(h, 1)
  {
  }

  lemma SmallerCounts(h: Heap, roots: set<Block>, structs: nat, k: nat, addr: nat, b: Block, c: Block, reached: nat,
      g: Heap, left: nat)
    requires WellFormed(h, roots) && k > 0 && (addr != 0 ==> 0 < b.order <= k) && RunsShort(h, k, structs)
    requires Buddy.TakesSmaller(h, structs, k, addr != 0, b, c, reached, g, left)
    ensures LargestTally(CountsOf(h), structs, k) == Told(g, addr, b.order, left)
  {
    hide CountsOf, WellFormed, RunsShort, SplitDown, CutDown;
    hide NoneBetween, SmallestFit;
    CutTop(h, roots, k, c);
    SmallestIs(h, k, c);
    ShortCounts(h, roots, structs, k, c);
    SplitDownKeeps(h, roots, c, reached);
    SplitBetween(h, k, c, reached, 0);
    NoneFits(h, roots, k);
    if addr != 0 {
      SplitBetween(h, k, c, reached, b.order);
      SmallerBlock(h, k, c, reached, b);
    }
    TakenWhole(SplitDown(h, c, reached), roots, left, k, addr, b, g);
  }

  lemma CutTop(h: Heap, roots: set<Block>, k: nat, c: Block)
    requires WellFormed(h, roots) && SmallestFit(h, k, c)
    ensures c.order <= MAX_ORDER && c in h && h[c] == Free
  {
  }

  /** A cut above order k changes nothing for the smaller orders. */
  lemma SplitBetween(h: Heap, k: nat, c: Block, reached: nat, i: nat)
    requires c in h && h[c] == Free && k < reached <= c.order
    ensures NoneBetween(h, i, k) <==> NoneBetween(SplitDown(h, c, reached), i, k)
  {
    var g := SplitDown(h, c, reached);
    forall d
      ensures d in g && g[d] == Free ==> (d in h && h[d] == Free) || d.order >= reached
      ensures d in h && h[d] == Free && d.order < reached ==> d in g && g[d] == Free
    {
      SplitDownFree(h, c, reached, d);
    }
  }

  lemma SmallerBlock(h: Heap, k: nat, c: Block, reached: nat, b: Block)
    requires SmallestFit(h, k, c) && k < reached <= c.order && b in h && h[b] == Free && b.order <= k
    ensures b.order < k && b in SplitDown(h, c, reached) && SplitDown(h, c, reached)[b] == Free
  {
    SplitDownFree(h, c, reached, b);
  }
}
