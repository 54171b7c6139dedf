/** When the heap can serve a request piece by piece, and what the pieces look like when it runs low. */
module HeapSupply {
  import opened Blocks
  import opened BuddyAllocator
  import opened Layout
  import HeapRuns

  // ---------------------------------------------------------------- orders of requests

  function Request(n: nat, pageAlign: bool): nat {
    if pageAlign && n < PAGE_SIZE then PAGE_SIZE else n
  }

  function OrderFrom(n: nat, k: nat): (r: nat)
    decreases n - Bytes(k)
  {
    if Bytes(k) >= n then k else OrderFrom(n, k + 1)
  }

  /** The least order that holds the request. */
  function OrderOf(n: nat, pageAlign: bool): nat {
    OrderFrom(Request(n, pageAlign), 0)
  }

  lemma {:induction false} OrderFromIs(n: nat, j: nat, k: nat)
    requires IsOrderFor(k, n) && j <= k
    ensures OrderFrom(n, j) == k
    decreases k - j
  {
    if j < k {
      BytesGrow(j, k - 1);
      OrderFromIs(n, j + 1, k);
    }
  }

  lemma OrderOfIs(n: nat, pageAlign: bool, k: nat)
    requires IsOrderFor(k, Request(n, pageAlign))
    ensures OrderOf(n, pageAlign) == k
  {
    OrderFromIs(Request(n, pageAlign), 0, k);
  }

  lemma {:induction false} OrderFromFits(n: nat, j: nat)
    requires j > 0 ==> Bytes(j - 1) < n
    ensures IsOrderFor(OrderFrom(n, j), n)
    decreases n - Bytes(j)
  {
    if Bytes(j) < n {
      OrderFromFits(n, j + 1);
    }
  }

  lemma OrderOfFits(n: nat, pageAlign: bool)
    ensures IsOrderFor(OrderOf(n, pageAlign), Request(n, pageAlign))
  {
    OrderFromFits(Request(n, pageAlign), 0);
  }

  lemma OrderBelow(k: nat, n: nat, j: nat)
    requires IsOrderFor(k, n) && n <= Bytes(j)
    ensures k <= j
  {
    if k > j {
      BytesGrow(j, k - 1);
    }
  }

  /** What is left of a request is of no larger order. */
  lemma OrderShrinks(n: nat, m: nat, pageAlign: bool)
    requires m <= n
    ensures OrderOf(m, pageAlign) <= OrderOf(n, pageAlign)
  {
    OrderOfFits(n, pageAlign);
    OrderOfFits(m, pageAlign);
    OrderBelow(OrderOf(m, pageAlign), Request(m, pageAlign), OrderOf(n, pageAlign));
  }

  // ---------------------------------------------------------------- splitting leaves other blocks alone

  lemma SplitOneOther(h: Heap, roots: set<Block>, c: Block, d: Block)
    requires WellFormed(h, roots) && c in h && h[c] == Free && c.order > 0 && d in h && d != c
    ensures d in SplitOne(h, c) && SplitOne(h, c)[d] == h[d] && d != Left(c)
  {
    hide WellFormed;
    SplitOneKeeps(h, roots, c);
  }

  lemma {:induction false} SplitDownOther(h: Heap, roots: set<Block>, c: Block, k: nat, d: Block)
    requires WellFormed(h, roots) && c in h && h[c] == Free && k <= c.order && d in h && d != c
    ensures d in SplitDown(h, c, k) && SplitDown(h, c, k)[d] == h[d] && d != First(c, k)
    decreases c.order - k
  {
    hide WellFormed, SplitOne;
    if k < c.order {
      SplitDownOther(h, roots, c, k + 1, d);
      SplitDownKeeps(h, roots, c, k + 1);
      SplitOneOther(SplitDown(h, c, k + 1), roots, First(c, k + 1), d);
    }
  }

  lemma HighHalfMade(h: Heap, c: Block)
    requires c.order > 0
    ensures Right(c) in SplitOne(h, c) && SplitOne(h, c)[Right(c)] == Free && Right(c) != Left(c)
  {
  }

  /** The high half of the block that is cut stays free. */
  lemma {:induction false} HighHalfStays(h: Heap, roots: set<Block>, c: Block, k: nat)
    requires WellFormed(h, roots) && c in h && h[c] == Free && k < c.order
    ensures Right(c) in SplitDown(h, c, k) && SplitDown(h, c, k)[Right(c)] == Free && Right(c) != First(c, k)
    decreases c.order - k
  {
    hide WellFormed, SplitOne;
    if k + 1 < c.order {
      HighHalfStays(h, roots, c, k + 1);
      SplitDownKeeps(h, roots, c, k + 1);
      SplitOneOther(SplitDown(h, c, k + 1), roots, First(c, k + 1), Right(c));
    } else {
      assert First(c, c.order) == c && SplitDown(h, c, c.order) == h;
      HighHalfMade(h, c);
    }
  }

  lemma OtherStaysFree(h: Heap, roots: set<Block>, k: nat, c: Block, b: Block, g: Heap, d: Block)
    requires WellFormed(h, roots) && AllocatesFrom(h, k, c, b, g) && d in h && h[d] == Free && d != c
    ensures d in g && g[d] == Free
  {
    SplitDownOther(h, roots, c, k, d);
  }

  lemma {:induction false} SplitDownFits(h: Heap, c: Block, k: nat, j: nat)
    requires c in h && h[c] == Free && k <= c.order && Fits(SplitDown(h, c, k), j)
    ensures Fits(h, j)
    decreases c.order - k
  {
    if k < c.order {
      var g, b := SplitDown(h, c, k + 1), First(c, k + 1);
      var d :| d in SplitOne(g, b) && SplitOne(g, b)[d] == Free && d.order >= j;
      if d in g && g[d] == Free {
        SplitDownFits(h, c, k + 1, j);
      }
    }
  }

  /** An allocation makes no larger free blocks. */
  lemma AllocationFits(h: Heap, k: nat, c: Block, b: Block, g: Heap, j: nat)
    requires AllocatesFrom(h, k, c, b, g) && Fits(g, j)
    ensures Fits(h, j)
  {
    var d :| d in g && g[d] == Free && d.order >= j;
    assert d in SplitDown(h, c, k) && SplitDown(h, c, k)[d] == Free;
    SplitDownFits(h, c, k, j);
  }

  lemma EnoughStructs(h: Heap, roots: set<Block>, k: nat, structs: nat)
    requires WellFormed(h, roots) && structs >= 2 * MAX_ORDER
    ensures !RunsShort(h, k, structs)
  {
  }

  // ---------------------------------------------------------------- free bytes

  ghost function FreeBytes(h: Heap): nat {
    HeapRuns.TotalBytes(FreeBlocks(h))
  }

  /** An allocation takes exactly its bytes from the free ones. */
  lemma AllocationBytes(h: Heap, roots: set<Block>, k: nat, c: Block, b: Block, g: Heap)
    requires WellFormed(h, roots) && AllocatesFrom(h, k, c, b, g)
    ensures FreeBytes(h) == FreeBytes(g) + Bytes(k)
  {
    AllocationKeeps(h, roots, k, b, g);
    HeapRuns.BytesConserved(h, roots);
    HeapRuns.BytesConserved(g, roots);
    HeapRuns.TotalWithout(Live(g), b);
    assert Live(g) - {b} == Live(h);
  }

  /** There are free bytes exactly if some block is free. */
  lemma BytesFit(h: Heap)
    ensures FreeBytes(h) > 0 <==> Fits(h, 0)
    ensures FreeBytes(h) > 0 ==> FreeBytes(h) >= 512
  {
    if b :| b in h && h[b] == Free {
      assert b in FreeBlocks(h);
      HeapRuns.TotalWithout(FreeBlocks(h), b);
    } else {
      assert FreeBlocks(h) == {};
    }
  }

  /** An allocation of the least order leaves a block of order k free, if there was one and more than its bytes. */
  lemma OrderStaysFree(h: Heap, roots: set<Block>, c: Block, b: Block, g: Heap, k: nat)
    requires WellFormed(h, roots) && AllocatesFrom(h, 0, c, b, g) && Fits(h, k) && FreeBytes(h) > Bytes(k)
    ensures Fits(g, k)
  {
    var d :| d in h && h[d] == Free && d.order >= k;
    if d != c {
      OtherStaysFree(h, roots, 0, c, b, g, d);
    } else if e :| e in h && h[e] == Free && e != c {
      OtherStaysFree(h, roots, 0, c, b, g, e);
    } else {
      assert FreeBlocks(h) == {c};
      HeapRuns.TotalWithout(FreeBlocks(h), c);
      assert FreeBlocks(h) - {c} == {};
      HighHalfStays(h, roots, c, 0);
    }
  }

  // ---------------------------------------------------------------- free blocks of the top order

  ghost function FreeTops(h: Heap): set<Block> {
    set b <- h | h[b] == Free && b.order == MAX_ORDER
  }

  lemma Smaller(s: set<Block>, t: set<Block>)
    requires s <= t
    ensures |s| <= |t|
  {
    if s != t {
      HeapRuns.Fewer(s, t);
    }
  }

  lemma OthersStayTop(h: Heap, roots: set<Block>, k: nat, c: Block, b: Block, g: Heap)
    requires WellFormed(h, roots) && AllocatesFrom(h, k, c, b, g)
    ensures FreeTops(h) - {c} <= FreeTops(g)
  {
    forall d | d in FreeTops(h) - {c}
      ensures d in FreeTops(g)
    {
      OtherStaysFree(h, roots, k, c, b, g, d);
    }
  }

  /** An allocation of the least order leaves r blocks of the top order free, if there were r and more than their
      bytes. */
  lemma TopsStay(h: Heap, roots: set<Block>, c: Block, b: Block, g: Heap, r: nat)
    requires WellFormed(h, roots) && AllocatesFrom(h, 0, c, b, g)
    requires |FreeTops(h)| >= r && FreeBytes(h) > r * TOP_BYTES
    ensures |FreeTops(g)| >= r
  {
    OthersStayTop(h, roots, 0, c, b, g);
    Smaller(FreeTops(h) - {c}, FreeTops(g));
    if c in FreeTops(h) {
      assert FreeBlocks(h) == FreeTops(h);
      HeapRuns.TotalOfRoots(FreeTops(h));
      TopBytes();
    } else {
      assert FreeTops(h) - {c} == FreeTops(h);
    }
  }

  // ---------------------------------------------------------------- structs for splits

  ghost predicate HasFree(h: Heap, o: nat) {
    exists d <- h :: h[d] == Free && d.order == o
  }

  /** The orders below the top of which no block is free. */
  ghost function MissingOrders(h: Heap): set<nat> {
    set o: nat | o < MAX_ORDER && !HasFree(h, o)
  }

  /** Two structs for each order that is missing: what the next split can cost at most, and what later splits save
      because of it. */
  ghost function Missing(h: Heap): nat {
    2 * |MissingOrders(h)|
  }

  predicate Within(o: nat, lo: nat, hi: nat) {
    lo <= o < hi
  }

  ghost function Range(lo: nat, hi: nat): set<nat> {
    set o: nat | o < hi && Within(o, lo, hi)
  }

  lemma {:induction false} RangeSize(lo: nat, hi: nat)
    requires lo <= hi
    ensures |Range(lo, hi)| == hi - lo
    decreases hi - lo
  {
    if lo < hi {
      RangeSize(lo, hi - 1);
      assert Range(lo, hi) == Range(lo, hi - 1) + {hi - 1};
    } else {
      assert Range(lo, hi) == {};
    }
  }

  lemma SmallerNats(s: set<nat>, t: set<nat>)
    requires s <= t
    ensures |s| <= |t|
  {
    assert t == s + (t - s);
  }

  lemma MissingBound(h: Heap)
    ensures Missing(h) <= 2 * MAX_ORDER
  {
    RangeSize(0, MAX_ORDER);
    SmallerNats(MissingOrders(h), Range(0, MAX_ORDER));
  }

  /** Between the order asked for and that of a smallest fit, all orders are missing. */
  lemma MissingBelow(h: Heap, roots: set<Block>, k: nat, c: Block)
    requires WellFormed(h, roots) && SmallestFit(h, k, c)
    ensures Range(k, c.order) <= MissingOrders(h) && 2 * (c.order - k) <= Missing(h)
  {
    RangeSize(k, c.order);
    SmallerNats(Range(k, c.order), MissingOrders(h));
  }

  /** Two structs for each missing order suffice for any allocation. */
  lemma Affordable(h: Heap, roots: set<Block>, k: nat, structs: nat)
    requires WellFormed(h, roots) && structs >= Missing(h)
    ensures !RunsShort(h, k, structs)
  {
    forall c | SmallestFit(h, k, c)
      ensures structs >= 2 * (c.order - k)
    {
      MissingBelow(h, roots, k, c);
    }
  }

  /** Cutting a block leaves a free half of each order it passes. */
  lemma {:induction false} HalvesLeft(h: Heap, roots: set<Block>, c: Block, k: nat, o: nat)
    requires WellFormed(h, roots) && c in h && h[c] == Free && k <= o < c.order
    ensures var d := Right(First(c, o + 1));
      d in SplitDown(h, c, k) && SplitDown(h, c, k)[d] == Free && d != First(c, k)
    decreases c.order - k
  {
    hide WellFormed, SplitOne;
    SplitDownKeeps(h, roots, c, k + 1);
    if k < o {
      HalvesLeft(h, roots, c, k + 1, o);
      SplitOneOther(SplitDown(h, c, k + 1), roots, First(c, k + 1), Right(First(c, o + 1)));
    } else {
      HighHalfMade(SplitDown(h, c, k + 1), First(c, k + 1));
    }
  }

  lemma MissingAfter(h: Heap, roots: set<Block>, k: nat, c: Block, b: Block, g: Heap, o: nat)
    requires WellFormed(h, roots) && AllocatesFrom(h, k, c, b, g) && o in MissingOrders(g)
    ensures o in MissingOrders(h) - Range(k, c.order) || o == c.order
  {
    if k <= o < c.order {
      HalvesLeft(h, roots, c, k, o);
      assert HasFree(g, o);
    } else if o != c.order && HasFree(h, o) {
      var d :| d in h && h[d] == Free && d.order == o;
      OtherStaysFree(h, roots, k, c, b, g, d);
    }
  }

  /** An allocation pays for its splits with the orders it fills: over many, two structs each are enough. */
  lemma AllocationCredit(h: Heap, roots: set<Block>, k: nat, c: Block, b: Block, g: Heap)
    requires WellFormed(h, roots) && AllocatesFrom(h, k, c, b, g)
    ensures Missing(g) + 2 * (c.order - k) <= Missing(h) + 2
  {
    hide AllocatesFrom, WellFormed, MissingOrders, Range;
    var rest := MissingOrders(h) - Range(k, c.order);
    forall o | o in MissingOrders(g)
      ensures o in rest + {c.order}
    {
      MissingAfter(h, roots, k, c, b, g, o);
    }
    SmallerNats(MissingOrders(g), rest + {c.order});
    CutFits(h, k, c, b, g);
    MissingBelow(h, roots, k, c);
    RangeSize(k, c.order);
    assert MissingOrders(h) == rest + Range(k, c.order);
  }

  lemma CutFits(h: Heap, k: nat, c: Block, b: Block, g: Heap)
    requires AllocatesFrom(h, k, c, b, g)
    ensures SmallestFit(h, k, c) && k <= c.order
  {
  }

  lemma JoinSize(h: Heap, p: Block)
    requires p.order > 0 && p in h && Left(p) in h && Right(p) in h
    ensures |Join(h, p)| == |h| - 2
  {
    assert Left(p) != p && Right(p) != p && Left(p) != Right(p);
    assert Join(h, p).Keys == h.Keys - {Left(p), Right(p)};
    assert |h.Keys - {Left(p), Right(p)}| == |h.Keys| - 2;
    assert |Join(h, p)| == |Join(h, p).Keys| && |h| == |h.Keys|;
  }

  /** Of the orders only that of the two halves can be missing that was not. */
  lemma JoinMissing(h: Heap, p: Block)
    requires p.order > 0
    ensures Missing(Join(h, p)) <= Missing(h) + 2
  {
    var g, o := Join(h, p), p.order - 1;
    forall j: nat | j != o && HasFree(h, j)
      ensures HasFree(g, j)
    {
      var d :| d in h && h[d] == Free && d.order == j;
      assert d in g && g[d] == Free;
    }
    SmallerNats(MissingOrders(g), MissingOrders(h) + {o});
  }

  /** Each struct pair that a merge gives back makes up for the order of the blocks that it joins. */
  lemma {:induction false} MergeCredit(h: Heap, roots: set<Block>, b: Block)
    requires WellFormed(h, roots) && b in h && h[b] == Free
    ensures Missing(MergeUp(h, b)) + |MergeUp(h, b)| <= Missing(h) + |h|
    decreases MAX_ORDER - b.order
  {
    hide Missing, Join;
    if b.order < MAX_ORDER {
      var p := Parent(b);
      HalfOfParent(b);
      if h[Left(p)] == Free && h[Right(p)] == Free {
        JoinSize(h, p);
        JoinMissing(h, p);
        JoinKeeps(h, roots, p);
        assert p in Join(h, p) && Join(h, p)[p] == Free by {
          JoinedIsFree(h, p);
        }
        MergeCredit(Join(h, p), roots, p);
      }
    }
  }

  lemma JoinedIsFree(h: Heap, p: Block)
    requires p.order > 0
    ensures p in Join(h, p) && Join(h, p)[p] == Free
  {
  }

  /** A release brings back at least as many structs as it adds to the orders that are missing. */
  lemma ReleaseCredit(h: Heap, roots: set<Block>, b: Block)
    requires WellFormed(h, roots) && b in Live(h)
    ensures Missing(Release(h, b)) + |Release(h, b)| <= Missing(h) + |h|
  {
    var g := h[b := Free];
    MarkKeeps(h, roots, b, Free);
    MergeCredit(g, roots, b);
    assert g.Keys == h.Keys && |g| == |g.Keys| && |h| == |h.Keys|;
    forall o: nat | HasFree(h, o)
      ensures HasFree(g, o)
    {
      var d :| d in h && h[d] == Free && d.order == o;
      assert g[d] == Free;
    }
    SmallerNats(MissingOrders(g), MissingOrders(h));
  }

  // ---------------------------------------------------------------- requests in pieces

  /** How many pieces of at most the top size the request takes. */
  function Pieces(n: nat): nat {
    (n + TOP_BYTES - 1) / TOP_BYTES
  }

  /** The bytes of the last piece, when the others are of the top size. */
  function LastPiece(n: nat): nat
    requires n > 0
  {
    (n - 1) % TOP_BYTES + 1
  }

  /** The heap has the pieces of the request and two small records for each, and some bytes besides. */
  ghost predicate Supplies(h: Heap, n: nat, pageAlign: bool, more: nat) {
    if n <= TOP_BYTES then
      Fits(h, OrderOf(n, pageAlign)) && FreeBytes(h) >= Bytes(OrderOf(n, pageAlign)) + 1024 + more
    else
      |FreeTops(h)| >= Pieces(n) && FreeBytes(h) >= Pieces(n) * (TOP_BYTES + 1024) + more
  }

  /** Block structs that suffice for the splits: those of each piece and its two records pay for themselves but for
      two each. */
  ghost function StructsFor(h: Heap, n: nat): nat {
    Missing(h) + 6 * Pieces(n)
  }

  lemma SmallRecord(h: Heap, roots: set<Block>, n: nat, pageAlign: bool, more: nat, c: Block, b: Block, g: Heap)
    requires WellFormed(h, roots) && Supplies(h, n, pageAlign, more + 512) && AllocatesFrom(h, 0, c, b, g)
    ensures Supplies(g, n, pageAlign, more)
  {
    AllocationBytes(h, roots, 0, c, b, g);
    if n <= TOP_BYTES {
      OrderStaysFree(h, roots, c, b, g, OrderOf(n, pageAlign));
    } else {
      TopsStay(h, roots, c, b, g, Pieces(n));
    }
  }

  /** What one round takes: a piece and two records. */
  ghost predicate RoundTaken(h: Heap, b: Block, g: Heap) {
    exists c, h1, c1, b1, h2, c2, b2 ::
      AllocatesFrom(h, b.order, c, b, h1) && AllocatesFrom(h1, 0, c1, b1, h2) && AllocatesFrom(h2, 0, c2, b2, g)
  }

  /** After a round with a piece of the top size the heap supplies the rest of the request. */
  lemma RoundKeepsSupply(h: Heap, roots: set<Block>, n: nat, pageAlign: bool, b: Block, g: Heap)
    requires WellFormed(h, roots) && n > TOP_BYTES && Supplies(h, n, pageAlign, 0)
    requires RoundTaken(h, b, g) && b.order == MAX_ORDER
    ensures Supplies(g, n - TOP_BYTES, pageAlign, 0)
    ensures Pieces(n - TOP_BYTES) == Pieces(n) - 1 && LastPiece(n - TOP_BYTES) == LastPiece(n)
  {
    hide AllocatesFrom, WellFormed, FreeTops, FreeBytes, Fits, OrderOf;
    var c, h1, c1, b1, h2, c2, b2 :|
      AllocatesFrom(h, b.order, c, b, h1) && AllocatesFrom(h1, 0, c1, b1, h2) && AllocatesFrom(h2, 0, c2, b2, g);
    var r: nat := Pieces(n) - 1;
    PiecesLess(n);
    TopTaken(h, roots, c, b, h1);
    TwoRecords(h1, roots, c1, b1, h2, c2, b2, g, r);
    if n - TOP_BYTES <= TOP_BYTES {
      TopsSupply(g, n - TOP_BYTES, pageAlign);
    }
  }

  lemma PiecesLess(n: nat)
    requires n > TOP_BYTES
    ensures Pieces(n - TOP_BYTES) == Pieces(n) - 1 && LastPiece(n - TOP_BYTES) == LastPiece(n)
    ensures n - TOP_BYTES <= TOP_BYTES ==> Pieces(n - TOP_BYTES) == 1
  {
  }

  lemma TopTaken(h: Heap, roots: set<Block>, c: Block, b: Block, g: Heap)
    requires WellFormed(h, roots) && AllocatesFrom(h, b.order, c, b, g) && b.order == MAX_ORDER
    ensures WellFormed(g, roots) && |FreeTops(g)| >= |FreeTops(h)| - 1 && FreeBytes(h) == FreeBytes(g) + TOP_BYTES
  {
    AllocationKeeps(h, roots, b.order, b, g);
    AllocationBytes(h, roots, b.order, c, b, g);
    TopBytes();
    OthersStayTop(h, roots, b.order, c, b, g);
    Smaller(FreeTops(h) - {c}, FreeTops(g));
  }

  lemma TwoRecords(h: Heap, roots: set<Block>, c1: Block, b1: Block, h2: Heap, c2: Block, b2: Block, g: Heap, r: nat)
    requires WellFormed(h, roots) && AllocatesFrom(h, 0, c1, b1, h2) && AllocatesFrom(h2, 0, c2, b2, g)
    requires |FreeTops(h)| >= r && FreeBytes(h) >= r * TOP_BYTES + 1024
    ensures WellFormed(g, roots) && |FreeTops(g)| >= r && FreeBytes(h) == FreeBytes(g) + 1024
  {
    hide AllocatesFrom, FreeTops, FreeBytes, WellFormed;
    assert Bytes(0) == 512;
    assert Allocates(h, 0, b1, h2) && Allocates(h2, 0, b2, g);
    AllocationKeeps(h, roots, 0, b1, h2);
    AllocationKeeps(h2, roots, 0, b2, g);
    AllocationBytes(h, roots, 0, c1, b1, h2);
    AllocationBytes(h2, roots, 0, c2, b2, g);
    TopsStay(h, roots, c1, b1, h2, r);
    TopsStay(h2, roots, c2, b2, g, r);
  }

  /** A free block of the top order holds any piece. */
  lemma TopsSupply(h: Heap, n: nat, pageAlign: bool)
    requires n <= TOP_BYTES && |FreeTops(h)| >= 1
    ensures Fits(h, OrderOf(n, pageAlign)) && Bytes(OrderOf(n, pageAlign)) <= TOP_BYTES
  {
    TopBytes();
    OrderOfFits(n, pageAlign);
    OrderBelow(OrderOf(n, pageAlign), Request(n, pageAlign), MAX_ORDER);
    BytesGrow(OrderOf(n, pageAlign), MAX_ORDER);
    var b :| b in FreeTops(h);
    assert b in h && h[b] == Free && b.order >= OrderOf(n, pageAlign);
  }

  // ---------------------------------------------------------------- stock

  /** There are r blocks of the top order, s bytes besides, and structs for t / 2 allocations. */
  ghost predicate Stock(h: Heap, structs: nat, r: nat, s: nat, t: nat) {
    |FreeTops(h)| >= r && FreeBytes(h) >= r * TOP_BYTES + s && structs >= Missing(h) + t
  }

  /** No more than r top blocks, s bytes besides and t structs are gone from any stock. */
  ghost predicate Less(h: Heap, structs: nat, g: Heap, left: nat, r: nat, s: nat, t: nat) {
    forall r': nat, s': nat, t': nat :: Stock(h, structs, r' + r, s' + s, t' + t) ==> Stock(g, left, r', s', t')
  }

  lemma LessNothing(h: Heap, structs: nat, r: nat, s: nat, t: nat)
    ensures Less(h, structs, h, structs, r, s, t)
  {
    hide FreeTops, FreeBytes, Missing;
  }

  lemma LessTwice(h: Heap, a: nat, h1: Heap, b: nat, g: Heap, c: nat, r1: nat, s1: nat, t1: nat, r2: nat, s2: nat,
      t2: nat)
    requires Less(h, a, h1, b, r1, s1, t1) && Less(h1, b, g, c, r2, s2, t2)
    ensures Less(h, a, g, c, r1 + r2, s1 + s2, t1 + t2)
  {
    hide Stock;
    forall r: nat, s: nat, t: nat | Stock(h, a, r + (r1 + r2), s + (s1 + s2), t + (t1 + t2))
      ensures Stock(g, c, r, s, t)
    {
      assert Stock(h, a, (r + r2) + r1, (s + s2) + s1, (t + t2) + t1);
      assert Stock(h1, b, r + r2, s + s2, t + t2);
    }
  }

  lemma LessMore(h: Heap, a: nat, g: Heap, c: nat, r: nat, s: nat, t: nat, s': nat, t': nat)
    requires Less(h, a, g, c, r, s, t)
    ensures Less(h, a, g, c, r, s + s', t + t')
  {
    hide Less;
    LessNothing(g, c, 0, s', t');
    LessTwice(h, a, g, c, g, c, r, s, t, 0, s', t');
  }

  lemma LessTops(h: Heap, a: nat, g: Heap, c: nat, r: nat, s: nat, t: nat)
    requires Less(h, a, g, c, 0, s, t)
    ensures Less(h, a, g, c, r, s, t)
  {
    hide Less;
    LessNothing(g, c, r, 0, 0);
    LessTwice(h, a, g, c, g, c, 0, s, t, r, 0, 0);
  }

  lemma LessRecord(h: Heap, roots: set<Block>, structs: nat, c: Block, b: Block, g: Heap, left: nat)
    requires WellFormed(h, roots) && AllocatesFrom(h, 0, c, b, g) && left == structs - 2 * c.order
    ensures Less(h, structs, g, left, 0, 512, 2)
  {
    hide FreeTops, FreeBytes, Missing, AllocatesFrom, WellFormed;
    AllocationBytes(h, roots, 0, c, b, g);
    AllocationCredit(h, roots, 0, c, b, g);
    forall r: nat, s: nat, t: nat | Stock(h, structs, r + 0, s + 512, t + 2)
      ensures Stock(g, left, r, s, t)
    {
      TopsStay(h, roots, c, b, g, r);
    }
  }

  /** A piece takes at most one block of the top order. */
  lemma LessPiece(h: Heap, roots: set<Block>, structs: nat, k: nat, c: Block, b: Block, g: Heap, left: nat)
    requires WellFormed(h, roots) && AllocatesFrom(h, k, c, b, g) && k <= MAX_ORDER
      && left == structs - 2 * (c.order - k)
    ensures Less(h, structs, g, left, 1, 0, 2)
  {
    AllocationBytes(h, roots, k, c, b, g);
    AllocationCredit(h, roots, k, c, b, g);
    OthersStayTop(h, roots, k, c, b, g);
    Smaller(FreeTops(h) - {c}, FreeTops(g));
    TopBytes();
    BytesGrow(k, MAX_ORDER);
    hide FreeTops, FreeBytes, Missing, AllocatesFrom, WellFormed, Bytes;
  }

  lemma NoStock(h: Heap, roots: set<Block>, structs: nat, k: nat, r: nat, s: nat, t: nat)
    requires WellFormed(h, roots) && RunsShort(h, k, structs)
    ensures !Stock(h, structs, r, s, t)
  {
    if structs >= Missing(h) {
      Affordable(h, roots, k, structs);
    }
  }

  /** Only where the structs run short can more be gone, but then there was no stock. */
  lemma LessShort(h: Heap, roots: set<Block>, structs: nat, k: nat, g: Heap, left: nat, r: nat, s: nat, t: nat)
    requires WellFormed(h, roots) && RunsShort(h, k, structs)
    ensures Less(h, structs, g, left, r, s, t)
  {
    hide WellFormed, RunsShort, Stock;
    forall r': nat, s': nat, t': nat
      ensures Stock(h, structs, r' + r, s' + s, t' + t) ==> Stock(g, left, r', s', t')
    {
      NoStock(h, roots, structs, k, r' + r, s' + s, t' + t);
    }
  }

  /** A stock with a top block for each piece supplies the request. */
  lemma StockSupplies(h: Heap, structs: nat, n: nat, pageAlign: bool, more: nat, r: nat, s: nat, t: nat)
    requires n > 0 && Stock(h, structs, r + Pieces(n), s + 1024 * Pieces(n) + more, t + 6 * Pieces(n))
    ensures Supplies(h, n, pageAlign, more) && structs >= StructsFor(h, n) + t
  {
    hide FreeTops, FreeBytes, Missing, Fits, Bytes, OrderOf;
    if n <= TOP_BYTES {
      assert Pieces(n) == 1;
      TopsSupply(h, n, pageAlign);
    }
  }

  /** Rounds that are no more than the pieces of a supplied request cost no more than its pieces. */
  lemma RoundsAreFew(h: Heap, structs: nat, g: Heap, left: nat, n: nat, pageAlign: bool, m: nat)
    requires Less(h, structs, g, left, m, 1024 * m, 6 * m) && (n == 0 ==> m == 0)
    requires Supplies(h, n, pageAlign, 0) && structs >= StructsFor(h, n) ==> m <= Pieces(n)
    ensures Less(h, structs, g, left, Pieces(n), 1024 * Pieces(n), 6 * Pieces(n))
  {
    hide Supplies, StructsFor, FreeTops, FreeBytes, Missing;
    var p := Pieces(n);
    forall r: nat, s: nat, t: nat | Stock(h, structs, r + p, s + 1024 * p, t + 6 * p)
      ensures Stock(g, left, r, s, t)
    {
      if n > 0 {
        StockSupplies(h, structs, n, pageAlign, 0, r, s, t);
      }
      var x: nat := p - m;
      assert Stock(h, structs, (r + x) + m, (s + 1024 * x) + 1024 * m, (t + 6 * x) + 6 * m);
      assert Stock(g, left, r + x, s + 1024 * x, t + 6 * x);
    }
  }

  // ---------------------------------------------------------------- the order of the next piece

  /** The largest order up to k of which a block can be cut. */
  ghost function TakenOrder(h: Heap, k: nat): (o: nat)
    ensures o <= k
  {
    if k == 0 || Fits(h, k) then k else TakenOrder(h, k - 1)
  }

  lemma FitsLess(h: Heap, j: nat, k: nat)
    requires j <= k
    ensures Fits(h, k) ==> Fits(h, j)
  {
  }

  lemma {:induction false} TakenOrderIs(h: Heap, k: nat, o: nat)
    requires 0 < o <= k && Fits(h, o) && (o == k || !Fits(h, o + 1))
    ensures TakenOrder(h, k) == o
    decreases k
  {
    if o < k {
      FitsLess(h, o + 1, k);
      TakenOrderIs(h, k - 1, o);
    }
  }

  /** A block of order o can be had: there is a free one, or one that the structs suffice to cut. */
  ghost predicate Reaches(h: Heap, structs: nat, o: nat) {
    exists c <- h :: h[c] == Free && o <= c.order && 2 * (c.order - o) <= structs
  }

  /** After a piece of order o was taken for a request of order k: no larger block is left, or none below the order of
      the request and no structs to cut one. */
  ghost predicate Settled(h: Heap, structs: nat, o: nat, k: nat) {
    !Fits(h, o + 1) || (structs < 2 && NoneBetween(h, o, k))
  }

  /** The next piece is no larger. */
  lemma NextIsNoLarger(h: Heap, structs: nat, o: nat, k: nat, next: nat, k': nat)
    requires Settled(h, structs, o, k) && Reaches(h, structs, next) && next <= k' <= k
    ensures next <= o
  {
    var c :| c in h && h[c] == Free && next <= c.order && 2 * (c.order - next) <= structs;
  }

  /** A record does not change that. */
  lemma SettledStays(h: Heap, structs: nat, o: nat, k: nat, c: Block, b: Block, g: Heap, left: nat)
    requires Settled(h, structs, o, k) && AllocatesFrom(h, 0, c, b, g) && left == structs - 2 * c.order
    ensures Settled(g, left, o, k)
  {
    if !Fits(h, o + 1) {
      if Fits(g, o + 1) {
        AllocationFits(h, 0, c, b, g, o + 1);
      }
    } else {
      assert c.order == 0 && SplitDown(h, c, 0) == h;
    }
  }

  /** The heap after a cut in vain and a smaller block taken whole. */
  lemma SettledInVain(h: Heap, cut: Block, reached: nat, b: Block, g: Heap, structs: nat, k: nat)
    requires SmallestFit(h, k, cut) && k < reached <= cut.order && structs < 2
    requires b in h && h[b] == Free && NoneBetween(h, b.order, k) && g == SplitDown(h, cut, reached)[b := Used]
    ensures Settled(g, structs, b.order, k)
  {
    forall d | d in g && g[d] == Free && b.order < d.order
      ensures k < d.order
    {
      SplitDownFree(h, cut, reached, d);
    }
  }
}
