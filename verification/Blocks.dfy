/** The buddy heap seen as a map from blocks to states, without pointers or lists.
    The block (index, order) covers the 512 * 2^order bytes that start at index times that size, so every
    block is aligned to its own size and its halves, parent and buddy follow from the index. */
module Blocks {
  import opened Division

  const MAX_ORDER: nat := 13

  function Bytes(k: nat): (n: nat)
    ensures 512 <= n
  {
    if k == 0 then 512 else 2 * Bytes(k - 1)
  }

  datatype Block = Block(index: nat, order: nat)

  datatype Status = Free | Used | Split

  type Heap = map<Block, Status>

  function Parent(b: Block): Block {
    Block(b.index / 2, b.order + 1)
  }

  function Left(b: Block): Block
    requires b.order > 0
  {
    Block(2 * b.index, b.order - 1)
  }

  function Right(b: Block): Block
    requires b.order > 0
  {
    Block(2 * b.index + 1, b.order - 1)
  }

  lemma HalfOfParent(b: Block)
    ensures b == Left(Parent(b)) || b == Right(Parent(b))
  {
  }

  /** The order-k block at the low end of b. */
  function First(b: Block, k: nat): (f: Block)
    requires k <= b.order
    ensures f.order == k
    decreases b.order - k
  {
    if k == b.order then b else Left(First(b, k + 1))
  }

  /** index * Bytes(order), by repeated addition */
  function Start(b: Block): nat
    decreases b.index
  {
    if b.index == 0 then 0 else Start(Block(b.index - 1, b.order)) + Bytes(b.order)
  }

  ghost predicate Holds(b: Block, a: nat) {
    Start(b) <= a < Start(b) + Bytes(b.order)
  }

  /** a / n, by repeated subtraction */
  function Quotient(a: nat, n: nat): (q: nat)
    requires n > 0
  {
    if a < n then 0 else 1 + Quotient(a - n, n)
  }

  /** The one order-k block that holds address a. */
  function BlockAt(a: nat, k: nat): Block {
    Block(Quotient(a, Bytes(k)), k)
  }

  // ---------------------------------------------------------------- address arithmetic

  lemma {:induction false} QuotientIsDivision(a: nat, n: nat)
    requires n > 0
    ensures Quotient(a, n) == a / n
  {
    if a >= n {
      QuotientIsDivision(a - n, n);
      DivMod(a, n, (a - n) / n + 1, (a - n) % n);
    } else {
      DivMod(a, n, 0, a);
    }
  }

  lemma {:induction false} HoldsIsBlockAt(b: Block, a: nat)
    ensures Holds(b, a) <==> b == BlockAt(a, b.order)
    decreases b.index
  {
    if b.index > 0 && a >= Bytes(b.order) {
      HoldsIsBlockAt(Block(b.index - 1, b.order), a - Bytes(b.order));
    }
  }

  /** Two blocks of one order do not overlap. */
  lemma {:induction false} SameOrderApart(b: Block, c: Block)
    requires b.order == c.order && b.index < c.index
    ensures Start(b) + Bytes(b.order) <= Start(c)
    decreases c.index
  {
    if b.index < c.index - 1 {
      SameOrderApart(b, Block(c.index - 1, c.order));
    }
  }

  lemma {:induction false} HalfQuotient(a: nat, n: nat)
    requires n > 0
    ensures Quotient(a, n) / 2 == Quotient(a, 2 * n)
  {
    if a >= 2 * n {
      HalfQuotient(a - 2 * n, n);
    }
  }

  lemma ParentAt(a: nat, k: nat)
    ensures Parent(BlockAt(a, k)) == BlockAt(a, k + 1)
  {
    HalfQuotient(a, Bytes(k));
  }

  lemma {:induction false} HalvesStart(b: Block)
    requires b.order > 0
    ensures Start(Left(b)) == Start(b)
    ensures Start(Right(b)) == Start(b) + Bytes(b.order - 1)
    decreases b.index
  {
    if b.index > 0 {
      HalvesStart(Block(b.index - 1, b.order));
    }
  }

  lemma {:induction false} FirstStart(b: Block, k: nat)
    requires k <= b.order
    ensures Start(First(b, k)) == Start(b)
    decreases b.order - k
  {
    if k < b.order {
      FirstStart(b, k + 1);
      HalvesStart(First(b, k + 1));
    }
  }

  // ---------------------------------------------------------------- well-formed heaps

  ghost predicate WellFormed(h: Heap, roots: set<Block>) {
    && (forall b <- roots :: b in h && b.order == MAX_ORDER)
    && (forall b <- h :: b.order <= MAX_ORDER)
    && (forall b <- h :: b.order == MAX_ORDER ==> b in roots)
    && (forall b {:trigger Parent(b)} | b in h && b.order < MAX_ORDER :: Parent(b) in h && h[Parent(b)] == Split)
    && (forall b | b in h && h[b] == Split :: b.order > 0)
    && (forall b {:trigger Left(b)} {:trigger Right(b)} | b in h && h[b] == Split :: Left(b) in h && Right(b) in h)
  }

  ghost function Live(h: Heap): set<Block> {
    set b <- h | h[b] == Used
  }

  ghost function FreeBlocks(h: Heap): set<Block> {
    set b <- h | h[b] == Free
  }

  /** No two halves of one block are both free. */
  ghost predicate Canonical(h: Heap, roots: set<Block>)
    requires WellFormed(h, roots)
  {
    forall b {:trigger Left(b)} {:trigger Right(b)} | b in h && h[b] == Split ::
      !(h[Left(b)] == Free && h[Right(b)] == Free)
  }

  /** Above a block of a well-formed heap there are only split blocks. */
  lemma {:induction false} PathUp(h: Heap, roots: set<Block>, a: nat, k: nat, j: nat)
    requires WellFormed(h, roots)
    requires BlockAt(a, k) in h && k <= j <= MAX_ORDER
    ensures BlockAt(a, j) in h
    ensures k < j ==> h[BlockAt(a, j)] == Split
    decreases j - k
  {
    if k < j {
      ParentAt(a, k);
      assert BlockAt(a, k + 1) in h && h[BlockAt(a, k + 1)] == Split;
      if k + 1 < j {
        PathUp(h, roots, a, k + 1, j);
      }
    }
  }

  /** Live blocks that share an address are the same block. */
  lemma LiveBlocksApart(h: Heap, roots: set<Block>, b: Block, c: Block, a: nat)
    requires WellFormed(h, roots) && b in Live(h) && c in Live(h)
    requires Holds(b, a) && Holds(c, a)
    ensures b == c
  {
    Tiling(h, roots, a);
  }

  /** If no root starts at address 0, no block does. */
  lemma {:induction false} StartPositive(h: Heap, roots: set<Block>, b: Block)
    requires WellFormed(h, roots) && b in h && forall r <- roots :: r.index > 0
    ensures b.index > 0 && Start(b) > 0
    decreases MAX_ORDER - b.order
  {
    if b.order < MAX_ORDER {
      StartPositive(h, roots, Parent(b));
    }
  }

  ghost predicate LeafAt(h: Heap, a: nat, k: nat) {
    BlockAt(a, k) in h && h[BlockAt(a, k)] != Split
  }

  lemma {:induction false} FindLeaf(h: Heap, roots: set<Block>, a: nat, j: nat) returns (k: nat)
    requires WellFormed(h, roots)
    requires BlockAt(a, j) in h
    ensures k <= j && LeafAt(h, a, k)
  {
    var b := BlockAt(a, j);
    if h[b] != Split {
      k := j;
    } else {
      ParentAt(a, j - 1);
      HalfOfParent(BlockAt(a, j - 1));
      k := FindLeaf(h, roots, a, j - 1);
    }
  }

  /** The unsplit blocks tile the heap: each heap address lies in exactly one of them. */
  lemma Tiling(h: Heap, roots: set<Block>, a: nat)
    requires WellFormed(h, roots)
    ensures BlockAt(a, MAX_ORDER) in roots <==> exists k :: LeafAt(h, a, k)
    ensures forall b, c :: b in h && c in h && h[b] != Split && h[c] != Split && Holds(b, a) && Holds(c, a) ==> b == c
  {
    if BlockAt(a, MAX_ORDER) in roots {
      var k := FindLeaf(h, roots, a, MAX_ORDER);
    }
    if k :| LeafAt(h, a, k) {
      PathUp(h, roots, a, k, MAX_ORDER);
    }
    forall b, c | b in h && c in h && h[b] != Split && h[c] != Split && Holds(b, a) && Holds(c, a)
      ensures b == c
    {
      HoldsIsBlockAt(b, a);
      HoldsIsBlockAt(c, a);
      if b.order < c.order {
        PathUp(h, roots, a, b.order, c.order);
      } else if c.order < b.order {
        PathUp(h, roots, a, c.order, b.order);
      }
    }
  }

  // ---------------------------------------------------------------- operations

  function SplitOne(h: Heap, b: Block): Heap
    requires b.order > 0
  {
    h[b := Split][Left(b) := Free][Right(b) := Free]
  }

  lemma SplitOneKeeps(h: Heap, roots: set<Block>, b: Block)
    requires WellFormed(h, roots)
    requires b in h && h[b] == Free && b.order > 0
    ensures WellFormed(SplitOne(h, b), roots)
    ensures Live(SplitOne(h, b)) == Live(h)
    ensures Left(b) !in h && Right(b) !in h
  {
    assert Parent(Left(b)) == b && Parent(Right(b)) == b;
    var g := SplitOne(h, b);
    assert forall c <- g :: c in h || c == Left(b) || c == Right(b);
  }

  /** Split b, then its low half, and so on until its first order-k block is free. */
  function SplitDown(h: Heap, b: Block, k: nat): Heap
    requires k <= b.order
    decreases b.order - k
  {
    if k == b.order then h else SplitOne(SplitDown(h, b, k + 1), First(b, k + 1))
  }

  lemma {:induction false} SplitDownKeeps(h: Heap, roots: set<Block>, b: Block, k: nat)
    requires WellFormed(h, roots)
    requires b in h && h[b] == Free && k <= b.order
    ensures WellFormed(SplitDown(h, b, k), roots)
    ensures Live(SplitDown(h, b, k)) == Live(h)
    ensures First(b, k) in SplitDown(h, b, k) && SplitDown(h, b, k)[First(b, k)] == Free
    decreases b.order - k
  {
    if k < b.order {
      SplitDownKeeps(h, roots, b, k + 1);
      SplitOneKeeps(SplitDown(h, b, k + 1), roots, First(b, k + 1));
    }
  }

  lemma SplitOneCanonical(h: Heap, roots: set<Block>, b: Block)
    requires b.order > 0 && WellFormed(h, roots) && WellFormed(SplitOne(h, b), roots)
    requires b in h && h[b] == Free && CanonicalBut(h, roots, b)
    ensures CanonicalBut(SplitOne(h, b), roots, Left(b))
  {
    var g := SplitOne(h, b);
    forall c | c in g && g[c] == Split && c != b
      ensures !(g[Left(c)] == Free && g[Right(c)] == Free)
    {
      assert c in h && h[c] == Split;
      if c == Parent(b) {
        assert b == Left(c) || b == Right(c);
      }
    }
  }

  /** In a chain of splits only the two halves at the bottom may both be free. */
  lemma {:induction false} SplitDownCanonical(h: Heap, roots: set<Block>, b: Block, k: nat)
    requires WellFormed(h, roots) && Canonical(h, roots)
    requires b in h && h[b] == Free && k <= b.order
    ensures WellFormed(SplitDown(h, b, k), roots)
    ensures CanonicalBut(SplitDown(h, b, k), roots, First(b, k))
    decreases b.order - k
  {
    SplitDownKeeps(h, roots, b, k);
    if k < b.order {
      SplitDownKeeps(h, roots, b, k + 1);
      SplitDownCanonical(h, roots, b, k + 1);
      SplitOneCanonical(SplitDown(h, b, k + 1), roots, First(b, k + 1));
    }
  }

  /** Splitting down to order k makes free blocks of order k and more only, and leaves the smaller ones as they were. */
  lemma {:induction false} SplitDownFree(h: Heap, b: Block, k: nat, d: Block)
    requires b in h && h[b] == Free && k <= b.order
    ensures var g := SplitDown(h, b, k); d in g && g[d] == Free ==> (d in h && h[d] == Free) || d.order >= k
    ensures var g := SplitDown(h, b, k); d in h && h[d] == Free && d.order < k ==> d in g && g[d] == Free
    decreases b.order - k
  {
    if k < b.order {
      SplitDownFree(h, b, k + 1, d);
    }
  }

  ghost predicate Fits(h: Heap, k: nat) {
    exists b <- h :: h[b] == Free && b.order >= k
  }

  ghost predicate SmallestFit(h: Heap, k: nat, c: Block) {
    && c in h && h[c] == Free && c.order >= k
    && forall d <- h :: h[d] == Free && d.order >= k ==> d.order >= c.order
  }

  /** The structs do not suffice to cut a smallest free block that holds an order-k block down to it. */
  ghost predicate RunsShort(h: Heap, k: nat, structs: nat) {
    exists c :: SmallestFit(h, k, c) && structs < 2 * (c.order - k)
  }

  lemma RunsShortBy(h: Heap, k: nat, structs: nat, c: Block)
    requires SmallestFit(h, k, c)
    ensures RunsShort(h, k, structs) <==> structs < 2 * (c.order - k)
  {
  }

  lemma NothingToCut(h: Heap, k: nat, structs: nat)
    requires !Fits(h, k)
    ensures !RunsShort(h, k, structs)
  {
  }

  /** No free block has an order above i up to k. */
  ghost predicate NoneBetween(h: Heap, i: nat, k: nat) {
    forall d <- h :: h[d] == Free && i < d.order ==> k < d.order
  }

  /** What a successful request for an order-k block may do: the block b comes out of the low end of a smallest
      free block c of order at least k, and is live afterwards. */
  ghost predicate AllocatesFrom(h: Heap, k: nat, c: Block, b: Block, g: Heap) {
    && SmallestFit(h, k, c)
    && b == First(c, k)
    && g == SplitDown(h, c, k)[b := Used]
  }

  ghost predicate Allocates(h: Heap, k: nat, b: Block, g: Heap) {
    exists c :: AllocatesFrom(h, k, c, b, g)
  }

  /** An allocation keeps the heap well-formed and adds exactly the new block to the live ones. */
  lemma AllocationKeeps(h: Heap, roots: set<Block>, k: nat, b: Block, g: Heap)
    requires WellFormed(h, roots) && Allocates(h, k, b, g)
    ensures WellFormed(g, roots)
    ensures Live(g) == Live(h) + {b} && b !in Live(h) && b.order == k
  {
    var c :| AllocatesFrom(h, k, c, b, g);
    SplitDownKeeps(h, roots, c, k);
    MarkKeeps(SplitDown(h, c, k), roots, b, Used);
  }

  lemma MarkKeeps(h: Heap, roots: set<Block>, b: Block, s: Status)
    requires WellFormed(h, roots) && b in h && h[b] != Split && s != Split
    ensures WellFormed(h[b := s], roots)
    ensures Live(h[b := s]) == if s == Used then Live(h) + {b} else Live(h) - {b}
    ensures b in Live(h) <==> h[b] == Used
  {
  }

  /** The new block shares no address with a live block. */
  lemma AllocationIsApart(h: Heap, roots: set<Block>, k: nat, b: Block, g: Heap, c: Block, a: nat)
    requires WellFormed(h, roots) && Allocates(h, k, b, g)
    requires c in Live(h) && Holds(c, a)
    ensures !Holds(b, a)
  {
    AllocationKeeps(h, roots, k, b, g);
    assert c in Live(g) && b in Live(g) && b != c;
    Tiling(g, roots, a);
  }

  lemma AllocationStaysCanonical(h: Heap, roots: set<Block>, k: nat, b: Block, g: Heap)
    requires WellFormed(h, roots) && Allocates(h, k, b, g) && Canonical(h, roots)
    ensures WellFormed(g, roots) && Canonical(g, roots)
  {
    var c :| AllocatesFrom(h, k, c, b, g);
    AllocationKeeps(h, roots, k, b, g);
    SplitDownCanonical(h, roots, c, k);
    MarkedIsCanonical(SplitDown(h, c, k), roots, b);
  }

  lemma MarkedIsCanonical(h: Heap, roots: set<Block>, b: Block)
    requires WellFormed(h, roots) && b in h && h[b] != Split && CanonicalBut(h, roots, b)
    requires WellFormed(h[b := Used], roots)
    ensures Canonical(h[b := Used], roots)
  {
    var g := h[b := Used];
    forall e {:trigger Left(e)} {:trigger Right(e)} | e in g && g[e] == Split
      ensures !(g[Left(e)] == Free && g[Right(e)] == Free)
    {
      assert e in h && h[e] == Split;
      if e == Parent(b) {
        HalfOfParent(b);
      }
    }
  }

  /** Both halves of p become one free block again. */
  function Join(h: Heap, p: Block): Heap
    requires p.order > 0
  {
    (h - {Left(p), Right(p)})[p := Free]
  }

  lemma JoinKeeps(h: Heap, roots: set<Block>, p: Block)
    requires WellFormed(h, roots)
    requires p in h && h[p] == Split && h[Left(p)] != Split && h[Right(p)] != Split
    ensures WellFormed(Join(h, p), roots)
  {
    var g := Join(h, p);
    assert p !in roots || p.order == MAX_ORDER;
    forall c {:trigger Parent(c)} | c in g && c.order < MAX_ORDER
      ensures Parent(c) in g && g[Parent(c)] == Split
    {
      assert c in h && h[Parent(c)] == Split;
      HalfOfParent(c);
    }
    forall c {:trigger Left(c)} | c in g && g[c] == Split
      ensures Left(c) in g && Right(c) in g
    {
      assert c in h && h[c] == Split;
      assert Parent(Left(c)) == c && Parent(Right(c)) == c;
    }
  }

  /** Join b with its buddy while both are free, then go on with the joined block. */
  function MergeUp(h: Heap, b: Block): Heap
    decreases MAX_ORDER - b.order
  {
    if b.order >= MAX_ORDER then h else
    var p := Parent(b);
    if Left(p) in h && Right(p) in h && h[Left(p)] == Free && h[Right(p)] == Free then MergeUp(Join(h, p), p) else h
  }

  /** The heap is canonical except that b and its buddy may both be free. */
  ghost predicate CanonicalBut(h: Heap, roots: set<Block>, b: Block)
    requires WellFormed(h, roots)
  {
    forall c {:trigger Left(c)} {:trigger Right(c)} | c in h && h[c] == Split && c != Parent(b) ::
      !(h[Left(c)] == Free && h[Right(c)] == Free)
  }

  lemma {:induction false} MergeUpKeeps(h: Heap, roots: set<Block>, b: Block)
    requires WellFormed(h, roots)
    requires b in h && h[b] == Free
    ensures WellFormed(MergeUp(h, b), roots)
    ensures Live(MergeUp(h, b)) == Live(h)
    ensures CanonicalBut(h, roots, b) ==> Canonical(MergeUp(h, b), roots)
    decreases MAX_ORDER - b.order
  {
    if b.order < MAX_ORDER {
      var p := Parent(b);
      assert b == Left(p) || b == Right(p);
      if h[Left(p)] == Free && h[Right(p)] == Free {
        JoinKeeps(h, roots, p);
        var g := Join(h, p);
        assert Live(g) == Live(h);
        if CanonicalBut(h, roots, b) {
          forall c <- g | g[c] == Split && c != Parent(p)
            ensures !(g[Left(c)] == Free && g[Right(c)] == Free)
          {
            assert c in h && h[c] == Split && c != p;
            assert Left(c) in g && Right(c) in g;
          }
        }
        MergeUpKeeps(g, roots, p);
      }
    } else {
      assert forall c <- h :: c != Parent(b);
    }
  }

  function Release(h: Heap, b: Block): Heap {
    MergeUp(h[b := Free], b)
  }

  /** Releasing a live block keeps the heap well-formed and canonical and removes exactly that block. */
  lemma ReleaseKeeps(h: Heap, roots: set<Block>, b: Block)
    requires WellFormed(h, roots) && b in Live(h)
    ensures WellFormed(Release(h, b), roots)
    ensures Live(Release(h, b)) == Live(h) - {b}
    ensures Canonical(h, roots) ==> Canonical(Release(h, b), roots)
  {
    var g := h[b := Free];
    assert Live(g) == Live(h) - {b};
    if Canonical(h, roots) {
      forall c <- g | g[c] == Split && c != Parent(b)
        ensures !(g[Left(c)] == Free && g[Right(c)] == Free)
      {
        assert c in h && h[c] == Split;
        assert b == Left(c) || b == Right(c) ==> c == Parent(b);
      }
    }
    MergeUpKeeps(g, roots, b);
  }
}
