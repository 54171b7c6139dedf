/** Whole runs of calls to the allocator. */
module HeapCalls {
  import opened Blocks
  import opened BuddyAllocator
  import opened HeapSupply
  import opened HeapRuns
  import MemTest

  /** A call of kmalloc, one of try_free, or one more block for the pool. */
  datatype Call = Kmalloc(size: nat, pageAlign: bool) | TryFree(memory: nat) | Grow

  /** The request that a call makes of the forest: an allocation of the least order, the release of the live block that
      starts at the address, or nothing if there is none. */
  ghost predicate Makes(h: Heap, c: Call, r: Request) {
    match c
    case Kmalloc(size, pageAlign) => r == Alloc(OrderOf(size, pageAlign))
    case TryFree(memory) =>
      && r.Dealloc?
      && if exists b <- Live(h) :: Start(b) == memory then r.block in Live(h) && Start(r.block) == memory
        else r.block !in Live(h)
    case Grow => r == Alloc(POOL_ORDER)
  }

  /** Structs that suffice for any split. */
  const PLENTY: nat := 2 * MAX_ORDER

  /** The order of the block that a call allocates. */
  function OrderOfCall(c: Call): nat
    requires !c.TryFree?
  {
    if c.Kmalloc? then OrderOf(c.size, c.pageAlign) else POOL_ORDER
  }

  /** What a call does: an allocation returns the start of a new live block of its order, or null if no free block is
      large enough; a release takes away the live block that starts at the address, if there is one. */
  ghost predicate Does(h: Heap, c: Call, addr: nat, b: Block, g: Heap) {
    if c.TryFree? then
      && addr == 0
      && if exists d <- Live(h) :: Start(d) == c.memory then
        b in Live(h) && Start(b) == c.memory && Live(g) == Live(h) - {b}
      else Live(g) == Live(h)
    else
      && (addr != 0 <==> Fits(h, OrderOfCall(c)))
      && if addr != 0 then
        b !in Live(h) && Live(g) == Live(h) + {b} && Start(b) == addr && b.order == OrderOfCall(c)
      else Live(g) == Live(h)
  }

  lemma DoesAllocate(h: Heap, roots: set<Block>, c: Call, from: Block, b: Block, g: Heap)
    requires WellFormed(h, roots) && !c.TryFree? && AllocatesFrom(h, OrderOfCall(c), from, b, g) && Start(b) > 0
    ensures Does(h, c, Start(b), b, g) && Step(h, Alloc(OrderOfCall(c)), g)
  {
    assert Allocates(h, OrderOfCall(c), b, g) && Fits(h, OrderOfCall(c));
    AllocationKeeps(h, roots, OrderOfCall(c), b, g);
  }

  lemma DoesNothing(h: Heap, c: Call, b: Block)
    requires !c.TryFree? && !Fits(h, OrderOfCall(c))
    ensures Does(h, c, 0, b, h) && Step(h, Alloc(OrderOfCall(c)), h)
  {
  }

  lemma DoesRelease(h: Heap, roots: set<Block>, c: Call, b: Block)
    requires WellFormed(h, roots) && b in Live(h) && c.TryFree? && Start(b) == c.memory
    ensures Does(h, c, 0, b, Release(h, b)) && Step(h, Dealloc(b), Release(h, b)) && Makes(h, c, Dealloc(b))
  {
    ReleaseKeeps(h, roots, b);
  }

  lemma DoesNotRelease(h: Heap, roots: set<Block>, c: Call, b: Block)
    requires WellFormed(h, roots) && c.TryFree? && !(exists d <- h :: h[d] == Used && Start(d) == c.memory)
    ensures Does(h, c, 0, b, h) && Step(h, Dealloc(NoBlock()), h) && Makes(h, c, Dealloc(NoBlock()))
  {
  }

  function NoBlock(): Block {
    Block(0, MAX_ORDER + 1)
  }

  /** One call is one step of the forest. An allocation needs structs for its splits, a release needs none. Of the
      structs beyond those for the orders that are missing an allocation costs at most two, a release none. */
  method Serve(heap: Buddy, c: Call) returns (addr: nat, ghost b: Block, ghost r: Request)
    requires heap.Valid() && heap.poolReserved
    requires !c.TryFree? ==> !RunsShort(heap.heap, OrderOfCall(c), heap.pool.freeObjects)
    requires (c.Kmalloc? ==> c.size <= MAX_REQUEST) && (c.TryFree? ==> c.memory !in heap.pool.donated)
    modifies heap, heap.pool
    ensures heap.Valid() && heap.poolReserved && heap.pool == old(heap.pool) && heap.roots == old(heap.roots)
    ensures Step(old(heap.heap), r, heap.heap) && Makes(old(heap.heap), c, r)
    ensures Does(old(heap.heap), c, addr, b, heap.heap)
    ensures heap.pool.donated == old(heap.pool.donated) + if c.Grow? && addr != 0 then [addr] else []
    ensures heap.pool.freeObjects - Missing(heap.heap)
      >= old(heap.pool.freeObjects - Missing(heap.heap)) - if c.TryFree? then 0 else 2
  {
    hide Buddy.Valid, WellFormed, Step, Makes, AllocatesFrom, Fits, RunsShort, Live, Start, IsOrderFor, OrderOf,
      SmallestFit, Release, Does, SplitDown, Missing;
    ghost var h, structs := heap.heap, heap.pool.freeObjects;
    MemTest.ValidFacts(heap);
    heap.FreeStructs();
    addr, b := 0, Block(0, 0);
    ghost var k, from;
    match c
    case Kmalloc(size, pageAlign) =>
      addr, k, b, from := heap.Kmalloc(size, pageAlign);
      OrderOfIs(size, pageAlign, k);
      r := Alloc(k);
      MakesAlloc(h, c, k);
      if Fits(h, k) {
        RunsShortBy(h, k, structs, from);
      }
      if addr != 0 {
        DoesAllocate(h, heap.roots, c, from, b, heap.heap);
        AllocationCredit(h, heap.roots, OrderOfCall(c), from, b, heap.heap);
      } else {
        DoesNothing(h, c, b);
      }
    case TryFree(memory) =>
      var err;
      err, b := heap.TryFree(memory);
      if err == 0 {
        r := Dealloc(b);
        DoesRelease(h, heap.roots, c, b);
        ReleaseCredit(h, heap.roots, b);
        heap.FreeStructs();
      } else {
        r := Dealloc(NoBlock());
        DoesNotRelease(h, heap.roots, c, b);
      }
    case Grow =>
      addr, b, from := heap.GrowPool();
      r := Alloc(POOL_ORDER);
      MakesAlloc(h, c, POOL_ORDER);
      if addr != 0 {
        DoesAllocate(h, heap.roots, c, from, b, heap.heap);
        AllocationCredit(h, heap.roots, OrderOfCall(c), from, b, heap.heap);
      } else {
        DoesNothing(h, c, b);
      }
  }

  lemma MakesAlloc(h: Heap, c: Call, k: nat)
    ensures c.Kmalloc? && k == OrderOf(c.size, c.pageAlign) ==> Makes(h, c, Alloc(k))
    ensures c.Grow? && k == POOL_ORDER ==> Makes(h, c, Alloc(k))
  {
  }

  lemma RunMore(hs: seq<Heap>, rs: seq<Request>, r: Request, g: Heap)
    requires IsRun(hs, rs) && Step(hs[|rs|], r, g)
    ensures IsRun(hs + [g], rs + [r])
  {
    hide Step;
    var hs', rs' := hs + [g], rs + [r];
    forall i | 0 <= i < |rs'|
      ensures Step(hs'[i], rs'[i], hs'[i + 1])
    {
      if i < |rs| {
        assert Step(hs[i], rs[i], hs[i + 1]);
      }
    }
  }

  // ---------------------------------------------------------------- programs

  /** A step of a program: an allocation, the release of what an earlier allocation was given, or one more block for
      the pool. */
  datatype Op = Get(size: nat, pageAlign: bool) | GiveBack(of: nat) | More

  /** Only allocations are given back, none before it is made or twice. */
  ghost predicate Disciplined(ops: seq<Op>) {
    && (forall i | 0 <= i < |ops| && ops[i].GiveBack? :: ops[i].of < i && ops[ops[i].of].Get?)
    && (forall i, j | 0 <= i < j < |ops| && ops[i].GiveBack? && ops[j].GiveBack? :: ops[i].of != ops[j].of)
    && (forall i | 0 <= i < |ops| && ops[i].Get? :: ops[i].size <= MAX_REQUEST)
  }

  /** The call of a step, given what the earlier steps returned; a step that returned null is given back as null. */
  function CallOf(op: Op, results: seq<nat>): Call {
    match op
    case Get(size, pageAlign) => Kmalloc(size, pageAlign)
    case GiveBack(of) => TryFree(if of < |results| then results[of] else 0)
    case More => Grow
  }

  /** Step j was given something that has not been given back in the first n steps. */
  ghost predicate Outstanding(ops: seq<Op>, results: seq<nat>, n: nat, j: nat) {
    && j < n <= |ops| && n <= |results| && ops[j].Get? && results[j] != 0
    && forall i | 0 <= i < n && ops[i].GiveBack? :: ops[i].of != j
  }

  /** What step j was given is still there: outstanding, or part of the pool. */
  ghost predicate Kept(ops: seq<Op>, results: seq<nat>, n: nat, j: nat) {
    Outstanding(ops, results, n, j) || (j < n <= |ops| && n <= |results| && ops[j].More? && results[j] != 0)
  }

  /** The live blocks are those from before and, one for each, those of the steps whose block is still there; what is
      outstanding is not the pool's. */
  ghost predicate Owned(h: Heap, live0: set<Block>, donated: seq<int>, ops: seq<Op>, results: seq<nat>,
      blocks: seq<Block>, n: nat) {
    && |results| == |blocks| == n <= |ops| && live0 <= Live(h)
    && (forall j: nat | Kept(ops, results, n, j) ::
      blocks[j] in Live(h) && Start(blocks[j]) == results[j] && blocks[j] !in live0)
    && (forall i: nat, j: nat | i < j && Kept(ops, results, n, i) && Kept(ops, results, n, j) :: blocks[i] != blocks[j])
    && (forall b | b in Live(h) :: b in live0 || HasBlock(ops, results, blocks, n, b))
    && (forall j: nat | Outstanding(ops, results, n, j) :: results[j] !in donated)
  }

  ghost predicate HasBlock(ops: seq<Op>, results: seq<nat>, blocks: seq<Block>, n: nat, b: Block) {
    exists j: nat :: j < |blocks| && Kept(ops, results, n, j) && blocks[j] == b
  }

  lemma KeptFacts(ops: seq<Op>, results: seq<nat>, n: nat, j: nat)
    requires Kept(ops, results, n, j)
    ensures j < n <= |ops| && n <= |results| && results[j] != 0
  {
  }

  /** What is there after one step more was there before, or is what this step was given. */
  lemma KeptNext(ops: seq<Op>, results: seq<nat>, addr: nat, n: nat, j: nat)
    requires |results| == n < |ops|
    ensures j < n ==> (Kept(ops, results + [addr], n + 1, j) <==>
      Kept(ops, results, n, j) && !(ops[n].GiveBack? && ops[n].of == j && ops[j].Get?))
    ensures j < n ==> (Outstanding(ops, results + [addr], n + 1, j) <==>
      Outstanding(ops, results, n, j) && !(ops[n].GiveBack? && ops[n].of == j))
    ensures Kept(ops, results + [addr], n + 1, n) ==> !ops[n].GiveBack? && addr != 0
    ensures Disciplined(ops) && !ops[n].GiveBack? && addr != 0 ==> Kept(ops, results + [addr], n + 1, n)
  {
  }

  lemma NotThePool(h: Heap, roots: set<Block>, donated: seq<int>, g: Heap, b: Block)
    requires WellFormed(g, roots) && b in Live(g) && b !in Live(h) && Live(h) <= Live(g)
    requires forall d <- donated :: PoolBlock(h, d)
    ensures Start(b) !in donated
  {
    if Start(b) in donated {
      var c :| c in h && h[c] == Used && c.order == POOL_ORDER && Start(c) == Start(b);
      assert c in Live(h);
      MemTest.StartsDiffer(g, roots, b, c);
    }
  }

  /** What is given back is outstanding, or null. */
  lemma GivenBack(ops: seq<Op>, results: seq<nat>, n: nat)
    requires |results| == n < |ops| && Disciplined(ops) && ops[n].GiveBack?
    ensures ops[n].of < n && ops[ops[n].of].Get? && CallOf(ops[n], results) == TryFree(results[ops[n].of])
    ensures results[ops[n].of] != 0 ==> Outstanding(ops, results, n, ops[n].of)
  {
  }

  lemma OwnedAtStart(h: Heap, donated: seq<int>, ops: seq<Op>)
    ensures Owned(h, Live(h), donated, ops, [], [], 0)
  {
  }

  lemma OwnFacts(h: Heap, live0: set<Block>, donated: seq<int>, ops: seq<Op>, results: seq<nat>, blocks: seq<Block>,
      n: nat, j: nat)
    requires Owned(h, live0, donated, ops, results, blocks, n) && Kept(ops, results, n, j)
    ensures j < n && blocks[j] in Live(h) && Start(blocks[j]) == results[j] != 0 && blocks[j] !in live0
    ensures forall i: nat | i < n && i != j && Kept(ops, results, n, i) :: blocks[i] != blocks[j]
    ensures Outstanding(ops, results, n, j) ==> results[j] !in donated
  {
    hide Outstanding;
    KeptFacts(ops, results, n, j);
    forall i: nat | i < n && i != j && Kept(ops, results, n, i)
      ensures blocks[i] != blocks[j]
    {
      if i < j {
        assert blocks[i] != blocks[j];
      } else {
        assert blocks[j] != blocks[i];
      }
    }
  }

  lemma CallIsAllowed(heap: Buddy, live0: set<Block>, ops: seq<Op>, results: seq<nat>, blocks: seq<Block>, n: nat)
    requires heap.Valid() && Owned(heap.heap, live0, heap.pool.donated, ops, results, blocks, n) && n < |ops|
      && Disciplined(ops)
    ensures var c := CallOf(ops[n], results);
      && (c.Kmalloc? ==> c.size <= MAX_REQUEST) && (c.TryFree? ==> c.memory !in heap.pool.donated)
      && (c.TryFree? <==> ops[n].GiveBack?) && (c.Grow? <==> ops[n].More?)
  {
    hide Outstanding;
    DonatedPositive(heap);
    if ops[n].GiveBack? {
      GivenBack(ops, results, n);
    }
  }

  lemma DonatedPositive(heap: Buddy)
    requires heap.Valid()
    ensures 0 !in heap.pool.donated && forall r <- heap.roots :: r.index > 0
  {
  }

  /** One allocation more. */
  lemma OwnedMore(h: Heap, roots: set<Block>, live0: set<Block>, donated: seq<int>, ops: seq<Op>, results: seq<nat>,
      blocks: seq<Block>, n: nat, addr: nat, b: Block, g: Heap, donated': seq<int>)
    requires Owned(h, live0, donated, ops, results, blocks, n) && n < |ops| && !ops[n].GiveBack? && Disciplined(ops)
    requires WellFormed(g, roots) && forall d <- donated :: PoolBlock(h, d)
    requires if addr != 0 then b !in Live(h) && Live(g) == Live(h) + {b} && Start(b) == addr else Live(g) == Live(h)
    requires donated' == donated + if ops[n].More? && addr != 0 then [addr] else []
    ensures Owned(g, live0, donated', ops, results + [addr], blocks + [b], n + 1)
  {
    hide WellFormed, PoolBlock, Outstanding, Start, Live, Kept, Disciplined;
    var results', blocks' := results + [addr], blocks + [b];
    forall j: nat | Kept(ops, results', n + 1, j)
      ensures j <= n && blocks'[j] in Live(g) && Start(blocks'[j]) == results'[j] && blocks'[j] !in live0
      ensures j < n ==> Kept(ops, results, n, j) && blocks'[j] in Live(h)
    {
      KeptFacts(ops, results', n + 1, j);
      KeptNext(ops, results, addr, n, j);
      if j < n {
        OwnFacts(h, live0, donated, ops, results, blocks, n, j);
      }
    }
    forall i: nat, j: nat | i < j && Kept(ops, results', n + 1, i) && Kept(ops, results', n + 1, j)
      ensures j <= n && blocks'[i] != blocks'[j]
    {
      KeptFacts(ops, results', n + 1, j);
      KeptNext(ops, results, addr, n, j);
      if j < n {
        OwnFacts(h, live0, donated, ops, results, blocks, n, j);
      }
    }
    forall d | d in Live(g)
      ensures d in live0 || HasBlock(ops, results', blocks', n + 1, d)
    {
      MoreHasBlock(h, live0, donated, ops, results, blocks, n, addr, b, d);
    }
    forall j: nat | Outstanding(ops, results', n + 1, j)
      ensures j <= n && results'[j] !in donated'
    {
      MoreNotDonated(h, roots, live0, donated, ops, results, blocks, n, addr, b, g, donated', j);
    }
  }

  lemma MoreHasBlock(h: Heap, live0: set<Block>, donated: seq<int>, ops: seq<Op>, results: seq<nat>,
      blocks: seq<Block>, n: nat, addr: nat, b: Block, d: Block)
    requires Owned(h, live0, donated, ops, results, blocks, n) && n < |ops| && !ops[n].GiveBack? && Disciplined(ops)
    requires d in Live(h) || (addr != 0 && d == b)
    ensures d in live0 || HasBlock(ops, results + [addr], blocks + [b], n + 1, d)
  {
    hide Outstanding, Kept, Live, Disciplined;
    var blocks' := blocks + [b];
    if d in Live(h) {
      if d !in live0 {
        var j: nat :| j < |blocks| && Kept(ops, results, n, j) && blocks[j] == d;
        KeptNext(ops, results, addr, n, j);
        assert blocks'[j] == d;
      }
    } else {
      KeptNext(ops, results, addr, n, n);
      assert blocks'[n] == d;
    }
  }

  lemma MoreNotDonated(h: Heap, roots: set<Block>, live0: set<Block>, donated: seq<int>, ops: seq<Op>,
      results: seq<nat>, blocks: seq<Block>, n: nat, addr: nat, b: Block, g: Heap, donated': seq<int>, j: nat)
    requires Owned(h, live0, donated, ops, results, blocks, n) && n < |ops| && !ops[n].GiveBack? && Disciplined(ops)
    requires WellFormed(g, roots) && forall d <- donated :: PoolBlock(h, d)
    requires if addr != 0 then b !in Live(h) && Live(g) == Live(h) + {b} && Start(b) == addr else Live(g) == Live(h)
    requires donated' == donated + if ops[n].More? && addr != 0 then [addr] else []
    requires Outstanding(ops, results + [addr], n + 1, j)
    ensures j <= n && (results + [addr])[j] !in donated'
  {
    hide WellFormed, PoolBlock, Start, Live, Owned, Kept, Outstanding, Disciplined;
    OwnLength(h, live0, donated, ops, results, blocks, n);
    OutstandingIsKept(ops, results + [addr], n + 1, j);
    KeptFacts(ops, results + [addr], n + 1, j);
    KeptNext(ops, results, addr, n, j);
    if j < n {
      OutstandingIsKept(ops, results, n, j);
      OwnFacts(h, live0, donated, ops, results, blocks, n, j);
      if addr != 0 && results[j] == addr {
        MemTest.StartsDiffer(g, roots, blocks[j], b);
      }
    } else {
      NotThePool(h, roots, donated, g, b);
    }
  }

  lemma OwnLength(h: Heap, live0: set<Block>, donated: seq<int>, ops: seq<Op>, results: seq<nat>, blocks: seq<Block>,
      n: nat)
    requires Owned(h, live0, donated, ops, results, blocks, n)
    ensures |results| == |blocks| == n <= |ops|
  {
  }

  /** One release more. */
  lemma OwnedLess(h: Heap, roots: set<Block>, live0: set<Block>, donated: seq<int>, ops: seq<Op>, results: seq<nat>,
      blocks: seq<Block>, n: nat, b: Block, g: Heap)
    requires Owned(h, live0, donated, ops, results, blocks, n) && n < |ops| && Disciplined(ops) && ops[n].GiveBack?
    requires WellFormed(h, roots) && forall r <- roots :: r.index > 0
    requires Does(h, CallOf(ops[n], results), 0, b, g)
    ensures Owned(g, live0, donated, ops, results + [0], blocks + [b], n + 1)
  {
    hide WellFormed, Outstanding, Start, Live, Kept, Disciplined;
    var results', blocks', of := results + [0], blocks + [b], ops[n].of;
    GivenBack(ops, results, n);
    ReleasedIs(h, roots, live0, donated, ops, results, blocks, n, b, g);
    forall j: nat | Kept(ops, results', n + 1, j)
      ensures j < n && Kept(ops, results, n, j) && j != of
      ensures blocks'[j] in Live(g) && Start(blocks'[j]) == results'[j] && blocks'[j] !in live0
      ensures Outstanding(ops, results', n + 1, j) ==> results'[j] !in donated
    {
      KeptFacts(ops, results', n + 1, j);
      KeptNext(ops, results, 0, n, j);
      KeptNext(ops, results, 0, n, n);
      OwnFacts(h, live0, donated, ops, results, blocks, n, j);
    }
    forall i: nat, j: nat | i < j && Kept(ops, results', n + 1, i) && Kept(ops, results', n + 1, j)
      ensures j < n && blocks'[i] != blocks'[j]
    {
      OwnFacts(h, live0, donated, ops, results, blocks, n, j);
    }
    forall d | d in Live(g)
      ensures d in live0 || HasBlock(ops, results', blocks', n + 1, d)
    {
      if d !in live0 {
        var j: nat :| j < |blocks| && Kept(ops, results, n, j) && blocks[j] == d;
        KeptNext(ops, results, 0, n, j);
        OwnFacts(h, live0, donated, ops, results, blocks, n, j);
        assert blocks'[j] == d;
      }
    }
    forall j: nat | Outstanding(ops, results', n + 1, j)
      ensures j < n && results'[j] !in donated
    {
      OutstandingIsKept(ops, results', n + 1, j);
      assert Kept(ops, results', n + 1, j);
    }
  }

  lemma OutstandingIsKept(ops: seq<Op>, results: seq<nat>, n: nat, j: nat)
    requires Outstanding(ops, results, n, j)
    ensures Kept(ops, results, n, j) && j < |ops| && ops[j].Get?
  {
  }

  /** The block released is that of the step given back; giving back null releases none. */
  lemma ReleasedIs(h: Heap, roots: set<Block>, live0: set<Block>, donated: seq<int>, ops: seq<Op>, results: seq<nat>,
      blocks: seq<Block>, n: nat, b: Block, g: Heap)
    requires Owned(h, live0, donated, ops, results, blocks, n) && n < |ops| && Disciplined(ops) && ops[n].GiveBack?
    requires WellFormed(h, roots) && forall r <- roots :: r.index > 0
    requires Does(h, CallOf(ops[n], results), 0, b, g)
    ensures ops[n].of < n
    ensures results[ops[n].of] != 0 ==> Kept(ops, results, n, ops[n].of) && Live(g) == Live(h) - {blocks[ops[n].of]}
    ensures results[ops[n].of] == 0 ==> Live(g) == Live(h) && !Kept(ops, results, n, ops[n].of)
  {
    hide Outstanding, Disciplined, Start;
    var of := ops[n].of;
    GivenBack(ops, results, n);
    if results[of] != 0 {
      OwnFacts(h, live0, donated, ops, results, blocks, n, of);
      MemTest.StartsDiffer(h, roots, blocks[of], b);
    } else {
      forall d | d in Live(h)
        ensures Start(d) != 0
      {
        StartPositive(h, roots, d);
      }
      NullNotKept(ops, results, n, of);
    }
  }

  lemma NullNotKept(ops: seq<Op>, results: seq<nat>, n: nat, j: nat)
    requires j < |results| && results[j] == 0
    ensures !Kept(ops, results, n, j)
  {
  }

  lemma OwnedNext(h: Heap, roots: set<Block>, live0: set<Block>, donated: seq<int>, ops: seq<Op>, results: seq<nat>,
      blocks: seq<Block>, n: nat, addr: nat, b: Block, g: Heap, donated': seq<int>)
    requires Owned(h, live0, donated, ops, results, blocks, n) && n < |ops| && Disciplined(ops)
    requires WellFormed(h, roots) && WellFormed(g, roots) && forall d <- donated :: PoolBlock(h, d)
    requires forall r <- roots :: r.index > 0
    requires Does(h, CallOf(ops[n], results), addr, b, g)
    requires donated' == donated + if ops[n].More? && addr != 0 then [addr] else []
    ensures Owned(g, live0, donated', ops, results + [addr], blocks + [b], n + 1)
  {
    hide WellFormed, PoolBlock, Owned, Disciplined, Start, Live, Fits, OrderOf;
    if ops[n].GiveBack? {
      assert addr == 0 && donated' == donated;
      OwnedLess(h, roots, live0, donated, ops, results, blocks, n, b, g);
    } else {
      OwnedMore(h, roots, live0, donated, ops, results, blocks, n, addr, b, g, donated');
    }
  }

  /** With nothing left of what was given, the live blocks are those from before. */
  lemma NothingKept(h: Heap, live0: set<Block>, donated: seq<int>, ops: seq<Op>, results: seq<nat>, blocks: seq<Block>,
      n: nat)
    requires Owned(h, live0, donated, ops, results, blocks, n) && forall j: nat :: !Kept(ops, results, n, j)
    ensures Live(h) == live0
  {
    hide Kept, Live;
  }

  /** Each step i did what its call does between the heaps i and i + 1, and returned results[i] for blocks[i]. */
  ghost predicate Traced(hs: seq<Heap>, rs: seq<Request>, ops: seq<Op>, results: seq<nat>, blocks: seq<Block>, n: nat) {
    && |hs| == n + 1 && |rs| == |results| == |blocks| == n <= |ops|
    && forall i | 0 <= i < n :: TracedAt(hs, rs, ops, results, blocks, i)
  }

  ghost predicate TracedAt(hs: seq<Heap>, rs: seq<Request>, ops: seq<Op>, results: seq<nat>, blocks: seq<Block>, i: int)
    requires 0 <= i < |ops| && i < |rs| && i < |results| && i < |blocks| && i + 1 < |hs|
  {
    var c := match ops[i]
      case Get(size, pageAlign) => Kmalloc(size, pageAlign)
      case GiveBack(of) => TryFree(if of < i then results[of] else 0)
      case More => Grow;
    Makes(hs[i], c, rs[i]) && Does(hs[i], c, results[i], blocks[i], hs[i + 1])
  }

  lemma TracedMore(hs: seq<Heap>, rs: seq<Request>, ops: seq<Op>, results: seq<nat>, blocks: seq<Block>, n: nat,
      g: Heap, r: Request, addr: nat, b: Block)
    requires Traced(hs, rs, ops, results, blocks, n) && n < |ops|
    requires Makes(hs[n], CallOf(ops[n], results), r) && Does(hs[n], CallOf(ops[n], results), addr, b, g)
    ensures Traced(hs + [g], rs + [r], ops, results + [addr], blocks + [b], n + 1)
  {
    hide Makes, Does;
    var hs', rs', results', blocks' := hs + [g], rs + [r], results + [addr], blocks + [b];
    forall i | 0 <= i < n + 1
      ensures TracedAt(hs', rs', ops, results', blocks', i)
    {
      if i < n {
        assert TracedAt(hs, rs, ops, results, blocks, i);
      }
    }
  }

  /** How many of the steps from the n-th on allocate. */
  function Allocations(ops: seq<Op>, n: nat): nat
    requires n <= |ops|
    decreases |ops| - n
  {
    if n == |ops| then 0 else (if ops[n].GiveBack? then 0 else 1) + Allocations(ops, n + 1)
  }

  /** What the steps so far gave to the pool. */
  function Grown(ops: seq<Op>, results: seq<nat>): seq<int>
    requires |results| <= |ops|
  {
    if results == [] then [] else
    var n := |results| - 1;
    Grown(ops, results[..n]) + if ops[n].More? && results[n] != 0 then [results[n]] else []
  }

  lemma GrownNext(ops: seq<Op>, results: seq<nat>, addr: nat)
    requires |results| < |ops|
    ensures Grown(ops, results + [addr])
      == Grown(ops, results) + if ops[|results|].More? && addr != 0 then [addr] else []
  {
    assert (results + [addr])[..|results|] == results;
  }

  /** A program runs up to the first allocation for which the structs might not suffice. Each step does what its call
      does; what happens to the forest is a run, so it stays canonical. The live blocks are those from before and those
      not given back, and once everything is given back, in whatever order, forest and structs are those from before. */
  method RunProgram(heap: Buddy, ops: seq<Op>)
      returns (n: nat, results: seq<nat>, ghost blocks: seq<Block>, ghost hs: seq<Heap>, ghost rs: seq<Request>)
    requires heap.Valid() && heap.poolReserved && WellFormed(heap.heap, heap.roots) && Canonical(heap.heap, heap.roots)
    requires Disciplined(ops)
    modifies heap, heap.pool
    ensures heap.Valid() && heap.poolReserved && heap.roots == old(heap.roots)
    ensures n <= |ops| && (n < |ops| ==> !ops[n].GiveBack? && heap.pool.freeObjects < 26)
    ensures old(heap.pool.freeObjects >= Missing(heap.heap) + 2 * Allocations(ops, 0) + 26) ==> n == |ops|
    ensures |results| == n && heap.pool.donated == old(heap.pool.donated) + Grown(ops, results)
    ensures Traced(hs, rs, ops, results, blocks, n) && IsRun(hs, rs) && hs[0] == old(heap.heap) && hs[n] == heap.heap
    ensures WellFormed(heap.heap, heap.roots) && Canonical(heap.heap, heap.roots)
    ensures Owned(heap.heap, old(Live(heap.heap)), heap.pool.donated, ops, results, blocks, n)
    ensures (forall j: nat :: !Kept(ops, results, n, j)) ==>
      heap.heap == old(heap.heap) && heap.pool.freeObjects == old(heap.pool.freeObjects)
  {
    hide Buddy.Valid, WellFormed, Canonical, Step, Makes, Live, Owned, Disciplined, Does, PoolBlock, Kept, RunsShort,
      CallOf, Traced, Missing, Grown;
    ghost var live0, donated0 := Live(heap.heap), heap.pool.donated;
    ghost var credit := heap.pool.freeObjects - Missing(heap.heap) - 2 * Allocations(ops, 0);
    heap.FreeStructs();
    hs, rs, results, blocks := [heap.heap], [], [], [];
    n := 0;
    OwnedAtStart(heap.heap, heap.pool.donated, ops);
    NothingTraced(heap.heap, ops);
    NothingGrown(ops);
    while n < |ops| && (ops[n].GiveBack? || heap.pool.freeObjects >= PLENTY)
      invariant n <= |ops| && heap.Valid() && heap.poolReserved && heap.pool == old(heap.pool)
        && heap.roots == old(heap.roots)
      invariant |hs| == n + 1 && |results| == |rs| == n && IsRun(hs, rs) && hs[0] == old(heap.heap)
        && hs[n] == heap.heap
      invariant Traced(hs, rs, ops, results, blocks, n)
      invariant Owned(heap.heap, live0, heap.pool.donated, ops, results, blocks, n)
      invariant heap.pool.donated == donated0 + Grown(ops, results)
      invariant heap.pool.freeObjects - Missing(heap.heap) - 2 * Allocations(ops, n) >= credit
    {
      MemTest.ValidFacts(heap);
      DonatedPositive(heap);
      CallIsAllowed(heap, live0, ops, results, blocks, n);
      ghost var h, donated, c := heap.heap, heap.pool.donated, CallOf(ops[n], results);
      if !c.TryFree? {
        EnoughStructs(h, heap.roots, OrderOfCall(c), heap.pool.freeObjects);
      }
      ghost var b, r;
      var addr;
      addr, b, r := Serve(heap, CallOf(ops[n], results));
      MemTest.ValidFacts(heap);
      OwnedNext(h, heap.roots, live0, donated, ops, results, blocks, n, addr, b, heap.heap, heap.pool.donated);
      TracedMore(hs, rs, ops, results, blocks, n, heap.heap, r, addr, b);
      RunMore(hs, rs, r, heap.heap);
      GrownNext(ops, results, addr);
      hs, rs, results, blocks := hs + [heap.heap], rs + [r], results + [addr], blocks + [b];
      n := n + 1;
    }
    RunStaysCanonical(hs, rs, heap.roots, n);
    if forall j: nat :: !Kept(ops, results, n, j) {
      NothingKept(heap.heap, live0, heap.pool.donated, ops, results, blocks, n);
      RunRestoresForest(hs, rs, heap.roots, 0, n);
      forall j: nat | j < n && ops[j].More?
        ensures results[j] == 0
      {
        MoreIsKept(ops, results, n, j);
      }
      NoneGrown(ops, results);
      heap.FreeStructs();
    }
  }

  lemma NothingTraced(h: Heap, ops: seq<Op>)
    ensures Traced([h], [], ops, [], [], 0)
  {
  }

  lemma MoreIsKept(ops: seq<Op>, results: seq<nat>, n: nat, j: nat)
    requires j < n == |results| <= |ops| && ops[j].More? && !Kept(ops, results, n, j)
    ensures results[j] == 0
  {
  }

  lemma NothingGrown(ops: seq<Op>)
    ensures Grown(ops, []) == []
  {
  }

  lemma {:induction false} NoneGrown(ops: seq<Op>, results: seq<nat>)
    requires |results| <= |ops| && forall j: nat | j < |results| && ops[j].More? :: results[j] == 0
    ensures Grown(ops, results) == []
  {
    if results != [] {
      NoneGrown(ops, results[..|results| - 1]);
    }
  }
}
