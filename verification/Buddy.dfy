/** The buddy allocator: block structs taken from a pool, one free list per order, one list of all blocks. */
module BuddyAllocator {
  import opened Lists
  import opened Blocks
  import opened BlockStructs
  import opened PoolAllocator
  import opened Layout
  import HeapRuns

  const STRUCT_SIZE: nat := 64
  const POOL_ORDER: nat := 8
  const STRUCTS_PER_BLOCK: nat := 2048
  const MAX_REQUEST: nat := 0x4000_0000

  /** The list without its first b. */
  function Drop(s: seq<int>, b: int): seq<int> {
    if s == [] then [] else if s[0] == b then s[1..] else [s[0]] + Drop(s[1..], b)
  }

  lemma {:induction false} DropIs(s: seq<int>, i: nat)
    requires NoDup(s) && i < |s|
    ensures Drop(s, s[i]) == Without(s, i)
  {
    if i > 0 {
      DropIs(s[1..], i - 1);
      assert s[1..][i - 1] == s[i];
      assert Without(s, i) == [s[0]] + Without(s[1..], i - 1);
    }
  }

  lemma {:induction false} DropMembers(s: seq<int>, b: int)
    requires NoDup(s)
    ensures forall p :: p in Drop(s, b) <==> p in s && p != b
  {
    if s != [] && s[0] != b {
      DropMembers(s[1..], b);
    }
    assert s != [] ==> s == [s[0]] + s[1..];
  }

  /** The free list of an order has exactly the free structs of that order. */
  ghost predicate FreeExact(core: map<int, Core>, free: seq<seq<int>>) {
    && |free| == MAX_ORDER + 1
    && forall p <- core :: core[p].size <= MAX_ORDER && (StateOf(core[p]) == Free <==> p in free[core[p].size])
  }

  /** The pool's memory is a live block of the heap. */
  ghost predicate PoolBlock(heap: Heap, d: int) {
    exists b <- heap :: heap[b] == Used && b.order == POOL_ORDER && Start(b) == d
  }

  /** One list per order, whose members are structs of that order. */
  ghost predicate FreeListsOk(core: map<int, Core>, link: map<int, Links>, heads: seq<int>, free: seq<seq<int>>) {
    && |heads| == |free| == MAX_ORDER + 1
    && 0 !in link
    && (forall k | 0 <= k <= MAX_ORDER :: Linked(link, heads[MAX_ORDER - k], free[k]))
    && (forall k, p | 0 <= k <= MAX_ORDER && p in free[k] :: p in core && core[p].size == k)
  }

  lemma RemoveKeepsFreeLists(core: map<int, Core>, link: map<int, Links>, heads: seq<int>, free: seq<seq<int>>, b: int)
    requires FreeListsOk(core, link, heads, free)
    requires b in core && core[b].size <= MAX_ORDER && b in free[core[b].size]
    ensures b in link
    ensures link[b].next != 0 ==> link[b].next in link
    ensures link[b].prev != 0 ==> link[b].prev in link
    ensures var k := core[b].size;
      var free' := free[k := Drop(free[k], b)];
      && FreeListsOk(core, Unlink(link, b), heads[MAX_ORDER - k := At(free'[k], 0)], free')
      && At(free'[k], 0) == (if link[b].prev != 0 then heads[MAX_ORDER - k] else link[b].next)
  {
    hide LinkedAt, Unlink, Drop, Without, NoDup;
    var k := core[b].size;
    var i :| 0 <= i < |free[k]| && free[k][i] == b;
    UnlinkKeeps(link, heads[MAX_ORDER - k], free[k], i);
    DropIs(free[k], i);
    DropMembers(free[k], b);
    forall j | 0 <= j <= MAX_ORDER && j != k
      ensures Linked(Unlink(link, b), heads[MAX_ORDER - j], free[j])
    {
      OtherLinks(link, Unlink(link, b), heads[MAX_ORDER - j], free[j]);
    }
  }

  lemma InsertKeepsFreeLists(core: map<int, Core>, link: map<int, Links>, heads: seq<int>, free: seq<seq<int>>, b: int)
    requires FreeListsOk(core, link, heads, free)
    requires b in core && core[b].size <= MAX_ORDER && b !in free[core[b].size] && b != 0
    ensures var h := heads[MAX_ORDER - core[b].size]; h != 0 ==> h in link
    ensures var k := core[b].size;
      FreeListsOk(core, LinkFront(link, heads[MAX_ORDER - k], b), heads[MAX_ORDER - k := b], free[k := [b] + free[k]])
  {
    var k := core[b].size;
    LinkFrontKeeps(link, heads[MAX_ORDER - k], free[k], b);
    var link' := LinkFront(link, heads[MAX_ORDER - k], b);
    forall j | 0 <= j <= MAX_ORDER && j != k
      ensures Linked(link', heads[MAX_ORDER - j], free[j])
    {
      assert forall p <- free[j] :: p in core && core[p].size == j;
      assert forall p <- free[k] :: p in core && core[p].size == k;
      OtherLinks(link, link', heads[MAX_ORDER - j], free[j]);
    }
  }

  lemma NotListed(core: map<int, Core>, link: map<int, Links>, heads: seq<int>, free: seq<seq<int>>)
    requires FreeListsOk(core, link, heads, free)
    ensures |heads| == |free| == MAX_ORDER + 1 && 0 !in link
    ensures forall k | 0 <= k <= MAX_ORDER && heads[k] != 0 :: heads[k] in link
    ensures forall k, p | 0 <= k <= MAX_ORDER && p in free[k] :: p in core && core[p].size == k
  {
    forall k | 0 <= k <= MAX_ORDER && heads[k] != 0
      ensures heads[k] in link
    {
      assert heads[k] == heads[MAX_ORDER - (MAX_ORDER - k)];
      HeadInList(link, heads[k], free[MAX_ORDER - k]);
    }
  }

  /** The free lists depend only on the links and sizes of their members. */
  lemma FreeListsFrame(core: map<int, Core>, link: map<int, Links>, core': map<int, Core>, link': map<int, Links>,
      heads: seq<int>, free: seq<seq<int>>)
    requires FreeListsOk(core, link, heads, free) && 0 !in link'
    requires forall k, p | 0 <= k <= MAX_ORDER && p in free[k] :: p in core' && core'[p].size == core[p].size
    requires forall k, p | 0 <= k <= MAX_ORDER && p in free[k] && p in link :: p in link' && link'[p] == link[p]
    ensures FreeListsOk(core', link', heads, free)
  {
    forall j | 0 <= j <= MAX_ORDER
      ensures Linked(link', heads[MAX_ORDER - j], free[j])
    {
      OtherLinks(link, link', heads[MAX_ORDER - j], free[j]);
    }
  }

  lemma FreeListIsLinked(core: map<int, Core>, link: map<int, Links>, heads: seq<int>, free: seq<seq<int>>, k: nat)
    requires FreeListsOk(core, link, heads, free) && k <= MAX_ORDER
    ensures |heads| == |free| == MAX_ORDER + 1 && Linked(link, heads[MAX_ORDER - k], free[k])
  {
  }

  lemma DropListed(link: map<int, Links>, head: int, s: seq<int>, b: int)
    requires Linked(link, head, s)
    ensures forall p :: p in Drop(s, b) <==> p in s && p != b
  {
    DropMembers(s, b);
  }

  /** Forgetting the rows of a struct that is on no list. */
  lemma ForgetKeepsFreeLists(core: map<int, Core>, link: map<int, Links>, heads: seq<int>, free: seq<seq<int>>, b: int)
    requires FreeListsOk(core, link, heads, free)
    requires b in core && core[b].size <= MAX_ORDER && b !in free[core[b].size]
    ensures FreeListsOk(core - {b}, link - {b}, heads, free)
  {
    NotListed(core, link, heads, free);
    FreeListsFrame(core, link, core - {b}, link - {b}, heads, free);
  }

  /** Putting a new struct in front of a free list and taking it off again restores links, heads and lists. */
  lemma FreeListRollback(core: map<int, Core>, link: map<int, Links>, heads: seq<int>, free: seq<seq<int>>, k: nat,
      b: int)
    requires FreeListsOk(core, link, heads, free) && k <= MAX_ORDER && b != 0 && b !in link
    ensures Unlink(LinkFront(link, heads[MAX_ORDER - k], b), b) - {b} == link
    ensures var free' := free[k := [b] + free[k]];
      && free'[k := Drop(free'[k], b)] == free
      && heads[MAX_ORDER - k := b][MAX_ORDER - k := At(free[k], 0)] == heads
  {
    UnlinkAfterLinkFront(link, heads[MAX_ORDER - k], free[k], b);
  }

  lemma AllListRollback(link: map<int, Links>, head: int, all: seq<int>, b: int)
    requires Linked(link, head, all) && 0 !in link && b != 0 && b !in link
    ensures Unlink(LinkFront(link, head, b), b) - {b} == link
    ensures Drop([b] + all, b) == all && At(all, 0) == head
  {
    UnlinkAfterLinkFront(link, head, all, b);
  }

  /** The struct of a new low (1) or high (2) half of a block. */
  function NewHalf(c: Core, half: nat): Core
    requires c.size > 0
  {
    Core(0, 0, c.size - 1, false, if half == 1 then c.start else FlipBit(c.start, Bytes(c.size - 1)))
  }

  lemma CoreAfterSplit(core0: map<int, Core>, core2: map<int, Core>, core4: map<int, Core>, b: int, c1: int, c2: int)
    requires b in core0 && core0[b].size > 0 && core0[b].child1 == 0 && core0[b].child2 == 0
    requires c1 !in core0 && core2 == core0[c1 := NewHalf(core0[b], 1)][b := core0[b].(child1 := c1)]
    requires c2 !in core2 && core2[b].size > 0
      && core4 == core2[c2 := NewHalf(core2[b], 2)][b := core2[b].(child2 := c2)]
    ensures core4 == core0[c1 := NewHalf(core0[b], 1)][c2 := NewHalf(core0[b], 2)]
      [b := core0[b].(child1 := c1, child2 := c2)]
  {
  }

  lemma FreeExactAfterSplit(core: map<int, Core>, link: map<int, Links>, heads: seq<int>, free: seq<seq<int>>,
      core': map<int, Core>, b: int, c1: int, c2: int)
    requires FreeExact(core, free) && FreeListsOk(core, link, heads, free)
    requires b in core && 0 < core[b].size && StateOf(core[b]) == Free && c1 !in core && c2 !in core && c1 != 0
    requires core' == core[c1 := NewHalf(core[b], 1)][c2 := NewHalf(core[b], 2)]
      [b := core[b].(child1 := c1, child2 := c2)]
    ensures FreeExact(core',
      free[core[b].size - 1 := [c2, c1] + free[core[b].size - 1]][core[b].size := Drop(free[core[b].size], b)])
  {
    var k := core[b].size;
    DropMembers(free[k], b);
    var free' := free[k - 1 := [c2, c1] + free[k - 1]][k := Drop(free[k], b)];
    forall p <- core'
      ensures core'[p].size <= MAX_ORDER && (StateOf(core'[p]) == Free <==> p in free'[core'[p].size])
    {
      assert free'[k - 1] == [c2, c1] + free[k - 1];
    }
  }

  lemma PoolBlocksAfterSplit(heap: Heap, b: Block, d: int)
    requires PoolBlock(heap, d) && b in heap && heap[b] == Free && b.order > 0 && Left(b) !in heap && Right(b) !in heap
    ensures PoolBlock(SplitOne(heap, b), d)
  {
    var c :| c in heap && heap[c] == Used && c.order == POOL_ORDER && Start(c) == d;
    assert c in SplitOne(heap, b) && SplitOne(heap, b)[c] == Used;
  }

  /** A split keeps structs, forest and free lists in step. */
  lemma SplitOutcome(core: map<int, Core>, link: map<int, Links>, heads: seq<int>, free: seq<seq<int>>,
      of: map<int, Block>, at: map<Block, int>, heap: Heap, roots: set<Block>, core': map<int, Core>, b: int, c1: int,
      c2: int)
    requires FreeExact(core, free) && FreeListsOk(core, link, heads, free)
    requires Represents(core, of, at, heap) && WellFormed(heap, roots)
    requires b in core && 0 < core[b].size && heap[of[b]] == Free
    requires c1 !in core && c2 !in core && c1 != c2 && c1 != 0 && c2 != 0
    requires core' == core[c1 := NewHalf(core[b], 1)][c2 := NewHalf(core[b], 2)]
      [b := core[b].(child1 := c1, child2 := c2)]
    ensures of[b].order == core[b].size && b != c1 && b != c2
    ensures Represents(core', of[c1 := Left(of[b])][c2 := Right(of[b])], at[Left(of[b]) := c1][Right(of[b]) := c2],
      SplitOne(heap, of[b]))
    ensures WellFormed(SplitOne(heap, of[b]), roots)
    ensures FreeExact(core',
      free[core[b].size - 1 := [c2, c1] + free[core[b].size - 1]][core[b].size := Drop(free[core[b].size], b)])
    ensures forall d | PoolBlock(heap, d) :: PoolBlock(SplitOne(heap, of[b]), d)
  {
    hide FreeListsOk;
    var block := of[b];
    assert Describes(core, at, heap, b, block);
    HalvesStart(block);
    RightStart(block);
    SplitOneKeeps(heap, roots, block);
    SplitRepresents(core, of, at, heap, b, c1, c2);
    FreeExactAfterSplit(core, link, heads, free, core', b, c1, c2);
    forall d | PoolBlock(heap, d)
      ensures PoolBlock(SplitOne(heap, block), d)
    {
      PoolBlocksAfterSplit(heap, block, d);
    }
  }

  lemma FreeExactAfterJoin(core: map<int, Core>, link: map<int, Links>, heads: seq<int>, free: seq<seq<int>>, b: int)
    requires FreeExact(core, free) && FreeListsOk(core, link, heads, free)
    requires b in core && 0 < core[b].size && !core[b].used
    requires var c1, c2 := core[b].child1, core[b].child2;
      && c1 in core && c2 in core && c1 != c2 && c1 != b && c2 != b
      && core[c1].size == core[b].size - 1 && core[c2].size == core[b].size - 1
    ensures var c1, c2, k := core[b].child1, core[b].child2, core[b].size;
      k <= MAX_ORDER
      && FreeExact((core - {c1, c2})[b := core[b].(child1 := 0, child2 := 0)],
        free[k - 1 := Drop(Drop(free[k - 1], c1), c2)][k := [b] + free[k]])
  {
    var c1, c2, k := core[b].child1, core[b].child2, core[b].size;
    DropMembers(free[k - 1], c1);
    DropKeepsNoDup(free[k - 1], c1);
    DropMembers(Drop(free[k - 1], c1), c2);
  }

  lemma {:induction false} DropKeepsNoDup(s: seq<int>, b: int)
    requires NoDup(s)
    ensures NoDup(Drop(s, b))
  {
    if s != [] && s[0] != b {
      DropKeepsNoDup(s[1..], b);
      DropMembers(s[1..], b);
      assert forall p <- Drop(s[1..], b) :: p in s[1..];
      NoDupAppend([s[0]], Drop(s[1..], b));
    }
  }

  lemma PoolBlocksAfterJoin(heap: Heap, b: Block, d: int)
    requires PoolBlock(heap, d) && b in heap && heap[b] == Split && b.order > 0
    requires Left(b) in heap && heap[Left(b)] == Free && Right(b) in heap && heap[Right(b)] == Free
    ensures PoolBlock(Join(heap, b), d)
  {
    var c :| c in heap && heap[c] == Used && c.order == POOL_ORDER && Start(c) == d;
    assert c in Join(heap, b) && Join(heap, b)[c] == Used;
  }

  /** A join keeps structs, forest and free lists in step. */
  lemma JoinOutcome(core: map<int, Core>, link: map<int, Links>, heads: seq<int>, free: seq<seq<int>>,
      of: map<int, Block>, at: map<Block, int>, heap: Heap, roots: set<Block>, b: int)
    requires FreeExact(core, free) && FreeListsOk(core, link, heads, free)
    requires Represents(core, of, at, heap) && WellFormed(heap, roots)
    requires b in core && heap[of[b]] == Split
    requires of[b].order > 0 && Left(of[b]) in heap && heap[Left(of[b])] == Free
    requires Right(of[b]) in heap && heap[Right(of[b])] == Free
    ensures var c1, c2, k := core[b].child1, core[b].child2, core[b].size;
      && 0 < k <= MAX_ORDER && c1 != b && c2 != b && !core[b].used
      && Represents((core - {c1, c2})[b := core[b].(child1 := 0, child2 := 0)], of - {c1, c2},
        at - {Left(of[b]), Right(of[b])}, Join(heap, of[b]))
      && FreeExact((core - {c1, c2})[b := core[b].(child1 := 0, child2 := 0)],
        free[k - 1 := Drop(Drop(free[k - 1], c1), c2)][k := [b] + free[k]])
    ensures WellFormed(Join(heap, of[b]), roots)
    ensures forall d | PoolBlock(heap, d) :: PoolBlock(Join(heap, of[b]), d)
  {
    hide FreeListsOk;
    var block := of[b];
    assert Describes(core, at, heap, b, block);
    assert Describes(core, at, heap, at[Left(block)], Left(block));
    assert Describes(core, at, heap, at[Right(block)], Right(block));
    JoinKeeps(heap, roots, block);
    JoinRepresents(core, of, at, heap, roots, b);
    FreeExactAfterJoin(core, link, heads, free, b);
    forall d | PoolBlock(heap, d)
      ensures PoolBlock(Join(heap, block), d)
    {
      PoolBlocksAfterJoin(heap, block, d);
    }
  }

  lemma FreeExactAfterUse(core: map<int, Core>, link: map<int, Links>, heads: seq<int>, free: seq<seq<int>>, b: int)
    requires FreeExact(core, free) && FreeListsOk(core, link, heads, free)
    requires b in core && StateOf(core[b]) == Free
    ensures core[b].size <= MAX_ORDER
    ensures FreeExact(core[b := core[b].(used := true)], free[core[b].size := Drop(free[core[b].size], b)])
  {
    DropMembers(free[core[b].size], b);
  }

  /** Taking a free block keeps structs, forest and free lists in step. */
  lemma UseOutcome(core: map<int, Core>, link: map<int, Links>, heads: seq<int>, free: seq<seq<int>>,
      of: map<int, Block>, at: map<Block, int>, heap: Heap, roots: set<Block>, b: int)
    requires FreeExact(core, free) && FreeListsOk(core, link, heads, free)
    requires Represents(core, of, at, heap) && WellFormed(heap, roots)
    requires b in core && StateOf(core[b]) == Free
    ensures core[b].size <= MAX_ORDER && of[b] in heap && heap[of[b]] == Free
    ensures Represents(core[b := core[b].(used := true)], of, at, heap[of[b] := Used])
    ensures WellFormed(heap[of[b] := Used], roots)
    ensures FreeExact(core[b := core[b].(used := true)], free[core[b].size := Drop(free[core[b].size], b)])
    ensures forall d | PoolBlock(heap, d) :: PoolBlock(heap[of[b] := Used], d)
  {
    hide FreeListsOk, Start, Bytes, WellFormed, FreeExact, PoolBlock;
    assert Describes(core, at, heap, b, of[b]);
    MarkRepresents(core, of, at, heap, b, true);
    MarkKeeps(heap, roots, of[b], Used);
    FreeExactAfterUse(core, link, heads, free, b);
    forall d | PoolBlock(heap, d)
      ensures PoolBlock(heap[of[b] := Used], d)
    {
      PoolBlockStays(heap, of[b], d);
    }
  }

  lemma PoolBlockStays(heap: Heap, b: Block, d: int)
    requires PoolBlock(heap, d)
    ensures PoolBlock(heap[b := Used], d)
  {
    var c :| c in heap && heap[c] == Used && c.order == POOL_ORDER && Start(c) == d;
    assert c in heap[b := Used] && heap[b := Used][c] == Used;
  }

  /** Giving a used block back keeps structs, forest and free lists in step. */
  lemma FreeOutcome(core: map<int, Core>, free: seq<seq<int>>, of: map<int, Block>, at: map<Block, int>, heap: Heap,
      roots: set<Block>, b: int)
    requires FreeExact(core, free)
    requires Represents(core, of, at, heap) && WellFormed(heap, roots)
    requires b in core && core[b].used
    ensures core[b].size <= MAX_ORDER && b !in free[core[b].size] && b in of
    ensures of[b] in heap && heap[of[b]] == Used && core[b].start == Start(of[b]) && core[b].child1 == 0
    ensures Represents(core[b := core[b].(used := false)], of, at, heap[of[b] := Free])
    ensures WellFormed(heap[of[b] := Free], roots)
    ensures FreeExact(core[b := core[b].(used := false)], free[core[b].size := [b] + free[core[b].size]])
    ensures forall d | PoolBlock(heap, d) && d != Start(of[b]) :: PoolBlock(heap[of[b] := Free], d)
  {
    hide Start, Bytes;
    assert Describes(core, at, heap, b, of[b]);
    MarkRepresents(core, of, at, heap, b, false);
    MarkKeeps(heap, roots, of[b], Free);
    forall d | PoolBlock(heap, d) && d != Start(of[b])
      ensures PoolBlock(heap[of[b] := Free], d)
    {
      var c :| c in heap && heap[c] == Used && c.order == POOL_ORDER && Start(c) == d;
      assert c in heap[of[b] := Free] && heap[of[b] := Free][c] == Used;
    }
  }

  /** k is the least order whose blocks hold size bytes. */
  ghost predicate IsOrderFor(k: nat, size: nat) {
    Bytes(k) >= size && (k > 0 ==> Bytes(k - 1) < size)
  }

  lemma {:induction false} BytesGrow(j: nat, k: nat)
    requires j <= k
    ensures Bytes(j) <= Bytes(k)
    decreases k - j
  {
    if j < k {
      BytesGrow(j, k - 1);
    }
  }

  /** Requests are served by orders up to 21. */
  lemma LargestRequest(k: nat)
    ensures Bytes(k) < MAX_REQUEST ==> k < 21
  {
    assert Bytes(5) == 0x4000;
    assert Bytes(10) == 0x8_0000;
    assert Bytes(15) == 0x100_0000;
    assert Bytes(20) == 0x2000_0000;
    if k >= 21 {
      BytesGrow(21, k);
    }
  }

  method OrderFor(request: nat) returns (i: nat)
    requires request <= MAX_REQUEST
    ensures IsOrderFor(i, request) && i <= 21
  {
    i := 0;
    while Bytes(i) < request
      invariant i <= 21 && (i > 0 ==> Bytes(i - 1) < request)
      decreases 21 - i
    {
      LargestRequest(i);
      i := i + 1;
    }
  }

  lemma RootIsNew(heap: Heap, roots: set<Block>, r: Block)
    requires WellFormed(heap, roots) && r.order == MAX_ORDER && r !in roots
    ensures r !in heap
  {
  }

  lemma RootRepresents(core: map<int, Core>, of: map<int, Block>, at: map<Block, int>, heap: Heap, b: int, r: Block)
    requires Represents(core, of, at, heap) && b !in core && b != 0 && r.order == MAX_ORDER && r !in heap
    ensures Represents(core[b := Core(0, 0, MAX_ORDER, false, Start(r))], of[b := r], at[r := b], heap[r := Free])
  {
    hide Start;
    var core', of' := core[b := Core(0, 0, MAX_ORDER, false, Start(r))], of[b := r];
    forall q <- of'
      ensures Describes(core', at[r := b], heap[r := Free], q, of'[q])
    {
      assert q != b ==> Describes(core, at, heap, q, of[q]);
    }
  }

  lemma RootWellFormed(heap: Heap, roots: set<Block>, r: Block)
    requires WellFormed(heap, roots) && r.order == MAX_ORDER && r !in heap
    ensures WellFormed(heap[r := Free], roots + {r})
    ensures forall d | PoolBlock(heap, d) :: PoolBlock(heap[r := Free], d)
  {
    hide Start;
    forall d | PoolBlock(heap, d)
      ensures PoolBlock(heap[r := Free], d)
    {
      var c :| c in heap && heap[c] == Used && c.order == POOL_ORDER && Start(c) == d;
      assert c in heap[r := Free] && heap[r := Free][c] == Used;
    }
  }

  lemma RootListed(core: map<int, Core>, free: seq<seq<int>>, b: int, start: nat)
    requires FreeExact(core, free) && b !in core
    ensures |free| == MAX_ORDER + 1
    ensures FreeExact(core[b := Core(0, 0, MAX_ORDER, false, start)], free[MAX_ORDER := [b] + free[MAX_ORDER]])
  {
  }

  /** A new free root keeps structs, forest and free lists in step. */
  lemma AddRootOutcome(core: map<int, Core>, free: seq<seq<int>>, of: map<int, Block>, at: map<Block, int>, heap: Heap,
      roots: set<Block>, b: int, r: Block)
    requires FreeExact(core, free)
    requires Represents(core, of, at, heap) && WellFormed(heap, roots)
    requires b !in core && b != 0 && r.order == MAX_ORDER && r !in heap
    ensures |free| == MAX_ORDER + 1
    ensures Represents(core[b := Core(0, 0, MAX_ORDER, false, Start(r))], of[b := r], at[r := b], heap[r := Free])
    ensures WellFormed(heap[r := Free], roots + {r})
    ensures FreeExact(core[b := Core(0, 0, MAX_ORDER, false, Start(r))], free[MAX_ORDER := [b] + free[MAX_ORDER]])
    ensures forall d | PoolBlock(heap, d) :: PoolBlock(heap[r := Free], d)
  {
    hide FreeExact, Represents, WellFormed, PoolBlock, Start;
    RootRepresents(core, of, at, heap, b, r);
    RootWellFormed(heap, roots, r);
    RootListed(core, free, b, Start(r));
  }

  /** The pool grows by blocks of order 8, each exactly filled by its structs. */
  lemma PoolBlockSize(k: nat)
    requires IsOrderFor(k, STRUCTS_PER_BLOCK * STRUCT_SIZE)
    ensures k == POOL_ORDER && Extent(STRUCT_SIZE, STRUCTS_PER_BLOCK) == Bytes(POOL_ORDER)
  {
    ExtentIsProduct(STRUCT_SIZE, STRUCTS_PER_BLOCK);
    assert Bytes(4) == 0x2000 && Bytes(8) == 0x2_0000;
    if k < POOL_ORDER {
      BytesGrow(k, POOL_ORDER - 1);
    } else if k > POOL_ORDER {
      BytesGrow(POOL_ORDER, k - 1);
    }
  }

  class Buddy {
    // struct fields, by struct address
    var core: map<int, Core>
    var freeLink: map<int, Links>
    var allLink: map<int, Links>
    // list heads; the head of the order-k free list has index MAX_ORDER - k
    var heads: seq<int>
    var allHead: int
    var pool: Pool

    ghost var free: seq<seq<int>>
    ghost var all: seq<int>
    ghost var of: map<int, Block>
    ghost var at: map<Block, int>
    ghost var heap: Heap
    ghost var roots: set<Block>
    // whether the pool's memory has been reserved yet
    ghost var poolReserved: bool

    /** No blocks yet. */
    constructor (p: Pool)
      requires p.Valid() && p.objects > 0 && p.HandedOut() == {}
      requires p.objectSize == STRUCT_SIZE && p.blockSize == STRUCTS_PER_BLOCK
      ensures Valid() && pool == p && heap == map[] && roots == {} && !poolReserved
    {
      core, freeLink, allLink, allHead := map[], map[], map[], 0;
      heads := seq(MAX_ORDER + 1, _ => 0);
      pool := p;
      free, all, of, at, heap, roots := seq(MAX_ORDER + 1, _ => []), [], map[], map[], map[], {};
      poolReserved := false;
    }

    ghost predicate AllListOk()
      reads `allLink, `allHead, `all
    {
      0 !in allLink && Linked(allLink, allHead, all)
    }

    /** Every struct in use has its rows and is on the list of all blocks; the lists are well linked. */
    ghost predicate LinksOk()
      reads `core, `freeLink, `allLink, `heads, `allHead, `free, `all
    {
      && core.Keys == freeLink.Keys == allLink.Keys
      && 0 !in core
      && FreeListsOk(core, freeLink, heads, free)
      && AllListOk()
      && (forall p :: p in core <==> p in all)
    }

    lemma LinksFacts()
      requires LinksOk()
      ensures core.Keys == freeLink.Keys == allLink.Keys && 0 !in core && (forall p :: p in core <==> p in all)
      ensures FreeListsOk(core, freeLink, heads, free) && AllListOk() && Linked(allLink, allHead, all)
      ensures |heads| == |free| == MAX_ORDER + 1 && 0 !in freeLink && 0 !in allLink
      ensures forall k, p | 0 <= k <= MAX_ORDER && p in free[k] :: p in core && core[p].size == k
    {
    }

    lemma AllListFromParts()
      requires 0 !in allLink && Linked(allLink, allHead, all)
      ensures AllListOk()
    {
    }

    lemma LinksFromParts()
      requires core.Keys == freeLink.Keys == allLink.Keys && 0 !in core
      requires FreeListsOk(core, freeLink, heads, free) && AllListOk() && forall p :: p in core <==> p in all
      ensures LinksOk()
    {
    }

    method RemoveFromFreeList(b: int)
      requires LinksOk()
      requires b in core && core[b].size <= MAX_ORDER && b in free[core[b].size]
      modifies this`freeLink, this`heads, this`free
      ensures LinksOk()
      ensures b in old(freeLink) && freeLink == Unlink(old(freeLink), b) && freeLink.Keys == old(freeLink.Keys)
      ensures free == old(free)[core[b].size := Drop(old(free)[core[b].size], b)]
      ensures heads == old(heads)[MAX_ORDER - core[b].size := At(free[core[b].size], 0)]
    {
      hide LinksOk, AllListOk, FreeListsOk, Linked, Drop;
      LinksFacts();
      RemoveKeepsFreeLists(core, freeLink, heads, free, b);
      ghost var k := core[b].size;
      var next := freeLink[b].next;
      var prev := freeLink[b].prev;
      if next != 0 {
        freeLink := freeLink[next := freeLink[next].(prev := prev)];
      }
      if prev != 0 {
        freeLink := freeLink[prev := freeLink[prev].(next := next)];
      } else {
        heads := heads[MAX_ORDER - core[b].size := next];
      }
      free := free[core[b].size := Drop(free[core[b].size], b)];
      assert freeLink == Unlink(old(freeLink), b);
      assert heads == old(heads)[MAX_ORDER - k := At(free[k], 0)];
      LinksFromParts();
    }

    method InsertIntoFreeList(b: int)
      requires LinksOk()
      requires b in core && core[b].size <= MAX_ORDER && b !in free[core[b].size]
      modifies this`freeLink, this`heads, this`free
      ensures LinksOk()
      ensures freeLink == LinkFront(old(freeLink), old(heads)[MAX_ORDER - core[b].size], b)
      ensures free == old(free)[core[b].size := [b] + old(free)[core[b].size]]
      ensures heads == old(heads)[MAX_ORDER - core[b].size := b]
    {
      hide LinksOk, AllListOk, FreeListsOk, Linked;
      LinksFacts();
      InsertKeepsFreeLists(core, freeLink, heads, free, b);
      var index := MAX_ORDER - core[b].size;
      var head := heads[index];
      if head != 0 {
        freeLink := freeLink[head := freeLink[head].(prev := b)];
      }
      freeLink := freeLink[b := freeLink[b].(next := head)];
      freeLink := freeLink[b := freeLink[b].(prev := 0)];
      assert freeLink == LinkFront(old(freeLink), head, b);
      heads := heads[index := b];
      free := free[core[b].size := [b] + free[core[b].size]];
      LinksFromParts();
    }

    method RemoveFromAllList(b: int)
      requires AllListOk() && b in all
      modifies this`allLink, this`allHead, this`all
      ensures AllListOk()
      ensures b in old(allLink) && allLink == Unlink(old(allLink), b) && allLink.Keys == old(allLink.Keys)
      ensures all == Drop(old(all), b) && allHead == At(all, 0)
    {
      ghost var i :| 0 <= i < |all| && all[i] == b;
      UnlinkKeeps(allLink, allHead, all, i);
      DropIs(all, i);
      var next := allLink[b].next;
      var prev := allLink[b].prev;
      if next != 0 {
        allLink := allLink[next := allLink[next].(prev := prev)];
      }
      if prev != 0 {
        allLink := allLink[prev := allLink[prev].(next := next)];
      } else {
        allHead := next;
      }
      all := Drop(all, b);
    }

    /** Relies on the struct's own link fields being null. */
    method InsertIntoAllList(b: int)
      requires AllListOk() && b !in all && b != 0
      requires b in allLink && allLink[b] == Links(0, 0)
      modifies this`allLink, this`allHead, this`all
      ensures AllListOk()
      ensures allLink == LinkFront(old(allLink), old(allHead), b)
      ensures all == [b] + old(all) && allHead == b
    {
      LinkFrontKeeps(allLink, allHead, all, b);
      if allHead != 0 {
        allLink := allLink[allHead := allLink[allHead].(prev := b)];
        allLink := allLink[b := allLink[b].(next := allHead)];
      }
      allHead := b;
      all := [b] + all;
    }

    // ---------------------------------------------------------------- structs

    ghost predicate PoolOk()
      reads `core, `pool, pool
    {
      && pool.Valid() && pool.objects > 0 && core.Keys == pool.HandedOut()
      && pool.objectSize == STRUCT_SIZE && pool.blockSize == STRUCTS_PER_BLOCK
    }

    /** The fields of a new struct, which is on no list yet. */
    method InitStruct(b: int, size: nat, addr: nat)
      requires LinksOk() && size <= MAX_ORDER && b != 0 && b !in core
      modifies this`core, this`freeLink, this`allLink
      ensures FreeListsOk(core, freeLink, heads, free) && AllListOk() && b !in all && b !in old(freeLink)
        && b !in old(allLink)
      ensures core == old(core)[b := Core(0, 0, size, false, addr)] && |heads| == |free| == MAX_ORDER + 1
      ensures freeLink == old(freeLink)[b := Links(0, 0)] && allLink == old(allLink)[b := Links(0, 0)]
      ensures core.Keys == freeLink.Keys == allLink.Keys && 0 !in core
        && (forall p :: p in core <==> p in all || p == b)
      ensures b !in free[size] && heads[MAX_ORDER - size] != b && allHead != b
    {
      hide LinksOk, AllListOk, FreeListsOk, Linked, LinkFront, Bytes;
      LinksFacts();
      HeadInList(allLink, allHead, all);
      NotListed(core, freeLink, heads, free);
      FreeListsFrame(core, freeLink, core[b := Core(0, 0, size, false, addr)], freeLink[b := Links(0, 0)], heads, free);
      OtherLinks(allLink, allLink[b := Links(0, 0)], allHead, all);
      core := core[b := Core(0, 0, size, false, addr)];
      freeLink := freeLink[b := Links(0, 0)];
      allLink := allLink[b := Links(0, 0)];
      AllListFromParts();
    }

    /** Initializes a struct as a free block and puts it in front of both lists. */
    method Enlist(b: int, size: nat, addr: nat)
      requires LinksOk() && size <= MAX_ORDER && b != 0 && b !in core
      modifies this`core, this`freeLink, this`allLink, this`heads, this`allHead, this`free, this`all
      ensures LinksOk()
      ensures core == old(core)[b := Core(0, 0, size, false, addr)]
      ensures free == old(free)[size := [b] + old(free)[size]] && all == [b] + old(all)
      ensures freeLink == LinkFront(old(freeLink), old(heads)[MAX_ORDER - size], b)
      ensures allLink == LinkFront(old(allLink), old(allHead), b)
      ensures heads == old(heads)[MAX_ORDER - size := b] && allHead == b
    {
      hide LinksOk, AllListOk, FreeListsOk, Linked, LinkFront, Bytes;
      InitStruct(b, size, addr);
      LinkFrontNew(old(freeLink), heads[MAX_ORDER - size], b);
      LinkFrontNew(old(allLink), allHead, b);
      InsertIntoAllList(b);
      LinksFromParts();
      InsertIntoFreeList(b);
    }

    /** Takes a struct from the pool and makes it a free block. */
    method AllocNewBlock(size: nat, addr: nat) returns (b: int)
      requires LinksOk() && PoolOk() && size <= MAX_ORDER
      modifies this`core, this`freeLink, this`allLink, this`heads, this`allHead, this`free, this`all, pool
      ensures LinksOk() && PoolOk()
      ensures pool.donated == old(pool.donated) && pool.word == old(pool.word)
      ensures old(pool.chain) == (if b == 0 then [] else [b]) + pool.chain
      ensures b == 0 ==> pool.chain == [] && unchanged(this)
      ensures b != 0 ==> b !in old(core)
      ensures b != 0 ==> core == old(core)[b := Core(0, 0, size, false, addr)]
      ensures b != 0 ==> free == old(free)[size := [b] + old(free)[size]] && all == [b] + old(all)
      ensures b != 0 ==> freeLink == LinkFront(old(freeLink), old(heads)[MAX_ORDER - size], b)
      ensures b != 0 ==> allLink == LinkFront(old(allLink), old(allHead), b)
      ensures b != 0 ==> heads == old(heads)[MAX_ORDER - size := b] && allHead == b
    {
      hide Pool.Valid, Pool.HandedOut, FreeListsOk, Linked, LinkFront, Bytes;
      b := pool.Alloc(0, 0);
      if b == 0 {
        return 0;
      }
      Enlist(b, size, addr);
    }

    /** Takes a block off both lists and forgets its struct. */
    method Delist(b: int)
      requires LinksOk()
      requires b in core && core[b].size <= MAX_ORDER && b in free[core[b].size]
      modifies this`core, this`freeLink, this`allLink, this`heads, this`allHead, this`free, this`all
      ensures LinksOk()
      ensures core == old(core) - {b}
      ensures var k := old(core[b].size);
        free == old(free)[k := Drop(old(free)[k], b)] && heads == old(heads)[MAX_ORDER - k := At(free[k], 0)]
      ensures all == Drop(old(all), b) && allHead == At(all, 0)
      ensures b in old(freeLink) && freeLink == Unlink(old(freeLink), b) - {b}
      ensures b in old(allLink) && allLink == Unlink(old(allLink), b) - {b}
    {
      hide FreeListsOk, Linked, Unlink, Drop, Bytes;
      NotListed(core, freeLink, heads, free);
      FreeListIsLinked(core, freeLink, heads, free, core[b].size);
      DropListed(freeLink, heads[MAX_ORDER - core[b].size], free[core[b].size], b);
      DropListed(allLink, allHead, all, b);
      RemoveFromFreeList(b);
      RemoveFromAllList(b);
      ForgetKeepsFreeLists(core, freeLink, heads, free, b);
      OtherLinks(allLink, allLink - {b}, allHead, all);
      core := core - {b};
      freeLink := freeLink - {b};
      allLink := allLink - {b};
    }

    /** Takes a block off both lists and gives its struct back to the pool. */
    method Discard(b: int)
      requires LinksOk() && PoolOk()
      requires b in core && core[b].size <= MAX_ORDER && b in free[core[b].size]
      modifies this`core, this`freeLink, this`allLink, this`heads, this`allHead, this`free, this`all, pool
      ensures LinksOk() && PoolOk()
      ensures pool.donated == old(pool.donated) && pool.chain == [b] + old(pool.chain)
      ensures pool.word == old(pool.word)[b := At(old(pool.chain), 0)]
      ensures core == old(core) - {b}
      ensures var k := old(core[b].size);
        free == old(free)[k := Drop(old(free)[k], b)] && heads == old(heads)[MAX_ORDER - k := At(free[k], 0)]
      ensures all == Drop(old(all), b) && allHead == At(all, 0)
      ensures b in old(freeLink) && freeLink == Unlink(old(freeLink), b) - {b}
      ensures b in old(allLink) && allLink == Unlink(old(allLink), b) - {b}
    {
      hide Pool.Valid, Pool.HandedOut, FreeListsOk, Linked, Unlink, Drop, Bytes;
      Delist(b);
      pool.Free(b);
    }

    // ---------------------------------------------------------------- the whole state

    ghost predicate Valid()
      reads this, pool
    {
      && LinksOk() && PoolOk()
      && Represents(core, of, at, heap) && WellFormed(heap, roots) && FreeExact(core, free)
      && (forall b <- roots :: b.index > 0)
      && (poolReserved ==> forall d <- pool.donated :: PoolBlock(heap, d))
    }

    /** Overwrites the fields of a struct other than its size and links. */
    method SetCore(b: int, c: Core)
      requires LinksOk() && PoolOk() && b in core && c.size == core[b].size
      modifies this`core
      ensures LinksOk() && PoolOk() && core == old(core)[b := c]
    {
      hide Pool.Valid, Pool.HandedOut, FreeListsOk;
      NotListed(core, freeLink, heads, free);
      FreeListsFrame(core, freeLink, core[b := c], freeLink, heads, free);
      core := core[b := c];
    }

    /** The roots, the pool and the pool's memory are the same as before. */
    twostate predicate SameSetup()
      reads this, pool
    {
      pool == old(pool) && pool.donated == old(pool.donated) && roots == old(roots) && poolReserved == old(poolReserved)
    }

    /** The pool and all fields are as they were before. */
    twostate predicate Restored()
      reads this, pool
    {
      && core == old(core) && freeLink == old(freeLink) && allLink == old(allLink)
      && heads == old(heads) && allHead == old(allHead) && free == old(free) && all == old(all)
      && pool == old(pool) && pool.nextFree == old(pool.nextFree) && pool.freeObjects == old(pool.freeObjects)
      && pool.chain == old(pool.chain) && pool.word == old(pool.word) && pool.donated == old(pool.donated)
    }

    lemma PoolFacts()
      requires PoolOk()
      ensures pool.nextFree == At(pool.chain, 0) && pool.freeObjects == |pool.chain|
      ensures NoDup(pool.chain) && 0 !in pool.chain
      ensures pool.chain != [] ==> pool.chain[0] in pool.word && pool.word[pool.chain[0]] == At(pool.chain, 1)
    {
      pool.ChainFacts();
    }

    /** Makes a new free block one half of b. */
    method AddChild(b: int, half: nat) returns (child: int)
      requires LinksOk() && PoolOk() && b in core && 0 < core[b].size <= MAX_ORDER
      requires half == 1 || half == 2
      requires if half == 1 then core[b].child1 == 0 else core[b].child2 == 0
      modifies this`core, this`freeLink, this`allLink, this`heads, this`allHead, this`free, this`all, pool
      ensures LinksOk() && PoolOk() && pool.donated == old(pool.donated) && pool.word == old(pool.word)
      ensures old(pool.chain) == (if child == 0 then [] else [child]) + pool.chain
      ensures child == 0 ==> Restored() && pool.chain == []
      ensures child != 0 ==> child !in old(core) && core == old(core)[child := NewHalf(old(core[b]), half)]
        [b := if half == 1 then old(core)[b].(child1 := child) else old(core)[b].(child2 := child)]
      ensures child != 0 ==> var k := old(core[b].size) - 1;
        && free == old(free)[k := [child] + old(free)[k]] && all == [child] + old(all)
        && freeLink == LinkFront(old(freeLink), old(heads)[MAX_ORDER - k], child)
        && allLink == LinkFront(old(allLink), old(allHead), child)
        && heads == old(heads)[MAX_ORDER - k := child]
    {
      hide LinksOk, PoolOk, AllListOk, Pool.Valid, FreeListsOk, Linked, Unlink, LinkFront, Drop, Bytes, FlipBit;
      PoolFacts();
      LinksFacts();
      if half == 1 {
        child := AllocNewBlock(core[b].size - 1, core[b].start);
        SetCore(b, core[b].(child1 := child));
      } else {
        var mask := Bytes(core[b].size - 1);
        child := AllocNewBlock(core[b].size - 1, FlipBit(core[b].start, mask));
        SetCore(b, core[b].(child2 := child));
      }
      if child == 0 {
        PoolFacts();
        assert core == old(core);
      }
    }

    static lemma ListTwice(lists: seq<seq<int>>, k: nat, x: int, y: int)
      requires k < |lists|
      ensures var once := lists[k := [x] + lists[k]];
        once[k := [y] + once[k]] == lists[k := [y, x] + lists[k]]
    {
      assert [y] + ([x] + lists[k]) == [y, x] + lists[k];
    }

    /** Gives b up to two new free blocks as children; the first call to find the pool empty yields null, and so
        do later ones. */
    method AddChildren(b: int) returns (child1: int, child2: int)
      requires LinksOk() && PoolOk() && b in core && 0 < core[b].size <= MAX_ORDER
      requires core[b].child1 == 0 && core[b].child2 == 0
      modifies this`core, this`freeLink, this`allLink, this`heads, this`allHead, this`free, this`all, pool
      ensures LinksOk() && PoolOk() && pool.donated == old(pool.donated) && pool.word == old(pool.word)
      ensures child1 == At(old(pool.chain), 0) && child2 == At(old(pool.chain), 1)
      ensures child1 != 0 ==> child1 !in old(core) && child2 !in old(core) && child2 != child1
      ensures child1 == 0 ==> Restored()
      ensures var k, x, y := old(core[b].size), NewHalf(old(core[b]), 1), NewHalf(old(core[b]), 2);
        && (child1 != 0 && child2 == 0 ==>
          && core == old(core)[child1 := x][b := old(core)[b].(child1 := child1)]
          && free == old(free)[k - 1 := [child1] + old(free)[k - 1]] && all == [child1] + old(all)
          && freeLink == LinkFront(old(freeLink), old(heads)[MAX_ORDER - (k - 1)], child1)
          && allLink == LinkFront(old(allLink), old(allHead), child1)
          && heads == old(heads)[MAX_ORDER - (k - 1) := child1] && pool.chain == [])
        && (child2 != 0 ==>
          && child1 != 0
          && core == old(core)[child1 := x][child2 := y][b := old(core)[b].(child1 := child1, child2 := child2)]
          && free == old(free)[k - 1 := [child2, child1] + old(free)[k - 1]]
          && pool.chain == old(pool.chain)[2..])
    {
      hide LinksOk, PoolOk, AllListOk, Pool.Valid, FreeListsOk, Linked, Unlink, LinkFront, Drop, NewHalf;
      PoolFacts();
      LinksFacts();
      child1 := AddChild(b, 1);
      ghost var core2 := core;
      child2 := AddChild(b, 2);
      if child2 != 0 {
        CoreAfterSplit(old(core), core2, core, b, child1, child2);
        ListTwice(old(free), core[b].size - 1, child1, child2);
      }
    }

    /** Takes back the only child of b; the ghost parameters are the state before b got it. */
    method UndoChild(b: int, ghost core0: map<int, Core>, ghost freeLink0: map<int, Links>,
        ghost allLink0: map<int, Links>, ghost heads0: seq<int>, ghost allHead0: int, ghost free0: seq<seq<int>>,
        ghost all0: seq<int>)
      requires LinksOk() && PoolOk() && b in core0 && core0[b].child1 == 0 && 0 < core0[b].size <= MAX_ORDER
      requires core0.Keys == freeLink0.Keys == allLink0.Keys && 0 !in core0
      requires FreeListsOk(core0, freeLink0, heads0, free0) && Linked(allLink0, allHead0, all0)
      requires b in core && core[b].child1 != 0 && core[b].child1 !in core0 && core[b].child2 == 0
      requires var k, c := core0[b].size, core[b].child1;
        && core == core0[c := NewHalf(core0[b], 1)][b := core0[b].(child1 := c)]
        && free == free0[k - 1 := [c] + free0[k - 1]] && all == [c] + all0
        && heads == heads0[MAX_ORDER - (k - 1) := c]
        && freeLink == LinkFront(freeLink0, heads0[MAX_ORDER - (k - 1)], c)
        && allLink == LinkFront(allLink0, allHead0, c)
      modifies this`core, this`freeLink, this`allLink, this`heads, this`allHead, this`free, this`all, pool
      ensures LinksOk() && PoolOk()
      ensures core == core0 && freeLink == freeLink0 && allLink == allLink0
      ensures heads == heads0 && allHead == allHead0 && free == free0 && all == all0
      ensures pool.donated == old(pool.donated) && pool.chain == [old(core)[b].child1] + old(pool.chain)
      ensures pool.word == old(pool.word)[old(core)[b].child1 := At(old(pool.chain), 0)]
    {
      hide LinksOk, PoolOk, AllListOk, Pool.Valid, FreeListsOk, Linked, Unlink, LinkFront, Drop;
      NotListed(core0, freeLink0, heads0, free0);
      ghost var c := core[b].child1;
      FreeListRollback(core0, freeLink0, heads0, free0, core0[b].size - 1, c);
      AllListRollback(allLink0, allHead0, all0, c);
      assert free[core0[b].size - 1][0] == c;
      Discard(core[b].child1);
      SetCore(b, core[b].(child1 := 0));
    }

    method SplitStructs(b: int) returns (err: int)
      requires LinksOk() && PoolOk() && b in core && 0 < core[b].size <= MAX_ORDER
      requires core[b].child1 == 0 && core[b].child2 == 0 && b in free[core[b].size]
      modifies this`core, this`freeLink, this`allLink, this`heads, this`allHead, this`free, this`all, pool
      ensures LinksOk() && PoolOk() && pool.donated == old(pool.donated)
      ensures err == 0 <==> old(|pool.chain|) >= 2
      ensures err == 0 ==> var c1, c2 := old(pool.chain)[0], old(pool.chain)[1];
        var k, start := old(core[b].size), old(core[b].start);
        && c1 !in old(core) && c2 !in old(core) && c1 != c2 && c1 != 0 && c2 != 0
        && pool.chain == old(pool.chain)[2..]
        && core == old(core)[c1 := NewHalf(old(core[b]), 1)][c2 := NewHalf(old(core[b]), 2)]
            [b := old(core)[b].(child1 := c1, child2 := c2)]
        && free == old(free)[k - 1 := [c2, c1] + old(free)[k - 1]][k := Drop(old(free)[k], b)]
      ensures err != 0 ==> err == 1 && Restored()
    {
      hide LinksOk, PoolOk, AllListOk, Pool.Valid, FreeListsOk, Linked, Unlink, LinkFront, Drop, NewHalf;
      PoolFacts();
      LinksFacts();
      var child1, child2 := AddChildren(b);
      if core[b].child1 == 0 || core[b].child2 == 0 {
        if core[b].child1 != 0 {
          UndoChild(b, old(core), old(freeLink), old(allLink), old(heads), old(allHead), old(free), old(all));
          PoolFacts();
          assert pool.word == old(pool.word);
        } else if core[b].child2 != 0 {
          assert false;
        }
        return 1;
      }
      assert free[core[b].size] == old(free)[core[b].size];
      RemoveFromFreeList(b);
      return 0;
    }

    lemma FreeBlockFacts(b: int)
      requires Valid() && b in core && StateOf(core[b]) == Free
      ensures core[b].size <= MAX_ORDER && core[b].child1 == 0 && core[b].child2 == 0 && b in free[core[b].size]
      ensures b in of && of[b] in heap && heap[of[b]] == Free && of[b].order == core[b].size
        && core[b].start == Start(of[b])
      ensures core.Keys == of.Keys && FreeListsOk(core, freeLink, heads, free) && |free| == MAX_ORDER + 1
    {
      assert Describes(core, at, heap, b, of[b]);
    }

    ghost method NoteSplit(b: int, c1: int, c2: int, core0: map<int, Core>, link0: map<int, Links>, heads0: seq<int>,
        free0: seq<seq<int>>)
      requires LinksOk() && PoolOk()
      requires Represents(core0, of, at, heap) && WellFormed(heap, roots) && FreeExact(core0, free0)
      requires FreeListsOk(core0, link0, heads0, free0)
      requires (forall r <- roots :: r.index > 0) && (poolReserved ==> forall d <- pool.donated :: PoolBlock(heap, d))
      requires b in core0 && 0 < core0[b].size && b in of && of[b] in heap && heap[of[b]] == Free
      requires c1 !in core0 && c2 !in core0 && c1 != c2 && c1 != 0 && c2 != 0
      requires core == core0[c1 := NewHalf(core0[b], 1)][c2 := NewHalf(core0[b], 2)]
        [b := core0[b].(child1 := c1, child2 := c2)]
      requires |free0| == MAX_ORDER + 1 && core0[b].size <= MAX_ORDER
      requires free == free0[core0[b].size - 1 := [c2, c1] + free0[core0[b].size - 1]]
        [core0[b].size := Drop(free0[core0[b].size], b)]
      modifies `of, `at, `heap
      ensures Valid() && of[b].order > 0
      ensures heap == SplitOne(old(heap), old(of)[b]) && core[b].child1 == c1 && c1 in core
      ensures c1 in of && of[c1] == Left(old(of)[b]) && StateOf(core[c1]) == Free
    {
      hide Pool.Valid, FreeListsOk, LinksOk, PoolOk, Drop, FlipBit, PoolBlock, WellFormed, Represents, FreeExact,
        SplitOne;
      ghost var block := of[b];
      SplitOutcome(core0, link0, heads0, free0, of, at, heap, roots, core, b, c1, c2);
      of := of[c1 := Left(block)][c2 := Right(block)];
      at := at[Left(block) := c1][Right(block) := c2];
      heap := SplitOne(heap, block);
    }

    /** Splits a free block in two free halves, or, when the pool cannot supply two structs, leaves everything as
        it was. Splitting a block of order 0 is a panic in the source. */
    method SplitBlock(b: int) returns (err: int)
      requires Valid() && b in core && StateOf(core[b]) == Free && core[b].size > 0
      modifies this, pool
      ensures Valid() && SameSetup()
      ensures err == 0 <==> old(pool.freeObjects) >= 2
      ensures err == 0 ==> heap == SplitOne(old(heap), old(of)[b]) && pool.freeObjects == old(pool.freeObjects) - 2
      ensures err == 0 ==> b in core && core[b].child1 != 0 && core[b].child1 in core && core[b].child1 in of
      ensures err == 0 ==> of[core[b].child1] == Left(old(of)[b]) && StateOf(core[core[b].child1]) == Free
      ensures err != 0 ==> err == 1 && Restored() && of == old(of) && at == old(at) && heap == old(heap)
    {
      hide Pool.Valid, FreeListsOk, LinksOk, PoolOk, Drop, NewHalf, PoolBlock, WellFormed, Represents, FreeExact,
        SplitOne;
      FreeBlockFacts(b);
      PoolFacts();
      err := SplitStructs(b);
      PoolFacts();
      if err != 0 {
        return;
      }
      NoteSplit(b, old(pool.chain)[0], old(pool.chain)[1], old(core), old(freeLink), old(heads), old(free));
    }

    /** Throws away the two halves of b and makes b a free block. */
    method JoinStructs(b: int)
      requires LinksOk() && PoolOk() && b in core && 0 < core[b].size <= MAX_ORDER && b !in free[core[b].size]
      requires var c1, c2, k := core[b].child1, core[b].child2, core[b].size;
        && c1 in core && c2 in core && c1 != c2 && c1 != b && c2 != b
        && core[c1].size == k - 1 && core[c2].size == k - 1 && c1 in free[k - 1] && c2 in free[k - 1]
      modifies this`core, this`freeLink, this`allLink, this`heads, this`allHead, this`free, this`all, pool
      ensures LinksOk() && PoolOk() && pool.donated == old(pool.donated)
      ensures var c1, c2, k := old(core[b].child1), old(core[b].child2), old(core[b].size);
        && core == (old(core) - {c1, c2})[b := old(core)[b].(child1 := 0, child2 := 0)]
        && free == old(free)[k - 1 := Drop(Drop(old(free)[k - 1], c1), c2)][k := [b] + old(free)[k]]
        && pool.chain == [c2, c1] + old(pool.chain)
    {
      hide LinksOk, PoolOk, AllListOk, Pool.Valid, FreeListsOk, Linked, Unlink, LinkFront, Drop;
      LinksFacts();
      ghost var c1, k := core[b].child1, core[b].size;
      FreeListIsLinked(core, freeLink, heads, free, k - 1);
      DropListed(freeLink, heads[MAX_ORDER - (k - 1)], free[k - 1], c1);
      Discard(core[b].child1);
      SetCore(b, core[b].(child1 := 0));
      Discard(core[b].child2);
      SetCore(b, core[b].(child2 := 0));
      InsertIntoFreeList(b);
      assert core == (old(core) - {c1, old(core[b].child2)})[b := old(core)[b].(child1 := 0, child2 := 0)];
    }

    ghost method NoteJoin(b: int, core0: map<int, Core>, link0: map<int, Links>, heads0: seq<int>, free0: seq<seq<int>>)
      requires LinksOk() && PoolOk()
      requires Represents(core0, of, at, heap) && WellFormed(heap, roots) && FreeExact(core0, free0)
      requires FreeListsOk(core0, link0, heads0, free0)
      requires (forall r <- roots :: r.index > 0) && (poolReserved ==> forall d <- pool.donated :: PoolBlock(heap, d))
      requires b in core0 && b in of && of[b] in heap && heap[of[b]] == Split && 0 < core0[b].size <= MAX_ORDER
      requires of[b].order > 0 && Left(of[b]) in heap && heap[Left(of[b])] == Free
      requires Right(of[b]) in heap && heap[Right(of[b])] == Free && |free0| == MAX_ORDER + 1
      requires var c1, c2, k := core0[b].child1, core0[b].child2, core0[b].size;
        && core == (core0 - {c1, c2})[b := core0[b].(child1 := 0, child2 := 0)]
        && free == free0[k - 1 := Drop(Drop(free0[k - 1], c1), c2)][k := [b] + free0[k]]
      modifies `of, `at, `heap
      ensures Valid() && b in core && old(of)[b].order > 0 && heap == Join(old(heap), old(of)[b])
      ensures StateOf(core[b]) == Free && b in of && of[b] == old(of)[b]
    {
      hide Pool.Valid, FreeListsOk, LinksOk, PoolOk, Drop, PoolBlock, WellFormed, FreeExact, Join, Represents;
      JoinOutcome(core0, link0, heads0, free0, of, at, heap, roots, b);
      ghost var block := of[b];
      of := of - {core0[b].child1, core0[b].child2};
      at := at - {Left(block), Right(block)};
      heap := Join(heap, block);
    }

    /** The struct whose start is b's with one address bit cleared and whose size is one larger is the parent of b
        in the forest, and both its child fields point at structs. */
    lemma ParentFacts(i: int, b: int)
      requires Valid() && b in core && i in core && core[b].size < MAX_ORDER
      requires core[i].start == ClearBit(core[b].start, Bytes(core[b].size)) && core[i].size == core[b].size + 1
      ensures i in of && b in of && of[i] == Parent(of[b]) && of[i] in heap && heap[of[i]] == Split && of[i].order > 0
      ensures Left(of[i]) in heap && Right(of[i]) in heap
      ensures var c1, c2 := core[i].child1, core[i].child2;
        && c1 in core && c2 in core && c1 != c2 && c1 != i && c2 != i && (b == c1 || b == c2)
        && core[c1].size == core[i].size - 1 && core[c2].size == core[i].size - 1
        && heap[Left(of[i])] == StateOf(core[c1]) && heap[Right(of[i])] == StateOf(core[c2])
        && |free| == MAX_ORDER + 1
        && (StateOf(core[c1]) == Free ==> c1 in free[core[i].size - 1])
        && (StateOf(core[c2]) == Free ==> c2 in free[core[i].size - 1])
        && i !in free[core[i].size] && core[i].child2 != 0
    {
      hide LinksOk, PoolOk, PoolBlock, Pool.Valid, FreeListsOk, Start, Bytes, ClearBit;
      assert Describes(core, at, heap, b, of[b]) && Describes(core, at, heap, i, of[i]);
      ParentStart(of[b]);
      SameStart(of[i], Parent(of[b]));
      HalfOfParent(of[b]);
      assert Describes(core, at, heap, core[i].child1, Left(of[i]));
      assert Describes(core, at, heap, core[i].child2, Right(of[i]));
    }

    /** A block below the top order has its parent on the list of all blocks. */
    lemma ParentListed(b: int)
      requires Valid() && b in core && core[b].size < MAX_ORDER
      ensures b in of && Parent(of[b]) in at && allHead == At(all, 0)
      ensures var p := at[Parent(of[b])];
        p in core && p in all && core[p].start == ClearBit(core[b].start, Bytes(core[b].size))
          && core[p].size == core[b].size + 1
    {
      hide PoolOk, PoolBlock, Pool.Valid, FreeListsOk, FreeExact;
      assert Describes(core, at, heap, b, of[b]);
      var p := at[Parent(of[b])];
      assert Describes(core, at, heap, p, Parent(of[b]));
      assert AllListOk();
      ParentStart(of[b]);
    }

    /** Takes back the two free halves of the block i, one of which is b. */
    method JoinBlock(i: int, ghost b: int)
      requires Valid() && b in core && i in core && core[b].size < MAX_ORDER
      requires core[i].start == ClearBit(core[b].start, Bytes(core[b].size)) && core[i].size == core[b].size + 1
      requires core[i].child1 in core && StateOf(core[core[i].child1]) == Free
      requires core[i].child2 in core && StateOf(core[core[i].child2]) == Free
      modifies this, pool
      ensures Valid() && SameSetup()
      ensures i in core && StateOf(core[i]) == Free && core[i].size == old(core[i].size)
      ensures b in old(of) && i in of && of[i] == Parent(old(of)[b]) && of[i].order > 0
      ensures Left(of[i]) in old(heap) && old(heap)[Left(of[i])] == Free && Right(of[i]) in old(heap)
        && old(heap)[Right(of[i])] == Free
      ensures heap == Join(old(heap), of[i])
    {
      hide Pool.Valid, FreeListsOk, LinksOk, PoolOk, Linked, PoolBlock, WellFormed, Represents, FreeExact, Join,
        ClearBit, Bytes;
      ParentFacts(i, b);
      LinksFacts();
      ghost var core0, link0, heads0, free0 := core, freeLink, heads, free;
      JoinStructs(i);
      NoteJoin(i, core0, link0, heads0, free0);
    }

    lemma AllNext(n: nat)
      requires AllListOk() && n < |all|
      ensures all[n] in allLink && allLink[all[n]].next == At(all, n + 1) && 0 !in all && allHead == At(all, 0)
    {
      assert LinkedAt(allLink, all, n);
    }

    /** Joins the free block b with its buddy while both are free and unsplit, going up the forest. */
    method MergeBlocks(b: int)
      requires Valid() && b in core && StateOf(core[b]) == Free
      modifies this, pool
      ensures Valid() && SameSetup()
      ensures old(b in of) && heap == MergeUp(old(heap), old(of[b]))
      decreases MAX_ORDER - core[b].size
    {
      hide Pool.Valid, FreeListsOk, LinksOk, PoolOk, Linked, PoolBlock, WellFormed, Represents, FreeExact, Join,
        ClearBit, Bytes;
      FreeBlockFacts(b);
      if core[b].size >= MAX_ORDER {
        return;
      }
      var parentAddr := ClearBit(core[b].start, Bytes(core[b].size));
      LinksFacts();
      ParentListed(b);
      ghost var p, n := at[Parent(of[b])], 0;
      var i := allHead;
      while i != 0
        invariant unchanged(this) && unchanged(pool)
        invariant n <= |all| && i == At(all, n) && p !in all[..n]
        decreases |all| - n
      {
        AllNext(n);
        if core[i].start == parentAddr && core[i].size == core[b].size + 1 {
          ParentFacts(i, b);
          if core[core[i].child1].used || core[core[i].child2].used {
            return;
          }
          if core[core[i].child1].child1 != 0 || core[core[i].child2].child1 != 0 {
            return;
          }
          JoinBlock(i, b);
          MergeBlocks(i);
          return;
        }
        i := allLink[i].next;
        n := n + 1;
      }
      assert false;
    }

    // ---------------------------------------------------------------- allocation

    /** The head of a free list is a free struct of that order; a null head means that there is no free block of it. */
    lemma HeadFacts(k: nat)
      requires Valid() && k <= MAX_ORDER
      ensures |heads| == |free| == MAX_ORDER + 1
      ensures heads[MAX_ORDER - k] != 0 ==>
        var b := heads[MAX_ORDER - k];
        && free[k] != [] && b == free[k][0]
        && b in core && StateOf(core[b]) == Free && core[b].size == k
        && b in of && SmallestFit(heap, k, of[b]) && of[b].order == k && Fits(heap, k)
      ensures heads[MAX_ORDER - k] == 0 ==> forall c <- heap :: heap[c] == Free ==> c.order != k
    {
      hide PoolOk, PoolBlock, Pool.Valid, WellFormed;
      var b := heads[MAX_ORDER - k];
      HeadInList(freeLink, b, free[k]);
      if b != 0 {
        assert Describes(core, at, heap, b, of[b]);
        assert of[b] in heap && heap[of[b]] == Free && of[b].order >= k;
      } else {
        assert free[k] == [];
        forall c | c in heap && heap[c] == Free
          ensures c.order != k
        {
          assert Describes(core, at, heap, at[c], of[at[c]]);
        }
      }
    }

    lemma OrdersBounded()
      requires Valid()
      ensures forall c <- heap :: c.order <= MAX_ORDER
    {
    }

    lemma FitsUp(k: nat)
      requires forall c <- heap :: heap[c] == Free ==> c.order != k
      ensures Fits(heap, k) <==> Fits(heap, k + 1)
      ensures forall c | SmallestFit(heap, k + 1, c) :: SmallestFit(heap, k, c)
    {
      if Fits(heap, k) {
        var b :| b in heap && heap[b] == Free && b.order >= k;
        assert b.order >= k + 1;
      }
    }

    /** Finds a free block of the given order, splitting a larger one if need be. The ghost results are the block
        the search took, which is the head of the first non-empty free list from the wanted order up, and the
        order down to which it could be split before the pool ran out. */
    method NextFreeBlock(size: int) returns (b: int, ghost from: Block, ghost reached: nat)
      requires Valid()
      modifies this, pool
      ensures Valid() && SameSetup()
      ensures size < 0 || !old(Fits(heap, size)) ==> b == 0 && Restored() && heap == old(heap)
      ensures size >= 0 && old(Fits(heap, size)) ==>
        && SmallestFit(old(heap), size, from) && size <= reached <= from.order <= MAX_ORDER
        && heap == SplitDown(old(heap), from, reached)
        && pool.freeObjects == old(pool.freeObjects) - 2 * (from.order - reached)
        && (b != 0 <==> reached == size)
        && (b == 0 ==> pool.freeObjects < 2)
      ensures b != 0 ==> size >= 0 && old(Fits(heap, size))
      ensures b != 0 ==> b in core && StateOf(core[b]) == Free && b in of && of[b] == First(from, size)
      decreases MAX_ORDER + 1 - size
    {
      hide Pool.Valid, FreeListsOk, LinksOk, PoolOk, Linked, PoolBlock, WellFormed, Represents, FreeExact, SplitOne;
      from, reached := Block(0, 0), 0;
      OrdersBounded();
      if size > MAX_ORDER || size < 0 {
        return 0, from, reached;
      }
      HeadFacts(size);
      var freeb := heads[MAX_ORDER - size];
      if freeb != 0 {
        return freeb, of[freeb], size;
      } else {
        FitsUp(size);
        freeb, from, reached := NextFreeBlock(size + 1);
        if freeb == 0 {
          return 0, from, reached;
        }
        FreeBlockFacts(freeb);
        var err := SplitBlock(freeb);
        if err != 0 {
          return 0, from, reached;
        }
        return core[freeb].child1, from, size;
      }
    }

    /** Takes a free block off its list and marks it as allocated. */
    method TakeBlock(b: int)
      requires Valid() && b in core && StateOf(core[b]) == Free
      modifies this
      ensures Valid() && SameSetup() && b in core
      ensures b in of && of == old(of) && of[b] in old(heap) && heap == old(heap)[of[b] := Used]
      ensures core[b].start == Start(of[b])
    {
      hide Pool.Valid, FreeListsOk, LinksOk, PoolOk, Linked, PoolBlock, WellFormed, Represents, FreeExact, Drop, Start;
      FreeBlockFacts(b);
      UseOutcome(core, freeLink, heads, free, of, at, heap, roots, b);
      RemoveFromFreeList(b);
      SetCore(b, core[b].(used := true));
      heap := heap[of[b] := Used];
    }

    /** Marks an allocated block as free and puts it on its list. */
    method GiveBack(b: int)
      requires Valid() && b in core && core[b].used && core[b].start !in pool.donated
      modifies this
      ensures Valid() && SameSetup() && b in core && StateOf(core[b]) == Free
      ensures b in of && of == old(of) && of[b] in old(heap) && heap == old(heap)[of[b] := Free]
    {
      hide Pool.Valid, FreeListsOk, LinksOk, PoolOk, Linked, PoolBlock, WellFormed, Represents, Start;
      FreeOutcome(core, free, of, at, heap, roots, b);
      SetCore(b, core[b].(used := false));
      InsertIntoFreeList(b);
      heap := heap[of[b] := Free];
    }

    /** Allocates a block of the least order that holds the request. The ghost results are that order, the block
        taken and the free block it was cut from. When the structs run out that block stays cut as far as they went. */
    method Kmalloc(size: nat, pageAlign: bool) returns (addr: nat, ghost k: nat, ghost b: Block, ghost from: Block)
      requires Valid() && size <= MAX_REQUEST
      modifies this, pool
      ensures Valid() && SameSetup()
      ensures IsOrderFor(k, if pageAlign && size < PAGE_SIZE then PAGE_SIZE else size)
      ensures addr != 0 ==> AllocatesFrom(old(heap), k, from, b, heap) && addr == Start(b)
      ensures addr != 0 ==> pool.freeObjects == old(pool.freeObjects) - 2 * (from.order - k)
      ensures !old(Fits(heap, k)) ==> addr == 0 && Restored() && heap == old(heap)
      ensures old(Fits(heap, k)) ==> SmallestFit(old(heap), k, from) && k <= from.order <= MAX_ORDER
      ensures old(Fits(heap, k)) ==> (addr != 0 <==> old(pool.freeObjects) >= 2 * (from.order - k))
      ensures old(Fits(heap, k)) && addr == 0 ==>
        && heap == SplitDown(old(heap), from, from.order - old(pool.freeObjects) / 2)
        && pool.freeObjects == old(pool.freeObjects) % 2
      ensures addr == 0 ==> Live(heap) == old(Live(heap))
    {
      hide Pool.Valid, FreeListsOk, LinksOk, PoolOk, PoolBlock, WellFormed, Represents, FreeExact, Start, Bytes, First,
        SplitDown, Live;
      var request := size;
      if pageAlign {
        if request < PAGE_SIZE {
          request := PAGE_SIZE;
        }
      }
      var i := OrderFor(request);
      k, b := i, Block(0, 0);
      ghost var reached, h0 := 0, heap;
      var s;
      s, from, reached := NextFreeBlock(i);
      if old(Fits(heap, k)) {
        SplitDownKeeps(h0, roots, from, reached);
      }
      if s == 0 {
        return 0, k, b, from;
      }
      TakeBlock(s);
      b := of[s];
      StartPositive(heap, roots, b);
      return core[s].start, k, b, from;
    }

    lemma StructFacts(i: int)
      requires Valid() && i in core
      ensures i in of && of[i] in heap && core[i].start == Start(of[i]) && StateOf(core[i]) == heap[of[i]]
      ensures core[i].size == of[i].order
    {
      assert Describes(core, at, heap, i, of[i]);
    }

    lemma BlockListed(b: Block)
      requires Valid() && b in heap
      ensures b in at && at[b] in core && at[b] in all && at[b] in of && of[at[b]] == b
    {
      ListStart();
      var p: int := at[b];
      assert p in core && p in all;
    }

    lemma ListStart()
      requires Valid()
      ensures AllListOk() && allHead == At(all, 0) && (forall p :: p in core <==> p in all)
      ensures 0 !in all && NoDup(all)
    {
    }

    /** Frees the allocated block that starts at the given address, if there is one. The pool's own memory is not
        the caller's to free. */
    method TryFree(memory: int) returns (err: int, ghost b: Block)
      requires Valid() && memory !in pool.donated
      modifies this, pool
      ensures Valid() && SameSetup()
      ensures err == 0 <==> exists c <- old(heap) :: old(heap)[c] == Used && Start(c) == memory
      ensures err == 0 ==> b in old(Live(heap)) && Start(b) == memory && heap == Release(old(heap), b)
      ensures err != 0 ==> err == 1 && Restored() && heap == old(heap)
    {
      hide Pool.Valid, FreeListsOk, LinksOk, PoolOk, Linked, PoolBlock, WellFormed, Represents, FreeExact, Start,
        MergeUp;
      ListStart();
      ghost var n := 0;
      var i := allHead;
      while i != 0
        invariant unchanged(this) && unchanged(pool)
        invariant n <= |all| && i == At(all, n)
        invariant forall m | 0 <= m < n :: !(core[all[m]].start == memory && core[all[m]].used)
        decreases |all| - n
      {
        AllNext(n);
        if core[i].start == memory && core[i].used {
          StructFacts(i);
          b := of[i];
          GiveBack(i);
          MergeBlocks(i);
          return 0, b;
        }
        i := allLink[i].next;
        n := n + 1;
      }
      forall c | c in heap && heap[c] == Used
        ensures Start(c) != memory
      {
        BlockListed(c);
        StructFacts(at[c]);
        var m :| 0 <= m < |all| && all[m] == at[c];
      }
      return 1, Block(0, 0);
    }

    /** The state of the search for the largest available block when the request's own order k failed for lack of
        structs: a block has been cut in vain, and no free block is left of the orders searched so far. */
    static ghost predicate CutInVain(h0: Heap, structs: nat, h: Heap, left: nat, cut: Block, reached: nat, i: nat,
        k: nat) {
      && SmallestFit(h0, k, cut) && i < k < reached <= cut.order
      && h == SplitDown(h0, cut, reached) && left == structs - 2 * (cut.order - reached) < 2
      && NoneBetween(h, i, k)
    }

    static lemma CutsInVain(h0: Heap, structs: nat, h: Heap, left: nat, cut: Block, reached: nat, k: nat)
      requires SmallestFit(h0, k, cut) && 0 < k < reached <= cut.order
      requires h == SplitDown(h0, cut, reached) && left == structs - 2 * (cut.order - reached) < 2
      ensures CutInVain(h0, structs, h, left, cut, reached, k - 1, k) && RunsShort(h0, k, structs)
    {
      forall d | d in h && h[d] == Free && k - 1 < d.order
        ensures k < d.order
      {
        SplitDownFree(h0, cut, reached, d);
      }
      RunsShortBy(h0, k, structs, cut);
    }

    /** The next order has no block either, and nothing can be cut. */
    static lemma StillInVain(h0: Heap, structs: nat, h: Heap, left: nat, cut: Block, reached: nat, i: nat, k: nat,
        from: Block, down: nat)
      requires CutInVain(h0, structs, h, left, cut, reached, i, k) && 0 < i
      requires SmallestFit(h, i, from) && i < down <= from.order && 2 * (from.order - down) <= left
      ensures CutInVain(h0, structs, h, left, cut, reached, i - 1, k) && SplitDown(h, from, down) == h
    {
      assert down == from.order;
    }

    /** What was cut in vain is free. */
    static lemma CutIsFree(h0: Heap, roots: set<Block>, structs: nat, h: Heap, left: nat, cut: Block, reached: nat,
        i: nat, k: nat)
      requires CutInVain(h0, structs, h, left, cut, reached, i, k) && WellFormed(h0, roots)
      ensures Fits(h, i)
    {
      SplitDownKeeps(h0, roots, cut, reached);
    }

    /** A block of a lower order is taken as it is. */
    static lemma TakenWhole(h0: Heap, structs: nat, h: Heap, left: nat, cut: Block, reached: nat, i: nat, k: nat,
        from: Block)
      requires CutInVain(h0, structs, h, left, cut, reached, i, k)
      requires SmallestFit(h, i, from) && 2 * (from.order - i) <= left
      ensures from.order == i && First(from, i) == from && SplitDown(h, from, i) == h
      ensures from in h0 && h0[from] == Free && NoneBetween(h0, i, k)
    {
      assert from.order == i;
      SplitDownFree(h0, cut, reached, from);
      forall d | d in h0 && h0[d] == Free && i < d.order
        ensures k < d.order
      {
        SplitDownFree(h0, cut, reached, d);
      }
    }

    /** At order 0 the search ends: nothing was free below the order of the request. */
    static lemma NoneTaken(h0: Heap, structs: nat, h: Heap, left: nat, cut: Block, reached: nat, k: nat)
      requires CutInVain(h0, structs, h, left, cut, reached, 0, k)
      ensures NoneBetween(h0, 0, k)
    {
      forall d | d in h0 && h0[d] == Free && 0 < d.order
        ensures k < d.order
      {
        SplitDownFree(h0, cut, reached, d);
      }
    }

    static lemma InVainFacts(h0: Heap, structs: nat, h: Heap, left: nat, cut: Block, reached: nat, i: nat, k: nat)
      requires CutInVain(h0, structs, h, left, cut, reached, i, k)
      ensures SmallestFit(h0, k, cut) && k < reached <= cut.order && i < k
      ensures h == SplitDown(h0, cut, reached) && left == structs - 2 * (cut.order - reached) < 2
    {
    }

    static lemma SmallestFacts(h: Heap, i: nat, c: Block)
      requires SmallestFit(h, i, c)
      ensures c in h && h[c] == Free && i <= c.order
    {
    }

    static lemma NotAbove(h: Heap, i: nat, from: Block)
      requires SmallestFit(h, i, from) && !Fits(h, i + 1)
      ensures from.order == i && First(from, i) == from && SplitDown(h, from, i) == h
    {
    }

    /** With the structs for a block of order k, the block is of the largest order up to k that there is. */
    static ghost predicate TakesLargest(h: Heap, structs: nat, k: nat, found: bool, b: Block, from: Block, g: Heap,
        left: nat) {
      && (found <==> Fits(h, 1))
      && if found then
        AllocatesFrom(h, b.order, from, b, g) && (b.order == k || !Fits(h, b.order + 1))
          && left == structs - 2 * (from.order - b.order)
      else
        g == h && left == structs
    }

    /** Without them, a block is cut in vain until the structs are used up, and the largest block of a smaller order
        that was free all along is taken as it is, if there is one of at least order 1. */
    static ghost predicate TakesSmaller(h: Heap, structs: nat, k: nat, found: bool, b: Block, cut: Block, reached: nat,
        g: Heap, left: nat) {
      && SmallestFit(h, k, cut) && k < reached <= cut.order && left == structs - 2 * (cut.order - reached) < 2
      && (found <==> !NoneBetween(h, 0, k))
      && if found then
        b in h && h[b] == Free && NoneBetween(h, b.order, k) && g == SplitDown(h, cut, reached)[b := Used]
      else
        g == SplitDown(h, cut, reached)
    }

    static lemma LargestNone(h: Heap, structs: nat, k: nat, b: Block, from: Block)
      requires !Fits(h, 1)
      ensures TakesLargest(h, structs, k, false, b, from, h, structs)
    {
    }

    static lemma LargestFound(h: Heap, structs: nat, k: nat, i: nat, c: Block, left: nat)
      requires SmallestFit(h, i, c) && 0 < i <= k && (i == k || !Fits(h, i + 1)) && left == structs - 2 * (c.order - i)
      ensures TakesLargest(h, structs, k, true, First(c, i), c, SplitDown(h, c, i)[First(c, i) := Used], left)
    {
      assert Fits(h, 1);
    }

    static lemma SmallerNone(h: Heap, structs: nat, k: nat, b: Block, cut: Block, reached: nat, g: Heap, left: nat)
      requires CutInVain(h, structs, g, left, cut, reached, 0, k)
      ensures TakesSmaller(h, structs, k, false, b, cut, reached, g, left)
    {
      NoneTaken(h, structs, g, left, cut, reached, k);
    }

    static lemma SmallerFound(h: Heap, structs: nat, k: nat, i: nat, c: Block, cut: Block, reached: nat, g: Heap,
        left: nat)
      requires CutInVain(h, structs, g, left, cut, reached, i, k) && 0 < i
      requires SmallestFit(g, i, c) && 2 * (c.order - i) <= left
      ensures First(c, i) == c && c.order == i && SplitDown(g, c, i) == g
      ensures TakesSmaller(h, structs, k, true, c, cut, reached, g[c := Used], left)
    {
      TakenWhole(h, structs, g, left, cut, reached, i, k, c);
    }

    /** Allocates the largest block up to the request's order that is free, but nothing of order 0; the number of
        bytes of the block is reported. The ghost results are the order of the request, the block itself, the free
        block that was cut, and the order it was cut down to. When the structs run out on the way to the request's
        order, the block cut so far stays cut, and the largest smaller free block is taken as it is. */
    method KmallocLargestAvailable(size: nat, pageAlign: bool)
        returns (addr: nat, bytes: nat, ghost k: nat, ghost b: Block, ghost from: Block, ghost reached: nat)
      requires Valid() && size <= MAX_REQUEST
      modifies this, pool
      ensures Valid() && SameSetup()
      ensures IsOrderFor(k, if pageAlign && size < PAGE_SIZE then PAGE_SIZE else size)
      ensures addr == 0 ==> Live(heap) == old(Live(heap))
      ensures addr != 0 ==> 1 <= b.order <= k && bytes == Bytes(b.order) && addr == Start(b)
      ensures addr != 0 ==> Live(heap) == old(Live(heap)) + {b} && b !in old(Live(heap))
      ensures k == 0 ==> addr == 0 && heap == old(heap) && pool.freeObjects == old(pool.freeObjects)
      ensures k > 0 && !old(RunsShort(heap, k, pool.freeObjects)) ==>
        TakesLargest(old(heap), old(pool.freeObjects), k, addr != 0, b, from, heap, pool.freeObjects)
      ensures k > 0 && old(RunsShort(heap, k, pool.freeObjects)) ==>
        TakesSmaller(old(heap), old(pool.freeObjects), k, addr != 0, b, from, reached, heap, pool.freeObjects)
    {
      hide Pool.Valid, FreeListsOk, LinksOk, PoolOk, PoolBlock, WellFormed, Represents, FreeExact, Start, Bytes, First,
        SplitDown, Live, SmallestFit, RunsShort, CutInVain, NoneBetween, Fits, TakesLargest, TakesSmaller,
        AllocatesFrom;
      var request := size;
      if pageAlign {
        if request < PAGE_SIZE {
          request := PAGE_SIZE;
        }
      }
      var i := OrderFor(request);
      ghost var h0, structs := heap, pool.freeObjects;
      k, b, from, reached := i, Block(0, 0), Block(0, 0), 0;
      addr, bytes := 0, 0;
      ghost var c, down, short := from, 0, false;
      var s := 0;
      while true
        invariant Valid() && SameSetup()
        invariant 0 <= i <= k && Live(heap) == old(Live(heap))
        invariant !short ==> heap == h0 && pool.freeObjects == structs
        invariant !short && i < k ==> !Fits(h0, i + 1) && !RunsShort(h0, k, structs)
        invariant short ==>
          RunsShort(h0, k, structs) && CutInVain(h0, structs, heap, pool.freeObjects, from, reached, i, k)
        decreases i
      {
        if i == 0 {
          if short {
            InVainFacts(h0, structs, heap, pool.freeObjects, from, reached, i, k);
            SmallerNone(h0, structs, k, b, from, reached, heap, pool.freeObjects);
          } else if k > 0 {
            LargestNone(h0, structs, k, b, from);
          }
          return;
        }
        ghost var h, left := heap, pool.freeObjects;
        s, c, down := NextFreeBlock(i);
        if Fits(h, i) {
          SmallestFacts(h, i, c);
          SplitDownKeeps(h, roots, c, down);
        }
        if s == 0 {
          if short {
            CutIsFree(h0, roots, structs, h, left, from, reached, i, k);
            StillInVain(h0, structs, h, left, from, reached, i, k, c, down);
          } else if Fits(h, i) {
            if i < k {
              NotAbove(h, i, c);
              assert false;
            }
            CutsInVain(h0, structs, heap, pool.freeObjects, c, down, k);
            short, from, reached := true, c, down;
          } else if i == k {
            NothingToCut(h0, k, structs);
          }
        } else if short {
          InVainFacts(h0, structs, h, left, from, reached, i, k);
          SmallerFound(h0, structs, k, i, c, from, reached, h, left);
        } else {
          if i == k {
            RunsShortBy(h0, k, structs, c);
          }
          LargestFound(h0, structs, k, i, c, pool.freeObjects);
          from, reached := c, i;
        }
        i := i - 1;
        if s != 0 {
          break;
        }
      }
      ghost var g := heap;
      TakeBlock(s);
      b := of[s];
      MarkKeeps(g, roots, b, Used);
      StartPositive(heap, roots, b);
      return core[s].start, Bytes(i + 1), k, b, from, reached;
    }

    // ---------------------------------------------------------------- accounting

    /** The pool's counters tell how many structs are on the list of all blocks: one for each block of the forest. */
    lemma StructCount()
      requires Valid()
      ensures |all| == |heap| == pool.objects - pool.freeObjects
    {
      hide FreeListsOk, FreeExact, WellFormed, PoolBlock, Pool.Valid;
      pool.OutstandingCount();
      ListStart();
      DistinctSize(all, core.Keys);
      assert pool.HandedOut() == core.Keys;
      StructsOfBlocks(of, at, core, heap);
    }

    /** How many structs are free follows from the forest and the number of the pool's blocks. */
    lemma FreeStructs()
      requires Valid()
      ensures pool.freeObjects == Extent(STRUCTS_PER_BLOCK, |pool.donated|) - |heap|
    {
      StructCount();
    }

    static lemma {:induction false} DistinctSize(s: seq<int>, keys: set<int>)
      requires NoDup(s) && forall p :: p in s <==> p in keys
      ensures |s| == |keys|
      decreases |s|
    {
      if s != [] {
        assert s == [s[0]] + s[1..];
        assert forall p :: p in s[1..] <==> p in keys - {s[0]};
        DistinctSize(s[1..], keys - {s[0]});
      } else {
        assert forall p <- keys :: p in s;
      }
    }

    static lemma StructsOfBlocks(of: map<int, Block>, at: map<Block, int>, core: map<int, Core>, h: Heap)
      requires Represents(core, of, at, h)
      ensures |h| == |core|
    {
      forall p | p in of
        ensures of[p] in at && at[of[p]] == p
      {
      }
      SameSize(of, at);
      assert |h| == |h.Keys| && |core| == |core.Keys|;
    }

    /** Maps that are inverse to each other have the same size. */
    static lemma {:induction false} SameSize<A, B>(f: map<A, B>, g: map<B, A>)
      requires forall x <- f :: f[x] in g && g[f[x]] == x
      requires forall y <- g :: g[y] in f && f[g[y]] == y
      ensures |f.Keys| == |g.Keys|
      decreases |f|
    {
      if f.Keys == {} {
        assert g.Keys == {};
      } else {
        var x :| x in f;
        var f', g' := f - {x}, g - {f[x]};
        assert f'.Keys == f.Keys - {x} && g'.Keys == g.Keys - {f[x]};
        SameSize(f', g');
      }
    }

    /** The blocks of the allocated structs among the first n of the list of all blocks. */
    ghost function UsedAmong(n: nat): set<Block>
      requires n <= |all|
      reads `all, `core, `of
    {
      set p | p in all[..n] && p in core && p in of && core[p].used :: of[p]
    }

    lemma UsedAmongAll()
      requires Valid()
      ensures UsedAmong(|all|) == Live(heap)
    {
      hide PoolOk, PoolBlock, Pool.Valid, FreeListsOk, FreeExact, WellFormed;
      forall b | b in Live(heap)
        ensures b in UsedAmong(|all|)
      {
        BlockListed(b);
        StructFacts(at[b]);
        assert all[..|all|] == all;
      }
      forall p | p in all && p in core && core[p].used
        ensures p in of && of[p] in Live(heap)
      {
        StructFacts(p);
      }
    }

    lemma UsedAmongStep(n: nat)
      requires Valid() && n < |all| && all[n] in core && all[n] in of
      ensures UsedAmong(n + 1) == UsedAmong(n) + if core[all[n]].used then {of[all[n]]} else {}
      ensures of[all[n]] !in UsedAmong(n)
    {
      hide PoolOk, PoolBlock, Pool.Valid, FreeListsOk, FreeExact, WellFormed;
      assert NoDup(all) && all[..n + 1] == all[..n] + [all[n]];
    }

    /** The bytes of all live blocks. */
    method MemoryAllocated() returns (sum: nat)
      requires Valid()
      ensures sum == HeapRuns.TotalBytes(Live(heap))
      ensures sum + HeapRuns.TotalBytes(FreeBlocks(heap)) == |roots| * Bytes(MAX_ORDER)
    {
      hide PoolOk, PoolBlock, Pool.Valid, FreeListsOk, FreeExact, WellFormed, Linked, LinksOk, Bytes, UsedAmong,
        Represents, HeapRuns.TotalBytes;
      ListStart();
      StructsKnown();
      sum := 0;
      ghost var n := 0;
      var b := allHead;
      while b != 0
        invariant n <= |all| && b == At(all, n) && sum == HeapRuns.TotalBytes(UsedAmong(n))
        decreases |all| - n
      {
        AllNext(n);
        StructFacts(b);
        UsedAmongStep(n);
        if core[b].used {
          HeapRuns.TotalWithout(UsedAmong(n + 1), of[b]);
          assert UsedAmong(n + 1) - {of[b]} == UsedAmong(n);
          sum := sum + Bytes(core[b].size);
        } else {
          assert UsedAmong(n + 1) == UsedAmong(n);
        }
        b := allLink[b].next;
        n := n + 1;
      }
      UsedAmongAll();
      HeapRuns.BytesConserved(heap, roots);
    }

    lemma StructsKnown()
      requires Valid()
      ensures forall p <- all :: p in core
      ensures UsedAmong(0) == {} && HeapRuns.TotalBytes({}) == 0
    {
    }

    // ---------------------------------------------------------------- start-up

    lemma TopList()
      requires Valid()
      ensures |heads| == |free| == MAX_ORDER + 1 && heads[0] == At(free[MAX_ORDER], 0) && 0 !in free[MAX_ORDER]
    {
      hide PoolOk, WellFormed, PoolBlock;
      assert Linked(freeLink, heads[MAX_ORDER - MAX_ORDER], free[MAX_ORDER]);
    }

    lemma TopNext(n: nat)
      requires Valid() && |free| == MAX_ORDER + 1 && n < |free[MAX_ORDER]|
      ensures free[MAX_ORDER][n] in core && free[MAX_ORDER][n] in freeLink && free[MAX_ORDER][n] in of
      ensures freeLink[free[MAX_ORDER][n]].next == At(free[MAX_ORDER], n + 1)
      ensures StateOf(core[free[MAX_ORDER][n]]) == Free && core[free[MAX_ORDER][n]].size == MAX_ORDER
    {
      hide PoolOk, WellFormed, PoolBlock;
      assert Linked(freeLink, heads[MAX_ORDER - MAX_ORDER], free[MAX_ORDER]);
      assert LinkedAt(freeLink, free[MAX_ORDER], n);
    }

    /** The free block of the top order that starts at the given address, or null. */
    method FindTopBlock(addr: nat) returns (b: int)
      requires Valid()
      ensures b != 0 ==> b in core && StateOf(core[b]) == Free && core[b].size == MAX_ORDER && core[b].start == addr
      ensures b == 0 ==> forall c <- heap :: heap[c] == Free && c.order == MAX_ORDER ==> Start(c) != addr
    {
      hide Pool.Valid, FreeListsOk, LinksOk, PoolOk, Linked, PoolBlock, WellFormed, Represents, Start, Bytes;
      TopList();
      ghost var n := 0;
      b := heads[0];
      while b != 0
        invariant n <= |free[MAX_ORDER]| && b == At(free[MAX_ORDER], n)
        invariant forall m | 0 <= m < n :: free[MAX_ORDER][m] in core && core[free[MAX_ORDER][m]].start != addr
        decreases |free[MAX_ORDER]| - n
      {
        TopNext(n);
        if core[b].start == addr {
          return;
        }
        b := freeLink[b].next;
        n := n + 1;
      }
      forall c | c in heap && heap[c] == Free && c.order == MAX_ORDER
        ensures Start(c) != addr
      {
        BlockListed(c);
        StructFacts(at[c]);
        var p: int := at[c];
        assert p in free[MAX_ORDER];
        var m :| 0 <= m < |free[MAX_ORDER]| && free[MAX_ORDER][m] == p;
      }
    }

    /** Reserves the block of the given order at the start of a free block of the top order. */
    method BuddyReserveBlock(addr: nat, size: nat) returns (err: int, ghost from: Block)
      requires Valid()
      modifies this, pool
      ensures Valid() && SameSetup() && (err == 0 || err == 1)
      ensures err == 0 ==>
        from in old(heap) && old(heap)[from] == Free && from.order == MAX_ORDER && Start(from) == addr
      ensures err == 0 ==> var k := if size < MAX_ORDER then size else MAX_ORDER;
        heap == SplitDown(old(heap), from, k)[First(from, k) := Used]
      ensures err == 0 ==>
        pool.freeObjects == old(pool.freeObjects) - 2 * (MAX_ORDER - if size < MAX_ORDER then size else MAX_ORDER)
      ensures err == 0 <==>
        && old(pool.freeObjects) >= 2 * (MAX_ORDER - if size < MAX_ORDER then size else MAX_ORDER)
        && exists c <- old(heap) :: old(heap)[c] == Free && c.order == MAX_ORDER && Start(c) == addr
      ensures err != 0 && (exists c <- old(heap) ::
        old(heap)[c] == Free && c.order == MAX_ORDER && Start(c) == addr) ==>
        && from in old(heap) && old(heap)[from] == Free && from.order == MAX_ORDER && Start(from) == addr
        && old(pool.freeObjects) / 2 <= MAX_ORDER
        && heap == SplitDown(old(heap), from, MAX_ORDER - old(pool.freeObjects) / 2)
        && pool.freeObjects == old(pool.freeObjects) % 2
      ensures !(exists c <- old(heap) :: old(heap)[c] == Free && c.order == MAX_ORDER && Start(c) == addr) ==>
        heap == old(heap) && pool.freeObjects == old(pool.freeObjects)
    {
      hide Pool.Valid, FreeListsOk, LinksOk, PoolOk, Linked, PoolBlock, WellFormed, Represents, FreeExact, Start, Bytes,
        SplitOne;
      from := Block(0, 0);
      var b := FindTopBlock(addr);
      if b == 0 {
        return 1, from;
      }
      FreeBlockFacts(b);
      from := of[b];
      while core[b].size > size
        invariant Valid() && SameSetup()
        invariant b in core && StateOf(core[b]) == Free && b in of && core[b].start == addr
        invariant (if size < MAX_ORDER then size else MAX_ORDER) <= core[b].size <= MAX_ORDER
        invariant of[b] == First(from, core[b].size) && heap == SplitDown(old(heap), from, core[b].size)
        invariant pool.freeObjects == old(pool.freeObjects) - 2 * (MAX_ORDER - core[b].size)
        decreases core[b].size
      {
        FreeBlockFacts(b);
        HalvesStart(of[b]);
        if core[b].child1 == 0 {
          var failed := SplitBlock(b);
          if failed != 0 {
            return 1, from;
          }
        }
        StructFacts(core[b].child1);
        if core[core[b].child1].start == addr && !core[core[b].child1].used {
          b := core[b].child1;
        } else {
          assert false;
        }
      }
      FreeBlockFacts(b);
      TakeBlock(b);
      return 0, from;
    }

    ghost method NoteRoot(b: int, r: Block, core0: map<int, Core>, free0: seq<seq<int>>)
      requires LinksOk() && PoolOk()
      requires Represents(core0, of, at, heap) && WellFormed(heap, roots) && FreeExact(core0, free0)
      requires (forall r <- roots :: r.index > 0) && (poolReserved ==> forall d <- pool.donated :: PoolBlock(heap, d))
      requires b !in core0 && b != 0 && r.order == MAX_ORDER && r !in heap && r.index > 0
      requires |free0| == MAX_ORDER + 1 && core == core0[b := Core(0, 0, MAX_ORDER, false, Start(r))]
      requires free == free0[MAX_ORDER := [b] + free0[MAX_ORDER]]
      modifies `of, `at, `heap, `roots
      ensures Valid() && roots == old(roots) + {r} && heap == old(heap)[r := Free]
    {
      hide Pool.Valid, FreeListsOk, LinksOk, PoolOk, PoolBlock, WellFormed, FreeExact, Represents, Start;
      AddRootOutcome(core0, free0, of, at, heap, roots, b, r);
      of := of[b := r];
      at := at[r := b];
      heap := heap[r := Free];
      roots := roots + {r};
    }

    /** Adds a top-order block at a new place to the heap. */
    method AddRoot(addr: nat, ghost r: Block) returns (b: int)
      requires Valid()
      requires r.order == MAX_ORDER && r.index > 0 && Start(r) == addr && r !in roots
      modifies this, pool
      ensures Valid() && pool == old(pool) && pool.donated == old(pool.donated) && poolReserved == old(poolReserved)
      ensures b != 0 <==> old(pool.freeObjects) > 0
      ensures b != 0 ==> roots == old(roots) + {r} && r !in old(heap) && heap == old(heap)[r := Free]
      ensures b != 0 ==> pool.freeObjects == old(pool.freeObjects) - 1
      ensures b == 0 ==> SameSetup() && heap == old(heap)
    {
      hide Pool.Valid, FreeListsOk, LinksOk, PoolOk, Linked, WellFormed, Represents, FreeExact, Start, Bytes, SplitOne,
        PoolBlock;
      RootIsNew(heap, roots, r);
      TopList();
      PoolFacts();
      b := AllocNewBlock(MAX_ORDER, addr);
      PoolFacts();
      if b == 0 {
        return;
      }
      NoteRoot(b, r, old(core), old(free));
    }

    /** From here on the pool's only block must stay allocated. */
    ghost method NoteReserved(d: int, b: Block)
      requires Valid() && pool.donated == [d]
      requires b in heap && heap[b] == Used && b.order == POOL_ORDER && Start(b) == d
      modifies `poolReserved
      ensures Valid() && poolReserved
    {
      hide Pool.Valid, FreeListsOk, WellFormed, Represents, FreeExact, Start, LinksOk, PoolOk;
      assert PoolBlock(heap, d);
      poolReserved := true;
    }

    lemma DonatedApart(h: Heap, k: nat, from: Block, b: Block)
      requires PoolOk() && forall d <- pool.donated :: PoolBlock(h, d)
      requires WellFormed(h, roots) && IsOrderFor(k, STRUCTS_PER_BLOCK * STRUCT_SIZE)
        && AllocatesFrom(h, k, from, b, heap)
      requires Start(b) > 0
      ensures pool.Donatable(Start(b)) && PoolBlock(heap, Start(b))
    {
      hide Pool.Valid, SplitDown, First;
      AllocationKeeps(h, roots, k, b, heap);
      PoolBlockSize(k);
      forall d | d in pool.donated
        ensures Apart(Start(b), d, Extent(pool.objectSize, pool.blockSize))
      {
        var c :| c in h && h[c] == Used && c.order == POOL_ORDER && Start(c) == d;
        assert c in Live(h);
        if c.index < b.index {
          SameOrderApart(c, b);
        } else if b.index < c.index {
          SameOrderApart(b, c);
        }
      }
      assert b in Live(heap);
    }

    /** Lets the pool grow by one block of the heap, outside of any split: the block becomes live, and its structs
        free. The ghost results are the block and the free block it was cut from. */
    method GrowPool() returns (addr: nat, ghost b: Block, ghost from: Block)
      requires Valid() && poolReserved
      modifies this, pool
      ensures Valid() && poolReserved && pool == old(pool) && roots == old(roots)
      ensures addr != 0 <==> old(Fits(heap, POOL_ORDER)) && !old(RunsShort(heap, POOL_ORDER, pool.freeObjects))
      ensures addr == 0 ==> Live(heap) == old(Live(heap)) && pool.donated == old(pool.donated)
      ensures !old(Fits(heap, POOL_ORDER)) ==> heap == old(heap) && pool.freeObjects == old(pool.freeObjects)
      ensures addr == 0 && old(Fits(heap, POOL_ORDER)) ==>
        && SmallestFit(old(heap), POOL_ORDER, from) && old(pool.freeObjects) < 2 * (from.order - POOL_ORDER)
        && heap == SplitDown(old(heap), from, from.order - old(pool.freeObjects) / 2)
        && pool.freeObjects == old(pool.freeObjects) % 2
      ensures addr != 0 ==> AllocatesFrom(old(heap), POOL_ORDER, from, b, heap) && addr == Start(b)
      ensures addr != 0 ==> pool.donated == old(pool.donated) + [addr]
      ensures addr != 0 ==>
        pool.freeObjects == old(pool.freeObjects) - 2 * (from.order - POOL_ORDER) + STRUCTS_PER_BLOCK
    {
      hide FreeListsOk, LinksOk, Linked, WellFormed, Represents, FreeExact, Start, Pool.Valid, Pool.HandedOut,
        Pool.Donatable, PoolBlock, IsOrderFor, AllocatesFrom, Live, RunsShort, SmallestFit, Fits;
      ghost var k;
      addr, k, b, from := Kmalloc(STRUCTS_PER_BLOCK * STRUCT_SIZE, false);
      PoolBlockSize(k);
      NullDonatable();
      if old(Fits(heap, k)) {
        RunsShortBy(old(heap), k, old(pool.freeObjects), from);
      }
      if addr != 0 {
        TakenFits(old(heap), k, from, b, heap);
        DonatedApart(old(heap), k, from, b);
      }
      pool.AllocateNewBlock(0, addr);
    }

    static lemma TakenFits(h: Heap, k: nat, from: Block, b: Block, g: Heap)
      requires AllocatesFrom(h, k, from, b, g)
      ensures Fits(h, k)
    {
    }

    lemma NullDonatable()
      ensures pool.Donatable(0)
    {
    }
  }

  const TOP_BYTES: nat := 0x40_0000

  lemma TopStart(r: Block)
    requires r.order == MAX_ORDER
    ensures Start(r) == TOP_BYTES * r.index
  {
    StartIsProduct(r);
    TopBytes();
  }

  lemma TopBytes()
    ensures Bytes(MAX_ORDER) == TOP_BYTES
  {
    assert Bytes(5) == 0x4000;
    assert Bytes(10) == 0x8_0000;
  }

  lemma {:induction false} StartIsProduct(b: Block)
    ensures Start(b) == Bytes(b.order) * b.index
    decreases b.index
  {
    if b.index > 0 {
      StartIsProduct(Block(b.index - 1, b.order));
      assert Bytes(b.order) * b.index == Bytes(b.order) * (b.index - 1) + Bytes(b.order);
    }
  }

  /** The top-order blocks between two multiples of their size. */
  ghost function RootsBetween(lo: nat, hi: nat): set<Block> {
    set i | lo <= i < hi :: Block(i, MAX_ORDER)
  }

  lemma {:induction false} RootCount(lo: nat, hi: nat)
    requires lo <= hi
    ensures |RootsBetween(lo, hi)| == hi - lo
    decreases hi - lo
  {
    if lo < hi {
      RootCount(lo, hi - 1);
      assert RootsBetween(lo, hi) == RootsBetween(lo, hi - 1) + {Block(hi - 1, MAX_ORDER)};
    }
  }

  /** The free block of a heap that consists of it alone is split down to an order and its low end taken. */
  lemma FirstReservation(r: Block, g: Heap, k: nat)
    requires r.order == MAX_ORDER && k <= MAX_ORDER
    requires g == SplitDown(map[r := Free], r, k)[First(r, k) := Used]
    ensures WellFormed(g, {r}) && Canonical(g, {r}) && Live(g) == {First(r, k)}
  {
    var h: Heap := map[r := Free];
    assert WellFormed(h, {r});
    assert AllocatesFrom(h, k, r, First(r, k), g);
    AllocationKeeps(h, {r}, k, First(r, k), g);
    AllocationStaysCanonical(h, {r}, k, First(r, k), g);
  }

  lemma LiveIsUsed(h: Heap, b: Block)
    requires b in Live(h)
    ensures b in h && h[b] == Used
  {
  }

  lemma RootStaysCanonical(h: Heap, roots: set<Block>, r: Block)
    requires WellFormed(h, roots) && Canonical(h, roots) && r.order == MAX_ORDER && r !in h
    requires WellFormed(h[r := Free], roots + {r})
    ensures Canonical(h[r := Free], roots + {r}) && Live(h[r := Free]) == Live(h)
  {
  }

  /** Adds the top-order blocks from end down to above the first one. */
  method FillHeap(h: Buddy, heapMinLimit: nat, heapEnd: nat, ghost lo: nat, ghost hi: nat)
    requires h.Valid() && Canonical(h.heap, h.roots) && h.roots == {Block(lo, MAX_ORDER)}
    requires 0 < lo < hi && heapEnd == TOP_BYTES * hi && heapMinLimit == TOP_BYTES * (lo + 1)
    requires h.pool.freeObjects >= hi - lo
    modifies h, h.pool
    ensures h.Valid() && h.poolReserved == old(h.poolReserved)
    ensures Canonical(h.heap, h.roots) && Live(h.heap) == old(Live(h.heap)) && h.roots == RootsBetween(lo, hi)
    ensures h.pool.freeObjects == old(h.pool.freeObjects) - (hi - lo - 1)
    ensures forall r <- h.roots :: r.index != lo ==> r in h.heap && h.heap[r] == Free
  {
    hide Pool.Valid, FreeListsOk, WellFormed, Represents, FreeExact, PoolBlock, Start, Bytes, Canonical, Live;
    var blockP := heapEnd;
    ghost var i := hi;
    while blockP >= heapMinLimit + TOP_BYTES
      invariant h.Valid() && h.pool == old(h.pool) && h.poolReserved == old(h.poolReserved)
      invariant Canonical(h.heap, h.roots) && Live(h.heap) == old(Live(h.heap))
      invariant lo < i <= hi && blockP == TOP_BYTES * i && h.roots == {Block(lo, MAX_ORDER)} + RootsBetween(i, hi)
      invariant h.pool.freeObjects == old(h.pool.freeObjects) - (hi - i) >= i - lo
      invariant forall r <- RootsBetween(i, hi) :: r in h.heap && h.heap[r] == Free
    {
      blockP := blockP - TOP_BYTES;
      i := i - 1;
      ghost var g, roots := h.heap, h.roots;
      TopStart(Block(i, MAX_ORDER));
      RootIsNew(g, roots, Block(i, MAX_ORDER));
      var b := h.AddRoot(blockP, Block(i, MAX_ORDER));
      RootStaysCanonical(g, roots, Block(i, MAX_ORDER));
    }
  }

  /** Sets up the heap between the end of the kernel's static memory and the end of the memory, both rounded to the
      top block size. The first order-8 block becomes the pool's memory. */
  method InitBuddyAllocator(staticEnd: nat) returns (err: int, h: Buddy?)
    requires VA_OFFSET <= staticEnd
    ensures err == if (staticEnd + TOP_BYTES - 1) / TOP_BYTES < MEMORY_END / TOP_BYTES then 0 else 1
    ensures err == 0 ==> h != null && h.Valid() && h.poolReserved && fresh(h)
    ensures err == 0 ==> h.roots == RootsBetween((staticEnd + TOP_BYTES - 1) / TOP_BYTES, MEMORY_END / TOP_BYTES)
    ensures err == 0 ==> Live(h.heap) == {First(Block((staticEnd + TOP_BYTES - 1) / TOP_BYTES, MAX_ORDER), POOL_ORDER)}
    ensures err == 0 ==> Canonical(h.heap, h.roots)
    ensures err == 0 ==> forall r <- h.roots :: r.index != (staticEnd + TOP_BYTES - 1) / TOP_BYTES ==>
      r in h.heap && h.heap[r] == Free
    ensures err == 0 ==>
      h.pool.freeObjects == STRUCTS_PER_BLOCK - 2 * (MAX_ORDER - POOL_ORDER) - |h.roots|
  {
    hide Pool.Valid, FreeListsOk, WellFormed, Represents, FreeExact, Start, Bytes, Canonical, Live, First, SplitDown;
    var maxBlkMask := TOP_BYTES - 1;
    var heapEnd := MEMORY_END / TOP_BYTES * TOP_BYTES;
    var heapMinLimit := (staticEnd + maxBlkMask) / TOP_BYTES * TOP_BYTES;
    if heapEnd < heapMinLimit + TOP_BYTES {
      return 1, null;
    }
    ghost var lo, hi := (staticEnd + TOP_BYTES - 1) / TOP_BYTES, MEMORY_END / TOP_BYTES;
    ghost var first := Block(lo, MAX_ORDER);
    TopStart(first);
    var p := new Pool.UsingMemory(STRUCT_SIZE, 0x2_0000, heapMinLimit);
    h := new Buddy(p);
    var b := h.AddRoot(heapMinLimit, first);
    if b == 0 {
      assert false;
    }
    ghost var h0, from := h.heap, first;
    assert h0 == map[first := Free] && h.roots == {first};
    err, from := h.BuddyReserveBlock(heapMinLimit, POOL_ORDER);
    if err != 0 {
      assert false;
    }
    FirstReservation(first, h.heap, POOL_ORDER);
    FirstStart(first, POOL_ORDER);
    LiveIsUsed(h.heap, First(first, POOL_ORDER));
    h.NoteReserved(heapMinLimit, First(first, POOL_ORDER));
    heapMinLimit := heapMinLimit + TOP_BYTES;
    FillHeap(h, heapMinLimit, heapEnd, lo, hi);
    RootCount(lo, hi);
    return 0, h;
  }
}
