/** Start-up: the translation tables of the boot code, the heap, and the kernel's address space. */
module Boot {
  import opened Blocks
  import opened BuddyAllocator
  import opened Layout
  import opened HeapSupply
  import opened Radix
  import opened PageTables
  import opened Regions
  import opened AddressSpaces
  import opened Vmalloc
  import HeapRuns

  const BLOCK_BYTES: nat := 0x20_0000

  /** The tables of the kernel's mapping and of the identity mapping. */
  datatype Tables = Tables(table1: nat, table1Id: nat, table2: nat, table2Id: nat)

  ghost predicate IsTablePage(a: nat) {
    PageAddress(a) && a > 0
  }

  /** Five tables, each a page of its own. */
  ghost predicate Usable(t: Tables, root: nat) {
    && t.table1 != root && t.table1Id != root && t.table2 != root && t.table2Id != root
    && t.table1 != t.table1Id && t.table1 != t.table2 && t.table1 != t.table2Id
    && t.table1Id != t.table2 && t.table1Id != t.table2Id && t.table2 != t.table2Id
    && IsTablePage(t.table1) && IsTablePage(t.table1Id) && IsTablePage(t.table2) && IsTablePage(t.table2Id)
  }

  ghost predicate IsBootLeaf(n: Node) {
    n.level == 2 && (n.index < 512 || 0x400_0000 <= n.index < 0x400_0000 + 512)
  }

  ghost function BootNodes(): set<Node> {
    {Node(0, 0), Node(0, 256), Node(1, 0), Node(1, 0x2_0000)}
    + (set i | 0 <= i < 512 :: Node(2, i)) + (set i | 0x400_0000 <= i < 0x400_0000 + 512 :: Node(2, i))
  }

  ghost function BootEntry(t: Tables, n: Node): Entry {
    if n.level == 0 then Table(if n.index == 0 then t.table1Id else t.table1)
    else if n.level == 1 then Table(if n.index == 0 then t.table2Id else t.table2)
    else Leaf(n.index % 512 * BLOCK_BYTES, false)
  }

  /** The tree that page_table_initialize builds. */
  ghost function BootTree(t: Tables): View {
    map n | n in BootNodes() :: BootEntry(t, n)
  }

  ghost predicate IsBootTable(n: Node) {
    n == Node(0, 0) || n == Node(0, 256) || n == Node(1, 0) || n == Node(1, 0x2_0000)
  }

  /** The tree holds the four tables and the leaves, and nothing else. */
  lemma BootNodesAre(t: Tables, n: Node)
    ensures n in BootTree(t) <==> IsBootTable(n) || IsBootLeaf(n)
    ensures n in BootTree(t) ==> BootTree(t)[n] == BootEntry(t, n)
    ensures IsLeaf(BootTree(t), n) <==> IsBootLeaf(n)
  {
    if IsBootLeaf(n) {
      assert n in BootNodes();
    }
  }

  lemma BootNodesUp(t: Tables, n: Node)
    requires n in BootTree(t) && n.level > 0
    ensures Up(n) in BootTree(t) && BootTree(t)[Up(n)].Table?
  {
    hide BootTree;
    BootNodesAre(t, n);
    BootNodesAre(t, Up(n));
  }

  lemma BootTablesDiffer(t: Tables, root: nat, n: Node, m: Node)
    requires Usable(t, root) && IsBootTable(n) && IsBootTable(m)
    ensures BootEntry(t, n).Table? && n.level < 3 && BootEntry(t, n).addr != root
    ensures n != m ==> BootEntry(t, n).addr != BootEntry(t, m).addr
  {
  }

  lemma BootIsTree(t: Tables, root: nat)
    requires Usable(t, root)
    ensures Closed(BootTree(t), root) && NoEmptyTable(BootTree(t))
  {
    hide BootTree, BootEntry, Usable, IsBootTable, IsBootLeaf;
    var v := BootTree(t);
    forall n | n in v
      ensures n.level < LEVELS && (n.level == 0 ==> n.index < 512)
      ensures v[n].Table? ==> n.level < 3 && v[n].addr != root && HasChild(v, n)
      ensures n.level > 0 ==> Up(n) in v && v[Up(n)].Table?
    {
      BootNodeFits(t, root, n);
    }
    forall n, m | n in v && m in v && v[n].Table? && v[m].Table? && n != m
      ensures v[n].addr != v[m].addr
    {
      BootTableIs(t, n);
      BootTableIs(t, m);
      BootTablesDiffer(t, root, n, m);
    }
  }

  lemma BootTableIs(t: Tables, n: Node)
    requires n in BootTree(t) && BootTree(t)[n].Table?
    ensures IsBootTable(n) && BootTree(t)[n] == BootEntry(t, n)
  {
    hide BootTree;
    BootNodesAre(t, n);
  }

  lemma BootNodeFits(t: Tables, root: nat, n: Node)
    requires Usable(t, root) && n in BootTree(t)
    ensures var v := BootTree(t); n.level < LEVELS && (n.level == 0 ==> n.index < 512)
    ensures var v := BootTree(t); v[n].Table? ==> n.level < 3 && v[n].addr != root && HasChild(v, n)
    ensures n.level > 0 ==> Up(n) in BootTree(t) && BootTree(t)[Up(n)].Table?
  {
    hide BootTree;
    BootNodesAre(t, n);
    if n.level > 0 {
      BootNodesUp(t, n);
    }
    if BootTree(t)[n].Table? {
      BootTablesDiffer(t, root, n, n);
      var c := Node(n.level + 1, n.index * 512);
      assert Up(c) == n;
      BootNodesAre(t, c);
    }
  }

  /** Every address below the size of the memory translates to itself, and with the kernel's offset to the address
      without it. */
  lemma BootTranslates(t: Tables, x: nat)
    requires x < RAM_BYTES
    ensures Translate(BootTree(t), x) == x && Translate(BootTree(t), VA_OFFSET + x) == x
  {
    BootTranslatesAt(t, x, x);
    BootTranslatesAt(t, VA_OFFSET + x, x);
  }

  lemma BootTranslatesAt(t: Tables, a: nat, x: nat)
    requires x < RAM_BYTES && (a == x || a == VA_OFFSET + x)
    ensures Translate(BootTree(t), a) == x
  {
    hide BootTree, Or;
    BootNodesAre(t, NodeAt(a, 0));
    BootNodesAre(t, NodeAt(a, 1));
    BootNodesAre(t, NodeAt(a, 2));
    BootOffset(a, x);
    LeafIsLinear(NodeAt(a, 2), x / BLOCK_BYTES * BLOCK_BYTES);
    CoversIsNodeAt(NodeAt(a, 2), a);
  }

  /** The block of an address, and its place in the block. */
  lemma BootOffset(a: nat, x: nat)
    requires x < RAM_BYTES && (a == x || a == VA_OFFSET + x)
    ensures IsBootLeaf(NodeAt(a, 2)) && NodeAt(a, 2).index % 512 == x / BLOCK_BYTES
    ensures x / BLOCK_BYTES * BLOCK_BYTES % BLOCK_BYTES == 0
    ensures x / BLOCK_BYTES * BLOCK_BYTES + (a - Base(NodeAt(a, 2))) == x
  {
    if a == x {
      assert NodeAt(a, 2).index == x / BLOCK_BYTES;
    } else {
      assert NodeAt(a, 2).index == 0x400_0000 + x / BLOCK_BYTES;
    }
  }

  lemma BootMapsNothingElse(t: Tables, a: nat)
    requires RAM_BYTES <= a < VA_OFFSET || VA_OFFSET + RAM_BYTES <= a
    ensures !Mapped(BootTree(t), a)
  {
    forall n | IsLeaf(BootTree(t), n)
      ensures !Covers(n, a)
    {
      BootNodesAre(t, n);
    }
  }

  // ---------------------------------------------------------------- page_table_initialize

  ghost function Pages(t: Tables, root: nat): set<nat> {
    {root, t.table1, t.table1Id, t.table2, t.table2Id}
  }

  ghost predicate HasTables(mem: Memory, t: Tables, root: nat) {
    mem.Keys == Pages(t, root) && forall a <- mem :: |mem[a]| == ENTRIES
  }

  /** zero_page_table */
  method ZeroPageTable(mem: Memory, table: nat) returns (m: Memory)
    requires table in mem && |mem[table]| == ENTRIES
    ensures m == mem[table := ZeroPage()]
  {
    m := mem;
    var i := 0;
    while i < ENTRIES
      invariant i <= ENTRIES && m.Keys == mem.Keys && |m[table]| == ENTRIES
      invariant forall a <- mem :: a != table ==> m[a] == mem[a]
      invariant forall j | 0 <= j < i :: m[table][j] == 0
    {
      m := Store(m, table, i, 0);
      i := i + 1;
    }
    assert m[table] == ZeroPage();
  }

  /** The contents of the upper tables: the entries for the kernel's mapping and the identity mapping. */
  ghost predicate UpperWritten(mem: Memory, t: Tables, root: nat) {
    && HasTables(mem, t, root)
    && mem[root] == ZeroPage()[256 := TableDescriptor(t.table1)][0 := TableDescriptor(t.table1Id)]
    && mem[t.table1] == ZeroPage()[0 := TableDescriptor(t.table2)]
    && mem[t.table1Id] == ZeroPage()[0 := TableDescriptor(t.table2Id)]
  }

  /** The first n blocks are in both lower tables. */
  ghost predicate LowerWritten(mem: Memory, t: Tables, root: nat, n: nat)
    requires HasTables(mem, t, root) && n <= ENTRIES
  {
    forall j | 0 <= j < n ::
      mem[t.table2][j] == LeafDescriptor(j * BLOCK_BYTES, 2, false)
        && mem[t.table2Id][j] == LeafDescriptor(j * BLOCK_BYTES, 2, false)
  }

  lemma UpperIndices()
    ensures AddressIndex(VA_OFFSET, 0) == 256 && AddressIndex(0, 0) == 0 && AddressIndex(VA_OFFSET, 1) == 0
      && AddressIndex(0, 1) == 0
  {
  }

  lemma LowerIndices(i: nat)
    requires i < ENTRIES
    ensures AddressIndex(VA_OFFSET + i * BLOCK_BYTES, 2) == i && AddressIndex(i * BLOCK_BYTES, 2) == i
  {
    assert NodeAt(VA_OFFSET + i * BLOCK_BYTES, 2).index == 0x400_0000 + i;
    assert NodeAt(i * BLOCK_BYTES, 2).index == i;
  }

  method WriteUpper(mem: Memory, t: Tables, root: nat) returns (m: Memory)
    requires Usable(t, root) && HasTables(mem, t, root)
    ensures UpperWritten(m, t, root)
  {
    UpperIndices();
    m := ZeroPageTable(mem, root);
    m := ZeroPageTable(m, t.table1);
    m := ZeroPageTable(m, t.table1Id);
    m := Store(m, root, AddressIndex(VA_OFFSET, 0), TableDescriptor(t.table1));
    m := Store(m, root, AddressIndex(0, 0), TableDescriptor(t.table1Id));
    m := Store(m, t.table1, AddressIndex(VA_OFFSET, 1), TableDescriptor(t.table2));
    m := Store(m, t.table1Id, AddressIndex(0, 1), TableDescriptor(t.table2Id));
  }

  lemma BlockWritten(mem: Memory, t: Tables, root: nat, i: nat)
    requires Usable(t, root) && UpperWritten(mem, t, root) && i < ENTRIES && LowerWritten(mem, t, root, i)
    ensures var d := LeafDescriptor(i * BLOCK_BYTES, 2, false);
      var m := Store(Store(mem, t.table2, i, d), t.table2Id, i, d);
      UpperWritten(m, t, root) && LowerWritten(m, t, root, i + 1)
  {
    hide ZeroPage, LeafDescriptor, TableDescriptor, PageAddress;
    var d := LeafDescriptor(i * BLOCK_BYTES, 2, false);
    var m := Store(Store(mem, t.table2, i, d), t.table2Id, i, d);
    assert m.Keys == mem.Keys;
    assert m[root] == mem[root] && m[t.table1] == mem[t.table1] && m[t.table1Id] == mem[t.table1Id];
  }

  /** page_table_initialize: whatever the two lower tables held, the memory then holds exactly the boot tree. */
  method PageTableInitialize(mem: Memory, t: Tables, root: nat) returns (m: Memory)
    requires Usable(t, root) && HasTables(mem, t, root)
    ensures Tied(m, root, BootTree(t))
    ensures HasTables(m, t, root)
    ensures forall j | 0 <= j < 512 :: m[t.table2][j] == m[t.table2Id][j] == j * 0x20_0000 + 0x401
    ensures forall j | 0 <= j < 512 ::
      m[root][j] == if j == 0 then t.table1Id + 3 else if j == 256 then t.table1 + 3 else 0
    ensures forall j | 0 <= j < 512 :: m[t.table1][j] == if j == 0 then t.table2 + 3 else 0
    ensures forall j | 0 <= j < 512 :: m[t.table1Id][j] == if j == 0 then t.table2Id + 3 else 0
  {
    hide UpperWritten, LowerWritten, Tied, BootTree, LeafDescriptor, Usable;
    m := WriteUpper(mem, t, root);
    var i := 0;
    UpperHasTables(m, t, root);
    NothingLower(m, t, root);
    while i < ENTRIES
      invariant i <= ENTRIES && UpperWritten(m, t, root) && HasTables(m, t, root) && LowerWritten(m, t, root, i)
    {
      var physAddress := i * PAGE_SIZE * ENTRIES;
      assert physAddress == i * BLOCK_BYTES;
      LowerIndices(i);
      BlockWritten(m, t, root, i);
      LowerTables(t, root);
      m := Store(m, t.table2, AddressIndex(VA_OFFSET + physAddress, 2), LeafDescriptor(physAddress, 2, false));
      m := Store(m, t.table2Id, AddressIndex(physAddress, 2), LeafDescriptor(physAddress, 2, false));
      UpperHasTables(m, t, root);
      i := i + 1;
    }
    BootIsTied(m, t, root);
    BootWords(m, t, root);
  }

  lemma BootWords(mem: Memory, t: Tables, root: nat)
    requires UpperWritten(mem, t, root) && LowerWritten(mem, t, root, ENTRIES)
    ensures forall j | 0 <= j < 512 :: mem[t.table2][j] == mem[t.table2Id][j] == j * 0x20_0000 + 0x401
    ensures forall j | 0 <= j < 512 ::
      mem[root][j] == if j == 0 then t.table1Id + 3 else if j == 256 then t.table1 + 3 else 0
    ensures forall j | 0 <= j < 512 :: mem[t.table1][j] == if j == 0 then t.table2 + 3 else 0
    ensures forall j | 0 <= j < 512 :: mem[t.table1Id][j] == if j == 0 then t.table2Id + 3 else 0
  {
  }

  lemma LowerTables(t: Tables, root: nat)
    requires Usable(t, root)
    ensures t.table2 in Pages(t, root) && t.table2Id in Pages(t, root) && t.table2 != t.table2Id
  {
  }

  lemma UpperHasTables(mem: Memory, t: Tables, root: nat)
    requires UpperWritten(mem, t, root)
    ensures HasTables(mem, t, root)
  {
  }

  lemma NothingLower(mem: Memory, t: Tables, root: nat)
    requires HasTables(mem, t, root)
    ensures LowerWritten(mem, t, root, 0)
  {
  }

  lemma BootIsTied(mem: Memory, t: Tables, root: nat)
    requires Usable(t, root) && UpperWritten(mem, t, root) && LowerWritten(mem, t, root, ENTRIES)
    ensures Tied(mem, root, BootTree(t))
  {
    hide BootTree, TableHolds, UpperWritten, LowerWritten, Descriptor;
    var v := BootTree(t);
    UpperHasTables(mem, t, root);
    RootHolds(mem, t, root);
    forall n | n in v && v[n].Table?
      ensures TableHolds(mem, v[n].addr, v, n.level + 1, n.index)
    {
      BootTableIs(t, n);
      BootTableHolds(mem, t, root, n);
    }
    forall a | a in mem
      ensures IsTableAt(v, root, a)
    {
      BootPageIsTable(t, root, a);
    }
    TiedBack(mem, root, v);
  }

  lemma RootHolds(mem: Memory, t: Tables, root: nat)
    requires Usable(t, root) && UpperWritten(mem, t, root)
    ensures TableHolds(mem, root, BootTree(t), 0, 0)
  {
    hide BootTree;
    forall i | 0 <= i < ENTRIES
      ensures mem[root][i] == Descriptor(BootTree(t), Node(0, i))
    {
      BootNodesAre(t, Node(0, i));
    }
  }

  lemma BootTableHolds(mem: Memory, t: Tables, root: nat, n: Node)
    requires Usable(t, root) && UpperWritten(mem, t, root) && LowerWritten(mem, t, root, ENTRIES) && IsBootTable(n)
    ensures TableHolds(mem, BootEntry(t, n).addr, BootTree(t), n.level + 1, n.index)
  {
    hide BootTree;
    var addr := BootEntry(t, n).addr;
    forall i | 0 <= i < ENTRIES
      ensures mem[addr][i] == Descriptor(BootTree(t), Node(n.level + 1, n.index * 512 + i))
    {
      var c := Node(n.level + 1, n.index * 512 + i);
      BootNodesAre(t, c);
      if n.level == 1 {
        assert c.index % 512 == i;
      }
    }
  }

  lemma BootPageIsTable(t: Tables, root: nat, a: nat)
    requires a in Pages(t, root)
    ensures IsTableAt(BootTree(t), root, a)
  {
    hide BootTree;
    BootNodesAre(t, Node(0, 0));
    BootNodesAre(t, Node(0, 256));
    BootNodesAre(t, Node(1, 0));
    BootNodesAre(t, Node(1, 0x2_0000));
  }

  lemma BootIsGood(t: Tables, root: nat)
    requires Usable(t, root)
    ensures GoodAddresses(BootTree(t))
  {
    hide BootTree;
    forall n | n in BootTree(t)
      ensures match BootTree(t)[n] case Leaf(pa, _) => PageAddress(pa) case Table(addr) => PageAddress(addr) && addr > 0
    {
      BootNodesAre(t, n);
    }
  }

  // ---------------------------------------------------------------- the start state

  /** The identity mapping has its own leaves. */
  lemma IdentityIsWhole(t: Tables)
    ensures MappedWhole(BootTree(t), 0, RAM_BYTES)
  {
    hide BootTree, IsLeaf;
    forall a: nat | a < RAM_BYTES
      ensures Mapped(BootTree(t), a)
    {
      BootNodesAre(t, NodeAt(a, 2));
      CoversIsNodeAt(NodeAt(a, 2), a);
    }
    forall n, a: nat | IsLeaf(BootTree(t), n) && Covers1(n, a) && a < RAM_BYTES
      ensures Inside(n, 0, RAM_BYTES)
    {
      BootNodesAre(t, n);
    }
  }

  /** Without the identity mapping, the kernel's memory is still mapped and nothing else is. */
  lemma KernelMapIsLeft(t: Tables, w: View, slots: set<nat>)
    requires Removed(BootTree(t), w, 0, RAM_BYTES) && forall i <- slots :: i < VMALLOC_MAX_MAPPINGS
    ensures DirectMap(w) && FreeSlotsUnmapped(slots, w)
    ensures forall a: nat | a < VA_OFFSET || VA_OFFSET + RAM_BYTES <= a :: !Mapped(w, a)
  {
    hide BootTree, Removed, MappedWhole, Mapped, Translate;
    IdentityIsWhole(t);
    forall a: nat | VA_OFFSET <= a < MEMORY_END
      ensures Translate(w, a) == a - VA_OFFSET
    {
      RemovedElsewhere(BootTree(t), w, 0, RAM_BYTES, a);
      BootTranslates(t, a - VA_OFFSET);
    }
    forall a: nat | a < VA_OFFSET || VA_OFFSET + RAM_BYTES <= a
      ensures !Mapped(w, a)
    {
      RemovedElsewhere(BootTree(t), w, 0, RAM_BYTES, a);
      if a >= RAM_BYTES {
        BootMapsNothingElse(t, a);
      }
    }
    forall i | i in slots
      ensures Unmapped(w, SlotAddress(i), SlotAddress(i) + VMALLOC_MAX_MAPPING_SIZE)
    {
      SlotWindow(i, i);
    }
  }

  /** Number of top-order blocks of the heap. */
  function HeapBlocks(staticEnd: nat): int {
    MEMORY_END / TOP_BYTES - (staticEnd + TOP_BYTES - 1) / TOP_BYTES
  }

  /** A heap whose only live block is the pool's supplies what its other top-order blocks hold. */
  lemma StartSupplies(h: Heap, roots: set<Block>, first: Block, b: Block, n: nat, pageAlign: bool)
    requires WellFormed(h, roots) && first in roots && Live(h) == {b} && b.order == POOL_ORDER
    requires forall r <- roots :: r != first ==> h[r] == Free
    requires 2 <= |roots| <= 256 && Pieces(n) < |roots|
    ensures Supplies(h, n, pageAlign, 512)
  {
    StartTops(h, roots, first);
    StartBytes(h, roots, b);
    hide WellFormed, FreeTops, FreeBytes, OrderOf, Bytes, Fits;
    if n <= TOP_BYTES {
      TopsSupply(h, n, pageAlign);
    }
  }

  lemma StartStock(h: Heap, roots: set<Block>, first: Block, b: Block, structs: nat)
    requires WellFormed(h, roots) && first in roots && Live(h) == {b} && b.order == POOL_ORDER
    requires forall r <- roots :: r != first ==> h[r] == Free
    requires |roots| <= 256 && structs == 2038 - |roots|
    ensures Stock(h, structs, |roots| - 1, TOP_BYTES - 0x2_0000, 2012 - |roots|)
  {
    StartTops(h, roots, first);
    StartBytes(h, roots, b);
    MissingBound(h);
    hide FreeTops, FreeBytes, Missing, WellFormed;
  }

  lemma StartTops(h: Heap, roots: set<Block>, first: Block)
    requires WellFormed(h, roots) && first in roots && forall r <- roots :: r != first ==> h[r] == Free
    ensures |FreeTops(h)| >= |roots| - 1
  {
    var tops := roots - {first};
    assert |tops| == |roots| - 1;
    forall r | r in tops
      ensures r in FreeTops(h)
    {
    }
    Smaller(tops, FreeTops(h));
  }

  lemma StartBytes(h: Heap, roots: set<Block>, b: Block)
    requires WellFormed(h, roots) && Live(h) == {b} && b.order == POOL_ORDER
    ensures FreeBytes(h) == |roots| * TOP_BYTES - 0x2_0000
  {
    hide WellFormed;
    HeapRuns.BytesConserved(h, roots);
    HeapRuns.TotalWithout({b}, b);
    assert {b} - {b} == {};
    TopBytes();
    assert Bytes(4) == 0x2000 && Bytes(8) == 0x2_0000;
  }

  /** Start-up as far as memory goes: the tables, the heap, the kernel's address space, and the end of the identity
      mapping. Everything vmalloc relies on holds then, and the heap supplies every request with less pieces than it has
      top-order blocks, with structs to spare. */
  method StartUp(staticEnd: nat, tables: Tables, root: nat, managed: set<nat>, mem: Memory)
      returns (err: int, heap: Buddy?, space: AddressSpace?, freeMask: array2<bool>)
    requires VA_OFFSET < staticEnd && Usable(tables, root) && HasTables(mem, tables, root)
    requires managed !! Pages(tables, root) && forall p <- managed :: PageAddress(p) && p > 0
    ensures err == 0 <==> HeapBlocks(staticEnd) > 0
    ensures err == 0 ==> heap != null && space != null && Ready(heap, space, freeMask)
    ensures err == 0 ==> forall i: nat :: i < VMALLOC_MAX_MAPPINGS ==> i in FreeSlots(freeMask)
    ensures err == 0 ==> |space.list| == 1 && space.list[0].active
    ensures err == 0 ==> space.Regions() == [Region(VA_OFFSET, 0, RAM_BYTES)] && space.pageTable.FreePages() == managed
    ensures err == 0 ==>
      forall a: nat | a < VA_OFFSET || VA_OFFSET + RAM_BYTES <= a :: !Mapped(space.pageTable.view, a)
    ensures err == 0 ==> heap.poolReserved && Canonical(heap.heap, heap.roots) && |heap.roots| == HeapBlocks(staticEnd)
    ensures err == 0 ==> heap.pool.freeObjects == 2038 - HeapBlocks(staticEnd)
    ensures err == 0 ==> var left := HeapBlocks(staticEnd);
      Stock(heap.heap, heap.pool.freeObjects, left - 1, TOP_BYTES - 0x2_0000, 2012 - left)
    ensures err == 0 ==> forall n, pageAlign :: HeapBlocks(staticEnd) >= 2 && Pieces(n) < HeapBlocks(staticEnd) ==>
      Supplies(heap.heap, n, pageAlign, 512)
  {
    hide Usable, HasTables, Tied, BootTree, Closed, NoEmptyTable, GoodAddresses, Removed, MappedWhole, DirectMap,
      Unmapped, WellFormed, Buddy.Valid, PageTable.Sound, AddressSpace.Valid, FreeSlotsUnmapped, InMemory, Live,
      Canonical, Supplies, Mapped, RootsBetween, First, FreeSlots, Ready, Pieces, Stock;
    freeMask := new bool[VMALLOC_MAX_MAPPINGS / 64, 64]((i, j) => false);
    AllSlots(freeMask);
    heap, space := null, null;
    var m := PageTableInitialize(mem, tables, root);
    err, heap := InitBuddyAllocator(staticEnd);
    if err != 0 {
      return;
    }
    HeapAtStart(heap, staticEnd);
    BootIsTree(tables, root);
    BootIsGood(tables, root);
    BootPages(m, tables, root, managed);
    var table := new PageTable.Over(root, managed, m, BootTree(tables));
    space := new AddressSpace.Kernel(table);
    space.ListFacts(0);
    var idMapping := space.mappings;
    ghost var kernelMapping := space.list[1];
    IdentityIsWhole(tables);
    var failed := space.UnmapAndRemoveMemoryRegion(idMapping, 0);
    if failed != 0 {
      assert false;
    }
    assert space.list == [kernelMapping];
    KernelMapIsLeft(tables, table.view, FreeSlots(freeMask));
    InitialHeapInMemory(staticEnd);
    IsReady(heap, space, freeMask);
  }

  lemma IsReady(heap: Buddy, space: AddressSpace, freeMask: array2<bool>)
    requires heap.Valid() && space.Valid() && space.pageTable.Valid()
    requires InMemory(heap.roots) && DirectMap(space.pageTable.view)
    requires freeMask.Length0 == VMALLOC_MAX_MAPPINGS / 64 && freeMask.Length1 == 64
    requires FreeSlotsUnmapped(FreeSlots(freeMask), space.pageTable.view)
    ensures Ready(heap, space, freeMask)
  {
  }

  /** The tables are no pages of the allocator. */
  lemma BootPages(mem: Memory, t: Tables, root: nat, managed: set<nat>)
    requires Tied(mem, root, BootTree(t)) && Usable(t, root) && managed !! Pages(t, root)
    ensures managed !! mem.Keys && root !in managed
  {
    hide BootTree;
    forall a | a in mem
      ensures a in Pages(t, root)
    {
      assert IsTableAt(BootTree(t), root, a);
      if a != root {
        var n :| n in BootTree(t) && BootTree(t)[n].Table? && BootTree(t)[n].addr == a;
        BootTableIs(t, n);
      }
    }
  }

  /** What the new heap can supply. */
  lemma HeapAtStart(heap: Buddy, staticEnd: nat)
    requires heap.Valid() && HeapBlocks(staticEnd) > 0 && VA_OFFSET < staticEnd
    requires var lo, hi := (staticEnd + TOP_BYTES - 1) / TOP_BYTES, MEMORY_END / TOP_BYTES;
      && heap.roots == RootsBetween(lo, hi) && Live(heap.heap) == {First(Block(lo, MAX_ORDER), POOL_ORDER)}
      && forall r <- heap.roots :: r.index != lo ==> r in heap.heap && heap.heap[r] == Free
    requires heap.pool.freeObjects == 2038 - |heap.roots|
    ensures |heap.roots| == HeapBlocks(staticEnd)
    ensures Stock(heap.heap, heap.pool.freeObjects, |heap.roots| - 1, TOP_BYTES - 0x2_0000, 2012 - |heap.roots|)
    ensures forall n, pageAlign :: HeapBlocks(staticEnd) >= 2 && Pieces(n) < HeapBlocks(staticEnd) ==>
      Supplies(heap.heap, n, pageAlign, 512)
  {
    hide Buddy.Valid, WellFormed, Live, Supplies, First, Pieces;
    var lo, hi := (staticEnd + TOP_BYTES - 1) / TOP_BYTES, MEMORY_END / TOP_BYTES;
    RootCount(lo, hi);
    HeapShape(heap);
    var first := Block(lo, MAX_ORDER);
    assert first in heap.roots;
    StartStock(heap.heap, heap.roots, first, First(first, POOL_ORDER), heap.pool.freeObjects);
    forall n, pageAlign | HeapBlocks(staticEnd) >= 2 && Pieces(n) < HeapBlocks(staticEnd)
      ensures Supplies(heap.heap, n, pageAlign, 512)
    {
      StartSupplies(heap.heap, heap.roots, first, First(first, POOL_ORDER), n, pageAlign);
    }
  }

  lemma AllSlots(freeMask: array2<bool>)
    requires freeMask.Length0 == VMALLOC_MAX_MAPPINGS / 64 && freeMask.Length1 == 64
    requires forall i, j | 0 <= i < 16 && 0 <= j < 64 :: !freeMask[i, j]
    ensures forall i: nat :: i in FreeSlots(freeMask) <==> i < VMALLOC_MAX_MAPPINGS
  {
  }
}
