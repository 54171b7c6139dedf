/** The four-level translation tables in memory. */
module PageTables {
  import opened Division
  import opened Radix
  import opened Layout

  const ENTRIES: nat := 512
  const PHYS_LIMIT: nat := 0x1_0000_0000_0000

  // ---------------------------------------------------------------- descriptors

  /** next_table | 0b11, for a page-aligned address */
  function TableDescriptor(addr: nat): nat {
    addr + 3
  }

  /** pa | valid | (page, at level 3) | access flag | (user access), for a page-aligned address */
  function LeafDescriptor(pa: nat, level: nat, user: bool := true): nat {
    pa + 1 + (if level == 3 then 2 else 0) + 0x400 + (if user then 0x40 else 0)
  }

  predicate IsTableEntry(entry: nat, level: nat) {
    level != 3 && entry % 4 == 3
  }

  predicate IsLeafEntry(entry: nat, level: nat) {
    if level == 3 then entry % 4 == 3 else entry % 4 == 1
  }

  /** desc & 0x0000FFFFFFFFF000 */
  function GetAddressFromDescriptor(desc: nat): nat {
    desc % PHYS_LIMIT / PAGE_SIZE * PAGE_SIZE
  }

  /** desc & ~0b11 */
  function DropLowBits(desc: nat): nat {
    desc / 4 * 4
  }

  function AddressIndex(addr: nat, level: nat): nat
    requires level < LEVELS
  {
    NodeAt(addr, level).index % ENTRIES
  }

  ghost function Descriptor(v: View, n: Node): nat {
    if n !in v then 0 else
    match v[n]
    case Leaf(pa, user) => LeafDescriptor(pa, n.level, user)
    case Table(addr) => TableDescriptor(addr)
  }

  ghost predicate PageAddress(a: nat) {
    a % PAGE_SIZE == 0 && a < PHYS_LIMIT
  }

  /** Entries point at whole pages below the physical limit, and no table lies at address 0. */
  ghost predicate GoodAddresses(v: View) {
    forall n <- v :: match v[n] case Leaf(pa, _) => PageAddress(pa) case Table(addr) => PageAddress(addr) && addr > 0
  }

  lemma LeafDecodes(pa: nat, level: nat, user: bool)
    requires PageAddress(pa) && level < LEVELS
    ensures var d := LeafDescriptor(pa, level, user);
      d != 0 && IsLeafEntry(d, level) && !IsTableEntry(d, level) && GetAddressFromDescriptor(d) == pa
        && DropLowBits(d) % PAGE_SIZE != 0
  {
  }

  lemma TableDecodes(addr: nat, level: nat)
    requires PageAddress(addr) && level < 3
    ensures var d := TableDescriptor(addr);
      d != 0 && !IsLeafEntry(d, level) && IsTableEntry(d, level) && GetAddressFromDescriptor(d) == addr
        && DropLowBits(d) == addr
  {
  }

  /** What the walkers read out of the descriptor of an entry. */
  lemma DescriptorDecodes(v: View, n: Node)
    requires GoodAddresses(v) && n.level < LEVELS && (n in v && v[n].Table? ==> n.level < 3)
    ensures var d := Descriptor(v, n);
      && (d == 0 <==> n !in v)
      && (IsLeafEntry(d, n.level) <==> n in v && v[n].Leaf?)
      && (IsTableEntry(d, n.level) <==> n in v && v[n].Table?)
      && (n in v && v[n].Leaf? ==> GetAddressFromDescriptor(d) == v[n].pa && DropLowBits(d) % PAGE_SIZE != 0)
      && (n in v && v[n].Table? ==> GetAddressFromDescriptor(d) == v[n].addr && DropLowBits(d) == v[n].addr)
  {
    if n in v {
      hide LeafDescriptor, TableDescriptor, GetAddressFromDescriptor, DropLowBits, IsLeafEntry, IsTableEntry,
        PageAddress;
      match v[n]
      case Leaf(pa, user) => LeafDecodes(pa, n.level, user);
      case Table(addr) => TableDecodes(addr, n.level);
    }
  }

  // ---------------------------------------------------------------- tables in memory

  type Memory = map<nat, seq<nat>>

  /** table[i] = d, for the table at address t */
  function Store(mem: Memory, t: nat, i: nat, d: nat): Memory
    requires t in mem && i < |mem[t]|
  {
    var page: seq<nat> := mem[t][i := d];
    mem[t := page]
  }

  /** The page at addr is the table of the entries (level, p * 512 ..). */
  ghost predicate TableHolds(mem: Memory, addr: nat, v: View, level: nat, p: nat) {
    addr in mem && |mem[addr]| == ENTRIES && forall i | 0 <= i < ENTRIES ::
      mem[addr][i] == Descriptor(v, Node(level, p * 512 + i))
  }

  /** The table that has the entry n. */
  ghost function TableOf(v: View, root: nat, n: Node): nat {
    if n.level > 0 && Up(n) in v && v[Up(n)].Table? then v[Up(n)].addr else root
  }

  ghost predicate IsTableAt(v: View, root: nat, a: nat) {
    a == root || exists n <- v :: v[n].Table? && v[n].addr == a
  }

  /** The memory holds exactly the tables of v. */
  ghost predicate Tied(mem: Memory, root: nat, v: View) {
    && TableHolds(mem, root, v, 0, 0)
    && (forall n | n in v && v[n].Table? :: TableHolds(mem, v[n].addr, v, n.level + 1, n.index))
    && (forall a <- mem :: IsTableAt(v, root, a))
  }

  lemma EntryInTable(mem: Memory, root: nat, v: View, n: Node)
    requires Closed(v, root) && Tied(mem, root, v)
    requires n.level < LEVELS && (if n.level == 0 then n.index < 512 else Up(n) in v && v[Up(n)].Table?)
    ensures TableHolds(mem, TableOf(v, root, n), v, n.level, n.index / 512)
    ensures mem[TableOf(v, root, n)][n.index % 512] == Descriptor(v, n)
  {
  }

  /** One entry is rewritten in its table: every table still holds what it should. */
  lemma HoldsAfterWrite(mem: Memory, mem': Memory, v: View, v': View, n: Node, addr: nat, level: nat, p: nat)
    requires TableHolds(mem, addr, v, level, p)
    requires forall m: Node | m != n && m.level == level && m.index / 512 == p ::
      (m in v' <==> m in v) && (m in v ==> v'[m] == v[m])
    requires addr in mem'
    requires if level == n.level && p == n.index / 512 then mem'[addr] == mem[addr][n.index % 512 := Descriptor(v', n)]
      else mem'[addr] == mem[addr]
    ensures TableHolds(mem', addr, v', level, p)
  {
    forall i | 0 <= i < ENTRIES
      ensures mem'[addr][i] == Descriptor(v', Node(level, p * 512 + i))
    {
      var m := Node(level, p * 512 + i);
      assert mem[addr][i] == Descriptor(v, m);
      assert m.index / 512 == p && m.index % 512 == i;
    }
  }

  lemma TablePages(mem: Memory, root: nat, v: View)
    requires Tied(mem, root, v)
    ensures root in mem && |mem[root]| == ENTRIES
    ensures forall n <- v :: v[n].Table? ==> v[n].addr in mem && |mem[v[n].addr]| == ENTRIES
  {
  }

  ghost function ZeroPage(): seq<nat> {
    seq(ENTRIES, _ => 0)
  }

  lemma FreshHolds(mem: Memory, v: View, n: Node, addr: nat)
    requires addr in mem && mem[addr] == ZeroPage()
    requires forall c: Node :: c.level > 0 && Up(c) == n ==> c !in v
    ensures TableHolds(mem, addr, v, n.level + 1, n.index)
  {
    forall i | 0 <= i < ENTRIES
      ensures mem[addr][i] == Descriptor(v, Node(n.level + 1, n.index * 512 + i))
    {
      assert Up(Node(n.level + 1, n.index * 512 + i)) == n;
    }
  }

  lemma NoOrphans(v: View, root: nat, n: Node)
    requires Closed(v, root) && !(n in v && v[n].Table?)
    ensures forall c: Node :: c.level > 0 && Up(c) == n ==> c !in v
  {
  }

  lemma StillTableAt(v: View, v': View, root: nat, a: nat)
    requires IsTableAt(v, root, a)
    requires forall n <- v :: v[n].Table? && v[n].addr == a ==> n in v' && v'[n] == v[n]
    ensures IsTableAt(v', root, a)
  {
    if a != root {
      var m :| m in v && v[m].Table? && v[m].addr == a;
      assert m in v' && v'[m].Table?;
    }
  }

  lemma HasSlotOf(v: View, root: nat, n: Node)
    requires Closed(v, root) && n in v
    ensures HasSlot(v, n)
  {
  }

  ghost predicate HasSlot(v: View, n: Node) {
    n.level < LEVELS && (if n.level == 0 then n.index < 512 else Up(n) in v && v[Up(n)].Table?)
  }

  /** Entry n is rewritten in its table, other pages keep their contents, and pages come and go with the table at n. */
  lemma TiedAfterWrite(mem: Memory, mem': Memory, root: nat, v: View, v': View, n: Node)
    requires Closed(v, root) && Tied(mem, root, v) && HasSlot(v, n)
    requires forall m | m != n :: (m in v' <==> m in v) && (m in v ==> v'[m] == v[m])
    requires var t := TableOf(v, root, n);
      t in mem && t in mem' && |mem[t]| == ENTRIES && mem'[t] == mem[t][n.index % 512 := Descriptor(v', n)]
    requires forall a | a in mem && a != TableOf(v, root, n) && !(n in v && v[n].Table? && v[n].addr == a) ::
      a in mem' && mem'[a] == mem[a]
    requires n in v' && v'[n].Table? ==> TableHolds(mem', v'[n].addr, v', n.level + 1, n.index)
    requires forall a | a in mem' :: a in mem || (n in v' && v'[n].Table? && v'[n].addr == a)
    requires n in v && v[n].Table? ==> v[n].addr !in mem'
    ensures Tied(mem', root, v')
  {
    hide TableHolds, Descriptor;
    TablePages(mem, root, v);
    HoldsAfterWrite(mem, mem', v, v', n, root, 0, 0);
    forall m | m in v' && v'[m].Table?
      ensures TableHolds(mem', v'[m].addr, v', m.level + 1, m.index)
    {
      if m != n {
        HoldsAfterWrite(mem, mem', v, v', n, v[m].addr, m.level + 1, m.index);
      }
    }
    forall a | a in mem'
      ensures IsTableAt(v', root, a)
    {
      if a in mem {
        StillTableAt(v, v', root, a);
      }
    }
  }

  /** Hanging a fresh zeroed page into an empty entry. */
  lemma TiedAfterTable(mem: Memory, root: nat, v: View, n: Node, addr: nat)
    requires Closed(v, root) && Tied(mem, root, v) && HasSlot(v, n) && n !in v && n.level < 3
    requires addr !in mem
    ensures var t := TableOf(v, root, n); t in mem && |mem[t]| == ENTRIES && t != addr
    ensures Tied(Store(mem[addr := ZeroPage()], TableOf(v, root, n), n.index % 512, TableDescriptor(addr)), root,
      v[n := Table(addr)])
    ensures Closed(v[n := Table(addr)], root)
  {
    hide TableHolds, Tied, ZeroPage;
    TablePages(mem, root, v);
    NoOrphans(v, root, n);
    var mem' := Store(mem[addr := ZeroPage()], TableOf(v, root, n), n.index % 512, TableDescriptor(addr));
    FreshHolds(mem', v[n := Table(addr)], n, addr);
    TiedAfterWrite(mem, mem', root, v, v[n := Table(addr)], n);
  }

  /** Zeroing the entry of a leaf. */
  lemma TiedAfterClear(mem: Memory, root: nat, v: View, n: Node)
    requires Closed(v, root) && Tied(mem, root, v) && IsLeaf(v, n)
    ensures TableOf(v, root, n) in mem && |mem[TableOf(v, root, n)]| == ENTRIES
    ensures Tied(Store(mem, TableOf(v, root, n), n.index % 512, 0), root, v - {n})
    ensures Closed(v - {n}, root)
  {
    hide TableHolds, Tied;
    TablePages(mem, root, v);
    assert n.level > 0 ==> Up(n) in v;
    TiedAfterWrite(mem, Store(mem, TableOf(v, root, n), n.index % 512, 0), root, v, v - {n}, n);
  }

  /** Zeroing the entry of an empty table and giving its page back. */
  lemma TiedAfterDrop(mem: Memory, root: nat, v: View, n: Node)
    requires Closed(v, root) && Tied(mem, root, v)
    requires n in v && v[n].Table? && !HasChild(v, n)
    ensures var t := TableOf(v, root, n); t in mem && |mem[t]| == ENTRIES && t != v[n].addr
    ensures Tied(Store(mem, TableOf(v, root, n), n.index % 512, 0) - {v[n].addr}, root, v - {n})
    ensures Closed(v - {n}, root)
  {
    hide TableHolds, Tied;
    TablePages(mem, root, v);
    assert n.level > 0 ==> Up(n) in v && Up(n) != n;
    TiedAfterWrite(mem, Store(mem, TableOf(v, root, n), n.index % 512, 0) - {v[n].addr}, root, v, v - {n}, n);
    forall c {:trigger Up(c)} | c in v - {n} && c.level > 0
      ensures Up(c) in v - {n} && v[Up(c)].Table?
    {
      assert Up(c) == n ==> HasChild(v, n);
    }
  }

  /** No table but x is empty. */
  ghost predicate NoEmptyTableBut(v: View, x: Node) {
    forall n <- v :: v[n].Table? && n != x ==> HasChild(v, n)
  }

  lemma ChildStays(v: View, v': View, n: Node)
    requires HasChild(v, n)
    requires forall c <- v :: c.level > 0 && Up(c) == n ==> c in v'
    ensures HasChild(v', n)
  {
    var c :| c in v && c.level > 0 && Up(c) == n;
    assert c in v';
  }

  /** The parent of the table at x, or something that is no entry at all. */
  ghost function OverOf(n: Node): Node {
    if n.level > 0 then Up(n) else Node(LEVELS, 0)
  }

  /** A new table fills the table it is in. */
  lemma FilledBy(v: View, n: Node, addr: nat)
    requires NoEmptyTableBut(v, OverOf(n)) && n !in v && forall m <- v :: m.level < LEVELS
    ensures NoEmptyTableBut(v[n := Table(addr)], n)
  {
    var v' := v[n := Table(addr)];
    forall m | m in v' && v'[m].Table? && m != n
      ensures HasChild(v', m)
    {
      if n.level > 0 && m == Up(n) {
        assert n in v';
      } else {
        ChildStays(v, v', m);
      }
    }
  }

  /** Removing an entry can only empty the table it was in. */
  lemma EmptiedBy(v: View, n: Node, x: Node)
    requires NoEmptyTableBut(v, x) && n in v && (v[n].Leaf? ==> x.level >= LEVELS) && (v[n].Table? ==> x == n)
    requires forall m <- v :: m.level < LEVELS
    ensures NoEmptyTableBut(v - {n}, OverOf(n))
  {
    forall m | m in v - {n} && v[m].Table? && m != OverOf(n)
      ensures HasChild(v - {n}, m)
    {
      ChildStays(v, v - {n}, m);
    }
  }

  // ---------------------------------------------------------------- what the operations do to a view

  ghost predicate Misaligned(a: nat, b: nat, c: nat) {
    a % PAGE_SIZE != 0 || b % PAGE_SIZE != 0 || c % PAGE_SIZE != 0
  }

  /** No address of [va, end) is mapped. */
  ghost predicate Unmapped(v: View, va: nat, end: nat) {
    forall a: nat | va <= a < end :: !Mapped(v, a)
  }

  /** No leaf is one of the largest blocks of the interval or lies inside one: page_table_map_address looks for a
      conflict only above the block it writes, and overwrites whatever is at or below it. */
  ghost predicate NoOverwrite(v: View, va: nat, end: nat) {
    forall m, n | IsLeaf(v, m) && Maximal(n, va, end) :: m != n && !Below(m, n)
  }

  /** The interval is mapped by leaves that lie in it. */
  ghost predicate MappedWhole(v: View, va: nat, end: nat) {
    && (forall a: nat | va <= a < end :: Mapped(v, a))
    && (forall n, a: nat | IsLeaf(v, n) && Covers1(n, a) && va <= a < end :: Inside(n, va, end))
  }

  /** w is v without the leaves of the interval. */
  ghost predicate Removed(v: View, w: View, va: nat, end: nat) {
    && (forall n <- w :: n in v && v[n] == w[n])
    && (forall n :: IsLeaf(w, n) <==> IsLeaf(v, n) && !Inside(n, va, end))
  }

  /** Addresses outside the interval translate as before, and in it none does. */
  lemma RemovedElsewhere(v: View, w: View, va: nat, end: nat, a: nat)
    requires Removed(v, w, va, end) && MappedWhole(v, va, end)
    ensures a < va || a >= end ==> Translate(w, a) == Translate(v, a) && (Mapped(w, a) <==> Mapped(v, a))
    ensures va <= a < end ==> !Mapped(w, a)
  {
    forall n | Covers1(n, a)
      ensures a < va || a >= end ==> (IsLeaf(w, n) <==> IsLeaf(v, n))
      ensures va <= a < end ==> !IsLeaf(w, n)
    {
      if va <= a < end && IsLeaf(v, n) {
        assert Inside(n, va, end);
      }
    }
    if a < va || a >= end {
      LeafLevelSame(v, w, a);
      LeafLevelMapped(v, a);
      LeafLevelMapped(w, a);
    }
  }

  ghost predicate Extends(v: View, w: View) {
    forall n <- v :: n in w && w[n] == v[n]
  }

  // ---------------------------------------------------------------- writing over an entry

  /** m is n or lies below it. */
  ghost predicate Under(m: Node, n: Node) {
    m == n || Below(m, n)
  }

  /** The tree with the entry n rewritten; what hung below it is no longer reached. */
  ghost function Overwrite(v: View, n: Node, e: Entry): View {
    (map m | m in v && !Under(m, n) :: v[m])[n := e]
  }

  /** The table pages that rewriting n cuts off. */
  ghost function CutOff(v: View, n: Node): set<nat> {
    set m | m in v && Under(m, n) && v[m].Table? :: v[m].addr
  }

  lemma UnderUp(c: Node, n: Node)
    requires c.level > 0
    ensures Below(c, n) <==> Under(Up(c), n)
  {
    if n.level < c.level {
      assert Above(c, n.level) == Above(Up(c), n.level);
    }
  }

  /** At an empty entry nothing is cut off. */
  lemma OverwriteEmpty(v: View, root: nat, n: Node, e: Entry)
    requires Closed(v, root) && n !in v
    ensures Overwrite(v, n, e) == v[n := e] && CutOff(v, n) == {}
  {
    forall m | m in v
      ensures !Under(m, n)
    {
      if Below(m, n) {
        ClosedUp(v, root, m, n.level);
      }
    }
  }

  lemma OverwriteClosed(v: View, root: nat, n: Node, pa: nat)
    requires Closed(v, root) && HasSlot(v, n)
    ensures Closed(Overwrite(v, n, Leaf(pa)), root)
  {
    var w := Overwrite(v, n, Leaf(pa));
    forall c {:trigger Up(c)} | c in w && c.level > 0
      ensures Up(c) in w && w[Up(c)].Table?
    {
      StaysAbove(v, root, n, pa, c);
    }
  }

  lemma StaysAbove(v: View, root: nat, n: Node, pa: nat, c: Node)
    requires Closed(v, root) && HasSlot(v, n) && c in Overwrite(v, n, Leaf(pa)) && c.level > 0
    ensures Up(c) in v && v[Up(c)].Table? && !Under(Up(c), n)
  {
    if c != n {
      assert c in v && Up(c) in v;
    }
    UnderUp(c, n);
  }

  lemma OverwriteFilled(v: View, root: nat, n: Node, pa: nat)
    requires Closed(v, root) && HasSlot(v, n) && NoEmptyTableBut(v, OverOf(n))
    ensures NoEmptyTable(Overwrite(v, n, Leaf(pa)))
  {
    var w := Overwrite(v, n, Leaf(pa));
    forall m | m in w && w[m].Table?
      ensures HasChild(w, m)
    {
      if n.level > 0 && m == Up(n) {
        assert n in w;
      } else {
        assert m in v && HasChild(v, m);
        var c :| c in v && c.level > 0 && Up(c) == m;
        if Below(c, n) {
          UnderUp(c, n);
        }
        assert c in w;
      }
    }
  }

  /** The other tables keep their entries. */
  lemma EntriesStay(v: View, root: nat, n: Node, pa: nat, m: Node, c: Node)
    requires Closed(v, root) && m in v && v[m].Table? && !Under(m, n) && c.level == m.level + 1
      && c.index / 512 == m.index && c != n
    ensures var w := Overwrite(v, n, Leaf(pa)); (c in w <==> c in v) && (c in v ==> w[c] == v[c])
  {
    assert Up(c) == m;
    if Below(c, n) {
      UnderUp(c, n);
    }
  }

  lemma RootEntriesStay(v: View, n: Node, pa: nat, c: Node)
    requires c.level == 0 && c != n
    ensures var w := Overwrite(v, n, Leaf(pa)); (c in w <==> c in v) && (c in v ==> w[c] == v[c])
  {
  }

  lemma NotCutOff(v: View, root: nat, n: Node, m: Node)
    requires Closed(v, root) && m in v && v[m].Table? && !Under(m, n)
    ensures v[m].addr !in CutOff(v, n)
  {
  }

  lemma OverwriteGood(v: View, n: Node, pa: nat)
    requires GoodAddresses(v) && PageAddress(pa)
    ensures GoodAddresses(Overwrite(v, n, Leaf(pa)))
  {
  }

  lemma CutOffIsKept(mem: Memory, root: nat, v: View, n: Node)
    requires Tied(mem, root, v)
    ensures CutOff(v, n) <= mem.Keys
  {
    TablePages(mem, root, v);
  }

  /** Writing a leaf over an entry: the pages that are cut off are no longer tables of the tree. */
  lemma TiedAfterOverwrite(mem: Memory, root: nat, v: View, n: Node, pa: nat)
    requires Closed(v, root) && Tied(mem, root, v) && HasSlot(v, n)
    ensures var t := TableOf(v, root, n); t in mem && |mem[t]| == ENTRIES && t !in CutOff(v, n)
    ensures var t := TableOf(v, root, n);
      Tied(Store(mem, t, n.index % 512, LeafDescriptor(pa, n.level)) - CutOff(v, n), root, Overwrite(v, n, Leaf(pa)))
  {
    hide TableHolds, Overwrite, CutOff, Tied;
    TablePages(mem, root, v);
    var t, w := TableOf(v, root, n), Overwrite(v, n, Leaf(pa));
    var mem' := Store(mem, t, n.index % 512, LeafDescriptor(pa, n.level)) - CutOff(v, n);
    TableIsKept(v, root, n);
    OverwrittenEntry(v, n, pa);
    RootAfterOverwrite(mem, mem', root, v, n, pa);
    forall m | m in w && w[m].Table?
      ensures TableHolds(mem', w[m].addr, w, m.level + 1, m.index)
    {
      TableAfterOverwrite(mem, mem', root, v, n, pa, m);
    }
    forall a | a in mem'
      ensures IsTableAt(w, root, a)
    {
      PageAfterOverwrite(mem, root, v, n, pa, a);
    }
    TiedBack(mem', root, w);
  }

  lemma TiedBack(mem: Memory, root: nat, v: View)
    requires TableHolds(mem, root, v, 0, 0)
    requires forall n | n in v && v[n].Table? :: TableHolds(mem, v[n].addr, v, n.level + 1, n.index)
    requires forall a <- mem :: IsTableAt(v, root, a)
    ensures Tied(mem, root, v)
  {
  }

  lemma TableIsKept(v: View, root: nat, n: Node)
    requires Closed(v, root) && HasSlot(v, n)
    ensures TableOf(v, root, n) !in CutOff(v, n) && root !in CutOff(v, n)
  {
    if n.level > 0 {
      NotCutOff(v, root, n, Up(n));
    }
  }

  lemma OverwrittenEntry(v: View, n: Node, pa: nat)
    ensures Descriptor(Overwrite(v, n, Leaf(pa)), n) == LeafDescriptor(pa, n.level)
    ensures forall m | m in Overwrite(v, n, Leaf(pa)) && m != n ::
      m in v && Overwrite(v, n, Leaf(pa))[m] == v[m] && !Under(m, n)
  {
  }

  lemma RootAfterOverwrite(mem: Memory, mem': Memory, root: nat, v: View, n: Node, pa: nat)
    requires Closed(v, root) && Tied(mem, root, v) && HasSlot(v, n)
    requires var t := TableOf(v, root, n);
      t in mem && |mem[t]| == ENTRIES
        && mem' == Store(mem, t, n.index % 512, LeafDescriptor(pa, n.level)) - CutOff(v, n)
    ensures TableHolds(mem', root, Overwrite(v, n, Leaf(pa)), 0, 0)
  {
    hide Overwrite, CutOff, Descriptor;
    TableIsKept(v, root, n);
    OverwrittenEntry(v, n, pa);
    forall c: Node | c != n && c.level == 0 && c.index / 512 == 0
      ensures var w := Overwrite(v, n, Leaf(pa)); (c in w <==> c in v) && (c in v ==> w[c] == v[c])
    {
      RootEntriesStay(v, n, pa, c);
    }
    HoldsAfterWrite(mem, mem', v, Overwrite(v, n, Leaf(pa)), n, root, 0, 0);
  }

  lemma TableAfterOverwrite(mem: Memory, mem': Memory, root: nat, v: View, n: Node, pa: nat, m: Node)
    requires Closed(v, root) && Tied(mem, root, v) && HasSlot(v, n)
    requires var t := TableOf(v, root, n);
      t in mem && |mem[t]| == ENTRIES
        && mem' == Store(mem, t, n.index % 512, LeafDescriptor(pa, n.level)) - CutOff(v, n)
    requires var w := Overwrite(v, n, Leaf(pa)); m in w && w[m].Table?
    ensures var w := Overwrite(v, n, Leaf(pa)); TableHolds(mem', w[m].addr, w, m.level + 1, m.index)
  {
    hide Overwrite, CutOff, Descriptor, TableHolds, Under;
    OverwriteOther(v, n, pa, m);
    NotCutOff(v, root, n, m);
    OverwrittenEntry(v, n, pa);
    TablePages(mem, root, v);
    TableBefore(mem, root, v, m);
    TablesApart(v, root, n, m);
    forall c: Node | c != n && c.level == m.level + 1 && c.index / 512 == m.index
      ensures var w := Overwrite(v, n, Leaf(pa)); (c in w <==> c in v) && (c in v ==> w[c] == v[c])
    {
      EntriesStay(v, root, n, pa, m, c);
    }
    hide Tied, Closed, TableOf;
    HoldsAfterWrite(mem, mem', v, Overwrite(v, n, Leaf(pa)), n, v[m].addr, m.level + 1, m.index);
  }

  lemma TableBefore(mem: Memory, root: nat, v: View, m: Node)
    requires Tied(mem, root, v) && m in v && v[m].Table?
    ensures TableHolds(mem, v[m].addr, v, m.level + 1, m.index)
  {
  }

  /** The table of n's entry is the table at m exactly when m is the entry above n. */
  lemma TablesApart(v: View, root: nat, n: Node, m: Node)
    requires Closed(v, root) && HasSlot(v, n) && m in v && v[m].Table?
    ensures TableOf(v, root, n) == v[m].addr <==> n.level == m.level + 1 && n.index / 512 == m.index
  {
  }

  lemma OverwriteOther(v: View, n: Node, pa: nat, m: Node)
    requires var w := Overwrite(v, n, Leaf(pa)); m in w && w[m].Table?
    ensures m in v && v[m] == Overwrite(v, n, Leaf(pa))[m] && !Under(m, n)
  {
  }

  lemma PageAfterOverwrite(mem: Memory, root: nat, v: View, n: Node, pa: nat, a: nat)
    requires Tied(mem, root, v) && a in mem && a !in CutOff(v, n)
    ensures IsTableAt(Overwrite(v, n, Leaf(pa)), root, a)
  {
    assert IsTableAt(v, root, a);
    if a != root {
      var m :| m in v && v[m].Table? && v[m].addr == a;
      assert m in Overwrite(v, n, Leaf(pa));
    }
  }

  lemma BelowCovered(m: Node, n: Node)
    requires m.level < LEVELS && (m == n || Below(m, n))
    ensures Covers(n, Base(m)) && Covers(m, Base(m))
  {
    AboveContains(m, n.level);
  }

  /** An interval without mapped addresses has no leaf that could be overwritten, nor one above it. */
  lemma UnmappedIsSafe(v: View, va: nat, end: nat)
    requires Unmapped(v, va, end)
    ensures NoOverwrite(v, va, end) && !Conflict(v, va, end)
  {
    forall n
      ensures !ConflictAt(v, va, end, n)
    {
      UnmappedAbove(v, va, end, n);
    }
    forall m, n | IsLeaf(v, m) && Maximal(n, va, end)
      ensures m != n && !Below(m, n)
    {
      if m == n || Below(m, n) {
        BelowCovered(m, n);
        assert Mapped(v, Base(m));
      }
    }
  }

  /** After a map of an unmapped interval, the interval is mapped by leaves that lie in it. */
  lemma OverlaidIsWhole(v: View, w: View, root: nat, pa: nat, va: nat, end: nat)
    requires Overlaid(v, w, pa, va, end) && Unmapped(v, va, end) && Closed(w, root)
    requires va % PAGE_SIZE == 0 && end % PAGE_SIZE == 0
    ensures MappedWhole(w, va, end)
  {
    forall a: nat | va <= a < end
      ensures Mapped(w, a)
    {
      var n := MaximalCovers(va, end, a);
      assert IsLeaf(w, n);
    }
    forall n, a: nat | IsLeaf(w, n) && Covers1(n, a) && va <= a < end
      ensures Inside(n, va, end)
    {
      if IsLeaf(v, n) {
        assert Mapped(v, a);
        assert false;
      }
    }
  }

  lemma LeafIsOutside(v: View, n: Node, va: nat, end: nat)
    requires Unmapped(v, va, end)
    ensures !(IsLeaf(v, n) && Inside(n, va, end))
  {
    if IsLeaf(v, n) {
      assert Covers(n, Base(n));
      assert Mapped(v, Base(n));
    }
  }

  /** Mapping an unmapped interval and removing its leaves gives the tree that was there. */
  lemma UnmapUndoesMap(v: View, w: View, u: View, root: nat, pa: nat, va: nat, end: nat)
    requires Closed(v, root) && NoEmptyTable(v) && Closed(u, root) && NoEmptyTable(u)
    requires Overlaid(v, w, pa, va, end) && Extends(v, w) && Unmapped(v, va, end)
    requires Removed(w, u, va, end) && va < end
    ensures u == v
  {
    forall n
      ensures IsLeaf(u, n) <==> IsLeaf(v, n)
    {
      LeafIsOutside(v, n, va, end);
    }
    SameLeavesSameTables(v, u, w, root);
  }

  /** The memory is a function of the tree. */
  lemma TiedUnique(mem: Memory, mem': Memory, root: nat, v: View)
    requires Tied(mem, root, v) && Tied(mem', root, v)
    ensures mem == mem'
  {
    forall a | a in mem || a in mem'
      ensures a in mem && a in mem' && mem[a] == mem'[a]
    {
      assert IsTableAt(v, root, a);
      if a != root {
        var n :| n in v && v[n].Table? && v[n].addr == a;
        assert TableHolds(mem, a, v, n.level + 1, n.index) && TableHolds(mem', a, v, n.level + 1, n.index);
      }
    }
  }

  /** An entry that meets the block t lies above t, at t, or below it. */
  lemma LeafAround(m: Node, t: Node, a: nat, cur: nat)
    requires m.level < LEVELS && t.level < LEVELS && Covers(m, a) && Covers(t, a) && Covers(t, cur)
    ensures m == t || Below(m, t) || (m.level < t.level && m == NodeAt(cur, m.level))
  {
    CoversIsNodeAt(m, a);
    CoversIsNodeAt(t, a);
    CoversIsNodeAt(t, cur);
    if m.level < t.level {
      AboveNodeAt(a, t.level, m.level);
      AboveNodeAt(cur, t.level, m.level);
    } else {
      AboveNodeAt(a, m.level, t.level);
    }
  }

  /** Below an empty entry there is no leaf. */
  lemma NothingBelow(v: View, root: nat, a: nat, level: nat)
    requires Closed(v, root) && level < LEVELS && NodeAt(a, level) !in v
    requires forall l: nat | l < level :: !IsLeaf(v, NodeAt(a, l))
    ensures LeafLevel(v, a) == LEVELS
  {
    var l := LeafLevel(v, a);
    if l < LEVELS {
      AboveNodeAt(a, l, level);
      ClosedUp(v, root, NodeAt(a, l), level);
    }
  }

  /** With no leaf at or below it, an entry is empty. */
  lemma TargetIsEmpty(v: View, w: View, root: nat, cur: nat, level: nat, table: nat)
    requires level < LEVELS && Closed(w, root) && OnPath(w, root, cur, level, table)
    requires SameLeaves(v, w) && NoLeafUnder(v, NodeAt(cur, level))
    ensures NodeAt(cur, level) !in w
  {
    var t := NodeAt(cur, level);
    assert NoLeafUnder(w, t);
    TargetEmpty(w, root, t);
  }

  lemma TargetEmpty(v: View, root: nat, t: Node)
    requires Closed(v, root) && NoEmptyTableBut(v, OverOf(t)) && NoLeafUnder(v, t)
    ensures t !in v
  {
    if t in v {
      assert v[t].Leaf? ==> IsLeaf(v, t);
      var m := TableHasLeaf(v, root, t);
    }
  }

  /** What page_table_map_address notices: a leaf strictly above one of the blocks it writes. */
  ghost predicate Conflict(v: View, va: nat, end: nat) {
    exists n :: ConflictAt(v, va, end, n)
  }

  /** n is a largest block of the interval below a leaf. */
  ghost predicate ConflictAt(v: View, va: nat, end: nat, n: Node) {
    Maximal(n, va, end) && exists m :: IsLeaf(v, m) && Below(n, m)
  }

  lemma UnmappedAbove(v: View, va: nat, end: nat, n: Node)
    requires Unmapped(v, va, end)
    ensures !ConflictAt(v, va, end, n)
  {
    if ConflictAt(v, va, end, n) {
      var m :| IsLeaf(v, m) && Below(n, m);
      BelowCovered(n, m);
      MappedIn(v, va, end, m, Base(n));
    }
  }

  lemma MappedIn(v: View, va: nat, end: nat, m: Node, a: nat)
    requires IsLeaf(v, m) && Covers(m, a) && va <= a < end
    ensures !Unmapped(v, va, end)
  {
    assert Mapped(v, a);
  }

  /** An interval is unmapped exactly when nothing is noticed and nothing would be overwritten. */
  lemma ConflictOrOverwrite(v: View, va: nat, end: nat)
    requires va % PAGE_SIZE == 0 && end % PAGE_SIZE == 0
    ensures Unmapped(v, va, end) <==> !Conflict(v, va, end) && NoOverwrite(v, va, end)
  {
    if Unmapped(v, va, end) {
      UnmappedIsSafe(v, va, end);
    } else {
      var a: nat :| va <= a < end && Mapped(v, a);
      var m :| IsLeaf(v, m) && Covers(m, a);
      var n := MaximalCovers(va, end, a);
      LeafAround(m, n, a, a);
      if m.level < n.level {
        CoversIsNodeAt(n, a);
        CoversIsNodeAt(m, a);
        AboveNodeAt(a, n.level, m.level);
        assert Below(n, m);
        assert ConflictAt(v, va, end, n);
      }
    }
  }

  /** A table tree in which just the first 2 MiB are mapped. */
  ghost function FirstBlock(): View {
    map[Node(0, 0) := Table(0x1000), Node(1, 0) := Table(0x2000), Node(2, 0) := Leaf(0x60_0000)]
  }

  /** The check alone does not find every overlap: with the first 2 MiB of a 1 GiB block mapped, nothing is noticed when
      the whole block is mapped. */
  lemma ConflictMissesSmallerLeaf()
    ensures Closed(FirstBlock(), 0x9000) && NoEmptyTable(FirstBlock()) && GoodAddresses(FirstBlock())
    ensures !Unmapped(FirstBlock(), 0, 0x4000_0000) && !Conflict(FirstBlock(), 0, 0x4000_0000)
  {
    FirstBlockIsTree();
    FirstBlockOverlaps();
  }

  lemma FirstBlockEntries()
    ensures var v, a, b, m := FirstBlock(), Node(0, 0), Node(1, 0), Node(2, 0);
      && (forall n <- v :: n == a || n == b || n == m)
      && a in v && v[a] == Table(0x1000) && b in v && v[b] == Table(0x2000) && m in v && v[m] == Leaf(0x60_0000)
      && Up(m) == b && Up(b) == a
  {
    var v := FirstBlock();
    assert v.Keys == {Node(0, 0), Node(1, 0), Node(2, 0)};
  }

  lemma FirstBlockIsFilled()
    ensures NoEmptyTable(FirstBlock())
  {
    hide FirstBlock, Up;
    FirstBlockEntries();
    assert HasChild(FirstBlock(), Node(0, 0)) && HasChild(FirstBlock(), Node(1, 0));
  }

  lemma FirstBlockIsTree()
    ensures Closed(FirstBlock(), 0x9000) && NoEmptyTable(FirstBlock()) && GoodAddresses(FirstBlock())
  {
    FirstBlockIsFilled();
    hide FirstBlock, Up, NoEmptyTable;
    FirstBlockEntries();
  }

  lemma FirstBlockOverlaps()
    ensures !Unmapped(FirstBlock(), 0, 0x4000_0000) && !Conflict(FirstBlock(), 0, 0x4000_0000)
  {
    var v, m := FirstBlock(), Node(2, 0);
    assert IsLeaf(v, m) && Covers(m, 0);
    assert Mapped(v, 0);
    forall k, n | IsLeaf(v, k) && Maximal(n, 0, 0x4000_0000)
      ensures k == m && n == Node(1, 0)
    {
      assert Maximal(Node(1, 0), 0, 0x4000_0000) && Covers(n, Base(n)) && Covers(Node(1, 0), Base(n));
      MaximalUnique(n, Node(1, 0), 0, 0x4000_0000, Base(n));
    }
  }

  // ---------------------------------------------------------------- the path to a block

  ghost predicate SameLeaves(v: View, w: View) {
    forall n :: IsLeaf(w, n) <==> IsLeaf(v, n)
  }

  /** table has the entry of cur at the given level, and the tables above it exist. */
  ghost predicate Walk(v: View, root: nat, cur: nat, level: nat, table: nat)
    requires level < LEVELS
  {
    && HasSlot(v, NodeAt(cur, level))
    && table == TableOf(v, root, NodeAt(cur, level))
    && forall l: nat | l < level :: NodeAt(cur, l) in v && v[NodeAt(cur, l)].Table?
  }

  /** A walk on which at most the last table is empty. */
  ghost predicate OnPath(v: View, root: nat, cur: nat, level: nat, table: nat)
    requires level < LEVELS
  {
    Walk(v, root, cur, level, table) && NoEmptyTableBut(v, OverOf(NodeAt(cur, level)))
  }

  lemma WalkAtRoot(v: View, root: nat, cur: nat)
    requires cur < PHYS_LIMIT
    ensures Walk(v, root, cur, 0, root)
  {
  }

  lemma WalkDown(v: View, root: nat, cur: nat, level: nat, table: nat)
    requires level < 3 && Walk(v, root, cur, level, table)
    requires NodeAt(cur, level) in v && v[NodeAt(cur, level)].Table?
    ensures Walk(v, root, cur, level + 1, v[NodeAt(cur, level)].addr)
  {
    UpNodeAt(cur, level + 1);
  }

  /** The walk ends in the leaf of the address, or at an empty entry. */
  lemma WalkEnds(v: View, root: nat, cur: nat, level: nat, table: nat)
    requires Closed(v, root) && level < LEVELS && Walk(v, root, cur, level, table)
    ensures IsLeaf(v, NodeAt(cur, level)) ==> Translate(v, cur) == Or(v[NodeAt(cur, level)].pa, cur % Span(level))
    ensures NodeAt(cur, level) !in v ==> Translate(v, cur) == 0
  {
    if IsLeaf(v, NodeAt(cur, level)) {
      CoversIsNodeAt(NodeAt(cur, level), cur);
      LeafFound(v, root, NodeAt(cur, level), cur);
    } else if NodeAt(cur, level) !in v {
      NothingBelow(v, root, cur, level);
    }
  }

  lemma PathIsWalk(v: View, root: nat, cur: nat, level: nat, table: nat)
    requires level < LEVELS && OnPath(v, root, cur, level, table)
    ensures Walk(v, root, cur, level, table)
  {
  }

  lemma StartOfPath(v: View, root: nat, cur: nat)
    requires NoEmptyTable(v) && cur < PHYS_LIMIT
    ensures OnPath(v, root, cur, 0, root) && Extends(v, v) && SameLeaves(v, v)
  {
  }

  lemma FollowTable(v: View, root: nat, cur: nat, level: nat, table: nat)
    requires level < 3 && OnPath(v, root, cur, level, table) && Closed(v, root)
    requires NodeAt(cur, level) in v && v[NodeAt(cur, level)].Table?
    ensures OnPath(v, root, cur, level + 1, v[NodeAt(cur, level)].addr)
  {
    UpNodeAt(cur, level + 1);
    var n := NodeAt(cur, level);
    forall m | m in v && v[m].Table? && m != n
      ensures HasChild(v, m)
    {
      if m == OverOf(n) {
        assert n in v;
      }
    }
  }

  lemma BuildTable(start: View, v: View, root: nat, cur: nat, level: nat, page: nat)
    requires level < 3 && OnPath(v, root, cur, level, TableOf(v, root, NodeAt(cur, level))) && Closed(v, root)
    requires NodeAt(cur, level) !in v && Extends(start, v) && SameLeaves(start, v)
    ensures var w := v[NodeAt(cur, level) := Table(page)];
      OnPath(w, root, cur, level + 1, page) && Extends(start, w) && SameLeaves(start, w) && NodeAt(cur, level) !in start
  {
    UpNodeAt(cur, level + 1);
    FilledBy(v, NodeAt(cur, level), page);
  }

  lemma EntryAbove(v: View, root: nat, cur: nat, level: nat)
    requires Closed(v, root) && level < LEVELS && NodeAt(cur, level) in v && level > 0
    ensures NodeAt(cur, level - 1) in v
  {
    UpNodeAt(cur, level);
    assert Up(NodeAt(cur, level)) in v;
  }

  /** A leaf was written at t: the leaves of v at and below t are gone, the others are as they were. */
  ghost predicate LeafPut(v: View, w: View, t: Node, out: nat) {
    && (forall m :: IsLeaf(w, m) <==> m == t || (IsLeaf(v, m) && !Under(m, t)))
    && (forall m :: IsLeaf(v, m) && !Under(m, t) ==> m in w && w[m] == v[m])
    && t in w && w[t] == Leaf(out)
  }

  lemma ClosePath(start: View, v: View, root: nat, cur: nat, level: nat, table: nat, out: nat)
    requires level < LEVELS && OnPath(v, root, cur, level, table) && Closed(v, root)
    requires Extends(start, v) && SameLeaves(start, v)
    ensures var w := Overwrite(v, NodeAt(cur, level), Leaf(out));
      NoEmptyTable(w) && LeafPut(start, w, NodeAt(cur, level), out)
    ensures !LeafAbove(start, cur, level)
  {
    var t := NodeAt(cur, level);
    OverwriteFilled(v, root, t, out);
    OverwriteLeaves(start, v, t, out);
  }

  lemma OverwriteLeaves(start: View, v: View, t: Node, out: nat)
    requires t.level < LEVELS && Extends(start, v) && SameLeaves(start, v)
    ensures LeafPut(start, Overwrite(v, t, Leaf(out)), t, out)
  {
    hide Below;
    var w := Overwrite(v, t, Leaf(out));
    forall m
      ensures IsLeaf(w, m) <==> m == t || (IsLeaf(start, m) && !Under(m, t))
      ensures IsLeaf(start, m) && !Under(m, t) ==> m in w && w[m] == start[m]
    {
      assert IsLeaf(v, m) <==> IsLeaf(start, m);
    }
  }

  /** Off the path to t, w has the entries of v. */
  ghost predicate SameOffPath(v: View, w: View, t: Node) {
    forall n | !Below(t, n) :: (n in w <==> n in v) && (n in v ==> w[n] == v[n])
  }

  /** Neither on the path to t nor at or below it, w has the entries of v. */
  ghost predicate SameAside(v: View, w: View, t: Node) {
    forall n | !Below(t, n) && !Under(n, t) :: (n in w <==> n in v) && (n in v ==> w[n] == v[n])
  }

  lemma OffPathStart(v: View, t: Node)
    ensures SameOffPath(v, v, t)
  {
  }

  lemma OffPathStep(start: View, v: View, cur: nat, level: nat, l: nat, e: Entry)
    requires l < level < LEVELS && SameOffPath(start, v, NodeAt(cur, level))
    ensures SameOffPath(start, v[NodeAt(cur, l) := e], NodeAt(cur, level))
  {
    AboveNodeAt(cur, level, l);
    assert Below(NodeAt(cur, level), NodeAt(cur, l));
  }

  lemma OffPathEnd(start: View, v: View, t: Node, out: nat)
    requires SameOffPath(start, v, t)
    ensures SameAside(start, Overwrite(v, t, Leaf(out)), t) && CutOff(v, t) == CutOff(start, t)
  {
    forall n | Under(n, t)
      ensures (n in v <==> n in start) && (n in v ==> v[n] == start[n])
    {
      assert !Below(t, n);
    }
  }

  /** With no leaf at or below the block nothing is overwritten. */
  lemma ClosePathFree(start: View, v: View, root: nat, cur: nat, level: nat, table: nat, out: nat)
    requires level < LEVELS && OnPath(v, root, cur, level, table) && Closed(v, root)
    requires Extends(start, v) && SameLeaves(start, v) && NoLeafUnder(start, NodeAt(cur, level))
    ensures Extends(start, Overwrite(v, NodeAt(cur, level), Leaf(out))) && CutOff(v, NodeAt(cur, level)) == {}
  {
    TargetIsEmpty(start, v, root, cur, level, table);
    OverwriteEmpty(v, root, NodeAt(cur, level), Leaf(out));
  }

  ghost predicate NoLeafUnder(v: View, t: Node) {
    forall m | IsLeaf(v, m) :: m != t && !Below(m, t)
  }

  /** A leaf ends the walk to cur above the given level. */
  ghost predicate LeafAbove(v: View, cur: nat, level: nat)
    requires level <= LEVELS
  {
    exists l: nat :: l < level && IsLeaf(v, NodeAt(cur, l))
  }

  /** A leaf was there before, with the table above it. */
  lemma LeafInBoth(v: View, w: View, root: nat, cur: nat, level: nat, end: nat)
    requires Closed(v, root) && SameLeaves(v, w) && level < end <= LEVELS && IsLeaf(w, NodeAt(cur, level))
    ensures LeafAbove(v, cur, end) && (level > 0 ==> NodeAt(cur, level - 1) in v)
  {
    if level > 0 {
      EntryAbove(v, root, cur, level);
    }
  }

  // ---------------------------------------------------------------- progress along an interval

  /** w is v with [va, cur) written over it block by block, and no leaf of v lies above a written block. */
  ghost predicate Progress(v: View, w: View, pa: nat, va: nat, end: nat, cur: nat) {
    && va <= cur <= end
    && cur % PAGE_SIZE == 0
    && Boundary(cur, va, end)
    && (forall n :: IsLeaf(w, n) <==> Written(n, va, end, cur) || OldLeaf(v, n, va, cur))
    && (forall n :: OldLeaf(v, n, va, cur) ==> n in w && w[n] == v[n])
    && (forall n :: Written(n, va, end, cur) ==> n in w && w[n] == Leaf(pa + Base(n) - va))
    && (forall m, n :: IsLeaf(v, m) && Written(n, va, end, cur) ==> !Below(n, m))
  }

  lemma ProgressAtStart(v: View, pa: nat, va: nat, end: nat)
    requires va <= end && va % PAGE_SIZE == 0
    ensures Progress(v, v, pa, va, end, va)
  {
    BoundaryAtStart(va, end);
  }

  lemma ProgressAtEnd(v: View, w: View, pa: nat, va: nat, end: nat)
    requires Progress(v, w, pa, va, end, end)
    ensures Overlaid(v, w, pa, va, end) && !Conflict(v, va, end)
  {
    forall n
      ensures Written(n, va, end, end) <==> Maximal(n, va, end)
    {
    }
  }

  /** The written part never reaches into the next block. */
  lemma ProgressIsSafe(v: View, w: View, pa: nat, va: nat, end: nat, cur: nat, t: Node)
    requires Progress(v, w, pa, va, end, cur) && NoOverwrite(v, va, end) && Maximal(t, va, end) && Base(t) == cur
    ensures NoLeafUnder(w, t)
  {
    forall m | IsLeaf(w, m)
      ensures m != t && !Below(m, t)
    {
      if Under(m, t) && Written(m, va, end, cur) {
        BelowCovered(m, t);
      }
    }
  }

  /** A leaf of w above the next block is a leaf of v. */
  lemma LeafAboveIsConflict(v: View, w: View, pa: nat, va: nat, end: nat, cur: nat, level: nat)
    requires Progress(v, w, pa, va, end, cur) && level < LEVELS
    requires Maximal(NodeAt(cur, level), va, end) && LeafAbove(w, cur, level)
    ensures ConflictAt(v, va, end, NodeAt(cur, level))
  {
    var l: nat :| l < level && IsLeaf(w, NodeAt(cur, l));
    CoversIsNodeAt(NodeAt(cur, l), cur);
    AboveNodeAt(cur, level, l);
    assert Below(NodeAt(cur, level), NodeAt(cur, l));
  }

  /** The pages of the tables that lie in [va, cur). */
  ghost function Lost(v: View, va: nat, cur: nat): set<nat> {
    set n | n in v && n.level < LEVELS && v[n].Table? && Inside(n, va, cur) :: v[n].addr
  }

  /** The blocks of the interval from cur on are as they were. */
  ghost predicate SameAhead(v: View, w: View, va: nat, end: nat, cur: nat) {
    forall n: Node | n.level < LEVELS && Inside(n, va, end) && cur <= Base(n) ::
      (n in w <==> n in v) && (n in v ==> w[n] == v[n])
  }

  lemma LostAtStart(v: View, va: nat, end: nat)
    ensures Lost(v, va, va) == {} && SameAhead(v, v, va, end, va)
  {
  }

  lemma LostStep(v: View, w: View, w': View, va: nat, end: nat, t: Node)
    requires Maximal(t, va, end) && SameAhead(v, w, va, end, Base(t)) && SameAside(w, w', t)
    requires forall n <- v :: n.level < LEVELS
    requires forall n <- w :: n.level < LEVELS
    ensures SameAhead(v, w', va, end, End(t)) && Lost(v, va, End(t)) == Lost(v, va, Base(t)) + CutOff(w, t)
  {
    forall n: Node | n.level < LEVELS && Inside(n, va, end) && End(t) <= Base(n)
      ensures (n in w' <==> n in v) && (n in v ==> w'[n] == v[n])
    {
      AheadIsAside(va, end, t, n);
    }
    forall n | n in v || n in w
      ensures n.level < LEVELS && (Inside(n, va, End(t)) <==> Inside(n, va, Base(t)) || Under(n, t))
      ensures Under(n, t) ==> (n in w <==> n in v) && (n in v ==> w[n] == v[n])
    {
      InsideStep(va, end, t, n);
      if Under(n, t) {
        AboveContains(n, t.level);
      }
    }
    hide Inside, Under, SameAhead, SameAside, Maximal;
    assert Lost(v, va, End(t)) == Lost(v, va, Base(t)) + CutOff(w, t);
  }

  lemma AheadIsAside(va: nat, end: nat, t: Node, n: Node)
    requires Maximal(t, va, end) && n.level < LEVELS && Inside(n, va, end) && End(t) <= Base(n)
    ensures !Below(t, n) && !Under(n, t)
  {
    if Below(t, n) {
      InsideUp(t, n.level, va, end);
    }
    if Under(n, t) {
      AboveContains(n, t.level);
    }
  }

  /** The blocks before the first one below a leaf are written, and the pages of the tables in them are lost. */
  ghost predicate StoppedAtConflict(v: View, w: View, lost: set<nat>, pa: nat, va: nat, end: nat) {
    exists n :: ConflictAt(v, va, end, n) && Progress(v, w, pa, va, end, Base(n)) && lost == Lost(v, va, Base(n))
  }

  lemma StopsHere(v: View, w: View, pa: nat, va: nat, end: nat, cur: nat, level: nat)
    requires Progress(v, w, pa, va, end, cur) && level < LEVELS && Base(NodeAt(cur, level)) == cur
    requires Maximal(NodeAt(cur, level), va, end) && LeafAbove(w, cur, level)
    ensures Conflict(v, va, end) && StoppedAtConflict(v, w, Lost(v, va, cur), pa, va, end)
  {
    LeafAboveIsConflict(v, w, pa, va, end, cur, level);
  }

  lemma ExtendsTrans(u: View, v: View, w: View)
    ensures Extends(u, u)
    ensures Extends(u, v) && Extends(v, w) ==> Extends(u, w)
  {
  }

  /** Going past a largest block adds what lies in this block. */
  lemma InsideStep(va: nat, end: nat, t: Node, m: Node)
    requires Maximal(t, va, end) && m.level < LEVELS
    ensures Inside(m, va, End(t)) <==> Inside(m, va, Base(t)) || Under(m, t)
  {
    if Under(m, t) {
      AboveContains(m, t.level);
    } else if Inside(m, va, End(t)) && End(m) > Base(t) {
      var a := End(m) - 1;
      LeafAround(m, t, a, a);
      CoversIsNodeAt(m, a);
      CoversIsNodeAt(t, a);
      AboveNodeAt(a, t.level, m.level);
      InsideUp(t, m.level, va, end);
    }
  }

  lemma WrittenIsApart(va: nat, end: nat, t: Node, m: Node)
    requires Maximal(t, va, end) && Written(m, va, end, Base(t))
    ensures !Under(m, t)
  {
    if Under(m, t) {
      BelowCovered(m, t);
    }
  }

  lemma AboveNotOverwritten(v: View, va: nat, end: nat, t: Node, m: Node)
    requires Maximal(t, va, end) && IsLeaf(v, m) && Below(t, m)
    ensures OldLeaf(v, m, va, Base(t)) && m == NodeAt(Base(t), m.level)
  {
    CoversIsNodeAt(t, Base(t));
    AboveNodeAt(Base(t), t.level, m.level);
    CoversIsNodeAt(m, Base(t));
  }

  lemma ProgressStep(v: View, w: View, w': View, pa: nat, va: nat, end: nat, cur: nat, level: nat)
    requires Progress(v, w, pa, va, end, cur) && level < LEVELS
    requires Maximal(NodeAt(cur, level), va, end) && Base(NodeAt(cur, level)) == cur
    requires LeafPut(w, w', NodeAt(cur, level), pa + (cur - va)) && !LeafAbove(w, cur, level)
    ensures Progress(v, w', pa, va, end, cur + Span(level))
  {
    hide Maximal, Boundary, Written, NodeAt, Under, Below, Inside, IsLeaf, OldLeaf;
    var t := NodeAt(cur, level);
    NextBlock(cur, level, va, end);
    BoundaryAfter(t, va, end);
    forall n
      ensures IsLeaf(w', n) <==> Written(n, va, end, cur + Span(level)) || OldLeaf(v, n, va, cur + Span(level))
      ensures OldLeaf(v, n, va, cur + Span(level)) ==> n in v && n in w' && w'[n] == v[n]
      ensures Written(n, va, end, cur + Span(level)) ==>
        n.level < LEVELS && va <= Base(n) && n in w' && w'[n] == Leaf(pa + Base(n) - va)
    {
      LeafStep(v, w, pa, va, end, cur, level, n);
    }
    forall m, n | IsLeaf(v, m) && Written(n, va, end, cur + Span(level))
      ensures !Below(n, m)
    {
      NoConflictStep(v, w, pa, va, end, cur, level, m, n);
    }
  }

  /** How the leaves of one more block compare with those so far. */
  lemma LeafStep(v: View, w: View, pa: nat, va: nat, end: nat, cur: nat, level: nat, n: Node)
    requires Progress(v, w, pa, va, end, cur) && level < LEVELS
    requires Maximal(NodeAt(cur, level), va, end) && Base(NodeAt(cur, level)) == cur
    ensures var t, next := NodeAt(cur, level), cur + Span(level);
      && (Written(n, va, end, next) <==> Written(n, va, end, cur) || n == t)
      && (OldLeaf(v, n, va, next) <==> OldLeaf(v, n, va, cur) && !Under(n, t))
      && (Written(n, va, end, next) ==> n.level < LEVELS && va <= Base(n))
      && (Written(n, va, end, cur) ==> IsLeaf(w, n) && !Under(n, t) && n in w && w[n] == Leaf(pa + Base(n) - va))
      && (OldLeaf(v, n, va, cur) ==> IsLeaf(w, n) && n in v && n in w && w[n] == v[n])
  {
    var t := NodeAt(cur, level);
    NextBlock(cur, level, va, end);
    WrittenStep(t, va, end, n);
    if IsLeaf(v, n) {
      InsideStep(va, end, t, n);
    }
    if Written(n, va, end, cur) {
      WrittenIsApart(va, end, t, n);
    }
    hide Maximal, Boundary, Written, NodeAt, Under, Below, Inside, Base;
  }

  lemma LeafIsAbove(w: View, cur: nat, level: nat, l: nat)
    requires l < level < LEVELS && IsLeaf(w, NodeAt(cur, l))
    ensures LeafAbove(w, cur, level)
  {
  }

  lemma NoConflictStep(v: View, w: View, pa: nat, va: nat, end: nat, cur: nat, level: nat, m: Node, n: Node)
    requires Progress(v, w, pa, va, end, cur) && level < LEVELS
    requires Maximal(NodeAt(cur, level), va, end) && Base(NodeAt(cur, level)) == cur && !LeafAbove(w, cur, level)
    requires IsLeaf(v, m) && Written(n, va, end, cur + Span(level))
    ensures !Below(n, m)
  {
    hide LeafAbove;
    var t := NodeAt(cur, level);
    NextBlock(cur, level, va, end);
    WrittenStep(t, va, end, n);
    if n == t && Below(t, m) {
      AboveNotOverwritten(v, va, end, t, m);
      LeafIsAbove(w, cur, level, m.level);
    }
  }

  lemma BlockEnd(cur: nat, level: nat)
    requires level < LEVELS && Base(NodeAt(cur, level)) == cur
    ensures End(NodeAt(cur, level)) == cur + Span(level)
  {
  }

  lemma NextBlock(cur: nat, level: nat, va: nat, end: nat)
    requires level < LEVELS && Maximal(NodeAt(cur, level), va, end) && Base(NodeAt(cur, level)) == cur
    ensures End(NodeAt(cur, level)) == cur + Span(level) <= end && va <= cur
    ensures (cur + Span(level)) % PAGE_SIZE == 0
  {
    SpanFacts(level);
    BaseIsPage(NodeAt(cur, level));
    hide Span, NodeAt;
    PageSum(cur, Span(level));
  }

  lemma BaseIsPage(n: Node)
    requires n.level < LEVELS
    ensures Base(n) % PAGE_SIZE == 0
  {
  }

  ghost predicate Chosen(cur: nat, end: nat, level: nat) {
    && level < LEVELS && cur % Span(level) == 0 && cur + Span(level) <= end
    && (level > 0 ==> cur % Span(level - 1) != 0 || cur + Span(level - 1) > end)
  }

  /** The chosen block is one of the largest blocks, and only tables on the way to an end of the interval have to be
      made for it, none of which lies in the block. */
  lemma BlockChosen(v: View, w: View, pa: nat, va: nat, end: nat, cur: nat, level: nat, edges: set<Node>)
    requires Progress(v, w, pa, va, end, cur)
    requires Chosen(cur, end, level) && cur < end && edges == EdgeTables(va, end)
    ensures Maximal(NodeAt(cur, level), va, end) && Base(NodeAt(cur, level)) == cur
    ensures NoOverwrite(v, va, end) ==> NoLeafUnder(w, NodeAt(cur, level))
    ensures PathIn(cur, level, edges) && Spared(edges, NodeAt(cur, level))
  {
    hide Progress, NoOverwrite, Maximal, NoLeafUnder, EdgeTables, Span, Base, NodeAt, Boundary, Spared;
    ChosenFacts(v, w, pa, va, end, cur, level);
    ChosenIsMaximal(cur, va, end, level);
    if NoOverwrite(v, va, end) {
      ProgressIsSafe(v, w, pa, va, end, cur, NodeAt(cur, level));
    }
    EdgesAreSpared(va, end, NodeAt(cur, level));
    forall l: nat | l < level
      ensures NodeAt(cur, l) in edges
    {
      TablesAreAtEdges(cur, va, end, level, l);
    }
  }

  /** No node of the set is t or lies below it. */
  ghost predicate Spared(edges: set<Node>, t: Node) {
    forall n <- edges :: !Under(n, t)
  }

  lemma EdgesAreSpared(va: nat, end: nat, t: Node)
    requires va < end && Maximal(t, va, end)
    ensures Spared(EdgeTables(va, end), t)
  {
    forall n | n in EdgeTables(va, end)
      ensures !Under(n, t)
    {
      if Under(n, t) {
        AboveContains(n, t.level);
      }
    }
  }

  lemma ChosenFacts(v: View, w: View, pa: nat, va: nat, end: nat, cur: nat, level: nat)
    requires Progress(v, w, pa, va, end, cur) && Chosen(cur, end, level)
    ensures va <= cur && Boundary(cur, va, end)
  {
  }

  /** Whole pages make whole pages. */
  lemma ChosenStep(cur: nat, end: nat, level: nat, pa: nat, va: nat)
    requires Chosen(cur, end, level) && cur % PAGE_SIZE == 0 && va % PAGE_SIZE == 0 && pa % PAGE_SIZE == 0
    requires va <= cur && end <= PHYS_LIMIT && pa + (end - va) <= PHYS_LIMIT
    ensures level < LEVELS && cur < PHYS_LIMIT && 0 < Span(level) <= end - cur && (cur + Span(level)) % PAGE_SIZE == 0
    ensures PageAddress(pa + (cur - va))
  {
    SpanFacts(level);
    PageSum(cur, Span(level));
    hide Chosen, Span;
    PageSum(pa, cur - va);
  }

  lemma AlignmentFacts(pa: nat, va: nat, size: nat)
    ensures Misaligned(pa, va, size) <==> pa % PAGE_SIZE != 0 || va % PAGE_SIZE != 0 || size % PAGE_SIZE != 0
    ensures !Misaligned(pa, va, size) ==> (va + size) % PAGE_SIZE == 0
  {
    if !Misaligned(pa, va, size) {
      PageSum(va, size);
    }
  }

  /** The index and the offset of an address come from its low 48 bits. */
  lemma LowBitsOnly(a: nat, level: nat)
    requires level < LEVELS
    ensures AddressIndex(a, level) == AddressIndex(a % PHYS_LIMIT, level)
    ensures a % Span(level) == a % PHYS_LIMIT % Span(level)
  {
    var q, b := a / PHYS_LIMIT, a % PHYS_LIMIT;
    assert a == b + q * PHYS_LIMIT;
    if level == 0 {
      LowBits(b, q, 0x80_0000_0000, 0x200);
    } else if level == 1 {
      LowBits(b, q, 0x4000_0000, 0x4_0000);
    } else if level == 2 {
      LowBits(b, q, 0x20_0000, 0x800_0000);
    } else {
      LowBits(b, q, 0x1000, 0x10_0000_0000);
    }
  }

  lemma LowBits(b: nat, q: nat, span: nat, per: nat)
    requires span > 0 && per % ENTRIES == 0
    ensures (b + q * (per * span)) % span == b % span
    ensures (b + q * (per * span)) / span % ENTRIES == b / span % ENTRIES
  {
    var k := per / ENTRIES;
    assert per == k * ENTRIES;
    SameRemainder(b, span, q * per);
    assert q * (per * span) == (q * per) * span;
    DivMod(b + q * (per * span), span, b / span + q * per, b % span) by {
      assert b == span * (b / span) + b % span;
      assert span * (b / span + q * per) == span * (b / span) + span * (q * per);
      assert span * (q * per) == q * (per * span);
    }
    SameRemainder(b / span, ENTRIES, q * k);
    assert q * per == (q * k) * ENTRIES;
  }

  lemma FinerFits(cur: nat, level: nat)
    requires level < 3 && cur % Span(level) == 0
    ensures cur % Span(level + 1) == 0
  {
    SpanFacts(level + 1);
    assert Span(level) == Span(level + 1) * 512;
    hide Span;
    var q := cur / Span(level);
    assert cur == Span(level) * q == Span(level + 1) * (512 * q);
    DividesExactly(cur, Span(level + 1), 512 * q);
  }

  lemma PageFits(cur: nat, end: nat)
    requires cur < end && cur % PAGE_SIZE == 0 && end % PAGE_SIZE == 0
    ensures Span(3) <= end - cur
  {
  }

  lemma SpanOfPage()
    ensures Span(3) == PAGE_SIZE && forall l: nat | l < LEVELS :: Span(l) > 0
  {
  }

  lemma SpanFacts(level: nat)
    requires level < LEVELS
    ensures 0 < Span(level) && Span(level) % PAGE_SIZE == 0
  {
  }

  lemma PageSum(x: nat, y: nat)
    requires x % PAGE_SIZE == 0 && y % PAGE_SIZE == 0
    ensures (x + y) % PAGE_SIZE == 0
  {
  }

  // ---------------------------------------------------------------- taking leaves away

  /** The entries of a table are the entries below it. */
  lemma ChildIsEntry(mem: Memory, root: nat, v: View, n: Node)
    requires Tied(mem, root, v) && n in v && v[n].Table?
    ensures v[n].addr in mem && |mem[v[n].addr]| == ENTRIES
    ensures HasChild(v, n) <==> exists i :: 0 <= i < ENTRIES && mem[v[n].addr][i] != 0
  {
    var page := mem[v[n].addr];
    if HasChild(v, n) {
      var c :| c in v && c.level > 0 && Up(c) == n;
      var i := c.index % 512;
      assert c == Node(n.level + 1, n.index * 512 + i);
      assert page[i] == Descriptor(v, c) != 0;
    }
    if i :| 0 <= i < ENTRIES && page[i] != 0 {
      var c := Node(n.level + 1, n.index * 512 + i);
      assert page[i] == Descriptor(v, c);
      assert c in v && Up(c) == n;
    }
  }

  /** In the table above, exactly one entry leads to the table of n. */
  lemma OnlyEntryOf(mem: Memory, root: nat, v: View, n: Node, i: nat)
    requires Closed(v, root) && Tied(mem, root, v) && GoodAddresses(v) && n in v && v[n].Table? && i < ENTRIES
    ensures TableOf(v, root, n) in mem && |mem[TableOf(v, root, n)]| == ENTRIES
    ensures DropLowBits(mem[TableOf(v, root, n)][i]) == v[n].addr <==> i == n.index % 512
  {
    hide Tied, Closed;
    SlotOf(v, root, n);
    TablePages(mem, root, v);
    var m := Node(n.level, n.index / 512 * 512 + i);
    SiblingSlot(v, n, m);
    EntryInTable(mem, root, v, m);
    TablesDiffer(v, root, n, m);
    DescriptorDecodes(v, m);
    DescriptorDecodes(v, n);
  }

  lemma SlotOf(v: View, root: nat, n: Node)
    requires Closed(v, root) && n in v
    ensures HasSlot(v, n) && (v[n].Table? ==> n.level < 3)
  {
  }

  lemma SiblingSlot(v: View, n: Node, m: Node)
    requires HasSlot(v, n) && m.level == n.level && m.index / 512 == n.index / 512
    ensures HasSlot(v, m) && (n.level > 0 ==> Up(m) == Up(n))
  {
  }

  lemma TablesDiffer(v: View, root: nat, n: Node, m: Node)
    requires Closed(v, root) && n in v && v[n].Table?
    ensures m in v && v[m].Table? && v[m].addr == v[n].addr ==> m == n
    ensures m in v && v[m].Table? ==> m.level < 3
  {
  }

  /** The tables on the way to cur down to the given level. */
  ghost predicate Trail(v: View, root: nat, cur: nat, level: nat, tables: seq<nat>)
    requires level < LEVELS
  {
    && |tables| == LEVELS && tables[0] == root && HasSlot(v, NodeAt(cur, level))
    && forall l: nat | l < level :: NodeAt(cur, l) in v && v[NodeAt(cur, l)] == Table(tables[l + 1])
  }

  lemma TrailTable(v: View, root: nat, cur: nat, level: nat, tables: seq<nat>)
    requires level < LEVELS && Trail(v, root, cur, level, tables)
    ensures tables[level] == TableOf(v, root, NodeAt(cur, level))
  {
    if level > 0 {
      UpNodeAt(cur, level);
    }
  }

  lemma TrailDown(v: View, root: nat, cur: nat, level: nat, tables: seq<nat>)
    requires level < 3 && Trail(v, root, cur, level, tables)
    requires NodeAt(cur, level) in v && v[NodeAt(cur, level)].Table?
    ensures Trail(v, root, cur, level + 1, tables[level + 1 := v[NodeAt(cur, level)].addr])
  {
    UpNodeAt(cur, level + 1);
  }

  lemma TrailStart(v: View, root: nat, cur: nat, tables: seq<nat>)
    requires cur < PHYS_LIMIT && tables == [root, 0, 0, 0]
    ensures Trail(v, root, cur, 0, tables)
  {
  }

  lemma TrailEndsInLeaf(v: View, cur: nat, level: nat)
    requires level < LEVELS && IsLeaf(v, NodeAt(cur, level))
    ensures Mapped(v, cur)
  {
    CoversIsNodeAt(NodeAt(cur, level), cur);
  }

  lemma TrailEndsInNothing(v: View, root: nat, cur: nat, level: nat, tables: seq<nat>)
    requires Closed(v, root) && level < LEVELS && Trail(v, root, cur, level, tables) && NodeAt(cur, level) !in v
    ensures !Mapped(v, cur)
  {
    NothingBelow(v, root, cur, level);
    LeafLevelMapped(v, cur);
  }

  /** w is v without the leaf n, and without some tables. */
  ghost predicate LeafRemoved(v: View, w: View, n: Node) {
    && (forall m <- w :: m in v && w[m] == v[m])
    && (forall m :: IsLeaf(w, m) <==> IsLeaf(v, m) && m != n)
  }

  /** The leaf of cur is gone, and only the table that had the entry of cur at the given level may be empty. */
  ghost predicate Pruning(start: View, v: View, root: nat, cur: nat, leaf: nat, level: nat, tables: seq<nat>)
    requires level <= leaf < LEVELS
  {
    && LeafRemoved(start, v, NodeAt(cur, leaf))
    && NoEmptyTableBut(v, OverOf(NodeAt(cur, level)))
    && Trail(v, root, cur, level, tables)
  }

  lemma TrailAfter(v: View, root: nat, cur: nat, level: nat, tables: seq<nat>, x: Node)
    requires level < LEVELS && Trail(v, root, cur, level, tables) && x.level >= level
    ensures Trail(v - {x}, root, cur, level, tables)
  {
    if level > 0 {
      UpNodeAt(cur, level);
    }
  }

  lemma LeafTaken(v: View, n: Node)
    ensures LeafRemoved(v, v - {n}, n)
  {
  }

  lemma TableTaken(start: View, v: View, n: Node, x: Node)
    requires LeafRemoved(start, v, n) && x in v && v[x].Table?
    ensures LeafRemoved(start, v - {x}, n)
  {
    forall m
      ensures IsLeaf(v - {x}, m) <==> IsLeaf(start, m) && m != n
    {
      assert IsLeaf(v, m) <==> IsLeaf(start, m) && m != n;
    }
  }

  lemma OverIsUp(cur: nat, level: nat)
    requires 0 < level < LEVELS
    ensures OverOf(NodeAt(cur, level)) == NodeAt(cur, level - 1)
  {
    UpNodeAt(cur, level);
  }

  lemma PruningStart(v: View, root: nat, cur: nat, leaf: nat, tables: seq<nat>)
    requires leaf < LEVELS && Closed(v, root) && NoEmptyTable(v) && IsLeaf(v, NodeAt(cur, leaf))
    requires Trail(v, root, cur, leaf, tables)
    ensures Pruning(v, v - {NodeAt(cur, leaf)}, root, cur, leaf, leaf, tables)
  {
    hide Trail, LeafRemoved, HasChild;
    var n := NodeAt(cur, leaf);
    EmptiedBy(v, n, Node(LEVELS, 0));
    TrailAfter(v, root, cur, leaf, tables, n);
    LeafTaken(v, n);
  }

  lemma PruningTables(start: View, v: View, root: nat, cur: nat, leaf: nat, level: nat, tables: seq<nat>)
    requires 0 < level <= leaf < LEVELS && Closed(v, root) && Pruning(start, v, root, cur, leaf, level, tables)
    ensures Trail(v, root, cur, level - 1, tables)
    ensures NodeAt(cur, level - 1) in v && v[NodeAt(cur, level - 1)] == Table(tables[level])
    ensures tables[level - 1] == TableOf(v, root, NodeAt(cur, level - 1))
  {
    UpNodeAt(cur, level);
    SlotOf(v, root, NodeAt(cur, level - 1));
    TrailTable(v, root, cur, level - 1, tables);
  }

  lemma PruningStep(start: View, v: View, w: View, root: nat, cur: nat, leaf: nat, level: nat, tables: seq<nat>)
    requires 0 < level <= leaf < LEVELS && Closed(v, root) && Pruning(start, v, root, cur, leaf, level, tables)
    requires w == if HasChild(v, NodeAt(cur, level - 1)) then v else v - {NodeAt(cur, level - 1)}
    ensures Pruning(start, w, root, cur, leaf, level - 1, tables)
  {
    var x := NodeAt(cur, level - 1);
    PruningTables(start, v, root, cur, leaf, level, tables);
    OverIsUp(cur, level);
    hide Trail, LeafRemoved, HasChild, NodeAt;
    if !HasChild(v, x) {
      EmptiedBy(v, x, x);
      TrailAfter(v, root, cur, level - 1, tables, x);
      TableTaken(start, v, NodeAt(cur, leaf), x);
    }
  }

  lemma PruningEnd(start: View, v: View, root: nat, cur: nat, leaf: nat, tables: seq<nat>)
    requires leaf < LEVELS && Closed(v, root) && Pruning(start, v, root, cur, leaf, 0, tables)
    ensures NoEmptyTable(v) && LeafRemoved(start, v, NodeAt(cur, leaf))
  {
    assert Node(LEVELS, 0) !in v;
  }

  // ---------------------------------------------------------------- clearing an interval

  /** w is v without the leaves of [va, cur), and no leaf of v reaches over cur. */
  ghost predicate Cleared(v: View, w: View, va: nat, end: nat, cur: nat) {
    && va <= cur <= end
    && Removed(v, w, va, cur)
    && forall n | IsLeaf(v, n) && Covers1(n, cur) && cur < end :: Base(n) == cur
  }

  lemma ClearedFacts(v: View, w: View, va: nat, end: nat, cur: nat)
    requires Cleared(v, w, va, end, cur)
    ensures va <= cur <= end && Removed(v, w, va, cur)
  {
  }

  lemma ClearedAtStart(v: View, va: nat, end: nat)
    requires va <= end && MappedWhole(v, va, end)
    ensures Cleared(v, v, va, end, va)
  {
  }

  lemma ClearedStep(v: View, w: View, w': View, root: nat, va: nat, end: nat, cur: nat, level: nat)
    requires Closed(v, root) && MappedWhole(v, va, end) && Cleared(v, w, va, end, cur) && cur < end
    requires level < LEVELS && IsLeaf(w, NodeAt(cur, level)) && LeafRemoved(w, w', NodeAt(cur, level))
    ensures Cleared(v, w', va, end, cur + Span(level))
  {
    var m := NodeAt(cur, level);
    CoversIsNodeAt(m, cur);
    assert IsLeaf(v, m) && Covers1(m, cur);
    assert Base(m) == cur && End(m) == cur + Span(level) <= end;
    forall n
      ensures IsLeaf(w', n) <==> IsLeaf(v, n) && !Inside(n, va, End(m))
    {
      ClearedLeaf(v, root, va, cur, m, n);
    }
    forall n | IsLeaf(v, n) && Covers1(n, End(m)) && End(m) < end
      ensures Base(n) == End(m)
    {
      if Base(n) < End(m) {
        LeafUnique(v, root, n, m, End(m) - 1);
      }
    }
  }

  lemma ClearedLeaf(v: View, root: nat, va: nat, cur: nat, m: Node, n: Node)
    requires Closed(v, root) && IsLeaf(v, m) && Base(m) == cur && va <= cur
    ensures IsLeaf(v, n) ==> (Inside(n, va, End(m)) <==> Inside(n, va, cur) || n == m)
  {
    if IsLeaf(v, n) && Inside(n, va, End(m)) && End(n) > cur {
      LeafUnique(v, root, n, m, End(n) - 1);
    }
  }

  /** The next address of a mapped interval is still mapped. */
  lemma StillMapped(v: View, w: View, va: nat, end: nat, cur: nat)
    requires MappedWhole(v, va, end) && Cleared(v, w, va, end, cur) && cur < end
    ensures Mapped(w, cur)
  {
    assert Mapped(v, cur);
    var n :| IsLeaf(v, n) && Covers(n, cur);
    assert IsLeaf(w, n);
  }

  // ---------------------------------------------------------------- counting pages

  /** How many pages are left once the missing tables of a path have been made. */
  ghost function Spare(free: set<nat>, edges: set<Node>, v: View): int {
    |free| - |edges - v.Keys|
  }

  ghost predicate PathIn(cur: nat, level: nat, edges: set<Node>)
    requires level <= LEVELS
  {
    forall l: nat | l < level :: NodeAt(cur, l) in edges
  }

  lemma {:induction false} SubsetSize<T>(a: set<T>, b: set<T>)
    requires a <= b
    ensures |a| <= |b|
  {
    if x :| x in a {
      SubsetSize(a - {x}, b - {x});
    }
  }

  lemma PageLeft(free: set<nat>, edges: set<Node>, v: View, cur: nat, level: nat, l: nat)
    requires Spare(free, edges, v) >= 0 && l < level <= LEVELS && PathIn(cur, level, edges) && NodeAt(cur, l) !in v
    ensures free != {}
  {
    assert NodeAt(cur, l) in edges - v.Keys;
  }

  lemma PageUsed(free: set<nat>, page: nat, edges: set<Node>, v: View, cur: nat, level: nat, l: nat, e: Entry)
    requires page in free && l < level <= LEVELS && PathIn(cur, level, edges) && NodeAt(cur, l) !in v
    ensures Spare(free - {page}, edges, v[NodeAt(cur, l) := e]) == Spare(free, edges, v)
  {
    var n := NodeAt(cur, l);
    assert edges - v[n := e].Keys == edges - v.Keys - {n};
  }

  lemma PageKept(free: set<nat>, edges: set<Node>, v: View, n: Node, e: Entry)
    requires Spared(edges, n)
    ensures Spare(free, edges, Overwrite(v, n, e)) == Spare(free, edges, v)
  {
    assert edges - Overwrite(v, n, e).Keys == edges - v.Keys;
  }

  /** The tables that are needed for an interval. */
  ghost function TablesFor(va: nat, size: nat): set<Node> {
    if size > 0 then EdgeTables(va, va + size) else {}
  }

  lemma FewTables(va: nat, size: nat)
    ensures |TablesFor(va, size)| <= 6
  {
    hide NodeAt, Inside;
    if size > 0 {
      SubsetSize(EdgeTables(va, va + size), EndPaths(va, va + size));
      EndPathsSize(va, va + size);
    }
  }

  lemma EndPathsSize(va: nat, end: nat)
    requires va < end
    ensures |EndPaths(va, end)| <= 6
  {
    hide NodeAt;
    var a, b := NodeAt(va, 0), NodeAt(va, 1);
    var c, d := NodeAt(va, 2), NodeAt(end - 1, 0);
    SizeOfSix(a, b, c, d, NodeAt(end - 1, 1), NodeAt(end - 1, 2));
  }

  lemma SizeOfSix<T>(a: T, b: T, c: T, d: T, e: T, f: T)
    ensures |{a, b, c, d, e, f}| <= 6
  {
  }

  /** Six pages suffice for any interval, and no more are taken. */
  lemma SixPages(free: set<nat>, v: View, free': set<nat>, w: View, va: nat, size: nat)
    ensures |free| >= 6 ==> Spare(free, TablesFor(va, size), v) >= 0
    ensures Spare(free', TablesFor(va, size), w) == Spare(free, TablesFor(va, size), v) ==> |free'| >= |free| - 6
  {
    hide TablesFor;
    FewTables(va, size);
    SubsetSize(TablesFor(va, size) - v.Keys, TablesFor(va, size));
  }

  /** What one interval takes from the pages, it also takes from the tables that are missing in a larger set. */
  lemma SpareOfMore(free: set<nat>, v: View, free': set<nat>, w: View, edges: set<Node>, more: set<Node>)
    requires edges <= more && Extends(v, w) && Spare(free', edges, w) == Spare(free, edges, v)
    ensures Spare(free', more, w) >= Spare(free, more, v)
    ensures Spare(free, more, v) >= 0 ==> Spare(free, edges, v) >= 0
  {
    MissingLess(edges, more, v.Keys, w.Keys) by {
      KeysGrow(v, w);
    }
  }

  lemma KeysGrow(v: View, w: View)
    requires Extends(v, w)
    ensures v.Keys <= w.Keys
  {
  }

  lemma MissingLess(edges: set<Node>, more: set<Node>, keys: set<Node>, keys': set<Node>)
    requires edges <= more && keys <= keys'
    ensures |more - keys| - |more - keys'| >= |edges - keys| - |edges - keys'|
    ensures |more - keys| >= |edges - keys|
  {
    var rest := more - edges;
    Parts(edges, rest, more, keys);
    Parts(edges, rest, more, keys');
    SubsetSize(rest - keys', rest - keys);
  }

  lemma Parts(a: set<Node>, b: set<Node>, c: set<Node>, keys: set<Node>)
    requires a + b == c && a !! b
    ensures |c - keys| == |a - keys| + |b - keys|
  {
    assert c - keys == (a - keys) + (b - keys);
  }

  // ---------------------------------------------------------------- pages outside the tree

  lemma KeysOf(mem: Memory, mem': Memory, lost: set<nat>)
    requires lost <= mem.Keys && lost <= mem'.Keys && mem - lost == mem' - lost
    ensures mem.Keys == mem'.Keys
  {
    assert mem.Keys == (mem - lost).Keys + lost && mem'.Keys == (mem' - lost).Keys + lost;
  }

  lemma StoreInRest(mem: Memory, lost: set<nat>, t: nat, i: nat, d: nat)
    requires t in mem && t !in lost && i < |mem[t]|
    ensures t in mem - lost && (mem - lost)[t] == mem[t]
    ensures Store(mem, t, i, d) - lost == Store(mem - lost, t, i, d)
  {
  }

  // ---------------------------------------------------------------- the operations

  class PageTable {
    var mem: Memory
    const root: nat
    /** The pages the allocator may hand out for tables. */
    const managed: set<nat>
    ghost var view: View
    /** Table pages that were cut off when a leaf was written over the entry above them: never reached nor freed
        again. */
    ghost var leaked: set<nat>

    /** The pages of the tree. */
    ghost function Kept(): Memory
      reads this
    {
      mem - leaked
    }

    /** All but the emptiness of tables, which is suspended while a path is being built or pruned. */
    ghost predicate Sound()
      reads this
    {
      && root !in managed
      && (forall p <- managed :: PageAddress(p) && p > 0)
      && Closed(view, root)
      && GoodAddresses(view)
      && leaked <= mem.Keys
      && Tied(Kept(), root, view)
    }

    ghost predicate Valid()
      reads this
    {
      Sound() && NoEmptyTable(view)
    }

    ghost function FreePages(): set<nat>
      reads this
    {
      managed - mem.Keys
    }

    /** A tree without entries; the boot code's static tables are set up this way. */
    constructor (root: nat, managed: set<nat>)
      requires root !in managed && forall p <- managed :: PageAddress(p) && p > 0
      ensures Valid() && this.root == root && this.managed == managed && view == map[] && leaked == {}
    {
      this.root := root;
      this.managed := managed;
      this.mem := map[root := seq(ENTRIES, _ => 0)];
      this.view := map[];
      this.leaked := {};
    }

    /** The tree that is in memory already. */
    constructor Over(root: nat, managed: set<nat>, mem: Memory, ghost view: View)
      requires root !in managed && forall p <- managed :: PageAddress(p) && p > 0
      requires Closed(view, root) && GoodAddresses(view) && NoEmptyTable(view) && Tied(mem, root, view)
      ensures Valid() && this.root == root && this.managed == managed && this.view == view && this.mem == mem
        && leaked == {}
    {
      this.root, this.managed, this.mem, this.view, this.leaked := root, managed, mem, view, {};
      new;
      assert mem - {} == mem;
    }

    lemma SoundFacts()
      requires Sound()
      ensures root !in managed && leaked <= mem.Keys && forall n <- view :: n.level < LEVELS
      ensures Closed(view, root) && GoodAddresses(view) && Tied(Kept(), root, view)
    {
    }

    /** What the entry of cur reads as. */
    lemma ReadFacts(cur: nat, level: nat, table: nat)
      requires Sound() && level < LEVELS && Walk(view, root, cur, level, table)
      ensures table in mem && |mem[table]| == ENTRIES
      ensures var n, d := NodeAt(cur, level), mem[table][AddressIndex(cur, level)];
        && (IsLeafEntry(d, level) <==> IsLeaf(view, n))
        && (IsTableEntry(d, level) <==> n in view && view[n].Table?)
        && (IsLeafEntry(d, level) ==> GetAddressFromDescriptor(d) == view[n].pa)
        && (IsTableEntry(d, level) ==> level < 3 && GetAddressFromDescriptor(d) == DropLowBits(d) == view[n].addr)
        && (n !in view <==> d == 0)
        && (!IsLeafEntry(d, level) && !IsTableEntry(d, level) ==> n !in view)
      ensures HasSlot(view, NodeAt(cur, level)) && table == TableOf(view, root, NodeAt(cur, level))
    {
      EntryInTable(Kept(), root, view, NodeAt(cur, level));
      DescriptorDecodes(view, NodeAt(cur, level));
    }

    /** page_table_virtual_to_physical: the walk finds the leaf of the address, or 0. Bits from 48 up do not count. */
    method VirtualToPhysical(a: nat) returns (r: nat)
      requires Sound()
      ensures r == Translate(view, a % PHYS_LIMIT)
    {
      hide Closed, NodeAt, Walk, Translate, IsLeaf, Sound, Or, Span;
      ghost var b := a % PHYS_LIMIT;
      SpanOfPage();
      SoundFacts();
      WalkAtRoot(view, root, b);
      var table := root;
      var level := 0;
      while level <= 3
        invariant level <= 3 && Walk(view, root, b, level, table)
        decreases 4 - level
      {
        LowBitsOnly(a, level);
        ReadFacts(b, level, table);
        WalkEnds(view, root, b, level, table);
        var entry := mem[table][AddressIndex(a, level)];
        if IsTableEntry(entry, level) {
          WalkDown(view, root, b, level, table);
          table := GetAddressFromDescriptor(entry);
        } else if IsLeafEntry(entry, level) {
          return Or(GetAddressFromDescriptor(entry), a % Span(level));
        } else {
          return 0;
        }
        level := level + 1;
      }
      assert false;
    }

    /** page_table_alignment: the largest blocks that can begin at the address. */
    static method Alignment(address: nat) returns (r: int)
      ensures r == -1 <==> address % PAGE_SIZE != 0
      ensures -1 <= r <= 3
      ensures r >= 0 ==> address % Span(r) == 0 && (r > 0 ==> address % Span(r - 1) != 0)
    {
      hide Span;
      SpanOfPage();
      var level := 3;
      while level >= 0
        invariant -1 <= level <= 3
        invariant level < 3 ==> address % Span(level + 1) == 0 && address % PAGE_SIZE == 0
      {
        if address % Span(level) != 0 {
          if level == 3 {
            return -1;
          }
          return level + 1;
        }
        level := level - 1;
      }
      return level + 1;
    }

    /** A zeroed page is taken and a descriptor for it put into the empty entry (page_table_insert_table_descriptor). */
    method InsertTable(table: nat, target: nat, level: nat) returns (page: nat)
      requires Sound() && level < 3 && FreePages() != {}
      requires HasSlot(view, NodeAt(target, level)) && NodeAt(target, level) !in view
      requires table == TableOf(view, root, NodeAt(target, level))
      modifies `mem, `view
      ensures Sound() && view == old(view)[NodeAt(target, level) := Table(page)]
      ensures page in old(FreePages()) && FreePages() == old(FreePages()) - {page}
    {
      hide Tied, Closed, TableOf;
      ghost var n := NodeAt(target, level);
      page :| page in managed && page !in mem;
      TiedAfterTable(Kept(), root, view, n, page);
      mem := mem[page := seq(ENTRIES, _ => 0)];
      assert mem - leaked == old(Kept())[page := ZeroPage()];
      StoreInRest(mem, leaked, table, AddressIndex(target, level), TableDescriptor(page));
      mem := Store(mem, table, AddressIndex(target, level), TableDescriptor(page));
      view := view[n := Table(page)];
    }

    /** A leaf descriptor is put into the entry, whatever it was before (page_table_insert_descriptor). */
    method InsertLeaf(table: nat, pa: nat, va: nat, level: nat)
      requires Sound() && level < LEVELS && PageAddress(pa)
      requires HasSlot(view, NodeAt(va, level)) && table == TableOf(view, root, NodeAt(va, level))
      modifies `mem, `view, `leaked
      ensures Sound() && view == Overwrite(old(view), NodeAt(va, level), Leaf(pa))
      ensures mem.Keys == old(mem.Keys) && leaked == old(leaked) + CutOff(old(view), NodeAt(va, level))
    {
      hide Tied, Closed, TableOf, Overwrite, CutOff, HasSlot;
      ghost var n := NodeAt(va, level);
      TiedAfterOverwrite(Kept(), root, view, n, pa);
      OverwriteClosed(view, root, n, pa);
      OverwriteGood(view, n, pa);
      CutOffIsKept(Kept(), root, view, n);
      StoreInRest(mem, leaked, table, AddressIndex(va, level), LeafDescriptor(pa, level));
      mem := Store(mem, table, AddressIndex(va, level), LeafDescriptor(pa, level));
      leaked := leaked + CutOff(view, n);
      assert Kept() == mem - old(leaked) - CutOff(view, n);
      view := Overwrite(view, n, Leaf(pa));
    }

    /** One round of page_table_map_address: the path to the block is followed or built, and the leaf written over
        whatever was at or below the block. A leaf above the block stops the round before anything is changed. */
    method MapBlock(cur: nat, alignment: nat, out: nat, ghost edges: set<Node>) returns (err: int)
      requires Valid() && cur < PHYS_LIMIT && alignment < LEVELS && PageAddress(out)
      requires PathIn(cur, alignment, edges) && Spared(edges, NodeAt(cur, alignment))
        && Spare(FreePages(), edges, view) >= 0
      modifies `mem, `view, `leaked
      ensures Valid()
      ensures err == 0 || err == -1
      ensures err == -1 <==> LeafAbove(old(view), cur, alignment)
      ensures err == -1 ==> view == old(view) && mem == old(mem) && leaked == old(leaked)
      ensures err == 0 ==>
        LeafPut(old(view), view, NodeAt(cur, alignment), out) && SameAside(old(view), view, NodeAt(cur, alignment))
      ensures err == 0 ==> leaked == old(leaked) + CutOff(old(view), NodeAt(cur, alignment))
      ensures NoLeafUnder(old(view), NodeAt(cur, alignment)) ==> Extends(old(view), view) && leaked == old(leaked)
      ensures Spare(FreePages(), edges, view) == old(Spare(FreePages(), edges, view))
    {
      hide Closed, Tied, GoodAddresses, NoEmptyTable, OnPath, TableOf, HasSlot, NodeAt, Sound, PageAddress, IsLeaf,
        Spare, PathIn, LeafAbove, NoLeafUnder, Extends, SameLeaves, LeafPut, Spared, Overwrite, CutOff, SameOffPath,
        SameAside;
      ghost var start := view;
      StartOfPath(view, root, cur);
      OffPathStart(view, NodeAt(cur, alignment));
      SoundFacts();
      var table := root;
      var i := 0;
      while i < alignment
        invariant i <= alignment
        invariant Sound() && OnPath(view, root, cur, i, table) && leaked == old(leaked)
        invariant Extends(start, view) && SameLeaves(start, view) && SameOffPath(start, view, NodeAt(cur, alignment))
        invariant i == 0 || NodeAt(cur, i - 1) in start ==> view == start && mem == old(mem)
        invariant Spare(FreePages(), edges, view) == old(Spare(FreePages(), edges, view))
      {
        SoundFacts();
        PathIsWalk(view, root, cur, i, table);
        ReadFacts(cur, i, table);
        var index := AddressIndex(cur, i);
        if IsLeafEntry(mem[table][index], i) {
          LeafInBoth(start, view, root, cur, i, alignment);
          return -1;
        } else if IsTableEntry(mem[table][index], i) {
          FollowTable(view, root, cur, i, table);
          if i > 0 && NodeAt(cur, i) in start {
            EntryAbove(start, root, cur, i);
          }
          table := DropLowBits(mem[table][index]);
        } else {
          ghost var before, free := view, FreePages();
          PageLeft(free, edges, before, cur, alignment, i);
          table := InsertTable(table, cur, i);
          BuildTable(start, before, root, cur, i, table);
          OffPathStep(start, before, cur, alignment, i, Table(table));
          PageUsed(free, table, edges, before, cur, alignment, i, Table(table));
        }
        i := i + 1;
      }
      SoundFacts();
      PathIsWalk(view, root, cur, alignment, table);
      ReadFacts(cur, alignment, table);
      PageKept(FreePages(), edges, view, NodeAt(cur, alignment), Leaf(out));
      ClosePath(start, view, root, cur, alignment, table, out);
      OffPathEnd(start, view, NodeAt(cur, alignment), out);
      if NoLeafUnder(start, NodeAt(cur, alignment)) {
        ClosePathFree(start, view, root, cur, alignment, table, out);
      }
      InsertLeaf(table, out, cur, alignment);
      err := 0;
    }

    /** The largest block that can begin at cur and ends in the interval (page_table_map_address, lines 135 to 143). */
    static method BlockLevel(cur: nat, end: nat) returns (level: nat)
      requires cur < end && cur % PAGE_SIZE == 0 && end % PAGE_SIZE == 0
      ensures Chosen(cur, end, level)
    {
      hide Span;
      SpanOfPage();
      PageFits(cur, end);
      var alignment: int := Alignment(cur);
      var blockSize := Span(alignment);
      while blockSize > end - cur
        invariant 0 <= alignment <= 3 && blockSize == Span(alignment) && cur % Span(alignment) == 0
        invariant alignment > 0 ==> cur % Span(alignment - 1) != 0 || cur + Span(alignment - 1) > end
        decreases 3 - alignment
      {
        FinerFits(cur, alignment);
        alignment := alignment + 1;
        blockSize := Span(alignment);
      }
      return alignment;
    }

    /** The words of the leaves that were written: the output address, the access flag, user access, and the kind of
        entry. */
    lemma WordsWritten(v: View, pa: nat, va: nat, end: nat)
      requires Sound() && Overlaid(v, view, pa, va, end)
      ensures forall n: Node | Maximal(n, va, end) :: var t := TableOf(view, root, n);
        && t in mem && |mem[t]| == 512
        && mem[t][n.index % 512] == pa + Base(n) - va + if n.level == 3 then 0x443 else 0x441
    {
      hide Closed, Tied, GoodAddresses, Maximal, Base;
      forall n: Node | Maximal(n, va, end)
        ensures var t := TableOf(view, root, n);
          t in mem && |mem[t]| == 512
          && mem[t][n.index % 512] == pa + Base(n) - va + if n.level == 3 then 0x443 else 0x441
      {
        assert n in view && view[n] == Leaf(pa + Base(n) - va);
        HasSlotOf(view, root, n);
        EntryInTable(Kept(), root, view, n);
      }
    }

    /** page_table_map_address, given pages for the tables that are missing: an aligned interval is written over the
        tree as its largest blocks, unless a leaf lies above one of these blocks; then the blocks before it are
        written and the rest is left as it was. Where no leaf is overwritten every entry stays and no page is lost. */
    method MapAddress(pa: nat, va: nat, size: nat) returns (err: int)
      requires Valid() && va + size <= PHYS_LIMIT && pa + size <= PHYS_LIMIT
      requires Spare(FreePages(), TablesFor(va, size), view) >= 0
      modifies `mem, `view, `leaked
      ensures Valid()
      ensures err == 0 || err == -1
      ensures err == 0 <==> !Misaligned(pa, va, size) && !Conflict(old(view), va, va + size)
      ensures err == 0 ==> Overlaid(old(view), view, pa, va, va + size)
      ensures err == 0 ==> forall n: Node | Maximal(n, va, va + size) :: var t := TableOf(view, root, n);
        && t in mem && |mem[t]| == 512
        && mem[t][n.index % 512] == pa + Base(n) - va + if n.level == 3 then 0x443 else 0x441
      ensures err == 0 ==> leaked == old(leaked) + Lost(old(view), va, va + size)
      ensures Misaligned(pa, va, size) ==> view == old(view) && mem == old(mem) && leaked == old(leaked)
      ensures err == -1 && !Misaligned(pa, va, size) ==> exists lost: set<nat> ::
        leaked == old(leaked) + lost && StoppedAtConflict(old(view), view, lost, pa, va, va + size)
      ensures NoOverwrite(old(view), va, va + size) ==> Extends(old(view), view) && leaked == old(leaked)
      ensures Spare(FreePages(), TablesFor(va, size), view) == old(Spare(FreePages(), TablesFor(va, size), view))
    {
      hide Closed, Tied, GoodAddresses, NoEmptyTable, NodeAt, Sound, Spare, PathIn, LeafAbove, NoLeafUnder, Extends,
        LeafPut, Progress, NoOverwrite, Overlaid, Maximal, Boundary, IsLeaf, Chosen, Span, Base, EdgeTables,
        PageAddress, Misaligned, FreePages, Up, Above, Covers, Conflict, ConflictAt, StoppedAtConflict, Spared, Lost,
        SameAhead, SameAside, CutOff;
      AlignmentFacts(pa, va, size);
      ExtendsTrans(view, view, view);
      if pa % PAGE_SIZE != 0 || va % PAGE_SIZE != 0 || size % PAGE_SIZE != 0 {
        return -1;
      }
      SoundFacts();
      ghost var start, end := view, va + size;
      ghost var edges := TablesFor(va, size);
      ProgressAtStart(view, pa, va, end);
      LostAtStart(view, va, end);
      var cur := va;
      while cur < va + size
        invariant Valid() && Progress(start, view, pa, va, end, cur)
        invariant va <= cur <= end && cur % PAGE_SIZE == 0
        invariant leaked == old(leaked) + Lost(start, va, cur) && SameAhead(start, view, va, end, cur)
        invariant NoOverwrite(start, va, end) ==> Extends(start, view) && leaked == old(leaked)
        invariant Spare(FreePages(), edges, view) == old(Spare(FreePages(), edges, view))
      {
        var alignment := BlockLevel(cur, va + size);
        ChosenStep(cur, end, alignment, pa, va);
        BlockChosen(start, view, pa, va, end, cur, alignment, edges);
        SoundFacts();
        ghost var before := view;
        var out := pa + (cur - va);
        err := MapBlock(cur, alignment, out, edges);
        if err != 0 {
          StopsHere(start, before, pa, va, end, cur, alignment);
          return -1;
        }
        ProgressStep(start, before, view, pa, va, end, cur, alignment);
        BlockEnd(cur, alignment);
        LostStep(start, before, view, va, end, NodeAt(cur, alignment));
        if NoOverwrite(start, va, end) {
          ExtendsTrans(start, before, view);
        }
        cur := cur + Span(alignment);
      }
      assert cur == end;
      assert Progress(start, view, pa, va, end, end);
      ProgressAtEnd(start, view, pa, va, end);
      SoundFacts();
      WordsWritten(start, pa, va, end);
      return 0;
    }

    /** prune_if_empty: an empty table is taken out of the table above it and its page given back. */
    method PruneIfEmpty(parent: nat, child: nat, ghost n: Node)
      requires Sound() && n in view && view[n] == Table(child) && parent == TableOf(view, root, n)
      modifies `mem, `view
      ensures Sound()
      ensures HasChild(old(view), n) ==> view == old(view) && mem == old(mem)
      ensures !HasChild(old(view), n) ==> view == old(view) - {n} && mem.Keys == old(mem.Keys) - {child}
    {
      hide Tied, Closed, TableOf;
      ChildIsEntry(Kept(), root, view, n);
      var i := 0;
      while i < ENTRIES
        invariant i <= ENTRIES && forall j | 0 <= j < i :: mem[child][j] == 0
      {
        if mem[child][i] != 0 {
          return;
        }
        i := i + 1;
      }
      OnlyEntryOf(Kept(), root, view, n, n.index % 512);
      i := 0;
      while i < ENTRIES
        invariant i <= n.index % 512 && view == old(view) && mem == old(mem)
      {
        OnlyEntryOf(Kept(), root, view, n, i);
        if DropLowBits(mem[parent][i]) == child {
          TiedAfterDrop(Kept(), root, view, n);
          StoreInRest(mem, leaked, parent, i, 0);
          assert Store(mem, parent, i, 0) - {child} - leaked == Store(mem, parent, i, 0) - leaked - {child};
          mem := Store(mem, parent, i, 0) - {child};
          view := view - {n};
          return;
        }
        i := i + 1;
      }
      assert false;
    }

    lemma ReadTrail(cur: nat, level: nat, tables: seq<nat>)
      requires Sound() && level < LEVELS && Trail(view, root, cur, level, tables)
      ensures |tables| == LEVELS && tables[level] in mem && |mem[tables[level]]| == ENTRIES
      ensures tables[level] == TableOf(view, root, NodeAt(cur, level)) && HasSlot(view, NodeAt(cur, level))
      ensures var n, d := NodeAt(cur, level), mem[tables[level]][AddressIndex(cur, level)];
        && (IsLeafEntry(d, level) <==> IsLeaf(view, n))
        && (IsTableEntry(d, level) <==> n in view && view[n].Table?)
        && (IsTableEntry(d, level) ==> level < 3 && DropLowBits(d) == view[n].addr)
        && (!IsLeafEntry(d, level) && !IsTableEntry(d, level) ==> n !in view)
    {
      TrailTable(view, root, cur, level, tables);
      EntryInTable(Kept(), root, view, NodeAt(cur, level));
      DescriptorDecodes(view, NodeAt(cur, level));
    }

    /** The entry of the leaf is zeroed. */
    method ClearLeaf(table: nat, cur: nat, level: nat)
      requires Sound() && level < LEVELS && IsLeaf(view, NodeAt(cur, level))
      requires table == TableOf(view, root, NodeAt(cur, level))
      modifies `mem, `view
      ensures Sound() && view == old(view) - {NodeAt(cur, level)} && mem.Keys == old(mem.Keys)
    {
      hide Tied, Closed, TableOf;
      TiedAfterClear(Kept(), root, view, NodeAt(cur, level));
      StoreInRest(mem, leaked, table, AddressIndex(cur, level), 0);
      mem := Store(mem, table, AddressIndex(cur, level), 0);
      view := view - {NodeAt(cur, level)};
    }

    /** One round of page_table_unmap_address: the leaf that cur passes through is removed and the tables this empties
        are pruned, up to the root. Without a leaf the round only reports the level at which the walk ended. */
    method UnmapBlock(cur: nat) returns (i: nat)
      requires Valid() && cur < PHYS_LIMIT
      modifies `mem, `view
      ensures Valid() && i < LEVELS && mem.Keys <= old(mem.Keys)
      ensures Mapped(old(view), cur) ==>
        IsLeaf(old(view), NodeAt(cur, i)) && LeafRemoved(old(view), view, NodeAt(cur, i))
      ensures !Mapped(old(view), cur) ==> NodeAt(cur, i) !in view && view == old(view) && mem == old(mem)
    {
      hide Closed, Tied, GoodAddresses, NoEmptyTable, HasChild, TableOf, HasSlot, NodeAt, Sound, IsLeaf, Mapped,
        LeafRemoved, Trail, Pruning;
      ghost var start := view;
      i := 0;
      var tables: seq<nat> := [root, 0, 0, 0];
      TrailStart(view, root, cur, tables);
      SoundFacts();
      while i <= 3
        invariant i < LEVELS && Sound() && view == start && mem == old(mem)
        invariant Trail(view, root, cur, i, tables)
      {
        ReadTrail(cur, i, tables);
        var table, index := tables[i], AddressIndex(cur, i);
        if IsLeafEntry(mem[table][index], i) {
          break;
        } else if IsTableEntry(mem[table][index], i) {
          TrailDown(view, root, cur, i, tables);
          tables := tables[i + 1 := DropLowBits(mem[table][index])];
        } else {
          TrailEndsInNothing(view, root, cur, i, tables);
          return;
        }
        i := i + 1;
      }
      ReadTrail(cur, i, tables);
      TrailEndsInLeaf(view, cur, i);
      PruningStart(view, root, cur, i, tables);
      ClearLeaf(tables[i], cur, i);
      var k := i;
      while k > 0
        invariant k <= i && Sound() && Pruning(start, view, root, cur, i, k, tables) && |tables| == LEVELS
        invariant mem.Keys <= old(mem.Keys)
      {
        SoundFacts();
        PruningTables(start, view, root, cur, i, k, tables);
        ghost var before := view;
        PruneIfEmpty(tables[k - 1], tables[k], NodeAt(cur, k - 1));
        PruningStep(start, before, view, root, cur, i, k, tables);
        k := k - 1;
      }
      SoundFacts();
      PruningEnd(start, view, root, cur, i, tables);
    }

    /** page_table_unmap_address of an interval that was mapped as a unit: its leaves go, every table this leaves
        without entries goes with them, and nothing else changes. */
    method UnmapAddress(va: nat, size: nat) returns (err: int)
      requires Valid() && va + size <= PHYS_LIMIT && MappedWhole(view, va, va + size)
      modifies `mem, `view
      ensures Valid()
      ensures err == if va % PAGE_SIZE != 0 || size % PAGE_SIZE != 0 then -1 else 0
      ensures err == -1 ==> view == old(view) && mem == old(mem)
      ensures err == 0 ==> Removed(old(view), view, va, va + size)
      ensures mem.Keys <= old(mem.Keys)
    {
      hide Sound, NoEmptyTable, Closed, Cleared, MappedWhole, Removed, NodeAt, LeafRemoved, IsLeaf, Mapped, Span;
      if va % PAGE_SIZE != 0 || size % PAGE_SIZE != 0 {
        return -1;
      }
      SpanOfPage();
      SoundFacts();
      ghost var start, end := view, va + size;
      var cur := va;
      ClearedAtStart(view, va, end);
      while cur < va + size
        invariant Valid() && Cleared(start, view, va, end, cur) && mem.Keys <= old(mem.Keys)
        decreases end - cur
      {
        ClearedFacts(start, view, va, end, cur);
        StillMapped(start, view, va, end, cur);
        ghost var before := view;
        var i := UnmapBlock(cur);
        ClearedStep(start, before, view, root, va, end, cur, i);
        cur := cur + Span(i);
      }
      ClearedFacts(start, view, va, end, cur);
      return 0;
    }

    /** Mapping an unmapped interval and unmapping it again gives back the tree with every table in it as it was, and
        every page that was taken for it. */
    method MapThenUnmap(pa: nat, va: nat, size: nat)
      requires Valid() && 0 < size && va + size <= PHYS_LIMIT && pa + size <= PHYS_LIMIT
        && Spare(FreePages(), TablesFor(va, size), view) >= 0
      requires !Misaligned(pa, va, size) && Unmapped(view, va, va + size)
      modifies `mem, `view, `leaked
      ensures Valid() && view == old(view) && Kept() == old(Kept()) && leaked == old(leaked)
        && mem.Keys == old(mem.Keys)
    {
      hide Sound, NoEmptyTable, Closed, Tied, MappedWhole, Removed, Misaligned, Overlaid, Unmapped, NoOverwrite,
        Maximal, IsLeaf, Extends, FreePages, Conflict, StoppedAtConflict, Spare, TablesFor, Progress;
      ghost var v := view;
      SoundFacts();
      AlignmentFacts(pa, va, size);
      UnmappedIsSafe(view, va, va + size);
      var err := MapAddress(pa, va, size);
      ghost var w := view;
      SoundFacts();
      OverlaidIsWhole(v, w, root, pa, va, va + size);
      err := UnmapAddress(va, size);
      SoundFacts();
      UnmapUndoesMap(v, w, view, root, pa, va, va + size);
      TiedUnique(old(Kept()), Kept(), root, view);
      KeysOf(old(mem), mem, leaked);
    }
  }
}
