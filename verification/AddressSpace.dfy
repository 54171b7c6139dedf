/** Address spaces: lists of mappings that are put into and taken out of the page table. */
module AddressSpaces {
  import opened Radix
  import opened PageTables
  import opened Regions
  import opened Layout

  /** memory_region_overlaps */
  predicate MemoryRegionOverlaps(r: Region, rActive: bool, s: Region, sActive: bool) {
    if !rActive || !sActive then false
    else if r.va >= s.va && r.va < s.End() then true
    else if r.End() > s.va && r.End() <= s.End() then true
    else r.va < s.va && r.End() > s.End()
  }

  predicate Contains(r: Region, a: nat) {
    r.va <= a < r.End()
  }

  /** Between active regions that are not empty the test is exactly that they share an address; one that is not active
      overlaps none. */
  lemma OverlapIsSharedAddress(r: Region, s: Region)
    requires r.size > 0 && s.size > 0
    ensures MemoryRegionOverlaps(r, true, s, true) <==> exists a: nat :: Contains(r, a) && Contains(s, a)
    ensures MemoryRegionOverlaps(r, true, s, true) <==> !Apart(r, s)
    ensures forall active :: !MemoryRegionOverlaps(r, false, s, active) && !MemoryRegionOverlaps(r, active, s, false)
  {
    var a := if r.va < s.va then s.va else r.va;
    assert MemoryRegionOverlaps(r, true, s, true) ==> Contains(r, a) && Contains(s, a);
  }

  /** An overlap that map_memory_region does not notice: the first GiB is mapped over a region of 2 MiB that is mapped
      already. The overlap test would have found it, but the new mapping is not active yet. */
  lemma OverlapIsMissed()
    ensures var r, s := Region(0, 0, 0x4000_0000), Region(0, 0x60_0000, 0x20_0000);
      && MemoryRegionOverlaps(r, true, s, true) && !MemoryRegionOverlaps(r, false, s, true)
      && !Misaligned(r.pa, r.va, r.size) && !Unmapped(FirstBlock(), r.va, r.End())
        && !Conflict(FirstBlock(), r.va, r.End())
  {
    ConflictMissesSmallerLeaf();
  }

  class AddressMapping {
    var next: AddressMapping?
    var prev: AddressMapping?
    const region: Region
    var active: bool

    constructor (vaddr: nat, paddr: nat, size: nat)
      ensures region == Region(vaddr, paddr, size) && !active && next == null && prev == null
    {
      region := Region(vaddr, paddr, size);
      active, next, prev := false, null, null;
    }
  }

  ghost function At(list: seq<AddressMapping>, i: int): AddressMapping? {
    if 0 <= i < |list| then list[i] else null
  }

  ghost function RegionsOf(list: seq<AddressMapping>): (rs: seq<Region>) {
    seq(|list|, i requires 0 <= i < |list| => list[i].region)
  }

  ghost predicate Distinct(list: seq<AddressMapping>) {
    forall i, j | 0 <= i < j < |list| :: list[i] != list[j]
  }

  /** The neighbours in a list that has lost its k-th element. */
  lemma WithoutAt(list: seq<AddressMapping>, k: nat, i: nat)
    requires k < |list| && i < |list| - 1
    ensures var l := list[..k] + list[k + 1..];
      At(l, i) == At(list, if i < k then i else i + 1) && At(l, i + 1) == At(list, if i + 1 < k then i + 1 else i + 2)
    ensures At(list[..k] + list[k + 1..], i - 1) == At(list, if i - 1 < k then i - 1 else i)
  {
  }

  lemma AtEnds(list: seq<AddressMapping>, k: nat)
    requires k < |list|
    ensures At(list, k - 1) == if k > 0 then list[k - 1] else null
    ensures At(list, k + 1) == if k + 1 < |list| then list[k + 1] else null
    ensures At(list[..k] + list[k + 1..], 0) == At(list, if k > 0 then 0 else 1)
  {
  }

  ghost predicate Chained(list: seq<AddressMapping>)
    reads list`next, list`prev
  {
    forall i | 0 <= i < |list| :: list[i].next == At(list, i + 1) && list[i].prev == At(list, i - 1)
  }

  /** The address the first region with address strictly inside leads to, or 0. */
  function FirstInside(rs: seq<Region>, address: nat): nat {
    if rs == [] then 0
    else if rs[0].va < address < rs[0].End() then rs[0].pa + (address - rs[0].va)
    else FirstInside(rs[1..], address)
  }

  lemma {:induction false} NothingInside(rs: seq<Region>, address: nat)
    requires forall r <- rs :: !(r.va < address < r.End())
    ensures FirstInside(rs, address) == 0
  {
    if rs != [] {
      assert rs[0] in rs;
      NothingInside(rs[1..], address);
    }
  }

  /** For regions that are apart the lookup is the map of the region, except at its first byte: there the comparison is
      strict and the answer is 0. */
  lemma {:induction false} InsideIsTranslated(rs: seq<Region>, k: nat, address: nat)
    requires AllApart(rs) && k < |rs| && Contains(rs[k], address)
    ensures FirstInside(rs, address) == if address == rs[k].va then 0 else rs[k].pa + (address - rs[k].va)
  {
    assert forall i, j | 0 <= i < j < |rs[1..]| :: rs[1..][i] == rs[i + 1] && rs[1..][j] == rs[j + 1];
    if k > 0 {
      assert Apart(rs[0], rs[k]);
      InsideIsTranslated(rs[1..], k - 1, address);
    } else if address == rs[0].va {
      forall r | r in rs
        ensures !(r.va < address < r.End())
      {
        var i :| 0 <= i < |rs| && rs[i] == r;
        assert i > 0 ==> Apart(rs[0], rs[i]);
      }
      NothingInside(rs, address);
    }
  }

  class AddressSpace {
    var mappings: AddressMapping?
    const pageTable: PageTable
    ghost var list: seq<AddressMapping>

    ghost predicate Valid()
      reads `mappings, `list, list`next, list`prev
    {
      Distinct(list) && Chained(list) && mappings == At(list, 0)
    }

    ghost function Regions(): seq<Region>
      reads `list
    {
      RegionsOf(list)
    }

    ghost function Head(): set<AddressMapping>
      reads `mappings
    {
      if mappings == null then {} else {mappings}
    }

    /** The neighbours of the k-th mapping. */
    ghost function Before(k: nat): set<AddressMapping>
      reads `list
    {
      if 0 < k <= |list| then {list[k - 1]} else {}
    }

    ghost function After(k: nat): set<AddressMapping>
      reads `list
    {
      if k + 1 < |list| then {list[k + 1]} else {}
    }

    lemma HeadIsListed()
      requires Valid()
      ensures forall m <- Head() :: m in list
    {
    }

    lemma ListFacts(k: nat)
      requires Valid()
      ensures mappings == At(list, 0)
      ensures k < |list| ==> list[k].next == At(list, k + 1) && forall j | 0 <= j < |list| && j != k ::
        list[j] != list[k]
    {
    }

    constructor (pageTable: PageTable)
      ensures Valid() && this.pageTable == pageTable && list == []
    {
      this.pageTable := pageTable;
      mappings, list := null, [];
    }

    /** init_kernel_address_space_struct: the two mappings that are active from the start, the identity mapping
        first. */
    constructor Kernel(pageTable: PageTable)
      ensures Valid() && this.pageTable == pageTable && |list| == 2 && fresh(list[0]) && fresh(list[1])
      ensures list[0].region == Region(0, 0, RAM_BYTES) && list[1].region == Region(VA_OFFSET, 0, RAM_BYTES)
      ensures list[0].active && list[1].active
    {
      var newMap := new AddressMapping(VA_OFFSET, 0, RAM_BYTES);
      var newIdMap := new AddressMapping(0, 0, RAM_BYTES);
      this.pageTable := pageTable;
      mappings, list := newIdMap, [newIdMap, newMap];
      new;
      newIdMap.next, newIdMap.active := newMap, true;
      newMap.prev, newMap.active := newIdMap, true;
    }

    /** map_memory_region. The overlap test cannot fire, because the mapping is not active yet: whether the region is
        mapped depends on what page_table_map_address notices alone. */
    method MapMemoryRegion(map_: AddressMapping) returns (err: int)
      requires Valid() && pageTable.Valid()
      requires map_.region.End() <= PHYS_LIMIT && map_.region.pa + map_.region.size <= PHYS_LIMIT
      requires Spare(pageTable.FreePages(), TablesFor(map_.region.va, map_.region.size), pageTable.view) >= 0
      modifies map_`active, pageTable`mem, pageTable`view, pageTable`leaked
      ensures pageTable.Valid() && (err == 0 || err == 1)
      ensures var r := map_.region;
        err == 0 <==>
          !old(map_.active) && !Misaligned(r.pa, r.va, r.size) && !Conflict(old(pageTable.view), r.va, r.End())
      ensures var r := map_.region;
        err == 0 ==> Overlaid(old(pageTable.view), pageTable.view, r.pa, r.va, r.End())
      ensures old(map_.active) || Misaligned(map_.region.pa, map_.region.va, map_.region.size) ==> unchanged(pageTable)
      ensures var r := map_.region;
        err != 0 && !old(map_.active) && !Misaligned(r.pa, r.va, r.size) ==> exists lost: set<nat> ::
          pageTable.leaked == old(pageTable.leaked) + lost
          && StoppedAtConflict(old(pageTable.view), pageTable.view, lost, r.pa, r.va, r.End())
      ensures NoOverwrite(old(pageTable.view), map_.region.va, map_.region.End()) ==>
        Extends(old(pageTable.view), pageTable.view) && pageTable.leaked == old(pageTable.leaked)
      ensures map_.active == (old(map_.active) || err == 0)
      ensures var tables := TablesFor(map_.region.va, map_.region.size);
        Spare(pageTable.FreePages(), tables, pageTable.view)
          == old(Spare(pageTable.FreePages(), tables, pageTable.view))
    {
      hide PageTable.Sound, NoEmptyTable, OnPath, SameLeaves, PageTable.FreePages, Misaligned, Unmapped, Overlaid,
        NoOverwrite, Extends, Conflict, StoppedAtConflict, Spare, TablesFor, Valid;
      ListFacts(0);
      ExtendsTrans(pageTable.view, pageTable.view, pageTable.view);
      if map_.active {
        return 1;
      }
      var other := mappings;
      ghost var k := 0;
      while other != null
        invariant k <= |list| && other == At(list, k) && unchanged(pageTable) && unchanged(map_) && Valid()
        decreases |list| - k
      {
        ListFacts(k);
        if MemoryRegionOverlaps(map_.region, map_.active, other.region, other.active) {
          return 1;
        }
        other := other.next;
        k := k + 1;
      }
      err := pageTable.MapAddress(map_.region.pa, map_.region.va, map_.region.size);
      if err != 0 {
        return 1;
      }
      map_.active := true;
      return 0;
    }

    /** unmap_memory_region */
    method UnmapMemoryRegion(mapping: AddressMapping) returns (err: int)
      requires pageTable.Valid() && mapping.region.End() <= PHYS_LIMIT
      requires mapping.active ==> MappedWhole(pageTable.view, mapping.region.va, mapping.region.End())
      modifies mapping`active, pageTable`mem, pageTable`view
      ensures pageTable.Valid() && (err == 0 || err == 1)
      ensures err == 0 <==>
        !old(mapping.active) || (mapping.region.va % PAGE_SIZE == 0 && mapping.region.size % PAGE_SIZE == 0)
      ensures !old(mapping.active) || err != 0 ==>
        pageTable.view == old(pageTable.view) && pageTable.mem == old(pageTable.mem)
      ensures old(mapping.active) && err == 0 ==>
        Removed(old(pageTable.view), pageTable.view, mapping.region.va, mapping.region.End())
      ensures mapping.active == (old(mapping.active) && err != 0)
      ensures pageTable.mem.Keys <= old(pageTable.mem.Keys)
    {
      if !mapping.active {
        return 0;
      }
      err := pageTable.UnmapAddress(mapping.region.va, mapping.region.size);
      if err != 0 {
        return 1;
      }
      mapping.active := false;
      return 0;
    }

    /** create_memory_region: a new mapping, not active yet, at the head of the list; or null, when the allocation of
        its record fails. Whether it does is a parameter. */
    method CreateMemoryRegion(vaddr: nat, paddr: nat, size: nat, record: bool) returns (map_: AddressMapping?)
      requires Valid()
      modifies `mappings, `list, Head()`prev
      ensures Valid()
      ensures map_ != null <==> record
      ensures map_ == null ==> list == old(list) && mappings == old(mappings) && forall m <- list ::
        m.prev == old(m.prev)
      ensures map_ != null ==> fresh(map_) && list == [map_] + old(list) && mappings == map_
      ensures map_ != null ==> map_.region == Region(vaddr, paddr, size) && !map_.active
    {
      if !record {
        return null;
      }
      ghost var before := list;
      map_ := new AddressMapping(vaddr, paddr, size);
      if mappings != null {
        mappings.prev := map_;
      }
      map_.next := mappings;
      mappings := map_;
      list := [map_] + list;
      forall i | 0 <= i < |list|
        ensures list[i].next == At(list, i + 1) && list[i].prev == At(list, i - 1)
      {
        if i > 0 {
          assert list[i] == before[i - 1] && At(list, i + 1) == At(before, i);
          assert At(list, i - 1) == if i == 1 then map_ else At(before, i - 2);
        }
      }
    }

    /** create_memory_region_virt: the mapping leads where the kernel's page table takes the kernel address. */
    method CreateMemoryRegionVirt(vaddr: nat, kaddr: nat, size: nat, kernelPageTable: PageTable, record: bool)
        returns (map_: AddressMapping?)
      requires Valid() && kernelPageTable.Valid()
      modifies `mappings, `list, Head()`prev
      ensures Valid()
      ensures map_ == null <==> Translate(kernelPageTable.view, kaddr % PHYS_LIMIT) == 0 || !record
      ensures map_ == null ==> list == old(list) && mappings == old(mappings)
      ensures map_ != null ==> fresh(map_) && list == [map_] + old(list) && mappings == map_ && !map_.active
      ensures map_ != null ==> map_.region == Region(vaddr, Translate(kernelPageTable.view, kaddr % PHYS_LIMIT), size)
    {
      var mapTo := kernelPageTable.VirtualToPhysical(kaddr);
      if mapTo == 0 {
        return null;
      }
      map_ := CreateMemoryRegion(vaddr, mapTo, size, record);
    }

    /** The mapping is taken out of the list (unmap_and_remove_memory_region, lines 155 to 162). */
    method Unlink(mapping: AddressMapping, ghost k: nat)
      requires Valid() && k < |list| && list[k] == mapping
      modifies `mappings, `list, Before(k)`next, After(k)`prev
      ensures Valid() && list == old(list)[..k] + old(list)[k + 1..]
    {
      hide At;
      AtEnds(list, k);
      if mapping.prev != null {
        mapping.prev.next := mapping.next;
      } else {
        mappings := mapping.next;
      }
      if mapping.next != null {
        mapping.next.prev := mapping.prev;
      }
      list := list[..k] + list[k + 1..];
      forall i | 0 <= i < |list|
        ensures list[i].next == At(list, i + 1) && list[i].prev == At(list, i - 1)
      {
        ghost var j := if i < k then i else i + 1;
        WithoutAt(old(list), k, i);
        assert list[i] == old(list)[j];
        assert old(list[j].next) == At(old(list), j + 1) && old(list[j].prev) == At(old(list), j - 1);
      }
    }

    /** unmap_and_remove_memory_region */
    method UnmapAndRemoveMemoryRegion(mapping: AddressMapping, ghost k: nat) returns (err: int)
      requires Valid() && pageTable.Valid() && k < |list| && list[k] == mapping && mapping.region.End() <= PHYS_LIMIT
      requires mapping.active ==> MappedWhole(pageTable.view, mapping.region.va, mapping.region.End())
      modifies mapping`active, pageTable`mem, pageTable`view, `mappings, `list, Before(k)`next, After(k)`prev
      ensures Valid() && pageTable.Valid() && (err == 0 || err == 1)
      ensures err == 0 <==>
        !old(mapping.active) || (mapping.region.va % PAGE_SIZE == 0 && mapping.region.size % PAGE_SIZE == 0)
      ensures list == if err == 0 then old(list)[..k] + old(list)[k + 1..] else old(list)
      ensures mapping.active == (old(mapping.active) && err != 0)
      ensures !old(mapping.active) || err != 0 ==>
        pageTable.view == old(pageTable.view) && pageTable.mem == old(pageTable.mem)
      ensures old(mapping.active) && err == 0 ==>
        Removed(old(pageTable.view), pageTable.view, mapping.region.va, mapping.region.End())
      ensures pageTable.mem.Keys <= old(pageTable.mem.Keys)
    {
      err := UnmapMemoryRegion(mapping);
      if err != 0 {
        return;
      }
      Unlink(mapping, k);
    }

    /** address_space_virtual_to_physical */
    method VirtualToPhysical(address: nat) returns (r: nat)
      requires Valid()
      ensures r == FirstInside(Regions(), address)
    {
      var i := mappings;
      ghost var k := 0;
      while i != null
        invariant k <= |list| && i == At(list, k)
        invariant FirstInside(Regions(), address) == FirstInside(Regions()[k..], address)
        decreases |list| - k
      {
        assert Regions()[k..][1..] == Regions()[k + 1..];
        if address > i.region.va && address < i.region.va + i.region.size {
          return i.region.pa + (address - i.region.va);
        }
        i := i.next;
        k := k + 1;
      }
      return 0;
    }
  }
}
