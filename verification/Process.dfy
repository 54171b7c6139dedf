/** Processes that share one page table, and the switch from one to another. */
module Processes {
  import opened Radix
  import opened PageTables
  import opened Layout
  import opened Regions
  import opened AddressSpaces

  datatype ProcessState = New | Running | Waiting | Terminated | Faulted

  /** What the mappings of a process must be like for the process to be switched to: the checks of map_memory_region do
      not look at mappings that are not active. */
  ghost predicate Loadable(base: View, rs: seq<Region>) {
    AllApart(rs) && forall r <- rs :: Placeable(base, r)
  }

  /** The tree of the kernel's own mappings. */
  ghost predicate KernelTree(base: View, root: nat) {
    Closed(base, root) && NoEmptyTable(base)
  }

  lemma LoadableDrop(base: View, rs: seq<Region>, k: nat)
    requires Loadable(base, rs) && k <= |rs|
    ensures AllApart(rs[k..])
    ensures k < |rs| ==> Placeable(base, rs[k]) && forall s <- rs[..k] :: Apart(s, rs[k])
  {
    forall i, j | 0 <= i < j < |rs[k..]|
      ensures Apart(rs[k..][i], rs[k..][j])
    {
      assert Apart(rs[k + i], rs[k + j]);
    }
    if k < |rs| {
      forall s | s in rs[..k]
        ensures Apart(s, rs[k])
      {
        var i :| 0 <= i < k && rs[i] == s;
        assert Apart(rs[i], rs[k]);
      }
    }
  }

  lemma LoadablePlus(base: View, rs: seq<Region>, r: Region)
    requires Loadable(base, rs) && Placeable(base, r) && forall s <- rs :: Apart(r, s)
    ensures Loadable(base, [r] + rs)
  {
    var all := [r] + rs;
    forall i, j | 0 <= i < j < |all|
      ensures Apart(all[i], all[j])
    {
      if i == 0 {
        assert rs[j - 1] in rs;
      } else {
        assert Apart(rs[i - 1], rs[j - 1]);
      }
    }
  }

  /** The next mapping can be taken out: its region is mapped by its own leaves. */
  lemma NextIsWhole(base: View, w: View, rs: seq<Region>, k: nat)
    requires Loadable(base, rs) && k < |rs| && Composed(base, w, rs[k..])
    ensures MappedWhole(w, rs[k].va, rs[k].End()) && rs[k].End() <= PHYS_LIMIT
    ensures rs[k].va % PAGE_SIZE == 0 && rs[k].size % PAGE_SIZE == 0
  {
    LoadableDrop(base, rs, k);
    ComposedWhole(base, w, rs[k..]);
  }

  lemma NextRemoved(base: View, w: View, w': View, root: nat, rs: seq<Region>, k: nat)
    requires Loadable(base, rs) && k < |rs| && Composed(base, w, rs[k..]) && KernelTree(base, root)
    requires Closed(w', root) && Removed(w, w', rs[k].va, rs[k].End())
    ensures Composed(base, w', rs[k + 1..])
  {
    LoadableDrop(base, rs, k);
    ComposedMinus(base, w, w', root, rs[k..]);
    assert rs[k..][1..] == rs[k + 1..];
  }

  /** The next mapping can be put in: nothing of its region is mapped. */
  lemma NextIsUnmapped(base: View, w: View, rs: seq<Region>, k: nat)
    requires Loadable(base, rs) && k < |rs| && Composed(base, w, rs[..k])
    ensures Unmapped(w, rs[k].va, rs[k].End()) && NoOverwrite(w, rs[k].va, rs[k].End())
      && !Conflict(w, rs[k].va, rs[k].End())
    ensures rs[k].End() <= PHYS_LIMIT && rs[k].pa + rs[k].size <= PHYS_LIMIT
      && !Misaligned(rs[k].pa, rs[k].va, rs[k].size)
  {
    LoadableDrop(base, rs, k);
    ComposedUnmapped(base, w, rs[..k], rs[k]);
    UnmappedIsSafe(w, rs[k].va, rs[k].End());
  }

  lemma NextMapped(base: View, w: View, w': View, rs: seq<Region>, k: nat)
    requires k < |rs| && Composed(base, w, rs[..k]) && Unmapped(w, rs[k].va, rs[k].End())
    requires Extends(w, w') && Overlaid(w, w', rs[k].pa, rs[k].va, rs[k].End())
    ensures Composed(base, w', rs[..k + 1])
  {
    ComposedPlus(base, w, w', rs[..k], rs[k]);
    assert rs[..k] + [rs[k]] == rs[..k + 1];
  }

  lemma NoneLeft(base: View, w: View, root: nat, rs: seq<Region>)
    requires KernelTree(base, root) && Composed(base, w, rs) && rs == [] && Closed(w, root) && NoEmptyTable(w)
    ensures w == base
  {
    ComposedNone(base, w, root);
  }

  class Process {
    var state: ProcessState
    const pid: nat
    const addrSpace: AddressSpace

    constructor (pid: nat, addrSpace: AddressSpace)
      ensures this.pid == pid && this.addrSpace == addrSpace && state == New
    {
      this.pid, this.addrSpace := pid, addrSpace;
      state := New;
    }

    ghost predicate AllActive(active: bool)
      reads addrSpace`list, addrSpace.list`active
    {
      forall m <- addrSpace.list :: m.active == active
    }

    /** remove_process_mappings: the page table goes back to the kernel's own tree; the panic is not reached. */
    method RemoveMappings(ghost base: View)
      requires addrSpace.Valid() && addrSpace.pageTable.Valid() && AllActive(true)
      requires KernelTree(base, addrSpace.pageTable.root) && Loadable(base, addrSpace.Regions())
      requires Composed(base, addrSpace.pageTable.view, addrSpace.Regions())
      modifies addrSpace.list`active, addrSpace.pageTable`mem, addrSpace.pageTable`view
      ensures addrSpace.pageTable.Valid() && addrSpace.pageTable.view == base && AllActive(false)
    {
      hide Composed, Loadable, KernelTree, PageTable.Sound, NoEmptyTable, Closed, MappedWhole, Removed,
        AddressSpace.Valid;
      addrSpace.ListFacts(0);
      ghost var list, rs, root := addrSpace.list, addrSpace.Regions(), addrSpace.pageTable.root;
      var i := addrSpace.mappings;
      ghost var k := 0;
      assert rs[0..] == rs;
      while i != null
        invariant k <= |list| && i == At(list, k) && addrSpace.pageTable.Valid()
        invariant forall j | 0 <= j < |list| :: list[j].active == (j >= k)
        invariant Composed(base, addrSpace.pageTable.view, rs[k..])
        decreases |list| - k
      {
        addrSpace.ListFacts(k);
        NextIsWhole(base, addrSpace.pageTable.view, rs, k);
        ghost var before := addrSpace.pageTable.view;
        var err := addrSpace.UnmapMemoryRegion(i);
        if err != 0 {
          assert false;
        }
        addrSpace.pageTable.SoundFacts();
        NextRemoved(base, before, addrSpace.pageTable.view, root, rs, k);
        i := i.next;
        k := k + 1;
      }
      addrSpace.pageTable.SoundFacts();
      NoneLeft(base, addrSpace.pageTable.view, root, rs[k..]);
    }

    /** restore_process_mappings: all mappings of the process are put on top of the kernel's own tree; the panic is not
        reached. */
    method RestoreMappings(ghost base: View)
      requires addrSpace.Valid() && addrSpace.pageTable.Valid() && AllActive(false)
      requires Loadable(base, addrSpace.Regions()) && addrSpace.pageTable.view == base
      requires |addrSpace.pageTable.FreePages()| >= 6 * |addrSpace.list|
      modifies addrSpace.list`active, addrSpace.pageTable`mem, addrSpace.pageTable`view, addrSpace.pageTable`leaked
      ensures addrSpace.pageTable.Valid() && AllActive(true)
        && addrSpace.pageTable.leaked == old(addrSpace.pageTable.leaked)
      ensures Composed(base, addrSpace.pageTable.view, addrSpace.Regions())
    {
      hide Composed, Loadable, PageTable.Sound, PageTable.FreePages, NoEmptyTable, Closed, Unmapped, Overlaid, Extends,
        NoOverwrite, Conflict, Misaligned, AddressSpace.Valid, Spare, TablesFor, StoppedAtConflict;
      addrSpace.ListFacts(0);
      ghost var list, rs := addrSpace.list, addrSpace.Regions();
      var i := addrSpace.mappings;
      ghost var k := 0;
      assert rs[..0] == [];
      ComposedWithNone(base);
      while i != null
        invariant k <= |list| && i == At(list, k) && addrSpace.pageTable.Valid()
        invariant forall j | 0 <= j < |list| :: list[j].active == (j < k)
        invariant Composed(base, addrSpace.pageTable.view, rs[..k])
        invariant addrSpace.pageTable.leaked == old(addrSpace.pageTable.leaked)
        invariant |addrSpace.pageTable.FreePages()| >= 6 * (|list| - k)
        decreases |list| - k
      {
        addrSpace.ListFacts(k);
        NextIsUnmapped(base, addrSpace.pageTable.view, rs, k);
        ghost var before := addrSpace.pageTable.view;
        ghost var free := addrSpace.pageTable.FreePages();
        SixPages(free, before, free, before, rs[k].va, rs[k].size);
        var err := addrSpace.MapMemoryRegion(i);
        if err != 0 {
          assert false;
        }
        SixPages(free, before, addrSpace.pageTable.FreePages(), addrSpace.pageTable.view, rs[k].va, rs[k].size);
        NextMapped(base, before, addrSpace.pageTable.view, rs, k);
        i := i.next;
        k := k + 1;
      }
      assert rs[..k] == rs;
    }
  }

  /** The pages the tables of a tree take. */
  ghost function PagesOf(root: nat, v: View): set<nat> {
    {root} + set n | n in v && v[n].Table? :: v[n].addr
  }

  lemma MemoryIsPages(mem: Memory, root: nat, v: View)
    requires Tied(mem, root, v)
    ensures mem.Keys == PagesOf(root, v)
  {
    forall a
      ensures a in mem <==> a in PagesOf(root, v)
    {
      assert a in mem ==> IsTableAt(v, root, a);
    }
  }

  ghost predicate DisjointLists(p: Process, q: Process)
    reads p.addrSpace`list, q.addrSpace`list
  {
    p.addrSpace != q.addrSpace && forall m :: !(m in p.addrSpace.list && m in q.addrSpace.list)
  }

  class Kernel {
    var current: Process
    /** The process list, newest process first. */
    var processes: seq<Process>
    var globalPidCounter: nat
    const table: PageTable
    ghost const base: View
    /** Table pages that were already lost at start-up; process switches lose no more. */
    ghost const lost: set<nat>

    ghost function Spaces(): set<AddressSpace>
      reads `processes
    {
      set p <- processes :: p.addrSpace
    }

    ghost function Mappings(): set<AddressMapping>
      reads `processes, Spaces()`list
    {
      set s, m | s in Spaces() && m in s.list :: m
    }

    lemma InFrame(p: Process)
      requires p in processes
      ensures p.addrSpace in Spaces() && forall m <- p.addrSpace.list :: m in Mappings()
    {
      assert p.addrSpace in Spaces();
    }

    /** Pages that are left for tables when only the kernel's own mappings are in place. */
    ghost function Budget(): nat {
      |table.managed - PagesOf(table.root, base) - lost|
    }

    /** One process runs, and just its mappings are active. */
    ghost predicate OneRuns()
      reads `processes, `current, processes`state, Spaces()`list, Mappings()`active
    {
      && current in processes
      && (forall p <- processes :: p.state == Running <==> p == current)
      && forall p <- processes :: InFrame(p); p.AllActive(p == current)
    }

    /** The mappings of p can be put in place when p is to run. */
    ghost predicate Fits(p: Process)
      reads p.addrSpace`list, p.addrSpace`mappings, p.addrSpace.list`next, p.addrSpace.list`prev
    {
      && p.addrSpace.pageTable == table && p.addrSpace.Valid()
      && Loadable(base, p.addrSpace.Regions()) && 6 * |p.addrSpace.list| <= Budget()
    }

    ghost predicate WellKept()
      reads `processes, Spaces()`list, Spaces()`mappings, Mappings()`next, Mappings()`prev
    {
      && (forall p <- processes :: InFrame(p); Fits(p))
      && (forall p, q | p in processes && q in processes && p != q :: DisjointLists(p, q))
    }

    /** The page table has the kernel's own mappings and those of the running process. */
    ghost predicate Valid()
      reads `processes, `current, processes`state, Spaces(), Mappings(), table
    {
      && WellKept() && OneRuns()
      && table.Valid() && table.leaked == lost && KernelTree(base, table.root)
      && Composed(base, table.view, current.addrSpace.Regions())
    }

    /** The kernel process of start-up: it has no mappings of its own and runs. */
    constructor (table: PageTable)
      requires table.Valid()
      ensures Valid() && processes == [current] && this.table == table && base == table.view
        && current.addrSpace.list == []
      ensures current.pid == 1 && globalPidCounter == 2 && current.state == Running
    {
      hide Composed, Closed, NoEmptyTable, OneRuns, Valid, Fits, WellKept, Process.AllActive, Loadable, DisjointLists,
        PageTable.Sound, PageTable.FreePages, Budget;
      this.table, this.base, this.lost := table, table.view, table.leaked;
      var space := new AddressSpace(table);
      var p := new Process(1, space);
      current, processes, globalPidCounter := p, [p], 2;
      new;
      table.SoundFacts();
      current.state := Running;
      ComposedWithNone(base);
      FitsWithout(p);
      KeptAlone(p);
      RunFactsBack();
      ValidBack();
    }

    /** allocate_process: a new process without mappings, not started yet, at the head of the process list; or, when one
        of its allocations fails, null and nothing else. Which allocations succeed is a parameter. */
    method AllocateProcess(record: bool, addrSpace: bool, kernThread: bool, userThread: bool) returns (p: Process?)
      requires Valid()
      modifies `processes, `globalPidCounter
      ensures Valid()
      ensures p != null <==> record && addrSpace && kernThread && userThread
      ensures p == null ==> processes == old(processes) && globalPidCounter == old(globalPidCounter)
      ensures p != null ==> fresh(p) && processes == [p] + old(processes) && p.addrSpace.list == []
      ensures p != null ==>
        p.state == New && p.pid == old(globalPidCounter) && globalPidCounter == old(globalPidCounter) + 1
    {
      hide Composed, Loadable, KernelTree, PageTable.Valid, Fits, Process.AllActive, Valid, OneRuns;
      ValidFacts();
      RunFacts();
      if !record {
        return null;
      }
      if !addrSpace {
        return null;
      }
      if !kernThread {
        return null;
      }
      if !userThread {
        return null;
      }
      var space := new AddressSpace(table);
      p := new Process(globalPidCounter, space);
      globalPidCounter := globalPidCounter + 1;
      processes := [p] + processes;
      FitsWithout(p);
      RunFactsBack();
      ValidBack();
    }

    lemma KeptAlone(p: Process)
      requires processes == [p] && Fits(p)
      ensures WellKept()
    {
      hide Fits;
    }

    lemma FitsWithout(p: Process)
      requires p.addrSpace.pageTable == table && p.addrSpace.Valid() && p.addrSpace.list == []
      ensures Fits(p) && p.AllActive(false) && p.AllActive(true)
    {
    }

    /** switch_to_process */
    method SwitchToProcess(p: Process, newState: ProcessState)
      requires Valid() && p in processes && newState != Running
      modifies `current, current`state, p`state, current.addrSpace.list`active, p.addrSpace.list`active
      modifies table`mem, table`view, table`leaked
      ensures Valid() && current == p
      ensures old(current) != p ==> old(current).state == newState
    {
      hide Composed, Loadable, KernelTree, PageTable.Sound, NoEmptyTable, Fits, DisjointLists, Process.AllActive, Quiet,
        Loaded, AddressSpace.Valid, Valid, OneRuns, WellKept;
      ValidFacts();
      RunFacts();
      Unload();
      Load(p);
      LoadedFacts(p);
      current.state := newState;
      current := p;
      current.state := Running;
      RunFactsBack();
      ValidBack();
    }

    /** No process has its mappings in the page table. */
    ghost predicate Quiet()
      reads `processes, Spaces()`list, Mappings()`active, table
    {
      && table.Valid() && table.view == base && table.leaked == lost
      && forall p <- processes :: InFrame(p); p.AllActive(false)
    }

    ghost predicate Loaded(p: Process)
      reads `processes, Spaces()`list, Mappings()`active, table, p.addrSpace`list
    {
      && table.Valid() && table.leaked == lost && Composed(base, table.view, p.addrSpace.Regions())
      && forall q <- processes :: InFrame(q); q.AllActive(q == p)
    }

    lemma LoadedFacts(p: Process)
      requires Loaded(p)
      ensures table.Valid() && table.leaked == lost && Composed(base, table.view, p.addrSpace.Regions())
      ensures forall q <- processes :: q.AllActive(q == p)
    {
    }

    method Unload()
      requires Valid()
      modifies current.addrSpace.list`active, table`mem, table`view
      ensures WellKept() && Quiet()
    {
      hide Composed, Loadable, KernelTree, PageTable.Sound, NoEmptyTable, Fits, AddressSpace.Valid, Valid;
      ValidFacts();
      KeptFacts(current);
      current.RemoveMappings(base);
    }

    method Load(p: Process)
      requires WellKept() && Quiet() && p in processes
      modifies p.addrSpace.list`active, table`mem, table`view, table`leaked
      ensures WellKept() && Loaded(p)
    {
      hide Composed, Loadable, PageTable.Sound, PageTable.FreePages, NoEmptyTable, Fits, AddressSpace.Valid;
      KeptFacts(p);
      PagesAfterRemoval();
      p.RestoreMappings(base);
    }

    lemma KeptFacts(p: Process)
      requires WellKept() && p in processes
      ensures p.addrSpace.pageTable == table && p.addrSpace.Valid()
      ensures Loadable(base, p.addrSpace.Regions()) && 6 * |p.addrSpace.list| <= Budget()
      ensures forall q <- processes :: Fits(q) && (q != p ==> DisjointLists(q, p))
    {
    }

    lemma RunFacts()
      requires OneRuns()
      ensures current in processes && forall p <- processes ::
        (p.state == Running <==> p == current) && p.AllActive(p == current)
    {
    }

    lemma RunFactsBack()
      requires current in processes
      requires forall p <- processes :: (p.state == Running <==> p == current) && p.AllActive(p == current)
      ensures OneRuns()
    {
    }

    /** A mapping is made for a process that is not running (create_memory_region); the caller has to see to it that it
        can be put in place beside the others. */
    method CreateMapping(p: Process, vaddr: nat, paddr: nat, size: nat) returns (m: AddressMapping)
      requires Valid() && p in processes && p != current
      requires Placeable(base, Region(vaddr, paddr, size)) && 6 * |p.addrSpace.list| + 6 <= Budget()
      requires forall r <- p.addrSpace.Regions() :: Apart(Region(vaddr, paddr, size), r)
      modifies p.addrSpace`mappings, p.addrSpace`list, p.addrSpace.Head()`prev
      ensures Valid() && p.addrSpace.list == [m] + old(p.addrSpace.list) && m.region == Region(vaddr, paddr, size)
    {
      hide Composed, Loadable, KernelTree, PageTable.Valid, Placeable, AddressSpace.Valid, WellKept, OneRuns,
        DisjointLists, Fits, Process.AllActive;
      RunFacts();
      KeptFacts(p);
      ghost var before := p.addrSpace.list;
      p.addrSpace.HeadIsListed();
      forall q | q in processes && q != p
        ensures q.addrSpace != p.addrSpace && forall m <- q.addrSpace.list :: m !in before
      {
        Elsewhere(q, p);
      }
      m := p.addrSpace.CreateMemoryRegion(vaddr, paddr, size, true);
      forall q | q in processes
        ensures Fits(q) && q.AllActive(q == current)
      {
        if q == p {
          FitsMore(p, m);
        } else {
          FitsStays(q);
        }
      }
      ApartStill(p, m);
      RunFactsBack();
    }

    lemma Elsewhere(q: Process, p: Process)
      requires DisjointLists(q, p)
      ensures q.addrSpace != p.addrSpace && forall m <- q.addrSpace.list :: m !in p.addrSpace.list
    {
    }

    twostate lemma FitsMore(p: Process, new m: AddressMapping)
      requires old(Fits(p)) && old(p.AllActive(false)) && p.addrSpace.Valid()
        && p.addrSpace.list == [m] + old(p.addrSpace.list)
      requires (forall x <- old(p.addrSpace.list) :: x.active == old(x.active)) && !m.active
      requires Placeable(base, m.region) && 6 * |p.addrSpace.list| <= Budget()
      requires forall r <- old(p.addrSpace.Regions()) :: Apart(m.region, r)
      ensures Fits(p) && p.AllActive(false)
    {
      hide Loadable, Placeable, AddressSpace.Valid;
      LoadablePlus(base, old(p.addrSpace.Regions()), m.region);
      assert p.addrSpace.Regions() == [m.region] + old(p.addrSpace.Regions());
    }

    twostate lemma FitsStays(q: Process)
      requires old(Fits(q)) && q.addrSpace.list == old(q.addrSpace.list)
        && q.addrSpace.mappings == old(q.addrSpace.mappings)
      requires forall m <- q.addrSpace.list ::
        m.next == old(m.next) && m.prev == old(m.prev) && m.active == old(m.active)
      ensures Fits(q) && forall active :: old(q.AllActive(active)) ==> q.AllActive(active)
    {
    }

    twostate lemma ApartStill(p: Process, new m: AddressMapping)
      requires old(WellKept()) && processes == old(processes) && p in processes && forall q <- processes :: Fits(q)
      requires fresh(m) && p.addrSpace.list == [m] + old(p.addrSpace.list)
      requires forall q <- processes :: q != p ==> q.addrSpace.list == old(q.addrSpace.list)
      ensures WellKept()
    {
      hide Fits;
      forall q, r | q in processes && r in processes && q != r
        ensures DisjointLists(q, r)
      {
        assert old(DisjointLists(q, r));
      }
    }

    /** Before step i of the schedule p runs, before the first the process that runs at the start. */
    static ghost predicate RunsBefore(schedule: seq<(Process, ProcessState)>, first: Process, p: Process, i: int)
      requires 0 <= i <= |schedule|
    {
      p == if i == 0 then first else schedule[i - 1].0
    }

    /** The last of the first n steps that switches away from p, or -1. */
    static ghost function LastLeft(schedule: seq<(Process, ProcessState)>, first: Process, p: Process, n: nat): (i: int)
      requires n <= |schedule|
      ensures -1 <= i < n && (i >= 0 ==> RunsBefore(schedule, first, p, i))
      ensures forall j | i < j < n :: !RunsBefore(schedule, first, p, j)
    {
      if n == 0 then -1
      else if RunsBefore(schedule, first, p, n - 1) then n - 1
      else LastLeft(schedule, first, p, n - 1)
    }

    /** The state p is in when it does not run after n steps: that of the last switch away from it, or its old one. */
    static ghost function StateLeft(schedule: seq<(Process, ProcessState)>, first: Process, p: Process, n: nat,
        before: ProcessState): ProcessState
      requires n <= |schedule|
    {
      var i := LastLeft(schedule, first, p, n);
      if i < 0 then before else schedule[i].1
    }

    static lemma StateLeftNext(schedule: seq<(Process, ProcessState)>, first: Process, p: Process, n: nat,
        before: ProcessState)
      requires n < |schedule|
      ensures StateLeft(schedule, first, p, 0, before) == before
      ensures StateLeft(schedule, first, p, n + 1, before) ==
        if RunsBefore(schedule, first, p, n) then schedule[n].1 else StateLeft(schedule, first, p, n, before)
    {
    }

    /** switch_to_process over a whole schedule: a process that does not run ends in the state it was given when it was
        last switched away from, or in its old state if it never was. */
    method Run(schedule: seq<(Process, ProcessState)>)
      requires Valid() && forall s <- schedule :: s.0 in processes && s.1 != Running
      modifies `current, processes`state, Mappings()`active, table`mem, table`view, table`leaked
      ensures Valid()
      ensures schedule != [] ==> current == schedule[|schedule| - 1].0
      ensures schedule == [] ==> current == old(current)
      ensures processes == old(processes) && current.state == Running
      ensures forall p <- old(processes) ::
        p.state == if p == current then Running else StateLeft(schedule, old(current), p, |schedule|, old(p.state))
      ensures current == old(current) ==> forall a: nat :: Translate(table.view, a) == old(Translate(table.view, a))
    {
      hide Valid, Mappings, Spaces, Translate, Composed;
      forall p | p in processes
        ensures forall m <- p.addrSpace.list :: m in Mappings()
      {
        InFrame(p);
      }
      RunsComposed();
      CurrentRuns();
      ghost var start := table.view;
      var i := 0;
      while i < |schedule|
        invariant i <= |schedule| && Valid()
        invariant if i == 0 then current == old(current) && table.view == start else current == schedule[i - 1].0
        invariant forall p <- processes ::
          p.state == if p == current then Running else StateLeft(schedule, old(current), p, i, old(p.state))
      {
        RunsComposed();
        forall p | p in processes
          ensures StateLeft(schedule, old(current), p, i + 1, old(p.state)) ==
            if p == current then schedule[i].1 else StateLeft(schedule, old(current), p, i, old(p.state))
        {
          StateLeftNext(schedule, old(current), p, i, old(p.state));
        }
        SwitchToProcess(schedule[i].0, schedule[i].1);
        CurrentRuns();
        i := i + 1;
      }
      RunsComposed();
      if current == old(current) {
        forall a: nat
          ensures Translate(table.view, a) == Translate(start, a)
        {
          ComposedTranslation(base, start, table.view, current.addrSpace.Regions(), a);
        }
      }
    }

    /** The running process sees each of its mappings, exactly as asked for when the distance between its two addresses
        is a multiple of every block size used. */
    lemma RunningSeesItsMappings(r: Region)
      requires Valid() && r in current.addrSpace.Regions()
      ensures (forall a: nat | Contains(r, a) :: Translate(table.view, a) == r.pa + (a - r.va)) <==>
        Congruent(r.pa, r.va, r.End())
    {
      KeptFacts(current);
      ComposedTranslates(base, table.view, table.root, current.addrSpace.Regions(), r);
      assert forall a: nat :: Contains(r, a) <==> r.va <= a < r.End();
    }

    /** It sees nothing of the mappings of another process. */
    lemma OthersAreHidden(q: Process, r: Region, a: nat)
      requires Valid() && q in processes && r in q.addrSpace.Regions() && Contains(r, a)
      requires forall s <- current.addrSpace.Regions() :: !Contains(s, a)
      ensures !Mapped(table.view, a) && Translate(table.view, a) == 0
    {
      KeptFacts(q);
      ComposedElsewhere(base, table.view, current.addrSpace.Regions(), a);
      assert !Mapped(base, a);
      LeafLevelMapped(table.view, a);
    }

    lemma CurrentRuns()
      requires Valid()
      ensures current in processes && current.state == Running
    {
    }

    lemma RunsComposed()
      requires Valid()
      ensures current in processes && Composed(base, table.view, current.addrSpace.Regions())
    {
    }

    lemma ValidFacts()
      requires Valid()
      ensures WellKept() && OneRuns() && table.Valid() && table.leaked == lost && KernelTree(base, table.root)
      ensures current in processes && Composed(base, table.view, current.addrSpace.Regions())
    {
    }

    lemma ValidBack()
      requires WellKept() && OneRuns() && table.Valid() && table.leaked == lost && KernelTree(base, table.root)
      requires Composed(base, table.view, current.addrSpace.Regions())
      ensures Valid()
    {
    }

    lemma PagesAfterRemoval()
      requires table.Valid() && table.view == base && table.leaked == lost
      ensures |table.FreePages()| == Budget()
    {
      MemoryIsPages(table.Kept(), table.root, base);
      assert table.FreePages() == table.managed - PagesOf(table.root, base) - lost;
    }
  }
}
