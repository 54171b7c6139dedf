/** What holds of the buddy heap over whole runs of allocations and releases. */
module HeapRuns {
  import opened Blocks

  // ---------------------------------------------------------------- the forest follows from the live blocks

  ghost predicate Under(u: Block, b: Block) {
    u.order < b.order && BlockAt(Start(u), b.order) == b
  }

  ghost predicate HasLiveUnder(live: set<Block>, b: Block) {
    exists u <- live :: Under(u, b)
  }

  lemma OwnStart(b: Block)
    ensures BlockAt(Start(b), b.order) == b
  {
    HoldsIsBlockAt(b, Start(b));
  }

  /** In a canonical heap every split block has a live block under it. */
  lemma {:induction false} SplitHasLive(h: Heap, roots: set<Block>, b: Block) returns (u: Block)
    requires WellFormed(h, roots) && Canonical(h, roots)
    requires b in h && h[b] == Split
    ensures u in Live(h) && Under(u, b)
    decreases b.order
  {
    var c := if h[Left(b)] != Free then Left(b) else Right(b);
    assert c in h && h[c] != Free && Parent(c) == b;
    if h[c] == Used {
      u := c;
      OwnStart(c);
    } else {
      u := SplitHasLive(h, roots, c);
    }
    ParentAt(Start(u), c.order);
  }

  /** A live block makes every block above it split. */
  lemma LiveSplitsAbove(h: Heap, roots: set<Block>, u: Block, b: Block)
    requires WellFormed(h, roots) && u in Live(h)
    requires Under(u, b) && b.order <= MAX_ORDER
    ensures b in h && h[b] == Split
  {
    OwnStart(u);
    PathUp(h, roots, Start(u), u.order, b.order);
  }

  ghost predicate Present(roots: set<Block>, live: set<Block>, b: Block) {
    b in roots || (b.order < MAX_ORDER && HasLiveUnder(live, Parent(b)))
  }

  ghost function StatusGiven(live: set<Block>, b: Block): Status {
    if b in live then Used else if HasLiveUnder(live, b) then Split else Free
  }

  /** The block forest of a canonical heap is a function of its roots and its live blocks alone: which blocks
      exist and the state of each can be read off the live set. */
  lemma ForestFromLive(h: Heap, roots: set<Block>, b: Block)
    requires WellFormed(h, roots) && Canonical(h, roots)
    ensures b in h <==> Present(roots, Live(h), b)
    ensures b in h ==> h[b] == StatusGiven(Live(h), b)
  {
    if b in h && b !in roots {
      var u := SplitHasLive(h, roots, Parent(b));
    }
    if b.order < MAX_ORDER && HasLiveUnder(Live(h), Parent(b)) {
      var u :| u in Live(h) && Under(u, Parent(b));
      LiveSplitsAbove(h, roots, u, Parent(b));
      assert b == Left(Parent(b)) || b == Right(Parent(b));
    }
    if b in h && h[b] == Split {
      var u := SplitHasLive(h, roots, b);
    }
    if b in h && HasLiveUnder(Live(h), b) {
      var u :| u in Live(h) && Under(u, b);
      LiveSplitsAbove(h, roots, u, b);
    }
  }

  lemma SameLiveSameForest(h: Heap, g: Heap, roots: set<Block>)
    requires WellFormed(h, roots) && Canonical(h, roots)
    requires WellFormed(g, roots) && Canonical(g, roots)
    requires Live(h) == Live(g)
    ensures h == g
  {
    forall b
      ensures b in h <==> b in g
      ensures b in h ==> h[b] == g[b]
    {
      ForestFromLive(h, roots, b);
      ForestFromLive(g, roots, b);
    }
  }

  // ---------------------------------------------------------------- runs

  datatype Request = Alloc(order: nat) | Dealloc(block: Block)

  /** One served request: an allocation takes a block if one fits and otherwise changes nothing; a release of
      anything but a live block changes nothing. */
  ghost predicate Step(h: Heap, r: Request, g: Heap) {
    match r
    case Alloc(k) => if Fits(h, k) then exists b :: Allocates(h, k, b, g) else g == h
    case Dealloc(b) => g == if b in Live(h) then Release(h, b) else h
  }

  ghost predicate IsRun(hs: seq<Heap>, rs: seq<Request>) {
    |hs| == |rs| + 1 && forall i | 0 <= i < |rs| :: Step(hs[i], rs[i], hs[i + 1])
  }

  lemma StepKeeps(h: Heap, roots: set<Block>, r: Request, g: Heap)
    requires WellFormed(h, roots) && Canonical(h, roots) && Step(h, r, g)
    ensures WellFormed(g, roots) && Canonical(g, roots)
  {
    match r
    case Alloc(k) =>
      if Fits(h, k) {
        var b :| Allocates(h, k, b, g);
        AllocationStaysCanonical(h, roots, k, b, g);
      }
    case Dealloc(b) =>
      if b in Live(h) {
        ReleaseKeeps(h, roots, b);
      }
  }

  /** Every heap of a run that starts canonical is canonical. */
  lemma {:induction false} RunStaysCanonical(hs: seq<Heap>, rs: seq<Request>, roots: set<Block>, i: nat)
    requires IsRun(hs, rs) && i < |hs|
    requires WellFormed(hs[0], roots) && Canonical(hs[0], roots)
    ensures WellFormed(hs[i], roots) && Canonical(hs[i], roots)
  {
    if i > 0 {
      RunStaysCanonical(hs, rs, roots, i - 1);
      StepKeeps(hs[i - 1], roots, rs[i - 1], hs[i]);
    }
  }

  /** Whenever a run comes back to a live set it had before, the forest is back as well. In particular, freeing
      in any order all blocks allocated since the start restores the starting forest. */
  lemma RunRestoresForest(hs: seq<Heap>, rs: seq<Request>, roots: set<Block>, i: nat, j: nat)
    requires IsRun(hs, rs) && i < |hs| && j < |hs|
    requires WellFormed(hs[0], roots) && Canonical(hs[0], roots)
    requires Live(hs[i]) == Live(hs[j])
    ensures hs[i] == hs[j]
  {
    RunStaysCanonical(hs, rs, roots, i);
    RunStaysCanonical(hs, rs, roots, j);
    SameLiveSameForest(hs[i], hs[j], roots);
  }

  function ReleaseAll(h: Heap, bs: seq<Block>): Heap
    decreases |bs|
  {
    if bs == [] then h else ReleaseAll(Release(h, bs[0]), bs[1..])
  }

  ghost function Elements(bs: seq<Block>): set<Block> {
    set b <- bs
  }

  ghost predicate Distinct(bs: seq<Block>) {
    forall i, j | 0 <= i < j < |bs| :: bs[i] != bs[j]
  }

  lemma {:induction false} ReleaseAllKeeps(h: Heap, roots: set<Block>, bs: seq<Block>)
    requires WellFormed(h, roots) && Canonical(h, roots)
    requires Distinct(bs) && Elements(bs) <= Live(h)
    ensures WellFormed(ReleaseAll(h, bs), roots) && Canonical(ReleaseAll(h, bs), roots)
    ensures Live(ReleaseAll(h, bs)) == Live(h) - Elements(bs)
    decreases |bs|
  {
    if bs != [] {
      assert bs[0] in Elements(bs);
      ReleaseKeeps(h, roots, bs[0]);
      assert Elements(bs) == {bs[0]} + Elements(bs[1..]);
      ReleaseAllKeeps(Release(h, bs[0]), roots, bs[1..]);
    }
  }

  /** Releasing some live blocks leaves the same forest in whatever order they are released. */
  lemma ReleaseOrderIrrelevant(h: Heap, roots: set<Block>, bs: seq<Block>, cs: seq<Block>)
    requires WellFormed(h, roots) && Canonical(h, roots)
    requires Distinct(bs) && Distinct(cs) && Elements(bs) == Elements(cs) <= Live(h)
    ensures ReleaseAll(h, bs) == ReleaseAll(h, cs)
  {
    ReleaseAllKeeps(h, roots, bs);
    ReleaseAllKeeps(h, roots, cs);
    SameLiveSameForest(ReleaseAll(h, bs), ReleaseAll(h, cs), roots);
  }

  // ---------------------------------------------------------------- conservation of bytes

  ghost function TotalBytes(s: set<Block>): nat {
    if s == {} then 0 else var b :| b in s; Bytes(b.order) + TotalBytes(s - {b})
  }

  lemma {:induction false} TotalWithout(s: set<Block>, b: Block)
    requires b in s
    ensures TotalBytes(s) == Bytes(b.order) + TotalBytes(s - {b})
  {
    var c :| c in s && TotalBytes(s) == Bytes(c.order) + TotalBytes(s - {c});
    if c != b {
      TotalWithout(s - {c}, b);
      TotalWithout(s - {b}, c);
      assert s - {c} - {b} == s - {b} - {c};
    }
  }

  lemma {:induction false} TotalOfDisjoint(s: set<Block>, t: set<Block>)
    requires s !! t
    ensures TotalBytes(s + t) == TotalBytes(s) + TotalBytes(t)
  {
    if s == {} {
      assert s + t == t;
    } else {
      var b :| b in s;
      TotalWithout(s, b);
      TotalWithout(s + t, b);
      assert s + t - {b} == (s - {b}) + t;
      TotalOfDisjoint(s - {b}, t);
    }
  }

  lemma OneMore(n: nat, m: nat)
    requires n > 0
    ensures n * m == m + (n - 1) * m
  {
  }

  lemma {:induction false} TotalOfRoots(roots: set<Block>)
    requires forall b <- roots :: b.order == MAX_ORDER
    ensures TotalBytes(roots) == |roots| * Bytes(MAX_ORDER)
  {
    if roots != {} {
      var b :| b in roots;
      TotalWithout(roots, b);
      TotalOfRoots(roots - {b});
      OneMore(|roots|, Bytes(MAX_ORDER));
    }
  }

  ghost function Leaves(h: Heap): set<Block> {
    set b <- h | h[b] != Split
  }

  /** A split block has at or under it a split block both of whose halves are unsplit. */
  lemma {:induction false} LowestSplit(h: Heap, roots: set<Block>, b: Block) returns (p: Block)
    requires WellFormed(h, roots)
    requires b in h && h[b] == Split
    ensures p in h && h[p] == Split && p.order > 0 && Left(p) in h && Right(p) in h
    ensures h[Left(p)] != Split && h[Right(p)] != Split
    decreases b.order
  {
    assert Left(b) in h && Right(b) in h;
    if h[Left(b)] == Split {
      p := LowestSplit(h, roots, Left(b));
    } else if h[Right(b)] == Split {
      p := LowestSplit(h, roots, Right(b));
    } else {
      p := b;
    }
  }

  lemma Fewer(s: set<Block>, t: set<Block>)
    requires s < t
    ensures |s| < |t|
  {
    assert |t| == |s| + |t - s| by { assert t == s + (t - s); }
    assert t - s != {};
  }

  lemma SwapForHalves(s: set<Block>, t: set<Block>, p: Block)
    requires p.order > 0 && p in t && Left(p) in s && Right(p) in s
    requires t - {p} == s - {Left(p)} - {Right(p)}
    ensures TotalBytes(t) == TotalBytes(s)
  {
    TotalWithout(t, p);
    TotalWithout(s, Left(p));
    TotalWithout(s - {Left(p)}, Right(p));
  }

  lemma JoinKeepsTotal(h: Heap, p: Block)
    requires p in h && h[p] == Split && p.order > 0 && Left(p) in h && Right(p) in h
    requires h[Left(p)] != Split && h[Right(p)] != Split
    ensures TotalBytes(Leaves(Join(h, p))) == TotalBytes(Leaves(h))
    ensures |Join(h, p)| < |h|
  {
    var g := Join(h, p);
    assert Left(p) in h.Keys - g.Keys;
    Fewer(g.Keys, h.Keys);
    assert forall b :: b in Leaves(g) - {p} <==> b in Leaves(h) - {Left(p)} - {Right(p)};
    SwapForHalves(Leaves(h), Leaves(g), p);
  }

  /** The unsplit blocks of a well-formed heap always add up to the whole heap. */
  lemma {:induction false} LeavesFillHeap(h: Heap, roots: set<Block>)
    requires WellFormed(h, roots)
    ensures TotalBytes(Leaves(h)) == |roots| * Bytes(MAX_ORDER)
    decreases |h|
  {
    if b :| b in h && h[b] == Split {
      var p := LowestSplit(h, roots, b);
      JoinKeeps(h, roots, p);
      JoinKeepsTotal(h, p);
      LeavesFillHeap(Join(h, p), roots);
    } else {
      forall b | b in h
        ensures b in roots
      {
        assert b.order < MAX_ORDER ==> Parent(b) in h;
      }
      assert Leaves(h) == roots;
      TotalOfRoots(roots);
    }
  }

  /** Used bytes and free bytes always add up to the heap size. */
  lemma BytesConserved(h: Heap, roots: set<Block>)
    requires WellFormed(h, roots)
    ensures TotalBytes(Live(h)) + TotalBytes(FreeBlocks(h)) == |roots| * Bytes(MAX_ORDER)
  {
    LeavesFillHeap(h, roots);
    assert Leaves(h) == Live(h) + FreeBlocks(h);
    TotalOfDisjoint(Live(h), FreeBlocks(h));
  }
}
