/** Several mapped regions on top of the kernel's own mappings. */
module Regions {
  import opened Radix
  import opened PageTables
  import opened Layout

  /** What an address mapping says: size bytes at va lead to pa. */
  datatype Region = Region(va: nat, pa: nat, size: nat) {
    function End(): nat {
      va + size
    }
  }

  /** A leaf that a map of the region writes. */
  ghost predicate BlockOf(n: Node, r: Region) {
    Maximal(n, r.va, r.End())
  }

  ghost predicate Apart(r: Region, s: Region) {
    r.End() <= s.va || s.End() <= r.va
  }

  ghost predicate AllApart(rs: seq<Region>) {
    forall i, j | 0 <= i < j < |rs| :: Apart(rs[i], rs[j])
  }

  /** The region can be mapped on top of base. */
  ghost predicate Placeable(base: View, r: Region) {
    && !Misaligned(r.pa, r.va, r.size)
    && r.End() <= PHYS_LIMIT && r.pa + r.size <= PHYS_LIMIT
    && Unmapped(base, r.va, r.End())
  }

  /** w is base with the regions mapped on top, and nothing else. */
  ghost predicate Composed(base: View, w: View, rs: seq<Region>) {
    && Extends(base, w)
    && (forall n :: IsLeaf(w, n) <==> IsLeaf(base, n) || exists r <- rs :: BlockOf(n, r))
    && (forall n, r | r in rs && BlockOf(n, r) :: n in w && w[n] == Leaf(r.pa + Base(n) - r.va))
  }

  lemma ComposedWithNone(base: View)
    ensures Composed(base, base, [])
  {
  }

  /** A block of a region covers addresses of the region only. */
  lemma BlockInside(n: Node, r: Region)
    requires BlockOf(n, r)
    ensures n.level < LEVELS && r.va <= Base(n) < End(n) <= r.End()
  {
  }

  /** A leaf of the composition that meets a region apart from the mapped ones meets base. */
  lemma ComposedUnmapped(base: View, w: View, rs: seq<Region>, r: Region)
    requires Composed(base, w, rs) && Placeable(base, r)
    requires forall s <- rs :: Apart(s, r)
    ensures Unmapped(w, r.va, r.End())
  {
    forall a: nat | r.va <= a < r.End()
      ensures !Mapped(w, a)
    {
      forall n | IsLeaf(w, n)
        ensures !Covers(n, a)
      {
        LeafElsewhere(base, w, rs, r, n, a);
      }
    }
  }

  lemma LeafElsewhere(base: View, w: View, rs: seq<Region>, r: Region, n: Node, a: nat)
    requires Composed(base, w, rs) && Unmapped(base, r.va, r.End()) && r.va <= a < r.End()
    requires (forall s <- rs :: Apart(s, r)) && IsLeaf(w, n)
    ensures !Covers(n, a)
  {
    if IsLeaf(base, n) {
      assert Covers(n, a) ==> Mapped(base, a);
    } else {
      var s :| s in rs && BlockOf(n, s);
      BlockInside(n, s);
      assert Apart(s, r);
    }
  }

  /** The first region is mapped by its own leaves. */
  lemma ComposedWhole(base: View, w: View, rs: seq<Region>)
    requires Composed(base, w, rs) && rs != [] && AllApart(rs) && Placeable(base, rs[0])
    ensures MappedWhole(w, rs[0].va, rs[0].End())
  {
    var r := rs[0];
    forall a: nat | r.va <= a < r.End()
      ensures Mapped(w, a)
    {
      PlaceablePages(base, r);
      var n := MaximalCovers(r.va, r.End(), a);
      assert BlockOf(n, r);
      assert IsLeaf(w, n);
    }
    forall n, a: nat | IsLeaf(w, n) && Covers1(n, a) && r.va <= a < r.End()
      ensures Inside(n, r.va, r.End())
    {
      OwnLeaf(base, w, rs, n, a);
    }
  }

  lemma PlaceablePages(base: View, r: Region)
    requires Placeable(base, r)
    ensures r.va % PAGE_SIZE == 0 && r.End() % PAGE_SIZE == 0
  {
    AlignmentFacts(r.pa, r.va, r.size);
  }

  lemma OwnLeaf(base: View, w: View, rs: seq<Region>, n: Node, a: nat)
    requires Composed(base, w, rs) && rs != [] && AllApart(rs) && Placeable(base, rs[0])
    requires IsLeaf(w, n) && Covers1(n, a) && rs[0].va <= a < rs[0].End()
    ensures BlockOf(n, rs[0])
  {
    if IsLeaf(base, n) {
      assert Mapped(base, a);
    } else {
      var s :| s in rs && BlockOf(n, s);
      BlockInside(n, s);
      var i :| 0 <= i < |rs| && rs[i] == s;
      assert i > 0 ==> Apart(rs[0], rs[i]);
    }
  }

  lemma ComposedPlus(base: View, w: View, w': View, rs: seq<Region>, r: Region)
    requires Composed(base, w, rs) && Extends(w, w') && Overlaid(w, w', r.pa, r.va, r.End())
    requires Unmapped(w, r.va, r.End())
    ensures Composed(base, w', rs + [r])
  {
    var all := rs + [r];
    forall n
      ensures IsLeaf(w', n) <==> IsLeaf(base, n) || exists s <- all :: BlockOf(n, s)
    {
      LeafIsOutside(w, n, r.va, r.End());
      if BlockOf(n, r) {
        assert r in all;
      } else if IsLeaf(w, n) && !IsLeaf(base, n) {
        var s :| s in rs && BlockOf(n, s);
        assert s in all;
      }
    }
    forall n, s | s in all && BlockOf(n, s)
      ensures n in w' && w'[n] == Leaf(s.pa + Base(n) - s.va)
    {
      if s in rs {
        assert IsLeaf(w, n);
        LeafIsOutside(w, n, r.va, r.End());
      } else {
        assert IsLeaf(w', n);
      }
    }
  }

  lemma ComposedMinus(base: View, w: View, w': View, root: nat, rs: seq<Region>)
    requires Composed(base, w, rs) && rs != [] && AllApart(rs) && Placeable(base, rs[0])
    requires Removed(w, w', rs[0].va, rs[0].End())
    requires Closed(base, root) && NoEmptyTable(base) && Closed(w', root)
    ensures Composed(base, w', rs[1..])
  {
    var r := rs[0];
    forall n
      ensures IsLeaf(w', n) <==> IsLeaf(base, n) || exists s <- rs[1..] :: BlockOf(n, s)
    {
      LeafAfterMinus(base, w, w', rs, n);
    }
    forall n | n in base
      ensures n in w' && w'[n] == base[n]
    {
      TablesFollow(base, w', root, n);
    }
    forall n, s | s in rs[1..] && BlockOf(n, s)
      ensures n in w' && w'[n] == Leaf(s.pa + Base(n) - s.va)
    {
      assert IsLeaf(w', n);
      assert s in rs;
    }
  }

  lemma LeafAfterMinus(base: View, w: View, w': View, rs: seq<Region>, n: Node)
    requires Composed(base, w, rs) && rs != [] && AllApart(rs) && Placeable(base, rs[0])
    requires Removed(w, w', rs[0].va, rs[0].End())
    ensures IsLeaf(w', n) <==> IsLeaf(base, n) || exists s <- rs[1..] :: BlockOf(n, s)
  {
    var r := rs[0];
    if IsLeaf(base, n) {
      LeafIsOutside(base, n, r.va, r.End());
      assert IsLeaf(w, n);
    } else if i :| 1 <= i < |rs| && BlockOf(n, rs[i]) {
      BlockInside(n, rs[i]);
      assert Apart(rs[0], rs[i]);
      assert rs[i] in rs && rs[1..][i - 1] == rs[i];
      assert IsLeaf(w, n);
    } else if IsLeaf(w, n) {
      var s :| s in rs && BlockOf(n, s);
      assert s == r;
    }
  }

  /** With all regions gone, the kernel's own tree is left, table by table. */
  lemma ComposedNone(base: View, w: View, root: nat)
    requires Composed(base, w, []) && Closed(base, root) && NoEmptyTable(base) && Closed(w, root) && NoEmptyTable(w)
    ensures w == base
  {
    SameLeavesSameTables(base, w, w, root);
  }

  /** Every leaf that lies in a region is one of its blocks. */
  lemma OnlyBlocksInside(base: View, w: View, root: nat, rs: seq<Region>, r: Region, n: Node)
    requires Composed(base, w, rs) && Closed(w, root) && r in rs && !Misaligned(r.pa, r.va, r.size)
    ensures IsLeaf(w, n) && Inside(n, r.va, r.End()) ==> BlockOf(n, r)
  {
    if IsLeaf(w, n) && Inside(n, r.va, r.End()) {
      AlignmentFacts(r.pa, r.va, r.size);
      var m := MaximalCovers(r.va, r.End(), Base(n));
      assert BlockOf(m, r);
      assert IsLeaf(w, m) && Covers(n, Base(n));
      LeafUnique(w, root, m, n, Base(n));
    }
  }

  /** The leaves of the composition that are no blocks of r. */
  ghost function WithoutBlocks(w: View, r: Region): View {
    map n | n in w && IsLeaf(w, n) && !BlockOf(n, r) :: w[n]
  }

  /** The composition is a map of r over the rest. */
  lemma ComposedIsOverlay(base: View, w: View, root: nat, rs: seq<Region>, r: Region)
    requires Composed(base, w, rs) && Closed(w, root) && r in rs && !Misaligned(r.pa, r.va, r.size)
    ensures Overlaid(WithoutBlocks(w, r), w, r.pa, r.va, r.End())
  {
    hide Composed, Closed, Maximal, Inside, Misaligned;
    var only := WithoutBlocks(w, r);
    forall n
      ensures IsLeaf(w, n) <==> Maximal(n, r.va, r.End()) || OldLeaf(only, n, r.va, r.End())
      ensures OldLeaf(only, n, r.va, r.End()) ==> n in w && w[n] == only[n]
      ensures Maximal(n, r.va, r.End()) ==>
        n.level < LEVELS && r.va <= Base(n) && n in w && w[n] == Leaf(r.pa + Base(n) - r.va)
    {
      BlockIsLeaf(base, w, rs, r, n);
      OnlyBlocksInside(base, w, root, rs, r, n);
    }
  }

  lemma BlockIsLeaf(base: View, w: View, rs: seq<Region>, r: Region, n: Node)
    requires Composed(base, w, rs) && r in rs
    ensures BlockOf(n, r) <==> Maximal(n, r.va, r.End())
    ensures BlockOf(n, r) ==>
      n.level < LEVELS && r.va <= Base(n) && IsLeaf(w, n) && n in w && w[n] == Leaf(r.pa + Base(n) - r.va)
  {
    if BlockOf(n, r) {
      BlockInside(n, r);
    }
  }

  /** Inside a region the composition translates like a map of the region alone, elsewhere like base. */
  lemma ComposedTranslates(base: View, w: View, root: nat, rs: seq<Region>, r: Region)
    requires Composed(base, w, rs) && Closed(w, root) && r in rs && !Misaligned(r.pa, r.va, r.size)
    ensures (forall a: nat | r.va <= a < r.End() :: Translate(w, a) == r.pa + (a - r.va)) <==>
      Congruent(r.pa, r.va, r.End())
  {
    hide Composed, Closed, Overlaid, Translate, Congruent, WithoutBlocks, Misaligned;
    AlignmentFacts(r.pa, r.va, r.size);
    ComposedIsOverlay(base, w, root, rs, r);
    OverlayTranslates(WithoutBlocks(w, r), w, root, r.pa, r.va, r.End());
  }

  lemma ComposedElsewhere(base: View, w: View, rs: seq<Region>, a: nat)
    requires Composed(base, w, rs)
    requires forall r <- rs :: a < r.va || a >= r.End()
    ensures Translate(w, a) == Translate(base, a) && (Mapped(w, a) <==> Mapped(base, a))
  {
    forall n | Covers1(n, a)
      ensures IsLeaf(w, n) <==> IsLeaf(base, n)
    {
      if r :| r in rs && BlockOf(n, r) {
        BlockInside(n, r);
      }
    }
    LeafLevelSame(base, w, a);
    LeafLevelMapped(base, a);
    LeafLevelMapped(w, a);
  }

  /** The translation is a function of base and the regions: no trace is left of how it came about. */
  lemma ComposedTranslation(base: View, w: View, w': View, rs: seq<Region>, a: nat)
    requires Composed(base, w, rs) && Composed(base, w', rs)
    ensures Translate(w, a) == Translate(w', a)
  {
    forall n | Covers1(n, a)
      ensures IsLeaf(w, n) <==> IsLeaf(w', n)
    {
    }
    LeafLevelSame(w, w', a);
    var l := LeafLevel(w, a);
    if l < LEVELS {
      var n := NodeAt(a, l);
      assert IsLeaf(w, n) && IsLeaf(w', n);
      if !IsLeaf(base, n) {
        var r :| r in rs && BlockOf(n, r);
      }
    }
  }
}
