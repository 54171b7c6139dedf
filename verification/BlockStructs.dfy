/** The block structs of the buddy allocator, apart from their list links, and how they represent a heap. */
module BlockStructs {
  import opened Blocks

  datatype Core = Core(child1: int, child2: int, size: nat, used: bool, start: nat)

  function StateOf(c: Core): Status {
    if c.used then Used else if c.child1 != 0 then Split else Free
  }

  /** a & ~bit, for a power of two bit: the address is made of a multiple of 2 * bit and a rest, whose top bit
      is cleared. */
  function ClearBit(a: nat, bit: nat): nat
    requires bit > 0
  {
    if a >= 2 * bit then 2 * bit + ClearBit(a - 2 * bit, bit) else if a >= bit then a - bit else a
  }

  /** a ^ bit, for a power of two bit */
  function FlipBit(a: nat, bit: nat): nat
    requires bit > 0
  {
    if a >= 2 * bit then 2 * bit + FlipBit(a - 2 * bit, bit) else if a >= bit then a - bit else a + bit
  }

  lemma StartTwoUp(b: Block)
    requires b.index >= 2
    ensures Start(b) == Start(Block(b.index - 2, b.order)) + 2 * Bytes(b.order)
  {
  }

  /** The address computed by clearing one bit of a block's start is the start of its parent. */
  lemma {:induction false} ParentStart(b: Block)
    ensures ClearBit(Start(b), Bytes(b.order)) == Start(Parent(b))
    decreases b.index
  {
    var p := Parent(b);
    if p.index > 0 {
      var c := Block(b.index - 2, b.order);
      StartTwoUp(b);
      ParentStart(c);
      assert Parent(c) == Block(p.index - 1, p.order);
    } else {
      assert b.index == 0 || b.index == 1;
    }
  }

  /** The address computed by flipping one bit of a block's start is the start of its high half. */
  lemma {:induction false} RightStart(b: Block)
    requires b.order > 0
    ensures FlipBit(Start(b), Bytes(b.order - 1)) == Start(Right(b))
    decreases b.index
  {
    if b.index > 0 {
      RightStart(Block(b.index - 1, b.order));
    }
  }

  lemma SameStart(b: Block, c: Block)
    requires b.order == c.order && Start(b) == Start(c)
    ensures b == c
  {
    HoldsIsBlockAt(b, Start(b));
    HoldsIsBlockAt(c, Start(c));
  }

  /** The struct at p describes block b of h; its child fields point at the structs of b's halves. */
  ghost predicate Describes(core: map<int, Core>, at: map<Block, int>, h: Heap, p: int, b: Block) {
    && p in core && b in h
    && core[p].size == b.order && core[p].start == Start(b)
    && StateOf(core[p]) == h[b]
    && if h[b] == Split
       then b.order > 0 && Left(b) in at && Right(b) in at && core[p].child1 == at[Left(b)]
         && core[p].child2 == at[Right(b)]
       else core[p].child1 == 0 && core[p].child2 == 0
  }

  /** One struct for each block of the heap: of and at are inverse to each other. */
  ghost predicate Represents(core: map<int, Core>, of: map<int, Block>, at: map<Block, int>, h: Heap) {
    && 0 !in core
    && of.Keys == core.Keys && at.Keys == h.Keys
    && (forall p <- of :: of[p] in at && at[of[p]] == p)
    && (forall b <- at :: at[b] in of && of[at[b]] == b)
    && (forall p <- of :: Describes(core, at, h, p, of[p]))
  }

  lemma SplitRepresents(core: map<int, Core>, of: map<int, Block>, at: map<Block, int>, h: Heap, p: int, c1: int,
      c2: int)
    requires Represents(core, of, at, h)
    requires p in core && h[of[p]] == Free && of[p].order > 0 && Left(of[p]) !in h && Right(of[p]) !in h
    requires c1 !in core && c2 !in core && c1 != c2 && c1 != 0 && c2 != 0
    ensures var b := of[p];
      var core' := core[c1 := Core(0, 0, b.order - 1, false, Start(Left(b)))]
        [c2 := Core(0, 0, b.order - 1, false, Start(Right(b)))][p := core[p].(child1 := c1, child2 := c2)];
      Represents(core', of[c1 := Left(b)][c2 := Right(b)], at[Left(b) := c1][Right(b) := c2], SplitOne(h, b))
  {
    var b := of[p];
    var core' := core[c1 := Core(0, 0, b.order - 1, false, Start(Left(b)))]
      [c2 := Core(0, 0, b.order - 1, false, Start(Right(b)))][p := core[p].(child1 := c1, child2 := c2)];
    var of', at', h' := of[c1 := Left(b)][c2 := Right(b)], at[Left(b) := c1][Right(b) := c2], SplitOne(h, b);
    forall q <- of'
      ensures Describes(core', at', h', q, of'[q])
    {
      if q != c1 && q != c2 {
        assert Describes(core, at, h, q, of[q]);
      }
    }
  }

  lemma JoinRepresents(core: map<int, Core>, of: map<int, Block>, at: map<Block, int>, h: Heap, roots: set<Block>,
      p: int)
    requires Represents(core, of, at, h) && WellFormed(h, roots)
    requires p in core && h[of[p]] == Split
    requires var b := of[p]; Left(b) in h && h[Left(b)] == Free && Right(b) in h && h[Right(b)] == Free
    ensures var b := of[p];
      var c1, c2 := core[p].child1, core[p].child2;
      Represents((core - {c1, c2})[p := core[p].(child1 := 0, child2 := 0)], of - {c1, c2}, at - {Left(b), Right(b)},
        Join(h, b))
  {
    var b := of[p];
    assert Describes(core, at, h, p, b);
    var c1, c2 := core[p].child1, core[p].child2;
    var core', of' := (core - {c1, c2})[p := core[p].(child1 := 0, child2 := 0)], of - {c1, c2};
    var at', h' := at - {Left(b), Right(b)}, Join(h, b);
    forall q <- of'
      ensures Describes(core', at', h', q, of'[q])
    {
      JoinDescribes(core, of, at, h, p, q);
    }
  }

  /** A struct that stays still describes its block when the halves of b are joined. */
  lemma JoinDescribes(core: map<int, Core>, of: map<int, Block>, at: map<Block, int>, h: Heap, p: int, q: int)
    requires Represents(core, of, at, h) && p in core && h[of[p]] == Split && of[p].order > 0
    requires var b := of[p]; Left(b) in h && h[Left(b)] == Free && Right(b) in h && h[Right(b)] == Free
    requires q in of && q != core[p].child1 && q != core[p].child2
    ensures var b := of[p];
      var c1, c2 := core[p].child1, core[p].child2;
      Describes((core - {c1, c2})[p := core[p].(child1 := 0, child2 := 0)], at - {Left(b), Right(b)}, Join(h, b), q,
        of[q])
  {
    var b, d := of[p], of[q];
    assert Describes(core, at, h, p, b) && Describes(core, at, h, q, d);
    if q != p && h[d] == Split {
      assert Left(d) != Left(b) && Left(d) != Right(b) && Right(d) != Left(b) && Right(d) != Right(b);
    }
  }

  lemma MarkRepresents(core: map<int, Core>, of: map<int, Block>, at: map<Block, int>, h: Heap, p: int, used: bool)
    requires Represents(core, of, at, h)
    requires p in core && h[of[p]] != Split
    ensures Represents(core[p := core[p].(used := used)], of, at, h[of[p] := if used then Used else Free])
  {
    var core', h' := core[p := core[p].(used := used)], h[of[p] := if used then Used else Free];
    assert Describes(core, at, h, p, of[p]);
    forall q <- of
      ensures Describes(core', at, h', q, of[q])
    {
      assert Describes(core, at, h, q, of[q]);
      assert q != p ==> of[q] != of[p];
    }
  }
}
