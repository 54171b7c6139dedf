/** The tree of translation tables as a map from entry positions to entries.
    The entry (level, index) is the one every address a with a / Span(level) == index passes through. */
module Radix {
  import opened Division

  const LEVELS: nat := 4

  datatype Node = Node(level: nat, index: nat)

  /** A leaf leads to a block of memory, which user code may reach or not; a table to the table of the next level. */
  datatype Entry = Leaf(pa: nat, user: bool := true) | Table(addr: nat)

  type View = map<Node, Entry>

  /** Bytes translated by one entry. */
  function Span(level: nat): nat
    requires level < LEVELS
  {
    if level == 3 then 0x1000 else if level == 2 then 0x20_0000 else if level == 1 then 0x4000_0000 else 0x80_0000_0000
  }

  function NodeAt(a: nat, level: nat): Node
    requires level < LEVELS
  {
    Node(level, if level == 3 then a / 0x1000 else if level == 2 then a / 0x20_0000
                else if level == 1 then a / 0x4000_0000 else a / 0x80_0000_0000)
  }

  function Base(n: Node): nat
    requires n.level < LEVELS
  {
    if n.level == 3 then n.index * 0x1000 else if n.level == 2 then n.index * 0x20_0000
    else if n.level == 1 then n.index * 0x4000_0000 else n.index * 0x80_0000_0000
  }

  function End(n: Node): nat
    requires n.level < LEVELS
  {
    Base(n) + Span(n.level)
  }

  function Up(n: Node): Node
    requires n.level > 0
  {
    Node(n.level - 1, n.index / 512)
  }

  ghost predicate Covers(n: Node, a: nat)
    requires n.level < LEVELS
  {
    Base(n) <= a < End(n)
  }

  lemma CoversIsNodeAt(n: Node, a: nat)
    requires n.level < LEVELS
    ensures Covers(n, a) <==> n == NodeAt(a, n.level)
  {
  }

  lemma UpNodeAt(a: nat, level: nat)
    requires 0 < level < LEVELS
    ensures Up(NodeAt(a, level)) == NodeAt(a, level - 1)
  {
  }

  /** An entry's range lies in the range of the entry above it. */
  lemma UpContains(n: Node)
    requires 0 < n.level < LEVELS
    ensures Base(Up(n)) <= Base(n) && End(n) <= End(Up(n))
  {
  }

  /** The entry of the given lower level that n's range lies in. */
  function Above(n: Node, level: nat): (m: Node)
    requires level <= n.level
    ensures m.level == level
    decreases n.level
  {
    if level == n.level then n else Above(Up(n), level)
  }

  lemma {:induction false} AboveNodeAt(a: nat, low: nat, level: nat)
    requires level <= low < LEVELS
    ensures Above(NodeAt(a, low), level) == NodeAt(a, level)
    decreases low
  {
    if level < low {
      UpNodeAt(a, low);
      AboveNodeAt(a, low - 1, level);
    }
  }

  // ---------------------------------------------------------------- table trees

  /** Every entry hangs below table entries up to the root, and different tables lie at different addresses. */
  ghost predicate Closed(v: View, root: nat) {
    && (forall n <- v :: n.level < LEVELS && (n.level == 0 ==> n.index < 512))
    && (forall n <- v :: v[n].Table? ==> n.level < 3 && v[n].addr != root)
    && (forall n {:trigger Up(n)} | n in v && n.level > 0 :: Up(n) in v && v[Up(n)].Table?)
    && (forall n, m | n in v && m in v && v[n].Table? && v[m].Table? && n != m :: v[n].addr != v[m].addr)
  }

  ghost predicate HasChild(v: View, n: Node) {
    exists c <- v :: c.level > 0 && Up(c) == n
  }

  /** No table below the root is empty. */
  ghost predicate NoEmptyTable(v: View) {
    forall n <- v :: v[n].Table? ==> HasChild(v, n)
  }

  ghost predicate IsLeaf(v: View, n: Node) {
    n in v && v[n].Leaf? && n.level < LEVELS
  }

  /** The leaf m lies strictly below n. */
  ghost predicate Below(m: Node, n: Node) {
    n.level < m.level && Above(m, n.level) == n
  }

  lemma {:induction false} ClosedUp(v: View, root: nat, n: Node, level: nat)
    requires Closed(v, root) && n in v && level <= n.level
    ensures Above(n, level) in v
    ensures level < n.level ==> v[Above(n, level)].Table?
    decreases n.level
  {
    if level < n.level {
      assert Up(n) in v && v[Up(n)].Table?;
      if level < n.level - 1 {
        ClosedUp(v, root, Up(n), level);
      }
    }
  }

  /** An address passes through at most one leaf. */
  lemma LeafUnique(v: View, root: nat, m: Node, n: Node, a: nat)
    requires Closed(v, root) && IsLeaf(v, m) && IsLeaf(v, n)
    requires Covers(m, a) && Covers(n, a)
    ensures m == n
  {
    CoversIsNodeAt(m, a);
    CoversIsNodeAt(n, a);
    if m.level < n.level {
      AboveNodeAt(a, n.level, m.level);
      ClosedUp(v, root, n, m.level);
    } else if n.level < m.level {
      AboveNodeAt(a, m.level, n.level);
      ClosedUp(v, root, m, n.level);
    }
  }

  /** Without empty tables every table has a leaf below it. */
  lemma {:induction false} TableHasLeaf(v: View, root: nat, n: Node) returns (m: Node)
    requires Closed(v, root) && n in v && v[n].Table?
    requires forall c <- v :: v[c].Table? && c.level >= n.level ==> HasChild(v, c)
    ensures IsLeaf(v, m) && Below(m, n)
    decreases LEVELS - n.level
  {
    assert HasChild(v, n);
    var c :| c in v && c.level > 0 && Up(c) == n;
    if v[c].Leaf? {
      m := c;
      assert Above(m, n.level) == Above(Up(c), n.level);
    } else {
      m := TableHasLeaf(v, root, c);
      AboveTwice(m, c.level);
    }
  }

  lemma {:induction false} AboveTwice(n: Node, level: nat)
    requires 0 < level <= n.level
    ensures Above(n, level - 1) == Up(Above(n, level))
    decreases n.level
  {
    if level < n.level {
      AboveTwice(Up(n), level);
    }
  }

  lemma {:induction false} AboveContains(n: Node, level: nat)
    requires level <= n.level < LEVELS
    ensures Base(Above(n, level)) <= Base(n) && End(n) <= End(Above(n, level))
    decreases n.level
  {
    if level < n.level {
      UpContains(n);
      AboveContains(Up(n), level);
    }
  }

  /** Two views with the same leaves inside a common larger view are the same: which tables exist follows from the
      leaves. */
  lemma SameLeavesSameTables(v: View, w: View, u: View, root: nat)
    requires Closed(v, root) && NoEmptyTable(v) && Closed(w, root) && NoEmptyTable(w)
    requires forall n <- v :: n in u && u[n] == v[n]
    requires forall n <- w :: n in u && u[n] == w[n]
    requires forall n :: IsLeaf(v, n) <==> IsLeaf(w, n)
    ensures v == w
  {
    forall n | n in v
      ensures n in w
    {
      TablesFollow(v, w, root, n);
    }
    forall n | n in w
      ensures n in v
    {
      TablesFollow(w, v, root, n);
    }
  }

  lemma TablesFollow(v: View, w: View, root: nat, n: Node)
    requires Closed(v, root) && NoEmptyTable(v) && Closed(w, root)
    requires forall n :: IsLeaf(v, n) ==> IsLeaf(w, n)
    requires n in v
    ensures n in w
  {
    if v[n].Leaf? {
      assert IsLeaf(v, n);
    } else {
      var m := TableHasLeaf(v, root, n);
      ClosedUp(w, root, m, n.level);
    }
  }

  // ---------------------------------------------------------------- intervals as sets of entries

  ghost predicate Inside(n: Node, va: nat, end: nat)
    requires n.level < LEVELS
  {
    va <= Base(n) && End(n) <= end
  }

  /** The largest aligned blocks inside [va, end). */
  ghost predicate Maximal(n: Node, va: nat, end: nat) {
    n.level < LEVELS && Inside(n, va, end) && (n.level > 0 ==> !Inside(Up(n), va, end))
  }

  lemma InsideUp(n: Node, level: nat, va: nat, end: nat)
    requires level < n.level < LEVELS && Inside(Above(n, level), va, end)
    ensures Inside(Up(n), va, end)
  {
    AboveContains(Up(n), level);
  }

  /** No address lies in two largest blocks. */
  lemma MaximalUnique(m: Node, n: Node, va: nat, end: nat, a: nat)
    requires Maximal(m, va, end) && Maximal(n, va, end) && Covers(m, a) && Covers(n, a)
    ensures m == n
  {
    CoversIsNodeAt(m, a);
    CoversIsNodeAt(n, a);
    if m.level < n.level {
      AboveNodeAt(a, n.level, m.level);
      InsideUp(n, m.level, va, end);
    } else if n.level < m.level {
      AboveNodeAt(a, m.level, n.level);
      InsideUp(m, n.level, va, end);
    }
  }

  /** Every address of a page-aligned interval lies in a largest block. */
  lemma MaximalCovers(va: nat, end: nat, a: nat) returns (n: Node)
    requires va % 0x1000 == 0 && end % 0x1000 == 0 && va <= a < end
    ensures Maximal(n, va, end) && Covers(n, a)
  {
    n := NodeAt(a, 3);
    CoversIsNodeAt(n, a);
    while n.level > 0 && Inside(Up(n), va, end)
      invariant n.level < LEVELS && Inside(n, va, end) && Covers(n, a)
      decreases n.level
    {
      UpContains(n);
      n := Up(n);
    }
  }

  /** No block inside the interval begins before cur and ends after it. */
  ghost predicate Boundary(cur: nat, va: nat, end: nat) {
    forall l: nat | l < LEVELS && Inside(NodeAt(cur, l), va, end) :: Base(NodeAt(cur, l)) == cur
  }

  lemma BoundaryAtStart(va: nat, end: nat)
    ensures Boundary(va, va, end)
  {
    forall l: nat | l < LEVELS && Inside(NodeAt(va, l), va, end)
      ensures Base(NodeAt(va, l)) == va
    {
      CoversIsNodeAt(NodeAt(va, l), va);
    }
  }

  /** The least level whose blocks fit at cur gives a largest block of the interval. */
  lemma ChosenIsMaximal(cur: nat, va: nat, end: nat, level: nat)
    requires level < LEVELS && va <= cur && Boundary(cur, va, end)
    requires cur % Span(level) == 0 && cur + Span(level) <= end
    requires level > 0 ==> cur % Span(level - 1) != 0 || cur + Span(level - 1) > end
    ensures Maximal(NodeAt(cur, level), va, end) && Base(NodeAt(cur, level)) == cur
  {
    if level > 0 {
      UpNodeAt(cur, level);
    }
  }

  lemma BoundaryAfter(n: Node, va: nat, end: nat)
    requires Maximal(n, va, end)
    ensures Boundary(End(n), va, end)
  {
    var cur, a := End(n), End(n) - 1;
    forall l: nat | l < LEVELS && Inside(NodeAt(cur, l), va, end)
      ensures Base(NodeAt(cur, l)) == cur
    {
      var m := NodeAt(cur, l);
      CoversIsNodeAt(m, cur);
      if Base(m) < cur {
        CoversIsNodeAt(m, a);
        CoversIsNodeAt(n, a);
        if l < n.level {
          AboveNodeAt(a, n.level, l);
          InsideUp(n, l, va, end);
        } else {
          AboveNodeAt(a, l, n.level);
          AboveContains(m, n.level);
        }
      }
    }
  }

  /** The largest blocks that lie before cur. */
  ghost predicate Written(n: Node, va: nat, end: nat, cur: nat) {
    Maximal(n, va, end) && End(n) <= cur
  }

  /** Going past a largest block adds just this block. */
  lemma WrittenStep(n: Node, va: nat, end: nat, m: Node)
    requires Maximal(n, va, end)
    ensures Written(m, va, end, End(n)) <==> Written(m, va, end, Base(n)) || m == n
  {
    if Written(m, va, end, End(n)) && End(m) > Base(n) {
      MaximalUnique(m, n, va, end, End(m) - 1);
    }
  }

  /** The entries above page level on the way to the two ends of the interval. */
  ghost function EndPaths(va: nat, end: nat): set<Node>
    requires va < end
  {
    {NodeAt(va, 0), NodeAt(va, 1), NodeAt(va, 2), NodeAt(end - 1, 0), NodeAt(end - 1, 1), NodeAt(end - 1, 2)}
  }

  /** The tables on the way to the two ends of the interval that reach over it. */
  ghost function EdgeTables(va: nat, end: nat): set<Node>
    requires va < end
  {
    set n | n in EndPaths(va, end) && n.level < LEVELS && !Inside(n, va, end)
  }

  /** Only tables on the way to an end of the interval have a largest block below them. */
  lemma TablesAreAtEdges(cur: nat, va: nat, end: nat, level: nat, l: nat)
    requires l < level < LEVELS && Maximal(NodeAt(cur, level), va, end) && va <= cur < end
    ensures NodeAt(cur, l) in EdgeTables(va, end)
  {
    var m := NodeAt(cur, l);
    AboveNodeAt(cur, level, l);
    CoversIsNodeAt(m, cur);
    if Inside(m, va, end) {
      InsideUp(NodeAt(cur, level), l, va, end);
    }
    CoversIsNodeAt(m, va);
    CoversIsNodeAt(m, end - 1);
    assert m in EndPaths(va, end);
  }

  // ---------------------------------------------------------------- translation of addresses

  /** Bitwise or */
  function Or(x: nat, y: nat): nat
    decreases x + y
  {
    if x == 0 && y == 0 then 0 else 2 * Or(x / 2, y / 2) + if x % 2 == 1 || y % 2 == 1 then 1 else 0
  }

  function Pow2(k: nat): (p: nat)
    ensures p > 0
  {
    if k == 0 then 1 else 2 * Pow2(k - 1)
  }

  lemma {:induction false} OrSelf(x: nat)
    ensures Or(x, 0) == x && Or(0, x) == x
  {
    if x > 0 {
      OrSelf(x / 2);
    }
  }

  /** Or adds when the lower bits of one side are free. */
  lemma {:induction false} OrAdds(q: nat, y: nat, k: nat)
    requires y < Pow2(k)
    ensures Or(q * Pow2(k), y) == q * Pow2(k) + y
    decreases k
  {
    hide Or;
    if k == 0 {
      OrSelf(q);
    } else {
      OrAdds(q, y / 2, k - 1);
      Doubled(q, k);
      OrOfEven(q * Pow2(k - 1), y);
    }
  }

  lemma Doubled(q: nat, k: nat)
    requires k > 0
    ensures q * Pow2(k) == 2 * (q * Pow2(k - 1))
  {
  }

  lemma OrStep(x: nat, y: nat)
    ensures Or(x, y) == 2 * Or(x / 2, y / 2) + if x % 2 == 1 || y % 2 == 1 then 1 else 0
  {
  }

  lemma OrOfEven(h: nat, y: nat)
    requires Or(h, y / 2) == h + y / 2
    ensures Or(2 * h, y) == 2 * h + y
  {
    hide Or;
    OrStep(2 * h, y);
    assert 2 * h / 2 == h && 2 * h % 2 == 0;
  }

  lemma OrOfSum(h: nat, y: nat)
    requires Or(h + y / 2, y / 2) == h + y / 2
    ensures Or(2 * h + y, y) == 2 * h + y
  {
    hide Or;
    OrStep(2 * h + y, y);
    assert (2 * h + y) / 2 == h + y / 2 && (2 * h + y) % 2 == y % 2;
  }

  /** Bits that are already set do not add. */
  lemma {:induction false} OrKeeps(q: nat, y: nat, k: nat)
    requires y < Pow2(k)
    ensures Or(q * Pow2(k) + y, y) == q * Pow2(k) + y
    decreases k
  {
    hide Or;
    if k == 0 {
      OrSelf(q);
    } else {
      OrKeeps(q, y / 2, k - 1);
      Doubled(q, k);
      OrOfSum(q * Pow2(k - 1), y);
    }
  }

  lemma SpanIsPow2(level: nat)
    requires level < LEVELS
    ensures Span(level) == Pow2(12 + 9 * (3 - level))
  {
    assert Pow2(12) == 0x1000 && Pow2(21) == 0x20_0000 && Pow2(30) == 0x4000_0000 && Pow2(39) == 0x80_0000_0000;
  }

  ghost predicate Mapped(v: View, a: nat) {
    exists n :: IsLeaf(v, n) && Covers(n, a)
  }

  /** The level of the leaf that a passes through, or LEVELS. */
  ghost function LeafLevel(v: View, a: nat): nat {
    if IsLeaf(v, NodeAt(a, 0)) then 0 else if IsLeaf(v, NodeAt(a, 1)) then 1
    else if IsLeaf(v, NodeAt(a, 2)) then 2 else if IsLeaf(v, NodeAt(a, 3)) then 3 else LEVELS
  }

  /** The address a is translated to: the leaf's output address with the offset bits of a put in, or 0. */
  ghost function Translate(v: View, a: nat): nat {
    var l := LeafLevel(v, a);
    if l < LEVELS then Or(v[NodeAt(a, l)].pa, a % Span(l)) else 0
  }

  lemma LeafFound(v: View, root: nat, n: Node, a: nat)
    requires Closed(v, root) && IsLeaf(v, n) && Covers(n, a)
    ensures LeafLevel(v, a) == n.level && NodeAt(a, n.level) == n
  {
    CoversIsNodeAt(n, a);
    var l := LeafLevel(v, a);
    assert l < LEVELS;
    CoversIsNodeAt(NodeAt(a, l), a);
    LeafUnique(v, root, n, NodeAt(a, l), a);
  }

  lemma LeafLevelMapped(v: View, a: nat)
    ensures LeafLevel(v, a) < LEVELS <==> Mapped(v, a)
  {
    var l := LeafLevel(v, a);
    if l < LEVELS {
      CoversIsNodeAt(NodeAt(a, l), a);
    }
    if n :| IsLeaf(v, n) && Covers(n, a) {
      CoversIsNodeAt(n, a);
    }
  }

  /** A leaf of v that does not lie in the interval. */
  ghost predicate OldLeaf(v: View, n: Node, va: nat, end: nat) {
    IsLeaf(v, n) && !Inside(n, va, end)
  }

  /** The interval [va, end) is written over v: in w its largest blocks are leaves, at the same distance from pa as from
      va; leaves of v inside the interval are gone, and the others are as they were. */
  ghost predicate Overlaid(v: View, w: View, pa: nat, va: nat, end: nat) {
    && (forall n :: IsLeaf(w, n) <==> Maximal(n, va, end) || OldLeaf(v, n, va, end))
    && (forall n :: OldLeaf(v, n, va, end) ==> n in w && w[n] == v[n])
    && (forall n :: Maximal(n, va, end) ==> n in w && w[n] == Leaf(pa + Base(n) - va))
  }

  /** A leaf translates its whole range linearly exactly when its output address is aligned to its size. */
  lemma LeafIsLinear(n: Node, out: nat)
    requires n.level < LEVELS
    ensures (forall a: nat | Covers(n, a) :: Or(out, a % Span(n.level)) == out + (a - Base(n))) <==>
      out % Span(n.level) == 0
  {
    var s, k := Span(n.level), 12 + 9 * (3 - n.level);
    SpanIsPow2(n.level);
    var q, r := out / s, out % s;
    assert out == q * s + r;
    forall a: nat | Covers(n, a)
      ensures a % s == a - Base(n)
    {
      CoversIsNodeAt(n, a);
    }
    if r == 0 {
      forall a: nat | Covers(n, a)
        ensures Or(out, a % s) == out + (a - Base(n))
      {
        OrAdds(q, a % s, k);
      }
    } else {
      var a := Base(n) + r;
      assert Covers(n, a);
      OrKeeps(q, r, k);
    }
  }

  lemma LeafLevelSame(v: View, w: View, a: nat)
    requires forall n | Covers1(n, a) :: IsLeaf(w, n) <==> IsLeaf(v, n)
    ensures LeafLevel(w, a) == LeafLevel(v, a)
  {
    forall l: nat | l < LEVELS
      ensures IsLeaf(w, NodeAt(a, l)) <==> IsLeaf(v, NodeAt(a, l))
    {
      CoversIsNodeAt(NodeAt(a, l), a);
      assert Covers1(NodeAt(a, l), a);
    }
  }

  ghost predicate Covers1(n: Node, a: nat) {
    n.level < LEVELS && Covers(n, a)
  }

  /** Addresses outside the interval are translated as before. */
  lemma OverlayElsewhere(v: View, w: View, pa: nat, va: nat, end: nat, a: nat)
    requires Overlaid(v, w, pa, va, end)
    requires a < va || a >= end
    ensures Translate(w, a) == Translate(v, a)
  {
    LeafLevelSame(v, w, a);
    var l := LeafLevel(v, a);
    if l < LEVELS {
      assert IsLeaf(v, NodeAt(a, l));
    }
  }

  /** The output address of every block of the interval is aligned to the size of the block. */
  ghost predicate Congruent(pa: nat, va: nat, end: nat) {
    forall n :: Maximal(n, va, end) ==> (pa - va) % Span(n.level) == 0
  }

  /** A 2 MiB block cannot be mapped to an address that is only aligned to a page: the block is chosen from va alone. */
  lemma PageAlignedIsNotEnough()
    ensures !Congruent(0x1000, 0x20_0000, 0x40_0000)
  {
    assert Maximal(Node(2, 1), 0x20_0000, 0x40_0000);
  }

  lemma AlignedOutput(n: Node, pa: nat, va: nat)
    requires n.level < LEVELS && va <= Base(n)
    ensures (pa + Base(n) - va) % Span(n.level) == 0 <==> (pa - va) % Span(n.level) == 0
  {
    BaseIsProduct(n);
    SameRemainder(pa - va, Span(n.level), n.index);
  }

  lemma BaseIsProduct(n: Node)
    requires n.level < LEVELS
    ensures Base(n) == n.index * Span(n.level)
  {
  }

  lemma OverlayLinearAt(v: View, w: View, root: nat, pa: nat, va: nat, end: nat, a: nat)
    requires Overlaid(v, w, pa, va, end) && Closed(w, root) && Congruent(pa, va, end)
    requires va % 0x1000 == 0 && end % 0x1000 == 0 && va <= a < end
    ensures Translate(w, a) == pa + (a - va)
  {
    var n := MaximalCovers(va, end, a);
    assert IsLeaf(w, n);
    LeafFound(w, root, n, a);
    AlignedOutput(n, pa, va);
    LeafIsLinear(n, w[n].pa);
  }

  lemma OverlayAlignedAt(v: View, w: View, root: nat, pa: nat, va: nat, end: nat, n: Node)
    requires Overlaid(v, w, pa, va, end) && Closed(w, root) && Maximal(n, va, end)
    requires forall a: nat | va <= a < end :: Translate(w, a) == pa + (a - va)
    ensures (pa - va) % Span(n.level) == 0
  {
    assert IsLeaf(w, n);
    forall a: nat | Covers(n, a)
      ensures Or(w[n].pa, a % Span(n.level)) == w[n].pa + (a - Base(n))
    {
      LeafFound(w, root, n, a);
      assert Translate(w, a) == pa + (a - va);
    }
    LeafIsLinear(n, w[n].pa);
    AlignedOutput(n, pa, va);
  }

  /** Walking the interval gives pa plus the distance from va for every address exactly when the distance between pa
      and va is a multiple of every block size used. */
  lemma OverlayTranslates(v: View, w: View, root: nat, pa: nat, va: nat, end: nat)
    requires Overlaid(v, w, pa, va, end) && Closed(w, root)
    requires va % 0x1000 == 0 && end % 0x1000 == 0
    ensures (forall a: nat | va <= a < end :: Translate(w, a) == pa + (a - va)) <==> Congruent(pa, va, end)
  {
    if Congruent(pa, va, end) {
      forall a: nat | va <= a < end
        ensures Translate(w, a) == pa + (a - va)
      {
        OverlayLinearAt(v, w, root, pa, va, end, a);
      }
    }
    if forall a: nat | va <= a < end :: Translate(w, a) == pa + (a - va) {
      forall n | Maximal(n, va, end)
        ensures (pa - va) % Span(n.level) == 0
      {
        OverlayAlignedAt(v, w, root, pa, va, end, n);
      }
    }
  }
}
