/** Fixed-size object pool: objects are carved out of donated blocks, and the free ones are chained through
    their own first word. */
module PoolAllocator {
  import opened Division
  import opened Lists

  /** The bytes taken by count objects of the given size. */
  ghost function Extent(size: nat, count: nat): nat {
    if count == 0 then 0 else Extent(size, count - 1) + size
  }

  lemma {:induction false} ExtentIsProduct(size: nat, count: nat)
    ensures Extent(size, count) == size * count
  {
    if count > 0 {
      ExtentIsProduct(size, count - 1);
      assert size * count == size * (count - 1) + size;
    }
  }

  /** The objects of the block at start, in address order. */
  ghost function Slots(start: int, size: nat, count: nat): (s: seq<int>)
    ensures |s| == count
  {
    if count == 0 then [] else Slots(start, size, count - 1) + [start + Extent(size, count - 1)]
  }

  ghost predicate Chained(word: map<int, int>, head: int, s: seq<int>) {
    && NoDup(s)
    && 0 !in s
    && head == At(s, 0)
    && forall i | 0 <= i < |s| :: ChainedAt(word, s, i)
  }

  ghost predicate ChainedAt(word: map<int, int>, s: seq<int>, i: int)
    requires 0 <= i < |s|
  {
    s[i] in word && word[s[i]] == At(s, i + 1)
  }

  lemma ChainInside(word: map<int, int>, head: int, s: seq<int>)
    requires Chained(word, head, s)
    ensures forall p <- s :: p in word
  {
    forall p | p in s
      ensures p in word
    {
      var i :| 0 <= i < |s| && s[i] == p;
      assert ChainedAt(word, s, i);
    }
  }

  lemma ChainPop(word: map<int, int>, head: int, s: seq<int>)
    requires Chained(word, head, s) && s != []
    ensures head in word && Chained(word, word[head], s[1..])
  {
    assert ChainedAt(word, s, 0);
    forall i | 0 <= i < |s| - 1
      ensures ChainedAt(word, s[1..], i)
    {
      assert ChainedAt(word, s, i + 1);
    }
  }

  lemma ChainPush(word: map<int, int>, head: int, s: seq<int>, p: int)
    requires Chained(word, head, s) && p != 0 && p !in s
    ensures Chained(word[p := head], p, [p] + s)
  {
    var w, t := word[p := head], [p] + s;
    forall i | 0 <= i < |t|
      ensures ChainedAt(w, t, i)
    {
      if i > 0 {
        assert ChainedAt(word, s, i - 1);
      }
    }
  }

  /** A run of new objects, each chained to the next and the last to the old head, extends the chain. */
  lemma ChainRun(word: map<int, int>, word': map<int, int>, head: int, s: seq<int>, run: seq<int>)
    requires Chained(word, head, s)
    requires run != [] && 0 !in run && NoDup(run) && forall p <- run :: p !in word
    requires forall p | p in word :: p in word' && word'[p] == word[p]
    requires forall i | 0 <= i < |run| :: ChainedAt(word', run + s, i)
    ensures Chained(word', run[0], run + s)
  {
    ChainInside(word, head, s);
    var t := run + s;
    NoDupAppend(run, s);
    forall i | |run| <= i < |t|
      ensures ChainedAt(word', t, i)
    {
      var k := i - |run|;
      assert ChainedAt(word, s, k);
      assert t[i] == s[k] && At(t, i + 1) == At(s, k + 1);
    }
  }

  lemma NoDupAppend(s: seq<int>, t: seq<int>)
    requires NoDup(s) && NoDup(t) && forall p <- s :: p !in t
    ensures NoDup(s + t)
  {
    assert forall i | 0 <= i < |s| :: s[i] in s;
    assert forall i | 0 <= i < |t| :: t[i] in t;
  }

  /** Setting the word of the next object of a chain under construction. */
  lemma PointNext(word: map<int, int>, full: seq<int>, i: nat, v: int)
    requires i < |full| && v == At(full, i + 1)
    requires forall j | 0 <= j < i :: ChainedAt(word, full, j) && full[j] != full[i]
    ensures var w := word[full[i] := v]; forall j | 0 <= j <= i :: ChainedAt(w, full, j)
  {
    var w := word[full[i] := v];
    forall j | 0 <= j <= i
      ensures ChainedAt(w, full, j)
    {
      assert j < i ==> ChainedAt(word, full, j);
    }
  }

  ghost predicate Apart(a: int, b: int, bytes: int) {
    a + bytes <= b || b + bytes <= a
  }

  lemma {:induction false} SlotIs(start: int, size: nat, count: nat, i: nat)
    requires i < count
    ensures Slots(start, size, count)[i] == start + Extent(size, i)
  {
    if i < count - 1 {
      SlotIs(start, size, count - 1, i);
    }
  }

  lemma {:induction false} ExtentGrows(size: nat, i: nat, n: nat)
    requires i < n
    ensures Extent(size, i) + size <= Extent(size, n)
  {
    if i < n - 1 {
      ExtentGrows(size, i, n - 1);
    }
  }

  /** Every object lies inside its block. */
  lemma SlotsInside(start: int, size: nat, count: nat)
    requires size > 0
    ensures forall p <- Slots(start, size, count) :: start <= p && p + size <= start + Extent(size, count)
  {
    var s := Slots(start, size, count);
    forall i | 0 <= i < count
      ensures start <= s[i] && s[i] + size <= start + Extent(size, count)
    {
      SlotIs(start, size, count, i);
      ExtentGrows(size, i, count);
    }
  }

  lemma SlotsApart(start: int, size: nat, count: nat)
    requires size > 0
    ensures NoDup(Slots(start, size, count))
    ensures forall p, q | p in Slots(start, size, count) && q in Slots(start, size, count) && p != q ::
      Apart(p, q, size)
  {
    var s := Slots(start, size, count);
    forall i, j | 0 <= i < j < count
      ensures s[i] + size <= s[j]
    {
      SlotIs(start, size, count, i);
      SlotIs(start, size, count, j);
      ExtentGrows(size, i, j);
    }
  }

  /** All objects of the given blocks. */
  ghost function AllSlots(ds: seq<int>, size: nat, count: nat): set<int> {
    if ds == [] then {} else AllSlots(ds[..|ds| - 1], size, count) + Elements(Slots(ds[|ds| - 1], size, count))
  }

  ghost function Elements(s: seq<int>): set<int> {
    set p <- s
  }

  lemma ElementsAppend(s: seq<int>, t: seq<int>)
    ensures Elements(s + t) == Elements(s) + Elements(t)
  {
  }

  lemma {:induction false} DistinctCount(s: seq<int>)
    requires NoDup(s)
    ensures |Elements(s)| == |s|
  {
    if s != [] {
      var t := s[..|s| - 1];
      DistinctCount(t);
      assert Elements(s) == Elements(t) + {s[|s| - 1]};
    }
  }

  ghost predicate BlocksApart(ds: seq<int>, bytes: nat) {
    NoDup(ds) && forall d, e | d in ds && e in ds && d != e :: Apart(d, e, bytes)
  }

  lemma {:induction false} SlotOwner(ds: seq<int>, size: nat, count: nat, p: int) returns (i: nat)
    requires p in AllSlots(ds, size, count)
    ensures i < |ds| && p in Slots(ds[i], size, count)
  {
    i := |ds| - 1;
    if p !in Slots(ds[i], size, count) {
      i := SlotOwner(ds[..i], size, count, p);
    }
  }

  /** Objects of a block apart from all the others are new. */
  lemma NewSlots(ds: seq<int>, d: int, size: nat, count: nat)
    requires size > 0 && forall e <- ds :: Apart(d, e, Extent(size, count))
    ensures Elements(Slots(d, size, count)) !! AllSlots(ds, size, count)
  {
    SlotsInside(d, size, count);
    forall p | p in AllSlots(ds, size, count)
      ensures p !in Slots(d, size, count)
    {
      var i := SlotOwner(ds, size, count, p);
      assert Apart(d, ds[i], Extent(size, count));
      SlotsInside(ds[i], size, count);
    }
  }

  lemma OneBlockCount(d: int, size: nat, count: nat)
    requires size > 0
    ensures |Elements(Slots(d, size, count))| == count
  {
    SlotsApart(d, size, count);
    DistinctCount(Slots(d, size, count));
  }

  /** What a block that is apart from all donated ones brings: new distinct objects at steps of their size. */
  lemma NewBlock(ds: seq<int>, d: int, size: nat, count: nat)
    requires size > 0 && count > 0 && BlocksApart(ds, Extent(size, count))
    requires d > 0 && forall e <- ds :: Apart(d, e, Extent(size, count))
    ensures NoDup(Slots(d, size, count)) && 0 !in Slots(d, size, count)
    ensures Elements(Slots(d, size, count)) !! AllSlots(ds, size, count)
    ensures Slots(d, size, count)[0] == d
    ensures AllSlots(ds + [d], size, count) == AllSlots(ds, size, count) + Elements(Slots(d, size, count))
    ensures BlocksApart(ds + [d], Extent(size, count))
  {
    SlotsInside(d, size, count);
    SlotsApart(d, size, count);
    NewSlots(ds, d, size, count);
    SlotIs(d, size, count, 0);
    assert 0 < Extent(size, count) by { ExtentGrows(size, 0, count); }
    NoDupAppend(ds, [d]);
    assert (ds + [d])[..|ds|] == ds;
  }

  lemma {:induction false} SlotCount(ds: seq<int>, size: nat, count: nat)
    requires size > 0 && BlocksApart(ds, Extent(size, count))
    ensures |AllSlots(ds, size, count)| == Extent(count, |ds|)
  {
    if ds != [] {
      var n := |ds| - 1;
      SlotCount(ds[..n], size, count);
      assert forall e | e in ds[..n] :: Apart(ds[n], e, Extent(size, count)) by {
        assert BlocksApart(ds, Extent(size, count));
      }
      NewSlots(ds[..n], ds[n], size, count);
      OneBlockCount(ds[n], size, count);
      assert |AllSlots(ds, size, count)| == Extent(count, n) + count;
    }
  }

  class Pool {
    var nextFree: int
    var objectSize: nat
    var blockSize: nat
    var objects: nat
    var freeObjects: nat
    var noNewBlock: bool
    // the first word of every object
    var word: map<int, int>

    ghost var chain: seq<int>
    ghost var donated: seq<int>

    ghost predicate Valid()
      reads this
    {
      && objectSize >= 8 && blockSize >= 1
      && Chained(word, nextFree, chain)
      && freeObjects == |chain|
      && objects == Extent(blockSize, |donated|)
      && (forall d | d in donated :: d > 0)
      && BlocksApart(donated, Extent(objectSize, blockSize))
      && word.Keys == AllSlots(donated, objectSize, blockSize)
    }

    /** The objects that are in use. */
    ghost function HandedOut(): set<int>
      reads this
    {
      word.Keys - Elements(chain)
    }

    /** A pool over one given memory region. The object count divides by the size as given, although smaller
        objects are then widened to 8 bytes. */
    constructor UsingMemory(size: nat, blockBytes: nat, block: int)
      requires 1 <= size <= blockBytes && block > 0
      ensures Valid() && fresh(this) && !noNewBlock
      ensures objectSize == (if size >= 8 then size else 8) && blockSize == blockBytes / size
        && freeObjects == objects == blockSize
      ensures donated == [block] && chain == Slots(block, objectSize, blockSize) && HandedOut() == {}
    {
      objectSize := if size >= 8 then size else 8;
      blockSize := blockBytes / size;
      nextFree, objects, freeObjects, noNewBlock := 0, 0, 0, false;
      word, chain, donated := map[], [], [];
      new;
      QuotientPositive(blockBytes, size);
      AllocateNewBlock(block, 0);
      assert chain == Slots(block, objectSize, blockSize) + [];
    }

    static lemma QuotientPositive(bytes: nat, size: nat)
      requires 0 < size <= bytes
      ensures bytes / size >= 1
    {
    }

    /** The objects stay inside the given region exactly when the widening does not use up more than the
        remainder of the division: always for objects of at least 8 bytes. */
    static lemma ObjectsFitRegion(size: nat, bytes: nat)
      requires 1 <= size <= bytes
      ensures Extent(if size >= 8 then size else 8, bytes / size) <= bytes
        <==> size >= 8 || bytes / size * (8 - size) <= bytes % size
    {
      var q := bytes / size;
      var wide := if size >= 8 then size else 8;
      ExtentIsProduct(wide, q);
      assert bytes == size * q + bytes % size;
      if size < 8 {
        assert wide * q == size * q + q * (8 - size);
      }
    }

    /** Objects of 4 bytes do not fit: two of them are counted for a region of 8 bytes, and each takes 8. */
    static lemma SmallObjectsDoNotFit()
      ensures !(Extent(8, 8 / 4) <= 8)
    {
      ExtentIsProduct(8, 2);
    }

    /** The counters tell how many objects are in use. */
    lemma OutstandingCount()
      requires Valid()
      ensures |HandedOut()| == objects - freeObjects
    {
      SlotCount(donated, objectSize, blockSize);
      DistinctCount(chain);
      ChainInside(word, nextFree, chain);
      assert Elements(chain) <= word.Keys;
    }

    lemma ChainFacts()
      requires Valid()
      ensures nextFree == At(chain, 0) && freeObjects == |chain| && NoDup(chain) && 0 !in chain
      ensures chain != [] ==> chain[0] in word && word[chain[0]] == At(chain, 1)
    {
      assert chain != [] ==> ChainedAt(word, chain, 0);
    }

    /** Every object is a whole object of a donated block, and no two objects overlap, free or not. */
    lemma ObjectsDisjoint(p: int, q: int) returns (i: nat)
      requires Valid() && p in word && q in word && p != q
      ensures Apart(p, q, objectSize)
      ensures i < |donated| && donated[i] <= p && p + objectSize <= donated[i] + Extent(objectSize, blockSize)
    {
      i := SlotOwner(donated, objectSize, blockSize, p);
      var j := SlotOwner(donated, objectSize, blockSize, q);
      SlotsInside(donated[i], objectSize, blockSize);
      SlotsInside(donated[j], objectSize, blockSize);
      SlotsApart(donated[i], objectSize, blockSize);
      assert donated[i] != donated[j] ==> Apart(donated[i], donated[j], Extent(objectSize, blockSize));
    }

    ghost predicate Donatable(b: int)
      reads this
    {
      b == 0 || (b > 0 && forall d <- donated :: Apart(b, d, Extent(objectSize, blockSize)))
    }

    /** Makes every object of a block point at the next one, and the last at the first free object. */
    method Thread(newBlock: int)
      requires blockSize >= 1
      requires var s := Slots(newBlock, objectSize, blockSize); NoDup(s) && s[0] == newBlock
      requires nextFree == At(chain, 0)
      modifies this`word
      ensures var s := Slots(newBlock, objectSize, blockSize);
        && word.Keys == old(word.Keys) + Elements(s)
        && (forall p | p in old(word) && p !in s :: word[p] == old(word)[p])
        && forall j | 0 <= j < blockSize :: ChainedAt(word, s + chain, j)
    {
      var block := newBlock;
      ghost var s := Slots(newBlock, objectSize, blockSize);
      ghost var full := s + chain;
      for i := 0 to blockSize - 1
        invariant block == s[i]
        invariant word.Keys == old(word.Keys) + Elements(s[..i])
        invariant forall p | p in old(word) && p !in s :: word[p] == old(word)[p]
        invariant forall j | 0 <= j < i :: ChainedAt(word, full, j)
      {
        SlotIs(newBlock, objectSize, blockSize, i);
        SlotIs(newBlock, objectSize, blockSize, i + 1);
        PointNext(word, full, i, block + objectSize);
        assert Elements(s[..i + 1]) == Elements(s[..i]) + {s[i]};
        word := word[block := block + objectSize];
        block := block + objectSize;
      }
      PointNext(word, full, blockSize - 1, nextFree);
      assert Elements(s) == Elements(s[..blockSize - 1]) + {block};
      word := word[block := nextFree];
    }

    /** Puts the objects of a block before the free chain. */
    method Carve(newBlock: int)
      requires Valid() && newBlock != 0 && Donatable(newBlock)
      modifies this
      ensures Valid() && objects >= old(objects) && freeObjects == old(freeObjects) + blockSize
      ensures objectSize == old(objectSize) && blockSize == old(blockSize) && noNewBlock == old(noNewBlock)
      ensures chain == Slots(newBlock, objectSize, blockSize) + old(chain) && donated == old(donated) + [newBlock]
      ensures HandedOut() == old(HandedOut())
    {
      hide Slots, AllSlots, Chained, BlocksApart, NoDup;
      ghost var s := Slots(newBlock, objectSize, blockSize);
      ChainFacts();
      NewBlock(donated, newBlock, objectSize, blockSize);
      Thread(newBlock);
      ChainInside(old(word), nextFree, chain);
      ElementsAppend(s, chain);
      ChainRun(old(word), word, nextFree, chain, s);
      nextFree := newBlock;
      objects := objects + blockSize;
      freeObjects := freeObjects + blockSize;
      chain := s + chain;
      donated := donated + [newBlock];
    }

    /** Adds a block to the pool. Without a block in hand it asks the heap for one; fromHeap is the answer. */
    method AllocateNewBlock(newBlock: int, fromHeap: int)
      requires Valid()
      requires if newBlock == 0 then Donatable(fromHeap) else Donatable(newBlock)
      modifies this
      ensures Valid()
      ensures objectSize == old(objectSize) && blockSize == old(blockSize)
      ensures objects == Extent(blockSize, |donated|) && objects >= old(objects) && freeObjects >= old(freeObjects)
      ensures freeObjects ==
        old(freeObjects) + if (if newBlock == 0 then fromHeap else newBlock) != 0 then blockSize else 0
      ensures noNewBlock == (newBlock != 0 && old(noNewBlock))
      ensures var b := if newBlock == 0 then fromHeap else newBlock;
        && (b == 0 ==>
          unchanged(`chain) && unchanged(`donated) && unchanged(`word) && unchanged(`nextFree) && unchanged(`objects))
        && (b != 0 ==> chain == Slots(b, objectSize, blockSize) + old(chain) && donated == old(donated) + [b])
      ensures HandedOut() == old(HandedOut())
    {
      var block := newBlock;
      if block == 0 {
        noNewBlock := true;
        block := fromHeap;
        noNewBlock := false;
        if block == 0 {
          return;
        }
      }
      Carve(block);
    }

    /** Unhooks the first free object. */
    method TakeFirst() returns (obj: int)
      requires Valid() && nextFree != 0
      modifies this`nextFree, this`freeObjects, this`chain
      ensures Valid()
      ensures old(chain) == [obj] + chain && obj != 0
      ensures HandedOut() == old(HandedOut()) + {obj} && obj !in old(HandedOut())
    {
      ChainPop(word, nextFree, chain);
      ElementsAppend([chain[0]], chain[1..]);
      assert chain == [chain[0]] + chain[1..];
      obj := nextFree;
      nextFree := word[nextFree];
      freeObjects := freeObjects - 1;
      chain := chain[1..];
    }

    ghost predicate IsLow()
      requires objects > 0
      reads this
    {
      !noNewBlock && freeObjects * 100 / objects < 20
    }

    /** The block an allocation adds to the pool: none unless fewer than a fifth of the objects are free; the
        second answer of the heap counts only when the first was null and the pool is empty. */
    ghost function GrownBy(grown1: int, grown2: int): int
      requires objects > 0
      reads this
    {
      if !IsLow() then 0 else if grown1 != 0 then grown1 else if chain == [] then grown2 else 0
    }

    ghost function ChainWith(b: int): seq<int>
      reads this
    {
      (if b == 0 then [] else Slots(b, objectSize, blockSize)) + chain
    }

    /** Takes the first free object, after asking the heap for a new block when few are left; null if there is
        none. The heap's answers to the two possible requests are parameters. */
    method Alloc(grown1: int, grown2: int) returns (obj: int)
      requires Valid() && objects > 0
      requires Donatable(grown1) && Donatable(grown2)
      modifies this
      ensures Valid() && objects > 0
      ensures objectSize == old(objectSize) && blockSize == old(blockSize) && noNewBlock == old(noNewBlock)
      ensures donated == old(donated) + if old(GrownBy(grown1, grown2)) == 0 then [] else [old(GrownBy(grown1, grown2))]
      ensures old(ChainWith(GrownBy(grown1, grown2))) == (if obj == 0 then [] else [obj]) + chain
      ensures obj == 0 ==> chain == []
      ensures HandedOut() == old(HandedOut()) + (if obj == 0 then {} else {obj})
      ensures obj != 0 ==> obj !in old(HandedOut())
      ensures old(GrownBy(grown1, grown2)) == 0 ==> word == old(word)
      ensures old(noNewBlock || 5 * freeObjects >= objects) ==> donated == old(donated)
      ensures old(!noNewBlock && 5 * freeObjects < objects) ==>
        donated == old(donated) +
          if grown1 != 0 then [grown1] else if old(chain) == [] && grown2 != 0 then [grown2] else []
    {
      ZeroIsLow(freeObjects, objects);
      LowIsFifth(freeObjects, objects);
      var freePercent := freeObjects * 100 / objects;
      if freePercent < 20 && !noNewBlock {
        AllocateNewBlock(0, grown1);
      }
      if nextFree == 0 && !noNewBlock {
        AllocateNewBlock(0, grown2);
      }
      if nextFree == 0 {
        return 0;
      }
      obj := TakeFirst();
    }

    static lemma LowIsFifth(free: nat, all: nat)
      requires all > 0
      ensures free * 100 / all < 20 <==> 5 * free < all
    {
      var q := free * 100 / all;
      assert free * 100 == all * q + free * 100 % all;
      if q < 20 {
        MulMono(all, q, 19);
      } else {
        MulMono(all, 20, q);
      }
    }

    static lemma ZeroIsLow(free: nat, all: nat)
      requires all > 0
      ensures free == 0 ==> free * 100 / all == 0
    {
    }

    /** Puts a used object back in front of the free chain; null changes nothing. */
    method Free(obj: int)
      requires Valid()
      requires obj == 0 || obj in HandedOut()
      modifies this
      ensures Valid()
      ensures objectSize == old(objectSize) && blockSize == old(blockSize) && noNewBlock == old(noNewBlock)
      ensures objects == old(objects) && donated == old(donated)
      ensures chain == (if obj == 0 then [] else [obj]) + old(chain)
      ensures word == if obj == 0 then old(word) else old(word)[obj := At(old(chain), 0)]
      ensures HandedOut() == old(HandedOut()) - (if obj == 0 then {} else {obj})
    {
      if obj == 0 {
        return;
      }
      ChainPush(word, nextFree, chain, obj);
      ElementsAppend([obj], chain);
      word := word[obj := nextFree];
      nextFree := obj;
      freeObjects := freeObjects + 1;
      chain := [obj] + chain;
    }
  }
}
