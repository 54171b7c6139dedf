/** Doubly linked lists threaded through structs. A struct is named by its non-zero address, and one map holds
    the pair of link fields of each struct. */
module Lists {
  datatype Links = Links(prev: int, next: int)

  function At(s: seq<int>, i: int): int {
    if 0 <= i < |s| then s[i] else 0
  }

  ghost predicate NoDup(s: seq<int>) {
    forall i, j | 0 <= i < j < |s| :: s[i] != s[j]
  }

  /** The structs of s, in this order, form the list that starts at head. */
  ghost predicate Linked(l: map<int, Links>, head: int, s: seq<int>) {
    && NoDup(s)
    && 0 !in s
    && head == At(s, 0)
    && forall i | 0 <= i < |s| :: LinkedAt(l, s, i)
  }

  ghost predicate LinkedAt(l: map<int, Links>, s: seq<int>, i: int)
    requires 0 <= i < |s|
  {
    s[i] in l && l[s[i]] == Links(At(s, i - 1), At(s, i + 1))
  }

  function SetPrev(l: map<int, Links>, p: int, v: int): map<int, Links> {
    if p in l then l[p := l[p].(prev := v)] else l
  }

  function SetNext(l: map<int, Links>, p: int, v: int): map<int, Links> {
    if p in l then l[p := l[p].(next := v)] else l
  }

  /** The link fields after the two neighbours of b have been joined. */
  function Unlink(l: map<int, Links>, b: int): map<int, Links>
    requires b in l
  {
    SetNext(SetPrev(l, l[b].next, l[b].prev), l[b].prev, l[b].next)
  }

  /** The link fields after b has been put before the first struct. */
  function LinkFront(l: map<int, Links>, head: int, b: int): map<int, Links> {
    SetPrev(l, head, b)[b := Links(0, head)]
  }

  function Without(s: seq<int>, i: nat): seq<int>
    requires i < |s|
  {
    s[..i] + s[i + 1..]
  }

  lemma UnlinkKeeps(l: map<int, Links>, head: int, s: seq<int>, i: nat)
    requires Linked(l, head, s) && i < |s|
    requires 0 !in l
    ensures s[i] in l
    ensures l[s[i]].next != 0 ==> l[s[i]].next in l
    ensures l[s[i]].prev != 0 ==> l[s[i]].prev in l
    ensures Linked(Unlink(l, s[i]), if l[s[i]].prev != 0 then head else l[s[i]].next, Without(s, i))
    ensures Unlink(l, s[i]).Keys == l.Keys
    ensures forall p | p in l && p !in s :: Unlink(l, s[i])[p] == l[p]
  {
    assert LinkedAt(l, s, i);
    assert i > 0 ==> LinkedAt(l, s, i - 1);
    assert i + 1 < |s| ==> LinkedAt(l, s, i + 1);
    var b := s[i];
    var t := Without(s, i);
    var m := Unlink(l, b);
    forall j | 0 <= j < |t|
      ensures LinkedAt(m, t, j)
    {
      assert LinkedAt(l, s, if j < i then j else j + 1);
    }
  }

  lemma LinkFrontKeeps(l: map<int, Links>, head: int, s: seq<int>, b: int)
    requires Linked(l, head, s)
    requires b != 0 && b !in s && 0 !in l
    ensures head != 0 ==> head in l
    ensures Linked(LinkFront(l, head, b), b, [b] + s)
    ensures LinkFront(l, head, b).Keys == l.Keys + {b}
    ensures forall p | p in l && p !in s && p != b :: LinkFront(l, head, b)[p] == l[p]
  {
    var t := [b] + s;
    var m := LinkFront(l, head, b);
    assert s != [] ==> LinkedAt(l, s, 0);
    forall j | 0 <= j < |t|
      ensures LinkedAt(m, t, j)
    {
      if j > 0 {
        assert LinkedAt(l, s, j - 1);
      }
    }
  }

  lemma HeadInList(l: map<int, Links>, head: int, s: seq<int>)
    requires Linked(l, head, s)
    ensures head != 0 ==> head in l && head in s
  {
    assert s != [] ==> LinkedAt(l, s, 0);
  }

  lemma LinkFrontNew(l: map<int, Links>, head: int, b: int)
    requires b !in l
    ensures LinkFront(l[b := Links(0, 0)], head, b).Keys == l.Keys + {b}
    ensures head != b ==> LinkFront(l[b := Links(0, 0)], head, b) == LinkFront(l, head, b)
  {
  }

  /** A list is untouched by changes to the links of other structs. */
  lemma OtherLinks(l: map<int, Links>, m: map<int, Links>, head: int, s: seq<int>)
    requires Linked(l, head, s)
    requires forall p | p in s && p in l :: p in m && m[p] == l[p]
    ensures Linked(m, head, s)
  {
    forall i | 0 <= i < |s|
      ensures LinkedAt(m, s, i)
    {
      assert LinkedAt(l, s, i);
    }
  }

  /** Taking back a front insertion restores every link field. */
  lemma UnlinkAfterLinkFront(l: map<int, Links>, head: int, s: seq<int>, b: int)
    requires Linked(l, head, s)
    requires b != 0 && b !in l && 0 !in l
    ensures Unlink(LinkFront(l, head, b), b) - {b} == l
  {
    if s != [] {
      assert LinkedAt(l, s, 0);
    }
    assert (Unlink(LinkFront(l, head, b), b) - {b}).Keys == l.Keys;
  }
}
