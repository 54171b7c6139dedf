/** The structure block of a flattened device tree. */
module DeviceTree {
  import opened Sequences

  const DTB_BEGIN_NODE: nat := 1
  const DTB_END_NODE: nat := 2
  const DTB_PROPERTY: nat := 3
  const DTB_NOP: nat := 4
  const DTB_STRUCT_END: nat := 9

  datatype Option<T> = None | Some(value: T)

  // ---------------------------------------------------------------- reading memory

  /** A byte of the blob; behind its end there are zeros. */
  function ByteAt(m: Bytes, p: nat): Byte {
    if p < |m| then m[p] else 0
  }

  /** The big-endian 32-bit word with the given number. */
  function Word(m: Bytes, t: nat): nat {
    0x100_0000 * ByteAt(m, 4 * t) + 0x1_0000 * ByteAt(m, 4 * t + 1) + 0x100 * ByteAt(m, 4 * t + 2)
      + ByteAt(m, 4 * t + 3)
  }

  /** The string at p, without its NUL. */
  function CString(m: Bytes, p: nat): Bytes
    decreases |m| - p
  {
    if p >= |m| || m[p] == 0 then [] else [m[p]] + CString(m, p + 1)
  }

  function CopyOf(m: Bytes, p: nat, n: nat): (s: Bytes)
    ensures |s| == n
    decreases n
  {
    if n == 0 then [] else [ByteAt(m, p)] + CopyOf(m, p + 1, n - 1)
  }

  // ---------------------------------------------------------------- the parser

  datatype Property = Property(key: Bytes, value: Bytes)

  /** A node with its lists in the order of the parser's linked lists. */
  datatype Tree = Tree(name: Bytes, properties: seq<Property>, children: seq<Tree>)

  /** What load_device_tree_node makes of the tokens from t on: the node and the position of its end token. */
  function ParseNode(m: Bytes, strings: Bytes, t: nat, end: nat): (r: Option<(Tree, nat)>)
    ensures r.Some? ==> r.value.1 >= t
    decreases end - t, 0
  {
    if Word(m, t) == DTB_STRUCT_END then Some((Tree([], [], []), t)) else
    var name := CString(m, 4 * (t + 1));
    var next := t + 1 + (|name| + 4) / 4;
    if next < end then ParseTokens(m, strings, next, end, Tree(name, [], [])) else None
  }

  function ParseTokens(m: Bytes, strings: Bytes, t: nat, end: nat, node: Tree): (r: Option<(Tree, nat)>)
    requires t < end
    ensures r.Some? ==> r.value.1 >= t
    decreases end - t, 1
  {
    var tok := Word(m, t);
    if tok == DTB_BEGIN_NODE then
      var child := ParseNode(m, strings, t, end);
      if child.None? then None
      else ParseOn(m, strings, t, child.value.1 + 1, end, node.(children := [child.value.0] + node.children))
    else if tok == DTB_END_NODE then Some((node, t))
    else if tok == DTB_PROPERTY then
      var length, off := Word(m, t + 1), Word(m, t + 2);
      var property := Property(CString(strings, off), CopyOf(m, 4 * (t + 3), length));
      ParseOn(m, strings, t, t + 3 + (length + 3) / 4, end, node.(properties := [property] + node.properties))
    else ParseOn(m, strings, t, t + 1, end, node)
  }

  function ParseOn(m: Bytes, strings: Bytes, t: nat, next: nat, end: nat, node: Tree): (r: Option<(Tree, nat)>)
    requires t < end && t < next
    ensures r.Some? ==> r.value.1 >= t
    decreases end - t, 0
  {
    if next < end then ParseTokens(m, strings, next, end, node) else None
  }

  class DtNode {
    var name: Bytes
    var properties: seq<Property>
    var children: seq<Tree>

    function Value(): Tree
      reads this
    {
      Tree(name, properties, children)
    }

    constructor ()
      ensures Value() == Tree([], [], [])
    {
      name, properties, children := [], [], [];
    }
  }

  /** load_device_tree_node: fills the node in place and returns the position of its end token. */
  method LoadDeviceTreeNode(m: Bytes, strings: Bytes, nodeTokens: nat, nodeTokensEnd: nat, node: DtNode)
      returns (r: Option<nat>)
    requires node.Value() == Tree([], [], [])
    modifies node
    ensures var p := ParseNode(m, strings, nodeTokens, nodeTokensEnd);
      if p.Some? then r == Some(p.value.1) && node.Value() == p.value.0 else r == None
    ensures Word(m, nodeTokens) == 9 ==> r == Some(nodeTokens) && node.Value() == Tree([], [], [])
    decreases nodeTokensEnd - nodeTokens
  {
    hide Word, CString, CopyOf;
    if Word(m, nodeTokens) == DTB_STRUCT_END {
      return Some(nodeTokens);
    }
    var t := nodeTokens + 1;
    node.name := CString(m, 4 * t);
    t := t + (|node.name| + 4) / 4;
    while t < nodeTokensEnd
      invariant t > nodeTokens
      invariant ParseNode(m, strings, nodeTokens, nodeTokensEnd) ==
        if t < nodeTokensEnd then ParseTokens(m, strings, t, nodeTokensEnd, node.Value()) else None
    {
      var tok := Word(m, t);
      if tok == DTB_BEGIN_NODE {
        var newNode := new DtNode();
        var last := LoadDeviceTreeNode(m, strings, t, nodeTokensEnd, newNode);
        if last == None {
          return None;
        }
        t := last.value;
        node.children := [newNode.Value()] + node.children;
      } else if tok == DTB_END_NODE {
        return Some(t);
      } else if tok == DTB_PROPERTY {
        t := t + 1;
        var propertyLength := Word(m, t);
        t := t + 1;
        var propertyNameOff := Word(m, t);
        node.properties := [Property(CString(strings, propertyNameOff), CopyOf(m, 4 * (t + 1), propertyLength))]
          + node.properties;
        t := t + (propertyLength + 3) / 4;
      }
      t := t + 1;
    }
    return None;
  }

  // ---------------------------------------------------------------- the standard token stream

  /** What a node of the structure block holds, in order: properties with the offset of their name in the strings
      block, child nodes, and NOP tokens. */
  datatype Node = Node(name: Bytes, items: seq<Item>)

  datatype Item = Prop(off: nat, value: Bytes) | Child(node: Node) | Nop

  function EncodeWord(w: nat): (s: Bytes)
    requires w < 0x1_0000_0000
    ensures |s| == 4
  {
    [w / 0x100_0000, w / 0x1_0000 % 0x100, w / 0x100 % 0x100, w % 0x100]
  }

  function Zeros(n: nat): (s: Bytes)
    ensures |s| == n
  {
    if n == 0 then [] else [0] + Zeros(n - 1)
  }

  /** Filled up with zeros to whole words. */
  function Padded(s: Bytes): (r: Bytes)
    ensures |r| == (|s| + 3) / 4 * 4
  {
    s + Zeros((|s| + 3) / 4 * 4 - |s|)
  }

  /** Names have no NUL in them, and numbers fit their words. */
  ghost predicate Encodable(n: Node)
    decreases n
  {
    0 !in n.name && forall i | 0 <= i < |n.items| :: EncodableItem(n.items[i])
  }

  ghost predicate EncodableItem(item: Item)
    decreases item
  {
    match item
    case Prop(off, value) => off < 0x1_0000_0000 && |value| < 0x1_0000_0000
    case Child(node) => Encodable(node)
    case Nop => true
  }

  ghost function Flatten(n: Node): (s: Bytes)
    requires Encodable(n)
    ensures |s| % 4 == 0 && |s| > 0
    decreases n, 0
  {
    EncodeWord(DTB_BEGIN_NODE) + Padded(n.name + [0]) + FlattenItems(n, 0) + EncodeWord(DTB_END_NODE)
  }

  /** The items of n from the k-th on. */
  ghost function FlattenItems(n: Node, k: nat): (s: Bytes)
    requires Encodable(n) && k <= |n.items|
    ensures |s| % 4 == 0
    decreases n, 0, |n.items| - k
  {
    if k == |n.items| then [] else FlattenItem(n.items[k]) + FlattenItems(n, k + 1)
  }

  ghost function FlattenItem(item: Item): (s: Bytes)
    requires EncodableItem(item)
    ensures |s| % 4 == 0 && |s| > 0
    decreases item
  {
    match item
    case Prop(off, value) => EncodeWord(DTB_PROPERTY) + EncodeWord(|value|) + EncodeWord(off) + Padded(value)
    case Child(node) => Flatten(node)
    case Nop => EncodeWord(DTB_NOP)
  }

  // ---------------------------------------------------------------- round trip

  ghost predicate At(m: Bytes, p: nat, s: Bytes) {
    p + |s| <= |m| && m[p..p + |s|] == s
  }

  lemma AtParts(m: Bytes, p: nat, a: Bytes, b: Bytes)
    ensures At(m, p, a + b) <==> At(m, p, a) && At(m, p + |a|, b)
  {
    if At(m, p, a + b) {
      assert m[p..p + |a|] == (a + b)[..|a|];
      assert m[p + |a|..p + |a| + |b|] == (a + b)[|a|..];
    }
    if At(m, p, a) && At(m, p + |a|, b) {
      assert m[p..p + |a + b|] == m[p..p + |a|] + m[p + |a|..p + |a| + |b|];
    }
  }

  lemma WordRead(m: Bytes, t: nat, w: nat)
    requires w < 0x1_0000_0000 && At(m, 4 * t, EncodeWord(w))
    ensures Word(m, t) == w
  {
    var s := m[4 * t..4 * t + 4];
    assert ByteAt(m, 4 * t) == s[0] && ByteAt(m, 4 * t + 1) == s[1];
    assert ByteAt(m, 4 * t + 2) == s[2] && ByteAt(m, 4 * t + 3) == s[3];
  }

  lemma {:induction false} StringRead(m: Bytes, p: nat, s: Bytes)
    requires 0 !in s && At(m, p, s + [0])
    ensures CString(m, p) == s
    decreases |s|
  {
    assert m[p..p + |s| + 1][0] == (s + [0])[0];
    if s != [] {
      AtParts(m, p, [s[0]], s[1..] + [0]);
      assert [s[0]] + (s[1..] + [0]) == s + [0];
      StringRead(m, p + 1, s[1..]);
    }
  }

  lemma {:induction false} CopyRead(m: Bytes, p: nat, s: Bytes)
    requires At(m, p, s)
    ensures CopyOf(m, p, |s|) == s
    decreases |s|
  {
    if s != [] {
      AtParts(m, p, [s[0]], s[1..]);
      assert [s[0]] + s[1..] == s;
      assert m[p..p + 1][0] == s[0];
      CopyRead(m, p + 1, s[1..]);
    }
  }

  /** The lists are built by prepending. */
  function Add(strings: Bytes, tree: Tree, item: Item): Tree
    decreases item
  {
    match item
    case Prop(off, value) => tree.(properties := [Property(CString(strings, off), value)] + tree.properties)
    case Child(node) => tree.(children := [Built(strings, node, |node.items|)] + tree.children)
    case Nop => tree
  }

  /** The tree after the first k items. */
  function Built(strings: Bytes, n: Node, k: nat): Tree
    requires k <= |n.items|
    decreases n, k
  {
    if k == 0 then Tree(n.name, [], []) else Add(strings, Built(strings, n, k - 1), n.items[k - 1])
  }

  /** Words of a stream. */
  ghost function Words(s: Bytes): nat {
    |s| / 4
  }

  lemma WordsAdd(a: Bytes, b: Bytes)
    requires |a| % 4 == 0 && |b| % 4 == 0
    ensures Words(a + b) == Words(a) + Words(b) && |a| == 4 * Words(a)
  {
  }

  // the parser, one token at a time

  lemma ChildStep(m: Bytes, strings: Bytes, t: nat, end: nat, tree: Tree, child: Tree, last: nat)
    requires t < end && Word(m, t) == DTB_BEGIN_NODE && ParseNode(m, strings, t, end) == Some((child, last))
      && t <= last && last + 1 < end
    ensures ParseTokens(m, strings, t, end, tree) ==
      ParseTokens(m, strings, last + 1, end, tree.(children := [child] + tree.children))
  {
    hide Word, CString, CopyOf;
  }

  lemma PropertyStep(m: Bytes, strings: Bytes, t: nat, end: nat, tree: Tree, off: nat, value: Bytes)
    requires t < end && Word(m, t) == DTB_PROPERTY && Word(m, t + 1) == |value| && Word(m, t + 2) == off
    requires CopyOf(m, 4 * (t + 3), |value|) == value && t + 3 + (|value| + 3) / 4 < end
    ensures ParseTokens(m, strings, t, end, tree) ==
      ParseTokens(m, strings, t + 3 + (|value| + 3) / 4, end,
        tree.(properties := [Property(CString(strings, off), value)] + tree.properties))
  {
    hide Word, CString, CopyOf;
  }

  lemma NopStep(m: Bytes, strings: Bytes, t: nat, end: nat, tree: Tree)
    requires t + 1 < end && Word(m, t) == DTB_NOP
    ensures ParseTokens(m, strings, t, end, tree) == ParseTokens(m, strings, t + 1, end, tree)
  {
    hide Word, CString, CopyOf;
  }

  lemma EndStep(m: Bytes, strings: Bytes, t: nat, end: nat, tree: Tree)
    requires t < end && Word(m, t) == DTB_END_NODE
    ensures ParseTokens(m, strings, t, end, tree) == Some((tree, t))
  {
    hide Word, CString, CopyOf;
  }

  lemma NameStep(m: Bytes, strings: Bytes, t: nat, end: nat, name: Bytes)
    requires Word(m, t) == DTB_BEGIN_NODE && CString(m, 4 * (t + 1)) == name && t + 1 + (|name| + 4) / 4 < end
    ensures ParseNode(m, strings, t, end) == ParseTokens(m, strings, t + 1 + (|name| + 4) / 4, end, Tree(name, [], []))
  {
    hide Word, CString, CopyOf;
  }

  /** Parsing the standard token stream of a node builds its tree and ends at its own end token. */
  lemma {:induction false} RoundTrip(m: Bytes, strings: Bytes, t: nat, end: nat, n: Node)
    requires Encodable(n) && At(m, 4 * t, Flatten(n)) && t + Words(Flatten(n)) <= end
    ensures ParseNode(m, strings, t, end) == Some((Built(strings, n, |n.items|), t + Words(Flatten(n)) - 1))
    decreases n, |n.items| + 1
  {
    hide Word, CString, CopyOf, At, ParseTokens, ParseNode, Built, Flatten, FlattenItems, Words, EncodeWord, Padded,
      Encodable;
    NodeParts(m, t, n);
    NameRead(m, t + 1, n.name);
    NameStep(m, strings, t, end, n.name);
    NothingBuilt(strings, n);
    ItemsRoundTrip(m, strings, t + 1 + (|n.name| + 4) / 4, end, n, 0);
  }

  /** The result depends on the node's own tokens alone: whatever lies around them is not looked at. */
  lemma OnlyItsTokens(m: Bytes, m': Bytes, strings: Bytes, t: nat, end: nat, end': nat, n: Node)
    requires Encodable(n) && At(m, 4 * t, Flatten(n)) && At(m', 4 * t, Flatten(n))
    requires t + Words(Flatten(n)) <= end && t + Words(Flatten(n)) <= end'
    ensures ParseNode(m, strings, t, end) == ParseNode(m', strings, t, end')
  {
    hide ParseNode, At, Flatten;
    RoundTrip(m, strings, t, end, n);
    RoundTrip(m', strings, t, end', n);
  }

  lemma NothingBuilt(strings: Bytes, n: Node)
    ensures Built(strings, n, 0) == Tree(n.name, [], [])
  {
  }

  lemma NodeParts(m: Bytes, t: nat, n: Node)
    requires Encodable(n) && At(m, 4 * t, Flatten(n))
    ensures 0 !in n.name && Word(m, t) == DTB_BEGIN_NODE && At(m, 4 * (t + 1), Padded(n.name + [0]))
    ensures At(m, 4 * (t + 1 + (|n.name| + 4) / 4), FlattenItems(n, 0) + EncodeWord(DTB_END_NODE))
    ensures Words(Flatten(n)) == 1 + (|n.name| + 4) / 4 + Words(FlattenItems(n, 0)) + 1
  {
    var begin, name, items, done := EncodeWord(DTB_BEGIN_NODE), Padded(n.name + [0]), FlattenItems(n, 0),
      EncodeWord(DTB_END_NODE);
    assert Flatten(n) == begin + (name + (items + done));
    hide Word, CString, CopyOf, At, EncodeWord, FlattenItems, Flatten, Zeros;
    AtParts(m, 4 * t, begin, name + (items + done));
    AtParts(m, 4 * t + 4, name, items + done);
    WordRead(m, t, DTB_BEGIN_NODE);
  }

  lemma NameRead(m: Bytes, t: nat, name: Bytes)
    requires 0 !in name && At(m, 4 * t, Padded(name + [0]))
    ensures CString(m, 4 * t) == name
  {
    AtParts(m, 4 * t, name + [0], Zeros((|name + [0]| + 3) / 4 * 4 - |name + [0]|));
    StringRead(m, 4 * t, name);
  }

  lemma {:induction false} ItemsRoundTrip(m: Bytes, strings: Bytes, t: nat, end: nat, n: Node, k: nat)
    requires Encodable(n) && k <= |n.items| && At(m, 4 * t, FlattenItems(n, k) + EncodeWord(DTB_END_NODE))
    requires t + Words(FlattenItems(n, k)) + 1 <= end
    ensures ParseTokens(m, strings, t, end, Built(strings, n, k)) ==
      Some((Built(strings, n, |n.items|), t + Words(FlattenItems(n, k))))
    decreases n, |n.items| - k
  {
    hide Word, CString, CopyOf, At, ParseTokens, ParseNode, Built, Flatten, FlattenItems, FlattenItem, Words,
      EncodeWord, Padded, EncodableItem;
    if k == |n.items| {
      NoItems(m, t, n);
      EndStep(m, strings, t, end, Built(strings, n, k));
    } else {
      ItemsParts(m, t, n, k);
      ItemRoundTrip(m, strings, t, end, n, k);
      ItemsRoundTrip(m, strings, t + Words(FlattenItem(n.items[k])), end, n, k + 1);
    }
  }

  lemma NoItems(m: Bytes, t: nat, n: Node)
    requires Encodable(n) && At(m, 4 * t, FlattenItems(n, |n.items|) + EncodeWord(DTB_END_NODE))
    ensures Word(m, t) == DTB_END_NODE && Words(FlattenItems(n, |n.items|)) == 0
  {
    assert [] + EncodeWord(DTB_END_NODE) == EncodeWord(DTB_END_NODE);
    WordRead(m, t, DTB_END_NODE);
  }

  lemma ItemsParts(m: Bytes, t: nat, n: Node, k: nat)
    requires Encodable(n) && k < |n.items| && At(m, 4 * t, FlattenItems(n, k) + EncodeWord(DTB_END_NODE))
    ensures EncodableItem(n.items[k]) && At(m, 4 * t, FlattenItem(n.items[k])) && Words(FlattenItem(n.items[k])) > 0
    ensures At(m, 4 * (t + Words(FlattenItem(n.items[k]))), FlattenItems(n, k + 1) + EncodeWord(DTB_END_NODE))
    ensures Words(FlattenItems(n, k)) == Words(FlattenItem(n.items[k])) + Words(FlattenItems(n, k + 1))
  {
    var item, rest, done := FlattenItem(n.items[k]), FlattenItems(n, k + 1), EncodeWord(DTB_END_NODE);
    assert FlattenItems(n, k) == item + rest;
    assert item + rest + done == item + (rest + done);
    hide FlattenItem, FlattenItems, EncodeWord, At;
    WordsAdd(item, rest);
    AtParts(m, 4 * t, item, rest + done);
  }

  /** One item: the parser goes on behind it with the item added. */
  lemma {:induction false} ItemRoundTrip(m: Bytes, strings: Bytes, t: nat, end: nat, n: Node, k: nat)
    requires Encodable(n) && k < |n.items| && EncodableItem(n.items[k]) && At(m, 4 * t, FlattenItem(n.items[k]))
    requires t + Words(FlattenItem(n.items[k])) < end
    ensures ParseTokens(m, strings, t, end, Built(strings, n, k)) ==
      ParseTokens(m, strings, t + Words(FlattenItem(n.items[k])), end, Built(strings, n, k + 1))
    decreases n, 0
  {
    hide Word, CString, CopyOf, At, ParseTokens, ParseNode, Flatten, Words, EncodeWord, Padded;
    var tree := Built(strings, n, k);
    match n.items[k]
    case Prop(off, value) =>
      PropertyRead(m, t, off, value);
      PropertyStep(m, strings, t, end, tree, off, value);
    case Child(node) =>
      NodeParts(m, t, node);
      RoundTrip(m, strings, t, end, node);
      ChildStep(m, strings, t, end, tree, Built(strings, node, |node.items|), t + Words(Flatten(node)) - 1);
    case Nop =>
      NopRead(m, t);
      NopStep(m, strings, t, end, tree);
  }

  lemma NopRead(m: Bytes, t: nat)
    requires At(m, 4 * t, EncodeWord(DTB_NOP))
    ensures Word(m, t) == DTB_NOP && Words(EncodeWord(DTB_NOP)) == 1
  {
    WordRead(m, t, DTB_NOP);
  }

  lemma PropertyRead(m: Bytes, t: nat, off: nat, value: Bytes)
    requires off < 0x1_0000_0000 && |value| < 0x1_0000_0000
    requires At(m, 4 * t, EncodeWord(DTB_PROPERTY) + EncodeWord(|value|) + EncodeWord(off) + Padded(value))
    ensures Word(m, t) == DTB_PROPERTY && Word(m, t + 1) == |value| && Word(m, t + 2) == off
    ensures CopyOf(m, 4 * (t + 3), |value|) == value
    ensures Words(EncodeWord(DTB_PROPERTY) + EncodeWord(|value|) + EncodeWord(off) + Padded(value)) ==
      3 + (|value| + 3) / 4
  {
    hide Word, CString, CopyOf, At, EncodeWord;
    var a, b, c, d := EncodeWord(DTB_PROPERTY), EncodeWord(|value|), EncodeWord(off), Padded(value);
    assert a + b + c + d == a + (b + (c + d));
    AtParts(m, 4 * t, a, b + (c + d));
    AtParts(m, 4 * t + 4, b, c + d);
    AtParts(m, 4 * t + 8, c, d);
    AtParts(m, 4 * t + 12, value, Zeros((|value| + 3) / 4 * 4 - |value|));
    WordRead(m, t, DTB_PROPERTY);
    WordRead(m, t + 1, |value|);
    WordRead(m, t + 2, off);
    CopyRead(m, 4 * (t + 3), value);
  }

  // ---------------------------------------------------------------- list order

  /** The properties of a node in the order of the stream. */
  function PropertiesOf(strings: Bytes, items: seq<Item>): seq<Property> {
    if items == [] then [] else
    var rest := PropertiesOf(strings, items[..|items| - 1]);
    match items[|items| - 1] case Prop(off, value) => rest + [Property(CString(strings, off), value)] case _ => rest
  }

  /** The trees of the child nodes in the order of the stream. */
  function ChildrenOf(strings: Bytes, items: seq<Item>): seq<Tree> {
    if items == [] then [] else
    var rest := ChildrenOf(strings, items[..|items| - 1]);
    match items[|items| - 1] case Child(node) => rest + [Built(strings, node, |node.items|)] case _ => rest
  }

  /** The tree has the node's name, and its two lists are those of the stream backwards. */
  lemma {:induction false} ListsAreReversed(strings: Bytes, n: Node, k: nat)
    requires k <= |n.items|
    ensures Built(strings, n, k).name == n.name
    ensures Built(strings, n, k).properties == Reversed(PropertiesOf(strings, n.items[..k]))
    ensures Built(strings, n, k).children == Reversed(ChildrenOf(strings, n.items[..k]))
  {
    if k > 0 {
      ListsAreReversed(strings, n, k - 1);
      assert n.items[..k][..k - 1] == n.items[..k - 1];
      match n.items[k - 1]
      case Prop(off, value) =>
        ReversedLast(PropertiesOf(strings, n.items[..k - 1]), Property(CString(strings, off), value));
      case Child(node) =>
        ReversedLast(ChildrenOf(strings, n.items[..k - 1]), Built(strings, node, |node.items|));
      case Nop =>
    }
  }

  // ---------------------------------------------------------------- a tree in bytes

  /** The words of a root with the property "reg", of value 1, and of its child "a". */
  function SmallBlob(): Bytes {
    [0, 0, 0, 1] + [0, 0, 0, 0]
      + [0, 0, 0, 3] + [0, 0, 0, 4] + [0, 0, 0, 0] + [0, 0, 0, 1]
      + [0, 0, 0, 1] + [0x61, 0, 0, 0] + [0, 0, 0, 2]
      + [0, 0, 0, 2]
  }

  function SmallNode(): Node {
    Node([], [Prop(0, [0, 0, 0, 1]), Child(Node([0x61], []))])
  }

  lemma SmallWords()
    ensures EncodeWord(DTB_BEGIN_NODE) == [0, 0, 0, 1] && EncodeWord(DTB_END_NODE) == [0, 0, 0, 2]
    ensures EncodeWord(DTB_PROPERTY) == [0, 0, 0, 3] && EncodeWord(4) == [0, 0, 0, 4] && EncodeWord(0) == [0, 0, 0, 0]
  {
  }

  lemma SmallPaddings()
    ensures Padded([0]) == [0, 0, 0, 0] && Padded([0x61] + [0]) == [0x61, 0, 0, 0]
    ensures Padded([0, 0, 0, 1]) == [0, 0, 0, 1]
  {
    assert Zeros(0) == [] && Zeros(2) == [0, 0] && Zeros(3) == [0, 0, 0];
  }

  lemma SmallChild(n: Node)
    requires n == Node([0x61], [])
    ensures Encodable(n) && Flatten(n) == [0, 0, 0, 1] + [0x61, 0, 0, 0] + [0, 0, 0, 2]
  {
    hide EncodeWord, Padded;
    SmallWords();
    SmallPaddings();
    assert FlattenItems(n, 0) == [];
  }

  lemma SmallItems(n: Node)
    requires n == SmallNode()
    ensures Encodable(n) && FlattenItems(n, 0) == FlattenItem(n.items[0]) + Flatten(n.items[1].node)
    ensures FlattenItem(n.items[0]) == [0, 0, 0, 3] + [0, 0, 0, 4] + [0, 0, 0, 0] + [0, 0, 0, 1]
  {
    hide EncodeWord, Padded, Flatten;
    SmallWords();
    SmallPaddings();
    SmallChild(n.items[1].node);
    assert FlattenItems(n, 2) == [];
    assert FlattenItem(n.items[1]) == Flatten(n.items[1].node);
    assert FlattenItems(n, 1) == FlattenItem(n.items[1]) + FlattenItems(n, 2);
  }

  lemma SmallIsEncoded(n: Node)
    requires n == SmallNode()
    ensures Encodable(n) && Flatten(n) == SmallBlob() && |SmallBlob()| == 40
  {
    SmallItems(n);
    hide EncodeWord, Padded, FlattenItems, FlattenItem, Encodable;
    SmallWords();
    SmallPaddings();
    SmallChild(n.items[1].node);
    assert n.name + [0] == [0];
  }

  lemma WholeIsAt(m: Bytes)
    ensures At(m, 0, m)
  {
  }

  lemma SmallBuilt(strings: Bytes, n: Node)
    requires n == SmallNode() && CString(strings, 0) == [0x72, 0x65, 0x67]
    ensures Built(strings, n, |n.items|)
      == Tree([], [Property([0x72, 0x65, 0x67], [0, 0, 0, 1])], [Tree([0x61], [], [])])
  {
    hide CString;
    assert Built(strings, n, 1) == Tree([], [Property([0x72, 0x65, 0x67], [0, 0, 0, 1])], []);
    assert Built(strings, Node([0x61], []), 0) == Tree([0x61], [], []);
  }

  lemma SmallTree(strings: Bytes)
    requires strings == [0x72, 0x65, 0x67, 0]
    ensures ParseNode(SmallBlob(), strings, 0, 10)
      == Some((Tree([], [Property([0x72, 0x65, 0x67], [0, 0, 0, 1])], [Tree([0x61], [], [])]), 9))
  {
    hide ParseNode, Flatten, SmallBlob, SmallNode, Encodable, CString;
    var n, m := SmallNode(), SmallBlob();
    SmallIsEncoded(n);
    WholeIsAt(m);
    RoundTrip(m, strings, 0, 10, n);
    StringRead(strings, 0, [0x72, 0x65, 0x67]);
    SmallBuilt(strings, n);
  }
}
