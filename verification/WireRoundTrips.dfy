/** Messages written field by field, and what parsing makes of them (Protocol Buffers Encoding,
    "Message Structure"). */
module WireRoundTrips {
  import opened GoNumbers
  import opened Varints
  import opened WireCodec

  /** A field as its bytes are laid out. Tags, lengths and values may be any varint of up to ten
      bytes, not only the shortest, and the end of a group may bear any field number. */
  datatype Node =
    | VarintField(tag: seq<byte>, value: seq<byte>)
    | Fixed64(tag: seq<byte>, bytes: seq<byte>)
    | Delimited(tag: seq<byte>, len: seq<byte>, bytes: seq<byte>)
    | Group(tag: seq<byte>, fields: Nodes, end: seq<byte>)
    | Fixed32(tag: seq<byte>, bytes: seq<byte>)

  datatype Nodes = NoNodes | More(head: Node, tail: Nodes)

  function Value(s: seq<byte>): uint64 {
    Base128(s) % TWO_TO_64
  }

  ghost predicate IsTag(tag: seq<byte>, wireType: nat) {
    IsVarint(tag) && Value(tag) % 8 == wireType
  }

  ghost predicate WellFormed(node: Node) {
    match node
    case VarintField(tag, value) => IsTag(tag, 0) && IsVarint(value)
    case Fixed64(tag, bytes) => IsTag(tag, 1) && |bytes| == 8
    case Delimited(tag, len, bytes) => IsTag(tag, 2) && IsVarint(len) && Value(len) == |bytes|
    case Group(tag, fields, end) => IsTag(tag, 3) && AllWellFormed(fields) && IsTag(end, 4)
    case Fixed32(tag, bytes) => IsTag(tag, 5) && |bytes| == 4
  }

  ghost predicate AllWellFormed(nodes: Nodes) {
    nodes.More? ==> WellFormed(nodes.head) && AllWellFormed(nodes.tail)
  }

  /** What follows the tag of a field. */
  function Body(node: Node): seq<byte>
    decreases node, 0
  {
    match node
    case VarintField(_, value) => value
    case Fixed64(_, bytes) => bytes
    case Delimited(_, len, bytes) => len + bytes
    case Group(_, fields, end) => NodesBytes(fields) + end
    case Fixed32(_, bytes) => bytes
  }

  function NodeBytes(node: Node): seq<byte>
    decreases node, 1
  {
    node.tag + Body(node)
  }

  function NodesBytes(nodes: Nodes): seq<byte> {
    if nodes.NoNodes? then [] else NodeBytes(nodes.head) + NodesBytes(nodes.tail)
  }

  // ---------- where bytes stand ----------

  /** The bytes s stand in d at position i. */
  ghost predicate At(d: seq<byte>, i: nat, s: seq<byte>) {
    i + |s| <= |d| && forall k :: 0 <= k < |s| ==> d[i + k] == s[k]
  }

  lemma AtParts(d: seq<byte>, i: nat, s: seq<byte>, t: seq<byte>)
    requires At(d, i, s + t)
    ensures At(d, i, s) && At(d, i + |s|, t)
  {
    forall k | 0 <= k < |s| ensures d[i + k] == s[k] {
      assert d[i + k] == (s + t)[k];
    }
    forall k | 0 <= k < |t| ensures d[i + |s| + k] == t[k] {
      assert d[i + (|s| + k)] == (s + t)[|s| + k];
    }
  }

  lemma AtSuffix(d: seq<byte>, i: nat, s: seq<byte>)
    requires At(d, i, s)
    ensures i <= |d| && At(d[i..], 0, s)
  {
  }

  /** A varint is read back wherever it stands. */
  lemma ReadsAt(d: seq<byte>, i: nat, s: seq<byte>)
    requires At(d, i, s) && IsVarint(s)
    ensures ReadAt(d, i) == Got(Value(s), i + |s|) && |s| > 0
  {
    assert d[i..i + |s|] == s;
    hide Base128;
    ContinuedAt(d, i, s);
  }

  // ---------- skipping ----------

  /** A well-formed field is skipped to its end exactly, whatever follows and however deep groups nest. */
  lemma {:induction false} SkipsNode(d: seq<byte>, node: Node)
    requires WellFormed(node) && IsSlice(d) && At(d, 0, NodeBytes(node))
    ensures SkipField(d) == Skipped(|NodeBytes(node)|)
    decreases node
  {
    hide *;
    NodeParts(d, 0, node);
    match node
    case VarintField(_, _) => SkipsVarint(d, node);
    case Fixed64(_, _) => SkipsFixed(d, node);
    case Fixed32(_, _) => SkipsFixed(d, node);
    case Delimited(_, _, _) => SkipsDelimited(d, node);
    case Group(tag, fields, end) =>
      GroupParts(d, node);
      SkipsNodes(d, |tag|, fields, end);
  }

  lemma NodeParts(d: seq<byte>, i: nat, node: Node)
    requires WellFormed(node) && At(d, i, NodeBytes(node))
    ensures At(d, i, node.tag) && At(d, i + |node.tag|, Body(node))
    ensures |NodeBytes(node)| == |node.tag| + |Body(node)|
    ensures ReadAt(d, i) == Got(Value(node.tag), i + |node.tag|) && |node.tag| > 0
    ensures Value(node.tag) % 8 != 4
  {
    hide At, ReadAt, Base128, Body, AllWellFormed;
    AtParts(d, i, node.tag, Body(node));
    ReadsAt(d, i, node.tag);
  }

  lemma SkipsVarint(d: seq<byte>, node: Node)
    requires node.VarintField? && WellFormed(node) && IsSlice(d)
    requires ReadAt(d, 0) == Got(Value(node.tag), |node.tag|) && At(d, |node.tag|, Body(node))
    ensures SkipField(d) == Skipped(|node.tag| + |Body(node)|)
  {
    ReadsAt(d, |node.tag|, node.value);
    hide ReadAt, At, Value, IsVarint;
  }

  lemma SkipsFixed(d: seq<byte>, node: Node)
    requires (node.Fixed64? || node.Fixed32?) && WellFormed(node) && IsSlice(d)
    requires ReadAt(d, 0) == Got(Value(node.tag), |node.tag|)
    ensures SkipField(d) == Skipped(|node.tag| + |Body(node)|)
  {
    hide ReadAt, At, Value, IsVarint;
  }

  lemma SkipsDelimited(d: seq<byte>, node: Node)
    requires node.Delimited? && WellFormed(node) && IsSlice(d)
    requires ReadAt(d, 0) == Got(Value(node.tag), |node.tag|) && At(d, |node.tag|, Body(node))
    ensures SkipField(d) == Skipped(|node.tag| + |Body(node)|)
  {
    AtParts(d, |node.tag|, node.len, node.bytes);
    ReadsAt(d, |node.tag|, node.len);
    assert |node.tag| + |node.len| + |node.bytes| <= |d|;
    LengthIs(node.len, |node.bytes|);
    hide ReadAt, At, Value, IsVarint, Base128, ToInt64;
  }

  lemma LengthIs(len: seq<byte>, n: nat)
    requires Value(len) == n <= MAX_INT64
    ensures ToInt64(Value(len)) == n
  {
    hide Base128;
    SmallRemainder(n);
  }

  lemma GroupParts(d: seq<byte>, node: Node)
    requires node.Group? && WellFormed(node) && IsSlice(d)
    requires ReadAt(d, 0) == Got(Value(node.tag), |node.tag|) && At(d, |node.tag|, Body(node))
    requires 0 < |node.tag|
    ensures AllWellFormed(node.fields) && IsTag(node.end, 4) && At(d, |node.tag|, NodesBytes(node.fields) + node.end)
    ensures |Body(node)| == |NodesBytes(node.fields)| + |node.end|
    ensures |node.tag| <= MAX_INT64 && SkipField(d) == SkipGroup(d, |node.tag|)
  {
    assert |node.tag| <= |d|;
    hide ReadAt, At, Value, IsVarint, SkipGroup, AllWellFormed, NodesBytes;
  }

  lemma {:induction false} SkipsNodes(d: seq<byte>, i: nat, nodes: Nodes, end: seq<byte>)
    requires AllWellFormed(nodes) && IsTag(end, 4) && 1 <= i <= MAX_INT64
    requires IsSlice(d) && At(d, i, NodesBytes(nodes) + end)
    ensures SkipGroup(d, i) == Skipped(i + |NodesBytes(nodes)| + |end|)
    decreases nodes
  {
    hide *;
    if nodes.NoNodes? {
      EndOfGroup(d, i, nodes, end);
    } else {
      GroupSplits(d, i, nodes, end);
      NodeParts(d, i, nodes.head);
      AtSuffix(d, i, NodeBytes(nodes.head));
      SliceSuffix(d, i);
      SkipsNode(d[i..], nodes.head);
      GroupMoves(d, i, nodes, end);
      SkipsNodes(d, i + |NodeBytes(nodes.head)|, nodes.tail, end);
    }
  }

  lemma EndOfGroup(d: seq<byte>, i: nat, nodes: Nodes, end: seq<byte>)
    requires nodes.NoNodes? && IsTag(end, 4) && 1 <= i <= MAX_INT64
    requires IsSlice(d) && At(d, i, NodesBytes(nodes) + end)
    ensures SkipGroup(d, i) == Skipped(i + |NodesBytes(nodes)| + |end|)
  {
    assert NodesBytes(nodes) + end == end;
    ReadsAt(d, i, end);
    hide ReadAt, At, Value, IsVarint;
  }

  lemma GroupSplits(d: seq<byte>, i: nat, nodes: Nodes, end: seq<byte>)
    requires nodes.More? && AllWellFormed(nodes) && At(d, i, NodesBytes(nodes) + end)
    ensures WellFormed(nodes.head) && AllWellFormed(nodes.tail)
    ensures At(d, i, NodeBytes(nodes.head)) && At(d, i + |NodeBytes(nodes.head)|, NodesBytes(nodes.tail) + end)
    ensures |NodesBytes(nodes)| == |NodeBytes(nodes.head)| + |NodesBytes(nodes.tail)|
  {
    hide At, WellFormed, NodeBytes;
    assert NodesBytes(nodes) + end == NodeBytes(nodes.head) + (NodesBytes(nodes.tail) + end);
    AtParts(d, i, NodeBytes(nodes.head), NodesBytes(nodes.tail) + end);
  }

  lemma SliceSuffix(d: seq<byte>, i: nat)
    requires IsSlice(d) && i <= |d|
    ensures IsSlice(d[i..])
  {
  }

  /** One turn of the group loop. */
  lemma GroupMoves(d: seq<byte>, i: nat, nodes: Nodes, end: seq<byte>)
    requires nodes.More? && IsSlice(d) && 1 <= i <= MAX_INT64 && i <= |d|
    requires At(d, i + |NodeBytes(nodes.head)|, NodesBytes(nodes.tail) + end)
    requires ReadAt(d, i).Got? && ReadAt(d, i).value % 8 != 4
    requires IsSlice(d[i..]) && SkipField(d[i..]) == Skipped(|NodeBytes(nodes.head)|)
    ensures 1 <= i + |NodeBytes(nodes.head)| <= MAX_INT64
    ensures SkipGroup(d, i) == SkipGroup(d, i + |NodeBytes(nodes.head)|)
  {
    hide ReadAt, SkipField, NodeBytes, NodesBytes, ToInt64;
  }

  // ---------- whole messages ----------

  /** A member of a message: field 1, or any other field. */
  datatype Item = Known(tag: seq<byte>, value: seq<byte>) | Unknown(node: Node)

  function FieldNumber(tag: seq<byte>): int {
    ToInt32(Value(tag) / 8)
  }

  ghost predicate Legal(item: Item) {
    match item
    case Known(tag, value) => IsTag(tag, 0) && FieldNumber(tag) == 1 && IsVarint(value)
    case Unknown(node) => WellFormed(node) && FieldNumber(node.tag) > 1
  }

  function ItemBytes(item: Item): seq<byte> {
    if item.Known? then item.tag + item.value else NodeBytes(item.node)
  }

  function Message(items: seq<Item>): seq<byte> {
    if items == [] then [] else ItemBytes(items[0]) + Message(items[1..])
  }

  /** The last occurrence of field 1 wins; without one the value stays. */
  function LastValue(items: seq<Item>, ms: int64): int64 {
    if items == [] then ms else LastValue(items[1..], ValueAfter(items[0], ms))
  }

  function ValueAfter(item: Item, ms: int64): int64 {
    if item.Known? then ToInt64(Value(item.value)) else ms
  }

  /** Any mixture of fields parses, and only the last occurrence of field 1 matters. */
  lemma {:induction false} ParsesMessage(d: seq<byte>, i: nat, items: seq<Item>, ms: int64)
    requires forall k :: 0 <= k < |items| ==> Legal(items[k])
    requires IsSlice(d) && At(d, i, Message(items)) && i + |Message(items)| == |d|
    ensures Parse(d, i, ms) == (None, LastValue(items, ms))
    decreases |items|
  {
    hide *;
    if items == [] {
      NothingLeft(d, i, items, ms);
    } else {
      MessageSplits(d, i, items, ms);
      if items[0].Known? {
        ParsesKnown(d, i, items[0], ms);
      } else {
        ParsesUnknown(d, i, items[0], ms);
      }
      ParsesMessage(d, i + |ItemBytes(items[0])|, items[1..], ValueAfter(items[0], ms));
    }
  }

  lemma NothingLeft(d: seq<byte>, i: nat, items: seq<Item>, ms: int64)
    requires items == [] && IsSlice(d) && i + |Message(items)| == |d|
    ensures Parse(d, i, ms) == (None, LastValue(items, ms))
  {
  }

  lemma MessageSplits(d: seq<byte>, i: nat, items: seq<Item>, ms: int64)
    requires items != [] && At(d, i, Message(items)) && i + |Message(items)| == |d|
    ensures At(d, i, ItemBytes(items[0])) && At(d, i + |ItemBytes(items[0])|, Message(items[1..]))
    ensures i + |ItemBytes(items[0])| + |Message(items[1..])| == |d|
    ensures LastValue(items, ms) == LastValue(items[1..], ValueAfter(items[0], ms))
  {
    AtParts(d, i, ItemBytes(items[0]), Message(items[1..]));
    hide At, ItemBytes;
  }

  lemma ParsesKnown(d: seq<byte>, i: nat, item: Item, ms: int64)
    requires item.Known? && Legal(item) && IsSlice(d) && At(d, i, ItemBytes(item))
    ensures Parse(d, i, ms) == Parse(d, i + |ItemBytes(item)|, ValueAfter(item, ms))
  {
    hide ReadAt, At, Value, IsVarint, ToInt64, ToInt32, SkipField, Parse, ValueAt;
    AtParts(d, i, item.tag, item.value);
    ReadsAt(d, i, item.tag);
    ReadsAt(d, i + |item.tag|, item.value);
    ParsesField1(d, i, item.tag, item.value, ms);
  }

  lemma ParsesField1(d: seq<byte>, i: nat, tag: seq<byte>, value: seq<byte>, ms: int64)
    requires IsSlice(d) && Value(tag) % 8 == 0 && FieldNumber(tag) == 1
    requires ReadAt(d, i) == Got(Value(tag), i + |tag|)
    requires ReadAt(d, i + |tag|) == Got(Value(value), i + |tag| + |value|)
    ensures Parse(d, i, ms) == Parse(d, i + |tag| + |value|, ToInt64(Value(value)))
  {
    hide ReadAt, Value, ToInt64, ToInt32, SkipField, Continued, Base128;
  }

  lemma ParsesUnknown(d: seq<byte>, i: nat, item: Item, ms: int64)
    requires item.Unknown? && Legal(item) && IsSlice(d) && At(d, i, ItemBytes(item))
    ensures Parse(d, i, ms) == Parse(d, i + |ItemBytes(item)|, ValueAfter(item, ms))
  {
    hide ReadAt, At, Value, WellFormed, NodeBytes, ToInt32, SkipField, ToInt64, ValueAt, Parse;
    NodeParts(d, i, item.node);
    AtSuffix(d, i, NodeBytes(item.node));
    SkipsNode(d[i..], item.node);
    ReachIsWithin(d, i, item.node);
    ParsesOther(d, i, item.node.tag, |NodeBytes(item.node)|, ms);
  }

  lemma ParsesOther(d: seq<byte>, i: nat, tag: seq<byte>, n: nat, ms: int64)
    requires IsSlice(d) && i < |d| && i + n <= |d| && Value(tag) % 8 != 4 && FieldNumber(tag) > 1
    requires ReadAt(d, i) == Got(Value(tag), i + |tag|) && SkipField(d[i..]) == Skipped(n)
    ensures Parse(d, i, ms) == Parse(d, i + n, ms)
  {
    hide ReadAt, Value, ToInt32, SkipField, ValueAt, ToInt64;
  }

  lemma ReachIsWithin(d: seq<byte>, i: nat, node: Node)
    requires IsSlice(d) && At(d, i, NodeBytes(node))
    ensures i + |NodeBytes(node)| <= |d| && |NodeBytes(node)| < MAX_INT64
  {
    hide NodeBytes;
  }

  // ---------- round trips ----------

  /** The message of a request, as a list of fields. */
  function Items(ms: int64): seq<Item> {
    if ms == 0 then [] else [Known([8], Encoded(ToUint64(ms)))]
  }

  lemma ItemsAreLegal(ms: int64)
    ensures Message(Items(ms)) == Wire(ms)
    ensures forall k :: 0 <= k < |Items(ms)| ==> Legal(Items(ms)[k])
    ensures forall before: int64 :: LastValue(Items(ms), before) == if ms == 0 then before else ms
  {
    var v := Encoded(ToUint64(ms));
    EncodedIsVarint(ToUint64(ms));
    SignedRoundTrip(ms);
    SmallRemainder(ToUint64(ms));
    TagOfField1();
    hide Encoded, ToUint64, ToInt64, IsVarint, FieldNumber, Value;
  }

  lemma TagOfField1()
    ensures IsTag([8], 0) && FieldNumber([8]) == 1
  {
    assert Base128([8]) == 8;
  }

  lemma WireIsShort(ms: int64)
    ensures |Wire(ms)| <= 11 && IsSlice(Wire(ms))
  {
    EncodedIsVarint(ToUint64(ms));
    hide Encoded, ToUint64;
  }

  lemma AtStart(d: seq<byte>)
    ensures At(d, 0, d)
  {
  }

  /** Parsing what was printed gives the value back; a zero is not printed, so parsing it leaves
      whatever the request held before. */
  lemma RoundTrip(ms: int64, before: int64)
    ensures IsSlice(Wire(ms))
    ensures Parse(Wire(ms), 0, before) == (None, if ms == 0 then before else ms)
  {
    hide *;
    WireIsShort(ms);
    ItemsAreLegal(ms);
    AtStart(Wire(ms));
    ParsesMessage(Wire(ms), 0, Items(ms), before);
  }

  lemma {:induction false} MessageJoins(a: seq<Item>, b: seq<Item>)
    ensures Message(a + b) == Message(a) + Message(b)
  {
    hide ItemBytes;
    if a == [] {
      assert a + b == b;
    } else {
      MessageJoins(a[1..], b);
      assert (a + b)[1..] == a[1..] + b;
      Associates(ItemBytes(a[0]), Message(a[1..]), Message(b));
    }
  }

  lemma Associates(x: seq<byte>, y: seq<byte>, z: seq<byte>)
    ensures x + y + z == x + (y + z)
  {
  }

  lemma {:induction false} LastValueJoins(a: seq<Item>, b: seq<Item>, ms: int64)
    ensures LastValue(a + b, ms) == LastValue(b, LastValue(a, ms))
  {
    hide ValueAfter;
    if a == [] {
      assert a + b == b;
    } else {
      LastValueJoins(a[1..], b, ValueAfter(a[0], ms));
      assert (a + b)[1..] == a[1..] + b;
    }
  }

  lemma {:induction false} UnknownKeepsValue(items: seq<Item>, ms: int64)
    requires forall k :: 0 <= k < |items| ==> items[k].Unknown?
    ensures LastValue(items, ms) == ms
  {
    hide ToInt64, Value;
    if items == [] {
    } else {
      UnknownKeepsValue(items[1..], ms);
    }
  }

  /** Fields the request does not know, before and after its own, change nothing. */
  lemma UnknownFieldsAreIgnored(before: seq<Item>, ms: int64, after: seq<Item>)
    requires forall k :: 0 <= k < |before| ==> before[k].Unknown? && Legal(before[k])
    requires forall k :: 0 <= k < |after| ==> after[k].Unknown? && Legal(after[k])
    requires IsSlice(Message(before) + Wire(ms) + Message(after))
    ensures Parse(Message(before) + Wire(ms) + Message(after), 0, 0) == (None, ms)
  {
    hide Parse, Legal, Message, LastValue, Wire, Items, At, IsSlice;
    ItemsAreLegal(ms);
    var all := before + Items(ms) + after;
    MessageJoins(before, Items(ms));
    MessageJoins(before + Items(ms), after);
    LastValueJoins(before, Items(ms), 0);
    LastValueJoins(before + Items(ms), after, 0);
    UnknownKeepsValue(before, 0);
    UnknownKeepsValue(after, ms);
    var d := Message(all);
    AtStart(d);
    ParsesMessage(d, 0, all, 0);
  }

  /** A printed message that is cut short is recognised as such. */
  lemma CutShortIsAnError(ms: int64, n: nat, before: int64)
    requires 0 < n < |Wire(ms)|
    ensures IsSlice(Wire(ms)[..n]) && Parse(Wire(ms)[..n], 0, before).0 == UnexpectedEof
  {
    var d := Wire(ms)[..n];
    CutParts(ms, n);
    hide Wire, ReadAt, ToInt32, Continued, Base128, SkipField;
  }

  lemma CutParts(ms: int64, n: nat)
    requires 0 < n < |Wire(ms)|
    ensures IsSlice(Wire(ms)[..n])
    ensures ReadAt(Wire(ms)[..n], 0) == Got(8, 1) && ReadAt(Wire(ms)[..n], 1) == Eof
  {
    WireIsShort(ms);
    TagOfField1();
    var d := Wire(ms)[..n];
    assert At(d, 0, [8]);
    ReadsAt(d, 0, [8]);
    assert Value([8]) == 8;
    var s := Encoded(ToUint64(ms));
    EncodedIsVarint(ToUint64(ms));
    assert Wire(ms) == [8] + s;
    hide Encoded, ToUint64, Base128, Wire;
    assert forall k :: 1 <= k < n ==> d[k] == s[k - 1];
    ContinuedIs(d, 1, MAX_BYTES, n - 1);
  }
}
