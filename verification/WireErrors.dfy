/** What is reported about byte strings that are no message: cut short, or with a tag or a length that may not
    stand there (internal/sleep/service.pb.go; Protocol Buffers Encoding, "Message Structure"). */
module WireErrors {
  import opened GoNumbers
  import opened Varints
  import opened WireCodec
  import opened WireRoundTrips
  import opened WireLanguages

  // ---------- messages cut short ----------

  /** All of s that fits stands in d from i on, but not the whole of it. */
  ghost predicate CutAt(d: seq<byte>, i: nat, s: seq<byte>) {
    i <= |d| < i + |s| && forall k :: i <= k < |d| ==> d[k] == s[k - i]
  }

  /** A varint cut short runs out, as does reading at or past the end. */
  lemma CutVarint(d: seq<byte>, i: nat, s: seq<byte>)
    requires (IsVarint(s) && CutAt(d, i, s)) || i >= |d|
    ensures ReadAt(d, i) == Eof
  {
    if i <= |d| {
      ReadAtIs(d, i);
    }
    hide Value, Base128;
  }

  /** Of two parts either the first is cut, or it stands there and the second is cut. */
  lemma CutParts(d: seq<byte>, i: nat, s: seq<byte>, t: seq<byte>)
    requires CutAt(d, i, s + t)
    ensures CutAt(d, i, s) || (At(d, i, s) && CutAt(d, i + |s|, t))
  {
    assert forall k :: 0 <= k < |s| ==> (s + t)[k] == s[k];
    assert forall k :: 0 <= k < |t| ==> (s + t)[|s| + k] == t[k];
    if |d| >= i + |s| {
      forall k | i + |s| <= k < |d| ensures d[k] == t[k - (i + |s|)] {
        assert d[k] == (s + t)[k - i];
      }
    }
  }

  lemma CutSuffix(d: seq<byte>, i: nat, s: seq<byte>)
    requires CutAt(d, i, s)
    ensures CutAt(d[i..], 0, s) && i <= |d| && |d[i..]| < |s|
  {
  }

  /** A field cut short is not skipped, or skipped past the end: to where it would have ended. */
  lemma {:induction false} CutNode(d: seq<byte>, node: Node)
    requires WellFormed(node) && IsSlice(NodeBytes(node)) && IsSlice(d) && d != [] && CutAt(d, 0, NodeBytes(node))
    ensures SkipField(d) == Failed(UnexpectedEof) || Reaches(SkipField(d), |NodeBytes(node)|)
    decreases node
  {
    hide *;
    NodeLength(node);
    if CutAt(d, 0, node.tag) {
      CutTag(d, node.tag);
    } else {
      CutAfterTag(d, node);
      match node
      case VarintField(_, _) => CutValue(d, node);
      case Fixed64(_, _) => CutFixed(d, node);
      case Fixed32(_, _) => CutFixed(d, node);
      case Delimited(_, _, _) => CutDelimited(d, node);
      case Group(tag, fields, end) =>
        CutGroup(d, node);
        CutNodes(d, |tag|, fields, end);
    }
  }

  /** Skipped to the given place. */
  predicate Reaches(r: Skip, n: nat) {
    r.Skipped? && r.n == n
  }

  lemma NodeLength(node: Node)
    requires WellFormed(node)
    ensures IsVarint(node.tag) && Value(node.tag) % 8 in [0, 1, 2, 3, 5]
    ensures NodeBytes(node) == node.tag + Body(node)
  {
    hide Body, AllWellFormed, IsVarint, Value;
  }

  lemma CutTag(d: seq<byte>, tag: seq<byte>)
    requires IsSlice(d) && d != [] && IsVarint(tag) && CutAt(d, 0, tag)
    ensures SkipField(d) == Failed(UnexpectedEof)
  {
    CutVarint(d, 0, tag);
    hide ReadAt, IsVarint;
  }

  lemma CutAfterTag(d: seq<byte>, node: Node)
    requires CutAt(d, 0, NodeBytes(node)) && !CutAt(d, 0, node.tag) && IsVarint(node.tag)
    requires NodeBytes(node) == node.tag + Body(node)
    ensures At(d, 0, node.tag) && CutAt(d, |node.tag|, Body(node)) && 0 < |node.tag| <= |d|
    ensures ReadAt(d, 0) == Got(Value(node.tag), |node.tag|)
  {
    CutParts(d, 0, node.tag, Body(node));
    hide CutAt, NodeBytes, Body;
    ReadsAt(d, 0, node.tag);
    hide ReadAt, Value, IsVarint;
  }

  lemma CutValue(d: seq<byte>, node: Node)
    requires node.VarintField? && WellFormed(node) && IsSlice(d) && 0 < |node.tag| <= |d|
    requires ReadAt(d, 0) == Got(Value(node.tag), |node.tag|) && CutAt(d, |node.tag|, Body(node))
    ensures SkipField(d) == Failed(UnexpectedEof)
  {
    CutVarint(d, |node.tag|, node.value);
    hide ReadAt, Value, IsVarint, CutAt;
  }

  lemma CutFixed(d: seq<byte>, node: Node)
    requires (node.Fixed64? || node.Fixed32?) && WellFormed(node) && IsSlice(d)
    requires ReadAt(d, 0) == Got(Value(node.tag), |node.tag|)
    ensures Reaches(SkipField(d), |NodeBytes(node)|)
  {
    SkipsFixed(d, node);
    hide ReadAt, Value, IsVarint, SkipField;
  }

  lemma CutDelimited(d: seq<byte>, node: Node)
    requires node.Delimited? && WellFormed(node) && IsSlice(d) && IsSlice(NodeBytes(node)) && 0 < |node.tag| <= |d|
    requires ReadAt(d, 0) == Got(Value(node.tag), |node.tag|) && CutAt(d, |node.tag|, Body(node))
    ensures SkipField(d) == Failed(UnexpectedEof) || Reaches(SkipField(d), |NodeBytes(node)|)
  {
    CutParts(d, |node.tag|, node.len, node.bytes);
    hide CutAt;
    assert SkipField(d) == SkipDelimited(ReadAt(d, |node.tag|)) by {
      hide ReadAt, Value, IsVarint;
    }
    if CutAt(d, |node.tag|, node.len) {
      CutVarint(d, |node.tag|, node.len);
    } else {
      ReadsAt(d, |node.tag|, node.len);
      LengthIs(node.len, |node.bytes|);
      hide ReadAt, Value, IsVarint, At, ToInt64, SkipField;
    }
  }

  lemma CutGroup(d: seq<byte>, node: Node)
    requires node.Group? && WellFormed(node) && IsSlice(d) && IsSlice(NodeBytes(node)) && 0 < |node.tag| <= |d|
    requires ReadAt(d, 0) == Got(Value(node.tag), |node.tag|) && CutAt(d, |node.tag|, Body(node))
    ensures AllWellFormed(node.fields) && IsTag(node.end, 4) && CutAt(d, |node.tag|, NodesBytes(node.fields) + node.end)
    ensures |node.tag| <= MAX_INT64 && SkipField(d) == SkipGroup(d, |node.tag|)
    ensures |node.tag| + |NodesBytes(node.fields) + node.end| <= MAX_INT64 - 8
  {
    hide ReadAt, Value, IsVarint, CutAt, SkipGroup, AllWellFormed, NodesBytes;
  }

  /** A group cut short runs out. */
  lemma {:induction false} CutNodes(d: seq<byte>, i: nat, nodes: Nodes, end: seq<byte>)
    requires AllWellFormed(nodes) && IsTag(end, 4) && 1 <= i && i + |NodesBytes(nodes) + end| <= MAX_INT64 - 8
    requires IsSlice(d) && CutAt(d, i, NodesBytes(nodes) + end)
    ensures i <= MAX_INT64 && SkipGroup(d, i) == Failed(UnexpectedEof)
    decreases nodes
  {
    hide *;
    if nodes.NoNodes? {
      CutEnd(d, i, nodes, end);
    } else {
      NodesParts(nodes, end);
      CutParts(d, i, NodeBytes(nodes.head), NodesBytes(nodes.tail) + end);
      InSlice(d, i, NodeBytes(nodes.head), NodesBytes(nodes.tail) + end);
      if CutAt(d, i, NodeBytes(nodes.head)) {
        CutSuffix(d, i, NodeBytes(nodes.head));
        SliceSuffix(d, i);
        if i < |d| {
          CutNode(d[i..], nodes.head);
        }
        RunsOut(d, i, nodes.head);
      } else {
        NodeParts(d, i, nodes.head);
        AtSuffix(d, i, NodeBytes(nodes.head));
        SliceSuffix(d, i);
        SkipsNode(d[i..], nodes.head);
        MovesOn(d, i, |NodeBytes(nodes.head)|);
        CutNodes(d, i + |NodeBytes(nodes.head)|, nodes.tail, end);
      }
    }
  }

  lemma CutEnd(d: seq<byte>, i: nat, nodes: Nodes, end: seq<byte>)
    requires nodes.NoNodes? && IsTag(end, 4) && 1 <= i && i + |NodesBytes(nodes) + end| <= MAX_INT64 - 8
    requires IsSlice(d) && CutAt(d, i, NodesBytes(nodes) + end)
    ensures i <= MAX_INT64 && SkipGroup(d, i) == Failed(UnexpectedEof)
  {
    assert NodesBytes(nodes) + end == end;
    CutVarint(d, i, end);
    hide ReadAt, Value, IsVarint, SkipField;
  }

  lemma NodesParts(nodes: Nodes, end: seq<byte>)
    requires nodes.More? && AllWellFormed(nodes)
    ensures WellFormed(nodes.head) && AllWellFormed(nodes.tail)
    ensures NodesBytes(nodes) + end == NodeBytes(nodes.head) + (NodesBytes(nodes.tail) + end)
  {
    hide WellFormed, NodeBytes;
    Associates(NodeBytes(nodes.head), NodesBytes(nodes.tail), end);
  }

  lemma InSlice(d: seq<byte>, i: nat, s: seq<byte>, t: seq<byte>)
    requires IsSlice(d) && CutAt(d, i, s + t) && 1 <= i && i + |s + t| <= MAX_INT64 - 8
    ensures i <= |d| <= MAX_INT64 - 8 && IsSlice(s) && i + |s| + |t| <= MAX_INT64 - 8
  {
  }

  /** Whether the member itself runs out or is skipped past the end, the group runs out. */
  lemma RunsOut(d: seq<byte>, i: nat, node: Node)
    requires IsSlice(d) && 1 <= i <= |d| && WellFormed(node) && CutAt(d, i, NodeBytes(node))
    requires i + |NodeBytes(node)| <= MAX_INT64 && IsSlice(d[i..])
    requires i < |d| ==> SkipField(d[i..]) == Failed(UnexpectedEof) || Reaches(SkipField(d[i..]), |NodeBytes(node)|)
    ensures i <= MAX_INT64 && SkipGroup(d, i) == Failed(UnexpectedEof)
  {
    NodeLength(node);
    CutParts(d, i, node.tag, Body(node));
    if i == |d| || CutAt(d, i, node.tag) {
      CutVarint(d, i, node.tag);
      hide ReadAt, SkipField, CutAt, NodeBytes;
    } else {
      ReadsAt(d, i, node.tag);
      var next := i + |NodeBytes(node)|;
      CutVarint(d, next, []);
      hide ReadAt, SkipField, NodeBytes, Body, IsVarint, Value, At;
    }
  }

  lemma MovesOn(d: seq<byte>, i: nat, n: nat)
    requires IsSlice(d) && 1 <= i <= |d| && 1 <= n && i + n <= MAX_INT64 && IsSlice(d[i..])
    requires ReadAt(d, i).Got? && ReadAt(d, i).value % 8 != 4 && SkipField(d[i..]) == Skipped(n)
    ensures SkipGroup(d, i) == SkipGroup(d, i + n)
  {
    hide ReadAt, SkipField, ToInt64;
  }

  // ---------- the front of a message ----------

  /** Legal fields are parsed one after the other, whatever follows them. */
  lemma {:induction false} ParsesFront(d: seq<byte>, i: nat, items: seq<Item>, ms: int64)
    requires forall k :: 0 <= k < |items| ==> Legal(items[k])
    requires IsSlice(d) && At(d, i, Message(items))
    ensures Parse(d, i, ms) == Parse(d, i + |Message(items)|, LastValue(items, ms))
    decreases |items|
  {
    hide *;
    if items == [] {
      EmptyFront(items, ms);
    } else {
      FrontSplits(d, i, items, ms);
      if items[0].Known? {
        ParsesKnown(d, i, items[0], ms);
      } else {
        ParsesUnknown(d, i, items[0], ms);
      }
      ParsesFront(d, i + |ItemBytes(items[0])|, items[1..], ValueAfter(items[0], ms));
    }
  }

  lemma EmptyFront(items: seq<Item>, ms: int64)
    requires items == []
    ensures |Message(items)| == 0 && LastValue(items, ms) == ms
  {
  }

  lemma FrontSplits(d: seq<byte>, i: nat, items: seq<Item>, ms: int64)
    requires items != [] && At(d, i, Message(items))
    ensures At(d, i, ItemBytes(items[0])) && At(d, i + |ItemBytes(items[0])|, Message(items[1..]))
    ensures |Message(items)| == |ItemBytes(items[0])| + |Message(items[1..])|
    ensures LastValue(items, ms) == LastValue(items[1..], ValueAfter(items[0], ms))
  {
    AtParts(d, i, ItemBytes(items[0]), Message(items[1..]));
    hide At, ItemBytes, ValueAfter;
  }

  /** A field cut short is an unexpected end. */
  lemma CutItem(d: seq<byte>, i: nat, item: Item, ms: int64)
    requires Legal(item) && IsSlice(d) && i < |d| && CutAt(d, i, ItemBytes(item))
    requires i + |ItemBytes(item)| <= MAX_INT64 - 8
    ensures Parse(d, i, ms).0 == UnexpectedEof
  {
    hide *;
    ItemParts(item);
    SliceSuffix(d, i);
    CutParts(d, i, TagOf(item), RestOf(item));
    if CutAt(d, i, TagOf(item)) {
      CutVarint(d, i, TagOf(item));
      EofAtTag(d, i, ms);
    } else {
      WholeTag(d, i, TagOf(item));
      var j := i + |TagOf(item)|;
      ParsesByTag(d, i, ms, j, Value(TagOf(item)) % 8);
      if item.Known? {
        CutVarint(d, j, RestOf(item));
        EofAtValue(d, j);
      } else {
        CutSuffix(d, i, ItemBytes(item));
        ShortNode(item, d, i);
        CutNode(d[i..], item.node);
        EofBehind(d, i, SkipField(d[i..]), |ItemBytes(item)|, ms);
      }
    }
  }

  function TagOf(item: Item): seq<byte> {
    if item.Known? then item.tag else item.node.tag
  }

  function RestOf(item: Item): seq<byte> {
    if item.Known? then item.value else Body(item.node)
  }

  lemma ItemParts(item: Item)
    requires Legal(item)
    ensures ItemBytes(item) == TagOf(item) + RestOf(item) && IsVarint(TagOf(item))
    ensures item.Known? ==> IsVarint(RestOf(item)) && Value(TagOf(item)) % 8 == 0 && FieldNumber(TagOf(item)) == 1
    ensures item.Unknown? ==> Value(TagOf(item)) % 8 != 4 && FieldNumber(TagOf(item)) > 1
  {
    if item.Unknown? {
      NodeLength(item.node);
    }
    hide Body, IsVarint, Value, FieldNumber;
  }

  lemma WholeTag(d: seq<byte>, i: nat, tag: seq<byte>)
    requires At(d, i, tag) && IsVarint(tag)
    ensures i < i + |tag| <= |d| && d[i..i + |tag|] == tag && TagIs(d, i, i + |tag|, Value(tag) % 8)
  {
    ReadsAt(d, i, tag);
    assert d[i..i + |tag|] == tag;
    hide ReadAt, Value, IsVarint;
  }

  lemma EofAtTag(d: seq<byte>, i: nat, ms: int64)
    requires IsSlice(d) && i < |d| && ReadAt(d, i) == Eof
    ensures Parse(d, i, ms).0 == UnexpectedEof
  {
    hide ReadAt, SkipField;
  }

  lemma EofAtValue(d: seq<byte>, j: nat)
    requires ReadAt(d, j) == Eof
    ensures ValueAt(d, j).0 == UnexpectedEof
  {
    hide ReadAt, Base128, ToInt64;
  }

  lemma ShortNode(item: Item, d: seq<byte>, i: nat)
    requires item.Unknown? && Legal(item) && i < |d| && i + |ItemBytes(item)| <= MAX_INT64 - 8
    ensures WellFormed(item.node) && IsSlice(NodeBytes(item.node)) && ItemBytes(item) == NodeBytes(item.node) && d[i..] != []
  {
    hide WellFormed, NodeBytes, FieldNumber;
  }

  lemma EofBehind(d: seq<byte>, i: nat, skip: Skip, n: nat, ms: int64)
    requires IsSlice(d) && i < |d| < i + n && i + n <= MAX_INT64
    requires skip == Failed(UnexpectedEof) || Reaches(skip, n)
    ensures GoOn(d, i, skip, ms).0 == UnexpectedEof
  {
    hide Parse;
  }

  /** Any message cut short inside a field is an unexpected end. */
  lemma CutInsideIsAnError(front: seq<Item>, item: Item, n: nat, before: int64)
    requires (forall k :: 0 <= k < |front| ==> Legal(front[k])) && Legal(item)
    requires IsSlice(Message(front) + ItemBytes(item)) && 0 < n < |ItemBytes(item)|
    ensures IsSlice(Message(front) + ItemBytes(item)[..n])
    ensures Parse(Message(front) + ItemBytes(item)[..n], 0, before).0 == UnexpectedEof
  {
    hide *;
    var d, i := Message(front) + ItemBytes(item)[..n], |Message(front)|;
    CutMessage(Message(front), ItemBytes(item), n);
    ParsesFront(d, 0, front, before);
    CutItem(d, i, item, LastValue(front, before));
  }

  lemma CutMessage(front: seq<byte>, s: seq<byte>, n: nat)
    requires 0 < n < |s| && IsSlice(front + s)
    ensures var d := front + s[..n];
            IsSlice(d) && At(d, 0, front) && |front| < |d| && CutAt(d, |front|, s) && |front| + |s| <= MAX_INT64 - 8
  {
  }

  // ---------- tags that are refused ----------

  /** After legal fields, a tag that may not stand there is refused for the first of these reasons: the end of a
      group that is not open, a field number that is not positive, field 1 with another type than a varint, and
      a type that does not exist. The value is that of the fields before. */
  lemma BadTagIsAnError(front: seq<Item>, tag: seq<byte>, rest: seq<byte>, before: int64)
    requires (forall k :: 0 <= k < |front| ==> Legal(front[k])) && IsVarint(tag)
    requires IsSlice(Message(front) + tag + rest)
    ensures var wireType, number, kept := Value(tag) % 8, FieldNumber(tag), LastValue(front, before);
            var parsed := Parse(Message(front) + tag + rest, 0, before);
            && (wireType == 4 ==> parsed == (EndGroup, kept))
            && (wireType != 4 && number <= 0 ==> parsed == (IllegalTag, kept))
            && (wireType !in {0, 4} && number == 1 ==> parsed == (WrongWireType, kept))
            && (wireType in {6, 7} && number > 1 ==> parsed == (IllegalWireType, kept))
  {
    hide *;
    var d, i := Message(front) + tag + rest, |Message(front)|;
    TagFollows(Message(front), tag, rest);
    ParsesFront(d, 0, front, before);
    WholeTag(d, i, tag);
    SliceSuffix(d, i);
    var ms := LastValue(front, before);
    ParsesByTag(d, i, ms, i + |tag|, Value(tag) % 8);
    if Value(tag) % 8 in {6, 7} {
      TagInSuffix(d, i, i + |tag|, Value(tag) % 8);
      SliceLimits(d[i..], |tag|);
      SkipsByType(d[i..], |tag|, Value(tag) % 8);
      StopsAtFailure(d, i, IllegalWireType, ms);
    }
  }

  lemma TagFollows(front: seq<byte>, tag: seq<byte>, rest: seq<byte>)
    requires IsVarint(tag)
    ensures var d := front + tag + rest; At(d, 0, front) && At(d, |front|, tag) && |front| < |d| && |tag| > 0
  {
  }

  lemma StopsAtFailure(d: seq<byte>, i: nat, error: Error, ms: int64)
    requires IsSlice(d) && i < |d|
    ensures GoOn(d, i, Failed(error), ms) == (error, ms)
  {
  }

  /** Ten bytes in a row that all say another one follows are no tag. */
  lemma OverlongIsAnError(front: seq<Item>, rest: seq<byte>, before: int64)
    requires forall k :: 0 <= k < |front| ==> Legal(front[k])
    requires IsSlice(Message(front) + rest) && |rest| >= 10 && forall k :: 0 <= k < 10 ==> rest[k] >= 128
    ensures Parse(Message(front) + rest, 0, before) == (IntOverflow, LastValue(front, before))
  {
    var d, i := Message(front) + rest, |Message(front)|;
    hide *;
    RestFollows(Message(front), rest);
    ParsesFront(d, 0, front, before);
    OverflowAtTag(d, i, LastValue(front, before));
  }

  lemma RestFollows(front: seq<byte>, rest: seq<byte>)
    requires |rest| >= 10 && forall k :: 0 <= k < 10 ==> rest[k] >= 128
    ensures var d := front + rest;
            At(d, 0, front) && |front| + 10 <= |d| && forall k :: |front| <= k < |front| + 10 ==> d[k] >= 128
  {
  }

  lemma OverflowAtTag(d: seq<byte>, i: nat, ms: int64)
    requires IsSlice(d) && i + 10 <= |d| && forall k :: i <= k < i + 10 ==> d[k] >= 128
    ensures Parse(d, i, ms) == (IntOverflow, ms)
  {
    ReadAtIs(d, i);
    hide ReadAt, SkipField;
  }

  /** A length that reads as a negative number, or that reaches past the largest int, is refused. */
  lemma BadLengthIsAnError(front: seq<Item>, tag: seq<byte>, len: seq<byte>, rest: seq<byte>, before: int64)
    requires (forall k :: 0 <= k < |front| ==> Legal(front[k])) && IsTag(tag, 2) && FieldNumber(tag) > 1 && IsVarint(len)
    requires IsSlice(Message(front) + (tag + len) + rest) && |tag| + |len| + Value(len) > MAX_INT64
    ensures Parse(Message(front) + (tag + len) + rest, 0, before) == (InvalidLength, LastValue(front, before))
  {
    var d, i, j := Message(front) + (tag + len) + rest, |Message(front)|, |tag|;
    hide *;
    PartsFollow(Message(front), tag, len, rest);
    ParsesFront(d, 0, front, before);
    IsTagIsVarint(tag);
    WholeTag(d, i, tag);
    SliceSuffix(d, i);
    var ms := LastValue(front, before);
    ParsesByTag(d, i, ms, i + j, 2);
    TagInSuffix(d, i, i + j, 2);
    SliceLimits(d[i..], j);
    SkipsByType(d[i..], j, 2);
    ReadsAt(d[i..], j, len);
    LengthIsRefused(ReadAt(d[i..], j));
    StopsAtFailure(d, i, InvalidLength, ms);
  }

  lemma IsTagIsVarint(tag: seq<byte>)
    requires IsTag(tag, 2)
    ensures IsVarint(tag) && Value(tag) % 8 == 2
  {
  }

  lemma PartsFollow(front: seq<byte>, tag: seq<byte>, len: seq<byte>, rest: seq<byte>)
    requires IsTag(tag, 2)
    ensures var d := front + (tag + len) + rest;
            && At(d, 0, front) && At(d, |front|, tag) && |front| < |d| && |tag| > 0
            && At(d[|front|..], |tag|, len) && |tag| <= |d[|front|..]|
  {
    hide IsVarint, Value;
    var d := front + (tag + len) + rest;
    TagIsNotEmpty(tag);
    forall k | 0 <= k < |tag| + |len| ensures d[|front| + k] == (tag + len)[k] {
    }
  }

  lemma TagIsNotEmpty(tag: seq<byte>)
    requires IsTag(tag, 2)
    ensures |tag| > 0
  {
  }

  lemma LengthIsRefused(len: Read)
    requires len.Got? && 1 <= len.next <= MAX_INT64 && len.value < TWO_TO_64 && len.next + len.value > MAX_INT64
    ensures SkipDelimited(len) == Failed(InvalidLength)
  {
  }
}
