/** Exactly which byte strings parse as a message (internal/sleep/service.pb.go; Protocol Buffers Encoding,
    "Message Structure"). */
module WireLanguages {
  import opened GoNumbers
  import opened Varints
  import opened WireCodec
  import opened WireRoundTrips

  // ---------- reading a varint ----------

  lemma {:induction false} ContinuedBytes(d: seq<byte>, i: nat, limit: nat)
    requires i <= |d|
    ensures var c := Continued(d, i, limit);
            && i + c <= |d| && (forall k :: i <= k < i + c ==> d[k] >= 128)
            && (c == limit || i + c == |d| || d[i + c] < 128)
    decreases limit
  {
    if limit == 0 || i == |d| || d[i] < 128 {
    } else {
      ContinuedBytes(d, i + 1, limit - 1);
    }
  }

  /** Ten bytes that all say another one follows overflow, fewer up to the end run out, and whatever else is read
      is a varint, with its value in 64 bits. */
  lemma ReadAtIs(d: seq<byte>, i: nat)
    requires i <= |d|
    ensures ReadAt(d, i).Overflow? <==> i + 10 <= |d| && forall k :: i <= k < i + 10 ==> d[k] >= 128
    ensures ReadAt(d, i).Eof? <==> |d| < i + 10 && forall k :: i <= k < |d| ==> d[k] >= 128
    ensures var r := ReadAt(d, i); r.Got? ==> IsVarint(d[i..r.next]) && r.value == Value(d[i..r.next])
  {
    ContinuedBytes(d, i, MAX_BYTES);
    hide Base128, Continued;
  }

  // ---------- what is skipped is a field ----------

  /** The bytes from i to j are read as a tag of the given wire type. */
  ghost predicate TagIs(d: seq<byte>, i: nat, j: nat, wireType: nat) {
    i < j <= |d| && ReadAt(d, i) == Got(Value(d[i..j]), j) && IsTag(d[i..j], wireType)
  }

  lemma TagIsRead(d: seq<byte>, i: nat) returns (j: nat, wireType: nat)
    requires i <= |d| && ReadAt(d, i).Got?
    ensures TagIs(d, i, j, wireType) && wireType < 8
    ensures j == ReadAt(d, i).next && wireType == ReadAt(d, i).value % 8
  {
    ReadAtIs(d, i);
    j, wireType := ReadAt(d, i).next, ReadAt(d, i).value % 8;
    hide ReadAt, Value, IsVarint;
  }

  /** Whatever is skipped within its bytes is a well-formed field with the tag that stands there. */
  lemma {:induction false} SkippedIsNode(d: seq<byte>, n: int64, i: nat, wireType: nat) returns (node: Node)
    requires IsSlice(d) && SkipField(d) == Skipped(n) && n <= |d| && TagIs(d, 0, i, wireType) && wireType != 4
    ensures WellFormed(node) && node.tag == d[..i] && NodeBytes(node) == d[..n]
    decreases |d|, |d| + 1
  {
    hide *;
    TagLimits(d, i, wireType);
    if wireType == 0 {
      node := IsVarintNode(d, n, i);
    } else if wireType == 1 {
      node := IsFixed64Node(d, n, i);
    } else if wireType == 2 {
      node := IsDelimitedNode(d, n, i);
    } else if wireType == 3 {
      GroupIsSkipped(d, n, i);
      var nodes, end := SkippedIsNodes(d, i, n);
      node := IsGroupNode(d, n, i, nodes, end);
    } else {
      OnlyFixed32(d, n, i, wireType);
      node := IsFixed32Node(d, n, i);
    }
  }

  lemma TagLimits(d: seq<byte>, i: nat, wireType: nat)
    requires TagIs(d, 0, i, wireType)
    ensures 0 < i <= |d| && d[0..i] == d[..i] && wireType < 8
  {
    hide ReadAt, IsVarint, Value;
  }

  /** The field number and the value of the tag do not matter for how far a field reaches. */
  lemma SkipsByType(d: seq<byte>, i: nat, wireType: nat)
    requires IsSlice(d) && TagIs(d, 0, i, wireType) && 1 <= i <= MAX_INT64
    ensures wireType == 0 ==>
              SkipField(d) == var v := ReadAt(d, i); if v.Got? then Skipped(v.next) else Failed(ErrorOf(v))
    ensures wireType == 1 ==> SkipField(d) == Skipped(AddInt64(i, 8))
    ensures wireType == 2 ==> SkipField(d) == SkipDelimited(ReadAt(d, i))
    ensures wireType == 3 ==> SkipField(d) == SkipGroup(d, i)
    ensures wireType == 5 ==> SkipField(d) == Skipped(AddInt64(i, 4))
    ensures wireType >= 6 ==> SkipField(d) == Failed(IllegalWireType)
  {
    hide ReadAt, Value, IsVarint, SkipDelimited, SkipGroup, AddInt64, ToInt64;
  }

  lemma SliceLimits(d: seq<byte>, i: nat)
    requires IsSlice(d) && i <= |d|
    ensures i + 8 <= MAX_INT64
  {
  }

  lemma Halves(d: seq<byte>, i: nat, n: nat)
    requires i <= n <= |d|
    ensures d[..i] + d[i..n] == d[..n] && |d[i..n]| == n - i && d[0..i] == d[..i]
  {
  }

  lemma IsVarintNode(d: seq<byte>, n: int64, i: nat) returns (node: Node)
    requires IsSlice(d) && SkipField(d) == Skipped(n) && n <= |d| && TagIs(d, 0, i, 0) && 0 < i <= |d|
    ensures WellFormed(node) && node.tag == d[..i] && NodeBytes(node) == d[..n]
  {
    SliceLimits(d, i);
    SkipsByType(d, i, 0);
    ReadAtIs(d, i);
    hide SkipField, IsSlice, Value, IsVarint, ReadAt;
    Halves(d, i, n);
    node := VarintField(d[..i], d[i..n]);
  }

  lemma IsFixed64Node(d: seq<byte>, n: int64, i: nat) returns (node: Node)
    requires IsSlice(d) && SkipField(d) == Skipped(n) && n <= |d| && TagIs(d, 0, i, 1) && 0 < i <= |d|
    ensures WellFormed(node) && node.tag == d[..i] && NodeBytes(node) == d[..n]
  {
    SliceLimits(d, i);
    SkipsByType(d, i, 1);
    hide SkipField, IsSlice, Value, IsVarint, ReadAt, AddInt64;
    Halves(d, i, n);
    node := Fixed64(d[..i], d[i..n]);
  }

  lemma IsFixed32Node(d: seq<byte>, n: int64, i: nat) returns (node: Node)
    requires IsSlice(d) && SkipField(d) == Skipped(n) && n <= |d| && TagIs(d, 0, i, 5) && 0 < i <= |d|
    ensures WellFormed(node) && node.tag == d[..i] && NodeBytes(node) == d[..n]
  {
    SliceLimits(d, i);
    SkipsByType(d, i, 5);
    hide SkipField, IsSlice, Value, IsVarint, ReadAt, AddInt64;
    Halves(d, i, n);
    node := Fixed32(d[..i], d[i..n]);
  }

  lemma OnlyFixed32(d: seq<byte>, n: int64, i: nat, wireType: nat)
    requires IsSlice(d) && SkipField(d) == Skipped(n) && TagIs(d, 0, i, wireType) && 0 < i <= |d|
    requires wireType !in {0, 1, 2, 3, 4}
    ensures wireType == 5
  {
    SliceLimits(d, i);
    SkipsByType(d, i, wireType);
    hide *;
  }

  lemma IsDelimitedNode(d: seq<byte>, n: int64, i: nat) returns (node: Node)
    requires IsSlice(d) && SkipField(d) == Skipped(n) && n <= |d| && TagIs(d, 0, i, 2) && 0 < i <= |d|
    ensures WellFormed(node) && node.tag == d[..i] && NodeBytes(node) == d[..n]
  {
    SliceLimits(d, i);
    SkipsByType(d, i, 2);
    ReadAtIs(d, i);
    hide *;
    var j := ReadAt(d, i).next;
    DelimitedReach(ReadAt(d, i), n);
    node := Delimited(d[..i], d[i..j], d[j..n]);
    DelimitedBytes(d, n, i, j);
  }

  lemma DelimitedBytes(d: seq<byte>, n: int64, i: nat, j: nat)
    requires TagIs(d, 0, i, 2) && i < j <= n <= |d| && IsVarint(d[i..j]) && Value(d[i..j]) == n - j
    ensures WellFormed(Delimited(d[..i], d[i..j], d[j..n])) && NodeBytes(Delimited(d[..i], d[i..j], d[j..n])) == d[..n]
  {
    hide ReadAt, Value, IsVarint;
    Halves(d, i, n);
    assert d[i..j] + d[j..n] == d[i..n];
  }

  lemma DelimitedReach(len: Read, n: int64)
    requires (len.Got? ==> 1 <= len.next <= MAX_INT64 && len.value < TWO_TO_64) && SkipDelimited(len) == Skipped(n)
    ensures len.Got? && len.next <= n && len.value == n - len.next
  {
  }

  lemma GroupIsSkipped(d: seq<byte>, n: int64, i: nat)
    requires IsSlice(d) && SkipField(d) == Skipped(n) && TagIs(d, 0, i, 3) && 0 < i <= |d|
    ensures i <= MAX_INT64 && SkipGroup(d, i) == Skipped(n)
  {
    SliceLimits(d, i);
    SkipsByType(d, i, 3);
  }

  lemma IsGroupNode(d: seq<byte>, n: int64, i: nat, nodes: Nodes, end: seq<byte>) returns (node: Node)
    requires i <= n <= |d| && TagIs(d, 0, i, 3) && AllWellFormed(nodes) && IsTag(end, 4)
    requires NodesBytes(nodes) + end == d[i..n]
    ensures WellFormed(node) && node.tag == d[..i] && NodeBytes(node) == d[..n]
  {
    Halves(d, i, n);
    hide IsVarint, Value, AllWellFormed, NodesBytes, ReadAt;
    node := Group(d[..i], nodes, end);
  }

  /** And whatever is skipped as the rest of a group is a sequence of well-formed fields with an end tag. */
  lemma {:induction false} SkippedIsNodes(d: seq<byte>, i: nat, n: int64) returns (nodes: Nodes, end: seq<byte>)
    requires IsSlice(d) && 1 <= i <= MAX_INT64 && SkipGroup(d, i) == Skipped(n) && n <= |d|
    ensures AllWellFormed(nodes) && IsTag(end, 4) && i <= n && NodesBytes(nodes) + end == d[i..n]
    decreases |d|, if i < |d| then |d| - i else 0
  {
    hide *;
    GroupTag(d, i, n);
    var j, wireType := TagIsRead(d, i);
    if wireType == 4 {
      nodes, end := EndsGroup(d, i, n, j);
    } else {
      SliceSuffix(d, i);
      TagInSuffix(d, i, j, wireType);
      var m := GroupMember(d, i, n, wireType);
      var node := SkippedIsNode(d[i..], m, j - i, wireType);
      var rest;
      rest, end := SkippedIsNodes(d, i + m, n);
      nodes := Joined(d, i, m, n, node, rest, end);
    }
  }

  lemma GroupTag(d: seq<byte>, i: nat, n: int64)
    requires IsSlice(d) && 1 <= i <= MAX_INT64 && SkipGroup(d, i) == Skipped(n)
    ensures ReadAt(d, i).Got? && i < |d| && i < n
  {
    hide ReadAt, SkipField, AddInt64;
  }

  lemma EndsGroup(d: seq<byte>, i: nat, n: int64, j: nat) returns (nodes: Nodes, end: seq<byte>)
    requires IsSlice(d) && 1 <= i <= MAX_INT64 && SkipGroup(d, i) == Skipped(n) && i <= n <= |d| && TagIs(d, i, j, 4)
    ensures AllWellFormed(nodes) && IsTag(end, 4) && NodesBytes(nodes) + end == d[i..n]
  {
    hide ReadAt, SkipField, IsVarint, Value, AddInt64;
    nodes, end := NoNodes, d[i..j];
  }

  /** The next member of the group: it ends within the bytes, since reading goes on after it. */
  lemma GroupMember(d: seq<byte>, i: nat, n: int64, wireType: nat) returns (m: int64)
    requires IsSlice(d) && 1 <= i < |d| && SkipGroup(d, i) == Skipped(n) && IsSlice(d[i..])
    requires ReadAt(d, i).Got? && ReadAt(d, i).value % 8 == wireType != 4
    ensures SkipField(d[i..]) == Skipped(m) && 1 <= m <= |d[i..]| && i + m <= MAX_INT64
    ensures SkipGroup(d, i + m) == Skipped(n)
  {
    hide ReadAt, SkipField, AddInt64;
    m := SkipField(d[i..]).n;
    assert SkipGroup(d, i) == SkipGroup(d, i + m);
    hide SkipGroup;
    GroupTag(d, i + m, n);
  }

  /** Reading does not look back. */
  lemma TagInSuffix(d: seq<byte>, i: nat, j: nat, wireType: nat)
    requires TagIs(d, i, j, wireType)
    ensures i < j <= |d| && TagIs(d[i..], 0, j - i, wireType) && d[i..][..j - i] == d[i..j]
  {
    assert d[i..j] == d[i..][0..j - i];
    IsVarintAt(d[i..], j - i);
    hide ReadAt, Value, IsVarint;
  }

  lemma IsVarintAt(d: seq<byte>, j: nat)
    requires j <= |d| && IsVarint(d[0..j])
    ensures ReadAt(d, 0) == Got(Value(d[0..j]), j)
  {
    ReadsAt(d, 0, d[0..j]);
  }

  lemma Joined(d: seq<byte>, i: nat, m: nat, n: nat, node: Node, rest: Nodes, end: seq<byte>) returns (nodes: Nodes)
    requires i <= i + m <= n <= |d| && WellFormed(node) && AllWellFormed(rest)
    requires NodeBytes(node) == d[i..][..m] && NodesBytes(rest) + end == d[i + m..n]
    ensures AllWellFormed(nodes) && NodesBytes(nodes) + end == d[i..n]
  {
    hide NodeBytes, WellFormed;
    nodes := More(node, rest);
    Associates(NodeBytes(node), NodesBytes(rest), end);
    assert d[i..][..m] == d[i..i + m];
    assert d[i..i + m] + d[i + m..n] == d[i..n];
  }

  // ---------- what parses is a message ----------

  /** Whatever parses is a sequence of legal fields, and its value is that of the last field 1. */
  lemma {:induction false} ParsedIsMessage(d: seq<byte>, i: nat, ms: int64) returns (items: seq<Item>)
    requires IsSlice(d) && i <= |d| && Parse(d, i, ms).0 == None
    ensures forall k :: 0 <= k < |items| ==> Legal(items[k])
    ensures Message(items) == d[i..] && LastValue(items, ms) == Parse(d, i, ms).1
    decreases |d| - i
  {
    hide *;
    if i == |d| {
      items := NothingParsed(d, i, ms);
    } else {
      ParsedTag(d, i, ms);
      var j, wireType := TagIsRead(d, i);
      var item, n;
      if FieldNumber(d[i..j]) == 1 {
        item, n := ParsedKnown(d, i, ms, j, wireType);
      } else {
        item, n := ParsedUnknown(d, i, ms, j, wireType);
      }
      var rest := ParsedIsMessage(d, n, ValueAfter(item, ms));
      items := [item] + rest;
      ItemFirst(d, i, n, item, rest, ms);
    }
  }

  lemma NothingParsed(d: seq<byte>, i: nat, ms: int64) returns (items: seq<Item>)
    requires IsSlice(d) && i == |d|
    ensures items == [] && Message(items) == d[i..] && LastValue(items, ms) == Parse(d, i, ms).1
  {
    items := [];
  }

  lemma ParsedTag(d: seq<byte>, i: nat, ms: int64)
    requires IsSlice(d) && i < |d| && Parse(d, i, ms).0 == None
    ensures ReadAt(d, i).Got? && i < ReadAt(d, i).next <= |d|
  {
    hide ReadAt, SkipField, ValueAt, ToInt32, ToInt64, AddInt64;
  }

  /** How parsing goes on behind a tag. */
  lemma ParsesByTag(d: seq<byte>, i: nat, ms: int64, j: nat, wireType: nat)
    requires IsSlice(d) && i < |d| && TagIs(d, i, j, wireType) && i < j <= |d| && IsSlice(d[i..])
    ensures wireType == 4 ==> Parse(d, i, ms) == (EndGroup, ms)
    ensures wireType != 4 && FieldNumber(d[i..j]) <= 0 ==> Parse(d, i, ms) == (IllegalTag, ms)
    ensures FieldNumber(d[i..j]) == 1 && wireType !in {0, 4} ==> Parse(d, i, ms) == (WrongWireType, ms)
    ensures FieldNumber(d[i..j]) == 1 && wireType == 0 ==>
              Parse(d, i, ms) == var v := ValueAt(d, j); if v.0 != None then v else Parse(d, ReadAt(d, j).next, v.1)
    ensures FieldNumber(d[i..j]) > 1 && wireType != 4 ==>
              Parse(d, i, ms) == GoOn(d, i, SkipField(d[i..]), ms)
  {
    hide ReadAt, Value, IsVarint, SkipField, ToInt32, ToInt64, AddInt64, ValueAt;
  }

  /** Parsing on after a field that is not known. */
  function GoOn(d: seq<byte>, i: nat, skip: Skip, ms: int64): (Error, int64)
    requires IsSlice(d) && i < |d| && !skip.Panic? && (skip.Skipped? ==> skip.n >= 1)
  {
    match skip
    case Failed(e) => (e, ms)
    case Skipped(n) =>
      var next := AddInt64(i, n);
      if next < 0 then (InvalidLength, ms)
      else if next > |d| then (UnexpectedEof, ms)
      else Parse(d, next, ms)
  }

  lemma ParsedKnown(d: seq<byte>, i: nat, ms: int64, j: nat, wireType: nat) returns (item: Item, n: nat)
    requires IsSlice(d) && i < |d| && Parse(d, i, ms).0 == None
    requires TagIs(d, i, j, wireType) && i < j <= |d| && FieldNumber(d[i..j]) == 1
    ensures Legal(item) && i < n <= |d| && ItemBytes(item) == d[i..n]
    ensures Parse(d, i, ms) == Parse(d, n, ValueAfter(item, ms))
  {
    hide *;
    SliceSuffix(d, i);
    ParsesByTag(d, i, ms, j, wireType);
    n := KnownValue(d, j);
    KnownType(d, i, j, wireType, ms);
    item := KnownItem(d, i, j, n, ms);
  }

  lemma KnownType(d: seq<byte>, i: nat, j: nat, wireType: nat, ms: int64)
    requires IsSlice(d) && i < |d| && Parse(d, i, ms).0 == None && TagIs(d, i, j, wireType) && IsSlice(d[i..])
    requires i < j <= |d| && FieldNumber(d[i..j]) == 1
    ensures wireType == 0 && ValueAt(d, j).0 == None
  {
    hide *;
    ParsesByTag(d, i, ms, j, wireType);
  }

  lemma KnownItem(d: seq<byte>, i: nat, j: nat, n: nat, ms: int64) returns (item: Item)
    requires i < j < n <= |d| && TagIs(d, i, j, 0) && FieldNumber(d[i..j]) == 1 && IsVarint(d[j..n])
    ensures Legal(item) && ItemBytes(item) == d[i..n] && ValueAfter(item, ms) == ToInt64(Value(d[j..n]))
  {
    hide ReadAt, Value, IsVarint, ToInt64, FieldNumber;
    item := Known(d[i..j], d[j..n]);
    assert d[i..j] + d[j..n] == d[i..n];
  }

  lemma KnownValue(d: seq<byte>, j: nat) returns (n: nat)
    requires j <= |d|
    ensures ValueAt(d, j).0 == None ==>
              && n == ReadAt(d, j).next && j < n <= |d|
              && IsVarint(d[j..n]) && ValueAt(d, j).1 == ToInt64(Value(d[j..n]))
  {
    n := if ReadAt(d, j).Got? then ReadAt(d, j).next else 0;
    ReadAtIs(d, j);
    hide ReadAt, Value, IsVarint, ToInt64, Continued, Base128;
  }

  lemma ParsedUnknown(d: seq<byte>, i: nat, ms: int64, j: nat, wireType: nat) returns (item: Item, n: nat)
    requires IsSlice(d) && i < |d| && Parse(d, i, ms).0 == None
    requires TagIs(d, i, j, wireType) && i < j <= |d| && FieldNumber(d[i..j]) != 1
    ensures Legal(item) && i < n <= |d| && ItemBytes(item) == d[i..n]
    ensures Parse(d, i, ms) == Parse(d, n, ValueAfter(item, ms))
  {
    hide *;
    SliceSuffix(d, i);
    ParsesByTag(d, i, ms, j, wireType);
    n := UnknownSkipped(d, i, SkipField(d[i..]), ms);
    TagInSuffix(d, i, j, wireType);
    var node := SkippedIsNode(d[i..], n - i, j - i, wireType);
    item := UnknownItem(d, i, j, n, node, ms);
  }

  lemma UnknownSkipped(d: seq<byte>, i: nat, skip: Skip, ms: int64) returns (n: nat)
    requires IsSlice(d) && i < |d| && !skip.Panic? && (skip.Skipped? ==> skip.n >= 1)
    requires skip.Failed? ==> skip.error != None
    requires GoOn(d, i, skip, ms).0 == None
    ensures i < n <= |d| <= MAX_INT64 && skip == Skipped(n - i) && GoOn(d, i, skip, ms) == Parse(d, n, ms)
  {
    hide Parse, AddInt64;
    n := i + skip.n;
  }

  lemma UnknownItem(d: seq<byte>, i: nat, j: nat, n: nat, node: Node, ms: int64) returns (item: Item)
    requires i < j <= |d| && i < n <= |d| && WellFormed(node) && FieldNumber(d[i..j]) > 1
    requires node.tag == d[i..][..j - i] && NodeBytes(node) == d[i..][..n - i]
    ensures Legal(item) && ItemBytes(item) == d[i..n] && ValueAfter(item, ms) == ms
  {
    hide WellFormed, NodeBytes, FieldNumber;
    item := Unknown(node);
    assert d[i..][..n - i] == d[i..n] && d[i..][..j - i] == d[i..j];
  }

  lemma ItemFirst(d: seq<byte>, i: nat, n: nat, item: Item, rest: seq<Item>, ms: int64)
    requires i < n <= |d| && Legal(item) && ItemBytes(item) == d[i..n] && Message(rest) == d[n..]
    requires forall k :: 0 <= k < |rest| ==> Legal(rest[k])
    ensures var items := [item] + rest;
            && (forall k :: 0 <= k < |items| ==> Legal(items[k]))
            && Message(items) == d[i..] && LastValue(items, ms) == LastValue(rest, ValueAfter(item, ms))
  {
    hide Legal, ItemBytes, ValueAfter;
    assert ([item] + rest)[1..] == rest;
    assert d[i..n] + d[n..] == d[i..];
  }

  /** The bytes of a message of legal fields with the given value in the end. */
  ghost predicate IsMessage(items: seq<Item>, d: seq<byte>, before: int64, ms: int64) {
    && (forall k :: 0 <= k < |items| ==> Legal(items[k]))
    && Message(items) == d && LastValue(items, before) == ms
  }

  /** A byte string parses, with a value, if and only if it is a message of legal fields with that value. */
  lemma ParsesIff(d: seq<byte>, before: int64, ms: int64)
    requires IsSlice(d)
    ensures Parse(d, 0, before) == (None, ms) <==> exists items: seq<Item> :: IsMessage(items, d, before, ms)
  {
    if Parse(d, 0, before) == (None, ms) {
      var items := ParsedIsMessage(d, 0, before);
      assert d[0..] == d;
      assert IsMessage(items, d, before, ms);
    }
    hide Parse, IsSlice, Legal, Message, LastValue;
    forall items: seq<Item> | IsMessage(items, d, before, ms)
      ensures Parse(d, 0, before) == (None, ms)
    {
      AtStart(d);
      ParsesMessage(d, 0, items, before);
    }
  }
}
