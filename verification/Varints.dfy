/** Base 128 varints (internal/sleep/service.pb.go; Protocol Buffers Encoding, "Base 128 Varints").
    A byte slice that is only read is a `seq<byte>`; one that is written is an `array<byte>`. */
module Varints {
  import opened GoNumbers

  type byte = x: int | 0 <= x < 256

  // ---------- bits ----------

  /** `a | b`, bit by bit. */
  function BitOr(a: nat, b: nat): nat {
    if a == 0 then b
    else if b == 0 then a
    else Max(a % 2, b % 2) + 2 * BitOr(a / 2, b / 2)
  }

  function Pow2(n: nat): (p: nat)
    ensures p > 0
  {
    if n == 0 then 1 else 2 * Pow2(n - 1)
  }

  /** `math/bits.Len64`: the position of the highest bit, counting from one. */
  function Len64(x: nat): nat {
    if x == 0 then 0 else 1 + Len64(x / 2)
  }

  lemma {:induction false} OrWithZero(a: nat)
    ensures BitOr(a, 0) == a == BitOr(0, a)
  {
  }

  /** Bits that do not overlap are combined by adding. */
  lemma {:induction false} DisjointOr(a: nat, m: nat, s: nat)
    requires a < Pow2(s)
    ensures BitOr(a, m * Pow2(s)) == a + m * Pow2(s)
  {
    hide BitOr;
    if a == 0 {
      OrWithZero(m * Pow2(s));
    } else if m == 0 {
      OrWithZero(a);
    } else {
      var half := m * Pow2(s - 1);
      Doubled(m, Pow2(s - 1));
      DisjointOr(a / 2, m, s - 1);
      OrStep(a, m * Pow2(s), half);
    }
  }

  lemma Doubled(m: nat, p: nat)
    ensures m * (2 * p) == 2 * (m * p)
    ensures m > 0 && p > 0 ==> m * p > 0
  {
  }

  lemma OrStep(a: nat, b: nat, half: nat)
    requires a > 0 && b > 0 && b == 2 * half && BitOr(a / 2, half) == a / 2 + half
    ensures BitOr(a, b) == a + b
  {
    assert b / 2 == half && b % 2 == 0;
  }

  // ---------- the value of a group of bytes ----------

  function Pow128(k: nat): (p: nat)
    ensures p > 0
  {
    if k == 0 then 1 else 128 * Pow128(k - 1)
  }

  lemma {:induction false} Pow128IsPow2(k: nat)
    ensures Pow128(k) == Pow2(7 * k)
  {
    if k == 0 {
    } else {
      Pow128IsPow2(k - 1);
      SevenDoublings(7 * k - 7);
    }
  }

  lemma SevenDoublings(n: nat)
    ensures Pow2(n + 7) == 128 * Pow2(n)
  {
    assert Pow2(n + 7) == 2 * Pow2(n + 6) == 4 * Pow2(n + 5) == 8 * Pow2(n + 4);
    assert Pow2(n + 4) == 2 * Pow2(n + 3) == 4 * Pow2(n + 2) == 8 * Pow2(n + 1) == 16 * Pow2(n);
  }

  /** The seven low bits of each byte, least significant byte first. */
  function Base128(s: seq<byte>): nat {
    if s == [] then 0 else s[0] % 128 + 128 * Base128(s[1..])
  }

  lemma {:induction false} Base128Append(s: seq<byte>, b: byte)
    ensures Base128(s + [b]) == Base128(s) + b % 128 * Pow128(|s|)
  {
    if s == [] {
      assert [b][1..] == [];
    } else {
      Base128Append(s[1..], b);
      assert (s + [b])[1..] == s[1..] + [b];
      Scaled(Base128(s[1..]), b % 128, Pow128(|s| - 1));
    }
  }

  lemma Scaled(x: nat, g: nat, p: nat)
    ensures 128 * (x + g * p) == 128 * x + g * (128 * p)
  {
  }

  lemma {:induction false} Base128IsBounded(s: seq<byte>)
    ensures Base128(s) < Pow128(|s|)
  {
    if s == [] {
    } else {
      Base128IsBounded(s[1..]);
    }
  }

  lemma NinePowers()
    ensures Pow128(9) == TWO_TO_63
    ensures forall k :: 0 <= k <= 9 ==> Pow128(k) <= TWO_TO_63
  {
    assert Pow128(3) == 0x20_0000;
    assert Pow128(6) == 0x400_0000_0000;
    assert Pow128(9) == TWO_TO_63;
    assert Pow128(1) == 128 && Pow128(2) == 16384 && Pow128(4) == 128 * Pow128(3) && Pow128(5) == 128 * Pow128(4);
    assert Pow128(7) == 128 * Pow128(6) && Pow128(8) == 128 * Pow128(7);
  }

  // ---------- reading ----------

  datatype Read = Overflow | Eof | Got(value: nat, next: nat)

  /** The longest varint of 64 bits. */
  const MAX_BYTES: nat := 10

  /** How many bytes from i on, up to a limit, say that another one follows. */
  function Continued(d: seq<byte>, i: nat, limit: nat): (c: nat)
    ensures c <= limit && (i <= |d| ==> i + c <= |d|) && (i >= |d| ==> c == 0)
    decreases limit
  {
    if limit == 0 || i >= |d| || d[i] < 128 then 0 else 1 + Continued(d, i + 1, limit - 1)
  }

  /** What reading a varint at i gives: its base 128 value in 64 bits and where it ends. */
  function ReadAt(d: seq<byte>, i: nat): (r: Read)
    ensures r.Got? ==> i < r.next <= |d| && r.value < TWO_TO_64
  {
    var c := Continued(d, i, MAX_BYTES);
    if c == MAX_BYTES then Overflow
    else if i + c >= |d| then Eof
    else Got(Base128(d[i..i + c + 1]) % TWO_TO_64, i + c + 1)
  }

  lemma {:induction false} ContinuedIs(d: seq<byte>, i: nat, limit: nat, c: nat)
    requires c <= limit && i + c <= |d| && forall k :: i <= k < i + c ==> d[k] >= 128
    requires c == limit || i + c == |d| || d[i + c] < 128
    ensures Continued(d, i, limit) == c
    decreases limit
  {
    if c == 0 {
    } else {
      ContinuedIs(d, i + 1, limit - 1, c - 1);
    }
  }

  /** One turn of the loop: the next seven bits go above those already read, and those beyond the
      64th are lost. */
  lemma OrTruncated(w: nat, g: nat, k: nat)
    requires k <= 9 && w < Pow128(k) && g < 128
    ensures BitOr(w, g * Pow2(7 * k) % TWO_TO_64) == (w + g * Pow128(k)) % TWO_TO_64
  {
    hide BitOr, Pow128, Pow2;
    NinePowers();
    Pow128IsPow2(k);
    if k < 9 {
      OrFits(w, g, k);
    } else {
      DisjointOr(w, g % 2, 63);
      TopBit(w, g);
    }
  }

  lemma OrFits(w: nat, g: nat, k: nat)
    requires k < 9 && w < Pow128(k) && g < 128 && Pow128(k) == Pow2(7 * k)
    ensures BitOr(w, g * Pow2(7 * k) % TWO_TO_64) == (w + g * Pow128(k)) % TWO_TO_64
  {
    var p := Pow128(k);
    assert p * 128 == Pow128(k + 1);
    hide BitOr, Pow128, Pow2;
    NinePowers();
    DisjointOr(w, g, 7 * k);
    FitsBelow(w, g, p);
  }

  lemma FitsBelow(w: nat, g: nat, p: nat)
    requires w < p && g < 128 && p * 128 <= TWO_TO_63
    ensures g * p % TWO_TO_64 == g * p && (w + g * p) % TWO_TO_64 == w + g * p
  {
    ProductIsMonotone(g, 128, p);
    ProductIsMonotone(0, g, p);
    SumFits(w, g * p, p);
  }

  lemma SumFits(w: nat, x: nat, p: nat)
    requires w < p && x + p <= TWO_TO_63
    ensures x % TWO_TO_64 == x && (w + x) % TWO_TO_64 == w + x
  {
  }

  lemma SmallRemainder(x: nat)
    requires x < TWO_TO_64
    ensures x % TWO_TO_64 == x
  {
  }

  lemma TopBit(w: nat, g: nat)
    requires w < TWO_TO_63
    ensures g * TWO_TO_63 % TWO_TO_64 == g % 2 * TWO_TO_63
    ensures (w + g * TWO_TO_63) % TWO_TO_64 == w + g % 2 * TWO_TO_63
  {
  }

  /** The loop that reads a varint, as it stands at each place that reads one. */
  method ReadVarint(d: seq<byte>, i: nat) returns (r: Read)
    ensures r == ReadAt(d, i)
  {
    hide BitOr, Pow2, Pow128, Base128, Continued, ReadAt;
    var wire, shift, j := 0, 0, i;
    ReadStarts(d, i);
    while true
      invariant j - i <= MAX_BYTES && shift == 7 * (j - i)
      invariant Reading(d, i, j, wire)
      decreases 70 - shift
    {
      if shift >= 64 {
        ReadOverflows(d, i, j, wire);
        return Overflow;
      }
      if j >= |d| {
        ReadRunsOut(d, i, j, wire);
        return Eof;
      }
      var b := d[j];
      ReadTakes(d, i, j, wire);
      j := j + 1;
      wire := BitOr(wire, b % 128 * Pow2(shift) % TWO_TO_64);
      if b < 0x80 {
        return Got(wire, j);
      }
      shift := shift + 7;
    }
  }

  /** The bytes from i to j have been read, all of them with another one to follow. */
  ghost predicate Reading(d: seq<byte>, i: nat, j: int, wire: int) {
    && i <= j && (j == i || j <= |d|)
    && (forall k :: i <= k < j ==> d[k] >= 128)
    && (j <= |d| ==> wire == Base128(d[i..j]) % TWO_TO_64)
    && wire >= 0 && (j > |d| ==> wire == 0)
  }

  lemma ReadStarts(d: seq<byte>, i: nat)
    ensures Reading(d, i, i, 0)
  {
  }

  lemma ReadOverflows(d: seq<byte>, i: nat, j: nat, wire: nat)
    requires Reading(d, i, j, wire) && j - i == MAX_BYTES
    ensures ReadAt(d, i) == Overflow
  {
    ContinuedIs(d, i, MAX_BYTES, MAX_BYTES);
  }

  lemma ReadRunsOut(d: seq<byte>, i: nat, j: nat, wire: nat)
    requires Reading(d, i, j, wire) && j - i < MAX_BYTES && j >= |d|
    ensures ReadAt(d, i) == Eof
  {
    if j <= |d| {
      ContinuedIs(d, i, MAX_BYTES, j - i);
    }
  }

  lemma ReadTakes(d: seq<byte>, i: nat, j: nat, wire: nat)
    requires Reading(d, i, j, wire) && j - i < MAX_BYTES && j < |d|
    ensures var w := BitOr(wire, d[j] % 128 * Pow2(7 * (j - i)) % TWO_TO_64);
            && (d[j] >= 128 ==> Reading(d, i, j + 1, w))
            && (d[j] < 128 ==> ReadAt(d, i) == Got(w, j + 1))
  {
    var s := d[i..j];
    assert d[i..j + 1] == s + [d[j]];
    hide BitOr, Pow2, Pow128, Base128;
    Base128Append(s, d[j]);
    Base128IsBounded(s);
    NinePowers();
    SmallRemainder(Base128(s));
    OrTruncated(wire, d[j] % 128, j - i);
    if d[j] < 128 {
      ContinuedIs(d, i, MAX_BYTES, j - i);
    }
  }

  // ---------- writing ----------

  /** A varint as the encoding defines it: every byte but the last says that another one follows. */
  ghost predicate IsVarint(s: seq<byte>) {
    0 < |s| <= MAX_BYTES && s[|s| - 1] < 128 && forall k :: 0 <= k < |s| - 1 ==> s[k] >= 128
  }

  /** The shortest varint of a value. */
  function Encoded(v: nat): (s: seq<byte>)
    ensures |s| > 0
  {
    if v < 128 then [v] else [v % 128 + 128] + Encoded(v / 128)
  }

  /** The size the code computes from the position of the highest bit. */
  function Sov(x: nat): nat {
    (Len64(BitOr(x, 1)) + 6) / 7
  }

  lemma OrWithOne(x: nat)
    ensures BitOr(x, 1) == if x % 2 == 1 then x else x + 1
  {
    OrWithZero(x / 2);
    assert x > 0 ==> BitOr(x, 1) == Max(x % 2, 1) + 2 * BitOr(x / 2, 0);
  }

  lemma Len64WithOne(x: nat)
    requires x > 0
    ensures Len64(BitOr(x, 1)) == Len64(x)
  {
    OrWithOne(x);
    assert BitOr(x, 1) / 2 == x / 2;
    hide BitOr;
  }

  lemma Len64Quarter(x: nat)
    requires x >= 2
    ensures Len64(x) == 2 + Len64(x / 4)
  {
    assert Len64(x) == 1 + Len64(x / 2);
    assert x / 2 / 2 == x / 4;
  }

  lemma Len64Shift(x: nat)
    requires x >= 128
    ensures Len64(x) == 7 + Len64(x / 128)
  {
    var y := x / 64;
    assert x / 4 / 4 == x / 16 && x / 16 / 4 == y && y / 2 == x / 128;
    Len64Quarter(x);
    Len64Quarter(x / 4);
    Len64Quarter(x / 16);
    assert Len64(y) == 1 + Len64(y / 2);
    hide Len64;
  }

  lemma {:induction false} Len64IsBounded(x: nat, n: nat)
    requires x < Pow2(n)
    ensures Len64(x) <= n
  {
    if x == 0 {
    } else {
      Len64IsBounded(x / 2, n - 1);
    }
  }

  lemma Len64Small(x: nat)
    requires 0 < x < 128
    ensures 1 <= Len64(x) <= 7
  {
    SevenDoublings(0);
    Len64IsBounded(x, 7);
  }

  /** The computed size is the number of bytes written. */
  lemma {:induction false} SovIsLength(v: nat)
    ensures Sov(v) == |Encoded(v)|
  {
    hide BitOr, Len64;
    if v < 128 {
      OrWithOne(v);
      Len64Small(BitOr(v, 1));
    } else {
      SovIsLength(v / 128);
      Len64WithOne(v);
      Len64WithOne(v / 128);
      Len64Shift(v);
    }
  }

  lemma {:induction false} EncodedIsShort(v: nat, n: nat)
    requires v < Pow128(n) && n > 0
    ensures |Encoded(v)| <= n
  {
    if v < 128 {
    } else {
      EncodedIsShort(v / 128, n - 1);
    }
  }

  /** The bytes are a varint, and their base 128 value is the value encoded. */
  lemma {:induction false} EncodedValue(v: nat)
    ensures Base128(Encoded(v)) == v
    ensures var s := Encoded(v); s[|s| - 1] < 128 && forall k :: 0 <= k < |s| - 1 ==> s[k] >= 128
  {
    if v < 128 {
    } else {
      EncodedValue(v / 128);
      var s := Encoded(v);
      assert s[1..] == Encoded(v / 128);
    }
  }

  lemma EncodedIsVarint(v: uint64)
    ensures IsVarint(Encoded(v)) && Base128(Encoded(v)) == v
  {
    hide Encoded, Base128;
    EncodedValue(v);
    assert v < Pow128(10) by {
      NinePowers();
      assert Pow128(10) == 128 * Pow128(9);
    }
    hide Pow128;
    EncodedIsShort(v, 10);
  }

  /** No varint of the value is shorter. */
  lemma EncodedIsShortest(v: nat, s: seq<byte>)
    requires IsVarint(s) && Base128(s) == v
    ensures |Encoded(v)| <= |s|
  {
    Base128IsBounded(s);
    EncodedIsShort(v, |s|);
  }

  lemma ContinuedAt(d: seq<byte>, i: nat, s: seq<byte>)
    requires IsVarint(s) && i + |s| <= |d| && forall k :: 0 <= k < |s| ==> d[i + k] == s[k]
    ensures Continued(d, i, MAX_BYTES) == |s| - 1
  {
    forall k | i <= k < i + |s| - 1 ensures d[k] >= 128 {
      assert d[k] == s[k - i];
    }
    ContinuedIs(d, i, MAX_BYTES, |s| - 1);
  }

  /** Writes v so that it ends at offset; nothing else changes. The buffer must have the room. */
  method EncodeVarint(a: array<byte>, offset: nat, v: uint64) returns (base: nat)
    requires Sov(v) <= offset <= a.Length
    modifies a
    ensures base == offset - Sov(v)
    ensures a[base..offset] == Encoded(v)
    ensures a[..base] == old(a[..base]) && a[offset..] == old(a[offset..])
  {
    SovIsLength(v);
    hide BitOr, Len64, Sov;
    var at := offset - Sov(v);
    base := at;
    var rest := v;
    while rest >= 0x80
      invariant base <= at < offset
      invariant |Encoded(rest)| == offset - at
      invariant a[base..at] + Encoded(rest) == Encoded(v)
      invariant a[..base] == old(a[..base]) && a[offset..] == old(a[offset..])
      decreases rest
    {
      ghost var done := a[base..at];
      assert done + Encoded(rest) == done + [rest % 128 + 128] + Encoded(rest / 128);
      a[at] := rest % 128 + 128;
      assert a[base..at + 1] == done + [rest % 128 + 128];
      rest := rest / 128;
      at := at + 1;
    }
    a[at] := rest;
    assert a[base..offset] == a[base..at] + [rest];
  }
}
