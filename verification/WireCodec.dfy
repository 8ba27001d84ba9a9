/** Printing and parsing of the sleep request (internal/sleep/service.pb.go; Protocol Buffers
    Encoding, "Message Structure"). */
module WireCodec {
  import opened GoNumbers
  import opened Varints

  datatype Error =
    | None | IntOverflow | UnexpectedEof | InvalidLength | IllegalWireType | EndGroup | IllegalTag | WrongWireType

  function ErrorOf(r: Read): Error {
    match r
    case Overflow => IntOverflow
    case Eof => UnexpectedEof
    case Got(_, _) => None
  }

  /** Byte slices are assumed to be at least eight bytes shorter than the largest int. */
  ghost predicate IsSlice(d: seq<byte>) {
    |d| <= MAX_INT64 - 8
  }

  // ---------- skipping a field ----------

  datatype Skip = Skipped(n: int64) | Failed(error: Error) | Panic

  /** How far a field at the front of d reaches; the reach of fixed-size and length-delimited fields
      is not checked against the end. It always ends and gets past at least the tag; only nothing at
      all makes the code panic. */
  function SkipField(d: seq<byte>): (r: Skip)
    requires IsSlice(d)
    ensures r.Skipped? ==> r.n >= 1
    ensures r.Failed? ==> r.error != None
    ensures r.Panic? <==> d == []
    decreases |d|, |d| + 1
  {
    if d == [] then Panic
    else
      var tag := ReadAt(d, 0);
      if !tag.Got? then Failed(ErrorOf(tag))
      else
        match tag.value % 8
        case 0 =>
          var v := ReadAt(d, tag.next);
          if v.Got? then Skipped(v.next) else Failed(ErrorOf(v))
        case 1 => Skipped(AddInt64(tag.next, 8))
        case 2 => SkipDelimited(ReadAt(d, tag.next))
        case 3 => SkipGroup(d, tag.next)
        case 4 => Skipped(tag.next)
        case 5 => Skipped(AddInt64(tag.next, 4))
        case _ => Failed(IllegalWireType)
  }

  function SkipDelimited(len: Read): (r: Skip)
    requires len.Got? ==> 1 <= len.next <= MAX_INT64
    ensures r.Skipped? ==> r.n >= 1
    ensures r.Failed? ==> r.error != None
    ensures !r.Panic?
  {
    if !len.Got? then Failed(ErrorOf(len))
    else if ToInt64(len.value) < 0 || AddInt64(len.next, ToInt64(len.value)) < 0 then Failed(InvalidLength)
    else Skipped(AddInt64(len.next, ToInt64(len.value)))
  }

  /** The fields of a group from i on, up to and with the end tag. */
  function SkipGroup(d: seq<byte>, i: nat): (r: Skip)
    requires IsSlice(d) && 1 <= i <= MAX_INT64
    ensures r.Skipped? ==> r.n > i
    ensures r.Failed? ==> r.error != None
    ensures !r.Panic?
    decreases |d|, if i < |d| then |d| - i else 0
  {
    var tag := ReadAt(d, i);
    if !tag.Got? then Failed(ErrorOf(tag))
    else if tag.value % 8 == 4 then Skipped(tag.next)
    else
      var inner := SkipField(d[i..]);
      if !inner.Skipped? then inner
      else
        var next := AddInt64(i, inner.n);
        if next < 0 then Failed(InvalidLength) else SkipGroup(d, next)
  }

  /** The outer loop of the code never comes round, since every case returns. */
  method SkipService(d: seq<byte>) returns (r: Skip)
    requires IsSlice(d)
    ensures r == SkipField(d)
    decreases |d|
  {
    hide ReadAt, AddInt64, ToInt64;
    if |d| == 0 {
      return Panic;
    }
    var tag := ReadVarint(d, 0);
    if !tag.Got? {
      return Failed(ErrorOf(tag));
    }
    var iNdEx := tag.next;
    match tag.value % 8
    case 0 =>
      var v := ReadVarint(d, iNdEx);
      return if v.Got? then Skipped(v.next) else Failed(ErrorOf(v));
    case 1 => return Skipped(AddInt64(iNdEx, 8));
    case 2 =>
      var len := ReadVarint(d, iNdEx);
      if !len.Got? {
        return Failed(ErrorOf(len));
      }
      var length := ToInt64(len.value);
      if length < 0 {
        return Failed(InvalidLength);
      }
      var reach := AddInt64(len.next, length);
      if reach < 0 {
        return Failed(InvalidLength);
      }
      return Skipped(reach);
    case 3 =>
      r := SkipGroupLoop(d, iNdEx);
    case 4 => return Skipped(iNdEx);
    case 5 => return Skipped(AddInt64(iNdEx, 4));
    case _ => return Failed(IllegalWireType);
  }

  /** The loop of the group case. */
  method SkipGroupLoop(d: seq<byte>, from: nat) returns (r: Skip)
    requires IsSlice(d) && 1 <= from <= |d|
    ensures r == SkipGroup(d, from)
    decreases |d|, 0
  {
    hide ReadAt, ToInt64, SkipField;
    var iNdEx := from;
    while true
      invariant 1 <= iNdEx <= MAX_INT64
      invariant SkipGroup(d, iNdEx) == SkipGroup(d, from)
      decreases if iNdEx < |d| then |d| - iNdEx else 0
    {
      var start := iNdEx;
      var tag := ReadVarint(d, iNdEx);
      if !tag.Got? {
        return Failed(ErrorOf(tag));
      }
      if tag.value % 8 == 4 {
        return Skipped(tag.next);
      }
      var next := SkipService(d[start..]);
      if !next.Skipped? {
        return next;
      }
      var sum := AddInt64(start, next.n);
      if sum < 0 {
        return Failed(InvalidLength);
      }
      iNdEx := sum;
    }
  }

  // ---------- the message ----------

  /** The bytes of a message: nothing for a zero, else the tag of field 1 and the value as a varint. */
  function Wire(ms: int64): seq<byte> {
    if ms == 0 then [] else [8] + Encoded(ToUint64(ms))
  }

  /** Reading a varint into a signed field: after an error the field keeps what was read so far. */
  function ValueAt(d: seq<byte>, i: nat): (Error, int64) {
    var r := ReadAt(d, i);
    var c := Continued(d, i, MAX_BYTES);
    if r.Got? then (None, ToInt64(r.value))
    else (ErrorOf(r), if i > |d| then 0 else ToInt64(Base128(d[i..i + c])))
  }

  /** Parsing from position i on with the value ms so far: the error and the value in the end. */
  function Parse(d: seq<byte>, i: nat, ms: int64): (r: (Error, int64))
    requires IsSlice(d)
    decreases |d| - i
  {
    if i >= |d| then (None, ms)
    else
      var tag := ReadAt(d, i);
      if !tag.Got? then (ErrorOf(tag), ms)
      else if tag.value % 8 == 4 then (EndGroup, ms)
      else if ToInt32(tag.value / 8) <= 0 then (IllegalTag, ms)
      else if ToInt32(tag.value / 8) == 1 then
        if tag.value % 8 != 0 then (WrongWireType, ms)
        else
          var v := ValueAt(d, tag.next);
          if v.0 != None then v else Parse(d, ReadAt(d, tag.next).next, v.1)
      else
        match SkipField(d[i..])
        case Failed(e) => (e, ms)
        case Skipped(n) =>
          var next := AddInt64(i, n);
          if next < 0 then (InvalidLength, ms)
          else if next > |d| then (UnexpectedEof, ms)
          else Parse(d, next, ms)
  }

  class SleepRequest {
    var milliseconds: int64

    constructor ()
      ensures milliseconds == 0
    {
      milliseconds := 0;
    }

    method Size() returns (n: nat)
      ensures n == |Wire(milliseconds)|
    {
      SovIsLength(ToUint64(milliseconds));
      hide Sov, Encoded;
      n := 0;
      if milliseconds != 0 {
        n := n + 1 + Sov(ToUint64(milliseconds));
      }
    }

    /** Fills the end of the first `len` bytes. */
    method MarshalToSizedBuffer(a: array<byte>, len: nat) returns (n: nat)
      requires |Wire(milliseconds)| <= len <= a.Length
      modifies a
      ensures n == |Wire(milliseconds)| && a[len - n..len] == Wire(milliseconds)
      ensures a[..len - n] == old(a[..len - n]) && a[len..] == old(a[len..])
    {
      SovIsLength(ToUint64(milliseconds));
      hide Sov, Encoded;
      var i := len;
      if milliseconds != 0 {
        i := EncodeVarint(a, i, ToUint64(milliseconds));
        ghost var tail := a[i..len];
        i := i - 1;
        a[i] := 0x8;
        assert a[i..len] == [8] + tail;
        assert a[..i] == old(a[..i]);
      }
      n := len - i;
    }

    method MarshalTo(a: array<byte>) returns (n: nat)
      requires |Wire(milliseconds)| <= a.Length
      modifies a
      ensures n == |Wire(milliseconds)| && a[..n] == Wire(milliseconds) && a[n..] == old(a[n..])
    {
      hide Wire;
      var size := Size();
      n := MarshalToSizedBuffer(a, size);
      assert a[..n] == a[size - n..size];
    }

    method Marshal() returns (a: array<byte>)
      ensures fresh(a) && a[..] == Wire(milliseconds)
    {
      hide Wire;
      var size := Size();
      a := new byte[size](_ => 0);
      var n := MarshalToSizedBuffer(a, size);
      assert a[..] == a[size - n..size];
    }

    /** The value loop of field 1. */
    method ReadMilliseconds(d: seq<byte>, i: nat) returns (r: Read)
      requires i <= |d|
      modifies this
      ensures r == ReadAt(d, i)
      ensures (ErrorOf(r), milliseconds) == ValueAt(d, i)
    {
      milliseconds := 0;
      var shift, j := 0, i;
      ReadStarts(d, i);
      SignedStart();
      hide BitOr, Pow2, Base128, Continued, ReadAt, Reading, ToInt64, ToUint64, ValueAt;
      while true
        invariant i <= j <= |d| && j - i <= MAX_BYTES && shift == 7 * (j - i)
        invariant Reading(d, i, j, ToUint64(milliseconds))
        decreases 70 - shift
      {
        if shift >= 64 {
          ReadOverflows(d, i, j, ToUint64(milliseconds));
          PartialValue(d, i, j, milliseconds);
          return Overflow;
        }
        if j >= |d| {
          ReadRunsOut(d, i, j, ToUint64(milliseconds));
          PartialValue(d, i, j, milliseconds);
          return Eof;
        }
        var b := d[j];
        ReadTakes(d, i, j, ToUint64(milliseconds));
        j := j + 1;
        var bits := BitOr(ToUint64(milliseconds), b % 128 * Pow2(shift) % TWO_TO_64);
        milliseconds := ToInt64(bits);
        if b < 0x80 {
          WholeValue(d, i, bits);
          return Got(bits, j);
        }
        BitsKept(d, i, j, bits);
        shift := shift + 7;
      }
    }

    method Unmarshal(d: seq<byte>) returns (err: Error)
      requires IsSlice(d)
      modifies this
      ensures (err, milliseconds) == Parse(d, 0, old(milliseconds))
    {
      hide ReadAt, ToInt64, ToInt32, SkipField, ValueAt;
      var iNdEx := 0;
      while iNdEx < |d|
        invariant 0 <= iNdEx <= |d|
        invariant Parse(d, iNdEx, milliseconds) == Parse(d, 0, old(milliseconds))
      {
        var tag := ReadVarint(d, iNdEx);
        if !tag.Got? {
          return ErrorOf(tag);
        }
        var fieldNum, wireType := ToInt32(tag.value / 8), tag.value % 8;
        if wireType == 4 {
          return EndGroup;
        }
        if fieldNum <= 0 {
          return IllegalTag;
        }
        if fieldNum == 1 {
          if wireType != 0 {
            return WrongWireType;
          }
          var v := ReadMilliseconds(d, tag.next);
          if !v.Got? {
            return ErrorOf(v);
          }
          iNdEx := v.next;
        } else {
          var skippy := SkipService(d[iNdEx..]);
          match skippy {
            case Failed(e) => return e;
            case Skipped(n) =>
              var next := AddInt64(iNdEx, n);
              if next < 0 {
                return InvalidLength;
              }
              if next > |d| {
                return UnexpectedEof;
              }
              iNdEx := next;
          }
        }
      }
      return None;
    }
  }

  lemma SignedStart()
    ensures ToUint64(0) == 0
  {
  }

  lemma PartialValue(d: seq<byte>, i: nat, j: nat, ms: int64)
    requires i <= j <= |d| && j - i <= MAX_BYTES && Reading(d, i, j, ToUint64(ms))
    requires j - i == MAX_BYTES || j == |d|
    ensures ValueAt(d, i) == (ErrorOf(ReadAt(d, i)), ms) && !ReadAt(d, i).Got?
  {
    ContinuedIs(d, i, MAX_BYTES, j - i);
    SignedRoundTrip(ms);
    UnsignedRoundTrip(Base128(d[i..j]));
    hide ToInt64, ToUint64, Base128;
  }

  lemma WholeValue(d: seq<byte>, i: nat, bits: nat)
    requires ReadAt(d, i).Got? && ReadAt(d, i).value == bits
    ensures ValueAt(d, i) == (None, ToInt64(bits))
  {
  }

  lemma BitsKept(d: seq<byte>, i: nat, j: nat, bits: nat)
    requires Reading(d, i, j, bits) && j <= |d|
    ensures ToUint64(ToInt64(bits)) == bits
  {
    hide ToInt64, Base128;
    UnsignedRoundTrip(bits);
    SmallRemainder(bits);
  }
}
