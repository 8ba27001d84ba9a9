/** The latency histogram and its place in the final report (runner/reporter.go). */
module Histograms {
  import opened GoNumbers
  import opened Percentiles

  datatype TailLabel = Plain | P99 | P99_9
  datatype Bucket = Bucket(mark: real, count: int, frequency: real, tail: TailLabel)

  const BUCKETS: nat := 10

  function SumOf(s: seq<int>): int {
    if s == [] then 0 else SumOf(s[..|s| - 1]) + s[|s| - 1]
  }

  lemma {:induction false} SumAfterBump(s: seq<int>, k: nat)
    requires k < |s|
    ensures SumOf(s[k := s[k] + 1]) == SumOf(s) + 1
  {
    var t, n := s[k := s[k] + 1], |s| - 1;
    if k == n {
      assert t[..n] == s[..n];
    } else {
      assert t[..n] == s[..n][k := s[..n][k] + 1];
      SumAfterBump(s[..n], k);
    }
  }

  // ---------- the marks ----------

  function MarkAt(fastest: real, last: real, b: nat): real {
    if b == BUCKETS - 1 then last else fastest + (last - fastest) / BUCKETS as real * b as real
  }

  method Marks(fastest: real, last: real) returns (marks: seq<real>)
    ensures |marks| == BUCKETS && forall b :: 0 <= b < BUCKETS ==> marks[b] == MarkAt(fastest, last, b)
  {
    marks := seq(BUCKETS, _ => 0.0);
    var bs := (last - fastest) / BUCKETS as real;
    var i := 0;
    while i < BUCKETS
      invariant 0 <= i <= BUCKETS && |marks| == BUCKETS
      invariant forall b :: 0 <= b < i ==> marks[b] == fastest + bs * b as real
    {
      marks := marks[i := fastest + bs * i as real];
      i := i + 1;
    }
    marks := marks[BUCKETS - 1 := last];
  }

  lemma MarksAscend(fastest: real, last: real, marks: seq<real>)
    requires fastest <= last
    requires |marks| == BUCKETS && forall b :: 0 <= b < BUCKETS ==> marks[b] == MarkAt(fastest, last, b)
    ensures Sorted(marks) && marks[0] == fastest && marks[BUCKETS - 1] == last
  {
    var bs := (last - fastest) / 10.0;
    forall i, j | 0 <= i < j < BUCKETS ensures marks[i] <= marks[j] {
      ProductIsMonotoneReal(i as real, j as real, bs);
      if j == BUCKETS - 1 {
        ProductIsMonotoneReal(i as real, 10.0, bs);
      }
    }
  }

  /** All but the last step between marks are a tenth of the range, and the last one is two. */
  lemma MarksAreEven(fastest: real, last: real, b: nat)
    requires b < 9
    ensures MarkAt(fastest, last, 0) == fastest && MarkAt(fastest, last, 9) == last
    ensures MarkAt(fastest, last, b + 1) - MarkAt(fastest, last, b) == (last - fastest) / 10.0 * if b == 8 then 2.0 else 1.0
  {
  }

  lemma LastMarkIsLast(fastest: real, last: real)
    ensures MarkAt(fastest, last, BUCKETS - 1) == last
  {
  }

  // ---------- filling the buckets ----------

  /** The samples no larger than any mark before bucket b. */
  function UpTo(s: seq<real>, marks: seq<real>, b: nat): nat
    requires b <= |marks|
  {
    if b == 0 then 0 else CountAtMost(s, marks[b - 1])
  }

  /** The samples in (previous mark, mark]; the second-to-last bucket also takes those above the last mark. */
  function Share(s: seq<real>, marks: seq<real>, b: nat): int
    requires |marks| == BUCKETS && b < BUCKETS
  {
    UpTo(s, marks, b + 1) - UpTo(s, marks, b) + if b == BUCKETS - 2 then Above(s, marks) else 0
  }

  function Above(s: seq<real>, marks: seq<real>): int
    requires |marks| == BUCKETS
  {
    |s| - UpTo(s, marks, BUCKETS)
  }

  /** Sample number i belongs to bucket b: it lies above the mark before and not above the mark of the bucket,
      or it lies above all marks and the bucket is the second-to-last. */
  predicate InBucket(s: seq<real>, marks: seq<real>, b: nat, i: nat)
    requires |marks| == BUCKETS && b < BUCKETS && i < |s|
  {
    || (s[i] <= marks[b] && (b > 0 ==> s[i] > marks[b - 1]))
    || (s[i] > marks[9] && b == 8)
  }

  function BucketOf(s: seq<real>, marks: seq<real>, b: nat): set<nat>
    requires |marks| == BUCKETS && b < BUCKETS
  {
    set i: nat | i < |s| && InBucket(s, marks, b, i)
  }

  /** The share of a bucket counts the samples that belong to it. */
  lemma {:induction false} ShareIsCount(s: seq<real>, marks: seq<real>, b: nat)
    requires |marks| == BUCKETS && Sorted(marks) && b < BUCKETS
    ensures Share(s, marks, b) == |BucketOf(s, marks, b)|
  {
    if s == [] {
    } else {
      var n := |s| - 1;
      ShareIsCount(s[..n], marks, b);
      OneMoreInBucket(s, marks, b);
      OneMoreInShare(s, marks, b);
      hide Share, BucketOf, InBucket;
    }
  }

  lemma OneMoreInBucket(s: seq<real>, marks: seq<real>, b: nat)
    requires |marks| == BUCKETS && b < BUCKETS && s != []
    ensures |BucketOf(s, marks, b)| == |BucketOf(s[..|s| - 1], marks, b)| + if InBucket(s, marks, b, |s| - 1) then 1 else 0
  {
    var n := |s| - 1;
    forall i: nat | i < n
      ensures InBucket(s, marks, b, i) <==> InBucket(s[..n], marks, b, i)
    {
      assert s[..n][i] == s[i];
    }
    assert BucketOf(s, marks, b) == BucketOf(s[..n], marks, b) + if InBucket(s, marks, b, n) then {n} else {};
  }

  lemma OneMoreInShare(s: seq<real>, marks: seq<real>, b: nat)
    requires |marks| == BUCKETS && Sorted(marks) && b < BUCKETS && s != []
    ensures Share(s, marks, b) == Share(s[..|s| - 1], marks, b) + if InBucket(s, marks, b, |s| - 1) then 1 else 0
  {
    var n := |s| - 1;
    assert s[..n + 1] == s;
    UpToGrows(s, n, marks, b);
    UpToGrows(s, n, marks, b + 1);
    UpToGrows(s, n, marks, BUCKETS);
    hide UpTo;
  }

  /** Where a sample belongs: cursor is the first bucket whose mark is not below it. */
  lemma ShareGrows(s: seq<real>, i: nat, marks: seq<real>, cursor: nat, b: nat)
    requires i < |s| && |marks| == BUCKETS && Sorted(marks) && cursor < BUCKETS && b < BUCKETS
    requires cursor > 0 ==> s[i] > marks[cursor - 1]
    requires s[i] <= marks[cursor]
    ensures Share(s[..i + 1], marks, b) == Share(s[..i], marks, b) + if b == cursor then 1 else 0
  {
    hide UpTo;
    UpToGrows(s, i, marks, b);
    UpToGrows(s, i, marks, b + 1);
    UpToGrows(s, i, marks, BUCKETS);
  }

  lemma OverflowGrows(s: seq<real>, i: nat, marks: seq<real>, b: nat)
    requires i < |s| && |marks| == BUCKETS && Sorted(marks) && b < BUCKETS
    requires s[i] > marks[BUCKETS - 1]
    ensures Share(s[..i + 1], marks, b) == Share(s[..i], marks, b) + if b == BUCKETS - 2 then 1 else 0
  {
    hide UpTo;
    UpToGrows(s, i, marks, b);
    UpToGrows(s, i, marks, b + 1);
    UpToGrows(s, i, marks, BUCKETS);
  }

  lemma UpToGrows(s: seq<real>, i: nat, marks: seq<real>, b: nat)
    requires i < |s| && b <= |marks|
    ensures UpTo(s[..i + 1], marks, b) == UpTo(s[..i], marks, b) + if b > 0 && s[i] <= marks[b - 1] then 1 else 0
  {
    assert s[..i + 1][..i] == s[..i];
  }

  /** What the loop keeps when samples and marks are sorted: the first i samples are in their buckets,
      and the next one is beyond every mark already passed. */
  ghost predicate Placed(s: seq<real>, marks: seq<real>, counts: seq<int>, i: nat, bi: nat)
    requires |marks| == BUCKETS == |counts|
  {
    && i <= |s| && bi < BUCKETS
    && (forall b :: 0 <= b < BUCKETS ==> counts[b] == Share(s[..i], marks, b))
    && (bi > 0 && i < |s| ==> s[i] > marks[bi - 1])
  }

  lemma PlacedAfterCount(s: seq<real>, marks: seq<real>, counts: seq<int>, i: nat, bi: nat)
    requires |marks| == BUCKETS == |counts| && Sorted(s) && Sorted(marks)
    requires i < |s| && Placed(s, marks, counts, i, bi) && s[i] <= marks[bi]
    ensures Placed(s, marks, counts[bi := counts[bi] + 1], i + 1, bi)
  {
    hide Share;
    var bumped := counts[bi := counts[bi] + 1];
    forall b | 0 <= b < BUCKETS ensures bumped[b] == Share(s[..i + 1], marks, b)
    {
      ShareGrows(s, i, marks, bi, b);
    }
  }

  lemma PlacedAfterOverflow(s: seq<real>, marks: seq<real>, counts: seq<int>, i: nat)
    requires |marks| == BUCKETS == |counts| && Sorted(s) && Sorted(marks)
    requires i < |s| && Placed(s, marks, counts, i, BUCKETS - 1) && s[i] > marks[BUCKETS - 1]
    ensures Placed(s, marks, counts[BUCKETS - 2 := counts[BUCKETS - 2] + 1], i + 1, BUCKETS - 1)
  {
    hide Share;
    var bumped := counts[BUCKETS - 2 := counts[BUCKETS - 2] + 1];
    forall b | 0 <= b < BUCKETS ensures bumped[b] == Share(s[..i + 1], marks, b)
    {
      OverflowGrows(s, i, marks, b);
    }
  }

  lemma PlacedAtStart(s: seq<real>, marks: seq<real>, counts: seq<int>)
    requires |marks| == BUCKETS == |counts| && forall b :: 0 <= b < BUCKETS ==> counts[b] == 0
    ensures Placed(s, marks, counts, 0, 0) && SumOf(counts) == 0
  {
    SumOfZeros(counts);
  }

  lemma {:induction false} SumOfZeros(s: seq<int>)
    requires forall b :: 0 <= b < |s| ==> s[b] == 0
    ensures SumOf(s) == 0
  {
    if s == [] {
    } else {
      SumOfZeros(s[..|s| - 1]);
    }
  }

  lemma PlacedAtEnd(s: seq<real>, marks: seq<real>, counts: seq<int>, bi: nat)
    requires |marks| == BUCKETS == |counts| && Placed(s, marks, counts, |s|, bi)
    ensures forall b :: 0 <= b < BUCKETS ==> counts[b] == Share(s, marks, b)
  {
    hide Share;
    assert s[..|s|] == s;
  }

  lemma PlacedAfterPass(s: seq<real>, marks: seq<real>, counts: seq<int>, i: nat, bi: nat)
    requires |marks| == BUCKETS == |counts| && bi < BUCKETS - 1
    requires i < |s| && Placed(s, marks, counts, i, bi) && s[i] > marks[bi]
    ensures Placed(s, marks, counts, i, bi + 1)
  {
    hide Share;
  }

  /** Two cursors, one over the samples and one over the buckets. */
  method FillBuckets(latencies: seq<real>, marks: seq<real>) returns (counts: seq<int>)
    requires |marks| == BUCKETS
    ensures |counts| == BUCKETS && SumOf(counts) == |latencies|
    ensures forall b :: 0 <= b < BUCKETS ==> counts[b] >= 0
    ensures Sorted(latencies) && Sorted(marks) ==>
              forall b :: 0 <= b < BUCKETS ==> counts[b] == Share(latencies, marks, b)
  {
    var n := |latencies|;
    counts := seq(BUCKETS, _ => 0);
    PlacedAtStart(latencies, marks, counts);
    var i, bi := 0, 0;
    ghost var sorted := Sorted(latencies) && Sorted(marks);
    hide SumOf, Share, Placed;
    while i < n
      invariant 0 <= i <= n && 0 <= bi < BUCKETS && |counts| == BUCKETS
      invariant SumOf(counts) == i
      invariant forall b :: 0 <= b < BUCKETS ==> counts[b] >= 0
      invariant sorted ==> Placed(latencies, marks, counts, i, bi)
      decreases n - i, BUCKETS - bi
    {
      if latencies[i] <= marks[bi] {
        SumAfterBump(counts, bi);
        if sorted { PlacedAfterCount(latencies, marks, counts, i, bi); }
        i := i + 1;
        counts := counts[bi := counts[bi] + 1];
      } else if bi < BUCKETS - 1 {
        if sorted { PlacedAfterPass(latencies, marks, counts, i, bi); }
        bi := bi + 1;
      } else {
        SumAfterBump(counts, bi - 1);
        if sorted { PlacedAfterOverflow(latencies, marks, counts, i); }
        i := i + 1;
        counts := counts[bi - 1 := counts[bi - 1] + 1];
      }
    }
    if sorted { PlacedAtEnd(latencies, marks, counts, bi); }
  }

  // ---------- the histogram ----------

  const CLEAN_TAIL: nat := 100

  /** The largest mark: the tail percentile once there are enough samples, else the slowest one. */
  function LastMark(n: nat, slowest: real, tail: real): real {
    if n >= CLEAN_TAIL then tail else slowest
  }

  function TailLabelOf(n: nat, pct: real, b: nat): TailLabel {
    if n < CLEAN_TAIL || b != BUCKETS - 1 then Plain
    else if pct == 99.9 then P99_9 else P99
  }

  function CountsOf(h: seq<Bucket>): (c: seq<int>)
    ensures |c| == |h| && forall b :: 0 <= b < |h| ==> c[b] == h[b].count
  {
    seq(|h|, b requires 0 <= b < |h| => h[b].count)
  }

  function MarksOf(h: seq<Bucket>): (m: seq<real>)
    ensures |m| == |h| && forall b :: 0 <= b < |h| ==> m[b] == h[b].mark
  {
    seq(|h|, b requires 0 <= b < |h| => h[b].mark)
  }

  function Frequency(count: int, n: nat): real {
    if n == 0 then 0.0 else count as real / n as real
  }

  lemma FrequenciesAreShares(h: seq<Bucket>, n: nat)
    requires forall b :: 0 <= b < |h| ==> h[b].frequency == Frequency(h[b].count, n)
    ensures n > 0 ==> forall b :: 0 <= b < |h| ==> h[b].frequency * n as real == h[b].count as real
  {
    if n > 0 {
      forall b | 0 <= b < |h| ensures h[b].frequency * n as real == h[b].count as real {
        QuotientTimes(h[b].count as real, n as real);
      }
    }
  }

  lemma QuotientTimes(x: real, y: real)
    requires y != 0.0
    ensures x / y * y == x
  {
  }

  /** With no samples the code's frequencies are 0/0; they are left at 0 here. */
  method Histogram(latencies: seq<real>, slowest: real, fastest: real, tail: real, pct: real) returns (h: seq<Bucket>)
    ensures |h| == BUCKETS == 10 && SumOf(CountsOf(h)) == |latencies|
    ensures forall b :: 0 <= b < BUCKETS ==> h[b].mark == MarkAt(fastest, LastMark(|latencies|, slowest, tail), b)
    ensures h[9].mark == if |latencies| >= 100 then tail else slowest
    ensures forall b :: 0 <= b < BUCKETS ==> h[b].tail == TailLabelOf(|latencies|, pct, b)
    ensures forall b :: 0 <= b < BUCKETS ==> (h[b].tail != Plain <==> |latencies| >= 100 && b == 9)
    ensures |latencies| >= 100 ==> (h[9].tail == P99_9 <==> pct == 99.9)
    ensures |latencies| > 0 ==> forall b :: 0 <= b < BUCKETS ==> h[b].frequency * |latencies| as real == h[b].count as real
    ensures Sorted(latencies) && fastest <= LastMark(|latencies|, slowest, tail) ==>
              Sorted(MarksOf(h)) && forall b :: 0 <= b < BUCKETS ==> h[b].count == Share(latencies, MarksOf(h), b)
  {
    hide SumOf, Share, MarkAt, Sorted;
    var n := |latencies|;
    var last := LastMark(n, slowest, tail);
    var marks := Marks(fastest, last);
    LastMarkIsLast(fastest, last);
    if fastest <= last { MarksAscend(fastest, last, marks); }
    var counts := FillBuckets(latencies, marks);
    h := seq(BUCKETS, _ => Bucket(0.0, 0, 0.0, Plain));
    var i := 0;
    while i < BUCKETS
      invariant 0 <= i <= BUCKETS && |h| == BUCKETS
      invariant forall b :: 0 <= b < i ==> h[b] == Bucket(marks[b], counts[b], Frequency(counts[b], n), Plain)
    {
      h := h[i := Bucket(marks[i], counts[i], Frequency(counts[i], n), Plain)];
      i := i + 1;
    }
    if n >= CLEAN_TAIL {
      h := h[BUCKETS - 1 := h[BUCKETS - 1].(tail := if pct == 99.9 then P99_9 else P99)];
    }
    assert CountsOf(h) == counts;
    assert MarksOf(h) == marks;
    hide CountsOf, MarksOf;
    FrequenciesAreShares(h, n);
    hide Frequency;
  }
}
