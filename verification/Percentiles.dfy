/** Nearest-rank percentiles of sorted latencies (runner/reporter.go). */
module Percentiles {
  import opened GoNumbers

  datatype LatencyDistribution = LatencyDistribution(percentage: real, latency: int)

  function Wanted(includeP99_9: bool): seq<real> {
    [10.0, 25.0, 50.0, 75.0, 90.0, 95.0, 99.0] + if includeP99_9 then [99.9] else []
  }

  /** The zero-based rank taken at the (possibly fractional) position ip. */
  function RankOf(ip: real): int {
    var di := Trunc(ip);
    Max(0, if ip == di as real then di - 1 else di)
  }

  /** Where percentile p falls among n samples. */
  function Position(p: real, n: nat): real {
    p / 100.0 * n as real
  }

  /** The index the code reads for percentile p of n samples. */
  function RankIndex(p: real, n: nat): int {
    RankOf(Position(p, n))
  }

  /** What is reported for percentile p; a value that is not positive leaves the entry blank. */
  function Entry(latencies: seq<real>, p: real): LatencyDistribution
    requires 0 <= RankIndex(p, |latencies|) < |latencies|
  {
    var v := latencies[RankIndex(p, |latencies|)];
    if v > 0.0 then LatencyDistribution(p, Trunc(v * NANO as real)) else LatencyDistribution(0.0, 0)
  }

  /** The sample picked for each wanted percentile. */
  method Picked(latencies: seq<real>, pctls: seq<real>) returns (data: seq<real>)
    requires |latencies| > 0
    requires forall i :: 0 <= i < |pctls| ==> 0.0 < pctls[i] <= 100.0
    ensures |data| == |pctls|
    ensures forall i :: 0 <= i < |pctls| ==> 0 <= RankIndex(pctls[i], |latencies|) < |latencies|
    ensures forall i :: 0 <= i < |pctls| ==> data[i] == latencies[RankIndex(pctls[i], |latencies|)]
  {
    hide Trunc, RankOf, Max, Ceiling;
    data := seq(|pctls|, _ => 0.0);
    var lt := |latencies| as real;
    var i := 0;
    while i < |pctls|
      invariant 0 <= i <= |pctls| && |data| == |pctls|
      invariant forall j :: 0 <= j < i ==> 0 <= RankIndex(pctls[j], |latencies|) < |latencies|
      invariant forall j :: 0 <= j < i ==> data[j] == latencies[RankIndex(pctls[j], |latencies|)]
    {
      var ip := pctls[i] / 100.0 * lt;
      var di := Trunc(ip);
      if ip == di as real {
        di := di - 1;
      }
      if di < 0 {
        di := 0;
      }
      assert ip == Position(pctls[i], |latencies|);
      RankOfIs(ip, di);
      assert RankIndex(pctls[i], |latencies|) == di;
      RankIsCeiling(pctls[i], |latencies|);
      data := data[i := latencies[di]];
      i := i + 1;
    }
  }

  method Latencies(latencies: seq<real>, includeP99_9: bool) returns (res: seq<LatencyDistribution>)
    requires |latencies| > 0
    ensures Wanted(includeP99_9) == [10.0, 25.0, 50.0, 75.0, 90.0, 95.0, 99.0] + if includeP99_9 then [99.9] else []
    ensures |res| == |Wanted(includeP99_9)|
    ensures forall i :: 0 <= i < |res| ==> 0 <= RankIndex(Wanted(includeP99_9)[i], |latencies|) < |latencies|
    ensures forall i :: 0 <= i < |res| ==> res[i] == Entry(latencies, Wanted(includeP99_9)[i])
  {
    hide RankIndex, Trunc;
    var pctls := [10.0, 25.0, 50.0, 75.0, 90.0, 95.0, 99.0];
    if includeP99_9 {
      pctls := pctls + [99.9];
    }
    assert pctls == Wanted(includeP99_9);
    var data := Picked(latencies, pctls);
    res := seq(|pctls|, _ => LatencyDistribution(0.0, 0));
    var i := 0;
    while i < |pctls|
      invariant 0 <= i <= |pctls| && |res| == |pctls|
      invariant forall j :: 0 <= j < i ==> res[j] == Entry(latencies, pctls[j])
      invariant forall j :: i <= j < |res| ==> res[j] == LatencyDistribution(0.0, 0)
    {
      if data[i] > 0.0 {
        var lat := Trunc(data[i] * NANO as real);
        res := res[i := LatencyDistribution(pctls[i], lat)];
      }
      i := i + 1;
    }
  }

  lemma RankOfIs(ip: real, di: int)
    requires di == var d := Trunc(ip);
                   var e := if ip == d as real then d - 1 else d;
                   if e < 0 then 0 else e
    ensures RankOf(ip) == di
  {
    hide Trunc;
  }

  function Ceiling(x: real): int {
    -(-x).Floor
  }

  lemma RankOfIsCeiling(ip: real)
    requires ip > 0.0
    ensures RankOf(ip) == Ceiling(ip) - 1 >= 0 && RankOf(ip) as real < ip <= RankOf(ip) as real + 1.0
  {
  }

  lemma PositionInRange(p: real, n: nat)
    requires 0.0 < p <= 100.0 && n >= 1
    ensures Position(p, n) == p * n as real / 100.0
    ensures 0.0 < Position(p, n) <= n as real
  {
    var f := p / 100.0;
    assert 0.0 < f <= 1.0;
    ProductIsMonotoneReal(f, 1.0, n as real);
    assert f * n as real > 0.0;
  }

  /** The index is in bounds and is the nearest rank, counted from zero. */
  lemma RankIsCeiling(p: real, n: nat)
    requires 0.0 < p <= 100.0 && n >= 1
    ensures 0 <= RankIndex(p, n) < n
    ensures RankIndex(p, n) == Ceiling(Position(p, n)) - 1
    ensures RankIndex(p, n) as real < Position(p, n) <= RankIndex(p, n) as real + 1.0
  {
    hide RankOf, Ceiling, Position;
    PositionInRange(p, n);
    RankOfIsCeiling(Position(p, n));
  }

  // ---------- counting samples ----------

  ghost predicate Sorted(s: seq<real>) {
    forall i, j :: 0 <= i < j < |s| ==> s[i] <= s[j]
  }

  function CountAtMost(s: seq<real>, v: real): nat {
    if s == [] then 0
    else CountAtMost(s[..|s| - 1], v) + if s[|s| - 1] <= v then 1 else 0
  }

  function CountBelow(s: seq<real>, v: real): nat {
    if s == [] then 0
    else CountBelow(s[..|s| - 1], v) + if s[|s| - 1] < v then 1 else 0
  }

  /** In a sorted sequence the samples at most v come first. */
  lemma {:induction false} AtMostComeFirst(s: seq<real>, v: real)
    requires Sorted(s)
    ensures CountAtMost(s, v) <= |s|
    ensures forall i :: 0 <= i < |s| ==> (s[i] <= v <==> i < CountAtMost(s, v))
  {
    if s == [] {
    } else {
      var n := |s| - 1;
      AtMostComeFirst(s[..n], v);
      assert forall i :: 0 <= i < n ==> s[..n][i] == s[i];
    }
  }

  lemma {:induction false} BelowComeFirst(s: seq<real>, v: real)
    requires Sorted(s)
    ensures CountBelow(s, v) <= |s|
    ensures forall i :: 0 <= i < |s| ==> (s[i] < v <==> i < CountBelow(s, v))
  {
    if s == [] {
    } else {
      var n := |s| - 1;
      BelowComeFirst(s[..n], v);
      assert forall i :: 0 <= i < n ==> s[..n][i] == s[i];
    }
  }

  /** The reported percentile is a nearest rank: at least p percent of the samples are at most
      the value, and fewer than p percent are strictly below it. */
  lemma NearestRank(latencies: seq<real>, p: real)
    requires Sorted(latencies) && |latencies| >= 1 && 0.0 < p <= 100.0
    ensures 0 <= RankIndex(p, |latencies|) < |latencies|
    ensures var v := latencies[RankIndex(p, |latencies|)];
            && CountAtMost(latencies, v) as real >= p * |latencies| as real / 100.0
            && CountBelow(latencies, v) as real < p * |latencies| as real / 100.0
  {
    PositionInRange(p, |latencies|);
    RankIsCeiling(p, |latencies|);
    hide RankIndex, Position, CountAtMost, CountBelow;
    var i := RankIndex(p, |latencies|);
    var v := latencies[i];
    AtMostComeFirst(latencies, v);
    BelowComeFirst(latencies, v);
    assert i < CountAtMost(latencies, v);
    assert CountBelow(latencies, v) <= i;
  }

  lemma RankIsMonotone(p: real, q: real, n: nat)
    requires 0.0 < p <= q <= 100.0 && n >= 1
    ensures 0 <= RankIndex(p, n) <= RankIndex(q, n) < n
  {
    hide RankIndex, Ceiling;
    RankIsCeiling(p, n);
    RankIsCeiling(q, n);
    ProductIsMonotoneReal(p / 100.0, q / 100.0, n as real);
  }

  /** Higher percentiles are never reported lower, also after truncation to nanoseconds. */
  lemma PercentilesAreMonotone(latencies: seq<real>, p: real, q: real)
    requires Sorted(latencies) && |latencies| >= 1 && 0.0 < p <= q <= 100.0
    requires forall i :: 0 <= i < |latencies| ==> latencies[i] > 0.0
    ensures 0 <= RankIndex(p, |latencies|) <= RankIndex(q, |latencies|) < |latencies|
    ensures Entry(latencies, p).latency <= Entry(latencies, q).latency
  {
    hide RankIndex, Trunc;
    var n := |latencies|;
    RankIsMonotone(p, q, n);
    var v, w := latencies[RankIndex(p, n)], latencies[RankIndex(q, n)];
    TruncIsMonotone(v * NANO as real, w * NANO as real);
  }
}
