/** How the final report is put together from the recorded latencies (runner/reporter.go). */
module Reports {
  import opened GoNumbers
  import opened Options
  import R = Reporters
  import opened Percentiles
  import opened Histograms

  datatype Summary = Summary(
    fastest: int, slowest: int, distribution: seq<LatencyDistribution>, tail: real, tailPct: real, histogram: seq<Bucket>)

  /** Sorted latencies in whole nanoseconds. */
  ghost predicate Ordered(lats: seq<int>) {
    (forall i :: 0 <= i < |lats| ==> lats[i] >= 0) && forall i, j :: 0 <= i < j < |lats| ==> lats[i] <= lats[j]
  }

  function InSeconds(lats: seq<int>): (s: seq<real>)
    ensures |s| == |lats| && forall i :: 0 <= i < |s| ==> s[i] == Seconds(lats[i])
  {
    seq(|lats|, i requires 0 <= i < |lats| => Seconds(lats[i]))
  }

  /** Whole nanoseconds survive the trip through seconds. */
  lemma WholeNanoseconds(d: int)
    ensures Trunc(Seconds(d) * NANO as real) == d
    ensures d >= 0 ==> Seconds(d) >= 0.0
    ensures Seconds(d) > 0.0 <==> d > 0
  {
    assert Seconds(d) * NANO as real == d as real;
  }

  lemma SecondsAreSorted(lats: seq<int>)
    requires Ordered(lats)
    ensures Sorted(InSeconds(lats))
  {
  }

  /** The first entry for a percentage, as `slices.IndexFunc` finds it; -1 if there is none. */
  function IndexFunc(dist: seq<LatencyDistribution>, percentage: real): (idx: int)
    ensures -1 <= idx < |dist|
    ensures idx >= 0 ==> dist[idx].percentage == percentage
    ensures forall i :: 0 <= i < (if idx >= 0 then idx else |dist|) ==> dist[i].percentage != percentage
  {
    if dist == [] then -1
    else
      var idx := IndexFunc(dist[..|dist| - 1], percentage);
      assert forall i :: 0 <= i < |dist| - 1 ==> dist[..|dist| - 1][i] == dist[i];
      if idx >= 0 then idx
      else if dist[|dist| - 1].percentage == percentage then |dist| - 1
      else -1
  }

  /** The entry for percentile p, in nanoseconds; a latency of zero leaves it blank. */
  function EntryIn(lats: seq<int>, p: real): LatencyDistribution {
    var r := RankIndex(p, |lats|);
    if 0 <= r < |lats| && lats[r] > 0 then LatencyDistribution(p, lats[r]) else LatencyDistribution(0.0, 0)
  }

  lemma EntriesAreWhole(lats: seq<int>, p99_9: bool, dist: seq<LatencyDistribution>)
    requires |lats| > 0 && |dist| == |Wanted(p99_9)|
    requires forall i :: 0 <= i < |dist| ==> 0 <= RankIndex(Wanted(p99_9)[i], |InSeconds(lats)|) < |InSeconds(lats)|
    requires forall i :: 0 <= i < |dist| ==> dist[i] == Entry(InSeconds(lats), Wanted(p99_9)[i])
    ensures forall i :: 0 <= i < |dist| ==> dist[i] == EntryIn(lats, Wanted(p99_9)[i])
  {
    hide RankIndex, Wanted, Trunc, Seconds;
    forall i | 0 <= i < |dist| ensures dist[i] == EntryIn(lats, Wanted(p99_9)[i]) {
      WholeNanoseconds(lats[RankIndex(Wanted(p99_9)[i], |lats|)]);
    }
  }

  /** The tail mark and its percentile: p99.9 if it was asked for and is not zero, else p99 if it
      is not zero, else the slowest latency. */
  function TailOf(lats: seq<int>, p99_9: bool): (real, real)
    requires |lats| > 0
  {
    if p99_9 && EntryIn(lats, 99.9).percentage == 99.9 then (Seconds(EntryIn(lats, 99.9).latency), 99.9)
    else if EntryIn(lats, 99.0).percentage == 99.0 then (Seconds(EntryIn(lats, 99.0).latency), 99.0)
    else (Seconds(lats[|lats| - 1]), 100.0)
  }

  /** The search through the distribution finds p99.9 and p99 where they stand, or not at all. */
  lemma TailIs(lats: seq<int>, p99_9: bool, dist: seq<LatencyDistribution>)
    requires |lats| > 0 && |dist| == |Wanted(p99_9)|
    requires forall i :: 0 <= i < |dist| ==> dist[i] == EntryIn(lats, Wanted(p99_9)[i])
    ensures var idx := IndexFunc(dist, 99.9);
            if p99_9 && EntryIn(lats, 99.9).percentage == 99.9 then idx >= 0 && dist[idx] == EntryIn(lats, 99.9)
            else idx == -1
    ensures var idx := IndexFunc(dist, 99.0);
            if EntryIn(lats, 99.0).percentage == 99.0 then idx >= 0 && dist[idx] == EntryIn(lats, 99.0)
            else idx == -1
  {
    forall i | 0 <= i < |dist| ensures dist[i].percentage in [Wanted(p99_9)[i], 0.0] {
      hide RankIndex, Wanted;
    }
    hide RankIndex, EntryIn, IndexFunc;
    assert dist[6] == EntryIn(lats, 99.0);
    assert p99_9 ==> dist[7] == EntryIn(lats, 99.9);
  }

  lemma FastestFirst(lats: seq<int>, p99_9: bool)
    requires |lats| > 0 && Ordered(lats)
    ensures Seconds(lats[0]) <= LastMark(|lats|, Seconds(lats[|lats| - 1]), TailOf(lats, p99_9).0)
  {
    hide RankIndex;
  }

  /** The sample for percentile p is positive. */
  predicate IsPositiveAt(lats: seq<int>, p: real) {
    var r := RankIndex(p, |lats|);
    0 <= r < |lats| && lats[r] > 0
  }

  /** The tail is the p99.9 sample if that was asked for and is positive, else the p99 sample if that is
      positive, else the slowest one. */
  predicate IsTail(tail: real, pct: real, lats: seq<int>, p99_9: bool)
    requires |lats| > 0
  {
    if p99_9 && IsPositiveAt(lats, 99.9) then pct == 99.9 && tail == Seconds(lats[RankIndex(99.9, |lats|)])
    else if IsPositiveAt(lats, 99.0) then pct == 99.0 && tail == Seconds(lats[RankIndex(99.0, |lats|)])
    else pct == 100.0 && tail == Seconds(lats[|lats| - 1])
  }

  lemma TailOfIsTail(lats: seq<int>, p99_9: bool)
    requires |lats| > 0
    ensures IsTail(TailOf(lats, p99_9).0, TailOf(lats, p99_9).1, lats, p99_9)
  {
    hide RankIndex, Seconds;
  }

  /** What a summary of sorted latencies says: exact extremes, every wanted percentile, the chosen tail, and a
      histogram by that tail which counts every sample once. */
  ghost predicate Summarizes(s: Summary, lats: seq<int>, p99_9: bool)
    requires |lats| > 0
  {
    && s.fastest == lats[0] && s.slowest == lats[|lats| - 1]
    && IsTail(s.tail, s.tailPct, lats, p99_9)
    && |s.distribution| == |Wanted(p99_9)|
    && (forall i :: 0 <= i < |s.distribution| ==> s.distribution[i] == EntryIn(lats, Wanted(p99_9)[i]))
    && |s.histogram| == BUCKETS && SumOf(CountsOf(s.histogram)) == |lats|
    && s.histogram[0].mark == Seconds(s.fastest)
    && s.histogram[BUCKETS - 1].mark == LastMark(|lats|, Seconds(s.slowest), s.tail)
    && (forall b :: 0 <= b < BUCKETS ==> s.histogram[b].count == Share(InSeconds(lats), MarksOf(s.histogram), b))
    && (forall b :: 0 <= b < BUCKETS ==> s.histogram[b].tail == TailLabelOf(|lats|, s.tailPct, b))
  }

  method Summarize(lats: seq<int>, p99_9: bool) returns (s: Summary)
    requires |lats| > 0 && Ordered(lats)
    ensures Summarizes(s, lats, p99_9)
  {
    hide Share, SumOf, CountsOf, Sorted, Ordered, Trunc, Seconds, EntryIn, MarksOf;
    var okLats := InSeconds(lats);
    SecondsAreSorted(lats);
    var fastestNum, slowestNum := okLats[0], okLats[|okLats| - 1];
    WholeNanoseconds(lats[0]);
    WholeNanoseconds(lats[|lats| - 1]);
    var fastest, slowest := Trunc(fastestNum * NANO as real), Trunc(slowestNum * NANO as real);
    var dist := Latencies(okLats, p99_9);
    EntriesAreWhole(lats, p99_9, dist);
    var idx := IndexFunc(dist, 99.9);
    var tail, pct;
    if idx != -1 {
      tail, pct := Seconds(dist[idx].latency), 99.9;
    } else {
      idx := IndexFunc(dist, 99.0);
      if idx == -1 {
        tail, pct := slowestNum, 100.0;
      } else {
        tail, pct := Seconds(dist[idx].latency), 99.0;
      }
    }
    TailIs(lats, p99_9, dist);
    FastestFirst(lats, p99_9);
    TailOfIsTail(lats, p99_9);
    hide IsTail;
    var h := Histogram(okLats, slowestNum, fastestNum, tail, pct);
    s := Summary(fastest, slowest, dist, tail, pct, h);
  }

  // ---------- the tail ----------

  /** Once there are enough samples, those beyond the last mark are no more than the share the tail
      percentile leaves; before that there are none. */
  lemma TailIsSmall(lats: seq<int>, p99_9: bool, marks: seq<real>)
    requires |lats| > 0 && Ordered(lats) && |marks| == BUCKETS
    requires marks[BUCKETS - 1] == LastMark(|lats|, Seconds(lats[|lats| - 1]), TailOf(lats, p99_9).0)
    ensures |lats| >= 100 ==>
              Above(InSeconds(lats), marks) <= |lats| - Ceiling(Position(TailOf(lats, p99_9).1, |lats|))
    ensures |lats| < 100 ==> Above(InSeconds(lats), marks) == 0
    ensures TailOf(lats, p99_9).1 in [99.9, 99.0, 100.0]
  {
    hide RankIndex, Position, Ceiling, CountAtMost, Seconds, Sorted, Ordered;
    SecondsAreSorted(lats);
    AllAtMostLast(lats);
    var (tail, pct) := TailOf(lats, p99_9);
    if |lats| >= CLEAN_TAIL {
      if pct == 100.0 {
        WholePosition(|lats|);
      } else {
        AtLeastPercent(InSeconds(lats), pct);
      }
    }
  }

  /** The last bucket is labelled P99 although the tail is not p99 exactly with enough samples of which
      the p99 one is zero, when p99.9 was not asked for or is zero too; the tail is then the slowest. */
  lemma LabelMisleadsIff(lats: seq<int>, p99_9: bool)
    requires |lats| > 0
    ensures TailLabelOf(|lats|, TailOf(lats, p99_9).1, BUCKETS - 1) == P99 && TailOf(lats, p99_9).1 != 99.0 <==>
            && |lats| >= 100
            && !IsPositiveAt(lats, 99.0)
            && (!p99_9 || !IsPositiveAt(lats, 99.9))
    ensures TailOf(lats, p99_9).1 !in [99.9, 99.0] ==> TailOf(lats, p99_9) == (Seconds(lats[|lats| - 1]), 100.0)
  {
    hide RankIndex, Seconds;
  }

  lemma AtLeastPercent(s: seq<real>, p: real)
    requires Sorted(s) && |s| >= 1 && 0.0 < p <= 100.0
    ensures 0 <= RankIndex(p, |s|) < |s| && CountAtMost(s, s[RankIndex(p, |s|)]) >= Ceiling(Position(p, |s|))
  {
    hide RankIndex, CountAtMost, CountBelow, Sorted, Position;
    PositionInRange(p, |s|);
    NearestRank(s, p);
  }

  lemma AllAtMostLast(lats: seq<int>)
    requires |lats| > 0 && Ordered(lats)
    ensures CountAtMost(InSeconds(lats), Seconds(lats[|lats| - 1])) == |lats|
  {
    hide CountAtMost;
    SecondsAreSorted(lats);
    AtMostComeFirst(InSeconds(lats), Seconds(lats[|lats| - 1]));
  }

  lemma WholePosition(n: nat)
    ensures Ceiling(Position(100.0, n)) == n
  {
    assert Position(100.0, n) == n as real;
  }

  // ---------- the whole report ----------

  /** Of the report: the number of counted results, their mean latency, their rate, and the summary of
      the sampled latencies that enter it. */
  datatype Report = Report(count: nat, average: int, rps: real, summary: Option<Summary>)

  /** The latencies of the sampled results that enter the summary. */
  function OkLatencies(details: seq<R.ResultDetail>, countErrors: bool): seq<int> {
    if details == [] then []
    else
      var d := details[|details| - 1];
      OkLatencies(details[..|details| - 1], countErrors) + if d.error == "" || countErrors then [d.latency] else []
  }

  function TotalNanoseconds(results: seq<R.CallResult>): int {
    if results == [] then 0
    else TotalNanoseconds(results[..|results| - 1]) + results[|results| - 1].duration
  }

  /** `sorted` is what the library's sort makes of the latencies. */
  ghost predicate IsSortOf(sorted: seq<int>, lats: seq<int>) {
    Ordered(sorted) && multiset(sorted) == multiset(lats)
  }

  /** Among the kept results, given by their numbers, those of the given duration that enter the summary: all of
      them if errors count, else those without an error text. */
  function Entering(counted: seq<R.CallResult>, kept: seq<nat>, countErrors: bool, duration: int): set<int>
    requires forall s :: 0 <= s < |kept| ==> kept[s] < |counted|
  {
    set s | 0 <= s < |kept| && counted[kept[s]].duration == duration
            && (countErrors || counted[kept[s]].error == None || counted[kept[s]].error == Some(""))
  }

  function OkPositions(details: seq<R.ResultDetail>, countErrors: bool, latency: int): set<int> {
    set s | 0 <= s < |details| && details[s].latency == latency && (countErrors || details[s].error == "")
  }

  lemma {:induction false} OkMultiplicity(details: seq<R.ResultDetail>, countErrors: bool, latency: int)
    ensures multiset(OkLatencies(details, countErrors))[latency] == |OkPositions(details, countErrors, latency)|
  {
    if details == [] {
    } else {
      var n := |details| - 1;
      OkMultiplicity(details[..n], countErrors, latency);
      OneMoreOk(details, countErrors, latency);
      var last := if details[n].error == "" || countErrors then [details[n].latency] else [];
      assert OkLatencies(details, countErrors) == OkLatencies(details[..n], countErrors) + last;
      hide OkLatencies, OkPositions;
    }
  }

  lemma OneMoreOk(details: seq<R.ResultDetail>, countErrors: bool, latency: int)
    requires details != []
    ensures var n := |details| - 1;
            |OkPositions(details, countErrors, latency)| == |OkPositions(details[..n], countErrors, latency)|
                + if details[n].latency == latency && (countErrors || details[n].error == "") then 1 else 0
  {
    var n := |details| - 1;
    var more := details[n].latency == latency && (countErrors || details[n].error == "");
    assert OkPositions(details, countErrors, latency) ==
           OkPositions(details[..n], countErrors, latency) + if more then {n} else {};
  }

  /** The summarised latencies are the durations of the kept results, as often as each occurs among them. */
  lemma LatenciesAreDurations(r: R.Reporter, countErrors: bool, counted: seq<R.CallResult>, draws: seq<nat>,
                              kept: seq<nat>, duration: int)
    requires r.Holds(counted, draws) && kept == R.Kept(r, counted, draws)
    ensures multiset(OkLatencies(r.details, countErrors))[duration] == |Entering(counted, kept, countErrors, duration)|
  {
    OkMultiplicity(r.details, countErrors, duration);
    var again := R.DetailsAreCounted(r, counted, draws);
    hide *;
    SamePositions(r.details, countErrors, counted, kept, duration);
  }

  lemma SamePositions(details: seq<R.ResultDetail>, countErrors: bool, counted: seq<R.CallResult>, kept: seq<nat>,
                      duration: int)
    requires |kept| == |details| && forall s :: 0 <= s < |kept| ==> kept[s] < |counted|
    requires forall s :: 0 <= s < |kept| ==>
               && details[s].latency == counted[kept[s]].duration
               && details[s].error == if counted[kept[s]].error.Some? then counted[kept[s]].error.value else ""
    ensures OkPositions(details, countErrors, duration) == Entering(counted, kept, countErrors, duration)
  {
  }

  /** The mean goes over all counted results, sampled or not. With a total time of zero the code divides
      by zero; the rate is left at 0 here. */
  method Finalize(r: R.Reporter, total: int, countErrors: bool, p99_9: bool, sorted: seq<int>,
                  ghost counted: seq<R.CallResult>, ghost draws: seq<nat>)
      returns (rep: Report)
    requires r.Holds(counted, draws) && forall k :: 0 <= k < |counted| ==> counted[k].duration >= 0
    requires IsSortOf(sorted, OkLatencies(r.details, countErrors))
    requires r.maxResults > 0
    ensures rep.count == |counted|
    ensures counted != [] ==> rep.average == TotalNanoseconds(counted) / |counted|
    ensures counted != [] && total != 0 ==> rep.rps * Seconds(total) == |counted| as real
    ensures rep.summary == None <==> sorted == []
    ensures rep.summary != None ==> Summarizes(rep.summary.value, sorted, p99_9)
    ensures forall d :: multiset(sorted)[d] == |Entering(counted, R.Kept(r, counted, draws), countErrors, d)|
  {
    hide *;
    HeldCounts(r, counted, draws);
    SortedAreDurations(r, countErrors, sorted, counted, draws);
    if |r.details| > 0 {
      var average, rps := Averages(r, total, counted);
      var summary := SummaryOf(r.details, countErrors, p99_9, sorted);
      rep := Report(r.totalCount, average, rps, summary);
    } else {
      NothingSelected(countErrors, sorted);
      rep := Report(r.totalCount, 0, 0.0, None);
    }
  }

  lemma SortedAreDurations(r: R.Reporter, countErrors: bool, sorted: seq<int>, counted: seq<R.CallResult>,
                           draws: seq<nat>)
    requires r.Holds(counted, draws) && IsSortOf(sorted, OkLatencies(r.details, countErrors))
    ensures forall d :: multiset(sorted)[d] == |Entering(counted, R.Kept(r, counted, draws), countErrors, d)|
  {
    hide OkLatencies, Entering, R.Kept;
    forall d
      ensures multiset(sorted)[d] == |Entering(counted, R.Kept(r, counted, draws), countErrors, d)|
    {
      LatenciesAreDurations(r, countErrors, counted, draws, R.Kept(r, counted, draws), d);
    }
  }

  method Averages(r: R.Reporter, total: int, ghost counted: seq<R.CallResult>) returns (average: int, rps: real)
    requires counted != [] && forall k :: 0 <= k < |counted| ==> counted[k].duration >= 0
    requires r.totalCount == |counted| && r.totalLatenciesSec == R.TotalSeconds(counted)
    ensures average == TotalNanoseconds(counted) / |counted|
    ensures total != 0 ==> rps * Seconds(total) == |counted| as real
  {
    hide Trunc, Seconds, R.TotalSeconds, TotalNanoseconds;
    MeanIsFloor(counted);
    average := Trunc(r.totalLatenciesSec / r.totalCount as real * NANO as real);
    NonZeroSeconds(total);
    if total == 0 {
      rps := 0.0;
    } else {
      rps := r.totalCount as real / Seconds(total);
      QuotientTimes(r.totalCount as real, Seconds(total));
    }
  }

  method SummaryOf(details: seq<R.ResultDetail>, countErrors: bool, p99_9: bool, sorted: seq<int>)
      returns (summary: Option<Summary>)
    requires IsSortOf(sorted, OkLatencies(details, countErrors))
    ensures summary == None <==> sorted == []
    ensures summary != None ==> Summarizes(summary.value, sorted, p99_9)
  {
    hide OkLatencies, Ordered, Summarizes;
    var okLats := SelectOk(details, countErrors);
    SameLength(sorted, okLats);
    summary := None;
    if |okLats| > 0 {
      var s := Summarize(sorted, p99_9);
      summary := Some(s);
    }
  }

  method SelectOk(details: seq<R.ResultDetail>, countErrors: bool) returns (okLats: seq<int>)
    ensures okLats == OkLatencies(details, countErrors)
  {
    okLats := [];
    var i := 0;
    while i < |details|
      invariant 0 <= i <= |details|
      invariant okLats == OkLatencies(details[..i], countErrors)
    {
      assert details[..i + 1][..i] == details[..i];
      var d := details[i];
      if d.error == "" || countErrors {
        okLats := okLats + [d.latency];
      }
      i := i + 1;
    }
    assert details[..|details|] == details;
  }

  lemma NothingSelected(countErrors: bool, sorted: seq<int>)
    ensures IsSortOf(sorted, OkLatencies([], countErrors)) ==> sorted == []
  {
    if IsSortOf(sorted, []) {
      SameLength(sorted, []);
    }
  }

  lemma SameLength(a: seq<int>, b: seq<int>)
    requires multiset(a) == multiset(b)
    ensures |a| == |b|
  {
    assert |multiset(a)| == |a| && |multiset(b)| == |b|;
  }

  lemma NonZeroSeconds(d: int)
    ensures d != 0 ==> Seconds(d) != 0.0
  {
  }

  lemma HeldCounts(r: R.Reporter, counted: seq<R.CallResult>, draws: seq<nat>)
    requires r.Holds(counted, draws) && r.maxResults > 0
    ensures r.totalCount == |counted| && r.totalLatenciesSec == R.TotalSeconds(counted)
    ensures r.details == [] <==> counted == []
  {
    var kept := R.DetailsAreCounted(r, counted, draws);
  }

  lemma {:induction false} TotalsAgree(results: seq<R.CallResult>)
    requires forall k :: 0 <= k < |results| ==> results[k].duration >= 0
    ensures R.TotalSeconds(results) == Seconds(TotalNanoseconds(results)) && TotalNanoseconds(results) >= 0
  {
    if results == [] {
      assert Seconds(0) == 0.0;
    } else {
      var front := results[..|results| - 1];
      TotalsAgree(front);
      SecondsAdds(TotalNanoseconds(front), results[|results| - 1].duration);
      hide Seconds;
    }
  }

  /** The mean in seconds, scaled and truncated, is the mean in whole nanoseconds. */
  lemma MeanIsFloor(results: seq<R.CallResult>)
    requires results != [] && forall k :: 0 <= k < |results| ==> results[k].duration >= 0
    ensures Trunc(R.TotalSeconds(results) / |results| as real * NANO as real) == TotalNanoseconds(results) / |results|
  {
    TotalsAgree(results);
    hide TotalNanoseconds, Trunc, Seconds, R.TotalSeconds;
    ScaledMean(TotalNanoseconds(results), |results|);
  }

  lemma ScaledMean(sum: nat, n: nat)
    requires n > 0
    ensures Trunc(Seconds(sum) / n as real * NANO as real) == sum / n
  {
    var x := Seconds(sum) / n as real * NANO as real;
    assert x * n as real == sum as real by {
      assert Seconds(sum) * NANO as real == sum as real;
      QuotientTimes(Seconds(sum), n as real);
    }
    hide Seconds;
    FloorOfQuotient(x, sum, n);
  }

  lemma FloorOfQuotient(x: real, sum: nat, n: nat)
    requires n > 0 && x * n as real == sum as real
    ensures Trunc(x) == sum / n
  {
    var q := x.Floor;
    var rest := x - q as real;
    var part := PartBelow(rest, n as real);
    assert x * n as real == q as real * n as real + part;
    assert (q * n) as real == q as real * n as real;
    WholePart(q * n, sum, part, n);
    QuotientIsUnique(sum, n, q);
    assert sum / n >= 0;
    assert x >= 0.0;
  }

  lemma WholePart(whole: int, sum: int, rest: real, n: int)
    requires sum as real == whole as real + rest && 0.0 <= rest < n as real
    ensures whole <= sum < whole + n
  {
  }

  lemma PartBelow(rest: real, n: real) returns (part: real)
    requires 0.0 <= rest < 1.0 && n > 0.0
    ensures part == rest * n && 0.0 <= part < n
  {
    part := rest * n;
    assert (1.0 - rest) * n > 0.0;
  }
}
