/** The reporter that gathers the results of a run (runner/reporter.go). */
module Reporters {
  import opened GoNumbers
  import opened Options
  import opened Reservoirs

  datatype CallResult = CallResult(error: Option<string>, status: string, duration: int, timestamp: int)

  datatype ResultDetail = ResultDetail(timestamp: int, latency: int, error: string, status: string)

  const DEFAULT_MAX_RESULTS: nat := 100_000_000
  const LAST_N: nat := 10000

  function DetailOf(r: CallResult): ResultDetail {
    ResultDetail(r.timestamp, r.duration, if r.error.Some? then r.error.value else "", r.status)
  }

  /** The results that count: all but the first `skip`. */
  function Counted(results: seq<CallResult>, skip: int): seq<CallResult> {
    results[Min(Max(skip, 0), |results|)..]
  }

  function Statuses(results: seq<CallResult>): seq<string> {
    if results == [] then [] else Statuses(results[..|results| - 1]) + [results[|results| - 1].status]
  }

  function Errors(results: seq<CallResult>): seq<string> {
    if results == [] then []
    else
      var last := results[|results| - 1];
      Errors(results[..|results| - 1]) + if last.error.Some? then [last.error.value] else []
  }

  function TotalSeconds(results: seq<CallResult>): real {
    if results == [] then 0.0
    else TotalSeconds(results[..|results| - 1]) + Seconds(results[|results| - 1].duration)
  }

  /** The map holds the multiplicity of every name and no other key. */
  ghost predicate Tallies(dist: map<string, nat>, names: multiset<string>) {
    && (forall n :: n in dist <==> n in names)
    && (forall n :: n in dist ==> dist[n] == names[n])
  }

  /** `details` holds the kept results, slot for slot. */
  ghost predicate Samples(details: seq<ResultDetail>, counted: seq<CallResult>, max: nat, draws: seq<nat>) {
    |draws| >= |counted| - max && Fills(details, counted, Keep(|counted|, max, draws))
  }

  /** Slot s holds the result whose number is kept there. */
  ghost predicate Fills(details: seq<ResultDetail>, counted: seq<CallResult>, kept: seq<nat>) {
    && |details| == |kept|
    && forall s :: 0 <= s < |kept| ==> kept[s] < |counted| && details[s] == DetailOf(counted[kept[s]])
  }

  /** The ring holds the last results, each at its position modulo the size of the ring. */
  ghost predicate RingHolds(ring: seq<ResultDetail>, counted: seq<CallResult>)
    requires |ring| == LAST_N
  {
    forall i :: 0 <= i < |counted| && |counted| - LAST_N <= i ==> ring[i % LAST_N] == DetailOf(counted[i])
  }

  function Increment(dist: map<string, nat>, name: string): map<string, nat> {
    dist[name := (if name in dist then dist[name] else 0) + 1]
  }

  class Reporter {
    const skipFirst: int
    const maxResults: nat

    var totalLatenciesSec: real
    var details: seq<ResultDetail>
    const lastNDetails: array<ResultDetail>
    var lastNIndex: nat
    var errorDist: map<string, nat>
    var statusCodeDist: map<string, nat>
    var totalCount: nat

    constructor (maxResults: int, skipFirst: int)
      ensures Empty() && fresh(lastNDetails) && this.skipFirst == skipFirst
      ensures this.maxResults == if maxResults <= 0 then DEFAULT_MAX_RESULTS else maxResults
    {
      this.skipFirst := skipFirst;
      this.maxResults := if maxResults <= 0 then DEFAULT_MAX_RESULTS else maxResults;
      totalLatenciesSec, details, lastNIndex := 0.0, [], 0;
      lastNDetails := new ResultDetail[LAST_N](_ => ResultDetail(0, 0, "", ""));
      errorDist, statusCodeDist, totalCount := map[], map[], 0;
    }

    ghost predicate Empty()
      reads this
    {
      && maxResults > 0 && lastNDetails.Length == LAST_N
      && totalLatenciesSec == 0.0 && details == [] && lastNIndex == 0
      && errorDist == map[] && statusCodeDist == map[] && totalCount == 0
    }

    /** What the reporter holds after counting the given results with the given draws. */
    ghost predicate Holds(counted: seq<CallResult>, draws: seq<nat>)
      reads this, lastNDetails
    {
      && lastNDetails.Length == LAST_N
      && totalCount == |counted|
      && totalLatenciesSec == TotalSeconds(counted)
      && Tallies(statusCodeDist, multiset(Statuses(counted)))
      && Tallies(errorDist, multiset(Errors(counted)))
      && Samples(details, counted, maxResults, draws)
      && lastNIndex == |counted| % LAST_N
      && RingHolds(lastNDetails[..], counted)
    }

    /** The results arrive in the order of `results`; `draws` are the random numbers, the draw
        for a counted result being below the total count including it. */
    method Run(results: seq<CallResult>, draws: seq<nat>)
      requires Empty()
      requires |draws| >= |results| && forall t :: 0 <= t < |draws| ==> draws[t] < maxResults + t + 1
      modifies this, lastNDetails
      ensures Holds(Counted(results, skipFirst), draws)
    {
      hide Tallies, Samples, RingHolds, Statuses, Errors, TotalSeconds, Keep, Counted;
      var skipCount := 0;
      var n := 0;
      EmptyHolds(lastNDetails[..], maxResults, draws);
      CountedLimits(results, skipFirst);
      while n < |results|
        invariant 0 <= n <= |results|
        invariant skipCount == Min(n, Max(skipFirst, 0))
        invariant Holds(Counted(results[..n], skipFirst), draws)
      {
        var res := results[n];
        CountedStep(results, skipFirst, n);
        if skipCount < skipFirst {
          skipCount := skipCount + 1;
        } else {
          Record(res, draws, Counted(results[..n], skipFirst));
        }
        n := n + 1;
      }
    }

    method Record(res: CallResult, draws: seq<nat>, ghost counted: seq<CallResult>)
      requires Holds(counted, draws) && |draws| > |counted| - maxResults
      modifies this, lastNDetails
      ensures Holds(counted + [res], draws)
    {
      hide Tallies, Samples, RingHolds, Statuses, Errors, TotalSeconds, Keep, Increment;
      Appended(counted, res);
      TallyAppend(statusCodeDist, Statuses(counted), res.status);
      SampleAppend(details, counted, res, maxResults, draws);
      RingAppend(lastNDetails[..], counted, res);
      var errStr := "";
      totalCount := totalCount + 1;
      totalLatenciesSec := totalLatenciesSec + Seconds(res.duration);
      statusCodeDist := Increment(statusCodeDist, res.status);
      if res.error.Some? {
        errStr := res.error.value;
        TallyAppend(errorDist, Errors(counted), errStr);
        errorDist := Increment(errorDist, errStr);
      }
      var detail := ResultDetail(res.timestamp, res.duration, errStr, res.status);
      assert detail == DetailOf(res);
    hide DetailOf;
      if |details| < maxResults {
        details := details + [detail];
      } else {
        var j := draws[totalCount - 1 - maxResults];
        if j < maxResults {
          details := details[j := detail];
        }
      }
      ghost var ring := lastNDetails[..];
      lastNDetails[lastNIndex] := detail;
      assert lastNDetails[..] == ring[lastNIndex := detail];
      lastNIndex := (lastNIndex + 1) % LAST_N;
    }
  }

  /** One more name in the tally. */
  lemma TallyAppend(dist: map<string, nat>, names: seq<string>, name: string)
    requires Tallies(dist, multiset(names))
    ensures Tallies(Increment(dist, name), multiset(names + [name]))
  {
  }

  /** The details after one more result, as the code updates them. */
  function Updated(details: seq<ResultDetail>, detail: ResultDetail, max: nat, draw: nat): seq<ResultDetail> {
    if |details| < max then details + [detail]
    else if draw < max && draw < |details| then details[draw := detail]
    else details
  }

  lemma SampleAppend(details: seq<ResultDetail>, counted: seq<CallResult>, res: CallResult, max: nat, draws: seq<nat>)
    requires Samples(details, counted, max, draws) && |draws| > |counted| - max
    ensures |details| == if |counted| <= max then |counted| else max
    ensures Samples(Updated(details, DetailOf(res), max, if |counted| >= max then draws[|counted| - max] else 0),
                    counted + [res], max, draws)
  {
    KeepStep(|counted|, max, draws);
    var kept := Keep(|counted|, max, draws);
    FillsByAppending(details, counted, res, kept);
    hide Keep, DetailOf, Fills;
    if |counted| >= max {
      FillsByReplacing(details, counted, res, kept, draws[|counted| - max]);
    }
  }

  lemma FillsByAppending(details: seq<ResultDetail>, counted: seq<CallResult>, res: CallResult, kept: seq<nat>)
    requires Fills(details, counted, kept)
    ensures |details| == |kept| && Fills(details + [DetailOf(res)], counted + [res], kept + [|counted|])
  {
    hide DetailOf;
  }

  lemma FillsByReplacing(details: seq<ResultDetail>, counted: seq<CallResult>, res: CallResult, kept: seq<nat>, j: nat)
    requires Fills(details, counted, kept) && |details| == |kept|
    ensures j < |kept| ==> Fills(details[j := DetailOf(res)], counted + [res], kept[j := |counted|])
    ensures Fills(details, counted + [res], kept)
  {
    hide DetailOf;
  }

  lemma KeepStep(k: nat, max: nat, draws: seq<nat>)
    requires |draws| > k - max
    ensures Keep(k + 1, max, draws) ==
            if k < max then Keep(k, max, draws) + [k]
            else if draws[k - max] < max then Keep(k, max, draws)[draws[k - max] := k]
            else Keep(k, max, draws)
  {
  }

  lemma RingAppend(ring: seq<ResultDetail>, counted: seq<CallResult>, res: CallResult)
    requires |ring| == LAST_N && RingHolds(ring, counted)
    ensures RingHolds(ring[|counted| % LAST_N := DetailOf(res)], counted + [res])
    ensures (|counted| % LAST_N + 1) % LAST_N == (|counted| + 1) % LAST_N
  {
  }

  lemma Appended(counted: seq<CallResult>, res: CallResult)
    ensures (counted + [res])[..|counted|] == counted
    ensures Statuses(counted + [res]) == Statuses(counted) + [res.status]
    ensures TotalSeconds(counted + [res]) == TotalSeconds(counted) + Seconds(res.duration)
    ensures Errors(counted + [res]) == if res.error.Some? then Errors(counted) + [res.error.value] else Errors(counted)
  {
    assert (counted + [res])[..|counted|] == counted;
  }

  lemma CountedStep(results: seq<CallResult>, skip: int, n: nat)
    requires n < |results|
    ensures |Counted(results[..n], skip)| <= n
    ensures Counted(results[..n + 1], skip) ==
            if n < skip then Counted(results[..n], skip) else Counted(results[..n], skip) + [results[n]]
  {
  }

  lemma CountedLimits(results: seq<CallResult>, skip: int)
    ensures Counted(results[..0], skip) == []
    ensures results[..|results|] == results
  {
  }

  lemma EmptyHolds(ring: seq<ResultDetail>, max: nat, draws: seq<nat>)
    requires |ring| == LAST_N
    ensures Tallies(map[], multiset(Statuses([]))) && Tallies(map[], multiset(Errors([])))
    ensures Samples([], [], max, draws) && RingHolds(ring, []) && TotalSeconds([]) == 0.0
  {
  }

  // ---------- what the report counts ----------

  ghost function SumOf(dist: map<string, nat>): nat {
    if dist == map[] then 0
    else
      var n :| n in dist;
      dist[n] + SumOf(dist - {n})
  }

  /** The tally of a multiset adds up to its size. */
  lemma {:induction false} TallySum(dist: map<string, nat>, names: multiset<string>)
    requires Tallies(dist, names)
    ensures SumOf(dist) == |names|
  {
    if dist == map[] {
      assert forall n :: n !in names;
      assert names == multiset{};
    } else {
      var n :| n in dist && SumOf(dist) == dist[n] + SumOf(dist - {n});
      var rest := names[n := 0];
      TallySum(dist - {n}, rest);
      assert |names| == |rest| + names[n];
    }
  }

  lemma {:induction false} NameCounts(counted: seq<CallResult>)
    ensures |Statuses(counted)| == |counted|
    ensures |Errors(counted)| == |FailedPositions(counted)|
  {
    if counted == [] {
    } else {
      var n := |counted| - 1;
      NameCounts(counted[..n]);
      assert FailedPositions(counted) == FailedPositions(counted[..n]) + if counted[n].error.Some? then {n} else {};
    }
  }

  function FailedPositions(counted: seq<CallResult>): set<int> {
    set i | 0 <= i < |counted| && counted[i].error.Some?
  }

  /** The status distribution adds up to the total count, and the error distribution to the
      number of counted results that failed. */
  lemma DistributionsAddUp(r: Reporter, counted: seq<CallResult>, draws: seq<nat>)
    requires r.Holds(counted, draws)
    ensures SumOf(r.statusCodeDist) == r.totalCount
    ensures SumOf(r.errorDist) == |FailedPositions(counted)|
  {
    hide Statuses, Errors, Samples, RingHolds, TotalSeconds, Tallies, SumOf, FailedPositions;
    NameCounts(counted);
    TallySum(r.statusCodeDist, multiset(Statuses(counted)));
    TallySum(r.errorDist, multiset(Errors(counted)));
  }

  /** The total count is what was received beyond the first `skip` results. */
  lemma CountedLength(results: seq<CallResult>, skip: int)
    requires skip >= 0
    ensures |Counted(results, skip)| == Max(0, |results| - skip)
    ensures forall i :: 0 <= i < |Counted(results, skip)| ==> Counted(results, skip)[i] == results[skip + i]
  {
  }

  /** The numbers of the results that the reporter keeps, slot by slot. */
  ghost function Kept(r: Reporter, counted: seq<CallResult>, draws: seq<nat>): (kept: seq<nat>)
    requires r.Holds(counted, draws)
    reads r, r.lastNDetails
    ensures forall s :: 0 <= s < |kept| ==> kept[s] < |counted|
  {
    Keep(|counted|, r.maxResults, draws)
  }

  /** Each detail has the duration of its result as latency, its time, its status and the text of its error.
      Until the reservoir is full the details are the counted results in the order of arrival; from then on
      they are `max` distinct counted results. */
  lemma DetailsAreCounted(r: Reporter, counted: seq<CallResult>, draws: seq<nat>) returns (kept: seq<nat>)
    requires r.Holds(counted, draws)
    ensures kept == Kept(r, counted, draws)
    ensures |kept| == |r.details| == Min(|counted|, r.maxResults)
    ensures forall s :: 0 <= s < |kept| ==> kept[s] < |counted|
    ensures forall s, t :: 0 <= s < t < |kept| ==> kept[s] != kept[t]
    ensures |counted| <= r.maxResults ==> forall s :: 0 <= s < |kept| ==> kept[s] == s
    ensures forall s :: 0 <= s < |kept| ==>
              && r.details[s].latency == counted[kept[s]].duration
              && r.details[s].timestamp == counted[kept[s]].timestamp
              && r.details[s].status == counted[kept[s]].status
              && r.details[s].error == if counted[kept[s]].error.Some? then counted[kept[s]].error.value else ""
  {
    hide Statuses, Errors, RingHolds, TotalSeconds, Tallies;
    kept := Keep(|counted|, r.maxResults, draws);
    if |counted| <= r.maxResults {
      KeepInOrder(|counted|, r.maxResults, draws);
    }
  }

  /** Result number i, if it is among the last ones, stands in the ring at its number modulo its size. */
  lemma RingIsRecent(r: Reporter, counted: seq<CallResult>, draws: seq<nat>, i: nat)
    requires r.Holds(counted, draws) && |counted| - 10_000 <= i < |counted|
    ensures r.lastNDetails.Length == 10_000
    ensures var d := r.lastNDetails[i % 10_000];
            && d.latency == counted[i].duration && d.timestamp == counted[i].timestamp
            && d.status == counted[i].status
            && d.error == if counted[i].error.Some? then counted[i].error.value else ""
  {
    hide Statuses, Errors, Samples, TotalSeconds, Tallies;
    assert r.lastNDetails[..][i % LAST_N] == r.lastNDetails[i % LAST_N];
  }

  // ---------- the tallies, name by name ----------

  function WithStatus(counted: seq<CallResult>, name: string): set<int> {
    set i | 0 <= i < |counted| && counted[i].status == name
  }

  function WithError(counted: seq<CallResult>, name: string): set<int> {
    set i | 0 <= i < |counted| && counted[i].error == Some(name)
  }

  /** The status distribution has the number of counted results with each status, and the error distribution
      the number of those that failed with each text; no other names occur. */
  lemma NamesAreTallied(r: Reporter, counted: seq<CallResult>, draws: seq<nat>, name: string)
    requires r.Holds(counted, draws)
    ensures (if name in r.statusCodeDist then r.statusCodeDist[name] else 0) == |WithStatus(counted, name)|
    ensures (if name in r.errorDist then r.errorDist[name] else 0) == |WithError(counted, name)|
    ensures name in r.statusCodeDist <==> WithStatus(counted, name) != {}
    ensures name in r.errorDist <==> WithError(counted, name) != {}
  {
    hide Statuses, Errors, Samples, RingHolds, TotalSeconds, WithStatus, WithError;
    StatusMultiplicity(counted, name);
    ErrorMultiplicity(counted, name);
    assert name in r.statusCodeDist <==> multiset(Statuses(counted))[name] > 0;
    assert name in r.errorDist <==> multiset(Errors(counted))[name] > 0;
  }

  lemma {:induction false} StatusMultiplicity(counted: seq<CallResult>, name: string)
    ensures multiset(Statuses(counted))[name] == |WithStatus(counted, name)|
  {
    if counted == [] {
    } else {
      var n := |counted| - 1;
      StatusMultiplicity(counted[..n], name);
      OneMoreStatus(counted, name);
      assert Statuses(counted) == Statuses(counted[..n]) + [counted[n].status];
      hide Statuses, WithStatus;
    }
  }

  lemma OneMoreStatus(counted: seq<CallResult>, name: string)
    requires counted != []
    ensures var n := |counted| - 1;
            |WithStatus(counted, name)| == |WithStatus(counted[..n], name)| + if counted[n].status == name then 1 else 0
  {
    var n := |counted| - 1;
    assert WithStatus(counted, name) == WithStatus(counted[..n], name) + if counted[n].status == name then {n} else {};
  }

  lemma {:induction false} ErrorMultiplicity(counted: seq<CallResult>, name: string)
    ensures multiset(Errors(counted))[name] == |WithError(counted, name)|
  {
    if counted == [] {
    } else {
      var n := |counted| - 1;
      ErrorMultiplicity(counted[..n], name);
      OneMoreError(counted, name);
      assert Errors(counted) == Errors(counted[..n]) + if counted[n].error.Some? then [counted[n].error.value] else [];
      hide Errors, WithError;
    }
  }

  lemma OneMoreError(counted: seq<CallResult>, name: string)
    requires counted != []
    ensures var n := |counted| - 1;
            |WithError(counted, name)| == |WithError(counted[..n], name)| + if counted[n].error == Some(name) then 1 else 0
  {
    var n := |counted| - 1;
    assert WithError(counted, name) == WithError(counted[..n], name) + if counted[n].error == Some(name) then {n} else {};
  }

  lemma {:induction false} KeepInOrder(k: nat, max: nat, draws: seq<nat>)
    requires k <= max
    ensures forall i :: 0 <= i < k ==> Keep(k, max, draws)[i] == i
  {
    if k == 0 {
    } else {
      KeepInOrder(k - 1, max, draws);
    }
  }
}
