/** The segmented pacer: the precomputed index and its searches, and the runs it paces
    (load/pacer.go). */
module SegmentedPacers {
  import opened GoNumbers
  import opened Driver
  import opened SegmentSchedules

  /** The nanosecond of hit n, with hits beyond the load put at its end. */
  function HitTime(load: Load, n: int): int {
    if n <= 0 then 0
    else if n as real <= TotalHits(load) then Trunc(DueTime(load, n as real))
    else TotalDuration(load)
  }

  /** `SegmentedPacer.Pace` on an initialised pacer. */
  function PaceAt(load: Load, max: uint64, elapsed: int, hits: int): Pacing {
    if max > 0 && hits >= max then Stop
    else if elapsed >= TotalDuration(load) then Stop
    else
      var next := HitTime(load, hits + 1);
      if next > TotalDuration(load) then Stop
      else if elapsed >= next then Wait(0)
      else Wait(next - elapsed)
  }

  class SegmentedPacer {
    const segments: Load
    const max: uint64

    var initialised: bool
    var cumulativeHits: seq<real>
    var cumulativeTimes: seq<int>
    var totalDuration: int

    constructor (segments: Load, max: uint64)
      ensures Valid() && !initialised && this.segments == segments && this.max == max
    {
      this.segments, this.max := segments, max;
      initialised, cumulativeHits, cumulativeTimes, totalDuration := false, [], [], 0;
    }

    predicate Usable() {
      segments != [] && AllProper(segments)
    }

    /** Entry i of the index adds up the segments 0 to i. */
    ghost predicate Indexed(i: int)
      requires 0 <= i <= |segments|
      reads this
    {
      && |cumulativeHits| == |cumulativeTimes| == |segments|
      && forall j :: 0 <= j < i ==>
        && cumulativeHits[j] == TotalHits(segments[..j + 1])
        && cumulativeTimes[j] == TotalDuration(segments[..j + 1])
    }

    ghost predicate Valid()
      reads this
    {
      initialised ==> Usable() && Indexed(|segments|) && totalDuration == TotalDuration(segments)
    }

    /** Every failure is a panic. */
    method Initialize() returns (ok: bool)
      requires Valid()
      modifies this
      ensures Valid() && ok == Usable() && (ok ==> initialised) && (!ok ==> initialised == old(initialised))
      ensures ok <==> |segments| > 0 && forall i :: 0 <= i < |segments| ==> segments[i].duration > 0 && segments[i].rps >= 0.0
    {
      if initialised {
        return true;
      }
      if |segments| == 0 {
        return false;
      }
      cumulativeHits := seq(|segments|, _ => 0.0);
      cumulativeTimes := seq(|segments|, _ => 0);
      var hit, time := 0.0, 0;
      assert segments[..|segments|] == segments;
      assert TotalHits(segments[..0]) == 0.0 && TotalDuration(segments[..0]) == 0;
      hide TotalDuration, TotalHits, Seconds, SegmentHits;
      for i := 0 to |segments|
        invariant !initialised && Indexed(i)
        invariant forall j :: 0 <= j < i ==> Proper(segments[j])
        invariant hit == TotalHits(segments[..i]) && time == TotalDuration(segments[..i])
      {
        var seg := segments[i];
        if seg.duration <= 0 || seg.rps < 0.0 {
          return false;
        }
        TotalsOfPrefix(segments, i);
        HitsOfSegment(seg);
        hit := hit + seg.rps * Seconds(seg.duration);
        time := time + seg.duration;
        cumulativeHits := cumulativeHits[i := hit];
        cumulativeTimes := cumulativeTimes[i := time];
      }
      totalDuration := time;
      initialised := true;
      ok := true;
    }

    /** The segment a time falls in, and the time since that segment began. */
    method FindSegment(elapsed: int) returns (index: int, local: int)
      requires Valid() && initialised
      ensures 0 <= index < |segments|
      ensures local == elapsed - TotalDuration(segments[..index])
      ensures (if elapsed < 0 then index == 0 else 0 <= local) && (elapsed < totalDuration ==> local < segments[index].duration)
      ensures elapsed >= totalDuration ==> index == |segments| - 1
    {
      var n := |segments|;
      TotalsAreNonNegative(segments);
      assert segments[..n] == segments;
      if elapsed >= totalDuration {
        TotalsOfPrefix(segments, n - 1);
        return n - 1, elapsed - (totalDuration - segments[n - 1].duration);
      }
      var i := 0;
      hide TotalDuration, TotalHits;
      while i < n
        invariant 0 <= i <= n && (i > 0 ==> 0 <= TotalDuration(segments[..i]) <= elapsed)
      {
        SearchBase(segments, i);
        TotalsAreNonNegative(segments[..i + 1]);
        if elapsed < cumulativeTimes[i] {
          return i, elapsed - (if i > 0 then cumulativeTimes[i - 1] else 0);
        }
        i := i + 1;
      }
      assert false;
      return n - 1, 0;
    }

    method ExpectedHits(elapsed: int) returns (hits: real)
      requires Valid() && initialised
      ensures hits == DueHits(segments, elapsed as real)
    {
      if elapsed <= 0 {
        return 0.0;
      }
      assert segments[..|segments|] == segments;
      if elapsed >= totalDuration {
        DueHitsAtEnd(segments, elapsed as real);
        return cumulativeHits[|cumulativeHits| - 1];
      }
      var index, local := FindSegment(elapsed);
      DueHitsFrom(segments, index, elapsed as real);
      DueHitsStart(segments[index..]);
      var base := if index > 0 then cumulativeHits[index - 1] else 0.0;
      hits := base + segments[index].rps * Seconds(local);
    }

    method TimeForHit(hit: int) returns (t: int)
      requires Valid() && initialised && 0 <= hit
      ensures t == HitTime(segments, hit)
    {
      if hit == 0 {
        return 0;
      }
      var target := hit as real;
      var time := 0;
      var i := 0;
      SearchStarts(segments, target);
      hide TotalDuration, TotalHits, DueTime, HitTime;
      while i < |segments|
        invariant 0 <= i <= |segments| && time == TotalDuration(segments[..i])
        invariant SearchedTo(segments, target, i)
      {
        var seg := segments[i];
        var base := if i > 0 then cumulativeHits[i - 1] else 0.0;
        SearchBase(segments, i);
        SearchStep(segments, target, i);
        if seg.rps != 0.0 && target <= cumulativeHits[i] {
          var into := Trunc((target - base) / seg.rps * NANO as real);
          return time + into;
        }
        time := time + seg.duration;
        i := i + 1;
      }
      SearchFails(segments, hit);
      return totalDuration;
    }

    method Pace(elapsed: int, hits: uint64) returns (answer: Pacing)
      requires Valid()
      modifies this
      ensures Valid()
      ensures answer == if 0 < max <= hits then Stop
                        else if !Usable() then Panic
                        else PaceAt(segments, max, elapsed, hits)
      ensures Usable() && !(0 < max <= hits) && elapsed < TotalDuration(segments) ==>
                if DueHits(segments, elapsed as real) >= (hits + 1) as real then answer == Wait(0)
                else answer == Wait(HitTime(segments, hits + 1) - elapsed)
    {
      if max > 0 && hits >= max {
        return Stop;
      }
      var ok := Initialize();
      if !ok {
        return Panic;
      }
      if elapsed >= totalDuration {
        return Stop;
      }
      PaceFollowsDue(segments, max, elapsed, hits);
      hide HitTime, DueHits, TotalDuration;
      var next := TimeForHit(hits + 1);
      if next > totalDuration {
        return Stop;
      }
      if elapsed >= next {
        return Wait(0);
      }
      return Wait(next - elapsed);
    }

    method Rate(elapsed: int) returns (ok: bool, rate: real)
      requires Valid()
      modifies this
      ensures Valid() && ok == Usable()
      ensures ok ==> rate == RateAt(segments, elapsed)
    {
      rate := 0.0;
      ok := Initialize();
      if ok && elapsed < totalDuration {
        var index, local := FindSegment(elapsed);
        RateAtFrom(segments, index, elapsed);
        rate := segments[index].rps;
      } else if ok {
        RateAtEnd(segments, elapsed);
      }
    }
  }

  // ---------- the index adds up prefixes ----------

  lemma {:induction false} TotalsOfPrefix(load: Load, i: nat)
    requires i < |load|
    ensures TotalDuration(load[..i + 1]) == TotalDuration(load[..i]) + load[i].duration
    ensures TotalHits(load[..i + 1]) == TotalHits(load[..i]) + SegmentHits(load[i])
  {
    if i > 0 {
      TotalsOfPrefix(load[1..], i - 1);
      assert load[..i + 1][1..] == load[1..][..i] && load[..i][1..] == load[1..][..i - 1];
    } else {
      assert load[..1][1..] == [] && load[..0] == [];
    }
  }

  lemma HitsOfSegment(seg: LoadSegment)
    ensures SegmentHits(seg) == seg.rps * Seconds(seg.duration)
  {
  }

  lemma {:induction false} TotalsSplit(load: Load, i: nat)
    requires i <= |load|
    ensures TotalHits(load) == TotalHits(load[..i]) + TotalHits(load[i..])
    ensures TotalDuration(load) == TotalDuration(load[..i]) + TotalDuration(load[i..])
    decreases |load| - i
  {
    if i < |load| {
      TotalsOfPrefix(load, i);
      TotalsSplit(load, i + 1);
      assert load[i..][1..] == load[i + 1..];
    } else {
      assert load[..i] == load;
    }
  }

  /** The hits due at a time in or after segment i, counted from its start. */
  lemma {:induction false} DueHitsFrom(load: Load, i: nat, x: real)
    requires AllProper(load) && i <= |load| && x >= TotalDuration(load[..i]) as real
    ensures DueHits(load, x) == TotalHits(load[..i]) + DueHits(load[i..], x - TotalDuration(load[..i]) as real)
  {
    if i == 0 {
      assert load[..0] == [] && load[0..] == load;
    } else {
      var d := load[0].duration;
      PrefixSplits(load, i);
      TotalsAreNonNegative(load[1..][..i - 1]);
      PastFirstSegment(load, x);
      DueHitsFrom(load[1..], i - 1, x - d as real);
      hide TotalDuration, TotalHits, DueHits, AllProper;
      assert x - d as real - TotalDuration(load[1..][..i - 1]) as real == x - TotalDuration(load[..i]) as real;
    }
  }

  lemma PrefixSplits(load: Load, i: nat)
    requires 0 < i <= |load|
    ensures TotalDuration(load[..i]) == load[0].duration + TotalDuration(load[1..][..i - 1])
    ensures TotalHits(load[..i]) == SegmentHits(load[0]) + TotalHits(load[1..][..i - 1])
    ensures load[1..][i - 1..] == load[i..]
  {
    assert load[..i][1..] == load[1..][..i - 1];
  }

  lemma PastFirstSegment(load: Load, x: real)
    requires AllProper(load) && load != [] && x >= load[0].duration as real
    ensures DueHits(load, x) == SegmentHits(load[0]) + DueHits(load[1..], x - load[0].duration as real)
    ensures AllProper(load[1..])
  {
  }

  lemma {:induction false} RateAtFrom(load: Load, i: nat, t: int)
    requires AllProper(load) && i < |load|
    requires t - TotalDuration(load[..i]) < load[i].duration
    requires i > 0 ==> 0 <= t - TotalDuration(load[..i])
    ensures RateAt(load, t) == load[i].rps
  {
    if i == 0 {
      assert load[..0] == [];
    } else {
      assert load[..i][1..] == load[1..][..i - 1];
      TotalsAreNonNegative(load[1..][..i - 1]);
      RateAtFrom(load[1..], i - 1, t - load[0].duration);
    }
  }

  lemma {:induction false} RateAtEnd(load: Load, t: int)
    requires AllProper(load) && t >= TotalDuration(load)
    ensures RateAt(load, t) == 0.0
  {
    if load == [] {
    } else {
      TotalsAreNonNegative(load[1..]);
      RateAtEnd(load[1..], t - load[0].duration);
    }
  }

  // ---------- the search of timeForHit ----------

  /** The target lies beyond the first i segments. */
  ghost predicate SearchedTo(load: Load, target: real, i: nat)
    requires i <= |load|
  {
    && target > TotalHits(load[..i])
    && DueTime(load, target) == TotalDuration(load[..i]) as real + DueTime(load[i..], target - TotalHits(load[..i]))
  }

  lemma SearchStarts(load: Load, target: real)
    requires target > 0.0
    ensures SearchedTo(load, target, 0) && TotalDuration(load[..0]) == 0
  {
    assert load[..0] == [] && load[0..] == load;
  }

  lemma SearchBase(load: Load, i: nat)
    requires i < |load|
    ensures i == 0 ==> TotalHits(load[..i]) == 0.0 && TotalDuration(load[..i]) == 0
    ensures i > 0 ==> load[..(i - 1) + 1] == load[..i]
    ensures TotalDuration(load[..i + 1]) == TotalDuration(load[..i]) + load[i].duration
  {
    TotalsOfPrefix(load, i);
  }

  /** Either the target falls into segment i, which fixes its time, or the search goes on. */
  lemma SearchStep(load: Load, target: real, i: nat)
    requires AllProper(load) && i < |load| && SearchedTo(load, target, i)
    ensures var seg, base := load[i], TotalHits(load[..i]);
            if seg.rps != 0.0 && target <= TotalHits(load[..i + 1]) then
              target <= TotalHits(load)
              && Trunc(DueTime(load, target)) == TotalDuration(load[..i]) + Trunc((target - base) / seg.rps * NANO as real)
            else
              SearchedTo(load, target, i + 1)
  {
    var seg, base := load[i], TotalHits(load[..i]);
    TotalsOfPrefix(load, i);
    assert load[i..][1..] == load[i + 1..];
    if seg.rps != 0.0 && target <= TotalHits(load[..i + 1]) {
      TotalsSplit(load, i + 1);
      TotalsAreNonNegative(load[i + 1..]);
      TotalsAreNonNegative(load[..i]);
      ScaledInverts(seg.rps, target - base);
      TruncAdds(TotalDuration(load[..i]), (target - base) / seg.rps * NANO as real);
    } else {
      ScaledIsMonotone(seg.rps, 0.0, 0.0);
    }
  }

  lemma TruncAdds(whole: int, x: real)
    requires whole >= 0 && x >= 0.0
    ensures Trunc(whole as real + x) == whole + Trunc(x)
  {
  }

  lemma SearchFails(load: Load, hit: int)
    requires hit > 0 && SearchedTo(load, hit as real, |load|)
    ensures HitTime(load, hit) == TotalDuration(load)
  {
    assert load[..|load|] == load;
  }

  // ---------- timeForHit inverts expectedHits ----------

  lemma HitTimeIsFloor(load: Load, n: int)
    requires AllProper(load) && 1 <= n && n as real <= TotalHits(load)
    ensures 0 <= HitTime(load, n) <= TotalDuration(load)
    ensures HitTime(load, n) as real <= DueTime(load, n as real) < HitTime(load, n) as real + 1.0
  {
    DueTimeInRange(load, n as real);
  }

  /** Every hit has a time within the load. */
  lemma HitTimeInRange(load: Load, n: int)
    requires AllProper(load)
    ensures 0 <= HitTime(load, n) <= TotalDuration(load)
  {
    TotalsAreNonNegative(load);
    if 1 <= n && n as real <= TotalHits(load) {
      HitTimeIsFloor(load, n);
    }
  }

  /** Before its nanosecond fewer than n hits are due; after it at least n are. */
  lemma HitTimeInverts(load: Load, n: int, t: int)
    requires AllProper(load) && 1 <= n && n as real <= TotalHits(load)
    ensures t < HitTime(load, n) ==> DueHits(load, t as real) < n as real
    ensures t > HitTime(load, n) ==> DueHits(load, t as real) >= n as real
    ensures DueHits(load, HitTime(load, n) as real) <= n as real
  {
    HitTimeIsFloor(load, n);
    DueTimeInverts(load, n as real);
    if t < HitTime(load, n) {
      DueTimeIsEarliest(load, n as real, t as real);
    } else if t > HitTime(load, n) {
      DueHitsAreMonotone(load, DueTime(load, n as real), t as real);
    }
    DueHitsAreMonotone(load, HitTime(load, n) as real, DueTime(load, n as real));
  }

  lemma HitTimeIsMonotone(load: Load, n: int, m: int)
    requires AllProper(load) && n <= m
    ensures HitTime(load, n) <= HitTime(load, m)
  {
    HitTimeInRange(load, n);
    HitTimeInRange(load, m);
    if 1 <= n && m as real <= TotalHits(load) {
      var limit := Fastest(load) + 1.0;
      DueTimesAreSpaced(load, n as real, m as real, limit);
      ScaledInverts(limit, (m - n) as real);
      HitTimeIsFloor(load, n);
      HitTimeIsFloor(load, m);
    }
  }

  /** Successive hits are at least the fastest segment's interval apart, rounded down. */
  lemma HitTimesAreSpaced(load: Load, n: int, limit: real)
    requires AllProper(load) && 1 <= n && (n + 1) as real <= TotalHits(load)
    requires limit > 0.0 && forall i :: 0 <= i < |load| ==> load[i].rps <= limit
    ensures HitTime(load, n + 1) - HitTime(load, n) >= Trunc(NANO as real / limit)
  {
    hide HitTime, DueTime, TotalHits, TotalDuration, AllProper;
    DueTimesAreSpaced(load, n as real, (n + 1) as real, limit);
    HitTimeIsFloor(load, n);
    HitTimeIsFloor(load, n + 1);
    OneInterval(n, limit);
    FloorsAreApart(HitTime(load, n), HitTime(load, n + 1), DueTime(load, n as real), DueTime(load, (n + 1) as real),
                   NANO as real / limit);
  }

  lemma OneInterval(n: int, limit: real)
    requires limit > 0.0
    ensures ((n + 1) as real - n as real) / limit * NANO as real == NANO as real / limit >= 0.0
  {
    assert (n + 1) as real - n as real == 1.0;
  }

  lemma FloorsAreApart(a: int, b: int, x: real, y: real, gap: real)
    requires a as real <= x < a as real + 1.0 && b as real <= y < b as real + 1.0 && y - x >= gap >= 0.0
    ensures b - a >= Trunc(gap)
  {
  }

  // ---------- whole runs ----------

  /** The check on the time of the next hit never ends a run: only `Max` and the end of the
      load do. */
  lemma StopsIff(load: Load, max: uint64, elapsed: int, hits: int)
    requires AllProper(load)
    ensures PaceAt(load, max, elapsed, hits).Stop? <==> 0 < max <= hits || elapsed >= TotalDuration(load)
  {
    HitTimeInRange(load, hits + 1);
  }

  /** A hit already due is sent at once, and one that is not waits for its nanosecond: the one before which
      fewer hits are due and after which at least as many, or the end for a hit that the load does not hold. */
  lemma PaceFollowsDue(load: Load, max: uint64, elapsed: int, hits: nat)
    requires AllProper(load) && elapsed < TotalDuration(load) && !(0 < max <= hits)
    ensures PaceAt(load, max, elapsed, hits).Wait?
    ensures var n, ns := (hits + 1) as real, PaceAt(load, max, elapsed, hits).ns;
            && (DueHits(load, elapsed as real) >= n ==> ns == 0)
            && (DueHits(load, elapsed as real) < n <= TotalHits(load) ==>
                  ns >= 0 && DueHits(load, (elapsed + ns) as real) <= n <= DueHits(load, (elapsed + ns + 1) as real))
            && (n > TotalHits(load) ==> elapsed + ns == TotalDuration(load))
    ensures DueHits(load, elapsed as real) < (hits + 1) as real ==>
              elapsed + PaceAt(load, max, elapsed, hits).ns == HitTime(load, hits + 1)
  {
    hide HitTime, TotalDuration, TotalHits, AllProper, DueHits;
    var n := hits + 1;
    StopsIff(load, max, elapsed, hits);
    DueIsAtMostTotal(load, elapsed);
    if n as real <= TotalHits(load) {
      HitTimeInRange(load, n);
      HitTimeInverts(load, n, HitTime(load, n) + 1);
      HitTimeInverts(load, n, elapsed);
    } else {
      BeyondIsAtEnd(load, n);
    }
  }

  lemma DueIsAtMostTotal(load: Load, t: int)
    requires AllProper(load) && t < TotalDuration(load)
    ensures DueHits(load, t as real) <= TotalHits(load)
  {
    TotalsAreNonNegative(load);
    DueHitsAtEnd(load, TotalDuration(load) as real);
    if t >= 0 {
      DueHitsAreMonotone(load, t as real, TotalDuration(load) as real);
    }
  }

  lemma BeyondIsAtEnd(load: Load, n: int)
    requires n > 0 && n as real > TotalHits(load)
    ensures HitTime(load, n) == TotalDuration(load)
  {
  }

  /** A driver that sleeps exactly as told sends each hit at its nanosecond, or at once if it was asked later:
      delays are caught up with. */
  lemma DelaysAreCaughtUp(load: Load, max: uint64, run: seq<Hit>, k: int)
    requires AllProper(load) && IsRun((e, h) => PaceAt(load, max, e, h), run) && 0 <= k < |run|
    requires SleepsAsTold((e, h) => PaceAt(load, max, e, h), run, k)
    ensures run[k].send == Max(run[k].call, HitTime(load, k + 1))
  {
    NotBeforeItsTime(load, max, run, k);
    hide HitTime, TotalDuration, AllProper;
    StopsIff(load, max, run[k].call, k);
  }

  lemma NotBeforeItsTime(load: Load, max: uint64, run: seq<Hit>, k: int)
    requires AllProper(load) && IsRun((e, h) => PaceAt(load, max, e, h), run) && 0 <= k < |run|
    ensures run[k].call < TotalDuration(load) && run[k].send >= HitTime(load, k + 1)
  {
    assert ObeysAt((e, h) => PaceAt(load, max, e, h), run, k);
  }

  /** Before the end of the load, the hits sent are never ahead of the hits due one nanosecond
      later, whatever the delays of the driver. */
  lemma NeverAhead(load: Load, max: uint64, run: seq<Hit>, k: int, t: int)
    requires AllProper(load) && IsRun((e, h) => PaceAt(load, max, e, h), run)
    requires 0 <= k < |run| && run[k].send <= t < TotalDuration(load)
    ensures (k + 1) as real <= DueHits(load, (t + 1) as real)
  {
    NotBeforeItsTime(load, max, run, k);
    HitTimeInverts(load, k + 1, t + 1);
  }

  /** A whole run sends at most one hit more than the load holds. */
  lemma AtMostOneExtraHit(load: Load, max: uint64, run: seq<Hit>)
    requires AllProper(load) && IsRun((e, h) => PaceAt(load, max, e, h), run)
    ensures |run| <= TotalHits(load).Floor + 1
  {
    var n := TotalHits(load).Floor;
    TotalsAreNonNegative(load);
    if |run| > n + 1 {
      var pace := (e, h) => PaceAt(load, max, e, h);
      assert ObeysAt(pace, run, n + 1);
      NotBeforeItsTime(load, max, run, n);
      assert run[n + 1].call >= TotalDuration(load);
      NotBeforeItsTime(load, max, run, n + 1);
    }
  }

  /** A driver without delays sends every hit at exactly its nanosecond. */
  lemma {:induction false} ExactDriverIsOnTime(load: Load, max: uint64, run: seq<Hit>, k: int)
    requires AllProper(load) && IsExactRun((e, h) => PaceAt(load, max, e, h), run)
    requires 0 <= k < |run|
    ensures run[k].send == HitTime(load, k + 1)
  {
    var pace := (e, h) => PaceAt(load, max, e, h);
    assert ExactAt(pace, run, k);
    if k == 0 {
    } else {
      ExactDriverIsOnTime(load, max, run, k - 1);
    }
    HitTimeIsMonotone(load, k, k + 1);
  }

  /** The run of a driver without delays, up to n hits. */
  function ExactRun(load: Load, n: nat): (run: seq<Hit>)
    ensures |run| == n && forall k :: 0 <= k < n ==> run[k] == Hit(HitTime(load, k), HitTime(load, k + 1))
  {
    seq(n, k => Hit(HitTime(load, k), HitTime(load, k + 1)))
  }

  lemma ExactTurn(load: Load, max: uint64, n: nat, k: nat)
    requires AllProper(load) && k <= n && HitTime(load, n) < TotalDuration(load) && !(0 < max <= n)
    ensures ObeysAt((e, h) => PaceAt(load, max, e, h), ExactRun(load, n + 1), k)
  {
    HitTimeInRange(load, k);
    HitTimeIsMonotone(load, k, k + 1);
    HitTimeIsMonotone(load, k, n);
    HitTimeInRange(load, k + 1);
    hide HitTime, AllProper, TotalDuration;
  }

  /** A run that sends one hit more than the load holds. */
  ghost predicate SendsExtraHit(load: Load, max: uint64, run: seq<Hit>) {
    IsRun((e, h) => PaceAt(load, max, e, h), run) && |run| == TotalHits(load).Floor + 1
  }

  /** Some run sends one hit more than the load holds exactly when the last of those comes before the end
      of the load and `Max` lets another through. */
  lemma ExtraHitIff(load: Load, max: uint64)
    requires AllProper(load)
    ensures TotalHits(load).Floor >= 0
    ensures (exists run: seq<Hit> :: SendsExtraHit(load, max, run)) <==>
            HitTime(load, TotalHits(load).Floor) < TotalDuration(load) && !(0 < max <= TotalHits(load).Floor)
  {
    TotalsAreNonNegative(load);
    hide HitTime, AllProper, TotalDuration, TotalHits, PaceAt;
    var n := TotalHits(load).Floor;
    var pace := (e, h) => PaceAt(load, max, e, h);
    if HitTime(load, n) < TotalDuration(load) && !(0 < max <= n) {
      var run := ExactRun(load, n + 1);
      forall k | 0 <= k < |run|
        ensures ObeysAt(pace, run, k)
      {
        ExactTurn(load, max, n, k);
      }
      assert SendsExtraHit(load, max, run);
    }
    forall run: seq<Hit> | SendsExtraHit(load, max, run)
      ensures HitTime(load, n) < TotalDuration(load) && !(0 < max <= n)
    {
      LastTurn(load, max, run, n);
    }
  }

  lemma LastTurn(load: Load, max: uint64, run: seq<Hit>, n: nat)
    requires AllProper(load) && IsRun((e, h) => PaceAt(load, max, e, h), run) && n < |run|
    ensures HitTime(load, n) < TotalDuration(load) && !(0 < max <= n)
  {
    assert ObeysAt((e, h) => PaceAt(load, max, e, h), run, n);
    hide AllProper, TotalDuration, TotalHits;
    NotBeforeItsTime(load, max, run, n);
    if n > 0 {
      NotBeforeItsTime(load, max, run, n - 1);
    }
  }
}
