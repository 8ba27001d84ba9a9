/** What `StepPacer.Pace` answers on the ramp, in terms of the rate and of the hits due (load/pacer.go). */
module StepAnswers {
  import opened GoNumbers
  import opened Driver
  import opened StepSchedules
  import opened StepRuns
  import opened StepCrossings

  /** The call at time e with k hits is on the ramp, neither behind schedule nor stopped by `Max`. */
  predicate OnRamp(p: Pacer, e: int, k: int)
    requires p.schedule.sd > 0
  {
    && 0 <= e && (p.schedule.constAt == 0 || e < p.schedule.constAt)
    && 0 <= k && (k + 1) as real > HitsAt(p.schedule, e) && HitsAt(p.schedule, e) < TWO_TO_64 as real
    && !(0 < p.max <= k)
  }

  /** The answer sleeps the whole nanoseconds in which the missing fraction comes in at the given rate. */
  predicate CoversJust(answer: Pacing, rate: real, missing: real) {
    answer.Wait? && answer.ns >= 0 && Seconds(answer.ns) * rate <= missing < Seconds(answer.ns + 1) * rate
  }

  /** Times e and f lie in one step. */
  predicate WithinStep(s: Schedule, e: int, f: int)
    requires s.sd > 0
  {
    0 <= e <= f < (e / s.sd + 1) * s.sd
  }

  /** On the ramp the pacer stops exactly where the whole intervals of k hits exceed an int64. */
  lemma RampStopsIff(p: Pacer, e: int, k: int)
    requires p.schedule.Valid() && OnRamp(p, e, k) && RateAt(p.schedule, e) > 0.0
    ensures PaceAt(p, e, k).Stop? <==> k * (NANO as real / RateAt(p.schedule, e)).Floor > MAX_INT64
  {
    OnRampIsPaced(p, e, k);
    hide HitsAt, RateAt, WholeHits, PaceAt, OnRamp, CoversJust, RampPace;
    RampPaceIs(RateAt(p.schedule, e), HitsAt(p.schedule, e), k);
  }

  /** Otherwise it waits the whole nanoseconds in which the missing fraction of a hit comes in at the present
      rate. */
  lemma RampFollowsRate(p: Pacer, e: int, k: int)
    requires p.schedule.Valid() && OnRamp(p, e, k) && RateAt(p.schedule, e) > 0.0 && !PaceAt(p, e, k).Stop?
    ensures CoversJust(PaceAt(p, e, k), RateAt(p.schedule, e), (k + 1) as real - HitsAt(p.schedule, e))
  {
    OnRampIsPaced(p, e, k);
    hide HitsAt, RateAt, WholeHits, PaceAt, OnRamp, CoversJust, RampPace;
    RampPaceIs(RateAt(p.schedule, e), HitsAt(p.schedule, e), k);
  }

  lemma RampPaceIs(rate: real, expected: real, k: nat)
    requires rate > 0.0 && (k + 1) as real > expected
    ensures RampPace(rate, expected, k).Stop? <==> k * (NANO as real / rate).Floor > MAX_INT64
    ensures !RampPace(rate, expected, k).Stop? ==> CoversJust(RampPace(rate, expected, k), rate, (k + 1) as real - expected)
  {
    SleepIsFloor(rate, (k + 1) as real - expected);
    GuardIsProduct(rate, k);
    hide SleepFor, Trunc, TruncDiv, Seconds;
  }

  lemma OnRampIsPaced(p: Pacer, e: int, k: int)
    requires p.schedule.Valid() && OnRamp(p, e, k)
    ensures PaceAt(p, e, k) == RampPace(RateAt(p.schedule, e), HitsAt(p.schedule, e), k) && k >= 0
    ensures (k + 1) as real > HitsAt(p.schedule, e)
  {
    HitsAreNonNegative(p.schedule, e);
    WholeHitsAreExact(p.schedule, e);
    hide HitsAt, RateAt, WholeHits, RampPace;
    AtMostFloor(HitsAt(p.schedule, e), k);
  }

  lemma AtMostFloor(x: real, k: int)
    requires 0.0 <= x < (k + 1) as real
    ensures Trunc(x) <= k
  {
  }

  lemma SleepIsFloor(rate: real, missing: real)
    requires rate > 0.0 && missing > 0.0
    ensures SleepFor(rate, missing) >= 0
    ensures Seconds(SleepFor(rate, missing)) * rate <= missing < Seconds(SleepFor(rate, missing) + 1) * rate
  {
    var interval := NANO as real / rate;
    assert interval * rate == NANO as real && interval > 0.0;
    var x := interval * missing;
    assert x > 0.0;
    assert x * rate == NANO as real * missing;
    var w := Trunc(x);
    InSeconds(w, rate);
    InSeconds(w + 1, rate);
    ProductIsMonotoneReal(w as real, x, rate);
    StrictProduct(x, (w + 1) as real, rate);
  }

  lemma InSeconds(w: int, rate: real)
    ensures Seconds(w) * rate * NANO as real == w as real * rate
  {
  }

  lemma StrictProduct(x: real, y: real, rate: real)
    requires x < y && rate > 0.0
    ensures x * rate < y * rate
  {
  }

  lemma GuardIsProduct(rate: real, k: nat)
    requires rate > 0.0
    ensures var n := Trunc(NANO as real / rate);
            && n == (NANO as real / rate).Floor >= 0
            && (n != 0 && TruncDiv(MAX_INT64, n) < k <==> k * n > MAX_INT64)
  {
    var n := Trunc(NANO as real / rate);
    assert NANO as real / rate > 0.0;
    if n > 0 {
      FitsIffAtMostQuotient(MAX_INT64, n, k);
    }
  }

  /** At rate zero the wait is left to the implementation. */
  lemma UnspecifiedIff(p: Pacer, e: int, k: int)
    requires p.schedule.Valid() && OnRamp(p, e, k)
    ensures PaceAt(p, e, k).Unspecified? <==> RateAt(p.schedule, e) == 0.0
  {
    OnRampIsPaced(p, e, k);
    hide HitsAt, RateAt, WholeHits, PaceAt, OnRamp, SleepFor;
  }

  /** A call that finds the run behind schedule sends at once. */
  lemma BehindIsAtOnce(p: Pacer, e: int, k: nat)
    requires p.schedule.Valid() && 0 <= e && HitsAt(p.schedule, e) < TWO_TO_64 as real && !(0 < p.max <= k)
    requires (k + 1) as real <= HitsAt(p.schedule, e)
    ensures PaceAt(p, e, k) == Wait(0)
  {
    WholeHitsAreExact(p.schedule, e);
    hide HitsAt;
    BehindIsSentAtOnce(p, e, k);
  }

  /** A driver that sleeps exactly as told is on time within a step of the ramp: a hit not yet due goes out
      in the very nanosecond in which it falls due. */
  lemma PromptHitIsOnTime(p: Pacer, run: seq<Hit>, k: int)
    requires p.schedule.Valid() && NoJump(p.schedule) && IsRun((e, h) => PaceAt(p, e, h), run) && 0 <= k < |run|
    requires SleepsAsTold((e, h) => PaceAt(p, e, h), run, k)
    requires OnRamp(p, run[k].call, k) && WithinStep(p.schedule, run[k].call, run[k].send)
    ensures HitsAt(p.schedule, run[k].send) <= (k + 1) as real <= HitsAt(p.schedule, run[k].send + 1)
  {
    SendsAreOrdered((e, h) => PaceAt(p, e, h), run, k, k);
    hide HitsAt, RateAt, NoJump, WholeHits, PaceAt, OnRamp;
    InStepIsNeverAhead(p, run, k);
    NotAfterItsTime(p, run[k].call, run[k].send, k);
  }

  lemma NotAfterItsTime(p: Pacer, e: int, f: int, k: int)
    requires p.schedule.Valid() && NoJump(p.schedule) && OnRamp(p, e, k)
    requires PaceAt(p, e, k).Wait? && f == e + Max(PaceAt(p, e, k).ns, 0) && WithinStep(p.schedule, e, f)
    ensures HitsAt(p.schedule, f) <= (k + 1) as real
  {
    var s := p.schedule;
    OnRampIsPaced(p, e, k);
    UnspecifiedIff(p, e, k);
    hide *;
    RampFollowsRate(p, e, k);
    AtMostMissing(PaceAt(p, e, k), s, e, f, (k + 1) as real - HitsAt(s, e));
    GrowsInStep(s, e, f);
  }

  /** What comes in between two times at the rate of the first. */
  function Gained(s: Schedule, e: int, f: int): real
    requires s.sd > 0
  {
    Seconds(f - e) * RateAt(s, e)
  }

  lemma AtMostMissing(answer: Pacing, s: Schedule, e: int, f: int, missing: real)
    requires s.sd > 0 && CoversJust(answer, RateAt(s, e), missing) && f == e + Max(answer.ns, 0)
    ensures Gained(s, e, f) <= missing
  {
    hide Seconds, RateAt;
    assert f - e == answer.ns;
  }

  /** Inside a step the total grows at the rate of its first time. */
  lemma GrowsInStep(s: Schedule, e: int, f: int)
    requires s.Valid() && NoJump(s) && WithinStep(s, e, f)
    ensures HitsAt(s, f) == HitsAt(s, e) + Gained(s, e, f)
  {
    hide HitsAt, RateAt, NoJump, Seconds, StepRate;
    var j := e / s.sd + 1;
    StepOf(e, s.sd);
    assert j * s.sd == (j - 1) * s.sd + s.sd;
    HitsToBoundary(s, e, j);
    HitsToBoundary(s, f, j);
    SecondsTimesRate(j * s.sd - f, f - e, StepRate(s, j - 1));
    assert j * s.sd - f + (f - e) == j * s.sd - e;
  }
}
