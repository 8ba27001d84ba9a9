/** Runs paced by a stepped load: the answer of `StepPacer.Pace`, and what every driver that
    obeys it can rely on (load/pacer.go). */
module StepRuns {
  import opened GoNumbers
  import opened Driver
  import opened ConstantPacers
  import opened StepSchedules

  /** An initialised `StepPacer`. */
  datatype Pacer = Pacer(schedule: Schedule, stopMax: uint64, max: uint64, baseHits: uint64)

  /** `uint64(p.hits(t))` */
  function WholeHits(s: Schedule, t: int): uint64
    requires s.sd > 0
  {
    ToUint64(Trunc(HitsAt(s, t)))
  }

  function PaceAt(p: Pacer, elapsed: int, hits: int): Pacing
    requires p.schedule.Valid()
  {
    var s := p.schedule;
    if p.max > 0 && hits >= p.max then
      Stop
    else if hits < WholeHits(s, elapsed) then
      Wait(0)
    else if s.constAt > 0 && elapsed >= s.constAt then
      HandOver(p, elapsed, hits)
    else
      RampPace(RateAt(s, elapsed), HitsAt(s, elapsed), hits)
  }

  /** The constant part is paced by the `Stop` pacer, counting from the switch. */
  function HandOver(p: Pacer, elapsed: int, hits: int): Pacing {
    if p.schedule.stop == 0 then
      Stop
    else
      ConstantPacer(p.schedule.stop, p.stopMax).Pace(elapsed - p.schedule.constAt, ToUint64(hits - p.baseHits))
  }

  /** The ramp sleeps for the fraction of a hit still missing. At rate zero the code converts
      an infinite interval, which Go leaves to the implementation. */
  function RampPace(rate: real, expected: real, hits: int): Pacing {
    if rate <= 0.0 then
      Unspecified
    else
      var interval := NANO as real / rate;
      var n := Trunc(interval);
      if n != 0 && TruncDiv(MAX_INT64, n) < hits then
        Stop
      else
        Wait(SleepFor(rate, (hits + 1) as real - expected))
  }

  /** Nanoseconds to sleep for the given fraction of a hit: `interval * delta`, truncated. */
  function SleepFor(rate: real, missing: real): int
    requires rate > 0.0
  {
    Trunc(NANO as real / rate * missing)
  }

  // ---------- the rate over time ----------

  /** Without a load duration and with a final rate ahead of it, the rate moves monotonically
      from the start to the final rate, never leaves that range, and stays at the final rate
      from `constAt` on. */
  lemma RateMovesToStop(start: uint64, step: int, sd: int, stop: uint64, t: int, u: int)
    requires start > 0 && step != 0 && sd > 0 && stop > 0 && PointsToStop(start, step, stop)
    requires 0 <= t <= u
    ensures var s := Resolve(start, step, sd, stop, 0);
            && (t >= s.constAt ==> RateAt(s, t) == stop as real)
            && (step > 0 ==> start as real <= RateAt(s, t) <= RateAt(s, u) <= stop as real)
            && (step < 0 ==> start as real >= RateAt(s, t) >= RateAt(s, u) >= stop as real)
  {
    hide RateAt, SwitchStep, Resolve;
    RateBetween(start, step, sd, stop, t);
    RateBetween(start, step, sd, stop, u);
    StepsAreOrdered(t, u, sd);
    RampIsMonotone(start, step, t / sd, u / sd);
    RampIsMonotone(start, step, 0, u / sd);
  }

  /** The switch comes one step after the last step that has not passed the final rate. */
  lemma SwitchTime(start: uint64, step: int, sd: int, stop: uint64)
    requires start > 0 && step != 0 && sd > 0 && stop > 0
    ensures var s := Resolve(start, step, sd, stop, 0);
            && (PointsToStop(start, step, stop) ==>
                  s.constAt == ((if step > 0 then (stop - start) / step else (start - stop) / -step) + 1) * sd
                  && s.constAt >= sd)
            && (!PointsToStop(start, step, stop) ==> s.constAt == 0)
  {
    SwitchStepIsFirst(start, step, stop, 0);
    if PointsToStop(start, step, stop) {
      ProductIsMonotone(1, SwitchStep(start, step, stop), sd);
    }
  }

  /** With a load duration the ramp lasts that long, and then the rate is the explicit final one, or that of
      the ramp at the end of the load. */
  lemma RateWithLoadDuration(start: uint64, step: int, sd: int, stop: uint64, loadDuration: int, t: nat)
    requires start > 0 && step != 0 && sd > 0 && loadDuration > 0
    requires stop == 0 ==> 0 <= start + step * (loadDuration / sd) < TWO_TO_64
    ensures var r, last := start + step * (t / sd), start + step * (loadDuration / sd);
            RateAt(Resolve(start, step, sd, stop, loadDuration), t) ==
            if t < loadDuration then if r < 0 then 0.0 else r as real
            else if stop > 0 then stop as real
            else last as real
  {
    RateIs(Resolve(start, step, sd, stop, loadDuration), t);
    hide RateAt;
  }

  lemma StepsAreOrdered(t: int, u: int, sd: int)
    requires 0 <= t <= u && 0 < sd
    ensures 0 <= t / sd <= u / sd
  {
    StepOf(t, sd);
    StepOf(u, sd);
    ProductIsMonotone(u / sd, t / sd, sd);
  }

  lemma RampIsMonotone(start: int, step: int, j: int, k: int)
    requires 0 <= j <= k
    ensures step > 0 ==> start <= start + step * j <= start + step * k
    ensures step < 0 ==> start >= start + step * j >= start + step * k
  {
    if step >= 0 {
      ProductIsMonotone(j, k, step);
      ProductIsMonotone(0, j, step);
    } else {
      ProductIsMonotone(j, k, -step);
      ProductIsMonotone(0, j, -step);
    }
  }

  /** The rate at one instant: exact on the ramp, final afterwards. */
  lemma RateBetween(start: uint64, step: int, sd: int, stop: uint64, t: int)
    requires start > 0 && step != 0 && sd > 0 && stop > 0 && PointsToStop(start, step, stop) && 0 <= t
    ensures var s, r := Resolve(start, step, sd, stop, 0), start + step * (t / sd);
            && (t >= s.constAt ==> RateAt(s, t) == stop as real)
            && (t < s.constAt ==> RateAt(s, t) == r as real && (if step > 0 then r <= stop else r >= stop))
  {
    var s := Resolve(start, step, sd, stop, 0);
    ResolveIsValid(start, step, sd, stop, 0);
    SwitchStepIsFirst(start, step, stop, 0);
    hide SwitchStep;
    ProductIsMonotone(1, SwitchStep(start, step, stop), sd);
    var k := t / sd;
    StepOf(t, sd);
    RateInRamp(s, t, k);
    SwitchStepIsFirst(start, step, stop, k);
    ProductIsMonotone(SwitchStep(start, step, stop), k, sd);
    RampIsMonotone(start, step, 0, k);
  }

  // ---------- a load that does not slow down is never ahead of its schedule ----------

  /** The running total is an integral and the rate never falls. */
  ghost predicate NeverSlows(s: Schedule) {
    && s.Valid() && NoJump(s)
    && forall t, u :: 0 <= t <= u ==> RateAt(s, t) <= RateAt(s, u)
  }

  /** The step whose rate is the last one before the switch. */
  function LastRampStep(s: Schedule): int
    requires s.sd > 0
  {
    (s.constAt - 1) / s.sd
  }

  /** A schedule never slows down if and only if it has no jump inside a step, its ramp rises (or has
      one step only) and the final rate, where there is one, is not below the last rate of the ramp. */
  lemma NeverSlowsIff(s: Schedule)
    requires s.Valid()
    ensures NeverSlows(s) <==>
              && NoJump(s)
              && (s.step > 0 || (s.constAt > 0 && LastRampStep(s) == 0))
              && (s.constAt > 0 ==> RampRate(s, LastRampStep(s)) <= s.stop as real)
  {
    hide RateAt, NoJump, RampRate;
    if NeverSlows(s) {
      SlowsSomewhere(s);
    } else if NoJump(s) && (s.step > 0 || (s.constAt > 0 && LastRampStep(s) == 0))
              && (s.constAt > 0 ==> RampRate(s, LastRampStep(s)) <= s.stop as real) {
      forall t, u | 0 <= t <= u
        ensures RateAt(s, t) <= RateAt(s, u)
      {
        RateRises(s, t, u);
      }
    }
  }

  lemma SlowsSomewhere(s: Schedule)
    requires NeverSlows(s)
    ensures s.step > 0 || (s.constAt > 0 && LastRampStep(s) == 0)
    ensures s.constAt > 0 ==> RampRate(s, LastRampStep(s)) <= s.stop as real
  {
    hide RateAt, NoJump, RampRate;
    FirstSteps(s);
    assert RateAt(s, 0) <= RateAt(s, s.sd);
    if s.constAt > 0 {
      StepOf(s.constAt - 1, s.sd);
      RateInRamp(s, s.constAt - 1, LastRampStep(s));
      RateInRamp(s, s.constAt, s.constAt / s.sd) by {
        StepOf(s.constAt, s.sd);
      }
      assert RateAt(s, s.constAt - 1) <= RateAt(s, s.constAt);
    }
  }

  /** A falling ramp is slower in its second step, if it gets there. */
  lemma FirstSteps(s: Schedule)
    requires s.Valid()
    ensures s.step < 0 && (s.constAt == 0 || LastRampStep(s) >= 1) ==> RateAt(s, 0) > RateAt(s, s.sd)
    ensures s.constAt > 0 ==> LastRampStep(s) >= 0
  {
    hide RateAt;
    RateInRamp(s, 0, 0);
    RateInRamp(s, s.sd, 1);
    if s.constAt > 0 {
      StepOf(s.constAt - 1, s.sd);
      ProductIsMonotone(1, LastRampStep(s), s.sd);
    }
  }

  lemma RateRises(s: Schedule, t: int, u: int)
    requires s.Valid() && 0 <= t <= u
    requires s.step > 0 || (s.constAt > 0 && LastRampStep(s) == 0)
    requires s.constAt > 0 ==> RampRate(s, LastRampStep(s)) <= s.stop as real
    ensures RateAt(s, t) <= RateAt(s, u)
  {
    hide RateAt, RampRate;
    RateInRamp(s, t, t / s.sd) by { StepOf(t, s.sd); }
    RateInRamp(s, u, u / s.sd) by { StepOf(u, s.sd); }
    if s.constAt == 0 || u < s.constAt {
      StepsAreOrdered(t, u, s.sd);
      OneStepOrRising(s, t, u);
    } else if t < s.constAt {
      StepsAreOrdered(t, s.constAt - 1, s.sd);
      OneStepOrRising(s, t, s.constAt - 1);
    }
  }

  lemma OneStepOrRising(s: Schedule, t: int, u: int)
    requires s.Valid() && 0 <= t <= u && (s.constAt > 0 ==> u < s.constAt)
    requires s.step > 0 || (s.constAt > 0 && LastRampStep(s) == 0)
    ensures RampRate(s, t / s.sd) <= RampRate(s, u / s.sd)
  {
    hide RampRate;
    StepsAreOrdered(t, u, s.sd);
    if s.step > 0 {
      RampRateRises(s, t / s.sd, u / s.sd);
    } else {
      StepsAreOrdered(u, s.constAt - 1, s.sd);
    }
  }

  lemma RampRateRises(s: Schedule, j: int, k: int)
    requires s.step > 0 && 0 <= j <= k
    ensures RampRate(s, j) <= RampRate(s, k)
  {
    RampIsMonotone(s.start, s.step, j, k);
  }

  /** A rising load without a load duration, and one whose final rate is derived from its ramp without
      wrapping, never slow down. */
  lemma RisingLoadNeverSlows(start: uint64, step: int, sd: int, stop: uint64, loadDuration: int)
    requires start > 0 && step > 0 && sd > 0
    requires loadDuration <= 0 || (stop == 0 && start + step * (loadDuration / sd) < TWO_TO_64)
    ensures NeverSlows(Resolve(start, step, sd, stop, loadDuration))
  {
    var s := Resolve(start, step, sd, stop, loadDuration);
    ResolveIsValid(start, step, sd, stop, loadDuration);
    if loadDuration > 0 {
      DerivedRateIsNatural(start, step, sd, loadDuration);
    }
    ResolveDoesNotJump(start, step, sd, stop, loadDuration);
    LastRateIsReached(start, step, sd, stop, loadDuration);
    hide Resolve, NoJump, RampRate, NeverSlows, LastRampStep;
    NeverSlowsIff(s);
  }

  lemma DerivedRateIsNatural(start: uint64, step: int, sd: int, loadDuration: int)
    requires step > 0 && sd > 0 && loadDuration > 0
    ensures 0 <= start + step * (loadDuration / sd)
  {
    ProductIsNatural(step, loadDuration / sd);
  }

  lemma LastRateIsReached(start: uint64, step: int, sd: int, stop: uint64, loadDuration: int)
    requires start > 0 && step > 0 && sd > 0
    requires loadDuration <= 0 || (stop == 0 && start + step * (loadDuration / sd) < TWO_TO_64)
    ensures var s := Resolve(start, step, sd, stop, loadDuration);
            s.constAt > 0 ==> RampRate(s, LastRampStep(s)) <= s.stop as real
  {
    var s := Resolve(start, step, sd, stop, loadDuration);
    if loadDuration > 0 {
      DerivedRateIsNatural(start, step, sd, loadDuration);
      SmallIsExact(start + step * (loadDuration / sd));
      StepsAreOrdered(loadDuration - 1, loadDuration, sd);
      RampIsMonotone(start, step, LastRampStep(s), loadDuration / sd);
    } else if stop > 0 && s.constAt > 0 {
      var n := SwitchStep(start, step, stop);
      LastStepOf(n, sd);
      SwitchStepIsFirst(start, step, stop, n - 1);
      hide SwitchStep;
    }
  }

  lemma SmallIsExact(x: int)
    requires 0 <= x < TWO_TO_64
    ensures ToUint64(x) == x
  {
  }

  lemma LastStepOf(n: int, sd: int)
    requires sd > 0 && n * sd > 0
    ensures n > 0 && (n * sd - 1) / sd == n - 1
  {
    ProductIsMonotone(n, 0, sd);
    assert (n - 1) * sd == n * sd - sd;
    QuotientIsUnique(n * sd - 1, sd, n - 1);
  }

  /** The rate does not fall below that of time e until time f. */
  ghost predicate RateHolds(s: Schedule, e: int, f: int)
    requires s.sd > 0
  {
    forall t :: e <= t < f ==> RateAt(s, t) >= RateAt(s, e)
  }

  /** While the rate holds, hits come in at no less than the rate of time e. */
  lemma {:induction false} HitsGrow(s: Schedule, e: nat, d: nat)
    requires s.Valid() && NoJump(s) && RateHolds(s, e, e + d)
    ensures HitsAt(s, e + d) >= HitsAt(s, e) + Seconds(d) * RateAt(s, e)
  {
    hide HitsAt, RateAt, Seconds, NoJump;
    if d == 0 {
      assert Seconds(0) == 0.0 by { ZeroSeconds(); }
    } else {
      HitsGrow(s, e, d - 1);
      StepOf(e + d - 1, s.sd);
      NoJumpIsSteady(s, (e + d - 1) / s.sd);
      HitsIncrement(s, e + d - 1, (e + d - 1) / s.sd);
      SecondsTimesRate(d - 1, 1, RateAt(s, e));
    }
  }

  lemma ZeroSeconds()
    ensures Seconds(0) == 0.0
  {
  }

  /** Sleeping for the truncated wait and one nanosecond more covers the missing fraction. */
  lemma WaitCoversFraction(rate: real, missing: real)
    requires rate > 0.0 && missing >= 0.0
    ensures SleepFor(rate, missing) >= 0
    ensures Seconds(SleepFor(rate, missing) + 1) * rate >= missing
  {
    var x := NANO as real / rate * missing;
    assert NANO as real / rate >= 0.0;
    assert x >= 0.0;
    var w := Trunc(x) + 1;
    assert w as real >= x;
    assert x * rate == NANO as real * missing by {
      assert NANO as real / rate * rate == NANO as real;
    }
    ProductIsMonotoneReal(x, w as real, rate);
    assert Seconds(w) * rate == w as real * rate / NANO as real;
  }

  /** In every run of a schedule without jumps, rising or falling, a hit issued by the catch-up branch
      is due one nanosecond after it is sent at the latest, and so is a hit issued by the ramp if the
      rate does not fall while it sleeps. */
  lemma RampIsNeverAhead(p: Pacer, run: seq<Hit>, k: int)
    requires p.schedule.Valid() && NoJump(p.schedule) && IsRun((e, h) => PaceAt(p, e, h), run)
    requires 0 <= k < |run|
    requires k < WholeHits(p.schedule, run[k].call)
      || ((p.schedule.constAt == 0 || run[k].call < p.schedule.constAt)
          && RateHolds(p.schedule, run[k].call, run[k].send + 1))
    ensures (k + 1) as real <= HitsAt(p.schedule, run[k].send + 1)
  {
    var pace := (e, h) => PaceAt(p, e, h);
    SendsAreOrdered(pace, run, k, k);
    assert ObeysAt(pace, run, k);
    hide HitsAt, RateAt, NoJump, WholeHits;
    if k < WholeHits(p.schedule, run[k].call) {
      CaughtUpIsDue(p.schedule, run[k], k);
    } else {
      NeverAheadAt(p, run[k], k);
    }
  }

  lemma CaughtUpIsDue(s: Schedule, hit: Hit, k: nat)
    requires s.Valid() && NoJump(s) && k < WholeHits(s, hit.call) && 0 <= hit.call <= hit.send
    ensures (k + 1) as real <= HitsAt(s, hit.send + 1)
  {
    hide HitsAt, WholeHits, NoJump;
    WholeHitsAreHits(s, hit.call);
    HitsIsIntegral(s, hit.call);
    HitsIsIntegral(s, hit.send + 1);
    IntegralIsMonotone(s, hit.call, hit.send + 1);
  }

  lemma NeverAheadAt(p: Pacer, hit: Hit, k: nat)
    requires p.schedule.Valid() && NoJump(p.schedule)
    requires p.schedule.constAt == 0 || hit.call < p.schedule.constAt
    requires PaceAt(p, hit.call, k).Wait? && 0 <= hit.call <= hit.send
    requires hit.send >= hit.call + Max(PaceAt(p, hit.call, k).ns, 0)
    requires RateHolds(p.schedule, hit.call, hit.send + 1)
    ensures (k + 1) as real <= HitsAt(p.schedule, hit.send + 1)
  {
    hide HitsAt, RateAt, Seconds, NoJump, PaceAt, WholeHits, RateHolds;
    var s := p.schedule;
    var gained := Seconds(hit.send + 1 - hit.call) * RateAt(s, hit.call);
    SpanSuffices(p, hit, k);
    assert gained >= (k + 1) as real - HitsAt(s, hit.call);
    HitsGrowUntil(s, hit.call, hit.send + 1, gained);
  }

  lemma HitsGrowUntil(s: Schedule, e: int, f: int, gained: real)
    requires s.Valid() && NoJump(s) && 0 <= e <= f && RateHolds(s, e, f)
    requires gained == Seconds(f - e) * RateAt(s, e)
    ensures HitsAt(s, f) >= HitsAt(s, e) + gained
  {
    hide HitsAt, RateAt, Seconds, NoJump, RateHolds;
    var d := f - e;
    assert e + d == f;
    HitsGrow(s, e, d);
    assert HitsAt(s, e + d) == HitsAt(s, f);
  }

  /** A load that never slows down is never ahead before the hand-over, however many steps a wait
      crosses and whatever the delays of the driver. */
  lemma RisingIsNeverAhead(p: Pacer, run: seq<Hit>, k: int)
    requires NeverSlows(p.schedule) && IsRun((e, h) => PaceAt(p, e, h), run) && 0 <= k < |run|
    requires k < WholeHits(p.schedule, run[k].call) || p.schedule.constAt == 0 || run[k].call < p.schedule.constAt
    ensures (k + 1) as real <= HitsAt(p.schedule, run[k].send + 1)
  {
    SendsAreOrdered((e, h) => PaceAt(p, e, h), run, k, k);
    assert RateHolds(p.schedule, run[k].call, run[k].send + 1);
    hide HitsAt, RateAt, NoJump, WholeHits, PaceAt;
    RampIsNeverAhead(p, run, k);
  }

  /** On any schedule without jumps, a falling one too, a hit that is sent before its step ends is never
      ahead. */
  lemma InStepIsNeverAhead(p: Pacer, run: seq<Hit>, k: int)
    requires p.schedule.Valid() && NoJump(p.schedule) && IsRun((e, h) => PaceAt(p, e, h), run)
    requires 0 <= k < |run|
    requires p.schedule.constAt == 0 || run[k].call < p.schedule.constAt
    requires run[k].send + 1 <= (run[k].call / p.schedule.sd + 1) * p.schedule.sd
    ensures (k + 1) as real <= HitsAt(p.schedule, run[k].send + 1)
  {
    SendsAreOrdered((e, h) => PaceAt(p, e, h), run, k, k);
    RateHoldsInStep(p.schedule, run[k].call, run[k].send + 1);
    hide HitsAt, RateAt, NoJump, WholeHits, PaceAt;
    RampIsNeverAhead(p, run, k);
  }

  lemma RateHoldsInStep(s: Schedule, e: int, f: int)
    requires s.Valid() && NoJump(s) && 0 <= e && f <= (e / s.sd + 1) * s.sd
    ensures RateHolds(s, e, f)
  {
    hide RateAt, NoJump;
    var k := e / s.sd;
    StepOf(e, s.sd);
    assert (k + 1) * s.sd == k * s.sd + s.sd;
    NoJumpIsSteady(s, k);
  }

  lemma SpanSuffices(p: Pacer, hit: Hit, k: nat)
    requires p.schedule.Valid()
    requires k < WholeHits(p.schedule, hit.call) || p.schedule.constAt == 0 || hit.call < p.schedule.constAt
    requires PaceAt(p, hit.call, k).Wait? && 0 <= hit.call
    requires hit.send >= hit.call + Max(PaceAt(p, hit.call, k).ns, 0)
    ensures Seconds(hit.send + 1 - hit.call) * RateAt(p.schedule, hit.call) >= (k + 1) as real - HitsAt(p.schedule, hit.call)
  {
    hide HitsAt, RateAt, Seconds, PaceAt, WholeHits, SleepFor;
    var s := p.schedule;
    var missing := (k + 1) as real - HitsAt(s, hit.call);
    var span := hit.send + 1 - hit.call;
    WholeHitsAreHits(s, hit.call);
    if k < WholeHits(s, hit.call) || missing <= 0.0 {
      SecondsIsPositive(span);
      ProductIsMonotoneReal(0.0, Seconds(span), RateAt(s, hit.call));
    } else {
      RampAnswer(p, hit.call, k, RateAt(s, hit.call), missing);
      CoverMissing(RateAt(s, hit.call), missing, Max(PaceAt(p, hit.call, k).ns, 0), span);
    }
  }

  /** An answer of the ramp branch, without the overflow guard. */
  lemma RampAnswer(p: Pacer, elapsed: int, hits: int, rate: real, missing: real)
    requires p.schedule.Valid() && PaceAt(p, elapsed, hits).Wait? && hits >= WholeHits(p.schedule, elapsed)
    requires p.schedule.constAt == 0 || elapsed < p.schedule.constAt
    requires rate == RateAt(p.schedule, elapsed) && missing == (hits + 1) as real - HitsAt(p.schedule, elapsed)
    ensures rate > 0.0 && PaceAt(p, elapsed, hits) == Wait(SleepFor(rate, missing))
  {
    hide HitsAt, RateAt, SleepFor;
  }

  lemma WholeHitsAreHits(s: Schedule, t: int)
    requires s.Valid() && t >= 0
    ensures 0.0 <= WholeHits(s, t) as real <= HitsAt(s, t)
  {
    HitsAreNonNegative(s, t);
    hide HitsAt;
  }

  lemma CoverMissing(rate: real, missing: real, slept: int, span: int)
    requires rate > 0.0 && missing > 0.0
    requires slept >= SleepFor(rate, missing) && span >= slept + 1
    ensures Seconds(span) * rate >= missing
  {
    WaitCoversFraction(rate, missing);
    hide Seconds, SleepFor;
    var w := SleepFor(rate, missing);
    SecondsIsMonotone(w + 1, span);
    ProductIsMonotoneReal(Seconds(w + 1), Seconds(span), rate);
  }

  lemma SecondsIsMonotone(a: int, b: int)
    requires a <= b
    ensures Seconds(a) <= Seconds(b)
  {
  }

  // ---------- the hand-over to the constant part ----------

  /** The first step boundary after the switch. */
  function NextBoundary(s: Schedule): int
    requires s.sd > 0
  {
    (s.constAt / s.sd + 1) * s.sd
  }

  /** After the first boundary past the switch, the total only rises. */
  lemma {:induction false} RisesAfterSwitch(s: Schedule, t: int)
    requires s.Valid() && s.constAt > 0 && t >= NextBoundary(s)
    ensures HitsAt(s, t) >= HitsAt(s, NextBoundary(s))
    decreases t
  {
    NextBoundaryIsLater(s);
    hide HitsAt, RateAt, NextBoundary;
    if t == NextBoundary(s) {
    } else {
      RisesAfterSwitch(s, t - 1);
      SteadyPastSwitch(s, t - 1);
      HitsIncrement(s, t - 1, (t - 1) / s.sd);
    }
  }

  lemma SteadyPastSwitch(s: Schedule, t: int)
    requires s.Valid() && s.constAt > 0 && t >= NextBoundary(s)
    ensures Steady(s, t / s.sd) && t / s.sd * s.sd <= t < t / s.sd * s.sd + s.sd
  {
    hide RateAt, StepRate, Steady;
    var k := t / s.sd;
    StepOf(t, s.sd);
    StepOf(s.constAt, s.sd);
    BoundaryPrecedes(s.constAt / s.sd + 1, k, t, s.sd);
    SteadyAfterSwitch(s, k);
  }

  lemma BoundaryPrecedes(j: int, k: int, t: int, sd: int)
    requires 0 < sd && j * sd <= t < k * sd + sd
    ensures j <= k && j * sd <= k * sd
  {
    ProductIsMonotone(j, k, sd);
    ProductIsMonotone(k, j, sd);
  }

  lemma SteadyAfterSwitch(s: Schedule, k: int)
    requires s.Valid() && s.constAt > 0 && k >= 1 && k * s.sd >= s.constAt
    ensures Steady(s, k)
  {
  }

  /** Between the switch and the next boundary the total does not fall. */
  lemma RisesInSwitchStep(s: Schedule, t: int)
    requires s.Valid() && s.constAt > 0 && s.constAt <= t < NextBoundary(s)
    ensures HitsAt(s, t) >= HitsAt(s, s.constAt)
  {
    hide HitsAt, BoundaryHits, Seconds, RateAt, RampRate;
    var k := s.constAt / s.sd;
    StepOf(s.constAt, s.sd);
    assert NextBoundary(s) == k * s.sd + s.sd;
    HitsInStep(s, s.constAt, k);
    HitsInStep(s, t, k);
    RateInRamp(s, s.constAt, k);
    RateInRamp(s, t, k);
    SecondsIsMonotone(s.constAt - k * s.sd, t - k * s.sd);
    TotalsInOrder(BoundaryHits(s, k), Seconds(s.constAt - k * s.sd), Seconds(t - k * s.sd),
                  if k == 0 then s.start as real else RateAt(s, s.constAt),
                  if k == 0 then s.start as real else RateAt(s, t));
  }

  lemma TotalsInOrder(base: real, x: real, y: real, r: real, q: real)
    requires x <= y && r == q >= 0.0
    ensures base + x * r <= base + y * q
  {
    ProductIsMonotoneReal(x, y, r);
  }

  /** The call at time t with the given hits is handed to the constant part. */
  predicate ReachesHandOver(s: Schedule, t: int, hits: int)
    requires s.sd > 0
  {
    0 < s.constAt <= t && 0 <= hits && hits >= Trunc(HitsAt(s, t))
  }

  /** The total after a whole step k at the rate of the ramp. */
  function RampTotal(s: Schedule, k: int): real
    requires s.sd > 0
  {
    BoundaryHits(s, k) + Seconds(s.sd) * RampRate(s, k)
  }

  /** The total a time d into step k at the final rate. */
  function FinalTotal(s: Schedule, k: int, d: int): real
    requires s.sd > 0
  {
    BoundaryHits(s, k) + Seconds(d) * s.stop as real
  }

  /** The switch falls inside a step after the first, and the whole step at its ramp rate has fewer
      hits than its front at the final rate. */
  predicate FallsBack(s: Schedule)
    requires s.sd > 0
  {
    var k, d := s.constAt / s.sd, s.constAt % s.sd;
    k >= 1 && Trunc(RampTotal(s, k)) < Trunc(FinalTotal(s, k, d))
  }

  /** Some count below the whole hits at the switch reaches the hand-over exactly when the total falls back
      at the end of the step of the switch: a condition on the configuration alone. */
  lemma FallsBackBelowIff(s: Schedule)
    requires s.Valid() && s.constAt > 0
    ensures (exists t, hits :: ReachesHandOver(s, t, hits) && hits < Trunc(HitsAt(s, s.constAt))) <==> FallsBack(s)
  {
    hide FallsBack, HitsAt, ReachesHandOver;
    UnderflowsIffTotalFalls(s);
    FallsBackIff(s);
  }

  lemma FallsBackIff(s: Schedule)
    requires s.Valid() && s.constAt > 0
    ensures FallsBack(s) <==> Trunc(HitsAt(s, NextBoundary(s))) < Trunc(HitsAt(s, s.constAt))
  {
    hide HitsAt, BoundaryHits, Seconds, RateAt, RampRate, RampTotal, FinalTotal, NextBoundary;
    var k, d := s.constAt / s.sd, s.constAt % s.sd;
    StepOf(s.constAt, s.sd);
    assert s.constAt == k * s.sd + d;
    HitsAroundSwitch(s, k, d);
    if k == 0 {
      NoFallInFirstStep(s, d);
    } else if d == 0 {
      NoFallWithoutRemainder(s, k);
    }
  }

  lemma HitsAroundSwitch(s: Schedule, k: int, d: int)
    requires s.Valid() && s.constAt > 0 && k == s.constAt / s.sd && d == s.constAt % s.sd
    requires s.constAt == k * s.sd + d && 0 <= k * s.sd && 0 <= d < s.sd && k >= 0
    ensures HitsAt(s, s.constAt) == if k == 0 then Seconds(d) * s.start as real else FinalTotal(s, k, d)
    ensures HitsAt(s, NextBoundary(s)) ==
            if k == 0 then Seconds(s.sd) * s.start as real
            else if d == 0 then FinalTotal(s, k, s.sd) else RampTotal(s, k)
  {
    hide HitsAt, Seconds, RateAt, RampRate, WholeSteps, BoundaryHits;
    NoHitsAtStart(s);
    HitsInStep(s, s.constAt, k);
    HitsAtBoundary(s, k + 1);
    BoundaryHitsStep(s, k);
    StepRateAtSwitch(s, k, d);
    RateInRamp(s, s.constAt, k);
  }

  lemma NoHitsAtStart(s: Schedule)
    requires s.sd > 0
    ensures BoundaryHits(s, 0) == 0.0
  {
  }

  lemma NoFallInFirstStep(s: Schedule, d: int)
    requires s.Valid() && s.constAt > 0 && d < s.sd
    requires HitsAt(s, s.constAt) == Seconds(d) * s.start as real
    requires HitsAt(s, NextBoundary(s)) == Seconds(s.sd) * s.start as real
    ensures Trunc(HitsAt(s, s.constAt)) <= Trunc(HitsAt(s, NextBoundary(s)))
  {
    hide HitsAt, Seconds;
    HitsAreNonNegative(s, s.constAt);
    SecondsIsMonotone(d, s.sd);
    ProductIsMonotoneReal(Seconds(d), Seconds(s.sd), s.start as real);
    TruncIsMonotone(HitsAt(s, s.constAt), HitsAt(s, NextBoundary(s)));
  }

  lemma StepRateAtSwitch(s: Schedule, k: int, d: int)
    requires s.Valid() && s.constAt == k * s.sd + d && 0 <= d < s.sd && k >= 0 && s.constAt > 0
    ensures StepRate(s, k) == if k == 0 then s.start as real else if d == 0 then s.stop as real else RampRate(s, k)
  {
    hide RampRate, RateAt;
    ProductIsMonotone(0, k, s.sd);
    RateInRamp(s, k * s.sd, k);
  }

  lemma NoFallWithoutRemainder(s: Schedule, k: int)
    requires s.Valid() && k >= 1
    ensures Trunc(FinalTotal(s, k, 0)) <= Trunc(RampTotal(s, k))
    ensures Trunc(FinalTotal(s, k, 0)) <= Trunc(FinalTotal(s, k, s.sd))
  {
    hide BoundaryHits, Seconds, RampRate;
    BoundaryHitsAreNonNegative(s, k);
    SecondsIsPositive(s.sd);
    ZeroSeconds();
    ProductIsMonotoneReal(0.0, Seconds(s.sd), s.stop as real);
    ProductIsMonotoneReal(0.0, Seconds(s.sd), RampRate(s, k));
    assert FinalTotal(s, k, 0) == BoundaryHits(s, k);
    TruncIsMonotone(FinalTotal(s, k, 0), FinalTotal(s, k, s.sd));
    TruncIsMonotone(FinalTotal(s, k, 0), RampTotal(s, k));
  }

  lemma UnderflowsIffTotalFalls(s: Schedule)
    requires s.Valid() && s.constAt > 0
    ensures (exists t, hits :: ReachesHandOver(s, t, hits) && hits < Trunc(HitsAt(s, s.constAt)))
      <==> Trunc(HitsAt(s, NextBoundary(s))) < Trunc(HitsAt(s, s.constAt))
  {
    var b := NextBoundary(s);
    StepOf(s.constAt, s.sd);
    assert b == s.constAt / s.sd * s.sd + s.sd;
    HitsAreNonNegative(s, b);
    hide HitsAt, NextBoundary;
    if Trunc(HitsAt(s, b)) < Trunc(HitsAt(s, s.constAt)) {
      assert ReachesHandOver(s, b, Trunc(HitsAt(s, b)));
    }
    forall t, hits | ReachesHandOver(s, t, hits) && hits < Trunc(HitsAt(s, s.constAt))
      ensures Trunc(HitsAt(s, b)) < Trunc(HitsAt(s, s.constAt))
    {
      NoUnderflowInSwitchStep(s, t, hits);
      RisesAfterSwitch(s, t);
      TruncIsMonotone(HitsAt(s, b), HitsAt(s, t));
    }
  }

  lemma NoUnderflowInSwitchStep(s: Schedule, t: int, hits: int)
    requires s.Valid() && ReachesHandOver(s, t, hits)
    ensures t < NextBoundary(s) ==> hits >= Trunc(HitsAt(s, s.constAt))
  {
    hide HitsAt, NextBoundary;
    if t < NextBoundary(s) {
      HitsAreNonNegative(s, s.constAt);
      RisesInSwitchStep(s, t);
      TruncIsMonotone(HitsAt(s, s.constAt), HitsAt(s, t));
    }
  }

  lemma {:induction false} HitsAreNonNegative(s: Schedule, t: int)
    requires s.Valid() && t >= 0
    ensures HitsAt(s, t) >= 0.0
  {
    hide HitsAt, BoundaryHits, Seconds;
    var k := t / s.sd;
    StepOf(t, s.sd);
    HitsInStep(s, t, k);
    BoundaryHitsAreNonNegative(s, k);
    SecondsIsMonotone(0, t - k * s.sd);
    ZeroSeconds();
    SumIsNonNegative(BoundaryHits(s, k), Seconds(t - k * s.sd), if k == 0 then s.start as real else RateAt(s, t));
  }

  lemma SumIsNonNegative(base: real, time: real, rate: real)
    requires base >= 0.0 && time >= 0.0 && rate >= 0.0
    ensures base + time * rate >= 0.0
  {
  }

  lemma {:induction false} BoundaryHitsAreNonNegative(s: Schedule, k: nat)
    requires s.Valid()
    ensures BoundaryHits(s, k) >= 0.0
  {
    if k == 0 {
    } else {
      BoundaryHitsAreNonNegative(s, k - 1);
      BoundaryHitsStep(s, k - 1);
      hide BoundaryHits, Seconds, RateAt;
      SecondsIsPositive(s.sd);
      SumIsNonNegative(BoundaryHits(s, k - 1), Seconds(s.sd), StepRate(s, k - 1));
    }
  }

  /** A schedule without jumps never underflows: `hits` has reached `baseHits` by then. */
  lemma HandOverIsSafe(s: Schedule, t: int, hits: int)
    requires s.Valid() && NoJump(s) && ReachesHandOver(s, t, hits)
    ensures hits >= Trunc(HitsAt(s, s.constAt))
  {
    hide HitsAt;
    HitsAreNonNegative(s, s.constAt);
    IntegralIsMonotone(s, s.constAt, t);
    HitsIsIntegral(s, s.constAt);
    HitsIsIntegral(s, t);
    TruncIsMonotone(HitsAt(s, s.constAt), HitsAt(s, t));
  }

  lemma {:induction false} IntegralIsMonotone(s: Schedule, t: nat, u: nat)
    requires s.sd > 0 && t <= u
    ensures Integral(s, t) <= Integral(s, u)
  {
    if t == u {
    } else {
      IntegralIsMonotone(s, t, u - 1);
    }
  }

  // ---------- the constant part ----------

  /** In every run of a schedule without jumps, a hit paced by the constant part is sent no earlier than
      the switch and one interval for each hit since the hand-over, exactly if that time fits. */
  lemma ConstantPartIsNeverAhead(p: Pacer, run: seq<Hit>, k: int)
    requires p.schedule.Valid() && NoJump(p.schedule) && p.baseHits == WholeHits(p.schedule, p.schedule.constAt)
    requires 1 <= p.schedule.stop <= NANO
    requires IsRun((e, h) => PaceAt(p, e, h), run) && 0 <= k < |run|
    requires 0 < p.schedule.constAt <= run[k].call && k >= WholeHits(p.schedule, run[k].call)
    requires HitsAt(p.schedule, run[k].call) < TWO_TO_64 as real && k < TWO_TO_64
    requires run[k].send - p.schedule.constAt <= MAX_INT64
    ensures var q, since := ConstantPacer(p.schedule.stop, p.stopMax), k + 1 - p.baseHits;
            && since >= 1
            && (p.schedule.constAt + since * q.Interval() <= run[k].send <==> since <= LastFittingHit(q))
  {
    var pace := (e, h) => PaceAt(p, e, h);
    SendsAreOrdered(pace, run, k, k);
    assert ObeysAt(pace, run, k);
    var s, e := p.schedule, run[k].call;
    HandedOver(p, e, k);
    BaseHitsAreSent(s, e, k);
    hide HitsAt, WholeHits, NoJump, PaceAt, HandOver, LastFittingHit, ConstantPacer.Pace, ConstantPacer.Interval;
    SmallIsExact(k - p.baseHits);
    TurnIsNeverAhead(ConstantPacer(s.stop, p.stopMax), e - s.constAt, k - p.baseHits, run[k].send - s.constAt);
  }

  lemma HandedOver(p: Pacer, e: int, k: int)
    requires p.schedule.Valid() && p.schedule.stop > 0
    requires 0 < p.schedule.constAt <= e && k >= WholeHits(p.schedule, e) && PaceAt(p, e, k).Wait?
    ensures PaceAt(p, e, k) ==
            ConstantPacer(p.schedule.stop, p.stopMax).Pace(e - p.schedule.constAt, ToUint64(k - p.baseHits))
  {
    hide HitsAt, RateAt, ConstantPacer.Pace, ToUint64;
  }

  /** The whole hits at the switch have been sent by every call that reaches the constant part. */
  lemma BaseHitsAreSent(s: Schedule, e: int, k: int)
    requires s.Valid() && NoJump(s) && 0 < s.constAt <= e && k >= WholeHits(s, e)
    requires HitsAt(s, e) < TWO_TO_64 as real
    ensures k >= WholeHits(s, s.constAt)
  {
    hide HitsAt, NoJump;
    HitsAreNonNegative(s, s.constAt);
    HitsIsIntegral(s, s.constAt);
    HitsIsIntegral(s, e);
    IntegralIsMonotone(s, s.constAt, e);
    TruncIsMonotone(HitsAt(s, s.constAt), HitsAt(s, e));
    TruncIsBelow(HitsAt(s, e));
    SmallIsExact(Trunc(HitsAt(s, e)));
    SmallIsExact(Trunc(HitsAt(s, s.constAt)));
  }

  lemma TruncIsBelow(x: real)
    requires 0.0 <= x < TWO_TO_64 as real
    ensures 0 <= Trunc(x) < TWO_TO_64
  {
  }

  /** Where the interval is exact, such a hit is also due by the pacer's own total when it is sent. A rate
      that does not divide a second into whole nanoseconds is paced faster than it is counted. */
  lemma ConstantPartIsDue(p: Pacer, run: seq<Hit>, k: int)
    requires p.schedule.Valid() && NoJump(p.schedule) && p.baseHits == WholeHits(p.schedule, p.schedule.constAt)
    requires 1 <= p.schedule.stop <= NANO && NANO % p.schedule.stop == 0
    requires IsRun((e, h) => PaceAt(p, e, h), run) && 0 <= k < |run|
    requires 0 < p.schedule.constAt <= run[k].call && k >= WholeHits(p.schedule, run[k].call)
    requires HitsAt(p.schedule, run[k].call) < TWO_TO_64 as real && k < TWO_TO_64
    requires run[k].send - p.schedule.constAt <= MAX_INT64
    requires k + 1 - p.baseHits <= LastFittingHit(ConstantPacer(p.schedule.stop, p.stopMax))
    ensures (k + 1) as real <= HitsAt(p.schedule, run[k].send)
  {
    hide HitsAt, WholeHits, NoJump, PaceAt, LastFittingHit, ConstantPacer.Interval, Seconds, RateAt;
    ConstantPartIsNeverAhead(p, run, k);
    var s, q := p.schedule, ConstantPacer(p.schedule.stop, p.stopMax);
    IntervalIsFloor(q);
    var since := k + 1 - p.baseHits;
    ProductIsMonotone(0, since, q.Interval());
    FinalRateHolds(s, run[k].send);
    var span := run[k].send - s.constAt;
    HitsGrowUntil(s, s.constAt, run[k].send, Seconds(span) * s.stop as real);
    WholeHitsAreHits(s, s.constAt);
    ExactIntervals(s.stop, q.Interval(), since, span);
  }

  lemma FinalRateHolds(s: Schedule, f: int)
    requires s.Valid() && s.constAt > 0
    ensures RateHolds(s, s.constAt, f) && RateAt(s, s.constAt) == s.stop as real
  {
  }

  lemma ExactIntervals(rate: int, interval: int, hits: int, span: int)
    requires 1 <= rate <= NANO && NANO % rate == 0 && interval == NANO / rate && hits * interval <= span && hits >= 0
    ensures Seconds(span) * rate as real >= hits as real
  {
    assert interval * rate == NANO;
    ProductIsMonotone(hits * interval, span, rate);
    assert hits * interval * rate == hits * NANO;
    ScaledSeconds(span, rate);
  }

  lemma ScaledSeconds(span: int, rate: int)
    ensures Seconds(span) * rate as real == (span * rate) as real / NANO as real
  {
    assert (span * rate) as real == span as real * rate as real;
  }

  // ---------- runs that go wrong ----------

  /** After the given run the call at time t gets past `Max` and is handed to the constant part with fewer
      hits than `baseHits`, so that `hits - baseHits` underflows. */
  ghost predicate UnderflowsAt(p: Pacer, run: seq<Hit>, t: int)
    requires p.schedule.Valid()
  {
    && IsRun((e, h) => PaceAt(p, e, h), run) && (run != [] ==> run[|run| - 1].send <= t)
    && 0 < p.schedule.constAt <= t && HitsAt(p.schedule, t) < TWO_TO_64 as real
    && !(0 < p.max <= |run|) && WholeHits(p.schedule, t) <= |run| < p.baseHits
  }

  /** Some run underflows at the hand-over if and only if the total falls back and `Max` lets the hits due
      at the next boundary through. */
  lemma HandOverUnderflowsIff(p: Pacer)
    requires p.schedule.Valid() && p.schedule.constAt > 0
    requires p.baseHits == WholeHits(p.schedule, p.schedule.constAt)
    requires HitsAt(p.schedule, p.schedule.constAt) < TWO_TO_64 as real
    ensures (exists run: seq<Hit>, t: int :: UnderflowsAt(p, run, t)) <==>
              FallsBack(p.schedule) && !(0 < p.max <= Trunc(HitsAt(p.schedule, NextBoundary(p.schedule))))
  {
    hide HitsAt, FallsBack, WholeHits, NextBoundary, UnderflowsAt;
    if FallsBack(p.schedule) && !(0 < p.max <= Trunc(HitsAt(p.schedule, NextBoundary(p.schedule)))) {
      var run := FallingBackUnderflows(p);
      assert UnderflowsAt(p, run, NextBoundary(p.schedule));
    }
    forall run: seq<Hit>, t: int | UnderflowsAt(p, run, t)
      ensures FallsBack(p.schedule) && !(0 < p.max <= Trunc(HitsAt(p.schedule, NextBoundary(p.schedule))))
    {
      UnderflowNeedsFall(p, run, t);
    }
  }

  lemma UnderflowNeedsFall(p: Pacer, run: seq<Hit>, t: int)
    requires p.schedule.Valid() && p.baseHits == WholeHits(p.schedule, p.schedule.constAt)
    requires HitsAt(p.schedule, p.schedule.constAt) < TWO_TO_64 as real && UnderflowsAt(p, run, t)
    ensures FallsBack(p.schedule) && !(0 < p.max <= Trunc(HitsAt(p.schedule, NextBoundary(p.schedule))))
  {
    hide HitsAt, FallsBack, NextBoundary, ToUint64;
    var s := p.schedule;
    WholeHitsAreExact(s, t);
    WholeHitsAreExact(s, s.constAt);
    NoUnderflowInSwitchStep(s, t, |run|);
    NextBoundaryIsLater(s);
    RisesAfterSwitch(s, t);
    HitsAreNonNegative(s, NextBoundary(s));
    TruncIsMonotone(HitsAt(s, NextBoundary(s)), HitsAt(s, t));
    FallsBackIff(s);
  }

  lemma WholeHitsAreExact(s: Schedule, t: int)
    requires s.Valid() && t >= 0 && HitsAt(s, t) < TWO_TO_64 as real
    ensures WholeHits(s, t) == Trunc(HitsAt(s, t)) >= 0
  {
    hide HitsAt;
    HitsAreNonNegative(s, t);
    TruncIsBelow(HitsAt(s, t));
    SmallIsExact(Trunc(HitsAt(s, t)));
  }

  /** A driver delayed until the switch of a schedule that falls back sends there as many hits as are due
      by the next boundary, still behind schedule, and asks again at that boundary. */
  lemma FallingBackUnderflows(p: Pacer) returns (run: seq<Hit>)
    requires p.schedule.Valid() && p.schedule.constAt > 0 && FallsBack(p.schedule)
    requires !(0 < p.max <= Trunc(HitsAt(p.schedule, NextBoundary(p.schedule))))
    requires p.baseHits == WholeHits(p.schedule, p.schedule.constAt)
    requires HitsAt(p.schedule, p.schedule.constAt) < TWO_TO_64 as real
    ensures UnderflowsAt(p, run, NextBoundary(p.schedule))
    ensures PaceAt(p, NextBoundary(p.schedule), |run|) == HandOver(p, NextBoundary(p.schedule), |run|)
  {
    hide HitsAt, FallsBack, PaceAt, WholeHits, NextBoundary;
    var s, b := p.schedule, NextBoundary(p.schedule);
    FallsBackIff(s);
    NextBoundaryIsLater(s);
    HitsAreNonNegative(s, b);
    HitsAreNonNegative(s, s.constAt);
    var n := Trunc(HitsAt(s, b));
    CountsAround(s);
    run := seq(n, _ => Hit(s.constAt, s.constAt));
    var pace := (e, h) => PaceAt(p, e, h);
    forall k | 0 <= k < |run|
      ensures ObeysAt(pace, run, k)
    {
      BehindIsSentAtOnce(p, s.constAt, k);
    }
    ReachedHandOver(p, b, n);
  }

  lemma NextBoundaryIsLater(s: Schedule)
    requires s.Valid() && s.constAt > 0
    ensures NextBoundary(s) > s.constAt
  {
    StepOf(s.constAt, s.sd);
    assert NextBoundary(s) == s.constAt / s.sd * s.sd + s.sd;
  }

  lemma CountsAround(s: Schedule)
    requires s.Valid() && s.constAt > 0 && HitsAt(s, s.constAt) < TWO_TO_64 as real
    requires 0.0 <= HitsAt(s, s.constAt) && 0.0 <= HitsAt(s, NextBoundary(s))
    requires Trunc(HitsAt(s, NextBoundary(s))) < Trunc(HitsAt(s, s.constAt))
    ensures 0 <= Trunc(HitsAt(s, NextBoundary(s))) == WholeHits(s, NextBoundary(s)) < WholeHits(s, s.constAt)
  {
    hide HitsAt, NextBoundary, ToUint64;
    TruncIsBelow(HitsAt(s, s.constAt));
    SmallIsExact(Trunc(HitsAt(s, s.constAt)));
    SmallIsExact(Trunc(HitsAt(s, NextBoundary(s))));
  }

  lemma BehindIsSentAtOnce(p: Pacer, e: int, k: int)
    requires p.schedule.Valid() && !(0 < p.max <= k) && k < WholeHits(p.schedule, e)
    ensures PaceAt(p, e, k) == Wait(0)
  {
    hide HitsAt, WholeHits;
  }

  lemma ReachedHandOver(p: Pacer, e: int, k: int)
    requires p.schedule.Valid() && !(0 < p.max <= k) && k >= WholeHits(p.schedule, e) && 0 < p.schedule.constAt <= e
    ensures PaceAt(p, e, k) == HandOver(p, e, k)
  {
    hide HitsAt, WholeHits, HandOver;
  }

  /** A final rate of 100 given explicitly, with a load duration that ends inside the second step. */
  const JUMPING := Pacer(Schedule(1, 1, 2 * NANO, 100, 3 * NANO), 0, 0, 102)

  /** The total jumps and falls back: a driver delayed until the switch sends six hits there, behind
      schedule, and one second later the hand-over wraps the count around and stops the run. */
  lemma ExplicitStopCanUnderflow()
    ensures var run := seq(6, _ => Hit(3 * NANO, 3 * NANO));
            && JUMPING.schedule == Resolve(1, 1, 2 * NANO, 100, 3 * NANO) && JUMPING.schedule.Valid()
            && JUMPING.baseHits == WholeHits(JUMPING.schedule, JUMPING.schedule.constAt) > |run|
            && IsRun((e, h) => PaceAt(JUMPING, e, h), run)
            && PaceAt(JUMPING, 4 * NANO, |run|) == Pacing.Stop
            && FallsBack(JUMPING.schedule)
  {
    var run := seq(6, _ => Hit(3 * NANO, 3 * NANO));
    JumpingHits();
    JumpingAnswers();
    hide HitsAt, FallsBack, PaceAt, RateAt;
    var pace := (e, h) => PaceAt(JUMPING, e, h);
    assert forall k :: 0 <= k < |run| ==> ObeysAt(pace, run, k);
  }

  lemma JumpingAnswers()
    ensures forall k :: 0 <= k < 6 ==> PaceAt(JUMPING, 3 * NANO, k) == Wait(0)
    ensures PaceAt(JUMPING, 4 * NANO, 6) == Pacing.Stop
  {
    JumpingHits();
    hide HitsAt, RateAt, RampPace, FallsBack;
    assert WholeHits(JUMPING.schedule, 3 * NANO) == 102 && WholeHits(JUMPING.schedule, 4 * NANO) == 6;
    hide WholeHits;
    assert PaceAt(JUMPING, 4 * NANO, 6) == HandOver(JUMPING, 4 * NANO, 6);
    WrappedCountStops(ConstantPacer(100, 0), NANO, ToUint64(6 - 102));
  }

  lemma WrappedCountStops(p: ConstantPacer, elapsed: int, hits: int)
    requires p == ConstantPacer(100, 0) && elapsed == NANO && hits == TWO_TO_64 - 96
    ensures p.Pace(elapsed, hits) == Pacing.Stop
  {
    IntervalIsFloor(p);
    hide ConstantPacer.Pace;
    StopsIff(p, elapsed, hits);
  }

  lemma JumpingHits()
    ensures HitsAt(JUMPING.schedule, 3 * NANO) == 102.0 && HitsAt(JUMPING.schedule, 4 * NANO) == 6.0
    ensures FallsBack(JUMPING.schedule)
  {
    var s := JUMPING.schedule;
    HitsInStep(s, 3 * NANO, 1);
    HitsInStep(s, 4 * NANO, 2);
    RateInRamp(s, 2 * NANO, 1);
    hide HitsAt;
    JumpFallsBack();
  }

  lemma JumpFallsBack()
    requires HitsAt(JUMPING.schedule, 3 * NANO) == 102.0 && HitsAt(JUMPING.schedule, 4 * NANO) == 6.0
    ensures FallsBack(JUMPING.schedule)
  {
    hide HitsAt, FallsBack;
    assert NextBoundary(JUMPING.schedule) == 4 * NANO;
    FallsBackIff(JUMPING.schedule);
  }

  /** A load falling from two hits a second by one every 750ms. */
  const FALLING := Pacer(Schedule(2, -1, 750_000_000, 0, 0), 0, 0, 0)

  /** A falling load does get ahead: the second hit of this exact run sleeps by the rate of its call,
      through a step boundary, and goes out before it is due. */
  lemma FallingLoadGetsAhead()
    ensures var run := [Hit(0, 500_000_000), Hit(500_000_000, 1_000_000_000)];
            && FALLING.schedule == Resolve(2, -1, 750_000_000, 0, 0) && FALLING.schedule.Valid()
            && NoJump(FALLING.schedule)
            && IsExactRun((e, h) => PaceAt(FALLING, e, h), run)
            && HitsAt(FALLING.schedule, run[1].send + 1) < 2.0
  {
    var run := [Hit(0, 500_000_000), Hit(500_000_000, 1_000_000_000)];
    FallingHits();
    hide HitsAt;
    var pace := (e, h) => PaceAt(FALLING, e, h);
    assert PaceAt(FALLING, 0, 0) == Wait(500_000_000) && PaceAt(FALLING, 500_000_000, 1) == Wait(500_000_000);
    hide PaceAt;
    assert ObeysAt(pace, run, 0) && ObeysAt(pace, run, 1);
    assert ExactAt(pace, run, 0) && ExactAt(pace, run, 1);
  }

  lemma FallingHits()
    ensures var s := FALLING.schedule;
            HitsAt(s, 0) == 0.0 && HitsAt(s, 500_000_000) == 1.0 && HitsAt(s, 1_000_000_001) < 2.0
  {
    var s := FALLING.schedule;
    HitsInStep(s, 0, 0);
    HitsInStep(s, 500_000_000, 0);
    HitsInStep(s, 1_000_000_001, 1);
    hide HitsAt;
  }
}
