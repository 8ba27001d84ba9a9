/** The request rate of a stepped load as a function of time, and the two ways of adding it up
    (load/pacer.go). Everything here is about an initialised pacer; `StepPacers` holds the
    mutable object and its loops. */
module StepSchedules {
  import opened GoNumbers

  /** The fields of an initialised `StepPacer` that decide its rate. `constAt` is the time from
      which the rate is constant, 0 when there is no such time. */
  datatype Schedule = Schedule(start: uint64, step: int, sd: int, stop: uint64, constAt: int) {

    ghost predicate Valid() {
      start > 0 && step != 0 && sd > 0 && constAt >= 0
    }
  }

  /** The rate during step k of the ramp. */
  function RampRate(s: Schedule, k: int): (rate: real)
    ensures rate >= 0.0
  {
    if s.start + s.step * k < 0 then 0.0 else (s.start + s.step * k) as real
  }

  /** `StepPacer.Rate` after initialisation. */
  function RateAt(s: Schedule, t: int): (rate: real)
    requires s.sd != 0
    ensures rate >= 0.0
  {
    if s.constAt > 0 && t >= s.constAt then s.stop as real else RampRate(s, TruncDiv(t, s.sd))
  }

  /** The hits of steps 1 to k-1, each at the rate of its first instant. */
  function WholeSteps(s: Schedule, k: int): real
    requires s.sd > 0
    decreases k
  {
    if k <= 1 then 0.0 else WholeSteps(s, k - 1) + RateAt(s, (k - 1) * s.sd) * Seconds(s.sd)
  }

  /** `StepPacer.hits`: what the pacer takes for the hits due at time t. */
  function HitsAt(s: Schedule, t: int): real
    requires s.sd > 0
  {
    if t < 0 then
      0.0
    else
      var k := t / s.sd;
      if k == 0 then
        Seconds(t) * s.start as real
      else
        Seconds(s.sd) * s.start as real + WholeSteps(s, k) + Seconds(t - k * s.sd) * RateAt(s, t)
  }

  /** The reference: the rate summed over every nanosecond before t. */
  function Integral(s: Schedule, t: nat): real
    requires s.sd > 0
  {
    if t == 0 then 0.0 else Integral(s, t - 1) + RateAt(s, t - 1) / NANO as real
  }

  /** The rate does not change inside a step: the switch to the constant part falls on a step
      boundary, or the step it falls in already runs at the final rate. */
  predicate NoJump(s: Schedule)
    requires s.sd > 0
  {
    s.constAt == 0 || s.constAt % s.sd == 0 || RampRate(s, s.constAt / s.sd) == s.stop as real
  }

  /** Every instant of step k runs at the rate `HitsAt` charges for that step. */
  ghost predicate Steady(s: Schedule, k: int)
    requires s.sd > 0
  {
    forall t :: k * s.sd <= t < k * s.sd + s.sd ==> RateAt(s, t) == StepRate(s, k)
  }

  function StepRate(s: Schedule, k: int): real
    requires s.sd > 0
  {
    if k == 0 then s.start as real else RateAt(s, k * s.sd)
  }

  // ---------- arithmetic of steps ----------

  lemma StepOf(t: int, sd: int)
    requires 0 <= t && 0 < sd
    ensures 0 <= t / sd && t / sd * sd <= t < t / sd * sd + sd
    ensures (t + 1) / sd == if t + 1 == t / sd * sd + sd then t / sd + 1 else t / sd
  {
    var k := t / sd;
    assert k * sd + t % sd == t;
    assert (k + 1) * sd == k * sd + sd;
    assert (k + 2) * sd == k * sd + sd + sd;
    QuotientIsUnique(t + 1, sd, if t + 1 == k * sd + sd then k + 1 else k);
  }

  lemma StepIs(t: int, sd: int, k: int)
    requires 0 < sd && k * sd <= t < k * sd + sd
    ensures t / sd == k
  {
    assert (k + 1) * sd == k * sd + sd;
    QuotientIsUnique(t, sd, k);
  }

  lemma SecondsTimesRate(a: int, b: int, rate: real)
    ensures Seconds(a + b) * rate == Seconds(a) * rate + Seconds(b) * rate
    ensures Seconds(1) * rate == rate / NANO as real
  {
    SecondsAdds(a, b);
    DistributeReal(Seconds(a), Seconds(b), rate);
  }

  lemma SecondsIsPositive(d: int)
    requires d > 0
    ensures Seconds(d) > 0.0
  {
  }

  lemma DistributeReal(x: real, y: real, z: real)
    ensures (x + y) * z == x * z + y * z
  {
  }

  // ---------- HitsAt is the integral of RateAt exactly when nothing jumps ----------

  lemma RateInRamp(s: Schedule, t: int, k: int)
    requires s.Valid() && k * s.sd <= t < k * s.sd + s.sd && 0 <= t
    ensures RateAt(s, t) == if s.constAt > 0 && t >= s.constAt then s.stop as real else RampRate(s, k)
  {
    StepIs(t, s.sd, k);
  }

  /** The rate at any time, from the fields alone: a falling ramp is clipped at zero. */
  lemma RateIs(s: Schedule, t: nat)
    requires s.Valid()
    ensures var r := s.start + s.step * (t / s.sd);
            RateAt(s, t) == if 0 < s.constAt <= t then s.stop as real else if r < 0 then 0.0 else r as real
  {
    StepOf(t, s.sd);
    RateInRamp(s, t, t / s.sd);
  }

  lemma NoJumpIsSteady(s: Schedule, k: int)
    requires s.Valid() && NoJump(s) && k >= 0
    ensures Steady(s, k)
  {
    ProductIsMonotone(0, k, s.sd);
    RateInRamp(s, k * s.sd, k);
    forall t | k * s.sd <= t < k * s.sd + s.sd
      ensures RateAt(s, t) == StepRate(s, k)
    {
      RateInRamp(s, t, k);
      SwitchInside(s, k, t);
    }
  }

  /** If the switch happened inside step k, step k is the one `NoJump` speaks of. */
  lemma SwitchInside(s: Schedule, k: int, t: int)
    requires s.Valid() && NoJump(s) && k * s.sd <= t < k * s.sd + s.sd
    ensures k * s.sd < s.constAt <= t ==> RampRate(s, k) == s.stop as real
  {
    if k * s.sd < s.constAt <= t {
      StepIs(s.constAt, s.sd, k);
      assert s.constAt == k * s.sd + s.constAt % s.sd;
    }
  }

  /** The hits of the first k steps. */
  function BoundaryHits(s: Schedule, k: int): real
    requires s.sd > 0
  {
    if k <= 0 then 0.0 else Seconds(s.sd) * s.start as real + WholeSteps(s, k)
  }

  lemma BoundaryHitsStep(s: Schedule, k: int)
    requires s.sd > 0 && k >= 0
    ensures BoundaryHits(s, k + 1) == BoundaryHits(s, k) + Seconds(s.sd) * StepRate(s, k)
  {
    hide RateAt, Seconds;
  }

  lemma FirstStepRate(s: Schedule)
    requires s.sd > 0
    ensures StepRate(s, 0) == s.start as real
  {
  }

  lemma HitsInStep(s: Schedule, t: int, k: int)
    requires s.Valid() && 0 <= t && k * s.sd <= t < k * s.sd + s.sd
    ensures 0 <= k
    ensures HitsAt(s, t) == BoundaryHits(s, k) + Seconds(t - k * s.sd) * (if k == 0 then s.start as real else RateAt(s, t))
  {
    hide RateAt, WholeSteps, Seconds;
    StepIs(t, s.sd, k);
  }

  lemma HitsAtBoundary(s: Schedule, k: int)
    requires s.Valid() && 0 <= k
    ensures HitsAt(s, k * s.sd) == BoundaryHits(s, k)
  {
    ProductIsMonotone(0, k, s.sd);
    HitsInStep(s, k * s.sd, k);
  }

  /** Inside a steady step one more nanosecond adds the rate of that nanosecond. */
  lemma HitsIncrement(s: Schedule, t: int, k: int)
    requires s.Valid() && 0 <= t && k * s.sd <= t < k * s.sd + s.sd && Steady(s, k)
    ensures HitsAt(s, t + 1) == HitsAt(s, t) + RateAt(s, t) / NANO as real
  {
    hide HitsAt, BoundaryHits, RateAt, StepRate;
    var d := t - k * s.sd;
    FirstStepRate(s);
    HitsInStep(s, t, k);
    assert RateAt(s, t) == StepRate(s, k);
    if d + 1 < s.sd {
      HitsInStep(s, t + 1, k);
      assert RateAt(s, t + 1) == StepRate(s, k);
      NextNanosecond(HitsAt(s, t), HitsAt(s, t + 1), BoundaryHits(s, k), d, StepRate(s, k));
    } else {
      assert (k + 1) * s.sd == t + 1;
      HitsAtBoundary(s, k + 1);
      BoundaryHitsStep(s, k);
      NextNanosecond(HitsAt(s, t), HitsAt(s, t + 1), BoundaryHits(s, k), d, StepRate(s, k));
    }
  }

  lemma NextNanosecond(now: real, next: real, base: real, d: int, rate: real)
    requires now == base + Seconds(d) * rate && next == base + Seconds(d + 1) * rate
    ensures next == now + rate / NANO as real
  {
    SecondsTimesRate(d, 1, rate);
  }

  lemma {:induction false} HitsIsIntegral(s: Schedule, t: nat)
    requires s.Valid() && NoJump(s)
    ensures HitsAt(s, t) == Integral(s, t)
  {
    if t == 0 {
      assert 0 / s.sd == 0;
    } else {
      HitsIsIntegral(s, t - 1);
      StepOf(t - 1, s.sd);
      NoJumpIsSteady(s, (t - 1) / s.sd);
      HitsIncrement(s, t - 1, (t - 1) / s.sd);
    }
  }

  /** The instant at which `HitsAt` first leaves the integral when the rate jumps. */
  function JumpSeenAt(s: Schedule): int
    requires s.sd > 0
  {
    if s.constAt < s.sd then s.constAt else s.constAt - 1
  }

  lemma JumpIsSeen(s: Schedule)
    requires s.Valid() && !NoJump(s)
    ensures JumpSeenAt(s) >= 0
    ensures HitsAt(s, JumpSeenAt(s) + 1) != HitsAt(s, JumpSeenAt(s)) + RateAt(s, JumpSeenAt(s)) / NANO as real
  {
    StepOf(s.constAt, s.sd);
    assert s.constAt == s.constAt / s.sd * s.sd + s.constAt % s.sd;
    if s.constAt < s.sd {
      JumpInFirstStep(s);
    } else {
      StepIs(s.sd, s.sd, 1);
      JumpInLaterStep(s, s.constAt / s.sd, s.constAt % s.sd);
    }
  }

  lemma JumpInFirstStep(s: Schedule)
    requires s.Valid() && 0 < s.constAt < s.sd && RampRate(s, 0) != s.stop as real
    ensures HitsAt(s, s.constAt + 1) != HitsAt(s, s.constAt) + RateAt(s, s.constAt) / NANO as real
  {
    hide HitsAt, BoundaryHits, Seconds;
    HitsInStep(s, s.constAt, 0);
    SecondsTimesRate(s.constAt, 1, s.start as real);
    if s.constAt + 1 == s.sd {
      HitsAtBoundary(s, 1);
      BoundaryHitsStep(s, 0);
    } else {
      HitsInStep(s, s.constAt + 1, 0);
    }
  }

  lemma TimesIsInjective(x: real, y: real, z: real)
    requires x != 0.0 && y != z
    ensures x * y != x * z
  {
  }

  lemma DifferentRates(now: real, next: real, base: real, d: int, before: real, after: real)
    requires 1 <= d && before != after
    requires now == base + Seconds(d - 1) * before && next == base + Seconds(d) * after
    ensures next != now + before / NANO as real
  {
    SecondsTimesRate(d - 1, 1, before);
    SecondsIsPositive(d);
    TimesIsInjective(Seconds(d), before, after);
  }

  lemma JumpInLaterStep(s: Schedule, k: int, d: int)
    requires s.Valid() && 1 <= k && 1 <= d < s.sd && s.constAt == k * s.sd + d
    requires RampRate(s, k) != s.stop as real
    ensures HitsAt(s, s.constAt) != HitsAt(s, s.constAt - 1) + RateAt(s, s.constAt - 1) / NANO as real
  {
    hide HitsAt, BoundaryHits, RateAt, RampRate, Seconds;
    ProductIsMonotone(0, k, s.sd);
    HitsInStep(s, s.constAt, k);
    HitsInStep(s, s.constAt - 1, k);
    RateInRamp(s, s.constAt, k);
    RateInRamp(s, s.constAt - 1, k);
    DifferentRates(HitsAt(s, s.constAt - 1), HitsAt(s, s.constAt), BoundaryHits(s, k), d, RampRate(s, k), s.stop as real);
  }

  /** The running total of the pacer is the integral of its own rate at every instant, if and
      only if the rate does not jump inside a step. */
  lemma HitsIsIntegralIff(s: Schedule)
    requires s.Valid()
    ensures (forall t: nat :: HitsAt(s, t) == Integral(s, t)) <==> NoJump(s)
  {
    if NoJump(s) {
      forall t: nat
        ensures HitsAt(s, t) == Integral(s, t)
      {
        HitsIsIntegral(s, t);
      }
    } else {
      JumpIsSeen(s);
      var u: nat := JumpSeenAt(s);
      assert Integral(s, u + 1) == Integral(s, u) + RateAt(s, u) / NANO as real;
    }
  }

  // ---------- closed form at the step boundaries ----------

  /** Twice the hits of a linear staircase after k whole steps, in hits per second times steps. */
  function Staircase(s: Schedule, k: int): int {
    2 * k * s.start + s.step * k * (k - 1)
  }

  lemma StaircaseStep(s: Schedule, k: int)
    ensures Staircase(s, k + 1) == Staircase(s, k) + 2 * (s.start + s.step * k)
  {
    assert 2 * (k + 1) * s.start == 2 * k * s.start + 2 * s.start;
    assert s.step * (k + 1) * k == s.step * k * (k - 1) + 2 * (s.step * k);
  }

  /** As long as the ramp has not gone negative and the constant part has not begun, the loop of
      `hits` adds up to the quadratic of an arithmetic series. */
  lemma {:induction false} QuadraticAtBoundary(s: Schedule, k: nat)
    requires s.Valid() && (k > 0 ==> s.start + s.step * (k - 1) >= 0)
    requires k > 0 ==> s.constAt == 0 || (k - 1) * s.sd < s.constAt
    ensures HitsAt(s, k * s.sd) == Seconds(s.sd) * (Staircase(s, k) as real / 2.0)
  {
    hide HitsAt, BoundaryHits, Seconds, Staircase;
    HitsAtBoundary(s, k);
    if k == 0 {
      assert BoundaryHits(s, 0) == 0.0 by { BoundaryAndStaircaseAtZero(s); }
      BoundaryAndStaircaseAtZero(s);
    } else {
      EarlierStepsQualify(s, k);
      QuadraticAtBoundary(s, k - 1);
      HitsAtBoundary(s, k - 1);
      BoundaryHitsStep(s, k - 1);
      StaircaseStep(s, k - 1);
      RampStepRate(s, k - 1);
      DistributeReal(Staircase(s, k - 1) as real / 2.0, StepRate(s, k - 1), Seconds(s.sd));
    }
  }

  lemma BoundaryAndStaircaseAtZero(s: Schedule)
    requires s.Valid()
    ensures BoundaryHits(s, 0) == 0.0 && Staircase(s, 0) == 0
  {
  }

  lemma EarlierStepsQualify(s: Schedule, k: int)
    requires s.Valid() && k > 0 && s.start + s.step * (k - 1) >= 0
    requires s.constAt == 0 || (k - 1) * s.sd < s.constAt
    ensures k > 1 ==> s.start + s.step * (k - 2) >= 0
    ensures k > 1 ==> s.constAt == 0 || (k - 2) * s.sd < s.constAt
  {
    if k > 1 {
      assert (k - 2) * s.sd == (k - 1) * s.sd - s.sd;
      assert s.step * (k - 2) == s.step * (k - 1) - s.step;
      if s.step > 0 {
        ProductIsMonotone(0, k - 2, s.step);
      }
    }
  }

  lemma RampStepRate(s: Schedule, k: int)
    requires s.Valid() && k >= 0 && s.start + s.step * k >= 0
    requires s.constAt == 0 || k * s.sd < s.constAt
    ensures StepRate(s, k) == (s.start + s.step * k) as real
  {
    ProductIsMonotone(0, k, s.sd);
    RateInRamp(s, k * s.sd, k);
  }

  // ---------- what `initialize` settles ----------

  /** Steps until the ramp has gone strictly past the final rate; 0 if it starts there. */
  function SwitchStep(start: int, step: int, stop: int): int
    requires step != 0
  {
    if step > 0 then
      if start > stop then 0 else (stop - start) / step + 1
    else
      if start < stop then 0 else (start - stop) / -step + 1
  }

  /** The schedule `initialize` settles on for the given configuration. */
  function Resolve(start: uint64, step: int, sd: int, stop: uint64, loadDuration: int): Schedule
    requires step != 0 && sd > 0
  {
    if loadDuration > 0 then
      var steps := loadDuration / sd;
      Schedule(start, step, sd, if stop == 0 then ToUint64(start + step * steps) else stop, loadDuration)
    else
      Schedule(start, step, sd, stop, if stop > 0 then SwitchStep(start, step, stop) * sd else 0)
  }

  /** The step changes the rate in the direction of the final rate. */
  predicate PointsToStop(start: int, step: int, stop: int) {
    if step > 0 then start <= stop else start >= stop
  }

  /** The switch-over step is where the ramp first passes the final rate, and a ramp that points
      away has none: the pacer then never reaches a constant part. */
  lemma SwitchStepIsFirst(start: int, step: int, stop: int, k: int)
    requires step != 0 && k >= 0
    ensures SwitchStep(start, step, stop) > 0 <==> PointsToStop(start, step, stop)
    ensures k < SwitchStep(start, step, stop) <==>
              PointsToStop(start, step, stop) && if step > 0 then start + step * k <= stop else start + step * k >= stop
  {
    var gap, size := if step > 0 then stop - start else start - stop, if step > 0 then step else -step;
    FitsIffAtMostQuotient(gap, size, k);
    FitsIffAtMostQuotient(gap, size, 0);
    assert step > 0 ==> k * size == step * k;
    assert step < 0 ==> k * size == -(step * k);
  }

  lemma ResolveIsValid(start: uint64, step: int, sd: int, stop: uint64, loadDuration: int)
    requires start > 0 && step != 0 && sd > 0
    ensures Resolve(start, step, sd, stop, loadDuration).Valid()
  {
    if loadDuration <= 0 && stop > 0 {
      SwitchStepIsFirst(start, step, stop, 0);
      ProductIsMonotone(0, SwitchStep(start, step, stop), sd);
    }
  }

  /** Without a load duration the switch always falls on a step boundary; with one, a final rate
      derived from the ramp does not jump unless the 64-bit sum wrapped below zero. */
  lemma ResolveDoesNotJump(start: uint64, step: int, sd: int, stop: uint64, loadDuration: int)
    requires start > 0 && step != 0 && sd > 0
    requires loadDuration <= 0
      || loadDuration % sd == 0
      || (stop == 0 && 0 <= start + step * (loadDuration / sd) < TWO_TO_64)
    ensures NoJump(Resolve(start, step, sd, stop, loadDuration))
  {
    hide SwitchStep;
    if loadDuration > 0 {
      if loadDuration % sd != 0 {
        DerivedRateDoesNotJump(start, step, sd, loadDuration);
      }
    } else if stop > 0 {
      MultipleHasNoRemainder(SwitchStep(start, step, stop), sd);
    }
  }

  lemma DerivedRateDoesNotJump(start: uint64, step: int, sd: int, loadDuration: int)
    requires start > 0 && step != 0 && sd > 0 && loadDuration > 0
    requires 0 <= start + step * (loadDuration / sd) < TWO_TO_64
    ensures NoJump(Resolve(start, step, sd, 0, loadDuration))
  {
    assert TruncDiv(loadDuration, sd) == loadDuration / sd;
    hide TruncDiv;
  }

  lemma MultipleHasNoRemainder(k: int, sd: int)
    requires sd > 0
    ensures k * sd % sd == 0
  {
    QuotientIsUnique(k * sd, sd, k);
    assert k * sd == k * sd / sd * sd + k * sd % sd;
  }
}
