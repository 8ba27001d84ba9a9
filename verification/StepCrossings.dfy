/** Exactly when a stepped load sends a hit before it is due (load/pacer.go). Within a step a hit is never
    ahead; what decides is the hit that is paced just before a step boundary and sleeps across it. */
module StepCrossings {
  import opened GoNumbers
  import opened Driver
  import opened StepSchedules
  import opened StepRuns

  // ---------- the hit that sleeps across a boundary ----------

  /** The whole hits due by boundary j. */
  function HitsBy(s: Schedule, j: int): int
    requires s.sd > 0
  {
    HitsAt(s, j * s.sd).Floor
  }

  /** When the next hit after those goes out, paced at the rate of the step before the boundary. */
  function Landing(s: Schedule, j: int): int
    requires s.sd > 0 && StepRate(s, j - 1) > 0.0
  {
    j * s.sd + SleepFor(StepRate(s, j - 1), (HitsBy(s, j) + 1) as real - HitsAt(s, j * s.sd))
  }

  /** The overflow guard of the ramp lets a hit count through. */
  predicate Passes(rate: real, hits: int)
    requires rate > 0.0
  {
    var n := Trunc(NANO as real / rate);
    n == 0 || TruncDiv(MAX_INT64, n) >= hits
  }

  /** Boundary j ends a step of the ramp in which that hit is paced: its count is a `uint64` below `Max`,
      and the overflow guard lets it through. */
  predicate Paced(p: Pacer, j: int)
    requires p.schedule.sd > 0
  {
    var s := p.schedule;
    && j >= 1 && (s.constAt == 0 || j * s.sd <= s.constAt) && StepRate(s, j - 1) > 0.0
    && HitsBy(s, j) < TWO_TO_64 && !(0 < p.max <= HitsBy(s, j)) && Passes(StepRate(s, j - 1), HitsBy(s, j))
  }

  /** Some run paces that hit before boundary j. It does so if the total there is not whole; if it is whole,
      the hit before must have slept across an earlier boundary and gone out in the last nanosecond. */
  ghost predicate Crosses(p: Pacer, j: int)
    requires p.schedule.sd > 0
    decreases j
  {
    && Paced(p, j)
    && (HitsAt(p.schedule, j * p.schedule.sd) != HitsBy(p.schedule, j) as real
        || exists i :: 1 <= i < j && Crosses(p, i) && Meets(p.schedule, i, j))
  }

  /** The hit that sleeps across boundary i is the last one due by boundary j, and goes out just before it. */
  predicate Meets(s: Schedule, i: int, j: int)
    requires s.sd > 0
  {
    StepRate(s, i - 1) > 0.0 && Landing(s, i) + 1 == j * s.sd && HitsBy(s, i) + 1 == HitsBy(s, j)
  }

  /** The hit that sleeps across boundary j goes out more than a nanosecond before it is due. */
  ghost predicate GetsAhead(p: Pacer, j: int)
    requires p.schedule.sd > 0
  {
    Crosses(p, j) && HitsAt(p.schedule, Landing(p.schedule, j) + 1) < (HitsBy(p.schedule, j) + 1) as real
  }

  /** Every hit of a run that is caught up or paced by the ramp is due one nanosecond after it is sent. */
  ghost predicate StaysDue(p: Pacer, run: seq<Hit>)
    requires p.schedule.Valid()
  {
    IsRun((e, h) => PaceAt(p, e, h), run) && |run| <= TWO_TO_64 ==>
      forall k :: 0 <= k < |run| && BeforeHandOver(p, run[k].call, k) ==>
                    (k + 1) as real <= HitsAt(p.schedule, run[k].send + 1)
  }

  predicate BeforeHandOver(p: Pacer, e: int, k: int)
    requires p.schedule.sd > 0
  {
    k < WholeHits(p.schedule, e) || p.schedule.constAt == 0 || e < p.schedule.constAt
  }

  // ---------- totals ----------

  lemma HitsAreMonotone(s: Schedule, t: int, u: int)
    requires s.Valid() && NoJump(s) && 0 <= t <= u
    ensures HitsAt(s, t) <= HitsAt(s, u)
  {
    hide HitsAt, NoJump;
    HitsIsIntegral(s, t);
    HitsIsIntegral(s, u);
    IntegralIsMonotone(s, t, u);
  }

  /** From a time in step j - 1 the total grows at the rate of that step up to boundary j. */
  lemma HitsToBoundary(s: Schedule, e: int, j: int)
    requires s.Valid() && NoJump(s) && j >= 1 && (j - 1) * s.sd <= e < j * s.sd
    ensures RateAt(s, e) == StepRate(s, j - 1)
    ensures HitsAt(s, j * s.sd) == HitsAt(s, e) + Seconds(j * s.sd - e) * StepRate(s, j - 1)
  {
    hide HitsAt, NoJump, RateAt, BoundaryHits, Seconds, StepRate;
    var k := j - 1;
    var d := e - k * s.sd;
    assert j * s.sd == k * s.sd + s.sd;
    ProductIsMonotone(0, k, s.sd);
    NoJumpIsSteady(s, k);
    SteadyRate(s, k, e);
    HitsInSteadyStep(s, e, k);
    HitsAtBoundary(s, k + 1);
    BoundaryHitsStep(s, k);
    TotalsApart(HitsAt(s, e), HitsAt(s, (k + 1) * s.sd), BoundaryHits(s, k), d, s.sd, StepRate(s, k));
    assert j * s.sd - e == s.sd - d;
  }

  lemma HitsInSteadyStep(s: Schedule, e: int, k: int)
    requires s.Valid() && Steady(s, k) && 0 <= e && k * s.sd <= e < k * s.sd + s.sd
    ensures k >= 0 && HitsAt(s, e) == BoundaryHits(s, k) + Seconds(e - k * s.sd) * StepRate(s, k)
  {
    hide HitsAt, RateAt, BoundaryHits, Seconds, StepRate;
    SteadyRate(s, k, e);
    FirstStepRate(s);
    HitsInStep(s, e, k);
  }

  /** Two totals in one step are apart by the time between them at its rate. */
  lemma TotalsApart(early: real, late: real, base: real, d: int, sd: int, rate: real)
    requires early == base + Seconds(d) * rate && late == base + Seconds(sd) * rate
    ensures late == early + Seconds(sd - d) * rate
  {
    SecondsTimesRate(d, sd - d, rate);
    hide Seconds;
  }

  lemma SteadyRate(s: Schedule, k: int, t: int)
    requires s.sd > 0 && Steady(s, k) && k * s.sd <= t < k * s.sd + s.sd
    ensures RateAt(s, t) == StepRate(s, k)
  {
    hide RateAt, StepRate;
  }

  /** At a positive rate the last nanosecond before a boundary counts. */
  lemma LastNanosecond(s: Schedule, j: int)
    requires s.Valid() && NoJump(s) && j >= 1 && StepRate(s, j - 1) > 0.0
    ensures j * s.sd >= 1
    ensures 0.0 <= HitsAt(s, j * s.sd - 1) < HitsAt(s, j * s.sd)
    ensures HitsAt(s, j * s.sd) == HitsAt(s, j * s.sd - 1) + StepRate(s, j - 1) / NANO as real
    ensures RateAt(s, j * s.sd - 1) == StepRate(s, j - 1)
  {
    hide HitsAt, NoJump, RateAt, StepRate;
    ProductIsMonotone(1, j, s.sd);
    assert (j - 1) * s.sd == j * s.sd - s.sd;
    HitsToBoundary(s, j * s.sd - 1, j);
    HitsAreNonNegative(s, j * s.sd - 1);
    OneNanosecond(StepRate(s, j - 1), 1);
  }

  lemma OneNanosecond(rate: real, ns: int)
    requires ns == 1
    ensures Seconds(ns) * rate == rate / NANO as real
    ensures rate > 0.0 ==> rate / NANO as real > 0.0
  {
  }

  /** Sleeping from a time before a boundary is sleeping up to it and then for what is missing there. */
  lemma SleepToBoundary(rate: real, missing: real, a: int)
    requires rate > 0.0 && missing >= 0.0 && a >= 0
    ensures SleepFor(rate, missing + Seconds(a) * rate) == a + SleepFor(rate, missing) >= a
  {
    var scale := NANO as real / rate;
    assert scale * (Seconds(a) * rate) == a as real by {
      ScaleUndoes(rate, a);
    }
    assert scale * missing >= 0.0;
    assert scale * (missing + Seconds(a) * rate) == scale * missing + a as real;
  }

  lemma ScaleUndoes(rate: real, a: int)
    requires rate > 0.0
    ensures NANO as real / rate * (Seconds(a) * rate) == a as real
  {
    var scale := NANO as real / rate;
    assert scale * rate == NANO as real;
    assert scale * (Seconds(a) * rate) == scale * rate * Seconds(a);
  }

  // ---------- what a turn can do ----------

  /** The pacer's answer in the ramp lets the count through its limits. */
  lemma RampAnswerPasses(p: Pacer, e: int, k: int)
    requires p.schedule.Valid() && PaceAt(p, e, k).Wait? && k >= WholeHits(p.schedule, e)
    requires p.schedule.constAt == 0 || e < p.schedule.constAt
    ensures RateAt(p.schedule, e) > 0.0 && Passes(RateAt(p.schedule, e), k) && !(0 < p.max <= k)
    ensures PaceAt(p, e, k) == Wait(SleepFor(RateAt(p.schedule, e), (k + 1) as real - HitsAt(p.schedule, e)))
  {
    hide HitsAt, RateAt, SleepFor, WholeHits;
  }

  /** The rate is the final one from e on when the switch falls inside the step of e. */
  lemma RateHoldsThroughSwitch(s: Schedule, e: int, j: int, f: int)
    requires s.Valid() && NoJump(s) && 0 <= (j - 1) * s.sd <= e < s.constAt < j * s.sd
    ensures RateHolds(s, e, f)
  {
    hide NoJump, RateAt, RampRate;
    assert (j - 1) * s.sd == j * s.sd - s.sd;
    RateInRamp(s, e, j - 1);
    SwitchInside(s, j - 1, s.constAt);
    forall t | e <= t < f
      ensures RateAt(s, t) >= RateAt(s, e)
    {
      if t < s.constAt {
        RateInRamp(s, t, j - 1);
      } else {
        RateInRamp(s, t, t / s.sd) by { StepOf(t, s.sd); }
      }
    }
  }

  /** The turn sleeps from before boundary j across it, with hit k still missing there. */
  ghost predicate SleepsAcross(p: Pacer, hit: Hit, k: int, j: int)
    requires p.schedule.sd > 0
  {
    var s := p.schedule;
    && j >= 1 && 0 <= (j - 1) * s.sd <= hit.call < j * s.sd <= hit.send && (s.constAt == 0 || j * s.sd <= s.constAt)
    && StepRate(s, j - 1) > 0.0 && Passes(StepRate(s, j - 1), k) && !(0 < p.max <= k)
    && HitsAt(s, j * s.sd) < (k + 1) as real
    && hit.send >= j * s.sd + SleepFor(StepRate(s, j - 1), (k + 1) as real - HitsAt(s, j * s.sd))
  }

  /** A turn before the hand-over sends a hit that was due at its call, or more than due one nanosecond after
      its send, or due at the boundary ending its step, or it sleeps across that boundary. */
  lemma TurnCases(p: Pacer, hit: Hit, k: nat) returns (j: int)
    requires p.schedule.Valid() && NoJump(p.schedule) && BeforeHandOver(p, hit.call, k)
    requires PaceAt(p, hit.call, k).Wait? && 0 <= hit.call <= hit.send
    requires hit.send >= hit.call + Max(PaceAt(p, hit.call, k).ns, 0)
    ensures j >= 1 && hit.call < j * p.schedule.sd
    ensures || (k + 1) as real <= HitsAt(p.schedule, hit.call)
            || (k + 1) as real < HitsAt(p.schedule, hit.send + 1)
            || (j * p.schedule.sd <= hit.send && (k + 1) as real <= HitsAt(p.schedule, j * p.schedule.sd))
            || SleepsAcross(p, hit, k, j)
  {
    var s, e := p.schedule, hit.call;
    hide HitsAt, NoJump, PaceAt, WholeHits, RateAt, StepRate, Passes, SleepFor, Seconds;
    StepOf(e, s.sd);
    j := e / s.sd + 1;
    assert j * s.sd == (j - 1) * s.sd + s.sd;
    if k < WholeHits(s, e) {
      WholeHitsAreHits(s, e);
    } else {
      RampTurnCases(p, hit, k, j);
    }
  }

  lemma RampTurnCases(p: Pacer, hit: Hit, k: nat, j: int)
    requires p.schedule.Valid() && NoJump(p.schedule) && k >= WholeHits(p.schedule, hit.call)
    requires p.schedule.constAt == 0 || hit.call < p.schedule.constAt
    requires PaceAt(p, hit.call, k).Wait? && 0 <= hit.call <= hit.send
    requires hit.send >= hit.call + Max(PaceAt(p, hit.call, k).ns, 0)
    requires j >= 1 && 0 <= (j - 1) * p.schedule.sd <= hit.call < j * p.schedule.sd == (j - 1) * p.schedule.sd + p.schedule.sd
    ensures || (k + 1) as real <= HitsAt(p.schedule, hit.call)
            || (k + 1) as real < HitsAt(p.schedule, hit.send + 1)
            || (j * p.schedule.sd <= hit.send && (k + 1) as real <= HitsAt(p.schedule, j * p.schedule.sd))
            || SleepsAcross(p, hit, k, j)
  {
    var s, e := p.schedule, hit.call;
    hide HitsAt, NoJump, PaceAt, WholeHits, RateAt, StepRate, Passes, SleepFor, Seconds, RateHolds;
    RampAnswerPasses(p, e, k);
    HitsToBoundary(s, e, j);
    var missing := (k + 1) as real - HitsAt(s, e);
    if missing > 0.0 {
      if hit.send + 1 <= j * s.sd || (s.constAt > 0 && j * s.sd > s.constAt) {
        if hit.send + 1 <= j * s.sd {
          StepIs(e, s.sd, j - 1);
          RateHoldsInStep(s, e, hit.send + 1);
        } else {
          RateHoldsThroughSwitch(s, e, j, hit.send + 1);
        }
        StrictlyCovers(s, e, hit.send + 1, missing);
      } else if HitsAt(s, j * s.sd) < (k + 1) as real {
        var r, m, a := StepRate(s, j - 1), (k + 1) as real - HitsAt(s, j * s.sd), j * s.sd - e;
        assert missing == m + Seconds(a) * r;
        SleepToBoundary(r, m, a);
        assert PaceAt(p, e, k).ns == a + SleepFor(r, m);
      }
    }
  }

  /** Sleeping for the truncated wait and one nanosecond more overshoots what was missing. */
  lemma StrictlyCovers(s: Schedule, e: int, f: int, missing: real)
    requires s.Valid() && NoJump(s) && 0 <= e <= f && RateHolds(s, e, f)
    requires RateAt(s, e) > 0.0 && missing > 0.0 && f >= e + Max(SleepFor(RateAt(s, e), missing), 0) + 1
    ensures HitsAt(s, f) > HitsAt(s, e) + missing
  {
    hide HitsAt, NoJump, RateAt, RateHolds, SleepFor, Seconds;
    var gained := Seconds(f - e) * RateAt(s, e);
    HitsGrowUntil(s, e, f, gained);
    SpanOvershoots(RateAt(s, e), missing, f - e);
  }

  lemma SpanOvershoots(rate: real, missing: real, span: int)
    requires rate > 0.0 && missing > 0.0 && span >= SleepFor(rate, missing) + 1
    ensures Seconds(span) * rate > missing
  {
    var x := NANO as real / rate * missing;
    assert span as real > x;
    assert x * rate == NANO as real * missing by {
      assert NANO as real / rate * rate == NANO as real;
    }
    assert (span as real - x) * rate > 0.0;
    assert Seconds(span) * rate == span as real * rate / NANO as real;
  }

  // ---------- without a boundary to get ahead at, every hit stays due ----------

  /** Hits sent in the last nanosecond before a boundary with a whole total have slept across an earlier one. */
  ghost predicate ArrivesFromCrossing(p: Pacer, send: int, k: int)
    requires p.schedule.Valid()
  {
    forall j :: j >= 1 && send + 1 == j * p.schedule.sd && StepRate(p.schedule, j - 1) > 0.0
                && HitsAt(p.schedule, j * p.schedule.sd) == (k + 1) as real ==>
                  exists i :: 1 <= i < j && Crosses(p, i) && Meets(p.schedule, i, j)
  }

  lemma EarlierIsBefore(p: Pacer, hit: Hit, k: int, j: int, e: int)
    requires p.schedule.sd > 0 && SleepsAcross(p, hit, k, j) && e <= hit.call
    ensures BeforeHandOver(p, e, k - 1)
  {
    hide HitsAt, WholeHits;
  }

  /** A hit that does not sleep across a boundary is due, and never goes out just before a whole total of
      its own. */
  lemma EasyTurn(p: Pacer, hit: Hit, k: nat, j: int)
    requires p.schedule.Valid() && NoJump(p.schedule) && 0 <= hit.call <= hit.send && j >= 1
    requires || (k + 1) as real <= HitsAt(p.schedule, hit.call)
             || (k + 1) as real < HitsAt(p.schedule, hit.send + 1)
             || (j * p.schedule.sd <= hit.send && (k + 1) as real <= HitsAt(p.schedule, j * p.schedule.sd))
    ensures (k + 1) as real <= HitsAt(p.schedule, hit.send + 1) && ArrivesFromCrossing(p, hit.send, k)
  {
    var s := p.schedule;
    hide HitsAt, NoJump, StepRate, Crosses, Meets;
    ProductIsMonotone(0, j, s.sd);
    HitsAreMonotone(s, hit.call, hit.send);
    HitsAreMonotone(s, hit.send, hit.send + 1);
    if j * s.sd <= hit.send {
      HitsAreMonotone(s, j * s.sd, hit.send);
    }
    forall jj | jj >= 1 && hit.send + 1 == jj * s.sd && StepRate(s, jj - 1) > 0.0
      ensures HitsAt(s, jj * s.sd) != (k + 1) as real
    {
      LastNanosecond(s, jj);
    }
  }

  lemma FloorIs(x: real, k: int)
    requires k as real <= x < (k + 1) as real
    ensures x.Floor == k
  {
  }

  /** The hits before one that sleeps across a boundary are those due by it. */
  lemma CrossingCount(p: Pacer, hit: Hit, k: nat, j: int, before: int)
    requires p.schedule.Valid() && NoJump(p.schedule) && SleepsAcross(p, hit, k, j)
    requires 0 <= before <= hit.call && (k > 0 ==> k as real <= HitsAt(p.schedule, before + 1))
    ensures HitsBy(p.schedule, j) == k && k as real <= HitsAt(p.schedule, j * p.schedule.sd)
    ensures HitsAt(p.schedule, j * p.schedule.sd) == k as real ==> k > 0 && before + 1 == j * p.schedule.sd
  {
    var s := p.schedule;
    hide HitsAt, NoJump, StepRate, Passes, SleepFor;
    LastNanosecond(s, j);
    HitsAreMonotone(s, before + 1, j * s.sd);
    if before + 1 < j * s.sd {
      HitsAreMonotone(s, before + 1, j * s.sd - 1);
    }
    FloorIs(HitsAt(s, j * s.sd), k);
  }

  lemma CrossingCrosses(p: Pacer, hit: Hit, k: nat, j: int, before: int)
    requires p.schedule.Valid() && NoJump(p.schedule) && SleepsAcross(p, hit, k, j) && k < TWO_TO_64
    requires 0 <= before <= hit.call && (k > 0 ==> k as real <= HitsAt(p.schedule, before + 1))
    requires k > 0 ==> ArrivesFromCrossing(p, before, k - 1)
    ensures HitsBy(p.schedule, j) == k && Crosses(p, j) && Landing(p.schedule, j) <= hit.send
  {
    var s := p.schedule;
    hide HitsAt, NoJump, StepRate, Passes, SleepFor, Meets, HitsBy;
    CrossingCount(p, hit, k, j, before);
  }

  /** A hit that sleeps across a boundary is due too if nothing gets ahead there; if it goes out just before a
      whole total of its own, it has arrived from that boundary. */
  lemma CrossingTurn(p: Pacer, hit: Hit, k: nat, j: int, before: int)
    requires p.schedule.Valid() && NoJump(p.schedule) && SleepsAcross(p, hit, k, j) && k < TWO_TO_64
    requires 0 <= before <= hit.call && (k > 0 ==> k as real <= HitsAt(p.schedule, before + 1))
    requires k > 0 ==> ArrivesFromCrossing(p, before, k - 1)
    requires !GetsAhead(p, j)
    ensures (k + 1) as real <= HitsAt(p.schedule, hit.send + 1) && ArrivesFromCrossing(p, hit.send, k)
  {
    var s := p.schedule;
    hide HitsAt, NoJump, StepRate, Passes, SleepFor, Crosses, Meets, HitsBy, Landing, ArrivesFromCrossing;
    CrossingCrosses(p, hit, k, j, before);
    LandsAfter(s, j);
    HitsAreMonotone(s, Landing(s, j) + 1, hit.send + 1);
    ArrivesFromThere(p, hit.send, k, j);
  }

  lemma LandsAfter(s: Schedule, j: int)
    requires s.sd > 0 && j >= 1 && StepRate(s, j - 1) > 0.0
    ensures Landing(s, j) >= j * s.sd > 0
  {
    hide HitsAt, StepRate;
    ProductIsMonotone(1, j, s.sd);
    var x := HitsAt(s, j * s.sd);
    SleepIsNatural(StepRate(s, j - 1), (x.Floor + 1) as real - x);
    hide SleepFor;
  }

  lemma SleepIsNatural(rate: real, missing: real)
    requires rate > 0.0 && missing >= 0.0
    ensures SleepFor(rate, missing) >= 0
  {
    assert NANO as real / rate >= 0.0;
    assert NANO as real / rate * missing >= 0.0;
  }

  lemma ArrivesFromThere(p: Pacer, send: int, k: nat, j: int)
    requires p.schedule.Valid() && NoJump(p.schedule) && j >= 1 && Crosses(p, j) && HitsBy(p.schedule, j) == k
    requires StepRate(p.schedule, j - 1) > 0.0 && 0 < j * p.schedule.sd <= Landing(p.schedule, j) <= send
    requires (k + 1) as real <= HitsAt(p.schedule, Landing(p.schedule, j) + 1)
    ensures ArrivesFromCrossing(p, send, k)
  {
    var s := p.schedule;
    hide HitsAt, NoJump, StepRate, Crosses, Landing;
    forall jj | jj >= 1 && send + 1 == jj * s.sd && StepRate(s, jj - 1) > 0.0 && HitsAt(s, jj * s.sd) == (k + 1) as real
      ensures exists i :: 1 <= i < jj && Crosses(p, i) && Meets(s, i, jj)
    {
      LastNanosecond(s, jj);
      if Landing(s, j) + 1 < jj * s.sd {
        HitsAreMonotone(s, Landing(s, j) + 1, jj * s.sd - 1);
      }
      FloorIs(HitsAt(s, jj * s.sd), k + 1);
      ProductIsMonotone(jj, j, s.sd);
      assert Meets(s, j, jj);
    }
  }

  lemma {:induction false} HitStaysDue(p: Pacer, run: seq<Hit>, k: int)
    requires p.schedule.Valid() && NoJump(p.schedule) && forall j :: !GetsAhead(p, j)
    requires IsRun((e, h) => PaceAt(p, e, h), run) && |run| <= TWO_TO_64
    requires 0 <= k < |run| && BeforeHandOver(p, run[k].call, k)
    ensures (k + 1) as real <= HitsAt(p.schedule, run[k].send + 1)
    ensures ArrivesFromCrossing(p, run[k].send, k)
    decreases k
  {
    var pace := (e, h) => PaceAt(p, e, h);
    SendsAreOrdered(pace, run, k, k);
    assert ObeysAt(pace, run, k);
    hide HitsAt, NoJump, WholeHits, Crosses, GetsAhead, ArrivesFromCrossing, SleepsAcross;
    var j := TurnCases(p, run[k], k);
    if SleepsAcross(p, run[k], k, j) {
      if k == 0 {
      } else {
        SendsAreOrdered(pace, run, k - 1, k - 1);
        EarlierIsBefore(p, run[k], k, j, run[k - 1].call);
        HitStaysDue(p, run, k - 1);
      }
      hide PaceAt;
      CrossingTurn(p, run[k], k, j, if k == 0 then 0 else run[k - 1].send);
    } else {
      hide PaceAt;
      EasyTurn(p, run[k], k, j);
    }
  }

  // ---------- a boundary to get ahead at is used by some run ----------

  /** Asked in the last nanosecond before boundary j with all hits due by it sent, the pacer sleeps across. */
  lemma AnswerAcross(p: Pacer, j: int)
    requires p.schedule.Valid() && NoJump(p.schedule) && Paced(p, j)
    ensures var s := p.schedule;
            && HitsBy(s, j) >= 0 && j * s.sd >= 1 && StepRate(s, j - 1) > 0.0 && Landing(s, j) >= j * s.sd
            && PaceAt(p, j * s.sd - 1, HitsBy(s, j)) == Wait(Landing(s, j) - (j * s.sd - 1))
  {
    var s, b, k, r := p.schedule, j * p.schedule.sd, HitsBy(p.schedule, j), StepRate(p.schedule, j - 1);
    hide HitsAt, NoJump, StepRate, RateAt, SleepFor, PaceAt, Seconds, WholeHits, Landing, Passes;
    LandsAfter(s, j);
    LastNanosecond(s, j);
    WholeHitsAtMost(s, b - 1, k);
    RampAnswers(p, b - 1, k);
    LandingFromLastNanosecond(s, j);
  }

  lemma LandingFromLastNanosecond(s: Schedule, j: int)
    requires s.Valid() && NoJump(s) && j >= 1 && StepRate(s, j - 1) > 0.0
    ensures SleepFor(StepRate(s, j - 1), (HitsBy(s, j) + 1) as real - HitsAt(s, j * s.sd - 1)) ==
            Landing(s, j) - (j * s.sd - 1)
  {
    hide HitsAt, NoJump, StepRate, RateAt, SleepFor, Seconds;
    LastNanosecond(s, j);
    var r, ns := StepRate(s, j - 1), 1;
    OneNanosecond(r, ns);
    var missing := (HitsBy(s, j) + 1) as real - HitsAt(s, j * s.sd);
    SleepToBoundary(r, missing, ns);
    var earlier := (HitsBy(s, j) + 1) as real - HitsAt(s, j * s.sd - 1);
    SameSleep(r, earlier, missing + Seconds(ns) * r);
  }

  lemma SameSleep(rate: real, x: real, y: real)
    requires rate > 0.0 && x == y
    ensures SleepFor(rate, x) == SleepFor(rate, y)
  {
  }

  lemma WholeHitsAtMost(s: Schedule, t: int, k: int)
    requires s.Valid() && 0.0 <= HitsAt(s, t) < (k + 1) as real && k < TWO_TO_64
    ensures WholeHits(s, t) <= k && WholeHits(s, t) == HitsAt(s, t).Floor
  {
    hide HitsAt;
    var x := HitsAt(s, t);
    assert 0 <= x.Floor <= k;
    SmallIsExact(x.Floor);
    hide ToUint64;
  }

  /** The ramp's answer for a count that passes its limits. */
  lemma RampAnswers(p: Pacer, e: int, k: int)
    requires p.schedule.Valid() && k >= WholeHits(p.schedule, e) && !(0 < p.max <= k)
    requires p.schedule.constAt == 0 || e < p.schedule.constAt
    requires RateAt(p.schedule, e) > 0.0 && Passes(RateAt(p.schedule, e), k)
    ensures PaceAt(p, e, k) == Wait(SleepFor(RateAt(p.schedule, e), (k + 1) as real - HitsAt(p.schedule, e)))
  {
    hide HitsAt, RateAt, SleepFor, WholeHits;
  }

  /** With a total that is not whole at boundary j, the hits due by it are sent at once in the last
      nanosecond before it. */
  lemma AnswerAtOnce(p: Pacer, j: int, i: int)
    requires p.schedule.Valid() && NoJump(p.schedule) && Paced(p, j)
    requires HitsAt(p.schedule, j * p.schedule.sd) != HitsBy(p.schedule, j) as real && 0 <= i < HitsBy(p.schedule, j)
    ensures PaceAt(p, j * p.schedule.sd - 1, i).Wait? && PaceAt(p, j * p.schedule.sd - 1, i).ns <= 0
  {
    var s, b, k, r := p.schedule, j * p.schedule.sd, HitsBy(p.schedule, j), StepRate(p.schedule, j - 1);
    hide HitsAt, NoJump, StepRate, RateAt, SleepFor, Seconds, WholeHits;
    LastNanosecond(s, j);
    WholeHitsAtMost(s, b - 1, k);
    if i >= WholeHits(s, b - 1) {
      SmallerPasses(r, i, k);
      RampAnswers(p, b - 1, i);
      var missing := (i + 1) as real - HitsAt(s, b - 1);
      assert missing < r / NANO as real;
      NoSleep(r, missing);
    }
    hide Passes;
  }

  lemma SmallerPasses(rate: real, i: int, k: int)
    requires rate > 0.0 && i <= k && Passes(rate, k)
    ensures Passes(rate, i)
  {
    hide TruncDiv, Trunc;
  }

  /** Less than a nanosecond is not slept. */
  lemma NoSleep(rate: real, missing: real)
    requires rate > 0.0 && missing < rate / NANO as real
    ensures SleepFor(rate, missing) <= 0
  {
    var scale, x := NANO as real / rate, rate / NANO as real;
    var whole := Inverses(rate);
    ProductsDiffer(scale, missing, x - missing, x);
    TruncOfLessThanOne(scale * missing);
  }

  lemma Inverses(rate: real) returns (whole: real)
    requires rate > 0.0
    ensures whole == NANO as real / rate * (rate / NANO as real) && whole == 1.0 && NANO as real / rate > 0.0
  {
    whole := NANO as real / rate * (rate / NANO as real);
  }

  lemma TruncOfLessThanOne(y: real)
    requires y < 1.0
    ensures Trunc(y) <= 0
  {
  }

  lemma ProductsDiffer(scale: real, y: real, d: real, x: real)
    requires scale > 0.0 && d > 0.0 && x == y + d
    ensures scale * y < scale * x
  {
    assert scale * d > 0.0;
    assert scale * (y + d) == scale * y + scale * d;
  }

  /** A run that has sent the hits due by a boundary at which a hit sleeps across, before it. */
  lemma {:induction false} RunTo(p: Pacer, j: int) returns (run: seq<Hit>)
    requires p.schedule.Valid() && NoJump(p.schedule) && Crosses(p, j)
    ensures IsRun((e, h) => PaceAt(p, e, h), run) && |run| == HitsBy(p.schedule, j)
    ensures run != [] ==> run[|run| - 1].send <= j * p.schedule.sd - 1
    decreases j
  {
    hide HitsAt, NoJump, StepRate, PaceAt, Landing, HitsBy, Paced;
    var s := p.schedule;
    AnswerAcross(p, j);
    if HitsAt(s, j * s.sd) != HitsBy(s, j) as real {
      run := AllAtOnce(p, j);
    } else {
      var i :| 1 <= i < j && Crosses(p, i) && Meets(s, i, j);
      run := RunTo(p, i);
      run := OneMore(p, run, i);
    }
  }

  lemma AllAtOnce(p: Pacer, j: int) returns (run: seq<Hit>)
    requires p.schedule.Valid() && NoJump(p.schedule) && Paced(p, j) && HitsBy(p.schedule, j) >= 0
    requires HitsAt(p.schedule, j * p.schedule.sd) != HitsBy(p.schedule, j) as real && j * p.schedule.sd >= 1
    ensures IsRun((e, h) => PaceAt(p, e, h), run) && |run| == HitsBy(p.schedule, j)
    ensures run != [] ==> run[|run| - 1].send <= j * p.schedule.sd - 1
  {
    hide HitsAt, NoJump, StepRate, PaceAt, HitsBy, Paced;
    var t := j * p.schedule.sd - 1;
    run := seq(HitsBy(p.schedule, j), _ => Hit(t, t));
    var pace := (e, h) => PaceAt(p, e, h);
    forall k | 0 <= k < |run|
      ensures ObeysAt(pace, run, k)
    {
      AnswerAtOnce(p, j, k);
    }
  }

  /** The hit that sleeps across boundary j goes out after the run that has sent those before it. */
  lemma OneMore(p: Pacer, run: seq<Hit>, j: int) returns (longer: seq<Hit>)
    requires p.schedule.Valid() && NoJump(p.schedule) && Paced(p, j)
    requires IsRun((e, h) => PaceAt(p, e, h), run) && |run| == HitsBy(p.schedule, j)
    requires run != [] ==> run[|run| - 1].send <= j * p.schedule.sd - 1
    ensures IsRun((e, h) => PaceAt(p, e, h), longer)
    ensures longer == run + [Hit(j * p.schedule.sd - 1, Landing(p.schedule, j))]
  {
    hide HitsAt, NoJump, StepRate, PaceAt, Landing, HitsBy, Paced;
    AnswerAcross(p, j);
    longer := run + [Hit(j * p.schedule.sd - 1, Landing(p.schedule, j))];
    var pace := (e, h) => PaceAt(p, e, h);
    forall k | 0 <= k < |longer|
      ensures ObeysAt(pace, longer, k)
    {
      if k < |run| {
        assert ObeysAt(pace, run, k);
      }
    }
  }

  lemma SomeRunGetsAhead(p: Pacer, j: int) returns (run: seq<Hit>)
    requires p.schedule.Valid() && NoJump(p.schedule) && GetsAhead(p, j)
    ensures !StaysDue(p, run)
  {
    hide HitsAt, NoJump, StepRate, PaceAt, Landing, HitsBy;
    var before := RunTo(p, j);
    run := OneMore(p, before, j);
    hide Crosses, Passes;
    LastNanosecond(p.schedule, j);
    assert BeforeHandOver(p, run[|before|].call, |before|);
  }

  // ---------- the theorem ----------

  /** On every schedule without jumps, rising or falling, also where the rate is zero: all hits of all runs
      that are caught up or paced by the ramp are due one nanosecond after they are sent, if and only if no
      boundary of the configuration lets a hit get ahead. */
  lemma NeverAheadIff(p: Pacer)
    requires p.schedule.Valid() && NoJump(p.schedule)
    ensures (forall run :: StaysDue(p, run)) <==> forall j :: !GetsAhead(p, j)
  {
    hide GetsAhead, NoJump;
    if j :| GetsAhead(p, j) {
      var run := SomeRunGetsAhead(p, j);
    } else {
      forall run
        ensures StaysDue(p, run)
      {
        AllStayDue(p, run);
      }
    }
  }

  lemma AllStayDue(p: Pacer, run: seq<Hit>)
    requires p.schedule.Valid() && NoJump(p.schedule) && forall j :: !GetsAhead(p, j)
    ensures StaysDue(p, run)
  {
    hide HitsAt, NoJump, PaceAt, GetsAhead, BeforeHandOver, ArrivesFromCrossing;
    if IsRun((e, h) => PaceAt(p, e, h), run) && |run| <= TWO_TO_64 {
      forall k | 0 <= k < |run| && BeforeHandOver(p, run[k].call, k)
        ensures (k + 1) as real <= HitsAt(p.schedule, run[k].send + 1)
      {
        HitStaysDue(p, run, k);
      }
    }
  }

  /** Only finitely many boundaries matter: those of the ramp before the switch, and before its rate is zero. */
  lemma GetsAheadEarly(p: Pacer, j: int)
    requires p.schedule.Valid() && GetsAhead(p, j)
    ensures j >= 1 && (p.schedule.constAt > 0 ==> j * p.schedule.sd <= p.schedule.constAt)
    ensures p.schedule.constAt == 0 && p.schedule.step < 0 ==> p.schedule.start + p.schedule.step * (j - 1) > 0
  {
    hide HitsAt, Passes, SleepFor;
    var s := p.schedule;
    if s.constAt == 0 && j > 1 {
      ProductIsMonotone(0, j - 1, s.sd);
      RateInRamp(s, (j - 1) * s.sd, j - 1);
      hide RateAt;
    }
  }

  /** The falling load of `StepRuns` gets ahead at its first boundary. */
  lemma FallingGetsAhead()
    ensures GetsAhead(FALLING, 1)
  {
    var s := FALLING.schedule;
    FallingHits();
    FallingBoundary();
    hide HitsAt;
    assert HitsBy(s, 1) == 1 && StepRate(s, 0) == 2.0;
    assert SleepFor(2.0, 0.5) == 250_000_000;
    assert Landing(s, 1) == 1_000_000_000;
  }

  lemma FallingBoundary()
    ensures HitsAt(FALLING.schedule, 1 * 750_000_000) == 1.5
  {
    HitsInStep(FALLING.schedule, 750_000_000, 1);
  }
}
