/** The constant part of a stepped load (load/pacer.go) is paced by an interval of whole nanoseconds and
    counted by its rate: exactly when the two stay together. */
module StepDrifts {
  import opened GoNumbers
  import opened Driver
  import opened ConstantPacers
  import opened StepSchedules
  import opened StepRuns
  import opened StepCrossings

  /** An initialised pacer with a constant part of at most one hit per nanosecond. */
  predicate HasConstantPart(p: Pacer) {
    && p.schedule.sd > 0 && p.schedule.constAt > 0 && 1 <= p.schedule.stop <= NANO
    && p.baseHits == WholeHits(p.schedule, p.schedule.constAt)
  }

  function Final(p: Pacer): ConstantPacer {
    ConstantPacer(p.schedule.stop, p.stopMax)
  }

  /** Hit k of a run is paced by the constant part, and all counts and times fit their types. */
  predicate InConstantPart(p: Pacer, run: seq<Hit>, k: int)
    requires p.schedule.sd > 0 && 1 <= p.schedule.stop <= NANO
  {
    && 0 <= k < |run| && k < TWO_TO_64
    && p.schedule.constAt <= run[k].call && k >= WholeHits(p.schedule, run[k].call)
    && HitsAt(p.schedule, run[k].call) < TWO_TO_64 as real
    && run[k].send - p.schedule.constAt <= MAX_INT64
    && k + 1 - p.baseHits <= LastFittingHit(Final(p))
  }

  /** Every hit of the run that is paced by the constant part is due when it is sent. */
  ghost predicate ConstantPartStaysDue(p: Pacer, run: seq<Hit>)
    requires p.schedule.Valid() && 1 <= p.schedule.stop <= NANO
  {
    IsRun((e, h) => PaceAt(p, e, h), run) ==>
      forall k :: InConstantPart(p, run, k) ==> (k + 1) as real <= HitsAt(p.schedule, run[k].send)
  }

  /** Both limits let the pacer send another hit after i hits of the constant part. */
  predicate Allowed(p: Pacer, i: int) {
    !(0 < p.max <= p.baseHits + i) && !(0 < p.stopMax <= i)
  }

  /** The hits of the constant part that both limits let through, at most as many as a second has
      nanoseconds. */
  function HitsAllowed(p: Pacer): nat {
    var n := if p.stopMax > 0 then Min(p.stopMax, NANO) else NANO;
    if p.max > 0 then Max(Min(p.max - p.baseHits, n), 0) else n
  }

  lemma AllowedIff(p: Pacer, i: nat)
    requires i < NANO
    ensures Allowed(p, i) <==> i < HitsAllowed(p)
  {
  }

  // ---------- totals after the switch ----------

  /** From the switch on the total grows at the final rate. */
  lemma {:induction false} FinalHits(s: Schedule, d: nat)
    requires s.Valid() && NoJump(s) && s.constAt > 0
    ensures HitsAt(s, s.constAt + d) == HitsAt(s, s.constAt) + Seconds(d) * s.stop as real
    decreases d
  {
    hide HitsAt, NoJump, Seconds, RateAt;
    if d == 0 {
      ZeroSeconds();
    } else {
      FinalHits(s, d - 1);
      var t := s.constAt + d - 1;
      StepOf(t, s.sd);
      NoJumpIsSteady(s, t / s.sd);
      HitsIncrement(s, t, t / s.sd);
      RateIsFinal(s, t);
      OneMoreNanosecond(d, s.stop as real);
    }
  }

  lemma OneMoreNanosecond(d: int, rate: real)
    ensures Seconds(d) * rate == Seconds(d - 1) * rate + rate / NANO as real
  {
    SecondsTimesRate(d - 1, 1, rate);
  }

  lemma RateIsFinal(s: Schedule, t: int)
    requires s.sd > 0 && 0 < s.constAt <= t
    ensures RateAt(s, t) == s.stop as real
  {
  }

  // ---------- a final rate of zero ----------

  /** From a switch to rate zero on, hits already due are sent at once and then the run ends. */
  lemma NothingAfterZero(p: Pacer, elapsed: int, hits: int)
    requires p.schedule.Valid() && NoJump(p.schedule) && p.schedule.stop == 0 && 0 < p.schedule.constAt <= elapsed
    requires HitsAt(p.schedule, p.schedule.constAt) < TWO_TO_64 as real
    ensures PaceAt(p, elapsed, hits) ==
            if 0 < p.max <= hits || (hits + 1) as real > HitsAt(p.schedule, p.schedule.constAt) then Stop else Wait(0)
  {
    var s := p.schedule;
    TotalStays(s, elapsed);
    WholeHitsAreExact(s, elapsed);
    HitsAreNonNegative(s, elapsed);
    hide HitsAt, NoJump, WholeHits, RateAt;
    WholeIsFloor(HitsAt(s, elapsed), hits);
  }

  lemma TotalStays(s: Schedule, t: int)
    requires s.Valid() && NoJump(s) && s.stop == 0 && 0 < s.constAt <= t
    ensures HitsAt(s, t) == HitsAt(s, s.constAt)
  {
    FinalHits(s, t - s.constAt);
    hide HitsAt;
    assert s.constAt + (t - s.constAt) == t;
  }

  lemma WholeIsFloor(x: real, n: int)
    requires x >= 0.0
    ensures n < Trunc(x) <==> (n + 1) as real <= x
  {
  }

  /** Once the load has fallen to a final rate of zero, no run sends more hits than were due at the switch. */
  lemma FallingToZeroEnds(p: Pacer, run: seq<Hit>, k: int)
    requires p.schedule.Valid() && NoJump(p.schedule) && p.schedule.stop == 0 && p.schedule.constAt > 0
    requires HitsAt(p.schedule, p.schedule.constAt) < TWO_TO_64 as real
    requires IsRun((e, h) => PaceAt(p, e, h), run) && 0 <= k < |run| && run[k].call >= p.schedule.constAt
    ensures (k + 1) as real <= HitsAt(p.schedule, p.schedule.constAt)
  {
    hide HitsAt, NoJump, PaceAt;
    var pace := (e, h) => PaceAt(p, e, h);
    assert ObeysAt(pace, run, k);
    NothingAfterZero(p, run[k].call, k);
  }

  // ---------- the run that drifts ----------

  /** The nanoseconds of a second that whole intervals leave over. */
  function LeftOver(p: Pacer): int
    requires 1 <= p.schedule.stop <= NANO
  {
    NANO - Final(p).Interval() * p.schedule.stop
  }

  lemma LeftOverIsRemainder(p: Pacer)
    requires 1 <= p.schedule.stop <= NANO
    ensures LeftOver(p) == NANO % p.schedule.stop >= 0 && Final(p).Interval() == NANO / p.schedule.stop
    ensures NANO < LastFittingHit(Final(p)) && 1 <= Final(p).Interval() <= NANO
  {
    IntervalIsFloor(Final(p));
    hide ConstantPacer.Interval;
    FitsIffAtMostQuotient(MAX_INT64, Final(p).Interval(), NANO + 1);
    ProductIsMonotone(Final(p).Interval(), NANO, NANO + 1);
  }

  /** The hits due after i intervals since the switch. */
  lemma HitsAfterIntervals(p: Pacer, i: nat)
    requires p.schedule.Valid() && NoJump(p.schedule) && HasConstantPart(p)
    ensures i * Final(p).Interval() >= 0
    ensures HitsAt(p.schedule, p.schedule.constAt + i * Final(p).Interval()) ==
            HitsAt(p.schedule, p.schedule.constAt) + i as real - (i * LeftOver(p)) as real / NANO as real
  {
    hide HitsAt, NoJump, Seconds, ConstantPacer.Interval, WholeHits;
    LeftOverIsRemainder(p);
    ProductIsMonotone(0, i, Final(p).Interval());
    FinalHits(p.schedule, i * Final(p).Interval());
    IntervalsInSeconds(i, Final(p).Interval(), p.schedule.stop);
  }

  lemma IntervalsInSeconds(i: int, interval: int, rate: int)
    ensures Seconds(i * interval) * rate as real == i as real - (i * (NANO - interval * rate)) as real / NANO as real
  {
    ScaledSeconds(i * interval, rate);
    hide Seconds;
    assert i * interval * rate == i * NANO - i * (NANO - interval * rate);
  }

  /** Asked after i intervals with i hits sent since the switch, the pacer waits one interval. */
  lemma WaitsInterval(p: Pacer, i: nat)
    requires p.schedule.Valid() && NoJump(p.schedule) && HasConstantPart(p) && i < NANO && Allowed(p, i)
    requires HitsAt(p.schedule, p.schedule.constAt) + (2 * NANO) as real < TWO_TO_64 as real
    ensures var e := p.schedule.constAt + i * Final(p).Interval();
            && e >= p.schedule.constAt
            && PaceAt(p, e, p.baseHits + i) == Wait(Final(p).Interval())
            && WholeHits(p.schedule, e) <= p.baseHits + i
            && HitsAt(p.schedule, e) < TWO_TO_64 as real && p.baseHits + i < TWO_TO_64 - NANO
  {
    hide HitsAt, NoJump, ConstantPacer.Interval, LeftOver, LastFittingHit, PaceAt, WholeHits, HandOver;
    LeftOverIsRemainder(p);
    HitsAfterIntervals(p, i);
    HitsAreNonNegative(p.schedule, p.schedule.constAt);
    BaseIsFloor(p);
    ProductIsMonotone(0, i, LeftOver(p));
    var e := p.schedule.constAt + i * Final(p).Interval();
    HitsAreNonNegative(p.schedule, e);
    WholeHitsAtMost(p.schedule, e, p.baseHits + i);
    ReachedHandOver(p, e, p.baseHits + i);
    HandOverWaits(p, i);
  }

  lemma BaseIsFloor(p: Pacer)
    requires p.schedule.Valid() && HasConstantPart(p) && HitsAt(p.schedule, p.schedule.constAt) < TWO_TO_64 as real
    ensures p.baseHits as real <= HitsAt(p.schedule, p.schedule.constAt) < (p.baseHits + 1) as real
  {
    hide HitsAt, ToUint64;
    HitsAreNonNegative(p.schedule, p.schedule.constAt);
    TruncIsBelow(HitsAt(p.schedule, p.schedule.constAt));
    SmallIsExact(Trunc(HitsAt(p.schedule, p.schedule.constAt)));
  }

  lemma HandOverWaits(p: Pacer, i: nat)
    requires p.schedule.Valid() && HasConstantPart(p) && i + 1 <= LastFittingHit(Final(p)) && i < NANO
    requires Allowed(p, i)
    ensures HandOver(p, p.schedule.constAt + i * Final(p).Interval(), p.baseHits + i) == Wait(Final(p).Interval())
  {
    hide HitsAt, ConstantPacer.Interval, ConstantPacer.Pace, LastFittingHit, WholeHits;
    WaitsOneInterval(Final(p), i);
    SmallIsExact(i);
    hide ToUint64;
  }

  /** The hits due at the switch are sent there, and then one hit every interval. */
  function DriftingHit(p: Pacer, k: nat): Hit
    requires 1 <= p.schedule.stop <= NANO
  {
    var at, i := p.schedule.constAt, k - p.baseHits;
    if i < 0 then Hit(at, at) else Hit(at + i * Final(p).Interval(), at + (i + 1) * Final(p).Interval())
  }

  function DriftingRun(p: Pacer, n: nat): (run: seq<Hit>)
    requires 1 <= p.schedule.stop <= NANO
    ensures |run| == p.baseHits + n && forall k :: 0 <= k < |run| ==> run[k] == DriftingHit(p, k)
  {
    seq(p.baseHits + n, k requires 0 <= k => DriftingHit(p, k))
  }

  lemma OneMoreInterval(i: nat, interval: int)
    requires interval >= 1
    ensures (i + 1) * interval == i * interval + interval && i * interval >= 0
  {
  }

  lemma DriftingTurn(p: Pacer, n: nat, k: int)
    requires p.schedule.Valid() && NoJump(p.schedule) && HasConstantPart(p) && 1 <= n <= HitsAllowed(p)
    requires HitsAt(p.schedule, p.schedule.constAt) + (2 * NANO) as real < TWO_TO_64 as real
    requires 0 <= k < |DriftingRun(p, n)|
    ensures ObeysAt((e, h) => PaceAt(p, e, h), DriftingRun(p, n), k)
  {
    hide HitsAt, NoJump, ConstantPacer.Interval, PaceAt, WholeHits, HitsAllowed, LeftOver, LastFittingHit;
    var i := k - p.baseHits;
    LeftOverIsRemainder(p);
    AtMostASecond(p);
    AllowedIff(p, n - 1);
    if i < 0 {
      BehindIsSentAtOnce(p, p.schedule.constAt, k);
    } else {
      WaitsInterval(p, i);
      OneMoreInterval(i, Final(p).Interval());
    }
  }

  // ---------- the theorem ----------

  /** The fraction of a hit due at the switch covers what i intervals leave over. */
  predicate KeepsUp(p: Pacer, i: int)
    requires p.schedule.sd > 0 && 1 <= p.schedule.stop <= NANO
  {
    (i * LeftOver(p)) as real / NANO as real <= HitsAt(p.schedule, p.schedule.constAt) - p.baseHits as real
  }

  lemma DriftingRunObeys(p: Pacer, n: nat)
    requires p.schedule.Valid() && NoJump(p.schedule) && HasConstantPart(p) && 1 <= n <= HitsAllowed(p)
    requires HitsAt(p.schedule, p.schedule.constAt) + (2 * NANO) as real < TWO_TO_64 as real
    ensures IsRun((e, h) => PaceAt(p, e, h), DriftingRun(p, n))
  {
    hide HitsAt, NoJump, PaceAt, WholeHits, DriftingRun, HitsAllowed;
    var pace := (e, h) => PaceAt(p, e, h);
    forall k | 0 <= k < |DriftingRun(p, n)|
      ensures ObeysAt(pace, DriftingRun(p, n), k)
    {
      DriftingTurn(p, n, k);
    }
  }

  lemma LastDriftingHit(p: Pacer, n: nat)
    requires p.schedule.Valid() && NoJump(p.schedule) && HasConstantPart(p) && 1 <= n <= HitsAllowed(p)
    requires HitsAt(p.schedule, p.schedule.constAt) + (2 * NANO) as real < TWO_TO_64 as real
    ensures var run, k := DriftingRun(p, n), p.baseHits + n - 1;
            && InConstantPart(p, run, k) && run[k].send == p.schedule.constAt + n * Final(p).Interval()
  {
    hide HitsAt, NoJump, ConstantPacer.Interval, PaceAt, WholeHits, LastFittingHit, LeftOver, HitsAllowed;
    LeftOverIsRemainder(p);
    AtMostASecond(p);
    AllowedIff(p, n - 1);
    WaitsInterval(p, n - 1);
    ShortTime(n, Final(p).Interval());
  }

  /** If the fraction does not cover what the allowed hits leave over, the last of them is sent too early. */
  lemma DriftsAhead(p: Pacer)
    requires p.schedule.Valid() && NoJump(p.schedule) && HasConstantPart(p) && !KeepsUp(p, HitsAllowed(p))
    requires HitsAt(p.schedule, p.schedule.constAt) + (2 * NANO) as real < TWO_TO_64 as real
    ensures !ConstantPartStaysDue(p, DriftingRun(p, HitsAllowed(p)))
  {
    hide HitsAt, NoJump, ConstantPacer.Interval, PaceAt, WholeHits, LeftOver, DriftingRun, HitsAllowed, InConstantPart;
    hide ConstantPacer.Pace, ToUint64;
    BaseIsFloor(p);
    DriftingRunObeys(p, HitsAllowed(p));
    LastDriftingHit(p, HitsAllowed(p));
    HitsAfterIntervals(p, HitsAllowed(p));
  }

  lemma AtMostASecond(p: Pacer)
    ensures HitsAllowed(p) <= NANO
  {
  }

  lemma ShortTime(n: int, interval: int)
    requires 0 <= n <= NANO && 1 <= interval <= NANO
    ensures 0 <= n * interval <= MAX_INT64
  {
    ProductIsMonotone(n, NANO, interval);
    ProductIsMonotone(0, n, interval);
  }

  /** The limits have let every hit of a run through that the constant part paces. */
  lemma SentHitsAreAllowed(p: Pacer, run: seq<Hit>, k: int)
    requires p.schedule.Valid() && NoJump(p.schedule) && HasConstantPart(p)
    requires IsRun((e, h) => PaceAt(p, e, h), run) && InConstantPart(p, run, k)
    ensures k >= p.baseHits && Allowed(p, k - p.baseHits)
  {
    var pace := (e, h) => PaceAt(p, e, h);
    assert ObeysAt(pace, run, k);
    HandedOver(p, run[k].call, k);
    BaseHitsAreSent(p.schedule, run[k].call, k);
    SmallIsExact(k - p.baseHits);
    hide HitsAt, RateAt, WholeHits, NoJump, LastFittingHit, ConstantPacer.Interval;
  }

  /** What i intervals leave over grows with i, and over a second or more it is covered only if it is nothing. */
  lemma KeepsUpWithin(p: Pacer, i: int)
    requires p.schedule.Valid() && HasConstantPart(p) && KeepsUp(p, HitsAllowed(p))
    requires HitsAt(p.schedule, p.schedule.constAt) < TWO_TO_64 as real
    requires i >= 1 && Allowed(p, i - 1)
    ensures KeepsUp(p, i)
  {
    hide HitsAt, WholeHits, LeftOver, HitsAllowed;
    LeftOverIsRemainder(p);
    BaseIsFloor(p);
    AtMostASecond(p);
    AllowedIff(p, Min(i, NANO) - 1);
    ProductIsMonotone(Min(i, NANO), HitsAllowed(p), LeftOver(p));
    if i > NANO {
      ProductIsMonotone(1, LeftOver(p), NANO);
    }
  }

  /** Every hit of every run that is paced by the constant part is due when it is sent, by the pacer's own
      total, if and only if the fraction of a hit due at the switch covers what the allowed hits leave over. */
  lemma ConstantPartStaysDueIff(p: Pacer)
    requires p.schedule.Valid() && NoJump(p.schedule) && HasConstantPart(p)
    requires HitsAt(p.schedule, p.schedule.constAt) + (2 * NANO) as real < TWO_TO_64 as real
    ensures (forall run: seq<Hit> :: ConstantPartStaysDue(p, run)) <==> KeepsUp(p, HitsAllowed(p))
  {
    hide HitsAt, NoJump, ConstantPacer.Interval, PaceAt, WholeHits, LastFittingHit, DriftingRun, KeepsUp, HitsAllowed;
    if !KeepsUp(p, HitsAllowed(p)) {
      DriftsAhead(p);
    } else {
      forall run: seq<Hit>, k: int | IsRun((e, h) => PaceAt(p, e, h), run) && InConstantPart(p, run, k)
        ensures (k + 1) as real <= HitsAt(p.schedule, run[k].send)
      {
        CoveredHitIsDue(p, run, k);
      }
    }
  }

  lemma CoveredHitIsDue(p: Pacer, run: seq<Hit>, k: int)
    requires p.schedule.Valid() && NoJump(p.schedule) && HasConstantPart(p) && KeepsUp(p, HitsAllowed(p))
    requires HitsAt(p.schedule, p.schedule.constAt) < TWO_TO_64 as real
    requires IsRun((e, h) => PaceAt(p, e, h), run) && InConstantPart(p, run, k)
    ensures (k + 1) as real <= HitsAt(p.schedule, run[k].send)
  {
    hide HitsAt, NoJump, ConstantPacer.Interval, PaceAt, WholeHits, LastFittingHit, LeftOver, HitsAllowed;
    var i := k + 1 - p.baseHits;
    ConstantPartIsNeverAhead(p, run, k);
    SentHitsAreAllowed(p, run, k);
    KeepsUpWithin(p, i);
    HitsAfterIntervals(p, i);
    HitsAreMonotone(p.schedule, p.schedule.constAt + i * Final(p).Interval(), run[k].send);
  }

  /** Without limits that is so if and only if the final rate divides a second into whole nanoseconds. */
  lemma UnlimitedStaysDueIff(p: Pacer)
    requires p.schedule.Valid() && NoJump(p.schedule) && HasConstantPart(p) && p.max == 0 && p.stopMax == 0
    requires HitsAt(p.schedule, p.schedule.constAt) + (2 * NANO) as real < TWO_TO_64 as real
    ensures (forall run: seq<Hit> :: ConstantPartStaysDue(p, run)) <==> NANO % p.schedule.stop == 0
  {
    hide HitsAt, NoJump, WholeHits, LeftOver, ConstantPartStaysDue;
    ConstantPartStaysDueIff(p);
    LeftOverIsRemainder(p);
    BaseIsFloor(p);
  }

  /** One to seven hits a second in steps of 100ms, with both limits at 200. */
  const SEVEN := Pacer(Schedule(1, 1, 100_000_000, 7, 700_000_000), 200, 200, 2)

  /** The limits matter: with them every run of this pacer stays due, without them some run drifts ahead. */
  lemma LimitsKeepDue()
    ensures SEVEN.schedule == Resolve(1, 1, 100_000_000, 7, 0) && SEVEN.schedule.Valid()
    ensures forall run: seq<Hit> :: ConstantPartStaysDue(SEVEN, run)
    ensures exists run: seq<Hit> :: !ConstantPartStaysDue(SEVEN.(max := 0, stopMax := 0), run)
  {
    SevenHits();
    LeftOverIsRemainder(SEVEN);
    hide HitsAt, NoJump, LeftOver, ConstantPartStaysDue;
    ConstantPartStaysDueIff(SEVEN);
    UnlimitedStaysDueIff(SEVEN.(max := 0, stopMax := 0));
  }

  lemma SevenHits()
    ensures NoJump(SEVEN.schedule) && HasConstantPart(SEVEN) && HitsAt(SEVEN.schedule, 700_000_000) == 2.8
  {
    hide HitsAt, Staircase, Seconds;
    SevenSteps(SEVEN.schedule);
    QuadraticAtBoundary(SEVEN.schedule, 7);
  }

  lemma SevenSteps(s: Schedule)
    requires s == SEVEN.schedule
    ensures Staircase(s, 7) == 56 && Seconds(s.sd) == 0.1
  {
  }
}
