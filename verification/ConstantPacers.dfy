/** The constant-rate pacer (load/pacer.go). */
module ConstantPacers {
  import opened GoNumbers
  import opened Driver

  datatype ConstantPacer = ConstantPacer(freq: uint64, max: uint64) {

    function Pace(elapsed: int, hits: int): Pacing {
      if max > 0 && hits >= max then
        Stop
      else if freq == 0 then
        Wait(0)
      else if hits < ToUint64(freq * ToUint64(TruncDiv(elapsed, NANO))) then
        Wait(0)
      else
        var interval := Interval();
        if interval == 0 then
          Panic // integer divide by zero
        else if MAX_INT64 / interval < hits then
          Stop
        else
          Wait(ToInt64(ToInt64(ToUint64((hits + 1) * interval)) - elapsed))
    }

    /** Whole nanoseconds between two hits, as the code computes it. */
    function Interval(): uint64
      requires freq > 0
    {
      ToUint64(TruncDiv(NANO, ToInt64(freq)))
    }
  }

  /** The largest hit count whose due time still fits a `time.Duration`. */
  function LastFittingHit(p: ConstantPacer): int
    requires 1 <= p.freq <= NANO
  {
    IntervalIsFloor(p);
    MAX_INT64 / p.Interval()
  }

  lemma IntervalIsFloor(p: ConstantPacer)
    requires 1 <= p.freq <= NANO
    ensures p.Interval() == NANO / p.freq
    ensures 1 <= p.Interval() <= NANO && p.Interval() * p.freq <= NANO
  {
    FitsIffAtMostQuotient(NANO, p.freq, 1);
    FitsIffAtMostQuotient(NANO, p.freq, NANO / p.freq);
    ProductIsMonotone(1, p.freq, NANO / p.freq);
  }

  /** Whole seconds of hits never take longer than those seconds. */
  lemma WholeSecondsFit(freq: int, interval: int, elapsed: int)
    requires 1 <= freq <= NANO && 1 <= interval && interval * freq <= NANO && 0 <= elapsed
    ensures freq * (elapsed / NANO) * interval <= elapsed
  {
    var s := elapsed / NANO;
    assert freq * s * interval == (interval * freq) * s;
    ProductIsMonotone(interval * freq, NANO, s);
  }

  /** Up to one hit per nanosecond every 64-bit product of `Pace` is exact, so the code
      computes this over the integers; only the due time of one `hits` value wraps. */
  lemma PaceIsExact(p: ConstantPacer, elapsed: int, hits: int)
    requires p.freq <= NANO && 0 <= elapsed <= MAX_INT64 && 0 <= hits
    ensures p.Pace(elapsed, hits) ==
            if 0 < p.max <= hits then Stop
            else if p.freq == 0 || hits < p.freq * (elapsed / NANO) then Wait(0)
            else if hits > LastFittingHit(p) then Stop
            else if hits == LastFittingHit(p) then Wait(ToInt64((hits + 1) * p.Interval() - TWO_TO_64 - elapsed))
            else Wait((hits + 1) * p.Interval() - elapsed)
  {
    hide ToInt64, ToUint64, TruncDiv, ConstantPacer.Interval;
    WholeSecondsAreExact(p.freq, elapsed);
    if p.freq > 0 {
      IntervalIsFloor(p);
      if hits <= LastFittingHit(p) {
        DueTimeWraps(p.Interval(), hits);
        if hits < LastFittingHit(p) {
          DueTimeFits(p.Interval(), hits, elapsed);
        }
      }
    }
  }

  lemma DueTimeFits(interval: int, hits: int, elapsed: int)
    requires 1 <= interval && 0 <= hits < MAX_INT64 / interval && 0 <= elapsed <= MAX_INT64
    ensures ToInt64((hits + 1) * interval - elapsed) == (hits + 1) * interval - elapsed
  {
    FitsIffAtMostQuotient(MAX_INT64, interval, hits + 1);
    ProductIsMonotone(0, hits + 1, interval);
  }

  lemma WholeSecondsAreExact(freq: int, elapsed: int)
    requires 0 <= freq <= NANO && 0 <= elapsed <= MAX_INT64
    ensures ToUint64(freq * ToUint64(TruncDiv(elapsed, NANO))) == freq * (elapsed / NANO)
  {
    var s := elapsed / NANO;
    ProductIsMonotone(freq, NANO, s);
    ProductIsMonotone(0, freq, s);
    assert TruncDiv(elapsed, NANO) == s == ToUint64(s);
  }

  lemma DueTimeWraps(interval: int, hits: int)
    requires 1 <= interval <= NANO && 0 <= hits <= MAX_INT64 / interval
    ensures ToInt64(ToUint64((hits + 1) * interval)) ==
            if hits == MAX_INT64 / interval then (hits + 1) * interval - TWO_TO_64 else (hits + 1) * interval
  {
    FitsIffAtMostQuotient(MAX_INT64, interval, hits);
    FitsIffAtMostQuotient(MAX_INT64, interval, hits + 1);
    assert (hits + 1) * interval == hits * interval + interval;
  }

  /** A frequency so large that `int64(Freq)` is a small negative number, whose interval is not zero. */
  predicate ReadsAsSmallNegative(freq: uint64) {
    freq >= TWO_TO_64 - NANO
  }

  /** The rate branch divides by a zero interval exactly above one hit per nanosecond, up to the
      frequencies that read as small negative numbers. */
  lemma PanicsIff(p: ConstantPacer, elapsed: int, hits: int)
    requires 0 <= elapsed <= MAX_INT64 && 0 <= hits
    ensures p.Pace(elapsed, hits).Panic? <==>
              && !(0 < p.max <= hits)
              && p.freq > NANO && !ReadsAsSmallNegative(p.freq)
              && hits >= ToUint64(p.freq * (elapsed / NANO))
  {
    hide ToInt64, ToUint64, TruncDiv, ConstantPacer.Interval;
    if p.freq <= NANO {
      PaceIsExact(p, elapsed, hits);
    } else {
      SecondsAreSmall(elapsed);
      TooFast(p);
    }
  }

  lemma SecondsAreSmall(elapsed: int)
    requires 0 <= elapsed <= MAX_INT64
    ensures ToUint64(TruncDiv(elapsed, NANO)) == elapsed / NANO
  {
  }

  lemma TooFast(p: ConstantPacer)
    requires NANO < p.freq
    ensures p.Interval() == 0 <==> !ReadsAsSmallNegative(p.freq)
    ensures ReadsAsSmallNegative(p.freq) ==> p.Interval() > MAX_INT64
  {
    if p.freq <= MAX_INT64 {
      QuotientIsUnique(NANO, p.freq, 0);
      assert ToInt64(p.freq) == p.freq && TruncDiv(NANO, p.freq) == NANO / p.freq;
    } else {
      NegativeInterval(p.freq);
    }
    hide ToInt64, TruncDiv;
  }

  lemma NegativeInterval(freq: uint64)
    requires freq > MAX_INT64
    ensures ToUint64(TruncDiv(NANO, ToInt64(freq))) ==
            if ReadsAsSmallNegative(freq) then TWO_TO_64 - NANO / (TWO_TO_64 - freq) else 0
    ensures ReadsAsSmallNegative(freq) ==> 1 <= NANO / (TWO_TO_64 - freq) <= NANO
  {
    var below := TWO_TO_64 - freq;
    assert ToInt64(freq) == -below && TruncDiv(NANO, -below) == -(NANO / below);
    hide ToInt64, TruncDiv;
    if below <= NANO {
      FitsIffAtMostQuotient(NANO, below, 1);
      ProductIsMonotone(1, below, NANO / below);
    } else {
      QuotientIsUnique(NANO, below, 0);
    }
  }

  /** The due time `delta` fits a `time.Duration` exactly when one more hit would still pass
      the guard: the guard itself lets one `hits` value too many through. */
  lemma DeltaFitsIff(p: ConstantPacer, hits: int)
    requires 1 <= p.freq <= NANO && 0 <= hits <= LastFittingHit(p)
    ensures ToInt64(ToUint64((hits + 1) * p.Interval())) == (hits + 1) * p.Interval()
      <==> hits + 1 <= LastFittingHit(p)
  {
    IntervalIsFloor(p);
    DueTimeWraps(p.Interval(), hits);
  }

  /** With `Max` set the pacer stops at `Max` hits and not a hit earlier, except where the overflow
      guard ends the attack: beyond the last hit that fits, and at once for the frequencies that read
      as small negative numbers. */
  lemma StopsIff(p: ConstantPacer, elapsed: int, hits: int)
    requires 0 <= elapsed <= MAX_INT64 && 0 <= hits
    ensures p.Pace(elapsed, hits).Stop? <==>
              || 0 < p.max <= hits
              || (1 <= p.freq <= NANO && hits > LastFittingHit(p))
              || (ReadsAsSmallNegative(p.freq) && hits > 0 && hits >= ToUint64(p.freq * (elapsed / NANO)))
  {
    if p.freq <= NANO {
      SlowStopsIff(p, elapsed, hits);
    } else {
      hide ToInt64, ToUint64, TruncDiv, ConstantPacer.Interval;
      SecondsAreSmall(elapsed);
      TooFast(p);
      if ReadsAsSmallNegative(p.freq) {
        QuotientIsUnique(MAX_INT64, p.Interval(), 0);
      }
    }
  }

  lemma SlowStopsIff(p: ConstantPacer, elapsed: int, hits: int)
    requires p.freq <= NANO && 0 <= elapsed <= MAX_INT64 && 0 <= hits
    ensures p.Pace(elapsed, hits).Stop? <==> 0 < p.max <= hits || (p.freq > 0 && hits > LastFittingHit(p))
  {
    PaceIsExact(p, elapsed, hits);
    hide ConstantPacer.Pace, ConstantPacer.Interval;
    if p.freq > 0 && hits > LastFittingHit(p) {
      IntervalIsFloor(p);
      WholeSecondsFit(p.freq, p.Interval(), elapsed);
      FitsIffAtMostQuotient(MAX_INT64, p.Interval(), p.freq * (elapsed / NANO));
    }
  }

  /** One turn that sleeps at least as long as told sends hit k+1 no earlier than k+1 intervals, exactly
      if its due time fits. */
  lemma TurnIsNeverAhead(p: ConstantPacer, e: int, k: int, send: int)
    requires 1 <= p.freq <= NANO && 0 <= e <= send <= MAX_INT64 && 0 <= k
    requires p.Pace(e, k).Wait? && send >= e + Max(p.Pace(e, k).ns, 0)
    ensures (k + 1) * p.Interval() <= send <==> k + 1 <= LastFittingHit(p)
  {
    hide ConstantPacer.Pace, ConstantPacer.Interval;
    var i := p.Interval();
    PaceIsExact(p, e, k);
    IntervalIsFloor(p);
    FitsIffAtMostQuotient(MAX_INT64, i, k + 1);
    if k < p.freq * (e / NANO) {
      ProductIsMonotone(k + 1, p.freq * (e / NANO), i);
      WholeSecondsFit(p.freq, i, e);
    }
  }

  /** In every run, hit number k+1 is never sent before it is due, whether it was paced or
      sent by the catch-up branch. This holds exactly for the hits whose due time fits. */
  lemma NeverAhead(p: ConstantPacer, run: seq<Hit>, k: int)
    requires 1 <= p.freq <= NANO
    requires IsRun((e, h) => p.Pace(e, h), run)
    requires 0 <= k < |run| && run[k].send <= MAX_INT64
    ensures (k + 1) * p.Interval() <= run[k].send <==> k + 1 <= LastFittingHit(p)
  {
    var pace := (e, h) => p.Pace(e, h);
    SendsAreOrdered(pace, run, k, k);
    assert ObeysAt(pace, run, k);
    hide ConstantPacer.Pace, ConstantPacer.Interval, LastFittingHit;
    TurnIsNeverAhead(p, run[k].call, k, run[k].send);
  }

  /** Asked on the dot, the pacer waits one interval. */
  lemma WaitsOneInterval(p: ConstantPacer, k: int)
    requires 1 <= p.freq <= NANO && 0 <= k && k + 1 <= LastFittingHit(p)
    ensures 0 <= k * p.Interval() <= MAX_INT64
    ensures p.Pace(k * p.Interval(), k) == if 0 < p.max <= k then Stop else Wait(p.Interval())
    ensures (k + 1) * p.Interval() == k * p.Interval() + p.Interval() && p.Interval() > 0
  {
    hide ConstantPacer.Interval, ConstantPacer.Pace;
    IntervalIsFloor(p);
    var i := p.Interval();
    var e := k * i;
    FitsIffAtMostQuotient(MAX_INT64, i, k);
    ProductIsMonotone(0, k, i);
    PaceIsExact(p, e, k);
    WholeSecondsFit(p.freq, i, e);
    ProductIsMonotone(k, p.freq * (e / NANO), i);
    ProductIsMonotone(k + 1, p.freq * (e / NANO), i);
  }

  /** A driver without delays sends hit number k+1 at exactly (k+1) intervals. */
  lemma {:induction false} ExactDriverIsPeriodic(p: ConstantPacer, run: seq<Hit>, k: int)
    requires 1 <= p.freq <= NANO
    requires IsExactRun((e, h) => p.Pace(e, h), run)
    requires 0 <= k < |run| && k + 1 <= LastFittingHit(p)
    ensures run[k].send == (k + 1) * p.Interval()
  {
    hide ConstantPacer.Interval, LastFittingHit;
    var pace := (e, h) => p.Pace(e, h);
    WaitsOneInterval(p, k);
    if k == 0 {
    } else {
      ExactDriverIsPeriodic(p, run, k - 1);
    }
    assert ExactAt(pace, run, k);
    hide ConstantPacer.Pace;
  }
}
