/** The mutable step pacer and the linear pacer built on it (load/pacer.go). */
module StepPacers {
  import opened GoNumbers
  import opened Driver
  import opened ConstantPacers
  import opened StepSchedules
  import opened StepRuns

  class StepPacer {
    var start: ConstantPacer
    var step: int
    var stepDuration: int
    var stop: ConstantPacer
    var loadDuration: int
    var max: uint64

    var init: bool
    var constAt: int
    var baseHits: uint64

    constructor (start: ConstantPacer, step: int, stepDuration: int, stop: ConstantPacer, loadDuration: int, max: uint64)
      requires stepDuration >= 0
      ensures Valid() && !init
      ensures this.start == start && this.step == step && this.stepDuration == stepDuration
      ensures this.stop == stop && this.loadDuration == loadDuration && this.max == max
    {
      this.start, this.step, this.stepDuration := start, step, stepDuration;
      this.stop, this.loadDuration, this.max := stop, loadDuration, max;
      init, constAt, baseHits := false, 0, 0;
    }

    ghost predicate Valid()
      reads this
    {
      && stepDuration >= 0
      && (!init ==> constAt == 0 && baseHits == 0)
      && (init ==> CurrentSchedule().Valid() && baseHits == WholeHits(CurrentSchedule(), constAt))
    }

    /** Every zero among these is a panic in `initialize`. */
    predicate Usable()
      reads this
    {
      stepDuration != 0 && step != 0 && start.freq != 0
    }

    function CurrentSchedule(): Schedule
      reads this
    {
      Schedule(start.freq, step, stepDuration, stop.freq, constAt)
    }

    function Snapshot(): Pacer
      reads this
    {
      Pacer(CurrentSchedule(), stop.max, max, baseHits)
    }

    /** The pacer after `initialize`, from its configuration alone. */
    ghost function Initialised(): Pacer
      requires Usable() && stepDuration >= 0
      reads this
    {
      if init then
        Snapshot()
      else
        var s := Resolve(start.freq, step, stepDuration, stop.freq, loadDuration);
        ResolveIsValid(start.freq, step, stepDuration, stop.freq, loadDuration);
        Pacer(s, stop.max, max, WholeHits(s, s.constAt))
    }

    method Initialize() returns (ok: bool)
      requires Valid()
      modifies this`init, this`stop, this`constAt, this`baseHits
      ensures Valid() && ok == Usable() == (stepDuration != 0 && step != 0 && start.freq != 0)
      ensures ok ==> init && Snapshot() == old(Initialised())
      ensures ok ==> baseHits == WholeHits(CurrentSchedule(), constAt)
      ensures !ok || old(init) ==> init == old(init) && Snapshot() == old(Snapshot())
    {
      if stepDuration == 0 || step == 0 || start.freq == 0 {
        return false;
      }
      ok := true;
      if init {
        return;
      }
      init := true;
      if loadDuration > 0 {
        constAt := loadDuration;
        if stop.freq == 0 {
          var steps := TruncDiv(constAt, stepDuration);
          stop := stop.(freq := ToUint64(start.freq + step * steps));
        }
      } else if stop.freq > 0 && constAt == 0 {
        if step > 0 {
          SearchUp();
        } else {
          SearchDown();
        }
      }
      ResolveIsValid(start.freq, step, stepDuration, old(stop.freq), loadDuration);
      assert CurrentSchedule() == Resolve(start.freq, step, stepDuration, old(stop.freq), loadDuration);
      NoHitsAtTimeZero(CurrentSchedule());
      if constAt > 0 {
        var h := Hits(constAt);
        baseHits := ToUint64(Trunc(h));
      }
    }

    /** The loop for a rising load: the first step boundary whose rate is above the final one. */
    method SearchUp()
      requires stepDuration > 0 && step > 0 && start.freq > 0 && stop.freq > 0 && constAt == 0
      modifies this`constAt
      ensures constAt == SwitchStep(start.freq, step, stop.freq) * stepDuration
    {
      var t := 0;
      ghost var k := 0;
      while true
        invariant 0 <= k && t == k * stepDuration && constAt == 0
        invariant k > 0 ==> start.freq + step * (k - 1) <= stop.freq
        decreases stop.freq - (start.freq + step * k)
      {
        RateAtBoundary(CurrentSchedule(), k);
        if RateAt(CurrentSchedule(), t) > stop.freq as real {
          FirstPassedStep(start.freq, step, stop.freq, k);
          constAt := t;
          break;
        }
        ProductStep(k, step, stepDuration);
        t := t + stepDuration;
        k := k + 1;
      }
    }

    /** The loop for a falling load. The rate is clipped at zero, below every positive final rate. */
    method SearchDown()
      requires stepDuration > 0 && step < 0 && start.freq > 0 && stop.freq > 0 && constAt == 0
      modifies this`constAt
      ensures constAt == SwitchStep(start.freq, step, stop.freq) * stepDuration
    {
      var t := 0;
      ghost var k := 0;
      while true
        invariant 0 <= k && t == k * stepDuration && constAt == 0
        invariant k > 0 ==> start.freq + step * (k - 1) >= stop.freq
        decreases start.freq + step * k
      {
        RateAtBoundary(CurrentSchedule(), k);
        if RateAt(CurrentSchedule(), t) < stop.freq as real {
          FirstPassedStep(start.freq, step, stop.freq, k);
          constAt := t;
          break;
        }
        ProductStep(k, step, stepDuration);
        t := t + stepDuration;
        k := k + 1;
      }
    }

    method Rate(elapsed: int) returns (ok: bool, rate: real)
      requires Valid()
      modifies this`init, this`stop, this`constAt, this`baseHits
      ensures Valid() && ok == Usable()
      ensures ok ==> init && Snapshot() == old(Initialised()) && rate == RateAt(CurrentSchedule(), elapsed)
    {
      rate := 0.0;
      ok := Initialize();
      if ok {
        rate := RateAt(CurrentSchedule(), elapsed);
      }
    }

    method Hits(t: int) returns (total: real)
      requires CurrentSchedule().Valid()
      ensures total == HitsAt(CurrentSchedule(), t)
    {
      hide RateAt, Seconds;
      if t < 0 {
        return 0.0;
      }
      var s := CurrentSchedule();
      StepOf(t, stepDuration);
      var steps := t / stepDuration;
      var first := if steps > 0 then Seconds(stepDuration) * start.freq as real else Seconds(t) * start.freq as real;
      total := first;
      var i := 1;
      while i < steps
        invariant 1 <= i && (0 < steps ==> i <= steps) && (steps <= 1 ==> i == 1)
        invariant total == first + WholeSteps(s, i)
      {
        total := total + RateAt(s, i * stepDuration) * Seconds(stepDuration);
        i := i + 1;
      }
      if steps > 0 {
        total := total + Seconds(t - steps * stepDuration) * RateAt(s, t);
      }
    }

    method Pace(elapsed: int, hits: uint64) returns (answer: Pacing)
      requires Valid()
      modifies this`init, this`stop, this`constAt, this`baseHits
      ensures Valid()
      ensures 0 < max <= hits ==> answer == Stop && Snapshot() == old(Snapshot())
      ensures !(0 < max <= hits) && !old(Usable()) ==> answer == Panic
      ensures !(0 < max <= hits) && old(Usable()) ==>
                init && Snapshot() == old(Initialised()) && answer == PaceAt(Snapshot(), elapsed, hits)
      ensures !(0 < max <= hits) && old(Usable()) ==>
                && (hits < WholeHits(CurrentSchedule(), elapsed) ==> answer == Wait(0))
                && (hits >= WholeHits(CurrentSchedule(), elapsed) && 0 < constAt <= elapsed && stop.freq == 0 ==>
                      answer == Stop)
    {
      if max > 0 && hits >= max {
        return Stop;
      }
      var ok := Initialize();
      if !ok {
        return Panic;
      }
      var expected := Hits(elapsed);
      hide HitsAt, RateAt;
      if hits < ToUint64(Trunc(expected)) {
        return Wait(0);
      }
      if constAt > 0 && elapsed >= constAt {
        if stop.freq == 0 {
          return Stop;
        }
        return stop.Pace(elapsed - constAt, ToUint64(hits - baseHits));
      }
      var _, rate := Rate(elapsed);
      answer := RampPace(rate, expected, hits);
    }
  }

  lemma NoHitsAtTimeZero(s: Schedule)
    requires s.sd > 0
    ensures WholeHits(s, 0) == 0
  {
    assert 0 / s.sd == 0;
  }

  lemma RateAtBoundary(s: Schedule, k: int)
    requires s.Valid() && s.constAt == 0 && k >= 0
    ensures RateAt(s, k * s.sd) == RampRate(s, k)
  {
    ProductIsMonotone(0, k, s.sd);
    RateInRamp(s, k * s.sd, k);
  }

  lemma ProductStep(k: int, step: int, sd: int)
    ensures (k + 1) * sd == k * sd + sd && step * (k + 1) == step * k + step
  {
  }

  /** The step that has passed the final rate while its predecessor has not is the switch. */
  lemma FirstPassedStep(start: int, step: int, stop: int, k: int)
    requires step != 0 && k >= 0
    requires if step > 0 then start + step * k > stop else start + step * k < stop
    requires k > 0 ==> if step > 0 then start + step * (k - 1) <= stop else start + step * (k - 1) >= stop
    ensures k == SwitchStep(start, step, stop)
  {
    SwitchStepIsFirst(start, step, stop, k);
    if k > 0 {
      RampIsMonotone(start, step, 0, k - 1);
      SwitchStepIsFirst(start, step, stop, k - 1);
    }
  }

  /** A linear load is a stepped load with steps of one second. */
  class LinearPacer {
    const start: ConstantPacer
    const slope: int
    const stop: ConstantPacer
    const loadDuration: int
    const max: uint64

    var sp: StepPacer?

    constructor (start: ConstantPacer, slope: int, stop: ConstantPacer, loadDuration: int, max: uint64)
      ensures Valid() && sp == null
      ensures this.start == start && this.slope == slope && this.stop == stop
      ensures this.loadDuration == loadDuration && this.max == max
    {
      this.start, this.slope, this.stop, this.loadDuration, this.max := start, slope, stop, loadDuration, max;
      sp := null;
    }

    predicate Usable() {
      start.freq != 0 && slope != 0
    }

    /** The pacer every call is delegated to. Its own `Max` is never set. */
    ghost function Delegate(): Pacer
      requires Usable()
    {
      var s := Resolve(start.freq, slope, NANO, stop.freq, loadDuration);
      ResolveIsValid(start.freq, slope, NANO, stop.freq, loadDuration);
      Pacer(s, stop.max, 0, WholeHits(s, s.constAt))
    }

    ghost predicate Valid()
      reads this, sp
    {
      sp != null ==> Usable() && sp.Valid() && sp.init && sp.Snapshot() == Delegate() && sp.Usable()
    }

    method Initialize() returns (ok: bool)
      requires Valid()
      modifies this, sp
      ensures Valid() && ok == Usable() == (start.freq != 0 && slope != 0) && (ok ==> sp != null)
      ensures sp == old(sp) || fresh(sp)
    {
      if start.freq == 0 || slope == 0 {
        return false;
      }
      ok := true;
      if sp == null {
        var inner := new StepPacer(start, slope, NANO, stop, loadDuration, 0);
        var settled := inner.Initialize();
        sp := inner;
      }
    }

    method Pace(elapsed: int, hits: uint64) returns (answer: Pacing)
      requires Valid()
      modifies this, sp
      ensures Valid() && (sp == old(sp) || fresh(sp))
      ensures answer == if 0 < max <= hits then Stop
                        else if !Usable() then Panic
                        else PaceAt(Delegate(), elapsed, hits)
    {
      if max > 0 && hits >= max {
        return Stop;
      }
      var ok := Initialize();
      if !ok {
        return Panic;
      }
      answer := sp.Pace(elapsed, hits);
    }

    method Rate(elapsed: int) returns (ok: bool, rate: real)
      requires Valid()
      modifies this, sp
      ensures Valid() && ok == Usable()
      ensures ok ==> rate == RateAt(Delegate().schedule, elapsed)
    {
      rate := 0.0;
      ok := Initialize();
      if ok {
        var settled;
        settled, rate := sp.Rate(elapsed);
      }
    }
  }
}
