/** The pacer a run gets from its configuration (runner/requester.go), and the limit on the number
    of requests that the run protocol takes for granted. */
module RunLoads {
  import opened GoNumbers
  import opened Driver
  import opened Options
  import opened ConstantPacers
  import opened StepSchedules
  import opened StepRuns
  import opened StepPacers

  datatype LoadSchedule = Const | Stepwise | Line

  datatype RunConfig = RunConfig(
    schedule: LoadSchedule, n: int, rps: int, loadStart: int, loadEnd: int,
    loadStep: int, loadStepDuration: int, loadDuration: int)
  {
    function Max(): uint64 {
      ToUint64(n)
    }

    function Start(): ConstantPacer {
      ConstantPacer(ToUint64(loadStart), Max())
    }

    function Stop(): ConstantPacer {
      ConstantPacer(ToUint64(loadEnd), Max())
    }

    /** A linear load takes steps of one second. */
    function StepDuration(): int {
      if schedule.Line? then NANO else loadStepDuration
    }

    predicate Usable() {
      schedule.Const? || (StepDuration() != 0 && loadStep != 0 && Start().freq != 0)
    }
  }

  /** `Own` is a pacer that the user of the library brings along. */
  datatype LoadPacer = Own(pace: Pace) | Constant(c: ConstantPacer) | Stepped(s: StepPacer) | Linear(l: LinearPacer)

  /** An initialised pacer that goes from `loadStart` to `loadEnd` in steps of `loadStep`, and whose final
      pacer is limited by the total number of requests too. */
  ghost predicate IsRamp(p: Pacer, config: RunConfig, stepDuration: int, max: uint64)
    requires stepDuration > 0 && config.loadStep != 0
  {
    && p.schedule == Resolve(ToUint64(config.loadStart), config.loadStep, stepDuration, ToUint64(config.loadEnd),
                             config.loadDuration)
    && p.stopMax == ToUint64(config.n) && p.max == max && p.baseHits == WholeHits(p.schedule, p.schedule.constAt)
  }

  method CreatePacer(config: RunConfig, own: Option<Pace>) returns (p: LoadPacer)
    requires config.loadStepDuration >= 0
    ensures own.Some? ==> p == Own(own.value)
    ensures own.None? && config.schedule.Const? ==>
              p == Constant(ConstantPacer(ToUint64(config.rps), ToUint64(config.n)))
    ensures own.None? && config.schedule.Stepwise? ==>
              && p.Stepped? && fresh(p.s) && p.s.Valid() && p.s.max == ToUint64(config.n)
              && p.s.Usable() == (config.loadStepDuration != 0 && config.loadStep != 0 && ToUint64(config.loadStart) != 0)
              && (p.s.Usable() ==> IsRamp(p.s.Initialised(), config, config.loadStepDuration, ToUint64(config.n)))
              && p.s.Usable() == config.Usable() && (config.Usable() ==> p.s.Initialised() == Ramped(config, config.Max()))
    ensures own.None? && config.schedule.Line? ==>
              && p.Linear? && fresh(p.l) && p.l.Valid() && p.l.max == ToUint64(config.n)
              && p.l.Usable() == (config.loadStep != 0 && ToUint64(config.loadStart) != 0)
              && (p.l.Usable() ==> IsRamp(p.l.Delegate(), config, 1_000_000_000, 0))
              && p.l.Usable() == config.Usable() && (config.Usable() ==> p.l.Delegate() == Ramped(config, 0))
  {
    hide ToUint64, Resolve, WholeHits;
    if own.Some? {
      return Own(own.value);
    }
    match config.schedule
    case Line =>
      var l := new LinearPacer(config.Start(), config.loadStep, config.Stop(), config.loadDuration, config.Max());
      p := Linear(l);
    case Stepwise =>
      var s := new StepPacer(config.Start(), config.loadStep, config.loadStepDuration, config.Stop(),
                             config.loadDuration, config.Max());
      p := Stepped(s);
    case Const =>
      p := Constant(ConstantPacer(ToUint64(config.rps), config.Max()));
  }

  /** The initialised step pacer of a configuration with a ramp. */
  ghost function Ramped(config: RunConfig, max: uint64): Pacer
    requires !config.schedule.Const? && config.Usable() && config.loadStepDuration >= 0
  {
    var s := Resolve(config.Start().freq, config.loadStep, config.StepDuration(), config.Stop().freq, config.loadDuration);
    ResolveIsValid(config.Start().freq, config.loadStep, config.StepDuration(), config.Stop().freq, config.loadDuration);
    Pacer(s, config.Stop().max, max, WholeHits(s, s.constAt))
  }

  /** What the created pacer answers. */
  ghost function Answer(config: RunConfig, elapsed: int, hits: int): Pacing
    requires config.loadStepDuration >= 0
  {
    if config.schedule.Const? then ConstantPacer(ToUint64(config.rps), config.Max()).Pace(elapsed, hits)
    else if 0 < config.Max() <= hits then Pacing.Stop
    else if !config.Usable() then Panic
    else RampAnswer(config, elapsed, hits)
  }

  ghost function RampAnswer(config: RunConfig, elapsed: int, hits: int): Pacing
    requires !config.schedule.Const? && config.Usable() && config.loadStepDuration >= 0
  {
    var max := if config.schedule.Stepwise? then config.Max() else 0;
    var p := Ramped(config, max);
    ResolveIsValid(config.Start().freq, config.loadStep, config.StepDuration(), config.Stop().freq, config.loadDuration);
    PaceAt(p, elapsed, hits)
  }

  /** Whatever the schedule, no run of requests is longer than a positive total. */
  lemma AtMostTotal(config: RunConfig, run: seq<Hit>)
    requires config.loadStepDuration >= 0 && 0 < config.n < TWO_TO_64
    requires IsRun((e, h) => Answer(config, e, h), run)
    ensures |run| <= config.n
  {
    hide ConstantPacer.Interval, RampAnswer;
    SmallCount(config.n);
    if run != [] {
      assert ObeysAt((e, h) => Answer(config, e, h), run, |run| - 1);
    }
  }

  /** The limit is also given to the pacer of the final rate, which counts from the hand-over. It never
      fires before the limit on all requests, unless the count since the hand-over wraps around. */
  lemma FinalLimitNeverFires(p: Pacer, elapsed: int, hits: uint64)
    requires p.schedule.Valid() && p.schedule.stop > 0 && p.stopMax > hits
    ensures p.baseHits <= hits ==> HandOver(p, elapsed, hits) == HandOver(p.(stopMax := 0), elapsed, hits)
    ensures p.baseHits > hits && p.stopMax <= TWO_TO_64 - p.baseHits + hits ==> HandOver(p, elapsed, hits) == Pacing.Stop
  {
    hide ConstantPacer.Pace, ToUint64;
    SinceHandOver(hits, p.baseHits);
    LimitOfFinalRate(p.schedule.stop, p.stopMax, elapsed - p.schedule.constAt, ToUint64(hits - p.baseHits));
  }

  lemma LimitOfFinalRate(freq: uint64, max: uint64, elapsed: int, hits: uint64)
    ensures hits < max ==> ConstantPacer(freq, max).Pace(elapsed, hits) == ConstantPacer(freq, 0).Pace(elapsed, hits)
    ensures 0 < max <= hits ==> ConstantPacer(freq, max).Pace(elapsed, hits) == Pacing.Stop
  {
    hide ToUint64, ToInt64, TruncDiv;
  }

  lemma SmallCount(n: int)
    requires 0 <= n < TWO_TO_64
    ensures ToUint64(n) == n
  {
  }

  lemma SinceHandOver(hits: uint64, base: uint64)
    ensures ToUint64(hits - base) == if base <= hits then hits - base else hits - base + TWO_TO_64
  {
  }
}
