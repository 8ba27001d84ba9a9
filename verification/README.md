# ghz, modelled and proved in Dafny

ghz is a load generator for gRPC services. This project models the engine inside it and proves what that engine
promises. A `time.Duration` is an `int` of nanoseconds, a `float64` is a `real`, and the 64-bit wrap-around of
integers is written out wherever the code can meet it. Objects whose methods change their fields are classes; their
methods are proved against functions, and the promises are lemmas about those functions.

- **Pacers** (`GoNumbers`, `Driver`, `ConstantPacers`, `StepSchedules`, `StepRuns`, `StepCrossings`, `StepAnswers`,
  `StepDrifts`, `StepPacers`, `SegmentSchedules`, `SegmentedPacers`, `RunLoads`). Each pacer answers how long to wait before the
  next hit. The running totals are compared with the integral of the rate, summed nanosecond by nanosecond;
  lookups with their inverses; and whole runs with the schedule, for every driver that sleeps at least as long as
  it is told.
- **Worker ramp** (`WorkerTickers`). The values a ticker sends, their sum, and when it ends.
- **Run protocol** (`RunProtocol`, `RunInvariants`, `RunResults`, `RunDrains`, `RunTermination`, `RunHangs`, `RunIdles`). The
  sending goroutine, the one that creates and removes workers, the workers and the collecting caller, as a
  transition system over channel and lock operations. One inductive invariant covers every interleaving; exact
  conditions say when a run returns drained and when it can hang, and a rank bounds every run.
- **Reporter** (`Reservoirs`, `ReservoirSamples`, `Reporters`, `Percentiles`, `Histograms`, `Reports`). Reservoir
  sampling is shown uniform by counting choice sequences; the counters, the ring, the percentiles, the histogram
  and the way the report combines them are proved against their definitions.
- **Messages** (`DataProviders`, `CacheRuns`, `StreamProviders`). The shared cache of parsed messages cannot be seen
  under any interleaving of its lock sections; the stream cursors and the sending loop give the promised sequence.
- **Wire codec** (`Varints`, `WireCodec`, `WireRoundTrips`, `WireLanguages`, `WireErrors`). The generated printer and
  parser of the sleep request, after Protocol Buffers Encoding, sections "Base 128 Varints" and "Message Structure":
  round trips, exactly which byte strings parse, and what is reported about the others.

`dafny verify dfyconfig.toml` checks everything.

## Where the code does less than it says

- `SegmentedPacer` promises to stop when the next hit lies beyond the load; that check cannot fire
  (`SegmentedPacers.StopsIff`), so one extra hit can go out at the end (`SegmentedPacers.ExtraHitIff`).
- `ConstantPacer`'s overflow guard lets one `hits` value too many through (`ConstantPacers.DeltaFitsIff`).
- `StepPacer` with an explicit final rate and a load duration that ends inside a step has a total that can jump and
  fall back (`StepSchedules.HitsIsIntegralIff`), and then `hits - baseHits` can wrap around
  (`StepRuns.HandOverUnderflowsIff`, `StepRuns.ExplicitStopCanUnderflow`).
- `runWorkers` counts the workers possibly before they have all been created: with two asynchronous workers it can
  return with a request pending, and only then (`RunDrains.DrainsIff`).
- `runWorkers` can hang: when the worker ramp ends without a worker running, a request stays on offer until a stop
  is requested (`RunHangs.StuckIff`, `RunIdles.HangsIff`), as with every ramp that falls to zero
  (`RunIdles.FallingRampHangs`).
- A stepped load can send a hit before it is due. A test at each step boundary of its configuration decides whether
  it does (`StepCrossings.NeverAheadIff`); a load that never slows down does not (`StepRuns.RisingIsNeverAhead`).
- The constant part of a stepped load is paced by whole nanoseconds and counted by its rate. Every hit stays due if
  and only if the fraction of a hit due at the switch covers what the intervals leave over in as many hits as the
  limits let through (`StepDrifts.ConstantPartStaysDueIff`); without limits, if and only if the rate divides a second
  evenly (`StepDrifts.UnlimitedStaysDueIff`).
- The histogram adds samples above the last mark to the second-to-last bucket and labels the last one as the tail.
  The label reads P99 also when the tail fell back to the slowest sample (`Reports.LabelMisleadsIff`).
- The dynamic message provider does not cycle (`StreamProviders.DynamicTakesTurnsIff`), and without a count it sends
  nothing at all when its data is not an array (`StreamProviders.DynamicSendsNothingIff`).

## Model

| member | source | states |
|---|---|---|
| Driver.SendsAreOrdered | runner/requester.go:500-517 | in every run that obeys a pacer, with any delays, call and send times never go backwards |
| ConstantPacers.PaceIsExact | load/pacer.go:39-64 | up to one hit per nanosecond no 64-bit product overflows, so `Pace` is the plain arithmetic of its comments; one single `hits` value gets a wrapped due time |
| ConstantPacers.PanicsIff | load/pacer.go:39-64 | for every uint64 frequency: the division by a zero interval happens exactly above 1e9 and below 2^64 - 1e9 hits per second, in the branch that is not behind |
| ConstantPacers.DeltaFitsIff | load/pacer.go:54-61 | the due time fits a `time.Duration` if and only if one more hit would pass the overflow guard: the guard is off by one |
| ConstantPacers.StopsIff | load/pacer.go:39-64 | for every uint64 frequency: the pacer stops exactly at `Max` hits or beyond the overflow guard, which the frequencies that read as small negative numbers meet at once |
| ConstantPacers.TurnIsNeverAhead | load/pacer.go:39-64 | one turn, paced or caught up, sends hit k+1 no earlier than k+1 intervals exactly if that time fits |
| ConstantPacers.NeverAhead | load/pacer.go:39-64 | in every run, hit k+1 is sent no earlier than k+1 intervals, through the catch-up branch too, exactly for the hits whose due time fits |
| ConstantPacers.ExactDriverIsPeriodic | load/pacer.go:39-64 | a driver without delays sends hit k+1 at exactly k+1 intervals |
| StepSchedules.HitsIsIntegralIff | load/pacer.go:197-251 | the running total `hits` is the integral of `Rate` at every instant if and only if the rate does not change inside a step |
| StepSchedules.HitsIsIntegral | load/pacer.go:197-251 | without such a change the loop adds up the rate of every nanosecond |
| StepSchedules.JumpIsSeen | load/pacer.go:197-251 | with such a change there is a named instant at which total and integral differ |
| StepSchedules.QuadraticAtBoundary | load/pacer.go:218-251 | while the ramp is not negative and the constant part has not begun, the total at a step boundary is the quadratic closed form |
| StepSchedules.SwitchStepIsFirst | load/pacer.go:125-143 | the switch step is the first whose rate has passed the final rate; if the ramp points away there is none to wait for |
| StepSchedules.ResolveIsValid | load/pacer.go:94-149 | what `initialize` settles on is a well-formed schedule |
| StepSchedules.ResolveDoesNotJump | load/pacer.go:112-143 | without a load duration the switch falls on a step boundary; with one, a derived final rate continues the ramp |
| StepSchedules.RateIs | load/pacer.go:197-215 | the rate at any time is that of the ramp after as many whole steps, clipped at zero, and the final rate from `constAt` on |
| StepRuns.RateMovesToStop | load/pacer.go:122-143 | without a load duration and with a final rate ahead, the rate moves monotonically from start to final rate, stays between them and equals the final rate from `constAt` on |
| StepRuns.SwitchTime | load/pacer.go:122-143 | `constAt` is `StepDuration` times (floor(abs(Stop - Start) / abs(Step)) + 1) |
| StepRuns.RateWithLoadDuration | load/pacer.go:112-121 | with a load duration the ramp lasts that long, and from then on the rate is the explicit final one or that of the ramp at the end of the load |
| StepRuns.NeverSlowsIff | load/pacer.go:197-251 | exactly which schedules never slow down: no jump inside a step, a rising ramp or a single step, and a final rate not below the last rate of the ramp |
| StepRuns.RisingLoadNeverSlows | load/pacer.go:112-149 | every rising load without a load duration, and every one whose final rate is derived without wrapping, never slows down |
| StepCrossings.NeverAheadIff | load/pacer.go:152-193 | for every schedule without jumps, rising or falling, zero rates included: all caught-up and ramp hits of all runs are due one nanosecond after they are sent if and only if no step boundary lets a hit get ahead, a test on the configuration at each boundary |
| StepCrossings.TurnCases | load/pacer.go:152-193 | a turn before the hand-over sends a hit already due, or more than due, or due at the end of its step, or it sleeps across that boundary |
| StepCrossings.HitStaysDue | load/pacer.go:152-193 | without a boundary to get ahead at, every hit before the hand-over of every run stays due |
| StepCrossings.SomeRunGetsAhead | load/pacer.go:152-193 | a boundary that lets a hit get ahead is used by a run: the hits due by it in the last nanosecond before it, or arriving from an earlier boundary, then the one that sleeps across |
| StepCrossings.GetsAheadEarly | load/pacer.go:152-193 | only the boundaries of the ramp before the switch, and before its rate is zero, need the test |
| StepCrossings.FallingGetsAhead | load/pacer.go:152-193 | a load falling from two hits a second by one every 750ms fails the test at its first boundary |
| StepRuns.RisingIsNeverAhead | load/pacer.go:152-193 | on a schedule that never slows down this holds for every hit of the ramp or catch-up branch, whatever steps the wait crosses |
| StepRuns.InStepIsNeverAhead | load/pacer.go:152-193 | on any schedule without jumps, a falling one too, it holds for every hit sent before its step ends |
| StepRuns.FallingLoadGetsAhead | load/pacer.go:152-193 | an exact run of that load whose second hit goes out before it is due |
| StepAnswers.BehindIsAtOnce | load/pacer.go:160-165 | a call with fewer hits sent than are due is told to send at once, up to `Max` |
| StepAnswers.RampStopsIff | load/pacer.go:176-182 | on the ramp the pacer stops exactly where the whole intervals of the hits sent exceed an int64 |
| StepAnswers.RampFollowsRate | load/pacer.go:176-192 | otherwise it waits the whole nanoseconds in which the missing fraction of a hit comes in at the present rate, no fewer and no more |
| StepAnswers.UnspecifiedIff | load/pacer.go:176-192 | the answer is an infinite interval converted exactly at rate zero |
| StepAnswers.PromptHitIsOnTime | load/pacer.go:152-193 | a driver that sleeps exactly as told, however late it asks, sends a hit not yet due in the nanosecond in which it falls due, if that lies in the same step |
| StepRuns.HandOverUnderflowsIff | load/pacer.go:160-175 | some run reaches the hand-over below `baseHits`, so that `hits - baseHits` underflows, if and only if the switch falls inside a step after the first, the whole step at its ramp rate has fewer whole hits than its front at the final rate, and `Max` lets the hits due at the next boundary through: a condition on the configuration |
| StepRuns.FallingBackUnderflows | load/pacer.go:160-175 | on every such configuration, limits included, the run that is delayed until the switch and asks again at the next boundary underflows |
| StepRuns.HandOverIsSafe | load/pacer.go:146-175 | a schedule without jumps never underflows there |
| StepRuns.ExplicitStopCanUnderflow | load/pacer.go:112-120 | a run of a concrete configuration with an explicit final rate whose hand-over underflows and stops it |
| StepRuns.ConstantPartIsNeverAhead | load/pacer.go:168-175 | in every run of a schedule without jumps a hit of the constant part is sent no earlier than the switch and one interval for each hit since the hand-over, exactly if that time fits |
| StepRuns.ConstantPartIsDue | load/pacer.go:168-175 | if the final rate divides a second into whole nanoseconds, such a hit is also due by the total of the pacer when it is sent |
| StepDrifts.ConstantPartStaysDueIff | load/pacer.go:168-175 | for every pacer without a jump whose counts fit, limits included: every hit of every run paced by the constant part is due by the total of the pacer when it is sent if and only if the fraction of a hit due at the switch covers what whole intervals leave over in as many hits as the limits let through |
| StepDrifts.UnlimitedStaysDueIff | load/pacer.go:168-175 | without limits that is so if and only if the final rate divides a second into whole nanoseconds |
| StepDrifts.LimitsKeepDue | runner/requester.go:594-603 | a load with a limit of 200 stays due in every run although its final rate does not divide a second, and without the limits some run of it drifts ahead |
| StepDrifts.DriftsAhead | load/pacer.go:168-175 | where it does not, a run that sends the hits due at the switch and then one hit every interval sends the last hit the limits let through too early |
| StepDrifts.NothingAfterZero | load/pacer.go:154-175 | from a switch to a final rate of zero on, a hit already due is sent at once and every other call is told to stop |
| StepDrifts.FallingToZeroEnds | load/pacer.go:154-175 | no run sends a hit after such a switch that was not due at the switch: the run ends |
| StepPacers.StepPacer.Initialize | load/pacer.go:94-149 | the two search loops end, and the fields become those of the resolved schedule, with `baseHits` the whole hits at the switch; the zero settings that panic are exactly the unusable ones |
| StepPacers.StepPacer.SearchUp | load/pacer.go:127-135 | the rising search ends at the switch step |
| StepPacers.StepPacer.SearchDown | load/pacer.go:136-143 | the falling search ends at the switch step, the rate being clipped at zero |
| StepPacers.StepPacer.Hits | load/pacer.go:218-251 | the accumulating loop computes the running total of the schedule |
| StepPacers.StepPacer.Rate | load/pacer.go:197-215 | the rate of the schedule, after initialising |
| StepPacers.StepPacer.Pace | load/pacer.go:152-193 | `Max` first, then the panics, then the lazily initialised pacer: its whole state and its answer, which sends at once when behind and stops from a switch to rate zero on |
| StepPacers.FirstPassedStep | load/pacer.go:125-143 | a step that has passed the final rate while its predecessor has not is the switch step |
| StepPacers.LinearPacer.Initialize | load/pacer.go:273-293 | builds the one-second step pacer once |
| StepPacers.LinearPacer.Pace | load/pacer.go:296-305 | own `Max`, then the answer of the delegated one-second ramp |
| StepPacers.LinearPacer.Rate | load/pacer.go:308-313 | the rate of the delegated ramp |
| RunLoads.CreatePacer | runner/requester.go:579-608 | a pacer brought along is used as it is; a constant load gets `rps` and the total; a stepped or linear one goes from `loadStart` to `loadEnd` by `loadStep`, in steps of `loadStepDuration` or one second, for `loadDuration`, with the total as limit and the whole hits at the switch as base |
| RunLoads.AtMostTotal | runner/requester.go:579-608 | whatever the schedule, no run of a created pacer sends more than a positive total of requests: the premise of the run protocol |
| RunLoads.FinalLimitNeverFires | runner/requester.go:586-603 | the second `Max` given to the final-rate pacer changes no answer before the first one does, unless the count since the hand-over wraps, and then it stops the run |
| SegmentSchedules.DueHitsGrow | load/pacer.go:397-419 | hits only accumulate, and never faster than the fastest segment |
| SegmentSchedules.DueTimeInverts | load/pacer.go:423-457 | at its due time exactly n hits are due |
| SegmentSchedules.DueTimeIsEarliest | load/pacer.go:423-457 | no earlier time has n hits due, zero-rate segments included |
| SegmentSchedules.DueTimesAreSpaced | load/pacer.go:423-457 | later hits fall due later by at least the interval of the fastest segment |
| SegmentSchedules.DueHitsAreIntegral | load/pacer.go:374-419 | the cumulative form equals the sum of the rate over every nanosecond |
| SegmentSchedules.DueTimeInRange | load/pacer.go:423-457 | every due time lies within the load |
| SegmentedPacers.SegmentedPacer.Initialize | load/pacer.go:341-370 | the index entries are the totals of the segments up to each; it fails exactly with no segments, a duration that is not positive or a negative rate |
| SegmentedPacers.SegmentedPacer.FindSegment | load/pacer.go:374-393 | the segment a time falls in and the time since it began |
| SegmentedPacers.SegmentedPacer.ExpectedHits | load/pacer.go:397-419 | the indexed lookup equals the hits due by definition over the whole load |
| SegmentedPacers.SegmentedPacer.TimeForHit | load/pacer.go:423-457 | the search loop finds the nanosecond of a hit |
| SegmentedPacers.SegmentedPacer.Pace | load/pacer.go:460-488 | panics exactly on the segments `Initialize` refuses, and otherwise sends a hit already due at once and lets one not yet due wait for its nanosecond |
| SegmentedPacers.SegmentedPacer.Rate | load/pacer.go:492-502 | the rate of the segment, zero beyond the end |
| SegmentedPacers.HitTimeInRange | load/pacer.go:423-457 | the time of a hit never lies beyond the total duration, so the check against it cannot fire |
| SegmentedPacers.HitTimeInverts | load/pacer.go:397-457 | before the nanosecond of hit n fewer than n hits are expected, after it at least n |
| SegmentedPacers.HitTimeIsMonotone | load/pacer.go:423-457 | later hits are never sent earlier |
| SegmentedPacers.HitTimesAreSpaced | load/pacer.go:423-457 | successive hits are at least floor(1e9 / fastest rate) nanoseconds apart |
| SegmentedPacers.StopsIff | load/pacer.go:460-488 | only `Max` and the end of the load stop a run |
| SegmentedPacers.PaceFollowsDue | load/pacer.go:460-488 | before the end and below `Max` a hit already due is sent at once; one not yet due waits until the nanosecond before which fewer hits are due and after which as many; a hit the load does not hold waits for the end |
| SegmentedPacers.DelaysAreCaughtUp | load/pacer.go:460-488 | a driver that sleeps exactly as told sends each hit at its nanosecond, or at once if it was asked later, whatever delays came before |
| SegmentedPacers.NeverAhead | load/pacer.go:460-488 | before the end, in every run, the hits sent by t never exceed the hits expected at t + 1ns |
| SegmentedPacers.AtMostOneExtraHit | load/pacer.go:460-488 | a whole run sends at most floor(total hits) + 1 |
| SegmentedPacers.ExactDriverIsOnTime | load/pacer.go:460-488 | a driver without delays sends each hit at its nanosecond |
| SegmentedPacers.ExtraHitIff | load/pacer.go:473-488 | some run sends one hit more than the load holds if and only if the last of those comes before the end of the load and `Max` lets another through |
| WorkerTickers.StepWorkerTicker.Run | load/worker_ticker.go:66-116 | the loop sends exactly the values of the ramp for any ticks of the clock |
| WorkerTickers.StepWorkerTicker.Turn | load/worker_ticker.go:80-113 | one tick: what is sent and whether it is the last, unsigned arithmetic included |
| WorkerTickers.ConstWorkerTicker.Run | load/worker_ticker.go:40-42 | one value, which is the last |
| WorkerTickers.LineWorkerTicker.Run | load/worker_ticker.go:142-154 | the values of a ramp on a clock of one second |
| WorkerTickers.SumIsWorkerCount | load/worker_ticker.go:66-116 | all values before the last are steps, nothing follows `Done`, and what was sent adds up to the count the ticker believes in |
| WorkerTickers.EndsWithoutDeadline | load/worker_ticker.go:98-112 | without a deadline a falling ramp, or a rising one with a final count, sends `Done` on the tick after the one that reaches the count and not before |
| WorkerTickers.EndsIff | load/worker_ticker.go:79-113 | exactly which ramps end: those with a tick at or after the deadline, and without a deadline the falling ones, the rising ones with a final count and a step of zero not above it |
| WorkerTickers.OvershootsByLessThanAStep | load/worker_ticker.go:98-112 | the final count overshoots `Stop` by less than a step unless the start already had |
| WorkerTickers.DeadlineBringsToStop | load/worker_ticker.go:81-97 | the first tick at or after the deadline gets the last value, which brings the sum to exactly `Stop` if there is a final count and the count has not passed it, where a falling count below zero reads as a huge unsigned number and is brought to `Stop` too; otherwise the sum stays |
| WorkerTickers.LiveIsSum | runner/requester.go:409-478 | running workers equal the sum of the deltas while no partial sum is negative |
| WorkerTickers.FallingToZeroLeavesNone | load/worker_ticker.go:66-116 | a ramp that falls to a final count of zero leaves no worker running |
| WorkerTickers.RisingRampLiveIsSum | load/worker_ticker.go:66-116 | a rising ramp without a deadline never asks for fewer than no workers |
| RunInvariants.PacerKeepsNumbered | runner/requester.go:482-526 | the shared counter numbers ticks in order and without gaps |
| RunInvariants.PacerKeepsOwned | runner/requester.go:512-517 | a delivered tick becomes pending at one worker |
| RunInvariants.WorkerKeepsOwned | runner/worker.go:50-72 | ending a request moves it from pending to finished |
| RunInvariants.ControlKeepsWorkersFit | runner/requester.go:413-477 | a worker is created active, in its turn of the connections; it leaves its loop exactly on its one stop |
| RunInvariants.PacerKeepsStoppedInOrder | runner/requester.go:484-492 | the deferred stopping loop stops the workers from the first on |
| RunInvariants.ControlKeepsStoppedInOrder | runner/requester.go:456-474 | removing workers stops the active ones from the first on |
| RunInvariants.WorkerKeepsCollected | runner/requester.go:455-457 | every result sent is in the channel or collected |
| RunInvariants.ControlKeepsLiveMatches | runner/requester.go:409-478 | active workers and what is left of the current tick make up the live count |
| RunInvariants.NoZeroTick | runner/requester.go:482-492 | no worker is in its select once `ticks` is closed |
| RunResults.StepKeepsInv | runner/requester.go:388-539 | every step of every goroutine keeps the invariant |
| RunResults.RunKeepsInv | runner/requester.go:388-539 | the invariant holds after every interleaving |
| RunResults.EachNumberOnce | runner/requester.go:405-526 | delivered requests are numbered 0, 1, 2, ..., each taken by exactly one worker and at all times either pending there or finished |
| RunResults.MaxIsExact | runner/requester.go:500-517 | no run delivers more than a positive `Max`, and one ended by `Max` has delivered exactly that many |
| RunResults.ClosedAfterAllStopped | runner/requester.go:482-496 | when `ticks` is closed every worker has had exactly one stop and left its loop: none reads a zero tick |
| RunResults.SyncDrains | runner/requester.go:528-539 | with synchronous workers every delivered request has ended at the return, even if workers were still being created when counted |
| RunResults.CompleteDrains | runner/requester.go:528-539 | if worker creation was complete when the workers were counted, every worker is gone and every request ended at the return, in both modes |
| RunResults.NothingAfterReturn | runner/requester.go:505-526 | nothing is delivered any more once the sending has been announced done |
| RunResults.LiveWorkers | runner/requester.go:409-478 | between ticks the active workers are the live count of the ticks received |
| RunResults.ConnectionsInTurn | runner/requester.go:443-449 | worker k uses connection k modulo the number of connections |
| RunDrains.DrainsIff | runner/requester.go:528-539 | all runs with at most n workers return drained if and only if the workers are synchronous, or there is no connection, or n is at most one |
| RunDrains.OneWorkerDrains | runner/requester.go:528-539 | a single worker is either counted and collected or never got a request |
| RunDrains.LateWorkerBreaksDrain | runner/requester.go:528-539 | for every configuration with asynchronous workers and a connection, a run on one value that asks for two workers, the second created after the count, that returns with a request pending |
| RunTermination.StepLowersRank | runner/requester.go:388-539 | every step but a stop request lowers a rank |
| RunTermination.MovesAreBounded | runner/requester.go:388-539 | from the start, no interleaving makes more moves than the requests it delivers and the values it receives account for: no livelock |
| RunHangs.NeverStuck | runner/requester.go:388-539 | until the function has returned some goroutine can move, except in the states that hang |
| RunHangs.StuckIff | runner/requester.go:482-526 | nothing but a stop request or a further value of the ticker is possible if and only if a request is on offer, no stop is requested, the control goroutine waits for the ticker or has left, and every worker is gone or blocked before the full error channel |
| RunHangs.HungHasNoWorkers | runner/requester.go:409-478 | a state hangs only when the values received leave no worker running |
| RunHangs.EveryRunReturns | runner/requester.go:388-539 | every run makes boundedly many moves; one that has not returned can go on or hangs without a running worker |
| RunIdles.HandleValue | runner/requester.go:409-478 | any value of the ticker can be handled while everything is idle |
| RunIdles.RunKeepsDone | runner/requester.go:413-478 | the control goroutine leaves exactly after the value that is `Done`, or when the ticker is finished |
| RunIdles.HangsForGood | runner/requester.go:482-526 | a run that hangs after the control goroutine has left can only be stopped: no other step is possible |
| RunIdles.HangsIff | runner/requester.go:388-539 | some run hangs for good on the values received if and only if they end the ticker and leave no worker running |
| RunIdles.FallingRampHangs | runner/requester.go:388-539 | every ramp that falls to a final count of zero can leave the function hanging for good, until a stop is requested |
| Reservoirs.DrawsAreInRange | runner/reporter.go:269-275 | a choice sequence has one draw below the incremented count for every result past the reservoir size |
| Reservoirs.DrawCount | runner/reporter.go:269-275 | the choice sequences multiply by k with the k-th result |
| Reservoirs.KeepingGrows | runner/reporter.go:265-275 | one more result multiplies the sequences that keep an earlier one by k of k + 1 |
| Reservoirs.EveryItemEquallyOften | runner/reporter.go:265-275 | k times the choice sequences that keep result i equals maxResults times all of them, for every i below k |
| ReservoirSamples.EverySampleEquallyOften | runner/reporter.go:265-275 | stronger: every set of maxResults results is the final reservoir of exactly (k - maxResults)! choice sequences |
| ReservoirSamples.DrawsAreCounted | runner/reporter.go:265-275 | maxResults! times the number of choice sequences is k! |
| Reporters.Reporter.constructor | runner/reporter.go:183-207 | starts empty, with the default size when none is given |
| Reporters.Reporter.Run | runner/reporter.go:242-280 | after any sequence of results: count, tallies, total time, reservoir slots and ring are those of the results that count |
| Reporters.Reporter.Record | runner/reporter.go:248-280 | one counted result updates all of them |
| Reporters.TallySum | runner/reporter.go:252-257 | a tally adds up to the number of names in it |
| Reporters.DistributionsAddUp | runner/reporter.go:250-258 | the status distribution sums to `totalCount` and the error distribution to the counted errors |
| Reporters.NamesAreTallied | runner/reporter.go:250-258 | for every name, the status distribution has the number of counted results with that status and the error distribution the number with that error text, and neither has any other key |
| Reporters.CountedLength | runner/reporter.go:242-246 | `totalCount` is max(0, received - skipFirst), the first ones being the ones skipped |
| Reporters.DetailsAreCounted | runner/reporter.go:260-275 | `details` has min(totalCount, maxResults) entries, distinct counted results, in arrival order until full, each with the duration of its result as latency, its timestamp, its status and its error text |
| Reporters.RingIsRecent | runner/reporter.go:258-280 | each of the last 10000 counted results stands in the ring at its number modulo 10000, field by field |
| Reporters.KeepInOrder | runner/reporter.go:265-267 | up to the reservoir size results are kept in order |
| Percentiles.Latencies | runner/reporter.go:416-449 | the percentiles are 10, 25, 50, 75, 90, 95, 99 and on request 99.9; each reads an index in bounds and reports that sample, or stays blank when it is not positive |
| Percentiles.RankIsCeiling | runner/reporter.go:421-436 | the index is ceil(p * n / 100) - 1 and lies within the samples |
| Percentiles.NearestRank | runner/reporter.go:416-449 | at least p percent of the samples are at most the value and fewer than p percent strictly below it |
| Percentiles.PercentilesAreMonotone | runner/reporter.go:416-449 | reported values are monotone in p, after truncation too |
| Histograms.FillBuckets | runner/reporter.go:469-484 | ends; counts add up to the samples for any input; for sorted input each bucket has exactly the samples in (previous mark, mark], the second-to-last also those above the last mark |
| Histograms.ShareIsCount | runner/reporter.go:469-484 | with ascending marks the share of a bucket is the number of samples above the mark before and not above its own, plus those above the last mark in the second-to-last bucket |
| Histograms.Marks | runner/reporter.go:464-468 | ten evenly spaced marks, the last one replaced |
| Histograms.MarksAscend | runner/reporter.go:464-468 | the marks ascend from fastest to last when fastest is not above last |
| Histograms.MarksAreEven | runner/reporter.go:464-468 | the marks go from fastest to last, each a tenth of the range apart and the last one two tenths |
| Histograms.Histogram | runner/reporter.go:451-501 | ten buckets: marks, counts, frequencies as shares of the samples, and a tail label on the last one only, with 100 samples or more, which says p99.9 exactly for that percentile |
| Reports.Finalize | runner/reporter.go:348-396 | the mean over all counted results to the whole nanosecond, the rate, and the summary of latencies that are, as often as each occurs, the durations of the kept results: those without an error text, or all if errors count |
| Reports.Summarize | runner/reporter.go:359-393 | percentiles, fastest and slowest survive the trip through seconds exactly; the tail falls back from p99.9 to p99 to the slowest; the histogram counts every sample by that tail and carries its label |
| Reports.LabelMisleadsIff | runner/reporter.go:369-393 | the last bucket is labelled P99 with a tail other than p99 exactly with 100 samples or more of which the p99 one is zero, p99.9 not asked for or zero too |
| Reports.MeanIsFloor | runner/reporter.go:349-350 | the mean in seconds, scaled and truncated, is the mean in whole nanoseconds |
| Reports.TailIs | runner/reporter.go:369-391 | the searches through the distribution find the percentile where it stands or not at all |
| Reports.TailOfIsTail | runner/reporter.go:369-391 | the tail is the p99.9 sample if asked for and positive, else the p99 sample if positive, else the slowest |
| Reports.TailIsSmall | runner/reporter.go:369-393 | samples above the last mark number at most n - ceil(p * n / 100) for the chosen tail percentile p, and none below 100 samples |
| Reports.WholeNanoseconds | runner/reporter.go:362-366 | a duration converted to seconds and back is unchanged |
| DataProviders.DataProvider.Lookup | runner/data.go:171-179 | the section under the read lock |
| DataProviders.DataProvider.Store | runner/data.go:199-215 | the section under the write lock, with its branches that replace, grow, write in place and append |
| DataProviders.DataProvider.GetMessages | runner/data.go:167-235 | a call on its own gets inputs that serve it as parsing would, and leaves the cache sound |
| DataProviders.DataProvider.GetDataForCall | runner/data.go:142-165 | a call on its own gets, of a JSON array without template actions and without client streaming, element r modulo the length, and an error exactly if that does not parse; with actions or a data function its own parse, else the parse of the whole, of which it takes message r modulo the length unless the client streams |
| DataProviders.UncachedIsDataFor | runner/data.go:142-235 | the same result is what the call would compute if nothing was ever cached |
| DataProviders.DataProvider.New | runner/data.go:76-140 | fails exactly when splitting the array, looking for template actions or trying out request number 0 fails; otherwise the cache is sound and slot 0 is filled |
| DataProviders.HitServes | runner/data.go:171-178 | a hit gives the call what parsing would |
| DataProviders.StoreKeepsSound | runner/data.go:199-215 | storing keeps every slot the parse of its own element; the growing and appending branches are never taken |
| CacheRuns.StepKeepsInv | runner/data.go:142-235 | every step of concurrent calls keeps the invariant, aliased slices included |
| CacheRuns.RunKeepsInv | runner/data.go:142-235 | the invariant holds after every interleaving |
| CacheRuns.CacheIsTransparent | runner/data.go:142-235 | in every interleaving each call that returns has exactly the data promised for its number in those cases, and one that fails is promised an error |
| CacheRuns.SlotsHoldTheirElements | runner/data.go:125-135 | element by element caching stays in the prepared array, each filled slot holding its own element and staying filled |
| CacheRuns.NothingGrows | runner/data.go:199-215 | a call about to store always can, and writes in place |
| StreamProviders.StaticMessageProvider.GetStreamMessage | runner/data.go:518-545 | the k-th call gets `inputs[k mod L]`, `ErrLastMessage` on the final one of the count or of the inputs, `ErrEndStream` ever after; the panic needs a positive count and no inputs |
| StreamProviders.LastComesOnce | runner/data.go:518-545 | the last-message mark comes exactly once, and the stream ends exactly from the count on |
| StreamProviders.DynamicMessageProvider.GetStreamMessage | runner/data.go:452-500 | the end exactly after the last message, else an error exactly if rendering fails, else element k in the first pass and 0 after it, always in bounds; a failure moves no counter |
| StreamProviders.DynamicTakesTurnsIff | runner/data.go:469-476 | rendered messages take turns exactly in the first pass and where the turn is back at the first input |
| StreamProviders.DynamicDoesNotCycle | runner/data.go:459-476 | three inputs and six messages, where static and rendered messages differ |
| StreamProviders.DynamicSendsNothingIff | runner/data.go:452-464 | a dynamic stream ends before its first message exactly with no elements and no count |
| StreamProviders.SendStream | runner/worker.go:372-420 | the loop of every stream that something ends returns with the messages in order; nothing follows a send that was not accepted, was the last message, was followed by a cancellation or reached the count, and it stops only for one of these, a cancellation before the next or no message |
| StreamProviders.AreSendsIff | runner/worker.go:375-420 | a list is all the sends exactly under those conditions |
| StreamProviders.EndlessIff | runner/worker.go:372-420 | there is a list of all sends if and only if something ends the stream |
| StreamProviders.StaticStreamEnds | runner/worker.go:372-420 | a static stream is always ended by its limit |
| StreamProviders.StaticStreamIsSent | runner/worker.go:372-420 | a static stream sends its inputs in turn, exactly up to the first send that was not accepted or was followed by a cancellation, the first cancellation seen before a message, or the count |
| Varints.DisjointOr | internal/sleep/service.pb.go:417 | combining bits that do not overlap is addition |
| Varints.OrTruncated | internal/sleep/service.pb.go:408-422 | one turn of the reading loop adds the next seven bits and loses those beyond the 64th |
| Varints.ReadVarint | internal/sleep/service.pb.go:408-422 | the loop gives the base 128 value modulo 2^64 and the end, or overflow after ten bytes, or end of input |
| Varints.EncodedIsVarint | internal/sleep/service.pb.go:337-347 | what is written is a varint of at most ten bytes whose base 128 value is the one encoded |
| Varints.EncodedIsShortest | internal/sleep/service.pb.go:337-347 | and no varint of that value is shorter |
| Varints.SovIsLength | internal/sleep/service.pb.go:369-371 | the size computed from the highest bit is the number of bytes |
| Varints.EncodeVarint | internal/sleep/service.pb.go:337-347 | fills exactly the computed size before the offset and nothing else |
| WireCodec.SkipField | internal/sleep/service.pb.go:527-631 | skipping ends on every byte string and gets past at least the tag; only the empty one panics |
| WireCodec.SkipService | internal/sleep/service.pb.go:527-631 | the code with its loops computes that |
| WireCodec.SkipGroupLoop | internal/sleep/service.pb.go:589-620 | the group loop, recursion and overflow check included |
| WireCodec.SleepRequest.Size | internal/sleep/service.pb.go:348-358 | the number of bytes written |
| WireCodec.SleepRequest.MarshalToSizedBuffer | internal/sleep/service.pb.go:301-312 | writes the message at the end of the buffer and nothing else |
| WireCodec.SleepRequest.MarshalTo | internal/sleep/service.pb.go:296-299 | writes the message at the front of the buffer |
| WireCodec.SleepRequest.Marshal | internal/sleep/service.pb.go:286-294 | returns exactly the message |
| WireCodec.SleepRequest.ReadMilliseconds | internal/sleep/service.pb.go:435-450 | the value loop, with the partial value left behind by an error |
| WireCodec.SleepRequest.Unmarshal | internal/sleep/service.pb.go:402-473 | error and value for every byte string and every value held before |
| WireRoundTrips.SkipsNode | internal/sleep/service.pb.go:527-631 | a well-formed field is skipped to its end exactly, whatever follows and however deep groups nest |
| WireRoundTrips.SkipsNodes | internal/sleep/service.pb.go:589-620 | so are the members of a group, up to and with its end tag |
| WireRoundTrips.ParsesMessage | internal/sleep/service.pb.go:402-473 | any mixture of known and unknown fields parses without error, and the last occurrence of field 1 wins |
| WireRoundTrips.RoundTrip | internal/sleep/service.pb.go:286-473 | parsing what was printed gives the value back for every int64; for zero the request keeps what it held |
| WireRoundTrips.UnknownFieldsAreIgnored | internal/sleep/service.pb.go:402-473 | unknown fields before and after change nothing |
| WireRoundTrips.CutShortIsAnError | internal/sleep/service.pb.go:402-473 | every proper non-empty prefix of a printed message is reported as an unexpected end |
| WireLanguages.ReadAtIs | internal/sleep/service.pb.go:402-423 | reading gives an overflow exactly on ten bytes that all continue, an unexpected end exactly where fewer run out, and else the value of the varint that stands there |
| WireLanguages.SkippedIsNode | internal/sleep/service.pb.go:527-631 | whatever is skipped within the bytes is a well-formed field, groups and their members included |
| WireLanguages.SkippedIsNodes | internal/sleep/service.pb.go:589-620 | the rest of a group that is skipped is a sequence of well-formed fields up to an end tag |
| WireLanguages.ParsesIff | internal/sleep/service.pb.go:402-473 | exactly which byte strings parse, and to which value: the messages of legal fields, with the value of the last field 1 |
| WireErrors.CutInsideIsAnError | internal/sleep/service.pb.go:402-631 | any message cut short inside a field, known or unknown, however deep its groups, is an unexpected end |
| WireErrors.CutNode | internal/sleep/service.pb.go:527-631 | skipping a field cut short fails with an unexpected end or reaches to where the field would have ended |
| WireErrors.BadTagIsAnError | internal/sleep/service.pb.go:424-435 | after legal fields, an end tag, a field number that is not positive, field 1 of another type and a type that does not exist are refused in that order, each with its error and the value so far |
| WireErrors.BadLengthIsAnError | internal/sleep/service.pb.go:575-588 | a length that reads as negative or reaches past the largest int is refused |
| WireErrors.OverlongIsAnError | internal/sleep/service.pb.go:402-423 | ten continuing bytes instead of a tag overflow |

## Left out

- Rounding, infinities and NaN of `float64`, and conversions of out-of-range values to integers: arithmetic is over
  `real`. At rate zero the step pacer converts an infinite interval; its answer is then `Unspecified`, and results
  about the ramp ask for a positive rate. Histogram frequencies of no samples (0/0) are 0 here.
- 64-bit overflow of times, of `Step * steps` in the ramp and of its rates: these are unbounded integers. A negative
  `StepDuration` or `loadStepDuration` is excluded, and a negative elapsed time is left to the pacer functions.
- What `sync.Once` does after a panic inside `initialize`: a panic ends the program here.
- ConstantPacers.NeverAhead: for at most one hit per nanosecond, because above that the interval is 0 and the pacer panics.
- StepCrossings.NeverAheadIff: for schedules without jumps, because with a jump the total is not the integral of the rate and
  falls back by itself (`StepSchedules.HitsIsIntegralIff`).
- WorkerTickers.DeadlineBringsToStop: for counts that fit an int64, because the count is an unbounded integer.
- The clock, sleeping, the scheduler and random draws: inputs of the model, any value the code could meet.
- RunResults.RunKeepsInv: premises are that the ticker sends nothing after `Finish`, that a pacer stops at a positive `Max`
  (proved in `RunLoads.AtMostTotal` for every pacer but one brought along) and that every request ends. A step ticker that sends on its closed channel,
  and a line ticker finished before it has run, panic in the code.
- The request itself, its errors, connections, stubs, stats callbacks and reflection: a request is one step that ends.
- The goroutine that collects sampled results, the payload sampling, and the fields of the report that are copied. A rate over
  a total time of zero is 0 here.
- Reports.Summarize: takes the latencies already sorted, because the sorting is the library's. The printed forms of the marks are reduced to which label they carry.
- CacheRuns.CacheIsTransparent: parsing is deterministic and its results are given, because JSON, templates and Protocol Buffers
  messages are other people's code; how far `append` grows a full slice is up to the runtime.
- StreamProviders.SendStream: the timer that cancels a stream and the channel it uses are answers of the environment. A stream
  that nothing ends does not return. The bidirectional and server-streaming loops and closing the stream are not modelled.
- WireCodec.SkipField: byte slices are at least eight bytes shorter than the largest int, so adding 8 to an index never wraps;
  lengths and group offsets do wrap as in the code. The response message, which has no fields, is not modelled.
- `createWorkerTicker`, printers, options, configuration files and the other generated code: they would only add easy members.
