/** The tickers that raise and lower the number of workers (load/worker_ticker.go). */
module WorkerTickers {
  import opened GoNumbers

  datatype TickValue = TickValue(delta: int, done: bool)

  /** The settings of a step ticker. `stepDuration` only spaces the ticks of the clock. */
  datatype Ramp = Ramp(start: uint64, step: int, stop: uint64, maxDuration: int)

  /** One turn of the ticker's loop: the clock ticked `elapsed` after the start, with the
      workers asked for so far adding up to `wc`. */
  function OnTick(r: Ramp, wc: int, elapsed: int): TickValue {
    var stepUp := r.step > 0;
    if r.maxDuration > 0 && elapsed >= r.maxDuration then
      if stepUp && r.stop > 0 && r.stop >= ToUint64(wc) then
        TickValue(ToInt64(ToUint64(r.stop - ToUint64(wc))), true)
      else if !stepUp && r.stop > 0 && r.stop <= ToUint64(wc) then
        TickValue(ToInt64(ToUint64(r.stop - ToUint64(wc))), true)
      else
        TickValue(0, true)
    else if r.maxDuration == 0 && ((r.stop > 0 && stepUp && wc >= ToInt64(r.stop)) || (!stepUp && wc <= ToInt64(r.stop))) then
      TickValue(0, true)
    else
      TickValue(r.step, false)
  }

  /** The values sent for the given ticks of the clock. */
  function Emit(r: Ramp, wc: int, ticks: seq<int>): (values: seq<TickValue>)
    ensures |values| <= |ticks|
    decreases |ticks|
  {
    if ticks == [] then
      []
    else
      var v := OnTick(r, wc, ticks[0]);
      [v] + if v.done then [] else Emit(r, wc + r.step, ticks[1..])
  }

  function Emitted(r: Ramp, ticks: seq<int>): seq<TickValue> {
    [TickValue(ToInt64(r.start), false)] + Emit(r, ToInt64(r.start), ticks)
  }

  function Sum(values: seq<TickValue>): int {
    if values == [] then 0 else values[0].delta + Sum(values[1..])
  }

  /** Workers running after the given values, if each value starts or stops workers and at
      most all of them can be stopped. */
  function Live(values: seq<TickValue>): int {
    if values == [] then 0 else Max(0, Live(values[..|values| - 1]) + values[|values| - 1].delta)
  }

  class StepWorkerTicker {
    const ramp: Ramp
    const stepDuration: int
    /** Everything sent on the channel so far. */
    var sent: seq<TickValue>

    constructor (ramp: Ramp, stepDuration: int)
      ensures this.ramp == ramp && this.stepDuration == stepDuration && sent == []
    {
      this.ramp, this.stepDuration, this.sent := ramp, stepDuration, [];
    }

    /** `ticks[k]` is the time since the start at the k-th tick of the clock. */
    method Run(ticks: seq<int>)
      modifies this
      ensures sent == old(sent) + Emitted(ramp, ticks)
    {
      hide OnTick, Emit;
      var wc := ToInt64(ramp.start);
      sent := sent + [TickValue(ToInt64(ramp.start), false)];
      var k := 0;
      ghost var goal := old(sent) + Emitted(ramp, ticks);
      assert goal == sent + Emit(ramp, wc, ticks) && ticks[0..] == ticks;
      while k < |ticks|
        invariant 0 <= k <= |ticks|
        invariant goal == sent + Emit(ramp, wc, ticks[k..])
      {
        EmitStep(ramp, wc, ticks, k, sent);
        var finished := Turn(wc, ticks[k]);
        if finished {
          return;
        }
        wc := wc + ramp.step;
        k := k + 1;
      }
      EmitNothing(ramp, wc, ticks, sent);
    }

    /** The body of the loop: what is sent on one tick of the clock, and whether it is the last. */
    method Turn(wc: int, elapsed: int) returns (finished: bool)
      modifies this
      ensures sent == old(sent) + [OnTick(ramp, wc, elapsed)]
      ensures finished == OnTick(ramp, wc, elapsed).done
    {
      var stepUp := ramp.step > 0;
      finished := true;
      if ramp.maxDuration > 0 && elapsed >= ramp.maxDuration {
        if stepUp && ramp.stop > 0 && ramp.stop >= ToUint64(wc) {
          sent := sent + [TickValue(ToInt64(ToUint64(ramp.stop - ToUint64(wc))), true)];
        } else if !stepUp && ramp.stop > 0 && ramp.stop <= ToUint64(wc) {
          sent := sent + [TickValue(ToInt64(ToUint64(ramp.stop - ToUint64(wc))), true)];
        } else {
          sent := sent + [TickValue(0, true)];
        }
      } else if ramp.maxDuration == 0
                && ((ramp.stop > 0 && stepUp && wc >= ToInt64(ramp.stop)) || (!stepUp && wc <= ToInt64(ramp.stop))) {
        sent := sent + [TickValue(0, true)];
      } else {
        sent := sent + [TickValue(ramp.step, false)];
        finished := false;
      }
    }
  }

  /** A constant number of workers: one value, which is also the last. */
  class ConstWorkerTicker {
    const n: uint64
    var sent: seq<TickValue>

    constructor (n: uint64)
      ensures this.n == n && sent == []
    {
      this.n, this.sent := n, [];
    }

    method Run()
      modifies this
      ensures sent == old(sent) + [TickValue(ToInt64(n), true)]
    {
      sent := sent + [TickValue(ToInt64(n), true)];
    }
  }

  /** A line is a step ticker on a clock of one second. */
  class LineWorkerTicker {
    const ramp: Ramp
    var stepTicker: StepWorkerTicker?

    constructor (ramp: Ramp)
      ensures this.ramp == ramp && stepTicker == null
    {
      this.ramp, this.stepTicker := ramp, null;
    }

    method Run(ticks: seq<int>)
      modifies this
      ensures stepTicker != null && fresh(stepTicker)
      ensures stepTicker.ramp == ramp && stepTicker.stepDuration == NANO
      ensures stepTicker.sent == Emitted(ramp, ticks)
    {
      var inner := new StepWorkerTicker(ramp, NANO);
      inner.Run(ticks);
      stepTicker := inner;
    }
  }

  lemma EmitStep(r: Ramp, wc: int, ticks: seq<int>, k: nat, sent: seq<TickValue>)
    requires k < |ticks|
    ensures var v := OnTick(r, wc, ticks[k]);
            sent + Emit(r, wc, ticks[k..]) ==
            if v.done then sent + [v] else sent + [v] + Emit(r, wc + r.step, ticks[k + 1..])
  {
    hide OnTick;
    assert ticks[k..][1..] == ticks[k + 1..];
  }

  lemma EmitNothing(r: Ramp, wc: int, ticks: seq<int>, sent: seq<TickValue>)
    ensures sent + Emit(r, wc, ticks[|ticks|..]) == sent
  {
  }

  // ---------- sums ----------

  lemma {:induction false} SumAppends(a: seq<TickValue>, v: TickValue)
    ensures Sum(a + [v]) == Sum(a) + v.delta
  {
    if a == [] {
    } else {
      assert (a + [v])[1..] == a[1..] + [v];
      SumAppends(a[1..], v);
    }
  }

  /** Values before the last are never `done`, each of them is one step, and they add up to the
      workers the ticker believes it has asked for. */
  lemma {:induction false} SumIsWorkerCount(r: Ramp, ticks: seq<int>, j: nat)
    requires j < |Emitted(r, ticks)| - 1
    ensures !Emitted(r, ticks)[j].done
    ensures Sum(Emitted(r, ticks)[..j + 1]) == ToInt64(r.start) + r.step * j
    ensures Emitted(r, ticks)[j + 1] == OnTick(r, ToInt64(r.start) + r.step * j, ticks[j])
  {
    hide OnTick, ToInt64, Emit, Sum;
    var e := Emitted(r, ticks);
    EmitAt(r, ToInt64(r.start), ticks, j);
    if j == 0 {
      assert e[..1] == [] + [e[0]];
      SumAppends([], e[0]);
      SumOfNothing();
    } else {
      SumIsWorkerCount(r, ticks, j - 1);
      EmitAt(r, ToInt64(r.start), ticks, j - 1);
      assert e[..j + 1] == e[..j] + [e[j]];
      SumAppends(e[..j], e[j]);
      OneStepMore(r.step, j);
    }
  }

  lemma SumOfNothing()
    ensures Sum([]) == 0
  {
  }

  lemma OneStepMore(step: int, j: int)
    ensures step * j == step * (j - 1) + step
  {
  }

  lemma OnTickIsStep(r: Ramp, wc: int, elapsed: int)
    ensures !OnTick(r, wc, elapsed).done ==> OnTick(r, wc, elapsed) == TickValue(r.step, false)
  {
  }

  /** The k-th value after the first is sent on the k-th tick, all earlier ones being steps. */
  lemma {:induction false} EmitAt(r: Ramp, wc: int, ticks: seq<int>, k: nat)
    requires k < |Emit(r, wc, ticks)|
    ensures k < |ticks| && Emit(r, wc, ticks)[k] == OnTick(r, wc + r.step * k, ticks[k])
    ensures k < |Emit(r, wc, ticks)| - 1 ==> Emit(r, wc, ticks)[k] == TickValue(r.step, false)
    decreases k
  {
    OnTickIsStep(r, wc, ticks[0]);
    hide OnTick;
    if k == 0 {
    } else {
      EmitAt(r, wc + r.step, ticks[1..], k - 1);
      assert wc + r.step + r.step * (k - 1) == wc + r.step * k;
    }
  }

  // ---------- termination and the final count ----------

  /** More ticks than this are never needed without a deadline. */
  function StepsToStop(r: Ramp): int
    requires r.step != 0
  {
    var gap := if r.step > 0 then r.stop - r.start else r.start - r.stop;
    if gap <= 0 then 0 else (gap - 1) / (if r.step > 0 then r.step else -r.step) + 1
  }

  /** The first step count that reaches the final number of workers. */
  lemma StepsToStopIsFirst(r: Ramp, k: int)
    requires r.step != 0 && k >= 0
    ensures StepsToStop(r) >= 0
    ensures k >= StepsToStop(r) <==> if r.step > 0 then r.start + r.step * k >= r.stop else r.start + r.step * k <= r.stop
  {
    var gap, size := if r.step > 0 then r.stop - r.start else r.start - r.stop, if r.step > 0 then r.step else -r.step;
    if gap > 0 {
      FitsIffAtMostQuotient(gap - 1, size, k);
      FitsIffAtMostQuotient(gap - 1, size, 0);
    } else {
      ProductIsMonotone(0, k, size);
    }
    assert r.step > 0 ==> k * size == r.step * k;
    assert r.step < 0 ==> k * size == -(r.step * k);
  }

  predicate Ordinary(r: Ramp) {
    r.start <= MAX_INT64 && r.stop <= MAX_INT64
  }

  /** Without a deadline, a falling ramp, or a rising one with a final count, sends `Done` on the
      tick after the one that reaches the final count, and not before. */
  lemma EndsWithoutDeadline(r: Ramp, ticks: seq<int>)
    requires Ordinary(r) && r.maxDuration == 0
    requires r.step < 0 || (r.step > 0 && r.stop > 0)
    requires |ticks| > StepsToStop(r)
    ensures var e := Emitted(r, ticks);
            |e| == StepsToStop(r) + 2 && e[|e| - 1] == TickValue(0, true)
  {
    hide StepsToStop, OnTick, ToInt64, Emit;
    StepsToStopIsFirst(r, 0);
    StartIsItself(r);
    NoSteps(r.step, StepsToStop(r));
    EndsAfter(r, r.start, ticks, StepsToStop(r));
  }

  lemma StartIsItself(r: Ramp)
    requires Ordinary(r)
    ensures ToInt64(r.start) == r.start
  {
  }

  lemma NoSteps(step: int, n: int)
    ensures step * (n - n) == 0
  {
  }

  lemma {:induction false} EndsAfter(r: Ramp, wc: int, ticks: seq<int>, left: nat)
    requires Ordinary(r) && r.maxDuration == 0 && |ticks| > left
    requires r.step < 0 || (r.step > 0 && r.stop > 0)
    requires left <= StepsToStop(r) && wc == r.start + r.step * (StepsToStop(r) - left)
    ensures |Emit(r, wc, ticks)| == left + 1 && Emit(r, wc, ticks)[left] == TickValue(0, true)
    decreases left
  {
    hide StepsToStop, OnTick;
    var k := StepsToStop(r) - left;
    StepsToStopIsFirst(r, k);
    OpenEndedTick(r, wc, ticks[0]);
    if left == 0 {
    } else {
      assert r.step * (k + 1) == r.step * k + r.step;
      EndsAfter(r, wc + r.step, ticks[1..], left - 1);
    }
  }

  /** Without a deadline the loop only looks at the count. */
  lemma OpenEndedTick(r: Ramp, wc: int, elapsed: int)
    requires Ordinary(r) && r.maxDuration == 0
    requires r.step < 0 || (r.step > 0 && r.stop > 0)
    ensures OnTick(r, wc, elapsed) ==
            if (if r.step > 0 then wc >= r.stop else wc <= r.stop) then TickValue(0, true) else TickValue(r.step, false)
  {
  }

  /** The clock's ticks at or after the deadline. */
  predicate PastDeadline(r: Ramp, elapsed: int) {
    0 < r.maxDuration <= elapsed
  }

  ghost predicate AnyPastDeadline(r: Ramp, ticks: seq<int>) {
    exists t :: t in ticks && PastDeadline(r, t)
  }

  lemma FirstOrLater(r: Ramp, ticks: seq<int>)
    requires ticks != []
    ensures AnyPastDeadline(r, ticks) <==> PastDeadline(r, ticks[0]) || AnyPastDeadline(r, ticks[1..])
    ensures !AnyPastDeadline(r, [])
  {
    hide PastDeadline;
  }

  /** Without a deadline these ramps get to their final count, or have none to get to but start there. */
  predicate ReachesStop(r: Ramp) {
    r.maxDuration == 0 && (r.step < 0 || (r.step > 0 && r.stop > 0) || (r.step == 0 && r.start <= r.stop))
  }

  /** More ticks than this are never needed by a ramp that reaches its final count. */
  function TicksNeeded(r: Ramp): nat {
    if r.step == 0 then 0 else Max(0, StepsToStop(r))
  }

  /** Exactly which tickers end: given enough ticks of the clock, the last value is `Done` if and only if a
      tick comes at or after the deadline, or there is no deadline and the ramp reaches its final count.
      All others step on for ever: a rising ramp without a final count, a step of zero above it, and a
      negative deadline. */
  lemma EndsIff(r: Ramp, ticks: seq<int>)
    requires Ordinary(r) && |ticks| > TicksNeeded(r)
    ensures var e := Emitted(r, ticks);
            e[|e| - 1].done <==>
            || (exists t :: t in ticks && 0 < r.maxDuration <= t)
            || (r.maxDuration == 0
                && (r.step < 0 || (r.step > 0 && r.stop > 0) || (r.step == 0 && r.start <= r.stop)))
  {
    hide OnTick, StepsToStop;
    StartIsItself(r);
    if r.maxDuration > 0 {
      EndsAtDeadline(r, r.start, ticks);
    } else if !ReachesStop(r) {
      NeverEnds(r, r.start, ticks);
    } else if r.step == 0 {
      StandsStill(r, ticks[0]);
    } else {
      EndsWithoutDeadline(r, ticks);
    }
  }

  lemma StandsStill(r: Ramp, elapsed: int)
    requires Ordinary(r) && r.maxDuration == 0 && r.step == 0
    ensures OnTick(r, r.start, elapsed) == TickValue(0, r.start <= r.stop)
  {
  }

  lemma {:induction false} EndsAtDeadline(r: Ramp, wc: int, ticks: seq<int>)
    requires r.maxDuration > 0 && ticks != []
    ensures var e := Emit(r, wc, ticks);
            e != [] && (e[|e| - 1].done <==> AnyPastDeadline(r, ticks))
    decreases |ticks|
  {
    DoneAtDeadline(r, wc, ticks[0]);
    FirstOrLater(r, ticks);
    hide OnTick, PastDeadline, AnyPastDeadline;
    if PastDeadline(r, ticks[0]) || |ticks| == 1 {
    } else {
      EndsAtDeadline(r, wc + r.step, ticks[1..]);
    }
  }

  lemma DoneAtDeadline(r: Ramp, wc: int, elapsed: int)
    requires r.maxDuration > 0
    ensures OnTick(r, wc, elapsed).done <==> PastDeadline(r, elapsed)
  {
  }

  lemma {:induction false} NeverEnds(r: Ramp, wc: int, ticks: seq<int>)
    requires Ordinary(r) && r.maxDuration <= 0 && !ReachesStop(r) && ticks != []
    requires r.step == 0 ==> wc == r.start
    ensures var e := Emit(r, wc, ticks); |e| == |ticks| && forall k :: 0 <= k < |e| ==> !e[k].done
    decreases |ticks|
  {
    StepsOn(r, wc, ticks[0]);
    hide OnTick;
    if |ticks| == 1 {
    } else {
      NeverEnds(r, wc + r.step, ticks[1..]);
    }
  }

  lemma StepsOn(r: Ramp, wc: int, elapsed: int)
    requires Ordinary(r) && r.maxDuration <= 0 && !ReachesStop(r)
    requires r.step == 0 ==> wc == r.start
    ensures !OnTick(r, wc, elapsed).done
  {
  }

  /** The final count overshoots `Stop` by less than a step, unless the start already had. */
  lemma OvershootsByLessThanAStep(r: Ramp, ticks: seq<int>)
    requires Ordinary(r) && r.maxDuration == 0
    requires r.step < 0 || (r.step > 0 && r.stop > 0)
    requires |ticks| > StepsToStop(r)
    ensures var total := Sum(Emitted(r, ticks));
            if r.step > 0 then
              if r.start >= r.stop then total == r.start else r.stop <= total < r.stop + r.step
            else
              if r.start <= r.stop then total == r.start else r.stop >= total > r.stop + r.step
  {
    hide Emitted, OnTick, StepsToStop;
    var n := StepsToStop(r);
    EndsWithoutDeadline(r, ticks);
    StepsToStopIsFirst(r, 0);
    TotalAfter(r, ticks, n);
    StepsToStopIsFirst(r, n);
    assert r.step * 0 == 0;
    if n > 0 {
      StepsToStopIsFirst(r, n - 1);
      assert r.step * n == r.step * (n - 1) + r.step;
    }
  }

  /** The sum of all values, the last one being sent on tick j. */
  lemma TotalAfter(r: Ramp, ticks: seq<int>, j: nat)
    requires Ordinary(r) && j == |Emitted(r, ticks)| - 2
    ensures j < |ticks| && Sum(Emitted(r, ticks)) == r.start + r.step * j + Emitted(r, ticks)[j + 1].delta
    ensures Emitted(r, ticks)[j + 1] == OnTick(r, r.start + r.step * j, ticks[j])
  {
    hide OnTick;
    var e := Emitted(r, ticks);
    SumIsWorkerCount(r, ticks, j);
    EmitAt(r, ToInt64(r.start), ticks, j);
    hide Emitted;
    assert e == e[..j + 1] + [e[j + 1]];
    SumAppends(e[..j + 1], e[j + 1]);
  }

  /** The value sent on the first tick at or after the deadline is the last one. */
  lemma {:induction false} EndsAtFirstDeadline(r: Ramp, wc: int, ticks: seq<int>, j: nat)
    requires r.maxDuration > 0 && j < |ticks| && ticks[j] >= r.maxDuration
    requires forall k :: 0 <= k < j ==> ticks[k] < r.maxDuration
    ensures |Emit(r, wc, ticks)| == j + 1
    decreases j
  {
    DoneAtDeadline(r, wc, ticks[0]);
    hide OnTick;
    if j == 0 {
    } else {
      EndsAtFirstDeadline(r, wc + r.step, ticks[1..], j - 1);
    }
  }

  /** The first tick at or after the deadline gets the last value, which brings the sum to exactly `Stop` if and
      only if there is a final count and the count has not passed it; a falling count driven below zero has,
      but reads as a huge unsigned number and is brought back to `Stop`. Otherwise the sum stays where it was. */
  lemma DeadlineBringsToStop(r: Ramp, ticks: seq<int>, j: nat)
    requires Ordinary(r) && r.maxDuration > 0
    requires j < |ticks| && ticks[j] >= r.maxDuration && forall k :: 0 <= k < j ==> ticks[k] < r.maxDuration
    requires r.stop - MAX_INT64 <= r.start + r.step * j <= MAX_INT64
    ensures |Emitted(r, ticks)| == j + 2 && Emitted(r, ticks)[j + 1].done
    ensures var wc, total := r.start + r.step * j, Sum(Emitted(r, ticks));
            && (r.stop == 0 ==> total == wc)
            && (r.stop > 0 && r.step > 0 ==> total == if 0 <= wc <= r.stop then r.stop else wc)
            && (r.stop > 0 && r.step <= 0 ==> total == if wc >= r.stop || wc < 0 then r.stop else wc)
  {
    EndsAtFirstDeadline(r, ToInt64(r.start), ticks, j);
    hide OnTick, Sum, Emit;
    assert |Emitted(r, ticks)| == j + 2;
    hide Emitted;
    TotalAfter(r, ticks, j);
    DeadlineDelta(r, r.start + r.step * j, ticks[j]);
  }

  /** There is a final count, and `wc`, read as an unsigned number, has not passed it. */
  predicate StillOpen(r: Ramp, wc: int) {
    r.stop > 0 && if r.step > 0 then 0 <= wc <= r.stop else wc >= r.stop || wc < 0
  }

  lemma DeadlineDelta(r: Ramp, wc: int, elapsed: int)
    requires Ordinary(r) && 0 < r.maxDuration <= elapsed
    requires r.stop - MAX_INT64 <= wc <= MAX_INT64
    ensures OnTick(r, wc, elapsed) == TickValue(if StillOpen(r, wc) then r.stop - wc else 0, true)
  {
  }

  // ---------- live workers ----------

  /** The running workers are the sum of the deltas as long as no sum goes below zero. */
  lemma {:induction false} LiveIsSum(values: seq<TickValue>)
    requires forall j :: 0 <= j <= |values| ==> Sum(values[..j]) >= 0
    ensures Live(values) == Sum(values)
  {
    var n := |values|;
    if n == 0 {
    } else {
      var front := values[..n - 1];
      forall j | 0 <= j <= |front|
        ensures Sum(front[..j]) >= 0
      {
        assert front[..j] == values[..j];
      }
      LiveIsSum(front);
      assert values == front + [values[n - 1]];
      SumAppends(front, values[n - 1]);
      assert values[..n] == values;
    }
  }

  /** A rising ramp without a deadline never asks for fewer than no workers. */
  lemma RisingRampLiveIsSum(r: Ramp, ticks: seq<int>)
    requires Ordinary(r) && r.step >= 0 && r.maxDuration == 0
    ensures Live(Emitted(r, ticks)) == Sum(Emitted(r, ticks))
  {
    var e := Emitted(r, ticks);
    forall j | 0 <= j <= |e|
      ensures Sum(e[..j]) >= 0
    {
      if j > 0 {
        SumOfPrefix(r, ticks, j - 1);
      }
    }
    LiveIsSum(e);
  }

  lemma SumOfPrefix(r: Ramp, ticks: seq<int>, j: nat)
    requires Ordinary(r) && r.step >= 0 && r.maxDuration == 0 && j < |Emitted(r, ticks)|
    ensures Sum(Emitted(r, ticks)[..j + 1]) >= r.start
  {
    var e := Emitted(r, ticks);
    if j == 0 {
      assert e[..1] == [e[0]];
    } else {
      SumOfPrefix(r, ticks, j - 1);
      SumIsWorkerCount(r, ticks, j - 1);
      assert e[..j + 1] == e[..j] + [e[j]];
      SumAppends(e[..j], e[j]);
    }
  }

  /** A ramp that falls to a final count of zero leaves no worker running. */
  lemma FallingToZeroLeavesNone(r: Ramp, ticks: seq<int>)
    requires Ordinary(r) && r.step < 0 && r.stop == 0 && r.maxDuration == 0 && |ticks| > StepsToStop(r)
    ensures Live(Emitted(r, ticks)) == 0
  {
    hide Emitted, StepsToStop;
    var e, n := Emitted(r, ticks), StepsToStop(r);
    StepsToStopIsFirst(r, 0);
    StepsToStopIsFirst(r, n);
    EndsWithoutDeadline(r, ticks);
    FallingLive(r, ticks, n);
    assert e == e[..n + 1] + [e[n + 1]];
    LiveAppends(e[..n + 1], e[n + 1]);
  }

  lemma {:induction false} FallingLive(r: Ramp, ticks: seq<int>, j: nat)
    requires Ordinary(r) && r.step < 0 && r.maxDuration == 0 && j < |Emitted(r, ticks)| - 1
    ensures Live(Emitted(r, ticks)[..j + 1]) == Max(0, r.start + r.step * j)
  {
    var e := Emitted(r, ticks);
    StartIsItself(r);
    LiveAppends(e[..j], e[j]);
    assert e[..j + 1] == e[..j] + [e[j]];
    if j == 0 {
    } else {
      FallingLive(r, ticks, j - 1);
      EmitAt(r, r.start, ticks, j - 1);
      OneStepMore(r.step, j);
      hide Emit, Live, ToInt64;
    }
  }

  lemma LiveAppends(values: seq<TickValue>, v: TickValue)
    ensures Live(values + [v]) == Max(0, Live(values) + v.delta)
  {
    assert (values + [v])[..|values|] == values;
  }
}
