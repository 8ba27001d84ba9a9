/** `runWorkers` cannot run for ever on finitely many requests and values of the worker ticker: every move
    uses up rank. */
module RunTermination {
  import opened WorkerTickers
  import opened RunProtocol
  import opened RunInvariants
  import opened RunResults

  // ---------- a rank that every move lowers ----------

  function WorkerRank(w: Worker): nat {
    |w.pending| +
    match w.phase
    case Created => 5
    case Selecting => 4
    case Calling => 4
    case Waiting => 3
    case Reporting => 2
    case Gone => 0
  }

  function WorkersRank(workers: seq<Worker>): nat {
    if workers == [] then 0
    else WorkersRank(workers[..|workers| - 1]) + WorkerRank(workers[|workers| - 1])
  }

  /** The workers created by the given values of the ticker. */
  function Created(values: seq<TickValue>): nat {
    if values == [] then 0
    else
      var delta := values[|values| - 1].delta;
      Created(values[..|values| - 1]) + if delta > 0 then delta else 0
  }

  /** Workers still to be created for the current value. */
  function Left(s: State): nat {
    if s.control.Creating? then s.control.left else 0
  }

  /** What handling one value can cost with `total` workers. */
  function TickCost(tick: TickValue, total: nat): nat {
    6 * (if tick.delta > 0 then tick.delta else 0) + 2 * total + 8
  }

  function TicksRank(values: seq<TickValue>, total: nat): nat {
    if values == [] then 0
    else TicksRank(values[..|values| - 1], total) + TickCost(values[|values| - 1], total)
  }

  /** `n` bounds the requests delivered and `total` the workers created. */
  function PacerRank(s: State, n: int, total: int): int {
    match s.pacer
    case Pacing => 4 * (n - |s.delivered|) + 2 * total + 11
    case Offering(_) => 4 * (n - |s.delivered|) + 2 * total + 10
    case Announcing => 2 * total + 9
    case Finishing => 2 * total + 8
    case AwaitingControl => 2 * total + 6
    case AwaitingLock => 2 * |s.workers| + 5
    case Stopping(i) => 2 * (|s.workers| - i) + 4
    case HandingStop(i) => 2 * (|s.workers| - i) + 3
    case Closing => 1
    case Ended => 0
  }

  function ControlRank(s: State): int {
    match s.control
    case Receiving => 1
    case Creating(left, done) => 6 * left + 3
    case Locking(want, done) => 2 * |s.workers| + 4
    case Removing(i, removed, want, done) => 2 * (|s.workers| - i) + 3
    case HandingRemove(i, removed, want, done) => 2 * (|s.workers| - i) + 2
    case TickHandled(done) => 2
    case Exited => 0
  }

  function MainRank(s: State): nat {
    match s.main
    case AwaitingDone => 3
    case Counting => 2
    case Collecting(want, got) => 1
    case Returned(want) => 0
  }

  /** The rank of a state in a run with n deliveries and the given values of the ticker. */
  function Rank(s: State, n: int, values: seq<TickValue>): int {
    PacerRank(s, n, Created(values)) + ControlRank(s) + WorkersRank(s.workers) + s.errs + MainRank(s)
    + TicksRank(values, Created(values)) - TicksRank(s.received, Created(values))
  }

  lemma {:induction false} WorkersRankUpdate(workers: seq<Worker>, i: nat, w: Worker)
    requires i < |workers|
    ensures WorkersRank(workers[i := w]) == WorkersRank(workers) - WorkerRank(workers[i]) + WorkerRank(w)
  {
    var n := |workers| - 1;
    if i < n {
      WorkersRankUpdate(workers[..n], i, w);
      assert workers[i := w][..n] == workers[..n][i := w];
    } else {
      assert workers[i := w][..n] == workers[..n];
    }
  }

  lemma WorkersRankAppend(workers: seq<Worker>, w: Worker)
    ensures WorkersRank(workers + [w]) == WorkersRank(workers) + WorkerRank(w)
  {
    assert (workers + [w])[..|workers|] == workers;
  }

  /** Giving a stop to a worker in its loop lowers its rank; marking it changes nothing. */
  lemma StopLowersRank(c: Config, workers: seq<Worker>, i: nat)
    requires i < |workers|
    ensures workers[i].phase.Selecting? ==> WorkersRank(GiveStop(c, workers, i)) < WorkersRank(workers)
    ensures WorkersRank(Deactivate(workers, i)) == WorkersRank(workers)
    ensures |GiveStop(c, workers, i)| == |Deactivate(workers, i)| == |workers|
  {
    WorkersRankUpdate(workers, i, GiveStop(c, workers, i)[i]);
    WorkersRankUpdate(workers, i, Deactivate(workers, i)[i]);
  }

  lemma PacerLowersRank(c: Config, s: State, step: PacerStep, n: nat, values: seq<TickValue>)
    requires InStep(s) && PacerEnabled(c, s, step) && |s.workers| <= Created(values)
    requires |PacerApply(c, s, step).delivered| <= n
    ensures Rank(PacerApply(c, s, step), n, values) < Rank(s, n, values)
  {
    SameControlRank(s, PacerApply(c, s, step));
    hide WorkersRank, WorkerRank, ControlRank, GiveStop, Deactivate, Created, TicksRank, Take, InStep;
    if s.pacer.Stopping? || s.pacer.HandingStop? {
      StoppingLowersRank(c, s, step, n, values);
    } else if step.Deliver? {
      DeliveryRank(c, s, step.w);
    }
  }

  lemma StoppingLowersRank(c: Config, s: State, step: PacerStep, n: nat, values: seq<TickValue>)
    requires InStep(s) && PacerEnabled(c, s, step) && (s.pacer.Stopping? || s.pacer.HandingStop?)
    ensures Rank(PacerApply(c, s, step), n, values) < Rank(s, n, values)
  {
    hide WorkersRank, WorkerRank, ControlRank, Created, TicksRank, GiveStop, Deactivate;
    if s.pacer.i < |s.workers| {
      StopLowersRank(c, s.workers, s.pacer.i);
    }
    SameControlRank(s, PacerApply(c, s, step));
  }

  /** A delivery adds one pending request. */
  lemma DeliveryRank(c: Config, s: State, w: nat)
    requires PacerEnabled(c, s, Deliver(w))
    ensures WorkersRank(PacerApply(c, s, Deliver(w)).workers) <= WorkersRank(s.workers) + 1
  {
    var worker := s.workers[w];
    WorkersRankUpdate(s.workers, w, Take(c, worker, s.pacer.number));
    assert |worker.pending + {s.pacer.number}| <= |worker.pending| + 1;
    hide WorkersRank;
  }

  lemma SameControlRank(s: State, t: State)
    requires t.control == s.control && |t.workers| == |s.workers|
    ensures ControlRank(t) == ControlRank(s)
  {
  }

  lemma ControlLowersRank(c: Config, s: State, step: ControlStep, n: nat, values: seq<TickValue>)
    requires InStep(s) && ControlEnabled(c, s, step) && |s.workers| <= Created(values)
    ensures Rank(ControlApply(c, s, step), n, values) < Rank(s, n, values)
  {
    hide WorkersRank, Created, TicksRank, PacerRank;
    ControlKeepsPacerRank(c, s, step, n, Created(values));
    match step
    case Receive(tick) => TicksRankAppend(s.received, tick, Created(values));
    case Append => WorkersRankAppend(s.workers, Worker(s.nextConn, true, Phase.Created, {}, 0));
    case SetRemove => StopLowersRank(c, s.workers, s.control.i);
    case HandRemove => StopLowersRank(c, s.workers, s.control.i);
    case _ =>
  }

  /** Once the sending goroutine looks at the workers, none are created any more. */
  lemma ControlKeepsPacerRank(c: Config, s: State, step: ControlStep, n: int, total: int)
    requires InStep(s) && ControlEnabled(c, s, step)
    ensures PacerRank(ControlApply(c, s, step), n, total) == PacerRank(s, n, total)
  {
  }

  lemma TicksRankAppend(values: seq<TickValue>, tick: TickValue, total: nat)
    ensures TicksRank(values + [tick], total) == TicksRank(values, total) + TickCost(tick, total)
    ensures Created(values + [tick]) == Created(values) + if tick.delta > 0 then tick.delta else 0
  {
    assert (values + [tick])[..|values|] == values;
  }

  lemma WorkerAfterRank(c: Config, worker: Worker, step: WorkerStep)
    requires WorkerFits(c, worker) && !step.ReadZeroTick?
    requires match step
             case Begin => worker.phase.Created?
             case End(number) => number in worker.pending
             case GroupDone => worker.phase.Waiting?
             case _ => worker.phase.Reporting?
    ensures WorkerRank(WorkerAfter(c, worker, step)) < WorkerRank(worker) - if step.Report? then 1 else 0
  {
    if step.End? {
      assert |worker.pending - {step.number}| == |worker.pending| - 1;
    }
  }

  lemma ReportIsCounted(c: Config, s: State, w: nat, step: WorkerStep)
    requires WorkerEnabled(c, s, w, step)
    ensures var t := WorkerApply(c, s, w, step);
            t.errs == s.errs + (if step.Report? then 1 else 0) && MainRank(t) == MainRank(s)
  {
    hide WorkerAfter;
  }

  /** The ranks of the two loops only look at the loops, the deliveries and the number of workers. */
  lemma SameLoopRanks(s: State, t: State, n: int, total: int)
    requires t.pacer == s.pacer && t.control == s.control && |t.workers| == |s.workers| && t.delivered == s.delivered
    ensures PacerRank(t, n, total) == PacerRank(s, n, total) && ControlRank(t) == ControlRank(s)
  {
  }

  lemma WorkerLowersRank(c: Config, s: State, w: nat, step: WorkerStep, n: nat, values: seq<TickValue>)
    requires Inv(c, s) && WorkerEnabled(c, s, w, step)
    ensures Rank(WorkerApply(c, s, w, step), n, values) < Rank(s, n, values)
  {
    NoZeroTick(c, s, w);
    assert WorkerFits(c, s.workers[w]);
    WorkerStepIsLocal(c, s, w, step);
    WorkerAfterRank(c, s.workers[w], step);
    ReportIsCounted(c, s, w, step);
    WorkersRankUpdate(s.workers, w, WorkerAfter(c, s.workers[w], step));
    var t := WorkerApply(c, s, w, step);
    WorkerDeliversNothing(c, s, w, step);
    SameLoopRanks(s, t, n, Created(values));
    hide WorkersRank, WorkerRank, PacerRank, ControlRank, MainRank, Inv, WorkerApply, WorkerEnabled, WorkerAfter, WorkerFits;
    hide Created, TicksRank;
  }

  lemma WorkerDeliversNothing(c: Config, s: State, w: nat, step: WorkerStep)
    requires WorkerEnabled(c, s, w, step)
    ensures WorkerApply(c, s, w, step).delivered == s.delivered
  {
    hide WorkerAfter;
  }

  lemma MainLowersRank(s: State, step: MainStep, n: nat, values: seq<TickValue>)
    requires MainEnabled(s, step)
    ensures Rank(MainApply(s, step), n, values) < Rank(s, n, values)
  {
    SameLoopRanks(s, MainApply(s, step), n, Created(values));
    hide WorkersRank, PacerRank, ControlRank, Created, TicksRank;
  }

  /** Every step but a stop request lowers the rank. */
  lemma StepLowersRank(c: Config, s: State, step: Step, n: nat, values: seq<TickValue>)
    requires Inv(c, s) && Enabled(c, s, step) && step != RequestStop
    requires |s.workers| <= Created(values) && |Apply(c, s, step).delivered| <= n
    ensures Rank(Apply(c, s, step), n, values) < Rank(s, n, values)
  {
    hide Rank, Created;
    match step
    case P(p) => PacerLowersRank(c, s, p, n, values);
    case C(k) => ControlLowersRank(c, s, k, n, values);
    case W(w, k) => WorkerLowersRank(c, s, w, k, n, values);
    case M(m) => MainLowersRank(s, m, n, values);
  }

  // ---------- every run is bounded by what it delivers and receives ----------

  /** The steps that are not stop requests. */
  function Moves(steps: seq<Step>): nat {
    if steps == [] then 0
    else Moves(steps[..|steps| - 1]) + if steps[|steps| - 1] == RequestStop then 0 else 1
  }

  /** Workers are created as the values received ask for. */
  predicate CreatedMatches(s: State) {
    |s.workers| + Left(s) == Created(s.received)
  }

  lemma ControlKeepsCreated(c: Config, s: State, step: ControlStep)
    requires CreatedMatches(s) && ControlEnabled(c, s, step)
    ensures CreatedMatches(ControlApply(c, s, step)) && s.received <= ControlApply(c, s, step).received
    ensures ControlApply(c, s, step).delivered == s.delivered
  {
    if step.Receive? {
      TicksRankAppend(s.received, step.tick, 0);
    }
    hide Created, TicksRank;
  }

  lemma PacerKeepsCreated(c: Config, s: State, step: PacerStep)
    requires CreatedMatches(s) && PacerEnabled(c, s, step)
    ensures CreatedMatches(PacerApply(c, s, step)) && PacerApply(c, s, step).received == s.received
    ensures |s.delivered| <= |PacerApply(c, s, step).delivered|
  {
    hide Created, Take;
  }

  lemma WorkerKeepsCreated(c: Config, s: State, w: nat, step: WorkerStep)
    requires CreatedMatches(s) && WorkerEnabled(c, s, w, step)
    ensures CreatedMatches(WorkerApply(c, s, w, step)) && WorkerApply(c, s, w, step).received == s.received
  {
    WorkerStepIsLocal(c, s, w, step);
    hide Created, WorkerAfter, WorkerApply;
  }

  /** Steps create workers as asked for, and only add to what has been delivered and received. */
  lemma StepKeepsCreated(c: Config, s: State, step: Step)
    requires CreatedMatches(s) && Enabled(c, s, step)
    ensures var t := Apply(c, s, step);
            CreatedMatches(t) && |s.delivered| <= |t.delivered| && s.received <= t.received
  {
    hide Created, WorkerAfter, WorkerEnabled, PacerEnabled, ControlEnabled, WorkerApply, PacerApply, ControlApply;
    match step
    case P(p) => PacerKeepsCreated(c, s, p);
    case C(k) => ControlKeepsCreated(c, s, k);
    case W(w, k) =>
      WorkerKeepsCreated(c, s, w, k);
      WorkerDeliversNothing(c, s, w, k);
    case M(m) =>
    case RequestStop =>
  }

  lemma {:induction false} MoreValues(a: seq<TickValue>, b: seq<TickValue>, total: nat)
    requires a <= b
    ensures Created(a) <= Created(b) && TicksRank(a, total) <= TicksRank(b, total)
  {
    if |a| < |b| {
      assert a <= b[..|b| - 1];
      MoreValues(a, b[..|b| - 1], total);
    } else {
      assert a == b;
    }
  }

  lemma {:induction false} MovesUseUpRank(c: Config, steps: seq<Step>, n: nat, values: seq<TickValue>)
    requires Run(c, steps).Reached?
    requires |Run(c, steps).state.delivered| <= n && Run(c, steps).state.received <= values
    ensures var t := Run(c, steps).state;
            Inv(c, t) && CreatedMatches(t) && Moves(steps) + Rank(t, n, values) <= Rank(Init(), n, values)
  {
    hide Inv, Enabled, Apply, Rank, Run, Created;
    if steps == [] {
      StartOfRun(c);
    } else {
      var k := |steps| - 1;
      LastStep(c, steps);
      var s, step := Run(c, steps[..k]).state, steps[k];
      CreatedAlong(c, steps[..k]);
      StepKeepsCreated(c, s, step);
      MovesUseUpRank(c, steps[..k], n, values);
      StepKeepsInv(c, s, step);
      if step == RequestStop {
        RequestKeepsRank(c, s, n, values);
      } else {
        MoreValues(s.received, values, 0);
        StepLowersRank(c, s, step, n, values);
      }
    }
  }

  lemma StartOfRun(c: Config)
    ensures Run(c, []) == Reached(Init()) && Inv(c, Init()) && CreatedMatches(Init())
  {
    hide Inv;
    InitIsGood(c);
    EmptyRun(c);
  }

  lemma {:induction false} CreatedAlong(c: Config, steps: seq<Step>)
    requires Run(c, steps).Reached?
    ensures CreatedMatches(Run(c, steps).state)
  {
    hide Enabled, Apply, Run, Created, CreatedMatches;
    if steps == [] {
      StartOfRun(c);
    } else {
      LastStep(c, steps);
      CreatedAlong(c, steps[..|steps| - 1]);
      StepKeepsCreated(c, Run(c, steps[..|steps| - 1]).state, steps[|steps| - 1]);
    }
  }

  lemma RequestKeepsRank(c: Config, s: State, n: nat, values: seq<TickValue>)
    requires Enabled(c, s, RequestStop)
    ensures Rank(Apply(c, s, RequestStop), n, values) == Rank(s, n, values)
  {
    hide WorkersRank, Enabled, Created, TicksRank;
    SameLoopRanks(s, Apply(c, s, RequestStop), n, Created(values));
    hide PacerRank, ControlRank;
  }

  lemma RankIsNatural(s: State, n: nat, values: seq<TickValue>)
    requires InStep(s) && |s.delivered| <= n && s.received <= values
    ensures Rank(s, n, values) >= 0
  {
    MoreValues(s.received, values, Created(values));
    hide Created, TicksRank, WorkersRank;
  }

  /** A number of moves that grows with the requests delivered and the values received only. */
  function Bound(n: nat, values: seq<TickValue>): nat {
    4 * n + 2 * Created(values) + 15 + TicksRank(values, Created(values))
  }

  /** No interleaving makes more moves than its deliveries and its ticker's values account for: with a
      positive `Max` and a ticker that sends finitely many values, no run goes on for ever. */
  lemma MovesAreBounded(c: Config, steps: seq<Step>)
    requires Run(c, steps).Reached?
    ensures var t := Run(c, steps).state; Moves(steps) <= Bound(|t.delivered|, t.received)
  {
    var t := Run(c, steps).state;
    hide Run, Created, TicksRank, WorkersRank;
    MovesUseUpRank(c, steps, |t.delivered|, t.received);
    RankIsNatural(t, |t.delivered|, t.received);
    hide Rank;
    RankAtStart(|t.delivered|, t.received);
  }

  lemma RankAtStart(n: nat, values: seq<TickValue>)
    ensures Rank(Init(), n, values) == Bound(n, values)
  {
  }
}
