/** What `runWorkers` guarantees on all its runs. */
module RunResults {
  import opened WorkerTickers
  import opened RunProtocol
  import opened RunInvariants

  lemma StepKeepsInv(c: Config, s: State, step: Step)
    requires Inv(c, s) && Enabled(c, s, step)
    ensures Inv(c, Apply(c, s, step))
  {
    match step
    case P(p) => PacerKeepsInv(c, s, p);
    case C(k) => ControlKeepsInv(c, s, k);
    case W(w, k) => WorkerKeepsInv(c, s, w, k);
    case M(m) => MainKeepsInv(c, s, m);
    case RequestStop => RequestKeepsInv(c, s);
  }

  lemma AllTogether(c: Config, t: State)
    requires Numbered(c, t) && Owned(t) && WorkersFit(c, t) && InStep(t)
    requires StoppedInOrder(t) && Collected(t) && LiveMatches(t)
    ensures Inv(c, t)
  {
  }

  lemma PacerKeepsInv(c: Config, s: State, step: PacerStep)
    requires Inv(c, s) && PacerEnabled(c, s, step)
    ensures Inv(c, PacerApply(c, s, step))
  {
    hide *;
    PacerKeepsNumbered(c, s, step);
    PacerKeepsOwned(c, s, step);
    PacerKeepsWorkersFit(c, s, step);
    PacerKeepsInStep(c, s, step);
    PacerKeepsStoppedInOrder(c, s, step);
    PacerKeepsCollected(c, s, step);
    PacerKeepsLiveMatches(c, s, step);
    AllTogether(c, PacerApply(c, s, step));
  }

  lemma ControlKeepsInv(c: Config, s: State, step: ControlStep)
    requires Inv(c, s) && ControlEnabled(c, s, step)
    ensures Inv(c, ControlApply(c, s, step))
  {
    hide *;
    ControlKeepsNumbered(c, s, step);
    ControlKeepsOwned(c, s, step);
    ControlKeepsWorkersFit(c, s, step);
    ControlKeepsInStep(c, s, step);
    ControlKeepsStoppedInOrder(c, s, step);
    ControlKeepsCollected(c, s, step);
    ControlKeepsLiveMatches(c, s, step);
    AllTogether(c, ControlApply(c, s, step));
  }

  lemma WorkerKeepsInv(c: Config, s: State, w: nat, step: WorkerStep)
    requires Inv(c, s) && WorkerEnabled(c, s, w, step)
    ensures Inv(c, WorkerApply(c, s, w, step))
  {
    hide *;
    WorkerKeepsNumbered(c, s, w, step);
    WorkerKeepsOwned(c, s, w, step);
    WorkerKeepsWorkersFit(c, s, w, step);
    WorkerKeepsInStep(c, s, w, step);
    WorkerKeepsStoppedInOrder(c, s, w, step);
    WorkerKeepsCollected(c, s, w, step);
    WorkerKeepsLiveMatches(c, s, w, step);
    AllTogether(c, WorkerApply(c, s, w, step));
  }

  lemma MainKeepsInv(c: Config, s: State, step: MainStep)
    requires Inv(c, s) && MainEnabled(s, step)
    ensures Inv(c, MainApply(s, step))
  {
    hide *;
    MainKeepsNumbered(c, s, step);
    MainKeepsOwned(c, s, step);
    MainKeepsWorkersFit(c, s, step);
    MainKeepsInStep(c, s, step);
    MainKeepsStoppedInOrder(c, s, step);
    MainKeepsCollected(c, s, step);
    MainKeepsLiveMatches(c, s, step);
    AllTogether(c, MainApply(s, step));
  }

  lemma RequestKeepsInv(c: Config, s: State)
    requires Inv(c, s) && Enabled(c, s, RequestStop)
    ensures Inv(c, Apply(c, s, RequestStop))
  {
    var t := Apply(c, s, RequestStop);
    OwnedIsFramed(s, t);
    OrderIsFramed(s, t);
    assert Numbered(c, t) && WorkersFit(c, t) && InStep(t) && Collected(t) && LiveMatches(t);
    hide *;
    AllTogether(c, t);
  }

  lemma {:induction false} ExecKeepsInv(c: Config, s: State, steps: seq<Step>)
    requires Inv(c, s) && Exec(c, s, steps).Reached?
    ensures Inv(c, Exec(c, s, steps).state)
  {
    hide Inv, Enabled, Apply;
    if steps == [] {
    } else {
      var n := |steps| - 1;
      ExecKeepsInv(c, s, steps[..n]);
      StepKeepsInv(c, Exec(c, s, steps[..n]).state, steps[n]);
    }
  }

  lemma InitIsGood(c: Config)
    ensures Inv(c, Init())
  {
  }

  /** The invariant holds after every run. */
  lemma RunKeepsInv(c: Config, steps: seq<Step>)
    requires Run(c, steps).Reached?
    ensures Inv(c, Run(c, steps).state)
  {
    InitIsGood(c);
    hide Inv, Exec;
    ExecKeepsInv(c, Init(), steps);
  }

  /** A run goes on with any step that is possible. */
  lemma Then(c: Config, steps: seq<Step>, s: State, step: Step) returns (steps': seq<Step>, s': State)
    requires Run(c, steps) == Reached(s) && Enabled(c, s, step)
    ensures s' == Apply(c, s, step) && Run(c, steps') == Reached(s') && steps' == steps + [step]
  {
    assert (steps + [step])[..|steps|] == steps;
    steps', s' := steps + [step], Apply(c, s, step);
  }

  lemma EmptyRun(c: Config)
    ensures Run(c, []) == Reached(Init())
  {
  }

  lemma LastStep(c: Config, steps: seq<Step>)
    requires steps != [] && Run(c, steps).Reached?
    ensures var n := |steps| - 1;
            && Run(c, steps[..n]).Reached?
            && Enabled(c, Run(c, steps[..n]).state, steps[n])
            && Run(c, steps).state == Apply(c, Run(c, steps[..n]).state, steps[n])
  {
    hide Enabled, Apply;
  }

  // ---------- numbering ----------

  /** In every interleaving the delivered requests are numbered 0, 1, 2, ..., each number goes to
      exactly one worker, and it is at every moment either pending there or finished. */
  lemma EachNumberOnce(c: Config, steps: seq<Step>)
    requires Run(c, steps).Reached?
    ensures var s := Run(c, steps).state;
            && (forall k :: 0 <= k < |s.delivered| ==> s.delivered[k].number == k)
            && (forall k, w :: 0 <= k < |s.delivered| && 0 <= w < |s.workers| ==>
                  (k in s.workers[w].pending <==> w == s.delivered[k].worker && k !in s.finished))
            && (forall k, w :: 0 <= w < |s.workers| && k in s.workers[w].pending + s.finished ==> k < |s.delivered|)
  {
    RunKeepsInv(c, steps);
    var s := Run(c, steps).state;
    hide Run, Owned, WorkersFit, StoppedInOrder, Collected, LiveMatches, InStep;
    forall k, w | 0 <= k < |s.delivered| && 0 <= w < |s.workers|
      ensures k in s.workers[w].pending <==> w == s.delivered[k].worker && k !in s.finished
    {
      OwnedByOne(s, k, w);
    }
    forall k, w | 0 <= w < |s.workers| && k in s.workers[w].pending + s.finished
      ensures k < |s.delivered|
    {
      OnlyDelivered(s, k, w);
    }
  }

  lemma OwnedByOne(s: State, k: nat, w: nat)
    requires Owned(s) && k < |s.delivered| && w < |s.workers|
    ensures k in s.workers[w].pending <==> w == s.delivered[k].worker && k !in s.finished
  {
    assert PendingIsOwn(s, w);
  }

  lemma OnlyDelivered(s: State, k: nat, w: nat)
    requires Owned(s) && w < |s.workers| && k in s.workers[w].pending + s.finished
    ensures k < |s.delivered|
  {
    assert PendingIsOwn(s, w);
  }

  /** No run delivers more than a positive `Max`, and a run ended by `Max` has delivered exactly
      that many. */
  lemma MaxIsExact(c: Config, steps: seq<Step>)
    requires Run(c, steps).Reached? && c.max > 0
    ensures var s := Run(c, steps).state;
            |s.delivered| <= c.max && (s.byMax ==> |s.delivered| == c.max)
  {
    RunKeepsInv(c, steps);
  }

  // ---------- stopping ----------

  /** When `ticks` is closed every worker has had exactly one stop signal and left its loop, so
      none of them ever reads the zero tick of a closed channel. */
  lemma ClosedAfterAllStopped(c: Config, steps: seq<Step>, w: nat)
    requires Run(c, steps).Reached?
    ensures var s := Run(c, steps).state;
            && !WorkerEnabled(c, s, w, ReadZeroTick)
            && (w < |s.workers| ==> s.workers[w].stops <= 1)
            && (w < |s.workers| && s.ticksClosed ==> s.workers[w].stops == 1 && !s.workers[w].phase.Selecting?)
  {
    RunKeepsInv(c, steps);
    var s := Run(c, steps).state;
    NoZeroTick(c, s, w);
    hide Run, Numbered, Owned, Collected, LiveMatches;
    if w < |s.workers| {
      assert WorkerFits(c, s.workers[w]);
    }
  }

  // ---------- draining ----------

  lemma {:induction false} GoneBeyond(workers: seq<Worker>, want: nat) returns (w: nat)
    requires 0 < want <= GoneCount(workers)
    ensures want - 1 <= w < |workers| && workers[w].phase.Gone?
  {
    var n := |workers| - 1;
    if workers[n].phase.Gone? {
      GoneAtMost(workers);
      w := n;
    } else {
      w := GoneBeyond(workers[..n], want);
    }
  }

  lemma {:induction false} GoneAtMost(workers: seq<Worker>)
    ensures GoneCount(workers) <= |workers|
    ensures GoneCount(workers) == |workers| ==> forall w :: 0 <= w < |workers| ==> workers[w].phase.Gone?
  {
    if workers == [] {
    } else {
      GoneAtMost(workers[..|workers| - 1]);
    }
  }

  /** All workers counted when the function began to collect have received their stop. */
  lemma CountedAreStopped(c: Config, s: State, w: nat)
    requires Inv(c, s) && s.main.Returned? && w < s.main.want
    ensures w < |s.workers| && s.workers[w].stops == 1
  {
    hide Numbered, Owned, LiveMatches, InStep;
    var last := GoneBeyond(s.workers, s.main.want);
    assert WorkerFits(c, s.workers[last]) && WorkerFits(c, s.workers[w]);
    assert !s.workers[last].active;
    assert !BeingStopped(s, w) || w == last;
  }

  /** With synchronous workers, when `runWorkers` returns every delivered request has ended, even
      if workers were still being created when they were counted: stops are handed out in order. */
  lemma SyncDrains(c: Config, steps: seq<Step>)
    requires Run(c, steps).Reached? && !c.async && Run(c, steps).state.main.Returned?
    ensures var s := Run(c, steps).state;
            forall k :: 0 <= k < |s.delivered| ==> k in s.finished
  {
    RunKeepsInv(c, steps);
    var s := Run(c, steps).state;
    hide Run, Numbered, LiveMatches, InStep, StoppedInOrder;
    forall k | 0 <= k < |s.delivered|
      ensures k in s.finished
    {
      var w := s.delivered[k].worker;
      CountedAreStopped(c, s, w);
      assert WorkerFits(c, s.workers[w]);
    }
  }

  /** If worker creation was complete when the workers were counted, every worker is gone and
      every delivered request has ended when `runWorkers` returns, in both modes. */
  lemma CompleteDrains(c: Config, steps: seq<Step>)
    requires Run(c, steps).Reached? && Run(c, steps).state.main.Returned? && Run(c, steps).state.complete
    ensures var s := Run(c, steps).state;
            && (forall k :: 0 <= k < |s.delivered| ==> k in s.finished)
            && (forall w :: 0 <= w < |s.workers| ==> s.workers[w].phase.Gone? && s.workers[w].pending == {})
  {
    RunKeepsInv(c, steps);
    var s := Run(c, steps).state;
    hide Run, Numbered, LiveMatches, InStep, StoppedInOrder;
    GoneAtMost(s.workers);
    assert forall w :: 0 <= w < |s.workers| ==> WorkerFits(c, s.workers[w]);
  }

  /** After the return no tick can be delivered any more: together with a drained state this is
      why `results` can be closed. */
  lemma NothingAfterReturn(c: Config, steps: seq<Step>, w: nat)
    requires Run(c, steps).Reached? && !Run(c, steps).state.main.AwaitingDone?
    ensures !PacerEnabled(c, Run(c, steps).state, Deliver(w)) && !PacerEnabled(c, Run(c, steps).state, Pace)
  {
    RunKeepsInv(c, steps);
  }

  // ---------- the number of workers ----------

  /** Between two ticks, and until the final stop, the active workers are the live count of the
      ticks received; while no sum of deltas is negative, that is their sum. */
  lemma LiveWorkers(c: Config, steps: seq<Step>)
    requires Run(c, steps).Reached?
    requires Run(c, steps).state.control.Receiving? || Run(c, steps).state.control.Exited?
    requires !InStopLoop(Run(c, steps).state.pacer)
    ensures var s := Run(c, steps).state;
            && ActiveCount(s.workers) == Live(s.received)
            && ((forall j :: 0 <= j <= |s.received| ==> Sum(s.received[..j]) >= 0) ==>
                  ActiveCount(s.workers) == Sum(s.received))
  {
    RunKeepsInv(c, steps);
    var s := Run(c, steps).state;
    hide Run, Numbered, Owned, WorkersFit, InStep, StoppedInOrder, Collected;
    if forall j :: 0 <= j <= |s.received| ==> Sum(s.received[..j]) >= 0 {
      LiveIsSum(s.received);
    }
  }

  /** Worker k uses connection k modulo the number of connections. */
  lemma ConnectionsInTurn(c: Config, steps: seq<Step>, k: nat)
    requires Run(c, steps).Reached? && k < |Run(c, steps).state.workers| && c.conns > 0
    ensures Run(c, steps).state.workers[k].conn == k % c.conns
  {
    RunKeepsInv(c, steps);
  }
}
