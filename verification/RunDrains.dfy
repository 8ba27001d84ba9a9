/** Exactly when `runWorkers` drains: with asynchronous workers, two of them and a connection there is a run
    that returns with a request still in flight; in every other case there is none. */
module RunDrains {
  import opened WorkerTickers
  import opened RunProtocol
  import opened RunInvariants
  import opened RunResults

  /** If the run has returned and created no more than n workers, every delivered request has ended. */
  predicate Drains(c: Config, n: nat, steps: seq<Step>) {
    Run(c, steps).Reached? && Run(c, steps).state.main.Returned? && |Run(c, steps).state.workers| <= n ==>
      forall k :: 0 <= k < |Run(c, steps).state.delivered| ==> k in Run(c, steps).state.finished
  }

  /** All runs with at most n workers drain if and only if the workers are synchronous, or there is no
      connection, or there is at most one worker: what a caller can check before the call. */
  lemma DrainsIff(c: Config, n: nat)
    ensures (forall steps :: Drains(c, n, steps)) <==> !c.async || c.conns == 0 || n <= 1
  {
    hide Drains;
    if c.async && c.conns > 0 && n > 1 {
      var steps := LateWorkerBreaksDrain(c);
      NotDrained(c, n, steps);
    } else {
      forall steps
        ensures Drains(c, n, steps)
      {
        DrainsOtherwise(c, n, steps);
      }
    }
  }

  lemma NotDrained(c: Config, n: nat, steps: seq<Step>)
    requires n >= 2 && Run(c, steps).Reached? && Run(c, steps).state.main.Returned?
    requires |Run(c, steps).state.workers| == 2 && |Run(c, steps).state.delivered| == 1 && 0 !in Run(c, steps).state.finished
    ensures !Drains(c, n, steps)
  {
    hide Run;
  }

  lemma DrainsOtherwise(c: Config, n: nat, steps: seq<Step>)
    requires !c.async || c.conns == 0 || n <= 1
    ensures Drains(c, n, steps)
  {
    hide Run;
    if Run(c, steps).Reached? && Run(c, steps).state.main.Returned? {
      if !c.async {
        SyncDrains(c, steps);
      } else if c.conns == 0 {
        NoConnectionNoWorkers(c, steps);
        NoWorkersNoDeliveries(c, steps);
      } else if |Run(c, steps).state.workers| <= 1 {
        OneWorkerDrains(c, steps);
      }
    }
  }

  lemma {:induction false} NoConnectionNoWorkers(c: Config, steps: seq<Step>)
    requires c.conns == 0 && Run(c, steps).Reached?
    ensures Run(c, steps).state.workers == []
  {
    hide Run, Apply, Enabled;
    if steps == [] {
      EmptyRun(c);
    } else {
      var n := |steps| - 1;
      LastStep(c, steps);
      NoConnectionNoWorkers(c, steps[..n]);
      StaysEmpty(c, Run(c, steps[..n]).state, steps[n]);
    }
  }

  lemma StaysEmpty(c: Config, s: State, step: Step)
    requires c.conns == 0 && s.workers == [] && Enabled(c, s, step)
    ensures Apply(c, s, step).workers == []
  {
    hide WorkerAfter, Take, GiveStop, Deactivate;
    match step
    case P(p) => PacerCreatesNone(c, s, p);
    case C(k) => ControlCreatesNone(c, s, k);
    case W(w, k) =>
    case M(m) => assert MainApply(s, m).workers == [];
    case RequestStop =>
  }

  lemma PacerCreatesNone(c: Config, s: State, step: PacerStep)
    requires s.workers == [] && PacerEnabled(c, s, step)
    ensures PacerApply(c, s, step).workers == []
  {
  }

  lemma ControlCreatesNone(c: Config, s: State, step: ControlStep)
    requires c.conns == 0 && s.workers == [] && ControlEnabled(c, s, step)
    ensures ControlApply(c, s, step).workers == []
  {
  }

  lemma NoWorkersNoDeliveries(c: Config, steps: seq<Step>)
    requires Run(c, steps).Reached? && Run(c, steps).state.workers == []
    ensures Run(c, steps).state.delivered == []
  {
    RunKeepsInv(c, steps);
    var s := Run(c, steps).state;
    hide Run, Numbered, WorkersFit, InStep, StoppedInOrder, Collected, LiveMatches;
    assert s.delivered != [] ==> s.delivered[0].worker < |s.workers|;
  }

  /** A single worker is either counted, and then collected, or never got a request. */
  lemma OneWorkerDrains(c: Config, steps: seq<Step>)
    requires Run(c, steps).Reached? && Run(c, steps).state.main.Returned? && |Run(c, steps).state.workers| <= 1
    ensures var s := Run(c, steps).state;
            forall k :: 0 <= k < |s.delivered| ==> k in s.finished
  {
    RunKeepsInv(c, steps);
    var s := Run(c, steps).state;
    hide Run, Numbered, LiveMatches, InStep, StoppedInOrder;
    GoneAtMost(s.workers);
    assert forall w :: 0 <= w < |s.workers| ==> WorkerFits(c, s.workers[w]);
  }

  // ---------- the run that does not drain ----------

  /** What the default ticker sends for two workers. */
  const TWO := TickValue(2, true)

  /** One worker has taken request 0 while the second is still to be created. */
  function Taken(c: Config): State {
    State(Pacing, Creating(1, true), AwaitingDone, Free, [Worker(0, true, Selecting, {0}, 0)],
          if c.conns == 1 then 0 else 1, 1, false, false, false, 0, [Delivery(0, 0)], {}, [TWO], false, false)
  }

  /** The pacer has stopped, one worker was counted, and only then was the second one created. */
  function Counted(c: Config): State {
    var second := if c.conns == 1 then 0 else 1;
    State(Finishing, Exited, Collecting(1, 0), Free,
          [Worker(0, true, Selecting, {0}, 0), Worker(second, true, Selecting, {}, 0)],
          if second + 1 == c.conns then 0 else second + 1, 1, false, false, false, 0, [Delivery(0, 0)], {}, [TWO],
          c.max == 1, false)
  }

  /** Both workers have been stopped; the first waits for its request. */
  function Stopped(c: Config): State {
    Counted(c).(pacer := Stopping(2), lock := HeldByPacer, tickerClosed := true,
                workers := [Worker(0, false, Waiting, {0}, 1), Worker(Counted(c).workers[1].conn, false, Waiting, {}, 1)])
  }

  lemma TakeOne(c: Config) returns (steps: seq<Step>)
    requires c.async && c.conns > 0
    ensures Run(c, steps) == Reached(Taken(c))
  {
    hide Run;
    EmptyRun(c);
    steps := [];
    var s := Init();
    steps, s := Then(c, steps, s, C(Receive(TWO)));
    steps, s := Then(c, steps, s, C(Append));
    steps, s := Then(c, steps, s, W(0, Begin));
    steps, s := Then(c, steps, s, P(Pace));
    steps, s := Then(c, steps, s, P(Deliver(0)));
    assert s.workers[0].pending == {0};
    assert s.workers == Taken(c).workers && s.delivered == Taken(c).delivered && s.received == Taken(c).received;
  }

  lemma CountLate(c: Config) returns (steps: seq<Step>)
    requires c.async && c.conns > 0
    ensures Run(c, steps) == Reached(Counted(c))
  {
    hide Run;
    steps := TakeOne(c);
    var s := Taken(c);
    steps, s := Then(c, steps, s, P(PacerStops));
    steps, s := Then(c, steps, s, P(Announce));
    steps, s := Then(c, steps, s, M(Count));
    steps, s := Then(c, steps, s, C(Append));
    steps, s := Then(c, steps, s, C(Appended));
    steps, s := Then(c, steps, s, C(NextTick));
    steps, s := Then(c, steps, s, W(1, Begin));
    assert s.workers == Counted(c).workers;
  }

  lemma StopBoth(c: Config) returns (steps: seq<Step>)
    requires c.async && c.conns > 0
    ensures Run(c, steps) == Reached(Stopped(c))
  {
    hide Run;
    steps := CountLate(c);
    var s := Counted(c);
    steps, s := Then(c, steps, s, P(Finish));
    steps, s := Then(c, steps, s, P(ControlSeenGone));
    steps, s := Then(c, steps, s, P(LockToStop));
    steps, s := Then(c, steps, s, P(SetStop));
    steps, s := Then(c, steps, s, P(HandStop));
    steps, s := Then(c, steps, s, P(SetStop));
    steps, s := Then(c, steps, s, P(HandStop));
    assert s.workers == Stopped(c).workers;
  }

  /** With two asynchronous workers, the result of the second, created after the count, is collected in
      place of the first one's: the function returns while request 0 is still pending. */
  lemma LateWorkerBreaksDrain(c: Config) returns (steps: seq<Step>)
    requires c.async && c.conns > 0
    ensures Run(c, steps).Reached?
    ensures var s := Run(c, steps).state;
            && s.main.Returned? && !s.complete && s.received == [TWO]
            && s.delivered == [Delivery(0, 0)] && |s.workers| == 2
            && 0 in s.workers[0].pending && 0 !in s.finished
  {
    hide Run;
    steps := StopBoth(c);
    var s := Stopped(c);
    steps, s := Then(c, steps, s, W(1, GroupDone));
    steps, s := Then(c, steps, s, W(1, ReportDirectly));
    steps, s := Then(c, steps, s, M(Return));
  }
}
