/** Runs without requests that handle any values of the worker ticker, and hang for good when those values end
    the ticker and leave no worker running. */
module RunIdles {
  import opened WorkerTickers
  import opened RunProtocol
  import opened RunInvariants
  import opened RunResults
  import opened RunTermination
  import opened RunHangs

  /** Nothing has been sent and nobody wants to stop; running workers wait for requests. */
  predicate Idle(s: State) {
    && s.pacer.Pacing? && s.main.AwaitingDone? && s.counter == 0 && s.delivered == []
    && !s.stopRequested && !s.tickerClosed
    && forall w :: 0 <= w < |s.workers| && s.workers[w].active ==> s.workers[w].phase.Selecting?
  }

  /** A step that keeps everything idle. */
  lemma IdleThen(c: Config, steps: seq<Step>, s: State, step: Step) returns (steps': seq<Step>, s': State)
    requires Run(c, steps) == Reached(s) && Enabled(c, s, step) && Idle(Apply(c, s, step))
    ensures s' == Apply(c, s, step) && Run(c, steps') == Reached(s') && Idle(s')
  {
    hide Run, Enabled, Apply, Idle;
    steps', s' := Then(c, steps, s, step);
  }

  lemma CreateOne(c: Config, steps: seq<Step>, s: State) returns (steps': seq<Step>, s': State)
    requires Run(c, steps) == Reached(s) && Idle(s) && s.lock.Free? && c.conns > 0
    requires s.control.Creating? && s.control.left > 0
    ensures Run(c, steps') == Reached(s') && Idle(s') && s'.lock.Free? && s'.received == s.received
    ensures s'.control == Creating(s.control.left - 1, s.control.done)
  {
    RunKeepsInv(c, steps);
    hide Numbered, Owned, InStep, StoppedInOrder, Collected, LiveMatches;
    NextConnectionExists(c, |s.workers|);
    hide Run, ConnectionOf;
    var n := |s.workers|;
    steps', s' := Then(c, steps, s, C(Append));
    assert forall w :: 0 <= w < n ==> s'.workers[w] == s.workers[w];
    steps', s' := IdleThen(c, steps', s', W(n, Begin));
  }

  lemma CreateAll(c: Config, steps: seq<Step>, s: State) returns (steps': seq<Step>, s': State)
    requires Run(c, steps) == Reached(s) && Idle(s) && s.lock.Free? && c.conns > 0 && s.control.Creating?
    ensures Run(c, steps') == Reached(s') && Idle(s') && s'.lock.Free? && s'.received == s.received
    ensures s'.control == TickHandled(s.control.done)
  {
    hide Run, Idle;
    steps', s' := steps, s;
    while s'.control.left > 0
      invariant Run(c, steps') == Reached(s') && Idle(s') && s'.lock.Free? && s'.received == s.received
      invariant s'.control.Creating? && s'.control.done == s.control.done
      decreases s'.control.left
    {
      steps', s' := CreateOne(c, steps', s');
    }
    ControlStaysIdle(c, s', Appended);
    steps', s' := IdleThen(c, steps', s', C(Appended));
  }

  /** Steps of the control goroutine that touch no worker. */
  lemma ControlStaysIdle(c: Config, s: State, step: ControlStep)
    requires Idle(s) && ControlEnabled(c, s, step) && !step.Append? && !step.SetRemove? && !step.HandRemove?
    ensures Idle(ControlApply(c, s, step)) && ControlApply(c, s, step).workers == s.workers
  {
  }

  lemma RemoveOne(c: Config, steps: seq<Step>, s: State) returns (steps': seq<Step>, s': State)
    requires Run(c, steps) == Reached(s) && Idle(s) && InRemoval(s)
    ensures Run(c, steps') == Reached(s') && Idle(s') && s'.received == s.received && |s'.workers| == |s.workers|
    ensures s'.lock == s.lock && s'.control.Removing? && s'.control.i == s.control.i + 1
    ensures s'.control.want == s.control.want && s'.control.done == s.control.done
  {
    hide Run;
    if s.workers[s.control.i].active {
      steps', s' := IdleThen(c, steps, s, C(SetRemove));
      steps', s' := IdleThen(c, steps', s', C(HandRemove));
    } else {
      steps', s' := IdleThen(c, steps, s, C(SkipRemove));
    }
  }

  lemma RemoveAll(c: Config, steps: seq<Step>, s: State) returns (steps': seq<Step>, s': State)
    requires Run(c, steps) == Reached(s) && Idle(s) && s.lock.Free? && s.control.Locking?
    ensures Run(c, steps') == Reached(s') && Idle(s') && s'.lock.Free? && s'.received == s.received
    ensures s'.control == TickHandled(s.control.done)
  {
    hide Run, Idle;
    ControlStaysIdle(c, s, LockToRemove);
    steps', s' := IdleThen(c, steps, s, C(LockToRemove));
    while InRemoval(s')
      invariant Run(c, steps') == Reached(s') && Idle(s') && s'.received == s.received
      invariant s'.control.Removing? && s'.control.done == s.control.done
      decreases |s'.workers| - s'.control.i
    {
      steps', s' := RemoveOne(c, steps', s');
    }
    ControlStaysIdle(c, s', UnlockRemove);
    steps', s' := IdleThen(c, steps', s', C(UnlockRemove));
  }

  /** Any value of the ticker can be handled while everything is idle. */
  lemma HandleValue(c: Config, steps: seq<Step>, s: State, tick: TickValue) returns (steps': seq<Step>, s': State)
    requires Run(c, steps) == Reached(s) && Idle(s) && s.lock.Free? && s.control.Receiving? && c.conns > 0
    ensures Run(c, steps') == Reached(s') && Idle(s') && s'.lock.Free?
    ensures s'.received == s.received + [tick] && s'.control == if tick.done then Exited else Receiving
  {
    hide Run, Idle;
    IdleIsOpen(s);
    ControlStaysIdle(c, s, Receive(tick));
    steps', s' := IdleThen(c, steps, s, C(Receive(tick)));
    if tick.delta > 0 {
      steps', s' := CreateAll(c, steps', s');
    } else if tick.delta < 0 {
      steps', s' := RemoveAll(c, steps', s');
    }
    ControlStaysIdle(c, s', NextTick);
    steps', s' := IdleThen(c, steps', s', C(NextTick));
  }

  lemma IdleIsOpen(s: State)
    requires Idle(s)
    ensures !s.tickerClosed
  {
  }

  /** The values of a ticker that has ended: the last one is `Done`, and none before it. */
  predicate EndsTicker(values: seq<TickValue>) {
    && values != [] && values[|values| - 1].done
    && forall k :: 0 <= k < |values| - 1 ==> !values[k].done
  }

  predicate NoneDone(values: seq<TickValue>) {
    forall k :: 0 <= k < |values| ==> !values[k].done
  }

  lemma FrontIsOpen(values: seq<TickValue>)
    requires values != [] && (NoneDone(values) || EndsTicker(values))
    ensures var n := |values| - 1;
            && NoneDone(values[..n]) && !EndsTicker(values[..n])
            && values == values[..n] + [values[n]] && (EndsTicker(values) <==> values[n].done)
  {
    assert values[..|values| - 1] != [] ==> values[..|values| - 1][|values| - 2] == values[|values| - 2];
  }

  lemma {:induction false} HandleAll(c: Config, values: seq<TickValue>) returns (steps: seq<Step>, s: State)
    requires (NoneDone(values) || EndsTicker(values)) && c.conns > 0
    ensures Run(c, steps) == Reached(s) && Idle(s) && s.lock.Free? && s.received == values
    ensures s.control == if EndsTicker(values) then Exited else Receiving
  {
    if values == [] {
      EmptyRun(c);
      steps, s := [], Init();
    } else {
      var n := |values| - 1;
      FrontIsOpen(values);
      hide EndsTicker, NoneDone, Run, Idle;
      steps, s := HandleAll(c, values[..n]);
      steps, s := HandleValue(c, steps, s, values[n]);
    }
  }

  // ---------- parking the stopped workers ----------

  /** All workers are stopped and the first n of them have nothing left to do. */
  predicate ParkedUpTo(c: Config, s: State, n: nat) {
    && n <= |s.workers|
    && (forall w :: 0 <= w < |s.workers| ==> !s.workers[w].active)
    && forall w :: 0 <= w < n ==> Parked(c, s, s.workers[w])
  }

  /** A stopped worker of an idle run is on its way out. */
  lemma StoppedIsLeaving(c: Config, s: State, w: nat)
    requires Inv(c, s) && Idle(s) && w < |s.workers| && !s.workers[w].active
    requires s.control.Receiving? || s.control.Exited?
    ensures s.workers[w].phase.Waiting? || s.workers[w].phase.Reporting? || s.workers[w].phase.Gone?
    ensures s.workers[w].pending == {}
  {
    hide Numbered, InStep, Collected, LiveMatches;
    assert WorkerFits(c, s.workers[w]) && PendingIsOwn(s, w) && !BeingStopped(s, w);
  }

  lemma ParkOne(c: Config, steps: seq<Step>, s: State, n: nat) returns (steps': seq<Step>, s': State)
    requires Run(c, steps) == Reached(s) && Idle(s) && ParkedUpTo(c, s, n) && n < |s.workers|
    requires s.control.Receiving? || s.control.Exited?
    ensures Run(c, steps') == Reached(s') && Idle(s') && ParkedUpTo(c, s', n + 1)
    ensures s'.control == s.control && s'.received == s.received && |s'.workers| == |s.workers|
  {
    hide Run, Inv;
    RunKeepsInv(c, steps);
    StoppedIsLeaving(c, s, n);
    steps', s' := steps, s;
    if s'.workers[n].phase.Waiting? {
      steps', s' := IdleThen(c, steps', s', W(n, GroupDone));
    }
    if s'.workers[n].phase.Reporting? && s'.errs < c.errCap {
      steps', s' := IdleThen(c, steps', s', W(n, Report));
    }
  }

  lemma ParkAll(c: Config, steps: seq<Step>, s: State) returns (steps': seq<Step>, s': State)
    requires Run(c, steps) == Reached(s) && Idle(s) && ParkedUpTo(c, s, 0)
    requires s.control.Receiving? || s.control.Exited?
    ensures Run(c, steps') == Reached(s') && Idle(s') && ParkedUpTo(c, s', |s'.workers|)
    ensures s'.control == s.control && s'.received == s.received
  {
    hide Run, Idle, ParkedUpTo;
    steps', s' := steps, s;
    var n := 0;
    while n < |s'.workers|
      invariant Run(c, steps') == Reached(s') && Idle(s') && ParkedUpTo(c, s', n) && n <= |s'.workers| == |s.workers|
      invariant s'.control == s.control && s'.received == s.received
    {
      steps', s' := ParkOne(c, steps', s', n);
      n := n + 1;
    }
  }

  lemma {:induction false} NoneCounted(workers: seq<Worker>)
    requires ActiveCount(workers) == 0
    ensures forall w :: 0 <= w < |workers| ==> !workers[w].active
  {
    if workers == [] {
    } else {
      NoneCounted(workers[..|workers| - 1]);
    }
  }

  /** Values that end the ticker and leave no worker running can be handled so that the run hangs: the
      request on offer has nobody to go to. */
  lemma EmptiedRunHangs(c: Config, values: seq<TickValue>) returns (steps: seq<Step>)
    requires EndsTicker(values) && c.conns > 0 && Live(values) == 0
    ensures HangsOn(c, values, steps)
  {
    hide Run, Inv, Idle, EndsTicker, Live;
    var s;
    steps, s := HandleAll(c, values);
    RunKeepsInv(c, steps);
    AllStopped(c, s);
    steps, s := ParkAll(c, steps, s);
    OffersInVain(c, s);
    steps, s := Then(c, steps, s, P(Pace));
  }

  lemma AllStopped(c: Config, s: State)
    requires Inv(c, s) && Idle(s) && Live(s.received) == 0 && (s.control.Receiving? || s.control.Exited?)
    ensures ParkedUpTo(c, s, 0)
  {
    hide Numbered, Owned, WorkersFit, InStep, StoppedInOrder, Collected, ActiveCount, Live;
    NoneCounted(s.workers);
  }

  lemma OffersInVain(c: Config, s: State)
    requires Idle(s) && ParkedUpTo(c, s, |s.workers|) && (s.control.Receiving? || s.control.Exited?)
    ensures Enabled(c, s, P(Pace)) && Hung(c, Apply(c, s, P(Pace)))
    ensures Apply(c, s, P(Pace)).received == s.received && Apply(c, s, P(Pace)).control == s.control
  {
  }

  // ---------- how the control goroutine leaves ----------

  /** A value is `Done` exactly when the control goroutine is to leave after it; it leaves otherwise only when
      the ticker is finished. */
  predicate DoneMatches(s: State) {
    match s.control
    case Receiving => NoneDone(s.received)
    case Creating(_, done) => LastIs(s.received, done)
    case Locking(_, done) => LastIs(s.received, done)
    case Removing(_, _, _, done) => LastIs(s.received, done)
    case HandingRemove(_, _, _, done) => LastIs(s.received, done)
    case TickHandled(done) => LastIs(s.received, done)
    case Exited => s.tickerClosed || EndsTicker(s.received)
  }

  predicate LastIs(values: seq<TickValue>, done: bool) {
    values != [] && if done then EndsTicker(values) else NoneDone(values)
  }

  lemma ControlKeepsDone(c: Config, s: State, step: ControlStep)
    requires DoneMatches(s) && ControlEnabled(c, s, step)
    ensures DoneMatches(ControlApply(c, s, step))
  {
    hide Deactivate, GiveStop;
  }

  lemma StepKeepsDone(c: Config, s: State, step: Step)
    requires DoneMatches(s) && Enabled(c, s, step)
    ensures DoneMatches(Apply(c, s, step))
  {
    hide NoneDone, EndsTicker, WorkerAfter, WorkerEnabled, PacerEnabled, ControlEnabled, MainEnabled;
    hide Take, GiveStop, Deactivate, ControlApply;
    if step.C? {
      ControlKeepsDone(c, s, step.c);
    } else {
      OthersLeaveControl(c, s, step);
    }
  }

  lemma OthersLeaveControl(c: Config, s: State, step: Step)
    requires Enabled(c, s, step) && !step.C?
    ensures var t := Apply(c, s, step);
            t.control == s.control && t.received == s.received && (s.tickerClosed ==> t.tickerClosed)
  {
    hide WorkerEnabled, PacerEnabled, MainEnabled, PacerApply, WorkerApply;
    match step
    case P(p) => PacerLeavesControl(c, s, p);
    case W(w, k) => WorkerLeavesControl(c, s, w, k);
    case M(m) =>
    case RequestStop =>
  }

  lemma PacerLeavesControl(c: Config, s: State, step: PacerStep)
    requires PacerEnabled(c, s, step)
    ensures var t := PacerApply(c, s, step);
            t.control == s.control && t.received == s.received && (s.tickerClosed ==> t.tickerClosed)
  {
    hide Take, GiveStop, Deactivate, PacerEnabled;
  }

  lemma WorkerLeavesControl(c: Config, s: State, w: nat, step: WorkerStep)
    requires WorkerEnabled(c, s, w, step)
    ensures var t := WorkerApply(c, s, w, step);
            t.control == s.control && t.received == s.received && t.tickerClosed == s.tickerClosed
  {
    hide WorkerAfter;
  }

  lemma {:induction false} RunKeepsDone(c: Config, steps: seq<Step>)
    requires Run(c, steps).Reached?
    ensures DoneMatches(Run(c, steps).state)
  {
    hide Run, Enabled, Apply, DoneMatches;
    if steps == [] {
      StartMatches(c);
    } else {
      LastStep(c, steps);
      RunKeepsDone(c, steps[..|steps| - 1]);
      StepKeepsDone(c, Run(c, steps[..|steps| - 1]).state, steps[|steps| - 1]);
    }
  }

  lemma StartMatches(c: Config)
    ensures Run(c, []) == Reached(Init()) && DoneMatches(Init())
  {
    EmptyRun(c);
  }

  // ---------- when a run can hang for good ----------

  /** A run that has received exactly the values, hangs, and will receive no more. */
  predicate HangsOn(c: Config, values: seq<TickValue>, steps: seq<Step>) {
    && Run(c, steps).Reached? && Run(c, steps).state.received == values
    && Hung(c, Run(c, steps).state) && Run(c, steps).state.control.Exited?
  }

  /** Such a run can only be stopped: nothing but a stop request is possible. */
  lemma HangsForGood(c: Config, values: seq<TickValue>, steps: seq<Step>, step: Step)
    requires HangsOn(c, values, steps)
    ensures Enabled(c, Run(c, steps).state, step) <==> step == RequestStop
  {
    RunKeepsInv(c, steps);
    var s := Run(c, steps).state;
    hide Run, Inv;
    if Enabled(c, s, step) {
      HungIsStuck(c, s, step);
    }
    hide WorkerEnabled, PacerEnabled, MainEnabled;
  }

  /** Some run hangs for good on the values of the ticker if and only if they end the ticker and leave no
      worker running. */
  lemma HangsIff(c: Config, values: seq<TickValue>)
    requires c.conns > 0
    ensures (exists steps :: HangsOn(c, values, steps)) <==> EndsTicker(values) && Live(values) == 0
  {
    hide HangsOn, Live, EndsTicker;
    if EndsTicker(values) && Live(values) == 0 {
      var steps := EmptiedRunHangs(c, values);
    }
    forall steps | HangsOn(c, values, steps)
      ensures EndsTicker(values) && Live(values) == 0
    {
      HangsOnEnded(c, values, steps);
    }
  }

  lemma HangsOnEnded(c: Config, values: seq<TickValue>, steps: seq<Step>)
    requires HangsOn(c, values, steps)
    ensures EndsTicker(values) && Live(values) == 0
  {
    RunKeepsInv(c, steps);
    RunKeepsDone(c, steps);
    var s := Run(c, steps).state;
    hide Run, EndsTicker, Live;
    HungHasNoWorkers(c, s);
    HungIsOpen(c, s);
  }

  lemma HungIsOpen(c: Config, s: State)
    requires Inv(c, s) && Hung(c, s)
    ensures !s.tickerClosed
  {
    hide Numbered, Owned, WorkersFit, StoppedInOrder, Collected, LiveMatches;
  }

  /** Every ramp that falls to a final count of zero can leave `runWorkers` hanging for good. */
  lemma FallingRampHangs(c: Config, r: Ramp, ticks: seq<int>)
    requires Ordinary(r) && r.step < 0 && r.stop == 0 && r.maxDuration == 0 && |ticks| > StepsToStop(r)
    requires c.conns > 0
    ensures exists steps :: HangsOn(c, Emitted(r, ticks), steps)
  {
    hide HangsOn, Emitted, StepsToStop, Live, Emit;
    FallingToZeroLeavesNone(r, ticks);
    EndsWithoutDeadline(r, ticks);
    forall k | 0 <= k < |Emitted(r, ticks)| - 1
      ensures !Emitted(r, ticks)[k].done
    {
      SumIsWorkerCount(r, ticks, k);
    }
    EmittedEnds(r, ticks);
    HangsIff(c, Emitted(r, ticks));
  }

  lemma EmittedEnds(r: Ramp, ticks: seq<int>)
    requires Emitted(r, ticks)[|Emitted(r, ticks)| - 1].done
    requires forall k :: 0 <= k < |Emitted(r, ticks)| - 1 ==> !Emitted(r, ticks)[k].done
    ensures EndsTicker(Emitted(r, ticks))
  {
    hide Emit;
  }
}
