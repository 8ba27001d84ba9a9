/** Where `runWorkers` hangs: exactly in the states in which a request is on offer, no worker will take it and
    no stop has been requested. Such a state can be reached exactly with the values of the worker ticker
    that leave no worker running. */
module RunHangs {
  import opened WorkerTickers
  import opened RunProtocol
  import opened RunInvariants
  import opened RunResults
  import opened RunTermination

  // ---------- some goroutine can always move ----------

  /** A worker that is still in its loop can move by itself or is ready to take a stop. */
  lemma LoopMoves(c: Config, s: State, w: nat) returns (step: Step)
    requires WorkersFit(c, s) && w < |s.workers| && s.workers[w].stops == 0
    ensures step != RequestStop
    ensures s.workers[w].phase.Selecting? || Enabled(c, s, step)
  {
    var worker := s.workers[w];
    assert WorkerFits(c, worker);
    if worker.phase.Created? {
      step := W(w, Begin);
    } else if worker.phase.Calling? {
      var number :| number in worker.pending;
      step := W(w, End(number));
    } else {
      step := W(w, Begin);
    }
  }

  /** Whoever holds the lock, or the worker it waits for, can move. */
  lemma HolderMoves(c: Config, s: State) returns (step: Step)
    requires Inv(c, s) && !s.lock.Free?
    ensures Enabled(c, s, step) && step != RequestStop
  {
    hide Numbered, Owned, Collected, LiveMatches;
    if s.lock.HeldByPacer? {
      if s.pacer.HandingStop? {
        assert BeingStopped(s, s.pacer.i);
        step := LoopMoves(c, s, s.pacer.i);
        if s.workers[s.pacer.i].phase.Selecting? {
          step := P(HandStop);
        }
      } else {
        step := P(if s.pacer.i == |s.workers| then UnlockStop else if s.workers[s.pacer.i].active then SetStop else SkipStop);
      }
    } else {
      if s.control.HandingRemove? {
        assert BeingStopped(s, s.control.i);
        step := LoopMoves(c, s, s.control.i);
        if s.workers[s.control.i].phase.Selecting? {
          step := C(HandRemove);
        }
      } else {
        step := C(if !InRemoval(s) then UnlockRemove else if s.workers[s.control.i].active then SetRemove else SkipRemove);
      }
    }
  }

  /** With the lock free, the two goroutines move on until the last worker has been stopped. */
  lemma GoroutineMoves(c: Config, s: State) returns (step: Step)
    requires Inv(c, s) && s.tickerClosed && s.lock.Free? && c.conns > 0 && !s.pacer.Ended?
    ensures Enabled(c, s, step) && step != RequestStop
  {
    hide Numbered, Owned, Collected, LiveMatches, StoppedInOrder;
    NextConnectionExists(c, |s.workers|);
    hide ConnectionOf;
    match s.pacer
    case AwaitingLock => step := P(LockToStop);
    case Closing => step := P(CloseTicks);
    case _ =>
      match s.control {
        case Receiving => step := C(SeeClosed);
        case Creating(left, done) => step := C(if left > 0 then Append else Appended);
        case Locking(want, done) => step := C(LockToRemove);
        case TickHandled(done) => step := C(NextTick);
        case _ => step := P(ControlSeenGone);
      }
  }

  lemma NextConnectionExists(c: Config, k: nat)
    requires c.conns > 0
    ensures ConnectionOf(c, k) < c.conns
  {
  }

  /** A result is missing while some worker has not gone. */
  lemma {:induction false} NotGone(workers: seq<Worker>) returns (w: nat)
    requires GoneCount(workers) < |workers|
    ensures w < |workers| && !workers[w].phase.Gone?
  {
    var n := |workers| - 1;
    if workers[n].phase.Gone? {
      w := NotGone(workers[..n]);
    } else {
      w := n;
    }
  }

  /** While results are missing from an empty channel, a worker or one of the goroutines that
      still have to stop it can move. */
  lemma CollectorIsFed(c: Config, s: State) returns (step: Step)
    requires Inv(c, s) && s.tickerClosed && s.lock.Free? && c.conns > 0
    requires s.main.Collecting? && s.main.got < s.main.want && s.errs == 0
    ensures Enabled(c, s, step) && step != RequestStop
  {
    hide Numbered, Owned, LiveMatches;
    var w := NotGone(s.workers);
    var worker := s.workers[w];
    assert WorkerFits(c, worker);
    if worker.phase.Reporting? {
      step := W(w, ReportDirectly);
    } else if worker.phase.Waiting? {
      if worker.pending == {} {
        step := W(w, GroupDone);
      } else {
        var number :| number in worker.pending;
        step := W(w, End(number));
      }
    } else {
      assert s.pacer.Ended? ==> !worker.active && !BeingStopped(s, w);
      step := GoroutineMoves(c, s);
    }
  }

  // ---------- the states that hang ----------

  /** The worker is gone, or stuck before an error channel that nobody reads yet. */
  predicate Parked(c: Config, s: State, w: Worker) {
    w.phase.Gone? || (w.phase.Reporting? && s.errs >= c.errCap)
  }

  /** The pacer offers a request, no stop is requested, the control goroutine waits for the ticker or has
      left, and no worker will ever take the request. */
  predicate Hung(c: Config, s: State) {
    && s.pacer.Offering? && !s.stopRequested && (s.control.Receiving? || s.control.Exited?)
    && forall w :: 0 <= w < |s.workers| ==> Parked(c, s, s.workers[w])
  }

  /** A step of the goroutines themselves: neither a stop request nor a further value of the ticker. */
  predicate IsMove(step: Step) {
    step != RequestStop && !(step.C? && step.c.Receive?)
  }

  /** Whoever holds the lock is neither waiting for the ticker nor offering a request. */
  lemma HolderStepIsMove(c: Config, s: State, step: Step)
    requires Inv(c, s) && !s.lock.Free? && !s.tickerClosed && Enabled(c, s, step) && step != RequestStop
    ensures IsMove(step)
  {
    hide Numbered, Owned, WorkersFit, StoppedInOrder, Collected, LiveMatches;
    hide WorkerEnabled, PacerEnabled, MainEnabled;
  }

  /** Before the ticker is finished, with the lock free: the control goroutine moves unless it waits for
      the ticker or has left. */
  lemma ControlMoves(c: Config, s: State) returns (step: Step)
    requires Inv(c, s) && s.lock.Free? && c.conns > 0 && !s.control.Receiving? && !s.control.Exited?
    ensures Enabled(c, s, step) && IsMove(step)
  {
    hide Numbered, Owned, StoppedInOrder, Collected, LiveMatches;
    NextConnectionExists(c, |s.workers|);
    hide ConnectionOf;
    match s.control
    case Creating(left, done) => step := C(if left > 0 then Append else Appended);
    case Locking(want, done) => step := C(LockToRemove);
    case _ => step := C(NextTick);
  }

  /** A worker that is not parked moves, or takes the request on offer. */
  lemma WorkerMoves(c: Config, s: State, w: nat) returns (step: Step)
    requires Inv(c, s) && s.pacer.Offering? && w < |s.workers| && !Parked(c, s, s.workers[w])
    ensures Enabled(c, s, step) && IsMove(step)
  {
    hide Numbered, Owned, InStep, StoppedInOrder, Collected, LiveMatches;
    var worker := s.workers[w];
    assert WorkerFits(c, worker);
    match worker.phase
    case Created => step := W(w, Begin);
    case Selecting => step := P(Deliver(w));
    case Calling =>
      var number :| number in worker.pending;
      step := W(w, End(number));
    case Waiting =>
      if worker.pending == {} {
        step := W(w, GroupDone);
      } else {
        var number :| number in worker.pending;
        step := W(w, End(number));
      }
    case _ => step := W(w, Report);
  }

  /** Until the function has returned some goroutine can move, except in the states that hang. */
  lemma NeverStuck(c: Config, s: State) returns (step: Step)
    requires Inv(c, s) && c.conns > 0 && !s.main.Returned? && !Hung(c, s)
    ensures Enabled(c, s, step) && IsMove(step)
  {
    hide Numbered, Owned, LiveMatches, StoppedInOrder, WorkersFit, Collected;
    if s.tickerClosed {
      step := MovesAfterFinish(c, s);
    } else if !s.lock.Free? {
      step := HolderMoves(c, s);
      HolderStepIsMove(c, s, step);
    } else if !s.pacer.Offering? {
      step := P(match s.pacer case Pacing => PacerStops case Announcing => Announce case _ => PacerStep.Finish);
    } else if s.stopRequested {
      step := P(TakeStop);
    } else if !s.control.Receiving? && !s.control.Exited? {
      step := ControlMoves(c, s);
    } else {
      var w :| 0 <= w < |s.workers| && !Parked(c, s, s.workers[w]);
      step := WorkerMoves(c, s, w);
    }
  }

  /** Once the worker ticker is finished the function always gets on. */
  lemma MovesAfterFinish(c: Config, s: State) returns (step: Step)
    requires Inv(c, s) && s.tickerClosed && c.conns > 0 && !s.main.Returned?
    ensures Enabled(c, s, step) && IsMove(step)
  {
    hide Numbered, Owned, LiveMatches, StoppedInOrder, WorkersFit;
    if !s.lock.Free? {
      step := HolderMoves(c, s);
    } else if s.main.Counting? {
      step := M(Count);
    } else if s.main.got == s.main.want {
      step := M(Return);
    } else if s.errs > 0 {
      step := M(Collect);
    } else {
      step := CollectorIsFed(c, s);
    }
  }

  /** Nothing but a stop request or a value of the ticker is possible in a state that hangs. */
  lemma HungIsStuck(c: Config, s: State, step: Step)
    requires Inv(c, s) && Hung(c, s) && Enabled(c, s, step)
    ensures !IsMove(step)
  {
    hide Numbered, Owned, StoppedInOrder, Collected, LiveMatches;
    assert forall w :: 0 <= w < |s.workers| ==> WorkerFits(c, s.workers[w]) && Parked(c, s, s.workers[w]);
  }

  /** Exactly the states that hang are stuck. */
  lemma StuckIff(c: Config, s: State)
    requires Inv(c, s) && c.conns > 0 && !s.main.Returned?
    ensures (forall step :: Enabled(c, s, step) ==> !IsMove(step)) <==> Hung(c, s)
  {
    hide Inv, Enabled, Hung, IsMove;
    if Hung(c, s) {
      forall step | Enabled(c, s, step)
        ensures !IsMove(step)
      {
        HungIsStuck(c, s, step);
      }
    } else {
      var step := NeverStuck(c, s);
    }
  }

  /** A state hangs only when the values received leave no worker running. */
  lemma HungHasNoWorkers(c: Config, s: State)
    requires Inv(c, s) && Hung(c, s)
    ensures Live(s.received) == 0 && ActiveCount(s.workers) == 0
  {
    hide Numbered, Owned, InStep, StoppedInOrder, Collected, ActiveCount, Live;
    forall w | 0 <= w < |s.workers|
      ensures !s.workers[w].active
    {
      assert WorkerFits(c, s.workers[w]) && Parked(c, s, s.workers[w]);
    }
    InactiveCount(s.workers);
  }

  /** Every run makes a bounded number of moves; one that has not returned can go on, or it hangs with no
      worker running until a stop is requested or the ticker sends more. */
  lemma EveryRunReturns(c: Config, steps: seq<Step>) returns (step: Step)
    requires c.conns > 0 && Run(c, steps).Reached?
    ensures var t := Run(c, steps).state;
            && Moves(steps) <= Bound(|t.delivered|, t.received)
            && (t.main.Returned?
                || (Enabled(c, t, step) && IsMove(step))
                || (Hung(c, t) && Live(t.received) == 0))
  {
    hide *;
    MovesAreBounded(c, steps);
    RunKeepsInv(c, steps);
    var t := Run(c, steps).state;
    step := RequestStop;
    if Hung(c, t) {
      HungHasNoWorkers(c, t);
    } else if !t.main.Returned? {
      step := NeverStuck(c, t);
    }
  }
}
