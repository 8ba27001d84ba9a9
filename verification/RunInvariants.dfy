/** What every step of `runWorkers` keeps, in every interleaving. */
module RunInvariants {
  import opened GoNumbers
  import opened WorkerTickers
  import opened RunProtocol

  // ---------- the invariant ----------

  /** Ticks are numbered by the shared counter, in order and without gaps. The counter is one
      ahead while a tick is on offer, and stays ahead if that tick was never taken. */
  ghost predicate Numbered(c: Config, s: State) {
    && (forall k :: 0 <= k < |s.delivered| ==> s.delivered[k].number == k)
    && |s.delivered| <= s.counter <= |s.delivered| + 1
    && (s.pacer.Pacing? ==> s.counter == |s.delivered|)
    && (s.pacer.Offering? ==> s.pacer.number == |s.delivered| && s.counter == |s.delivered| + 1)
    && (c.max > 0 ==> |s.delivered| <= c.max && (s.pacer.Offering? ==> |s.delivered| < c.max))
    && (s.byMax ==> 0 < c.max == |s.delivered| && !s.pacer.Pacing? && !s.pacer.Offering?)
  }

  /** Every delivered request is either finished or pending at the worker it went to. */
  ghost predicate Owned(s: State) {
    && (forall k :: 0 <= k < |s.delivered| ==>
          var w := s.delivered[k].worker;
          w < |s.workers| && (k in s.finished || k in s.workers[w].pending))
    && (forall w :: 0 <= w < |s.workers| ==> PendingIsOwn(s, w))
    && (forall k :: k in s.finished ==> k < |s.delivered|)
  }

  ghost predicate PendingIsOwn(s: State, w: nat)
    requires w < |s.workers|
  {
    forall k :: k in s.workers[w].pending ==>
      k < |s.delivered| && s.delivered[k].worker == w && k !in s.finished
  }

  /** A worker has left its loop exactly when it received its one stop signal. */
  predicate WorkerFits(c: Config, w: Worker) {
    && w.stops <= 1
    && (w.active ==> w.stops == 0)
    && (w.stops == 0 <==> w.phase.Created? || w.phase.Selecting? || w.phase.Calling?)
    && (w.phase.Created? || w.phase.Reporting? || w.phase.Gone? ==> w.pending == {})
    && (!c.async ==> forall j, k :: j in w.pending && k in w.pending ==> j == k)
    && (if c.async then !w.phase.Calling? else (w.pending != {} <==> w.phase.Calling?) && !w.phase.Waiting?)
  }

  ghost predicate WorkersFit(c: Config, s: State) {
    && (forall w :: 0 <= w < |s.workers| ==> WorkerFits(c, s.workers[w]))
    && (forall w :: 0 <= w < |s.workers| ==> s.workers[w].conn == ConnectionOf(c, w))
    && s.nextConn == ConnectionOf(c, |s.workers|)
  }

  /** The connections are shared out in turn. */
  function ConnectionOf(c: Config, k: nat): nat {
    if c.conns == 0 then 0 else k % c.conns
  }

  /** Who holds the lock, and which goroutine can be where when another has got so far. */
  predicate InStep(s: State) {
    && (s.lock.HeldByPacer? <==> s.pacer.Stopping? || s.pacer.HandingStop?)
    && (s.lock.HeldByControl? <==> s.control.Removing? || s.control.HandingRemove?)
    && (s.main.AwaitingDone? <==> s.pacer.Pacing? || s.pacer.Offering? || s.pacer.Announcing?)
    && (s.tickerClosed <==> !s.main.AwaitingDone? && !s.pacer.Finishing?)
    && (AfterControl(s) ==> s.control.Exited?)
    && (s.ticksClosed <==> s.pacer.Ended?)
    && (s.pacer.Stopping? ==> s.pacer.i <= |s.workers|)
    && (s.pacer.HandingStop? ==> s.pacer.i < |s.workers|)
    && (s.control.Removing? ==> s.control.i <= |s.workers| && s.control.removed <= s.control.want)
    && (s.control.HandingRemove? ==> s.control.i < |s.workers| && s.control.removed < s.control.want)
  }

  /** The sending goroutine has seen the controlling one exit. */
  predicate AfterControl(s: State) {
    s.pacer.AwaitingLock? || s.pacer.Stopping? || s.pacer.HandingStop? || s.pacer.Closing? || s.pacer.Ended?
  }

  /** Worker w is the one a stop signal is being handed to. */
  predicate BeingStopped(s: State, w: nat) {
    (s.pacer == HandingStop(w)) || (s.control.HandingRemove? && s.control.i == w)
  }

  /** Stops are handed out in index order: the inactive workers are the first ones, all but the
      one being stopped have their signal, and each stopping loop has dealt with those behind it. */
  ghost predicate StoppedInOrder(s: State) {
    && (forall i, j :: 0 <= i < j < |s.workers| && !s.workers[j].active ==> !s.workers[i].active)
    && (forall w :: 0 <= w < |s.workers| && !s.workers[w].active && s.workers[w].stops == 0 ==> BeingStopped(s, w))
    && (forall w :: 0 <= w < |s.workers| && BeingStopped(s, w) ==>
          && !s.workers[w].active && s.workers[w].stops == 0
          && forall j :: w < j < |s.workers| ==> s.workers[j].active)
    && (s.pacer.Stopping? ==> AllInactive(s, s.pacer.i))
    && (s.control.Removing? ==> AllInactive(s, s.control.i))
    && (s.pacer.Closing? || s.pacer.Ended? ==> AllInactive(s, |s.workers|))
  }

  ghost predicate AllInactive(s: State, n: nat) {
    n <= |s.workers| && forall w :: 0 <= w < n ==> !s.workers[w].active
  }

  function GoneCount(workers: seq<Worker>): nat {
    if workers == [] then 0
    else GoneCount(workers[..|workers| - 1]) + if workers[|workers| - 1].phase.Gone? then 1 else 0
  }

  function Got(m: MainPc): nat {
    match m
    case Collecting(want, got) => got
    case Returned(want) => want
    case _ => 0
  }

  /** Every result a worker has sent is in the channel or has been collected, and what is
      waited for is the number of workers when they were counted. */
  ghost predicate Collected(s: State) {
    && GoneCount(s.workers) == s.errs + Got(s.main)
    && (s.main.Collecting? ==> s.main.got <= s.main.want)
    && (s.main.Collecting? || s.main.Returned? ==>
          && s.main.want <= |s.workers|
          && (forall k :: 0 <= k < |s.delivered| ==> s.delivered[k].worker < s.main.want)
          && (s.complete ==> s.main.want == |s.workers| && s.control.Exited?))
    && (s.complete ==> s.main.Collecting? || s.main.Returned?)
  }

  function ActiveCount(workers: seq<Worker>): nat {
    if workers == [] then 0
    else ActiveCount(workers[..|workers| - 1]) + if workers[|workers| - 1].active then 1 else 0
  }

  /** Until the final stop, the active workers and what is left of the current tick make up the
      live count of the ticks received. */
  predicate LiveMatches(s: State) {
    s.pacer.Stopping? || s.pacer.HandingStop? || s.pacer.Closing? || s.pacer.Ended? ||
    Live(s.received) ==
    match s.control
    case Creating(left, done) => ActiveCount(s.workers) + left
    case Locking(want, done) => Max(0, ActiveCount(s.workers) - want)
    case Removing(i, removed, want, done) => Max(0, ActiveCount(s.workers) - (want - removed))
    case HandingRemove(i, removed, want, done) => Max(0, ActiveCount(s.workers) - (want - removed - 1))
    case _ => ActiveCount(s.workers)
  }

  ghost predicate Inv(c: Config, s: State) {
    && Numbered(c, s) && Owned(s) && WorkersFit(c, s) && InStep(s)
    && StoppedInOrder(s) && Collected(s) && LiveMatches(s)
  }

  // ---------- counting workers ----------

  lemma {:induction false} GoneCountUpdate(workers: seq<Worker>, i: nat, w: Worker)
    requires i < |workers|
    ensures GoneCount(workers[i := w]) ==
            GoneCount(workers) - (if workers[i].phase.Gone? then 1 else 0) + (if w.phase.Gone? then 1 else 0)
  {
    var n := |workers| - 1;
    if i < n {
      GoneCountUpdate(workers[..n], i, w);
      assert workers[i := w][..n] == workers[..n][i := w];
    } else {
      assert workers[i := w][..n] == workers[..n];
    }
  }

  lemma {:induction false} ActiveCountUpdate(workers: seq<Worker>, i: nat, w: Worker)
    requires i < |workers|
    ensures ActiveCount(workers[i := w]) ==
            ActiveCount(workers) - (if workers[i].active then 1 else 0) + (if w.active then 1 else 0)
  {
    var n := |workers| - 1;
    if i < n {
      ActiveCountUpdate(workers[..n], i, w);
      assert workers[i := w][..n] == workers[..n][i := w];
    } else {
      assert workers[i := w][..n] == workers[..n];
    }
  }

  lemma GoneCountAppend(workers: seq<Worker>, w: Worker)
    ensures GoneCount(workers + [w]) == GoneCount(workers) + if w.phase.Gone? then 1 else 0
  {
    assert (workers + [w])[..|workers|] == workers;
  }

  lemma ActiveCountAppend(workers: seq<Worker>, w: Worker)
    ensures ActiveCount(workers + [w]) == ActiveCount(workers) + if w.active then 1 else 0
  {
    assert (workers + [w])[..|workers|] == workers;
  }

  /** Handing over a stop changes neither count: the worker was in its loop and is inactive. */
  lemma GoneCountGiveStop(c: Config, workers: seq<Worker>, i: nat)
    requires i < |workers| && workers[i].phase.Selecting?
    ensures GoneCount(GiveStop(c, workers, i)) == GoneCount(workers)
  {
    GoneCountUpdate(workers, i, GiveStop(c, workers, i)[i]);
  }

  lemma ActiveCountGiveStop(c: Config, workers: seq<Worker>, i: nat)
    requires i < |workers|
    ensures ActiveCount(GiveStop(c, workers, i)) == ActiveCount(workers)
  {
    ActiveCountUpdate(workers, i, GiveStop(c, workers, i)[i]);
  }

  lemma {:induction false} InactiveCount(workers: seq<Worker>)
    requires forall w :: 0 <= w < |workers| ==> !workers[w].active
    ensures ActiveCount(workers) == 0
  {
    if workers == [] {
    } else {
      InactiveCount(workers[..|workers| - 1]);
    }
  }

  lemma NoneActive(s: State)
    requires StoppedInOrder(s)
    ensures s.control.Removing? && s.control.i == |s.workers| ==> ActiveCount(s.workers) == 0
  {
    if s.control.Removing? && s.control.i == |s.workers| {
      InactiveCount(s.workers);
    }
  }

  // ---------- the effects on ownership ----------

  /** Steps that leave deliveries and pending requests alone leave ownership alone. */
  lemma OwnedIsFramed(s: State, t: State)
    requires Owned(s) && t.delivered == s.delivered && t.finished == s.finished && |s.workers| <= |t.workers|
    requires forall w :: 0 <= w < |s.workers| ==> t.workers[w].pending == s.workers[w].pending
    requires forall w :: |s.workers| <= w < |t.workers| ==> t.workers[w].pending == {}
    ensures Owned(t)
  {
    forall w | 0 <= w < |t.workers|
      ensures PendingIsOwn(t, w)
    {
      assert w < |s.workers| ==> PendingIsOwn(s, w);
    }
  }

  lemma DeliverKeepsOwned(c: Config, s: State, w: nat)
    requires Owned(s) && Numbered(c, s) && PacerEnabled(c, s, Deliver(w))
    ensures Owned(PacerApply(c, s, Deliver(w)))
  {
    var t := PacerApply(c, s, Deliver(w));
    var m := |s.delivered|;
    assert t.delivered[m] == Delivery(m, w);
    assert forall k :: 0 <= k < m ==> t.delivered[k] == s.delivered[k];
    forall v | 0 <= v < |t.workers|
      ensures PendingIsOwn(t, v)
    {
      assert PendingIsOwn(s, v);
    }
  }

  lemma EndKeepsOwned(c: Config, s: State, w: nat, number: nat)
    requires Owned(s) && WorkerEnabled(c, s, w, End(number))
    ensures Owned(WorkerApply(c, s, w, End(number)))
  {
    var t := WorkerApply(c, s, w, End(number));
    assert PendingIsOwn(s, w);
    forall v | 0 <= v < |t.workers|
      ensures PendingIsOwn(t, v)
    {
      assert PendingIsOwn(s, v);
    }
  }

  /** A worker's own step moves neither stopping loop and touches none of the flags they use. */
  lemma WorkerStepIsLocal(c: Config, s: State, w: nat, step: WorkerStep)
    requires WorkerEnabled(c, s, w, step)
    ensures var t := WorkerApply(c, s, w, step);
            && t.workers == s.workers[w := WorkerAfter(c, s.workers[w], step)]
            && t.workers[w].active == s.workers[w].active && t.workers[w].stops == s.workers[w].stops
            && t.pacer == s.pacer && t.control == s.control && t.received == s.received
  {
  }

  predicate InStopLoop(pc: PacerPc) {
    pc.Stopping? || pc.HandingStop? || pc.Closing? || pc.Ended?
  }

  lemma OrderIsFramed(s: State, t: State)
    requires StoppedInOrder(s) && t.control == s.control && |t.workers| == |s.workers|
    requires t.pacer == s.pacer || (!InStopLoop(t.pacer) && !InStopLoop(s.pacer))
    requires forall w :: 0 <= w < |s.workers| ==>
               t.workers[w].active == s.workers[w].active && t.workers[w].stops == s.workers[w].stops
    ensures StoppedInOrder(t)
  {
  }

  /** No worker is in its `select` once `ticks` is closed, so none reads a zero tick. */
  lemma NoZeroTick(c: Config, s: State, w: nat)
    requires Inv(c, s)
    ensures !WorkerEnabled(c, s, w, ReadZeroTick)
  {
    hide Numbered, Owned, Collected, LiveMatches;
    if s.ticksClosed && w < |s.workers| {
      assert WorkerFits(c, s.workers[w]);
      assert !s.workers[w].active;
    }
  }

  /** The connection counter wraps around at the number of connections. */
  lemma NextConnection(c: Config, n: nat)
    requires c.conns > 0
    ensures ConnectionOf(c, n + 1) == if ConnectionOf(c, n) + 1 == c.conns then 0 else ConnectionOf(c, n) + 1
  {
    var conns := c.conns;
    var q := n / conns;
    assert n == q * conns + n % conns;
    assert (q + 1) * conns == q * conns + conns;
    if n % conns + 1 == conns {
      QuotientIsUnique(n + 1, conns, q + 1);
    } else {
      QuotientIsUnique(n + 1, conns, q);
    }
    assert n + 1 == (n + 1) / conns * conns + (n + 1) % conns;
  }

  // ---------- every step keeps the invariant ----------

  lemma PacerKeepsNumbered(c: Config, s: State, step: PacerStep)
    requires Inv(c, s) && PacerEnabled(c, s, step)
    ensures Numbered(c, PacerApply(c, s, step))
  {
    hide Owned, WorkersFit, StoppedInOrder, Collected, LiveMatches;
  }

  lemma ControlKeepsNumbered(c: Config, s: State, step: ControlStep)
    requires Inv(c, s) && ControlEnabled(c, s, step)
    ensures Numbered(c, ControlApply(c, s, step))
  {
    hide Owned, WorkersFit, StoppedInOrder, Collected, LiveMatches;
  }

  lemma WorkerKeepsNumbered(c: Config, s: State, w: nat, step: WorkerStep)
    requires Inv(c, s) && WorkerEnabled(c, s, w, step)
    ensures Numbered(c, WorkerApply(c, s, w, step))
  {
    hide Owned, WorkersFit, StoppedInOrder, Collected, LiveMatches;
  }

  lemma MainKeepsNumbered(c: Config, s: State, step: MainStep)
    requires Inv(c, s) && MainEnabled(s, step)
    ensures Numbered(c, MainApply(s, step))
  {
    hide Owned, WorkersFit, StoppedInOrder, Collected, LiveMatches;
  }

  lemma PacerKeepsOwned(c: Config, s: State, step: PacerStep)
    requires Inv(c, s) && PacerEnabled(c, s, step)
    ensures Owned(PacerApply(c, s, step))
  {
    hide WorkersFit, InStep, StoppedInOrder, Collected, LiveMatches;
    if step.Deliver? {
      DeliverKeepsOwned(c, s, step.w);
    } else {
      OwnedIsFramed(s, PacerApply(c, s, step));
    }
  }

  lemma ControlKeepsOwned(c: Config, s: State, step: ControlStep)
    requires Inv(c, s) && ControlEnabled(c, s, step)
    ensures Owned(ControlApply(c, s, step))
  {
    hide WorkersFit, InStep, StoppedInOrder, Collected, LiveMatches;
    OwnedIsFramed(s, ControlApply(c, s, step));
  }

  lemma WorkerKeepsOwned(c: Config, s: State, w: nat, step: WorkerStep)
    requires Inv(c, s) && WorkerEnabled(c, s, w, step)
    ensures Owned(WorkerApply(c, s, w, step))
  {
    NoZeroTick(c, s, w);
    hide WorkersFit, InStep, StoppedInOrder, Collected, LiveMatches;
    if step.End? {
      EndKeepsOwned(c, s, w, step.number);
    } else {
      OwnedIsFramed(s, WorkerApply(c, s, w, step));
    }
  }

  lemma MainKeepsOwned(c: Config, s: State, step: MainStep)
    requires Inv(c, s) && MainEnabled(s, step)
    ensures Owned(MainApply(s, step))
  {
    hide WorkersFit, InStep, StoppedInOrder, Collected, LiveMatches;
    OwnedIsFramed(s, MainApply(s, step));
  }

  lemma PacerKeepsWorkersFit(c: Config, s: State, step: PacerStep)
    requires Inv(c, s) && PacerEnabled(c, s, step)
    ensures WorkersFit(c, PacerApply(c, s, step))
  {
    hide Numbered, Owned, InStep, Collected, LiveMatches;
  }

  lemma ControlKeepsWorkersFit(c: Config, s: State, step: ControlStep)
    requires Inv(c, s) && ControlEnabled(c, s, step)
    ensures WorkersFit(c, ControlApply(c, s, step))
  {
    hide Numbered, Owned, InStep, Collected, LiveMatches;
    hide ConnectionOf;
    if step.Append? {
      NextConnection(c, |s.workers|);
    }
  }

  lemma WorkerKeepsWorkersFit(c: Config, s: State, w: nat, step: WorkerStep)
    requires Inv(c, s) && WorkerEnabled(c, s, w, step)
    ensures WorkersFit(c, WorkerApply(c, s, w, step))
  {
    NoZeroTick(c, s, w);
    hide Numbered, Owned, InStep, StoppedInOrder, Collected, LiveMatches;
  }

  lemma MainKeepsWorkersFit(c: Config, s: State, step: MainStep)
    requires Inv(c, s) && MainEnabled(s, step)
    ensures WorkersFit(c, MainApply(s, step))
  {
    hide Numbered, Owned, InStep, StoppedInOrder, Collected, LiveMatches;
  }

  lemma PacerKeepsInStep(c: Config, s: State, step: PacerStep)
    requires Inv(c, s) && PacerEnabled(c, s, step)
    ensures InStep(PacerApply(c, s, step))
  {
    hide Numbered, Owned, WorkersFit, StoppedInOrder, Collected, LiveMatches;
  }

  lemma ControlKeepsInStep(c: Config, s: State, step: ControlStep)
    requires Inv(c, s) && ControlEnabled(c, s, step)
    ensures InStep(ControlApply(c, s, step))
  {
    hide Numbered, Owned, WorkersFit, StoppedInOrder, Collected, LiveMatches;
  }

  lemma WorkerKeepsInStep(c: Config, s: State, w: nat, step: WorkerStep)
    requires Inv(c, s) && WorkerEnabled(c, s, w, step)
    ensures InStep(WorkerApply(c, s, w, step))
  {
    hide Numbered, Owned, WorkersFit, StoppedInOrder, Collected, LiveMatches;
  }

  lemma MainKeepsInStep(c: Config, s: State, step: MainStep)
    requires Inv(c, s) && MainEnabled(s, step)
    ensures InStep(MainApply(s, step))
  {
    hide Numbered, Owned, WorkersFit, StoppedInOrder, Collected, LiveMatches;
  }

  lemma PacerKeepsStoppedInOrder(c: Config, s: State, step: PacerStep)
    requires Inv(c, s) && PacerEnabled(c, s, step)
    ensures StoppedInOrder(PacerApply(c, s, step))
  {
    hide Numbered, Owned, Collected, LiveMatches;
    var t := PacerApply(c, s, step);
    if !InStopLoop(s.pacer) && !InStopLoop(t.pacer) {
      OrderIsFramed(s, t);
    } else {
      StopLoopKeepsOrder(c, s, step);
    }
  }

  /** The final stopping loop marks a worker, hands it its signal and moves on. */
  lemma StopLoopKeepsOrder(c: Config, s: State, step: PacerStep)
    requires InStep(s) && StoppedInOrder(s) && WorkersFit(c, s) && PacerEnabled(c, s, step)
    requires InStopLoop(s.pacer) || step.LockToStop?
    ensures StoppedInOrder(PacerApply(c, s, step))
  {
  }

  lemma ControlKeepsStoppedInOrder(c: Config, s: State, step: ControlStep)
    requires Inv(c, s) && ControlEnabled(c, s, step)
    ensures StoppedInOrder(ControlApply(c, s, step))
  {
    hide Numbered, Owned, Collected, LiveMatches, ControlApply, StoppedInOrder, WorkersFit;
    if step.Append? {
      AppendKeepsOrder(c, s);
    } else if Removes(step) {
      RemovalKeepsOrder(c, s, step);
    } else {
      OtherTicksKeepOrder(c, s, step);
    }
  }

  predicate Removes(step: ControlStep) {
    step.LockToRemove? || step.SkipRemove? || step.SetRemove? || step.HandRemove? || step.UnlockRemove?
  }

  lemma AppendKeepsOrder(c: Config, s: State)
    requires InStep(s) && StoppedInOrder(s) && ControlEnabled(c, s, Append)
    ensures StoppedInOrder(ControlApply(c, s, Append))
  {
  }

  /** The removal loop marks a worker, hands it its signal and moves on. */
  lemma RemovalKeepsOrder(c: Config, s: State, step: ControlStep)
    requires InStep(s) && StoppedInOrder(s) && WorkersFit(c, s) && ControlEnabled(c, s, step) && Removes(step)
    ensures StoppedInOrder(ControlApply(c, s, step))
  {
  }

  lemma OtherTicksKeepOrder(c: Config, s: State, step: ControlStep)
    requires InStep(s) && StoppedInOrder(s) && ControlEnabled(c, s, step) && !Removes(step) && !step.Append?
    ensures StoppedInOrder(ControlApply(c, s, step))
  {
  }

  lemma WorkerKeepsStoppedInOrder(c: Config, s: State, w: nat, step: WorkerStep)
    requires Inv(c, s) && WorkerEnabled(c, s, w, step)
    ensures StoppedInOrder(WorkerApply(c, s, w, step))
  {
    WorkerStepIsLocal(c, s, w, step);
    hide Numbered, Owned, WorkersFit, InStep, StoppedInOrder, Collected, LiveMatches, WorkerApply, WorkerEnabled, WorkerAfter;
    OrderIsFramed(s, WorkerApply(c, s, w, step));
  }

  lemma MainKeepsStoppedInOrder(c: Config, s: State, step: MainStep)
    requires Inv(c, s) && MainEnabled(s, step)
    ensures StoppedInOrder(MainApply(s, step))
  {
    hide Numbered, Owned, Collected, LiveMatches;
  }

  lemma PacerKeepsCollected(c: Config, s: State, step: PacerStep)
    requires Inv(c, s) && PacerEnabled(c, s, step)
    ensures Collected(PacerApply(c, s, step))
  {
    hide Numbered, Owned, StoppedInOrder, LiveMatches;
    match step
    case Deliver(w) => GoneCountUpdate(s.workers, w, Take(c, s.workers[w], s.pacer.number));
    case SetStop => GoneCountUpdate(s.workers, s.pacer.i, s.workers[s.pacer.i].(active := false));
    case HandStop => GoneCountGiveStop(c, s.workers, s.pacer.i);
    case _ =>
  }

  lemma ControlKeepsCollected(c: Config, s: State, step: ControlStep)
    requires Inv(c, s) && ControlEnabled(c, s, step)
    ensures Collected(ControlApply(c, s, step))
  {
    hide Numbered, Owned, StoppedInOrder, LiveMatches;
    match step
    case Append => GoneCountAppend(s.workers, Worker(s.nextConn, true, Created, {}, 0));
    case SetRemove => GoneCountUpdate(s.workers, s.control.i, s.workers[s.control.i].(active := false));
    case HandRemove => GoneCountGiveStop(c, s.workers, s.control.i);
    case _ =>
  }

  lemma WorkerKeepsCollected(c: Config, s: State, w: nat, step: WorkerStep)
    requires Inv(c, s) && WorkerEnabled(c, s, w, step)
    ensures Collected(WorkerApply(c, s, w, step))
  {
    NoZeroTick(c, s, w);
    hide Numbered, Owned, StoppedInOrder, LiveMatches;
    GoneCountUpdate(s.workers, w, WorkerAfter(c, s.workers[w], step));
  }

  lemma MainKeepsCollected(c: Config, s: State, step: MainStep)
    requires Inv(c, s) && MainEnabled(s, step)
    ensures Collected(MainApply(s, step))
  {
    hide Numbered, WorkersFit, StoppedInOrder, LiveMatches;
  }

  lemma PacerKeepsLiveMatches(c: Config, s: State, step: PacerStep)
    requires Inv(c, s) && PacerEnabled(c, s, step)
    ensures LiveMatches(PacerApply(c, s, step))
  {
    hide Numbered, Owned, WorkersFit, StoppedInOrder, Collected, ActiveCount, Live;
    match step
    case Deliver(w) => ActiveCountUpdate(s.workers, w, Take(c, s.workers[w], s.pacer.number));
    case _ =>
  }

  lemma ControlKeepsLiveMatches(c: Config, s: State, step: ControlStep)
    requires Inv(c, s) && ControlEnabled(c, s, step)
    ensures LiveMatches(ControlApply(c, s, step))
  {
    hide Numbered, Owned, WorkersFit, Collected, StoppedInOrder, LiveMatches, ControlApply;
    if Removes(step) {
      RemovalKeepsLive(c, s, step);
    } else {
      CreationKeepsLive(c, s, step);
    }
  }

  lemma RemovalKeepsLive(c: Config, s: State, step: ControlStep)
    requires InStep(s) && StoppedInOrder(s) && LiveMatches(s) && ControlEnabled(c, s, step) && Removes(step)
    ensures LiveMatches(ControlApply(c, s, step))
  {
    NoneActive(s);
    hide ActiveCount, StoppedInOrder, Live, GiveStop;
    if step.SetRemove? {
      MarkKeepsLive(c, s);
    } else if step.HandRemove? {
      HandKeepsLive(c, s);
    }
  }

  lemma MarkKeepsLive(c: Config, s: State)
    requires InStep(s) && LiveMatches(s) && ControlEnabled(c, s, SetRemove)
    ensures LiveMatches(ControlApply(c, s, SetRemove))
  {
    hide ActiveCount, Live;
    ActiveCountUpdate(s.workers, s.control.i, s.workers[s.control.i].(active := false));
  }

  lemma HandKeepsLive(c: Config, s: State)
    requires InStep(s) && LiveMatches(s) && ControlEnabled(c, s, HandRemove)
    ensures LiveMatches(ControlApply(c, s, HandRemove))
  {
    hide ActiveCount, Live, GiveStop;
    ActiveCountGiveStop(c, s.workers, s.control.i);
  }

  lemma CreationKeepsLive(c: Config, s: State, step: ControlStep)
    requires InStep(s) && LiveMatches(s) && ControlEnabled(c, s, step) && !Removes(step)
    ensures LiveMatches(ControlApply(c, s, step))
  {
    hide ActiveCount, Live, InStep;
    match step
    case Receive(tick) => LiveAppends(s.received, tick);
    case Append => ActiveCountAppend(s.workers, Worker(s.nextConn, true, Created, {}, 0));
    case _ =>
  }

  lemma WorkerKeepsLiveMatches(c: Config, s: State, w: nat, step: WorkerStep)
    requires Inv(c, s) && WorkerEnabled(c, s, w, step)
    ensures LiveMatches(WorkerApply(c, s, w, step))
  {
    WorkerStepIsLocal(c, s, w, step);
    hide Numbered, Owned, WorkersFit, InStep, StoppedInOrder, Collected, WorkerApply, WorkerEnabled;
    ActiveCountUpdate(s.workers, w, WorkerAfter(c, s.workers[w], step));
  }

  lemma MainKeepsLiveMatches(c: Config, s: State, step: MainStep)
    requires Inv(c, s) && MainEnabled(s, step)
    ensures LiveMatches(MainApply(s, step))
  {
    hide Numbered, Owned, WorkersFit, StoppedInOrder, Collected;
  }
}
