/** The goroutines of `Requester.runWorkers` as a transition system (runner/requester.go,
    runner/worker.go, runner/counter.go). A step is one channel operation, one lock operation
    or one piece of code between two of them; every interleaving is a sequence of steps.

    Three premises of the source are built in: the worker ticker sends nothing once `Finish` has
    closed its channel, a pacer stops at `Max` hits when `Max` is positive, and every request
    ends. A pacer may also stop at any other time, and a stop may be requested at any time. */
module RunProtocol {
  import opened WorkerTickers

  /** `conns` stubs to share out; `errCap` is the capacity of the error channel. */
  datatype Config = Config(max: nat, async: bool, conns: nat, errCap: nat)

  /** Where a worker's loop is: not yet begun, at its `select`, inside a synchronous request,
      waiting for its asynchronous requests after a stop, about to send its error, gone. */
  datatype Phase = Created | Selecting | Calling | Waiting | Reporting | Gone

  /** `pending` holds the numbers of the requests the worker has taken and not yet ended, and
      `stops` counts the stop signals it has received. */
  datatype Worker = Worker(conn: nat, active: bool, phase: Phase, pending: set<nat>, stops: nat)

  /** The sending goroutine, from its loop through its three deferred calls. */
  datatype PacerPc =
    | Pacing
    | Offering(number: nat)
    | Announcing
    | Finishing
    | AwaitingControl
    | AwaitingLock
    | Stopping(i: nat)
    | HandingStop(i: nat)
    | Closing
    | Ended

  /** The goroutine that creates and removes workers. */
  datatype ControlPc =
    | Receiving
    | Creating(left: nat, done: bool)
    | Locking(want: nat, done: bool)
    | Removing(i: nat, removed: nat, want: nat, done: bool)
    | HandingRemove(i: nat, removed: nat, want: nat, done: bool)
    | TickHandled(done: bool)
    | Exited

  datatype MainPc = AwaitingDone | Counting | Collecting(want: nat, got: nat) | Returned(want: nat)

  datatype Lock = Free | HeldByPacer | HeldByControl

  /** Request number `number` went to worker `worker`. */
  datatype Delivery = Delivery(number: nat, worker: nat)

  datatype State = State(
    pacer: PacerPc,
    control: ControlPc,
    main: MainPc,
    lock: Lock,
    workers: seq<Worker>,
    nextConn: nat,
    counter: nat,
    stopRequested: bool,
    tickerClosed: bool,
    ticksClosed: bool,
    errs: nat,
    // what has happened so far
    delivered: seq<Delivery>,
    finished: set<nat>,
    received: seq<TickValue>,
    byMax: bool,
    complete: bool)

  datatype PacerStep =
    Pace | PacerStops | Deliver(w: nat) | TakeStop | Announce | Finish | ControlSeenGone
  | LockToStop | SkipStop | SetStop | HandStop | UnlockStop | CloseTicks

  datatype ControlStep =
    Receive(tick: TickValue) | SeeClosed | Append | Appended
  | LockToRemove | SkipRemove | SetRemove | HandRemove | UnlockRemove | NextTick

  datatype WorkerStep = Begin | End(number: nat) | ReadZeroTick | GroupDone | Report | ReportDirectly

  datatype MainStep = Count | Collect | Return

  datatype Step = P(p: PacerStep) | C(c: ControlStep) | W(w: nat, step: WorkerStep) | M(m: MainStep) | RequestStop

  function Init(): State {
    State(Pacing, Receiving, AwaitingDone, Free, [], 0, 0, false, false, false, 0, [], {}, [], false, false)
  }

  // ---------- the sending goroutine ----------

  predicate PacerEnabled(c: Config, s: State, step: PacerStep) {
    match step
    case Pace => s.pacer.Pacing? && !(0 < c.max <= s.counter)
    case PacerStops => s.pacer.Pacing?
    case Deliver(w) => s.pacer.Offering? && w < |s.workers| && s.workers[w].phase.Selecting?
    case TakeStop => s.pacer.Offering? && s.stopRequested
    case Announce => s.pacer.Announcing? && s.main.AwaitingDone?
    case Finish => s.pacer.Finishing?
    case ControlSeenGone => s.pacer.AwaitingControl? && s.control.Exited?
    case LockToStop => s.pacer.AwaitingLock? && s.lock.Free?
    case SkipStop => s.pacer.Stopping? && s.pacer.i < |s.workers| && !s.workers[s.pacer.i].active
    case SetStop => s.pacer.Stopping? && s.pacer.i < |s.workers| && s.workers[s.pacer.i].active
    case HandStop => s.pacer.HandingStop? && s.pacer.i < |s.workers| && s.workers[s.pacer.i].phase.Selecting?
    case UnlockStop => s.pacer.Stopping? && s.pacer.i == |s.workers|
    case CloseTicks => s.pacer.Closing?
  }

  function PacerApply(c: Config, s: State, step: PacerStep): State
    requires PacerEnabled(c, s, step)
  {
    match step
    case Pace => s.(pacer := Offering(s.counter), counter := s.counter + 1)
    case PacerStops => s.(pacer := Announcing, byMax := 0 < c.max <= s.counter)
    case Deliver(w) =>
      s.(pacer := Pacing,
         workers := s.workers[w := Take(c, s.workers[w], s.pacer.number)],
         delivered := s.delivered + [Delivery(s.pacer.number, w)])
    case TakeStop => s.(pacer := Announcing, stopRequested := false)
    case Announce => s.(pacer := Finishing, main := Counting)
    case Finish => s.(pacer := AwaitingControl, tickerClosed := true)
    case ControlSeenGone => s.(pacer := AwaitingLock)
    case LockToStop => s.(pacer := Stopping(0), lock := HeldByPacer)
    case SkipStop => s.(pacer := Stopping(s.pacer.i + 1))
    case SetStop => s.(pacer := HandingStop(s.pacer.i), workers := Deactivate(s.workers, s.pacer.i))
    case HandStop => s.(pacer := Stopping(s.pacer.i + 1), workers := GiveStop(c, s.workers, s.pacer.i))
    case UnlockStop => s.(pacer := Closing, lock := Free)
    case CloseTicks => s.(pacer := Ended, ticksClosed := true)
  }

  /** A worker takes a tick: a synchronous one is inside the request until it ends. */
  function Take(c: Config, w: Worker, number: nat): Worker {
    w.(pending := w.pending + {number}, phase := if c.async then w.phase else Calling)
  }

  function Deactivate(workers: seq<Worker>, i: nat): seq<Worker>
    requires i < |workers|
  {
    workers[i := workers[i].(active := false)]
  }

  function GiveStop(c: Config, workers: seq<Worker>, i: nat): seq<Worker>
    requires i < |workers|
  {
    workers[i := workers[i].(phase := if c.async then Waiting else Reporting, stops := workers[i].stops + 1)]
  }

  // ---------- the goroutine controlling the workers ----------

  predicate ControlEnabled(c: Config, s: State, step: ControlStep) {
    match step
    case Receive(tick) => s.control.Receiving? && !s.tickerClosed
    case SeeClosed => s.control.Receiving? && s.tickerClosed
    case Append => s.control.Creating? && s.control.left > 0 && s.lock.Free? && s.nextConn < c.conns
    case Appended => s.control.Creating? && s.control.left == 0
    case LockToRemove => s.control.Locking? && s.lock.Free?
    case SkipRemove => InRemoval(s) && !s.workers[s.control.i].active
    case SetRemove => InRemoval(s) && s.workers[s.control.i].active
    case HandRemove =>
      s.control.HandingRemove? && s.control.i < |s.workers| && s.workers[s.control.i].phase.Selecting?
    case UnlockRemove => s.control.Removing? && !InRemoval(s)
    case NextTick => s.control.TickHandled?
  }

  /** The removal loop has neither removed enough workers nor seen them all. */
  predicate InRemoval(s: State) {
    s.control.Removing? && s.control.removed != s.control.want && s.control.i < |s.workers|
  }

  function ControlApply(c: Config, s: State, step: ControlStep): State
    requires ControlEnabled(c, s, step)
  {
    match step
    case Receive(tick) =>
      s.(control := if tick.delta > 0 then Creating(tick.delta, tick.done)
                    else if tick.delta < 0 then Locking(-tick.delta, tick.done)
                    else TickHandled(tick.done),
         received := s.received + [tick])
    case SeeClosed => s.(control := Exited)
    case Append =>
      s.(control := Creating(s.control.left - 1, s.control.done),
         workers := s.workers + [Worker(s.nextConn, true, Created, {}, 0)],
         nextConn := if s.nextConn + 1 == c.conns then 0 else s.nextConn + 1)
    case Appended => s.(control := TickHandled(s.control.done))
    case LockToRemove => s.(control := Removing(0, 0, s.control.want, s.control.done), lock := HeldByControl)
    case SkipRemove => s.(control := Removing(s.control.i + 1, s.control.removed, s.control.want, s.control.done))
    case SetRemove =>
      s.(control := HandingRemove(s.control.i, s.control.removed, s.control.want, s.control.done),
         workers := Deactivate(s.workers, s.control.i))
    case HandRemove =>
      s.(control := Removing(s.control.i + 1, s.control.removed + 1, s.control.want, s.control.done),
         workers := GiveStop(c, s.workers, s.control.i))
    case UnlockRemove => s.(control := TickHandled(s.control.done), lock := Free)
    case NextTick => s.(control := if s.control.done then Exited else Receiving)
  }

  // ---------- the workers ----------

  predicate WorkerEnabled(c: Config, s: State, w: nat, step: WorkerStep) {
    && w < |s.workers|
    && match step
       case Begin => s.workers[w].phase.Created?
       case End(number) => number in s.workers[w].pending
       case ReadZeroTick => s.ticksClosed && s.workers[w].phase.Selecting?
       case GroupDone => s.workers[w].phase.Waiting? && s.workers[w].pending == {}
       case Report => s.workers[w].phase.Reporting? && s.errs < c.errCap
       case ReportDirectly =>
         s.workers[w].phase.Reporting? && s.errs == 0 && s.main.Collecting? && s.main.got < s.main.want
  }

  function WorkerAfter(c: Config, worker: Worker, step: WorkerStep): Worker {
    match step
    case Begin => worker.(phase := Selecting)
    case End(number) =>
      worker.(pending := worker.pending - {number}, phase := if worker.phase.Calling? then Selecting else worker.phase)
    case ReadZeroTick => Take(c, worker, 0)
    case GroupDone => worker.(phase := Reporting)
    case Report => worker.(phase := Gone)
    case ReportDirectly => worker.(phase := Gone)
  }

  function WorkerApply(c: Config, s: State, w: nat, step: WorkerStep): State
    requires WorkerEnabled(c, s, w, step)
  {
    var t := s.(workers := s.workers[w := WorkerAfter(c, s.workers[w], step)]);
    match step
    case End(number) => t.(finished := t.finished + {number})
    case Report => t.(errs := t.errs + 1)
    case ReportDirectly => t.(main := Collecting(t.main.want, t.main.got + 1))
    case _ => t
  }

  // ---------- the function itself ----------

  predicate MainEnabled(s: State, step: MainStep) {
    match step
    case Count => s.main.Counting? && s.lock.Free?
    case Collect => s.main.Collecting? && s.main.got < s.main.want && s.errs > 0
    case Return => s.main.Collecting? && s.main.got == s.main.want
  }

  function MainApply(s: State, step: MainStep): State
    requires MainEnabled(s, step)
  {
    match step
    case Count => s.(main := Collecting(|s.workers|, 0), complete := s.control.Exited?)
    case Collect => s.(main := Collecting(s.main.want, s.main.got + 1), errs := s.errs - 1)
    case Return => s.(main := Returned(s.main.want))
  }

  // ---------- steps and runs ----------

  predicate Enabled(c: Config, s: State, step: Step) {
    match step
    case P(p) => PacerEnabled(c, s, p)
    case C(k) => ControlEnabled(c, s, k)
    case W(w, k) => WorkerEnabled(c, s, w, k)
    case M(m) => MainEnabled(s, m)
    case RequestStop => !s.stopRequested
  }

  function Apply(c: Config, s: State, step: Step): State
    requires Enabled(c, s, step)
  {
    match step
    case P(p) => PacerApply(c, s, p)
    case C(k) => ControlApply(c, s, k)
    case W(w, k) => WorkerApply(c, s, w, k)
    case M(m) => MainApply(s, m)
    case RequestStop => s.(stopRequested := true)
  }

  /** The state after some steps, or nothing if one of them was not possible. */
  datatype Outcome = Impossible | Reached(state: State)

  function Exec(c: Config, s: State, steps: seq<Step>): Outcome {
    if steps == [] then
      Reached(s)
    else
      var n := |steps| - 1;
      match Exec(c, s, steps[..n])
      case Impossible => Impossible
      case Reached(t) => if Enabled(c, t, steps[n]) then Reached(Apply(c, t, steps[n])) else Impossible
  }

  /** A run of the whole function. */
  function Run(c: Config, steps: seq<Step>): Outcome {
    Exec(c, Init(), steps)
  }
}
