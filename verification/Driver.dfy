/** What a pacer answers, and the goroutine of `runWorkers` that obeys it. */
module Driver {
  import opened GoNumbers

  /** `Wait(ns)` is `(ns, false)` and `Stop` is `(0, true)`. `Panic` ends the program.
      `Unspecified` is an out-of-range conversion that Go leaves to the implementation. */
  datatype Pacing = Wait(ns: int) | Stop | Panic | Unspecified

  /** One turn of the sending loop: the time of the `Pace` call and the time of the send. */
  datatype Hit = Hit(call: int, send: int)

  type Pace = (int, int) -> Pacing

  /** Turn k was told to wait and slept at least that long; `Pace` saw k earlier hits. */
  ghost predicate ObeysAt(pace: Pace, run: seq<Hit>, k: int)
    requires 0 <= k < |run|
  {
    var answer := pace(run[k].call, k);
    && run[k].call >= (if k == 0 then 0 else run[k - 1].send)
    && answer.Wait?
    && run[k].send >= run[k].call + Max(answer.ns, 0)
  }

  /** Every turn of a run obeys the pacer, with any delay of the scheduler on top. */
  ghost predicate IsRun(pace: Pace, run: seq<Hit>) {
    forall k :: 0 <= k < |run| ==> ObeysAt(pace, run, k)
  }

  /** Turn k sleeps exactly as told, however late it was asked. */
  ghost predicate SleepsAsTold(pace: Pace, run: seq<Hit>, k: int)
    requires 0 <= k < |run|
  {
    var answer := pace(run[k].call, k);
    answer.Wait? && run[k].send == run[k].call + Max(answer.ns, 0)
  }

  /** Turn k of a driver without delays: it asks at once and sleeps exactly as told. */
  ghost predicate ExactAt(pace: Pace, run: seq<Hit>, k: int)
    requires 0 <= k < |run|
  {
    var answer := pace(run[k].call, k);
    && run[k].call == (if k == 0 then 0 else run[k - 1].send)
    && answer.Wait?
    && run[k].send == run[k].call + Max(answer.ns, 0)
  }

  ghost predicate IsExactRun(pace: Pace, run: seq<Hit>) {
    IsRun(pace, run) && forall k :: 0 <= k < |run| ==> ExactAt(pace, run, k)
  }

  /** Time never goes backwards along a run. */
  lemma {:induction false} SendsAreOrdered(pace: Pace, run: seq<Hit>, j: int, k: int)
    requires IsRun(pace, run) && 0 <= j <= k < |run|
    ensures 0 <= run[j].call <= run[j].send <= run[k].send
    decreases k
  {
    assert ObeysAt(pace, run, k);
    if k == 0 {
    } else {
      SendsAreOrdered(pace, run, if j < k then j else k - 1, k - 1);
    }
  }
}
