/** Concurrent calls to one data provider (runner/data.go): every interleaving of their lock
    sections, their parsing and their reads of the slices they were handed. */
module CacheRuns {
  import opened DataProviders
  import opened Options

  /** A call refers to a backing array by its index, so that a slice handed out on a hit keeps
      showing what other calls write into it. */
  datatype Call =
    | Arriving(r: nat, own: Option<seq<Message>>)
    | Missed(r: nat, own: Option<seq<Message>>)
    | Parsed(r: nat, own: Option<seq<Message>>, id: nat)
    | Holding(r: nat, own: Option<seq<Message>>, id: nat)
    | Failed(r: nat, own: Option<seq<Message>>)
    | Done(r: nat, own: Option<seq<Message>>, res: seq<Option<Message>>)

  datatype State = State(arrays: seq<Slice>, cur: nat, calls: seq<Call>)

  datatype Step = Begin(r: nat, own: Option<seq<Message>>) | Look(c: nat) | Parse(c: nat) | Store(c: nat) | Return(c: nat)

  /** A provider as `newDataProvider` leaves it. */
  ghost predicate Initial(cfg: Config, s: State) {
    s.calls == [] && |s.arrays| == 1 && s.cur == 0 && Sound(cfg, s.arrays[0])
  }

  predicate Enabled(cfg: Config, s: State, step: Step) {
    && s.cur < |s.arrays|
    && match step
       case Begin(_, _) => true
       case Look(c) => c < |s.calls| && s.calls[c].Arriving?
       case Parse(c) => c < |s.calls| && s.calls[c].Missed?
       case Store(c) => c < |s.calls| && s.calls[c].Parsed? && CanStore(cfg, s, s.calls[c])
       case Return(c) => c < |s.calls| && s.calls[c].Holding? && s.calls[c].id < |s.arrays|
  }

  /** The write section reads `inputs[0]` when it stores a single element. */
  predicate CanStore(cfg: Config, s: State, call: Call)
    requires call.Parsed?
  {
    call.id < |s.arrays| && (cfg.SlotOf(call.r) >= 0 ==> |s.arrays[call.id].slots| > 0)
  }

  function Apply(cfg: Config, s: State, step: Step): State
    requires Enabled(cfg, s, step)
  {
    match step
    case Begin(r, own) => s.(calls := s.calls + [Arriving(r, own)])
    case Look(c) =>
      var call := s.calls[c];
      var next := if Hit(s.arrays[s.cur], cfg.SlotOf(call.r)) then Holding(call.r, call.own, s.cur)
                  else Missed(call.r, call.own);
      s.(calls := s.calls[c := next])
    case Parse(c) =>
      var call := s.calls[c];
      var parsed := cfg.Parse(call.r, call.own);
      if parsed == None then s.(calls := s.calls[c := Failed(call.r, call.own)])
      else
        var id := |s.arrays|;
        var next := if cfg.Caches() then Parsed(call.r, call.own, id) else Holding(call.r, call.own, id);
        s.(arrays := s.arrays + [Slice(Pointers(parsed.value), |parsed.value|)], calls := s.calls[c := next])
    case Store(c) =>
      var call := s.calls[c];
      Write(cfg, s, call).(calls := s.calls[c := Holding(call.r, call.own, call.id)])
    case Return(c) =>
      var call := s.calls[c];
      s.(calls := s.calls[c := Done(call.r, call.own, cfg.Select(call.r, s.arrays[call.id].slots))])
  }

  /** The write section: the slice of inputs itself becomes the cache, or one slot of the current
      array changes, or a new array replaces it. */
  function Write(cfg: Config, s: State, call: Call): State
    requires s.cur < |s.arrays| && call.Parsed? && CanStore(cfg, s, call)
  {
    var i := cfg.SlotOf(call.r);
    var stored := Stored(s.arrays[s.cur], i, s.arrays[call.id].slots);
    if i < 0 then s.(cur := call.id)
    else if InPlace(s.arrays[s.cur], i) then s.(arrays := s.arrays[s.cur := stored])
    else s.(arrays := s.arrays + [stored], cur := |s.arrays|)
  }

  /** The states reached by the steps in turn; a step that is not enabled leads nowhere. */
  function Exec(cfg: Config, s: State, steps: seq<Step>): Option<State> {
    if steps == [] then Some(s)
    else
      match Exec(cfg, s, steps[..|steps| - 1])
      case None => None
      case Some(t) =>
        var step := steps[|steps| - 1];
        if Enabled(cfg, t, step) then Some(Apply(cfg, t, step)) else None
  }

  // ---------- the invariant ----------

  ghost predicate CallOk(cfg: Config, arrays: seq<Slice>, cur: nat, call: Call) {
    match call
    case Arriving(_, _) => true
    case Missed(_, _) => true
    case Parsed(r, own, id) =>
      && cfg.Caches() && id < |arrays| && (cfg.PerElement() ==> id != cur)
      && cfg.Parse(r, own).Some? && arrays[id].slots == Pointers(cfg.Parse(r, own).value)
      && arrays[id].cap == |arrays[id].slots|
    case Holding(r, own, id) => id < |arrays| && Serves(cfg, arrays[id].slots, r, own)
    case Failed(r, own) => cfg.Uncached(r, own) == None
    case Done(r, own, res) => cfg.Uncached(r, own) == Some(res)
  }

  ghost predicate Inv(cfg: Config, s: State) {
    && s.cur < |s.arrays| && Sound(cfg, s.arrays[s.cur])
    && forall c :: 0 <= c < |s.calls| ==> CallOk(cfg, s.arrays, s.cur, s.calls[c])
  }

  /** A fresh array disturbs no call. */
  lemma CallOkAfterAlloc(cfg: Config, arrays: seq<Slice>, cur: nat, call: Call, extra: Slice)
    requires cur < |arrays| && CallOk(cfg, arrays, cur, call)
    ensures CallOk(cfg, arrays + [extra], cur, call)
  {
    hide Serves, Config.Uncached, Config.Parse;
  }

  /** Writing one element in place disturbs no call, not even one that holds the same array. */
  lemma CallOkAfterWrite(cfg: Config, arrays: seq<Slice>, cur: nat, call: Call, r: nat, own: Option<seq<Message>>)
    requires cur < |arrays| && Sound(cfg, arrays[cur]) && CallOk(cfg, arrays, cur, call)
    requires cfg.Caches() && cfg.PerElement() && cfg.Parse(r, own).Some?
    ensures |cfg.Parse(r, own).value| == 1
    ensures CallOk(cfg, arrays[cur := Stored(arrays[cur], cfg.SlotOf(r), Pointers(cfg.Parse(r, own).value))], cur, call)
  {
    if call.Holding? && call.id == cur {
      ServesAfterWrite(cfg, arrays[cur], call.r, call.own, r, own);
    }
    hide Serves, Config.Uncached, Sound, Stored;
  }

  lemma ServesAfterWrite(cfg: Config, cached: Slice, r: nat, own: Option<seq<Message>>, w: nat, ownW: Option<seq<Message>>)
    requires Sound(cfg, cached) && Serves(cfg, cached.slots, r, own)
    requires cfg.Caches() && cfg.PerElement() && cfg.Parse(w, ownW).Some?
    ensures Serves(cfg, Stored(cached, cfg.SlotOf(w), Pointers(cfg.Parse(w, ownW).value)).slots, r, own)
  {
  }

  lemma CallOkAfterSwitch(cfg: Config, arrays: seq<Slice>, cur: nat, next: nat, call: Call)
    requires CallOk(cfg, arrays, cur, call) && !cfg.PerElement()
    ensures CallOk(cfg, arrays, next, call)
  {
    hide Serves, Config.Uncached, Config.Parse;
  }

  lemma BeginKeepsInv(cfg: Config, s: State, r: nat, own: Option<seq<Message>>)
    requires Inv(cfg, s)
    ensures Inv(cfg, Apply(cfg, s, Begin(r, own)))
  {
    hide Sound, CallOk;
    ArrivalIsOk(cfg, s, r, own);
  }

  lemma ArrivalIsOk(cfg: Config, s: State, r: nat, own: Option<seq<Message>>)
    ensures CallOk(cfg, s.arrays, s.cur, Arriving(r, own)) && CallOk(cfg, s.arrays, s.cur, Missed(r, own))
  {
  }

  lemma LookKeepsInv(cfg: Config, s: State, c: nat)
    requires Inv(cfg, s) && Enabled(cfg, s, Look(c))
    ensures Inv(cfg, Apply(cfg, s, Look(c)))
  {
    var call := s.calls[c];
    ArrivalIsOk(cfg, s, call.r, call.own);
    if Hit(s.arrays[s.cur], cfg.SlotOf(call.r)) {
      HitServes(cfg, s.arrays[s.cur], call.r, call.own);
      assert CallOk(cfg, s.arrays, s.cur, Holding(call.r, call.own, s.cur));
    }
    hide Sound, CallOk, Hit;
  }

  lemma ParseKeepsInv(cfg: Config, s: State, c: nat)
    requires Inv(cfg, s) && Enabled(cfg, s, Parse(c))
    ensures Inv(cfg, Apply(cfg, s, Parse(c)))
  {
    var call := s.calls[c];
    var parsed := cfg.Parse(call.r, call.own);
    var t := Apply(cfg, s, Parse(c));
    if parsed == None {
      assert CallOk(cfg, s.arrays, s.cur, Failed(call.r, call.own));
      hide Sound, CallOk;
    } else {
      ParsedServes(cfg, call.r, call.own);
      assert CallOk(cfg, t.arrays, t.cur, t.calls[c]);
      hide Sound, CallOk;
      forall k | 0 <= k < |t.calls| ensures CallOk(cfg, t.arrays, t.cur, t.calls[k]) {
        if k != c {
          CallOkAfterAlloc(cfg, s.arrays, s.cur, s.calls[k], Slice(Pointers(parsed.value), |parsed.value|));
        }
      }
    }
  }

  lemma StoreKeepsInv(cfg: Config, s: State, c: nat)
    requires Inv(cfg, s) && Enabled(cfg, s, Store(c))
    ensures Inv(cfg, Apply(cfg, s, Store(c)))
  {
    var call := s.calls[c];
    var t := Apply(cfg, s, Store(c));
    StoreKeepsSound(cfg, s.arrays[s.cur], call.r, call.own);
    ParsedServes(cfg, call.r, call.own);
    if cfg.PerElement() {
      ElementStored(cfg, s, c);
    } else {
      WholeStored(cfg, s, c);
    }
  }

  lemma ElementStored(cfg: Config, s: State, c: nat)
    requires Inv(cfg, s) && Enabled(cfg, s, Store(c)) && cfg.PerElement()
    ensures Inv(cfg, Apply(cfg, s, Store(c)))
  {
    var call := s.calls[c];
    var t := Apply(cfg, s, Store(c));
    StoreKeepsSound(cfg, s.arrays[s.cur], call.r, call.own);
    ParsedServes(cfg, call.r, call.own);
    assert CallOk(cfg, s.arrays, s.cur, call);
    assert CallOk(cfg, t.arrays, t.cur, t.calls[c]);
    hide Sound, CallOk, Stored, InPlace, Serves, Config.Parse;
    forall k | 0 <= k < |t.calls| ensures CallOk(cfg, t.arrays, t.cur, t.calls[k]) {
      if k != c {
        CallOkAfterWrite(cfg, s.arrays, s.cur, s.calls[k], call.r, call.own);
      }
    }
  }

  lemma WholeStored(cfg: Config, s: State, c: nat)
    requires Inv(cfg, s) && Enabled(cfg, s, Store(c)) && !cfg.PerElement()
    ensures Inv(cfg, Apply(cfg, s, Store(c)))
  {
    var call := s.calls[c];
    var t := Apply(cfg, s, Store(c));
    StoreKeepsSound(cfg, s.arrays[s.cur], call.r, call.own);
    ParsedServes(cfg, call.r, call.own);
    assert CallOk(cfg, s.arrays, s.cur, call);
    assert CallOk(cfg, t.arrays, t.cur, t.calls[c]);
    hide Sound, CallOk, Stored, Serves, Config.Parse;
    forall k | 0 <= k < |t.calls| ensures CallOk(cfg, t.arrays, t.cur, t.calls[k]) {
      if k != c {
        CallOkAfterSwitch(cfg, s.arrays, s.cur, t.cur, s.calls[k]);
      }
    }
  }

  lemma ReturnKeepsInv(cfg: Config, s: State, c: nat)
    requires Inv(cfg, s) && Enabled(cfg, s, Return(c))
    ensures Inv(cfg, Apply(cfg, s, Return(c)))
  {
    assert CallOk(cfg, s.arrays, s.cur, s.calls[c]);
    assert CallOk(cfg, s.arrays, s.cur, Apply(cfg, s, Return(c)).calls[c]);
    hide Sound, CallOk, Serves;
  }

  lemma StepKeepsInv(cfg: Config, s: State, step: Step)
    requires Inv(cfg, s) && Enabled(cfg, s, step)
    ensures Inv(cfg, Apply(cfg, s, step))
  {
    hide Inv, Apply;
    match step
    case Begin(r, own) => BeginKeepsInv(cfg, s, r, own);
    case Look(c) => LookKeepsInv(cfg, s, c);
    case Parse(c) => ParseKeepsInv(cfg, s, c);
    case Store(c) => StoreKeepsInv(cfg, s, c);
    case Return(c) => ReturnKeepsInv(cfg, s, c);
  }

  lemma {:induction false} RunKeepsInv(cfg: Config, s: State, steps: seq<Step>)
    requires Initial(cfg, s) && Exec(cfg, s, steps).Some?
    ensures Inv(cfg, Exec(cfg, s, steps).value)
  {
    hide Inv, Apply, Enabled;
    if steps == [] {
      InitialInv(cfg, s);
    } else {
      var front := steps[..|steps| - 1];
      RunKeepsInv(cfg, s, front);
      StepKeepsInv(cfg, Exec(cfg, s, front).value, steps[|steps| - 1]);
    }
  }

  lemma InitialInv(cfg: Config, s: State)
    requires Initial(cfg, s)
    ensures Inv(cfg, s)
  {
  }

  // ---------- results ----------

  /** The cache cannot be seen: in every interleaving, each call that returns returns the data promised for
      its number, and a call fails only if it is promised an error. */
  lemma CacheIsTransparent(cfg: Config, s: State, steps: seq<Step>, c: nat)
    requires Initial(cfg, s) && Exec(cfg, s, steps).Some? && c < |Exec(cfg, s, steps).value.calls|
    ensures var call := Exec(cfg, s, steps).value.calls[c];
            && (call.Done? ==> IsDataFor(cfg, call.r, call.own, Some(call.res)))
            && (call.Failed? ==> IsDataFor(cfg, call.r, call.own, None))
  {
    RunKeepsInv(cfg, s, steps);
    var call := Exec(cfg, s, steps).value.calls[c];
    UncachedIsDataFor(cfg, call.r, call.own, cfg.Uncached(call.r, call.own));
    assert CallOk(cfg, Exec(cfg, s, steps).value.arrays, Exec(cfg, s, steps).value.cur, Exec(cfg, s, steps).value.calls[c]);
    hide Sound, Exec, Config.Uncached, Serves, IsDataFor;
  }

  /** Writing never empties a slot and never leaves the first array. */
  lemma StepStays(cfg: Config, s: State, step: Step, k: nat)
    requires Inv(cfg, s) && Enabled(cfg, s, step) && cfg.Caches() && cfg.PerElement()
    requires k < |s.arrays[s.cur].slots|
    ensures var t := Apply(cfg, s, step);
            && t.cur == s.cur < |t.arrays|
            && k < |t.arrays[t.cur].slots|
            && (s.arrays[s.cur].slots[k] != None ==> t.arrays[t.cur].slots[k] != None)
  {
    match step
    case Store(c) =>
      var call := s.calls[c];
      assert CallOk(cfg, s.arrays, s.cur, call);
      StoreKeepsSound(cfg, s.arrays[s.cur], call.r, call.own);
      hide Sound, CallOk, Config.Parse;
    case _ =>
      hide Sound, CallOk, Hit;
  }

  lemma {:induction false} RunStays(cfg: Config, s: State, steps: seq<Step>, k: nat)
    requires Initial(cfg, s) && Exec(cfg, s, steps).Some? && cfg.Caches() && cfg.PerElement()
    requires k < |s.arrays[0].slots|
    ensures var t := Exec(cfg, s, steps).value;
            && t.cur == 0 < |t.arrays|
            && k < |t.arrays[0].slots|
            && (s.arrays[0].slots[k] != None ==> t.arrays[0].slots[k] != None)
  {
    hide Inv, Apply, Enabled, Sound;
    if steps == [] {
    } else {
      var front := steps[..|steps| - 1];
      RunStays(cfg, s, front, k);
      RunKeepsInv(cfg, s, front);
      StepStays(cfg, Exec(cfg, s, front).value, steps[|steps| - 1], k);
    }
  }

  /** Data kept element by element stays in one array for good, each slot empty or holding the parse
      of its own element, and a filled slot stays filled. */
  lemma SlotsHoldTheirElements(cfg: Config, s: State, steps: seq<Step>, k: nat)
    requires Initial(cfg, s) && Exec(cfg, s, steps).Some? && cfg.Caches() && cfg.PerElement() && k < |cfg.elements|
    ensures var t := Exec(cfg, s, steps).value;
            && t.cur == 0 < |t.arrays|
            && |t.arrays[0].slots| == |cfg.elements| == t.arrays[0].cap
            && (t.arrays[0].slots[k] != None ==> t.arrays[0].slots[k] == cfg.elements[k])
            && (s.arrays[0].slots[k] != None ==> t.arrays[0].slots[k] != None)
  {
    hide Exec, CallOk;
    RunStays(cfg, s, steps, k);
    RunKeepsInv(cfg, s, steps);
  }

  /** A call about to store an element writes it into the array that is there: nothing grows, nothing
      is appended, and the list it stores from is never empty. */
  lemma NothingGrows(cfg: Config, s: State, steps: seq<Step>, c: nat)
    requires Initial(cfg, s) && Exec(cfg, s, steps).Some? && c < |Exec(cfg, s, steps).value.calls|
    requires Exec(cfg, s, steps).value.calls[c].Parsed?
    ensures var t := Exec(cfg, s, steps).value;
            && Enabled(cfg, t, Store(c))
            && (cfg.PerElement() ==> InPlace(t.arrays[t.cur], cfg.SlotOf(t.calls[c].r)))
            && (!cfg.PerElement() ==> cfg.SlotOf(t.calls[c].r) == -1)
  {
    RunKeepsInv(cfg, s, steps);
    var t := Exec(cfg, s, steps).value;
    assert CallOk(cfg, t.arrays, t.cur, t.calls[c]);
    StoreKeepsSound(cfg, t.arrays[t.cur], t.calls[c].r, t.calls[c].own);
    hide Exec, Sound, CallOk;
  }
}
