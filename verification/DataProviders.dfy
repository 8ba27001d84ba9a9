/** The provider of call data and its cache of parsed messages (runner/data.go).
    Parsing is deterministic and may fail, so the configuration simply holds its results. */
module DataProviders {
  import opened Options

  datatype Message = Message(fields: string)

  /** A Go slice of message pointers; `None` is the nil pointer. */
  datatype Slice = Slice(slots: seq<Option<Message>>, cap: nat)

  /** `elements` are the parses of the members of a JSON array, one by one; `whole` is the parse of
      the data as a whole. Data that depends on the call (templates with actions, a binary data
      function) brings the result of its own parse with each call. */
  datatype Config = Config(
    binary: bool, hasDataFunc: bool, clientStreaming: bool, hasActions: bool,
    splits: bool, templateParses: bool,
    elements: seq<Option<Message>>, whole: Option<seq<Message>>)
  {
    /** Binary data is neither split into members nor searched for template actions. */
    predicate Valid() {
      && (binary ==> elements == [] && !hasActions && splits && templateParses)
      && (!binary ==> !hasDataFunc)
    }

    predicate PerElement() {
      !binary && !clientStreaming && |elements| > 0
    }

    predicate Caches() {
      if binary then !hasDataFunc else !hasActions
    }

    /** The cache slot a request is looked up in, or -1 for the whole data. */
    function SlotOf(r: nat): (i: int)
      ensures -1 <= i && (PerElement() <==> 0 <= i < |elements|)
    {
      if PerElement() then r % |elements| else -1
    }

    /** What parsing gives this call. */
    function Parse(r: nat, own: Option<seq<Message>>): Option<seq<Message>> {
      if !Caches() then own
      else if PerElement() then
        var e := elements[SlotOf(r)];
        if e.Some? then Some([e.value]) else None
      else whole
    }

    /** What a call takes from the list of inputs it was given. */
    function Select(r: nat, inputs: seq<Option<Message>>): seq<Option<Message>> {
      if !clientStreaming && |inputs| > 0 then [inputs[r % |inputs|]] else inputs
    }

    /** What the call would return if nothing was ever cached; `None` is an error. */
    function Uncached(r: nat, own: Option<seq<Message>>): Option<seq<Option<Message>>> {
      match Parse(r, own)
      case None => None
      case Some(inputs) => Some(Select(r, Pointers(inputs)))
    }
  }

  function Pointers(inputs: seq<Message>): (p: seq<Option<Message>>)
    ensures |p| == |inputs| && forall k :: 0 <= k < |p| ==> p[k] == Some(inputs[k])
  {
    seq(|inputs|, k requires 0 <= k < |inputs| => Some(inputs[k]))
  }

  function Nils(n: nat): (p: seq<Option<Message>>)
    ensures |p| == n && forall k :: 0 <= k < n ==> p[k] == None
  {
    seq(n, _ => None)
  }

  // ---------- what a call is promised ----------

  /** The messages parsed for a call, picked from by its number unless the client streams them all. */
  ghost predicate IsPickFrom(cfg: Config, r: nat, parsed: Option<seq<Message>>, res: Option<seq<Option<Message>>>) {
    match parsed
    case None => res == None
    case Some(msgs) =>
      && res.Some?
      && if cfg.clientStreaming || msgs == [] then
           |res.value| == |msgs| && forall k :: 0 <= k < |msgs| ==> res.value[k] == Some(msgs[k])
         else
           res.value == [Some(msgs[r % |msgs|])]
  }

  /** What request r gets; `None` is an error. A JSON array without template actions gives it element r modulo
      the length, which has to parse on its own. Template actions and a data function give it a parse of its own,
      and everything else is parsed as a whole. */
  ghost predicate IsDataFor(cfg: Config, r: nat, own: Option<seq<Message>>, res: Option<seq<Option<Message>>>) {
    if !cfg.binary && !cfg.hasActions && !cfg.clientStreaming && cfg.elements != [] then
      var element := cfg.elements[r % |cfg.elements|];
      res == if element == None then None else Some([element])
    else if (cfg.binary && cfg.hasDataFunc) || (!cfg.binary && cfg.hasActions) then
      IsPickFrom(cfg, r, own, res)
    else
      IsPickFrom(cfg, r, cfg.whole, res)
  }

  /** Without a cache every call gets that. */
  lemma UncachedIsDataFor(cfg: Config, r: nat, own: Option<seq<Message>>, res: Option<seq<Option<Message>>>)
    ensures res == cfg.Uncached(r, own) <==> IsDataFor(cfg, r, own, res)
  {
    OnlyElement(r);
    PickIsSelection(cfg, r, own, res);
    PickIsSelection(cfg, r, cfg.whole, res);
    hide IsPickFrom, Config.Select;
    if cfg.PerElement() && cfg.Caches() {
      SingleIsSelected(cfg, r, cfg.elements[r % |cfg.elements|]);
    }
  }

  lemma PickIsSelection(cfg: Config, r: nat, parsed: Option<seq<Message>>, res: Option<seq<Option<Message>>>)
    ensures IsPickFrom(cfg, r, parsed, res) <==>
              res == if parsed == None then None else Some(cfg.Select(r, Pointers(parsed.value)))
  {
    if parsed.Some? && res.Some? && IsPickFrom(cfg, r, parsed, res) {
      assert res.value == cfg.Select(r, Pointers(parsed.value));
    }
  }

  lemma SingleIsSelected(cfg: Config, r: nat, element: Option<Message>)
    requires !cfg.clientStreaming
    ensures element.Some? ==> cfg.Select(r, Pointers([element.value])) == [element]
  {
    OnlyElement(r);
  }

  lemma OnlyElement(r: nat)
    ensures r % 1 == 0
  {
  }

  // ---------- the two lock sections, on values ----------

  /** The check made under the read lock. */
  predicate Hit(cached: Slice, i: int) {
    || (i < 0 && |cached.slots| > 0 && cached.slots[0] != None)
    || (i >= 0 && i < |cached.slots| && cached.slots[i] != None)
  }

  /** Whether the write section changes a slot of the current backing array or replaces the slice. */
  predicate InPlace(cached: Slice, i: int) {
    0 <= i < |cached.slots| && i < cached.cap
  }

  /** The slice after the write section. */
  function Stored(cached: Slice, i: int, inputs: seq<Option<Message>>): Slice
    requires i >= 0 ==> |inputs| > 0
  {
    if i < 0 then Slice(inputs, |inputs|)
    else
      var cap := if i >= cached.cap then cached.cap + i + 1 else cached.cap;
      if i < |cached.slots| then Slice(cached.slots[i := inputs[0]], cap)
      else
        var grown := cached.slots + inputs;
        Slice(grown, if |grown| > cap then |grown| else cap)
  }

  // ---------- what the cache holds ----------

  /** Every slot is empty or holds the parse of its own element; the other way of caching holds all
      of the parsed data or nothing; what depends on the call is never cached. */
  ghost predicate Sound(cfg: Config, cached: Slice) {
    if !cfg.Caches() then cached == Slice([], 0)
    else if cfg.PerElement() then
      && |cached.slots| == |cfg.elements| == cached.cap
      && forall k :: 0 <= k < |cached.slots| && cached.slots[k] != None ==> cached.slots[k] == cfg.elements[k]
    else
      || (forall k :: 0 <= k < |cached.slots| ==> cached.slots[k] == None)
      || (cfg.whole.Some? && cached.slots == Pointers(cfg.whole.value))
  }

  /** A list of inputs that gives request r what parsing would. */
  ghost predicate Serves(cfg: Config, inputs: seq<Option<Message>>, r: nat, own: Option<seq<Message>>) {
    cfg.Uncached(r, own) == Some(cfg.Select(r, inputs))
  }

  /** The slice that `newDataProvider` prepares before the first call. */
  function Prepared(cfg: Config): Slice {
    if !cfg.hasActions && |cfg.elements| > 0 then Slice(Nils(|cfg.elements|), |cfg.elements|) else Slice([], 0)
  }

  lemma PreparedIsSound(cfg: Config)
    requires cfg.Valid()
    ensures Sound(cfg, Prepared(cfg))
  {
  }

  /** A hit gives the call what parsing would. */
  lemma HitServes(cfg: Config, cached: Slice, r: nat, own: Option<seq<Message>>)
    requires Sound(cfg, cached) && Hit(cached, cfg.SlotOf(r))
    ensures Serves(cfg, cached.slots, r, own)
  {
  }

  lemma ParsedServes(cfg: Config, r: nat, own: Option<seq<Message>>)
    requires cfg.Parse(r, own).Some?
    ensures Serves(cfg, Pointers(cfg.Parse(r, own).value), r, own)
  {
  }

  /** Storing what was parsed keeps the cache sound, in place for a single element: the branches
      that grow the slice or append to it are never taken. */
  lemma StoreKeepsSound(cfg: Config, cached: Slice, r: nat, own: Option<seq<Message>>)
    requires Sound(cfg, cached) && cfg.Caches() && cfg.Parse(r, own).Some?
    ensures cfg.SlotOf(r) >= 0 ==>
              |cfg.Parse(r, own).value| == 1 && InPlace(cached, cfg.SlotOf(r)) && cfg.SlotOf(r) < cached.cap
    ensures Sound(cfg, Stored(cached, cfg.SlotOf(r), Pointers(cfg.Parse(r, own).value)))
  {
  }

  // ---------- the provider ----------

  class DataProvider {
    const cfg: Config
    /** The backing array of the cached slice; its length is the capacity. */
    var cachedMessages: array?<Option<Message>>
    var length: nat

    ghost predicate Valid()
      reads this
    {
      if cachedMessages == null then length == 0 else length <= cachedMessages.Length
    }

    ghost function View(): Slice
      reads this, cachedMessages
      requires Valid()
    {
      if cachedMessages == null then Slice([], 0) else Slice(cachedMessages[..length], cachedMessages.Length)
    }

    constructor (cfg: Config)
      ensures this.cfg == cfg && Valid() && View() == Prepared(cfg)
      ensures cachedMessages != null ==> fresh(cachedMessages)
    {
      this.cfg := cfg;
      cachedMessages, length := null, 0;
      new;
      if !cfg.hasActions && |cfg.elements| > 0 {
        cachedMessages := new Option<Message>[|cfg.elements|](_ => None);
        length := |cfg.elements|;
        assert cachedMessages[..length] == Nils(length);
      }
    }

    /** The section under the read lock. */
    method Lookup(i: int) returns (hit: bool)
      requires Valid()
      ensures hit == Hit(View(), i)
      ensures hit <==> var k := if i < 0 then 0 else i; k < |View().slots| && View().slots[k] != None
    {
      if cachedMessages != null {
        if (i < 0 && length > 0 && cachedMessages[0] != None)
          || (i >= 0 && i < length && cachedMessages[i] != None) {
          return true;
        }
      }
      return false;
    }

    /** The section under the write lock. */
    method Store(i: int, inputs: array<Option<Message>>)
      requires Valid() && inputs != cachedMessages
      requires i >= 0 ==> inputs.Length > 0
      modifies this, cachedMessages
      ensures Valid() && View() == Stored(old(View()), i, inputs[..])
      ensures i < 0 ==> View() == Slice(inputs[..], inputs.Length)
      ensures 0 <= i < |old(View()).slots| ==> View().slots == old(View()).slots[i := inputs[0]]
      ensures InPlace(old(View()), i) ==> cachedMessages == old(cachedMessages)
      ensures cachedMessages == old(cachedMessages) || cachedMessages == inputs || fresh(cachedMessages)
    {
      if i < 0 {
        cachedMessages, length := inputs, inputs.Length;
        assert View() == Slice(inputs[..], inputs.Length);
      } else {
        Grow(i);
        if i < length {
          cachedMessages[i] := inputs[0];
        } else {
          Append(inputs);
        }
      }
    }

    method Grow(i: nat)
      requires Valid()
      modifies this
      ensures Valid() && cachedMessages != null && length == old(length) && View().slots == old(View()).slots
      ensures i < View().cap == if i >= old(View()).cap then old(View()).cap + i + 1 else old(View()).cap
      ensures i < old(View()).cap ==> cachedMessages == old(cachedMessages)
      ensures cachedMessages == old(cachedMessages) || fresh(cachedMessages)
    {
      var cap := if cachedMessages == null then 0 else cachedMessages.Length;
      if i >= cap {
        var nc := new Option<Message>[cap + i + 1](_ => None);
        var k := 0;
        while k < length
          invariant 0 <= k <= length
          invariant cachedMessages == old(cachedMessages)
          invariant forall j :: 0 <= j < k ==> nc[j] == cachedMessages[j]
          modifies nc
        {
          nc[k] := cachedMessages[k];
          k := k + 1;
        }
        assert cachedMessages != null ==> nc[..length] == cachedMessages[..length];
        cachedMessages := nc;
      }
    }

    /** Go's `append`; how far it grows a full slice beyond need is up to the runtime. */
    method Append(inputs: array<Option<Message>>)
      requires Valid() && cachedMessages != null && inputs != cachedMessages
      modifies this, cachedMessages
      ensures Valid() && View().slots == old(View()).slots + inputs[..]
      ensures View().cap == if |View().slots| > old(View()).cap then |View().slots| else old(View()).cap
      ensures cachedMessages == old(cachedMessages) || fresh(cachedMessages)
    {
      var total := length + inputs.Length;
      if total > cachedMessages.Length {
        var nc := new Option<Message>[total](_ => None);
        forall k | 0 <= k < length { nc[k] := cachedMessages[k]; }
        assert nc[..length] == cachedMessages[..length];
        cachedMessages := nc;
      }
      assert cachedMessages[..length] == old(View()).slots;
      forall k | 0 <= k < inputs.Length { cachedMessages[length + k] := inputs[k]; }
      assert cachedMessages[..length] == old(View()).slots;
      length := total;
      assert cachedMessages[..total] == old(View()).slots + inputs[..];
    }

    /** One call on its own: look up, and on a miss parse and store. */
    method GetMessages(r: nat, i: int, own: Option<seq<Message>>) returns (inputs: Option<seq<Option<Message>>>)
      requires Valid() && Sound(cfg, View()) && i == cfg.SlotOf(r)
      modifies this, cachedMessages
      ensures Valid() && Sound(cfg, View())
      ensures cachedMessages == old(cachedMessages) || fresh(cachedMessages)
      ensures if inputs == None then cfg.Uncached(r, own) == None else Serves(cfg, inputs.value, r, own)
      ensures inputs != None && cfg.Caches() && i >= 0 ==> Hit(View(), i)
    {
      hide Sound, Serves, Config.Select;
      var hit := Lookup(i);
      if hit {
        HitServes(cfg, View(), r, own);
        return Some(cachedMessages[..length]);
      }
      var parsed := cfg.Parse(r, own);
      if parsed == None {
        return None;
      }
      ParsedServes(cfg, r, own);
      inputs := Some(Pointers(parsed.value));
      if cfg.Caches() {
        StoreKeepsSound(cfg, View(), r, own);
        var slots := new Option<Message>[|parsed.value|](k requires 0 <= k < |parsed.value| => Some(parsed.value[k]));
        assert slots[..] == Pointers(parsed.value);
        Store(i, slots);
      }
    }

    method GetDataForCall(r: nat, own: Option<seq<Message>>) returns (res: Option<seq<Option<Message>>>)
      requires Valid() && Sound(cfg, View())
      modifies this, cachedMessages
      ensures Valid() && Sound(cfg, View()) && (cachedMessages == old(cachedMessages) || fresh(cachedMessages))
      ensures IsDataFor(cfg, r, own, res)
      ensures res == cfg.Uncached(r, own)
      ensures res != None && cfg.Caches() && cfg.PerElement() ==> Hit(View(), cfg.SlotOf(r))
    {
      UncachedIsDataFor(cfg, r, own, cfg.Uncached(r, own));
      hide IsDataFor, Sound, Hit;
      var inputs := GetMessages(r, cfg.SlotOf(r), own);
      if inputs == None {
        return None;
      }
      return Some(cfg.Select(r, inputs.value));
    }

    /** Preparing a provider fails on an array that cannot be split and on a broken template; data without
        template actions is tried out with request number 0, and failing to parse it fails it too. */
    static method New(cfg: Config, own: Option<seq<Message>>) returns (dp: DataProvider?)
      requires cfg.Valid()
      ensures dp == null <==>
                !cfg.splits || !cfg.templateParses || (!cfg.hasActions && IsDataFor(cfg, 0, own, None))
      ensures dp != null ==> fresh(dp) && dp.cfg == cfg && dp.Valid() && Sound(cfg, dp.View())
      ensures dp != null && cfg.Caches() && cfg.PerElement() ==> Hit(dp.View(), 0)
    {
      hide Sound, Hit, Prepared, IsDataFor, Config.Uncached;
      UncachedIsDataFor(cfg, 0, own, None);
      if !cfg.splits || !cfg.templateParses {
        return null;
      }
      var p := new DataProvider(cfg);
      PreparedIsSound(cfg);
      if !cfg.hasActions {
        var res := p.GetDataForCall(0, own);
        if res == None {
          return null;
        }
      }
      return p;
    }
  }
}
