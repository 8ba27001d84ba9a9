/** The reservoir of `Reporter.Run` (runner/reporter.go): Algorithm R over the counted results,
    which are named by their position. Its randomness is the sequence of draws; counting draw
    sequences shows that the sample is uniform, item by item and as a whole. */
module Reservoirs {

  /** The positions kept after k counted results, in the order of the `details` slice. The draw
      for result i, taken once the reservoir is full, is `draws[i - max]`. */
  function Keep(k: nat, max: nat, draws: seq<nat>): (kept: seq<nat>)
    requires |draws| >= k - max
    ensures |kept| == if k <= max then k else max
    ensures forall s :: 0 <= s < |kept| ==> kept[s] < k
    ensures forall s, t :: 0 <= s < t < |kept| ==> kept[s] != kept[t]
  {
    if k == 0 then
      []
    else
      var before := Keep(k - 1, max, draws);
      if |before| < max then
        before + [k - 1]
      else
        var j := draws[k - 1 - max];
        if j < max then before[j := k - 1] else before
  }

  /** The possible draw sequences: the draw for result k-1 is below the count k it has reached. */
  function AllDraws(k: nat, max: nat): set<seq<nat>> {
    if k <= max then {[]}
    else set c, j | c in AllDraws(k - 1, max) && j in Range(0, k) :: c + [j]
  }

  function Range(lo: nat, hi: nat): (r: set<nat>)
    ensures forall j :: j in r <==> lo <= j < hi
  {
    if lo >= hi then {} else Range(lo, hi - 1) + {hi - 1}
  }

  /** A draw sequence holds one draw for every result past the reservoir size, each in range. */
  lemma {:induction false} DrawsAreInRange(k: nat, max: nat, draws: seq<nat>)
    ensures draws in AllDraws(k, max) <==>
              |draws| == (if k <= max then 0 else k - max) && forall t :: 0 <= t < |draws| ==> draws[t] < max + t + 1
  {
    if k <= max {
    } else {
      LastDraw(k, max, draws);
      if draws != [] {
        var front := draws[..|draws| - 1];
        DrawsAreInRange(k - 1, max, front);
        assert draws == front + [draws[|draws| - 1]];
      }
    }
  }

  lemma LastDraw(k: nat, max: nat, draws: seq<nat>)
    requires k > max
    ensures draws in AllDraws(k, max) <==>
              draws != [] && draws[..|draws| - 1] in AllDraws(k - 1, max) && draws[|draws| - 1] < k
  {
    if draws in AllDraws(k, max) {
      var c, j :| c in AllDraws(k - 1, max) && j in Range(0, k) && draws == c + [j];
      assert draws[..|draws| - 1] == c;
    }
    if draws != [] {
      assert draws == draws[..|draws| - 1] + [draws[|draws| - 1]];
    }
  }

  /** Draws beyond result k-1 do not matter for the first k results. */
  lemma {:induction false} KeepIgnoresLater(k: nat, max: nat, draws: seq<nat>, j: nat)
    requires |draws| >= k - max
    ensures Keep(k, max, draws + [j]) == Keep(k, max, draws)
  {
    if k == 0 {
    } else {
      KeepIgnoresLater(k - 1, max, draws, j);
    }
  }

  // ---------- counting ----------

  /** The elements of `total` that lie over c. */
  ghost function Fiber<A, B>(total: set<B>, over: B -> A, c: A): set<B> {
    set t | t in total && over(t) == c
  }

  /** If every element of `base` has exactly n elements of `total` over it, `total` is n times as
      large. */
  lemma {:induction false} FiberCount<A, B>(base: set<A>, total: set<B>, over: B -> A, n: nat)
    requires forall t :: t in total ==> over(t) in base
    requires forall c :: c in base ==> |Fiber(total, over, c)| == n
    ensures |total| == n * |base|
  {
    if base == {} {
      assert total == {};
    } else {
      var c :| c in base;
      var rest := total - Fiber(total, over, c);
      forall d | d in base - {c}
        ensures |Fiber(rest, over, d)| == n
      {
        OtherFiber(total, over, c, d);
      }
      FiberCount(base - {c}, rest, over, n);
      TakeAway(total, over, c);
      hide Fiber;
      OneLess(n, |base|, |base - {c}|);
    }
  }

  lemma OneLess(n: nat, size: nat, rest: nat)
    requires size == rest + 1
    ensures n * size == n * rest + n
  {
  }

  lemma OtherFiber<A, B>(total: set<B>, over: B -> A, c: A, d: A)
    requires c != d
    ensures Fiber(total - Fiber(total, over, c), over, d) == Fiber(total, over, d)
  {
  }

  lemma TakeAway<A, B>(total: set<B>, over: B -> A, c: A)
    ensures |total| == |total - Fiber(total, over, c)| + |Fiber(total, over, c)|
  {
    var fiber := Fiber(total, over, c);
    assert total == (total - fiber) + fiber;
  }

  function Extensions(c: seq<nat>, next: set<nat>): set<seq<nat>> {
    set j | j in next :: c + [j]
  }

  lemma {:induction false} ExtensionCount(c: seq<nat>, next: set<nat>)
    ensures |Extensions(c, next)| == |next|
  {
    if next == {} {
    } else {
      var j :| j in next;
      ExtensionCount(c, next - {j});
      forall i | i in next - {j}
        ensures c + [i] != c + [j]
      {
        assert (c + [i])[|c|] == i;
        assert (c + [j])[|c|] == j;
      }
      assert Extensions(c, next) == Extensions(c, next - {j}) + {c + [j]};
    }
  }

  lemma {:induction false} RangeCount(lo: nat, hi: nat)
    requires lo <= hi
    ensures |Range(lo, hi)| == hi - lo
  {
    if lo == hi {
    } else {
      RangeCount(lo, hi - 1);
    }
  }

  function Front(c: seq<nat>): seq<nat> {
    if c == [] then [] else c[..|c| - 1]
  }

  /** Draw sequences for k+1 results whose front lies in `base` and whose last draw is one of the
      `n` that `next` allows for that front. */
  lemma CountByFront(base: set<seq<nat>>, total: set<seq<nat>>, next: seq<nat> -> set<nat>, n: nat)
    requires forall t :: t in total <==> t != [] && Front(t) in base && t[|t| - 1] in next(Front(t))
    requires forall c :: c in base ==> |next(c)| == n
    ensures |total| == n * |base|
  {
    var over := t => Front(t);
    forall c | c in base
      ensures |Fiber(total, over, c)| == n
    {
      var fiber := Fiber(total, over, c);
      FiberIsExtensions(base, total, next, c, fiber);
      ExtensionCount(c, next(c));
    }
    FiberCount(base, total, over, n);
  }

  lemma FiberIsExtensions(base: set<seq<nat>>, total: set<seq<nat>>, next: seq<nat> -> set<nat>, c: seq<nat>, fiber: set<seq<nat>>)
    requires forall t :: t in total <==> t != [] && Front(t) in base && t[|t| - 1] in next(Front(t))
    requires c in base && fiber == set t | t in total && Front(t) == c
    ensures fiber == Extensions(c, next(c))
  {
    forall t | t in Extensions(c, next(c))
      ensures t in fiber
    {
      var j :| j in next(c) && t == c + [j];
      assert Front(t) == c;
    }
    forall t | t in fiber
      ensures t in Extensions(c, next(c))
    {
      assert t == c + [t[|t| - 1]];
    }
  }

  // ---------- every item is kept equally often ----------

  /** The draw sequences after which result i is still among the kept ones. */
  function Keeping(k: nat, max: nat, i: nat): set<seq<nat>> {
    set c | c in AllDraws(k, max) && KeptIn(k, max, c, i)
  }

  predicate KeptIn(k: nat, max: nat, c: seq<nat>, i: nat) {
    |c| >= k - max && i in Keep(k, max, c)
  }

  function Slot(kept: seq<nat>, i: nat): (s: nat)
    requires i in kept
    ensures s < |kept| && kept[s] == i
  {
    if kept[0] == i then 0 else 1 + Slot(kept[1..], i)
  }

  lemma DrawCount(k: nat, max: nat)
    requires k >= max
    ensures |AllDraws(k + 1, max)| == (k + 1) * |AllDraws(k, max)|
  {
    forall t
      ensures t in AllDraws(k + 1, max) <==>
                t != [] && Front(t) in AllDraws(k, max) && t[|t| - 1] in ((c: seq<nat>) => Range(0, k + 1))(Front(t))
    {
      LastDraw(k + 1, max, t);
    }
    RangeCount(0, k + 1);
    CountByFront(AllDraws(k, max), AllDraws(k + 1, max), c => Range(0, k + 1), k + 1);
  }

  /** What one more result does: draw j evicts slot j and no other. */
  lemma OneMore(k: nat, max: nat, c: seq<nat>, j: nat, i: nat)
    requires k >= max && c in AllDraws(k, max)
    ensures |c| == k - max
    ensures Keep(k + 1, max, c + [j]) == if j < max then Keep(k, max, c)[j := k] else Keep(k, max, c)
    ensures i < k ==> (i in Keep(k + 1, max, c + [j]) <==> i in Keep(k, max, c) && !(j < max && Keep(k, max, c)[j] == i))
    ensures k in Keep(k + 1, max, c + [j]) <==> j < max
  {
    DrawsAreInRange(k, max, c);
    KeepIgnoresLater(k, max, c, j);
    var before, after := Keep(k, max, c), Keep(k + 1, max, c + [j]);
    if i < k && i in before {
      var s :| 0 <= s < |before| && before[s] == i;
      if j != s {
        assert after[s] == i;
      }
    }
    if j < max {
      assert after[j] == k;
    }
  }

  /** The draws that leave result i where it is. */
  function Sparing(k: nat, max: nat, c: seq<nat>, i: nat): set<nat> {
    if KeptIn(k, max, c, i) then Range(0, k + 1) - {Slot(Keep(k, max, c), i)} else {}
  }

  lemma SparingCount(k: nat, max: nat, c: seq<nat>, i: nat)
    requires k >= max && i < k && c in Keeping(k, max, i)
    ensures |Sparing(k, max, c, i)| == k
  {
    hide AllDraws, Range;
    RangeCount(0, k + 1);
    SlotInRange(k, max, c, i);
    WithoutElement(Range(0, k + 1), Slot(Keep(k, max, c), i));
  }

  lemma SlotInRange(k: nat, max: nat, c: seq<nat>, i: nat)
    requires k >= max && |c| >= k - max && i in Keep(k, max, c)
    ensures Slot(Keep(k, max, c), i) in Range(0, k + 1)
  {
  }

  lemma WithoutElement(s: set<nat>, x: nat)
    requires x in s
    ensures |s - {x}| == |s| - 1
  {
  }

  /** One more result multiplies the sequences that keep an earlier one by k: of the k+1 draws,
      exactly the one that hits its slot evicts it. */
  lemma KeepingGrows(k: nat, max: nat, i: nat)
    requires k >= max && i < k
    ensures |Keeping(k + 1, max, i)| == k * |Keeping(k, max, i)|
  {
    hide Keeping, Sparing;
    var next := (c: seq<nat>) => Sparing(k, max, c, i);
    forall c | c in Keeping(k, max, i)
      ensures |next(c)| == k
    {
      SparingCount(k, max, c, i);
    }
    forall t
      ensures t in Keeping(k + 1, max, i) <==> t != [] && Front(t) in Keeping(k, max, i) && t[|t| - 1] in next(Front(t))
    {
      KeepingFront(k, max, i, t);
    }
    CountByFront(Keeping(k, max, i), Keeping(k + 1, max, i), next, k);
  }

  lemma KeepingFront(k: nat, max: nat, i: nat, t: seq<nat>)
    requires k >= max && i < k
    ensures t in Keeping(k + 1, max, i) <==>
              t != [] && Front(t) in Keeping(k, max, i) && t[|t| - 1] in Sparing(k, max, Front(t), i)
  {
    LastDraw(k + 1, max, t);
    if t != [] && Front(t) in AllDraws(k, max) {
      var c, j := Front(t), t[|t| - 1];
      assert t == c + [j];
      OneMore(k, max, c, j, i);
      DistinctSlots(k, max, c, i, j);
    }
  }

  lemma DistinctSlots(k: nat, max: nat, c: seq<nat>, i: nat, j: nat)
    requires |c| >= k - max && k >= max
    ensures KeptIn(k, max, c, i) ==> (j == Slot(Keep(k, max, c), i) <==> j < max && Keep(k, max, c)[j] == i)
  {
  }

  /** The newest result is kept by the draws below the reservoir size. */
  lemma KeepingNewest(k: nat, max: nat)
    requires k >= max
    ensures |Keeping(k + 1, max, k)| == max * |AllDraws(k, max)|
  {
    hide Keeping, AllDraws, Range;
    var next := (c: seq<nat>) => Range(0, max);
    RangeCount(0, max);
    forall t
      ensures t in Keeping(k + 1, max, k) <==> t != [] && Front(t) in AllDraws(k, max) && t[|t| - 1] in next(Front(t))
    {
      NewestFront(k, max, t);
    }
    CountByFront(AllDraws(k, max), Keeping(k + 1, max, k), next, max);
  }

  lemma NewestFront(k: nat, max: nat, t: seq<nat>)
    requires k >= max
    ensures t in Keeping(k + 1, max, k) <==> t != [] && Front(t) in AllDraws(k, max) && t[|t| - 1] in Range(0, max)
  {
    LastDraw(k + 1, max, t);
    if t != [] && Front(t) in AllDraws(k, max) {
      assert t == Front(t) + [t[|t| - 1]];
      OneMore(k, max, Front(t), t[|t| - 1], k);
    }
  }

  /** Algorithm R keeps every counted result with probability max / k: of all draw sequences,
      the share that leaves result i in the sample is the same for every i. */
  lemma {:induction false} EveryItemEquallyOften(k: nat, max: nat, i: nat)
    requires k >= max && i < k
    ensures k * |Keeping(k, max, i)| == max * |AllDraws(k, max)|
  {
    hide Keeping, AllDraws;
    if k == max {
      AllKeptAtFirst(max, i);
    } else {
      DrawCount(k - 1, max);
      if i < k - 1 {
        EveryItemEquallyOften(k - 1, max, i);
        KeepingGrows(k - 1, max, i);
        Rearrange(k, k - 1, max, |Keeping(k - 1, max, i)|, |AllDraws(k - 1, max)|);
      } else {
        KeepingNewest(k - 1, max);
        Rearrange(k, max, max, |AllDraws(k - 1, max)|, |AllDraws(k - 1, max)|);
      }
    }
  }

  lemma Rearrange(k: nat, a: nat, b: nat, x: nat, y: nat)
    requires a * x == b * y
    ensures k * (a * x) == b * (k * y)
  {
    assert b * (k * y) == k * (b * y);
  }

  lemma {:induction false} AllKeptAtFirst(max: nat, i: nat)
    requires i < max
    ensures Keeping(max, max, i) == AllDraws(max, max) == {[]}
  {
    FirstAreKept(max, max, i, []);
  }

  lemma {:induction false} FirstAreKept(k: nat, max: nat, i: nat, c: seq<nat>)
    requires i < k <= max
    ensures i in Keep(k, max, c)
  {
    if i < k - 1 {
      FirstAreKept(k - 1, max, i, c);
      var before := Keep(k - 1, max, c);
      assert (before + [k - 1])[..|before|] == before;
    } else {
      assert Keep(k, max, c)[k - 1] == k - 1;
    }
  }
}
