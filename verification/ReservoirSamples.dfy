/** The whole sample is uniform: every set of `max` results is the final reservoir for the same
    number of draw sequences (runner/reporter.go). */
module ReservoirSamples {
  import opened Reservoirs

  function Kept(k: nat, max: nat, c: seq<nat>): set<nat> {
    if |c| >= k - max then set s | 0 <= s < |Keep(k, max, c)| :: Keep(k, max, c)[s] else {}
  }

  /** The draw sequences whose final reservoir is exactly the sample. */
  function Yielding(k: nat, max: nat, sample: set<nat>): set<seq<nat>> {
    set c | c in AllDraws(k, max) && Kept(k, max, c) == sample
  }

  function Factorial(n: nat): nat {
    if n == 0 then 1 else n * Factorial(n - 1)
  }

  lemma {:induction false} DistinctCount(s: seq<nat>, elements: set<nat>)
    requires forall i, j :: 0 <= i < j < |s| ==> s[i] != s[j]
    requires forall x :: x in elements <==> x in s
    ensures |elements| == |s|
  {
    if s == [] {
      assert elements == {};
    } else {
      var n := |s| - 1;
      DistinctCount(s[..n], elements - {s[n]});
    }
  }

  lemma KeptCount(k: nat, max: nat, c: seq<nat>)
    requires k >= max && c in AllDraws(k, max)
    ensures |Kept(k, max, c)| == max && Kept(k, max, c) <= Range(0, k)
    ensures |c| == k - max && |Keep(k, max, c)| == max
  {
    DrawsAreInRange(k, max, c);
    DistinctCount(Keep(k, max, c), Kept(k, max, c));
  }

  lemma SameSizeSubset(a: set<nat>, b: set<nat>)
    requires a <= b && |a| == |b|
    ensures a == b
  {
    assert b == a + (b - a);
    assert |b - a| == 0;
  }

  /** The reservoir after one more draw. */
  lemma KeptAfter(k: nat, max: nat, c: seq<nat>, j: nat)
    requires k >= max && c in AllDraws(k, max)
    ensures |c| == k - max && |Keep(k, max, c)| == max
    ensures Kept(k + 1, max, c + [j]) ==
            if j < max then Kept(k, max, c) - {Keep(k, max, c)[j]} + {k} else Kept(k, max, c)
  {
    KeptCount(k, max, c);
    OneMore(k, max, c, j, 0);
    var before := Keep(k, max, c);
    if j < max {
      forall x
        ensures x in Kept(k + 1, max, c + [j]) <==> x in Kept(k, max, c) - {before[j]} + {k}
      {
        Replaced(before, j, k, x);
      }
    }
  }

  lemma Replaced(before: seq<nat>, j: nat, k: nat, x: nat)
    requires j < |before| && forall s, t :: 0 <= s < t < |before| ==> before[s] != before[t]
    ensures x in before[j := k] <==> (x in before && x != before[j]) || x == k
  {
    var after := before[j := k];
    assert after[j] == k;
    if x in before && x != before[j] {
      var s :| 0 <= s < |before| && before[s] == x;
      assert after[s] == x;
    }
  }

  // ---------- samples without the newest result ----------

  lemma WithoutNewestFront(k: nat, max: nat, sample: set<nat>, t: seq<nat>)
    requires k >= max && k !in sample
    ensures t in Yielding(k + 1, max, sample) <==>
              t != [] && Front(t) in Yielding(k, max, sample) && t[|t| - 1] in Range(max, k + 1)
  {
    LastDraw(k + 1, max, t);
    hide AllDraws, Kept;
    if t != [] && Front(t) in AllDraws(k, max) {
      assert t == Front(t) + [t[|t| - 1]];
      KeptAfter(k, max, Front(t), t[|t| - 1]);
    }
  }

  lemma WithoutNewest(k: nat, max: nat, sample: set<nat>)
    requires k >= max && k !in sample
    ensures |Yielding(k + 1, max, sample)| == (k + 1 - max) * |Yielding(k, max, sample)|
  {
    hide Yielding, Range;
    var next := (c: seq<nat>) => Range(max, k + 1);
    RangeCount(max, k + 1);
    forall t
      ensures t in Yielding(k + 1, max, sample) <==>
                t != [] && Front(t) in Yielding(k, max, sample) && t[|t| - 1] in next(Front(t))
    {
      WithoutNewestFront(k, max, sample, t);
    }
    CountByFront(Yielding(k, max, sample), Yielding(k + 1, max, sample), next, k + 1 - max);
  }

  // ---------- samples with the newest result ----------

  /** Draw sequences that keep all of `others`, and hence exactly one result more. */
  function Covering(k: nat, max: nat, others: set<nat>): set<seq<nat>> {
    set c | c in AllDraws(k, max) && others <= Kept(k, max, c)
  }

  /** The one kept result outside `others`. */
  ghost function Spare(k: nat, max: nat, others: set<nat>, c: seq<nat>): nat {
    if c in Covering(k, max, others) && Kept(k, max, c) - others != {} then
      var x :| x in Kept(k, max, c) - others; x
    else 0
  }

  lemma SpareIsUnique(k: nat, max: nat, others: set<nat>, c: seq<nat>)
    requires k >= max && |others| + 1 == max && c in Covering(k, max, others)
    ensures Kept(k, max, c) == others + {Spare(k, max, others, c)}
    ensures Spare(k, max, others, c) !in others && Spare(k, max, others, c) < k
    ensures Spare(k, max, others, c) in Keep(k, max, c)
  {
    KeptCount(k, max, c);
    var kept := Kept(k, max, c);
    assert kept == others + (kept - others);
    assert |kept - others| == 1;
    var x := Spare(k, max, others, c);
    assert |kept - others - {x}| == 0;
  }

  lemma OneNextDraw(k: nat, max: nat, others: set<nat>, c: seq<nat>)
    requires k >= max && |others| + 1 == max && c in Covering(k, max, others)
    ensures |NextDraw(k, max, others, c)| == 1
  {
    SpareIsUnique(k, max, others, c);
  }

  lemma WithNewestFront(k: nat, max: nat, others: set<nat>, t: seq<nat>)
    requires k >= max && |others| + 1 == max && others <= Range(0, k)
    ensures t in Yielding(k + 1, max, others + {k}) <==>
              t != [] && Front(t) in Covering(k, max, others) && t[|t| - 1] in NextDraw(k, max, others, Front(t))
  {
    LastDraw(k + 1, max, t);
    hide AllDraws, Kept, NextDraw;
    if t != [] && Front(t) in AllDraws(k, max) {
      assert t == Front(t) + [t[|t| - 1]];
      TurnsInto(k, max, others, Front(t), t[|t| - 1]);
    }
  }

  /** Exactly one draw turns such a reservoir into `others` and the newest result. */
  lemma WithNewestByFront(k: nat, max: nat, others: set<nat>)
    requires k >= max && |others| + 1 == max && others <= Range(0, k)
    ensures |Yielding(k + 1, max, others + {k})| == |Covering(k, max, others)|
  {
    var sample := others + {k};
    var next := (c: seq<nat>) => NextDraw(k, max, others, c);
    forall c | c in Covering(k, max, others)
      ensures |next(c)| == 1
    {
      OneNextDraw(k, max, others, c);
    }
    forall t
      ensures t in Yielding(k + 1, max, sample) <==>
                t != [] && Front(t) in Covering(k, max, others) && t[|t| - 1] in next(Front(t))
    {
      WithNewestFront(k, max, others, t);
    }
    hide Yielding, Covering, NextDraw;
    CountByFront(Covering(k, max, others), Yielding(k + 1, max, sample), next, 1);
  }

  ghost function NextDraw(k: nat, max: nat, others: set<nat>, c: seq<nat>): set<nat> {
    var x := Spare(k, max, others, c);
    if |c| >= k - max && x in Keep(k, max, c) then {Slot(Keep(k, max, c), x)} else {}
  }

  lemma TurnsInto(k: nat, max: nat, others: set<nat>, c: seq<nat>, j: nat)
    requires k >= max && |others| + 1 == max && others <= Range(0, k) && c in AllDraws(k, max)
    ensures Kept(k + 1, max, c + [j]) == others + {k} && j < k + 1 <==>
            c in Covering(k, max, others) && j in NextDraw(k, max, others, c)
  {
    KeptAfter(k, max, c, j);
    KeptCount(k, max, c);
    DrawsSpare(k, max, others, c, j);
    hide AllDraws, NextDraw, Kept, Keep;
    assert k !in Kept(k, max, c) && k !in others;
    if j < max {
      KeptAreElements(k, max, c, j);
      SwapsSpare(Kept(k, max, c), others, k, Keep(k, max, c)[j]);
    }
  }

  lemma KeptAreElements(k: nat, max: nat, c: seq<nat>, j: nat)
    requires |c| >= k - max && j < |Keep(k, max, c)|
    ensures Keep(k, max, c)[j] in Kept(k, max, c)
  {
  }

  lemma SwapsSpare(kept: set<nat>, others: set<nat>, newest: nat, evicted: nat)
    requires evicted in kept && newest !in kept && newest !in others && |kept| == |others| + 1
    ensures kept - {evicted} + {newest} == others + {newest} <==> others <= kept && evicted !in others
  {
    if kept - {evicted} + {newest} == others + {newest} {
      assert others == others + {newest} - {newest} == kept - {evicted};
    }
    if others <= kept && evicted !in others {
      SameSizeSubset(others, kept - {evicted});
    }
  }

  lemma OnlySlot(kept: seq<nat>, x: nat, j: nat)
    requires x in kept && forall s, t :: 0 <= s < t < |kept| ==> kept[s] != kept[t]
    ensures j == Slot(kept, x) <==> j < |kept| && kept[j] == x
  {
  }

  /** The draw that evicts the spare result is the one that names its slot. */
  lemma DrawsSpare(k: nat, max: nat, others: set<nat>, c: seq<nat>, j: nat)
    requires k >= max && |others| + 1 == max && c in AllDraws(k, max) && |c| >= k - max && |Keep(k, max, c)| == max
    ensures c in Covering(k, max, others) ==>
              (j in NextDraw(k, max, others, c) <==> j < max && Keep(k, max, c)[j] !in others)
  {
    if c in Covering(k, max, others) {
      SpareIsUnique(k, max, others, c);
      var x := Spare(k, max, others, c);
      OnlySlot(Keep(k, max, c), x, j);
      if j < max {
        KeptAreElements(k, max, c, j);
      }
      hide AllDraws, Spare, Kept, Keep, Slot, Covering;
    }
  }

  /** The spare result can be each of the earlier ones outside `others`. */
  lemma CoveringCount(k: nat, max: nat, others: set<nat>, n: nat)
    requires k >= max && |others| + 1 == max && others <= Range(0, k)
    requires forall x :: x in Range(0, k) - others ==> |Yielding(k, max, others + {x})| == n
    ensures |Covering(k, max, others)| == n * (k + 1 - max)
  {
    var base := Range(0, k) - others;
    var over := (c: seq<nat>) => Spare(k, max, others, c);
    forall c | c in Covering(k, max, others)
      ensures over(c) in base
    {
      SpareIsUnique(k, max, others, c);
    }
    forall x | x in base
      ensures |Fiber(Covering(k, max, others), over, x)| == n
    {
      SpareFiber(k, max, others, over, x);
    }
    hide Fiber, Spare, Covering, Yielding, Range;
    FiberCount(base, Covering(k, max, others), over, n);
    FreeCount(k, others);
  }

  lemma FreeCount(k: nat, others: set<nat>)
    requires others <= Range(0, k)
    ensures |Range(0, k) - others| == k - |others|
  {
    RangeCount(0, k);
    assert Range(0, k) == Range(0, k) - others + others;
  }

  lemma SpareFiber(k: nat, max: nat, others: set<nat>, over: seq<nat> -> nat, x: nat)
    requires k >= max && |others| + 1 == max && x !in others
    requires forall c :: over(c) == Spare(k, max, others, c)
    ensures Fiber(Covering(k, max, others), over, x) == Yielding(k, max, others + {x})
  {
    forall c
      ensures c in Fiber(Covering(k, max, others), over, x) <==> c in Yielding(k, max, others + {x})
    {
      if c in Covering(k, max, others) {
        SpareIsUnique(k, max, others, c);
        assert over(c) == Spare(k, max, others, c);
        if Kept(k, max, c) == others + {x} {
          assert Spare(k, max, others, c) in others + {x};
        }
      }
    }
  }

  // ---------- the theorem ----------

  lemma WithoutOne(k: nat, sample: set<nat>)
    requires k >= 1 && k - 1 in sample && sample <= Range(0, k)
    ensures var others := sample - {k - 1};
            |others| + 1 == |sample| && others <= Range(0, k - 1) && others + {k - 1} == sample
  {
  }

  lemma WithAnother(k: nat, sample: set<nat>, x: nat)
    requires k >= 1 && k - 1 in sample && sample <= Range(0, k) && x in Range(0, k - 1) - (sample - {k - 1})
    ensures var swapped := sample - {k - 1} + {x};
            |swapped| == |sample| && swapped <= Range(0, k - 1)
  {
  }

  lemma EarlierSample(k: nat, sample: set<nat>)
    requires k >= 1 && k - 1 !in sample && sample <= Range(0, k)
    ensures sample <= Range(0, k - 1)
  {
  }

  lemma WithNewest(k: nat, max: nat, others: set<nat>, n: nat)
    requires k >= max && |others| + 1 == max && others <= Range(0, k)
    requires forall x :: x in Range(0, k) - others ==> |Yielding(k, max, others + {x})| == n
    ensures |Yielding(k + 1, max, others + {k})| == n * (k + 1 - max)
  {
    hide Yielding, Covering, Range;
    CoveringCount(k, max, others, n);
    WithNewestByFront(k, max, others);
  }

  /** Every sample of `max` results out of k is the final reservoir of exactly (k - max)! draw
      sequences: all samples are equally likely. */
  lemma {:induction false} EverySampleEquallyOften(k: nat, max: nat, sample: set<nat>)
    requires 1 <= max <= k && |sample| == max && sample <= Range(0, k)
    ensures |Yielding(k, max, sample)| == Factorial(k - max)
    decreases k, 1
  {
    hide Yielding, Range;
    if k == max {
      OnlySampleAtFirst(max, sample);
    } else if k - 1 !in sample {
      EarlierSample(k, sample);
      EverySampleEquallyOften(k - 1, max, sample);
      WithoutNewest(k - 1, max, sample);
    } else {
      NewestSample(k, max, sample);
    }
  }

  lemma {:induction false} NewestSample(k: nat, max: nat, sample: set<nat>)
    requires 1 <= max < k && |sample| == max && sample <= Range(0, k) && k - 1 in sample
    ensures |Yielding(k, max, sample)| == Factorial(k - 1 - max) * (k - max)
    decreases k, 0
  {
    hide Yielding, Range, Factorial;
    var others, n := sample - {k - 1}, Factorial(k - 1 - max);
    WithoutOne(k, sample);
    forall x | x in Range(0, k - 1) - others
      ensures |Yielding(k - 1, max, others + {x})| == n
    {
      WithAnother(k, sample, x);
      EverySampleEquallyOften(k - 1, max, others + {x});
    }
    WithNewest(k - 1, max, others, n);
  }

  /** There are k! / max! draw sequences, so each sample has the share 1 / C(k, max). */
  lemma {:induction false} DrawsAreCounted(k: nat, max: nat)
    requires k >= max
    ensures |AllDraws(k, max)| * Factorial(max) == Factorial(k)
  {
    hide AllDraws, Factorial;
    if k == max {
      assert |AllDraws(k, max)| == 1 by { OneEmptyDraw(k, max); }
    } else {
      DrawsAreCounted(k - 1, max);
      DrawCount(k - 1, max);
      FactorialStep(k - 1);
      Regroup(k, |AllDraws(k - 1, max)|, Factorial(max));
    }
  }

  lemma FactorialStep(n: nat)
    ensures Factorial(n + 1) == (n + 1) * Factorial(n)
  {
  }

  lemma Regroup(a: nat, b: nat, c: nat)
    ensures a * b * c == a * (b * c)
  {
  }

  lemma OneEmptyDraw(k: nat, max: nat)
    requires k <= max
    ensures |AllDraws(k, max)| == 1
  {
  }

  lemma OnlySampleAtFirst(max: nat, sample: set<nat>)
    requires |sample| == max && sample <= Range(0, max)
    ensures Yielding(max, max, sample) == {[]}
  {
    RangeCount(0, max);
    SameSizeSubset(sample, Range(0, max));
    KeptCount(max, max, []);
    SameSizeSubset(Kept(max, max, []), Range(0, max));
  }
}
