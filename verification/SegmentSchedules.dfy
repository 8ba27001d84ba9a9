/** A load given as consecutive constant-rate segments: the reference account of how many hits
    are due by a time and of when a hit is due, over real time (load/pacer.go). */
module SegmentSchedules {
  import opened GoNumbers

  datatype LoadSegment = LoadSegment(duration: int, rps: real)

  type Load = seq<LoadSegment>

  predicate Proper(seg: LoadSegment) {
    seg.duration > 0 && seg.rps >= 0.0
  }

  predicate AllProper(load: Load) {
    forall i :: 0 <= i < |load| ==> Proper(load[i])
  }

  function Scaled(rps: real, x: real): real {
    rps * (x / NANO as real)
  }

  /** All the hits of a segment. */
  function SegmentHits(seg: LoadSegment): real {
    Scaled(seg.rps, seg.duration as real)
  }

  function TotalDuration(load: Load): int {
    if load == [] then 0 else load[0].duration + TotalDuration(load[1..])
  }

  function TotalHits(load: Load): real {
    if load == [] then 0.0 else SegmentHits(load[0]) + TotalHits(load[1..])
  }

  /** The hits due by time x, in nanoseconds. */
  function DueHits(load: Load, x: real): real {
    if load == [] || x <= 0.0 then 0.0
    else if x < load[0].duration as real then Scaled(load[0].rps, x)
    else SegmentHits(load[0]) + DueHits(load[1..], x - load[0].duration as real)
  }

  /** The time at which the n-th hit falls due. */
  function DueTime(load: Load, n: real): real {
    if load == [] then 0.0
    else if load[0].rps > 0.0 && n <= SegmentHits(load[0]) then n / load[0].rps * NANO as real
    else load[0].duration as real + DueTime(load[1..], n - SegmentHits(load[0]))
  }

  /** The rate at time t. */
  function RateAt(load: Load, t: int): real {
    if load == [] then 0.0
    else if t < load[0].duration then load[0].rps
    else RateAt(load[1..], t - load[0].duration)
  }

  /** The rate summed over every nanosecond before t. */
  function Integral(load: Load, t: nat): real {
    if t == 0 then 0.0 else Integral(load, t - 1) + RateAt(load, t - 1) / NANO as real
  }

  // ---------- arithmetic ----------

  lemma ScaledAdds(rps: real, x: real, y: real)
    ensures Scaled(rps, x + y) == Scaled(rps, x) + Scaled(rps, y)
    ensures Scaled(rps, 1.0) == rps / NANO as real
  {
  }

  lemma ScaledIsMonotone(rps: real, x: real, y: real)
    requires rps >= 0.0 && x <= y
    ensures Scaled(rps, x) <= Scaled(rps, y) && Scaled(rps, 0.0) == 0.0
    ensures rps > 0.0 && x < y ==> Scaled(rps, x) < Scaled(rps, y)
  {
    ScaledAdds(rps, x, y - x);
  }

  lemma ScaledIsBounded(rps: real, limit: real, x: real)
    requires 0.0 <= rps <= limit && 0.0 <= x
    ensures Scaled(rps, x) <= Scaled(limit, x)
  {
    assert Scaled(limit, x) - Scaled(rps, x) == (limit - rps) * (x / NANO as real);
  }

  lemma ScaledInverts(rps: real, n: real)
    requires rps > 0.0
    ensures Scaled(rps, n / rps * NANO as real) == n
    ensures n >= 0.0 ==> n / rps * NANO as real >= 0.0
  {
    assert n / rps * NANO as real / NANO as real == n / rps;
    assert rps * (n / rps) == n;
    if n >= 0.0 {
      assert n / rps >= 0.0;
    }
  }

  lemma ScaledReflectsOrder(rps: real, x: real, y: real)
    requires rps > 0.0 && Scaled(rps, x) <= Scaled(rps, y)
    ensures x <= y
  {
    if x > y {
      ScaledIsMonotone(rps, y, x);
    }
  }

  // ---------- the hits due ----------

  lemma {:induction false} TotalsAreNonNegative(load: Load)
    requires AllProper(load)
    ensures TotalHits(load) >= 0.0 && TotalDuration(load) >= |load|
  {
    if load == [] {
    } else {
      TotalsAreNonNegative(load[1..]);
      ScaledIsMonotone(load[0].rps, 0.0, load[0].duration as real);
    }
  }

  /** Past the end all hits are due and no more come. */
  lemma {:induction false} DueHitsAtEnd(load: Load, x: real)
    requires AllProper(load) && x >= TotalDuration(load) as real
    ensures DueHits(load, x) == TotalHits(load)
  {
    if load == [] {
    } else {
      TotalsAreNonNegative(load[1..]);
      DueHitsAtEnd(load[1..], x - load[0].duration as real);
    }
  }

  /** Hits only accumulate, and never faster than the fastest segment. */
  lemma {:induction false} DueHitsGrow(load: Load, x: real, y: real, limit: real)
    requires AllProper(load) && 0.0 <= x <= y
    requires limit >= 0.0 && forall i :: 0 <= i < |load| ==> load[i].rps <= limit
    ensures DueHits(load, x) <= DueHits(load, y) <= DueHits(load, x) + Scaled(limit, y - x)
  {
    hide Scaled;
    ScaledIsMonotone(limit, 0.0, y - x);
    if load == [] {
    } else {
      var d, rps := load[0].duration as real, load[0].rps;
      DueHitsStart(load);
      if y < d {
        ScaledIsMonotone(rps, x, y);
        ScaledAdds(rps, x, y - x);
        ScaledIsBounded(rps, limit, y - x);
      } else if x >= d {
        DueHitsGrow(load[1..], x - d, y - d, limit);
      } else {
        ScaledIsMonotone(rps, x, d);
        ScaledAdds(rps, x, d - x);
        ScaledIsBounded(rps, limit, d - x);
        DueHitsGrow(load[1..], 0.0, y - d, limit);
        DueHitsStart(load[1..]);
        ScaledAdds(limit, d - x, y - d);
      }
    }
  }

  /** Below the first segment's end the definition is linear, time zero included. */
  lemma DueHitsStart(load: Load)
    requires AllProper(load)
    ensures DueHits(load, 0.0) == 0.0
    ensures load != [] ==> forall x :: 0.0 <= x < load[0].duration as real ==> DueHits(load, x) == Scaled(load[0].rps, x)
  {
  }

  lemma DueHitsAreMonotone(load: Load, x: real, y: real)
    requires AllProper(load) && 0.0 <= x <= y
    ensures 0.0 <= DueHits(load, x) <= DueHits(load, y)
  {
    var limit := Fastest(load);
    DueHitsGrow(load, x, y, limit);
    DueHitsGrow(load, 0.0, x, limit);
    DueHitsStart(load);
  }

  function Fastest(load: Load): (limit: real)
    ensures limit >= 0.0
    ensures forall i :: 0 <= i < |load| ==> load[i].rps <= limit
  {
    if load == [] then 0.0
    else
      var rest := Fastest(load[1..]);
      assert forall i :: 1 <= i < |load| ==> load[i] == load[1..][i - 1];
      if load[0].rps > rest then load[0].rps else rest
  }

  // ---------- the due time is the inverse ----------

  lemma {:induction false} DueTimeInRange(load: Load, n: real)
    requires AllProper(load) && 0.0 < n <= TotalHits(load)
    ensures 0.0 <= DueTime(load, n) <= TotalDuration(load) as real
  {
    var rps, d := load[0].rps, load[0].duration as real;
    TotalsAreNonNegative(load[1..]);
    if rps > 0.0 && n <= SegmentHits(load[0]) {
      ScaledInverts(rps, n);
      ScaledReflectsOrder(rps, n / rps * NANO as real, d);
    } else {
      ScaledIsMonotone(rps, 0.0, d);
      DueTimeInRange(load[1..], n - SegmentHits(load[0]));
    }
  }

  /** At its due time exactly n hits are due. */
  lemma {:induction false} DueTimeInverts(load: Load, n: real)
    requires AllProper(load) && 0.0 < n <= TotalHits(load)
    ensures DueHits(load, DueTime(load, n)) == n
  {
    var rps, d := load[0].rps, load[0].duration as real;
    if rps > 0.0 && n <= SegmentHits(load[0]) {
      var x := n / rps * NANO as real;
      ScaledInverts(rps, n);
      ScaledReflectsOrder(rps, x, d);
      ScaledIsMonotone(rps, 0.0, 0.0);
      DueHitsStart(load[1..]);
    } else {
      var m := n - SegmentHits(load[0]);
      ScaledIsMonotone(rps, 0.0, d);
      DueTimeInverts(load[1..], m);
      DueTimeInRange(load[1..], m);
    }
  }

  /** No earlier time has n hits due. */
  lemma {:induction false} DueTimeIsEarliest(load: Load, n: real, x: real)
    requires AllProper(load) && 0.0 < n <= TotalHits(load) && x < DueTime(load, n)
    ensures DueHits(load, x) < n
  {
    var rps, d := load[0].rps, load[0].duration as real;
    var h := SegmentHits(load[0]);
    ScaledIsMonotone(rps, 0.0, d);
    if rps > 0.0 && n <= h {
      ScaledInverts(rps, n);
      ScaledReflectsOrder(rps, n / rps * NANO as real, d);
      ScaledIsMonotone(rps, x, n / rps * NANO as real);
    } else {
      assert n > h;
      if 0.0 < x < d {
        ScaledIsMonotone(rps, x, d);
      } else if x >= d {
        DueTimeIsEarliest(load[1..], n - h, x - d);
      }
    }
  }

  /** Later hits fall due later, by at least one interval of the fastest segment. */
  lemma DueTimesAreSpaced(load: Load, n: real, m: real, limit: real)
    requires AllProper(load) && 0.0 < n <= m <= TotalHits(load)
    requires limit > 0.0 && forall i :: 0 <= i < |load| ==> load[i].rps <= limit
    ensures DueTime(load, n) + (m - n) / limit * NANO as real <= DueTime(load, m)
  {
    var x, y := DueTime(load, n), DueTime(load, m);
    DueTimeInRange(load, n);
    DueTimeInRange(load, m);
    DueTimeInverts(load, n);
    DueTimeInverts(load, m);
    if y < x {
      DueTimeIsEarliest(load, n, y);
    } else {
      DueHitsGrow(load, x, y, limit);
      ScaledInverts(limit, m - n);
      ScaledReflectsOrder(limit, (m - n) / limit * NANO as real, y - x);
    }
  }

  // ---------- the hits due are the integral of the rate ----------

  lemma {:induction false} DueHitsIncrement(load: Load, t: nat)
    requires AllProper(load)
    ensures DueHits(load, (t + 1) as real) == DueHits(load, t as real) + RateAt(load, t) / NANO as real
  {
    if load == [] {
    } else {
      var d, rps := load[0].duration, load[0].rps;
      ScaledAdds(rps, t as real, 1.0);
      ScaledIsMonotone(rps, 0.0, 0.0);
      if t >= d {
        DueHitsIncrement(load[1..], t - d);
        assert (t + 1) as real - d as real == (t - d + 1) as real;
      } else if t + 1 == d {
        DueHitsStart(load[1..]);
      }
    }
  }

  /** The hits due by t are the integral of the rate up to t, and so is the inverse's domain. */
  lemma {:induction false} DueHitsAreIntegral(load: Load, t: nat)
    requires AllProper(load)
    ensures DueHits(load, t as real) == Integral(load, t)
  {
    if t == 0 {
    } else {
      DueHitsAreIntegral(load, t - 1);
      DueHitsIncrement(load, t - 1);
    }
  }
}
