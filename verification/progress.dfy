/**
  The per-segment progress arithmetic shared by the two web front ends:
  `total_segments = duration // W` and, after segment i (counted from 0),
  `int((i + 1) / total_segments * 100)`. The quotient is the floor one, not
  the segment count, so the division fails for a recording shorter than one
  window, and the value overshoots 100 on a short last window when
  `duration // W` is at most 100.
*/
module Progress {
  import opened Wrappers
  import opened Errors
  import Arith
  import opened Segmentation

  /** `duration // W`, the divisor of the progress formula. */
  function TotalSegments(duration: nat, w: nat): nat
    requires w > 0
  {
    duration / w
  }

  /** The divisor is zero exactly for a recording shorter than one window. */
  lemma TotalPositiveIff(duration: nat, w: nat)
    requires w > 0
    ensures TotalSegments(duration, w) > 0 <==> duration >= w
  {
    if duration < w {
      Arith.DivUnique(duration, w, 0);
    } else {
      Arith.DivMono(w, duration, w);
      Arith.DivUnique(w, w, 1);
    }
  }

  /**
    The percentage reported after segment i. It is undefined (the
    ZeroDivisionError) exactly when the recording is shorter than one
    window.
  */
  function Percent(i: nat, duration: nat, w: nat): (r: Result<nat, Failure>)
    requires w > 0
    ensures r.Err? <==> duration < w
    ensures r.Err? ==> r.error == ZeroDivision
  {
    TotalPositiveIff(duration, w);
    var total := TotalSegments(duration, w);
    if total == 0 then Err(ZeroDivision) else Ok((i + 1) * 100 / total)
  }

  /** Otherwise it is the floor of (i + 1) * 100 / total_segments. */
  lemma PercentIsFloor(i: nat, duration: nat, w: nat)
    requires w > 0
    requires duration >= w
    ensures Percent(i, duration, w).value * TotalSegments(duration, w) <= (i + 1) * 100
    ensures (i + 1) * 100 < (Percent(i, duration, w).value + 1) * TotalSegments(duration, w)
  {
    var total := TotalSegments(duration, w);
    var p := Percent(i, duration, w).value;
    assert (i + 1) * 100 == p * total + (i + 1) * 100 % total;
    assert (p + 1) * total == p * total + total;
  }

  /** Later segments never report a smaller percentage. */
  lemma PercentMonotone(i: nat, j: nat, duration: nat, w: nat)
    requires w > 0
    requires duration >= w
    requires i <= j
    ensures Percent(i, duration, w).value <= Percent(j, duration, w).value
  {
    Arith.DivMono((i + 1) * 100, (j + 1) * 100, TotalSegments(duration, w));
  }

  /** While fewer than total_segments segments are done, the value stays within 100. */
  lemma PercentWithinTotal(i: nat, duration: nat, w: nat)
    requires w > 0
    requires i < TotalSegments(duration, w)
    ensures Percent(i, duration, w).Ok?
    ensures Percent(i, duration, w).value <= 100
    ensures i + 1 == TotalSegments(duration, w) ==> Percent(i, duration, w).value == 100
  {
    var t := TotalSegments(duration, w);
    Arith.DivMono((i + 1) * 100, t * 100, t);
    Arith.DivUnique(t * 100, t, 100);
  }

  /**
    The value reported after the last segment. It is at least 100, exactly
    100 when w divides the duration, and above 100 precisely when the last
    window is short and total_segments is at most 100; beyond that the
    overshoot is lost to the floor.
  */
  lemma FinalPercent(duration: nat, w: nat)
    requires w > 0
    requires duration >= w
    ensures SegmentCount(duration, w) >= 1
    ensures Percent(SegmentCount(duration, w) - 1, duration, w).value >= 100
    ensures duration % w == 0 ==> Percent(SegmentCount(duration, w) - 1, duration, w).value == 100
    ensures Percent(SegmentCount(duration, w) - 1, duration, w).value > 100 <==>
              duration % w != 0 && TotalSegments(duration, w) <= 100
  {
    StartsShape(duration, w);
    CeilDivVsDiv(duration, w);
    TotalPositiveIff(duration, w);
    var t := TotalSegments(duration, w);
    if duration % w == 0 {
      FullLastWindow(t);
    } else {
      ShortLastWindow(t);
    }
  }

  /** When w divides the duration, the last segment reports t * 100 // t. */
  lemma FullLastWindow(t: nat)
    requires t > 0
    ensures t * 100 / t == 100
  {
    Arith.DivUnique(t * 100, t, 100);
  }

  /** With a short last window there are t + 1 segments and the last reports (t + 1) * 100 // t. */
  lemma ShortLastWindow(t: nat)
    requires t > 0
    ensures (t + 1) * 100 / t >= 100
    ensures (t + 1) * 100 / t > 100 <==> t <= 100
  {
    var q := 100 / t;
    assert q * t <= 100 < q * t + t;
    assert (t + 1) * 100 == 100 * t + 100;
    Arith.DivUnique((t + 1) * 100, t, 100 + q);
    if t <= 100 {
      Arith.DivMono(t, 100, t);
      Arith.DivUnique(t, t, 1);
    } else {
      Arith.DivUnique(100, t, 0);
    }
  }
}
