/**
  The millisecond window arithmetic of the segment-and-identify loop: the
  loop header `range(0, duration, W)` and the pydub slice
  `audio[start:start + W]`, which pydub clips at the length of the audio.
*/
module Segmentation {
  import Arith

  /** A half-open slice [start, end) of the audio, in milliseconds. */
  datatype Window = Window(start: nat, end: nat) {
    function Length(): int { end - start }
    predicate Contains(t: int) { start <= t < end }
  }

  /** Python's `range(start, stop, step)` for a positive step. */
  function RangeFrom(start: nat, stop: nat, step: nat): seq<nat>
    requires step > 0
    decreases stop - start
  {
    if start >= stop then [] else [start] + RangeFrom(start + step, stop, step)
  }

  /** The segment starts the loop iterates: `range(0, duration, w)`. */
  function Starts(duration: nat, w: nat): seq<nat>
    requires w > 0
  {
    RangeFrom(0, duration, w)
  }

  /** Rounded-up quotient, the number of windows of length w needed to cover a. */
  function CeilDiv(a: nat, w: nat): nat
    requires w > 0
  {
    (a + w - 1) / w
  }

  function Min(a: nat, b: nat): nat { if a <= b then a else b }

  /** `audio[start:start + w]`: pydub clips the end at the audio's length. */
  function Slice(start: nat, w: nat, duration: nat): Window
  {
    Window(start, Min(start + w, duration))
  }

  /** The windows handed to recognition, one per segment start. */
  function Windows(duration: nat, w: nat): seq<Window>
    requires w > 0
  {
    var s := Starts(duration, w);
    seq(|s|, i requires 0 <= i < |s| => Slice(s[i], w, duration))
  }

  /** The number of segments the loop runs for. */
  function SegmentCount(duration: nat, w: nat): nat
    requires w > 0
  {
    |Starts(duration, w)|
  }

  /** CeilDiv(a, w) is the least c with a <= c * w. */
  lemma CeilDivBounds(a: nat, w: nat)
    requires w > 0
    ensures a <= CeilDiv(a, w) * w
    ensures a > 0 ==> CeilDiv(a, w) > 0 && (CeilDiv(a, w) - 1) * w < a
    ensures a == 0 ==> CeilDiv(a, w) == 0
  {
    var c := CeilDiv(a, w);
    assert c * w <= a + w - 1 < c * w + w;
    assert (c - 1) * w == c * w - w;
    if a == 0 {
      Arith.DivUnique(w - 1, w, 0);
    }
  }

  /** CeilDiv peels off one window at a time. */
  lemma CeilDivStep(a: nat, w: nat)
    requires w > 0
    ensures a == 0 ==> CeilDiv(a, w) == 0
    ensures 0 < a <= w ==> CeilDiv(a, w) == 1
    ensures a > w ==> CeilDiv(a, w) == 1 + CeilDiv(a - w, w)
  {
    if a == 0 {
      Arith.DivUnique(w - 1, w, 0);
    } else if a <= w {
      Arith.DivUnique(a + w - 1, w, 1);
    } else {
      var q := CeilDiv(a - w, w);
      assert q * w <= a - w + w - 1 < q * w + w;
      assert (q + 1) * w == q * w + w;
      Arith.DivUnique(a + w - 1, w, q + 1);
    }
  }

  /** CeilDiv against the floor quotient: equal exactly when w divides a. */
  lemma CeilDivVsDiv(a: nat, w: nat)
    requires w > 0
    ensures a % w == 0 ==> CeilDiv(a, w) == a / w
    ensures a % w != 0 ==> CeilDiv(a, w) == a / w + 1
  {
    var q := a / w;
    assert a == q * w + a % w;
    assert (q + 1) * w == q * w + w;
    if a % w == 0 {
      Arith.DivUnique(a + w - 1, w, q);
    } else {
      Arith.DivUnique(a + w - 1, w, q + 1);
    }
  }

  lemma {:induction false} RangeFromShape(start: nat, stop: nat, step: nat)
    requires step > 0
    ensures |RangeFrom(start, stop, step)| == (if start >= stop then 0 else CeilDiv(stop - start, step))
    ensures forall i :: 0 <= i < |RangeFrom(start, stop, step)| ==>
              RangeFrom(start, stop, step)[i] == start + i * step
    decreases stop - start
  {
    if start < stop {
      var rest := RangeFrom(start + step, stop, step);
      RangeFromShape(start + step, stop, step);
      CeilDivStep(stop - start, step);
      forall i | 0 <= i < |RangeFrom(start, stop, step)|
        ensures RangeFrom(start, stop, step)[i] == start + i * step
      {
        if i > 0 {
          assert RangeFrom(start, stop, step)[i] == rest[i - 1];
          assert start + step + (i - 1) * step == start + i * step;
        }
      }
    }
  }

  /**
    The starts are exactly 0, w, 2w, ... while below the duration:
    ceil(duration / w) of them, none for an empty recording.
  */
  lemma StartsShape(duration: nat, w: nat)
    requires w > 0
    ensures |Starts(duration, w)| == CeilDiv(duration, w)
    ensures |Starts(duration, w)| == 0 <==> duration == 0
    ensures forall i :: 0 <= i < |Starts(duration, w)| ==> Starts(duration, w)[i] == i * w < duration
    ensures |Starts(duration, w)| * w >= duration
  {
    RangeFromShape(0, duration, w);
    CeilDivBounds(duration, w);
    var n := |Starts(duration, w)|;
    forall i | 0 <= i < n
      ensures Starts(duration, w)[i] == i * w < duration
    {
      Arith.MulMono(i, n - 1, w);
    }
  }

  /** Each segment start lies below the duration, so every window is non-empty. */
  lemma WindowShape(duration: nat, w: nat, i: nat)
    requires w > 0
    requires i < |Windows(duration, w)|
    ensures Windows(duration, w)[i].start == i * w
    ensures Windows(duration, w)[i].end == Min(i * w + w, duration)
    ensures 0 < Windows(duration, w)[i].Length() <= w
  {
    StartsShape(duration, w);
  }

  /** There is one window per segment start: ceil(duration / w) of them. */
  lemma WindowCount(duration: nat, w: nat)
    requires w > 0
    ensures |Windows(duration, w)| == CeilDiv(duration, w)
    ensures |Windows(duration, w)| * w >= duration
  {
    StartsShape(duration, w);
  }

  /** Window i ends where window i + 1 starts, and is a full window. */
  lemma ConsecutiveWindows(duration: nat, w: nat, i: nat)
    requires w > 0
    requires i + 1 < |Windows(duration, w)|
    ensures Windows(duration, w)[i].end == Windows(duration, w)[i + 1].start
    ensures Windows(duration, w)[i].Length() == w
  {
    WindowShape(duration, w, i);
    WindowShape(duration, w, i + 1);
    assert (i + 1) * w == i * w + w;
  }

  /**
    The windows tile [0, duration): they start at 0, end at the duration,
    follow each other without gap or overlap, and only the last may be
    shorter than w.
  */
  lemma WindowsTile(duration: nat, w: nat)
    requires w > 0
    ensures |Windows(duration, w)| == CeilDiv(duration, w)
    ensures |Windows(duration, w)| > 0 ==>
              Windows(duration, w)[0].start == 0 &&
              Windows(duration, w)[|Windows(duration, w)| - 1].end == duration
    ensures forall i :: 0 <= i < |Windows(duration, w)| ==>
              0 < Windows(duration, w)[i].Length() <= w && Windows(duration, w)[i].end <= duration
    ensures forall i :: 0 <= i < |Windows(duration, w)| - 1 ==>
              Windows(duration, w)[i].end == Windows(duration, w)[i + 1].start &&
              Windows(duration, w)[i].Length() == w
  {
    var ws := Windows(duration, w);
    WindowCount(duration, w);
    var n := |ws|;
    forall i | 0 <= i < n
      ensures 0 < ws[i].Length() <= w && ws[i].end <= duration
    {
      WindowShape(duration, w, i);
    }
    forall i | 0 <= i < n - 1
      ensures ws[i].end == ws[i + 1].start && ws[i].Length() == w
    {
      ConsecutiveWindows(duration, w, i);
    }
    if n > 0 {
      WindowShape(duration, w, 0);
      WindowShape(duration, w, n - 1);
      assert (n - 1) * w + w == n * w;
    }
  }

  /** Some window contains the instant t. */
  ghost predicate Covered(ws: seq<Window>, t: int)
  {
    exists i :: 0 <= i < |ws| && ws[i].Contains(t)
  }

  /** An instant inside window i lies in [0, duration) and determines i. */
  lemma WindowIndexOf(duration: nat, w: nat, i: nat, t: int)
    requires w > 0
    requires i < |Windows(duration, w)|
    requires Windows(duration, w)[i].Contains(t)
    ensures 0 <= t < duration
    ensures t / w == i
  {
    WindowShape(duration, w, i);
    Arith.DivUnique(t, w, i);
  }

  /** Every instant of [0, duration) falls in the window t / w. */
  lemma InstantInWindow(duration: nat, w: nat, t: int)
    requires w > 0
    requires 0 <= t < duration
    ensures t / w < |Windows(duration, w)|
    ensures Windows(duration, w)[t / w].Contains(t)
  {
    WindowCount(duration, w);
    var i := t / w;
    var n := |Windows(duration, w)|;
    assert t == i * w + t % w;
    assert i * w < n * w;
    Arith.MulCancelLt(i, n, w);
    WindowShape(duration, w, i);
  }

  /**
    The union of the windows is exactly [0, duration), and no instant is in
    two windows.
  */
  lemma WindowsPartition(duration: nat, w: nat)
    requires w > 0
    ensures forall t :: Covered(Windows(duration, w), t) <==> 0 <= t < duration
    ensures forall i, j, t ::
              (0 <= i < |Windows(duration, w)| && 0 <= j < |Windows(duration, w)| &&
               Windows(duration, w)[i].Contains(t) && Windows(duration, w)[j].Contains(t)) ==> i == j
  {
    var ws := Windows(duration, w);
    forall t | 0 <= t < duration
      ensures Covered(ws, t)
    {
      InstantInWindow(duration, w, t);
    }
    forall t | Covered(ws, t)
      ensures 0 <= t < duration
    {
      var i :| 0 <= i < |ws| && ws[i].Contains(t);
      WindowIndexOf(duration, w, i, t);
    }
    forall i, j, t | 0 <= i < |ws| && 0 <= j < |ws| && ws[i].Contains(t) && ws[j].Contains(t)
      ensures i == j
    {
      WindowIndexOf(duration, w, i, t);
      WindowIndexOf(duration, w, j, t);
    }
  }
}
