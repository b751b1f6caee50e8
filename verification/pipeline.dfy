/**
  The segment-and-identify loop, once, for any window length w:

    for i, start_time in enumerate(range(0, duration, w)):
        recognise audio[start_time:start_time + w]
        keep the track if its key is new
        report progress (only in the two web front ends)

  The recognition service is an oracle: entry i of `oracle` is what the
  call for segment i returned (Ok(None) for a reply without 'track'), or
  the exception it raised (Err). An exception ends the loop at once.
*/
module Pipeline {
  import opened Wrappers
  import opened Errors
  import Arith
  import opened Segmentation
  import opened Dedup
  import Progress

  /** What one recognition call produced. */
  type Recognition = Result<Option<Track>, string>

  /**
    The loop's state: the dedup accumulators, the windows sent to the
    recognition service so far, the progress percentages computed so far,
    and the exception that stopped the loop, if any.
  */
  datatype Run = Run(seen: Seen, calls: seq<Window>, reports: seq<nat>, failure: Option<Failure>)

  /** One oracle answer per segment of the recording. */
  predicate WellFormed(duration: nat, w: nat, oracle: seq<Recognition>)
  {
    w > 0 && |oracle| == SegmentCount(duration, w)
  }

  /**
    One pass of the loop body: segment i, cut as `window`, for which the
    recognition call produced `answer`. A run that already stopped is left
    as it is.
  */
  function Iterate(prev: Run, i: nat, window: Window, answer: Recognition,
                   duration: nat, w: nat, reporting: bool): Run
    requires w > 0
  {
    if prev.failure.Some? then prev
    else
      var calls := prev.calls + [window];
      match answer
      case Err(e) => Run(prev.seen, calls, prev.reports, Some(Raised(e)))
      case Ok(r) =>
        var seen := Step(prev.seen, r);
        if !reporting then Run(seen, calls, prev.reports, None)
        else
          match Progress.Percent(i, duration, w)
          case Err(f) => Run(seen, calls, prev.reports, Some(f))
          case Ok(p) => Run(seen, calls, prev.reports + [p], None)
  }

  /** The state after the first n iterations (or the state at the exception). */
  function Loop(duration: nat, w: nat, oracle: seq<Recognition>, reporting: bool, n: nat): Run
    requires WellFormed(duration, w, oracle)
    requires n <= |oracle|
  {
    if n == 0 then Run(Empty(), [], [], None)
    else
      Iterate(Loop(duration, w, oracle, reporting, n - 1), n - 1, Windows(duration, w)[n - 1], oracle[n - 1],
              duration, w, reporting)
  }

  /** The whole loop. */
  function Identify(duration: nat, w: nat, oracle: seq<Recognition>, reporting: bool): Run
    requires WellFormed(duration, w, oracle)
  {
    Loop(duration, w, oracle, reporting, |oracle|)
  }

  /** The per-segment results with the exceptions erased. */
  function Matches(oracle: seq<Recognition>): (rs: seq<Option<Track>>)
    ensures |rs| == |oracle|
    ensures forall i :: 0 <= i < |oracle| && oracle[i].Ok? ==> rs[i] == oracle[i].value
  {
    seq(|oracle|, i requires 0 <= i < |oracle| => if oracle[i].Ok? then oracle[i].value else None)
  }

  /** None of the first n recognition calls raised. */
  predicate AllRecognised(oracle: seq<Recognition>, n: nat)
    requires n <= |oracle|
  {
    forall i :: 0 <= i < n ==> oracle[i].Ok?
  }

  /**
    The first n iterations run without an exception exactly when none of
    their recognition calls raised and, if progress is computed, the
    divisor `duration // w` is not zero (or the loop has not started).
  */
  lemma {:induction false} LoopSucceeds(duration: nat, w: nat, oracle: seq<Recognition>, reporting: bool, n: nat)
    requires WellFormed(duration, w, oracle)
    requires n <= |oracle|
    ensures Loop(duration, w, oracle, reporting, n).failure.None? <==>
              AllRecognised(oracle, n) && (n == 0 || !reporting || duration >= w)
  {
    if n > 0 {
      LoopSucceeds(duration, w, oracle, reporting, n - 1);
    }
  }

  /**
    Without an exception, the first n iterations made one recognition call
    per window, in window order; their accumulators are the dedup fold of
    the first n results; and the progress values are the formula's values
    for segments 0 .. n-1 (none when progress is not computed).
  */
  lemma {:induction false} LoopOnSuccess(duration: nat, w: nat, oracle: seq<Recognition>, reporting: bool, n: nat)
    requires WellFormed(duration, w, oracle)
    requires n <= |oracle|
    requires Loop(duration, w, oracle, reporting, n).failure.None?
    ensures Loop(duration, w, oracle, reporting, n).seen == FoldPrefix(Matches(oracle), n)
    ensures Loop(duration, w, oracle, reporting, n).calls == Windows(duration, w)[..n]
    ensures |Loop(duration, w, oracle, reporting, n).reports| == (if reporting then n else 0)
    ensures forall i :: 0 <= i < |Loop(duration, w, oracle, reporting, n).reports| ==>
              Progress.Percent(i, duration, w) == Ok(Loop(duration, w, oracle, reporting, n).reports[i])
  {
    SuccessSeen(duration, w, oracle, reporting, n);
    SuccessCalls(duration, w, oracle, reporting, n);
    SuccessReports(duration, w, oracle, reporting, n);
  }

  /** Every earlier state of a loop that has not failed has not failed either. */
  lemma {:induction false} EarlierSucceeded(duration: nat, w: nat, oracle: seq<Recognition>, reporting: bool, n: nat)
    requires WellFormed(duration, w, oracle)
    requires 0 < n <= |oracle|
    requires Loop(duration, w, oracle, reporting, n).failure.None?
    ensures Loop(duration, w, oracle, reporting, n - 1).failure.None?
    ensures Iterate(Loop(duration, w, oracle, reporting, n - 1), n - 1, Windows(duration, w)[n - 1], oracle[n - 1],
                    duration, w, reporting).failure.None?
  {
  }

  lemma {:induction false} SuccessSeen(duration: nat, w: nat, oracle: seq<Recognition>, reporting: bool, n: nat)
    requires WellFormed(duration, w, oracle)
    requires n <= |oracle|
    requires Loop(duration, w, oracle, reporting, n).failure.None?
    ensures Loop(duration, w, oracle, reporting, n).seen == FoldPrefix(Matches(oracle), n)
  {
    if n > 0 {
      EarlierSucceeded(duration, w, oracle, reporting, n);
      var prev := Loop(duration, w, oracle, reporting, n - 1);
      SuccessSeen(duration, w, oracle, reporting, n - 1);
      IterateOnSuccess(prev, n - 1, Windows(duration, w)[n - 1], oracle[n - 1], duration, w, reporting);
      assert Matches(oracle)[n - 1] == oracle[n - 1].value;
    }
  }

  lemma {:induction false} SuccessCalls(duration: nat, w: nat, oracle: seq<Recognition>, reporting: bool, n: nat)
    requires WellFormed(duration, w, oracle)
    requires n <= |oracle|
    requires Loop(duration, w, oracle, reporting, n).failure.None?
    ensures Loop(duration, w, oracle, reporting, n).calls == Windows(duration, w)[..n]
  {
    if n > 0 {
      EarlierSucceeded(duration, w, oracle, reporting, n);
      var prev := Loop(duration, w, oracle, reporting, n - 1);
      SuccessCalls(duration, w, oracle, reporting, n - 1);
      var ws := Windows(duration, w);
      IterateOnSuccess(prev, n - 1, ws[n - 1], oracle[n - 1], duration, w, reporting);
      assert ws[..n] == ws[..n - 1] + [ws[n - 1]];
    }
  }

  lemma {:induction false} SuccessReports(duration: nat, w: nat, oracle: seq<Recognition>, reporting: bool, n: nat)
    requires WellFormed(duration, w, oracle)
    requires n <= |oracle|
    requires Loop(duration, w, oracle, reporting, n).failure.None?
    ensures |Loop(duration, w, oracle, reporting, n).reports| == (if reporting then n else 0)
    ensures forall i :: 0 <= i < |Loop(duration, w, oracle, reporting, n).reports| ==>
              Progress.Percent(i, duration, w) == Ok(Loop(duration, w, oracle, reporting, n).reports[i])
  {
    if n > 0 {
      EarlierSucceeded(duration, w, oracle, reporting, n);
      var prev := Loop(duration, w, oracle, reporting, n - 1);
      SuccessReports(duration, w, oracle, reporting, n - 1);
      IterateOnSuccess(prev, n - 1, Windows(duration, w)[n - 1], oracle[n - 1], duration, w, reporting);
    }
  }

  /** The state after a recognised segment, from the state before it. */
  lemma LoopStepOk(duration: nat, w: nat, oracle: seq<Recognition>, reporting: bool, n: nat, answer: Option<Track>)
    requires WellFormed(duration, w, oracle)
    requires n < |oracle|
    requires Loop(duration, w, oracle, reporting, n).failure.None?
    requires oracle[n] == Ok(answer)
    requires reporting ==> duration >= w
    ensures var prev := Loop(duration, w, oracle, reporting, n);
            Loop(duration, w, oracle, reporting, n + 1) ==
              Run(Step(prev.seen, answer), prev.calls + [Windows(duration, w)[n]],
                  if reporting then prev.reports + [Progress.Percent(n, duration, w).value] else prev.reports,
                  None)
  {
  }

  /** One pass from a state without an exception adds at most one report, the formula's value. */
  lemma ReportsStep(prev: Run, i: nat, window: Window, answer: Recognition,
                    duration: nat, w: nat, reporting: bool)
    requires w > 0
    requires prev.failure.None?
    ensures var next := Iterate(prev, i, window, answer, duration, w, reporting);
            || next.reports == prev.reports
            || (reporting && Progress.Percent(i, duration, w).Ok? &&
                next.reports == prev.reports + [Progress.Percent(i, duration, w).value])
  {
  }

  /** One successful pass appends its window, folds its result, and appends its progress value. */
  lemma IterateOnSuccess(prev: Run, i: nat, window: Window, answer: Recognition,
                         duration: nat, w: nat, reporting: bool)
    requires w > 0
    requires prev.failure.None?
    requires Iterate(prev, i, window, answer, duration, w, reporting).failure.None?
    ensures answer.Ok?
    ensures Iterate(prev, i, window, answer, duration, w, reporting).calls == prev.calls + [window]
    ensures Iterate(prev, i, window, answer, duration, w, reporting).seen == Step(prev.seen, answer.value)
    ensures Iterate(prev, i, window, answer, duration, w, reporting).reports ==
              if reporting then prev.reports + [Progress.Percent(i, duration, w).value] else prev.reports
    ensures reporting ==> Progress.Percent(i, duration, w).Ok?
  {
  }

  /**
    Whether or not the loop stopped early, every progress value it computed
    is the formula's value for its segment, and there is at most one per
    iteration run.
  */
  lemma {:induction false} ReportsArePercents(duration: nat, w: nat, oracle: seq<Recognition>, reporting: bool, n: nat)
    requires WellFormed(duration, w, oracle)
    requires n <= |oracle|
    ensures |Loop(duration, w, oracle, reporting, n).reports| <= (if reporting then n else 0)
    ensures forall i :: 0 <= i < |Loop(duration, w, oracle, reporting, n).reports| ==>
              Progress.Percent(i, duration, w) == Ok(Loop(duration, w, oracle, reporting, n).reports[i])
  {
    if n > 0 {
      var prev := Loop(duration, w, oracle, reporting, n - 1);
      if prev.failure.Some? {
        ReportsArePercents(duration, w, oracle, reporting, n - 1);
        assert Loop(duration, w, oracle, reporting, n) == prev;
      } else {
        ReportsAfterSuccess(duration, w, oracle, reporting, n);
      }
    }
  }

  /** The reports after a pass that started without an exception. */
  lemma ReportsAfterSuccess(duration: nat, w: nat, oracle: seq<Recognition>, reporting: bool, n: nat)
    requires WellFormed(duration, w, oracle)
    requires 0 < n <= |oracle|
    requires Loop(duration, w, oracle, reporting, n - 1).failure.None?
    ensures |Loop(duration, w, oracle, reporting, n).reports| <= (if reporting then n else 0)
    ensures forall i :: 0 <= i < |Loop(duration, w, oracle, reporting, n).reports| ==>
              Progress.Percent(i, duration, w) == Ok(Loop(duration, w, oracle, reporting, n).reports[i])
  {
    var prev := Loop(duration, w, oracle, reporting, n - 1);
    SuccessReports(duration, w, oracle, reporting, n - 1);
    ReportsStep(prev, n - 1, Windows(duration, w)[n - 1], oracle[n - 1], duration, w, reporting);
    ReportsExtend(prev.reports, Loop(duration, w, oracle, reporting, n).reports, n - 1, duration, w, reporting);
  }

  /** Appending the formula's value for segment i to the values of segments 0 .. i-1, or nothing. */
  lemma ReportsExtend(before: seq<nat>, after: seq<nat>, i: nat, duration: nat, w: nat, reporting: bool)
    requires w > 0
    requires |before| == (if reporting then i else 0)
    requires forall j :: 0 <= j < |before| ==> Progress.Percent(j, duration, w) == Ok(before[j])
    requires || after == before
             || (reporting && Progress.Percent(i, duration, w).Ok? &&
                 after == before + [Progress.Percent(i, duration, w).value])
    ensures |after| <= (if reporting then i + 1 else 0)
    ensures forall j :: 0 <= j < |after| ==> Progress.Percent(j, duration, w) == Ok(after[j])
  {
    forall j | 0 <= j < |after|
      ensures Progress.Percent(j, duration, w) == Ok(after[j])
    {
      if j < |before| {
        assert after[j] == before[j];
      }
    }
  }

  /** Once an exception is recorded, later iterations do not run. */
  lemma {:induction false} LoopStaysFailed(duration: nat, w: nat, oracle: seq<Recognition>, reporting: bool, k: nat, n: nat)
    requires WellFormed(duration, w, oracle)
    requires k <= n <= |oracle|
    requires Loop(duration, w, oracle, reporting, k).failure.Some?
    ensures Loop(duration, w, oracle, reporting, n) == Loop(duration, w, oracle, reporting, k)
    decreases n - k
  {
    if k < n {
      LoopStaysFailed(duration, w, oracle, reporting, k, n - 1);
    }
  }

  /**
    Fail-fast: if segment k is the first to raise, the run ends with that
    exception after exactly k + 1 recognition calls, keeping the progress
    values of the k segments before it. The exception is the recognition
    call's own, or the division by zero of the first progress update.
  */
  lemma FailFast(duration: nat, w: nat, oracle: seq<Recognition>, reporting: bool, k: nat)
    requires WellFormed(duration, w, oracle)
    requires k < |oracle|
    requires Loop(duration, w, oracle, reporting, k).failure.None?
    requires Loop(duration, w, oracle, reporting, k + 1).failure.Some?
    ensures Identify(duration, w, oracle, reporting) == Loop(duration, w, oracle, reporting, k + 1)
    ensures Identify(duration, w, oracle, reporting).calls == Windows(duration, w)[..k + 1]
    ensures Identify(duration, w, oracle, reporting).reports == Loop(duration, w, oracle, reporting, k).reports
    ensures Identify(duration, w, oracle, reporting).failure ==
              if oracle[k].Err? then Some(Raised(oracle[k].error)) else Some(ZeroDivision)
    ensures oracle[k].Ok? ==> k == 0 && reporting && duration < w
  {
    LoopStaysFailed(duration, w, oracle, reporting, k + 1, |oracle|);
    SuccessCalls(duration, w, oracle, reporting, k);
    LoopSucceeds(duration, w, oracle, reporting, k);
    var ws := Windows(duration, w);
    FailStep(Loop(duration, w, oracle, reporting, k), k, ws[k], oracle[k], duration, w, reporting);
    assert ws[..k + 1] == ws[..k] + [ws[k]];
  }

  /** The pass that raises records its call, adds no report, and keeps the exception. */
  lemma FailStep(prev: Run, i: nat, window: Window, answer: Recognition,
                 duration: nat, w: nat, reporting: bool)
    requires w > 0
    requires prev.failure.None?
    requires Iterate(prev, i, window, answer, duration, w, reporting).failure.Some?
    ensures var next := Iterate(prev, i, window, answer, duration, w, reporting);
            && next.calls == prev.calls + [window]
            && next.reports == prev.reports
            && next.failure == if answer.Err? then Some(Raised(answer.error)) else Some(ZeroDivision)
    ensures answer.Ok? ==> reporting && duration < w
  {
  }

  /**
    A run that stopped early stopped at a first failing segment k; without
    progress reporting the exception is always the recognition call's own.
  */
  lemma FirstFailure(duration: nat, w: nat, oracle: seq<Recognition>, reporting: bool)
    requires WellFormed(duration, w, oracle)
    requires Identify(duration, w, oracle, reporting).failure.Some?
    ensures exists k :: 0 <= k < |oracle| && Loop(duration, w, oracle, reporting, k).failure.None? &&
                        Loop(duration, w, oracle, reporting, k + 1).failure.Some?
    ensures !reporting ==> Identify(duration, w, oracle, reporting).failure.value.Raised?
  {
    var k := FirstFailingSegment(duration, w, oracle, reporting, |oracle|);
    FailFast(duration, w, oracle, reporting, k);
  }

  /** The index of the segment at which a stopped loop stopped. */
  lemma {:induction false} FirstFailingSegment(duration: nat, w: nat, oracle: seq<Recognition>, reporting: bool, n: nat)
    returns (k: nat)
    requires WellFormed(duration, w, oracle)
    requires n <= |oracle|
    requires Loop(duration, w, oracle, reporting, n).failure.Some?
    ensures k < n
    ensures Loop(duration, w, oracle, reporting, k).failure.None?
    ensures Loop(duration, w, oracle, reporting, k + 1).failure.Some?
  {
    if Loop(duration, w, oracle, reporting, n - 1).failure.Some? {
      k := FirstFailingSegment(duration, w, oracle, reporting, n - 1);
    } else {
      k := n - 1;
    }
  }

  /**
    The run as a whole. It fails exactly when some recognition call raises
    or, in the reporting variant, when 0 < duration < w. Otherwise it
    called recognition once per window, in order, returned the
    first-occurrence tracks of the results and reported the formula's
    value after every segment.
  */
  lemma IdentifyCorrect(duration: nat, w: nat, oracle: seq<Recognition>, reporting: bool)
    requires WellFormed(duration, w, oracle)
    ensures Identify(duration, w, oracle, reporting).failure.None? <==>
              AllRecognised(oracle, |oracle|) && (duration == 0 || !reporting || duration >= w)
    ensures Identify(duration, w, oracle, reporting).failure.None? ==>
              && Identify(duration, w, oracle, reporting).seen.tracks == Firsts(Matches(oracle), |oracle|)
              && Consistent(Identify(duration, w, oracle, reporting).seen)
              && Identify(duration, w, oracle, reporting).calls == Windows(duration, w)
              && |Identify(duration, w, oracle, reporting).reports| == (if reporting then |oracle| else 0)
  {
    StartsShape(duration, w);
    LoopSucceeds(duration, w, oracle, reporting, |oracle|);
    if Identify(duration, w, oracle, reporting).failure.None? {
      LoopOnSuccess(duration, w, oracle, reporting, |oracle|);
      FoldIsFirsts(Matches(oracle), |oracle|);
      assert Windows(duration, w)[..|oracle|] == Windows(duration, w);
    }
  }

  /**
    When segment k is the first whose recognition call raises, the run ends
    with that exception after k + 1 calls, holding the progress values of
    the k segments before it (none without progress reporting).
  */
  lemma FirstRaise(duration: nat, w: nat, oracle: seq<Recognition>, reporting: bool, k: nat)
    requires WellFormed(duration, w, oracle)
    requires k < |oracle|
    requires AllRecognised(oracle, k)
    requires oracle[k].Err?
    ensures Identify(duration, w, oracle, reporting).failure == Some(Raised(oracle[k].error))
    ensures Identify(duration, w, oracle, reporting).calls == Windows(duration, w)[..k + 1]
    ensures |Identify(duration, w, oracle, reporting).reports| == (if reporting then k else 0)
  {
    if k > 0 {
      StartBelowIff(duration, w, k);
      Arith.MulMono(1, k, w);
    }
    LoopSucceeds(duration, w, oracle, reporting, k);
    LoopSucceeds(duration, w, oracle, reporting, k + 1);
    FailFast(duration, w, oracle, reporting, k);
    SuccessReports(duration, w, oracle, reporting, k);
  }

  /** FirstRaise for every candidate segment at once. */
  lemma RaiseOutcomes(duration: nat, w: nat, oracle: seq<Recognition>, reporting: bool)
    requires WellFormed(duration, w, oracle)
    ensures forall k :: 0 <= k < |oracle| && AllRecognised(oracle, k) && oracle[k].Err? ==>
              && Identify(duration, w, oracle, reporting).failure == Some(Raised(oracle[k].error))
              && |Identify(duration, w, oracle, reporting).reports| == (if reporting then k else 0)
  {
    forall k | 0 <= k < |oracle| && AllRecognised(oracle, k) && oracle[k].Err? {
      FirstRaise(duration, w, oracle, reporting, k);
    }
  }

  /**
    A non-empty recording shorter than one window whose single segment is
    recognised: the progress division raises, before any value is reported.
  */
  lemma DivisionOutcome(duration: nat, w: nat, oracle: seq<Recognition>)
    requires WellFormed(duration, w, oracle)
    ensures AllRecognised(oracle, |oracle|) && 0 < duration < w ==>
              && |oracle| == 1
              && Identify(duration, w, oracle, true).failure == Some(ZeroDivision)
              && Identify(duration, w, oracle, true).reports == []
  {
    if AllRecognised(oracle, |oracle|) && 0 < duration < w {
      StartsShape(duration, w);
      CeilDivStep(duration, w);
      LoopSucceeds(duration, w, oracle, true, 0);
      LoopSucceeds(duration, w, oracle, true, 1);
      FailFast(duration, w, oracle, true, 0);
    }
  }

  /** Start i * w is still below the duration exactly while segments remain. */
  lemma StartBelowIff(duration: nat, w: nat, i: nat)
    requires w > 0
    ensures i * w < duration <==> i < SegmentCount(duration, w)
    ensures i < SegmentCount(duration, w) ==> Windows(duration, w)[i] == Slice(i * w, w, duration)
  {
    StartsShape(duration, w);
    var n := SegmentCount(duration, w);
    if i * w < duration {
      Arith.MulCancelLt(i, n, w);
    }
    if i < n {
      assert Starts(duration, w)[i] == i * w;
    }
  }

  /** What iteration n + 1 does, spelled out for the imperative loop. */
  lemma LoopUnfold(duration: nat, w: nat, oracle: seq<Recognition>, reporting: bool, n: nat)
    requires WellFormed(duration, w, oracle)
    requires n < |oracle|
    requires Loop(duration, w, oracle, reporting, n).failure.None?
    ensures var prev := Loop(duration, w, oracle, reporting, n);
            var next := Loop(duration, w, oracle, reporting, n + 1);
            && next.calls == prev.calls + [Slice(n * w, w, duration)]
            && (oracle[n].Err? ==> next.seen == prev.seen && next.reports == prev.reports &&
                                   next.failure == Some(Raised(oracle[n].error)))
            && (oracle[n].Ok? ==> next.seen == Step(prev.seen, oracle[n].value))
            && (oracle[n].Ok? && !reporting ==> next.reports == prev.reports && next.failure.None?)
            && (oracle[n].Ok? && reporting && duration / w == 0 ==>
                  next.reports == prev.reports && next.failure == Some(ZeroDivision))
            && (oracle[n].Ok? && reporting && duration / w != 0 ==>
                  next.reports == prev.reports + [(n + 1) * 100 / (duration / w)] && next.failure.None?)
  {
    StartBelowIff(duration, w, n);
  }

  /**
    The loop as the source writes it: walk `range(0, duration, w)` with a
    counter, mutate `tracks` and `seen_track_ids` in place, stop at the
    first exception.
  */
  method IdentifyTracks(duration: nat, w: nat, oracle: seq<Recognition>, reporting: bool)
    returns (tracks: seq<Track>, seenIds: set<string>, calls: seq<Window>, reports: seq<nat>, failure: Option<Failure>)
    requires WellFormed(duration, w, oracle)
    ensures Run(Seen(tracks, seenIds), calls, reports, failure) == Identify(duration, w, oracle, reporting)
    ensures failure.None? ==> tracks == Firsts(Matches(oracle), |oracle|) && DistinctKeys(tracks)
  {
    tracks, seenIds, calls, reports, failure := [], {}, [], [], None;
    var i: nat := 0;
    var start: nat := 0;
    while start < duration && failure.None?
      invariant i <= |oracle|
      invariant start == i * w
      invariant Run(Seen(tracks, seenIds), calls, reports, failure) == Loop(duration, w, oracle, reporting, i)
      decreases duration - start
    {
      StartBelowIff(duration, w, i);
      LoopUnfold(duration, w, oracle, reporting, i);
      calls := calls + [Slice(start, w, duration)];
      match oracle[i] {
        case Err(e) =>
          failure := Some(Raised(e));
        case Ok(r) =>
          if r.Some? && r.value.key !in seenIds {
            tracks := tracks + [r.value];
            seenIds := seenIds + {r.value.key};
          }
          if reporting {
            var total := duration / w;
            if total == 0 {
              failure := Some(ZeroDivision);
            } else {
              reports := reports + [(i + 1) * 100 / total];
            }
          }
      }
      i := i + 1;
      start := start + w;
    }
    if failure.Some? {
      LoopStaysFailed(duration, w, oracle, reporting, i, |oracle|);
    } else {
      StartBelowIff(duration, w, i);
      assert i == |oracle|;
      IdentifyCorrect(duration, w, oracle, reporting);
    }
  }
}
