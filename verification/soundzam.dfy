/**
  The Flask program with 120-second windows: `identify_tracks`, which also
  writes the global `analysis_progress`, the yt-dlp download hook that
  writes `download_progress`, and the platform test at the top of the POST
  branch of `index`.
*/
module SoundZam {
  import opened Wrappers
  import opened Errors
  import opened Segmentation
  import opened Dedup
  import Progress
  import Arith
  import opened Pipeline

  /** `segment_duration`, in milliseconds. */
  const SegmentDuration: nat := 120000

  /** What `identify_tracks` leaves behind: its return value or exception, and `analysis_progress`. */
  datatype Analysis = Analysis(tracks: Result<seq<Track>, Failure>, analysisProgress: nat)

  /**
    `identify_tracks` on a recording of `duration` ms, with `progress` the
    value of `analysis_progress` on entry. Each completed segment
    overwrites the global, so on exit it holds the last value computed, or
    is untouched if no segment got that far. Nothing in the function resets
    it when a segment raises: after the first raising segment k it still
    holds the value of segment k - 1.
  */
  function IdentifyTracks(duration: nat, oracle: seq<Recognition>, progress: nat): (a: Analysis)
    requires |oracle| == SegmentCount(duration, SegmentDuration)
    ensures a.tracks.Ok? <==> AllRecognised(oracle, |oracle|) && (duration == 0 || duration >= SegmentDuration)
    ensures a.tracks.Ok? ==> a.tracks.value == Firsts(Matches(oracle), |oracle|) && DistinctKeys(a.tracks.value)
    ensures a.tracks.Ok? && duration == 0 ==> a.analysisProgress == progress
    ensures a.tracks.Ok? && duration > 0 ==>
              Progress.Percent(|oracle| - 1, duration, SegmentDuration) == Ok(a.analysisProgress)
    ensures forall k :: 0 <= k < |oracle| && AllRecognised(oracle, k) && oracle[k].Err? ==>
              && a.tracks == Err(Raised(oracle[k].error))
              && (k == 0 ==> a.analysisProgress == progress)
              && (k > 0 ==> Progress.Percent(k - 1, duration, SegmentDuration) == Ok(a.analysisProgress))
    ensures AllRecognised(oracle, |oracle|) && 0 < duration < SegmentDuration ==>
              a == Analysis(Err(ZeroDivision), progress)
  {
    var run := Identify(duration, SegmentDuration, oracle, true);
    IdentifyCorrect(duration, SegmentDuration, oracle, true);
    RaiseOutcomes(duration, SegmentDuration, oracle, true);
    DivisionOutcome(duration, SegmentDuration, oracle);
    ReportsArePercents(duration, SegmentDuration, oracle, true, |oracle|);
    StartsShape(duration, SegmentDuration);
    if run.failure.None? then
      LoopOnSuccess(duration, SegmentDuration, oracle, true, |oracle|);
      Analysis(Ok(run.seen.tracks), if |run.reports| == 0 then progress else run.reports[|run.reports| - 1])
    else
      Analysis(Err(run.failure.value), if |run.reports| == 0 then progress else run.reports[|run.reports| - 1])
  }

  /**
    The value `analysis_progress` ends at after a successful run on a
    recording of at least one window: at least 100, and above 100 exactly
    when the last window is short and there are at most 100 full windows.
  */
  lemma FinalAnalysisProgress(duration: nat, oracle: seq<Recognition>, progress: nat)
    requires |oracle| == SegmentCount(duration, SegmentDuration)
    requires duration >= SegmentDuration
    requires IdentifyTracks(duration, oracle, progress).tracks.Ok?
    ensures IdentifyTracks(duration, oracle, progress).analysisProgress >= 100
    ensures IdentifyTracks(duration, oracle, progress).analysisProgress > 100 <==>
              duration % SegmentDuration != 0 && duration / SegmentDuration <= 100
  {
    Progress.FinalPercent(duration, SegmentDuration);
  }

  /**
    A non-empty recording shorter than one window: the single segment is
    recognised, then the progress update divides by zero.
  */
  lemma ShortRecordingFails(duration: nat, oracle: seq<Recognition>, progress: nat)
    requires |oracle| == SegmentCount(duration, SegmentDuration)
    requires 0 < duration < SegmentDuration
    requires AllRecognised(oracle, |oracle|)
    ensures |oracle| == 1
    ensures IdentifyTracks(duration, oracle, progress) == Analysis(Err(ZeroDivision), progress)
  {
    StartsShape(duration, SegmentDuration);
    CeilDivStep(duration, SegmentDuration);
    LoopSucceeds(duration, SegmentDuration, oracle, true, 0);
    LoopSucceeds(duration, SegmentDuration, oracle, true, 1);
    FailFast(duration, SegmentDuration, oracle, true, 0);
  }

  /**
    A five-minute mix: three windows (two full, one of 60 s). Segments 1
    and 2 both match X and segment 3 matches Y, so the result is [X, Y];
    with only two full windows the progress runs 50, 100, 150.
  */
  lemma FiveMinuteMix(x: Track, y: Track)
    requires x.key != y.key
    ensures Windows(300000, SegmentDuration) ==
              [Window(0, 120000), Window(120000, 240000), Window(240000, 300000)]
    ensures IdentifyTracks(300000, [Ok(Some(x)), Ok(Some(x)), Ok(Some(y))], 0) == Analysis(Ok([x, y]), 150)
    ensures Identify(300000, SegmentDuration, [Ok(Some(x)), Ok(Some(x)), Ok(Some(y))], true).reports == [50, 100, 150]
  {
    FiveMinuteWindows();
    FiveMinuteRun(x, y);
  }

  lemma FiveMinuteWindows()
    ensures Windows(300000, SegmentDuration) ==
              [Window(0, 120000), Window(120000, 240000), Window(240000, 300000)]
  {
    assert Starts(300000, SegmentDuration) == [0, 120000, 240000];
  }

  lemma FiveMinuteRun(x: Track, y: Track)
    requires x.key != y.key
    ensures SegmentCount(300000, SegmentDuration) == 3
    ensures IdentifyTracks(300000, [Ok(Some(x)), Ok(Some(x)), Ok(Some(y))], 0) == Analysis(Ok([x, y]), 150)
    ensures Identify(300000, SegmentDuration, [Ok(Some(x)), Ok(Some(x)), Ok(Some(y))], true).reports == [50, 100, 150]
  {
    FiveMinuteWindows();
    FiveMinuteLoop(x, y);
  }

  /** The three iterations of the five-minute mix, one at a time. */
  lemma FiveMinuteLoop(x: Track, y: Track)
    requires x.key != y.key
    ensures SegmentCount(300000, SegmentDuration) == 3
    ensures Loop(300000, SegmentDuration, [Ok(Some(x)), Ok(Some(x)), Ok(Some(y))], true, 3) ==
            Run(Seen([x, y], {x.key, y.key}), Windows(300000, SegmentDuration), [50, 100, 150], None)
  {
    FiveMinuteWindows();
    FiveMinutePercents();
    var oracle: seq<Recognition> := [Ok(Some(x)), Ok(Some(x)), Ok(Some(y))];
    FiveMinuteTwo(x, y);
    LoopStepOk(300000, SegmentDuration, oracle, true, 2, Some(y));
  }

  lemma FiveMinuteTwo(x: Track, y: Track)
    ensures SegmentCount(300000, SegmentDuration) == 3
    ensures Loop(300000, SegmentDuration, [Ok(Some(x)), Ok(Some(x)), Ok(Some(y))], true, 2) ==
            Run(Seen([x], {x.key}), Windows(300000, SegmentDuration)[..2], [50, 100], None)
  {
    FiveMinuteWindows();
    FiveMinutePercents();
    var oracle: seq<Recognition> := [Ok(Some(x)), Ok(Some(x)), Ok(Some(y))];
    LoopStepOk(300000, SegmentDuration, oracle, true, 0, Some(x));
    LoopStepOk(300000, SegmentDuration, oracle, true, 1, Some(x));
  }

  lemma FiveMinutePercents()
    ensures Progress.Percent(0, 300000, SegmentDuration) == Ok(50)
    ensures Progress.Percent(1, 300000, SegmentDuration) == Ok(100)
    ensures Progress.Percent(2, 300000, SegmentDuration) == Ok(150)
  {
  }

  /**
    When segment 2 of 2 raises, `identify_tracks` leaves the 50 computed
    after segment 1 in `analysis_progress`: nothing in the function resets it.
  */
  lemma StaleProgressOnFailure(t: Track)
    ensures IdentifyTracks(240000, [Ok(Some(t)), Err("timeout")], 0) == Analysis(Err(Raised("timeout")), 50)
  {
    StartsShape(240000, SegmentDuration);
    CeilDivVsDiv(240000, SegmentDuration);
    assert SegmentCount(240000, SegmentDuration) == 2;
    var oracle: seq<Recognition> := [Ok(Some(t)), Err("timeout")];
    var ws := Windows(240000, SegmentDuration);
    assert Loop(240000, SegmentDuration, oracle, true, 1) ==
           Run(Seen([t], {t.key}), [ws[0]], [50], None);
    assert Loop(240000, SegmentDuration, oracle, true, 2) ==
           Run(Seen([t], {t.key}), [ws[0], ws[1]], [50], Some(Raised("timeout")));
  }

  // ----- yt_dlp_progress_hook -----

  /**
    The hook's effect on `download_progress` (`current` on entry) for a
    status dictionary with the given fields. A zero `total_bytes` raises.
  */
  function ProgressHook(current: int, status: string, downloaded: nat, total: nat): (r: Result<int, Failure>)
    ensures status == "finished" ==> r == Ok(90)
    ensures status != "finished" && status != "downloading" ==> r == Ok(current)
    ensures status == "downloading" ==> (r.Err? <==> total == 0)
    ensures status == "downloading" && total > 0 ==>
              (r.value - 50) * total <= downloaded * 40 < (r.value - 49) * total
  {
    if status == "finished" then Ok(90)
    else if status == "downloading" then
      if total == 0 then Err(ZeroDivision)
      else
        var q := downloaded * 40 / total;
        assert (q + 1) * total == q * total + total;
        Ok(50 + q)
    else Ok(current)
  }

  /** While downloading, the value stays within [50, 90] and grows with the bytes received. */
  lemma HookBounds(downloaded: nat, more: nat, total: nat)
    requires 0 < total
    requires downloaded <= more <= total
    ensures 50 <= ProgressHook(0, "downloading", downloaded, total).value
    ensures ProgressHook(0, "downloading", downloaded, total).value <=
            ProgressHook(0, "downloading", more, total).value <= 90
    ensures more == total ==> ProgressHook(0, "downloading", more, total).value == 90
  {
    Arith.DivMono(downloaded * 40, more * 40, total);
    Arith.DivMono(more * 40, total * 40, total);
    Arith.DivUnique(total * 40, total, 40);
  }

  // ----- platform dispatch in index -----

  /** p occurs in s starting at offset i. */
  predicate OccursAt(p: string, s: string, i: int)
  {
    0 <= i && i + |p| <= |s| && s[i..i + |p|] == p
  }

  /** p occurs in s at some offset: Python's `p in s` on strings. */
  ghost predicate Occurs(p: string, s: string)
  {
    exists i :: OccursAt(p, s, i)
  }

  /** A left-to-right scan for p in s. */
  function Contains(s: string, p: string): bool
    decreases |s|
  {
    if |p| > |s| then false
    else if s[..|p|] == p then true
    else Contains(s[1..], p)
  }

  lemma TailSlice(s: string, i: nat, m: nat)
    requires 1 <= i && i + m <= |s|
    ensures s[1..][i - 1..i - 1 + m] == s[i..i + m]
  {
    var a, b := s[1..][i - 1..i - 1 + m], s[i..i + m];
    assert forall k :: 0 <= k < m ==> a[k] == b[k];
  }

  lemma {:induction false} ContainsIff(s: string, p: string)
    ensures Contains(s, p) <==> Occurs(p, s)
    decreases |s|
  {
    if |p| <= |s| {
      if s[..|p|] == p {
        assert OccursAt(p, s, 0);
      } else {
        ContainsIff(s[1..], p);
        if Occurs(p, s[1..]) {
          var i :| OccursAt(p, s[1..], i);
          TailSlice(s, i + 1, |p|);
          assert OccursAt(p, s, i + 1);
        }
        if Occurs(p, s) {
          var i :| OccursAt(p, s, i);
          assert i != 0;
          TailSlice(s, i, |p|);
          assert OccursAt(p, s[1..], i - 1);
        }
      }
    }
  }

  datatype Platform = SoundCloud | YouTube

  const UnsupportedUrl: string := "Unsupported URL. Please provide a SoundCloud or YouTube link."

  /**
    Which downloader `index` calls for the submitted URL. The SoundCloud
    test comes first and wins when both hosts appear; anything else is the
    ValueError with the "Unsupported URL" message.
  */
  function ClassifyUrl(url: string): (r: Result<Platform, string>)
    ensures r == Ok(SoundCloud) <==> Occurs("soundcloud.com", url)
    ensures r == Ok(YouTube) <==>
              !Occurs("soundcloud.com", url) && (Occurs("youtube.com", url) || Occurs("youtu.be", url))
    ensures r.Err? <==>
              !Occurs("soundcloud.com", url) && !Occurs("youtube.com", url) && !Occurs("youtu.be", url)
    ensures r.Err? ==> r.error == UnsupportedUrl
  {
    ContainsIff(url, "soundcloud.com");
    ContainsIff(url, "youtube.com");
    ContainsIff(url, "youtu.be");
    if Contains(url, "soundcloud.com") then Ok(SoundCloud)
    else if Contains(url, "youtube.com") || Contains(url, "youtu.be") then Ok(YouTube)
    else Err(UnsupportedUrl)
  }
}
