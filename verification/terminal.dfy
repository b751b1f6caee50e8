/**
  The command-line program with 60-second windows. Its `identify_tracks`
  computes `total_segments` but never uses it: there is no progress
  arithmetic, so no division by zero either.
*/
module Terminal {
  import opened Wrappers
  import opened Errors
  import opened Segmentation
  import opened Dedup
  import opened Pipeline

  /** `segment_duration`, in milliseconds. */
  const SegmentDuration: nat := 60000

  /**
    `identify_tracks` on a recording of `duration` ms. It fails only when a
    recognition call raises, for every duration, and then with the exception
    of the first segment that raised; otherwise it returns the
    first-occurrence tracks: no repeated key, and exactly the keys some
    segment matched.
  */
  function IdentifyTracks(duration: nat, oracle: seq<Recognition>): (r: Result<seq<Track>, Failure>)
    requires |oracle| == SegmentCount(duration, SegmentDuration)
    ensures r.Ok? <==> AllRecognised(oracle, |oracle|)
    ensures r.Ok? ==> r.value == Firsts(Matches(oracle), |oracle|)
    ensures r.Ok? ==> DistinctKeys(r.value) && Keys(r.value) == MatchedKeys(Matches(oracle), |oracle|)
    ensures r.Err? ==> r.error.Raised?
    ensures forall k :: 0 <= k < |oracle| && AllRecognised(oracle, k) && oracle[k].Err? ==>
              r == Err(Raised(oracle[k].error))
  {
    var run := Identify(duration, SegmentDuration, oracle, false);
    IdentifyCorrect(duration, SegmentDuration, oracle, false);
    RaiseOutcomes(duration, SegmentDuration, oracle, false);
    if run.failure.None? then
      DedupCorrect(Matches(oracle));
      Ok(run.seen.tracks)
    else
      FirstFailure(duration, SegmentDuration, oracle, false);
      Err(run.failure.value)
  }

  /**
    The recognition calls: exactly one per window of
    `range(0, duration, 60000)`, in increasing order, when none raises.
  */
  lemma TerminalCalls(duration: nat, oracle: seq<Recognition>)
    requires |oracle| == SegmentCount(duration, SegmentDuration)
    requires AllRecognised(oracle, |oracle|)
    ensures Identify(duration, SegmentDuration, oracle, false).calls == Windows(duration, SegmentDuration)
    ensures forall i :: 0 <= i < |oracle| ==>
              Identify(duration, SegmentDuration, oracle, false).calls[i].start == i * SegmentDuration
  {
    IdentifyCorrect(duration, SegmentDuration, oracle, false);
    forall i | 0 <= i < |oracle|
      ensures Windows(duration, SegmentDuration)[i].start == i * SegmentDuration
    {
      WindowShape(duration, SegmentDuration, i);
    }
  }
}
