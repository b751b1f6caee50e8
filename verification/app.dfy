/**
  The Flask program with 60-second windows and a shared `progress`
  dictionary: `set_progress`, `identify_tracks` (which reports a value and
  a status string after every segment), and the POST branch of `index`,
  which moves the dictionary through a fixed sequence of states and shapes
  the tracks into the JSON result list.
*/
module App {
  import opened Wrappers
  import opened Errors
  import opened Segmentation
  import opened Dedup
  import Progress
  import opened Pipeline
  import opened Decimal

  /** `segment_duration`, in milliseconds. */
  const SegmentDuration: nat := 60000

  // ----- the progress dictionary -----

  /** A value stored in the `progress` dictionary. */
  datatype Field = Int(n: int) | Str(s: string)

  type ProgressDict = map<string, Field>

  /** The module-level initial value `{"value": 0, "status": ""}`. */
  const InitialProgress: ProgressDict := map["value" := Int(0), "status" := Str("")]

  /** `set_progress(value, status)`: overwrites the two entries and nothing else. */
  function SetProgress(p: ProgressDict, value: int, status: string): (q: ProgressDict)
    ensures q.Keys == p.Keys + {"value", "status"}
    ensures q["value"] == Int(value) && q["status"] == Str(status)
    ensures forall k :: k in p && k != "value" && k != "status" ==> q[k] == p[k]
  {
    p["value" := Int(value)]["status" := Str(status)]
  }

  /** The dictionary shows the given value and status. */
  predicate Shows(p: ProgressDict, value: int, status: string)
  {
    "value" in p && "status" in p && p["value"] == Int(value) && p["status"] == Str(status)
  }

  /** The arguments of one `set_progress` call. */
  datatype Update = Update(value: int, status: string)

  /** The dictionary after a series of `set_progress` calls. */
  function Apply(p: ProgressDict, us: seq<Update>): ProgressDict
    decreases |us|
  {
    if |us| == 0 then p
    else Apply(SetProgress(p, us[0].value, us[0].status), us[1..])
  }

  /** After at least one call, the dictionary shows the last call's arguments. */
  lemma {:induction false} ApplyShowsLast(p: ProgressDict, us: seq<Update>)
    requires |us| > 0
    ensures Shows(Apply(p, us), us[|us| - 1].value, us[|us| - 1].status)
    ensures Apply(p, us).Keys == p.Keys + {"value", "status"}
    decreases |us|
  {
    if |us| > 1 {
      var q := SetProgress(p, us[0].value, us[0].status);
      ApplyShowsLast(q, us[1..]);
      assert us[1..][|us[1..]| - 1] == us[|us| - 1];
    }
  }

  // ----- status strings -----

  const StatusPrefix: string := "Processing segment "

  /**
    Reads a status string of the form "Processing segment K of T" back into
    (K, T); None for any other string.
  */
  function ParseStatus(s: string): Option<(nat, nat)>
  {
    if |s| < |StatusPrefix| || s[..|StatusPrefix|] != StatusPrefix then None
    else
      var rest := s[|StatusPrefix|..];
      var n := DigitRun(rest);
      var tail := rest[n..];
      if n == 0 || |tail| < 4 || tail[..4] != " of " then None
      else
        var t := tail[4..];
        if |t| == 0 || !AllDigits(t) then None
        else
          assert AllDigits(rest[..n]) by {
            assert forall i :: 0 <= i < n ==> rest[..n][i] == rest[i];
          }
          Some((Value(rest[..n]), Value(t)))
  }

  lemma StatusRoundTrip(k: nat, total: nat)
    ensures ParseStatus(StatusPrefix + NatToString(k) + " of " + NatToString(total)) == Some((k, total))
  {
    var a, b := NatToString(k), NatToString(total);
    var rest := a + " of " + b;
    Split(StatusPrefix, rest);
    assert StatusPrefix + a + " of " + b == StatusPrefix + rest;
    NumberThenOf(a, b);
    NatToStringValue(k);
    NatToStringValue(total);
  }

  /** Taking the first |p| characters of p + x gives p, and dropping them gives x. */
  lemma Split(p: string, x: string)
    ensures (p + x)[..|p|] == p && (p + x)[|p|..] == x
  {
  }

  /** In `a of b`, the leading digit run is a, and what follows it is " of " + b. */
  lemma NumberThenOf(a: string, b: string)
    requires |a| > 0 && AllDigits(a)
    ensures var r := a + " of " + b;
            && DigitRun(r) == |a|
            && r[..|a|] == a
            && r[|a|..][..4] == " of "
            && r[|a|..][4..] == b
  {
    var r := a + " of " + b;
    assert r == a + (" of " + b);
    DigitRunOf(a, " of " + b);
    Split(a, " of " + b);
    Split(" of ", b);
  }

  /**
    `f"Processing segment {i + 1} of {total_segments}"`, with k = i + 1. The
    string names its segment and total unambiguously: reading it back gives
    exactly (k, total).
  */
  function SegmentStatus(k: nat, total: nat): (s: string)
    ensures ParseStatus(s) == Some((k, total))
  {
    StatusRoundTrip(k, total);
    StatusPrefix + NatToString(k) + " of " + NatToString(total)
  }

  // ----- identify_tracks -----

  /** The return value or exception of `identify_tracks`, and the `set_progress` calls it made. */
  datatype Identified = Identified(tracks: Result<seq<Track>, Failure>, updates: seq<Update>)

  /** The `set_progress` call after each segment that computed its progress value. */
  function SegmentUpdates(duration: nat, reports: seq<nat>): seq<Update>
  {
    seq(|reports|, i requires 0 <= i < |reports| =>
          Update(reports[i], SegmentStatus(i + 1, duration / SegmentDuration)))
  }

  /**
    `identify_tracks` once `AudioSegment.from_file` has produced a recording
    of `duration` ms. It fails exactly when a recognition call raises, with
    the first such exception after one `set_progress` call per earlier
    segment, or when 0 < duration < 60000, with the division error before
    any call. On success it returns the first-occurrence tracks and has
    made one `set_progress` call per segment.
  */
  function IdentifyTracks(duration: nat, oracle: seq<Recognition>): (r: Identified)
    requires |oracle| == SegmentCount(duration, SegmentDuration)
    ensures r.tracks.Ok? <==> AllRecognised(oracle, |oracle|) && (duration == 0 || duration >= SegmentDuration)
    ensures r.tracks.Ok? ==> r.tracks.value == Firsts(Matches(oracle), |oracle|) && DistinctKeys(r.tracks.value)
    ensures r.tracks.Ok? ==> |r.updates| == |oracle|
    ensures |r.updates| <= |oracle|
    ensures forall k :: 0 <= k < |oracle| && AllRecognised(oracle, k) && oracle[k].Err? ==>
              r.tracks == Err(Raised(oracle[k].error)) && |r.updates| == k
    ensures AllRecognised(oracle, |oracle|) && 0 < duration < SegmentDuration ==>
              r.tracks == Err(ZeroDivision) && r.updates == []
  {
    var run := Identify(duration, SegmentDuration, oracle, true);
    IdentifyCorrect(duration, SegmentDuration, oracle, true);
    RaiseOutcomes(duration, SegmentDuration, oracle, true);
    DivisionOutcome(duration, SegmentDuration, oracle);
    ReportsArePercents(duration, SegmentDuration, oracle, true, |oracle|);
    var updates := SegmentUpdates(duration, run.reports);
    if run.failure.None? then Identified(Ok(run.seen.tracks), updates)
    else Identified(Err(run.failure.value), updates)
  }

  /**
    Each `set_progress` call of `identify_tracks`, the i-th, carries the
    formula's value for segment i and the status
    "Processing segment i+1 of duration // 60000".
  */
  lemma IdentifyUpdates(duration: nat, oracle: seq<Recognition>)
    requires |oracle| == SegmentCount(duration, SegmentDuration)
    ensures forall i :: 0 <= i < |IdentifyTracks(duration, oracle).updates| ==>
              Progress.Percent(i, duration, SegmentDuration) == Ok(IdentifyTracks(duration, oracle).updates[i].value) &&
              IdentifyTracks(duration, oracle).updates[i].status == SegmentStatus(i + 1, duration / SegmentDuration)
  {
    ReportsArePercents(duration, SegmentDuration, oracle, true, |oracle|);
  }

  // ----- index -----

  /** A search hit from `get_youtube_link`. */
  datatype Video = Video(link: string, id: string)

  /** One entry of the JSON `results` list. */
  datatype Entry = Entry(artist: string, title: string, youtubeLink: Option<string>, youtubeId: Option<string>)

  /** The JSON body `index` returns: the results (status 200) or the error message (status 400). */
  datatype Response = Results(results: seq<Entry>) | Error(message: string)

  /** What one POST does: its `set_progress` calls, in order, and its response. */
  datatype IndexRun = IndexRun(updates: seq<Update>, response: Response)

  /** The entry for a track and the search's answer (`None, None` when nothing was found). */
  function EntryFor(t: Track, v: Option<Video>): Entry
  {
    match v
    case Some(video) => Entry(t.subtitle, t.title, Some(video.link), Some(video.id))
    case None => Entry(t.subtitle, t.title, None, None)
  }

  /** Every track's link lookup returns without raising. */
  predicate AllLookedUp(tracks: seq<Track>, lookup: (string, string) -> Result<Option<Video>, string>)
  {
    forall k :: 0 <= k < |tracks| ==> lookup(tracks[k].subtitle, tracks[k].title).Ok?
  }

  /**
    The loop that builds `results`: one entry per track, in track order,
    carrying the track's `subtitle` as artist and its `title`; the first
    lookup that raises aborts it with that exception.
  */
  function ShapeResults(tracks: seq<Track>, lookup: (string, string) -> Result<Option<Video>, string>): (r: Result<seq<Entry>, string>)
    ensures r.Ok? <==> AllLookedUp(tracks, lookup)
    ensures r.Ok? ==> |r.value| == |tracks|
    ensures r.Ok? ==> forall k :: 0 <= k < |tracks| ==>
              r.value[k] == EntryFor(tracks[k], lookup(tracks[k].subtitle, tracks[k].title).value)
    ensures r.Err? ==>
              exists k :: 0 <= k < |tracks| && AllLookedUp(tracks[..k], lookup) &&
                          lookup(tracks[k].subtitle, tracks[k].title) == Err(r.error)
    decreases |tracks|
  {
    if |tracks| == 0 then Ok([])
    else
      var t := tracks[0];
      match lookup(t.subtitle, t.title)
      case Err(e) =>
        assert AllLookedUp(tracks[..0], lookup);
        Err(e)
      case Ok(v) =>
        match ShapeResults(tracks[1..], lookup)
        case Err(e) =>
          var k :| 0 <= k < |tracks[1..]| && AllLookedUp(tracks[1..][..k], lookup) &&
                   lookup(tracks[1..][k].subtitle, tracks[1..][k].title) == Err(e);
          var pre := tracks[..k + 1];
          assert AllLookedUp(pre, lookup) by {
            forall j | 0 <= j < |pre|
              ensures lookup(pre[j].subtitle, pre[j].title).Ok?
            {
              if j > 0 {
                assert pre[j] == tracks[1..][..k][j - 1];
              }
            }
          }
          Err(e)
        case Ok(rest) =>
          assert AllLookedUp(tracks, lookup) by {
            forall j | 0 <= j < |tracks|
              ensures lookup(tracks[j].subtitle, tracks[j].title).Ok?
            {
              if j > 0 {
                assert tracks[j] == tracks[1..][j - 1];
              }
            }
          }
          Ok([EntryFor(t, v)] + rest)
  }

  const Starting: Update := Update(0, "Starting...")
  const Downloading: Update := Update(5, "Downloading audio from SoundCloud...")
  const Identifying: Update := Update(10, "Starting track identification...")
  const FetchingLinks: Update := Update(90, "Fetching YouTube links...")
  const Complete: Update := Update(100, "Complete")
  const ErrorOccurred: Update := Update(0, "Error occurred")

  /**
    The POST branch of `index`. `downloadError` is the message of the
    exception `download_soundcloud_audio` raised, or None when it returned
    the file. `decoded` is the outcome of `AudioSegment.from_file`, the first
    step of `identify_tracks`: the length in ms of the audio, or the
    message of the exception. `oracle` holds the recognition answers for
    that audio, and `lookup` is `get_youtube_link`. Any exception sets the
    error state and its `str(e)` becomes the error response.
  */
  function Index(downloadError: Option<string>, decoded: Result<nat, string>, oracle: seq<Recognition>,
                 lookup: (string, string) -> Result<Option<Video>, string>): (r: IndexRun)
    requires decoded.Ok? ==> |oracle| == SegmentCount(decoded.value, SegmentDuration)
    ensures |r.updates| >= 3 && r.updates[0] == Starting && r.updates[1] == Downloading
    ensures r.response.Results? <==> r.updates[|r.updates| - 1] == Complete
    ensures r.response.Error? <==> r.updates[|r.updates| - 1] == ErrorOccurred
    ensures downloadError.Some? ==>
              r == IndexRun([Starting, Downloading, ErrorOccurred], Error(downloadError.value))
    ensures downloadError.None? ==> r.updates[2] == Identifying
    ensures downloadError.None? && decoded.Err? ==>
              r == IndexRun([Starting, Downloading, Identifying, ErrorOccurred], Error(decoded.error))
  {
    var opening := [Starting, Downloading];
    if downloadError.Some? then IndexRun(opening + [ErrorOccurred], Error(downloadError.value))
    else
      var identifying := opening + [Identifying];
      match decoded
      case Err(msg) => IndexRun(identifying + [ErrorOccurred], Error(msg))
      case Ok(duration) =>
        var identified := IdentifyTracks(duration, oracle);
        var analysed := identifying + identified.updates;
        match identified.tracks
        case Err(f) => IndexRun(analysed + [ErrorOccurred], Error(Message(f)))
        case Ok(tracks) =>
          var fetching := analysed + [FetchingLinks];
          match ShapeResults(tracks, lookup)
          case Err(msg) => IndexRun(fetching + [ErrorOccurred], Error(msg))
          case Ok(results) => IndexRun(fetching + [Complete], Results(results))
  }

  /**
    A request succeeds exactly when the download and the decoding work, no
    recognition call raises, the recording is empty or at least one window
    long, and no link lookup raises.
  */
  lemma IndexSucceedsIff(downloadError: Option<string>, decoded: Result<nat, string>, oracle: seq<Recognition>,
                         lookup: (string, string) -> Result<Option<Video>, string>)
    requires decoded.Ok? ==> |oracle| == SegmentCount(decoded.value, SegmentDuration)
    ensures Index(downloadError, decoded, oracle, lookup).response.Results? <==>
              && downloadError.None?
              && decoded.Ok?
              && AllRecognised(oracle, |oracle|)
              && (decoded.value == 0 || decoded.value >= SegmentDuration)
              && AllLookedUp(Firsts(Matches(oracle), |oracle|), lookup)
  {
  }

  /** How a successful request's state sequence is put together. */
  lemma IndexSuccessShape(downloadError: Option<string>, decoded: Result<nat, string>, oracle: seq<Recognition>,
                          lookup: (string, string) -> Result<Option<Video>, string>)
    requires decoded.Ok? ==> |oracle| == SegmentCount(decoded.value, SegmentDuration)
    requires Index(downloadError, decoded, oracle, lookup).response.Results?
    ensures downloadError.None? && decoded.Ok? && IdentifyTracks(decoded.value, oracle).tracks.Ok?
    ensures Index(downloadError, decoded, oracle, lookup).updates ==
              [Starting, Downloading, Identifying] + IdentifyTracks(decoded.value, oracle).updates + [FetchingLinks, Complete]
    ensures Ok(Index(downloadError, decoded, oracle, lookup).response.results) ==
              ShapeResults(IdentifyTracks(decoded.value, oracle).tracks.value, lookup)
  {
  }

  /**
    When segment k is the first whose recognition call raises, the request
    answers with that exception's message, after the three opening states
    and the k segment states, and ends in the error state.
  */
  lemma IndexRecognitionFailure(decoded: nat, oracle: seq<Recognition>,
                                lookup: (string, string) -> Result<Option<Video>, string>, k: nat)
    requires |oracle| == SegmentCount(decoded, SegmentDuration)
    requires k < |oracle| && AllRecognised(oracle, k) && oracle[k].Err?
    ensures Index(None, Ok(decoded), oracle, lookup).response == Error(oracle[k].error)
    ensures |Index(None, Ok(decoded), oracle, lookup).updates| == k + 4
  {
    assert IdentifyTracks(decoded, oracle).tracks == Err(Raised(oracle[k].error));
  }

  /**
    A non-empty recording shorter than one window whose segment is
    recognised: the progress division raises, and the response is its
    message, "division by zero", with no segment state in between.
  */
  lemma IndexDivisionFailure(decoded: nat, oracle: seq<Recognition>,
                             lookup: (string, string) -> Result<Option<Video>, string>)
    requires |oracle| == SegmentCount(decoded, SegmentDuration)
    requires AllRecognised(oracle, |oracle|) && 0 < decoded < SegmentDuration
    ensures Index(None, Ok(decoded), oracle, lookup) ==
              IndexRun([Starting, Downloading, Identifying, ErrorOccurred], Error("division by zero"))
  {
    assert IdentifyTracks(decoded, oracle).tracks == Err(ZeroDivision);
  }

  /**
    When identification succeeds but a link lookup raises, the response is
    the message of the first lookup that raised, after the (90, ...) state.
  */
  lemma IndexLookupFailure(decoded: nat, oracle: seq<Recognition>,
                           lookup: (string, string) -> Result<Option<Video>, string>)
    requires |oracle| == SegmentCount(decoded, SegmentDuration)
    requires AllRecognised(oracle, |oracle|) && (decoded == 0 || decoded >= SegmentDuration)
    requires !AllLookedUp(Firsts(Matches(oracle), |oracle|), lookup)
    ensures var tracks := Firsts(Matches(oracle), |oracle|);
            var r := Index(None, Ok(decoded), oracle, lookup);
            exists k :: 0 <= k < |tracks| && AllLookedUp(tracks[..k], lookup) &&
                        lookup(tracks[k].subtitle, tracks[k].title) == Err(r.response.message)
    ensures var u := Index(None, Ok(decoded), oracle, lookup).updates;
            |u| == |oracle| + 5 && u[|u| - 2] == FetchingLinks
  {
    var identified := IdentifyTracks(decoded, oracle);
    assert identified.tracks == Ok(Firsts(Matches(oracle), |oracle|));
    var u := Index(None, Ok(decoded), oracle, lookup).updates;
    assert u == [Starting, Downloading, Identifying] + identified.updates + [FetchingLinks, ErrorOccurred];
  }

  /**
    A file that downloads but does not decode: the request reaches
    (10, Starting track identification...) and then the error state, and
    the module's initial dictionary is left showing (0, Error occurred).
  */
  lemma UndecodableFile()
    ensures var r := Index(None, Err("Decoding failed"), [], (a, t) => Ok(None));
            && r == IndexRun([Starting, Downloading, Identifying, ErrorOccurred], Error("Decoding failed"))
            && Apply(InitialProgress, r.updates) == map["value" := Int(0), "status" := Str("Error occurred")]
  {
    var u := [Starting, Downloading, Identifying, ErrorOccurred];
    ApplyShowsLast(InitialProgress, u);
    var q := Apply(InitialProgress, u);
    assert q.Keys == {"value", "status"};
    assert q == map["value" := Int(0), "status" := Str("Error occurred")];
  }

  /** The positions of a success trace: three opening states, the segment states, two closing states. */
  lemma Bracketed(u: seq<Update>, mid: seq<Update>)
    requires u == [Starting, Downloading, Identifying] + mid + [FetchingLinks, Complete]
    ensures |u| == |mid| + 5
    ensures u[0] == Starting && u[1] == Downloading && u[2] == Identifying
    ensures forall i :: 0 <= i < |mid| ==> u[i + 3] == mid[i]
    ensures u[|u| - 2] == FetchingLinks && u[|u| - 1] == Complete
  {
  }

  /** The positions of a successful request's states, from its shape. */
  lemma IndexSuccessStates(downloadError: Option<string>, decoded: Result<nat, string>, oracle: seq<Recognition>,
                           lookup: (string, string) -> Result<Option<Video>, string>)
    requires decoded.Ok? ==> |oracle| == SegmentCount(decoded.value, SegmentDuration)
    requires Index(downloadError, decoded, oracle, lookup).response.Results?
    ensures var u := Index(downloadError, decoded, oracle, lookup).updates;
            && |u| == |oracle| + 5
            && (forall i :: 0 <= i < |oracle| ==>
                  Progress.Percent(i, decoded.value, SegmentDuration) == Ok(u[i + 3].value) &&
                  u[i + 3].status == SegmentStatus(i + 1, decoded.value / SegmentDuration))
            && u[|u| - 2] == FetchingLinks && u[|u| - 1] == Complete
  {
    var u := Index(downloadError, decoded, oracle, lookup).updates;
    var identified := IdentifyTracks(decoded.value, oracle);
    IdentifyUpdates(decoded.value, oracle);
    IndexSuccessShape(downloadError, decoded, oracle, lookup);
    Bracketed(u, identified.updates);
  }

  /**
    A successful request moves the dictionary through (0, Starting...),
    (5, ...), (10, ...), one state per segment with the formula's value and
    "Processing segment k of total", then (90, Fetching YouTube links...)
    and (100, Complete), which it is left showing. The results list has one
    entry per deduplicated track, in order.
  */
  lemma IndexSuccessTrace(downloadError: Option<string>, decoded: Result<nat, string>, oracle: seq<Recognition>,
                          lookup: (string, string) -> Result<Option<Video>, string>, p: ProgressDict)
    requires decoded.Ok? ==> |oracle| == SegmentCount(decoded.value, SegmentDuration)
    requires Index(downloadError, decoded, oracle, lookup).response.Results?
    ensures var u := Index(downloadError, decoded, oracle, lookup).updates;
            && |u| == |oracle| + 5
            && u[0] == Starting && u[1] == Downloading && u[2] == Identifying
            && (forall i :: 0 <= i < |oracle| ==>
                  Progress.Percent(i, decoded.value, SegmentDuration) == Ok(u[i + 3].value) &&
                  u[i + 3].status == SegmentStatus(i + 1, decoded.value / SegmentDuration))
            && u[|u| - 2] == FetchingLinks && u[|u| - 1] == Complete
    ensures Shows(Apply(p, Index(downloadError, decoded, oracle, lookup).updates), 100, "Complete")
    ensures |Index(downloadError, decoded, oracle, lookup).response.results| == |Firsts(Matches(oracle), |oracle|)|
  {
    IndexSuccessStates(downloadError, decoded, oracle, lookup);
    IndexSuccessShape(downloadError, decoded, oracle, lookup);
    ApplyShowsLast(p, Index(downloadError, decoded, oracle, lookup).updates);
  }

  /**
    A failed request starts at (0, Starting...) and ends at
    (0, Error occurred), which the dictionary is left showing; the response
    carries the exception's message.
  */
  lemma IndexErrorTrace(downloadError: Option<string>, decoded: Result<nat, string>, oracle: seq<Recognition>,
                        lookup: (string, string) -> Result<Option<Video>, string>, p: ProgressDict)
    requires decoded.Ok? ==> |oracle| == SegmentCount(decoded.value, SegmentDuration)
    requires Index(downloadError, decoded, oracle, lookup).response.Error?
    ensures Index(downloadError, decoded, oracle, lookup).updates[0] == Starting
    ensures Index(downloadError, decoded, oracle, lookup).updates[|Index(downloadError, decoded, oracle, lookup).updates| - 1] == ErrorOccurred
    ensures Shows(Apply(p, Index(downloadError, decoded, oracle, lookup).updates), 0, "Error occurred")
    ensures downloadError.Some? ==> Index(downloadError, decoded, oracle, lookup).response.message == downloadError.value
    ensures downloadError.None? && decoded.Err? ==> Index(downloadError, decoded, oracle, lookup).response.message == decoded.error
  {
    ApplyShowsLast(p, Index(downloadError, decoded, oracle, lookup).updates);
  }

  /**
    The states are not monotone: a 90-second recording has one full window
    and a half one, so the two segments report 100 and 200 before the 90 of
    the link lookup.
  */
  lemma IndexNotMonotone()
    ensures var u := Index(None, Ok(90000), [Ok(None), Ok(None)], (a, t) => Ok(None)).updates;
            |u| == 7 && u[3].value == 100 && u[4].value == 200 && u[5].value == 90 && u[6].value == 100
  {
    var oracle: seq<Recognition> := [Ok(None), Ok(None)];
    NinetySecondLoop();
    var identified := IdentifyTracks(90000, oracle);
    assert identified.tracks == Ok([]);
    assert identified.updates[0].value == 100 && identified.updates[1].value == 200;
    assert ShapeResults([], (a, t) => Ok(None)) == Ok([]);
    var u := Index(None, Ok(90000), oracle, (a, t) => Ok(None)).updates;
    assert u == [Starting, Downloading, Identifying] + identified.updates + [FetchingLinks, Complete];
    Bracketed(u, identified.updates);
  }

  /** The two iterations of the 90-second recording: nothing matches, and the values are 100 and 200. */
  lemma NinetySecondLoop()
    ensures SegmentCount(90000, SegmentDuration) == 2
    ensures Loop(90000, SegmentDuration, [Ok(None), Ok(None)], true, 2) ==
            Run(Empty(), Windows(90000, SegmentDuration), [100, 200], None)
  {
    var oracle: seq<Recognition> := [Ok(None), Ok(None)];
    StartsShape(90000, SegmentDuration);
    CeilDivVsDiv(90000, SegmentDuration);
    assert Progress.Percent(0, 90000, SegmentDuration) == Ok(100);
    assert Progress.Percent(1, 90000, SegmentDuration) == Ok(200);
    LoopStepOk(90000, SegmentDuration, oracle, true, 0, None);
    LoopStepOk(90000, SegmentDuration, oracle, true, 1, None);
    var ws := Windows(90000, SegmentDuration);
    assert ws == [ws[0], ws[1]];
  }
}
