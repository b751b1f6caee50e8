# SoundZam segment-and-identify model

SoundZam finds the songs in a long recording, such as a DJ mix. It cuts the
audio into fixed windows and sends each window to the Shazam recognition
service. It keeps the first match for each track `key` and returns the
tracks in the order they were first heard. The repository holds three
front ends for the same loop:

- `SoundZam.py`: a Flask app with 120-second windows. It writes an integer
  `analysis_progress` after every segment.
- `app.py`: a Flask app with 60-second windows. It keeps a `progress`
  dictionary with a value and a status string.
- `SoundZam_terminal.py`: a command-line tool with 60-second windows and
  no progress reporting.

This Dafny project models that loop once, for any window length `w`
(module `Pipeline`). It then builds the three front ends on top of it
(modules `SoundZam`, `App`, `Terminal`). The building blocks are:

- `Segmentation`: `range(0, duration, w)` and the clipped pydub slice
  `audio[start:start + w]`.
- `Dedup`: the `tracks` / `seen_track_ids` fold. It is proved equal to an
  independent first-occurrence definition, `Dedup.Firsts`, which uses no
  seen set.
- `Progress`: `int((i + 1) / total_segments * 100)` with
  `total_segments = duration // w`.
- `Sanitize`: `sanitize_filename`.

Other things modelled: the yt-dlp progress hook, the platform test in
`SoundZam.py`'s `index`, and the `set_progress` state sequence and result
shaping of `app.py`'s `index`.

The recognition service is an oracle. It is a sequence holding one answer
per window:

- `Ok(Some(track))`: a match;
- `Ok(None)`: a reply with no `'track'`;
- `Err(message)`: the call raised, which stops the loop at once.

The download, the decoding and `get_youtube_link` are oracle inputs in the
same way. In `app.py` the download and the decoding are separate inputs.
The download runs before the (10, "Starting track identification...")
state, and the decoding (`AudioSegment.from_file`, app.py:28) runs after
it, as the first step of `identify_tracks`. `app.py`'s global `progress`
dictionary is a `map` value. `Index` returns the `set_progress` calls it
makes, and `Apply` replays them.

Some of what the code does is at odds with other parts of the same code.
The model follows what the code does:

- `total_segments` is `duration // w` (SoundZam.py:30, app.py:33), and the
  progress line divides by it with no test for zero (SoundZam.py:44,
  app.py:49). A recording with `0 < duration < w` therefore raises
  `ZeroDivisionError` after its only segment is recognised
  (`SoundZam.ShortRecordingFails`, `Pipeline.DivisionOutcome`). The
  terminal program computes `duration // segment_duration`
  (SoundZam_terminal.py:18) but never divides by `total_segments`.
- The progress stream in `app.py` stops when the value equals 100
  (app.py:138). After segment `duration // w` the value is exactly 100
  (`Progress.PercentWithinTotal`), so the stream can stop there, before
  identification ends. The code divides by the floor quotient, not by the
  number of segments. Only when the last window is short and
  `duration // w <= 100` does a value above 100 follow
  (`Progress.FinalPercent`). The reported states can then go up past 100
  and drop to 90 (`App.IndexNotMonotone`).
- A value above 100 at the end means the last window is short and
  `duration // w <= 100`. A short last window alone is not enough: beyond
  100 full windows, the floor of `100 + 100 / total` is 100 again. For
  60-second windows that means recordings of 101 minutes or longer; for
  120-second windows, 202 minutes or longer.
- `SoundZam.py`'s `index` resets `analysis_progress` to 0 after a response
  and after an error, as its comments say (SoundZam.py:149, SoundZam.py:152).
  `identify_tracks` itself never resets it. When a later segment raises,
  it keeps the last value it computed
  (`SoundZam.IdentifyTracks`, `SoundZam.StaleProgressOnFailure`). The early
  return of the identification error at SoundZam.py:141-142 skips the reset
  at SoundZam.py:152.

## Model

| member | source | states |
|---|---|---|
| `Segmentation.RangeFromShape` | SoundZam.py:31 | `range(start, stop, step)` has ceil((stop-start)/step) elements, the i-th being start + i*step |
| `Segmentation.StartsShape` | SoundZam.py:26-31 | the segment starts are exactly 0, w, 2w, … below the duration; there are ceil(duration/w) of them, none exactly when duration = 0 |
| `Segmentation.WindowShape` | SoundZam.py:32 | window i is [i*w, min(i*w + w, duration)), and it is non-empty and at most w long |
| `Segmentation.WindowsTile` | app.py:35-36 | the 60 s (any w) windows start at 0, end at the duration, follow each other without gaps, and only the last may be shorter than w |
| `Segmentation.WindowsPartition` | SoundZam_terminal.py:20-21 | an instant is covered by some window iff it lies in [0, duration), and no instant lies in two windows |
| `Dedup.Empty` | SoundZam.py:27-28 | the empty `tracks` list and `seen_track_ids` set agree |
| `Dedup.Step` | SoundZam.py:37-42 | one iteration keeps the seen set equal to the kept keys without repeats; it never removes a track; no `'track'` or an already-seen key changes nothing |
| `Dedup.FoldIsFirsts` | SoundZam.py:37-42 | the seen-set fold yields exactly the first-occurrence list, and its seen set is the set of all matched keys |
| `Dedup.FirstsCharacterised` | app.py:41-46 | a track is in the output iff it is the first match of its key, and output order follows the order of the segments those matches came from |
| `Dedup.DedupCorrect` | SoundZam_terminal.py:26-31 | the result has no repeated key, its keys are exactly those matched by some segment, each track comes from the earliest segment with its key, in first-occurrence order |
| `Progress.TotalPositiveIff` | SoundZam.py:30 | `duration // w` is zero exactly for a recording shorter than one window |
| `Progress.Percent` | SoundZam.py:44 | the value after segment i is undefined (the ZeroDivisionError) iff duration < w |
| `Progress.PercentIsFloor` | SoundZam.py:44 | otherwise it is the floor of (i+1)*100 / (duration // w): p * total ≤ (i+1)*100 < (p+1) * total |
| `Progress.PercentMonotone` | SoundZam.py:44 | later segments never report a smaller value |
| `Progress.PercentWithinTotal` | app.py:49 | for the first `duration // w` segments the value is at most 100, and exactly 100 at the last of them |
| `Progress.FinalPercent` | SoundZam.py:30-44 | after the last segment the value is at least 100, exactly 100 when w divides the duration, and above 100 iff the last window is short and `duration // w` is at most 100 |
| `Pipeline.StartBelowIff` | SoundZam.py:31 | the loop continues (`start < duration`) exactly while segments remain, and segment i's slice is window i |
| `Pipeline.LoopSucceeds` | SoundZam.py:31-44 | the first n iterations raise nothing iff none of their recognition calls raised and, when progress is computed, the divisor is not zero or nothing ran |
| `Pipeline.LoopOnSuccess` | app.py:35-50 | without an exception, n iterations made one recognition call per window in order, hold the dedup fold of n results, and reported the formula's value for each segment |
| `Pipeline.ReportsArePercents` | app.py:49-50 | even when the loop stops early, each progress value is the formula's value for its segment, at most one per iteration |
| `Pipeline.LoopStaysFailed` | SoundZam.py:36 | after an exception no further iteration runs |
| `Pipeline.FailFast` | app.py:40 | when segment k is the first to raise, the run ends with that exception after exactly k+1 calls, with the progress values of the earlier segments; a progress failure can only be the division at segment 0 |
| `Pipeline.FirstFailingSegment` | SoundZam_terminal.py:25 | a stopped loop stopped at a definite first failing segment |
| `Pipeline.FirstFailure` | SoundZam_terminal.py:25 | a failed run has a first failing segment; without progress reporting the exception is always the recognition call's |
| `Pipeline.FirstRaise` | SoundZam.py:36 | when segment k is the first whose recognition raises, the run ends with that exception after k+1 calls, holding the progress values of the k earlier segments |
| `Pipeline.DivisionOutcome` | SoundZam.py:30-44 | a recognised recording with 0 < duration < w has one segment and ends with the division error before any progress value |
| `Pipeline.IdentifyCorrect` | SoundZam.py:20-47 | the run fails iff some recognition raises or, with progress, 0 < duration < w; otherwise it called recognition once per window and returned the first-occurrence tracks with one progress value per segment |
| `Pipeline.IdentifyTracks` | SoundZam.py:27-47 | the imperative loop over `range(0, duration, w)` with in-place `tracks` and `seen_track_ids` computes the run above and returns distinct first-occurrence tracks |
| `SoundZam.IdentifyTracks` | SoundZam.py:25-47 | with 120 s windows: success iff no recognition raises and the duration is 0 or at least 120000; then the tracks are the first occurrences and `analysis_progress` holds the formula's value for the last segment (untouched for an empty recording); when segment k is the first to raise, the exception is its own and `analysis_progress` holds segment k-1's value (untouched when k = 0); a recognised recording shorter than a window fails with the division error and leaves it untouched |
| `SoundZam.FinalAnalysisProgress` | SoundZam.py:44 | the final `analysis_progress` is at least 100, and above 100 iff the last window is short and there are at most 100 full windows |
| `SoundZam.ShortRecordingFails` | SoundZam.py:30-44 | a recording shorter than 120 s has one segment and fails with division by zero, leaving `analysis_progress` as it was |
| `SoundZam.FiveMinuteMix` | SoundZam.py:26-44 | 300000 ms gives windows of 120000, 120000 and 60000 ms; matches X, X, Y give [X, Y], with progress 50, 100, 150 |
| `SoundZam.StaleProgressOnFailure` | SoundZam.py:36-44 | a raise in segment 2 of 2 leaves `analysis_progress` at the 50 of segment 1 |
| `SoundZam.ProgressHook` | SoundZam.py:104-109 | 'finished' gives 90; 'downloading' gives 50 plus the floor of downloaded*40/total, and raises when total is 0; any other status leaves the value unchanged |
| `SoundZam.HookBounds` | SoundZam.py:108-109 | while downloading with 0 ≤ downloaded ≤ total, the value lies in [50, 90], grows with the bytes received, and is 90 when all bytes are in |
| `SoundZam.ContainsIff` | SoundZam.py:125 | the scan finds p in s iff p occurs at some offset of s (Python's `in`) |
| `SoundZam.ClassifyUrl` | SoundZam.py:125-134 | a URL containing `soundcloud.com` goes to SoundCloud even if a YouTube host also appears; otherwise `youtube.com` or `youtu.be` goes to YouTube; anything else is the "Unsupported URL" error |
| `Sanitize.SanitizeFilename` | SoundZam.py:49-51 | same length; each of `<>:"/\|?*` becomes `_`, every other character is kept, and none of the nine remains |
| `Sanitize.SanitizeIdempotent` | app.py:54-60 | sanitizing twice equals sanitizing once |
| `Sanitize.SanitizeKeepsValid` | SoundZam_terminal.py:35-41 | a name with none of the nine characters comes back unchanged |
| `App.SetProgress` | app.py:20-23 | `set_progress` sets exactly `value` and `status`; every other entry of the dictionary is unchanged |
| `App.ApplyShowsLast` | app.py:18-23 | after a series of `set_progress` calls the dictionary shows the last call's value and status |
| `App.IdentifyTracks` | app.py:29-52 | with 60 s windows on the decoded length: success iff no recognition raises and the duration is 0 or at least 60000; it returns the distinct first-occurrence tracks and has made one `set_progress` call per segment; when segment k is the first to raise it fails with that exception after k calls; a recognised recording shorter than a window fails with the division error after none |
| `App.IdentifyUpdates` | app.py:48-50 | the i-th `set_progress` call of `identify_tracks` carries the formula's value for segment i and the status "Processing segment i+1 of duration // 60000" |
| `App.SegmentStatus` | app.py:50 | the status string names its segment and total unambiguously: reading "Processing segment K of T" back gives exactly (k, total) |
| `Decimal.NatToString` | app.py:50 | `str(n)` is a non-empty string of digits with no leading zero unless n is 0, and a single digit when n < 10 |
| `Decimal.NatToStringValue` | app.py:50 | the digits of `str(n)` denote n |
| `App.ShapeResults` | app.py:108-118 | the results list has one entry per track, in order, with `artist = subtitle`, `title = title` and the lookup's link and id; it fails with the first lookup exception |
| `App.Index` | app.py:96-129 | every request starts with (0, Starting...) and (5, ...); it ends with (100, Complete) exactly when it returns results and with (0, Error occurred) exactly when it returns an error; a failed download ends right after (5, ...) with its message; a file that does not decode ends right after (10, Starting track identification...) with its message |
| `App.IndexSucceedsIff` | app.py:100-129 | a request returns results iff the download and the decoding work, no recognition raises, the duration is 0 or at least one window, and no link lookup raises |
| `App.IndexSuccessShape` | app.py:98-124 | a successful request's calls are the three opening states, the per-segment calls of `identify_tracks`, then (90, …) and (100, Complete); its results are the shaped deduplicated tracks |
| `App.IndexSuccessTrace` | app.py:98-125 | a successful request goes through 0, 5, 10, one state per segment, then 90 and 100; the dictionary is left at (100, Complete), and there is one result per deduplicated track |
| `App.IndexErrorTrace` | app.py:126-129 | a failed request ends in (0, Error occurred), the dictionary is left there, and a failed download's or decoding's message is the response |
| `App.IndexRecognitionFailure` | app.py:126-129 | when segment k is the first whose recognition raises, the response is that exception's message, after the three opening states and k segment states |
| `App.IndexDivisionFailure` | app.py:126-129 | a recognised recording shorter than one window answers "division by zero" straight after (10, ...) |
| `App.IndexLookupFailure` | app.py:109-129 | when a link lookup raises, the response is the message of the first lookup that raised, after (90, Fetching YouTube links...) |
| `App.UndecodableFile` | app.py:18-129 | a file that downloads but does not decode gives the states 0, 5, 10, then (0, Error occurred), and leaves the initial dictionary showing (0, Error occurred) |
| `App.IndexNotMonotone` | app.py:49-107 | a 90 s recording reports 100 and 200 for its two segments and then 90: the states are not monotone |
| `Terminal.IdentifyTracks` | SoundZam_terminal.py:10-33 | it fails only when a recognition call raises, whatever the duration, and then with the exception of the first segment that raised; otherwise it returns distinct first-occurrence tracks whose keys are exactly the matched keys |
| `Terminal.TerminalCalls` | SoundZam_terminal.py:20-25 | with no raise, the recognition calls are exactly the windows of `range(0, duration, 60000)`, in increasing order |

## Left out

- Progress.Percent: uses exact integer floor division. The code computes the value in floating point and truncates with `int(...)`, which can differ by one; for example, `int(29/100*100)` is 28.
- SoundZam.ProgressHook: uses exact integer floor division for `int(downloaded * 40 / total)`, not floating point. A missing `downloaded_bytes` or `total_bytes` key, and a `None` total, are not modelled.
- Shazam recognition is an oracle input. So are downloading, decoding and the file-existence checks (SoundCloud via `sclib`, yt-dlp, pytube), whose outcome is the recording's length or an error message.
- SoundZam.IdentifyTracks: starts from the decoded length. An exception from `AudioSegment.from_file` (SoundZam.py:24) is not modelled, because the only caller that would see it, `SoundZam.py`'s `index`, is not modelled either. `Terminal.IdentifyTracks` starts from the decoded length for the same reason (SoundZam_terminal.py:13). In `app.py` the decoding outcome is the `decoded` input of `App.Index`.
- An exception from `segment.export` is file I/O and is not modelled.
- `get_youtube_link` is an oracle function of artist and title. The YouTube search itself is not modelled.
- The export to `temp_segment.mp3` and the removal of audio files are file I/O and are not modelled.
- The rest of `SoundZam.py`'s `index` is not modelled: the downloads, the error responses, `result` and the resets of `analysis_progress`. Only its platform test is modelled.
- `download_soundcloud_audio` and `download_youtube_audio`, which write `download_progress` and build the file name, are download I/O and are not modelled.
- Flask routes, `jsonify`, the templates and the server-sent `progress_stream` generator are presentation, as are `webbrowser`, `threading.Timer`, `tqdm` and the terminal `main` with `sys.argv` and its printing.
- A missing `soundcloud_url` form field raises before the `try` in `app.py`. That path is not modelled.
- Concurrent requests sharing the module-level progress globals are not modelled. The model threads the progress state explicitly through one request.
- Python's `range` with a non-positive step is not modelled, because the window length is a positive constant in all three programs.
