/**
  Deduplication of recognition results: the fold that appends a matched
  track only when its `key` is not yet in `seen_track_ids`.
*/
module Dedup {
  import opened Wrappers

  /** The fields of a recognised track that the code reads. */
  datatype Track = Track(key: string, subtitle: string, title: string)

  /** The loop's accumulators: the `tracks` list and the `seen_track_ids` set. */
  datatype Seen = Seen(tracks: seq<Track>, seenIds: set<string>)

  function Keys(ts: seq<Track>): set<string>
  {
    set i | 0 <= i < |ts| :: ts[i].key
  }

  lemma KeysAppend(ts: seq<Track>, t: Track)
    ensures Keys(ts + [t]) == Keys(ts) + {t.key}
  {
    var ts' := ts + [t];
    assert ts'[|ts|] == t;
    forall k | k in Keys(ts)
      ensures k in Keys(ts')
    {
      var i :| 0 <= i < |ts| && ts[i].key == k;
      assert ts'[i] == ts[i];
    }
  }

  predicate DistinctKeys(ts: seq<Track>)
  {
    forall i, j :: 0 <= i < j < |ts| ==> ts[i].key != ts[j].key
  }

  /** The accumulators agree: the seen set holds exactly the keys of the kept tracks, each once. */
  predicate Consistent(s: Seen)
  {
    s.seenIds == Keys(s.tracks) && DistinctKeys(s.tracks)
  }

  function Empty(): (s: Seen)
    ensures Consistent(s)
  {
    Seen([], {})
  }

  /**
    One iteration's bookkeeping for result r. A missing match or an
    already-seen key leaves both accumulators as they were; otherwise the
    track is appended and its key marked seen.
  */
  function Step(s: Seen, r: Option<Track>): (s': Seen)
    ensures Consistent(s) ==> Consistent(s')
    ensures s.tracks <= s'.tracks && s.seenIds <= s'.seenIds
    ensures r.None? ==> s' == s
    ensures r.Some? && r.value.key in s.seenIds ==> s' == s
    ensures r.Some? ==> r.value.key in s'.seenIds
  {
    match r
    case None => s
    case Some(t) =>
      if t.key in s.seenIds then s
      else
        KeysAppend(s.tracks, t);
        Seen(s.tracks + [t], s.seenIds + {t.key})
  }

  /** The accumulators after the first n results. */
  function FoldPrefix(rs: seq<Option<Track>>, n: nat): Seen
    requires n <= |rs|
  {
    if n == 0 then Empty() else Step(FoldPrefix(rs, n - 1), rs[n - 1])
  }

  /** The accumulators after the whole loop. */
  function Fold(rs: seq<Option<Track>>): Seen
  {
    FoldPrefix(rs, |rs|)
  }

  // ----- Reference definition: first occurrences, without a seen set -----

  /** Result i is a match and no earlier result matched the same key. */
  predicate IsFirst(rs: seq<Option<Track>>, i: nat)
    requires i < |rs|
  {
    rs[i].Some? &&
    forall j :: 0 <= j < i ==> !(rs[j].Some? && rs[j].value.key == rs[i].value.key)
  }

  /** The first-occurrence matches among the first n results, in result order. */
  function Firsts(rs: seq<Option<Track>>, n: nat): seq<Track>
    requires n <= |rs|
  {
    if n == 0 then []
    else Firsts(rs, n - 1) + (if IsFirst(rs, n - 1) then [rs[n - 1].value] else [])
  }

  /** The keys matched by the first n results. */
  function MatchedKeys(rs: seq<Option<Track>>, n: nat): set<string>
    requires n <= |rs|
  {
    set i | 0 <= i < n && rs[i].Some? :: rs[i].value.key
  }

  lemma MatchedKeysStep(rs: seq<Option<Track>>, n: nat)
    requires 0 < n <= |rs|
    ensures MatchedKeys(rs, n) ==
            MatchedKeys(rs, n - 1) + (if rs[n - 1].Some? then {rs[n - 1].value.key} else {})
  {
  }

  /** A key is new at position n exactly when result n matches it first. */
  lemma IsFirstIff(rs: seq<Option<Track>>, n: nat)
    requires n < |rs|
    requires rs[n].Some?
    ensures IsFirst(rs, n) <==> rs[n].value.key !in MatchedKeys(rs, n)
  {
    if !IsFirst(rs, n) {
      var j :| 0 <= j < n && rs[j].Some? && rs[j].value.key == rs[n].value.key;
      assert rs[n].value.key in MatchedKeys(rs, n);
    }
  }

  /**
    The seen-set fold computes the first-occurrence list, and its seen set
    is the set of all matched keys.
  */
  lemma {:induction false} FoldIsFirsts(rs: seq<Option<Track>>, n: nat)
    requires n <= |rs|
    ensures FoldPrefix(rs, n).tracks == Firsts(rs, n)
    ensures FoldPrefix(rs, n).seenIds == MatchedKeys(rs, n)
    ensures Consistent(FoldPrefix(rs, n))
  {
    if n > 0 {
      FoldIsFirsts(rs, n - 1);
      MatchedKeysStep(rs, n);
      if rs[n - 1].Some? {
        IsFirstIff(rs, n - 1);
      }
    }
  }

  /** The track at position k of the output and the result index it came from. */
  ghost predicate Origin(rs: seq<Option<Track>>, t: Track, i: int)
  {
    0 <= i < |rs| && IsFirst(rs, i) && rs[i].value == t
  }

  /** Track x came from an earlier result than track y, both first occurrences. */
  ghost predicate ComesBefore(rs: seq<Option<Track>>, x: Track, y: Track)
  {
    exists i, j :: 0 <= i < j < |rs| && Origin(rs, x, i) && Origin(rs, y, j)
  }

  /**
    What the output of the first n results is: every element is the first
    match of its key, every first match is an element, and elements appear
    in the order of the results they came from.
  */
  lemma {:induction false} FirstsCharacterised(rs: seq<Option<Track>>, n: nat)
    requires n <= |rs|
    ensures forall t :: t in Firsts(rs, n) <==> exists i :: 0 <= i < n && Origin(rs, t, i)
    ensures forall a, b :: 0 <= a < b < |Firsts(rs, n)| ==> ComesBefore(rs, Firsts(rs, n)[a], Firsts(rs, n)[b])
  {
    if n > 0 {
      FirstsCharacterised(rs, n - 1);
      var prev := Firsts(rs, n - 1);
      var out := Firsts(rs, n);
      forall t | t in out
        ensures exists i :: 0 <= i < n && Origin(rs, t, i)
      {
        if t !in prev {
          assert Origin(rs, t, n - 1);
        }
      }
      forall a, b | 0 <= a < b < |out|
        ensures ComesBefore(rs, out[a], out[b])
      {
        if b < |prev| {
          assert out[a] == prev[a] && out[b] == prev[b];
        } else {
          assert out[a] == prev[a] && prev[a] in prev;
          var i :| 0 <= i < n - 1 && Origin(rs, prev[a], i);
          assert b == |prev| && out[b] == rs[n - 1].value;
          assert Origin(rs, out[a], i) && Origin(rs, out[b], n - 1);
        }
      }
    }
  }

  /**
    The deduplicated output of the whole run: no two tracks share a key,
    the keys are exactly those matched by some segment, each track is the
    one from the earliest segment carrying its key, and the tracks are in
    order of first occurrence.
  */
  lemma DedupCorrect(rs: seq<Option<Track>>)
    ensures Fold(rs).tracks == Firsts(rs, |rs|)
    ensures DistinctKeys(Fold(rs).tracks)
    ensures Keys(Fold(rs).tracks) == MatchedKeys(rs, |rs|)
    ensures Fold(rs).seenIds == Keys(Fold(rs).tracks)
    ensures forall t :: t in Fold(rs).tracks <==> exists i :: 0 <= i < |rs| && Origin(rs, t, i)
    ensures forall a, b :: 0 <= a < b < |Fold(rs).tracks| ==> ComesBefore(rs, Fold(rs).tracks[a], Fold(rs).tracks[b])
  {
    FoldIsFirsts(rs, |rs|);
    FirstsCharacterised(rs, |rs|);
  }
}
