/** The reconciliation of the remote labels against the local ones
    (`find_missing_tracks`). The similarity scorer, rapidfuzz's
    `fuzz.token_sort_ratio`, is a parameter: its algorithm is not modelled. */
module Compare {
  import opened Wrappers

  /** A similarity score between two labels; rapidfuzz scores lie between 0 and 100. */
  type Scorer = (string, string) -> real

  /** The threshold `find_missing_tracks` uses when the caller gives none. */
  const DefaultThreshold: real := 80.0

  /** Every score is at least 0, as rapidfuzz's scores are. */
  ghost predicate NonNegative(scorer: Scorer)
  {
    forall a, b :: 0.0 <= scorer(a, b)
  }

  /** The score a choice needs before `process.extractOne` reports it: its
      default `score_cutoff`, which for a ratio scorer is the worst score, 0. */
  const ScoreCutoff: real := 0.0

  /** The best match `process.extractOne` reports: the choice, its score and its position. */
  datatype Match = Match(choice: string, score: real, index: nat)

  /** `process.extractOne(query, choices, scorer=...)`: no match when no choice
      reaches the cutoff (in particular for no choices), otherwise a
      highest-scoring choice, the first of those tied. */
  function ExtractOne(query: string, choices: seq<string>, scorer: Scorer): (m: Option<Match>)
    ensures m.None? <==> forall j :: 0 <= j < |choices| ==> scorer(query, choices[j]) < ScoreCutoff
    ensures m.Some? ==> m.value.index < |choices| && m.value.choice == choices[m.value.index]
    ensures m.Some? ==> m.value.score == scorer(query, m.value.choice) && ScoreCutoff <= m.value.score
    ensures m.Some? ==> forall j :: 0 <= j < |choices| ==> scorer(query, choices[j]) <= m.value.score
    ensures m.Some? ==> forall j :: 0 <= j < m.value.index ==> scorer(query, choices[j]) < m.value.score
  {
    if choices == [] then None
    else
      var n := |choices| - 1;
      var best := ExtractOne(query, choices[..n], scorer);
      var s := scorer(query, choices[n]);
      if ScoreCutoff <= s && (best.None? || best.value.score < s) then Some(Match(choices[n], s, n))
      else best
  }

  /** The score a local label must reach to count as a match: the threshold,
      but never less than the cutoff below which no match is reported at all. */
  function Bar(threshold: real): (b: real)
    ensures ScoreCutoff <= b && threshold <= b
    ensures b == threshold || b == ScoreCutoff
  {
    if threshold < ScoreCutoff then ScoreCutoff else threshold
  }

  /** No local label scores at least the bar against `query`. */
  predicate NoMatch(query: string, local: seq<string>, threshold: real, scorer: Scorer)
  {
    forall l :: l in local ==> scorer(query, l) < Bar(threshold)
  }

  /** With scores that are never negative, as rapidfuzz's are, a label is
      unmatched exactly when every local label scores below the threshold. */
  lemma NoMatchBelowThreshold(query: string, local: seq<string>, threshold: real, scorer: Scorer)
    requires NonNegative(scorer)
    ensures NoMatch(query, local, threshold, scorer) <==> forall l :: l in local ==> scorer(query, l) < threshold
  {
  }

  /** The missing labels: the remote labels, in order and with their
      repetitions, that no local label matches. */
  function Missing(remote: seq<string>, local: seq<string>, threshold: real, scorer: Scorer): (r: seq<string>)
    ensures |r| <= |remote|
  {
    if remote == [] then []
    else
      var last := remote[|remote| - 1];
      Missing(remote[..|remote| - 1], local, threshold, scorer)
        + (if NoMatch(last, local, threshold, scorer) then [last] else [])
  }

  /** Any highest-scoring local label decides alike: its score is below the
      bar exactly when every local label's is, so the tie-break among equal
      best scores cannot change the outcome. */
  lemma TieBreakIrrelevant(query: string, local: seq<string>, threshold: real, scorer: Scorer, k: nat)
    requires k < |local|
    requires forall j :: 0 <= j < |local| ==> scorer(query, local[j]) <= scorer(query, local[k])
    ensures scorer(query, local[k]) < Bar(threshold) <==> NoMatch(query, local, threshold, scorer)
  {
    assert local[k] in local;
  }

  /** The test of the source, "no match, or the best score is below the
      threshold", holds exactly when no local label matches. */
  lemma ExtractOneDecides(query: string, local: seq<string>, threshold: real, scorer: Scorer)
    ensures var m := ExtractOne(query, local, scorer);
      (m.None? || m.value.score < threshold) <==> NoMatch(query, local, threshold, scorer)
  {
    var m := ExtractOne(query, local, scorer);
    if m.Some? {
      TieBreakIrrelevant(query, local, threshold, scorer, m.value.index);
    } else {
      forall l | l in local
        ensures scorer(query, l) < Bar(threshold)
      {
        var j :| 0 <= j < |local| && local[j] == l;
      }
    }
  }

  /** `find_missing_tracks`: asks for the best local match of each remote label
      in turn and keeps the label when there is none or it scores below the threshold. */
  method FindMissingTracks(spotifyTracks: seq<string>, localTracks: seq<string>, scorer: Scorer, threshold: real := DefaultThreshold)
    returns (missing: seq<string>)
    ensures missing == Missing(spotifyTracks, localTracks, threshold, scorer)
  {
    missing := [];
    for i := 0 to |spotifyTracks|
      invariant missing == Missing(spotifyTracks[..i], localTracks, threshold, scorer)
    {
      var spSong := spotifyTracks[i];
      var best := ExtractOne(spSong, localTracks, scorer);
      ExtractOneDecides(spSong, localTracks, threshold, scorer);
      assert spotifyTracks[..i + 1][..i] == spotifyTracks[..i];
      if best.None? || best.value.score < threshold {
        missing := missing + [spSong];
      }
    }
    assert spotifyTracks[..|spotifyTracks|] == spotifyTracks;
  }

  // ---------------------------------------------------------------------------
  // Properties of the missing labels
  // ---------------------------------------------------------------------------

  /** The missing labels sit at strictly increasing positions of the remote
      labels, and those positions are exactly the ones of unmatched labels:
      the result is the order-preserving subsequence of unmatched labels. */
  lemma {:induction false} MissingPositions(remote: seq<string>, local: seq<string>, threshold: real, scorer: Scorer)
    returns (pos: seq<nat>)
    ensures |pos| == |Missing(remote, local, threshold, scorer)|
    ensures forall k :: 0 <= k < |pos| ==>
      pos[k] < |remote| && Missing(remote, local, threshold, scorer)[k] == remote[pos[k]]
    ensures forall k, k' :: 0 <= k < k' < |pos| ==> pos[k] < pos[k']
    ensures forall i :: 0 <= i < |remote| ==> (i in pos <==> NoMatch(remote[i], local, threshold, scorer))
  {
    if remote == [] {
      pos := [];
    } else {
      var n := |remote| - 1;
      var init := remote[..n];
      var before := MissingPositions(init, local, threshold, scorer);
      var prior := Missing(init, local, threshold, scorer);
      if NoMatch(remote[n], local, threshold, scorer) {
        assert Missing(remote, local, threshold, scorer) == prior + [remote[n]];
        pos := before + [n];
      } else {
        assert Missing(remote, local, threshold, scorer) == prior + [];
        pos := before;
      }
      assert forall i :: 0 <= i < n ==> init[i] == remote[i];
    }
  }

  /** Each label occurs among the missing ones as often as among the remote
      ones when no local label matches it, and not at all otherwise. */
  lemma {:induction false} MissingCount(remote: seq<string>, local: seq<string>, threshold: real, scorer: Scorer, x: string)
    ensures multiset(Missing(remote, local, threshold, scorer))[x] ==
      if NoMatch(x, local, threshold, scorer) then multiset(remote)[x] else 0
  {
    if remote != [] {
      var n := |remote| - 1;
      assert remote == remote[..n] + [remote[n]];
      MissingCount(remote[..n], local, threshold, scorer, x);
    }
  }

  /** A label is missing exactly when it is a remote label that no local label
      matches, and there are never more missing labels than remote ones. */
  lemma {:induction false} MissingMembers(remote: seq<string>, local: seq<string>, threshold: real, scorer: Scorer, x: string)
    ensures x in Missing(remote, local, threshold, scorer) <==> x in remote && NoMatch(x, local, threshold, scorer)
    ensures |Missing(remote, local, threshold, scorer)| <= |remote|
  {
    MissingCount(remote, local, threshold, scorer, x);
    var missing := Missing(remote, local, threshold, scorer);
    assert x in missing <==> multiset(missing)[x] > 0;
    assert x in remote <==> multiset(remote)[x] > 0;
    var pos := MissingPositions(remote, local, threshold, scorer);
    PositionsBound(pos, |remote|);
  }

  /** Strictly increasing positions below `n` number at most `n`. */
  lemma {:induction false} PositionsBound(pos: seq<nat>, n: nat)
    requires forall k :: 0 <= k < |pos| ==> pos[k] < n
    requires forall k, k' :: 0 <= k < k' < |pos| ==> pos[k] < pos[k']
    ensures |pos| <= n
  {
    if pos != [] {
      var m := |pos| - 1;
      PositionsBound(pos[..m], pos[m]);
    }
  }

  /** A remote label that every local label scores below the cutoff is kept
      whatever the threshold, since no match is reported for it. */
  lemma {:induction false} KeptBelowCutoff(remote: seq<string>, local: seq<string>, threshold: real, scorer: Scorer, x: string)
    requires x in remote
    requires forall l :: l in local ==> scorer(x, l) < ScoreCutoff
    ensures x in Missing(remote, local, threshold, scorer)
  {
    MissingMembers(remote, local, threshold, scorer, x);
  }

  /** With no local labels every remote label is missing, in its place. */
  lemma {:induction false} AllMissingWithoutLocal(remote: seq<string>, threshold: real, scorer: Scorer)
    ensures Missing(remote, [], threshold, scorer) == remote
  {
    if remote != [] {
      var n := |remote| - 1;
      AllMissingWithoutLocal(remote[..n], threshold, scorer);
      assert remote == remote[..n] + [remote[n]];
    }
  }

  /** With no remote labels nothing is missing. */
  lemma NothingMissingWithoutRemote(local: seq<string>, threshold: real, scorer: Scorer)
    ensures Missing([], local, threshold, scorer) == []
  {
  }

  /** Lowering the threshold only removes labels: the missing labels at the
      lower threshold are those at the higher one, filtered again at the lower. */
  lemma {:induction false} MissingMonotone(remote: seq<string>, local: seq<string>, lower: real, higher: real, scorer: Scorer)
    requires lower <= higher
    ensures Missing(Missing(remote, local, higher, scorer), local, lower, scorer) == Missing(remote, local, lower, scorer)
    ensures multiset(Missing(remote, local, lower, scorer)) <= multiset(Missing(remote, local, higher, scorer))
  {
    if remote != [] {
      var n := |remote| - 1;
      var last := remote[n];
      MissingMonotone(remote[..n], local, lower, higher, scorer);
      var high := Missing(remote[..n], local, higher, scorer);
      var low := Missing(remote[..n], local, lower, scorer);
      if NoMatch(last, local, higher, scorer) {
        assert Missing(remote, local, higher, scorer) == high + [last];
        assert (high + [last])[..|high|] == high;
      } else {
        assert Missing(remote, local, higher, scorer) == high;
        assert !NoMatch(last, local, lower, scorer);
        assert Missing(remote, local, lower, scorer) == low + [];
      }
    }
  }

  /** A threshold of at most 0 leaves nothing missing once there is a local
      label, since no score is below 0. */
  lemma {:induction false} NothingMissingAtThresholdZero(remote: seq<string>, local: seq<string>, threshold: real, scorer: Scorer)
    requires NonNegative(scorer)
    requires local != [] && threshold <= 0.0
    ensures Missing(remote, local, threshold, scorer) == []
  {
    if remote != [] {
      var n := |remote| - 1;
      NothingMissingAtThresholdZero(remote[..n], local, threshold, scorer);
      assert scorer(remote[n], local[0]) >= 0.0;
      assert local[0] in local;
    }
  }

  /** A remote label present verbatim among the local labels is never missing,
      given that the scorer rates a label against itself at 100 (a property of
      the scoring library, not of this program) and the threshold is at most 100. */
  lemma {:induction false} ExactLabelNeverMissing(remote: seq<string>, local: seq<string>, threshold: real, scorer: Scorer, x: string)
    requires scorer(x, x) == 100.0 && threshold <= 100.0
    requires x in local
    ensures x !in Missing(remote, local, threshold, scorer)
  {
    MissingMembers(remote, local, threshold, scorer, x);
  }
}
