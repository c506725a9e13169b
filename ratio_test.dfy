/** The distance-ratio filter applied to k-nearest-neighbour matches.

    For each query descriptor the matcher returns its candidate matches, best
    first. A candidate list of two contributes its best match only when that
    match is clearly better than the runner-up (Lowe's ratio test); a list of
    any other length contributes its best match unconditionally. */
module RatioTest {
  import opened Features

  /** The largest accepted ratio between the best and the second-best distance. */
  const LoweRatio: real := 0.8

  /** Lowe's test on the two best distances. A zero second distance makes the
      quotient infinite or undefined, and neither passes the comparison. */
  predicate RatioAccepts(d0: real, d1: real)
  {
    d1 != 0.0 && d0 / d1 <= LoweRatio
  }

  /** Every candidate list the filter may be given has a best match. */
  ghost predicate AllNonEmpty(knn: seq<seq<DMatch>>)
  {
    forall i :: 0 <= i < |knn| ==> knn[i] != []
  }

  /** What one candidate list adds to the matches. */
  function Contribution(candidates: seq<DMatch>): (r: seq<DMatch>)
    requires candidates != []
    // at most one match, and only ever the best one
    ensures |r| <= 1 && (r != [] ==> r[0] == candidates[0])
    // a pair contributes exactly when it passes the ratio test
    ensures |candidates| == 2 ==> (r != [] <==> RatioAccepts(candidates[0].distance, candidates[1].distance))
    // a list of any other length always contributes
    ensures |candidates| != 2 ==> r != []
  {
    if |candidates| == 2 then
      if RatioAccepts(candidates[0].distance, candidates[1].distance) then [candidates[0]] else []
    else
      [candidates[0]]
  }

  /** Everything the filter appends for the candidate lists `knn`, in order. */
  function RatioFiltered(knn: seq<seq<DMatch>>): (r: seq<DMatch>)
    requires AllNonEmpty(knn)
    ensures |r| <= |knn|
  {
    if knn == [] then [] else Contribution(knn[0]) + RatioFiltered(knn[1..])
  }

  /** The filter loop: it appends to `matches`, never removing what was there. */
  method FilterKnnMatches(knn: seq<seq<DMatch>>, matches: Vector<DMatch>)
    requires AllNonEmpty(knn)
    modifies matches
    ensures matches.elems == old(matches.elems) + RatioFiltered(knn)
  {
    for i := 0 to |knn|
      invariant matches.elems == old(matches.elems) + RatioFiltered(knn[..i])
    {
      var matchVec := knn[i];
      if |matchVec| == 2 {
        var d0, d1 := matchVec[0].distance, matchVec[1].distance;
        if RatioAccepts(d0, d1) {
          matches.PushBack(matchVec[0]);
        }
      } else {
        matches.PushBack(matchVec[0]);
      }
      assert knn[..i + 1] == knn[..i] + [knn[i]];
      RatioFilteredAppend(knn[..i], [knn[i]]);
    }
    assert knn[..|knn|] == knn;
  }

  /** The filter treats each candidate list on its own and keeps their order:
      filtering a concatenation concatenates the results. */
  lemma {:induction false} RatioFilteredAppend(a: seq<seq<DMatch>>, b: seq<seq<DMatch>>)
    requires AllNonEmpty(a) && AllNonEmpty(b)
    ensures AllNonEmpty(a + b)
    ensures RatioFiltered(a + b) == RatioFiltered(a) + RatioFiltered(b)
  {
    if a == [] {
      assert a + b == b;
    } else {
      assert (a + b)[1..] == a[1..] + b;
      RatioFilteredAppend(a[1..], b);
    }
  }

  /** Every kept match is the best match of one of the candidate lists; a
      runner-up is never kept in its own right. */
  lemma {:induction false} RatioFilteredKeepsBest(knn: seq<seq<DMatch>>)
    requires AllNonEmpty(knn)
    ensures forall m :: m in RatioFiltered(knn) ==> exists i :: 0 <= i < |knn| && m == knn[i][0]
  {
    if knn != [] {
      RatioFilteredKeepsBest(knn[1..]);
      forall m | m in RatioFiltered(knn) ensures exists i :: 0 <= i < |knn| && m == knn[i][0] {
        if m in Contribution(knn[0]) {
          assert m == knn[0][0];
        } else {
          assert m in RatioFiltered(knn[1..]);
          var i :| 0 <= i < |knn[1..]| && m == knn[1..][i][0];
          assert m == knn[i + 1][0];
        }
      }
    }
  }

  /** With a positive second distance, the ratio test is the division-free
      comparison of the best distance against 0.8 times the second best. */
  lemma RatioAcceptsScaled(d0: real, d1: real)
    requires d1 > 0.0
    ensures RatioAccepts(d0, d1) <==> d0 <= LoweRatio * d1
  {
  }
}
