/** Recursive non-maximum suppression of Harris corners.

    One round takes the first keypoint as the running maximum and scans the
    rest in order: a keypoint that overlaps the running maximum replaces it
    when its response is strictly higher (and is dropped otherwise); a keypoint
    that does not overlap it is deferred. The round emits the running maximum
    and the next round works on the deferred keypoints. */
module HarrisNms {
  import opened Features

  /** The state of a round's scan: the running maximum and the keypoints
      deferred so far, in scan order. */
  datatype ScanState = ScanState(max: KeyPoint, deferred: seq<KeyPoint>)

  /** Scanning one more keypoint `cur`. */
  function ScanStep(st: ScanState, cur: KeyPoint, overlaps: OverlapTest): (r: ScanState)
    // the running maximum's response never decreases
    ensures r.max.response >= st.max.response
    // an overlapping keypoint is absorbed: it is dominated by the new maximum
    ensures overlaps(st.max, cur) ==> r.max.response >= cur.response && r.deferred == st.deferred
    // the maximum changes only to a strictly stronger overlapping keypoint, so a tie keeps the earlier one
    ensures r.max != st.max ==> r.max == cur && overlaps(st.max, cur) && cur.response > st.max.response
  {
    if overlaps(st.max, cur) then
      ScanState(if cur.response > st.max.response then cur else st.max, st.deferred)
    else
      ScanState(st.max, st.deferred + [cur])
  }

  /** The scan state after the first `n` keypoints of a round: the first starts
      the running maximum, the next `n - 1` are scanned in order. */
  function ScanPrefix(ops: seq<KeyPoint>, n: nat, overlaps: OverlapTest): (st: ScanState)
    requires 1 <= n <= |ops|
    ensures |st.deferred| < n
    decreases n
  {
    if n == 1 then ScanState(ops[0], [])
    else ScanStep(ScanPrefix(ops, n - 1, overlaps), ops[n - 1], overlaps)
  }

  /** The outcome of one round on a non-empty list: the keypoint it emits and
      the keypoints it defers to the next round. */
  function Round(ops: seq<KeyPoint>, overlaps: OverlapTest): (st: ScanState)
    requires ops != []
    ensures |st.deferred| < |ops|
  {
    ScanPrefix(ops, |ops|, overlaps)
  }

  /** Everything the suppression appends to its result for input `ops`. */
  function Nms(ops: seq<KeyPoint>, overlaps: OverlapTest): (r: seq<KeyPoint>)
    ensures ops == [] <==> r == []
    ensures |r| <= |ops|
    decreases |ops|
  {
    if ops == [] then []
    else
      var st := Round(ops, overlaps);
      [st.max] + Nms(st.deferred, overlaps)
  }

  /** One round's scan loop. */
  method NmsRound(ops: seq<KeyPoint>, overlaps: OverlapTest) returns (maxKeypt: KeyPoint, deferred: seq<KeyPoint>)
    requires ops != []
    ensures ScanState(maxKeypt, deferred) == Round(ops, overlaps)
  {
    maxKeypt := ops[0];
    deferred := [];
    var n := 1;
    while n < |ops|
      invariant 1 <= n <= |ops|
      invariant ScanState(maxKeypt, deferred) == ScanPrefix(ops, n, overlaps)
    {
      var cur := ops[n];
      if overlaps(maxKeypt, cur) {
        // a neighbour: it takes over only with a strictly higher response
        if cur.response > maxKeypt.response {
          maxKeypt := cur;
        }
      } else {
        // not a neighbour: left for the next round
        deferred := deferred + [cur];
      }
      n := n + 1;
    }
  }

  /** The suppression itself. With `runNms` it appends one keypoint per round
      to `result`; without it, `result` becomes a copy of the input. */
  method NmsHarrisCorner(operation: seq<KeyPoint>, result: Vector<KeyPoint>, runNms: bool, overlaps: OverlapTest)
    modifies result
    ensures runNms ==> result.elems == old(result.elems) + Nms(operation, overlaps)
    ensures !runNms ==> result.elems == operation
    decreases |operation|
  {
    if runNms {
      if operation != [] {
        var maxKeypt, newOperation := NmsRound(operation, overlaps);
        NmsUnfold(operation, overlaps);
        result.PushBack(maxKeypt);
        NmsHarrisCorner(newOperation, result, runNms, overlaps);
      }
    } else {
      result.elems := operation;
    }
  }

  /** One round of the suppression emits the round's maximum before the later rounds. */
  lemma NmsUnfold(ops: seq<KeyPoint>, overlaps: OverlapTest)
    requires ops != []
    ensures Nms(ops, overlaps) == [Round(ops, overlaps).max] + Nms(Round(ops, overlaps).deferred, overlaps)
  {
  }

  /** The running maximum's response never decreases during a scan; in
      particular it is never below the first keypoint's. */
  lemma {:induction false} ScanMaxMonotone(ops: seq<KeyPoint>, m: nat, n: nat, overlaps: OverlapTest)
    requires 1 <= m <= n <= |ops|
    ensures ScanPrefix(ops, m, overlaps).max.response <= ScanPrefix(ops, n, overlaps).max.response
    ensures ops[0].response <= ScanPrefix(ops, n, overlaps).max.response
    decreases n
  {
    if n > 1 {
      if m < n {
        ScanMaxMonotone(ops, m, n - 1, overlaps);
      } else {
        ScanMaxMonotone(ops, 1, n - 1, overlaps);
      }
    }
  }

  /** The running maximum is always one of the keypoints scanned so far. */
  lemma {:induction false} ScanMaxInInput(ops: seq<KeyPoint>, n: nat, overlaps: OverlapTest)
    requires 1 <= n <= |ops|
    ensures ScanPrefix(ops, n, overlaps).max in ops[..n]
    decreases n
  {
    if n > 1 {
      ScanMaxInInput(ops, n - 1, overlaps);
      assert ops[..n - 1] <= ops[..n];
      assert ops[n - 1] == ops[..n][n - 1];
    }
  }

  /** The positions a scan of the first `n` keypoints defers: exactly those
      keypoints that did not overlap the running maximum at the moment they
      were scanned, kept in their original order. */
  ghost predicate DeferredPositions(ops: seq<KeyPoint>, n: nat, idx: seq<nat>, overlaps: OverlapTest)
    requires 1 <= n <= |ops|
  {
    IsSelection(ScanPrefix(ops, n, overlaps).deferred, ops, idx) &&
    (forall t :: 0 <= t < |idx| ==> 1 <= idx[t] < n) &&
    (forall k {:trigger k in idx} :: 1 <= k < n ==> (k in idx <==> !overlaps(ScanPrefix(ops, k, overlaps).max, ops[k])))
  }

  /** Deferral: a keypoint goes to the next round exactly when it does not
      overlap the running maximum as it is scanned, and the deferred keypoints
      keep their relative order; overlapping keypoints are never deferred. */
  lemma {:induction false} ScanDeferral(ops: seq<KeyPoint>, n: nat, overlaps: OverlapTest)
    requires 1 <= n <= |ops|
    ensures exists idx :: DeferredPositions(ops, n, idx, overlaps)
    decreases n
  {
    if n == 1 {
      assert DeferredPositions(ops, n, [], overlaps);
    } else {
      ScanDeferral(ops, n - 1, overlaps);
      var idx :| DeferredPositions(ops, n - 1, idx, overlaps);
      DeferralStep(ops, n, idx, overlaps);
    }
  }

  /** The inductive step of ScanDeferral: scanning keypoint `n - 1`. */
  lemma DeferralStep(ops: seq<KeyPoint>, n: nat, idx: seq<nat>, overlaps: OverlapTest)
    requires 2 <= n <= |ops|
    requires DeferredPositions(ops, n - 1, idx, overlaps)
    ensures exists idx' :: DeferredPositions(ops, n, idx', overlaps)
  {
    if overlaps(ScanPrefix(ops, n - 1, overlaps).max, ops[n - 1]) {
      AbsorbedStep(ops, n, idx, overlaps);
    } else {
      DeferredStep(ops, n, idx, overlaps);
    }
  }

  /** Scanning an overlapping keypoint leaves the deferred positions as they were. */
  lemma AbsorbedStep(ops: seq<KeyPoint>, n: nat, idx: seq<nat>, overlaps: OverlapTest)
    requires 2 <= n <= |ops|
    requires DeferredPositions(ops, n - 1, idx, overlaps)
    requires overlaps(ScanPrefix(ops, n - 1, overlaps).max, ops[n - 1])
    ensures DeferredPositions(ops, n, idx, overlaps)
  {
  }

  /** Scanning a keypoint that does not overlap adds its position at the end. */
  lemma DeferredStep(ops: seq<KeyPoint>, n: nat, idx: seq<nat>, overlaps: OverlapTest)
    requires 2 <= n <= |ops|
    requires DeferredPositions(ops, n - 1, idx, overlaps)
    requires !overlaps(ScanPrefix(ops, n - 1, overlaps).max, ops[n - 1])
    ensures DeferredPositions(ops, n, idx + [n - 1], overlaps)
  {
  }

  /** Appending the element at a position beyond all selected ones extends a selection. */
  lemma SelectionExtend(sub: seq<KeyPoint>, s: seq<KeyPoint>, idx: seq<nat>, p: nat)
    requires IsSelection(sub, s, idx)
    requires p < |s| && forall t :: 0 <= t < |idx| ==> idx[t] < p
    ensures IsSelection(sub + [s[p]], s, idx + [p])
  {
  }

  /** Every keypoint of a round is either dominated by the keypoint the round
      emits or deferred to the next round. */
  lemma RoundDominatesOrDefers(ops: seq<KeyPoint>, k: nat, overlaps: OverlapTest)
    requires k < |ops|
    ensures ops[k].response <= Round(ops, overlaps).max.response || ops[k] in Round(ops, overlaps).deferred
  {
    ScanMaxMonotone(ops, 1, |ops|, overlaps);
    if k > 0 {
      ScanDeferral(ops, |ops|, overlaps);
      var idx :| DeferredPositions(ops, |ops|, idx, overlaps);
      if k in idx {
        var t :| 0 <= t < |idx| && idx[t] == k;
        assert Round(ops, overlaps).deferred[t] == ops[k];
      } else {
        ScanMaxMonotone(ops, k + 1, |ops|, overlaps);
      }
    }
  }

  /** What a round defers comes from its input. */
  lemma RoundDeferredInInput(ops: seq<KeyPoint>, overlaps: OverlapTest)
    requires ops != []
    ensures forall d :: d in Round(ops, overlaps).deferred ==> d in ops
  {
    ScanDeferral(ops, |ops|, overlaps);
    var idx :| DeferredPositions(ops, |ops|, idx, overlaps);
    forall d | d in Round(ops, overlaps).deferred ensures d in ops {
      var t :| 0 <= t < |Round(ops, overlaps).deferred| && Round(ops, overlaps).deferred[t] == d;
      assert ops[idx[t]] == d;
    }
  }

  /** The suppression only ever emits keypoints of its input. */
  lemma {:induction false} NmsOutputFromInput(ops: seq<KeyPoint>, overlaps: OverlapTest)
    ensures forall q :: q in Nms(ops, overlaps) ==> q in ops
    decreases |ops|
  {
    if ops != [] {
      var st := Round(ops, overlaps);
      ScanMaxInInput(ops, |ops|, overlaps);
      RoundDeferredInInput(ops, overlaps);
      NmsOutputFromInput(st.deferred, overlaps);
      assert Nms(ops, overlaps) == [st.max] + Nms(st.deferred, overlaps);
    }
  }

  /** No input keypoint is lost without a trace: each one is matched or beaten
      by the response of some emitted keypoint. */
  lemma {:induction false} NmsKeepsStrongest(ops: seq<KeyPoint>, overlaps: OverlapTest)
    ensures forall p :: p in ops ==> exists q :: q in Nms(ops, overlaps) && p.response <= q.response
    decreases |ops|
  {
    if ops != [] {
      var st := Round(ops, overlaps);
      var out := Nms(ops, overlaps);
      assert out == [st.max] + Nms(st.deferred, overlaps);
      NmsKeepsStrongest(st.deferred, overlaps);
      forall p | p in ops
        ensures exists q :: q in out && p.response <= q.response
      {
        var k :| 0 <= k < |ops| && ops[k] == p;
        RoundDominatesOrDefers(ops, k, overlaps);
        if p.response <= st.max.response {
          assert st.max in out;
        } else {
          var q :| q in Nms(st.deferred, overlaps) && p.response <= q.response;
          assert q in out;
        }
      }
    }
  }

  /** A keypoint of strongest response in the input is matched, response for
      response, by one that the suppression emits. */
  lemma NmsKeepsMaximum(ops: seq<KeyPoint>, p: KeyPoint, overlaps: OverlapTest)
    requires p in ops
    requires forall o :: o in ops ==> o.response <= p.response
    ensures exists q :: q in Nms(ops, overlaps) && q.response == p.response
  {
    NmsKeepsStrongest(ops, overlaps);
    NmsOutputFromInput(ops, overlaps);
    var q :| q in Nms(ops, overlaps) && p.response <= q.response;
    assert q in ops;
  }
}
