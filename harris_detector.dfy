/** The Harris detector's own logic: turning the normalised corner-response
    matrix into keypoints. The response matrix itself comes from the library
    and is an input here. */
module HarrisDetector {
  import opened Features
  import HarrisNms

  /** A cell becomes a corner when its normalised response exceeds this. */
  const MinResponse: real := 100.0
  /** Aperture of the Sobel operator; a corner's diameter is twice it. */
  const ApertureSize: nat := 3

  /** The keypoint for the cell at row `i`, column `j` with response `v`. */
  function Corner(i: nat, j: nat, v: real): KeyPoint
  {
    KeyPoint(j as real, i as real, (2 * ApertureSize) as real, v)
  }

  /** The corners in the first `n` cells of row `i`, left to right. */
  function RowCorners(m: array2<real>, i: nat, n: nat): seq<KeyPoint>
    reads m
    requires i < m.Length0 && n <= m.Length1
  {
    if n == 0 then []
    else RowCorners(m, i, n - 1) + (if m[i, n - 1] > MinResponse then [Corner(i, n - 1, m[i, n - 1])] else [])
  }

  /** The corners in the first `rows` rows, in row-major order. */
  function CornersUpTo(m: array2<real>, rows: nat): seq<KeyPoint>
    reads m
    requires rows <= m.Length0
  {
    if rows == 0 then [] else CornersUpTo(m, rows - 1) + RowCorners(m, rows - 1, m.Length1)
  }

  /** All corners of the response matrix. */
  function HarrisCorners(m: array2<real>): seq<KeyPoint>
    reads m
  {
    CornersUpTo(m, m.Length0)
  }

  /** The threshold scan over the normalised response matrix. */
  method ThresholdScan(m: array2<real>) returns (corners: seq<KeyPoint>)
    ensures corners == HarrisCorners(m)
  {
    corners := [];
    for i := 0 to m.Length0
      invariant corners == CornersUpTo(m, i)
    {
      for j := 0 to m.Length1
        invariant corners == CornersUpTo(m, i) + RowCorners(m, i, j)
      {
        if m[i, j] > MinResponse {
          corners := corners + [Corner(i, j, m[i, j])];
        }
      }
    }
  }

  /** Harris detection from a normalised response matrix: the threshold scan,
      then the suppression step with suppression switched off, which replaces
      whatever `keypoints` held by the scanned corners. */
  method DetKeypointsHarris(m: array2<real>, keypoints: Vector<KeyPoint>, overlaps: OverlapTest)
    modifies keypoints
    ensures keypoints.elems == HarrisCorners(m)
  {
    var initialKeypoints := ThresholdScan(m);
    var runNms := false;
    HarrisNms.NmsHarrisCorner(initialKeypoints, keypoints, runNms, overlaps);
  }

  /** `kp` is the corner of some cell of `m` whose response exceeds the threshold. */
  ghost predicate IsCornerOf(m: array2<real>, kp: KeyPoint)
    reads m
  {
    exists i: nat, j: nat :: i < m.Length0 && j < m.Length1 && m[i, j] > MinResponse && kp == Corner(i, j, m[i, j])
  }

  /** `a` comes strictly before `b` in row-major order. */
  predicate Before(a: KeyPoint, b: KeyPoint)
  {
    a.y < b.y || (a.y == b.y && a.x < b.x)
  }

  ghost predicate RowMajor(s: seq<KeyPoint>)
  {
    forall k, l :: 0 <= k < l < |s| ==> Before(s[k], s[l])
  }

  /** The corners of a row prefix lie in that row and that prefix, in order. */
  lemma {:induction false} RowCornersShape(m: array2<real>, i: nat, n: nat)
    requires i < m.Length0 && n <= m.Length1
    ensures forall k :: 0 <= k < |RowCorners(m, i, n)| ==>
      IsCornerOf(m, RowCorners(m, i, n)[k]) && RowCorners(m, i, n)[k].y == i as real && RowCorners(m, i, n)[k].x < n as real
    ensures RowMajor(RowCorners(m, i, n))
  {
    if n > 0 {
      RowCornersShape(m, i, n - 1);
      var prev := RowCorners(m, i, n - 1);
      var r := RowCorners(m, i, n);
      if m[i, n - 1] > MinResponse {
        assert r == prev + [Corner(i, n - 1, m[i, n - 1])];
        assert IsCornerOf(m, Corner(i, n - 1, m[i, n - 1]));
      } else {
        assert r == prev;
      }
    }
  }

  /** Every above-threshold cell of a row prefix yields its corner. */
  lemma {:induction false} RowCornersComplete(m: array2<real>, i: nat, n: nat)
    requires i < m.Length0 && n <= m.Length1
    ensures forall j :: 0 <= j < n && m[i, j] > MinResponse ==> Corner(i, j, m[i, j]) in RowCorners(m, i, n)
  {
    if n > 0 {
      RowCornersComplete(m, i, n - 1);
    }
  }

  /** The corners of the first `rows` rows lie in those rows, in row-major order. */
  lemma {:induction false} CornersUpToShape(m: array2<real>, rows: nat)
    requires rows <= m.Length0
    ensures forall k :: 0 <= k < |CornersUpTo(m, rows)| ==>
      IsCornerOf(m, CornersUpTo(m, rows)[k]) && CornersUpTo(m, rows)[k].y < rows as real
    ensures RowMajor(CornersUpTo(m, rows))
  {
    if rows > 0 {
      CornersUpToShape(m, rows - 1);
      RowCornersShape(m, rows - 1, m.Length1);
      var a := CornersUpTo(m, rows - 1);
      var b := RowCorners(m, rows - 1, m.Length1);
      assert CornersUpTo(m, rows) == a + b;
      forall k, l | 0 <= k < l < |a + b| ensures Before((a + b)[k], (a + b)[l]) {
        if l < |a| {
          assert (a + b)[k] == a[k] && (a + b)[l] == a[l];
        } else if k >= |a| {
          assert (a + b)[k] == b[k - |a|] && (a + b)[l] == b[l - |a|];
        } else {
          assert (a + b)[k] == a[k] && (a + b)[l] == b[l - |a|];
        }
      }
    }
  }

  /** Every above-threshold cell of the first `rows` rows yields its corner. */
  lemma {:induction false} CornersUpToComplete(m: array2<real>, rows: nat)
    requires rows <= m.Length0
    ensures forall i, j :: 0 <= i < rows && 0 <= j < m.Length1 && m[i, j] > MinResponse ==>
      Corner(i, j, m[i, j]) in CornersUpTo(m, rows)
  {
    if rows > 0 {
      CornersUpToComplete(m, rows - 1);
      RowCornersComplete(m, rows - 1, m.Length1);
      var a := CornersUpTo(m, rows - 1);
      var b := RowCorners(m, rows - 1, m.Length1);
      assert CornersUpTo(m, rows) == a + b;
      forall i, j | 0 <= i < rows && 0 <= j < m.Length1 && m[i, j] > MinResponse
        ensures Corner(i, j, m[i, j]) in a + b
      {
        if i < rows - 1 {
          assert Corner(i, j, m[i, j]) in a;
        } else {
          assert i == rows - 1;
          assert Corner(rows - 1, j, m[rows - 1, j]) in b;
        }
      }
    }
  }

  /** The scan's result: exactly one keypoint per cell above the threshold,
      at (column, row) with size 6 and the cell's response, in row-major order. */
  lemma HarrisCornersCharacterized(m: array2<real>)
    ensures forall k :: 0 <= k < |HarrisCorners(m)| ==> IsCornerOf(m, HarrisCorners(m)[k])
    ensures forall i, j :: 0 <= i < m.Length0 && 0 <= j < m.Length1 && m[i, j] > MinResponse ==>
      Corner(i, j, m[i, j]) in HarrisCorners(m)
    ensures RowMajor(HarrisCorners(m))
  {
    CornersUpToShape(m, m.Length0);
    CornersUpToComplete(m, m.Length0);
  }
}
