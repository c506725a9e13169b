/** Value types shared by the detector, the non-maximum suppression and the
    matcher: the parts of OpenCV's KeyPoint and DMatch that the feature code
    reads or writes, and the growable vector used for its out-parameters. */
module Features {

  /** An image feature: its position (x is the column, y the row), the diameter
      of its neighbourhood and the detector's response at that position. */
  datatype KeyPoint = KeyPoint(x: real, y: real, size: real, response: real)

  /** One match between a query descriptor and a train descriptor. */
  datatype DMatch = DMatch(queryIdx: int, trainIdx: int, imgIdx: int, distance: real)

  /** Whether the neighbourhood of the first keypoint (the running maximum)
      overlaps that of the second (the keypoint being scanned). The geometry is
      the library's; the model only ever asks the question in that argument
      order and assumes nothing else about the answer. */
  type OverlapTest = (KeyPoint, KeyPoint) -> bool

  /** A vector passed by reference: callers see every push_back and assignment. */
  class Vector<T> {
    var elems: seq<T>

    constructor ()
      ensures elems == []
    {
      elems := [];
    }

    method PushBack(x: T)
      modifies this
      ensures elems == old(elems) + [x]
    {
      elems := elems + [x];
    }
  }

  /** `sub` lists the elements of `s` at the strictly increasing positions `idx`:
      it is `s` with the other positions dropped and the order kept. */
  ghost predicate IsSelection<T>(sub: seq<T>, s: seq<T>, idx: seq<nat>)
  {
    |sub| == |idx| &&
    (forall t :: 0 <= t < |idx| ==> idx[t] < |s| && sub[t] == s[idx[t]]) &&
    (forall t, u :: 0 <= t < u < |idx| ==> idx[t] < idx[u])
  }
}
