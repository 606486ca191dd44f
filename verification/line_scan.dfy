/** The radial floor-line scanner: sixteen independent probes, each a small
    square window around one fixed sample point, each reporting whether the
    detector found any line-coloured blob there. */
module LineScan {
  import opened Types

  /** Half the side of a probe window. */
  const SegmentSize := 15
  /** Number of probes. */
  const SegmentN := 16

  /** The probe window of a sample point: a 30 by 30 square centred on it. */
  function SegmentRoi(p: Point): (r: Rect)
    ensures r.w == 2 * SegmentSize && r.h == 2 * SegmentSize
    ensures 2 * r.x + r.w == 2 * p.x && 2 * r.y + r.h == 2 * p.y
    ensures forall qx, qy :: Covers(r, qx, qy) <==>
      -SegmentSize <= qx - p.x < SegmentSize && -SegmentSize <= qy - p.y < SegmentSize
  {
    Rect(p.x - SegmentSize, p.y - SegmentSize, SegmentSize * 2, SegmentSize * 2)
  }

  /** One probe: did the detector report any blob in the window around the
      sample point? */
  predicate FindSegment(p: Point, detect: Rect -> seq<Blob>) {
    |detect(SegmentRoi(p))| > 0
  }

  /** The probes 0 .. n-1 appended in order, as the scanner's loop does. */
  function ScanPrefix(points: seq<Point>, detect: Rect -> seq<Blob>, n: nat): (arr: seq<bool>)
    requires n <= |points|
    ensures |arr| == n
    ensures forall i :: 0 <= i < n ==> (arr[i] <==> FindSegment(points[i], detect))
  {
    if n == 0 then [] else ScanPrefix(points, detect, n - 1) + [FindSegment(points[n - 1], detect)]
  }

  /** A full scan over the sixteen sample points: exactly sixteen entries,
      entry i true iff the detector finds a blob in the window of point i. */
  function LineFind(points: seq<Point>, detect: Rect -> seq<Blob>): (arr: seq<bool>)
    requires |points| == SegmentN
    ensures |arr| == SegmentN
    ensures forall i :: 0 <= i < SegmentN ==> (arr[i] <==> |detect(SegmentRoi(points[i]))| > 0)
  {
    ScanPrefix(points, detect, SegmentN)
  }

  /** The probes are independent: two detectors that agree on every probe
      window except the one of point j give scans that agree everywhere
      except possibly at index j. */
  lemma ProbesIndependent(points: seq<Point>, d1: Rect -> seq<Blob>, d2: Rect -> seq<Blob>, j: int)
    requires |points| == SegmentN
    requires forall i :: 0 <= i < SegmentN && i != j ==>
      (|d1(SegmentRoi(points[i]))| > 0 <==> |d2(SegmentRoi(points[i]))| > 0)
    ensures forall i :: 0 <= i < SegmentN && i != j ==> LineFind(points, d1)[i] == LineFind(points, d2)[i]
  {
  }
}
