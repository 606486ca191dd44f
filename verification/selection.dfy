/** Candidate acceptance, scoring and selection of the single best blob. */
module Selection {
  import opened Types

  /** The accepted pixel-count range of a class. */
  predicate PixelsInRange(cls: ClassConfig, b: Blob) {
    cls.minPixels <= b.pixels <= cls.maxPixels
  }

  /** The acceptance callback. The source compares the square root of the
      squared centroid distance with the radii; on integers that comparison is
      decided exactly by the squared distance, which is what is computed here
      (`DistanceTestIsExact` shows the two agree). */
  predicate FilterBlob(g: Geometry, cls: ClassConfig, b: Blob) {
    var d2 := g.SqDist(b.cx, b.cy);
    && PixelsInRange(cls, b)
    && (g.radius >= 0 && d2 <= g.radius * g.radius)
    && (g.innerRadius <= 0 || d2 >= g.innerRadius * g.innerRadius)
  }

  /** `s` is the exact (real) square root of the squared distance `d2`. */
  predicate IsDistance(s: real, d2: int) {
    s >= 0.0 && s * s == d2 as real
  }

  /** A product of two positive reals is positive. */
  lemma ProductPositive(x: real, y: real)
    requires 0.0 < x && 0.0 < y
    ensures 0.0 < x * y
  {
  }

  /** Squaring is strictly monotone on non-negative reals. */
  lemma SquareMonotone(a: real, b: real)
    requires 0.0 <= a
    ensures a <= b ==> a * a <= b * b
    ensures a < b ==> a * a < b * b
  {
    if a < b {
      ProductPositive(b - a, b + a);
      assert (b - a) * (b + a) == b * b - a * a;
    }
  }

  /** For a non-negative real s with s*s == d2, comparing s with an integer
      bound k is the same as comparing d2 with k*k. */
  lemma RootCompare(s: real, d2: int, k: int)
    requires IsDistance(s, d2)
    ensures s <= k as real <==> (k >= 0 && d2 <= k * k)
    ensures s >= k as real <==> (k <= 0 || d2 >= k * k)
  {
    var K := k as real;
    assert (k * k) as real == K * K;
    if 0.0 <= K {
      SquareMonotone(s, K);
      SquareMonotone(K, s);
    }
  }

  /** The acceptance test is the source's Euclidean test: a blob is accepted
      iff its pixel count is in range and the true distance of its centroid
      from the mirror centre lies between the inner radius and the radius. */
  lemma DistanceTestIsExact(g: Geometry, cls: ClassConfig, b: Blob, s: real)
    requires IsDistance(s, g.SqDist(b.cx, b.cy))
    ensures FilterBlob(g, cls, b) <==>
      PixelsInRange(cls, b) && g.innerRadius as real <= s <= g.radius as real
  {
    RootCompare(s, g.SqDist(b.cx, b.cy), g.radius);
    RootCompare(s, g.SqDist(b.cx, b.cy), g.innerRadius);
  }

  /** The fitness of a blob: its pixel count for a goal, pixel count times
      roundness for the ball. */
  function Score(kind: Kind, b: Blob): real {
    if kind == Ball then b.pixels as real * b.roundness else b.pixels as real
  }

  /** Index k is the first element of blobs[..n] with the highest score: no
      element scores more, and every element before it scores strictly less. */
  predicate IsFirstMax(kind: Kind, blobs: seq<Blob>, n: nat, k: int) {
    && n <= |blobs|
    && 0 <= k < n
    && (forall j :: 0 <= j < n ==> Score(kind, blobs[j]) <= Score(kind, blobs[k]))
    && (forall j :: 0 <= j < k ==> Score(kind, blobs[j]) < Score(kind, blobs[k]))
  }

  /** The scan behind Python's `max(..., key=...)`: walk left to right and
      replace the running best only by a strictly better score. */
  function BestFrom(kind: Kind, blobs: seq<Blob>, i: nat, best: nat): (k: nat)
    requires IsFirstMax(kind, blobs, i, best)
    ensures IsFirstMax(kind, blobs, |blobs|, k)
    decreases |blobs| - i
  {
    if i == |blobs| then best
    else if Score(kind, blobs[i]) > Score(kind, blobs[best]) then BestFrom(kind, blobs, i + 1, i)
    else BestFrom(kind, blobs, i + 1, best)
  }

  /** The selected candidate of a non-empty list: the first element with the
      maximal score, and the only index with that property. */
  function BestIndex(kind: Kind, blobs: seq<Blob>): (k: nat)
    requires |blobs| > 0
    ensures k < |blobs|
    ensures forall j :: 0 <= j < |blobs| ==> Score(kind, blobs[j]) <= Score(kind, blobs[k])
    ensures forall j :: 0 <= j < k ==> Score(kind, blobs[j]) < Score(kind, blobs[k])
    ensures forall i :: IsFirstMax(kind, blobs, |blobs|, i) <==> i == k
  {
    BestFrom(kind, blobs, 1, 0)
  }
}
