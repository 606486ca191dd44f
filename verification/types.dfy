/** Shared vocabulary of the vision core: optional values, rectangles, blob
    descriptors, the mirror geometry and the per-class tracking parameters. */
module Types {

  /** An optional value; `None` plays the part of Python's `None`. */
  datatype Option<T> = None | Some(value: T)

  /** A pixel position in the camera frame. */
  datatype Point = Point(x: int, y: int)

  /** A rectangle as the vision library takes it: origin (x, y), width w and
      height h. It covers the pixels x <= px < x + w and y <= py < y + h, so a
      rectangle with a non-positive width or height covers nothing. */
  datatype Rect = Rect(x: int, y: int, w: int, h: int)

  predicate Covers(r: Rect, px: int, py: int) {
    r.x <= px < r.x + r.w && r.y <= py < r.y + r.h
  }

  /** The left and top edges of `inner` are not left of or above those of
      `outer`, and its right and bottom edges are not right of or below
      those of `outer`. For an `inner` of non-negative size this means it
      lies inside `outer`. For a negative width or height it only bounds the
      left or top edge from below and the right or bottom edge from above;
      such a rectangle covers nothing (see `Covers`). */
  predicate RectWithin(inner: Rect, outer: Rect) {
    && outer.x <= inner.x && inner.x + inner.w <= outer.x + outer.w
    && outer.y <= inner.y && inner.y + inner.h <= outer.y + outer.h
  }

  /** A rectangle whose width and height are not negative. */
  predicate NonNegativeSize(r: Rect) {
    r.w >= 0 && r.h >= 0
  }

  /** `r` grown by `margin` pixels on each of its four sides. */
  function Grow(r: Rect, margin: int): Rect {
    Rect(r.x - margin, r.y - margin, r.w + 2 * margin, r.h + 2 * margin)
  }

  /** A blob descriptor as the detection library reports it: bounding box,
      integer centroid, pixel count and roundness. */
  datatype Blob = Blob(x: int, y: int, w: int, h: int, cx: int, cy: int, pixels: int, roundness: real)
  {
    function Box(): Rect {
      Rect(x, y, w, h)
    }
  }

  /** The fixed optics: the mirror's centre and the radii of the usable
      annulus, plus the size of the camera frame. */
  datatype Geometry = Geometry(centerX: int, centerY: int, radius: int, innerRadius: int, width: int, height: int)
  {
    /** The whole camera frame. */
    function Frame(): Rect {
      Rect(0, 0, width, height)
    }

    /** The bounding square of the mirror circle, centre ± radius. */
    function MirrorSquare(): Rect {
      Rect(centerX - radius, centerY - radius, 2 * radius, 2 * radius)
    }

    /** Squared Euclidean distance from the mirror centre to (px, py). */
    function SqDist(px: int, py: int): int {
      (px - centerX) * (px - centerX) + (py - centerY) * (py - centerY)
    }

    /** A sane configuration: a proper annulus 0 <= inner < radius, a
        non-empty frame, and a mirror square that overlaps the frame. */
    predicate WellFormed() {
      && 0 <= innerRadius < radius
      && 0 < width && 0 < height
      && centerX - radius < width && 0 < centerX + radius
      && centerY - radius < height && 0 < centerY + radius
    }
  }

  /** Width and height of the SVGA frame size the sensor is set to. */
  const SvgaWidth := 800
  const SvgaHeight := 600

  /** The geometry of the robot with the given number: a non-zero number
      selects the second robot's mirror calibration. */
  function GeometryFor(robotNum: int): (g: Geometry)
    ensures g.WellFormed()
    ensures g.innerRadius == 75 && g.width == SvgaWidth && g.height == SvgaHeight
    ensures robotNum == 0 ==> g.centerX == 454 && g.centerY == 276 && g.radius == 340
    ensures robotNum != 0 ==> g.centerX == 383 && g.centerY == 264 && g.radius == 320
  {
    if robotNum != 0 then Geometry(383, 264, 320, 75, SvgaWidth, SvgaHeight)
    else Geometry(454, 276, 340, 75, SvgaWidth, SvgaHeight)
  }

  /** The object kind selects the scoring formula: type 0 is the ball,
      type 1 a goal. */
  datatype Kind = Ball | Goal

  /** Per-class tracking parameters: search margin around the last match and
      the accepted pixel-count range. */
  datatype ClassConfig = ClassConfig(kind: Kind, margin: int, minPixels: int, maxPixels: int)

  const BallClass := ClassConfig(Ball, 50, 20, 8000)
  const YellowGoalClass := ClassConfig(Goal, 50, 0, 50000)
  const BlueGoalClass := ClassConfig(Goal, 50, 0, 50000)

  /** Seconds after which the memory of the last match is dropped. */
  const RefreshTime := 5
}
