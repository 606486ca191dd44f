/** The region-of-interest predictor: the search window handed to the blob
    detector, either the whole usable field or the last match grown by a
    margin, always clamped to the frame and to the mirror's bounding square. */
module Roi {
  import opened Types

  function Max(a: int, b: int): int {
    if a >= b then a else b
  }

  function Min(a: int, b: int): int {
    if a <= b then a else b
  }

  /** The window searched when there is no current match: the frame
      intersected with the mirror square. Its pixels are exactly those of both
      rectangles, and it never reaches outside either of them. */
  function FullSearchRoi(g: Geometry): (r: Rect)
    ensures forall px, py :: Covers(r, px, py) <==> Covers(g.Frame(), px, py) && Covers(g.MirrorSquare(), px, py)
    ensures RectWithin(r, g.Frame()) && RectWithin(r, g.MirrorSquare())
    ensures g.WellFormed() ==> r.w > 0 && r.h > 0
  {
    var x := Max(0, g.centerX - g.radius);
    var y := Max(0, g.centerY - g.radius);
    Rect(x, y, Min(g.centerX + g.radius, g.width) - x, Min(g.centerY + g.radius, g.height) - y)
  }

  /** The window searched around a previous match box: the box grown by
      `margin` on every side, intersected with the frame and the mirror
      square. When the box itself lies inside the frame and the mirror square,
      the window contains the whole box. */
  function MatchRoi(g: Geometry, box: Rect, margin: int): (r: Rect)
    ensures forall px, py :: Covers(r, px, py) <==>
      Covers(g.Frame(), px, py) && Covers(g.MirrorSquare(), px, py) && Covers(Grow(box, margin), px, py)
    ensures RectWithin(r, g.Frame()) && RectWithin(r, g.MirrorSquare())
    ensures RectWithin(r, Grow(box, margin))
    ensures margin >= 0 && NonNegativeSize(box) && RectWithin(box, g.Frame()) && RectWithin(box, g.MirrorSquare())
      ==> RectWithin(box, r) && NonNegativeSize(r)
  {
    var x := Max(Max(0, g.centerX - g.radius), box.x - margin);
    var y := Max(Max(0, g.centerY - g.radius), box.y - margin);
    Rect(x, y,
         Min(Min(box.x + box.w + margin, g.centerX + g.radius), g.width) - x,
         Min(Min(box.y + box.h + margin, g.centerY + g.radius), g.height) - y)
  }
}
