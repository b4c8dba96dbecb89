/** Axis-aligned rectangles (rectangle.cpp): a corner (x, y), a width and a
    height. */
module Rectangle {
  import opened MathUtils
  import opened Point2D

  datatype Rect = Rect(x: real, y: real, w: real, h: real)
  {
    /** `getArea`: height times width. */
    function Area(): real
    {
      h * w
    }

    /** `getLeft`, `getTop`, `getRight` and `getBottom`. */
    function Left(): real { x }
    function Top(): real { y }
    function Right(): real { x + w }
    function Bottom(): real { y + h }
  }

  /** The four edges and the area are the constructor's arguments combined:
      a rectangle of non-negative size has its right edge at or after its
      left edge, its bottom at or below its top, and a non-negative area. */
  lemma EdgesAndArea(r: Rect)
    requires r.w >= 0.0 && r.h >= 0.0
    ensures r.Left() <= r.Right() && r.Right() - r.Left() == r.w
    ensures r.Top() <= r.Bottom() && r.Bottom() - r.Top() == r.h
    ensures r.Area() >= 0.0
  {
    assert r.h * r.w >= 0.0;
  }

  /** `pointInside` as written: x within [left, right] and y at or below the
      top, each with ZERO tolerance; but the last test compares the point's x
      (not its y) with the bottom edge, while its tolerance test uses y. */
  predicate PointInside(r: Rect, p: Point)
  {
    ((p.x >= r.x || DoublesEqual(p.x, r.x)) && (p.x <= r.x + r.w || DoublesEqual(p.x, r.x + r.w)))
    && ((p.y >= r.y || DoublesEqual(p.y, r.y)) && (p.x <= r.y + r.h || DoublesEqual(p.y, r.y + r.h)))
  }

  /** The test the last clause evidently meant: y against the bottom edge. */
  predicate PointInsideCorrected(r: Rect, p: Point)
  {
    ((p.x >= r.x || DoublesEqual(p.x, r.x)) && (p.x <= r.x + r.w || DoublesEqual(p.x, r.x + r.w)))
    && ((p.y >= r.y || DoublesEqual(p.y, r.y)) && (p.y <= r.y + r.h || DoublesEqual(p.y, r.y + r.h)))
  }

  /** The as-written test rejects the centre of the unit square placed at
      x = 10, because it compares x = 10.5 with the bottom edge y + h = 1. */
  lemma PointInsideRejectsCentre()
    ensures var r := Rect(10.0, 0.0, 1.0, 1.0);
            var p := Point(10.5, 0.5);
            r.Left() < p.x < r.Right() && r.Top() < p.y < r.Bottom()
            && !PointInside(r, p) && PointInsideCorrected(r, p)
  {
  }

  /** The corrected test accepts exactly the points of the closed rectangle,
      widened by less than ZERO on each side. */
  lemma PointInsideCorrectedMeansInside(r: Rect, p: Point)
    ensures PointInsideCorrected(r, p) <==>
              r.Left() - ZERO < p.x < r.Right() + ZERO && r.Top() - ZERO < p.y < r.Bottom() + ZERO
    ensures r.Left() <= p.x <= r.Right() && r.Top() <= p.y <= r.Bottom() ==> PointInsideCorrected(r, p)
  {
  }
}
