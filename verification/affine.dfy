/** Affine maps of the plane (affinetransform.cpp): (x, y) goes to
    (x·m00 + y·m01 + m02, x·m10 + y·m11 + m12). */
module Affine {
  import opened Wrappers
  import opened MathUtils
  import opened Point2D
  import opened TriFit

  /** The six-coefficient constructor stores its arguments unchanged. */
  datatype Transform = Transform(m00: real, m01: real, m02: real, m10: real, m11: real, m12: real)

  /** `transform`. */
  function Apply(t: Transform, p: Point): Point
  {
    Point(p.x * t.m00 + p.y * t.m01 + t.m02, p.x * t.m10 + p.y * t.m11 + t.m12)
  }

  /** `getDeterminant` of the linear part. */
  function Determinant(t: Transform): real
  {
    t.m00 * t.m11 - t.m01 * t.m10
  }

  /** Whether `inverseTransform` and `getInverse` accept the transform:
      they throw when the determinant is within ZERO of 0. */
  predicate Invertible(t: Transform)
  {
    Abs(Determinant(t)) >= ZERO
  }

  /** `inverseTransform`: solves the linear system by Cramer's rule. */
  function InverseApply(t: Transform, p: Point): (r: Result<Point>)
    ensures r.Err? <==> !Invertible(t)
    ensures r.Err? ==> r.error == NotInvertible
  {
    if Abs(Determinant(t)) < ZERO then Err(NotInvertible)
    else Ok(Solve(t, p.x - t.m02, p.y - t.m12))
  }

  /** Cramer's rule for the linear part: the (a, b) with
      a·m00 + b·m01 = x and a·m10 + b·m11 = y. */
  function Solve(t: Transform, x: real, y: real): Point
    requires Determinant(t) != 0.0
  {
    var det := Determinant(t);
    Point((x * t.m11 - y * t.m01) / det, (y * t.m00 - x * t.m10) / det)
  }

  /** `getInverse`: the coefficients of the inverse map. */
  function Inverse(t: Transform): (r: Result<Transform>)
    ensures r.Err? <==> !Invertible(t)
    ensures r.Err? ==> r.error == NotInvertible
  {
    var det := Determinant(t);
    if Abs(det) < ZERO then Err(NotInvertible)
    else
      Ok(Transform(t.m11 / det, -t.m01 / det, (t.m01 * t.m12 - t.m11 * t.m02) / det,
                   -t.m10 / det, t.m00 / det, (t.m10 * t.m02 - t.m00 * t.m12) / det))
  }

  /** Undoing a transform gives the point back, exactly over the reals, and
      so does applying it after undoing it. */
  lemma InverseApplyRoundTrip(t: Transform, p: Point)
    requires Invertible(t)
    ensures InverseApply(t, Apply(t, p)) == Ok(p)
    ensures InverseApply(t, p).Ok? && Apply(t, InverseApply(t, p).value) == p
  {
    InverseAfterApply(t, p);
    ApplyAfterInverse(t, p);
  }

  lemma InverseAfterApply(t: Transform, p: Point)
    requires Invertible(t)
    ensures InverseApply(t, Apply(t, p)) == Ok(p)
  {
    var q := Apply(t, p);
    assert q.x - t.m02 == p.x * t.m00 + p.y * t.m01;
    assert q.y - t.m12 == p.x * t.m10 + p.y * t.m11;
    SolveUndoes(t, p.x, p.y);
    assert Solve(t, p.x * t.m00 + p.y * t.m01, p.x * t.m10 + p.y * t.m11) == p;
    assert Solve(t, q.x - t.m02, q.y - t.m12) == p;
    assert InverseApply(t, q) == Ok(Solve(t, q.x - t.m02, q.y - t.m12));
  }

  lemma ApplyAfterInverse(t: Transform, p: Point)
    requires Invertible(t)
    ensures InverseApply(t, p).Ok? && Apply(t, InverseApply(t, p).value) == p
  {
    SolveSolves(t, p.x - t.m02, p.y - t.m12);
  }

  /** Solving the image of (a, b) gives (a, b) back. */
  lemma SolveUndoes(t: Transform, a: real, b: real)
    requires Determinant(t) != 0.0
    ensures Solve(t, a * t.m00 + b * t.m01, a * t.m10 + b * t.m11) == Point(a, b)
  {
    var det := Determinant(t);
    var x := a * t.m00 + b * t.m01;
    var y := a * t.m10 + b * t.m11;
    assert x * t.m11 - y * t.m01 == a * det;
    assert y * t.m00 - x * t.m10 == b * det;
    CancelDet(a, det);
    CancelDet(b, det);
  }

  /** The solution satisfies the system. */
  lemma SolveSolves(t: Transform, x: real, y: real)
    requires Determinant(t) != 0.0
    ensures var s := Solve(t, x, y);
            s.x * t.m00 + s.y * t.m01 == x && s.x * t.m10 + s.y * t.m11 == y
  {
    var det := Determinant(t);
    var a := x * t.m11 - y * t.m01;
    var b := y * t.m00 - x * t.m10;
    assert a * t.m00 + b * t.m01 == x * det;
    assert a * t.m10 + b * t.m11 == y * det;
    assert (a / det) * t.m00 + (b / det) * t.m01 == (a * t.m00 + b * t.m01) / det;
    assert (a / det) * t.m10 + (b / det) * t.m11 == (a * t.m10 + b * t.m11) / det;
  }

  /** The coefficients `getInverse` builds describe the inverse map: applying
      them after the transform, or before it, is the identity. */
  lemma InverseRoundTrip(t: Transform, p: Point)
    requires Invertible(t)
    ensures Inverse(t).Ok?
    ensures Apply(Inverse(t).value, Apply(t, p)) == p
    ensures Apply(t, Apply(Inverse(t).value, p)) == p
  {
    var det := Determinant(t);
    var i := Inverse(t).value;
    InverseApplyRoundTrip(t, p);
    InverseMatchesInverseApply(t, Apply(t, p));
    InverseMatchesInverseApply(t, p);
  }

  /** `getInverse().transform(p)` equals `inverseTransform(p)`. */
  lemma InverseMatchesInverseApply(t: Transform, p: Point)
    requires Invertible(t)
    ensures Inverse(t).Ok? && InverseApply(t, p).Ok?
    ensures Apply(Inverse(t).value, p) == InverseApply(t, p).value
  {
    var det := Determinant(t);
    var i := Inverse(t).value;
    InverseCoefficients(t.m00, t.m01, t.m02, t.m10, t.m11, t.m12, p.x, p.y, det);
    assert Apply(i, p).x == Solve(t, p.x - t.m02, p.y - t.m12).x;
    assert Apply(i, p).y == Solve(t, p.x - t.m02, p.y - t.m12).y;
  }

  /** The algebra behind the inverse's coefficients: each coordinate of the
      inverse map is Cramer's rule applied to the translated point. */
  lemma InverseCoefficients(m00: real, m01: real, m02: real, m10: real, m11: real, m12: real,
                            px: real, py: real, det: real)
    requires det != 0.0
    ensures px * (m11 / det) + py * (-m01 / det) + (m01 * m12 - m11 * m02) / det
            == ((px - m02) * m11 - (py - m12) * m01) / det
    ensures px * (-m10 / det) + py * (m00 / det) + (m10 * m02 - m00 * m12) / det
            == ((py - m12) * m00 - (px - m02) * m10) / det
  {
    assert px * (m11 / det) + py * (-m01 / det) + (m01 * m12 - m11 * m02) / det
           == (px * m11 - py * m01 + (m01 * m12 - m11 * m02)) / det;
    assert px * (-m10 / det) + py * (m00 / det) + (m10 * m02 - m00 * m12) / det
           == (py * m00 - px * m10 + (m10 * m02 - m00 * m12)) / det;
  }

  lemma CancelDet(a: real, det: real)
    requires det != 0.0
    ensures (a * det) / det == a
  {
  }

  /** Twice the signed area of the triangle (p0, p1, p2): the quantity whose
      reciprocal the triangle constructor calls the discriminant. */
  function Orientation(s: Triple): real
  {
    s[2].x * (s[0].y - s[1].y) + s[0].x * (s[1].y - s[2].y) + s[1].x * (s[2].y - s[0].y)
  }

  /** The coefficient of a map sending the source x's and y's to values d. */
  function RowX(s: Triple, d0: real, d1: real, d2: real, inv: real): real
  {
    (d0 * (s[1].y - s[2].y) + d1 * (s[2].y - s[0].y) + d2 * (s[0].y - s[1].y)) * inv
  }

  function RowY(s: Triple, d0: real, d1: real, d2: real, inv: real): real
  {
    (d0 * (s[2].x - s[1].x) + d1 * (s[0].x - s[2].x) + d2 * (s[1].x - s[0].x)) * inv
  }

  function RowC(s: Triple, d0: real, d1: real, d2: real, inv: real): real
  {
    (d0 * (s[1].x * s[2].y - s[2].x * s[1].y) + d1 * (s[2].x * s[0].y - s[0].x * s[2].y)
     + d2 * (s[0].x * s[1].y - s[1].x * s[0].y)) * inv
  }

  /** The triangle constructor: the map sending source vertex i to target
      vertex getPoint_i(pMap). It throws when the reciprocal of the source
      orientation is within ZERO of 0, which happens for a huge orientation,
      not a small one; a degenerate source (orientation 0) divides by zero. */
  function FromTriangles(source: Triple, target: Triple, pMap: PointMap): (r: Result<Transform>)
    requires pMap != P000
    ensures Orientation(source) == 0.0 ==> r == Err(Undefined)
    ensures Orientation(source) != 0.0 ==> (r.Err? <==> Abs(1.0 / Orientation(source)) < ZERO)
    ensures r.Err? ==> r.error in {Undefined, NotInvertible}
  {
    GettersArePermutations(pMap, pMap);
    var d := [target[GetPoint0(pMap)], target[GetPoint1(pMap)], target[GetPoint2(pMap)]];
    var o := Orientation(source);
    if o == 0.0 then Err(Undefined)
    else
      var inv := 1.0 / o;
      if Abs(inv) < ZERO then Err(NotInvertible)
      else
        Ok(Transform(RowX(source, d[0].x, d[1].x, d[2].x, inv), RowY(source, d[0].x, d[1].x, d[2].x, inv),
                     RowC(source, d[0].x, d[1].x, d[2].x, inv),
                     RowX(source, d[0].y, d[1].y, d[2].y, inv), RowY(source, d[0].y, d[1].y, d[2].y, inv),
                     RowC(source, d[0].y, d[1].y, d[2].y, inv)))
  }

  /** The constructed map sends each source vertex i onto target vertex
      getPoint_i(pMap). */
  lemma FromTrianglesMapsVertices(source: Triple, target: Triple, pMap: PointMap)
    requires pMap != P000
    requires FromTriangles(source, target, pMap).Ok?
    ensures var t := FromTriangles(source, target, pMap).value;
            Apply(t, source[0]) == target[GetPoint0(pMap)]
            && Apply(t, source[1]) == target[GetPoint1(pMap)]
            && Apply(t, source[2]) == target[GetPoint2(pMap)]
  {
    GettersArePermutations(pMap, pMap);
    var d := [target[GetPoint0(pMap)], target[GetPoint1(pMap)], target[GetPoint2(pMap)]];
    var t := FromTriangles(source, target, pMap).value;
    MapsVertex(source, d, t, 0);
    MapsVertex(source, d, t, 1);
    MapsVertex(source, d, t, 2);
  }

  /** The map built from rows for target values d sends vertex i to d[i]. */
  lemma MapsVertex(s: Triple, d: Triple, t: Transform, i: nat)
    requires Orientation(s) != 0.0 && i < 3
    requires var inv := 1.0 / Orientation(s);
             t == Transform(RowX(s, d[0].x, d[1].x, d[2].x, inv), RowY(s, d[0].x, d[1].x, d[2].x, inv),
                            RowC(s, d[0].x, d[1].x, d[2].x, inv),
                            RowX(s, d[0].y, d[1].y, d[2].y, inv), RowY(s, d[0].y, d[1].y, d[2].y, inv),
                            RowC(s, d[0].y, d[1].y, d[2].y, inv))
    ensures Apply(t, s[i]) == d[i]
  {
    Interpolates(s, d[0].x, d[1].x, d[2].x, i);
    Interpolates(s, d[0].y, d[1].y, d[2].y, i);
  }

  /** The three rows interpolate: at source vertex i they give d_i. */
  lemma Interpolates(s: Triple, d0: real, d1: real, d2: real, i: nat)
    requires Orientation(s) != 0.0 && i < 3
    ensures s[i].x * RowX(s, d0, d1, d2, 1.0 / Orientation(s)) + s[i].y * RowY(s, d0, d1, d2, 1.0 / Orientation(s))
            + RowC(s, d0, d1, d2, 1.0 / Orientation(s)) == [d0, d1, d2][i]
  {
    var o := Orientation(s);
    var inv := 1.0 / o;
    var a := d0 * (s[1].y - s[2].y) + d1 * (s[2].y - s[0].y) + d2 * (s[0].y - s[1].y);
    var b := d0 * (s[2].x - s[1].x) + d1 * (s[0].x - s[2].x) + d2 * (s[1].x - s[0].x);
    var c := d0 * (s[1].x * s[2].y - s[2].x * s[1].y) + d1 * (s[2].x * s[0].y - s[0].x * s[2].y)
             + d2 * (s[0].x * s[1].y - s[1].x * s[0].y);
    var di := [d0, d1, d2][i];
    PolynomialInterpolates(s[0].x, s[0].y, s[1].x, s[1].y, s[2].x, s[2].y, d0, d1, d2);
    assert s[i].x * a + s[i].y * b + c == di * o;
    Rescale(s[i].x, s[i].y, a, b, c, inv);
    CancelDet(di, o);
    assert (di * o) * inv == (di * o) / o;
  }

  /** Without the division: at vertex i the rows give d_i times the orientation. */
  lemma PolynomialInterpolates(x0: real, y0: real, x1: real, y1: real, x2: real, y2: real,
                               d0: real, d1: real, d2: real)
    ensures var o := x2 * (y0 - y1) + x0 * (y1 - y2) + x1 * (y2 - y0);
            var a := d0 * (y1 - y2) + d1 * (y2 - y0) + d2 * (y0 - y1);
            var b := d0 * (x2 - x1) + d1 * (x0 - x2) + d2 * (x1 - x0);
            var c := d0 * (x1 * y2 - x2 * y1) + d1 * (x2 * y0 - x0 * y2) + d2 * (x0 * y1 - x1 * y0);
            x0 * a + y0 * b + c == d0 * o && x1 * a + y1 * b + c == d1 * o && x2 * a + y2 * b + c == d2 * o
  {
  }

  lemma Rescale(x: real, y: real, a: real, b: real, c: real, inv: real)
    ensures x * (a * inv) + y * (b * inv) + c * inv == (x * a + y * b + c) * inv
  {
  }
}
