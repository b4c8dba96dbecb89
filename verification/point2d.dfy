/** Points of the plane (src/point2d.cpp). Coordinates are reals; a point is
    a value, so the copy constructor and assignment are plain value copies. */
module Point2D {
  import opened Wrappers
  import opened MathUtils
  import opened IoUtils

  datatype Point = Point(x: real, y: real)

  /** The three vertices of a triangle, in order. */
  type Triple = s: seq<Point> | |s| == 3 witness [Point(0.0, 0.0), Point(0.0, 0.0), Point(0.0, 0.0)]

  /** `distanceSquared`: the squared Euclidean distance. */
  function DistanceSquared(p: Point, q: Point): (r: real)
    ensures r >= 0.0
  {
    Square(q.x - p.x) + Square(q.y - p.y)
  }

  /** `originDistanceSquared`: the squared distance from (0, 0). */
  function OriginDistanceSquared(p: Point): (r: real)
    ensures r >= 0.0
  {
    Square(p.x) + Square(p.y)
  }

  /** `operator==`: both coordinates equal within ZERO. */
  predicate Equal(p: Point, q: Point)
  {
    DoublesEqual(p.x, q.x) && DoublesEqual(p.y, q.y)
  }

  /** `operator<`: nearer to the origin. */
  predicate Less(p: Point, q: Point)
  {
    OriginDistanceSquared(p) < OriginDistanceSquared(q)
  }

  /** The distance is symmetric, zero from a point to itself, and measured
      from the origin it is the origin distance. */
  lemma DistanceSquaredProperties(p: Point, q: Point)
    ensures DistanceSquared(p, q) == DistanceSquared(q, p)
    ensures DistanceSquared(p, p) == 0.0
    ensures DistanceSquared(Point(0.0, 0.0), p) == OriginDistanceSquared(p)
  {
    assert Square(q.x - p.x) == Square(p.x - q.x);
    assert Square(q.y - p.y) == Square(p.y - q.y);
  }

  /** The values the point tests expect: 8 between (0,0) and (2,2), and
      (0,0) is not equal to (2,2). */
  lemma PointTestValues()
    ensures DistanceSquared(Point(0.0, 0.0), Point(2.0, 2.0)) == 8.0
    ensures DistanceSquared(Point(2.0, 2.0), Point(2.0, 2.0)) == 0.0
    ensures !Equal(Point(0.0, 0.0), Point(2.0, 2.0))
    ensures Equal(Point(2.0, 2.0), Point(2.0, 2.0))
  {
  }

  /** `==` is reflexive and symmetric. */
  lemma EqualReflexiveSymmetric(p: Point, q: Point)
    ensures Equal(p, p)
    ensures Equal(p, q) <==> Equal(q, p)
  {
    DoublesEqualReflexiveSymmetric(p.x, q.x);
    DoublesEqualReflexiveSymmetric(p.y, q.y);
  }

  /** `<` is a strict order: irreflexive and transitive, and of two points
      at the same origin distance neither is less. */
  lemma LessStrictOrder(p: Point, q: Point, s: Point)
    ensures !Less(p, p)
    ensures Less(p, q) && Less(q, s) ==> Less(p, s)
    ensures OriginDistanceSquared(p) == OriginDistanceSquared(q) ==> !Less(p, q) && !Less(q, p)
  {
  }

  /** `serialize`: x then y, each as a fraction of [0, 1]. */
  function Serialize(p: Point): (r: Bytes)
    ensures |r| == 8
  {
    EncodeFraction(p.x, 0, 1) + EncodeFraction(p.y, 0, 1)
  }

  /** The stream constructor: x then y, each read as a fraction of [0, 1]. */
  function Parse(b: Bytes): (r: Result<Parsed<Point>>)
    ensures |b| < 8 <==> r.Err?
    ensures r.Ok? ==> r.value.rest == b[8..]
                      && 0.0 <= r.value.value.x <= 1.0 && 0.0 <= r.value.value.y <= 1.0
  {
    var x :- DecodeFraction(b, 0, 1);
    var y :- DecodeFraction(x.rest, 0, 1);
    Ok(Parsed(Point(x.value, y.value), y.rest))
  }

  /** Reading a written point gives each coordinate back, clamped into [0, 1],
      to within half a step of the fraction grid. */
  lemma SerializeRoundTrip(p: Point, rest: Bytes)
    ensures Parse(Serialize(p) + rest).Ok?
    ensures var q := Parse(Serialize(p) + rest).value;
            q.rest == rest
            && Abs(q.value.x - Clamp(p.x, 0, 1)) <= 1.0 / (2.0 * FRACTION_SCALE as real)
            && Abs(q.value.y - Clamp(p.y, 0, 1)) <= 1.0 / (2.0 * FRACTION_SCALE as real)
  {
    var ex := EncodeFraction(p.x, 0, 1);
    var ey := EncodeFraction(p.y, 0, 1);
    assert Serialize(p) + rest == ex + (ey + rest);
    FractionRoundTrip(p.x, 0, 1, ey + rest);
    FractionRoundTrip(p.y, 0, 1, rest);
  }
}
