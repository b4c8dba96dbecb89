/** The image side of the encoder (doubleimage.cpp): the unit square's
    corners, sampling a triangle together with its image under an affine map,
    the least-squares fit of one sample list to the other, and the search for
    the best-fitting source triangle. Pixel values are reached through a
    `valueAt` parameter; the float-stepped sampling grid is a parameter too. */
module DoubleImage {
  import opened Wrappers
  import opened MathUtils
  import opened Point2D
  import opened TriFit
  import opened Affine
  import opened Rectangle
  import Triangle

  // ------------------------------------------------------------ corners

  /** `getCorners`: the corners of the unit square, counter-clockwise from
      the origin. */
  function GetCorners(): (r: seq<Point>)
    ensures |r| == 4
    ensures forall i :: 0 <= i < 4 ==> r[i].x in {0.0, 1.0} && r[i].y in {0.0, 1.0}
    ensures forall i, j :: 0 <= i < j < 4 ==> r[i] != r[j]
  {
    [Point(0.0, 0.0), Point(1.0, 0.0), Point(1.0, 1.0), Point(0.0, 1.0)]
  }

  /** The two root triangles a tree is built from, (c0, c1, c2) and
      (c0, c3, c2), split the unit square along its diagonal: each has half
      its area and the whole square as its bounding box. */
  lemma CornersSplitSquare()
    ensures var c := GetCorners();
            Triangle.Area([c[0], c[1], c[2]]) == 0.5 && Triangle.Area([c[0], c[3], c[2]]) == 0.5
            && Triangle.BoundingBox([c[0], c[1], c[2]]) == Rect(0.0, 0.0, 1.0, 1.0)
            && Triangle.BoundingBox([c[0], c[3], c[2]]) == Rect(0.0, 0.0, 1.0, 1.0)
  {
    var t0: Triple := [Point(0.0, 0.0), Point(1.0, 0.0), Point(1.0, 1.0)];
    var t1: Triple := [Point(0.0, 0.0), Point(0.0, 1.0), Point(1.0, 1.0)];
    assert Triangle.Cross(t0) == 1.0 && Triangle.Cross(t1) == -1.0;
    assert Triangle.BoundingBox(t0) == Rect(0.0, 0.0, 1.0, 1.0);
    assert Triangle.BoundingBox(t1) == Rect(0.0, 0.0, 1.0, 1.0);
  }

  // ------------------------------------------------------------ sampling

  /** The two lists `getInsideAndCorresponding` fills: values inside the
      smaller triangle and values inside the larger one. */
  datatype Samples = Samples(smaller: seq<real>, larger: seq<real>)

  /** `getInsideAndCorresponding`. `grid` is the sequence of sample points
      inside `larger`, in the order the source's nested loops visit them, and
      `valueAt` reads the image. A null output list is an error; otherwise each
      point's value goes to the larger list and the value at its image under
      the map from `larger` to `smaller` goes to the smaller list, always
      together. */
  method InsideAndCorresponding(smaller: Triple, larger: Triple, pMap: PointMap, grid: seq<Point>,
                                valueAt: Point -> real,
                                smallerOut: Option<seq<real>>, largerOut: Option<seq<real>>)
    returns (r: Result<Samples>)
    requires pMap != P000
    ensures smallerOut.None? || largerOut.None? ==> r == Err(NullList)
    ensures smallerOut.Some? && largerOut.Some? ==>
              (r.Err? <==> FromTriangles(larger, smaller, pMap).Err?)
              && (r.Err? ==> r.error == FromTriangles(larger, smaller, pMap).error)
    ensures r.Ok? ==>
              smallerOut.Some? && largerOut.Some? && FromTriangles(larger, smaller, pMap).Ok?
              && |r.value.larger| == |largerOut.value| + |grid|
              && |r.value.smaller| == |smallerOut.value| + |grid|
              && r.value.larger[..|largerOut.value|] == largerOut.value
              && r.value.smaller[..|smallerOut.value|] == smallerOut.value
              && (forall k :: 0 <= k < |grid| ==>
                    r.value.larger[|largerOut.value| + k] == valueAt(grid[k])
                    && r.value.smaller[|smallerOut.value| + k]
                       == valueAt(Apply(FromTriangles(larger, smaller, pMap).value, grid[k])))
  {
    if largerOut.None? || smallerOut.None? {
      return Err(NullList);
    }
    var trans := FromTriangles(larger, smaller, pMap);
    if trans.Err? {
      return Err(trans.error);
    }
    var t := trans.value;
    var ls := largerOut.value;
    var ss := smallerOut.value;
    var i := 0;
    while i < |grid|
      invariant 0 <= i <= |grid|
      invariant |ls| == |largerOut.value| + i && |ss| == |smallerOut.value| + i
      invariant ls[..|largerOut.value|] == largerOut.value
      invariant ss[..|smallerOut.value|] == smallerOut.value
      invariant forall k :: 0 <= k < i ==>
                  ls[|largerOut.value| + k] == valueAt(grid[k])
                  && ss[|smallerOut.value| + k] == valueAt(Apply(t, grid[k]))
    {
      ls := ls + [valueAt(grid[i])];
      ss := ss + [valueAt(Apply(t, grid[i]))];
      i := i + 1;
    }
    return Ok(Samples(ss, ls));
  }

  // ------------------------------------------------------------ least squares

  /** The three-field fit record doubleimage.cpp builds: contrast, brightness
      and error. */
  datatype Coefficients = Coefficients(saturation: real, brightness: real, error: real)

  /** The sums both closed forms are built from: the count, Σx, Σy, Σx², Σy²
      and Σxy over paired samples x (domain) and y (range). */
  datatype Sums = Sums(n: real, d: real, r: real, dd: real, rr: real, p: real)

  function SumsOf(domain: seq<real>, range: seq<real>): Sums
  {
    Sums(|domain| as real, Sum(domain), Sum(range), SumSquares(domain), SumSquares(range),
         DotProduct(domain, range))
  }

  /** The sums after one more sample pair. */
  function AddSample(z: Sums, x: real, y: real): Sums
  {
    Sums(z.n + 1.0, z.d + x, z.r + y, z.dd + Square(x), z.rr + Square(y), z.p + x * y)
  }

  lemma SumsStep(xs: seq<real>, ys: seq<real>)
    requires |xs| == |ys| > 0
    ensures SumsOf(xs, ys) == AddSample(SumsOf(xs[..|xs| - 1], ys[..|ys| - 1]), xs[|xs| - 1], ys[|ys| - 1])
  {
  }

  /** `getOptimalFit`'s formulas as written: the count enters squared
      wherever the least-squares solution has it once. A zero denominator is a
      NaN or an infinity in the source. */
  function OptimalFitAsWritten(domain: seq<real>, range: seq<real>): (r: Result<Coefficients>)
    ensures |domain| != |range| ==> r == Err(SizeMismatch)
    ensures |domain| == |range| ==>
              (r.Err? <==> |domain| == 0 || var z := SumsOf(domain, range); z.n * z.n * z.dd == z.d * z.d)
  {
    if |domain| != |range| then Err(SizeMismatch) else FitAsWrittenOf(SumsOf(domain, range))
  }

  function FitAsWrittenOf(z: Sums): (r: Result<Coefficients>)
    ensures r.Err? <==> z.n == 0.0 || z.n * z.n * z.dd == z.d * z.d
  {
    var den := z.n * z.n * z.dd - z.d * z.d;
    if den == 0.0 || z.n == 0.0 then Err(Undefined)
    else
      var s := (z.n * z.n * z.p - z.d * z.r) / den;
      var o := (z.r - s * z.d) / (z.n * z.n);
      Ok(Coefficients(s, o, z.rr + s * (s * z.dd - 2.0 * z.p + 2.0 * o * z.d) + o * (o * z.n * z.n - 2.0 * z.r)))
  }

  /** n·Σx² − (Σx)²: zero exactly when the least-squares line is undetermined. */
  function Spread(xs: seq<real>): real
  {
    (|xs| as real) * SumSquares(xs) - Sum(xs) * Sum(xs)
  }

  /** The least-squares fit the formulas evidently intend: the contrast `s`
      and brightness `o` minimising Σ(s·x + o − y)², and that minimum. */
  function OptimalFit(domain: seq<real>, range: seq<real>): (r: Result<Coefficients>)
    ensures |domain| != |range| ==> r == Err(SizeMismatch)
    ensures |domain| == |range| ==> (r.Err? <==> Spread(domain) == 0.0)
    ensures r.Err? ==> r.error in {SizeMismatch, Undefined}
  {
    if |domain| != |range| then Err(SizeMismatch)
    else
      SpreadIsDenominator(domain, range);
      FitOf(SumsOf(domain, range))
  }

  /** The closed forms are undefined exactly when the domain has no spread. */
  lemma SpreadIsDenominator(domain: seq<real>, range: seq<real>)
    ensures var z := SumsOf(domain, range);
            z.n == 0.0 || Denominator(z) == 0.0 <==> Spread(domain) == 0.0
  {
    var z := SumsOf(domain, range);
    assert Denominator(z) == Spread(domain);
    if z.n == 0.0 {
      assert domain == [];
    }
  }

  /** n·Σx² − (Σx)², the closed forms' denominator. */
  function Denominator(z: Sums): real
  {
    z.n * z.dd - z.d * z.d
  }

  /** The closed forms on the sums. */
  function FitOf(z: Sums): (r: Result<Coefficients>)
    ensures r.Err? <==> z.n == 0.0 || Denominator(z) == 0.0
    ensures r.Err? ==> r.error == Undefined
  {
    if z.n == 0.0 || Denominator(z) == 0.0 then Err(Undefined)
    else
      var s := (z.n * z.p - z.d * z.r) / Denominator(z);
      var o := (z.r - s * z.d) / z.n;
      Ok(Coefficients(s, o, z.rr + s * (s * z.dd - 2.0 * z.p + 2.0 * o * z.d) + o * (o * z.n - 2.0 * z.r)))
  }

  /** The line y = s·x + o. */
  function Line(s: real, o: real, x: real): real
  {
    s * x + o
  }

  /** The residuals of a line over paired samples. */
  function Residuals(xs: seq<real>, ys: seq<real>, s: real, o: real): (r: seq<real>)
    requires |xs| == |ys|
    ensures |r| == |xs|
  {
    seq(|xs|, i requires 0 <= i < |xs| => Line(s, o, xs[i]) - ys[i])
  }

  /** The squared residual error of the line (s, o) as a polynomial in the sums. */
  function Quadratic(z: Sums, s: real, o: real): real
  {
    s * s * z.dd + 2.0 * s * o * z.d + o * o * z.n - 2.0 * s * z.p - 2.0 * o * z.r + z.rr
  }

  /** The homogeneous part a²·Σx² + 2ab·Σx + b²·n of the quadratic. */
  function Form(z: Sums, a: real, b: real): real
  {
    a * a * z.dd + 2.0 * a * b * z.d + b * b * z.n
  }

  lemma QuadraticStep(z: Sums, s: real, o: real, x: real, y: real)
    ensures Quadratic(AddSample(z, x, y), s, o) == Quadratic(z, s, o) + Square(Line(s, o, x) - y)
  {
    StepPolynomial(z.n, z.d, z.r, z.dd, z.rr, z.p, s, o, x, y);
  }

  lemma StepPolynomial(n: real, d: real, r: real, dd: real, rr: real, p: real, s: real, o: real, x: real, y: real)
    ensures s * s * (dd + x * x) + 2.0 * s * o * (d + x) + o * o * (n + 1.0) - 2.0 * s * (p + x * y)
            - 2.0 * o * (r + y) + (rr + y * y)
            == (s * s * dd + 2.0 * s * o * d + o * o * n - 2.0 * s * p - 2.0 * o * r + rr)
               + (s * x + o - y) * (s * x + o - y)
  {
  }

  lemma FormStep(z: Sums, a: real, b: real, x: real, y: real)
    ensures Form(AddSample(z, x, y), a, b) == Form(z, a, b) + Square(a * x + b)
  {
    assert Square(a * x + b) == a * a * (x * x) + 2.0 * a * b * x + b * b;
  }

  /** The sum of squared residuals is the quadratic in the sums. */
  lemma {:induction false} ResidualExpansion(xs: seq<real>, ys: seq<real>, s: real, o: real)
    requires |xs| == |ys|
    ensures SumSquares(Residuals(xs, ys, s, o)) == Quadratic(SumsOf(xs, ys), s, o)
    decreases |xs|
  {
    if |xs| > 0 {
      var m := |xs| - 1;
      var xs', ys' := xs[..m], ys[..m];
      var res := Residuals(xs, ys, s, o);
      ResidualExpansion(xs', ys', s, o);
      assert res[..m] == Residuals(xs', ys', s, o);
      assert SumSquares(res) == SumSquares(res[..m]) + Square(Line(s, o, xs[m]) - ys[m]);
      SumsStep(xs, ys);
      QuadraticStep(SumsOf(xs', ys'), s, o, xs[m], ys[m]);
    }
  }

  /** The homogeneous part is a sum of squares, Σ(a·x + b)². */
  lemma {:induction false} FormNonNegative(xs: seq<real>, ys: seq<real>, a: real, b: real)
    requires |xs| == |ys|
    ensures Form(SumsOf(xs, ys), a, b) >= 0.0
    decreases |xs|
  {
    if |xs| > 0 {
      var m := |xs| - 1;
      FormNonNegative(xs[..m], ys[..m], a, b);
      SumsStep(xs, ys);
      FormStep(SumsOf(xs[..m], ys[..m]), a, b, xs[m], ys[m]);
    }
  }

  /** The closed-form error is the quadratic at the fitted line. */
  lemma ErrorIsQuadratic(z: Sums, s: real, o: real)
    ensures z.rr + s * (s * z.dd - 2.0 * z.p + 2.0 * o * z.d) + o * (o * z.n - 2.0 * z.r) == Quadratic(z, s, o)
  {
  }

  /** The normal equations s·Σx² + o·Σx = Σxy and s·Σx + o·n = Σy, which
      characterise the least-squares line. */
  predicate Normal(z: Sums, s: real, o: real)
  {
    s * z.dd + o * z.d == z.p && s * z.d + o * z.n == z.r
  }

  lemma SolvesNormalEquations(z: Sums, s: real, o: real)
    requires z.n != 0.0 && Denominator(z) != 0.0
    requires s == (z.n * z.p - z.d * z.r) / Denominator(z)
    requires o == (z.r - s * z.d) / z.n
    ensures Normal(z, s, o)
  {
    var den := Denominator(z);
    assert s * den == z.n * z.p - z.d * z.r;
    assert o * z.n == z.r - s * z.d;
    assert z.n * (s * z.dd + o * z.d) == s * den + z.d * (o * z.n + s * z.d);
    assert z.n * (s * z.dd + o * z.d) == z.n * z.p;
  }

  /** The closed forms solve the normal equations, and their error is the
      quadratic at the solution. */
  lemma FitOfSolves(z: Sums)
    requires FitOf(z).Ok?
    ensures var c := FitOf(z).value;
            Normal(z, c.saturation, c.brightness) && c.error == Quadratic(z, c.saturation, c.brightness)
  {
    var c := FitOf(z).value;
    SolvesNormalEquations(z, c.saturation, c.brightness);
    ErrorIsQuadratic(z, c.saturation, c.brightness);
  }

  /** The fit's error is the sum of squared residuals of its own line, so it
      is never negative. */
  lemma OptimalFitIsResidual(domain: seq<real>, range: seq<real>)
    requires OptimalFit(domain, range).Ok?
    ensures var c := OptimalFit(domain, range).value;
            c.error == SumSquares(Residuals(domain, range, c.saturation, c.brightness))
            && c.error >= 0.0
  {
    var c := OptimalFit(domain, range).value;
    FitOfSolves(SumsOf(domain, range));
    ResidualExpansion(domain, range, c.saturation, c.brightness);
  }

  /** Away from a solution of the normal equations the quadratic grows by
      the homogeneous part. */
  lemma QuadraticGap(z: Sums, s0: real, o0: real, s: real, o: real)
    requires Normal(z, s0, o0)
    ensures Quadratic(z, s, o) == Quadratic(z, s0, o0) + Form(z, s - s0, o - o0)
  {
    var ds, dO := s - s0, o - o0;
    assert 2.0 * ds * z.p == 2.0 * ds * s0 * z.dd + 2.0 * ds * o0 * z.d;
    assert 2.0 * dO * z.r == 2.0 * dO * s0 * z.d + 2.0 * dO * o0 * z.n;
  }

  /** The fitted line minimises the squared residual error over all lines. */
  lemma OptimalFitMinimises(domain: seq<real>, range: seq<real>, s: real, o: real)
    requires OptimalFit(domain, range).Ok?
    ensures SumSquares(Residuals(domain, range, s, o)) >= OptimalFit(domain, range).value.error
  {
    var c := OptimalFit(domain, range).value;
    var z := SumsOf(domain, range);
    FitOfSolves(z);
    ResidualExpansion(domain, range, s, o);
    QuadraticGap(z, c.saturation, c.brightness, s, o);
    FormNonNegative(domain, range, s - c.saturation, o - c.brightness);
  }

  /** Σy and Σxy are those of samples on the line y = k·x + c. */
  predicate OnLine(z: Sums, k: real, c: real)
  {
    z.r == k * z.d + c * z.n && z.p == k * z.dd + c * z.d
  }

  lemma LineSumsStep(z: Sums, x: real, k: real, c: real)
    requires OnLine(z, k, c)
    ensures OnLine(AddSample(z, x, Line(k, c, x)), k, c)
  {
    assert x * Line(k, c, x) == k * Square(x) + c * x;
  }

  /** On samples lying on a line, Σy and Σxy follow from the domain's sums. */
  lemma {:induction false} LineSums(xs: seq<real>, ys: seq<real>, k: real, c: real)
    requires |xs| == |ys|
    requires forall i :: 0 <= i < |xs| ==> ys[i] == Line(k, c, xs[i])
    ensures OnLine(SumsOf(xs, ys), k, c)
    decreases |xs|
  {
    if |xs| > 0 {
      var m := |xs| - 1;
      var z' := SumsOf(xs[..m], ys[..m]);
      LineSums(xs[..m], ys[..m], k, c);
      SumsStep(xs, ys);
      assert ys[m] == Line(k, c, xs[m]);
      LineSumsStep(z', xs[m], k, c);
    } else {
      assert SumsOf(xs, ys) == Sums(0.0, 0.0, 0.0, 0.0, 0.0, 0.0);
    }
  }

  lemma SolvesLine(z: Sums, k: real, c: real)
    requires z.n != 0.0 && Denominator(z) != 0.0 && OnLine(z, k, c)
    ensures FitOf(z).Ok? && FitOf(z).value.saturation == k && FitOf(z).value.brightness == c
  {
    assert z.n * z.p - z.d * z.r == k * Denominator(z);
  }

  lemma {:induction false} ZeroSquares(n: nat)
    ensures SumSquares(seq(n, i => 0.0)) == 0.0
  {
    if n > 0 {
      ZeroSquares(n - 1);
      assert seq(n, i => 0.0)[..n - 1] == seq(n - 1, i => 0.0);
    }
  }

  /** Samples lying exactly on a line y = k·x + c, with the domain not all
      equal, are fitted by that very line with no error. */
  lemma OptimalFitRecoversLine(xs: seq<real>, ys: seq<real>, k: real, c: real)
    requires |xs| == |ys| && Spread(xs) != 0.0
    requires forall i :: 0 <= i < |xs| ==> ys[i] == Line(k, c, xs[i])
    ensures OptimalFit(xs, ys) == Ok(Coefficients(k, c, 0.0))
  {
    var z := SumsOf(xs, ys);
    LineSums(xs, ys, k, c);
    SolvesLine(z, k, c);
    OptimalFitIsResidual(xs, ys);
    assert Residuals(xs, ys, k, c) == seq(|xs|, i => 0.0);
    ZeroSquares(|xs|);
  }

  /** The formulas as written miss the line y = x + 1 through (0, 1) and
      (1, 2): they give contrast 5/3 and brightness 1/3, where the intended
      fit is contrast 1, brightness 1 and no error. */
  lemma OptimalFitAsWrittenMissesLine()
    ensures OptimalFitAsWritten([0.0, 1.0], [1.0, 2.0]) == Ok(Coefficients(5.0 / 3.0, 1.0 / 3.0, 2.0 / 3.0))
    ensures OptimalFit([0.0, 1.0], [1.0, 2.0]) == Ok(Coefficients(1.0, 1.0, 0.0))
  {
    var z := Sums(2.0, 1.0, 3.0, 1.0, 5.0, 2.0);
    ExampleSums();
    assert FitAsWrittenOf(z) == Ok(Coefficients(5.0 / 3.0, 1.0 / 3.0, 2.0 / 3.0));
    assert FitOf(z) == Ok(Coefficients(1.0, 1.0, 0.0));
  }

  lemma ExampleSums()
    ensures SumsOf([0.0, 1.0], [1.0, 2.0]) == Sums(2.0, 1.0, 3.0, 1.0, 5.0, 2.0)
  {
    var xs, ys := [0.0, 1.0], [1.0, 2.0];
    assert xs[..1] == [0.0] && ys[..1] == [1.0];
    assert [0.0][..0] == [] && [1.0][..0] == [];
    assert Sum(xs) == 1.0 && Sum(ys) == 3.0;
    assert SumSquares(xs) == 1.0 && SumSquares(ys) == 5.0;
    assert DotProduct(xs, ys) == 2.0;
  }

  /** `getOptimalFit`: sample both triangles together, then fit the smaller
      triangle's values to the larger one's. Because sampling fills both lists
      in lockstep, the size check never fires. */
  method GetOptimalFit(smaller: Triple, larger: Triple, pMap: PointMap, grid: seq<Point>,
                       valueAt: Point -> real)
    returns (r: Result<Coefficients>)
    requires pMap != P000
    ensures r.Err? ==> r.error != SizeMismatch
    ensures FromTriangles(larger, smaller, pMap).Err? ==> r == Err(FromTriangles(larger, smaller, pMap).error)
    ensures FromTriangles(larger, smaller, pMap).Ok? ==>
              var t := FromTriangles(larger, smaller, pMap).value;
              r == OptimalFit(seq(|grid|, k requires 0 <= k < |grid| => valueAt(grid[k])),
                              seq(|grid|, k requires 0 <= k < |grid| => valueAt(Apply(t, grid[k]))))
  {
    var samples := InsideAndCorresponding(smaller, larger, pMap, grid, valueAt, Some([]), Some([]));
    if samples.Err? {
      return Err(samples.error);
    }
    var target, range := samples.value.larger, samples.value.smaller;
    var t := FromTriangles(larger, smaller, pMap).value;
    assert target == seq(|grid|, k requires 0 <= k < |grid| => valueAt(grid[k]));
    assert range == seq(|grid|, k requires 0 <= k < |grid| => valueAt(Apply(t, grid[k])));
    if |target| != |range| {
      return Err(SizeMismatch);
    }
    r := OptimalFit(target, range);
  }

  // ------------------------------------------------------------ best match

  /** One (candidate, map) pair tried by `getBestMatch`; candidates are
      triangle handles. */
  datatype Try = Try(cand: nat, pMap: PointMap)

  /** The search state: the best candidate so far, its fit and its map. */
  datatype Choice = Choice(best: Option<nat>, optimal: Coefficients, pMap: PointMap)

  /** The six real maps in code order, tried for one candidate. */
  function MapsOf(c: nat): (r: seq<Try>)
    ensures |r| == NUM_MAPS
  {
    seq(NUM_MAPS, i requires 0 <= i < NUM_MAPS => Try(c, PointMapFromInt(i)))
  }

  /** The pairs tried, in order: every map of every candidate whose area is
      at most `maxArea`. */
  function Tried(cands: seq<nat>, area: nat -> real, maxArea: real): seq<Try>
  {
    if |cands| == 0 then []
    else
      var c := cands[|cands| - 1];
      Tried(cands[..|cands| - 1], area, maxArea) + (if area(c) > maxArea then [] else MapsOf(c))
  }

  /** A fit replaces the current one iff its error is smaller or the current
      error is negative (no fit yet). */
  predicate Better(f: Coefficients, current: Coefficients)
  {
    f.error < current.error || current.error < 0.0
  }

  function Consider(ch: Choice, t: Try, fit: (nat, PointMap) -> Coefficients): Choice
  {
    var f := fit(t.cand, t.pMap);
    if Better(f, ch.optimal) then Choice(Some(t.cand), f, t.pMap) else ch
  }

  /** The search over a sequence of pairs, as a fold from the front. */
  function Pick(tries: seq<Try>, fit: (nat, PointMap) -> Coefficients, init: Choice): Choice
  {
    if |tries| == 0 then init
    else Consider(Pick(tries[..|tries| - 1], fit, init), tries[|tries| - 1], fit)
  }

  lemma TriedStep(cands: seq<nat>, i: nat, area: nat -> real, maxArea: real)
    requires i < |cands|
    ensures Tried(cands[..i + 1], area, maxArea)
            == Tried(cands[..i], area, maxArea) + (if area(cands[i]) > maxArea then [] else MapsOf(cands[i]))
  {
    assert cands[..i + 1][..i] == cands[..i];
  }

  lemma PickStep(tries: seq<Try>, t: Try, fit: (nat, PointMap) -> Coefficients, init: Choice)
    ensures Pick(tries + [t], fit, init) == Consider(Pick(tries, fit, init), t, fit)
  {
    assert (tries + [t])[..|tries|] == tries;
  }

  lemma MapsPrefix(done: seq<Try>, c: nat, j: nat)
    requires j < NUM_MAPS
    ensures done + MapsOf(c)[..j + 1] == (done + MapsOf(c)[..j]) + [Try(c, PointMapFromInt(j))]
  {
    assert MapsOf(c)[..j + 1] == MapsOf(c)[..j] + [MapsOf(c)[j]];
  }

  /** `getBestMatch`. `optimal0` and `map0` are what the caller's output
      parameters held; only the error of the fit is reset, to -1, and the map
      is left alone until a candidate is chosen. */
  method BestMatch(smallerArea: real, cands: seq<nat>, area: nat -> real,
                   fit: (nat, PointMap) -> Coefficients, optimal0: Coefficients, map0: PointMap)
    returns (best: Option<nat>, optimal: Coefficients, pMap: PointMap)
    ensures Choice(best, optimal, pMap)
            == Pick(Tried(cands, area, 4.0 * smallerArea), fit, Choice(None, optimal0.(error := -1.0), map0))
  {
    best, optimal, pMap := None, optimal0.(error := -1.0), map0;
    var maxArea := 4.0 * smallerArea;
    ghost var init := Choice(None, optimal0.(error := -1.0), map0);
    var i := 0;
    while i < |cands|
      invariant 0 <= i <= |cands|
      invariant Choice(best, optimal, pMap) == Pick(Tried(cands[..i], area, maxArea), fit, init)
    {
      var c := cands[i];
      TriedStep(cands, i, area, maxArea);
      if area(c) > maxArea {
        assert Tried(cands[..i], area, maxArea) + [] == Tried(cands[..i], area, maxArea);
        i := i + 1;
        continue;
      }
      ghost var done := Tried(cands[..i], area, maxArea);
      assert done + MapsOf(c)[..0] == done;
      var j := 0;
      while j < NUM_MAPS
        invariant 0 <= j <= NUM_MAPS
        invariant Choice(best, optimal, pMap) == Pick(done + MapsOf(c)[..j], fit, init)
      {
        var m := PointMapFromInt(j);
        var f := fit(c, m);
        MapsPrefix(done, c, j);
        PickStep(done + MapsOf(c)[..j], Try(c, m), fit, init);
        if f.error < optimal.error || optimal.error < 0.0 {
          optimal := f;
          best := Some(c);
          pMap := m;
        }
        j := j + 1;
      }
      assert MapsOf(c)[..NUM_MAPS] == MapsOf(c);
      assert Tried(cands[..i + 1], area, maxArea) == done + MapsOf(c);
      i := i + 1;
    }
    assert cands[..|cands|] == cands;
  }

  /** Pair (c, m) is tried iff c is one of the candidates, its area is within
      the bound, and m is one of the six real maps. */
  lemma {:induction false} TriedMembers(cands: seq<nat>, area: nat -> real, maxArea: real, t: Try)
    ensures t in Tried(cands, area, maxArea) <==> t.cand in cands && area(t.cand) <= maxArea && t.pMap != P000
    decreases |cands|
  {
    if |cands| > 0 {
      var c := cands[|cands| - 1];
      TriedMembers(cands[..|cands| - 1], area, maxArea, t);
      assert cands == cands[..|cands| - 1] + [c];
      if t.cand == c && area(c) <= maxArea && t.pMap != P000 {
        var k: nat := PointMapToInt(t.pMap) as nat;
        PointMapCodec(t.pMap, 0);
        assert MapsOf(c)[k] == t;
      }
    }
  }

  /** Starting from "no fit yet", the search ends with no candidate exactly
      when there was nothing to try, and then with the initial state. Any
      chosen candidate comes from a tried pair whose fit is the recorded one. */
  lemma {:induction false} PickChoosesTried(tries: seq<Try>, fit: (nat, PointMap) -> Coefficients, init: Choice)
    requires init.best.None? && init.optimal.error < 0.0
    ensures var ch := Pick(tries, fit, init);
            (ch.best.None? <==> |tries| == 0)
            && (ch.best.None? ==> ch == init)
            && (ch.best.Some? ==>
                  ch.optimal == fit(ch.best.value, ch.pMap)
                  && exists j :: 0 <= j < |tries| && tries[j] == Try(ch.best.value, ch.pMap))
    decreases |tries|
  {
    if |tries| > 0 {
      var m := |tries| - 1;
      PickChoosesTried(tries[..m], fit, init);
      var prev := Pick(tries[..m], fit, init);
      var ch := Pick(tries, fit, init);
      if ch != prev {
        assert tries[m] == Try(ch.best.value, ch.pMap);
      } else if m > 0 {
        var j :| 0 <= j < m && tries[..m][j] == Try(ch.best.value, ch.pMap);
        assert tries[j] == tries[..m][j];
      }
    }
  }

  /** The error of the fit of the k-th pair. */
  function ErrorAt(tries: seq<Try>, fit: (nat, PointMap) -> Coefficients, k: nat): real
    requires k < |tries|
  {
    fit(tries[k].cand, tries[k].pMap).error
  }

  /** Pair j is the first to reach the smallest error e: every earlier pair's
      error is strictly larger and no pair's error is smaller. */
  predicate FirstMinimum(tries: seq<Try>, fit: (nat, PointMap) -> Coefficients, j: nat, e: real)
  {
    j < |tries| && ErrorAt(tries, fit, j) == e
    && (forall k :: 0 <= k < j ==> ErrorAt(tries, fit, k) > e)
    && (forall k :: 0 <= k < |tries| ==> ErrorAt(tries, fit, k) >= e)
  }

  /** When no fit has a negative error, the search returns the first pair
      reaching the smallest error. */
  lemma {:induction false} PickFirstMinimum(tries: seq<Try>, fit: (nat, PointMap) -> Coefficients, init: Choice)
    requires init.best.None? && init.optimal.error < 0.0 && |tries| > 0
    requires forall j :: 0 <= j < |tries| ==> ErrorAt(tries, fit, j) >= 0.0
    ensures var ch := Pick(tries, fit, init);
            ch.best.Some?
            && exists j: nat :: j < |tries| && tries[j] == Try(ch.best.value, ch.pMap)
                                && ch.optimal == fit(ch.best.value, ch.pMap)
                                && FirstMinimum(tries, fit, j, ch.optimal.error)
    decreases |tries|
  {
    var m := |tries| - 1;
    var ch := Pick(tries, fit, init);
    var last := fit(tries[m].cand, tries[m].pMap);
    if m == 0 {
      assert Pick(tries[..0], fit, init) == init;
      assert ch == Choice(Some(tries[0].cand), last, tries[0].pMap);
      assert FirstMinimum(tries, fit, 0, ch.optimal.error);
    } else {
      var pre := tries[..m];
      assert forall k :: 0 <= k < m ==> ErrorAt(pre, fit, k) == ErrorAt(tries, fit, k);
      PickFirstMinimum(pre, fit, init);
      var prev := Pick(pre, fit, init);
      var j: nat :| j < m && pre[j] == Try(prev.best.value, prev.pMap)
                    && prev.optimal == fit(prev.best.value, prev.pMap)
                    && FirstMinimum(pre, fit, j, prev.optimal.error);
      assert prev.optimal.error >= 0.0;
      if last.error < prev.optimal.error {
        assert ch == Choice(Some(tries[m].cand), last, tries[m].pMap);
        assert FirstMinimum(tries, fit, m, ch.optimal.error);
      } else {
        assert ch == prev;
        assert tries[j] == pre[j];
        assert FirstMinimum(tries, fit, j, ch.optimal.error);
      }
    }
  }

  /** What `getBestMatch` promises its caller: null with error -1 and the map
      untouched iff every candidate is too large (or there are none);
      otherwise a candidate within the area bound, one of the six real maps,
      and the fit of that very pair. */
  lemma BestMatchOutcome(smallerArea: real, cands: seq<nat>, area: nat -> real,
                         fit: (nat, PointMap) -> Coefficients, optimal0: Coefficients, map0: PointMap)
    ensures var ch := Pick(Tried(cands, area, 4.0 * smallerArea), fit, Choice(None, optimal0.(error := -1.0), map0));
            (ch.best.None? <==> forall c :: c in cands ==> area(c) > 4.0 * smallerArea)
            && (ch.best.None? ==> ch.optimal.error == -1.0 && ch.pMap == map0)
            && (ch.best.Some? ==> ch.best.value in cands && area(ch.best.value) <= 4.0 * smallerArea
                                  && ch.pMap != P000 && ch.optimal == fit(ch.best.value, ch.pMap))
  {
    var tries := Tried(cands, area, 4.0 * smallerArea);
    var init := Choice(None, optimal0.(error := -1.0), map0);
    var ch := Pick(tries, fit, init);
    PickChoosesTried(tries, fit, init);
    if ch.best.Some? {
      var j :| 0 <= j < |tries| && tries[j] == Try(ch.best.value, ch.pMap);
      TriedMembers(cands, area, 4.0 * smallerArea, tries[j]);
    } else {
      forall c | c in cands
        ensures area(c) > 4.0 * smallerArea
      {
        TriedMembers(cands, area, 4.0 * smallerArea, Try(c, P012));
      }
    }
  }
}
