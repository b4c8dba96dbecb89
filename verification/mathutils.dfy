/** Numeric helpers of the compressor (src/mathutils.h), with `double` read as `real`. */
module MathUtils {
  import opened Wrappers

  /** The tolerance used by every approximate comparison (src/mathutils.h:32). */
  const ZERO: real := 0.0000000001

  function Abs(d: real): (r: real)
    ensures r >= 0.0 && (r == d || r == -d)
  {
    if d < 0.0 then -d else d
  }

  /** C's `round`: to the nearest integer, halves away from zero. */
  function Round(d: real): (r: int)
    ensures d >= 0.0 ==> r as real - 0.5 <= d < r as real + 0.5
    ensures d < 0.0 ==> r as real - 0.5 < d <= r as real + 0.5
    ensures Abs(d - r as real) <= 0.5
  {
    if d >= 0.0 then (d + 0.5).Floor else -((-d + 0.5).Floor)
  }

  /** `sum`: a left fold of `x + y` starting from 0. */
  function Sum(xs: seq<real>): real
  {
    if |xs| == 0 then 0.0 else Sum(xs[..|xs| - 1]) + xs[|xs| - 1]
  }

  /** `sumSquares`: a left fold of `x + y*y` starting from 0. */
  function SumSquares(xs: seq<real>): (r: real)
    ensures r >= 0.0
  {
    if |xs| == 0 then 0.0 else SumSquares(xs[..|xs| - 1]) + Square(xs[|xs| - 1])
  }

  function Square(x: real): (r: real)
    ensures r >= 0.0
  {
    x * x
  }

  function Min(a: int, b: int): int
  {
    if a <= b then a else b
  }

  /** `dotProduct`: the pairwise products summed front to back, stopping at
      the end of the shorter sequence. */
  function DotProduct(xs: seq<real>, ys: seq<real>): real
    decreases |xs|
  {
    var m := Min(|xs|, |ys|);
    if m == 0 then 0.0 else DotProduct(xs[..m - 1], ys[..m - 1]) + xs[m - 1] * ys[m - 1]
  }

  /** `avg`: sum over count; the empty range has no average (the source divides 0 by 0). */
  function Avg(xs: seq<real>): (r: Option<real>)
    ensures r.None? <==> |xs| == 0
    ensures r.Some? ==> r.value * (|xs| as real) == Sum(xs)
  {
    if |xs| == 0 then None else Some(Sum(xs) / (|xs| as real))
  }

  /** `doublesEqual`: closer than ZERO. */
  predicate DoublesEqual(a: real, b: real)
  {
    Abs(a - b) < ZERO
  }

  /** `signum`: 1, -1 or 0 by the sign of `d`. */
  function Signum(d: real): (r: real)
    ensures r == 1.0 || r == -1.0 || r == 0.0
    ensures r * d == Abs(d)
    ensures r == 0.0 <==> d == 0.0
  {
    if d > 0.0 then 1.0 else if d < 0.0 then -1.0 else 0.0
  }

  /** `doubleToInt`: scale, round, offset and clamp into [min, max]. */
  function DoubleToInt(d: real, min: int, max: int): (r: int)
    ensures min <= max ==> min <= r <= max
    ensures min < r < max ==> r == min + Round(d * max as real)
    ensures r == min || r == max || r == min + Round(d * max as real)
    ensures min + Round(d * max as real) <= min ==> r == min
    ensures min < min + Round(d * max as real) && min + Round(d * max as real) >= max ==> r == max
  {
    var x := min + Round(d * max as real);
    if x <= min then min else if x >= max then max else x
  }

  lemma {:induction false} SumAppend(xs: seq<real>, ys: seq<real>)
    ensures Sum(xs + ys) == Sum(xs) + Sum(ys)
    decreases |ys|
  {
    if |ys| == 0 {
      assert xs + ys == xs;
    } else {
      var ys' := ys[..|ys| - 1];
      assert (xs + ys)[..|xs + ys| - 1] == xs + ys';
      SumAppend(xs, ys');
    }
  }

  lemma {:induction false} DotProductSelf(xs: seq<real>)
    ensures DotProduct(xs, xs) == SumSquares(xs)
    decreases |xs|
  {
    if |xs| > 0 {
      DotProductSelf(xs[..|xs| - 1]);
    }
  }

  lemma {:induction false} DotProductSymmetric(xs: seq<real>, ys: seq<real>)
    ensures DotProduct(xs, ys) == DotProduct(ys, xs)
    decreases |xs|
  {
    var m := Min(|xs|, |ys|);
    if m > 0 {
      DotProductSymmetric(xs[..m - 1], ys[..m - 1]);
    }
  }

  /** Equality within ZERO is reflexive and symmetric ... */
  lemma DoublesEqualReflexiveSymmetric(a: real, b: real)
    ensures DoublesEqual(a, a)
    ensures DoublesEqual(a, b) <==> DoublesEqual(b, a)
  {
  }

  /** ... but not transitive. */
  lemma DoublesEqualNotTransitive()
    ensures DoublesEqual(0.0, 0.00000000006) && DoublesEqual(0.00000000006, 0.00000000012)
    ensures !DoublesEqual(0.0, 0.00000000012)
  {
  }
}
