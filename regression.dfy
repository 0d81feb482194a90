/** Ordinary least-squares fit of a straight line y = t + s·x, as the `LeastSquares`
  * class of lab_02.cpp computes it: the constructor accumulates the four sums
  * Σx, Σy, Σx² and Σx·y, and two closed-form quotients over the shared denominator
  * n·Σx² - (Σx)² give the line.
  *
  * The source's names are kept: `M()` is the INTERCEPT t and `C()` is the SLOPE s. */
module Regression {

  /** Σ s_i, accumulated from the left as `std::accumulate` does. */
  function Sum(s: seq<real>): real {
    if |s| == 0 then 0.0 else Sum(s[..|s| - 1]) + s[|s| - 1]
  }

  /** Σ s_i², the fold with `a + b * b`. */
  function SumSquares(s: seq<real>): real {
    if |s| == 0 then 0.0 else SumSquares(s[..|s| - 1]) + s[|s| - 1] * s[|s| - 1]
  }

  /** Σ x_i·y_i over two sequences of equal length. */
  function SumProducts(x: seq<real>, y: seq<real>): real
    requires |x| == |y|
  {
    if |x| == 0 then 0.0 else SumProducts(x[..|x| - 1], y[..|y| - 1]) + x[|x| - 1] * y[|y| - 1]
  }

  /** n·Σx² - (Σx)² over the sums themselves. */
  function Determinant(nn: real, sx: real, sx2: real): real {
    nn * sx2 - sx * sx
  }

  /** The same denominator as a function of the data. */
  function Spread(s: seq<real>): real {
    Determinant(|s| as real, Sum(s), SumSquares(s))
  }

  /** All values of s are the same (vacuously so for fewer than two values). */
  predicate AllEqual(s: seq<real>) {
    forall i, j :: 0 <= i < |s| && 0 <= j < |s| ==> s[i] == s[j]
  }

  /** Σ (y_i - (t + s·x_i)): the residuals of the line t + s·x. */
  function ResidualSum(x: seq<real>, y: seq<real>, t: real, s: real): real
    requires |x| == |y|
  {
    if |x| == 0 then 0.0
    else ResidualSum(x[..|x| - 1], y[..|y| - 1], t, s) + (y[|y| - 1] - (t + s * x[|x| - 1]))
  }

  /** Σ x_i·(y_i - (t + s·x_i)): the residuals weighted by the abscissae. */
  function ResidualMoment(x: seq<real>, y: seq<real>, t: real, s: real): real
    requires |x| == |y|
  {
    if |x| == 0 then 0.0
    else ResidualMoment(x[..|x| - 1], y[..|y| - 1], t, s) + x[|x| - 1] * (y[|y| - 1] - (t + s * x[|x| - 1]))
  }

  /** Σ (s_i - v)²: the squared distances of the values of s from v. */
  function SquaredGaps(s: seq<real>, v: real): real {
    if |s| == 0 then 0.0 else SquaredGaps(s[..|s| - 1], v) + (s[|s| - 1] - v) * (s[|s| - 1] - v)
  }

  /** The intercept quotient (Σy·Σx² - Σx·Σxy) / (n·Σx² - (Σx)²). */
  function Intercept(nn: real, sx: real, sy: real, sx2: real, sxy: real): real
    requires Determinant(nn, sx, sx2) != 0.0
  {
    (sy * sx2 - sx * sxy) / Determinant(nn, sx, sx2)
  }

  /** The slope quotient (n·Σxy - Σx·Σy) / (n·Σx² - (Σx)²). */
  function Slope(nn: real, sx: real, sy: real, sx2: real, sxy: real): real
    requires Determinant(nn, sx, sx2) != 0.0
  {
    (nn * sxy - sx * sy) / Determinant(nn, sx, sx2)
  }

  /** (t, s) solves the normal equations n·t + s·Σx == Σy and t·Σx + s·Σx² == Σxy. */
  predicate SolvesNormal(nn: real, sx: real, sy: real, sx2: real, sxy: real, t: real, s: real) {
    nn * t + s * sx == sy && t * sx + s * sx2 == sxy
  }

  /** The two quotients are the one solution of the normal equations
    * n·t + s·Σx == Σy and t·Σx + s·Σx² == Σxy. */
  lemma NormalEquationsSolved(nn: real, sx: real, sy: real, sx2: real, sxy: real, t: real, s: real)
    requires Determinant(nn, sx, sx2) != 0.0
    ensures SolvesNormal(nn, sx, sy, sx2, sxy, t, s)
        <==> t == Intercept(nn, sx, sy, sx2, sxy) && s == Slope(nn, sx, sy, sx2, sxy)
  {
    var d := Determinant(nn, sx, sx2);
    SolvesNormalEquations(nn, sx, sy, sx2, sxy, d);
    if nn * t + s * sx == sy && t * sx + s * sx2 == sxy {
      NormalEquationsUnique(nn, sx, sy, sx2, sxy, d, t, s);
    }
  }

  class LeastSquares {
    var n: int
    var sumX: real
    var sumY: real
    var sumX2: real
    var sumXY: real

    /** The data the sums were taken over. */
    ghost var xs: seq<real>
    ghost var ys: seq<real>

    /** Each field holds its sum over the data. */
    ghost predicate Valid()
      reads this
    {
      |xs| == |ys| && n == |xs| &&
      sumX == Sum(xs) && sumY == Sum(ys) && sumX2 == SumSquares(xs) && sumXY == SumProducts(xs, ys)
    }

    /** The constructor: the lengths must agree (the source asserts it); Σx, Σy and Σx² are
      * folds, and Σx·y is accumulated by an index loop. */
    constructor(x: seq<real>, y: seq<real>)
      requires |x| == |y|
      ensures Valid() && xs == x && ys == y
    {
      xs, ys := x, y;
      n := |x|;
      sumX := Sum(x);
      sumY := Sum(y);
      sumX2 := SumSquares(x);
      sumXY := 0.0;
      new;
      var i := 0;
      while i < |x|
        invariant 0 <= i <= |x|
        invariant xs == x && ys == y && n == |x|
        invariant sumX == Sum(x) && sumY == Sum(y) && sumX2 == SumSquares(x)
        invariant sumXY == SumProducts(x[..i], y[..i])
      {
        assert x[..i + 1][..i] == x[..i] && y[..i + 1][..i] == y[..i];
        sumXY := sumXY + x[i] * y[i];
        i := i + 1;
      }
      assert x[..|x|] == x && y[..|y|] == y;
    }

    /** n·Σx² - (Σx)², which neither quotient guards against being zero. */
    function Denominator(): real
      reads this
    {
      Determinant(n as real, sumX, sumX2)
    }

    /** `m()`: the intercept of the fitted line. With the slope it satisfies the first
      * normal equation, n·t + s·Σx == Σy: the line passes through the centroid. */
    function M(): (intercept: real)
      reads this
      requires Denominator() != 0.0
      ensures (n as real) * intercept + Slope(n as real, sumX, sumY, sumX2, sumXY) * sumX == sumY
    {
      NormalEquationsSolved(n as real, sumX, sumY, sumX2, sumXY,
                            Intercept(n as real, sumX, sumY, sumX2, sumXY), Slope(n as real, sumX, sumY, sumX2, sumXY));
      Intercept(n as real, sumX, sumY, sumX2, sumXY)
    }

    /** `c()`: the slope of the fitted line. With the intercept it satisfies the second
      * normal equation, t·Σx + s·Σx² == Σxy. */
    function C(): (slope: real)
      reads this
      requires Denominator() != 0.0
      ensures Intercept(n as real, sumX, sumY, sumX2, sumXY) * sumX + slope * sumX2 == sumXY
    {
      NormalEquationsSolved(n as real, sumX, sumY, sumX2, sumXY,
                            Intercept(n as real, sumX, sumY, sumX2, sumXY), Slope(n as real, sumX, sumY, sumX2, sumXY));
      Slope(n as real, sumX, sumY, sumX2, sumXY)
    }

    /** The denominator is the spread of the abscissae: never negative, and zero exactly
      * when all of them are equal (in particular for n = 0 and n = 1). */
    lemma DenominatorVanishes()
      requires Valid()
      ensures Denominator() >= 0.0
      ensures Denominator() == 0.0 <==> AllEqual(xs)
    {
      SpreadNonNegative(xs);
      SpreadZeroIff(xs);
    }

    /** On the data: the fitted line leaves residuals that sum to zero and are orthogonal to
      * the abscissae, and no other line does. */
    lemma FitCharacterised(t: real, s: real)
      requires Valid() && Denominator() != 0.0
      ensures ResidualSum(xs, ys, t, s) == 0.0 && ResidualMoment(xs, ys, t, s) == 0.0
          <==> t == M() && s == C()
    {
      LeastSquaresLine(xs, ys, t, s);
    }

    /** Data lying exactly on the line y = t + s·x is fitted by that line: `C()` returns the
      * slope s and `M()` the intercept t. */
    lemma ExactLineRecovered(t: real, s: real)
      requires Valid() && Denominator() != 0.0
      requires forall i :: 0 <= i < |xs| ==> ys[i] == t + s * xs[i]
      ensures C() == s && M() == t
    {
      ResidualsOfExactLine(xs, ys, t, s);
      FitCharacterised(t, s);
    }
  }

  // ---------------------------------------------------------------------------
  // Algebra of the normal equations, over the five sums as plain reals

  lemma SolvesNormalEquations(nn: real, sx: real, sy: real, sx2: real, sxy: real, d: real)
    requires d == nn * sx2 - sx * sx && d != 0.0
    ensures nn * ((sy * sx2 - sx * sxy) / d) + ((nn * sxy - sx * sy) / d) * sx == sy
    ensures ((sy * sx2 - sx * sxy) / d) * sx + ((nn * sxy - sx * sy) / d) * sx2 == sxy
  {
    var t, s := (sy * sx2 - sx * sxy) / d, (nn * sxy - sx * sy) / d;
    assert t * d == sy * sx2 - sx * sxy;
    assert s * d == nn * sxy - sx * sy;
    assert (nn * t + s * sx) * d == sy * d;
    assert (t * sx + s * sx2) * d == sxy * d;
  }

  lemma NormalEquationsUnique(nn: real, sx: real, sy: real, sx2: real, sxy: real, d: real, t: real, s: real)
    requires d == nn * sx2 - sx * sx && d != 0.0
    requires nn * t + s * sx == sy && t * sx + s * sx2 == sxy
    ensures t == (sy * sx2 - sx * sxy) / d && s == (nn * sxy - sx * sy) / d
  {
    assert s * d == nn * sxy - sx * sy;
    assert t * d == sy * sx2 - sx * sxy;
  }

  /** On the data: the quotients give the one line whose residuals sum to zero and are
    * orthogonal to the abscissae. */
  lemma LeastSquaresLine(x: seq<real>, y: seq<real>, t: real, s: real)
    requires |x| == |y| && Spread(x) != 0.0
    ensures ResidualSum(x, y, t, s) == 0.0 && ResidualMoment(x, y, t, s) == 0.0
        <==> (t == Intercept(|x| as real, Sum(x), Sum(y), SumSquares(x), SumProducts(x, y)) &&
              s == Slope(|x| as real, Sum(x), Sum(y), SumSquares(x), SumProducts(x, y)))
  {
    ResidualsNormal(x, y, t, s);
    NormalEquationsSolved(|x| as real, Sum(x), Sum(y), SumSquares(x), SumProducts(x, y), t, s);
  }

  /** The residuals vanish in sum and moment exactly when (t, s) solves the normal equations. */
  lemma ResidualsNormal(x: seq<real>, y: seq<real>, t: real, s: real)
    requires |x| == |y|
    ensures ResidualSum(x, y, t, s) == 0.0 && ResidualMoment(x, y, t, s) == 0.0
        <==> SolvesNormal(|x| as real, Sum(x), Sum(y), SumSquares(x), SumProducts(x, y), t, s)
  {
    ResidualSumBySums(x, y, t, s);
    ResidualMomentBySums(x, y, t, s);
  }

  // ---------------------------------------------------------------------------
  // Sums over the data

  /** The residuals add up to Σy - n·t - s·Σx. */
  lemma {:induction false} ResidualSumBySums(x: seq<real>, y: seq<real>, t: real, s: real)
    requires |x| == |y|
    ensures ResidualSum(x, y, t, s) == Sum(y) - (|x| as real) * t - s * Sum(x)
    decreases |x|
  {
    if |x| > 0 {
      var k := |x| - 1;
      ResidualSumBySums(x[..k], y[..k], t, s);
      ResidualStep(ResidualSum(x[..k], y[..k], t, s), Sum(y[..k]), Sum(x[..k]), k as real, x[k], y[k], t, s);
    }
  }

  lemma ResidualStep(r: real, sy: real, sx: real, k: real, u: real, v: real, t: real, s: real)
    requires r == sy - k * t - s * sx
    ensures r + (v - (t + s * u)) == (sy + v) - (k + 1.0) * t - s * (sx + u)
  {
  }

  /** The abscissa-weighted residuals add up to Σxy - t·Σx - s·Σx². */
  lemma {:induction false} ResidualMomentBySums(x: seq<real>, y: seq<real>, t: real, s: real)
    requires |x| == |y|
    ensures ResidualMoment(x, y, t, s) == SumProducts(x, y) - t * Sum(x) - s * SumSquares(x)
    decreases |x|
  {
    if |x| > 0 {
      var k := |x| - 1;
      ResidualMomentBySums(x[..k], y[..k], t, s);
      MomentStep(ResidualMoment(x[..k], y[..k], t, s), SumProducts(x[..k], y[..k]), Sum(x[..k]),
                 SumSquares(x[..k]), x[k], y[k], t, s);
    }
  }

  lemma MomentStep(r: real, sxy: real, sx: real, sx2: real, u: real, v: real, t: real, s: real)
    requires r == sxy - t * sx - s * sx2
    ensures r + u * (v - (t + s * u)) == (sxy + u * v) - t * (sx + u) - s * (sx2 + u * u)
  {
  }

  /** Data on the line t + s·x leaves no residual at all. */
  lemma {:induction false} ResidualsOfExactLine(x: seq<real>, y: seq<real>, t: real, s: real)
    requires |x| == |y|
    requires forall i :: 0 <= i < |x| ==> y[i] == t + s * x[i]
    ensures ResidualSum(x, y, t, s) == 0.0 && ResidualMoment(x, y, t, s) == 0.0
    decreases |x|
  {
    if |x| > 0 {
      var k := |x| - 1;
      ResidualsOfExactLine(x[..k], y[..k], t, s);
    }
  }

  /** Σ (s_i - v)² == Σs_i² - 2·v·Σs_i + n·v². */
  lemma {:induction false} SquaredGapsExpand(s: seq<real>, v: real)
    ensures SquaredGaps(s, v) == SumSquares(s) - 2.0 * v * Sum(s) + (|s| as real) * (v * v)
    decreases |s|
  {
    if |s| > 0 {
      var k := |s| - 1;
      SquaredGapsExpand(s[..k], v);
      assert (|s| as real) == (k as real) + 1.0;
      ExpandStep(SquaredGaps(s[..k], v), SumSquares(s[..k]), Sum(s[..k]), k as real, s[k], v);
    }
  }

  /** One step of the expansion: adding the gap of u to Σ (s_i - v)² in expanded form. */
  lemma ExpandStep(gaps: real, sq: real, sum: real, k: real, u: real, v: real)
    requires gaps == sq - 2.0 * v * sum + k * (v * v)
    ensures gaps + (u - v) * (u - v) == (sq + u * u) - 2.0 * v * (sum + u) + (k + 1.0) * (v * v)
  {
    GapStep(u, v);
  }

  lemma GapStep(u: real, v: real)
    ensures (u - v) * (u - v) == u * u - 2.0 * v * u + v * v
  {
  }

  /** Appending v adds its squared gaps to the spread:
    * Spread(s + [v]) == Spread(s) + Σ (s_i - v)². */
  lemma SpreadStep(s: seq<real>, v: real)
    ensures Spread(s + [v]) == Spread(s) + SquaredGaps(s, v)
  {
    SumsAppend(s, v);
    SpreadArithmetic(|s| as real, Sum(s), SumSquares(s), v);
    SquaredGapsExpand(s, v);
  }

  /** The sums of s + [v] in terms of those of s. */
  lemma SumsAppend(s: seq<real>, v: real)
    ensures |s + [v]| as real == |s| as real + 1.0
    ensures Sum(s + [v]) == Sum(s) + v && SumSquares(s + [v]) == SumSquares(s) + v * v
  {
    assert (s + [v])[..|s|] == s;
  }

  lemma SpreadArithmetic(k: real, sum: real, sq: real, v: real)
    ensures Determinant(k + 1.0, sum + v, sq + v * v)
         == Determinant(k, sum, sq) + (sq - 2.0 * v * sum + k * (v * v))
  {
  }

  lemma {:induction false} SquaredGapsNonNegative(s: seq<real>, v: real)
    ensures SquaredGaps(s, v) >= 0.0
    decreases |s|
  {
    if |s| > 0 {
      SquaredGapsNonNegative(s[..|s| - 1], v);
      SquareNonNegative(s[|s| - 1] - v);
    }
  }

  lemma SquareNonNegative(u: real)
    ensures u * u >= 0.0
  {
  }

  lemma ProductZero(u: real, w: real)
    requires u * w == 0.0
    ensures u == 0.0 || w == 0.0
  {
  }

  /** No squared gap from v is left exactly when every value equals v. */
  lemma {:induction false} SquaredGapsZeroIff(s: seq<real>, v: real)
    ensures SquaredGaps(s, v) == 0.0 <==> forall i :: 0 <= i < |s| ==> s[i] == v
    decreases |s|
  {
    if |s| > 0 {
      var k := |s| - 1;
      SquaredGapsZeroIff(s[..k], v);
      SquaredGapsNonNegative(s[..k], v);
      SquareNonNegative(s[k] - v);
      if SquaredGaps(s, v) == 0.0 {
        ProductZero(s[k] - v, s[k] - v);
        forall i | 0 <= i < |s|
          ensures s[i] == v
        {
          if i < k {
            assert s[..k][i] == s[i];
          }
        }
      }
    }
  }

  lemma {:induction false} SpreadNonNegative(s: seq<real>)
    ensures Spread(s) >= 0.0
    decreases |s|
  {
    if |s| > 0 {
      var k := |s| - 1;
      SpreadNonNegative(s[..k]);
      assert s == s[..k] + [s[k]];
      SpreadStep(s[..k], s[k]);
      SquaredGapsNonNegative(s[..k], s[k]);
    }
  }

  /** The spread is zero exactly when all values are equal. */
  lemma {:induction false} SpreadZeroIff(s: seq<real>)
    ensures Spread(s) == 0.0 <==> AllEqual(s)
    decreases |s|
  {
    if |s| > 0 {
      var k := |s| - 1;
      var init, last := s[..k], s[k];
      assert s == init + [last];
      SpreadZeroIff(init);
      SpreadNonNegative(init);
      SpreadStep(init, last);
      SquaredGapsNonNegative(init, last);
      SquaredGapsZeroIff(init, last);
      if Spread(s) == 0.0 {
        assert AllEqual(init);
        assert forall i :: 0 <= i < k ==> init[i] == last;
        forall i, j | 0 <= i < |s| && 0 <= j < |s|
          ensures s[i] == s[j]
        {
          assert i < k ==> s[i] == init[i];
          assert j < k ==> s[j] == init[j];
        }
      }
    }
  }
}
