/** The pillar-design caller of lab_02.cpp: the strength S1 of a 1 m pillar (in MPa),
  * obtained from the size-effect fit, fixes a cubic in the pillar width whose root is
  * the width at which the pillar strength times the pillar area equals the factor of
  * safety times the tributary load; Newton's method finds that root from 100 m.
  * The single design and the table over vertical depths and gallery widths use the
  * same coefficient formulas. */
module PillarDesign {
  import opened NewtonRaphson
  import Regression

  const GalleryWidth: real := 4.5                  // Wg, m
  const PillarHeight: real := 3.0                  // Hp, m
  const UnitWeight: real := 2.6 * 1000.0 * 9.81     // rock density times g, N/m³
  const MiningHeight: real := 200.0                // depth of the single design, m
  const InitialGuess: real := 100.0
  const Tolerance: real := 0.0001
  const RollNumberLastDigit: real := 3.0
  const GalleryWidths: seq<real> := [3.0, 3.6, 4.0, 4.2, 4.8]
  const VerticalDepths: seq<real> := [60.0 + RollNumberLastDigit, 90.0 + RollNumberLastDigit,
                                      120.0 + RollNumberLastDigit, 150.0 + RollNumberLastDigit,
                                      240.0 + RollNumberLastDigit, 360.0 + RollNumberLastDigit]

  /** A1·x³ + A2·x² + A3·x + A4. */
  datatype Cubic = Cubic(a1: real, a2: real, a3: real, a4: real)

  /** The coefficients A1..A4 for strength s1, factor of safety fos, depth d and gallery
    * width w. The cubic they make is the safety balance: pillar strength times pillar area
    * minus the factored tributary load, so its root is the width at which they are equal. */
  function Coefficients(s1: real, fos: real, d: real, w: real): (r: Cubic)
    ensures forall x :: Eval(r, x) == PillarStrength(s1, x) * (x * x) - FactoredLoad(fos, d, w, x)
  {
    var s := s1 * 1000000.0;
    var c := fos * UnitWeight * d;
    var k := Cubic(0.36 * s / PillarHeight, 0.64 * s - c, -2.0 * c * w, -1.0 * c * w * w);
    Balance(k, s, c, w);
    k
  }

  /** The lambda `g` (and `f` in the table loop). */
  function Eval(k: Cubic, x: real): real {
    k.a1 * x * x * x + k.a2 * x * x + k.a3 * x + k.a4
  }

  /** The lambda `dg` (and `df` in the table loop): the derivative of `Eval(k, ·)` at x. The
    * change of the cubic from x to y differs from (y - x) times it by a term of second order
    * in y - x. */
  function Derivative(k: Cubic, x: real): (r: real)
    ensures forall y :: Eval(k, y) - Eval(k, x) - (y - x) * r
                          == (y - x) * (y - x) * (3.0 * k.a1 * x + k.a2 + k.a1 * (y - x))
  {
    Tangent(k, x);
    3.0 * k.a1 * x * x + 2.0 * k.a2 * x + k.a3
  }

  function G(k: Cubic): real -> real {
    x => Eval(k, x)
  }

  function DG(k: Cubic): real -> real {
    x => Derivative(k, x)
  }

  /** Strength of a pillar of width x (Pa): S1 scaled by 0.64 + 0.36·x/Hp. */
  function PillarStrength(s1: real, x: real): real {
    var s := s1 * 1000000.0;
    s * (0.64 + 0.36 * x / PillarHeight)
  }

  /** The factored tributary load on a square pillar of width x between galleries of width w
    * at depth d: the overburden stress γ·d over the area (x + w)², times fos. */
  function FactoredLoad(fos: real, d: real, w: real, x: real): real {
    var c := fos * UnitWeight * d;
    c * ((x + w) * (x + w))
  }

  lemma Balance(k: Cubic, s: real, c: real, w: real)
    requires k == Cubic(0.36 * s / PillarHeight, 0.64 * s - c, -2.0 * c * w, -1.0 * c * w * w)
    ensures forall x :: Eval(k, x) == s * (0.64 + 0.36 * x / PillarHeight) * (x * x) - c * ((x + w) * (x + w))
  {
    forall x
      ensures Eval(k, x) == s * (0.64 + 0.36 * x / PillarHeight) * (x * x) - c * ((x + w) * (x + w))
    {
      BalanceArithmetic(s, c, w, x);
    }
  }

  lemma BalanceArithmetic(s: real, c: real, w: real, x: real)
    ensures 0.36 * s / PillarHeight * x * x * x + (0.64 * s - c) * x * x + (-2.0 * c * w) * x + (-1.0 * c * w * w)
         == s * (0.64 + 0.36 * x / PillarHeight) * (x * x) - c * ((x + w) * (x + w))
  {
  }

  lemma Tangent(k: Cubic, x: real)
    ensures forall y :: Eval(k, y) - Eval(k, x) - (y - x) * (3.0 * k.a1 * x * x + 2.0 * k.a2 * x + k.a3)
                          == (y - x) * (y - x) * (3.0 * k.a1 * x + k.a2 + k.a1 * (y - x))
  {
    forall y
      ensures Eval(k, y) - Eval(k, x) - (y - x) * (3.0 * k.a1 * x * x + 2.0 * k.a2 * x + k.a3)
                == (y - x) * (y - x) * (3.0 * k.a1 * x + k.a2 + k.a1 * (y - x))
    {
      CubicExpansion(k.a1, k.a2, k.a3, k.a4, x, y - x);
    }
  }

  lemma CubicExpansion(a1: real, a2: real, a3: real, a4: real, x: real, t: real)
    ensures (a1 * (x + t) * (x + t) * (x + t) + a2 * (x + t) * (x + t) + a3 * (x + t) + a4)
          - (a1 * x * x * x + a2 * x * x + a3 * x + a4)
          - t * (3.0 * a1 * x * x + 2.0 * a2 * x + a3)
         == t * t * (3.0 * a1 * x + a2 + a1 * t)
  {
  }

  /** The width Newton's method reports for one (depth, gallery width) pair. */
  function DesignWidth(s1: real, fos: real, d: real, w: real, fuel: nat): Outcome {
    var k := Coefficients(s1, fos, d, w);
    Newton(G(k), DG(k), InitialGuess, Tolerance, fuel)
  }

  /** Where the design width converged, the cubic at the point the last Newton step started
    * from (the iterate before the returned width) is within the tolerance times the slope there. */
  lemma DesignWidthResidual(s1: real, fos: real, d: real, w: real, fuel: nat)
    requires DesignWidth(s1, fos, d, w, fuel).Converged?
    ensures var k, x := Coefficients(s1, fos, d, w), DesignWidth(s1, fos, d, w, fuel).previous;
            Abs(Eval(k, x)) <= Tolerance * Abs(Derivative(k, x))
  {
    var k := Coefficients(s1, fos, d, w);
    var x := DesignWidth(s1, fos, d, w, fuel).previous;
    ConvergedResidual(G(k), DG(k), InitialGuess, Tolerance, fuel);
    assert G(k)(x) == Eval(k, x) && DG(k)(x) == Derivative(k, x);
  }

  /** The same in the design's own terms: where the design width converged, strength times
    * area and factored load balance, at the point the last Newton step started from (the
    * iterate before the returned width), up to the tolerance times the slope there. */
  lemma DesignWidthBalanced(s1: real, fos: real, d: real, w: real, fuel: nat, root: real, x: real)
    requires DesignWidth(s1, fos, d, w, fuel) == Converged(root, x)
    ensures Abs(PillarStrength(s1, x) * (x * x) - FactoredLoad(fos, d, w, x))
              <= Tolerance * Abs(Derivative(Coefficients(s1, fos, d, w), x))
  {
    DesignWidthResidual(s1, fos, d, w, fuel);
    BalancedWhereSmall(s1, fos, d, w, x);
  }

  lemma BalancedWhereSmall(s1: real, fos: real, d: real, w: real, x: real)
    requires Abs(Eval(Coefficients(s1, fos, d, w), x)) <= Tolerance * Abs(Derivative(Coefficients(s1, fos, d, w), x))
    ensures Abs(PillarStrength(s1, x) * (x * x) - FactoredLoad(fos, d, w, x))
              <= Tolerance * Abs(Derivative(Coefficients(s1, fos, d, w), x))
  {
  }

  /** At the returned width itself: the last step from x lands where the tangent at x crosses
    * zero, so what is left of the cubic at the width is the second-order remainder of that
    * tangent; with the step bound, `RootBound` turns this into at most the tolerance squared
    * times |3·A1·x + A2 + A1·(root - x)|. */
  lemma DesignWidthRootResidual(s1: real, fos: real, d: real, w: real, fuel: nat, root: real, x: real)
    requires DesignWidth(s1, fos, d, w, fuel) == Converged(root, x)
    ensures var k := Coefficients(s1, fos, d, w);
            Eval(k, root) == (root - x) * (root - x) * (3.0 * k.a1 * x + k.a2 + k.a1 * (root - x))
    ensures Abs(root - x) <= Tolerance
  {
    CubicLanding(Coefficients(s1, fos, d, w), x, root);
  }

  /** One Newton step on the cubic from x leaves the tangent remainder at the new point. */
  lemma CubicLanding(k: Cubic, x: real, root: real)
    requires DG(k)(x) != 0.0 && root == Step(G(k), DG(k), x)
    ensures Eval(k, root) == (root - x) * (root - x) * (3.0 * k.a1 * x + k.a2 + k.a1 * (root - x))
  {
    var rem := (root - x) * (root - x) * (3.0 * k.a1 * x + k.a2 + k.a1 * (root - x));
    TangentRemainder(k, root, x);
    TangentLanding(G(k), DG(k), x, rem);
    assert G(k)(root) == Eval(k, root);
  }

  /** A residual that is the tangent remainder over a step of at most the tolerance is bounded
    * by the tolerance squared times the remaining factor. */
  lemma RootBound(k: Cubic, root: real, x: real)
    requires Eval(k, root) == (root - x) * (root - x) * (3.0 * k.a1 * x + k.a2 + k.a1 * (root - x))
    requires Abs(root - x) <= Tolerance
    ensures Abs(Eval(k, root)) <= Tolerance * Tolerance * Abs(3.0 * k.a1 * x + k.a2 + k.a1 * (root - x))
  {
    SquareBound(Eval(k, root), root - x, 3.0 * k.a1 * x + k.a2 + k.a1 * (root - x), Tolerance);
  }

  /** The tangent of `G(k)` at x misses `G(k)(y)` by (y - x)²·(3·A1·x + A2 + A1·(y - x)). */
  lemma TangentRemainder(k: Cubic, y: real, x: real)
    ensures G(k)(y) - G(k)(x) - (y - x) * DG(k)(x) == (y - x) * (y - x) * (3.0 * k.a1 * x + k.a2 + k.a1 * (y - x))
  {
    assert G(k)(y) == Eval(k, y) && G(k)(x) == Eval(k, x) && DG(k)(x) == Derivative(k, x);
  }

  /** |t| <= eps bounds g = t²·q by eps²·|q|. */
  lemma SquareBound(g: real, t: real, q: real, eps: real)
    requires g == t * t * q && Abs(t) <= eps
    ensures Abs(g) <= eps * eps * Abs(q)
  {
    ProductAbs(t * t, q);
    ProductAbs(t, t);
    assert Abs(t) >= 0.0 && eps >= 0.0;
    assert Abs(t) * Abs(t) <= eps * eps by {
      MonotoneProduct(Abs(t), eps, Abs(t));
      MonotoneProduct(Abs(t), eps, eps);
    }
    MonotoneProduct(Abs(t) * Abs(t), eps * eps, Abs(q));
  }

  /** The single design: depth MiningHeight, gallery width Wg. */
  method PillarWidth(s1: real, fos: real, fuel: nat) returns (r: Outcome)
    ensures r == DesignWidth(s1, fos, MiningHeight, GalleryWidth, fuel)
  {
    var k := Coefficients(s1, fos, MiningHeight, GalleryWidth);
    r := Solve(G(k), DG(k), InitialGuess, Tolerance, fuel);
  }

  /** The assignment table: one row per vertical depth, one column per gallery width. */
  method AnswerTable(s1: real, fos: real, fuel: nat) returns (table: seq<seq<Outcome>>)
    ensures |table| == |VerticalDepths|
    ensures forall i :: 0 <= i < |table| ==> |table[i]| == |GalleryWidths|
    ensures forall i, j :: 0 <= i < |table| && 0 <= j < |GalleryWidths| ==>
              table[i][j] == DesignWidth(s1, fos, VerticalDepths[i], GalleryWidths[j], fuel)
  {
    table := [];
    var i := 0;
    while i < |VerticalDepths|
      invariant 0 <= i <= |VerticalDepths|
      invariant |table| == i
      invariant forall p :: 0 <= p < i ==> |table[p]| == |GalleryWidths|
      invariant forall p, q :: 0 <= p < i && 0 <= q < |GalleryWidths| ==>
                  table[p][q] == DesignWidth(s1, fos, VerticalDepths[p], GalleryWidths[q], fuel)
    {
      var d := VerticalDepths[i];
      var row: seq<Outcome> := [];
      var j := 0;
      while j < |GalleryWidths|
        invariant 0 <= j <= |GalleryWidths|
        invariant |row| == j
        invariant forall q :: 0 <= q < j ==> row[q] == DesignWidth(s1, fos, d, GalleryWidths[q], fuel)
      {
        var k := Coefficients(s1, fos, d, GalleryWidths[j]);
        var width := Solve(G(k), DG(k), InitialGuess, Tolerance, fuel);
        row := row + [width];
        j := j + 1;
      }
      table := table + [row];
      i := i + 1;
    }
  }

  /** The size-effect fit: on data (ln l, ln S) that obeys ln S = ln k - a·ln l exactly,
    * `m()` returns ln k and `c()` returns -a, so the caller's k = exp(m) and a = -c
    * recover the law. */
  lemma SizeEffectRecovered(ls: Regression.LeastSquares, lnK: real, a: real)
    requires ls.Valid() && ls.Denominator() != 0.0
    requires forall i :: 0 <= i < |ls.xs| ==> ls.ys[i] == lnK - a * ls.xs[i]
    ensures ls.M() == lnK && -ls.C() == a
  {
    forall i | 0 <= i < |ls.xs|
      ensures ls.ys[i] == lnK + (-a) * ls.xs[i]
    {
    }
    ls.ExactLineRecovered(lnK, -a);
  }
}
