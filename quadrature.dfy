/** Composite numerical integration over n equal panels of [a, b]:
  * the trapezoidal rule and Simpson's 1/3 rule of main.cpp, over exact reals.
  * The grid is x_i = a + i·h with h = (b - a) / n.
  *
  * Each rule is specified as a bracket (a weighted sum of samples, stated for an
  * arbitrary panel width h) scaled by h/2 or h/3. Properties are proved on the
  * brackets first, where no division occurs, and then carried to the rules. */
module Quadrature {

  /** Selectors of the interior grid indices 1 <= i < n a sum ranges over. */
  predicate AllPoints(i: int) { true }
  predicate OddPoints(i: int) { i % 2 == 1 }
  predicate EvenPoints(i: int) { i % 2 == 0 }

  /** The panel width h = (b - a) / n. */
  function Width(n: int, a: real, b: real): real
    requires n != 0
  {
    (b - a) / (n as real)
  }

  /** The grid of width h from a: index i maps to the point a + i·h. */
  function Grid(a: real, h: real): int -> real {
    i => a + (i as real) * h
  }

  /** The sum of f over the grid points x(i) with 1 <= i < k that `pick` selects
    * (zero when k <= 1). */
  function Samples(pick: int -> bool, f: real -> real, x: int -> real, k: int): real
    decreases k
  {
    if k <= 1 then 0.0
    else Samples(pick, f, x, k - 1) + (if pick(k - 1) then f(x(k - 1)) else 0.0)
  }

  /** How many indices 1 <= i < k `pick` selects. */
  function Count(pick: int -> bool, k: int): nat
    decreases k
  {
    if k <= 1 then 0 else Count(pick, k - 1) + (if pick(k - 1) then 1 else 0)
  }

  /** The trapezoidal bracket: endpoints with weight 1, interior points with weight 2. */
  function TrapezoidalSum(f: real -> real, a: real, b: real, x: int -> real, n: int): real {
    f(a) + f(b) + 2.0 * Samples(AllPoints, f, x, n)
  }

  /** Simpson's bracket: endpoints with weight 1, odd interior points 4, even interior points 2. */
  function SimpsonSum(f: real -> real, a: real, b: real, x: int -> real, n: int): real {
    f(a) + f(b) + 4.0 * Samples(OddPoints, f, x, n) + 2.0 * Samples(EvenPoints, f, x, n)
  }

  /** The composite trapezoidal rule with n panels. */
  function TrapezoidalRule(n: int, f: real -> real, a: real, b: real): real
    requires n != 0
  {
    var h := Width(n, a, b);
    TrapezoidalSum(f, a, b, Grid(a, h), n) * (h / 2.0)
  }

  /** The composite Simpson 1/3 rule with n panels. */
  function SimpsonRule(n: int, f: real -> real, a: real, b: real): real
    requires n != 0
  {
    var h := Width(n, a, b);
    SimpsonSum(f, a, b, Grid(a, h), n) * (h / 3.0)
  }

  /** `trapezoidal`: accumulate the endpoint and doubled interior samples, then scale by h/2.
    * A negative n runs the loop zero times, as the C++ `for` does; n == 0 would divide by zero. */
  method Trapezoidal(n: int, f: real -> real, a: real, b: real) returns (t: real)
    requires n != 0
    ensures t == TrapezoidalRule(n, f, a, b)
  {
    var h := Width(n, a, b);
    var x := Grid(a, h);
    t := f(a) + f(b);
    var i := 1;
    while i < n
      invariant 1 <= i <= (if n > 1 then n else 1)
      invariant t == f(a) + f(b) + 2.0 * Samples(AllPoints, f, x, i)
    {
      t := t + 2.0 * f(x(i));
      i := i + 1;
    }
    t := t * (h / 2.0);
  }

  /** `simpsons`: odd interior samples weigh 4, even ones 2, the endpoints 1; then scale by h/3.
    * The parity of n is not checked. */
  method Simpsons(n: int, f: real -> real, a: real, b: real) returns (t: real)
    requires n != 0
    ensures t == SimpsonRule(n, f, a, b)
  {
    var h := Width(n, a, b);
    var x := Grid(a, h);
    t := f(a) + f(b);
    var i := 1;
    while i < n
      invariant 1 <= i <= (if n > 1 then n else 1)
      invariant t == f(a) + f(b) + 4.0 * Samples(OddPoints, f, x, i) + 2.0 * Samples(EvenPoints, f, x, i)
    {
      if i % 2 != 0 {
        t := t + 4.0 * f(x(i));
      } else {
        t := t + 2.0 * f(x(i));
      }
      i := i + 1;
    }
    assert t == SimpsonSum(f, a, b, x, n);
    t := t * (h / 3.0);
  }

  // ---------------------------------------------------------------------------
  // Small cases

  /** With one panel the loop does not run: (b - a)/2 · (f(a) + f(b)). */
  lemma TrapezoidalSinglePanel(f: real -> real, a: real, b: real)
    ensures TrapezoidalRule(1, f, a, b) == (b - a) / 2.0 * (f(a) + f(b))
  {
  }

  /** With two panels Simpson's rule is (b - a)/6 · (f(a) + 4·f(midpoint) + f(b)). */
  lemma SimpsonSinglePanel(f: real -> real, a: real, b: real)
    ensures SimpsonRule(2, f, a, b) == (b - a) / 6.0 * (f(a) + 4.0 * f((a + b) / 2.0) + f(b))
  {
    var h := Width(2, a, b);
    assert Grid(a, h)(1) == (a + b) / 2.0;
    assert Samples(OddPoints, f, Grid(a, h), 2) == f((a + b) / 2.0);
    assert Samples(EvenPoints, f, Grid(a, h), 2) == 0.0;
  }

  /** On an empty interval both rules give 0, whatever n. */
  lemma EmptyInterval(n: int, f: real -> real, a: real)
    requires n != 0
    ensures TrapezoidalRule(n, f, a, a) == 0.0
    ensures SimpsonRule(n, f, a, a) == 0.0
  {
    assert Width(n, a, a) == 0.0;
  }

  // ---------------------------------------------------------------------------
  // Sums over a grid

  /** Every interior index is either odd or even. */
  lemma {:induction false} SamplesSplit(f: real -> real, x: int -> real, k: int)
    ensures Samples(AllPoints, f, x, k) == Samples(OddPoints, f, x, k) + Samples(EvenPoints, f, x, k)
    decreases k
  {
    if k > 1 {
      SamplesSplit(f, x, k - 1);
    }
  }

  /** When every second point of the fine grid x is a point of the coarse grid y
    * (x(2j) == y(j)), the even samples of x over 2m panels are the interior samples
    * of y over m panels. */
  lemma {:induction false} EvenSamplesCoarsen(f: real -> real, x: int -> real, y: int -> real, m: int)
    requires m >= 1
    requires forall j :: x(2 * j) == y(j)
    ensures Samples(EvenPoints, f, x, 2 * m) == Samples(AllPoints, f, y, m)
    decreases m
  {
    if m > 1 {
      EvenSamplesCoarsen(f, x, y, m - 1);
      assert x(2 * (m - 1)) == y(m - 1);
    }
  }

  /** Halving the panel count doubles the width: every second point of the grid of
    * width h is a point of the grid of width 2h. */
  lemma GridCoarsens(a: real, h: real)
    ensures forall j :: Grid(a, h)(2 * j) == Grid(a, 2.0 * h)(j)
  {
    forall j: int
      ensures Grid(a, h)(2 * j) == Grid(a, 2.0 * h)(j)
    {
      assert ((2 * j) as real) * h == (j as real) * (2.0 * h);
    }
  }

  /** On a constant integrand the samples add up to the number of picked points times the constant. */
  lemma {:induction false} SamplesOfConstant(pick: int -> bool, f: real -> real, c: real, x: int -> real, k: int)
    requires forall t :: f(t) == c
    ensures Samples(pick, f, x, k) == (Count(pick, k) as real) * c
    decreases k
  {
    if k > 1 {
      SamplesOfConstant(pick, f, c, x, k - 1);
    }
  }

  /** Closed forms of the interior point counts. */
  lemma {:induction false} CountClosedForm(k: int)
    requires k >= 1
    ensures Count(AllPoints, k) == k - 1
    ensures Count(OddPoints, k) == k / 2
    ensures Count(EvenPoints, k) == (k - 1) / 2
    decreases k
  {
    if k > 1 {
      CountClosedForm(k - 1);
    }
  }

  /** The samples of α·f + β·g are α·(samples of f) + β·(samples of g). */
  lemma {:induction false} SamplesLinear(pick: int -> bool, f: real -> real, g: real -> real, fg: real -> real,
                                         alpha: real, beta: real, x: int -> real, k: int)
    requires forall t :: fg(t) == alpha * f(t) + beta * g(t)
    ensures Samples(pick, fg, x, k) == alpha * Samples(pick, f, x, k) + beta * Samples(pick, g, x, k)
    decreases k
  {
    if k > 1 {
      SamplesLinear(pick, f, g, fg, alpha, beta, x, k - 1);
    }
  }

  /** Twice the interior samples of a line p·t + q on the grid of width h from a:
    * 2·(k-1)·(p·a + q) + p·h·k·(k-1). */
  lemma {:induction false} SamplesOfLine(f: real -> real, p: real, q: real, a: real, h: real, k: int)
    requires k >= 1
    requires forall t :: f(t) == p * t + q
    ensures 2.0 * Samples(AllPoints, f, Grid(a, h), k)
         == 2.0 * ((k - 1) as real) * (p * a + q) + p * h * ((k * (k - 1)) as real)
    decreases k
  {
    if k > 1 {
      SamplesOfLine(f, p, q, a, h, k - 1);
      var j := (k - 1) as real;
      assert f(Grid(a, h)(k - 1)) == p * a + q + p * h * j;
      LineStep(p * a + q, p * h, j);
      assert ((k * (k - 1)) as real) == (j + 1.0) * j;
      assert (((k - 1) * (k - 2)) as real) == j * (j - 1.0);
    }
  }

  /** Arithmetic step of SamplesOfLine, from k - 1 = j to k = j + 1 points. */
  lemma LineStep(v: real, s: real, j: real)
    ensures 2.0 * (j - 1.0) * v + s * (j * (j - 1.0)) + 2.0 * (v + s * j)
         == 2.0 * j * v + s * ((j + 1.0) * j)
  {
  }

  // ---------------------------------------------------------------------------
  // Properties of the two rules

  /** The trapezoidal rule integrates every constant exactly, for every n >= 1. */
  lemma TrapezoidalOfConstant(n: int, f: real -> real, c: real, a: real, b: real)
    requires n >= 1
    requires forall t :: f(t) == c
    ensures TrapezoidalRule(n, f, a, b) == c * (b - a)
  {
    TrapezoidalSumOfConstant(f, c, a, b, Grid(a, Width(n, a, b)), n);
    ScaleCancels(n as real, 2.0 * c, 2.0, b - a);
  }

  /** The trapezoidal bracket of a constant c over n panels is 2·n·c. */
  lemma TrapezoidalSumOfConstant(f: real -> real, c: real, a: real, b: real, x: int -> real, n: int)
    requires n >= 1
    requires forall t :: f(t) == c
    ensures TrapezoidalSum(f, a, b, x, n) == (n as real) * (2.0 * c)
  {
    SamplesOfConstant(AllPoints, f, c, x, n);
    CountClosedForm(n);
  }

  /** Simpson's rule integrates a constant exactly when n is even; for odd n it
    * returns the fraction (3n - 1)/(3n) of the integral: the last interior index n - 1 is
    * then even and weighs 2, so the weights run 1, 4, 2, ..., 4, 2, 1 and total 3n - 1. */
  lemma SimpsonOfConstant(n: int, f: real -> real, c: real, a: real, b: real)
    requires n >= 1
    requires forall t :: f(t) == c
    ensures n % 2 == 0 ==> SimpsonRule(n, f, a, b) == c * (b - a)
    ensures n % 2 == 1 ==> SimpsonRule(n, f, a, b) == c * (b - a) * ((3 * n - 1) as real) / ((3 * n) as real)
  {
    if n % 2 == 0 {
      SimpsonOfConstantEven(n, f, c, a, b);
    } else {
      SimpsonOfConstantOdd(n, f, c, a, b);
    }
  }

  lemma SimpsonOfConstantEven(n: int, f: real -> real, c: real, a: real, b: real)
    requires n >= 1 && n % 2 == 0
    requires forall t :: f(t) == c
    ensures SimpsonRule(n, f, a, b) == c * (b - a)
  {
    SimpsonSumOfConstant(f, c, a, b, Grid(a, Width(n, a, b)), n);
    ScaleCancels(n as real, 3.0 * c, 3.0, b - a);
  }

  lemma SimpsonOfConstantOdd(n: int, f: real -> real, c: real, a: real, b: real)
    requires n >= 1 && n % 2 == 1
    requires forall t :: f(t) == c
    ensures SimpsonRule(n, f, a, b) == c * (b - a) * ((3 * n - 1) as real) / ((3 * n) as real)
  {
    SimpsonSumOfConstant(f, c, a, b, Grid(a, Width(n, a, b)), n);
    ScaleCancelsOdd(n as real, c, b - a);
  }

  /** Simpson's bracket of a constant c: 3·n·c for even n and (3·n - 1)·c for odd n. */
  lemma SimpsonSumOfConstant(f: real -> real, c: real, a: real, b: real, x: int -> real, n: int)
    requires n >= 1
    requires forall t :: f(t) == c
    ensures n % 2 == 0 ==> SimpsonSum(f, a, b, x, n) == (n as real) * (3.0 * c)
    ensures n % 2 == 1 ==> SimpsonSum(f, a, b, x, n) == (3.0 * (n as real) - 1.0) * c
  {
    SamplesOfConstant(OddPoints, f, c, x, n);
    SamplesOfConstant(EvenPoints, f, c, x, n);
    ParityWeights(n);
  }

  /** The total Simpson weight of n panels: 3·n when n is even, 3·n - 1 when n is odd. */
  lemma ParityWeights(n: int)
    requires n >= 1
    ensures n % 2 == 0 ==> 2.0 + 4.0 * (Count(OddPoints, n) as real) + 2.0 * (Count(EvenPoints, n) as real) == 3.0 * (n as real)
    ensures n % 2 == 1 ==> 2.0 + 4.0 * (Count(OddPoints, n) as real) + 2.0 * (Count(EvenPoints, n) as real) == 3.0 * (n as real) - 1.0
  {
    CountClosedForm(n);
  }

  /** (N·v) · ((d / N) / k) == v / k · d: a bracket proportional to n, scaled by h/k. */
  lemma ScaleCancels(nn: real, v: real, k: real, d: real)
    requires nn != 0.0 && k != 0.0
    ensures (nn * v) * (d / nn / k) == v / k * d
  {
  }

  lemma ScaleCancelsOdd(nn: real, c: real, d: real)
    requires nn != 0.0
    ensures ((3.0 * nn - 1.0) * c) * (d / nn / 3.0) == c * d * (3.0 * nn - 1.0) / (3.0 * nn)
  {
  }

  /** The trapezoidal rule is linear in the integrand: α·f + β·g integrates to α·T(f) + β·T(g). */
  lemma TrapezoidalLinear(n: int, f: real -> real, g: real -> real, fg: real -> real,
                          alpha: real, beta: real, a: real, b: real)
    requires n != 0
    requires forall t :: fg(t) == alpha * f(t) + beta * g(t)
    ensures TrapezoidalRule(n, fg, a, b) == alpha * TrapezoidalRule(n, f, a, b) + beta * TrapezoidalRule(n, g, a, b)
  {
    var x := Grid(a, Width(n, a, b));
    TrapezoidalSumLinear(f, g, fg, alpha, beta, a, b, x, n);
    Distribute(alpha, TrapezoidalSum(f, a, b, x, n), beta, TrapezoidalSum(g, a, b, x, n), Width(n, a, b) / 2.0);
  }

  /** Simpson's rule is linear in the integrand: α·f + β·g integrates to α·S(f) + β·S(g). */
  lemma SimpsonLinear(n: int, f: real -> real, g: real -> real, fg: real -> real,
                      alpha: real, beta: real, a: real, b: real)
    requires n != 0
    requires forall t :: fg(t) == alpha * f(t) + beta * g(t)
    ensures SimpsonRule(n, fg, a, b) == alpha * SimpsonRule(n, f, a, b) + beta * SimpsonRule(n, g, a, b)
  {
    var x := Grid(a, Width(n, a, b));
    SimpsonSumLinear(f, g, fg, alpha, beta, a, b, x, n);
    Distribute(alpha, SimpsonSum(f, a, b, x, n), beta, SimpsonSum(g, a, b, x, n), Width(n, a, b) / 3.0);
  }

  lemma TrapezoidalSumLinear(f: real -> real, g: real -> real, fg: real -> real,
                             alpha: real, beta: real, a: real, b: real, x: int -> real, n: int)
    requires forall t :: fg(t) == alpha * f(t) + beta * g(t)
    ensures TrapezoidalSum(fg, a, b, x, n) == alpha * TrapezoidalSum(f, a, b, x, n) + beta * TrapezoidalSum(g, a, b, x, n)
  {
    SamplesLinear(AllPoints, f, g, fg, alpha, beta, x, n);
  }

  lemma SimpsonSumLinear(f: real -> real, g: real -> real, fg: real -> real,
                         alpha: real, beta: real, a: real, b: real, x: int -> real, n: int)
    requires forall t :: fg(t) == alpha * f(t) + beta * g(t)
    ensures SimpsonSum(fg, a, b, x, n) == alpha * SimpsonSum(f, a, b, x, n) + beta * SimpsonSum(g, a, b, x, n)
  {
    SamplesLinear(OddPoints, f, g, fg, alpha, beta, x, n);
    SamplesLinear(EvenPoints, f, g, fg, alpha, beta, x, n);
    BracketLinear(alpha, beta, f(a), f(b), Samples(OddPoints, f, x, n), Samples(EvenPoints, f, x, n),
                  g(a), g(b), Samples(OddPoints, g, x, n), Samples(EvenPoints, g, x, n));
  }

  lemma BracketLinear(alpha: real, beta: real, u1: real, u2: real, u3: real, u4: real,
                      v1: real, v2: real, v3: real, v4: real)
    ensures (alpha * u1 + beta * v1) + (alpha * u2 + beta * v2) + 4.0 * (alpha * u3 + beta * v3) + 2.0 * (alpha * u4 + beta * v4)
         == alpha * (u1 + u2 + 4.0 * u3 + 2.0 * u4) + beta * (v1 + v2 + 4.0 * v3 + 2.0 * v4)
  {
  }

  lemma Distribute(alpha: real, u: real, beta: real, v: real, s: real)
    ensures (alpha * u + beta * v) * s == alpha * (u * s) + beta * (v * s)
  {
  }

  /** Simpson's rule over 2m panels is the Richardson combination of the trapezoidal
    * rules over 2m and over m panels: S(2m) = (4·T(2m) - T(m)) / 3. */
  lemma SimpsonIsRichardson(n: int, f: real -> real, a: real, b: real)
    requires n >= 2 && n % 2 == 0
    ensures SimpsonRule(n, f, a, b) == (4.0 * TrapezoidalRule(n, f, a, b) - TrapezoidalRule(n / 2, f, a, b)) / 3.0
  {
    var m := n / 2;
    var h := Width(n, a, b);
    WidthHalves(m, a, b);
    assert TrapezoidalRule(m, f, a, b) == TrapezoidalSum(f, a, b, Grid(a, 2.0 * h), m) * (2.0 * h / 2.0);
    GridCoarsens(a, h);
    SimpsonSumCoarsens(f, a, b, Grid(a, h), Grid(a, 2.0 * h), m);
    RichardsonArithmetic(SimpsonSum(f, a, b, Grid(a, h), n), TrapezoidalSum(f, a, b, Grid(a, h), n),
                         TrapezoidalSum(f, a, b, Grid(a, 2.0 * h), m), h);
  }

  /** Halving the number of panels doubles their width. */
  lemma WidthHalves(m: int, a: real, b: real)
    requires m >= 1
    ensures Width(m, a, b) == 2.0 * Width(2 * m, a, b)
  {
  }

  /** On brackets: Simpson's bracket on the fine grid x is twice the trapezoidal bracket
    * on x minus the trapezoidal bracket on the coarse grid y. */
  lemma SimpsonSumCoarsens(f: real -> real, a: real, b: real, x: int -> real, y: int -> real, m: int)
    requires m >= 1
    requires forall j :: x(2 * j) == y(j)
    ensures SimpsonSum(f, a, b, x, 2 * m) == 2.0 * TrapezoidalSum(f, a, b, x, 2 * m) - TrapezoidalSum(f, a, b, y, m)
  {
    SamplesSplit(f, x, 2 * m);
    EvenSamplesCoarsen(f, x, y, m);
  }

  lemma RichardsonArithmetic(s: real, fine: real, coarse: real, h: real)
    requires s == 2.0 * fine - coarse
    ensures s * (h / 3.0) == (4.0 * (fine * (h / 2.0)) - coarse * (2.0 * h / 2.0)) / 3.0
  {
  }

  /** The trapezoidal rule is exact on straight lines: for f(t) = p·t + q it returns
    * the integral p·(b² - a²)/2 + q·(b - a). */
  lemma TrapezoidalExactOnLines(n: int, f: real -> real, p: real, q: real, a: real, b: real)
    requires n >= 1
    requires forall t :: f(t) == p * t + q
    ensures TrapezoidalRule(n, f, a, b) == p * (b * b - a * a) / 2.0 + q * (b - a)
  {
    var h := Width(n, a, b);
    var nn := n as real;
    assert b == a + nn * h;
    SamplesOfLine(f, p, q, a, h, n);
    assert TrapezoidalSum(f, a, b, Grid(a, h), n) == 2.0 * nn * (p * a + q) + p * h * (nn * nn) by {
      assert f(a) + f(b) == 2.0 * (p * a + q) + p * (nn * h);
      assert ((n * (n - 1)) as real) == nn * nn - nn;
      LineBracket(p * a + q, p, h, nn);
    }
    LineIntegral(p, q, a, h, nn);
  }

  lemma LineBracket(v: real, p: real, h: real, nn: real)
    ensures 2.0 * v + p * (nn * h) + (2.0 * (nn - 1.0) * v + p * h * (nn * nn - nn))
         == 2.0 * nn * v + p * h * (nn * nn)
  {
  }

  lemma LineIntegral(p: real, q: real, a: real, h: real, nn: real)
    ensures (2.0 * nn * (p * a + q) + p * h * (nn * nn)) * (h / 2.0)
         == p * ((a + nn * h) * (a + nn * h) - a * a) / 2.0 + q * (a + nn * h - a)
  {
  }

  /** Simpson's rule with an even number of panels is exact on straight lines. */
  lemma SimpsonExactOnLines(n: int, f: real -> real, p: real, q: real, a: real, b: real)
    requires n >= 2 && n % 2 == 0
    requires forall t :: f(t) == p * t + q
    ensures SimpsonRule(n, f, a, b) == p * (b * b - a * a) / 2.0 + q * (b - a)
  {
    var exact := p * (b * b - a * a) / 2.0 + q * (b - a);
    assert TrapezoidalRule(n, f, a, b) == exact by {
      TrapezoidalExactOnLines(n, f, p, q, a, b);
    }
    assert TrapezoidalRule(n / 2, f, a, b) == exact by {
      TrapezoidalExactOnLines(n / 2, f, p, q, a, b);
    }
    SimpsonIsRichardson(n, f, a, b);
    RichardsonOfEqual(SimpsonRule(n, f, a, b), TrapezoidalRule(n, f, a, b), TrapezoidalRule(n / 2, f, a, b), exact);
  }

  /** Richardson's combination of two estimates that both equal v is v. */
  lemma RichardsonOfEqual(s: real, fine: real, coarse: real, v: real)
    requires s == (4.0 * fine - coarse) / 3.0 && fine == v && coarse == v
    ensures s == v
  {
  }
}
