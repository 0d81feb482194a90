# Numerical-methods lab routines, modelled and proved in Dafny

This project models the four numerical routines at the core of the lab code and
proves what they compute, over Dafny's exact `real` numbers in place of C++ `double`:

- **Composite quadrature** (`quadrature.dfy`, module `Quadrature`): `trapezoidal` and
  `simpsons` from `main.cpp`. Both are methods with the source's loop. They are proved
  equal to the closed-form rules `TrapezoidalRule` and `SimpsonRule`, which use panel
  width h = (b - a)/n and grid points a + i·h. The lemmas cover the single-panel cases,
  the empty interval, constants (Simpson's rule with odd n is off by the factor
  (3n - 1)/(3n)), linearity in the integrand, exactness on straight lines, and Simpson's
  rule as the Richardson combination (4·T(2m) - T(m))/3 of two trapezoidal rules.
- **Least squares** (`regression.dfy`, module `Regression`): the `LeastSquares` class of
  `lab_02.cpp`. The constructor fills the four sum fields and runs the source's Σx·y loop.
  `M()` and `C()` are the two quotients. The source's naming is kept: `M()` is the
  **intercept** and `C()` the **slope**; the caller depends on this when it computes
  k = exp(m) and a = -c. Both quotients are proved to be the one solution of the normal
  equations. On the data this means the fitted line leaves residuals that sum to zero and
  are orthogonal to x, and that exact lines are recovered. The shared denominator is proved
  to be never negative, and zero exactly when all x are equal.
- **Newton–Raphson** (`newton.dfy`, module `NewtonRaphson`): `NewtonRaphson::solve` as a
  method with the source's `while` loop, proved equal to a recursive definition `Newton`.
  The result is an `Outcome`. `Converged(root, previous)` is the C++ return value x1
  together with the point the last step started from. `ZeroSlope(x)` means the next step
  would divide by zero. `OutOfFuel(x1)` means the allowed number of loop repetitions ran
  out.
- **Pillar design** (`pillar.dfy`, module `PillarDesign`): the caller in `lab_02()`. It
  builds the coefficients A1..A4, the cubic `g` and its derivative `dg`, the single solve from
  100 with tolerance 1e-4, and the table over vertical depths and gallery widths. The cubic
  is proved to be pillar strength times pillar area minus the factored tributary load, and
  `dg` is proved to be its derivative.

Note on naming: a description of the regression as "slope m, intercept c" would be the
reverse of what the code computes (`m()` is the intercept, lab_02.cpp:25-27; `c()` the
slope, lab_02.cpp:29-31). The model follows the code. Likewise Simpson's rule is meant for
even n, but `simpsons` does not check the parity; the model follows the code and states
what the rule returns for odd n.

## Model

| member | source | states |
|---|---|---|
| `Quadrature.Trapezoidal` | main.cpp:40-49 | the loop's result equals h/2·(f(a) + f(b) + 2·Σ f(a + i·h) over 1 <= i < n), with h = (b - a)/n; the invariant is the partial sum after each step; for n <= 0 the loop runs zero times as in C++; n == 0 is excluded because it divides by zero |
| `Quadrature.Simpsons` | main.cpp:60-72 | the loop's result equals h/3·(f(a) + f(b) + 4·Σ odd-index samples + 2·Σ even-index interior samples); the invariant keeps both partial sums; parity of n is not checked, as in the source |
| `Quadrature.TrapezoidalSinglePanel` | main.cpp:43-46 | with n = 1 the loop does not run and the result is (b - a)/2·(f(a) + f(b)) |
| `Quadrature.SimpsonSinglePanel` | main.cpp:60-69 | with n = 2 the result is (b - a)/6·(f(a) + 4·f((a + b)/2) + f(b)), i.e. h/3·(f(a) + 4·f(a + h) + f(b)) |
| `Quadrature.EmptyInterval` | main.cpp:41-69 | when a == b both rules return 0 for every n != 0, because h = 0 |
| `Quadrature.TrapezoidalOfConstant` | main.cpp:41-46 | for f ≡ c and every n >= 1 the trapezoidal rule returns c·(b - a) |
| `Quadrature.SimpsonOfConstant` | main.cpp:61-69 | for f ≡ c Simpson's rule returns c·(b - a) when n is even, and c·(b - a)·(3n - 1)/(3n) when n is odd (the driver only passes even n, main.cpp:151) |
| `Quadrature.TrapezoidalLinear` | main.cpp:43-46 | the trapezoidal rule is linear in f: the rule of α·f + β·g is α·T(f) + β·T(g) for the same n, a, b |
| `Quadrature.SimpsonLinear` | main.cpp:63-69 | Simpson's rule is linear in f in the same sense |
| `Quadrature.SimpsonIsRichardson` | main.cpp:40-72 | for even n = 2m, Simpson's rule equals (4·T(2m) - T(m))/3, where T is the trapezoidal rule of the same file |
| `Quadrature.TrapezoidalExactOnLines` | main.cpp:40-49 | for f(t) = p·t + q and every n >= 1 the trapezoidal rule returns the exact integral p·(b² - a²)/2 + q·(b - a) |
| `Quadrature.SimpsonExactOnLines` | main.cpp:60-72 | for even n >= 2 Simpson's rule returns the exact integral of every straight line |
| `Regression.LeastSquares.constructor` | lab_02.cpp:13-23 | the lengths must agree (the source's assert); afterwards n == \|x\|, and sumX, sumY, sumX2, sumXY are Σx, Σy, Σx², Σx·y of the given data; the Σx·y loop keeps the partial sum over the prefix |
| `Regression.LeastSquares.M` | lab_02.cpp:25-27 | `m()` returns the intercept t; with the slope it satisfies the first normal equation n·t + s·Σx == Σy, so the fitted line passes through the centroid |
| `Regression.LeastSquares.C` | lab_02.cpp:29-31 | `c()` returns the slope s; with the intercept it satisfies the second normal equation t·Σx + s·Σx² == Σxy |
| `Regression.NormalEquationsSolved` | lab_02.cpp:25-31 | when n·Σx² - (Σx)² != 0, a pair (t, s) solves both normal equations if and only if t is the `m()` quotient and s the `c()` quotient |
| `Regression.LeastSquares.DenominatorVanishes` | lab_02.cpp:26-30 | the shared denominator n·Σx² - (Σx)² is never negative, and it is zero exactly when all x are equal (so for n = 0 and n = 1 too) |
| `Regression.SpreadNonNegative` | lab_02.cpp:26-30 | n·Σx² - (Σx)² >= 0 for every data sequence, by induction: appending v adds Σ (x_i - v)² |
| `Regression.SpreadZeroIff` | lab_02.cpp:26-30 | n·Σx² - (Σx)² == 0 if and only if all values are equal |
| `Regression.LeastSquaresLine` | lab_02.cpp:16-31 | on the data, the residuals of t + s·x sum to zero and are orthogonal to x exactly when t and s are the two quotients |
| `Regression.LeastSquares.FitCharacterised` | lab_02.cpp:25-31 | the same characterisation of (`M()`, `C()`) for a constructed object |
| `Regression.LeastSquares.ExactLineRecovered` | lab_02.cpp:25-31 | if every y_i == t + s·x_i and the denominator is nonzero, `C()` returns s and `M()` returns t |
| `NewtonRaphson.Step` | lab_02.cpp:42 | the update x0 - f(x0)/fd(x0) (also lab_02.cpp:46) is where the tangent to f at x0 crosses zero: f(x0) + fd(x0)·(x1 - x0) == 0; it needs fd(x0) != 0 |
| `NewtonRaphson.Newton` | lab_02.cpp:41-52 | a `Converged` result is one Newton step from its `previous` point, where fd != 0, and the step is no longer than eps; a `ZeroSlope` result names a point where fd == 0 |
| `NewtonRaphson.Solve` | lab_02.cpp:41-52 | the loop, which reassigns x0 and x1 while \|x1 - x0\| > eps, returns exactly `Newton(f, fd, x0, eps, fuel)` |
| `NewtonRaphson.RootIsFixed` | lab_02.cpp:42-44 | started on an exact root with fd(x0) != 0 and eps >= 0, the loop body never runs and x0 is returned |
| `NewtonRaphson.FuelMonotone` | lab_02.cpp:44-47 | a result other than `OutOfFuel` stays the same for any larger number of allowed repetitions |
| `NewtonRaphson.ConvergedResidual` | lab_02.cpp:42-47 | where the loop stops, \|f(x)\| <= eps·\|fd(x)\| at the point the last step started from |
| `NewtonRaphson.TangentLanding` | lab_02.cpp:46 | after one step x1 = x0 - f(x0)/fd(x0), f(x1) equals the remainder f(x1) - f(x0) - (x1 - x0)·fd(x0) of the tangent at x0: the linear part is cancelled |
| `NewtonRaphson.ZeroToleranceIsExact` | lab_02.cpp:44-51 | with eps = 0 the loop stops only on an exact root, and it returns that root |
| `PillarDesign.Coefficients` | lab_02.cpp:107-110 | the coefficients A1..A4 (the same formulas with depth d and gallery width w at lab_02.cpp:146-149) make a cubic whose value at every x is S1·10⁶·(0.64 + 0.36·x/Hp)·x² - FOS·γ·d·(x + w)²: pillar strength times pillar area minus the factored tributary load |
| `PillarDesign.Eval` | lab_02.cpp:118-120 | the lambda `g` (and `f`, lab_02.cpp:151-153), A1·x³ + A2·x² + A3·x + A4; it has no contract of its own, and its meaning for the design cubic is the ensures of `Coefficients` |
| `PillarDesign.Derivative` | lab_02.cpp:121-123 | the lambda `dg` (and `df`, lab_02.cpp:154-156) is the derivative of `g`: for every y, g(y) - g(x) - (y - x)·dg(x) == (y - x)²·(3·A1·x + A2 + A1·(y - x)), a remainder of second order |
| `PillarDesign.DesignWidthResidual` | lab_02.cpp:146-158 | where a design width converged, \|g(x)\| <= 1e-4·\|dg(x)\| at the point x the last Newton step started from (the iterate before the returned width) |
| `PillarDesign.DesignWidthBalanced` | lab_02.cpp:146-158 | where a design width converged, strength times area and factored load differ by at most 1e-4·\|dg(x)\| at the point x the last Newton step started from (the iterate before the returned width) |
| `PillarDesign.DesignWidthRootResidual` | lab_02.cpp:146-158 | at the returned width itself (the `root` of a converged design width, reached in one step from x), g(root) == (root - x)²·(3·A1·x + A2 + A1·(root - x)), and \|root - x\| <= 1e-4 |
| `PillarDesign.CubicLanding` | lab_02.cpp:46 | one Newton step on the design cubic from x, where dg(x) != 0, leaves exactly the second-order tangent remainder (root - x)²·(3·A1·x + A2 + A1·(root - x)) at the new point |
| `PillarDesign.RootBound` | lab_02.cpp:44 | with that remainder and a last step no longer than the tolerance 1e-4, \|g(root)\| <= 1e-8·\|3·A1·x + A2 + A1·(root - x)\| |
| `PillarDesign.PillarWidth` | lab_02.cpp:105-127 | the single design solves the cubic for depth 200 and gallery width 4.5 from 100 with tolerance 1e-4 |
| `PillarDesign.AnswerTable` | lab_02.cpp:130-161 | the table has one row per vertical depth (60..360 plus 3) and one column per gallery width (3, 3.6, 4, 4.2, 4.8), and each entry is the design width for that pair |
| `PillarDesign.SizeEffectRecovered` | lab_02.cpp:85-98 | on (ln l, ln S) data that obeys ln S = ln k - a·ln l exactly, `m()` returns ln k and `-c()` returns a, as the caller assumes when it sets k = exp(m) and a = -c |

## Left out

- Floating point: rounding, overflow, NaN and infinities of `double` are not modelled. All arithmetic is exact `real` arithmetic.
- `Quadrature.Trapezoidal`: n == 0 is a precondition rather than the division by zero it causes in C++. The same holds for `Quadrature.Simpsons`. Overflow of the `int` loop counter is not modelled.
- `Regression.LeastSquares.M`: the source divides by n·Σx² - (Σx)² without a guard. The model requires it to be nonzero, and the same holds for `Regression.LeastSquares.C`.
- `NewtonRaphson.Solve`: the source loop has no cap. The model runs at most `fuel` repetitions of the body, and `FuelMonotone` shows extra fuel never changes a finished result. A zero slope, where the source would divide by zero and continue with an infinite or NaN value, stops the model with `ZeroSlope`.
- `NewtonRaphson.Newton`: nothing is stated about `OutOfFuel` results, and convergence rates are not stated.
- The `catch (...)` block of `solve` (lab_02.cpp:48-50) is not modelled: exact arithmetic and the polynomial callables never throw.
- Transcendental calls are not modelled: `log` of the sample data (lab_02.cpp:76), `exp(m)` and `pow(1000, -a)` (lab_02.cpp:95-100). S1 is a parameter of the pillar design, and `SizeEffectRecovered` states the fit on data already in log form.
- The factor of safety read from the console (lab_02.cpp:56-59) is a parameter. The sample sizes and strengths (lab_02.cpp:66-67) are not part of this model, since only their logarithms enter the fit.
- `PillarDesign.PillarWidth`: it returns an `Outcome` rather than a `double`, and the same holds for `PillarDesign.AnswerTable`. The C++ value is the `root` of a `Converged` outcome.
- Console output and table printing (main.cpp:163-203; lab_02.cpp:80-116, 163-178) are not modelled.
- The test integrands `F1`, `F2` and their true values (main.cpp:10-29) are not modelled. The same holds for the percent-error driver (main.cpp:134-160) and the pbPlot plotting (main.cpp:83-132).
- Simpson's exactness on cubics is proved only for straight lines. Error bounds for general integrands are not stated; they are real-analysis facts the code only relies on.
