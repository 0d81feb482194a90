/** `NewtonRaphson::solve` of lab_02.cpp: from x0 take the Newton step
  * x1 = x0 - f(x0)/fd(x0), and keep stepping from the newest point while the last
  * step was longer than eps; the answer is the newest point.
  *
  * Over exact reals two things the C++ loop leaves open need a value:
  *  - a zero slope fd(x) == 0 would divide by zero; the model stops with `ZeroSlope(x)`;
  *  - the loop has no cap; the model runs at most `fuel` repetitions of the loop body
  *    and stops with `OutOfFuel(x1)` when they are used up. */
module NewtonRaphson {

  function Abs(x: real): real {
    if x < 0.0 then -x else x
  }

  datatype Outcome =
    | Converged(root: real, previous: real)  // the loop ended: |root - previous| <= eps
    | ZeroSlope(at: real)                    // fd(at) == 0, the next step is undefined
    | OutOfFuel(estimate: real)              // still moving after the allowed repetitions

  /** One Newton step from x: the point where the tangent to f at x crosses zero. */
  function Step(f: real -> real, fd: real -> real, x: real): (r: real)
    requires fd(x) != 0.0
    ensures f(x) + fd(x) * (r - x) == 0.0
  {
    x - f(x) / fd(x)
  }

  /** The result of solving from x0 with `fuel` repetitions of the loop body available. */
  function Newton(f: real -> real, fd: real -> real, x0: real, eps: real, fuel: nat): (r: Outcome)
    ensures r.Converged? ==>
              fd(r.previous) != 0.0 && r.root == Step(f, fd, r.previous) && Abs(r.root - r.previous) <= eps
    ensures r.ZeroSlope? ==> fd(r.at) == 0.0
    decreases fuel
  {
    if fd(x0) == 0.0 then ZeroSlope(x0)
    else
      var x1 := Step(f, fd, x0);
      if Abs(x1 - x0) <= eps then Converged(x1, x0)
      else if fuel == 0 then OutOfFuel(x1)
      else Newton(f, fd, x1, eps, fuel - 1)
  }

  /** `solve`, with its `while` loop: `previous` plays x0 and `next` plays x1. */
  method Solve(f: real -> real, fd: real -> real, x0: real, eps: real, fuel: nat) returns (r: Outcome)
    ensures r == Newton(f, fd, x0, eps, fuel)
  {
    if fd(x0) == 0.0 {
      return ZeroSlope(x0);
    }
    var previous := x0;
    var next := Step(f, fd, x0);
    var left := fuel;
    while Abs(next - previous) > eps
      invariant fd(previous) != 0.0 && next == Step(f, fd, previous)
      invariant Newton(f, fd, previous, eps, left) == Newton(f, fd, x0, eps, fuel)
      decreases left
    {
      if left == 0 {
        return OutOfFuel(next);
      }
      if fd(next) == 0.0 {
        return ZeroSlope(next);
      }
      previous := next;
      next := Step(f, fd, previous);
      left := left - 1;
    }
    r := Converged(next, previous);
  }

  /** Started on an exact root with a usable slope, the first step does not move, so the
    * loop body never runs and the root itself is returned. */
  lemma RootIsFixed(f: real -> real, fd: real -> real, x0: real, eps: real, fuel: nat)
    requires f(x0) == 0.0 && fd(x0) != 0.0 && eps >= 0.0
    ensures Newton(f, fd, x0, eps, fuel) == Converged(x0, x0)
  {
    assert f(x0) / fd(x0) == 0.0;
  }

  /** More fuel changes nothing once the iteration has stopped for another reason. */
  lemma {:induction false} FuelMonotone(f: real -> real, fd: real -> real, x0: real, eps: real, fuel: nat, more: nat)
    requires fuel <= more
    requires !Newton(f, fd, x0, eps, fuel).OutOfFuel?
    ensures Newton(f, fd, x0, eps, more) == Newton(f, fd, x0, eps, fuel)
    decreases fuel
  {
    if fd(x0) != 0.0 && Abs(Step(f, fd, x0) - x0) > eps {
      FuelMonotone(f, fd, Step(f, fd, x0), eps, fuel - 1, more - 1);
    }
  }

  /** Where the loop stops, the last Newton correction is small: |f(x)| <= eps·|fd(x)| at the
    * point the final step was taken from. */
  lemma ConvergedResidual(f: real -> real, fd: real -> real, x0: real, eps: real, fuel: nat)
    requires Newton(f, fd, x0, eps, fuel).Converged?
    ensures var x := Newton(f, fd, x0, eps, fuel).previous; Abs(f(x)) <= eps * Abs(fd(x))
  {
    var x := Newton(f, fd, x0, eps, fuel).previous;
    assert Abs(f(x) / fd(x)) == Abs(Step(f, fd, x) - x);
    QuotientBound(f(x), fd(x), eps);
  }

  /** A Newton step lands where the tangent at x crosses zero, so what is left of f at the
    * new point is exactly the remainder of that tangent. */
  lemma TangentLanding(f: real -> real, fd: real -> real, x: real, rem: real)
    requires fd(x) != 0.0
    requires f(Step(f, fd, x)) - f(x) - (Step(f, fd, x) - x) * fd(x) == rem
    ensures f(Step(f, fd, x)) == rem
  {
  }

  /** With tolerance zero the loop only stops on a fixed point, which is an exact root. */
  lemma ZeroToleranceIsExact(f: real -> real, fd: real -> real, x0: real, fuel: nat)
    requires Newton(f, fd, x0, 0.0, fuel).Converged?
    ensures var r := Newton(f, fd, x0, 0.0, fuel); f(r.previous) == 0.0 && r.root == r.previous
  {
    ConvergedResidual(f, fd, x0, 0.0, fuel);
  }

  /** |q / d| <= eps gives |q| <= eps·|d| when d != 0. */
  lemma QuotientBound(q: real, d: real, eps: real)
    requires d != 0.0
    requires Abs(q / d) <= eps
    ensures Abs(q) <= eps * Abs(d)
  {
    var r := q / d;
    assert q == r * d;
    assert Abs(r) <= eps;
    ProductAbs(r, d);
    MonotoneProduct(Abs(r), eps, Abs(d));
  }

  lemma ProductAbs(r: real, d: real)
    ensures Abs(r * d) == Abs(r) * Abs(d)
  {
  }

  lemma MonotoneProduct(u: real, eps: real, w: real)
    requires u <= eps && w >= 0.0
    ensures u * w <= eps * w
  {
  }
}
