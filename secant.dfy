/**
  The secant method (`metodo_secante` in Secante.py).  The function whose
  root is sought is the parameter `f`.
*/
module Secant {
  import opened Common

  /** Below this the two values count as equal and the division is refused (1e-12). */
  const Epsilon: real := 0.000000000001

  /** One trace line: the iteration number, the two points and the new one. */
  datatype Step = Step(index: int, x0: real, x1: real, x2: real)

  datatype SecantError =
    | DivisionByZero  // `abs(f(x1) - f(x0)) < 1e-12`
    | NoRootFound     // every iteration ran without `abs(x2 - x1) < tol`

  /**
    `x2 = x1 - f(x1) * (x1 - x0) / (f(x1) - f(x0))`: where the secant through
    (x0, f(x0)) and (x1, f(x1)) crosses zero.
  */
  function SecantPoint(f: real -> real, x0: real, x1: real): (x2: real)
    requires f(x1) != f(x0)
    ensures (x2 - x1) * (f(x1) - f(x0)) == -f(x1) * (x1 - x0)
  {
    var x2 := x1 - f(x1) * (x1 - x0) / (f(x1) - f(x0));
    assert (x1 - x2) * (f(x1) - f(x0)) == f(x1) * (x1 - x0);
    x2
  }

  /** Iterations `i` (from 1) to `n` of the loop on the points x0, x1. */
  function Run(f: real -> real, x0: real, x1: real, tol: real, i: int, n: int): (r: Result<(real, seq<Step>), SecantError>)
    ensures r.Ok? ==> 1 <= |r.value.1| <= n - i + 1
    decreases n - i
  {
    if i > n then Err(NoRootFound)
    else if Abs(f(x1) - f(x0)) < Epsilon then Err(DivisionByZero)
    else
      var x2 := SecantPoint(f, x0, x1);
      var step := Step(i, x0, x1, x2);
      if Abs(x2 - x1) < tol then Ok((x2, [step]))
      else Prefixed([step], Run(f, x1, x2, tol, i + 1, n))
  }

  /** `metodo_secante(f, x0, x1, tol, max_iter)`: the loop, appending one line per iteration. */
  method SecantMethod(f: real -> real, x0: real, x1: real, tol: real, n: int)
    returns (r: Result<(real, seq<Step>), SecantError>)
    ensures r == Run(f, x0, x1, tol, 1, n)
  {
    var steps: seq<Step> := [];
    PrefixedNothing(Run(f, x0, x1, tol, 1, n));
    var p, q := x0, x1;
    var i := 1;
    while i <= n
      invariant i <= n + 1 || i == 1
      invariant Prefixed(steps, Run(f, p, q, tol, i, n)) == Run(f, x0, x1, tol, 1, n)
      decreases n - i
    {
      var fp, fq := f(p), f(q);
      if Abs(fq - fp) < Epsilon {
        return Err(DivisionByZero);
      }
      var x2 := SecantPoint(f, p, q);
      var step := Step(i, p, q, x2);
      steps := steps + [step];
      if Abs(x2 - q) < tol {
        return Ok((x2, steps));
      }
      p, q := q, x2;
      PrefixedTwice(steps[..|steps| - 1], [step], Run(f, p, q, tol, i + 1, n));
      assert steps[..|steps| - 1] + [step] == steps;
      i := i + 1;
    }
    r := Err(NoRootFound);
  }

  // ---------------------------------------------------------------- lemmas

  /** The lines of a successful secant run that start at iteration `i`: numbering, secant points and the shift of points. */
  predicate SecantSteps(f: real -> real, tol: real, i: int, steps: seq<Step>)
  {
    && (forall j :: 0 <= j < |steps| ==>
          && steps[j].index == i + j
          && Abs(f(steps[j].x1) - f(steps[j].x0)) >= Epsilon
          && steps[j].x2 == SecantPoint(f, steps[j].x0, steps[j].x1))
    && (forall j :: 0 <= j < |steps| - 1 ==>
          && !(Abs(steps[j].x2 - steps[j].x1) < tol)
          && steps[j + 1].x0 == steps[j].x1 && steps[j + 1].x1 == steps[j].x2)
  }

  /**
    What a successful run records: iteration numbers counting up from `i`,
    the first line on the starting points, each `x2` the secant's zero, each
    later line shifted by one point (`x0, x1 = x1, x2`) after the
    `|x2 - x1| < tol` test failed, and the root the `x2` of the last line,
    the only one that passed the test.
  */
  lemma {:induction false} RunTrace(f: real -> real, x0: real, x1: real, tol: real, i: int, n: int)
    requires Run(f, x0, x1, tol, i, n).Ok?
    ensures
      var root, steps := Run(f, x0, x1, tol, i, n).value.0, Run(f, x0, x1, tol, i, n).value.1;
      && steps[0].x0 == x0 && steps[0].x1 == x1
      && SecantSteps(f, tol, i, steps)
      && Abs(steps[|steps| - 1].x2 - steps[|steps| - 1].x1) < tol && root == steps[|steps| - 1].x2
    decreases n - i
  {
    var x2 := SecantPoint(f, x0, x1);
    var step := Step(i, x0, x1, x2);
    if Abs(x2 - x1) < tol {
      assert Run(f, x0, x1, tol, i, n) == Ok((x2, [step]));
    } else {
      RunTrace(f, x1, x2, tol, i + 1, n);
      var tail := Run(f, x1, x2, tol, i + 1, n).value;
      assert Run(f, x0, x1, tol, i, n) == Ok((tail.0, [step] + tail.1));
      assert ([step] + tail.1)[|tail.1|] == tail.1[|tail.1| - 1];
      assert tail.0 == tail.1[|tail.1| - 1].x2;
      ConsTrace(f, tol, i, step, tail.1);
    }
  }

  /** One more line in front of a run's lines. */
  lemma ConsTrace(f: real -> real, tol: real, i: int, step: Step, rest: seq<Step>)
    requires |rest| > 0 && step.index == i && rest[0].x0 == step.x1 && rest[0].x1 == step.x2
    requires Abs(f(step.x1) - f(step.x0)) >= Epsilon && step.x2 == SecantPoint(f, step.x0, step.x1)
    requires !(Abs(step.x2 - step.x1) < tol)
    requires SecantSteps(f, tol, i + 1, rest)
    ensures SecantSteps(f, tol, i, [step] + rest)
  {
    var steps := [step] + rest;
    forall j | 0 <= j < |steps| - 1
      ensures !(Abs(steps[j].x2 - steps[j].x1) < tol)
      ensures steps[j + 1].x0 == steps[j].x1 && steps[j + 1].x1 == steps[j].x2
    {
      assert steps[j + 1] == rest[j];
      if j > 0 { assert steps[j] == rest[j - 1]; }
    }
  }

  /** Started with `x1` already a root, the first secant stays at `x1` and the loop returns it. */
  lemma StartAtRoot(f: real -> real, x0: real, x1: real, tol: real, n: int)
    requires f(x1) == 0.0 && Abs(f(x0)) >= Epsilon && tol > 0.0 && n >= 1
    ensures Run(f, x0, x1, tol, 1, n) == Ok((x1, [Step(1, x0, x1, x1)]))
  {
    assert Abs(f(x1) - f(x0)) >= Epsilon;
    assert SecantPoint(f, x0, x1) == x1 by {
      assert (SecantPoint(f, x0, x1) - x1) * (f(x1) - f(x0)) == 0.0;
    }
  }

  /** On a straight line `m x + q` the first secant lands on the root itself. */
  lemma LinearExact(f: real -> real, m: real, q: real, x0: real, x1: real)
    requires m != 0.0 && x0 != x1 && forall x :: f(x) == m * x + q
    ensures f(x1) != f(x0) && f(SecantPoint(f, x0, x1)) == 0.0
  {
    assert f(x1) - f(x0) == m * (x1 - x0);
    assert m * (x1 - x0) != 0.0;
    var x2 := SecantPoint(f, x0, x1);
    assert (x2 - x1) * m * (x1 - x0) == -f(x1) * (x1 - x0);
    assert (x2 - x1) * m == -f(x1);
    assert m * x2 + q == 0.0;
  }
}
