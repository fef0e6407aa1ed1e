/**
  Newton-Raphson (`newton_raphson` in Met_Newton_Raphson.py).  The function
  and its derivative are the parameters `f` and `df`.
*/
module NewtonRaphson {
  import opened Common

  /** The approximate relative error in percent; `float('inf')` when the new point is 0. */
  datatype RelError = Percent(value: real) | Infinite

  /** One line of the procedure, or one of the two messages that replace it on failure. */
  datatype Line =
    | Iteration(index: int, xi: real, next: real, ea: RelError)
    | ZeroDerivative  // "Derivada nula. Proceso detenido."
    | NoConvergence   // "No se alcanzó la convergencia."

  /** `xi1 = xi - f(xi) / f'(xi)`: where the tangent at `x` crosses zero. */
  function NewtonStep(f: real -> real, df: real -> real, x: real): (x1: real)
    requires df(x) != 0.0
    ensures df(x) * (x - x1) == f(x)
  {
    x - f(x) / df(x)
  }

  /** `ea = abs((xi1 - xi) / xi1) * 100 if xi1 != 0 else float('inf')`. */
  function RelativeError(xi: real, xi1: real): (ea: RelError)
    ensures ea.Infinite? <==> xi1 == 0.0
    ensures ea.Percent? ==> ea.value >= 0.0 && (ea.value == 0.0 <==> xi1 == xi)
  {
    if xi1 != 0.0 then Percent(Abs((xi1 - xi) / xi1) * 100.0) else Infinite
  }

  /** `ea < tol`: infinity is below no tolerance. */
  predicate Below(ea: RelError, tol: real)
  {
    ea.Percent? && ea.value < tol
  }

  /**
    Iterations `i` (from 0) to `n - 1` starting at `x`: the root found and
    the procedure, or no root and the one message that replaces the lines.
  */
  function Run(f: real -> real, df: real -> real, x: real, tol: real, i: int, n: int): (r: (Option<real>, seq<Line>))
    ensures r.0.None? ==> r.1 == [NoConvergence] || r.1 == [ZeroDerivative]
    ensures r.0.Some? ==> 1 <= |r.1| <= n - i
    decreases n - i
  {
    if i >= n then (None, [NoConvergence])
    else if df(x) == 0.0 then (None, [ZeroDerivative])
    else
      var x1 := NewtonStep(f, df, x);
      var ea := RelativeError(x, x1);
      var line := Iteration(i + 1, x, x1, ea);
      if Below(ea, tol) then (Some(x1), [line])
      else Prepend([line], Run(f, df, x1, tol, i + 1, n))
  }

  /** Earlier lines in front of a later outcome; a failure message replaces them. */
  function Prepend(lines: seq<Line>, r: (Option<real>, seq<Line>)): (Option<real>, seq<Line>)
  {
    if r.0.Some? then (r.0, lines + r.1) else r
  }

  lemma PrependTwice(p: seq<Line>, q: seq<Line>, r: (Option<real>, seq<Line>))
    ensures Prepend(p, Prepend(q, r)) == Prepend(p + q, r)
  {
    if r.0.Some? { AppendAssoc(p, q, r.1); }
  }

  /** `newton_raphson(func, xi, tol, max_iter)`: the loop, appending one line per iteration. */
  method NewtonLoop(f: real -> real, df: real -> real, x0: real, tol: real, n: int)
    returns (root: Option<real>, lines: seq<Line>)
    ensures (root, lines) == Run(f, df, x0, tol, 0, n)
  {
    lines := [];
    assert [] + Run(f, df, x0, tol, 0, n).1 == Run(f, df, x0, tol, 0, n).1;
    var xi := x0;
    var i := 0;
    while i < n
      invariant i <= n || i == 0
      invariant Prepend(lines, Run(f, df, xi, tol, i, n)) == Run(f, df, x0, tol, 0, n)
      decreases n - i
    {
      var fx := f(xi);
      var dfx := df(xi);
      if dfx == 0.0 {
        return None, [ZeroDerivative];
      }
      var xi1 := xi - fx / dfx;
      var ea := RelativeError(xi, xi1);
      var line := Iteration(i + 1, xi, xi1, ea);
      lines := lines + [line];
      if ea.Percent? && ea.value < tol {
        return Some(xi1), lines;
      }
      PrependTwice(lines[..|lines| - 1], [line], Run(f, df, xi1, tol, i + 1, n));
      assert lines[..|lines| - 1] + [line] == lines;
      xi := xi1;
      i := i + 1;
    }
    return None, [NoConvergence];
  }

  // ---------------------------------------------------------------- lemmas

  /** The lines of a successful run from iteration `i`: numbering, tangent steps, errors and the chain of points. */
  predicate NewtonSteps(f: real -> real, df: real -> real, tol: real, i: int, lines: seq<Line>)
  {
    && (forall j :: 0 <= j < |lines| ==>
          && lines[j].Iteration?
          && lines[j].index == i + j + 1
          && df(lines[j].xi) != 0.0
          && lines[j].next == NewtonStep(f, df, lines[j].xi)
          && lines[j].ea == RelativeError(lines[j].xi, lines[j].next))
    && (forall j :: 0 <= j < |lines| - 1 ==>
          && !Below(lines[j].ea, tol)
          && lines[j + 1].xi == lines[j].next)
  }

  /**
    What a successful run records: iteration lines numbered from `i + 1`,
    the first on the starting point, each `next` the tangent step from its
    `xi` and each `ea` its relative error, each later line starting where the
    previous one ended after its `ea < tol` test failed, and the root the
    `next` of the last line, the only one whose error is below `tol`.
  */
  lemma {:induction false} RunTrace(f: real -> real, df: real -> real, x: real, tol: real, i: int, n: int)
    requires Run(f, df, x, tol, i, n).0.Some?
    ensures
      var root, lines := Run(f, df, x, tol, i, n).0.value, Run(f, df, x, tol, i, n).1;
      && lines[0].Iteration? && lines[0].xi == x
      && NewtonSteps(f, df, tol, i, lines)
      && Below(lines[|lines| - 1].ea, tol) && root == lines[|lines| - 1].next
    decreases n - i
  {
    var x1 := NewtonStep(f, df, x);
    var line := Iteration(i + 1, x, x1, RelativeError(x, x1));
    if !Below(line.ea, tol) {
      RunTrace(f, df, x1, tol, i + 1, n);
      var rest := Run(f, df, x1, tol, i + 1, n).1;
      assert Run(f, df, x, tol, i, n).1 == [line] + rest;
      ConsTrace(f, df, tol, i, line, rest);
    }
  }

  /** One more line in front of a run's lines. */
  lemma ConsTrace(f: real -> real, df: real -> real, tol: real, i: int, line: Line, rest: seq<Line>)
    requires line.Iteration? && line.index == i + 1 && df(line.xi) != 0.0
    requires line.next == NewtonStep(f, df, line.xi) && line.ea == RelativeError(line.xi, line.next)
    requires !Below(line.ea, tol)
    requires |rest| > 0 && rest[0].Iteration? && rest[0].xi == line.next
    requires NewtonSteps(f, df, tol, i + 1, rest)
    ensures NewtonSteps(f, df, tol, i, [line] + rest)
  {
    var lines := [line] + rest;
    forall j | 0 <= j < |lines| - 1
      ensures !Below(lines[j].ea, tol) && lines[j + 1].xi == lines[j].next
    {
      assert lines[j + 1] == rest[j];
      if j > 0 { assert lines[j] == rest[j - 1]; }
    }
  }

  /** A zero derivative met at any iteration ends the run with the one message. */
  lemma {:induction false} ZeroDerivativeDropsLines(f: real -> real, df: real -> real, x: real, tol: real, i: int, n: int, k: nat)
    requires i + k < n
    requires forall j :: 0 <= j < k ==> df(Points(f, df, x, j)) != 0.0 && !Below(RelativeError(Points(f, df, x, j), Points(f, df, x, j + 1)), tol)
    requires df(Points(f, df, x, k)) == 0.0
    ensures Run(f, df, x, tol, i, n) == (None, [ZeroDerivative])
    decreases k
  {
    if k > 0 {
      assert df(Points(f, df, x, 0)) != 0.0;
      var x1 := NewtonStep(f, df, x);
      assert Points(f, df, x, 1) == x1;
      forall j | 0 <= j <= k - 1
        ensures Points(f, df, x, j + 1) == Points(f, df, x1, j)
      {
        PointsShift(f, df, x, j);
      }
      ZeroDerivativeDropsLines(f, df, x1, tol, i + 1, n, k - 1);
    }
  }

  /** The `k`-th Newton point from `x`; it stalls where the derivative vanishes. */
  function Points(f: real -> real, df: real -> real, x: real, k: nat): (p: real)
    ensures k == 0 ==> p == x
    decreases k
  {
    if k == 0 then x
    else
      var p := Points(f, df, x, k - 1);
      if df(p) != 0.0 then NewtonStep(f, df, p) else p
  }

  lemma {:induction false} PointsShift(f: real -> real, df: real -> real, x: real, j: nat)
    requires forall m :: 0 <= m < j ==> df(Points(f, df, x, m)) != 0.0
    requires df(x) != 0.0
    ensures Points(f, df, x, j + 1) == Points(f, df, NewtonStep(f, df, x), j)
    decreases j
  {
    if j > 0 {
      PointsShift(f, df, x, j - 1);
    }
  }

  /** The error test passes only when the step moved by less than `tol` percent of the new point. */
  lemma BelowMeansSmallStep(xi: real, xi1: real, tol: real)
    requires Below(RelativeError(xi, xi1), tol)
    ensures xi1 != 0.0 && Abs(xi1 - xi) * 100.0 < tol * Abs(xi1)
  {
    var q := (xi1 - xi) / xi1;
    assert q * xi1 == xi1 - xi;
    assert Abs(q) * Abs(xi1) == Abs(xi1 - xi) by {
      if q >= 0.0 {
        if xi1 < 0.0 { assert Abs(xi1 - xi) == -(q * xi1); }
      } else {
        if xi1 < 0.0 { assert Abs(xi1 - xi) == q * xi1; } else { assert Abs(xi1 - xi) == -(q * xi1); }
      }
    }
    assert Abs(q) * 100.0 < tol;
    assert Abs(q) * 100.0 * Abs(xi1) < tol * Abs(xi1);
  }

  /** Started at a non-zero root with a non-zero derivative, the first step stays put and is accepted. */
  lemma StartAtRoot(f: real -> real, df: real -> real, x: real, tol: real, n: int)
    requires f(x) == 0.0 && df(x) != 0.0 && x != 0.0 && tol > 0.0 && n >= 1
    ensures Run(f, df, x, tol, 0, n) == (Some(x), [Iteration(1, x, x, Percent(0.0))])
  {
    assert NewtonStep(f, df, x) == x by {
      assert df(x) * (x - NewtonStep(f, df, x)) == 0.0;
    }
  }

  /** On a straight line `m x + q` one tangent step lands on the root. */
  lemma LinearExact(f: real -> real, df: real -> real, m: real, q: real, x: real)
    requires m != 0.0 && (forall y :: f(y) == m * y + q) && (forall y :: df(y) == m)
    ensures df(x) != 0.0 && f(NewtonStep(f, df, x)) == 0.0
  {
    var x1 := NewtonStep(f, df, x);
    assert m * (x - x1) == m * x + q;
    assert m * x1 + q == 0.0;
  }
}
