/**
  Regula falsi (`falsa_posicion` and `calcular` in Falsa_Posicion.py).  The
  function whose root is sought is the parameter `f`.
*/
module FalsePosition {
  import opened Common

  /** One trace line: the iteration number, the bracket, the new point and `f` there. */
  datatype Step = Step(index: int, a: real, b: real, c: real, fc: real)

  datatype FalsePositionError =
    | NoSignChange    // `f(a) * f(b) > 0` in `calcular`
    | DivisionByZero  // `f(b) - f(a) == 0`: the float division raises
    | NoRootFound     // every iteration ran without `abs(f(c)) < tol`

  /**
    `c = (a * f(b) - b * f(a)) / (f(b) - f(a))`: where the chord through
    (a, f(a)) and (b, f(b)) crosses zero.
  */
  function Intercept(f: real -> real, a: real, b: real): (c: real)
    requires f(b) != f(a)
    ensures (c - a) * (f(b) - f(a)) == -f(a) * (b - a)
  {
    var d := f(b) - f(a);
    var c := (a * f(b) - b * f(a)) / d;
    assert c * d == a * f(b) - b * f(a);
    c
  }

  /** `b = c` when `f(a) * f(c) < 0`, otherwise `a = c`: only one end moves. */
  function Next(f: real -> real, a: real, b: real, c: real): (ab: (real, real))
    ensures (ab.0 == a && ab.1 == c) || (ab.0 == c && ab.1 == b)
  {
    if f(a) * f(c) < 0.0 then (a, c) else (c, b)
  }

  /** Iterations `i` (from 0) to `n - 1` of the loop on the bracket (a, b). */
  function Run(f: real -> real, a: real, b: real, tol: real, i: int, n: int): (r: Result<(real, seq<Step>), FalsePositionError>)
    ensures r.Ok? ==> 1 <= |r.value.1| <= n - i
    ensures r != Err(NoSignChange)
    decreases n - i
  {
    if i >= n then Err(NoRootFound)
    else if f(b) - f(a) == 0.0 then Err(DivisionByZero)
    else
      var c := Intercept(f, a, b);
      var step := Step(i + 1, a, b, c, f(c));
      if Abs(f(c)) < tol then Ok((c, [step]))
      else
        var next := Next(f, a, b, c);
        Prefixed([step], Run(f, next.0, next.1, tol, i + 1, n))
  }

  /** `falsa_posicion(f, a, b, tol, max_iter)`: the loop, appending one line per iteration. */
  method FalsePositionLoop(f: real -> real, a: real, b: real, tol: real, n: int)
    returns (r: Result<(real, seq<Step>), FalsePositionError>)
    ensures r == Run(f, a, b, tol, 0, n)
  {
    var steps: seq<Step> := [];
    PrefixedNothing(Run(f, a, b, tol, 0, n));
    var lo, hi := a, b;
    var i := 0;
    while i < n
      invariant i <= n || i == 0
      invariant Prefixed(steps, Run(f, lo, hi, tol, i, n)) == Run(f, a, b, tol, 0, n)
      decreases n - i
    {
      if f(hi) - f(lo) == 0.0 {
        return Err(DivisionByZero);
      }
      var c := (lo * f(hi) - hi * f(lo)) / (f(hi) - f(lo));
      assert c == Intercept(f, lo, hi);
      var step := Step(i + 1, lo, hi, c, f(c));
      steps := steps + [step];
      if Abs(f(c)) < tol {
        return Ok((c, steps));
      }
      ghost var lo0, hi0 := lo, hi;
      if f(lo) * f(c) < 0.0 {
        hi := c;
      } else {
        lo := c;
      }
      PrefixedTwice(steps[..|steps| - 1], [step], Run(f, lo, hi, tol, i + 1, n));
      assert steps[..|steps| - 1] + [step] == steps;
      i := i + 1;
    }
    r := Err(NoRootFound);
  }

  /** `calcular`: refuses an interval without a sign change (a zero product is let through). */
  method CalculateFalsePosition(f: real -> real, a: real, b: real, tol: real, n: int)
    returns (r: Result<(real, seq<Step>), FalsePositionError>)
    ensures r == Err(NoSignChange) <==> f(a) * f(b) > 0.0
    ensures f(a) * f(b) <= 0.0 ==> r == Run(f, a, b, tol, 0, n)
  {
    if f(a) * f(b) > 0.0 {
      return Err(NoSignChange);
    }
    r := FalsePositionLoop(f, a, b, tol, n);
  }

  // ---------------------------------------------------------------- lemmas

  /** With a strict sign change the chord meets zero strictly between the two ends. */
  lemma InterceptBetween(f: real -> real, a: real, b: real)
    requires f(a) * f(b) < 0.0
    ensures f(b) != f(a) && a != b
    ensures Min(a, b) < Intercept(f, a, b) < Max(a, b)
  {
    var fa, fb := f(a), f(b);
    assert fa != 0.0 && fb != 0.0;
    // A square is never negative, so neither the points nor the values coincide.
    assert fa * fa >= 0.0;
    assert a == b ==> fa * fb == fa * fa;
    assert fa == fb ==> fa * fb == fa * fa;
    var c := Intercept(f, a, b);
    var t := fa / (fa - fb);
    assert 0.0 < t < 1.0 by {
      if fa > 0.0 {
        assert fb < 0.0 && fa - fb > fa;
      } else {
        assert fb > 0.0 && fa - fb < fa;
      }
    }
    assert c - a == t * (b - a) by {
      assert (c - a) * (fb - fa) == -fa * (b - a);
      assert (c - a) * (fa - fb) == fa * (b - a);
    }
    assert b - c == (1.0 - t) * (b - a);
    if a < b {
      assert c - a > 0.0 && b - c > 0.0;
    } else {
      assert t * (a - b) > 0.0 && (1.0 - t) * (a - b) > 0.0;
      assert c - a < 0.0 && b - c < 0.0;
    }
  }

  /**
    One update keeps a strict sign change as long as `f(c)` is not zero, and
    the new bracket lies within the old one.
  */
  lemma NextKeepsSignChange(f: real -> real, a: real, b: real)
    requires f(a) * f(b) < 0.0 && f(Intercept(f, a, b)) != 0.0
    ensures
      var next := Next(f, a, b, Intercept(f, a, b));
      && f(next.0) * f(next.1) < 0.0
      && Min(a, b) <= Min(next.0, next.1) && Max(next.0, next.1) <= Max(a, b)
  {
    InterceptBetween(f, a, b);
    var fa, fb, fc := f(a), f(b), f(Intercept(f, a, b));
    if !(fa * fc < 0.0) {
      if fa > 0.0 {
        assert fb < 0.0 && fc > 0.0;
      } else {
        assert fb > 0.0 && fc < 0.0;
      }
    }
  }

  /** The lines of a successful run from iteration `i + 1`: numbering, chord intercepts and bracket updates. */
  predicate ChordSteps(f: real -> real, tol: real, i: int, steps: seq<Step>)
  {
    && (forall j :: 0 <= j < |steps| ==>
          && steps[j].index == i + j + 1
          && f(steps[j].b) != f(steps[j].a)
          && steps[j].c == Intercept(f, steps[j].a, steps[j].b)
          && steps[j].fc == f(steps[j].c))
    && (forall j :: 0 <= j < |steps| - 1 ==>
          && !(Abs(steps[j].fc) < tol)
          && (steps[j + 1].a, steps[j + 1].b) == Next(f, steps[j].a, steps[j].b, steps[j].c))
  }

  /**
    What a successful run records: iteration numbers counting up from
    `i + 1`, the first line on the starting bracket, each `c` the chord's
    intercept on its line's bracket, each later bracket the update of the
    previous one after its `|f(c)| < tol` test failed, and the root the `c`
    of the last line, the only one that passed the test.
  */
  lemma {:induction false} RunTrace(f: real -> real, a: real, b: real, tol: real, i: int, n: int)
    requires Run(f, a, b, tol, i, n).Ok?
    ensures
      var root, steps := Run(f, a, b, tol, i, n).value.0, Run(f, a, b, tol, i, n).value.1;
      && steps[0].a == a && steps[0].b == b
      && ChordSteps(f, tol, i, steps)
      && Abs(steps[|steps| - 1].fc) < tol && root == steps[|steps| - 1].c
    decreases n - i
  {
    var c := Intercept(f, a, b);
    var step := Step(i + 1, a, b, c, f(c));
    if Abs(f(c)) < tol {
      assert Run(f, a, b, tol, i, n) == Ok((c, [step]));
    } else {
      var next := Next(f, a, b, c);
      RunTrace(f, next.0, next.1, tol, i + 1, n);
      var tail := Run(f, next.0, next.1, tol, i + 1, n).value;
      assert Run(f, a, b, tol, i, n) == Ok((tail.0, [step] + tail.1));
      assert ([step] + tail.1)[|tail.1|] == tail.1[|tail.1| - 1];
      assert tail.0 == tail.1[|tail.1| - 1].c;
      ConsTrace(f, tol, i, step, tail.1);
    }
  }

  /** One more line in front of a run's lines. */
  lemma ConsTrace(f: real -> real, tol: real, i: int, step: Step, rest: seq<Step>)
    requires |rest| > 0 && step.index == i + 1 && (rest[0].a, rest[0].b) == Next(f, step.a, step.b, step.c)
    requires f(step.b) != f(step.a) && step.c == Intercept(f, step.a, step.b) && step.fc == f(step.c)
    requires !(Abs(step.fc) < tol)
    requires ChordSteps(f, tol, i + 1, rest)
    ensures ChordSteps(f, tol, i, [step] + rest)
  {
    var steps := [step] + rest;
    forall j | 0 <= j < |steps| - 1
      ensures !(Abs(steps[j].fc) < tol)
      ensures (steps[j + 1].a, steps[j + 1].b) == Next(f, steps[j].a, steps[j].b, steps[j].c)
    {
      assert steps[j + 1] == rest[j];
      if j > 0 { assert steps[j] == rest[j - 1]; }
    }
  }

  /**
    Started on a strict sign change inside [lo, hi] with a positive
    tolerance, the loop never divides by zero, every bracket it records
    keeps the sign change and stays inside [lo, hi], every `c` lies strictly
    between its bracket's ends, and so does the root it returns.
  */
  lemma {:induction false} RunStaysInBracket(f: real -> real, a: real, b: real, tol: real, i: int, n: int, lo: real, hi: real)
    requires tol > 0.0 && f(a) * f(b) < 0.0 && lo <= Min(a, b) && Max(a, b) <= hi
    ensures Run(f, a, b, tol, i, n) != Err(DivisionByZero)
    ensures Run(f, a, b, tol, i, n).Ok? ==>
      var (root, steps) := Run(f, a, b, tol, i, n).value;
      && (forall j :: 0 <= j < |steps| ==>
            && f(steps[j].a) * f(steps[j].b) < 0.0
            && lo <= Min(steps[j].a, steps[j].b) && Max(steps[j].a, steps[j].b) <= hi
            && Min(steps[j].a, steps[j].b) < steps[j].c < Max(steps[j].a, steps[j].b))
      && lo < root < hi
    decreases n - i
  {
    if i < n {
      InterceptBetween(f, a, b);
      var c := Intercept(f, a, b);
      if !(Abs(f(c)) < tol) {
        NextKeepsSignChange(f, a, b);
        var next := Next(f, a, b, c);
        RunStaysInBracket(f, next.0, next.1, tol, i + 1, n, lo, hi);
        if Run(f, a, b, tol, i, n).Ok? {
          var rest := Run(f, next.0, next.1, tol, i + 1, n).value.1;
          var steps := Run(f, a, b, tol, i, n).value.1;
          assert steps == [Step(i + 1, a, b, c, f(c))] + rest;
          assert forall j :: 1 <= j < |steps| ==> steps[j] == rest[j - 1];
        }
      }
    }
  }

  /**
    `calcular` lets a zero product through: when `f(a)` is already zero the
    first chord meets zero at `a` and the loop returns it at once.
  */
  lemma EndpointRoot(f: real -> real, a: real, b: real, tol: real, n: int)
    requires f(a) == 0.0 && f(b) != 0.0 && tol > 0.0 && n >= 1
    ensures Run(f, a, b, tol, 0, n) == Ok((a, [Step(1, a, b, a, 0.0)]))
  {
    assert Intercept(f, a, b) == a by {
      assert (Intercept(f, a, b) - a) * (f(b) - f(a)) == 0.0;
    }
  }

  /** On a straight line `m x + q` the first chord lands on the root itself. */
  lemma LinearExact(f: real -> real, m: real, q: real, a: real, b: real)
    requires m != 0.0 && a != b && forall x :: f(x) == m * x + q
    ensures f(b) != f(a) && f(Intercept(f, a, b)) == 0.0
  {
    assert f(b) - f(a) == m * (b - a);
    var c := Intercept(f, a, b);
    assert (c - a) * m * (b - a) == -f(a) * (b - a);
    assert (c - a) * m == -f(a);
    assert m * c + q == 0.0;
  }
}
