/**
  The bisection method (`biseccion` and `calcular_biseccion` in
  Metodo_Biseccion.py).  The function whose root is sought is the parameter
  `f`; building it from the formula text is not part of this model.
*/
module Bisection {
  import opened Common

  /** The loop stops once the bracket is narrower than this (1e-6); it is fixed, not an input. */
  const Width: real := 0.000001

  /** One line of the trace `biseccion` returns. */
  datatype Line =
    | Initial(a: real, b: real)                  // the line before the first iteration
    | Heading(index: int)                        // "Iteración i:"
    | LeftEnd(x: real, fx: real)                 // a and f(a)
    | RightEnd(x: real, fx: real)                // b and f(b)
    | Midpoint(x: real, fx: real)                // c and f(c)
    | RootFound(x: real)                         // the loop stopped at c
    | RootApproximated(iterations: int, x: real) // every iteration ran

  /** `2 ** k` as a real. */
  function Pow2(k: nat): (p: real)
    ensures p >= 1.0
  {
    if k == 0 then 1.0 else 2.0 * Pow2(k - 1)
  }

  /** `c = (a + b) / 2`. */
  function Mid(a: real, b: real): real
  {
    (a + b) / 2.0
  }

  /** The test that ends the loop on the bracket [a, b]: `f(c) == 0 or abs(b - a) < 1e-6`. */
  predicate Stops(f: real -> real, a: real, b: real)
  {
    f(Mid(a, b)) == 0.0 || Abs(b - a) < Width
  }

  /** The four lines iteration `i` appends for the bracket [a, b]. */
  function Block(f: real -> real, i: int, a: real, b: real): seq<Line>
  {
    [Heading(i), LeftEnd(a, f(a)), RightEnd(b, f(b)), Midpoint(Mid(a, b), f(Mid(a, b)))]
  }

  /**
    The bracket of the next iteration: `b = c` when `f(a) * f(c) < 0`,
    otherwise `a = c`.
  */
  function Next(f: real -> real, a: real, b: real): (next: (real, real))
    ensures (next.0 == a && next.1 == Mid(a, b)) || (next.0 == Mid(a, b) && next.1 == b)
  {
    var c := Mid(a, b);
    if f(a) * f(c) < 0.0 then (a, c) else (c, b)
  }

  /**
    The next bracket is the left or the right half of [a, b], and a strict
    sign change on [a, b] survives unless `f(c)` is zero.
  */
  lemma NextHalves(f: real -> real, a: real, b: real)
    ensures var next := Next(f, a, b);
      && (a < b ==> a <= next.0 < next.1 <= b && next.1 - next.0 == (b - a) / 2.0)
      && (f(a) * f(b) < 0.0 && f(Mid(a, b)) != 0.0 ==> f(next.0) * f(next.1) < 0.0)
  {
    SignChangeSplits(f(a), f(b), f(Mid(a, b)));
  }

  /** If `fa` and `fb` have opposite signs and `fc` is not zero, `fc` has the opposite sign of one of them. */
  lemma SignChangeSplits(fa: real, fb: real, fc: real)
    ensures fa * fb < 0.0 && fc != 0.0 && !(fa * fc < 0.0) ==> fc * fb < 0.0
  {
    if fa * fb < 0.0 && fc != 0.0 && !(fa * fc < 0.0) {
      if fa > 0.0 {
        assert fb < 0.0 && fc > 0.0;
      } else {
        assert fa < 0.0 && fb > 0.0 && fc < 0.0;
      }
    }
  }

  /** The line that ends the procedure: the root found, or the approximation after every iteration. */
  predicate Closing(line: Line)
  {
    line.RootFound? || line.RootApproximated?
  }

  /**
    The loop from iteration `i` to `n` on the bracket [a, b]; `c` is the
    midpoint the previous iteration computed, which the closing line shows
    once every iteration has run.
  */
  function Iterate(f: real -> real, a: real, b: real, i: int, n: int, c: real): (lines: seq<Line>)
    ensures |lines| > 0 && Closing(lines[|lines| - 1])
    ensures forall j :: 0 <= j < |lines| - 1 ==> !Closing(lines[j])
    decreases n - i
  {
    if i > n then [RootApproximated(n, c)]
    else if Stops(f, a, b) then Block(f, i, a, b) + [RootFound(Mid(a, b))]
    else
      var next := Next(f, a, b);
      Block(f, i, a, b) + Iterate(f, next.0, next.1, i + 1, n, Mid(a, b))
  }

  /** How many iterations the loop runs from iteration `i` to `n` on [a, b]: at least one, at most all. */
  function Iterations(f: real -> real, a: real, b: real, i: int, n: int): (k: nat)
    ensures i <= n ==> 1 <= k <= n - i + 1
    ensures i > n ==> k == 0
    decreases n - i
  {
    if i > n then 0
    else if Stops(f, a, b) then 1
    else
      var next := Next(f, a, b);
      1 + Iterations(f, next.0, next.1, i + 1, n)
  }

  datatype BisectionError =
    | InvalidInterval  // `a >= b` in `calcular_biseccion`
    | MidpointUnbound  // no iteration ran, so the closing line reads an unbound `c`

  /** `biseccion(f, a, b, iteraciones)`: the initial line, the iterations and the closing line. */
  function BisectionTrace(f: real -> real, a: real, b: real, n: int): (r: Result<seq<Line>, BisectionError>)
    ensures r.Err? <==> n < 1
    ensures r.Err? ==> r.error == MidpointUnbound
  {
    if n < 1 then Err(MidpointUnbound)
    else Ok([Initial(a, b)] + Iterate(f, a, b, 1, n, 0.0))
  }

  /** `biseccion`: the loop itself, appending to the trace as it goes. */
  method Bisect(f: real -> real, a: real, b: real, n: int) returns (r: Result<seq<Line>, BisectionError>)
    ensures r == BisectionTrace(f, a, b, n)
  {
    if n < 1 {
      // `range(1, n + 1)` is empty and `c` is never bound.
      return Err(MidpointUnbound);
    }
    var lines := [Initial(a, b)];
    var lo, hi, c := a, b, 0.0;
    var i := 1;
    while i <= n
      invariant 1 <= i <= n + 1
      invariant lines + Iterate(f, lo, hi, i, n, c) == [Initial(a, b)] + Iterate(f, a, b, 1, n, 0.0)
      decreases n - i
    {
      ghost var before, previous, lo0, hi0 := lines, c, lo, hi;
      IterateUnfold(f, lo, hi, i, n, previous);
      c := (lo + hi) / 2.0;
      var fa, fb, fc := f(lo), f(hi), f(c);
      lines := lines + [Heading(i), LeftEnd(lo, fa), RightEnd(hi, fb), Midpoint(c, fc)];
      assert lines == before + Block(f, i, lo0, hi0);
      if fc == 0.0 || Abs(hi - lo) < Width {
        assert Stops(f, lo0, hi0);
        lines := lines + [RootFound(c)];
        AppendAssoc(before, Block(f, i, lo, hi), [RootFound(c)]);
        return Ok(lines);
      }
      if fa * fc < 0.0 {
        hi := c;
      } else {
        lo := c;
      }
      assert (lo, hi) == Next(f, lo0, hi0);
      AppendAssoc(before, Block(f, i, lo0, hi0), Iterate(f, lo, hi, i + 1, n, c));
      i := i + 1;
    }
    lines := lines + [RootApproximated(n, c)];
    r := Ok(lines);
  }

  /** One iteration of `Iterate`, spelt out. */
  lemma IterateUnfold(f: real -> real, a: real, b: real, i: int, n: int, c: real)
    requires i <= n
    ensures Iterate(f, a, b, i, n, c) == Block(f, i, a, b) +
      if Stops(f, a, b) then [RootFound(Mid(a, b))]
      else Iterate(f, Next(f, a, b).0, Next(f, a, b).1, i + 1, n, Mid(a, b))
  {
  }

  /** `calcular_biseccion`: refuses `a >= b`, otherwise runs the method (no sign change is demanded). */
  method CalculateBisection(f: real -> real, a: real, b: real, n: int) returns (r: Result<seq<Line>, BisectionError>)
    ensures r == Err(InvalidInterval) <==> a >= b
    ensures a < b ==> r == BisectionTrace(f, a, b, n)
  {
    if a >= b {
      return Err(InvalidInterval);
    }
    r := Bisect(f, a, b, n);
  }

  // ---------------------------------------------------------------- lemmas

  /** Each iteration writes four lines, and the loop adds one closing line. */
  lemma {:induction false} IterateLength(f: real -> real, a: real, b: real, i: int, n: int, c: real)
    ensures |Iterate(f, a, b, i, n, c)| == 4 * Iterations(f, a, b, i, n) + 1
    decreases n - i
  {
    if i <= n && !Stops(f, a, b) {
      var next := Next(f, a, b);
      IterateLength(f, next.0, next.1, i + 1, n, Mid(a, b));
    }
  }

  /** A trace with k iterations has 4k + 2 lines, and 1 <= k <= n. */
  lemma TraceLength(f: real -> real, a: real, b: real, n: int)
    requires n >= 1
    ensures 1 <= Iterations(f, a, b, 1, n) <= n
    ensures |BisectionTrace(f, a, b, n).value| == 4 * Iterations(f, a, b, 1, n) + 2
  {
    IterateLength(f, a, b, 1, n, 0.0);
  }

  /** The bracket after `k` updates starting from [a, b]. */
  function Bracket(f: real -> real, a: real, b: real, k: nat): (real, real)
    decreases k
  {
    if k == 0 then (a, b)
    else
      var next := Next(f, a, b);
      Bracket(f, next.0, next.1, k - 1)
  }

  /** Every bracket lies within [a, b], is still ordered, and is `2 ** k` times narrower. */
  lemma {:induction false} BracketNested(f: real -> real, a: real, b: real, k: nat)
    requires a < b
    ensures var ab := Bracket(f, a, b, k);
      a <= ab.0 < ab.1 <= b && ab.1 - ab.0 == (b - a) / Pow2(k)
    decreases k
  {
    if k > 0 {
      var next := Next(f, a, b);
      NextHalves(f, a, b);
      BracketNested(f, next.0, next.1, k - 1);
      assert (b - a) / 2.0 / Pow2(k - 1) == (b - a) / Pow2(k);
    }
  }

  /** One more update is `Next` applied to the bracket reached so far. */
  lemma {:induction false} BracketStep(f: real -> real, a: real, b: real, k: nat)
    ensures Bracket(f, a, b, k + 1) == Next(f, Bracket(f, a, b, k).0, Bracket(f, a, b, k).1)
    decreases k
  {
    if k > 0 {
      var next := Next(f, a, b);
      BracketStep(f, next.0, next.1, k - 1);
    }
  }

  /**
    Iteration `k` (counted from 0) writes the block of the bracket reached
    after `k` updates, and every iteration before the last one failed the
    stopping test.
  */
  lemma {:induction false} IterationBlock(f: real -> real, a: real, b: real, i: int, n: int, c: real, k: nat)
    requires k < Iterations(f, a, b, i, n)
    ensures |Iterate(f, a, b, i, n, c)| == 4 * Iterations(f, a, b, i, n) + 1
    ensures
      var ab := Bracket(f, a, b, k);
      && Iterate(f, a, b, i, n, c)[4 * k..4 * k + 4] == Block(f, i + k, ab.0, ab.1)
      && (k + 1 < Iterations(f, a, b, i, n) ==> !Stops(f, ab.0, ab.1))
    decreases k
  {
    IterateLength(f, a, b, i, n, c);
    var lines := Iterate(f, a, b, i, n, c);
    if k == 0 {
      assert lines[..4] == Block(f, i, a, b);
    } else {
      var next := Next(f, a, b);
      var rest := Iterate(f, next.0, next.1, i + 1, n, Mid(a, b));
      assert lines == Block(f, i, a, b) + rest;
      IterationBlock(f, next.0, next.1, i + 1, n, Mid(a, b), k - 1);
      assert lines[4 * k..4 * k + 4] == rest[4 * (k - 1)..4 * (k - 1) + 4];
    }
  }

  /** A strict sign change on [a, b] is still there on the bracket of every iteration that runs. */
  lemma {:induction false} SignChangeKept(f: real -> real, a: real, b: real, i: int, n: int, k: nat)
    requires f(a) * f(b) < 0.0 && k < Iterations(f, a, b, i, n)
    ensures f(Bracket(f, a, b, k).0) * f(Bracket(f, a, b, k).1) < 0.0
    decreases k
  {
    if k > 0 {
      assert !Stops(f, a, b);
      var next := Next(f, a, b);
      NextHalves(f, a, b);
      SignChangeKept(f, next.0, next.1, i + 1, n, k - 1);
    }
  }

  /**
    The closing line: `RootFound(c)` exactly when the last iteration's
    bracket passed the stopping test, otherwise `RootApproximated(n, c)`
    after all `n - i + 1` iterations; `c` is the last midpoint either way.
  */
  lemma {:induction false} ClosingLine(f: real -> real, a: real, b: real, i: int, n: int, c: real)
    requires i <= n
    ensures
      var lines, k := Iterate(f, a, b, i, n, c), Iterations(f, a, b, i, n);
      var ab := Bracket(f, a, b, k - 1);
      && |lines| == 4 * k + 1
      && lines[4 * k] == (if Stops(f, ab.0, ab.1) then RootFound(Mid(ab.0, ab.1)) else RootApproximated(n, Mid(ab.0, ab.1)))
      && (!Stops(f, ab.0, ab.1) ==> k == n - i + 1)
    decreases n - i
  {
    IterateLength(f, a, b, i, n, c);
    var lines, k := Iterate(f, a, b, i, n, c), Iterations(f, a, b, i, n);
    if Stops(f, a, b) {
      assert k == 1 && Bracket(f, a, b, 0) == (a, b);
      assert lines[4] == RootFound(Mid(a, b));
    } else {
      var next := Next(f, a, b);
      var rest := Iterate(f, next.0, next.1, i + 1, n, Mid(a, b));
      assert lines == Block(f, i, a, b) + rest;
      if i == n {
        assert k == 1 && Bracket(f, a, b, 0) == (a, b);
        assert rest == [RootApproximated(n, Mid(a, b))];
        assert lines[4] == rest[0];
      } else {
        ClosingLine(f, next.0, next.1, i + 1, n, Mid(a, b));
        var k' := Iterations(f, next.0, next.1, i + 1, n);
        assert k == k' + 1;
        assert Bracket(f, a, b, k - 1) == Bracket(f, next.0, next.1, k' - 1);
        assert lines[4 * k] == rest[4 * k'];
      }
    }
  }

}
