/**
  Matrix inverse by Gauss-Jordan elimination without pivoting
  (`gauss_jordan` in Matriz_Inversa.py).  The source reduces the matrix
  `[A | I]` in place with exact fractions; here the two halves are two
  `array2<real>`, and the functional reference `ReduceFrom` says what the
  arrays hold after each pivot row.
*/
module Inverse {
  import opened Common
  import opened Matrix
  import opened Multiplication

  // ------------------------------------------------- functional reference

  /** Row `i` divided by `p`; the other rows unchanged. */
  function ScaleRow(x: Matrix, i: nat, p: real): (y: Matrix)
    requires i < |x| && p != 0.0
    ensures |y| == |x| && forall k :: 0 <= k < |x| ==> |y[k]| == |x[k]|
    ensures forall k :: 0 <= k < |x| && k != i ==> y[k] == x[k]
  {
    x[i := DivideAll(x[i], p)]
  }

  /** The rows `r < k`, `r != i`, minus `factors[r]` times row `i`; the other rows unchanged. */
  function EliminateRows(x: Matrix, i: nat, factors: seq<real>, k: nat): (y: Matrix)
    requires i < |x| && |factors| == |x| && forall r :: 0 <= r < |x| ==> |x[r]| == |x[i]|
    ensures |y| == |x| && forall r :: 0 <= r < |x| ==> |y[r]| == |x[r]|
    ensures y[i] == x[i]
  {
    seq(|x|, r requires 0 <= r < |x| =>
      if r < k && r != i then SubtractScaled(x[r], x[i], factors[r]) else x[r])
  }

  /** Every row `k != i` minus `factors[k]` times row `i`. */
  function Eliminate(x: Matrix, i: nat, factors: seq<real>): (y: Matrix)
    requires i < |x| && |factors| == |x| && forall k :: 0 <= k < |x| ==> |x[k]| == |x[i]|
    ensures |y| == |x| && forall k :: 0 <= k < |x| ==> |y[k]| == |x[k]|
    ensures y[i] == x[i]
  {
    EliminateRows(x, i, factors, |x|)
  }

  /** The pair `(matriz, identidad)` as the reduction goes on. */
  datatype Halves = Halves(m: Matrix, e: Matrix)

  predicate SquarePair(s: Halves, n: nat)
  {
    HasShape(s.m, n, n) && HasShape(s.e, n, n)
  }

  /**
    One pass of the outer loop for row `i`: divide row `i` of both halves by
    the pivot `m[i][i]`, then subtract from every other row `k` the multiple
    `m[k][i]` of row `i`, in both halves.
  */
  function PivotStep(s: Halves, i: nat): (t: Halves)
    requires SquarePair(s, |s.m|) && i < |s.m| && s.m[i][i] != 0.0
    ensures SquarePair(t, |s.m|)
  {
    var p := s.m[i][i];
    var m1, e1 := ScaleRow(s.m, i, p), ScaleRow(s.e, i, p);
    var factors := Column(m1, i, |m1|);
    Halves(Eliminate(m1, i, factors), Eliminate(e1, i, factors))
  }

  /**
    The outer loop from row `i` on: stop with `Err(i)` at the first zero on
    the diagonal, otherwise take the pivot step and go on with row `i + 1`.
  */
  function ReduceFrom(s: Halves, i: nat): (r: Result<Halves, nat>)
    requires SquarePair(s, |s.m|) && i <= |s.m|
    ensures r.Ok? ==> SquarePair(r.value, |s.m|)
    ensures r.Err? ==> i <= r.error < |s.m|
    decreases |s.m| - i
  {
    if i == |s.m| then Ok(s)
    else if s.m[i][i] == 0.0 then Err(i)
    else ReduceFrom(PivotStep(s, i), i + 1)
  }

  /** The pair `(matriz, identidad)` before the first row. */
  function Start(a: Matrix): (s: Halves)
    requires IsSquare(a)
    ensures SquarePair(s, |a|) && s.m == a
  {
    Halves(a, Identity(|a|))
  }

  /**
    `gauss_jordan` as a function: the right half after all rows, or the row
    with a zero pivot.  With no row swaps, a zero top-left entry fails at once.
  */
  function GaussJordan(a: Matrix): (r: Result<Matrix, nat>)
    requires IsSquare(a)
    ensures r.Ok? ==> HasShape(r.value, |a|, |a|)
    ensures r.Err? ==> r.error < |a|
    ensures |a| > 0 ==> (r == Err(0) <==> a[0][0] == 0.0)
  {
    match ReduceFrom(Start(a), 0)
    case Ok(s) => Ok(s.e)
    case Err(i) => Err(i)
  }

  // ------------------------------------------------------------- in place

  /** The entries of a two-dimensional array as rows. */
  function Grid(a: array2<real>): (g: Matrix)
    reads a
    ensures HasShape(g, a.Length0, a.Length1)
    ensures forall i, j :: 0 <= i < a.Length0 && 0 <= j < a.Length1 ==> g[i][j] == a[i, j]
  {
    seq(a.Length0, i requires 0 <= i < a.Length0 reads a =>
      seq(a.Length1, j requires 0 <= j < a.Length1 reads a => a[i, j]))
  }

  /** `for j in range(n): matriz[i][j] /= pivote; identidad[i][j] /= pivote`. */
  method DivideRow(a: array2<real>, e: array2<real>, i: nat, p: real)
    requires a != e && a.Length0 == a.Length1 == e.Length0 == e.Length1 && i < a.Length0 && p != 0.0
    modifies a, e
    ensures Grid(a) == ScaleRow(old(Grid(a)), i, p)
    ensures Grid(e) == ScaleRow(old(Grid(e)), i, p)
  {
    var n := a.Length0;
    ghost var a0, e0 := Grid(a), Grid(e);
    for j := 0 to n
      invariant forall r, c :: 0 <= r < n && 0 <= c < n ==>
        a[r, c] == if r == i && c < j then a0[r][c] / p else a0[r][c]
      invariant forall r, c :: 0 <= r < n && 0 <= c < n ==>
        e[r, c] == if r == i && c < j then e0[r][c] / p else e0[r][c]
    {
      a[i, j] := a[i, j] / p;
      e[i, j] := e[i, j] / p;
    }
    DividedGrid(Grid(a), a0, i, p, n);
    DividedGrid(Grid(e), e0, i, p, n);
  }

  /** Entrywise, `g` is `g0` with row `i` divided by `p`. */
  lemma DividedGrid(g: Matrix, g0: Matrix, i: nat, p: real, n: nat)
    requires HasShape(g, n, n) && HasShape(g0, n, n) && i < n && p != 0.0
    requires forall r, c :: 0 <= r < n && 0 <= c < n ==> g[r][c] == if r == i then g0[r][c] / p else g0[r][c]
    ensures g == ScaleRow(g0, i, p)
  {
    forall c | 0 <= c < n ensures g[i][c] == DivideAll(g0[i], p)[c] {
      DivideAllEntry(g0[i], p, c);
    }
    SameMatrix(g, ScaleRow(g0, i, p));
  }

  /** `for j in range(n): matriz[k][j] -= factor * matriz[i][j]` and the same on `identidad`. */
  method SubtractRow(a: array2<real>, e: array2<real>, k: nat, i: nat, factor: real)
    requires a != e && a.Length0 == a.Length1 == e.Length0 == e.Length1 && k < a.Length0 && i < a.Length0 && k != i
    modifies a, e
    ensures Grid(a) == old(Grid(a))[k := SubtractScaled(old(Grid(a))[k], old(Grid(a))[i], factor)]
    ensures Grid(e) == old(Grid(e))[k := SubtractScaled(old(Grid(e))[k], old(Grid(e))[i], factor)]
  {
    var n := a.Length0;
    ghost var a0, e0 := Grid(a), Grid(e);
    for j := 0 to n
      invariant forall r, c :: 0 <= r < n && 0 <= c < n ==>
        a[r, c] == if r == k && c < j then a0[k][c] - factor * a0[i][c] else a0[r][c]
      invariant forall r, c :: 0 <= r < n && 0 <= c < n ==>
        e[r, c] == if r == k && c < j then e0[k][c] - factor * e0[i][c] else e0[r][c]
    {
      a[k, j] := a[k, j] - factor * a[i, j];
      e[k, j] := e[k, j] - factor * e[i, j];
    }
    SubtractedGrid(Grid(a), a0, k, i, factor, n);
    SubtractedGrid(Grid(e), e0, k, i, factor, n);
  }

  /** Entrywise, `g` is `g0` with row `k` reduced by `f` times row `i`. */
  lemma SubtractedGrid(g: Matrix, g0: Matrix, k: nat, i: nat, f: real, n: nat)
    requires HasShape(g, n, n) && HasShape(g0, n, n) && k < n && i < n
    requires forall r, c :: 0 <= r < n && 0 <= c < n ==>
      g[r][c] == if r == k then g0[k][c] - f * g0[i][c] else g0[r][c]
    ensures g == g0[k := SubtractScaled(g0[k], g0[i], f)]
  {
    forall c | 0 <= c < n ensures g[k][c] == SubtractScaled(g0[k], g0[i], f)[c] {
      SubtractScaledEntry(g0[k], g0[i], f, c);
    }
    SameMatrix(g, g0[k := SubtractScaled(g0[k], g0[i], f)]);
  }

  /** The `for k in range(n): if k != i: ...` loop: clears column `i` outside row `i`. */
  method ClearColumn(a: array2<real>, e: array2<real>, i: nat)
    requires a != e && a.Length0 == a.Length1 == e.Length0 == e.Length1 && i < a.Length0
    modifies a, e
    ensures Grid(a) == Eliminate(old(Grid(a)), i, Column(old(Grid(a)), i, a.Length0))
    ensures Grid(e) == Eliminate(old(Grid(e)), i, Column(old(Grid(a)), i, a.Length0))
  {
    var n := a.Length0;
    ghost var a0, e0 := Grid(a), Grid(e);
    ghost var factors := Column(a0, i, n);
    for k := 0 to n
      invariant Grid(a) == EliminateRows(a0, i, factors, k)
      invariant Grid(e) == EliminateRows(e0, i, factors, k)
    {
      if k != i {
        ghost var g, h := Grid(a), Grid(e);
        var factor := a[k, i];
        SubtractRow(a, e, k, i, factor);
        EliminateRowsStep(a0, i, factors, k, g);
        EliminateRowsStep(e0, i, factors, k, h);
      } else {
        EliminateRowsSkip(a0, i, factors, k);
        EliminateRowsSkip(e0, i, factors, k);
      }
    }
  }

  /** Eliminating row `k != i` extends the rows eliminated so far by one. */
  lemma EliminateRowsStep(x: Matrix, i: nat, factors: seq<real>, k: nat, g: Matrix)
    requires i < |x| && |factors| == |x| && forall r :: 0 <= r < |x| ==> |x[r]| == |x[i]|
    requires k < |x| && k != i && g == EliminateRows(x, i, factors, k)
    ensures g[k := SubtractScaled(g[k], g[i], factors[k])] == EliminateRows(x, i, factors, k + 1)
  {
    assert g[k] == x[k];
  }

  /** Row `i` itself is skipped. */
  lemma EliminateRowsSkip(x: Matrix, i: nat, factors: seq<real>, k: nat)
    requires i < |x| && |factors| == |x| && forall r :: 0 <= r < |x| ==> |x[r]| == |x[i]|
    requires k == i
    ensures EliminateRows(x, i, factors, k + 1) == EliminateRows(x, i, factors, k)
  {
  }

  /**
    `gauss_jordan`: reduces `a` in place and returns the inverse in a new
    array, or `Err(i)` when row `i` has a zero pivot (no row is swapped);
    `a` then holds the zero it stopped at.
  */
  method GaussJordanInPlace(a: array2<real>) returns (r: Result<array2<real>, nat>)
    requires a.Length0 == a.Length1
    modifies a
    ensures r.Ok? <==> GaussJordan(old(Grid(a))).Ok?
    ensures r.Ok? ==> fresh(r.value) && Grid(r.value) == GaussJordan(old(Grid(a))).value
    ensures r.Ok? ==> Grid(a) == ReduceFrom(Start(old(Grid(a))), 0).value.m
    ensures r.Err? ==> r.error == GaussJordan(old(Grid(a))).error && a[r.error, r.error] == 0.0
  {
    var n := a.Length0;
    ghost var a0 := Grid(a);
    var e := new real[n, n]((i, j) => if i == j then 1.0 else 0.0);
    SameMatrix(Grid(e), Identity(n));
    for i := 0 to n
      invariant SquarePair(Halves(Grid(a), Grid(e)), n)
      invariant ReduceFrom(Start(a0), 0) == ReduceFrom(Halves(Grid(a), Grid(e)), i)
    {
      ghost var s := Halves(Grid(a), Grid(e));
      if a[i, i] == 0.0 {
        assert ReduceFrom(s, i) == Err(i);
        return Err(i);
      }
      var pivot := a[i, i];
      DivideRow(a, e, i, pivot);
      ghost var m1, e1 := Grid(a), Grid(e);
      ClearColumn(a, e, i);
      PivotStepOnGrids(s, i, pivot, m1, e1, Grid(a), Grid(e));
    }
    assert ReduceFrom(Halves(Grid(a), Grid(e)), n) == Ok(Halves(Grid(a), Grid(e)));
    r := Ok(e);
  }

  /** What `DivideRow` and `ClearColumn` leave behind is the pivot step, and the reduction goes on from the next row. */
  lemma PivotStepOnGrids(s: Halves, i: nat, p: real, m1: Matrix, e1: Matrix, m2: Matrix, e2: Matrix)
    requires SquarePair(s, |s.m|) && i < |s.m| && p == s.m[i][i] && p != 0.0
    requires m1 == ScaleRow(s.m, i, p) && e1 == ScaleRow(s.e, i, p)
    requires m2 == Eliminate(m1, i, Column(m1, i, |s.m|)) && e2 == Eliminate(e1, i, Column(m1, i, |s.m|))
    ensures Halves(m2, e2) == PivotStep(s, i)
    ensures ReduceFrom(s, i) == ReduceFrom(Halves(m2, e2), i + 1)
  {
  }

  // ---------------------------------------------------------------- lemmas

  /** Dividing row `i` of `x` by `p` divides entry (i, c) of the product `x a` by `p`. */
  lemma ScaleRowProductEntry(x: Matrix, a: Matrix, i: nat, p: real, n: nat, k: nat, c: nat)
    requires n > 0 && HasShape(x, n, n) && HasShape(a, n, n) && i < n && p != 0.0 && k < n && c < n
    ensures Multipliable(ScaleRow(x, i, p), a) && Multipliable(x, a)
    ensures Product(ScaleRow(x, i, p), a)[k][c] == ScaleRow(Product(x, a), i, p)[k][c]
  {
    var y := ScaleRow(x, i, p);
    if k == i {
      DotDivideAll(x[k], Column(a, c, n), p);
      DividedRowProduct(y, x, a, n, p, k, c);
      DivideAllEntry(Product(x, a)[k], p, c);
    } else {
      assert y[k] == x[k];
      SquareProductEntry(y, a, n, k, c);
      SquareProductEntry(x, a, n, k, c);
    }
  }

  /** If row `k` of `y` dotted with column `c` of `a` is that of `x` divided by `p`, so is entry (k, c) of the products. */
  lemma DividedRowProduct(y: Matrix, x: Matrix, a: Matrix, n: nat, p: real, k: nat, c: nat)
    requires n > 0 && HasShape(y, n, n) && HasShape(x, n, n) && HasShape(a, n, n) && k < n && c < n && p != 0.0
    requires Dot(y[k], Column(a, c, n)) == Dot(x[k], Column(a, c, n)) / p
    ensures Multipliable(y, a) && Multipliable(x, a)
    ensures Product(y, a)[k][c] == Product(x, a)[k][c] / p
  {
    SquareProductEntry(y, a, n, k, c);
    SquareProductEntry(x, a, n, k, c);
  }

  /** Dividing a row of `x` divides the same row of the product `x a`. */
  lemma ScaleRowProduct(x: Matrix, a: Matrix, i: nat, p: real, n: nat)
    requires n > 0 && HasShape(x, n, n) && HasShape(a, n, n) && i < n && p != 0.0
    ensures Multipliable(ScaleRow(x, i, p), a) && Multipliable(x, a)
    ensures Product(ScaleRow(x, i, p), a) == ScaleRow(Product(x, a), i, p)
  {
    var lhs, rhs := Product(ScaleRow(x, i, p), a), ScaleRow(Product(x, a), i, p);
    forall k, c | 0 <= k < n && 0 <= c < n ensures lhs[k][c] == rhs[k][c] {
      ScaleRowProductEntry(x, a, i, p, n, k, c);
    }
    SameMatrix(lhs, rhs);
  }

  /** For square factors an entry of the product is a row dotted with a column. */
  lemma SquareProductEntry(x: Matrix, a: Matrix, n: nat, k: nat, c: nat)
    requires n > 0 && HasShape(x, n, n) && HasShape(a, n, n) && k < n && c < n
    ensures Multipliable(x, a)
    ensures Product(x, a)[k][c] == Dot(x[k], Column(a, c, n))
  {
    assert x[k][..n] == x[k];
  }

  /** Entry (k, c) of `Eliminate(x) a` is entry (k, c) of `Eliminate(x a)`. */
  lemma EliminateProductEntry(x: Matrix, a: Matrix, i: nat, factors: seq<real>, n: nat, k: nat, c: nat)
    requires n > 0 && HasShape(x, n, n) && HasShape(a, n, n) && i < n && |factors| == n && k < n && c < n
    ensures Multipliable(Eliminate(x, i, factors), a) && Multipliable(x, a)
    ensures Product(Eliminate(x, i, factors), a)[k][c] == Eliminate(Product(x, a), i, factors)[k][c]
  {
    var y := Eliminate(x, i, factors);
    if k == i {
      PivotRowProductEntry(x, y, a, n, i, c);
    } else {
      DotSubtractScaled(x[k], x[i], Column(a, c, n), factors[k]);
      CombinedRowProduct(y, x, a, n, i, factors[k], k, c);
      CombinedIsEliminated(y, x, a, n, i, factors, k, c);
    }
  }

  /** Row `i` is the same in `y` and `x`, so is row `i` of `y a` and `x a`. */
  lemma PivotRowProductEntry(x: Matrix, y: Matrix, a: Matrix, n: nat, i: nat, c: nat)
    requires n > 0 && HasShape(x, n, n) && HasShape(y, n, n) && HasShape(a, n, n) && i < n && c < n
    requires y[i] == x[i]
    ensures Multipliable(y, a) && Multipliable(x, a)
    ensures Product(y, a)[i][c] == Product(x, a)[i][c]
  {
    SquareProductEntry(y, a, n, i, c);
    SquareProductEntry(x, a, n, i, c);
  }

  /**
    If row `k` of `y`, dotted with column `c` of `a`, is row `k` of `x` minus
    `f` times row `i` dotted with it, the same relation holds between the
    entries of `y a` and `x a`.
  */
  lemma CombinedRowProduct(y: Matrix, x: Matrix, a: Matrix, n: nat, i: nat, f: real, k: nat, c: nat)
    requires n > 0 && HasShape(y, n, n) && HasShape(x, n, n) && HasShape(a, n, n) && i < n && k < n && c < n
    requires Dot(y[k], Column(a, c, n)) == Dot(x[k], Column(a, c, n)) - f * Dot(x[i], Column(a, c, n))
    ensures Multipliable(y, a) && Multipliable(x, a)
    ensures Product(y, a)[k][c] == Product(x, a)[k][c] - f * Product(x, a)[i][c]
  {
    SquareProductEntry(y, a, n, k, c);
    SquareProductEntry(x, a, n, k, c);
    SquareProductEntry(x, a, n, i, c);
  }

  /** The relation of `CombinedRowProduct` is entry (k, c) of `Eliminate(x a)`. */
  lemma CombinedIsEliminated(y: Matrix, x: Matrix, a: Matrix, n: nat, i: nat, factors: seq<real>, k: nat, c: nat)
    requires n > 0 && HasShape(y, n, n) && HasShape(x, n, n) && HasShape(a, n, n) && i < n && k < n && c < n
    requires |factors| == n && k != i
    requires Product(y, a)[k][c] == Product(x, a)[k][c] - factors[k] * Product(x, a)[i][c]
    ensures Product(y, a)[k][c] == Eliminate(Product(x, a), i, factors)[k][c]
  {
    EliminatedProductEntry(Product(x, a), i, factors, n, k, c);
  }

  /** An off-pivot entry of `Eliminate(p)`, stated without the conditional. */
  lemma EliminatedProductEntry(p: Matrix, i: nat, factors: seq<real>, n: nat, k: nat, c: nat)
    requires HasShape(p, n, n) && i < n && |factors| == n && k < n && c < n && k != i
    ensures Eliminate(p, i, factors)[k][c] == p[k][c] - factors[k] * p[i][c]
  {
    SubtractScaledEntry(p[k], p[i], factors[k], c);
  }

  /** Subtracting multiples of row `i` from the rows of `x` does the same to the rows of `x a`. */
  lemma EliminateProduct(x: Matrix, a: Matrix, i: nat, factors: seq<real>, n: nat)
    requires n > 0 && HasShape(x, n, n) && HasShape(a, n, n) && i < n && |factors| == n
    ensures Multipliable(Eliminate(x, i, factors), a) && Multipliable(x, a)
    ensures Product(Eliminate(x, i, factors), a) == Eliminate(Product(x, a), i, factors)
  {
    var y := Eliminate(x, i, factors);
    assert HasShape(y, n, n);
    var lhs, rhs := Product(y, a), Eliminate(Product(x, a), i, factors);
    assert HasShape(lhs, n, n) && HasShape(rhs, n, n);
    forall k, c | 0 <= k < n && 0 <= c < n ensures lhs[k][c] == rhs[k][c] {
      EliminateProductEntry(x, a, i, factors, n, k, c);
    }
    SameMatrix(lhs, rhs);
  }

  /** Column `c` of `m` is column `c` of the identity. */
  predicate UnitColumn(m: Matrix, c: nat)
    requires IsSquare(m) && c < |m|
  {
    forall r :: 0 <= r < |m| ==> m[r][c] == if r == c then 1.0 else 0.0
  }

  /** The first `k` columns of `m` are those of the identity. */
  predicate LeadingUnitColumns(m: Matrix, k: nat)
    requires IsSquare(m) && k <= |m|
  {
    forall c :: 0 <= c < k ==> UnitColumn(m, c)
  }

  /** A pivot step applies the same row operations to both halves, so `e a == m` is kept. */
  lemma PivotStepKeepsProduct(s: Halves, a: Matrix, i: nat, n: nat)
    requires n > 0 && SquarePair(s, n) && HasShape(a, n, n) && i < n && s.m[i][i] != 0.0
    requires Multipliable(s.e, a) && Product(s.e, a) == s.m
    ensures Multipliable(PivotStep(s, i).e, a)
    ensures Product(PivotStep(s, i).e, a) == PivotStep(s, i).m
  {
    var p := s.m[i][i];
    var m1, e1 := ScaleRow(s.m, i, p), ScaleRow(s.e, i, p);
    var factors := Column(m1, i, n);
    ScaleRowProduct(s.e, a, i, p, n);
    EliminateProduct(e1, a, i, factors, n);
  }

  /**
    After dividing row `i` by its pivot (`m1[i][i] == 1`) and eliminating with
    the factors of column `i`, entry (r, c) for `c <= i` is an identity entry.
  */
  lemma EliminatedEntry(m0: Matrix, m1: Matrix, i: nat, n: nat, r: nat, c: nat)
    requires HasShape(m0, n, n) && HasShape(m1, n, n) && i < n && r < n && c <= i
    requires m1[i][i] == 1.0
    requires forall k, j :: 0 <= k < n && 0 <= j < n && k != i ==> m1[k][j] == m0[k][j]
    requires c < i ==> m1[i][c] == 0.0 && forall k :: 0 <= k < n ==> m0[k][c] == if k == c then 1.0 else 0.0
    ensures Eliminate(m1, i, Column(m1, i, n))[r][c] == if r == c then 1.0 else 0.0
  {
    var factors := Column(m1, i, n);
    if r != i {
      SubtractScaledEntry(m1[r], m1[i], factors[r], c);
    }
  }

  /** A pivot step on row `i` makes column `i` a unit column and keeps the earlier ones. */
  lemma PivotStepUnitColumns(s: Halves, i: nat, n: nat)
    requires SquarePair(s, n) && i < n && s.m[i][i] != 0.0
    requires LeadingUnitColumns(s.m, i)
    ensures LeadingUnitColumns(PivotStep(s, i).m, i + 1)
  {
    var p := s.m[i][i];
    var m1 := ScaleRow(s.m, i, p);
    var t := PivotStep(s, i).m;
    assert t == Eliminate(m1, i, Column(m1, i, n));
    DivideAllEntry(s.m[i], p, i);
    assert m1[i][i] == p / p == 1.0;
    assert forall k, j :: 0 <= k < n && 0 <= j < n && k != i ==> m1[k][j] == s.m[k][j];
    forall c | 0 <= c <= i ensures UnitColumn(t, c) {
      if c < i {
        assert UnitColumn(s.m, c);
        DivideAllEntry(s.m[i], p, c);
        assert m1[i][c] == s.m[i][c] / p == 0.0;
      }
      forall r | 0 <= r < n ensures t[r][c] == if r == c then 1.0 else 0.0 {
        EliminatedEntry(s.m, m1, i, n, r, c);
      }
    }
  }

  /**
    The invariant of the reduction: the right half times the original matrix
    is the left half (both halves received the same row operations), and
    once rows `0 .. i-1` are done the first `i` columns of the left half are
    unit columns; so a reduction that gets through every row ends with the
    identity on the left and a left inverse on the right.
  */
  lemma {:induction false} ReduceFromInvariant(a: Matrix, s: Halves, i: nat)
    requires |a| > 0 && IsSquare(a) && SquarePair(s, |a|) && i <= |a|
    requires Multipliable(s.e, a) && Product(s.e, a) == s.m && LeadingUnitColumns(s.m, i)
    requires ReduceFrom(s, i).Ok?
    ensures ReduceFrom(s, i).value.m == Identity(|a|)
    ensures Multipliable(ReduceFrom(s, i).value.e, a)
    ensures Product(ReduceFrom(s, i).value.e, a) == Identity(|a|)
    decreases |a| - i
  {
    if i == |a| {
      UnitColumnsIdentity(s.m, |a|);
    } else {
      var t := PivotStep(s, i);
      assert ReduceFrom(s, i) == ReduceFrom(t, i + 1);
      PivotStepKeepsProduct(s, a, i, |a|);
      PivotStepUnitColumns(s, i, |a|);
      ReduceFromInvariant(a, t, i + 1);
    }
  }

  /** On success the result is a left inverse, R A = I, and the left half has become the identity. */
  lemma InverseIsLeftInverse(a: Matrix)
    requires |a| > 0 && IsSquare(a) && GaussJordan(a).Ok?
    ensures ReduceFrom(Start(a), 0).value.m == Identity(|a|)
    ensures HasShape(GaussJordan(a).value, |a|, |a|)
    ensures Multipliable(GaussJordan(a).value, a)
    ensures Product(GaussJordan(a).value, a) == Identity(|a|)
  {
    ProductIdentityLeft(a, |a|);
    ReduceFromInvariant(a, Start(a), 0);
  }

  /** A square matrix all of whose columns are unit columns is the identity. */
  lemma UnitColumnsIdentity(m: Matrix, n: nat)
    requires HasShape(m, n, n) && LeadingUnitColumns(m, n)
    ensures m == Identity(n)
  {
    forall r, c | 0 <= r < n && 0 <= c < n ensures m[r][c] == Identity(n)[r][c] {
      assert UnitColumn(m, c);
    }
    SameMatrix(m, Identity(n));
  }

  /**
    A matrix with a zero column has no left inverse, so the reduction cannot
    succeed on it: some pivot is zero on the way.
  */
  lemma ZeroColumnFails(a: Matrix, c: nat)
    requires |a| > 0 && IsSquare(a) && c < |a|
    requires forall k :: 0 <= k < |a| ==> a[k][c] == 0.0
    ensures GaussJordan(a).Err?
  {
    if GaussJordan(a).Ok? {
      InverseIsLeftInverse(a);
      var n := |a|;
      var inv := GaussJordan(a).value;
      SquareProductEntry(inv, a, n, c, c);
      DotZero(inv[c], Column(a, c, n));
      assert false;
    }
  }

  /** [[1,2],[2,4]] fails at row 1: after clearing column 0 its second row is zero. */
  lemma SingularExample()
    ensures GaussJordan([[1.0, 2.0], [2.0, 4.0]]) == Err(1)
  {
    var a: Matrix := [[1.0, 2.0], [2.0, 4.0]];
    var s1 := PivotStep(Start(a), 0);
    assert s1.m[1][1] == 4.0 - 2.0 * 2.0;
    assert ReduceFrom(s1, 1) == Err(1);
  }

  /** [[0,1],[1,0]] is invertible but fails at row 0: no row is swapped. */
  lemma NoPivotingExample()
    ensures GaussJordan([[0.0, 1.0], [1.0, 0.0]]) == Err(0)
  {
    assert Start([[0.0, 1.0], [1.0, 0.0]]).m[0][0] == 0.0;
  }

  /** The inverse of [[2,0],[0,2]] is [[0.5,0],[0,0.5]]. */
  lemma InverseExample()
    ensures GaussJordan([[2.0, 0.0], [0.0, 2.0]]) == Ok([[0.5, 0.0], [0.0, 0.5]])
  {
    var a: Matrix := [[2.0, 0.0], [0.0, 2.0]];
    var s1 := PivotStep(Start(a), 0);
    FirstPivotExample();
    var s2 := PivotStep(s1, 1);
    SecondPivotExample();
    assert ReduceFrom(s2, 2) == Ok(s2);
  }

  /** The first pivot step on [[2,0],[0,2]]. */
  lemma FirstPivotExample()
    ensures PivotStep(Start([[2.0, 0.0], [0.0, 2.0]]), 0)
      == Halves([[1.0, 0.0], [0.0, 2.0]], [[0.5, 0.0], [0.0, 1.0]])
  {
    var m1: Matrix := [[1.0, 0.0], [0.0, 2.0]];
    SameMatrix(Identity(2), [[1.0, 0.0], [0.0, 1.0]]);
    FirstScaleExample();
    assert Column(m1, 0, 2) == [1.0, 0.0];
    EliminateExample(m1, [[0.5, 0.0], [0.0, 1.0]], 0, [1.0, 0.0]);
  }

  /** Dividing row 0 of both halves by 2. */
  lemma FirstScaleExample()
    ensures ScaleRow([[2.0, 0.0], [0.0, 2.0]], 0, 2.0) == [[1.0, 0.0], [0.0, 2.0]]
    ensures ScaleRow([[1.0, 0.0], [0.0, 1.0]], 0, 2.0) == [[0.5, 0.0], [0.0, 1.0]]
  {
    assert DivideAll([2.0, 0.0], 2.0) == [1.0, 0.0];
    assert DivideAll([1.0, 0.0], 2.0) == [0.5, 0.0];
  }

  /** The second pivot step, which ends with the identity on the left. */
  lemma SecondPivotExample()
    ensures PivotStep(Halves([[1.0, 0.0], [0.0, 2.0]], [[0.5, 0.0], [0.0, 1.0]]), 1)
      == Halves([[1.0, 0.0], [0.0, 1.0]], [[0.5, 0.0], [0.0, 0.5]])
  {
    var m2: Matrix := [[1.0, 0.0], [0.0, 1.0]];
    SecondScaleExample();
    assert Column(m2, 1, 2) == [0.0, 1.0];
    EliminateExample(m2, [[0.5, 0.0], [0.0, 0.5]], 1, [0.0, 1.0]);
  }

  /** Dividing row 1 of both halves by 2. */
  lemma SecondScaleExample()
    ensures ScaleRow([[1.0, 0.0], [0.0, 2.0]], 1, 2.0) == [[1.0, 0.0], [0.0, 1.0]]
    ensures ScaleRow([[0.5, 0.0], [0.0, 1.0]], 1, 2.0) == [[0.5, 0.0], [0.0, 0.5]]
  {
    assert DivideAll([0.0, 2.0], 2.0) == [0.0, 1.0];
    assert DivideAll([0.0, 1.0], 2.0) == [0.0, 0.5];
  }

  /** With a zero factor on the other row of a 2-by-2 pair, elimination changes nothing. */
  lemma EliminateExample(m: Matrix, e: Matrix, i: nat, factors: seq<real>)
    requires HasShape(m, 2, 2) && HasShape(e, 2, 2) && i < 2 && |factors| == 2 && factors[1 - i] == 0.0
    ensures Eliminate(m, i, factors) == m && Eliminate(e, i, factors) == e
  {
    var o := 1 - i;
    forall c | 0 <= c < 2 ensures SubtractScaled(m[o], m[i], 0.0)[c] == m[o][c] && SubtractScaled(e[o], e[i], 0.0)[c] == e[o][c] {
      SubtractScaledEntry(m[o], m[i], 0.0, c);
      SubtractScaledEntry(e[o], e[i], 0.0, c);
    }
    assert Eliminate(m, i, factors)[o] == m[o];
    assert Eliminate(e, i, factors)[o] == e[o];
  }
}
