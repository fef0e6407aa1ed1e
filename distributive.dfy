/** The distributive-law check A(u + v) = Au + Av (Propiedad_Distributiva.py). */
module Distributive {
  import opened Common
  import opened Matrix
  import MatrixText

  /** Fixed tolerance of `comparar_vectores`: 1e-9. */
  const Tolerance: real := 0.000000001

  /** `sumar_vectores`: one entry per entry of `u`, each the sum of the matching entries. */
  function VectorSum(u: Vector, v: Vector): (w: Vector)
    requires |u| <= |v|
    ensures |w| == |u|
    ensures forall i :: 0 <= i < |u| ==> w[i] == u[i] + v[i]
  {
    seq(|u|, i requires 0 <= i < |u| => u[i] + v[i])
  }

  /** Every row of `m` has the entries `multiplicar_matriz_vector` reads. */
  predicate RowsCover(m: Matrix, len: nat)
  {
    forall i :: 0 <= i < |m| ==> len <= |m[i]|
  }

  /** `multiplicar_matriz_vector`: one entry per row, the row's first `len(v)` entries dotted with `v`. */
  function MatrixVector(m: Matrix, v: Vector): (w: Vector)
    requires RowsCover(m, |v|)
    ensures |w| == |m|
    ensures forall i :: 0 <= i < |m| ==> w[i] == Dot(m[i][..|v|], v)
  {
    seq(|m|, i requires 0 <= i < |m| => Dot(m[i][..|v|], v))
  }

  /**
    `comparar_vectores`: every pair that `zip` forms differs by less than
    `tol`.  An empty vector forms no pair, so it is close to anything; a
    tolerance of 0 or less fails every pair.
  */
  predicate Close(x: Vector, y: Vector, tol: real): (close: bool)
    ensures |x| == 0 || |y| == 0 ==> close
    ensures tol <= 0.0 && |x| > 0 && |y| > 0 ==> !close
  {
    assert |x| > 0 && |y| > 0 ==> Abs(x[0] - y[0]) >= 0.0;
    forall i :: 0 <= i < |x| && i < |y| ==> Abs(x[i] - y[i]) < tol
  }

  /** Over exact reals, A(u + v) and Au + Av are the same vector. */
  lemma MatrixVectorDistributes(m: Matrix, u: Vector, v: Vector)
    requires |u| == |v| && RowsCover(m, |u|)
    ensures MatrixVector(m, VectorSum(u, v)) == VectorSum(MatrixVector(m, u), MatrixVector(m, v))
  {
    var s := VectorSum(u, v);
    var lhs, rhs := MatrixVector(m, s), VectorSum(MatrixVector(m, u), MatrixVector(m, v));
    forall i | 0 <= i < |m| ensures lhs[i] == rhs[i] {
      var row := m[i][..|u|];
      DotAdd(row, u, v, s);
    }
  }

  /** A vector is close to itself for any positive tolerance. */
  lemma CloseReflexive(x: Vector, tol: real)
    requires tol > 0.0
    ensures Close(x, x, tol)
  {
    assert Abs(0.0) == 0.0;
    forall i | 0 <= i < |x| ensures Abs(x[i] - x[i]) < tol {
      assert x[i] - x[i] == 0.0;
    }
  }

  /** The report shown to the user: A(u + v), Au + Av and whether they agree. */
  datatype Report = Report(left: Vector, right: Vector, holds: bool)

  datatype DistributiveError = EmptyInput | InvalidNumber | DimensionMismatch | IndexOutOfRange

  /** The arithmetic of `calcular_distributiva` once the inputs are parsed. */
  function Check(m: Matrix, u: Vector, v: Vector): (r: Report)
    requires |u| == |v| && RowsCover(m, |u|)
    ensures |r.left| == |r.right| == |m|
    ensures r.holds
  {
    var left := MatrixVector(m, VectorSum(u, v));
    var right := VectorSum(MatrixVector(m, u), MatrixVector(m, v));
    MatrixVectorDistributes(m, u, v);
    CloseReflexive(left, Tolerance);
    Report(left, right, Close(left, right, Tolerance))
  }

  /** The checks of `calcular_distributiva` after parsing, in the order the source makes them. */
  function CheckParsed(m: Option<Matrix>, u: Option<Vector>, v: Option<Vector>): (r: Result<Report, DistributiveError>)
    requires m.Some? ==> |m.value| > 0
    ensures r != Err(EmptyInput)
    ensures r == Err(InvalidNumber) <==> m.None? || u.None? || v.None?
    ensures r.Ok? ==> r.value.holds
    ensures r == Err(DimensionMismatch) <==>
      m.Some? && u.Some? && v.Some? && (|m.value[0]| != |u.value| || |u.value| != |v.value|)
    ensures r == Err(IndexOutOfRange) <==>
      m.Some? && u.Some? && v.Some? && |m.value[0]| == |u.value| == |v.value| && !RowsCover(m.value, |u.value|)
    ensures r.Ok? ==>
      && m.Some? && u.Some? && v.Some? && |m.value[0]| == |u.value| == |v.value| && RowsCover(m.value, |u.value|)
      && r.value.left == MatrixVector(m.value, VectorSum(u.value, v.value))
      && r.value.right == VectorSum(MatrixVector(m.value, u.value), MatrixVector(m.value, v.value))
  {
    if m.None? || u.None? || v.None? then Err(InvalidNumber)
    else if |m.value[0]| != |u.value| || |u.value| != |v.value| then Err(DimensionMismatch)
    else if !RowsCover(m.value, |u.value|) then Err(IndexOutOfRange)
    else Ok(Check(m.value, u.value, v.value))
  }

  /**
    `calcular_distributiva`: refuses a blank field, a cell that is not a
    number, and `len(matriz[0]) != len(u)` or `len(u) != len(v)`; a row
    shorter than `u` makes the product read past it (IndexError).
  */
  function CalculateDistributive(textM: string, textU: string, textV: string, parse: string -> Option<real>)
    : (r: Result<Report, DistributiveError>)
    ensures r == Err(EmptyInput) <==>
      MatrixText.IsBlank(textM) || MatrixText.IsBlank(textU) || MatrixText.IsBlank(textV)
    ensures !r.Err? || r.error != EmptyInput ==>
      r == CheckParsed(MatrixText.ParseMatrix(textM, parse), MatrixText.ParseVector(textU, parse), MatrixText.ParseVector(textV, parse))
  {
    if MatrixText.IsBlank(textM) || MatrixText.IsBlank(textU) || MatrixText.IsBlank(textV) then Err(EmptyInput)
    else CheckParsed(MatrixText.ParseMatrix(textM, parse), MatrixText.ParseVector(textU, parse), MatrixText.ParseVector(textV, parse))
  }
}
