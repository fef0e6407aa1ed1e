/** The matrix product tool (Multiplicacion_De_Matrices.py). */
module Multiplication {
  import opened Common
  import opened Matrix
  import MatrixText
  import Transpose

  /**
    Every index `multiplicar_matrices` reads exists: `A[i][k]` for
    `k < len(A[0])` and `B[k][j]` for `j < len(B[0])`.
  */
  predicate Multipliable(a: Matrix, b: Matrix)
  {
    && |a| > 0 && |b| > 0 && |a[0]| <= |b|
    && (forall i :: 0 <= i < |a| ==> |a[0]| <= |a[i]|)
    && (forall k :: 0 <= k < |a[0]| ==> |b[0]| <= |b[k]|)
  }

  /** `multiplicar_matrices`: entry (i, j) is the sum over `k < len(A[0])` of `A[i][k] * B[k][j]`. */
  function Product(a: Matrix, b: Matrix): (p: Matrix)
    requires Multipliable(a, b)
    ensures HasShape(p, |a|, |b[0]|)
    ensures forall i, j {:trigger p[i][j]} :: 0 <= i < |a| && 0 <= j < |b[0]| ==>
      p[i][j] == Dot(a[i][..|a[0]|], Column(b, j, |a[0]|))
  {
    seq(|a|, i requires 0 <= i < |a| =>
      seq(|b[0]|, j requires 0 <= j < |b[0]| => Dot(a[i][..|a[0]|], Column(b, j, |a[0]|))))
  }

  /** Multiplying by the identity on the right leaves a matrix unchanged. */
  lemma ProductIdentityRight(a: Matrix, n: nat)
    requires |a| > 0 && n > 0 && HasShape(a, |a|, n)
    ensures Multipliable(a, Identity(n))
    ensures Product(a, Identity(n)) == a
  {
    var p := Product(a, Identity(n));
    forall i, j | 0 <= i < |a| && 0 <= j < n ensures p[i][j] == a[i][j] {
      assert a[i][..n] == a[i];
      DotUnit(a[i], Column(Identity(n), j, n), j);
    }
    forall i | 0 <= i < |a| ensures p[i] == a[i] { }
  }

  /** Multiplying by the identity on the left leaves a matrix unchanged. */
  lemma ProductIdentityLeft(b: Matrix, n: nat)
    requires |b| == n > 0 && |b[0]| > 0 && HasShape(b, n, |b[0]|)
    ensures Multipliable(Identity(n), b)
    ensures Product(Identity(n), b) == b
  {
    var p := Product(Identity(n), b);
    forall i, j | 0 <= i < n && 0 <= j < |b[0]| ensures p[i][j] == b[i][j] {
      var col := Column(b, j, n);
      assert Identity(n)[i][..n] == Identity(n)[i];
      DotSymmetric(Identity(n)[i], col);
      DotUnit(col, Identity(n)[i], i);
    }
    forall i | 0 <= i < n ensures p[i] == b[i] { }
  }

  /** Transposing a product multiplies the transposes in the other order. */
  lemma TransposeOfProduct(a: Matrix, b: Matrix, m: nat, k: nat, n: nat)
    requires m > 0 && k > 0 && n > 0
    requires HasShape(a, m, k) && HasShape(b, k, n)
    ensures Multipliable(a, b)
    ensures Multipliable(Transpose.Transpose(b), Transpose.Transpose(a))
    ensures Transpose.Transpose(Product(a, b)) == Product(Transpose.Transpose(b), Transpose.Transpose(a))
  {
    var ta, tb := Transpose.Transpose(a), Transpose.Transpose(b);
    Transpose.TransposeShape(a, m, k);
    Transpose.TransposeShape(b, k, n);
    var p := Product(a, b);
    Transpose.TransposeShape(p, m, n);
    var lhs, rhs := Transpose.Transpose(p), Product(tb, ta);
    forall j, i | 0 <= j < n && 0 <= i < m ensures lhs[j][i] == rhs[j][i] {
      var row, col := a[i][..k], Column(b, j, k);
      assert row == Column(ta, i, k);
      assert col == tb[j][..k];
      DotSymmetric(row, col);
    }
    forall j | 0 <= j < n ensures lhs[j] == rhs[j] { }
  }

  datatype MultiplicationError = EmptyInput | InvalidNumber | DimensionMismatch | IndexOutOfRange

  /**
    `calcular_multiplicacion`: refuses a blank matrix text, a cell that is
    not a number and a column count of A that differs from the row count of
    B; a ragged matrix makes the product read past a row (IndexError).
  */
  function CalculateMultiplication(textA: string, textB: string, parse: string -> Option<real>)
    : (r: Result<Matrix, MultiplicationError>)
    ensures r == Err(EmptyInput) <==> MatrixText.IsBlank(textA) || MatrixText.IsBlank(textB)
    ensures r.Ok? ==>
      var a, b := MatrixText.ParseMatrix(textA, parse), MatrixText.ParseMatrix(textB, parse);
      && a.Some? && b.Some? && |a.value[0]| == |b.value| && Multipliable(a.value, b.value)
      && r.value == Product(a.value, b.value)
    ensures r == Err(InvalidNumber) <==>
      var a, b := MatrixText.ParseMatrix(textA, parse), MatrixText.ParseMatrix(textB, parse);
      !MatrixText.IsBlank(textA) && !MatrixText.IsBlank(textB) && (a.None? || b.None?)
    ensures r == Err(DimensionMismatch) <==>
      var a, b := MatrixText.ParseMatrix(textA, parse), MatrixText.ParseMatrix(textB, parse);
      && !MatrixText.IsBlank(textA) && !MatrixText.IsBlank(textB)
      && a.Some? && b.Some? && |a.value[0]| != |b.value|
    ensures r == Err(IndexOutOfRange) <==>
      var a, b := MatrixText.ParseMatrix(textA, parse), MatrixText.ParseMatrix(textB, parse);
      && !MatrixText.IsBlank(textA) && !MatrixText.IsBlank(textB)
      && a.Some? && b.Some? && |a.value[0]| == |b.value| && !Multipliable(a.value, b.value)
  {
    if MatrixText.IsBlank(textA) || MatrixText.IsBlank(textB) then Err(EmptyInput)
    else match (MatrixText.ParseMatrix(textA, parse), MatrixText.ParseMatrix(textB, parse))
      case (Some(a), Some(b)) =>
        if |a[0]| != |b| then Err(DimensionMismatch)
        else if !Multipliable(a, b) then Err(IndexOutOfRange)
        else Ok(Product(a, b))
      case _ => Err(InvalidNumber)
  }
}
