/** The transpose tool (Metodo_De_Matrices_Transpuestas.py). */
module Transpose {
  import opened Common
  import opened Matrix
  import MatrixText

  /** Length of the shortest row, 0 for no rows: how many tuples `zip(*m)` yields. */
  function ShortestRow(m: Matrix): (len: nat)
    ensures forall i :: 0 <= i < |m| ==> len <= |m[i]|
    ensures |m| > 0 ==> exists i :: 0 <= i < |m| && len == |m[i]|
    ensures |m| == 0 ==> len == 0
  {
    if |m| == 0 then 0
    else if |m| == 1 then |m[0]|
    else
      var rest := ShortestRow(m[1..]);
      assert forall i :: 1 <= i < |m| ==> rest <= |m[i]| by {
        forall i | 1 <= i < |m| ensures rest <= |m[i]| { assert m[i] == m[1..][i - 1]; }
      }
      if |m[0]| <= rest then |m[0]| else rest
  }

  /** `transponer_matriz`: `[list(fila) for fila in zip(*m)]`. */
  function Transpose(m: Matrix): (t: Matrix)
    ensures |t| == ShortestRow(m)
    ensures forall j :: 0 <= j < |t| ==> |t[j]| == |m|
    ensures forall j, i :: 0 <= j < |t| && 0 <= i < |m| ==> t[j][i] == m[i][j]
  {
    seq(ShortestRow(m), j requires 0 <= j < ShortestRow(m) =>
      seq(|m|, i requires 0 <= i < |m| => m[i][j]))
  }

  /** The transpose of an m-by-n matrix is n-by-m, with entry (j, i) equal to entry (i, j). */
  lemma TransposeShape(m: Matrix, rows: nat, cols: nat)
    requires rows > 0 && HasShape(m, rows, cols)
    ensures HasShape(Transpose(m), cols, rows)
    ensures forall i, j :: 0 <= i < rows && 0 <= j < cols ==> Transpose(m)[j][i] == m[i][j]
  {
    var len := ShortestRow(m);
    var i :| 0 <= i < |m| && len == |m[i]|;
  }

  /** Transposing twice gives back every rectangular matrix with at least one row and one column. */
  lemma TransposeTwice(m: Matrix)
    requires |m| > 0 && |m[0]| > 0 && Rectangular(m)
    ensures Transpose(Transpose(m)) == m
  {
    TransposeShape(m, |m|, |m[0]|);
    TransposeShape(Transpose(m), |m[0]|, |m|);
    var tt := Transpose(Transpose(m));
    assert |tt| == |m|;
    forall i | 0 <= i < |m| ensures tt[i] == m[i] {
      assert |tt[i]| == |m[i]|;
    }
  }

  /** Rows without entries do not survive two transpositions: `zip` of empty rows is empty. */
  lemma TransposeTwiceLosesEmptyRows(rows: nat)
    requires rows > 0
    ensures Transpose(Transpose(seq(rows, _ => []))) == []
    ensures Transpose(Transpose(seq(rows, _ => []))) != seq(rows, _ => [])
  {
    var m: Matrix := seq(rows, _ => []);
    assert |m[0]| == 0;
    assert ShortestRow(m) == 0;
  }

  datatype TransposeError = EmptyInput | InvalidNumber | RaggedRows

  /**
    `calcular_transpuesta`: refuses blank text, text that does not parse and
    rows of different lengths; otherwise returns the matrix and its transpose.
  */
  function CalculateTranspose(text: string, parse: string -> Option<real>): (r: Result<(Matrix, Matrix), TransposeError>)
    ensures MatrixText.IsBlank(text) <==> r == Err(EmptyInput)
    ensures r == Err(InvalidNumber) <==> !MatrixText.IsBlank(text) && MatrixText.ParseMatrix(text, parse).None?
    ensures r == Err(RaggedRows) <==>
      !MatrixText.IsBlank(text) && MatrixText.ParseMatrix(text, parse).Some? && !Rectangular(MatrixText.ParseMatrix(text, parse).value)
    ensures r.Ok? ==> r.value.0 == MatrixText.ParseMatrix(text, parse).value
    ensures r.Ok? ==> HasShape(r.value.1, |r.value.0[0]|, |r.value.0|)
    ensures r.Ok? ==> forall i, j :: 0 <= i < |r.value.0| && 0 <= j < |r.value.0[0]| ==> r.value.1[j][i] == r.value.0[i][j]
  {
    if MatrixText.IsBlank(text) then Err(EmptyInput)
    else match MatrixText.ParseMatrix(text, parse)
      case None => Err(InvalidNumber)
      case Some(m) =>
        if !Rectangular(m) then Err(RaggedRows)
        else
          TransposeShape(m, |m|, |m[0]|);
          Ok((m, Transpose(m)))
  }
}
