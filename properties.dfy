/** Structural properties reported beside a determinant (Determinantes.py). */
module Properties {
  import opened Common
  import opened Matrix
  import Transpose
  import opened Determinant

  /** The four messages `verificar_propiedades` can report, in the order it reports them. */
  datatype Property = Diagonal | UpperTriangular | LowerTriangular | Symmetric

  /** Every entry off the diagonal is zero. */
  predicate IsDiagonal(m: Matrix)
    requires IsSquare(m)
  {
    forall i, j :: 0 <= i < |m| && 0 <= j < |m| && i != j ==> m[i][j] == 0.0
  }

  /** Every entry below the diagonal (`j < i`) is zero. */
  predicate IsUpperTriangular(m: Matrix)
    requires IsSquare(m)
  {
    forall i, j :: 1 <= i < |m| && 0 <= j < i ==> m[i][j] == 0.0
  }

  /** Every entry above the diagonal (`j > i`) is zero. */
  predicate IsLowerTriangular(m: Matrix)
    requires IsSquare(m)
  {
    forall i, j :: 0 <= i < |m| && i + 1 <= j < |m| ==> m[i][j] == 0.0
  }

  /** `matriz == [list(row) for row in zip(*matriz)]`. */
  predicate IsSymmetric(m: Matrix)
  {
    m == Transpose.Transpose(m)
  }

  /** `verificar_propiedades`: the messages that apply, in source order. */
  function PropertyMessages(m: Matrix): (msgs: seq<Property>)
    requires IsSquare(m)
    ensures Diagonal in msgs <==> IsDiagonal(m)
    ensures UpperTriangular in msgs <==> IsUpperTriangular(m)
    ensures LowerTriangular in msgs <==> IsLowerTriangular(m)
    ensures Symmetric in msgs <==> IsSymmetric(m)
    ensures |msgs| <= 4
  {
    (if IsDiagonal(m) then [Diagonal] else [])
    + (if IsUpperTriangular(m) then [UpperTriangular] else [])
    + (if IsLowerTriangular(m) then [LowerTriangular] else [])
    + (if IsSymmetric(m) then [Symmetric] else [])
  }

  /** A square matrix equals its transpose exactly when entry (i, j) equals entry (j, i) everywhere. */
  lemma SymmetricMeansMirrored(m: Matrix)
    requires IsSquare(m)
    ensures IsSymmetric(m) <==> forall i, j :: 0 <= i < |m| && 0 <= j < |m| ==> m[i][j] == m[j][i]
  {
    var t := Transpose.Transpose(m);
    if |m| > 0 {
      Transpose.TransposeShape(m, |m|, |m|);
      if forall i, j :: 0 <= i < |m| && 0 <= j < |m| ==> m[i][j] == m[j][i] {
        SameMatrix(m, t);
      }
    } else {
      assert t == [];
    }
  }

  /** A diagonal matrix is reported as both upper and lower triangular, and as symmetric. */
  lemma DiagonalImpliesOthers(m: Matrix)
    requires IsSquare(m) && Diagonal in PropertyMessages(m)
    ensures UpperTriangular in PropertyMessages(m)
    ensures LowerTriangular in PropertyMessages(m)
    ensures Symmetric in PropertyMessages(m)
  {
    SymmetricMeansMirrored(m);
  }

  /** The identity gets all four messages, in the order diagonal, upper, lower, symmetric. */
  lemma IdentityHasAllProperties(n: nat)
    ensures PropertyMessages(Identity(n)) == [Diagonal, UpperTriangular, LowerTriangular, Symmetric]
  {
    var id := Identity(n);
    SymmetricMeansMirrored(id);
    assert IsDiagonal(id) && IsUpperTriangular(id) && IsLowerTriangular(id) && IsSymmetric(id);
  }

  /** Only the first term of the expansion survives when the rest of row 0 is zero. */
  lemma {:induction false} CofactorSumFirstOnly(m: Matrix, k: nat)
    requires WideEnough(m) && 1 <= k <= |m|
    requires forall c :: 1 <= c < |m| ==> m[0][c] == 0.0
    ensures CofactorSum(m, k) == m[0][0] * Det(Minor(m, 0))
  {
    if k > 1 {
      CofactorSumFirstOnly(m, k - 1);
      var term := Signed(k - 1, m[0][k - 1], Det(Minor(m, k - 1)));
      assert m[0][k - 1] == 0.0;
      assert term == 0.0;
    } else {
      assert CofactorSum(m, 0) == 0.0;
    }
  }

  /** The determinant of a lower-triangular matrix is the product of its diagonal. */
  lemma {:induction false} DetLowerTriangular(m: Matrix)
    requires |m| > 0 && IsSquare(m) && IsLowerTriangular(m)
    ensures Det(m) == DiagonalProduct(m)
    decreases |m|
  {
    var minor := Minor(m, 0);
    assert IsSquare(minor);
    if |m| == 1 {
      assert DiagonalProduct(minor) == 1.0;
    } else {
      assert IsLowerTriangular(minor) by {
        forall i, j | 0 <= i < j < |minor| ensures minor[i][j] == 0.0 {
          assert minor[i][j] == m[i + 1][j + 1];
        }
      }
      DetLowerTriangular(minor);
      if |m| == 2 {
        assert Det(minor) == minor[0][0] == m[1][1];
      } else {
        CofactorSumFirstOnly(m, |m|);
      }
    }
  }

  /** A column of zeros makes every term of the expansion vanish. */
  lemma {:induction false} DetZeroFirstColumn(m: Matrix)
    requires |m| > 0 && WideEnough(m)
    requires forall i :: 0 <= i < |m| ==> m[i][0] == 0.0
    ensures Det(m) == 0.0
    decreases |m|, 1
  {
    if |m| > 2 {
      CofactorSumZeroFirstColumn(m, |m|);
    }
  }

  lemma {:induction false} CofactorSumZeroFirstColumn(m: Matrix, k: nat)
    requires |m| > 2 && WideEnough(m) && k <= |m|
    requires forall i :: 0 <= i < |m| ==> m[i][0] == 0.0
    ensures CofactorSum(m, k) == 0.0
    decreases |m|, 0, k
  {
    if k > 0 {
      CofactorSumZeroFirstColumn(m, k - 1);
      if k - 1 > 0 {
        var minor := Minor(m, k - 1);
        forall i | 0 <= i < |minor| ensures minor[i][0] == 0.0 {
          assert minor[i][0] == m[i + 1][0];
        }
        DetZeroFirstColumn(minor);
      }
    }
  }

  /** Expansion terms after the first vanish when column 0 is zero below row 0. */
  lemma {:induction false} CofactorSumUpper(m: Matrix, k: nat)
    requires |m| > 2 && IsSquare(m) && 1 <= k <= |m|
    requires forall i :: 1 <= i < |m| ==> m[i][0] == 0.0
    ensures CofactorSum(m, k) == m[0][0] * Det(Minor(m, 0))
  {
    if k > 1 {
      CofactorSumUpper(m, k - 1);
      var minor := Minor(m, k - 1);
      forall i | 0 <= i < |minor| ensures minor[i][0] == 0.0 {
        assert minor[i][0] == m[i + 1][0];
      }
      DetZeroFirstColumn(minor);
    }
  }

  /** The determinant of an upper-triangular matrix is the product of its diagonal. */
  lemma {:induction false} DetUpperTriangular(m: Matrix)
    requires |m| > 0 && IsSquare(m) && IsUpperTriangular(m)
    ensures Det(m) == DiagonalProduct(m)
    decreases |m|
  {
    var minor := Minor(m, 0);
    assert IsSquare(minor);
    if |m| == 1 {
      assert DiagonalProduct(minor) == 1.0;
    } else {
      assert IsUpperTriangular(minor) by {
        forall i, j | 0 <= j < i < |minor| ensures minor[i][j] == 0.0 {
          assert minor[i][j] == m[i + 1][j + 1];
        }
      }
      DetUpperTriangular(minor);
      if |m| == 2 {
        assert Det(minor) == minor[0][0] == m[1][1];
      } else {
        CofactorSumUpper(m, |m|);
      }
    }
  }

  /** The determinant of any n-by-n identity, n >= 1, is 1. */
  lemma {:induction false} DetIdentity(n: nat)
    requires n > 0
    ensures Det(Identity(n)) == 1.0
  {
    DetLowerTriangular(Identity(n));
    DiagonalProductIdentity(n);
  }

  lemma {:induction false} DiagonalProductIdentity(n: nat)
    ensures DiagonalProduct(Identity(n)) == 1.0
  {
    if n > 0 {
      SameMatrix(Minor(Identity(n), 0), Identity(n - 1));
      DiagonalProductIdentity(n - 1);
    }
  }

  /** What the diagonal message tells the user holds: the determinant is the product of the diagonal. */
  lemma DiagonalDeterminant(m: Matrix)
    requires |m| > 0 && IsSquare(m) && Diagonal in PropertyMessages(m)
    ensures WideEnough(m)
    ensures Det(m) == DiagonalProduct(m)
  {
    DetLowerTriangular(m);
  }

  /** The same holds of every triangular matrix, upper or lower. */
  lemma TriangularDeterminant(m: Matrix)
    requires |m| > 0 && IsSquare(m)
    requires UpperTriangular in PropertyMessages(m) || LowerTriangular in PropertyMessages(m)
    ensures WideEnough(m)
    ensures Det(m) == DiagonalProduct(m)
  {
    if IsLowerTriangular(m) {
      DetLowerTriangular(m);
    } else {
      DetUpperTriangular(m);
    }
  }

  datatype DeterminantError = NoRows | NotSquare | EmptyCell

  /**
    The guards of `calcular_determinante_gui` on the grid of cells (`None`
    is a cell left empty): no rows at all raises IndexError, the row count
    must equal the first row's length, and every cell must be filled.  The
    symbolic determinant itself is not part of this model.
  */
  function CalculateDeterminantProperties(grid: seq<seq<Option<real>>>): (r: Result<seq<Property>, DeterminantError>)
    requires forall i :: 0 <= i < |grid| ==> |grid[i]| == |grid[0]|
    ensures r == Err(NoRows) <==> |grid| == 0
    ensures r == Err(NotSquare) <==> |grid| > 0 && |grid| != |grid[0]|
    ensures r == Err(EmptyCell) <==>
      |grid| > 0 && |grid| == |grid[0]| && exists i, j :: 0 <= i < |grid| && 0 <= j < |grid| && grid[i][j].None?
    ensures r.Ok? ==>
      var m := seq(|grid|, i requires 0 <= i < |grid| => seq(|grid|, j requires 0 <= j < |grid| => grid[i][j].value));
      && IsSquare(m) && r.value == PropertyMessages(m)
      && forall i, j :: 0 <= i < |grid| && 0 <= j < |grid| ==> grid[i][j] == Some(m[i][j])
  {
    if |grid| == 0 then Err(NoRows)
    else if |grid| != |grid[0]| then Err(NotSquare)
    else if exists i, j :: 0 <= i < |grid| && 0 <= j < |grid| && grid[i][j].None? then Err(EmptyCell)
    else
      var m := seq(|grid|, i requires 0 <= i < |grid| => seq(|grid|, j requires 0 <= j < |grid| => grid[i][j].value));
      Ok(PropertyMessages(m))
  }
}
