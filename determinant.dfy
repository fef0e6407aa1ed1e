/** Cofactor determinant and Cramer's rule (Regla_De_Cramer.py). */
module Determinant {
  import opened Common
  import opened Matrix

  /** Every row has at least as many entries as there are rows: the indices `determinante` reads exist. */
  predicate WideEnough(m: Matrix)
  {
    forall i :: 0 <= i < |m| ==> |m| <= |m[i]|
  }

  /** `(-1) ** c * a * x`, the sign written as a case split rather than a factor. */
  function Signed(c: nat, a: real, x: real): real
  {
    if c % 2 == 0 then a * x else -(a * x)
  }

  /** `[fila[:c] + fila[c+1:] for fila in m[1:]]`: drops row 0 and column `c`. */
  function Minor(m: Matrix, c: nat): (minor: Matrix)
    requires |m| > 0 && WideEnough(m) && c < |m|
    ensures |minor| == |m| - 1 && WideEnough(minor)
    ensures forall r :: 0 <= r < |minor| ==> |minor[r]| == |m[r + 1]| - 1
    ensures forall r, j :: 0 <= r < |minor| && 0 <= j < |minor[r]| ==>
      minor[r][j] == if j < c then m[r + 1][j] else m[r + 1][j + 1]
  {
    seq(|m| - 1, r requires 0 <= r < |m| - 1 => m[r + 1][..c] + m[r + 1][c + 1..])
  }

  /**
    `determinante`: the single entry of a 1-by-1 matrix, `ad - bc` of a
    2-by-2 one, and otherwise the expansion along the first row.
  */
  function Det(m: Matrix): real
    requires WideEnough(m)
    decreases |m|, 1
  {
    if |m| == 1 then m[0][0]
    else if |m| == 2 then m[0][0] * m[1][1] - m[0][1] * m[1][0]
    else CofactorSum(m, |m|)
  }

  /**
    The running total of the expansion after its first `k` terms
    (`det += ...`); terms whose first-row entry is 0 add nothing.
  */
  function CofactorSum(m: Matrix, k: nat): (s: real)
    requires WideEnough(m) && k <= |m|
    ensures (forall c :: 0 <= c < k ==> m[0][c] == 0.0) ==> s == 0.0
    decreases |m|, 0, k
  {
    if k == 0 then 0.0
    else CofactorSum(m, k - 1) + Signed(k - 1, m[0][k - 1], Det(Minor(m, k - 1)))
  }

  /** A zero first row gives determinant 0, whatever the other rows hold. */
  lemma DetZeroFirstRow(m: Matrix)
    requires |m| > 0 && WideEnough(m)
    requires forall c :: 0 <= c < |m| ==> m[0][c] == 0.0
    ensures Det(m) == 0.0
  {
    if |m| > 2 {
      assert CofactorSum(m, |m|) == 0.0;
    }
  }

  /** The `ad - bc` shortcut for 2-by-2 matrices is the first-row expansion it replaces. */
  lemma DetTwoByTwoIsExpansion(m: Matrix)
    requires |m| == 2 && WideEnough(m)
    ensures Det(m) == CofactorSum(m, 2)
  {
    var m0, m1 := Minor(m, 0), Minor(m, 1);
    assert Det(m0) == m[1][1];
    assert Det(m1) == m[1][0];
  }

  /** The product of the diagonal entries. */
  function DiagonalProduct(m: Matrix): real
    requires IsSquare(m)
    decreases |m|
  {
    if |m| == 0 then 1.0 else m[0][0] * DiagonalProduct(Minor(m, 0))
  }

  /** `A_i`: a copy of `m` whose column `i` is replaced by `v`. */
  function ReplaceColumn(m: Matrix, i: nat, v: Vector): (r: Matrix)
    requires |v| >= |m| && forall j :: 0 <= j < |m| ==> i < |m[j]|
    ensures |r| == |m|
    ensures forall j :: 0 <= j < |m| ==> |r[j]| == |m[j]|
    ensures forall j, c :: 0 <= j < |m| && 0 <= c < |m[j]| ==> r[j][c] == if c == i then v[j] else m[j][c]
  {
    seq(|m|, j requires 0 <= j < |m| => m[j][i := v[j]])
  }

  /**
    The copy-and-replace loop of `regla_cramer`: `fila[:]` copies every row,
    then `matriz_reemplazada[j][i] = vector[j]` for every row `j`.
  */
  method ReplacedCopy(m: Matrix, i: nat, v: Vector) returns (r: Matrix)
    requires |v| >= |m| && forall j :: 0 <= j < |m| ==> i < |m[j]|
    ensures |r| == |m|
    ensures forall j :: 0 <= j < |m| ==> |r[j]| == |m[j]|
    ensures forall j, c :: 0 <= j < |m| && 0 <= c < |m[j]| ==> r[j][c] == if c == i then v[j] else m[j][c]
  {
    r := m;
    for j := 0 to |m|
      invariant |r| == |m|
      invariant forall k :: 0 <= k < |m| ==> |r[k]| == |m[k]|
      invariant forall k, c :: 0 <= k < j && 0 <= c < |m[k]| ==> r[k][c] == if c == i then v[k] else m[k][c]
      invariant forall k :: j <= k < |m| ==> r[k] == m[k]
    {
      r := r[j := r[j][i := v[j]]];
    }
  }

  /** `regla_cramer`: `x_i = det(A_i) / det_A` for every column `i`. */
  method Cramer(m: Matrix, v: Vector, det: real) returns (solutions: seq<real>)
    requires WideEnough(m) && |v| >= |m| && det != 0.0
    ensures |solutions| == |m|
    ensures forall i :: 0 <= i < |m| ==> solutions[i] == Det(ReplaceColumn(m, i, v)) / det
  {
    solutions := [];
    for i := 0 to |m|
      invariant |solutions| == i
      invariant forall k :: 0 <= k < i ==> solutions[k] == Det(ReplaceColumn(m, k, v)) / det
    {
      var replaced := ReplacedCopy(m, i, v);
      SameMatrix(replaced, ReplaceColumn(m, i, v));
      solutions := solutions + [Det(replaced) / det];
    }
  }

  /** Below this absolute value the determinant counts as zero (1e-9). */
  const SingularBound: real := 0.000000001

  datatype CramerError = LengthMismatch | Singular | IndexOutOfRange

  /** What `calcular_cramer` shows: the solutions and the determinant of the matrix. */
  datatype Solution = Solution(x: seq<real>, det: real)

  /**
    `calcular_cramer` once the texts are parsed: the row count must equal
    the vector length and `|det(A)|` must reach 1e-9.  A row shorter than
    the row count makes `determinante` read past it (IndexError).
  */
  method CalculateCramer(m: Matrix, v: Vector) returns (r: Result<Solution, CramerError>)
    ensures r == Err(LengthMismatch) <==> |m| != |v|
    ensures r == Err(IndexOutOfRange) <==> |m| == |v| && !WideEnough(m)
    ensures r == Err(Singular) <==> |m| == |v| && WideEnough(m) && Abs(Det(m)) < SingularBound
    ensures r.Ok? <==> |m| == |v| && WideEnough(m) && Abs(Det(m)) >= SingularBound
    ensures r.Ok? ==> r.value.det == Det(m) && |r.value.x| == |m|
    ensures r.Ok? ==> forall i :: 0 <= i < |m| ==> r.value.x[i] == Det(ReplaceColumn(m, i, v)) / Det(m)
  {
    if |m| != |v| {
      return Err(LengthMismatch);
    }
    if !WideEnough(m) {
      return Err(IndexOutOfRange);
    }
    var det := Det(m);
    if Abs(det) < SingularBound {
      return Err(Singular);
    }
    var x := Cramer(m, v, det);
    r := Ok(Solution(x, det));
  }

  // ---------------------------------------------------------------- lemmas

  /** Cramer's rule for two unknowns, written out on plain numbers. */
  lemma TwoByTwoAlgebra(a: real, b: real, c: real, d: real, p: real, q: real)
    requires a * d - b * c != 0.0
    ensures a * ((p * d - b * q) / (a * d - b * c)) + b * ((a * q - p * c) / (a * d - b * c)) == p
    ensures c * ((p * d - b * q) / (a * d - b * c)) + d * ((a * q - p * c) / (a * d - b * c)) == q
  {
    var det, x, y := a * d - b * c, p * d - b * q, a * q - p * c;
    assert a * x + b * y == p * det;
    assert c * x + d * y == q * det;
    assert a * (x / det) + b * (y / det) == (a * x + b * y) / det;
    assert c * (x / det) + d * (y / det) == (c * x + d * y) / det;
  }

  /** On a 2-by-2 system Cramer's rule gives a solution: A x = v. */
  lemma CramerSolvesTwoByTwo(m: Matrix, v: Vector)
    requires HasShape(m, 2, 2) && |v| == 2 && Det(m) != 0.0
    ensures
      var x0, x1 := Det(ReplaceColumn(m, 0, v)) / Det(m), Det(ReplaceColumn(m, 1, v)) / Det(m);
      m[0][0] * x0 + m[0][1] * x1 == v[0] && m[1][0] * x0 + m[1][1] * x1 == v[1]
  {
    var r0, r1 := ReplaceColumn(m, 0, v), ReplaceColumn(m, 1, v);
    assert Det(r0) == v[0] * m[1][1] - m[0][1] * v[1];
    assert Det(r1) == m[0][0] * v[1] - v[0] * m[1][0];
    TwoByTwoAlgebra(m[0][0], m[0][1], m[1][0], m[1][1], v[0], v[1]);
  }

  /** The worked example: A = [[2,1],[1,3]], b = [3,5] gives det 5 and x = [0.8, 1.4]. */
  lemma CramerExample()
    ensures WideEnough([[2.0, 1.0], [1.0, 3.0]])
    ensures Det([[2.0, 1.0], [1.0, 3.0]]) == 5.0
    ensures Det(ReplaceColumn([[2.0, 1.0], [1.0, 3.0]], 0, [3.0, 5.0])) / 5.0 == 0.8
    ensures Det(ReplaceColumn([[2.0, 1.0], [1.0, 3.0]], 1, [3.0, 5.0])) / 5.0 == 1.4
  {
    var a: Matrix := [[2.0, 1.0], [1.0, 3.0]];
    assert Det(ReplaceColumn(a, 0, [3.0, 5.0])) == 4.0;
    assert Det(ReplaceColumn(a, 1, [3.0, 5.0])) == 7.0;
  }

  // ------------------------------------------------------- two equal rows
  //
  // Exchanging two neighbouring rows negates `Det`; for rows 0 and 1 this is
  // shown by expanding along both rows at once, a double sum whose terms the
  // exchange transposes and negates. Two equal rows then give 0.

  /** `f(0) + f(1) + ... + f(k - 1)`. */
  function Sum(f: nat -> real, k: nat): real
  {
    if k == 0 then 0.0 else Sum(f, k - 1) + f(k - 1)
  }

  lemma {:induction false} SumExt(f: nat -> real, g: nat -> real, k: nat)
    requires forall i: nat :: i < k ==> f(i) == g(i)
    ensures Sum(f, k) == Sum(g, k)
  {
    if k > 0 { SumExt(f, g, k - 1); }
  }

  lemma {:induction false} SumAdd(f: nat -> real, g: nat -> real, h: nat -> real, k: nat)
    requires forall i: nat :: i < k ==> h(i) == f(i) + g(i)
    ensures Sum(h, k) == Sum(f, k) + Sum(g, k)
  {
    if k > 0 { SumAdd(f, g, h, k - 1); }
  }

  lemma {:induction false} SumNegate(f: nat -> real, g: nat -> real, k: nat)
    requires forall i: nat :: i < k ==> g(i) == -f(i)
    ensures Sum(g, k) == -Sum(f, k)
  {
    if k > 0 { SumNegate(f, g, k - 1); }
  }

  /** A zero term inserted at position `c`, the later terms moved up by one: the sum is unchanged. */
  lemma {:induction false} SumSkip(g: nat -> real, h: nat -> real, c: nat, k: nat)
    requires c < k
    requires forall e: nat {:trigger h(e)} :: e < c ==> h(e) == g(e)
    requires h(c) == 0.0
    requires forall e: nat {:trigger h(e)} :: c < e < k ==> h(e) == g(e - 1)
    ensures Sum(h, k) == Sum(g, k - 1)
    decreases k
  {
    if k == c + 1 {
      SumExt(h, g, c);
    } else {
      SumSkip(g, h, c, k - 1);
    }
  }

  /** Row `i` of a table of terms, summed over its first `b` columns, as a function of `i`. */
  function RowSums(f: nat -> nat -> real, b: nat): nat -> real
  {
    (i: nat) => Sum(f(i), b)
  }

  /** Column `j` of a table of terms, as a function of the row. */
  function Column(f: nat -> nat -> real, j: nat): nat -> real
  {
    (i: nat) => f(i)(j)
  }

  /** Column `j` of a table of terms, summed over its first `a` rows, as a function of `j`. */
  function ColumnSums(f: nat -> nat -> real, a: nat): nat -> real
  {
    (j: nat) => Sum(Column(f, j), a)
  }

  /** A finite double sum can be taken row by row or column by column. */
  lemma {:induction false} SumOrder(f: nat -> nat -> real, a: nat, b: nat)
    ensures Sum(RowSums(f, b), a) == Sum(ColumnSums(f, a), b)
  {
    if a == 0 {
      // every column sum over no rows is 0, which is its own negation
      SumNegate(ColumnSums(f, 0), ColumnSums(f, 0), b);
    } else {
      SumOrder(f, a - 1, b);
      SumAdd(ColumnSums(f, a - 1), f(a - 1), ColumnSums(f, a), b);
    }
  }

  lemma SignedSum(c: nat, a: real, x: real, y: real)
    ensures Signed(c, a, x + y) == Signed(c, a, x) + Signed(c, a, y)
  {
  }

  lemma SignedNegate(c: nat, a: real, x: real, y: real)
    requires y == -x
    ensures Signed(c, a, y) == -Signed(c, a, x)
  {
  }

  /** `m` with rows `i` and `i + 1` exchanged. */
  function SwapNext(m: Matrix, i: nat): (s: Matrix)
    requires i + 1 < |m|
    ensures |s| == |m| && s[i] == m[i + 1] && s[i + 1] == m[i]
    ensures forall r :: 0 <= r < |m| && r != i && r != i + 1 ==> s[r] == m[r]
    ensures WideEnough(m) ==> WideEnough(s)
  {
    m[i := m[i + 1]][i + 1 := m[i]]
  }

  /** The `c`-th term of the first-row expansion; 0 outside the matrix. */
  function Term(m: Matrix, c: nat): real
  {
    if WideEnough(m) && c < |m| then Signed(c, m[0][c], Det(Minor(m, c))) else 0.0
  }

  /** The first-row terms as a function of the column. */
  function Terms(m: Matrix): nat -> real
  {
    (c: nat) => Term(m, c)
  }

  lemma {:induction false} CofactorSumIsSum(m: Matrix, k: nat)
    requires WideEnough(m) && k <= |m|
    ensures CofactorSum(m, k) == Sum(Terms(m), k)
  {
    if k > 0 {
      CofactorSumIsSum(m, k - 1);
      assert Sum(Terms(m), k) == Sum(Terms(m), k - 1) + Term(m, k - 1);
    }
  }

  /** From 2 rows on, `determinante` is the sum of the first-row terms. */
  lemma {:induction false} DetExpansion(m: Matrix)
    requires |m| >= 2 && WideEnough(m)
    ensures Det(m) == Sum(Terms(m), |m|)
  {
    if |m| == 2 { DetTwoByTwoIsExpansion(m); }
    CofactorSumIsSum(m, |m|);
  }

  /** Exchanging rows `i` and `i + 1`, both below the first, exchanges rows `i - 1` and `i` of every minor. */
  lemma {:induction false} MinorSwapNext(m: Matrix, i: nat, c: nat)
    requires |m| > 0 && WideEnough(m) && 1 <= i && i + 1 < |m| && c < |m|
    ensures Minor(SwapNext(m, i), c) == SwapNext(Minor(m, c), i - 1)
  {
    var lhs, rhs := Minor(SwapNext(m, i), c), SwapNext(Minor(m, c), i - 1);
    forall r | 0 <= r < |lhs| ensures lhs[r] == rhs[r] {
      var s := SwapNext(m, i);
      assert lhs[r] == s[r + 1][..c] + s[r + 1][c + 1..];
    }
  }

  /** Rows 2 onwards without columns `c` and `e`, `c < e`: the minor of a minor. */
  function Minor2(m: Matrix, c: nat, e: nat): (r: Matrix)
    requires |m| >= 2 && WideEnough(m) && c < e < |m|
    ensures |r| == |m| - 2 && WideEnough(r)
  {
    seq(|m| - 2, r requires 0 <= r < |m| - 2 => m[r + 2][..c] + m[r + 2][c + 1..e] + m[r + 2][e + 1..])
  }

  /** Dropping column `c` and then the column that was `e` gives `Minor2`. */
  lemma {:induction false} MinorMinorLeft(m: Matrix, c: nat, e: nat)
    requires |m| >= 2 && WideEnough(m) && c < e < |m|
    ensures Minor(Minor(m, c), e - 1) == Minor2(m, c, e)
  {
    var x := Minor(m, c);
    var lhs, rhs := Minor(x, e - 1), Minor2(m, c, e);
    forall r | 0 <= r < |lhs| ensures lhs[r] == rhs[r] {
      var row := m[r + 2];
      assert x[r + 1] == row[..c] + row[c + 1..];
      assert lhs[r] == x[r + 1][..e - 1] + x[r + 1][e..];
      assert x[r + 1][..e - 1] == row[..c] + row[c + 1..e];
      assert x[r + 1][e..] == row[e + 1..];
    }
  }

  /** Dropping column `e` and then column `c < e` gives `Minor2` too. */
  lemma {:induction false} MinorMinorRight(m: Matrix, c: nat, e: nat)
    requires |m| >= 2 && WideEnough(m) && c < e < |m|
    ensures Minor(Minor(m, e), c) == Minor2(m, c, e)
  {
    var x := Minor(m, e);
    var lhs, rhs := Minor(x, c), Minor2(m, c, e);
    forall r | 0 <= r < |lhs| ensures lhs[r] == rhs[r] {
      var row := m[r + 2];
      assert x[r + 1] == row[..e] + row[e + 1..];
      assert lhs[r] == x[r + 1][..c] + x[r + 1][c + 1..];
      assert x[r + 1][..c] == row[..c];
      assert x[r + 1][c + 1..] == row[c + 1..e] + row[e + 1..];
    }
  }

  /** `Minor2` reads only the rows from 2 on. */
  lemma {:induction false} Minor2LowerRows(m: Matrix, n: Matrix, c: nat, e: nat)
    requires |m| == |n| >= 2 && WideEnough(m) && WideEnough(n) && c < e < |m| && m[2..] == n[2..]
    ensures Minor2(m, c, e) == Minor2(n, c, e)
  {
    forall r | 0 <= r < |m| - 2 ensures Minor2(m, c, e)[r] == Minor2(n, c, e)[r] {
      assert m[r + 2] == m[2..][r] == n[2..][r] == n[r + 2];
    }
  }

  /** The position of column `e` once column `c` is dropped. */
  function Shift(c: nat, e: nat): nat
  {
    if e <= c then e else e - 1
  }

  /**
    The term of the expansion along the first two rows for column `c` of
    row 0 and column `e` of row 1, with the sign each expansion gives it;
    0 when `c == e` or outside the matrix.
  */
  function Term2(m: Matrix, c: nat, e: nat): real
  {
    if |m| >= 3 && WideEnough(m) && c < |m| && e < |m| && c != e then
      var d := if c < e then Det(Minor2(m, c, e)) else Det(Minor2(m, e, c));
      Signed(c, m[0][c], Signed(Shift(c, e), m[1][e], d))
    else 0.0
  }

  /** The second-row terms of a matrix as a table: row `c`, column `e`. */
  function Terms2(m: Matrix): nat -> nat -> real
  {
    (c: nat) => (e: nat) => Term2(m, c, e)
  }

  /** The (c, e) second-row term is the `Shift(c, e)`-th term of minor `c`, with the sign and entry of the first-row term. */
  lemma {:induction false} Term2Entry(m: Matrix, c: nat, e: nat)
    requires |m| >= 3 && WideEnough(m) && c < |m| && e < |m| && c != e
    ensures Term2(m, c, e) == Signed(c, m[0][c], Term(Minor(m, c), Shift(c, e)))
  {
    assert Minor(m, c)[0][Shift(c, e)] == m[1][e];
    if c < e {
      MinorMinorLeft(m, c, e);
    } else {
      MinorMinorRight(m, e, c);
    }
  }

  /** The terms of `t`, each multiplied by `a` and given the sign of column `c`. */
  function Scaled(t: nat -> real, c: nat, a: real): nat -> real
  {
    (d: nat) => Signed(c, a, t(d))
  }

  lemma {:induction false} SumScaled(t: nat -> real, c: nat, a: real, k: nat)
    ensures Sum(Scaled(t, c, a), k) == Signed(c, a, Sum(t, k))
  {
    if k > 0 {
      SumScaled(t, c, a, k - 1);
      SignedSum(c, a, Sum(t, k - 1), t(k - 1));
    }
  }

  /** A first-row term is the sum of its second-row terms. */
  lemma {:induction false} TermExpansion(m: Matrix, c: nat)
    requires |m| >= 3 && WideEnough(m) && c < |m|
    ensures Term(m, c) == Sum(Terms2(m)(c), |m|)
  {
    forall e: nat | e < c ensures Terms2(m)(c)(e) == Scaled(Terms(Minor(m, c)), c, m[0][c])(e) {
      Term2Entry(m, c, e);
    }
    forall e: nat | c < e < |m| ensures Terms2(m)(c)(e) == Scaled(Terms(Minor(m, c)), c, m[0][c])(e - 1) {
      Term2Entry(m, c, e);
    }
    SumSkip(Scaled(Terms(Minor(m, c)), c, m[0][c]), Terms2(m)(c), c, |m|);
    SumScaled(Terms(Minor(m, c)), c, m[0][c], |m| - 1);
    DetExpansion(Minor(m, c));
  }

  lemma SwapSignsBefore(c: nat, e: nat, p: real, q: real, d: real)
    requires 1 <= e
    ensures Signed(c, q, Signed(e - 1, p, d)) == -Signed(e, p, Signed(c, q, d))
  {
  }

  lemma SwapSignsAfter(c: nat, e: nat, p: real, q: real, d: real)
    requires 1 <= c
    ensures Signed(c, q, Signed(e, p, d)) == -Signed(e, p, Signed(c - 1, q, d))
  {
  }

  /** Exchanging the first two rows turns the (c, e) term, `c < e`, into minus the (e, c) term. */
  lemma {:induction false} Term2SwapBefore(m: Matrix, c: nat, e: nat)
    requires |m| >= 3 && WideEnough(m) && c < e < |m|
    ensures Term2(SwapNext(m, 0), c, e) == -Term2(m, e, c)
  {
    assert SwapNext(m, 0)[2..] == m[2..];
    Minor2LowerRows(SwapNext(m, 0), m, c, e);
    SwapSignsBefore(c, e, m[0][e], m[1][c], Det(Minor2(m, c, e)));
  }

  /** Exchanging the first two rows turns the (c, e) term, `e < c`, into minus the (e, c) term. */
  lemma {:induction false} Term2SwapAfter(m: Matrix, c: nat, e: nat)
    requires |m| >= 3 && WideEnough(m) && e < c < |m|
    ensures Term2(SwapNext(m, 0), c, e) == -Term2(m, e, c)
  {
    assert SwapNext(m, 0)[2..] == m[2..];
    Minor2LowerRows(SwapNext(m, 0), m, e, c);
    SwapSignsAfter(c, e, m[0][e], m[1][c], Det(Minor2(m, e, c)));
  }

  /** Exchanging the first two rows turns the (c, e) term into minus the (e, c) term. */
  lemma {:induction false} Term2Swap(m: Matrix, c: nat, e: nat)
    requires |m| >= 3 && WideEnough(m)
    ensures Term2(SwapNext(m, 0), c, e) == -Term2(m, e, c)
  {
    if c < |m| && e < |m| {
      if c < e { Term2SwapBefore(m, c, e); }
      else if e < c { Term2SwapAfter(m, c, e); }
    }
  }

  /** The determinant as the double sum of the second-row terms, row by row. */
  lemma {:induction false} DetAsRows(m: Matrix)
    requires |m| >= 3 && WideEnough(m)
    ensures Det(m) == Sum(RowSums(Terms2(m), |m|), |m|)
  {
    DetExpansion(m);
    forall c: nat | c < |m| ensures Terms(m)(c) == RowSums(Terms2(m), |m|)(c) {
      TermExpansion(m, c);
    }
    SumExt(Terms(m), RowSums(Terms2(m), |m|), |m|);
  }

  /** With the first two rows exchanged, a first-row term is minus a column of second-row terms. */
  lemma {:induction false} SwappedTerm(m: Matrix, c: nat)
    requires |m| >= 3 && WideEnough(m) && c < |m|
    ensures Term(SwapNext(m, 0), c) == -ColumnSums(Terms2(m), |m|)(c)
  {
    TermExpansion(SwapNext(m, 0), c);
    forall e: nat | e < |m| ensures Terms2(SwapNext(m, 0))(c)(e) == -Column(Terms2(m), c)(e) {
      Term2Swap(m, c, e);
    }
    SumNegate(Column(Terms2(m), c), Terms2(SwapNext(m, 0))(c), |m|);
  }

  /** Exchanging the first two rows negates the determinant. */
  lemma {:induction false} SwapFirstTwo(m: Matrix)
    requires |m| >= 3 && WideEnough(m)
    ensures Det(SwapNext(m, 0)) == -Det(m)
  {
    DetAsRows(m);
    DetExpansion(SwapNext(m, 0));
    forall c: nat | c < |m| ensures Terms(SwapNext(m, 0))(c) == -ColumnSums(Terms2(m), |m|)(c) {
      SwappedTerm(m, c);
    }
    SumNegate(ColumnSums(Terms2(m), |m|), Terms(SwapNext(m, 0)), |m|);
    SumOrder(Terms2(m), |m|, |m|);
  }

  /** Exchanging two neighbouring rows negates the determinant. */
  lemma {:induction false} DetSwapNext(m: Matrix, i: nat)
    requires WideEnough(m) && i + 1 < |m|
    ensures Det(SwapNext(m, i)) == -Det(m)
    decreases |m|
  {
    if |m| == 2 {
      assert i == 0;
    } else if i == 0 {
      SwapFirstTwo(m);
    } else {
      forall c: nat | c < |m| ensures Terms(SwapNext(m, i))(c) == -Terms(m)(c) {
        MinorSwapNext(m, i, c);
        DetSwapNext(Minor(m, c), i - 1);
        SignedNegate(c, m[0][c], Det(Minor(m, c)), Det(Minor(SwapNext(m, i), c)));
      }
      DetExpansion(m);
      DetExpansion(SwapNext(m, i));
      SumNegate(Terms(m), Terms(SwapNext(m, i)), |m|);
    }
  }

  /** A matrix with two equal rows has determinant 0. */
  lemma {:induction false} DetEqualRows(m: Matrix, r: nat, s: nat)
    requires WideEnough(m) && r < s < |m| && m[r] == m[s]
    ensures Det(m) == 0.0
    decreases s - r
  {
    if s == r + 1 {
      DetSwapNext(m, r);
      assert SwapNext(m, r) == m;
    } else {
      DetSwapNext(m, s - 1);
      DetEqualRows(SwapNext(m, s - 1), r, s - 1);
    }
  }
}
