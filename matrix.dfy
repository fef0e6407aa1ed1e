/**
  Matrices and vectors as the calculator handles them: lists of rows of
  numbers.  Exact rationals (`Fraction`) and floats are both modelled by
  `real`.
*/
module Matrix {

  type Matrix = seq<seq<real>>
  type Vector = seq<real>

  /** `m` has `rows` rows of exactly `cols` entries each. */
  predicate HasShape(m: Matrix, rows: nat, cols: nat)
  {
    |m| == rows && forall i :: 0 <= i < |m| ==> |m[i]| == cols
  }

  /** Every row has the same length as the first one. */
  predicate Rectangular(m: Matrix)
  {
    forall i :: 0 <= i < |m| ==> |m[i]| == |m[0]|
  }

  predicate IsSquare(m: Matrix)
  {
    HasShape(m, |m|, |m|)
  }

  /**
    Python's `sum(u[k] * v[k] for k in range(len(u)))`: the terms are added
    from left to right, starting from zero.
  */
  function Dot(u: Vector, v: Vector): real
    requires |u| == |v|
    decreases |u|
  {
    if |u| == 0 then 0.0 else Dot(u[..|u| - 1], v[..|v| - 1]) + u[|u| - 1] * v[|v| - 1]
  }

  /** The first `len` entries of column `j`. */
  function Column(m: Matrix, j: nat, len: nat): (col: Vector)
    requires len <= |m| && forall k :: 0 <= k < len ==> j < |m[k]|
    ensures |col| == len && forall k :: 0 <= k < len ==> col[k] == m[k][j]
  {
    seq(len, k requires 0 <= k < len => m[k][j])
  }

  /** `matriz_identidad(n)`: the n-by-n identity matrix. */
  function Identity(n: nat): (id: Matrix)
    ensures HasShape(id, n, n)
    ensures forall i, j :: 0 <= i < n && 0 <= j < n ==> id[i][j] == if i == j then 1.0 else 0.0
  {
    seq(n, i => seq(n, j => if i == j then 1.0 else 0.0))
  }

  /** Every entry of `v` divided by `p`. */
  function DivideAll(v: Vector, p: real): (r: Vector)
    requires p != 0.0
    ensures |r| == |v|
    decreases |v|
  {
    if |v| == 0 then [] else DivideAll(v[..|v| - 1], p) + [v[|v| - 1] / p]
  }

  /** Entry `j` of `DivideAll(v, p)` is `v[j] / p`. */
  lemma {:induction false} DivideAllEntry(v: Vector, p: real, j: nat)
    requires p != 0.0 && j < |v|
    ensures DivideAll(v, p)[j] == v[j] / p
  {
    var n := |v| - 1;
    if j < n {
      DivideAllEntry(v[..n], p, j);
    }
  }

  /** `v - f w`, entry by entry. */
  function SubtractScaled(v: Vector, w: Vector, f: real): (r: Vector)
    requires |v| == |w|
    ensures |r| == |v|
    decreases |v|
  {
    if |v| == 0 then [] else SubtractScaled(v[..|v| - 1], w[..|w| - 1], f) + [v[|v| - 1] - f * w[|w| - 1]]
  }

  /** Entry `j` of `SubtractScaled(v, w, f)` is `v[j] - f * w[j]`. */
  lemma {:induction false} SubtractScaledEntry(v: Vector, w: Vector, f: real, j: nat)
    requires |v| == |w| && j < |v|
    ensures SubtractScaled(v, w, f)[j] == v[j] - f * w[j]
  {
    var n := |v| - 1;
    if j < n {
      SubtractScaledEntry(v[..n], w[..n], f, j);
    }
  }

  /** Dividing one side by `p` divides the dot product by `p`. */
  lemma {:induction false} DotDivideAll(v: Vector, w: Vector, p: real)
    requires |v| == |w| && p != 0.0
    ensures Dot(DivideAll(v, p), w) == Dot(v, w) / p
  {
    if |v| > 0 {
      var n := |v| - 1;
      var u := DivideAll(v, p);
      assert u[..n] == DivideAll(v[..n], p);
      DotDivideAll(v[..n], w[..n], p);
      assert u[n] * w[n] == v[n] * w[n] / p;
    }
  }

  /** The dot product is linear in its first argument. */
  lemma {:induction false} DotSubtractScaled(v: Vector, w: Vector, x: Vector, f: real)
    requires |v| == |w| == |x|
    ensures Dot(SubtractScaled(v, w, f), x) == Dot(v, x) - f * Dot(w, x)
  {
    if |v| > 0 {
      var n := |v| - 1;
      var u := SubtractScaled(v, w, f);
      assert u[..n] == SubtractScaled(v[..n], w[..n], f);
      DotSubtractScaled(v[..n], w[..n], x[..n], f);
    }
  }

  /** The dot product is additive in its second argument. */
  lemma {:induction false} DotAdd(u: Vector, v: Vector, w: Vector, x: Vector)
    requires |u| == |v| == |w| == |x|
    requires forall k :: 0 <= k < |x| ==> x[k] == v[k] + w[k]
    ensures Dot(u, x) == Dot(u, v) + Dot(u, w)
  {
    if |u| > 0 {
      var n := |u| - 1;
      DotAdd(u[..n], v[..n], w[..n], x[..n]);
    }
  }

  /** The dot product is symmetric. */
  lemma {:induction false} DotSymmetric(u: Vector, v: Vector)
    requires |u| == |v|
    ensures Dot(u, v) == Dot(v, u)
  {
    if |u| > 0 {
      DotSymmetric(u[..|u| - 1], v[..|v| - 1]);
    }
  }

  /** Dotting with a unit vector picks out one entry. */
  lemma {:induction false} DotUnit(u: Vector, e: Vector, j: nat)
    requires |u| == |e| && j < |u|
    requires forall k :: 0 <= k < |e| ==> e[k] == if k == j then 1.0 else 0.0
    ensures Dot(u, e) == u[j]
  {
    var n := |u| - 1;
    if j < n {
      DotUnit(u[..n], e[..n], j);
    } else {
      DotZero(u[..n], e[..n]);
    }
  }

  /** Dotting with a zero vector gives zero. */
  lemma {:induction false} DotZero(u: Vector, e: Vector)
    requires |u| == |e|
    requires forall k :: 0 <= k < |e| ==> e[k] == 0.0
    ensures Dot(u, e) == 0.0
  {
    if |u| > 0 {
      DotZero(u[..|u| - 1], e[..|e| - 1]);
    }
  }

  /** Two matrices with the same shape and the same entries are equal. */
  lemma SameMatrix(a: Matrix, b: Matrix)
    requires |a| == |b| && forall i :: 0 <= i < |a| ==> |a[i]| == |b[i]|
    requires forall i, j :: 0 <= i < |a| && 0 <= j < |a[i]| ==> a[i][j] == b[i][j]
    ensures a == b
  {
    forall i | 0 <= i < |a| ensures a[i] == b[i] { }
  }
}
