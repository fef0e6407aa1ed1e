# algcalculadora, computational core in Dafny

algcalculadora is a PyQt desktop calculator for linear algebra and for
numerical root finding. Each tool is a widget class. The arithmetic sits in
a few methods of those classes. This project models that arithmetic and
proves what it computes:

- `gauss_jordan` inverts a square matrix by reducing `[A | I]` in place,
  without row swaps.
- `determinante` is a recursive first-row cofactor expansion.
  `regla_cramer` solves `A x = b` with it, and `calcular_cramer` guards the
  call.
- `verificar_propiedades` reports whether a matrix is diagonal, upper
  triangular, lower triangular or symmetric.
- `transponer_matriz`, `multiplicar_matrices` and the vector helpers behind
  the distributive-law check, each with the input guards in front of it.
- `convertir_a_matriz` keeps only digits and `,;.-`, then splits rows on
  `;` and cells on `,`.
- The loops of bisection, false position (regula falsi), Newton-Raphson and
  the secant method.

Modules follow the source files:

| module | file |
|---|---|
| `Common` | shared `Option`, `Result`, `Abs`, trace concatenation |
| `Matrix` | matrix and vector types, `Dot`, `matriz_identidad` |
| `Inverse` | Matriz_Inversa.py |
| `Determinant` | Regla_De_Cramer.py |
| `Properties` | Determinantes.py |
| `Transpose` | Metodo_De_Matrices_Transpuestas.py |
| `Multiplication` | Multiplicacion_De_Matrices.py |
| `Distributive` | Propiedad_Distributiva.py |
| `MatrixText` | Matriz_Por_Vector.py, plus the `;`/`,` splitting the other widgets share |
| `Bisection`, `FalsePosition`, `NewtonRaphson`, `Secant` | the four root-finder files |

How the source becomes Dafny:

- Numbers are `real`. The inverse uses `Fraction` in the source, so for
  the inverse the model is exact.
- The Gauss-Jordan reduction runs on an `array2<real>`, as the source
  mutates `matriz` in place. A functional reference, `GaussJordan`, says
  what it computes, and the lemmas are about that reference.
- Each root-finder is a `method` with the source's loop. Its
  postcondition ties the result to a recursive function of the inputs. The
  lemmas describe the trace that function builds.
- Trace lines are datatypes, not formatted strings.
- The function under study, and for Newton-Raphson its derivative, are
  parameters of type `real -> real`. In the source they are built by sympy.
- Turning a cell's text into a number is a parameter
  `parse: string -> Option<real>`, where `None` means `float()` raised.
- A Python exception becomes an `Err` value. A `ValueError` gets a named
  case. A crash that the widget catches as "Error inesperado" (an
  `IndexError` on a ragged row, an unbound `c`) gets a case of its own.

Where the code departs from the textbook methods, the model follows the
code:

- `biseccion` checks no sign change, and its stopping width is fixed at
  1e-6 rather than taken from the user. With `iteraciones <= 0` the final
  line reads an unbound `c`. The model returns `Err(MidpointUnbound)` there.
- `newton_raphson` drops every earlier line when it meets a zero
  derivative or runs out of iterations. It returns only the one message.
- `falsa_posicion` and `metodo_secante` raise when the iterations run out.
  No trace comes back.
- `calcular` (false position) lets `f(a) * f(b) == 0` through.

## Model

| member | source | states |
|---|---|---|
| Matrix.Identity | algcalculadora/Matriz_Inversa.py:9-10 | the identity is n×n, with 1 where i == j and 0 elsewhere |
| Matrix.Column | algcalculadora/Multiplicacion_De_Matrices.py:203 | column j of a matrix, read down the first `len` rows |
| Inverse.ScaleRow | algcalculadora/Matriz_Inversa.py:24-26 | dividing row i by the pivot keeps the shape and leaves every other row unchanged |
| Inverse.Eliminate | algcalculadora/Matriz_Inversa.py:27-32 | subtracting multiples of row i from the other rows keeps the shape and leaves row i unchanged |
| Inverse.EliminateRows | algcalculadora/Matriz_Inversa.py:27-32 | the elimination over rows 0..k-1 keeps the shape and row i |
| Inverse.PivotStep | algcalculadora/Matriz_Inversa.py:23-32 | one pivot step maps a square pair `[M, I']` to a square pair |
| Inverse.ReduceFrom | algcalculadora/Matriz_Inversa.py:20-33 | the reduction from row i either stays square or fails at a row index between i and n-1 |
| Inverse.GaussJordan | algcalculadora/Matriz_Inversa.py:16-33 | the reference the in-place method is proved against: an n×n result, or the row (< n) with a zero pivot; a zero top-left entry fails at row 0 and a non-zero one never does |
| Inverse.Grid | algcalculadora/Matriz_Inversa.py:16-33 | an `array2` read as a matrix of the same shape and entries |
| Inverse.DivideRow | algcalculadora/Matriz_Inversa.py:24-26 | the in-place division of row i of both arrays equals `ScaleRow` on the old contents |
| Inverse.SubtractRow | algcalculadora/Matriz_Inversa.py:29-32 | the in-place update of row k of both arrays subtracts `factor` times row i and changes nothing else |
| Inverse.ClearColumn | algcalculadora/Matriz_Inversa.py:27-32 | the in-place loop over k equals `Eliminate` on the old contents, with the factors taken from column i before the loop |
| Inverse.GaussJordanInPlace | algcalculadora/Matriz_Inversa.py:16-33 | succeeds iff the reference `GaussJordan` does and returns its result in a fresh array; on failure at row i, `matriz[i][i] == 0` in the partly reduced matrix; on success `matriz` holds the reduced left half |
| Inverse.PivotStepOnGrids | algcalculadora/Matriz_Inversa.py:23-32 | scaling and then eliminating both halves is exactly one `PivotStep`, and the reduction continues from row i+1 |
| Inverse.ScaleRowProduct | algcalculadora/Matriz_Inversa.py:24-26 | scaling a row of E and then multiplying by A equals scaling that row of E×A |
| Inverse.EliminateProduct | algcalculadora/Matriz_Inversa.py:27-32 | eliminating rows of E and then multiplying by A equals eliminating the same rows of E×A |
| Inverse.PivotStepKeepsProduct | algcalculadora/Matriz_Inversa.py:19-32 | the same row operations on both halves keep `identidad × A_original == matriz` |
| Inverse.EliminatedEntry | algcalculadora/Matriz_Inversa.py:27-32 | after elimination, column c ≤ i is a unit column once row i's pivot is 1 and earlier columns already were |
| Inverse.PivotStepUnitColumns | algcalculadora/Matriz_Inversa.py:23-32 | after row i is processed, `matriz[i][i] == 1`, `matriz[k][i] == 0` for k ≠ i, and columns 0..i-1 stay unit columns |
| Inverse.ReduceFromInvariant | algcalculadora/Matriz_Inversa.py:19-33 | a successful reduction ends with the identity on the left and a right half R with R × A == I |
| Inverse.InverseIsLeftInverse | algcalculadora/Matriz_Inversa.py:16-33 | on success the left half becomes the identity, the result is n×n, and result × A == I |
| Inverse.UnitColumnsIdentity | algcalculadora/Matriz_Inversa.py:20-32 | a square matrix whose columns are all unit columns is the identity |
| Inverse.ZeroColumnFails | algcalculadora/Matriz_Inversa.py:21-22 | a matrix with an all-zero column is reported singular |
| Inverse.SingularExample | algcalculadora/Matriz_Inversa.py:21-22 | `[[1,2],[2,4]]` fails at row 1 |
| Inverse.NoPivotingExample | algcalculadora/Matriz_Inversa.py:21-22 | `[[0,1],[1,0]]` fails at row 0 although it is invertible: no row swap is tried |
| Inverse.InverseExample | algcalculadora/Matriz_Inversa.py:16-33 | `[[2,0],[0,2]]` inverts to `[[0.5,0],[0,0.5]]` |
| Determinant.Det | algcalculadora/Regla_De_Cramer.py:185-194 | `determinante`: the 1×1 entry, `ad - bc`, or the first-row cofactor expansion; its lemmas give det I = 1, triangular determinants as diagonal products, 0 for a zero first row or first column, a sign change when two neighbouring rows are exchanged, and 0 for two equal rows |
| Determinant.CofactorSum | algcalculadora/Regla_De_Cramer.py:190-193 | the running total of `det += (-1)**c * m[0][c] * det(minor)`; terms with a zero first-row entry add nothing |
| Determinant.DetZeroFirstRow | algcalculadora/Regla_De_Cramer.py:185-194 | a matrix whose first row is zero has determinant 0 |
| Determinant.DetTwoByTwoIsExpansion | algcalculadora/Regla_De_Cramer.py:188-193 | the 2×2 shortcut `ad - bc` equals the first-row cofactor expansion |
| Determinant.DetExpansion | algcalculadora/Regla_De_Cramer.py:185-194 | from two rows on, the determinant is the sum of the signed first-row terms `(-1)**c * m[0][c] * det(minor c)`, the 2×2 shortcut included |
| Determinant.TermExpansion | algcalculadora/Regla_De_Cramer.py:190-193 | each first-row term equals the sum, over the columns of row 1, of the terms of the expansion along the first two rows |
| Determinant.SwapFirstTwo | algcalculadora/Regla_De_Cramer.py:185-194 | exchanging rows 0 and 1 negates the determinant |
| Determinant.DetSwapNext | algcalculadora/Regla_De_Cramer.py:185-194 | exchanging any two neighbouring rows negates the determinant |
| Determinant.DetEqualRows | algcalculadora/Regla_De_Cramer.py:185-194 | a matrix with two equal rows has determinant 0 |
| Determinant.Minor | algcalculadora/Regla_De_Cramer.py:192 | the minor drops row 0 and column c |
| Determinant.ReplaceColumn | algcalculadora/Regla_De_Cramer.py:179-181 | `A_i` equals A except that column i holds the vector |
| Determinant.ReplacedCopy | algcalculadora/Regla_De_Cramer.py:179-181 | the copy-and-assign loop builds exactly `ReplaceColumn`, leaving the caller's matrix as it was |
| Determinant.Cramer | algcalculadora/Regla_De_Cramer.py:176-183 | returns `len(matriz)` values with `x_i = det(A_i) / det_A` |
| Determinant.CalculateCramer | algcalculadora/Regla_De_Cramer.py:143-168 | rejected iff the row count differs from the vector length, a row is too short for the expansion, or `abs(det) < 1e-9`; otherwise returns det and the Cramer values |
| Determinant.CramerSolvesTwoByTwo | algcalculadora/Regla_De_Cramer.py:176-189 | for a 2×2 system with non-zero determinant, the Cramer values satisfy both equations |
| Determinant.CramerExample | algcalculadora/Regla_De_Cramer.py:176-189 | `[[2,1],[1,3]] x = [3,5]` has det 5 and solution (0.8, 1.4) |
| Properties.PropertyMessages | algcalculadora/Determinantes.py:294-315 | each of the four messages is reported iff its predicate holds; at most four messages |
| Properties.SymmetricMeansMirrored | algcalculadora/Determinantes.py:312-313 | "equals its transpose" holds iff `m[i][j] == m[j][i]` for all i, j |
| Properties.DiagonalImpliesOthers | algcalculadora/Determinantes.py:300-313 | a diagonal matrix also gets the upper, lower and symmetric messages |
| Properties.IdentityHasAllProperties | algcalculadora/Determinantes.py:296-315 | the identity gets all four messages, in the order diagonal, upper, lower, symmetric |
| Properties.DetLowerTriangular | algcalculadora/Regla_De_Cramer.py:185-194 | the cofactor expansion of a lower triangular matrix is the product of its diagonal |
| Properties.DetUpperTriangular | algcalculadora/Regla_De_Cramer.py:185-194 | the cofactor expansion of an upper triangular matrix is the product of its diagonal |
| Properties.DetZeroFirstColumn | algcalculadora/Regla_De_Cramer.py:185-194 | a matrix whose first column is zero has determinant 0 |
| Properties.DetIdentity | algcalculadora/Regla_De_Cramer.py:185-194 | the determinant of every n×n identity is 1 |
| Properties.DiagonalDeterminant | algcalculadora/Determinantes.py:300-301 | the diagonal message's claim: the determinant is the product of the diagonal |
| Properties.TriangularDeterminant | algcalculadora/Determinantes.py:304-309 | a matrix reported triangular has the product of its diagonal as determinant |
| Properties.CalculateDeterminantProperties | algcalculadora/Determinantes.py:261-283 | rejected when there are no rows, when the row count differs from the first row's length, or when a cell is empty; otherwise the messages of the filled-in matrix |
| Transpose.ShortestRow | algcalculadora/Metodo_De_Matrices_Transpuestas.py:172 | `zip(*m)` stops at the shortest row |
| Transpose.Transpose | algcalculadora/Metodo_De_Matrices_Transpuestas.py:170-172 | the transpose has as many rows as the shortest input row, each of length `len(m)`, and `T[j][i] == M[i][j]` |
| Transpose.TransposeShape | algcalculadora/Metodo_De_Matrices_Transpuestas.py:170-172 | the transpose of an m×n matrix is n×m |
| Transpose.TransposeTwice | algcalculadora/Metodo_De_Matrices_Transpuestas.py:172 | transposing twice returns a rectangular M with m, n ≥ 1 |
| Transpose.TransposeTwiceLosesEmptyRows | algcalculadora/Metodo_De_Matrices_Transpuestas.py:172 | with empty rows, transposing twice does not return M |
| Transpose.CalculateTranspose | algcalculadora/Metodo_De_Matrices_Transpuestas.py:144-159 | blank input, a non-numeric cell and ragged rows are each rejected iff they occur; otherwise the result is the n×m transpose of the parsed matrix |
| Multiplication.Product | algcalculadora/Multiplicacion_De_Matrices.py:197-204 | the result has `len(A)` rows and `len(B[0])` columns, with `AB[i][j] == Σ_{k < len(A[0])} A[i][k]·B[k][j]` |
| Multiplication.ProductIdentityRight | algcalculadora/Multiplicacion_De_Matrices.py:203 | A × I == A |
| Multiplication.ProductIdentityLeft | algcalculadora/Multiplicacion_De_Matrices.py:203 | I × B == B |
| Multiplication.TransposeOfProduct | algcalculadora/Multiplicacion_De_Matrices.py:203 | (A×B)ᵀ == Bᵀ × Aᵀ |
| Multiplication.CalculateMultiplication | algcalculadora/Multiplicacion_De_Matrices.py:163-181 | each error is reported iff its case occurs: a blank text; otherwise a cell that does not parse; otherwise `len(A[0]) != len(B)`; otherwise a row too short for the product; every other input succeeds with the product of the parsed matrices |
| Distributive.VectorSum | algcalculadora/Propiedad_Distributiva.py:205-206 | length `len(u)`, entry i equal to `u[i] + v[i]` |
| Distributive.MatrixVector | algcalculadora/Propiedad_Distributiva.py:211-212 | one entry per row, equal to `Σ_{j < len(vector)} fila[j]·vector[j]` |
| Distributive.MatrixVectorDistributes | algcalculadora/Propiedad_Distributiva.py:176-181 | A(u+v) == Au + Av over the reals |
| Distributive.Close | algcalculadora/Propiedad_Distributiva.py:208-209 | `all` over the pairs `zip` forms: an empty vector is close to anything, and a tolerance ≤ 0 fails any non-empty pair |
| Distributive.CloseReflexive | algcalculadora/Propiedad_Distributiva.py:208-209 | a vector compared with itself is within any positive tolerance |
| Distributive.Check | algcalculadora/Propiedad_Distributiva.py:176-188 | both sides have one entry per row, and the check always reports "Cumple" |
| Distributive.CheckParsed | algcalculadora/Propiedad_Distributiva.py:169-188 | invalid number, dimension mismatch and a row shorter than u are each reported iff they occur, so every other input gets a report; that report compares A(u+v) with Au+Av and holds |
| Distributive.CalculateDistributive | algcalculadora/Propiedad_Distributiva.py:159-188 | a blank field is rejected iff one occurs; otherwise the result is the checks on the parsed inputs |
| MatrixText.Sanitize | algcalculadora/Matriz_Por_Vector.py:133 | the filtered text is no longer than the input and holds only digits, `,`, `;`, `.` and `-` |
| MatrixText.SanitizeAppend | algcalculadora/Matriz_Por_Vector.py:133 | filtering distributes over concatenation, so it keeps allowed characters in their original order |
| MatrixText.SanitizeOne | algcalculadora/Matriz_Por_Vector.py:133 | one character is kept iff it is allowed |
| MatrixText.SanitizeKeepsAllowed | algcalculadora/Matriz_Por_Vector.py:133 | text of allowed characters only is left unchanged |
| MatrixText.SanitizeIdempotent | algcalculadora/Matriz_Por_Vector.py:133 | filtering twice equals filtering once |
| MatrixText.Split | algcalculadora/Matriz_Por_Vector.py:135 | `str.split` always yields at least one part |
| MatrixText.SplitCount | algcalculadora/Matriz_Por_Vector.py:135 | splitting yields one more part than there are separators, and no part contains the separator |
| MatrixText.JoinSplit | algcalculadora/Matriz_Por_Vector.py:135 | joining the parts with the separator gives back the text |
| MatrixText.Cells | algcalculadora/Matriz_Por_Vector.py:135 | rows are the `;`-segments, and the cells of a row are its `,`-segments |
| MatrixText.ParseRow | algcalculadora/Matriz_Por_Vector.py:135-137 | a row parses iff every cell parses, giving one number per cell |
| MatrixText.ParseCells | algcalculadora/Matriz_Por_Vector.py:135-137 | a matrix parses iff every row parses, giving one vector per row |
| MatrixText.ParseMatrix | algcalculadora/Matriz_Por_Vector.py:135 | a parsed matrix has one more row than there are `;` |
| MatrixText.ParseVector | algcalculadora/Propiedad_Distributiva.py:170-171 | a parsed vector has one more entry than there are `,` |
| MatrixText.RowLength | algcalculadora/Matriz_Por_Vector.py:135 | row r has one more cell than there are `,` in the r-th `;`-segment |
| MatrixText.ConvertToMatrix | algcalculadora/Matriz_Por_Vector.py:132-138 | succeeds iff the filtered text parses; the result has one row per `;` plus one; a failure is the invalid-format error |
| MatrixText.CalculateMatrix | algcalculadora/Matriz_Por_Vector.py:120-125 | blank input is rejected iff it is blank; otherwise the result is that of the conversion |
| Bisection.Next | algcalculadora/Metodo_Biseccion.py:148-165 | one endpoint is kept and the other becomes the midpoint c |
| Bisection.NextHalves | algcalculadora/Metodo_Biseccion.py:148-165 | if a < b, the new bracket lies within [a, b], is still ordered, and is exactly half as wide; a strict sign change is kept when `f(c) != 0` |
| Bisection.Iterate | algcalculadora/Metodo_Biseccion.py:147-167 | the lines of the loop end with exactly one closing line, "root found" or "approximated", and no closing line comes earlier |
| Bisection.Iterations | algcalculadora/Metodo_Biseccion.py:147-160 | the number of iterations that run is between 1 and `iteraciones`, or 0 when none can |
| Bisection.BisectionTrace | algcalculadora/Metodo_Biseccion.py:144-168 | the trace fails, with the unbound-midpoint error, iff `iteraciones < 1` |
| Bisection.Bisect | algcalculadora/Metodo_Biseccion.py:144-168 | the loop returns exactly the trace `BisectionTrace` describes |
| Bisection.CalculateBisection | algcalculadora/Metodo_Biseccion.py:119-135 | rejected iff `a >= b`; otherwise the trace of `biseccion` |
| Bisection.IterateLength | algcalculadora/Metodo_Biseccion.py:153-167 | the iterations produce 4 lines each, plus one closing line |
| Bisection.TraceLength | algcalculadora/Metodo_Biseccion.py:146-167 | with k iterations run, 1 ≤ k ≤ `iteraciones`, the trace has 4k + 2 lines |
| Bisection.BracketNested | algcalculadora/Metodo_Biseccion.py:162-165 | after k updates of an ordered [a0, b0], the bracket lies within it, is still ordered, and is `(b0 - a0) / 2^k` wide |
| Bisection.BracketStep | algcalculadora/Metodo_Biseccion.py:162-165 | the bracket after k+1 updates is one update of the bracket after k |
| Bisection.IterationBlock | algcalculadora/Metodo_Biseccion.py:148-160 | the 4 lines of iteration k show the k-th bracket's ends, midpoint and values, and no iteration before the last met the stop test |
| Bisection.SignChangeKept | algcalculadora/Metodo_Biseccion.py:158-165 | starting on a strict sign change, every bracket the loop visits keeps it |
| Bisection.ClosingLine | algcalculadora/Metodo_Biseccion.py:158-167 | the last line is "root found" at the last midpoint when the stop test held, and otherwise "approximated after `iteraciones`"; in that case every iteration ran |
| FalsePosition.Intercept | algcalculadora/Falsa_Posicion.py:200 | c is where the chord through (a, f(a)) and (b, f(b)) meets zero |
| FalsePosition.Next | algcalculadora/Falsa_Posicion.py:206-209 | only one endpoint changes, and it becomes c |
| FalsePosition.Run | algcalculadora/Falsa_Posicion.py:194-211 | a success records between 1 and `max_iter` lines; the loop itself never reports a missing sign change |
| FalsePosition.FalsePositionLoop | algcalculadora/Falsa_Posicion.py:194-211 | the loop returns exactly what `Run` describes |
| FalsePosition.CalculateFalsePosition | algcalculadora/Falsa_Posicion.py:174-188 | rejected iff `f(a)·f(b) > 0`; a zero product goes on to the loop |
| FalsePosition.InterceptBetween | algcalculadora/Falsa_Posicion.py:200 | with `f(a)·f(b) < 0` the division is defined and c lies strictly between a and b |
| FalsePosition.NextKeepsSignChange | algcalculadora/Falsa_Posicion.py:200-209 | the update keeps a strict sign change, when `f(c) != 0`, and stays within the old bracket |
| FalsePosition.RunTrace | algcalculadora/Falsa_Posicion.py:199-209 | lines are numbered from 1; the first is on (a, b); each c is the chord's zero; each later bracket is the update of the previous one after its `abs(f(c)) < tol` test failed; the root is the last c, the only one that passed |
| FalsePosition.RunStaysInBracket | algcalculadora/Falsa_Posicion.py:199-209 | from a strict sign change with `tol > 0` there is no division by zero, every recorded bracket keeps the sign change within the start interval, and every c and the root lie strictly inside |
| FalsePosition.EndpointRoot | algcalculadora/Falsa_Posicion.py:185-204 | when `f(a) == 0` passes the guard, the first c is a and it is returned at once |
| FalsePosition.LinearExact | algcalculadora/Falsa_Posicion.py:200 | on a straight line the first chord lands on the root |
| NewtonRaphson.NewtonStep | algcalculadora/Met_Newton_Raphson.py:201 | `xi1` is where the tangent at xi meets zero |
| NewtonRaphson.RelativeError | algcalculadora/Met_Newton_Raphson.py:202 | infinite iff `xi1 == 0`; otherwise non-negative, and zero iff the point did not move |
| NewtonRaphson.Run | algcalculadora/Met_Newton_Raphson.py:190-208 | a failure returns no root and exactly one message, for a zero derivative or for no convergence; a success records between 1 and `max_iter` lines |
| NewtonRaphson.NewtonLoop | algcalculadora/Met_Newton_Raphson.py:190-208 | the loop returns exactly what `Run` describes |
| NewtonRaphson.RunTrace | algcalculadora/Met_Newton_Raphson.py:196-205 | lines are numbered from 1; the first starts at x0; each xi1 is the tangent step from its xi and each ea its relative error; each later line starts where the previous one ended after its `ea < tol` test failed; the root is the last xi1, the only one that passed |
| NewtonRaphson.ZeroDerivativeDropsLines | algcalculadora/Met_Newton_Raphson.py:196-200 | a zero derivative met at any iteration within `max_iter` returns only the "Derivada nula" message, dropping the earlier lines |
| NewtonRaphson.BelowMeansSmallStep | algcalculadora/Met_Newton_Raphson.py:202-204 | passing the test means the step moved by less than `tol` percent of the new point |
| NewtonRaphson.StartAtRoot | algcalculadora/Met_Newton_Raphson.py:196-205 | started at a non-zero root, the first step stays put with error 0 and is returned |
| NewtonRaphson.LinearExact | algcalculadora/Met_Newton_Raphson.py:201 | on a straight line one tangent step lands on the root |
| Secant.SecantPoint | algcalculadora/Secante.py:167 | x2 is where the secant through (x0, f(x0)) and (x1, f(x1)) meets zero |
| Secant.Run | algcalculadora/Secante.py:159-175 | a success records between 1 and `max_iter` lines |
| Secant.SecantMethod | algcalculadora/Secante.py:159-175 | the loop returns exactly what `Run` describes |
| Secant.RunTrace | algcalculadora/Secante.py:161-173 | lines are numbered from 1; the first is on (x0, x1); each step had `abs(f(x1) - f(x0)) >= 1e-12` and x2 the secant's zero; each later line is shifted by one point after its `abs(x2 - x1) < tol` test failed; the root is the last x2, the only one that passed |
| Secant.StartAtRoot | algcalculadora/Secante.py:161-171 | started with x1 already a root, the first x2 is x1 and it is returned |
| Secant.LinearExact | algcalculadora/Secante.py:167 | on a straight line the first secant lands on the root |

## Left out

- The GUI: widget construction, styles, layouts, menus, cell navigation by arrow keys, the add-row and add-column buttons, the virtual keyboards, and all of Main.py.
- Plotting: the `graficar` methods use numpy and matplotlib.
- sympy: `sympify`, `lambdify` and `diff` become the parameters `f` and `df`. The symbolic `Matrix.det()` in `calcular_determinante_gui` is not part of this model. Metodo_De_Gauss_Jordan.py is not part of this model, because its solver is sympy's `rref` and `solve`.
- Number parsing: `float()`, `int()`, `Fraction(str)` and `convertir_fila` are the `parse` parameter. The distinction between the `int` and `float` cells of `convertir_fila` is lost.
- Floating point: every number is an exact `real`, so rounding and the concrete convergence behaviour of the root-finders are not modelled. Neither is an exception raised inside `f`, such as a domain error.
- Output formatting: `formatear_matriz`, the `:.6f` strings and `QMessageBox` become datatypes and `Err` values.
- MatrixText.IsAllowed: keeps ASCII digits only, whereas Python's `\d` also keeps other Unicode decimal digits.
- Determinant.Det: has no contract of its own; what it computes is stated by the lemmas `DetZeroFirstRow`, `DetTwoByTwoIsExpansion`, `Properties.DetIdentity`, `Properties.DetUpperTriangular`, `Properties.DetLowerTriangular`, `Properties.DetZeroFirstColumn`, `DetSwapNext` and `DetEqualRows`. It requires that every row reach the columns the expansion reads. A shorter row makes the source raise `IndexError`. `CalculateCramer` checks the same condition and returns `IndexOutOfRange`.
- Properties.CalculateDeterminantProperties: takes a grid whose rows all have the first row's length, as the widget's cell grid always does.
- Properties.CalculateDeterminantProperties: takes numeric cells (`Option<real>`), whereas `calcular_determinante_gui` runs `sympify` on each cell, so a cell may be a symbolic expression or raise `SympifyError`; symbolic cells and that error are not modelled.
- Inverse.GaussJordanInPlace: requires a square grid. The add-row and add-column buttons let `calcular_inversa` pass a rectangular one: a wide grid has its left n×n block reduced and the extra columns left as they are, and a tall grid raises `IndexError` at `matriz[i][i]`, shown as "Error inesperado". Neither case is modelled.
- Convergence of the root-finders: not proved, only the recurrence, the bracket facts, the stop and failure conditions, and the shape of the trace.
