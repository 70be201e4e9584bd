# Dense matrices and direct factorisations, in Dafny

A model of the Go package `matrix` (files `matrix.go` and `linalg.go`), a small
dense-matrix library. A matrix `M` is a `[][]float64`; here it is a sequence of
rows of exact reals (`Dense.M = seq<seq<real>>`). Every `panic`, every
`log.Fatal` and the NaN check of the Cholesky factoriser becomes an explicit
`Err` of a `Result` (module `Failures`).

- `Dense` (`dense.dfy`): the primitives of `matrix.go`. Construction (`Zeroes`,
  `NewDiagonalMatrix`), shape queries (`GetDimensions`, which answers columns
  first, `HasSameDimensions`, `IsSquareMatrix`), `Add` and `Sub` with 1x1
  broadcast, `Xscalar`, `X` with its 1x1 short-cuts, `T`, the 2x2 closed forms
  (`Det2x2`, `Adj2x2`, `Inv2x2`) and `Round`. These build fresh matrices, so
  they are functions. `Round` overwrites the caller's entries, so it is a
  method of the class `Matrix`, whose `rows` field is the storage that caller
  and callee share.
- `DenseLaws` (`dense_laws.dfy`): the algebra of those primitives: `Add`
  commutes, `Sub` undoes `Add`, the identity is neutral for `X`, `T` is an
  involution that reverses products, the adjoint is the adjugate, `Inv2x2` is
  a two-sided inverse, and `Round` is idempotent.
- `DotProducts` (`dot.dfy`): the sum `Σ u[k]·v[k]` that `X` and the
  Cholesky loops accumulate in ascending `k`, with the facts the proofs need.
- `Elimination` (`elimination.dfy`): the row operation of both eliminations,
  and the bookkeeping that proves what they compute. A left factor `g` is
  kept so that `g X w` is always the input. Subtracting `ratio` times row `i`
  from row `j` of `w` is cancelled by adding `ratio` times column `j` to
  column `i` of `g`.
- `Linalg` (`linalg.dfy`): the algorithms of `linalg.go`, as imperative
  methods over the caller's `Matrix`:
  - `LU`: Doolittle elimination without pivoting.
  - `Inv`: Gauss-Jordan inversion; it consumes the caller's rows.
  - `CholeskyDecomposition`: fills a lower-triangular factor. It is specified
    without square roots by `IsCholeskyFactor`. It returns the only such
    factor, or an error exactly when no factor exists.
  - `HadamardProduct`: the entrywise product.

Three places where the names and comments in `linalg.go` suggest more than
the code does. The model follows the code each time:
- The comment at `linalg.go:10` says `LU` decomposes a matrix into its LU
  components. The pivot loop (`linalg.go:19`) stops before the last row, so
  `L[n-1][n-1]` keeps the 0 from `zeroes`. See Findings.
- The named result `U` of `LU` (`linalg.go:13`) is never assigned before the
  `return` at `linalg.go:32`, so `LU` returns a nil `U` (here `[]`). The upper
  factor is what is left in the caller's `A`.
- The comment at `linalg.go:83` calls the result of `CholeskyDecomposition`
  `U`, with `A = U x U.T()`. The loops fill only entries `u[i][j]` with
  `j <= i` (`linalg.go:88`), so the result is lower triangular.

## Model

| member | source | states |
|---|---|---|
| Dense.Zeroes | matrix.go:157-170 | `dimy` rows of `dimx` entries, every entry 0 |
| Dense.NewDiagonalMatrix | matrix.go:26-34 | `dimy` x `dimx`; entry `[i][j]` is 1 exactly when `i == j` (so only for `i < min(dimx, dimy)`), otherwise 0 |
| Dense.GetDimensions | matrix.go:79-81 | answers `(columns, rows)`: `(len(a[0]), len(a))`, and for a rectangular `a` that is its shape |
| Dense.HasSameDimensions | matrix.go:37-44 | true iff both the row counts and the column counts agree; then `b` has `a`'s shape |
| Dense.IsSquareMatrix | matrix.go:173-175 | true iff the two components of `GetDimensions` agree |
| Dense.Add | matrix.go:47-77 | a 1x1 `a` gives `b`'s shape with `a00 + b[i][j]`; else a 1x1 `b` gives `a`'s shape with `a[i][j] + b00`; else a mismatch error exactly when the shapes differ, and the entrywise sum otherwise |
| Dense.Sub | matrix.go:84-114 | the same three cases, with `a00 - b[i][j]`, `a[i][j] - b00` and `a[i][j] - b[i][j]` |
| Dense.Xscalar | matrix.go:147-155 | same shape, every entry multiplied by the scalar |
| Dense.Product | matrix.go:132-141 | `rows(a)` x `cols(b)`, entry `[i][j]` the dot product of row `i` of `a` and column `j` of `b` |
| Dense.X | matrix.go:117-144 | a 1x1 `a` gives `Xscalar(b, a00)`; else a 1x1 `b` gives `Xscalar(a, b00)`; else an error exactly when `cols(a) != rows(b)`, and the row-by-column product otherwise |
| Dense.T | matrix.go:178-188 | shape swapped and `T(a)[j][i] == a[i][j]` |
| Dense.Det2x2 | matrix.go:191-193 | vanishes when the two rows of the 2x2 block agree |
| Dense.Adj2x2 | matrix.go:196-203 | 2x2; diagonal entries swapped, off-diagonal entries negated |
| Dense.Inv2x2 | matrix.go:206-210 | 2x2 and equal to the adjoint divided by the determinant (`r[i][j] * det == adj[i][j]`) |
| Dense.RoundHalfAway | matrix.go:216 | an integer within 1/2 of `x`; a tie goes away from zero |
| Dense.RoundAll | matrix.go:213-220 | same shape, every entry rounded by `RoundHalfAway` |
| Dense.Matrix.Round | matrix.go:213-220 | overwrites the caller's rows with `RoundAll` of the old rows and returns the same matrix |
| DenseLaws.AddCommutes | matrix.go:47-77 | `Add(a, b) == Add(b, a)`, errors included |
| DenseLaws.AddSameShape | matrix.go:47-77 | between two matrices of one shape `Add` succeeds, and every branch, 1x1 broadcast included, gives the entrywise sum |
| DenseLaws.SubIsAddNegated | matrix.go:47-114 | `Sub(a, b) == Add(a, -1 * b)` in every case, errors included |
| DenseLaws.SubUndoesAdd | matrix.go:47-114 | when `Add(a, b)` succeeds without broadcasting `a`, subtracting `b` gives back `a` |
| DenseLaws.AddZeroes | matrix.go:47-77 | adding the zero matrix of `a`'s shape gives back `a` |
| DenseLaws.XscalarComposes | matrix.go:147-155 | scaling by `s` then by `t` is scaling by `t * s` |
| DenseLaws.TransposeInvolution | matrix.go:178-188 | `T(T(a)) == a` |
| DenseLaws.XIsProduct | matrix.go:117-144 | when `cols(a) == rows(b)`, `X` is the row-by-column product, even when an operand is 1x1 |
| DenseLaws.XIdentityRight | matrix.go:117-144 | `a X I == a` with `I` the identity from `NewDiagonalMatrix` |
| DenseLaws.XIdentityLeft | matrix.go:117-144 | `I X a == a` |
| DenseLaws.TransposeOfProduct | matrix.go:178-188 | `T(b) X T(a) == T(a X b)` |
| DenseLaws.AdjugateProduct | matrix.go:191-203 | `a X Adj2x2(a)` and `Adj2x2(a) X a` are both `Det2x2(a)` times the identity |
| DenseLaws.Inv2x2IsInverse | matrix.go:206-210 | with a non-zero determinant, `a X Inv2x2(a)` and `Inv2x2(a) X a` are both the 2x2 identity |
| DenseLaws.RoundHalfAwayIdempotent | matrix.go:216 | rounding a rounded number changes nothing |
| DenseLaws.RoundAllIdempotent | matrix.go:213-220 | rounding a matrix twice is rounding it once |
| Elimination.SubRow | linalg.go:27-29 | only row `j` changes, and its entry `k` becomes `w[j][k] - ratio * w[i][k]` |
| Elimination.RowOpPreservesProduct | linalg.go:24-30 | if `g X w == t`, the row operation on `w` together with the matching column operation on `g` keeps `g X w == t` |
| Linalg.UnitDiagonal | linalg.go:23 | `l` with every diagonal entry set to 1 and every other entry kept |
| Linalg.SubtractRow | linalg.go:27-29 | the `k` loop turns the caller's rows into `SubRow` of the old rows |
| Linalg.EliminateBelow | linalg.go:23-30 | one pivot step: rows below pivot `i` get zero in column `i`, `L` gets the ratios and `L[i][i] = 1`, rows up to `i` are kept, and `L` with a unit diagonal times the rows is still the input |
| Linalg.LU | linalg.go:13-33 | a non-square `A` fails and is left alone. A zero pivot among the first `n-1` (so always a zero `A[0][0]` when `n > 1`) fails with `A` partly reduced, and a unit lower-triangular `g` with `g X A == A_old` exists. On success `A` is upper triangular, keeps row 0 and has non-zero pivots `0 .. n-2`. `L` is n x n and zero above the diagonal, with `L[i][i] == 1` for `i < n-1` and `L[n-1][n-1] == 0`. `U` is empty, and `UnitDiagonal(L) X A == A_old` |
| Linalg.LastUnitMissing | linalg.go:19-23 | with `L[n-1][n-1] == 0` and a non-zero last pivot, `L X U` differs from the input that `UnitDiagonal(L) X U` reproduces |
| Linalg.Augment | linalg.go:47-55 | n x 2n; left half `a`, right half the identity |
| Linalg.AppendIdentityRow | linalg.go:48-54 | the caller's row `i` gets row `i` of the identity appended, the other rows are unchanged |
| Linalg.AppendIdentity | linalg.go:47-55 | the caller's rows become `Augment` of the old rows |
| Linalg.ClearColumn | linalg.go:61-68 | one pivot step of Gauss-Jordan: row `i` is kept and every other row `p` becomes `old[p] - old[p][i] / old[i][i] * old[i]` over all `2n` columns, so column `i` is zero off the diagonal. The invariant `g X rows == [A \| I]` is kept, with `g` still the identity in columns after `i` |
| Linalg.DivideRightHalf | linalg.go:71-75 | the right half of each row is divided by that row's diagonal entry; the left half is unchanged |
| Linalg.KeepRightHalf | linalg.go:77-79 | each of the caller's rows becomes its right half |
| Linalg.GaussJordanInverse | linalg.go:56-80 | if `g X w == [a0 \| I]` with the left half of `w` diagonal and non-zero, the right half divided row by row is a right inverse of `a0` |
| Linalg.ReciprocalIsInverse | linalg.go:38-41 | `[[1/a00]]` is the inverse of a non-zero 1x1 `a` |
| Linalg.NormaliseAndSlice | linalg.go:70-80 | after a complete reduction, the last two loops leave an n x n right inverse of the input in the caller's rows |
| Linalg.Inv | linalg.go:36-81 | a non-square input fails and is left alone. A 1x1 input is left alone and answered with `[[1/a00]]`, or fails when `a00 == 0`. Otherwise a zero pivot fails; a zero `[0][0]` always does. The caller's rows are then augmented and partly reduced: for some pivot `i`, `rows[i][i] == 0` while columns before `i` are cleared off the diagonal and non-zero on it. Some `g` that is the identity in columns `i ..` has `g X rows == [A \| I]`. On success the caller's rows are the result and `old X result` is the identity. Success also means every pivot was passed: for each `k` from 1 to `n`, a state before pivot `k` is reachable from `[A \| I]` (`ReachesPivot`) |
| Linalg.GaussJordanStuck2x2 | linalg.go:57-60 | for a 2x2 input, the failure state of `Inv` at pivot 0 forces `a00 == 0`, and at pivot 1 it forces `a00 != 0` with a zero determinant. So an invertible input with `a00 != 0` never fails |
| Linalg.NoSecondPivot3x3 | linalg.go:57-60 | the invertible `[[1,1,0],[1,1,1],[0,1,1]]` reaches no state before pivot 2, so `Inv` cannot succeed on it: its second pivot is zero, and Go panics there |
| Linalg.PartialDot | linalg.go:91-93 | the summing loop computes the dot product of the first `len` entries |
| Linalg.CholeskyEntry | linalg.go:89-110 | the entry `u[i][j]` the factor must hold given the entries before it: the root of the radicand on the diagonal, the quotient below a positive diagonal entry, 0 below a zero one; or a failure exactly for a negative diagonal radicand |
| Linalg.NoFactor | linalg.go:94-97 | a negative radicand on the diagonal rules out every factor |
| Linalg.CholeskyDecomposition | linalg.go:84-115 | on success the result is n x n, zero above the diagonal, non-negative on it, and every entry is the root or quotient the loops must produce (zero below a zero diagonal entry); it is the only such factor. Failure (a negative radicand, Go's NaN) happens exactly when no factor exists |
| Linalg.CholeskyReconstructs | linalg.go:83-84 | for a symmetric input whose factor has a positive diagonal, `u X T(u)` is the input |
| Linalg.FactorOfProduct | linalg.go:84-115 | every lower-triangular `u` with a positive diagonal is the factor of `u X T(u)`, so that is what the factoriser returns for it |
| Linalg.CholeskyExample | linalg_test.go:6-7 | `[[2,0,0],[6,1,0],[-8,5,3]]` is the factor of the test matrix `[[4,12,-16],[12,37,-43],[-16,-43,98]]` |
| Linalg.Hadamard | linalg.go:124-130 | same shape, `R[y][x] == a[y][x] * b[y][x]` |
| Linalg.HadamardProduct | linalg.go:117-131 | a mismatch error exactly when the dimensions differ, otherwise `Hadamard(a, b)` |
| Linalg.HadamardCommutes | linalg.go:117-131 | the entrywise product commutes |
| Linalg.HadamardDistributes | linalg.go:117-131 | the entrywise product distributes over `Add` |

## Left out

- Floating point: entries are exact reals. Rounding error, infinities and NaN are not modelled. Dot products over reals do not depend on summation order.
- Dense.Inv2x2: requires a non-zero determinant. Go divides by zero there and returns infinities, and NaN where an adjoint entry is 0 (`0 * Inf`). For example, `[[1,0],[0,0]]` gives `[[NaN,NaN],[NaN,+Inf]]`.
- Dense.Zeroes and Dense.NewDiagonalMatrix: the sizes are `nat`, so negative sizes are not modelled. In Go a negative `dimy` panics in `make` (`matrix.go:163`), and a negative `dimx` gives empty rows (`matrix.go:165`).
- Linalg.Inv: a 1x1 zero input returns `Err(SingularOrZeroPivot)`. Go returns `[[+Inf]]`.
- Linalg.Inv: proves that `old X result` is the identity (a right inverse), not that `result X old` is.
- Linalg.Inv: on failure it states properties of the caller's rows, not their exact contents. A row before the failing pivot may differ from Go's by a non-zero factor (compensated in `g`). That the failure state forces a vanishing leading minor is proved for 2x2 inputs only (`GaussJordanStuck2x2`), not for every `n`.
- Linalg.Inv: on success it states that every pivot state was reachable (`ReachesPivot`). It does not prove, for every `n`, that the reachable state at a pivot is Go's up to row scaling, so that success holds exactly when Go's pivots are all non-zero. That consequence is proved for the 2x2 case (`GaussJordanStuck2x2`) and for the 3x3 input `StuckAtSecondPivot` (`NoSecondPivot3x3`).
- Linalg.LU: does not state each `L[j][i]` as the ratio of the partly reduced matrix at that step. It states what those ratios add up to: `UnitDiagonal(L) X A == A_old`.
- Linalg.CholeskyDecomposition: `math.Sqrt` is the parameter `sqrt`, required to give the exact non-negative root of a non-negative number. The NaN of a negative radicand is the error result.
- The `log.Println` diagnostics in `X` and in the Cholesky factoriser are not modelled. They do not affect results.
- `log.Fatal` (process exit) in `HadamardProduct` and `panic` elsewhere are both an `Err` result. When `LU` and `Inv` fail, the model states properties of what the caller's matrix then holds.
- Ragged `[][]float64` values and empty matrices are not modelled. The operations require a rectangular, non-empty matrix, as `GetDimensions` assumes through `a[0]`. The Cholesky factoriser needs only row `p` to reach its diagonal.
- Slice aliasing is modelled only at the level of the caller's row list (`Matrix.rows`). Capacity sharing and re-allocation by `append` are not modelled.
- `LU` never reads its argument `B`. It is a parameter that no contract mentions.
- The `Matrice` interface (`matrix.go:10-21`) declares methods and states no behaviour.
- `linalg_test.go` only logs a result. Its matrix is the subject of `Linalg.CholeskyExample`.

## Findings

| source | as written | input that shows it | evidently intended | confidence | as-written member | corrected member |
|---|---|---|---|---|---|---|
| linalg.go:19-23 | the pivot loop stops at `n-2`, so `L[n-1][n-1]` keeps the 0 from `zeroes` and `L X U` (with `U` the reduced `A`) is not `A` | `A = [[2,1],[4,3]]`: `L = [[1,0],[2,0]]`, reduced `A = [[2,1],[0,1]]`, `L X A = [[2,1],[4,2]]` | `L` unit lower triangular, so that `L X U == A` | medium, not executed | Linalg.LastUnitMissing | Linalg.UnitDiagonal |
