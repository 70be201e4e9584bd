/** The factorisations of linalg.go: Doolittle LU and Gauss-Jordan inversion,
    which both eliminate in the caller's matrix, the Cholesky-style factoriser
    and the Hadamard product. */
module Linalg {
  import opened Failures
  import opened DotProducts
  import opened Dense
  import opened DenseLaws
  import opened Elimination

  // ---------------------------------------------------------------------
  // LU

  /** What `LU` returns: `L` and a second factor `U`. */
  datatype LUFactors = LUFactors(L: M, U: M)

  /** `g` is n x n, ones on the diagonal and zeroes above it. */
  ghost predicate UnitLowerTriangular(g: M, n: nat) {
    Shape(g, n, n) &&
    (forall p :: 0 <= p < n ==> g[p][p] == 1.0) &&
    (forall p, q :: 0 <= p < q < n ==> g[p][q] == 0.0)
  }

  /** Every entry of `u` below the diagonal is zero. */
  ghost predicate UpperTriangular(u: M, n: nat)
    requires Shape(u, n, n)
  {
    forall p, q :: 0 <= q < p < n ==> u[p][q] == 0.0
  }

  /** `l` with every diagonal entry set to 1. */
  function UnitDiagonal(l: M): (g: M)
    ensures |g| == |l|
    ensures forall p :: 0 <= p < |l| ==> |g[p]| == |l[p]|
    ensures forall p, q :: 0 <= p < |l| && 0 <= q < |l[p]| ==>
              g[p][q] == if p == q then 1.0 else l[p][q]
  {
    seq(|l|, p requires 0 <= p < |l| => if p < |l[p]| then l[p][p := 1.0] else l[p])
  }

  /** The innermost loop of both eliminations: `a[j][k] = a[j][k] -
      ratio*a[i][k]` for every column `k` of row `j`, in the caller's rows. */
  method SubtractRow(a: Matrix, j: nat, i: nat, ratio: real)
    requires i < |a.rows| && j < |a.rows| && i != j && |a.rows[j]| <= |a.rows[i]|
    modifies a
    ensures a.rows == SubRow(old(a.rows), j, i, ratio)
  {
    ghost var w := a.rows;
    var k := 0;
    while k < |a.rows[j]|
      invariant 0 <= k <= |w[j]|
      invariant |a.rows| == |w| && |a.rows[j]| == |w[j]|
      invariant forall p :: 0 <= p < |w| && p != j ==> a.rows[p] == w[p]
      invariant forall q :: 0 <= q < k ==> a.rows[j][q] == w[j][q] - ratio * w[i][q]
      invariant forall q :: k <= q < |w[j]| ==> a.rows[j][q] == w[j][q]
    {
      a.rows := a.rows[j := a.rows[j][k := a.rows[j][k] - ratio * a.rows[i][k]]];
      k := k + 1;
    }
    assert forall q :: 0 <= q < |w[j]| ==> a.rows[j][q] == SubRow(w, j, i, ratio)[j][q];
    assert a.rows[j] == SubRow(w, j, i, ratio)[j];
  }

  /** The state of `LU` before pivot `i`: columns `0 .. i-1` are eliminated
      below the diagonal, `L` holds their ratios and unit diagonal, and `g`
      (that is `L` with its whole diagonal set to one) times the current rows
      is the input `a0`. */
  ghost predicate DoolittleState(rows: M, L: M, g: M, a0: M, n: nat, i: nat) {
    0 < n && i <= n &&
    Shape(rows, n, n) && Shape(L, n, n) &&
    ProductIs(g, rows, a0, n, n) &&
    (forall p, q :: 0 <= p < n && 0 <= q < n ==> g[p][q] == if p == q then 1.0 else L[p][q]) &&
    (forall p, q :: 0 <= p < n && i <= q < n ==> L[p][q] == 0.0) &&
    (forall q :: 0 <= q < i ==> L[q][q] == 1.0) &&
    (forall p, q :: 0 <= p < q < n ==> L[p][q] == 0.0) &&
    (forall p, q :: 0 <= q < i && q < p < n ==> rows[p][q] == 0.0) &&
    (forall q :: 0 <= q < i ==> rows[q][q] != 0.0) &&
    rows[0] == a0[0]
  }

  /** Recording `ratio` at `L[j][i]` keeps `g` equal to `L` with a unit
      diagonal once column `j` is added `ratio` times to column `i` of `g`. */
  lemma FactorColumnStep(g: M, L: M, n: nat, i: nat, j: nat, ratio: real)
    requires Shape(g, n, n) && Shape(L, n, n) && i < j < n
    requires forall p, q :: 0 <= p < n && 0 <= q < n ==> g[p][q] == if p == q then 1.0 else L[p][q]
    requires forall p :: 0 <= p < n && p != j ==> L[p][j] == 0.0
    requires L[j][i] == 0.0
    ensures forall p, q :: 0 <= p < n && 0 <= q < n ==>
              AddColumn(g, i, j, ratio)[p][q] == if p == q then 1.0 else L[j := L[j][i := ratio]][p][q]
  {
  }

  /** Subtracting `ratio = w[j][i] / w[i][i]` times row `i` clears `w[j][i]`
      and, when row `i` starts with `i` zeroes, keeps the first `i` entries of
      row `j`. */
  lemma RowEliminated(w: M, n: nat, i: nat, j: nat, ratio: real)
    requires Shape(w, n, n) && i < n && j < n && i != j
    requires w[i][i] != 0.0 && ratio == w[j][i] / w[i][i]
    requires forall q :: 0 <= q < i ==> w[i][q] == 0.0
    ensures SubRow(w, j, i, ratio)[j][i] == 0.0
    ensures forall q :: 0 <= q < i ==> SubRow(w, j, i, ratio)[j][q] == w[j][q]
  {
  }

  /** The state of `LU`'s inner loop at pivot `i` before row `j`: rows up to
      `i` are as they were (`ai`), rows `i+1 .. j-1` are cleared in column
      `i`, and column `i` of `L` holds their ratios. */
  ghost predicate BelowState(rows: M, L: M, g: M, a0: M, ai: M, n: nat, i: nat, j: nat) {
    i < j <= n && |ai| == n &&
    Shape(rows, n, n) && Shape(L, n, n) &&
    ProductIs(g, rows, a0, n, n) &&
    (forall p, q :: 0 <= p < n && 0 <= q < n ==> g[p][q] == if p == q then 1.0 else L[p][q]) &&
    (forall p, q :: 0 <= p < n && i < q < n ==> L[p][q] == 0.0) &&
    (forall p :: 0 <= p < n && p != i && (p < i || j <= p) ==> L[p][i] == 0.0) &&
    (forall q :: 0 <= q <= i ==> L[q][q] == 1.0) &&
    (forall p, q :: 0 <= p < q < n ==> L[p][q] == 0.0) &&
    (forall p, q :: 0 <= q < i && q < p < n ==> rows[p][q] == 0.0) &&
    (forall q :: 0 <= q < i ==> rows[q][q] != 0.0) &&
    rows[i][i] != 0.0 &&
    (forall p :: i < p < j ==> rows[p][i] == 0.0) &&
    (forall p :: 0 <= p <= i ==> rows[p] == ai[p])
  }

  /** The body of `LU`'s inner loop keeps `BelowState`, one row further. */
  lemma BelowStep(w: M, L: M, g: M, a0: M, ai: M, n: nat, i: nat, j: nat, ratio: real)
    requires BelowState(w, L, g, a0, ai, n, i, j) && j < n
    requires ratio == w[j][i] / w[i][i]
    ensures BelowState(SubRow(w, j, i, ratio), L[j := L[j][i := ratio]], AddColumn(g, i, j, ratio),
                       a0, ai, n, i, j + 1)
  {
    FactorColumnStep(g, L, n, i, j, ratio);
    RowEliminated(w, n, i, j, ratio);
    RowOpPreservesProduct(g, w, a0, n, n, i, j, ratio);
  }

  /** One pass of `LU`'s outer loop: with a non-zero pivot `i`, every row
      below it is reduced and its ratio recorded in `L`. */
  method EliminateBelow(A: Matrix, L: M, i: nat, ghost g: M, ghost a0: M) returns (L': M, ghost g': M)
    requires DoolittleState(A.rows, L, g, a0, |A.rows|, i)
    requires i + 1 < |A.rows| && A.rows[i][i] != 0.0
    modifies A
    ensures DoolittleState(A.rows, L', g', a0, |A.rows|, i + 1)
    ensures |A.rows| == |old(A.rows)| && A.rows[..i + 1] == old(A.rows)[..i + 1]
  {
    var n := |A.rows|;
    L' := L[i := L[i][i := 1.0]];
    g' := g;
    ghost var ai := A.rows;
    var j := i + 1;
    while j < n
      invariant BelowState(A.rows, L', g', a0, ai, n, i, j)
    {
      var ratio := A.rows[j][i] / A.rows[i][i];
      BelowStep(A.rows, L', g', a0, ai, n, i, j, ratio);
      L' := L'[j := L'[j][i := ratio]];
      SubtractRow(A, j, i, ratio);
      g' := AddColumn(g', i, j, ratio);
      j := j + 1;
    }
  }

  /** `LU(A, B)`: Doolittle elimination without pivoting, performed in the
      caller's `A`. Pivots `0 .. n-2` must be non-zero when they are reached;
      the last one is never examined. `L` receives the ratios below its
      diagonal and ones on its diagonal except at `[n-1][n-1]`, which stays 0.
      The returned `U` is always empty (Go's nil): the upper factor is what is
      left in `A`. `B` is not read. */
  method LU(A: Matrix, B: Matrix) returns (r: Result<LUFactors>)
    requires IsMatrix(A.rows)
    modifies A
    ensures !IsSquareMatrix(old(A.rows)) <==> r == Err(NonSquareMatrix)
    ensures !IsSquareMatrix(old(A.rows)) ==> A.rows == old(A.rows)
    ensures r.Err? && IsSquareMatrix(old(A.rows)) ==>
              var n := |old(A.rows)|;
              r.error == SingularOrZeroPivot &&
              Shape(A.rows, n, n) &&
              (exists i :: 0 <= i < n - 1 && A.rows[i][i] == 0.0 &&
                 forall p, q :: 0 <= q < i && q < p < n ==> A.rows[p][q] == 0.0) &&
              (exists g :: UnitLowerTriangular(g, n) && X(g, A.rows) == Ok(old(A.rows)))
    ensures IsSquareMatrix(old(A.rows)) && |old(A.rows)| > 1 && old(A.rows)[0][0] == 0.0 ==>
              r == Err(SingularOrZeroPivot)
    ensures r.Ok? ==>
              var n := |old(A.rows)|;
              var L := r.value.L;
              Shape(A.rows, n, n) && UpperTriangular(A.rows, n) &&
              A.rows[0] == old(A.rows)[0] &&
              (forall i :: 0 <= i < n - 1 ==> A.rows[i][i] != 0.0) &&
              Shape(L, n, n) &&
              (forall p, q :: 0 <= p < q < n ==> L[p][q] == 0.0) &&
              (forall i :: 0 <= i < n - 1 ==> L[i][i] == 1.0) &&
              L[n - 1][n - 1] == 0.0 &&
              r.value.U == [] &&
              UnitLowerTriangular(UnitDiagonal(L), n) &&
              X(UnitDiagonal(L), A.rows) == Ok(old(A.rows))
  {
    var dims := GetDimensions(A.rows);
    var dimx, dimy := dims.0, dims.1;
    if dimx != dimy {
      return Err(NonSquareMatrix);
    }
    var n := dimy;
    var L := Zeroes(dimx, dimy);
    ghost var a0 := A.rows;
    ghost var G := NewDiagonalMatrix(n, n);
    IdentityFactor(a0, n, n);
    var i := 0;
    while i < dimy - 1
      invariant 0 <= i <= n - 1
      invariant DoolittleState(A.rows, L, G, a0, n, i)
    {
      if A.rows[i][i] == 0.0 {
        assert UnitLowerTriangular(G, n);
        ProductIsX(G, A.rows, a0, n, n);
        return Err(SingularOrZeroPivot);
      }
      L, G := EliminateBelow(A, L, i, G, a0);
      i := i + 1;
    }
    SameEntries(G, UnitDiagonal(L), n, n);
    ProductIsX(G, A.rows, a0, n, n);
    return Ok(LUFactors(L, []));
  }

  /** As written, the `L` that `LU` returns is not a left factor of what it
      leaves in `A`: its last diagonal entry is 0 instead of 1, so whenever
      the last pivot is non-zero `L X A` misses the input at `[n-1][n-1]` by
      exactly that pivot. `UnitDiagonal(L)` is the factor `LU` evidently
      means, and its ensures proves that one. */
  lemma LastUnitMissing(L: M, U: M, A: M, n: nat)
    requires Shape(L, n, n) && Shape(U, n, n) && n > 0
    requires L[n - 1][n - 1] == 0.0 && U[n - 1][n - 1] != 0.0
    requires IsMatrix(UnitDiagonal(L)) && IsMatrix(U) && X(UnitDiagonal(L), U) == Ok(A)
    ensures IsMatrix(L) && X(L, U) != Ok(A)
  {
    var m := n - 1;
    var g := UnitDiagonal(L);
    if n == 1 {
      assert X(L, U) == Ok(Xscalar(U, 0.0));
      assert X(g, U) == Ok(Xscalar(U, 1.0));
    } else {
      XIsProduct(L, U);
      XIsProduct(g, U);
      assert g[m] == L[m][m := 1.0];
      DotUpdateLeft(L[m], Col(U, m), m, 1.0);
      assert Product(g, U)[m][m] == Product(L, U)[m][m] + U[m][m];
    }
  }

  // ---------------------------------------------------------------------
  // Inv

  /** `a` with row `p` of the n x n identity appended to each row `p`. */
  function Augment(a: M, n: nat): (w: M)
    requires Shape(a, n, n)
    ensures Shape(w, n, 2 * n)
    ensures forall p, q :: 0 <= p < n && 0 <= q < n ==> w[p][q] == a[p][q]
    ensures forall p, q :: 0 <= p < n && n <= q < 2 * n ==> w[p][q] == if q - n == p then 1.0 else 0.0
  {
    var e := NewDiagonalMatrix(n, n);
    seq(n, p requires 0 <= p < n => a[p] + e[p])
  }

  /** The inner augmentation loop of `Inv`: row `p` of the n x n identity is
      appended to the caller's row `i`, one entry at a time. */
  method AppendIdentityRow(a: Matrix, i: nat, n: nat)
    requires i < |a.rows| && i < n
    modifies a
    ensures a.rows == old(a.rows)[i := old(a.rows)[i] + NewDiagonalMatrix(n, n)[i]]
  {
    ghost var a0 := a.rows;
    var e := NewDiagonalMatrix(n, n);
    var j := 0;
    assert a0[i] + e[i][..0] == a0[i];
    while j < n
      invariant 0 <= j <= n
      invariant |a.rows| == |a0| && a.rows[i] == a0[i] + e[i][..j]
      invariant forall p :: 0 <= p < |a0| && p != i ==> a.rows[p] == a0[p]
    {
      if i == j {
        a.rows := a.rows[i := a.rows[i] + [1.0]];
      } else {
        a.rows := a.rows[i := a.rows[i] + [0.0]];
      }
      assert e[i][..j + 1] == e[i][..j] + [e[i][j]];
      j := j + 1;
    }
    assert e[i][..n] == e[i];
    assert a.rows == a0[i := a0[i] + e[i]];
  }

  /** The augmentation loop of `Inv`. */
  method AppendIdentity(a: Matrix, n: nat)
    requires Shape(a.rows, n, n)
    modifies a
    ensures a.rows == Augment(old(a.rows), n)
  {
    ghost var a0 := a.rows;
    var i := 0;
    while i < n
      invariant 0 <= i <= n && |a.rows| == n
      invariant forall p :: 0 <= p < i ==> a.rows[p] == a0[p] + NewDiagonalMatrix(n, n)[p]
      invariant forall p :: i <= p < n ==> a.rows[p] == a0[p]
    {
      AppendIdentityRow(a, i, n);
      i := i + 1;
    }
    assert forall p :: 0 <= p < n ==> a.rows[p] == Augment(a0, n)[p];
  }

  /** The state of `Inv` before pivot `i`: in the left half, every column
      before `i` is zero off the diagonal and non-zero on it, and `g` times
      the current rows is the augmented input `aug`, where `g` still agrees
      with the identity in columns `i ..` (only column `q` of `g` changes at
      pivot `q`). */
  ghost predicate GaussJordanState(rows: M, g: M, aug: M, n: nat, i: nat) {
    0 < n && i <= n &&
    Shape(rows, n, 2 * n) &&
    ProductIs(g, rows, aug, n, 2 * n) &&
    (forall p, q :: 0 <= p < n && i <= q < n ==> g[p][q] == if p == q then 1.0 else 0.0) &&
    (forall p, q :: 0 <= p < n && 0 <= q < i && p != q ==> rows[p][q] == 0.0) &&
    (forall q :: 0 <= q < i ==> rows[q][q] != 0.0)
  }

  /** Gauss-Jordan elimination of the n x n `a0` gets past its first `k`
      pivots: some state before pivot `k` is reachable from `[a0 | I]`. */
  ghost predicate ReachesPivot(a0: M, n: nat, k: nat)
    requires Shape(a0, n, n)
  {
    exists w, g :: GaussJordanState(w, g, Augment(a0, n), n, k)
  }

  /** The state of `Inv`'s inner loop at pivot `i` before row `j`: rows
      before `j` other than `i` have lost their multiple of row `i` of the
      rows `w0` the pass started from, and every other row is as in `w0`. */
  ghost predicate ClearState(rows: M, g: M, w0: M, aug: M, n: nat, i: nat, j: nat) {
    i < n && j <= n &&
    Shape(rows, n, 2 * n) && Shape(w0, n, 2 * n) && w0[i][i] != 0.0 &&
    ProductIs(g, rows, aug, n, 2 * n) &&
    (forall p, q :: 0 <= p < n && i < q < n ==> g[p][q] == if p == q then 1.0 else 0.0) &&
    (forall p, q :: 0 <= p < j && p != i && 0 <= q < 2 * n ==>
       rows[p][q] == w0[p][q] - w0[p][i] / w0[i][i] * w0[i][q]) &&
    (forall p :: 0 <= p < n && (j <= p || p == i) ==> rows[p] == w0[p])
  }

  /** The body of `Inv`'s inner loop keeps `ClearState`, one row further. */
  lemma ClearStep(w: M, g: M, w0: M, aug: M, n: nat, i: nat, j: nat)
    requires ClearState(w, g, w0, aug, n, i, j) && j < n && j != i
    ensures ClearState(SubRow(w, j, i, w[j][i] / w[i][i]), AddColumn(g, i, j, w[j][i] / w[i][i]),
                       w0, aug, n, i, j + 1)
  {
    RowOpPreservesProduct(g, w, aug, n, 2 * n, i, j, w[j][i] / w[i][i]);
  }

  /** After the inner loop, the rows are in the state of the next pivot. */
  lemma ClearDone(rows: M, g: M, w0: M, g0: M, aug: M, n: nat, i: nat)
    requires ClearState(rows, g, w0, aug, n, i, n) && GaussJordanState(w0, g0, aug, n, i)
    ensures GaussJordanState(rows, g, aug, n, i + 1)
  {
    forall p, q | 0 <= p < n && 0 <= q < i + 1 && p != q
      ensures rows[p][q] == 0.0
    {
      if p != i {
        assert rows[p][q] == w0[p][q] - w0[p][i] / w0[i][i] * w0[i][q];
      }
    }
    forall q | 0 <= q < i + 1
      ensures rows[q][q] != 0.0
    {
      if q != i {
        assert rows[q][q] == w0[q][q] - w0[q][i] / w0[i][i] * w0[i][q];
      }
    }
  }

  /** One pass of `Inv`'s elimination loop: with a non-zero pivot `i`, row
      `i` is kept and every other row `p` loses `old[p][i] / old[i][i]` times
      row `i`, which clears column `i` outside row `i`. */
  method ClearColumn(a: Matrix, i: nat, ghost g: M, ghost aug: M) returns (ghost g': M)
    requires GaussJordanState(a.rows, g, aug, |a.rows|, i)
    requires i < |a.rows| && a.rows[i][i] != 0.0
    modifies a
    ensures GaussJordanState(a.rows, g', aug, |a.rows|, i + 1)
    ensures |a.rows| == |old(a.rows)| && a.rows[i] == old(a.rows)[i]
    ensures forall p, q :: 0 <= p < |a.rows| && p != i && 0 <= q < 2 * |a.rows| ==>
              a.rows[p][q] == old(a.rows)[p][q] - old(a.rows)[p][i] / old(a.rows)[i][i] * old(a.rows)[i][q]
  {
    var n := |a.rows|;
    g' := g;
    ghost var w0 := a.rows;
    var j := 0;
    while j < n
      invariant 0 <= j <= n
      invariant ClearState(a.rows, g', w0, aug, n, i, j)
    {
      if i != j {
        var ratio := a.rows[j][i] / a.rows[i][i];
        ghost var w := a.rows;
        SubtractRow(a, j, i, ratio);
        ClearStep(w, g', w0, aug, n, i, j);
        g' := AddColumn(g', i, j, ratio);
      }
      j := j + 1;
    }
    ClearDone(a.rows, g', w0, g, aug, n, i);
  }

  /** The loop that turns the diagonal into ones: the right half of each row
      is divided by that row's diagonal entry. */
  method DivideRightHalf(a: Matrix, n: nat)
    requires Shape(a.rows, n, 2 * n)
    requires forall p :: 0 <= p < n ==> a.rows[p][p] != 0.0
    modifies a
    ensures Shape(a.rows, n, 2 * n)
    ensures forall p, q :: 0 <= p < n && 0 <= q < n ==> a.rows[p][q] == old(a.rows)[p][q]
    ensures forall p, q :: 0 <= p < n && n <= q < 2 * n ==>
              a.rows[p][q] == old(a.rows)[p][q] / old(a.rows)[p][p]
  {
    ghost var w := a.rows;
    var i := 0;
    while i < n
      invariant 0 <= i <= n && Shape(a.rows, n, 2 * n)
      invariant forall p, q :: 0 <= p < n && 0 <= q < n ==> a.rows[p][q] == w[p][q]
      invariant forall p, q :: 0 <= p < i && n <= q < 2 * n ==> a.rows[p][q] == w[p][q] / w[p][p]
      invariant forall p, q :: i <= p < n && n <= q < 2 * n ==> a.rows[p][q] == w[p][q]
    {
      var j := n;
      while j < 2 * n
        invariant n <= j <= 2 * n && Shape(a.rows, n, 2 * n)
        invariant forall p, q :: 0 <= p < n && 0 <= q < n ==> a.rows[p][q] == w[p][q]
        invariant forall p, q :: 0 <= p < i && n <= q < 2 * n ==> a.rows[p][q] == w[p][q] / w[p][p]
        invariant forall p, q :: i < p < n && n <= q < 2 * n ==> a.rows[p][q] == w[p][q]
        invariant forall q :: n <= q < j ==> a.rows[i][q] == w[i][q] / w[i][i]
        invariant forall q :: j <= q < 2 * n ==> a.rows[i][q] == w[i][q]
      {
        a.rows := a.rows[i := a.rows[i][j := a.rows[i][j] / a.rows[i][i]]];
        j := j + 1;
      }
      i := i + 1;
    }
  }

  /** The final loop of `Inv`: each row keeps only its right half. */
  method KeepRightHalf(a: Matrix, n: nat)
    requires Shape(a.rows, n, 2 * n)
    modifies a
    ensures Shape(a.rows, n, n)
    ensures forall p :: 0 <= p < n ==> a.rows[p] == old(a.rows)[p][n..]
  {
    ghost var w := a.rows;
    var i := 0;
    while i < n
      invariant 0 <= i <= n && |a.rows| == n
      invariant forall p :: 0 <= p < i ==> a.rows[p] == w[p][n..]
      invariant forall p :: i <= p < n ==> a.rows[p] == w[p]
    {
      a.rows := a.rows[i := a.rows[i][n..]];
      i := i + 1;
    }
  }

  /** `(x * d) * (y / d) == x * y` for a non-zero `d`. */
  lemma CancelDiagonal(x: real, d: real, y: real)
    requires d != 0.0
    ensures (x * d) * (y / d) == x * y
  {
    calc {
      (x * d) * (y / d);
      x * (d * (y / d));
      { assert d * (y / d) == y; }
      x * y;
    }
  }

  /** With `g` times `w` equal to `[a0 | I]` and the left half of `w`
      diagonal, each entry of `a0` is the matching entry of `g` scaled by a
      diagonal entry of `w`. */
  lemma LeftHalfFactor(a0: M, g: M, w: M, n: nat, p: nat, m: nat)
    requires Shape(a0, n, n) && p < n && m < n
    requires ProductIs(g, w, Augment(a0, n), n, 2 * n)
    requires forall p, q :: 0 <= p < n && 0 <= q < n && p != q ==> w[p][q] == 0.0
    ensures a0[p][m] == g[p][m] * w[m][m]
  {
    assert Augment(a0, n)[p][m] == Dot(g[p], Col(w, m));
    DotSingle(g[p], Col(w, m), m);
  }

  /** The terms of one entry of `a0 X r` are those of `g X w` in the right
      half, for `r` as in `GaussJordanInverse`. */
  lemma InverseTerms(a0: M, g: M, w: M, r: M, n: nat, p: nat, k: nat)
    requires Shape(a0, n, n) && p < n && k < n
    requires ProductIs(g, w, Augment(a0, n), n, 2 * n)
    requires forall p, q :: 0 <= p < n && 0 <= q < n && p != q ==> w[p][q] == 0.0
    requires forall p :: 0 <= p < n ==> w[p][p] != 0.0
    requires Shape(r, n, n)
    requires forall p, k :: 0 <= p < n && 0 <= k < n ==> r[p][k] == w[p][n + k] / w[p][p]
    ensures forall m :: 0 <= m < n ==> a0[p][m] * Col(r, k)[m] == g[p][m] * Col(w, n + k)[m]
  {
    forall m | 0 <= m < n
      ensures a0[p][m] * Col(r, k)[m] == g[p][m] * Col(w, n + k)[m]
    {
      LeftHalfFactor(a0, g, w, n, p, m);
      CancelDiagonal(g[p][m], w[m][m], w[m][n + k]);
    }
  }

  /** One entry of `a0 X r`, for `r` as in `GaussJordanInverse`. */
  lemma InverseEntry(a0: M, g: M, w: M, r: M, n: nat, p: nat, k: nat)
    requires Shape(a0, n, n) && p < n && k < n
    requires ProductIs(g, w, Augment(a0, n), n, 2 * n)
    requires forall p, q :: 0 <= p < n && 0 <= q < n && p != q ==> w[p][q] == 0.0
    requires forall p :: 0 <= p < n ==> w[p][p] != 0.0
    requires Shape(r, n, n)
    requires forall p, k :: 0 <= p < n && 0 <= k < n ==> r[p][k] == w[p][n + k] / w[p][p]
    ensures Dot(a0[p], Col(r, k)) == if p == k then 1.0 else 0.0
  {
    var rk, wk := Col(r, k), Col(w, n + k);
    InverseTerms(a0, g, w, r, n, p, k);
    DotTermwise(a0[p], rk, g[p], wk);
    assert Augment(a0, n)[p][n + k] == Dot(g[p], wk);
  }

  /** Why Gauss-Jordan works: if `g` times `w` is `[a0 | I]`, the left half of
      `w` is diagonal with non-zero entries and `r` is its right half divided
      row by row by those entries, then `r` is a right inverse of `a0`. */
  lemma GaussJordanInverse(a0: M, g: M, w: M, r: M, n: nat)
    requires Shape(a0, n, n) && n > 0
    requires ProductIs(g, w, Augment(a0, n), n, 2 * n)
    requires forall p, q :: 0 <= p < n && 0 <= q < n && p != q ==> w[p][q] == 0.0
    requires forall p :: 0 <= p < n ==> w[p][p] != 0.0
    requires Shape(r, n, n)
    requires forall p, k :: 0 <= p < n && 0 <= k < n ==> r[p][k] == w[p][n + k] / w[p][p]
    ensures IsMatrix(a0) && IsMatrix(r)
    ensures X(a0, r) == Ok(NewDiagonalMatrix(n, n))
  {
    var e := NewDiagonalMatrix(n, n);
    forall p, k | 0 <= p < n && 0 <= k < n
      ensures Product(a0, r)[p][k] == e[p][k]
    {
      InverseEntry(a0, g, w, r, n, p, k);
    }
    XIsProduct(a0, r);
    SameEntries(Product(a0, r), e, n, n);
  }

  /** The 1 x 1 answer of `Inv` is an inverse. */
  lemma ReciprocalIsInverse(a: M)
    requires IsScalar(a) && a[0][0] != 0.0
    ensures X(a, [[1.0 / a[0][0]]]) == Ok(NewDiagonalMatrix(1, 1))
  {
    var inv := [[1.0 / a[0][0]]];
    assert a[0][0] * inv[0][0] == 1.0;
    SameEntries(Xscalar(inv, a[0][0]), NewDiagonalMatrix(1, 1), 1, 1);
  }

  /** The last two loops of `Inv`, after a complete reduction: the rows that
      are left are an inverse of the input `a0`. */
  method NormaliseAndSlice(a: Matrix, n: nat, ghost g: M, ghost a0: M)
    requires Shape(a0, n, n) && GaussJordanState(a.rows, g, Augment(a0, n), n, n)
    modifies a
    ensures Shape(a.rows, n, n) && X(a0, a.rows) == Ok(NewDiagonalMatrix(n, n))
  {
    ghost var w := a.rows;
    DivideRightHalf(a, n);
    KeepRightHalf(a, n);
    GaussJordanInverse(a0, g, w, a.rows, n);
  }

  /** `a.Inv()`: Gauss-Jordan inversion without row exchanges. A 1 x 1 input
      is answered with its reciprocal and left alone. Otherwise the caller's
      rows are augmented with the identity, reduced, divided and cut down to
      their right half, which is also what is returned. Any zero pivot is an
      error; a zero at `[0][0]` always is, even for an invertible input. */
  method Inv(a: Matrix) returns (r: Result<M>)
    requires IsMatrix(a.rows)
    modifies a
    ensures !IsSquareMatrix(old(a.rows)) <==> r == Err(NonSquareMatrix)
    ensures !IsSquareMatrix(old(a.rows)) || |old(a.rows)| == 1 ==> a.rows == old(a.rows)
    ensures IsScalar(old(a.rows)) ==>
              if old(a.rows)[0][0] == 0.0 then r == Err(SingularOrZeroPivot)
              else r == Ok([[1.0 / old(a.rows)[0][0]]])
    ensures r.Err? && IsSquareMatrix(old(a.rows)) && |old(a.rows)| > 1 ==>
              var n := |old(a.rows)|;
              r.error == SingularOrZeroPivot &&
              Shape(a.rows, n, 2 * n) &&
              exists i, g :: 0 <= i < n && a.rows[i][i] == 0.0 &&
                GaussJordanState(a.rows, g, Augment(old(a.rows), n), n, i)
    ensures IsSquareMatrix(old(a.rows)) && |old(a.rows)| > 1 && old(a.rows)[0][0] == 0.0 ==>
              r == Err(SingularOrZeroPivot)
    ensures r.Ok? ==>
              var n := |old(a.rows)|;
              Shape(old(a.rows), n, n) && Shape(r.value, n, n) &&
              (n > 1 ==> a.rows == r.value) &&
              X(old(a.rows), r.value) == Ok(NewDiagonalMatrix(n, n)) &&
              forall k :: 0 < k <= n ==> ReachesPivot(old(a.rows), n, k)
  {
    var dims := GetDimensions(a.rows);
    var dimx, dimy := dims.0, dims.1;
    if dimx == dimy && dimx == 1 {
      if a.rows[0][0] == 0.0 {
        return Err(SingularOrZeroPivot);
      }
      ReciprocalIsInverse(a.rows);
      ghost var aug1 := Augment(a.rows, 1);
      IdentityFactor(aug1, 1, 2);
      assert GaussJordanState(aug1, NewDiagonalMatrix(1, 1), aug1, 1, 1);
      return Ok([[1.0 / a.rows[0][0]]]);
    }
    if dimx != dimy {
      return Err(NonSquareMatrix);
    }
    var n := |a.rows|;
    ghost var a0 := a.rows;
    AppendIdentity(a, n);
    ghost var aug := a.rows;
    ghost var g := NewDiagonalMatrix(n, n);
    IdentityFactor(aug, n, 2 * n);
    ghost var ws, gs := [a.rows], [g];
    var i := 0;
    while i < n
      invariant 0 <= i <= n
      invariant GaussJordanState(a.rows, g, aug, n, i)
      invariant i == 0 ==> a.rows == aug
      invariant i > 0 ==> a0[0][0] != 0.0
      invariant |ws| == |gs| == i + 1
      invariant forall k :: 0 <= k <= i ==> GaussJordanState(ws[k], gs[k], aug, n, k)
    {
      if a.rows[i][i] == 0.0 {
        assert GaussJordanState(a.rows, g, Augment(a0, n), n, i);
        return Err(SingularOrZeroPivot);
      }
      g := ClearColumn(a, i, g, aug);
      ws, gs := ws + [a.rows], gs + [g];
      i := i + 1;
    }
    NormaliseAndSlice(a, n, g, a0);
    forall k | 0 < k <= n
      ensures ReachesPivot(a0, n, k)
    {
      assert GaussJordanState(ws[k], gs[k], Augment(a0, n), n, k);
    }
    return Ok(a.rows);
  }

  /** `g X rows == aug` for 2 x 2 `g`, written out entry by entry. */
  lemma ProductIs2(g: M, rows: M, aug: M, p: nat, c: nat)
    requires ProductIs(g, rows, aug, 2, 4) && p < 2 && c < 4
    ensures aug[p][c] == g[p][0] * rows[0][c] + g[p][1] * rows[1][c]
  {
    Dot2(g[p], Col(rows, c));
  }

  /** What the failure clause of `Inv` means for a 2 x 2 input: the state
      it describes is reachable at pivot 0 only when `a0[0][0] == 0` and at
      pivot 1 only when `a0[0][0] != 0` and the determinant vanishes, so an
      invertible input with `a0[0][0] != 0` is never reported as failing. */
  lemma GaussJordanStuck2x2(a0: M, rows: M, g: M, i: nat)
    requires Shape(a0, 2, 2) && i < 2
    requires GaussJordanState(rows, g, Augment(a0, 2), 2, i) && rows[i][i] == 0.0
    ensures i == 0 ==> a0[0][0] == 0.0
    ensures i == 1 ==> a0[0][0] != 0.0 && Det2x2(a0) == 0.0
  {
    var aug := Augment(a0, 2);
    if i == 0 {
      ProductIs2(g, rows, aug, 0, 0);
    } else {
      var g00, g10, r00, r01 := g[0][0], g[1][0], rows[0][0], rows[0][1];
      assert g[0][1] == 0.0 && g[1][1] == 1.0 && rows[1][0] == 0.0 && rows[1][1] == 0.0;
      ProductIs2(g, rows, aug, 0, 2);
      ProductIs2(g, rows, aug, 0, 0);
      ProductIs2(g, rows, aug, 0, 1);
      ProductIs2(g, rows, aug, 1, 0);
      ProductIs2(g, rows, aug, 1, 1);
      assert g00 * rows[0][2] == 1.0;
      assert a0[0][0] == g00 * r00 && a0[0][1] == g00 * r01;
      assert a0[1][0] == g10 * r00 && a0[1][1] == g10 * r01;
      ProductsCommute(g00, g10, r00, r01);
    }
  }

  /** An input that is invertible (its determinant is -1) but whose second
      pivot vanishes: after pivot 0 its row 1 is `[0, 0, 1 | -1, 1, 0]`. */
  function StuckAtSecondPivot(): (a: M)
    ensures Shape(a, 3, 3)
  {
    [[1.0, 1.0, 0.0], [1.0, 1.0, 1.0], [0.0, 1.0, 1.0]]
  }

  /** No state before pivot 2 is reachable from `StuckAtSecondPivot()`, so by
      the success clause of `Inv` that input fails, as Go's loop does at its
      second pivot. */
  lemma NoSecondPivot3x3()
    ensures !ReachesPivot(StuckAtSecondPivot(), 3, 2)
  {
    var a3 := StuckAtSecondPivot();
    var aug := Augment(a3, 3);
    assert aug[0][3] == 1.0 && aug[1][3] == 0.0;
    forall w, g
      ensures !GaussJordanState(w, g, aug, 3, 2)
    {
      if GaussJordanState(w, g, aug, 3, 2) {
        RowsAgreeBeforePivot2(g, w, aug, 6, 3);
      }
    }
  }

  /** Before pivot 2 of a 3 x 3 elimination (`g` keeps the identity's column
      2, and the first two columns of `w` are diagonal and non-zero), rows 0
      and 1 of `t = g X w` that agree in columns 0 and 1 agree everywhere:
      those columns fix rows 0 and 1 of `g`. */
  lemma RowsAgreeBeforePivot2(g: M, w: M, t: M, c: nat, q: nat)
    requires ProductIs(g, w, t, 3, c) && 2 <= c && q < c
    requires w[1][0] == 0.0 && w[2][0] == 0.0 && w[0][1] == 0.0 && w[2][1] == 0.0
    requires w[0][0] != 0.0 && w[1][1] != 0.0
    requires g[0][2] == 0.0 && g[1][2] == 0.0
    requires t[0][0] == t[1][0] && t[0][1] == t[1][1]
    ensures t[0][q] == t[1][q]
  {
    forall p | 0 <= p < 2
      ensures g[p][0] * w[0][0] == t[p][0] && g[p][1] * w[1][1] == t[p][1]
    {
      DotSingle(g[p], Col(w, 0), 0);
      DotSingle(g[p], Col(w, 1), 1);
    }
    FactorCancels(g[0][0], g[1][0], w[0][0]);
    FactorCancels(g[0][1], g[1][1], w[1][1]);
    assert g[0] == g[1];
    assert t[0][q] == Dot(g[0], Col(w, q)) && t[1][q] == Dot(g[1], Col(w, q));
  }

  /** A non-zero factor cancels. */
  lemma FactorCancels(x: real, y: real, d: real)
    requires d != 0.0 && x * d == y * d
    ensures x == y
  {
    assert (x - y) * d == 0.0;
  }

  /** `(g00 r00)(g10 r01) == (g00 r01)(g10 r00)`: the determinant of two
      proportional rows. */
  lemma ProductsCommute(g00: real, g10: real, r00: real, r01: real)
    ensures (g00 * r00) * (g10 * r01) == (g00 * r01) * (g10 * r00)
  {
  }

  // ---------------------------------------------------------------------
  // CholeskyDecomposition

  /** `(p, q)` comes before `(i, j)` in the row-by-row order in which
      `CholeskyDecomposition` fills its result. */
  predicate Before(p: nat, q: nat, i: nat, j: nat) {
    p < i || (p == i && q < j)
  }

  /** Row `p` of `a` reaches its diagonal: the entries the factoriser reads. */
  ghost predicate HasLowerTriangle(a: M) {
    forall p :: 0 <= p < |a| ==> p < |a[p]|
  }

  /** Entry `(p, q)`, `q <= p`, of `u` is what the factoriser must put there
      given the earlier entries: with `s` the sum of `u[p][k] * u[q][k]` over
      `k < q`, the diagonal entry is the non-negative root of `a[p][p] - s`,
      an entry below a positive diagonal entry `u[q][q]` solves
      `u[p][q] * u[q][q] == a[p][q] - s`, and one below a zero diagonal entry
      is zero. */
  ghost predicate EntryOk(a: M, u: M, p: nat, q: nat)
    requires HasLowerTriangle(a) && Shape(u, |a|, |a|) && q <= p < |a|
  {
    var s := Dot(u[p][..q], u[q][..q]);
    if p == q then 0.0 <= u[p][p] && u[p][p] * u[p][p] == a[p][p] - s
    else if 0.0 < u[q][q] then u[p][q] * u[q][q] == a[p][q] - s
    else u[p][q] == 0.0
  }

  /** `u` is n x n, every entry before `(i, j)` on or below the diagonal is
      right, and every other entry is still zero. */
  ghost predicate FactorBefore(a: M, u: M, i: nat, j: nat)
    requires HasLowerTriangle(a)
  {
    Shape(u, |a|, |a|) &&
    (forall p, q :: 0 <= p < |a| && 0 <= q < |a| && (p < q || !Before(p, q, i, j)) ==> u[p][q] == 0.0) &&
    (forall p, q :: 0 <= q <= p < |a| && Before(p, q, i, j) ==> EntryOk(a, u, p, q))
  }

  /** `u` is a lower-triangular factor of `a` in the sense of the
      factoriser: every entry on or below the diagonal is right. */
  ghost predicate IsCholeskyFactor(a: M, u: M)
    requires HasLowerTriangle(a)
  {
    FactorBefore(a, u, |a|, 0)
  }

  /** `u` and `v` agree on every entry before `(i, j)` on or below the
      diagonal. */
  ghost predicate Agree(a: M, u: M, v: M, i: nat, j: nat)
    requires Shape(u, |a|, |a|) && Shape(v, |a|, |a|)
  {
    forall p, q :: 0 <= q <= p < |a| && Before(p, q, i, j) ==> u[p][q] == v[p][q]
  }

  /** Squares grow with their non-negative roots. */
  lemma SquareGrows(x: real, y: real)
    requires 0.0 <= x < y
    ensures x * x < y * y
  {
    var d := y - x;
    assert y * y == x * x + d * (x + y);
    assert d * (x + y) > 0.0;
  }

  /** The non-negative square root is unique. */
  lemma RootUnique(x: real, y: real)
    requires 0.0 <= x && 0.0 <= y && x * x == y * y
    ensures x == y
  {
    if x < y {
      SquareGrows(x, y);
    } else if y < x {
      SquareGrows(y, x);
    }
  }

  /** Dividing out a positive factor. */
  lemma QuotientUnique(x: real, y: real, d: real)
    requires 0.0 < d && x * d == y * d
    ensures x == y
  {
    assert (x - y) * d == 0.0;
  }

  /** `x` is the value the factoriser must write at `(i, j)`, `j <= i`,
      given the entries of `u` before it: `EntryOk` for that one entry. */
  ghost predicate RightEntry(a: M, u: M, i: nat, j: nat, x: real)
    requires HasLowerTriangle(a) && Shape(u, |a|, |a|) && j <= i < |a|
  {
    var s := Dot(u[i][..j], u[j][..j]);
    if i == j then 0.0 <= x && x * x == a[i][i] - s
    else if 0.0 < u[j][j] then x * u[j][j] == a[i][j] - s
    else x == 0.0
  }

  /** Writing a right entry at `(i, j)` extends the right prefix by one. */
  lemma Extend(a: M, u: M, i: nat, j: nat, x: real)
    requires HasLowerTriangle(a) && FactorBefore(a, u, i, j) && j <= i < |a|
    requires RightEntry(a, u, i, j, x)
    ensures FactorBefore(a, u[i := u[i][j := x]], i, j + 1)
  {
    var u' := u[i := u[i][j := x]];
    var n := |a|;
    forall p, q | 0 <= p < n && 0 <= q < n && (p < q || !Before(p, q, i, j + 1))
      ensures u'[p][q] == 0.0
    {
      assert p < q || !Before(p, q, i, j);
    }
    forall p, q | 0 <= q <= p < n && Before(p, q, i, j + 1)
      ensures EntryOk(a, u', p, q)
    {
      if Before(p, q, i, j) {
        EarlierEntryKept(a, u, i, j, x, p, q);
      } else {
        NewEntryOk(a, u, i, j, x);
      }
    }
  }

  /** Writing `(i, j)` leaves every earlier check as it was. */
  lemma EarlierEntryKept(a: M, u: M, i: nat, j: nat, x: real, p: nat, q: nat)
    requires HasLowerTriangle(a) && Shape(u, |a|, |a|) && j <= i < |a|
    requires q <= p < |a| && Before(p, q, i, j) && EntryOk(a, u, p, q)
    ensures EntryOk(a, u[i := u[i][j := x]], p, q)
  {
    var u' := u[i := u[i][j := x]];
    assert u'[p][..q] == u[p][..q];
    assert u'[q][..q] == u[q][..q];
    assert u'[p][q] == u[p][q] && u'[q][q] == u[q][q];
  }

  /** Writing a right `x` at `(i, j)` makes the check there hold. */
  lemma NewEntryOk(a: M, u: M, i: nat, j: nat, x: real)
    requires HasLowerTriangle(a) && Shape(u, |a|, |a|) && j <= i < |a|
    requires RightEntry(a, u, i, j, x)
    ensures EntryOk(a, u[i := u[i][j := x]], i, j)
  {
    var u' := u[i := u[i][j := x]];
    assert u'[i][..j] == u[i][..j];
    assert u'[j][..j] == u[j][..j];
  }

  /** Any factor agrees with the computed one at the entry just written. */
  lemma AgreeExtend(a: M, u: M, v: M, i: nat, j: nat, x: real)
    requires HasLowerTriangle(a) && FactorBefore(a, u, i, j) && j <= i < |a|
    requires IsCholeskyFactor(a, v) && Agree(a, u, v, i, j)
    requires RightEntry(a, u, i, j, x)
    ensures Agree(a, u[i := u[i][j := x]], v, i, j + 1)
  {
    assert Before(i, j, |a|, 0);
    AgreeingEntry(a, u, v, i, j, x);
    var u' := u[i := u[i][j := x]];
    forall p, q | 0 <= q <= p < |a| && Before(p, q, i, j + 1)
      ensures u'[p][q] == v[p][q]
    {
      if p != i || q != j {
        assert Before(p, q, i, j);
      }
    }
  }

  /** The entry the factoriser writes at `(i, j)` is the one every factor
      agreeing with it so far holds. */
  lemma AgreeingEntry(a: M, u: M, v: M, i: nat, j: nat, x: real)
    requires HasLowerTriangle(a) && Shape(u, |a|, |a|) && Shape(v, |a|, |a|) && j <= i < |a|
    requires EntryOk(a, v, i, j) && Agree(a, u, v, i, j)
    requires RightEntry(a, u, i, j, x)
    ensures x == v[i][j]
  {
    SameRadicand(a, u, v, i, j);
    var r := Dot(u[i][..j], u[j][..j]);
    if i == j {
      assert 0.0 <= x && x * x == a[i][i] - r;
      assert 0.0 <= v[i][i] && v[i][i] * v[i][i] == a[i][i] - r;
      RootUnique(x, v[i][i]);
    } else {
      var d := u[j][j];
      assert Before(j, j, i, j);
      assert d == v[j][j];
      if 0.0 < d {
        assert x * d == a[i][j] - r;
        assert v[i][j] * d == a[i][j] - r;
        QuotientUnique(x, v[i][j], d);
      }
    }
  }

  /** Factors that agree before `(i, j)` have the same partial sum there. */
  lemma SameRadicand(a: M, u: M, v: M, i: nat, j: nat)
    requires HasLowerTriangle(a) && Shape(u, |a|, |a|) && Shape(v, |a|, |a|) && j <= i < |a|
    requires Agree(a, u, v, i, j)
    ensures u[i][..j] == v[i][..j] && u[j][..j] == v[j][..j]
    ensures Dot(u[i][..j], u[j][..j]) == Dot(v[i][..j], v[j][..j])
  {
    assert forall q :: 0 <= q < j ==> Before(i, q, i, j) && Before(j, q, i, j);
  }

  /** `AgreeExtend` for every factor at once. */
  lemma AllAgreeExtend(a: M, u: M, i: nat, j: nat, x: real)
    requires HasLowerTriangle(a) && FactorBefore(a, u, i, j) && j <= i < |a|
    requires forall v :: IsCholeskyFactor(a, v) ==> Agree(a, u, v, i, j)
    requires RightEntry(a, u, i, j, x)
    ensures forall v :: IsCholeskyFactor(a, v) ==> Agree(a, u[i := u[i][j := x]], v, i, j + 1)
  {
    forall v | IsCholeskyFactor(a, v)
      ensures Agree(a, u[i := u[i][j := x]], v, i, j + 1)
    {
      AgreeExtend(a, u, v, i, j, x);
    }
  }

  /** A factor that agrees with every factor everywhere is the only one. */
  lemma FactorUnique(a: M, u: M)
    requires HasLowerTriangle(a) && IsCholeskyFactor(a, u)
    requires forall v :: IsCholeskyFactor(a, v) ==> Agree(a, u, v, |a|, 0)
    ensures forall v :: IsCholeskyFactor(a, v) ==> v == u
  {
    forall v | IsCholeskyFactor(a, v)
      ensures v == u
    {
      SameEntries(v, u, |a|, |a|);
    }
  }

  /** The summing loops of the factoriser: `sum += x[k] * y[k]` for every
      `k < len`. */
  method PartialDot(x: seq<real>, y: seq<real>, len: nat) returns (sum: real)
    requires |x| == |y| && len <= |x|
    ensures sum == Dot(x[..len], y[..len])
  {
    sum := 0.0;
    var k := 0;
    while k < len
      invariant 0 <= k <= len
      invariant sum == Dot(x[..k], y[..k])
    {
      DotStep(x, y, k);
      sum := sum + x[k] * y[k];
      k := k + 1;
    }
  }

  /** A factor that agrees with `u` before `(j, j)` squares to the radicand
      that `u` gives there. */
  lemma FactorRadicand(a: M, u: M, v: M, j: nat)
    requires HasLowerTriangle(a) && FactorBefore(a, u, j, j) && j < |a|
    requires IsCholeskyFactor(a, v) && Agree(a, u, v, j, j)
    ensures v[j][j] * v[j][j] == a[j][j] - Dot(u[j][..j], u[j][..j])
  {
    assert u[j][..j] == v[j][..j];
    assert EntryOk(a, v, j, j);
  }

  /** A negative radicand on the diagonal rules out every factor. */
  lemma NoFactor(a: M, u: M, j: nat)
    requires HasLowerTriangle(a) && FactorBefore(a, u, j, j) && j < |a|
    requires forall v :: IsCholeskyFactor(a, v) ==> Agree(a, u, v, j, j)
    requires a[j][j] - Dot(u[j][..j], u[j][..j]) < 0.0
    ensures forall v :: !IsCholeskyFactor(a, v)
  {
    forall v
      ensures !IsCholeskyFactor(a, v)
    {
      if IsCholeskyFactor(a, v) {
        FactorRadicand(a, u, v, j);
      }
    }
  }

  /** One pass of the `j` loop body: the entry `u[i][j]` that every factor
      agreeing with `u` so far must hold, or a negative radicand on the
      diagonal (where `math.Sqrt` gives NaN). A zero diagonal entry leaves
      the entry below it at 0. */
  method CholeskyEntry(a: M, u: M, i: nat, j: nat, sqrt: real -> real) returns (e: Result<real>)
    requires HasLowerTriangle(a) && Shape(u, |a|, |a|) && j <= i < |a|
    requires forall x :: 0.0 <= x ==> 0.0 <= sqrt(x) && sqrt(x) * sqrt(x) == x
    ensures e.Ok? ==> RightEntry(a, u, i, j, e.value)
    ensures e.Err? ==> e.error == NonPositiveDefiniteInput && i == j &&
                       a[j][j] - Dot(u[j][..j], u[j][..j]) < 0.0
  {
    if i == j {
      var sum := PartialDot(u[j], u[j], j);
      if a[j][j] - sum < 0.0 {
        return Err(NonPositiveDefiniteInput);
      }
      return Ok(sqrt(a[j][j] - sum));
    }
    var sum := PartialDot(u[i], u[j], j);
    if u[j][j] > 0.0 {
      return Ok((a[i][j] - sum) / u[j][j]);
    }
    return Ok(0.0);
  }

  /** `a.CholeskyDecomposition()`: fills a lower-triangular `u` row by row.
      `math.Sqrt` is the parameter `sqrt`, exact on non-negative numbers; a
      negative radicand is the NaN that Go rejects. Below a zero diagonal
      entry the source only logs a warning and leaves the entry zero. The
      result is the one factor of `a` there is, and an error means there is
      none. */
  method CholeskyDecomposition(a: M, sqrt: real -> real) returns (r: Result<M>)
    requires HasLowerTriangle(a)
    requires forall x :: 0.0 <= x ==> 0.0 <= sqrt(x) && sqrt(x) * sqrt(x) == x
    ensures r.Ok? ==> IsCholeskyFactor(a, r.value) && forall v :: IsCholeskyFactor(a, v) ==> v == r.value
    ensures r.Err? ==> r.error == NonPositiveDefiniteInput && forall v :: !IsCholeskyFactor(a, v)
  {
    var n := |a|;
    var u := Zeroes(n, n);
    var i := 0;
    while i < n
      invariant 0 <= i <= n
      invariant FactorBefore(a, u, i, 0)
      invariant forall v :: IsCholeskyFactor(a, v) ==> Agree(a, u, v, i, 0)
    {
      var j := 0;
      while j < i + 1
        invariant 0 <= j <= i + 1
        invariant FactorBefore(a, u, i, j)
        invariant forall v :: IsCholeskyFactor(a, v) ==> Agree(a, u, v, i, j)
      {
        var e := CholeskyEntry(a, u, i, j, sqrt);
        if e.Err? {
          NoFactor(a, u, j);
          return Err(e.error);
        }
        var x := e.value;
        Extend(a, u, i, j, x);
        AllAgreeExtend(a, u, i, j, x);
        u := u[i := u[i][j := x]];
        j := j + 1;
      }
      i := i + 1;
    }
    FactorUnique(a, u);
    return Ok(u);
  }

  /** For a lower-triangular `u`, row `p` dotted with row `q <= p` stops at
      column `q`. */
  lemma LowerDot(u: M, n: nat, p: nat, q: nat)
    requires Shape(u, n, n) && q <= p < n
    requires forall p, q :: 0 <= p < q < n ==> u[p][q] == 0.0
    ensures Dot(u[p], u[q]) == Dot(u[p][..q], u[q][..q]) + u[p][q] * u[q][q]
  {
    DotPrefix(u[p], u[q], q + 1);
    DotStep(u[p], u[q], q);
  }

  /** Row `q` of `u` is column `q` of its transpose. */
  lemma TransposeColumn(u: M, n: nat, q: nat)
    requires Shape(u, n, n) && n > 0 && q < n
    ensures IsMatrix(u) && Col(T(u), q) == u[q]
  {
    assert forall k :: 0 <= k < n ==> Col(T(u), q)[k] == u[q][k];
  }

  /** One entry on or below the diagonal of `u X u.T()`. */
  lemma ReconstructEntry(a: M, u: M, p: nat, q: nat)
    requires HasLowerTriangle(a) && IsCholeskyFactor(a, u)
    requires q <= p < |a| && 0.0 < u[q][q]
    ensures Dot(u[p], u[q]) == a[p][q]
  {
    LowerDot(u, |a|, p, q);
    assert EntryOk(a, u, p, q);
  }

  /** The factor reproduces the input: for a symmetric `a` whose factor has
      a positive diagonal, `u X u.T()` is `a`. */
  lemma CholeskyReconstructs(a: M, u: M)
    requires IsMatrix(a) && Shape(a, |a|, |a|)
    requires forall p, q :: 0 <= p < |a| && 0 <= q < |a| ==> a[p][q] == a[q][p]
    requires HasLowerTriangle(a) && IsCholeskyFactor(a, u)
    requires forall p :: 0 <= p < |a| ==> 0.0 < u[p][p]
    ensures IsMatrix(u) && IsMatrix(T(u))
    ensures X(u, T(u)) == Ok(a)
  {
    var n := |a|;
    forall p, q | 0 <= p < n && 0 <= q < n
      ensures Product(u, T(u))[p][q] == a[p][q]
    {
      TransposeColumn(u, n, q);
      if q <= p {
        ReconstructEntry(a, u, p, q);
      } else {
        DotCommutes(u[p], u[q]);
        ReconstructEntry(a, u, q, p);
      }
    }
    XIsProduct(u, T(u));
    SameEntries(Product(u, T(u)), a, n, n);
  }

  /** Conversely, every lower-triangular `u` with a positive diagonal is the
      factor of `u X u.T()`; with the uniqueness that
      `CholeskyDecomposition` guarantees, it is what the factoriser returns. */
  lemma FactorOfProduct(u: M, n: nat)
    requires Shape(u, n, n) && n > 0
    requires forall p, q :: 0 <= p < q < n ==> u[p][q] == 0.0
    requires forall p :: 0 <= p < n ==> 0.0 < u[p][p]
    ensures IsMatrix(u) && IsMatrix(T(u))
    ensures HasLowerTriangle(Product(u, T(u))) && IsCholeskyFactor(Product(u, T(u)), u)
  {
    var a := Product(u, T(u));
    forall p, q | 0 <= q <= p < n
      ensures EntryOk(a, u, p, q)
    {
      ProductEntryOk(u, n, p, q);
    }
  }

  /** One entry of `FactorOfProduct`. */
  lemma ProductEntryOk(u: M, n: nat, p: nat, q: nat)
    requires Shape(u, n, n) && n > 0 && q <= p < n
    requires forall p, q :: 0 <= p < q < n ==> u[p][q] == 0.0
    requires 0.0 < u[q][q]
    ensures IsMatrix(u) && IsMatrix(T(u)) && HasLowerTriangle(Product(u, T(u)))
    ensures EntryOk(Product(u, T(u)), u, p, q)
  {
    var a := Product(u, T(u));
    TransposeColumn(u, n, q);
    assert a[p][q] == Dot(u[p], u[q]);
    LowerDot(u, n, p, q);
  }

  /** The matrix that the package's own test factors, with its exact
      factor; by the uniqueness `CholeskyDecomposition` guarantees, that
      factor is the only result it can return. */
  lemma CholeskyExample()
    ensures HasLowerTriangle([[4.0, 12.0, -16.0], [12.0, 37.0, -43.0], [-16.0, -43.0, 98.0]])
    ensures IsCholeskyFactor([[4.0, 12.0, -16.0], [12.0, 37.0, -43.0], [-16.0, -43.0, 98.0]],
                             [[2.0, 0.0, 0.0], [6.0, 1.0, 0.0], [-8.0, 5.0, 3.0]])
  {
    var u: M := [[2.0, 0.0, 0.0], [6.0, 1.0, 0.0], [-8.0, 5.0, 3.0]];
    var a: M := [[4.0, 12.0, -16.0], [12.0, 37.0, -43.0], [-16.0, -43.0, 98.0]];
    assert u[1][..1] == [6.0] && u[2][..1] == [-8.0] && u[2][..2] == [-8.0, 5.0];
    assert Dot([6.0], [6.0]) == 36.0;
    assert Dot([-8.0], [6.0]) == -48.0;
    assert Dot([-8.0, 5.0], [-8.0, 5.0]) == 89.0 by {
      assert [-8.0, 5.0][..1] == [-8.0];
    }
    forall p, q | 0 <= q <= p < 3
      ensures EntryOk(a, u, p, q)
    {
      assert u[q][..0] == [];
    }
  }

  // ---------------------------------------------------------------------
  // HadamardProduct

  /** The entrywise product of two matrices of one shape. */
  function Hadamard(a: M, b: M): (r: M)
    requires IsMatrix(a) && IsMatrix(b) && HasSameDimensions(a, b)
    ensures Shape(r, |a|, |a[0]|)
    ensures forall y, x :: 0 <= y < |a| && 0 <= x < |a[0]| ==> r[y][x] == a[y][x] * b[y][x]
  {
    seq(|a|, y requires 0 <= y < |a| => seq(|a[0]|, x requires 0 <= x < |a[0]| => a[y][x] * b[y][x]))
  }

  /** `a.HadamardProduct(b)`: a fresh matrix of entrywise products, or a
      mismatch when the dimensions differ (where Go stops the process). */
  method HadamardProduct(a: M, b: M) returns (r: Result<M>)
    requires IsMatrix(a) && IsMatrix(b)
    ensures r.Err? <==> !HasSameDimensions(a, b)
    ensures r.Err? ==> r.error == ShapeMismatch
    ensures r.Ok? ==> r.value == Hadamard(a, b)
  {
    var d := GetDimensions(a);
    var e := GetDimensions(b);
    var dx, dy := d.0, d.1;
    if dx != e.0 || dy != e.1 {
      return Err(ShapeMismatch);
    }
    var R := Zeroes(dx, dy);
    var y := 0;
    while y < dy
      invariant 0 <= y <= dy && Shape(R, dy, dx)
      invariant forall p, q :: 0 <= p < y && 0 <= q < dx ==> R[p][q] == a[p][q] * b[p][q]
    {
      var x := 0;
      while x < dx
        invariant 0 <= x <= dx && Shape(R, dy, dx)
        invariant forall p, q :: 0 <= p < y && 0 <= q < dx ==> R[p][q] == a[p][q] * b[p][q]
        invariant forall q :: 0 <= q < x ==> R[y][q] == a[y][q] * b[y][q]
      {
        R := R[y := R[y][x := a[y][x] * b[y][x]]];
        x := x + 1;
      }
      y := y + 1;
    }
    SameEntries(R, Hadamard(a, b), dy, dx);
    return Ok(R);
  }

  /** The entrywise product commutes. */
  lemma HadamardCommutes(a: M, b: M)
    requires IsMatrix(a) && IsMatrix(b) && HasSameDimensions(a, b)
    ensures HasSameDimensions(b, a) && Hadamard(a, b) == Hadamard(b, a)
  {
    SameEntries(Hadamard(a, b), Hadamard(b, a), |a|, |a[0]|);
  }

  /** The entrywise product distributes over `Add`. */
  lemma HadamardDistributes(a: M, b: M, c: M)
    requires IsMatrix(a) && IsMatrix(b) && IsMatrix(c)
    requires HasSameDimensions(a, b) && HasSameDimensions(a, c)
    ensures Add(b, c).Ok? && IsMatrix(Add(b, c).value) && HasSameDimensions(a, Add(b, c).value)
    ensures IsMatrix(Hadamard(a, b)) && IsMatrix(Hadamard(a, c))
    ensures Add(Hadamard(a, b), Hadamard(a, c)) == Ok(Hadamard(a, Add(b, c).value))
  {
    AddSameShape(b, c);
    var s := Add(b, c).value;
    var h, k := Hadamard(a, b), Hadamard(a, c);
    HadamardOfSum(a, b, c, s);
    AddIsEntrywise(h, k, Hadamard(a, s));
  }

  /** The entries of `HadamardDistributes`: multiplying a sum entrywise
      distributes. */
  lemma HadamardOfSum(a: M, b: M, c: M, s: M)
    requires IsMatrix(a) && IsMatrix(b) && IsMatrix(c) && IsMatrix(s)
    requires HasSameDimensions(a, b) && HasSameDimensions(a, c) && HasSameDimensions(a, s)
    requires forall y, x :: 0 <= y < |a| && 0 <= x < |a[0]| ==> s[y][x] == b[y][x] + c[y][x]
    ensures forall y, x :: 0 <= y < |a| && 0 <= x < |a[0]| ==>
              Hadamard(a, s)[y][x] == Hadamard(a, b)[y][x] + Hadamard(a, c)[y][x]
  {
    forall y, x | 0 <= y < |a| && 0 <= x < |a[0]|
      ensures Hadamard(a, s)[y][x] == Hadamard(a, b)[y][x] + Hadamard(a, c)[y][x]
    {
      assert a[y][x] * (b[y][x] + c[y][x]) == a[y][x] * b[y][x] + a[y][x] * c[y][x];
    }
  }
}
