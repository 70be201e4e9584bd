/** The matrix primitives of matrix.go.

    Go's `M` is a `[][]float64`; here it is a sequence of rows of exact
    reals. The operations that build a fresh matrix with nested loops
    (`zeroes`, `NewDiagonalMatrix`, `Add`, `Sub`, `X`, `Xscalar`, `T`,
    `Adj2x2`) are functions over these values; `Round`, which overwrites the
    caller's entries, is a method of the `Matrix` class, whose `rows` field is
    the storage that the caller and the callee share. */
module Dense {
  import opened Failures
  import opened DotProducts

  type M = seq<seq<real>>

  /** `m` has exactly `rows` rows of exactly `cols` entries. */
  ghost predicate Shape(m: M, rows: nat, cols: nat) {
    |m| == rows && forall i :: 0 <= i < rows ==> |m[i]| == cols
  }

  /** A non-empty rectangular matrix: what every operation here indexes
      through `a[0]` assumes. */
  predicate IsMatrix(m: M) {
    |m| > 0 && |m[0]| > 0 && forall i :: 0 <= i < |m| ==> |m[i]| == |m[0]|
  }

  /** The 1x1 shape that `Add`, `Sub` and `X` treat as a plain number. */
  predicate IsScalar(m: M) {
    |m| == 1 && |m[0]| == 1
  }

  /** Column `q` of `m`. */
  function Col(m: M, q: nat): (c: seq<real>)
    requires forall r :: 0 <= r < |m| ==> q < |m[r]|
    ensures |c| == |m| && forall r :: 0 <= r < |m| ==> c[r] == m[r][q]
  {
    seq(|m|, r requires 0 <= r < |m| => m[r][q])
  }

  /** Two matrices of the same shape with the same entries are equal. */
  lemma SameEntries(x: M, y: M, rows: nat, cols: nat)
    requires Shape(x, rows, cols) && Shape(y, rows, cols)
    requires forall i, j :: 0 <= i < rows && 0 <= j < cols ==> x[i][j] == y[i][j]
    ensures x == y
  {
    forall i | 0 <= i < rows
      ensures x[i] == y[i]
    {
      assert forall j :: 0 <= j < cols ==> x[i][j] == y[i][j];
    }
  }

  // ---------------------------------------------------------------------
  // Construction and shape queries

  /** `zeroes(dimx, dimy)`: `dimy` rows of `dimx` zeroes; `Zeroes` is the
      exported name of the same function. */
  function Zeroes(dimx: nat, dimy: nat): (m: M)
    ensures Shape(m, dimy, dimx)
    ensures forall i, j :: 0 <= i < dimy && 0 <= j < dimx ==> m[i][j] == 0.0
  {
    seq(dimy, _ => seq(dimx, _ => 0.0))
  }

  /** `NewDiagonalMatrix(dimx, dimy)`: zeroes, with a 1 written at `[i][i]`
      for every row `i` that also has a column `i`. */
  function NewDiagonalMatrix(dimx: nat, dimy: nat): (m: M)
    ensures Shape(m, dimy, dimx)
    ensures forall i, j :: 0 <= i < dimy && 0 <= j < dimx ==>
              m[i][j] == if i == j then 1.0 else 0.0
  {
    var z := Zeroes(dimx, dimy);
    seq(dimy, i requires 0 <= i < dimy => if i < dimx then z[i][i := 1.0] else z[i])
  }

  /** `GetDimensions` answers columns first, then rows. */
  function GetDimensions(a: M): (dims: (nat, nat))
    requires |a| > 0
    ensures dims.1 == |a| && dims.0 == |a[0]|
    ensures IsMatrix(a) ==> Shape(a, dims.1, dims.0)
  {
    (|a[0]|, |a|)
  }

  function HasSameDimensions(a: M, b: M): (same: bool)
    requires |a| > 0 && |b| > 0
    ensures same <==> |a| == |b| && |a[0]| == |b[0]|
    ensures same && IsMatrix(a) && IsMatrix(b) ==> Shape(b, |a|, |a[0]|)
  {
    var (adimx, adimy) := GetDimensions(a);
    var (bdimx, bdimy) := GetDimensions(b);
    !(adimx != bdimx || adimy != bdimy)
  }

  function IsSquareMatrix(a: M): (square: bool)
    requires |a| > 0
    ensures square <==> GetDimensions(a).0 == GetDimensions(a).1
  {
    |a| == |a[0]|
  }

  // ---------------------------------------------------------------------
  // Elementwise arithmetic with 1x1 broadcast

  /** `a.Add(b)`: a 1x1 `a` is added to every entry of `b`; otherwise a 1x1
      `b` is added to every entry of `a`; otherwise the shapes must agree. */
  function Add(a: M, b: M): (r: Result<M>)
    requires IsMatrix(a) && IsMatrix(b)
    ensures r.Err? <==> !IsScalar(a) && !IsScalar(b) && !HasSameDimensions(a, b)
    ensures r.Err? ==> r.error == ShapeMismatch
    ensures IsScalar(a) ==>
              Shape(r.value, |b|, |b[0]|) &&
              forall i, j :: 0 <= i < |b| && 0 <= j < |b[0]| ==> r.value[i][j] == a[0][0] + b[i][j]
    ensures !IsScalar(a) && IsScalar(b) ==>
              Shape(r.value, |a|, |a[0]|) &&
              forall i, j :: 0 <= i < |a| && 0 <= j < |a[0]| ==> r.value[i][j] == a[i][j] + b[0][0]
    ensures r.Ok? && !IsScalar(a) && !IsScalar(b) ==>
              Shape(r.value, |a|, |a[0]|) &&
              forall i, j :: 0 <= i < |a| && 0 <= j < |a[0]| ==> r.value[i][j] == a[i][j] + b[i][j]
  {
    if IsScalar(a) then
      Ok(seq(|b|, i requires 0 <= i < |b| =>
           seq(|b[i]|, j requires 0 <= j < |b[i]| => a[0][0] + b[i][j])))
    else if IsScalar(b) then
      Ok(seq(|a|, i requires 0 <= i < |a| =>
           seq(|a[i]|, j requires 0 <= j < |a[i]| => a[i][j] + b[0][0])))
    else if !HasSameDimensions(a, b) then
      Err(ShapeMismatch)
    else
      Ok(seq(|a|, i requires 0 <= i < |a| =>
           seq(|a[i]|, j requires 0 <= j < |a[i]| => a[i][j] + b[i][j])))
  }

  /** `a.Sub(b)`: the same three cases as `Add`; a 1x1 `a` yields
      `a[0][0] - b[i][j]`, a 1x1 `b` yields `a[i][j] - b[0][0]`. */
  function Sub(a: M, b: M): (r: Result<M>)
    requires IsMatrix(a) && IsMatrix(b)
    ensures r.Err? <==> !IsScalar(a) && !IsScalar(b) && !HasSameDimensions(a, b)
    ensures r.Err? ==> r.error == ShapeMismatch
    ensures IsScalar(a) ==>
              Shape(r.value, |b|, |b[0]|) &&
              forall i, j :: 0 <= i < |b| && 0 <= j < |b[0]| ==> r.value[i][j] == a[0][0] - b[i][j]
    ensures !IsScalar(a) && IsScalar(b) ==>
              Shape(r.value, |a|, |a[0]|) &&
              forall i, j :: 0 <= i < |a| && 0 <= j < |a[0]| ==> r.value[i][j] == a[i][j] - b[0][0]
    ensures r.Ok? && !IsScalar(a) && !IsScalar(b) ==>
              Shape(r.value, |a|, |a[0]|) &&
              forall i, j :: 0 <= i < |a| && 0 <= j < |a[0]| ==> r.value[i][j] == a[i][j] - b[i][j]
  {
    if IsScalar(a) then
      Ok(seq(|b|, i requires 0 <= i < |b| =>
           seq(|b[i]|, j requires 0 <= j < |b[i]| => a[0][0] - b[i][j])))
    else if IsScalar(b) then
      Ok(seq(|a|, i requires 0 <= i < |a| =>
           seq(|a[i]|, j requires 0 <= j < |a[i]| => a[i][j] - b[0][0])))
    else if !HasSameDimensions(a, b) then
      Err(ShapeMismatch)
    else
      Ok(seq(|a|, i requires 0 <= i < |a| =>
           seq(|a[i]|, j requires 0 <= j < |a[i]| => a[i][j] - b[i][j])))
  }

  // ---------------------------------------------------------------------
  // Products and transpose

  /** `a.Xscalar(s)`: every entry multiplied by `s`. */
  function Xscalar(a: M, s: real): (r: M)
    requires IsMatrix(a)
    ensures Shape(r, |a|, |a[0]|)
    ensures forall i, j :: 0 <= i < |a| && 0 <= j < |a[0]| ==> r[i][j] == s * a[i][j]
  {
    seq(|a|, i requires 0 <= i < |a| => seq(|a[0]|, j requires 0 <= j < |a[0]| => s * a[i][j]))
  }

  /** The row-by-column product for operands whose inner dimensions agree. */
  function Product(a: M, b: M): (r: M)
    requires IsMatrix(a) && IsMatrix(b) && |a[0]| == |b|
    ensures Shape(r, |a|, |b[0]|)
    ensures forall i, j :: 0 <= i < |a| && 0 <= j < |b[0]| ==> r[i][j] == Dot(a[i], Col(b, j))
  {
    seq(|a|, i requires 0 <= i < |a| =>
      seq(|b[0]|, j requires 0 <= j < |b[0]| => Dot(a[i], Col(b, j))))
  }

  /** `a.X(b)`: a 1x1 operand short-circuits to `Xscalar` of the other one
      (whatever its shape); otherwise the columns of `a` must match the rows
      of `b`. */
  function X(a: M, b: M): (r: Result<M>)
    requires IsMatrix(a) && IsMatrix(b)
    ensures r.Err? <==> !IsScalar(a) && !IsScalar(b) && |a[0]| != |b|
    ensures r.Err? ==> r.error == ShapeMismatch
    ensures IsScalar(a) ==> r == Ok(Xscalar(b, a[0][0]))
    ensures !IsScalar(a) && IsScalar(b) ==> r == Ok(Xscalar(a, b[0][0]))
    ensures r.Ok? && !IsScalar(a) && !IsScalar(b) ==>
              Shape(r.value, |a|, |b[0]|) &&
              forall i, j :: 0 <= i < |a| && 0 <= j < |b[0]| ==> r.value[i][j] == Dot(a[i], Col(b, j))
  {
    if IsScalar(a) then Ok(Xscalar(b, a[0][0]))
    else if IsScalar(b) then Ok(Xscalar(a, b[0][0]))
    else if |a[0]| != |b| then Err(ShapeMismatch)
    else Ok(Product(a, b))
  }

  /** `a.T()`: entry `[i][j]` moves to `[j][i]`. */
  function T(a: M): (r: M)
    requires IsMatrix(a)
    ensures Shape(r, |a[0]|, |a|)
    ensures forall i, j :: 0 <= i < |a| && 0 <= j < |a[0]| ==> r[j][i] == a[i][j]
  {
    seq(|a[0]|, j requires 0 <= j < |a[0]| => Col(a, j))
  }

  // ---------------------------------------------------------------------
  // 2x2 closed forms

  /** A matrix with at least the 2x2 block that the closed forms read. */
  ghost predicate Has2x2(a: M) {
    |a| >= 2 && |a[0]| >= 2 && |a[1]| >= 2
  }

  /** `Det2x2`: the determinant of the leading 2x2 block; it vanishes when the
      two rows agree. */
  function Det2x2(a: M): (det: real)
    requires Has2x2(a)
    ensures a[0][..2] == a[1][..2] ==> det == 0.0
  {
    a[0][0] * a[1][1] - a[0][1] * a[1][0]
  }

  /** `Adj2x2`: diagonal entries swapped, off-diagonal entries negated. */
  function Adj2x2(a: M): (r: M)
    requires Has2x2(a)
    ensures Shape(r, 2, 2)
    ensures r[0][0] == a[1][1] && r[1][1] == a[0][0]
    ensures r[0][1] == -a[0][1] && r[1][0] == -a[1][0]
  {
    [[a[1][1], -1.0 * a[0][1]], [-1.0 * a[1][0], a[0][0]]]
  }

  /** `Inv2x2`: the adjoint scaled by `1 / Det2x2`. Go divides without a
      check; here the determinant must be non-zero. */
  function Inv2x2(a: M): (r: M)
    requires Has2x2(a) && Det2x2(a) != 0.0
    ensures Shape(r, 2, 2)
    ensures forall i, j :: 0 <= i < 2 && 0 <= j < 2 ==> r[i][j] * Det2x2(a) == Adj2x2(a)[i][j]
  {
    var det := Det2x2(a);
    Xscalar(Adj2x2(a), 1.0 / det)
  }

  // ---------------------------------------------------------------------
  // Rounding in place

  /** `math.Round`: the nearest integer, halves rounded away from zero. */
  function RoundHalfAway(x: real): (r: real)
    ensures r == r.Floor as real
    ensures -0.5 <= r - x <= 0.5
    ensures r - x == 0.5 ==> x > 0.0
    ensures x - r == 0.5 ==> x < 0.0
  {
    if x >= 0.0 then
      var f := (x + 0.5).Floor;
      assert f as real <= x + 0.5 < f as real + 1.0;
      assert (f as real).Floor == f;
      f as real
    else
      var f := (-x + 0.5).Floor;
      assert f as real <= -x + 0.5 < f as real + 1.0;
      assert (-f as real).Floor == -f;
      -f as real
  }

  /** Every entry of `m` rounded, row lengths kept. */
  function RoundAll(m: M): (r: M)
    ensures |r| == |m|
    ensures forall i :: 0 <= i < |m| ==> |r[i]| == |m[i]|
    ensures forall i, j :: 0 <= i < |m| && 0 <= j < |m[i]| ==> r[i][j] == RoundHalfAway(m[i][j])
  {
    seq(|m|, i requires 0 <= i < |m| =>
      seq(|m[i]|, j requires 0 <= j < |m[i]| => RoundHalfAway(m[i][j])))
  }

  /** A Go `M` as the caller holds it: its rows are shared, so a callee that
      writes `a[i][j]` changes what the caller sees. */
  class Matrix {
    var rows: M

    constructor (rows: M)
      ensures this.rows == rows
    {
      this.rows := rows;
    }

    /** `a.Round()`: overwrites every entry with its rounded value and returns
        the same matrix. */
    method Round() returns (r: Matrix)
      modifies this
      ensures r == this
      ensures rows == RoundAll(old(rows))
    {
      ghost var before := rows;
      var i := 0;
      while i < |rows|
        invariant |rows| == |before|
        invariant 0 <= i <= |rows|
        invariant forall p :: 0 <= p < i ==> rows[p] == RoundAll(before)[p]
        invariant forall p :: i <= p < |rows| ==> rows[p] == before[p]
      {
        var j := 0;
        while j < |rows[i]|
          invariant |rows| == |before| && |rows[i]| == |before[i]|
          invariant 0 <= j <= |rows[i]|
          invariant forall p :: 0 <= p < |rows| && p != i ==>
                      rows[p] == if p < i then RoundAll(before)[p] else before[p]
          invariant forall q :: 0 <= q < j ==> rows[i][q] == RoundHalfAway(before[i][q])
          invariant forall q :: j <= q < |rows[i]| ==> rows[i][q] == before[i][q]
        {
          rows := rows[i := rows[i][j := RoundHalfAway(rows[i][j])]];
          j := j + 1;
        }
        assert rows[i] == RoundAll(before)[i];
        i := i + 1;
      }
      r := this;
    }
  }
}
