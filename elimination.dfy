/** Row operations as the elimination loops of linalg.go perform them, and the
    bookkeeping that proves what they compute: subtracting `ratio` times row
    `i` from row `j` of `w` is undone by adding `ratio` times column `j` to
    column `i` of a left factor `g`, so the product `g X w` never changes. */
module Elimination {
  import opened Failures
  import opened DotProducts
  import opened Dense
  import opened DenseLaws

  /** `g X w == t` entry by entry, for an n x n `g` and n x c `w` and `t`. */
  ghost predicate ProductIs(g: M, w: M, t: M, n: nat, c: nat) {
    Shape(g, n, n) && Shape(w, n, c) && Shape(t, n, c) &&
    forall p, q :: 0 <= p < n && 0 <= q < c ==> Dot(g[p], Col(w, q)) == t[p][q]
  }

  /** `w` with row `j` replaced by `w[j] - ratio * w[i]`: the inner loop
      `A[j][k] = A[j][k] - ratio*A[i][k]` run over every column `k`. */
  function SubRow(w: M, j: nat, i: nat, ratio: real): (r: M)
    requires i < |w| && j < |w| && |w[j]| <= |w[i]|
    ensures |r| == |w| && |r[j]| == |w[j]|
    ensures forall p :: 0 <= p < |w| && p != j ==> r[p] == w[p]
    ensures forall q :: 0 <= q < |w[j]| ==> r[j][q] == w[j][q] - ratio * w[i][q]
  {
    w[j := seq(|w[j]|, q requires 0 <= q < |w[j]| => w[j][q] - ratio * w[i][q])]
  }

  /** `g` with `ratio` times column `j` added to column `i`. */
  ghost function AddColumn(g: M, i: nat, j: nat, ratio: real): (r: M)
    requires forall p :: 0 <= p < |g| ==> i < |g[p]| && j < |g[p]|
    ensures |r| == |g|
    ensures forall p :: 0 <= p < |g| ==> |r[p]| == |g[p]|
    ensures forall p, q :: 0 <= p < |g| && 0 <= q < |g[p]| ==>
              r[p][q] == if q == i then g[p][i] + ratio * g[p][j] else g[p][q]
  {
    seq(|g|, p requires 0 <= p < |g| => g[p][i := g[p][i] + ratio * g[p][j]])
  }

  /** The column operation on `g` exactly compensates the row operation on
      `w`. */
  lemma RowOpPreservesProduct(g: M, w: M, t: M, n: nat, c: nat, i: nat, j: nat, ratio: real)
    requires ProductIs(g, w, t, n, c)
    requires i < n && j < n && i != j
    ensures ProductIs(AddColumn(g, i, j, ratio), SubRow(w, j, i, ratio), t, n, c)
  {
    var g', w' := AddColumn(g, i, j, ratio), SubRow(w, j, i, ratio);
    assert Shape(w', n, c);
    forall p, q | 0 <= p < n && 0 <= q < c
      ensures Dot(g'[p], Col(w', q)) == t[p][q]
    {
      var u, v := g[p], Col(w, q);
      var u' := u[i := u[i] + ratio * u[j]];
      var x := v[j] - ratio * v[i];
      assert forall k :: 0 <= k < n ==> g'[p][k] == u'[k];
      assert g'[p] == u';
      forall r | 0 <= r < n
        ensures Col(w', q)[r] == v[j := x][r]
      {
      }
      assert Col(w', q) == v[j := x];
      Compensate(u, v, i, j, ratio);
    }
  }

  /** The same fact for one row of `g` and one column of `w`. */
  lemma Compensate(u: seq<real>, v: seq<real>, i: nat, j: nat, ratio: real)
    requires |u| == |v| && i < |u| && j < |u| && i != j
    ensures Dot(u[i := u[i] + ratio * u[j]], v[j := v[j] - ratio * v[i]]) == Dot(u, v)
  {
    var u' := u[i := u[i] + ratio * u[j]];
    var x := v[j] - ratio * v[i];
    DotUpdateLeft(u, v, i, u[i] + ratio * u[j]);
    DotUpdateRight(u', v, j, x);
    assert u'[j] * (x - v[j]) == -(ratio * u[j] * v[i]);
  }

  /** Starting point of both eliminations: the identity times `w` is `w`. */
  lemma IdentityFactor(w: M, n: nat, c: nat)
    requires Shape(w, n, c)
    ensures ProductIs(NewDiagonalMatrix(n, n), w, w, n, c)
  {
    var e := NewDiagonalMatrix(n, n);
    forall p, q | 0 <= p < n && 0 <= q < c
      ensures Dot(e[p], Col(w, q)) == w[p][q]
    {
      DotCommutes(e[p], Col(w, q));
      DotSingle(Col(w, q), e[p], p);
    }
  }

  /** An entrywise product fact is a fact about `X`. */
  lemma ProductIsX(g: M, w: M, t: M, n: nat, c: nat)
    requires ProductIs(g, w, t, n, c) && n > 0 && c > 0
    ensures IsMatrix(g) && IsMatrix(w) && X(g, w) == Ok(t)
  {
    XIsProduct(g, w);
    SameEntries(Product(g, w), t, n, c);
  }
}
