/** Algebraic laws of the matrix.go primitives: each operation is tied to an
    inverse, an identity element or an independent definition. */
module DenseLaws {
  import opened Failures
  import opened DotProducts
  import opened Dense

  // ---------------------------------------------------------------------
  // Add and Sub

  /** `Add` is commutative, including its broadcast and mismatch cases. */
  lemma AddCommutes(a: M, b: M)
    requires IsMatrix(a) && IsMatrix(b)
    ensures Add(a, b) == Add(b, a)
  {
    var r, s := Add(a, b), Add(b, a);
    if r.Ok? {
      var (rows, cols) := if IsScalar(a) then (|b|, |b[0]|) else (|a|, |a[0]|);
      SameEntries(r.value, s.value, rows, cols);
    }
  }

  /** Between matrices of one shape, every branch of `Add` is the entrywise
      sum: broadcasting a 1x1 operand onto a 1x1 one adds the two entries. */
  lemma AddSameShape(a: M, b: M)
    requires IsMatrix(a) && IsMatrix(b) && HasSameDimensions(a, b)
    ensures Add(a, b).Ok? && Shape(Add(a, b).value, |a|, |a[0]|)
    ensures forall i, j :: 0 <= i < |a| && 0 <= j < |a[0]| ==>
              Add(a, b).value[i][j] == a[i][j] + b[i][j]
  {
  }

  /** A matrix of `a`'s shape holding the entrywise sums is what `Add`
      returns. */
  lemma AddIsEntrywise(a: M, b: M, t: M)
    requires IsMatrix(a) && IsMatrix(b) && HasSameDimensions(a, b)
    requires Shape(t, |a|, |a[0]|)
    requires forall i, j :: 0 <= i < |a| && 0 <= j < |a[0]| ==> t[i][j] == a[i][j] + b[i][j]
    ensures Add(a, b) == Ok(t)
  {
    AddSameShape(a, b);
    SameEntries(Add(a, b).value, t, |a|, |a[0]|);
  }

  /** `Sub(a, b)` is `Add(a, -1 * b)` in every case, so a 1x1 left operand
      gives `a[0][0] - b[i][j]`. */
  lemma SubIsAddNegated(a: M, b: M)
    requires IsMatrix(a) && IsMatrix(b)
    ensures Sub(a, b) == Add(a, Xscalar(b, -1.0))
  {
    var nb := Xscalar(b, -1.0);
    assert IsScalar(nb) <==> IsScalar(b);
    var r, s := Sub(a, b), Add(a, nb);
    if r.Ok? {
      var (rows, cols) := if IsScalar(a) then (|b|, |b[0]|) else (|a|, |a[0]|);
      SameEntries(r.value, s.value, rows, cols);
    }
  }

  /** Subtracting what was added gives the left operand back, whenever the
      sum has the left operand's shape. */
  lemma SubUndoesAdd(a: M, b: M)
    requires IsMatrix(a) && IsMatrix(b)
    requires HasSameDimensions(a, b) || IsScalar(b)
    ensures Add(a, b).Ok? && IsMatrix(Add(a, b).value)
    ensures Sub(Add(a, b).value, b) == Ok(a)
  {
    var s := Add(a, b).value;
    assert Shape(s, |a|, |a[0]|);
    assert IsScalar(s) <==> IsScalar(a);
    var d := Sub(s, b);
    SameEntries(d.value, a, |a|, |a[0]|);
  }

  /** The zero matrix of the same shape is a neutral element of `Add`. */
  lemma AddZeroes(a: M)
    requires IsMatrix(a)
    ensures Add(a, Zeroes(|a[0]|, |a|)) == Ok(a)
  {
    var z := Zeroes(|a[0]|, |a|);
    SameEntries(Add(a, z).value, a, |a|, |a[0]|);
  }

  // ---------------------------------------------------------------------
  // Xscalar and T

  /** Scaling twice is scaling by the product. */
  lemma XscalarComposes(a: M, s: real, t: real)
    requires IsMatrix(a)
    ensures IsMatrix(Xscalar(a, s))
    ensures Xscalar(Xscalar(a, s), t) == Xscalar(a, t * s)
  {
    var l, r := Xscalar(Xscalar(a, s), t), Xscalar(a, t * s);
    SameEntries(l, r, |a|, |a[0]|);
  }

  /** Transposing twice gives the matrix back. */
  lemma TransposeInvolution(a: M)
    requires IsMatrix(a)
    ensures IsMatrix(T(a)) && T(T(a)) == a
  {
    SameEntries(T(T(a)), a, |a|, |a[0]|);
  }

  // ---------------------------------------------------------------------
  // X

  /** Whenever the inner dimensions agree, `X` is the row-by-column product,
      the 1x1 short-circuits included. */
  lemma XIsProduct(a: M, b: M)
    requires IsMatrix(a) && IsMatrix(b) && |a[0]| == |b|
    ensures X(a, b) == Ok(Product(a, b))
  {
    var p := Product(a, b);
    if IsScalar(a) {
      forall j | 0 <= j < |b[0]|
        ensures p[0][j] == a[0][0] * b[0][j]
      {
        DotSingle(a[0], Col(b, j), 0);
      }
      SameEntries(Xscalar(b, a[0][0]), p, 1, |b[0]|);
    } else if IsScalar(b) {
      forall i | 0 <= i < |a|
        ensures p[i][0] == b[0][0] * a[i][0]
      {
        DotSingle(a[i], Col(b, 0), 0);
      }
      SameEntries(Xscalar(a, b[0][0]), p, |a|, 1);
    }
  }

  /** The diagonal matrix is a right identity of `X`. */
  lemma XIdentityRight(a: M)
    requires IsMatrix(a)
    ensures X(a, NewDiagonalMatrix(|a[0]|, |a[0]|)) == Ok(a)
  {
    var n := |a[0]|;
    var e := NewDiagonalMatrix(n, n);
    XIsProduct(a, e);
    var p := Product(a, e);
    forall i, j | 0 <= i < |a| && 0 <= j < n
      ensures p[i][j] == a[i][j]
    {
      DotSingle(a[i], Col(e, j), j);
    }
    SameEntries(p, a, |a|, n);
  }

  /** The diagonal matrix is a left identity of `X`. */
  lemma XIdentityLeft(a: M)
    requires IsMatrix(a)
    ensures X(NewDiagonalMatrix(|a|, |a|), a) == Ok(a)
  {
    var n := |a|;
    var e := NewDiagonalMatrix(n, n);
    XIsProduct(e, a);
    var p := Product(e, a);
    forall i, j | 0 <= i < n && 0 <= j < |a[0]|
      ensures p[i][j] == a[i][j]
    {
      DotCommutes(e[i], Col(a, j));
      DotSingle(Col(a, j), e[i], i);
    }
    SameEntries(p, a, n, |a[0]|);
  }

  /** Transposition reverses a product: `T(a X b) == T(b) X T(a)`. */
  lemma TransposeOfProduct(a: M, b: M)
    requires IsMatrix(a) && IsMatrix(b) && |a[0]| == |b|
    ensures X(T(b), T(a)) == Ok(T(Product(a, b)))
  {
    var p := Product(a, b);
    var ta, tb := T(a), T(b);
    XIsProduct(tb, ta);
    var q := Product(tb, ta);
    forall j, i | 0 <= j < |b[0]| && 0 <= i < |a|
      ensures q[j][i] == T(p)[j][i]
    {
      assert tb[j] == Col(b, j);
      assert Col(ta, i) == a[i];
      DotCommutes(Col(b, j), a[i]);
    }
    SameEntries(q, T(p), |b[0]|, |a|);
  }

  // ---------------------------------------------------------------------
  // 2x2 closed forms

  /** The entries of a product of two 2x2 matrices, written out. */
  lemma Product2x2(a: M, b: M, i: nat, j: nat)
    requires Shape(a, 2, 2) && Shape(b, 2, 2) && i < 2 && j < 2
    ensures IsMatrix(a) && IsMatrix(b)
    ensures Product(a, b)[i][j] == a[i][0] * b[0][j] + a[i][1] * b[1][j]
  {
    Dot2(a[i], Col(b, j));
  }

  /** One entry of `a X Adj2x2(a)`. */
  lemma AdjugateEntryRight(a: M, i: nat, j: nat)
    requires Shape(a, 2, 2) && i < 2 && j < 2
    ensures IsMatrix(a) && IsMatrix(Adj2x2(a))
    ensures Product(a, Adj2x2(a))[i][j] == Det2x2(a) * NewDiagonalMatrix(2, 2)[i][j]
  {
    Product2x2(a, Adj2x2(a), i, j);
  }

  /** One entry of `Adj2x2(a) X a`. */
  lemma AdjugateEntryLeft(a: M, i: nat, j: nat)
    requires Shape(a, 2, 2) && i < 2 && j < 2
    ensures IsMatrix(a) && IsMatrix(Adj2x2(a))
    ensures Product(Adj2x2(a), a)[i][j] == Det2x2(a) * NewDiagonalMatrix(2, 2)[i][j]
  {
    Product2x2(Adj2x2(a), a, i, j);
  }

  /** The adjoint is the adjugate: `a X Adj2x2(a)` is `Det2x2(a)` times the
      identity, and so is `Adj2x2(a) X a`. */
  lemma AdjugateProduct(a: M)
    requires Shape(a, 2, 2)
    ensures IsMatrix(a)
    ensures X(a, Adj2x2(a)) == Ok(Xscalar(NewDiagonalMatrix(2, 2), Det2x2(a)))
    ensures X(Adj2x2(a), a) == Ok(Xscalar(NewDiagonalMatrix(2, 2), Det2x2(a)))
  {
    var adj := Adj2x2(a);
    var d := Xscalar(NewDiagonalMatrix(2, 2), Det2x2(a));
    assert !IsScalar(a) && !IsScalar(adj);
    forall i, j | 0 <= i < 2 && 0 <= j < 2
      ensures Product(a, adj)[i][j] == d[i][j] && Product(adj, a)[i][j] == d[i][j]
    {
      AdjugateEntryRight(a, i, j);
      AdjugateEntryLeft(a, i, j);
    }
    SameEntries(Product(a, adj), d, 2, 2);
    SameEntries(Product(adj, a), d, 2, 2);
  }

  /** Scaling either factor of a 2x2 product scales the product. */
  lemma Product2x2Scaled(a: M, b: M, s: real, i: nat, j: nat)
    requires Shape(a, 2, 2) && Shape(b, 2, 2) && i < 2 && j < 2
    ensures IsMatrix(a) && IsMatrix(b)
    ensures Product(a, Xscalar(b, s))[i][j] == s * Product(a, b)[i][j]
    ensures Product(Xscalar(a, s), b)[i][j] == s * Product(a, b)[i][j]
  {
    Product2x2(a, b, i, j);
    Product2x2(a, Xscalar(b, s), i, j);
    Product2x2(Xscalar(a, s), b, i, j);
  }

  /** Multiplying by `x` and then by `1 / x` gives the value back. */
  lemma Cancel(x: real, y: real)
    requires x != 0.0
    ensures (1.0 / x) * (x * y) == y
  {
  }

  /** If `a X b` is `k` times the identity at `[i][j]`, then scaling `b` (or,
      for `b X a`, the left factor) by `1 / k` gives the identity there. */
  lemma ScaledProductIsIdentity(a: M, b: M, k: real, i: nat, j: nat)
    requires Shape(a, 2, 2) && Shape(b, 2, 2) && k != 0.0 && i < 2 && j < 2
    ensures IsMatrix(a) && IsMatrix(b)
    ensures Product(a, b)[i][j] == k * NewDiagonalMatrix(2, 2)[i][j] ==>
              Product(a, Xscalar(b, 1.0 / k))[i][j] == NewDiagonalMatrix(2, 2)[i][j]
    ensures Product(a, b)[i][j] == k * NewDiagonalMatrix(2, 2)[i][j] ==>
              Product(Xscalar(a, 1.0 / k), b)[i][j] == NewDiagonalMatrix(2, 2)[i][j]
  {
    Product2x2Scaled(a, b, 1.0 / k, i, j);
    Cancel(k, NewDiagonalMatrix(2, 2)[i][j]);
  }

  /** Over exact reals, `Inv2x2` is a two-sided inverse. */
  lemma Inv2x2IsInverse(a: M)
    requires Shape(a, 2, 2) && Det2x2(a) != 0.0
    ensures IsMatrix(a)
    ensures X(a, Inv2x2(a)) == Ok(NewDiagonalMatrix(2, 2))
    ensures X(Inv2x2(a), a) == Ok(NewDiagonalMatrix(2, 2))
  {
    var inv, e := Inv2x2(a), NewDiagonalMatrix(2, 2);
    var adj, det := Adj2x2(a), Det2x2(a);
    assert inv == Xscalar(adj, 1.0 / det);
    AdjugateProduct(a);
    assert !IsScalar(adj);
    forall i, j | 0 <= i < 2 && 0 <= j < 2
      ensures Product(a, inv)[i][j] == e[i][j] && Product(inv, a)[i][j] == e[i][j]
    {
      ScaledProductIsIdentity(a, adj, det, i, j);
      ScaledProductIsIdentity(adj, a, det, i, j);
    }
    assert !IsScalar(a) && !IsScalar(inv);
    SameEntries(Product(a, inv), e, 2, 2);
    SameEntries(Product(inv, a), e, 2, 2);
  }

  // ---------------------------------------------------------------------
  // Round

  /** Rounding an integer changes nothing, so rounding is idempotent. */
  lemma RoundHalfAwayIdempotent(x: real)
    ensures RoundHalfAway(RoundHalfAway(x)) == RoundHalfAway(x)
  {
    var y := RoundHalfAway(x);
    var z := RoundHalfAway(y);
    var d := z.Floor - y.Floor;
    assert z - y == d as real;
  }

  /** `Round` applied twice leaves the matrix as one application does. */
  lemma RoundAllIdempotent(m: M)
    ensures RoundAll(RoundAll(m)) == RoundAll(m)
  {
    var r := RoundAll(m);
    forall i | 0 <= i < |m|
      ensures RoundAll(r)[i] == r[i]
    {
      forall j | 0 <= j < |m[i]|
        ensures RoundAll(r)[i][j] == r[i][j]
      {
        RoundHalfAwayIdempotent(m[i][j]);
      }
    }
  }
}
