/** The inner product that the triple loop of `X` accumulates, and the
    algebra of it that the elimination proofs use. */
module DotProducts {

  /** `u[0]*v[0] + ... + u[n-1]*v[n-1]`, summed in ascending index order as
      `result[i][j] += a[i][k] * b[k][j]` does. */
  function Dot(u: seq<real>, v: seq<real>): real
    requires |u| == |v|
    decreases |u|
  {
    if |u| == 0 then 0.0 else Dot(u[..|u| - 1], v[..|v| - 1]) + u[|u| - 1] * v[|v| - 1]
  }

  /** One more step of the running sum. */
  lemma DotStep(u: seq<real>, v: seq<real>, k: nat)
    requires |u| == |v| && k < |u|
    ensures Dot(u[..k + 1], v[..k + 1]) == Dot(u[..k], v[..k]) + u[k] * v[k]
  {
    assert u[..k + 1][..k] == u[..k];
    assert v[..k + 1][..k] == v[..k];
  }

  /** The sum of two terms, written out. */
  lemma Dot2(u: seq<real>, v: seq<real>)
    requires |u| == |v| == 2
    ensures Dot(u, v) == u[0] * v[0] + u[1] * v[1]
  {
    assert u[..1][..0] == [];
    DotStep(u, v, 0);
    DotStep(u, v, 1);
    assert u[..2] == u && v[..2] == v;
  }

  /** Changing one entry of the left operand changes the sum by that entry's term. */
  lemma {:induction false} DotUpdateLeft(u: seq<real>, v: seq<real>, k: nat, x: real)
    requires |u| == |v| && k < |u|
    ensures Dot(u[k := x], v) == Dot(u, v) + (x - u[k]) * v[k]
  {
    var m := |u| - 1;
    if k < m {
      assert u[k := x][..m] == u[..m][k := x];
      DotUpdateLeft(u[..m], v[..m], k, x);
    } else {
      assert u[k := x][..m] == u[..m];
    }
  }

  lemma {:induction false} DotCommutes(u: seq<real>, v: seq<real>)
    requires |u| == |v|
    ensures Dot(u, v) == Dot(v, u)
  {
    if |u| > 0 {
      DotCommutes(u[..|u| - 1], v[..|v| - 1]);
    }
  }

  /** Changing one entry of the right operand changes the sum by that entry's term. */
  lemma DotUpdateRight(u: seq<real>, v: seq<real>, k: nat, x: real)
    requires |u| == |v| && k < |u|
    ensures Dot(u, v[k := x]) == Dot(u, v) + u[k] * (x - v[k])
  {
    DotCommutes(u, v[k := x]);
    DotUpdateLeft(v, u, k, x);
    DotCommutes(u, v);
  }

  /** Sums whose terms agree pairwise are equal. */
  lemma {:induction false} DotTermwise(u: seq<real>, v: seq<real>, u': seq<real>, v': seq<real>)
    requires |u| == |v| == |u'| == |v'|
    requires forall k :: 0 <= k < |u| ==> u[k] * v[k] == u'[k] * v'[k]
    ensures Dot(u, v) == Dot(u', v')
  {
    if |u| > 0 {
      var m := |u| - 1;
      DotTermwise(u[..m], v[..m], u'[..m], v'[..m]);
    }
  }

  /** A sum with a single non-zero term in the right operand. */
  lemma {:induction false} DotSingle(u: seq<real>, v: seq<real>, k: nat)
    requires |u| == |v| && k < |u|
    requires forall m :: 0 <= m < |v| && m != k ==> v[m] == 0.0
    ensures Dot(u, v) == u[k] * v[k]
  {
    var m := |u| - 1;
    if k < m {
      DotSingle(u[..m], v[..m], k);
    } else {
      DotZero(u[..m], v[..m]);
    }
  }

  /** A sum against all zeroes is zero. */
  lemma {:induction false} DotZero(u: seq<real>, v: seq<real>)
    requires |u| == |v|
    requires forall m :: 0 <= m < |v| ==> v[m] == 0.0
    ensures Dot(u, v) == 0.0
  {
    if |u| > 0 {
      DotZero(u[..|u| - 1], v[..|v| - 1]);
    }
  }

  /** When the right operand is zero from index `s` on, only the first `s` terms count. */
  lemma {:induction false} DotPrefix(u: seq<real>, v: seq<real>, s: nat)
    requires |u| == |v| && s <= |u|
    requires forall m :: s <= m < |v| ==> v[m] == 0.0
    ensures Dot(u, v) == Dot(u[..s], v[..s])
  {
    if s < |u| {
      var m := |u| - 1;
      DotPrefix(u[..m], v[..m], s);
      assert u[..m][..s] == u[..s];
      assert v[..m][..s] == v[..s];
    } else {
      assert u[..s] == u;
      assert v[..s] == v;
    }
  }
}
