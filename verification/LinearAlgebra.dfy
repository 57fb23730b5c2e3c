/** Vectors, matrices and row operations over GF(2^16). */
module LinearAlgebra {
  import opened Gf16
  import opened Primitive

  type Vector = seq<Elem>
  type Matrix = seq<seq<Elem>>

  /** The sum of u[j] * v[j] for the first `n` positions j. */
  function Dot(u: Vector, v: Vector, n: nat): Elem
    requires n <= |u| && n <= |v|
  {
    if n == 0 then 0 else Add(Dot(u, v, n - 1), Mul(u[n - 1], v[n - 1]))
  }

  ghost predicate Rectangular(m: Matrix, w: nat) {
    forall i :: 0 <= i < |m| ==> |m[i]| == w
  }

  /** Every row of `m` is orthogonal to `x`. */
  ghost predicate Kills(m: Matrix, x: Vector)
    requires Rectangular(m, |x|)
  {
    forall i :: 0 <= i < |m| ==> Dot(m[i], x, |x|) == 0
  }

  ghost predicate SameKernel(m: Matrix, m': Matrix, w: nat)
    requires Rectangular(m, w) && Rectangular(m', w)
  {
    forall x: Vector | |x| == w :: Kills(m, x) <==> Kills(m', x)
  }

  /** The system m * v == b. */
  ghost predicate Solves(m: Matrix, v: Vector, b: Vector)
    requires Rectangular(m, |v|) && |b| == |m|
  {
    forall i :: 0 <= i < |m| ==> Dot(m[i], v, |v|) == b[i]
  }

  /** `r` undoes `m`: the systems m * v == b and r * b == v have the same solutions. */
  ghost predicate Inverts(m: Matrix, r: Matrix, n: nat)
    requires |m| == |r| == n && Rectangular(m, n) && Rectangular(r, n)
  {
    forall v: Vector, b: Vector | |v| == n && |b| == n :: Solves(m, v, b) <==> Solves(r, b, v)
  }

  function Unit(n: nat, k: nat): (e: Vector)
    ensures |e| == n && forall j :: 0 <= j < n ==> e[j] == if j == k then 1 else 0
  {
    seq(n, j => if j == k then 1 else 0)
  }

  function Column(m: Matrix, j: nat, n: nat): (c: Vector)
    requires n <= |m| && forall i :: 0 <= i < n ==> j < |m[i]|
    ensures |c| == n && forall i :: 0 <= i < n ==> c[i] == m[i][j]
  {
    seq(n, i requires 0 <= i < n => m[i][j])
  }

  // ----- laws of the dot product

  lemma {:induction false} DotAddLeft(u: Vector, u': Vector, s: Vector, v: Vector, n: nat)
    requires n <= |u| && n <= |u'| && n <= |s| && n <= |v|
    requires forall j :: 0 <= j < n ==> s[j] == Add(u[j], u'[j])
    ensures Dot(s, v, n) == Add(Dot(u, v, n), Dot(u', v, n))
  {
    hide Add, Mul;
    if n == 0 {
      AddUnit(0);
    } else {
      DotAddLeft(u, u', s, v, n - 1);
      MulAddLeft(u[n - 1], u'[n - 1], v[n - 1]);
      AddExchange(Dot(u, v, n - 1), Dot(u', v, n - 1), Mul(u[n - 1], v[n - 1]), Mul(u'[n - 1], v[n - 1]));
    }
  }

  lemma {:induction false} DotScaleLeft(c: Elem, u: Vector, s: Vector, v: Vector, n: nat)
    requires n <= |u| && n <= |s| && n <= |v|
    requires forall j :: 0 <= j < n ==> s[j] == Mul(c, u[j])
    ensures Dot(s, v, n) == Mul(c, Dot(u, v, n))
  {
    hide Add, Mul;
    if n == 0 {
      MulZeroRight(c);
    } else {
      DotScaleLeft(c, u, s, v, n - 1);
      MulAssoc(c, u[n - 1], v[n - 1]);
      MulAddRight(c, Dot(u, v, n - 1), Mul(u[n - 1], v[n - 1]));
    }
  }

  lemma {:induction false} DotComm(u: Vector, v: Vector, n: nat)
    requires n <= |u| && n <= |v|
    ensures Dot(u, v, n) == Dot(v, u, n)
  {
    hide Add, Mul;
    if n != 0 {
      DotComm(u, v, n - 1);
      MulComm(u[n - 1], v[n - 1]);
    }
  }

  lemma {:induction false} DotSame(u: Vector, u': Vector, v: Vector, v': Vector, n: nat)
    requires n <= |u| && n <= |u'| && n <= |v| && n <= |v'|
    requires forall j :: 0 <= j < n ==> u[j] == u'[j] && v[j] == v'[j]
    ensures Dot(u, v, n) == Dot(u', v', n)
  {
    hide Add, Mul;
    if n != 0 {
      DotSame(u, u', v, v', n - 1);
    }
  }

  lemma {:induction false} DotZeroLeft(u: Vector, v: Vector, n: nat)
    requires n <= |u| && n <= |v|
    requires forall j :: 0 <= j < n ==> u[j] == 0
    ensures Dot(u, v, n) == 0
  {
    hide Add, Mul;
    if n != 0 {
      DotZeroLeft(u, v, n - 1);
      MulZeroLeft(v[n - 1]);
      AddUnit(0);
    }
  }

  lemma {:induction false} DotUnitLeft(u: Vector, v: Vector, n: nat, k: nat)
    requires k < n <= |u| && n <= |v|
    requires forall j :: 0 <= j < n ==> u[j] == if j == k then 1 else 0
    ensures Dot(u, v, n) == v[k]
  {
    hide Add, Mul;
    MulOneLeft(v[k]);
    MulZeroLeft(v[n - 1]);
    if k == n - 1 {
      DotZeroLeft(u, v, n - 1);
      AddUnit(v[k]);
    } else {
      DotUnitLeft(u, v, n - 1, k);
      AddUnit(v[k]);
    }
  }

  /** A dot product falls into a front part of `n` and a back part of `k` positions. */
  lemma {:induction false} DotSplit(u: Vector, v: Vector, n: nat, k: nat)
    requires |u| >= n + k && |v| >= n + k
    ensures Dot(u, v, n + k) == Add(Dot(u, v, n), Dot(u[n..], v[n..], k))
  {
    hide Add, Mul;
    if k == 0 {
      AddUnit(Dot(u, v, n));
    } else {
      DotSplit(u, v, n, k - 1);
      AddAssoc(Dot(u, v, n), Dot(u[n..], v[n..], k - 1), Mul(u[n + k - 1], v[n + k - 1]));
      assert u[n..][k - 1] == u[n + k - 1] && v[n..][k - 1] == v[n + k - 1];
    }
  }

  /** u * (m * v) == (u * m) * v, with the inner products given as vectors. */
  lemma {:induction false} DotExchange(u: Vector, m: Matrix, v: Vector, mv: Vector, um: Vector, k: nat, n: nat)
    requires k <= |u| && k <= |m| && |mv| >= k && n <= |v| && |um| >= n
    requires forall i :: 0 <= i < k ==> |m[i]| >= n && mv[i] == Dot(m[i], v, n)
    requires forall j :: 0 <= j < n ==> um[j] == Dot(u, Column(m, j, k), k)
    ensures Dot(u, mv, k) == Dot(um, v, n)
    decreases k
  {
    hide Dot;
    if k == 0 {
      NoColumns(u, m, mv, um, n);
      DotZeroLeft(um, v, n);
    } else {
      var last := seq(n, j requires 0 <= j < n => Mul(u[k - 1], m[k - 1][j]));
      var um' := seq(n, j requires 0 <= j < n => Dot(u, Column(m, j, k - 1), k - 1));
      forall j | 0 <= j < n
        ensures um[j] == Add(um'[j], last[j])
      {
        ColumnGrows(u, m, j, k);
      }
      DotAddLeft(um', last, um, v, n);
      DotScaleLeft(u[k - 1], m[k - 1], last, v, n);
      DotExchange(u, m, v, mv, um', k - 1, n);
      DotNext(u, mv, k);
    }
  }

  lemma DotNext(u: Vector, v: Vector, k: nat)
    requires 0 < k <= |u| && k <= |v|
    ensures Dot(u, v, k) == Add(Dot(u, v, k - 1), Mul(u[k - 1], v[k - 1]))
  {
    hide Add, Mul;
  }

  lemma NoColumns(u: Vector, m: Matrix, mv: Vector, um: Vector, n: nat)
    requires n <= |um| && forall j :: 0 <= j < n ==> um[j] == Dot(u, Column(m, j, 0), 0)
    ensures Dot(u, mv, 0) == 0 && forall j :: 0 <= j < n ==> um[j] == 0
  {}

  /** One more row adds its term to a product with a column. */
  lemma ColumnGrows(u: Vector, m: Matrix, j: nat, k: nat)
    requires 0 < k <= |u| && k <= |m| && forall i :: 0 <= i < k ==> j < |m[i]|
    ensures Dot(u, Column(m, j, k), k) == Add(Dot(u, Column(m, j, k - 1), k - 1), Mul(u[k - 1], m[k - 1][j]))
  {
    hide Add, Mul;
    DotSame(u, u, Column(m, j, k), Column(m, j, k - 1), k - 1);
  }

  // ----- row operations keep the kernel

  lemma SwapKeepsKernel(m: Matrix, m': Matrix, w: nat, i: nat, j: nat)
    requires Rectangular(m, w) && i < |m| && j < |m|
    requires m' == m[i := m[j]][j := m[i]]
    ensures Rectangular(m', w) && SameKernel(m, m', w)
  {
    hide Dot;
    assert m == m'[i := m'[j]][j := m'[i]];
  }

  lemma ScaleKeepsKernel(m: Matrix, m': Matrix, w: nat, r: nat, c: Elem, row: Vector)
    requires Rectangular(m, w) && r < |m| && c != 0 && |row| == w && m' == m[r := row]
    requires forall j :: 0 <= j < w ==> row[j] == Mul(c, m[r][j])
    ensures Rectangular(m', w) && SameKernel(m, m', w)
  {
    hide Dot, Mul;
    forall x: Vector | |x| == w
      ensures Kills(m, x) <==> Kills(m', x)
    {
      DotScaleLeft(c, m[r], row, x, w);
      MulZeroRight(c);
      if Dot(m[r], x, w) != 0 {
        MulNonzero(c, Dot(m[r], x, w));
        assert m'[r] == row;
      }
      forall i | 0 <= i < |m| && i != r
        ensures m[i] == m'[i]
      {}
    }
  }

  lemma AddRowKeepsKernel(m: Matrix, m': Matrix, w: nat, r: nat, s: nat, f: Elem, row: Vector)
    requires Rectangular(m, w) && r < |m| && s < |m| && r != s && |row| == w && m' == m[r := row]
    requires forall j :: 0 <= j < w ==> row[j] == Add(m[r][j], Mul(f, m[s][j]))
    ensures Rectangular(m', w) && SameKernel(m, m', w)
  {
    hide Dot, Mul, Add;
    forall x: Vector | |x| == w
      ensures Kills(m, x) <==> Kills(m', x)
    {
      var scaled := seq(w, j requires 0 <= j < w => Mul(f, m[s][j]));
      DotScaleLeft(f, m[s], scaled, x, w);
      DotAddLeft(m[r], scaled, row, x, w);
      MulZeroRight(f);
      AddUnit(Dot(m[r], x, w));
      forall i | 0 <= i < |m| && i != r
        ensures m[i] == m'[i]
      {}
      assert m'[r] == row;
      assert m'[s] == m[s];
    }
  }
}
