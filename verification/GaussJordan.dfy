/** Gauss-Jordan elimination: inverting a matrix and solving a linear system over GF(2^16). */
module GaussJordan {
  import opened Gf16
  import opened LinearAlgebra
  import opened GaloisTable

  datatype MatrixError = InvalidDimensions | Singular(column: nat) | DivisionByZero(column: nat)

  datatype Result<+T> = Ok(value: T) | Err(error: MatrixError)

  /** The first `k` columns are those of the identity matrix. */
  ghost predicate Reduced(m: Matrix, k: nat)
    requires forall i :: 0 <= i < |m| ==> k <= |m[i]|
  {
    forall i, c :: 0 <= i < |m| && 0 <= c < k ==> m[i][c] == if i == c then 1 else 0
  }

  /** Column `col` is reduced in the first `k` rows. */
  ghost predicate ColumnReduced(m: Matrix, col: nat, k: nat)
    requires k <= |m| && forall i :: 0 <= i < |m| ==> col < |m[i]|
  {
    forall i :: 0 <= i < k ==> m[i][col] == if i == col then 1 else 0
  }

  method ScaleRow(t: Tables, row: Vector, c: Elem) returns (r: Vector)
    requires t.Valid()
    ensures |r| == |row|
    ensures forall j :: 0 <= j < |row| ==> r[j] == Mul(c, row[j])
  {
    hide Mul;
    r := row;
    for j := 0 to |row|
      invariant |r| == |row|
      invariant forall k :: 0 <= k < j ==> r[k] == Mul(c, row[k])
      invariant forall k :: j <= k < |row| ==> r[k] == row[k]
    {
      MulComm(r[j], c);
      r := r[j := t.Times(r[j], c)];
    }
  }

  method SubtractMultiple(t: Tables, row: Vector, f: Elem, pivotRow: Vector) returns (r: Vector)
    requires t.Valid() && |row| == |pivotRow|
    ensures |r| == |row|
    ensures forall j :: 0 <= j < |row| ==> r[j] == Add(row[j], Mul(f, pivotRow[j]))
  {
    hide Mul, Add;
    r := row;
    for j := 0 to |row|
      invariant |r| == |row|
      invariant forall k :: 0 <= k < j ==> r[k] == Add(row[k], Mul(f, pivotRow[k]))
      invariant forall k :: j <= k < |row| ==> r[k] == row[k]
    {
      r := r[j := Add(r[j], t.Times(f, pivotRow[j]))];
    }
  }

  /** The row the source picks: the first one from `col` down with a nonzero entry, or `col` itself. */
  method FindPivot(m: Matrix, col: nat) returns (p: nat)
    requires col < |m| && forall i :: 0 <= i < |m| ==> col < |m[i]|
    ensures col <= p < |m|
    ensures m[p][col] == 0 ==> forall i :: col <= i < |m| ==> m[i][col] == 0
    ensures m[p][col] == 0 ==> p == col
    ensures forall i :: col <= i < p ==> m[i][col] == 0
  {
    p := col;
    for row := col to |m|
      invariant p == col
      invariant forall i :: col <= i < row ==> m[i][col] == 0
    {
      if m[row][col] != 0 {
        p := row;
        break;
      }
    }
  }

  /** Clears column `col` in every row but the pivot row. */
  method EliminateColumn(t: Tables, m: Matrix, w: nat, col: nat) returns (r: Matrix)
    requires t.Valid() && col < |m| && col < w && Rectangular(m, w)
    requires m[col][col] == 1 && Reduced(m, col)
    ensures |r| == |m| && Rectangular(r, w) && SameKernel(m, r, w)
    ensures Reduced(r, col + 1)
  {
    hide Mul, Add, Dot;
    r := m;
    for row := 0 to |m|
      invariant |r| == |m| && Rectangular(r, w) && SameKernel(m, r, w)
      invariant Reduced(r, col) && r[col] == m[col]
      invariant ColumnReduced(r, col, row)
    {
      if row != col {
        var factor := r[row][col];
        var newRow := SubtractMultiple(t, r[row], factor, r[col]);
        AddRowKeepsKernel(r, r[row := newRow], w, row, col, factor, newRow);
        forall c | 0 <= c < col
          ensures newRow[c] == r[row][c]
        {
          MulZeroRight(factor);
          AddUnit(r[row][c]);
        }
        MulOneRight(factor);
        AddSelf(factor);
        r := r[row := newRow];
      }
    }
  }

  /** Reduces the first |m| columns of `m` to the identity, or finds a column that cannot be. */
  method Reduce(t: Tables, m: Matrix, w: nat) returns (r: Result<Matrix>)
    requires t.Valid() && |m| <= w && Rectangular(m, w)
    ensures match r
      case Ok(m') => |m'| == |m| && Rectangular(m', w) && Reduced(m', |m|) && SameKernel(m, m', w)
      case Err(e) => e.Singular? && Independent(m, w, e.column) && exists x :: KernelWitness(m, x, w, e.column)
  {
    hide Mul, Add, Dot;
    var aug := m;
    for col := 0 to |m|
      invariant |aug| == |m| && Rectangular(aug, w) && Reduced(aug, col) && SameKernel(m, aug, w)
    {
      var p := FindPivot(aug, col);
      if aug[p][col] == 0 {
        SingularWitness(aug, w, col);
        LeadingIndependent(m, aug, w, col);
        ghost var x := Dependency(aug, w, col);
        assert KernelWitness(m, x, w, col);
        return Err(Singular(col));
      }
      if p != col {
        ghost var before := aug;
        aug := aug[col := aug[p]][p := aug[col]];
        SwapKeepsKernel(before, aug, w, col, p);
      }
      var pivot := aug[col][col];
      var inverse := t.CheckedDiv(1, pivot);
      match inverse {
        case None =>
          assert false;
        case Some(c) =>
          var newRow := ScaleRow(t, aug[col], c);
          PivotRowScaled(aug, newRow, w, col, c);
          aug := aug[col := newRow];
      }
      aug := EliminateColumn(t, aug, w, col);
    }
    r := Ok(aug);
  }

  /** The first `col` columns are independent. */
  ghost predicate Independent(m: Matrix, w: nat, col: nat)
    requires Rectangular(m, w)
  {
    forall x: Vector | |x| == w && EndsBefore(x, col) && Kills(m, x) :: EndsBefore(x, 0)
  }

  /** No entry from `k` on is nonzero. */
  predicate EndsBefore(x: Vector, k: nat) { forall j :: k <= j < |x| ==> x[j] == 0 }

  lemma LeadingIndependent(m: Matrix, aug: Matrix, w: nat, col: nat)
    requires |aug| == |m| && col <= |m| <= w && Rectangular(m, w) && Rectangular(aug, w)
    requires SameKernel(m, aug, w) && Reduced(aug, col)
    ensures Independent(m, w, col)
  {
    hide Dot;
    forall x: Vector | |x| == w && EndsBefore(x, col) && Kills(m, x)
      ensures EndsBefore(x, 0)
    {
      assert Kills(aug, x);
      forall j | 0 <= j < col
        ensures x[j] == 0
      {
        DotTail(aug[j], x, col, w);
        DotUnitLeft(aug[j], x, col, j);
      }
    }
  }

  lemma PivotRowScaled(m: Matrix, row: Vector, w: nat, col: nat, c: Elem)
    requires col < |m| && col < w && Rectangular(m, w) && |row| == w && Reduced(m, col)
    requires Mul(c, m[col][col]) == 1
    requires forall j :: 0 <= j < w ==> row[j] == Mul(c, m[col][j])
    ensures Rectangular(m[col := row], w) && SameKernel(m, m[col := row], w)
    ensures row[col] == 1 && Reduced(m[col := row], col)
  {
    hide Mul, Dot;
    MulZeroLeft(m[col][col]);
    ScaleKeepsKernel(m, m[col := row], w, col, c, row);
    MulZeroRight(c);
  }

  /** A vector of width `w`, supported on the columns up to `col`, which is one at `col` and which `m` kills. */
  ghost predicate KernelWitness(m: Matrix, x: Vector, w: nat, col: nat)
    requires Rectangular(m, w)
  {
    && |x| == w && col < |m| && col < w
    && x[col] == 1
    && (forall j :: col < j < w ==> x[j] == 0)
    && Kills(m, x)
  }

  /** Column `col` as a combination of the reduced columns before it. */
  function Dependency(m: Matrix, w: nat, col: nat): (x: Vector)
    requires col < |m| && col < w && Rectangular(m, w)
    ensures |x| == w
    ensures forall j :: 0 <= j < w ==> x[j] == if j < col then m[j][col] else if j == col then 1 else 0
  {
    seq(w, j requires 0 <= j < w => if j < col then m[j][col] else if j == col then 1 else 0)
  }

  lemma SingularWitness(m: Matrix, w: nat, col: nat)
    requires |m| <= w && col < |m| && Rectangular(m, w) && Reduced(m, col)
    requires forall i :: col <= i < |m| ==> m[i][col] == 0
    ensures KernelWitness(m, Dependency(m, w, col), w, col)
  {
    hide Dot, Add, Mul;
    var x := Dependency(m, w, col);
    forall i | 0 <= i < |m|
      ensures Dot(m[i], x, w) == 0
    {
      DependencyRow(m, w, col, i);
    }
  }

  lemma DependencyRow(m: Matrix, w: nat, col: nat, i: nat)
    requires |m| <= w && col < |m| && i < |m| && Rectangular(m, w) && Reduced(m, col)
    requires col <= i ==> m[i][col] == 0
    ensures Dot(m[i], Dependency(m, w, col), w) == 0
  {
    hide Add, Mul;
    var x := Dependency(m, w, col);
    DotTail(m[i], x, col + 1, w);
    MulOneRight(m[i][col]);
    if i < col {
      DotUnitLeft(m[i], x, col, i);
      AddSelf(m[i][col]);
    } else {
      DotZeroLeft(m[i], x, col);
      AddUnit(0);
    }
  }

  /** Positions where `v` is zero do not contribute. */
  lemma {:induction false} DotTail(u: Vector, v: Vector, n: nat, w: nat)
    requires n <= w <= |u| && w <= |v|
    requires forall j :: n <= j < w ==> v[j] == 0
    ensures Dot(u, v, w) == Dot(u, v, n)
    decreases w
  {
    hide Add, Mul;
    if n < w {
      DotTail(u, v, n, w - 1);
      MulZeroRight(u[w - 1]);
      AddUnit(Dot(u, v, w - 1));
    }
  }

  // ----- inversion

  ghost predicate Square(m: Matrix) { m != [] && |m[0]| == |m| }

  /** A nonzero vector that the square matrix `m` annihilates. */
  ghost predicate Annihilated(m: Matrix, x: Vector)
    requires Rectangular(m, |m|)
  {
    |x| == |m| && (exists c :: 0 <= c < |x| && x[c] != 0) && Kills(m, x)
  }

  ghost predicate Nonsingular(m: Matrix)
    requires Rectangular(m, |m|)
  {
    forall x :: !Annihilated(m, x)
  }

  /** Column `col` is the first that depends on the columns before it. */
  ghost predicate FirstDependent(m: Matrix, col: nat)
    requires Rectangular(m, |m|)
  {
    && col < |m|
    && (exists x :: Annihilated(m, x) && EndsBefore(x, col + 1))
    && (forall x :: Annihilated(m, x) ==> !EndsBefore(x, col))
  }

  /** The columns in front of an augmented matrix depend on each other as they did before. */
  lemma FrontDepends(m: Matrix, aug: Matrix, w: nat, col: nat, x: Vector)
    requires Rectangular(m, |m|) && |aug| == |m| && |m| <= w && Rectangular(aug, w)
    requires forall i :: 0 <= i < |m| ==> aug[i][..|m|] == m[i]
    requires KernelWitness(aug, x, w, col) && Independent(aug, w, col)
    ensures FirstDependent(m, col)
  {
    hide Dot, Independent;
    var n := |m|;
    FrontAnnihilated(m, aug, w, x, col);
    assert EndsBefore(x[..n], col + 1);
    forall y | Annihilated(m, y)
      ensures !EndsBefore(y, col)
    {
      if EndsBefore(y, col) {
        FrontIndependent(m, aug, w, col, y);
      }
    }
  }

  lemma FrontIndependent(m: Matrix, aug: Matrix, w: nat, col: nat, y: Vector)
    requires Rectangular(m, |m|) && |aug| == |m| && |m| <= w && Rectangular(aug, w) && col < |m|
    requires forall i :: 0 <= i < |m| ==> aug[i][..|m|] == m[i]
    requires Independent(aug, w, col) && |y| == |m| && EndsBefore(y, col) && Kills(m, y)
    ensures EndsBefore(y, 0)
  {
    hide Dot;
    var n := |m|;
    var x := y + seq(w - n, _ => 0 as Elem);
    forall i | 0 <= i < n
      ensures Dot(aug[i], x, w) == 0
    {
      DotTail(aug[i], x, n, w);
      DotSame(aug[i], m[i], x, y, n);
    }
    assert Kills(aug, x) && EndsBefore(x, col);
    assert forall j :: 0 <= j < n ==> x[j] == y[j];
  }

  function Augment(m: Matrix): (aug: Matrix)
    requires Rectangular(m, |m|)
    ensures |aug| == |m| && Rectangular(aug, 2 * |m|)
    ensures forall i :: 0 <= i < |m| ==> aug[i] == m[i] + Unit(|m|, i)
  {
    seq(|m|, i requires 0 <= i < |m| => m[i] + Unit(|m|, i))
  }

  function RightHalf(m: Matrix): (r: Matrix)
    requires Rectangular(m, 2 * |m|)
    ensures |r| == |m| && Rectangular(r, |m|)
    ensures forall i :: 0 <= i < |m| ==> r[i] == m[i][|m|..]
  {
    seq(|m|, i requires 0 <= i < |m| => m[i][|m|..])
  }

  method InvertGfMatrix(t: Tables, m: Matrix) returns (r: Result<Matrix>)
    requires t.Valid()
    requires m != [] ==> Rectangular(m, |m[0]|)
    ensures !Square(m) <==> r == Err(InvalidDimensions)
    ensures r.Ok? ==> |r.value| == |m| && Rectangular(r.value, |m|) && Inverts(m, r.value, |m|)
    ensures r.Err? && Square(m) ==>
      r.error.Singular? && FirstDependent(m, r.error.column) && exists x :: Annihilated(m, x)
    ensures Square(m) ==> (r.Ok? <==> Nonsingular(m))
  {
    if m == [] || |m[0]| != |m| {
      return Err(InvalidDimensions);
    }
    var n := |m|;
    var reduced := Reduce(t, Augment(m), 2 * n);
    match reduced {
      case Err(e) =>
        ghost var x :| KernelWitness(Augment(m), x, 2 * n, e.column);
        FrontDepends(m, Augment(m), 2 * n, e.column, x);
        r := Err(e);
      case Ok(aug) =>
        ReducedInverts(m, aug);
        r := Ok(RightHalf(aug));
        forall x
          ensures !Annihilated(m, x)
        {
          InvertibleKillsOnlyZero(m, RightHalf(aug), n, x);
        }
    }
  }

  lemma UnitPairRow(u: Vector, e: Vector, i: nat, v: Vector, b: Vector, n: nat)
    requires |u| == |e| == |v| == |b| == n && i < n
    requires forall j :: 0 <= j < n ==> e[j] == if j == i then 1 else 0
    ensures Dot(u + e, v + b, 2 * n) == Add(Dot(u, v, n), b[i])
  {
    hide Add, Mul, Unit, Dot;
    DotSplit(u + e, v + b, n, n);
    assert (u + e)[n..] == e;
    assert (v + b)[n..] == b;
    DotSame(u + e, u, v + b, v, n);
    DotUnitLeft(e, b, n, i);
  }

  lemma ReducedPairRow(row: Vector, i: nat, v: Vector, b: Vector, n: nat)
    requires i < n && |row| == 2 * n && |v| == |b| == n
    requires forall j :: 0 <= j < n ==> row[j] == if j == i then 1 else 0
    ensures Dot(row, v + b, 2 * n) == Add(v[i], Dot(row[n..], b, n))
  {
    hide Add, Mul, Dot;
    DotSplit(row, v + b, n, n);
    assert (v + b)[n..] == b;
    DotUnitLeft(row, v + b, n, i);
  }

  lemma AugmentedKills(m: Matrix, v: Vector, b: Vector)
    requires Rectangular(m, |m|) && |v| == |b| == |m|
    ensures Kills(Augment(m), v + b) <==> Solves(m, v, b)
  {
    hide Dot, Add, Mul, Augment, Unit;
    forall i | 0 <= i < |m|
      ensures Dot(Augment(m)[i], v + b, 2 * |m|) == 0 <==> Dot(m[i], v, |m|) == b[i]
    {
      UnitPairRow(m[i], Unit(|m|, i), i, v, b, |m|);
      AddZeroIsEqual(Dot(m[i], v, |m|), b[i]);
    }
  }

  lemma ReducedKills(aug: Matrix, v: Vector, b: Vector)
    requires Rectangular(aug, 2 * |aug|) && Reduced(aug, |aug|) && |v| == |b| == |aug|
    ensures Kills(aug, v + b) <==> Solves(RightHalf(aug), b, v)
  {
    hide Dot, Add, Mul, RightHalf;
    var n := |aug|;
    forall i | 0 <= i < n
      ensures Dot(aug[i], v + b, 2 * n) == 0 <==> Dot(RightHalf(aug)[i], b, n) == v[i]
    {
      ReducedPairRow(aug[i], i, v, b, n);
      AddZeroIsEqual(v[i], Dot(aug[i][n..], b, n));
    }
  }

  /** The step from the kernels of [A | I] and [I | R] to the two systems. */
  lemma ReducedInverts(m: Matrix, aug: Matrix)
    requires |aug| == |m| && Rectangular(m, |m|) && Rectangular(aug, 2 * |m|)
    requires Reduced(aug, |m|) && SameKernel(Augment(m), aug, 2 * |m|)
    ensures Inverts(m, RightHalf(aug), |m|)
  {
    hide Solves, Kills, Augment, RightHalf, Reduced;
    var n := |m|;
    forall v: Vector, b: Vector | |v| == n && |b| == n
      ensures Solves(m, v, b) <==> Solves(RightHalf(aug), b, v)
    {
      AugmentedKills(m, v, b);
      ReducedKills(aug, v, b);
      assert Kills(Augment(m), v + b) <==> Kills(aug, v + b);
    }
  }

  lemma FrontAnnihilated(m: Matrix, aug: Matrix, w: nat, x: Vector, col: nat)
    requires Rectangular(m, |m|) && |aug| == |m| && |m| <= w && Rectangular(aug, w)
    requires forall i :: 0 <= i < |m| ==> aug[i][..|m|] == m[i]
    requires KernelWitness(aug, x, w, col)
    ensures Annihilated(m, x[..|m|])
  {
    hide Dot, Add, Mul;
    var n := |m|;
    var front := x[..n];
    assert front[col] == 1;
    forall i | 0 <= i < n
      ensures Dot(m[i], front, n) == 0
    {
      DotTail(aug[i], x, n, w);
      DotSame(aug[i], m[i], x, front, n);
      assert Dot(aug[i], x, w) == 0;
    }
  }

  // ----- what an inverse is

  /** The matrix product is the identity. */
  ghost predicate ProductIsIdentity(a: Matrix, b: Matrix, n: nat)
    requires |a| == |b| == n && Rectangular(a, n) && Rectangular(b, n)
  {
    forall i, j :: 0 <= i < n && 0 <= j < n ==> Dot(a[i], Column(b, j, n), n) == if i == j then 1 else 0
  }

  lemma UnitSolved(r: Matrix, n: nat, j: nat)
    requires |r| == n && j < n && Rectangular(r, n)
    ensures Solves(r, Unit(n, j), Column(r, j, n))
  {
    hide Dot;
    forall i | 0 <= i < n
      ensures Dot(r[i], Unit(n, j), n) == r[i][j]
    {
      DotComm(r[i], Unit(n, j), n);
      DotUnitLeft(Unit(n, j), r[i], n, j);
    }
  }

  /** The inverse the elimination finds is two-sided. */
  lemma InverseIsTwoSided(m: Matrix, r: Matrix, n: nat)
    requires |m| == |r| == n && Rectangular(m, n) && Rectangular(r, n) && Inverts(m, r, n)
    ensures ProductIsIdentity(m, r, n) && ProductIsIdentity(r, m, n)
  {
    hide Dot;
    forall i, j | 0 <= i < n && 0 <= j < n
      ensures Dot(m[i], Column(r, j, n), n) == if i == j then 1 else 0
      ensures Dot(r[i], Column(m, j, n), n) == if i == j then 1 else 0
    {
      UnitSolved(r, n, j);
      UnitSolved(m, n, j);
      assert Solves(m, Column(r, j, n), Unit(n, j));
      assert Solves(r, Column(m, j, n), Unit(n, j));
    }
  }

  /** A matrix with an inverse annihilates nothing but zero. */
  lemma InvertibleKillsOnlyZero(m: Matrix, r: Matrix, n: nat, x: Vector)
    requires |m| == |r| == n && Rectangular(m, n) && Rectangular(r, n) && Inverts(m, r, n)
    ensures !Annihilated(m, x)
  {
    hide Dot;
    if Annihilated(m, x) {
      var zero := seq(n, _ => 0 as Elem);
      assert Solves(m, x, zero);
      forall i | 0 <= i < n
        ensures x[i] == 0
      {
        DotComm(r[i], zero, n);
        DotZeroLeft(zero, r[i], n);
        assert Dot(r[i], zero, n) == x[i];
      }
    }
  }

  // ----- systems of equations

  function AugmentWith(m: Matrix, b: Vector): (aug: Matrix)
    requires Rectangular(m, |m|) && |b| == |m|
    ensures |aug| == |m| && Rectangular(aug, |m| + 1)
    ensures forall i :: 0 <= i < |m| ==> aug[i] == m[i] + [b[i]]
  {
    seq(|m|, i requires 0 <= i < |m| => m[i] + [b[i]])
  }

  method SolveGfSystem(t: Tables, m: Matrix, b: Vector) returns (r: Result<Vector>)
    requires t.Valid()
    requires m != [] ==> Rectangular(m, |m[0]|)
    ensures !Square(m) || |b| != |m| <==> r == Err(InvalidDimensions)
    ensures r.Ok? ==> |r.value| == |m|
    ensures r.Ok? ==> forall v: Vector | |v| == |m| :: Solves(m, v, b) <==> v == r.value
    ensures r.Err? && r.error != InvalidDimensions ==>
      r.error.Singular? && FirstDependent(m, r.error.column) && exists x :: Annihilated(m, x)
    ensures Square(m) && |b| == |m| ==> (r.Ok? <==> Nonsingular(m))
  {
    hide Dot;
    if m == [] || |m[0]| != |m| || |b| != |m| {
      return Err(InvalidDimensions);
    }
    var n := |m|;
    var reduced := Reduce(t, AugmentWith(m, b), n + 1);
    match reduced {
      case Err(e) =>
        ghost var x :| KernelWitness(AugmentWith(m, b), x, n + 1, e.column);
        FrontDepends(m, AugmentWith(m, b), n + 1, e.column, x);
        r := Err(e);
      case Ok(aug) =>
        ReducedSolves(m, b, aug);
        UniqueMeansNonsingular(m, b, Column(aug, n, n));
        r := Ok(Column(aug, n, n));
    }
  }

  lemma UniqueMeansNonsingular(m: Matrix, b: Vector, s: Vector)
    requires Rectangular(m, |m|) && |b| == |s| == |m|
    requires forall v: Vector | |v| == |m| :: Solves(m, v, b) <==> v == s
    ensures Nonsingular(m)
  {
    hide Dot, Add;
    var n := |m|;
    forall x
      ensures !Annihilated(m, x)
    {
      if Annihilated(m, x) {
        var v := seq(n, j requires 0 <= j < n => Add(s[j], x[j]));
        forall i | 0 <= i < n
          ensures Dot(m[i], v, n) == b[i]
        {
          DotComm(m[i], v, n);
          DotComm(m[i], s, n);
          DotComm(m[i], x, n);
          DotAddLeft(s, x, v, m[i], n);
          AddUnit(b[i]);
          assert Solves(m, s, b);
        }
        assert v == s;
        forall j | 0 <= j < n
          ensures x[j] == 0
        {
          AddComm(s[j], x[j]);
          AddCancel(x[j], s[j]);
          AddSelf(s[j]);
        }
      }
    }
  }

  lemma SystemRow(row: Vector, v: Vector, n: nat)
    requires |v| == n && |row| == n + 1
    ensures Dot(row, v + [1], n + 1) == Add(Dot(row, v, n), row[n])
  {
    hide Add, Mul;
    DotSame(row, row, v + [1], v, n);
    MulOneRight(row[n]);
  }

  lemma SystemKills(m: Matrix, b: Vector, v: Vector)
    requires Rectangular(m, |m|) && |v| == |b| == |m|
    ensures Kills(AugmentWith(m, b), v + [1]) <==> Solves(m, v, b)
  {
    hide Dot, Add, Mul, AugmentWith;
    var n := |m|;
    forall i | 0 <= i < n
      ensures Dot(AugmentWith(m, b)[i], v + [1], n + 1) == 0 <==> Dot(m[i], v, n) == b[i]
    {
      SystemRow(m[i] + [b[i]], v, n);
      DotSame(m[i] + [b[i]], m[i], v, v, n);
      AddZeroIsEqual(Dot(m[i], v, n), b[i]);
    }
  }

  lemma ReducedSystemKills(aug: Matrix, v: Vector)
    requires Rectangular(aug, |aug| + 1) && Reduced(aug, |aug|) && |v| == |aug|
    ensures Kills(aug, v + [1]) <==> v == Column(aug, |aug|, |aug|)
  {
    hide Dot, Add, Mul, Column;
    var n := |aug|;
    var s := Column(aug, n, n);
    forall i | 0 <= i < n
      ensures Dot(aug[i], v + [1], n + 1) == 0 <==> v[i] == s[i]
    {
      SystemRow(aug[i], v, n);
      DotUnitLeft(aug[i], v, n, i);
      AddZeroIsEqual(v[i], s[i]);
    }
  }

  lemma ReducedSolves(m: Matrix, b: Vector, aug: Matrix)
    requires |aug| == |m| == |b| && Rectangular(m, |m|) && Rectangular(aug, |m| + 1)
    requires Reduced(aug, |m|) && SameKernel(AugmentWith(m, b), aug, |m| + 1)
    ensures forall v: Vector | |v| == |m| :: Solves(m, v, b) <==> v == Column(aug, |m|, |m|)
  {
    hide Solves, Kills, AugmentWith, Column, Reduced;
    forall v: Vector | |v| == |m|
      ensures Solves(m, v, b) <==> v == Column(aug, |m|, |m|)
    {
      SystemKills(m, b, v);
      ReducedSystemKills(aug, v);
      assert Kills(AugmentWith(m, b), v + [1]) <==> Kills(aug, v + [1]);
    }
  }
}
