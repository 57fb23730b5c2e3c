/** The in-place Gauss elimination of the Reed-Solomon encoder: only the columns right of the pivot are updated. */
module InPlaceElimination {
  import opened Gf16
  import opened Primitive
  import opened LinearAlgebra
  import opened GaussJordan
  import opened GaloisTable

  // ----- row operations on a pair of matrices

  ghost predicate RowScaled(m: Matrix, m': Matrix, r: nat, c: Elem) {
    && r < |m| == |m'| && |m'[r]| == |m[r]|
    && (forall i :: 0 <= i < |m| && i != r ==> m'[i] == m[i])
    && (forall j :: 0 <= j < |m[r]| ==> m'[r][j] == Mul(c, m[r][j]))
  }

  ghost predicate RowAdded(m: Matrix, m': Matrix, r: nat, s: nat, f: Elem) {
    && r < |m| == |m'| && s < |m| && r != s && |m'[r]| == |m[r]| == |m[s]|
    && (forall i :: 0 <= i < |m| && i != r ==> m'[i] == m[i])
    && (forall j :: 0 <= j < |m[r]| ==> m'[r][j] == Add(m[r][j], Mul(f, m[s][j])))
  }

  /** The rows of both matrices, end to end. */
  function Beside(right: Matrix, left: Matrix): (m: Matrix)
    requires |right| == |left|
    ensures |m| == |left| && forall i :: 0 <= i < |m| ==> m[i] == right[i] + left[i]
  {
    seq(|left|, i requires 0 <= i < |left| => right[i] + left[i])
  }

  /** The leading s by s block. */
  function Lead(m: Matrix, s: nat): (l: Matrix)
    requires s <= |m| && forall i :: 0 <= i < |m| ==> s <= |m[i]|
    ensures |l| == s && Rectangular(l, s) && forall i, j :: 0 <= i < s && 0 <= j < s ==> l[i][j] == m[i][j]
  {
    seq(s, i requires 0 <= i < s => m[i][..s])
  }

  lemma BesideScaled(right: Matrix, left: Matrix, right': Matrix, left': Matrix, r: nat, c: Elem, n: nat, w: nat)
    requires |right| == |left| && Rectangular(right, n) && Rectangular(left, w) && c != 0
    requires RowScaled(right, right', r, c) && RowScaled(left, left', r, c)
    ensures Rectangular(right', n) && Rectangular(left', w)
    ensures SameKernel(Beside(right, left), Beside(right', left'), n + w)
  {
    hide Mul, SameKernel;
    var m := Beside(right, left);
    var row := right'[r] + left'[r];
    assert Beside(right', left') == m[r := row];
    ScaleKeepsKernel(m, m[r := row], n + w, r, c, row);
  }

  lemma BesideAdded(right: Matrix, left: Matrix, right': Matrix, left': Matrix, r: nat, s: nat, f: Elem, n: nat, w: nat)
    requires |right| == |left| && Rectangular(right, n) && Rectangular(left, w)
    requires RowAdded(right, right', r, s, f) && RowAdded(left, left', r, s, f)
    ensures Rectangular(right', n) && Rectangular(left', w)
    ensures SameKernel(Beside(right, left), Beside(right', left'), n + w)
  {
    hide Mul, Add, SameKernel;
    var m := Beside(right, left);
    var row := right'[r] + left'[r];
    assert Beside(right', left') == m[r := row];
    AddRowKeepsKernel(m, m[r := row], n + w, r, s, f, row);
  }

  /** Leading blocks of at least `k` rows still have the kernels they began with. */
  ghost predicate LeadsKept(m: Matrix, m': Matrix, k: nat)
    requires |m| == |m'| && Rectangular(m, |m|) && Rectangular(m', |m|)
  {
    forall s | k <= s <= |m| :: SameKernel(Lead(m, s), Lead(m', s), s)
  }

  lemma SameKernelRefl(m: Matrix, w: nat)
    requires Rectangular(m, w)
    ensures SameKernel(m, m, w)
  {}

  lemma SameKernelTrans(a: Matrix, b: Matrix, c: Matrix, w: nat)
    requires Rectangular(a, w) && Rectangular(b, w) && Rectangular(c, w) && SameKernel(a, b, w) && SameKernel(b, c, w)
    ensures SameKernel(a, c, w)
  {
    hide Kills;
    forall x: Vector | |x| == w
      ensures Kills(a, x) <==> Kills(c, x)
    {
      assert Kills(a, x) <==> Kills(b, x);
    }
  }

  lemma LeadsScaled(m0: Matrix, m: Matrix, m': Matrix, r: nat, c: Elem, k: nat)
    requires |m0| == |m| && Rectangular(m0, |m|) && Rectangular(m, |m|) && c != 0 && r < k && RowScaled(m, m', r, c)
    requires LeadsKept(m0, m, k)
    ensures Rectangular(m', |m|) && LeadsKept(m0, m', k)
  {
    hide Mul, SameKernel;
    forall s | k <= s <= |m|
      ensures SameKernel(Lead(m0, s), Lead(m', s), s)
    {
      var row := m'[r][..s];
      assert Lead(m', s) == Lead(m, s)[r := row];
      ScaleKeepsKernel(Lead(m, s), Lead(m', s), s, r, c, row);
      SameKernelTrans(Lead(m0, s), Lead(m, s), Lead(m', s), s);
    }
  }

  lemma LeadsAdded(m0: Matrix, m: Matrix, m': Matrix, r: nat, p: nat, f: Elem, k: nat)
    requires |m0| == |m| && Rectangular(m0, |m|) && Rectangular(m, |m|) && p < k && RowAdded(m, m', r, p, f)
    requires LeadsKept(m0, m, k)
    ensures Rectangular(m', |m|) && LeadsKept(m0, m', k)
  {
    hide Mul, Add, SameKernel;
    forall s | k <= s <= |m|
      ensures SameKernel(Lead(m0, s), Lead(m', s), s)
    {
      if r < s {
        var row := m'[r][..s];
        assert Lead(m', s) == Lead(m, s)[r := row];
        AddRowKeepsKernel(Lead(m, s), Lead(m', s), s, r, p, f, row);
        SameKernelTrans(Lead(m0, s), Lead(m, s), Lead(m', s), s);
      } else {
        assert Lead(m', s) == Lead(m, s);
      }
    }
  }

  // ----- the loops of the source

  lemma QuotientIsScaled(q: Elem, a: Elem, p: Elem)
    requires p != 0 && Mul(q, p) == a
    ensures q == Mul(Inverse(p), a)
  {
    hide Mul, Inverse;
    MulComm(q, p);
    MulAssoc(Inverse(p), p, q);
    MulOneLeft(q);
  }

  /** Divides the entries from `from` on. */
  method DivideRow(t: Tables, row: Vector, from: nat, pivot: Elem) returns (r: Vector)
    requires t.Valid() && pivot != 0 && from <= |row|
    ensures |r| == |row|
    ensures forall j :: 0 <= j < |row| ==> r[j] == if j < from then row[j] else Mul(Inverse(pivot), row[j])
  {
    hide Mul, Inverse;
    r := row;
    for j := from to |row|
      invariant |r| == |row|
      invariant forall k :: 0 <= k < |row| ==> r[k] == if from <= k < j then Mul(Inverse(pivot), row[k]) else row[k]
    {
      var quotient := t.CheckedDiv(r[j], pivot);
      QuotientIsScaled(quotient.value, row[j], pivot);
      r := r[j := quotient.value];
    }
  }

  /** Subtracts a multiple of the pivot row from the entries from `from` on. */
  method SubtractFrom(t: Tables, row: Vector, from: nat, pivotRow: Vector, factor: Elem) returns (r: Vector)
    requires t.Valid() && |row| == |pivotRow| && from <= |row|
    ensures |r| == |row|
    ensures forall j :: 0 <= j < |row| ==> r[j] == if j < from then row[j] else Add(row[j], Mul(factor, pivotRow[j]))
  {
    hide Mul, Add;
    r := row;
    for j := from to |row|
      invariant |r| == |row|
      invariant forall k :: 0 <= k < |row| ==>
        r[k] == if from <= k < j then Add(row[k], Mul(factor, pivotRow[k])) else row[k]
    {
      MulComm(pivotRow[j], factor);
      r := r[j := Add(r[j], t.Times(pivotRow[j], factor))];
    }
  }

  /** The first `k` columns and all columns from `d` on are those of the identity. */
  ghost predicate Progress(right: Matrix, k: nat, d: nat)
    requires Rectangular(right, |right|)
  {
    forall i, c :: 0 <= i < |right| && 0 <= c < |right| && (c < k || c >= d) ==> right[i][c] == if i == c then 1 else 0
  }

  /** Makes the pivot one. Only columns right of the pivot change in the right matrix. */
  method ScalePivotRow(t: Tables, left: Matrix, right: Matrix, row: nat, d: nat)
    returns (left': Matrix, right': Matrix, ghost c: Elem)
    requires t.Valid() && row < d <= |right| && |left| == |right| && Rectangular(right, |right|)
    requires Progress(right, row, d) && right[row][row] != 0
    ensures c != 0 && RowScaled(left, left', row, c) && RowScaled(right, right', row, c)
    ensures Rectangular(right', |right|) && Progress(right', row, d) && right'[row][row] == 1
  {
    hide Mul, Inverse;
    var pivot := right[row][row];
    left', right' := left, right;
    if pivot != 1 {
      c := Inverse(pivot);
      MulZeroRight(c);
      var leftRow := DivideRow(t, left[row], 0, pivot);
      left' := left[row := leftRow];
      var rightRow := right[row][row := 1];
      rightRow := DivideRow(t, rightRow, row + 1, pivot);
      right' := right[row := rightRow];
    } else {
      c := 1;
      UnitScale(left, row);
      UnitScale(right, row);
    }
  }

  lemma UnitScale(m: Matrix, r: nat)
    requires r < |m|
    ensures RowScaled(m, m, r, 1)
  {
    hide Mul;
    forall j | 0 <= j < |m[r]|
      ensures m[r][j] == Mul(1, m[r][j])
    {
      MulOneLeft(m[r][j]);
    }
  }

  lemma ZeroAdd(m: Matrix, r: nat, s: nat)
    requires r < |m| && s < |m| && r != s && |m[r]| == |m[s]|
    ensures RowAdded(m, m, r, s, 0)
  {
    hide Mul, Add;
    forall j | 0 <= j < |m[r]|
      ensures m[r][j] == Add(m[r][j], Mul(0, m[s][j]))
    {
      MulZeroLeft(m[s][j]);
      AddUnit(m[r][j]);
    }
  }

  /** Clears the pivot column in one other row. */
  method EliminateRow(t: Tables, left: Matrix, right: Matrix, row: nat, other: nat, d: nat)
    returns (left': Matrix, right': Matrix, ghost f: Elem)
    requires t.Valid() && row < d <= |right| && |left| == |right| && Rectangular(right, |right|)
    requires other < |right| && other != row && |left[row]| == |left[other]|
    requires Progress(right, row, d) && right[row][row] == 1
    ensures RowAdded(left, left', other, row, f) && RowAdded(right, right', other, row, f)
    ensures Rectangular(right', |right|) && Progress(right', row, d) && right'[other][row] == 0
  {
    hide Mul, Add;
    var factor := right[other][row];
    left', right' := left, right;
    f := factor;
    if factor != 0 {
      var leftRow := SubtractFrom(t, left[other], 0, left[row], factor);
      left' := left[other := leftRow];
      var rightRow := right[other][row := 0];
      rightRow := SubtractFrom(t, rightRow, row + 1, right[row], factor);
      right' := right[other := rightRow];
      PivotColumns(right[other], right[row], rightRow, row, d, factor);
    } else {
      ZeroAdd(left, other, row);
      ZeroAdd(right, other, row);
    }
  }

  /** Left of the pivot the pivot row is zero, so not touching those columns is the full row operation. */
  lemma PivotColumns(row: Vector, pivotRow: Vector, result: Vector, p: nat, d: nat, f: Elem)
    requires |row| == |pivotRow| == |result| && p < d <= |row| && row[p] == f && pivotRow[p] == 1
    requires forall c :: 0 <= c < |row| && (c < p || c >= d) ==> pivotRow[c] == 0
    requires result[p] == 0 && forall c :: 0 <= c < p ==> result[c] == row[c]
    requires forall c :: p < c < |row| ==> result[c] == Add(row[c], Mul(f, pivotRow[c]))
    ensures forall c :: 0 <= c < |row| ==> result[c] == Add(row[c], Mul(f, pivotRow[c]))
    ensures forall c :: 0 <= c < |row| && (c < p || c >= d) ==> result[c] == row[c]
  {
    hide Mul, Add;
    MulZeroRight(f);
    MulOneRight(f);
    AddSelf(f);
    forall c | 0 <= c < |row|
      ensures Add(row[c], 0) == row[c]
    {
      AddUnit(row[c]);
    }
  }

  /** What every row operation keeps: the kernel of the pair, and the kernels of the leading blocks. */
  ghost predicate Kept(right0: Matrix, left0: Matrix, right: Matrix, left: Matrix, w: nat, k: nat)
  {
    && |right0| == |left0| == |right| == |left|
    && Rectangular(right0, |right0|) && Rectangular(right, |right0|) && Rectangular(left0, w) && Rectangular(left, w)
    && SameKernel(Beside(right0, left0), Beside(right, left), |right0| + w)
    && LeadsKept(right0, right, k)
  }

  lemma KeptAtFirst(right: Matrix, left: Matrix, w: nat)
    requires |right| == |left| && Rectangular(right, |right|) && Rectangular(left, w)
    ensures Kept(right, left, right, left, w, 0)
  {
    hide SameKernel;
    SameKernelRefl(Beside(right, left), |right| + w);
    forall s | 0 <= s <= |right|
      ensures SameKernel(Lead(right, s), Lead(right, s), s)
    {
      SameKernelRefl(Lead(right, s), s);
    }
  }

  lemma KeptScaled(right0: Matrix, left0: Matrix, right: Matrix, left: Matrix, right': Matrix, left': Matrix, w: nat,
                   k: nat, r: nat, c: Elem)
    requires Kept(right0, left0, right, left, w, k) && r < k && c != 0
    requires RowScaled(right, right', r, c) && RowScaled(left, left', r, c)
    ensures Kept(right0, left0, right', left', w, k)
  {
    hide SameKernel, LeadsKept, Mul;
    BesideScaled(right, left, right', left', r, c, |right|, w);
    SameKernelTrans(Beside(right0, left0), Beside(right, left), Beside(right', left'), |right| + w);
    LeadsScaled(right0, right, right', r, c, k);
  }

  lemma KeptAdded(right0: Matrix, left0: Matrix, right: Matrix, left: Matrix, right': Matrix, left': Matrix, w: nat,
                  k: nat, r: nat, p: nat, f: Elem)
    requires Kept(right0, left0, right, left, w, k) && p < k
    requires RowAdded(right, right', r, p, f) && RowAdded(left, left', r, p, f)
    ensures Kept(right0, left0, right', left', w, k)
  {
    hide SameKernel, LeadsKept, Mul, Add;
    BesideAdded(right, left, right', left', r, p, f, |right|, w);
    SameKernelTrans(Beside(right0, left0), Beside(right, left), Beside(right', left'), |right| + w);
    LeadsAdded(right0, right, right', r, p, f, k);
  }

  lemma KeptLater(right0: Matrix, left0: Matrix, right: Matrix, left: Matrix, w: nat, k: nat)
    requires Kept(right0, left0, right, left, w, k)
    ensures Kept(right0, left0, right, left, w, k + 1)
  {
    hide SameKernel;
  }

  /** One pivot: scale its row, then clear its column everywhere else. */
  method EliminatePivot(t: Tables, left: Matrix, right: Matrix, w: nat, row: nat, d: nat, ghost right0: Matrix,
                        ghost left0: Matrix)
    returns (left': Matrix, right': Matrix)
    requires t.Valid() && Kept(right0, left0, right, left, w, row) && row < d <= |right|
    requires Progress(right, row, d) && right[row][row] != 0
    ensures Kept(right0, left0, right', left', w, row + 1) && Progress(right', row + 1, d)
  {
    hide Kept, Mul, Add;
    KeptLater(right0, left0, right, left, w, row);
    KeptShape(right0, left0, right, left, w, row);
    ghost var c;
    left', right', c := ScalePivotRow(t, left, right, row, d);
    KeptScaled(right0, left0, right, left, right', left', w, row + 1, row, c);
    for other := 0 to |right|
      invariant Kept(right0, left0, right', left', w, row + 1)
      invariant |right'| == |left'| == |right| && Rectangular(right', |right|) && Rectangular(left', w)
      invariant Progress(right', row, d) && right'[row][row] == 1
      invariant forall i :: 0 <= i < other && i != row ==> right'[i][row] == 0
    {
      if other != row {
        ghost var f;
        ghost var (l, r) := (left', right');
        left', right', f := EliminateRow(t, left', right', row, other, d);
        KeptAdded(right0, left0, r, l, right', left', w, row + 1, other, row, f);
        KeptShape(right0, left0, right', left', w, row + 1);
      }
    }
  }

  lemma KeptShape(right0: Matrix, left0: Matrix, right: Matrix, left: Matrix, w: nat, k: nat)
    requires Kept(right0, left0, right, left, w, k)
    ensures |right0| == |left0| == |right| == |left|
    ensures Rectangular(right0, |right0|) && Rectangular(right, |right0|) && Rectangular(left0, w)
      && Rectangular(left, w)
  {}

  /** All leading blocks of up to `k` rows are nonsingular. */
  ghost predicate LeadsNonsingular(m: Matrix, k: nat)
    requires k <= |m| && Rectangular(m, |m|)
  {
    forall s :: 1 <= s <= k ==> Nonsingular(Lead(m, s))
  }

  lemma ReducedLeadNonsingular(right0: Matrix, right: Matrix, k: nat, d: nat)
    requires |right| == |right0| && Rectangular(right0, |right|) && Rectangular(right, |right|) && 0 < k <= |right|
    requires LeadsKept(right0, right, k) && Progress(right, k, d)
    ensures Nonsingular(Lead(right0, k))
  {
    hide Dot;
    forall x
      ensures !Annihilated(Lead(right0, k), x)
    {
      if Annihilated(Lead(right0, k), x) {
        assert Kills(Lead(right, k), x);
        forall i | 0 <= i < k
          ensures x[i] == 0
        {
          DotUnitLeft(Lead(right, k)[i], x, k, i);
        }
      }
    }
  }

  lemma ZeroPivotSingular(right0: Matrix, right: Matrix, row: nat, d: nat)
    requires |right| == |right0| && Rectangular(right0, |right|) && Rectangular(right, |right|) && row < |right|
    requires LeadsKept(right0, right, row) && Progress(right, row, d) && right[row][row] == 0
    ensures !Nonsingular(Lead(right0, row + 1))
  {
    hide Dot, SameKernel, Kills, Nonsingular;
    var lead := Lead(right, row + 1);
    SingularWitness(lead, row + 1, row);
    SingularByKernel(Lead(right0, row + 1), lead, Dependency(lead, row + 1, row), row);
  }

  lemma SingularByKernel(m0: Matrix, m: Matrix, x: Vector, c: nat)
    requires |m0| == |m| == |x| && Rectangular(m0, |x|) && Rectangular(m, |x|) && SameKernel(m0, m, |x|)
    requires c < |x| && x[c] != 0 && Kills(m, x)
    ensures !Nonsingular(m0)
  {
    hide Kills;
    assert Annihilated(m0, x);
  }

  /**
   * The elimination without pivoting. It succeeds exactly when every leading block of the first `d` rows is
   * nonsingular, and then leaves the identity on the right.
   */
  method GaussEliminate(t: Tables, left: Matrix, right: Matrix, w: nat, d: nat)
    returns (ok: bool, left': Matrix, right': Matrix)
    requires t.Valid() && |left| == |right| && Rectangular(right, |right|) && Rectangular(left, w)
    requires d <= |right| && Progress(right, 0, d)
    ensures ok <==> LeadsNonsingular(right, d)
    ensures |left'| == |left| && Rectangular(left', w)
    ensures ok ==> |right'| == |right| && Rectangular(right', |right|) && Progress(right', |right|, |right|)
    ensures ok ==> SameKernel(Beside(right, left), Beside(right', left'), |right| + w)
  {
    hide Kept, Mul, Add, Nonsingular, SameKernel, LeadsKept;
    left', right' := left, right;
    KeptAtFirst(right, left, w);
    for row := 0 to d
      invariant Kept(right, left, right', left', w, row)
      invariant |right'| == |left'| == |right| && Rectangular(right', |right|) && Rectangular(left', w)
      invariant Progress(right', row, d) && LeadsNonsingular(right, row)
    {
      KeptLeads(right, left, right', left', w, row);
      if right'[row][row] == 0 {
        ZeroPivotSingular(right, right', row, d);
        return false, left', right';
      }
      left', right' := EliminatePivot(t, left', right', w, row, d, right, left);
      KeptShape(right, left, right', left', w, row + 1);
      KeptLeads(right, left, right', left', w, row + 1);
      ReducedLeadNonsingular(right, right', row + 1, d);
    }
    KeptLeads(right, left, right', left', w, d);
    ok := true;
  }

  lemma KeptLeads(right0: Matrix, left0: Matrix, right: Matrix, left: Matrix, w: nat, k: nat)
    requires Kept(right0, left0, right, left, w, k)
    ensures |right0| == |right| && |left0| == |left| == |right|
    ensures Rectangular(right0, |right0|) && Rectangular(right, |right0|) && Rectangular(left0, w)
      && Rectangular(left, w)
    ensures LeadsKept(right0, right, k) && SameKernel(Beside(right0, left0), Beside(right, left), |right0| + w)
  {}

  // ----- what the eliminated matrix computes

  /** right * out == left * input. */
  ghost predicate Balanced(right: Matrix, left: Matrix, out: Vector, input: Vector)
    requires |right| == |left| && Rectangular(right, |out|) && Rectangular(left, |input|)
  {
    forall i :: 0 <= i < |left| ==> Dot(right[i], out, |out|) == Dot(left[i], input, |input|)
  }

  lemma BesideKills(right: Matrix, left: Matrix, out: Vector, input: Vector)
    requires |right| == |left| && Rectangular(right, |out|) && Rectangular(left, |input|)
    ensures Kills(Beside(right, left), out + input) <==> Balanced(right, left, out, input)
  {
    hide Dot, Add;
    forall i | 0 <= i < |left|
      ensures Dot(Beside(right, left)[i], out + input, |out| + |input|) == 0
        <==> Dot(right[i], out, |out|) == Dot(left[i], input, |input|)
    {
      var (row, v) := (right[i] + left[i], out + input);
      DotSplit(row, v, |out|, |input|);
      assert row[|out|..] == left[i] && v[|out|..] == input;
      DotSame(row, right[i], v, out, |out|);
      AddZeroIsEqual(Dot(right[i], out, |out|), Dot(left[i], input, |input|));
    }
  }

  /** The final left matrix maps every input to the one output that balances the original pair. */
  lemma EliminatedSolves(right: Matrix, left: Matrix, right': Matrix, left': Matrix, out: Vector, input: Vector)
    requires |right| == |left| == |right'| == |left'| == |out|
    requires Rectangular(right, |out|) && Rectangular(right', |out|) && Rectangular(left, |input|)
      && Rectangular(left', |input|)
    requires SameKernel(Beside(right, left), Beside(right', left'), |out| + |input|) && Progress(right', |out|, |out|)
    ensures Balanced(right, left, out, input) <==> Solves(left', input, out)
  {
    hide Dot, Kills;
    BesideKills(right, left, out, input);
    BesideKills(right', left', out, input);
    assert Kills(Beside(right, left), out + input) <==> Kills(Beside(right', left'), out + input);
    forall i | 0 <= i < |out|
      ensures Dot(right'[i], out, |out|) == out[i]
    {
      DotUnitLeft(right'[i], out, |out|, i);
    }
  }

  /** The original right matrix times the final left matrix is the original left matrix. */
  lemma RightTimesLeft(right: Matrix, left: Matrix, left': Matrix, w: nat)
    requires |right| == |left| == |left'| && Rectangular(right, |right|) && Rectangular(left, w)
      && Rectangular(left', w)
    requires forall out: Vector, input: Vector | |out| == |right| && |input| == w ::
      Balanced(right, left, out, input) <==> Solves(left', input, out)
    ensures forall i, j :: 0 <= i < |left| && 0 <= j < w ==>
      Dot(right[i], Column(left', j, |left|), |left|) == left[i][j]
  {
    hide Dot;
    var n := |left|;
    forall i, j | 0 <= i < n && 0 <= j < w
      ensures Dot(right[i], Column(left', j, n), n) == left[i][j]
    {
      var (unit, column) := (Unit(w, j), Column(left', j, n));
      forall k | 0 <= k < n
        ensures Dot(left'[k], unit, w) == column[k]
      {
        DotComm(left'[k], unit, w);
        DotUnitLeft(unit, left'[k], w, j);
      }
      assert Solves(left', unit, column);
      assert Balanced(right, left, column, unit);
      DotComm(left[i], unit, w);
      DotUnitLeft(unit, left[i], w, j);
    }
  }
}
