/** Encode, lose slices, reconstruct: the slices that come back are the ones that were lost. */
module ErasureCode {
  import opened Gf16
  import opened LinearAlgebra
  import opened GaussJordan
  import opened SliceKernel
  import opened Slices
  import opened Encoder
  import opened RecoveryEquations

  // ----- sums over index sequences

  /** The sum of f[q[i]] over the entries of `q` that are below `m`. */
  function SumBelow(f: Vector, q: seq<nat>, m: nat): Elem
    requires m <= |f|
  {
    if q == [] then 0
    else
      var last := q[|q| - 1];
      Add(SumBelow(f, q[..|q| - 1], m), if last < m then f[last] else 0)
  }

  function PrefixSum(f: Vector, m: nat): Elem
    requires m <= |f|
  {
    if m == 0 then 0 else Add(PrefixSum(f, m - 1), f[m - 1])
  }

  lemma {:induction false} SumBelowAppend(f: Vector, p: seq<nat>, q: seq<nat>, m: nat)
    requires m <= |f|
    ensures SumBelow(f, p + q, m) == Add(SumBelow(f, p, m), SumBelow(f, q, m))
    decreases |q|
  {
    hide Add;
    if q == [] {
      assert p + q == p;
      AddUnit(SumBelow(f, p, m));
    } else {
      var front := q[..|q| - 1];
      SumBelowAppend(f, p, front, m);
      assert (p + q)[..|p + q| - 1] == p + front;
      var last := q[|q| - 1];
      AddAssoc(SumBelow(f, p, m), SumBelow(f, front, m), if last < m then f[last] else 0);
    }
  }

  lemma {:induction false} SumBelowAbsent(f: Vector, q: seq<nat>, m: nat)
    requires m < |f| && m !in q
    ensures SumBelow(f, q, m + 1) == SumBelow(f, q, m)
    decreases |q|
  {
    hide Add;
    if q != [] {
      SumBelowAbsent(f, q[..|q| - 1], m);
    }
  }

  /** An index that occurs once adds its term once. */
  lemma {:induction false} SumBelowStep(f: Vector, q: seq<nat>, m: nat)
    requires m < |f| && m in q
    requires forall i, j :: 0 <= i < j < |q| ==> q[i] != q[j]
    ensures SumBelow(f, q, m + 1) == Add(SumBelow(f, q, m), f[m])
    decreases |q|
  {
    hide Add;
    var front, last := q[..|q| - 1], q[|q| - 1];
    assert q == front + [last];
    if last == m {
      SumBelowAbsent(f, front, m);
      AddUnit(SumBelow(f, front, m));
    } else {
      SumBelowStep(f, front, m);
      var rest := if last < m then f[last] else 0;
      assert (if last < m + 1 then f[last] else 0) == rest;
      AddAssoc(SumBelow(f, front, m), f[m], rest);
      AddComm(f[m], rest);
      AddAssoc(SumBelow(f, front, m), rest, f[m]);
    }
  }

  lemma {:induction false} SumBelowZero(f: Vector, q: seq<nat>)
    ensures SumBelow(f, q, 0) == 0
    decreases |q|
  {
    hide Add;
    if q != [] {
      SumBelowZero(f, q[..|q| - 1]);
      AddUnit(0);
    }
  }

  /** Summing in any order gives the same result. */
  lemma {:induction false} SumInAnyOrder(f: Vector, q: seq<nat>, m: nat)
    requires m <= |f| && forall g: nat :: g < m ==> g in q
    requires forall i, j :: 0 <= i < j < |q| ==> q[i] != q[j]
    ensures SumBelow(f, q, m) == PrefixSum(f, m)
    decreases m
  {
    hide Add;
    if m == 0 {
      SumBelowZero(f, q);
    } else {
      SumInAnyOrder(f, q, m - 1);
      SumBelowStep(f, q, m - 1);
    }
  }

  function Products(u: Vector, v: Vector): (r: Vector)
    requires |u| == |v|
    ensures |r| == |u| && forall i :: 0 <= i < |u| ==> r[i] == Mul(u[i], v[i])
  {
    seq(|u|, i requires 0 <= i < |u| => Mul(u[i], v[i]))
  }

  lemma {:induction false} DotIsPrefixSum(u: Vector, v: Vector, m: nat)
    requires |u| == |v| && m <= |u|
    ensures Dot(u, v, m) == PrefixSum(Products(u, v), m)
    decreases m
  {
    hide Add, Mul;
    if m != 0 {
      DotIsPrefixSum(u, v, m - 1);
    }
  }

  /** A dot product over selected positions; positions outside the range have coefficient zero. */
  lemma {:induction false} DotOfSelection(u: Vector, v: Vector, q: seq<nat>, cu: Vector, cv: Vector, n: nat)
    requires |u| == |v| && n <= |q| && n <= |cu| && n <= |cv|
    requires forall i :: 0 <= i < n ==> if q[i] < |u| then cu[i] == u[q[i]] && cv[i] == v[q[i]] else cu[i] == 0
    ensures Dot(cu, cv, n) == SumBelow(Products(u, v), q[..n], |u|)
    decreases n
  {
    hide Add, Mul, Products;
    if n != 0 {
      DotOfSelection(u, v, q, cu, cv, n - 1);
      assert q[..n][..n - 1] == q[..n - 1];
      MulZeroLeft(cv[n - 1]);
      ProductAt(u, v, q[n - 1]);
    }
  }

  lemma ProductAt(u: Vector, v: Vector, g: nat)
    requires |u| == |v|
    ensures g < |u| ==> Products(u, v)[g] == Mul(u[g], v[g])
  {}

  // ----- the lost slices solve the equations

  /**
   * The system comes from encoding `original`: the recovery slices are recovery blocks of it, the present slices
   * are the originals, and every slice is either missing or present, once.
   */
  ghost predicate ComesFrom(s: System, original: seq<Bytes>) {
    && s.Valid()
    && |original| == |s.bases|
    && (forall g :: 0 <= g < |original| ==> |original[g]| == s.size)
    && (forall e :: 0 <= e < |s.missing| ==>
      s.recs[e].data == RecoveryBlock(s.bases, FieldExponent(s.recs[e]), original, s.size))
    && (forall i :: 0 <= i < |s.keys| && s.keys[i] < |original| ==> s.present[i] == original[s.keys[i]])
    && (forall g :: 0 <= g < |original| ==> g in s.missing + s.keys)
    && (forall i, j :: 0 <= i < j < |s.missing + s.keys| ==> (s.missing + s.keys)[i] != (s.missing + s.keys)[j])
  }

  /** One recovery equation: all terms together are the missing terms plus the present terms. */
  lemma EquationOfEncoding(s: System, original: seq<Bytes>, e: nat, k: nat)
    requires ComesFrom(s, original) && e < |s.missing| && 2 * k + 1 < s.size
    ensures Dot(s.Matrix()[e], WordColumn(Gather(original, s.missing), k), |s.missing|) == s.RightSide(k)[e]
  {
    hide Add, Mul, WordAt, Dot, Coefficient, SumBelow, PrefixSum, RecoveryBlock, Products;
    var exponent := FieldExponent(s.recs[e]);
    var u, v := Coefficients(s.bases, exponent), WordColumn(original, k);
    var f := Products(u, v);
    var n, total := |s.missing|, |original|;
    WordOfRecoveryBlock(s.bases, exponent, original, s.size, k);
    DotIsPrefixSum(u, v, total);
    SumInAnyOrder(f, s.missing + s.keys, total);
    SumBelowAppend(f, s.missing, s.keys, total);
    assert s.missing[..n] == s.missing && s.keys[..|s.keys|] == s.keys;
    DotOfSelection(u, v, s.missing, s.Matrix()[e], WordColumn(Gather(original, s.missing), k), n);
    DotOfSelection(u, v, s.keys, PresentRow(s.bases, s.keys, exponent), WordColumn(s.present, k), |s.keys|);
    var lost, rest := SumBelow(f, s.missing, total), SumBelow(f, s.keys, total);
    AddCancel(lost, rest);
  }

  lemma OriginalSatisfies(s: System, original: seq<Bytes>)
    requires ComesFrom(s, original)
    ensures s.Satisfied(Gather(original, s.missing))
  {
    hide Add, Mul, WordAt, Dot, CoefficientMatrix;
    var out := Gather(original, s.missing);
    forall k: nat | 2 * k + 1 < s.size
      ensures Solves(s.Matrix(), WordColumn(out, k), s.RightSide(k))
    {
      forall e | 0 <= e < |s.missing|
        ensures Dot(s.Matrix()[e], WordColumn(out, k), |s.missing|) == s.RightSide(k)[e]
      {
        EquationOfEncoding(s, original, e, k);
      }
    }
  }

  /** Whatever satisfies a nonsingular system of an encoding is, byte for byte, what was lost. */
  lemma ErasureRoundTrip(s: System, original: seq<Bytes>, out: seq<Bytes>)
    requires ComesFrom(s, original) && s.size % 2 == 0
    requires Nonsingular(s.Matrix()) && s.Satisfied(out)
    ensures out == Gather(original, s.missing)
  {
    OriginalSatisfies(s, original);
    ReconstructionUnique(s, out, Gather(original, s.missing));
  }
}
