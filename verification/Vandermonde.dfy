/** Matrices of powers of distinct base values are nonsingular when the exponents form a progression. */
module Vandermonde {
  import opened Gf16
  import opened Primitive
  import opened LinearAlgebra
  import opened GaussJordan

  /** The value at `z` of the monic polynomial with the given roots. */
  function RootProduct(z: Elem, roots: Vector): Elem {
    if roots == [] then 1
    else Mul(RootProduct(z, roots[..|roots| - 1]), Add(z, roots[|roots| - 1]))
  }

  /** z[c]^d times the root product, for every c. */
  function Weights(z: Vector, d: nat, roots: Vector): (w: Vector)
    ensures |w| == |z|
    ensures forall c :: 0 <= c < |z| ==> w[c] == Mul(Pow(z[c], d), RootProduct(z[c], roots))
  {
    seq(|z|, c requires 0 <= c < |z| => Mul(Pow(z[c], d), RootProduct(z[c], roots)))
  }

  /** The first `n` moments of `y` at the points `z` vanish. */
  ghost predicate MomentsVanish(y: Vector, z: Vector, n: nat)
    requires |y| == |z|
  {
    forall d: nat :: d < n ==> Dot(Weights(z, d, []), y, |y|) == 0
  }

  lemma WeightStep(z: Elem, d: nat, p: Elem, s: Elem)
    ensures Mul(Pow(z, d), Mul(p, Add(z, s))) == Add(Mul(Pow(z, d + 1), p), Mul(s, Mul(Pow(z, d), p)))
  {
    hide Mul, Add;
    var q := Pow(z, d);
    assert Pow(z, d + 1) == Mul(z, q);
    MulAssoc(q, p, Add(z, s));
    MulAddRight(Mul(q, p), z, s);
    MulComm(Mul(q, p), z);
    MulComm(Mul(q, p), s);
    MulAssoc(z, q, p);
  }

  /** With fewer than `n` roots and powers together, every weighted sum vanishes too. */
  lemma {:induction false} WeightedSumVanishes(y: Vector, z: Vector, n: nat, d: nat, roots: Vector)
    requires |y| == |z| && MomentsVanish(y, z, n) && d + |roots| < n
    ensures Dot(Weights(z, d, roots), y, |y|) == 0
    decreases |roots|
  {
    hide Mul, Add, Dot, Pow;
    if roots == [] {
    } else {
      var front, s := roots[..|roots| - 1], roots[|roots| - 1];
      WeightedSumVanishes(y, z, n, d + 1, front);
      WeightedSumVanishes(y, z, n, d, front);
      var scaled := seq(|z|, c requires 0 <= c < |z| => Mul(s, Weights(z, d, front)[c]));
      forall c | 0 <= c < |z|
        ensures Weights(z, d, roots)[c] == Add(Weights(z, d + 1, front)[c], scaled[c])
      {
        WeightStep(z[c], d, RootProduct(z[c], front), s);
      }
      DotAddLeft(Weights(z, d + 1, front), scaled, Weights(z, d, roots), y, |y|);
      DotScaleLeft(s, Weights(z, d, front), scaled, y, |y|);
      MulZeroRight(s);
      AddUnit(0);
    }
  }

  lemma {:induction false} RootMakesZero(z: Elem, roots: Vector, i: nat)
    requires i < |roots| && roots[i] == z
    ensures RootProduct(z, roots) == 0
    decreases |roots|
  {
    hide Mul, Add;
    var front, s := roots[..|roots| - 1], roots[|roots| - 1];
    if i == |roots| - 1 {
      AddSelf(z);
      MulZeroRight(RootProduct(z, front));
    } else {
      RootMakesZero(z, front, i);
      MulZeroLeft(Add(z, s));
    }
  }

  lemma {:induction false} NoRootNonzero(z: Elem, roots: Vector)
    requires forall i :: 0 <= i < |roots| ==> roots[i] != z
    ensures RootProduct(z, roots) != 0
    decreases |roots|
  {
    hide Mul, Add;
    if roots != [] {
      var front, s := roots[..|roots| - 1], roots[|roots| - 1];
      NoRootNonzero(z, front);
      AddZeroIsEqual(z, s);
      MulNonzero(RootProduct(z, front), Add(z, s));
    }
  }

  /** Distinct points with vanishing moments carry no weight. */
  lemma MomentsDetermine(y: Vector, z: Vector, k: nat)
    requires |y| == |z| && k < |z| && MomentsVanish(y, z, |z|)
    requires forall i, j :: 0 <= i < j < |z| ==> z[i] != z[j]
    ensures y[k] == 0
  {
    hide Mul, Dot, Pow, RootProduct, MomentsVanish;
    var n := |z|;
    var roots := z[..k] + z[k + 1..];
    WeightedSumVanishes(y, z, n, 0, roots);
    var w := Weights(z, 0, roots);
    forall c | 0 <= c < n && c != k
      ensures w[c] == 0
    {
      RootMakesZero(z[c], roots, if c < k then c else c - 1);
      MulZeroRight(Pow(z[c], 0));
    }
    NoRootNonzero(z[k], roots);
    PowZero(z[k]);
    MulOneLeft(RootProduct(z[k], roots));
    OneTermDot(w, y, n, k);
    if y[k] != 0 {
      MulNonzero(w[k], y[k]);
    }
  }

  lemma PowZero(a: Elem)
    ensures Pow(a, 0) == 1
  {}

  lemma {:induction false} OneTermDot(w: Vector, y: Vector, n: nat, k: nat)
    requires k < n <= |w| && n <= |y|
    requires forall c :: 0 <= c < n && c != k ==> w[c] == 0
    ensures Dot(w, y, n) == Mul(w[k], y[k])
    decreases n
  {
    hide Mul, Add;
    if k == n - 1 {
      DotZeroLeft(w, y, n - 1);
      AddUnit(Mul(w[k], y[k]));
    } else {
      OneTermDot(w, y, n - 1, k);
      MulZeroLeft(y[n - 1]);
      AddUnit(Mul(w[k], y[k]));
    }
  }

  // ----- powers of powers

  lemma {:induction false} PowAdd(a: Elem, d: nat, e: nat)
    ensures Pow(a, d + e) == Mul(Pow(a, d), Pow(a, e))
    decreases d
  {
    hide Mul;
    if d == 0 {
      MulOneLeft(Pow(a, e));
    } else {
      PowAdd(a, d - 1, e);
      MulAssoc(a, Pow(a, d - 1), Pow(a, e));
    }
  }

  lemma {:induction false} PowPow(a: Elem, s: nat, d: nat)
    ensures Pow(Pow(a, s), d) == Pow(a, s * d)
    decreases d
  {
    hide Mul;
    if d == 0 {
      assert s * d == 0;
    } else {
      PowPow(a, s, d - 1);
      PowAdd(a, s, s * (d - 1));
      assert s * d == s + s * (d - 1);
    }
  }

  lemma {:induction false} PowNonzero(a: Elem, e: nat)
    requires a != 0
    ensures Pow(a, e) != 0
  {
    hide Mul;
    if e != 0 {
      PowNonzero(a, e - 1);
      MulNonzero(a, Pow(a, e - 1));
    }
  }

  // ----- the matrices

  /** Some row of `m` holds the powers of the bases to the exponent `e`. */
  ghost predicate HasRow(m: Matrix, bases: Vector, e: nat) {
    exists i :: 0 <= i < |m| && |m[i]| == |bases| && forall c :: 0 <= c < |bases| ==> m[i][c] == Pow(bases[c], e)
  }

  /**
   * The rows hold, in any order, the exponents first, first + step, ..., first + (n - 1) * step, and the bases are
   * nonzero with distinct powers to the step.
   */
  ghost predicate Progression(m: Matrix, bases: Vector, first: nat, step: nat) {
    && |m| == |bases|
    && (forall c :: 0 <= c < |bases| ==> bases[c] != 0)
    && (forall i, j :: 0 <= i < j < |bases| ==> Pow(bases[i], step) != Pow(bases[j], step))
    && (forall d: nat :: d < |bases| ==> HasRow(m, bases, first + step * d))
  }

  lemma MomentFromRow(m: Matrix, bases: Vector, first: nat, step: nat, x: Vector, y: Vector, z: Vector, d: nat)
    requires Rectangular(m, |bases|) && |x| == |y| == |z| == |bases| && Kills(m, x)
    requires HasRow(m, bases, first + step * d)
    requires forall c :: 0 <= c < |bases| ==> y[c] == Mul(Pow(bases[c], first), x[c]) && z[c] == Pow(bases[c], step)
    ensures Dot(Weights(z, d, []), y, |y|) == 0
  {
    hide Mul, Add, Pow;
    var i :| 0 <= i < |m| && forall c :: 0 <= c < |bases| ==> m[i][c] == Pow(bases[c], first + step * d);
    assert Dot(m[i], x, |x|) == 0;
    forall c | 0 <= c < |x|
      ensures Mul(Weights(z, d, [])[c], y[c]) == Mul(m[i][c], x[c])
    {
      PowPow(bases[c], step, d);
      PowAdd(bases[c], step * d, first);
      MulOneRight(Pow(z[c], d));
      MulAssoc(Pow(bases[c], step * d), Pow(bases[c], first), x[c]);
    }
    SameTerms(Weights(z, d, []), y, m[i], x, |x|);
  }

  lemma {:induction false} SameTerms(u: Vector, v: Vector, u': Vector, v': Vector, n: nat)
    requires n <= |u| && n <= |v| && n <= |u'| && n <= |v'|
    requires forall c :: 0 <= c < n ==> Mul(u[c], v[c]) == Mul(u'[c], v'[c])
    ensures Dot(u, v, n) == Dot(u', v', n)
  {
    hide Mul, Add;
    if n != 0 {
      SameTerms(u, v, u', v', n - 1);
    }
  }

  /** A matrix of powers in progression is nonsingular. */
  lemma ProgressionNonsingular(m: Matrix, bases: Vector, first: nat, step: nat)
    requires Rectangular(m, |m|) && Progression(m, bases, first, step)
    ensures Nonsingular(m)
  {
    hide Mul, Add, Pow, Dot, HasRow;
    forall x
      ensures !Annihilated(m, x)
    {
      if Annihilated(m, x) {
        var n := |m|;
        var y := seq(n, c requires 0 <= c < n => Mul(Pow(bases[c], first), x[c]));
        var z := seq(n, c requires 0 <= c < n => Pow(bases[c], step));
        forall d: nat | d < n
          ensures Dot(Weights(z, d, []), y, n) == 0
        {
          MomentFromRow(m, bases, first, step, x, y, z, d);
        }
        forall c | 0 <= c < n
          ensures x[c] == 0
        {
          MomentsDetermine(y, z, c);
          PowNonzero(bases[c], first);
          if x[c] != 0 {
            MulNonzero(Pow(bases[c], first), x[c]);
          }
        }
      }
    }
  }
}
