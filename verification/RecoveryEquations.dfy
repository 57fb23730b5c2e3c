/** The linear equations that recovery slices put on missing slices, and when they determine them. */
module RecoveryEquations {
  import opened Gf16
  import opened LinearAlgebra
  import opened GaussJordan
  import opened SliceKernel
  import opened Slices
  import opened Encoder

  datatype Recovery = Recovery(exponent: nat, data: Bytes)

  /** The exponent of a packet is 32 bits wide; the field exponent keeps the low 16. */
  function FieldExponent(r: Recovery): (e: nat)
    ensures e < 65536
  {
    r.exponent % 65536
  }

  /** Row `eq`, column `c`: the coefficient of missing slice `c` in recovery slice `eq`. */
  function CoefficientMatrix(bases: Vector, recs: seq<Recovery>, missing: seq<nat>): (m: Matrix)
    requires |recs| >= |missing| && forall c :: 0 <= c < |missing| ==> missing[c] < |bases|
    ensures |m| == |missing| && Rectangular(m, |missing|)
    ensures forall e, c :: 0 <= e < |missing| && 0 <= c < |missing| ==>
      m[e][c] == Coefficient(bases[missing[c]], FieldExponent(recs[e]))
  {
    seq(|missing|, e requires 0 <= e < |missing| =>
      seq(|missing|, c requires 0 <= c < |missing| => Coefficient(bases[missing[c]], FieldExponent(recs[e]))))
  }

  /** Coefficients of the present slices in key order; keys outside the set get zero. */
  function PresentRow(bases: Vector, keys: seq<nat>, exponent: nat): (r: Vector)
    ensures |r| == |keys|
    ensures forall i :: 0 <= i < |keys| ==>
      r[i] == if keys[i] < |bases| then Coefficient(bases[keys[i]], exponent) else 0
  {
    seq(|keys|, i requires 0 <= i < |keys| => if keys[i] < |bases| then Coefficient(bases[keys[i]], exponent) else 0)
  }

  function PresentMatrix(bases: Vector, recs: seq<Recovery>, keys: seq<nat>, n: nat): (m: Matrix)
    requires n <= |recs|
    ensures |m| == n && Rectangular(m, |keys|)
    ensures forall e :: 0 <= e < n ==> m[e] == PresentRow(bases, keys, FieldExponent(recs[e]))
  {
    seq(n, e requires 0 <= e < n => PresentRow(bases, keys, FieldExponent(recs[e])))
  }

  function RecoveryData(recs: seq<Recovery>, n: nat): (r: seq<Bytes>)
    requires n <= |recs|
    ensures |r| == n && forall e :: 0 <= e < n ==> r[e] == recs[e].data
  {
    seq(n, e requires 0 <= e < n => recs[e].data)
  }

  function Gather<T>(s: seq<T>, keys: seq<nat>): (r: seq<T>)
    requires forall i :: 0 <= i < |keys| ==> keys[i] < |s|
    ensures |r| == |keys| && forall i :: 0 <= i < |keys| ==> r[i] == s[keys[i]]
  {
    seq(|keys|, i requires 0 <= i < |keys| => s[keys[i]])
  }

  /** The system at word position `k`: `present` holds the present slices in key order. */
  datatype System = System(bases: Vector, recs: seq<Recovery>, missing: seq<nat>, keys: seq<nat>,
                           present: seq<Bytes>, size: nat)
  {
    ghost predicate Valid() {
      && |recs| >= |missing|
      && |present| == |keys|
      && (forall c :: 0 <= c < |missing| ==> missing[c] < |bases|)
      && (forall e :: 0 <= e < |missing| ==> size <= |recs[e].data|)
      && (forall i :: 0 <= i < |present| ==> size <= |present[i]|)
    }

    function Matrix(): (m: seq<seq<Elem>>)
      requires Valid()
      ensures |m| == |missing| && Rectangular(m, |missing|)
    {
      CoefficientMatrix(bases, recs, missing)
    }

    function PresentSum(e: nat, k: nat): Elem
      requires Valid() && e < |missing| && 2 * k + 1 < size
    {
      Dot(PresentRow(bases, keys, FieldExponent(recs[e])), WordColumn(present, k), |keys|)
    }

    /** Recovery word minus the contribution of the present slices. */
    function RightSide(k: nat): (b: Vector)
      requires Valid() && 2 * k + 1 < size
      ensures |b| == |missing|
      ensures forall e :: 0 <= e < |missing| ==> b[e] == Add(WordAt(recs[e].data, k), PresentSum(e, k))
    {
      seq(|missing|, e requires 0 <= e < |missing| => Add(WordAt(recs[e].data, k), PresentSum(e, k)))
    }

    /** `out` satisfies every equation at every word position. */
    ghost predicate Satisfied(out: seq<Bytes>)
      requires Valid()
    {
      && |out| == |missing|
      && (forall c :: 0 <= c < |out| ==> |out[c]| == size)
      && (forall k: nat :: 2 * k + 1 < size ==> Solves(Matrix(), WordColumn(out, k), RightSide(k)))
    }
  }

  // ----- uniqueness

  lemma SolutionsAgree(m: Matrix, v: Vector, u: Vector, b: Vector)
    requires Rectangular(m, |m|) && |v| == |u| == |b| == |m| && Nonsingular(m)
    requires Solves(m, v, b) && Solves(m, u, b)
    ensures v == u
  {
    hide Dot, Add;
    var n := |m|;
    var d := seq(n, j requires 0 <= j < n => Add(v[j], u[j]));
    forall i | 0 <= i < n
      ensures Dot(m[i], d, n) == 0
    {
      DotComm(m[i], d, n);
      DotComm(m[i], v, n);
      DotComm(m[i], u, n);
      DotAddLeft(v, u, d, m[i], n);
      AddSelf(b[i]);
    }
    assert !Annihilated(m, d);
    forall j | 0 <= j < n
      ensures v[j] == u[j]
    {
      AddZeroIsEqual(v[j], u[j]);
      assert d[j] == 0;
    }
  }

  /** When the matrix is nonsingular there is at most one way to fill in slices of even length. */
  lemma ReconstructionUnique(s: System, out: seq<Bytes>, out': seq<Bytes>)
    requires s.Valid() && s.size % 2 == 0 && Nonsingular(s.Matrix())
    requires s.Satisfied(out) && s.Satisfied(out')
    ensures out == out'
  {
    hide Dot, Add, WordAt, Nonsingular, Solves, CoefficientMatrix;
    forall c | 0 <= c < |out|
      ensures out[c] == out'[c]
    {
      forall k: nat | 2 * k + 1 < s.size
        ensures WordAt(out[c], k) == WordAt(out'[c], k)
      {
        SolutionsAgree(s.Matrix(), WordColumn(out, k), WordColumn(out', k), s.RightSide(k));
        assert WordColumn(out, k)[c] == WordColumn(out', k)[c];
      }
      WordsDetermine(out[c], out'[c]);
    }
  }

  /** A matrix with two equal columns is singular, so reconstruction needs distinct missing indices. */
  lemma MissingDistinct(s: System, a: nat, b: nat)
    requires s.Valid() && a < b < |s.missing| && s.bases[s.missing[a]] == s.bases[s.missing[b]]
    ensures !Nonsingular(s.Matrix())
  {
    hide Dot, Add, Mul;
    var m, n := s.Matrix(), |s.missing|;
    var x := seq(n, j => if j == a || j == b then 1 as Elem else 0);
    forall i | 0 <= i < n
      ensures Dot(m[i], x, n) == 0
    {
      DotComm(m[i], x, n);
      forall j | 0 <= j < n
        ensures x[j] == Add(Unit(n, a)[j], Unit(n, b)[j])
      {
        AddUnit(0);
        AddUnit(1);
      }
      DotAddLeft(Unit(n, a), Unit(n, b), x, m[i], n);
      DotUnitLeft(Unit(n, a), m[i], n, a);
      DotUnitLeft(Unit(n, b), m[i], n, b);
      AddSelf(m[i][a]);
    }
    assert x[a] != 0;
    assert Annihilated(m, x);
  }
}
