/** When enough recovery slices are enough: the systems that are never singular, and those that can be. */
module Recoverability {
  import opened Divisors
  import opened Gf16
  import opened Primitive
  import opened GaloisTable
  import opened Bases
  import opened LinearAlgebra
  import opened GaussJordan
  import opened SliceKernel
  import opened Encoder
  import opened RecoveryEquations
  import opened Vandermonde
  import opened Contributions
  import opened Reconstruction
  import opened ErasureCode

  /** The bases are those of the source, for at most 32768 slices. */
  ghost predicate StandardBases(bases: Vector) {
    |bases| <= 32768 && forall i :: 0 <= i < |bases| ==> bases[i] == Base(i)
  }

  ghost predicate HasExponent(recs: seq<Recovery>, n: nat, x: nat)
    requires n <= |recs|
  {
    exists e :: 0 <= e < n && FieldExponent(recs[e]) == x
  }

  function Term(first: nat, step: nat, d: nat): nat { first + step * d }

  /** The exponents of the first `n` recovery slices are first, first + step, ... in any order. */
  ghost predicate ExponentProgression(recs: seq<Recovery>, n: nat, first: nat, step: nat) {
    n <= |recs| && forall d: nat :: d < n ==> HasExponent(recs, n, Term(first, step, d))
  }

  lemma PowOfBase(i: nat, e: nat)
    ensures Pow(Base(i), e) == XPow(BaseLog(i) * e)
  {
    hide XPow, BaseLog, Pow;
    PowOfXPow(BaseLog(i), e);
  }

  /** Powers of two bases to a step prime to 65535 stay different. */
  lemma StepKeepsDistinct(i: nat, j: nat, step: nat)
    requires i < j < 32768 && Usable(step)
    ensures Pow(Base(i), step) != Pow(Base(j), step)
  {
    hide XPow, BaseLog, Pow, Usable;
    var l, l' := BaseLog(i), BaseLog(j);
    PowOfBase(i, step);
    PowOfBase(j, step);
    BaseLogBound(i);
    BaseLogBound(j);
    BaseLogIncreases(i, j);
    if Pow(Base(i), step) == Pow(Base(j), step) {
      SplitProduct(l, l', step);
      XPowCancel(l * step, (l' - l) * step);
      OrderOfX((l' - l) * step);
      CoprimeStep(l' - l, step);
    }
  }

  lemma SplitProduct(l: nat, l': nat, step: nat)
    requires l <= l'
    ensures l' * step == l * step + (l' - l) * step && (l' - l) * step >= 0
  {}

  lemma CoprimeStep(d: nat, step: nat)
    requires 0 < d < 65535 && Usable(step)
    ensures (d * step) % 65535 != 0
  {
    hide Gcd;
    if (d * step) % 65535 == 0 {
      assert step != 0 by { assert 0 % 3 == 0; }
      UsableIsCoprime(step);
      DividesMod(65535, d * step);
      assert d * step == step * d;
      DividesMod(65535, d);
      CoprimeFactor(65535, step, d);
    }
  }

  /**
   * Distinct missing slices and exponents in progression, with a step prime to 65535 (one, for consecutive
   * exponents), always give a nonsingular matrix.
   */
  lemma ProgressionRecoverable(s: System, first: nat, step: nat)
    requires s.Valid() && StandardBases(s.bases) && Usable(step)
    requires forall a, b :: 0 <= a < b < |s.missing| ==> s.missing[a] != s.missing[b]
    requires ExponentProgression(s.recs, |s.missing|, first, step)
    ensures Nonsingular(s.Matrix())
  {
    hide Pow, XPow, BaseLog, Nonsingular, Usable;
    var n := |s.missing|;
    var chosen := seq(n, c requires 0 <= c < n => s.bases[s.missing[c]]);
    forall c | 0 <= c < n
      ensures chosen[c] != 0
    {
      XPowNonzero(BaseLog(s.missing[c]));
    }
    forall a, b | 0 <= a < b < n
      ensures Pow(chosen[a], step) != Pow(chosen[b], step)
    {
      if s.missing[a] < s.missing[b] {
        StepKeepsDistinct(s.missing[a], s.missing[b], step);
      } else {
        StepKeepsDistinct(s.missing[b], s.missing[a], step);
      }
    }
    forall d: nat | d < n
      ensures HasRow(s.Matrix(), chosen, first + step * d)
    {
      assert HasExponent(s.recs, n, Term(first, step, d));
      var e :| 0 <= e < n && FieldExponent(s.recs[e]) == Term(first, step, d);
      assert forall c :: 0 <= c < n ==> s.Matrix()[e][c] == Pow(chosen[c], first + step * d);
    }
    ProgressionNonsingular(s.Matrix(), chosen, first, step);
  }

  lemma OneIsUsable()
    ensures Usable(1)
  {}

  /** Consecutive exponents, in any order, always recover distinct missing slices. */
  lemma ConsecutiveRecoverable(s: System, first: nat)
    requires s.Valid() && StandardBases(s.bases)
    requires forall a, b :: 0 <= a < b < |s.missing| ==> s.missing[a] != s.missing[b]
    requires ExponentProgression(s.recs, |s.missing|, first, 1)
    ensures Nonsingular(s.Matrix())
  {
    OneIsUsable();
    ProgressionRecoverable(s, first, 1);
  }

  // ----- two missing slices: the exact condition

  lemma DeterminantAnnihilates(a: Elem, b: Elem, c: Elem, d: Elem)
    requires a != 0 && Mul(a, d) == Mul(b, c)
    ensures Add(Mul(a, b), Mul(b, a)) == 0 && Add(Mul(c, b), Mul(d, a)) == 0
  {
    hide Add, Mul;
    MulComm(a, b);
    AddSelf(Mul(a, b));
    MulComm(a, d);
    MulComm(b, c);
    AddSelf(Mul(c, b));
  }

  lemma DeterminantForcesZero(a: Elem, b: Elem, c: Elem, d: Elem, x: Elem, y: Elem)
    requires Mul(a, d) != Mul(b, c)
    requires Add(Mul(a, x), Mul(b, y)) == 0 && Add(Mul(c, x), Mul(d, y)) == 0
    ensures x == 0
  {
    hide Add, Mul;
    AddZeroIsEqual(Mul(a, x), Mul(b, y));
    AddZeroIsEqual(Mul(c, x), Mul(d, y));
    MulComm(d, b);
    MulAssoc(d, a, x);
    MulAssoc(d, b, y);
    MulAssoc(b, d, y);
    MulAssoc(b, c, x);
    MulComm(d, a);
    var det := Add(Mul(a, d), Mul(b, c));
    MulAddLeft(Mul(a, d), Mul(b, c), x);
    AddZeroIsEqual(Mul(a, d), Mul(b, c));
    AddSelf(Mul(Mul(a, d), x));
    if x != 0 {
      MulNonzero(det, x);
    }
  }

  lemma TwoTermDot(u: Vector, v: Vector)
    requires |u| == |v| == 2
    ensures Dot(u, v, 2) == Add(Mul(u[0], v[0]), Mul(u[1], v[1]))
  {
    hide Add, Mul;
    assert Dot(u, v, 1) == Add(0, Mul(u[0], v[0]));
    AddUnit(Mul(u[0], v[0]));
  }

  lemma TwoByTwo(m: Matrix)
    requires |m| == 2 && Rectangular(m, 2) && m[0][0] != 0 && m[0][1] != 0
    ensures Nonsingular(m) <==> Mul(m[0][0], m[1][1]) != Mul(m[0][1], m[1][0])
  {
    hide Add, Mul, Dot;
    var (a, b, c, d) := (m[0][0], m[0][1], m[1][0], m[1][1]);
    if Mul(a, d) == Mul(b, c) {
      var x := [b, a];
      DeterminantAnnihilates(a, b, c, d);
      TwoTermDot(m[0], x);
      TwoTermDot(m[1], x);
      assert x[0] != 0;
      assert Annihilated(m, x);
    } else {
      forall x
        ensures !Annihilated(m, x)
      {
        if Annihilated(m, x) {
          TwoTermDot(m[0], x);
          TwoTermDot(m[1], x);
          DeterminantForcesZero(a, b, c, d, x[0], x[1]);
          AddComm(Mul(a, x[0]), Mul(b, x[1]));
          AddComm(Mul(c, x[0]), Mul(d, x[1]));
          MulComm(a, d);
          MulComm(b, c);
          DeterminantForcesZero(b, a, d, c, x[1], x[0]);
        }
      }
    }
  }

  /** The difference of two numbers, whichever is larger. */
  function Distance(a: nat, b: nat): nat { if a < b then b - a else a - b }

  lemma CrossPowers(l: nat, l': nat, e: nat, e': nat)
    ensures XPow(l * e + l' * e') == XPow(l' * e + l * e')
      <==> (Distance(l, l') * Distance(e, e')) % 65535 == 0
  {
    hide XPow;
    var p, q := l * e + l' * e', l' * e + l * e';
    var d := Distance(l, l') * Distance(e, e');
    CrossDifference(l, l', e, e');
    if p <= q {
      PowersEqual(p, d);
    } else {
      PowersEqual(q, d);
    }
  }

  lemma CrossDifference(l: nat, l': nat, e: nat, e': nat)
    ensures var p, q, d := l * e + l' * e', l' * e + l * e', Distance(l, l') * Distance(e, e');
      if p <= q then q == p + d else p == q + d
  {
    var p, q := l * e + l' * e', l' * e + l * e';
    assert p - q == (l - l') * (e - e');
    if l < l' {
      if e < e' { assert p - q == (l' - l) * (e' - e); NonnegativeProduct(l' - l, e' - e); }
      else { assert q - p == (l' - l) * (e - e'); NonnegativeProduct(l' - l, e - e'); }
    } else {
      if e < e' { assert q - p == (l - l') * (e' - e); NonnegativeProduct(l - l', e' - e); }
      else { NonnegativeProduct(l - l', e - e'); }
    }
  }

  lemma PowersEqual(p: nat, d: nat)
    ensures XPow(p) == XPow(p + d) <==> d % 65535 == 0
  {
    hide XPow;
    if XPow(p) == XPow(p + d) {
      XPowCancel(p, d);
      OrderOfX(d);
    }
    if d % 65535 == 0 {
      XPowMod(p);
      XPowMod(p + d);
      assert (p + d) % 65535 == p % 65535;
    }
  }

  /**
   * Two distinct slices are recoverable from two recovery slices exactly when the product of the distance of their
   * base exponents and the distance of the recovery exponents is not a multiple of 65535.
   */
  lemma TwoMissingExactly(s: System)
    requires s.Valid() && StandardBases(s.bases) && |s.missing| == 2
    ensures Nonsingular(s.Matrix()) <==>
      (Distance(BaseLog(s.missing[0]), BaseLog(s.missing[1]))
       * Distance(FieldExponent(s.recs[0]), FieldExponent(s.recs[1]))) % 65535 != 0
  {
    hide XPow, BaseLog, Nonsingular, CoefficientMatrix, Distance, Product;
    var (e, e') := (FieldExponent(s.recs[0]), FieldExponent(s.recs[1]));
    var (l, l') := (BaseLog(s.missing[0]), BaseLog(s.missing[1]));
    EntryIsXPow(s, 0, 0);
    EntryIsXPow(s, 0, 1);
    EntryIsXPow(s, 1, 0);
    EntryIsXPow(s, 1, 1);
    CrossProducts(l, l', e, e');
    PowersOfX(s.Matrix(), Product(l, e), Product(l', e), Product(l, e'), Product(l', e'));
  }

  function Product(a: nat, b: nat): nat { a * b }

  lemma CrossProducts(l: nat, l': nat, e: nat, e': nat)
    ensures XPow(Product(l, e) + Product(l', e')) == XPow(Product(l', e) + Product(l, e'))
      <==> (Distance(l, l') * Distance(e, e')) % 65535 == 0
  {
    hide XPow, Distance;
    CrossPowers(l, l', e, e');
  }

  /** A two by two matrix of powers of x is singular exactly when both diagonals multiply to the same power. */
  lemma PowersOfX(m: Matrix, a: nat, b: nat, c: nat, d: nat)
    requires |m| == 2 && Rectangular(m, 2)
    requires m[0][0] == XPow(a) && m[0][1] == XPow(b) && m[1][0] == XPow(c) && m[1][1] == XPow(d)
    ensures Nonsingular(m) <==> XPow(a + d) != XPow(b + c)
  {
    hide XPow, Nonsingular, Mul;
    XPowNonzero(a);
    XPowNonzero(b);
    XPowAdd(a, d);
    XPowAdd(b, c);
    TwoByTwo(m);
  }

  /** Entries of the matrix as powers of x. */
  lemma EntryIsXPow(s: System, e: nat, c: nat)
    requires s.Valid() && StandardBases(s.bases) && e < |s.missing| && c < |s.missing|
    ensures s.Matrix()[e][c] == XPow(Product(BaseLog(s.missing[c]), FieldExponent(s.recs[e])))
  {
    hide Pow, XPow, BaseLog, Mul;
    XPowNonzero(BaseLog(s.missing[c]));
    PowOfBase(s.missing[c], FieldExponent(s.recs[e]));
  }

  lemma FirstBaseLogs()
    ensures BaseLog(0) == 1 && BaseLog(2) == 4
  {
    assert NextUsable(0) == NextUsable(1) == 1;
    assert BaseLog(1) == NextUsable(2) == 2;
    assert NextUsable(3) == NextUsable(4) == 4;
  }

  /**
   * Enough recovery slices are not always enough: slices 0 and 2 cannot be told apart by the recovery slices with
   * exponents 0 and 21845.
   */
  lemma EnoughCanFail(s: System)
    requires s.Valid() && StandardBases(s.bases) && s.missing == [0, 2]
    requires FieldExponent(s.recs[0]) == 0 && FieldExponent(s.recs[1]) == 21845
    ensures |s.missing| <= |s.recs| && !Nonsingular(s.Matrix())
  {
    hide Nonsingular, BaseLog, NextUsable, Usable, Base, XPow, CoefficientMatrix;
    FirstBaseLogs();
    TwoMissingExactly(s);
  }

  /** With more than 32768 slices, slices 0 and 32769 can never be told apart, whatever recovery slices there are. */
  lemma TooManySlices(s: System, a: nat, b: nat)
    requires s.Valid() && |s.bases| > 32769 && forall g :: 0 <= g < |s.bases| ==> s.bases[g] == CutBase(g)
    requires a < |s.missing| && b < |s.missing| && s.missing[a] == 0 && s.missing[b] == 32769
    ensures !Nonsingular(s.Matrix())
  {
    hide Nonsingular, CutBase, Base, CoefficientMatrix;
    BasesRepeat();
    if a < b {
      MissingDistinct(s, a, b);
    } else {
      MissingDistinct(s, b, a);
    }
  }

  // ----- the whole way round

  /** `missing` and `keys` together list every slice index once. */
  ghost predicate Partition(missing: seq<nat>, keys: seq<nat>, total: nat) {
    && (forall i :: 0 <= i < |missing| ==> missing[i] < total)
    && (forall i :: 0 <= i < |keys| ==> keys[i] < total)
    && (forall g: nat :: g < total ==> g in missing + keys)
    && (forall i, j :: 0 <= i < j < |missing + keys| ==> (missing + keys)[i] != (missing + keys)[j])
  }

  lemma PartitionParts(missing: seq<nat>, keys: seq<nat>, total: nat)
    requires Partition(missing, keys, total)
    ensures forall i, j :: 0 <= i < j < |missing| ==> missing[i] != missing[j]
    ensures forall i, j :: 0 <= i < j < |keys| ==> keys[i] != keys[j]
  {
    var q := missing + keys;
    forall i, j | 0 <= i < j < |missing|
      ensures missing[i] != missing[j]
    {
      assert q[i] != q[j];
    }
    forall i, j | 0 <= i < j < |keys|
      ensures keys[i] != keys[j]
    {
      assert q[|missing| + i] != q[|missing| + j];
    }
  }

  /** Encodes one recovery slice per missing slice, with consecutive exponents. */
  method EncodeConsecutive(t: Tables, bases: Vector, original: seq<Bytes>, size: nat, first: nat, n: nat)
    returns (recs: seq<Recovery>)
    requires t.Valid() && |original| == |bases| && first + n <= COUNT
    requires forall g :: 0 <= g < |original| ==> |original[g]| == size
    ensures |recs| == n
    ensures forall e :: 0 <= e < n ==> recs[e] == Recovery(first + e, RecoveryBlock(bases, first + e, original, size))
  {
    hide RecoveryBlock;
    recs := [];
    for e := 0 to n
      invariant |recs| == e
      invariant forall i :: 0 <= i < e ==>
        recs[i] == Recovery(first + i, RecoveryBlock(bases, first + i, original, size))
    {
      var encoded := EncodeRecoveryBlock(t, bases, size, first + e, original);
      recs := recs + [Recovery(first + e, encoded.data)];
    }
  }

  /** The first `n` recovery slices are those of `original` for their exponents. */
  ghost predicate EncodedFrom(e: Engine, original: seq<Bytes>, n: nat) {
    && e.tables.Valid() && |original| == |e.bases| && n <= |e.recs|
    && (forall g :: 0 <= g < |original| ==> |original[g]| == e.sliceSize)
    && (forall i :: 0 <= i < n ==>
      e.recs[i].data == RecoveryBlock(e.bases, FieldExponent(e.recs[i]), original, e.sliceSize))
  }

  /** The exponents of the first `n` recovery slices count up from `first`. */
  ghost predicate Consecutive(recs: seq<Recovery>, n: nat, first: nat) {
    && n <= |recs| && first + n <= COUNT
    && (forall i :: 0 <= i < n ==> recs[i].exponent == first + i)
  }

  function Survivors(original: seq<Bytes>, keys: seq<nat>): (all: map<nat, Bytes>)
    requires forall i :: 0 <= i < |keys| ==> keys[i] < |original|
    ensures forall g :: g in all <==> g in keys
    ensures forall g :: g in keys ==> all[g] == original[g]
  {
    map g | g in keys :: original[g]
  }

  lemma EncodedReady(e: Engine, original: seq<Bytes>, missing: seq<nat>, keys: seq<nat>)
    requires EncodedFrom(e, original, |missing|) && Partition(missing, keys, |original|)
    ensures Ready(e, missing) && NoHalfWords(e, Survivors(original, keys))
    ensures KeyOrder(keys, Survivors(original, keys))
    ensures SystemOf(e, Survivors(original, keys), missing, keys).Valid()
  {
    hide RecoveryBlock;
    PartitionParts(missing, keys, |original|);
    SystemValid(e, Survivors(original, keys), missing, keys);
  }

  lemma FullIsFitted(s: Bytes, size: nat)
    requires |s| == size
    ensures Fitted(s, size) == s
  {}

  lemma EncodedSystem(e: Engine, original: seq<Bytes>, missing: seq<nat>, keys: seq<nat>)
    requires EncodedFrom(e, original, |missing|) && Partition(missing, keys, |original|)
    ensures var s := SystemOf(e, Survivors(original, keys), missing, keys); ComesFrom(s, original)
  {
    hide RecoveryBlock, Fitted, CoefficientMatrix;
    EncodedReady(e, original, missing, keys);
    var s := SystemOf(e, Survivors(original, keys), missing, keys);
    forall i | 0 <= i < |keys| && keys[i] < |original|
      ensures s.present[i] == original[keys[i]]
    {
      FullIsFitted(original[keys[i]], e.sliceSize);
    }
  }

  lemma ConsecutiveExponents(recs: seq<Recovery>, n: nat, first: nat)
    requires Consecutive(recs, n, first)
    ensures ExponentProgression(recs, n, first, 1)
  {
    forall d: nat | d < n
      ensures HasExponent(recs, n, Term(first, 1, d))
    {
      assert FieldExponent(recs[d]) == Term(first, 1, d);
    }
  }

  lemma EncodedNonsingular(e: Engine, original: seq<Bytes>, first: nat, missing: seq<nat>, keys: seq<nat>)
    requires EncodedFrom(e, original, |missing|) && Partition(missing, keys, |original|)
    requires Consecutive(e.recs, |missing|, first) && StandardBases(e.bases)
    ensures var s := SystemOf(e, Survivors(original, keys), missing, keys); s.Valid() && Nonsingular(s.Matrix())
  {
    hide RecoveryBlock, Nonsingular;
    EncodedReady(e, original, missing, keys);
    var s := SystemOf(e, Survivors(original, keys), missing, keys);
    PartitionParts(missing, keys, |original|);
    ConsecutiveExponents(s.recs, |missing|, first);
    ConsecutiveRecoverable(s, first);
  }

  /** Encode, lose the missing slices, reconstruct: it always succeeds and returns the lost bytes. */
  method EncodeLoseReconstruct(original: seq<Bytes>, size: nat, first: nat, missing: seq<nat>, keys: seq<nat>)
    returns (r: Outcome)
    requires |original| <= 32768 && size % 2 == 0 && first + |missing| <= COUNT
    requires forall g :: 0 <= g < |original| ==> |original[g]| == size
    requires Partition(missing, keys, |original|)
    ensures r.Success? && r.slices.Keys == set c | 0 <= c < |missing| :: missing[c]
    ensures forall c :: 0 <= c < |missing| ==> r.slices[missing[c]] == original[missing[c]]
  {
    hide RecoveryBlock, Nonsingular, CoefficientMatrix, PresentRow, Base, Ready, KeyOrder, ComesFrom;
    var t := BuildTables();
    var bases := GenerateBases(t, |original|);
    var recs := EncodeConsecutive(t, bases, original, size, first, |missing|);
    var e := Engine(t, size, recs, bases);
    var all := Survivors(original, keys);
    EncodedReady(e, original, missing, keys);
    EncodedNonsingular(e, original, first, missing, keys);
    r := ReconstructGlobal(e, all, missing, keys);
    if missing != [] {
      EncodedSystem(e, original, missing, keys);
      ErasureRoundTrip(SystemOf(e, all, missing, keys), original, Collected(r.slices, missing));
      forall c | 0 <= c < |missing|
        ensures r.slices[missing[c]] == original[missing[c]]
      {
        assert Collected(r.slices, missing)[c] == Gather(original, missing)[c];
      }
    }
  }
}
