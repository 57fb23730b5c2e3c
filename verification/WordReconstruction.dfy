/** The word-by-word route: one linear system per word position, with file-local slice indices. */
module WordReconstruction {
  import opened Gf16
  import opened LinearAlgebra
  import opened GaussJordan
  import opened SliceKernel
  import opened Slices
  import opened Encoder
  import opened RecoveryEquations
  import opened Reconstruction

  /** The word at a position, zero beyond the end of the data. */
  function WordOrZero(s: Bytes, k: nat): Elem {
    if 2 * k + 1 < |s| then WordAt(s, k) else 0
  }

  /** The slice those words make up. */
  function Padded(s: Bytes, size: nat): (r: Bytes)
    ensures |r| == size
  {
    seq(size, i requires 0 <= i < size => if 2 * (i / 2) + 1 < |s| then s[i] else 0)
  }

  lemma WordOfPadded(s: Bytes, size: nat, k: nat)
    requires 2 * k + 1 < size
    ensures WordAt(Padded(s, size), k) == WordOrZero(s, k)
  {
    if 2 * k + 1 < |s| {
      hide Word;
      assert (2 * k) / 2 == k && (2 * k + 1) / 2 == k;
    } else {
      assert (2 * k) / 2 == k && (2 * k + 1) / 2 == k;
      assert Word(0, 0) == 0;
    }
  }

  /** Slices of full even length are their own padding. */
  lemma PaddedWhole(s: Bytes, size: nat)
    requires |s| == size && size % 2 == 0
    ensures Padded(s, size) == s
  {}

  /** The global index of a local one; `total`, which is no slice, for indices the source skips. */
  function GlobalOf(toGlobal: map<nat, nat>, local: nat, total: nat): nat {
    if local in toGlobal && toGlobal[local] < total then toGlobal[local] else total
  }

  function GlobalsOf(toGlobal: map<nat, nat>, locals: seq<nat>, total: nat): (r: seq<nat>)
    ensures |r| == |locals| && forall i :: 0 <= i < |locals| ==> r[i] == GlobalOf(toGlobal, locals[i], total)
  {
    seq(|locals|, i requires 0 <= i < |locals| => GlobalOf(toGlobal, locals[i], total))
  }

  function PaddedRecoveries(recs: seq<Recovery>, size: nat): (r: seq<Recovery>)
    ensures |r| == |recs|
    ensures forall i :: 0 <= i < |recs| ==> r[i] == Recovery(recs[i].exponent, Padded(recs[i].data, size))
  {
    seq(|recs|, i requires 0 <= i < |recs| => Recovery(recs[i].exponent, Padded(recs[i].data, size)))
  }

  function PaddedPresent(existing: map<nat, Bytes>, keys: seq<nat>, size: nat): (r: seq<Bytes>)
    requires forall i :: 0 <= i < |keys| ==> keys[i] in existing
    ensures |r| == |keys| && forall i :: 0 <= i < |keys| ==> r[i] == Padded(existing[keys[i]], size)
  {
    seq(|keys|, i requires 0 <= i < |keys| => Padded(existing[keys[i]], size))
  }

  /** The system all word positions belong to. */
  function WordSystem(e: Engine, existing: map<nat, Bytes>, missing: seq<nat>, toGlobal: map<nat, nat>,
                      keys: seq<nat>): System
    requires forall i :: 0 <= i < |keys| ==> keys[i] in existing
  {
    System(e.bases, PaddedRecoveries(e.recs, e.sliceSize), GlobalsOf(toGlobal, missing, |e.bases|),
           GlobalsOf(toGlobal, keys, |e.bases|), PaddedPresent(existing, keys, e.sliceSize), e.sliceSize)
  }

  /** Every missing index that has a global index has one in range; the source indexes its base value. */
  ghost predicate WordReady(e: Engine, existing: map<nat, Bytes>, missing: seq<nat>, toGlobal: map<nat, nat>,
                            keys: seq<nat>) {
    && e.tables.Valid()
    && KeyOrder(keys, existing)
    && (forall c :: 0 <= c < |missing| && missing[c] in toGlobal ==> toGlobal[missing[c]] < |e.bases|)
  }

  ghost predicate AllMapped(missing: seq<nat>, toGlobal: map<nat, nat>) {
    forall c :: 0 <= c < |missing| ==> missing[c] in toGlobal
  }

  lemma WordSystemValid(e: Engine, existing: map<nat, Bytes>, missing: seq<nat>, toGlobal: map<nat, nat>,
                        keys: seq<nat>)
    requires WordReady(e, existing, missing, toGlobal, keys) && AllMapped(missing, toGlobal) && |missing| <= |e.recs|
    ensures WordSystem(e, existing, missing, toGlobal, keys).Valid()
  {}

  /** The coefficient of missing slice `c`; an index without a global index leaves zero in the matrix. */
  function MissingCoefficient(e: Engine, toGlobal: map<nat, nat>, local: nat, exponent: nat): Elem
    requires local in toGlobal ==> toGlobal[local] < |e.bases|
  {
    if local in toGlobal then Coefficient(e.bases[toGlobal[local]], exponent) else 0
  }

  method WordMatrix(e: Engine, missing: seq<nat>, toGlobal: map<nat, nat>) returns (m: Matrix)
    requires e.tables.Valid() && |missing| <= |e.recs|
    requires forall c :: 0 <= c < |missing| && missing[c] in toGlobal ==> toGlobal[missing[c]] < |e.bases|
    ensures |m| == |missing| && Rectangular(m, |missing|)
    ensures forall eq, c :: 0 <= eq < |missing| && 0 <= c < |missing| ==>
      m[eq][c] == MissingCoefficient(e, toGlobal, missing[c], FieldExponent(e.recs[eq]))
  {
    hide Pow;
    m := [];
    for eq := 0 to |missing|
      invariant |m| == eq && Rectangular(m, |missing|)
      invariant forall i, c :: 0 <= i < eq && 0 <= c < |missing| ==>
        m[i][c] == MissingCoefficient(e, toGlobal, missing[c], FieldExponent(e.recs[i]))
    {
      var exponent := FieldExponent(e.recs[eq]);
      var row: Vector := [];
      for col := 0 to |missing|
        invariant |row| == col
        invariant forall c :: 0 <= c < col ==> row[c] == MissingCoefficient(e, toGlobal, missing[c], exponent)
      {
        if missing[col] in toGlobal {
          row := row + [e.tables.Power(e.bases[toGlobal[missing[col]]], exponent)];
        } else {
          row := row + [0];
        }
      }
      m := m + [row];
    }
  }

  /** The right-hand side of one equation at one word position. */
  method WordRightSide(e: Engine, existing: map<nat, Bytes>, toGlobal: map<nat, nat>, keys: seq<nat>, eq: nat, k: nat)
    returns (value: Elem)
    requires e.tables.Valid() && eq < |e.recs| && 2 * k + 1 < e.sliceSize
    requires forall i :: 0 <= i < |keys| ==> keys[i] in existing
    ensures value == Add(WordAt(Padded(e.recs[eq].data, e.sliceSize), k),
      Dot(PresentRow(e.bases, GlobalsOf(toGlobal, keys, |e.bases|), FieldExponent(e.recs[eq])),
          WordColumn(PaddedPresent(existing, keys, e.sliceSize), k), |keys|))
  {
    hide Add, Mul, Pow, WordAt, Padded;
    var exponent := FieldExponent(e.recs[eq]);
    ghost var row := PresentRow(e.bases, GlobalsOf(toGlobal, keys, |e.bases|), exponent);
    ghost var words := WordColumn(PaddedPresent(existing, keys, e.sliceSize), k);
    ghost var start := WordAt(Padded(e.recs[eq].data, e.sliceSize), k);
    WordOfPadded(e.recs[eq].data, e.sliceSize, k);
    value := WordOrZero(e.recs[eq].data, k);
    AddUnit(start);
    for i := 0 to |keys|
      invariant value == Add(start, Dot(row, words, i))
    {
      var inputWord := WordOrZero(existing[keys[i]], k);
      WordOfPadded(existing[keys[i]], e.sliceSize, k);
      AddAssoc(start, Dot(row, words, i), Mul(row[i], words[i]));
      if keys[i] in toGlobal && toGlobal[keys[i]] < |e.bases| {
        var coefficient := e.tables.Power(e.bases[toGlobal[keys[i]]], exponent);
        value := Add(value, e.tables.Times(coefficient, inputWord));
      } else {
        MulZeroLeft(words[i]);
        AddUnit(Dot(row, words, i));
      }
    }
  }

  lemma UnmappedColumnSingular(m: Matrix, c: nat)
    requires Rectangular(m, |m|) && c < |m| && forall eq :: 0 <= eq < |m| ==> m[eq][c] == 0
    ensures !Nonsingular(m)
  {
    hide Dot;
    var x := Unit(|m|, c);
    forall eq | 0 <= eq < |m|
      ensures Dot(m[eq], x, |m|) == 0
    {
      DotComm(m[eq], x, |m|);
      DotUnitLeft(x, m[eq], |m|, c);
    }
    assert x[c] != 0;
    assert Annihilated(m, x);
  }

  /** Stores the solved word of every missing slice. */
  method StoreWords(out: seq<Bytes>, solution: Vector, k: nat, size: nat) returns (r: seq<Bytes>)
    requires |out| == |solution| && 2 * k + 1 < size && forall c :: 0 <= c < |out| ==> |out[c]| == size
    ensures |r| == |out| && forall c :: 0 <= c < |r| ==> |r[c]| == size && WordAt(r[c], k) == solution[c]
    ensures forall c, j: nat :: 0 <= c < |r| && j != k && 2 * j + 1 < size ==> WordAt(r[c], j) == WordAt(out[c], j)
    ensures size % 2 == 1 ==> forall c :: 0 <= c < |r| ==> r[c][size - 1] == out[c][size - 1]
  {
    hide Word, Low, High;
    r := out;
    for c := 0 to |out|
      invariant |r| == |out| && forall i :: 0 <= i < |r| ==> |r[i]| == size
      invariant forall i :: 0 <= i < c ==> WordAt(r[i], k) == solution[i]
      invariant forall i, j: nat :: 0 <= i < |r| && j != k && 2 * j + 1 < size ==> WordAt(r[i], j) == WordAt(out[i], j)
      invariant size % 2 == 1 ==> forall i :: 0 <= i < |r| ==> r[i][size - 1] == out[i][size - 1]
      invariant forall i :: c <= i < |r| ==> r[i] == out[i]
    {
      WordRoundTrip(solution[c]);
      r := r[c := r[c][2 * k := Low(solution[c])][2 * k + 1 := High(solution[c])]];
    }
  }

  /** The slices of the result, under their local indices. */
  method CollectSlices(out: seq<Bytes>, missing: seq<nat>) returns (slices: map<nat, Bytes>)
    requires |out| == |missing| && forall i, j :: 0 <= i < j < |missing| ==> missing[i] != missing[j]
    ensures slices.Keys == set c | 0 <= c < |missing| :: missing[c]
    ensures Collected(slices, missing) == out
  {
    slices := map[];
    for c := 0 to |missing|
      invariant slices.Keys == set i | 0 <= i < c :: missing[i]
      invariant forall i :: 0 <= i < c ==> slices[missing[i]] == out[i]
    {
      slices := slices[missing[c] := out[c]];
    }
    assert Collected(slices, missing) == out;
  }

  /** The matrix the source builds is that of the system once every missing index is mapped. */
  lemma WordMatrixIsSystem(e: Engine, existing: map<nat, Bytes>, missing: seq<nat>, toGlobal: map<nat, nat>,
                           keys: seq<nat>, m: Matrix)
    requires WordReady(e, existing, missing, toGlobal, keys) && |missing| <= |e.recs|
    requires |m| == |missing| && Rectangular(m, |missing|)
    requires forall eq, c :: 0 <= eq < |missing| && 0 <= c < |missing| ==>
      m[eq][c] == MissingCoefficient(e, toGlobal, missing[c], FieldExponent(e.recs[eq]))
    ensures AllMapped(missing, toGlobal) ==>
      WordSystem(e, existing, missing, toGlobal, keys).Valid()
        && m == WordSystem(e, existing, missing, toGlobal, keys).Matrix()
    ensures !AllMapped(missing, toGlobal) ==> !Nonsingular(m)
  {
    hide Pow, Nonsingular, Padded;
    if AllMapped(missing, toGlobal) {
      WordSystemValid(e, existing, missing, toGlobal, keys);
      var target := WordSystem(e, existing, missing, toGlobal, keys).Matrix();
      forall eq | 0 <= eq < |m|
        ensures m[eq] == target[eq]
      {
        forall c | 0 <= c < |missing|
          ensures m[eq][c] == target[eq][c]
        {
          assert target[eq][c] == Coefficient(e.bases[toGlobal[missing[c]]], FieldExponent(e.recs[eq]));
        }
      }
    } else {
      var c :| 0 <= c < |missing| && missing[c] !in toGlobal;
      UnmappedColumnSingular(m, c);
    }
  }

  /** Solves for the missing words at one position. */
  method SolveWord(e: Engine, existing: map<nat, Bytes>, missing: seq<nat>, toGlobal: map<nat, nat>, keys: seq<nat>,
                   k: nat)
    returns (r: Result<Vector>)
    requires WordReady(e, existing, missing, toGlobal, keys) && 0 < |missing| <= |e.recs| && 2 * k + 1 < e.sliceSize
    ensures r.Ok? ==> AllMapped(missing, toGlobal) && WordSystem(e, existing, missing, toGlobal, keys).Valid()
    ensures AllMapped(missing, toGlobal) ==> WordSystem(e, existing, missing, toGlobal, keys).Valid()
    ensures AllMapped(missing, toGlobal) ==>
      (r.Ok? <==> Nonsingular(WordSystem(e, existing, missing, toGlobal, keys).Matrix()))
    ensures r.Ok? ==> |r.value| == |missing|
    ensures r.Ok? ==>
      Solves(WordSystem(e, existing, missing, toGlobal, keys).Matrix(), r.value,
             WordSystem(e, existing, missing, toGlobal, keys).RightSide(k))
  {
    hide Pow, Nonsingular, Padded, Dot, Add, WordAt, MissingCoefficient, Solves;
    var m := WordMatrix(e, missing, toGlobal);
    WordMatrixIsSystem(e, existing, missing, toGlobal, keys, m);
    ghost var s := WordSystem(e, existing, missing, toGlobal, keys);
    var rhs: Vector := [];
    for eq := 0 to |missing|
      invariant |rhs| == eq
      invariant AllMapped(missing, toGlobal) ==> forall i :: 0 <= i < eq ==> rhs[i] == s.RightSide(k)[i]
    {
      var value := WordRightSide(e, existing, toGlobal, keys, eq, k);
      rhs := rhs + [value];
    }
    r := SolveGfSystem(e.tables, m, rhs);
    if AllMapped(missing, toGlobal) {
      assert rhs == s.RightSide(k);
    }
  }

  /** The words solved so far, and the output that holds them. */
  ghost predicate SolvedUpTo(s: System, out: seq<Bytes>, k: nat)
    requires s.Valid()
  {
    && |out| == |s.missing|
    && (forall c :: 0 <= c < |out| ==> |out[c]| == s.size)
    && (forall j: nat :: j < k && 2 * j + 1 < s.size ==> Solves(s.Matrix(), WordColumn(out, j), s.RightSide(j)))
  }

  lemma SolvedStep(s: System, out: seq<Bytes>, out': seq<Bytes>, solution: Vector, k: nat)
    requires s.Valid() && SolvedUpTo(s, out, k) && 2 * k + 1 < s.size && |solution| == |s.missing|
    requires Solves(s.Matrix(), solution, s.RightSide(k))
    requires |out'| == |out| && forall c :: 0 <= c < |out'| ==> |out'[c]| == s.size && WordAt(out'[c], k) == solution[c]
    requires forall c, j: nat :: 0 <= c < |out'| && j != k && 2 * j + 1 < s.size ==>
      WordAt(out'[c], j) == WordAt(out[c], j)
    ensures SolvedUpTo(s, out', k + 1)
  {
    hide WordAt, Solves, CoefficientMatrix;
    forall j: nat | j < k + 1 && 2 * j + 1 < s.size
      ensures Solves(s.Matrix(), WordColumn(out', j), s.RightSide(j))
    {
      if j == k {
        assert WordColumn(out', j) == solution;
      } else {
        assert WordColumn(out', j) == WordColumn(out, j);
      }
    }
  }

  /** The word-by-word route. Slices shorter than a word have no equations and are left out of the result. */
  method ReconstructByWords(e: Engine, existing: map<nat, Bytes>, missing: seq<nat>, toGlobal: map<nat, nat>,
                            keys: seq<nat>)
    returns (r: Outcome)
    requires WordReady(e, existing, missing, toGlobal, keys)
    ensures missing == [] || (e.sliceSize < 2 && |missing| <= |e.recs|) ==> r == Success(map[])
    ensures r == NotEnoughRecovery <==> |missing| > |e.recs|
    ensures AllMapped(missing, toGlobal) && |missing| <= |e.recs| ==>
      WordSystem(e, existing, missing, toGlobal, keys).Valid()
    ensures 0 < |missing| <= |e.recs| && 2 <= e.sliceSize ==>
      (r.Success? <==>
       AllMapped(missing, toGlobal) && Nonsingular(WordSystem(e, existing, missing, toGlobal, keys).Matrix()))
    ensures r.Success? && 2 <= e.sliceSize ==> r.slices.Keys == set c | 0 <= c < |missing| :: missing[c]
    ensures r.Success? && 0 < |missing| && 2 <= e.sliceSize ==>
      WordSystem(e, existing, missing, toGlobal, keys).Satisfied(Collected(r.slices, missing))
    ensures r.Success? && 2 <= e.sliceSize && e.sliceSize % 2 == 1 ==>
      forall g :: g in r.slices ==> |r.slices[g]| == e.sliceSize && r.slices[g][e.sliceSize - 1] == 0
    ensures !r.NoCoefficients?
  {
    hide Nonsingular, Solves, WordAt, Padded, CoefficientMatrix;
    var n := |missing|;
    if AllMapped(missing, toGlobal) && n <= |e.recs| {
      WordSystemValid(e, existing, missing, toGlobal, keys);
    }
    if n == 0 {
      return Success(map[]);
    }
    if |e.recs| < n {
      return NotEnoughRecovery;
    }
    var count := e.sliceSize / 2;
    if count == 0 {
      return Success(map[]);
    }
    ghost var s := WordSystem(e, existing, missing, toGlobal, keys);
    var out := seq(n, _ => Zeros(e.sliceSize));
    for k := 0 to count
      invariant |out| == n && forall c :: 0 <= c < n ==> |out[c]| == e.sliceSize
      invariant e.sliceSize % 2 == 1 ==> forall c :: 0 <= c < n ==> out[c][e.sliceSize - 1] == 0
      invariant k > 0 ==> AllMapped(missing, toGlobal) && Nonsingular(s.Matrix())
      invariant AllMapped(missing, toGlobal) ==> SolvedUpTo(s, out, k)
    {
      var solved := SolveWord(e, existing, missing, toGlobal, keys, k);
      if solved.Err? {
        return MatrixFailure(solved.error);
      }
      ghost var before := out;
      out := StoreWords(out, solved.value, k, e.sliceSize);
      SolvedStep(s, before, out, solved.value, k);
    }
    forall i, j | 0 <= i < j < n
      ensures missing[i] != missing[j]
    {
      DistinctMissing(s, i, j);
    }
    var slices := CollectSlices(out, missing);
    assert forall c :: 0 <= c < n ==> slices[missing[c]] == Collected(slices, missing)[c];
    assert s.Satisfied(out);
    r := Success(slices);
  }
}
