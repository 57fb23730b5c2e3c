/** Reconstructing missing slices with one inverted matrix, whole slices at a time. */
module Reconstruction {
  import opened Gf16
  import opened GaloisTable
  import opened LinearAlgebra
  import opened GaussJordan
  import opened SliceKernel
  import opened Slices
  import opened Encoder
  import opened RecoveryEquations
  import opened Contributions

  datatype Engine = Engine(tables: Tables, sliceSize: nat, recs: seq<Recovery>, bases: Vector)

  datatype Outcome =
    | Success(slices: map<nat, Bytes>)
    | NotEnoughRecovery
    | MatrixFailure(error: MatrixError)
    | NoCoefficients(slice: nat)

  /** The slices as they are supplied; entries outside the recovery set are never read. */
  function Supplied(all: map<nat, Bytes>, keys: seq<nat>, total: nat, size: nat): (r: seq<Bytes>)
    requires forall i :: 0 <= i < |keys| ==> keys[i] in all
    ensures |r| == |keys|
    ensures forall i :: 0 <= i < |keys| ==> r[i] == if keys[i] < total then all[keys[i]] else Zeros(size)
  {
    seq(|keys|, i requires 0 <= i < |keys| => if keys[i] < total then all[keys[i]] else Zeros(size))
  }

  /** The slices the equations see: short ones are followed by zeros, and entries outside the recovery set are zero. */
  function PresentSlices(all: map<nat, Bytes>, keys: seq<nat>, total: nat, size: nat): (r: seq<Bytes>)
    requires forall i :: 0 <= i < |keys| ==> keys[i] in all
    ensures |r| == |keys| && forall i :: 0 <= i < |keys| ==> |r[i]| == size
    ensures forall i :: 0 <= i < |keys| ==> r[i] == if keys[i] < total then Fitted(all[keys[i]], size) else Zeros(size)
  {
    seq(|keys|, i requires 0 <= i < |keys| => if keys[i] < total then Fitted(all[keys[i]], size) else Zeros(size))
  }

  lemma SuppliedFitted(all: map<nat, Bytes>, keys: seq<nat>, total: nat, size: nat)
    requires forall i :: 0 <= i < |keys| ==> keys[i] in all
    ensures AllFitted(Supplied(all, keys, total, size), size) == PresentSlices(all, keys, total, size)
  {
    assert Fitted(Zeros(size), size) == Zeros(size);
    assert forall i :: 0 <= i < |keys| ==>
      AllFitted(Supplied(all, keys, total, size), size)[i] == PresentSlices(all, keys, total, size)[i];
  }

  /** `keys` lists the keys of the map once each, in some iteration order. */
  ghost predicate KeyOrder(keys: seq<nat>, all: map<nat, Bytes>) {
    && (forall i :: 0 <= i < |keys| ==> keys[i] in all)
    && (forall g :: g in all ==> g in keys)
    && (forall i, j :: 0 <= i < j < |keys| ==> keys[i] != keys[j])
  }

  /** What the source needs in order not to index out of bounds or leave output bytes unwritten. */
  ghost predicate Ready(e: Engine, missing: seq<nat>) {
    && e.tables.Valid()
    && (forall c :: 0 <= c < |missing| ==> missing[c] < |e.bases|)
    && (forall i :: 0 <= i < |e.recs| && i < |missing| ==> e.sliceSize <= |e.recs[i].data|)
  }

  /** No slice in the recovery set ends within a word before the slice size. */
  ghost predicate NoHalfWords(e: Engine, all: map<nat, Bytes>) {
    forall g :: g in all && g < |e.bases| ==> WholeWords(all[g], e.sliceSize)
  }

  function SystemOf(e: Engine, all: map<nat, Bytes>, missing: seq<nat>, keys: seq<nat>): System
    requires forall i :: 0 <= i < |keys| ==> keys[i] in all
  {
    System(e.bases, e.recs, missing, keys, PresentSlices(all, keys, |e.bases|, e.sliceSize), e.sliceSize)
  }

  lemma SystemValid(e: Engine, all: map<nat, Bytes>, missing: seq<nat>, keys: seq<nat>)
    requires Ready(e, missing) && KeyOrder(keys, all) && |missing| <= |e.recs|
    ensures SystemOf(e, all, missing, keys).Valid()
  {}

  /** The outputs in the order of the missing indices. */
  function Collected(slices: map<nat, Bytes>, missing: seq<nat>): (r: seq<Bytes>)
    requires forall c :: 0 <= c < |missing| ==> missing[c] in slices
    ensures |r| == |missing| && forall c :: 0 <= c < |missing| ==> r[c] == slices[missing[c]]
  {
    seq(|missing|, c requires 0 <= c < |missing| => slices[missing[c]])
  }

  // ----- why the combined coefficients solve the system

  lemma WordOfRowSum(size: nat, recoveryRow: Vector, recovery: seq<Bytes>, presentRow: Vector, present: seq<Bytes>,
                     k: nat)
    requires |recoveryRow| == |recovery| && |presentRow| == |present|
    requires forall i :: 0 <= i < |recovery| ==> size <= |recovery[i]|
    requires forall i :: 0 <= i < |present| ==> size <= |present[i]|
    requires 2 * k + 1 < size
    ensures WordAt(RowSum(size, recoveryRow, recovery, presentRow, present), k)
      == Add(Dot(recoveryRow, WordColumn(recovery, k), |recovery|), Dot(presentRow, WordColumn(present, k), |present|))
  {
    hide Add, Dot, WordAt, Combination, Zeros;
    var first := Combination(Zeros(size), recoveryRow, recovery, |recovery|);
    WordOfCombination(Zeros(size), recoveryRow, recovery, |recovery|, k);
    WordOfCombination(first, presentRow, present, |present|, k);
    WordOfZeros(size, k);
    AddUnit(Dot(recoveryRow, WordColumn(recovery, k), |recovery|));
  }

  /** Row `row` of the combined coefficients: the row of the inverse times the present coefficients. */
  ghost predicate CombinedRow(s: System, inverseRow: Vector, row: Vector)
    requires s.Valid() && |inverseRow| == |s.missing|
  {
    var n := |s.missing|;
    && |row| == |s.keys|
    && forall j :: 0 <= j < |row| ==>
      row[j] == Dot(inverseRow, Column(PresentMatrix(s.bases, s.recs, s.keys, n), j, n), n)
  }

  lemma InverseTimesRightSide(s: System, inverseRow: Vector, row: Vector, k: nat)
    requires s.Valid() && |inverseRow| == |s.missing| && CombinedRow(s, inverseRow, row) && 2 * k + 1 < s.size
    ensures Dot(inverseRow, s.RightSide(k), |s.missing|)
      == Add(Dot(inverseRow, WordColumn(RecoveryData(s.recs, |s.missing|), k), |s.missing|),
             Dot(row, WordColumn(s.present, k), |s.keys|))
  {
    hide Add, Mul, Dot, WordAt;
    var n := |s.missing|;
    var recWords := WordColumn(RecoveryData(s.recs, n), k);
    var m := PresentMatrix(s.bases, s.recs, s.keys, n);
    var sums := seq(n, e requires 0 <= e < n => s.PresentSum(e, k));
    DotComm(inverseRow, s.RightSide(k), n);
    DotAddLeft(recWords, sums, s.RightSide(k), inverseRow, n);
    DotComm(inverseRow, recWords, n);
    DotComm(inverseRow, sums, n);
    DotExchange(inverseRow, m, WordColumn(s.present, k), sums, row, n, |s.keys|);
  }

  /** `out` is the sum the row of the inverse and the combined coefficients ask for. */
  ghost predicate RowOutput(s: System, inverseRow: Vector, row: Vector, out: Bytes)
    requires s.Valid()
  {
    && |inverseRow| == |s.missing|
    && CombinedRow(s, inverseRow, row)
    && out == RowSum(s.size, inverseRow, RecoveryData(s.recs, |s.missing|), row, s.present)
  }

  lemma CombinedRowsSatisfy(s: System, inverse: Matrix, rows: Matrix, out: seq<Bytes>)
    requires s.Valid() && |inverse| == |rows| == |out| == |s.missing| && Rectangular(inverse, |s.missing|)
    requires Inverts(s.Matrix(), inverse, |s.missing|)
    requires forall o :: 0 <= o < |out| ==> RowOutput(s, inverse[o], rows[o], out[o])
    ensures s.Satisfied(out)
  {
    hide Add, Mul, Dot, WordAt, Combination, RowSum, CoefficientMatrix;
    var n := |s.missing|;
    forall k: nat | 2 * k + 1 < s.size
      ensures Solves(s.Matrix(), WordColumn(out, k), s.RightSide(k))
    {
      forall o | 0 <= o < n
        ensures Dot(inverse[o], s.RightSide(k), n) == WordColumn(out, k)[o]
      {
        InverseTimesRightSide(s, inverse[o], rows[o], k);
        WordOfRowSum(s.size, inverse[o], RecoveryData(s.recs, n), rows[o], s.present, k);
      }
      assert Solves(inverse, s.RightSide(k), WordColumn(out, k));
    }
  }

  /** No row of an inverse is zero, so every output gets a term. */
  lemma InverseRowNonzero(m: Matrix, r: Matrix, n: nat, o: nat)
    requires |m| == |r| == n && Rectangular(m, n) && Rectangular(r, n) && Inverts(m, r, n) && o < n
    ensures SomeNonzero(r[o])
  {
    hide Dot, Inverts;
    InverseIsTwoSided(m, r, n);
    assert Dot(r[o], Column(m, o, n), n) == 1;
    if forall j :: 0 <= j < n ==> r[o][j] == 0 {
      DotZeroLeft(r[o], Column(m, o, n), n);
    }
  }

  /** An inverse of the matrix, and the combined coefficients it gives. */
  ghost predicate SolvingRows(s: System, inverse: Matrix, rows: Matrix)
    requires s.Valid()
  {
    && |inverse| == |rows| == |s.missing| && Rectangular(inverse, |s.missing|) && Rectangular(rows, |s.keys|)
    && Inverts(s.Matrix(), inverse, |s.missing|)
    && (forall o :: 0 <= o < |rows| ==> CombinedRow(s, inverse[o], rows[o]))
  }

  /** The outputs are what the kernel makes of rows that solve the system, from the slices as they are supplied. */
  ghost predicate KernelResult(s: System, supplied: seq<Bytes>, out: seq<Bytes>)
    requires s.Valid() && |supplied| == |s.keys|
  {
    && |out| == |s.missing|
    && exists inverse, rows :: SolvingRows(s, inverse, rows) && KernelOutputs(s, supplied, inverse, rows, out)
  }

  ghost predicate KernelOutputs(s: System, supplied: seq<Bytes>, inverse: Matrix, rows: Matrix, out: seq<Bytes>)
    requires s.Valid() && |supplied| == |s.keys|
    requires |inverse| == |rows| == |s.missing| && Rectangular(inverse, |s.missing|) && Rectangular(rows, |s.keys|)
  {
    && |out| <= |s.missing|
    && forall o :: 0 <= o < |out| ==>
      out[o] == KernelSum(s.size, inverse[o], RecoveryData(s.recs, |s.missing|), rows[o], supplied)
  }

  // ----- the steps of the source

  method BuildMatrix(e: Engine, missing: seq<nat>) returns (m: Matrix)
    requires e.tables.Valid() && |missing| <= |e.recs|
    requires forall c :: 0 <= c < |missing| ==> missing[c] < |e.bases|
    ensures m == CoefficientMatrix(e.bases, e.recs, missing)
  {
    hide Pow;
    m := [];
    for eq := 0 to |missing|
      invariant |m| == eq
      invariant forall i :: 0 <= i < eq ==> m[i] == CoefficientMatrix(e.bases, e.recs, missing)[i]
    {
      var exponent := FieldExponent(e.recs[eq]);
      var row: Vector := [];
      for col := 0 to |missing|
        invariant |row| == col
        invariant forall c :: 0 <= c < col ==> row[c] == Coefficient(e.bases[missing[c]], exponent)
      {
        row := row + [e.tables.Power(e.bases[missing[col]], exponent)];
      }
      m := m + [row];
    }
  }

  method PresentCoefficients(e: Engine, keys: seq<nat>, n: nat) returns (m: Matrix)
    requires e.tables.Valid() && n <= |e.recs|
    ensures m == PresentMatrix(e.bases, e.recs, keys, n)
  {
    hide Pow;
    m := [];
    for eq := 0 to n
      invariant |m| == eq
      invariant forall i :: 0 <= i < eq ==> m[i] == PresentMatrix(e.bases, e.recs, keys, n)[i]
    {
      var exponent := FieldExponent(e.recs[eq]);
      var row: Vector := [];
      for idx := 0 to |keys|
        invariant |row| == idx
        invariant forall i :: 0 <= i < idx ==> row[i] == PresentRow(e.bases, keys, exponent)[i]
      {
        if keys[idx] < |e.bases| {
          row := row + [e.tables.Power(e.bases[keys[idx]], exponent)];
        } else {
          row := row + [0];
        }
      }
      m := m + [row];
    }
  }

  /** The combined coefficient of one present slice. */
  method CombineColumn(t: Tables, inverseRow: Vector, present: Matrix, idx: nat, n: nat) returns (combined: Elem)
    requires t.Valid() && n <= |inverseRow| && n <= |present| && forall i :: 0 <= i < n ==> idx < |present[i]|
    ensures combined == Dot(inverseRow, Column(present, idx, n), n)
  {
    hide Add, Mul, Pow;
    combined := 0;
    for eq := 0 to n
      invariant combined == Dot(inverseRow, Column(present, idx, n), eq)
    {
      combined := Add(combined, t.Times(inverseRow[eq], present[eq][idx]));
    }
  }

  /** The combined coefficients of one output; keys outside the recovery set keep coefficient zero. */
  method CombineCoefficients(e: Engine, s: System, inverseRow: Vector, present: Matrix) returns (row: Vector)
    requires e.tables.Valid() && s.Valid() && e.bases == s.bases && |inverseRow| == |s.missing|
    requires present == PresentMatrix(s.bases, s.recs, s.keys, |s.missing|)
    ensures CombinedRow(s, inverseRow, row)
  {
    hide Dot, Pow, Coefficient;
    var n := |s.missing|;
    row := [];
    for idx := 0 to |s.keys|
      invariant |row| == idx
      invariant forall j :: 0 <= j < idx ==> row[j] == Dot(inverseRow, Column(present, j, n), n)
    {
      if s.keys[idx] >= |e.bases| {
        DotComm(inverseRow, Column(present, idx, n), n);
        DotZeroLeft(Column(present, idx, n), inverseRow, n);
        row := row + [0];
      } else {
        var combined := CombineColumn(e.tables, inverseRow, present, idx, n);
        row := row + [combined];
      }
    }
  }

  method InvertSystem(e: Engine, ghost s: System, missing: seq<nat>) returns (r: Result<Matrix>)
    requires e.tables.Valid() && s.Valid() && s.bases == e.bases && s.recs == e.recs && s.missing == missing
    requires missing != []
    ensures r.Ok? <==> Nonsingular(s.Matrix())
    ensures r.Ok? ==> |r.value| == |missing| && Rectangular(r.value, |missing|)
    ensures r.Ok? ==> Inverts(s.Matrix(), r.value, |missing|)
    ensures r.Err? ==> r.error.Singular? && FirstDependent(s.Matrix(), r.error.column)
  {
    hide Nonsingular, Inverts, CoefficientMatrix, FirstDependent;
    var matrix := BuildMatrix(e, missing);
    r := InvertGfMatrix(e.tables, matrix);
  }

  /** The rows of combined coefficients, and a table for every coefficient that needs one. */
  method PrepareRows(e: Engine, s: System, inverse: Matrix) returns (rows: Matrix, cache: TableCache)
    requires e.tables.Valid() && s.Valid() && e.bases == s.bases && e.recs == s.recs
    requires |inverse| == |s.missing| && Rectangular(inverse, |s.missing|)
    ensures |rows| == |s.missing| && Rectangular(rows, |s.keys|) && CacheValid(cache)
    ensures forall o :: 0 <= o < |s.missing| ==>
      CombinedRow(s, inverse[o], rows[o]) && Covers(cache, inverse[o]) && Covers(cache, rows[o])
  {
    hide CombinedRow, CacheValid, TableFor;
    var n := |s.missing|;
    var present := PresentCoefficients(e, s.keys, n);
    cache := map[];
    EmptyCache();
    for o := 0 to n
      invariant CacheValid(cache)
      invariant forall i :: 0 <= i < o ==> Covers(cache, inverse[i])
    {
      cache := CacheRow(e.tables, cache, inverse[o]);
    }
    rows := [];
    for o := 0 to n
      invariant |rows| == o && Rectangular(rows, |s.keys|) && CacheValid(cache)
      invariant forall i :: 0 <= i < n ==> Covers(cache, inverse[i])
      invariant forall i :: 0 <= i < o ==> CombinedRow(s, inverse[i], rows[i]) && Covers(cache, rows[i])
    {
      var row := CombineCoefficients(e, s, inverse[o], present);
      CombinedRowWidth(s, inverse[o], row);
      cache := CacheRow(e.tables, cache, row);
      rows := rows + [row];
    }
  }

  lemma CombinedRowWidth(s: System, inverseRow: Vector, row: Vector)
    requires s.Valid() && |inverseRow| == |s.missing| && CombinedRow(s, inverseRow, row)
    ensures |row| == |s.keys|
  {}

  lemma EmptyCache()
    ensures CacheValid(map[])
  {}

  /** The whole-slice route. `keys` is the order in which the map of present slices is iterated. */
  method ReconstructGlobal(e: Engine, all: map<nat, Bytes>, missing: seq<nat>, keys: seq<nat>) returns (r: Outcome)
    requires Ready(e, missing) && KeyOrder(keys, all)
    ensures missing == [] ==> r == Success(map[])
    ensures r == NotEnoughRecovery <==> |missing| > |e.recs|
    ensures 0 < |missing| <= |e.recs| ==> (r.Success? <==> Nonsingular(SystemOf(e, all, missing, keys).Matrix()))
    ensures r.MatrixFailure? ==>
      |missing| <= |e.recs| && r.error.Singular?
      && FirstDependent(SystemOf(e, all, missing, keys).Matrix(), r.error.column)
    ensures r.Success? ==> r.slices.Keys == set c | 0 <= c < |missing| :: missing[c]
    ensures r.Success? ==> forall g :: g in r.slices ==> |r.slices[g]| == e.sliceSize
    ensures r.Success? ==>
      KernelResult(SystemOf(e, all, missing, keys), Supplied(all, keys, |e.bases|, e.sliceSize),
                   Collected(r.slices, missing))
    ensures r.Success? && NoHalfWords(e, all) ==>
      SystemOf(e, all, missing, keys).Satisfied(Collected(r.slices, missing))
    ensures !r.NoCoefficients?
  {
    hide Nonsingular, Inverts, CombinedRow, CacheValid, Covers, RowSum, KernelSum, Combination, SomeNonzero,
      PresentSlices, NoHalfWords, CoefficientMatrix, Fitted, HoldsOutputs, RowOutput, KernelOutputs, KernelResult,
      FirstDependent;
    var n := |missing|;
    if n == 0 {
      EmptySystem(e, all, missing, keys);
      return Success(map[]);
    }
    if |e.recs| < n {
      return NotEnoughRecovery;
    }
    var s := SystemOf(e, all, missing, keys);
    SystemValid(e, all, missing, keys);
    var inverted := InvertSystem(e, s, missing);
    if inverted.Err? {
      return MatrixFailure(inverted.error);
    }
    var inverse := inverted.value;
    var rows, cache := PrepareRows(e, s, inverse);
    var present := Supplied(all, keys, |e.bases|, e.sliceSize);
    ghost var out: seq<Bytes> := [];
    var slices: map<nat, Bytes> := map[];
    NoOutputs(missing, e.sliceSize);
    NothingBuilt(s, present, inverse, rows);
    for o := 0 to n
      invariant |out| == o && HoldsOutputs(slices, missing, out, e.sliceSize)
      invariant KernelOutputs(s, present, inverse, rows, out)
      invariant NoHalfWords(e, all) ==> forall c :: 0 <= c < o ==> RowOutput(s, inverse[c], rows[c], out[c])
    {
      InverseRowNonzero(s.Matrix(), inverse, n, o);
      var slice := BuildSlice(cache, e.sliceSize, inverse[o], RecoveryData(e.recs, n), rows[o], present);
      match slice {
        case NothingWritten =>
          assert false;
        case Filled(data) =>
          forall c | 0 <= c < o
            ensures missing[c] != missing[o]
          {
            DistinctMissing(s, c, o);
          }
          OutputInserted(slices, missing, out, e.sliceSize, data);
          OutputBuilt(s, present, inverse, rows, out, data);
          if NoHalfWords(e, all) {
            BuiltRow(e, all, s, keys, inverse[o], rows[o], data);
          }
          out := out + [data];
          slices := slices[missing[o] := data];
      }
    }
    OutputsCollected(slices, missing, out, e.sliceSize);
    AllBuilt(s, present, inverse, rows, out);
    if NoHalfWords(e, all) {
      CombinedRowsSatisfy(s, inverse, rows, out);
    }
    r := Success(slices);
  }

  /** The map holds the outputs so far, under their missing indices and nothing else. */
  ghost predicate HoldsOutputs(slices: map<nat, Bytes>, missing: seq<nat>, out: seq<Bytes>, size: nat) {
    && |out| <= |missing|
    && slices.Keys == (set c | 0 <= c < |out| :: missing[c])
    && (forall c :: 0 <= c < |out| ==> |out[c]| == size && slices[missing[c]] == out[c])
  }

  lemma NoOutputs(missing: seq<nat>, size: nat)
    ensures HoldsOutputs(map[], missing, [], size)
  {}

  lemma OutputInserted(slices: map<nat, Bytes>, missing: seq<nat>, out: seq<Bytes>, size: nat, data: Bytes)
    requires HoldsOutputs(slices, missing, out, size) && |out| < |missing| && |data| == size
    requires forall c :: 0 <= c < |out| ==> missing[c] != missing[|out|]
    ensures HoldsOutputs(slices[missing[|out|] := data], missing, out + [data], size)
  {}

  lemma OutputsCollected(slices: map<nat, Bytes>, missing: seq<nat>, out: seq<Bytes>, size: nat)
    requires HoldsOutputs(slices, missing, out, size) && |out| == |missing|
    ensures slices.Keys == (set c | 0 <= c < |missing| :: missing[c])
    ensures Collected(slices, missing) == out
    ensures forall g :: g in slices ==> |slices[g]| == size
  {
    assert Collected(slices, missing) == out;
  }

  lemma NothingBuilt(s: System, supplied: seq<Bytes>, inverse: Matrix, rows: Matrix)
    requires s.Valid() && |supplied| == |s.keys|
    requires |inverse| == |rows| == |s.missing| && Rectangular(inverse, |s.missing|) && Rectangular(rows, |s.keys|)
    ensures KernelOutputs(s, supplied, inverse, rows, [])
  {}

  lemma OutputBuilt(s: System, supplied: seq<Bytes>, inverse: Matrix, rows: Matrix, out: seq<Bytes>, data: Bytes)
    requires s.Valid() && |supplied| == |s.keys|
    requires |inverse| == |rows| == |s.missing| && Rectangular(inverse, |s.missing|) && Rectangular(rows, |s.keys|)
    requires KernelOutputs(s, supplied, inverse, rows, out) && |out| < |s.missing|
    requires data
      == KernelSum(s.size, inverse[|out|], RecoveryData(s.recs, |s.missing|), rows[|out|], supplied)
    ensures KernelOutputs(s, supplied, inverse, rows, out + [data])
  {
    hide KernelSum;
  }

  lemma AllBuilt(s: System, supplied: seq<Bytes>, inverse: Matrix, rows: Matrix, out: seq<Bytes>)
    requires s.Valid() && |supplied| == |s.keys| && |out| == |s.missing| && SolvingRows(s, inverse, rows)
    requires KernelOutputs(s, supplied, inverse, rows, out)
    ensures KernelResult(s, supplied, out)
  {
    hide Inverts, CombinedRow, KernelSum, CoefficientMatrix;
  }

  /** What the kernel builds from slices without half words is the sum the system asks for. */
  lemma BuiltRow(e: Engine, all: map<nat, Bytes>, s: System, keys: seq<nat>, inverseRow: Vector, row: Vector,
                 data: Bytes)
    requires KeyOrder(keys, all) && NoHalfWords(e, all) && s.Valid() && s == SystemOf(e, all, s.missing, keys)
    requires |inverseRow| == |s.missing| && CombinedRow(s, inverseRow, row) && |row| == |keys|
    requires data == KernelSum(e.sliceSize, inverseRow, RecoveryData(e.recs, |s.missing|), row,
                               Supplied(all, keys, |e.bases|, e.sliceSize))
    ensures RowOutput(s, inverseRow, row, data)
  {
    hide KernelSum, RowSum, CombinedRow, PresentSlices;
    SuppliedFitted(all, keys, |e.bases|, e.sliceSize);
    KernelSumIsRowSum(e.sliceSize, inverseRow, RecoveryData(e.recs, |s.missing|), row,
                      Supplied(all, keys, |e.bases|, e.sliceSize));
  }

  lemma DistinctMissing(s: System, a: nat, b: nat)
    requires s.Valid() && a < b < |s.missing| && Nonsingular(s.Matrix())
    ensures s.missing[a] != s.missing[b]
  {
    if s.missing[a] == s.missing[b] {
      MissingDistinct(s, a, b);
    }
  }

  lemma EmptySystem(e: Engine, all: map<nat, Bytes>, missing: seq<nat>, keys: seq<nat>)
    requires Ready(e, missing) && KeyOrder(keys, all) && missing == []
    ensures SystemOf(e, all, missing, keys).Valid()
    ensures SystemOf(e, all, missing, keys).Satisfied([])
    ensures Collected(map[], missing) == []
    ensures KernelResult(SystemOf(e, all, missing, keys), Supplied(all, keys, |e.bases|, e.sliceSize), [])
  {
    var s := SystemOf(e, all, missing, keys);
    forall v: Vector, b: Vector | |v| == 0 && |b| == 0
      ensures Solves(s.Matrix(), v, b) <==> Solves([], b, v)
    {}
    assert SolvingRows(s, [], []);
    AllBuilt(s, Supplied(all, keys, |e.bases|, e.sliceSize), [], [], []);
  }
}
