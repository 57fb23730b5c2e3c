/** When a reconstruction from the chunks that arrive brings back what was lost, for every content of the slices. */
module ServedRepair {
  import opened Gf16
  import opened LinearAlgebra
  import opened GaussJordan
  import opened SliceKernel
  import opened Slices
  import opened Encoder
  import opened RecoveryEquations
  import opened Contributions
  import opened Reconstruction
  import opened ErasureCode
  import opened Chunks
  import opened ServedChunks
  import opened ReadAheadSchedule
  import opened ChunkedReconstruction

  ghost predicate SameAsLost(s: System, original: seq<Bytes>, out: seq<Bytes>) {
    (forall c :: 0 <= c < |s.missing| ==> s.missing[c] < |original|) && out == Gather(original, s.missing)
  }

  /** The chunked route made `out` of what is left of the encoded slices `original`. */
  ghost predicate Returned(s: System, original: seq<Bytes>, p: Plan, out: seq<Bytes>) {
    ComesFrom(s, original) && PlanFits(p, s) && ZeroBeyond(p, s.present) && ServedResult(s, p, out)
  }

  // ----- the result is determined

  /** The same slices are lost, with the same exponents left; the contents may differ. */
  ghost predicate SameShape(a: System, b: System) {
    && a.bases == b.bases && a.missing == b.missing && a.keys == b.keys && a.size == b.size && |a.recs| == |b.recs|
    && (forall e :: 0 <= e < |a.recs| ==> FieldExponent(a.recs[e]) == FieldExponent(b.recs[e]))
  }

  lemma ShapeFixesMatrix(a: System, b: System)
    requires a.Valid() && b.Valid() && SameShape(a, b)
    ensures a.Matrix() == b.Matrix()
    ensures PresentMatrix(a.bases, a.recs, a.keys, |a.missing|) == PresentMatrix(b.bases, b.recs, b.keys, |b.missing|)
  {
    hide Coefficient;
    forall e | 0 <= e < |a.missing|
      ensures a.Matrix()[e] == b.Matrix()[e]
    {
      assert forall c :: 0 <= c < |a.missing| ==> a.Matrix()[e][c] == b.Matrix()[e][c];
    }
  }

  /** The coefficients of one content are those of every other. */
  lemma ShapeFixesRows(a: System, b: System, inverse: Matrix, rows: Matrix)
    requires a.Valid() && b.Valid() && SameShape(a, b) && SolvingRows(a, inverse, rows)
    ensures SolvingRows(b, inverse, rows)
  {
    hide Inverts, Dot, CoefficientMatrix;
    ShapeFixesMatrix(a, b);
  }

  /** A matrix has at most one inverse. */
  lemma InverseUnique(m: Matrix, r: Matrix, r': Matrix, n: nat)
    requires |m| == |r| == |r'| == n && Rectangular(m, n) && Rectangular(r, n) && Rectangular(r', n)
    requires Inverts(m, r, n) && Inverts(m, r', n)
    ensures r == r'
  {
    hide Dot;
    forall i | 0 <= i < n
      ensures r[i] == r'[i]
    {
      forall j | 0 <= j < n
        ensures r[i][j] == r'[i][j]
      {
        UnitSolved(r, n, j);
        UnitSolved(r', n, j);
        assert Solves(m, Column(r, j, n), Unit(n, j));
        assert Solves(r', Unit(n, j), Column(r, j, n));
        assert Dot(r'[i], Unit(n, j), n) == Column(r, j, n)[i];
      }
    }
  }

  lemma RowsUnique(s: System, inverse: Matrix, rows: Matrix, inverse': Matrix, rows': Matrix)
    requires s.Valid() && SolvingRows(s, inverse, rows) && SolvingRows(s, inverse', rows')
    ensures inverse == inverse' && rows == rows'
  {
    hide Inverts, Dot, CoefficientMatrix;
    InverseUnique(s.Matrix(), inverse, inverse', |s.missing|);
    forall o | 0 <= o < |rows|
      ensures rows[o] == rows'[o]
    {
      assert CombinedRow(s, inverse[o], rows[o]) && CombinedRow(s, inverse[o], rows'[o]);
    }
  }

  /** What the route computes is determined by what arrives. */
  lemma ServedResultUnique(s: System, p: Plan, out: seq<Bytes>, out': seq<Bytes>)
    requires s.Valid() && PlanFits(p, s) && ServedResult(s, p, out) && ServedResult(s, p, out')
    ensures out == out'
  {
    hide Inverts, CombinedRow, ServedRow, CoefficientMatrix, ChunkCount;
    var inverse, rows :| SolvingRows(s, inverse, rows) && ServedOutputs(s, p, p.Count(), inverse, rows, out);
    var inverse', rows' :| SolvingRows(s, inverse', rows') && ServedOutputs(s, p, p.Count(), inverse', rows', out');
    RowsUnique(s, inverse, rows, inverse', rows');
    assert forall o :: 0 <= o < |out| ==> out[o] == out'[o];
  }

  // ----- what is enough

  lemma UnharmedRepaired(s: System, original: seq<Bytes>, p: Plan, out: seq<Bytes>, inverse: Matrix, rows: Matrix)
    requires Returned(s, original, p, out) && KeepsWords(p.chunk, p.size) && s.size % 2 == 0
    requires SolvingRows(s, inverse, rows) && forall o :: 0 <= o < |rows| ==> RowUnharmed(p, rows[o])
    ensures SameAsLost(s, original, out)
  {
    hide Inverts, CombinedRow, ServedRow, KeepsWords, CoefficientMatrix, RecoveryBlock, RowUnharmed, ChunkCount,
      System.Satisfied, Nonsingular, ZeroBeyond;
    var inverse', rows' :| SolvingRows(s, inverse', rows') && ServedOutputs(s, p, p.Count(), inverse', rows', out);
    RowsUnique(s, inverse, rows, inverse', rows');
    ServedOutputsSatisfy(s, p, inverse, rows, out);
    ErasureRoundTrip(s, original, out);
  }

  // ----- what is needed: a content that shows the harm

  /** A slice of zeros but for the last byte of its data. */
  function Marked(size: nat, n: nat, b: Byte): (r: Bytes)
    requires 0 < n <= size
    ensures |r| == size
  {
    Zeros(size)[n - 1 := b]
  }

  function MarkedSlices(shape: System, g: nat, n: nat, b: Byte): (r: seq<Bytes>)
    requires 0 < n <= shape.size
    ensures |r| == |shape.bases|
    ensures forall j :: 0 <= j < |r| ==> r[j] == if j == g then Marked(shape.size, n, b) else Zeros(shape.size)
    ensures forall j :: 0 <= j < |r| ==> |r[j]| == shape.size
  {
    seq(|shape.bases|, j requires 0 <= j < |shape.bases| =>
      if j == g then Marked(shape.size, n, b) else Zeros(shape.size))
  }

  /** The shape with these contents. */
  function Filled(shape: System, original: seq<Bytes>): (s: System)
    requires |original| == |shape.bases| && forall g :: 0 <= g < |original| ==> |original[g]| == shape.size
    ensures |s.recs| == |shape.recs| && |s.present| == |shape.keys|
  {
    System(shape.bases,
           seq(|shape.recs|, e requires 0 <= e < |shape.recs| =>
             Recovery(shape.recs[e].exponent,
                      RecoveryBlock(shape.bases, FieldExponent(shape.recs[e]), original, shape.size))),
           shape.missing, shape.keys,
           seq(|shape.keys|, i requires 0 <= i < |shape.keys| =>
             if shape.keys[i] < |original| then original[shape.keys[i]] else Zeros(shape.size)),
           shape.size)
  }

  /** Every slice is listed once, as missing or present. */
  ghost predicate Complete(s: System) {
    && (forall g :: 0 <= g < |s.bases| ==> g in s.missing + s.keys)
    && (forall i, j :: 0 <= i < j < |s.missing + s.keys| ==> (s.missing + s.keys)[i] != (s.missing + s.keys)[j])
  }

  lemma FilledComes(shape: System, original: seq<Bytes>)
    requires shape.Valid() && Complete(shape)
    requires |original| == |shape.bases| && forall g :: 0 <= g < |original| ==> |original[g]| == shape.size
    ensures ComesFrom(Filled(shape, original), original) && SameShape(shape, Filled(shape, original))
  {
    hide RecoveryBlock;
  }

  lemma KeysApart(s: System, i: nat, j: nat)
    requires Complete(s) && i < |s.keys| && j < |s.keys| && i != j
    ensures s.keys[i] != s.keys[j]
  {
    var all, n := s.missing + s.keys, |s.missing|;
    assert all[n + i] == s.keys[i] && all[n + j] == s.keys[j];
    if i < j {
      assert all[n + i] != all[n + j];
    } else {
      assert all[n + j] != all[n + i];
    }
  }

  lemma MarkedZeroBeyond(shape: System, p: Plan, i: nat, b: Byte)
    requires PlanFits(p, shape) && Complete(shape) && i < |shape.keys|
    requires shape.keys[i] < |shape.bases| && 0 < p.lengths[shape.keys[i]]
    ensures ZeroBeyond(p, Filled(shape, MarkedSlices(shape, shape.keys[i], p.lengths[shape.keys[i]], b)).present)
  {
    hide RecoveryBlock;
  }

  /** Byte `x` of chunk `k` of a row. */
  lemma {:induction false} ServedRowAt(p: Plan, n: nat, k: nat, x: nat, inverseRow: Vector, recovery: seq<Bytes>,
                                       row: Vector, present: seq<Bytes>)
    requires p.Valid() && k < n <= p.Count() && x < p.Length(k)
    requires |inverseRow| == |recovery| && |row| == |present| == |p.keys|
    requires forall i :: 0 <= i < |recovery| ==> p.size <= |recovery[i]|
    requires forall i :: 0 <= i < |present| ==> p.size <= |present[i]|
    ensures var r := ServedRow(p, n, inverseRow, recovery, row, present);
      && p.Start(k) + x < |r|
      && r[p.Start(k) + x]
        == KernelSum(p.Length(k), inverseRow, ChunksOf(recovery, p.Start(k), p.Length(k)), row,
                     ServedSlices(p, k, present))[x]
    decreases n
  {
    hide KernelSum, ChunksOf, ServedSlices, ChunkEnd, ChunkCount;
    ServedRowLength(p, n - 1, inverseRow, recovery, row, present);
    if k < n - 1 {
      ServedRowAt(p, n - 1, k, x, inverseRow, recovery, row, present);
    }
  }

  /** A slice that arrives cut makes a difference to an output that takes it with a coefficient that carries. */
  lemma CutSliceShows(p: Plan, k: nat, i: nat, b: Byte, inverseRow: Vector, recovery: seq<Bytes>, row: Vector,
                      present: seq<Bytes>)
    requires p.Valid() && k < p.Count() && i < |p.keys| && CutsWord(p, k, i)
    requires |inverseRow| == |recovery| && |row| == |present| == |p.keys|
    requires forall j :: 0 <= j < |recovery| ==> |recovery[j]| == p.Length(k)
    requires forall j :: 0 <= j < |present| ==> p.size <= |present[j]|
    requires forall j :: 0 <= j < |present| && j != i ==> present[j] == Zeros(p.size)
    requires present[i][p.Start(k) + Served(p, k, i) - 1] == b && High(Mul(row[i], LowWord(b))) != 0
    requires Served(p, k, i) < p.Length(k)
    ensures KernelSum(p.Length(k), inverseRow, recovery, row, ServedSlices(p, k, present))[Served(p, k, i)]
      != RowSum(p.Length(k), inverseRow, recovery, row,
                AllFitted(ServedSlices(p, k, present), p.Length(k)))[Served(p, k, i)]
  {
    hide Mul, High, LowWord, KernelSum, RowSum, Served, SameTermAt, ChunkEnd, ChunkCount;
    var (served, x) := (ServedSlices(p, k, present), Served(p, k, i));
    forall j | 0 <= j < |present|
      ensures SameTermAt(row[j], served[j], p.Length(k), x) <==> j != i
    {
      if j == i {
        LostByte(row[i], served[i], p.Length(k));
      } else {
        assert served[j] == Zeros(|served[j]|);
        TermOfZeros(row[j], served[j], p.Length(k), x);
      }
    }
    KernelSumDiffers(p.Length(k), inverseRow, recovery, row, served, i, x);
  }

  // ----- coefficients that carry

  lemma ShiftedUp(c: Elem)
    requires c & 0xFF00 == 0 && c != 0 && c != 1
    ensures (c << 7) >> 8 != 0
    ensures Xtime(c) == c << 1 && Xtime(c << 1) == c << 2 && Xtime(c << 2) == c << 3 && Xtime(c << 3) == c << 4
    ensures Xtime(c << 4) == c << 5 && Xtime(c << 5) == c << 6 && Xtime(c << 6) == c << 7
  {}

  lemma PowersUp()
    ensures Xtime(1) == 2 && Xtime(2) == 4 && Xtime(4) == 8 && Xtime(8) == 16 && Xtime(16) == 32 && Xtime(32) == 64
    ensures Xtime(64) == 128 && LowWord(128) == 128 && LowWord(1) == 1
  {}

  /** x^7 times an element is seven doublings. */
  lemma TimesX7(c: Elem)
    ensures Mul(128, c) == Xtime(Xtime(Xtime(Xtime(Xtime(Xtime(Xtime(c)))))))
  {
    hide Mul, Xtime;
    PowersUp();
    MulOneLeft(c);
    MulXtime(1, c);
    MulXtime(2, c);
    MulXtime(4, c);
    MulXtime(8, c);
    MulXtime(16, c);
    MulXtime(32, c);
    MulXtime(64, c);
  }

  lemma HighIsZero(c: Elem)
    ensures High(c) == 0 <==> c & 0xFF00 == 0
    ensures High(c) == 0 <==> c >> 8 == 0
  {}

  /** Every coefficient but zero and one carries some byte into the next. */
  lemma CarryingByte(c: Elem) returns (b: Byte)
    requires c != 0 && c != 1
    ensures High(Mul(c, LowWord(b))) != 0
  {
    hide Mul, Xtime, High, LowWord;
    PowersUp();
    HighIsZero(c);
    if High(c) != 0 {
      b := 1;
      MulOneRight(c);
    } else {
      b := 128;
      ShiftedUp(c);
      TimesX7(c);
      MulComm(c, 128);
      HighIsZero(c << 7);
    }
  }

  // ----- exactly when

  /** A slice that arrives cut, with a coefficient that carries, spoils the result for some content. */
  lemma HarmShows(shape: System, p: Plan, inverse: Matrix, rows: Matrix, o: nat, k: nat, i: nat)
    returns (s: System, original: seq<Bytes>, out: seq<Bytes>)
    requires shape.Valid() && Complete(shape) && PlanFits(p, shape) && SolvingRows(shape, inverse, rows)
    requires KeepsWords(p.chunk, p.size) && p.size % 2 == 0
    requires o < |rows| && k < p.Count() && i < |p.keys| && CutsWord(p, k, i) && rows[o][i] != 0 && rows[o][i] != 1
    ensures SameShape(shape, s) && Returned(s, original, p, out) && !SameAsLost(s, original, out)
  {
    hide Inverts, CombinedRow, ServedRow, KeepsWords, CoefficientMatrix, RecoveryBlock, ChunkCount, ChunkEnd,
      ZeroBeyond, Served, KernelSum, RowSum, Mul, Filled, MarkedSlices, ComesFrom, Complete;
    var n := |shape.missing|;
    var b := CarryingByte(rows[o][i]);
    CutInside(p, k, i);
    var (g, actual) := (p.keys[i], p.lengths[p.keys[i]]);
    original := MarkedSlices(shape, g, actual, b);
    s := Filled(shape, original);
    FilledComes(shape, original);
    FilledIs(shape, original);
    ComesValid(s, original);
    MarkedZeroBeyond(shape, p, i, b);
    ShapeFixesRows(shape, s, inverse, rows);
    var recovery := RecoveryData(s.recs, n);
    out := seq(n, j requires 0 <= j < n => ServedRow(p, p.Count(), inverse[j], recovery, rows[j], s.present));
    assert ServedOutputs(s, p, p.Count(), inverse, rows, out);
    var whole := WholeOutputs(s, inverse, rows, original);
    var x := Served(p, k, i);
    ServedRowAt(p, p.Count(), k, x, inverse[o], recovery, rows[o], s.present);
    MarkedPresent(shape, p, i, b);
    CutSliceShows(p, k, i, b, inverse[o], ChunksOf(recovery, p.Start(k), p.Length(k)), rows[o], s.present);
    ServedFits(p, k, s.present);
    RowSumOfChunk(s.size, inverse[o], recovery, rows[o], s.present, p.Start(k), p.Length(k));
    assert out[o][p.Start(k) + x] != whole[o][p.Start(k) + x];
  }

  lemma ComesValid(s: System, original: seq<Bytes>)
    requires ComesFrom(s, original)
    ensures s.Valid() && |original| == |s.bases| && forall c :: 0 <= c < |s.missing| ==> s.missing[c] < |original|
  {}

  lemma FilledIs(shape: System, original: seq<Bytes>)
    requires |original| == |shape.bases| && forall g :: 0 <= g < |original| ==> |original[g]| == shape.size
    ensures var s := Filled(shape, original);
      s.bases == shape.bases && s.missing == shape.missing && s.keys == shape.keys && s.size == shape.size
  {}

  /** What whole chunks would have brought back. */
  lemma WholeOutputs(s: System, inverse: Matrix, rows: Matrix, original: seq<Bytes>) returns (whole: seq<Bytes>)
    requires ComesFrom(s, original) && s.size % 2 == 0 && SolvingRows(s, inverse, rows)
    ensures |whole| == |s.missing|
    ensures forall o :: 0 <= o < |whole| ==>
      whole[o] == RowSum(s.size, inverse[o], RecoveryData(s.recs, |s.missing|), rows[o], s.present)
    ensures (forall c :: 0 <= c < |s.missing| ==> s.missing[c] < |original|) && whole == Gather(original, s.missing)
  {
    hide Inverts, CombinedRow, RowSum, CoefficientMatrix, RecoveryBlock, Nonsingular, System.Satisfied;
    var n := |s.missing|;
    whole := seq(n, o requires 0 <= o < n => RowSum(s.size, inverse[o], RecoveryData(s.recs, n), rows[o], s.present));
    CombinedRowsSatisfy(s, inverse, rows, whole);
    RowsNonsingular(s, inverse, rows);
    ErasureRoundTrip(s, original, whole);
  }

  lemma RowsNonsingular(s: System, inverse: Matrix, rows: Matrix)
    requires s.Valid() && SolvingRows(s, inverse, rows)
    ensures Nonsingular(s.Matrix())
  {
    hide Inverts, CombinedRow, CoefficientMatrix;
    forall x
      ensures !Annihilated(s.Matrix(), x)
    {
      InvertibleKillsOnlyZero(s.Matrix(), inverse, |s.missing|, x);
    }
  }

  /** A cut slice has data, ends in the chunk, and the chunk is aligned. */
  lemma CutInside(p: Plan, k: nat, i: nat)
    requires p.Valid() && KeepsWords(p.chunk, p.size) && p.size % 2 == 0 && k < p.Count() && i < |p.keys|
      && CutsWord(p, k, i)
    ensures p.keys[i] < p.total && p.Start(k) + Served(p, k, i) == p.lengths[p.keys[i]] > 0
    ensures WordAligned(p.Start(k), p.Length(k), p.size)
  {
    hide Served, ChunkCount, ChunkEnd;
    ServedArrives(p, k, i);
    ChunkStarts(p, k);
    AlignedChunk(p, k);
  }

  lemma AlignedChunk(p: Plan, k: nat)
    requires p.Valid() && KeepsWords(p.chunk, p.size) && k < p.Count() && p.Length(k) > 0
    ensures WordAligned(p.Start(k), p.Length(k), p.size)
  {
    hide ChunkEnd, ChunkCount, KeepsWords;
    ChunkAligned(k, p.chunk, p.size);
  }

  lemma MarkedPresent(shape: System, p: Plan, i: nat, b: Byte)
    requires shape.Valid() && Complete(shape) && PlanFits(p, shape) && i < |p.keys|
    requires p.keys[i] < p.total && 0 < p.lengths[p.keys[i]]
    ensures var s := Filled(shape, MarkedSlices(shape, p.keys[i], p.lengths[p.keys[i]], b));
      && (forall j :: 0 <= j < |s.present| && j != i ==> s.present[j] == Zeros(p.size))
      && |s.present[i]| == p.size && s.present[i][p.lengths[p.keys[i]] - 1] == b
  {
    hide Complete, RecoveryBlock;
    var s := Filled(shape, MarkedSlices(shape, p.keys[i], p.lengths[p.keys[i]], b));
    forall j | 0 <= j < |s.present| && j != i
      ensures s.present[j] == Zeros(p.size)
    {
      KeysApart(shape, i, j);
    }
  }

  /** Whatever the slices hold, what was lost comes back. */
  ghost predicate AlwaysRepairs(shape: System, p: Plan) {
    forall s: System, original: seq<Bytes>, out: seq<Bytes> ::
      SameShape(shape, s) && Returned(s, original, p, out) ==> SameAsLost(s, original, out)
  }

  /**
   * Which slices are lost, which exponents are left, and how many bytes the files hold of the rest decide whether
   * repair is right for every content: exactly when each slice that arrives cut within a word goes into every output
   * with coefficient zero or one.
   */
  lemma AlwaysRepairsExactly(shape: System, p: Plan, inverse: Matrix, rows: Matrix)
    requires shape.Valid() && Complete(shape) && PlanFits(p, shape) && SolvingRows(shape, inverse, rows)
    requires KeepsWords(p.chunk, p.size) && p.size % 2 == 0
    ensures AlwaysRepairs(shape, p) <==> forall o :: 0 <= o < |rows| ==> RowUnharmed(p, rows[o])
  {
    hide SolvingRows, KeepsWords, Complete, SameAsLost, Returned, PlanFits, ChunkCount, CutsWord;
    RowWidths(shape, p, inverse, rows);
    if forall o :: 0 <= o < |rows| ==> RowUnharmed(p, rows[o]) {
      forall s: System, original, out | SameShape(shape, s) && Returned(s, original, p, out)
        ensures SameAsLost(s, original, out)
      {
        ReturnedValid(s, original, p, out);
        ShapeFixesRows(shape, s, inverse, rows);
        UnharmedRepaired(s, original, p, out, inverse, rows);
      }
    } else {
      var o :| 0 <= o < |rows| && !RowUnharmed(p, rows[o]);
      var k, i :| 0 <= k < p.Count() && 0 <= i < |rows[o]| && CutsWord(p, k, i) && rows[o][i] != 0 && rows[o][i] != 1;
      var s, original, out := HarmShows(shape, p, inverse, rows, o, k, i);
    }
  }

  lemma RowWidths(shape: System, p: Plan, inverse: Matrix, rows: Matrix)
    requires shape.Valid() && PlanFits(p, shape) && SolvingRows(shape, inverse, rows)
    ensures p.Valid() && |rows| == |shape.missing| && forall o :: 0 <= o < |rows| ==> |rows[o]| == |p.keys|
    ensures p.size == shape.size
  {}

  lemma ReturnedValid(s: System, original: seq<Bytes>, p: Plan, out: seq<Bytes>)
    requires Returned(s, original, p, out)
    ensures s.Valid() && s.size == p.size
  {}

  /** The data of slice `i` ends on an odd byte in chunk `k`, which is not one of those that are padded. */
  predicate EndsUnpadded(p: Plan, k: nat, i: nat)
    requires i < |p.keys| && p.keys[i] in p.lengths
  {
    && p.keys[i] < p.total && k % (if p.chunk < 0x10_0000 then 5 else 2) != 0
    && p.Start(k) < p.lengths[p.keys[i]] < p.Start(k) + p.Length(k)
    && (p.lengths[p.keys[i]] - p.Start(k)) % 2 == 1
  }

  /** When all data fits in the cache, this can be told from the lengths alone. */
  lemma AlwaysRepairsInCache(shape: System, p: Plan, inverse: Matrix, rows: Matrix)
    requires shape.Valid() && Complete(shape) && PlanFits(p, shape) && SolvingRows(shape, inverse, rows)
    requires KeepsWords(p.chunk, p.size) && p.size % 2 == 0 && FitsInCache(p)
    ensures |rows| == |shape.missing| && forall o :: 0 <= o < |rows| ==> |rows[o]| == |p.keys|
    ensures AlwaysRepairs(shape, p) <==>
      forall o, k, i :: 0 <= o < |rows| && 0 <= k < p.Count() && 0 <= i < |p.keys| && EndsUnpadded(p, k, i) ==>
        rows[o][i] == 0 || rows[o][i] == 1
  {
    hide SolvingRows, KeepsWords, Complete, AlwaysRepairs, CutsWord, ChunkCount, FitsInCache, Stride, ChunkEnd;
    RowWidths(shape, p, inverse, rows);
    AlwaysRepairsExactly(shape, p, inverse, rows);
    forall k, i | 0 <= k < p.Count() && 0 <= i < |p.keys|
      ensures CutsWord(p, k, i) <==> EndsUnpadded(p, k, i)
    {
      CutsWordExactly(p, k, i);
    }
  }
}
