/** When repair in chunks brings back whatever was lost, and inputs with which it does not. */
module SplitWords {
  import opened Gf16
  import opened Primitive
  import opened GaloisTable
  import opened Bases
  import opened LinearAlgebra
  import opened GaussJordan
  import opened SliceKernel
  import opened Slices
  import opened Encoder
  import opened RecoveryEquations
  import opened Contributions
  import opened ErasureCode
  import opened Recoverability
  import opened Chunks
  import opened SliceProvider
  import opened ServedChunks
  import opened Reconstruction
  import opened ChunkedReconstruction
  import opened ServedRepair
  import opened RepairChunkSize

  /** Whatever was encoded and lost, and whatever the files hold of the rest, the chunked route brings it back. */
  ghost predicate ChunksRepair(chunk: nat, size: nat) {
    forall s: System, original: seq<Bytes>, p: Plan, out: seq<Bytes> ::
      Lost(s, original, chunk, size, p, out) ==> SameAsLost(s, original, out)
  }

  /** The same when the files hold an even number of bytes of every present slice. */
  ghost predicate EvenSlicesRepair(chunk: nat, size: nat) {
    forall s: System, original: seq<Bytes>, p: Plan, out: seq<Bytes> ::
      Lost(s, original, chunk, size, p, out) && EvenLengths(p) ==> SameAsLost(s, original, out)
  }

  ghost predicate EvenLengths(p: Plan) { forall g :: g in p.lengths ==> p.lengths[g] % 2 == 0 }

  /** The chunked route, in chunks of a size, made `out` of what is left of the encoded slices `original`. */
  ghost predicate Lost(s: System, original: seq<Bytes>, chunk: nat, size: nat, p: Plan, out: seq<Bytes>) {
    Returned(s, original, p, out) && StandardBases(s.bases) && p.chunk == chunk && p.size == size
  }

  // ----- what is enough

  /** Without slices cut within a word, what was lost comes back. */
  lemma UncutRepaired(s: System, original: seq<Bytes>, chunk: nat, size: nat, p: Plan, out: seq<Bytes>)
    requires Lost(s, original, chunk, size, p, out) && KeepsWords(chunk, size) && size % 2 == 0
    requires p.Valid() && SafeLengths(p)
    ensures SameAsLost(s, original, out)
  {
    hide ServedResult, KeepsWords, CoefficientMatrix, RecoveryBlock, System.Satisfied, Nonsingular, ChunkCount,
      CutsWord, ZeroBeyond, SafeLengths;
    forall k, i | 0 <= k < p.Count() && 0 <= i < |p.keys|
      ensures !CutsWord(p, k, i)
    {
      SafeLengthsCutNothing(p, k, i);
    }
    ServedResultSatisfies(s, p, out);
    ErasureRoundTrip(s, original, out);
  }

  lemma LostValid(s: System, original: seq<Bytes>, chunk: nat, size: nat, p: Plan, out: seq<Bytes>)
    requires Lost(s, original, chunk, size, p, out)
    ensures p.Valid() && p.chunk == chunk && p.size == size
  {}

  // ----- chunks that split words: one lost slice, and its recovery slice with exponent one

  /** The inverse of x. */
  const X_INVERSE: Elem := 0x8805

  lemma InverseOfX()
    ensures Mul(2, X_INVERSE) == 1 && Mul(X_INVERSE, 2) == 1 && High(X_INVERSE) != 0 && High(1) == 0
  {
    XtimeOfInverse();
    MulXtime(1, X_INVERSE);
    MulOneLeft(X_INVERSE);
    MulComm(2, X_INVERSE);
  }

  lemma XtimeOfInverse()
    ensures Xtime(X_INVERSE) == 1 && Xtime(1) == 2
    ensures High(X_INVERSE) != 0 && High(1) == 0
  {}

  /** A slice of zeros but for one word, which ends at `chunk`. */
  function OneWord(chunk: nat, size: nat): (r: Bytes)
    requires chunk % 2 == 1 && chunk < size
    ensures |r| == size
  {
    Zeros(size)[chunk - 1 := Low(X_INVERSE)][chunk := High(X_INVERSE)]
  }

  lemma FirstBase()
    ensures Base(0) == 2 && Coefficient(Base(0), 1) == 2
  {
    hide Mul, Shift;
    FirstBaseLogs();
    assert XPow(1) == 2 by { XIsTwo(); }
    assert Pow(2, 0) == 1;
    MulOneRight(2);
    MulOneLeft(2);
  }

  lemma XIsTwo()
    ensures XPow(1) == 2
  {
    XtimeOfInverse();
    assert Shift(1, 0) == 1;
  }

  function Damaged(chunk: nat, size: nat): (s: System)
    requires chunk % 2 == 1 && chunk < size
  {
    var lost := OneWord(chunk, size);
    System([Base(0)], [Recovery(1, RecoveryBlock([Base(0)], 1, [lost], size))], [0], [], [], size)
  }

  lemma DamagedComes(chunk: nat, size: nat)
    requires chunk % 2 == 1 && chunk < size
    ensures var s := Damaged(chunk, size);
      ComesFrom(s, [OneWord(chunk, size)]) && StandardBases(s.bases) && s.size == size && s.Valid()
  {
    hide RecoveryBlock, Base, OneWord;
    var s := Damaged(chunk, size);
    assert FieldExponent(s.recs[0]) == 1;
    assert s.missing + s.keys == [0];
  }

  /** The recovery slice is zero from the end of the first chunk on. */
  lemma RecoveryOfOneWord(chunk: nat, size: nat)
    requires chunk % 2 == 1 && chunk < size
    ensures forall i :: chunk <= i < size ==> Damaged(chunk, size).recs[0].data[i] == 0
  {
    hide Mul, Word, Low, High, Base, XorByte, LowWord, XPow, BaseLog;
    FirstBase();
    var lost := OneWord(chunk, size);
    var data := Damaged(chunk, size).recs[0].data;
    assert data == Scale(2, lost) by {
      CombinationOfOne([2], [lost], size);
      assert Coefficients([Base(0)], 1) == [2];
    }
    InverseOfX();
    WordRoundTrip(X_INVERSE);
    CarryIntoHighByte();
    MulZeroRight(2);
    forall i | chunk <= i < size
      ensures data[i] == 0
    {}
  }

  lemma CombinationOfOne(coeffs: Vector, slices: seq<Bytes>, size: nat)
    requires |coeffs| == |slices| == 1 && |slices[0]| == size
    ensures Combination(Zeros(size), coeffs, slices, 1) == Scale(coeffs[0], slices[0])
  {
    hide Scale, Plus, Zeros;
    assert slices[0][..size] == slices[0];
    CombinationStart(Zeros(size), coeffs, slices);
    PlusZeros(Scale(coeffs[0], slices[0]));
  }

  /** Nothing is present, so nothing is read. */
  function NothingPresent(chunk: nat, size: nat): Plan { Plan(size, chunk, 1, [], map[]) }

  lemma DamagedSolved(chunk: nat, size: nat)
    requires chunk % 2 == 1 && chunk < size
    ensures Damaged(chunk, size).Valid() && SolvingRows(Damaged(chunk, size), [[X_INVERSE]], [[]])
  {
    hide RecoveryBlock, Base, OneWord, Mul, Add;
    DamagedComes(chunk, size);
    FirstBase();
    InverseOfX();
    var s := Damaged(chunk, size);
    var m := s.Matrix();
    assert m[0][0] == 2;
    forall v: Vector, b: Vector | |v| == |b| == 1
      ensures Solves(m, v, b) <==> Solves([[X_INVERSE]], b, v)
    {
      OneUnknown(m, v);
      OneUnknown([[X_INVERSE]], b);
      MulAssoc(X_INVERSE, 2, v[0]);
      MulAssoc(2, X_INVERSE, b[0]);
      MulOneLeft(v[0]);
      MulOneLeft(b[0]);
    }
  }

  lemma OneUnknown(m: Matrix, v: Vector)
    requires |m| == 1 && Rectangular(m, 1) && |v| == 1
    ensures Dot(m[0], v, 1) == Mul(m[0][0], v[0])
  {
    hide Add, Mul;
    assert Dot(m[0], v, 0) == 0;
    AddUnit(Mul(m[0][0], v[0]));
  }

  /** The second chunk of the output is zero when that of the only recovery slice is. */
  lemma SecondChunkZero(size: nat, chunk: nat, c: Elem, data: Bytes)
    requires 0 < chunk < size <= |data| && forall i :: chunk <= i < size ==> data[i] == 0
    ensures NothingPresent(chunk, size).Valid()
    ensures var p := NothingPresent(chunk, size);
      var row := ServedRow(p, p.Count(), [c], [data], [], []);
      chunk < |row| && row[chunk] == 0
  {
    hide RowSum, KernelSum, ServedRow, ChunkCount, ChunkEnd, ChunksOf, ServedSlices;
    var p := NothingPresent(chunk, size);
    SeveralChunks(chunk, size);
    ChunkStarts(p, 1);
    ServedRowAt(p, p.Count(), 1, 0, [c], [data], [], []);
    var len := p.Length(1);
    var part := data[chunk..chunk + len];
    assert ChunksOf([data], chunk, len) == [part];
    assert ServedSlices(p, 1, []) == [];
    KernelSumOfFull(len, [c], [part], [], []);
    RowOfZeros(c, part, len);
  }

  lemma RowOfZeros(c: Elem, part: Bytes, len: nat)
    requires |part| == len && forall i :: 0 <= i < len ==> part[i] == 0
    ensures RowSum(len, [c], [part], [], []) == Zeros(len)
  {
    hide Scale, Combination;
    assert part == Zeros(len);
    CombinationOfOne([c], [part], len);
    ScaleOfZeros(c, len);
    CombinationStart(Zeros(len), [], []);
  }

  ghost function DamagedOutput(chunk: nat, size: nat): (out: seq<Bytes>)
    requires chunk % 2 == 1 && chunk < size
  {
    var p := NothingPresent(chunk, size);
    [ServedRow(p, p.Count(), [X_INVERSE], [Damaged(chunk, size).recs[0].data], [], [])]
  }

  lemma SeveralChunks(chunk: nat, size: nat)
    requires 0 < chunk < size
    ensures ChunkCount(size, chunk) >= 2
  {
    assert 0 * chunk == 0 && 1 * chunk == chunk;
    CountedChunks(chunk, size);
  }

  /**
   * The slice had one word, x to the minus one, which the recovery slice with exponent one holds as the word one.
   * When the first chunk ends within that word, the high byte does not come back.
   */
  lemma HighByteLost(chunk: nat, size: nat)
    requires chunk % 2 == 1 && chunk < size
    ensures Lost(Damaged(chunk, size), [OneWord(chunk, size)], chunk, size, NothingPresent(chunk, size),
                 DamagedOutput(chunk, size))
    ensures !SameAsLost(Damaged(chunk, size), [OneWord(chunk, size)], DamagedOutput(chunk, size))
  {
    hide Base, RecoveryBlock, ServedRow, SolvingRows, ComesFrom, ChunkCount;
    var (s, p, out) := (Damaged(chunk, size), NothingPresent(chunk, size), DamagedOutput(chunk, size));
    DamagedComes(chunk, size);
    DamagedSolved(chunk, size);
    assert RecoveryData(s.recs, 1) == [s.recs[0].data];
    assert ServedOutputs(s, p, p.Count(), [[X_INVERSE]], [[]], out);
    assert ServedResult(s, p, out);
    RecoveryOfOneWord(chunk, size);
    SecondChunkZero(size, chunk, X_INVERSE, s.recs[0].data);
    InverseOfX();
    assert out[0][chunk] == 0 && OneWord(chunk, size)[chunk] != 0;
    assert Gather([OneWord(chunk, size)], s.missing)[0] == OneWord(chunk, size);
  }

  // ----- chunks that keep words whole: one slice lost, and one present that ends a byte into its second chunk

  /** The inverse of x^2. */
  const X_SQUARED_INVERSE: Elem := 0xCC07

  lemma InverseOfXSquared()
    ensures Mul(4, X_SQUARED_INVERSE) == 1 && Mul(X_SQUARED_INVERSE, 4) == 1
    ensures Mul(X_SQUARED_INVERSE, 2) == X_INVERSE && X_INVERSE != 0 && X_INVERSE != 1
  {
    hide Mul, Xtime;
    XtimeOfSquare();
    MulOneLeft(X_SQUARED_INVERSE);
    MulXtime(1, X_SQUARED_INVERSE);
    MulXtime(2, X_SQUARED_INVERSE);
    MulComm(4, X_SQUARED_INVERSE);
    MulComm(2, X_SQUARED_INVERSE);
  }

  lemma XtimeOfSquare()
    ensures Xtime(X_SQUARED_INVERSE) == X_INVERSE && Xtime(X_INVERSE) == 1 && Xtime(1) == 2 && Xtime(2) == 4
    ensures X_INVERSE != 0 && X_INVERSE != 1
  {}

  lemma SecondBase()
    ensures Base(1) == 4 && Coefficient(Base(1), 1) == 4
  {
    hide Mul, Shift, NextUsable;
    SecondBaseLog();
    assert XPow(2) == 4 by { XSquaredIsFour(); }
    assert Pow(4, 0) == 1;
    MulOneRight(4);
    MulOneLeft(4);
  }

  lemma SecondBaseLog()
    ensures BaseLog(1) == 2
  {
    assert NextUsable(0) == NextUsable(1) == 1;
  }

  lemma XSquaredIsFour()
    ensures XPow(2) == 4
  {
    XtimeOfSquare();
    assert Shift(1, 0) == 1;
    assert Shift(1, 1) == 2;
  }

  /** Slice 0 is present, slice 1 is lost, and the recovery slice with exponent one is left. */
  function ShortNeighbour(size: nat): System {
    System([Base(0), Base(1)], [Recovery(1, Zeros(size))], [1], [0], [Zeros(size)], size)
  }

  /** Of slice 0 there is one byte more than a chunk. */
  function OneByteMore(chunk: nat, size: nat): Plan { Plan(size, chunk, 2, [0], map[0 := chunk + 1]) }

  lemma ShortNeighbourValid(chunk: nat, size: nat)
    requires 0 < chunk < size
    ensures ShortNeighbour(size).Valid() && Complete(ShortNeighbour(size)) && StandardBases(ShortNeighbour(size).bases)
    ensures PlanFits(OneByteMore(chunk, size), ShortNeighbour(size))
  {
    hide Base, Zeros;
    assert ShortNeighbour(size).missing + ShortNeighbour(size).keys == [1, 0];
  }

  lemma ShortNeighbourMatrix(size: nat)
    requires ShortNeighbour(size).Valid()
    ensures ShortNeighbour(size).Matrix() == [[4]]
    ensures var s := ShortNeighbour(size); PresentMatrix(s.bases, s.recs, s.keys, 1) == [[2]]
  {
    hide Base, Coefficient, Zeros;
    var s := ShortNeighbour(size);
    FirstBase();
    SecondBase();
    assert FieldExponent(s.recs[0]) == 1;
    assert s.Matrix()[0] == [4];
    assert PresentMatrix(s.bases, s.recs, s.keys, 1)[0] == [2];
  }

  lemma ShortNeighbourSolved(chunk: nat, size: nat)
    requires 0 < chunk < size
    ensures ShortNeighbour(size).Valid()
    ensures SolvingRows(ShortNeighbour(size), [[X_SQUARED_INVERSE]], [[X_INVERSE]])
  {
    hide Base, Mul, Add, Zeros, Dot, Inverts, CoefficientMatrix, PresentMatrix;
    ShortNeighbourValid(chunk, size);
    ShortNeighbourMatrix(size);
    InverseOfXSquared();
    OneUnknownSolved([[4]], [[X_SQUARED_INVERSE]]);
    assert Column([[2]], 0, 1) == [2];
    OneUnknown([[X_SQUARED_INVERSE]], [2]);
  }

  /** One equation with a coefficient and its inverse. */
  lemma OneUnknownSolved(m: Matrix, r: Matrix)
    requires |m| == |r| == 1 && Rectangular(m, 1) && Rectangular(r, 1)
    requires Mul(m[0][0], r[0][0]) == 1 && Mul(r[0][0], m[0][0]) == 1
    ensures Inverts(m, r, 1)
  {
    hide Mul, Add, Dot;
    forall v: Vector, b: Vector | |v| == |b| == 1
      ensures Solves(m, v, b) <==> Solves(r, b, v)
    {
      OneUnknown(m, v);
      OneUnknown(r, b);
      MulAssoc(r[0][0], m[0][0], v[0]);
      MulAssoc(m[0][0], r[0][0], b[0]);
      MulOneLeft(v[0]);
      MulOneLeft(b[0]);
    }
  }

  /** What is read ahead beyond the data changes nothing. */
  lemma {:induction false} ReadAheadOnce(c: Cache, g: nat, start: nat, size: nat, actual: nat, most: nat, n: nat)
    requires most > 0 && n > 0 && actual <= start + size
    ensures ReadAhead(c, g, start, size, actual, most, n) == ReadAhead(c, g, start, size, actual, most, 1)
  {
    hide Inserted;
    if n > 1 {
      ReadAheadOnce(c, g, start, size, actual, most, n - 1);
      NonnegativeOffset(n - 2, size);
      BeyondStart(n, size);
    }
  }

  lemma BeyondStart(n: nat, size: nat)
    requires n > 1
    ensures (n - 1) * size >= size
  {
    NonnegativeOffset(n - 2, size);
    assert (n - 1) * size == (n - 2) * size + size;
  }

  /** The byte in the second chunk was read ahead with the first, and arrives alone. */
  lemma ByteArrivesAlone(chunk: nat, size: nat)
    requires 0 < chunk && chunk + 2 <= size && chunk % 2 == 0
    ensures OneByteMore(chunk, size).Valid() && 1 < OneByteMore(chunk, size).Count()
    ensures CutsWord(OneByteMore(chunk, size), 1, 0)
  {
    hide ChunkEnd, ChunkCount, AfterRead;
    var p := OneByteMore(chunk, size);
    SeveralChunks(chunk, size);
    ChunkStarts(p, 0);
    ChunkStarts(p, 1);
    FirstRead(chunk, size);
    NoCacheYet(p);
    NextRead(p, 0, 0);
    NextChunk(p, 0);
    SecondRead(CacheAt(p, 1, 0), chunk, size, p.Length(1));
  }

  lemma NoCacheYet(p: Plan)
    requires p.Valid()
    ensures CacheAt(p, 0, 0) == Cache(map[], map[], 0)
  {}

  lemma FirstRead(chunk: nat, size: nat)
    requires 0 < chunk && chunk + 2 <= size
    ensures var c := AfterRead(Cache(map[], map[], 0), 0, 0, chunk, chunk + 1, size).0;
      (0, chunk) in c.lengths && c.lengths[(0, chunk)] == 1
  {
    hide ReadAhead;
    var most := MaxCached(size);
    var c := Inserted(Cache(map[], map[], 0), (0, 0), chunk, most);
    assert c.lengths == map[(0, 0) := chunk];
    assert |c.lengths| == 1;
    ReadAheadOnce(c, 0, chunk, chunk, chunk + 1, most, Ahead(chunk));
    ReadAheadFirst(c, chunk, most);
  }

  lemma ReadAheadFirst(c: Cache, chunk: nat, most: nat)
    requires most > 0 && chunk > 0 && (0, chunk) !in c.lengths
    ensures var c' := ReadAhead(c, 0, chunk, chunk, chunk + 1, most, 1);
      (0, chunk) in c'.lengths && c'.lengths[(0, chunk)] == 1
  {
    assert ReadAhead(c, 0, chunk, chunk, chunk + 1, most, 0) == c;
    assert 0 * chunk == 0;
  }

  lemma SecondRead(c: Cache, chunk: nat, size: nat, len: nat)
    requires chunk < size && (0, chunk) in c.lengths
    ensures AfterRead(c, 0, chunk, len, chunk + 1, size).1 == c.lengths[(0, chunk)]
  {}

  /** With that, some content of the present slice keeps the lost one from coming back. */
  lemma ShortSliceSpoils(chunk: nat, size: nat) returns (s: System, original: seq<Bytes>, out: seq<Bytes>)
    requires 0 < chunk < size && chunk % 2 == 0 && size % 2 == 0
    ensures Lost(s, original, chunk, size, OneByteMore(chunk, size), out) && !SameAsLost(s, original, out)
  {
    hide SolvingRows, Complete, CutsWord, ChunkCount, StandardBases;
    var (shape, p) := (ShortNeighbour(size), OneByteMore(chunk, size));
    ShortNeighbourValid(chunk, size);
    ShortNeighbourSolved(chunk, size);
    ByteArrivesAlone(chunk, size);
    InverseOfXSquared();
    s, original, out := HarmShows(shape, p, [[X_SQUARED_INVERSE]], [[X_INVERSE]], 0, 1, 0);
  }

  // ----- exactly when

  /** For slices of even length, what was lost always comes back exactly when one chunk covers a slice. */
  lemma ChunksRepairExactly(chunk: nat, size: nat)
    requires chunk > 0 && size % 2 == 0
    ensures ChunksRepair(chunk, size) <==> size <= chunk
  {
    hide Lost, SameAsLost, Damaged, DamagedOutput, OneWord;
    if size <= chunk {
      forall s: System, original, p: Plan, out | Lost(s, original, chunk, size, p, out)
        ensures SameAsLost(s, original, out)
      {
        LostValid(s, original, chunk, size, p, out);
        UncutRepaired(s, original, chunk, size, p, out);
      }
    } else if chunk % 2 == 1 {
      HighByteLost(chunk, size);
    } else {
      var s, original, out := ShortSliceSpoils(chunk, size);
    }
  }

  /** Where files hold an even number of bytes of every present slice, exactly when chunks keep words whole. */
  lemma EvenSlicesRepairExactly(chunk: nat, size: nat)
    requires chunk > 0 && size % 2 == 0
    ensures EvenSlicesRepair(chunk, size) <==> KeepsWords(chunk, size)
  {
    hide Lost, SameAsLost, Damaged, DamagedOutput, OneWord;
    if KeepsWords(chunk, size) {
      forall s: System, original, p: Plan, out | Lost(s, original, chunk, size, p, out) && EvenLengths(p)
        ensures SameAsLost(s, original, out)
      {
        LostValid(s, original, chunk, size, p, out);
        UncutRepaired(s, original, chunk, size, p, out);
      }
    } else {
      HighByteLost(chunk, size);
    }
  }

  /**
   * With the chunk size repair computes, what was lost always comes back exactly when the memory limit, if there is
   * one, is at least a slice. Where files hold an even number of bytes of every present slice, it is enough that the
   * limit does not split words.
   */
  lemma RepairRightExactly(sliceSize: nat, memoryLimit: Option<nat>)
    requires sliceSize % 4 == 0 && CalculateRepairChunkSize(sliceSize, memoryLimit).ChunkSize?
    ensures var chunk := EffectiveChunk(CalculateRepairChunkSize(sliceSize, memoryLimit).bytes);
      && (ChunksRepair(chunk, sliceSize) <==> memoryLimit.None? || sliceSize <= memoryLimit.value)
      && (EvenSlicesRepair(chunk, sliceSize) <==> !SplittingLimit(sliceSize, memoryLimit))
  {
    hide ChunksRepair, EvenSlicesRepair, KeepsWords, SplittingLimit;
    FourIsEven(sliceSize);
    RepairChunkSizeKeepsWords(sliceSize, memoryLimit);
    ChunkCovers(sliceSize, memoryLimit);
    ChunksRepairExactly(EffectiveChunk(CalculateRepairChunkSize(sliceSize, memoryLimit).bytes), sliceSize);
    EvenSlicesRepairExactly(EffectiveChunk(CalculateRepairChunkSize(sliceSize, memoryLimit).bytes), sliceSize);
  }

  lemma ChunkCovers(sliceSize: nat, memoryLimit: Option<nat>)
    requires sliceSize % 4 == 0 && CalculateRepairChunkSize(sliceSize, memoryLimit).ChunkSize?
    ensures sliceSize <= EffectiveChunk(CalculateRepairChunkSize(sliceSize, memoryLimit).bytes)
      <==> memoryLimit.None? || sliceSize <= memoryLimit.value
  {}

  lemma FourIsEven(n: nat)
    requires n % 4 == 0
    ensures n % 2 == 0
  {
    assert n == 2 * (2 * (n / 4));
  }
}
