/** Repair from beginning to end: recovery slices, provider, chunked reconstruction, and the file that is written. */
module RepairRun {
  import opened GaloisTable
  import opened Bases
  import opened GaussJordan
  import opened SliceKernel
  import opened Encoder
  import opened RecoveryEquations
  import opened Contributions
  import opened Reconstruction
  import opened ErasureCode
  import opened Recoverability
  import opened Chunks
  import opened CreateBackend
  import opened SourceBlocks
  import opened SliceProvider
  import opened ServedChunks
  import opened ChunkedReconstruction
  import opened RouteAgreement
  import opened RepairChunkSize
  import opened Divisors
  import opened RepairAssembly

  /** Every byte of file `f` is in a missing slice, or can be read, unharmed, from what is left of the file. */
  ghost predicate Recoverable(files: seq<Bytes>, blockSize: nat, f: nat, s: Sources, missing: seq<nat>)
    requires blockSize > 0 && f < |files|
  {
    forall x :: 0 <= x < |files[f]| ==>
      Offset(files, blockSize, f) + x / blockSize in missing || ReadFrom(s, blockSize, x, files[f][x])
  }

  /** The recovery slices that are left, in the order in which they are found. */
  function Loaded(created: seq<RecoveryBlockData>, kept: seq<nat>): (r: seq<Recovery>)
    requires forall i :: 0 <= i < |kept| ==> kept[i] < |created|
    ensures |r| == |kept|
    ensures forall i :: 0 <= i < |kept| ==> r[i] == Recovery(created[kept[i]].exponent, created[kept[i]].data)
  {
    seq(|kept|, i requires 0 <= i < |kept| => Recovery(created[kept[i]].exponent, created[kept[i]].data))
  }

  /** The recovery data a provider finds under each exponent. */
  function Store(created: seq<RecoveryBlockData>): (r: map<nat, Bytes>)
    requires forall i, j :: 0 <= i < j < |created| ==> created[i].exponent != created[j].exponent
    ensures forall i :: 0 <= i < |created| ==> created[i].exponent in r && r[created[i].exponent] == created[i].data
  {
    if created == [] then map[]
    else
      var last := created[|created| - 1];
      Store(created[..|created| - 1])[last.exponent := last.data]
  }

  /** The reconstructed slices of one file, under local indices. */
  function LocalSlices(slices: map<nat, Bytes>, info: FileInfo): (r: map<nat, Bytes>)
    ensures forall i: nat :: i in r <==> i < info.sliceCount && info.LocalToGlobal(i) in slices
    ensures forall i: nat :: i in r ==> r[i] == slices[info.LocalToGlobal(i)]
  {
    map i: nat | i < info.sliceCount && info.LocalToGlobal(i) in slices :: slices[info.LocalToGlobal(i)]
  }

  function InfoOf(files: seq<Bytes>, blockSize: nat, f: nat): FileInfo
    requires blockSize > 0 && f < |files|
  {
    FileInfo(|files[f]|, BlockCount(|files[f]|, blockSize), Offset(files, blockSize, f))
  }

  /** The reconstructed and the readable slices together make up the mended file. */
  lemma SlicesGenuine(files: seq<Bytes>, blockSize: nat, f: nat, s: Sources, missing: seq<nat>, slices: map<nat, Bytes>)
    requires blockSize > 0 && f < |files| && Recoverable(files, blockSize, f, s, missing)
    requires slices.Keys == set c | 0 <= c < |missing| :: missing[c]
    requires forall g :: g in slices ==> |slices[g]| == blockSize
    requires s.reconstructed == LocalSlices(slices, InfoOf(files, blockSize, f))
    ensures Genuine(s, Mended(files[f], Offset(files, blockSize, f), blockSize, slices), blockSize)
  {
    hide BlockCount, PaddedBlock, ReadFrom, AllBlocks, Offset, LocalSlices;
    var (file, info) := (files[f], InfoOf(files, blockSize, f));
    var mended := Mended(file, info.offset, blockSize, slices);
    forall x | 0 <= x < |mended|
      ensures TakenFrom(s, blockSize, x, mended[x])
    {
      var i := x / blockSize;
      BlockOfByte(file, blockSize, x);
      if info.LocalToGlobal(i) in missing {
        var c :| 0 <= c < |missing| && missing[c] == info.LocalToGlobal(i);
        assert s.reconstructed[i] == slices[missing[c]];
      } else {
        assert i !in s.reconstructed;
      }
    }
  }

  /** The right slices make up the original file. */
  lemma MendedIsOriginal(files: seq<Bytes>, blockSize: nat, f: nat, missing: seq<nat>, slices: map<nat, Bytes>)
    requires blockSize > 0 && f < |files| && slices.Keys == set c | 0 <= c < |missing| :: missing[c]
    requires forall g :: g in slices ==> |slices[g]| == blockSize
    requires var all := AllBlocks(files, blockSize, |files|);
      forall c :: 0 <= c < |missing| ==> missing[c] < |all| && slices[missing[c]] == all[missing[c]]
    ensures Mended(files[f], Offset(files, blockSize, f), blockSize, slices) == files[f]
  {
    hide BlockCount, PaddedBlock, AllBlocks, Offset;
    var (file, offset) := (files[f], Offset(files, blockSize, f));
    var mended := Mended(file, offset, blockSize, slices);
    forall x | 0 <= x < |file|
      ensures mended[x] == file[x]
    {
      var i := x / blockSize;
      BlockOfByte(file, blockSize, x);
      BlockAt(files, blockSize, f, i, |files|);
      if offset + i in missing {
        var c :| 0 <= c < |missing| && missing[c] == offset + i;
        assert slices[missing[c]] == PaddedBlock(file, i, blockSize);
      }
    }
  }

  lemma BlockOfByte(file: Bytes, blockSize: nat, x: nat)
    requires blockSize > 0 && x < |file|
    ensures 0 <= x / blockSize < BlockCount(|file|, blockSize)
    ensures PaddedBlock(file, x / blockSize, blockSize)[x % blockSize] == file[x]
  {
    hide BlockCount;
    var i := x / blockSize;
    DivisionParts(x, blockSize);
    BlockIndices(|file|, blockSize, i);
  }

  datatype RepairOutcome =
    | InsufficientRecovery
    | BadLimit(reason: ChunkSizeResult)
    | ReconstructionFailed(error: MatrixError)
    | Finished(result: WriteResult)

  /** The bases of the first `total` slices, as they are made. */
  function BasesOf(total: nat): (r: seq<bv16>)
    ensures |r| == total && forall i :: 0 <= i < total ==> r[i] == CutBase(i)
  {
    seq(total, i requires 0 <= i < total => CutBase(i))
  }

  /** Recovery slices for the kept exponents, counted from `first`; the matrix does not depend on their data. */
  function KeptExponents(first: nat, kept: seq<nat>): (r: seq<Recovery>)
    ensures |r| == |kept| && forall i :: 0 <= i < |kept| ==> r[i] == Recovery(first + kept[i], [])
  {
    seq(|kept|, i requires 0 <= i < |kept| => Recovery(first + kept[i], []))
  }

  /** The recovery slices that are used determine the missing slices. */
  ghost predicate Determined(total: nat, first: nat, kept: seq<nat>, missing: seq<nat>)
    requires |missing| <= |kept| && forall c :: 0 <= c < |missing| ==> missing[c] < total
  {
    Nonsingular(CoefficientMatrix(BasesOf(total), KeptExponents(first, kept), missing))
  }

  lemma SameMatrix(bases: seq<bv16>, first: nat, created: seq<RecoveryBlockData>, kept: seq<nat>, missing: seq<nat>)
    requires bases == BasesOf(|bases|) && forall i :: 0 <= i < |created| ==> created[i].exponent == first + i
    requires forall i :: 0 <= i < |kept| ==> kept[i] < |created|
    requires |missing| <= |kept| && forall c :: 0 <= c < |missing| ==> missing[c] < |bases|
    ensures CoefficientMatrix(bases, Loaded(created, kept), missing)
      == CoefficientMatrix(BasesOf(|bases|), KeptExponents(first, kept), missing)
  {
    hide CutBase, Coefficient;
    var recs, recs' := Loaded(created, kept), KeptExponents(first, kept);
    assert forall i :: 0 <= i < |kept| ==> FieldExponent(recs[i]) == FieldExponent(recs'[i]);
    forall e | 0 <= e < |missing|
      ensures CoefficientMatrix(bases, recs, missing)[e] == CoefficientMatrix(bases, recs', missing)[e]
    {
      assert forall c :: 0 <= c < |missing| ==>
        CoefficientMatrix(bases, recs, missing)[e][c] == CoefficientMatrix(bases, recs', missing)[e][c];
    }
  }

  /** Recovery slices with consecutive exponents always do. */
  lemma ConsecutiveDetermined(total: nat, first: nat, kept: seq<nat>, missing: seq<nat>, keys: seq<nat>)
    requires total <= 32768 && Partition(missing, keys, total) && |missing| <= |kept|
    requires forall i :: 0 < i < |missing| ==> kept[i] == kept[i - 1] + 1
    requires forall i :: 0 <= i < |kept| ==> first + kept[i] < COUNT
    ensures Determined(total, first, kept, missing)
  {
    hide Nonsingular, Base, CutBase;
    forall g | 0 <= g < total
      ensures BasesOf(total)[g] == Base(g)
    {
      CutBaseIs(g);
    }
    var start := if missing == [] then 0 else first + kept[0];
    PartitionParts(missing, keys, total);
    forall i | 0 <= i < |missing|
      ensures first + kept[i] == start + i
    {
      StepByStep(kept, |missing|, i);
    }
    var recs := KeptExponents(first, kept);
    if missing != [] {
      assert first + kept[|missing| - 1] == start + (|missing| - 1);
    }
    ConsecutiveExponents(recs, |missing|, start);
    ConsecutiveRecoverable(System(BasesOf(total), recs, missing, [], [], 0), start);
  }

  lemma {:induction false} StepByStep(kept: seq<nat>, n: nat, i: nat)
    requires n <= |kept| && i < n && forall i :: 0 < i < n ==> kept[i] == kept[i - 1] + 1
    ensures kept[i] == kept[0] + i
  {
    if i > 0 {
      StepByStep(kept, n, i - 1);
    }
  }

  /** The recovery blocks are those of `blocks` for the exponents from `first` on. */
  ghost predicate RecoveryOf(created: seq<RecoveryBlockData>, bases: seq<bv16>, first: nat, blocks: seq<Bytes>,
                             size: nat)
    requires |blocks| == |bases| && forall g :: 0 <= g < |blocks| ==> |blocks[g]| == size
  {
    forall i :: 0 <= i < |created| ==>
      created[i].exponent == first + i && created[i].data == RecoveryBlock(bases, first + i, blocks, size)
  }

  lemma CountUp(created: seq<RecoveryBlockData>, bases: seq<bv16>, first: nat, blocks: seq<Bytes>, size: nat)
    requires |blocks| == |bases| && forall g :: 0 <= g < |blocks| ==> |blocks[g]| == size
    requires RecoveryOf(created, bases, first, blocks, size)
    ensures forall i :: 0 <= i < |created| ==> created[i].exponent == first + i
  {
    hide RecoveryBlock;
  }

  /** What the provider finds of the present slices is what was encoded, but for zeros at the end. */
  ghost predicate FoundTrue(found: map<nat, Bytes>, keys: seq<nat>, blocks: seq<Bytes>, size: nat) {
    && (forall g :: g in found <==> g in keys)
    && (forall g :: g in found ==> g < |blocks| && |found[g]| <= size && Fitted(found[g], size) == blocks[g])
  }

  /**
   * What repair is asked to do: `s` is what is left of file `f`, whose slices are all missing or readable; `found` is
   * what the files hold of the slices that are not missing.
   */
  ghost predicate RepairAsked(files: seq<Bytes>, blockSize: nat, first: nat, count: nat, f: nat, s: Sources,
                              missing: seq<nat>, keys: seq<nat>, kept: seq<nat>, found: map<nat, Bytes>)
    requires blockSize > 0
  {
    && first + count <= COUNT
    && Partition(missing, keys, Offset(files, blockSize, |files|))
    && (forall i :: 0 <= i < |kept| ==> kept[i] < count)
    && f < |files| && Recoverable(files, blockSize, f, s, missing)
    && FoundTrue(found, keys, AllBlocks(files, blockSize, |files|), blockSize)
  }

  lemma AskedMeans(files: seq<Bytes>, blockSize: nat, first: nat, count: nat, f: nat, s: Sources, missing: seq<nat>,
                   keys: seq<nat>, kept: seq<nat>, found: map<nat, Bytes>)
    requires blockSize > 0 && RepairAsked(files, blockSize, first, count, f, s, missing, keys, kept, found)
    ensures first + count <= COUNT && f < |files|
    ensures Partition(missing, keys, Offset(files, blockSize, |files|))
    ensures forall c :: 0 <= c < |missing| ==> missing[c] < Offset(files, blockSize, |files|)
    ensures forall c :: 0 <= c < |keys| ==> keys[c] < Offset(files, blockSize, |files|)
    ensures forall i :: 0 <= i < |kept| ==> kept[i] < count
    ensures Recoverable(files, blockSize, f, s, missing)
    ensures FoundTrue(found, keys, AllBlocks(files, blockSize, |files|), blockSize)
  {
    hide Recoverable, Offset, FoundTrue, AllBlocks;
  }

  /**
   * The memory limit is harmless: it splits no words, and it is at least a slice, or the files hold no odd number of
   * bytes above one chunk of any slice.
   */
  predicate HarmlessLimit(found: map<nat, Bytes>, blockSize: nat, memoryLimit: Option<nat>) {
    var size := CalculateRepairChunkSize(blockSize, memoryLimit);
    && size.ChunkSize? && !SplittingLimit(blockSize, memoryLimit)
    && var chunk := EffectiveChunk(size.bytes);
      blockSize <= chunk || forall g :: g in found ==> |found[g]| <= chunk || |found[g]| % 2 == 0
  }

  /** The file as it was, with the verdict on the MD5 that is expected. */
  function InPlaceAs(file: Bytes, md5: PacketFormats.Md5, expected: PacketFormats.Hash): WriteResult {
    if md5(file) == expected then Repaired(file) else Md5Mismatch(file)
  }

  /** The file with reconstructed slices in place of those that were missing. */
  function Mended(file: Bytes, offset: nat, blockSize: nat, slices: map<nat, Bytes>): (r: Bytes)
    requires blockSize > 0 && forall g :: g in slices ==> |slices[g]| == blockSize
    ensures |r| == |file|
    ensures forall x :: 0 <= x < |file| ==>
      r[x] == if offset + x / blockSize in slices then slices[offset + x / blockSize][x % blockSize] else file[x]
  {
    seq(|file|, x requires 0 <= x < |file| =>
      if offset + x / blockSize in slices then slices[offset + x / blockSize][x % blockSize] else file[x])
  }

  /** The recovery slices that are left of those that were created. */
  function KeptRecoveries(bases: seq<bv16>, first: nat, kept: seq<nat>, blocks: seq<Bytes>, size: nat):
      (r: seq<Recovery>)
    requires |blocks| == |bases| && forall g :: 0 <= g < |blocks| ==> |blocks[g]| == size
    ensures |r| == |kept|
    ensures forall i :: 0 <= i < |kept| ==>
      r[i] == Recovery(first + kept[i], RecoveryBlock(bases, first + kept[i], blocks, size))
  {
    seq(|kept|, i requires 0 <= i < |kept| =>
      Recovery(first + kept[i], RecoveryBlock(bases, first + kept[i], blocks, size)))
  }

  /** What the chunked route makes of the missing slices, from what arrives of the present ones. */
  ghost predicate ChunkedFrom(bases: seq<bv16>, recs: seq<Recovery>, blockSize: nat, missing: seq<nat>, keys: seq<nat>,
                              found: map<nat, Bytes>, chunk: nat, out: seq<Bytes>)
  {
    && (forall i :: 0 <= i < |keys| ==> keys[i] in found)
    && var s := System(bases, recs, missing, keys, PresentSlices(found, keys, |bases|, blockSize), blockSize);
       var p := Plan(blockSize, chunk, |bases|, keys, map g | g in found :: |found[g]|);
       s.Valid() && PlanFits(p, s) && ServedResult(s, p, out)
  }

  /** The slices are those the chunked route makes, in the chunks that the memory limit asks for. */
  ghost predicate MadeInChunks(files: seq<Bytes>, blockSize: nat, first: nat, missing: seq<nat>, keys: seq<nat>,
                               kept: seq<nat>, found: map<nat, Bytes>, memoryLimit: Option<nat>,
                               slices: map<nat, Bytes>)
    requires blockSize > 0
  {
    var (blocks, size) := (AllBlocks(files, blockSize, |files|), CalculateRepairChunkSize(blockSize, memoryLimit));
    && slices.Keys == (set c | 0 <= c < |missing| :: missing[c])
    && (forall g :: g in slices ==> |slices[g]| == blockSize)
    && (missing != [] ==>
         size.ChunkSize?
         && ChunkedFrom(BasesOf(|blocks|), KeptRecoveries(BasesOf(|blocks|), first, kept, blocks, blockSize), blockSize,
                        missing, keys, found, EffectiveChunk(size.bytes), Collected(slices, missing)))
  }

  /**
   * What repair promises. It fails for too few recovery slices, for a memory limit it refuses, and for slices that are
   * not determined. Otherwise it puts the file in place with what the chunked route makes of the missing slices, and
   * under a harmless memory limit that is the original file.
   */
  ghost predicate RepairedRight(files: seq<Bytes>, blockSize: nat, first: nat, f: nat, missing: seq<nat>,
                                keys: seq<nat>, kept: seq<nat>, found: map<nat, Bytes>, memoryLimit: Option<nat>,
                                md5: PacketFormats.Md5, expected: PacketFormats.Hash, r: RepairOutcome)
    requires blockSize > 0 && f < |files| && forall c :: 0 <= c < |missing| ==>
      missing[c] < Offset(files, blockSize, |files|)
  {
    var refused := !CalculateRepairChunkSize(blockSize, memoryLimit).ChunkSize?;
    && (r.InsufficientRecovery? <==> |missing| > |kept|)
    && (r.BadLimit? <==> |missing| <= |kept| && refused)
    && (|missing| <= |kept| && !refused && missing != [] ==>
         (r.Finished? <==> Determined(Offset(files, blockSize, |files|), first, kept, missing)))
    && (missing == [] ==> !r.ReconstructionFailed?)
    && (r.BadLimit? ==> r.reason == CalculateRepairChunkSize(blockSize, memoryLimit))
    && (r.ReconstructionFailed? ==>
         |missing| <= |kept| && r.error.Singular?
         && FirstDependent(CoefficientMatrix(BasesOf(Offset(files, blockSize, |files|)), KeptExponents(first, kept),
                                             missing), r.error.column))
    && (r.Finished? ==> exists slices ::
         && MadeInChunks(files, blockSize, first, missing, keys, kept, found, memoryLimit, slices)
         && r == Finished(InPlaceAs(Mended(files[f], Offset(files, blockSize, f), blockSize, slices), md5, expected)))
    && (r.Finished? && HarmlessLimit(found, blockSize, memoryLimit) ==>
         r == Finished(InPlaceAs(files[f], md5, expected)))
  }

  // ----- reconstruction

  /** What the provider finds makes up the system of the encoded slices. */
  lemma FoundSystem(e: Engine, blocks: seq<Bytes>, missing: seq<nat>, keys: seq<nat>, found: map<nat, Bytes>)
    requires FoundTrue(found, keys, blocks, e.sliceSize) && Partition(missing, keys, |blocks|) && |e.bases| == |blocks|
    requires forall g :: 0 <= g < |blocks| ==> |blocks[g]| == e.sliceSize
    ensures KeyOrder(keys, found)
    ensures forall g :: g in found ==> |found[g]| <= e.sliceSize
    ensures forall i :: 0 <= i < |keys| ==> keys[i] in found && keys[i] < |blocks|
    ensures SystemOf(e, found, missing, keys) == SystemOf(e, Survivors(blocks, keys), missing, keys)
  {
    hide Fitted;
    PartitionParts(missing, keys, |blocks|);
    var (a, b) := (PresentSlices(found, keys, |e.bases|, e.sliceSize),
                   PresentSlices(Survivors(blocks, keys), keys, |e.bases|, e.sliceSize));
    forall i | 0 <= i < |keys|
      ensures a[i] == b[i]
    {
      FullIsFitted(blocks[keys[i]], e.sliceSize);
    }
    assert a == b;
  }

  lemma EncodedMeans(e: Engine, original: seq<Bytes>, n: nat)
    requires EncodedFrom(e, original, n)
    ensures |e.bases| == |original| && forall g :: 0 <= g < |original| ==> |original[g]| == e.sliceSize
  {}

  /** Chunks that keep words whole, and no odd number of bytes above one chunk of any slice. */
  ghost predicate ArrivesWhole(found: map<nat, Bytes>, keys: seq<nat>, total: nat, size: nat, chunk: nat) {
    KeepsWords(chunk, size) && SafeLengths(Plan(size, chunk, total, keys, map g | g in found :: |found[g]|))
  }

  /** Then nothing arrives cut within a word, and what the chunked route makes is what was lost. */
  lemma LostRecovered(e: Engine, blocks: seq<Bytes>, missing: seq<nat>, keys: seq<nat>, found: map<nat, Bytes>,
                      chunk: nat, out: seq<Bytes>)
    requires EncodedFrom(e, blocks, |missing|) && Partition(missing, keys, |blocks|) && e.sliceSize % 2 == 0
    requires ArrivesWhole(found, keys, |blocks|, e.sliceSize, chunk)
    requires FoundTrue(found, keys, blocks, e.sliceSize) && forall i :: 0 <= i < |keys| ==> keys[i] in found
    requires var (p, s) := (PlanOf(e, found, keys, chunk), SystemOf(e, found, missing, keys));
      s.Valid() && PlanFits(p, s) && ZeroBeyond(p, s.present) && ServedResult(s, p, out)
    ensures forall c :: 0 <= c < |missing| ==> missing[c] < |blocks|
    ensures out == Gather(blocks, missing)
  {
    hide EncodedFrom, Partition, ServedResult, KeepsWords, CoefficientMatrix, Nonsingular, System.Satisfied,
      SafeLengths, ZeroBeyond, CutsWord, FoundTrue;
    var p := PlanOf(e, found, keys, chunk);
    EncodedMeans(e, blocks, |missing|);
    FoundSystem(e, blocks, missing, keys, found);
    PartitionBound(missing, keys, |blocks|);
    EncodedSystem(e, blocks, missing, keys);
    forall k, i | 0 <= k < p.Count() && 0 <= i < |p.keys|
      ensures !CutsWord(p, k, i)
    {
      SafeLengthsCutNothing(p, k, i);
    }
    ServedResultSatisfies(SystemOf(e, Survivors(blocks, keys), missing, keys), p, out);
    ErasureRoundTrip(SystemOf(e, Survivors(blocks, keys), missing, keys), blocks, out);
  }

  lemma LoadedEngine(e: Engine, created: seq<RecoveryBlockData>, kept: seq<nat>, first: nat, blocks: seq<Bytes>, n: nat)
    requires e.tables.Valid() && |blocks| == |e.bases| && first + |created| <= COUNT
    requires forall g :: 0 <= g < |blocks| ==> |blocks[g]| == e.sliceSize
    requires RecoveryOf(created, e.bases, first, blocks, e.sliceSize)
    requires (forall i :: 0 <= i < |kept| ==> kept[i] < |created|) && e.recs == Loaded(created, kept) && n <= |kept|
    ensures EncodedFrom(e, blocks, n) && Serves(e, Store(created))
  {
    hide RecoveryBlock, Store;
    forall i | 0 <= i < |kept|
      ensures e.recs[i].data == RecoveryBlock(e.bases, FieldExponent(e.recs[i]), blocks, e.sliceSize)
    {
      KeptExponent(created, e.bases, first, blocks, e.sliceSize, kept[i]);
    }
  }

  lemma KeptExponent(created: seq<RecoveryBlockData>, bases: seq<bv16>, first: nat, blocks: seq<Bytes>, size: nat,
                     i: nat)
    requires |blocks| == |bases| && forall g :: 0 <= g < |blocks| ==> |blocks[g]| == size
    requires RecoveryOf(created, bases, first, blocks, size) && i < |created| && first + |created| <= COUNT
    ensures created[i].exponent % 65536 == created[i].exponent
    ensures created[i].data == RecoveryBlock(bases, created[i].exponent, blocks, size)
  {
    hide RecoveryBlock;
  }

  /** Reconstructs the missing blocks by way of the chunked route, from the recovery blocks that are left. */
  method ReconstructLost(t: Tables, bases: seq<bv16>, ghost blocks: seq<Bytes>, blockSize: nat, ghost first: nat,
                         created: seq<RecoveryBlockData>, found: map<nat, Bytes>, missing: seq<nat>, keys: seq<nat>,
                         kept: seq<nat>, chunkSize: nat)
    returns (r: ChunkOutcome)
    requires t.Valid() && |blocks| == |bases| && blockSize % 2 == 0 && first + |created| <= COUNT
    requires forall g :: 0 <= g < |blocks| ==> |blocks[g]| == blockSize
    requires RecoveryOf(created, bases, first, blocks, blockSize)
    requires Partition(missing, keys, |blocks|) && |missing| <= |kept|
    requires FoundTrue(found, keys, blocks, blockSize)
    requires forall c :: 0 <= c < |missing| ==> missing[c] < |blocks|
    requires forall i :: 0 <= i < |kept| ==> kept[i] < |created|
    ensures !r.TooFewRecoveries? && (missing == [] ==> r.Done?)
    ensures missing != [] ==> (r.Done? <==> Nonsingular(CoefficientMatrix(bases, Loaded(created, kept), missing)))
    ensures r.NotInvertible? ==>
      r.error.Singular? && FirstDependent(CoefficientMatrix(bases, Loaded(created, kept), missing), r.error.column)
    ensures r.Done? ==> r.writers.Keys == set c | 0 <= c < |missing| :: missing[c]
    ensures r.Done? ==> forall c :: 0 <= c < |missing| ==> |r.writers[missing[c]]| == blockSize
    ensures r.Done? && missing != [] ==>
      ChunkedFrom(bases, Loaded(created, kept), blockSize, missing, keys, found, EffectiveChunk(chunkSize),
                  Collected(r.writers, missing))
    ensures r.Done? && ArrivesWhole(found, keys, |blocks|, blockSize, EffectiveChunk(chunkSize)) ==>
      forall c :: 0 <= c < |missing| ==> r.writers[missing[c]] == blocks[missing[c]]
  {
    hide RecoveryBlock, Nonsingular, CoefficientMatrix, Ready, KeyOrder, Partition, EncodedFrom, Serves, ServedResult,
      System.Satisfied, EffectiveChunk, System.Valid, RecoveryOf, FoundTrue, ArrivesWhole, ZeroBeyond, PlanFits, PlanOf,
      Appended, EmptyWriters, Loaded, PresentSlices, Collected, ProvidersReady, Store, ChunkedSliceProvider.Valid,
      FirstDependent;
    var e := Engine(t, blockSize, Loaded(created, kept), bases);
    CountUp(created, bases, first, blocks, blockSize);
    var recovery := Store(created);
    var writers := map g | g in missing :: [];
    LoadedEngine(e, created, kept, first, blocks, |missing|);
    EncodedReady(e, blocks, missing, keys);
    ServedEngine(e, recovery);
    ReadyToServe(e, recovery, missing);
    FoundSystem(e, blocks, missing, keys, found);
    var provider := new ChunkedSliceProvider(blockSize, found);
    ghost var out;
    r, out := ReconstructChunked(e, provider, keys, recovery, missing, writers, chunkSize);
    if r.Done? && missing != [] {
      NothingWrittenYet(writers, missing);
      WritersHold(writers, r.writers, missing, out);
      ServedIsChunked(e, found, missing, keys, EffectiveChunk(chunkSize), out);
      WrittenOut(r.writers, missing, out, blockSize);
      AppendedKeys(writers, r.writers, missing, out);
      if ArrivesWhole(found, keys, |blocks|, blockSize, EffectiveChunk(chunkSize)) {
        LostRecovered(e, blocks, missing, keys, found, EffectiveChunk(chunkSize), out);
      }
    }
  }

  lemma ServedIsChunked(e: Engine, found: map<nat, Bytes>, missing: seq<nat>, keys: seq<nat>, chunk: nat,
                        out: seq<Bytes>)
    requires forall i :: 0 <= i < |keys| ==> keys[i] in found
    requires var (s, p) := (SystemOf(e, found, missing, keys), PlanOf(e, found, keys, chunk));
      s.Valid() && PlanFits(p, s) && ServedResult(s, p, out)
    ensures ChunkedFrom(e.bases, e.recs, e.sliceSize, missing, keys, found, chunk, out)
  {
    hide ServedResult, PlanFits, System.Valid, PresentSlices;
  }

  lemma NothingWrittenYet(writers: map<nat, Bytes>, missing: seq<nat>)
    requires writers == map g | g in missing :: []
    ensures EmptyWriters(writers, missing)
  {}

  lemma AppendedKeys(before: map<nat, Bytes>, after: map<nat, Bytes>, missing: seq<nat>, out: seq<Bytes>)
    requires |out| == |missing| && Appended(before, after, missing, out) && before.Keys == set g | g in missing
    ensures after.Keys == set c | 0 <= c < |missing| :: missing[c]
  {}

  lemma WrittenOut(writers: map<nat, Bytes>, missing: seq<nat>, out: seq<Bytes>, size: nat)
    requires (forall c :: 0 <= c < |missing| ==> missing[c] in writers) && Collected(writers, missing) == out
    requires forall o :: 0 <= o < |out| ==> |out[o]| == size
    ensures |out| == |missing|
    ensures forall c :: 0 <= c < |missing| ==> writers[missing[c]] == out[c] && |writers[missing[c]]| == size
  {
    forall c | 0 <= c < |missing|
      ensures writers[missing[c]] == out[c]
    {
      assert Collected(writers, missing)[c] == out[c];
    }
  }

  lemma ReadyToServe(e: Engine, recovery: map<nat, Bytes>, missing: seq<nat>)
    requires Ready(e, missing) && Serves(e, recovery)
    ensures ProvidersReady(e, recovery, missing)
  {
    ServedEngine(e, recovery);
  }

  // ----- the file

  lemma HarmlessMeans(found: map<nat, Bytes>, keys: seq<nat>, total: nat, size: nat, memoryLimit: Option<nat>)
    requires HarmlessLimit(found, size, memoryLimit)
    ensures CalculateRepairChunkSize(size, memoryLimit).ChunkSize?
    ensures ArrivesWhole(found, keys, total, size, EffectiveChunk(CalculateRepairChunkSize(size, memoryLimit).bytes))
  {
    hide CalculateRepairChunkSize, SplittingLimit, KeepsWords;
    RepairChunkSizeKeepsWords(size, memoryLimit);
  }

  /** Writes the file from its readable slices and the reconstructed ones. */
  method WriteMended(ghost files: seq<Bytes>, blockSize: nat, length: nat, offset: nat, ghost f: nat, s: Sources,
                     ghost missing: seq<nat>, slices: map<nat, Bytes>, md5: PacketFormats.Md5,
                     expected: PacketFormats.Hash)
    returns (written: WriteResult)
    requires blockSize > 0 && f < |files| && Recoverable(files, blockSize, f, s, missing)
    requires length == |files[f]| && offset == Offset(files, blockSize, f)
    requires slices.Keys == set c | 0 <= c < |missing| :: missing[c]
    requires forall g :: g in slices ==> |slices[g]| == blockSize
    ensures written == InPlaceAs(Mended(files[f], offset, blockSize, slices), md5, expected)
  {
    hide Recoverable, Offset, BlockCount, LongEnough, Genuine, Mended, Assembled, LocalSlices;
    var sources := s.(reconstructed := LocalSlices(slices, FileInfo(length, BlockCount(length, blockSize), offset)));
    RecoverableKept(files, blockSize, f, s, sources, missing);
    SlicesGenuine(files, blockSize, f, sources, missing, slices);
    RepairedIsOriginal(sources, Mended(files[f], offset, blockSize, slices), blockSize);
    written := WriteRepairedFile(sources, length, blockSize, md5, expected);
  }

  /** Repairs file `f` from the recovery blocks that are left, and what can be read of the damaged file. */
  method RepairFile(created: seq<RecoveryBlockData>, ghost files: seq<Bytes>, blockSize: nat, total: nat, length: nat,
                    offset: nat, ghost first: nat, ghost f: nat, s: Sources, found: map<nat, Bytes>, missing: seq<nat>,
                    keys: seq<nat>, kept: seq<nat>, memoryLimit: Option<nat>, md5: PacketFormats.Md5,
                    expected: PacketFormats.Hash)
    returns (r: RepairOutcome)
    requires blockSize > 0 && blockSize % 2 == 0
    requires RepairAsked(files, blockSize, first, |created|, f, s, missing, keys, kept, found)
    requires total == Offset(files, blockSize, |files|)
    requires RecoveryOf(created, BasesOf(total), first, AllBlocks(files, blockSize, |files|), blockSize)
    requires length == |files[f]| && offset == Offset(files, blockSize, f)
    ensures forall c :: 0 <= c < |missing| ==> missing[c] < total
    ensures RepairedRight(files, blockSize, first, f, missing, keys, kept, found, memoryLimit, md5, expected, r)
  {
    hide RepairAsked, Recoverable, RecoveryBlock, AllBlocks, Offset, BlockCount, Nonsingular, LongEnough, Genuine,
      CoefficientMatrix, CutBase, Base, Partition, CalculateRepairChunkSize, RecoveryOf, FoundTrue, HarmlessLimit,
      ArrivesWhole, RepairedRight, Mended, MadeInChunks, ChunkedFrom, InPlaceAs, Determined, FirstDependent, Collected,
      KeptRecoveries;
    AskedMeans(files, blockSize, first, |created|, f, s, missing, keys, kept, found);
    ghost var blocks := AllBlocks(files, blockSize, |files|);
    if |missing| > |kept| {
      r := InsufficientRecovery;
      FailedRight(files, blockSize, first, f, missing, keys, kept, found, memoryLimit, md5, expected, r);
      return;
    }
    var chunk := CalculateRepairChunkSize(blockSize, memoryLimit);
    if !chunk.ChunkSize? {
      r := BadLimit(chunk);
      FailedRight(files, blockSize, first, f, missing, keys, kept, found, memoryLimit, md5, expected, r);
      return;
    }
    var t := BuildTables();
    var bases := GenerateBases(t, total);
    assert bases == BasesOf(total);
    CountUp(created, bases, first, blocks, blockSize);
    var outcome :=
      ReconstructLost(t, bases, blocks, blockSize, first, created, found, missing, keys, kept, chunk.bytes);
    DeterminedIs(total, bases, first, created, kept, missing);
    if !outcome.Done? {
      r := ReconstructionFailed(outcome.error);
      FailedRight(files, blockSize, first, f, missing, keys, kept, found, memoryLimit, md5, expected, r);
      return;
    }
    var slices := outcome.writers;
    var written := WriteMended(files, blockSize, length, offset, f, s, missing, slices, md5, expected);
    r := Finished(written);
    MadeAsPromised(files, blockSize, first, created, missing, keys, kept, found, memoryLimit, slices);
    if HarmlessLimit(found, blockSize, memoryLimit) {
      HarmlessMeans(found, keys, total, blockSize, memoryLimit);
      MendedIsOriginal(files, blockSize, f, missing, slices);
    }
    FinishedRight(files, blockSize, first, f, missing, keys, kept, found, memoryLimit, md5, expected, slices, r);
  }

  lemma DeterminedIs(total: nat, bases: seq<bv16>, first: nat, created: seq<RecoveryBlockData>, kept: seq<nat>,
                     missing: seq<nat>)
    requires bases == BasesOf(total) && (forall i :: 0 <= i < |created| ==> created[i].exponent == first + i)
    requires forall i :: 0 <= i < |kept| ==> kept[i] < |created|
    requires |missing| <= |kept| && forall c :: 0 <= c < |missing| ==> missing[c] < total
    ensures Determined(total, first, kept, missing)
      <==> Nonsingular(CoefficientMatrix(bases, Loaded(created, kept), missing))
    ensures CoefficientMatrix(bases, Loaded(created, kept), missing)
      == CoefficientMatrix(BasesOf(total), KeptExponents(first, kept), missing)
  {
    hide Nonsingular;
    SameMatrix(bases, first, created, kept, missing);
  }

  /** How repair fails, when it does. */
  lemma FailedRight(files: seq<Bytes>, blockSize: nat, first: nat, f: nat, missing: seq<nat>, keys: seq<nat>,
                    kept: seq<nat>, found: map<nat, Bytes>, memoryLimit: Option<nat>, md5: PacketFormats.Md5,
                    expected: PacketFormats.Hash, r: RepairOutcome)
    requires blockSize > 0 && f < |files| && forall c :: 0 <= c < |missing| ==>
      missing[c] < Offset(files, blockSize, |files|)
    requires
      var (total, size) := (Offset(files, blockSize, |files|), CalculateRepairChunkSize(blockSize, memoryLimit));
      match r
      case InsufficientRecovery => |missing| > |kept|
      case BadLimit(reason) => |missing| <= |kept| && reason == size && !size.ChunkSize?
      case ReconstructionFailed(error) =>
        && 0 < |missing| <= |kept| && size.ChunkSize? && !Determined(total, first, kept, missing) && error.Singular?
        && FirstDependent(CoefficientMatrix(BasesOf(total), KeptExponents(first, kept), missing), error.column)
      case Finished(_) => false
    ensures RepairedRight(files, blockSize, first, f, missing, keys, kept, found, memoryLimit, md5, expected, r)
  {
    hide Offset, CalculateRepairChunkSize, Determined, HarmlessLimit, FirstDependent, MadeInChunks, Mended;
  }

  lemma FinishedRight(files: seq<Bytes>, blockSize: nat, first: nat, f: nat, missing: seq<nat>, keys: seq<nat>,
                      kept: seq<nat>, found: map<nat, Bytes>, memoryLimit: Option<nat>, md5: PacketFormats.Md5,
                      expected: PacketFormats.Hash, slices: map<nat, Bytes>, r: RepairOutcome)
    requires blockSize > 0 && f < |files| && forall c :: 0 <= c < |missing| ==>
      missing[c] < Offset(files, blockSize, |files|)
    requires |missing| <= |kept| && CalculateRepairChunkSize(blockSize, memoryLimit).ChunkSize?
    requires missing != [] ==> Determined(Offset(files, blockSize, |files|), first, kept, missing)
    requires forall g :: g in slices ==> |slices[g]| == blockSize
    requires MadeInChunks(files, blockSize, first, missing, keys, kept, found, memoryLimit, slices)
    requires r
      == Finished(InPlaceAs(Mended(files[f], Offset(files, blockSize, f), blockSize, slices), md5, expected))
    requires HarmlessLimit(found, blockSize, memoryLimit) ==>
      Mended(files[f], Offset(files, blockSize, f), blockSize, slices) == files[f]
    ensures RepairedRight(files, blockSize, first, f, missing, keys, kept, found, memoryLimit, md5, expected, r)
  {
    hide Offset, CalculateRepairChunkSize, Determined, HarmlessLimit, FirstDependent, MadeInChunks, Mended, InPlaceAs,
      CoefficientMatrix;
  }

  lemma MadeAsPromised(files: seq<Bytes>, blockSize: nat, first: nat, created: seq<RecoveryBlockData>,
                       missing: seq<nat>, keys: seq<nat>, kept: seq<nat>, found: map<nat, Bytes>,
                       memoryLimit: Option<nat>, slices: map<nat, Bytes>)
    requires blockSize > 0 && CalculateRepairChunkSize(blockSize, memoryLimit).ChunkSize?
    requires var blocks := AllBlocks(files, blockSize, |files|);
      RecoveryOf(created, BasesOf(|blocks|), first, blocks, blockSize)
    requires forall i :: 0 <= i < |kept| ==> kept[i] < |created|
    requires slices.Keys == (set c | 0 <= c < |missing| :: missing[c])
    requires forall c :: 0 <= c < |missing| ==> |slices[missing[c]]| == blockSize
    requires missing != [] ==>
      ChunkedFrom(BasesOf(Offset(files, blockSize, |files|)), Loaded(created, kept), blockSize, missing, keys, found,
                  EffectiveChunk(CalculateRepairChunkSize(blockSize, memoryLimit).bytes), Collected(slices, missing))
    ensures MadeInChunks(files, blockSize, first, missing, keys, kept, found, memoryLimit, slices)
  {
    hide AllBlocks, Offset, RecoveryBlock, CalculateRepairChunkSize, ChunkedFrom, Collected, EffectiveChunk;
    var blocks := AllBlocks(files, blockSize, |files|);
    assert Loaded(created, kept) == KeptRecoveries(BasesOf(|blocks|), first, kept, blocks, blockSize);
  }

  lemma RecoverableKept(files: seq<Bytes>, blockSize: nat, f: nat, s: Sources, s': Sources, missing: seq<nat>)
    requires blockSize > 0 && f < |files| && Recoverable(files, blockSize, f, s, missing)
    requires s'.valid == s.valid && s'.positions == s.positions && s'.file == s.file
    ensures Recoverable(files, blockSize, f, s', missing)
  {
    hide Offset;
  }

  lemma PartitionBound(missing: seq<nat>, keys: seq<nat>, total: nat)
    requires Partition(missing, keys, total)
    ensures forall c :: 0 <= c < |missing| ==> missing[c] < total
    ensures forall c :: 0 <= c < |keys| ==> keys[c] < total
  {}
}
