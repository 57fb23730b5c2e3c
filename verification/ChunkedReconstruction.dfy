/** The chunked route: the same reconstruction, a chunk of every slice at a time, appended to writers. */
module ChunkedReconstruction {
  import opened LinearAlgebra
  import opened GaussJordan
  import opened SliceKernel
  import opened Slices
  import opened RecoveryEquations
  import opened Contributions
  import opened Reconstruction
  import opened Chunks
  import opened SourceBlocks
  import opened SliceProvider
  import opened ServedChunks

  const DEFAULT_CHUNK_SIZE: nat := 65536

  datatype ChunkOutcome =
    | Done(writers: map<nat, Bytes>)
    | TooFewRecoveries
    | NotInvertible(error: MatrixError)

  /** The recovery slices with the data the recovery provider holds for their exponents. */
  function Provided(recs: seq<Recovery>, recovery: map<nat, Bytes>): (r: seq<Recovery>)
    ensures |r| == |recs|
    ensures forall i :: 0 <= i < |recs| ==> r[i].exponent == recs[i].exponent
    ensures forall i :: 0 <= i < |recs| && recs[i].exponent in recovery ==> r[i].data == recovery[recs[i].exponent]
  {
    seq(|recs|, i requires 0 <= i < |recs| =>
      Recovery(recs[i].exponent, if recs[i].exponent in recovery then recovery[recs[i].exponent] else []))
  }

  /** The chunk size in force: zero asks for the default. */
  function EffectiveChunk(chunkSize: nat): (c: nat)
    ensures c > 0
  {
    if chunkSize == 0 then DEFAULT_CHUNK_SIZE else chunkSize
  }

  /** The first `k` chunks of one output row, each computed on its own. */
  function ChunkedRow(size: nat, chunk: nat, k: nat, inverseRow: Vector, recovery: seq<Bytes>, row: Vector,
                      present: seq<Bytes>): (r: Bytes)
    requires |inverseRow| == |recovery| && |row| == |present|
    requires forall i :: 0 <= i < |recovery| ==> size <= |recovery[i]|
    requires forall i :: 0 <= i < |present| ==> size <= |present[i]|
    decreases k
  {
    if k == 0 then []
    else
      var (offset, end) := (ChunkEnd(k - 1, chunk, size), ChunkEnd(k, chunk, size));
      ChunkEndStep(k - 1, chunk, size);
      ChunkedRow(size, chunk, k - 1, inverseRow, recovery, row, present)
        + RowSum(end - offset, inverseRow, ChunksOf(recovery, offset, end - offset), row,
                 ChunksOf(present, offset, end - offset))
  }

  /** Chunks that keep words whole make up the row computed in one piece. */
  lemma {:induction false} ChunkedRowIsRow(size: nat, chunk: nat, k: nat, inverseRow: Vector, recovery: seq<Bytes>,
                                           row: Vector, present: seq<Bytes>)
    requires |inverseRow| == |recovery| && |row| == |present| && KeepsWords(chunk, size)
    requires forall i :: 0 <= i < |recovery| ==> size <= |recovery[i]|
    requires forall i :: 0 <= i < |present| ==> size <= |present[i]|
    ensures ChunkedRow(size, chunk, k, inverseRow, recovery, row, present)
      == RowSum(size, inverseRow, recovery, row, present)[..ChunkEnd(k, chunk, size)]
    decreases k
  {
    hide RowSum, ChunksOf, ChunkEnd, KeepsWords;
    if k == 0 {
      NoChunk(chunk, size);
    } else {
      ChunkedRowIsRow(size, chunk, k - 1, inverseRow, recovery, row, present);
      ChunkAligned(k - 1, chunk, size);
      var (offset, end) := (ChunkEnd(k - 1, chunk, size), ChunkEnd(k, chunk, size));
      var whole := RowSum(size, inverseRow, recovery, row, present);
      if offset < end {
        RowSumOfChunk(size, inverseRow, recovery, row, present, offset, end - offset);
      }
      assert whole[..end] == whole[..offset] + whole[offset..end];
    }
  }

  /** What the route needs from its providers: every recovery slice in use, in full. */
  ghost predicate ProvidersReady(e: Engine, recovery: map<nat, Bytes>, missing: seq<nat>) {
    && Ready(e.(recs := Provided(e.recs, recovery)), missing)
    && (forall i :: 0 <= i < |e.recs| && i < |missing| ==> e.recs[i].exponent in recovery)
  }

  function ProvidedEngine(e: Engine, recovery: map<nat, Bytes>): Engine {
    e.(recs := Provided(e.recs, recovery))
  }

  /** The writers after `data[o]` went to the writer of missing slice `o`, where there is one. */
  ghost predicate Appended(before: map<nat, Bytes>, after: map<nat, Bytes>, missing: seq<nat>, data: seq<Bytes>)
    requires |data| == |missing|
  {
    && after.Keys == before.Keys
    && (forall o :: 0 <= o < |missing| && missing[o] in before ==> after[missing[o]] == before[missing[o]] + data[o])
    && (forall g :: g in before && g !in missing ==> after[g] == before[g])
  }

  method WriteChunk(writers: map<nat, Bytes>, missing: seq<nat>, buffers: seq<Bytes>) returns (r: map<nat, Bytes>)
    requires |buffers| == |missing|
    requires forall i, j :: 0 <= i < j < |missing| ==> missing[i] != missing[j]
    ensures Appended(writers, r, missing, buffers)
  {
    r := writers;
    for o := 0 to |missing|
      invariant r.Keys == writers.Keys
      invariant forall i :: 0 <= i < o && missing[i] in writers ==> r[missing[i]] == writers[missing[i]] + buffers[i]
      invariant forall g :: g in writers && g !in missing[..o] ==> r[g] == writers[g]
    {
      assert missing[o] !in missing[..o];
      if missing[o] in r {
        r := r[missing[o] := r[missing[o]] + buffers[o]];
      }
      assert missing[..o + 1] == missing[..o] + [missing[o]];
    }
    assert missing[..|missing|] == missing;
  }

  lemma AppendedTwice(a: map<nat, Bytes>, b: map<nat, Bytes>, c: map<nat, Bytes>, missing: seq<nat>, first: seq<Bytes>,
                      second: seq<Bytes>, both: seq<Bytes>)
    requires |first| == |second| == |both| == |missing|
    requires Appended(a, b, missing, first) && Appended(b, c, missing, second)
    requires forall o :: 0 <= o < |missing| ==> both[o] == first[o] + second[o]
    ensures Appended(a, c, missing, both)
  {
    forall o | 0 <= o < |missing| && missing[o] in a
      ensures c[missing[o]] == a[missing[o]] + both[o]
    {
      assert missing[o] in b;
      assert c[missing[o]] == b[missing[o]] + second[o];
      assert a[missing[o]] + first[o] + second[o] == a[missing[o]] + (first[o] + second[o]);
    }
  }

  // ----- rows from chunks as they arrive

  /** The plan reads the present slices of the system. */
  ghost predicate PlanFits(p: Plan, s: System) {
    p.Valid() && p.size == s.size && p.keys == s.keys && p.total == |s.bases|
  }

  /** The present slices hold zeros behind what the files hold of them. */
  ghost predicate ZeroBeyond(p: Plan, present: seq<Bytes>)
    requires p.Valid() && |present| == |p.keys| && forall i :: 0 <= i < |present| ==> p.size <= |present[i]|
  {
    forall i, x :: 0 <= i < |present| && p.keys[i] < p.total && p.lengths[p.keys[i]] <= x < p.size ==>
      present[i][x] == 0
  }

  /** Chunk `k` of the present slices, as much of it as arrives. */
  ghost function ServedSlices(p: Plan, k: nat, present: seq<Bytes>): (r: seq<Bytes>)
    requires p.Valid() && k < p.Count() && |present| == |p.keys|
    requires forall i :: 0 <= i < |present| ==> p.size <= |present[i]|
    ensures |r| == |present|
    ensures forall i :: 0 <= i < |present| ==>
      p.Start(k) + Served(p, k, i) <= p.size && r[i] == present[i][p.Start(k)..p.Start(k) + Served(p, k, i)]
  {
    forall i | 0 <= i < |present|
      ensures p.Start(k) + Served(p, k, i) <= p.size
    {
      ServedArrives(p, k, i);
    }
    seq(|present|, i requires 0 <= i < |present| => present[i][p.Start(k)..p.Start(k) + Served(p, k, i)])
  }

  /** The first `k` chunks of one output row, from the chunks that arrive. */
  ghost function ServedRow(p: Plan, k: nat, inverseRow: Vector, recovery: seq<Bytes>, row: Vector,
                           present: seq<Bytes>): (r: Bytes)
    requires p.Valid() && k <= p.Count()
    requires |inverseRow| == |recovery| && |row| == |present| == |p.keys|
    requires forall i :: 0 <= i < |recovery| ==> p.size <= |recovery[i]|
    requires forall i :: 0 <= i < |present| ==> p.size <= |present[i]|
  {
    if k == 0 then []
    else
      ServedRow(p, k - 1, inverseRow, recovery, row, present)
      + KernelSum(p.Length(k - 1), inverseRow, ChunksOf(recovery, p.Start(k - 1), p.Length(k - 1)), row,
                  ServedSlices(p, k - 1, present))
  }

  lemma {:induction false} ServedRowLength(p: Plan, k: nat, inverseRow: Vector, recovery: seq<Bytes>, row: Vector,
                                           present: seq<Bytes>)
    requires p.Valid() && k <= p.Count()
    requires |inverseRow| == |recovery| && |row| == |present| == |p.keys|
    requires forall i :: 0 <= i < |recovery| ==> p.size <= |recovery[i]|
    requires forall i :: 0 <= i < |present| ==> p.size <= |present[i]|
    ensures |ServedRow(p, k, inverseRow, recovery, row, present)| == p.Start(k)
  {
    hide KernelSum, ChunksOf, ChunkEnd, ChunkCount, ServedSlices;
    if k == 0 {
      NoChunk(p.chunk, p.size);
    } else {
      ServedRowLength(p, k - 1, inverseRow, recovery, row, present);
    }
  }

  /** No term of the row is harmed: slices that arrive cut have coefficient zero or one. */
  ghost predicate RowUnharmed(p: Plan, row: Vector)
    requires p.Valid() && |row| == |p.keys|
  {
    forall k, i :: 0 <= k < p.Count() && 0 <= i < |row| && CutsWord(p, k, i) ==> row[i] == 0 || row[i] == 1
  }

  /** What arrives of the slices, padded, is their chunk. */
  lemma ServedFits(p: Plan, k: nat, present: seq<Bytes>)
    requires p.Valid() && k < p.Count() && |present| == |p.keys|
    requires forall i :: 0 <= i < |present| ==> p.size <= |present[i]|
    requires ZeroBeyond(p, present)
    ensures AllFitted(ServedSlices(p, k, present), p.Length(k)) == ChunksOf(present, p.Start(k), p.Length(k))
  {
    hide Served, ChunkEnd, ChunkCount;
    var (served, whole) :=
      (AllFitted(ServedSlices(p, k, present), p.Length(k)), ChunksOf(present, p.Start(k), p.Length(k)));
    forall i | 0 <= i < |present|
      ensures served[i] == whole[i]
    {
      ServedArrives(p, k, i);
    }
  }

  /** The term of a slice is harmless unless it arrives cut within a word. */
  lemma ServedHarmless(p: Plan, k: nat, row: Vector, present: seq<Bytes>)
    requires p.Valid() && k < p.Count() && |present| == |row| == |p.keys| && RowUnharmed(p, row)
    requires forall i :: 0 <= i < |present| ==> p.size <= |present[i]|
    ensures forall i :: 0 <= i < |present| ==> TermHarmless(row[i], ServedSlices(p, k, present)[i], p.Length(k))
  {
    hide Served, ChunkEnd, ChunkCount;
    forall i | 0 <= i < |present|
      ensures TermHarmless(row[i], ServedSlices(p, k, present)[i], p.Length(k))
    {
      ServedArrives(p, k, i);
      assert CutsWord(p, k, i) ==> row[i] == 0 || row[i] == 1;
    }
  }

  /** A row without harmed terms is the row of whole chunks. */
  lemma {:induction false} ServedRowIsChunkedRow(p: Plan, k: nat, inverseRow: Vector, recovery: seq<Bytes>, row: Vector,
                                                 present: seq<Bytes>)
    requires p.Valid() && k <= p.Count()
    requires |inverseRow| == |recovery| && |row| == |present| == |p.keys|
    requires forall i :: 0 <= i < |recovery| ==> p.size <= |recovery[i]|
    requires forall i :: 0 <= i < |present| ==> p.size <= |present[i]|
    requires RowUnharmed(p, row) && ZeroBeyond(p, present)
    ensures ServedRow(p, k, inverseRow, recovery, row, present)
      == ChunkedRow(p.size, p.chunk, k, inverseRow, recovery, row, present)
  {
    hide KernelSum, RowSum, ChunksOf, ChunkEnd, ChunkCount, ServedSlices, RowUnharmed, ZeroBeyond;
    if k > 0 {
      ServedRowIsChunkedRow(p, k - 1, inverseRow, recovery, row, present);
      ServedFits(p, k - 1, present);
      ServedHarmless(p, k - 1, row, present);
      KernelSumIsRowSum(p.Length(k - 1), inverseRow, ChunksOf(recovery, p.Start(k - 1), p.Length(k - 1)), row,
                        ServedSlices(p, k - 1, present));
    }
  }

  // ----- what the route computes

  /** The outputs after `k` chunks. */
  ghost predicate ServedOutputs(s: System, p: Plan, k: nat, inverse: Matrix, rows: Matrix, out: seq<Bytes>)
    requires s.Valid() && PlanFits(p, s) && k <= p.Count()
    requires |inverse| == |rows| == |s.missing| && Rectangular(inverse, |s.missing|) && Rectangular(rows, |s.keys|)
  {
    && |out| == |s.missing|
    && forall o :: 0 <= o < |out| ==>
      out[o] == ServedRow(p, k, inverse[o], RecoveryData(s.recs, |s.missing|), rows[o], s.present)
  }

  lemma ServedOutputsStep(s: System, p: Plan, k: nat, inverse: Matrix, rows: Matrix, out: seq<Bytes>,
                          buffers: seq<Bytes>, out': seq<Bytes>)
    requires s.Valid() && PlanFits(p, s) && k < p.Count()
    requires |inverse| == |rows| == |s.missing| && Rectangular(inverse, |s.missing|) && Rectangular(rows, |s.keys|)
    requires ServedOutputs(s, p, k, inverse, rows, out) && |buffers| == |out'| == |s.missing|
    requires forall o :: 0 <= o < |buffers| ==>
      buffers[o] == KernelSum(p.Length(k), inverse[o],
                              ChunksOf(RecoveryData(s.recs, |s.missing|), p.Start(k), p.Length(k)), rows[o],
                              ServedSlices(p, k, s.present))
    requires forall o :: 0 <= o < |out'| ==> out'[o] == out[o] + buffers[o]
    ensures ServedOutputs(s, p, k + 1, inverse, rows, out')
  {
    hide KernelSum, ChunksOf, ServedSlices, ChunkEnd, ChunkCount;
  }

  /** What the route computes from the chunks that arrive. */
  ghost predicate ServedResult(s: System, p: Plan, out: seq<Bytes>)
    requires s.Valid() && PlanFits(p, s)
  {
    exists inverse, rows ::
      SolvingRows(s, inverse, rows) && ServedOutputs(s, p, p.Count(), inverse, rows, out)
  }

  lemma ServedLengths(s: System, p: Plan, out: seq<Bytes>)
    requires s.Valid() && PlanFits(p, s) && ServedResult(s, p, out)
    ensures |out| == |s.missing| && forall o :: 0 <= o < |out| ==> |out[o]| == s.size
  {
    hide ServedRow, CombinedRow, Inverts, ChunkEnd, ChunkCount, CoefficientMatrix;
    var inverse, rows :| SolvingRows(s, inverse, rows) && ServedOutputs(s, p, p.Count(), inverse, rows, out);
    CountedChunks(p.chunk, p.size);
    forall o | 0 <= o < |out|
      ensures |out[o]| == s.size
    {
      ServedRowLength(p, p.Count(), inverse[o], RecoveryData(s.recs, |s.missing|), rows[o], s.present);
    }
  }

  /** Outputs without harmed terms, from chunks that keep words whole, satisfy the recovery equations. */
  lemma ServedOutputsSatisfy(s: System, p: Plan, inverse: Matrix, rows: Matrix, out: seq<Bytes>)
    requires s.Valid() && PlanFits(p, s) && KeepsWords(p.chunk, p.size) && ZeroBeyond(p, s.present)
    requires SolvingRows(s, inverse, rows) && ServedOutputs(s, p, p.Count(), inverse, rows, out)
    requires forall o :: 0 <= o < |rows| ==> RowUnharmed(p, rows[o])
    ensures s.Satisfied(out) && Nonsingular(s.Matrix())
  {
    hide RowSum, ServedRow, ChunkedRow, CombinedRow, Inverts, KeepsWords, ChunkEnd, ChunkCount, CoefficientMatrix,
      RowUnharmed, ZeroBeyond;
    var count := p.Count();
    CountedChunks(p.chunk, p.size);
    forall o | 0 <= o < |out|
      ensures RowOutput(s, inverse[o], rows[o], out[o])
    {
      ServedRowIsChunkedRow(p, count, inverse[o], RecoveryData(s.recs, |s.missing|), rows[o], s.present);
      ChunkedRowIsRow(s.size, p.chunk, count, inverse[o], RecoveryData(s.recs, |s.missing|), rows[o], s.present);
    }
    CombinedRowsSatisfy(s, inverse, rows, out);
    forall x
      ensures !Annihilated(s.Matrix(), x)
    {
      InvertibleKillsOnlyZero(s.Matrix(), inverse, |s.missing|, x);
    }
  }

  /** No slice arrives cut within a word. */
  ghost predicate CutsNothing(p: Plan)
    requires p.Valid()
  {
    forall k, i :: 0 <= k < p.Count() && 0 <= i < |p.keys| ==> !CutsWord(p, k, i)
  }

  lemma ServedResultSatisfies(s: System, p: Plan, out: seq<Bytes>)
    requires s.Valid() && PlanFits(p, s) && KeepsWords(p.chunk, p.size) && ZeroBeyond(p, s.present)
    requires CutsNothing(p) && ServedResult(s, p, out)
    ensures s.Satisfied(out) && Nonsingular(s.Matrix())
  {
    hide CombinedRow, Inverts, KeepsWords, ZeroBeyond, CutsWord, CoefficientMatrix, ChunkCount, ServedRow;
    var inverse, rows :| SolvingRows(s, inverse, rows) && ServedOutputs(s, p, p.Count(), inverse, rows, out);
    ServedOutputsSatisfy(s, p, inverse, rows, out);
  }

  // ----- the route

  function PlanOf(e: Engine, data: map<nat, Bytes>, available: seq<nat>, chunk: nat): Plan {
    Plan(e.sliceSize, chunk, |e.bases|, available, map g | g in data :: |data[g]|)
  }

  lemma PlanOfFits(e: Engine, data: map<nat, Bytes>, missing: seq<nat>, available: seq<nat>, chunk: nat)
    requires chunk > 0 && (forall g :: g in data ==> |data[g]| <= e.sliceSize) && KeyOrder(available, data)
    ensures PlanFits(PlanOf(e, data, available, chunk), SystemOf(e, data, missing, available))
    ensures var present := PresentSlices(data, available, |e.bases|, e.sliceSize);
      ZeroBeyond(PlanOf(e, data, available, chunk), present)
  {
    hide Fitted;
    var p := PlanOf(e, data, available, chunk);
    var present := PresentSlices(data, available, |e.bases|, e.sliceSize);
    forall i, x | 0 <= i < |present| && p.keys[i] < p.total && p.lengths[p.keys[i]] <= x < p.size
      ensures present[i][x] == 0
    {
      assert present[i] == Fitted(data[available[i]], e.sliceSize);
    }
  }

  lemma WindowOfFitted(s: Bytes, size: nat, offset: nat, n: nat)
    requires offset + n <= size
    ensures Window(s, offset, n) == Fitted(s, size)[offset..offset + n]
  {}

  /** The provider serves what the plan reads, and the next to be read is chunk `k` of slice `i`. */
  ghost predicate Serving(provider: ChunkedSliceProvider, e: Engine, available: seq<nat>, p: Plan, k: nat, i: nat)
    reads provider
    requires p.Valid() && i <= |p.keys| && k <= p.Count() && (i > 0 ==> k < p.Count())
  {
    && provider.Valid() && provider.sliceSize == e.sliceSize && KeyOrder(available, provider.data)
    && p == PlanOf(e, provider.data, available, p.chunk) && provider.State() == CacheAt(p, k, i)
  }

  /** Reads one chunk of one present slice; those outside the recovery set are not read, and count as zeros. */
  method ReadOne(provider: ChunkedSliceProvider, e: Engine, available: seq<nat>, ghost p: Plan, ghost k: nat, i: nat,
                 offset: nat, len: nat)
    returns (chunk: Bytes)
    requires p.Valid() && k < p.Count() && i < |available| == |p.keys| && Serving(provider, e, available, p, k, i)
    requires offset == p.Start(k) && len == p.Length(k)
    modifies provider
    ensures Serving(provider, e, available, p, k, i + 1)
    ensures chunk == ServedSlices(p, k, PresentSlices(provider.data, available, |e.bases|, e.sliceSize))[i]
  {
    hide ChunkedSliceProvider.Valid, ChunkEnd, ChunkCount, AfterRead, Window, Fitted, CacheAt, KeyOrder;
    ChunkStarts(p, k);
    ServedArrives(p, k, i);
    NextRead(p, k, i);
    if available[i] >= |e.bases| {
      return Zeros(len);
    }
    var g := available[i];
    InOrder(available, provider.data, i);
    var read := provider.ReadChunk(g, offset, len);
    WindowOfFitted(provider.data[g], e.sliceSize, offset, Served(p, k, i));
    chunk := read.data;
  }

  lemma InOrder(keys: seq<nat>, data: map<nat, Bytes>, i: nat)
    requires KeyOrder(keys, data) && i < |keys|
    ensures keys[i] in data
  {}

  lemma NextRead(p: Plan, k: nat, i: nat)
    requires p.Valid() && k < p.Count() && i < |p.keys|
    ensures CacheAt(p, k, i + 1) == AfterReading(p, CacheAt(p, k, i), k, i).0
  {
    hide AfterReading;
  }

  lemma NextChunk(p: Plan, k: nat)
    requires p.Valid() && k < p.Count()
    ensures CacheAt(p, k + 1, 0) == CacheAt(p, k, |p.keys|)
  {
    hide AfterReading;
  }

  lemma ServingMeans(provider: ChunkedSliceProvider, e: Engine, available: seq<nat>, p: Plan, k: nat, i: nat)
    requires p.Valid() && i <= |p.keys| && k <= p.Count() && (i > 0 ==> k < p.Count())
    requires Serving(provider, e, available, p, k, i)
    ensures p == PlanOf(e, provider.data, available, p.chunk)
    ensures forall j :: 0 <= j < |available| ==> available[j] in provider.data
  {}

  lemma ServingNext(provider: ChunkedSliceProvider, e: Engine, available: seq<nat>, p: Plan, k: nat)
    requires p.Valid() && k < p.Count() && Serving(provider, e, available, p, k, |p.keys|)
    ensures Serving(provider, e, available, p, k + 1, 0)
  {
    hide CacheAt;
    NextChunk(p, k);
  }

  /** Reads one chunk of every present slice in key order. */
  method ReadPresent(provider: ChunkedSliceProvider, e: Engine, available: seq<nat>, ghost p: Plan, ghost k: nat,
                     offset: nat, len: nat)
    returns (chunks: seq<Bytes>)
    requires p.Valid() && k < p.Count() && |available| == |p.keys| && Serving(provider, e, available, p, k, 0)
    requires offset == p.Start(k) && len == p.Length(k)
    modifies provider
    ensures Serving(provider, e, available, p, k + 1, 0)
    ensures chunks == ServedSlices(p, k, PresentSlices(provider.data, available, |e.bases|, e.sliceSize))
  {
    hide ChunkEnd, ChunkCount, Fitted, CacheAt, Served, Serving, ServedSlices, KeyOrder;
    ServingMeans(provider, e, available, p, k, 0);
    ghost var present := PresentSlices(provider.data, available, |e.bases|, e.sliceSize);
    chunks := [];
    for i := 0 to |available|
      invariant Serving(provider, e, available, p, k, i) && |chunks| == i
      invariant forall j :: 0 <= j < i ==> chunks[j] == ServedSlices(p, k, present)[j]
    {
      var chunk := ReadOne(provider, e, available, p, k, i, offset, len);
      chunks := chunks + [chunk];
    }
    ServingNext(provider, e, available, p, k);
  }

  /** One chunk of every output. */
  method BuildChunk(s: System, inverse: Matrix, rows: Matrix, cache: TableCache, offset: nat, len: nat,
                    present: seq<Bytes>)
    returns (buffers: seq<Bytes>)
    requires s.Valid() && offset + len <= s.size && CacheValid(cache)
    requires |inverse| == |rows| == |s.missing| && Rectangular(inverse, |s.missing|) && Rectangular(rows, |s.keys|)
    requires forall o :: 0 <= o < |rows| ==>
      Covers(cache, inverse[o]) && Covers(cache, rows[o]) && SomeNonzero(inverse[o])
    requires |present| == |s.keys|
    ensures |buffers| == |s.missing|
    ensures forall o :: 0 <= o < |buffers| ==>
      buffers[o]
        == KernelSum(len, inverse[o], ChunksOf(RecoveryData(s.recs, |s.missing|), offset, len), rows[o], present)
  {
    hide KernelSum, CacheValid, Covers, SomeNonzero;
    var recovery := ChunksOf(RecoveryData(s.recs, |s.missing|), offset, len);
    buffers := [];
    for o := 0 to |s.missing|
      invariant |buffers| == o
      invariant forall i :: 0 <= i < o ==> buffers[i] == KernelSum(len, inverse[i], recovery, rows[i], present)
    {
      var slice := BuildSlice(cache, len, inverse[o], recovery, rows[o], present);
      buffers := buffers + [if slice.Filled? then slice.data else Zeros(len)];
    }
  }

  lemma RowsNonzero(s: System, inverse: Matrix)
    requires s.Valid() && |inverse| == |s.missing| && Rectangular(inverse, |s.missing|)
    requires Inverts(s.Matrix(), inverse, |s.missing|)
    ensures forall o :: 0 <= o < |inverse| ==> SomeNonzero(inverse[o])
  {
    hide SomeNonzero, Inverts, CoefficientMatrix;
    forall o | 0 <= o < |inverse|
      ensures SomeNonzero(inverse[o])
    {
      InverseRowNonzero(s.Matrix(), inverse, |s.missing|, o);
    }
  }

  /**
   * The chunked route. `available` is the order in which the input provider lists its slices; the ghost result `out`
   * collects what was computed for each missing slice.
   */
  method ReconstructChunked(e: Engine, provider: ChunkedSliceProvider, available: seq<nat>, recovery: map<nat, Bytes>,
                            missing: seq<nat>, writers: map<nat, Bytes>, chunkSize: nat)
    returns (r: ChunkOutcome, ghost out: seq<Bytes>)
    requires ProvidersReady(e, recovery, missing) && KeyOrder(available, provider.data)
    requires provider.Valid() && provider.sliceSize == e.sliceSize
      && provider.State() == SliceProvider.Cache(map[], map[], 0)
    modifies provider
    ensures missing == [] ==> r == Done(writers)
    ensures r == TooFewRecoveries <==> |missing| > |e.recs|
    ensures 0 < |missing| <= |e.recs| ==>
      (r.Done? <==> Nonsingular(SystemOf(ProvidedEngine(e, recovery), provider.data, missing, available).Matrix()))
    ensures r.NotInvertible? ==>
      |missing| <= |e.recs| && r.error.Singular?
      && FirstDependent(SystemOf(ProvidedEngine(e, recovery), provider.data, missing, available).Matrix(),
                        r.error.column)
    ensures r.Done? ==> |out| == |missing| && Appended(writers, r.writers, missing, out)
    ensures r.Done? ==> forall o :: 0 <= o < |out| ==> |out[o]| == e.sliceSize
    ensures r.Done? && 0 < |missing| ==>
      var s := SystemOf(ProvidedEngine(e, recovery), provider.data, missing, available);
      var p := PlanOf(e, provider.data, available, EffectiveChunk(chunkSize));
      s.Valid() && PlanFits(p, s) && ZeroBeyond(p, s.present) && ServedResult(s, p, out)
  {
    hide Nonsingular, Inverts, CombinedRow, CacheValid, Covers, KernelSum, ServedRow, CoefficientMatrix, Provided,
      PresentSlices, ChunksOf, ChunkEnd, ChunkCount, Fitted, SomeNonzero, ServedSlices, CacheAt, ZeroBeyond,
      ChunkedSliceProvider.Valid, ServedOutputs, FirstDependent;
    var n := |missing|;
    out := [];
    if n == 0 {
      return Done(writers), [];
    }
    if |e.recs| < n {
      return TooFewRecoveries, [];
    }
    var chunk := EffectiveChunk(chunkSize);
    var engine := ProvidedEngine(e, recovery);
    var s := SystemOf(engine, provider.data, missing, available);
    ghost var p := PlanOf(e, provider.data, available, chunk);
    SystemValid(engine, provider.data, missing, available);
    provider.SmallSlices();
    PlanOfFits(engine, provider.data, missing, available, chunk);
    var inverted := InvertSystem(engine, s, missing);
    if inverted.Err? {
      return NotInvertible(inverted.error), [];
    }
    var inverse := inverted.value;
    var rows, cache := PrepareRows(engine, s, inverse);
    RowsNonzero(s, inverse);
    forall i, j | 0 <= i < j < n
      ensures missing[i] != missing[j]
    {
      DistinctMissing(s, i, j);
    }
    var count := ChunkCount(e.sliceSize, chunk);
    var current := writers;
    out := seq(n, _ => []);
    NoChunksYet(s, p, inverse, rows, out);
    FreshCache(p);
    for k := 0 to count
      invariant Serving(provider, e, available, p, k, 0)
      invariant |out| == n && ServedOutputs(s, p, k, inverse, rows, out)
      invariant Appended(writers, current, missing, out)
    {
      ChunkStarts(p, k);
      var offset := k * chunk;
      var len := Clip(chunk, e.sliceSize - offset);
      var present := ReadPresent(provider, e, available, p, k, offset, len);
      var buffers := BuildChunk(s, inverse, rows, cache, offset, len, present);
      ghost var before, previous := current, out;
      current := WriteChunk(current, missing, buffers);
      out := seq(n, o requires 0 <= o < n => previous[o] + buffers[o]);
      AppendedTwice(writers, before, current, missing, previous, buffers, out);
      ServedOutputsStep(s, p, k, inverse, rows, previous, buffers, out);
    }
    assert SolvingRows(s, inverse, rows);
    assert ServedResult(s, p, out);
    ServedLengths(s, p, out);
    r := Done(current);
  }

  lemma NoChunksYet(s: System, p: Plan, inverse: Matrix, rows: Matrix, out: seq<Bytes>)
    requires s.Valid() && PlanFits(p, s)
    requires |inverse| == |rows| == |s.missing| && Rectangular(inverse, |s.missing|) && Rectangular(rows, |s.keys|)
    requires |out| == |s.missing| && forall o :: 0 <= o < |out| ==> out[o] == []
    ensures ServedOutputs(s, p, 0, inverse, rows, out)
  {}

  lemma FreshCache(p: Plan)
    requires p.Valid()
    ensures CacheAt(p, 0, 0) == SliceProvider.Cache(map[], map[], 0)
  {}
}
