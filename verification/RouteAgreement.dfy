/** The three reconstruction routes produce the same slices. */
module RouteAgreement {
  import opened GaussJordan
  import opened SliceKernel
  import opened RecoveryEquations
  import opened Contributions
  import opened Reconstruction
  import opened WordReconstruction
  import opened Chunks
  import opened SourceBlocks
  import opened SliceProvider
  import opened ServedChunks
  import opened ChunkedReconstruction

  /** Recovery slices have the full, even length, and no present slice ends within a word. */
  ghost predicate EvenLengths(e: Engine, existing: map<nat, Bytes>) {
    && e.sliceSize % 2 == 0
    && (forall i :: 0 <= i < |e.recs| ==> |e.recs[i].data| == e.sliceSize)
    && (forall l :: l in existing ==> WholeWords(existing[l], e.sliceSize))
  }

  /** Both ways of padding a slice agree when it consists of whole words. */
  lemma PaddedIsFitted(s: Bytes, size: nat)
    requires size % 2 == 0 && WholeWords(s, size)
    ensures Padded(s, size) == Fitted(s, size)
  {}

  /** `all` holds under global indices what `existing` holds under local ones, in corresponding orders. */
  ghost predicate Renamed(e: Engine, existing: map<nat, Bytes>, missing: seq<nat>, toGlobal: map<nat, nat>,
                          keys: seq<nat>, all: map<nat, Bytes>, missing': seq<nat>, keys': seq<nat>) {
    && |missing'| == |missing| && |keys'| == |keys|
    && (forall c :: 0 <= c < |missing| ==> missing[c] in toGlobal && toGlobal[missing[c]] == missing'[c])
    && (forall i :: 0 <= i < |keys| ==>
        keys[i] in existing && keys[i] in toGlobal && toGlobal[keys[i]] == keys'[i] < |e.bases|)
    && (forall i :: 0 <= i < |keys| ==> keys'[i] in all && all[keys'[i]] == existing[keys[i]])
  }

  /** The word route and the slice route face the same equations. */
  lemma SameSystem(e: Engine, existing: map<nat, Bytes>, missing: seq<nat>, toGlobal: map<nat, nat>, keys: seq<nat>,
                   all: map<nat, Bytes>, missing': seq<nat>, keys': seq<nat>)
    requires EvenLengths(e, existing) && Renamed(e, existing, missing, toGlobal, keys, all, missing', keys')
    requires forall c :: 0 <= c < |missing'| ==> missing'[c] < |e.bases|
    ensures WordSystem(e, existing, missing, toGlobal, keys) == SystemOf(e, all, missing', keys')
  {
    hide Padded, Fitted, WholeWords;
    forall i | 0 <= i < |e.recs|
      ensures PaddedRecoveries(e.recs, e.sliceSize)[i] == e.recs[i]
    {
      PaddedWhole(e.recs[i].data, e.sliceSize);
    }
    assert PaddedRecoveries(e.recs, e.sliceSize) == e.recs;
    forall i | 0 <= i < |keys|
      ensures PaddedPresent(existing, keys, e.sliceSize)[i] == PresentSlices(all, keys', |e.bases|, e.sliceSize)[i]
    {
      PaddedIsFitted(existing[keys[i]], e.sliceSize);
    }
    assert PaddedPresent(existing, keys, e.sliceSize) == PresentSlices(all, keys', |e.bases|, e.sliceSize);
    assert GlobalsOf(toGlobal, missing, |e.bases|) == missing';
    assert GlobalsOf(toGlobal, keys, |e.bases|) == keys';
  }

  /** What the recovery provider serves is what the engine holds. */
  ghost predicate Serves(e: Engine, recovery: map<nat, Bytes>) {
    forall i :: 0 <= i < |e.recs| ==> e.recs[i].exponent in recovery && recovery[e.recs[i].exponent] == e.recs[i].data
  }

  lemma ServedEngine(e: Engine, recovery: map<nat, Bytes>)
    requires Serves(e, recovery)
    ensures ProvidedEngine(e, recovery) == e
  {
    assert Provided(e.recs, recovery) == e.recs;
  }

  /** The writers start out empty. */
  ghost predicate EmptyWriters(writers: map<nat, Bytes>, missing: seq<nat>) {
    forall c :: 0 <= c < |missing| ==> missing[c] in writers && writers[missing[c]] == []
  }

  lemma WritersHold(writers: map<nat, Bytes>, after: map<nat, Bytes>, missing: seq<nat>, out: seq<Bytes>)
    requires EmptyWriters(writers, missing) && |out| == |missing| && Appended(writers, after, missing, out)
    ensures forall c :: 0 <= c < |missing| ==> missing[c] in after
    ensures Collected(after, missing) == out
  {
    forall c | 0 <= c < |missing|
      ensures missing[c] in after && after[missing[c]] == out[c]
    {
      assert missing[c] in writers;
      assert [] + out[c] == out[c];
    }
  }

  /** The setting in which the routes are comparable: the same slices, under local and under global indices. */
  ghost predicate Comparable(e: Engine, existing: map<nat, Bytes>, missing: seq<nat>, toGlobal: map<nat, nat>,
                             keys: seq<nat>, all: map<nat, Bytes>, missing': seq<nat>, keys': seq<nat>,
                             recovery: map<nat, Bytes>) {
    && WordReady(e, existing, missing, toGlobal, keys)
    && Ready(e, missing') && KeyOrder(keys', all)
    && ProvidersReady(e, recovery, missing') && Serves(e, recovery)
    && EvenLengths(e, existing) && 2 <= e.sliceSize
    && Renamed(e, existing, missing, toGlobal, keys, all, missing', keys')
    && 0 < |missing| <= |e.recs|
  }

  lemma ComparableMeans(e: Engine, existing: map<nat, Bytes>, missing: seq<nat>, toGlobal: map<nat, nat>,
                        keys: seq<nat>, all: map<nat, Bytes>, missing': seq<nat>, keys': seq<nat>,
                        recovery: map<nat, Bytes>)
    requires Comparable(e, existing, missing, toGlobal, keys, all, missing', keys', recovery)
    ensures WordReady(e, existing, missing, toGlobal, keys) && Ready(e, missing') && KeyOrder(keys', all)
    ensures KeyOrder(keys, existing) && ProvidersReady(e, recovery, missing')
    ensures AllMapped(missing, toGlobal) && SystemOf(e, all, missing', keys').Valid()
    ensures WordSystem(e, existing, missing, toGlobal, keys) == SystemOf(e, all, missing', keys')
    ensures ProvidedEngine(e, recovery) == e
  {
    hide Padded;
    SameSystem(e, existing, missing, toGlobal, keys, all, missing', keys');
    SystemValid(e, all, missing', keys');
    ServedEngine(e, recovery);
  }

  lemma SliceBySlice(a: map<nat, Bytes>, missing: seq<nat>, b: map<nat, Bytes>, missing': seq<nat>)
    requires |missing| == |missing'|
    requires forall c :: 0 <= c < |missing| ==> missing[c] in a
    requires forall c :: 0 <= c < |missing'| ==> missing'[c] in b
    requires Collected(a, missing) == Collected(b, missing')
    ensures forall c :: 0 <= c < |missing| ==> a[missing[c]] == b[missing'[c]]
  {
    forall c | 0 <= c < |missing|
      ensures a[missing[c]] == b[missing'[c]]
    {
      assert Collected(a, missing)[c] == Collected(b, missing')[c];
    }
  }

  lemma EvenKeepsWords(chunkSize: nat, size: nat)
    requires chunkSize % 2 == 0
    ensures KeepsWords(EffectiveChunk(chunkSize), size)
  {}

  /** What locations within a slice hold of the present slices. */
  function Trimmed(all: map<nat, Bytes>, size: nat): (r: map<nat, Bytes>)
    ensures r.Keys == all.Keys && forall g :: g in all ==> r[g] == all[g][..Clip(|all[g]|, size)]
  {
    map g | g in all :: all[g][..Clip(|all[g]|, size)]
  }

  lemma TrimmedFits(e: Engine, all: map<nat, Bytes>, missing: seq<nat>, keys: seq<nat>)
    requires KeyOrder(keys, all)
    ensures KeyOrder(keys, Trimmed(all, e.sliceSize))
    ensures forall g :: g in all ==> |Trimmed(all, e.sliceSize)[g]| <= e.sliceSize
    ensures SystemOf(e, Trimmed(all, e.sliceSize), missing, keys) == SystemOf(e, all, missing, keys)
  {
    hide Fitted;
    var (a, b) := (PresentSlices(all, keys, |e.bases|, e.sliceSize),
                   PresentSlices(Trimmed(all, e.sliceSize), keys, |e.bases|, e.sliceSize));
    forall i | 0 <= i < |keys|
      ensures a[i] == b[i]
    {
      FittedTrimmed(all[keys[i]], e.sliceSize);
    }
    assert a == b;
  }

  lemma FittedTrimmed(s: Bytes, size: nat)
    ensures Fitted(s[..Clip(|s|, size)], size) == Fitted(s, size)
  {}

  /** Slices of even length arrive in whole words from a provider of even chunks. */
  lemma EvenArrives(e: Engine, all: map<nat, Bytes>, keys: seq<nat>, chunk: nat)
    requires KeyOrder(keys, all) && chunk > 0 && KeepsWords(chunk, e.sliceSize) && e.sliceSize % 2 == 0
    requires forall g :: g in all ==> WholeWords(all[g], e.sliceSize)
    ensures var p := PlanOf(e, Trimmed(all, e.sliceSize), keys, chunk); p.Valid() && CutsNothing(p)
  {
    hide KeepsWords, CutsWord;
    var p := PlanOf(e, Trimmed(all, e.sliceSize), keys, chunk);
    forall k, i | 0 <= k < p.Count() && 0 <= i < |p.keys|
      ensures !CutsWord(p, k, i)
    {
      SafeLengthsCutNothing(p, k, i);
    }
  }

  lemma WordsInOrder(e: Engine, existing: map<nat, Bytes>, missing: seq<nat>, toGlobal: map<nat, nat>, keys: seq<nat>,
                     all: map<nat, Bytes>, missing': seq<nat>, keys': seq<nat>, recovery: map<nat, Bytes>)
    requires Comparable(e, existing, missing, toGlobal, keys, all, missing', keys', recovery)
    ensures e.sliceSize % 2 == 0 && NoHalfWords(e, all)
    ensures forall g :: g in all ==> WholeWords(all[g], e.sliceSize)
  {
    hide WholeWords;
    forall g | g in all
      ensures WholeWords(all[g], e.sliceSize)
    {
      var i :| 0 <= i < |keys'| && keys'[i] == g;
      assert all[keys'[i]] == existing[keys[i]];
    }
  }

  /**
   * Runs the three routes on the same slices. They succeed together, exactly when the coefficient matrix is
   * nonsingular, and then every missing slice comes out the same from all three.
   */
  method ReconstructThreeWays(e: Engine, existing: map<nat, Bytes>, missing: seq<nat>, toGlobal: map<nat, nat>,
                              keys: seq<nat>, all: map<nat, Bytes>, missing': seq<nat>, keys': seq<nat>,
                              recovery: map<nat, Bytes>, writers: map<nat, Bytes>, chunkSize: nat)
    returns (words: Outcome, whole: Outcome, chunked: ChunkOutcome)
    requires Comparable(e, existing, missing, toGlobal, keys, all, missing', keys', recovery)
    requires EmptyWriters(writers, missing') && chunkSize % 2 == 0
    ensures words.Success? <==> whole.Success?
    ensures whole.Success? <==> chunked.Done?
    ensures whole.Success? <==> Nonsingular(CoefficientMatrix(e.bases, e.recs, missing'))
    ensures whole.Success? ==> forall c :: 0 <= c < |missing| ==>
      && missing[c] in words.slices && missing'[c] in whole.slices && missing'[c] in chunked.writers
      && words.slices[missing[c]] == whole.slices[missing'[c]] == chunked.writers[missing'[c]]
  {
    ComparableMeans(e, existing, missing, toGlobal, keys, all, missing', keys', recovery);
    hide Nonsingular, Padded, CoefficientMatrix, WordSystem, SystemOf, Appended, ProvidedEngine, Provided, Serves,
      System.Satisfied, System.Valid, AllMapped, KeyOrder, EmptyWriters, Comparable, WordReady, Ready, ProvidersReady,
      Collected, KeepsWords, EffectiveChunk, Trimmed, ServedResult, ZeroBeyond, CutsNothing, ChunkedSliceProvider.Valid;
    WordsInOrder(e, existing, missing, toGlobal, keys, all, missing', keys', recovery);
    TrimmedFits(e, all, missing', keys');
    EvenKeepsWords(chunkSize, e.sliceSize);
    EvenArrives(e, all, keys', EffectiveChunk(chunkSize));
    var provider := new ChunkedSliceProvider(e.sliceSize, Trimmed(all, e.sliceSize));
    ghost var s := SystemOf(e, all, missing', keys');
    ghost var out;
    words := ReconstructByWords(e, existing, missing, toGlobal, keys);
    whole := ReconstructGlobal(e, all, missing', keys');
    chunked, out := ReconstructChunked(e, provider, keys', recovery, missing', writers, chunkSize);
    if whole.Success? {
      var byWords, bySlices := Collected(words.slices, missing), Collected(whole.slices, missing');
      ghost var p := PlanOf(e, provider.data, keys', EffectiveChunk(chunkSize));
      ServedResultSatisfies(s, p, out);
      ReconstructionUnique(s, byWords, bySlices);
      ReconstructionUnique(s, out, bySlices);
      WritersHold(writers, chunked.writers, missing', out);
      SliceBySlice(words.slices, missing, whole.slices, missing');
      SliceBySlice(chunked.writers, missing', whole.slices, missing');
    }
  }
}
