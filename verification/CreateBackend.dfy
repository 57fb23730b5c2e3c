/** The recovery backend of the creator: inputs are staged in batches, and each batch is added to every output chunk. */
module CreateBackend {
  import opened Gf16
  import opened GaloisTable
  import opened LinearAlgebra
  import opened SliceKernel
  import opened Slices
  import opened Encoder
  import opened Divisors

  const INPUT_BATCH_SIZE: nat := 12
  const TRANSFER_BUFFER_COUNT: nat := 2

  /** One chunk handed to the backend, and the input slice it belongs to. */
  datatype Contribution = Contribution(source: nat, data: Bytes)

  ghost predicate Fit(bases: Vector, len: nat, adds: seq<Contribution>) {
    forall i :: 0 <= i < |adds| ==> adds[i].source < |bases| && |adds[i].data| == len
  }

  /** The sum of coefficient times input over everything added: what the output of an exponent should be. */
  function Total(bases: Vector, exponent: nat, len: nat, adds: seq<Contribution>): (r: Bytes)
    requires Fit(bases, len, adds)
    ensures |r| == len
  {
    if adds == [] then Zeros(len)
    else
      var last := adds[|adds| - 1];
      Plus(Total(bases, exponent, len, adds[..|adds| - 1]), Scale(Coefficient(bases[last.source], exponent), last.data))
  }

  lemma TotalStep(bases: Vector, exponent: nat, len: nat, adds: seq<Contribution>, k: nat)
    requires Fit(bases, len, adds) && k < |adds|
    ensures Total(bases, exponent, len, adds[..k + 1])
      == Plus(Total(bases, exponent, len, adds[..k]), Scale(Coefficient(bases[adds[k].source], exponent), adds[k].data))
  {
    assert adds[..k + 1][..k] == adds[..k];
  }

  function GfCoeffIndex(recovery: nat, source: nat, sourceCount: nat): nat {
    recovery * sourceCount + source
  }

  /** Coefficients are stored row by row without overlap. */
  lemma CoeffIndexOrder(r: nat, s: nat, r': nat, s': nat, count: nat)
    requires s < count && s' < count && (r < r' || (r == r' && s < s'))
    ensures GfCoeffIndex(r, s, count) < GfCoeffIndex(r', s', count)
  {
    if r < r' {
      assert r' * count == (r' - r - 1) * count + (r + 1) * count;
      assert (r + 1) * count == r * count + count;
      NonnegativeProduct(r' - r - 1, count);
    }
  }

  ghost predicate CoeffsFor(coeffs: seq<SplitTable>, bases: Vector, exponents: seq<nat>) {
    && |coeffs| == |exponents| * |bases|
    && forall r, s :: 0 <= r < |exponents| && 0 <= s < |bases| ==> CoeffAt(coeffs, bases, exponents, r, s)
  }

  ghost predicate CoeffAt(coeffs: seq<SplitTable>, bases: Vector, exponents: seq<nat>, r: nat, s: nat)
    requires r < |exponents| && s < |bases|
  {
    && GfCoeffIndex(r, s, |bases|) < |coeffs|
    && TableFor(coeffs[GfCoeffIndex(r, s, |bases|)], Coefficient(bases[s], exponents[r]))
  }

  /** The exponents of consecutive recovery blocks, cut to 16 bits. */
  function Exponents(first: nat, count: nat): (r: seq<nat>)
    ensures |r| == count && forall i :: 0 <= i < count ==> r[i] == (first + i) % 65536
  {
    seq(count, i requires 0 <= i < count => (first + i) % 65536)
  }

  method BuildCoeffs(t: Tables, bases: Vector, exponents: seq<nat>) returns (coeffs: seq<SplitTable>)
    requires t.Valid() && forall i :: 0 <= i < |exponents| ==> exponents[i] < COUNT
    ensures CoeffsFor(coeffs, bases, exponents)
  {
    hide TableFor, Coefficient, GfCoeffIndex;
    coeffs := [];
    IndexStart(0, |bases|);
    for r := 0 to |exponents|
      invariant |coeffs| == GfCoeffIndex(r, 0, |bases|)
      invariant forall r', s' :: 0 <= r' < r && 0 <= s' < |bases| ==> CoeffAt(coeffs, bases, exponents, r', s')
    {
      for s := 0 to |bases|
        invariant |coeffs| == GfCoeffIndex(r, s, |bases|)
        invariant forall r', s' :: 0 <= r' < r && 0 <= s' < |bases| ==> CoeffAt(coeffs, bases, exponents, r', s')
        invariant forall s' :: 0 <= s' < s ==> CoeffAt(coeffs, bases, exponents, r, s')
      {
        var value := BasePower(t, bases[s], exponents[r]);
        var table := BuildSplitMulTable(t, value);
        IndexStart(s, |bases|);
        IndexNext(r, s, |bases|);
        CoeffsGrow(coeffs, bases, exponents, table);
        coeffs := coeffs + [table];
      }
      IndexStart(r, |bases|);
    }
    IndexStart(|exponents|, |bases|);
  }

  lemma CoeffsGrow(coeffs: seq<SplitTable>, bases: Vector, exponents: seq<nat>, table: SplitTable)
    ensures forall r, s | 0 <= r < |exponents| && 0 <= s < |bases| && CoeffAt(coeffs, bases, exponents, r, s) ::
      CoeffAt(coeffs + [table], bases, exponents, r, s)
  {
    hide TableFor, Coefficient, GfCoeffIndex;
  }

  method BasePower(t: Tables, base: Elem, exponent: nat) returns (c: Elem)
    requires t.Valid() && exponent < COUNT
    ensures c == Coefficient(base, exponent)
  {
    hide Pow;
    c := t.Power(base, exponent);
  }

  lemma IndexNext(r: nat, s: nat, count: nat)
    ensures GfCoeffIndex(r, s + 1, count) == GfCoeffIndex(r, s, count) + 1
  {}

  lemma IndexStart(r: nat, count: nat)
    ensures GfCoeffIndex(r, count, count) == GfCoeffIndex(r + 1, 0, count)
    ensures GfCoeffIndex(r, 0, count) == r * count
  {}

  /** Adding an input of the chunk length to the front of an output. */
  lemma FrontWritten(c: Elem, input: Bytes, before: Bytes)
    requires |input| <= |before|
    ensures Written(Accumulate, c, input, before)[..|input|] == Plus(before[..|input|], Scale(c, input))
  {
    hide Scale, Plus;
    assert input[..|input|] == input;
  }

  method NewBuffers(count: nat, len: nat) returns (buffers: seq<array<Byte>>)
    ensures |buffers| == count
    ensures forall i :: 0 <= i < count ==> fresh(buffers[i]) && buffers[i].Length == len
    ensures forall i, j :: 0 <= i < j < count ==> buffers[i] != buffers[j]
  {
    buffers := [];
    for k := 0 to count
      invariant |buffers| == k
      invariant forall i :: 0 <= i < k ==> fresh(buffers[i]) && buffers[i].Length == len
      invariant forall i, j :: 0 <= i < j < k ==> buffers[i] != buffers[j]
    {
      var buffer := new Byte[len](_ => 0);
      buffers := buffers + [buffer];
    }
  }

  datatype RecoveryBlockData = RecoveryBlockData(exponent: nat, data: Bytes)

  lemma CoeffKnown(coeffs: seq<SplitTable>, bases: Vector, exponents: seq<nat>, r: nat, s: nat)
    requires CoeffsFor(coeffs, bases, exponents) && r < |exponents| && s < |bases|
    ensures CoeffAt(coeffs, bases, exponents, r, s)
  {}

  class CreateRecoveryBackend {
    const exponents: seq<nat>
    const sourceCount: nat
    const coeffs: seq<SplitTable>
    const outputChunks: seq<array<Byte>>
    const inputStaging: seq<array<Byte>>
    const transferBuffers: seq<array<Byte>>
    var batchSourceIndices: seq<nat>
    var batchLen: nat
    var chunkLen: nat

    ghost const bases: Vector
    ghost const maxChunkLen: nat
    /** Everything added since the chunk began. */
    ghost var added: seq<Contribution>

    ghost predicate Shape() {
      && sourceCount == |bases| && CoeffsFor(coeffs, bases, exponents)
      && |outputChunks| == |exponents| && |inputStaging| == INPUT_BATCH_SIZE
        && |transferBuffers| == TRANSFER_BUFFER_COUNT
      && (forall i :: 0 <= i < |outputChunks| ==> outputChunks[i].Length == maxChunkLen)
      && (forall i :: 0 <= i < |inputStaging| ==> inputStaging[i].Length == maxChunkLen)
      && (forall i :: 0 <= i < |transferBuffers| ==> transferBuffers[i].Length == maxChunkLen)
      && (forall i, j :: 0 <= i < j < |outputChunks| ==> outputChunks[i] != outputChunks[j])
      && (forall i, j :: 0 <= i < j < |inputStaging| ==> inputStaging[i] != inputStaging[j])
      && (forall i, j :: 0 <= i < |outputChunks| && 0 <= j < |inputStaging| ==> outputChunks[i] != inputStaging[j])
      && (forall i, j :: 0 <= i < |transferBuffers| && 0 <= j < |inputStaging| ==>
          transferBuffers[i] != inputStaging[j])
      && (forall i, j :: 0 <= i < |transferBuffers| && 0 <= j < |outputChunks| ==>
          transferBuffers[i] != outputChunks[j])
    }

    /** The contributions that are already in the outputs; the rest is staged. */
    ghost function Flushed(): seq<Contribution>
      reads this
      requires batchLen <= |added|
    {
      added[..|added| - batchLen]
    }

    /** Output `r` holds the sum of `adds`. */
    ghost predicate Holds(r: nat, adds: seq<Contribution>)
      requires r < |outputChunks| && r < |exponents|
      reads this`chunkLen, outputChunks[r]
    {
      && chunkLen <= outputChunks[r].Length && Fit(bases, chunkLen, adds)
      && outputChunks[r][..chunkLen] == Total(bases, exponents[r], chunkLen, adds)
    }

    /** Slot `i` of the staging area holds the i-th contribution of the batch. */
    ghost predicate Staged(i: nat)
      requires i < |inputStaging|
      requires i < batchLen <= |added| && batchLen <= |batchSourceIndices|
      reads this, inputStaging[i]
    {
      && chunkLen <= inputStaging[i].Length
      && inputStaging[i][..chunkLen] == added[|added| - batchLen + i].data
      && batchSourceIndices[i] == added[|added| - batchLen + i].source
    }

    /** The staging area holds the last contributions. */
    ghost predicate Pending()
      reads this, inputStaging
    {
      && Shape()
      && chunkLen <= maxChunkLen && batchLen <= INPUT_BATCH_SIZE && |batchSourceIndices| == INPUT_BATCH_SIZE
      && batchLen <= |added| && Fit(bases, chunkLen, added)
      && forall i :: 0 <= i < batchLen ==> Staged(i)
    }

    /** Outputs plus the staged batch account for everything added. */
    ghost predicate Accounted()
      reads this, outputChunks, inputStaging
    {
      Pending() && forall r :: 0 <= r < |outputChunks| ==> Holds(r, Flushed())
    }

    ghost predicate Valid()
      reads this, outputChunks, inputStaging
    {
      Accounted() && batchLen < INPUT_BATCH_SIZE
    }

    constructor (t: Tables, bases': Vector, first: nat, count: nat, maxChunk: nat)
      requires t.Valid()
      ensures Valid()
      ensures forall i :: 0 <= i < |outputChunks| ==> fresh(outputChunks[i])
      ensures forall i :: 0 <= i < |inputStaging| ==> fresh(inputStaging[i])
      ensures forall i :: 0 <= i < |transferBuffers| ==> fresh(transferBuffers[i])
      ensures bases == bases' && exponents == Exponents(first, count) && maxChunkLen == maxChunk
      ensures chunkLen == 0 && added == []
    {
      var exps := Exponents(first, count);
      var tables := BuildCoeffs(t, bases', exps);
      var outputs := NewBuffers(count, maxChunk);
      var staging := NewBuffers(INPUT_BATCH_SIZE, maxChunk);
      var transfers := NewBuffers(TRANSFER_BUFFER_COUNT, maxChunk);
      exponents, sourceCount, coeffs := exps, |bases'|, tables;
      outputChunks, inputStaging, transferBuffers := outputs, staging, transfers;
      batchSourceIndices := seq(INPUT_BATCH_SIZE, _ => 0);
      batchLen, chunkLen := 0, 0;
      bases, maxChunkLen, added := bases', maxChunk, [];
      new;
      hide CoeffsFor;
      forall r | 0 <= r < |outputChunks|
        ensures Holds(r, Flushed())
      {
        assert outputChunks[r][..0] == Zeros(0);
      }
    }

    method BeginChunk(len: nat)
      requires Valid() && len <= maxChunkLen
      modifies this, outputChunks
      ensures Valid() && chunkLen == len && added == []
    {
      hide CoeffsFor;
      chunkLen := len;
      batchLen := 0;
      added := [];
      for r := 0 to |outputChunks|
        invariant chunkLen == len && batchLen == 0 && added == [] && batchSourceIndices == old(batchSourceIndices)
        invariant forall i :: 0 <= i < r ==> Holds(i, [])
      {
        Clear(outputChunks[r], len);
        assert outputChunks[r][..len] == Zeros(len);
      }
    }

    static method Clear(buffer: array<Byte>, len: nat)
      requires len <= buffer.Length
      modifies buffer
      ensures forall i :: 0 <= i < len ==> buffer[i] == 0
    {
      for i := 0 to len
        invariant forall k :: 0 <= k < i ==> buffer[k] == 0
      {
        buffer[i] := 0;
      }
    }

    /** A zeroed transfer buffer; the caller writes the input chunk into it. */
    method PrepareTransferBuffer(ringIndex: nat) returns (buffer: array<Byte>)
      requires Valid()
      modifies transferBuffers
      ensures Valid()
      ensures buffer == transferBuffers[ringIndex % TRANSFER_BUFFER_COUNT]
      ensures buffer in transferBuffers && buffer !in outputChunks && buffer !in inputStaging
        && chunkLen <= buffer.Length
      ensures forall i :: 0 <= i < chunkLen ==> buffer[i] == 0
    {
      hide CoeffsFor;
      buffer := transferBuffers[ringIndex % |transferBuffers|];
      Clear(buffer, chunkLen);
    }

    static method CopyFront(source: Bytes, target: array<Byte>)
      requires |source| <= target.Length
      modifies target
      ensures target[..|source|] == source
      ensures forall i :: |source| <= i < target.Length ==> target[i] == old(target[i])
    {
      for i := 0 to |source|
        invariant target[..i] == source[..i]
        invariant forall k :: |source| <= k < target.Length ==> target[k] == old(target[k])
      {
        target[i] := source[i];
      }
    }

    method AddInput(sourceIdx: nat, input: Bytes)
      requires Valid() && sourceIdx < sourceCount && |input| == chunkLen
      modifies this, outputChunks, inputStaging
      ensures Valid() && chunkLen == old(chunkLen)
      ensures added == old(added) + [Contribution(sourceIdx, input)]
    {
      hide CoeffsFor, Total;
      var slot := batchLen;
      CopyFront(input, inputStaging[slot]);
      batchSourceIndices := batchSourceIndices[slot := sourceIdx];
      batchLen := batchLen + 1;
      added := added + [Contribution(sourceIdx, input)];
      assert Flushed() == old(Flushed());
      forall r | 0 <= r < |outputChunks|
        ensures Holds(r, Flushed())
      {
        assert old(Holds(r, Flushed()));
        assert outputChunks[r][..chunkLen] == old(outputChunks[r][..chunkLen]);
      }
      forall i | 0 <= i < batchLen
        ensures Staged(i)
      {
        if i < slot {
          assert old(Staged(i));
          assert inputStaging[i][..chunkLen] == old(inputStaging[i][..chunkLen]);
        }
      }
      if batchLen == |inputStaging| {
        FlushBatch();
      }
    }

    method AddTransferInput(sourceIdx: nat, ringIndex: nat)
      requires Valid() && sourceIdx < sourceCount
      modifies this, outputChunks, inputStaging
      ensures Valid() && chunkLen == old(chunkLen)
      ensures added == old(added) +
        [Contribution(sourceIdx, old(transferBuffers[ringIndex % TRANSFER_BUFFER_COUNT][..chunkLen]))]
    {
      var idx := ringIndex % |transferBuffers|;
      AddInput(sourceIdx, transferBuffers[idx][..chunkLen]);
    }

    lemma OutputApart(r: nat)
      requires Shape() && r < |outputChunks|
      ensures outputChunks[r] !in inputStaging && forall i :: 0 <= i < |outputChunks| && i != r ==>
        outputChunks[i] != outputChunks[r]
    {}

    /** Adds one staged contribution to output `r`. */
    method ApplyStaged(r: nat, i: nat)
      requires Pending() && i < batchLen && r < |outputChunks|
      requires Holds(r, added[..|added| - batchLen + i])
      modifies outputChunks[r]
      ensures Holds(r, added[..|added| - batchLen + i + 1])
    {
      hide CoeffsFor, TableFor, Coefficient, Written, Total;
      assert Staged(i);
      var output, source := outputChunks[r], batchSourceIndices[i];
      ghost var c := Coefficient(bases[source], exponents[r]);
      CoeffKnown(coeffs, bases, exponents, r, source);
      var input := inputStaging[i][..chunkLen];
      FrontWritten(c, input, output[..]);
      assert output[..][..chunkLen] == output[..chunkLen];
      ProcessSlice(input, output, coeffs[GfCoeffIndex(r, source, sourceCount)], Accumulate, c);
      assert output[..chunkLen] == output[..][..chunkLen];
      TotalStep(bases, exponents[r], chunkLen, added, |added| - batchLen + i);
    }

    /** Adds the staged batch to output `r`. */
    method ApplyBatch(r: nat)
      requires Pending() && r < |outputChunks| && Holds(r, Flushed())
      modifies outputChunks[r]
      ensures Holds(r, added)
    {
      hide CoeffsFor, Fit, Total, Staged;
      OutputApart(r);
      hide Pending, Holds, Shape;
      for i := 0 to batchLen
        invariant Pending() && Holds(r, added[..|added| - batchLen + i])
      {
        ApplyStaged(r, i);
      }
      assert added[..|added| - batchLen + batchLen] == added;
    }

    method FlushBatch()
      requires Accounted()
      modifies this`batchLen, outputChunks
      ensures Valid() && chunkLen == old(chunkLen) && added == old(added) && batchLen == 0
    {
      hide CoeffsFor, Total, Staged, Holds;
      if batchLen == 0 {
        return;
      }
      for r := 0 to |outputChunks|
        invariant Pending() && batchLen == old(batchLen)
        invariant forall i :: 0 <= i < r ==> Holds(i, added)
        invariant forall i :: r <= i < |outputChunks| ==> Holds(i, Flushed())
      {
        OutputApart(r);
        ApplyBatch(r);
      }
      batchLen := 0;
      assert Flushed() == added;
    }

    /** Flushes, and appends the chunk of every output to the recovery block it belongs to. */
    method FinishChunk(blocks: seq<RecoveryBlockData>) returns (r: seq<RecoveryBlockData>)
      requires Valid()
      modifies this`batchLen, outputChunks
      ensures Valid() && chunkLen == old(chunkLen) && added == old(added) && batchLen == 0
      ensures |r| == |blocks|
      ensures forall i :: 0 <= i < |r| && i < |exponents| ==>
        r[i] == blocks[i].(data := blocks[i].data + Total(bases, exponents[i], chunkLen, added))
      ensures forall i :: |exponents| <= i < |r| ==> r[i] == blocks[i]
    {
      hide CoeffsFor, Total;
      FlushBatch();
      r := blocks;
      var n := if |outputChunks| < |blocks| then |outputChunks| else |blocks|;
      for i := 0 to n
        invariant |r| == |blocks| && forall k :: i <= k < |r| ==> r[k] == blocks[k]
        invariant forall k :: 0 <= k < i ==>
          r[k] == blocks[k].(data := blocks[k].data + Total(bases, exponents[k], chunkLen, added))
      {
        assert Flushed() == added;
        assert Holds(i, Flushed());
        r := r[i := r[i].(data := r[i].data + outputChunks[i][..chunkLen])];
      }
    }

    /** One empty recovery block per exponent. */
    method RecoveryBlocks() returns (r: seq<RecoveryBlockData>)
      ensures |r| == |exponents| && forall i :: 0 <= i < |r| ==> r[i] == RecoveryBlockData(exponents[i], [])
    {
      r := seq(|exponents|, i requires 0 <= i < |exponents| => RecoveryBlockData(exponents[i], []));
    }
  }
}
