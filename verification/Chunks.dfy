/** Working on slices one chunk at a time gives the chunks of the result, when chunks respect word boundaries. */
module Chunks {
  import opened Divisors
  import opened Gf16
  import opened LinearAlgebra
  import opened SliceKernel
  import opened Slices
  import opened Encoder
  import opened Contributions

  /** A chunk that starts on a word and ends on one, or at the end of the slice. */
  predicate WordAligned(offset: nat, len: nat, size: nat) {
    offset % 2 == 0 && offset + len <= size && (len % 2 == 0 || offset + len == size)
  }

  function ChunksOf(slices: seq<Bytes>, offset: nat, len: nat): (r: seq<Bytes>)
    requires forall i :: 0 <= i < |slices| ==> offset + len <= |slices[i]|
    ensures |r| == |slices| && forall i :: 0 <= i < |slices| ==> r[i] == slices[i][offset..offset + len]
  {
    seq(|slices|, i requires 0 <= i < |slices| => slices[i][offset..offset + len])
  }

  lemma ScaledByteOfChunk(c: Elem, s: Bytes, offset: nat, len: nat, i: nat)
    requires WordAligned(offset, len, |s|) && i < len
    ensures ScaledByte(c, s[offset..offset + len], i) == ScaledByte(c, s, offset + i)
  {
    hide Mul, Low, High, Word, LowWord;
    SameParity(offset, i);
    var chunk := s[offset..offset + len];
    assert chunk[i] == s[offset + i];
    if i % 2 == 1 {
      assert chunk[i - 1] == s[offset + i - 1];
    } else if i + 1 < len {
      assert chunk[i + 1] == s[offset + i + 1];
    } else {
      SameParity(len, 0);
    }
  }

  lemma SameParity(offset: nat, i: nat)
    ensures offset % 2 == 0 ==> (offset + i) % 2 == i % 2
  {}

  lemma ScaleOfChunk(c: Elem, s: Bytes, offset: nat, len: nat)
    requires WordAligned(offset, len, |s|)
    ensures Scale(c, s[offset..offset + len]) == Scale(c, s)[offset..offset + len]
  {
    hide ScaledByte;
    var (chunk, whole) := (Scale(c, s[offset..offset + len]), Scale(c, s)[offset..offset + len]);
    forall i | 0 <= i < len
      ensures chunk[i] == whole[i]
    {
      ScaledByteOfChunk(c, s, offset, len, i);
    }
  }

  lemma PlusOfChunk(s: Bytes, u: Bytes, offset: nat, len: nat)
    requires |s| == |u| && offset + len <= |s|
    ensures Plus(s[offset..offset + len], u[offset..offset + len]) == Plus(s, u)[offset..offset + len]
  {
    hide XorByte;
  }

  lemma {:induction false} CombinationOfChunk(acc: Bytes, coeffs: Vector, slices: seq<Bytes>, n: nat, offset: nat,
                                              len: nat)
    requires n <= |coeffs| && n <= |slices| && WordAligned(offset, len, |acc|)
    requires forall i :: 0 <= i < |slices| ==> |acc| <= |slices[i]|
    ensures Combination(acc[offset..offset + len], coeffs, ChunksOf(slices, offset, len), n)
      == Combination(acc, coeffs, slices, n)[offset..offset + len]
    decreases n
  {
    hide Scale, Plus, Combination;
    if n == 0 {
      CombinationStart(acc, coeffs, slices);
      CombinationStart(acc[offset..offset + len], coeffs, ChunksOf(slices, offset, len));
    } else {
      var front := slices[n - 1][..|acc|];
      CombinationNext(acc, coeffs, slices, n);
      CombinationNext(acc[offset..offset + len], coeffs, ChunksOf(slices, offset, len), n);
      CombinationOfChunk(acc, coeffs, slices, n - 1, offset, len);
      ScaleOfChunk(coeffs[n - 1], front, offset, len);
      PlusOfChunk(Combination(acc, coeffs, slices, n - 1), Scale(coeffs[n - 1], front), offset, len);
      assert ChunksOf(slices, offset, len)[n - 1][..len] == front[offset..offset + len];
    }
  }

  lemma ZerosOfChunk(size: nat, offset: nat, len: nat)
    requires offset + len <= size
    ensures Zeros(size)[offset..offset + len] == Zeros(len)
  {}

  lemma RowSumOfChunk(size: nat, recoveryRow: Vector, recovery: seq<Bytes>, presentRow: Vector, present: seq<Bytes>,
                      offset: nat, len: nat)
    requires |recoveryRow| == |recovery| && |presentRow| == |present| && WordAligned(offset, len, size)
    requires forall i :: 0 <= i < |recovery| ==> size <= |recovery[i]|
    requires forall i :: 0 <= i < |present| ==> size <= |present[i]|
    ensures RowSum(len, recoveryRow, ChunksOf(recovery, offset, len), presentRow, ChunksOf(present, offset, len))
      == RowSum(size, recoveryRow, recovery, presentRow, present)[offset..offset + len]
  {
    hide Combination, Zeros;
    ZerosOfChunk(size, offset, len);
    CombinationOfChunk(Zeros(size), recoveryRow, recovery, |recovery|, offset, len);
    CombinationOfChunk(Combination(Zeros(size), recoveryRow, recovery, |recovery|), presentRow, present, |present|,
                       offset, len);
  }

  // ----- cutting a slice into chunks

  /** Chunks that never cut a word in two. */
  predicate KeepsWords(chunk: nat, size: nat) { chunk % 2 == 0 || size <= chunk }

  function ChunkEnd(k: nat, chunk: nat, size: nat): (e: nat)
    ensures e <= size
  {
    if k * chunk <= size then k * chunk else size
  }

  lemma ChunkEndStep(k: nat, chunk: nat, size: nat)
    ensures ChunkEnd(k, chunk, size) <= ChunkEnd(k + 1, chunk, size)
    ensures (k + 1) * chunk == k * chunk + chunk
  {}

  lemma ChunkAligned(k: nat, chunk: nat, size: nat)
    requires KeepsWords(chunk, size)
    ensures ChunkEnd(k, chunk, size) <= ChunkEnd(k + 1, chunk, size)
    ensures var offset, end := ChunkEnd(k, chunk, size), ChunkEnd(k + 1, chunk, size);
      offset == end || WordAligned(offset, end - offset, size)
  {
    ChunkEndStep(k, chunk, size);
    if chunk % 2 == 0 {
      EvenMultiple(k, chunk);
      EvenMultiple(k + 1, chunk);
    } else if k == 0 {
      assert 0 * chunk == 0;
    } else {
      assert k * chunk >= chunk by { assert k * chunk == (k - 1) * chunk + chunk; NonnegativeProduct(k - 1, chunk); }
    }
  }

  lemma EvenMultiple(k: nat, chunk: nat)
    requires chunk % 2 == 0
    ensures (k * chunk) % 2 == 0
  {
    assert k * chunk == 2 * (k * (chunk / 2));
  }

  lemma NoChunk(chunk: nat, size: nat)
    ensures ChunkEnd(0, chunk, size) == 0
  {}

  function ChunkCount(size: nat, chunk: nat): nat
    requires chunk > 0
  {
    (size + chunk - 1) / chunk
  }

  lemma CountedChunks(chunk: nat, size: nat)
    requires chunk > 0
    ensures ChunkEnd(ChunkCount(size, chunk), chunk, size) == size
  {
    LastChunk(chunk, size, ChunkCount(size, chunk));
  }

  lemma LastChunk(chunk: nat, size: nat, count: nat)
    requires chunk > 0 && count == (size + chunk - 1) / chunk
    ensures ChunkEnd(count, chunk, size) == size
    ensures forall k: nat :: k < count ==> ChunkEnd(k, chunk, size) == k * chunk
  {
    assert (size + chunk - 1) == chunk * count + (size + chunk - 1) % chunk;
    assert chunk * count == count * chunk;
    forall k: nat | k < count
      ensures k * chunk <= size
    {
      assert (count - 1) * chunk == count * chunk - chunk;
      NonnegativeProduct(count - 1 - k, chunk);
      assert (count - 1 - k) * chunk == (count - 1) * chunk - k * chunk;
    }
  }
}
