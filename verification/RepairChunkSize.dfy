/** The chunk size repair asks for, and which chunk sizes leave the multiplication kernel correct. */
module RepairChunkSize {
  import opened Gf16
  import opened GaloisTable
  import opened SliceKernel
  import opened Slices
  import opened Chunks
  import opened ChunkedReconstruction

  /** The product computed chunk by chunk, each chunk on its own. */
  function ChunkedScale(c: Elem, s: Bytes, chunk: nat): (r: Bytes)
    requires chunk > 0
    ensures |r| == |s|
    decreases |s|
  {
    if |s| <= chunk then Scale(c, s) else Scale(c, s[..chunk]) + ChunkedScale(c, s[chunk..], chunk)
  }

  /** No coefficient and no slice of the given size tells chunks from the whole. */
  ghost predicate ChunkingHarmless(chunk: nat, size: nat)
    requires chunk > 0
  {
    forall c: Elem, s: Bytes | |s| == size :: ChunkedScale(c, s, chunk) == Scale(c, s)
  }

  lemma {:induction false} EvenChunks(c: Elem, s: Bytes, chunk: nat)
    requires chunk > 0 && chunk % 2 == 0
    ensures ChunkedScale(c, s, chunk) == Scale(c, s)
    decreases |s|
  {
    hide ScaledByte, Scale;
    if |s| > chunk {
      EvenChunks(c, s[chunk..], chunk);
      ScaleOfChunk(c, s, 0, chunk);
      ScaleOfChunk(c, s, chunk, |s| - chunk);
      CutAt(s, chunk);
      CutAt(Scale(c, s), chunk);
    }
  }

  lemma CutAt(s: Bytes, k: nat)
    requires k <= |s|
    ensures s[0..0 + k] == s[..k] && s[k..k + (|s| - k)] == s[k..] && s == s[..k] + s[k..]
  {}

  lemma {:induction false} ChunkedScaleOfZeros(c: Elem, n: nat, chunk: nat)
    requires chunk > 0
    ensures ChunkedScale(c, Zeros(n), chunk) == Zeros(n)
    decreases n
  {
    hide Scale, Zeros, ScaledByte;
    var zeros := Zeros(n);
    if n <= chunk {
      ScaleOfZeros(c, n);
    } else {
      ZerosSplit(n, chunk);
      ScaleOfZeros(c, chunk);
      ChunkedScaleOfZeros(c, n - chunk, chunk);
      assert ChunkedScale(c, zeros, chunk) == Scale(c, zeros[..chunk]) + ChunkedScale(c, zeros[chunk..], chunk);
    }
  }

  lemma ZerosSplit(n: nat, k: nat)
    requires k <= n
    ensures Zeros(n)[..k] == Zeros(k) && Zeros(n)[k..] == Zeros(n - k) && Zeros(k) + Zeros(n - k) == Zeros(n)
  {}

  /** An odd chunk smaller than the slice cuts a word and loses the high byte of its product. */
  lemma OddChunkHarms(chunk: nat, size: nat)
    requires chunk % 2 == 1 && chunk < size
    ensures !ChunkingHarmless(chunk, size)
  {
    hide Mul, Word, LowWord, Low, High;
    var s := Zeros(size)[chunk - 1 := 1];
    var c: Elem := 0x100;
    CarryIntoHighByte();
    assert Scale(c, s)[chunk] == High(Mul(c, Word(1, 0)));
    assert s[chunk..] == Zeros(size - chunk);
    ChunkedScaleOfZeros(c, size - chunk, chunk);
    assert ChunkedScale(c, s, chunk)[chunk] == Zeros(size - chunk)[0];
  }

  /** Chunking is harmless exactly when no chunk boundary cuts a word. */
  lemma ChunkingHarmlessExactly(chunk: nat, size: nat)
    requires chunk > 0
    ensures ChunkingHarmless(chunk, size) <==> KeepsWords(chunk, size)
  {
    hide ScaledByte;
    if chunk % 2 == 0 {
      forall c: Elem, s: Bytes | |s| == size
        ensures ChunkedScale(c, s, chunk) == Scale(c, s)
      {
        EvenChunks(c, s, chunk);
      }
    } else if chunk < size {
      OddChunkHarms(chunk, size);
    }
  }

  datatype ChunkSizeResult = ChunkSize(bytes: nat) | ZeroLimit | LimitTooSmall(limit: nat)

  function CalculateRepairChunkSize(sliceSize: nat, memoryLimit: Option<nat>): ChunkSizeResult {
    match memoryLimit
    case None => ChunkSize(sliceSize)
    case Some(limit) =>
      if limit == 0 then ZeroLimit
      else
        var capped := if limit < sliceSize then limit else sliceSize;
        if capped < 4 then (if sliceSize <= 4 then ChunkSize(capped) else LimitTooSmall(limit))
        else if capped == 4 then ChunkSize(capped)
        else ChunkSize(capped - capped % 4)
  }

  /** A limit that repair accepts although it splits words: an odd one, below a slice of at most four bytes. */
  predicate SplittingLimit(sliceSize: nat, memoryLimit: Option<nat>) {
    memoryLimit.Some? && memoryLimit.value < sliceSize <= 4 && memoryLimit.value % 2 == 1
  }

  lemma RoundedDown(n: nat)
    requires n > 4
    ensures n - n % 4 >= 4 && (n - n % 4) % 2 == 0
  {
    var q := n / 4;
    assert n == 4 * q + n % 4;
    assert n - n % 4 == 2 * (2 * q);
  }

  lemma RepairChunkSizeKeepsWords(sliceSize: nat, memoryLimit: Option<nat>)
    requires CalculateRepairChunkSize(sliceSize, memoryLimit).ChunkSize?
    ensures KeepsWords(EffectiveChunk(CalculateRepairChunkSize(sliceSize, memoryLimit).bytes), sliceSize)
      <==> !SplittingLimit(sliceSize, memoryLimit)
  {
    match memoryLimit {
      case None =>
      case Some(limit) =>
        var capped := if limit < sliceSize then limit else sliceSize;
        if capped > 4 {
          RoundedDown(capped);
        }
    }
  }

  /** The chunk size repair computes keeps the kernel correct in every case but the splitting limits. */
  lemma RepairChunkSizeHarmlessExactly(sliceSize: nat, memoryLimit: Option<nat>)
    requires CalculateRepairChunkSize(sliceSize, memoryLimit).ChunkSize?
    ensures var chunk := EffectiveChunk(CalculateRepairChunkSize(sliceSize, memoryLimit).bytes);
      ChunkingHarmless(chunk, sliceSize) <==> !SplittingLimit(sliceSize, memoryLimit)
  {
    hide ChunkingHarmless, CalculateRepairChunkSize, KeepsWords, SplittingLimit;
    RepairChunkSizeKeepsWords(sliceSize, memoryLimit);
    ChunkingHarmlessExactly(EffectiveChunk(CalculateRepairChunkSize(sliceSize, memoryLimit).bytes), sliceSize);
  }

  /** The chunk is the largest that keeps to the limit and the slice, up to rounding; what is refused, and why. */
  lemma RepairChunkSizeBounded(sliceSize: nat, memoryLimit: Option<nat>)
    ensures var r := CalculateRepairChunkSize(sliceSize, memoryLimit);
      && (r.ChunkSize? ==> r.bytes <= sliceSize && (memoryLimit.Some? ==> r.bytes <= memoryLimit.value))
      && (memoryLimit.Some? && memoryLimit.value >= 4 && sliceSize >= 4 ==> r.ChunkSize? && r.bytes >= 4)
      && (r == ZeroLimit <==> memoryLimit == Some(0))
      && (r.LimitTooSmall? <==> memoryLimit.Some? && 0 < memoryLimit.value < 4 < sliceSize)
      && (r.ChunkSize? ==> r.bytes + 4 > sliceSize || (memoryLimit.Some? && r.bytes + 4 > memoryLimit.value))
      && (r.ChunkSize? && memoryLimit.None? ==> r.bytes == sliceSize)
      && (r.ChunkSize? && memoryLimit.Some? && r.bytes > 4 ==> r.bytes % 4 == 0)
      && (r.ChunkSize? && memoryLimit.Some? && sliceSize <= 4 ==>
           r.bytes == if memoryLimit.value < sliceSize then memoryLimit.value else sliceSize)
  {}
}
