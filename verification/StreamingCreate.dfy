/** The creator's single pass over its source files: recovery blocks and hashes, one chunk of every block at a time. */
module StreamingCreate {
  import opened GaloisTable
  import opened LinearAlgebra
  import opened SliceKernel
  import opened Slices
  import opened Encoder
  import opened Chunks
  import opened CreateBackend
  import opened Divisors
  import opened SourceBlocks
  import opened SourceHashing

  // ----- chunked totals make up recovery blocks

  /** The chunk of the first `g` blocks, as contributions. */
  function ChunkContributions(blocks: seq<Bytes>, offset: nat, len: nat, g: nat): (r: seq<Contribution>)
    requires g <= |blocks| && forall i :: 0 <= i < |blocks| ==> offset + len <= |blocks[i]|
    ensures |r| == g
    ensures forall i :: 0 <= i < g ==> r[i] == Contribution(i, blocks[i][offset..offset + len])
  {
    seq(g, i requires 0 <= i < g => Contribution(i, blocks[i][offset..offset + len]))
  }

  lemma ChunkFits(bases: Vector, blocks: seq<Bytes>, offset: nat, len: nat, g: nat)
    requires |blocks| == |bases| && g <= |blocks| && forall i :: 0 <= i < |blocks| ==> offset + len <= |blocks[i]|
    ensures Fit(bases, len, ChunkContributions(blocks, offset, len, g))
  {}

  lemma {:induction false} TotalIsCombination(bases: Vector, exponent: nat, blocks: seq<Bytes>, offset: nat, len: nat,
                                              g: nat)
    requires |blocks| == |bases| && g <= |blocks| && forall i :: 0 <= i < |blocks| ==> offset + len <= |blocks[i]|
    ensures Fit(bases, len, ChunkContributions(blocks, offset, len, g))
    ensures Total(bases, exponent, len, ChunkContributions(blocks, offset, len, g))
      == Combination(Zeros(len), Coefficients(bases, exponent), ChunksOf(blocks, offset, len), g)
    decreases g
  {
    hide Coefficient, Scale, Plus, Zeros, Fit, Combination;
    var adds := ChunkContributions(blocks, offset, len, g);
    ChunkFits(bases, blocks, offset, len, g);
    if g == 0 {
      assert adds == [];
      CombinationStart(Zeros(len), Coefficients(bases, exponent), ChunksOf(blocks, offset, len));
    } else {
      TotalIsCombination(bases, exponent, blocks, offset, len, g - 1);
      CombinationNext(Zeros(len), Coefficients(bases, exponent), ChunksOf(blocks, offset, len), g);
      assert adds[..g - 1] == ChunkContributions(blocks, offset, len, g - 1);
      assert ChunksOf(blocks, offset, len)[g - 1][..len] == adds[g - 1].data;
    }
  }

  /** The totals of a word-aligned chunk are that chunk of the recovery block. */
  lemma TotalOfChunk(bases: Vector, exponent: nat, blocks: seq<Bytes>, size: nat, offset: nat, len: nat)
    requires |blocks| == |bases| && forall i :: 0 <= i < |blocks| ==> |blocks[i]| == size
    requires offset + len <= size && (len == 0 || WordAligned(offset, len, size))
    ensures Fit(bases, len, ChunkContributions(blocks, offset, len, |blocks|))
    ensures Total(bases, exponent, len, ChunkContributions(blocks, offset, len, |blocks|))
      == RecoveryBlock(bases, exponent, blocks, size)[offset..offset + len]
  {
    hide Combination, Coefficients, Total;
    TotalIsCombination(bases, exponent, blocks, offset, len, |blocks|);
    if len != 0 {
      CombinationOfChunk(Zeros(size), Coefficients(bases, exponent), blocks, |blocks|, offset, len);
      ZerosOfChunk(size, offset, len);
    }
  }

  // ----- one block

  /** Reads what the file has in a chunk of a block into a zeroed buffer. */
  method ReadPiece(buffer: array<Byte>, file: Bytes, b: nat, blockSize: nat, offset: nat, len: nat)
    returns (piece: Bytes)
    requires blockSize > 0 && b < BlockCount(|file|, blockSize) && offset + len <= blockSize && len <= buffer.Length
    requires forall i :: 0 <= i < len ==> buffer[i] == 0
    modifies buffer
    ensures piece == Piece(file, b, blockSize, offset, len)
    ensures buffer[..len] == PaddedBlock(file, b, blockSize)[offset..offset + len]
  {
    hide PaddedBlock, ReadLength, BlockCount;
    var toRead := ReadLength(|file|, b, blockSize, offset, len);
    ReadLengthIsPiece(|file|, b, blockSize, offset, len);
    piece := [];
    if toRead > 0 {
      var pos := b * blockSize + offset;
      piece := file[pos..pos + toRead];
      CreateRecoveryBackend.CopyFront(piece, buffer);
    }
    PaddedPiece(file, b, blockSize, offset, len, buffer[..len]);
  }

  /** Hands the chunk of one block to the backend by way of a transfer buffer. */
  method FeedBlock(backend: CreateRecoveryBackend, file: Bytes, b: nat, blockSize: nat, offset: nat, g: nat)
    returns (chunk: Bytes, piece: Bytes)
    requires backend.Valid() && g < backend.sourceCount
    requires blockSize > 0 && b < BlockCount(|file|, blockSize) && offset + backend.chunkLen <= blockSize
    modifies backend, backend.outputChunks, backend.inputStaging, backend.transferBuffers
    ensures backend.Valid() && backend.chunkLen == old(backend.chunkLen)
    ensures chunk == PaddedBlock(file, b, blockSize)[offset..offset + backend.chunkLen]
    ensures piece == Piece(file, b, blockSize, offset, backend.chunkLen)
    ensures backend.added == old(backend.added) + [Contribution(g, chunk)]
  {
    hide CreateRecoveryBackend.Valid, PaddedBlock, Piece;
    var buffer := backend.PrepareTransferBuffer(g);
    piece := ReadPiece(buffer, file, b, blockSize, offset, backend.chunkLen);
    chunk := buffer[..backend.chunkLen];
    backend.AddTransferInput(g, g);
  }

  // ----- one file

  /** The blocks of file `f` are numbered from `g0` on. */
  ghost predicate HoldsFile(all: seq<Bytes>, file: Bytes, blockSize: nat, g0: nat)
    requires blockSize > 0
  {
    && g0 + BlockCount(|file|, blockSize) <= |all|
    && (forall g :: 0 <= g < |all| ==> |all[g]| == blockSize)
    && (forall b :: 0 <= b < BlockCount(|file|, blockSize) ==> all[g0 + b] == PaddedBlock(file, b, blockSize))
  }

  /** The block hashers after the chunk of blocks `from` up to `to`. */
  ghost predicate BlocksFed(before: seq<Bytes>, after: seq<Bytes>, all: seq<Bytes>, offset: nat, len: nat, from: nat,
                            to: nat)
    requires |before| == |all| && forall g :: 0 <= g < |all| ==> offset + len <= |all[g]|
  {
    && |after| == |all|
    && (forall g :: 0 <= g < |all| && !(from <= g < to) ==> after[g] == before[g])
    && (forall g :: 0 <= g < |all| && from <= g < to ==> after[g] == before[g] + all[g][offset..offset + len])
  }

  method FeedFile(backend: CreateRecoveryBackend, file: Bytes, f: nat, blockSize: nat, offset: nat, g0: nat, h: Hashers,
                  ghost all: seq<Bytes>)
    returns (r: Hashers)
    requires backend.Valid() && blockSize > 0 && offset + backend.chunkLen <= blockSize
    requires HoldsFile(all, file, blockSize, g0) && |all| == backend.sourceCount
    requires backend.added == ChunkContributions(all, offset, backend.chunkLen, g0)
    requires |h.blocks| == |all| && f < |h.files| == |h.heads|
    requires Captured(h.heads[f], file, blockSize, offset, offset + backend.chunkLen, 0)
    modifies backend, backend.outputChunks, backend.inputStaging, backend.transferBuffers
    ensures backend.Valid() && backend.chunkLen == old(backend.chunkLen)
    ensures backend.added == ChunkContributions(all, offset, backend.chunkLen, g0 + BlockCount(|file|, blockSize))
    ensures BlocksFed(h.blocks, r.blocks, all, offset, backend.chunkLen, g0, g0 + BlockCount(|file|, blockSize))
    ensures r.files
      == h.files[f := h.files[f] + Pass(file, blockSize, offset, backend.chunkLen, BlockCount(|file|, blockSize))]
    ensures |r.heads| == |h.heads| && r.heads == h.heads[f := r.heads[f]]
    ensures Captured(r.heads[f], file, blockSize, offset, offset + backend.chunkLen, BlockCount(|file|, blockSize))
  {
    hide CreateRecoveryBackend.Valid, PaddedBlock, Piece, BlockCount, Captured;
    var count, len := BlockCount(|file|, blockSize), backend.chunkLen;
    var blocks, fed, head := h.blocks, h.files[f], h.heads[f];
    for b := 0 to count
      invariant backend.Valid() && backend.chunkLen == len
      invariant backend.added == ChunkContributions(all, offset, len, g0 + b)
      invariant BlocksFed(h.blocks, blocks, all, offset, len, g0, g0 + b)
      invariant fed == h.files[f] + Pass(file, blockSize, offset, len, b)
      invariant Captured(head, file, blockSize, offset, offset + len, b)
    {
      var g := g0 + b;
      var chunk, piece := FeedBlock(backend, file, b, blockSize, offset, g);
      head := Capture(head, file, b, blockSize, offset, len, piece);
      blocks := blocks[g := blocks[g] + chunk];
      fed := fed + piece;
    }
    r := Hashers(blocks, h.files[f := fed], h.heads[f := head]);
  }

  /** Keeps the head of the file up to date with a piece just read. */
  method Capture(head: Bytes, file: Bytes, b: nat, blockSize: nat, offset: nat, len: nat, piece: Bytes)
    returns (r: Bytes)
    requires blockSize > 0 && b < BlockCount(|file|, blockSize) && offset + len <= blockSize
    requires piece == Piece(file, b, blockSize, offset, len)
    requires Captured(head, file, blockSize, offset, offset + len, b)
    ensures Captured(r, file, blockSize, offset, offset + len, b + 1)
  {
    hide BlockCount;
    BlockStart(b, blockSize);
    r := head;
    if |piece| > 0 {
      r := CaptureHead(head, piece, b * blockSize + offset);
    }
    CapturedStep(head, r, file, blockSize, offset, len, b);
  }

  // ----- one chunk of all files

  /** What the hashers hold after `k` chunks of every block. */
  ghost predicate HashersAt(h: Hashers, files: seq<Bytes>, blockSize: nat, chunk: nat, k: nat)
    requires blockSize > 0
  {
    var all := AllBlocks(files, blockSize, |files|);
    && |h.blocks| == |all| && |h.files| == |h.heads| == |files|
    && (forall g :: 0 <= g < |all| ==> h.blocks[g] == all[g][..ChunkEnd(k, chunk, blockSize)])
    && (forall f :: 0 <= f < |files| ==> h.files[f] == Interleaved(files[f], blockSize, chunk, k))
    && (forall f :: 0 <= f < |files| ==>
         Captured(h.heads[f], files[f], blockSize, ChunkEnd(k, chunk, blockSize), ChunkEnd(k + 1, chunk, blockSize), 0))
  }

  lemma HoldsEachFile(files: seq<Bytes>, blockSize: nat, f: nat)
    requires blockSize > 0 && f < |files|
    ensures HoldsFile(AllBlocks(files, blockSize, |files|), files[f], blockSize, Offset(files, blockSize, f))
    ensures Offset(files, blockSize, f + 1) == Offset(files, blockSize, f) + BlockCount(|files[f]|, blockSize)
  {
    hide BlockCount, PaddedBlock;
    OffsetGrows(files, blockSize, f + 1, |files|);
    forall b | 0 <= b < BlockCount(|files[f]|, blockSize)
      ensures AllBlocks(files, blockSize, |files|)[Offset(files, blockSize, f) + b]
        == PaddedBlock(files[f], b, blockSize)
    {
      BlockAt(files, blockSize, f, b, |files|);
    }
  }

  lemma {:induction false} OffsetGrows(files: seq<Bytes>, blockSize: nat, a: nat, b: nat)
    requires blockSize > 0 && a <= b <= |files|
    ensures Offset(files, blockSize, a) <= Offset(files, blockSize, b)
    decreases b
  {
    if a < b {
      OffsetGrows(files, blockSize, a, b - 1);
    }
  }

  method EncodeChunk(backend: CreateRecoveryBackend, files: seq<Bytes>, blockSize: nat, chunk: nat, ghost k: nat,
                     offset: nat, len: nat, h: Hashers)
    returns (r: Hashers)
    requires backend.Valid() && blockSize > 0 && len <= backend.maxChunkLen
    requires backend.sourceCount == Offset(files, blockSize, |files|)
    requires offset == ChunkEnd(k, chunk, blockSize) && offset + len == ChunkEnd(k + 1, chunk, blockSize)
    requires HashersAt(h, files, blockSize, chunk, k)
    modifies backend, backend.outputChunks, backend.inputStaging, backend.transferBuffers
    ensures backend.Valid() && backend.chunkLen == len
    ensures var all := AllBlocks(files, blockSize, |files|);
      backend.added == ChunkContributions(all, offset, len, |all|)
    ensures HashersAt(r, files, blockSize, chunk, k + 1)
  {
    hide CreateRecoveryBackend.Valid, PaddedBlock, BlockCount, Captured, HoldsFile, Pass, AllBlocks, ChunkEnd, FilesFed,
      BlocksFed, Interleaved;
    ghost var all := AllBlocks(files, blockSize, |files|);
    backend.BeginChunk(len);
    var g0 := 0;
    r := h;
    NothingFed(h, files, blockSize, chunk, k, offset, len);
    for f := 0 to |files|
      invariant backend.Valid() && backend.chunkLen == len && g0 == Offset(files, blockSize, f) <= |all|
      invariant backend.added == ChunkContributions(all, offset, len, g0)
      invariant |r.blocks| == |all| && BlocksFed(h.blocks, r.blocks, all, offset, len, 0, g0)
      invariant FilesFed(h, r, files, blockSize, chunk, k, offset, len, f)
    {
      HoldsEachFile(files, blockSize, f);
      HeldFileFits(all, files[f], blockSize, g0);
      FileUntouched(h, r, files, blockSize, chunk, k, offset, len, f);
      ghost var before := r;
      r := FeedFile(backend, files[f], f, blockSize, offset, g0, r, all);
      FedOn(h.blocks, before.blocks, r.blocks, all, offset, len, g0, g0 + BlockCount(|files[f]|, blockSize));
      FilesFedNext(h, before, r, files, blockSize, chunk, k, offset, len, f);
      g0 := g0 + BlockCount(|files[f]|, blockSize);
    }
    ChunkDone(h, r, files, blockSize, chunk, k);
  }

  /** The file hashers and heads after the chunk of the first `f` files. */
  ghost predicate FilesFed(h: Hashers, r: Hashers, files: seq<Bytes>, blockSize: nat, chunk: nat, k: nat, offset: nat,
                           len: nat, f: nat)
    requires blockSize > 0
  {
    && |r.files| == |r.heads| == |h.files| == |h.heads| == |files|
    && (forall i :: 0 <= i < |files| ==>
         if i < f then
           && r.files[i] == Interleaved(files[i], blockSize, chunk, k + 1)
           && Captured(r.heads[i], files[i], blockSize, offset, offset + len, BlockCount(|files[i]|, blockSize))
         else r.files[i] == h.files[i] && r.heads[i] == h.heads[i])
  }

  lemma NothingFed(h: Hashers, files: seq<Bytes>, blockSize: nat, chunk: nat, k: nat, offset: nat, len: nat)
    requires blockSize > 0 && HashersAt(h, files, blockSize, chunk, k)
    ensures FilesFed(h, h, files, blockSize, chunk, k, offset, len, 0)
    ensures offset + len <= blockSize ==>
      BlocksFed(h.blocks, h.blocks, AllBlocks(files, blockSize, |files|), offset, len, 0, 0)
  {
    hide Captured, Interleaved, AllBlocks;
  }

  /** A file that is still to be read is as it was, and its head can take the next chunk. */
  lemma FileUntouched(h: Hashers, r: Hashers, files: seq<Bytes>, blockSize: nat, chunk: nat, k: nat, offset: nat,
                      len: nat, f: nat)
    requires blockSize > 0 && HashersAt(h, files, blockSize, chunk, k) && f < |files|
    requires offset == ChunkEnd(k, chunk, blockSize) && offset + len == ChunkEnd(k + 1, chunk, blockSize)
    requires FilesFed(h, r, files, blockSize, chunk, k, offset, len, f)
    ensures |r.files| == |r.heads| == |files| && r.files[f] == Interleaved(files[f], blockSize, chunk, k)
    ensures Captured(r.heads[f], files[f], blockSize, offset, offset + len, 0)
  {
    hide Captured, Interleaved, AllBlocks, ChunkEnd;
  }

  lemma FilesFedNext(h: Hashers, before: Hashers, r: Hashers, files: seq<Bytes>, blockSize: nat, chunk: nat, k: nat,
                     offset: nat, len: nat, f: nat)
    requires blockSize > 0 && f < |files|
    requires offset == ChunkEnd(k, chunk, blockSize) && offset + len == ChunkEnd(k + 1, chunk, blockSize)
    requires FilesFed(h, before, files, blockSize, chunk, k, offset, len, f)
    requires before.files[f] == Interleaved(files[f], blockSize, chunk, k)
    requires r.files ==
      before.files[f := before.files[f] + Pass(files[f], blockSize, offset, len, BlockCount(|files[f]|, blockSize))]
    requires |r.heads| == |before.heads| && r.heads == before.heads[f := r.heads[f]]
    requires Captured(r.heads[f], files[f], blockSize, offset, offset + len, BlockCount(|files[f]|, blockSize))
    ensures FilesFed(h, r, files, blockSize, chunk, k, offset, len, f + 1)
  {
    hide Captured, BlockCount, Pass, ChunkEnd;
  }

  lemma HeldFileFits(all: seq<Bytes>, file: Bytes, blockSize: nat, g0: nat)
    requires blockSize > 0 && HoldsFile(all, file, blockSize, g0)
    ensures g0 + BlockCount(|file|, blockSize) <= |all|
  {}

  lemma FedOn(before: seq<Bytes>, middle: seq<Bytes>, after: seq<Bytes>, all: seq<Bytes>, offset: nat, len: nat, g: nat,
              g': nat)
    requires |before| == |middle| == |all| && g <= g' <= |all| && forall i :: 0 <= i < |all| ==>
      offset + len <= |all[i]|
    requires BlocksFed(before, middle, all, offset, len, 0, g) && BlocksFed(middle, after, all, offset, len, g, g')
    ensures BlocksFed(before, after, all, offset, len, 0, g')
  {}

  /** Blocks that had their bytes up to `offset` and were fed the next chunk have them up to `end`. */
  lemma BlocksUpTo(before: seq<Bytes>, after: seq<Bytes>, all: seq<Bytes>, offset: nat, end: nat)
    requires |before| == |all| && offset <= end && forall g :: 0 <= g < |all| ==> end <= |all[g]|
    requires forall g :: 0 <= g < |all| ==> before[g] == all[g][..offset]
    requires BlocksFed(before, after, all, offset, end - offset, 0, |all|)
    ensures |after| == |all| && forall g :: 0 <= g < |all| ==> after[g] == all[g][..end]
  {
    forall g | 0 <= g < |all|
      ensures after[g] == all[g][..end]
    {
      assert all[g][..offset] + all[g][offset..end] == all[g][..end];
    }
  }

  /** After all files of one chunk the heads are ready for the next. */
  lemma HeadsForNext(h: Hashers, r: Hashers, files: seq<Bytes>, blockSize: nat, chunk: nat, k: nat, offset: nat,
                     end: nat, next: nat)
    requires blockSize > 0 && offset <= end && FilesFed(h, r, files, blockSize, chunk, k, offset, end - offset, |files|)
    ensures |r.files| == |r.heads| == |files|
    ensures forall f :: 0 <= f < |files| ==> r.files[f] == Interleaved(files[f], blockSize, chunk, k + 1)
    ensures forall f :: 0 <= f < |files| ==> Captured(r.heads[f], files[f], blockSize, end, next, 0)
  {
    hide Captured, BlockCount, Interleaved;
    forall f | 0 <= f < |files|
      ensures Captured(r.heads[f], files[f], blockSize, end, next, 0)
    {
      CapturedChunk(r.heads[f], files[f], blockSize, offset, end, next);
    }
  }

  lemma ChunkDone(h: Hashers, r: Hashers, files: seq<Bytes>, blockSize: nat, chunk: nat, k: nat)
    requires blockSize > 0 && HashersAt(h, files, blockSize, chunk, k)
    requires var (all, offset, end) :=
      (AllBlocks(files, blockSize, |files|), ChunkEnd(k, chunk, blockSize), ChunkEnd(k + 1, chunk, blockSize));
      && offset <= end
      && BlocksFed(h.blocks, r.blocks, all, offset, end - offset, 0, |all|)
      && FilesFed(h, r, files, blockSize, chunk, k, offset, end - offset, |files|)
    ensures HashersAt(r, files, blockSize, chunk, k + 1)
  {
    hide Captured, Interleaved, AllBlocks, ChunkEnd, BlocksFed, FilesFed;
    var (offset, end) := (ChunkEnd(k, chunk, blockSize), ChunkEnd(k + 1, chunk, blockSize));
    BlocksUpTo(h.blocks, r.blocks, AllBlocks(files, blockSize, |files|), offset, end);
    HeadsForNext(h, r, files, blockSize, chunk, k, offset, end, ChunkEnd(k + 2, chunk, blockSize));
  }

  // ----- the whole pass

  /** Each recovery block holds its first `end` bytes. */
  ghost predicate RecoveryAt(recovery: seq<RecoveryBlockData>, bases: Vector, first: nat, blocks: seq<Bytes>, size: nat,
                             end: nat)
    requires |blocks| == |bases| && (forall i :: 0 <= i < |blocks| ==> |blocks[i]| == size) && end <= size
  {
    forall i :: 0 <= i < |recovery| ==>
      recovery[i].data == RecoveryBlock(bases, (first + i) % 65536, blocks, size)[..end]
  }

  lemma RecoveryStep(before: seq<RecoveryBlockData>, after: seq<RecoveryBlockData>, bases: Vector, first: nat,
                     blocks: seq<Bytes>, size: nat, offset: nat, len: nat)
    requires |blocks| == |bases| && (forall i :: 0 <= i < |blocks| ==> |blocks[i]| == size) && offset + len <= size
    requires len == 0 || WordAligned(offset, len, size)
    requires RecoveryAt(before, bases, first, blocks, size, offset) && |after| == |before|
    requires Fit(bases, len, ChunkContributions(blocks, offset, len, |blocks|))
    requires forall i :: 0 <= i < |after| ==>
      after[i].data
        == before[i].data + Total(bases, (first + i) % 65536, len, ChunkContributions(blocks, offset, len, |blocks|))
    ensures RecoveryAt(after, bases, first, blocks, size, offset + len)
  {
    hide RecoveryBlock, Total, WordAligned;
    forall i | 0 <= i < |after|
      ensures after[i].data == RecoveryBlock(bases, (first + i) % 65536, blocks, size)[..offset + len]
    {
      var e := (first + i) % 65536;
      var whole := RecoveryBlock(bases, e, blocks, size);
      TotalOfChunk(bases, e, blocks, size, offset, len);
      assert whole[..offset] + whole[offset..offset + len] == whole[..offset + len];
    }
  }

  /** The hashers at the start, and what they have seen at the end. */
  lemma FreshHashers(files: seq<Bytes>, blockSize: nat, chunk: nat, h: Hashers)
    requires blockSize > 0
    requires h.blocks == seq(Offset(files, blockSize, |files|), _ => []) && h.files == seq(|files|, _ => [])
    requires |h.heads| == |files| && forall f :: 0 <= f < |files| ==> |h.heads[f]| == Clip(|files[f]|, HEAD_SIZE)
    ensures HashersAt(h, files, blockSize, chunk, 0)
  {
    hide BlockCount;
    NoChunk(chunk, blockSize);
  }

  lemma FinalHashers(files: seq<Bytes>, blockSize: nat, chunk: nat, k: nat, h: Hashers)
    requires blockSize > 0 && HashersAt(h, files, blockSize, chunk, k) && ChunkEnd(k, chunk, blockSize) == blockSize
    ensures h.blocks == AllBlocks(files, blockSize, |files|)
    ensures |h.heads| == |files| && forall f :: 0 <= f < |files| ==>
      h.heads[f] == files[f][..Clip(|files[f]|, HEAD_SIZE)]
    ensures |h.files| == |files| && forall f :: 0 <= f < |files| ==>
      h.files[f] == Interleaved(files[f], blockSize, chunk, k)
  {
    hide Captured, Interleaved, ChunkEnd;
    forall g | 0 <= g < |h.blocks|
      ensures h.blocks[g] == AllBlocks(files, blockSize, |files|)[g]
    {
      var block := AllBlocks(files, blockSize, |files|)[g];
      assert block[..blockSize] == block;
    }
    forall f | 0 <= f < |files|
      ensures h.heads[f] == files[f][..Clip(|files[f]|, HEAD_SIZE)]
    {
      CapturedAll(h.heads[f], files[f], blockSize, ChunkEnd(k + 1, chunk, blockSize));
    }
  }

  lemma NextEnd(k: nat, chunk: nat, size: nat)
    requires chunk > 0 && ChunkEnd(k, chunk, size) < size
    ensures ChunkEnd(k + 1, chunk, size) == ChunkEnd(k, chunk, size) + Clip(size - ChunkEnd(k, chunk, size), chunk)
    ensures ChunkEnd(k + 1, chunk, size) > ChunkEnd(k, chunk, size)
  {
    ChunkEndStep(k, chunk, size);
  }

  lemma ReachedEnd(k: nat, chunk: nat, size: nat)
    requires chunk > 0 && size > 0 && ChunkEnd(k, chunk, size) == size
      && (k > 0 ==> ChunkEnd(k - 1, chunk, size) < size)
    ensures k == ChunkCount(size, chunk)
  {
    var count := ChunkCount(size, chunk);
    LastChunk(chunk, size, count);
    NoChunk(chunk, size);
    if k > 0 {
      ChunkEndStep(k - 1, chunk, size);
      DivideBy(k, size - (k - 1) * chunk - 1, chunk);
    }
  }

  /** One round: encode and hash a chunk of everything, and append the outputs to the recovery blocks. */
  method NextChunk(backend: CreateRecoveryBackend, files: seq<Bytes>, blockSize: nat, chunk: nat, ghost k: nat,
                   offset: nat, len: nat, h: Hashers, recovery: seq<RecoveryBlockData>, ghost first: nat)
    returns (h': Hashers, recovery': seq<RecoveryBlockData>)
    requires backend.Valid() && blockSize > 0 && len <= backend.maxChunkLen
    requires |backend.bases| == backend.sourceCount == Offset(files, blockSize, |files|)
    requires |recovery| == |backend.exponents| && backend.exponents == Exponents(first, |recovery|)
    requires offset == ChunkEnd(k, chunk, blockSize) && offset + len == ChunkEnd(k + 1, chunk, blockSize)
    requires HashersAt(h, files, blockSize, chunk, k)
    requires KeepsWords(chunk, blockSize) ==>
      RecoveryAt(recovery, backend.bases, first, AllBlocks(files, blockSize, |files|), blockSize, offset)
    modifies backend, backend.outputChunks, backend.inputStaging, backend.transferBuffers
    ensures backend.Valid() && HashersAt(h', files, blockSize, chunk, k + 1)
    ensures |recovery'| == |recovery| && forall i :: 0 <= i < |recovery| ==>
      recovery'[i].exponent == recovery[i].exponent
    ensures KeepsWords(chunk, blockSize) ==>
      RecoveryAt(recovery', backend.bases, first, AllBlocks(files, blockSize, |files|), blockSize, offset + len)
  {
    hide CreateRecoveryBackend.Valid, HashersAt, RecoveryAt, AllBlocks, Offset, RecoveryBlock, Total, ChunkEnd,
      KeepsWords, WordAligned, ChunkContributions, Fit;
    ghost var all := AllBlocks(files, blockSize, |files|);
    h' := EncodeChunk(backend, files, blockSize, chunk, k, offset, len, h);
    recovery' := backend.FinishChunk(recovery);
    if KeepsWords(chunk, blockSize) {
      ChunkAligned(k, chunk, blockSize);
      TotalIsCombination(backend.bases, 0, all, offset, len, |all|);
      RecoveryStep(recovery, recovery', backend.bases, first, all, blockSize, offset, len);
    }
  }

  lemma BackendCounts(backend: CreateRecoveryBackend)
    requires backend.Valid()
    ensures backend.sourceCount == |backend.bases|
  {}

  /**
   * Encodes and hashes in one pass. Recovery blocks are those of the one-shot encoder for the padded blocks of all
   * files in order; block hashers see exactly those blocks; head buffers end as the first 16k of each file.
   */
  method EncodeAndHash(t: Tables, files: seq<Bytes>, blockSize: nat, chunkSize: nat, bases: Vector, first: nat,
                       count: nat)
    returns (recovery: seq<RecoveryBlockData>, hashed: Hashers)
    requires t.Valid() && blockSize > 0 && chunkSize > 0
    requires |bases| == Offset(files, blockSize, |files|)
    ensures |recovery| == count && forall i :: 0 <= i < count ==> recovery[i].exponent == (first + i) % 65536
    ensures KeepsWords(chunkSize, blockSize) ==> forall i :: 0 <= i < count ==>
      recovery[i].data == RecoveryBlock(bases, (first + i) % 65536, AllBlocks(files, blockSize, |files|), blockSize)
    ensures hashed.blocks == AllBlocks(files, blockSize, |files|)
    ensures |hashed.heads| == |files|
    ensures forall f :: 0 <= f < |files| ==> hashed.heads[f] == files[f][..Clip(|files[f]|, 16384)]
    ensures |hashed.files| == |files|
    ensures forall f :: 0 <= f < |files| ==>
      hashed.files[f] == Interleaved(files[f], blockSize, chunkSize, ChunkCount(blockSize, chunkSize))
    ensures blockSize <= chunkSize ==> hashed.files == files
  {
    hide CreateRecoveryBackend.Valid, HashersAt, RecoveryAt, AllBlocks, Offset, RecoveryBlock, Total, Interleaved,
      Captured, KeepsWords, Exponents, ChunkEnd, ChunkCount;
    ghost var all := AllBlocks(files, blockSize, |files|);
    var heads := seq(|files|, f requires 0 <= f < |files| => Zeros(Clip(|files[f]|, HEAD_SIZE)));
    hashed := Hashers(seq(Offset(files, blockSize, |files|), _ => []), seq(|files|, _ => []), heads);
    FreshHashers(files, blockSize, chunkSize, hashed);
    var backend := new CreateRecoveryBackend(t, bases, first, count, chunkSize);
    recovery := backend.RecoveryBlocks();
    var offset := 0;
    ghost var k := 0;
    NoChunk(chunkSize, blockSize);
    EmptyRecovery(recovery, bases, first, all, blockSize);
    BackendCounts(backend);
    while offset < blockSize
      invariant offset == ChunkEnd(k, chunkSize, blockSize)
        && (k > 0 ==> ChunkEnd(k - 1, chunkSize, blockSize) < blockSize)
      invariant backend.Valid() && HashersAt(hashed, files, blockSize, chunkSize, k)
      invariant |recovery| == count && forall i :: 0 <= i < count ==> recovery[i].exponent == (first + i) % 65536
      invariant KeepsWords(chunkSize, blockSize) ==> RecoveryAt(recovery, bases, first, all, blockSize, offset)
      decreases blockSize - offset
    {
      var len := Clip(blockSize - offset, chunkSize);
      NextEnd(k, chunkSize, blockSize);
      hashed, recovery := NextChunk(backend, files, blockSize, chunkSize, k, offset, len, hashed, recovery, first);
      offset := offset + len;
      k := k + 1;
    }
    ReachedEnd(k, chunkSize, blockSize);
    FinalHashers(files, blockSize, chunkSize, k, hashed);
    if KeepsWords(chunkSize, blockSize) {
      WholeRecovery(recovery, bases, first, all, blockSize);
    }
    if blockSize <= chunkSize {
      forall f | 0 <= f < |files|
        ensures hashed.files[f] == files[f]
      {
        InOrder(files[f], blockSize, chunkSize);
      }
    }
  }

  lemma WholeRecovery(recovery: seq<RecoveryBlockData>, bases: Vector, first: nat, blocks: seq<Bytes>, size: nat)
    requires |blocks| == |bases| && (forall i :: 0 <= i < |blocks| ==> |blocks[i]| == size)
    requires RecoveryAt(recovery, bases, first, blocks, size, size)
    ensures forall i :: 0 <= i < |recovery| ==>
      recovery[i].data == RecoveryBlock(bases, (first + i) % 65536, blocks, size)
  {
    hide RecoveryBlock;
  }

  lemma EmptyRecovery(recovery: seq<RecoveryBlockData>, bases: Vector, first: nat, blocks: seq<Bytes>, size: nat)
    requires |blocks| == |bases| && (forall i :: 0 <= i < |blocks| ==> |blocks[i]| == size)
    requires forall i :: 0 <= i < |recovery| ==> recovery[i].data == []
    ensures RecoveryAt(recovery, bases, first, blocks, size, 0)
  {}
}
