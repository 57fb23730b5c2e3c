/** What the hashers of the creator see while blocks are read chunk by chunk. */
module SourceHashing {
  import opened Divisors
  import opened GaloisTable
  import opened SliceKernel
  import opened Chunks
  import opened SourceBlocks
  import opened BlockSize

  const HEAD_SIZE: nat := 16384

  /** The bytes fed so far to each block hasher and file hasher, and the buffers for the 16k hashes. */
  datatype Hashers = Hashers(blocks: seq<Bytes>, files: seq<Bytes>, heads: seq<Bytes>)

  // ----- the first 16k of a file

  /** Everything below `lo` of every block, and below `hi` of the first `b` blocks, has been captured. */
  ghost predicate Captured(head: Bytes, file: Bytes, blockSize: nat, lo: nat, hi: nat, b: nat)
    requires blockSize > 0
  {
    && |head| == Clip(|file|, HEAD_SIZE)
    && forall p :: 0 <= p < |head| && (p % blockSize < lo || (p / blockSize < b && p % blockSize < hi)) ==>
      head[p] == file[p]
  }

  /** Copies the part of a piece that falls into the head. */
  method CaptureHead(head: Bytes, piece: Bytes, pos: nat) returns (r: Bytes)
    requires |head| <= HEAD_SIZE && (pos < HEAD_SIZE ==> Clip(pos + |piece|, HEAD_SIZE) <= |head|)
    ensures |r| == |head|
    ensures forall p :: 0 <= p < |r| ==> r[p] == if pos <= p < pos + |piece| then piece[p - pos] else head[p]
  {
    r := head;
    if pos < HEAD_SIZE {
      var end := Clip(pos + |piece|, HEAD_SIZE);
      r := head[..pos] + piece[..end - pos] + head[end..];
    }
  }

  lemma CapturedStep(head: Bytes, head': Bytes, file: Bytes, blockSize: nat, offset: nat, len: nat, b: nat)
    requires blockSize > 0 && offset + len <= blockSize && Captured(head, file, blockSize, offset, offset + len, b)
    requires |head'| == |head| && b * blockSize >= 0
    requires var (pos, piece) := (b * blockSize + offset, Piece(file, b, blockSize, offset, len));
      forall p :: 0 <= p < |head| ==> head'[p] == if pos <= p < pos + |piece| then piece[p - pos] else head[p]
    ensures Captured(head', file, blockSize, offset, offset + len, b + 1)
  {
    var (pos, piece) := (b * blockSize + offset, Piece(file, b, blockSize, offset, len));
    forall p | 0 <= p < |head| && (p % blockSize < offset || (p / blockSize < b + 1 && p % blockSize < offset + len))
      ensures head'[p] == file[p]
    {
      DivisionParts(p, blockSize);
      if pos <= p < pos + |piece| {
        assert piece[p - pos] == file[p];
      }
    }
  }

  /** After the last block of a file the next chunk can begin. */
  lemma CapturedChunk(head: Bytes, file: Bytes, blockSize: nat, offset: nat, end: nat, next: nat)
    requires blockSize > 0 && Captured(head, file, blockSize, offset, end, BlockCount(|file|, blockSize))
    ensures Captured(head, file, blockSize, end, next, 0)
  {
    var count := BlockCount(|file|, blockSize);
    BlockCountBounds(|file|, blockSize);
    forall p | 0 <= p < |head| && p % blockSize < end
      ensures head[p] == file[p]
    {
      DivisionParts(p, blockSize);
      if p / blockSize >= count {
        FactorsOrdered(count, p / blockSize, blockSize);
      }
    }
  }

  lemma CapturedAll(head: Bytes, file: Bytes, blockSize: nat, next: nat)
    requires blockSize > 0 && Captured(head, file, blockSize, blockSize, next, 0)
    ensures head == file[..Clip(|file|, HEAD_SIZE)]
  {}

  // ----- the order in which a file hasher sees the file

  /** The pieces of the first `b` blocks in one chunk. */
  function Pass(file: Bytes, blockSize: nat, offset: nat, len: nat, b: nat): Bytes {
    if b == 0 then [] else Pass(file, blockSize, offset, len, b - 1) + Piece(file, b - 1, blockSize, offset, len)
  }

  /** What the file hasher has seen after `k` chunks. */
  function Interleaved(file: Bytes, blockSize: nat, chunk: nat, k: nat): Bytes
    requires blockSize > 0
  {
    if k == 0 then []
    else
      var (offset, end) := (ChunkEnd(k - 1, chunk, blockSize), ChunkEnd(k, chunk, blockSize));
      ChunkEndStep(k - 1, chunk, blockSize);
      Interleaved(file, blockSize, chunk, k - 1)
        + Pass(file, blockSize, offset, end - offset, BlockCount(|file|, blockSize))
  }

  /** The whole-file hasher sees every file of this size in order. */
  ghost predicate OrderKept(size: nat, blockSize: nat, chunk: nat)
    requires blockSize > 0 && chunk > 0
  {
    forall file: Bytes :: |file| == size ==> Interleaved(file, blockSize, chunk, ChunkCount(blockSize, chunk)) == file
  }

  lemma {:induction false} WholePass(file: Bytes, blockSize: nat, b: nat)
    ensures b * blockSize >= 0 && Pass(file, blockSize, 0, blockSize, b) == file[..Clip(b * blockSize, |file|)]
    decreases b
  {
    hide Piece, Clip;
    BlockStart(b, blockSize);
    if b == 0 {
      assert b * blockSize == 0;
      NothingClipped(|file|);
    } else {
      WholePass(file, blockSize, b - 1);
      BlockStart(b - 1, blockSize);
      WholePiece(file, b - 1, blockSize);
      Join(file, (b - 1) * blockSize, b * blockSize);
    }
  }

  lemma NothingClipped(n: nat)
    ensures Clip(0, n) == 0
  {}

  lemma WholePiece(file: Bytes, b: nat, blockSize: nat)
    ensures b * blockSize >= 0 && (b + 1) * blockSize == b * blockSize + blockSize
    ensures Clip(b * blockSize, |file|) <= Clip((b + 1) * blockSize, |file|)
    ensures Piece(file, b, blockSize, 0, blockSize)
      == file[Clip(b * blockSize, |file|)..Clip((b + 1) * blockSize, |file|)]
  {
    BlockStart(b, blockSize);
  }

  lemma Join(file: Bytes, from: nat, to: nat)
    requires from <= to
    ensures Clip(from, |file|) <= Clip(to, |file|)
    ensures file[..Clip(from, |file|)] + file[Clip(from, |file|)..Clip(to, |file|)] == file[..Clip(to, |file|)]
  {}

  lemma FirstPass(file: Bytes, blockSize: nat, offset: nat, len: nat)
    ensures Clip(offset, |file|) <= Clip(offset + len, |file|)
    ensures Pass(file, blockSize, offset, len, 1) == file[Clip(offset, |file|)..Clip(offset + len, |file|)]
  {
    assert Pass(file, blockSize, offset, len, 0) == [];
    assert 0 * blockSize == 0;
  }

  lemma {:induction false} SingleBlock(file: Bytes, blockSize: nat, chunk: nat, k: nat)
    requires 0 < |file| <= blockSize && chunk > 0
    ensures Interleaved(file, blockSize, chunk, k) == file[..Clip(ChunkEnd(k, chunk, blockSize), |file|)]
    decreases k
  {
    hide ChunkEnd, Pass, Clip, BlockCount;
    OneBlock(|file|, blockSize);
    if k == 0 {
      NoChunk(chunk, blockSize);
    } else {
      SingleBlock(file, blockSize, chunk, k - 1);
      ChunkEndStep(k - 1, chunk, blockSize);
      var (offset, end) := (ChunkEnd(k - 1, chunk, blockSize), ChunkEnd(k, chunk, blockSize));
      FirstPass(file, blockSize, offset, end - offset);
      Join(file, offset, end);
    }
  }

  lemma OneBlock(size: nat, blockSize: nat)
    requires 0 < size <= blockSize
    ensures BlockCount(size, blockSize) == 1
  {
    var n := BlockCount(size, blockSize);
    BlockCountBounds(size, blockSize);
    if n >= 2 {
      FactorsOrdered(1, n - 1, blockSize);
    }
  }

  lemma {:induction false} EmptyFile(file: Bytes, blockSize: nat, chunk: nat, k: nat)
    requires file == [] && blockSize > 0
    ensures Interleaved(file, blockSize, chunk, k) == []
    decreases k
  {
    if k != 0 {
      EmptyFile(file, blockSize, chunk, k - 1);
    }
  }

  /** One chunk per block, or one block: the file is seen in order. */
  lemma InOrder(file: Bytes, blockSize: nat, chunk: nat)
    requires blockSize > 0 && chunk > 0 && (blockSize <= chunk || |file| <= blockSize)
    ensures Interleaved(file, blockSize, chunk, ChunkCount(blockSize, chunk)) == file
  {
    hide Interleaved, ChunkCount, ChunkEnd;
    var count := ChunkCount(blockSize, chunk);
    CountedChunks(chunk, blockSize);
    if |file| == 0 {
      EmptyFile(file, blockSize, chunk, count);
    } else if |file| <= blockSize {
      SingleBlock(file, blockSize, chunk, count);
      assert file[..|file|] == file;
    } else {
      OneChunk(blockSize, chunk);
      WholeChunk(file, blockSize, chunk);
    }
  }

  lemma WholeChunk(file: Bytes, blockSize: nat, chunk: nat)
    requires 0 < blockSize <= chunk
    ensures Interleaved(file, blockSize, chunk, 1) == file
  {
    hide Pass, BlockCount;
    var count := BlockCount(|file|, blockSize);
    BlockCountBounds(|file|, blockSize);
    assert ChunkEnd(1, chunk, blockSize) == blockSize;
    NoChunk(chunk, blockSize);
    WholePass(file, blockSize, count);
    assert file[..|file|] == file;
    assert Interleaved(file, blockSize, chunk, 0) == [];
  }

  lemma OneChunk(blockSize: nat, chunk: nat)
    requires 0 < blockSize <= chunk
    ensures ChunkCount(blockSize, chunk) == 1
  {
    DivideBy(1, blockSize - 1, chunk);
    assert 1 * chunk + (blockSize - 1) == blockSize + chunk - 1;
  }

  lemma {:induction false} PassGrows(file: Bytes, blockSize: nat, offset: nat, len: nat, a: nat, b: nat)
    requires a <= b
    ensures Pass(file, blockSize, offset, len, a) <= Pass(file, blockSize, offset, len, b)
    decreases b
  {
    hide Piece;
    if a < b {
      PassGrows(file, blockSize, offset, len, a, b - 1);
    }
  }

  lemma {:induction false} InterleavedGrows(file: Bytes, blockSize: nat, chunk: nat, a: nat, b: nat)
    requires blockSize > 0 && a <= b
    ensures Interleaved(file, blockSize, chunk, a) <= Interleaved(file, blockSize, chunk, b)
    decreases b
  {
    hide Pass, ChunkEnd;
    if a < b {
      InterleavedGrows(file, blockSize, chunk, a, b - 1);
    }
  }

  /** With several chunks and several blocks, the second block comes right after the first chunk of the first. */
  lemma SecondBlockEarly(file: Bytes, blockSize: nat, chunk: nat)
    requires 0 < chunk < blockSize < |file|
    ensures var seen := Interleaved(file, blockSize, chunk, ChunkCount(blockSize, chunk));
      chunk < |seen| && seen[chunk] == file[blockSize]
  {
    hide Interleaved, BlockCount, ChunkEnd, ChunkCount;
    var count := BlockCount(|file|, blockSize);
    BlockCountBounds(|file|, blockSize);
    if count <= 1 {
      FactorsOrdered(count, 1, blockSize);
    }
    var k := ChunkCount(blockSize, chunk);
    CountedChunks(chunk, blockSize);
    FirstChunk(file, blockSize, chunk);
    NoChunk(chunk, blockSize);
    InterleavedGrows(file, blockSize, chunk, 1, k);
    PassGrows(file, blockSize, 0, chunk, 2, count);
    FirstPass(file, blockSize, 0, chunk);
    TwoPieces(file, blockSize, chunk);
  }

  lemma TwoPieces(file: Bytes, blockSize: nat, chunk: nat)
    requires 0 < chunk < blockSize < |file|
    ensures var seen := Pass(file, blockSize, 0, chunk, 2); chunk < |seen| && seen[chunk] == file[blockSize]
  {
    FirstPass(file, blockSize, 0, chunk);
    assert 1 * blockSize == blockSize;
    assert Piece(file, 1, blockSize, 0, chunk) == file[blockSize..Clip(blockSize + chunk, |file|)];
  }

  lemma FirstChunk(file: Bytes, blockSize: nat, chunk: nat)
    requires 0 < chunk < blockSize
    ensures Interleaved(file, blockSize, chunk, 1) == Pass(file, blockSize, 0, chunk, BlockCount(|file|, blockSize))
  {
    hide Pass, BlockCount;
    NoChunk(chunk, blockSize);
    assert ChunkEnd(1, chunk, blockSize) == chunk;
    assert Interleaved(file, blockSize, chunk, 0) == [];
  }

  /** The whole-file hash is right for every file exactly when one chunk covers a block or one block the file. */
  lemma OrderKeptExactly(size: nat, blockSize: nat, chunk: nat)
    requires blockSize > 0 && chunk > 0
    ensures OrderKept(size, blockSize, chunk) <==> blockSize <= chunk || size <= blockSize
  {
    hide Interleaved;
    if blockSize <= chunk || size <= blockSize {
      forall file: Bytes | |file| == size
        ensures Interleaved(file, blockSize, chunk, ChunkCount(blockSize, chunk)) == file
      {
        InOrder(file, blockSize, chunk);
      }
    } else {
      var file: Bytes := seq(size, i => if i == chunk then 1 else 0);
      SecondBlockEarly(file, blockSize, chunk);
      assert file[chunk] != file[blockSize];
    }
  }

  /** The chunk the creator computes covers a block exactly when all blocks fit in memory at once, or are tiny. */
  lemma ChunkCoversExactly(blockSize: nat, sourceBlocks: nat, recoveryBlocks: nat, limit: nat)
    requires blockSize >= 4
    ensures ChunkSizeFor(blockSize, sourceBlocks, recoveryBlocks, limit) > 0
    ensures blockSize <= ChunkSizeFor(blockSize, sourceBlocks, recoveryBlocks, limit) <==>
      blockSize == 4
      || (blockSize <= MAX_CREATE_CHUNK_SIZE && blockSize * BuffersFor(sourceBlocks, recoveryBlocks) <= limit)
  {
    hide BuffersFor;
    var n := BuffersFor(sourceBlocks, recoveryBlocks);
    if blockSize * n > limit && blockSize <= limit / n {
      BelowQuotient(limit, n, blockSize);
    }
  }

  /** What the creator hashes of a file: nothing when no recovery blocks are asked for. */
  function Hashed(file: Bytes, blockSize: nat, sourceBlocks: nat, recoveryBlocks: nat, limit: nat): Option<Bytes>
    requires blockSize >= 4
  {
    if recoveryBlocks == 0 then None
    else
      var chunk := ChunkSizeFor(blockSize, sourceBlocks, recoveryBlocks, limit);
      ChunkCoversExactly(blockSize, sourceBlocks, recoveryBlocks, limit);
      Some(Interleaved(file, blockSize, chunk, ChunkCount(blockSize, chunk)))
  }

  /** The whole-file hash is that of the file, for every file of this size. */
  ghost predicate HashRight(size: nat, blockSize: nat, sourceBlocks: nat, recoveryBlocks: nat, limit: nat)
    requires blockSize >= 4
  {
    forall file: Bytes :: |file| == size ==> Hashed(file, blockSize, sourceBlocks, recoveryBlocks, limit) == Some(file)
  }

  /**
   * The whole-file hash the creator records is right for every file of a size exactly when there are recovery blocks,
   * and the file is one block, or a block has four bytes, or the memory limit has room for all blocks and a block is no
   * larger than a chunk may be.
   */
  lemma HashRightExactly(size: nat, blockSize: nat, sourceBlocks: nat, recoveryBlocks: nat, limit: nat)
    requires blockSize >= 4
    ensures HashRight(size, blockSize, sourceBlocks, recoveryBlocks, limit) <==>
      recoveryBlocks > 0
      && (size <= blockSize || blockSize == 4
          || (blockSize <= MAX_CREATE_CHUNK_SIZE && blockSize * BuffersFor(sourceBlocks, recoveryBlocks) <= limit))
  {
    hide ChunkSizeFor, BuffersFor, Interleaved, ChunkCount;
    if recoveryBlocks == 0 {
      var file: Bytes := seq(size, _ => 0);
      assert Hashed(file, blockSize, sourceBlocks, recoveryBlocks, limit) == None;
    } else {
      ChunkCoversExactly(blockSize, sourceBlocks, recoveryBlocks, limit);
      OrderKeptExactly(size, blockSize, ChunkSizeFor(blockSize, sourceBlocks, recoveryBlocks, limit));
      HashedInOrder(size, blockSize, sourceBlocks, recoveryBlocks, limit);
    }
  }

  lemma HashedInOrder(size: nat, blockSize: nat, sourceBlocks: nat, recoveryBlocks: nat, limit: nat)
    requires blockSize >= 4 && recoveryBlocks > 0
    ensures ChunkSizeFor(blockSize, sourceBlocks, recoveryBlocks, limit) > 0
    ensures HashRight(size, blockSize, sourceBlocks, recoveryBlocks, limit)
      <==> OrderKept(size, blockSize, ChunkSizeFor(blockSize, sourceBlocks, recoveryBlocks, limit))
  {
    hide ChunkSizeFor, Interleaved, ChunkCount;
    ChunkCoversExactly(blockSize, sourceBlocks, recoveryBlocks, limit);
    var chunk := ChunkSizeFor(blockSize, sourceBlocks, recoveryBlocks, limit);
    forall file: Bytes | |file| == size
      ensures Hashed(file, blockSize, sourceBlocks, recoveryBlocks, limit)
        == Some(Interleaved(file, blockSize, chunk, ChunkCount(blockSize, chunk)))
    {}
  }

  /** With blocks above 32 MiB no memory limit gives the right hash to every file longer than a block. */
  lemma LargeBlocksHashWrong(size: nat, blockSize: nat, sourceBlocks: nat, recoveryBlocks: nat, limit: nat)
    requires MAX_CREATE_CHUNK_SIZE < blockSize < size
    ensures !HashRight(size, blockSize, sourceBlocks, recoveryBlocks, limit)
  {
    hide HashRight, BuffersFor;
    HashRightExactly(size, blockSize, sourceBlocks, recoveryBlocks, limit);
  }

  /** A mebibyte a block, 2000 source blocks and 1024 recovery blocks are already too much for the default limit. */
  lemma DefaultLimitHashWrong(size: nat)
    requires size > 0x10_0000
    ensures !HashRight(size, 0x10_0000, 2000, 1024, DEFAULT_MEMORY_LIMIT)
  {
    hide HashRight;
    HashRightExactly(size, 0x10_0000, 2000, 1024, DEFAULT_MEMORY_LIMIT);
  }
}
