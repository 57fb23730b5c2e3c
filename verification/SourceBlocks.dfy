/** Source files cut into zero-padded blocks, numbered through all files. */
module SourceBlocks {
  import opened Divisors
  import opened SliceKernel

  /** The number of blocks of a file; an empty file has none. */
  function BlockCount(size: nat, blockSize: nat): nat
    requires blockSize > 0
  {
    if size == 0 then 0 else (size + blockSize - 1) / blockSize
  }

  /** The blocks cover the file, and the last one is not superfluous. */
  lemma BlockCountBounds(size: nat, blockSize: nat)
    requires blockSize > 0
    ensures size <= BlockCount(size, blockSize) * blockSize
    ensures size > 0 ==> BlockCount(size, blockSize) > 0 && (BlockCount(size, blockSize) - 1) * blockSize < size
  {
    var n := (size + blockSize - 1) / blockSize;
    assert size + blockSize - 1 == blockSize * n + (size + blockSize - 1) % blockSize;
    assert blockSize * n == n * blockSize;
    assert (n - 1) * blockSize == n * blockSize - blockSize;
    if n == 0 {
      assert n * blockSize == 0;
    }
  }

  /** Block `b` of a file, zero-padded to the block size. */
  function PaddedBlock(file: Bytes, b: nat, blockSize: nat): (r: Bytes)
    ensures |r| == blockSize
    ensures forall i :: 0 <= i < blockSize ==> r[i] == ByteAt(file, b * blockSize + i)
  {
    seq(blockSize, i requires 0 <= i < blockSize => ByteAt(file, b * blockSize + i))
  }

  function ByteAt(file: Bytes, i: int): Byte {
    if 0 <= i < |file| then file[i] else 0
  }

  function BlocksOf(file: Bytes, blockSize: nat): (r: seq<Bytes>)
    requires blockSize > 0
    ensures |r| == BlockCount(|file|, blockSize)
    ensures forall b :: 0 <= b < |r| ==> r[b] == PaddedBlock(file, b, blockSize)
  {
    seq(BlockCount(|file|, blockSize),
        b requires 0 <= b < BlockCount(|file|, blockSize) => PaddedBlock(file, b, blockSize))
  }

  /** The global index of the first block of file `f`. */
  function Offset(files: seq<Bytes>, blockSize: nat, f: nat): nat
    requires blockSize > 0 && f <= |files|
  {
    if f == 0 then 0 else Offset(files, blockSize, f - 1) + BlockCount(|files[f - 1]|, blockSize)
  }

  /** The blocks of the first `f` files. */
  function AllBlocks(files: seq<Bytes>, blockSize: nat, f: nat): (r: seq<Bytes>)
    requires blockSize > 0 && f <= |files|
    ensures |r| == Offset(files, blockSize, f)
    ensures forall g :: 0 <= g < |r| ==> |r[g]| == blockSize
  {
    if f == 0 then [] else AllBlocks(files, blockSize, f - 1) + BlocksOf(files[f - 1], blockSize)
  }

  /** Block `b` of file `f` has global index Offset(f) + b. */
  lemma {:induction false} BlockAt(files: seq<Bytes>, blockSize: nat, f: nat, b: nat, upTo: nat)
    requires blockSize > 0 && f < upTo <= |files| && b < BlockCount(|files[f]|, blockSize)
    ensures Offset(files, blockSize, f) + b < Offset(files, blockSize, upTo)
    ensures AllBlocks(files, blockSize, upTo)[Offset(files, blockSize, f) + b] == PaddedBlock(files[f], b, blockSize)
    decreases upTo
  {
    if f < upTo - 1 {
      BlockAt(files, blockSize, f, b, upTo - 1);
    }
  }

  // ----- the part of a block in a chunk

  function Clip(x: nat, n: nat): (r: nat)
    ensures r <= n && r <= x
  {
    if x <= n then x else n
  }

  /** What a file has in the chunk [offset, offset + len) of block `b`. */
  function Piece(file: Bytes, b: nat, blockSize: nat, offset: nat, len: nat): (r: Bytes)
    ensures |r| == Clip(b * blockSize + offset + len, |file|) - Clip(b * blockSize + offset, |file|)
  {
    BlockStart(b, blockSize);
    file[Clip(b * blockSize + offset, |file|)..Clip(b * blockSize + offset + len, |file|)]
  }

  lemma BlockStart(b: nat, blockSize: nat)
    ensures b * blockSize >= 0 && (b + 1) * blockSize == b * blockSize + blockSize
  {}

  lemma PaddedPiece(file: Bytes, b: nat, blockSize: nat, offset: nat, len: nat, chunk: Bytes)
    requires offset + len <= blockSize && |chunk| == len
    requires var piece := Piece(file, b, blockSize, offset, len);
      |piece| <= len && chunk[..|piece|] == piece && forall i :: |piece| <= i < len ==> chunk[i] == 0
    ensures chunk == PaddedBlock(file, b, blockSize)[offset..offset + len]
  {
    BlockStart(b, blockSize);
    var piece := Piece(file, b, blockSize, offset, len);
    var start := b * blockSize;
    forall i | 0 <= i < len
      ensures chunk[i] == PaddedBlock(file, b, blockSize)[offset + i]
    {
      if i < |piece| {
        assert chunk[i] == chunk[..|piece|][i];
        assert piece[i] == file[start + offset + i];
      } else {
        assert start + offset + i >= |file|;
      }
    }
  }

  /** How many bytes the source decides to read for a chunk of a block. */
  function ReadLength(size: nat, b: nat, blockSize: nat, offset: nat, len: nat): nat
    requires blockSize > 0
  {
    var isLast := b + 1 == BlockCount(size, blockSize);
    var actual := if isLast && size % blockSize != 0 then size % blockSize else blockSize;
    var available := if offset >= actual then 0 else actual - offset;
    Clip(available, len)
  }

  /** They are the bytes the file has there. */
  lemma ReadLengthIsPiece(size: nat, b: nat, blockSize: nat, offset: nat, len: nat)
    requires blockSize > 0 && b < BlockCount(size, blockSize) && offset + len <= blockSize
    ensures b * blockSize >= 0
    ensures ReadLength(size, b, blockSize, offset, len)
      == Clip(b * blockSize + offset + len, size) - Clip(b * blockSize + offset, size)
    ensures ReadLength(size, b, blockSize, offset, len) > 0 ==>
      b * blockSize + offset + ReadLength(size, b, blockSize, offset, len) <= size
  {
    BlockStart(b, blockSize);
    BlockEnd(size, b, blockSize,
             if b == BlockCount(size, blockSize) - 1 && size % blockSize != 0 then size % blockSize else blockSize);
  }

  /** Block `b` really ends `actual` bytes after its start. */
  lemma BlockEnd(size: nat, b: nat, blockSize: nat, actual: nat)
    requires blockSize > 0 && b < BlockCount(size, blockSize)
    requires actual ==
      if b == BlockCount(size, blockSize) - 1 && size % blockSize != 0 then size % blockSize else blockSize
    ensures b * blockSize + actual == Clip(b * blockSize + blockSize, size)
  {
    var n := BlockCount(size, blockSize);
    BlockCountBounds(size, blockSize);
    BlockStart(b, blockSize);
    BlockStart(n - 1, blockSize);
    if b < n - 1 {
      assert (n - 1) * blockSize == (n - 2 - b) * blockSize + (b + 1) * blockSize;
      BlockStart(n - 2 - b, blockSize);
    } else {
      LastBlock(size, n - 1, blockSize);
    }
  }

  lemma LastBlock(size: nat, q: nat, blockSize: nat)
    requires blockSize > 0 && q * blockSize < size <= q * blockSize + blockSize
    ensures size % blockSize == if size == q * blockSize + blockSize then 0 else size - q * blockSize
  {
    BlockStart(q, blockSize);
    if size == q * blockSize + blockSize {
      DivideBy(q + 1, 0, blockSize);
    } else {
      DivideBy(q, size - q * blockSize, blockSize);
    }
  }
}
