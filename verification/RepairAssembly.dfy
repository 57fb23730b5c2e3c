/** Global slice numbers of the files of a recovery set, and writing a repaired file from the slices at hand. */
module RepairAssembly {
  import opened Divisors
  import opened GaloisTable
  import opened SliceKernel
  import opened SourceBlocks
  import opened SourceHashing
  import PacketFormats

  // ----- global and local slice indices

  datatype FileInfo = FileInfo(length: nat, sliceCount: nat, offset: nat) {
    function LocalToGlobal(local: nat): nat { offset + local }

    /** The local index of a global one, if the slice belongs to this file. */
    function GlobalToLocal(global: nat): Option<nat> {
      if offset <= global < offset + sliceCount then Some(global - offset) else None
    }
  }

  /** Offsets continue from file to file. */
  ghost predicate Numbered(files: seq<FileInfo>, total: nat) {
    && (files != [] ==> files[0].offset == 0)
    && (forall i :: 0 < i < |files| ==> files[i].offset == files[i - 1].offset + files[i - 1].sliceCount)
    && total == if files == [] then 0 else files[|files| - 1].offset + files[|files| - 1].sliceCount
  }

  datatype Extracted = Files(files: seq<FileInfo>, total: nat) | NoDescriptions | MissingDescription(index: nat)

  /** The files in the order of the main packet, numbered through; `lengths` are the described file lengths by id. */
  method ExtractFiles<Id(==)>(ids: seq<Id>, lengths: map<Id, nat>, sliceSize: nat) returns (r: Extracted)
    requires sliceSize > 0
    ensures r.NoDescriptions? <==> lengths == map[]
    ensures r.Files? <==> lengths != map[] && forall i :: 0 <= i < |ids| ==> ids[i] in lengths
    ensures r.MissingDescription? ==> r.index < |ids| && ids[r.index] !in lengths
    ensures r.MissingDescription? ==> forall i :: 0 <= i < r.index ==> ids[i] in lengths
    ensures r.Files? ==> |r.files| == |ids| && Numbered(r.files, r.total)
    ensures r.Files? ==> forall i :: 0 <= i < |ids| ==>
      r.files[i].length == lengths[ids[i]] && r.files[i].sliceCount == BlockCount(lengths[ids[i]], sliceSize)
  {
    hide BlockCount;
    if lengths == map[] {
      return NoDescriptions;
    }
    var files: seq<FileInfo> := [];
    var offset := 0;
    for idx := 0 to |ids|
      invariant |files| == idx && Numbered(files, offset)
      invariant forall i :: 0 <= i < idx ==> ids[i] in lengths
      invariant forall i :: 0 <= i < idx ==>
        files[i].length == lengths[ids[i]] && files[i].sliceCount == BlockCount(lengths[ids[i]], sliceSize)
    {
      if ids[idx] !in lengths {
        return MissingDescription(idx);
      }
      var sliceCount := BlockCount(lengths[ids[idx]], sliceSize);
      files := files + [FileInfo(lengths[ids[idx]], sliceCount, offset)];
      offset := offset + sliceCount;
    }
    r := Files(files, offset);
  }

  lemma ConversionsInvert(f: FileInfo, local: nat, global: nat)
    ensures local < f.sliceCount ==> f.GlobalToLocal(f.LocalToGlobal(local)) == Some(local)
    ensures f.GlobalToLocal(global).Some? ==>
      f.GlobalToLocal(global).value < f.sliceCount && f.LocalToGlobal(f.GlobalToLocal(global).value) == global
  {}

  lemma {:induction false} OffsetsOrdered(files: seq<FileInfo>, total: nat, i: nat, j: nat)
    requires Numbered(files, total) && i < j < |files|
    ensures files[i].offset + files[i].sliceCount <= files[j].offset
    decreases j
  {
    if i < j - 1 {
      OffsetsOrdered(files, total, i, j - 1);
    }
  }

  /** The owner of a global index, searching from the back. */
  lemma {:induction false} OwnerExists(files: seq<FileInfo>, total: nat, global: nat, k: nat) returns (i: nat)
    requires Numbered(files, total) && k < |files| && global < files[k].offset + files[k].sliceCount
    ensures i <= k && files[i].GlobalToLocal(global).Some?
    decreases k
  {
    if files[k].offset <= global {
      i := k;
    } else {
      i := OwnerExists(files, total, global, k - 1);
    }
  }

  /** Every global index below the total belongs to exactly one file, and no other index to any. */
  lemma GlobalIndicesPartition(files: seq<FileInfo>, total: nat, global: nat)
    requires Numbered(files, total)
    ensures global < total <==> exists i :: 0 <= i < |files| && files[i].GlobalToLocal(global).Some?
    ensures forall i, j :: 0 <= i < j < |files| && files[i].GlobalToLocal(global).Some? ==>
      files[j].GlobalToLocal(global).None?
  {
    if global < total {
      var i := OwnerExists(files, total, global, |files| - 1);
    }
    forall i, j | 0 <= i < j < |files| && files[i].GlobalToLocal(global).Some?
      ensures files[j].GlobalToLocal(global).None?
    {
      OffsetsOrdered(files, total, i, j);
    }
    forall i | 0 <= i < |files| && files[i].GlobalToLocal(global).Some?
      ensures global < total
    {
      if i < |files| - 1 {
        OffsetsOrdered(files, total, i, |files| - 1);
      }
    }
  }

  // ----- writing a repaired file

  /** The damaged file, open for reading. A seek may go anywhere; a read past the end fails. */
  class SourceFile {
    const data: Bytes
    var pos: nat

    constructor (bytes: Bytes)
      ensures data == bytes && pos == 0
    {
      data, pos := bytes, 0;
    }

    method Seek(n: nat)
      modifies this
      ensures pos == n
    {
      pos := n;
    }

    method ReadExact(n: nat) returns (r: Option<Bytes>)
      modifies this
      ensures r.Some? <==> old(pos) + n <= |data|
      ensures r.Some? ==> r.value == data[old(pos)..old(pos) + n] && pos == old(pos) + n
    {
      if pos + n <= |data| {
        r := Some(data[pos..pos + n]);
        pos := pos + n;
      } else {
        r := None;
      }
    }
  }

  datatype WriteResult =
    | Repaired(data: Bytes)
    | ValidSliceMissingSource(slice: nat)
    | SliceNotAvailable(slice: nat)
    | ReadFailed(slice: nat)
    | ByteCountMismatch(written: nat)
    | Md5Mismatch(data: Bytes)

  /** What there is to write from: rebuilt slices, slices found valid, where they were found, and the old file. */
  datatype Sources = Sources(reconstructed: map<nat, Bytes>, valid: set<nat>, positions: map<nat, nat>,
                             file: Option<Bytes>)

  /** The number of bytes of the file in slice `i`. */
  function ActualSize(length: nat, sliceSize: nat, i: nat): nat
    requires sliceSize > 0
  {
    if i + 1 == BlockCount(length, sliceSize) && length % sliceSize != 0 then length % sliceSize else sliceSize
  }

  /** Where a valid slice is read: where verification found it, or at its own place. */
  function ReadPosition(s: Sources, i: nat, sliceSize: nat): nat {
    BlockStart(i, sliceSize);
    if i in s.positions then s.positions[i] else i * sliceSize
  }

  predicate Available(s: Sources, length: nat, sliceSize: nat, i: nat)
    requires sliceSize > 0
  {
    i in s.reconstructed
    || (i in s.valid && s.file.Some?
        && ReadPosition(s, i, sliceSize) + ActualSize(length, sliceSize, i) <= |s.file.value|)
  }

  /** Rebuilt slices hold at least the bytes that are written of them. */
  ghost predicate LongEnough(s: Sources, length: nat, sliceSize: nat)
    requires sliceSize > 0
  {
    forall i :: i in s.reconstructed && i < BlockCount(length, sliceSize) ==>
      ActualSize(length, sliceSize, i) <= |s.reconstructed[i]|
  }

  /** The bytes written for slice `i`; a rebuilt slice comes before one in the old file. */
  function SliceBytes(s: Sources, length: nat, sliceSize: nat, i: nat): (r: Bytes)
    requires sliceSize > 0 && Available(s, length, sliceSize, i)
    requires i in s.reconstructed ==> ActualSize(length, sliceSize, i) <= |s.reconstructed[i]|
    ensures |r| == ActualSize(length, sliceSize, i)
  {
    var size := ActualSize(length, sliceSize, i);
    if i in s.reconstructed then s.reconstructed[i][..size]
    else
      var pos := ReadPosition(s, i, sliceSize);
      s.file.value[pos..pos + size]
  }

  /** The slices up to `n`, end to end. */
  function Assembled(s: Sources, length: nat, sliceSize: nat, n: nat): Bytes
    requires sliceSize > 0 && n <= BlockCount(length, sliceSize) && LongEnough(s, length, sliceSize)
    requires forall i :: 0 <= i < n ==> Available(s, length, sliceSize, i)
  {
    if n == 0 then [] else Assembled(s, length, sliceSize, n - 1) + SliceBytes(s, length, sliceSize, n - 1)
  }

  lemma SizeInPlace(length: nat, sliceSize: nat, i: nat)
    requires sliceSize > 0 && i < BlockCount(length, sliceSize)
    ensures i * sliceSize >= 0
      && i * sliceSize + ActualSize(length, sliceSize, i) == Clip(i * sliceSize + sliceSize, length)
  {
    BlockStart(i, sliceSize);
    BlockEnd(length, i, sliceSize, ActualSize(length, sliceSize, i));
  }

  /** The written bytes always add up to the length of the file. */
  lemma {:induction false} AssembledLength(s: Sources, length: nat, sliceSize: nat, n: nat)
    requires sliceSize > 0 && n <= BlockCount(length, sliceSize) && LongEnough(s, length, sliceSize)
    requires forall i :: 0 <= i < n ==> Available(s, length, sliceSize, i)
    ensures n * sliceSize >= 0 && |Assembled(s, length, sliceSize, n)| == Clip(n * sliceSize, length)
    decreases n
  {
    hide BlockCount, ActualSize, Available;
    BlockStart(n, sliceSize);
    if n == 0 {
      assert 0 * sliceSize == 0;
    } else {
      AssembledLength(s, length, sliceSize, n - 1);
      BlockStart(n - 1, sliceSize);
      SizeInPlace(length, sliceSize, n - 1);
      FullBefore(length, sliceSize, n - 1);
    }
  }

  lemma FullBefore(length: nat, sliceSize: nat, i: nat)
    requires sliceSize > 0 && i < BlockCount(length, sliceSize)
    ensures 0 <= i * sliceSize < length
  {
    var n := BlockCount(length, sliceSize);
    BlockCountBounds(length, sliceSize);
    BlockStart(i, sliceSize);
    FactorsOrdered(i, n - 1, sliceSize);
  }

  lemma BlockIndices(length: nat, sliceSize: nat, i: nat)
    requires sliceSize > 0
    ensures i < BlockCount(length, sliceSize) <==> i * sliceSize < length
  {
    if i < BlockCount(length, sliceSize) {
      FullBefore(length, sliceSize, i);
    } else if length > 0 {
      BlockCountBounds(length, sliceSize);
      FactorsOrdered(BlockCount(length, sliceSize), i, sliceSize);
    } else {
      BlockStart(i, sliceSize);
    }
  }

  /** A slice can be had when it is rebuilt, or when the old file reaches over the place where it is read. */
  lemma AvailableExactly(s: Sources, length: nat, sliceSize: nat, i: nat)
    requires sliceSize > 0 && i * sliceSize < length
    ensures Available(s, length, sliceSize, i) <==>
      i in s.reconstructed
      || (i in s.valid && s.file.Some?
          && (if i in s.positions then s.positions[i] else i * sliceSize) + Clip(sliceSize, length - i * sliceSize)
             <= |s.file.value|)
  {
    hide BlockCount, ActualSize;
    BlockIndices(length, sliceSize, i);
    SizeInPlace(length, sliceSize, i);
  }

  lemma WaysToHave(s: Sources, length: nat, sliceSize: nat, i: nat)
    requires sliceSize > 0 && i < BlockCount(length, sliceSize) && LongEnough(s, length, sliceSize)
    ensures var (pos, size) := (ReadPosition(s, i, sliceSize), ActualSize(length, sliceSize, i));
      && pos == (if i in s.positions then s.positions[i] else i * sliceSize)
      && (Available(s, length, sliceSize, i) <==>
          i in s.reconstructed || (i in s.valid && s.file.Some? && pos + size <= |s.file.value|))
      && (i in s.reconstructed ==>
          size <= |s.reconstructed[i]| && SliceBytes(s, length, sliceSize, i) == s.reconstructed[i][..size])
      && (i !in s.reconstructed && Available(s, length, sliceSize, i) ==>
          SliceBytes(s, length, sliceSize, i) == s.file.value[pos..pos + size])
  {
    hide BlockCount, ActualSize;
  }

  lemma NothingAssembled(s: Sources, length: nat, sliceSize: nat)
    requires sliceSize > 0 && LongEnough(s, length, sliceSize)
    ensures Assembled(s, length, sliceSize, 0) == []
  {}

  lemma AssembledNext(s: Sources, length: nat, sliceSize: nat, i: nat)
    requires sliceSize > 0 && i < BlockCount(length, sliceSize) && LongEnough(s, length, sliceSize)
    requires forall k :: 0 <= k <= i ==> Available(s, length, sliceSize, k)
    ensures Assembled(s, length, sliceSize, i + 1)
      == Assembled(s, length, sliceSize, i) + SliceBytes(s, length, sliceSize, i)
  {
    hide BlockCount, ActualSize, Available, SliceBytes;
  }

  /** Byte `x` is read from the old file: where its slice was found, or in its own place. */
  ghost predicate ReadFrom(s: Sources, sliceSize: nat, x: nat, b: Byte)
    requires sliceSize > 0
  {
    var i := x / sliceSize;
    && i in s.valid && s.file.Some?
    && var at := if i in s.positions then s.positions[i] + x % sliceSize else x;
       at < |s.file.value| && s.file.value[at] == b
  }

  /** Byte `x` is taken from the rebuilt slice, or else read. */
  ghost predicate TakenFrom(s: Sources, sliceSize: nat, x: nat, b: Byte)
    requires sliceSize > 0
  {
    var (i, o) := (x / sliceSize, x % sliceSize);
    if i in s.reconstructed then o < |s.reconstructed[i]| && s.reconstructed[i][o] == b
    else ReadFrom(s, sliceSize, x, b)
  }

  lemma ByteOfSlice(s: Sources, length: nat, sliceSize: nat, i: nat, o: nat)
    requires sliceSize > 0 && i < BlockCount(length, sliceSize) && Available(s, length, sliceSize, i)
    requires i in s.reconstructed ==> ActualSize(length, sliceSize, i) <= |s.reconstructed[i]|
    requires o < ActualSize(length, sliceSize, i)
    ensures i * sliceSize >= 0 && TakenFrom(s, sliceSize, i * sliceSize + o, SliceBytes(s, length, sliceSize, i)[o])
  {
    hide BlockCount, ActualSize;
    BlockStart(i, sliceSize);
    SizeInPlace(length, sliceSize, i);
    DivideBy(i, o, sliceSize);
  }

  /** Every byte of the slices end to end is taken from where it should. */
  lemma {:induction false} AssembledAt(s: Sources, length: nat, sliceSize: nat, n: nat, x: nat)
    requires sliceSize > 0 && n <= BlockCount(length, sliceSize) && LongEnough(s, length, sliceSize)
    requires forall i :: 0 <= i < n ==> Available(s, length, sliceSize, i)
    requires x < |Assembled(s, length, sliceSize, n)|
    ensures TakenFrom(s, sliceSize, x, Assembled(s, length, sliceSize, n)[x])
    decreases n
  {
    hide BlockCount, ActualSize, Assembled, Available, SliceBytes, TakenFrom;
    if n == 0 {
      NothingAssembled(s, length, sliceSize);
    } else {
      var i := n - 1;
      AssembledLength(s, length, sliceSize, i);
      AssembledNext(s, length, sliceSize, i);
      if x < |Assembled(s, length, sliceSize, i)| {
        AssembledAt(s, length, sliceSize, i, x);
      } else {
        FullBefore(length, sliceSize, i);
        ByteOfSlice(s, length, sliceSize, i, x - i * sliceSize);
      }
    }
  }

  lemma CoversFile(length: nat, sliceSize: nat)
    requires sliceSize > 0
    ensures BlockCount(length, sliceSize) * sliceSize >= length
  {
    BlockCountBounds(length, sliceSize);
  }

  /** Reads the valid slice `i`, seeking only when the file is not already there. */
  method ReadSlice(file: SourceFile, offset: nat, size: nat, expected: Option<nat>) returns (r: Option<Bytes>)
    requires expected.Some? ==> expected.value == file.pos
    modifies file
    ensures r.Some? <==> offset + size <= |file.data|
    ensures r.Some? ==> r.value == file.data[offset..offset + size] && file.pos == offset + size
  {
    if expected != Some(offset) {
      file.Seek(offset);
    }
    r := file.ReadExact(size);
  }

  lemma TakenMeans(s: Sources, sliceSize: nat, data: Bytes)
    requires sliceSize > 0 && forall x :: 0 <= x < |data| ==> TakenFrom(s, sliceSize, x, data[x])
    ensures forall x :: 0 <= x < |data| ==>
      var (i, o) := (x / sliceSize, x % sliceSize);
      if i in s.reconstructed then o < |s.reconstructed[i]| && data[x] == s.reconstructed[i][o]
      else
        && i in s.valid && s.file.Some?
        && var at := if i in s.positions then s.positions[i] + o else x;
           at < |s.file.value| && data[x] == s.file.value[at]
  {
    forall x | 0 <= x < |data|
      ensures var (i, o) := (x / sliceSize, x % sliceSize);
        if i in s.reconstructed then o < |s.reconstructed[i]| && data[x] == s.reconstructed[i][o]
        else
          && i in s.valid && s.file.Some?
          && var at := if i in s.positions then s.positions[i] + o else x;
             at < |s.file.value| && data[x] == s.file.value[at]
    {
      assert TakenFrom(s, sliceSize, x, data[x]);
    }
  }

  /** The file is complete, and every slice of it could be had. */
  lemma AllTaken(s: Sources, length: nat, sliceSize: nat, data: Bytes)
    requires sliceSize > 0 && LongEnough(s, length, sliceSize)
    requires forall i :: 0 <= i < BlockCount(length, sliceSize) ==> Available(s, length, sliceSize, i)
    requires data == Assembled(s, length, sliceSize, BlockCount(length, sliceSize))
    ensures |data| == length && forall x :: 0 <= x < length ==> TakenFrom(s, sliceSize, x, data[x])
    ensures forall i: nat :: i * sliceSize < length ==>
      i in s.reconstructed
      || (i in s.valid && s.file.Some?
          && (if i in s.positions then s.positions[i] else i * sliceSize) + Clip(sliceSize, length - i * sliceSize)
             <= |s.file.value|)
  {
    hide BlockCount, ActualSize, Assembled, Available, TakenFrom;
    var count := BlockCount(length, sliceSize);
    AssembledLength(s, length, sliceSize, count);
    CoversFile(length, sliceSize);
    forall i: nat | i * sliceSize < length
      ensures i in s.reconstructed
        || (i in s.valid && s.file.Some?
            && (if i in s.positions then s.positions[i] else i * sliceSize) + Clip(sliceSize, length - i * sliceSize)
               <= |s.file.value|)
    {
      BlockIndices(length, sliceSize, i);
      AvailableExactly(s, length, sliceSize, i);
    }
    assert data == Assembled(s, length, sliceSize, count);
    forall x | 0 <= x < |data|
      ensures TakenFrom(s, sliceSize, x, data[x])
    {
      AssembledAt(s, length, sliceSize, count, x);
    }
  }

  /** The file is in place, whether or not its MD5 turned out to be the expected one. */
  predicate InPlace(r: WriteResult) { r.Repaired? || r.Md5Mismatch? }

  /** Writes the file slice by slice, puts it in place, and only then compares its MD5. */
  method WriteRepairedFile(s: Sources, length: nat, sliceSize: nat, md5: PacketFormats.Md5,
                           expected: PacketFormats.Hash)
    returns (r: WriteResult)
    requires sliceSize > 0 && LongEnough(s, length, sliceSize)
    ensures InPlace(r) <==> forall i :: 0 <= i < BlockCount(length, sliceSize) ==> Available(s, length, sliceSize, i)
    ensures InPlace(r) ==> r.data == Assembled(s, length, sliceSize, BlockCount(length, sliceSize))
    ensures InPlace(r) <==> forall i: nat :: i * sliceSize < length ==>
      i in s.reconstructed
      || (i in s.valid && s.file.Some?
          && (if i in s.positions then s.positions[i] else i * sliceSize) + Clip(sliceSize, length - i * sliceSize)
             <= |s.file.value|)
    ensures InPlace(r) ==> |r.data| == length && forall x :: 0 <= x < length ==>
      var (i, o) := (x / sliceSize, x % sliceSize);
      if i in s.reconstructed then o < |s.reconstructed[i]| && r.data[x] == s.reconstructed[i][o]
      else
        && i in s.valid && s.file.Some?
        && var at := if i in s.positions then s.positions[i] + o else x;
           at < |s.file.value| && r.data[x] == s.file.value[at]
    ensures InPlace(r) ==> (r.Repaired? <==> md5(r.data) == expected)
    ensures !r.ByteCountMismatch?
    ensures !InPlace(r) ==> r.slice * sliceSize < length && r.slice !in s.reconstructed
    ensures !InPlace(r) ==> forall i: nat :: i < r.slice ==> i in s.reconstructed || i in s.valid
    ensures r.SliceNotAvailable? ==> r.slice !in s.valid
    ensures r.ValidSliceMissingSource? ==> r.slice in s.valid && s.file.None?
    ensures r.ReadFailed? ==>
      && r.slice in s.valid && s.file.Some?
      && |s.file.value| < (if r.slice in s.positions then s.positions[r.slice] else r.slice * sliceSize)
                          + Clip(sliceSize, length - r.slice * sliceSize)
  {
    hide BlockCount, ActualSize, Assembled, Available, SliceBytes, ReadPosition, LongEnough, TakenFrom;
    var file: SourceFile? := null;
    if s.file.Some? {
      file := new SourceFile(s.file.value);
    }
    var data: Bytes := [];
    var written := 0;
    var next: Option<nat> := Some(0);
    var count := BlockCount(length, sliceSize);
    NothingAssembled(s, length, sliceSize);
    for i := 0 to count
      invariant forall k :: 0 <= k < i ==> Available(s, length, sliceSize, k)
      invariant forall k :: 0 <= k < i ==> k in s.reconstructed || k in s.valid
      invariant data == Assembled(s, length, sliceSize, i) && written == |data|
      invariant file != null <==> s.file.Some?
      invariant file != null ==> fresh(file) && file.data == s.file.value && (next.Some? ==> next.value == file.pos)
    {
      var size := ActualSize(length, sliceSize, i);
      BlockIndices(length, sliceSize, i);
      SizeInPlace(length, sliceSize, i);
      WaysToHave(s, length, sliceSize, i);
      if i in s.reconstructed {
        data := data + s.reconstructed[i][..size];
        written := written + size;
        next := None;
      } else if i in s.valid {
        if file == null {
          return ValidSliceMissingSource(i);
        }
        var offset := ReadPosition(s, i, sliceSize);
        var slice := ReadSlice(file, offset, size, next);
        if slice.None? {
          return ReadFailed(i);
        }
        data := data + slice.value;
        written := written + size;
        next := Some(offset + size);
      } else {
        return SliceNotAvailable(i);
      }
      AssembledNext(s, length, sliceSize, i);
    }
    AssembledLength(s, length, sliceSize, count);
    CoversFile(length, sliceSize);
    if written != length {
      return ByteCountMismatch(written);
    }
    AllTaken(s, length, sliceSize, data);
    TakenMeans(s, sliceSize, data);
    r := if md5(data) == expected then Repaired(data) else Md5Mismatch(data);
  }

  /** Every byte of the original is there where it is taken from. */
  ghost predicate Genuine(s: Sources, original: Bytes, sliceSize: nat)
    requires sliceSize > 0
  {
    forall x :: 0 <= x < |original| ==> TakenFrom(s, sliceSize, x, original[x])
  }

  /** A slice whose last byte can be taken can be had. */
  lemma GenuineSlice(s: Sources, original: Bytes, sliceSize: nat, i: nat)
    requires sliceSize > 0 && Genuine(s, original, sliceSize) && i < BlockCount(|original|, sliceSize)
    ensures Available(s, |original|, sliceSize, i)
    ensures i in s.reconstructed ==> ActualSize(|original|, sliceSize, i) <= |s.reconstructed[i]|
  {
    hide BlockCount, ActualSize;
    var o := ActualSize(|original|, sliceSize, i) - 1;
    FullBefore(|original|, sliceSize, i);
    SizeInPlace(|original|, sliceSize, i);
    DivideBy(i, o, sliceSize);
    assert TakenFrom(s, sliceSize, i * sliceSize + o, original[i * sliceSize + o]);
  }

  lemma AllAvailable(s: Sources, original: Bytes, sliceSize: nat)
    requires sliceSize > 0 && Genuine(s, original, sliceSize)
    ensures LongEnough(s, |original|, sliceSize)
    ensures forall i :: 0 <= i < BlockCount(|original|, sliceSize) ==> Available(s, |original|, sliceSize, i)
  {
    hide BlockCount, ActualSize, Genuine, Available;
    forall i: nat | i < BlockCount(|original|, sliceSize)
      ensures Available(s, |original|, sliceSize, i)
      ensures i in s.reconstructed ==> ActualSize(|original|, sliceSize, i) <= |s.reconstructed[i]|
    {
      GenuineSlice(s, original, sliceSize, i);
    }
  }

  lemma TakenOnce(s: Sources, sliceSize: nat, x: nat, a: Byte, b: Byte)
    requires sliceSize > 0 && TakenFrom(s, sliceSize, x, a) && TakenFrom(s, sliceSize, x, b)
    ensures a == b
  {}

  /** From genuine slices the repaired file is the original, byte for byte. */
  lemma RepairedIsOriginal(s: Sources, original: Bytes, sliceSize: nat)
    requires sliceSize > 0 && Genuine(s, original, sliceSize)
    ensures LongEnough(s, |original|, sliceSize)
    ensures forall i :: 0 <= i < BlockCount(|original|, sliceSize) ==> Available(s, |original|, sliceSize, i)
    ensures Assembled(s, |original|, sliceSize, BlockCount(|original|, sliceSize)) == original
  {
    hide LongEnough, Assembled, BlockCount, Available, TakenFrom;
    AllAvailable(s, original, sliceSize);
    var data := Assembled(s, |original|, sliceSize, BlockCount(|original|, sliceSize));
    AllTaken(s, |original|, sliceSize, data);
    forall x | 0 <= x < |original|
      ensures data[x] == original[x]
    {
      assert TakenFrom(s, sliceSize, x, data[x]) && TakenFrom(s, sliceSize, x, original[x]);
      TakenOnce(s, sliceSize, x, data[x], original[x]);
    }
  }
}
