/** Distributing recovery blocks over volume files. */
module RecoveryFiles {
  import opened Divisors
  import opened BlockSize

  datatype Scheme = Variable | Limited | Uniform

  /** A volume file: the exponent of its first recovery block, and how many it holds. */
  datatype FileAllocation = FileAllocation(exponent: nat, count: nat)

  function EndOf(a: FileAllocation): nat { a.exponent + a.count }

  /** Each file starts where the one before ends. */
  ghost predicate Contiguous(files: seq<FileAllocation>, first: nat) {
    && (files != [] ==> files[0].exponent == first)
    && (forall i :: 0 < i < |files| ==> files[i].exponent == EndOf(files[i - 1]))
  }

  /** The files cover the exponents [first, first + total) without gap or overlap. */
  ghost predicate Tiles(files: seq<FileAllocation>, first: nat, total: nat) {
    && Contiguous(files, first)
    && first + total == if files == [] then first else EndOf(files[|files| - 1])
  }

  ghost predicate Holds(a: FileAllocation, exponent: nat) { a.exponent <= exponent < EndOf(a) }

  lemma {:induction false} ContiguousEnds(files: seq<FileAllocation>, first: nat, i: nat, j: nat)
    requires Contiguous(files, first) && i < j < |files|
    ensures EndOf(files[i]) <= files[j].exponent
    decreases j
  {
    if i < j - 1 {
      ContiguousEnds(files, first, i, j - 1);
    }
  }

  /** Every exponent in the range is in one file, and in no other. */
  lemma {:induction false} TilesHoldOnce(files: seq<FileAllocation>, first: nat, total: nat, exponent: nat)
    returns (i: nat)
    requires Tiles(files, first, total) && first <= exponent < first + total
    ensures i < |files| && Holds(files[i], exponent)
    ensures forall j :: 0 <= j < |files| && j != i ==> !Holds(files[j], exponent)
    decreases |files|
  {
    var last := |files| - 1;
    if files[last].exponent <= exponent {
      i := last;
    } else {
      var front := files[..last];
      FirstFirst(files, first, last);
      assert files[last].exponent == EndOf(files[last - 1]);
      i := TilesHoldOnce(front, first, EndOf(front[last - 1]) - first, exponent);
    }
    forall j | 0 <= j < |files| && j != i
      ensures !Holds(files[j], exponent)
    {
      if i < j {
        ContiguousEnds(files, first, i, j);
      } else {
        ContiguousEnds(files, first, j, i);
      }
    }
  }

  lemma {:induction false} FirstFirst(files: seq<FileAllocation>, first: nat, i: nat)
    requires Contiguous(files, first) && i < |files|
    ensures first <= files[i].exponent
  {
    if i > 0 {
      FirstFirst(files, first, i - 1);
    }
  }

  lemma AppendFile(files: seq<FileAllocation>, first: nat, total: nat, count: nat)
    requires Tiles(files, first, total)
    ensures Tiles(files + [FileAllocation(first + total, count)], first, total + count)
  {}

  lemma TilesWithin(files: seq<FileAllocation>, first: nat, total: nat)
    requires Tiles(files, first, total)
    ensures forall i :: 0 <= i < |files| ==> first <= files[i].exponent && EndOf(files[i]) <= first + total
  {
    forall i | 0 <= i < |files|
      ensures first <= files[i].exponent && EndOf(files[i]) <= first + total
    {
      FirstFirst(files, first, i);
      if i < |files| - 1 {
        ContiguousEnds(files, first, i, |files| - 1);
      }
    }
  }

  /** The number of blocks all files hold together. */
  function TotalCount(files: seq<FileAllocation>): nat {
    if files == [] then 0 else TotalCount(files[..|files| - 1]) + files[|files| - 1].count
  }

  /** All files but the last tile what is before it. */
  lemma TilesFront(files: seq<FileAllocation>, first: nat, total: nat)
    requires Tiles(files, first, total) && files != []
    ensures var (front, last) := (files[..|files| - 1], files[|files| - 1]);
      first <= last.exponent && last.exponent + last.count == first + total
        && Tiles(front, first, last.exponent - first)
  {
    FirstFirst(files, first, |files| - 1);
  }

  lemma NoFilesNoBlocks(first: nat, total: nat)
    requires Tiles([], first, total)
    ensures total == 0
  {}

  lemma {:induction false} TilesTotal(files: seq<FileAllocation>, first: nat, total: nat)
    requires Tiles(files, first, total)
    ensures TotalCount(files) == total
    decreases |files|
  {
    hide Tiles;
    if files == [] {
      NoFilesNoBlocks(first, total);
    } else {
      var front := files[..|files| - 1];
      TilesFront(files, first, total);
      TilesTotal(front, first, files[|files| - 1].exponent - first);
    }
  }

  lemma {:induction false} TotalJoin(a: seq<FileAllocation>, b: seq<FileAllocation>)
    ensures TotalCount(a + b) == TotalCount(a) + TotalCount(b)
    decreases |b|
  {
    if b == [] {
      assert a + b == a;
    } else {
      TotalJoin(a, b[..|b| - 1]);
      assert (a + b)[..|a + b| - 1] == a + b[..|b| - 1];
    }
  }

  // ----- roughly the same number of blocks in each file

  /** The blocks in the first `i` files. */
  function UniformSum(base: nat, remainder: nat, i: nat): nat {
    if i == 0 then 0 else UniformSum(base, remainder, i - 1) + base + if i - 1 < remainder then 1 else 0
  }

  lemma {:induction false} UniformSumIs(base: nat, remainder: nat, i: nat)
    ensures UniformSum(base, remainder, i) == base * i + if i < remainder then i else remainder
  {
    if i == 0 {
      assert base * i == 0;
    } else {
      UniformSumIs(base, remainder, i - 1);
      assert base * i == base * (i - 1) + base;
    }
  }

  method AllocateUniform(fileCount: nat, blockCount: nat, first: nat) returns (files: seq<FileAllocation>)
    requires fileCount > 0
    ensures |files| == fileCount && Tiles(files, first, blockCount)
    ensures forall i :: 0 <= i < fileCount ==> blockCount / fileCount <= files[i].count <= blockCount / fileCount + 1
    ensures forall i, j :: 0 <= i < j < fileCount ==> files[i].count >= files[j].count
  {
    hide Tiles;
    var base, remainder := blockCount / fileCount, blockCount % fileCount;
    var exponent := first;
    files := [];
    NoFiles(first);
    for i := 0 to fileCount
      invariant |files| == i && exponent == first + UniformSum(base, remainder, i)
      invariant Tiles(files, first, UniformSum(base, remainder, i))
      invariant forall k :: 0 <= k < i ==> files[k].count == base + if k < remainder then 1 else 0
    {
      var count := if i < remainder then base + 1 else base;
      AppendFile(files, first, UniformSum(base, remainder, i), count);
      files := files + [FileAllocation(exponent, count)];
      exponent := exponent + count;
    }
    UniformSumIs(base, remainder, fileCount);
    DivisionParts(blockCount, fileCount);
  }

  lemma NoFiles(first: nat)
    ensures Tiles([], first, 0)
  {}

  // ----- twice as many blocks in each file as in the one before

  function Doubled(low: nat, i: nat): (r: nat)
    ensures low > 0 ==> r > 0
  {
    if i == 0 then low else 2 * Doubled(low, i - 1)
  }

  function DoublingSum(low: nat, n: nat): nat {
    if n == 0 then 0 else DoublingSum(low, n - 1) + Doubled(low, n - 1)
  }

  lemma {:induction false} DoublingSumDoubles(low: nat, n: nat)
    ensures DoublingSum(2 * low, n) == 2 * DoublingSum(low, n) && Doubled(2 * low, n) == 2 * Doubled(low, n)
  {
    if n != 0 {
      DoublingSumDoubles(low, n - 1);
    }
  }

  lemma {:induction false} DoublingSumOfOne(n: nat)
    ensures DoublingSum(1, n) == Doubled(1, n) - 1
  {
    if n != 0 {
      DoublingSumOfOne(n - 1);
    }
  }

  lemma {:induction false} DoublingSumPositive(low: nat, n: nat)
    requires low > 0 && n > 0
    ensures DoublingSum(low, n) > 0
  {}

  /** The smallest power of two for which doubling counts hold all blocks; `most` starts as 2^files - 1. */
  method LowCount(files: nat, blocks: nat) returns (low: nat, ghost k: nat)
    requires files > 0
    ensures low == Doubled(1, k) && DoublingSum(low, files) >= blocks
    ensures k > 0 ==> DoublingSum(Doubled(1, k - 1), files) < blocks
  {
    low, k := 1, 0;
    var most := Doubled(1, files) - 1;
    DoublingSumOfOne(files);
    DoublingSumPositive(1, files);
    while most < blocks
      invariant low == Doubled(1, k) && most == DoublingSum(low, files) > 0
      invariant k > 0 ==> DoublingSum(Doubled(1, k - 1), files) < blocks
      decreases blocks - most
    {
      DoublingSumDoubles(low, files);
      low, k := low * 2, k + 1;
      most := most * 2;
    }
  }

  /** The count of file `i` when counts double from `low` until the blocks run out. */
  function DoublingCount(low: nat, blocks: nat, i: nat): nat {
    var given := DoublingSum(low, i);
    if given >= blocks then 0 else if Doubled(low, i) < blocks - given then Doubled(low, i) else blocks - given
  }

  /** What is left before file `i` is what doubling counts have not taken. */
  ghost predicate Left(low: nat, total: nat, blocks: nat, i: nat) {
    && blocks <= total
    && if blocks > 0 then total - blocks == DoublingSum(low, i) else DoublingSum(low, i) >= total
  }

  lemma DoublingStart(low: nat, total: nat)
    ensures Left(low, total, total, 0) && Doubled(low, 0) == low
  {}

  lemma DoublingStep(low: nat, total: nat, blocks: nat, i: nat)
    requires Left(low, total, blocks, i)
    ensures var count := if Doubled(low, i) < blocks then Doubled(low, i) else blocks;
      count == DoublingCount(low, total, i) && Left(low, total, blocks - count, i + 1)
  {
    hide Doubled;
  }

  lemma NoneLeft(low: nat, total: nat, blocks: nat, n: nat)
    requires Left(low, total, blocks, n) && DoublingSum(low, n) >= total
    ensures blocks == 0
  {}

  /** Counts double from 2^k, the smallest power of two with which the files hold all blocks. */
  method AllocateVariable(fileCount: nat, blockCount: nat, first: nat)
    returns (files: seq<FileAllocation>, ghost k: nat)
    requires 0 < fileCount < 32
    ensures |files| == fileCount && Tiles(files, first, blockCount)
    ensures forall i :: 0 <= i < fileCount ==> files[i].count == DoublingCount(Doubled(1, k), blockCount, i)
    ensures forall i :: 0 <= i < fileCount ==>
      var (full, left) := (Doubled(Doubled(1, k), i), first + blockCount - files[i].exponent);
      files[i].count == if full < left then full else left
    ensures DoublingSum(Doubled(1, k), fileCount) >= blockCount
    ensures k > 0 ==> DoublingSum(Doubled(1, k - 1), fileCount) < blockCount
  {
    hide Tiles, Doubled, DoublingSum, DoublingCount, Left;
    var low;
    low, k := LowCount(fileCount, blockCount);
    ghost var start := low;
    var blocks: nat, exponent: nat := blockCount, first;
    files := [];
    NoFiles(first);
    DoublingStart(start, blockCount);
    for i := 0 to fileCount
      invariant |files| == i && blocks <= blockCount && exponent == first + (blockCount - blocks)
      invariant Tiles(files, first, blockCount - blocks)
      invariant low == Doubled(start, i)
      invariant Left(start, blockCount, blocks, i)
      invariant forall j :: 0 <= j < i ==> files[j].count == DoublingCount(start, blockCount, j)
      invariant forall j :: 0 <= j < i ==>
        var (full, left) := (Doubled(start, j), first + blockCount - files[j].exponent);
        files[j].count == if full < left then full else left
    {
      var count: nat := if low < blocks then low else blocks;
      AppendFile(files, first, blockCount - blocks, count);
      DoublingStep(start, blockCount, blocks, i);
      DoubledNext(start, i);
      files := files + [FileAllocation(exponent, count)];
      exponent := exponent + count;
      blocks := blocks - count;
      low := low * 2;
    }
    NoneLeft(start, blockCount, blocks, fileCount);
  }

  // ----- exponential at the bottom, of limited size at the top

  /** The blocks and files left after files of `largest` blocks have been taken off the top. */
  function AfterTop(blocks: nat, largest: nat, files: nat): (r: (nat, nat))
    requires largest > 0
    ensures r.1 <= files && r.0 <= blocks
    ensures r.1 > 0 ==> r.0 < 2 * largest
    decreases files
  {
    if blocks >= 2 * largest && files > 0 then AfterTop(blocks - largest, largest, files - 1) else (blocks, files)
  }

  lemma {:induction false} TopTakesLargest(blocks: nat, largest: nat, files: nat)
    requires largest > 0
    ensures var (b, f) := AfterTop(blocks, largest, files);
      b + (files - f) * largest == blocks && (f < files ==> b >= largest)
    decreases files
  {
    if blocks >= 2 * largest && files > 0 {
      TopTakesLargest(blocks - largest, largest, files - 1);
      var (b, f) := AfterTop(blocks, largest, files);
      assert (files - f) * largest == (files - 1 - f) * largest + largest;
    }
  }

  /** Files of `largest` blocks, laid out downwards from the end of the range. */
  method TopFiles(fileCount: nat, blockCount: nat, first: nat, largest: nat)
    returns (blocks: nat, fileNumber: nat, top: seq<FileAllocation>)
    requires largest > 0
    ensures (blocks, fileNumber) == AfterTop(blockCount, largest, fileCount)
    ensures |top| == fileCount - fileNumber && blocks <= blockCount && Tiles(top, first + blocks, blockCount - blocks)
    ensures forall i :: 0 <= i < |top| ==> top[i].count == largest
    ensures top != [] ==> blocks >= largest
  {
    hide Tiles;
    fileNumber, blocks, top := fileCount, blockCount, [];
    var exponent := first + blockCount;
    NoFiles(exponent);
    while blocks >= 2 * largest && fileNumber > 0
      invariant blocks <= blockCount && fileNumber <= fileCount && exponent == first + blocks
      invariant AfterTop(blocks, largest, fileNumber) == AfterTop(blockCount, largest, fileCount)
      invariant |top| == fileCount - fileNumber && Tiles(top, exponent, blockCount - blocks)
      invariant forall i :: 0 <= i < |top| ==> top[i].count == largest
      invariant top != [] ==> blocks >= largest
    {
      fileNumber := fileNumber - 1;
      exponent := exponent - largest;
      PrependFile(top, exponent, largest, blockCount - blocks);
      blocks := blocks - largest;
      top := [FileAllocation(exponent, largest)] + top;
    }
  }

  lemma PrependFile(files: seq<FileAllocation>, first: nat, count: nat, total: nat)
    requires Tiles(files, first + count, total)
    ensures Tiles([FileAllocation(first, count)] + files, first, count + total)
  {}

  /**
   * The count of a file at the bottom with `left` blocks to go and `later` files to come: as many as doubling gives,
   * but as many as the later files cannot take, and never more than `largest`.
   */
  function BottomCount(low: nat, left: nat, later: nat, largest: nat): (r: nat)
    ensures r <= largest && r <= left
    ensures left <= Room(later, largest) + largest ==> left - r <= Room(later, largest)
    ensures left > Room(later, largest) + largest ==> r == largest
    ensures r < largest && r < left ==> r >= low
    ensures r > low ==> left - r >= Room(later, largest)
  {
    var excess: nat := if left < Room(later, largest) then 0 else left - Room(later, largest);
    var number := if low < left then low else left;
    var raised := if number < excess then excess else number;
    if raised < largest then raised else largest
  }

  method ChooseCount(count: nat, blocks: nat, later: nat, largest: nat) returns (number: nat)
    ensures number == BottomCount(count, blocks, later, largest)
  {
    var maxLater := Room(later, largest);
    var minNow: nat := if blocks < maxLater then 0 else blocks - maxLater;
    number := if count < blocks then count else blocks;
    number := if number < minNow then minNow else number;
    number := if number < largest then number else largest;
  }

  /** What can be left before file `i`: no more than the files take, or all that earlier files could not take. */
  ghost predicate LeftBefore(blocks: nat, blockCount: nat, files: nat, i: nat, largest: nat)
    requires i <= files
  {
    if blockCount <= Room(files, largest) then blocks <= Room(files - i, largest)
    else blocks == blockCount - Room(i, largest)
  }

  lemma LeftAfter(blocks: nat, blockCount: nat, files: nat, i: nat, largest: nat, low: nat)
    requires i < files && LeftBefore(blocks, blockCount, files, i, largest)
    ensures LeftBefore(blocks - BottomCount(low, blocks, files - 1 - i, largest), blockCount, files, i + 1, largest)
  {
    hide BottomCount, Room;
    SplitFiles(files - i, 1, largest);
    SplitFiles(files, i, largest);
    SplitFiles(i + 1, i, largest);
  }

  /** Doubling counts from 2^k, held to `largest`, and raised where the later files could not take the rest. */
  method BottomFiles(files: nat, blockCount: nat, first: nat, largest: nat)
    returns (bottom: seq<FileAllocation>, rest: nat, ghost k: nat)
    requires 0 < files < 32 && largest > 0
    ensures |bottom| == files && rest <= blockCount && Tiles(bottom, first, blockCount - rest)
    ensures LowPower(k, files, blockCount) && BottomShape(bottom, files, files, k, first + blockCount, largest)
    ensures rest == if blockCount <= files * largest then 0 else blockCount - files * largest
  {
    hide Tiles, BottomCount, Doubled, Room, BottomShape, LeftBefore;
    var count;
    count, k := LowCount(files, blockCount);
    var blocks: nat, exponent: nat := blockCount, first;
    bottom := [];
    NoFiles(first);
    NothingTaken(blockCount, files, largest, first, k);
    for i := 0 to files
      invariant |bottom| == i && blocks <= blockCount && exponent == first + (blockCount - blocks)
      invariant Tiles(bottom, first, blockCount - blocks)
      invariant BottomShape(bottom, i, files, k, first + blockCount, largest)
      invariant count == Doubled(Doubled(1, k), i)
      invariant LeftBefore(blocks, blockCount, files, i, largest)
    {
      var number := ChooseCount(count, blocks, files - 1 - i, largest);
      LeftAfter(blocks, blockCount, files, i, largest, count);
      BottomAppend(bottom, files, k, first + blockCount, largest, FileAllocation(exponent, number));
      AppendFile(bottom, first, blockCount - blocks, number);
      DoubledNext(Doubled(1, k), i);
      bottom := bottom + [FileAllocation(exponent, number)];
      exponent := exponent + number;
      blocks := blocks - number;
      count := count * 2;
    }
    rest := blocks;
    LeftAtEnd(blocks, blockCount, files, largest);
  }

  lemma NothingTaken(blockCount: nat, files: nat, largest: nat, first: nat, k: nat)
    ensures LeftBefore(blockCount, blockCount, files, 0, largest)
    ensures BottomShape([], 0, files, k, first + blockCount, largest)
    ensures Doubled(Doubled(1, k), 0) == Doubled(1, k)
  {
    assert Room(0, largest) == 0;
  }

  lemma LeftAtEnd(blocks: nat, blockCount: nat, files: nat, largest: nat)
    requires LeftBefore(blocks, blockCount, files, files, largest)
    ensures blocks == if blockCount <= files * largest then 0 else blockCount - files * largest
  {
    assert Room(0, largest) == 0;
  }

  lemma DoubledNext(low: nat, i: nat)
    ensures Doubled(low, i + 1) == Doubled(low, i) * 2
  {}

  /** 2^k is the smallest power of two from which doubling counts hold all blocks. */
  ghost predicate LowPower(k: nat, files: nat, blocks: nat) {
    DoublingSum(Doubled(1, k), files) >= blocks && (k > 0 ==> DoublingSum(Doubled(1, k - 1), files) < blocks)
  }

  /** The first `i` of `n` files have the counts of files at the bottom, for blocks up to exponent `end`. */
  ghost predicate BottomShape(files: seq<FileAllocation>, i: nat, n: nat, k: nat, end: nat, largest: nat) {
    && i <= n && i <= |files|
    && (forall j :: 0 <= j < i ==> files[j].exponent <= end)
    && (forall j :: 0 <= j < i ==>
         files[j].count == BottomCount(Doubled(Doubled(1, k), j), end - files[j].exponent, n - 1 - j, largest))
  }

  lemma BottomAppend(files: seq<FileAllocation>, n: nat, k: nat, end: nat, largest: nat, next: FileAllocation)
    requires |files| < n && BottomShape(files, |files|, n, k, end, largest) && next.exponent <= end
    requires next.count == BottomCount(Doubled(Doubled(1, k), |files|), end - next.exponent, n - 1 - |files|, largest)
    ensures BottomShape(files + [next], |files| + 1, n, k, end, largest)
  {
    hide BottomCount, Doubled;
  }

  /** What `n` files of at most `largest` blocks can take. */
  function Room(n: nat, largest: nat): nat { n * largest }

  lemma SplitFiles(n: nat, k: nat, largest: nat)
    requires k <= n
    ensures Room(n, largest) == Room(k, largest) + Room(n - k, largest)
    ensures Room(1, largest) == largest && Room(0, largest) == 0
  {
    assert n * largest == k * largest + (n - k) * largest;
  }

  lemma TilesJoin(bottom: seq<FileAllocation>, top: seq<FileAllocation>, first: nat, n: nat, m: nat)
    requires bottom != [] && Tiles(bottom, first, n) && Tiles(top, first + n, m)
    ensures Tiles(bottom + top, first, n + m)
  {}

  // ----- all schemes

  /** The number of blocks a limited file may hold. */
  function LargestCount(largestFileSize: nat, blockSize: nat, blockCount: nat): (n: nat)
    ensures n > 0
    ensures blockSize == 0 ==> blockCount <= n && (n > 1 ==> n == blockCount)
    ensures blockSize > 0 ==> n * blockSize >= largestFileSize && (n > 1 ==> (n - 1) * blockSize < largestFileSize)
  {
    var n := if blockSize == 0 then blockCount else DivCeil(largestFileSize, blockSize);
    if n < 1 then 1 else n
  }

  /** How many files are left for the bottom. */
  function BottomFileCount(fileCount: nat, blockCount: nat, largest: nat): (n: nat)
    requires largest > 0
    ensures n <= fileCount
  {
    var whole := WholeFiles(blockCount, largest);
    if whole >= fileCount then 0 else fileCount - whole
  }

  /** More blocks than the files may hold, but too few for one file of `largest` blocks more. */
  predicate LosesBlocks(fileCount: nat, blockCount: nat, largest: nat) {
    fileCount * largest < blockCount < (fileCount + 1) * largest
  }

  /** It happens for any number of files, as soon as a file may hold two blocks. */
  lemma LossOccurs(fileCount: nat, blockCount: nat, largest: nat)
    ensures largest >= 2 ==> LosesBlocks(fileCount, fileCount * largest + 1, largest)
    ensures largest <= 1 ==> !LosesBlocks(fileCount, blockCount, largest)
  {
    assert (fileCount + 1) * largest == fileCount * largest + largest;
  }

  /** What is left after the top phase, in closed form. */
  lemma AfterTopIs(blockCount: nat, largest: nat, fileCount: nat)
    requires largest > 0
    ensures var n := BottomFileCount(fileCount, blockCount, largest);
      (fileCount - n) * largest <= blockCount
      && AfterTop(blockCount, largest, fileCount) == (blockCount - (fileCount - n) * largest, n)
  {
    hide AfterTop;
    var whole := WholeFiles(blockCount, largest);
    WholeFits(blockCount, largest);
    if whole <= fileCount {
      TopTakesWhole(whole, largest, blockCount - whole * largest, fileCount - whole);
    } else {
      FactorsOrdered(fileCount + 1, whole, largest);
      assert (fileCount + 1) * largest == fileCount * largest + largest;
      TopRunsOut(blockCount, largest, fileCount);
    }
  }

  lemma {:induction false} TopRunsOut(blocks: nat, largest: nat, files: nat)
    requires largest > 0 && blocks >= (files + 1) * largest
    ensures files * largest <= blocks && AfterTop(blocks, largest, files) == (blocks - files * largest, 0)
  {
    assert (files + 1) * largest == files * largest + largest;
    if files == 0 {
      assert 0 * largest == 0;
    } else {
      assert files * largest == (files - 1) * largest + largest;
      NonnegativeProduct(files - 1, largest);
      TopRunsOut(blocks - largest, largest, files - 1);
    }
  }

  /** The files at the bottom are too few for the blocks left to them exactly when blocks are lost. */
  lemma OverfullExactly(blockCount: nat, largest: nat, fileCount: nat)
    requires largest > 0 && fileCount > 0
    ensures var (b, f) := AfterTop(blockCount, largest, fileCount);
      (f > 0 && b > f * largest) <==> LosesBlocks(fileCount, blockCount, largest)
    ensures LosesBlocks(fileCount, blockCount, largest) ==> AfterTop(blockCount, largest, fileCount).1 == 1
  {
    hide AfterTop;
    var (b, f) := AfterTop(blockCount, largest, fileCount);
    TopTakesLargest(blockCount, largest, fileCount);
    AfterTopBounds(blockCount, largest, fileCount);
    assert (fileCount + 1) * largest == fileCount * largest + largest;
    assert fileCount * largest == (fileCount - f) * largest + f * largest;
    if f == 0 {
      assert f * largest == 0;
    } else {
      RoomOfTwo(f, largest);
    }
  }

  /**
   * `end` is where the last file at the bottom ends, which is the exponent of the index file. With no file left for the
   * bottom, all files get roughly the same number of blocks.
   */
  method AllocateLimited(fileCount: nat, blockCount: nat, first: nat, largest: nat)
    returns (files: seq<FileAllocation>, end: nat, ghost k: nat)
    requires fileCount > 0 && largest > 0 && BottomFileCount(fileCount, blockCount, largest) < 32
    ensures |files| == fileCount
    ensures Tiles(files, first, blockCount) <==> !LosesBlocks(fileCount, blockCount, largest)
    ensures LosesBlocks(fileCount, blockCount, largest) ==> TotalCount(files) < blockCount
    ensures LosesBlocks(fileCount, blockCount, largest) ==>
      forall x, i :: first + largest <= x < first + blockCount - (fileCount - 1) * largest && 0 <= i < fileCount ==>
        !Holds(files[i], x)
    ensures var n := BottomFileCount(fileCount, blockCount, largest);
      n > 0 ==> LimitedShape(files, n, k, blockCount, first, largest) && end == EndOf(files[n - 1])
    ensures BottomFileCount(fileCount, blockCount, largest) == 0 ==>
      && end == first + blockCount
      && (forall i :: 0 <= i < fileCount ==>
           blockCount / fileCount <= files[i].count <= blockCount / fileCount + 1)
      && (forall i, j :: 0 <= i < j < fileCount ==> files[i].count >= files[j].count)
    ensures forall i :: 0 <= i < fileCount ==> first <= files[i].exponent && EndOf(files[i]) <= first + blockCount
  {
    hide AfterTop, Tiles, BottomShape, LowPower, BottomFileCount, LosesBlocks, TotalCount, Doubled, WholeFiles,
      DoublingSum;
    AfterTopIs(blockCount, largest, fileCount);
    AfterTopBounds(blockCount, largest, fileCount);
    OverfullExactly(blockCount, largest, fileCount);
    var blocks, fileNumber, top := TopFiles(fileCount, blockCount, first, largest);
    if fileNumber == 0 && blocks > 0 {
      files := AllocateUniform(fileCount, blockCount, first);
      end, k := first + blockCount, 0;
      TilesWithin(files, first, blockCount);
    } else {
      var bottom, rest;
      bottom, rest, k := BottomFiles(fileNumber, blocks, first, largest);
      files := bottom + top;
      end := EndOf(bottom[fileNumber - 1]);
      ShapeKept(bottom, top, k, first + blocks, largest);
      TilesWithin(bottom, first, blocks - rest);
      TilesWithin(top, first + blocks, blockCount - blocks);
      if rest == 0 {
        TilesJoin(bottom, top, first, blocks, blockCount - blocks);
      } else {
        BlocksLost(bottom, top, first, blocks, blockCount, largest, rest);
      }
    }
  }

  /** `n` files at the bottom whose counts double within bounds, and files of `largest` blocks above them. */
  ghost predicate LimitedShape(files: seq<FileAllocation>, n: nat, k: nat, blockCount: nat, first: nat, largest: nat)
    requires n <= |files|
  {
    var taken := (|files| - n) * largest;
    && taken <= blockCount
    && LowPower(k, n, blockCount - taken) && BottomShape(files, n, n, k, first + (blockCount - taken), largest)
    && (forall i :: n <= i < |files| ==> files[i].count == largest)
  }

  lemma ShapeKept(bottom: seq<FileAllocation>, top: seq<FileAllocation>, k: nat, end: nat, largest: nat)
    requires BottomShape(bottom, |bottom|, |bottom|, k, end, largest)
    ensures BottomShape(bottom + top, |bottom|, |bottom|, k, end, largest)
  {
    hide BottomCount, Doubled;
    var files := bottom + top;
    assert forall i :: 0 <= i < |bottom| ==> files[i] == bottom[i];
  }

  lemma AfterTopBounds(blocks: nat, largest: nat, files: nat)
    requires largest > 0
    ensures var (b, f) := AfterTop(blocks, largest, files);
      (f > 0 ==> b < 2 * largest) && (f == 0 && files > 0 ==> b > 0)
  {
    TopTakesLargest(blocks, largest, files);
  }

  lemma RoomOfTwo(n: nat, largest: nat)
    requires n > 0
    ensures n == 1 ==> n * largest == largest
    ensures n >= 2 ==> n * largest >= 2 * largest
  {
    if n >= 2 {
      MulMonotone(largest, 2, n);
      assert largest * n == n * largest && largest * 2 == 2 * largest;
    } else {
      assert 1 * largest == largest;
    }
  }

  /** With one overfull file the exponents after its limit are in no file. */
  lemma BlocksLost(bottom: seq<FileAllocation>, top: seq<FileAllocation>, first: nat, blocks: nat, blockCount: nat,
                   largest: nat, rest: nat)
    requires blocks < 2 * largest && |bottom| > 0 && rest == blocks - |bottom| * largest > 0 && blocks <= blockCount
    requires Tiles(bottom, first, blocks - rest) && Tiles(top, first + blocks, blockCount - blocks)
    ensures |bottom| == 1
    ensures forall x, i :: first + largest <= x < first + blocks && 0 <= i < |bottom + top| ==>
      !Holds((bottom + top)[i], x)
    ensures !Tiles(bottom + top, first, blockCount) && TotalCount(bottom + top) == blockCount - rest
  {
    RoomOfTwo(|bottom|, largest);
    TilesTotal(bottom, first, blocks - rest);
    TilesTotal(top, first + blocks, blockCount - blocks);
    TotalJoin(bottom, top);
    var files := bottom + top;
    assert files[0] == bottom[0];
    forall x, i | first + largest <= x < first + blocks && 0 <= i < |files|
      ensures !Holds(files[i], x)
    {
      if i > 0 {
        FirstFirst(top, first + blocks, i - 1);
        assert files[i] == top[i - 1];
      }
    }
    if Tiles(files, first, blockCount) {
      var i := TilesHoldOnce(files, first, blockCount, first + largest);
    }
  }

  /** Counts that differ by at most one, larger ones first. */
  ghost predicate EvenCounts(files: seq<FileAllocation>, blockCount: nat)
    requires files != []
  {
    && (forall i :: 0 <= i < |files| ==>
         blockCount / |files| <= files[i].count <= blockCount / |files| + 1)
    && (forall i, j :: 0 <= i < j < |files| ==> files[i].count >= files[j].count)
  }

  /** Counts that double from 2^k, the smallest power of two that suffices, until no block is left. */
  ghost predicate DoublingCounts(files: seq<FileAllocation>, k: nat, blockCount: nat, first: nat) {
    && DoublingSum(Doubled(1, k), |files|) >= blockCount
    && (k > 0 ==> DoublingSum(Doubled(1, k - 1), |files|) < blockCount)
    && (forall i :: 0 <= i < |files| ==>
         var (full, left) := (Doubled(Doubled(1, k), i), first + blockCount - files[i].exponent);
         files[i].count == if full < left then full else left)
  }

  /** The counts of the files are those the scheme asks for. */
  ghost predicate FollowsScheme(files: seq<FileAllocation>, k: nat, scheme: Scheme, blockCount: nat, first: nat,
                                largestFileSize: nat, blockSize: nat)
    requires files != []
  {
    match scheme
    case Uniform => EvenCounts(files, blockCount)
    case Variable => DoublingCounts(files, k, blockCount, first)
    case Limited =>
      var largest := LargestCount(largestFileSize, blockSize, blockCount);
      var n := BottomFileCount(|files|, blockCount, largest);
      if n == 0 then EvenCounts(files, blockCount) else LimitedShape(files, n, k, blockCount, first, largest)
  }

  /**
   * The volume files, and the index file, which holds no blocks. Its exponent is where the files end that were laid out
   * last: at the end of the range, or at the end of the bottom files for the limited scheme.
   */
  method AllocateRecoveryBlocks(scheme: Scheme, fileCount: nat, blockCount: nat, first: nat, largestFileSize: nat,
                                blockSize: nat)
    returns (files: seq<FileAllocation>, index: FileAllocation, ghost k: nat)
    requires scheme == Variable ==> fileCount < 32
    requires scheme == Limited ==>
      BottomFileCount(fileCount, blockCount, LargestCount(largestFileSize, blockSize, blockCount)) < 32
    ensures |files| == fileCount && index.count == 0
    ensures fileCount == 0 ==> index.exponent == first
    ensures fileCount > 0 && scheme != Limited ==> index.exponent == first + blockCount
    ensures fileCount > 0 && scheme == Limited ==>
      var n := BottomFileCount(fileCount, blockCount, LargestCount(largestFileSize, blockSize, blockCount));
      index.exponent == if n == 0 then first + blockCount else EndOf(files[n - 1])
    ensures fileCount > 0 && scheme != Limited ==> Tiles(files, first, blockCount)
    ensures fileCount > 0 && scheme == Limited ==>
      (Tiles(files, first, blockCount)
       <==> !LosesBlocks(fileCount, blockCount, LargestCount(largestFileSize, blockSize, blockCount)))
    ensures fileCount > 0 ==> FollowsScheme(files, k, scheme, blockCount, first, largestFileSize, blockSize)
    ensures TotalCount(files) == blockCount <==> PlacesAll(scheme, fileCount, blockCount, largestFileSize, blockSize)
    ensures TotalCount(files) <= blockCount
    ensures forall i :: 0 <= i < fileCount ==> first <= files[i].exponent && EndOf(files[i]) <= first + blockCount
  {
    hide Tiles, LosesBlocks, BottomFileCount, LimitedShape, DoublingCount, DoublingSum, Doubled, LargestCount;
    if fileCount == 0 {
      return [], FileAllocation(first, 0), 0;
    }
    var end := first + blockCount;
    k := 0;
    match scheme {
      case Uniform =>
        files := AllocateUniform(fileCount, blockCount, first);
        TilesWithin(files, first, blockCount);
      case Variable =>
        files, k := AllocateVariable(fileCount, blockCount, first);
        TilesWithin(files, first, blockCount);
      case Limited =>
        var largest := LargestCount(largestFileSize, blockSize, blockCount);
        files, end, k := AllocateLimited(fileCount, blockCount, first, largest);
    }
    index := FileAllocation(end, 0);
    if scheme == Limited && LosesBlocks(fileCount, blockCount, LargestCount(largestFileSize, blockSize, blockCount)) {
      LossNeedsBlocks(fileCount, blockCount, LargestCount(largestFileSize, blockSize, blockCount));
    } else {
      TilesTotal(files, first, blockCount);
    }
  }

  /** Whether every block has a place, which can be told before anything is laid out. */
  predicate PlacesAll(scheme: Scheme, fileCount: nat, blockCount: nat, largestFileSize: nat, blockSize: nat) {
    blockCount == 0
    || (fileCount > 0
        && (scheme == Limited ==>
            !LosesBlocks(fileCount, blockCount, LargestCount(largestFileSize, blockSize, blockCount))))
  }

  /** The default for the limited scheme: files of `largest` blocks, and for the rest as many as its number has bits. */
  lemma LimitedFileCountIs(blockCount: nat, largest: nat)
    requires largest > 0
    ensures exists whole: nat ::
      && whole * largest <= blockCount < (whole + 2) * largest
      && (whole > 0 ==> (whole + 1) * largest <= blockCount)
      && LimitedFileCount(blockCount, largest) == whole + Bits(blockCount - whole * largest)
  {
    hide Bits;
    var whole := WholeFiles(blockCount, largest);
    WholeFits(blockCount, largest);
    assert (whole + 2) * largest == whole * largest + 2 * largest;
    assert (whole + 1) * largest == whole * largest + largest;
  }

  lemma LossNeedsBlocks(fileCount: nat, blockCount: nat, largest: nat)
    requires LosesBlocks(fileCount, blockCount, largest)
    ensures blockCount > 0
  {
    NonnegativeProduct(fileCount, largest);
  }

  // ----- default file counts

  /** The number of bits of `n`. */
  function Bits(n: nat): (b: nat)
    ensures n > 0 ==> b > 0 && Doubled(1, b - 1) <= n
    ensures n > 1 ==> b > 1
    ensures n < Doubled(1, b)
  {
    if n == 0 then 0 else 1 + Bits(n / 2)
  }

  lemma {:induction false} BitsBelow(n: nat, k: nat)
    requires n < Doubled(1, k)
    ensures Bits(n) <= k
  {
    if n != 0 {
      BitsBelow(n / 2, k - 1);
    }
  }

  method DefaultRecoveryFileCount(blockCount: nat) returns (fileCount: nat)
    ensures fileCount == Bits(blockCount)
  {
    fileCount := 0;
    var blocks := blockCount;
    while blocks > 0
      invariant fileCount + Bits(blocks) == Bits(blockCount)
    {
      fileCount := fileCount + 1;
      blocks := blocks / 2;
    }
  }

  /** The source divides by the number of blocks of the largest file, which must not be zero here. */
  method DefaultFileCountFor(scheme: Scheme, blockCount: nat, largestFileSize: nat, blockSize: nat)
    returns (fileCount: nat)
    requires scheme == Limited && blockCount > 0 ==> blockSize > 0 && largestFileSize > 0
    ensures blockCount == 0 ==> fileCount == 0
    ensures blockCount > 0 && scheme != Limited ==> fileCount == Bits(blockCount)
    ensures blockCount > 0 && scheme == Limited ==>
      fileCount == LimitedFileCount(blockCount, LargestCount(largestFileSize, blockSize, blockCount))
  {
    if blockCount == 0 {
      return 0;
    }
    match scheme {
      case Limited =>
        LargestPositive(largestFileSize, blockSize);
        fileCount := LimitedDefault(blockCount, LargestCount(largestFileSize, blockSize, blockCount));
      case _ =>
        fileCount := DefaultRecoveryFileCount(blockCount);
    }
  }

  method LimitedDefault(blockCount: nat, largest: nat) returns (fileCount: nat)
    requires largest > 0
    ensures fileCount == LimitedFileCount(blockCount, largest)
  {
    var whole := if blockCount / largest < 1 then 0 else blockCount / largest - 1;
    WholeFits(blockCount, largest);
    var files := DefaultRecoveryFileCount(blockCount - whole * largest);
    fileCount := whole + files;
  }

  lemma LargestPositive(largestFileSize: nat, blockSize: nat)
    requires blockSize > 0 && largestFileSize > 0
    ensures DivCeil(largestFileSize, blockSize) > 0
  {
    DivCeilAtMost(largestFileSize, blockSize, 0);
  }

  /** All but the last one or two times `largest` blocks go into whole files. */
  function WholeFiles(blockCount: nat, largest: nat): nat
    requires largest > 0
  {
    if blockCount / largest < 1 then 0 else blockCount / largest - 1
  }

  lemma WholeFits(blockCount: nat, largest: nat)
    requires largest > 0
    ensures var whole := WholeFiles(blockCount, largest);
      0 <= whole * largest <= blockCount && blockCount - whole * largest < 2 * largest
    ensures WholeFiles(blockCount, largest) > 0 ==> blockCount - WholeFiles(blockCount, largest) * largest >= largest
  {
    QuotientBounds(blockCount, largest);
    var q := blockCount / largest;
    assert (q - 1) * largest == q * largest - largest;
    if q < 1 {
      assert 0 * largest == 0;
    }
  }

  function LimitedFileCount(blockCount: nat, largest: nat): nat
    requires largest > 0
  {
    WholeFits(blockCount, largest);
    WholeFiles(blockCount, largest) + Bits(blockCount - WholeFiles(blockCount, largest) * largest)
  }

  /** The top phase takes exactly the whole files. */
  lemma {:induction false} TopTakesWhole(whole: nat, largest: nat, extra: nat, files: nat)
    requires largest > 0 && extra < 2 * largest && (whole > 0 ==> extra >= largest)
    ensures whole * largest >= 0 && AfterTop(whole * largest + extra, largest, whole + files) == (extra, files)
  {
    if whole == 0 {
      assert 0 * largest == 0;
    } else {
      TopTakesWhole(whole - 1, largest, extra, files);
      assert whole * largest == (whole - 1) * largest + largest;
      assert (whole - 1) * largest >= 0;
    }
  }

  lemma FourMore(n: nat)
    ensures Doubled(1, n + 4) == 16 * Doubled(1, n)
  {
    assert Doubled(1, n + 2) == 2 * Doubled(1, n + 1);
  }

  lemma WidestShift()
    ensures Doubled(1, 31) == 0x8000_0000
  {
    hide Doubled;
    ThreeDoubled();
    FourMore(3);
    FourMore(7);
    FourMore(11);
    FourMore(15);
    FourMore(19);
    FourMore(23);
    FourMore(27);
  }

  lemma ThreeDoubled()
    ensures Doubled(1, 3) == 8
  {}

  /** The default number of files for the limited scheme never loses blocks, nor shifts too far. */
  lemma LimitedDefaultFits(blockCount: nat, largest: nat)
    requires largest > 0 && 0 < blockCount < 0x8000_0000
    ensures var fileCount := LimitedFileCount(blockCount, largest);
      !LosesBlocks(fileCount, blockCount, largest) && 0 < BottomFileCount(fileCount, blockCount, largest) < 32
  {
    hide Doubled, AfterTop, LosesBlocks;
    var whole := WholeFiles(blockCount, largest);
    WholeFits(blockCount, largest);
    var extra := blockCount - whole * largest;
    WidestShift();
    BitsBelow(extra, 31);
    AfterTopIs(blockCount, largest, whole + Bits(extra));
    TopTakesWhole(whole, largest, extra, Bits(extra));
    OverfullExactly(blockCount, largest, whole + Bits(extra));
    RoomOfTwo(Bits(extra), largest);
    assert largest * 2 == 2 * largest;
  }

  /** Nor does the default for the other schemes shift too far. */
  lemma VariableDefaultFits(blockCount: nat)
    requires 0 < blockCount < 0x8000_0000
    ensures 0 < Bits(blockCount) < 32
  {
    hide Doubled;
    WidestShift();
    BitsBelow(blockCount, 31);
  }
}
