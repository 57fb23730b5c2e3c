/** Choosing a block size for a target number of blocks, and the chunk size for a memory limit. */
module BlockSize {
  import opened GaloisTable
  import opened Divisors
  import opened Chunks
  import opened SourceBlocks

  const DEFAULT_TARGET: nat := 2000
  const MAX_BLOCKS: nat := 32768
  const MAX_CREATE_CHUNK_SIZE: nat := 33554432
  const DEFAULT_MEMORY_LIMIT: nat := 1073741824

  function DivCeil(a: nat, d: nat): nat
    requires d > 0
  {
    (a + d - 1) / d
  }

  /** A rounded-up quotient is at most k exactly when k divisors cover the dividend. */
  lemma DivCeilAtMost(a: nat, d: nat, k: nat)
    requires d > 0
    ensures DivCeil(a, d) <= k <==> a <= k * d
  {
    var q := DivCeil(a, d);
    assert a + d - 1 == d * q + (a + d - 1) % d;
    assert d * q == q * d;
    if q <= k {
      MulMonotone(d, q, k);
      assert d * k == k * d;
    } else {
      MulMonotone(d, k + 1, q);
      assert d * (k + 1) == k * d + d;
    }
  }

  lemma BlockCountIsDivCeil(size: nat, blockSize: nat)
    requires blockSize > 0
    ensures BlockCount(size, blockSize) == DivCeil(size, blockSize)
  {
    if size == 0 {
      DivCeilAtMost(0, blockSize, 0);
    }
  }

  /** The size of a file in units of four bytes. */
  function Units(size: nat): nat { DivCeil(size, 4) }

  function TotalUnits(sizes: seq<nat>): nat {
    if sizes == [] then 0 else TotalUnits(sizes[..|sizes| - 1]) + Units(sizes[|sizes| - 1])
  }

  /** The number of blocks of `s` units. */
  function CountFor(sizes: seq<nat>, s: nat): nat
    requires s > 0
  {
    if sizes == [] then 0 else CountFor(sizes[..|sizes| - 1], s) + DivCeil(Units(sizes[|sizes| - 1]), s)
  }

  /** The number of blocks of all files. */
  function TotalBlocks(sizes: seq<nat>, blockSize: nat): nat
    requires blockSize > 0
  {
    if sizes == [] then 0 else TotalBlocks(sizes[..|sizes| - 1], blockSize) + BlockCount(sizes[|sizes| - 1], blockSize)
  }

  /** Rounding up twice is rounding up once. */
  lemma DivCeilTwice(a: nat, s: nat)
    requires s > 0
    ensures DivCeil(Units(a), s) == DivCeil(a, 4 * s)
  {
    hide DivCeil;
    var (p, q) := (DivCeil(Units(a), s), DivCeil(a, 4 * s));
    DivCeilAtMost(Units(a), s, p);
    DivCeilAtMost(a, 4, p * s);
    assert p * s * 4 == p * (4 * s);
    DivCeilAtMost(a, 4 * s, p);
    DivCeilAtMost(a, 4 * s, q);
    assert q * s * 4 == q * (4 * s);
    DivCeilAtMost(a, 4, q * s);
    DivCeilAtMost(Units(a), s, q);
  }

  lemma {:induction false} TotalBlocksIsCount(sizes: seq<nat>, s: nat)
    requires s > 0
    ensures TotalBlocks(sizes, 4 * s) == CountFor(sizes, s)
  {
    hide DivCeil, Units, BlockCount;
    if sizes != [] {
      TotalBlocksIsCount(sizes[..|sizes| - 1], s);
      DivCeilTwice(sizes[|sizes| - 1], s);
      BlockCountIsDivCeil(sizes[|sizes| - 1], 4 * s);
    }
  }

  lemma DivCeilAntitone(a: nat, s: nat, s': nat)
    requires 0 < s <= s'
    ensures DivCeil(a, s') <= DivCeil(a, s)
  {
    hide DivCeil;
    var k := DivCeil(a, s);
    DivCeilAtMost(a, s, k);
    MulMonotone(k, s, s');
    DivCeilAtMost(a, s', k);
  }

  /** Larger blocks never make more of them. */
  lemma {:induction false} CountAntitone(sizes: seq<nat>, s: nat, s': nat)
    requires 0 < s <= s'
    ensures CountFor(sizes, s') <= CountFor(sizes, s)
  {
    hide DivCeil, Units;
    if sizes != [] {
      CountAntitone(sizes[..|sizes| - 1], s, s');
      DivCeilAntitone(Units(sizes[|sizes| - 1]), s, s');
    }
  }

  lemma DivCeilBounds(a: nat, s: nat)
    requires s > 0
    ensures a <= DivCeil(a, s) * s
    ensures a > 0 ==> DivCeil(a, s) * s <= a + (s - 1)
  {
    hide DivCeil;
    var k := DivCeil(a, s);
    DivCeilAtMost(a, s, k);
    if a > 0 {
      DivCeilAtMost(a, s, 0);
      DivCeilAtMost(a, s, k - 1);
      assert (k - 1) * s == k * s - s;
    }
  }

  /** The blocks cover all units, and each file wastes less than one block. */
  lemma {:induction false} CountBounds(sizes: seq<nat>, s: nat)
    requires s > 0 && forall i :: 0 <= i < |sizes| ==> sizes[i] > 0
    ensures TotalUnits(sizes) <= CountFor(sizes, s) * s <= TotalUnits(sizes) + |sizes| * (s - 1)
    ensures |sizes| <= CountFor(sizes, s) && |sizes| <= TotalUnits(sizes)
  {
    hide DivCeil, Units;
    if sizes == [] {
      assert 0 * s == 0 && 0 * (s - 1) == 0;
    } else {
      var (front, last) := (sizes[..|sizes| - 1], sizes[|sizes| - 1]);
      CountBounds(front, s);
      UnitsPositive(last);
      DivCeilBounds(Units(last), s);
      DivCeilAtMost(Units(last), s, 0);
      CountStep(CountFor(front, s), DivCeil(Units(last), s), TotalUnits(front), Units(last), |front|, s);
    }
  }

  lemma CountStep(c: nat, d: nat, total: nat, units: nat, n: nat, s: nat)
    requires s > 0 && total <= c * s <= total + n * (s - 1) && units <= d * s <= units + (s - 1)
    ensures total + units <= (c + d) * s <= total + units + (n + 1) * (s - 1)
  {
    assert (c + d) * s == c * s + d * s;
    assert (n + 1) * (s - 1) == n * (s - 1) + (s - 1);
  }

  lemma UnitsPositive(size: nat)
    requires size > 0
    ensures Units(size) > 0
  {
    DivCeilAtMost(size, 4, 0);
  }

  // ----- the search

  lemma QuotientBounds(n: nat, d: nat)
    requires d > 0
    ensures n / d * d <= n < n / d * d + d
  {
    assert n == d * (n / d) + n % d;
    assert d * (n / d) == n / d * d;
  }

  /** Below the lower bound there are too many blocks. */
  lemma BelowLower(sizes: seq<nat>, target: nat, lower: nat, s: nat)
    requires target > 0 && lower * target <= TotalUnits(sizes) && 0 < s < lower
    requires forall i :: 0 <= i < |sizes| ==> sizes[i] > 0
    ensures CountFor(sizes, s) > target
  {
    CountBounds(sizes, s);
    FactorsOrdered(s + 1, lower, target);
    assert (s + 1) * target == target * s + target;
    ProductsOrdered(target, CountFor(sizes, s), s);
  }

  /** At the upper bound there are few enough. */
  lemma AtUpper(sizes: seq<nat>, target: nat, s: nat)
    requires |sizes| < target && s == DivCeil(TotalUnits(sizes), target - |sizes|) && s > 0
    requires forall i :: 0 <= i < |sizes| ==> sizes[i] > 0
    ensures CountFor(sizes, s) <= target
  {
    hide DivCeil;
    var (total, count, n) := (TotalUnits(sizes), CountFor(sizes, s), |sizes|);
    CountBounds(sizes, s);
    DivCeilAtMost(total, target - n, s);
    assert s * (target - n) == target * s - s * n;
    assert n * (s - 1) == s * n - n;
    assert (target + 1) * s == target * s + s;
    if n == 0 {
      assert n * (s - 1) == 0;
    }
    ProductsOrdered(count, target + 1, s);
  }

  lemma BoundsApart(total: nat, target: nat, n: nat)
    requires 0 < n < target <= total
    ensures 0 < total / target < DivCeil(total, target - n)
    ensures total / target * target <= total
  {
    hide DivCeil;
    var lower := total / target;
    QuotientBounds(total, target);
    ProductsOrdered(0, lower + 1, target);
    DivCeilAtMost(total, target - n, lower);
    assert lower * (target - n) == lower * target - lower * n;
    PositiveQuotient(total, target);
    FactorsOrdered(1, lower, n);
  }

  lemma PositiveQuotient(n: nat, d: nat)
    requires 0 < d <= n
    ensures n / d >= 1
  {
    QuotientBounds(n, d);
    ProductsOrdered(0, n / d * 1, d);
  }

  // ----- the code

  datatype BlockSizeResult =
    | Chosen(blockSize: nat, blocks: nat)
    | FewerBlocksThanFiles
    | TooManyBlocks(count: nat)
    | NoBlocks

  ghost predicate AllPositive(sizes: seq<nat>) {
    forall i :: 0 <= i < |sizes| ==> sizes[i] > 0
  }

  /** The smallest number of units per block that keeps to the target. */
  ghost predicate Smallest(sizes: seq<nat>, target: nat, s: nat) {
    && s > 0 && CountFor(sizes, s) <= target
    && forall t :: 0 < t < s ==> CountFor(sizes, t) > target
  }

  method CountBlocks(sizes: seq<nat>, s: nat) returns (count: nat)
    requires s > 0
    ensures count == CountFor(sizes, s)
  {
    hide DivCeil, Units;
    count := 0;
    for i := 0 to |sizes|
      invariant count == CountFor(sizes[..i], s)
    {
      assert sizes[..i + 1][..i] == sizes[..i];
      count := count + DivCeil(Units(sizes[i]), s);
    }
    assert sizes[..|sizes|] == sizes;
  }

  /** Binary search between two bounds in units of four bytes. */
  method SearchUnits(sizes: seq<nat>, target: nat, total: nat) returns (size: nat, count: nat)
    requires AllPositive(sizes) && total == TotalUnits(sizes) && 0 < |sizes| < target <= total
    ensures Smallest(sizes, target, size) && count == CountFor(sizes, size)
  {
    hide DivCeil, Units, CountFor, TotalUnits;
    var n := |sizes|;
    var lower, upper := total / target, (total + target - n - 1) / (target - n);
    assert upper == DivCeil(total, target - n) by { UpperIsDivCeil(total, target - n, upper); }
    BoundsApart(total, target, n);
    AtUpper(sizes, target, upper);
    forall t | 0 < t < lower
      ensures CountFor(sizes, t) > target
    {
      BelowLower(sizes, target, lower, t);
    }
    size, count := 0, 0;
    ghost var first := true;
    while lower < upper
      invariant 0 < lower <= upper && CountFor(sizes, upper) <= target
      invariant forall t :: 0 < t < lower ==> CountFor(sizes, t) > target
      invariant if first then lower < upper else lower == upper ==> size == lower && count == CountFor(sizes, size)
      decreases upper - lower
    {
      first := false;
      size := (lower + upper) / 2;
      count := CountBlocks(sizes, size);
      if count > target {
        forall t | 0 < t < size + 1
          ensures CountFor(sizes, t) > target
        {
          CountAntitone(sizes, t, size);
        }
        lower := size + 1;
        if lower >= upper {
          size := lower;
          count := CountBlocks(sizes, size);
        }
      } else {
        upper := size;
      }
    }
  }

  lemma UpperIsDivCeil(total: nat, d: nat, upper: nat)
    requires d > 0 && upper == (total + d - 1) / d
    ensures upper == DivCeil(total, d)
  {}

  method LargestSize(sizes: seq<nat>) returns (largest: nat)
    ensures forall i :: 0 <= i < |sizes| ==> sizes[i] <= largest
    ensures sizes != [] ==> largest in sizes
    ensures sizes == [] ==> largest == 0
  {
    largest := 0;
    for i := 0 to |sizes|
      invariant forall k :: 0 <= k < i ==> sizes[k] <= largest
      invariant if i == 0 then largest == 0 else largest in sizes[..i]
    {
      if sizes[i] >= largest {
        largest := sizes[i];
      }
      assert sizes[..i + 1] == sizes[..i] + [sizes[i]];
    }
    assert sizes[..|sizes|] == sizes;
  }

  method SumBlocks(sizes: seq<nat>, blockSize: nat) returns (blocks: nat)
    requires blockSize > 0
    ensures blocks == TotalBlocks(sizes, blockSize)
  {
    hide BlockCount;
    blocks := 0;
    for i := 0 to |sizes|
      invariant blocks == TotalBlocks(sizes[..i], blockSize)
    {
      assert sizes[..i + 1][..i] == sizes[..i];
      blocks := blocks + BlockCount(sizes[i], blockSize);
    }
    assert sizes[..|sizes|] == sizes;
  }

  method SumUnits(sizes: seq<nat>) returns (total: nat)
    ensures total == TotalUnits(sizes)
  {
    hide Units;
    total := 0;
    for i := 0 to |sizes|
      invariant total == TotalUnits(sizes[..i])
    {
      assert sizes[..i + 1][..i] == sizes[..i];
      total := total + Units(sizes[i]);
    }
    assert sizes[..|sizes|] == sizes;
  }

  /** One block per file, when the block is as large as the largest file. */
  lemma {:induction false} OneBlockEach(sizes: seq<nat>, blockSize: nat)
    requires blockSize > 0 && forall i :: 0 <= i < |sizes| ==> 0 < sizes[i] <= blockSize
    ensures TotalBlocks(sizes, blockSize) == |sizes|
  {
    hide BlockCount;
    if sizes != [] {
      OneBlockEach(sizes[..|sizes| - 1], blockSize);
      BlockCountIsDivCeil(sizes[|sizes| - 1], blockSize);
      DivCeilAtMost(sizes[|sizes| - 1], blockSize, 1);
      DivCeilAtMost(sizes[|sizes| - 1], blockSize, 0);
    }
  }

  /** A file larger than the block makes more blocks than files. */
  lemma {:induction false} OneTooMany(sizes: seq<nat>, s: nat, i: nat)
    requires s > 0 && AllPositive(sizes) && i < |sizes| && Units(sizes[i]) > s
    ensures CountFor(sizes, s) > |sizes|
    decreases |sizes|
  {
    hide DivCeil, Units;
    var (front, last) := (sizes[..|sizes| - 1], sizes[|sizes| - 1]);
    UnitsPositive(last);
    DivCeilAtMost(Units(last), s, 0);
    if i < |sizes| - 1 {
      OneTooMany(front, s, i);
    } else {
      CountBounds(front, s);
      DivCeilAtMost(Units(last), s, 1);
    }
  }

  /** With one block per file, the largest file sets the smallest block size. */
  lemma LargestIsSmallest(sizes: seq<nat>, largest: nat)
    requires AllPositive(sizes) && largest in sizes && forall i :: 0 <= i < |sizes| ==> sizes[i] <= largest
    ensures Smallest(sizes, |sizes|, (largest + 3) / 4 * 4 / 4)
  {
    hide CountFor;
    var s := Units(largest);
    assert (largest + 3) / 4 * 4 / 4 == s;
    var i :| 0 <= i < |sizes| && sizes[i] == largest;
    RoundedUp(largest);
    OneBlockEach(sizes, 4 * s);
    TotalBlocksIsCount(sizes, s);
    forall t | 0 < t < s
      ensures CountFor(sizes, t) > |sizes|
    {
      OneTooMany(sizes, t, i);
    }
  }

  lemma SingleUnits(sizes: seq<nat>, target: nat)
    requires AllPositive(sizes) && TotalUnits(sizes) < target
    ensures Smallest(sizes, target, 1)
  {
    CountBounds(sizes, 1);
    assert CountFor(sizes, 1) * 1 == CountFor(sizes, 1);
  }

  lemma RoundedUp(n: nat)
    requires n > 0
    ensures var r := (n + 3) / 4 * 4; r >= n && r % 4 == 0 && r < n + 4
  {}

  function Target(target: Option<nat>): (n: nat)
    ensures target == None ==> n == 2000
  {
    if target.Some? then target.value else DEFAULT_TARGET
  }

  /** The block size for an explicit size, or for a target number of blocks. Empty files have been dropped before. */
  method CalculateBlockSize(explicit: Option<nat>, target: Option<nat>, sizes: seq<nat>) returns (r: BlockSizeResult)
    requires sizes != [] && AllPositive(sizes) && explicit != Some(0)
    ensures explicit.Some? ==> r == Chosen(explicit.value, TotalBlocks(sizes, explicit.value))
    ensures explicit.None? ==> (r == FewerBlocksThanFiles <==> Target(target) < |sizes|)
    ensures r != NoBlocks
    ensures r.Chosen? ==> r.blockSize > 0 && r.blocks == TotalBlocks(sizes, r.blockSize)
    ensures explicit.None? && r.Chosen? ==> r.blockSize % 4 == 0 && r.blocks <= Target(target)
    ensures explicit.None? && r.Chosen? ==> Smallest(sizes, Target(target), r.blockSize / 4)
    ensures explicit.None? && Target(target) == |sizes| ==> r.Chosen? && r.blocks == |sizes|
    ensures r.TooManyBlocks? ==> explicit.None? && 32768 < r.count <= Target(target)
    ensures explicit.None? && |sizes| <= Target(target) <= 32768 ==> r.Chosen?
    ensures r.TooManyBlocks? ==> exists s :: Smallest(sizes, Target(target), s) && r.count == CountFor(sizes, s)
  {
    hide BlockCount, CountFor, TotalUnits, Units, TotalBlocks;
    var blockSize: nat;
    if explicit.Some? {
      blockSize := explicit.value;
    } else {
      var blockCount := Target(target);
      if blockCount < |sizes| {
        return FewerBlocksThanFiles;
      }
      if blockCount == |sizes| {
        var largest := LargestSize(sizes);
        RoundedUp(largest);
        blockSize := (largest + 3) / 4 * 4;
        OneBlockEach(sizes, blockSize);
        LargestIsSmallest(sizes, largest);
      } else {
        var total := SumUnits(sizes);
        if blockCount > total {
          SingleUnits(sizes, blockCount);
          TotalBlocksIsCount(sizes, 1);
          blockSize := 4;
        } else {
          var size, count := SearchUnits(sizes, blockCount, total);
          CountBounds(sizes, size);
          if count > MAX_BLOCKS {
            return TooManyBlocks(count);
          } else if count == 0 {
            assert false;
          }
          TotalBlocksIsCount(sizes, size);
          blockSize := size * 4;
        }
      }
    }
    var blocks := SumBlocks(sizes, blockSize);
    r := Chosen(blockSize, blocks);
  }

  // ----- the chunk size

  /** Memory for outputs and buffers per byte of chunk. */
  function BuffersFor(sourceBlocks: nat, recoveryBlocks: nat): (n: nat)
    ensures n > 0
    ensures n == recoveryBlocks + if sourceBlocks < 23 then 3 + sourceBlocks else 26
  {
    recoveryBlocks + 2 + Clip(sourceBlocks + 1, 24)
  }

  function ChunkSizeFor(blockSize: nat, sourceBlocks: nat, recoveryBlocks: nat, limit: nat): nat {
    var most := Clip(blockSize, MAX_CREATE_CHUNK_SIZE);
    if blockSize * BuffersFor(sourceBlocks, recoveryBlocks) <= limit then most
    else
      var aligned := limit / BuffersFor(sourceBlocks, recoveryBlocks) / 4 * 4;
      if aligned < 4 then 4 else Clip(aligned, most)
  }

  lemma AboveQuotient(limit: nat, n: nat, m: nat)
    requires n > 0 && m > limit / n
    ensures m * n > limit
  {
    QuotientBounds(limit, n);
    FactorsOrdered(limit / n + 1, m, n);
    assert (limit / n + 1) * n == limit / n * n + n;
  }

  lemma BelowQuotient(limit: nat, n: nat, m: nat)
    requires n > 0 && m <= limit / n
    ensures m * n <= limit
  {
    QuotientBounds(limit, n);
    FactorsOrdered(m, limit / n, n);
  }

  lemma RoundDown(q: nat)
    ensures q / 4 * 4 <= q < q / 4 * 4 + 4 && (q / 4 * 4) % 4 == 0
  {}

  lemma FourIsEven(n: nat)
    requires n % 4 == 0
    ensures n % 2 == 0
  {
    assert n == 2 * (2 * (n / 4));
  }

  /** The chunk is whole words within the block, keeps to the limit, and is the largest that does. */
  ghost predicate SoundChunk(chunk: nat, blockSize: nat, n: nat, limit: nat) {
    && 4 <= chunk <= blockSize && chunk % 4 == 0 && KeepsWords(chunk, blockSize)
    && (chunk == 4 || chunk * n <= limit)
    && (chunk == Clip(blockSize, 33554432) || (chunk + 4) * n > limit)
  }

  /** What is left of the memory limit for a chunk, in whole multiples of four, and no more than the block. */
  lemma AlignedChunk(limit: nat, n: nat, blockSize: nat, chunk: nat)
    requires n > 0 && blockSize >= 4 && blockSize % 4 == 0
    requires var most := Clip(blockSize, MAX_CREATE_CHUNK_SIZE);
      chunk == if limit / n / 4 * 4 < 4 then 4 else Clip(limit / n / 4 * 4, most)
    ensures SoundChunk(chunk, blockSize, n, limit)
  {
    var q := limit / n;
    RoundDown(q);
    FourIsEven(chunk);
    if chunk <= q {
      BelowQuotient(limit, n, chunk);
    }
    if q < chunk + 4 {
      AboveQuotient(limit, n, chunk + 4);
    }
  }

  lemma MostFits(blockSize: nat, n: nat, limit: nat)
    requires blockSize >= 4 && blockSize % 4 == 0 && blockSize * n <= limit
    ensures SoundChunk(Clip(blockSize, MAX_CREATE_CHUNK_SIZE), blockSize, n, limit)
  {
    var most := Clip(blockSize, MAX_CREATE_CHUNK_SIZE);
    FourIsEven(most);
    FactorsOrdered(most, blockSize, n);
  }

  /**
   * For block sizes that are multiples of four, the chunk is one as well, fits in the block, and keeps to the memory
   * limit unless four bytes are already too much. It is the largest such chunk.
   */
  lemma ChunkSizeSound(blockSize: nat, sourceBlocks: nat, recoveryBlocks: nat, limit: nat)
    requires blockSize > 0 && blockSize % 4 == 0
    ensures SoundChunk(ChunkSizeFor(blockSize, sourceBlocks, recoveryBlocks, limit), blockSize,
                       BuffersFor(sourceBlocks, recoveryBlocks), limit)
  {
    hide BuffersFor, SoundChunk;
    var n := BuffersFor(sourceBlocks, recoveryBlocks);
    if blockSize * n <= limit {
      MostFits(blockSize, n, limit);
    } else {
      AlignedChunk(limit, n, blockSize, ChunkSizeFor(blockSize, sourceBlocks, recoveryBlocks, limit));
    }
  }
}
