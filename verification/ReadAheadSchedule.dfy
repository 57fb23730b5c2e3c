/** Which chunks arrive cut, for sets of slices that fit in the cache: every fifth chunk, or every second, is padded. */
module ReadAheadSchedule {
  import opened Divisors
  import opened SourceBlocks
  import opened Chunks
  import opened SliceProvider
  import opened ServedChunks

  /** The chunks in which slices have data. */
  ghost function DataKeys(p: Plan): set<Key>
    requires p.chunk > 0
  {
    set g, m | g in p.lengths && 0 <= m < p.Count() && p.Start(m) < p.lengths[g] :: (g, p.Start(m))
  }

  /** All data fits in the cache with room to spare, and every slice is listed once. */
  ghost predicate FitsInCache(p: Plan)
    requires p.Valid()
  {
    && |DataKeys(p)| < MaxCached(p.size) * 9 / 10
    && (forall i, j :: 0 <= i < j < |p.keys| ==> p.keys[i] != p.keys[j])
  }

  /** The cache is filled up to nine tenths: 899 chunks, or 27 of slices of a mebibyte and more. */
  lemma FitsInCacheExactly(p: Plan)
    requires p.Valid()
    ensures FitsInCache(p) <==>
      && |DataKeys(p)| < (if p.size < 0x10_0000 then 900 else 28)
      && forall i, j :: 0 <= i < j < |p.keys| ==> p.keys[i] != p.keys[j]
  {
    hide DataKeys;
  }

  /** The number of chunks between two that are read when they are asked for. */
  function Stride(p: Plan): (n: nat)
    ensures n == if p.chunk < 0x10_0000 then 5 else 2
  {
    Ahead(p.chunk) + 1
  }

  /** How many chunks have been cached once `n` have been asked for. */
  function Upto(p: Plan, n: nat): nat {
    if n == 0 then 0 else ((n - 1) / Stride(p) + 1) * Stride(p)
  }

  /** The bytes cached of chunk `m`: padded when it was asked for, bare when it was read ahead. */
  function CachedLength(p: Plan, actual: nat, m: nat): nat
    requires p.Start(m) <= actual
  {
    if m % Stride(p) == 0 then p.Length(m) else Clip(actual - p.Start(m), p.Length(m))
  }

  /** Chunk `m` of slice `j` is cached as it should be after `n` chunks of the slice were asked for. */
  ghost predicate ChunkCached(p: Plan, c: Cache, j: nat, n: nat, m: nat)
    requires p.Valid() && j < |p.keys|
  {
    var (g, actual) := (p.keys[j], p.lengths[p.keys[j]]);
    && ((g, p.Start(m)) in c.lengths <==> p.Start(m) < actual && m < Upto(p, n))
    && (p.Start(m) < actual && m < Upto(p, n) ==> c.lengths[(g, p.Start(m))] == CachedLength(p, actual, m))
  }

  ghost predicate SliceCached(p: Plan, c: Cache, j: nat, n: nat)
    requires p.Valid() && j < |p.keys|
  {
    forall m :: 0 <= m < p.Count() ==> ChunkCached(p, c, j, n, m)
  }

  /** What is cached before slice `i` is read in chunk `k`. */
  ghost predicate OnSchedule(p: Plan, c: Cache, k: nat, i: nat)
    requires p.Valid()
  {
    && c.lengths.Keys <= DataKeys(p)
    && (forall j :: 0 <= j < |p.keys| && p.keys[j] < p.total ==> SliceCached(p, c, j, if j < i then k + 1 else k))
  }

  // ----- arithmetic of the schedule

  lemma UptoNext(p: Plan, k: nat)
    ensures k % Stride(p) == 0 ==> Upto(p, k) == k && Upto(p, k + 1) == k + Stride(p)
    ensures k % Stride(p) != 0 ==> Upto(p, k) == Upto(p, k + 1) > k
  {
    var d := Stride(p);
    var (q, r) := (k / d, k % d);
    DivisionParts(k, d);
    DivideBy(q, r, d);
    if r == 0 {
      if k > 0 {
        assert (q - 1) * d + (d - 1) == k - 1;
        NonzeroQuotient(q, d, k);
        DivideBy(q - 1, d - 1, d);
      }
    } else {
      assert q * d + (r - 1) == k - 1;
      DivideBy(q, r - 1, d);
    }
    assert (q + 1) * d == q * d + d;
  }

  lemma NonzeroQuotient(q: nat, d: nat, k: nat)
    requires q * d == k > 0
    ensures q > 0
  {
    assert 0 * d == 0;
  }

  /** Starts are different, and those from a chunk on are behind its start. */
  lemma StartsOrdered(p: Plan, m: nat, n: nat)
    requires p.chunk > 0 && m < n < p.Count()
    ensures p.Start(m) + p.chunk <= p.Start(n)
  {
    hide ChunkEnd, ChunkCount;
    ChunkStarts(p, m);
    ChunkStarts(p, n);
    FactorsOrdered(m + 1, n, p.chunk);
    assert (m + 1) * p.chunk == m * p.chunk + p.chunk;
  }

  // ----- inserting and reading ahead without forgetting

  lemma NothingForgotten(c: Cache, most: nat, all: set<Key>)
    requires most > 0 && c.lengths.Keys <= all && |all| < most
    ensures Evicted(c, most) == c && |c.lengths| <= |all|
  {
    assert |c.lengths| == |c.lengths.Keys|;
    SubsetSize(c.lengths.Keys, all);
  }

  lemma {:induction false} SubsetSize(a: set<Key>, b: set<Key>)
    requires a <= b
    ensures |a| <= |b|
    decreases |a|
  {
    if a != {} {
      var k :| k in a;
      SubsetSize(a - {k}, b - {k});
    }
  }

  /** `r` is `c` with the chunks that have data among the next `n`, as bare as the file has them. */
  ghost predicate ReadAheadFrom(c: Cache, r: Cache, g: nat, start: nat, size: nat, actual: nat, n: nat) {
    && (forall k :: k in c.lengths ==> k in r.lengths && r.lengths[k] == c.lengths[k])
    && (forall k :: k in r.lengths ==> k in c.lengths || AheadKey(k, g, start, size, actual, n))
    && (forall j :: 0 <= j < n && Later(start, j, size) < actual ==>
         (g, Later(start, j, size)) in r.lengths
         && r.lengths[(g, Later(start, j, size))] == Clip(actual - Later(start, j, size), size))
  }

  lemma ReadNothingAhead(c: Cache, g: nat, start: nat, size: nat, actual: nat)
    ensures ReadAheadFrom(c, c, g, start, size, actual, 0)
  {}

  lemma AheadKeyGrows(k: Key, g: nat, start: nat, size: nat, actual: nat, n: nat)
    requires n > 0
    ensures AheadKey(k, g, start, size, actual, n - 1) ==> AheadKey(k, g, start, size, actual, n)
    ensures Later(start, n - 1, size) < actual && k == (g, Later(start, n - 1, size)) ==>
      AheadKey(k, g, start, size, actual, n)
  {
    hide Later;
    var j := n - 1;
    assert 0 <= j < n;
  }

  lemma OneMoreAhead(c: Cache, before: Cache, r: Cache, g: nat, start: nat, size: nat, actual: nat, n: nat)
    requires n > 0 && size > 0 && ReadAheadFrom(c, before, g, start, size, actual, n - 1)
    requires var offset := Later(start, n - 1, size);
      (g, offset) !in c.lengths
      && r.lengths == if offset >= actual then before.lengths
                      else before.lengths[(g, offset) := Clip(actual - offset, size)]
    ensures ReadAheadFrom(c, r, g, start, size, actual, n)
  {
    hide Later, AheadKey;
    var offset := Later(start, n - 1, size);
    forall j | 0 <= j < n - 1
      ensures Later(start, j, size) < offset
    {
      LaterOrdered(start, j, n - 1, size);
    }
    forall k | k in r.lengths && k !in c.lengths
      ensures AheadKey(k, g, start, size, actual, n)
    {
      AheadKeyGrows(k, g, start, size, actual, n);
    }
  }

  /** Inserting, when nothing is forgotten. */
  lemma InsertedIs(c: Cache, key: Key, n: nat, most: nat, all: set<Key>)
    requires most > 0 && c.lengths.Keys <= all && |all| < most && key in all
    ensures Inserted(c, key, n, most).lengths == c.lengths[key := n]
    ensures Inserted(c, key, n, most).lengths.Keys <= all
  {
    hide Evicted;
    NothingForgotten(c, most, all);
  }

  lemma ReadAheadNext(c: Cache, g: nat, start: nat, size: nat, actual: nat, most: nat, n: nat)
    requires most > 0 && n > 0
    ensures var (before, offset) := (ReadAhead(c, g, start, size, actual, most, n - 1), Later(start, n - 1, size));
      ReadAhead(c, g, start, size, actual, most, n)
        == if offset >= actual || (g, offset) in before.lengths then before
           else Inserted(before, (g, offset), Clip(actual - offset, size), most)
  {
    hide Inserted;
  }

  /** Reading ahead, when nothing is forgotten and nothing was there. */
  lemma {:induction false} ReadAheadAdds(c: Cache, g: nat, start: nat, size: nat, actual: nat, most: nat, n: nat,
                                         all: set<Key>)
    requires most > 0 && size > 0 && c.lengths.Keys <= all && |all| < most
    requires forall j :: 0 <= j < n && Later(start, j, size) < actual ==> (g, Later(start, j, size)) in all
    requires forall j :: 0 <= j < n ==> (g, Later(start, j, size)) !in c.lengths
    ensures ReadAheadFrom(c, ReadAhead(c, g, start, size, actual, most, n), g, start, size, actual, n)
    ensures ReadAhead(c, g, start, size, actual, most, n).lengths.Keys <= all
  {
    hide ReadAheadFrom, Later, ReadAhead, Inserted;
    if n == 0 {
      NoneAhead(c, g, start, size, actual, most);
      ReadNothingAhead(c, g, start, size, actual);
    } else {
      var (before, offset) := (ReadAhead(c, g, start, size, actual, most, n - 1), Later(start, n - 1, size));
      ReadAheadAdds(c, g, start, size, actual, most, n - 1, all);
      ReadAheadNext(c, g, start, size, actual, most, n);
      if offset < actual {
        InsertedIs(before, (g, offset), Clip(actual - offset, size), most, all);
      }
      NotYetAhead(c, before, g, start, size, actual, n);
      OneMoreAhead(c, before, ReadAhead(c, g, start, size, actual, most, n), g, start, size, actual, n);
    }
  }

  lemma NoneAhead(c: Cache, g: nat, start: nat, size: nat, actual: nat, most: nat)
    requires most > 0
    ensures ReadAhead(c, g, start, size, actual, most, 0) == c
  {}

  lemma LaterIs(start: nat, j: nat, size: nat)
    ensures j * size >= 0 && Later(start, j, size) == start + j * size
  {
    NonnegativeOffset(j, size);
  }

  lemma NotYetAhead(c: Cache, before: Cache, g: nat, start: nat, size: nat, actual: nat, n: nat)
    requires n > 0 && size > 0 && ReadAheadFrom(c, before, g, start, size, actual, n - 1)
    requires (g, Later(start, n - 1, size)) !in c.lengths
    ensures (g, Later(start, n - 1, size)) !in before.lengths
  {
    hide Later;
    var key := (g, Later(start, n - 1, size));
    if key in before.lengths {
      var j :| 0 <= j < n - 1 && Later(start, j, size) < actual && key == (g, Later(start, j, size));
      LaterOrdered(start, j, n - 1, size);
    }
  }

  /** The offset of the chunk `j` steps after `start`. */
  function Later(start: nat, j: nat, size: nat): nat {
    NonnegativeOffset(j, size);
    start + j * size
  }

  lemma LaterOrdered(start: nat, i: nat, j: nat, size: nat)
    requires i < j && size > 0
    ensures Later(start, i, size) < Later(start, j, size)
  {
    FactorsOrdered(i + 1, j, size);
    assert (i + 1) * size == i * size + size;
  }

  ghost predicate AheadKey(k: Key, g: nat, start: nat, size: nat, actual: nat, n: nat) {
    exists j :: 0 <= j < n && Later(start, j, size) < actual && k == (g, Later(start, j, size))
  }

  // ----- one read

  lemma BelowCount(p: Plan, m: nat)
    requires p.chunk > 0 && 0 <= m * p.chunk < p.size
    ensures m < p.Count()
  {
    var n := p.Count();
    LastChunk(p.chunk, p.size, n);
    assert p.size + p.chunk - 1 == p.chunk * n + (p.size + p.chunk - 1) % p.chunk;
    assert p.chunk * n == n * p.chunk;
    if n <= m {
      FactorsOrdered(n, m, p.chunk);
    }
  }

  /** What is read ahead after chunk `k` are the chunks that follow. */
  lemma AheadIsNext(p: Plan, k: nat, j: nat)
    requires p.Valid() && k < p.Count()
    ensures k + 1 + j < p.Count() ==>
      p.Length(k) == p.chunk && Later(p.Start(k) + p.Length(k), j, p.Length(k)) == p.Start(k + 1 + j)
    ensures Later(p.Start(k) + p.Length(k), j, p.Length(k)) < p.size ==> k + 1 + j < p.Count()
  {
    hide ChunkEnd, ChunkCount;
    ChunkStarts(p, k);
    LaterIs(p.Start(k) + p.Length(k), j, p.Length(k));
    assert (k + 1 + j) * p.chunk == k * p.chunk + p.chunk + j * p.chunk;
    NonnegativeOffset(k + 1 + j, p.chunk);
    if p.Length(k) == p.chunk && (k + 1 + j) * p.chunk < p.size {
      BelowCount(p, k + 1 + j);
    }
    if k + 1 + j < p.Count() {
      ChunkStarts(p, k + 1 + j);
      StartsOrdered(p, k, k + 1 + j);
    }
  }

  /** Cached chunks of a slice are chunks with data. */
  lemma CachedIsChunk(p: Plan, c: Cache, g: nat, offset: nat) returns (m: nat)
    requires p.Valid() && c.lengths.Keys <= DataKeys(p) && (g, offset) in c.lengths
    ensures g in p.lengths && m < p.Count() && offset == p.Start(m) < p.lengths[g]
  {
    assert (g, offset) in DataKeys(p);
    m :| 0 <= m < p.Count() && p.Start(m) < p.lengths[g] && (g, offset) == (g, p.Start(m));
  }

  /** The cache holds the same of all other slices. */
  ghost predicate SameElsewhere(c: Cache, r: Cache, g: nat) {
    && (forall k :: k in c.lengths && k.0 != g ==> k in r.lengths && r.lengths[k] == c.lengths[k])
    && (forall k :: k in r.lengths && k.0 != g ==> k in c.lengths)
  }

  lemma OtherSliceKept(p: Plan, c: Cache, r: Cache, g: nat, j: nat, n: nat)
    requires p.Valid() && j < |p.keys| && p.keys[j] != g && SameElsewhere(c, r, g) && SliceCached(p, c, j, n)
    ensures SliceCached(p, r, j, n)
  {
    hide ChunkEnd, ChunkCount, Upto, CachedLength;
    forall m | 0 <= m < p.Count()
      ensures ChunkCached(p, r, j, n, m)
    {
      assert ChunkCached(p, c, j, n, m);
    }
  }

  lemma OthersKept(p: Plan, c: Cache, r: Cache, k: nat, i: nat)
    requires FitsPlan(p, k, i) && OnSchedule(p, c, k, i) && SameElsewhere(c, r, p.keys[i])
    requires r.lengths.Keys <= DataKeys(p) && (p.keys[i] < p.total ==> SliceCached(p, r, i, k + 1))
    ensures OnSchedule(p, r, k, i + 1)
  {
    hide ChunkEnd, ChunkCount, SliceCached, DataKeys, SameElsewhere;
    forall j | 0 <= j < |p.keys| && p.keys[j] < p.total
      ensures SliceCached(p, r, j, if j < i + 1 then k + 1 else k)
    {
      if j != i {
        assert p.keys[j] != p.keys[i];
        assert SliceCached(p, c, j, if j < i then k + 1 else k);
        OtherSliceKept(p, c, r, p.keys[i], j, if j < i then k + 1 else k);
      }
    }
  }

  /** The schedule of a slice after one more chunk, when nothing that has data changes its place in it. */
  lemma NextOnSchedule(p: Plan, c: Cache, i: nat, n: nat, n': nat)
    requires p.Valid() && i < |p.keys| && SliceCached(p, c, i, n)
    requires forall m :: 0 <= m < p.Count() && p.Start(m) < p.lengths[p.keys[i]] ==>
      (m < Upto(p, n) <==> m < Upto(p, n'))
    ensures SliceCached(p, c, i, n')
  {
    hide ChunkEnd, ChunkCount, Upto, CachedLength;
    forall m | 0 <= m < p.Count()
      ensures ChunkCached(p, c, i, n', m)
    {
      assert ChunkCached(p, c, i, n, m);
    }
  }

  ghost predicate FitsPlan(p: Plan, k: nat, i: nat) {
    p.Valid() && FitsInCache(p) && k < p.Count() && i < |p.keys|
  }

  lemma SliceOnSchedule(p: Plan, c: Cache, k: nat, i: nat)
    requires FitsPlan(p, k, i) && OnSchedule(p, c, k, i) && p.keys[i] < p.total
    ensures SliceCached(p, c, i, k) && c.lengths.Keys <= DataKeys(p)
  {
    hide SliceCached, DataKeys, ChunkCount;
    assert p.keys[i] < p.total;
  }

  /** A chunk behind the data changes nothing. */
  lemma BehindData(p: Plan, c: Cache, k: nat, i: nat)
    requires FitsPlan(p, k, i) && OnSchedule(p, c, k, i) && p.keys[i] < p.total && p.lengths[p.keys[i]] <= p.Start(k)
    ensures AfterReading(p, c, k, i) == (c, p.Length(k)) && SliceCached(p, c, i, k + 1)
  {
    hide ChunkEnd, ChunkCount, DataKeys, Stride, Upto, SliceCached, OnSchedule, Inserted, ReadAhead;
    var g := p.keys[i];
    ChunkStarts(p, k);
    UptoNext(p, k);
    SliceOnSchedule(p, c, k, i);
    if (g, p.Start(k)) in c.lengths {
      var m := CachedIsChunk(p, c, g, p.Start(k));
    }
    forall m | 0 <= m < p.Count() && p.Start(m) < p.lengths[g]
      ensures m < k
    {
      if k < m {
        StartsOrdered(p, k, m);
      }
    }
    NextOnSchedule(p, c, i, k, k + 1);
  }

  /** A chunk that was read ahead is there. */
  lemma WasReadAhead(p: Plan, c: Cache, k: nat, i: nat)
    requires FitsPlan(p, k, i) && OnSchedule(p, c, k, i) && p.keys[i] < p.total && p.Start(k) < p.lengths[p.keys[i]]
    requires k % Stride(p) != 0
    ensures AfterReading(p, c, k, i).1 == CachedLength(p, p.lengths[p.keys[i]], k)
    ensures AfterReading(p, c, k, i).0.lengths == c.lengths && SliceCached(p, c, i, k + 1)
  {
    hide ChunkEnd, ChunkCount, DataKeys, Stride, CachedLength, Upto, OnSchedule, Inserted, ReadAhead, FitsInCache;
    ChunkStarts(p, k);
    UptoNext(p, k);
    SliceOnSchedule(p, c, k, i);
    assert ChunkCached(p, c, i, k, k);
    NextOnSchedule(p, c, i, k, k + 1);
  }

  /** A chunk that was not read ahead is read with padding, and the next ones ahead. */
  lemma IsReadNow(p: Plan, c: Cache, k: nat, i: nat)
    requires FitsPlan(p, k, i) && OnSchedule(p, c, k, i) && p.keys[i] < p.total && p.Start(k) < p.lengths[p.keys[i]]
    requires k % Stride(p) == 0
    ensures var (r, n) := AfterReading(p, c, k, i);
      && n == p.Length(k) && r.lengths.Keys <= DataKeys(p)
      && (p.keys[i], p.Start(k)) !in c.lengths
      && ReadAheadFrom(Cache(c.lengths[(p.keys[i], p.Start(k)) := n], c.times, c.counter), r, p.keys[i],
                       p.Start(k) + n, n, p.lengths[p.keys[i]], Ahead(n))
  {
    hide ChunkEnd, ChunkCount, ReadAhead, MaxCached, ReadAheadFrom, AfterReading, OnSchedule, Inserted, Later, DataKeys;
    InData(p, k, i);
    var (g, start, n) := (p.keys[i], p.Start(k), p.Length(k));
    var (actual, most, all) := (p.lengths[g], MaxCached(p.size), DataKeys(p));
    ChunkStarts(p, k);
    NothingAheadYet(p, c, k, i, start);
    var c' := Inserted(c, (g, start), n, most);
    KeysHaveData(p, c, k, i);
    assert (g, start) in all;
    InsertedIs(c, (g, start), n, most, all);
    NothingForgotten(c', most, all);
    MissIs(p, c, k, i);
    var next := start + n;
    forall j | 0 <= j < Ahead(n)
      ensures (g, Later(next, j, n)) !in c'.lengths
      ensures Later(next, j, n) < actual ==> (g, Later(next, j, n)) in all
    {
      AheadIsNext(p, k, j);
      LaterIs(next, j, n);
      NothingAheadYet(p, c, k, i, Later(next, j, n));
    }
    ReadAheadAdds(c', g, next, n, actual, most, Ahead(n), all);
    SameAhead(c', Cache(c.lengths[(g, start) := n], c.times, c.counter),
              ReadAhead(c', g, next, n, actual, most, Ahead(n)), g, next, n, actual, Ahead(n));
  }

  /** A chunk with data that is not cached is read and cached, and the next ones are read ahead. */
  lemma MissIs(p: Plan, c: Cache, k: nat, i: nat)
    requires FitsPlan(p, k, i) && p.keys[i] < p.total && p.Start(k) < p.lengths[p.keys[i]]
    requires (p.keys[i], p.Start(k)) !in c.lengths
    requires |Inserted(c, (p.keys[i], p.Start(k)), p.Length(k), MaxCached(p.size)).lengths| < MaxCached(p.size) * 9 / 10
    ensures var (g, start, n, most) := (p.keys[i], p.Start(k), p.Length(k), MaxCached(p.size));
      AfterReading(p, c, k, i)
        == (ReadAhead(Inserted(c, (g, start), n, most), g, start + n, n, p.lengths[g], most, Ahead(n)), n)
  {
    hide ChunkEnd, ChunkCount, ReadAhead, MaxCached, Inserted, FitsInCache;
    ChunkStarts(p, k);
  }

  lemma InData(p: Plan, k: nat, i: nat)
    requires FitsPlan(p, k, i) && p.Start(k) < p.lengths[p.keys[i]]
    ensures (p.keys[i], p.Start(k)) in DataKeys(p)
    ensures forall m :: k < m < p.Count() && p.Start(m) < p.lengths[p.keys[i]] ==>
      (p.keys[i], p.Start(m)) in DataKeys(p)
    ensures |DataKeys(p)| < MaxCached(p.size) * 9 / 10
  {
    hide ChunkEnd, ChunkCount, MaxCached;
  }

  lemma SameAhead(c: Cache, c': Cache, r: Cache, g: nat, start: nat, size: nat, actual: nat, n: nat)
    requires c.lengths == c'.lengths && ReadAheadFrom(c, r, g, start, size, actual, n)
    ensures ReadAheadFrom(c', r, g, start, size, actual, n)
  {
    hide AheadKey, Later;
  }

  lemma NothingAheadYet(p: Plan, c: Cache, k: nat, i: nat, offset: nat)
    requires FitsPlan(p, k, i) && OnSchedule(p, c, k, i) && p.keys[i] < p.total && k % Stride(p) == 0
    requires offset >= p.Start(k)
    ensures (p.keys[i], offset) !in c.lengths
  {
    hide ChunkEnd, ChunkCount, DataKeys, Stride, CachedLength, Upto, OnSchedule;
    UptoNext(p, k);
    SliceOnSchedule(p, c, k, i);
    if (p.keys[i], offset) in c.lengths {
      var m := CachedIsChunk(p, c, p.keys[i], offset);
      assert ChunkCached(p, c, i, k, m);
      StartsOrdered(p, m, k);
    }
  }

  /** Then the next chunks are cached as the schedule says. */
  lemma NowCached(p: Plan, c: Cache, r: Cache, k: nat, i: nat)
    requires FitsPlan(p, k, i) && SliceCached(p, c, i, k) && p.Start(k) < p.lengths[p.keys[i]] && k % Stride(p) == 0
    requires (p.keys[i], p.Start(k)) !in c.lengths
    requires ReadAheadFrom(Cache(c.lengths[(p.keys[i], p.Start(k)) := p.Length(k)], c.times, c.counter), r, p.keys[i],
                           p.Start(k) + p.Length(k), p.Length(k), p.lengths[p.keys[i]], Ahead(p.Length(k)))
    ensures SliceCached(p, r, i, k + 1)
  {
    hide ChunkEnd, ChunkCount, FitsInCache, Upto;
    UptoNext(p, k);
    var n := k + 1;
    forall m | 0 <= m < p.Count()
      ensures ChunkCached(p, r, i, n, m)
    {
      if m < k {
        EarlierCached(p, c, r, k, i, m);
      } else if m == k {
        assert (p.keys[i], p.Start(k)) in r.lengths;
      } else {
        LaterCached(p, c, r, k, i, m);
      }
    }
  }

  lemma EarlierCached(p: Plan, c: Cache, r: Cache, k: nat, i: nat, m: nat)
    requires FitsPlan(p, k, i) && SliceCached(p, c, i, k) && m < k && k % Stride(p) == 0
    requires ReadAheadFrom(Cache(c.lengths[(p.keys[i], p.Start(k)) := p.Length(k)], c.times, c.counter), r, p.keys[i],
                           p.Start(k) + p.Length(k), p.Length(k), p.lengths[p.keys[i]], Ahead(p.Length(k)))
    ensures ChunkCached(p, r, i, k + 1, m)
  {
    hide ChunkEnd, ChunkCount, FitsInCache, Upto, CachedLength, Stride;
    UptoNext(p, k);
    StartsOrdered(p, m, k);
    assert ChunkCached(p, c, i, k, m);
    AheadIsBehind(p, p.keys[i], k, p.Start(m), p.lengths[p.keys[i]], Ahead(p.Length(k)));
  }

  /** What is read ahead after a chunk starts behind it. */
  lemma AheadIsBehind(p: Plan, g: nat, k: nat, offset: nat, actual: nat, n: nat)
    requires p.Valid() && k < p.Count() && offset <= p.Start(k)
    ensures !AheadKey((g, offset), g, p.Start(k) + p.Length(k), p.Length(k), actual, n)
  {
    hide ChunkEnd, ChunkCount, Later;
    ChunkStarts(p, k);
    var (start, size) := (p.Start(k) + p.Length(k), p.Length(k));
    forall j: nat | j < n
      ensures Later(start, j, size) > offset
    {
      LaterIs(start, j, size);
    }
  }

  /** The chunks read ahead after chunk `k` are the next ones that have data. */
  lemma AheadExactly(p: Plan, g: nat, k: nat, m: nat, actual: nat)
    requires p.Valid() && k < m < p.Count() && actual <= p.size
    ensures AheadKey((g, p.Start(m)), g, p.Start(k) + p.Length(k), p.Length(k), actual, Ahead(p.Length(k)))
      <==> m < k + Stride(p) && p.Start(m) < actual
    ensures Later(p.Start(k) + p.Length(k), m - k - 1, p.Length(k)) == p.Start(m) && p.Length(k) == p.chunk
  {
    hide ChunkEnd, ChunkCount, Later;
    var (start, size) := (p.Start(k) + p.Length(k), p.Length(k));
    AheadIsNext(p, k, m - k - 1);
    if AheadKey((g, p.Start(m)), g, start, size, actual, Ahead(size)) {
      var j :| 0 <= j < Ahead(size) && Later(start, j, size) < actual && (g, p.Start(m)) == (g, Later(start, j, size));
      AheadIsNext(p, k, j);
      if k + 1 + j < m {
        StartsOrdered(p, k + 1 + j, m);
      } else if m < k + 1 + j {
        StartsOrdered(p, m, k + 1 + j);
      }
    }
    if m < k + Stride(p) && p.Start(m) < actual {
      var j := m - k - 1;
      assert 0 <= j < Ahead(size) && Later(start, j, size) == p.Start(m);
    }
  }

  lemma LaterCached(p: Plan, c: Cache, r: Cache, k: nat, i: nat, m: nat)
    requires FitsPlan(p, k, i) && SliceCached(p, c, i, k) && k < m < p.Count() && k % Stride(p) == 0
    requires ReadAheadFrom(Cache(c.lengths[(p.keys[i], p.Start(k)) := p.Length(k)], c.times, c.counter), r, p.keys[i],
                           p.Start(k) + p.Length(k), p.Length(k), p.lengths[p.keys[i]], Ahead(p.Length(k)))
    ensures ChunkCached(p, r, i, k + 1, m)
  {
    hide ChunkEnd, ChunkCount, FitsInCache, Upto, Stride, AheadKey, Later, CachedLength;
    var (g, actual) := (p.keys[i], p.lengths[p.keys[i]]);
    UptoNext(p, k);
    StartsOrdered(p, k, m);
    AheadExactly(p, g, k, m, actual);
    assert ChunkCached(p, c, i, k, m);
    if m < k + Stride(p) && p.Start(m) < actual {
      BareLength(p, actual, k, m);
      assert 0 <= m - k - 1 < Ahead(p.Length(k)) by { StrideIs(p); }
    }
  }

  lemma StrideIs(p: Plan)
    ensures Stride(p) == Ahead(p.chunk) + 1
  {}

  lemma BareLength(p: Plan, actual: nat, k: nat, m: nat)
    requires p.Valid() && k < m < p.Count() && m < k + Stride(p) && k % Stride(p) == 0 && p.Start(m) < actual <= p.size
    ensures CachedLength(p, actual, m) == Clip(actual - p.Start(m), p.chunk)
  {
    hide ChunkEnd, ChunkCount, Stride;
    BetweenMultiples(k, m, Stride(p));
    ChunkStarts(p, m);
  }

  lemma BetweenMultiples(k: nat, m: nat, d: nat)
    requires d > 0 && k % d == 0 && k < m < k + d
    ensures m % d != 0
  {
    var q := k / d;
    DivisionParts(k, d);
    assert m == q * d + (m - k);
    DivideBy(q, m - k, d);
  }

  lemma OnlyAhead(c: Cache, r: Cache, g: nat, start: nat, n: nat, next: nat, size: nat, actual: nat, count: nat)
    requires (g, start) !in c.lengths
    requires ReadAheadFrom(Cache(c.lengths[(g, start) := n], c.times, c.counter), r, g, next, size, actual, count)
    ensures SameElsewhere(c, r, g)
  {
    hide Later;
  }

  /** The number of bytes that arrive of slice `i` in chunk `k`, when all data fits in the cache. */
  function Scheduled(p: Plan, k: nat, i: nat): nat
    requires i < |p.keys| && p.keys[i] in p.lengths
  {
    var (g, actual) := (p.keys[i], p.lengths[p.keys[i]]);
    if g >= p.total || actual <= p.Start(k) then p.Length(k) else CachedLength(p, actual, k)
  }

  /** One read keeps to the schedule. */
  lemma ReadOnSchedule(p: Plan, c: Cache, k: nat, i: nat)
    requires FitsPlan(p, k, i) && OnSchedule(p, c, k, i)
    ensures OnSchedule(p, AfterReading(p, c, k, i).0, k, i + 1)
    ensures AfterReading(p, c, k, i).1 == Scheduled(p, k, i)
  {
    hide ChunkEnd, ChunkCount, OnSchedule, SliceCached, ReadAheadFrom, DataKeys, AfterRead, FitsInCache;
    var (r, g) := (AfterReading(p, c, k, i).0, p.keys[i]);
    KeysHaveData(p, c, k, i);
    if g >= p.total {
      SameCache(c, r, g);
    } else if p.lengths[g] <= p.Start(k) {
      BehindData(p, c, k, i);
      SameCache(c, r, g);
    } else if k % Stride(p) != 0 {
      WasReadAhead(p, c, k, i);
      SameCache(c, r, g);
      SameSlice(p, c, r, i, k + 1);
    } else {
      IsReadNow(p, c, k, i);
      OnlyAhead(c, r, g, p.Start(k), p.Length(k), p.Start(k) + p.Length(k), p.Length(k), p.lengths[g],
                Ahead(p.Length(k)));
      SliceOnSchedule(p, c, k, i);
      NowCached(p, c, r, k, i);
    }
    OthersKept(p, c, r, k, i);
  }

  lemma KeysHaveData(p: Plan, c: Cache, k: nat, i: nat)
    requires p.Valid() && OnSchedule(p, c, k, i)
    ensures c.lengths.Keys <= DataKeys(p)
  {}

  lemma SameCache(c: Cache, r: Cache, g: nat)
    requires r.lengths == c.lengths
    ensures SameElsewhere(c, r, g)
  {}

  lemma SameSlice(p: Plan, c: Cache, r: Cache, j: nat, n: nat)
    requires p.Valid() && j < |p.keys| && r.lengths == c.lengths && SliceCached(p, c, j, n)
    ensures SliceCached(p, r, j, n)
  {
    hide ChunkEnd, ChunkCount, Upto, CachedLength;
    forall m | 0 <= m < p.Count()
      ensures ChunkCached(p, r, j, n, m)
    {
      assert ChunkCached(p, c, j, n, m);
    }
  }

  lemma {:induction false} RunOnSchedule(p: Plan, k: nat, i: nat)
    requires p.Valid() && FitsInCache(p) && i <= |p.keys| && (i > 0 ==> k < p.Count()) && k <= p.Count()
    ensures OnSchedule(p, CacheAt(p, k, i), k, i)
    decreases k, i
  {
    hide AfterReading, OnSchedule, FitsInCache;
    if i > 0 {
      RunOnSchedule(p, k, i - 1);
      ReadOnSchedule(p, CacheAt(p, k, i - 1), k, i - 1);
    } else if k > 0 {
      RunOnSchedule(p, k - 1, |p.keys|);
      NextChunkOnSchedule(p, CacheAt(p, k, 0), k - 1);
    } else {
      EmptyOnSchedule(p);
    }
  }

  lemma NextChunkOnSchedule(p: Plan, c: Cache, k: nat)
    requires p.Valid() && OnSchedule(p, c, k, |p.keys|)
    ensures OnSchedule(p, c, k + 1, 0)
  {
    hide SliceCached, DataKeys, ChunkCount;
  }

  lemma EmptyOnSchedule(p: Plan)
    requires p.Valid()
    ensures OnSchedule(p, Cache(map[], map[], 0), 0, 0)
  {
    hide DataKeys, ChunkCount, ChunkEnd, CachedLength;
    forall j | 0 <= j < |p.keys| && p.keys[j] < p.total
      ensures SliceCached(p, Cache(map[], map[], 0), j, 0)
    {}
  }

  /**
   * When all data fits in the cache, a slice arrives cut within a word in the chunk in which its data ends on an odd
   * byte, unless that is one of the chunks that are padded: every second for chunks of a mebibyte and more, every
   * fifth for smaller ones.
   */
  lemma CutsWordExactly(p: Plan, k: nat, i: nat)
    requires p.Valid() && FitsInCache(p) && k < p.Count() && i < |p.keys|
    ensures CutsWord(p, k, i) <==>
      && p.keys[i] < p.total && k % (if p.chunk < 0x10_0000 then 5 else 2) != 0
      && p.Start(k) < p.lengths[p.keys[i]] < p.Start(k) + p.Length(k)
      && (p.lengths[p.keys[i]] - p.Start(k)) % 2 == 1
  {
    hide ChunkEnd, ChunkCount, OnSchedule, AfterReading, FitsInCache, Stride;
    RunOnSchedule(p, k, i);
    ReadOnSchedule(p, CacheAt(p, k, i), k, i);
  }
}
