/** Which chunks of the present slices arrive unpadded when all slices are read chunk by chunk through the provider. */
module ServedChunks {
  import opened Divisors
  import opened SourceBlocks
  import opened Chunks
  import opened SliceProvider

  /**
   * How repair reads: for every chunk, the slices in key order that belong to the recovery set. `lengths` are the
   * numbers of bytes the files hold of each slice.
   */
  datatype Plan = Plan(size: nat, chunk: nat, total: nat, keys: seq<nat>, lengths: map<nat, nat>) {
    ghost predicate Valid() {
      && chunk > 0
      && (forall i :: 0 <= i < |keys| ==> keys[i] in lengths)
      && (forall g :: g in lengths ==> lengths[g] <= size)
    }

    function Count(): nat
      requires chunk > 0
    {
      ChunkCount(size, chunk)
    }

    function Start(k: nat): (p: nat)
      ensures p <= size
    {
      ChunkEnd(k, chunk, size)
    }

    /** The length of chunk `k`. */
    function Length(k: nat): (n: nat)
      ensures Start(k) + n <= size
    {
      ChunkEndStep(k, chunk, size);
      Start(k + 1) - Start(k)
    }
  }

  lemma ChunkStarts(p: Plan, k: nat)
    requires p.chunk > 0 && k < p.Count()
    ensures p.Start(k) == k * p.chunk < p.size && p.Length(k) == Clip(p.chunk, p.size - p.Start(k)) && p.Length(k) > 0
  {
    var count := p.Count();
    LastChunk(p.chunk, p.size, count);
    ChunkEndStep(k, p.chunk, p.size);
    if k * p.chunk >= p.size {
      QuotientAbove(p.size, p.chunk, k);
    }
  }

  lemma QuotientAbove(size: nat, chunk: nat, k: nat)
    requires chunk > 0 && k * chunk >= size
    ensures ChunkCount(size, chunk) <= k
  {
    var n := ChunkCount(size, chunk);
    assert size + chunk - 1 == chunk * n + (size + chunk - 1) % chunk;
    assert chunk * (k + 1) == k * chunk + chunk;
    if n > k {
      MulMonotone(chunk, k + 1, n);
    }
  }

  // ----- the state of the cache throughout the run

  ghost function AfterReading(p: Plan, c: Cache, k: nat, i: nat): (Cache, nat)
    requires p.Valid() && k < p.Count() && i < |p.keys|
  {
    ChunkStarts(p, k);
    if p.keys[i] < p.total then AfterRead(c, p.keys[i], p.Start(k), p.Length(k), p.lengths[p.keys[i]], p.size)
    else (c, p.Length(k))
  }

  /** The cache before slice `i` is read in chunk `k`. */
  ghost function CacheAt(p: Plan, k: nat, i: nat): Cache
    requires p.Valid() && i <= |p.keys| && (i > 0 ==> k < p.Count()) && k <= p.Count()
    decreases k, i
  {
    if i > 0 then AfterReading(p, CacheAt(p, k, i - 1), k, i - 1).0
    else if k > 0 then CacheAt(p, k - 1, |p.keys|)
    else Cache(map[], map[], 0)
  }

  /** The number of bytes that arrive of slice `i` in chunk `k`. */
  ghost function Served(p: Plan, k: nat, i: nat): nat
    requires p.Valid() && k < p.Count() && i < |p.keys|
  {
    AfterReading(p, CacheAt(p, k, i), k, i).1
  }

  // ----- what lengths there can be

  /** A cached chunk is full, or ends with the data of the slice and has been read ahead. */
  ghost predicate SoundLength(p: Plan, actual: nat, offset: nat, n: nat) {
    && offset < actual <= p.size
    && (n == Clip(p.chunk, p.size - offset)
        || (0 < offset && n == actual - offset < Clip(p.chunk, p.size - offset)))
  }

  ghost predicate SoundLengths(p: Plan, c: Cache) {
    forall key :: key in c.lengths ==> key.0 in p.lengths && SoundLength(p, p.lengths[key.0], key.1, c.lengths[key])
  }

  lemma InsertedSound(p: Plan, c: Cache, key: Key, n: nat, most: nat)
    requires SoundLengths(p, c) && most > 0 && key.0 in p.lengths && SoundLength(p, p.lengths[key.0], key.1, n)
    ensures SoundLengths(p, Inserted(c, key, n, most))
  {
    hide SoundLength;
  }

  lemma AheadSound(p: Plan, actual: nat, offset: nat, size: nat)
    requires 0 < offset < actual <= p.size && (size == p.chunk || (size < p.chunk && offset >= p.size))
    ensures SoundLength(p, actual, offset, Clip(actual - offset, size))
  {}

  lemma {:induction false} ReadAheadSound(p: Plan, c: Cache, g: nat, start: nat, size: nat, most: nat, n: nat)
    requires p.Valid() && SoundLengths(p, c) && most > 0 && g in p.lengths && start > 0
    requires size == p.chunk || (size < p.chunk && start >= p.size)
    ensures SoundLengths(p, ReadAhead(c, g, start, size, p.lengths[g], most, n))
  {
    hide Inserted, SoundLengths, SoundLength;
    if n > 0 {
      ReadAheadSound(p, c, g, start, size, most, n - 1);
      NonnegativeOffset(n - 1, size);
      var offset := start + (n - 1) * size;
      if offset < p.lengths[g] {
        AheadSound(p, p.lengths[g], offset, size);
        InsertedSound(p, ReadAhead(c, g, start, size, p.lengths[g], most, n - 1), (g, offset),
                      Clip(p.lengths[g] - offset, size), most);
      }
    }
  }

  /** The whole chunk, or what was read ahead of a chunk in which the data ends. */
  ghost predicate Arrives(p: Plan, k: nat, i: nat, n: nat)
    requires p.Valid() && i < |p.keys|
  {
    n == p.Length(k) || (0 < k && p.keys[i] < p.total && p.Start(k) + n == p.lengths[p.keys[i]] && 0 < n < p.Length(k))
  }

  lemma ReadSound(p: Plan, c: Cache, k: nat, i: nat)
    requires p.Valid() && SoundLengths(p, c) && k < p.Count() && i < |p.keys|
    ensures SoundLengths(p, AfterReading(p, c, k, i).0) && Arrives(p, k, i, AfterReading(p, c, k, i).1)
  {
    hide Inserted, ReadAhead, MaxCached, ChunkEnd, ChunkCount, SoundLengths, SoundLength;
    ChunkStarts(p, k);
    FullIsSound(p, k, i);
    if p.keys[i] < p.total {
      var (g, offset, size) := (p.keys[i], p.Start(k), p.Length(k));
      var actual := p.lengths[g];
      if (g, offset) in c.lengths {
        CachedArrives(p, c, k, i);
      } else if offset < actual {
        var c' := Inserted(c, (g, offset), size, MaxCached(p.size));
        InsertedSound(p, c, (g, offset), size, MaxCached(p.size));
        ReadAheadSound(p, c', g, offset + size, size, MaxCached(p.size), Ahead(size));
      }
    }
  }

  lemma FullIsSound(p: Plan, k: nat, i: nat)
    requires p.Valid() && k < p.Count() && i < |p.keys|
    ensures p.Start(k) < p.lengths[p.keys[i]] ==> SoundLength(p, p.lengths[p.keys[i]], p.Start(k), p.Length(k))
  {
    hide ChunkEnd, ChunkCount;
    ChunkStarts(p, k);
  }

  lemma CachedArrives(p: Plan, c: Cache, k: nat, i: nat)
    requires p.Valid() && SoundLengths(p, c) && k < p.Count() && i < |p.keys| && p.keys[i] < p.total
    requires (p.keys[i], p.Start(k)) in c.lengths
    ensures Arrives(p, k, i, c.lengths[(p.keys[i], p.Start(k))])
    ensures SoundLengths(p, Cache(c.lengths, c.times[(p.keys[i], p.Start(k)) := c.counter + 1], c.counter + 1))
  {
    hide ChunkEnd, ChunkCount;
    ChunkStarts(p, k);
    StartOfFirst(p, k);
    var key := (p.keys[i], p.Start(k));
    assert SoundLength(p, p.lengths[key.0], key.1, c.lengths[key]);
  }

  lemma StartOfFirst(p: Plan, k: nat)
    requires p.chunk > 0 && k < p.Count()
    ensures p.Start(k) > 0 ==> k > 0
  {
    ChunkStarts(p, k);
    assert 0 * p.chunk == 0;
  }

  lemma {:induction false} CacheSound(p: Plan, k: nat, i: nat)
    requires p.Valid() && i <= |p.keys| && (i > 0 ==> k < p.Count()) && k <= p.Count()
    ensures SoundLengths(p, CacheAt(p, k, i))
    decreases k, i
  {
    hide AfterReading, SoundLengths;
    if i > 0 {
      CacheSound(p, k, i - 1);
      ReadSound(p, CacheAt(p, k, i - 1), k, i - 1);
    } else if k > 0 {
      CacheSound(p, k - 1, |p.keys|);
    } else {
      NothingCached(p);
    }
  }

  /** Throughout the run the cache stays within its bounds. */
  lemma {:induction false} CacheBounded(p: Plan, k: nat, i: nat)
    requires p.Valid() && i <= |p.keys| && (i > 0 ==> k < p.Count()) && k <= p.Count()
    ensures |CacheAt(p, k, i).lengths| <= if p.size < 0x10_0000 then 1000 else 32
    ensures Bounded(CacheAt(p, k, i), if p.size < 0x10_0000 then 1000 else 32)
    decreases k, i
  {
    hide AfterRead, ChunkEnd, ChunkCount;
    if i > 0 {
      CacheBounded(p, k, i - 1);
      ChunkStarts(p, k);
      var g := p.keys[i - 1];
      AfterReadBounded(CacheAt(p, k, i - 1), g, p.Start(k), p.Length(k), p.lengths[g], p.size);
    } else if k > 0 {
      CacheBounded(p, k - 1, |p.keys|);
    }
  }

  lemma NothingCached(p: Plan)
    ensures SoundLengths(p, Cache(map[], map[], 0))
  {}

  /** Every chunk arrives in full, or is the unpadded end of its slice. */
  lemma ServedArrives(p: Plan, k: nat, i: nat)
    requires p.Valid() && k < p.Count() && i < |p.keys|
    ensures Arrives(p, k, i, Served(p, k, i)) && Served(p, k, i) <= p.Length(k)
  {
    hide AfterReading, SoundLengths;
    CacheSound(p, k, i);
    ReadSound(p, CacheAt(p, k, i), k, i);
  }

  /** Slice `i` arrives in chunk `k` unpadded and ends within a word. */
  ghost predicate CutsWord(p: Plan, k: nat, i: nat)
    requires p.Valid() && k < p.Count() && i < |p.keys|
  {
    Served(p, k, i) < p.Length(k) && Served(p, k, i) % 2 == 1
  }

  /** No slice has an odd number of bytes above one chunk: known before anything is read. */
  predicate SafeLengths(p: Plan) {
    p.size <= p.chunk || forall g :: g in p.lengths ==> p.lengths[g] <= p.chunk || p.lengths[g] % 2 == 0
  }

  lemma SafeLengthsCutNothing(p: Plan, k: nat, i: nat)
    requires p.Valid() && KeepsWords(p.chunk, p.size) && SafeLengths(p) && k < p.Count() && i < |p.keys|
    ensures !CutsWord(p, k, i)
  {
    hide Served, ChunkEnd, ChunkCount;
    ServedArrives(p, k, i);
    ChunkStarts(p, k);
    if k > 0 {
      FactorsOrdered(1, k, p.chunk);
      EvenMultiple(k, if p.chunk % 2 == 0 then p.chunk else 0);
      OddEnd(p.Start(k), Served(p, k, i));
    }
  }

  lemma OddEnd(start: nat, n: nat)
    requires start % 2 == 0
    ensures (start + n) % 2 == n % 2
  {}
}
