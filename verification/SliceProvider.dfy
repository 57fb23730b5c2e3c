/** The provider repair reads present slices from: chunks with a cache that reads ahead and forgets the oldest. */
module SliceProvider {
  import opened Divisors
  import opened SliceKernel
  import opened SourceBlocks

  const MEBIBYTE: nat := 0x10_0000

  /** A slice and an offset into it. */
  type Key = (nat, nat)

  // ----- what the cache holds, by length

  /** The number of bytes cached under each key, and when each was last used. */
  datatype Cache = Cache(lengths: map<Key, nat>, times: map<Key, nat>, counter: nat)

  /** Different entries were last used at different times. */
  ghost predicate SoundTimes(times: map<Key, nat>, counter: nat) {
    && (forall a, b :: a in times && b in times && times[a] == times[b] ==> a == b)
    && (forall a :: a in times ==> times[a] <= counter)
  }

  ghost predicate SoundCache(c: Cache) { c.times.Keys == c.lengths.Keys && SoundTimes(c.times, c.counter) }

  ghost predicate IsOldest(times: map<Key, nat>, key: Key) {
    key in times && forall k :: k in times ==> times[key] <= times[k]
  }

  lemma {:induction false} OldestExists(times: map<Key, nat>)
    requires times != map[]
    ensures exists key :: IsOldest(times, key)
    decreases |times|
  {
    var k :| k in times;
    var rest := times - {k};
    if rest == map[] {
      assert forall j :: j in times ==> j == k || j in rest;
      assert IsOldest(times, k);
    } else {
      OldestExists(rest);
      var j :| IsOldest(rest, j);
      assert forall i :: i in times ==> i == k || i in rest;
      assert IsOldest(times, if times[j] <= times[k] then j else k);
    }
  }

  ghost function Oldest(times: map<Key, nat>): (key: Key)
    requires times != map[]
    ensures IsOldest(times, key)
  {
    OldestExists(times);
    var key :| IsOldest(times, key);
    key
  }

  lemma OldestUnique(times: map<Key, nat>, counter: nat, key: Key)
    requires SoundTimes(times, counter) && IsOldest(times, key)
    ensures key == Oldest(times)
  {}

  function MaxCached(sliceSize: nat): (n: nat)
    ensures n > 0
  {
    if sliceSize >= MEBIBYTE then 32 else 1000
  }

  lemma MostCached(sliceSize: nat)
    ensures MaxCached(sliceSize) == if sliceSize < 0x10_0000 then 1000 else 32
  {}

  /** How many chunks are read ahead. */
  function Ahead(size: nat): nat { if size >= MEBIBYTE then 1 else 4 }

  /** Makes room in a full cache. */
  ghost function Evicted(c: Cache, most: nat): Cache
    requires most > 0
  {
    if |c.lengths| < most || c.times == map[] then c
    else Cache(c.lengths - {Oldest(c.times)}, c.times - {Oldest(c.times)}, c.counter)
  }

  ghost function Inserted(c: Cache, key: Key, n: nat, most: nat): Cache
    requires most > 0
  {
    var c' := Evicted(c, most);
    Cache(c'.lengths[key := n], c'.times[key := c.counter + 1], c.counter + 1)
  }

  /** After reading ahead `n` chunks; what is read ahead is not padded. */
  ghost function ReadAhead(c: Cache, g: nat, start: nat, size: nat, actual: nat, most: nat, n: nat): Cache
    requires most > 0
    decreases n
  {
    if n == 0 then c
    else
      var before := ReadAhead(c, g, start, size, actual, most, n - 1);
      var offset := start + (n - 1) * size;
      NonnegativeOffset(n - 1, size);
      if offset >= actual || (g, offset) in before.lengths then before
      else Inserted(before, (g, offset), Clip(actual - offset, size), most)
  }

  lemma NonnegativeOffset(n: nat, size: nat)
    ensures n * size >= 0
  {}

  /** Chunk `k` is one of the next `n` from `start` on, and there is data in it. */
  predicate IsAhead(k: Key, g: nat, start: nat, size: nat, actual: nat, n: nat)
    requires size > 0
  {
    k.0 == g && start <= k.1 < actual && (k.1 - start) % size == 0 && (k.1 - start) / size < n
  }

  lemma NextAhead(k: Key, g: nat, start: nat, size: nat, actual: nat, n: nat)
    requires size > 0
    ensures n * size >= 0
    ensures IsAhead(k, g, start, size, actual, n + 1)
      <==> IsAhead(k, g, start, size, actual, n) || (k == (g, start + n * size) && start + n * size < actual)
  {
    NonnegativeOffset(n, size);
    DivideBy(n, 0, size);
    if start <= k.1 {
      DivisionParts(k.1 - start, size);
    }
  }

  lemma ReadAheadStep(c: Cache, g: nat, start: nat, size: nat, actual: nat, most: nat, n: nat)
    requires most > 0
    ensures n * size >= 0
    ensures var (before, offset) := (ReadAhead(c, g, start, size, actual, most, n), start + n * size);
      ReadAhead(c, g, start, size, actual, most, n + 1)
        == if offset >= actual || (g, offset) in before.lengths then before
           else Inserted(before, (g, offset), Clip(actual - offset, size), most)
  {
    hide Inserted;
    NonnegativeOffset(n, size);
  }

  /** Where there is room, reading ahead adds exactly those, as many bytes of each as there are. */
  lemma {:induction false} ReadAheadIs(c: Cache, g: nat, start: nat, size: nat, actual: nat, most: nat, n: nat, k: Key)
    requires size > 0 && most > 0 && |c.lengths| + n <= most
    ensures var r := ReadAhead(c, g, start, size, actual, most, n).lengths;
      && |r| <= |c.lengths| + n
      && (k in r <==> k in c.lengths || IsAhead(k, g, start, size, actual, n))
      && (k in c.lengths ==> r[k] == c.lengths[k])
      && (k in r && k !in c.lengths ==> r[k] == Clip(actual - k.1, size))
  {
    hide Evicted, ReadAhead, IsAhead;
    if n == 0 {
      ReadAheadNone(c, g, start, size, actual, most);
      NothingAhead(k, g, start, size, actual);
    } else {
      var m := n - 1;
      var before := ReadAhead(c, g, start, size, actual, most, m);
      ReadAheadIs(c, g, start, size, actual, most, m, k);
      ReadAheadStep(c, g, start, size, actual, most, m);
      NextAhead(k, g, start, size, actual, m);
      var offset := start + m * size;
      if offset < actual && (g, offset) !in before.lengths {
        RoomToSpare(before, most);
        OneMore(before.lengths, (g, offset), Clip(actual - offset, size));
      }
    }
  }

  lemma NothingAhead(k: Key, g: nat, start: nat, size: nat, actual: nat)
    requires size > 0
    ensures !IsAhead(k, g, start, size, actual, 0)
  {}

  lemma ReadAheadNone(c: Cache, g: nat, start: nat, size: nat, actual: nat, most: nat)
    requires most > 0
    ensures ReadAhead(c, g, start, size, actual, most, 0) == c
  {}

  lemma RoomToSpare(c: Cache, most: nat)
    requires most > 0 && |c.lengths| < most
    ensures Evicted(c, most) == c
  {}

  /** The length of a chunk that is read when it is asked for: padded, unless it reaches beyond the slice. */
  function PaddedLength(actual: nat, offset: nat, size: nat, sliceSize: nat): nat
    requires offset <= actual
  {
    if offset + size <= actual || offset + size <= sliceSize then size else actual - offset
  }

  /** The cache after a chunk was asked for, and the length of what is returned. */
  ghost function AfterRead(c: Cache, g: nat, offset: nat, size: nat, actual: nat, sliceSize: nat): (Cache, nat)
    requires offset < sliceSize
  {
    var key := (g, offset);
    if key in c.lengths then (Cache(c.lengths, c.times[key := c.counter + 1], c.counter + 1), c.lengths[key])
    else if offset >= actual then (c, Clip(size, sliceSize - offset))
    else
      var most := MaxCached(sliceSize);
      var n := PaddedLength(actual, offset, size, sliceSize);
      var c' := Inserted(c, key, n, most);
      (if |c'.lengths| >= most * 9 / 10 then c' else ReadAhead(c', g, offset + size, size, actual, most, Ahead(size)),
       n)
  }

  /** A full cache loses one entry, all of whose companions have been used since; one that is not loses none. */
  lemma EvictedIs(c: Cache, most: nat) returns (key: Key)
    requires SoundCache(c) && most > 0
    ensures |c.lengths| < most ==> Evicted(c, most) == c
    ensures |c.lengths| >= most ==>
      && key in c.times && (forall k :: k in c.times && k != key ==> c.times[key] < c.times[k])
      && Evicted(c, most) == Cache(c.lengths - {key}, c.times - {key}, c.counter)
  {
    key := (0, 0);
    if |c.lengths| >= most {
      assert |c.lengths| == |c.lengths.Keys|;
      assert c.times != map[];
      key := Oldest(c.times);
    }
  }

  /** No more is cached than may be. */
  ghost predicate Bounded(c: Cache, most: nat) { SoundCache(c) && |c.lengths| <= most }

  lemma InsertedBounded(c: Cache, key: Key, n: nat, most: nat)
    requires Bounded(c, most) && most > 0
    ensures Bounded(Inserted(c, key, n, most), most)
  {
    hide Evicted, SoundCache;
    SoundInserted(c, key, n, most);
    EvictedBounded(c, most);
    OneMore(Evicted(c, most).lengths, key, n);
  }

  lemma EvictedBounded(c: Cache, most: nat)
    requires SoundCache(c) && most > 0 && |c.lengths| <= most
    ensures |Evicted(c, most).lengths| < most
  {
    hide Evicted, SoundCache;
    var oldest := EvictedIs(c, most);
    TimesKnown(c);
    if |c.lengths| >= most {
      OneLess(c.lengths, oldest);
    }
  }

  lemma OneLess(m: map<Key, nat>, key: Key)
    requires key in m
    ensures |m - {key}| == |m| - 1
  {
    assert (m - {key}).Keys == m.Keys - {key};
    assert |m - {key}| == |(m - {key}).Keys| && |m| == |m.Keys|;
  }

  lemma OneMore(m: map<Key, nat>, key: Key, n: nat)
    ensures |m[key := n]| <= |m| + 1
  {
    assert m[key := n].Keys == m.Keys + {key};
    assert |m[key := n]| == |m[key := n].Keys| && |m| == |m.Keys|;
  }

  lemma SoundEvicted(c: Cache, most: nat)
    requires SoundCache(c) && most > 0
    ensures SoundCache(Evicted(c, most))
  {}

  lemma {:induction false} ReadAheadBounded(c: Cache, g: nat, start: nat, size: nat, actual: nat, most: nat, n: nat)
    requires Bounded(c, most) && most > 0
    ensures Bounded(ReadAhead(c, g, start, size, actual, most, n), most)
  {
    hide Bounded, Inserted;
    if n > 0 {
      ReadAheadBounded(c, g, start, size, actual, most, n - 1);
      NonnegativeOffset(n - 1, size);
      var offset := start + (n - 1) * size;
      if offset < actual {
        InsertedBounded(ReadAhead(c, g, start, size, actual, most, n - 1), (g, offset), Clip(actual - offset, size),
                        most);
      }
    }
  }

  /** A read keeps the cache within its bounds: 1000 chunks, or 32 of slices of a mebibyte and more. */
  lemma AfterReadBounded(c: Cache, g: nat, offset: nat, size: nat, actual: nat, sliceSize: nat)
    requires offset < sliceSize && Bounded(c, if sliceSize < 0x10_0000 then 1000 else 32)
    ensures Bounded(AfterRead(c, g, offset, size, actual, sliceSize).0, if sliceSize < 0x10_0000 then 1000 else 32)
  {
    hide MaxCached, Inserted, ReadAhead, PaddedLength, SoundCache;
    MostCached(sliceSize);
    var (key, most) := ((g, offset), MaxCached(sliceSize));
    if key in c.lengths {
      SoundTouched(c, key);
    } else if offset < actual {
      var n := PaddedLength(actual, offset, size, sliceSize);
      InsertedBounded(c, key, n, most);
      ReadAheadBounded(Inserted(c, key, n, most), g, offset + size, size, actual, most, Ahead(size));
    }
  }

  lemma TimesKnown(c: Cache)
    requires SoundCache(c)
    ensures c.times.Keys == c.lengths.Keys && SoundTimes(c.times, c.counter)
  {}

  lemma SoundInserted(c: Cache, key: Key, n: nat, most: nat)
    requires SoundCache(c) && most > 0
    ensures SoundCache(Inserted(c, key, n, most))
  {
    hide Evicted;
    SoundEvicted(c, most);
    SameCounter(c, most);
  }

  lemma SameCounter(c: Cache, most: nat)
    requires most > 0
    ensures Evicted(c, most).counter == c.counter
  {}

  lemma SoundTouched(c: Cache, key: Key)
    requires SoundCache(c) && key in c.lengths
    ensures SoundCache(Cache(c.lengths, c.times[key := c.counter + 1], c.counter + 1))
  {}

  // ----- the provider

  /** `n` bytes of the slice from `offset` on, with zeros behind its end. */
  function Window(s: Bytes, offset: nat, n: nat): (r: Bytes)
    ensures |r| == n && forall i :: 0 <= i < n ==> r[i] == if offset + i < |s| then s[offset + i] else 0
  {
    seq(n, i requires 0 <= i < n => if offset + i < |s| then s[offset + i] else 0)
  }

  function Lengths(cache: map<Key, Bytes>): (r: map<Key, nat>)
    ensures r.Keys == cache.Keys && forall k :: k in cache ==> r[k] == |cache[k]|
  {
    map k | k in cache :: |cache[k]|
  }

  lemma LengthsRemoved(cache: map<Key, Bytes>, key: Key)
    ensures Lengths(cache - {key}) == Lengths(cache) - {key}
  {}

  lemma LengthsAdded(cache: map<Key, Bytes>, key: Key, buffer: Bytes)
    ensures Lengths(cache[key := buffer]) == Lengths(cache)[key := |buffer|]
  {}

  lemma SameSize(cache: map<Key, Bytes>, times: map<Key, nat>)
    requires times.Keys == cache.Keys
    ensures |Lengths(cache)| == |cache| && (cache == map[] <==> times == map[])
  {
    assert |Lengths(cache)| == |Lengths(cache).Keys| && |cache| == |cache.Keys|;
    assert cache == map[] <==> cache.Keys == {};
    assert times == map[] <==> times.Keys == {};
  }

  /** Every cached chunk is a window of its slice that starts before its end. */
  ghost predicate Entries(cache: map<Key, Bytes>, data: map<nat, Bytes>) {
    forall k :: k in cache ==> k.0 in data && k.1 < |data[k.0]| && cache[k] == Window(data[k.0], k.1, |cache[k]|)
  }

  lemma EntriesRemoved(cache: map<Key, Bytes>, data: map<nat, Bytes>, key: Key)
    requires Entries(cache, data)
    ensures Entries(cache - {key}, data)
  {
    hide Window;
  }

  lemma EntriesAdded(cache: map<Key, Bytes>, data: map<nat, Bytes>, key: Key, buffer: Bytes)
    requires Entries(cache, data)
    requires key.0 in data && key.1 < |data[key.0]| && buffer == Window(data[key.0], key.1, |buffer|)
    ensures Entries(cache[key := buffer], data)
  {
    hide Window;
  }

  /** Cached chunks depend on their length alone. */
  lemma AheadEntry(before: map<Key, Bytes>, after: map<Key, Bytes>, data: map<nat, Bytes>, k: Key, size: nat)
    requires Entries(before, data) && Entries(after, data) && k in after
    ensures k in before && |before[k]| == |after[k]| ==> before[k] == after[k]
    ensures k.0 in data && k.1 < |data[k.0]|
    ensures |after[k]| == Clip(|data[k.0]| - k.1, size) ==>
      after[k] == data[k.0][k.1..k.1 + Clip(|data[k.0]| - k.1, size)]
  {
    hide Window;
    if |after[k]| == Clip(|data[k.0]| - k.1, size) {
      WindowInside(data[k.0], k.1, k.1 + |after[k]|);
    }
  }

  lemma EntryIs(cache: map<Key, Bytes>, data: map<nat, Bytes>, key: Key)
    requires Entries(cache, data) && key in cache
    ensures key.0 in data && key.1 < |data[key.0]| && cache[key] == Window(data[key.0], key.1, |cache[key]|)
  {
    hide Window;
  }

  /** What reading ahead does to a cache that is filled to less than nine tenths. */
  lemma Prefetched(before: map<Key, Bytes>, after: map<Key, Bytes>, data: map<nat, Bytes>, g: nat, start: nat,
                   size: nat, sliceSize: nat, c: Cache)
    requires Entries(before, data) && Entries(after, data) && c.lengths == Lengths(before) && g in data && size > 0
    requires |before| < if sliceSize < 0x10_0000 then 900 else 28
    requires Lengths(after) == ReadAhead(c, g, start, size, |data[g]|, MaxCached(sliceSize), Ahead(size)).lengths
    ensures forall k: Key :: k in after <==>
      || k in before
      || (k.0 == g && start <= k.1 < |data[g]| && (k.1 - start) % size == 0
          && (k.1 - start) / size < if size < 0x10_0000 then 4 else 1)
    ensures forall k: Key :: k in after && k in before ==> after[k] == before[k]
    ensures forall k: Key :: k in after && k !in before ==>
      k.0 == g && k.1 < |data[g]| && after[k] == data[g][k.1..k.1 + Clip(|data[g]| - k.1, size)]
  {
    hide Entries, MaxCached, ReadAhead;
    MostCached(sliceSize);
    SameSize(before, map k | k in before :: 0);
    forall k: Key
      ensures k in after <==> k in before || IsAhead(k, g, start, size, |data[g]|, Ahead(size))
      ensures k in after && k in before ==> after[k] == before[k]
      ensures k in after && k !in before ==>
        k.0 == g && k.1 < |data[g]| && after[k] == data[g][k.1..k.1 + Clip(|data[g]| - k.1, size)]
    {
      ReadAheadIs(c, g, start, size, |data[g]|, MaxCached(sliceSize), Ahead(size), k);
      if k in after {
        AheadEntry(before, after, data, k, size);
      }
    }
  }

  lemma WindowInside(s: Bytes, from: nat, to: nat)
    requires from <= to <= |s|
    ensures s[from..to] == Window(s, from, to - from)
  {}

  datatype ReadResult = Chunk(data: Bytes) | SliceNotFound(index: nat) | InvalidChunkOffset(offset: nat)

  class ChunkedSliceProvider {
    const sliceSize: nat
    /** The bytes that files hold of each slice. */
    const data: map<nat, Bytes>
    var cache: map<Key, Bytes>
    var times: map<Key, nat>
    var counter: nat

    ghost function State(): Cache
      reads this
    {
      Cache(Lengths(cache), times, counter)
    }

    ghost predicate Valid()
      reads this
    {
      SoundCache(State()) && Entries(cache, data) && forall g :: g in data ==> |data[g]| <= sliceSize
    }

    constructor (sliceSize: nat, data: map<nat, Bytes>)
      requires forall g :: g in data ==> |data[g]| <= sliceSize
      ensures Valid() && this.sliceSize == sliceSize && this.data == data
      ensures State() == Cache(map[], map[], 0)
    {
      this.sliceSize, this.data := sliceSize, data;
      cache, times, counter := map[], map[], 0;
      new;
      assert Lengths(map[]) == map[];
    }

    /** The entry whose last use is longest ago. */
    method FindOldest() returns (key: Key)
      requires SoundTimes(times, counter) && times != map[]
      ensures key in times && key == Oldest(times)
      ensures forall k :: k in times && k != key ==> times[key] < times[k]
    {
      OldestExists(times);
      key :| key in times && forall k :: k in times ==> times[key] <= times[k];
      OldestUnique(times, counter, key);
    }

    /** Removes the least recently used entry of a full cache. */
    method EvictIfFull()
      requires Valid()
      modifies this`cache, this`times
      ensures Valid() && State() == Evicted(old(State()), MaxCached(sliceSize))
      ensures |old(cache)| < (if sliceSize < 0x10_0000 then 1000 else 32) ==> cache == old(cache) && times == old(times)
      ensures |old(cache)| >= (if sliceSize < 0x10_0000 then 1000 else 32) ==>
        exists key :: key in old(times) && cache == old(cache) - {key} && times == old(times) - {key}
          && forall k :: k in times ==> old(times[key]) < times[k]
    {
      hide Window, Entries, Lengths, MaxCached, SoundCache, SoundTimes, IsOldest;
      MostCached(sliceSize);
      TimesKnown(State());
      SameSize(cache, times);
      SoundEvicted(State(), MaxCached(sliceSize));
      if |cache| >= MaxCached(sliceSize) {
        var key := FindOldest();
        LengthsRemoved(cache, key);
        EntriesRemoved(cache, data, key);
        cache := cache - {key};
        times := times - {key};
      }
    }

    /** Puts bytes of a slice under their key, making room first. */
    method Insert(key: Key, buffer: Bytes)
      requires Valid() && key.0 in data && key.1 < |data[key.0]| && buffer == Window(data[key.0], key.1, |buffer|)
      modifies this
      ensures Valid() && State() == Inserted(old(State()), key, |buffer|, MaxCached(sliceSize))
    {
      hide Window, Entries, Lengths, MaxCached, Evicted, SoundCache;
      SoundInserted(State(), key, |buffer|, MaxCached(sliceSize));
      SameCounter(State(), MaxCached(sliceSize));
      EvictIfFull();
      LengthsAdded(cache, key, buffer);
      EntriesAdded(cache, data, key, buffer);
      counter := counter + 1;
      cache := cache[key := buffer];
      times := times[key := counter];
    }

    /** Caches one chunk, as much of it as there is data, unless it is cached already. */
    method PrefetchChunk(g: nat, offset: nat, size: nat)
      requires Valid() && g in data
      modifies this
      ensures Valid()
      ensures State() ==
        if offset >= |data[g]| || (g, offset) in old(State()).lengths then old(State())
        else Inserted(old(State()), (g, offset), Clip(|data[g]| - offset, size), MaxCached(sliceSize))
    {
      hide Window, Entries, MaxCached, Inserted, Valid, SoundCache;
      CacheKeys();
      if offset < |data[g]| && (g, offset) !in cache {
        var end := offset + Clip(|data[g]| - offset, size);
        WindowInside(data[g], offset, end);
        Insert((g, offset), data[g][offset..end]);
      }
    }

    /** Reads ahead, unless the cache is getting full. */
    method PrefetchChunks(g: nat, start: nat, size: nat)
      requires Valid() && g in data && size > 0
      modifies this
      ensures Valid()
      ensures State() ==
        if |old(State()).lengths| >= MaxCached(sliceSize) * 9 / 10 then old(State())
        else ReadAhead(old(State()), g, start, size, |data[g]|, MaxCached(sliceSize), Ahead(size))
      ensures |old(cache)| >= (if sliceSize < 0x10_0000 then 900 else 28) ==> cache == old(cache) && times == old(times)
    {
      hide Window, Entries, MaxCached, Inserted, Valid, ReadAhead, Lengths, SoundCache;
      CacheSize();
      ReadAheadNone(State(), g, start, size, |data[g]|, MaxCached(sliceSize));
      MostCached(sliceSize);
      if |cache| >= MaxCached(sliceSize) * 9 / 10 {
        return;
      }
      for i := 0 to Ahead(size)
        invariant Valid()
        invariant State() == ReadAhead(old(State()), g, start, size, |data[g]|, MaxCached(sliceSize), i)
      {
        ReadAheadStep(old(State()), g, start, size, |data[g]|, MaxCached(sliceSize), i);
        PrefetchChunk(g, start + i * size, size);
      }
    }

    lemma CacheKeys()
      requires Valid()
      ensures cache.Keys == State().lengths.Keys
    {}

    lemma SmallSlices()
      requires Valid()
      ensures forall g :: g in data ==> |data[g]| <= sliceSize
    {}

    lemma CacheSize()
      requires Valid()
      ensures |State().lengths| == |cache|
    {
      SameSize(cache, times);
    }

    lemma CachedChunk(key: Key)
      requires Valid() && key in cache
      ensures key.0 in data && key.1 < |data[key.0]| <= sliceSize
      ensures cache[key] == Window(data[key.0], key.1, State().lengths[key])
    {
      hide Window;
      EntryIs(cache, data, key);
    }

    /** The chunk as the file has it, with zeros behind the end of the data as far as the slice goes. */
    method ReadWithPadding(g: nat, offset: nat, size: nat) returns (buffer: Bytes)
      requires Valid() && g in data && offset < |data[g]|
      ensures buffer == Window(data[g], offset, PaddedLength(|data[g]|, offset, size, sliceSize))
      ensures |buffer| == if offset + size <= sliceSize then size else |data[g]| - offset
    {
      var actual := |data[g]|;
      var toRead := Clip(actual - offset, size);
      buffer := data[g][offset..offset + toRead];
      var end := offset + size;
      if end > actual && end <= sliceSize {
        var from := if actual < offset + |buffer| then offset + |buffer| else actual;
        buffer := buffer + seq(end - from, _ => 0);
      }
    }

    method ReadChunk(g: nat, offset: nat, size: nat) returns (r: ReadResult)
      requires Valid() && size > 0
      modifies this
      ensures Valid()
      ensures r.SliceNotFound? <==> g !in data
      ensures r.SliceNotFound? ==> r.index == g
      ensures r.InvalidChunkOffset? <==> g in data && offset >= sliceSize
      ensures r.InvalidChunkOffset? ==> r.offset == offset
      ensures !r.Chunk? ==> cache == old(cache) && times == old(times)
      ensures (g, offset) in old(cache) ==>
        && r == Chunk(old(cache[(g, offset)])) && cache == old(cache) && times.Keys == old(times.Keys)
        && forall k :: k in times && k != (g, offset) ==> times[k] == old(times[k]) < times[(g, offset)]
      ensures r.Chunk? ==>
        var (after, n) := AfterRead(old(State()), g, offset, size, |data[g]|, sliceSize);
        State() == after && r.data == Window(data[g], offset, n)
      ensures r.Chunk? && (g, offset) !in old(cache) ==>
        && r.data == Window(data[g], offset, |r.data|)
        && |r.data| == if offset + size <= sliceSize then size
                       else if offset < |data[g]| then |data[g]| - offset
                       else sliceSize - offset
    {
      hide Window, Entries, MaxCached, Inserted, ReadAhead, Valid, PaddedLength;
      var key := (g, offset);
      if key in cache {
        CachedChunk(key);
        r := Touch(key);
        return;
      }
      if g !in data {
        return SliceNotFound(g);
      }
      if offset >= sliceSize {
        return InvalidChunkOffset(offset);
      }
      if offset >= |data[g]| {
        var n := Clip(size, sliceSize - offset);
        WindowBeyond(data[g], offset, n);
        return Chunk(seq(n, _ => 0));
      }
      var buffer := ReadWithPadding(g, offset, size);
      Insert(key, buffer);
      PrefetchChunks(g, offset + size, size);
      r := Chunk(buffer);
    }

    /** Returns a cached chunk and notes its use. */
    method Touch(key: Key) returns (r: ReadResult)
      requires Valid() && key in cache
      modifies this
      ensures Valid() && r == Chunk(old(cache[key]))
      ensures State() ==
        Cache(old(State()).lengths, old(State()).times[key := old(counter) + 1], old(counter) + 1)
      ensures cache == old(cache) && times.Keys == old(times.Keys)
      ensures forall k :: k in times && k != key ==> times[k] == old(times[k]) < times[key]
    {
      hide Window, Entries, Lengths, SoundCache;
      TimesKnown(State());
      SoundTouched(State(), key);
      counter := counter + 1;
      times := times[key := counter];
      r := Chunk(cache[key]);
    }
  }

  lemma WindowBeyond(s: Bytes, offset: nat, n: nat)
    requires offset >= |s|
    ensures seq(n, _ => 0) == Window(s, offset, n)
  {}
}
