/** How repair finds recovery slices: a scan over packet headers that notes where the data of each slice is. */
module RecoveryMetadata {
  import opened GaloisTable
  import opened SliceKernel
  import opened LittleEndian
  import opened PacketStream
  import opened PacketFormats
  import opened CreateBackend
  import opened RecoveryFiles
  import opened VolumeFiles

  /** A recovery slice that was found; its data, unless the file ends before it does. */
  datatype FoundSlice = FoundSlice(setId: Hash, exponent: nat, data: Option<Bytes>)

  /** What a scan comes to: slices, a file that is given up, or a scan that never ends. */
  datatype Scan = Slices(found: seq<FoundSlice>) | Broken | Endless

  function Prepended(first: FoundSlice, rest: Scan): Scan {
    match rest
    case Slices(found) => Slices([first] + found)
    case _ => rest
  }

  predicate IsRecovery(data: Bytes, p: nat)
    requires p + 64 <= |data|
  {
    data[p + 48..p + 64] == RECOVERY_TYPE
  }

  /** The slice whose packet starts at `p`. */
  function SliceAt(data: Bytes, p: nat): FoundSlice
    requires p + 68 <= |data| && LengthAt(data, p) >= 68
  {
    var end := p + LengthAt(data, p);
    FoundSlice(data[p + 32..p + 48], LeValue(data[p + 64..p + 68]),
               if end <= |data| then Some(data[p + 68..end]) else None)
  }

  /**
   * The scan from `p` on. It ends where no magic is, gives up at a recovery slice too short to be one, and stays in
   * place at any other packet whose length field is zero.
   */
  function ScanFrom(data: Bytes, p: nat): Scan
    decreases |data| - p
  {
    if p + 64 > |data| || !MagicAt(data, p) then Slices([])
    else if IsRecovery(data, p) then
      if p + 68 > |data| || LengthAt(data, p) < 68 then Broken
      else Prepended(SliceAt(data, p), ScanFrom(data, p + LengthAt(data, p)))
    else if LengthAt(data, p) == 0 then Endless
    else ScanFrom(data, p + LengthAt(data, p))
  }

  /** The scan of the rest, behind slices found before. */
  function Behind(found: seq<FoundSlice>, rest: Scan): Scan {
    match rest
    case Slices(more) => Slices(found + more)
    case _ => rest
  }

  lemma BehindOne(found: seq<FoundSlice>, first: FoundSlice, rest: Scan)
    ensures Behind(found, Prepended(first, rest)) == Behind(found + [first], rest)
  {
    if rest.Slices? {
      assert found + ([first] + rest.found) == found + [first] + rest.found;
    }
  }

  method ScanFile(data: Bytes) returns (r: Scan)
    ensures r == ScanFrom(data, 0)
  {
    hide MagicAt, IsRecovery, LengthAt, SliceAt, ScanFrom;
    var pos := 0;
    var found: seq<FoundSlice> := [];
    Unscanned(data);
    while pos + 64 <= |data| && MagicAt(data, pos)
      invariant Behind(found, ScanFrom(data, pos)) == ScanFrom(data, 0)
      decreases |data| - pos
    {
      ScanIs(data, pos);
      var length := LengthAt(data, pos);
      if IsRecovery(data, pos) {
        if pos + 68 > |data| || length < 68 {
          return Broken;
        }
        var slice := SliceAt(data, pos);
        BehindOne(found, slice, ScanFrom(data, pos + length));
        found := found + [slice];
      } else if length == 0 {
        return Endless;
      }
      pos := pos + length;
    }
    ScanIs(data, pos);
    r := Slices(found);
  }

  lemma Unscanned(data: Bytes)
    ensures Behind([], ScanFrom(data, 0)) == ScanFrom(data, 0)
  {
    hide ScanFrom;
    var scan := ScanFrom(data, 0);
    if scan.Slices? {
      assert [] + scan.found == scan.found;
    }
  }

  lemma ScanIs(data: Bytes, p: nat)
    ensures ScanFrom(data, p) ==
      if p + 64 > |data| || !MagicAt(data, p) then Slices([])
      else if IsRecovery(data, p) then
        (if p + 68 > |data| || LengthAt(data, p) < 68 then Broken
         else Prepended(SliceAt(data, p), ScanFrom(data, p + LengthAt(data, p))))
      else if LengthAt(data, p) == 0 then Endless
      else ScanFrom(data, p + LengthAt(data, p))
  {
    hide MagicAt, IsRecovery, LengthAt, SliceAt;
  }

  /** A packet of another type with a length of zero is scanned for ever. */
  lemma ZeroLengthEndless(data: Bytes)
    requires |data| >= 64 && MagicAt(data, 0) && !IsRecovery(data, 0) && LengthAt(data, 0) == 0
    ensures ScanFrom(data, 0) == Endless
  {
    hide MagicAt, IsRecovery, LengthAt;
  }

  // ----- scanning what was written

  /** The header and the data at an offset do not depend on what is before it. */
  lemma HeaderShift(front: Bytes, rest: Bytes, p: nat)
    requires p + 64 <= |rest|
    ensures MagicAt(front + rest, |front| + p) <==> MagicAt(rest, p)
    ensures LengthAt(front + rest, |front| + p) == LengthAt(rest, p)
    ensures IsRecovery(front + rest, |front| + p) <==> IsRecovery(rest, p)
    ensures p + 68 <= |rest| && LengthAt(rest, p) >= 68 ==> SliceAt(front + rest, |front| + p) == SliceAt(rest, p)
  {
    hide LeValue, MagicAt;
    var (data, n) := (front + rest, |front|);
    MagicAtShift(front, rest, p);
    assert data[n + p + 8..n + p + 16] == rest[p + 8..p + 16];
    assert data[n + p + 48..n + p + 64] == rest[p + 48..p + 64];
    assert data[n + p + 32..n + p + 48] == rest[p + 32..p + 48];
    if p + 68 <= |rest| && LengthAt(rest, p) >= 68 {
      assert data[n + p + 64..n + p + 68] == rest[p + 64..p + 68];
      var end := p + LengthAt(rest, p);
      if end <= |rest| {
        assert data[n + p + 68..n + end] == rest[p + 68..end];
      }
    }
  }

  lemma {:induction false} ScanShift(front: Bytes, rest: Bytes, p: nat)
    ensures ScanFrom(front + rest, |front| + p) == ScanFrom(rest, p)
    decreases |rest| - p
  {
    hide MagicAt, IsRecovery, LengthAt, SliceAt, ScanFrom;
    ScanIs(front + rest, |front| + p);
    ScanIs(rest, p);
    if p + 64 <= |rest| {
      HeaderShift(front, rest, p);
      var length := LengthAt(rest, p);
      if MagicAt(rest, p) && length > 0 {
        ScanShift(front, rest, p + length);
      }
    }
  }

  /** The slice a packet stands for. */
  function SliceOf(p: Packet): FoundSlice
    requires p.RecoverySlice?
  {
    FoundSlice(p.setId, p.exponent, Some(p.data))
  }

  /** A written packet is found if it is a recovery slice, and passed over if not. */
  lemma WrittenIsScanned(p: Packet, md5: Md5, rest: Bytes)
    requires Fits(p)
    ensures ScanFrom(Written(p, md5) + rest, 0)
      == if p.RecoverySlice? then Prepended(SliceOf(p), ScanFrom(rest, 0)) else ScanFrom(rest, 0)
  {
    hide ScanFrom, MagicAt, LengthAt, IsRecovery, SliceAt, Written, Body, Fits;
    var (packet, data) := (Written(p, md5), Written(p, md5) + rest);
    WrittenHeader(p, md5, rest);
    RecoveryTypeExactly(p);
    ScanIs(data, 0);
    ScanShift(packet, rest, 0);
    if p.RecoverySlice? {
      WrittenSlice(p, md5, rest);
    }
  }

  lemma WrittenHeader(p: Packet, md5: Md5, rest: Bytes)
    requires Fits(p)
    ensures var data := Written(p, md5) + rest;
      && |Written(p, md5)| == p.length >= 64 && |data| >= 64
      && MagicAt(data, 0) && LengthAt(data, 0) == p.length && (IsRecovery(data, 0) <==> TypeCode(p) == RECOVERY_TYPE)
  {
    hide LeValue, Body, LeBytes, Written;
    WrittenIsFramed(p, md5);
    FramedFields(p.length, md5(Hashed(p)), p.setId, TypeCode(p), Body(p));
    var (packet, data) := (Written(p, md5), Written(p, md5) + rest);
    assert data[0..8] == packet[0..8] && data[8..16] == packet[8..16] && data[48..64] == packet[48..64];
  }

  lemma WrittenSlice(p: Packet, md5: Md5, rest: Bytes)
    requires p.RecoverySlice? && Fits(p)
    ensures var data := Written(p, md5) + rest;
      p.length >= 68 && |data| >= 68 && LengthAt(data, 0) == p.length && SliceAt(data, 0) == SliceOf(p)
  {
    hide LeValue, LeBytes, Written, Capacity, MagicAt;
    WrittenHeader(p, md5, rest);
    WrittenIsFramed(p, md5);
    FramedFields(p.length, md5(Hashed(p)), p.setId, TypeCode(p), Body(p));
    LeRoundTrip(p.exponent, 4);
    var (packet, data) := (Written(p, md5), Written(p, md5) + rest);
    assert data[32..48] == packet[32..48];
    assert packet[64..] == LeBytes(p.exponent, 4) + p.data;
    assert data[64..68] == packet[64..][0..4];
    assert data[68..p.length] == packet[64..][4..];
  }

  /**
   * The packet of a recovery slice in a file that ends before it does. Cut in its header it is not there; cut in its
   * exponent it makes the scan give up; cut in its data it is found without data.
   */
  lemma CutSliceIsScanned(p: Packet, md5: Md5, n: nat)
    requires p.RecoverySlice? && Fits(p) && n < p.length
    ensures |Written(p, md5)| == p.length
    ensures ScanFrom(Written(p, md5)[..n], 0) ==
      if n < 64 then Slices([]) else if n < 68 then Broken else Slices([FoundSlice(p.setId, p.exponent, None)])
  {
    hide ScanFrom, MagicAt, LengthAt, IsRecovery, Written, Body, Fits, LeValue, SliceAt;
    WrittenHeader(p, md5, []);
    var (whole, data) := (Written(p, md5), Written(p, md5)[..n]);
    WrittenSlice(p, md5, []);
    assert whole + [] == whole == data + whole[n..];
    ScanIs(data, 0);
    if n >= 64 {
      RecoveryTypeExactly(p);
      HeaderOfFront(data, whole[n..]);
      if n >= 68 {
        CutSliceAt(data, whole[n..]);
        ScanIs(data, p.length);
      }
    }
  }

  lemma HeaderOfFront(front: Bytes, back: Bytes)
    requires |front| >= 64
    ensures MagicAt(front + back, 0) <==> MagicAt(front, 0)
    ensures LengthAt(front + back, 0) == LengthAt(front, 0)
    ensures IsRecovery(front + back, 0) <==> IsRecovery(front, 0)
  {
    hide LeValue;
    var data := front + back;
    assert data[0..8] == front[0..8] && data[8..16] == front[8..16] && data[48..64] == front[48..64];
  }

  lemma CutSliceAt(front: Bytes, back: Bytes)
    requires 68 <= |front| < LengthAt(front, 0) && LengthAt(front + back, 0) == LengthAt(front, 0)
    ensures SliceAt(front, 0) == SliceAt(front + back, 0).(data := None)
  {
    hide LeValue, LengthAt;
    var data := front + back;
    assert data[32..48] == front[32..48] && data[64..68] == front[64..68];
  }

  /** A recovery slice whose length field is too small for an exponent makes the scan give up. */
  lemma ShortSliceBroken(data: Bytes)
    requires |data| >= 64 && MagicAt(data, 0) && data[48..64] == RECOVERY_TYPE && LengthAt(data, 0) < 68
    ensures ScanFrom(data, 0) == Broken
  {
    hide MagicAt, LengthAt;
  }

  ghost predicate AllFit(packets: seq<Packet>) { forall i :: 0 <= i < |packets| ==> Fits(packets[i]) }

  /** The recovery slices among packets. */
  function SlicesAmong(packets: seq<Packet>): seq<FoundSlice> {
    if packets == [] then []
    else (if packets[0].RecoverySlice? then [SliceOf(packets[0])] else []) + SlicesAmong(packets[1..])
  }

  lemma {:induction false} PacketsAreScanned(packets: seq<Packet>, md5: Md5)
    requires AllFit(packets)
    ensures ScanFrom(WrittenAll(packets, md5), 0) == Slices(SlicesAmong(packets))
    decreases |packets|
  {
    hide ScanFrom, Written, Fits;
    if packets == [] {
      NothingWritten(md5);
      NothingScanned();
    } else {
      PacketsAreScanned(packets[1..], md5);
      WrittenIsScanned(packets[0], md5, WrittenAll(packets[1..], md5));
      FirstWritten(packets, md5);
    }
  }

  lemma NothingScanned()
    ensures ScanFrom([], 0) == Slices([])
  {}

  function FoundOf(setId: Hash, blocks: seq<RecoveryBlockData>): (r: seq<FoundSlice>)
    ensures |r| == |blocks|
    ensures forall i :: 0 <= i < |blocks| ==> r[i] == FoundSlice(setId, blocks[i].exponent, Some(blocks[i].data))
  {
    seq(|blocks|, i requires 0 <= i < |blocks| => FoundSlice(setId, blocks[i].exponent, Some(blocks[i].data)))
  }

  lemma {:induction false} SlicesBehindCritical(critical: seq<Packet>, slices: seq<Packet>)
    requires forall i :: 0 <= i < |critical| ==> !critical[i].RecoverySlice?
    ensures SlicesAmong(critical + slices) == SlicesAmong(slices)
    decreases |critical|
  {
    if critical == [] {
      assert critical + slices == slices;
    } else {
      SlicesBehindCritical(critical[1..], slices);
      assert (critical + slices)[1..] == critical[1..] + slices;
    }
  }

  lemma {:induction false} SlicesOfBlocks(setId: Hash, blocks: seq<RecoveryBlockData>)
    ensures SlicesAmong(SlicePackets(setId, blocks)) == FoundOf(setId, blocks)
    decreases |blocks|
  {
    hide SlicesAmong;
    var packets := SlicePackets(setId, blocks);
    if blocks == [] {
      NoneAmong();
      assert packets == [];
    } else {
      SlicesOfBlocks(setId, blocks[1..]);
      FirstAmong(packets);
      assert packets[1..] == SlicePackets(setId, blocks[1..]);
      assert FoundOf(setId, blocks) == [FoundOf(setId, blocks)[0]] + FoundOf(setId, blocks[1..]);
    }
  }

  lemma NoneAmong()
    ensures SlicesAmong([]) == []
  {}

  lemma FirstAmong(packets: seq<Packet>)
    requires packets != [] && packets[0].RecoverySlice?
    ensures SlicesAmong(packets) == [SliceOf(packets[0])] + SlicesAmong(packets[1..])
  {}

  /** Critical packets of any length; none is a recovery slice. */
  ghost predicate Passable(critical: seq<Packet>) {
    forall i :: 0 <= i < |critical| ==>
      Generated(critical[i]) && critical[i].length < LittleEndian.Capacity(8) && !critical[i].RecoverySlice?
  }

  /** A scan of a volume finds its recovery slices, however long they are. */
  lemma VolumeIsScanned(critical: seq<Packet>, setId: Hash, blocks: seq<RecoveryBlockData>, blockSize: nat, md5: Md5)
    requires Passable(critical) && Sized(blocks, blockSize)
    ensures ScanFrom(WrittenAll(critical, md5) + WrittenAll(SlicePackets(setId, blocks), md5), 0)
      == Slices(FoundOf(setId, blocks))
  {
    hide ScanFrom, WrittenAll, Generated, Fits, LittleEndian.Capacity;
    var slices := SlicePackets(setId, blocks);
    var packets := critical + slices;
    SlicesGenerated(setId, blocks, blockSize);
    forall i | 0 <= i < |packets|
      ensures Fits(packets[i])
    {
      GeneratedFits(packets[i]);
    }
    WrittenJoin(critical, slices, md5);
    PacketsAreScanned(packets, md5);
    SlicesBehindCritical(critical, slices);
    SlicesOfBlocks(setId, blocks);
  }

  // ----- several files

  /** The same set and exponent. */
  predicate SameSlice(a: FoundSlice, b: FoundSlice) { a.setId == b.setId && a.exponent == b.exponent }

  /** Of slices found more than once the first is kept. */
  function Deduplicated(s: seq<FoundSlice>): seq<FoundSlice> {
    if s == [] then []
    else
      var (front, last) := (s[..|s| - 1], s[|s| - 1]);
      Deduplicated(front) + if exists i :: 0 <= i < |front| && SameSlice(front[i], last) then [] else [last]
  }

  method Deduplicate(s: seq<FoundSlice>) returns (r: seq<FoundSlice>)
    ensures r == Deduplicated(s)
  {
    var seen: set<(Hash, nat)> := {};
    r := [];
    for i := 0 to |s|
      invariant r == Deduplicated(s[..i])
      invariant forall k :: k in seen <==> exists j :: 0 <= j < i && (s[j].setId, s[j].exponent) == k
    {
      assert s[..i + 1][..i] == s[..i];
      if (s[i].setId, s[i].exponent) !in seen {
        r := r + [s[i]];
        seen := seen + {(s[i].setId, s[i].exponent)};
      }
    }
    assert s[..|s|] == s;
  }

  lemma {:induction false} AllDifferentKept(s: seq<FoundSlice>)
    requires forall i, j :: 0 <= i < j < |s| ==> !SameSlice(s[i], s[j])
    ensures Deduplicated(s) == s
    decreases |s|
  {
    hide SameSlice, Deduplicated;
    DeduplicatedNext(s);
    if s != [] {
      AllDifferentKept(s[..|s| - 1]);
    }
  }

  lemma DeduplicatedNext(s: seq<FoundSlice>)
    ensures s == [] ==> Deduplicated(s) == []
    ensures s != [] ==>
      var (front, last) := (s[..|s| - 1], s[|s| - 1]);
      Deduplicated(s) == Deduplicated(front)
        + if exists i :: 0 <= i < |front| && SameSlice(front[i], last) then [] else [last]
  {
    hide SameSlice;
  }

  /** `r` keeps of `s`, at the places `at`, the slices whose set and exponent have not been found before, in order. */
  ghost predicate FirstsAt(s: seq<FoundSlice>, r: seq<FoundSlice>, at: seq<nat>) {
    && |at| == |r|
    && (forall k :: 0 <= k < |at| ==> at[k] < |s| && r[k] == s[at[k]])
    && (forall k, l :: 0 <= k < l < |at| ==> at[k] < at[l])
    && (forall k, j :: 0 <= k < |at| && 0 <= j < at[k] ==>
         s[j].setId != r[k].setId || s[j].exponent != r[k].exponent)
  }

  /** Slice `i` of `s` agrees in set and exponent with the one of `r` at `standIn[i]`. */
  ghost predicate Represented(s: seq<FoundSlice>, r: seq<FoundSlice>, standIn: seq<nat>) {
    && |standIn| == |s|
    && forall i :: 0 <= i < |s| ==>
      standIn[i] < |r| && r[standIn[i]].setId == s[i].setId && r[standIn[i]].exponent == s[i].exponent
  }

  lemma {:induction false} FirstsKept(s: seq<FoundSlice>) returns (at: seq<nat>, standIn: seq<nat>)
    ensures FirstsAt(s, Deduplicated(s), at) && Represented(s, Deduplicated(s), standIn)
    decreases |s|
  {
    hide Deduplicated, FirstsAt, Represented, SameSlice;
    if s == [] {
      at, standIn := [], [];
      NothingKept();
    } else {
      var (front, last) := (s[..|s| - 1], s[|s| - 1]);
      at, standIn := FirstsKept(front);
      assert s == front + [last];
      if i :| 0 <= i < |front| && SameSlice(front[i], last) {
        AgainFound(front, last, i);
        FirstsStay(front, Deduplicated(front), at, last);
        AgainRepresented(front, Deduplicated(front), standIn, last, i);
        standIn := standIn + [standIn[i]];
      } else {
        NewlyFound(front, last);
        FirstsGrow(front, Deduplicated(front), at, last);
        NewlyRepresented(front, Deduplicated(front), standIn, last);
        at, standIn := at + [|front|], standIn + [|Deduplicated(front)|];
      }
    }
  }

  lemma NothingKept()
    ensures Deduplicated([]) == [] && FirstsAt([], [], []) && Represented([], [], [])
  {}

  lemma AgainFound(s: seq<FoundSlice>, last: FoundSlice, i: nat)
    requires i < |s| && SameSlice(s[i], last)
    ensures Deduplicated(s + [last]) == Deduplicated(s)
  {
    hide Deduplicated, SameSlice;
    DeduplicatedNext(s + [last]);
    assert (s + [last])[..|s|] == s;
  }

  lemma NewlyFound(s: seq<FoundSlice>, last: FoundSlice)
    requires forall i :: 0 <= i < |s| ==> !SameSlice(s[i], last)
    ensures Deduplicated(s + [last]) == Deduplicated(s) + [last]
  {
    hide Deduplicated, SameSlice;
    DeduplicatedNext(s + [last]);
    assert (s + [last])[..|s|] == s;
  }

  lemma FirstsStay(s: seq<FoundSlice>, r: seq<FoundSlice>, at: seq<nat>, last: FoundSlice)
    requires FirstsAt(s, r, at)
    ensures FirstsAt(s + [last], r, at)
  {}

  lemma FirstsGrow(s: seq<FoundSlice>, r: seq<FoundSlice>, at: seq<nat>, last: FoundSlice)
    requires FirstsAt(s, r, at) && forall i :: 0 <= i < |s| ==> !SameSlice(s[i], last)
    ensures FirstsAt(s + [last], r + [last], at + [|s|])
  {}

  lemma AgainRepresented(s: seq<FoundSlice>, r: seq<FoundSlice>, standIn: seq<nat>, last: FoundSlice, i: nat)
    requires Represented(s, r, standIn) && i < |s| && SameSlice(s[i], last)
    ensures |standIn| == |s| && Represented(s + [last], r, standIn + [standIn[i]])
  {}

  lemma NewlyRepresented(s: seq<FoundSlice>, r: seq<FoundSlice>, standIn: seq<nat>, last: FoundSlice)
    requires Represented(s, r, standIn)
    ensures Represented(s + [last], r + [last], standIn + [|r|])
  {}

  /** No two of those that are kept agree in set and exponent. */
  lemma FirstsDiffer(s: seq<FoundSlice>, r: seq<FoundSlice>, at: seq<nat>)
    requires FirstsAt(s, r, at)
    ensures forall k, l :: 0 <= k < l < |r| ==> r[k].setId != r[l].setId || r[k].exponent != r[l].exponent
  {
    forall k, l | 0 <= k < l < |r|
      ensures r[k].setId != r[l].setId || r[k].exponent != r[l].exponent
    {
      assert at[k] < at[l] && s[at[k]] == r[k];
    }
  }

  /** A slice of the same set and exponent has been found. */
  ghost predicate Known(s: seq<FoundSlice>, x: FoundSlice) { exists i :: 0 <= i < |s| && SameSlice(s[i], x) }

  lemma KnownIsKept(s: seq<FoundSlice>, x: FoundSlice)
    ensures Known(s, x) <==> Known(Deduplicated(s), x)
  {
    hide Deduplicated;
    var at, standIn := FirstsKept(s);
    var r := Deduplicated(s);
    if i :| 0 <= i < |s| && SameSlice(s[i], x) {
      assert SameSlice(r[standIn[i]], x);
    }
    if k :| 0 <= k < |r| && SameSlice(r[k], x) {
      assert SameSlice(s[at[k]], x);
    }
  }

  lemma NextKept(s: seq<FoundSlice>, x: FoundSlice)
    ensures Deduplicated(s + [x]) == Deduplicated(s) + if Known(s, x) then [] else [x]
  {
    hide SameSlice, Deduplicated;
    if i :| 0 <= i < |s| && SameSlice(s[i], x) {
      AgainFound(s, x, i);
    } else {
      NewlyFound(s, x);
    }
  }

  /** What is kept of more slices does not depend on what was found before, but on what was kept of it. */
  lemma {:induction false} SameBefore(a: seq<FoundSlice>, b: seq<FoundSlice>, more: seq<FoundSlice>)
    requires Deduplicated(a) == Deduplicated(b)
    ensures Deduplicated(a + more) == Deduplicated(b + more)
    decreases |more|
  {
    hide Deduplicated, Known;
    if more == [] {
      assert a + more == a && b + more == b;
    } else {
      var (rest, x) := (more[..|more| - 1], more[|more| - 1]);
      SameBefore(a, b, rest);
      NextKept(a + rest, x);
      NextKept(b + rest, x);
      KnownIsKept(a + rest, x);
      KnownIsKept(b + rest, x);
      assert a + rest + [x] == a + more && b + rest + [x] == b + more;
    }
  }

  ghost predicate AllKnown(s: seq<FoundSlice>, again: seq<FoundSlice>) {
    forall i :: 0 <= i < |again| ==> Known(s, again[i])
  }

  /** Slices that are found again change nothing. */
  lemma {:induction false} RepeatsDropped(s: seq<FoundSlice>, again: seq<FoundSlice>)
    requires AllKnown(s, again)
    ensures Deduplicated(s + again) == Deduplicated(s)
    decreases |again|
  {
    hide Deduplicated, Known;
    if again == [] {
      assert s + again == s;
    } else {
      var (rest, x) := (again[..|again| - 1], again[|again| - 1]);
      RepeatsDropped(s, rest);
      NextKept(s + rest, x);
      StillKnown(s, rest, [x]);
      assert Known(s + rest, [x][0]);
      assert s + rest + [x] == s + again;
    }
  }

  lemma StillKnown(s: seq<FoundSlice>, more: seq<FoundSlice>, again: seq<FoundSlice>)
    requires AllKnown(s, again)
    ensures AllKnown(s + more, again)
  {
    hide SameSlice;
    forall k | 0 <= k < |again|
      ensures Known(s + more, again[k])
    {
      var i :| 0 <= i < |s| && SameSlice(s[i], again[k]);
      assert (s + more)[i] == s[i];
    }
  }

  /** The slices of all files, one after the other; a file that is given up adds none. */
  function ScanAll(files: seq<Bytes>): Scan {
    if files == [] then Slices([])
    else
      match (ScanAll(files[..|files| - 1]), ScanFrom(files[|files| - 1], 0))
      case (Slices(before), Slices(found)) => Slices(before + found)
      case (Slices(before), Broken) => Slices(before)
      case (Slices(before), Endless) => Endless
      case (other, _) => other
  }

  /** What repair finds in its files. */
  method LoadMetadata(files: seq<Bytes>) returns (r: Scan, ghost at: seq<nat>, ghost standIn: seq<nat>)
    ensures r == match ScanAll(files) case Slices(found) => Slices(Deduplicated(found)) case other => other
    ensures r.Slices? ==> forall k, l :: 0 <= k < l < |r.found| ==>
      r.found[k].setId != r.found[l].setId || r.found[k].exponent != r.found[l].exponent
    ensures r.Slices? ==> ScanAll(files).Slices?
    ensures r.Slices? ==>
      var found := ScanAll(files).found;
      && |at| == |r.found|
      && (forall k :: 0 <= k < |at| ==> at[k] < |found| && r.found[k] == found[at[k]])
      && (forall k, l :: 0 <= k < l < |at| ==> at[k] < at[l])
      && (forall k, j :: 0 <= k < |at| && 0 <= j < at[k] ==>
           found[j].setId != r.found[k].setId || found[j].exponent != r.found[k].exponent)
    ensures r.Slices? ==>
      var found := ScanAll(files).found;
      && |standIn| == |found|
      && forall i :: 0 <= i < |found| ==>
        && standIn[i] < |r.found|
        && r.found[standIn[i]].setId == found[i].setId && r.found[standIn[i]].exponent == found[i].exponent
  {
    hide ScanFrom, Deduplicated;
    var found: seq<FoundSlice> := [];
    for f := 0 to |files|
      invariant ScanAll(files[..f]) == Slices(found)
    {
      var scan := ScanFile(files[f]);
      assert files[..f + 1][..f] == files[..f];
      match scan {
        case Endless =>
          EndlessStays(files, f + 1);
          return Endless, [], [];
        case Broken =>
        case Slices(more) => found := found + more;
      }
    }
    assert files[..|files|] == files;
    var kept := Deduplicate(found);
    r := Slices(kept);
    at, standIn := FirstsKept(found);
    FirstsDiffer(found, kept, at);
  }

  lemma {:induction false} EndlessStays(files: seq<Bytes>, f: nat)
    requires f <= |files| && ScanAll(files[..f]) == Endless
    ensures ScanAll(files) == Endless
    decreases |files|
  {
    hide ScanFrom;
    if f == |files| {
      assert files[..f] == files;
    } else {
      var front := files[..|files| - 1];
      assert front[..f] == files[..f];
      EndlessStays(front, f);
    }
  }

  // ----- volumes

  /** The files as they are listed, some of them repeatedly. */
  function Listed(volumes: seq<Bytes>, order: seq<nat>): (r: seq<Bytes>)
    requires forall i :: 0 <= i < |order| ==> order[i] < |volumes|
    ensures |r| == |order| && forall i :: 0 <= i < |order| ==> r[i] == volumes[order[i]]
  {
    seq(|order|, i requires 0 <= i < |order| => volumes[order[i]])
  }

  /** The first `n` volumes are listed, each for the first time behind those before it, and then any number of times. */
  ghost predicate InTurn(order: seq<nat>, n: nat) {
    && (forall i :: 0 <= i < |order| ==> order[i] < n)
    && (forall v: nat :: v < n ==> v in order)
    && EarlierBefore(order)
  }

  ghost predicate EarlierBefore(order: seq<nat>) {
    forall i, v: nat :: 0 <= i < |order| && v < order[i] ==> v in order[..i]
  }

  lemma EarlierBeforeFront(order: seq<nat>)
    requires EarlierBefore(order) && order != []
    ensures var (front, v) := (order[..|order| - 1], order[|order| - 1]);
      EarlierBefore(front) && forall u: nat :: u < v ==> u in front
  {
    var front := order[..|order| - 1];
    forall i, u: nat | 0 <= i < |front| && u < front[i]
      ensures u in front[..i]
    {
      assert order[i] == front[i] && order[..i] == front[..i];
    }
  }

  lemma NoneAbove(order: seq<nat>, v: nat)
    requires EarlierBefore(order) && v !in order
    ensures forall i :: 0 <= i < |order| ==> order[i] < v
  {
    forall i | 0 <= i < |order|
      ensures order[i] < v
    {
      if v < order[i] {
        BeforeIsIn(order, i, v);
      }
    }
  }

  lemma BeforeIsIn(order: seq<nat>, i: nat, v: nat)
    requires EarlierBefore(order) && i < |order| && v < order[i]
    ensures v in order
  {
    assert v in order[..i];
  }

  lemma LastInTurn(order: seq<nat>, n: nat)
    requires InTurn(order, n) && order != []
    ensures var (front, v) := (order[..|order| - 1], order[|order| - 1]);
      v < n && if v in front then InTurn(front, n) else v == n - 1 && InTurn(front, v)
  {
    hide EarlierBefore;
    var (front, v) := (order[..|order| - 1], order[|order| - 1]);
    assert order == front + [v];
    EarlierBeforeFront(order);
    if v !in front {
      NoneAbove(front, v);
      assert n - 1 in order;
    } else {
      assert forall u: nat :: u < n ==> u in order ==> u in front;
    }
  }

  /** The recovery slices of volume `v`. */
  function FoundIn(plan: seq<FileAllocation>, v: nat, first: nat, recovery: seq<RecoveryBlockData>,
                   setId: Hash): seq<FoundSlice>
    requires v < |plan| && InRange(plan[v], first, |recovery|)
  {
    FoundOf(setId, HeldBy(plan[v], first, recovery))
  }

  /** Those of the first `n` volumes. */
  function FoundUpTo(plan: seq<FileAllocation>, n: nat, first: nat, recovery: seq<RecoveryBlockData>,
                     setId: Hash): seq<FoundSlice>
    requires n <= |plan| && forall v :: 0 <= v < |plan| ==> InRange(plan[v], first, |recovery|)
  {
    FoundOf(setId, Held(plan[..n], first, recovery))
  }

  lemma NoVolumes(plan: seq<FileAllocation>, first: nat, recovery: seq<RecoveryBlockData>, setId: Hash)
    requires forall v :: 0 <= v < |plan| ==> InRange(plan[v], first, |recovery|)
    ensures FoundUpTo(plan, 0, first, recovery, setId) == []
  {
    NothingHeld(first, recovery);
    assert plan[..0] == [];
  }

  lemma OneMoreVolume(plan: seq<FileAllocation>, n: nat, first: nat, recovery: seq<RecoveryBlockData>, setId: Hash)
    requires n < |plan| && forall v :: 0 <= v < |plan| ==> InRange(plan[v], first, |recovery|)
    ensures FoundUpTo(plan, n + 1, first, recovery, setId)
      == FoundUpTo(plan, n, first, recovery, setId) + FoundIn(plan, n, first, recovery, setId)
  {
    hide HeldBy, Held;
    HeldNext(plan, first, recovery, n);
    var (held, last) := (Held(plan[..n], first, recovery), HeldBy(plan[n], first, recovery));
    assert FoundOf(setId, held + last) == FoundOf(setId, held) + FoundOf(setId, last);
  }

  lemma {:induction false} VolumeKnown(plan: seq<FileAllocation>, v: nat, n: nat, first: nat,
                                       recovery: seq<RecoveryBlockData>, setId: Hash)
    requires v < n <= |plan| && forall v :: 0 <= v < |plan| ==> InRange(plan[v], first, |recovery|)
    ensures AllKnown(FoundUpTo(plan, n, first, recovery, setId), FoundIn(plan, v, first, recovery, setId))
  {
    hide FoundUpTo, FoundIn, AllKnown;
    var m := n - 1;
    var (before, last) := (FoundUpTo(plan, m, first, recovery, setId), FoundIn(plan, m, first, recovery, setId));
    OneMoreVolume(plan, m, first, recovery, setId);
    if v < m {
      VolumeKnown(plan, v, m, first, recovery, setId);
      StillKnown(before, last, FoundIn(plan, v, first, recovery, setId));
    } else {
      KnownBehind(before, last);
    }
  }

  lemma KnownBehind(before: seq<FoundSlice>, s: seq<FoundSlice>)
    ensures AllKnown(before + s, s)
  {
    forall i | 0 <= i < |s|
      ensures Known(before + s, s[i])
    {
      assert SameSlice((before + s)[|before| + i], s[i]);
    }
  }

  lemma ListedNext(volumes: seq<Bytes>, order: seq<nat>)
    requires order != [] && forall i :: 0 <= i < |order| ==> order[i] < |volumes|
    ensures var files := Listed(volumes, order);
      && files[..|files| - 1] == Listed(volumes, order[..|order| - 1])
      && files[|files| - 1] == volumes[order[|order| - 1]]
  {}

  lemma ScanNext(files: seq<Bytes>, before: seq<FoundSlice>, found: seq<FoundSlice>)
    requires files != [] && ScanAll(files[..|files| - 1]) == Slices(before)
    requires ScanFrom(files[|files| - 1], 0) == Slices(found)
    ensures ScanAll(files) == Slices(before + found)
  {
    hide ScanFrom;
  }

  /** A file that is given up adds nothing. */
  lemma {:induction false} BrokenAddsNothing(front: seq<Bytes>, broken: Bytes, back: seq<Bytes>)
    requires ScanFrom(broken, 0) == Broken
    ensures ScanAll(front + [broken] + back) == ScanAll(front + back)
    decreases |back|
  {
    hide ScanFrom;
    var files := front + [broken] + back;
    if back == [] {
      assert files[..|front|] == front && front + back == front;
    } else {
      BrokenAddsNothing(front, broken, back[..|back| - 1]);
      assert files[..|files| - 1] == front + [broken] + back[..|back| - 1];
      assert (front + back)[..|front + back| - 1] == front + back[..|back| - 1];
    }
  }

  /** From the volumes as they are listed, repeated or not, repair keeps what it keeps from each of them once. */
  lemma {:induction false} ListedAreScanned(critical: seq<Packet>, plan: seq<FileAllocation>, volumes: seq<Bytes>,
                                            first: nat, recovery: seq<RecoveryBlockData>, setId: Hash, blockSize: nat,
                                            md5: Md5, order: seq<nat>, n: nat)
    requires Passable(critical) && Sized(recovery, blockSize) && |volumes| == |plan|
    requires forall v :: 0 <= v < |plan| ==> InRange(plan[v], first, |recovery|)
    requires forall v :: 0 <= v < |plan| ==> volumes[v] == VolumeOf(critical, plan[v], first, recovery, setId, md5)
    requires n <= |plan| && InTurn(order, n) && forall i :: 0 <= i < |order| ==> order[i] < |volumes|
    ensures ScanAll(Listed(volumes, order)).Slices?
    ensures Deduplicated(ScanAll(Listed(volumes, order)).found)
      == Deduplicated(FoundUpTo(plan, n, first, recovery, setId))
    decreases |order|
  {
    hide ScanFrom, WrittenAll, Passable, HeldBy, Sized, SlicePackets, InRange, Deduplicated, AllKnown, FoundUpTo,
      FoundIn, ScanAll, InTurn, FoundOf;
    if order == [] {
      NothingListed(volumes, n);
      NoVolumes(plan, first, recovery, setId);
    } else {
      var (front, v) := (order[..|order| - 1], order[|order| - 1]);
      LastInTurn(order, n);
      ListedNext(volumes, order);
      FoundInVolume(critical, plan, v, volumes[v], first, recovery, setId, blockSize, md5);
      var (m, found) := (if v in front then n else v, FoundIn(plan, v, first, recovery, setId));
      ListedAreScanned(critical, plan, volumes, first, recovery, setId, blockSize, md5, front, m);
      var (before, once) := (ScanAll(Listed(volumes, front)).found, FoundUpTo(plan, m, first, recovery, setId));
      ScanNext(Listed(volumes, order), before, found);
      SameBefore(before, once, found);
      if v in front {
        VolumeKnown(plan, v, n, first, recovery, setId);
        RepeatsDropped(once, found);
      } else {
        OneMoreVolume(plan, v, first, recovery, setId);
      }
    }
  }

  lemma FoundInVolume(critical: seq<Packet>, plan: seq<FileAllocation>, v: nat, volume: Bytes, first: nat,
                      recovery: seq<RecoveryBlockData>, setId: Hash, blockSize: nat, md5: Md5)
    requires Passable(critical) && Sized(recovery, blockSize) && v < |plan| && InRange(plan[v], first, |recovery|)
    requires volume == VolumeOf(critical, plan[v], first, recovery, setId, md5)
    ensures ScanFrom(volume, 0) == Slices(FoundIn(plan, v, first, recovery, setId))
  {
    hide ScanFrom, WrittenAll, Passable, HeldBy, Sized, SlicePackets, InRange, FoundOf;
    HeldSized(plan[v], first, recovery, blockSize);
    VolumeIsScanned(critical, setId, HeldBy(plan[v], first, recovery), blockSize, md5);
  }

  lemma NothingListed(volumes: seq<Bytes>, n: nat)
    requires InTurn([], n)
    ensures n == 0 && ScanAll(Listed(volumes, [])) == Slices([])
  {
    assert 0 !in [];
  }

  lemma {:induction false} FewerKept(s: seq<FoundSlice>)
    ensures |Deduplicated(s)| <= |s|
    decreases |s|
  {
    hide SameSlice;
    if s != [] {
      FewerKept(s[..|s| - 1]);
    }
  }

  /** The index file holds no recovery slices. */
  lemma {:induction false} IndexAddsNothing(index: Bytes, volumes: seq<Bytes>)
    requires ScanFrom(index, 0) == Slices([])
    ensures ScanAll([index] + volumes) == ScanAll(volumes)
    decreases |volumes|
  {
    hide ScanFrom;
    var files := [index] + volumes;
    if volumes == [] {
      assert files[..0] == [];
    } else {
      IndexAddsNothing(index, volumes[..|volumes| - 1]);
      assert files[..|files| - 1] == [index] + volumes[..|volumes| - 1];
    }
  }

  lemma IndexIsScanned(critical: seq<Packet>, setId: Hash, blockSize: nat, md5: Md5)
    requires Passable(critical) && SliceLength(blockSize) < LittleEndian.Capacity(8)
    ensures ScanFrom(WrittenAll(critical, md5), 0) == Slices([])
  {
    hide ScanFrom, WrittenAll, Passable, LittleEndian.Capacity;
    VolumeIsScanned(critical, setId, [], blockSize, md5);
    NothingWritten(md5);
    assert SlicePackets(setId, []) == [] && FoundOf(setId, []) == [];
    assert WrittenAll(critical, md5) + [] == WrittenAll(critical, md5);
  }

  lemma SizedLength(recovery: seq<RecoveryBlockData>, blockSize: nat)
    requires Sized(recovery, blockSize)
    ensures SliceLength(blockSize) < LittleEndian.Capacity(8)
  {}

  /** The recovery blocks that were found, for a file that does not end early. */
  function BlocksFound(found: seq<FoundSlice>): (r: seq<RecoveryBlockData>)
    ensures |r| == |found|
    ensures forall i :: 0 <= i < |found| ==>
      r[i] == RecoveryBlockData(found[i].exponent, if found[i].data.Some? then found[i].data.value else [])
  {
    seq(|found|, i requires 0 <= i < |found| =>
      RecoveryBlockData(found[i].exponent, if found[i].data.Some? then found[i].data.value else []))
  }

  lemma DifferentFound(setId: Hash, blocks: seq<RecoveryBlockData>)
    requires forall i, j :: 0 <= i < j < |blocks| ==> blocks[i].exponent != blocks[j].exponent
    ensures Deduplicated(FoundOf(setId, blocks)) == FoundOf(setId, blocks)
    ensures BlocksFound(FoundOf(setId, blocks)) == blocks
  {
    AllDifferentKept(FoundOf(setId, blocks));
  }

  /**
   * Writes the index and the volumes and finds the recovery slices in them again: all of them, in order, exactly when
   * the plan has a place for each, whatever their length, and however often the volumes are listed.
   */
  method WriteThenLoad(scheme: Scheme, fileCount: nat, first: nat, recovery: seq<RecoveryBlockData>, setId: Hash,
                       critical: seq<Packet>, largestFileSize: nat, blockSize: nat, md5: Md5, order: seq<nat>)
    returns (loaded: seq<RecoveryBlockData>)
    requires scheme == Variable ==> fileCount < 32
    requires scheme == Limited ==>
      BottomFileCount(fileCount, |recovery|, LargestCount(largestFileSize, blockSize, |recovery|)) < 32
    requires Passable(critical) && Sized(recovery, blockSize) && InTurn(order, fileCount)
    requires forall i, j :: 0 <= i < j < |recovery| ==> recovery[i].exponent != recovery[j].exponent
    ensures loaded == recovery <==> PlacesAll(scheme, fileCount, |recovery|, largestFileSize, blockSize)
  {
    hide ScanFrom, WrittenAll, Passable, Held, Sized, SlicePackets, InRange, ScanAll, Deduplicated, PlacesAll,
      BottomFileCount, LargestCount, InTurn;
    var index, volumes;
    ghost var plan;
    index, volumes, plan :=
      WriteVolumes(scheme, fileCount, first, recovery, setId, critical, largestFileSize, blockSize, md5);
    ListedExist(order, fileCount);
    var files := Listed(volumes, order);
    ListedAreScanned(critical, plan, volumes, first, recovery, setId, blockSize, md5, order, fileCount);
    SizedLength(recovery, blockSize);
    IndexIsScanned(critical, setId, blockSize, md5);
    IndexAddsNothing(index, files);
    assert plan[..fileCount] == plan;
    ghost var held := Held(plan, first, recovery);
    FewerKept(FoundOf(setId, held));
    var scan;
    ghost var at, standIn;
    scan, at, standIn := LoadMetadata([index] + files);
    loaded := BlocksFound(scan.found);
    DifferentFound(setId, recovery);
  }

  lemma ListedExist(order: seq<nat>, n: nat)
    requires InTurn(order, n)
    ensures forall i :: 0 <= i < |order| ==> order[i] < n
  {}
}
