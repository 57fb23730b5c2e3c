/** Volume files: critical packets and recovery slices written end to end, and what a reader gets back from them. */
module VolumeFiles {
  import opened SliceKernel
  import opened LittleEndian
  import opened PacketStream
  import opened PacketFormats
  import opened CreateBackend
  import opened RecoveryFiles

  // ----- packets end to end

  function WrittenAll(packets: seq<Packet>, md5: Md5): Bytes {
    if packets == [] then [] else Written(packets[0], md5) + WrittenAll(packets[1..], md5)
  }

  lemma {:induction false} WrittenJoin(a: seq<Packet>, b: seq<Packet>, md5: Md5)
    ensures WrittenAll(a + b, md5) == WrittenAll(a, md5) + WrittenAll(b, md5)
    decreases |a|
  {
    hide Written;
    if a == [] {
      assert a + b == b;
    } else {
      WrittenJoin(a[1..], b, md5);
      assert (a + b)[1..] == a[1..] + b;
    }
  }

  lemma WrittenOne(p: Packet, md5: Md5)
    ensures WrittenAll([p], md5) == Written(p, md5)
  {
    hide Written;
    assert WrittenAll([], md5) == [];
    assert Written(p, md5) + [] == Written(p, md5);
  }

  /** The packet of a recovery block. */
  function SlicePacket(setId: Hash, block: RecoveryBlockData): Packet {
    GenerateRecoverySlice(setId, block.exponent, block.data)
  }

  function SlicePackets(setId: Hash, blocks: seq<RecoveryBlockData>): (r: seq<Packet>)
    ensures |r| == |blocks| && forall i :: 0 <= i < |blocks| ==> r[i] == SlicePacket(setId, blocks[i])
  {
    seq(|blocks|, i requires 0 <= i < |blocks| => SlicePacket(setId, blocks[i]))
  }

  // ----- which blocks the files hold

  /** A file whose range is within that of the recovery blocks. */
  predicate InRange(a: FileAllocation, first: nat, total: nat) { first <= a.exponent && EndOf(a) <= first + total }

  function HeldBy(a: FileAllocation, first: nat, recovery: seq<RecoveryBlockData>): (r: seq<RecoveryBlockData>)
    requires InRange(a, first, |recovery|)
    ensures |r| == a.count
  {
    recovery[a.exponent - first..EndOf(a) - first]
  }

  /** The blocks of all files, one file after the other. */
  function Held(plan: seq<FileAllocation>, first: nat, recovery: seq<RecoveryBlockData>): (r: seq<RecoveryBlockData>)
    requires forall v :: 0 <= v < |plan| ==> InRange(plan[v], first, |recovery|)
    ensures |r| == TotalCount(plan)
  {
    if plan == [] then []
    else Held(plan[..|plan| - 1], first, recovery) + HeldBy(plan[|plan| - 1], first, recovery)
  }

  /** Files that tile the range hold every block once, in order. */
  lemma {:induction false} HeldIsAll(plan: seq<FileAllocation>, first: nat, recovery: seq<RecoveryBlockData>,
                                     total: nat)
    requires Tiles(plan, first, total) && total <= |recovery|
    requires forall v :: 0 <= v < |plan| ==> InRange(plan[v], first, |recovery|)
    ensures Held(plan, first, recovery) == recovery[..total]
    decreases |plan|
  {
    hide Tiles;
    if plan == [] {
      TilesTotal(plan, first, total);
    } else {
      TilesFront(plan, first, total);
      var before := plan[|plan| - 1].exponent - first;
      HeldIsAll(plan[..|plan| - 1], first, recovery, before);
      assert recovery[..before] + recovery[before..total] == recovery[..total];
    }
  }

  // ----- writing

  method WriteCritical(critical: seq<Packet>, md5: Md5) returns (bytes: Bytes)
    ensures bytes == WrittenAll(critical, md5)
  {
    hide Written;
    bytes := [];
    for i := 0 to |critical|
      invariant bytes == WrittenAll(critical[..i], md5)
    {
      WrittenJoin(critical[..i], [critical[i]], md5);
      WrittenOne(critical[i], md5);
      assert critical[..i + 1] == critical[..i] + [critical[i]];
      bytes := bytes + Written(critical[i], md5);
    }
    assert critical[..|critical|] == critical;
  }

  method WriteVolume(criticalBytes: Bytes, entry: FileAllocation, first: nat, recovery: seq<RecoveryBlockData>,
                     setId: Hash, md5: Md5)
    returns (bytes: Bytes)
    requires InRange(entry, first, |recovery|)
    ensures bytes == criticalBytes + WrittenAll(SlicePackets(setId, HeldBy(entry, first, recovery)), md5)
  {
    hide Written, WriteRecoverySlice;
    ghost var slices := SlicePackets(setId, HeldBy(entry, first, recovery));
    bytes := criticalBytes;
    for i := 0 to entry.count
      invariant bytes == criticalBytes + WrittenAll(slices[..i], md5)
    {
      var exponent := entry.exponent + i;
      var block := recovery[exponent - first];
      WrittenJoin(slices[..i], [slices[i]], md5);
      WrittenOne(slices[i], md5);
      assert slices[..i + 1] == slices[..i] + [slices[i]];
      bytes := bytes + WriteRecoverySlice(setId, block.exponent, block.data, md5);
    }
    assert slices[..entry.count] == slices;
  }

  /** The volume of one entry of the plan. */
  function VolumeOf(critical: seq<Packet>, entry: FileAllocation, first: nat, recovery: seq<RecoveryBlockData>,
                    setId: Hash, md5: Md5): Bytes
    requires InRange(entry, first, |recovery|)
  {
    WrittenAll(critical, md5) + WrittenAll(SlicePackets(setId, HeldBy(entry, first, recovery)), md5)
  }

  /** The index file and the volume files, with the plan they follow. */
  method WriteVolumes(scheme: Scheme, fileCount: nat, first: nat, recovery: seq<RecoveryBlockData>, setId: Hash,
                      critical: seq<Packet>, largestFileSize: nat, blockSize: nat, md5: Md5)
    returns (index: Bytes, volumes: seq<Bytes>, ghost plan: seq<FileAllocation>)
    requires scheme == Variable ==> fileCount < 32
    requires scheme == Limited ==>
      BottomFileCount(fileCount, |recovery|, LargestCount(largestFileSize, blockSize, |recovery|)) < 32
    ensures index == WrittenAll(critical, md5) && |volumes| == |plan| == fileCount
    ensures forall v :: 0 <= v < fileCount ==> InRange(plan[v], first, |recovery|)
    ensures forall v :: 0 <= v < fileCount ==> volumes[v] == VolumeOf(critical, plan[v], first, recovery, setId, md5)
    ensures fileCount > 0 ==>
      exists k :: FollowsScheme(plan, k, scheme, |recovery|, first, largestFileSize, blockSize)
    ensures Held(plan, first, recovery) == recovery
      <==> PlacesAll(scheme, fileCount, |recovery|, largestFileSize, blockSize)
    ensures Held(plan, first, recovery) != recovery ==> |Held(plan, first, recovery)| < |recovery|
  {
    hide WrittenAll, SlicePackets, HeldBy, Tiles, PlacesAll, BottomFileCount, LosesBlocks, FollowsScheme,
      LargestCount, Held;
    index := WriteCritical(critical, md5);
    var entries, indexEntry;
    ghost var k;
    entries, indexEntry, k :=
      AllocateRecoveryBlocks(scheme, fileCount, |recovery|, first, largestFileSize, blockSize);
    plan := entries;
    volumes := [];
    for v := 0 to fileCount
      invariant |volumes| == v
      invariant forall i :: 0 <= i < v ==> volumes[i] == VolumeOf(critical, plan[i], first, recovery, setId, md5)
    {
      var volume := WriteVolume(index, entries[v], first, recovery, setId, md5);
      volumes := volumes + [volume];
    }
    if PlacesAll(scheme, fileCount, |recovery|, largestFileSize, blockSize) {
      PlacedInOrder(scheme, fileCount, first, recovery, largestFileSize, blockSize, plan);
    }
  }

  lemma PlacedInOrder(scheme: Scheme, fileCount: nat, first: nat, recovery: seq<RecoveryBlockData>,
                      largestFileSize: nat, blockSize: nat, plan: seq<FileAllocation>)
    requires PlacesAll(scheme, fileCount, |recovery|, largestFileSize, blockSize)
    requires |plan| == fileCount && TotalCount(plan) == |recovery|
    requires forall v :: 0 <= v < fileCount ==> InRange(plan[v], first, |recovery|)
    requires fileCount > 0 && scheme != Limited ==> Tiles(plan, first, |recovery|)
    requires fileCount > 0 && scheme == Limited ==>
      (Tiles(plan, first, |recovery|)
       <==> !LosesBlocks(fileCount, |recovery|, LargestCount(largestFileSize, blockSize, |recovery|)))
    ensures Held(plan, first, recovery) == recovery
  {
    hide Tiles, LosesBlocks;
    if |recovery| > 0 {
      HeldIsAll(plan, first, recovery, |recovery|);
      assert recovery[..|recovery|] == recovery;
    } else {
      assert |Held(plan, first, recovery)| == 0;
    }
  }

  // ----- reading

  /** Packets as the creator generates them, of a length the parser accepts, none a recovery slice. */
  ghost predicate Critical(packets: seq<Packet>) {
    forall i :: 0 <= i < |packets| ==>
      Generated(packets[i]) && LengthValid(packets[i].length) && !packets[i].RecoverySlice?
  }

  ghost predicate Readable(packets: seq<Packet>) {
    forall i :: 0 <= i < |packets| ==> Generated(packets[i]) && LengthValid(packets[i].length)
  }

  function Ungapped(packets: seq<Packet>, md5: Md5): (r: seq<Gapped>)
    ensures |r| == |packets| && forall i :: 0 <= i < |packets| ==> r[i] == Gapped([], Written(packets[i], md5))
  {
    seq(|packets|, i requires 0 <= i < |packets| => Gapped([], Written(packets[i], md5)))
  }

  lemma UngappedFirst(packets: seq<Packet>, md5: Md5)
    requires packets != []
    ensures PacketsOf(Ungapped(packets, md5)) == [Written(packets[0], md5)] + PacketsOf(Ungapped(packets[1..], md5))
  {
    hide Written;
  }

  lemma FirstIsParsed(p: Packet, md5: Md5, rest: Bytes)
    requires Generated(p) && LengthValid(p.length)
    ensures PacketsFrom(Written(p, md5) + rest, 0) == [Written(p, md5)] + PacketsFrom(rest, 0)
  {
    hide Written, Generated, LengthValid, PacketsFrom, WellFormed, TypeOf, Fits;
    LengthFits(p.length);
    GeneratedFits(p);
    WrittenIsWellFormed(p, md5);
    PacketAtFront(Written(p, md5), rest);
  }

  lemma NothingWritten(md5: Md5)
    ensures WrittenAll([], md5) == []
  {}

  /** The parser gets the written packets, and then what it finds behind them. */
  lemma {:induction false} WrittenIsParsed(packets: seq<Packet>, md5: Md5, tail: Bytes)
    requires Readable(packets)
    ensures PacketsFrom(WrittenAll(packets, md5) + tail, 0) == PacketsOf(Ungapped(packets, md5)) + PacketsFrom(tail, 0)
    decreases |packets|
  {
    hide Written, WrittenAll, Generated, LengthValid, PacketsFrom;
    if packets == [] {
      NothingWritten(md5);
      assert [] + tail == tail;
    } else {
      var rest := WrittenAll(packets[1..], md5) + tail;
      WrittenIsParsed(packets[1..], md5, tail);
      FirstIsParsed(packets[0], md5, rest);
      UngappedFirst(packets, md5);
      FirstWritten(packets, md5);
      assert WrittenAll(packets, md5) + tail == Written(packets[0], md5) + rest;
    }
  }

  /** A packet whose length the parser does not accept ends the reading. */
  lemma TooLongEndsReading(p: Packet, md5: Md5, tail: Bytes)
    requires Fits(p) && !LengthValid(p.length)
    ensures PacketsFrom(Written(p, md5) + tail, 0) == []
  {
    hide Body, LeValue, Written, LengthValid, LeBytes;
    WrittenIsFramed(p, md5);
    FramedFields(p.length, md5(Hashed(p)), p.setId, TypeCode(p), Body(p));
    var data := Written(p, md5) + tail;
    assert data[0..8] == Written(p, md5)[0..8] && data[8..16] == Written(p, md5)[8..16];
    assert MagicAt(data, 0) && LengthAt(data, 0) == p.length;
  }

  /** The number of bytes of the packet of a recovery block. */
  function SliceLength(blockSize: nat): nat { 68 + blockSize }

  /** The recovery slices of a volume that the parser reads: all of them, or none because they are too long. */
  function ReadSlices(slices: seq<Packet>, blockSize: nat): seq<Packet> {
    if LengthValid(SliceLength(blockSize)) then slices else []
  }

  /** Blocks of the block size, with exponents of 32 bits. */
  predicate Sized(blocks: seq<RecoveryBlockData>, blockSize: nat) {
    && SliceLength(blockSize) < Capacity(8)
    && forall i :: 0 <= i < |blocks| ==> |blocks[i].data| == blockSize && blocks[i].exponent < Capacity(4)
  }

  lemma SlicesGenerated(setId: Hash, blocks: seq<RecoveryBlockData>, blockSize: nat)
    requires Sized(blocks, blockSize)
    ensures var slices := SlicePackets(setId, blocks);
      forall i :: 0 <= i < |slices| ==> Generated(slices[i]) && slices[i].length == SliceLength(blockSize)
  {
    hide Capacity;
  }

  lemma VolumeIsParsed(critical: seq<Packet>, setId: Hash, blocks: seq<RecoveryBlockData>, blockSize: nat, md5: Md5)
    requires Critical(critical) && Sized(blocks, blockSize)
    ensures var slices := SlicePackets(setId, blocks);
      PacketsFrom(WrittenAll(critical, md5) + WrittenAll(slices, md5), 0)
        == PacketsOf(Ungapped(critical + ReadSlices(slices, blockSize), md5))
    ensures Readable(critical + ReadSlices(SlicePackets(setId, blocks), blockSize))
  {
    hide Written, Generated, LengthValid, PacketsFrom, WrittenAll, Capacity;
    var slices := SlicePackets(setId, blocks);
    SlicesGenerated(setId, blocks, blockSize);
    NothingParsed();
    if LengthValid(SliceLength(blockSize)) || slices == [] {
      WrittenIsParsed(critical + slices, md5, []);
      WrittenJoin(critical, slices, md5);
      assert WrittenAll(critical + slices, md5) + [] == WrittenAll(critical, md5) + WrittenAll(slices, md5);
      assert ReadSlices(slices, blockSize) == slices;
    } else {
      GeneratedFits(slices[0]);
      TooLongEndsReading(slices[0], md5, WrittenAll(slices[1..], md5));
      FirstWritten(slices, md5);
      WrittenIsParsed(critical, md5, WrittenAll(slices, md5));
      assert critical + [] == critical;
    }
  }

  lemma FirstWritten(packets: seq<Packet>, md5: Md5)
    requires packets != []
    ensures WrittenAll(packets, md5) == Written(packets[0], md5) + WrittenAll(packets[1..], md5)
  {
    hide Written;
  }

  lemma NothingParsed()
    ensures PacketsFrom([], 0) == []
  {}

  /** The recovery blocks among packets that were read. */
  function Recovered(read: seq<Packet>): seq<RecoveryBlockData> {
    if read == [] then []
    else
      (if read[0].RecoverySlice? then [RecoveryBlockData(read[0].exponent, read[0].data)] else [])
      + Recovered(read[1..])
  }

  lemma {:induction false} RecoveredAfterCritical(critical: seq<Packet>, slices: seq<Packet>, md5: Md5)
    requires forall i :: 0 <= i < |critical| ==> !critical[i].RecoverySlice?
    ensures Recovered(Returned(critical + slices, md5, true)) == Recovered(Returned(slices, md5, true))
    decreases |critical|
  {
    hide Hashed;
    if critical == [] {
      assert critical + slices == slices;
    } else {
      RecoveredAfterCritical(critical[1..], slices, md5);
      var all := critical + slices;
      assert all[1..] == critical[1..] + slices;
      var returned := Returned(all, md5, true);
      assert returned[0] == Filled(all[0], md5) && returned[1..] == Returned(all[1..], md5, true);
    }
  }

  lemma {:induction false} RecoveredSlices(setId: Hash, blocks: seq<RecoveryBlockData>, md5: Md5)
    ensures Recovered(Returned(SlicePackets(setId, blocks), md5, true)) == blocks
    decreases |blocks|
  {
    hide Hashed;
    if blocks != [] {
      RecoveredSlices(setId, blocks[1..], md5);
      var slices := SlicePackets(setId, blocks);
      assert slices[1..] == SlicePackets(setId, blocks[1..]);
      var returned := Returned(slices, md5, true);
      assert returned[0] == Filled(slices[0], md5) && returned[1..] == Returned(slices[1..], md5, true);
      assert Recovered(returned) == [blocks[0]] + blocks[1..];
    }
  }

  /** Reading a volume gives its critical packets and, if the parser accepts their length, its recovery slices. */
  method ReadVolume(bytes: Bytes, ghost critical: seq<Packet>, ghost setId: Hash, ghost blocks: seq<RecoveryBlockData>,
                    ghost blockSize: nat, md5: Md5)
    returns (read: seq<Packet>)
    requires Critical(critical) && Sized(blocks, blockSize)
    requires bytes == WrittenAll(critical, md5) + WrittenAll(SlicePackets(setId, blocks), md5)
    ensures read == Returned(critical + ReadSlices(SlicePackets(setId, blocks), blockSize), md5, true)
    ensures Recovered(read) == if LengthValid(SliceLength(blockSize)) then blocks else []
  {
    hide Written, Generated, LengthValid, PacketsFrom, WrittenAll, Returned, RecoverySlices, PacketReading, Decoded,
      RecoveryCount, Recovered, Sized;
    ghost var slices := SlicePackets(setId, blocks);
    ghost var packets := critical + ReadSlices(slices, blockSize);
    var reader := new Reader(bytes);
    VolumeIsParsed(critical, setId, blocks, blockSize, md5);
    WrittenDecode(Ungapped(packets, md5), packets, md5, true);
    var counted;
    read, counted := ParsePackets(reader, PacketReading(md5), true);
    RecoveredAfterCritical(critical, ReadSlices(slices, blockSize), md5);
    RecoveredSlices(setId, blocks, md5);
    NothingRecovered(md5);
  }

  lemma NothingRecovered(md5: Md5)
    ensures Recovered(Returned([], md5, true)) == []
  {}

  /**
   * Writes the volumes and reads them all back, one after the other. The recovery blocks come back, once each and in
   * order, exactly when the plan has a place for each of them and the parser accepts the length of their packets.
   */
  method WriteThenRead(scheme: Scheme, fileCount: nat, first: nat, recovery: seq<RecoveryBlockData>, setId: Hash,
                       critical: seq<Packet>, largestFileSize: nat, blockSize: nat, md5: Md5)
    returns (read: seq<RecoveryBlockData>)
    requires scheme == Variable ==> fileCount < 32
    requires scheme == Limited ==>
      BottomFileCount(fileCount, |recovery|, LargestCount(largestFileSize, blockSize, |recovery|)) < 32
    requires Critical(critical) && Sized(recovery, blockSize)
    ensures read == recovery
      <==> recovery == [] || (LengthValid(SliceLength(blockSize))
                              && PlacesAll(scheme, fileCount, |recovery|, largestFileSize, blockSize))
    ensures !LengthValid(SliceLength(blockSize)) ==> read == []
  {
    hide WrittenAll, PlacesAll, BottomFileCount, LargestCount, LengthValid, Critical, Sized, SliceLength, Held, HeldBy,
      SlicePackets, Recovered, InRange;
    var index, volumes;
    ghost var plan;
    index, volumes, plan :=
      WriteVolumes(scheme, fileCount, first, recovery, setId, critical, largestFileSize, blockSize, md5);
    read := ReadVolumes(volumes, critical, plan, first, recovery, setId, blockSize, md5);
    NothingToPlace(scheme, fileCount, largestFileSize, blockSize);
  }

  /** Reads all volumes, one after the other. */
  method ReadVolumes(volumes: seq<Bytes>, ghost critical: seq<Packet>, ghost plan: seq<FileAllocation>,
                     ghost first: nat, ghost recovery: seq<RecoveryBlockData>, ghost setId: Hash, ghost blockSize: nat,
                     md5: Md5)
    returns (read: seq<RecoveryBlockData>)
    requires Critical(critical) && Sized(recovery, blockSize) && |volumes| == |plan|
    requires forall v :: 0 <= v < |plan| ==> InRange(plan[v], first, |recovery|)
    requires forall v :: 0 <= v < |plan| ==> volumes[v] == VolumeOf(critical, plan[v], first, recovery, setId, md5)
    ensures read == if LengthValid(SliceLength(blockSize)) then Held(plan, first, recovery) else []
  {
    hide WrittenAll, LengthValid, Critical, Sized, SliceLength, Held, HeldBy, SlicePackets, Recovered, InRange;
    ghost var accepted := LengthValid(SliceLength(blockSize));
    read := [];
    NothingHeld(first, recovery);
    for v := 0 to |volumes|
      invariant read == if accepted then Held(plan[..v], first, recovery) else []
    {
      HeldNext(plan, first, recovery, v);
      HeldSized(plan[v], first, recovery, blockSize);
      var packets := ReadVolume(volumes[v], critical, setId, HeldBy(plan[v], first, recovery), blockSize, md5);
      read := read + Recovered(packets);
    }
    assert plan[..|volumes|] == plan;
  }

  lemma NothingHeld(first: nat, recovery: seq<RecoveryBlockData>)
    ensures Held([], first, recovery) == []
  {}

  lemma HeldNext(plan: seq<FileAllocation>, first: nat, recovery: seq<RecoveryBlockData>, v: nat)
    requires v < |plan| && forall i :: 0 <= i < |plan| ==> InRange(plan[i], first, |recovery|)
    ensures Held(plan[..v + 1], first, recovery) == Held(plan[..v], first, recovery) + HeldBy(plan[v], first, recovery)
  {
    hide HeldBy;
    assert plan[..v + 1][..v] == plan[..v];
  }

  lemma HeldSized(a: FileAllocation, first: nat, recovery: seq<RecoveryBlockData>, blockSize: nat)
    requires Sized(recovery, blockSize) && InRange(a, first, |recovery|)
    ensures Sized(HeldBy(a, first, recovery), blockSize)
  {
    hide Capacity;
  }

  lemma NothingToPlace(scheme: Scheme, fileCount: nat, largestFileSize: nat, blockSize: nat)
    ensures PlacesAll(scheme, fileCount, 0, largestFileSize, blockSize)
  {}
}
