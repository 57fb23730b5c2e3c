/** From source files to a repaired file: create recovery blocks, store them, lose slices, and repair. */
module CreateAndRepair {
  import opened GaloisTable
  import opened Bases
  import opened SliceKernel
  import opened Encoder
  import opened CreateBackend
  import opened SourceBlocks
  import opened SourceHashing
  import opened StreamingCreate
  import opened BlockSize
  import opened RepairAssembly
  import opened RepairRun
  import opened RecoveryFiles
  import opened VolumeFiles
  import opened RecoveryMetadata
  import LittleEndian
  import PacketFormats

  /** The hash the creator records for what it hashed of a file; zeros if it hashed nothing. */
  function RecordedHash(hashed: Option<Bytes>, md5: PacketFormats.Md5): PacketFormats.Hash {
    match hashed
    case None => PacketFormats.ZeroHash()
    case Some(bytes) => md5(bytes)
  }

  /**
   * Creates recovery blocks and hashes the files in one pass, in chunks that the memory limit of the creator allows.
   * Without recovery blocks there is no pass, and nothing is hashed.
   */
  method CreateRecovery(files: seq<Bytes>, blockSize: nat, createLimit: nat, first: nat, count: nat)
    returns (created: seq<RecoveryBlockData>, hashed: seq<Option<Bytes>>)
    requires blockSize > 0 && blockSize % 4 == 0 && first + count <= COUNT
    ensures |created| == count
    ensures var total := Offset(files, blockSize, |files|);
      RecoveryOf(created, BasesOf(total), first, AllBlocks(files, blockSize, |files|), blockSize)
    ensures |hashed| == |files|
    ensures forall f :: 0 <= f < |files| ==>
      hashed[f] == Hashed(files[f], blockSize, Offset(files, blockSize, |files|), count, createLimit)
  {
    hide RecoveryBlock, AllBlocks, Offset, CutBase, Base, ChunkSizeFor, Interleaved;
    var total := Offset(files, blockSize, |files|);
    if count == 0 {
      created := [];
      hashed := seq(|files|, _ => None);
      return;
    }
    var t := BuildTables();
    var bases := GenerateBases(t, total);
    assert bases == BasesOf(total);
    ChunkSizeSound(blockSize, total, count, createLimit);
    var hashers;
    created, hashers :=
      EncodeAndHash(t, files, blockSize, ChunkSizeFor(blockSize, total, count, createLimit), bases, first, count);
    hashed := seq(|files|, f requires 0 <= f < |files| => Some(hashers.files[f]));
  }

  /** What repair of file `f` comes to after it was created under a memory limit. */
  ghost predicate CreatedAndRepaired(files: seq<Bytes>, blockSize: nat, createLimit: nat, first: nat, count: nat,
                                     f: nat, missing: seq<nat>, keys: seq<nat>, kept: seq<nat>,
                                     found: map<nat, Bytes>, memoryLimit: Option<nat>, md5: PacketFormats.Md5,
                                     r: RepairOutcome)
    requires blockSize >= 4 && f < |files| && forall c :: 0 <= c < |missing| ==>
      missing[c] < Offset(files, blockSize, |files|)
  {
    var hashed := Hashed(files[f], blockSize, Offset(files, blockSize, |files|), count, createLimit);
    && RepairedRight(files, blockSize, first, f, missing, keys, kept, found, memoryLimit, md5,
                     RecordedHash(hashed, md5), r)
    && (r.Finished? && HarmlessLimit(found, blockSize, memoryLimit)
        && HashRight(|files[f]|, blockSize, Offset(files, blockSize, |files|), count, createLimit) ==>
        r == Finished(Repaired(files[f])))
  }

  lemma RightHashVerifies(files: seq<Bytes>, blockSize: nat, createLimit: nat, first: nat, count: nat, f: nat,
                          missing: seq<nat>, keys: seq<nat>, kept: seq<nat>, found: map<nat, Bytes>,
                          memoryLimit: Option<nat>, md5: PacketFormats.Md5, r: RepairOutcome)
    requires blockSize >= 4 && f < |files| && forall c :: 0 <= c < |missing| ==>
      missing[c] < Offset(files, blockSize, |files|)
    requires var hashed := Hashed(files[f], blockSize, Offset(files, blockSize, |files|), count, createLimit);
      RepairedRight(files, blockSize, first, f, missing, keys, kept, found, memoryLimit, md5,
                    RecordedHash(hashed, md5), r)
    ensures CreatedAndRepaired(files, blockSize, createLimit, first, count, f, missing, keys, kept, found,
                               memoryLimit, md5, r)
  {
    hide Hashed, HarmlessLimit, Determined, Offset;
  }

  /** Repairs file `f` with the recovery blocks that were created, and the hash that was recorded. */
  method RepairCreated(files: seq<Bytes>, blockSize: nat, ghost createLimit: nat, ghost first: nat, ghost count: nat,
                       f: nat, s: Sources, missing: seq<nat>, keys: seq<nat>, kept: seq<nat>, found: map<nat, Bytes>,
                       memoryLimit: Option<nat>, md5: PacketFormats.Md5, created: seq<RecoveryBlockData>,
                       hashed: Option<Bytes>)
    returns (r: RepairOutcome)
    requires blockSize > 0 && blockSize % 4 == 0 && |created| == count
    requires RepairAsked(files, blockSize, first, count, f, s, missing, keys, kept, found) && f < |files|
    requires RecoveryOf(created, BasesOf(Offset(files, blockSize, |files|)), first,
                        AllBlocks(files, blockSize, |files|), blockSize)
    requires hashed == Hashed(files[f], blockSize, Offset(files, blockSize, |files|), count, createLimit)
    ensures forall c :: 0 <= c < |missing| ==> missing[c] < Offset(files, blockSize, |files|)
    ensures CreatedAndRepaired(files, blockSize, createLimit, first, count, f, missing, keys, kept, found,
                               memoryLimit, md5, r)
  {
    hide RepairAsked, AllBlocks, Offset, RecoveryOf, RepairedRight, CreatedAndRepaired, Hashed, CutBase;
    r := RepairFile(created, files, blockSize, Offset(files, blockSize, |files|), |files[f]|,
                    Offset(files, blockSize, f), first, f, s, found, missing, keys, kept, memoryLimit, md5,
                    RecordedHash(hashed, md5));
    RightHashVerifies(files, blockSize, createLimit, first, count, f, missing, keys, kept, found, memoryLimit, md5, r);
  }

  /**
   * Creates recovery blocks for all files, loses the missing slices and all recovery blocks but the kept ones, and
   * repairs file `f`.
   */
  method CreateThenRepair(files: seq<Bytes>, blockSize: nat, createLimit: nat, first: nat, count: nat, f: nat,
                          s: Sources, missing: seq<nat>, keys: seq<nat>, kept: seq<nat>, found: map<nat, Bytes>,
                          memoryLimit: Option<nat>, md5: PacketFormats.Md5)
    returns (r: RepairOutcome)
    requires blockSize > 0 && blockSize % 4 == 0
    requires RepairAsked(files, blockSize, first, count, f, s, missing, keys, kept, found)
    ensures forall c :: 0 <= c < |missing| ==> missing[c] < Offset(files, blockSize, |files|)
    ensures CreatedAndRepaired(files, blockSize, createLimit, first, count, f, missing, keys, kept, found,
                               memoryLimit, md5, r)
  {
    hide RepairAsked, AllBlocks, Offset, RecoveryOf, RepairedRight, CreatedAndRepaired, Hashed, CutBase;
    AskedMeans(files, blockSize, first, count, f, s, missing, keys, kept, found);
    var created, hashed := CreateRecovery(files, blockSize, createLimit, first, count);
    r := RepairCreated(files, blockSize, createLimit, first, count, f, s, missing, keys, kept, found, memoryLimit, md5,
                       created, hashed[f]);
  }

  // ----- by way of volume files

  lemma CreatedSized(created: seq<RecoveryBlockData>, bases: seq<bv16>, first: nat, blocks: seq<Bytes>, size: nat)
    requires |blocks| == |bases| && forall g :: 0 <= g < |blocks| ==> |blocks[g]| == size
    requires RecoveryOf(created, bases, first, blocks, size) && first + |created| <= COUNT
    requires SliceLength(size) < LittleEndian.Capacity(8)
    ensures Sized(created, size)
    ensures forall i, j :: 0 <= i < j < |created| ==> created[i].exponent != created[j].exponent
  {
    hide RecoveryBlock;
    PacketFormats.CapacityOfFour();
  }

  /** How recovery blocks are spread over volume files, and how these are listed when they are looked for. */
  datatype Layout = Layout(scheme: Scheme, fileCount: nat, largestFileSize: nat, setId: PacketFormats.Hash,
                           critical: seq<PacketFormats.Packet>, order: seq<nat>)

  /** The plan has a place for every block, and a packet length is a 64-bit number. */
  ghost predicate Storable(layout: Layout, count: nat, blockSize: nat) {
    && (layout.scheme == Variable ==> layout.fileCount < 32)
    && (layout.scheme == Limited ==>
         BottomFileCount(layout.fileCount, count, LargestCount(layout.largestFileSize, blockSize, count)) < 32)
    && PlacesAll(layout.scheme, layout.fileCount, count, layout.largestFileSize, blockSize)
    && SliceLength(blockSize) < LittleEndian.Capacity(8) && Passable(layout.critical)
    && InTurn(layout.order, layout.fileCount)
  }

  /** Writes the recovery blocks to volume files and finds them again. */
  method StoreAndLoad(layout: Layout, created: seq<RecoveryBlockData>, ghost bases: seq<bv16>, first: nat,
                      ghost blocks: seq<Bytes>, blockSize: nat, md5: PacketFormats.Md5)
    returns (loaded: seq<RecoveryBlockData>)
    requires |blocks| == |bases| && forall g :: 0 <= g < |blocks| ==> |blocks[g]| == blockSize
    requires RecoveryOf(created, bases, first, blocks, blockSize) && first + |created| <= COUNT
    requires Storable(layout, |created|, blockSize)
    ensures loaded == created
  {
    hide RecoveryOf, PlacesAll, BottomFileCount, LargestCount, Passable, Sized, SliceLength,
      LittleEndian.Capacity, InTurn;
    CreatedSized(created, bases, first, blocks, blockSize);
    loaded := WriteThenLoad(layout.scheme, layout.fileCount, first, created, layout.setId, layout.critical,
                            layout.largestFileSize, blockSize, md5, layout.order);
  }

  /** The same by way of bytes: the recovery blocks are written to volume files, and found in them again. */
  method CreateStoreRepair(files: seq<Bytes>, blockSize: nat, createLimit: nat, first: nat, count: nat, layout: Layout,
                           f: nat, s: Sources, missing: seq<nat>, keys: seq<nat>, kept: seq<nat>,
                           found: map<nat, Bytes>, memoryLimit: Option<nat>, md5: PacketFormats.Md5)
    returns (r: RepairOutcome)
    requires blockSize > 0 && blockSize % 4 == 0
    requires RepairAsked(files, blockSize, first, count, f, s, missing, keys, kept, found)
    requires Storable(layout, count, blockSize)
    ensures forall c :: 0 <= c < |missing| ==> missing[c] < Offset(files, blockSize, |files|)
    ensures CreatedAndRepaired(files, blockSize, createLimit, first, count, f, missing, keys, kept, found,
                               memoryLimit, md5, r)
  {
    hide RepairAsked, AllBlocks, Offset, RecoveryOf, RepairedRight, CreatedAndRepaired, Hashed, CutBase, Storable;
    AskedMeans(files, blockSize, first, count, f, s, missing, keys, kept, found);
    var created, hashed := CreateRecovery(files, blockSize, createLimit, first, count);
    ghost var bases := BasesOf(Offset(files, blockSize, |files|));
    var loaded := StoreAndLoad(layout, created, bases, first, AllBlocks(files, blockSize, |files|), blockSize, md5);
    r := RepairCreated(files, blockSize, createLimit, first, count, f, s, missing, keys, kept, found, memoryLimit, md5,
                       loaded, hashed[f]);
  }
}
