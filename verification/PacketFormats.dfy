/** The packets of a recovery set as bytes: writing with a computed MD5, reading, and verifying. */
module PacketFormats {
  import opened GaloisTable
  import opened SliceKernel
  import opened LittleEndian
  import opened PacketStream

  const MAIN_TYPE: Bytes :=
    [0x50, 0x41, 0x52, 0x20, 0x32, 0x2E, 0x30, 0x00, 0x4D, 0x61, 0x69, 0x6E, 0x00, 0x00, 0x00, 0x00]
  const CREATOR_TYPE: Bytes :=
    [0x50, 0x41, 0x52, 0x20, 0x32, 0x2E, 0x30, 0x00, 0x43, 0x72, 0x65, 0x61, 0x74, 0x6F, 0x72, 0x00]
  const DESCRIPTION_TYPE: Bytes :=
    [0x50, 0x41, 0x52, 0x20, 0x32, 0x2E, 0x30, 0x00, 0x46, 0x69, 0x6C, 0x65, 0x44, 0x65, 0x73, 0x63]
  const CHECKSUM_TYPE: Bytes :=
    [0x50, 0x41, 0x52, 0x20, 0x32, 0x2E, 0x30, 0x00, 0x49, 0x46, 0x53, 0x43, 0x00, 0x00, 0x00, 0x00]

  type Hash = s: Bytes | |s| == 16 witness seq(16, _ => 0)

  /** MD5, about which nothing is assumed. */
  type Md5 = Bytes -> Hash

  datatype SliceChecksum = SliceChecksum(md5: Hash, crc: nat)

  datatype Packet =
    | Main(length: nat, md5: Hash, setId: Hash, sliceSize: nat, fileCount: nat, fileIds: seq<Hash>, otherIds: seq<Hash>)
    | Creator(length: nat, md5: Hash, setId: Hash, info: Bytes)
    | Description(length: nat, md5: Hash, setId: Hash, fileId: Hash, hash: Hash, hash16k: Hash, fileLength: nat,
                  name: Bytes)
    | Checksums(length: nat, md5: Hash, setId: Hash, fileId: Hash, sums: seq<SliceChecksum>)
    | RecoverySlice(length: nat, md5: Hash, setId: Hash, exponent: nat, data: Bytes)

  // ----- lists of fixed-width records

  function Concat(parts: seq<Bytes>): Bytes {
    if parts == [] then [] else parts[0] + Concat(parts[1..])
  }

  /** The first `n` records of `width` bytes. */
  function Split(s: Bytes, n: nat, width: nat): (r: seq<Bytes>)
    requires n * width <= |s|
    ensures |r| == n && forall i :: 0 <= i < n ==> |r[i]| == width
    decreases n
  {
    if n == 0 then []
    else
      FirstRecord(n, width);
      [s[..width]] + Split(s[width..], n - 1, width)
  }

  lemma FirstRecord(n: nat, width: nat)
    requires n > 0
    ensures n * width == width + (n - 1) * width && (n - 1) * width >= 0
  {}

  lemma {:induction false} SplitConcat(parts: seq<Bytes>, width: nat, tail: Bytes)
    requires forall i :: 0 <= i < |parts| ==> |parts[i]| == width
    ensures |Concat(parts)| == |parts| * width
    ensures Split(Concat(parts) + tail, |parts|, width) == parts
    decreases |parts|
  {
    hide Concat, Split;
    if parts == [] {
      NothingToSplit(tail, width);
    } else {
      var (rest, s) := (Concat(parts[1..]) + tail, Concat(parts) + tail);
      SplitConcat(parts[1..], width, tail);
      FirstRecord(|parts|, width);
      ConcatFirst(parts);
      assert s == parts[0] + rest && s[..width] == parts[0] && s[width..] == rest;
      SplitFirst(s, |parts|, width);
    }
  }

  lemma NothingToSplit(s: Bytes, width: nat)
    ensures 0 * width == 0 && Concat([]) == [] && Split(s, 0, width) == []
  {}

  lemma ConcatFirst(parts: seq<Bytes>)
    requires parts != []
    ensures Concat(parts) == parts[0] + Concat(parts[1..])
  {}

  lemma SplitFirst(s: Bytes, n: nat, width: nat)
    requires n > 0 && n * width <= |s|
    ensures width <= |s| && (n - 1) * width <= |s| - width
    ensures Split(s, n, width) == [s[..width]] + Split(s[width..], n - 1, width)
  {
    FirstRecord(n, width);
  }

  /** Record `i` is `width` bytes from byte i * width on. */
  lemma {:induction false} ConcatAt(parts: seq<Bytes>, width: nat, i: nat)
    requires i < |parts| && forall j :: 0 <= j < |parts| ==> |parts[j]| == width
    ensures 0 <= i * width && i * width + width <= |Concat(parts)|
    ensures Concat(parts)[i * width..i * width + width] == parts[i]
    decreases |parts|
  {
    hide Concat;
    var rest := parts[1..];
    ConcatFirst(parts);
    if i == 0 {
      assert 0 * width == 0;
    } else {
      ConcatAt(rest, width, i - 1);
      FirstRecord(i, width);
      var at := (i - 1) * width;
      assert Concat(parts)[width + at..width + at + width] == Concat(rest)[at..at + width];
    }
  }

  lemma {:induction false} ConcatAppend(a: seq<Bytes>, b: seq<Bytes>)
    ensures Concat(a + b) == Concat(a) + Concat(b)
    decreases |a|
  {
    if a == [] {
      assert a + b == b;
    } else {
      ConcatAppend(a[1..], b);
      assert (a + b)[1..] == a[1..] + b;
    }
  }

  function ChecksumRecord(c: SliceChecksum): (r: Bytes)
    ensures |r| == 20
  {
    c.md5 + LeBytes(c.crc, 4)
  }

  function ChecksumRecords(sums: seq<SliceChecksum>): (r: seq<Bytes>)
    ensures |r| == |sums| && forall i :: 0 <= i < |sums| ==> r[i] == ChecksumRecord(sums[i])
  {
    seq(|sums|, i requires 0 <= i < |sums| => ChecksumRecord(sums[i]))
  }

  function ParseChecksum(record: Bytes): SliceChecksum
    requires |record| == 20
  {
    SliceChecksum(record[0..16], LeValue(record[16..20]))
  }

  function ParseChecksums(records: seq<Bytes>): (r: seq<SliceChecksum>)
    requires forall i :: 0 <= i < |records| ==> |records[i]| == 20
    ensures |r| == |records| && forall i :: 0 <= i < |records| ==> r[i] == ParseChecksum(records[i])
  {
    seq(|records|, i requires 0 <= i < |records| => ParseChecksum(records[i]))
  }

  function Hashes(parts: seq<Bytes>): (r: seq<Hash>)
    requires forall i :: 0 <= i < |parts| ==> |parts[i]| == 16
    ensures |r| == |parts| && forall i :: 0 <= i < |parts| ==> r[i] == parts[i]
  {
    seq(|parts|, i requires 0 <= i < |parts| => parts[i])
  }

  // ----- writing

  function TypeCode(p: Packet): (r: Bytes)
    ensures |r| == 16
  {
    match p
    case Main(_, _, _, _, _, _, _) => MAIN_TYPE
    case Creator(_, _, _, _) => CREATOR_TYPE
    case Description(_, _, _, _, _, _, _, _) => DESCRIPTION_TYPE
    case Checksums(_, _, _, _, _) => CHECKSUM_TYPE
    case RecoverySlice(_, _, _, _, _) => RECOVERY_TYPE
  }

  function Body(p: Packet): Bytes {
    match p
    case Main(_, _, _, sliceSize, fileCount, fileIds, otherIds) =>
      LeBytes(sliceSize, 8) + LeBytes(fileCount, 4) + Concat(fileIds) + Concat(otherIds)
    case Creator(_, _, _, info) => info
    case Description(_, _, _, fileId, hash, hash16k, fileLength, name) =>
      fileId + hash + hash16k + LeBytes(fileLength, 8) + name
    case Checksums(_, _, _, fileId, sums) => fileId + Concat(ChecksumRecords(sums))
    case RecoverySlice(_, _, _, exponent, data) => LeBytes(exponent, 4) + data
  }

  function Framed(length: nat, md5: Hash, setId: Hash, typeCode: Bytes, body: Bytes): (r: Bytes)
    requires |typeCode| == 16
    ensures |r| == 64 + |body|
  {
    MAGIC + LeBytes(length, 8) + md5 + setId + typeCode + body
  }

  /** The packet with whatever MD5 it holds. */
  function Serialized(p: Packet): Bytes {
    Framed(p.length, p.md5, p.setId, TypeCode(p), Body(p))
  }

  /** Puts the MD5 of everything behind it into its field. */
  function Finalized(bytes: Bytes, md5: Md5): Bytes
    requires |bytes| >= 32
  {
    bytes[..16] + md5(bytes[32..]) + bytes[32..]
  }

  function Written(p: Packet, md5: Md5): Bytes {
    Finalized(Serialized(p), md5)
  }

  /** What the MD5 is taken of. */
  function Hashed(p: Packet): Bytes { p.setId + TypeCode(p) + Body(p) }

  // ----- reading

  /** Reads a packet of a given type from its bytes; none if the bytes run out. */
  function ParseBody(typeCode: Bytes, data: Bytes): Option<Packet> {
    if |data| < 64 then None
    else
      var (length, md5, setId, body) := (LeValue(data[8..16]), data[16..32], data[32..48], data[64..]);
      if typeCode == MAIN_TYPE then ParseMain(length, md5, setId, body)
      else if typeCode == DESCRIPTION_TYPE then ParseDescription(length, md5, setId, data[48..64], body)
      else if typeCode == RECOVERY_TYPE then ParseRecoverySlice(length, md5, setId, body)
      else if typeCode == CREATOR_TYPE then ParseCreator(length, md5, setId, body)
      else if typeCode == CHECKSUM_TYPE then ParseChecksumPacket(length, md5, setId, body)
      else None
  }

  function ParseMain(length: nat, md5: Hash, setId: Hash, body: Bytes): Option<Packet> {
    if |body| < 12 || length < 72 then None
    else
      var n := (length - 72) / 16;
      if |body| < 12 + n * 16 then None
      else
        var others := (length - 72 - n * 16) / 16;
        if |body| < 12 + n * 16 + others * 16 then None
        else Some(Main(length, md5, setId, LeValue(body[0..8]), LeValue(body[8..12]),
                       Hashes(Split(body[12..], n, 16)), Hashes(Split(body[12 + n * 16..], others, 16))))
  }

  function ParseCreator(length: nat, md5: Hash, setId: Hash, body: Bytes): Option<Packet> {
    if length < 64 || |body| < length - 64 then None else Some(Creator(length, md5, setId, body[..length - 64]))
  }

  function ParseDescription(length: nat, md5: Hash, setId: Hash, typeCode: Bytes, body: Bytes): Option<Packet> {
    var count := if length < 120 then 0 else length - 120;
    if typeCode != DESCRIPTION_TYPE || |body| < 56 + count then None
    else Some(Description(length, md5, setId, body[0..16], body[16..32], body[32..48], LeValue(body[48..56]),
                          body[56..56 + count]))
  }

  function ParseChecksumPacket(length: nat, md5: Hash, setId: Hash, body: Bytes): Option<Packet> {
    if |body| < 16 || length < 80 then None
    else
      var n := (length - 80) / 20;
      if |body| < 16 + n * 20 then None
      else Some(Checksums(length, md5, setId, body[0..16], ParseChecksums(Split(body[16..], n, 20))))
  }

  function ParseRecoverySlice(length: nat, md5: Hash, setId: Hash, body: Bytes): Option<Packet> {
    if length < 68 || |body| < length - 64 then None
    else Some(RecoverySlice(length, md5, setId, LeValue(body[0..4]), body[4..length - 64]))
  }

  /** Every field fits its width, and the length is that of the packet. */
  ghost predicate Fits(p: Packet) {
    && p.length == 64 + |Body(p)| < Capacity(8)
    && match p
       case Main(_, _, _, sliceSize, fileCount, _, _) => sliceSize < Capacity(8) && fileCount < Capacity(4)
       case Creator(_, _, _, _) => true
       case Description(_, _, _, _, _, _, fileLength, _) => fileLength < Capacity(8)
       case Checksums(_, _, _, _, sums) => forall i :: 0 <= i < |sums| ==> sums[i].crc < Capacity(4)
       case RecoverySlice(_, _, _, exponent, _) => exponent < Capacity(4)
  }

  function Verify(p: Packet, md5: Md5): bool {
    p.length >= (if p.Main? then 72 else if p.Description? then 120 else 64)
    && md5(Hashed(p)) == p.md5 && |Serialized(p)| == p.length
  }

  // ----- the frame

  lemma FramedFields(length: nat, md5: Hash, setId: Hash, typeCode: Bytes, body: Bytes)
    requires |typeCode| == 16 && length < Capacity(8)
    ensures var data := Framed(length, md5, setId, typeCode, body);
      && data[0..8] == MAGIC && LeValue(data[8..16]) == length && data[16..32] == md5 && data[32..48] == setId
      && data[48..64] == typeCode && data[64..] == body && data[32..] == setId + typeCode + body
  {
    hide LeBytes, LeValue;
    LeRoundTrip(length, 8);
    var data := Framed(length, md5, setId, typeCode, body);
    assert data[0..8] == MAGIC;
    assert data[8..16] == LeBytes(length, 8);
    assert data[16..32] == md5;
    assert data[32..48] == setId;
    assert data[48..64] == typeCode;
    assert data[64..] == body;
    assert data[32..] == setId + typeCode + body;
  }

  lemma FinalizedFrame(length: nat, md5: Hash, setId: Hash, typeCode: Bytes, body: Bytes, hash: Md5)
    requires |typeCode| == 16
    ensures Finalized(Framed(length, md5, setId, typeCode, body), hash)
      == Framed(length, hash(setId + typeCode + body), setId, typeCode, body)
  {
    hide LeBytes;
    var data := Framed(length, md5, setId, typeCode, body);
    assert data[32..] == setId + typeCode + body;
    assert data[..16] == MAGIC + LeBytes(length, 8);
  }

  // ----- round trips

  /** The packet with its MD5 filled in. */
  function Filled(p: Packet, md5: Md5): Packet { WithMd5(p, md5(Hashed(p))) }

  function WithMd5(p: Packet, h: Hash): Packet {
    match p
    case Main(length, _, setId, sliceSize, fileCount, fileIds, otherIds) =>
      Main(length, h, setId, sliceSize, fileCount, fileIds, otherIds)
    case Creator(length, _, setId, info) => Creator(length, h, setId, info)
    case Description(length, _, setId, fileId, hash, hash16k, size, name) =>
      Description(length, h, setId, fileId, hash, hash16k, size, name)
    case Checksums(length, _, setId, fileId, sums) => Checksums(length, h, setId, fileId, sums)
    case RecoverySlice(length, _, setId, exponent, data) => RecoverySlice(length, h, setId, exponent, data)
  }

  /** What a reader makes of a main packet: it cannot tell the two lists of ids apart. */
  function AsRead(p: Packet): Packet {
    if p.Main? then p.(fileIds := p.fileIds + p.otherIds, otherIds := []) else p
  }

  lemma WrittenIsFramed(p: Packet, md5: Md5)
    ensures Written(p, md5) == Framed(p.length, md5(Hashed(p)), p.setId, TypeCode(p), Body(p))
  {
    hide Body, TypeCode, Framed, Finalized;
    FinalizedFrame(p.length, p.md5, p.setId, TypeCode(p), Body(p), md5);
  }

  lemma MainBody(p: Packet, h: Hash)
    requires p.Main? && Fits(p)
    ensures ParseMain(p.length, h, p.setId, Body(p)) == Some(AsRead(WithMd5(p, h)))
  {
    hide LeBytes, LeValue, Concat, Split, Capacity;
    var (body, ids) := (Body(p), p.fileIds + p.otherIds);
    LeRoundTrip(p.sliceSize, 8);
    LeRoundTrip(p.fileCount, 4);
    ConcatAppend(p.fileIds, p.otherIds);
    SplitConcat(ids, 16, []);
    assert body == LeBytes(p.sliceSize, 8) + LeBytes(p.fileCount, 4) + Concat(ids);
    assert body[0..8] == LeBytes(p.sliceSize, 8) && body[8..12] == LeBytes(p.fileCount, 4);
    assert body[12..] == Concat(ids) + [];
    IdCount(|ids|, p.length);
    assert Hashes(Split(body[12..], |ids|, 16)) == ids;
  }

  /** The length gives all ids to the first list, and none to the second. */
  lemma IdCount(n: nat, length: nat)
    requires length == 76 + n * 16
    ensures (length - 72) / 16 == n && (length - 72 - n * 16) / 16 == 0
  {
    assert length - 72 == 16 * n + 4;
  }

  lemma CreatorBody(p: Packet, h: Hash)
    requires p.Creator? && Fits(p)
    ensures ParseCreator(p.length, h, p.setId, Body(p)) == Some(WithMd5(p, h))
  {
    assert Body(p)[..p.length - 64] == p.info;
  }

  lemma DescriptionBody(p: Packet, h: Hash)
    requires p.Description? && Fits(p)
    ensures ParseDescription(p.length, h, p.setId, DESCRIPTION_TYPE, Body(p)) == Some(WithMd5(p, h))
  {
    hide LeBytes, LeValue;
    LeRoundTrip(p.fileLength, 8);
    var body := Body(p);
    assert body[0..16] == p.fileId && body[16..32] == p.hash && body[32..48] == p.hash16k;
    assert body[48..56] == LeBytes(p.fileLength, 8);
    assert body[56..56 + (p.length - 120)] == p.name;
  }

  lemma RecoverySliceBody(p: Packet, h: Hash)
    requires p.RecoverySlice? && Fits(p)
    ensures ParseRecoverySlice(p.length, h, p.setId, Body(p)) == Some(WithMd5(p, h))
  {
    hide LeBytes, LeValue, Capacity;
    LeRoundTrip(p.exponent, 4);
    assert Body(p)[0..4] == LeBytes(p.exponent, 4) && Body(p)[4..p.length - 64] == p.data;
  }

  lemma ChecksumRoundTrip(c: SliceChecksum)
    requires c.crc < Capacity(4)
    ensures ParseChecksum(ChecksumRecord(c)) == c
  {
    hide LeBytes, LeValue, Capacity;
    LeRoundTrip(c.crc, 4);
    var record := ChecksumRecord(c);
    assert record[0..16] == c.md5 && record[16..20] == LeBytes(c.crc, 4);
  }

  lemma ChecksumsBody(p: Packet, h: Hash)
    requires p.Checksums? && Fits(p)
    ensures ParseChecksumPacket(p.length, h, p.setId, Body(p)) == Some(WithMd5(p, h))
  {
    hide LeBytes, LeValue, Concat, ParseChecksum, ChecksumRecord, Capacity;
    var (body, records) := (Body(p), ChecksumRecords(p.sums));
    SplitConcat(records, 20, []);
    assert body[0..16] == p.fileId && body[16..] == Concat(records) + [];
    assert (p.length - 80) / 20 == |p.sums|;
    forall i | 0 <= i < |p.sums|
      ensures ParseChecksum(records[i]) == p.sums[i]
    {
      ChecksumRoundTrip(p.sums[i]);
    }
    assert ParseChecksums(Split(body[16..], |p.sums|, 20)) == p.sums;
  }

  lemma BodyParses(p: Packet, md5: Md5)
    requires Fits(p)
    ensures ParseBody(TypeCode(p), Written(p, md5)) == Some(AsRead(Filled(p, md5)))
  {
    hide ParseMain, ParseCreator, ParseDescription, ParseChecksumPacket, ParseRecoverySlice, Framed, Body, LeValue,
      Written, Finalized;
    var h := md5(Hashed(p));
    WrittenIsFramed(p, md5);
    FramedFields(p.length, h, p.setId, TypeCode(p), Body(p));
    match p {
      case Main(_, _, _, _, _, _, _) => MainBody(p, h);
      case Creator(_, _, _, _) => CreatorBody(p, h);
      case Description(_, _, _, _, _, _, _, _) => DescriptionBody(p, h);
      case Checksums(_, _, _, _, _) => ChecksumsBody(p, h);
      case RecoverySlice(_, _, _, _, _) => RecoverySliceBody(p, h);
    }
  }

  /** A written packet is well-formed for the stream parser, and names its type. */
  lemma WrittenIsWellFormed(p: Packet, md5: Md5)
    requires Fits(p) && LengthValid(p.length)
    ensures WellFormed(Written(p, md5)) && TypeOf(Written(p, md5)) == TypeCode(p)
  {
    hide Framed, Body, LeValue, Written, Finalized, LengthValid;
    WrittenIsFramed(p, md5);
    FramedFields(p.length, md5(Hashed(p)), p.setId, TypeCode(p), Body(p));
    LengthIsValid(p.length);
  }

  /** A packet that was written reads back as itself with its MD5, exactly when it has no separate list of other ids. */
  lemma RoundTripExactly(p: Packet, md5: Md5)
    requires Fits(p)
    ensures ParseBody(TypeCode(p), Written(p, md5)) == Some(Filled(p, md5)) <==> (p.Main? ==> p.otherIds == [])
  {
    hide ParseBody, Written, Fits, Hashed;
    BodyParses(p, md5);
    if p.Main? && p.otherIds == [] {
      assert p.fileIds + p.otherIds == p.fileIds;
    }
  }

  /** What is read back passes verification. */
  lemma ReadBackVerifies(p: Packet, md5: Md5)
    requires Fits(p)
    ensures Verify(AsRead(Filled(p, md5)), md5)
  {
    hide LeBytes, Concat, Framed, Capacity;
    var read := AsRead(Filled(p, md5));
    if p.Main? {
      ConcatAppend(p.fileIds, p.otherIds);
      NothingToConcat();
      var front := LeBytes(p.sliceSize, 8) + LeBytes(p.fileCount, 4);
      assert front + (Concat(p.fileIds) + Concat(p.otherIds)) + [] == front + Concat(p.fileIds) + Concat(p.otherIds);
    }
    assert Body(read) == Body(p);
  }

  // ----- what verification accepts

  lemma {:induction false} ConcatSplit(s: Bytes, n: nat, width: nat)
    requires n * width <= |s|
    ensures Concat(Split(s, n, width)) == s[..n * width]
    decreases n
  {
    hide Concat, Split;
    if n == 0 {
      NothingToSplit(s, width);
    } else {
      FirstRecord(n, width);
      SplitFirst(s, n, width);
      ConcatSplit(s[width..], n - 1, width);
      ConcatFirst(Split(s, n, width));
      assert Split(s, n, width)[1..] == Split(s[width..], n - 1, width);
      assert s[..width] + s[width..][..(n - 1) * width] == s[..n * width];
    }
  }

  lemma FieldKept(body: Bytes, from: nat, to: nat)
    requires from <= to <= |body|
    ensures LeBytes(LeValue(body[from..to]), to - from) == body[from..to]
  {
    LeBytesOfValue(body[from..to]);
  }

  lemma RecordKept(record: Bytes)
    requires |record| == 20
    ensures ChecksumRecord(ParseChecksum(record)) == record
  {
    hide LeBytes, LeValue;
    FieldKept(record, 16, 20);
    assert record[0..16] + record[16..20] == record;
  }

  lemma MainKept(p: Packet, h: Hash, setId: Hash, body: Bytes)
    requires ParseMain(64 + |body|, h, setId, body) == Some(p)
    ensures Body(p) <= body
  {
    hide LeBytes, LeValue, Concat, Split;
    var n := |p.fileIds|;
    FieldKept(body, 0, 8);
    FieldKept(body, 8, 12);
    ConcatSplit(body[12..], n, 16);
    NothingToConcat();
    assert p.fileIds == Split(body[12..], n, 16) && p.otherIds == [];
    assert body[0..8] + body[8..12] + body[12..][..n * 16] + [] == body[..12 + n * 16];
  }

  lemma DescriptionKept(p: Packet, h: Hash, setId: Hash, body: Bytes)
    requires ParseDescription(64 + |body|, h, setId, DESCRIPTION_TYPE, body) == Some(p)
    ensures Body(p) <= body
  {
    hide LeBytes, LeValue;
    FieldKept(body, 48, 56);
    assert body[0..16] + body[16..32] + body[32..48] + body[48..56] + body[56..] == body;
  }

  lemma ChecksumsKept(p: Packet, h: Hash, setId: Hash, body: Bytes)
    requires ParseChecksumPacket(64 + |body|, h, setId, body) == Some(p)
    ensures Body(p) <= body
  {
    hide LeValue, Concat, Split, ChecksumRecord, ParseChecksum;
    var n := |p.sums|;
    var records := Split(body[16..], n, 20);
    ConcatSplit(body[16..], n, 20);
    forall i | 0 <= i < n
      ensures ChecksumRecords(p.sums)[i] == records[i]
    {
      RecordKept(records[i]);
    }
    assert ChecksumRecords(p.sums) == records;
    assert body[0..16] + body[16..][..n * 20] == body[..16 + n * 20];
  }

  lemma RecoverySliceKept(p: Packet, h: Hash, setId: Hash, body: Bytes)
    requires ParseRecoverySlice(64 + |body|, h, setId, body) == Some(p)
    ensures Body(p) <= body
  {
    hide LeBytes, LeValue;
    FieldKept(body, 0, 4);
    assert body[0..4] + body[4..] == body;
  }

  /** The body a packet was read from, up to bytes that the fields do not account for. */
  lemma BodyKept(p: Packet, data: Bytes)
    requires |data| >= 64 && LeValue(data[8..16]) == |data| && ParseBody(data[48..64], data) == Some(p)
    ensures Body(p) <= data[64..]
  {
    hide ParseMain, ParseDescription, ParseChecksumPacket, ParseRecoverySlice, LeValue, Body;
    var (h, setId, typeCode, body) := (data[16..32], data[32..48], data[48..64], data[64..]);
    assert |data| == 64 + |body|;
    if typeCode == MAIN_TYPE {
      MainKept(p, h, setId, body);
    } else if typeCode == DESCRIPTION_TYPE {
      DescriptionKept(p, h, setId, body);
    } else if typeCode == RECOVERY_TYPE {
      RecoverySliceKept(p, h, setId, body);
    } else if typeCode == CHECKSUM_TYPE {
      ChecksumsKept(p, h, setId, body);
    } else {
      CreatorKept(p, h, setId, body);
    }
  }

  lemma CreatorKept(p: Packet, h: Hash, setId: Hash, body: Bytes)
    requires ParseCreator(64 + |body|, h, setId, body) == Some(p)
    ensures Body(p) <= body
  {}

  /** What a reader fills in from the header. */
  lemma HeaderKept(p: Packet, data: Bytes)
    requires |data| >= 64 && ParseBody(data[48..64], data) == Some(p)
    ensures p.length == LeValue(data[8..16]) && p.md5 == data[16..32] && p.setId == data[32..48]
      && TypeCode(p) == data[48..64]
  {
    hide LeValue, Split, ParseChecksums, Hashes;
  }

  /**
   * Verification of a packet that was read accepts it exactly when its fields account for all of its bytes and the MD5
   * field holds the MD5 of the bytes behind it.
   */
  lemma VerifiesExactly(p: Packet, data: Bytes, md5: Md5)
    requires WellFormed(data) && ParseBody(TypeOf(data), data) == Some(p)
    ensures Verify(p, md5) <==> 64 + |Body(p)| == |data| && md5(data[32..]) == data[16..32]
    ensures Verify(p, md5) ==> Serialized(p) == data
  {
    hide ParseBody, Body, LeValue, LeBytes, TypeCode, LengthValid;
    HeaderKept(p, data);
    BodyKept(p, data);
    ShortestPackets(p, data);
    FieldKept(data, 8, 16);
    if 64 + |Body(p)| == |data| {
      assert Body(p) == data[64..];
      assert data[32..48] + data[48..64] + data[64..] == data[32..];
      assert data[0..8] + data[8..16] + data[16..32] + data[32..48] + data[48..64] + data[64..] == data;
    }
  }

  /**
   * A packet parses exactly when its bytes are enough for its type; those of a main packet must also leave room for
   * the number of files, which the length is divided by 16 without.
   */
  lemma ParsesExactly(data: Bytes)
    requires |data| >= 64 && LeValue(data[8..16]) == |data|
    ensures ParseBody(MAIN_TYPE, data).Some? <==> |data| >= 76 && (|data| - 72) % 16 >= 4
    ensures ParseBody(CREATOR_TYPE, data).Some?
    ensures ParseBody(DESCRIPTION_TYPE, data).Some? <==> |data| >= 120 && data[48..64] == DESCRIPTION_TYPE
    ensures ParseBody(CHECKSUM_TYPE, data).Some? <==> |data| >= 80
    ensures ParseBody(RECOVERY_TYPE, data).Some? <==> |data| >= 68
    ensures forall t: Bytes ::
      t !in [MAIN_TYPE, CREATOR_TYPE, DESCRIPTION_TYPE, CHECKSUM_TYPE, RECOVERY_TYPE] ==> ParseBody(t, data).None?
  {
    hide LeValue, Split, ParseChecksums, Hashes;
    TypesDiffer();
    if |data| >= 76 {
      RoomForIds(|data|);
    }
    if |data| >= 80 {
      assert |data| - 80 == 20 * ((|data| - 80) / 20) + (|data| - 80) % 20;
    }
  }

  lemma RoomForIds(length: nat)
    requires length >= 76
    ensures var n := (length - 72) / 16;
      (12 + n * 16 <= length - 64 <==> (length - 72) % 16 >= 4) && (length - 72 - n * 16) / 16 == 0
  {
    assert length - 72 == 16 * ((length - 72) / 16) + (length - 72) % 16;
  }

  lemma TypesDiffer()
    ensures MAIN_TYPE != CREATOR_TYPE && MAIN_TYPE != DESCRIPTION_TYPE && MAIN_TYPE != CHECKSUM_TYPE
    ensures MAIN_TYPE != RECOVERY_TYPE && CREATOR_TYPE != DESCRIPTION_TYPE && CREATOR_TYPE != CHECKSUM_TYPE
    ensures CREATOR_TYPE != RECOVERY_TYPE && DESCRIPTION_TYPE != CHECKSUM_TYPE && DESCRIPTION_TYPE != RECOVERY_TYPE
    ensures CHECKSUM_TYPE != RECOVERY_TYPE
  {
    assert MAIN_TYPE[8] == 0x4D && CREATOR_TYPE[8] == 0x43 && DESCRIPTION_TYPE[8] == 0x46;
    assert CHECKSUM_TYPE[8] == 0x49 && RECOVERY_TYPE[8] == 0x52;
  }

  /** A packet whose fields account for its bytes is as long as verification asks for. */
  lemma ShortestPackets(p: Packet, data: Bytes)
    requires |data| >= 64 && ParseBody(data[48..64], data) == Some(p) && LeValue(data[8..16]) == |data|
    ensures p.Main? ==> p.length >= 72
    ensures p.Description? ==> p.length >= 120
  {
    hide LeValue, Split, ParseChecksums, Hashes;
  }

  lemma NothingToConcat()
    ensures Concat([]) == []
  {}

  // ----- generating packets

  function ZeroHash(): (r: Hash)
    ensures forall i :: 0 <= i < 16 ==> r[i] == 0
  {
    seq(16, _ => 0)
  }

  function GenerateMain(setId: Hash, blockSize: nat, fileIds: seq<Hash>): Packet {
    Main(64 + 8 + 4 + |fileIds| * 16, ZeroHash(), setId, blockSize, |fileIds| % 0x1_0000_0000, fileIds, [])
  }

  function GenerateCreator(setId: Hash, info: Bytes): Packet {
    Creator(64 + |info|, ZeroHash(), setId, info)
  }

  /** The name, ended by a zero and padded with zeros to a multiple of four. */
  function PaddedName(name: Bytes): (r: Bytes)
    ensures |r| % 4 == 0 && |name| < |r| <= |name| + 4 && r[..|name|] == name
    ensures forall i :: |name| <= i < |r| ==> r[i] == 0
  {
    name + seq(4 - |name| % 4, _ => 0)
  }

  function GenerateDescription(setId: Hash, fileId: Hash, hash: Hash, hash16k: Hash, size: nat,
                               name: Bytes): Option<Packet> {
    if name == [] then None
    else
      var padded := PaddedName(name);
      Some(Description(64 + 16 + 16 + 16 + 8 + |padded|, ZeroHash(), setId, fileId, hash, hash16k, size, padded))
  }

  function GenerateChecksums(setId: Hash, fileId: Hash, sums: seq<SliceChecksum>): Packet {
    Checksums(64 + 16 + |sums| * 20, ZeroHash(), setId, fileId, sums)
  }

  /** The recovery slice packet, before its MD5 is known. */
  function GenerateRecoverySlice(setId: Hash, exponent: nat, data: Bytes): Packet {
    RecoverySlice(8 + 8 + 16 + 16 + 16 + 4 + |data|, ZeroHash(), setId, exponent, data)
  }

  /** The writer of recovery slices computes the MD5 first and writes field after field. */
  function WriteRecoverySlice(setId: Hash, exponent: nat, data: Bytes, md5: Md5): (r: Bytes)
    ensures r == Written(GenerateRecoverySlice(setId, exponent, data), md5)
  {
    var p := GenerateRecoverySlice(setId, exponent, data);
    WrittenIsFramed(p, md5);
    var computed := md5(setId + RECOVERY_TYPE + LeBytes(exponent, 4) + data);
    assert setId + RECOVERY_TYPE + LeBytes(exponent, 4) + data == Hashed(p);
    var r := MAGIC + LeBytes(8 + 8 + 16 + 16 + 16 + 4 + |data|, 8) + computed + setId + RECOVERY_TYPE
      + LeBytes(exponent, 4) + data;
    assert r == Framed(p.length, computed, setId, RECOVERY_TYPE, Body(p));
    r
  }

  /** A packet as the creator generates it. */
  ghost predicate Generated(p: Packet) {
    match p
    case Main(_, _, setId, sliceSize, _, fileIds, _) =>
      sliceSize < Capacity(8) && p == GenerateMain(setId, sliceSize, fileIds)
    case Creator(_, _, setId, info) => p == GenerateCreator(setId, info)
    case Description(_, _, setId, fileId, hash, hash16k, size, _) =>
      size < Capacity(8) && exists name :: Some(p) == GenerateDescription(setId, fileId, hash, hash16k, size, name)
    case Checksums(_, _, setId, fileId, sums) =>
      (forall i :: 0 <= i < |sums| ==> sums[i].crc < Capacity(4)) && p == GenerateChecksums(setId, fileId, sums)
    case RecoverySlice(_, _, setId, exponent, data) =>
      exponent < Capacity(4) && p == GenerateRecoverySlice(setId, exponent, data)
  }

  lemma CapacityOfFour()
    ensures Capacity(4) == 0x1_0000_0000
  {}

  /** Generated packets carry their own length. */
  lemma GeneratedFits(p: Packet)
    requires Generated(p) && p.length < Capacity(8)
    ensures Fits(p) && (p.Main? ==> p.otherIds == [])
  {
    hide Concat, Capacity, LeBytes;
    CapacityOfFour();
    NothingToConcat();
    match p {
      case Main(_, _, _, _, _, fileIds, _) => SplitConcat(fileIds, 16, []);
      case Checksums(_, _, _, _, sums) => SplitConcat(ChecksumRecords(sums), 20, []);
      case _ =>
    }
  }

  /** Generate, write, read: the packet comes back with its MD5 filled in, and verifies. */
  lemma GeneratedRoundTrip(p: Packet, md5: Md5)
    requires Generated(p) && p.length < Capacity(8)
    ensures ParseBody(TypeCode(p), Written(p, md5)) == Some(Filled(p, md5)) && Verify(Filled(p, md5), md5)
  {
    hide ParseBody, Written, Fits, Generated, Capacity, Verify, Hashed;
    GeneratedFits(p);
    BodyParses(p, md5);
    ReadBackVerifies(p, md5);
    if p.Main? {
      assert p.fileIds + p.otherIds == p.fileIds;
    }
  }

  /** The bytes of a packet: magic, length, the MD5 of everything behind it, set id, type, and then `body`. */
  ghost predicate LaidOut(bytes: Bytes, setId: Hash, typeCode: Bytes, body: Bytes, md5: Md5) {
    && |bytes| == 64 + |body| && |typeCode| == 16
    && bytes[0..8] == MAGIC && bytes[8..16] == LeBytes(|bytes|, 8) && bytes[16..32] == md5(bytes[32..])
    && bytes[32..48] == setId && bytes[48..64] == typeCode && bytes[64..] == body
  }

  lemma WrittenLaidOut(p: Packet, md5: Md5)
    requires Fits(p)
    ensures LaidOut(Written(p, md5), p.setId, TypeCode(p), Body(p), md5) && Written(p, md5)[32..] == Hashed(p)
  {
    hide LeBytes, LeValue, Written, Body, Capacity;
    var bytes := Written(p, md5);
    WrittenIsFramed(p, md5);
    FramedFields(p.length, md5(Hashed(p)), p.setId, TypeCode(p), Body(p));
    LengthOnly(p, md5);
    assert bytes[8..16] == LeBytes(p.length, 8);
  }

  lemma LengthOnly(p: Packet, md5: Md5)
    requires Fits(p)
    ensures p.length == 64 + |Body(p)| < Capacity(8)
  {}

  lemma GeneratedLaidOut(p: Packet, md5: Md5)
    requires Generated(p) && p.length < Capacity(8)
    ensures LaidOut(Written(p, md5), p.setId, TypeCode(p), Body(p), md5) && Written(p, md5)[32..] == Hashed(p)
    ensures ParseBody(TypeCode(p), Written(p, md5)) == Some(WithMd5(p, md5(Written(p, md5)[32..])))
  {
    hide ParseBody, Written, Fits, Generated, Capacity, LaidOut, Hashed, Body;
    GeneratedFits(p);
    GeneratedRoundTrip(p, md5);
    WrittenLaidOut(p, md5);
  }

  /** The main packet as bytes, and as it is read: block size and file ids. */
  lemma MainIsRead(setId: Hash, blockSize: nat, fileIds: seq<Hash>, md5: Md5)
    requires blockSize < Capacity(8) && 76 + |fileIds| * 16 < Capacity(8)
    ensures var bytes := Written(GenerateMain(setId, blockSize, fileIds), md5);
      && LaidOut(bytes, setId, MAIN_TYPE,
                 LeBytes(blockSize, 8) + LeBytes(|fileIds| % 0x1_0000_0000, 4) + Concat(fileIds), md5)
      && ParseBody(MAIN_TYPE, bytes)
         == Some(Main(|bytes|, md5(bytes[32..]), setId, blockSize, |fileIds| % 0x1_0000_0000, fileIds, []))
  {
    hide Capacity, Written, ParseBody, Concat, LeBytes, LaidOut;
    var p := GenerateMain(setId, blockSize, fileIds);
    GeneratedLaidOut(p, md5);
    GeneratedFits(p);
    NothingToConcat();
    LaidOutLength(Written(p, md5), setId, MAIN_TYPE, Body(p), md5);
    assert Body(p) == LeBytes(blockSize, 8) + LeBytes(|fileIds| % 0x1_0000_0000, 4) + Concat(fileIds);
  }

  lemma LaidOutLength(bytes: Bytes, setId: Hash, typeCode: Bytes, body: Bytes, md5: Md5)
    requires LaidOut(bytes, setId, typeCode, body, md5)
    ensures |bytes| == 64 + |body|
  {}

  /** The creator packet: its text. */
  lemma CreatorIsRead(setId: Hash, info: Bytes, md5: Md5)
    requires 64 + |info| < Capacity(8)
    ensures var bytes := Written(GenerateCreator(setId, info), md5);
      && LaidOut(bytes, setId, CREATOR_TYPE, info, md5)
      && ParseBody(CREATOR_TYPE, bytes) == Some(Creator(|bytes|, md5(bytes[32..]), setId, info))
  {
    hide Capacity, Written, ParseBody, LaidOut;
    GeneratedLaidOut(GenerateCreator(setId, info), md5);
    LaidOutLength(Written(GenerateCreator(setId, info), md5), setId, CREATOR_TYPE, info, md5);
  }

  /** The description of a file: its id, its MD5, the MD5 of its first 16 KiB, its size, and its padded name. */
  lemma DescriptionIsRead(setId: Hash, fileId: Hash, hash: Hash, hash16k: Hash, size: nat, name: Bytes, md5: Md5)
    requires size < Capacity(8) && 124 + |name| < Capacity(8)
    ensures GenerateDescription(setId, fileId, hash, hash16k, size, name).None? <==> name == []
    ensures name != [] ==>
      var bytes := Written(GenerateDescription(setId, fileId, hash, hash16k, size, name).value, md5);
      var padded := name + seq(4 - |name| % 4, _ => 0);
      && LaidOut(bytes, setId, DESCRIPTION_TYPE, fileId + hash + hash16k + LeBytes(size, 8) + padded, md5)
      && ParseBody(DESCRIPTION_TYPE, bytes)
         == Some(Description(|bytes|, md5(bytes[32..]), setId, fileId, hash, hash16k, size, padded))
  {
    hide Capacity, Written, ParseBody, LaidOut, LeBytes;
    if name != [] {
      var p := GenerateDescription(setId, fileId, hash, hash16k, size, name).value;
      assert Some(p) == GenerateDescription(setId, fileId, hash, hash16k, size, name);
      GeneratedLaidOut(p, md5);
      LaidOutLength(Written(p, md5), setId, DESCRIPTION_TYPE, Body(p), md5);
    }
  }

  /** The checksums of a file: its id, and MD5 and CRC of every block in order. */
  lemma ChecksumsAreRead(setId: Hash, fileId: Hash, sums: seq<SliceChecksum>, md5: Md5)
    requires (forall i :: 0 <= i < |sums| ==> sums[i].crc < Capacity(4)) && 80 + |sums| * 20 < Capacity(8)
    ensures var bytes := Written(GenerateChecksums(setId, fileId, sums), md5);
      && LaidOut(bytes, setId, CHECKSUM_TYPE,
                 fileId + Concat(seq(|sums|, i requires 0 <= i < |sums| => sums[i].md5 + LeBytes(sums[i].crc, 4))),
                 md5)
      && ParseBody(CHECKSUM_TYPE, bytes) == Some(Checksums(|bytes|, md5(bytes[32..]), setId, fileId, sums))
  {
    hide Capacity, Written, ParseBody, Concat, LeBytes, LaidOut;
    var p := GenerateChecksums(setId, fileId, sums);
    GeneratedLaidOut(p, md5);
    GeneratedFits(p);
    LaidOutLength(Written(p, md5), setId, CHECKSUM_TYPE, Body(p), md5);
    assert ChecksumRecords(sums)
      == seq(|sums|, i requires 0 <= i < |sums| => sums[i].md5 + LeBytes(sums[i].crc, 4));
  }

  /** A recovery slice: exponent and data. */
  lemma RecoverySliceIsRead(setId: Hash, exponent: nat, data: Bytes, md5: Md5)
    requires exponent < Capacity(4) && 68 + |data| < Capacity(8)
    ensures var bytes := WriteRecoverySlice(setId, exponent, data, md5);
      && LaidOut(bytes, setId, RECOVERY_TYPE, LeBytes(exponent, 4) + data, md5)
      && ParseBody(RECOVERY_TYPE, bytes) == Some(RecoverySlice(|bytes|, md5(bytes[32..]), setId, exponent, data))
  {
    hide Capacity, Written, ParseBody, LaidOut, LeBytes;
    var p := GenerateRecoverySlice(setId, exponent, data);
    GeneratedLaidOut(p, md5);
    LaidOutLength(Written(p, md5), setId, RECOVERY_TYPE, Body(p), md5);
  }

  // ----- streams of written packets

  ghost predicate AllWritten(items: seq<Gapped>, packets: seq<Packet>, md5: Md5) {
    && |items| == |packets|
    && forall i :: 0 <= i < |items| ==>
      Generated(packets[i]) && LengthValid(packets[i].length) && items[i].packet == Written(packets[i], md5)
  }

  /** The packets that are returned: recovery slices only when asked for. */
  function Returned(packets: seq<Packet>, md5: Md5, withRecovery: bool): seq<Packet> {
    if packets == [] then []
    else
      (if packets[0].RecoverySlice? && !withRecovery then [] else [Filled(packets[0], md5)])
      + Returned(packets[1..], md5, withRecovery)
  }

  function RecoverySlices(packets: seq<Packet>): nat {
    if packets == [] then 0 else (if packets[0].RecoverySlice? then 1 else 0) + RecoverySlices(packets[1..])
  }

  /** Recovery slices that are not loaded are still parsed and verified. */
  predicate ValidRecoverySlice(data: Bytes, md5: Md5) {
    var p := ParseBody(RECOVERY_TYPE, data);
    p.Some? && Verify(p.value, md5)
  }

  function PacketReading(md5: Md5): Reading<Packet> {
    Reading((t, data) => ParseBody(t, data), (p: Packet) => p.RecoverySlice?, data => ValidRecoverySlice(data, md5))
  }

  /**
   * A recovery slice that is not loaded is counted exactly when it parses and its MD5 is right; loaded, it is counted
   * and returned whenever it parses. Packets of other types are returned whenever they parse, and never counted.
   */
  lemma OnePacketRead(packet: Bytes, md5: Md5, withRecovery: bool)
    requires |packet| >= 64
    ensures var p := ParseBody(packet[48..64], packet);
      var loaded := packet[48..64] != RECOVERY_TYPE || withRecovery;
      && Decoded([packet], PacketReading(md5), withRecovery) == (if loaded && p.Some? then [p.value] else [])
      && RecoveryCount([packet], PacketReading(md5), withRecovery)
        == if packet[48..64] == RECOVERY_TYPE && p.Some? && (loaded || Verify(p.value, md5)) then 1 else 0
  {
    hide Verify, ParseMain, ParseCreator, ParseDescription, ParseChecksumPacket, ParseRecoverySlice;
    OneDecoded(packet, PacketReading(md5), withRecovery);
    var p := ParseBody(packet[48..64], packet);
    if p.Some? {
      HeaderKept(p.value, packet);
      RecoveryTypeExactly(p.value);
    }
  }

  lemma LengthFits(length: nat)
    requires LengthValid(length)
    ensures length < Capacity(8)
  {}

  lemma RecoveryTypeExactly(p: Packet)
    ensures TypeCode(p) == RECOVERY_TYPE <==> p.RecoverySlice?
  {
    TypesDiffer();
  }

  lemma OneWrittenDecodes(bytes: Bytes, p: Packet, md5: Md5, withRecovery: bool)
    requires Generated(p) && LengthValid(p.length) && bytes == Written(p, md5)
    ensures |bytes| >= 64
    ensures Decoded([bytes], PacketReading(md5), withRecovery) == Returned([p], md5, withRecovery)
    ensures RecoveryCount([bytes], PacketReading(md5), withRecovery) == RecoverySlices([p])
  {
    hide ParseBody, Written, Generated, LengthValid, Decoded, RecoveryCount, TypeOf, Verify, WellFormed, Fits, Hashed,
      TypeCode;
    LengthFits(p.length);
    GeneratedFits(p);
    WrittenIsWellFormed(p, md5);
    HeaderSize(bytes);
    GeneratedRoundTrip(p, md5);
    RecoveryTypeExactly(p);
    OneDecoded(bytes, PacketReading(md5), withRecovery);
    assert [p][1..] == [];
  }

  lemma ReturnedFirst(packets: seq<Packet>, md5: Md5, withRecovery: bool)
    requires packets != []
    ensures Returned(packets, md5, withRecovery)
      == Returned([packets[0]], md5, withRecovery) + Returned(packets[1..], md5, withRecovery)
    ensures RecoverySlices(packets) == RecoverySlices([packets[0]]) + RecoverySlices(packets[1..])
  {
    hide Filled;
    assert [packets[0]][1..] == [];
  }

  lemma {:induction false} WrittenDecode(items: seq<Gapped>, packets: seq<Packet>, md5: Md5, withRecovery: bool)
    requires AllWritten(items, packets, md5)
    ensures AllHeaders(PacketsOf(items))
    ensures Decoded(PacketsOf(items), PacketReading(md5), withRecovery) == Returned(packets, md5, withRecovery)
    ensures RecoveryCount(PacketsOf(items), PacketReading(md5), withRecovery) == RecoverySlices(packets)
    decreases |items|
  {
    hide PacketReading, Written, Generated, Returned, RecoverySlices, LengthValid, Decoded, RecoveryCount;
    if items == [] {
      NothingDecoded(PacketReading(md5), withRecovery);
      NothingReturned(md5, withRecovery);
      assert PacketsOf(items) == [] && packets == [];
    } else {
      var (bytes, rest) := (items[0].packet, PacketsOf(items[1..]));
      WrittenDecode(items[1..], packets[1..], md5, withRecovery);
      OneWrittenDecodes(bytes, packets[0], md5, withRecovery);
      DecodedFirst(bytes, rest, PacketReading(md5), withRecovery);
      ReturnedFirst(packets, md5, withRecovery);
      assert PacketsOf(items) == [bytes] + rest;
    }
  }

  lemma NothingReturned(md5: Md5, withRecovery: bool)
    ensures Returned([], md5, withRecovery) == [] && RecoverySlices([]) == 0
  {}

  lemma HeaderSize(packet: Bytes)
    requires WellFormed(packet)
    ensures |packet| >= 64
  {}

  /**
   * From generated packets written to a stream, with bytes between them in which no magic starts, the parser returns
   * the same packets with their MD5 filled in, in order, and counts the recovery slices whether it loads them or not.
   */
  method ReadWrittenStream(items: seq<Gapped>, tail: Bytes, ghost packets: seq<Packet>, md5: Md5, withRecovery: bool)
    returns (read: seq<Packet>, recoverySlices: nat)
    requires CleanGaps(items, tail) && AllWritten(items, packets, md5)
    ensures read == Returned(packets, md5, withRecovery) && recoverySlices == RecoverySlices(packets)
  {
    var reader := new Reader(Stream(items, tail));
    StreamIsParsed(items, tail);
    WrittenDecode(items, packets, md5, withRecovery);
    read, recoverySlices := ParsePackets(reader, PacketReading(md5), withRecovery);
  }
}
