/** Finding packets in a byte stream: the parser that resynchronises on the next magic after damage. */
module PacketStream {
  import opened GaloisTable
  import opened SliceKernel
  import opened LittleEndian

  const MAGIC: Bytes := [0x50, 0x41, 0x52, 0x32, 0x00, 0x50, 0x4B, 0x54]
  const RECOVERY_TYPE: Bytes :=
    [0x50, 0x41, 0x52, 0x20, 0x32, 0x2E, 0x30, 0x00, 0x52, 0x65, 0x63, 0x76, 0x53, 0x6C, 0x69, 0x63]
  const MIN_PACKET_SIZE: nat := 64
  const MAX_PACKET_SIZE: nat := 104857600

  // ----- what the parser should find

  predicate MagicAt(data: Bytes, p: nat) {
    p + 8 <= |data| && data[p..p + 8] == MAGIC
  }

  /** The first position from `p` on where a magic starts. */
  function NextMagic(data: Bytes, p: nat): (r: Option<nat>)
    ensures r.None? ==> forall q: nat :: p <= q ==> !MagicAt(data, q)
    ensures r.Some? ==> p <= r.value && MagicAt(data, r.value) && forall q: nat :: p <= q < r.value ==>
      !MagicAt(data, q)
    decreases |data| - p
  {
    if p + 8 > |data| then None else if MagicAt(data, p) then Some(p) else NextMagic(data, p + 1)
  }

  function LengthAt(data: Bytes, p: nat): nat
    requires p + 64 <= |data|
  {
    LeValue(data[p + 8..p + 16])
  }

  predicate LengthValid(length: nat) { MIN_PACKET_SIZE <= length <= MAX_PACKET_SIZE }

  /**
   * The packets in the data from `p` on, as byte sequences. Without a magic the search moves on; a magic followed by
   * an impossible length, or by too few bytes, ends it.
   */
  function PacketsFrom(data: Bytes, p: nat): (r: seq<Bytes>)
    decreases |data| - p
  {
    if p + 64 > |data| then []
    else if !MagicAt(data, p) then
      var next := NextMagic(data, p + 1);
      if next.Some? then PacketsFrom(data, next.value) else []
    else
      var length := LengthAt(data, p);
      if !LengthValid(length) || p + length > |data| then []
      else [data[p..p + length]] + PacketsFrom(data, p + length)
  }

  /** Searching from the next magic finds what searching from here finds. */
  lemma FromNextMagic(data: Bytes, p: nat)
    requires p <= |data|
    ensures PacketsFrom(data, p) ==
      if NextMagic(data, p).Some? then PacketsFrom(data, NextMagic(data, p).value) else []
  {
    if p + 8 <= |data| && !MagicAt(data, p) {
      var next := NextMagic(data, p + 1);
      assert NextMagic(data, p) == next;
      if p + 64 > |data| && next.Some? {
        assert PacketsFrom(data, next.value) == [];
      }
    }
  }

  function TypeOf(packet: Bytes): Bytes
    requires |packet| >= 64
  {
    packet[48..64]
  }

  ghost predicate AllHeaders(packets: seq<Bytes>) {
    forall i :: 0 <= i < |packets| ==> |packets[i]| >= 64
  }

  lemma {:induction false} FoundHeaders(data: Bytes, p: nat)
    ensures AllHeaders(PacketsFrom(data, p))
    decreases |data| - p
  {
    if p + 64 <= |data| {
      if !MagicAt(data, p) {
        var next := NextMagic(data, p + 1);
        if next.Some? {
          FoundHeaders(data, next.value);
        }
      } else if LengthValid(LengthAt(data, p)) && p + LengthAt(data, p) <= |data| {
        FoundHeaders(data, p + LengthAt(data, p));
      }
    }
  }

  /** How packets are read once they are found: by type, and for recovery slices by validation. */
  datatype Reading<!T> = Reading(decode: (Bytes, Bytes) -> Option<T>, isRecovery: T -> bool, valid: Bytes -> bool)

  /** The decoded packets; recovery slices only when asked for. */
  function Decoded<T>(packets: seq<Bytes>, how: Reading<T>, withRecovery: bool): seq<T>
    requires AllHeaders(packets)
  {
    if packets == [] then []
    else
      (if !withRecovery && TypeOf(packets[0]) == RECOVERY_TYPE then []
       else
         var p := how.decode(TypeOf(packets[0]), packets[0]);
         if p.Some? then [p.value] else [])
      + Decoded(packets[1..], how, withRecovery)
  }

  /** The number of recovery slices: validated ones, or decoded ones when they are loaded. */
  function RecoveryCount<T>(packets: seq<Bytes>, how: Reading<T>, withRecovery: bool): nat
    requires AllHeaders(packets)
  {
    if packets == [] then 0
    else
      (if !withRecovery && TypeOf(packets[0]) == RECOVERY_TYPE then (if how.valid(packets[0]) then 1 else 0)
       else
         var p := how.decode(TypeOf(packets[0]), packets[0]);
         if p.Some? && how.isRecovery(p.value) then 1 else 0)
      + RecoveryCount(packets[1..], how, withRecovery)
  }

  // ----- the reader and the parser

  /** A reader over bytes. A read that fails has consumed what was left. */
  class Reader {
    const data: Bytes
    var pos: nat

    ghost predicate Valid()
      reads this
    {
      pos <= |data|
    }

    constructor (bytes: Bytes)
      ensures Valid() && data == bytes && pos == 0
    {
      data, pos := bytes, 0;
    }

    method ReadExact(n: nat) returns (r: Option<Bytes>)
      requires Valid()
      modifies this
      ensures Valid()
      ensures r.Some? <==> old(pos) + n <= |data|
      ensures r.Some? ==> r.value == data[old(pos)..old(pos) + n] && pos == old(pos) + n
      ensures r.None? ==> pos == |data|
    {
      if pos + n <= |data| {
        r := Some(data[pos..pos + n]);
        pos := pos + n;
      } else {
        r := None;
        pos := |data|;
      }
    }

    method SeekBack(n: nat)
      requires Valid() && n <= pos
      modifies this
      ensures Valid() && pos == old(pos) - n
    {
      pos := pos - n;
    }
  }

  datatype HeaderResult = Header(raw: Bytes, packetType: Bytes, length: nat) | Truncated | InvalidMagic | InvalidLength

  method ParseHeader(reader: Reader) returns (r: HeaderResult)
    requires reader.Valid()
    modifies reader
    ensures reader.Valid() && (r == Truncated <==> old(reader.pos) + 64 > |reader.data|)
    ensures r != Truncated ==> reader.pos == old(reader.pos) + 64
    ensures r == InvalidMagic ==> !MagicAt(reader.data, old(reader.pos))
    ensures r == InvalidLength ==>
      && MagicAt(reader.data, old(reader.pos))
      && !LengthValid(LengthAt(reader.data, old(reader.pos)))
      && !(64 <= LengthAt(reader.data, old(reader.pos)) <= 104857600)
    ensures r.Header? ==> MagicAt(reader.data, old(reader.pos)) && r.length == LengthAt(reader.data, old(reader.pos))
    ensures r.Header? ==>
      && 64 <= r.length <= 104857600 && LengthValid(r.length)
      && r.raw == reader.data[old(reader.pos)..reader.pos] && r.packetType == r.raw[48..64]
  {
    hide LeValue;
    var read := reader.ReadExact(64);
    if read.None? {
      return Truncated;
    }
    var header := read.value;
    SliceOfSlice(reader.data, old(reader.pos), 64, 0, 8);
    SliceOfSlice(reader.data, old(reader.pos), 64, 8, 16);
    if header[0..8] != MAGIC {
      return InvalidMagic;
    }
    var length := LeValue(header[8..16]);
    if !LengthValid(length) {
      return InvalidLength;
    }
    r := Header(header, header[48..64], length);
  }

  /** The rest of the packet after its header. */
  method ReadFullPacket(reader: Reader, header: HeaderResult) returns (r: Option<Bytes>)
    requires reader.Valid() && header.Header? && |header.raw| == 64 && LengthValid(header.length)
    requires reader.pos >= 64 && header.raw == reader.data[reader.pos - 64..reader.pos]
    modifies reader
    ensures reader.Valid()
    ensures var p: nat := old(reader.pos) - 64;
      && (r.Some? <==> p + header.length <= |reader.data|)
      && (r.Some? ==> r.value == reader.data[p..p + header.length] && reader.pos == p + header.length)
      && (r.None? ==> reader.pos == |reader.data|)
  {
    var body := reader.ReadExact(header.length - 64);
    if body.None? {
      return None;
    }
    r := Some(header.raw + body.value);
  }

  lemma WindowIsMagic(data: Bytes, p: nat)
    requires p + 8 <= |data|
    ensures MagicAt(data, p) <==> data[p..p + 8] == MAGIC
    ensures NextMagic(data, p) == if MagicAt(data, p) then Some(p) else NextMagic(data, p + 1)
  {}

  lemma TooShortForMagic(data: Bytes, p: nat)
    requires p + 8 > |data|
    ensures NextMagic(data, p).None?
  {}

  lemma WindowMoves(data: Bytes, p: nat, window: Bytes)
    requires p + 9 <= |data| && window == data[p..p + 8]
    ensures window[1..] + [data[p + 8]] == data[p + 1..p + 9] && data[p + 8..p + 9][0] == data[p + 8]
  {}

  /** A rolling window of eight bytes, moved on until it shows the magic; stops behind it. */
  method ScanForNextMagic(reader: Reader) returns (found: bool)
    requires reader.Valid()
    modifies reader
    ensures reader.Valid()
    ensures found <==> NextMagic(reader.data, old(reader.pos)).Some?
    ensures found ==> reader.pos == NextMagic(reader.data, old(reader.pos)).value + 8
  {
    hide MagicAt, NextMagic;
    ghost var start := reader.pos;
    var window := reader.ReadExact(8);
    if window.None? {
      TooShortForMagic(reader.data, start);
      return false;
    }
    var buffer := window.value;
    while true
      invariant reader.Valid() && reader.pos >= 8 && buffer == reader.data[reader.pos - 8..reader.pos]
      invariant NextMagic(reader.data, reader.pos - 8) == NextMagic(reader.data, old(reader.pos))
      decreases |reader.data| - reader.pos
    {
      WindowIsMagic(reader.data, reader.pos - 8);
      if buffer == MAGIC {
        return true;
      }
      var next := reader.ReadExact(1);
      if next.None? {
        TooShortForMagic(reader.data, |reader.data| - 7);
        return false;
      }
      WindowMoves(reader.data, reader.pos - 9, buffer);
      buffer := buffer[1..] + [next.value[0]];
    }
    found := false;
  }

  /** Moves to the next magic, if there is one. */
  method Resynchronise(reader: Reader) returns (found: bool)
    requires reader.Valid()
    modifies reader
    ensures reader.Valid()
    ensures found <==> NextMagic(reader.data, old(reader.pos)).Some?
    ensures found ==> reader.pos == NextMagic(reader.data, old(reader.pos)).value
  {
    found := ScanForNextMagic(reader);
    if found {
      reader.SeekBack(8);
    }
  }

  lemma FromOutOfRange(data: Bytes, p: nat)
    requires p + 64 > |data|
    ensures PacketsFrom(data, p) == []
  {}

  lemma FoundPacket(data: Bytes, p: nat)
    requires p + 64 <= |data| && MagicAt(data, p) && LengthValid(LengthAt(data, p))
    ensures var length := LengthAt(data, p);
      PacketsFrom(data, p) == if p + length <= |data| then [data[p..p + length]] + PacketsFrom(data, p + length) else []
  {}

  lemma DecodedFirst<T>(first: Bytes, rest: seq<Bytes>, how: Reading<T>, withRecovery: bool)
    requires |first| >= 64 && AllHeaders(rest)
    ensures AllHeaders([first] + rest)
    ensures Decoded([first] + rest, how, withRecovery)
      == Decoded([first], how, withRecovery) + Decoded(rest, how, withRecovery)
    ensures RecoveryCount([first] + rest, how, withRecovery)
      == RecoveryCount([first], how, withRecovery) + RecoveryCount(rest, how, withRecovery)
  {
    assert ([first] + rest)[1..] == rest;
    assert [first][1..] == [];
  }

  lemma NothingDecoded<T>(how: Reading<T>, withRecovery: bool)
    ensures Decoded([], how, withRecovery) == [] && RecoveryCount([], how, withRecovery) == 0
  {}

  lemma OneDecoded<T>(packet: Bytes, how: Reading<T>, withRecovery: bool)
    requires |packet| >= 64
    ensures var (skipped, p) := (!withRecovery && TypeOf(packet) == RECOVERY_TYPE, how.decode(TypeOf(packet), packet));
      && Decoded([packet], how, withRecovery) == (if !skipped && p.Some? then [p.value] else [])
      && RecoveryCount([packet], how, withRecovery)
        == if (if skipped then how.valid(packet) else p.Some? && how.isRecovery(p.value)) then 1 else 0
  {
    assert [packet][1..] == [];
  }

  lemma NoMagicHere(data: Bytes, p: nat)
    requires p + 64 <= |data| && !MagicAt(data, p)
    ensures PacketsFrom(data, p) ==
      if NextMagic(data, p + 1).Some? then PacketsFrom(data, NextMagic(data, p + 1).value) else []
  {}

  lemma StopsAtLength(data: Bytes, p: nat)
    requires p + 64 <= |data| && MagicAt(data, p) && !LengthValid(LengthAt(data, p))
    ensures PacketsFrom(data, p) == []
  {}

  lemma NoMagicAtEnd(data: Bytes)
    ensures NextMagic(data, |data|).None?
  {}

  lemma TypeFromHeader(data: Bytes, p: nat, length: nat)
    requires p + length <= |data| && length >= 64
    ensures data[p..p + 64][48..64] == TypeOf(data[p..p + length])
  {
    SliceOfSlice(data, p, 64, 48, 64);
    SliceOfSlice(data, p, length, 48, 64);
  }

  lemma SliceOfSlice(data: Bytes, p: nat, n: nat, i: nat, j: nat)
    requires p + n <= |data| && i <= j <= n
    ensures data[p..p + n][i..j] == data[p + i..p + j]
  {
    var (a, b) := (data[p..p + n][i..j], data[p + i..p + j]);
    assert |a| == |b|;
    forall k | 0 <= k < |a|
      ensures a[k] == b[k]
    {}
  }

  lemma LengthIsValid(length: nat)
    requires LengthValid(length)
    ensures length >= 64
  {}

  /** Decodes or validates one packet; after a recovery slice that fails validation, looks for the next magic. */
  method TakePacket<T(!new)>(reader: Reader, how: Reading<T>, withRecovery: bool, packetType: Bytes, packet: Bytes)
    returns (more: bool, decoded: seq<T>, counted: nat)
    requires reader.Valid() && |packet| >= 64 && packetType == TypeOf(packet)
    modifies reader
    ensures reader.Valid() && (more ==> reader.pos >= old(reader.pos))
    ensures decoded == Decoded([packet], how, withRecovery) && counted == RecoveryCount([packet], how, withRecovery)
    ensures more ==> PacketsFrom(reader.data, reader.pos) == PacketsFrom(reader.data, old(reader.pos))
    ensures !more ==> PacketsFrom(reader.data, old(reader.pos)) == []
  {
    hide MagicAt, NextMagic, PacketsFrom, Decoded, RecoveryCount;
    OneDecoded(packet, how, withRecovery);
    more, decoded, counted := true, [], 0;
    if !withRecovery && packetType == RECOVERY_TYPE {
      if how.valid(packet) {
        counted := 1;
      } else {
        FromNextMagic(reader.data, reader.pos);
        more := Resynchronise(reader);
      }
    } else {
      var p := how.decode(packetType, packet);
      if p.Some? {
        if how.isRecovery(p.value) {
          counted := 1;
        }
        decoded := [p.value];
      }
    }
  }

  /** What is decoded from `p` on is `decoded`, and then, if there is more, what is decoded from `q` on. */
  ghost predicate Progress<T(!new)>(data: Bytes, p: nat, q: nat, more: bool, decoded: seq<T>, counted: nat,
                                    how: Reading<T>, withRecovery: bool) {
    var (before, after) := (PacketsFrom(data, p), if more then PacketsFrom(data, q) else []);
    && AllHeaders(before) && AllHeaders(after)
    && Decoded(before, how, withRecovery) == decoded + Decoded(after, how, withRecovery)
    && RecoveryCount(before, how, withRecovery) == counted + RecoveryCount(after, how, withRecovery)
  }

  lemma NoProgress<T(!new)>(data: Bytes, p: nat, q: nat, more: bool, how: Reading<T>, withRecovery: bool)
    requires PacketsFrom(data, p) == if more then PacketsFrom(data, q) else []
    ensures Progress(data, p, q, more, [], 0, how, withRecovery)
  {
    FoundHeaders(data, p);
  }

  lemma TookPacket<T(!new)>(data: Bytes, p: nat, q: nat, more: bool, packet: Bytes, how: Reading<T>, withRecovery: bool)
    requires |packet| >= 64
    requires PacketsFrom(data, p) == [packet] + if more then PacketsFrom(data, q) else []
    ensures Progress(data, p, q, more, Decoded([packet], how, withRecovery), RecoveryCount([packet], how, withRecovery),
                     how, withRecovery)
  {
    hide PacketsFrom;
    FoundHeaders(data, p);
    FoundHeaders(data, q);
    DecodedFirst(packet, if more then PacketsFrom(data, q) else [], how, withRecovery);
  }

  /** One round of the parser. */
  method ParseRound<T(!new)>(reader: Reader, how: Reading<T>, withRecovery: bool)
    returns (more: bool, decoded: seq<T>, counted: nat)
    requires reader.Valid()
    modifies reader
    ensures reader.Valid() && (more ==> reader.pos > old(reader.pos))
    ensures Progress(reader.data, old(reader.pos), reader.pos, more, decoded, counted, how, withRecovery)
  {
    hide MagicAt, LengthAt, LengthValid, NextMagic, PacketsFrom, Decoded, RecoveryCount, Progress;
    more, decoded, counted := false, [], 0;
    ghost var start := reader.pos;
    var header := ParseHeader(reader);
    if header == Truncated {
      FromOutOfRange(reader.data, start);
    } else if header == InvalidMagic {
      NoMagicHere(reader.data, start);
      reader.SeekBack(63);
      more := Resynchronise(reader);
    } else if header == InvalidLength {
      StopsAtLength(reader.data, start);
    } else {
      FoundPacket(reader.data, start);
      LengthIsValid(header.length);
      var packet := ReadFullPacket(reader, header);
      if packet.None? {
        // The failed read has consumed the rest, so no magic can follow.
        NoMagicAtEnd(reader.data);
        more := Resynchronise(reader);
      } else {
        TypeFromHeader(reader.data, start, header.length);
        more, decoded, counted := TakePacket(reader, how, withRecovery, header.packetType, packet.value);
        TookPacket(reader.data, start, reader.pos, more, packet.value, how, withRecovery);
        return;
      }
    }
    NoProgress(reader.data, start, reader.pos, more, how, withRecovery);
  }

  /** Reads all packets of a stream. Every round moves the reader strictly forward. */
  method ParsePackets<T(!new)>(reader: Reader, how: Reading<T>, withRecovery: bool)
    returns (packets: seq<T>, recoveryCount: nat)
    requires reader.Valid()
    modifies reader
    ensures AllHeaders(PacketsFrom(reader.data, old(reader.pos)))
    ensures packets == Decoded(PacketsFrom(reader.data, old(reader.pos)), how, withRecovery)
    ensures recoveryCount == RecoveryCount(PacketsFrom(reader.data, old(reader.pos)), how, withRecovery)
  {
    hide PacketsFrom, Decoded, RecoveryCount;
    packets, recoveryCount := [], 0;
    FoundHeaders(reader.data, reader.pos);
    NothingDecoded(how, withRecovery);
    ghost var total := PacketsFrom(reader.data, reader.pos);
    while true
      invariant reader.Valid() && AllHeaders(PacketsFrom(reader.data, reader.pos))
      invariant packets + Decoded(PacketsFrom(reader.data, reader.pos), how, withRecovery)
        == Decoded(total, how, withRecovery)
      invariant recoveryCount + RecoveryCount(PacketsFrom(reader.data, reader.pos), how, withRecovery)
        == RecoveryCount(total, how, withRecovery)
      decreases |reader.data| - reader.pos
    {
      var more, decoded, counted := ParseRound(reader, how, withRecovery);
      packets, recoveryCount := packets + decoded, recoveryCount + counted;
      if !more {
        return;
      }
    }
  }

  // ----- streams of packets with damage between them

  ghost predicate WellFormed(packet: Bytes) {
    64 <= |packet| && MagicAt(packet, 0) && LengthValid(|packet|) && LengthAt(packet, 0) == |packet|
  }

  /** Bytes before each packet, and after the last. */
  datatype Gapped = Gapped(gap: Bytes, packet: Bytes)

  function Stream(items: seq<Gapped>, tail: Bytes): Bytes {
    if items == [] then tail else items[0].gap + items[0].packet + Stream(items[1..], tail)
  }

  function PacketsOf(items: seq<Gapped>): (r: seq<Bytes>)
    ensures |r| == |items| && forall i :: 0 <= i < |items| ==> r[i] == items[i].packet
  {
    seq(|items|, i requires 0 <= i < |items| => items[i].packet)
  }

  /** No magic starts in a gap, not even one that reaches into the packet behind it. */
  ghost predicate CleanGaps(items: seq<Gapped>, tail: Bytes)
    decreases |items|
  {
    var data := Stream(items, tail);
    if items == [] then forall q: nat :: q < |tail| ==> !MagicAt(tail, q)
    else
      && WellFormed(items[0].packet)
      && (forall q: nat :: q < |items[0].gap| ==> !MagicAt(data, q))
      && CleanGaps(items[1..], tail)
  }

  /** A window into the data behind an offset is a window into the rest. */
  lemma MagicAtShift(front: Bytes, rest: Bytes, p: nat)
    ensures MagicAt(front + rest, |front| + p) <==> MagicAt(rest, p)
  {
    if p + 8 <= |rest| {
      assert (front + rest)[|front| + p..|front| + p + 8] == rest[p..p + 8];
    }
  }

  lemma {:induction false} NextMagicShift(front: Bytes, rest: Bytes, p: nat)
    ensures NextMagic(front + rest, |front| + p)
      == if NextMagic(rest, p).Some? then Some(|front| + NextMagic(rest, p).value) else None
    decreases |rest| - p
  {
    hide MagicAt;
    MagicAtShift(front, rest, p);
    if p + 8 <= |rest| && !MagicAt(rest, p) {
      NextMagicShift(front, rest, p + 1);
    }
  }

  lemma PacketsAre(data: Bytes, p: nat)
    ensures PacketsFrom(data, p) ==
      if p + 64 > |data| then []
      else if !MagicAt(data, p) then
        (if NextMagic(data, p + 1).Some? then PacketsFrom(data, NextMagic(data, p + 1).value) else [])
      else if !LengthValid(LengthAt(data, p)) || p + LengthAt(data, p) > |data| then []
      else [data[p..p + LengthAt(data, p)]] + PacketsFrom(data, p + LengthAt(data, p))
  {
    hide MagicAt, LengthValid, LeValue, NextMagic;
  }

  /** The packets behind an offset do not depend on what is before it. */
  lemma {:induction false} PacketsShift(front: Bytes, rest: Bytes, p: nat)
    ensures PacketsFrom(front + rest, |front| + p) == PacketsFrom(rest, p)
    decreases |rest| - p
  {
    hide MagicAt, LengthValid, LeValue, NextMagic, PacketsFrom;
    var data := front + rest;
    MagicAtShift(front, rest, p);
    PacketsAre(data, |front| + p);
    PacketsAre(rest, p);
    if p + 64 <= |rest| {
      if !MagicAt(rest, p) {
        NextMagicShift(front, rest, p + 1);
        var next := NextMagic(rest, p + 1);
        if next.Some? {
          PacketsShift(front, rest, next.value);
        }
      } else {
        assert data[|front| + p + 8..|front| + p + 16] == rest[p + 8..p + 16];
        var length := LengthAt(rest, p);
        if LengthValid(length) && p + length <= |rest| {
          LengthIsValid(length);
          assert data[|front| + p..|front| + p + length] == rest[p..p + length];
          PacketsShift(front, rest, p + length);
        }
      }
    }
  }

  /** When no magic starts before `q`, searching from the start is searching from `q`. */
  lemma {:induction false} SkipGap(data: Bytes, p: nat, q: nat)
    requires p <= q <= |data| && forall i: nat :: p <= i < q ==> !MagicAt(data, i)
    ensures NextMagic(data, p) == NextMagic(data, q)
    decreases q - p
  {
    hide MagicAt;
    if p < q {
      SkipGap(data, p + 1, q);
    }
  }

  lemma PacketAtFront(packet: Bytes, rest: Bytes)
    requires WellFormed(packet)
    ensures PacketsFrom(packet + rest, 0) == [packet] + PacketsFrom(rest, 0)
  {
    hide LengthValid, LeValue;
    var data := packet + rest;
    LengthIsValid(|packet|);
    assert data[0..8] == packet[0..8];
    assert data[8..16] == packet[8..16];
    assert data[0..|packet|] == packet;
    PacketsShift(packet, rest, 0);
  }

  lemma NoPacketAtEnd(data: Bytes)
    ensures NextMagic(data, |data|).None?
  {}

  /**
   * Resynchronisation: from well-formed packets with bytes between them in which no magic starts, the parser gets
   * exactly those packets, in order.
   */
  lemma {:induction false} StreamIsParsed(items: seq<Gapped>, tail: Bytes)
    requires CleanGaps(items, tail)
    ensures PacketsFrom(Stream(items, tail), 0) == PacketsOf(items)
    decreases |items|
  {
    hide MagicAt, WellFormed, PacketsFrom, NextMagic;
    var data := Stream(items, tail);
    if items == [] {
      NoPacketAtEnd(tail);
      SkipGap(tail, 0, |tail|);
      FromNextMagic(tail, 0);
    } else {
      var (gap, packet, rest) := (items[0].gap, items[0].packet, Stream(items[1..], tail));
      StreamIsParsed(items[1..], tail);
      PacketAtFront(packet, rest);
      assert data == gap + (packet + rest);
      PacketsShift(gap, packet + rest, 0);
      SkipGap(data, 0, |gap|);
      FromNextMagic(data, 0);
      FromNextMagic(data, |gap|);
      assert PacketsOf(items) == [packet] + PacketsOf(items[1..]);
    }
  }

  /** A packet that is cut short ends the reading. */
  lemma CutPacketEndsReading(packet: Bytes, n: nat)
    requires WellFormed(packet) && n < |packet|
    ensures PacketsFrom(packet[..n], 0) == []
  {
    hide LeValue, LengthValid;
    var data := packet[..n];
    if n >= 64 {
      assert data[0..8] == packet[0..8] && data[8..16] == packet[8..16];
    }
  }

  /** The packets lie in the data one behind the other, `at` telling where. */
  ghost predicate InPlace(data: Bytes, p: nat, packets: seq<Bytes>, at: seq<nat>) {
    && |at| == |packets|
    && (forall i :: 0 <= i < |at| ==> p <= at[i] && at[i] + |packets[i]| <= |data|)
    && (forall i :: 0 <= i < |at| ==> packets[i] == data[at[i]..at[i] + |packets[i]|])
    && (forall i :: 0 < i < |at| ==> at[i - 1] + |packets[i - 1]| <= at[i])
  }

  /** Whatever the bytes are, only well-formed packets are found in them, and no two overlap. */
  lemma {:induction false} FoundInPlace(data: Bytes, p: nat) returns (at: seq<nat>)
    ensures InPlace(data, p, PacketsFrom(data, p), at)
    ensures forall i :: 0 <= i < |at| ==> WellFormed(PacketsFrom(data, p)[i])
    decreases |data| - p
  {
    hide MagicAt, LengthValid, LeValue, NextMagic, PacketsFrom, InPlace, WellFormed;
    PacketsAre(data, p);
    at := [];
    NothingInPlace(data, p);
    if p + 64 <= |data| {
      if !MagicAt(data, p) {
        var next := NextMagic(data, p + 1);
        if next.Some? {
          at := FoundInPlace(data, next.value);
          InPlaceFurther(data, p, next.value, PacketsFrom(data, next.value), at);
        }
      } else if LengthValid(LengthAt(data, p)) && p + LengthAt(data, p) <= |data| {
        var end := p + LengthAt(data, p);
        LengthIsValid(LengthAt(data, p));
        at := FoundInPlace(data, end);
        OneInPlace(data, p, end, PacketsFrom(data, end), at);
        at := [p] + at;
      }
    }
  }

  lemma NothingInPlace(data: Bytes, p: nat)
    ensures InPlace(data, p, [], [])
  {}

  lemma InPlaceFurther(data: Bytes, p: nat, q: nat, packets: seq<Bytes>, at: seq<nat>)
    requires p <= q && InPlace(data, q, packets, at)
    ensures InPlace(data, p, packets, at)
  {}

  lemma OneInPlace(data: Bytes, p: nat, end: nat, packets: seq<Bytes>, at: seq<nat>)
    requires p + 64 <= end <= |data| && MagicAt(data, p) && end == p + LengthAt(data, p) && LengthValid(end - p)
    requires InPlace(data, end, packets, at)
    ensures WellFormed(data[p..end]) && InPlace(data, p, [data[p..end]] + packets, [p] + at)
  {
    hide LeValue, LengthValid;
    SliceOfSlice(data, p, end - p, 0, 8);
    SliceOfSlice(data, p, end - p, 8, 16);
  }
}
