/** The rolling CRC-32: sliding a window by one byte gives the CRC-32 of the new window. */
module RollingCrc {
  import opened GaloisTable
  import opened SliceKernel
  import opened CrcField
  import opened CrcPowers

  const ALL_ONES: Residue := 0xFFFF_FFFF

  // ----- CRC-32 one byte at a time (section 8 of RFC 1952), without tables

  function OfByte(b: Byte): Residue { b as bv32 }

  /** Adds a byte and divides by the polynomial for eight bits. */
  function Feed(c: Residue, b: Byte): Residue { Shift(Add(c, OfByte(b)), 8) }

  function Raw(c: Residue, data: Bytes): Residue
    decreases data
  {
    if data == [] then c else Raw(Feed(c, data[0]), data[1..])
  }

  function Crc(data: Bytes): Residue { Add(Raw(ALL_ONES, data), ALL_ONES) }

  lemma {:induction false} ShiftAdd(a: Residue, b: Residue, n: nat)
    ensures Shift(Add(a, b), n) == Add(Shift(a, n), Shift(b, n))
  {
    hide Add, Xtime;
    if n != 0 {
      ShiftAdd(a, b, n - 1);
      XtimeAdd(Shift(a, n - 1), Shift(b, n - 1));
    }
  }

  /** The starting value and the data contribute independently. */
  lemma {:induction false} RawSplits(c: Residue, data: Bytes)
    ensures Raw(c, data) == Add(Shift(c, 8 * |data|), Raw(0, data))
    decreases data
  {
    hide Add, Shift, OfByte;
    if data == [] {
      AddUnit(c);
      ShiftNone(c);
    } else {
      var (b, rest, n) := (OfByte(data[0]), data[1..], 8 * |data[1..]|);
      RawSplits(Feed(c, data[0]), rest);
      RawSplits(Feed(0, data[0]), rest);
      AddUnit(b);
      ShiftAdd(c, b, 8);
      ShiftAdd(Shift(c, 8), Shift(b, 8), n);
      ShiftShift(c, 8, n);
      AddAssoc(Shift(c, n + 8), Shift(Shift(b, 8), n), Raw(0, rest));
    }
  }

  lemma ShiftNone(a: Residue)
    ensures Shift(a, 0) == a
  {}

  lemma {:induction false} RawAppend(c: Residue, data: Bytes, b: Byte)
    ensures Raw(c, data + [b]) == Feed(Raw(c, data), b)
    decreases data
  {
    hide Feed;
    if data == [] {
      assert [] + [b] == [b];
      assert [b][1..] == [];
    } else {
      RawAppend(Feed(c, data[0]), data[1..], b);
      assert (data + [b])[1..] == data[1..] + [b];
    }
  }

  /** Eight divisions, one after the other. */
  function Divided(a: Residue): Residue {
    Xtime(Xtime(Xtime(Xtime(Xtime(Xtime(Xtime(Xtime(a))))))))
  }

  lemma FeedDivides(c: Residue, b: Byte)
    ensures Feed(c, b) == Divided(Add(c, OfByte(b)))
  {
    hide Xtime, Shift, OfByte, Add;
    var a := Add(c, OfByte(b));
    ShiftNone(a);
    ShiftStep(a, 0);
    ShiftStep(a, 1);
    ShiftStep(a, 2);
    ShiftStep(a, 3);
    ShiftStep(a, 4);
    ShiftStep(a, 5);
    ShiftStep(a, 6);
    ShiftStep(a, 7);
  }

  lemma RawNext(data: Bytes, i: nat, c: Residue, r: Residue)
    requires i < |data| && Raw(ALL_ONES, data[..i]) == c && Divided(Add(c, OfByte(data[i]))) == r
    ensures Raw(ALL_ONES, data[..i + 1]) == r
  {
    hide Raw, Divided, Feed;
    RawAppend(ALL_ONES, data[..i], data[i]);
    FeedDivides(c, data[i]);
    assert data[..i + 1] == data[..i] + [data[i]];
  }

  /** The check value of CRC-32, which is taken of the digits one to nine. */
  lemma CheckValue()
    ensures Crc([0x31, 0x32, 0x33, 0x34, 0x35, 0x36, 0x37, 0x38, 0x39]) == 0xCBF43926
  {
    hide Raw;
    var digits: Bytes := [0x31, 0x32, 0x33, 0x34, 0x35, 0x36, 0x37, 0x38, 0x39];
    RawOfNothing();
    assert digits[..0] == [];
    RawNext(digits, 0, ALL_ONES, 0x7C231048);
    RawNext(digits, 1, 0x7C231048, 0xB0ACBB32);
    RawNext(digits, 2, 0xB0ACBB32, 0x77B79C2D);
    RawNext(digits, 3, 0x77B79C2D, 0x641C1F5C);
    RawNext(digits, 4, 0x641C1F5C, 0x340AC5E3);
    RawNext(digits, 5, 0x340AC5E3, 0xF68D2C9E);
    RawNext(digits, 6, 0xF68D2C9E, 0xAFFC9660);
    RawNext(digits, 7, 0xAFFC9660, 0x651F2550);
    RawNext(digits, 8, 0x651F2550, 0x340BC6D9);
    assert digits[..9] == digits;
  }

  lemma RawOfNothing()
    ensures Raw(ALL_ONES, []) == ALL_ONES
  {}

  // ----- the byte table

  function LowByte(c: Residue): Byte { (c & 0xFF) as bv8 }

  function HighBytes(c: Residue): Residue { c >> 8 }

  /** What the byte table holds. */
  ghost predicate ByteTable(table: seq<Residue>) {
    && |table| == 256
    && forall b: Byte :: table[ByteIndex(b)] == Shift(OfByte(b), 8)
  }

  /** The source's branch on the low bit. */
  function Divide(crc: Residue): Residue {
    if crc & 1 != 0 then (crc >> 1) ^ 0xEDB88320 else crc >> 1
  }

  lemma DivideIsXtime(crc: Residue)
    ensures Divide(crc) == Xtime(crc)
  {
    if crc & 1 == 0 {
    } else {
      assert crc & 1 == 1;
    }
  }

  method GenerateCrcTable() returns (table: seq<Residue>)
    ensures ByteTable(table)
  {
    hide Divide, Xtime, OfByte, ByteOf, ByteIndex, Shift;
    var entries := new Residue[256](_ => 0);
    for i := 0 to 256
      invariant forall k :: 0 <= k < i ==> entries[k] == Shift(OfByte(ByteOf(k)), 8)
    {
      var crc := OfByte(ByteOf(i));
      ShiftNone(crc);
      for j := 0 to 8
        invariant crc == Shift(OfByte(ByteOf(i)), j)
        invariant forall k :: 0 <= k < i ==> entries[k] == Shift(OfByte(ByteOf(k)), 8)
      {
        DivideIsXtime(crc);
        ShiftStep(OfByte(ByteOf(i)), j);
        crc := Divide(crc);
      }
      entries[i] := crc;
    }
    table := entries[..];
    forall b: Byte
      ensures table[ByteIndex(b)] == Shift(OfByte(b), 8)
    {
      ByteOfIndex(b);
    }
  }

  lemma ShiftStep(a: Residue, n: nat)
    ensures Shift(a, n + 1) == Xtime(Shift(a, n))
  {}

  function Twice(z: Residue): Residue { z << 1 }

  predicate TopClear(z: Residue) { z < 0x8000_0000 }

  lemma XtimeTwice(z: Residue)
    requires TopClear(z)
    ensures Xtime(Twice(z)) == z
  {}

  lemma FourClear(y: Residue)
    requires y < 0x1000_0000
    ensures TopClear(y) && TopClear(Twice(y)) && TopClear(Twice(Twice(y))) && TopClear(Twice(Twice(Twice(y))))
  {}

  lemma FourTimes(y: Residue)
    requires y < 0x100_0000
    ensures Twice(Twice(Twice(Twice(y)))) == y << 4 && y << 4 < 0x1000_0000
  {}

  lemma EightTimes(y: Residue)
    requires y < 0x100_0000
    ensures Twice(Twice(Twice(Twice(y << 4)))) == y << 8
  {}

  lemma FourOut(y: Residue)
    requires y < 0x1000_0000
    ensures Xtime(Xtime(Xtime(Xtime(Twice(Twice(Twice(Twice(y)))))))) == y
  {
    hide Xtime, Twice, TopClear;
    FourClear(y);
    XtimeTwice(y);
    XtimeTwice(Twice(y));
    XtimeTwice(Twice(Twice(y)));
    XtimeTwice(Twice(Twice(Twice(y))));
  }

  /** Eight divisions of a word whose low byte is zero only shift it. */
  lemma ShiftOutZeros(y: Residue)
    requires y < 0x100_0000
    ensures Shift(y << 8, 8) == y
  {
    hide Xtime, Shift, Twice;
    FourTimes(y);
    EightTimes(y);
    FourOut(y << 4);
    FourOut(y);
    EightSteps(y << 8);
  }

  lemma EightSteps(a: Residue)
    ensures Shift(a, 8) == Xtime(Xtime(Xtime(Xtime(Xtime(Xtime(Xtime(Xtime(a))))))))
  {
    hide Xtime, Shift;
    ShiftNone(a);
    ShiftStep(a, 0);
    ShiftStep(a, 1);
    ShiftStep(a, 2);
    ShiftStep(a, 3);
    ShiftStep(a, 4);
    ShiftStep(a, 5);
    ShiftStep(a, 6);
    ShiftStep(a, 7);
  }

  lemma SplitLowByte(c: Residue)
    ensures c == Add(HighBytes(c) << 8, OfByte(LowByte(c))) && HighBytes(c) < 0x100_0000
  {}

  lemma LowByteOfSum(c: Residue, b: Byte)
    ensures HighBytes(Add(c, OfByte(b))) == HighBytes(c)
  {}

  /** One table lookup and a shift feed a byte. */
  lemma TableFeeds(table: seq<Residue>, c: Residue, b: Byte)
    requires ByteTable(table)
    ensures Feed(c, b) == Add(HighBytes(c), table[ByteIndex(LowByte(Add(c, OfByte(b))))])
  {
    hide Add, Shift, Xtime, OfByte, LowByte, HighBytes, ByteIndex;
    var sum := Add(c, OfByte(b));
    LowByteOfSum(c, b);
    SplitLowByte(sum);
    var y := HighBytes(sum);
    ShiftAdd(y << 8, OfByte(LowByte(sum)), 8);
    ShiftOutZeros(y);
  }

  // ----- the window table

  /** What the window table holds for a byte: its own contribution, and the move of the starting value. */
  function WindowEntry(window: nat, b: Byte): Residue {
    Add(Shift(OfByte(b), 8 * window + 8),
        Add(Add(Shift(ALL_ONES, 8 * window), Shift(ALL_ONES, 8 * window + 8)), ALL_ONES))
  }

  lemma MagicConstant()
    ensures 0x80800000 == Add(ONE, XPow(8))
  {
    hide Shift;
    ShiftOutZeros(0x80_0000);
    assert ONE == 0x80_0000 << 8;
  }

  method ComputeWindowMask(table: seq<Residue>, window: nat, b: Byte) returns (entry: Residue)
    requires ByteTable(table) && window < 0x1_0000_0000_0000_0000
    ensures entry == WindowEntry(window, b)
  {
    hide Add, Mul, Shift, XPow, OfByte, ByteIndex;
    var coeff := CrcExp8(window);
    var mask := Gf32Multiply(ALL_ONES, coeff);
    ShiftIsMul(ALL_ONES, 8 * window);
    MagicConstant();
    MulAddRight(mask, ONE, XPow(8));
    MulComm(mask, ONE);
    MulOneLeft(mask);
    ShiftIsMul(mask, 8);
    ShiftShift(ALL_ONES, 8 * window, 8);
    mask := Gf32Multiply(mask, 0x80800000);
    mask := Add(mask, ALL_ONES);
    entry := Gf32Multiply(table[ByteIndex(b)], coeff);
    ShiftIsMul(Shift(OfByte(b), 8), 8 * window);
    ShiftShift(OfByte(b), 8, 8 * window);
    entry := Add(entry, mask);
  }

  datatype RollingTable = RollingTable(bytes: seq<Residue>, table: seq<Residue>, window: nat) {

    ghost predicate Valid() {
      && ByteTable(bytes)
      && |table| == 256
      && forall b: Byte :: table[ByteIndex(b)] == WindowEntry(window, b)
    }

    /** One shift and two lookups per byte, whatever the window size. */
    function Slide(current: Residue, byteIn: Byte, byteOut: Byte): Residue
      requires |bytes| == |table| == 256
    {
      var crc := Add(current, ALL_ONES);
      Add(Add(HighBytes(crc), bytes[ByteIndex(LowByte(Add(crc, OfByte(byteIn))))]), table[ByteIndex(byteOut)])
    }

    /** Slides to `pos` when the block there ends inside the buffer. */
    function SlideForward(current: Residue, buffer: Bytes, pos: nat, blockSize: nat,
                          bytesInBuffer: nat): Option<Residue>
      requires |bytes| == |table| == 256
      requires 0 < pos && bytesInBuffer <= |buffer|
    {
      if pos + blockSize > bytesInBuffer then None
      else Some(Slide(current, buffer[pos + blockSize - 1], buffer[pos - 1]))
    }
  }

  method NewRollingTable(window: nat) returns (t: RollingTable)
    requires window < 0x1_0000_0000_0000_0000
    ensures t.Valid() && t.window == window
  {
    hide WindowEntry, ByteOf, ByteIndex;
    var bytes := GenerateCrcTable();
    var table: seq<Residue> := [];
    for i := 0 to 256
      invariant |table| == i && forall k :: 0 <= k < i ==> table[k] == WindowEntry(window, ByteOf(k))
    {
      var entry := ComputeWindowMask(bytes, window, ByteOf(i));
      table := table + [entry];
    }
    forall b: Byte
      ensures table[ByteIndex(b)] == WindowEntry(window, b)
    {
      ByteOfIndex(b);
    }
    t := RollingTable(bytes, table, window);
  }

  // ----- sliding

  /** The cancellation behind the window table. */
  lemma Cancel(first: Residue, byte: Residue, start: Residue, rest: Residue, ones: Residue)
    ensures Add(Add(Add(first, byte), rest), Add(byte, Add(Add(start, first), ones))) == Add(Add(start, rest), ones)
  {
    hide Add;
    AddComm(first, byte);
    AddAssoc(byte, first, rest);
    var u := Add(first, rest);
    var v := Add(Add(start, first), ones);
    AddExchange(byte, u, byte, v);
    AddSelf(byte);
    AddUnit(Add(u, v));
    AddAssoc(u, Add(start, first), ones);
    AddComm(first, rest);
    AddComm(start, first);
    AddComm(u, Add(first, start));
    AddExchange(first, start, first, rest);
    AddSelf(first);
    AddUnit(Add(start, rest));
  }

  lemma CrcRaw(data: Bytes)
    ensures Add(Crc(data), ALL_ONES) == Raw(ALL_ONES, data)
  {
    hide Add, Raw;
    var raw := Raw(ALL_ONES, data);
    AddAssoc(raw, ALL_ONES, ALL_ONES);
    AddSelf(ALL_ONES);
    AddUnit(raw);
  }

  /** One slide gives the CRC-32 of the next window. */
  lemma SlideIsCrc(t: RollingTable, w: Bytes, b: Byte)
    requires t.Valid() && |w| == t.window > 0
    ensures t.Slide(Crc(w), b, w[0]) == Crc(w[1..] + [b])
  {
    hide Add, Shift, OfByte, LowByte, HighBytes, ByteIndex, ByteTable;
    var (n, next) := (8 * |w|, w[1..] + [b]);
    var first := Shift(ALL_ONES, n + 8);
    var byte := Shift(OfByte(w[0]), n + 8);
    CrcRaw(w);
    TableFeeds(t.bytes, Raw(ALL_ONES, w), b);
    RawAppend(ALL_ONES, w, b);
    assert (w + [b])[1..] == next;
    assert Raw(ALL_ONES, w + [b]) == Raw(Feed(ALL_ONES, w[0]), next);
    RawSplits(Feed(ALL_ONES, w[0]), next);
    RawSplits(ALL_ONES, next);
    ShiftAdd(ALL_ONES, OfByte(w[0]), 8);
    ShiftAdd(Shift(ALL_ONES, 8), Shift(OfByte(w[0]), 8), n);
    ShiftShift(ALL_ONES, 8, n);
    ShiftShift(OfByte(w[0]), 8, n);
    Cancel(first, byte, Shift(ALL_ONES, n), Raw(0, next), ALL_ONES);
  }

  /** The value after `steps` slides over `data`, starting from the CRC-32 of the first window. */
  function Rolled(t: RollingTable, data: Bytes, steps: nat): Residue
    requires |t.bytes| == |t.table| == 256 && t.window > 0 && t.window + steps <= |data|
  {
    if steps == 0 then Crc(data[..t.window])
    else t.Slide(Rolled(t, data, steps - 1), data[steps - 1 + t.window], data[steps - 1])
  }

  /** After any number of slides the value is the CRC-32 of the window computed from scratch. */
  lemma {:induction false} RolledIsCrc(t: RollingTable, data: Bytes, steps: nat)
    requires t.Valid() && t.window > 0 && t.window + steps <= |data|
    ensures Rolled(t, data, steps) == Crc(data[steps..steps + t.window])
  {
    hide Crc, RollingTable.Slide, RollingTable.Valid;
    if steps == 0 {
    } else {
      RolledIsCrc(t, data, steps - 1);
      var w := data[steps - 1..steps - 1 + t.window];
      SlideIsCrc(t, w, data[steps - 1 + t.window]);
      assert data[steps..steps + t.window] == w[1..] + [data[steps - 1 + t.window]];
    }
  }

  /** Moving on by one position in a buffer. */
  lemma SlideForwardIsCrc(t: RollingTable, buffer: Bytes, pos: nat, bytesInBuffer: nat)
    requires t.Valid() && t.window > 0 && 0 < pos && bytesInBuffer <= |buffer|
    requires pos - 1 + t.window <= bytesInBuffer
    ensures var r := t.SlideForward(Crc(buffer[pos - 1..pos - 1 + t.window]), buffer, pos, t.window, bytesInBuffer);
      r == if pos + t.window <= bytesInBuffer then Some(Crc(buffer[pos..pos + t.window])) else None
  {
    hide Crc, RollingTable.Slide, RollingTable.Valid;
    if pos + t.window <= bytesInBuffer {
      var w := buffer[pos - 1..pos - 1 + t.window];
      SlideIsCrc(t, w, buffer[pos + t.window - 1]);
      assert buffer[pos..pos + t.window] == w[1..] + [buffer[pos + t.window - 1]];
    }
  }
}
