/** Split multiplication tables, and the kernel that multiplies a whole byte slice by one coefficient. */
module SliceKernel {
  import opened Gf16
  import opened Primitive
  import opened GaloisTable

  type Byte = bv8
  type Bytes = seq<bv8>

  // ----- little-endian words

  function Word(lo: Byte, hi: Byte): Elem { (lo as bv16) ^ ((hi as bv16) << 8) }

  function Low(w: Elem): Byte { (w & 0xFF) as bv8 }

  function High(w: Elem): Byte { (w >> 8) as bv8 }

  /** The word of one byte, and of one byte in the upper half. */
  function LowWord(b: Byte): Elem { b as bv16 }

  function HighWord(b: Byte): Elem { (b as bv16) << 8 }

  function XorByte(a: Byte, b: Byte): Byte { a ^ b }

  function ByteIndex(b: Byte): (i: nat)
    ensures i < 256
  {
    b as int
  }

  function ByteOf(i: nat): Byte
    requires i < 256
  {
    i as bv8
  }

  lemma ByteOfIndex(b: Byte)
    ensures ByteOf(ByteIndex(b)) == b
  {}

  lemma WordRoundTrip(w: Elem)
    ensures Word(Low(w), High(w)) == w
  {}

  lemma BytesRoundTrip(lo: Byte, hi: Byte)
    ensures Low(Word(lo, hi)) == lo && High(Word(lo, hi)) == hi
  {}

  lemma SplitWord(w: Elem)
    ensures Add(LowWord(Low(w)), HighWord(High(w))) == w
  {}

  lemma LowXor(a: Elem, b: Elem)
    ensures Low(a ^ b) == Low(a) ^ Low(b)
  {}

  lemma HighXor(a: Elem, b: Elem)
    ensures High(a ^ b) == High(a) ^ High(b)
  {}

  lemma AddBytes(a: Elem, b: Elem)
    ensures Low(Add(a, b)) == XorByte(Low(a), Low(b)) && High(Add(a, b)) == XorByte(High(a), High(b))
  {
    hide Low, High, Add, XorByte;
    AddIsXor(a, b);
    LowXor(a, b);
    HighXor(a, b);
    XorByteIsXor(Low(a), Low(b));
    XorByteIsXor(High(a), High(b));
  }

  lemma XorByteIsXor(a: Byte, b: Byte)
    ensures XorByte(a, b) == a ^ b
  {}

  /** Adding bytes adds words. */
  lemma AddWords(a: Byte, b: Byte, c: Byte, d: Byte)
    ensures Word(XorByte(a, c), XorByte(b, d)) == Add(Word(a, b), Word(c, d))
  {
    hide Low, High, Add, XorByte, Word;
    BytesRoundTrip(a, b);
    BytesRoundTrip(c, d);
    AddBytes(Word(a, b), Word(c, d));
    WordRoundTrip(Add(Word(a, b), Word(c, d)));
  }

  lemma WidenIndex(b: Byte)
    ensures (b as bv16) as int == b as int
  {}

  lemma IndexOfByte(b: Byte)
    ensures Index(LowWord(b)) == ByteIndex(b)
  {
    WidenIndex(b);
  }

  /** An index as a word, and shifted into the upper half. */
  function IndexWord(i: nat): Elem
    requires i < COUNT
  {
    i as bv16
  }

  function Upper(w: Elem): Elem { w << 8 }

  lemma IndexWordRoundTrip(w: Elem)
    ensures IndexWord(Index(w)) == w
  {}

  lemma UpperOfLow(b: Byte)
    ensures Upper(LowWord(b)) == HighWord(b)
  {}

  lemma WordOfIndex(b: Byte)
    ensures IndexWord(ByteIndex(b)) == LowWord(b)
    ensures Upper(IndexWord(ByteIndex(b))) == HighWord(b)
  {
    hide IndexWord, Index, LowWord, HighWord, ByteIndex, Upper;
    IndexOfByte(b);
    IndexWordRoundTrip(LowWord(b));
    UpperOfLow(b);
  }

  lemma HighIndexNonzero(b: Byte)
    ensures LowWord(b) == 0 <==> ByteIndex(b) == 0
    ensures HighWord(b) == 0 <==> ByteIndex(b) == 0
  {
    assert (ByteIndex(b) as bv8) == b;
  }

  // ----- split tables

  datatype SplitTable = SplitTable(low: seq<Elem>, high: seq<Elem>) {

    /** One lookup per byte. */
    function Lookup(w: Elem): Elem
      requires |low| == |high| == 256
    {
      Add(low[ByteIndex(Low(w))], high[ByteIndex(High(w))])
    }
  }

  ghost predicate TableFor(s: SplitTable, c: Elem) {
    && |s.low| == |s.high| == 256
    && (forall b: Byte :: s.low[ByteIndex(b)] == Mul(c, LowWord(b)))
    && (forall b: Byte :: s.high[ByteIndex(b)] == Mul(c, HighWord(b)))
  }

  /** Two lookups multiply any word by the coefficient. */
  lemma LookupIsMul(s: SplitTable, c: Elem, w: Elem)
    requires TableFor(s, c)
    ensures s.Lookup(w) == Mul(c, w)
  {
    hide Mul, Add, Low, High, LowWord, HighWord, ByteIndex;
    SplitWord(w);
    MulAddRight(c, LowWord(Low(w)), HighWord(High(w)));
  }

  lemma SumOfLogs(t: Tables, c: Elem, w: Elem)
    requires t.Valid() && c != 0 && w != 0
    ensures t.antilog[(t.log[Index(w)] + t.log[Index(c)]) % LIMIT] == Mul(c, w)
  {
    hide Mul, XPow, Index;
    t.LogAt(c);
    t.LogAt(w);
    MulOfPowers(Log(w), Log(c));
    MulComm(c, w);
  }

  /** The products with the 256 low bytes. */
  method LowProducts(t: Tables, c: Elem) returns (r: seq<Elem>)
    requires t.Valid() && c != 0
    ensures |r| == 256 && forall b: Byte :: r[ByteIndex(b)] == Mul(c, LowWord(b))
  {
    hide Mul, XPow, Index, ByteIndex, LowWord, HighWord;
    var low := new Elem[256](_ => 0);
    var coeffLog := t.log[Index(c)];
    MulZeroRight(c);
    for i := 1 to 256
      invariant low[0] == 0
      invariant forall b: Byte :: 1 <= ByteIndex(b) < i ==> low[ByteIndex(b)] == Mul(c, LowWord(b))
    {
      var logSum := (t.log[i] + coeffLog) % LIMIT;
      low[i] := t.antilog[logSum];
      forall b: Byte | ByteIndex(b) == i
        ensures low[i] == Mul(c, LowWord(b))
      {
        HighIndexNonzero(b);
        IndexOfByte(b);
        SumOfLogs(t, c, LowWord(b));
      }
    }
    forall b: Byte
      ensures low[ByteIndex(b)] == Mul(c, LowWord(b))
    {
      HighIndexNonzero(b);
    }
    r := low[..];
  }

  /** The products with the 256 high bytes. */
  method HighProducts(t: Tables, c: Elem) returns (r: seq<Elem>)
    requires t.Valid() && c != 0
    ensures |r| == 256 && forall b: Byte :: r[ByteIndex(b)] == Mul(c, HighWord(b))
  {
    hide Mul, XPow, Index, ByteIndex, LowWord, HighWord, IndexWord, Upper;
    var high := new Elem[256](_ => 0);
    var coeffLog := t.log[Index(c)];
    MulZeroRight(c);
    for i := 1 to 256
      invariant high[0] == 0
      invariant forall b: Byte :: 1 <= ByteIndex(b) < i ==> high[ByteIndex(b)] == Mul(c, HighWord(b))
    {
      var val := Upper(IndexWord(i));
      var logSum := (t.log[Index(val)] + coeffLog) % LIMIT;
      high[i] := t.antilog[logSum];
      forall b: Byte | ByteIndex(b) == i
        ensures high[i] == Mul(c, HighWord(b))
      {
        HighIndexNonzero(b);
        WordOfIndex(b);
        SumOfLogs(t, c, HighWord(b));
      }
    }
    forall b: Byte
      ensures high[ByteIndex(b)] == Mul(c, HighWord(b))
    {
      HighIndexNonzero(b);
    }
    r := high[..];
  }

  /** The shortcut for coefficient one. */
  method IdentityTable() returns (s: SplitTable)
    ensures TableFor(s, 1)
  {
    hide Mul, ByteIndex, LowWord, HighWord, IndexWord, Upper;
    var low := new Elem[256](_ => 0);
    var high := new Elem[256](_ => 0);
    for i := 0 to 256
      invariant forall b: Byte :: ByteIndex(b) < i ==> low[ByteIndex(b)] == Mul(1, LowWord(b))
      invariant forall b: Byte :: ByteIndex(b) < i ==> high[ByteIndex(b)] == Mul(1, HighWord(b))
    {
      low[i] := IndexWord(i);
      high[i] := Upper(IndexWord(i));
      forall b: Byte | ByteIndex(b) == i
        ensures low[i] == Mul(1, LowWord(b)) && high[i] == Mul(1, HighWord(b))
      {
        WordOfIndex(b);
        MulOneLeft(LowWord(b));
        MulOneLeft(HighWord(b));
      }
    }
    s := SplitTable(low[..], high[..]);
  }

  lemma ZeroTable(s: SplitTable)
    requires |s.low| == |s.high| == 256
    requires forall i :: 0 <= i < 256 ==> s.low[i] == 0 && s.high[i] == 0
    ensures TableFor(s, 0)
  {
    hide Mul, ByteIndex, LowWord, HighWord;
    forall b: Byte
      ensures Mul(0, LowWord(b)) == 0 && Mul(0, HighWord(b)) == 0
    {
      MulZeroLeft(LowWord(b));
      MulZeroLeft(HighWord(b));
    }
  }

  method BuildSplitMulTable(t: Tables, c: Elem) returns (s: SplitTable)
    requires t.Valid()
    ensures TableFor(s, c)
  {
    hide Mul, ByteIndex, LowWord, HighWord;
    if c == 0 {
      var zeros := seq(256, _ => 0 as Elem);
      s := SplitTable(zeros, zeros);
      ZeroTable(s);
    } else if c == 1 {
      s := IdentityTable();
    } else {
      var low := LowProducts(t, c);
      var high := HighProducts(t, c);
      s := SplitTable(low, high);
    }
  }
}
