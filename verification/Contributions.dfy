/** Building one reconstructed slice from recovery slices and present slices. */
module Contributions {
  import opened Gf16
  import opened Primitive
  import opened GaloisTable
  import opened LinearAlgebra
  import opened SliceKernel
  import opened Slices
  import opened Encoder

  /** Tables by coefficient value. */
  type TableCache = map<nat, SplitTable>

  ghost predicate CacheValid(cache: TableCache) {
    forall c: Elem :: Index(c) in cache ==> TableFor(cache[Index(c)], c)
  }

  /** Coefficients zero and one need no table. */
  predicate Available(cache: TableCache, c: Elem) { c == 0 || c == 1 || Index(c) in cache }

  ghost predicate Covers(cache: TableCache, row: Vector) {
    forall j :: 0 <= j < |row| ==> Available(cache, row[j])
  }

  lemma CacheExtended(cache: TableCache, c: Elem, table: SplitTable)
    requires CacheValid(cache) && TableFor(table, c)
    ensures CacheValid(cache[Index(c) := table])
  {
    hide TableFor, Index;
    var r := cache[Index(c) := table];
    forall d: Elem | Index(d) in r
      ensures TableFor(r[Index(d)], d)
    {
      if Index(d) == Index(c) {
        SameIndex(d, c);
      }
    }
  }

  lemma SameIndex(a: Elem, b: Elem)
    requires Index(a) == Index(b)
    ensures a == b
  {
    IndexInjective(a, b);
  }

  method CacheRow(t: Tables, cache: TableCache, row: Vector) returns (r: TableCache)
    requires t.Valid() && CacheValid(cache)
    ensures CacheValid(r) && Covers(r, row) && cache.Keys <= r.Keys
  {
    hide TableFor, CacheValid, Index;
    r := cache;
    for j := 0 to |row|
      invariant CacheValid(r) && cache.Keys <= r.Keys && Covers(r, row[..j])
    {
      if row[j] != 0 && row[j] != 1 && Index(row[j]) !in r {
        var table := BuildSplitMulTable(t, row[j]);
        CacheExtended(r, row[j], table);
        r := r[Index(row[j]) := table];
      }
      assert row[..j + 1] == row[..j] + [row[j]];
    }
    assert row[..|row|] == row;
  }

  lemma ScaleByZero(s: Bytes)
    ensures Scale(0, s) == Zeros(|s|)
  {
    hide Mul, Word, LowWord, Low, High;
    forall i | 0 <= i < |s|
      ensures ScaledByte(0, s, i) == 0
    {
      ZeroBytes();
      MulZeroLeft(LowWord(s[i]));
      if i % 2 == 0 && i + 1 < |s| {
        MulZeroLeft(Word(s[i], s[i + 1]));
      } else if i % 2 == 1 {
        MulZeroLeft(Word(s[i - 1], s[i]));
      }
    }
  }

  lemma ZeroBytes()
    ensures Low(0) == 0 && High(0) == 0
  {}

  lemma ScaleByOne(s: Bytes)
    ensures Scale(1, s) == s
  {
    hide Mul, Word, LowWord, Low, High;
    forall i | 0 <= i < |s|
      ensures ScaledByte(1, s, i) == s[i]
    {
      if i % 2 == 0 && i + 1 == |s| {
        MulOneLeft(LowWord(s[i]));
        LowOfLowWord(s[i]);
      } else if i % 2 == 0 {
        MulOneLeft(Word(s[i], s[i + 1]));
        BytesRoundTrip(s[i], s[i + 1]);
      } else {
        MulOneLeft(Word(s[i - 1], s[i]));
        BytesRoundTrip(s[i - 1], s[i]);
      }
    }
  }

  lemma LowOfLowWord(b: Byte)
    ensures Low(LowWord(b)) == b
  {}

  lemma PlusZerosRight(s: Bytes)
    ensures Plus(s, Zeros(|s|)) == s
  {
    hide XorByte;
    forall i | 0 <= i < |s|
      ensures XorByte(s[i], 0) == s[i]
    {
      XorZero(s[i]);
    }
  }

  // ----- slices shorter than the output

  /** The slice cut to the size, or followed by zeros. */
  function Fitted(s: Bytes, size: nat): (r: Bytes)
    ensures |r| == size && forall i :: 0 <= i < size ==> r[i] == if i < |s| then s[i] else 0
  {
    if size <= |s| then s[..size] else s + Zeros(size - |s|)
  }

  function AllFitted(slices: seq<Bytes>, size: nat): (r: seq<Bytes>)
    ensures |r| == |slices| && forall i :: 0 <= i < |slices| ==> r[i] == Fitted(slices[i], size)
    ensures forall i :: 0 <= i < |slices| ==> |r[i]| == size
  {
    seq(|slices|, i requires 0 <= i < |slices| => Fitted(slices[i], size))
  }

  /** What the kernel adds to an output for one slice: the product over the common length. */
  function ScaledTerm(c: Elem, s: Bytes, size: nat): (r: Bytes)
    ensures |r| == size
  {
    if size <= |s| then Scale(c, s[..size]) else Scale(c, s) + Zeros(size - |s|)
  }

  /** A slice that reaches the size or ends with a whole word. */
  predicate WholeWords(s: Bytes, size: nat) { size <= |s| || |s| % 2 == 0 }

  lemma TermOfWholeWords(c: Elem, s: Bytes, size: nat)
    requires WholeWords(s, size)
    ensures ScaledTerm(c, s, size) == Scale(c, Fitted(s, size))
  {
    hide Mul, Word, LowWord, Low, High;
    CarryIntoHighByte();
    MulZeroRight(c);
    var (term, whole) := (ScaledTerm(c, s, size), Scale(c, Fitted(s, size)));
    forall i | 0 <= i < size
      ensures term[i] == whole[i]
    {
      assert i < |s| < size && i % 2 == 0 ==> i + 1 < |s|;
    }
  }

  /** Coefficients zero and one need no whole words: nothing, or a copy, carries no byte over. */
  predicate TermHarmless(c: Elem, s: Bytes, size: nat) { WholeWords(s, size) || c == 0 || c == 1 }

  lemma HarmlessTerm(c: Elem, s: Bytes, size: nat)
    requires TermHarmless(c, s, size)
    ensures ScaledTerm(c, s, size) == Scale(c, Fitted(s, size))
  {
    hide ScaledByte, Scale;
    if WholeWords(s, size) {
      TermOfWholeWords(c, s, size);
    } else if c == 0 {
      TermOfZero(s, size);
      ScaleByZero(Fitted(s, size));
    } else {
      ScaleByOne(s);
      ScaleByOne(Fitted(s, size));
    }
  }

  /** Term and product of the zero padding have the same byte at `p`. */
  predicate SameTermAt(c: Elem, s: Bytes, size: nat, p: nat)
    requires p < size
  {
    ScaledTerm(c, s, size)[p] == Scale(c, Fitted(s, size))[p]
  }

  /** The byte that is lost is the high byte of the last product. */
  lemma LostByte(c: Elem, s: Bytes, size: nat)
    requires |s| % 2 == 1 && |s| < size && High(Mul(c, LowWord(s[|s| - 1]))) != 0
    ensures !SameTermAt(c, s, size, |s|)
  {
    hide Mul, LowWord, Low, High;
    var p := |s|;
    LowWordIs(s[p - 1]);
    assert ScaledTerm(c, s, size)[p] == 0;
    assert Scale(c, Fitted(s, size))[p] == High(Mul(c, Word(s[p - 1], 0)));
  }

  lemma LowWordIs(b: Byte)
    ensures LowWord(b) == Word(b, 0)
  {}

  lemma TermOfZeros(c: Elem, s: Bytes, size: nat, p: nat)
    requires s == Zeros(|s|) && p < size
    ensures SameTermAt(c, s, size, p)
  {
    hide Scale, ScaledByte;
    assert Fitted(s, size) == Zeros(size);
    ScaleOfZeros(c, |s|);
    ScaleOfZeros(c, size);
    if size <= |s| {
      assert s[..size] == Zeros(size);
    }
  }

  /** A slice that ends within a word, before the end of the output, loses the high byte of its last product. */
  lemma HalfWordLost(n: nat, size: nat)
    requires n % 2 == 1 && n < size
    ensures exists c: Elem, s: Bytes :: |s| == n && ScaledTerm(c, s, size) != Scale(c, Fitted(s, size))
  {
    hide Mul, Word, LowWord, Low, High;
    var c: Elem := 0x100;
    var s := Zeros(n)[n - 1 := 1];
    CarryIntoHighByte();
    assert ScaledTerm(c, s, size)[n] == 0;
    assert Scale(c, Fitted(s, size))[n] == High(Mul(c, Word(1, 0)));
  }

  /** The kernel takes a slice of a given length for its zero padding exactly when no word is cut. */
  lemma ShortSliceExactly(n: nat, size: nat)
    ensures (forall c: Elem, s: Bytes :: |s| == n ==> ScaledTerm(c, s, size) == Scale(c, Fitted(s, size)))
      <==> size <= n || n % 2 == 0
  {
    hide Scale, ScaledTerm;
    if size <= n || n % 2 == 0 {
      forall c: Elem, s: Bytes | |s| == n
        ensures ScaledTerm(c, s, size) == Scale(c, Fitted(s, size))
      {
        TermOfWholeWords(c, s, size);
      }
    } else {
      HalfWordLost(n, size);
    }
  }

  /** The copy loop, and the xor loop over the common length, that stand in for a product with one. */
  method CopyOrXor(input: Bytes, output: array<Byte>, op: WriteOp)
    requires op.Direct? ==> output.Length <= |input|
    modifies output
    ensures output[..] == Written(op, 1, input, old(output[..]))
  {
    hide XorByte, ScaledByte;
    var n := if |input| < output.Length then |input| else output.Length;
    for i := 0 to n
      invariant forall j :: 0 <= j < i ==> output[j] == Combine(op, old(output[j]), input[j])
      invariant forall j :: i <= j < output.Length ==> output[j] == old(output[j])
    {
      output[i] := Combine(op, output[i], input[i]);
    }
    ScaleByOne(input[..n]);
    AssembleWritten(op, 1, input, old(output[..]), output[..], n);
  }

  /** What the kernel writes is the term, or the output plus the term. */
  lemma WrittenTerm(op: WriteOp, c: Elem, input: Bytes, before: Bytes)
    requires op.Direct? ==> |before| <= |input|
    ensures Written(op, c, input, before)
      == if op.Direct? then ScaledTerm(c, input, |before|) else Plus(before, ScaledTerm(c, input, |before|))
  {
    hide ScaledByte, XorByte;
    if |before| <= |input| {
      FullWrite(op, c, input, before);
    } else {
      var n := |input|;
      assert input[..n] == input;
      var (written, sum) := (Written(op, c, input, before), Plus(before, ScaledTerm(c, input, |before|)));
      forall i | 0 <= i < |before|
        ensures written[i] == sum[i]
      {
        XorZero(before[i]);
      }
    }
  }

  /**
   * Adds one term to the output. As long as nothing has been written the output holds arbitrary bytes
   * and stands for zero; the first nonzero term overwrites it, and must reach its end.
   */
  method AddContribution(cache: TableCache, output: array<Byte>, first: bool, c: Elem, data: Bytes, ghost acc: Bytes)
    returns (first': bool)
    requires CacheValid(cache) && Available(cache, c)
    requires |acc| == output.Length && (first ==> |acc| <= |data|)
    requires acc == if first then Zeros(|acc|) else output[..]
    modifies output
    ensures first' <==> first && c == 0
    ensures Plus(acc, ScaledTerm(c, data, |acc|)) == if first' then Zeros(|acc|) else output[..]
  {
    hide Scale, Plus, TableFor, Zeros, Written, Index, ScaledTerm;
    PlusZeros(ScaledTerm(c, data, |acc|));
    if c == 0 {
      TermOfZero(data, |acc|);
      PlusZerosRight(acc);
      return first;
    }
    var op := if first then Direct else Accumulate;
    WrittenTerm(op, c, data, output[..]);
    if c == 1 {
      CopyOrXor(data, output, op);
    } else {
      ProcessSlice(data, output, cache[Index(c)], op, c);
    }
    return false;
  }

  lemma TermOfZero(s: Bytes, size: nat)
    ensures ScaledTerm(0, s, size) == Zeros(size)
  {
    hide ScaledByte, Scale;
    if size <= |s| {
      ScaleByZero(s[..size]);
    } else {
      ScaleByZero(s);
    }
  }

  datatype Slice = Filled(data: Bytes) | NothingWritten

  /** The sum of the recovery terms and then of the present terms of one output row. */
  function RowSum(size: nat, recoveryRow: Vector, recovery: seq<Bytes>, presentRow: Vector,
                  present: seq<Bytes>): (r: Bytes)
    requires |recoveryRow| == |recovery| && |presentRow| == |present|
    requires forall i :: 0 <= i < |recovery| ==> size <= |recovery[i]|
    requires forall i :: 0 <= i < |present| ==> size <= |present[i]|
    ensures |r| == size
  {
    Combination(Combination(Zeros(size), recoveryRow, recovery, |recovery|), presentRow, present, |present|)
  }

  /** `acc` plus what the kernel adds for the first `n` slices. */
  function Accumulated(acc: Bytes, row: Vector, slices: seq<Bytes>, n: nat): (r: Bytes)
    requires n <= |row| && n <= |slices|
    ensures |r| == |acc|
  {
    if n == 0 then acc
    else Plus(Accumulated(acc, row, slices, n - 1), ScaledTerm(row[n - 1], slices[n - 1], |acc|))
  }

  /** Harmless slices count as their zero padding. */
  lemma {:induction false} AccumulatedIsCombination(acc: Bytes, row: Vector, slices: seq<Bytes>, n: nat)
    requires n <= |row| && n <= |slices| && forall i :: 0 <= i < n ==> TermHarmless(row[i], slices[i], |acc|)
    ensures Accumulated(acc, row, slices, n) == Combination(acc, row, AllFitted(slices, |acc|), n)
  {
    hide Scale, Plus, ScaledTerm, Fitted;
    if n != 0 {
      AccumulatedIsCombination(acc, row, slices, n - 1);
      HarmlessTerm(row[n - 1], slices[n - 1], |acc|);
      var fitted := AllFitted(slices, |acc|)[n - 1];
      assert fitted[..|acc|] == fitted;
    }
  }

  /** Full slices count with their front. */
  lemma {:induction false} AccumulatedFull(acc: Bytes, row: Vector, slices: seq<Bytes>, n: nat)
    requires n <= |row| && n <= |slices| && forall i :: 0 <= i < |slices| ==> |acc| <= |slices[i]|
    ensures Accumulated(acc, row, slices, n) == Combination(acc, row, slices, n)
  {
    hide Scale, Plus, ScaledTerm;
    if n != 0 {
      AccumulatedFull(acc, row, slices, n - 1);
      TermOfFull(row[n - 1], slices[n - 1], |acc|);
    }
  }

  lemma TermOfFull(c: Elem, s: Bytes, size: nat)
    requires size <= |s|
    ensures ScaledTerm(c, s, size) == Scale(c, s[..size])
  {}

  lemma AccumulatedStart(acc: Bytes, row: Vector, slices: seq<Bytes>)
    ensures Accumulated(acc, row, slices, 0) == acc
  {}

  lemma AccumulatedStep(acc: Bytes, row: Vector, slices: seq<Bytes>, i: nat)
    requires i < |row| && i < |slices|
    ensures Accumulated(acc, row, slices, i + 1)
      == Plus(Accumulated(acc, row, slices, i), ScaledTerm(row[i], slices[i], |acc|))
  {
    hide ScaledTerm, Plus;
  }

  method AddRow(cache: TableCache, output: array<Byte>, first0: bool, row: Vector, slices: seq<Bytes>, ghost acc: Bytes)
    returns (first: bool)
    requires CacheValid(cache) && Covers(cache, row) && |row| == |slices|
    requires |acc| == output.Length
    requires first0 ==> forall i :: 0 <= i < |slices| ==> |acc| <= |slices[i]|
    requires acc == if first0 then Zeros(|acc|) else output[..]
    modifies output
    ensures first <==> first0 && forall i :: 0 <= i < |row| ==> row[i] == 0
    ensures Accumulated(acc, row, slices, |slices|) == if first then Zeros(|acc|) else output[..]
  {
    hide ScaledTerm, Plus, Zeros, CacheValid, Index, Accumulated;
    first := first0;
    AccumulatedStart(acc, row, slices);
    for i := 0 to |row|
      invariant first <==> first0 && forall j :: 0 <= j < i ==> row[j] == 0
      invariant Accumulated(acc, row, slices, i) == if first then Zeros(|acc|) else output[..]
    {
      AccumulatedStep(acc, row, slices, i);
      first := AddContribution(cache, output, first, row[i], slices[i], Accumulated(acc, row, slices, i));
    }
  }

  predicate SomeNonzero(row: Vector) { exists i :: 0 <= i < |row| && row[i] != 0 }

  /** What the kernel makes of one output row. */
  function KernelSum(size: nat, recoveryRow: Vector, recovery: seq<Bytes>, presentRow: Vector,
                     present: seq<Bytes>): (r: Bytes)
    requires |recoveryRow| == |recovery| && |presentRow| == |present|
    ensures |r| == size
  {
    Accumulated(Accumulated(Zeros(size), recoveryRow, recovery, |recovery|), presentRow, present, |present|)
  }

  /** Word `k` of a term: of a product with half a word only the low byte, and nothing behind the end of the slice. */
  function TermWord(c: Elem, s: Bytes, k: nat): Elem {
    if 2 * k + 1 < |s| then Mul(c, Word(s[2 * k], s[2 * k + 1]))
    else if 2 * k + 1 == |s| then LowWord(Low(Mul(c, LowWord(s[2 * k]))))
    else 0
  }

  function TermSum(row: Vector, slices: seq<Bytes>, k: nat, n: nat): Elem
    requires n <= |row| && n <= |slices|
  {
    if n == 0 then 0 else Add(TermSum(row, slices, k, n - 1), TermWord(row[n - 1], slices[n - 1], k))
  }

  lemma WordOfTerm(c: Elem, s: Bytes, size: nat, k: nat)
    requires 2 * k + 1 < size
    ensures WordAt(ScaledTerm(c, s, size), k) == TermWord(c, s, k)
  {
    hide Mul, Word, LowWord, Low, High, Scale;
    var term := ScaledTerm(c, s, size);
    if 2 * k + 1 < |s| {
      var front := if size <= |s| then s[..size] else s;
      ScaledPair(c, front, k);
      WordRoundTrip(Mul(c, Word(s[2 * k], s[2 * k + 1])));
    } else {
      if 2 * k + 1 == |s| {
        ScaledLast(c, s);
        LowWordIs(Low(Mul(c, LowWord(s[2 * k]))));
      } else {
        ZeroWord();
        assert term[2 * k] == 0;
      }
      assert term[2 * k + 1] == 0;
    }
  }

  lemma ZeroWord()
    ensures Word(0, 0) == 0
  {}

  lemma {:induction false} WordOfAccumulated(acc: Bytes, row: Vector, slices: seq<Bytes>, n: nat, k: nat)
    requires n <= |row| && n <= |slices| && 2 * k + 1 < |acc|
    ensures WordAt(Accumulated(acc, row, slices, n), k) == Add(WordAt(acc, k), TermSum(row, slices, k, n))
  {
    hide Add, TermWord, ScaledTerm, WordAt, Plus;
    if n == 0 {
      AddUnit(WordAt(acc, k));
    } else {
      WordOfAccumulated(acc, row, slices, n - 1, k);
      WordOfPlus(Accumulated(acc, row, slices, n - 1), ScaledTerm(row[n - 1], slices[n - 1], |acc|), k);
      WordOfTerm(row[n - 1], slices[n - 1], |acc|, k);
      AddAssoc(WordAt(acc, k), TermSum(row, slices, k, n - 1), TermWord(row[n - 1], slices[n - 1], k));
    }
  }

  /** Every word the kernel makes, from slices of any length. */
  lemma WordOfKernelSum(size: nat, recoveryRow: Vector, recovery: seq<Bytes>, presentRow: Vector, present: seq<Bytes>,
                        k: nat)
    requires |recoveryRow| == |recovery| && |presentRow| == |present| && 2 * k + 1 < size
    ensures WordAt(KernelSum(size, recoveryRow, recovery, presentRow, present), k)
      == Add(TermSum(recoveryRow, recovery, k, |recovery|), TermSum(presentRow, present, k, |present|))
  {
    hide Add, TermSum, WordAt, Accumulated;
    WordOfAccumulated(Zeros(size), recoveryRow, recovery, |recovery|, k);
    WordOfAccumulated(Accumulated(Zeros(size), recoveryRow, recovery, |recovery|), presentRow, present, |present|, k);
    WordOfZeros(size, k);
    AddUnit(TermSum(recoveryRow, recovery, k, |recovery|));
  }

  /** The last bytes of the slices that reach the size, as words, and zero for the others. */
  function LastWords(slices: seq<Bytes>, size: nat): (r: Vector)
    requires size > 0
    ensures |r| == |slices|
    ensures forall i :: 0 <= i < |slices| ==> r[i] == if size <= |slices[i]| then LowWord(slices[i][size - 1]) else 0
  {
    seq(|slices|, i requires 0 <= i < |slices| => if size <= |slices[i]| then LowWord(slices[i][size - 1]) else 0)
  }

  lemma LastByteOfTerm(c: Elem, s: Bytes, size: nat)
    requires size % 2 == 1
    ensures ScaledTerm(c, s, size)[size - 1] == if size <= |s| then Low(Mul(c, LowWord(s[size - 1]))) else 0
  {
    hide Mul, LowWord, Low, Scale;
    if size <= |s| {
      ScaledLast(c, s[..size]);
    }
  }

  lemma {:induction false} LastByteOfAccumulated(acc: Bytes, row: Vector, slices: seq<Bytes>, n: nat)
    requires n <= |row| && n <= |slices| && |acc| % 2 == 1
    ensures Accumulated(acc, row, slices, n)[|acc| - 1]
      == XorByte(acc[|acc| - 1], Low(Dot(row, LastWords(slices, |acc|), n)))
  {
    hide Add, Mul, ScaledTerm, XorByte, Low, LowWord;
    var (p, words) := (|acc| - 1, LastWords(slices, |acc|));
    LowOfZero();
    if n == 0 {
      XorZero(acc[p]);
    } else {
      LastByteOfAccumulated(acc, row, slices, n - 1);
      LastByteOfTerm(row[n - 1], slices[n - 1], |acc|);
      MulZeroRight(row[n - 1]);
      AddBytes(Dot(row, words, n - 1), Mul(row[n - 1], words[n - 1]));
      XorAssoc(acc[p], Low(Dot(row, words, n - 1)), Low(Mul(row[n - 1], words[n - 1])));
    }
  }

  /** The last byte the kernel makes of an odd size: the low byte of the sum of coefficient times last byte. */
  lemma LastByteOfKernelSum(size: nat, recoveryRow: Vector, recovery: seq<Bytes>, presentRow: Vector,
                            present: seq<Bytes>)
    requires |recoveryRow| == |recovery| && |presentRow| == |present| && size % 2 == 1
    ensures KernelSum(size, recoveryRow, recovery, presentRow, present)[size - 1]
      == Low(Add(Dot(recoveryRow, LastWords(recovery, size), |recovery|),
                 Dot(presentRow, LastWords(present, size), |present|)))
  {
    hide Add, Dot, Accumulated, XorByte, Low;
    var first := Dot(recoveryRow, LastWords(recovery, size), |recovery|);
    LastByteOfAccumulated(Zeros(size), recoveryRow, recovery, |recovery|);
    LastByteOfAccumulated(Accumulated(Zeros(size), recoveryRow, recovery, |recovery|), presentRow, present, |present|);
    XorZero(Low(first));
    AddBytes(first, Dot(presentRow, LastWords(present, size), |present|));
  }

  /** With harmless present slices the kernel makes the sum of their zero paddings. */
  lemma KernelSumIsRowSum(size: nat, recoveryRow: Vector, recovery: seq<Bytes>, presentRow: Vector, present: seq<Bytes>)
    requires |recoveryRow| == |recovery| && |presentRow| == |present|
    requires forall i :: 0 <= i < |recovery| ==> size <= |recovery[i]|
    requires forall i :: 0 <= i < |present| ==> TermHarmless(presentRow[i], present[i], size)
    ensures KernelSum(size, recoveryRow, recovery, presentRow, present)
      == RowSum(size, recoveryRow, recovery, presentRow, AllFitted(present, size))
  {
    hide Combination, Accumulated;
    AccumulatedFull(Zeros(size), recoveryRow, recovery, |recovery|);
    AccumulatedIsCombination(Accumulated(Zeros(size), recoveryRow, recovery, |recovery|), presentRow, present,
                             |present|);
  }

  /** One slice with a different byte makes a difference from then on. */
  lemma {:induction false} AccumulatedDiffers(acc: Bytes, row: Vector, slices: seq<Bytes>, n: nat, i: nat, p: nat)
    requires n <= |row| == |slices| && i < |slices| && p < |acc|
    requires forall j :: 0 <= j < |slices| ==> (SameTermAt(row[j], slices[j], |acc|, p) <==> j != i)
    ensures Accumulated(acc, row, slices, n)[p] == Combination(acc, row, AllFitted(slices, |acc|), n)[p] <==> n <= i
  {
    hide Scale, ScaledTerm, Fitted, XorByte, Accumulated, Combination;
    var all := AllFitted(slices, |acc|);
    if n == 0 {
      AccumulatedStart(acc, row, slices);
      CombinationStart(acc, row, all);
    } else {
      AccumulatedDiffers(acc, row, slices, n - 1, i, p);
      AccumulatedStep(acc, row, slices, n - 1);
      CombinationNext(acc, row, all, n);
      assert all[n - 1][..|acc|] == all[n - 1];
      var (a, b) := (Accumulated(acc, row, slices, n - 1)[p], Combination(acc, row, all, n - 1)[p]);
      var (t, u) := (ScaledTerm(row[n - 1], slices[n - 1], |acc|)[p], Scale(row[n - 1], all[n - 1])[p]);
      assert t == u <==> n - 1 != i;
      XorCancels(a, b, t, u);
    }
  }

  lemma XorCancels(a: Byte, b: Byte, t: Byte, u: Byte)
    ensures a == b ==> (XorByte(a, t) == XorByte(b, u) <==> t == u)
    ensures t == u ==> (XorByte(a, t) == XorByte(b, u) <==> a == b)
  {}

  /** A single slice that loses a byte shows in what the kernel makes. */
  lemma KernelSumDiffers(size: nat, recoveryRow: Vector, recovery: seq<Bytes>, presentRow: Vector, present: seq<Bytes>,
                         i: nat, p: nat)
    requires |recoveryRow| == |recovery| && |presentRow| == |present| && i < |present| && p < size
    requires forall j :: 0 <= j < |recovery| ==> size <= |recovery[j]|
    requires forall j :: 0 <= j < |present| ==> (SameTermAt(presentRow[j], present[j], size, p) <==> j != i)
    ensures KernelSum(size, recoveryRow, recovery, presentRow, present)[p]
      != RowSum(size, recoveryRow, recovery, presentRow, AllFitted(present, size))[p]
  {
    hide Combination, Accumulated, ScaledTerm, Scale;
    AccumulatedFull(Zeros(size), recoveryRow, recovery, |recovery|);
    AccumulatedDiffers(Accumulated(Zeros(size), recoveryRow, recovery, |recovery|), presentRow, present, |present|, i,
                       p);
  }

  lemma KernelSumOfFull(size: nat, recoveryRow: Vector, recovery: seq<Bytes>, presentRow: Vector, present: seq<Bytes>)
    requires |recoveryRow| == |recovery| && |presentRow| == |present|
    requires forall i :: 0 <= i < |recovery| ==> size <= |recovery[i]|
    requires forall i :: 0 <= i < |present| ==> size <= |present[i]|
    ensures KernelSum(size, recoveryRow, recovery, presentRow, present)
      == RowSum(size, recoveryRow, recovery, presentRow, present)
  {
    hide Combination, Accumulated;
    AccumulatedFull(Zeros(size), recoveryRow, recovery, |recovery|);
    AccumulatedFull(Accumulated(Zeros(size), recoveryRow, recovery, |recovery|), presentRow, present, |present|);
  }

  /**
   * Builds one output row. A present slice may be shorter than the output once a recovery slice has filled it;
   * nothing is written only when all coefficients are zero.
   */
  method BuildSlice(cache: TableCache, size: nat, recoveryRow: Vector, recovery: seq<Bytes>, presentRow: Vector,
                    present: seq<Bytes>)
    returns (r: Slice)
    requires CacheValid(cache) && Covers(cache, recoveryRow) && Covers(cache, presentRow)
    requires |recoveryRow| == |recovery| && |presentRow| == |present|
    requires forall i :: 0 <= i < |recovery| ==> size <= |recovery[i]|
    requires SomeNonzero(recoveryRow) || forall i :: 0 <= i < |present| ==> size <= |present[i]|
    ensures r.NothingWritten? <==> !SomeNonzero(recoveryRow) && !SomeNonzero(presentRow)
    ensures KernelSum(size, recoveryRow, recovery, presentRow, present) == if r.Filled? then r.data else Zeros(size)
  {
    hide Scale, Plus, Zeros, CacheValid, Index, Accumulated;
    var output := new Byte[size];
    var first := AddRow(cache, output, true, recoveryRow, recovery, Zeros(size));
    first :=
      AddRow(cache, output, first, presentRow, present, Accumulated(Zeros(size), recoveryRow, recovery, |recovery|));
    r := if first then NothingWritten else Filled(output[..]);
  }
}
