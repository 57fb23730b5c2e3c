/** Byte slices as vectors of words, and the kernel that multiplies one by a coefficient. */
module Slices {
  import opened Gf16
  import opened SliceKernel

  function WordAt(s: Bytes, k: nat): Elem
    requires 2 * k + 1 < |s|
  {
    Word(s[2 * k], s[2 * k + 1])
  }

  /** Byte `i` of the product of `c` and `s`; an odd last byte is multiplied on its own and truncated. */
  function ScaledByte(c: Elem, s: Bytes, i: nat): Byte
    requires i < |s|
  {
    if i % 2 == 0 && i + 1 == |s| then Low(Mul(c, LowWord(s[i])))
    else if i % 2 == 0 then Low(Mul(c, Word(s[i], s[i + 1])))
    else High(Mul(c, Word(s[i - 1], s[i])))
  }

  function Scale(c: Elem, s: Bytes): (r: Bytes)
    ensures |r| == |s|
    ensures forall i :: 0 <= i < |s| ==> r[i] == ScaledByte(c, s, i)
  {
    seq(|s|, i requires 0 <= i < |s| => ScaledByte(c, s, i))
  }

  function Plus(s: Bytes, u: Bytes): (r: Bytes)
    requires |s| == |u|
    ensures |r| == |s|
    ensures forall i :: 0 <= i < |s| ==> r[i] == XorByte(s[i], u[i])
  {
    seq(|s|, i requires 0 <= i < |s| => XorByte(s[i], u[i]))
  }

  function Zeros(n: nat): (r: Bytes)
    ensures |r| == n && forall i :: 0 <= i < n ==> r[i] == 0
  {
    seq(n, _ => 0)
  }

  lemma WordOfScale(c: Elem, s: Bytes, k: nat)
    requires 2 * k + 1 < |s|
    ensures WordAt(Scale(c, s), k) == Mul(c, WordAt(s, k))
  {
    hide Mul, Word, Low, High;
    WordRoundTrip(Mul(c, WordAt(s, k)));
  }

  lemma WordOfPlus(s: Bytes, u: Bytes, k: nat)
    requires |s| == |u| && 2 * k + 1 < |s|
    ensures WordAt(Plus(s, u), k) == Add(WordAt(s, k), WordAt(u, k))
  {
    hide Word, XorByte, Add;
    AddWords(s[2 * k], s[2 * k + 1], u[2 * k], u[2 * k + 1]);
  }

  lemma WordOfZeros(n: nat, k: nat)
    requires 2 * k + 1 < n
    ensures WordAt(Zeros(n), k) == 0
  {}

  /** An even-length slice is determined by its words. */
  lemma WordsDetermine(s: Bytes, u: Bytes)
    requires |s| == |u| && |s| % 2 == 0
    requires forall k: nat :: 2 * k + 1 < |s| ==> WordAt(s, k) == WordAt(u, k)
    ensures s == u
  {
    hide Word;
    forall i | 0 <= i < |s|
      ensures s[i] == u[i]
    {
      var k := i / 2;
      assert WordAt(s, k) == WordAt(u, k);
      BytesRoundTrip(s[2 * k], s[2 * k + 1]);
      BytesRoundTrip(u[2 * k], u[2 * k + 1]);
    }
  }

  /** x^8 times one is x^8: the product of a low byte reaches into the high byte. */
  lemma CarryIntoHighByte()
    ensures High(Mul(0x100, Word(1, 0))) == 1
    ensures Low(0) == 0 && High(0) == 0 && Word(0, 0) == 0 && LowWord(0) == 0
  {
    assert Word(1, 0) == 1;
    MulOneRight(0x100);
  }

  lemma ScaleOfZeros(c: Elem, n: nat)
    ensures Scale(c, Zeros(n)) == Zeros(n)
  {
    hide Mul, Word, LowWord, Low, High;
    CarryIntoHighByte();
    MulZeroRight(c);
  }

  // ----- the kernel

  datatype WriteOp = Direct | Accumulate

  function Combine(op: WriteOp, old_: Byte, new_: Byte): Byte {
    if op.Direct? then new_ else XorByte(old_, new_)
  }

  /** What the kernel leaves in an output of `before`: the product over the common length, and the rest as it was. */
  function Written(op: WriteOp, c: Elem, input: Bytes, before: Bytes): (r: Bytes)
    ensures |r| == |before|
  {
    var n := if |input| < |before| then |input| else |before|;
    (if op.Direct? then Scale(c, input[..n]) else Plus(before[..n], Scale(c, input[..n]))) + before[n..]
  }

  /** Word by word: the product, or the sum with it. */
  lemma WordOfWritten(op: WriteOp, c: Elem, input: Bytes, before: Bytes, k: nat)
    requires 2 * k + 1 < |input| && 2 * k + 1 < |before|
    ensures WordAt(Written(op, c, input, before), k)
      == if op.Direct? then Mul(c, WordAt(input, k)) else Add(WordAt(before, k), Mul(c, WordAt(input, k)))
  {
    hide Mul, Add, Word, XorByte, Scale;
    var n := if |input| < |before| then |input| else |before|;
    var scaled := Scale(c, input[..n]);
    WordOfScale(c, input[..n], k);
    WordOfPlus(before[..n], scaled, k);
    var written := Written(op, c, input, before);
    assert forall i :: 0 <= i < n ==> written[i] == (if op.Direct? then scaled else Plus(before[..n], scaled))[i];
  }

  /** The odd last byte that both have is that of its own product, or the sum with it; what is behind it stays. */
  lemma EndOfWritten(op: WriteOp, c: Elem, input: Bytes, before: Bytes, i: nat)
    requires i < |before|
    ensures i % 2 == 0 && i < |input| && (i + 1 == |input| || i + 1 == |before|) ==>
      var product := Low(Mul(c, LowWord(input[i])));
      Written(op, c, input, before)[i] == if op.Direct? then product else XorByte(before[i], product)
    ensures |input| <= i ==> Written(op, c, input, before)[i] == before[i]
  {
    hide Mul, XorByte, Low, LowWord, Scale;
    var n := if |input| < |before| then |input| else |before|;
    if i % 2 == 0 && i + 1 == n {
      ScaledLast(c, input[..n]);
    }
  }

  method WriteWord(output: array<Byte>, idx: nat, op: WriteOp, result: Elem)
    requires 2 * idx + 1 < output.Length
    modifies output
    ensures output[2 * idx] == Combine(op, old(output[2 * idx]), Low(result))
    ensures output[2 * idx + 1] == Combine(op, old(output[2 * idx + 1]), High(result))
    ensures forall i :: 0 <= i < output.Length && i != 2 * idx && i != 2 * idx + 1 ==> output[i] == old(output[i])
  {
    hide Add, Word, Low, High, XorByte;
    match op {
      case Direct =>
        output[2 * idx] := Low(result);
        output[2 * idx + 1] := High(result);
      case Accumulate =>
        var word := Word(output[2 * idx], output[2 * idx + 1]);
        BytesRoundTrip(output[2 * idx], output[2 * idx + 1]);
        AddBytes(word, result);
        output[2 * idx] := Low(Add(word, result));
        output[2 * idx + 1] := High(Add(word, result));
    }
  }

  lemma ScaledPair(c: Elem, s: Bytes, k: nat)
    requires 2 * k + 1 < |s|
    ensures Scale(c, s)[2 * k] == Low(Mul(c, Word(s[2 * k], s[2 * k + 1])))
    ensures Scale(c, s)[2 * k + 1] == High(Mul(c, Word(s[2 * k], s[2 * k + 1])))
  {
    hide Mul, Word, Low, High;
  }

  lemma ScaledLast(c: Elem, s: Bytes)
    requires |s| % 2 == 1
    ensures Scale(c, s)[|s| - 1] == Low(Mul(c, LowWord(s[|s| - 1])))
  {
    hide Mul, Word, Low, High, LowWord;
  }

  lemma AssembleWritten(op: WriteOp, c: Elem, input: Bytes, before: Bytes, after: Bytes, n: nat)
    requires |after| == |before| && n == if |input| < |before| then |input| else |before|
    requires forall i :: 0 <= i < n ==> after[i] == Combine(op, before[i], Scale(c, input[..n])[i])
    requires forall i :: n <= i < |before| ==> after[i] == before[i]
    ensures after == Written(op, c, input, before)
  {
    hide ScaledByte, XorByte;
  }

  method ProcessSlice(input: Bytes, output: array<Byte>, s: SplitTable, op: WriteOp, ghost c: Elem)
    requires TableFor(s, c)
    modifies output
    ensures output[..] == Written(op, c, input, old(output[..]))
  {
    hide Mul, Add, Word, Low, High, LowWord, XorByte, ByteIndex, Combine, Written, ScaledByte;
    var minLen := if |input| < output.Length then |input| else output.Length;
    var numWords := minLen / 2;
    ghost var scaled := Scale(c, input[..minLen]);
    for idx := 0 to numWords
      invariant forall i :: 0 <= i < 2 * idx ==> output[i] == Combine(op, old(output[i]), scaled[i])
      invariant forall i :: 2 * idx <= i < output.Length ==> output[i] == old(output[i])
    {
      var inWord := Word(input[2 * idx], input[2 * idx + 1]);
      var result := s.Lookup(inWord);
      LookupIsMul(s, c, inWord);
      ScaledPair(c, input[..minLen], idx);
      WriteWord(output, idx, op, result);
    }
    if minLen % 2 == 1 {
      var last := numWords * 2;
      var lowByte := Low(s.low[ByteIndex(input[last])]);
      ScaledLast(c, input[..minLen]);
      output[last] := Combine(op, output[last], lowByte);
    }
    AssembleWritten(op, c, input, old(output[..]), output[..], minLen);
  }
}
