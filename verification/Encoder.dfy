/** Recovery blocks: sums of coefficient times input block. */
module Encoder {
  import opened Gf16
  import opened GaloisTable
  import opened LinearAlgebra
  import opened SliceKernel
  import opened Slices

  datatype EncodeError = WrongCount | WrongSize(index: nat)

  datatype EncodeResult = Encoded(data: Bytes) | Rejected(error: EncodeError)

  /** The coefficient of an input block with base value `base` in the recovery block of an exponent. */
  function Coefficient(base: Elem, exponent: nat): Elem {
    if base == 0 then 0 else Pow(base, exponent)
  }

  function Coefficients(bases: Vector, exponent: nat): (r: Vector)
    ensures |r| == |bases| && forall i :: 0 <= i < |bases| ==> r[i] == Coefficient(bases[i], exponent)
  {
    seq(|bases|, i requires 0 <= i < |bases| => Coefficient(bases[i], exponent))
  }

  /** `acc` plus the first `n` products of a coefficient and the front of a slice. */
  function Combination(acc: Bytes, coeffs: Vector, slices: seq<Bytes>, n: nat): (r: Bytes)
    requires n <= |coeffs| && n <= |slices|
    requires forall i :: 0 <= i < n ==> |acc| <= |slices[i]|
    ensures |r| == |acc|
  {
    if n == 0 then acc
    else Plus(Combination(acc, coeffs, slices, n - 1), Scale(coeffs[n - 1], slices[n - 1][..|acc|]))
  }

  lemma CombinationNext(acc: Bytes, coeffs: Vector, slices: seq<Bytes>, n: nat)
    requires 0 < n <= |coeffs| && n <= |slices| && forall i :: 0 <= i < n ==> |acc| <= |slices[i]|
    ensures Combination(acc, coeffs, slices, n)
      == Plus(Combination(acc, coeffs, slices, n - 1), Scale(coeffs[n - 1], slices[n - 1][..|acc|]))
  {
    hide Plus, Scale;
  }

  lemma CombinationStart(acc: Bytes, coeffs: Vector, slices: seq<Bytes>)
    ensures Combination(acc, coeffs, slices, 0) == acc
  {}

  /** The words at position `k` of all slices. */
  function WordColumn(slices: seq<Bytes>, k: nat): (r: Vector)
    requires forall i :: 0 <= i < |slices| ==> 2 * k + 1 < |slices[i]|
    ensures |r| == |slices| && forall i :: 0 <= i < |slices| ==> r[i] == WordAt(slices[i], k)
  {
    seq(|slices|, i requires 0 <= i < |slices| => WordAt(slices[i], k))
  }

  /** Word by word, a combination of slices is a dot product. */
  lemma {:induction false} WordOfCombination(acc: Bytes, coeffs: Vector, slices: seq<Bytes>, n: nat, k: nat)
    requires n <= |coeffs| && n <= |slices|
    requires forall i :: 0 <= i < |slices| ==> |acc| <= |slices[i]|
    requires 2 * k + 1 < |acc|
    ensures WordAt(Combination(acc, coeffs, slices, n), k) == Add(WordAt(acc, k), Dot(coeffs, WordColumn(slices, k), n))
  {
    hide Add, Mul, WordAt, Scale, Plus;
    if n == 0 {
      AddUnit(WordAt(acc, k));
    } else {
      WordOfCombination(acc, coeffs, slices, n - 1, k);
      var front := slices[n - 1][..|acc|];
      WordOfPlus(Combination(acc, coeffs, slices, n - 1), Scale(coeffs[n - 1], front), k);
      WordOfScale(coeffs[n - 1], front, k);
      WordOfFront(slices[n - 1], |acc|, k);
      AddAssoc(WordAt(acc, k), Dot(coeffs, WordColumn(slices, k), n - 1),
               Mul(coeffs[n - 1], WordAt(slices[n - 1], k)));
    }
  }

  lemma WordOfFront(s: Bytes, n: nat, k: nat)
    requires 2 * k + 1 < n <= |s|
    ensures WordAt(s[..n], k) == WordAt(s, k)
  {
    hide Word;
  }

  lemma PlusZeros(s: Bytes)
    ensures Plus(Zeros(|s|), s) == s
  {
    hide XorByte;
    forall i | 0 <= i < |s|
      ensures XorByte(0, s[i]) == s[i]
    {
      XorZero(s[i]);
    }
  }

  lemma XorZero(b: Byte)
    ensures XorByte(0, b) == b && XorByte(b, 0) == b
  {}

  /** The recovery block of an exponent. */
  function RecoveryBlock(bases: Vector, exponent: nat, blocks: seq<Bytes>, size: nat): (r: Bytes)
    requires |blocks| == |bases| && forall i :: 0 <= i < |blocks| ==> |blocks[i]| == size
    ensures |r| == size
  {
    Combination(Zeros(size), Coefficients(bases, exponent), blocks, |blocks|)
  }

  /** Each word of a recovery block is the sum of coefficient times input word. */
  lemma WordOfRecoveryBlock(bases: Vector, exponent: nat, blocks: seq<Bytes>, size: nat, k: nat)
    requires |blocks| == |bases| && forall i :: 0 <= i < |blocks| ==> |blocks[i]| == size
    requires 2 * k + 1 < size
    ensures WordAt(RecoveryBlock(bases, exponent, blocks, size), k)
      == Dot(Coefficients(bases, exponent), WordColumn(blocks, k), |blocks|)
  {
    hide Add, WordAt, Combination, Dot, Zeros;
    WordOfCombination(Zeros(size), Coefficients(bases, exponent), blocks, |blocks|, k);
    WordOfZeros(size, k);
    AddUnit(Dot(Coefficients(bases, exponent), WordColumn(blocks, k), |blocks|));
  }

  /** The bytes at position `p` of all slices, as words. */
  function ByteColumn(slices: seq<Bytes>, p: nat): (r: Vector)
    requires forall i :: 0 <= i < |slices| ==> p < |slices[i]|
    ensures |r| == |slices| && forall i :: 0 <= i < |slices| ==> r[i] == LowWord(slices[i][p])
  {
    seq(|slices|, i requires 0 <= i < |slices| => LowWord(slices[i][p]))
  }

  lemma {:induction false} LastByteOfCombination(acc: Bytes, coeffs: Vector, slices: seq<Bytes>, n: nat)
    requires n <= |coeffs| && n <= |slices| && |acc| % 2 == 1
    requires forall i :: 0 <= i < |slices| ==> |acc| <= |slices[i]|
    ensures Combination(acc, coeffs, slices, n)[|acc| - 1]
      == XorByte(acc[|acc| - 1], Low(Dot(coeffs, ByteColumn(slices, |acc| - 1), n)))
  {
    hide Add, Mul, Scale, XorByte, Low, LowWord;
    var (p, words) := (|acc| - 1, ByteColumn(slices, |acc| - 1));
    if n == 0 {
      LowOfZero();
      XorZero(acc[p]);
    } else {
      LastByteOfCombination(acc, coeffs, slices, n - 1);
      ScaledLast(coeffs[n - 1], slices[n - 1][..|acc|]);
      AddBytes(Dot(coeffs, words, n - 1), Mul(coeffs[n - 1], words[n - 1]));
      XorAssoc(acc[p], Low(Dot(coeffs, words, n - 1)), Low(Mul(coeffs[n - 1], words[n - 1])));
    }
  }

  lemma LowOfZero()
    ensures Low(0) == 0
  {}

  lemma XorAssoc(a: Byte, b: Byte, c: Byte)
    ensures XorByte(XorByte(a, b), c) == XorByte(a, XorByte(b, c))
  {}

  /** The last byte of a recovery block of odd size: the low byte of the sum of coefficient times last byte. */
  lemma LastByteOfRecoveryBlock(bases: Vector, exponent: nat, blocks: seq<Bytes>, size: nat)
    requires |blocks| == |bases| && forall i :: 0 <= i < |blocks| ==> |blocks[i]| == size
    requires size % 2 == 1
    ensures RecoveryBlock(bases, exponent, blocks, size)[size - 1]
      == Low(Dot(Coefficients(bases, exponent), ByteColumn(blocks, size - 1), |blocks|))
  {
    hide Dot, Combination, XorByte, Low;
    LastByteOfCombination(Zeros(size), Coefficients(bases, exponent), blocks, |blocks|);
    XorZero(Low(Dot(Coefficients(bases, exponent), ByteColumn(blocks, size - 1), |blocks|)));
  }

  method EncodeRecoveryBlock(t: Tables, bases: Vector, size: nat, exponent: nat, blocks: seq<Bytes>)
    returns (r: EncodeResult)
    requires t.Valid() && exponent < COUNT
    ensures r == Rejected(WrongCount) <==> |blocks| != |bases|
    ensures r.Rejected? && r.error.WrongSize? ==>
      r.error.index < |blocks| && |blocks[r.error.index]| != size
      && forall i :: 0 <= i < r.error.index ==> |blocks[i]| == size
    ensures r.Encoded? ==> forall i :: 0 <= i < |blocks| ==> |blocks[i]| == size
    ensures r.Encoded? ==> r.data == RecoveryBlock(bases, exponent, blocks, size)
  {
    hide Mul, Pow, Scale, Plus, Zeros;
    if |blocks| != |bases| {
      return Rejected(WrongCount);
    }
    for i := 0 to |blocks|
      invariant forall j :: 0 <= j < i ==> |blocks[j]| == size
    {
      if |blocks[i]| != size {
        return Rejected(WrongSize(i));
      }
    }
    var recovery := new Byte[size](_ => 0);
    ghost var coeffs := Coefficients(bases, exponent);
    assert recovery[..] == Zeros(size);
    for i := 0 to |blocks|
      invariant recovery[..] == Combination(Zeros(size), coeffs, blocks, i)
    {
      var coefficient := t.Power(bases[i], exponent);
      var table := BuildSplitMulTable(t, coefficient);
      assert blocks[i][..size] == blocks[i];
      FullWrite(if i == 0 then Direct else Accumulate, coefficient, blocks[i], recovery[..]);
      PlusZeros(Scale(coefficient, blocks[i]));
      ProcessSlice(blocks[i], recovery, table, if i == 0 then Direct else Accumulate, coefficient);
    }
    r := Encoded(recovery[..]);
  }

  /** When input and output have the same length, the kernel replaces or adds the whole product. */
  lemma FullWrite(op: WriteOp, c: Elem, input: Bytes, before: Bytes)
    requires |before| <= |input|
    ensures Written(op, c, input, before) ==
      if op.Direct? then Scale(c, input[..|before|]) else Plus(before, Scale(c, input[..|before|]))
  {
    hide Scale, Plus;
    assert before[..|before|] == before && before[|before|..] == [];
  }
}
