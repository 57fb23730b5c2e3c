/**
 * The residues of polynomials over GF(2) modulo the CRC-32 polynomial, in the reflected form of the source: the top bit
 * of a word is the constant term. Carry-less arithmetic, defined without tables.
 */
module CrcField {

  type Residue = bv32

  const ONE: Residue := 0x80000000

  function Add(a: Residue, b: Residue): Residue { a ^ b }

  /** Multiplication by x, reduced by the reflected polynomial 0xEDB88320. */
  function Xtime(a: Residue): Residue { Raise(a) ^ Overflow(a) }

  function Raise(a: Residue): Residue { a >> 1 }

  function Overflow(a: Residue): Residue { 0xEDB88320 & (0 - (a & 1)) }

  /** `a` when the constant term of `b` is one, and zero otherwise. */
  function Select(b: Residue, a: Residue): Residue { a & (0 - (b >> 31)) }

  /** The quotient by x, without the constant term. */
  function Drop(b: Residue): Residue { b << 1 }

  /** The sum of a * x^i over the terms x^i, i < k, of `b`. */
  function Partial(a: Residue, b: Residue, k: nat): Residue
    decreases k
  {
    if k == 0 then 0 else Add(Select(b, a), Partial(Xtime(a), Drop(b), k - 1))
  }

  /** Multiplication of residues. */
  function Mul(a: Residue, b: Residue): Residue { Partial(a, b, 32) }

  /** a * x^n */
  function Shift(a: Residue, n: nat): Residue {
    if n == 0 then a else Xtime(Shift(a, n - 1))
  }

  // ----- addition

  lemma AddAssoc(a: Residue, b: Residue, c: Residue)
    ensures Add(Add(a, b), c) == Add(a, Add(b, c))
  {}

  lemma AddComm(a: Residue, b: Residue)
    ensures Add(a, b) == Add(b, a)
  {}

  lemma AddUnit(a: Residue)
    ensures Add(a, 0) == a && Add(0, a) == a
  {}

  lemma AddSelf(a: Residue)
    ensures Add(a, a) == 0
  {}

  lemma AddExchange(a: Residue, b: Residue, c: Residue, d: Residue)
    ensures Add(Add(a, b), Add(c, d)) == Add(Add(a, c), Add(b, d))
  {
    hide Add;
    AddAssoc(Add(a, b), c, d);
    AddAssoc(a, b, c);
    AddComm(b, c);
    AddAssoc(a, c, b);
    AddAssoc(Add(a, c), b, d);
  }

  lemma AddIsXor(a: Residue, b: Residue)
    ensures Add(a, b) == a ^ b
  {}

  // ----- the bit-level facts about the primitives

  lemma OverflowXor(a: Residue, b: Residue)
    ensures Overflow(a ^ b) == Overflow(a) ^ Overflow(b)
  {
    if a & 1 == 0 {
      assert (a ^ b) & 1 == b & 1;
    } else {
      assert a & 1 == 1;
      assert (a ^ b) & 1 == 1 ^ (b & 1);
      if b & 1 == 0 {
      } else {
        assert b & 1 == 1;
      }
    }
  }

  lemma RaiseXor(a: Residue, b: Residue)
    ensures Raise(a ^ b) == Raise(a) ^ Raise(b)
  {}

  lemma SelectXor(b: Residue, a: Residue, c: Residue)
    ensures Select(b, a ^ c) == Select(b, a) ^ Select(b, c)
  {}

  lemma SelectorXor(a: Residue, c: Residue, b: Residue)
    ensures Select(a ^ c, b) == Select(a, b) ^ Select(c, b)
  {}

  lemma XtimeParts(a: Residue)
    ensures Xtime(a) == Add(Raise(a), Overflow(a))
  {
    hide Raise, Overflow;
  }

  lemma XtimeAdd(a: Residue, b: Residue)
    ensures Xtime(Add(a, b)) == Add(Xtime(a), Xtime(b))
  {
    hide Raise, Overflow, Add, Xtime;
    XtimeParts(a);
    XtimeParts(b);
    XtimeParts(Add(a, b));
    RaiseXor(a, b);
    OverflowXor(a, b);
    AddIsXor(a, b);
    AddIsXor(Raise(a), Raise(b));
    AddIsXor(Overflow(a), Overflow(b));
    AddExchange(Raise(a), Raise(b), Overflow(a), Overflow(b));
  }

  lemma SelectAdd(b: Residue, a: Residue, c: Residue)
    ensures Select(b, Add(a, c)) == Add(Select(b, a), Select(b, c))
  {
    hide Select, Add;
    SelectXor(b, a, c);
    AddIsXor(a, c);
    AddIsXor(Select(b, a), Select(b, c));
  }

  lemma SelectCases(b: Residue, a: Residue)
    ensures Select(b, a) == 0 || Select(b, a) == a
  {
    if b >> 31 == 0 {
    } else {
      assert b >> 31 == 1;
    }
  }

  lemma XtimeSelect(b: Residue, a: Residue)
    ensures Xtime(Select(b, a)) == Select(b, Xtime(a))
  {
    if b >> 31 == 0 {
      assert Select(b, a) == 0;
    } else {
      assert b >> 31 == 1;
      assert Select(b, a) == a;
    }
  }

  lemma XtimeZero()
    ensures Xtime(0) == 0
  {}

  lemma XtimeInjective(a: Residue, b: Residue)
    requires Xtime(a) == Xtime(b)
    ensures a == b
  {}

  /** The constant term and the rest make up the polynomial. */
  lemma SplitConstantTerm(b: Residue)
    ensures Add(Select(b, ONE), Xtime(Drop(b))) == b
  {}

  // ----- multiplication is bilinear, commutative and associative

  lemma {:induction false} PartialAddLeft(a: Residue, b: Residue, c: Residue, k: nat)
    ensures Partial(Add(a, b), c, k) == Add(Partial(a, c, k), Partial(b, c, k))
    decreases k
  {
    hide Add, Xtime, Select, Drop;
    if k == 0 {
      AddUnit(0);
    } else {
      XtimeAdd(a, b);
      SelectAdd(c, a, b);
      PartialAddLeft(Xtime(a), Xtime(b), Drop(c), k - 1);
      AddExchange(Select(c, a), Select(c, b), Partial(Xtime(a), Drop(c), k - 1), Partial(Xtime(b), Drop(c), k - 1));
    }
  }

  lemma {:induction false} PartialXtime(a: Residue, b: Residue, k: nat)
    ensures Partial(Xtime(a), b, k) == Xtime(Partial(a, b, k))
    decreases k
  {
    hide Add, Xtime, Select, Drop;
    if k == 0 {
      XtimeZero();
    } else {
      PartialXtime(Xtime(a), Drop(b), k - 1);
      XtimeSelect(b, a);
      XtimeAdd(Select(b, a), Partial(Xtime(a), Drop(b), k - 1));
    }
  }

  lemma {:induction false} PartialZeroLeft(b: Residue, k: nat)
    ensures Partial(0, b, k) == 0
    decreases k
  {
    hide Add, Xtime, Select, Drop;
    if k == 0 {
    } else {
      XtimeZero();
      SelectCases(b, 0);
      PartialZeroLeft(Drop(b), k - 1);
      AddUnit(0);
    }
  }

  /** `b` is a polynomial of degree less than `k`. */
  predicate Fits(b: Residue, k: nat)
    decreases k
  {
    if k == 0 then b == 0 else Fits(Drop(b), k - 1)
  }

  function DropFour(b: Residue): Residue { Drop(Drop(Drop(Drop(b)))) }

  lemma FitsFour(b: Residue, k: nat)
    requires Fits(DropFour(b), k)
    ensures Fits(b, k + 4)
  {
    hide Drop;
    assert Fits(Drop(Drop(Drop(b))), k + 1);
    assert Fits(Drop(Drop(b)), k + 2);
    assert Fits(Drop(b), k + 3);
  }

  lemma DropFourIsShift(b: Residue)
    ensures DropFour(b) == b << 4
  {}

  lemma EightShifts(b: Residue)
    ensures (((((((b << 4) << 4) << 4) << 4) << 4) << 4) << 4) << 4 == 0
  {}

  lemma ZeroFits()
    ensures Fits(0, 0)
  {}

  lemma AlwaysFits(b: Residue)
    ensures Fits(b, 32)
  {
    hide DropFour, Fits;
    ZeroFits();
    var b1 := DropFour(b);
    var b2 := DropFour(b1);
    var b3 := DropFour(b2);
    var b4 := DropFour(b3);
    var b5 := DropFour(b4);
    var b6 := DropFour(b5);
    var b7 := DropFour(b6);
    DropFourIsShift(b);
    DropFourIsShift(b1);
    DropFourIsShift(b2);
    DropFourIsShift(b3);
    DropFourIsShift(b4);
    DropFourIsShift(b5);
    DropFourIsShift(b6);
    DropFourIsShift(b7);
    EightShifts(b);
    FitsFour(b7, 0);
    FitsFour(b6, 4);
    FitsFour(b5, 8);
    FitsFour(b4, 12);
    FitsFour(b3, 16);
    FitsFour(b2, 20);
    FitsFour(b1, 24);
    FitsFour(b, 28);
  }

  lemma {:induction false} PartialOneLeft(b: Residue, k: nat)
    requires Fits(b, k)
    ensures Partial(ONE, b, k) == b
    decreases k
  {
    hide Add, Xtime, Select, Drop;
    if k == 0 {
    } else {
      PartialOneLeft(Drop(b), k - 1);
      PartialXtime(ONE, Drop(b), k - 1);
      SplitConstantTerm(b);
    }
  }

  lemma MulAddLeft(a: Residue, b: Residue, c: Residue)
    ensures Mul(Add(a, b), c) == Add(Mul(a, c), Mul(b, c))
  {
    hide Add, Partial;
    PartialAddLeft(a, b, c, 32);
  }

  lemma MulXtime(a: Residue, b: Residue)
    ensures Mul(Xtime(a), b) == Xtime(Mul(a, b))
  {
    hide Xtime, Partial;
    PartialXtime(a, b, 32);
  }

  lemma MulZeroLeft(a: Residue)
    ensures Mul(0, a) == 0
  {
    hide Partial;
    PartialZeroLeft(a, 32);
  }

  lemma MulOneLeft(a: Residue)
    ensures Mul(ONE, a) == a
  {
    hide Partial, Fits;
    AlwaysFits(a);
    PartialOneLeft(a, 32);
  }

  lemma MulSelect(a: Residue, c: Residue, b: Residue)
    ensures Mul(Select(a, c), b) == Select(a, Mul(c, b))
  {
    hide Mul;
    MulZeroLeft(b);
    if a >> 31 == 0 {
      assert Select(a, c) == 0 && Select(a, Mul(c, b)) == 0;
    } else {
      assert a >> 31 == 1;
      assert Select(a, c) == c && Select(a, Mul(c, b)) == Mul(c, b);
    }
  }

  /** (c * a) * b == (c * b) * a, one term of `a` at a time. */
  lemma {:induction false} PartialSwap(c: Residue, a: Residue, b: Residue, k: nat)
    ensures Mul(Partial(c, a, k), b) == Partial(Mul(c, b), a, k)
    decreases k
  {
    hide Add, Xtime, Select, Drop, Mul;
    if k == 0 {
      MulZeroLeft(b);
    } else {
      MulAddLeft(Select(a, c), Partial(Xtime(c), Drop(a), k - 1), b);
      PartialSwap(Xtime(c), Drop(a), b, k - 1);
      MulXtime(c, b);
      MulSelect(a, c, b);
    }
  }

  lemma MulSwap(c: Residue, a: Residue, b: Residue)
    ensures Mul(Mul(c, a), b) == Mul(Mul(c, b), a)
  {
    hide Partial;
    PartialSwap(c, a, b, 32);
  }

  lemma MulComm(a: Residue, b: Residue)
    ensures Mul(a, b) == Mul(b, a)
  {
    hide Mul;
    MulSwap(ONE, a, b);
    MulOneLeft(a);
    MulOneLeft(b);
  }

  lemma MulAssoc(a: Residue, b: Residue, c: Residue)
    ensures Mul(Mul(a, b), c) == Mul(a, Mul(b, c))
  {
    hide Mul;
    MulComm(a, b);
    MulSwap(b, a, c);
    MulComm(Mul(b, c), a);
  }

  lemma MulAddRight(a: Residue, b: Residue, c: Residue)
    ensures Mul(a, Add(b, c)) == Add(Mul(a, b), Mul(a, c))
  {
    hide Add, Mul;
    MulComm(a, Add(b, c));
    MulComm(a, b);
    MulComm(a, c);
    MulAddLeft(b, c, a);
  }
}
