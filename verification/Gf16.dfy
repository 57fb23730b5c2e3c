/** The field GF(2^16) = GF(2)[x] / (x^16 + x^12 + x^3 + x + 1): its carry-less arithmetic, defined without tables. */
module Gf16 {

  type Elem = bv16

  /** Addition and subtraction. */
  function Add(a: Elem, b: Elem): Elem { a ^ b }

  /** Multiplication by x, reduced by the generator polynomial 0x1100B. */
  function Xtime(a: Elem): Elem { (a << 1) ^ (0x100B & (0 - (a >> 15))) }

  /** `a` when the constant term of `b` is one, and zero otherwise. */
  function Select(b: Elem, a: Elem): Elem { a & (0 - (b & 1)) }

  function Half(b: Elem): Elem { b >> 1 }

  /** The sum of a * x^i over the `k` low bits i of `b` that are set. */
  function Partial(a: Elem, b: Elem, k: nat): Elem
    decreases k
  {
    if k == 0 then 0 else Add(Select(b, a), Partial(Xtime(a), Half(b), k - 1))
  }

  /** Carry-less multiplication modulo the generator polynomial. */
  function Mul(a: Elem, b: Elem): Elem { Partial(a, b, 16) }

  /** a * x^n */
  function Shift(a: Elem, n: nat): Elem {
    if n == 0 then a else Xtime(Shift(a, n - 1))
  }

  /** Iterated multiplication. */
  function Pow(a: Elem, e: nat): Elem {
    if e == 0 then 1 else Mul(a, Pow(a, e - 1))
  }

  // ----- addition

  lemma AddAssoc(a: Elem, b: Elem, c: Elem)
    ensures Add(Add(a, b), c) == Add(a, Add(b, c))
  {}

  lemma AddComm(a: Elem, b: Elem)
    ensures Add(a, b) == Add(b, a)
  {}

  lemma AddUnit(a: Elem)
    ensures Add(a, 0) == a && Add(0, a) == a
  {}

  lemma AddSelf(a: Elem)
    ensures Add(a, a) == 0
  {}

  lemma AddCancel(a: Elem, b: Elem)
    ensures Add(Add(a, b), b) == a
  {
    hide Add;
    AddAssoc(a, b, b);
    AddSelf(b);
    AddUnit(a);
  }

  lemma AddZeroIsEqual(a: Elem, b: Elem)
    ensures Add(a, b) == 0 <==> a == b
  {
    hide Add;
    AddCancel(a, b);
    AddUnit(b);
    AddSelf(a);
  }

  lemma AddExchange(a: Elem, b: Elem, c: Elem, d: Elem)
    ensures Add(Add(a, b), Add(c, d)) == Add(Add(a, c), Add(b, d))
  {
    hide Add;
    AddAssoc(Add(a, b), c, d);
    AddAssoc(a, b, c);
    AddComm(b, c);
    AddAssoc(a, c, b);
    AddAssoc(Add(a, c), b, d);
  }

  lemma AddIsXor(a: Elem, b: Elem)
    ensures Add(a, b) == a ^ b
  {}

  // ----- the bit-level facts about the three primitives

  lemma XtimeXor(a: Elem, b: Elem)
    ensures Xtime(a ^ b) == Xtime(a) ^ Xtime(b)
  {}

  lemma SelectXor(b: Elem, a: Elem, c: Elem)
    ensures Select(b, a ^ c) == Select(b, a) ^ Select(b, c)
  {}

  lemma SelectorXor(a: Elem, c: Elem, b: Elem)
    ensures Select(a ^ c, b) == Select(a, b) ^ Select(c, b)
  {}

  lemma HalfXor(a: Elem, b: Elem)
    ensures Half(a ^ b) == Half(a) ^ Half(b)
  {}

  lemma XtimeAdd(a: Elem, b: Elem)
    ensures Xtime(Add(a, b)) == Add(Xtime(a), Xtime(b))
  {
    hide Xtime, Add;
    XtimeXor(a, b);
    AddIsXor(a, b);
    AddIsXor(Xtime(a), Xtime(b));
  }

  lemma SelectAdd(b: Elem, a: Elem, c: Elem)
    ensures Select(b, Add(a, c)) == Add(Select(b, a), Select(b, c))
  {
    hide Select, Add;
    SelectXor(b, a, c);
    AddIsXor(a, c);
    AddIsXor(Select(b, a), Select(b, c));
  }

  lemma SelectorAdd(a: Elem, c: Elem, b: Elem)
    ensures Select(Add(a, c), b) == Add(Select(a, b), Select(c, b))
  {
    hide Select, Add;
    SelectorXor(a, c, b);
    AddIsXor(a, c);
    AddIsXor(Select(a, b), Select(c, b));
  }

  lemma HalfAdd(a: Elem, b: Elem)
    ensures Half(Add(a, b)) == Add(Half(a), Half(b))
  {
    hide Half, Add;
    HalfXor(a, b);
    AddIsXor(a, b);
    AddIsXor(Half(a), Half(b));
  }

  lemma XtimeSelect(b: Elem, a: Elem)
    ensures Xtime(Select(b, a)) == Select(b, Xtime(a))
  {
    if b & 1 == 0 {
      assert Select(b, a) == 0;
    } else {
      assert b & 1 == 1;
      assert Select(b, a) == a;
    }
  }

  lemma SelectCases(b: Elem, a: Elem)
    ensures Select(b, a) == 0 || Select(b, a) == a
  {
    if b & 1 == 0 {
    } else {
      assert b & 1 == 1;
    }
  }

  lemma XtimeZero()
    ensures Xtime(0) == 0
  {}

  lemma XtimeInjective(a: Elem, b: Elem)
    requires Xtime(a) == Xtime(b)
    ensures a == b
  {}

  /** The constant term and the rest make up the polynomial. */
  lemma SplitConstantTerm(b: Elem)
    ensures Add(Select(b, 1), Xtime(Half(b))) == b
  {}

  // ----- multiplication is bilinear, commutative and associative

  lemma {:induction false} PartialAddLeft(a: Elem, b: Elem, c: Elem, k: nat)
    ensures Partial(Add(a, b), c, k) == Add(Partial(a, c, k), Partial(b, c, k))
    decreases k
  {
    hide Add, Xtime, Select, Half;
    if k == 0 {
      AddUnit(0);
    } else {
      XtimeAdd(a, b);
      SelectAdd(c, a, b);
      PartialAddLeft(Xtime(a), Xtime(b), Half(c), k - 1);
      AddExchange(Select(c, a), Select(c, b), Partial(Xtime(a), Half(c), k - 1), Partial(Xtime(b), Half(c), k - 1));
    }
  }

  lemma {:induction false} PartialAddRight(a: Elem, b: Elem, c: Elem, k: nat)
    ensures Partial(a, Add(b, c), k) == Add(Partial(a, b, k), Partial(a, c, k))
    decreases k
  {
    hide Add, Xtime, Select, Half;
    if k == 0 {
      AddUnit(0);
    } else {
      SelectorAdd(b, c, a);
      HalfAdd(b, c);
      PartialAddRight(Xtime(a), Half(b), Half(c), k - 1);
      AddExchange(Select(b, a), Select(c, a), Partial(Xtime(a), Half(b), k - 1), Partial(Xtime(a), Half(c), k - 1));
    }
  }

  lemma {:induction false} PartialXtime(a: Elem, b: Elem, k: nat)
    ensures Partial(Xtime(a), b, k) == Xtime(Partial(a, b, k))
    decreases k
  {
    hide Add, Xtime, Select, Half;
    if k == 0 {
      XtimeZero();
    } else {
      PartialXtime(Xtime(a), Half(b), k - 1);
      XtimeSelect(b, a);
      XtimeAdd(Select(b, a), Partial(Xtime(a), Half(b), k - 1));
    }
  }

  lemma {:induction false} PartialZeroLeft(b: Elem, k: nat)
    ensures Partial(0, b, k) == 0
    decreases k
  {
    hide Add, Xtime, Select, Half;
    if k == 0 {
    } else {
      XtimeZero();
      SelectCases(b, 0);
      PartialZeroLeft(Half(b), k - 1);
      AddUnit(0);
    }
  }

  /** `b` is a polynomial of degree less than `k`. */
  predicate Fits(b: Elem, k: nat)
    decreases k
  {
    if k == 0 then b == 0 else Fits(Half(b), k - 1)
  }

  lemma AlwaysFits(b: Elem)
    ensures Fits(b, 16)
  {
    hide HalfFour;
    SixteenHalvings(b);
    FitsFour(HalfFour(HalfFour(HalfFour(b))), 0);
    FitsFour(HalfFour(HalfFour(b)), 4);
    FitsFour(HalfFour(b), 8);
    FitsFour(b, 12);
  }

  function HalfFour(b: Elem): Elem { Half(Half(Half(Half(b)))) }

  lemma FitsFour(b: Elem, k: nat)
    requires Fits(HalfFour(b), k)
    ensures Fits(b, k + 4)
  {
    hide Half;
    assert Fits(Half(Half(Half(b))), k + 1);
    assert Fits(Half(Half(b)), k + 2);
    assert Fits(Half(b), k + 3);
  }

  lemma HalfFourIsShift(b: Elem)
    ensures HalfFour(b) == b >> 4
  {}

  lemma FourShifts(b: Elem)
    ensures (((b >> 4) >> 4) >> 4) >> 4 == 0
  {}

  lemma SixteenHalvings(b: Elem)
    ensures HalfFour(HalfFour(HalfFour(HalfFour(b)))) == 0
  {
    hide HalfFour;
    HalfFourIsShift(b);
    HalfFourIsShift(b >> 4);
    HalfFourIsShift((b >> 4) >> 4);
    HalfFourIsShift(((b >> 4) >> 4) >> 4);
    FourShifts(b);
  }

  lemma {:induction false} PartialOneLeft(b: Elem, k: nat)
    requires Fits(b, k)
    ensures Partial(1, b, k) == b
    decreases k
  {
    hide Add, Xtime, Select, Half;
    if k == 0 {
    } else {
      PartialOneLeft(Half(b), k - 1);
      PartialXtime(1, Half(b), k - 1);
      SplitConstantTerm(b);
    }
  }

  lemma MulAddLeft(a: Elem, b: Elem, c: Elem)
    ensures Mul(Add(a, b), c) == Add(Mul(a, c), Mul(b, c))
  {
    hide Add, Partial;
    PartialAddLeft(a, b, c, 16);
  }

  lemma MulAddRight(a: Elem, b: Elem, c: Elem)
    ensures Mul(a, Add(b, c)) == Add(Mul(a, b), Mul(a, c))
  {
    hide Add, Partial;
    PartialAddRight(a, b, c, 16);
  }

  lemma MulXtime(a: Elem, b: Elem)
    ensures Mul(Xtime(a), b) == Xtime(Mul(a, b))
  {
    hide Xtime, Partial;
    PartialXtime(a, b, 16);
  }

  lemma MulZeroLeft(a: Elem)
    ensures Mul(0, a) == 0
  {
    hide Partial;
    PartialZeroLeft(a, 16);
  }

  lemma MulOneLeft(a: Elem)
    ensures Mul(1, a) == a
  {
    hide Partial, Fits;
    AlwaysFits(a);
    PartialOneLeft(a, 16);
  }

  /** (c * a) * b == (c * b) * a, one bit of `a` at a time. */
  lemma {:induction false} PartialSwap(c: Elem, a: Elem, b: Elem, k: nat)
    ensures Mul(Partial(c, a, k), b) == Partial(Mul(c, b), a, k)
    decreases k
  {
    hide Add, Xtime, Select, Half, Mul;
    if k == 0 {
      MulZeroLeft(b);
    } else {
      MulAddLeft(Select(a, c), Partial(Xtime(c), Half(a), k - 1), b);
      PartialSwap(Xtime(c), Half(a), b, k - 1);
      MulXtime(c, b);
      MulSelect(a, c, b);
    }
  }

  lemma MulSelect(a: Elem, c: Elem, b: Elem)
    ensures Mul(Select(a, c), b) == Select(a, Mul(c, b))
  {
    hide Mul;
    MulZeroLeft(b);
    if a & 1 == 0 {
      assert Select(a, c) == 0 && Select(a, Mul(c, b)) == 0;
    } else {
      assert a & 1 == 1;
      assert Select(a, c) == c && Select(a, Mul(c, b)) == Mul(c, b);
    }
  }

  lemma MulSwap(c: Elem, a: Elem, b: Elem)
    ensures Mul(Mul(c, a), b) == Mul(Mul(c, b), a)
  {
    hide Partial;
    PartialSwap(c, a, b, 16);
  }

  lemma MulComm(a: Elem, b: Elem)
    ensures Mul(a, b) == Mul(b, a)
  {
    hide Mul;
    MulSwap(1, a, b);
    MulOneLeft(a);
    MulOneLeft(b);
  }

  lemma MulAssoc(a: Elem, b: Elem, c: Elem)
    ensures Mul(Mul(a, b), c) == Mul(a, Mul(b, c))
  {
    hide Mul;
    MulComm(a, b);
    MulSwap(b, a, c);
    MulComm(Mul(b, c), a);
  }

  lemma MulOneRight(a: Elem)
    ensures Mul(a, 1) == a
  {
    hide Mul;
    MulComm(a, 1);
    MulOneLeft(a);
  }

  lemma MulZeroRight(a: Elem)
    ensures Mul(a, 0) == 0
  {
    hide Mul;
    MulComm(a, 0);
    MulZeroLeft(a);
  }
}
