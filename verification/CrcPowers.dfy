/** Powers of x modulo the CRC-32 polynomial, and the fast exponentiation of the source. */
module CrcPowers {
  import opened CrcField

  /** The number of distinct powers of x that the source reduces exponents by. */
  const PERIOD: nat := 0xFFFF_FFFF

  function XPow(n: nat): Residue { Shift(ONE, n) }

  /** Used where exponents are literals, so that no power is ever unrolled. */
  ghost predicate IsXPow(n: nat, a: Residue) { XPow(n) == a }

  // ----- exponent laws

  lemma {:induction false} MulShift(a: Residue, n: nat, b: Residue)
    ensures Mul(Shift(a, n), b) == Shift(Mul(a, b), n)
  {
    hide Mul, Xtime;
    if n == 0 {
    } else {
      MulShift(a, n - 1, b);
      MulXtime(Shift(a, n - 1), b);
    }
  }

  lemma {:induction false} ShiftShift(a: Residue, m: nat, n: nat)
    ensures Shift(Shift(a, m), n) == Shift(a, m + n)
  {
    hide Xtime;
    if n == 0 {
    } else {
      ShiftShift(a, m, n - 1);
    }
  }

  /** Shifting multiplies by a power of x. */
  lemma ShiftIsMul(a: Residue, n: nat)
    ensures Shift(a, n) == Mul(XPow(n), a) && Shift(a, n) == Mul(a, XPow(n))
  {
    hide Mul, Shift;
    MulShift(ONE, n, a);
    MulOneLeft(a);
    MulComm(XPow(n), a);
  }

  lemma XPowAdd(m: nat, n: nat)
    ensures Mul(XPow(m), XPow(n)) == XPow(m + n)
  {
    hide Mul, Shift;
    ShiftIsMul(XPow(n), m);
    ShiftShift(ONE, n, m);
  }

  lemma {:induction false} ShiftInjective(a: Residue, b: Residue, n: nat)
    requires Shift(a, n) == Shift(b, n)
    ensures a == b
  {
    hide Xtime;
    if n != 0 {
      XtimeInjective(Shift(a, n - 1), Shift(b, n - 1));
      ShiftInjective(a, b, n - 1);
    }
  }

  lemma XPowZero()
    ensures XPow(0) == ONE
  {}

  lemma {:induction false} XPowMultiple(g: nat, k: nat)
    requires XPow(g) == ONE
    ensures XPow(g * k) == ONE
  {
    hide Mul, Shift;
    if k == 0 {
      XPowZero();
      assert g * k == 0;
    } else {
      XPowMultiple(g, k - 1);
      assert g * k == g + g * (k - 1);
      XPowAdd(g, g * (k - 1));
      MulOneLeft(ONE);
    }
  }

  // ----- ground products

  /** Four times `Xtime`, in one expression for literals. */
  function XtimeFour(a: Residue): Residue {
    var a1 := (a >> 1) ^ (0xEDB88320 & (0 - (a & 1)));
    var a2 := (a1 >> 1) ^ (0xEDB88320 & (0 - (a1 & 1)));
    var a3 := (a2 >> 1) ^ (0xEDB88320 & (0 - (a2 & 1)));
    (a3 >> 1) ^ (0xEDB88320 & (0 - (a3 & 1)))
  }

  lemma XtimeFlat(a: Residue)
    ensures Xtime(a) == (a >> 1) ^ (0xEDB88320 & (0 - (a & 1)))
  {}

  lemma XtimeFourIsXtime(a: Residue)
    ensures XtimeFour(a) == Xtime(Xtime(Xtime(Xtime(a))))
  {
    hide Xtime;
    XtimeFlat(a);
    XtimeFlat(Xtime(a));
    XtimeFlat(Xtime(Xtime(a)));
    XtimeFlat(Xtime(Xtime(Xtime(a))));
  }

  /** The four lowest terms of `b`. */
  function MulFour(a: Residue, b: Residue): Residue {
    Add(Add(Select(b, a), Select(Drop(b), Xtime(a))),
        Add(Select(Drop(Drop(b)), Xtime(Xtime(a))), Select(Drop(Drop(Drop(b))), Xtime(Xtime(Xtime(a))))))
  }

  function MulSixteen(a: Residue, b: Residue): Residue {
    var (a4, b4) := (XtimeFour(a), DropFour(b));
    var (a8, b8) := (XtimeFour(a4), DropFour(b4));
    Add(MulFour(a, b), Add(MulFour(a4, b4), Add(MulFour(a8, b8), MulFour(XtimeFour(a8), DropFour(b8)))))
  }

  function XtimeSixteen(a: Residue): Residue { XtimeFour(XtimeFour(XtimeFour(XtimeFour(a)))) }

  function DropSixteen(b: Residue): Residue { DropFour(DropFour(DropFour(DropFour(b)))) }

  /** `Mul` without recursion, for products of literals. */
  function MulFlat(a: Residue, b: Residue): Residue {
    Add(MulSixteen(a, b), MulSixteen(XtimeSixteen(a), DropSixteen(b)))
  }

  lemma PartialFour(a: Residue, b: Residue, k: nat)
    ensures Partial(a, b, k + 4) == Add(MulFour(a, b), Partial(XtimeFour(a), DropFour(b), k))
  {
    hide Add, Xtime, Select, Drop, XtimeFour;
    XtimeFourIsXtime(a);
    var (a1, a2, a3) := (Xtime(a), Xtime(Xtime(a)), Xtime(Xtime(Xtime(a))));
    var (b1, b2, b3) := (Drop(b), Drop(Drop(b)), Drop(Drop(Drop(b))));
    var rest := Partial(XtimeFour(a), DropFour(b), k);
    assert Partial(a3, b3, k + 1) == Add(Select(b3, a3), rest);
    assert Partial(a2, b2, k + 2) == Add(Select(b2, a2), Partial(a3, b3, k + 1));
    assert Partial(a1, b1, k + 3) == Add(Select(b1, a1), Partial(a2, b2, k + 2));
    AddAssoc(Select(b2, a2), Select(b3, a3), rest);
    AddAssoc(Select(b, a), Select(b1, a1), Partial(a2, b2, k + 2));
    AddAssoc(Add(Select(b, a), Select(b1, a1)), Add(Select(b2, a2), Select(b3, a3)), rest);
  }

  lemma PartialSixteen(a: Residue, b: Residue, k: nat)
    ensures Partial(a, b, k + 16) == Add(MulSixteen(a, b), Partial(XtimeSixteen(a), DropSixteen(b), k))
  {
    hide Add, MulFour, XtimeFour, DropFour, Partial;
    var (a4, b4) := (XtimeFour(a), DropFour(b));
    var (a8, b8) := (XtimeFour(a4), DropFour(b4));
    var (a12, b12) := (XtimeFour(a8), DropFour(b8));
    var rest := Partial(XtimeFour(a12), DropFour(b12), k);
    PartialFour(a12, b12, k);
    PartialFour(a8, b8, k + 4);
    PartialFour(a4, b4, k + 8);
    PartialFour(a, b, k + 12);
    AddAssoc(MulFour(a8, b8), MulFour(a12, b12), rest);
    AddAssoc(MulFour(a4, b4), Add(MulFour(a8, b8), MulFour(a12, b12)), rest);
    AddAssoc(MulFour(a, b), Add(MulFour(a4, b4), Add(MulFour(a8, b8), MulFour(a12, b12))), rest);
  }

  lemma MulIsFlat(a: Residue, b: Residue)
    ensures Mul(a, b) == MulFlat(a, b)
  {
    hide Add, MulSixteen, XtimeSixteen, DropSixteen;
    PartialSixteen(a, b, 16);
    PartialSixteen(XtimeSixteen(a), DropSixteen(b), 0);
    AddUnit(MulSixteen(XtimeSixteen(a), DropSixteen(b)));
  }

  lemma Square(n: nat, a: Residue, m: nat, b: Residue)
    requires IsXPow(n, a) && MulFlat(a, a) == b && m == 2 * n
    ensures IsXPow(m, b)
  {
    hide XPow, MulFlat, Mul;
    XPowAdd(n, n);
    MulIsFlat(a, a);
  }

  lemma XPowOne()
    ensures IsXPow(1, 0x40000000)
  {
    assert Shift(ONE, 0) == ONE;
    assert Xtime(ONE) == 0x40000000;
  }

  lemma Squares0()
    ensures MulFlat(0x40000000, 0x40000000) == 0x20000000
    ensures MulFlat(0x20000000, 0x20000000) == 0x08000000
  {}

  lemma Squares2()
    ensures MulFlat(0x08000000, 0x08000000) == 0x00800000
    ensures MulFlat(0x00800000, 0x00800000) == 0x00008000
  {}

  lemma Squares4()
    ensures MulFlat(0x00008000, 0x00008000) == 0xEDB88320
    ensures MulFlat(0xEDB88320, 0xEDB88320) == 0xB1E6B092
  {}

  lemma Squares6()
    ensures MulFlat(0xB1E6B092, 0xB1E6B092) == 0xA06A2517
    ensures MulFlat(0xA06A2517, 0xA06A2517) == 0xED627DAE
  {}

  lemma Squares8()
    ensures MulFlat(0xED627DAE, 0xED627DAE) == 0x88D14467
    ensures MulFlat(0x88D14467, 0x88D14467) == 0xD7BBFE6A
  {}

  lemma Squares10()
    ensures MulFlat(0xD7BBFE6A, 0xD7BBFE6A) == 0xEC447F11
    ensures MulFlat(0xEC447F11, 0xEC447F11) == 0x8E7EA170
  {}

  lemma Squares12()
    ensures MulFlat(0x8E7EA170, 0x8E7EA170) == 0x6427800E
    ensures MulFlat(0x6427800E, 0x6427800E) == 0x4D47BAE0
  {}

  lemma Squares14()
    ensures MulFlat(0x4D47BAE0, 0x4D47BAE0) == 0x09FE548F
    ensures MulFlat(0x09FE548F, 0x09FE548F) == 0x83852D0F
  {}

  lemma Squares16()
    ensures MulFlat(0x83852D0F, 0x83852D0F) == 0x30362F1A
    ensures MulFlat(0x30362F1A, 0x30362F1A) == 0x7B5A9CC3
  {}

  lemma Squares18()
    ensures MulFlat(0x7B5A9CC3, 0x7B5A9CC3) == 0x31FEC169
    ensures MulFlat(0x31FEC169, 0x31FEC169) == 0x9FEC022A
  {}

  lemma Squares20()
    ensures MulFlat(0x9FEC022A, 0x9FEC022A) == 0x6C8DEDC4
    ensures MulFlat(0x6C8DEDC4, 0x6C8DEDC4) == 0x15D6874D
  {}

  lemma Squares22()
    ensures MulFlat(0x15D6874D, 0x15D6874D) == 0x5FDE7A4E
    ensures MulFlat(0x5FDE7A4E, 0x5FDE7A4E) == 0xBAD90E37
  {}

  lemma Squares24()
    ensures MulFlat(0xBAD90E37, 0xBAD90E37) == 0x2E4E5EEF
    ensures MulFlat(0x2E4E5EEF, 0x2E4E5EEF) == 0x4EABA214
  {}

  lemma Squares26()
    ensures MulFlat(0x4EABA214, 0x4EABA214) == 0xA8A472C0
    ensures MulFlat(0xA8A472C0, 0xA8A472C0) == 0x429A969E
  {}

  lemma Squares28()
    ensures MulFlat(0x429A969E, 0x429A969E) == 0x148D302A
    ensures MulFlat(0x148D302A, 0x148D302A) == 0xC40BA6D0
  {}

  lemma Squares30()
    ensures MulFlat(0xC40BA6D0, 0xC40BA6D0) == 0xC4E22C3C
    ensures MulFlat(0xC4E22C3C, 0xC4E22C3C) == 0x40000000
  {}

  /** x to the power 2^32 is x. */
  lemma FullTurn()
    ensures IsXPow(0x1_0000_0000, 0x40000000)
  {
    hide MulFlat, XPow, IsXPow;
    XPowOne();
    Squares0();
    Squares2();
    Squares4();
    Squares6();
    Squares8();
    Squares10();
    Squares12();
    Squares14();
    Squares16();
    Squares18();
    Squares20();
    Squares22();
    Squares24();
    Squares26();
    Squares28();
    Squares30();
    Square(0x1, 0x40000000, 0x2, 0x20000000);
    Square(0x2, 0x20000000, 0x4, 0x08000000);
    Square(0x4, 0x08000000, 0x8, 0x00800000);
    Square(0x8, 0x00800000, 0x10, 0x00008000);
    Square(0x10, 0x00008000, 0x20, 0xEDB88320);
    Square(0x20, 0xEDB88320, 0x40, 0xB1E6B092);
    Square(0x40, 0xB1E6B092, 0x80, 0xA06A2517);
    Square(0x80, 0xA06A2517, 0x100, 0xED627DAE);
    Square(0x100, 0xED627DAE, 0x200, 0x88D14467);
    Square(0x200, 0x88D14467, 0x400, 0xD7BBFE6A);
    Square(0x400, 0xD7BBFE6A, 0x800, 0xEC447F11);
    Square(0x800, 0xEC447F11, 0x1000, 0x8E7EA170);
    Square(0x1000, 0x8E7EA170, 0x2000, 0x6427800E);
    Square(0x2000, 0x6427800E, 0x4000, 0x4D47BAE0);
    Square(0x4000, 0x4D47BAE0, 0x8000, 0x09FE548F);
    Square(0x8000, 0x09FE548F, 0x10000, 0x83852D0F);
    Square(0x10000, 0x83852D0F, 0x20000, 0x30362F1A);
    Square(0x20000, 0x30362F1A, 0x40000, 0x7B5A9CC3);
    Square(0x40000, 0x7B5A9CC3, 0x80000, 0x31FEC169);
    Square(0x80000, 0x31FEC169, 0x100000, 0x9FEC022A);
    Square(0x100000, 0x9FEC022A, 0x200000, 0x6C8DEDC4);
    Square(0x200000, 0x6C8DEDC4, 0x400000, 0x15D6874D);
    Square(0x400000, 0x15D6874D, 0x800000, 0x5FDE7A4E);
    Square(0x800000, 0x5FDE7A4E, 0x1000000, 0xBAD90E37);
    Square(0x1000000, 0xBAD90E37, 0x2000000, 0x2E4E5EEF);
    Square(0x2000000, 0x2E4E5EEF, 0x4000000, 0x4EABA214);
    Square(0x4000000, 0x4EABA214, 0x8000000, 0xA8A472C0);
    Square(0x8000000, 0xA8A472C0, 0x10000000, 0x429A969E);
    Square(0x10000000, 0x429A969E, 0x20000000, 0x148D302A);
    Square(0x20000000, 0x148D302A, 0x40000000, 0xC40BA6D0);
    Square(0x40000000, 0xC40BA6D0, 0x80000000, 0xC4E22C3C);
    Square(0x80000000, 0xC4E22C3C, 0x100000000, 0x40000000);
  }

  // ----- the period

  lemma OneLess(n: nat)
    requires IsXPow(n + 1, 0x40000000)
    ensures XPow(n) == ONE
  {
    hide Xtime;
    XPowOne();
    OneStep();
    assert Shift(ONE, n + 1) == Xtime(Shift(ONE, n));
    XtimeInjective(Shift(ONE, n), ONE);
  }

  lemma OneStep()
    ensures Xtime(ONE) == 0x40000000
  {}

  lemma PeriodIsOne()
    ensures XPow(PERIOD) == ONE
  {
    hide XPow, IsXPow;
    FullTurn();
    OneLess(PERIOD);
  }

  /** Byte counts can be reduced by the period. */
  lemma ByteCountReducesBy(n: nat, g: nat)
    requires g > 0 && XPow(g) == ONE
    ensures XPow(8 * (n % g)) == XPow(8 * n)
  {
    hide XPow, Mul;
    var (q, r) := (n / g, n % g);
    assert n == g * q + r;
    assert g * (8 * q) == 8 * (g * q);
    XPowMultiple(g, 8 * q);
    XPowAdd(g * (8 * q), 8 * r);
    MulOneLeft(XPow(8 * r));
  }

  lemma ByteCountReduces(n: nat)
    ensures XPow(8 * (n % PERIOD)) == XPow(8 * n)
  {
    hide XPow;
    PeriodIsOne();
    ByteCountReducesBy(n, PERIOD);
  }

  // ----- the code

  /** The source's multiplication: 31 turns of a loop and a last addition. */
  method Gf32Multiply(a0: Residue, b0: Residue) returns (product: Residue)
    ensures product == Mul(a0, b0)
  {
    hide Add, Xtime, Select, Drop;
    var a, b := a0, b0;
    product := 0;
    AddUnit(Mul(a0, b0));
    for i := 0 to 31
      invariant Add(product, Partial(a, b, 32 - i)) == Mul(a0, b0)
    {
      AddAssoc(product, Select(b, a), Partial(Xtime(a), Drop(b), 31 - i));
      product := Add(product, Select(b, a));
      a := Xtime(a);
      b := Drop(b);
    }
    AddUnit(Select(b, a));
    assert Partial(a, b, 1) == Add(Select(b, a), Partial(Xtime(a), Drop(b), 0));
    product := Add(product, Select(b, a));
  }

  function TwoTo(i: nat): (r: nat)
    ensures r > 0
  {
    if i == 0 then 1 else 2 * TwoTo(i - 1)
  }

  lemma {:induction false} TwoToAdd(i: nat, j: nat)
    ensures TwoTo(i + j) == TwoTo(i) * TwoTo(j)
  {
    if i != 0 {
      TwoToAdd(i - 1, j);
      assert 2 * TwoTo(i - 1) * TwoTo(j) == 2 * (TwoTo(i - 1) * TwoTo(j));
    }
  }

  lemma Powers32()
    ensures TwoTo(32) == 0x1_0000_0000
  {
    assert TwoTo(4) == 16;
    TwoToAdd(4, 4);
    TwoToAdd(8, 8);
    TwoToAdd(16, 16);
  }

  /** Repeated squaring comes back to the start after 32 squarings. */
  lemma {:induction false} SquaresWrap(i: nat)
    ensures XPow(TwoTo(i + 32)) == XPow(TwoTo(i))
  {
    hide XPow, Mul;
    if i == 0 {
      Powers32();
      FullTurn();
      XPowOne();
      WrapBase();
    } else {
      SquaresWrap(i - 1);
      XPowAdd(TwoTo(i - 1), TwoTo(i - 1));
      XPowAdd(TwoTo(i + 31), TwoTo(i + 31));
    }
  }

  lemma WrapBase()
    ensures XPow(0x1_0000_0000) == XPow(1)
  {
    hide XPow;
    FullTurn();
    XPowOne();
  }

  /** The slot the source stores the i-th square in: i - 3, wrapping at 2^32, modulo 32. */
  function Slot(i: nat): (s: nat)
    requires i < 32
    ensures s < 32
  {
    ((i + 0x1_0000_0000 - 3) % 0x1_0000_0000) % 32
  }

  lemma SlotIs(i: nat)
    requires i < 32
    ensures Slot(i) == if i < 3 then i + 29 else i - 3
  {}

  lemma SlotHolds(i: nat)
    requires i < 32
    ensures XPow(8 * TwoTo(Slot(i))) == XPow(TwoTo(i))
  {
    hide XPow;
    SlotIs(i);
    assert TwoTo(3) == 8;
    TwoToAdd(3, Slot(i));
    if i < 3 {
      SquaresWrap(i);
    }
  }

  /** Entry `j` of the power table is x^(8 * 2^j), also in the three entries that wrap around. */
  method PowerTable() returns (table: seq<Residue>)
    ensures |table| == 32
    ensures forall j :: 0 <= j < 32 ==> table[j] == XPow(8 * TwoTo(j))
  {
    hide XPow, Mul, TwoTo, Slot;
    var power := new Residue[32](_ => 0);
    var k: Residue := ONE >> 1;
    HalfOfOne();
    for i := 0 to 32
      invariant k == XPow(TwoTo(i))
      invariant forall m :: 0 <= m < i ==> power[Slot(m)] == XPow(8 * TwoTo(Slot(m)))
    {
      SlotHolds(i);
      forall m | 0 <= m < i
        ensures Slot(m) != Slot(i)
      {
        SlotIs(m);
        SlotIs(i);
      }
      power[Slot(i)] := k;
      XPowAdd(TwoTo(i), TwoTo(i));
      TwoToStep(i);
      k := Gf32Multiply(k, k);
    }
    forall j | 0 <= j < 32
      ensures power[j] == XPow(8 * TwoTo(j))
    {
      var m := if j < 29 then j + 3 else j - 29;
      SlotIs(m);
    }
    table := power[..];
  }

  lemma HalfOfOne()
    ensures ONE >> 1 == XPow(TwoTo(0))
  {
    XPowOne();
  }

  lemma TwoToStep(i: nat)
    ensures TwoTo(i + 1) == TwoTo(i) + TwoTo(i) && TwoTo(0) == 1
  {}

  function Weighted(n: nat, t: nat): nat { n * t }

  /** Fast exponentiation: x^(8n) for every 64-bit n. */
  method CrcExp8(n0: nat) returns (result: Residue)
    requires n0 < 0x1_0000_0000_0000_0000
    ensures result == XPow(8 * n0)
  {
    hide XPow, Mul, TwoTo, Weighted;
    var power := PowerTable();
    result := ONE;
    var n: nat, powerIdx: nat := n0 % PERIOD, 0;
    ghost var rounds: nat := 0;
    Powers32();
    TwoToStep(0);
    ByteCountReduces(n0);
    WeightOne(n);
    MulOneLeft(XPow(8 * n));
    while n != 0
      invariant rounds <= 32 && n < TwoTo(32 - rounds) && powerIdx == rounds % 32
      invariant Mul(result, XPow(8 * Weighted(n, TwoTo(rounds)))) == XPow(8 * n0)
      decreases n
    {
      TwoToStep(0);
      TwoToStep(31 - rounds);
      TwoToStep(rounds);
      HalveExponent(n, TwoTo(rounds), TwoTo(rounds + 1));
      if n % 2 != 0 {
        AbsorbBit(result, TwoTo(rounds), Weighted(n / 2, TwoTo(rounds + 1)));
        assert power[powerIdx] == XPow(8 * TwoTo(rounds));
        result := Gf32Multiply(result, power[powerIdx]);
      }
      n := n / 2;
      powerIdx := (powerIdx + 1) % 32;
      rounds := rounds + 1;
    }
    WeightZero(TwoTo(rounds));
    XPowZero();
    MulComm(result, ONE);
    MulOneLeft(result);
  }

  lemma AbsorbBit(result: Residue, t: nat, rest: nat)
    ensures Mul(Mul(result, XPow(8 * t)), XPow(8 * rest)) == Mul(result, XPow(8 * (t + rest)))
  {
    hide XPow, Mul;
    assert 8 * (t + rest) == 8 * t + 8 * rest;
    XPowAdd(8 * t, 8 * rest);
    MulAssoc(result, XPow(8 * t), XPow(8 * rest));
  }

  lemma WeightOne(n: nat)
    ensures Weighted(n, 1) == n
  {}

  lemma WeightZero(t: nat)
    ensures Weighted(0, t) == 0
  {}

  lemma HalveExponent(n: nat, t: nat, t': nat)
    requires t' == t + t
    ensures n % 2 == 0 ==> Weighted(n, t) == Weighted(n / 2, t')
    ensures n % 2 != 0 ==> Weighted(n, t) == t + Weighted(n / 2, t')
  {
    DoubleProduct(n / 2, t, n);
  }

  lemma DoubleProduct(h: nat, t: nat, n: nat)
    requires n == 2 * h || n == 2 * h + 1
    ensures n * t == h * (t + t) + if n == 2 * h then 0 else t
  {
    assert h * (t + t) == h * t + h * t;
    if n == 2 * h {
      assert (h + h) * t == h * t + h * t;
    } else {
      assert (h + h + 1) * t == h * t + h * t + t;
    }
  }
}
