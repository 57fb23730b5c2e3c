/** The powers of x run through all 65535 nonzero elements: 0x1100B is a primitive polynomial. */
module Primitive {
  import opened Gf16
  import opened Divisors

  function XPow(n: nat): Elem { Shift(1, n) }

  /** Ghost relation used where exponents are literals, so that no power is ever unrolled. */
  ghost predicate IsXPow(n: nat, a: Elem) { XPow(n) == a }

  // ----- exponent laws

  lemma {:induction false} MulShift(a: Elem, n: nat, b: Elem)
    ensures Mul(Shift(a, n), b) == Shift(Mul(a, b), n)
  {
    hide Mul, Xtime;
    if n == 0 {
    } else {
      MulShift(a, n - 1, b);
      MulXtime(Shift(a, n - 1), b);
    }
  }

  lemma {:induction false} ShiftShift(a: Elem, m: nat, n: nat)
    ensures Shift(Shift(a, m), n) == Shift(a, m + n)
  {
    hide Xtime;
    if n == 0 {
    } else {
      ShiftShift(a, m, n - 1);
    }
  }

  lemma XPowAdd(m: nat, n: nat)
    ensures Mul(XPow(m), XPow(n)) == XPow(m + n)
  {
    hide Mul, Shift;
    MulShift(1, m, XPow(n));
    MulOneLeft(XPow(n));
    ShiftShift(1, n, m);
  }

  lemma {:induction false} ShiftInjective(a: Elem, b: Elem, n: nat)
    requires Shift(a, n) == Shift(b, n)
    ensures a == b
  {
    hide Xtime;
    if n != 0 {
      XtimeInjective(Shift(a, n - 1), Shift(b, n - 1));
      ShiftInjective(a, b, n - 1);
    }
  }

  /** Equal powers give a power equal to one. */
  lemma XPowCancel(m: nat, n: nat)
    requires XPow(m) == XPow(m + n)
    ensures XPow(n) == 1
  {
    hide Shift;
    ShiftShift(1, n, m);
    ShiftInjective(1, XPow(n), m);
  }

  lemma {:induction false} XPowNonzero(n: nat)
    ensures XPow(n) != 0
  {
    hide Xtime;
    if n != 0 {
      XPowNonzero(n - 1);
      XtimeZero();
      if Xtime(XPow(n - 1)) == 0 {
        XtimeInjective(XPow(n - 1), 0);
      }
    }
  }

  lemma XPowZero()
    ensures XPow(0) == 1
  {}

  lemma {:induction false} XPowMultiple(g: nat, k: nat)
    requires XPow(g) == 1
    ensures XPow(g * k) == 1
  {
    hide Mul, Shift;
    if k == 0 {
      XPowZero();
      assert g * k == 0;
    } else {
      XPowMultiple(g, k - 1);
      assert g * k == g + g * (k - 1);
      XPowAdd(g, g * (k - 1));
      MulOneLeft(1);
    }
  }

  lemma {:induction false} XPowGcd(a: nat, b: nat)
    requires XPow(a) == 1 && XPow(b) == 1
    ensures XPow(Gcd(a, b)) == 1
    decreases b
  {
    hide Mul, Shift, XPow;
    if b != 0 {
      XPowMultiple(b, a / b);
      assert a == b * (a / b) + a % b;
      XPowAdd(b * (a / b), a % b);
      MulOneLeft(XPow(a % b));
      XPowGcd(b, a % b);
    }
  }

  // ----- ground products

  function XtimeFour(a: Elem): Elem { Xtime(Xtime(Xtime(Xtime(a)))) }

  /** The four low bits of `b`. */
  function MulFour(a: Elem, b: Elem): Elem {
    Add(Add(Select(b, a), Select(Half(b), Xtime(a))),
        Add(Select(Half(Half(b)), Xtime(Xtime(a))), Select(Half(Half(Half(b))), Xtime(Xtime(Xtime(a))))))
  }

  /** `Mul` without recursion, for products of literals. */
  function MulFlat(a: Elem, b: Elem): Elem {
    var (a4, b4) := (XtimeFour(a), HalfFour(b));
    var (a8, b8) := (XtimeFour(a4), HalfFour(b4));
    Add(MulFour(a, b), Add(MulFour(a4, b4), Add(MulFour(a8, b8), MulFour(XtimeFour(a8), HalfFour(b8)))))
  }

  lemma PartialFour(a: Elem, b: Elem, k: nat)
    ensures Partial(a, b, k + 4) == Add(MulFour(a, b), Partial(XtimeFour(a), HalfFour(b), k))
  {
    hide Add, Xtime, Select, Half;
    var (a1, a2, a3) := (Xtime(a), Xtime(Xtime(a)), Xtime(Xtime(Xtime(a))));
    var (b1, b2, b3) := (Half(b), Half(Half(b)), Half(Half(Half(b))));
    var rest := Partial(XtimeFour(a), HalfFour(b), k);
    assert Partial(a3, b3, k + 1) == Add(Select(b3, a3), rest);
    assert Partial(a2, b2, k + 2) == Add(Select(b2, a2), Partial(a3, b3, k + 1));
    assert Partial(a1, b1, k + 3) == Add(Select(b1, a1), Partial(a2, b2, k + 2));
    AddAssoc(Select(b2, a2), Select(b3, a3), rest);
    AddAssoc(Select(b, a), Select(b1, a1), Partial(a2, b2, k + 2));
    AddAssoc(Add(Select(b, a), Select(b1, a1)), Add(Select(b2, a2), Select(b3, a3)), rest);
  }

  lemma MulIsFlat(a: Elem, b: Elem)
    ensures Mul(a, b) == MulFlat(a, b)
  {
    hide Add, MulFour, XtimeFour, HalfFour;
    var (a4, b4) := (XtimeFour(a), HalfFour(b));
    var (a8, b8) := (XtimeFour(a4), HalfFour(b4));
    var (a12, b12) := (XtimeFour(a8), HalfFour(b8));
    PartialFour(a12, b12, 0);
    PartialFour(a8, b8, 4);
    PartialFour(a4, b4, 8);
    PartialFour(a, b, 12);
    AddUnit(MulFour(a12, b12));
  }

  lemma ProductStep(m: nat, n: nat, a: Elem, b: Elem)
    requires IsXPow(m, a) && IsXPow(n, b)
    ensures IsXPow(m + n, MulFlat(a, b))
  {
    hide XPow, MulFlat, Mul;
    XPowAdd(m, n);
    MulIsFlat(a, b);
  }

  lemma GroundSquares()
    ensures MulFlat(2, 2) == 4 && MulFlat(4, 4) == 0x10 && MulFlat(0x10, 0x10) == 0x100
    ensures MulFlat(0x100, 0x100) == 0x100B && MulFlat(0x100B, 0x100B) == 0x1BFE
    ensures MulFlat(0x1BFE, 0x1BFE) == 0x5C24 && MulFlat(0x5C24, 0x5C24) == 0xE647
    ensures MulFlat(0xE647, 0xE647) == 0x0B2F
  {}

  lemma GroundMiddleSquares()
    ensures MulFlat(0x0B2F, 0x0B2F) == 0x169E && MulFlat(0x169E, 0x169E) == 0x0A78
    ensures MulFlat(0x0A78, 0x0A78) == 0x1780 && MulFlat(0x1780, 0x1780) == 0x1B27
  {}

  lemma GroundHighSquares()
    ensures MulFlat(0x1B27, 0x1B27) == 0x0D65 && MulFlat(0x0D65, 0x0D65) == 0x564D
    ensures MulFlat(0x564D, 0x564D) == 0xF0C6 && MulFlat(0xF0C6, 0xF0C6) == 2
  {}

  lemma LowSquares()
    ensures IsXPow(1, 2) && IsXPow(2, 4) && IsXPow(4, 0x10) && IsXPow(8, 0x100) && IsXPow(16, 0x100B)
    ensures IsXPow(32, 0x1BFE) && IsXPow(64, 0x5C24) && IsXPow(128, 0xE647) && IsXPow(256, 0x0B2F)
  {
    hide MulFlat, XPow, IsXPow;
    GroundSquares();
    XPowOne();
    ProductStep(1, 1, 2, 2);
    ProductStep(2, 2, 4, 4);
    ProductStep(4, 4, 0x10, 0x10);
    ProductStep(8, 8, 0x100, 0x100);
    ProductStep(16, 16, 0x100B, 0x100B);
    ProductStep(32, 32, 0x1BFE, 0x1BFE);
    ProductStep(64, 64, 0x5C24, 0x5C24);
    ProductStep(128, 128, 0xE647, 0xE647);
  }

  lemma XPowOne()
    ensures IsXPow(1, 2)
  {
    assert Shift(1, 0) == 1;
    assert Xtime(1) == 2;
  }

  lemma HighSquares()
    ensures IsXPow(512, 0x169E) && IsXPow(1024, 0x0A78) && IsXPow(2048, 0x1780) && IsXPow(4096, 0x1B27)
    ensures IsXPow(8192, 0x0D65) && IsXPow(16384, 0x564D) && IsXPow(32768, 0xF0C6) && IsXPow(65536, 2)
  {
    hide MulFlat, XPow, IsXPow;
    LowSquares();
    GroundMiddleSquares();
    GroundHighSquares();
    ProductStep(256, 256, 0x0B2F, 0x0B2F);
    ProductStep(512, 512, 0x169E, 0x169E);
    ProductStep(1024, 1024, 0x0A78, 0x0A78);
    ProductStep(2048, 2048, 0x1780, 0x1780);
    ProductStep(4096, 4096, 0x1B27, 0x1B27);
    ProductStep(8192, 8192, 0x0D65, 0x0D65);
    ProductStep(16384, 16384, 0x564D, 0x564D);
    ProductStep(32768, 32768, 0xF0C6, 0xF0C6);
  }

  lemma Ground255()
    ensures MulFlat(2, 4) == 8
    ensures MulFlat(0x0010, 0x0100) == 0x1000
    ensures MulFlat(8, 0x1000) == 0x8000
    ensures MulFlat(0x100B, 0x1BFE) == 0x4C35
    ensures MulFlat(0x5C24, 0xE647) == 0x5710
    ensures MulFlat(0x4C35, 0x5710) == 0x6B65
    ensures MulFlat(0x8000, 0x6B65) == 0x8D92
  {}

  lemma PowerOf255()
    ensures IsXPow(3, 8) && IsXPow(15, 0x8000) && IsXPow(48, 0x4C35) && IsXPow(255, 0x8D92)
  {
    hide MulFlat, XPow, IsXPow;
    LowSquares();
    Ground255();
    ProductStep(1, 2, 2, 4);
    ProductStep(4, 8, 0x0010, 0x0100);
    ProductStep(3, 12, 8, 0x1000);
    ProductStep(16, 32, 0x100B, 0x1BFE);
    ProductStep(64, 128, 0x5C24, 0xE647);
    ProductStep(48, 192, 0x4C35, 0x5710);
    ProductStep(15, 240, 0x8000, 0x6B65);
  }

  lemma Ground3855()
    ensures MulFlat(0x0B2F, 0x169E) == 0x014D
    ensures MulFlat(0x0A78, 0x1780) == 0x1144
    ensures MulFlat(0x014D, 0x1144) == 0x8BE8
    ensures MulFlat(0x8000, 0x8BE8) == 0x4D78
  {}

  lemma PowerOf3855()
    ensures IsXPow(768, 0x014D) && IsXPow(3855, 0x4D78)
  {
    hide MulFlat, XPow, IsXPow;
    LowSquares();
    HighSquares();
    PowerOf255();
    Ground3855();
    ProductStep(256, 512, 0x0B2F, 0x169E);
    ProductStep(1024, 2048, 0x0A78, 0x1780);
    ProductStep(768, 3072, 0x014D, 0x1144);
    ProductStep(15, 3840, 0x8000, 0x8BE8);
  }

  lemma Ground13107()
    ensures MulFlat(0x1B27, 0x0D65) == 0x4D70
    ensures MulFlat(0x014D, 0x4D70) == 0xBD18
    ensures MulFlat(8, 0x4C35) == 0x41BE
    ensures MulFlat(0x41BE, 0xBD18) == 0x1CE8
  {}

  lemma PowerOf13107()
    ensures IsXPow(13107, 0x1CE8)
  {
    hide MulFlat, XPow, IsXPow;
    HighSquares();
    PowerOf255();
    PowerOf3855();
    Ground13107();
    ProductStep(4096, 8192, 0x1B27, 0x0D65);
    ProductStep(768, 12288, 0x014D, 0x4D70);
    ProductStep(3, 48, 8, 0x4C35);
    ProductStep(51, 13056, 0x41BE, 0xBD18);
  }

  lemma Ground21845()
    ensures MulFlat(2, 0x0010) == 0x0020
    ensures MulFlat(0x100B, 0x5C24) == 0xF72F
    ensures MulFlat(0x0020, 0xF72F) == 0x1539
    ensures MulFlat(0x0B2F, 0x0A78) == 0xE130
  {}

  lemma HighGround21845()
    ensures MulFlat(0x1B27, 0x564D) == 0x1625
    ensures MulFlat(0xE130, 0x1625) == 0xB266
    ensures MulFlat(0x1539, 0xB266) == 0x015E
  {}

  lemma PowerOf21845()
    ensures IsXPow(21845, 0x015E)
  {
    hide MulFlat, XPow, IsXPow;
    LowSquares();
    HighSquares();
    Ground21845();
    HighGround21845();
    ProductStep(1, 4, 2, 0x0010);
    ProductStep(16, 64, 0x100B, 0x5C24);
    ProductStep(5, 80, 0x0020, 0xF72F);
    ProductStep(256, 1024, 0x0B2F, 0x0A78);
    ProductStep(4096, 16384, 0x1B27, 0x564D);
    ProductStep(1280, 20480, 0xE130, 0x1625);
    ProductStep(85, 21760, 0x1539, 0xB266);
  }

  // ----- the order of x

  /** x to the power 65536 is x again. */
  lemma XPowPeriod(n: nat, m: nat)
    requires m == n + 65535
    ensures XPow(m) == XPow(n)
  {
    hide XPow, Mul;
    HighSquares();
    XPowOne();
    FullTurn();
    XPowAdd(n, m - n);
    MulOneRight(XPow(n));
  }

  lemma FullTurn()
    ensures IsXPow(65535, 1)
  {
    hide Shift, XPow;
    HighSquares();
    XPowOne();
    XPowCancel(1, 65535);
  }

  lemma {:induction false} XPowMod(n: nat)
    ensures XPow(n) == XPow(n % 65535)
  {
    hide XPow;
    if n >= 65535 {
      XPowPeriod(n - 65535, n);
      XPowMod(n - 65535);
    }
  }

  /** No maximal proper divisor of 65535 is a period. */
  lemma MaximalDivisors()
    ensures !IsXPow(21845, 1) && !IsXPow(13107, 1) && !IsXPow(3855, 1) && !IsXPow(255, 1)
  {
    hide XPow;
    PowerOf255();
    PowerOf3855();
    PowerOf13107();
    PowerOf21845();
  }

  /** A divisor `g` of 65535 other than 65535 itself divides a maximal proper divisor. */
  lemma BelowMaximalDivisor(g: nat)
    requires Divides(g, 65535) && g != 65535
    ensures Divides(g, 21845) || Divides(g, 13107) || Divides(g, 3855) || Divides(g, 255)
  {
    var h: nat :| g * h == 65535;
    assert g * 1 == g;
    assert h * g == 65535;
    var q := DivisorHasPrime(h);
    var k: nat :| q * k == h;
    assert q * (g * k) == 65535 by {
      assert g * (q * k) == q * (g * k);
    }
    var m: nat := g * k;
    assert Divides(g, m);
  }

  lemma DivisorNotPeriod(g: nat, n: nat)
    requires Divides(g, n) && !IsXPow(n, 1)
    ensures XPow(g) != 1
  {
    hide XPow;
    var k: nat :| g * k == n;
    if XPow(g) == 1 {
      XPowMultiple(g, k);
    }
  }

  /** The order of x is 65535 and no less. */
  lemma OrderOfX(d: nat)
    ensures XPow(d) == 1 <==> d % 65535 == 0
  {
    hide XPow;
    if XPow(d) == 1 {
      OrderDivides(d);
    } else {
      XPowMod(d);
      XPowZero();
    }
  }

  lemma OrderDivides(d: nat)
    requires XPow(d) == 1
    ensures d % 65535 == 0
  {
    hide XPow, IsXPow;
    FullTurnIsOne(d);
    GcdDivides(65535, d);
    var g := Gcd(65535, d);
    MaximalDivisors();
    if g != 65535 {
      BelowMaximalDivisor(g);
      if Divides(g, 21845) { DivisorNotPeriod(g, 21845); }
      if Divides(g, 13107) { DivisorNotPeriod(g, 13107); }
      if Divides(g, 3855) { DivisorNotPeriod(g, 3855); }
      if Divides(g, 255) { DivisorNotPeriod(g, 255); }
    }
    DividesMod(65535, d);
  }

  lemma FullTurnIsOne(d: nat)
    requires XPow(d) == 1
    ensures XPow(Gcd(65535, d)) == 1
  {
    hide XPow, Gcd;
    FullTurn();
    UnfoldIsXPow(65535, 1);
    XPowGcd(65535, d);
  }

  lemma UnfoldIsXPow(n: nat, a: Elem)
    requires IsXPow(n, a)
    ensures XPow(n) == a
  {
    hide XPow;
  }

  /** Different exponents below 65535 give different powers. */
  lemma XPowDistinct(m: nat, n: nat)
    requires m < 65535 && n < 65535 && XPow(m) == XPow(n)
    ensures m == n
  {
    hide XPow;
    if m < n {
      XPowCancel(m, n - m);
      OrderOfX(n - m);
    } else if n < m {
      XPowCancel(n, m - n);
      OrderOfX(m - n);
    }
  }

  // ----- logarithms

  lemma {:induction false} SubsetSize<T>(a: set<T>, b: set<T>)
    requires a <= b
    ensures |a| <= |b|
    decreases a
  {
    if x :| x in a {
      SubsetSize(a - {x}, b - {x});
    }
  }

  lemma EqualSizedSubset<T>(a: set<T>, b: set<T>)
    requires a <= b && |a| == |b|
    ensures a == b
  {
    if x :| x in b && x !in a {
      SubsetSize(a, b - {x});
    }
  }

  ghost function Below(n: nat): set<nat> {
    if n == 0 then {} else Below(n - 1) + {n - 1}
  }

  lemma {:induction false} BelowSize(n: nat)
    ensures |Below(n)| == n && forall i: nat :: i in Below(n) <==> i < n
  {
    if n != 0 {
      BelowSize(n - 1);
    }
  }

  ghost function Elements(s: seq<nat>): set<nat> {
    if s == [] then {} else Elements(s[1..]) + {s[0]}
  }

  lemma {:induction false} ElementsAre(s: seq<nat>)
    ensures forall x :: x in Elements(s) <==> x in s
  {
    if s != [] {
      ElementsAre(s[1..]);
      assert s == [s[0]] + s[1..];
    }
  }

  lemma {:induction false} ElementsSize(s: seq<nat>)
    requires forall i, j :: 0 <= i < j < |s| ==> s[i] != s[j]
    ensures |Elements(s)| == |s|
  {
    if s != [] {
      ElementsSize(s[1..]);
      ElementsAre(s[1..]);
      assert s[0] !in s[1..];
    }
  }

  /** A sequence of distinct numbers below its own length contains every number below its length. */
  lemma Pigeonhole(s: seq<nat>, v: nat)
    requires forall i, j :: 0 <= i < j < |s| ==> s[i] != s[j]
    requires forall i :: 0 <= i < |s| ==> s[i] < |s|
    requires v < |s|
    ensures v in s
  {
    hide Elements, Below;
    ElementsSize(s);
    ElementsAre(s);
    BelowSize(|s|);
    EqualSizedSubset(Elements(s), Below(|s|));
  }

  lemma IndexInjective(a: Elem, b: Elem)
    requires a as int == b as int
    ensures a == b
  {
    assert (a as int) as bv16 == a;
    assert (b as int) as bv16 == b;
  }

  lemma IndexNonzero(a: Elem)
    requires a != 0
    ensures 1 <= a as int < 65536
  {
    if a as int == 0 {
      IndexInjective(a, 0);
    }
  }

  function PowerIndex(i: nat): nat {
    hide XPow;
    XPowNonzero(i);
    IndexNonzero(XPow(i));
    XPow(i) as int - 1
  }

  lemma LogExists(a: Elem)
    requires a != 0
    ensures exists i: nat :: i < 65535 && XPow(i) == a
  {
    hide XPow;
    var s := seq(65535, i requires 0 <= i < 65535 => PowerIndex(i));
    forall i, j | 0 <= i < j < |s|
      ensures s[i] != s[j]
    {
      if s[i] == s[j] {
        IndexInjective(XPow(i), XPow(j));
        XPowDistinct(i, j);
      }
    }
    forall i | 0 <= i < |s|
      ensures s[i] < |s|
    {
      XPowNonzero(i);
      IndexNonzero(XPow(i));
    }
    IndexNonzero(a);
    Pigeonhole(s, a as int - 1);
    var i: nat :| i < |s| && s[i] == a as int - 1;
    IndexInjective(XPow(i), a);
  }

  ghost function Log(a: Elem): (i: nat)
    requires a != 0
    ensures i < 65535 && XPow(i) == a
  {
    LogExists(a);
    var i: nat :| i < 65535 && XPow(i) == a;
    i
  }

  lemma MulOfPowers(i: nat, j: nat)
    ensures Mul(XPow(i), XPow(j)) == XPow((i + j) % 65535)
  {
    hide XPow, Mul;
    XPowAdd(i, j);
    XPowMod(i + j);
  }

  /** GF(2^16) has no divisors of zero. */
  lemma MulNonzero(a: Elem, b: Elem)
    requires a != 0 && b != 0
    ensures Mul(a, b) != 0
  {
    hide XPow, Mul;
    MulOfPowers(Log(a), Log(b));
    XPowNonzero((Log(a) + Log(b)) % 65535);
  }

  ghost function Inverse(a: Elem): (b: Elem)
    requires a != 0
    ensures Mul(a, b) == 1 && Mul(b, a) == 1 && b != 0
  {
    InverseExists(a);
    XPow(65535 - Log(a))
  }

  lemma InverseExists(a: Elem)
    requires a != 0
    ensures Mul(a, XPow(65535 - Log(a))) == 1
    ensures Mul(XPow(65535 - Log(a)), a) == 1
    ensures XPow(65535 - Log(a)) != 0
  {
    hide XPow, Mul;
    MulOfPowers(Log(a), 65535 - Log(a));
    XPowZero();
    MulComm(a, XPow(65535 - Log(a)));
    XPowNonzero(65535 - Log(a));
  }

  /** A nonzero factor cancels. */
  lemma MulCancel(a: Elem, b: Elem, c: Elem)
    requires a != 0 && Mul(a, b) == Mul(a, c)
    ensures b == c
  {
    hide Mul, Inverse;
    MulAssoc(Inverse(a), a, b);
    MulAssoc(Inverse(a), a, c);
    MulOneLeft(b);
    MulOneLeft(c);
  }

  lemma {:induction false} PowOfXPow(i: nat, e: nat)
    ensures Pow(XPow(i), e) == XPow(i * e)
  {
    hide XPow, Mul;
    if e == 0 {
      XPowZero();
      assert i * e == 0;
    } else {
      PowOfXPow(i, e - 1);
      XPowAdd(i, i * (e - 1));
      assert i * e == i + i * (e - 1);
    }
  }
}
