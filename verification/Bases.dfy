/** The base values of the input slices: powers of x whose exponents are prime to 65535. */
module Bases {
  import opened Divisors
  import opened Gf16
  import opened Primitive
  import opened GaloisTable

  // ----- the greatest common divisor loop

  lemma {:induction false} GcdOfSmaller(a: nat, b: nat)
    requires a < b
    ensures Gcd(a, b) == Gcd(b, a)
  {
    SmallRemainder(a, b);
  }

  lemma SmallRemainder(a: nat, b: nat)
    requires a < b
    ensures a % b == a
  {}

  lemma {:induction false} GcdComm(a: nat, b: nat)
    ensures Gcd(a, b) == Gcd(b, a)
  {
    hide Gcd;
    if a < b {
      GcdOfSmaller(a, b);
    } else if b < a {
      GcdOfSmaller(b, a);
    }
  }

  /** The loop of the source, which answers zero when either argument is zero. */
  method GcdLoop(a0: nat, b0: nat) returns (g: nat)
    ensures g == if a0 == 0 || b0 == 0 then 0 else Gcd(a0, b0)
  {
    var a: nat, b: nat := a0, b0;
    if a != 0 && b != 0 {
      while a != 0 && b != 0
        invariant a != 0 || b != 0
        invariant Gcd(a, b) == Gcd(a0, b0)
        decreases a + b
      {
        if a > b {
          GcdComm(b, a % b);
          a := a % b;
        } else {
          GcdComm(a, b);
          GcdComm(b % a, a);
          b := b % a;
        }
      }
      GcdComm(a, b);
      return a + b;
    } else {
      return 0;
    }
  }

  // ----- usable exponents

  /** Prime to 65535. */
  predicate Usable(l: nat) {
    l % 3 != 0 && l % 5 != 0 && l % 17 != 0 && l % 257 != 0
  }

  lemma UsableIsCoprime(l: nat)
    requires l != 0
    ensures Usable(l) <==> Gcd(65535, l) == 1
  {
    hide Gcd;
    var g := Gcd(65535, l);
    GcdDivides(65535, l);
    if g != 1 {
      var q := DivisorHasPrime(g);
      DividesTransitive(q, g, l);
      DividesMod(q, l);
    } else {
      forall q | PrimeFactor(q)
        ensures l % q != 0
      {
        NoCommonPrime(q, l);
      }
      assert PrimeFactor(3) && PrimeFactor(5) && PrimeFactor(17) && PrimeFactor(257);
    }
  }

  lemma DividesTransitive(a: nat, b: nat, c: nat)
    requires Divides(a, b) && Divides(b, c)
    ensures Divides(a, c)
  {
    var k: nat :| b * k == c;
    DividesMultiple(a, b, k);
  }

  lemma NoCommonPrime(q: nat, l: nat)
    requires PrimeFactor(q) && Gcd(65535, l) == 1
    ensures l % q != 0
  {
    hide Gcd;
    DividesMod(q, l);
    if Divides(q, l) {
      assert 3 * 21845 == 65535 && 5 * 13107 == 65535 && 17 * 3855 == 65535 && 257 * 255 == 65535;
      var s, t := Bezout(65535, l);
      var k: nat :| q * k == l;
      var m: nat := 65535 / q;
      assert q * m == 65535;
      CombinationMultiple(q, m, k, s, t);
    }
  }

  lemma CombinationMultiple(q: nat, m: nat, k: nat, s: int, t: int)
    requires q >= 2
    ensures s * (q * m) + t * (q * k) != 1
  {
    var n := s * m + t * k;
    assert s * (q * m) + t * (q * k) == q * n by {
      assert s * (q * m) == q * (s * m);
      assert t * (q * k) == q * (t * k);
    }
    if n <= 0 {
      MulMonotone(q, n, 0);
    } else {
      MulMonotone(q, 1, n);
    }
  }

  /** The loop guard of the source decides exactly usability, for a zero exponent as well. */
  method IsUsable(l: nat) returns (b: bool)
    ensures b == Usable(l)
  {
    hide Gcd;
    var g := GcdLoop(65535, l);
    if l != 0 {
      UsableIsCoprime(l);
    }
    return g == 1;
  }

  /** Steps to the next multiple of 65535 plus one. */
  function StepsToSpare(l: nat): nat {
    var r := l % 65535;
    if r <= 1 then 1 - r else 65536 - r
  }

  lemma StepsDecrease(l: nat)
    requires !Usable(l)
    ensures StepsToSpare(l + 1) < StepsToSpare(l)
  {
    hide Usable;
    NextRemainder(l);
    if l % 65535 == 1 {
      OneBeyondMultiple(l, l / 65535);
    }
  }

  lemma NextRemainder(l: nat)
    ensures (l + 1) % 65535 == if l % 65535 == 65534 then 0 else l % 65535 + 1
    ensures l == 65535 * (l / 65535) + l % 65535
  {}

  lemma OneBeyondMultiple(l: nat, k: nat)
    requires l == 65535 * k + 1
    ensures Usable(l)
  {
    MultipleOffsetMod(3, 21845 * k, 1);
    MultipleOffsetMod(5, 13107 * k, 1);
    MultipleOffsetMod(17, 3855 * k, 1);
    MultipleOffsetMod(257, 255 * k, 1);
  }

  function NextUsable(l: nat): (r: nat)
    ensures Usable(r) && l <= r
    ensures forall i :: l <= i < r ==> !Usable(i)
    decreases StepsToSpare(l)
  {
    if Usable(l) then l else StepsDecrease(l); NextUsable(l + 1)
  }

  /** The exponent of the base value of input slice `i`. */
  function BaseLog(i: nat): (l: nat)
    ensures Usable(l)
  {
    if i == 0 then NextUsable(0) else NextUsable(BaseLog(i - 1) + 1)
  }

  // ----- how many exponents are usable

  /** Not a multiple of any of the first `level` of the four primes. */
  predicate Sieved(level: nat, i: nat) {
    && (level >= 1 ==> i % 3 != 0)
    && (level >= 2 ==> i % 5 != 0)
    && (level >= 3 ==> i % 17 != 0)
    && (level >= 4 ==> i % 257 != 0)
  }

  /** The number of exponents below `n` that the first `level` primes leave. */
  function Count(level: nat, n: nat): nat
    decreases n
  {
    if n == 0 then 0 else Count(level, n - 1) + if Sieved(level, n - 1) then 1 else 0
  }

  function Prime(level: nat): (q: nat)
    requires 1 <= level <= 4
    ensures PrimeFactor(q)
  {
    if level == 1 then 3 else if level == 2 then 5 else if level == 3 then 17 else 257
  }

  function Period(level: nat): (m: nat)
    requires level <= 4
    ensures m > 0
  {
    if level == 0 then 1 else Prime(level) * Period(level - 1)
  }

  lemma SievedNext(level: nat, i: nat)
    requires 1 <= level <= 4
    ensures Sieved(level, i) <==> Sieved(level - 1, i) && i % Prime(level) != 0
  {}

  lemma ShiftMod(i: nat, m: nat, q: nat)
    requires q > 0 && m % q == 0
    ensures (i + m) % q == i % q
  {
    var k := m / q;
    assert m == q * k + m % q;
    ShiftModMultiple(i, k, q);
  }

  lemma {:induction false} ShiftModMultiple(i: nat, k: nat, q: nat)
    requires q > 0
    ensures (i + q * k) % q == i % q
  {
    if k != 0 {
      ShiftModMultiple(i, k - 1, q);
      AddModulus(i + q * (k - 1), q);
      assert i + q * k == i + q * (k - 1) + q;
    }
  }

  lemma SievedPeriodic(level: nat, i: nat)
    requires level <= 4
    ensures Sieved(level, i + Period(level)) <==> Sieved(level, i)
  {
    assert Period(1) == 3 && Period(2) == 15 && Period(3) == 255;
    assert level == 4 ==> Period(level) == 257 * Period(3);
    if level >= 1 { ShiftMod(i, Period(level), 3); }
    if level >= 2 { ShiftMod(i, Period(level), 5); }
    if level >= 3 { ShiftMod(i, Period(level), 17); }
    if level >= 4 { ShiftMod(i, Period(level), 257); }
  }

  /** A prime factor not among the first `level` does not change what they sieve out. */
  lemma SievedScaled(level: nat, q: nat, j: nat)
    requires level <= 3 && q == Prime(level + 1)
    ensures Sieved(level, q * j) <==> Sieved(level, j)
  {
    if level >= 1 { ScaledMod(3, q, j); }
    if level >= 2 { ScaledMod(5, q, j); }
    if level >= 3 { ScaledMod(17, q, j); }
  }

  lemma ScaledMod(p: nat, q: nat, j: nat)
    requires PrimeFactor(p) && PrimeFactor(q) && p < q
    ensures (q * j) % p == 0 <==> j % p == 0
  {
    DividesMod(p, q);
    DividesMod(p, j);
    DividesMod(p, q * j);
    if Divides(p, q * j) {
      PrimeSplits(p, q, j);
    }
    if Divides(p, j) {
      DividesMultiple(p, j, q);
      assert j * q == q * j;
    }
  }

  lemma {:induction false} CountShift(level: nat, a: nat, n: nat)
    requires forall i: nat :: Sieved(level, a + i) <==> Sieved(level, i)
    ensures Count(level, a + n) == Count(level, a) + Count(level, n)
    decreases n
  {
    hide Sieved;
    if n != 0 {
      CountShift(level, a, n - 1);
    }
  }

  lemma {:induction false} SievedPeriods(level: nat, k: nat, i: nat)
    requires level <= 4
    ensures Sieved(level, k * Period(level) + i) <==> Sieved(level, i)
  {
    hide Sieved, Period;
    if k == 0 {
      assert k * Period(level) + i == i;
    } else {
      SievedPeriods(level, k - 1, i);
      SievedPeriodic(level, (k - 1) * Period(level) + i);
      assert k * Period(level) + i == (k - 1) * Period(level) + i + Period(level);
    }
  }

  lemma {:induction false} CountPeriods(level: nat, k: nat)
    requires level <= 4
    ensures Count(level, k * Period(level)) == k * Count(level, Period(level))
  {
    hide Sieved, Period;
    var m := Period(level);
    if k == 0 {
      assert k * m == 0;
    } else {
      CountPeriods(level, k - 1);
      assert k * m == (k - 1) * m + m;
      assert k * Count(level, m) == (k - 1) * Count(level, m) + Count(level, m);
      forall i: nat
        ensures Sieved(level, (k - 1) * m + i) <==> Sieved(level, i)
      {
        SievedPeriods(level, k - 1, i);
      }
      CountShift(level, (k - 1) * m, m);
    }
  }

  /** Sieving by the next prime `q` removes the multiples q * j for which j survives. */
  lemma {:induction false} CountNext(level: nat, q: nat, j: nat)
    requires level <= 3 && q == Prime(level + 1)
    ensures Count(level + 1, q * j) + Count(level, j) == Count(level, q * j)
    decreases j
  {
    hide Sieved, Prime;
    if j == 0 {
      assert q * j == 0;
    } else {
      CountNext(level, q, j - 1);
      assert q * j == q * (j - 1) + q;
      SievedNext(level + 1, q * (j - 1));
      SievedScaled(level, q, j - 1);
      MultipleMod(q, j - 1);
      CountNextBlock(level, q, j - 1, q);
    }
  }

  lemma {:induction false} CountNextBlock(level: nat, q: nat, j: nat, r: nat)
    requires level <= 3 && q == Prime(level + 1) && 1 <= r <= q
    ensures Count(level + 1, q * j + r) + (if Sieved(level, q * j) then 1 else 0) - Count(level, q * j + r)
      == Count(level + 1, q * j) - Count(level, q * j)
    decreases r
  {
    hide Sieved, Prime;
    SievedNext(level + 1, q * j + r - 1);
    if r == 1 {
      MultipleMod(q, j);
    } else {
      MultipleOffsetMod(q, j, r - 1);
      CountNextBlock(level, q, j, r - 1);
    }
  }

  lemma CountStep(level: nat)
    requires level <= 3
    ensures Count(level + 1, Period(level + 1)) == (Prime(level + 1) - 1) * Count(level, Period(level))
  {
    hide Sieved, Count, Prime;
    var q, m := Prime(level + 1), Period(level);
    CountNext(level, q, m);
    CountPeriods(level, q);
    assert (q - 1) * Count(level, m) == q * Count(level, m) - Count(level, m);
  }

  ghost predicate CountIs(level: nat, m: nat, c: nat) { Count(level, m) == c }

  /** There are 32768 exponents below 65535 that are prime to 65535. */
  lemma UsableExponents(m: nat)
    requires m == Period(4)
    ensures m == 65535 && CountIs(4, m, 32768)
  {
    hide Count;
    CountOne();
    CountStep(0);
    CountStep(1);
    CountStep(2);
    CountStep(3);
  }

  lemma CountOne()
    ensures Count(0, Period(0)) == 1
  {
    assert Count(0, 0) == 0;
  }

  // ----- the base exponents

  lemma {:induction false} CountMonotone(m: nat, n: nat)
    requires m <= n
    ensures Count(4, m) <= Count(4, n)
    decreases n
  {
    if m < n {
      CountMonotone(m, n - 1);
    }
  }

  lemma {:induction false} CountGap(m: nat, n: nat)
    requires m <= n && forall i :: m <= i < n ==> !Usable(i)
    ensures Count(4, n) == Count(4, m)
    decreases n
  {
    if m < n {
      CountGap(m, n - 1);
      assert !Usable(n - 1);
    }
  }

  /** Exactly `i` usable exponents lie below the one of slice `i`. */
  lemma {:induction false} BaseLogCount(i: nat)
    ensures Count(4, BaseLog(i)) == i
  {
    hide Usable, NextUsable;
    if i == 0 {
      CountGap(0, NextUsable(0));
    } else {
      BaseLogCount(i - 1);
      var l := BaseLog(i - 1);
      UsableIsSieved(l);
      CountGap(l + 1, NextUsable(l + 1));
    }
  }

  lemma UsableIsSieved(l: nat)
    ensures Usable(l) <==> Sieved(4, l)
  {}

  /** The exponents stay below 65535 for 32768 slices and for no more. */
  lemma BaseLogBound(i: nat)
    ensures BaseLog(i) < 65535 <==> i < 32768
  {
    hide Count, BaseLog, Period, Usable, Sieved;
    var m := Period(4);
    UsableExponents(m);
    BaseLogCount(i);
    var l := BaseLog(i);
    if l < m {
      UsableIsSieved(l);
      CountSucc(l);
      CountMonotone(l + 1, m);
    } else {
      CountMonotone(m, l);
    }
    CountIsCount(4, m, 32768);
  }

  lemma CountSucc(l: nat)
    requires Sieved(4, l)
    ensures Count(4, l + 1) == Count(4, l) + 1
  {}

  lemma CountIsCount(level: nat, m: nat, c: nat)
    requires CountIs(level, m, c)
    ensures Count(level, m) == c
  {
    hide Count;
  }

  lemma {:induction false} BaseLogIncreases(i: nat, j: nat)
    requires i < j
    ensures BaseLog(i) < BaseLog(j)
    decreases j
  {
    if i < j - 1 {
      BaseLogIncreases(i, j - 1);
    }
  }

  /** The base value of input slice `i`. */
  function Base(i: nat): Elem { XPow(BaseLog(i)) }

  lemma BasesNonzeroDistinct(i: nat, j: nat)
    requires i < j < 32768
    ensures Base(i) != 0 && Base(j) != 0 && Base(i) != Base(j)
  {
    hide XPow, BaseLog;
    XPowNonzero(BaseLog(i));
    XPowNonzero(BaseLog(j));
    BaseLogBound(i);
    BaseLogBound(j);
    BaseLogIncreases(i, j);
    if Base(i) == Base(j) {
      XPowDistinct(BaseLog(i), BaseLog(j));
    }
  }

  // ----- generating them

  method NextBaseLog(l0: nat) returns (l: nat)
    ensures l == NextUsable(l0)
  {
    l := l0;
    var usable := IsUsable(l);
    while !usable
      invariant l0 <= l && usable == Usable(l)
      invariant NextUsable(l) == NextUsable(l0)
      decreases StepsToSpare(l)
    {
      StepsDecrease(l);
      l := l + 1;
      usable := IsUsable(l);
    }
  }

  /** The base value of slice `i` as it is made: the logarithm is cut to 16 bits, of which 65535 stands for zero. */
  function CutBase(i: nat): Elem {
    var l := BaseLog(i) % COUNT;
    if l == LIMIT then 0 else XPow(l)
  }

  lemma CutBaseIs(i: nat)
    ensures i < 32768 ==> CutBase(i) == Base(i)
  {
    hide XPow, BaseLog;
    BaseLogBound(i);
  }

  /** The next two exponents from 65535 on. */
  lemma ExponentsBeyond()
    ensures NextUsable(65535) == 65536 && NextUsable(65537) == 65537
  {
    assert Usable(65536) && Usable(65537) && !Usable(65535);
  }

  lemma {:induction false} SearchFurther(l: nat, m: nat)
    requires l <= m && forall i :: l <= i < m ==> !Usable(i)
    ensures NextUsable(l) == NextUsable(m)
    decreases m - l
  {
    hide Usable;
    if l < m {
      SearchFurther(l + 1, m);
    }
  }

  lemma LogsBeyond()
    ensures BaseLog(32768) == 65536 && BaseLog(32769) == 65537
  {
    hide NextUsable, Usable;
    BaseLogBound(32767);
    BaseLogBound(32768);
    BaseLogIsNext(32768);
    BaseLogIsNext(32769);
    ExponentsBeyond();
    var l := BaseLog(32767) + 1;
    NothingBefore(l);
    SearchFurther(l, 65535);
  }

  lemma NothingBefore(l: nat)
    requires NextUsable(l) >= 65535
    ensures forall i :: l <= i < 65535 ==> !Usable(i)
  {
    hide Usable;
  }

  /** Beyond 32768 slices the base values start over: slice 32769 has that of slice 0. */
  lemma BasesRepeat()
    ensures CutBase(32769) == CutBase(0) == Base(0) && CutBase(32768) == XPow(0)
  {
    hide XPow, BaseLog, NextUsable;
    LogsBeyond();
    FirstLog();
    CutBaseIs(0);
  }

  lemma FirstLog()
    ensures BaseLog(0) == 1
  {
    assert NextUsable(0) == NextUsable(1) == 1;
  }

  /** The base values for `n` slices, as the encoder and the reconstruction engine make them. */
  method GenerateBases(t: Tables, n: nat) returns (bases: seq<Elem>)
    requires t.Valid()
    ensures |bases| == n
    ensures forall i :: 0 <= i < n ==> bases[i] == CutBase(i)
    ensures forall i :: 0 <= i < n ==>
      bases[i] == if BaseLog(i) % 0x1_0000 == 0xFFFF then 0 else XPow(BaseLog(i) % 0x1_0000)
    ensures forall i :: 0 <= i < n && i < 32768 ==> bases[i] == Base(i)
  {
    hide XPow, NextUsable, BaseLog, Tables.Valid;
    bases := [];
    var logbase := 0;
    for i := 0 to n
      invariant |bases| == i && logbase == SearchStart(i)
      invariant forall k :: 0 <= k < i ==> bases[k] == CutBase(k)
      invariant forall k :: 0 <= k < i && k < 32768 ==> bases[k] == Base(k)
    {
      logbase := NextBaseLog(logbase);
      BaseLogIsNext(i);
      CutBaseIs(i);
      bases := bases + [t.Alog(logbase % COUNT)];
      logbase := logbase + 1;
    }
  }

  /** Where the search for the logarithm of base `i` starts. */
  function SearchStart(i: nat): nat {
    if i == 0 then 0 else BaseLog(i - 1) + 1
  }

  lemma BaseLogIsNext(i: nat)
    ensures BaseLog(i) == NextUsable(SearchStart(i))
    ensures SearchStart(i + 1) == BaseLog(i) + 1
  {
    hide NextUsable;
  }
}
