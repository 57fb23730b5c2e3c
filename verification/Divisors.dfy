/** Divisibility, as far as the exponents of a field with 65535 nonzero elements need it. */
module Divisors {

  /** The greatest common divisor, by Euclid's algorithm. */
  function Gcd(a: nat, b: nat): nat
    decreases b
  {
    if b == 0 then a else Gcd(b, a % b)
  }

  ghost predicate Divides(d: nat, n: nat) {
    exists k: nat :: d * k == n
  }

  lemma DividesMod(d: nat, n: nat)
    requires d > 0
    ensures Divides(d, n) <==> n % d == 0
  {
    if n % d == 0 {
      assert d * (n / d) == n;
    }
    if Divides(d, n) {
      var k: nat :| d * k == n;
      MultipleMod(d, k);
    }
  }

  lemma MultipleMod(d: nat, k: nat)
    requires d > 0
    ensures (d * k) % d == 0
  {
    MultipleOffsetMod(d, k, 0);
  }

  lemma {:induction false} MultipleOffsetMod(d: nat, k: nat, r: nat)
    requires r < d
    ensures (d * k + r) % d == r
  {
    if k != 0 {
      MultipleOffsetMod(d, k - 1, r);
      assert d * k + r == (d * (k - 1) + r) + d;
      AddModulus(d * (k - 1) + r, d);
    }
  }

  lemma MulMonotone(d: nat, i: int, j: int)
    requires i <= j
    ensures d * i <= d * j
  {
    assert d * j - d * i == d * (j - i);
  }

  lemma NonnegativeProduct(a: nat, b: nat)
    ensures a * b >= 0
  {}

  lemma FactorsOrdered(a: nat, b: nat, s: nat)
    requires a <= b
    ensures a * s <= b * s
  {
    MulMonotone(s, a, b);
    assert a * s == s * a && b * s == s * b;
  }

  lemma ProductsOrdered(a: nat, b: nat, s: nat)
    requires a * s < b * s
    ensures a < b
  {
    if b <= a {
      FactorsOrdered(b, a, s);
    }
  }

  lemma DivisionParts(n: nat, d: nat)
    requires d > 0
    ensures (n / d) * d + n % d == n
  {
    assert n == d * (n / d) + n % d;
  }

  lemma AddModulus(n: nat, d: nat)
    requires d > 0
    ensures (n + d) % d == n % d
  {
    assert n == d * (n / d) + n % d;
    assert n + d == d * ((n + d) / d) + (n + d) % d;
    var q := (n + d) / d - n / d;
    assert d * q == d + n % d - (n + d) % d by {
      assert d * q == d * ((n + d) / d) - d * (n / d);
    }
    if q <= 0 {
      MulMonotone(d, q, 0);
    } else if q >= 2 {
      MulMonotone(d, 2, q);
    }
  }

  lemma DivideBy(q: nat, r: nat, d: nat)
    requires r < d
    ensures q * d + r >= 0 && (q * d + r) / d == q && (q * d + r) % d == r
  {
    NonnegativeProduct(q, d);
    var n := q * d + r;
    assert n == d * q + r;
    MultipleOffsetMod(d, q, r);
    assert n == d * (n / d) + n % d;
    SameProduct(d, n / d, q);
  }

  lemma SameProduct(d: nat, a: int, b: int)
    requires d > 0 && d * a == d * b
    ensures a == b
  {
    if a < b {
      MulMonotone(d, a + 1, b);
    } else if b < a {
      MulMonotone(d, b + 1, a);
    }
  }

  lemma DividesSum(d: nat, a: nat, b: nat)
    requires Divides(d, a) && Divides(d, b)
    ensures Divides(d, a + b)
  {
    var k: nat :| d * k == a;
    var l: nat :| d * l == b;
    assert d * (k + l) == a + b;
  }

  lemma DividesMultiple(d: nat, a: nat, m: nat)
    requires Divides(d, a)
    ensures Divides(d, a * m)
  {
    var k: nat :| d * k == a;
    assert d * (k * m) == a * m;
  }

  lemma DividesItselfAndZero(a: nat)
    ensures Divides(a, a) && Divides(a, 0)
  {
    assert a * 1 == a && a * 0 == 0;
  }

  lemma DividesCombination(g: nat, a: nat, b: nat, q: nat, r: nat)
    requires a == b * q + r && Divides(g, b) && Divides(g, r)
    ensures Divides(g, a)
  {
    hide Divides;
    DividesMultiple(g, b, q);
    DividesSum(g, b * q, r);
  }

  lemma GcdStep(a: nat, b: nat)
    ensures Gcd(a, b) == if b == 0 then a else Gcd(b, a % b)
  {}

  /** Gcd(a, b) divides both numbers. */
  lemma {:induction false} GcdDivides(a: nat, b: nat)
    ensures Divides(Gcd(a, b), a) && Divides(Gcd(a, b), b)
    decreases b
  {
    hide Divides, Gcd;
    GcdStep(a, b);
    var g := Gcd(a, b);
    if b == 0 {
      DividesItselfAndZero(a);
    } else {
      GcdDivides(b, a % b);
      DividesCombination(g, a, b, a / b, a % b);
    }
  }

  lemma {:induction false} Bezout(a: nat, b: nat) returns (s: int, t: int)
    ensures s * a + t * b == Gcd(a, b)
    decreases b
  {
    if b == 0 {
      s, t := 1, 0;
    } else {
      var s', t' := Bezout(b, a % b);
      s, t := t', s' - t' * (a / b);
      DivisionParts(a, b);
      CombinationStep(a, b, a / b, a % b, s', t', Gcd(b, a % b));
    }
  }

  lemma CombinationStep(a: int, b: int, q: int, r: int, s: int, t: int, g: int)
    requires q * b + r == a && s * b + t * r == g
    ensures t * a + (s - t * q) * b == g
  {
    assert t * (q * b + r) == (t * q) * b + t * r;
    assert (s - t * q) * b == s * b - (t * q) * b;
  }

  /** Two numbers with a common divisor of one only, of which the first divides a product. */
  lemma CoprimeFactor(q: nat, a: nat, b: nat)
    requires q > 0 && Gcd(q, a) == 1 && Divides(q, a * b)
    ensures Divides(q, b)
  {
    var s, t := Bezout(q, a);
    var k: nat :| q * k == a * b;
    var m := s * b + t * k;
    CombineProducts(q, a, b, s, t, k);
    NonnegativeFactor(q, m, b);
    var n: nat := m;
    assert q * n == b;
  }

  lemma NonnegativeFactor(q: nat, m: int, b: nat)
    requires q > 0 && q * m == b
    ensures m >= 0
  {
    if m < 0 {
      MulMonotone(q, m, -1);
    }
  }

  lemma CombineProducts(q: int, a: int, b: int, s: int, t: int, k: int)
    requires s * q + t * a == 1 && q * k == a * b
    ensures q * (s * b + t * k) == b
  {
    assert (s * q + t * a) * b == b;
    assert (s * q) * b == q * (s * b);
    assert (t * a) * b == t * (a * b);
    assert t * (q * k) == q * (t * k);
    assert q * (s * b) + q * (t * k) == q * (s * b + t * k);
  }

  /** 65535 == 3 * 5 * 17 * 257 */
  predicate PrimeFactor(q: nat) { q == 3 || q == 5 || q == 17 || q == 257 }

  lemma SmallFactorOf257(g: nat, h: nat)
    requires 2 <= g <= 16
    ensures g * h != 257
  {
    if g == 2 {} else if g == 3 {} else if g == 4 {} else if g == 5 {} else if g == 6 {}
    else if g == 7 {} else if g == 8 {} else if g == 9 {} else if g == 10 {} else if g == 11 {}
    else if g == 12 {} else if g == 13 {} else if g == 14 {} else if g == 15 {} else {}
  }

  lemma SmallFactorOf17(g: nat, h: nat)
    requires 2 <= g <= 4
    ensures g * h != 17
  {
    if g == 2 {} else if g == 3 {} else {}
  }

  lemma LargeFactors(m: nat, g: nat, h: nat)
    requires m <= g && m <= h
    ensures m * m <= g * h
  {
    MulMonotone(m, m, h);
    MulMonotone(h, m, g);
  }

  lemma PrimeDivisor(q: nat, g: nat)
    requires PrimeFactor(q) && Divides(g, q)
    ensures g == 1 || g == q
  {
    var h: nat :| g * h == q;
    if g >= 2 && h >= 2 {
      SmallFactorOf17(if g <= 4 then g else 2, h);
      SmallFactorOf17(if h <= 4 then h else 2, g);
      SmallFactorOf257(if g <= 16 then g else 2, h);
      SmallFactorOf257(if h <= 16 then h else 2, g);
      LargeFactors(if g >= 17 && h >= 17 then 17 else if g >= 5 && h >= 5 then 5 else 2, g, h);
      if q <= 5 {
        SmallProduct(q, g, h);
      }
    } else if h == 1 {
      assert g * 1 == q;
    }
  }

  lemma SmallProduct(q: nat, g: nat, h: nat)
    requires q == 3 || q == 5
    ensures g * h == q && g >= 2 ==> h < 2
  {
    if g >= 2 && h >= 3 { LargeFactors(2, g, h); MulMonotone(h, 2, g); }
    if h >= 2 && g >= 3 { MulMonotone(g, 2, h); }
  }

  lemma PrimeSplits(q: nat, a: nat, b: nat)
    requires PrimeFactor(q) && Divides(q, a * b)
    ensures Divides(q, a) || Divides(q, b)
  {
    GcdDivides(q, a);
    PrimeDivisor(q, Gcd(q, a));
    if Gcd(q, a) == 1 {
      CoprimeFactor(q, a, b);
    }
  }

  /** A divisor of 65535 other than one has a prime factor among 3, 5, 17 and 257. */
  lemma DivisorHasPrime(g: nat) returns (q: nat)
    requires g != 1 && Divides(g, 65535)
    ensures PrimeFactor(q) && Divides(q, g)
  {
    var h: nat :| g * h == 65535;
    CofactorTakesAll(g, h);
    if Divides(3, g) {
      return 3;
    } else if Divides(5, g) {
      return 5;
    } else if Divides(17, g) {
      return 17;
    }
    return 257;
  }

  lemma CofactorTakesAll(g: nat, h: nat)
    requires g != 1 && g * h == 65535
    ensures Divides(3, g) || Divides(5, g) || Divides(17, g) || Divides(257, g)
  {
    assert 3 * 21845 == 65535 && 5 * 13107 == 65535 && 17 * 3855 == 65535 && 257 * 255 == 65535;
    assert Divides(3, g * h) && Divides(5, g * h) && Divides(17, g * h) && Divides(257, g * h);
    PrimeSplits(3, g, h);
    PrimeSplits(5, g, h);
    PrimeSplits(17, g, h);
    PrimeSplits(257, g, h);
    if Divides(3, h) && Divides(5, h) && Divides(17, h) && Divides(257, h) {
      AllPrimesDivide(h);
      MulMonotone(h, 2, if g >= 2 then g else 2);
    }
  }

  lemma AllPrimesDivide(h: nat)
    requires Divides(3, h) && Divides(5, h) && Divides(17, h) && Divides(257, h)
    ensures h == 0 || h >= 65535
  {
    var a: nat :| 3 * a == h;
    var b: nat :| 5 * b == h;
    var c: nat :| 17 * c == h;
    var d: nat :| 257 * d == h;
    var e := 2 * b - a;
    assert h == 15 * e;
    var f := 8 * c - 7 * e;
    FifteenAndSeventeen(h, e, c, f);
    With257(h, f, d);
  }

  lemma FifteenAndSeventeen(h: nat, e: int, c: int, f: int)
    requires h == 15 * e && h == 17 * c && f == 8 * c - 7 * e
    ensures h == 255 * f
  {}

  lemma With257(h: nat, f: int, d: int)
    requires h == 255 * f && h == 257 * d
    ensures h == 0 || h >= 65535
  {
    assert h == 65535 * (128 * d - 127 * f);
  }
}
