/** The log/antilog tables, and the field operations read off them. */
module GaloisTable {
  import opened Divisors
  import opened Gf16
  import opened Primitive

  datatype Option<+T> = None | Some(value: T)

  const COUNT: nat := 65536
  const LIMIT: nat := 65535

  function Index(a: Elem): (i: nat)
    ensures i < COUNT
  {
    a as int
  }

  datatype Tables = Tables(log: seq<nat>, antilog: seq<Elem>) {

    /** The two tables are inverse on the nonzero elements; both mark zero with `LIMIT`. */
    ghost predicate Valid() {
      && |log| == |antilog| == COUNT
      && (forall i: nat :: i < LIMIT ==> antilog[i] == XPow(i))
      && (forall a: Elem :: a != 0 ==> log[Index(a)] == Log(a))
      && log[0] == LIMIT
      && antilog[LIMIT] == 0
    }

    lemma LogAt(a: Elem)
      requires Valid() && a != 0
      ensures log[Index(a)] == Log(a) < LIMIT && XPow(log[Index(a)]) == a
    {
      hide XPow;
      assert Log(a) < LIMIT;
    }

    function Times(a: Elem, b: Elem): (r: Elem)
      requires Valid()
      ensures r == Mul(a, b)
    {
      hide XPow, Mul;
      MulZeroLeft(b);
      MulZeroRight(a);
      if a == 0 || b == 0 then
        0
      else
        LogAt(a);
        LogAt(b);
        MulOfPowers(log[Index(a)], log[Index(b)]);
        antilog[(log[Index(a)] + log[Index(b)]) % LIMIT]
    }

    /** Division for matrix code: no quotient when the divisor is zero. */
    function CheckedDiv(a: Elem, b: Elem): (r: Option<Elem>)
      requires Valid()
      ensures r.None? <==> b == 0
      ensures r.Some? ==> Mul(r.value, b) == a && Mul(b, r.value) == a
    {
      hide XPow, Mul;
      if b == 0 then
        None
      else if a == 0 then
        MulZeroLeft(b);
        MulZeroRight(b);
        Some(0)
      else
        LogAt(a);
        LogAt(b);
        QuotientOfPowers(log[Index(a)], log[Index(b)]);
        Some(antilog[(log[Index(a)] - log[Index(b)] + LIMIT) % LIMIT])
    }

    /** Powers. The exponent product stays below 2^32, and zero to the power zero comes out as zero. */
    function Power(a: Elem, e: nat): (r: Elem)
      requires Valid() && e < COUNT
      ensures r == if a == 0 then 0 else Pow(a, e)
    {
      hide XPow, Pow;
      if a == 0 then
        0
      else
        LogAt(a);
        PowOfXPow(log[Index(a)], e);
        XPowMod(log[Index(a)] * e);
        LogProductFits(log[Index(a)], e);
        antilog[(log[Index(a)] * e) % LIMIT]
    }

    /** The base value with a given logarithm. */
    function Alog(n: nat): (r: Elem)
      requires Valid() && n < COUNT
      ensures r == if n == LIMIT then 0 else XPow(n)
    {
      antilog[n]
    }
  }

  lemma LogProductFits(l: nat, e: nat)
    requires l < LIMIT && e < COUNT
    ensures 0 <= l * e < 0x1_0000_0000
  {
    MulMonotone(l, e, LIMIT);
    MulMonotone(LIMIT, l, LIMIT);
    MulMonotone(l, 0, e);
  }

  lemma QuotientOfPowers(i: nat, j: nat)
    requires i < LIMIT && j < LIMIT
    ensures Mul(XPow((i - j + LIMIT) % LIMIT), XPow(j)) == XPow(i)
    ensures Mul(XPow(j), XPow((i - j + LIMIT) % LIMIT)) == XPow(i)
  {
    hide XPow, Mul;
    var d := (i - j + LIMIT) % LIMIT;
    MulOfPowers(d, j);
    assert (d + j) % LIMIT == i;
    MulComm(XPow(d), XPow(j));
  }

  /** One step of the table loop, in 32 bits: shift, and reduce when bit 16 is set. */
  function Double(b: Elem): Elem {
    var d := (b as bv32) << 1;
    (if d & 0x10000 != 0 then d ^ 0x1100B else d) as bv16
  }

  lemma DoubleIsXtime(a: Elem)
    ensures Double(a) == Xtime(a)
  {
    if (a as bv32 << 1) & 0x10000 != 0 {
      assert a >> 15 == 1;
    } else {
      assert a >> 15 == 0;
    }
  }

  /** Fills both tables by running once through the powers of x. */
  method BuildTables() returns (t: Tables)
    ensures t.Valid()
  {
    hide XPow, Xtime, Double, Index;
    var log := new nat[COUNT](_ => 0);
    var antilog := new Elem[COUNT](_ => 0);
    var b: Elem := 1;
    XPowZero();
    for l := 0 to LIMIT
      invariant b == XPow(l)
      invariant forall i: nat :: i < l ==> antilog[i] == XPow(i)
      invariant forall i: nat :: i < l ==> log[Index(XPow(i))] == i
    {
      forall i: nat | i < l
        ensures Index(XPow(i)) != Index(XPow(l))
      {
        DistinctIndex(i, l);
      }
      log[Index(b)] := l;
      antilog[l] := b;
      DoubleIsXtime(XPow(l));
      NextPower(l);
      b := Double(b);
    }
    forall i: nat | i < LIMIT
      ensures Index(XPow(i)) != 0
    {
      NonzeroIndex(i);
    }
    log[0] := LIMIT;
    antilog[LIMIT] := 0;
    t := Tables(log[..], antilog[..]);
    forall a: Elem | a != 0
      ensures t.log[Index(a)] == Log(a)
    {
      assert XPow(Log(a)) == a;
    }
  }

  lemma NextPower(l: nat)
    ensures XPow(l + 1) == Xtime(XPow(l))
  {
    hide Xtime;
  }

  lemma DistinctIndex(i: nat, l: nat)
    requires i < l < LIMIT
    ensures Index(XPow(i)) != Index(XPow(l))
  {
    hide XPow;
    if Index(XPow(i)) == Index(XPow(l)) {
      IndexInjective(XPow(i), XPow(l));
      XPowDistinct(i, l);
    }
  }

  lemma NonzeroIndex(i: nat)
    ensures Index(XPow(i)) != 0
  {
    hide XPow;
    XPowNonzero(i);
    IndexNonzero(XPow(i));
  }
}
