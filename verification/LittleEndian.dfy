/** Little-endian numbers in byte sequences. */
module LittleEndian {
  import opened Divisors
  import opened SliceKernel

  function LeValue(s: Bytes): nat {
    if s == [] then 0 else ByteIndex(s[0]) + 256 * LeValue(s[1..])
  }

  function ByteOfNat(n: nat): Byte { ByteOf(n % 256) }

  function LeBytes(n: nat, width: nat): (r: Bytes)
    ensures |r| == width
  {
    if width == 0 then [] else [ByteOfNat(n)] + LeBytes(n / 256, width - 1)
  }

  function Capacity(width: nat): (r: nat)
    ensures r > 0
  {
    if width == 0 then 1 else 256 * Capacity(width - 1)
  }

  lemma ByteOfNatIndex(n: nat)
    ensures ByteIndex(ByteOfNat(n)) == n % 256
  {
    hide ByteIndex, ByteOf;
    IndexOfByteOf(n % 256);
  }

  lemma ZeroByte()
    ensures ByteIndex(0) == 0
  {}

  lemma NextByte(b: Byte)
    requires ByteIndex(b) < 255
    ensures ByteIndex(b + 1) == ByteIndex(b) + 1
  {}

  lemma {:induction false} ByteWithIndex(i: nat) returns (b: Byte)
    requires i < 256
    ensures ByteIndex(b) == i
  {
    hide ByteIndex;
    if i == 0 {
      ZeroByte();
      b := 0;
    } else {
      var before := ByteWithIndex(i - 1);
      NextByte(before);
      b := before + 1;
    }
  }

  lemma IndexOfByteOf(i: nat)
    requires i < 256
    ensures ByteIndex(ByteOf(i)) == i
  {
    hide ByteIndex, ByteOf;
    var b := ByteWithIndex(i);
    ByteOfIndex(b);
  }

  lemma IndexOfNat(b: Byte)
    ensures ByteOfNat(ByteIndex(b)) == b
  {
    hide ByteIndex, ByteOf;
    SmallRemainder(ByteIndex(b));
    ByteOfIndex(b);
  }

  lemma SmallRemainder(i: nat)
    requires i < 256
    ensures i % 256 == i
  {}

  /** Byte `i` is digit `i` to the base 256, from the lowest: Capacity(i) is 256^i. */
  lemma {:induction false} LeBytesAt(n: nat, width: nat, i: nat)
    requires i < width
    ensures ByteIndex(LeBytes(n, width)[i]) == (n / Capacity(i)) % 256
    decreases width
  {
    hide ByteIndex, ByteOfNat;
    if i == 0 {
      ByteOfNatIndex(n);
    } else {
      LeBytesAt(n / 256, width - 1, i - 1);
      DivideTwice(n, Capacity(i - 1));
    }
  }

  lemma DivideTwice(n: nat, c: nat)
    requires c > 0
    ensures n / 256 / c == n / (256 * c)
  {
    var q := n / 256 / c;
    var (a, b) := ((n / 256) % c, n % 256);
    assert n / 256 == c * q + a && n == 256 * (n / 256) + b;
    assert n == q * (256 * c) + (256 * a + b);
    DivideBy(q, 256 * a + b, 256 * c);
  }

  /** Numbers that fit survive the round trip. */
  lemma {:induction false} LeRoundTrip(n: nat, width: nat)
    requires n < Capacity(width)
    ensures LeValue(LeBytes(n, width)) == n
    decreases width
  {
    hide ByteIndex, ByteOfNat;
    if width != 0 {
      LeRoundTrip(n / 256, width - 1);
      ByteOfNatIndex(n);
      assert LeBytes(n, width)[1..] == LeBytes(n / 256, width - 1);
    }
  }

  /** So do byte sequences. */
  lemma {:induction false} LeBytesOfValue(s: Bytes)
    ensures LeValue(s) < Capacity(|s|) && LeBytes(LeValue(s), |s|) == s
    decreases |s|
  {
    hide ByteIndex, ByteOfNat;
    if s != [] {
      LeBytesOfValue(s[1..]);
      Digits(ByteIndex(s[0]), LeValue(s[1..]));
      IndexOfNat(s[0]);
      LowDigit(s[0], LeValue(s[1..]));
    }
  }

  lemma Digits(low: nat, high: nat)
    requires low < 256
    ensures (low + 256 * high) / 256 == high && (low + 256 * high) % 256 == low
  {}

  lemma LowDigit(b: Byte, high: nat)
    ensures ByteOfNat(ByteIndex(b) + 256 * high) == ByteOfNat(ByteIndex(b))
  {
    hide ByteIndex;
    Digits(ByteIndex(b), high);
  }
}
