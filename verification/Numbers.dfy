/** Powers, remainders and big-endian byte strings. */
module Numbers {
  // ---------------------------------------------------------------- quotients and remainders

  lemma Associate(a: int, b: int, c: int)
    ensures a * (b * c) == (a * b) * c
  {
  }

  lemma DivMod(a: int, m: int)
    requires m > 0
    ensures a == (a / m) * m + a % m && 0 <= a % m < m
  {
  }

  lemma UniqueRemainder(a: int, m: int, q: int, r: int)
    requires m > 0 && a == q * m + r && 0 <= r < m
    ensures a % m == r && a / m == q
  {
    NoMultipleBetween(q - a / m, m);
  }

  lemma NoMultipleBetween(d: int, m: int)
    requires m > 0 && -m < d * m < m
    ensures d == 0
  {
    AtLeastOnce(d, m);
    AtLeastOnce(-d, m);
  }

  lemma AtLeastOnce(d: int, m: int)
    ensures d >= 1 && m > 0 ==> d * m >= m
  {
  }

  lemma Multiple(base: nat, size: nat, q: int)
    requires size > 0 && base == q * size
    ensures base % size == 0 && base / size == q
  {
    UniqueRemainder(base, size, q, 0);
  }

  lemma SmallRemainder(v: nat, p: nat)
    requires v < p
    ensures v % p == v
  {
  }

  // ---------------------------------------------------------------- powers

  function Pow(b: nat, e: nat): (p: nat)
    ensures b > 0 ==> p > 0
  {
    if e == 0 then 1 else b * Pow(b, e - 1)
  }

  lemma {:induction false} PowSum(b: nat, m: nat, n: nat)
    ensures Pow(b, m + n) == Pow(b, m) * Pow(b, n)
  {
    if m > 0 {
      PowSum(b, m - 1, n);
      Associate(b, Pow(b, m - 1), Pow(b, n));
    }
  }

  lemma PowOne(b: nat)
    ensures Pow(b, 1) == b
  {
  }

  lemma PowPositive(b: nat, e: nat)
    requires b > 0
    ensures Pow(b, e) > 0
  {
  }

  lemma {:induction false} PowMonotone(b: nat, m: nat, n: nat)
    requires b > 0 && m <= n
    ensures Pow(b, m) <= Pow(b, n)
  {
    if m < n {
      PowMonotone(b, m, n - 1);
      AtLeastOnce(b, Pow(b, n - 1));
    }
  }

  lemma {:induction false} PowSquare(n: nat)
    ensures Pow(2, 8 * n) == Pow(256, n)
  {
    if n > 0 {
      PowSquare(n - 1);
      PowSum(2, 8, 8 * (n - 1));
      assert Pow(2, 8) == 256;
    }
  }

  // ---------------------------------------------------------------- big-endian bytes

  type byte = x: int | 0 <= x < 256

  /** The number a big-endian byte string denotes. */
  function FromBytes(bs: seq<byte>): nat {
    if bs == [] then 0 else FromBytes(bs[..|bs| - 1]) * 256 + bs[|bs| - 1]
  }

  /** big.Int.Bytes: big-endian without leading zeros. */
  function ToBytes(v: nat): seq<byte> {
    if v == 0 then [] else ToBytes(v / 256) + [v % 256]
  }

  /** The low w bytes of v, most significant first. */
  function BigEndian(v: nat, w: nat): (k: seq<byte>)
    ensures |k| == w
  {
    if w == 0 then [] else BigEndian(v / 256, w - 1) + [v % 256]
  }

  lemma PushDigit(hi: nat, d: byte, p: nat)
    requires p > 0
    ensures (hi * 256 + d) % (256 * p) == (hi % p) * 256 + d
  {
    var q, r := hi / p, hi % p;
    DivMod(hi, p);
    assert hi * 256 + d == q * (256 * p) + (r * 256 + d);
    assert r <= p - 1;
    assert 0 <= r * 256 + d < 256 * p;
    UniqueRemainder(hi * 256 + d, 256 * p, q, r * 256 + d);
  }

  /** Nothing but the digits beyond the width is lost. */
  lemma {:induction false} BigEndianDecodes(v: nat, w: nat)
    ensures FromBytes(BigEndian(v, w)) == v % Pow(256, w)
  {
    if w > 0 {
      BigEndianDecodes(v / 256, w - 1);
      PushDigit(v / 256, v % 256, Pow(256, w - 1));
    }
  }
}
