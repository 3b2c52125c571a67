/** Durations in nanoseconds, and the whole seconds that Duration.Seconds and a truncation make of them:
    the conversion goes through double precision, rounding to nearest with ties to even
    (clause 4.3.1 of IEEE 754-2008). */
module Durations {
  import opened Numbers

  const SECOND: int := 1_000_000_000

  // ---------------------------------------------------------------- doubles

  /** The number mantissa / 2^scale. */
  datatype Double = Double(mantissa: nat, scale: nat)

  const TWO_52: nat := 0x10_0000_0000_0000
  const TWO_53: nat := 0x20_0000_0000_0000

  /** The integer nearest to num / den; of two equally near, the even one. */
  function Nearest(num: nat, den: nat): nat
    requires den > 0
  {
    var q, r := num / den, num % den;
    if 2 * r < den || (2 * r == den && q % 2 == 0) then q else q + 1
  }

  /** Double the numerator until the quotient has 53 bits before the point. */
  function Normal(num: nat, den: nat, scale: nat): (nat, nat)
    requires num > 0 && den > 0
    decreases TWO_52 * den - num
  {
    if num >= TWO_52 * den then (num, scale) else Normal(2 * num, den, scale + 1)
  }

  /** num / den, below 2^53, in double precision. */
  function Round(num: nat, den: nat): Double
    requires den > 0
  {
    if num == 0 then Double(0, 0)
    else
      var (n, s) := Normal(num, den, 0);
      Double(Nearest(n, den), s)
  }

  function Truncate(x: Double): nat {
    x.mantissa / Pow(2, x.scale)
  }

  /** Duration.Seconds: whole seconds plus the rest divided by 10^9, each operation rounded. */
  function Seconds(d: nat): Double {
    var rest := Round(d % SECOND, SECOND);
    var unit := Pow(2, rest.scale);
    Round(d / SECOND * unit + rest.mantissa, unit)
  }

  // ---------------------------------------------------------------- when the sum rounds up

  lemma {:induction false} NormalIs(num: nat, den: nat, scale: nat, j: nat)
    requires num > 0 && den > 0 && TWO_52 * den <= num * Pow(2, j) < TWO_53 * den
    ensures Normal(num, den, scale) == (num * Pow(2, j), scale + j)
    decreases j
  {
    if j > 0 {
      Associate(num, 2, Pow(2, j - 1));
      assert num * Pow(2, j) == (2 * num) * Pow(2, j - 1);
      AtLeastAs(2 * num, Pow(2, j - 1));
      NormalIs(2 * num, den, scale + 1, j - 1);
    }
  }

  lemma AtLeastAs(a: nat, p: nat)
    requires p > 0
    ensures a * p >= a
  {
  }

  lemma {:induction false} NormalDoubles(num: nat, den: nat, scale: nat)
    requires num > 0 && den > 0 && num < TWO_53 * den
    ensures var (n, s) := Normal(num, den, scale);
      s >= scale && n == num * Pow(2, s - scale) && (num < TWO_52 * den ==> s > scale)
    decreases TWO_52 * den - num
  {
    if num < TWO_52 * den {
      NormalDoubles(2 * num, den, scale + 1);
      var s := Normal(num, den, scale).1;
      Associate(num, 2, Pow(2, s - scale - 1));
    }
  }

  lemma Grows(a: int, b: int, c: nat)
    requires a <= b
    ensures a * c <= b * c
  {
    assert (b - a) * c >= 0;
  }

  /** How far y = q * f + r stays below j * f. */
  lemma GapTo(y: nat, f: nat, j: nat, q: nat, r: nat)
    requires y == q * f + r && r < f && y < j * f
    ensures 0 <= q < j
    ensures if q == j - 1 then j * f - y == f - r else j * f - y > f
  {
    if q >= j {
      Grows(j, q, f);
    } else if q < j - 1 {
      Grows(q + 2, j, f);
    }
    assert (q + 1) * f == q * f + f && (q + 2) * f == q * f + 2 * f;
  }

  lemma EvenMultiple(a: nat, j: nat)
    requires j % 2 == 0
    ensures (a * j) % 2 == 0
  {
    Associate(a, j / 2, 2);
  }

  lemma Spread(sec: nat, m: nat, f: nat, j: nat)
    requires m < f && j > 0
    ensures (sec * f + m) * j == (sec * j) * f + m * j
    ensures j * (f - m) == j * f - m * j && m * j < j * f
  {
    Grows(m + 1, f, j);
  }

  /** Rounding (sec + m / f) * j, for an even j, reaches (sec + 1) * j exactly if the rest is within half
      a unit of it. */
  lemma RoundsUp(sec: nat, m: nat, f: nat, j: nat)
    requires m < f && j >= 2 && j % 2 == 0
    ensures Nearest((sec * f + m) * j, f) / j == sec + (if 2 * (j * (f - m)) <= f then 1 else 0)
  {
    var x, y := sec * j, m * j;
    Spread(sec, m, f, j);
    var q, r := y / f, y % f;
    DivMod(y, f);
    GapTo(y, f, j, q, r);
    EvenMultiple(sec, j);
    NearestOf(x, y, f, q, r);
    hide Nearest;
    RoundedQuotient(sec, j, q + (if 2 * r < f || (2 * r == f && q % 2 == 0) then 0 else 1));
  }

  lemma Shifted(x: nat, y: nat, f: nat, q: nat, r: nat)
    requires f > 0 && y == q * f + r && r < f
    ensures (x * f + y) / f == x + q && (x * f + y) % f == r
  {
    assert (x + q) * f == x * f + q * f;
    UniqueRemainder(x * f + y, f, x + q, r);
  }

  lemma NearestOf(x: nat, y: nat, f: nat, q: nat, r: nat)
    requires f > 0 && y == q * f + r && r < f && x % 2 == 0
    ensures Nearest(x * f + y, f) == x + q + (if 2 * r < f || (2 * r == f && q % 2 == 0) then 0 else 1)
  {
    Shifted(x, y, f, q, r);
    NearestFrom(x * f + y, f, x + q, r);
  }

  lemma NearestFrom(num: nat, den: nat, q: nat, r: nat)
    requires den > 0 && num / den == q && num % den == r
    ensures Nearest(num, den) == q + (if 2 * r < den || (2 * r == den && q % 2 == 0) then 0 else 1)
  {
  }

  lemma RoundedQuotient(sec: nat, j: nat, more: nat)
    requires j > 0 && more <= j
    ensures (sec * j + more) / j == sec + (if more == j then 1 else 0)
  {
    if more == j {
      assert (sec + 1) * j == sec * j + j;
      UniqueRemainder(sec * j + more, j, sec + 1, 0);
    } else {
      UniqueRemainder(sec * j + more, j, sec, more);
    }
  }

  /** The powers of two that occur. */
  lemma Powers()
    ensures Pow(2, 24) == 0x100_0000 && Pow(2, 25) == 0x200_0000 && Pow(2, 26) == 0x400_0000 && Pow(2, 27) == 0x800_0000
    ensures Pow(2, 28) == 0x1000_0000 && Pow(2, 29) == 0x2000_0000 && Pow(2, 30) == 0x4000_0000 && Pow(2, 31) == 0x8000_0000
    ensures Pow(2, 32) == 0x1_0000_0000 && Pow(2, 52) == TWO_52 && Pow(2, 53) == TWO_53
  {
    assert Pow(2, 8) == 256;
    PowSum(2, 8, 8);
    PowSum(2, 16, 8);
    PowSum(2, 24, 24);
    assert Pow(2, 49) == 2 * Pow(2, 48);
  }

  lemma EvenPower(e: nat)
    requires e > 0
    ensures Pow(2, e) >= 2 && Pow(2, e) % 2 == 0
  {
  }

  lemma {:induction false} Binade(n: nat) returns (e: nat)
    requires n > 0
    ensures Pow(2, e) <= n < Pow(2, e + 1)
  {
    if n == 1 {
      e := 0;
    } else {
      e := Binade(n / 2);
      e := e + 1;
    }
  }

  /** Adding a fraction below one to a whole number of seconds and truncating. */
  lemma RoundedSum(sec: nat, m: nat, f: nat, e: nat)
    requires m < f && e <= 51 && Pow(2, e) <= sec < Pow(2, e + 1)
    ensures Truncate(Round(sec * f + m, f)) == sec + (if 2 * (Pow(2, 52 - e) * (f - m)) <= f then 1 else 0)
  {
    hide Pow;
    Powers();
    PowSum(2, e, 52 - e);
    PowSum(2, e + 1, 52 - e);
    var j, num := Pow(2, 52 - e), sec * f + m;
    EvenPower(52 - e);
    InRange(sec, m, f, Pow(2, e), Pow(2, e + 1), j);
    NormalIs(num, f, 0, 52 - e);
    RoundsUp(sec, m, f, j);
    hide Nearest, Normal;
  }

  lemma InRange(sec: nat, m: nat, f: nat, low: nat, high: nat, j: nat)
    requires m < f && low <= sec < high && low > 0
    ensures 0 < sec * f + m
    ensures (low * j) * f <= (sec * f + m) * j < (high * j) * f || j == 0
  {
    Grows(low, sec, f);
    Grows(sec + 1, high, f);
    assert (sec + 1) * f == sec * f + f;
    Grows(low * f, sec * f + m, j);
    Grows(sec * f + m + 1, high * f, j);
    assert (sec * f + m + 1) * j == (sec * f + m) * j + j;
    Swap(low, f, j);
    Swap(high, f, j);
    Grows(1, low, f);
  }

  lemma Swap(a: nat, b: nat, c: nat)
    ensures (a * b) * c == (a * c) * b
  {
  }

  /** The rest of a duration as a double: at most one half, or given to 53 binary places. */
  lemma Fraction(nsec: nat)
    requires nsec < SECOND
    ensures var x := Round(nsec, SECOND); var m, f := x.mantissa, Pow(2, x.scale);
      && m < f
      && (2 * nsec < SECOND ==> 2 * m <= f)
      && (2 * nsec >= SECOND ==> f == TWO_53 && TWO_52 <= m && -SECOND <= 2 * (m * SECOND - nsec * TWO_53) <= SECOND)
  {
    hide Pow, Normal;
    Powers();
    if 2 * nsec >= SECOND {
      NormalIs(nsec, SECOND, 0, 53);
    } else if nsec > 0 {
      NormalDoubles(nsec, SECOND, 0);
      var (n, s) := Normal(nsec, SECOND, 0);
      EvenPower(s);
      var h := Pow(2, s) / 2;
      Associate(nsec, 2, h);
      Grows(2 * nsec + 1, SECOND, h);
      assert n == (2 * nsec) * h && (2 * nsec + 1) * h == (2 * nsec) * h + h;
      GapTo(n, SECOND, h, n / SECOND, n % SECOND);
    } else {
      PowPositive(2, 0);
    }
  }

  /** How many nanoseconds below a whole second still round up to it, for so many seconds. */
  function Slack(sec: nat): nat {
    if sec < 0x100_0000 then 0
    else if sec < 0x200_0000 then 1
    else if sec < 0x400_0000 then 3
    else if sec < 0x800_0000 then 7
    else if sec < 0x1000_0000 then 14
    else if sec < 0x2000_0000 then 29
    else if sec < 0x4000_0000 then 59
    else if sec < 0x8000_0000 then 119
    else 238
  }

  /** Close enough to the next second, as a double of 53 places, is close enough in nanoseconds. */
  lemma CloseEnough(nsec: nat, m: nat, e: nat)
    requires SECOND <= 2 * nsec < 2 * SECOND && m < TWO_53
    requires -SECOND <= 2 * (m * SECOND - nsec * TWO_53) <= SECOND
    requires e <= 31
    ensures TWO_53 - m <= Pow(2, e) <==> SECOND - nsec <= (if e < 24 then 0 else Slack(Pow(2, e)))
  {
    hide Pow;
    Powers();
    if e < 24 {
      PowMonotone(2, e, 23);
      PowSum(2, 1, 23);
      PowOne(2);
    }
  }

  /** Which of the two neighbours the sum truncates to, for at least one whole second. */
  lemma SumOfParts(sec: nat, nsec: nat, m: nat, f: nat, e: nat)
    requires nsec < SECOND && m < f && e <= 31 && Pow(2, e) <= sec < Pow(2, e + 1)
    requires 2 * nsec < SECOND ==> 2 * m <= f
    requires 2 * nsec >= SECOND ==> f == TWO_53 && -SECOND <= 2 * (m * SECOND - nsec * TWO_53) <= SECOND
    ensures Truncate(Round(sec * f + m, f)) == sec + (if SECOND - nsec <= Slack(sec) then 1 else 0)
  {
    hide Pow, Round, Truncate;
    Powers();
    var j := Pow(2, 52 - e);
    RoundedSum(sec, m, f, e);
    EvenPower(52 - e);
    SameSlack(sec, e);
    if 2 * nsec < SECOND {
      Grows(2, j, f - m);
    } else {
      PowSum(2, e, 52 - e);
      assert 2 * (j * (f - m)) <= f <==> f - m <= Pow(2, e) by {
        Cancel(f - m, Pow(2, e), j);
      }
      CloseEnough(nsec, m, e);
    }
  }

  lemma Cancel(a: nat, b: nat, c: nat)
    requires c > 0
    ensures c * a <= b * c <==> a <= b
  {
    if a <= b {
      Grows(a, b, c);
    } else {
      Grows(b + 1, a, c);
      assert (b + 1) * c == b * c + c;
    }
  }

  lemma SameSlack(sec: nat, e: nat)
    requires e <= 31 && Pow(2, e) <= sec < Pow(2, e + 1)
    ensures Slack(sec) == if e < 24 then 0 else Slack(Pow(2, e))
  {
    hide Pow;
    Powers();
    if e < 24 {
      PowMonotone(2, e + 1, 24);
    }
  }

  lemma WideGap(m: nat, f: nat, j: nat)
    requires m < f && j >= 2 && (2 * m <= f || j >= f)
    ensures 2 * (j * (f - m)) > f
  {
    if 2 * m <= f {
      Grows(2, j, f - m);
    } else {
      Grows(1, f - m, j);
    }
  }

  lemma BelowOne(m: nat, f: nat)
    requires 0 < m < f && (2 * m <= f || (f == TWO_53 && m >= TWO_52))
    ensures Truncate(Round(m, f)) == 0
  {
    hide Pow, Nearest;
    Powers();
    var s := Normal(m, f, 0).1;
    NormalDoubles(m, f, 0);
    if 2 * m > f {
      Grows(TWO_52, m, TWO_53);
      Grows(m, TWO_53, TWO_53);
      NormalIs(m, f, 0, 53);
    }
    hide Normal;
    EvenPower(s);
    WideGap(m, f, Pow(2, s));
    RoundsUp(0, m, f, Pow(2, s));
  }

  /** Below one second nothing rounds up. */
  lemma NoSeconds(nsec: nat)
    requires nsec < SECOND
    ensures Truncate(Seconds(nsec)) == 0
  {
    Fraction(nsec);
    var x := Round(nsec, SECOND);
    if x.mantissa > 0 {
      hide Pow, Round, Truncate;
      BelowOne(x.mantissa, Pow(2, x.scale));
    }
  }

  /** By how much the truncated double exceeds the duration, if it does. */
  function Overshoot(d: int): nat {
    if d >= 0 && SECOND - d % SECOND <= Slack(d / SECOND) then SECOND - d % SECOND else 0
  }

  /** The whole seconds of a duration below 2^32 seconds: exact, or one too many when less than the slack
      is missing to the next second. */
  lemma WholeSeconds(d: nat)
    requires d < 0x1_0000_0000 * SECOND
    ensures Truncate(Seconds(d)) == d / SECOND + (if SECOND - d % SECOND <= Slack(d / SECOND) then 1 else 0)
  {
    var sec, nsec := d / SECOND, d % SECOND;
    if sec == 0 {
      NoSeconds(nsec);
    } else {
      hide Pow, Round, Truncate;
      Powers();
      Fraction(nsec);
      var e := Binade(sec);
      if e >= 32 {
        PowMonotone(2, 32, e);
      }
      var rest := Round(nsec, SECOND);
      SumOfParts(sec, nsec, rest.mantissa, Pow(2, rest.scale), e);
    }
  }
}
