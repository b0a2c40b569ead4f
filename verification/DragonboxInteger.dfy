/** is_product_integer of dragonbox.h: when is f * 2^exponent * 10^(-minus_k) an integer?  And what the choice
    of minus_k means for the rounding interval. */
module DragonboxInteger {
  import opened Arith
  import opened DragonboxWide
  import opened DragonboxDiv
  import opened DragonboxZeros
  import opened DragonboxNearest

  // Powers with integer exponents

  function Power(b: real, n: int): (p: real)
    requires b > 0.0
    ensures p > 0.0
    decreases if n >= 0 then n else -n
  {
    if n == 0 then 1.0 else if n > 0 then b * Power(b, n - 1) else Power(b, n + 1) / b
  }

  lemma PowerStep(b: real, n: int)
    requires b > 0.0
    ensures Power(b, n + 1) == b * Power(b, n)
  {
  }

  lemma PowerNext(b: real, n: int)
    requires b > 0.0
    ensures Power(b, n) == b * Power(b, n - 1)
  {
    PowerStep(b, n - 1);
  }

  lemma Swap3(a: real, b: real, c: real)
    ensures a * (b * c) == b * (a * c)
  {
  }

  lemma CancelReal(b: real, x: real, y: real)
    requires b > 0.0 && b * x == b * y
    ensures x == y
  {
  }

  lemma PowerZero(b: real)
    requires b > 0.0
    ensures Power(b, 0) == 1.0
  {
  }

  lemma {:induction false} PowerAdd(b: real, m: int, n: int)
    requires b > 0.0
    ensures Power(b, m + n) == Power(b, m) * Power(b, n)
    decreases if n >= 0 then n else -n
  {
    hide Power;
    if n == 0 {
      PowerZero(b);
    } else if n > 0 {
      PowerAdd(b, m, n - 1);
      PowerStep(b, m + (n - 1));
      PowerStep(b, n - 1);
      Grow(b, Power(b, m), Power(b, n - 1), Power(b, m + (n - 1)), Power(b, n), Power(b, m + n));
    } else {
      PowerAdd(b, m, n + 1);
      PowerStep(b, m + n);
      PowerStep(b, n);
      Shrink(b, Power(b, m), Power(b, n), Power(b, m + n), Power(b, n + 1), Power(b, m + (n + 1)));
    }
  }

  lemma Grow(b: real, pm: real, pn: real, pmn: real, pn': real, pmn': real)
    requires pmn == pm * pn && pn' == b * pn && pmn' == b * pmn
    ensures pmn' == pm * pn'
  {
    Swap3(b, pm, pn);
  }

  lemma Shrink(b: real, pm: real, pn: real, pmn: real, pn': real, pmn': real)
    requires b > 0.0 && pmn' == pm * pn' && pn' == b * pn && pmn' == b * pmn
    ensures pmn == pm * pn
  {
    Swap3(b, pm, pn);
    CancelReal(b, pmn, pm * pn);
  }

  lemma Larger(b: real, x: real, y: real)
    requires b > 1.0 && x > 0.0 && y == b * x
    ensures x < y
  {
  }

  lemma {:induction false} PowerLess(b: real, m: int, n: int)
    requires b > 1.0 && m < n
    ensures Power(b, m) < Power(b, n)
    decreases n - m
  {
    hide Power;
    PowerNext(b, n);
    Larger(b, Power(b, n - 1), Power(b, n));
    if m < n - 1 {
      PowerLess(b, m, n - 1);
    }
  }

  /** The exponents of a base above one are ordered like its powers. */
  lemma PowerOrder(b: real, m: int, n: int)
    requires b > 1.0
    ensures m <= n <==> Power(b, m) <= Power(b, n)
  {
    if m < n { PowerLess(b, m, n); }
    if n < m { PowerLess(b, n, m); }
  }

  lemma {:induction false} PowerOfTen(n: int)
    ensures Power(10.0, n) == Power(2.0, n) * Power(5.0, n)
    decreases if n >= 0 then n else -n
  {
    if n > 0 {
      PowerOfTen(n - 1);
      TenTimesReal(Power(2.0, n - 1), Power(5.0, n - 1));
    } else if n < 0 {
      PowerOfTen(n + 1);
      PowerStep(10.0, n);
      PowerStep(2.0, n);
      PowerStep(5.0, n);
      hide Power;
      TenTimesReal(Power(2.0, n), Power(5.0, n));
      CancelReal(10.0, Power(10.0, n), Power(2.0, n) * Power(5.0, n));
    }
  }

  lemma TenTimesReal(x: real, y: real)
    ensures 10.0 * (x * y) == (2.0 * x) * (5.0 * y)
  {
  }

  lemma {:induction false} PowerOfNat(b: nat, n: nat)
    requires b > 0
    ensures Power(b as real, n) == Pow(b, n) as real
  {
    if n > 0 {
      PowerOfNat(b, n - 1);
    }
  }

  lemma {:induction false} PowerOfTwo(n: nat)
    ensures Power(2.0, n) == Pow2(n) as real
  {
    if n > 0 {
      PowerOfTwo(n - 1);
    }
  }

  lemma PowerInverse(b: real, n: int)
    requires b > 0.0
    ensures Power(b, -n) * Power(b, n) == 1.0
  {
    PowerAdd(b, -n, n);
  }

  // The scaled numbers

  /** minus_k + kappa is floor_log10_pow2(exponent). */
  ghost predicate FloorLog10(e: int, l: int) {
    Power(10.0, l) <= Power(2.0, e) < Power(10.0, l + 1)
  }

  /** twoF / 2 * 2^e * 10^(-k) */
  ghost function Scaled(twoF: int, e: int, k: int): real {
    twoF as real * (Power(2.0, e - 1) * Power(10.0, -k))
  }

  lemma AssocReal(a: real, b: real, c: real)
    ensures a * (b * c) == (a * b) * c
  {
  }

  lemma ScaledParts(e: int, k: int)
    ensures Power(2.0, e - 1) * Power(10.0, -k) == Power(2.0, e - 1 - k) * Power(5.0, -k)
  {
    hide Power;
    PowerOfTen(-k);
    PowerAdd(2.0, e - 1, -k);
    assert (e - 1) + (-k) == e - 1 - k;
    AssocReal(Power(2.0, e - 1), Power(2.0, -k), Power(5.0, -k));
  }

  /** The interval around fc, between fc - 1/2 and fc + 1/2. */
  ghost predicate Around(i: Interval, twoFc: nat, e: int, k: int) {
    i.z == Scaled(twoFc + 1, e, k) && i.delta == Scaled(2, e, k)
  }

  lemma Neighbours(i: Interval, twoFc: nat, e: int, k: int)
    requires Around(i, twoFc, e, k)
    ensures i.Left() == Scaled(twoFc - 1, e, k) && i.Center() == Scaled(twoFc, e, k)
  {
    hide Power;
    var u := Power(2.0, e - 1) * Power(10.0, -k);
    assert (twoFc + 1) as real * u - 2.0 * u == (twoFc - 1) as real * u;
  }

  lemma TwiceHalf(x: real, y: real, z: real)
    requires y == 2.0 * x
    ensures 2.0 * (x * z) == y * z
  {
  }

  lemma Between(x: real, y: real, z: real, w: real)
    requires x <= y < z && w > 0.0
    ensures x * w <= y * w < z * w
  {
  }

  /** The length of the interval has exactly the size that the search needs. */
  lemma DeltaRange(i: Interval, kappa: nat, small: nat, twoFc: nat, e: int, k: int)
    requires Scale(kappa, small) && FloorLog10(e, k + kappa) && Around(i, twoFc, e, k) && twoFc >= 2
    ensures InRange(i, small)
    ensures i.z < (twoFc + 1) as real * (5 * small) as real
  {
    hide Power;
    var u := Power(2.0, e - 1) * Power(10.0, -k);
    UnitRange(kappa, small, e, k, u);
    assert i.delta == 2.0 * u && i.z == (twoFc + 1) as real * u;
    Multiples(twoFc, u, (5 * small) as real);
  }

  lemma UnitRange(kappa: nat, small: nat, e: int, k: int, u: real)
    requires Scale(kappa, small) && FloorLog10(e, k + kappa) && u == Power(2.0, e - 1) * Power(10.0, -k)
    ensures small as real <= 2.0 * u < (10 * small) as real && u > 0.0
  {
    hide Power, Pow;
    PowerNext(2.0, e);
    PowerAdd(10.0, k + kappa, -k);
    PowerAdd(10.0, k + kappa + 1, -k);
    PowerOfNat(10, kappa);
    PowerOfNat(10, kappa + 1);
    TenPowers(kappa, small);
    assert (k + kappa) + (-k) == kappa && (k + kappa + 1) + (-k) == kappa + 1;
    UnitFrom(u, Power(2.0, e - 1), Power(2.0, e), Power(10.0, -k), Power(10.0, k + kappa), Power(10.0, k + kappa + 1),
             small as real, (10 * small) as real);
  }

  lemma UnitFrom(u: real, half: real, whole: real, down: real, low: real, high: real, small: real, big: real)
    requires u == half * down && whole == 2.0 * half && down > 0.0 && half > 0.0
    requires low <= whole < high && low * down == small && high * down == big
    ensures small <= 2.0 * u < big && u > 0.0
  {
    TwiceHalf(half, whole, down);
    Between(low, whole, high, down);
  }

  lemma Multiples(twoFc: nat, u: real, bound: real)
    requires twoFc >= 2 && 0.0 < u < bound
    ensures 2.0 * u < (twoFc + 1) as real * u < (twoFc + 1) as real * bound
  {
  }

  lemma TenPowers(kappa: nat, small: nat)
    requires Scale(kappa, small)
    ensures Pow(10, kappa) == small && Pow(10, kappa + 1) == 10 * small
  {
    TenTable();
    FivesAndTens();
  }

  /** beta_minus_1 is exponent + floor_log2_pow10(-minus_k). */
  ghost predicate FloorLog2(i: Interval, betaMinus1: nat) {
    Power(2.0, betaMinus1) <= i.delta < Power(2.0, betaMinus1 + 1)
  }

  /** So shifting a significand by beta_minus_1 does not overflow its word. */
  lemma ShiftFits(i: Interval, kappa: nat, small: nat, twoF: nat, betaMinus1: nat)
    requires Scale(kappa, small) && InRange(i, small) && FloorLog2(i, betaMinus1)
    requires twoF < Pow2(if kappa == 1 then 25 else 54)
    ensures twoF * Pow2(betaMinus1) < if kappa == 1 then TWO32 else TWO64
  {
    hide Power, Pow2;
    var top := if kappa == 1 then 6 else 9;
    TwoPowers();
    PowerOfTwo(top + 1);
    PowerOrder(2.0, top + 1, betaMinus1);
    Pow2Mono(betaMinus1, top);
    ProductBound(twoF, Pow2(betaMinus1), if kappa == 1 then 0x200_0000 else 0x40_0000_0000_0000, Pow2(top));
  }

  lemma ProductBound(x: nat, y: nat, bound: nat, top: nat)
    requires x < bound && y <= top && top > 0
    ensures x * y < bound * top
  {
    MulMono(y, top, x);
    MulMono(x + 1, bound, top);
  }

  // When a scaled number is an integer

  lemma QuotientInteger(x: real, num: nat, den: nat)
    requires den > 0 && x * den as real == num as real
    ensures IsInteger(x) <==> num % den == 0
  {
    var q, r := num / den, num % den;
    assert num as real == q as real * den as real + r as real by {
      assert num == q * den + r;
    }
    QuotientPart(x, q, r, den);
  }

  lemma QuotientPart(x: real, q: nat, r: nat, den: nat)
    requires den > 0 && r < den && x * den as real == q as real * den as real + r as real
    ensures IsInteger(x) <==> r == 0
  {
    var f, d := x - q as real, den as real;
    assert f * d == r as real;
    FractionOf(f, r as real, d);
    assert x.Floor == q;
  }

  lemma FractionOf(f: real, r: real, d: real)
    requires d > 0.0 && 0.0 <= r < d && f * d == r
    ensures 0.0 <= f < 1.0 && (f == 0.0 <==> r == 0.0)
  {
  }

  /** No negative exponent: an integer. */
  lemma WholeNumber(n: nat, p: nat, q: nat, x: real)
    requires x == n as real * (Power(2.0, p) * Power(5.0, q))
    ensures IsInteger(x)
  {
    hide Power, Pow, Pow2;
    PowerOfTwo(p);
    PowerOfNat(5, q);
    var whole := n * (Pow2(p) * Pow(5, q));
    RealProduct(n, Pow2(p), Pow(5, q));
    assert x == whole as real;
  }

  lemma RealProduct(a: nat, b: nat, c: nat)
    ensures a as real * (b as real * c as real) == (a * (b * c)) as real
  {
  }

  lemma RealTimes(a: nat, b: nat)
    ensures a as real * b as real == Times(a, b) as real
  {
  }

  lemma Rearrange(n: real, a: real, b: real, inv: real)
    requires inv * a == 1.0
    ensures (n * (inv * b)) * a == b * n
    ensures (n * (b * inv)) * a == b * n
  {
    assert (n * (inv * b)) * a == (n * b) * (inv * a);
  }

  /** A negative exponent of two: the factors of five do not help. */
  lemma TwosDecide(n: nat, c: nat, q: nat, x: real)
    requires x == n as real * (Power(2.0, -(c as int)) * Power(5.0, q))
    ensures IsInteger(x) <==> n % Pow2(c) == 0
  {
    hide Power, Pow, Pow2, Times;
    PowerInverse(2.0, c);
    PowerOfTwo(c);
    PowerOfNat(5, q);
    Rearrange(n as real, Power(2.0, c), Power(5.0, q), Power(2.0, -(c as int)));
    RealTimes(Pow(5, q), n);
    QuotientInteger(x, Times(Pow(5, q), n), Pow2(c));
    if Times(Pow(5, q), n) % Pow2(c) == 0 {
      DropFives(n, q, c);
    }
    if n % Pow2(c) == 0 {
      MultipleStays(Pow(5, q), n, Pow2(c));
    }
  }

  lemma MultipleStays(a: nat, n: nat, m: nat)
    requires m > 0 && n % m == 0
    ensures Times(a, n) % m == 0
  {
    var q := n / m;
    assert a * n == (a * q) * m;
    DivModUnique(a * n, a * q, 0, m);
  }

  /** A factor of two contributes no factor of five. */
  lemma {:induction false} DropTwo(n: nat, k: nat)
    requires (2 * n) % Pow(5, k) == 0
    ensures n % Pow(5, k) == 0
  {
    PowOdd(5, k);
    hide Pow;
    HalfOfMultiple(n, Pow(5, k));
  }

  lemma EvenFactor(q: nat, m: nat)
    requires m % 2 == 1 && Times(q, m) % 2 == 0
    ensures q % 2 == 0
  {
    hide Times;
    if q % 2 == 1 { OddTimesOdd(q, m); }
  }

  lemma HalfOfMultiple(n: nat, m: nat)
    requires m % 2 == 1 && (2 * n) % m == 0
    ensures n % m == 0
  {
    var q := (2 * n) / m;
    DivTimes(2 * n, m);
    EvenFactor(q, m);
    TwiceExact(n, q / 2, m);
  }

  lemma TwiceExact(n: nat, h: nat, m: nat)
    requires m > 0 && 2 * n == Times(2 * h, m)
    ensures n % m == 0
  {
    assert n == h * m;
    DivModUnique(n, h, 0, m);
  }

  lemma {:induction false} DropTwos(n: nat, p: nat, k: nat)
    requires Times(Pow2(p), n) % Pow(5, k) == 0
    ensures n % Pow(5, k) == 0
  {
    hide Pow;
    if p > 0 {
      Assoc(2, Pow2(p - 1), n);
      DropTwo(Times(Pow2(p - 1), n), k);
      DropTwos(n, p - 1, k);
    } else {
      One(n);
    }
  }

  /** A negative exponent of five: the factors of two do not help. */
  lemma FivesDecide(n: nat, p: nat, k: nat, x: real)
    requires x == n as real * (Power(2.0, p) * Power(5.0, -(k as int)))
    ensures IsInteger(x) <==> n % Pow(5, k) == 0
  {
    hide Power, Pow, Pow2, Times;
    PowerInverse(5.0, k);
    PowerOfTwo(p);
    PowerOfNat(5, k);
    Rearrange(n as real, Power(5.0, k), Power(2.0, p), Power(5.0, -(k as int)));
    RealTimes(Pow2(p), n);
    QuotientInteger(x, Times(Pow2(p), n), Pow(5, k));
    if Times(Pow2(p), n) % Pow(5, k) == 0 {
      DropTwos(n, p, k);
    }
    if n % Pow(5, k) == 0 {
      MultipleStays(Pow2(p), n, Pow(5, k));
    }
  }

  /** The three cases of the exponents together. */
  lemma IntegerCases(n: nat, e: int, k: int)
    ensures k <= 0 && e - 1 >= k ==> IsInteger(Scaled(n, e, k))
    ensures k <= 0 && e - 1 < k ==> (IsInteger(Scaled(n, e, k)) <==> n % Pow2(k - e + 1) == 0)
    ensures k > 0 && e - 1 >= k ==> (IsInteger(Scaled(n, e, k)) <==> n % Pow(5, k) == 0)
  {
    hide Power, Pow, Pow2, IsInteger;
    ScaledParts(e, k);
    var x := Scaled(n, e, k);
    if k <= 0 && e - 1 >= k {
      WholeNumber(n, e - 1 - k, -k, x);
    }
    if k <= 0 && e - 1 < k {
      assert -(k - e + 1) == e - 1 - k;
      TwosDecide(n, k - e + 1, -k, x);
    }
    if k > 0 && e - 1 >= k {
      FivesDecide(n, e - 1 - k, k, x);
    }
  }

  // The thresholds

  lemma LogOrder(e: int, l: int, bound: int)
    requires FloorLog10(e, l)
    ensures l >= bound <==> Power(10.0, bound) <= Power(2.0, e)
  {
    hide Power;
    PowerOrder(10.0, bound, l);
    PowerOrder(10.0, l + 1, bound);
  }

  /** Where powers of ten pass powers of two: at 2^at, and not before. */
  ghost predicate Passes(at: int, bound: int) {
    Power(2.0, at) < Power(10.0, bound) <= Power(2.0, at + 1)
  }

  lemma LogThreshold(e: int, l: int, at: int, bound: int)
    requires FloorLog10(e, l) && Passes(at, bound)
    ensures e > at <==> l >= bound
  {
    hide Power;
    LogOrder(e, l, bound);
    PowerOrder(2.0, at + 1, e);
    PowerOrder(2.0, e, at);
  }

  lemma PassesOf(at: nat, bound: nat)
    requires Pow2(at) < Pow(10, bound) <= Pow2(at + 1)
    ensures Passes(at, bound)
  {
    hide Power, Pow, Pow2;
    PowerOfTwo(at);
    PowerOfTwo(at + 1);
    PowerOfNat(10, bound);
  }

  lemma Thresholds()
    ensures Passes(6, 2) && Passes(9, 3) && Passes(39, 12) && Passes(86, 26)
    ensures Pow(5, 11) > Pow2(25) && Pow(5, 24) > Pow2(54)
    ensures Pow(5, 10) < Pow2(32) && Pow(5, 23) < Pow2(64)
  {
    NumericPowers();
    hide Pow, Pow2, Passes;
    PassesOf(6, 2);
    PassesOf(9, 3);
    PassesOf(39, 12);
    PassesOf(86, 26);
  }

  lemma TwoPowers()
    ensures Pow2(6) == 64 && Pow2(7) == 128 && Pow2(9) == 512 && Pow2(10) == 1024 && Pow2(25) == 0x200_0000
    ensures Pow2(54) == 0x40_0000_0000_0000 && Pow2(39) == 0x80_0000_0000 && Pow2(40) == 0x100_0000_0000
    ensures Pow2(86) == 0x40_0000_0000_0000_0000_0000 && Pow2(87) == 0x80_0000_0000_0000_0000_0000
  {
    SmallTwos();
    hide Pow2;
    Pow2At16();
    Pow2At64();
    Pow2Add(16, 9);
    Pow2Add(32, 7);
    Pow2Add(32, 8);
    Pow2Add(32, 22);
    Pow2Add(16, 6);
    Pow2Add(64, 22);
    Pow2Add(64, 23);
    Pow2Add(16, 7);
  }

  lemma SmallTwos()
    ensures Pow2(6) == 64 && Pow2(7) == 128 && Pow2(8) == 256 && Pow2(9) == 512 && Pow2(10) == 1024
  {
    assert Pow2(5) == 32;
  }

  lemma FivePowers()
    ensures Pow(5, 10) == 9765625 && Pow(5, 11) == 48828125
    ensures Pow(5, 23) == 11920928955078125 && Pow(5, 24) == 59604644775390625
  {
    assert Pow(5, 2) == 25 && Pow(5, 3) == 125;
    hide Pow;
    PowAdd(5, 3, 2);
    PowAdd(5, 5, 5);
    PowAdd(5, 10, 10);
    PowAdd(5, 10, 3);
    PowAdd(5, 20, 3);
    PowerOne();
    PowAdd(5, 10, 1);
    PowAdd(5, 23, 1);
  }

  lemma PowerOne()
    ensures Pow(5, 1) == 5
  {
  }

  lemma TenPowersHigh()
    ensures Pow(10, 2) == 100 && Pow(10, 3) == 1000 && Pow(10, 12) == 1_000_000_000_000
    ensures Pow(10, 26) == 100_000_000_000_000_000_000_000_000
  {
    assert Pow(10, 2) == 100 && Pow(10, 3) == 1000;
    hide Pow;
    PowAdd(10, 3, 3);
    PowAdd(10, 6, 6);
    PowAdd(10, 12, 12);
    PowAdd(10, 24, 2);
  }

  lemma NumericPowers()
    ensures Pow2(6) == 64 && Pow2(7) == 128 && Pow2(9) == 512 && Pow2(10) == 1024 && Pow2(25) == 0x200_0000
    ensures Pow2(32) == TWO32 && Pow2(64) == TWO64 && Pow2(54) == 0x40_0000_0000_0000
    ensures Pow2(39) == 0x80_0000_0000 && Pow2(40) == 0x100_0000_0000
    ensures Pow2(86) == 0x40_0000_0000_0000_0000_0000 && Pow2(87) == 0x80_0000_0000_0000_0000_0000
    ensures Pow(10, 2) == 100 && Pow(10, 3) == 1000 && Pow(10, 12) == 1_000_000_000_000
    ensures Pow(10, 26) == 100_000_000_000_000_000_000_000_000
    ensures Pow(5, 10) == 9765625 && Pow(5, 11) == 48828125
    ensures Pow(5, 23) == 11920928955078125 && Pow(5, 24) == 59604644775390625
  {
    hide Pow, Pow2;
    Pow2At64();
    TwoPowers();
    FivePowers();
    TenPowersHigh();
  }

  // The constants of the two formats

  predicate Format(kappa: nat) {
    kappa == 1 || kappa == 2
  }

  function Bits(kappa: nat): nat { if kappa == 1 then 25 else 54 }
  function Word(kappa: nat): nat { if kappa == 1 then 32 else 64 }
  function MaxFives(kappa: nat): nat { if kappa == 1 then 10 else 23 }
  function FivesThreshold(kappa: nat): int { if kappa == 1 then 39 else 86 }
  function UpperThreshold(kappa: nat): int { if kappa == 1 then 6 else 9 }
  function LowerHalf(kappa: nat): int { if kappa == 1 then -1 else -2 }
  function LowerWhole(kappa: nat): int { if kappa == 1 then -2 else -4 }

  /** The thresholds above: where minus_k becomes positive, and where 5^minus_k outgrows every significand. */
  lemma UpperSides(kappa: nat, e: int, k: int)
    requires Format(kappa) && FloorLog10(e, k + kappa)
    ensures e > UpperThreshold(kappa) <==> k >= 1
    ensures e > FivesThreshold(kappa) <==> k > MaxFives(kappa)
  {
    hide FloorLog10, Passes, Pow, Pow2;
    Thresholds();
    LogThreshold(e, k + kappa, UpperThreshold(kappa), kappa + 1);
    LogThreshold(e, k + kappa, FivesThreshold(kappa), MaxFives(kappa) + kappa + 1);
  }

  lemma {:induction false} TwoBelowTen(n: nat)
    ensures Power(2.0, n) <= Power(10.0, n)
  {
    if n > 0 {
      TwoBelowTen(n - 1);
    }
  }

  lemma ZeroPowers()
    ensures Power(2.0, 0) == 1.0 == Power(10.0, 0)
  {
  }

  lemma TenAbove(e: int, s: nat)
    requires e >= -(s as int) && s > 0
    ensures Power(2.0, e) < Power(10.0, e + s)
  {
    hide Power;
    ZeroPowers();
    PowerOrder(10.0, e + s, e);
    PowerOrder(10.0, 0, e + s);
    PowerOrder(2.0, 0, e);
    if e >= 0 {
      TwoBelowTen(e);
    }
  }

  lemma {:induction false} TenBelow(e: int, m: int, s: nat)
    requires e <= m && Power(10.0, m + s) <= Power(2.0, m)
    ensures Power(10.0, e + s) <= Power(2.0, e)
    decreases m - e
  {
    hide Power;
    if e < m {
      TenBelow(e + 1, m, s);
      PowerNext(10.0, e + 1 + s);
      PowerNext(2.0, e + 1);
    }
  }

  lemma NegativePowers()
    ensures Power(10.0, -1) <= Power(2.0, -2) && Power(10.0, -1) <= Power(2.0, -3)
    ensures Power(2.0, -4) < Power(10.0, -1) && Power(10.0, -2) <= Power(2.0, -5)
  {
    hide Power;
    ZeroPowers();
    PowerNext(10.0, 0);
    PowerNext(10.0, -1);
    PowerNext(2.0, 0);
    PowerNext(2.0, -1);
    PowerNext(2.0, -2);
    PowerNext(2.0, -3);
    PowerNext(2.0, -4);
  }

  /** The lower thresholds: where the exponent of two becomes negative, for odd and for even factors. */
  lemma LowerSides(kappa: nat, e: int, k: int)
    requires Format(kappa) && FloorLog10(e, k + kappa)
    ensures e >= LowerHalf(kappa) <==> e - 1 >= k
    ensures e >= LowerWhole(kappa) <==> e >= k
  {
    hide Power;
    NegativePowers();
    LogOrder(e, k + kappa, e + kappa);
    LogOrder(e, k + kappa, e + (kappa + 1));
    if e >= LowerHalf(kappa) {
      TenAbove(e, kappa);
    } else {
      TenBelow(e, LowerHalf(kappa) - 1, kappa);
    }
    if e >= -(kappa as int) - 1 {
      TenAbove(e, kappa + 1);
    } else if e < LowerWhole(kappa) {
      TenBelow(e, LowerWhole(kappa) - 1, kappa + 1);
    }
  }

  // The test

  /** divisible_by_power_of_5 */
  method DivisibleByPowerOf5(kappa: nat, x: nat, exp: nat) returns (divisible: bool)
    requires Format(kappa) && exp <= MaxFives(kappa) && x < Pow2(Word(kappa))
    ensures divisible <==> x % Pow(5, exp) == 0
  {
    hide Pow, Pow2, Row, Inverse, Times, Mod;
    var modInv, maxQuotients := MakeTable(5, MaxFives(kappa) + 1, Word(kappa));
    divisible := Mod(Times(x, modInv[exp]), Pow2(Word(kappa))) <= maxQuotients[exp];
    Thresholds();
    FiveMono(exp, MaxFives(kappa));
    RowDecides(exp, Pow2(Word(kappa)), modInv[exp], maxQuotients[exp], x);
  }

  lemma RowDecides(exp: nat, m: nat, modInv: nat, maxQuotient: nat, x: nat)
    requires m > 1 && Row(5, exp, m, modInv, maxQuotient) && Pow(5, exp) < m && x < m
    ensures Mod(Times(x, modInv), m) <= maxQuotient <==> x % Pow(5, exp) == 0
  {
    hide Inverse, Times, Mod, Pow;
    DivisibleIff(Pow(5, exp), modInv, m, x);
  }

  lemma {:induction false} FiveMono(i: nat, j: nat)
    requires i <= j
    ensures Pow(5, i) <= Pow(5, j)
    decreases j - i
  {
    if i < j {
      FiveMono(i, j - 1);
    }
  }

  /** The tests on the exponent, for an odd factor. */
  lemma HalfCases(kappa: nat, twoF: nat, e: int, k: int)
    requires Format(kappa) && FloorLog10(e, k + kappa) && 0 < twoF < Pow2(Bits(kappa)) && twoF % 2 == 1
    ensures e < LowerHalf(kappa) || e > FivesThreshold(kappa) ==> !IsInteger(Scaled(twoF, e, k))
    ensures LowerHalf(kappa) <= e <= UpperThreshold(kappa) ==> IsInteger(Scaled(twoF, e, k))
    ensures UpperThreshold(kappa) < e <= FivesThreshold(kappa) ==>
      0 < k <= MaxFives(kappa) && (IsInteger(Scaled(twoF, e, k)) <==> twoF % Pow(5, k) == 0)
  {
    hide Pow, Pow2, FloorLog10, IsInteger, Scaled;
    UpperSides(kappa, e, k);
    LowerSides(kappa, e, k);
    IntegerCases(twoF, e, k);
    if k > MaxFives(kappa) { TooManyFives(kappa, twoF, k); }
    if e < LowerHalf(kappa) { OddHasNoTwos(twoF, k - e + 1); }
  }

  /** And for an even one. */
  lemma WholeCases(kappa: nat, twoF: nat, e: int, k: int)
    requires Format(kappa) && FloorLog10(e, k + kappa) && 0 < twoF < Pow2(Bits(kappa)) && twoF % 2 == 0
    ensures e > FivesThreshold(kappa) ==> !IsInteger(Scaled(twoF, e, k))
    ensures UpperThreshold(kappa) < e <= FivesThreshold(kappa) ==>
      0 < k <= MaxFives(kappa) && (IsInteger(Scaled(twoF, e, k)) <==> twoF % Pow(5, k) == 0)
    ensures LowerWhole(kappa) <= e <= UpperThreshold(kappa) ==> IsInteger(Scaled(twoF, e, k))
    ensures e < LowerWhole(kappa) ==>
      k - e + 1 > 0 && (IsInteger(Scaled(twoF, e, k)) <==> twoF % Pow2(k - e + 1) == 0)
  {
    hide Pow, Pow2, FloorLog10, IsInteger, Scaled;
    UpperSides(kappa, e, k);
    LowerSides(kappa, e, k);
    IntegerCases(twoF, e, k);
    if k > MaxFives(kappa) { TooManyFives(kappa, twoF, k); }
    if e == k { OnePowerOfTwo(twoF, k - e + 1); }
  }

  /** is_product_integer; half says that twoF is odd, as for the ends of the interval, and otherwise it is the
      even factor of its center. */
  method IsProductInteger(half: bool, kappa: nat, twoF: nat, exponent: int, minusK: int) returns (b: bool)
    requires Format(kappa) && FloorLog10(exponent, minusK + kappa)
    requires 0 < twoF < Pow2(Bits(kappa)) && (twoF % 2 == 1 <==> half)
    ensures b <==> IsInteger(Scaled(twoF, exponent, minusK))
  {
    hide Pow, Pow2, FloorLog10, IsInteger, Scaled;
    FitsWord(kappa, twoF);
    if half {
      HalfCases(kappa, twoF, exponent, minusK);
      if exponent < LowerHalf(kappa) {
        return false;
      } else if exponent <= UpperThreshold(kappa) {
        return true;
      } else if exponent > FivesThreshold(kappa) {
        return false;
      } else {
        b := DivisibleByPowerOf5(kappa, twoF, minusK);
      }
    } else {
      WholeCases(kappa, twoF, exponent, minusK);
      if exponent > FivesThreshold(kappa) {
        return false;
      } else if exponent > UpperThreshold(kappa) {
        b := DivisibleByPowerOf5(kappa, twoF, minusK);
      } else if exponent >= LowerWhole(kappa) {
        return true;
      } else {
        CountrZeroIff(twoF, minusK - exponent + 1);
        b := CountrZero(twoF) >= minusK - exponent + 1;
      }
    }
  }

  lemma TooManyFives(kappa: nat, twoF: nat, k: nat)
    requires Format(kappa) && 0 < twoF < Pow2(Bits(kappa)) && k > MaxFives(kappa)
    ensures twoF % Pow(5, k) != 0
  {
    hide Pow, Pow2, Passes;
    Thresholds();
    FiveMono(MaxFives(kappa) + 1, k);
    NoMultiple(twoF, Pow(5, k));
  }

  lemma NoMultiple(n: nat, m: nat)
    requires 0 < n < m
    ensures n % m != 0
  {
  }

  lemma FitsWord(kappa: nat, twoF: nat)
    requires Format(kappa) && twoF < Pow2(Bits(kappa))
    ensures twoF < Pow2(Word(kappa))
  {
    NumericPowers();
    hide Pow2;
  }

  lemma OddHasNoTwos(n: nat, c: nat)
    requires n % 2 == 1 && c >= 1
    ensures n % Pow2(c) != 0
  {
    OddNotDivides(n, Pow2(c - 1));
  }

  lemma OnePowerOfTwo(n: nat, c: nat)
    requires n % 2 == 0 && c == 1
    ensures n % Pow2(c) == 0
  {
    assert Pow2(1) == 2;
  }
}
