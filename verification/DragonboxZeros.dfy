/** remove_trailing_zeros of dragonbox.h, for binary64 and binary32 carriers. */
module DragonboxZeros {
  import opened Arith
  import opened DragonboxWide
  import opened DragonboxDiv

  const E8: nat := 1_0000_0000

  /** The largest decimal significand either format hands over: (2^64 - 1) / 1000, (2^32 - 1) / 100. */
  const MAX64: nat := (TWO64 - 1) / 1000
  const MAX32: nat := (TWO32 - 1) / 100

  /** The contract: n = m * 10^s with no zero left at the end of m. */
  ghost predicate Stripped(n: nat, m: nat, s: nat) {
    n == Times(m, Pow(10, s)) && m % 10 != 0
  }

  // Powers of two inside a number

  function CountrZero(n: nat): nat
    requires n > 0
  {
    if n % 2 == 1 then 0 else 1 + CountrZero(n / 2)
  }

  /** countr_zero(n), capped at max_power. */
  predicate Zeros(n: nat, t: nat)
    requires n > 0
  {
    t == if CountrZero(n) > 16 then 16 else CountrZero(n)
  }

  lemma EvenDivides(n: nat, m: nat)
    requires n % 2 == 0 && m > 0
    ensures n % (2 * m) == 0 <==> (n / 2) % m == 0
  {
    var h := n / 2;
    var q, r := h / m, h % m;
    assert n == q * (2 * m) + 2 * r;
    DivModUnique(n, q, 2 * r, 2 * m);
  }

  lemma OddNotDivides(n: nat, m: nat)
    requires n % 2 == 1 && m > 0
    ensures n % (2 * m) != 0
  {
    OddModEven(n, m);
  }

  lemma {:induction false} CountrZeroIff(n: nat, j: nat)
    requires n > 0
    ensures j <= CountrZero(n) <==> n % Pow2(j) == 0
  {
    if j > 0 {
      if n % 2 == 1 {
        OddNotDivides(n, Pow2(j - 1));
      } else {
        CountrZeroIff(n / 2, j - 1);
        EvenDivides(n, Pow2(j - 1));
      }
    }
  }

  /** A factor 5 contributes no factor 2. */
  lemma {:induction false} DropFive(x: nat, j: nat)
    requires (5 * x) % Pow2(j) == 0
    ensures x % Pow2(j) == 0
  {
    if j > 0 {
      if x % 2 == 1 {
        OddNotDivides(5 * x, Pow2(j - 1));
      } else {
        EvenDivides(5 * x, Pow2(j - 1));
        assert (5 * x) / 2 == 5 * (x / 2);
        DropFive(x / 2, j - 1);
        EvenDivides(x, Pow2(j - 1));
      }
    }
  }

  lemma {:induction false} DropFives(x: nat, k: nat, j: nat)
    requires Times(Pow(5, k), x) % Pow2(j) == 0
    ensures x % Pow2(j) == 0
  {
    if k > 0 {
      Assoc(5, Pow(5, k - 1), x);
      DropFive(Times(Pow(5, k - 1), x), j);
      DropFives(x, k - 1, j);
    } else {
      One(x);
    }
  }

  lemma DividesBoth(x: nat, a: nat, b: nat)
    requires a > 0 && b > 0
    ensures Times(a, b) > 0
    ensures x % Times(a, b) == 0 ==> x % a == 0 && (x / a) % b == 0
    ensures x % a == 0 && (x / a) % b == 0 ==> x % Times(a, b) == 0
  {
    var q, r := x / a, x % a;
    var q', r' := q / b, q % b;
    calc {
      x;
      (q' * b + r') * a + r;
      q' * (a * b) + (r' * a + r);
    }
    MulMono(r', b - 1, a);
    assert (b - 1) * a == a * b - a;
    DivModUnique(x, q', r' * a + r, Times(a, b));
    if r' > 0 { MulMono(1, r', a); }
  }

  lemma LowerPower(x: nat, i: nat, j: nat)
    requires i <= j && x % Pow2(j) == 0
    ensures x % Pow2(i) == 0 && (x / Pow2(i)) % Pow2(j - i) == 0
  {
    Pow2Times(i, j - i);
    DividesBoth(x, Pow2(i), Pow2(j - i));
  }

  lemma {:induction false} TenPow(j: nat)
    ensures Pow(10, j) == Times(Pow(5, j), Pow2(j))
  {
    if j > 0 {
      TenPow(j - 1);
      Exchange(5, Pow(5, j - 1), 2, Pow2(j - 1));
    }
  }

  lemma SmallPowers()
    ensures Pow(10, 8) == E8 && Pow(5, 8) == 390625 && Pow2(8) == 256
  {
  }

  // The test by 5 in 32-bit words

  lemma InverseOfFive32(inv: nat)
    requires Pow2(64) > 1 && Inverse(Pow(5, 1), inv, Pow2(64))
    ensures Inverse(5, Low32(inv), TWO32)
  {
    hide Times, Mod;
    assert Pow(5, 1) == 5 by { One(5); }
    Pow2At64();
    Pow2Times(32, 32);
    ModMod(Times(5, inv), TWO32, TWO32);
    ModSmall(1, TWO32);
    ModFactor(5, inv, TWO32);
    LowIsMod(inv);
  }

  lemma LowIsMod(x: nat)
    ensures Low32(x) == Mod(x, TWO32)
  {
  }

  lemma TestByFive(x: u32, inv: u32)
    requires Inverse(5, inv, TWO32)
    ensures Mul32(x, inv) <= (TWO32 - 1) / 5 <==> x % 5 == 0
    ensures x % 5 == 0 ==> Mul32(x, inv) == x / 5
  {
    hide Inverse;
    DivisibleIff(5, inv, TWO32, x);
  }

  // binary64, the branch for multiples of 10^8

  /** Dividing out 10^8 when the test by 5^8 succeeds. */
  lemma DivideOutE8(n: u64, t: nat)
    requires 0 < n <= MAX64 && 8 <= t && n % Pow2(t) == 0 && n % 390625 == 0
    ensures
      var quotient := n / 390625 / 256;
      n == quotient * E8 && 0 < quotient < TWO32 && quotient % Pow2(t - 8) == 0
  {
    SmallPowers();
    var x := n / 390625;
    assert n == Times(Pow(5, 8), x);
    DropFives(x, 8, t);
    LowerPower(x, 8, t);
  }

  /** What is left after s zeros have gone, when the quotient still carries 2^(s-8). */
  lemma QuotientExit(n: nat, quotient: nat, t: nat, s: nat) returns (m: nat)
    requires 0 < n <= MAX64 && Zeros(n, t)
    requires 8 <= s <= t && n == Times(Times(quotient, Pow(5, s - 8)), E8) && quotient % Pow2(t - 8) == 0
    requires s == t || quotient % 5 != 0
    ensures m == quotient / Pow2(s - 8) && Stripped(n, m, s)
  {
    hide Times, Zeros, Pow, Pow2;
    m := ShiftOut(quotient, s - 8, t - 8);
    QuotientIsPower(n, quotient, s - 8, m);
    StrippedQuotient(n, quotient, m, t, s);
  }

  lemma ShiftOut(x: nat, i: nat, j: nat) returns (m: nat)
    requires i <= j && x % Pow2(j) == 0
    ensures m == x / Pow2(i) && x == Times(m, Pow2(i))
  {
    LowerPower(x, i, j);
    DivTimes(x, Pow2(i));
    m := x / Pow2(i);
  }

  lemma QuotientIsPower(n: nat, quotient: nat, j: nat, m: nat)
    requires n == Times(Times(quotient, Pow(5, j)), E8) && quotient == Times(m, Pow2(j))
    ensures n == Times(m, Pow(10, j + 8))
  {
    hide Times;
    SmallPowers();
    TenPow(j);
    PowAdd(10, j, 8);
    Comm(Pow(5, j), Pow2(j));
    Assoc(m, Pow2(j), Pow(5, j));
    Assoc(m, Pow(10, j), E8);
  }

  lemma StrippedQuotient(n: nat, quotient: nat, m: nat, t: nat, s: nat)
    requires 0 < n <= MAX64 && Zeros(n, t)
    requires 8 <= s <= t && quotient == Times(m, Pow2(s - 8)) && n == Times(m, Pow(10, s))
    requires s == t || quotient % 5 != 0
    ensures m % 10 != 0
  {
    hide Times, CountrZero;
    if s == t == 16 {
      AtMostOne(n, m);
    } else if s == t {
      LastTwo(n, m, s);
    } else if m % 5 == 0 {
      FiveSurvives(m, Pow2(s - 8));
    }
  }

  lemma AtMostOne(n: nat, m: nat)
    requires 0 < n <= MAX64 && n == Times(m, Pow(10, 16))
    ensures m == 1
  {
    PowAdd(10, 8, 8);
    SmallPowers();
    if m >= 2 { MulMono(2, m, Pow(10, 16)); }
  }

  /** If all of the factors 2 of n are in 10^s then what remains is odd. */
  lemma LastTwo(n: nat, m: nat, s: nat)
    requires n > 0 && CountrZero(n) == s && n == Times(m, Pow(10, s))
    ensures m % 2 == 1
  {
    if m % 2 == 0 {
      hide Times;
      TenPow(s);
      HalfTwice(m);
      var h := m / 2;
      Exchange(2, h, Pow2(s), Pow(5, s));
      Comm(Pow(5, s), Pow2(s));
      Comm(Times(2, Pow2(s)), Times(h, Pow(5, s)));
      assert Pow2(s + 1) == Times(2, Pow2(s)) by { TwoTimes(Pow2(s)); }
      MultipleOf(Times(h, Pow(5, s)), Pow2(s + 1));
      CountrZeroIff(n, s + 1);
    }
  }

  lemma TwoTimes(x: nat)
    ensures Times(2, x) == 2 * x
  {
  }

  lemma HalfTwice(m: nat)
    requires m % 2 == 0
    ensures m == Times(2, m / 2)
  {
  }

  lemma MultipleOf(k: nat, d: nat)
    requires d > 0
    ensures Times(k, d) % d == 0
  {
    DivModUnique(Times(k, d), k, 0, d);
  }

  lemma FiveSurvives(m: nat, p: nat)
    requires m % 5 == 0
    ensures Times(m, p) % 5 == 0
  {
    var k := m / 5;
    assert m * p == (k * p) * 5;
  }

  lemma QuotientStep(n: nat, quotient: nat, s: nat, t: nat)
    requires 8 <= s < t && n == Times(Times(quotient, Pow(5, s - 8)), E8)
    requires quotient % Pow2(t - 8) == 0 && quotient % 5 == 0
    ensures n == Times(Times(quotient / 5, Pow(5, s + 1 - 8)), E8) && (quotient / 5) % Pow2(t - 8) == 0
  {
    var q := quotient / 5;
    assert quotient == Times(q, 5);
    Assoc(q, 5, Pow(5, s - 8));
    DropFive(q, t - 8);
  }

  // binary64, the ladder on the remainder

  /** The remainder has been divided by 5^k and n has not changed. */
  ghost predicate Rung(n: nat, quotient: nat, remainder: nat, k: nat) {
    n == quotient * E8 + Times(Pow(5, k), remainder)
  }

  lemma RungStep(n: nat, quotient: nat, remainder: nat, k: nat, j: nat)
    requires Rung(n, quotient, remainder, k) && remainder % 5 == 0 && remainder % Pow2(j) == 0
    ensures Rung(n, quotient, remainder / 5, k + 1) && (remainder / 5) % Pow2(j) == 0
  {
    var r := remainder / 5;
    assert remainder == Times(5, r);
    Assoc(Pow(5, k), 5, r);
    Comm(Pow(5, k), 5);
    DropFive(r, j);
  }

  lemma FirstRung(n: nat, t: nat, j: nat)
    requires j == (if t > 8 then 8 else t) && n % Pow2(t) == 0
    ensures Rung(n, n / E8, n % E8, 0) && (n % E8) % Pow2(j) == 0
  {
    One(n % E8);
    SmallPowers();
    LowerPower(n, j, t);
    Pow2Times(j, 8 - j);
    SplitE8(Pow2(j), Pow2(8 - j));
    RemainderKeeps(n, 390625 * Pow2(8 - j), Pow2(j));
  }

  lemma SplitE8(p: nat, rest: nat)
    requires Times(p, rest) == 256
    ensures (390625 * rest) * p == E8
  {
    assert (390625 * rest) * p == 390625 * (p * rest);
  }

  lemma RemainderKeeps(n: nat, c: nat, p: nat)
    requires c > 0 && p > 0 && c * p == E8 && n % p == 0
    ensures (n % E8) % p == 0
  {
    var q := n / E8;
    assert n == (q * c) * p + n % E8;
    ModDrop(n % E8, q * c, p);
  }

  /** Leaving the ladder at rung k <= 7: the shifted remainder goes back on top of the quotient. */
  lemma RungExit(n: nat, quotient: nat, remainder: nat, k: nat, j: nat, c: nat) returns (u: nat, m: nat)
    requires n > 0 && Rung(n, quotient, remainder, k) && k <= j && k <= 7 && remainder % Pow2(j) == 0
    requires c == Pow(10, 8 - k)
    requires CountrZero(n) == k || remainder % 5 != 0 || (k == 7 && n % E8 != 0)
    ensures u == remainder / Pow2(k) && m == u + quotient * c && Stripped(n, m, k)
  {
    hide Times, CountrZero, Pow, Pow2;
    LowerPower(remainder, k, j);
    u := remainder / Pow2(k);
    m := u + quotient * c;
    RungValue(n, quotient, remainder, k, c, u);
    RungNoZero(n, quotient, remainder, k, c, u, m);
  }

  lemma RungNoZero(n: nat, quotient: nat, remainder: nat, k: nat, c: nat, u: nat, m: nat)
    requires n > 0 && k <= 7 && c == Pow(10, 8 - k) && m == u + quotient * c && n == Times(m, Pow(10, k))
    requires remainder % Pow2(k) == 0 && u == remainder / Pow2(k)
    requires CountrZero(n) == k || remainder % 5 != 0 || (k == 7 && n % E8 != 0)
    ensures m % 10 != 0
  {
    hide Times, CountrZero, Pow, Pow2;
    if CountrZero(n) == k {
      LastTwo(n, m, k);
    } else if m % 10 == 0 {
      if remainder % 5 != 0 {
        TenInside(m, quotient, c, k, u);
        DivTimes(remainder, Pow2(k));
        FiveSurvives(u, Pow2(k));
      } else {
        OneMoreZero(n, m, k);
      }
    }
  }

  lemma RungValue(n: nat, quotient: nat, remainder: nat, k: nat, c: nat, u: nat)
    requires Rung(n, quotient, remainder, k) && k <= 7 && c == Pow(10, 8 - k)
    requires remainder % Pow2(k) == 0 && u == remainder / Pow2(k)
    ensures n == Times(u + quotient * c, Pow(10, k))
  {
    SmallPowers();
    PowAdd(10, 8 - k, k);
    TenPow(k);
    DivTimes(remainder, Pow2(k));
    Comm(u, Pow2(k));
    Assoc(Pow(5, k), Pow2(k), u);
    Combine(u, quotient, c, Pow(10, k));
  }

  lemma Combine(u: nat, quotient: nat, c: nat, p: nat)
    requires Times(c, p) == E8
    ensures quotient * E8 + Times(p, u) == Times(u + quotient * c, p)
  {
    assert (u + quotient * c) * p == quotient * (c * p) + p * u;
  }

  lemma TenInside(m: nat, quotient: nat, c: nat, k: nat, u: nat)
    requires m == u + quotient * c && k <= 7 && c == Pow(10, 8 - k) && m % 10 == 0
    ensures u % 5 == 0
  {
    hide Times, Pow;
    var d := Pow(10, 7 - k);
    PowStep(8 - k);
    TenFold(quotient, c, d, quotient * d);
  }

  lemma PowStep(j: nat)
    requires j > 0
    ensures Pow(10, j) == Times(10, Pow(10, j - 1))
  {
  }

  lemma TenFold(quotient: nat, c: nat, d: nat, x: nat)
    requires c == Times(10, d) && x == quotient * d
    ensures quotient * c == 10 * x
  {
  }

  lemma OneMoreZero(n: nat, m: nat, k: nat)
    requires k == 7 && m % 10 == 0 && n == Times(m, Pow(10, k))
    ensures n % E8 == 0
  {
    var d := m / 10;
    assert m == Times(d, 10);
    Assoc(d, 10, Pow(10, 7));
    SmallPowers();
    MultipleOf(d, E8);
  }

  // The methods

  /** The constant max_power: the largest number of zeros the search need look for. */
  method MaxPower(maxSignificand: nat) returns (k: nat)
    ensures Pow(10, k) >= maxSignificand / 10
    ensures forall j :: 0 <= j < k ==> Pow(10, j) < maxSignificand / 10
  {
    var p := 1;
    k := 0;
    while p < maxSignificand / 10
      invariant p == Pow(10, k)
      invariant forall j :: 0 <= j < k ==> Pow(10, j) < maxSignificand / 10
      decreases maxSignificand / 10 - p
    {
      p := Times(10, p);
      k := k + 1;
    }
  }

  lemma PowersOfTen()
    ensures Pow(10, 6) == 100_0000 && Pow(10, 7) == 1000_0000
    ensures Pow(10, 15) == 1000_0000_0000_0000 && Pow(10, 16) == 1_0000_0000_0000_0000
  {
    assert Pow(10, 6) == 100_0000;
    assert Pow(10, 7) == 1000_0000;
    SmallPowers();
    PowAdd(10, 8, 7);
    PowAdd(10, 8, 8);
  }

  lemma MaxPowerIs(k: nat, expected: nat, bound: nat)
    requires Pow(10, k) >= bound && forall j :: 0 <= j < k ==> Pow(10, j) < bound
    requires Pow(10, expected) >= bound && expected > 0 && Pow(10, expected - 1) < bound
    ensures k == expected
  {
    if k < expected { PowMono(k, expected - 1); }
  }

  lemma {:induction false} PowMono(i: nat, j: nat)
    requires i <= j
    ensures Pow(10, i) <= Pow(10, j)
    decreases j - i
  {
    if i < j { PowMono(i, j - 1); }
  }

  /** The 32-bit inverse of 5 the code takes from its 64-bit table, and the row for 5^8. */
  lemma FromTable(row1: nat, max1: nat, row8: nat, max8: nat, n: u64)
    requires Pow2(64) > 1
    requires Row(5, 1, Pow2(64), row1, max1) && Row(5, 8, Pow2(64), row8, max8)
    ensures Inverse(5, Low32(row1), TWO32)
    ensures Mul64(n, row8) <= max8 <==> n % 390625 == 0
    ensures n % 390625 == 0 ==> Mul64(n, row8) == n / 390625
  {
    hide Inverse;
    InverseOfFive32(row1);
    SmallPowers();
    Pow2At64();
    DivisibleIff(390625, row8, TWO64, n);
    assert Mod(Times(n, row8), TWO64) == Mul64(n, row8);
  }

  /** The word computed as uint32(n - 100000000 * quotient), with both the product and the difference
      wrapping, is the remainder. */
  lemma WrappedRemainder(n: u64)
    requires n <= MAX64
    ensures Low32((n - Mul32(E8, Low32(n / E8))) % TWO64) == n % E8
  {
    var q, r := n / E8, n % E8;
    assert q < TWO32 && Low32(q) == q;
    var product := E8 * q;
    var j := product / TWO32;
    assert Mul32(E8, q) == product - j * TWO32;
    LowOfDifference(j, r, n - Mul32(E8, q));
  }

  lemma LowOfDifference(j: nat, r: nat, difference: int)
    requires difference == j * TWO32 + r && r < E8 && 0 <= difference < TWO64
    ensures Low32(difference % TWO64) == r
  {
    assert difference % TWO64 == difference;
    DivModUnique(difference, j, r, TWO32);
  }

  method RemoveTrailingZeros64(n: u64) returns (m: u64, s: nat)
    requires 0 < n <= MAX64
    ensures Stripped(n, m, s)
  {
    hide Pow, Pow2, Times, Row, Inverse, CountrZero, Mul32, Mul64, Stripped, Rung;
    var maxPower := MaxPower(MAX64);
    PowersOfTen();
    MaxPowerIs(maxPower, 16, MAX64 / 10);
    var t := CountrZero(n);
    if t > maxPower {
      t := maxPower;
    }
    CountrZeroIff(n, t);
    var modInv, maxQuotients := MakeTable(5, 17, 64);
    FromTable(modInv[1], maxQuotients[1], modInv[8], maxQuotients[8], n);
    var modInverse, maxQuotient := Low32(modInv[1]), (TWO32 - 1) / 5;
    if t >= 8 {
      var quotientCandidate := Mul64(n, modInv[8]);
      if quotientCandidate <= maxQuotients[8] {
        m, s := WorkWithQuotient(n, t, quotientCandidate, modInverse);
        return;
      }
    }
    m, s := WorkWithRemainder(n, t, modInverse);
  }

  /** The loop for multiples of 10^8. */
  method WorkWithQuotient(n: u64, t: nat, quotientCandidate: u64, modInverse: u32) returns (m: u64, s: nat)
    requires 0 < n <= MAX64 && Zeros(n, t) && 8 <= t && n % Pow2(t) == 0
    requires n % 390625 == 0 && quotientCandidate == n / 390625 && Inverse(5, modInverse, TWO32)
    ensures Stripped(n, m, s)
  {
    hide Pow, Pow2, Times, Inverse, CountrZero, Mul32, Stripped;
    DivideOutE8(n, t);
    var quotient: u32 := Low32(quotientCandidate / 256);
    FirstQuotient(n, quotient);
    s := 8;
    while s < t
      invariant 8 <= s <= t && quotient < TWO32
      invariant n == Times(Times(quotient, Pow(5, s - 8)), E8) && quotient % Pow2(t - 8) == 0
    {
      TestByFive(quotient, modInverse);
      if Mul32(quotient, modInverse) > (TWO32 - 1) / 5 {
        break;
      }
      QuotientStep(n, quotient, s, t);
      quotient := Mul32(quotient, modInverse);
      s := s + 1;
    }
    TestByFive(quotient, modInverse);
    ghost var shifted := QuotientExit(n, quotient, t, s);
    StrippedLe(n, shifted, s);
    m := quotient / Pow2(s - 8);
  }

  lemma StrippedLe(n: nat, m: nat, s: nat)
    requires Stripped(n, m, s)
    ensures m <= n
  {
    MulMono(1, Pow(10, s), m);
  }

  lemma FirstQuotient(n: nat, quotient: nat)
    requires n == quotient * E8
    ensures n == Times(Times(quotient, Pow(5, 8 - 8)), E8)
  {
    One(quotient);
  }

  lemma TenTable()
    ensures Pow(10, 1) == 10 && Pow(10, 2) == 100 && Pow(10, 3) == 1000 && Pow(10, 4) == 1_0000
    ensures Pow(10, 5) == 10_0000 && Pow(10, 6) == 100_0000 && Pow(10, 7) == 1000_0000
    ensures Pow(10, 8) == 1_0000_0000
    ensures Pow2(0) == 1 && Pow2(1) == 2 && Pow2(2) == 4 && Pow2(3) == 8 && Pow2(4) == 16 && Pow2(5) == 32
    ensures Pow2(6) == 64 && Pow2(7) == 128
  {
    assert Pow(10, 4) == 1_0000;
    assert Pow2(4) == 16;
  }

  lemma NotE8(n: nat, t: nat)
    requires n > 0 && Zeros(n, t) && (t >= 8 ==> n % 390625 != 0)
    ensures n % E8 != 0
  {
    hide CountrZero;
    CountrZeroIff(n, 8);
    SmallPowers();
    E8Factors(n);
  }

  lemma E8Factors(n: nat)
    ensures n % E8 == 0 ==> n % 256 == 0 && n % 390625 == 0
  {
    var k := n / E8;
    if n % E8 == 0 {
      DivModUnique(n, k * 390625, 0, 256);
      DivModUnique(n, k * 256, 0, 390625);
    }
  }

  /** Everything the ladder knows at rung k. */
  ghost predicate OnRung(n: nat, t: nat, quotient: nat, remainder: nat, k: nat) {
    var j := if t > 8 then 8 else t;
    && n > 0 && Zeros(n, t) && n % E8 != 0 && k <= t && k <= 7
    && Rung(n, quotient, remainder, k) && remainder % Pow2(j) == 0
  }

  /** The sum is taken in 64-bit words; it never exceeds the number the zeros came from. */
  function Recombine(low: int, quotient: int, c: int): int {
    low + quotient * c
  }

  /** Splitting off the low eight digits, with the 32-bit product and the 64-bit difference wrapping. */
  method SplitAtE8(n: u64) returns (quotient: u32, remainder: u32)
    requires n <= MAX64
    ensures quotient == n / E8 && remainder == n % E8
  {
    WrappedRemainder(n);
    quotient := Low32(n / E8);
    remainder := Low32((n - Mul32(E8, quotient)) % TWO64);
  }

  lemma StartLadder(n: u64, t: nat)
    requires 0 < n <= MAX64 && Zeros(n, t) && n % Pow2(t) == 0
    requires t >= 8 ==> n % 390625 != 0
    ensures OnRung(n, t, n / E8, n % E8, 0)
  {
    hide Rung, CountrZero;
    FirstRung(n, t, if t > 8 then 8 else t);
    NotE8(n, t);
  }

  lemma Climb(n: u64, t: nat, quotient: nat, remainder: nat, k: nat)
    requires OnRung(n, t, quotient, remainder, k) && k < t && k < 7 && remainder % 5 == 0
    ensures OnRung(n, t, quotient, remainder / 5, k + 1)
  {
    hide Rung, CountrZero;
    RungStep(n, quotient, remainder, k, if t > 8 then 8 else t);
  }

  /** Leaving at rung k with the remainder shifted down by k and put back above 10^(8-k). */
  lemma Leave(n: u64, t: nat, quotient: nat, remainder: nat, k: nat, c: nat, p: nat) returns (m: nat)
    requires OnRung(n, t, quotient, remainder, k)
    requires c == Pow(10, 8 - k) && p == Pow2(k) && p > 0
    requires t == k || remainder % 5 != 0 || k == 7
    ensures m == remainder / p + quotient * c && m <= n && Stripped(n, m, k)
  {
    hide Rung, Pow, Pow2, CountrZero, Stripped;
    var u;
    u, m := RungExit(n, quotient, remainder, k, if t > 8 then 8 else t, c);
    StrippedLe(n, m, k);
  }

  lemma LeaveAtOnce(n: u64, t: nat, quotient: nat, remainder: nat)
    requires OnRung(n, t, quotient, remainder, 0) && (t == 0 || remainder % 5 != 0)
    requires quotient == n / E8 && remainder == n % E8
    ensures Stripped(n, n, 0)
  {
    hide Stripped, OnRung;
    TenTable();
    var m := Leave(n, t, quotient, remainder, 0, E8, 1);
    assert m == remainder + quotient * E8;
  }

  /** The ladder: at most seven divisions of the remainder by 5. */
  method WorkWithRemainder(n: u64, t: nat, modInverse: u32) returns (m: u64, s: nat)
    requires 0 < n <= MAX64 && Zeros(n, t) && n % Pow2(t) == 0 && Inverse(5, modInverse, TWO32)
    requires t >= 8 ==> n % 390625 != 0
    ensures Stripped(n, m, s)
  {
    hide Pow, Pow2, Inverse, Mul32, Stripped, OnRung;
    StartLadder(n, t);
    TenTable();
    var quotient, remainder := SplitAtE8(n);
    ghost var value;

    TestByFive(remainder, modInverse);
    if t == 0 || Mul32(remainder, modInverse) > (TWO32 - 1) / 5 {
      LeaveAtOnce(n, t, quotient, remainder);
      return n, 0;
    }
    Climb(n, t, quotient, remainder, 0);
    remainder := Mul32(remainder, modInverse);

    TestByFive(remainder, modInverse);
    if t == 1 || Mul32(remainder, modInverse) > (TWO32 - 1) / 5 {
      value := Leave(n, t, quotient, remainder, 1, 1000_0000, 2);
      return Recombine(remainder / 2, quotient, 1000_0000), 1;
    }
    Climb(n, t, quotient, remainder, 1);
    remainder := Mul32(remainder, modInverse);

    TestByFive(remainder, modInverse);
    if t == 2 || Mul32(remainder, modInverse) > (TWO32 - 1) / 5 {
      value := Leave(n, t, quotient, remainder, 2, 100_0000, 4);
      return Recombine(remainder / 4, quotient, 100_0000), 2;
    }
    Climb(n, t, quotient, remainder, 2);
    remainder := Mul32(remainder, modInverse);

    TestByFive(remainder, modInverse);
    if t == 3 || Mul32(remainder, modInverse) > (TWO32 - 1) / 5 {
      value := Leave(n, t, quotient, remainder, 3, 10_0000, 8);
      return Recombine(remainder / 8, quotient, 10_0000), 3;
    }
    Climb(n, t, quotient, remainder, 3);
    remainder := Mul32(remainder, modInverse);
    m, s := UpperRungs(n, t, quotient, remainder, modInverse);
  }

  /** The ladder from its fourth rung on. */
  method UpperRungs(n: u64, t: nat, quotient: u32, fourth: u32, modInverse: u32) returns (m: u64, s: nat)
    requires OnRung(n, t, quotient, fourth, 4) && Inverse(5, modInverse, TWO32)
    ensures Stripped(n, m, s)
  {
    hide Pow, Pow2, Inverse, Mul32, Stripped, OnRung;
    TenTable();
    RungBound(n, t, quotient, fourth, 4);
    var remainder := fourth;
    ghost var value;

    TestByFive(remainder, modInverse);
    if t == 4 || Mul32(remainder, modInverse) > (TWO32 - 1) / 5 {
      value := Leave(n, t, quotient, remainder, 4, 1_0000, 16);
      return Recombine(remainder / 16, quotient, 1_0000), 4;
    }
    Climb(n, t, quotient, remainder, 4);
    remainder := Mul32(remainder, modInverse);

    TestByFive(remainder, modInverse);
    if t == 5 || Mul32(remainder, modInverse) > (TWO32 - 1) / 5 {
      value := Leave(n, t, quotient, remainder, 5, 1000, 32);
      return Recombine(remainder / 32, quotient, 1000), 5;
    }
    Climb(n, t, quotient, remainder, 5);
    remainder := Mul32(remainder, modInverse);

    TestByFive(remainder, modInverse);
    if t == 6 || Mul32(remainder, modInverse) > (TWO32 - 1) / 5 {
      value := Leave(n, t, quotient, remainder, 6, 100, 64);
      return Recombine(remainder / 64, quotient, 100), 6;
    }
    Climb(n, t, quotient, remainder, 6);
    remainder := Mul32(remainder, modInverse);

    value := Leave(n, t, quotient, remainder, 7, 10, 128);
    return Recombine(remainder / 128, quotient, 10), 7;
  }

  lemma RungBound(n: nat, t: nat, quotient: nat, remainder: nat, k: nat)
    requires OnRung(n, t, quotient, remainder, k)
    ensures k <= t
  {
  }

  // binary32

  predicate Zeros32(n: nat, t: nat)
    requires n > 0
  {
    t == if CountrZero(n) > 7 then 7 else CountrZero(n)
  }

  /** s factors 5 have been divided out of n, and what is left still carries 2^t. */
  ghost predicate Fives(n: nat, rest: nat, s: nat, t: nat) {
    s <= t && n == Times(rest, Pow(5, s)) && rest % Pow2(t) == 0
  }

  lemma TakeFives(n: nat, rest: nat, s: nat, t: nat, k: nat)
    requires Fives(n, rest, s, t) && s + k <= t && rest % Pow(5, k) == 0
    ensures Fives(n, rest / Pow(5, k), s + k, t)
  {
    var r := rest / Pow(5, k);
    DivTimes(rest, Pow(5, k));
    Comm(r, Pow(5, k));
    DropFives(r, k, t);
    Assoc(r, Pow(5, k), Pow(5, s));
    PowAdd(5, k, s);
  }

  lemma FivesExit(n: nat, rest: nat, s: nat, t: nat) returns (m: nat)
    requires 0 < n <= MAX32 && Zeros32(n, t) && Fives(n, rest, s, t) && (s == t || rest % 5 != 0)
    ensures m == rest / Pow2(s) && m <= n && Stripped(n, m, s)
  {
    hide Times, Zeros32, Pow, Pow2, CountrZero;
    m := ShiftOut(rest, s, t);
    Assoc(m, Pow2(s), Pow(5, s));
    Comm(Pow2(s), Pow(5, s));
    TenPow(s);
    FivesNoZero(n, rest, m, s, t);
    StrippedLe(n, m, s);
  }

  lemma FivesNoZero(n: nat, rest: nat, m: nat, s: nat, t: nat)
    requires 0 < n <= MAX32 && Zeros32(n, t) && s <= t && (s == t || rest % 5 != 0)
    requires rest == Times(m, Pow2(s)) && n == Times(m, Pow(10, s))
    ensures m % 10 != 0
  {
    hide Times, CountrZero, Pow, Pow2;
    if s == t == 7 {
      AtMostFour(n, m);
    } else if s == t {
      LastTwo(n, m, s);
    } else if m % 5 == 0 {
      FiveSurvives(m, Pow2(s));
    }
  }

  lemma AtMostFour(n: nat, m: nat)
    requires 0 < n <= MAX32 && n == Times(m, Pow(10, 7))
    ensures 0 < m <= 4
  {
    TenTable();
  }

  /** n is a word, d = 5^k with its row of the table: the test and the quotient. */
  lemma TestByRow(n: u32, k: nat, modInv: nat, maxQuotient: nat)
    requires Pow2(32) > 1 && Row(5, k, Pow2(32), modInv, maxQuotient) && k <= 2
    ensures Mul32(n, modInv) <= maxQuotient <==> n % Pow(5, k) == 0
    ensures n % Pow(5, k) == 0 ==> Mul32(n, modInv) == n / Pow(5, k)
  {
    hide Inverse, Pow;
    Pow2At64();
    FivesAndTens();
    assert Pow(5, 0) == 1 by { PowZero(); }
    DivisibleIff(Pow(5, k), modInv, TWO32, n);
    assert Mod(Times(n, modInv), TWO32) == Mul32(n, modInv);
  }

  lemma PowZero()
    ensures Pow(5, 0) == 1
  {
  }

  method RemoveTrailingZeros32(n: u32) returns (m: u32, s: nat)
    requires 0 < n <= MAX32
    ensures Stripped(n, m, s)
  {
    hide Pow, Pow2, Times, Row, Inverse, CountrZero, Mul32, Stripped, Fives;
    var maxPower := MaxPower(MAX32);
    PowersOfTen();
    MaxPowerIs(maxPower, 7, MAX32 / 10);
    var t := CountrZero(n);
    if t > maxPower {
      t := maxPower;
    }
    CountrZeroIff(n, t);
    var modInv, maxQuotients := MakeTable(5, 9, 32);
    var inv5, max5, inv25, max25 := modInv[1], maxQuotients[1], modInv[2], maxQuotients[2];
    var rest: u32 := n;
    s := 0;
    NoFivesYet(n, t);
    FivesAndTens();
    while s + 1 < t
      invariant s <= t && Fives(n, rest, s, t)
    {
      TestByRow(rest, 2, inv25, max25);
      if Mul32(rest, inv25) > max25 {
        break;
      }
      TakeFives(n, rest, s, t, 2);
      rest := Mul32(rest, inv25);
      s := s + 2;
    }
    TestByRow(rest, 2, inv25, max25);
    TestByRow(rest, 1, inv5, max5);
    if s < t && Mul32(rest, inv5) <= max5 {
      TakeFives(n, rest, s, t, 1);
      rest := Mul32(rest, inv5);
      s := s + 1;
    }
    ghost var shifted := FivesExit(n, rest, s, t);
    m := rest / Pow2(s);
  }

  lemma NoFivesYet(n: nat, t: nat)
    requires n % Pow2(t) == 0
    ensures Fives(n, n, 0, t)
  {
    One(n);
  }

  // What the result means

  /** The zeros removed are exactly the powers of ten in n. */
  lemma StrippedIsMaximal(n: nat, m: nat, s: nat, j: nat)
    requires n > 0 && Stripped(n, m, s)
    ensures n % Pow(10, j) == 0 <==> j <= s
  {
    hide Times, Pow;
    if j <= s {
      PowAdd(10, s - j, j);
      Assoc(m, Pow(10, s - j), Pow(10, j));
      MultipleOf(Times(m, Pow(10, s - j)), Pow(10, j));
    } else if n % Pow(10, j) == 0 {
      var q := n / Pow(10, j);
      DivTimes(n, Pow(10, j));
      PowAdd(10, j - s, s);
      Assoc(q, Pow(10, j - s), Pow(10, s));
      CancelRight(m, Times(q, Pow(10, j - s)), Pow(10, s));
      TenDivides(q, j - s);
    }
  }

  lemma CancelRight(a: nat, b: nat, c: nat)
    requires c > 0 && Times(a, c) == Times(b, c)
    ensures a == b
  {
    ExactDivision(c, a);
    ExactDivision(c, b);
    Comm(a, c);
    Comm(b, c);
  }

  lemma TenDivides(q: nat, j: nat)
    requires j > 0
    ensures Times(q, Pow(10, j)) % 10 == 0
  {
    Comm(10, Pow(10, j - 1));
    Assoc(q, Pow(10, j - 1), 10);
    MultipleOf(Times(q, Pow(10, j - 1)), 10);
  }

  /** n fixes both the digits kept and the number of zeros dropped. */
  lemma StrippedUnique(n: nat, m: nat, s: nat, m': nat, s': nat)
    requires n > 0 && Stripped(n, m, s) && Stripped(n, m', s')
    ensures m == m' && s == s'
  {
    hide Times, Pow;
    MultipleOf(m, Pow(10, s));
    MultipleOf(m', Pow(10, s'));
    StrippedIsMaximal(n, m, s, s');
    StrippedIsMaximal(n, m', s', s);
    CancelRight(m, m', Pow(10, s));
  }
}
