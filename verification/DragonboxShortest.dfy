/** The regular-interval path of compute_nearest as a whole, for binary64 and binary32: the words it computes
    from the significand and the cached power of ten, the search, and the removal of trailing zeros. */
module DragonboxShortest {
  import opened Arith
  import opened DragonboxWide
  import opened DragonboxDiv
  import opened DragonboxZeros
  import opened DragonboxNearest
  import opened DragonboxInteger

  /** significand * 10^exponent, in the scale of DragonboxNearest. */
  datatype Decimal = Decimal(significand: int, exponent: nat)

  /** floor(f * cache / 2^(128 - beta)): the scaled f, as far as the cached 128 bits tell. */
  function ScaledFloor(f: nat, cache: U128, betaMinus1: nat): int
    requires betaMinus1 < 64
  {
    f * cache.Value() / Pow2(128 - betaMinus1)
  }

  /** What a cache entry must provide: rounding the cached power of ten does not change the floors of
      the endpoints, of the center and of the length of the interval. */
  ghost predicate CacheGoodFor(i: Interval, twoFc: nat, cache: U128, betaMinus1: nat)
    requires 1 <= betaMinus1 < 64
  {
    && twoFc >= 2
    && i.z.Floor == ScaledFloor(twoFc + 1, cache, betaMinus1)
    && i.Center().Floor == ScaledFloor(twoFc, cache, betaMinus1)
    && i.Left().Floor == ScaledFloor(twoFc - 1, cache, betaMinus1)
    && i.delta.Floor == cache.Value() / Pow2(127 - betaMinus1)
  }

  lemma DeltaExact(cache: U128, betaMinus1: nat)
    requires betaMinus1 < 64 && cache.Value() / Pow2(127 - betaMinus1) < TWO32
    ensures ComputeDelta(cache, betaMinus1) == cache.Value() / Pow2(127 - betaMinus1)
  {
    hide Low32, Pow2;
    HighPart(cache);
    HighShift(cache.Value(), betaMinus1);
    LowOfSmall(cache.high / Pow2(63 - betaMinus1));
  }

  lemma HighShift(v: nat, betaMinus1: nat)
    requires betaMinus1 < 64
    ensures v / TWO64 / Pow2(63 - betaMinus1) == v / Pow2(127 - betaMinus1)
  {
    Pow2At64();
    Pow2Add(64, 63 - betaMinus1);
    DivDiv(v, TWO64, Pow2(63 - betaMinus1));
  }

  lemma LowOfSmall(x: int)
    requires 0 <= x < TWO32
    ensures Low32(x) == x
  {
  }

  /** Everything known about the significand, the exponent and minus_k of a regular interval. */
  ghost predicate Regular(i: Interval, kappa: nat, twoFc: nat, exponent: int, minusK: int, betaMinus1: nat) {
    && 2 <= twoFc < Pow2(if kappa == 1 then 25 else 54) - 1 && twoFc % 2 == 0
    && FloorLog10(exponent, minusK + kappa) && Around(i, twoFc, exponent, minusK) && FloorLog2(i, betaMinus1)
  }

  /** The three calls of is_product_integer. */
  method ReadIntegrality(kappa: nat, small: nat, twoFc: nat, exponent: int, minusK: int, ghost betaMinus1: nat,
                         ghost i: Interval) returns (left: bool, center: bool, right: bool)
    requires Scale(kappa, small) && Regular(i, kappa, twoFc, exponent, minusK, betaMinus1)
    ensures (left <==> IsInteger(i.Left())) && (center <==> IsInteger(i.Center())) && (right <==> IsInteger(i.z))
  {
    hide Pow2, FloorLog10, Scaled, IsInteger;
    Neighbours(i, twoFc, exponent, minusK);
    right := IsProductInteger(true, kappa, twoFc + 1, exponent, minusK);
    left := IsProductInteger(true, kappa, twoFc - 1, exponent, minusK);
    center := IsProductInteger(false, kappa, twoFc, exponent, minusK);
  }

  lemma RegularFacts(i: Interval, kappa: nat, small: nat, twoFc: nat, exponent: int, minusK: int, betaMinus1: nat)
    requires Scale(kappa, small) && Regular(i, kappa, twoFc, exponent, minusK, betaMinus1)
    ensures InRange(i, small) && (twoFc + 1) * Pow2(betaMinus1) < (if kappa == 1 then TWO32 else TWO64)
    ensures twoFc + 1 < if kappa == 1 then 0x200_0000 else 0x40_0000_0000_0000
    ensures kappa == 2 ==> i.z < (0x100_0000_0000_0000 * 125) as real
  {
    hide Pow2, FloorLog10, FloorLog2, Scaled, InRange;
    TwoPowers();
    DeltaRange(i, kappa, small, twoFc, exponent, minusK);
    ShiftFits(i, kappa, small, twoFc + 1, betaMinus1);
  }

  /** Steps 1 and 2 read these answers off the words; all of them are truthful. */
  method ReadAnswers(twoFc: u64, exponent: int, minusK: int, cache: U128, betaMinus1: nat, ghost i: Interval)
    returns (a: Answers)
    requires 1 <= betaMinus1 < 64 && Regular(i, 2, twoFc, exponent, minusK, betaMinus1)
    requires CacheGoodFor(i, twoFc, cache, betaMinus1)
    ensures Truthful(a, i) && InRange(i, 100) && i.z < (0x100_0000_0000_0000 * 125) as real
  {
    hide ComputeMul, ComputeMulParity, ComputeDelta, Pow2, Regular;
    RegularFacts(i, 2, 100, twoFc, exponent, minusK, betaMinus1);
    var left, center, right := ReadIntegrality(2, 100, twoFc, exponent, minusK, betaMinus1, i);
    a := ReadWords(twoFc, cache, betaMinus1, left, center, right, i);
  }

  method ReadWords(twoFc: u64, cache: U128, betaMinus1: nat, left: bool, center: bool, right: bool,
                   ghost i: Interval) returns (a: Answers)
    requires 1 <= betaMinus1 < 64 && twoFc + 1 < TWO64 && (twoFc + 1) * Pow2(betaMinus1) < TWO64
    requires CacheGoodFor(i, twoFc, cache, betaMinus1) && InRange(i, 100)
    requires (left <==> IsInteger(i.Left())) && (center <==> IsInteger(i.Center())) && (right <==> IsInteger(i.z))
    ensures Truthful(a, i)
  {
    hide ComputeMul, ComputeMulParity, ComputeDelta, Pow2;
    var twoFr, twoFl := twoFc + 1, twoFc - 1;
    MulMono(twoFc, twoFr, Pow2(betaMinus1));
    MulMono(twoFl, twoFr, Pow2(betaMinus1));
    DeltaExact(cache, betaMinus1);
    ParityOfComputeMul(twoFr, cache, betaMinus1);
    ParityOfComputeMul(twoFc, cache, betaMinus1);
    ParityOfComputeMul(twoFl, cache, betaMinus1);
    a := Answers(ComputeMul(twoFr * Pow2(betaMinus1), cache), ComputeDelta(cache, betaMinus1),
                 ComputeMulParity(twoFl, cache, betaMinus1), ComputeMulParity(twoFc, cache, betaMinus1),
                 left, center, right);
  }

  // Binary32

  function ScaledFloor32(f: nat, cache: u64, betaMinus1: nat): int
    requires betaMinus1 < 64
  {
    f * cache / Pow2(64 - betaMinus1)
  }

  ghost predicate CacheGoodFor32(i: Interval, twoFc: nat, cache: u64, betaMinus1: nat)
    requires 1 <= betaMinus1 < 64
  {
    && twoFc >= 2
    && i.z.Floor == ScaledFloor32(twoFc + 1, cache, betaMinus1)
    && i.Center().Floor == ScaledFloor32(twoFc, cache, betaMinus1)
    && i.Left().Floor == ScaledFloor32(twoFc - 1, cache, betaMinus1)
    && i.delta.Floor == cache / Pow2(63 - betaMinus1)
  }

  method ReadAnswers32(twoFc: u32, exponent: int, minusK: int, cache: u64, betaMinus1: nat, ghost i: Interval)
    returns (a: Answers)
    requires 1 <= betaMinus1 < 64 && Regular(i, 1, twoFc, exponent, minusK, betaMinus1)
    requires CacheGoodFor32(i, twoFc, cache, betaMinus1)
    ensures Truthful(a, i) && InRange(i, 10) && a.zi < TWO32
  {
    hide ComputeMul32, ComputeMulParity32, ComputeDelta32, Pow2, Regular;
    RegularFacts(i, 1, 10, twoFc, exponent, minusK, betaMinus1);
    var left, center, right := ReadIntegrality(1, 10, twoFc, exponent, minusK, betaMinus1, i);
    a := ReadWords32(twoFc, cache, betaMinus1, left, center, right, i);
  }

  method ReadWords32(twoFc: u32, cache: u64, betaMinus1: nat, left: bool, center: bool, right: bool,
                     ghost i: Interval) returns (a: Answers)
    requires 1 <= betaMinus1 < 64 && twoFc + 1 < TWO32 && (twoFc + 1) * Pow2(betaMinus1) < TWO32
    requires CacheGoodFor32(i, twoFc, cache, betaMinus1) && InRange(i, 10)
    requires (left <==> IsInteger(i.Left())) && (center <==> IsInteger(i.Center())) && (right <==> IsInteger(i.z))
    ensures Truthful(a, i) && a.zi < TWO32
  {
    hide ComputeMul32, ComputeMulParity32, Pow2;
    var twoFr: u32, twoFl: u32 := twoFc + 1, twoFc - 1;
    MulMono(twoFc, twoFr, Pow2(betaMinus1));
    MulMono(twoFl, twoFr, Pow2(betaMinus1));
    LowOfSmall(cache / Pow2(63 - betaMinus1));
    ParityOfComputeMul32(twoFr, cache, betaMinus1);
    ParityOfComputeMul32(twoFc, cache, betaMinus1);
    ParityOfComputeMul32(twoFl, cache, betaMinus1);
    a := Answers(ComputeMul32(twoFr * Pow2(betaMinus1), cache), ComputeDelta32(cache, betaMinus1),
                 ComputeMulParity32(twoFl, cache, betaMinus1), ComputeMulParity32(twoFc, cache, betaMinus1),
                 left, center, right);
  }

  // The shortest decimal

  /** No decimal with a larger exponent lies in the interval. */
  ghost predicate Shortest(i: Interval, exponent: nat) {
    forall e: nat :: e > exponent ==> !MultipleInside(i, Pow(10, e))
  }

  lemma PowPositive(e: nat)
    ensures Pow(10, e) > 0
  {
  }

  lemma ScalePowers(kappa: nat, small: nat)
    requires Scale(kappa, small)
    ensures Pow(10, kappa) == small && Pow(10, kappa + 1) == 10 * small
  {
    TenTable();
    FivesAndTens();
  }

  /** A multiple of a higher power of ten is a multiple of a lower one. */
  lemma HigherMultiple(k: int, d: nat, e: nat) returns (j: int)
    requires d <= e
    ensures j == k * Pow(10, e - d) && k * Pow(10, e) == j * Pow(10, d)
  {
    PowAdd(10, e - d, d);
    j := k * Pow(10, e - d);
    Associate(k, Pow(10, e - d), Pow(10, d));
  }

  lemma Associate(k: int, a: nat, b: nat)
    ensures k * Times(a, b) == (k * a) * b
  {
  }

  lemma LowerInside(i: Interval, d: nat, e: nat)
    requires d <= e && MultipleInside(i, Pow(10, e))
    ensures MultipleInside(i, Pow(10, d))
  {
    hide Pow;
    var k: int :| i.Has((k * Pow(10, e)) as real);
    var j := HigherMultiple(k, d, e);
    assert i.Has((j * Pow(10, d)) as real);
  }

  lemma SmallExitIsShortest(i: Interval, kappa: nat, small: nat)
    requires Scale(kappa, small) && !MultipleInside(i, 10 * small)
    ensures Shortest(i, kappa)
  {
    ScalePowers(kappa, small);
    hide Pow, MultipleInside;
    forall e: nat | e > kappa
      ensures !MultipleInside(i, Pow(10, e))
    {
      if MultipleInside(i, Pow(10, e)) { LowerInside(i, kappa + 1, e); }
    }
  }

  lemma LargeExitIsShortest(i: Interval, kappa: nat, small: nat, n: nat, m: nat, s: nat)
    requires Scale(kappa, small) && InRange(i, small) && n > 0 && i.Has(BigMultiple(n, small) as real) && Stripped(n, m, s)
    ensures Shortest(i, kappa + 1 + s)
  {
    ScalePowers(kappa, small);
    hide Pow, Stripped;
    forall e: nat | e > kappa + 1 + s
      ensures !MultipleInside(i, Pow(10, e))
    {
      if k: int :| i.Has((k * Pow(10, e)) as real) {
        var j := HigherMultiple(k, kappa + 1, e);
        SameMultiple(i, n, j, small);
        PowPositive(e - (kappa + 1));
        FactorOf(k, Pow(10, e - (kappa + 1)), n);
        StrippedIsMaximal(n, m, s, e - (kappa + 1));
      }
    }
  }

  lemma FactorOf(k: int, p: nat, n: nat)
    requires p > 0 && n > 0 && k * p == n
    ensures n % p == 0
  {
    DivModUnique(n, k, 0, p);
  }

  /** Less than one step of 10^(kappa+1) fits into the interval. */
  lemma SameMultiple(i: Interval, j: int, k: int, small: nat)
    requires small > 0 && i.delta < (10 * small) as real
    requires i.Has((j * (10 * small)) as real) && i.Has((k * (10 * small)) as real)
    ensures j == k
  {
    var big := 10 * small;
    OneStep(j, big);
    if j < k { Steps(k, j + 1, big); }
    if k < j { Steps(j - 1, k, big); }
  }

  lemma StrippedValue(n: nat, m: nat, s: nat, kappa: nat, small: nat)
    requires Scale(kappa, small) && Stripped(n, m, s)
    ensures BigMultiple(n, small) == m * Pow(10, kappa + 1 + s)
  {
    ScalePowers(kappa, small);
    PowAdd(10, s, kappa + 1);
    Associate(m, Pow(10, s), Pow(10, kappa + 1));
  }

  /** The decimal lies in the closed interval; no decimal with a larger exponent lies in the interval;
      above the smallest exponent it respects the open endpoints and ends in no zero; at the smallest
      exponent, where several decimals may lie in the interval, it is the one nearest to the center. */
  ghost predicate ShortestDecimal(d: Decimal, i: Interval, kappa: nat, small: nat) {
    && d.exponent >= kappa && Shortest(i, d.exponent)
    && i.Left() <= (d.significand * Pow(10, d.exponent)) as real <= i.z
    && (d.exponent > kappa ==> i.Has((d.significand * Pow(10, d.exponent)) as real) && d.significand % 10 != 0)
    && (d.exponent == kappa ==> NearestEven(d.significand, small, i.Center()))
  }

  lemma LargeResult(i: Interval, kappa: nat, small: nat, n: nat, m: nat, s: nat)
    requires Scale(kappa, small) && InRange(i, small)
    requires n > 0 && i.Has(BigMultiple(n, small) as real) && Stripped(n, m, s)
    ensures ShortestDecimal(Decimal(m, kappa + 1 + s), i, kappa, small)
  {
    hide Pow, Shortest, NearestEven;
    LargeExitIsShortest(i, kappa, small, n, m, s);
    StrippedValue(n, m, s, kappa, small);
  }

  lemma SmallResult(i: Interval, kappa: nat, small: nat, n: int)
    requires Scale(kappa, small) && InRange(i, small)
    requires !MultipleInside(i, 10 * small) && NearestEven(n, small, i.Center())
    ensures ShortestDecimal(Decimal(n, kappa), i, kappa, small)
  {
    ScalePowers(kappa, small);
    hide Pow, MultipleInside, Shortest;
    SmallExitIsShortest(i, kappa, small);
    NearestStaysInside(i, n, small);
  }

  lemma ScaledBound(a: Answers, i: Interval)
    requires Truthful(a, i) && i.z < (0x100_0000_0000_0000 * 125) as real
    ensures a.zi <= 0x100_0000_0000_0000 * 125
  {
  }

  lemma SignificandBound(a: Answers, i: Interval, n: int, small: nat)
    requires Truthful(a, i) && n > 0 && i.Has(BigMultiple(n, small) as real)
    ensures small == 100 ==> n <= MAX64
    ensures small == 10 && a.zi < TWO32 ==> n <= MAX32
  {
    assert BigMultiple(n, 100) == n * 1000 && BigMultiple(n, 10) == n * 100;
  }

  /** compute_nearest on a regular interval, for every significand and exponent, every cache entry good for
      them and every choice of endpoints. */
  method ToDecimal64(twoFc: u64, exponent: int, minusK: int, cache: U128, betaMinus1: nat,
                     leftClosed: bool, rightClosed: bool, ghost i: Interval) returns (d: Decimal)
    requires 1 <= betaMinus1 < 64 && Regular(i, 2, twoFc, exponent, minusK, betaMinus1)
    requires i.leftClosed == leftClosed && i.rightClosed == rightClosed
    requires CacheGoodFor(i, twoFc, cache, betaMinus1)
    ensures ShortestDecimal(d, i, 2, 100)
  {
    hide Pow, Truthful, CacheGoodFor, Regular, MultipleInside, NearestEven, Stripped, ShortestDecimal, BigMultiple;
    var a := ReadAnswers(twoFc, exponent, minusK, cache, betaMinus1, i);
    ScaledBound(a, i);
    var significand, early := ComputeNearest(2, 100, a, leftClosed, rightClosed, i);
    if early {
      SignificandBound(a, i, significand, 100);
      var m, s := RemoveTrailingZeros64(significand);
      LargeResult(i, 2, 100, significand, m, s);
      d := Decimal(m, 3 + s);
    } else {
      SmallResult(i, 2, 100, significand);
      d := Decimal(significand, 2);
    }
  }

  method ToDecimal32(twoFc: u32, exponent: int, minusK: int, cache: u64, betaMinus1: nat,
                     leftClosed: bool, rightClosed: bool, ghost i: Interval) returns (d: Decimal)
    requires 1 <= betaMinus1 < 64 && Regular(i, 1, twoFc, exponent, minusK, betaMinus1)
    requires i.leftClosed == leftClosed && i.rightClosed == rightClosed
    requires CacheGoodFor32(i, twoFc, cache, betaMinus1)
    ensures ShortestDecimal(d, i, 1, 10)
  {
    hide Pow, Truthful, CacheGoodFor32, Regular, MultipleInside, NearestEven, Stripped, ShortestDecimal, BigMultiple;
    var a := ReadAnswers32(twoFc, exponent, minusK, cache, betaMinus1, i);
    var significand, early := ComputeNearest(1, 10, a, leftClosed, rightClosed, i);
    if early {
      SignificandBound(a, i, significand, 10);
      var m, s := RemoveTrailingZeros32(significand);
      LargeResult(i, 1, 10, significand, m, s);
      d := Decimal(m, 2 + s);
    } else {
      SmallResult(i, 1, 10, significand);
      d := Decimal(significand, 1);
    }
  }

  /** The early exit is the only decimal with its exponent in the interval, so nothing is nearer. */
  lemma LargeExitIsUnique(d: Decimal, i: Interval, kappa: nat, small: nat, k: int)
    requires Scale(kappa, small) && ShortestDecimal(d, i, kappa, small) && d.exponent > kappa && InRange(i, small)
    requires i.Has((k * Pow(10, d.exponent)) as real)
    ensures k == d.significand
  {
    ScalePowers(kappa, small);
    hide Pow, Shortest, NearestEven;
    var j := HigherMultiple(k, kappa + 1, d.exponent);
    var j' := HigherMultiple(d.significand, kappa + 1, d.exponent);
    SameMultiple(i, j, j', small);
    PowPositive(d.exponent - (kappa + 1));
    EqualFactors(k, d.significand, Pow(10, d.exponent - (kappa + 1)));
  }

  lemma EqualFactors(a: int, b: int, c: nat)
    requires c > 0 && a * c == b * c
    ensures a == b
  {
    assert (a - b) * c == 0;
  }
}
