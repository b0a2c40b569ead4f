/** compute_nearest of dragonbox.h with the default to_even policy: from the integer parts of the
    right endpoint and of the length of the rounding interval, and from a few single-bit answers, to
    the shortest decimal in the interval.

    All numbers are scaled by 10^(-minus_k), so the decimals the algorithm chooses between are the
    multiples of 10^kappa and of 10^(kappa+1). */
module DragonboxNearest {
  import opened DragonboxWide
  import opened DragonboxDiv

  /** The rounding interval ends at z, is delta long, and may include either endpoint. */
  datatype Interval = Interval(z: real, delta: real, leftClosed: bool, rightClosed: bool) {
    ghost function Left(): real {
      z - delta
    }

    ghost function Center(): real {
      z - delta / 2.0
    }

    ghost predicate Has(v: real) {
      && (if leftClosed then Left() <= v else Left() < v)
      && (if rightClosed then v <= z else v < z)
    }
  }

  /** What the code learns about the interval: two floors from compute_mul and compute_delta, two
      parities from compute_mul_parity and three integrality answers from is_product_integer. */
  datatype Answers = Answers(zi: u64, deltai: u32, leftOdd: bool, centerOdd: bool,
                             leftInteger: bool, centerInteger: bool, rightInteger: bool)

  ghost predicate IsInteger(v: real) {
    v.Floor as real == v
  }

  ghost predicate Truthful(a: Answers, i: Interval) {
    && a.zi == i.z.Floor && a.deltai == i.delta.Floor
    && (a.leftOdd <==> i.Left().Floor % 2 == 1) && (a.centerOdd <==> i.Center().Floor % 2 == 1)
    && (a.leftInteger <==> IsInteger(i.Left())) && (a.centerInteger <==> IsInteger(i.Center()))
    && (a.rightInteger <==> IsInteger(i.z))
  }

  /** small = 10^kappa, for the kappa of binary32 and of binary64. */
  predicate Scale(kappa: nat, small: nat) {
    (kappa == 1 && small == 10) || (kappa == 2 && small == 100)
  }

  ghost predicate InRange(i: Interval, small: nat) {
    small as real <= i.delta < (10 * small) as real && i.delta < i.z
  }

  ghost predicate MultipleInside(i: Interval, step: nat) {
    exists k: int :: i.Has((k * step) as real)
  }

  /** sig * small is the multiple of small closest to y, and the even one of two equally close. */
  ghost predicate NearestEven(sig: int, small: nat, y: real) {
    var d := (sig * small) as real - y;
    var half := small as real / 2.0;
    -half <= d <= half && (d == half || d == -half ==> sig % 2 == 0)
  }

  function ToEven(sig: int): int {
    if sig % 2 == 0 then sig else sig - 1
  }

  function Mask(kappa: nat): nat {
    if kappa == 1 then 2 else 4
  }

  /** The bits of the two floors: the left endpoint and the center in terms of zi, deltai and the
      discarded fractions. */
  lemma Fractions(i: Interval, a: Answers)
    requires Truthful(a, i)
    ensures
      var fz, fd := i.z - a.zi as real, i.delta - a.deltai as real;
      && 0.0 <= fz < 1.0 && 0.0 <= fd < 1.0
      && i.Left() == (a.zi - a.deltai) as real + (fz - fd)
      && i.Left().Floor == a.zi - a.deltai - (if fz < fd then 1 else 0)
      && (IsInteger(i.Left()) <==> fz == fd)
      && (IsInteger(i.z) <==> fz == 0.0)
  {
  }

  lemma CenterFractions(i: Interval, a: Answers) returns (g: real)
    requires Truthful(a, i)
    ensures
      && -1.0 < g < 1.0
      && i.Center() == (a.zi - a.deltai / 2) as real + g
      && i.Center().Floor == a.zi - a.deltai / 2 - (if g < 0.0 then 1 else 0)
      && (IsInteger(i.Center()) <==> g == 0.0)
  {
    g := i.Center() - (a.zi - a.deltai / 2) as real;
    var h := a.deltai / 2;
    assert a.deltai == 2 * h || a.deltai == 2 * h + 1;
    assert i.delta / 2.0 - h as real >= 0.0;
  }

  // Step 2: the larger divisor

  /** Is the largest multiple of 10^(kappa+1) up to floor(z) inside?  The comparison of the remainder
      with floor(delta), and a parity where they are equal, decide it. */
  predicate TakesBig(a: Answers, i: Interval, r: nat) {
    if r > a.deltai then false
    else if r < a.deltai then !(r == 0 && !i.rightClosed && a.rightInteger)
    else !((!i.leftClosed || !a.leftInteger) && !a.leftOdd)
  }

  lemma BigCandidate(i: Interval, a: Answers, r: nat, m: nat)
    requires Truthful(a, i) && a.zi == m + r && m % 2 == 0 && a.deltai > 0
    ensures i.Has(m as real) <==> TakesBig(a, i, r)
  {
    Fractions(i, a);
    var fz, fd := i.z - a.zi as real, i.delta - a.deltai as real;
    LeftBit(i, a, fz, fd);
    hide Truthful;
    BigByFractions(i, a, r, m, fz, fd);
  }

  /** The parity bit tells whether the fraction of z is below the fraction of delta. */
  lemma LeftBit(i: Interval, a: Answers, fz: real, fd: real)
    requires Truthful(a, i) && i.Left().Floor == a.zi - a.deltai - (if fz < fd then 1 else 0)
    requires (IsInteger(i.Left()) <==> fz == fd) && (IsInteger(i.z) <==> fz == 0.0)
    ensures (a.zi - a.deltai) % 2 == 0 ==> (a.leftOdd <==> fz < fd)
    ensures (a.leftInteger <==> fz == fd) && (a.rightInteger <==> fz == 0.0)
  {
  }

  lemma BigByFractions(i: Interval, a: Answers, r: nat, m: nat, fz: real, fd: real)
    requires a.zi == m + r && m % 2 == 0 && a.deltai > 0 && 0.0 <= fz < 1.0 && 0.0 <= fd < 1.0
    requires i.z == (m + r) as real + fz && i.delta == a.deltai as real + fd
    requires (a.zi - a.deltai) % 2 == 0 ==> (a.leftOdd <==> fz < fd)
    requires (a.leftInteger <==> fz == fd) && (a.rightInteger <==> fz == 0.0)
    ensures i.Has(m as real) <==> TakesBig(a, i, r)
  {
    assert i.z - m as real == r as real + fz;
    if r == a.deltai {
      assert i.Left() - m as real == fz - fd;
      assert a.zi - a.deltai == m;
    }
  }

  /** No other multiple can be inside: the one above exceeds z, the one below is short of z - delta. */
  lemma OnlyCandidate(i: Interval, a: Answers, big: nat, q: nat, r: nat, k: int)
    requires Truthful(a, i) && a.zi == q * big + r && r < big && i.delta < big as real
    requires i.Has((k * big) as real)
    ensures k == q
  {
    OneStep(q, big);
    if k > q { Steps(k, q + 1, big); }
    if k < q { Steps(q - 1, k, big); }
    TooFar(i, a, q * big, r, big, k * big);
  }

  lemma TooFar(i: Interval, a: Answers, m: int, r: nat, big: nat, other: int)
    requires Truthful(a, i) && a.zi == m + r && r < big && i.delta < big as real && i.Has(other as real)
    ensures m - big < other < m + big
  {
    Fractions(i, a);
  }

  lemma Steps(j: int, k: int, big: nat)
    requires k <= j
    ensures k * big <= j * big
  {
    assert (j - k) * big >= 0;
  }

  // Step 3: the smaller divisor

  /** The three ways step 3 turns dist = (10 * quotient + remainder) / 10^kappa into the significand. */
  function Choice(a: Answers, sig: int, rest: nat, approximate: int): int {
    if rest != 0 then sig
    else if a.centerOdd != (approximate % 2 != 0) then sig - 1
    else if a.centerInteger then ToEven(sig)
    else sig
  }

  function SmallChoice(a: Answers, base: int, dist: nat, small: nat): int
    requires small > 0
  {
    Choice(a, base + dist / small, dist % small, dist + small / 2)
  }

  /** With zi = base * small + r, the choice made from dist = r - deltai/2 + small/2 is the multiple of
      10^kappa nearest to the center: the parity bit decides whether the discarded fraction of z falls
      below that of delta/2, and an integral center is the only possible tie. */
  lemma SmallChoiceIsNearest(i: Interval, a: Answers, kappa: nat, small: nat, base: int, r: nat, dist: nat)
    requires Truthful(a, i) && Scale(kappa, small)
    requires a.zi == base * small + r && base % 2 == 0
    requires dist == r - a.deltai / 2 + small / 2
    ensures NearestEven(SmallChoice(a, base, dist, small), small, i.Center())
  {
    hide Truthful, NearestEven, Choice;
    EvenProduct(base, small);
    var q, rest := dist / small, dist % small;
    Quotient(dist, small, q, rest);
    SplitBase(base, q, small);
    ChoiceIsNearest(i, a, small, base * small, base + q, rest, dist);
  }

  lemma Quotient(dist: nat, small: nat, q: nat, rest: nat)
    requires small > 0 && q == dist / small && rest == dist % small
    ensures q * small == dist - rest && rest < small
  {
  }

  lemma ChoiceIsNearest(i: Interval, a: Answers, small: nat, product: int, sig: int, b: nat, dist: nat)
    requires Truthful(a, i) && small >= 2 && small % 2 == 0 && product % 2 == 0 && b < small
    requires a.zi - a.deltai / 2 == product + dist - small / 2
    requires sig * small == product + dist - b
    ensures NearestEven(Choice(a, sig, b, dist + small / 2), small, i.Center())
  {
    hide NearestEven, Truthful;
    var g := CenterFractions(i, a);
    ParityDecides(i, a, g, product, dist, small);
    IntegerDecides(i, a, g);
    OneStep(sig, small);
    RoundsTo(i.Center(), g, sig, small, b, sig * small);
    if b == 0 && g <= 0.0 { RoundsDown(i.Center(), g, sig - 1, small, (sig - 1) * small); }
  }

  lemma IntegerDecides(i: Interval, a: Answers, g: real)
    requires Truthful(a, i) && (IsInteger(i.Center()) <==> g == 0.0)
    ensures a.centerInteger <==> g == 0.0
  {
  }

  lemma SplitBase(base: int, q: int, small: nat)
    ensures (base + q) * small == base * small + q * small
  {
  }

  lemma OneStep(sig: int, small: nat)
    ensures (sig - 1) * small == sig * small - small
    ensures (sig + 1) * small == sig * small + small
  {
  }

  lemma ParityDecides(i: Interval, a: Answers, g: real, product: int, dist: nat, small: nat)
    requires Truthful(a, i) && product % 2 == 0 && small % 2 == 0
    requires a.zi - a.deltai / 2 == product + dist - small / 2
    requires i.Center().Floor == a.zi - a.deltai / 2 - (if g < 0.0 then 1 else 0)
    ensures a.centerOdd != ((dist + small / 2) % 2 != 0) <==> g < 0.0
  {
    SameParity(dist, small / 2, product, a.zi - a.deltai / 2);
    CenterBit(i, a);
    hide Truthful;
    OneBelow(a.zi - a.deltai / 2, i.Center().Floor, g < 0.0);
  }

  lemma CenterBit(i: Interval, a: Answers)
    requires Truthful(a, i)
    ensures a.centerOdd <==> i.Center().Floor % 2 == 1
  {
  }

  lemma SameParity(dist: nat, half: nat, product: int, floor: int)
    requires product % 2 == 0 && floor == product + dist - half
    ensures (dist + half) % 2 == floor % 2
  {
    assert dist + half == floor - product + 2 * half;
  }

  lemma OneBelow(n: int, m: int, below: bool)
    requires m == n - (if below then 1 else 0)
    ensures (m % 2 == 1) != (n % 2 != 0) <==> below
  {
  }

  lemma RoundsTo(center: real, g: real, sig: int, small: nat, b: nat, value: int)
    requires small % 2 == 0 && b < small && value == sig * small && -1.0 < g < 1.0
    requires center == (value + b - small / 2) as real + g
    ensures b != 0 ==> NearestEven(sig, small, center)
    ensures b == 0 && g > 0.0 ==> NearestEven(sig, small, center)
    ensures b == 0 && g == 0.0 && sig % 2 == 0 ==> NearestEven(sig, small, center)
  {
    assert value as real - center == (small / 2) as real - b as real - g;
    assert (small / 2) as real == small as real / 2.0;
  }

  lemma RoundsDown(center: real, g: real, sig: int, small: nat, value: int)
    requires small % 2 == 0 && small >= 2 && value == sig * small && -1.0 < g <= 0.0
    requires center == (value + small - small / 2) as real + g
    ensures g < 0.0 || sig % 2 == 0 ==> NearestEven(sig, small, center)
  {
    assert value as real - center == -(small / 2) as real - g;
    assert (small / 2) as real == small as real / 2.0;
  }

  lemma EvenProduct(base: int, small: nat)
    requires base % 2 == 0
    ensures (base * small) % 2 == 0
  {
    var h := base / 2;
    assert base * small == 2 * (h * small);
  }

  /** NearestEven means what it says: nearest of all multiples, and even if there are two. */
  lemma NearestIsClosest(sig: int, small: nat, y: real, k: int)
    requires small > 0 && NearestEven(sig, small, y)
    ensures Distance(sig, small, y) <= Distance(k, small, y)
    ensures k != sig && Distance(k, small, y) == Distance(sig, small, y) ==> sig % 2 == 0
  {
    OneStep(sig, small);
    if k > sig { Steps(k, sig + 1, small); }
    if k < sig { Steps(sig - 1, k, small); }
    CompareDistances(sig * small, k * small, small, y, k > sig);
  }

  lemma CompareDistances(value: int, other: int, small: nat, y: real, above: bool)
    requires -(small as real / 2.0) <= value as real - y <= small as real / 2.0
    requires other == value || (if above then other >= value + small else other <= value - small)
    ensures
      var d, d' := value as real - y, other as real - y;
      && (if d >= 0.0 then d else -d) <= (if d' >= 0.0 then d' else -d')
      && ((if d >= 0.0 then d else -d) == (if d' >= 0.0 then d' else -d') && other != value ==>
           d == small as real / 2.0 || d == -(small as real / 2.0))
  {
  }

  ghost function Distance(k: int, small: nat, y: real): real {
    var d := (k * small) as real - y;
    if d >= 0.0 then d else -d
  }

  ghost predicate IsMultiple(v: real, small: nat) {
    exists k: int :: (k * small) as real == v
  }

  /** The nearest multiple never leaves the closed interval, and is strictly inside unless the interval
      is exactly 10^kappa long and ends at a multiple of 10^kappa. */
  lemma NearestStaysInside(i: Interval, sig: int, small: nat)
    requires small > 0 && small as real <= i.delta && NearestEven(sig, small, i.Center())
    ensures i.Left() <= (sig * small) as real <= i.z
    ensures (i.Left() < (sig * small) as real < i.z) <==> !(i.delta == small as real && IsMultiple(i.z, small))
  {
    OneStep(sig, small);
    if i.delta == small as real {
      if (sig * small) as real == i.Left() {
        assert ((sig + 1) * small) as real == i.z;
      }
      if k: int :| (k * small) as real == i.z {
        BetweenMultiples(sig * small, k, sig, small);
      }
    }
  }

  lemma BetweenMultiples(value: int, k: int, sig: int, small: nat)
    requires small > 0 && value == sig * small
    ensures k * small == value || k * small >= value + small || k * small <= value - small
  {
    OneStep(sig, small);
    if k > sig { Steps(k, sig + 1, small); }
    if k < sig { Steps(sig - 1, k, small); }
  }

  // The method

  lemma DistanceKernels(kappa: nat, small: nat, dist: u32)
    requires Scale(kappa, small) && dist <= 10 * small
    ensures
      var halved := dist / Mask(kappa);
      var (divisible, quotient) := CheckDivisibilityAndDivideByPow5(kappa, halved);
      && quotient == dist / small && (dist % small == 0 <==> dist % Mask(kappa) == 0 && divisible)
    ensures SmallDivisionByPow10(kappa, dist) == dist / small
  {
    hide CheckDivisibilityAndDivideByPow5, SmallDivisionByPow10, Pow;
    FivesAndTens();
    CheckDivisibilityExact(kappa, dist / Mask(kappa));
    SmallDivisionExact(kappa, dist);
    TwoDivisions(kappa, small, dist);
  }

  lemma TwoDivisions(kappa: nat, small: nat, dist: nat)
    requires Scale(kappa, small)
    ensures
      var fives := if kappa == 1 then 5 else 25;
      && dist / Mask(kappa) / fives == dist / small
      && (dist % small == 0 <==> dist % Mask(kappa) == 0 && (dist / Mask(kappa)) % fives == 0)
  {
  }

  /** Step 3, from small_divisor_case_label on. */
  method SmallDivisorCase(kappa: nat, small: nat, a: Answers, quotient: int, r: nat) returns (significand: int)
    requires Scale(kappa, small) && a.deltai / 2 <= r <= 10 * small && small <= a.deltai
    ensures significand == SmallChoice(a, quotient * 10, r - a.deltai / 2 + small / 2, small)
  {
    hide CheckDivisibilityAndDivideByPow5, SmallDivisionByPow10;
    significand := quotient * 10;
    var dist: u32 := r - a.deltai / 2 + small / 2;
    DistanceKernels(kappa, small, dist);
    if dist % Mask(kappa) == 0 {
      var approxYParity := (dist + small / 2) % 2 != 0;
      dist := dist / Mask(kappa);
      var (divisible, fifth) := CheckDivisibilityAndDivideByPow5(kappa, dist);
      if divisible {
        significand := significand + fifth;
        if a.centerOdd != approxYParity {
          significand := significand - 1;
        } else if a.centerInteger {
          significand := ToEven(significand);
        }
      } else {
        significand := significand + fifth;
      }
    } else {
      significand := significand + SmallDivisionByPow10(kappa, dist);
    }
  }

  /** The quotient by 10^(kappa+1) and the remainder. */
  method DivideByBig(kappa: nat, small: nat, zi: u64) returns (quotient: nat, r: nat)
    requires Scale(kappa, small) && zi <= 0x100_0000_0000_0000 * 125
    ensures zi == BigMultiple(quotient, small) + r && r < 10 * small
  {
    hide DivideBy1000;
    DivideBy1000Exact(zi);
    quotient := if kappa == 2 then DivideBy1000(zi) else zi / 100;
    r := zi - (if kappa == 2 then 1000 else 100) * quotient;
  }

  function BigMultiple(q: int, small: nat): int {
    q * (10 * small)
  }

  method ComputeNearest(kappa: nat, small: nat, a: Answers, leftClosed: bool, rightClosed: bool, ghost i: Interval)
    returns (significand: int, early: bool)
    requires i.leftClosed == leftClosed && i.rightClosed == rightClosed
    requires Scale(kappa, small) && InRange(i, small) && Truthful(a, i) && a.zi <= 0x100_0000_0000_0000 * 125
    ensures early <==> MultipleInside(i, 10 * small)
    ensures early ==> significand > 0 && i.Has(BigMultiple(significand, small) as real)
    ensures !early ==> NearestEven(significand, small, i.Center())
  {
    hide Truthful, MultipleInside, NearestEven, SmallChoice, BigMultiple;
    var r: nat;
    significand, r := DivideByBig(kappa, small, a.zi);
    Deltas(i, a, small);
    DecideBig(i, a, small, significand, r);
    early := true;
    if r > a.deltai {
      early := false;
    } else if r < a.deltai {
      if r == 0 && !rightClosed && a.rightInteger {
        OneLess(significand, small);
        significand := significand - 1;
        r := 10 * small;
        early := false;
      }
    } else {
      if (!leftClosed || !a.leftInteger) && !a.leftOdd {
        early := false;
      }
    }
    if !early {
      NearestFromHere(kappa, small, i, a, significand, r);
      significand := SmallDivisorCase(kappa, small, a, significand, r);
    }
  }

  lemma OneLess(q: int, small: nat)
    ensures BigMultiple(q - 1, small) == BigMultiple(q, small) - 10 * small
  {
    OneStep(q, 10 * small);
  }

  lemma NearestFromHere(kappa: nat, small: nat, i: Interval, a: Answers, q: int, r: nat)
    requires Scale(kappa, small) && Truthful(a, i) && a.zi == BigMultiple(q, small) + r && a.deltai / 2 <= r
    ensures NearestEven(SmallChoice(a, q * 10, r - a.deltai / 2 + small / 2, small), small, i.Center())
  {
    hide Truthful, NearestEven, SmallChoice, BigMultiple;
    TenTimes(q, small);
    TenIsEven(q);
    SmallChoiceIsNearest(i, a, kappa, small, q * 10, r, r - a.deltai / 2 + small / 2);
  }

  lemma TenIsEven(q: int)
    ensures (q * 10) % 2 == 0
  {
  }

  lemma TenTimes(q: int, small: nat)
    ensures (q * 10) * small == BigMultiple(q, small)
  {
    var tenfold := 10 * small;
    calc {
      q * tenfold;
      q * (small * 10);
      (q * small) * 10;
      (q * 10) * small;
    }
  }

  lemma Deltas(i: Interval, a: Answers, small: nat)
    requires Truthful(a, i) && InRange(i, small)
    ensures small <= a.deltai < 10 * small && small <= a.zi
  {
  }

  lemma DecideBig(i: Interval, a: Answers, small: nat, q: nat, r: nat)
    requires Truthful(a, i) && InRange(i, small) && a.zi == BigMultiple(q, small) + r && r < 10 * small
    requires small > 0
    ensures MultipleInside(i, 10 * small) <==> TakesBig(a, i, r)
    ensures TakesBig(a, i, r) ==> q > 0 && i.Has(BigMultiple(q, small) as real)
  {
    hide Truthful, BigMultiple;
    Deltas(i, a, small);
    BigIsEven(q, small);
    BigCandidate(i, a, r, BigMultiple(q, small));
    if MultipleInside(i, 10 * small) {
      var k: int :| i.Has((k * (10 * small)) as real);
      BigIs(k, small);
      BigIs(q, small);
      OnlyCandidate(i, a, 10 * small, q, r, k);
    }
    if i.Has(BigMultiple(q, small) as real) {
      BigIs(q, small);
      assert i.Has((q * (10 * small)) as real);
    }
  }

  lemma BigIs(q: int, small: nat)
    ensures BigMultiple(q, small) == q * (10 * small)
  {
  }

  lemma BigIsEven(q: nat, small: nat)
    ensures 0 <= BigMultiple(q, small) && BigMultiple(q, small) % 2 == 0 && (q == 0 ==> BigMultiple(q, small) == 0)
  {
    assert q * (10 * small) == 2 * (q * (5 * small));
  }
}
