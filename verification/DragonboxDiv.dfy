/** Division without dividing: modular inverses, divisibility tests, and multiply-and-shift division.

    Products and remainders go through Times and Mod so that a proof can treat them as opaque where
    only their laws matter. */
module DragonboxDiv {
  import opened Arith
  import opened DragonboxWide

  function Times(a: nat, b: nat): (c: nat)
    ensures a > 0 && b > 0 ==> c > 0
  {
    a * b
  }

  function Mod(n: nat, m: nat): (r: nat)
    requires m > 0
    ensures r < m
  {
    n % m
  }

  function Pow(a: nat, k: nat): (p: nat)
    ensures a > 0 ==> p > 0
  {
    if k == 0 then 1 else Times(a, Pow(a, k - 1))
  }

  // Laws of Times and Mod

  lemma Comm(a: nat, b: nat)
    ensures Times(a, b) == Times(b, a)
  {
  }

  lemma Assoc(a: nat, b: nat, c: nat)
    ensures Times(a, Times(b, c)) == Times(Times(a, b), c)
  {
    assert a * (b * c) == (a * b) * c;
  }

  lemma One(a: nat)
    ensures Times(a, 1) == a == Times(1, a)
  {
  }

  /** (ab)(cd) = (ac)(bd) */
  lemma Exchange(a: nat, b: nat, c: nat, d: nat)
    ensures Times(Times(a, b), Times(c, d)) == Times(Times(a, c), Times(b, d))
  {
    hide Times;
    Assoc(Times(a, b), c, d);
    Assoc(a, b, c);
    Comm(b, c);
    Assoc(a, c, b);
    Assoc(Times(a, c), b, d);
  }

  lemma Mono(a: nat, b: nat, c: nat)
    requires a <= b
    ensures Times(c, a) <= Times(c, b)
  {
    MulMono(a, b, c);
  }

  lemma ModSmall(n: nat, m: nat)
    requires n < m
    ensures Mod(n, m) == n
  {
  }

  lemma ModOf(n: nat, m: nat) returns (k: nat)
    requires m > 0
    ensures n == Times(k, m) + Mod(n, m)
  {
    k := n / m;
  }

  lemma ModIs(n: nat, k: nat, m: nat, r: nat)
    requires r < m && n == Times(k, m) + r
    ensures Mod(n, m) == r
  {
    DivModUnique(n, k, r, m);
  }

  lemma ModAddMultiple(r: nat, k: nat, m: nat)
    requires m > 0
    ensures Mod(Times(k, m) + r, m) == Mod(r, m)
  {
    ModDrop(r, k, m);
  }

  lemma Spread(a: nat, j: nat, m: nat, r: nat)
    ensures Times(a, Times(j, m) + r) == Times(Times(a, j), m) + Times(a, r)
  {
    assert a * (j * m + r) == (a * j) * m + a * r;
  }

  /** Reducing a factor modulo m does not change a product modulo m. */
  lemma ModFactor(a: nat, x: nat, m: nat)
    requires m > 0
    ensures Mod(Times(a, Mod(x, m)), m) == Mod(Times(a, x), m)
  {
    hide Times, Mod;
    var j := ModOf(x, m);
    Spread(a, j, m, Mod(x, m));
    ModAddMultiple(Times(a, Mod(x, m)), Times(a, j), m);
  }

  /** Reducing modulo a multiple of m first does not change a number modulo m. */
  lemma ModMod(x: nat, k: nat, m: nat)
    requires m > 0 && k > 0
    ensures Mod(Mod(x, Times(k, m)), m) == Mod(x, m)
  {
    hide Times, Mod;
    var j := ModOf(x, Times(k, m));
    Assoc(j, k, m);
    ModAddMultiple(Mod(x, Times(k, m)), Times(j, k), m);
  }

  lemma ModMulOnes(x: nat, y: nat, m: nat)
    requires m > 1 && Mod(x, m) == 1 && Mod(y, m) == 1
    ensures Mod(Times(x, y), m) == 1
  {
    hide Times, Mod;
    ModFactor(x, y, m);
    One(x);
  }

  lemma {:induction false} PowAdd(a: nat, j: nat, k: nat)
    ensures Pow(a, j + k) == Times(Pow(a, j), Pow(a, k))
  {
    hide Times;
    if j == 0 {
      One(Pow(a, k));
    } else {
      PowAdd(a, j - 1, k);
      Assoc(a, Pow(a, j - 1), Pow(a, k));
    }
  }

  lemma {:induction false} PowOdd(a: nat, k: nat)
    requires a % 2 == 1
    ensures Pow(a, k) % 2 == 1
  {
    if k > 0 {
      PowOdd(a, k - 1);
      OddTimesOdd(a, Pow(a, k - 1));
    }
  }

  lemma OddTimesOdd(a: nat, b: nat)
    requires a % 2 == 1 && b % 2 == 1
    ensures Times(a, b) % 2 == 1
  {
    var i, j := a / 2, b / 2;
    assert (2 * i + 1) * (2 * j + 1) == 2 * (2 * (i * j) + i + j) + 1;
  }

  lemma OddModEven(x: nat, h: nat)
    requires h > 0 && x % 2 == 1
    ensures Mod(x, 2 * h) != 0
  {
    var k := ModOf(x, 2 * h);
    assert k * (2 * h) == 2 * (k * h);
  }

  // Modular inverses

  predicate Inverse(a: nat, inv: nat, m: nat)
    requires m > 1
  {
    Mod(Times(a, inv), m) == 1
  }

  lemma SquareAlgebra(e: nat, c: nat, h: nat)
    requires e == Times(c, 2 * h) + 1
    ensures Times(e, e) == Times(c * c * h + c, 4 * h) + 1
  {
    var d := c * h;
    assert e == 2 * d + 1;
    assert e * e == 4 * (d * d) + 4 * d + 1;
    assert c * c * h * h == d * d;
  }

  /** Squaring a number that is 1 modulo 2^i makes it 1 modulo 2^(i+1). */
  lemma SquareLifts(e: nat, h: nat)
    requires h > 0 && Mod(e, 2 * h) == 1
    ensures Mod(Times(e, e), 4 * h) == 1
  {
    hide Times, Mod;
    var c := ModOf(e, 2 * h);
    SquareAlgebra(e, c, h);
    ModIs(Times(e, e), c * c * h + c, 4 * h, 1);
  }

  /** One turn of the loop in modular_inverse doubles the modulus the inverse is good for. */
  lemma InverseStep(a: nat, inv: nat, i: nat, word: nat)
    requires 1 <= i < word && Pow2(i) > 1 && Inverse(a, inv, Pow2(i))
    ensures Pow2(i + 1) > 1 && Inverse(a, Mod(Times(Times(inv, inv), a), Pow2(word)), Pow2(i + 1))
  {
    hide Times, Mod;
    var h, k, w := Pow2(i - 1), Pow2(word - (i + 1)), Times(Times(inv, inv), a);
    assert Pow2(i) == 2 * h && Pow2(i + 1) == 4 * h;
    SquareLifts(Times(a, inv), h);
    assert Times(a, w) == Times(Times(a, inv), Times(a, inv)) by {
      Exchange(a, inv, a, inv);
      Assoc(Times(a, a), inv, inv);
      Comm(Times(inv, inv), a);
      Assoc(a, a, Times(inv, inv));
      Assoc(Times(a, a), inv, inv);
    }
    Pow2Times(word - (i + 1), i + 1);
    ModFactor(a, w, 4 * h);
    ModMod(w, k, 4 * h);
    ModFactor(a, Mod(w, Pow2(word)), 4 * h);
  }

  lemma Pow2Times(d: nat, e: nat)
    ensures Pow2(d + e) == Times(Pow2(d), Pow2(e))
  {
    Pow2Add(d, e);
  }

  /** modular_inverse, in words of the given width. */
  method ModularInverse(a: nat, bitWidth: nat, word: nat) returns (inv: nat)
    requires a % 2 == 1 && 1 <= bitWidth <= word
    ensures Pow2(bitWidth) > 1 && inv < Pow2(bitWidth) && Inverse(a, inv, Pow2(bitWidth))
  {
    inv := 1;
    var i := 1;
    assert Pow2(1) == 2;
    One(a);
    while i < bitWidth
      invariant 1 <= i <= bitWidth && Pow2(i) > 1 && inv < Pow2(word)
      invariant Inverse(a, inv, Pow2(i))
    {
      InverseStep(a, inv, i, word);
      inv := Mod(Times(Times(inv, inv), a), Pow2(word));
      i := i + 1;
    }
    if bitWidth < word {
      ModFactor(a, inv, Pow2(bitWidth));
      inv := Mod(inv, Pow2(bitWidth));
    }
  }

  /** The quotient of a multiple of d, from the inverse of d. */
  lemma MultipleTimesInverse(d: nat, inv: nat, m: nat, q: nat)
    requires m > 1 && Inverse(d, inv, m) && q < m
    ensures Mod(Times(Times(q, d), inv), m) == q
  {
    hide Times, Mod;
    Assoc(q, d, inv);
    ModFactor(q, Times(d, inv), m);
    One(q);
    ModSmall(q, m);
  }

  /** d times the residue of x * inv is x again, modulo m. */
  lemma ResidueTimes(d: nat, inv: nat, m: nat, x: nat)
    requires m > 1 && Inverse(d, inv, m) && x < m
    ensures Mod(Times(d, Mod(Times(x, inv), m)), m) == x
  {
    hide Times, Mod;
    ModFactor(d, Times(x, inv), m);
    Assoc(d, x, inv);
    Comm(d, x);
    MultipleTimesInverse(d, inv, m, x);
  }

  lemma DivTimes(x: nat, d: nat)
    requires d > 0
    ensures x == Times(x / d, d) + x % d && x / d <= x
    ensures x % d == 0 <==> Times(x / d, d) == x
  {
    MulMono(1, d, x / d);
  }

  lemma ExactDivision(d: nat, v: nat)
    requires d > 0
    ensures Times(d, v) % d == 0 && Times(d, v) / d == v
  {
    DivModUnique(Times(d, v), v, 0, d);
  }

  lemma QuotientBound(x: nat, d: nat, m: nat)
    requires d > 0 && x < m
    ensures x / d <= (m - 1) / d && Times(d, (m - 1) / d) < m
  {
    if x / d > (m - 1) / d {
      MulMono((m - 1) / d + 1, x / d, d);
    }
  }

  /** The divisibility test: multiplying by the inverse of d modulo m sends exactly the multiples of
      d to quotients, which are small, and everything else above them. */
  lemma DivisibleIff(d: nat, inv: nat, m: nat, x: nat)
    requires d > 0 && m > 1 && Inverse(d, inv, m) && x < m
    ensures Mod(Times(x, inv), m) <= (m - 1) / d <==> x % d == 0
    ensures x % d == 0 ==> Mod(Times(x, inv), m) == x / d
  {
    hide Times, Mod, Inverse;
    var v, top := Mod(Times(x, inv), m), (m - 1) / d;
    QuotientBound(x, d, m);
    if x % d == 0 {
      DivTimes(x, d);
      MultipleTimesInverse(d, inv, m, x / d);
    }
    if v <= top {
      Mono(v, top, d);
      ResidueTimes(d, inv, m, x);
      ModSmall(Times(d, v), m);
      ExactDivision(d, v);
    }
  }

  /** One row of the table: an inverse of a^i, and the largest quotient by a^i. */
  predicate Row(a: nat, i: nat, m: nat, modInv: nat, maxQuotient: nat)
    requires a > 0 && m > 1
  {
    && modInv < m && Inverse(Pow(a, i), modInv, m)
    && (Pow(a, i) < m ==> maxQuotient == (m - 1) / Pow(a, i))
  }

  /** table_holder: powers of the inverse, and the largest quotients, of a modulo 2^word. */
  method MakeTable(a: nat, size: nat, word: nat) returns (modInv: array<nat>, maxQuotients: array<nat>)
    requires a % 2 == 1 && word >= 1
    ensures modInv.Length == size == maxQuotients.Length && Pow2(word) > 1
    ensures forall i :: 0 <= i < size ==> Row(a, i, Pow2(word), modInv[i], maxQuotients[i])
  {
    hide Times, Mod, Inverse, Pow;
    var m := Pow2(word);
    assert m == 2 * Pow2(word - 1);
    var inverse := ModularInverse(a, word, word);
    modInv, maxQuotients := new nat[size], new nat[size];
    FirstRow(a, m);
    var powInv: nat, powA: nat := 1, 1;
    for i := 0 to size
      invariant powInv < m && Inverse(Pow(a, i), powInv, m) && powA == Mod(Pow(a, i), m)
      invariant forall k :: 0 <= k < i ==> Row(a, k, m, modInv[k], maxQuotients[k])
    {
      TableStep(a, inverse, i, powInv, m);
      modInv[i] := powInv;
      maxQuotients[i] := (m - 1) / powA;
      ModSmallIf(Pow(a, i), m);
      powInv := Mod(Times(powInv, inverse), m);
      powA := Mod(Times(powA, a), m);
    }
  }

  lemma ModSmallIf(n: nat, m: nat)
    requires m > 0
    ensures n < m ==> Mod(n, m) == n
  {
  }

  lemma FirstRow(a: nat, m: nat)
    requires m > 1
    ensures Inverse(Pow(a, 0), 1, m) && Mod(Pow(a, 0), m) == 1
  {
  }

  lemma TableStep(a: nat, inv: nat, i: nat, powInv: nat, m: nat)
    requires a % 2 == 1 && m > 1 && m % 2 == 0 && Inverse(a, inv, m) && Inverse(Pow(a, i), powInv, m)
    ensures Mod(Pow(a, i), m) != 0
    ensures Inverse(Pow(a, i + 1), Mod(Times(powInv, inv), m), m)
    ensures Mod(Times(Mod(Pow(a, i), m), a), m) == Mod(Pow(a, i + 1), m)
  {
    hide Times, Mod;
    PowOdd(a, i);
    OddModEven(Pow(a, i), m / 2);
    Comm(powInv, inv);
    Exchange(a, Pow(a, i), inv, powInv);
    ModMulOnes(Times(a, inv), Times(Pow(a, i), powInv), m);
    ModFactor(Pow(a, i + 1), Times(powInv, inv), m);
    ModFactor(a, Pow(a, i), m);
    Comm(a, Mod(Pow(a, i), m));
  }

  // Divisions by small powers of ten and five

  /** check_divisibility_and_divide_by_pow5: is n divisible by 5^N, and floor(n / 5^N).  The masks and
      shifts are written as the powers of two they stand for. */
  function CheckDivisibilityAndDivideByPow5(N: nat, n: u32): (bool, u32) {
    if N == 1
    then (Mul32(n, 0xcccd) % 0x1_0000 <= 0x3333, Mul32(n, 0xcccd) / 0x4_0000)
    else (Mul32(n, 0xa429) % 0x100 <= 0x0a, Mul32(n, 0xa429) / 0x10_0000)
  }

  lemma FivesAndTens()
    ensures Pow(5, 1) == 5 && Pow(5, 2) == 25 && Pow(10, 1) == 10 && Pow(10, 2) == 100
  {
  }

  lemma CheckDivisibilityExact(N: nat, n: u32)
    requires (N == 1 && n <= 50) || (N == 2 && n <= 250)
    ensures CheckDivisibilityAndDivideByPow5(N, n) == (n % Pow(5, N) == 0, n / Pow(5, N))
  {
    hide Pow, Mul32;
    FivesAndTens();
    if N == 1 {
      Pow5Once(n);
    } else {
      Pow5Squared(n);
    }
  }

  lemma Pow5Once(n: u32)
    requires n <= 50
    ensures Mul32(n, 0xcccd) % 0x1_0000 <= 0x3333 <==> n % 5 == 0
    ensures Mul32(n, 0xcccd) / 0x4_0000 == n / 5
  {
    var q, r := n / 5, n % 5;
    MulFits(n, 0xcccd);
    assert n * 0xcccd == q * 0x4_0000 + (q + r * 0xcccd);
    DivModUnique(n * 0xcccd, q, q + r * 0xcccd, 0x4_0000);
    FifthsLow(q, r);
  }

  lemma MulFits(n: u32, magic: nat)
    requires n <= 1000 && magic < 0x1_0000
    ensures Mul32(n, magic) == n * magic
  {
    hide Mul32;
    MulMono(n, 1000, magic);
    NoOverflow(n, magic, n * magic);
  }

  lemma NoOverflow(n: u32, magic: nat, product: nat)
    requires product == n * magic && product < TWO32
    ensures Mul32(n, magic) == product
  {
    ModUnchanged(product);
  }

  lemma ModUnchanged(product: nat)
    requires product < TWO32
    ensures product % TWO32 == product
  {
  }

  /** The low 16 bits of (5q + r) * 0xcccd. */
  lemma FifthsLow(q: nat, r: nat)
    requires q <= 10 && r < 5
    ensures (q * 0x4_0000 + (q + r * 0xcccd)) % 0x1_0000 <= 0x3333 <==> r == 0
  {
    var k := if r == 0 then 0 else if r == 1 then 0 else if r == 2 then 1 else if r == 3 then 2 else 3;
    var low := q + r * 0xcccd - k * 0x1_0000;
    assert q * 0x4_0000 + (q + r * 0xcccd) == (4 * q + k) * 0x1_0000 + low;
    DivModUnique(q * 0x4_0000 + (q + r * 0xcccd), 4 * q + k, low, 0x1_0000);
  }

  lemma Pow5Squared(n: u32)
    requires n <= 250
    ensures Mul32(n, 0xa429) % 0x100 <= 0x0a <==> n % 25 == 0
    ensures Mul32(n, 0xa429) / 0x10_0000 == n / 25
  {
    var q, r := n / 25, n % 25;
    MulFits(n, 0xa429);
    assert n * 0xa429 == q * 0x10_0000 + (q * 2049 + r * 0xa429);
    DivModUnique(n * 0xa429, q, q * 2049 + r * 0xa429, 0x10_0000);
    assert n * 0xa429 == (q * 4104 + r * 164) * 0x100 + (q + r * 41);
    ModDrop(q + r * 41, q * 4104 + r * 164, 0x100);
    assert q <= 10 && (q == 10 ==> r == 0);
    TwentyFifthsLow(q, r);
  }

  /** The low 8 bits of (25q + r) * 0xa429. */
  lemma TwentyFifthsLow(q: nat, r: nat)
    requires q <= 10 && r < 25 && (q == 10 ==> r == 0)
    ensures (q + r * 41) % 0x100 <= 0x0a <==> r == 0
  {
    var k := if r <= 6 then 0 else if r <= 12 then 1 else if r <= 18 then 2 else 3;
    DivModUnique(q + r * 41, k, q + r * 41 - k * 0x100, 0x100);
  }

  function SmallDivisionByPow10(N: nat, n: u32): u32 {
    if N == 1 then Mul32(n, 0xcccd) / 0x8_0000 else Mul32(n, 0xa3d8) / 0x40_0000
  }

  lemma SmallDivisionExact(N: nat, n: u32)
    requires (N == 1 && n <= 100) || (N == 2 && n <= 1000)
    ensures SmallDivisionByPow10(N, n) == n / Pow(10, N)
  {
    FivesAndTens();
    var d := if N == 1 then 10 else 100;
    var q, r := n / d, n % d;
    assert N == 1 ==> n * 0xcccd == q * 0x8_0000 + (q * 2 + r * 0xcccd);
    assert N == 2 ==> n * 0xa3d8 == q * 0x40_0000 + (q * 96 + r * 0xa3d8);
  }

  /** divide_by_pow10<3, 56, 3>: the 64-bit division by 1000. */
  function DivideBy1000(n: u64): u64 {
    Umul128Upper64(n, 0x8312_6e97_8d4f_df3c) / 512
  }

  lemma DivideBy1000Exact(n: u64)
    requires n <= 0x100_0000_0000_0000 * 125
    ensures DivideBy1000(n) == n / 1000
  {
    hide Umul128Upper64;
    var magic := 0x8312_6e97_8d4f_df3c;
    Umul128Exact(n, magic);
    DivDiv(n * magic, TWO64, 512);
    MagicThousand(n);
  }

  lemma MagicThousand(n: nat)
    requires n <= 0x100_0000_0000_0000 * 125
    ensures n * 0x8312_6e97_8d4f_df3c / (TWO64 * 512) == n / 1000
  {
    var q, r := n / 1000, n % 1000;
    var product := n * 0x8312_6e97_8d4f_df3c;
    assert product * 1000 == n * (TWO64 * 512) + 608 * n;
    var rest := product - q * (TWO64 * 512);
    assert rest * 1000 == r * (TWO64 * 512) + 608 * n;
    DivModUnique(product, q, rest, TWO64 * 512);
  }
}
