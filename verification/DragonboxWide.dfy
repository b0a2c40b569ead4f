/** Machine words and the wide multiplications of dragonbox.h, in their portable forms. */
module DragonboxWide {
  import opened Arith

  const TWO32: int := 0x1_0000_0000
  const TWO64: int := 0x1_0000_0000_0000_0000
  const TWO128: int := 0x1_0000_0000_0000_0000_0000_0000_0000_0000

  type u32 = x: int | 0 <= x < TWO32
  type u64 = x: int | 0 <= x < TWO64

  // Conversions and operators that wrap around

  function Low32(x: int): u32 {
    x % TWO32
  }

  function High32(x: u64): u32 {
    x / TWO32
  }

  function Add64(x: int, y: int): u64 {
    (x + y) % TWO64
  }

  function Mul64(x: int, y: int): u64 {
    (x * y) % TWO64
  }

  function Mul32(x: int, y: int): u32 {
    (x * y) % TWO32
  }

  datatype U128 = U128(high: u64, low: u64) {
    function Value(): nat {
      high * TWO64 + low
    }

    /** operator+= */
    function Plus(n: u64): U128 {
      var sum := Add64(low, n);
      U128(Add64(high, if sum < low then 1 else 0), sum)
    }
  }

  /** umul64: the product of two 32-bit words always fits. */
  function Umul64(x: u32, y: u32): (product: u64)
    ensures product == x * y <= TWO64 - 2 * TWO32 + 1
  {
    Bounded(x, y, TWO32);
    x * y
  }

  lemma Bounded(x: nat, y: nat, bound: nat)
    requires x < bound && y < bound
    ensures x * y <= (bound - 1) * (bound - 1)
  {
    MulMono(x, bound - 1, y);
    MulMono(y, bound - 1, bound - 1);
  }

  function Intermediate(bd: u64, ad: u64, bc: u64): u64 {
    High32(bd) + Low32(ad) + Low32(bc)
  }

  function Upper(ac: u64, bc: u64, ad: u64, bd: u64): u64 {
    Add64(Add64(Add64(ac, High32(Intermediate(bd, ad, bc))), High32(ad)), High32(bc))
  }

  function Lower(bc: u64, ad: u64, bd: u64): u64 {
    Add64(Mul64(Intermediate(bd, ad, bc), TWO32), Low32(bd))
  }

  function Umul128Upper64(x: u64, y: u64): u64 {
    var a, b, c, d := High32(x), Low32(x), High32(y), Low32(y);
    Upper(Umul64(a, c), Umul64(b, c), Umul64(a, d), Umul64(b, d))
  }

  function Umul128(x: u64, y: u64): U128 {
    var a, b, c, d := High32(x), Low32(x), High32(y), Low32(y);
    var ac, bc, ad, bd := Umul64(a, c), Umul64(b, c), Umul64(a, d), Umul64(b, d);
    U128(Upper(ac, bc, ad, bd), Lower(bc, ad, bd))
  }

  /** The schoolbook identity behind umul128, on the four 32-bit halves. */
  lemma Schoolbook(a: nat, b: nat, c: nat, d: nat, base: nat)
    ensures (a * base + b) * (c * base + d) == a * c * base * base + (a * d + b * c) * base + b * d
  {
    calc {
      (a * base + b) * (c * base + d);
      (a * base) * (c * base) + (a * base) * d + b * (c * base) + b * d;
      a * c * base * base + (a * d) * base + (b * c) * base + b * d;
    }
  }

  /** Adding up the four partial products column by column, when only their sizes are known. */
  lemma Columns(ac: u64, bc: u64, ad: u64, bd: u64, total: nat)
    requires total == ac * TWO64 + (ad + bc) * TWO32 + bd < TWO128
    ensures total / TWO64 == Upper(ac, bc, ad, bd) && total % TWO64 == Lower(bc, ad, bd)
  {
    var mid := Intermediate(bd, ad, bc);
    var low := Low32(mid) * TWO32 + Low32(bd);
    var high := ac + High32(mid) + High32(ad) + High32(bc);
    HighLow(ad);
    HighLow(bc);
    HighLow(bd);
    HighLow(mid);
    assert total == high * TWO64 + low;
    DivModUnique(mid * TWO32, High32(mid), Low32(mid) * TWO32, TWO64);
    NoWrap(ac, High32(mid), High32(ad), High32(bc));
    DivModUnique(total, high, low, TWO64);
  }

  lemma HighLow(x: u64)
    ensures x == High32(x) * TWO32 + Low32(x)
  {
  }

  lemma NoWrap(a: nat, b: nat, c: nat, d: nat)
    requires a + b + c + d < TWO64
    ensures Add64(Add64(Add64(a, b), c), d) == a + b + c + d
  {
  }

  lemma Halves(a: u32, b: u32, c: u32, d: u32, x: u64, y: u64)
    requires x == a * TWO32 + b && y == c * TWO32 + d
    ensures x * y == Umul64(a, c) * TWO64 + (Umul64(a, d) + Umul64(b, c)) * TWO32 + Umul64(b, d) < TWO128
  {
    Schoolbook(a, b, c, d, TWO32);
    Bounded(x, y, TWO64);
    var ac := a * c;
    assert a * c * TWO32 * TWO32 == ac * TWO64;
  }

  /** umul128 is the exact 128-bit product: none of its additions wraps. */
  lemma Umul128Exact(x: u64, y: u64)
    ensures Umul128(x, y).Value() == x * y < TWO128
    ensures Umul128Upper64(x, y) == x * y / TWO64
    ensures Umul128(x, y).low == (x * y) % TWO64
  {
    var a, b, c, d := High32(x), Low32(x), High32(y), Low32(y);
    Halves(a, b, c, d, x, y);
    var total := x * y;
    Columns(Umul64(a, c), Umul64(b, c), Umul64(a, d), Umul64(b, d), total);
    assert total == (total / TWO64) * TWO64 + total % TWO64;
  }

  // Slices of the 192-bit and 96-bit products

  function Umul192Upper64(x: u64, y: U128): u64 {
    Umul128(x, y.high).Plus(Umul128Upper64(x, y.low)).high
  }

  function Umul192Middle64(x: u64, y: U128): u64 {
    Add64(Mul64(x, y.high), Umul128Upper64(x, y.low))
  }

  function Umul96Upper32(x: u32, y: u64): u32 {
    var bc, bd := Umul64(x, High32(y)), Umul64(x, Low32(y));
    Low32(High32(Add64(High32(bd), bc)))
  }

  function Umul96Lower64(x: u32, y: u64): u64 {
    Mul64(x, y)
  }

  /** operator+= adds exactly whenever the sum fits in 128 bits. */
  lemma PlusExact(x: U128, n: u64)
    requires x.Value() + n < TWO128
    ensures x.Plus(n).Value() == x.Value() + n
  {
  }

  lemma HighPart(v: U128)
    ensures v.high == v.Value() / TWO64
  {
  }

  lemma SumFits(x: u64, y: u64, low: u64)
    ensures x * y + low < TWO128
  {
    Bounded(x, y, TWO64);
  }

  lemma Slices(high: nat, product: nat, total: nat)
    requires total == high * TWO64 + product
    ensures total / TWO64 == high + product / TWO64
    ensures total / TWO128 == (high + product / TWO64) / TWO64
  {
  }

  lemma Distribute(x: nat, high: nat, low: nat)
    ensures x * (high * TWO64 + low) == (x * high) * TWO64 + x * low
  {
  }

  lemma PlusHigh(g: U128, low: u64)
    requires g.Value() + low < TWO128
    ensures g.Plus(low).high == (g.Value() + low) / TWO64
  {
    PlusExact(g, low);
    HighPart(g.Plus(low));
  }

  lemma Umul192UpperExact(x: u64, y: U128)
    ensures Umul192Upper64(x, y) == x * y.Value() / TWO128
  {
    hide Umul128Upper64, Umul128;
    Umul128Exact(x, y.high);
    Umul128Exact(x, y.low);
    SumFits(x, y.high, Umul128Upper64(x, y.low));
    PlusHigh(Umul128(x, y.high), Umul128Upper64(x, y.low));
    var high, product := x * y.high, x * y.low;
    Distribute(x, y.high, y.low);
    Slices(high, product, x * y.Value());
  }

  lemma Umul192MiddleExact(x: u64, y: U128)
    ensures Umul192Middle64(x, y) == (x * y.Value() / TWO64) % TWO64
  {
    hide Umul128Upper64, Umul128;
    Umul128Exact(x, y.low);
    Distribute(x, y.high, y.low);
    MiddleOf(x * y.high, x * y.low, x * y.Value(), Umul128Upper64(x, y.low));
  }

  lemma MiddleOf(high: nat, product: nat, total: nat, low: u64)
    requires total == high * TWO64 + product && low == product / TWO64
    ensures Add64(high % TWO64, low) == (total / TWO64) % TWO64
  {
    Slices(high, product, total);
    MiddleSum(high, low);
  }

  lemma MiddleSum(high: nat, low: u64)
    ensures Add64(high % TWO64, low) == (high + low) % TWO64
  {
    ModAdd(high, low, TWO64);
  }

  lemma TwoColumns(bc: nat, bd: nat, total: nat)
    requires bc <= TWO64 - 2 * TWO32 + 1 && bd < TWO64 && total == bc * TWO32 + bd
    ensures total / TWO64 == Low32(High32(Add64(High32(bd), bc)))
  {
    var mid := High32(bd) + bc;
    assert total == High32(mid) * TWO64 + (Low32(mid) * TWO32 + Low32(bd));
  }

  lemma Umul96Exact(x: u32, y: u64)
    ensures Umul96Upper32(x, y) == x * y / TWO64
    ensures Umul96Lower64(x, y) == (x * y) % TWO64
  {
    var c, d := High32(y), Low32(y);
    var total := x * y;
    assert total == (x * c) * TWO32 + x * d by {
      Schoolbook(0, x, c, d, TWO32);
    }
    TwoColumns(Umul64(x, c), Umul64(x, d), total);
  }

  // compute_mul, compute_mul_parity and compute_delta (binary64)

  function ComputeMul(u: u64, cache: U128): u64 {
    Umul192Upper64(u, cache)
  }

  function ComputeDelta(cache: U128, betaMinus1: nat): u32
    requires betaMinus1 < 64
  {
    Low32(cache.high / Pow2(63 - betaMinus1))
  }

  predicate ComputeMulParity(twoF: u64, cache: U128, betaMinus1: nat)
    requires 1 <= betaMinus1 < 64
  {
    (Umul192Middle64(twoF, cache) / Pow2(64 - betaMinus1)) % 2 != 0
  }

  lemma Pow2At16()
    ensures Pow2(16) == 0x1_0000
  {
    assert Pow2(4) == 16;
    Pow2Add(4, 4);
    Pow2Add(8, 8);
  }

  lemma Pow2At64()
    ensures Pow2(32) == TWO32 && Pow2(64) == TWO64 && Pow2(128) == TWO128
  {
    hide Pow2;
    Pow2At16();
    Pow2Add(16, 16);
    Pow2Add(32, 32);
    Pow2Add(64, 64);
  }

  /** The parity compute_mul_parity reads off the middle word is the parity of the number that
      compute_mul would return for the same factor. */
  lemma ParityOfComputeMul(twoF: u64, cache: U128, betaMinus1: nat)
    requires 1 <= betaMinus1 < 64 && twoF * Pow2(betaMinus1) < TWO64
    ensures ComputeMulParity(twoF, cache, betaMinus1) <==>
      ComputeMul(twoF * Pow2(betaMinus1), cache) % 2 == 1
    ensures ComputeMul(twoF * Pow2(betaMinus1), cache) == twoF * cache.Value() / Pow2(128 - betaMinus1)
  {
    hide Umul192Upper64, Umul192Middle64, Umul128Upper64, Umul128;
    ComputeMulShifted(twoF, cache, betaMinus1);
    Umul192MiddleExact(twoF, cache);
    ParityFrom(Umul192Middle64(twoF, cache), twoF * cache.Value(), betaMinus1);
  }

  lemma ParityFrom(middle: u64, n: nat, betaMinus1: nat)
    requires 1 <= betaMinus1 < 64 && middle == (n / TWO64) % TWO64
    ensures (middle / Pow2(64 - betaMinus1)) % 2 == (n / Pow2(128 - betaMinus1)) % 2
  {
    hide Pow2;
    TwoShifts(n, betaMinus1);
    ShiftPair(betaMinus1);
    ParityOfSlice(n / TWO64, Pow2(betaMinus1), Pow2(64 - betaMinus1));
  }

  lemma ShiftPair(betaMinus1: nat)
    requires 1 <= betaMinus1 < 64
    ensures Pow2(betaMinus1) % 2 == 0 && Pow2(betaMinus1) * Pow2(64 - betaMinus1) == TWO64
  {
    hide Pow2;
    EvenPower(betaMinus1);
    Pow2At64();
    Pow2Add(betaMinus1, 64 - betaMinus1);
    assert betaMinus1 + (64 - betaMinus1) == 64;
  }

  lemma EvenPower(e: nat)
    requires e >= 1
    ensures Pow2(e) % 2 == 0
  {
    assert Pow2(e) == 2 * Pow2(e - 1);
  }

  lemma TwoShifts(n: nat, betaMinus1: nat)
    requires 1 <= betaMinus1 < 64
    ensures n / Pow2(128 - betaMinus1) == n / TWO64 / Pow2(64 - betaMinus1)
  {
    Pow2At64();
    Pow2Add(64, 64 - betaMinus1);
    DivDiv(n, TWO64, Pow2(64 - betaMinus1));
  }

  lemma ComputeMulShifted(twoF: u64, cache: U128, betaMinus1: nat)
    requires betaMinus1 < 64 && twoF * Pow2(betaMinus1) < TWO64
    ensures ComputeMul(twoF * Pow2(betaMinus1), cache) == twoF * cache.Value() / Pow2(128 - betaMinus1)
  {
    hide Umul192Upper64;
    var up, value := Pow2(betaMinus1), cache.Value();
    Umul192UpperExact(twoF * up, cache);
    Regroup(twoF, up, value);
    Unshift(twoF * value, betaMinus1);
  }

  lemma Regroup(x: nat, y: nat, z: nat)
    ensures x * y * z == (x * z) * y
  {
  }

  lemma Unshift(n: nat, betaMinus1: nat)
    requires betaMinus1 < 64
    ensures (n * Pow2(betaMinus1)) / TWO128 == n / Pow2(128 - betaMinus1)
  {
    Pow2At64();
    Pow2Add(128 - betaMinus1, betaMinus1);
    CancelDiv(n, Pow2(betaMinus1), Pow2(128 - betaMinus1));
  }

  /** Bit `64 - beta` of the low word of m is the low bit of m shifted down. */
  lemma ParityOfSlice(m: nat, up: nat, down: nat)
    requires up > 0 && down > 0 && up % 2 == 0 && up * down == TWO64
    ensures (m % TWO64 / down) % 2 == (m / down) % 2
  {
    var k, r := m / TWO64, m % TWO64;
    assert m == (k * up) * down + r;
    var q, s := r / down, r % down;
    assert m == (k * up + q) * down + s;
    DivModUnique(m, k * up + q, s, down);
    var h := up / 2;
    assert k * up == (k * h) * 2;
    ModDrop(q, k * h, 2);
  }

  // The same for binary32, whose cache entries are 64-bit words

  function ComputeMul32(u: u32, cache: u64): u32 {
    Umul96Upper32(u, cache)
  }

  function ComputeDelta32(cache: u64, betaMinus1: nat): u32
    requires betaMinus1 < 64
  {
    Low32(cache / Pow2(63 - betaMinus1))
  }

  predicate ComputeMulParity32(twoF: u32, cache: u64, betaMinus1: nat)
    requires 1 <= betaMinus1 < 64
  {
    (Umul96Lower64(twoF, cache) / Pow2(64 - betaMinus1)) % 2 != 0
  }

  lemma ParityOfComputeMul32(twoF: u32, cache: u64, betaMinus1: nat)
    requires 1 <= betaMinus1 < 64 && twoF * Pow2(betaMinus1) < TWO32
    ensures ComputeMulParity32(twoF, cache, betaMinus1) <==>
      ComputeMul32(twoF * Pow2(betaMinus1), cache) % 2 == 1
    ensures ComputeMul32(twoF * Pow2(betaMinus1), cache) == twoF * cache / Pow2(64 - betaMinus1)
  {
    hide Umul96Upper32, Umul96Lower64, Pow2;
    var up, down, n := Pow2(betaMinus1), Pow2(64 - betaMinus1), twoF * cache;
    Umul96Exact(twoF * up, cache);
    Umul96Exact(twoF, cache);
    ShiftPair(betaMinus1);
    Regroup(twoF, up, cache);
    CancelDiv(n, up, down);
    ParityOfSlice(n, up, down);
  }
}
