/** The analysis half of the encoder: prediction residuals, the shift search and the choice of filter. */
module AdpcmEncoder {
  import opened Arith
  import opened AdpcmDecoder

  const NIBBLE_UNIT: int := 0x1000_0000

  // Prediction residuals

  function Residuals(filter: nat, samples: seq<int>, h: History): (rs: seq<int>)
    requires filter < 5
    ensures |rs| == |samples|
    decreases |samples|
  {
    if samples == [] then []
    else [samples[0] - Predict(filter, h)] + Residuals(filter, samples[1..], Push(h, samples[0]))
  }

  method EncodeBlockWithFilter(filter: nat, samples: seq<int>, out: array<int>, prev: History)
    requires filter < 5 && |samples| == SAMPLES == out.Length
    modifies out
    ensures out[..] == Residuals(filter, samples, prev)
  {
    hide Predict, Residuals;
    var last, before := prev.last, prev.before;
    ghost var done: seq<int> := [];
    for i := 0 to SAMPLES
      invariant out[..i] == done
      invariant done + Residuals(filter, samples[i..], History(last, before)) == Residuals(filter, samples, prev)
    {
      var delta := samples[i] - Predict(filter, History(last, before));
      ResidualsStep(filter, samples, i, History(last, before), delta, done);
      out[i] := delta;
      done := done + [delta];
      before := last;
      last := samples[i];
    }
    ResidualsEnd(filter, samples, History(last, before), done);
    assert out[..] == out[..SAMPLES];
  }

  lemma ResidualsStep(filter: nat, samples: seq<int>, i: nat, h: History, delta: int, done: seq<int>)
    requires filter < 5 && i < |samples| && delta == samples[i] - Predict(filter, h)
    ensures done + Residuals(filter, samples[i..], h) ==
      (done + [delta]) + Residuals(filter, samples[i + 1..], History(samples[i], h.last))
  {
    hide Predict;
    assert samples[i..][1..] == samples[i + 1..];
    var rest := Residuals(filter, samples[i + 1..], Push(h, samples[i]));
    assert done + ([delta] + rest) == (done + [delta]) + rest;
  }

  lemma ResidualsEnd(filter: nat, samples: seq<int>, h: History, done: seq<int>)
    requires filter < 5
    ensures done + Residuals(filter, samples[|samples|..], h) == done
  {
  }

  predicate Bounded(rs: seq<int>, bound: int) {
    forall i :: 0 <= i < |rs| ==> -bound <= rs[i] < bound
  }

  lemma PredictBound(filter: nat, h: History)
    requires filter < 5 && IsS16(h.last) && IsS16(h.before)
    ensures -0x16c01 <= Predict(filter, h) <= 0x16c01
  {
  }

  /** Seventeen bits and a sign hold every residual of 16-bit samples. */
  lemma {:induction false} ResidualBound(filter: nat, samples: seq<int>, h: History)
    requires filter < 5 && AllS16(samples) && IsS16(h.last) && IsS16(h.before)
    ensures Bounded(Residuals(filter, samples, h), 0x2_0000)
    decreases |samples|
  {
    hide Predict;
    if samples != [] {
      PredictBound(filter, h);
      ResidualBound(filter, samples[1..], Push(h, samples[0]));
      var rest := Residuals(filter, samples[1..], Push(h, samples[0]));
      assert Residuals(filter, samples, h) == [samples[0] - Predict(filter, h)] + rest;
    }
  }

  // What four bits and a shift can say

  type Shift = s: int | -16 <= s <= 12 witness 0

  function Wrap32(x: int): int {
    (x + 0x8000_0000) % 0x1_0000_0000 - 0x8000_0000
  }

  /** The value of one step of the nibble at this shift. */
  function Unit(shift: Shift): (u: nat)
    ensures u > 0
  {
    Pow2(12 - shift)
  }

  /** The nibble the code computes: a wrapping shift left, then an arithmetic shift right by 28. */
  function Nibble(r: int, shift: Shift): int {
    Wrap32(r * Pow2(16 + shift)) / NIBBLE_UNIT
  }

  /** The low four bits of q, as a signed number. */
  function Signed4(q: int): int {
    (q + 8) % 16 - 8
  }

  lemma NibbleProduct(r: int, p: nat, m: nat, q: int, t: int, n: int, k: int)
    requires p * m == NIBBLE_UNIT && r == q * p + t && 0 <= t < p && q == 16 * k + n && -8 <= n < 8
    ensures Wrap32(r * m) / NIBBLE_UNIT == n
  {
    var u := t * m;
    assert 0 <= u < NIBBLE_UNIT by {
      MulMono(t, p - 1, m);
      assert (p - 1) * m == p * m - m;
      assert m > 0;
    }
    assert r * m == q * (p * m) + u;
    WrapOf(k, n, u, r * m);
  }

  lemma WrapOf(k: int, n: int, u: int, x: int)
    requires -8 <= n < 8 && 0 <= u < NIBBLE_UNIT && x == (16 * k + n) * NIBBLE_UNIT + u
    ensures Wrap32(x) / NIBBLE_UNIT == n
  {
    assert x == k * 0x1_0000_0000 + (n * NIBBLE_UNIT + u);
    assert Wrap32(x) == n * NIBBLE_UNIT + u;
  }

  lemma UnitTimes(shift: Shift)
    ensures Unit(shift) * Pow2(16 + shift) == NIBBLE_UNIT
  {
    hide Pow2;
    Pow2Add(12 - shift, 16 + shift);
    Pow2Of28();
  }

  lemma Pow2Of28()
    ensures Pow2(28) == NIBBLE_UNIT
  {
    assert Pow2(7) == 128;
    Pow2Add(7, 7);
    Pow2Add(14, 14);
  }

  /** The nibble is the low four bits of the quotient by the unit, rounded down. */
  lemma NibbleIs(r: int, shift: Shift)
    ensures Nibble(r, shift) == Signed4(r / Unit(shift))
  {
    hide Wrap32, Pow2, Unit;
    UnitTimes(shift);
    var p := Unit(shift);
    var q, t := r / p, r % p;
    var n := Signed4(q);
    NibbleProduct(r, p, Pow2(16 + shift), q, t, n, (q + 8) / 16);
  }

  function Abs(x: int): int {
    if x < 0 then -x else x
  }

  function Err(r: int, shift: Shift): (e: int)
    ensures e >= 0
  {
    Abs(Nibble(r, shift) * Unit(shift) - r)
  }

  function ShiftError(rs: seq<int>, shift: Shift): (total: int)
    ensures total >= 0
    decreases |rs|
  {
    if rs == [] then 0 else Err(rs[0], shift) + ShiftError(rs[1..], shift)
  }

  /** ok is false where the assertion on the shift amount fails. */
  method GetShiftError(shift: int, samples: array<int>) returns (ok: bool, result: int)
    requires shift <= 12 && samples.Length == SAMPLES
    ensures ok <==> shift >= -16
    ensures ok ==> result == ShiftError(samples[..], shift)
  {
    hide Unit, Nibble, Err, Pow2;
    result := 0;
    for i := 0 to SAMPLES
      invariant shift >= -16 || i == 0
      invariant shift >= -16 ==> result + ShiftError(samples[i..], shift) == ShiftError(samples[..], shift)
    {
      var leftShift := 32 - (12 + 4 - shift);
      if leftShift < 0 {
        return false, 0;
      }
      var right := Wrap32(samples[i] * Pow2(leftShift)) / NIBBLE_UNIT;
      var compressed := right * Pow2(12 - shift);
      var err := Abs(compressed - samples[i]);
      ErrIs(samples[i], shift);
      assert samples[i..][0] == samples[i] && samples[i..][1..] == samples[i + 1..];
      result := result + err;
    }
    assert samples[SAMPLES..] == [];
    ok := true;
  }

  lemma ErrIs(r: int, shift: Shift)
    ensures Err(r, shift) == Abs(Wrap32(r * Pow2(16 + shift)) / NIBBLE_UNIT * Pow2(12 - shift) - r)
  {
  }

  predicate Divides(r: int, shift: Shift) {
    r % Unit(shift) == 0
  }

  predicate AllDivide(rs: seq<int>, shift: Shift) {
    forall i :: 0 <= i < |rs| ==> Divides(rs[i], shift)
  }

  predicate InRange(r: int, shift: Shift) {
    -8 <= r / Unit(shift) < 8
  }

  predicate AllInRange(rs: seq<int>, shift: Shift) {
    forall i :: 0 <= i < |rs| ==> InRange(rs[i], shift)
  }

  /** Inside the nibble's range the error is the remainder that the shift drops. */
  lemma ErrInRange(r: int, shift: Shift)
    requires InRange(r, shift)
    ensures Nibble(r, shift) == r / Unit(shift) && Err(r, shift) == r % Unit(shift) < Unit(shift)
  {
    hide Unit, Nibble;
    NibbleIs(r, shift);
  }

  lemma ErrZero(r: int, shift: Shift)
    ensures Err(r, shift) == 0 <==> InRange(r, shift) && Divides(r, shift)
  {
    hide Unit, Nibble;
    NibbleIs(r, shift);
    if InRange(r, shift) {
      ErrInRange(r, shift);
    } else {
      var p, q := Unit(shift), r / Unit(shift);
      var n := Signed4(q);
      if n * p == r {
        DivideBack(r, n, p);
      }
    }
  }

  lemma DivideBack(r: int, n: int, p: nat)
    requires p > 0 && r == n * p
    ensures r / p == n && r % p == 0
  {
    DivModUnique(r, n, 0, p);
  }

  /** A block loses nothing at a shift exactly when every residual is a nibble times the unit. */
  lemma {:induction false} ShiftErrorZero(rs: seq<int>, shift: Shift)
    ensures ShiftError(rs, shift) == 0 <==> AllInRange(rs, shift) && AllDivide(rs, shift)
    decreases |rs|
  {
    hide Err, InRange, Divides, Unit;
    if rs != [] {
      ErrZero(rs[0], shift);
      ShiftErrorZero(rs[1..], shift);
      assert rs == [rs[0]] + rs[1..];
    }
  }

  /** The error of a block in range is at most one less than the unit for each sample. */
  lemma {:induction false} ShiftErrorBound(rs: seq<int>, shift: Shift)
    requires AllInRange(rs, shift)
    ensures ShiftError(rs, shift) <= |rs| * (Unit(shift) - 1)
    decreases |rs|
  {
    hide Err, InRange, Unit;
    if rs != [] {
      ErrInRange(rs[0], shift);
      ShiftErrorBound(rs[1..], shift);
      var k, d := |rs| - 1, Unit(shift) - 1;
      assert |rs| * d == k * d + d;
    }
  }

  // The width of a number

  predicate Fits(value: int, bits: nat) {
    bits > 0 && -value <= Pow2(bits - 1) && value < Pow2(bits - 1)
  }

  /** The least two's-complement width. */
  predicate IsWidth(value: int, bits: nat) {
    Fits(value, bits) && !Fits(value, bits - 1)
  }

  /** value is x shifted right by bits; p is the power of two that it was divided by. */
  predicate Shifted(x: int, value: int, bits: nat, p: nat) {
    p == Pow2(bits) && value * p <= x < (value + 1) * p
  }

  method GetMaxBits(x: int) returns (result: nat)
    ensures IsWidth(x, result)
  {
    hide Pow2, Shifted;
    result := 0;
    var value := x;
    ghost var p: nat := 1;
    ShiftedByNone(x);
    if value >= 0 {
      var last := 1;
      while value != 0
        invariant Shifted(x, value, result, p)
        invariant value >= 0 && (value == 0 ==> last == 1) && (result > 0 ==> x >= Pow2(result - 1))
        decreases value
      {
        HalveBounds(x, value, result, p);
        result, p := result + 1, 2 * p;
        last := value % 2;
        value := value / 2;
      }
      ShiftedOut(x, value, result, p);
      if last != 0 {
        result := result + 1;
      }
    } else {
      var last := 0;
      while value != -1
        invariant Shifted(x, value, result, p)
        invariant value <= -1 && (value == -1 ==> last == 0) && (result > 0 ==> -x > Pow2(result - 1))
        decreases -value
      {
        HalveBounds(x, value, result, p);
        result, p := result + 1, 2 * p;
        last := value % 2;
        value := value / 2;
      }
      ShiftedOut(x, value, result, p);
      if last == 0 {
        result := result + 1;
      }
    }
  }

  lemma ShiftedByNone(x: int)
    ensures Shifted(x, x, 0, 1)
  {
  }

  lemma ShiftedOut(x: int, value: int, bits: nat, p: nat)
    requires Shifted(x, value, bits, p) && (value == 0 || value == -1)
    ensures value == 0 ==> 0 <= x < Pow2(bits)
    ensures value == -1 ==> 0 < -x <= Pow2(bits)
  {
  }

  lemma HalveBounds(x: int, value: int, bits: nat, p: nat)
    requires Shifted(x, value, bits, p)
    ensures Shifted(x, value / 2, bits + 1, 2 * p)
    ensures value >= 1 ==> x >= Pow2(bits)
    ensures value <= -2 ==> -x > Pow2(bits)
  {
    var half := value / 2;
    assert half * (2 * p) == (2 * half) * p;
    assert (half + 1) * (2 * p) == (2 * half + 2) * p;
    MulUp(2 * half, value, p);
    MulUp(value + 1, 2 * half + 2, p);
    if value >= 1 { MulUp(1, value, p); }
    if value <= -2 { MulUp(value + 1, -1, p); }
  }

  lemma MulUp(a: int, b: int, p: nat)
    requires a <= b
    ensures a * p <= b * p
  {
  }

  lemma WidthAtMost(x: int, width: nat, bits: nat)
    requires IsWidth(x, width) && Fits(x, bits)
    ensures width <= bits
  {
    if bits < width {
      hide Pow2;
      Pow2Mono(bits - 1, width - 2);
    }
  }

  lemma FitsMore(x: int, a: nat, b: nat)
    requires Fits(x, a) && a <= b
    ensures Fits(x, b)
  {
    hide Pow2;
    Pow2Mono(a - 1, b - 1);
  }

  // The first shift

  /** Four bits and a shift hold the numbers of 16 - shift bits. */
  lemma InRangeIsWidth(r: int, shift: Shift)
    ensures InRange(r, shift) <==> Fits(r, 16 - shift)
  {
    hide Pow2;
    var p := Unit(shift);
    Pow2Add(3, 12 - shift);
    assert Pow2(3) == 8 by { EightIs(); }
    assert 3 + (12 - shift) == 15 - shift;
    QuotientRange(r, p);
  }

  lemma EightIs()
    ensures Pow2(3) == 8
  {
  }

  lemma QuotientRange(r: int, p: nat)
    requires p > 0
    ensures -8 <= r / p < 8 <==> -r <= 8 * p && r < 8 * p
  {
    var q, t := r / p, r % p;
    assert r == q * p + t;
    if q >= 8 { MulUp(8, q, p); }
    if q <= -9 { MulUp(q, -9, p); }
    if -8 <= q < 8 { MulUp(-8, q, p); MulUp(q, 7, p); }
  }

  lemma InRangeLower(rs: seq<int>, high: Shift, low: Shift)
    requires AllInRange(rs, high) && low <= high
    ensures AllInRange(rs, low)
  {
    hide InRange, Fits;
    forall i | 0 <= i < |rs| ensures InRange(rs[i], low) {
      InRangeIsWidth(rs[i], high);
      FitsMore(rs[i], 16 - high, 16 - low);
      InRangeIsWidth(rs[i], low);
    }
  }

  /** The greatest shift up to s at which every residual fits the nibble. */
  function GreatestFit(rs: seq<int>, s: Shift): (first: Shift)
    requires AllInRange(rs, -16)
    ensures first <= s && AllInRange(rs, first) && (first == s || !AllInRange(rs, first + 1))
    decreases s + 16
  {
    if AllInRange(rs, s) then s else GreatestFit(rs, s - 1)
  }

  function FirstShift(rs: seq<int>): Shift
    requires AllInRange(rs, -16)
  {
    GreatestFit(rs, 12)
  }

  lemma FirstShiftIs(rs: seq<int>, s: Shift)
    requires AllInRange(rs, -16) && AllInRange(rs, s) && (s == 12 || !AllInRange(rs, s + 1))
    ensures FirstShift(rs) == s
  {
    hide AllInRange;
    var first := FirstShift(rs);
    if s < first {
      InRangeLower(rs, first, s + 1);
    }
    if first < s {
      InRangeLower(rs, s, first + 1);
    }
  }

  lemma BoundedInRange(rs: seq<int>, bits: nat)
    requires 4 <= bits <= 32 && Bounded(rs, Pow2(bits - 1))
    ensures AllInRange(rs, 16 - bits)
  {
    hide Pow2, InRange;
    forall i | 0 <= i < |rs| ensures InRange(rs[i], 16 - bits) {
      InRangeIsWidth(rs[i], 16 - bits);
    }
  }

  lemma PowersOfInterest()
    ensures Pow2(17) == 0x2_0000 && Pow2(31) == 0x8000_0000
  {
    Pow2Of28();
    Pow2Add(28, 3);
    EightIs();
    assert Pow2(7) == 128;
    hide Pow2;
    Pow2Add(7, 7);
    Pow2Add(14, 3);
  }

  /** Every 32-bit residual fits at shift -16. */
  lemma WordInRange(rs: seq<int>)
    requires Bounded(rs, 0x8000_0000)
    ensures AllInRange(rs, -16)
  {
    hide Pow2, AllInRange;
    PowersOfInterest();
    BoundedInRange(rs, 32);
  }

  /** The residuals of 16-bit samples: the first shift lies in -2..12, so the assertion on the shift
      amount holds and no nibble wraps, and the error is less than 28 units. */
  lemma FirstShiftRange(filter: nat, samples: seq<int>, h: History)
    requires filter < 5 && AllS16(samples) && IsS16(h.last) && IsS16(h.before)
    ensures
      var rs := Residuals(filter, samples, h);
      && AllInRange(rs, -16) && -2 <= FirstShift(rs) <= 12 && 16 + FirstShift(rs) >= 0
      && (forall i :: 0 <= i < |rs| ==> Nibble(rs[i], FirstShift(rs)) == rs[i] / Unit(FirstShift(rs)))
      && ShiftError(rs, FirstShift(rs)) <= |rs| * (Unit(FirstShift(rs)) - 1)
  {
    var rs := Residuals(filter, samples, h);
    ResidualBound(filter, samples, h);
    WordInRange(rs);
    FirstShiftAtLeast(rs);
    hide Pow2, Residuals, Predict;
    var s := FirstShift(rs);
    hide FirstShift, Nibble, Unit, InRange;
    forall i | 0 <= i < |rs| ensures Nibble(rs[i], s) == rs[i] / Unit(s) {
      ErrInRange(rs[i], s);
    }
    ShiftErrorBound(rs, s);
  }

  lemma FirstShiftAtLeast(rs: seq<int>)
    requires AllInRange(rs, -16) && Bounded(rs, 0x2_0000)
    ensures FirstShift(rs) >= -2
  {
    hide Pow2, AllInRange;
    PowersOfInterest();
    BoundedInRange(rs, 18);
    var first := FirstShift(rs);
    if first < -2 {
      InRangeLower(rs, -2, first + 1);
    }
  }

  // Lowering the shift

  /** The lowering loop: while the next shift down loses nothing either. */
  function Lowered(rs: seq<int>, s: Shift): Shift
    decreases s + 16
  {
    if s >= 0 && ShiftError(rs, s - 1) == 0 then Lowered(rs, s - 1) else s
  }

  function ChosenError(rs: seq<int>): int
    requires AllInRange(rs, -16)
  {
    ShiftError(rs, FirstShift(rs))
  }

  function ChosenShift(rs: seq<int>): Shift
    requires AllInRange(rs, -16)
  {
    if ChosenError(rs) == 0 then Lowered(rs, FirstShift(rs)) else FirstShift(rs)
  }

  lemma DividesUp(r: int, low: Shift, high: Shift)
    requires Divides(r, low) && low <= high
    ensures Divides(r, high)
  {
    hide Pow2;
    Pow2Add(high - low, 12 - high);
    assert (high - low) + (12 - high) == 12 - low;
    var p, q, k := Unit(high), r / Unit(low), Pow2(high - low);
    assert r == q * Unit(low) && Unit(low) == k * p;
    assert r == (q * k) * p;
    DivideBack(r, q * k, p);
  }

  lemma AllDivideUp(rs: seq<int>, low: Shift, high: Shift)
    requires AllDivide(rs, low) && low <= high
    ensures AllDivide(rs, high)
  {
    hide Divides;
    forall i | 0 <= i < |rs| ensures Divides(rs[i], high) {
      DividesUp(rs[i], low, high);
    }
  }

  lemma {:induction false} LoweredRange(rs: seq<int>, s: Shift)
    requires s >= -1
    ensures -1 <= Lowered(rs, s) <= s
    decreases s + 16
  {
    if s >= 0 && ShiftError(rs, s - 1) == 0 {
      LoweredRange(rs, s - 1);
    }
  }

  /** Where the residuals are in range, the loop stops at the least shift, down to -1, whose unit divides
      every residual. */
  lemma {:induction false} LoweredIsLeast(rs: seq<int>, s: Shift, t: Shift)
    requires s >= -1 && AllInRange(rs, s) && AllDivide(rs, s) && -1 <= t
    ensures Lowered(rs, s) <= t <==> AllDivide(rs, t)
    decreases s + 16
  {
    hide AllInRange, AllDivide, ShiftError;
    LoweredRange(rs, s);
    if s >= 0 {
      ShiftErrorZero(rs, s - 1);
      InRangeLower(rs, s, s - 1);
      if AllDivide(rs, s - 1) {
        LoweredIsLeast(rs, s - 1, t);
      } else if AllDivide(rs, t) && t < s {
        AllDivideUp(rs, t, s - 1);
      } else if s <= t {
        AllDivideUp(rs, s, t);
      }
    } else {
      AllDivideUp(rs, s, t);
    }
  }

  /** With no error at a first shift of 0 or more, the chosen shift is the least t >= -1 such that
      2^(12 - t) divides every residual. */
  lemma ChosenIsLeast(rs: seq<int>, t: Shift)
    requires AllInRange(rs, -16) && FirstShift(rs) >= 0 && ChosenError(rs) == 0 && t >= -1
    ensures -1 <= ChosenShift(rs) <= FirstShift(rs)
    ensures ChosenShift(rs) <= t <==> AllDivide(rs, t)
  {
    hide AllInRange, AllDivide, ShiftError, Lowered;
    var s := FirstShift(rs);
    ShiftErrorZero(rs, s);
    LoweredRange(rs, s);
    LoweredIsLeast(rs, s, t);
  }

  /** The block header can hold the chosen shift exactly when some residual is not a multiple of
      2^13, the unit of shift -1. */
  lemma ChosenIsEncodable(rs: seq<int>)
    requires AllInRange(rs, -16) && FirstShift(rs) >= 0 && ChosenError(rs) == 0
    ensures ChosenShift(rs) >= 0 <==> !AllDivide(rs, -1)
  {
    hide ChosenShift, ChosenError, FirstShift, AllInRange, AllDivide;
    ChosenIsLeast(rs, -1);
  }

  lemma UnitBelowZero(r: int)
    ensures Divides(r, -1) <==> r % 0x2000 == 0
  {
    Pow2Add(7, 6);
  }

  method MinAndMax(rs: array<int>) returns (min: int, max: int)
    requires rs.Length == SAMPLES && Bounded(rs[..], 0x8000_0000)
    ensures min in rs[..] && max in rs[..]
    ensures forall j :: 0 <= j < rs.Length ==> min <= rs[j] <= max
  {
    max, min := -0x8000_0000, 0x7fff_ffff;
    for i := 0 to SAMPLES
      invariant i == 0 ==> max == -0x8000_0000 && min == 0x7fff_ffff
      invariant i > 0 ==> min in rs[..] && max in rs[..]
      invariant forall j :: 0 <= j < i ==> min <= rs[j] <= max
    {
      max := if rs[i] > max then rs[i] else max;
      min := if rs[i] < min then rs[i] else min;
    }
  }

  method ChooseShift(rs: array<int>) returns (error: int, shift: Shift)
    requires rs.Length == SAMPLES && Bounded(rs[..], 0x8000_0000)
    ensures AllInRange(rs[..], -16)
    ensures error == ChosenError(rs[..]) && shift == ChosenShift(rs[..])
  {
    hide Pow2, AllInRange, ShiftError, IsWidth, Fits;
    WordInRange(rs[..]);
    var min, max := MinAndMax(rs);
    var low := GetMaxBits(min);
    var high := GetMaxBits(max);
    var bits: int := if high > low then high else low;
    bits := if bits > 4 then bits else 4;
    WidthsGiveShift(rs[..], min, max, low, high);
    shift := 4 + 12 - bits;
    var ok;
    ok, error := GetShiftError(shift, rs);
    if error == 0 {
      while shift >= 0
        invariant Lowered(rs[..], shift) == Lowered(rs[..], FirstShift(rs[..]))
        decreases shift + 16
      {
        var next;
        ok, next := GetShiftError(shift - 1, rs);
        if next == 0 {
          shift := shift - 1;
        } else {
          break;
        }
      }
    }
  }

  lemma WidthsGiveShift(rs: seq<int>, min: int, max: int, low: nat, high: nat)
    requires Bounded(rs, 0x8000_0000) && min in rs && max in rs && AllInRange(rs, -16)
    requires forall j :: 0 <= j < |rs| ==> min <= rs[j] <= max
    requires IsWidth(min, low) && IsWidth(max, high)
    ensures
      var bits := if low > high then low else high;
      var wide := if bits > 4 then bits else 4;
      wide <= 32 && FirstShift(rs) == 16 - wide
  {
    hide Pow2, Unit;
    PowersOfInterest();
    WidthAtMost(min, low, 32);
    WidthAtMost(max, high, 32);
    var bits := if low > high then low else high;
    var wide := if bits > 4 then bits else 4;
    FitsMore(min, low, wide);
    FitsMore(max, high, wide);
    forall i | 0 <= i < |rs| ensures InRange(rs[i], 16 - wide) {
      InRangeIsWidth(rs[i], 16 - wide);
    }
    if wide > 4 {
      var worst := if low > high then min else max;
      InRangeIsWidth(worst, 17 - wide);
      var i :| 0 <= i < |rs| && rs[i] == worst;
      assert !InRange(rs[i], 17 - wide);
    }
    FirstShiftIs(rs, 16 - wide);
  }

  // The choice of filter

  /** Filter i beats filter j: a smaller error, then a smaller shift, then a smaller index. */
  predicate Beats(errors: seq<int>, shifts: seq<int>, i: nat, j: nat)
    requires i < |errors| == |shifts| && j < |errors|
  {
    errors[i] < errors[j] || (errors[i] == errors[j] && (shifts[i] < shifts[j] || (shifts[i] == shifts[j] && i < j)))
  }

  predicate IsBest(errors: seq<int>, shifts: seq<int>, i: nat)
    requires |errors| == |shifts|
  {
    i < |errors| && forall j :: 0 <= j < |errors| && j != i ==> Beats(errors, shifts, i, j)
  }

  predicate AllWords(s: seq<int>) {
    forall i :: 0 <= i < |s| ==> s[i] <= 0x7fff_ffff
  }

  method BreakFilterTies(errors: array<int>, filterShifts: array<int>) returns (bestFilter: int)
    requires errors.Length == filterShifts.Length == 5 && AllWords(errors[..]) && AllWords(filterShifts[..])
    ensures 0 <= bestFilter < 5 && IsBest(errors[..], filterShifts[..], bestFilter)
  {
    var bestError := 0x7fff_ffff;
    for i := 0 to 5
      invariant bestError == 0x7fff_ffff || bestError in errors[..i]
      invariant forall j :: 0 <= j < i ==> bestError <= errors[j]
    {
      if errors[i] < bestError {
        bestError := errors[i];
      }
    }
    var bestShift := 0x7fff_ffff;
    bestFilter := -1;
    for i := 5 downto 0
      invariant bestFilter == -1 ==> bestShift == 0x7fff_ffff
      invariant bestFilter == -1 ==> forall j :: i <= j < 5 ==> errors[j] != bestError
      invariant bestFilter != -1 ==> i <= bestFilter < 5
      invariant bestFilter != -1 ==> errors[bestFilter] == bestError && filterShifts[bestFilter] == bestShift
      invariant forall j :: i <= j < 5 && errors[j] == bestError ==>
        bestShift < filterShifts[j] || (bestShift == filterShifts[j] && bestFilter <= j)
    {
      if errors[i] == bestError {
        if filterShifts[i] <= bestShift {
          bestShift := filterShifts[i];
          bestFilter := i;
        }
      }
    }
    assert errors[0] <= 0x7fff_ffff && filterShifts[0] <= 0x7fff_ffff;
    if bestError == 0x7fff_ffff {
      assert errors[0] == bestError;
    }
  }

  lemma BestIsUnique(errors: seq<int>, shifts: seq<int>, i: nat, j: nat)
    requires |errors| == |shifts| && IsBest(errors, shifts, i) && IsBest(errors, shifts, j)
    ensures i == j
  {
    assert i == j || (Beats(errors, shifts, i, j) && Beats(errors, shifts, j, i));
  }

  // The whole encoder check

  function BlockOf(samples: seq<int>, b: nat): (block: seq<int>)
    requires 28 * b + 28 <= |samples|
    ensures |block| == SAMPLES
  {
    samples[28 * b..28 * b + 28]
  }

  /** The last two samples of the blocks before block b. */
  function HistoryAt(samples: seq<int>, b: nat): History
    requires 28 * b <= |samples|
  {
    if b == 0 then SILENCE else History(samples[28 * b - 1], samples[28 * b - 2])
  }

  ghost predicate Analysable(block: seq<int>, h: History) {
    forall f: nat :: f < 5 ==> AllInRange(Residuals(f, block, h), -16)
  }

  ghost function Errors(block: seq<int>, h: History): (errors: seq<int>)
    requires Analysable(block, h)
    ensures |errors| == 5
  {
    seq(5, f requires 0 <= f < 5 => ChosenError(Residuals(f, block, h)))
  }

  ghost function Shifts(block: seq<int>, h: History): (shifts: seq<int>)
    requires Analysable(block, h)
    ensures |shifts| == 5
  {
    seq(5, f requires 0 <= f < 5 => ChosenShift(Residuals(f, block, h)))
  }

  /** The recorded filter is the best one, it has no error, and its shift is the recorded one. */
  ghost predicate BlockPasses(block: seq<int>, h: History, filter: nat, shift: nat) {
    && Analysable(block, h) && IsBest(Errors(block, h), Shifts(block, h), filter)
    && Errors(block, h)[filter] == 0 && Shifts(block, h)[filter] == shift
  }

  lemma BlockAnalysable(block: seq<int>, h: History)
    requires AllS16(block) && IsS16(h.last) && IsS16(h.before)
    ensures Analysable(block, h)
    ensures forall f: nat :: f < 5 ==> Bounded(Residuals(f, block, h), 0x8000_0000)
  {
    hide Residuals, AllInRange;
    forall f: nat | f < 5
      ensures AllInRange(Residuals(f, block, h), -16) && Bounded(Residuals(f, block, h), 0x8000_0000)
    {
      ResidualBound(f, block, h);
      WordInRange(Residuals(f, block, h));
    }
  }

  lemma {:induction false} ErrorsAreWords(rs: seq<int>, s: Shift)
    requires AllInRange(rs, s) && s >= -2 && |rs| <= SAMPLES
    ensures ShiftError(rs, s) <= 0x7fff_ffff
  {
    ShiftErrorBound(rs, s);
    Pow2Mono(12 - s, 14);
    assert Pow2(14) == 0x4000 by { assert Pow2(7) == 128; Pow2Add(7, 7); }
    var u := Unit(s) - 1;
    MulUp(|rs|, 28, u);
  }

  /** The errors and the shifts of the five filters for one block. */
  method AnalyseBlock(block: seq<int>, prev: History, errors: array<int>, filterShifts: array<int>)
    requires |block| == SAMPLES && AllS16(block) && IsS16(prev.last) && IsS16(prev.before)
    requires errors != filterShifts && errors.Length == filterShifts.Length == 5
    modifies errors, filterShifts
    ensures Analysable(block, prev)
    ensures errors[..] == Errors(block, prev) && filterShifts[..] == Shifts(block, prev)
    ensures AllWords(errors[..]) && AllWords(filterShifts[..])
  {
    hide Residuals, AllInRange, Bounded, ChosenShift, ChosenError, ShiftError;
    BlockAnalysable(block, prev);
    var residuals := new int[SAMPLES];
    for f := 0 to 5
      invariant forall g: nat :: g < f ==> errors[g] == ChosenError(Residuals(g, block, prev)) <= 0x7fff_ffff
      invariant forall g: nat :: g < f ==> filterShifts[g] == ChosenShift(Residuals(g, block, prev))
    {
      EncodeBlockWithFilter(f, block, residuals, prev);
      var error, shift := ChooseShift(residuals);
      ErrorIsWord(f, block, prev);
      errors[f], filterShifts[f] := error, shift;
    }
  }

  lemma ErrorIsWord(f: nat, block: seq<int>, h: History)
    requires f < 5 && |block| == SAMPLES && AllS16(block) && IsS16(h.last) && IsS16(h.before)
    requires AllInRange(Residuals(f, block, h), -16)
    ensures ChosenError(Residuals(f, block, h)) <= 0x7fff_ffff
  {
    hide Residuals, ShiftError, FirstShift, Unit;
    FirstShiftRange(f, block, h);
    var rs := Residuals(f, block, h);
    ErrorsAreWords(rs, FirstShift(rs));
  }

  /** ok is false where the code stops with its error message. */
  method TestEncodeAdpcm(samples: seq<int>, filterDebug: seq<byte>, shiftDebug: seq<byte>) returns (ok: bool)
    requires AllS16(samples) && |samples| / 28 <= |filterDebug| && |samples| / 28 <= |shiftDebug|
    ensures ok <==> forall b: nat :: b < |samples| / 28 ==>
      BlockPasses(BlockOf(samples, b), HistoryAt(samples, b), filterDebug[b], shiftDebug[b])
  {
    hide Errors, Shifts, IsBest, Analysable;
    var last, before := 0, 0;
    var blockCount := |samples| / SAMPLES;
    var errors, filterShifts := new int[5], new int[5];
    for b := 0 to blockCount
      invariant History(last, before) == HistoryAt(samples, b)
      invariant forall c: nat :: c < b ==>
        BlockPasses(BlockOf(samples, c), HistoryAt(samples, c), filterDebug[c], shiftDebug[c])
    {
      ghost var block, h := BlockOf(samples, b), HistoryAt(samples, b);
      AnalyseBlock(samples[28 * b..28 * b + 28], History(last, before), errors, filterShifts);
      var bestFilter := BreakFilterTies(errors, filterShifts);
      var bestShift := filterShifts[bestFilter];
      if errors[bestFilter] != 0 || bestFilter != filterDebug[b] || bestShift != shiftDebug[b] {
        NotPassing(block, h, bestFilter, filterDebug[b], shiftDebug[b]);
        return false;
      }
      last := samples[28 * b + 27];
      before := samples[28 * b + 26];
    }
    ok := true;
  }

  lemma NotPassing(block: seq<int>, h: History, best: nat, filter: nat, shift: nat)
    requires Analysable(block, h) && IsBest(Errors(block, h), Shifts(block, h), best)
    requires Errors(block, h)[best] != 0 || best != filter || Shifts(block, h)[best] != shift
    ensures !BlockPasses(block, h, filter, shift)
  {
    hide Errors, Shifts;
    if IsBest(Errors(block, h), Shifts(block, h), filter) {
      BestIsUnique(Errors(block, h), Shifts(block, h), best, filter);
    }
  }
}
