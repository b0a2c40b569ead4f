/** Facts about products, quotients and powers of two that the other modules share. */
module Arith {
  lemma MulMono(x: nat, y: nat, m: nat)
    requires x <= y
    ensures x * m <= y * m
  {
  }

  lemma MulMonoNeg(x: int, m: nat)
    requires x <= -1
    ensures x * m + m <= 0
  {
  }

  lemma DivModUnique(n: int, q: int, r: int, m: nat)
    requires m > 0 && n == q * m + r && 0 <= r < m
    ensures n / m == q && n % m == r
  {
    var d := n / m - q;
    assert d * m == r - n % m;
    if d > 0 { MulMono(1, d, m); }
    if d < 0 { MulMonoNeg(d, m); }
  }

  lemma ModDrop(r: int, k: int, m: nat)
    requires m > 0
    ensures (k * m + r) % m == r % m
  {
    var q, s := r / m, r % m;
    assert k * m + r == (k + q) * m + s;
    DivModUnique(k * m + r, k + q, s, m);
  }

  lemma ModAdd(p: nat, q: nat, m: nat)
    requires m > 0
    ensures (p % m + q) % m == (p + q) % m
  {
    assert (p + q) == (p / m) * m + (p % m + q);
    ModDrop(p % m + q, p / m, m);
  }

  lemma DivDiv(n: nat, a: nat, b: nat)
    requires a > 0 && b > 0
    ensures a * b > 0 && n / (a * b) == n / a / b
  {
    var q, r := n / a, n % a;
    var q', r' := q / b, q % b;
    var rest := r' * a + r;
    assert n == q' * (a * b) + rest by {
      assert (q' * b + r') * a == q' * (a * b) + r' * a;
    }
    assert rest < a * b by {
      MulMono(r', b - 1, a);
      assert (b - 1) * a == a * b - a;
    }
    MulMono(1, b, a);
    DivModUnique(n, q', rest, a * b);
  }

  /** Shifting a factor and the divisor by the same power of two changes nothing. */
  lemma CancelDiv(n: nat, a: nat, b: nat)
    requires a > 0 && b > 0
    ensures a * b > 0 && (n * a) / (b * a) == n / b
  {
    var q, r := n / b, n % b;
    assert n * a == q * (b * a) + r * a;
    assert r * a < b * a;
    DivModUnique(n * a, q, r * a, b * a);
  }

  function Pow2(e: nat): (p: nat)
    ensures p > 0
  {
    if e == 0 then 1 else 2 * Pow2(e - 1)
  }

  lemma {:induction false} Pow2Add(d: nat, e: nat)
    ensures Pow2(d + e) == Pow2(d) * Pow2(e)
  {
    if d > 0 {
      Pow2Add(d - 1, e);
      assert Pow2(d) * Pow2(e) == 2 * (Pow2(d - 1) * Pow2(e));
    }
  }

  lemma {:induction false} Pow2Mono(a: nat, b: nat)
    requires a <= b
    ensures Pow2(a) <= Pow2(b)
    decreases b
  {
    if a < b {
      Pow2Mono(a, b - 1);
    }
  }
}
