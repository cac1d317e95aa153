/** Integer facts shared by the instruction-set models. */
module Arithmetic {

  function Pow2(k: nat): (r: int)
    ensures r > 0
  {
    if k == 0 then 1 else 2 * Pow2(k - 1)
  }

  /** Bitwise or. */
  function Or(a: nat, b: nat): nat
    decreases a + b
  {
    if a == 0 && b == 0 then 0
    else (if a % 2 == 1 || b % 2 == 1 then 1 else 0) + 2 * Or(a / 2, b / 2)
  }

  lemma {:induction false} OrZero(s: nat)
    ensures Or(0, s) == s
    decreases s
  {
    if s > 0 { OrZero(s / 2); }
  }

  /** Bits that do not overlap add up. */
  lemma {:induction false} OrAdds(a: nat, s: nat, k: nat)
    requires a < Pow2(k)
    ensures s * Pow2(k) >= 0 && Or(a, s * Pow2(k)) == a + s * Pow2(k)
    decreases k
  {
    if k == 0 {
      OrZero(s);
    } else {
      var b, h := s * Pow2(k), s * Pow2(k - 1);
      assert b == 2 * h;
      OrAdds(a / 2, s, k - 1);
      if a == 0 && b == 0 { assert h == 0; } else { assert b / 2 == h && b % 2 == 0; }
    }
  }

  lemma MulGe(k: int, d: int)
    requires k >= 1 && d > 0
    ensures k * d >= d
  {
  }

  lemma Distribute(a: int, b: int, d: int)
    ensures (a - b) * d == a * d - b * d
  {
  }

  /** Quotient and remainder are unique. */
  lemma DivUnique(x: int, d: int, q: int, r: int)
    requires d > 0 && 0 <= r < d && x == q * d + r
    ensures x / d == q && x % d == r
  {
    var k := x / d - q;
    assert x == d * (x / d) + x % d;
    Distribute(x / d, q, d);
    assert k * d == r - x % d;
    assert (-k) * d == -(k * d);
    if k >= 1 {
      MulGe(k, d);
    } else if k <= -1 {
      MulGe(-k, d);
    }
  }

  /** A field of `n` values above weight `a`, and what lies above it. */
  lemma Peel(x: int, a: int, n: int)
    requires a > 0 && n > 0
    ensures a * n > 0 && x / a == n * (x / (a * n)) + (x / a) % n
  {
    var q, r := x / a, x % a;
    var k, f := q / n, q % n;
    assert x == a * (n * k + f) + r == (a * n) * k + (a * f + r);
    FieldBelow(a, n, f, r);
    assert (a * n) * k == k * (a * n);
    DivUnique(x, a * n, k, a * f + r);
  }

  lemma FieldBelow(a: int, n: int, f: int, r: int)
    requires a > 0 && 0 <= f < n && 0 <= r < a
    ensures 0 <= a * f + r < a * n
  {
    assert a * f <= a * (n - 1);
  }
}
