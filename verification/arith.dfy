/** Unsigned 64-bit words as naturals, and the division facts the layout and formatting proofs use. */
module Arith {

  const Pow64: nat := 0x1_0000_0000_0000_0000

  /** A uint64_t / unsigned long value. */
  type Word64 = x: nat | x < Pow64

  lemma MulStep(k: nat, d: nat)
    requires k >= 1
    ensures k * d >= d
  {}

  /** Division is determined by any quotient/remainder split. */
  lemma DivUnique(x: nat, d: nat, q: nat, r: nat)
    requires d > 0 && x == q * d + r && r < d
    ensures x / d == q && x % d == r
  {
    var q', r' := x / d, x % d;
    if q > q' {
      MulStep(q - q', d);
      assert false;
    } else if q < q' {
      MulStep(q' - q, d);
      assert false;
    }
  }

  lemma Regroup(q2: nat, b: nat, r2: nat, a: nat, r: nat)
    ensures (q2 * b + r2) * a + r == q2 * (a * b) + (r2 * a + r)
  {}

  lemma RemainderBound(r2: nat, a: nat, r: nat, b: nat)
    requires r2 < b && r < a
    ensures r2 * a + r < a * b
  {
    assert r2 * a <= (b - 1) * a;
  }

  /** Dividing by a product is dividing twice. */
  lemma DivDiv(x: nat, a: nat, b: nat)
    requires a > 0 && b > 0
    ensures x / (a * b) == (x / a) / b
  {
    var q := x / a;
    var r := x % a;
    var q2 := q / b;
    var r2 := q % b;
    assert x == q * a + r;
    assert q == q2 * b + r2;
    Regroup(q2, b, r2, a, r);
    assert x == q2 * (a * b) + (r2 * a + r);
    RemainderBound(r2, a, r, b);
    DivUnique(x, a * b, q2, r2 * a + r);
  }

  /** Adding multiples of the divisor shifts the quotient and keeps the remainder. */
  lemma DivModShift(n: nat, d: nat, r: nat)
    requires d > 0
    ensures (n * d + r) / d == n + r / d
    ensures (n * d + r) % d == r % d
  {
    var q, s := r / d, r % d;
    assert r == q * d + s;
    assert n * d + r == (n + q) * d + s;
    DivUnique(n * d + r, d, n + q, s);
  }

  /** Reducing modulo a multiple of m keeps the remainder modulo m. */
  lemma ModOfMultiple(x: nat, m: nat, k: nat)
    requires m > 0 && k > 0
    ensures x % (m * k) % m == x % m
  {
    var q := x / (m * k);
    var r := x % (m * k);
    assert x == (q * k) * m + r by {
      assert x == q * (m * k) + r;
      assert q * (m * k) == (q * k) * m;
    }
    DivModShift(q * k, m, r);
  }
}
