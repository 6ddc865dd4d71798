/**
 Multiplication, quotients and remainders of natural numbers, one fact at a time.
 */
module Arithmetic {
  lemma MulMonotone(p: nat, a: nat, b: nat)
    requires a <= b
    ensures p * a <= p * b
  {
    assert p * b == p * a + p * (b - a);
  }

  /** A larger factor means a larger product by at least once the other factor. */
  lemma MulStep(p: nat, a: nat, b: nat)
    ensures a < b ==> p * a + p <= p * b
  {
    if a < b {
      MulMonotone(p, a + 1, b);
      assert p * (a + 1) == p * a + p;
    }
  }

  lemma NegativeProduct(p: int, q: int)
    requires p >= 1 && q < 0
    ensures p * q <= -p
  {
    MulMonotone(p, 1, -q);
    assert p * (-q) == -(p * q);
  }

  lemma DivParts(v: nat, p: nat)
    requires p >= 1
    ensures v / p >= 0 && v == p * (v / p) + v % p && 0 <= v % p < p
  {
    if v / p < 0 {
      NegativeProduct(p, v / p);
    }
  }

  /** The quotient of natural numbers. */
  function Quotient(v: nat, p: nat): (q: nat)
    requires p >= 1
    ensures q == v / p
  {
    DivParts(v, p);
    v / p
  }

  /** A quotient is the one number that fits. */
  lemma DivIs(v: nat, p: nat, q: nat)
    requires p >= 1 && p * q <= v < p * q + p
    ensures v / p == q && v % p == v - p * q
  {
    DivParts(v, p);
    MulStep(p, q, v / p);
    MulStep(p, v / p, q);
  }

  lemma DivBelow(v: nat, p: nat, n: nat)
    requires p >= 1
    ensures 0 <= v / p && (v / p < n <==> v < p * n)
  {
    DivParts(v, p);
    MulStep(p, v / p, n);
    if n <= v / p {
      MulMonotone(p, n, v / p);
    }
  }

  lemma DivMonotone(x: nat, y: nat, p: nat)
    requires x <= y && p >= 1
    ensures x / p <= y / p
  {
    DivParts(x, p);
    DivParts(y, p);
    MulStep(p, y / p, x / p);
  }

  lemma DivAtMost(v: nat, p: nat)
    requires p >= 1
    ensures v / p <= v
  {
    DivParts(v, p);
    MulMonotone(v / p, 1, p);
    assert p * (v / p) == (v / p) * p;
  }

  /** Dividing twice is dividing by the product. */
  lemma DivDiv(v: nat, p: nat, q: nat)
    requires p >= 1 && q >= 1
    ensures q * p >= 1 && v / p / q == v / (q * p)
  {
    var a := v / p;
    var b := a / q;
    DivParts(v, p);
    DivParts(a, q);
    MulMonotone(q, 1, p);
    MulStep(p, a % q, q);
    MulDistribute(p, q, b, a % q);
    DivIs(v, q * p, b);
  }

  lemma MulDistribute(p: nat, q: nat, b: nat, c: nat)
    ensures p * (q * b + c) == (q * p) * b + p * c
  {
  }

  /** A whole number of units. */
  lemma DivExact(u: nat, n: nat)
    requires u >= 1
    ensures (u * n) / u == n && (u * n) % u == 0
  {
    DivIs(u * n, u, n);
  }

  lemma Exchange(a: nat, b: nat)
    ensures a * b == b * a
  {
  }

  lemma Associate(a: nat, b: nat, c: nat)
    ensures a * (b * c) == (a * b) * c
  {
  }
}
