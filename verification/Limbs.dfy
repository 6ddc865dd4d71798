/**
 Numbers held as 32-bit limbs, lowest first (src/arith_uint256.h): what a sequence of limbs is
 worth, and what single-limb steps do to that.
 */
module Limbs {
  import opened Arithmetic
  import opened Helpers

  const WIDTH: nat := 8
  const LIMB: nat := 0x1_0000_0000

  lemma {:induction false} Pow2Add(a: nat, b: nat)
    ensures Pow2(a + b) == Pow2(a) * Pow2(b)
    decreases b
  {
    if b > 0 {
      Pow2Add(a, b - 1);
      Twice(Pow2(a), Pow2(b - 1));
    }
  }

  lemma Twice(x: nat, y: nat)
    ensures 2 * (x * y) == x * (2 * y)
  {
  }

  lemma {:induction false} Pow2Monotone(a: nat, b: nat)
    requires a <= b
    ensures Pow2(a) <= Pow2(b)
  {
    if a < b {
      Pow2Monotone(a, b - 1);
    }
  }

  lemma LimbIs()
    ensures Pow2(32) == LIMB
  {
    assert Pow2(8) == 256;
    Pow2Add(8, 8);
    Pow2Add(16, 16);
  }

  /** The worth of a one in limb `k`. */
  function Place(k: nat): (r: nat)
    ensures r >= 1
  {
    Pow2(32 * k)
  }

  lemma PlaceNext(k: nat)
    ensures Place(k + 1) == Place(k) * LIMB && Place(0) == 1
  {
    LimbIs();
    Pow2Add(32 * k, 32);
  }

  lemma PlaceAdd(a: nat, b: nat)
    ensures Place(a + b) == Place(a) * Place(b)
  {
    Pow2Add(32 * a, 32 * b);
  }

  ghost predicate Words(s: seq<nat>) {
    forall i | 0 <= i < |s| :: s[i] < LIMB
  }

  /** The number in the first `n` limbs. */
  function Val(s: seq<nat>, n: nat): nat
    requires n <= |s|
  {
    if n == 0 then 0 else Val(s, n - 1) + Place(n - 1) * s[n - 1]
  }

  lemma {:induction false} ValSame(s: seq<nat>, t: seq<nat>, n: nat)
    requires n <= |s| && n <= |t| && forall i | 0 <= i < n :: s[i] == t[i]
    ensures Val(s, n) == Val(t, n)
  {
    if n > 0 {
      ValSame(s, t, n - 1);
    }
  }

  lemma {:induction false} ValZero(s: seq<nat>, n: nat)
    requires n <= |s| && forall i | 0 <= i < n :: s[i] == 0
    ensures Val(s, n) == 0
  {
    if n > 0 {
      ValZero(s, n - 1);
    }
  }

  /** A limb changed. */
  lemma {:induction false} ValPut(s: seq<nat>, j: nat, x: nat, n: nat)
    requires j < |s| && n <= |s|
    ensures j >= n ==> Val(s[j := x], n) == Val(s, n)
    ensures j < n ==> Val(s[j := x], n) + Place(j) * s[j] == Val(s, n) + Place(j) * x
  {
    if n > 0 {
      ValPut(s, j, x, n - 1);
    }
  }

  lemma {:induction false} ValBound(s: seq<nat>, n: nat)
    requires n <= |s| && Words(s)
    ensures Val(s, n) < Place(n)
  {
    PlaceNext(0);
    if n > 0 {
      ValBound(s, n - 1);
      PlaceNext(n - 1);
      MulStep(Place(n - 1), s[n - 1], LIMB);
    }
  }

  /** The limbs from `k` on are zero. */
  lemma {:induction false} ValHighZero(s: seq<nat>, k: nat, n: nat)
    requires k <= n <= |s| && forall i | k <= i < n :: s[i] == 0
    ensures Val(s, n) == Val(s, k)
    decreases n
  {
    if k < n {
      ValHighZero(s, k, n - 1);
    }
  }

  // ---------------------------------------------------------------- steps with a carry

  /** Low word and carry of a sum that goes into a place. */
  lemma CarryStep(place: nat, n: nat)
    ensures place * n == place * (n % LIMB) + (place * LIMB) * (n / LIMB)
  {
    DivParts(n, LIMB);
    Distribute(place, n % LIMB, LIMB * (n / LIMB));
    Associate(place, LIMB, n / LIMB);
  }

  /** A product of two words. */
  function Times(a: nat, b: nat): nat { a * b }

  lemma Distribute(a: nat, b: nat, c: nat)
    ensures a * (b + c) == a * b + a * c
  {
  }

  /** What is left when whole multiples of the modulus are dropped. */
  lemma Reduced(v: nat, dropped: nat, total: nat, m: nat)
    requires v < m && v + m * dropped == total
    ensures v == total % m
  {
    DivIs(total, m, dropped);
  }

  // ---------------------------------------------------------------- bitwise or

  /** `x | y`. */
  function BitOr(x: nat, y: nat): nat
    decreases x + y
  {
    if x == 0 then y else if y == 0 then x
    else 2 * BitOr(x / 2, y / 2) + if x % 2 == 1 || y % 2 == 1 then 1 else 0
  }

  /** Numbers with no bit in common are added. */
  lemma {:induction false} OrAdds(x: nat, y: nat, s: nat)
    requires x < Pow2(s) && y % Pow2(s) == 0
    ensures BitOr(x, y) == x + y == BitOr(y, x)
    decreases s
  {
    if x > 0 && y > 0 {
      EvenHalf(y, s);
      OrAdds(x / 2, y / 2, s - 1);
    }
  }

  lemma EvenHalf(y: nat, s: nat)
    requires s > 0 && y % Pow2(s) == 0
    ensures y % 2 == 0 && (y / 2) % Pow2(s - 1) == 0
  {
    var h := Pow2(s - 1);
    var q := y / Pow2(s);
    DivParts(y, Pow2(s));
    Associate(2, h, q);
    DivExact(h, q);
  }
}
