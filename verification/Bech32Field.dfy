/**
 The field of 1024 elements over which the generator of src/bech32.cpp splits: polynomials over two
 elements modulo h^10 + h^8 + h^5 + h + 1, in 10 bits.  Every element but 0 is a power of h.
 */
module Bech32Field {
  function Plus(v: bv10, w: bv10): bv10 {
    v ^ w
  }

  /** Times h. */
  function Times(v: bv10): bv10 {
    (v << 1) ^ (if v & 0x200 != 0 then 0x123 else 0)
  }

  function Up(v: bv10): bv10 {
    v << 1
  }

  function Over(v: bv10): bv10 {
    if v & 0x200 != 0 then 0x123 else 0
  }

  /** Times h, n times. */
  function Power(n: nat, v: bv10): bv10 {
    if n == 0 then v else Times(Power(n - 1, v))
  }

  /** `g`, if a bit is set. */
  function Part(v: bv10, bit: bv10, g: bv10): bv10 {
    if v & bit != 0 then g else 0
  }

  /** The last five bits of v, times g. */
  function HalfProduct(v: bv10, g: bv10): bv10 {
    var g1 := Times(g);
    var g2 := Times(g1);
    var g3 := Times(g2);
    var s0 := if v & 1 != 0 then g else 0;
    var s1 := if v & 2 != 0 then Plus(s0, g1) else s0;
    var s2 := if v & 4 != 0 then Plus(s1, g2) else s1;
    var s3 := if v & 8 != 0 then Plus(s2, g3) else s2;
    if v & 0x10 != 0 then Plus(s3, Times(g3)) else s3
  }

  function Parts(v: bv10, g: bv10): bv10 {
    var g1 := Times(g);
    var g2 := Times(g1);
    var g3 := Times(g2);
    Plus(Plus(Plus(Plus(Part(v, 1, g), Part(v, 2, g1)), Part(v, 4, g2)), Part(v, 8, g3)), Part(v, 0x10, Times(g3)))
  }

  function Upper(v: bv10): bv10 {
    v >> 5
  }

  function FiveTimes(g: bv10): bv10 {
    Times(Times(Times(Times(Times(g)))))
  }

  function Product(v: bv10, g: bv10): bv10 {
    Plus(HalfProduct(v, g), HalfProduct(Upper(v), FiveTimes(g)))
  }

  // ---------------------------------------------------------------- sums

  lemma PlusAssociative(u: bv10, v: bv10, w: bv10)
    ensures Plus(Plus(u, v), w) == Plus(u, Plus(v, w))
  {
  }

  lemma PlusCommutative(v: bv10, w: bv10)
    ensures Plus(v, w) == Plus(w, v)
  {
  }

  lemma PlusZero(v: bv10)
    ensures Plus(0, v) == v && Plus(v, 0) == v
  {
  }

  lemma PlusEqual(v: bv10, w: bv10)
    ensures Plus(v, w) == 0 <==> v == w
  {
  }

  lemma PlusPairs(a: bv10, b: bv10, c: bv10, d: bv10)
    ensures Plus(Plus(a, b), Plus(c, d)) == Plus(Plus(a, c), Plus(b, d))
  {
    hide Plus;
    PlusAssociative(a, b, Plus(c, d));
    PlusAssociative(b, c, d);
    PlusCommutative(b, c);
    PlusAssociative(c, b, d);
    PlusAssociative(a, c, Plus(b, d));
  }

  // ---------------------------------------------------------------- powers

  lemma TimesPlus(v: bv10, w: bv10)
    ensures Times(Plus(v, w)) == Plus(Times(v), Times(w))
  {
    hide Plus, Up, Over, Times;
    TimesIs(v);
    TimesIs(w);
    TimesIs(Plus(v, w));
    UpPlus(v, w);
    OverPlus(v, w);
    PlusPairs(Up(v), Up(w), Over(v), Over(w));
  }

  lemma TimesIs(v: bv10)
    ensures Times(v) == Plus(Up(v), Over(v))
  {
  }

  lemma UpPlus(v: bv10, w: bv10)
    ensures Up(Plus(v, w)) == Plus(Up(v), Up(w))
  {
  }

  lemma OverPlus(v: bv10, w: bv10)
    ensures Over(Plus(v, w)) == Plus(Over(v), Over(w))
  {
  }

  lemma TimesZero(v: bv10)
    ensures Times(v) == 0 <==> v == 0
  {
  }

  lemma {:induction false} PowerPlus(n: nat, v: bv10, w: bv10)
    ensures Power(n, Plus(v, w)) == Plus(Power(n, v), Power(n, w))
  {
    hide Plus, Times;
    if n > 0 {
      PowerPlus(n - 1, v, w);
      TimesPlus(Power(n - 1, v), Power(n - 1, w));
    }
  }

  lemma {:induction false} PowerZero(n: nat, v: bv10)
    ensures Power(n, v) == 0 <==> v == 0
  {
    hide Times;
    if n > 0 {
      PowerZero(n - 1, v);
      TimesZero(Power(n - 1, v));
    }
  }

  lemma PowerInjective(n: nat, v: bv10, w: bv10)
    requires Power(n, v) == Power(n, w)
    ensures v == w
  {
    hide Plus, Power;
    PlusEqual(Power(n, v), Power(n, w));
    PowerPlus(n, v, w);
    PowerZero(n, Plus(v, w));
    PlusEqual(v, w);
  }

  lemma {:induction false} PowerJoin(m: nat, n: nat, v: bv10)
    ensures Power(m, Power(n, v)) == Power(m + n, v)
  {
    hide Times;
    if m > 0 {
      PowerJoin(m - 1, n, v);
    }
  }

  // ---------------------------------------------------------------- products

  lemma PartTimes(v: bv10, bit: bv10, g: bv10)
    ensures Part(v, bit, Times(g)) == Times(Part(v, bit, g))
  {
  }

  lemma PartPlus(v: bv10, bit: bv10, g: bv10, k: bv10)
    ensures Part(v, bit, Plus(g, k)) == Plus(Part(v, bit, g), Part(v, bit, k))
  {
  }

  lemma PlusPart(s: bv10, v: bv10, bit: bv10, g: bv10)
    ensures Plus(s, Part(v, bit, g)) == if v & bit != 0 then Plus(s, g) else s
  {
  }

  lemma HalfProductParts(v: bv10, g: bv10)
    ensures HalfProduct(v, g) == Parts(v, g)
  {
    hide Times, Plus, Part;
    var g1 := Times(g);
    var g2 := Times(g1);
    var g3 := Times(g2);
    var s0 := Part(v, 1, g);
    var s1 := Plus(s0, Part(v, 2, g1));
    var s2 := Plus(s1, Part(v, 4, g2));
    FirstPart(v, g);
    PlusPart(s0, v, 2, g1);
    PlusPart(s1, v, 4, g2);
    PlusPart(s2, v, 8, g3);
    PlusPart(Plus(s2, Part(v, 8, g3)), v, 0x10, Times(g3));
  }

  lemma FirstPart(v: bv10, g: bv10)
    ensures Part(v, 1, g) == if v & 1 != 0 then g else 0
  {
  }

  lemma HalfProductTimes(v: bv10, g: bv10)
    ensures HalfProduct(v, Times(g)) == Times(HalfProduct(v, g))
  {
    hide Plus, Times, Part, HalfProduct;
    HalfProductParts(v, g);
    HalfProductParts(v, Times(g));
    var g1 := Times(g);
    var g2 := Times(g1);
    var g3 := Times(g2);
    var p0, p1, p2, p3, p4 := Part(v, 1, g), Part(v, 2, g1), Part(v, 4, g2), Part(v, 8, g3), Part(v, 0x10, Times(g3));
    PartTimes(v, 1, g);
    PartTimes(v, 2, g1);
    PartTimes(v, 4, g2);
    PartTimes(v, 8, g3);
    PartTimes(v, 0x10, Times(g3));
    TimesPlus(p0, p1);
    TimesPlus(Plus(p0, p1), p2);
    TimesPlus(Plus(Plus(p0, p1), p2), p3);
    TimesPlus(Plus(Plus(Plus(p0, p1), p2), p3), p4);
  }

  lemma HalfProductPlus(v: bv10, g: bv10, k: bv10)
    ensures HalfProduct(v, Plus(g, k)) == Plus(HalfProduct(v, g), HalfProduct(v, k))
  {
    hide Plus, Times, Part, HalfProduct;
    HalfProductParts(v, g);
    HalfProductParts(v, k);
    HalfProductParts(v, Plus(g, k));
    var g1, k1 := Times(g), Times(k);
    var g2, k2 := Times(g1), Times(k1);
    var g3, k3 := Times(g2), Times(k2);
    TimesPlus(g, k);
    TimesPlus(g1, k1);
    TimesPlus(g2, k2);
    TimesPlus(g3, k3);
    var p0, p1, p2, p3, p4 := Part(v, 1, g), Part(v, 2, g1), Part(v, 4, g2), Part(v, 8, g3), Part(v, 0x10, Times(g3));
    var q0, q1, q2, q3, q4 := Part(v, 1, k), Part(v, 2, k1), Part(v, 4, k2), Part(v, 8, k3), Part(v, 0x10, Times(k3));
    PartPlus(v, 1, g, k);
    PartPlus(v, 2, g1, k1);
    PartPlus(v, 4, g2, k2);
    PartPlus(v, 8, g3, k3);
    PartPlus(v, 0x10, Times(g3), Times(k3));
    PlusPairs(p0, q0, p1, q1);
    PlusPairs(Plus(p0, p1), Plus(q0, q1), p2, q2);
    PlusPairs(Plus(Plus(p0, p1), p2), Plus(Plus(q0, q1), q2), p3, q3);
    PlusPairs(Plus(Plus(Plus(p0, p1), p2), p3), Plus(Plus(Plus(q0, q1), q2), q3), p4, q4);
  }

  lemma ProductTimes(v: bv10, g: bv10)
    ensures Product(v, Times(g)) == Times(Product(v, g))
  {
    hide Plus, Times, HalfProduct;
    HalfProductTimes(v, g);
    HalfProductTimes(Upper(v), FiveTimes(g));
    TimesPlus(HalfProduct(v, g), HalfProduct(Upper(v), FiveTimes(g)));
  }

  lemma FiveTimesPlus(g: bv10, k: bv10)
    ensures FiveTimes(Plus(g, k)) == Plus(FiveTimes(g), FiveTimes(k))
  {
    hide Plus, Times;
    TimesPlus(g, k);
    TimesPlus(Times(g), Times(k));
    TimesPlus(Times(Times(g)), Times(Times(k)));
    TimesPlus(Times(Times(Times(g))), Times(Times(Times(k))));
    TimesPlus(Times(Times(Times(Times(g)))), Times(Times(Times(Times(k)))));
  }

  lemma ProductPlus(v: bv10, g: bv10, k: bv10)
    ensures Product(v, Plus(g, k)) == Plus(Product(v, g), Product(v, k))
  {
    hide Plus, HalfProduct, FiveTimes;
    var u := Upper(v);
    HalfProductPlus(v, g, k);
    FiveTimesPlus(g, k);
    HalfProductPlus(u, FiveTimes(g), FiveTimes(k));
    PlusPairs(HalfProduct(v, g), HalfProduct(v, k), HalfProduct(u, FiveTimes(g)), HalfProduct(u, FiveTimes(k)));
  }

  lemma LowerBits(v: bv10)
    ensures HalfProduct(v, 1) == v & 0x1f
  {
  }

  lemma UpperBits(v: bv10)
    ensures HalfProduct(Upper(v), 0x20) == v & 0x3e0
  {
  }

  lemma BothBits(v: bv10)
    ensures Plus(v & 0x1f, v & 0x3e0) == v
  {
  }

  lemma FiveTimesOne()
    ensures FiveTimes(1) == 0x20
  {
  }

  lemma ProductOne(v: bv10)
    ensures Product(v, 1) == v
  {
    hide Plus, FiveTimes, HalfProduct, Upper;
    LowerBits(v);
    UpperBits(v);
    BothBits(v);
    FiveTimesOne();
  }

  /** A power is fixed by what it makes of 1. */
  lemma {:induction false} PowerIs(n: nat, v: bv10)
    ensures Power(n, v) == Product(v, Power(n, 1))
  {
    hide Times, Product;
    if n == 0 {
      ProductOne(v);
    } else {
      PowerIs(n - 1, v);
      ProductTimes(v, Power(n - 1, 1));
    }
  }

  ghost predicate IsPower(n: nat, g: bv10) {
    Power(n, 1) == g
  }

  lemma Joined(m: nat, g: bv10, n: nat, k: bv10, r: bv10)
    requires IsPower(m, g) && IsPower(n, k) && Product(g, k) == r
    ensures IsPower(m + n, r)
  {
    hide Times, Product, Power;
    PowerJoin(n, m, 1);
    PowerIs(n, g);
  }

  // ---------------------------------------------------------------- some powers of h

  lemma Squares()
    ensures IsPower(1, 2) && IsPower(2, 4) && IsPower(4, 0x10) && IsPower(8, 0x100) && IsPower(16, 0x119)
  {
    assert Power(0, 1) == 1 && Power(1, 1) == 2;
    Joined(1, 2, 1, 2, 4);
    Joined(2, 4, 2, 4, 0x10);
    Joined(4, 0x10, 4, 0x10, 0x100);
    Joined(8, 0x100, 8, 0x100, 0x119);
  }

  lemma MoreSquares()
    ensures IsPower(32, 0x58) && IsPower(64, 0xef) && IsPower(128, 0x346) && IsPower(256, 0x1e5)
  {
    hide IsPower;
    Squares();
    Joined(16, 0x119, 16, 0x119, 0x58);
    Joined(32, 0x58, 32, 0x58, 0xef);
    Joined(64, 0xef, 64, 0xef, 0x346);
    Joined(128, 0x346, 128, 0x346, 0x1e5);
  }

  lemma RootExponents()
    ensures IsPower(24, 0x3f0) && IsPower(25, 0x2c3) && IsPower(26, 0xa5)
  {
    hide IsPower, Product;
    Squares();
    FirstRootProduct();
    OtherRootProducts();
    Joined(16, 0x119, 8, 0x100, 0x3f0);
    Joined(24, 0x3f0, 1, 2, 0x2c3);
    Joined(25, 0x2c3, 1, 2, 0xa5);
  }

  lemma FirstRootProduct()
    ensures Product(0x119, 0x100) == 0x3f0
  {
  }

  lemma OtherRootProducts()
    ensures Product(0x3f0, 2) == 0x2c3 && Product(0x2c3, 2) == 0xa5
  {
  }

  lemma SixthPowers()
    ensures IsPower(144, 0x2ba) && IsPower(150, 0xa6) && IsPower(156, 0x98)
  {
    hide IsPower;
    Squares();
    MoreSquares();
    Joined(4, 0x10, 2, 4, 0x40);
    Joined(128, 0x346, 16, 0x119, 0x2ba);
    Joined(144, 0x2ba, 6, 0x40, 0xa6);
    Joined(150, 0xa6, 6, 0x40, 0x98);
  }

  lemma CubeRoots()
    ensures IsPower(341, 0x36) && IsPower(682, 0x37)
  {
    hide IsPower;
    Squares();
    MoreSquares();
    Joined(256, 0x1e5, 64, 0xef, 0x27a);
    Joined(320, 0x27a, 16, 0x119, 0x2c2);
    Joined(336, 0x2c2, 4, 0x10, 0x1b);
    Joined(340, 0x1b, 1, 2, 0x36);
    Joined(341, 0x36, 341, 0x36, 0x37);
  }

  lemma LargePowers()
    ensures IsPower(426, 0x36b) && IsPower(429, 0xb1)
  {
    hide IsPower;
    Squares();
    MoreSquares();
    Joined(256, 0x1e5, 128, 0x346, 0x21c);
    Joined(384, 0x21c, 32, 0x58, 0x3ef);
    Joined(416, 0x3ef, 8, 0x100, 0x192);
    Joined(424, 0x192, 2, 4, 0x36b);
    Joined(424, 0x192, 4, 0x10, 0x2c9);
    Joined(428, 0x2c9, 1, 2, 0xb1);
  }

  lemma SmallPowers()
    ensures IsPower(33, 0xb0) && IsPower(93, 0x36a)
  {
    hide IsPower;
    Squares();
    MoreSquares();
    RootExponents();
    Joined(32, 0x58, 1, 2, 0xb0);
    Joined(64, 0xef, 25, 0x2c3, 0x1da);
    Joined(89, 0x1da, 4, 0x10, 0x36a);
  }

  lemma FullCircle()
    ensures IsPower(1023, 1)
  {
    hide IsPower;
    CubeRoots();
    Joined(682, 0x37, 341, 0x36, 1);
  }

  // ---------------------------------------------------------------- the order of h

  lemma FixedLess(m: nat, n: nat, v: bv10)
    requires m <= n && Power(m, v) == v && Power(n, v) == v
    ensures Power(n - m, v) == v
  {
    hide Power;
    PowerJoin(m, n - m, v);
    PowerInjective(m, Power(n - m, v), v);
  }

  lemma {:induction false} FixedOften(k: nat, n: nat, v: bv10)
    requires Power(n, v) == v
    ensures Power(k * n, v) == v
  {
    hide Times;
    if k > 0 {
      FixedOften(k - 1, n, v);
      PowerJoin(n, (k - 1) * n, v);
      assert n + (k - 1) * n == k * n;
    }
  }

  /** Two powers that fix v have a common divisor that fixes v. */
  lemma {:induction false} CommonFixed(m: nat, n: nat, v: bv10) returns (d: nat, p: nat, q: nat)
    requires m > 0 && n > 0 && Power(m, v) == v && Power(n, v) == v
    ensures d * p == m && d * q == n && Power(d, v) == v
    decreases m + n
  {
    hide Power;
    if m == n {
      return m, 1, 1;
    } else if m < n {
      FixedLess(m, n, v);
      d, p, q := CommonFixed(m, n - m, v);
      assert d * (p + q) == d * p + d * q;
      q := p + q;
    } else {
      FixedLess(n, m, v);
      d, p, q := CommonFixed(m - n, n, v);
      assert d * (p + q) == d * p + d * q;
      p := p + q;
    }
  }

  /** The factors of 1023 between 1 and 33. */
  lemma SmallFactor(d: nat, q: nat)
    requires d * q == 1023 && 1 < q < 33
    ensures q == 3 || q == 11 || q == 31
  {
  }

  /** No power of h plus 1 is 0, if it is itself a power of h. */
  lemma NotFixed(n: nat, g: bv10, z: nat, v: bv10)
    requires IsPower(n, g) && IsPower(z, Plus(g, 1)) && Power(n, v) == v
    ensures v == 0
  {
    hide Power, Product, Plus;
    PowerIs(n, v);
    PowerIs(z, v);
    ProductPlus(v, g, 1);
    ProductOne(v);
    PlusEqual(v, v);
    PowerZero(z, v);
  }

  lemma FactorsMove(d: nat, v: bv10)
    requires (d == 33 || d == 93 || d == 341) && Power(d, v) == v
    ensures v == 0
  {
    hide Power, IsPower;
    SmallPowers();
    LargePowers();
    CubeRoots();
    SumsWithOne();
    if d == 33 {
      NotFixed(33, 0xb0, 429, v);
    } else if d == 93 {
      NotFixed(93, 0x36a, 426, v);
    } else {
      NotFixed(341, 0x36, 682, v);
    }
  }

  lemma SumsWithOne()
    ensures Plus(0xb0, 1) == 0xb1 && Plus(0x36a, 1) == 0x36b && Plus(0x36, 1) == 0x37
  {
  }

  lemma CircleFixes(v: bv10)
    ensures Power(1023, v) == v
  {
    hide Power, Product;
    FullCircle();
    PowerIs(1023, v);
    ProductOne(v);
  }

  /** h has the order 1023: no lower power fixes anything but 0. */
  lemma Period(n: nat, v: bv10)
    requires 0 < n < 1023
    ensures Power(n, v) == v ==> v == 0
  {
    hide Power;
    if Power(n, v) == v {
      CircleFixes(v);
      var d, p, q := CommonFixed(n, 1023, v);
      assert q > 1;
      if q < 33 {
        SmallFactor(d, q);
        FactorsMove(d, v);
      } else {
        if d > 1 {
          SmallFactor(q, d);
        }
        FixedOften(if d == 31 then 3 else 33 / d, d, v);
        FactorsMove(if d == 31 then 93 else 33, v);
      }
    }
  }
}
