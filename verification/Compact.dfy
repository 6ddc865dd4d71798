/**
 The compact form of difficulty targets (src/arith_uint256.cpp, `SetCompact` and
 `GetCompact`) on whole numbers.
 */
module Compact {
  import opened Arithmetic

  const TWO_256: nat := 0x1_0000000000000000_0000000000000000_0000000000000000_0000000000000000
  const SIGN: nat := 0x800000
  const EXPONENT: nat := 0x1000000

  function Pow256(k: nat): (r: nat)
    ensures r >= 1
  {
    if k == 0 then 1 else 256 * Pow256(k - 1)
  }

  lemma {:induction false} Pow256Add(a: nat, b: nat)
    ensures Pow256(a + b) == Pow256(a) * Pow256(b)
    decreases b
  {
    if b > 0 {
      Pow256Add(a, b - 1);
      Regroup(Pow256(a), Pow256(b - 1));
    }
  }

  lemma Regroup(x: nat, y: nat)
    ensures 256 * (x * y) == x * (256 * y)
  {
  }

  lemma Pow256Of32()
    ensures Pow256(32) == TWO_256
  {
    assert Pow256(4) == 0x1_0000_0000;
    Pow256Add(4, 4);
    Pow256Add(8, 8);
    Pow256Add(16, 16);
  }

  lemma {:induction false} Pow256Monotone(a: nat, b: nat)
    requires a <= b
    ensures Pow256(a) <= Pow256(b)
  {
    if a < b {
      Pow256Monotone(a, b - 1);
    }
  }

  lemma Pow256Order(a: nat, b: nat)
    ensures a <= b ==> Pow256(a) <= Pow256(b)
  {
    if a <= b {
      Pow256Monotone(a, b);
    }
  }

  /** The number of bytes a value needs: `(bits() + 7) / 8`. */
  function ByteLength(v: nat): (n: nat)
    ensures v < Pow256(n) && (v > 0 ==> n > 0 && Pow256(n - 1) <= v)
  {
    if v == 0 then 0 else
      var n := ByteLength(v / 256) + 1;
      assert v == 256 * (v / 256) + v % 256;
      n
  }

  lemma SmallPowers()
    ensures Pow256(0) == 1 && Pow256(1) == 0x100 && Pow256(2) == 0x10000 && Pow256(3) == EXPONENT
  {
  }

  lemma ByteLengthAtMost(v: nat, n: nat)
    requires v < Pow256(n)
    ensures ByteLength(v) <= n
  {
    if v > 0 {
      Pow256Order(n, ByteLength(v) - 1);
    }
  }

  /** There is only one such number. */
  lemma ByteLengthIs(v: nat, n: nat)
    requires n > 0 && Pow256(n - 1) <= v < Pow256(n)
    ensures ByteLength(v) == n
  {
    var l := ByteLength(v);
    if l < n {
      Pow256Monotone(l, n - 1);
    } else if n < l {
      Pow256Monotone(n, l - 1);
    }
  }

  lemma ByteLengthMonotone(x: nat, y: nat)
    requires x <= y
    ensures ByteLength(x) <= ByteLength(y)
  {
    var a, b := ByteLength(x), ByteLength(y);
    if b < a {
      Pow256Monotone(b, a - 1);
    }
  }

  // ---------------------------------------------------------------- decoding

  datatype Decoded = Decoded(target: nat, negative: bool, overflow: bool)

  function Size(compact: nat): nat { compact / EXPONENT }

  /** What a size below three moves the mantissa by. */
  function Point(size: nat): (r: nat)
    ensures 1 <= r <= EXPONENT
  {
    if size == 0 then 0x1000000 else if size == 1 then 0x10000 else if size == 2 then 0x100 else 1
  }

  /** The mantissa, less what falls below the point when the size is small. */
  function Word(compact: nat): (w: nat)
    ensures w <= compact % SIGN
  {
    DivAtMost(compact % SIGN, Point(Size(compact)));
    compact % SIGN / Point(Size(compact))
  }

  function SignBit(compact: nat): bool { compact / SIGN % 2 == 1 }

  function SetCompact(compact: nat): (d: Decoded)
    requires compact < 0x1_0000_0000
    ensures d.target < TWO_256
  {
    var size, word := Size(compact), Word(compact);
    var target := if size <= 3 then word else Pow256(size - 3) * word % TWO_256;
    Decoded(target, word != 0 && SignBit(compact),
            word != 0 && (size > 34 || (word > 0xff && size > 33) || (word > 0xffff && size > 32)))
  }

  // ---------------------------------------------------------------- encoding

  /** The leading three bytes. */
  function Leading(v: nat): (m: nat)
    ensures m < EXPONENT
  {
    var size := ByteLength(v);
    if size <= 3 then
      LeadingSmall(v);
      v * Point(size)
    else
      LeadingLarge(v);
      v / Pow256(size - 3)
  }

  lemma LeadingSmall(v: nat)
    requires ByteLength(v) <= 3
    ensures v * Point(ByteLength(v)) < EXPONENT
    ensures v > 0 ==> v * Point(ByteLength(v)) >= 0x10000
  {
    hide Pow256, ByteLength;
    SmallPowers();
    var size := ByteLength(v);
    if size == 1 {
      assert Point(size) == 0x10000;
    } else if size == 2 {
      assert Point(size) == 0x100;
    }
  }

  lemma LeadingLarge(v: nat)
    requires ByteLength(v) > 3
    ensures 0x10000 <= v / Pow256(ByteLength(v) - 3) < EXPONENT
  {
    var size := ByteLength(v);
    assert Pow256(2) == 0x10000 && Pow256(3) == EXPONENT;
    Pow256Add(3, size - 3);
    Pow256Add(2, size - 3);
    DivBelow(v, Pow256(size - 3), EXPONENT);
    DivBelow(v, Pow256(size - 3), 0x10000);
  }

  /** Mantissa and size: a leading byte that would read as a sign takes one byte more. */
  function Mantissa(v: nat): (m: nat)
    ensures m < SIGN
  {
    if Leading(v) >= SIGN then Leading(v) / 256 else Leading(v)
  }

  function Exponent(v: nat): nat {
    ByteLength(v) + if Leading(v) >= SIGN then 1 else 0
  }

  function GetCompact(v: nat): (compact: nat)
    requires v < TWO_256
    ensures compact < 0x1_0000_0000
  {
    SizeFits(v);
    Mantissa(v) + Exponent(v) * EXPONENT
  }

  /** Both assertions: the mantissa leaves the sign bit clear, the size fits a byte. */
  lemma SizeFits(v: nat)
    requires v < TWO_256
    ensures Exponent(v) <= 33
  {
    Pow256Of32();
    if ByteLength(v) > 32 {
      Pow256Monotone(32, ByteLength(v) - 1);
    }
  }

  // ---------------------------------------------------------------- there and back

  /** What one unit of the encoded mantissa is worth. */
  function Unit(v: nat): (r: nat)
    ensures r >= 1
  {
    if Exponent(v) > 3 then Pow256(Exponent(v) - 3) else 1
  }

  lemma Fields(m: nat, e: nat)
    requires m < SIGN
    ensures Size(m + e * EXPONENT) == e && (m + e * EXPONENT) % SIGN == m && !SignBit(m + e * EXPONENT)
  {
  }

  /** The mantissa is the value in whole units. */
  lemma MantissaIs(v: nat)
    ensures Exponent(v) <= 3 ==> Mantissa(v) == v * Point(Exponent(v)) && Mantissa(v) / Point(Exponent(v)) == v
    ensures Exponent(v) > 3 ==> Mantissa(v) == v / Unit(v)
  {
    var size := ByteLength(v);
    if size <= 3 {
      SmallMantissa(v);
    } else {
      var p := Pow256(size - 3);
      if Leading(v) >= SIGN {
        DivDiv(v, p, 256);
        assert 256 * p == Pow256(size - 2);
      }
    }
  }

  lemma SmallMantissa(v: nat)
    requires ByteLength(v) <= 3
    ensures Exponent(v) <= 3 ==> Mantissa(v) == v * Point(Exponent(v)) && Mantissa(v) / Point(Exponent(v)) == v
    ensures Exponent(v) > 3 ==> Mantissa(v) == v / 256 && Unit(v) == 256
  {
    hide Pow256, ByteLength;
    SmallPowers();
    var size := ByteLength(v);
    LeadingIs(v);
    if size == 0 {
      assert v == 0;
    } else if size == 1 {
      assert Leading(v) == v * 0x10000;
    } else if size == 2 {
      assert Leading(v) == v * 0x100;
    }
  }

  /** Encoding and decoding raises no flag and drops only what is below a unit. */
  lemma DecodeEncode(v: nat)
    requires v < TWO_256
    ensures var d := SetCompact(GetCompact(v));
      !d.negative && !d.overflow && d.target == Unit(v) * (v / Unit(v)) <= v && v - d.target < Unit(v)
  {
    hide Pow256, Mantissa, Exponent, Unit, Leading, Point, SetCompact;
    var m, e, u := Mantissa(v), Exponent(v), Unit(v);
    SizeFits(v);
    WordFits(v);
    DecodeOf(m, e);
    MantissaIs(v);
    UnitIs(v);
    Units(v, u);
    if e > 3 {
      assert SetCompact(GetCompact(v)).target == u * m % TWO_256;
      SmallMod(u * (v / u));
    } else {
      assert 1 * (v / 1) == v;
    }
  }

  lemma UnitsIn(v: nat)
    requires v > 0 && Exponent(v) > 3
    ensures Unit(v) * 0x8000 <= v
  {
    hide Pow256, Point, Leading, ByteLength;
    var size := ByteLength(v);
    LeadingAtLeast(v);
    LeadingIs(v);
    PointOne();
    SmallPowers();
    if size <= 3 {
      assert size == 3 && Leading(v) == v * 1 && Unit(v) == Pow256(1);
    } else {
      var p := Pow256(size - 3);
      DivParts(v, p);
      if Leading(v) >= SIGN {
        Pow256Add(1, size - 3);
        MulMonotone(p, SIGN, Leading(v));
      } else {
        MulMonotone(p, 0x8000, Leading(v));
      }
    }
  }

  /** At least 15 leading bits are kept. */
  lemma KeepsLeading(v: nat)
    requires v < TWO_256
    ensures (v - SetCompact(GetCompact(v)).target) * 0x8000 <= v
  {
    hide Pow256, SetCompact, GetCompact, ByteLength, Exponent;
    DecodeEncode(v);
    UnitIs(v);
    if Exponent(v) > 3 && v > 0 {
      UnitsIn(v);
    }
  }

  lemma Units(v: nat, u: nat)
    requires u >= 1
    ensures u * (v / u) <= v && v - u * (v / u) < u
  {
    DivParts(v, u);
  }

  lemma SmallMod(v: nat)
    requires v < TWO_256
    ensures v % TWO_256 == v
  {
  }

  /** What a mantissa and a size decode to. */
  lemma DecodeOf(m: nat, e: nat)
    requires m < SIGN && e <= 33 && (e > 32 ==> m <= 0xffff)
    ensures m + e * EXPONENT < 0x1_0000_0000
    ensures var d := SetCompact(m + e * EXPONENT);
      !d.negative && !d.overflow && d.target == if e <= 3 then m / Point(e) else Pow256(e - 3) * m % TWO_256
  {
    Fields(m, e);
    hide Pow256;
    PointOne();
  }

  lemma UnitIs(v: nat)
    ensures Unit(v) == if Exponent(v) > 3 then Pow256(Exponent(v) - 3) else 1
  {
  }

  /** At size 33 the mantissa has come down to two bytes. */
  lemma WordFits(v: nat)
    requires v < TWO_256
    ensures Exponent(v) > 32 ==> Mantissa(v) <= 0xffff
  {
    Pow256Of32();
    if ByteLength(v) > 32 {
      Pow256Monotone(32, ByteLength(v) - 1);
    }
  }

  lemma LeadingMonotone(x: nat, y: nat)
    requires x <= y && ByteLength(x) == ByteLength(y)
    ensures Leading(x) <= Leading(y)
  {
    hide Point, Pow256, ByteLength;
    if ByteLength(x) <= 3 {
      MulMonotone(Point(ByteLength(x)), x, y);
    } else {
      DivMonotone(x, y, Pow256(ByteLength(x) - 3));
    }
  }

  lemma LeadingAtLeast(v: nat)
    requires v > 0
    ensures Leading(v) >= 0x10000
  {
    if ByteLength(v) <= 3 {
      LeadingSmall(v);
    } else {
      LeadingLarge(v);
    }
  }

  /** The compact form keeps the order. */
  lemma EncodeMonotone(x: nat, y: nat)
    requires x <= y < TWO_256
    ensures GetCompact(x) <= GetCompact(y)
  {
    ByteLengthMonotone(x, y);
    if ByteLength(x) == ByteLength(y) {
      LeadingMonotone(x, y);
    } else if Exponent(x) == Exponent(y) {
      LeadingAtLeast(y);
    }
  }

  // ---------------------------------------------------------------- what the flags mean

  /** The number a compact word stands for, before it is cut to 256 bits. */
  function Meant(compact: nat): nat {
    if Size(compact) <= 3 then Word(compact) else Pow256(Size(compact) - 3) * Word(compact)
  }

  /** The overflow flag says exactly that the number meant does not fit. */
  lemma OverflowIs(compact: nat)
    requires compact < 0x1_0000_0000
    ensures SetCompact(compact).overflow <==> Meant(compact) >= TWO_256
    ensures SetCompact(compact).target == Meant(compact) % TWO_256
    ensures !SetCompact(compact).overflow ==> SetCompact(compact).target == Meant(compact)
  {
    var size, word := Size(compact), Word(compact);
    hide Pow256, Point;
    PointOne();
    if size > 3 {
      Pow256Of32();
      SmallPowers();
      Scaled(word, size - 3, 0);
      Scaled(word, size - 3, 1);
      Scaled(word, size - 3, 2);
      Scaled(word, size - 3, 3);
    }
  }

  /** The number meant is the low 23 bits, moved up or down by whole bytes so that three of them are
      before the point at size 3; what falls below the point is dropped. */
  lemma MeantIs(compact: nat)
    requires compact < 0x1_0000_0000
    ensures var m, e := compact % 0x800000, compact / 0x1000000;
      if e >= 3 then Meant(compact) == Pow256(e - 3) * m
      else Meant(compact) * Pow256(3 - e) <= m < (Meant(compact) + 1) * Pow256(3 - e)
  {
    hide Pow256;
    SmallPowers();
    var e := compact / 0x1000000;
    DivParts(compact % 0x800000, Point(e));
    assert 1 * Word(compact) == Word(compact);
  }

  /** The negative flag says exactly that the sign bit is set and the number meant is not zero. */
  lemma NegativeIs(compact: nat)
    requires compact < 0x1_0000_0000
    ensures SetCompact(compact).negative <==> compact % 0x1000000 >= 0x800000 && Meant(compact) != 0
  {
    hide Pow256, Point;
    if Size(compact) > 3 && Word(compact) > 0 {
      MulMonotone(Pow256(Size(compact) - 3), 1, Word(compact));
    }
  }

  /** `word` against `256^k`, moved up by `256^n`. */
  lemma Scaled(word: nat, n: nat, k: nat)
    requires k <= 32
    ensures word >= Pow256(k) && n + k >= 32 ==> Pow256(n) * word >= Pow256(32)
    ensures word < Pow256(k) && n + k <= 32 ==> Pow256(n) * word < Pow256(32)
  {
    hide Pow256;
    Pow256Add(k, n);
    if word >= Pow256(k) && n + k >= 32 {
      MulMonotone(Pow256(n), Pow256(k), word);
      Pow256Monotone(32, n + k);
    }
    if word < Pow256(k) && n + k <= 32 {
      Below(word, Pow256(k), Pow256(n));
      Pow256Monotone(n + k, 32);
    }
  }

  lemma Below(a: nat, b: nat, p: nat)
    requires a < b && p >= 1
    ensures a * p < b * p
  {
    MulStep(p, a, b);
  }

  /** Whatever a compact word without flags decodes to is left alone by encoding and decoding
      it again. */
  lemma DecodedIsFixed(compact: nat)
    requires compact < 0x1_0000_0000
    requires !SetCompact(compact).negative && !SetCompact(compact).overflow
    ensures var v := SetCompact(compact).target; SetCompact(GetCompact(v)).target == v
  {
    hide Pow256, SetCompact, GetCompact, Word, Exponent;
    var v, size, word := SetCompact(compact).target, Size(compact), Word(compact);
    OverflowIs(compact);
    UnitIs(v);
    DecodeEncode(v);
    if v > 0 {
      ExponentAtMost(v, size, word);
      if Exponent(v) > 3 {
        var k := Exponent(v) - 3;
        Pow256Add(k, size - 3 - k);
        WholeUnits(v, Pow256(k), word, Pow256(size - 3 - k));
      }
    }
  }

  lemma WholeUnits(v: nat, u: nat, word: nat, rest: nat)
    requires u >= 1 && v == (u * rest) * word
    ensures u * (v / u) == v
  {
    Associate(u, rest, word);
    DivExact(u, rest * word);
  }

  /** A value of `word` units needs no larger size than it was written with. */
  lemma ExponentAtMost(v: nat, size: nat, word: nat)
    requires v > 0 && word < SIGN && v == if size <= 3 then word else Pow256(size - 3) * word
    ensures Exponent(v) <= if size <= 3 then 3 else size
  {
    hide Pow256, Leading, ByteLength, Point;
    SmallPowers();
    var n := if size <= 3 then 0 else size - 3;
    ByteLengthAtMost(word, 3);
    ScaledLength(word, n);
    if ByteLength(word) == 3 {
      LeadingOf(v, word, n);
    }
  }

  lemma ScaledLength(word: nat, n: nat)
    requires word > 0
    ensures ByteLength(Pow256(n) * word) == ByteLength(word) + n
  {
    hide Pow256, ByteLength;
    var l := ByteLength(word);
    Pow256Add(n, l);
    Pow256Add(n, l - 1);
    MulStep(Pow256(n), word, Pow256(l));
    MulMonotone(Pow256(n), Pow256(l - 1), word);
    ByteLengthIs(Pow256(n) * word, n + l);
  }

  lemma LeadingOf(v: nat, word: nat, n: nat)
    requires v == Pow256(n) * word && ByteLength(v) == 3 + n
    ensures Leading(v) == word
  {
    hide Pow256, ByteLength, Point;
    PointOne();
    SmallPowers();
    if n > 0 {
      DivExact(Pow256(n), word);
      LeadingIs(v);
    }
  }

  lemma LeadingIs(v: nat)
    ensures Leading(v) == if ByteLength(v) <= 3 then v * Point(ByteLength(v)) else v / Pow256(ByteLength(v) - 3)
  {
  }

  lemma PointOne()
    ensures forall size: nat | size >= 3 :: Point(size) == 1
    ensures Pow256(0) == 1
  {
  }
}
