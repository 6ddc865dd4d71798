/**
 The generator of src/bech32.cpp has three roots that are powers of h with consecutive exponents, 24 to 26.
 So no sum of up to three constants at places less than 1023 apart is a multiple of it.
 */
module Bech32Roots {
  import opened Bech32Checksum
  import opened Bech32Field

  const LENGTH: nat := 1023

  function Last(c: bv32): bv32 {
    c & 31
  }

  function Rest(c: bv32): bv32 {
    c >> 5
  }

  function Select(c: bv32, bit: bv32, g: bv10): bv10 {
    if c & bit != 0 then g else 0
  }

  /** The field of 32 elements, a^5 = a^3 + 1, inside that of 1024. */
  function Embed(c: bv32): bv10 {
    (if c & 1 != 0 then 1 else 0) ^ (if c & 2 != 0 then 0xe else 0) ^ (if c & 4 != 0 then 0x54 else 0)
    ^ (if c & 8 != 0 then 0x358 else 0) ^ (if c & 16 != 0 then 0xbf else 0)
  }

  /** The value of the last n coefficients as a polynomial, at g. */
  function Value(n: nat, c: bv32, g: bv10): bv10 {
    if n == 0 then 0 else Plus(Embed(Last(c)), Product(Value(n - 1, Rest(c), g), g))
  }

  predicate IsExponent(t: nat) {
    24 <= t <= 26
  }

  /** h to the power of t, and its sixth power. */
  function Root(t: nat): bv10 {
    if t == 24 then 0x3f0 else if t == 25 then 0x2c3 else 0xa5
  }

  function SixthPower(t: nat): bv10 {
    if t == 24 then 0x2ba else if t == 25 then 0xa6 else 0x98
  }

  lemma RootPowers(t: nat)
    requires IsExponent(t)
    ensures IsPower(t, Root(t)) && IsPower(6 * t, SixthPower(t))
  {
    hide IsPower;
    RootExponents();
    SixthPowers();
  }

  // ---------------------------------------------------------------- values of sums

  lemma SelectXor(a: bv32, b: bv32, bit: bv32, g: bv10)
    requires bit == 1 || bit == 2 || bit == 4 || bit == 8 || bit == 16
    ensures Select(Xor(a, b), bit, g) == Plus(Select(a, bit, g), Select(b, bit, g))
  {
    BitOf(a, b, bit);
  }

  lemma EmbedParts(c: bv32)
    ensures Embed(c) == SelectAll(c, 1, 0xe, 0x54, 0x358, 0xbf)
  {
  }

  function SelectAll(c: bv32, g1: bv10, g2: bv10, g4: bv10, g8: bv10, g16: bv10): bv10 {
    Plus(Plus(Plus(Plus(Select(c, 1, g1), Select(c, 2, g2)), Select(c, 4, g4)), Select(c, 8, g8)), Select(c, 16, g16))
  }

  lemma EmbedXor(a: bv32, b: bv32)
    ensures Embed(Xor(a, b)) == Plus(Embed(a), Embed(b))
  {
    hide Plus, Select, Xor, Embed;
    EmbedParts(a);
    EmbedParts(b);
    EmbedParts(Xor(a, b));
    SelectXor(a, b, 1, 1);
    SelectXor(a, b, 2, 0xe);
    SelectXor(a, b, 4, 0x54);
    SelectXor(a, b, 8, 0x358);
    SelectXor(a, b, 16, 0xbf);
    var a1, a2, a3, a4, a5 := Select(a, 1, 1), Select(a, 2, 0xe), Select(a, 4, 0x54), Select(a, 8, 0x358), Select(a, 16, 0xbf);
    var b1, b2, b3, b4, b5 := Select(b, 1, 1), Select(b, 2, 0xe), Select(b, 4, 0x54), Select(b, 8, 0x358), Select(b, 16, 0xbf);
    PlusPairs(a1, b1, a2, b2);
    PlusPairs(Plus(a1, a2), Plus(b1, b2), a3, b3);
    PlusPairs(Plus(Plus(a1, a2), a3), Plus(Plus(b1, b2), b3), a4, b4);
    PlusPairs(Plus(Plus(Plus(a1, a2), a3), a4), Plus(Plus(Plus(b1, b2), b3), b4), a5, b5);
  }

  lemma SplitXor(a: bv32, b: bv32)
    ensures Last(Xor(a, b)) == Xor(Last(a), Last(b)) && Rest(Xor(a, b)) == Xor(Rest(a), Rest(b))
  {
  }

  lemma ProductSum(t: nat, g: bv10, v: bv10, w: bv10)
    requires IsPower(t, g)
    ensures Product(Plus(v, w), g) == Plus(Product(v, g), Product(w, g))
  {
    hide Plus, Product, Power;
    PowerIs(t, v);
    PowerIs(t, w);
    PowerIs(t, Plus(v, w));
    PowerPlus(t, v, w);
  }

  lemma {:induction false} ValueXor(n: nat, a: bv32, b: bv32, t: nat, g: bv10)
    requires IsPower(t, g)
    ensures Value(n, Xor(a, b), g) == Plus(Value(n, a, g), Value(n, b, g))
  {
    hide Plus, Product, Xor, Embed, Last, Rest, IsPower;
    if n == 0 {
      PlusZero(0);
    } else {
      SplitXor(a, b);
      EmbedXor(Last(a), Last(b));
      ValueXor(n - 1, Rest(a), Rest(b), t, g);
      var v, w := Value(n - 1, Rest(a), g), Value(n - 1, Rest(b), g);
      ProductSum(t, g, v, w);
      PlusPairs(Embed(Last(a)), Embed(Last(b)), Product(v, g), Product(w, g));
    }
  }

  lemma NothingEmbedded()
    ensures Embed(0) == 0 && Last(0) == 0 && Rest(0) == 0
  {
  }

  lemma ProductZero(g: bv10)
    ensures Product(0, g) == 0
  {
    hide Times, FiveTimes;
  }

  lemma {:induction false} ValueZero(n: nat, g: bv10)
    ensures Value(n, 0, g) == 0
  {
    hide Product, Embed;
    if n > 0 {
      NothingEmbedded();
      ProductZero(g);
      ValueZero(n - 1, g);
    }
  }

  // ---------------------------------------------------------------- the roots

  /** Horner's rule on six coefficients. */
  function Horner(c: bv32, g: bv10): bv10 {
    var v4 := Next(c >> 20, Embed(c >> 25), g);
    var v3 := Next(c >> 15, v4, g);
    var v2 := Next(c >> 10, v3, g);
    Next(c, Next(c >> 5, v2, g), g)
  }

  function Next(c: bv32, v: bv10, g: bv10): bv10 {
    Plus(Embed(Last(c)), Product(v, g))
  }

  lemma AllCoefficients(c: bv32)
    requires Packed(c)
    ensures Rest(c) == c >> 5 && Rest(c >> 5) == c >> 10 && Rest(c >> 10) == c >> 15
    ensures Rest(c >> 15) == c >> 20 && Rest(c >> 20) == c >> 25 && Last(c >> 25) == c >> 25
  {
  }

  lemma ValueOne(c: bv32, g: bv10)
    ensures Value(1, c, g) == Embed(Last(c))
  {
    hide Plus, Product, Embed, Last, Rest;
    assert Value(0, Rest(c), g) == 0;
    ProductZero(g);
    PlusZero(Embed(Last(c)));
  }

  lemma HornerIs(c: bv32, g: bv10)
    requires Packed(c)
    ensures Value(6, c, g) == Horner(c, g)
  {
    hide Plus, Product, Embed, Last, Rest;
    AllCoefficients(c);
    ValueOne(c >> 25, g);
    assert Value(2, c >> 20, g) == Next(c >> 20, Value(1, c >> 25, g), g);
    assert Value(3, c >> 15, g) == Next(c >> 15, Value(2, c >> 20, g), g);
    assert Value(4, c >> 10, g) == Next(c >> 10, Value(3, c >> 15, g), g);
    assert Value(5, c >> 5, g) == Next(c >> 5, Value(4, c >> 10, g), g);
  }

  /** What a bit of the coefficient in front adds is worth s times the sixth power of the root. */
  predicate AtRoots(c: bv32, s: bv10) {
    && Horner(c, 0x3f0) == Product(s, 0x2ba)
    && Horner(c, 0x2c3) == Product(s, 0xa6)
    && Horner(c, 0xa5) == Product(s, 0x98)
  }

  lemma GeneratorsAtRoots()
    ensures AtRoots(0x3b6a57b2, 1)
    ensures AtRoots(0x26508e6d, 0xe)
    ensures AtRoots(0x1ea119fa, 0x54)
    ensures AtRoots(0x3d4233dd, 0x358)
    ensures AtRoots(0x2a1462b3, 0xbf)
  {
  }

  lemma PickedValue(t: nat, c: bv32, bit: bv32, p: bv32, s: bv10)
    requires IsExponent(t) && AtRoots(p, s) && Packed(p)
    ensures Value(6, Pick(c, bit, p), Root(t)) == Power(6 * t, Select(c, bit, s))
  {
    hide Product, Power, Value, Horner;
    RootPowers(t);
    HornerIs(p, Root(t));
    ValueZero(6, Root(t));
    PowerIs(6 * t, s);
    PowerZero(6 * t, 0);
  }

  /** The generator has the roots. */
  lemma GeneratorsValue(t: nat, c: bv32)
    requires IsExponent(t)
    ensures Value(6, Generators(c), Root(t)) == Power(6 * t, Embed(c))
  {
    hide Generators, Plus, Xor, Power, Value, Select, Pick, Embed, Root, IsPower, AtRoots;
    var n, g := 6 * t, Root(t);
    RootPowers(t);
    GeneratorsAtRoots();
    GeneratorsParts(c);
    EmbedParts(c);
    PickedValue(t, c, 1, 0x3b6a57b2, 1);
    PickedValue(t, c, 2, 0x26508e6d, 0xe);
    PickedValue(t, c, 4, 0x1ea119fa, 0x54);
    PickedValue(t, c, 8, 0x3d4233dd, 0x358);
    PickedValue(t, c, 16, 0x2a1462b3, 0xbf);
    var p1, p2, p4, p8, p16 := Pick(c, 1, 0x3b6a57b2), Pick(c, 2, 0x26508e6d), Pick(c, 4, 0x1ea119fa), Pick(c, 8, 0x3d4233dd), Pick(c, 16, 0x2a1462b3);
    ValueXor(6, p1, p2, t, g);
    ValueXor(6, Xor(p1, p2), p4, t, g);
    ValueXor(6, Xor(Xor(p1, p2), p4), p8, t, g);
    ValueXor(6, Xor(Xor(Xor(p1, p2), p4), p8), p16, t, g);
    var s1, s2, s4, s8, s16 := Select(c, 1, 1), Select(c, 2, 0xe), Select(c, 4, 0x54), Select(c, 8, 0x358), Select(c, 16, 0xbf);
    PowerPlus(n, s1, s2);
    PowerPlus(n, Plus(s1, s2), s4);
    PowerPlus(n, Plus(Plus(s1, s2), s4), s8);
    PowerPlus(n, Plus(Plus(Plus(s1, s2), s4), s8), s16);
  }

  // ---------------------------------------------------------------- times x is times the root

  function Lower(c: bv32): bv32 {
    c & 0x1ffffff
  }

  function Highest(c: bv32): bv32 {
    c & 0x3e000000
  }

  lemma LowerHighest(c: bv32)
    requires Packed(c)
    ensures Xor(Lower(c), Highest(c)) == c && Last(Low(c)) == 0 && Rest(Low(c)) == Lower(c)
  {
  }

  lemma LowerEnds(c: bv32)
    ensures Rest(Rest(Rest(Rest(Rest(Lower(c)))))) == 0
  {
  }

  function Dropped(n: nat, c: bv32): bv32 {
    if n == 0 then c else Dropped(n - 1, Rest(c))
  }

  lemma {:induction false} ValueShort(n: nat, c: bv32, g: bv10)
    requires Dropped(n, c) == 0
    ensures Value(n + 1, c, g) == Value(n, c, g)
  {
    hide Product, Embed, Rest, Last;
    if n == 0 {
      ValueZero(1, g);
    } else {
      ValueShort(n - 1, Rest(c), g);
    }
  }

  lemma LowerValue(c: bv32, g: bv10)
    ensures Value(6, Lower(c), g) == Value(5, Lower(c), g)
  {
    hide Product, Embed, Rest, Lower, Value;
    LowerEnds(c);
    var l := Lower(c);
    assert Dropped(2, Rest(Rest(Rest(l)))) == Dropped(1, Rest(Rest(Rest(Rest(l))))) == Dropped(0, Rest(Rest(Rest(Rest(Rest(l))))));
    assert Dropped(5, l) == Dropped(4, Rest(l)) == Dropped(3, Rest(Rest(l)));
    ValueShort(5, l, g);
  }

  lemma LowValue(c: bv32, t: nat)
    requires IsExponent(t) && Packed(c)
    ensures Value(6, Low(c), Root(t)) == Power(t, Value(6, Lower(c), Root(t)))
  {
    hide Product, Embed, Rest, Last, Power, Lower, Low, Root, Plus;
    RootPowers(t);
    LowerHighest(c);
    LowerValue(c, Root(t));
    NothingEmbedded();
    PowerIs(t, Value(5, Lower(c), Root(t)));
    PlusZero(Power(t, Value(5, Lower(c), Root(t))));
  }

  lemma NextNothing(c: bv32, v: bv10, g: bv10)
    requires Last(c) == 0
    ensures Next(c, v, g) == Product(v, g)
  {
    hide Product, Embed, Last, Plus;
    NothingEmbedded();
    PlusZero(Product(v, g));
  }

  predicate OnlyHighest(h: bv32) {
    && Packed(h) && Last(h) == 0 && Last(h >> 5) == 0 && Last(h >> 10) == 0
    && Last(h >> 15) == 0 && Last(h >> 20) == 0
  }

  lemma HornerAlone(h: bv32, g: bv10)
    requires OnlyHighest(h)
    ensures Horner(h, g) == Product(Product(Product(Product(Product(Embed(h >> 25), g), g), g), g), g)
  {
    hide Embed, Last, Next, Packed, Product;
    var v := Embed(h >> 25);
    NextNothing(h >> 20, v, g);
    NextNothing(h >> 15, Product(v, g), g);
    NextNothing(h >> 10, Product(Product(v, g), g), g);
    NextNothing(h >> 5, Product(Product(Product(v, g), g), g), g);
    NextNothing(h, Product(Product(Product(Product(v, g), g), g), g), g);
  }

  lemma ProductPower(t: nat, n: nat, v: bv10)
    requires IsExponent(t)
    ensures Product(Power(n * t, v), Root(t)) == Power((n + 1) * t, v)
  {
    hide Product, Power, Root;
    RootPowers(t);
    PowerIs(t, Power(n * t, v));
    PowerJoin(t, n * t, v);
    assert t + n * t == (n + 1) * t;
  }

  lemma HighestAlone(c: bv32)
    requires Packed(c)
    ensures OnlyHighest(Highest(c)) && Highest(c) >> 25 == Top(c)
  {
  }

  lemma HighestValue(c: bv32, t: nat)
    requires IsExponent(t) && Packed(c)
    ensures Value(6, Highest(c), Root(t)) == Power(5 * t, Embed(Top(c)))
  {
    hide Embed, Top, Highest, Power, Root, Product, Value, Horner;
    var v := Embed(Top(c));
    HighestAlone(c);
    HornerIs(Highest(c), Root(t));
    HornerAlone(Highest(c), Root(t));
    PowerNone(v);
    ProductPower(t, 0, v);
    ProductPower(t, 1, v);
    ProductPower(t, 2, v);
    ProductPower(t, 3, v);
    ProductPower(t, 4, v);
  }

  lemma PowerNone(v: bv10)
    ensures Power(0, v) == v
  {
  }

  /** `Shift` multiplies the value at each root by the root. */
  lemma ShiftValue(c: bv32, t: nat)
    requires IsExponent(t) && Packed(c)
    ensures Value(6, Shift(c), Root(t)) == Power(t, Value(6, c, Root(t)))
  {
    hide Embed, Top, Low, Lower, Highest, Power, Root, Value, Generators, Shift, Xor, Plus;
    var g := Root(t);
    RootPowers(t);
    ShiftParts(c);
    ValueXor(6, Low(c), Generators(Top(c)), t, g);
    LowValue(c, t);
    GeneratorsValue(t, Top(c));
    LowerHighest(c);
    ValueXor(6, Lower(c), Highest(c), t, g);
    HighestValue(c, t);
    PowerPlus(t, Value(6, Lower(c), g), Value(6, Highest(c), g));
    PowerJoin(t, 5 * t, Embed(Top(c)));
  }

  lemma {:induction false} ShiftedValue(n: nat, c: bv32, t: nat)
    requires IsExponent(t) && Packed(c)
    ensures Value(6, Shifted(n, c), Root(t)) == Power(n * t, Value(6, c, Root(t)))
    decreases n
  {
    hide Packed, Power, Root, Value, Shift;
    if n == 0 {
      PowerNone(Value(6, c, Root(t)));
    } else {
      ShiftPacked(c);
      ShiftedValue(n - 1, Shift(c), t);
      ShiftValue(c, t);
      PowerJoin((n - 1) * t, t, Value(6, c, Root(t)));
      assert (n - 1) * t + t == n * t;
    }
  }

  /** Constants have the same value everywhere. */
  lemma ConstantValue(c: bv32, t: nat)
    requires c < 32
    ensures Value(6, c, Root(t)) == Embed(c)
  {
    hide Embed, Product, Plus, Last, Rest, Root;
    ConstantIs(c);
    ValueZero(5, Root(t));
    ProductZero(Root(t));
    PlusZero(Embed(c));
  }

  lemma ConstantIs(c: bv32)
    requires c < 32
    ensures Packed(c) && Last(c) == c && Rest(c) == 0
  {
  }

  lemma EmbedKernel(c: bv32)
    requires c < 32 && Embed(c) == 0
    ensures c == 0
  {
  }

  // ---------------------------------------------------------------- three places

  /** Two sums with powers of h as factors. */
  lemma TwoTerms(p: nat, q: nat, x: bv10, y: bv10)
    requires q < p < q + LENGTH && Plus(x, y) == 0 && Plus(Power(p, x), Power(q, y)) == 0
    ensures x == 0 && y == 0
  {
    hide Power, Plus;
    PlusEqual(x, y);
    PlusEqual(Power(p, x), Power(q, y));
    PowerJoin(q, p - q, x);
    PowerInjective(q, Power(p - q, x), x);
    Period(p - q, x);
  }

  lemma Difference(p: nat, q: nat, u: bv10, v: bv10, w: bv10)
    requires Plus(Plus(u, v), w) == 0 && Plus(Plus(Power(p, u), Power(q, v)), w) == 0
    ensures Plus(Plus(Power(p, u), u), Plus(Power(q, v), v)) == 0
  {
    hide Power, Plus;
    PlusPairs(Power(p, u), Power(q, v), u, v);
    SameSum(Plus(Power(p, u), Power(q, v)), Plus(u, v), w);
  }

  lemma Moved(p: nat, u: bv10)
    requires 0 < p < LENGTH
    ensures Plus(Power(p, u), u) == 0 ==> u == 0
  {
    hide Power, Plus;
    PlusEqual(Power(p, u), u);
    Period(p, u);
  }

  /** Three sums of three, as with a Vandermonde matrix. */
  lemma OnlyZero(p: nat, q: nat, u: bv10, v: bv10, w: bv10)
    requires 0 < q < p < LENGTH && Plus(Plus(u, v), w) == 0
    requires Plus(Plus(Power(p, u), Power(q, v)), w) == 0
    requires Plus(Plus(Power(p, Power(p, u)), Power(q, Power(q, v))), w) == 0
    ensures u == 0 && v == 0 && w == 0
  {
    hide Power, Plus;
    Difference(p, q, u, v, w);
    Difference(p, q, Power(p, u), Power(q, v), w);
    PowerPlus(p, Power(p, u), u);
    PowerPlus(q, Power(q, v), v);
    TwoTerms(p, q, Plus(Power(p, u), u), Plus(Power(q, v), v));
    Moved(p, u);
    Moved(q, v);
    PlusZero(0);
    PlusZero(w);
  }

  lemma SameSum(a: bv10, b: bv10, w: bv10)
    requires Plus(a, w) == 0 && Plus(b, w) == 0
    ensures Plus(a, b) == 0
  {
  }

  lemma SumValue(p: nat, q: nat, a: bv32, b: bv32, c: bv32, t: nat)
    requires IsExponent(t) && a < 32 && b < 32 && c < 32
    ensures Value(6, Xor(Xor(Shifted(p, a), Shifted(q, b)), c), Root(t))
      == Plus(Plus(Power(p * t, Embed(a)), Power(q * t, Embed(b))), Embed(c))
  {
    hide Embed, Power, Root, Value, Shifted, Xor, Plus, Packed;
    RootPowers(t);
    ValueXor(6, Xor(Shifted(p, a), Shifted(q, b)), c, t, Root(t));
    ValueXor(6, Shifted(p, a), Shifted(q, b), t, Root(t));
    ConstantIs(a);
    ConstantIs(b);
    ConstantValue(a, t);
    ConstantValue(b, t);
    ConstantValue(c, t);
    ShiftedValue(p, a, t);
    ShiftedValue(q, b, t);
  }

  /** Three constants less than 1023 places apart only add up to nothing if all are 0. */
  lemma ThreeApart(p: nat, q: nat, a: bv32, b: bv32, c: bv32)
    requires 0 < q < p < 1023 && a < 32 && b < 32 && c < 32
    ensures Xor(Xor(Shifted(p, a), Shifted(q, b)), c) == 0 ==> a == 0 && b == 0 && c == 0
  {
    hide Embed, Power, Root, Value, Shifted, Xor, Plus;
    if Xor(Xor(Shifted(p, a), Shifted(q, b)), c) == 0 {
      SumValue(p, q, a, b, c, 24);
      SumValue(p, q, a, b, c, 25);
      SumValue(p, q, a, b, c, 26);
      ValueZero(6, Root(24));
      ValueZero(6, Root(25));
      ValueZero(6, Root(26));
      var u, v := Power(p * 24, Embed(a)), Power(q * 24, Embed(b));
      PowerJoin(p, p * 24, Embed(a));
      PowerJoin(p, p * 25, Embed(a));
      PowerJoin(q, q * 24, Embed(b));
      PowerJoin(q, q * 25, Embed(b));
      OnlyZero(p, q, u, v, Embed(c));
      PowerZero(p * 24, Embed(a));
      PowerZero(q * 24, Embed(b));
      EmbedKernel(a);
      EmbedKernel(b);
      EmbedKernel(c);
    }
  }

  lemma TwoApart(p: nat, a: bv32, c: bv32)
    requires 0 < p < LENGTH && a < 32 && c < 32
    ensures Xor(Shifted(p, a), c) == 0 ==> a == 0 && c == 0
  {
    hide Embed, Power, Root, Value, Shifted, Xor, Plus;
    if Xor(Shifted(p, a), c) == 0 {
      PairValue(p, a, c, 24);
      PairValue(p, a, c, 25);
      ValueZero(6, Root(24));
      ValueZero(6, Root(25));
      PowerJoin(p, p * 24, Embed(a));
      PowerNone(Embed(c));
      TwoTerms(p, 0, Power(p * 24, Embed(a)), Embed(c));
      PowerZero(p * 24, Embed(a));
      EmbedKernel(a);
      EmbedKernel(c);
    }
  }

  lemma PairValue(p: nat, a: bv32, c: bv32, t: nat)
    requires IsExponent(t) && a < 32 && c < 32
    ensures Value(6, Xor(Shifted(p, a), c), Root(t)) == Plus(Power(p * t, Embed(a)), Embed(c))
  {
    hide Embed, Power, Root, Value, Shifted, Xor, Plus, Packed;
    RootPowers(t);
    ValueXor(6, Shifted(p, a), c, t, Root(t));
    ConstantIs(a);
    ConstantValue(a, t);
    ConstantValue(c, t);
    ShiftedValue(p, a, t);
  }
}
