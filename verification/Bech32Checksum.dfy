/**
 The checksum of src/bech32.cpp (BIP 173, section "Checksum"): a polynomial over a field of 32
 elements, modulo a generator of degree 6, packed in 30 bits.
 */
module Bech32Checksum {
  /** What a coefficient in front adds when it is shifted out, bit by bit. */
  function Generators(c0: bv32): bv32 {
    (if c0 & 1 != 0 then 0x3b6a57b2 else 0) ^ (if c0 & 2 != 0 then 0x26508e6d else 0)
    ^ (if c0 & 4 != 0 then 0x1ea119fa else 0) ^ (if c0 & 8 != 0 then 0x3d4233dd else 0)
    ^ (if c0 & 16 != 0 then 0x2a1462b3 else 0)
  }

  /** The coefficient in front. */
  function Top(c: bv32): bv32 {
    (c >> 25) & 0xff
  }

  /** The others, one place up. */
  function Low(c: bv32): bv32 {
    (c & 0x1ffffff) << 5
  }

  /** Times x, modulo the generator. */
  function Shift(c: bv32): bv32 {
    Low(c) ^ Generators(Top(c))
  }

  function Xor(a: bv32, b: bv32): bv32 {
    a ^ b
  }

  function Wide(v: bv8): bv32 {
    v as bv32
  }

  function Step(c: bv32, v: bv8): bv32 {
    Xor(Shift(c), Wide(v))
  }

  /** Six coefficients of five bits. */
  predicate Packed(c: bv32) {
    c < 0x40000000
  }

  function Absorb(c: bv32, v: seq<bv8>): bv32
    decreases |v|
  {
    if v == [] then c else Absorb(Step(c, v[0]), v[1..])
  }

  function Shifted(n: nat, c: bv32): bv32
    decreases n
  {
    if n == 0 then c else Shifted(n - 1, Shift(c))
  }

  // ---------------------------------------------------------------- facts on bits

  /** `g`, if the bit `m` is set. */
  function Pick(c0: bv32, m: bv32, g: bv32): bv32 {
    if c0 & m != 0 then g else 0
  }

  lemma GeneratorsParts(c0: bv32)
    ensures Generators(c0) == PickAll(c0)
  {
  }

  function PickAll(c0: bv32): bv32 {
    var two := Xor(Pick(c0, 1, 0x3b6a57b2), Pick(c0, 2, 0x26508e6d));
    Xor(Xor(Xor(two, Pick(c0, 4, 0x1ea119fa)), Pick(c0, 8, 0x3d4233dd)), Pick(c0, 16, 0x2a1462b3))
  }

  lemma ShiftParts(c: bv32)
    ensures Shift(c) == Xor(Low(c), Generators(Top(c)))
  {
    hide Generators, Low, Top;
  }

  lemma PickLinear(a: bv32, b: bv32, m: bv32, g: bv32)
    requires m == 1 || m == 2 || m == 4 || m == 8 || m == 16
    ensures Pick(Xor(a, b), m, g) == Xor(Pick(a, m, g), Pick(b, m, g))
  {
    BitOf(a, b, m);
  }

  lemma BitOf(a: bv32, b: bv32, m: bv32)
    requires m == 1 || m == 2 || m == 4 || m == 8 || m == 16
    ensures (a ^ b) & m != 0 <==> (a & m != 0) != (b & m != 0)
  {
  }

  lemma XorAssociative(a: bv32, b: bv32, c: bv32)
    ensures Xor(Xor(a, b), c) == Xor(a, Xor(b, c))
  {
  }

  lemma XorCommutative(a: bv32, b: bv32)
    ensures Xor(a, b) == Xor(b, a)
  {
  }

  lemma XorZero(a: bv32)
    ensures Xor(0, a) == a
  {
  }

  lemma XorTwice(a: bv32, b: bv32)
    ensures Xor(Xor(a, b), b) == a
  {
  }

  lemma XorCancel(a: bv32, b: bv32, c: bv32)
    requires Xor(a, c) == Xor(b, c)
    ensures a == b
  {
    hide Xor;
    XorTwice(a, c);
    XorTwice(b, c);
  }

  /** Two sums of two. */
  lemma XorPairs(a: bv32, b: bv32, c: bv32, d: bv32)
    ensures Xor(Xor(a, b), Xor(c, d)) == Xor(Xor(a, c), Xor(b, d))
  {
    hide Xor;
    XorAssociative(a, b, Xor(c, d));
    XorAssociative(b, c, d);
    XorCommutative(b, c);
    XorAssociative(c, b, d);
    XorAssociative(a, c, Xor(b, d));
  }

  lemma GeneratorsLinear(a: bv32, b: bv32)
    ensures Generators(Xor(a, b)) == Xor(Generators(a), Generators(b))
  {
    hide Pick, Xor, Generators;
    GeneratorsParts(a);
    GeneratorsParts(b);
    GeneratorsParts(Xor(a, b));
    PickLinear(a, b, 1, 0x3b6a57b2);
    PickLinear(a, b, 2, 0x26508e6d);
    PickLinear(a, b, 4, 0x1ea119fa);
    PickLinear(a, b, 8, 0x3d4233dd);
    PickLinear(a, b, 16, 0x2a1462b3);
    var a1, a2, a3, a4, a5 := Pick(a, 1, 0x3b6a57b2), Pick(a, 2, 0x26508e6d), Pick(a, 4, 0x1ea119fa), Pick(a, 8, 0x3d4233dd), Pick(a, 16, 0x2a1462b3);
    var b1, b2, b3, b4, b5 := Pick(b, 1, 0x3b6a57b2), Pick(b, 2, 0x26508e6d), Pick(b, 4, 0x1ea119fa), Pick(b, 8, 0x3d4233dd), Pick(b, 16, 0x2a1462b3);
    XorPairs(a1, b1, a2, b2);
    XorPairs(Xor(a1, a2), Xor(b1, b2), a3, b3);
    XorPairs(Xor(Xor(a1, a2), a3), Xor(Xor(b1, b2), b3), a4, b4);
    XorPairs(Xor(Xor(Xor(a1, a2), a3), a4), Xor(Xor(Xor(b1, b2), b3), b4), a5, b5);
  }

  lemma PartsLinear(a: bv32, b: bv32)
    ensures Low(Xor(a, b)) == Xor(Low(a), Low(b)) && Top(Xor(a, b)) == Xor(Top(a), Top(b))
  {
  }

  lemma ShiftLinear(a: bv32, b: bv32)
    ensures Shift(Xor(a, b)) == Xor(Shift(a), Shift(b))
  {
    hide Low, Top, Generators, Xor, Shift;
    ShiftParts(a);
    ShiftParts(b);
    ShiftParts(Xor(a, b));
    PartsLinear(a, b);
    GeneratorsLinear(Top(a), Top(b));
    XorPairs(Low(a), Low(b), Generators(Top(a)), Generators(Top(b)));
  }

  lemma GeneratorsPacked(c: bv32)
    ensures Packed(Generators(c))
  {
  }

  lemma ShiftPacked(c: bv32)
    ensures Packed(Shift(c))
  {
    hide Generators, Shift;
    ShiftParts(c);
    GeneratorsPacked(Top(c));
  }

  /** The lowest coefficients of the generators are independent. */
  lemma GeneratorsKernel(c: bv32)
    requires c < 32 && Generators(c) & 31 == 0
    ensures c == 0
  {
  }

  lemma NoGenerators()
    ensures Generators(0) == 0
  {
  }

  lemma ShiftKernel(c: bv32)
    requires Packed(c) && Shift(c) == 0
    ensures c == 0
  {
    hide Generators, Shift;
    ShiftParts(c);
    assert Generators(Top(c)) & 31 == 0;
    assert Top(c) < 32;
    GeneratorsKernel(Top(c));
    NoGenerators();
  }

  lemma ShiftInjective(c: bv32, d: bv32)
    requires Packed(c) && Packed(d) && Shift(c) == Shift(d)
    ensures c == d
  {
    hide Shift;
    ShiftLinear(c, d);
    ShiftKernel(Xor(c, d));
  }

  lemma ShiftSmall(c: bv32)
    requires c < 0x2000000
    ensures Shift(c) == c << 5
  {
  }

  // ---------------------------------------------------------------- sequences of values

  lemma StepPacked(c: bv32, v: bv8)
    ensures Packed(Step(c, v))
  {
    hide Shift;
    ShiftPacked(c);
  }

  lemma StepInjective(c: bv32, d: bv32, v: bv8)
    requires Packed(c) && Packed(d) && Step(c, v) == Step(d, v)
    ensures c == d
  {
    hide Shift, Xor, Wide;
    XorCancel(Shift(c), Shift(d), Wide(v));
    ShiftInjective(c, d);
  }

  lemma {:induction false} AbsorbPacked(c: bv32, v: seq<bv8>)
    requires Packed(c)
    ensures Packed(Absorb(c, v))
    decreases |v|
  {
    hide Step, Packed;
    if v != [] {
      StepPacked(c, v[0]);
      AbsorbPacked(Step(c, v[0]), v[1..]);
    }
  }

  /** A difference once made does not go away while the same values follow. */
  lemma {:induction false} AbsorbInjective(c: bv32, d: bv32, v: seq<bv8>)
    requires Packed(c) && Packed(d) && c != d
    ensures Absorb(c, v) != Absorb(d, v)
    decreases |v|
  {
    hide Step, Packed;
    if v != [] {
      StepPacked(c, v[0]);
      StepPacked(d, v[0]);
      if Step(c, v[0]) == Step(d, v[0]) {
        StepInjective(c, d, v[0]);
      }
      AbsorbInjective(Step(c, v[0]), Step(d, v[0]), v[1..]);
    }
  }

  lemma {:induction false} AbsorbJoin(c: bv32, v: seq<bv8>, w: seq<bv8>)
    ensures Absorb(c, v + w) == Absorb(Absorb(c, v), w)
    decreases |v|
  {
    hide Step;
    if v == [] {
      assert v + w == w;
    } else {
      assert (v + w)[1..] == v[1..] + w;
      AbsorbJoin(Step(c, v[0]), v[1..], w);
    }
  }

  lemma StepXor(c: bv32, e: bv32, v: bv8)
    ensures Step(Xor(c, e), v) == Xor(Step(c, v), Shift(e))
  {
    hide Shift, Xor, Wide;
    ShiftLinear(c, e);
    XorAssociative(Shift(c), Shift(e), Wide(v));
    XorCommutative(Shift(e), Wide(v));
    XorAssociative(Shift(c), Wide(v), Shift(e));
  }

  lemma {:induction false} AbsorbXor(c: bv32, e: bv32, v: seq<bv8>)
    ensures Absorb(Xor(c, e), v) == Xor(Absorb(c, v), Shifted(|v|, e))
    decreases |v|
  {
    hide Step, Shift, Xor;
    if v != [] {
      StepXor(c, e, v[0]);
      AbsorbXor(Step(c, v[0]), Shift(e), v[1..]);
    }
  }

  // ---------------------------------------------------------------- the loop

  function PolyMod(v: seq<bv8>): bv32 {
    Absorb(1, v)
  }

  /** One round of `PolyMod`. */
  method Advance(c: bv32, v: bv8) returns (r: bv32)
    ensures r == Step(c, v)
  {
    hide Xor, Pick, Top, Low, Shift, PickAll, Generators, Step, Wide;
    var c0 := Top(c);
    r := Low(c) ^ Wide(v);
    XorIs(Low(c), Wide(v));
    r := AddIf(r, c0, 1, 0x3b6a57b2);
    r := AddIf(r, c0, 2, 0x26508e6d);
    r := AddIf(r, c0, 4, 0x1ea119fa);
    r := AddIf(r, c0, 8, 0x3d4233dd);
    r := AddIf(r, c0, 16, 0x2a1462b3);
    StepOrder(c, v);
  }

  /** One of the five conditional additions of a round. */
  method AddIf(c: bv32, c0: bv32, m: bv32, g: bv32) returns (r: bv32)
    ensures r == Xor(c, Pick(c0, m, g))
  {
    r := c;
    if c0 & m != 0 {
      r := r ^ g;
    }
  }

  lemma XorIs(a: bv32, b: bv32)
    ensures a ^ b == Xor(a, b)
  {
  }

  /** Adding the value first or last is the same. */
  lemma StepOrder(c: bv32, v: bv8)
    ensures var c0 := Top(c);
      var two := Xor(Xor(Xor(Low(c), Wide(v)), Pick(c0, 1, 0x3b6a57b2)), Pick(c0, 2, 0x26508e6d));
      Step(c, v) == Xor(Xor(Xor(two, Pick(c0, 4, 0x1ea119fa)), Pick(c0, 8, 0x3d4233dd)), Pick(c0, 16, 0x2a1462b3))
  {
    hide Xor, Pick, Top, Low, Generators, Wide, Shift;
    var c0, l, w := Top(c), Low(c), Wide(v);
    var p1, p2, p4, p8, p16 := Pick(c0, 1, 0x3b6a57b2), Pick(c0, 2, 0x26508e6d), Pick(c0, 4, 0x1ea119fa), Pick(c0, 8, 0x3d4233dd), Pick(c0, 16, 0x2a1462b3);
    var g2 := Xor(p1, p2);
    var g4 := Xor(g2, p4);
    var g8 := Xor(g4, p8);
    var g16 := Xor(g8, p16);
    ShiftParts(c);
    GeneratorsParts(c0);
    var lw := Xor(l, w);
    XorAssociative(lw, p1, p2);
    XorAssociative(lw, g2, p4);
    XorAssociative(lw, g4, p8);
    XorAssociative(lw, g8, p16);
    XorAssociative(l, w, g16);
    XorCommutative(w, g16);
    XorAssociative(l, g16, w);
  }

  method ComputePolyMod(v: seq<bv8>) returns (c: bv32)
    ensures c == PolyMod(v)
  {
    hide Step, Packed, PolyMod;
    c := 1;
    PolyModStart();
    for i := 0 to |v|
      invariant c == PolyMod(v[..i])
    {
      c := Advance(c, v[i]);
      PolyModNext(v[..i], v[i]);
      assert v[..i + 1] == v[..i] + [v[i]];
    }
    assert v[..|v|] == v;
  }

  lemma PolyModStart()
    ensures PolyMod([]) == 1
  {
  }

  lemma PolyModNext(v: seq<bv8>, x: bv8)
    ensures PolyMod(v + [x]) == Step(PolyMod(v), x)
  {
    hide Step;
    AbsorbJoin(1, v, [x]);
    assert [x][1..] == [];
  }
}
