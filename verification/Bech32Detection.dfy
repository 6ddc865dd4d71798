/**
 What the checksum of src/bech32.cpp says about a sequence of values: there is exactly one that fits,
 and which changes it cannot miss.
 */
module Bech32Detection {
  import opened Bech32Checksum
  import opened Bech32Roots

  const WINDOW: nat := 6

  ghost predicate FiveBits(v: seq<bv8>) {
    forall i | 0 <= i < |v| :: v[i] < 32
  }

  // ---------------------------------------------------------------- six values fill the state

  function Append(p: bv32, v: bv8): bv32 {
    Xor(p << 5, Wide(v))
  }

  /** Up to six values side by side. */
  function Pack(v: seq<bv8>): bv32
    decreases |v|
  {
    if v == [] then 0 else Append(Pack(v[..|v| - 1]), v[|v| - 1])
  }

  predicate Within(p: bv32, n: nat) {
    match n
    case 0 => p == 0
    case 1 => p < 0x20
    case 2 => p < 0x400
    case 3 => p < 0x8000
    case 4 => p < 0x100000
    case 5 => p < 0x2000000
    case _ => p < 0x40000000
  }

  lemma WithinStep(p: bv32, n: nat, v: bv8)
    requires n < WINDOW && Within(p, n) && v < 32
    ensures Within(Append(p, v), n + 1) && p < 0x2000000
  {
  }

  lemma NothingWithin()
    ensures Within(0, 0)
  {
  }

  lemma {:induction false} PackWithin(v: seq<bv8>)
    requires |v| <= WINDOW && FiveBits(v)
    ensures Within(Pack(v), |v|)
    decreases |v|
  {
    hide Append, Within;
    NothingWithin();
    if v != [] {
      PackWithin(v[..|v| - 1]);
      WithinStep(Pack(v[..|v| - 1]), |v| - 1, v[|v| - 1]);
    }
  }

  lemma FrontOf(p: bv32, v: bv8)
    requires p < 0x2000000 && v < 32
    ensures Append(p, v) >> 5 == p
  {
  }

  lemma LastOf(p: bv32, v: bv8)
    requires v < 32
    ensures Append(p, v) & 31 == Wide(v)
  {
  }

  lemma SplitPacked(p: bv32, q: bv32, v: bv8, w: bv8)
    requires p < 0x2000000 && q < 0x2000000 && v < 32 && w < 32 && Append(p, v) == Append(q, w)
    ensures p == q && v == w
  {
    hide Append;
    FrontOf(p, v);
    FrontOf(q, w);
    LastOf(p, v);
    LastOf(q, w);
  }

  lemma {:induction false} PackInjective(v: seq<bv8>, w: seq<bv8>)
    requires |v| == |w| <= WINDOW && FiveBits(v) && FiveBits(w) && Pack(v) == Pack(w)
    ensures v == w
    decreases |v|
  {
    hide Append, Within;
    if v != [] {
      var n := |v| - 1;
      PackWithin(v[..n]);
      PackWithin(w[..n]);
      WithinStep(Pack(v[..n]), n, v[n]);
      WithinStep(Pack(w[..n]), n, w[n]);
      SplitPacked(Pack(v[..n]), Pack(w[..n]), v[n], w[n]);
      PackInjective(v[..n], w[..n]);
      assert v == v[..n] + [v[n]] && w == w[..n] + [w[n]];
    }
  }

  /** From an empty state up to six values are only put side by side. */
  lemma {:induction false} AbsorbPacks(v: seq<bv8>)
    requires |v| <= WINDOW && FiveBits(v)
    ensures Absorb(0, v) == Pack(v)
    decreases |v|
  {
    hide Append, Within, Step;
    if v != [] {
      var n := |v| - 1;
      AbsorbPacks(v[..n]);
      AbsorbJoin(0, v[..n], [v[n]]);
      assert v == v[..n] + [v[n]];
      PackWithin(v[..n]);
      WithinStep(Pack(v[..n]), n, v[n]);
      StepSmall(Pack(v[..n]), v[n]);
      assert Absorb(Pack(v[..n]), [v[n]]) == Step(Pack(v[..n]), v[n]);
    }
  }

  lemma StepSmall(p: bv32, v: bv8)
    requires p < 0x2000000
    ensures Step(p, v) == Append(p, v)
  {
    hide Shift, Xor;
    ShiftSmall(p);
  }

  /** The last values of a sequence, up to six, are added to a state that depends on those before. */
  lemma WindowIs(c: bv32, v: seq<bv8>)
    requires |v| <= WINDOW && FiveBits(v)
    ensures Absorb(c, v) == Xor(Pack(v), Shifted(|v|, c))
  {
    hide Absorb, Shifted, Pack;
    AbsorbXor(0, c, v);
    XorZero(c);
    AbsorbPacks(v);
  }

  // ---------------------------------------------------------------- what cannot be missed

  /** Changes within six neighbouring places. */
  lemma BurstDetected(a: seq<bv8>, v: seq<bv8>, w: seq<bv8>, b: seq<bv8>)
    requires |v| == |w| <= WINDOW && FiveBits(v) && FiveBits(w) && v != w
    ensures PolyMod(a + v + b) != PolyMod(a + w + b)
  {
    hide Absorb, Shifted, Pack, Packed, Xor;
    var c := PolyMod(a);
    PolyModPacked(a);
    WindowIs(c, v);
    WindowIs(c, w);
    if Absorb(c, v) == Absorb(c, w) {
      XorCancel(Pack(v), Pack(w), Shifted(|v|, c));
      PackInjective(v, w);
    }
    AbsorbPacked(c, v);
    AbsorbPacked(c, w);
    AbsorbInjective(Absorb(c, v), Absorb(c, w), b);
    AbsorbJoin(1, a, v);
    AbsorbJoin(1, a, w);
    AbsorbJoin(1, a + v, b);
    AbsorbJoin(1, a + w, b);
  }

  lemma PolyModPacked(a: seq<bv8>)
    ensures Packed(PolyMod(a))
  {
    hide Absorb;
    AbsorbPacked(1, a);
  }

  function Differ(x: bv8, x': bv8): bv32 {
    Xor(Wide(x), Wide(x'))
  }

  lemma DifferSmall(x: bv8, x': bv8)
    requires x < 32 && x' < 32
    ensures Differ(x, x') < 32 && (Differ(x, x') == 0 <==> x == x')
  {
  }

  lemma StepDiffer(c: bv32, x: bv8, x': bv8)
    ensures Step(c, x') == Xor(Step(c, x), Differ(x, x'))
  {
    hide Shift;
  }

  /** What a difference `e` of two states becomes with one more change and the same values after it. */
  lemma Changed(c: bv32, e: bv32, x: bv8, x': bv8, m: seq<bv8>)
    ensures Absorb(Step(Xor(c, e), x'), m) == Xor(Absorb(Step(c, x), m), Shifted(|m|, Xor(Shift(e), Differ(x, x'))))
  {
    hide Absorb, Step, Shifted, Xor, Shift, Differ;
    StepXor(c, e, x');
    StepDiffer(c, x, x');
    XorAssociative(Step(c, x), Differ(x, x'), Shift(e));
    XorCommutative(Differ(x, x'), Shift(e));
    AbsorbXor(Step(c, x), Xor(Shift(e), Differ(x, x')), m);
  }

  lemma {:induction false} ShiftedXor(n: nat, a: bv32, b: bv32)
    ensures Shifted(n, Xor(a, b)) == Xor(Shifted(n, a), Shifted(n, b))
    decreases n
  {
    hide Shift, Xor;
    if n > 0 {
      ShiftLinear(a, b);
      ShiftedXor(n - 1, Shift(a), Shift(b));
    }
  }

  lemma {:induction false} ShiftedJoin(m: nat, n: nat, c: bv32)
    ensures Shifted(m, Shifted(n, c)) == Shifted(m + n, c)
    decreases n
  {
    hide Shift;
    if n > 0 {
      ShiftedJoin(m, n - 1, Shift(c));
    }
  }

  lemma ShiftIs(c: bv32)
    ensures Shift(c) == Shifted(1, c)
  {
    hide Shift;
    assert Shifted(1, c) == Shifted(0, Shift(c));
  }

  lemma NoDifference(c: bv32)
    ensures Xor(c, 0) == c && Shift(0) == 0
  {
  }

  /** The first change. */
  lemma ChangedOnce(c: bv32, x: bv8, x': bv8, m: seq<bv8>)
    ensures Absorb(Step(c, x'), m) == Xor(Absorb(Step(c, x), m), Shifted(|m|, Differ(x, x')))
  {
    hide Absorb, Step, Shifted, Xor, Shift, Differ;
    NoDifference(c);
    Changed(c, 0, x, x', m);
    XorZero(Differ(x, x'));
  }

  /** The second. */
  lemma ChangedTwice(c: bv32, x: bv8, x': bv8, m: seq<bv8>, y: bv8, y': bv8, n: seq<bv8>)
    ensures Absorb(Step(Absorb(Step(c, x'), m), y'), n)
      == Xor(Absorb(Step(Absorb(Step(c, x), m), y), n), Xor(Shifted(|n| + |m| + 1, Differ(x, x')), Shifted(|n|, Differ(y, y'))))
  {
    hide Absorb, Step, Shifted, Xor, Shift, Differ;
    ChangedOnce(c, x, x', m);
    var s, e := Absorb(Step(c, x), m), Shifted(|m|, Differ(x, x'));
    Changed(s, e, y, y', n);
    ShiftIs(e);
    ShiftedJoin(1, |m|, Differ(x, x'));
    ShiftedXor(|n|, Shift(e), Differ(y, y'));
    ShiftedJoin(|n|, |m| + 1, Differ(x, x'));
  }

  /** And the third, with nothing behind it. */
  lemma ChangedThrice(c: bv32, x: bv8, x': bv8, m: seq<bv8>, y: bv8, y': bv8, n: seq<bv8>, z: bv8, z': bv8)
    ensures Step(Absorb(Step(Absorb(Step(c, x'), m), y'), n), z')
      == Xor(Step(Absorb(Step(Absorb(Step(c, x), m), y), n), z),
           Xor(Xor(Shifted(|n| + |m| + 2, Differ(x, x')), Shifted(|n| + 1, Differ(y, y'))), Differ(z, z')))
  {
    hide Absorb, Step, Shifted, Xor, Shift, Differ;
    ChangedTwice(c, x, x', m, y, y', n);
    var s, a, b := Absorb(Step(Absorb(Step(c, x), m), y), n), Shifted(|n| + |m| + 1, Differ(x, x')), Shifted(|n|, Differ(y, y'));
    Changed(s, Xor(a, b), z, z', []);
    AbsorbNone(Step(s, z));
    AbsorbNone(Step(Xor(s, Xor(a, b)), z'));
    ShiftedNone(Xor(Shift(Xor(a, b)), Differ(z, z')));
    ShiftLinear(a, b);
    ShiftIs(a);
    ShiftIs(b);
    ShiftedJoin(1, |n| + |m| + 1, Differ(x, x'));
    ShiftedJoin(1, |n|, Differ(y, y'));
  }

  lemma AbsorbNone(c: bv32)
    ensures Absorb(c, []) == c
  {
  }

  lemma ShiftedNone(c: bv32)
    ensures Shifted(0, c) == c
  {
  }

  lemma XorDiffers(s: bv32, e: bv32)
    requires e != 0
    ensures Xor(s, e) != s
  {
  }

  lemma StateAfter(a: seq<bv8>, x: bv8, m: seq<bv8>)
    ensures PolyMod(a + [x] + m) == Absorb(Step(PolyMod(a), x), m)
  {
    hide Step;
    AbsorbJoin(1, a + [x], m);
    AbsorbJoin(1, a, [x]);
    assert [x][1..] == [];
  }

  /** Whatever follows. */
  lemma StaysDifferent(a: seq<bv8>, a': seq<bv8>, b: seq<bv8>)
    requires PolyMod(a) != PolyMod(a')
    ensures PolyMod(a + b) != PolyMod(a' + b)
  {
    hide Absorb, Packed;
    PolyModPacked(a);
    PolyModPacked(a');
    AbsorbInjective(PolyMod(a), PolyMod(a'), b);
    AbsorbJoin(1, a, b);
    AbsorbJoin(1, a', b);
  }

  /** Two changes, with anything around and between them. */
  lemma TwoDetected(a: seq<bv8>, x: bv8, x': bv8, m: seq<bv8>, y: bv8, y': bv8)
    requires x < 32 && x' < 32 && y < 32 && y' < 32 && x != x' && |m| + 1 < LENGTH
    ensures PolyMod(a + [x] + m + [y]) != PolyMod(a + [x'] + m + [y'])
  {
    hide Absorb, Step, Shifted, Xor, Differ, PolyMod;
    StateAfter(a, x, m);
    StateAfter(a, x', m);
    PolyModNext(a + [x] + m, y);
    PolyModNext(a + [x'] + m, y');
    var c := PolyMod(a);
    ChangedTwice(c, x, x', m, y, y', []);
    AbsorbNone(Step(Absorb(Step(c, x), m), y));
    AbsorbNone(Step(Absorb(Step(c, x'), m), y'));
    ShiftedNone(Differ(y, y'));
    DifferSmall(x, x');
    DifferSmall(y, y');
    TwoApart(|m| + 1, Differ(x, x'), Differ(y, y'));
    XorDiffers(Step(Absorb(Step(c, x), m), y), Xor(Shifted(|m| + 1, Differ(x, x')), Differ(y, y')));
  }

  /** Three. */
  lemma ThreeDetected(a: seq<bv8>, x: bv8, x': bv8, m: seq<bv8>, y: bv8, y': bv8, n: seq<bv8>, z: bv8, z': bv8)
    requires x < 32 && x' < 32 && y < 32 && y' < 32 && z < 32 && z' < 32 && x != x' && |m| + |n| + 2 < LENGTH
    ensures PolyMod(a + [x] + m + [y] + n + [z]) != PolyMod(a + [x'] + m + [y'] + n + [z'])
  {
    hide Absorb, Step, Shifted, Xor, Differ, PolyMod;
    StateAfter(a, x, m);
    StateAfter(a, x', m);
    StateAfter(a + [x] + m, y, n);
    StateAfter(a + [x'] + m, y', n);
    PolyModNext(a + [x] + m + [y] + n, z);
    PolyModNext(a + [x'] + m + [y'] + n, z');
    var c := PolyMod(a);
    ChangedThrice(c, x, x', m, y, y', n, z, z');
    DifferSmall(x, x');
    DifferSmall(y, y');
    DifferSmall(z, z');
    ThreeApart(|n| + |m| + 2, |n| + 1, Differ(x, x'), Differ(y, y'), Differ(z, z'));
    XorDiffers(Step(Absorb(Step(Absorb(Step(c, x), m), y), n), z),
      Xor(Xor(Shifted(|n| + |m| + 2, Differ(x, x')), Shifted(|n| + 1, Differ(y, y'))), Differ(z, z')));
  }

  lemma TwoChanges(s: seq<bv8>, t: seq<bv8>, i: nat, j: nat)
    requires |s| == |t| && i <= j < |s| && j - i < LENGTH && s != t
    requires s[i] < 32 && t[i] < 32 && s[j] < 32 && t[j] < 32
    requires forall k | 0 <= k < |s| && k != i && k != j :: s[k] == t[k]
    ensures PolyMod(s) != PolyMod(t)
  {
    hide PolyMod;
    var b := s[j + 1..];
    if i == j || s[i] == t[i] {
      CutOnce(s, j);
      CutOnce(t, j);
      assert s[..j] == t[..j] && b == t[j + 1..];
      BurstDetected(s[..j], [s[j]], [t[j]], b);
    } else {
      var a, m := s[..i], s[i + 1..j];
      CutOnce(s, j);
      CutOnce(t, j);
      CutFront(s, i, j);
      CutFront(t, i, j);
      assert a == t[..i] && b == t[j + 1..];
      SamePart(s, t, i + 1, j);
      TwoDetected(a, s[i], t[i], m, s[j], t[j]);
      StaysDifferent(a + [s[i]] + m + [s[j]], a + [t[i]] + m + [t[j]], b);
    }
  }

  lemma CutThrice(s: seq<bv8>, i: nat, j: nat, k: nat)
    requires i < j < k < |s|
    ensures s == s[..i] + [s[i]] + s[i + 1..j] + [s[j]] + s[j + 1..k] + [s[k]] + s[k + 1..]
  {
    CutOnce(s, k);
    CutFront(s, j, k);
    CutFront(s, i, j);
  }

  lemma CutFront(s: seq<bv8>, i: nat, j: nat)
    requires i < j <= |s|
    ensures s[..j] == s[..i] + [s[i]] + s[i + 1..j]
  {
  }

  lemma CutOnce(s: seq<bv8>, i: nat)
    requires i < |s|
    ensures s == s[..i] + [s[i]] + s[i + 1..]
  {
  }

  lemma SamePart(s: seq<bv8>, t: seq<bv8>, lo: nat, hi: nat)
    requires |s| == |t| && lo <= hi <= |s| && forall l | lo <= l < hi :: s[l] == t[l]
    ensures s[lo..hi] == t[lo..hi]
  {
  }

  /** Any change of up to three values of a sequence within 1023 places of each other. */
  lemma ChangesDetected(s: seq<bv8>, t: seq<bv8>, i: nat, j: nat, k: nat)
    requires |s| == |t| && i <= j <= k < |s| && k - i < 1023 && s != t
    requires s[i] < 32 && t[i] < 32 && s[j] < 32 && t[j] < 32 && s[k] < 32 && t[k] < 32
    requires forall l | 0 <= l < |s| && l != i && l != j && l != k :: s[l] == t[l]
    ensures PolyMod(s) != PolyMod(t)
  {
    hide PolyMod;
    if i == j || s[i] == t[i] {
      TwoChanges(s, t, j, k);
    } else if j == k {
      TwoChanges(s, t, i, k);
    } else {
      var a, m, n, b := s[..i], s[i + 1..j], s[j + 1..k], s[k + 1..];
      CutThrice(s, i, j, k);
      CutThrice(t, i, j, k);
      assert a == t[..i];
      SamePart(s, t, i + 1, j);
      SamePart(s, t, j + 1, k);
      assert b == t[k + 1..];
      ThreeDetected(a, s[i], t[i], m, s[j], t[j], n, s[k], t[k]);
      StaysDifferent(a + [s[i]] + m + [s[j]] + n + [s[k]], a + [t[i]] + m + [t[j]] + n + [t[k]], b);
    }
  }

  // ---------------------------------------------------------------- the one checksum

  function Group(p: bv32, i: nat): (v: bv8)
    requires i < 6
    ensures v < 32
  {
    match i
    case 0 => ((p >> 25) & 31) as bv8
    case 1 => ((p >> 20) & 31) as bv8
    case 2 => ((p >> 15) & 31) as bv8
    case 3 => ((p >> 10) & 31) as bv8
    case 4 => ((p >> 5) & 31) as bv8
    case 5 => (p & 31) as bv8
  }

  /** The six groups of a state. */
  function Groups(p: bv32): (v: seq<bv8>)
    ensures |v| == 6 && FiveBits(v)
  {
    [Group(p, 0), Group(p, 1), Group(p, 2), Group(p, 3), Group(p, 4), Group(p, 5)]
  }

  lemma PackSix(v: seq<bv8>)
    requires |v| == 6
    ensures Pack(v) == Append(Append(Append(Append(Append(Append(0, v[0]), v[1]), v[2]), v[3]), v[4]), v[5])
  {
    hide Append;
    assert v[..5][..4] == v[..4] && v[..4][..3] == v[..3] && v[..3][..2] == v[..2] && v[..2][..1] == v[..1] && v[..1][..0] == [];
    assert Pack(v[..1]) == Append(0, v[0]);
    assert Pack(v[..2]) == Append(Pack(v[..1]), v[1]);
    assert Pack(v[..3]) == Append(Pack(v[..2]), v[2]);
    assert Pack(v[..4]) == Append(Pack(v[..3]), v[3]);
    assert Pack(v[..5]) == Append(Pack(v[..4]), v[4]);
  }

  lemma PackGroups(p: bv32)
    requires Packed(p)
    ensures Pack(Groups(p)) == p
  {
    hide Pack;
    PackSix(Groups(p));
  }

  /** `CreateChecksum`, for the expanded prefix with the data behind it. */
  function Checksum(enc: seq<bv8>): (v: seq<bv8>)
    ensures |v| == 6 && FiveBits(v)
  {
    Groups(Xor(PolyMod(enc + [0, 0, 0, 0, 0, 0]), 1))
  }

  lemma AppendNothing()
    ensures Append(0, 0) == 0
  {
  }

  lemma ZeroesShift(c: bv32)
    ensures Absorb(c, [0, 0, 0, 0, 0, 0]) == Shifted(6, c)
  {
    hide Absorb, Shifted, Xor, Pack;
    var z: seq<bv8> := [0, 0, 0, 0, 0, 0];
    WindowIs(c, z);
    PackSix(z);
    AppendNothing();
    XorZero(Shifted(6, c));
  }

  lemma PackedOne(c: bv32)
    requires Packed(c)
    ensures Packed(Xor(c, 1))
  {
  }

  /** It makes the whole valid. */
  lemma ChecksumFits(enc: seq<bv8>)
    ensures PolyMod(enc + Checksum(enc)) == 1
  {
    hide Absorb, Shifted, Pack, Groups, Xor;
    var c := PolyMod(enc);
    PolyModPacked(enc);
    var z: seq<bv8> := [0, 0, 0, 0, 0, 0];
    AbsorbJoin(1, enc, z);
    ZeroesShift(c);
    AbsorbPacked(c, z);
    var p := Xor(Shifted(6, c), 1);
    PackedOne(Shifted(6, c));
    PackGroups(p);
    WindowIs(c, Groups(p));
    AbsorbJoin(1, enc, Groups(p));
    XorCommutative(Shifted(6, c), 1);
    XorTwice(1, Shifted(6, c));
  }

  /** And nothing else does. */
  lemma ChecksumIsUnique(enc: seq<bv8>, v: seq<bv8>)
    requires |v| == 6 && FiveBits(v)
    ensures PolyMod(enc + v) == 1 <==> v == Checksum(enc)
  {
    hide Checksum, PolyMod;
    ChecksumFits(enc);
    if v != Checksum(enc) {
      BurstDetected(enc, v, Checksum(enc), []);
      assert enc + v + [] == enc + v && enc + Checksum(enc) + [] == enc + Checksum(enc);
    }
  }
}
