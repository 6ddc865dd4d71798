/**
 Numbers written in digits of a base, highest first.
 */
module Digits {
  import opened Arithmetic

  function Pow(b: nat, n: nat): nat {
    if n == 0 then 1 else b * Pow(b, n - 1)
  }

  lemma {:induction false} PowPositive(b: nat, n: nat)
    requires b >= 1
    ensures Pow(b, n) >= 1
  {
    if n > 0 {
      PowPositive(b, n - 1);
      MulMonotone(b, 1, Pow(b, n - 1));
    }
  }

  lemma {:induction false} PowAdd(b: nat, m: nat, n: nat)
    ensures Pow(b, m + n) == Pow(b, m) * Pow(b, n)
    decreases m
  {
    if m > 0 {
      PowAdd(b, m - 1, n);
      assert m + n - 1 == m - 1 + n;
      Associate(b, Pow(b, m - 1), Pow(b, n));
    } else {
      assert Pow(b, 0) == 1;
    }
  }

  lemma {:induction false} PowMonotone(b: nat, m: nat, n: nat)
    requires b >= 1 && m <= n
    ensures Pow(b, m) <= Pow(b, n)
    decreases n
  {
    if m < n {
      PowMonotone(b, m, n - 1);
      MulMonotone(Pow(b, n - 1), 1, b);
      Exchange(b, Pow(b, n - 1));
    }
  }

  lemma {:induction false} PowMul(b: nat, m: nat, n: nat)
    ensures m * n >= 0 && Pow(b, m * n) == Pow(Pow(b, m), n)
    decreases n
  {
    if n == 0 {
      assert m * n == 0;
    } else {
      PowMul(b, m, n - 1);
      assert m * n == m + m * (n - 1);
      PowAdd(b, m, m * (n - 1));
    }
  }

  lemma {:induction false} PowOfLarger(a: nat, b: nat, n: nat)
    requires a <= b
    ensures Pow(a, n) <= Pow(b, n)
  {
    if n > 0 {
      PowOfLarger(a, b, n - 1);
      MulMonotone(a, Pow(a, n - 1), Pow(b, n - 1));
      MulMonotone(Pow(b, n - 1), a, b);
      Exchange(a, Pow(b, n - 1));
      Exchange(b, Pow(b, n - 1));
    }
  }

  lemma {:induction false} PowOfStrictlyLarger(a: nat, b: nat, n: nat)
    requires a < b && n >= 1
    ensures Pow(a, n) < Pow(b, n)
  {
    PowOfLarger(a, b, n - 1);
    PowPositive(b, n - 1);
    MulMonotone(a, Pow(a, n - 1), Pow(b, n - 1));
    MulStep(Pow(b, n - 1), a, b);
    Exchange(a, Pow(b, n - 1));
    Exchange(b, Pow(b, n - 1));
  }

  lemma SwapPowers(b: nat, m: nat, n: nat)
    ensures Pow(Pow(b, m), n) == Pow(Pow(b, n), m)
  {
    hide Pow;
    PowMul(b, m, n);
    PowMul(b, n, m);
    Exchange(m, n);
  }

  /** If `q` digits of one base fit in `p` digits of another, then `n` fit in `m` once `m / n >= p / q`. */
  lemma Room(a: nat, b: nat, p: nat, q: nat, n: nat, m: nat)
    requires b >= 1 && q >= 1 && Pow(a, q) <= Pow(b, p) && p * n <= q * m
    ensures Pow(a, n) <= Pow(b, m)
  {
    hide Pow;
    PowOfLarger(Pow(a, q), Pow(b, p), n);
    PowMul(b, p, n);
    PowMul(b, q, m);
    PowMonotone(b, p * n, q * m);
    SwapPowers(a, q, n);
    SwapPowers(b, q, m);
    if Pow(a, n) > Pow(b, m) {
      PowOfStrictlyLarger(Pow(b, m), Pow(a, n), q);
    }
  }

  // ---------------------------------------------------------------- values

  function Value(b: nat, s: seq<nat>): nat {
    if s == [] then 0 else b * Value(b, s[..|s| - 1]) + s[|s| - 1]
  }

  ghost predicate AreDigits(b: nat, s: seq<nat>) {
    forall i | 0 <= i < |s| :: s[i] < b
  }

  /** The shortest way to write a number. */
  function Written(b: nat, v: nat): (s: seq<nat>)
    requires b >= 2
    decreases v
  {
    if v == 0 then [] else
      SmallerQuotient(v, b);
      Written(b, v / b) + [v % b]
  }

  lemma SmallerQuotient(v: nat, b: nat)
    requires v > 0 && b >= 2
    ensures 0 <= v / b < v && 0 <= v % b < b
  {
    DivParts(v, b);
    DivBelow(v, b, v);
    MulMonotone(v, 2, b);
    Exchange(v, b);
  }

  lemma {:induction false} WrittenIs(b: nat, v: nat)
    requires b >= 2
    ensures var s := Written(b, v); AreDigits(b, s) && Value(b, s) == v && (s != [] ==> s[0] != 0)
    decreases v
  {
    if v > 0 {
      SmallerQuotient(v, b);
      WrittenIs(b, v / b);
      DivParts(v, b);
      var s := Written(b, v);
      assert s[..|s| - 1] == Written(b, v / b);
      if v / b == 0 {
        assert v % b == v;
      }
    }
  }

  /** Without leading zeroes there is only one way to write a number. */
  lemma {:induction false} OneWay(b: nat, s: seq<nat>)
    requires b >= 2 && AreDigits(b, s) && (s != [] ==> s[0] != 0)
    ensures Written(b, Value(b, s)) == s
    decreases |s|
  {
    if s != [] {
      var front, d := s[..|s| - 1], s[|s| - 1];
      OneWay(b, front);
      LeadsPositive(b, s);
      DivIs(Value(b, s), b, Value(b, front));
    }
  }

  lemma {:induction false} LeadsPositive(b: nat, s: seq<nat>)
    requires b >= 2 && s != [] && s[0] != 0
    ensures Value(b, s) > 0
    decreases |s|
  {
    if |s| > 1 {
      LeadsPositive(b, s[..|s| - 1]);
      MulMonotone(Value(b, s[..|s| - 1]), 1, b);
      Exchange(b, Value(b, s[..|s| - 1]));
    }
  }

  /** Leading zeroes do not change the value. */
  function StripZeroes(s: seq<nat>): (r: seq<nat>)
    ensures r != [] ==> r[0] != 0
  {
    if s == [] || s[0] != 0 then s else StripZeroes(s[1..])
  }

  function CountZeroes(s: seq<nat>): (n: nat)
    ensures n <= |s| && StripZeroes(s) == s[n..]
    ensures forall i | 0 <= i < n :: s[i] == 0
  {
    if s == [] || s[0] != 0 then 0 else CountZeroes(s[1..]) + 1
  }

  lemma {:induction false} ValueSplit(b: nat, s: seq<nat>, k: nat)
    requires k <= |s|
    ensures Value(b, s) == Pow(b, |s| - k) * Value(b, s[..k]) + Value(b, s[k..])
    decreases |s|
  {
    if k == |s| {
      assert s[..k] == s && s[k..] == [];
    } else {
      var front, d := s[..|s| - 1], s[|s| - 1];
      ValueSplit(b, front, k);
      assert front[..k] == s[..k] && front[k..] == s[k..][..|s[k..]| - 1];
      SplitStep(b, Pow(b, |s| - k - 1), Value(b, s[..k]), Value(b, front[k..]));
    }
  }

  lemma SplitStep(b: nat, p: nat, v: nat, w: nat)
    ensures b * (p * v + w) == (b * p) * v + b * w
  {
    Associate(b, p, v);
    assert b * (p * v + w) == b * (p * v) + b * w;
  }

  lemma {:induction false} ZeroesValue(b: nat, s: seq<nat>)
    requires forall i | 0 <= i < |s| :: s[i] == 0
    ensures Value(b, s) == 0
  {
    if s != [] {
      ZeroesValue(b, s[..|s| - 1]);
    }
  }

  lemma StripValue(b: nat, s: seq<nat>)
    ensures Value(b, StripZeroes(s)) == Value(b, s)
  {
    var n := CountZeroes(s);
    ValueSplit(b, s, n);
    ZeroesValue(b, s[..n]);
  }

  lemma {:induction false} ValueBound(b: nat, s: seq<nat>)
    requires b >= 1 && AreDigits(b, s)
    ensures Value(b, s) < Pow(b, |s|)
  {
    if s != [] {
      ValueBound(b, s[..|s| - 1]);
      MulStep(b, Value(b, s[..|s| - 1]), Pow(b, |s| - 1));
    }
  }

  // ---------------------------------------------------------------- multiply and add, digit by digit

  /** From the lowest digit: `times * s + add` has been done for a tail, with a carry left. */
  ghost predicate TailDone(b: nat, was: seq<nat>, now: seq<nat>, times: nat, add: nat, carry: nat) {
    |was| == |now| && Value(b, now) + Pow(b, |was|) * carry == times * Value(b, was) + add
  }

  lemma TailStart(b: nat, times: nat, add: nat)
    ensures TailDone(b, [], [], times, add, add)
  {
  }

  /** One more digit. */
  lemma TailStep(b: nat, d: nat, was: seq<nat>, now: seq<nat>, times: nat, add: nat, carry: nat)
    requires b >= 1 && TailDone(b, was, now, times, add, carry)
    ensures var n := carry + times * d; n % b >= 0 && n / b >= 0 && TailDone(b, [d] + was, [n % b] + now, times, add, n / b)
  {
    var n := carry + times * d;
    var p := Pow(b, |was|);
    DivParts(n, b);
    OnTop(b, d, was);
    OnTop(b, n % b, now);
    StepProducts(b, p, carry, times, d, n, Value(b, was), Value(b, now), add);
  }

  lemma StepProducts(b: nat, p: nat, carry: nat, times: nat, d: nat, n: nat, w: nat, v: nat, add: nat)
    requires b >= 1 && n == carry + times * d && v + p * carry == times * w + add
    ensures 0 <= n % b && 0 <= n / b && (p * (n % b) + v) + (b * p) * (n / b) == times * (p * d + w) + add
  {
    DivParts(n, b);
    var q, r := n / b, n % b;
    assert p * (r + b * q) == p * r + p * (b * q);
    assert p * (b * q) == (b * p) * q by { Associate(p, b, q); Exchange(p, b); }
    assert p * (carry + times * d) == p * carry + p * (times * d);
    assert times * (p * d + w) == times * (p * d) + times * w;
    assert p * (times * d) == times * (p * d) by { Associate(p, times, d); Associate(times, p, d); Exchange(p, times); }
  }

  lemma OnTop(b: nat, d: nat, s: seq<nat>)
    ensures Value(b, [d] + s) == Pow(b, |s|) * d + Value(b, s)
  {
    ValueSplit(b, [d] + s, 1);
    assert ([d] + s)[..1] == [d] && ([d] + s)[1..] == s;
    assert Value(b, [d]) == d by { assert [d][..0] == []; }
  }
}
