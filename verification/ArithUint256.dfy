/**
 256-bit arithmetic on limbs (src/arith_uint256.h, src/arith_uint256.cpp): every operation
 against the integer operation it stands for, modulo 2^256.
 */
module ArithUint256 {
  import opened Arithmetic
  import Compact
  import opened Helpers
  import opened Limbs

  const MODULUS: nat := Compact.TWO_256

  lemma ModulusIs()
    ensures Place(WIDTH) == MODULUS
  {
    LimbIs();
    PlaceNext(0);
    PlaceNext(1);
    PlaceAdd(2, 2);
    PlaceAdd(4, 4);
  }

  // ---------------------------------------------------------------- limb steps

  /** One limb of an addition: what goes in with the carry comes out with the next carry. */
  lemma AddLimb(place: nat, sum: nat, total: nat, carry: nat, x: nat, y: nat)
    requires sum + place * carry == total
    ensures var n := carry + x + y;
      (sum + place * (n % LIMB)) + (place * LIMB) * (n / LIMB) == total + place * x + place * y
  {
    var n := carry + x + y;
    CarryStep(place, n);
    Distribute(place, carry, x + y);
    Distribute(place, x, y);
  }

  class BaseUint {
    const pn: array<nat>

    ghost predicate Valid()
      reads pn
    {
      pn.Length == WIDTH && Words(pn[..])
    }

    ghost function Value(): nat
      requires pn.Length == WIDTH
      reads pn
    {
      Val(pn[..], WIDTH)
    }

    /** A number of up to 64 bits. */
    constructor (b: nat)
      requires b < LIMB * LIMB
      ensures Valid() && Value() == b && fresh(pn)
    {
      pn := new nat[WIDTH](_ => 0);
      new;
      DivBelow(b, LIMB, LIMB);
      pn[0] := b % LIMB;
      pn[1] := b / LIMB;
      LowValue(pn[..], b);
    }

    constructor Copy(b: BaseUint)
      requires b.Valid()
      ensures Valid() && pn[..] == b.pn[..] && Value() == b.Value() && fresh(pn)
    {
      pn := new nat[WIDTH](_ => 0);
      new;
      for i := 0 to WIDTH
        invariant forall j | 0 <= j < i :: pn[j] == b.pn[j]
        invariant b.Valid() && b.pn[..] == old(b.pn[..])
      {
        pn[i] := b.pn[i];
      }
      assert pn[..] == b.pn[..];
    }

    /** Assigns a number of up to 64 bits. */
    method Assign(b: nat)
      requires pn.Length == WIDTH && b < LIMB * LIMB
      modifies pn
      ensures Valid() && Value() == b
    {
      DivBelow(b, LIMB, LIMB);
      pn[0] := b % LIMB;
      pn[1] := b / LIMB;
      for i := 2 to WIDTH
        invariant pn[0] == b % LIMB && pn[1] == b / LIMB && forall j | 2 <= j < i :: pn[j] == 0
      {
        pn[i] := 0;
      }
      LowValue(pn[..], b);
    }

    method Store(i: nat, x: nat)
      requires i < pn.Length == WIDTH
      modifies pn
      ensures pn[..] == old(pn[..])[i := x]
    {
      pn[i] := x;
    }

    /** `operator+=`, also when the operand is the number itself. */
    method Add(b: BaseUint)
      requires Valid() && b.Valid()
      modifies pn
      ensures Valid() && Value() == (old(Value()) + old(b.Value())) % MODULUS
    {
      hide Val, Place;
      ghost var x, y := pn[..], b.pn[..];
      var carry: nat := 0;
      ValStart(pn[..], x, y);
      for i := 0 to WIDTH
        invariant Valid() && b.Valid() && carry <= 1
        invariant forall j | i <= j < WIDTH :: pn[j] == x[j] && b.pn[j] == y[j]
        invariant Val(pn[..], i) + Place(i) * carry == Val(x, i) + Val(y, i)
      {
        var n := carry + pn[i] + b.pn[i];
        AddStep(pn[..], x, y, i, carry);
        Store(i, n % LIMB);
        carry := n / LIMB;
      }
      ModulusIs();
      ValBound(pn[..], WIDTH);
      Reduced(Val(pn[..], WIDTH), carry, Val(x, WIDTH) + Val(y, WIDTH), Place(WIDTH));
    }

    /** `operator~`. */
    method Complement() returns (ret: BaseUint)
      requires Valid()
      ensures ret.Valid() && fresh(ret) && fresh(ret.pn) && ret.Value() == MODULUS - 1 - Value()
    {
      hide Val, Place;
      ret := new BaseUint(0);
      ValStart(ret.pn[..], pn[..], pn[..]);
      for i := 0 to WIDTH
        invariant ret.Valid() && pn[..] == old(pn[..])
        invariant Val(ret.pn[..], i) + Val(pn[..], i) == Place(i) - 1
      {
        ComplementStep(ret.pn[..], pn[..], i);
        ret.Store(i, LIMB - 1 - pn[i]);
      }
      ModulusIs();
    }

    /** `operator++`. */
    method Increment()
      requires Valid()
      modifies pn
      ensures Valid() && Value() == (old(Value()) + 1) % MODULUS
    {
      hide Val, Place;
      PlaceNext(0);
      ModulusIs();
      ghost var v := Value();
      ValBound(pn[..], WIDTH);
      var i := 0;
      while i < WIDTH
        invariant 0 <= i <= WIDTH && Valid() && Value() + Place(i) == v + 1
      {
        var x := (pn[i] + 1) % LIMB;
        IncrementStep(pn[..], i);
        Store(i, x);
        if x != 0 {
          break;
        }
        i := i + 1;
      }
      ValBound(pn[..], WIDTH);
      Reduced(Value(), if i == WIDTH then 1 else 0, v + 1, MODULUS);
    }

    /** `operator-`: two's complement. */
    method Negate() returns (ret: BaseUint)
      requires Valid()
      ensures ret.Valid() && fresh(ret) && fresh(ret.pn) && ret.Value() == (MODULUS - Value()) % MODULUS
    {
      hide Val, Place;
      ModulusIs();
      ValBound(pn[..], WIDTH);
      ret := Complement();
      ret.Increment();
    }

    /** `operator-=`. */
    method Subtract(b: BaseUint)
      requires Valid() && b.Valid()
      modifies pn
      ensures Valid() && Value() == (old(Value()) - old(b.Value())) % MODULUS
    {
      hide Val, Place;
      ModulusIs();
      ValBound(pn[..], WIDTH);
      ValBound(b.pn[..], WIDTH);
      var minus := b.Negate();
      Add(minus);
      AddNegated(old(Value()), old(b.Value()));
    }

    /** `operator*=` by a 32-bit number. */
    method MultiplyWord(b32: nat)
      requires Valid() && b32 < LIMB
      modifies pn
      ensures Valid() && Value() == old(Value()) * b32 % MODULUS
    {
      hide WordSoFar, Val, Place, Times;
      ghost var x := pn[..];
      var carry: nat := 0;
      WordStart(x, b32);
      for i := 0 to WIDTH
        invariant Valid() && carry < LIMB
        invariant forall j | i <= j < WIDTH :: pn[j] == x[j]
        invariant WordSoFar(pn[..], x, i, carry, b32)
      {
        var n := carry + Times(b32, pn[i]);
        CarryFits(carry, 0, b32, pn[i]);
        MulStepWord(pn[..], x, i, carry, b32);
        Store(i, n % LIMB);
        carry := n / LIMB;
      }
      WordEnd(pn[..], x, carry, b32);
    }

    /** `operator*=`. The target is zeroed before the operand is read, so multiplying a number by
        itself in place gives zero. */
    method Multiply(b: BaseUint)
      requires Valid() && b.Valid() && (b.pn == pn ==> b == this)
      modifies pn
      ensures Valid()
      ensures b != this ==> Value() == old(Value()) * old(b.Value()) % MODULUS
      ensures b == this ==> Value() == 0
    {
      hide ProductSoFar, Val, Place;
      ghost var x, y := pn[..], b.pn[..];
      var a := new BaseUint.Copy(this);
      Assign(0);
      ProductStart(pn[..], x, y);
      ghost var dropped: nat := 0;
      for j := 0 to WIDTH
        invariant Valid() && b.Valid() && a.pn[..] == x && (b != this ==> b.pn[..] == y)
        invariant b == this ==> Value() == 0
        invariant b != this ==> ProductSoFar(Value(), x, y, j, dropped)
      {
        ghost var before := pn[..];
        var carry := MultiplyRow(a.pn[j], b, j);
        if b != this {
          RowValue(pn[..], before, y, j, carry, x[j]);
          ghost var sum := Val(before, WIDTH);
          dropped := RowDone(x, y, j, sum, Value(), carry, dropped);
        }
      }
      ValBound(pn[..], WIDTH);
      if b != this {
        ProductEnd(Value(), x, y, dropped);
      }
    }

    /** The inner loop: `w` times the operand is added from limb `j` up. */
    method MultiplyRow(w: nat, b: BaseUint, j: nat) returns (carry: nat)
      requires Valid() && b.Valid() && w < LIMB && j < WIDTH && (b.pn == pn ==> b == this)
      requires b == this ==> Value() == 0
      modifies pn
      ensures Valid()
      ensures b == this ==> Value() == 0
      ensures b != this ==> RowSoFar(pn[..], old(pn[..]), b.pn[..], WIDTH - j, j, carry, w)
    {
      hide RowSoFar, Val, Place, Times;
      ghost var x, y := pn[..], b.pn[..];
      carry := 0;
      var i := 0;
      RowStart(x, y, j, w);
      if b == this {
        AllZero(pn[..]);
      }
      while i + j < WIDTH
        invariant 0 <= i && i + j <= WIDTH && Valid() && b.Valid() && carry < LIMB && (b != this ==> b.pn[..] == y)
        invariant b == this ==> carry == 0 && forall i | 0 <= i < WIDTH :: pn[i] == 0
        invariant forall k | i + j <= k < WIDTH :: pn[k] == x[k]
        invariant b != this ==> RowSoFar(pn[..], x, y, i, j, carry, w)
      {
        var n := carry + pn[i + j] + Times(w, b.pn[i]);
        CarryFits(carry, pn[i + j], w, b.pn[i]);
        if b != this {
          MulStepRow(pn[..], x, y, i, j, carry, w);
        }
        Store(i + j, n % LIMB);
        carry := n / LIMB;
        i := i + 1;
      }
      if b == this {
        ValZero(pn[..], WIDTH);
      }
    }

    /** `CompareTo`: from the highest limb down. */
    method CompareTo(b: BaseUint) returns (r: int)
      requires Valid() && b.Valid()
      ensures r == if Value() < b.Value() then -1 else if Value() > b.Value() then 1 else 0
    {
      hide Val, Place;
      var i := WIDTH;
      while i > 0
        invariant 0 <= i <= WIDTH
        invariant forall j | i <= j < WIDTH :: pn[j] == b.pn[j]
        invariant Val(pn[..], WIDTH) - Val(b.pn[..], WIDTH) == Val(pn[..], i) - Val(b.pn[..], i)
      {
        i := i - 1;
        ValOpen(pn[..], i);
        ValOpen(b.pn[..], i);
        ValBound(pn[..], i);
        ValBound(b.pn[..], i);
        MulStep(Place(i), pn[i], b.pn[i]);
        MulStep(Place(i), b.pn[i], pn[i]);
        if pn[i] < b.pn[i] {
          return -1;
        }
        if pn[i] > b.pn[i] {
          return 1;
        }
      }
      ValNone(pn[..], b.pn[..]);
      return 0;
    }

    /** `operator<<=`. */
    method ShiftLeft(shift: nat)
      requires Valid()
      modifies pn
      ensures Valid() && Value() == old(Value()) * Pow2(shift) % MODULUS
    {
      hide LeftSoFar, Val, Place, Pow2, BitOr, Carried, Kept;
      ghost var x := pn[..];
      var a := new BaseUint.Copy(this);
      Zero();
      var k, sh := shift / 32, shift % 32;
      ghost var dropped: nat := 0;
      LeftStart(pn[..], x, k, sh);
      for i := 0 to WIDTH
        invariant Valid() && a.pn[..] == x && LeftSoFar(pn[..], x, i, k, sh, dropped)
      {
        dropped := LeftStep(pn[..], x, i, k, sh, dropped);
        if i + k + 1 < WIDTH && sh != 0 {
          Store(i + k + 1, BitOr(pn[i + k + 1], Carried(a.pn[i], sh)));
        }
        if i + k < WIDTH {
          Store(i + k, BitOr(pn[i + k], Kept(a.pn[i], sh)));
        }
      }
      LeftEnd(pn[..], x, k, sh, dropped);
    }

    /** `operator>>=`. */
    method ShiftRight(shift: nat)
      requires Valid()
      modifies pn
      ensures Valid() && Value() == Quotient(old(Value()), Pow2(shift))
    {
      hide RightSoFar, Val, Place, Pow2, BitOr, Upper, Lower;
      ghost var x := pn[..];
      var a := new BaseUint.Copy(this);
      Zero();
      var k, sh := shift / 32, shift % 32;
      RightStart(pn[..], x, k, sh);
      for i := 0 to WIDTH
        invariant Valid() && a.pn[..] == x && RightSoFar(pn[..], x, i, k, sh)
      {
        RightStep(pn[..], x, i, k, sh);
        if i - k - 1 >= 0 && sh != 0 {
          Store(i - k - 1, BitOr(pn[i - k - 1], Lower(a.pn[i], sh)));
        }
        if i - k >= 0 {
          Store(i - k, BitOr(pn[i - k], Upper(a.pn[i], sh)));
        }
      }
      RightEnd(pn[..], x, k, sh);
    }

    method Zero()
      requires pn.Length == WIDTH
      modifies pn
      ensures Valid() && forall i | 0 <= i < WIDTH :: pn[i] == 0
    {
      for i := 0 to WIDTH
        invariant forall j | 0 <= j < i :: pn[j] == 0
      {
        pn[i] := 0;
      }
    }

    /** `bits`: one more than the position of the highest set bit, or zero. */
    method Bits() returns (r: nat)
      requires Valid()
      ensures IsBitLength(Value(), r) && r <= 256
    {
      hide Val, Place, Pow2, IsBitLength;
      var pos := WIDTH;
      while pos > 0
        invariant 0 <= pos <= WIDTH && forall j | pos <= j < WIDTH :: pn[j] == 0
      {
        pos := pos - 1;
        if pn[pos] != 0 {
          var nbits := 31;
          LimbIs();
          while nbits > 0
            invariant 0 <= nbits <= 31 && pn[pos] < Pow2(nbits + 1)
          {
            if pn[pos] / Pow2(nbits) % 2 == 1 {
              BitFound(pn[pos], nbits);
              TopBit(pn[..], pos, nbits);
              return 32 * pos + nbits + 1;
            }
            BitClear(pn[pos], nbits);
            nbits := nbits - 1;
          }
          SmallPow2();
          TopBit(pn[..], pos, 0);
          return 32 * pos + 1;
        }
      }
      NoBits(pn[..]);
      return 0;
    }

    /** `operator/=`: shift and subtract. `false` stands for the division-by-zero exception. */
    method Divide(b: BaseUint) returns (ok: bool)
      requires Valid() && b.Valid() && (b.pn == pn ==> b == this)
      modifies pn
      ensures Valid() && ok == (old(b.Value()) != 0)
      ensures ok ==> Value() == Quotient(old(Value()), old(b.Value()))
      ensures !ok ==> Value() == 0
    {
      hide Val, Place, Pow2, IsBitLength, Dividing;
      ghost var n, d := Value(), b.Value();
      ModulusIs();
      ValBound(pn[..], WIDTH);
      var div := new BaseUint.Copy(b);
      var num := new BaseUint.Copy(this);
      Assign(0);
      var num_bits := num.Bits();
      var div_bits := div.Bits();
      LengthFacts(n, num_bits);
      LengthFacts(d, div_bits);
      if div_bits == 0 {
        return false;
      }
      if div_bits > num_bits {
        ShorterIsLess(n, num_bits, d, div_bits);
        DivIs(n, d, 0);
        return true;
      }
      Aligned(pn[..], n, num_bits, d, div_bits);
      div.ShiftLeft(num_bits - div_bits);
      DivideBits(div, num, num_bits - div_bits, n, d);
      return true;
    }

    /** The loop: one bit of the quotient at a time. */
    method DivideBits(div: BaseUint, num: BaseUint, from: nat, ghost n: nat, ghost d: nat)
      requires Valid() && num.Valid() && div.Valid() && pn != num.pn && pn != div.pn && num.pn != div.pn
      requires from < 256 && n < MODULUS && Dividing(pn[..], num.Value(), n, d, from + 1)
      requires div.Value() == d * Pow2(from)
      modifies pn, num.pn, div.pn
      ensures Valid() && d > 0 && Value() == Quotient(n, d)
    {
      hide Val, Place, Pow2, Dividing, BitOr;
      var shift: int := from;
      while shift >= 0
        invariant -1 <= shift < 256 && Valid() && num.Valid() && div.Valid()
        invariant Dividing(pn[..], num.Value(), n, d, shift + 1)
        invariant shift >= 0 ==> div.Value() == d * Pow2(shift)
      {
        DivideBit(div, num, shift, n, d);
        div.ShiftRight(1);
        HalfShift(d, shift);
        shift := shift - 1;
      }
      DivideEnd(pn[..], num.Value(), n, d);
    }

    /** If the divisor fits, it is taken off and its bit is set in the quotient. */
    method DivideBit(div: BaseUint, num: BaseUint, shift: nat, ghost n: nat, ghost d: nat)
      requires Valid() && num.Valid() && div.Valid() && pn != num.pn && pn != div.pn && num.pn != div.pn
      requires shift < 256 && n < MODULUS && Dividing(pn[..], num.Value(), n, d, shift + 1)
      requires div.Value() == d * Pow2(shift)
      modifies pn, num.pn
      ensures Valid() && num.Valid() && Dividing(pn[..], num.Value(), n, d, shift)
    {
      hide Val, Place, Pow2, Dividing, BitOr;
      var order := num.CompareTo(div);
      DivideStep(pn[..], num.Value(), n, d, shift);
      if order >= 0 {
        num.Subtract(div);
        Store(shift / 32, BitOr(pn[shift / 32], Pow2(shift % 32)));
      }
    }

    function GetLow64(): nat
      requires pn.Length == WIDTH
      reads pn
    {
      pn[0] + LIMB * pn[1]
    }
  }

  lemma LowValue(s: seq<nat>, b: nat)
    requires |s| == WIDTH && s[0] == b % LIMB && s[1] == b / LIMB && forall i | 2 <= i < WIDTH :: s[i] == 0
    ensures Val(s, WIDTH) == b
  {
    ValHighZero(s, 2, WIDTH);
    PlaceNext(0);
    assert Val(s, 1) == s[0];
    DivParts(b, LIMB);
  }

  lemma ValStart(s: seq<nat>, t: seq<nat>, u: seq<nat>)
    ensures Val(s, 0) == Val(t, 0) == Val(u, 0) == 0 && Place(0) == 1
  {
    PlaceNext(0);
  }

  /** A limb written at the end of the finished part. */
  lemma ValNext(s: seq<nat>, i: nat, d: nat)
    requires i < |s|
    ensures Val(s[i := d], i + 1) == Val(s, i) + Place(i) * d
  {
    ValSame(s[i := d], s, i);
  }

  lemma ValOpen(s: seq<nat>, i: nat)
    requires i < |s|
    ensures Val(s, i + 1) == Val(s, i) + Place(i) * s[i]
  {
  }

  lemma AddStep(s: seq<nat>, x: seq<nat>, y: seq<nat>, i: nat, carry: nat)
    requires |s| == |x| == |y| == WIDTH && i < WIDTH
    requires Val(s, i) + Place(i) * carry == Val(x, i) + Val(y, i)
    ensures var n := carry + x[i] + y[i];
      Val(s[i := n % LIMB], i + 1) + Place(i + 1) * (n / LIMB) == Val(x, i + 1) + Val(y, i + 1)
  {
    hide Val, Place;
    var n := carry + x[i] + y[i];
    AddLimb(Place(i), Val(s, i), Val(x, i) + Val(y, i), carry, x[i], y[i]);
    PlaceNext(i);
    ValNext(s, i, n % LIMB);
    ValOpen(x, i);
    ValOpen(y, i);
  }

  lemma ComplementStep(s: seq<nat>, x: seq<nat>, i: nat)
    requires |s| == |x| == WIDTH && i < WIDTH && x[i] < LIMB
    requires Val(s, i) + Val(x, i) == Place(i) - 1
    ensures Val(s[i := LIMB - 1 - x[i]], i + 1) + Val(x, i + 1) == Place(i + 1) - 1
  {
    hide Val, Place;
    var d := LIMB - 1 - x[i];
    ValNext(s, i, d);
    ValOpen(x, i);
    PlaceNext(i);
    Distribute(Place(i), d, x[i]);
    Distribute(Place(i), d + x[i], 1);
  }

  lemma IncrementStep(s: seq<nat>, i: nat)
    requires |s| == WIDTH && i < WIDTH && s[i] < LIMB
    ensures var x := (s[i] + 1) % LIMB;
      Val(s[i := x], WIDTH) + (if x == 0 then Place(i + 1) else 0) == Val(s, WIDTH) + Place(i)
  {
    hide Val, Place;
    var x := (s[i] + 1) % LIMB;
    ValPut(s, i, x, WIDTH);
    PlaceNext(i);
    if x == 0 {
      assert s[i] == LIMB - 1;
      Distribute(Place(i), s[i], 1);
    } else {
      assert x == s[i] + 1;
      Distribute(Place(i), s[i], 1);
    }
  }

  lemma AddNegated(a: nat, b: nat)
    requires a < MODULUS && b < MODULUS
    ensures (a + (MODULUS - b) % MODULUS) % MODULUS == (a - b) % MODULUS
  {
  }

  lemma CarryFits(carry: nat, x: nat, a: nat, b: nat)
    requires carry < LIMB && x < LIMB && a < LIMB && b < LIMB
    ensures (carry + x + Times(a, b)) / LIMB < LIMB
    ensures b == 0 ==> Times(a, b) == 0
  {
    MulMonotone(a, b, LIMB - 1);
    MulMonotone(LIMB - 1, a, LIMB - 1);
    Exchange(a, LIMB - 1);
    DivBelow(carry + x + a * b, LIMB, LIMB);
  }

  /** The first `i` limbs have been multiplied by `w`. */
  ghost predicate WordSoFar(s: seq<nat>, x: seq<nat>, i: nat, carry: nat, w: nat)
    requires |s| == |x| == WIDTH && i <= WIDTH
  {
    Val(s, i) + Place(i) * carry == Val(x, i) * w
  }

  lemma WordStart(x: seq<nat>, w: nat)
    requires |x| == WIDTH
    ensures WordSoFar(x, x, 0, 0, w)
  {
  }

  lemma WordEnd(s: seq<nat>, x: seq<nat>, carry: nat, w: nat)
    requires |s| == |x| == WIDTH && Words(s) && WordSoFar(s, x, WIDTH, carry, w)
    ensures Val(s, WIDTH) == Val(x, WIDTH) * w % MODULUS
  {
    hide Val, Place;
    ModulusIs();
    ValBound(s, WIDTH);
    Reduced(Val(s, WIDTH), carry, Val(x, WIDTH) * w, Place(WIDTH));
  }

  lemma MulStepWord(s: seq<nat>, x: seq<nat>, i: nat, carry: nat, w: nat)
    requires |s| == |x| == WIDTH && i < WIDTH && WordSoFar(s, x, i, carry, w)
    ensures var n := carry + Times(w, x[i]); WordSoFar(s[i := n % LIMB], x, i + 1, n / LIMB, w)
  {
    hide Val, Place;
    var n := carry + w * x[i];
    CarryStep(Place(i), n);
    Distribute(Place(i), carry, w * x[i]);
    PlaceNext(i);
    ValNext(s, i, n % LIMB);
    ValOpen(x, i);
    Scale(Val(x, i), Place(i), x[i], w);
  }

  lemma Scale(v: nat, p: nat, x: nat, w: nat)
    ensures (v + p * x) * w == v * w + p * (w * x)
  {
  }

  /** `w` times the first `i` limbs of `y` have been added to `x` from limb `j` up. */
  ghost predicate RowSoFar(s: seq<nat>, x: seq<nat>, y: seq<nat>, i: nat, j: nat, carry: nat, w: nat)
    requires |s| == |x| == |y| == WIDTH && i + j <= WIDTH
  {
    Val(s, i + j) + Place(i + j) * carry == Val(x, i + j) + Place(j) * (w * Val(y, i))
  }

  lemma RowStart(x: seq<nat>, y: seq<nat>, j: nat, w: nat)
    requires |x| == |y| == WIDTH && j <= WIDTH
    ensures RowSoFar(x, x, y, 0, j, 0, w)
  {
    hide Place;
    assert w * Val(y, 0) == 0;
  }

  lemma MulStepRow(s: seq<nat>, x: seq<nat>, y: seq<nat>, i: nat, j: nat, carry: nat, w: nat)
    requires |s| == |x| == |y| == WIDTH && i + j < WIDTH && RowSoFar(s, x, y, i, j, carry, w)
    ensures var n := carry + x[i + j] + Times(w, y[i]);
      RowSoFar(s[i + j := n % LIMB], x, y, i + 1, j, n / LIMB, w)
  {
    hide Val, Place;
    var k := i + j;
    AddLimb(Place(k), Val(s, k), Val(x, k) + Place(j) * (w * Val(y, i)), carry, x[k], w * y[i]);
    PlaceNext(k);
    ValNext(s, k, (carry + x[k] + w * y[i]) % LIMB);
    ValOpen(x, k);
    ValOpen(y, i);
    PlaceAdd(j, i);
    RowTerm(Place(j), Place(i), w, Val(y, i), y[i]);
  }

  /** The limbs of zero are zero. */
  lemma {:induction false} NoLimbs(s: seq<nat>, n: nat)
    requires n <= |s| && Val(s, n) == 0
    ensures forall i | 0 <= i < n :: s[i] == 0
  {
    if n > 0 {
      Exchange(Place(n - 1), s[n - 1]);
      MulMonotone(s[n - 1], 1, Place(n - 1));
      NoLimbs(s, n - 1);
    }
  }

  lemma AllZero(s: seq<nat>)
    requires |s| == WIDTH && Val(s, WIDTH) == 0
    ensures forall i | 0 <= i < WIDTH :: s[i] == 0
  {
    NoLimbs(s, WIDTH);
  }

  lemma RowTerm(p: nat, q: nat, w: nat, v: nat, y: nat)
    ensures p * (w * (v + q * y)) == p * (w * v) + (p * q) * (w * y)
  {
    assert w * (v + q * y) == w * v + q * (w * y) by { Scale(v, q, y, w); Exchange(w, v + q * y); Exchange(w, v); }
    Distribute(p, w * v, q * (w * y));
    Associate(p, q, w * y);
  }

  /** The product with the first `j` limbs of `x`, less whole multiples of the modulus. */
  ghost predicate ProductSoFar(sum: nat, x: seq<nat>, y: seq<nat>, j: nat, dropped: nat)
    requires |x| == |y| == WIDTH && j <= WIDTH
  {
    sum + Place(WIDTH) * dropped == Val(x, j) * Val(y, WIDTH)
  }

  lemma ProductStart(s: seq<nat>, x: seq<nat>, y: seq<nat>)
    requires |s| == |x| == |y| == WIDTH && Val(s, WIDTH) == 0
    ensures ProductSoFar(Val(s, WIDTH), x, y, 0, 0)
  {
    hide Place;
    assert Val(x, 0) == 0;
  }

  lemma ProductEnd(sum: nat, x: seq<nat>, y: seq<nat>, dropped: nat)
    requires |x| == |y| == WIDTH && sum < Place(WIDTH) && ProductSoFar(sum, x, y, WIDTH, dropped)
    ensures sum == Val(x, WIDTH) * Val(y, WIDTH) % MODULUS
  {
    hide Place, Val;
    ModulusIs();
    Reduced(sum, dropped, Val(x, WIDTH) * Val(y, WIDTH), Place(WIDTH));
  }

  lemma {:induction false} ValSplit(s: seq<nat>, n: nat, m: nat)
    requires n + m <= |s|
    ensures Val(s, n + m) == Val(s, n) + Place(n) * Val(s[n..], m)
    decreases m
  {
    if m > 0 {
      ValSplit(s, n, m - 1);
      PlaceAdd(n, m - 1);
      Associate(Place(n), Place(m - 1), s[n + m - 1]);
      Distribute(Place(n), Val(s[n..], m - 1), Place(m - 1) * s[n + m - 1]);
    }
  }

  /** A row adds a limb's worth of the product, up to multiples of the modulus. */
  lemma RowDone(x: seq<nat>, y: seq<nat>, j: nat, before: nat, after: nat, carry: nat, dropped: nat) returns (d: nat)
    requires |x| == |y| == WIDTH && j < WIDTH
    requires ProductSoFar(before, x, y, j, dropped)
    requires after + Place(WIDTH) * carry == before + Place(j) * (x[j] * Val(y, WIDTH - j))
    ensures ProductSoFar(after, x, y, j + 1, d)
  {
    hide Val, Place;
    var low, high, whole := Val(y, WIDTH - j), Val(y[WIDTH - j..], j), Val(y, WIDTH);
    ValSplit(y, WIDTH - j, j);
    PlaceAdd(j, WIDTH - j);
    ValOpen(x, j);
    RowTerm(Place(j), Place(WIDTH - j), x[j], low, high);
    Scale(Val(x, j), Place(j), x[j], whole);
    d := dropped + carry + x[j] * high;
    Distribute(Place(WIDTH), dropped, carry);
    Distribute(Place(WIDTH), dropped + carry, x[j] * high);
  }

  /** What a row leaves, in terms of whole values. */
  lemma RowValue(s: seq<nat>, x: seq<nat>, y: seq<nat>, j: nat, carry: nat, w: nat)
    requires |s| == |x| == |y| == WIDTH && j < WIDTH && RowSoFar(s, x, y, WIDTH - j, j, carry, w)
    ensures Val(s, WIDTH) + Place(WIDTH) * carry == Val(x, WIDTH) + Place(j) * (w * Val(y, WIDTH - j))
  {
  }

  lemma ValNone(s: seq<nat>, t: seq<nat>)
    ensures Val(s, 0) == 0 && Val(t, 0) == 0
  {
  }

  // ---------------------------------------------------------------- shifts

  /** The two parts a limb is cut into by a shift. */
  lemma Parts(a: nat, sh: nat)
    requires a < LIMB && sh < 32
    ensures Carried(a, sh) < Pow2(sh) && Kept(a, sh) % Pow2(sh) == 0
    ensures a * Pow2(sh) == LIMB * Carried(a, sh) + Kept(a, sh)
  {
    hide Pow2;
    var p, q := Pow2(sh), Pow2(32 - sh);
    LimbIs();
    Pow2Add(32 - sh, sh);
    DivBelow(a, q, p);
    DivParts(a, q);
    var h, r := a / q, a % q;
    MulStep(p, r, q);
    ScaledUp(a, p, q, h, r);
    DivIs(a * p, LIMB, h);
    DivExact(p, r);
  }

  lemma ScaledUp(a: nat, p: nat, q: nat, h: nat, r: nat)
    requires a == q * h + r
    ensures a * p == (q * p) * h + p * r
  {
    Distribute(p, q * h, r);
    Associate(p, q, h);
    Exchange(p, q);
    Exchange(p, a);
  }

  /** The bits of a limb that a shift to the left moves into the next limb, and those that
      stay in this one. */
  function Carried(a: nat, sh: nat): nat
    requires sh <= 32
  {
    Quotient(a, Pow2(32 - sh))
  }

  function Kept(a: nat, sh: nat): nat {
    a * Pow2(sh) % LIMB
  }

  ghost predicate LeftSoFar(s: seq<nat>, x: seq<nat>, i: nat, k: nat, sh: nat, dropped: nat)
    requires |s| == |x| == WIDTH && i <= WIDTH && sh < 32
  {
    && Words(x) && Words(s)
    && Val(s, WIDTH) + Place(WIDTH) * dropped == Place(k) * (Pow2(sh) * Val(x, i))
    && (forall j | i + k < j < WIDTH :: s[j] == 0)
    && (i + k < WIDTH ==> s[i + k] < Pow2(sh))
  }

  lemma LeftStart(s: seq<nat>, x: seq<nat>, k: nat, sh: nat)
    requires |s| == |x| == WIDTH && sh < 32 && Words(x) && forall i | 0 <= i < WIDTH :: s[i] == 0
    ensures LeftSoFar(s, x, 0, k, sh, 0)
  {
    hide Place, Pow2;
    ValZero(s, WIDTH);
    assert Val(x, 0) == 0;
  }

  /** What one limb contributes to a number shifted left. */
  lemma LeftTerm(k: nat, sh: nat, v: nat, i: nat, a: nat, hi: nat, lo: nat)
    requires a * Pow2(sh) == LIMB * hi + lo
    ensures Place(k) * (Pow2(sh) * (v + Place(i) * a)) == Place(k) * (Pow2(sh) * v) + Place(i + k + 1) * hi + Place(i + k) * lo
  {
    hide Place, Pow2;
    var p, q, t := Place(k), Pow2(sh), Place(i);
    PlaceAdd(k, i);
    PlaceNext(i + k);
    Distribute(q, v, t * a);
    Distribute(p, q * v, q * (t * a));
    assert q * (t * a) == t * (a * q) by { Exchange(q, t * a); Associate(t, a, q); }
    Associate(p, t, a * q);
    Distribute(p * t, LIMB * hi, lo);
    Associate(p * t, LIMB, hi);
  }

  lemma LeftStep(s: seq<nat>, x: seq<nat>, i: nat, k: nat, sh: nat, dropped: nat) returns (d: nat)
    requires |s| == |x| == WIDTH && i < WIDTH && sh < 32 && LeftSoFar(s, x, i, k, sh, dropped)
    ensures var hi, lo := Carried(x[i], sh), Kept(x[i], sh);
      var s1 := if i + k + 1 < WIDTH && sh != 0 then s[i + k + 1 := BitOr(s[i + k + 1], hi)] else s;
      var s2 := if i + k < WIDTH then s1[i + k := BitOr(s1[i + k], lo)] else s1;
      LeftSoFar(s2, x, i + 1, k, sh, d)
      && (i + k + 1 < WIDTH ==> BitOr(s[i + k + 1], hi) < LIMB) && (i + k < WIDTH ==> BitOr(s[i + k], lo) < LIMB)
  {
    hide Place, Pow2, Val, BitOr;
    var hi, lo := Carried(x[i], sh), Kept(x[i], sh);
    Parts(x[i], sh);
    LimbIs();
    Pow2Monotone(sh, 32);
    ValOpen(x, i);
    LeftTerm(k, sh, Val(x, i), i, x[i], hi, lo);
    NoShift(x[i], sh);
    var s1 := s;
    d := dropped;
    if i + k + 1 < WIDTH {
      SmallPow2();
      OrAdds(0, hi, 0);
      ValPut(s, i + k + 1, hi, WIDTH);
      s1 := s[i + k + 1 := hi];
      assert sh == 0 ==> s1 == s;
    } else {
      PlaceAdd(WIDTH, i + k + 1 - WIDTH);
      d := d + Place(i + k + 1 - WIDTH) * hi;
      Distribute(Place(WIDTH), dropped, Place(i + k + 1 - WIDTH) * hi);
      Associate(Place(WIDTH), Place(i + k + 1 - WIDTH), hi);
    }
    if i + k < WIDTH {
      OrAdds(s1[i + k], lo, sh);
      ValPut(s1, i + k, s1[i + k] + lo, WIDTH);
      Distribute(Place(i + k), s1[i + k], lo);
      OrFits(s1[i + k], lo, sh);
    } else {
      PlaceAdd(WIDTH, i + k - WIDTH);
      var d1 := d;
      d := d + Place(i + k - WIDTH) * lo;
      Distribute(Place(WIDTH), d1, Place(i + k - WIDTH) * lo);
      Associate(Place(WIDTH), Place(i + k - WIDTH), lo);
    }
  }

  lemma NoShift(a: nat, sh: nat)
    requires a < LIMB
    ensures sh == 0 ==> Carried(a, sh) == 0
  {
    LimbIs();
    DivIs(a, LIMB, 0);
  }

  /** A small number and a multiple below 2^32 stay below it together. */
  lemma OrFits(x: nat, y: nat, s: nat)
    requires s <= 32 && x < Pow2(s) && y < LIMB && y % Pow2(s) == 0
    ensures x + y < LIMB
  {
    hide Pow2;
    LimbIs();
    Pow2Add(s, 32 - s);
    DivParts(y, Pow2(s));
    DivBelow(y, Pow2(s), Pow2(32 - s));
    MulStep(Pow2(s), y / Pow2(s), Pow2(32 - s));
  }

  lemma LeftEnd(s: seq<nat>, x: seq<nat>, k: nat, sh: nat, dropped: nat)
    requires |s| == |x| == WIDTH && sh < 32 && LeftSoFar(s, x, WIDTH, k, sh, dropped)
    ensures Val(s, WIDTH) == Val(x, WIDTH) * Pow2(32 * k + sh) % MODULUS
  {
    hide Val, Pow2;
    var v := Val(x, WIDTH);
    Pow2Add(32 * k, sh);
    Associate(Place(k), Pow2(sh), v);
    Exchange(Place(k) * Pow2(sh), v);
    ModulusIs();
    ValBound(s, WIDTH);
    Reduced(Val(s, WIDTH), dropped, v * Pow2(32 * k + sh), Place(WIDTH));
  }

  /** What is cut off by a shift to the right. */
  ghost function Remainder(x: seq<nat>, k: nat, sh: nat): nat
    requires k < |x| == WIDTH
  {
    Val(x, k) + Place(k) * (x[k] % Pow2(sh))
  }

  ghost predicate RightSoFar(s: seq<nat>, x: seq<nat>, i: nat, k: nat, sh: nat)
    requires |s| == |x| == WIDTH && i <= WIDTH && sh < 32
  {
    && Words(x) && Words(s)
    && (forall j | 0 <= j < WIDTH && j >= i - k :: s[j] == 0)
    && (i > k ==>
          && Place(k) * (Pow2(sh) * Val(s, WIDTH)) + Remainder(x, k, sh) == Val(x, i)
          && s[i - k - 1] < Pow2(32 - sh))
  }

  lemma RightStart(s: seq<nat>, x: seq<nat>, k: nat, sh: nat)
    requires |s| == |x| == WIDTH && sh < 32 && Words(x) && forall i | 0 <= i < WIDTH :: s[i] == 0
    ensures RightSoFar(s, x, 0, k, sh)
  {
  }

  /** The parts of a limb under a shift to the right. */
  lemma RightParts(a: nat, sh: nat)
    requires a < LIMB && sh < 32
    ensures Upper(a, sh) < Pow2(32 - sh) && a == Pow2(sh) * Upper(a, sh) + a % Pow2(sh)
    ensures Lower(a, sh) == Pow2(32 - sh) * (a % Pow2(sh)) && Lower(a, sh) % Pow2(32 - sh) == 0
  {
    hide Pow2;
    var p, q := Pow2(sh), Pow2(32 - sh);
    LimbIs();
    Pow2Add(sh, 32 - sh);
    DivParts(a, p);
    DivBelow(a, p, q);
    var h, r := a / p, a % p;
    MulStep(q, r, p);
    ScaledUp(a, q, p, h, r);
    DivIs(a * q, LIMB, h);
    DivExact(q, r);
  }

  /** The bits of a limb that stay in place under a shift to the right, and those that go to
      the limb below. */
  function Upper(a: nat, sh: nat): nat { Quotient(a, Pow2(sh)) }

  function Lower(a: nat, sh: nat): nat
    requires sh <= 32
  {
    a * Pow2(32 - sh) % LIMB
  }

  lemma RightStep(s: seq<nat>, x: seq<nat>, i: nat, k: nat, sh: nat)
    requires |s| == |x| == WIDTH && i < WIDTH && sh < 32 && RightSoFar(s, x, i, k, sh)
    ensures var hi, lo := Upper(x[i], sh), Lower(x[i], sh);
      var s1 := if i - k - 1 >= 0 && sh != 0 then s[i - k - 1 := BitOr(s[i - k - 1], lo)] else s;
      var s2 := if i - k >= 0 then s1[i - k := BitOr(s1[i - k], hi)] else s1;
      RightSoFar(s2, x, i + 1, k, sh)
      && (i - k - 1 >= 0 ==> BitOr(s[i - k - 1], lo) < LIMB) && (i - k >= 0 ==> BitOr(s[i - k], hi) < LIMB)
  {
    hide Place, Pow2, Val, BitOr, Remainder;
    var hi, lo := Upper(x[i], sh), Lower(x[i], sh);
    RightParts(x[i], sh);
    LimbIs();
    Pow2Monotone(32 - sh, 32);
    SmallPow2();
    OrAdds(0, hi, 0);
    if i == k {
      RightFirst(s, x, k, sh, hi);
    } else if i > k {
      var j := i - k - 1;
      OrAdds(s[j], lo, 32 - sh);
      OrFits(s[j], lo, 32 - sh);
      NoLow(x[i], sh);
      RightLater(s, x, i, k, sh, hi, lo);
      assert sh == 0 ==> s[j := s[j] + lo] == s;
    }
  }

  lemma NoLow(a: nat, sh: nat)
    requires a < LIMB
    ensures sh == 0 ==> Lower(a, sh) == 0
  {
    LimbIs();
    Exchange(a, LIMB);
    DivExact(LIMB, a);
  }

  lemma RightFirst(s: seq<nat>, x: seq<nat>, k: nat, sh: nat, hi: nat)
    requires |s| == |x| == WIDTH && k < WIDTH && sh < 32 && forall j | 0 <= j < WIDTH :: s[j] == 0
    requires x[k] == Pow2(sh) * hi + x[k] % Pow2(sh)
    ensures Place(k) * (Pow2(sh) * Val(s[0 := hi], WIDTH)) + Remainder(x, k, sh) == Val(x, k + 1)
  {
    hide Place, Pow2, Val;
    ValZero(s, WIDTH);
    ValPut(s, 0, hi, WIDTH);
    PlaceNext(0);
    ValOpen(x, k);
    Distribute(Place(k), Pow2(sh) * hi, x[k] % Pow2(sh));
  }

  lemma RightLater(s: seq<nat>, x: seq<nat>, i: nat, k: nat, sh: nat, hi: nat, lo: nat)
    requires |s| == |x| == WIDTH && k < i < WIDTH && sh < 32 && s[i - k] == 0
    requires x[i] == Pow2(sh) * hi + x[i] % Pow2(sh) && lo == Pow2(32 - sh) * (x[i] % Pow2(sh))
    requires Place(k) * (Pow2(sh) * Val(s, WIDTH)) + Remainder(x, k, sh) == Val(x, i)
    ensures Place(k) * (Pow2(sh) * Val(s[i - k - 1 := s[i - k - 1] + lo][i - k := hi], WIDTH)) + Remainder(x, k, sh) == Val(x, i + 1)
  {
    hide Place, Pow2, Val, Remainder;
    var j := i - k - 1;
    var s1 := s[j := s[j] + lo];
    ValPut(s, j, s[j] + lo, WIDTH);
    Distribute(Place(j), s[j], lo);
    ValPut(s1, j + 1, hi, WIDTH);
    ValOpen(x, i);
    RightTerm(k, sh, Val(s, WIDTH), j, hi, x[i] % Pow2(sh));
  }

  /** What one limb contributes to a number shifted right, seen from the unshifted number. */
  lemma RightTerm(k: nat, sh: nat, v: nat, j: nat, hi: nat, r: nat)
    requires sh < 32
    ensures Place(k) * (Pow2(sh) * (v + Place(j) * (Pow2(32 - sh) * r) + Place(j + 1) * hi))
         == Place(k) * (Pow2(sh) * v) + Place(k + j + 1) * (Pow2(sh) * hi + r)
  {
    hide Place, Pow2;
    var p, q, t, u := Place(k), Pow2(sh), Place(j), Pow2(32 - sh);
    LimbIs();
    Pow2Add(sh, 32 - sh);
    PlaceNext(j);
    PlaceAdd(k, j + 1);
    Distribute(q, v, t * (u * r));
    Distribute(q, v + t * (u * r), Place(j + 1) * hi);
    Distribute(p, q * v, q * (t * (u * r)));
    Distribute(p, q * v + q * (t * (u * r)), q * (Place(j + 1) * hi));
    Swap(q, t, u * r);
    Associate(q, u, r);
    Associate(t, LIMB, r);
    Swap(q, Place(j + 1), hi);
    Associate(p, Place(j + 1), r);
    Associate(p, Place(j + 1), q * hi);
    Distribute(Place(k + j + 1), q * hi, r);
  }

  lemma Swap(a: nat, b: nat, c: nat)
    ensures a * (b * c) == b * (a * c)
  {
    Associate(a, b, c);
    Associate(b, a, c);
    Exchange(a, b);
  }

  lemma RightEnd(s: seq<nat>, x: seq<nat>, k: nat, sh: nat)
    requires |s| == |x| == WIDTH && sh < 32 && RightSoFar(s, x, WIDTH, k, sh)
    ensures Val(s, WIDTH) == Quotient(Val(x, WIDTH), Pow2(32 * k + sh))
  {
    hide Val, Pow2;
    var p, q := Place(k), Pow2(sh);
    Pow2Add(32 * k, sh);
    if k < WIDTH {
      Associate(p, q, Val(s, WIDTH));
      ValBound(x, k);
      DivParts(x[k], q);
      MulStep(p, x[k] % q, q);
      DivIs(Val(x, WIDTH), p * q, Val(s, WIDTH));
    } else {
      ValZero(s, WIDTH);
      ValBound(x, WIDTH);
      Pow2Monotone(32 * WIDTH, 32 * k + sh);
      DivIs(Val(x, WIDTH), p * q, 0);
    }
  }

  // ---------------------------------------------------------------- bit length

  ghost predicate IsBitLength(v: nat, r: nat) {
    if r == 0 then v == 0 else Pow2(r - 1) <= v < Pow2(r)
  }

  lemma SmallPow2()
    ensures Pow2(0) == 1 && Pow2(1) == 2
  {
  }

  lemma BitFound(x: nat, n: nat)
    requires x / Pow2(n) % 2 == 1
    ensures x >= Pow2(n)
  {
    hide Pow2;
    DivBelow(x, Pow2(n), 1);
  }

  lemma BitClear(x: nat, n: nat)
    requires x < Pow2(n + 1) && x / Pow2(n) % 2 != 1
    ensures x < Pow2(n)
  {
    Exchange(Pow2(n), 2);
    DivBelow(x, Pow2(n), 2);
    DivBelow(x, Pow2(n), 1);
  }

  lemma TopBit(s: seq<nat>, pos: nat, n: nat)
    requires |s| == WIDTH && Words(s) && pos < WIDTH && forall j | pos < j < WIDTH :: s[j] == 0
    requires Pow2(n) <= s[pos] < Pow2(n + 1)
    ensures IsBitLength(Val(s, WIDTH), 32 * pos + n + 1)
  {
    hide Val, Pow2;
    ValHighZero(s, pos + 1, WIDTH);
    ValOpen(s, pos);
    ValBound(s, pos);
    Pow2Add(32 * pos, n);
    Pow2Add(32 * pos, n + 1);
    MulMonotone(Place(pos), Pow2(n), s[pos]);
    MulStep(Place(pos), s[pos], Pow2(n + 1));
  }

  lemma NoBits(s: seq<nat>)
    requires |s| == WIDTH && forall j | 0 <= j < WIDTH :: s[j] == 0
    ensures IsBitLength(Val(s, WIDTH), 0)
  {
    ValZero(s, WIDTH);
  }

  // ---------------------------------------------------------------- division

  lemma LengthFacts(v: nat, r: nat)
    requires IsBitLength(v, r)
    ensures r == 0 <==> v == 0
  {
  }

  lemma ShorterIsLess(n: nat, nb: nat, d: nat, db: nat)
    requires IsBitLength(n, nb) && IsBitLength(d, db) && nb < db
    ensures n < d
  {
    Pow2Monotone(nb, db - 1);
  }

  /** The bits of a number below `t` are zero. */
  ghost predicate ZeroBelow(s: seq<nat>, t: nat) {
    forall m: nat | m < |s| && 32 * m < t :: s[m] % Pow2(if t - 32 * m < 32 then t - 32 * m else 32) == 0
  }

  /** In the middle of a division: the quotient so far takes `n` down to `num`, which is less
      than the divisor moved up by `t`, and has no bit below `t`. */
  ghost predicate Dividing(q: seq<nat>, num: nat, n: nat, d: nat, t: nat)
    requires |q| == WIDTH
  {
    d > 0 && n == Val(q, WIDTH) * d + num && num < d * Pow2(t) && ZeroBelow(q, t)
  }

  lemma Aligned(q: seq<nat>, n: nat, nb: nat, d: nat, db: nat)
    requires |q| == WIDTH && Val(q, WIDTH) == 0 && n < MODULUS
    requires IsBitLength(n, nb) && IsBitLength(d, db) && 0 < db <= nb <= 256
    ensures Dividing(q, n, n, d, nb - db + 1)
    ensures d * Pow2(nb - db) % MODULUS == d * Pow2(nb - db)
  {
    hide Pow2, Val, Place;
    AllZero(q);
    Pow2Add(nb - db, db);
    Pow2Add(db - 1, nb - db + 1);
    MulMonotone(Pow2(nb - db + 1), Pow2(db - 1), d);
    Exchange(Pow2(nb - db + 1), d);
    Exchange(Pow2(nb - db + 1), Pow2(db - 1));
    MulStep(Pow2(nb - db), d, Pow2(db));
    Exchange(Pow2(nb - db), d);
    Pow2Monotone(nb, 256);
    ModulusPow2();
    DivIs(d * Pow2(nb - db), MODULUS, 0);
    assert ZeroBelow(q, nb - db + 1) by { ZerosAreZero(q, nb - db + 1); }
  }

  lemma ZerosAreZero(q: seq<nat>, t: nat)
    requires forall m | 0 <= m < |q| :: q[m] == 0
    ensures ZeroBelow(q, t)
  {
    forall m: nat | m < |q| && 32 * m < t ensures q[m] % Pow2(if t - 32 * m < 32 then t - 32 * m else 32) == 0 {
      DivIs(0, Pow2(if t - 32 * m < 32 then t - 32 * m else 32), 0);
    }
  }

  lemma ModulusPow2()
    ensures Pow2(256) == MODULUS
  {
    ModulusIs();
  }

  /** Dividing evenly by a power of two means dividing evenly by the smaller ones. */
  lemma LessEven(x: nat, a: nat, b: nat)
    requires a <= b && x % Pow2(b) == 0
    ensures x % Pow2(a) == 0
  {
    hide Pow2;
    Pow2Add(a, b - a);
    DivParts(x, Pow2(b));
    Associate(Pow2(a), Pow2(b - a), x / Pow2(b));
    DivExact(Pow2(a), Pow2(b - a) * (x / Pow2(b)));
  }

  lemma ZeroBelowLess(q: seq<nat>, t: nat)
    requires t > 0 && ZeroBelow(q, t)
    ensures ZeroBelow(q, t - 1)
  {
    hide Pow2;
    forall m: nat | m < |q| && 32 * m < t - 1
      ensures q[m] % Pow2(if t - 1 - 32 * m < 32 then t - 1 - 32 * m else 32) == 0
    {
      LessEven(q[m], if t - 1 - 32 * m < 32 then t - 1 - 32 * m else 32, if t - 32 * m < 32 then t - 32 * m else 32);
    }
  }

  /** Setting a bit where all lower bits and the bit itself are zero. */
  lemma SetBit(q: seq<nat>, shift: nat)
    requires |q| == WIDTH && Words(q) && shift < 256 && ZeroBelow(q, shift + 1)
    ensures var w := shift / 32; var x := BitOr(q[w], Pow2(shift % 32));
      && x < LIMB && Val(q[w := x], WIDTH) == Val(q, WIDTH) + Pow2(shift)
      && ZeroBelow(q[w := x], shift)
  {
    hide Val, Place, Pow2, BitOr, ZeroBelow;
    var w, b := shift / 32, shift % 32;
    LimbEven(q, shift);
    Pow2Less(b);
    OrAdds(Pow2(b), q[w], b + 1);
    OrFits(Pow2(b), q[w], b + 1);
    ValPut(q, w, q[w] + Pow2(b), WIDTH);
    Distribute(Place(w), q[w], Pow2(b));
    PlaceShift(w, b);
    SetKeepsZeros(q, shift);
  }

  lemma PlaceShift(w: nat, b: nat)
    ensures Place(w) * Pow2(b) == Pow2(32 * w + b)
  {
    Pow2Add(32 * w, b);
  }

  lemma Pow2Less(b: nat)
    ensures Pow2(b) < Pow2(b + 1)
  {
  }

  lemma LimbEven(q: seq<nat>, shift: nat)
    requires |q| == WIDTH && shift < 256 && ZeroBelow(q, shift + 1)
    ensures q[shift / 32] % Pow2(shift % 32 + 1) == 0
  {
    hide Pow2;
    var w := shift / 32;
    assert 32 * w < shift + 1 && shift + 1 - 32 * w == shift % 32 + 1;
  }

  lemma SetKeepsZeros(q: seq<nat>, shift: nat)
    requires |q| == WIDTH && shift < 256 && ZeroBelow(q, shift + 1)
    ensures ZeroBelow(q[shift / 32 := q[shift / 32] + Pow2(shift % 32)], shift)
  {
    hide Pow2;
    var w, b := shift / 32, shift % 32;
    var q' := q[w := q[w] + Pow2(b)];
    LimbEven(q, shift);
    ZeroBelowLess(q, shift + 1);
    forall m: nat | m < |q'| && 32 * m < shift
      ensures q'[m] % Pow2(if shift - 32 * m < 32 then shift - 32 * m else 32) == 0
    {
      if m == w {
        LessEven(q[w], b, b + 1);
        DivParts(q[w], Pow2(b));
        Distribute(Pow2(b), q[w] / Pow2(b), 1);
        DivExact(Pow2(b), q[w] / Pow2(b) + 1);
      }
    }
  }

  lemma DivideStep(q: seq<nat>, num: nat, n: nat, d: nat, shift: nat)
    requires |q| == WIDTH && Words(q) && shift < 256 && n < MODULUS && Dividing(q, num, n, d, shift + 1)
    ensures var w := shift / 32; var x := BitOr(q[w], Pow2(shift % 32)); var part := d * Pow2(shift);
      && x < LIMB
      && (num >= part ==> (num - part) % MODULUS == num - part && Dividing(q[w := x], num - part, n, d, shift))
      && (num < part ==> Dividing(q, num, n, d, shift))
  {
    hide Val, Place, Pow2, BitOr, ZeroBelow;
    var part := d * Pow2(shift);
    SetBit(q, shift);
    ZeroBelowLess(q, shift + 1);
    TwoParts(d, shift);
    if num >= part {
      QuotientBit(Val(q, WIDTH), Pow2(shift), d, num, n);
      DivIs(num - part, MODULUS, 0);
    }
  }

  lemma TwoParts(d: nat, shift: nat)
    ensures d * Pow2(shift + 1) == 2 * (d * Pow2(shift))
  {
  }

  lemma QuotientBit(q: nat, p: nat, d: nat, num: nat, n: nat)
    requires n == q * d + num && num >= d * p
    ensures n == (q + p) * d + (num - d * p) && num <= n
  {
  }

  lemma HalfShift(d: nat, shift: nat)
    ensures shift > 0 ==> Quotient(d * Pow2(shift), Pow2(1)) == d * Pow2(shift - 1)
  {
    if shift > 0 {
      TwoParts(d, shift - 1);
    }
  }

  lemma DivideEnd(q: seq<nat>, num: nat, n: nat, d: nat)
    requires |q| == WIDTH && Dividing(q, num, n, d, 0)
    ensures d > 0
    ensures Val(q, WIDTH) == Quotient(n, d)
  {
    hide Val;
    Exchange(Val(q, WIDTH), d);
    DivIs(n, d, Val(q, WIDTH));
  }
}
