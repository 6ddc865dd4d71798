/**
 Compact targets and block work computed on 256-bit numbers (src/arith_uint256.cpp,
 src/chain.cpp), against their meaning on integers.
 */
module Targets {
  import opened ArithUint256
  import opened Arithmetic
  import Compact
  import opened Helpers
  import opened Limbs

  // ---------------------------------------------------------------- bytes and bits

  lemma {:induction false} BytesAreBits(k: nat)
    ensures Compact.Pow256(k) == Pow2(8 * k)
  {
    if k > 0 {
      BytesAreBits(k - 1);
      Pow2Add(8, 8 * (k - 1));
      assert Pow2(8) == 256;
    }
  }

  /** `(bits() + 7) / 8` is the number of bytes. */
  lemma BytesFromBits(v: nat, r: nat)
    requires IsBitLength(v, r)
    ensures (r + 7) / 8 == Compact.ByteLength(v)
  {
    hide Pow2;
    if r > 0 {
      var n := (r + 7) / 8;
      BytesAreBits(n);
      BytesAreBits(n - 1);
      Pow2Monotone(r, 8 * n);
      Pow2Monotone(8 * (n - 1), r - 1);
      Compact.ByteLengthIs(v, n);
    }
  }

  lemma PointIs(size: nat)
    requires size <= 3
    ensures Compact.Point(size) == Pow2(8 * (3 - size))
  {
    BytesAreBits(3 - size);
    Compact.SmallPowers();
  }

  // ---------------------------------------------------------------- SetCompact

  method SetCompact(n: BaseUint, nCompact: nat) returns (fNegative: bool, fOverflow: bool)
    requires n.Valid() && nCompact < 0x1_0000_0000
    modifies n.pn
    ensures n.Valid() && Compact.Decoded(n.Value(), fNegative, fOverflow) == Compact.SetCompact(nCompact)
  {
    hide Val, Place, Pow2, Compact.Pow256, Compact.Point;
    var nSize := nCompact / Compact.EXPONENT;
    var nWord := nCompact % Compact.SIGN;
    if nSize <= 3 {
      PointIs(nSize);
      nWord := Quotient(nWord, Pow2(8 * (3 - nSize)));
      assert nWord == Compact.Word(nCompact);
      n.Assign(nWord);
    } else {
      Compact.PointOne();
      assert nWord == Compact.Word(nCompact);
      n.Assign(nWord);
      BytesAreBits(nSize - 3);
      Exchange(nWord, Pow2(8 * (nSize - 3)));
      n.ShiftLeft(8 * (nSize - 3));
    }
    fNegative := nWord != 0 && nCompact / Compact.SIGN % 2 == 1;
    fOverflow := nWord != 0 && (nSize > 34 || (nWord > 0xff && nSize > 33) || (nWord > 0xffff && nSize > 32));
  }

  // ---------------------------------------------------------------- GetCompact

  /** The compact form with its sign bit. */
  function Signed(compact: nat, fNegative: bool): nat {
    if fNegative && compact % Compact.EXPONENT != 0 then compact + Compact.SIGN else compact
  }

  method GetCompact(n: BaseUint, fNegative: bool) returns (nCompact: nat)
    requires n.Valid()
    ensures n.Value() < MODULUS && nCompact == Signed(Compact.GetCompact(n.Value()), fNegative)
  {
    hide Val, Place, Pow2, IsBitLength, Compact.Pow256, Compact.Point, Compact.ByteLength;
    ghost var v := n.Value();
    ModulusIs();
    ValBound(n.pn[..], WIDTH);
    var bits := n.Bits();
    BytesFromBits(v, bits);
    var nSize := (bits + 7) / 8;
    nCompact := LeadingBytes(n, nSize);
    nCompact := Assemble(nCompact, nSize, v, fNegative);
  }

  /** The mantissa, made to leave the sign bit clear, with the size and the sign. */
  method Assemble(leading: nat, size: nat, ghost v: nat, fNegative: bool) returns (nCompact: nat)
    requires v < MODULUS && leading == Compact.Leading(v) && size == Compact.ByteLength(v)
    ensures nCompact == Signed(Compact.GetCompact(v), fNegative)
  {
    hide Compact.ByteLength, Compact.Leading;
    Compact.SizeFits(v);
    Parts24(v);
    var nSize := size;
    nCompact := leading;
    if nCompact / Compact.SIGN % 2 == 1 {
      nCompact := nCompact / 256;
      nSize := nSize + 1;
    }
    assert nCompact == Compact.Mantissa(v) < Compact.SIGN && nSize == Compact.Exponent(v) < 256;
    nCompact := nCompact + nSize * Compact.EXPONENT;
    if fNegative && nCompact % Compact.SIGN != 0 {
      nCompact := nCompact + Compact.SIGN;
    }
  }

  lemma Parts24(v: nat)
    requires v < MODULUS
    ensures Compact.GetCompact(v) == Compact.Mantissa(v) + Compact.Exponent(v) * Compact.EXPONENT
    ensures Compact.GetCompact(v) % Compact.SIGN == Compact.GetCompact(v) % Compact.EXPONENT == Compact.Mantissa(v)
  {
    hide Compact.Mantissa, Compact.Exponent;
    Compact.Fields(Compact.Mantissa(v), Compact.Exponent(v));
  }

  /** The leading three bytes, shifted up from the low word or down from all of them. */
  method LeadingBytes(n: BaseUint, nSize: nat) returns (word: nat)
    requires n.Valid() && nSize == Compact.ByteLength(n.Value())
    ensures word == Compact.Leading(n.Value())
  {
    hide Val, Place, Pow2, Compact.Pow256, Compact.Point, Compact.ByteLength;
    ghost var v := n.Value();
    Compact.LeadingIs(v);
    if nSize <= 3 {
      PointIs(nSize);
      LowWord(n.pn[..], v);
      Compact.SmallPowers();
      Compact.Pow256Order(nSize, 3);
      word := n.GetLow64() * Pow2(8 * (3 - nSize));
    } else {
      BytesAreBits(nSize - 3);
      var bn := new BaseUint.Copy(n);
      bn.ShiftRight(8 * (nSize - 3));
      LowWord(bn.pn[..], bn.Value());
      word := bn.GetLow64();
    }
  }

  /** A number below 2^32 is its lowest limb. */
  lemma LowWord(s: seq<nat>, v: nat)
    requires |s| == WIDTH && Words(s) && v == Val(s, WIDTH) && v < LIMB
    ensures s[0] + LIMB * s[1] == v
  {
    hide Val, Place;
    ValSplit(s, 1, WIDTH - 1);
    PlaceNext(0);
    ValOpen(s, 0);
    ValStart(s, s, s);
    if Val(s[1..], WIDTH - 1) > 0 {
      MulMonotone(LIMB, 1, Val(s[1..], WIDTH - 1));
    }
    NoLimbs(s[1..], WIDTH - 1);
    assert s[1..][0] == s[1];
  }

  // ---------------------------------------------------------------- GetBlockProof

  /** The expected number of hashes for a target: 2^256 over one more than the target. */
  function BlockProof(bits: nat): nat
    requires bits < 0x1_0000_0000
  {
    var d := Compact.SetCompact(bits);
    if d.negative || d.overflow || d.target == 0 then 0 else Quotient(MODULUS, d.target + 1)
  }

  method GetBlockProof(bits: nat) returns (proof: BaseUint)
    requires bits < 0x1_0000_0000
    ensures proof.Valid() && fresh(proof) && proof.Value() == BlockProof(bits)
  {
    hide Val, Place, Quotient, Compact.SetCompact;
    var bnTarget := new BaseUint(0);
    var fNegative, fOverflow := SetCompact(bnTarget, bits);
    ghost var t := bnTarget.Value();
    var zero := new BaseUint(0);
    var order := bnTarget.CompareTo(zero);
    if fNegative || fOverflow || order == 0 {
      return zero;
    }
    NeverAllOnes(bits);
    proof := Work(bnTarget);
  }

  /** `(~t / (t + 1)) + 1`. */
  method Work(bnTarget: BaseUint) returns (proof: BaseUint)
    requires bnTarget.Valid() && 0 < bnTarget.Value() && bnTarget.Value() + 1 < MODULUS
    ensures proof.Valid() && fresh(proof) && proof.Value() == Quotient(MODULUS, bnTarget.Value() + 1)
  {
    hide Val, Place, Quotient;
    ghost var t := bnTarget.Value();
    WorkIs(t);
    var divisor := new BaseUint.Copy(bnTarget);
    var one := new BaseUint(1);
    divisor.Add(one);
    proof := bnTarget.Complement();
    var ok := proof.Divide(divisor);
    proof.Add(one);
  }

  /** A target is never the largest number: its low byte is zero or it is small. */
  lemma NeverAllOnes(bits: nat)
    requires bits < 0x1_0000_0000 && !Compact.SetCompact(bits).overflow
    ensures Compact.SetCompact(bits).target + 1 < MODULUS
  {
    hide Compact.SetCompact;
    Compact.OverflowIs(bits);
    if Compact.Size(bits) > 3 {
      var k := Compact.Size(bits) - 3;
      Compact.Pow256Add(1, k - 1);
      Compact.SmallPowers();
      Associate(256, Compact.Pow256(k - 1), Compact.Word(bits));
      DivExact(256, Compact.Pow256(k - 1) * Compact.Word(bits));
    }
  }

  /** `~t / (t + 1) + 1` is 2^256 over `t + 1`. */
  lemma WorkIs(t: nat)
    requires 0 < t && t + 1 < MODULUS
    ensures (t + 1) % MODULUS == t + 1
    ensures (Quotient(MODULUS - 1 - t, t + 1) + 1) % MODULUS == Quotient(MODULUS, t + 1)
  {
    var d := t + 1;
    var q := Quotient(MODULUS - d, d);
    DivParts(MODULUS - d, d);
    Distribute(d, q, 1);
    DivIs(MODULUS, d, q + 1);
    MulMonotone(q + 1, 2, d);
    Exchange(q + 1, d);
    DivIs(q + 1, MODULUS, 0);
  }
}
