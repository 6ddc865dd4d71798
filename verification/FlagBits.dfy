/**
 Flags packed eight to a byte, lowest bit first.
 */
module FlagBits {
  function BitMask(k: nat): bv8
    requires k < 8
  {
    match k
    case 0 => 1
    case 1 => 2
    case 2 => 4
    case 3 => 8
    case 4 => 16
    case 5 => 32
    case 6 => 64
    case 7 => 128
  }

  predicate HasBit(b: bv8, k: nat)
    requires k < 8
  {
    b & BitMask(k) != 0
  }

  /** Sets or clears one bit. */
  function WithBit(b: bv8, k: nat, value: bool): bv8
    requires k < 8
  {
    if value then b | BitMask(k) else b & !BitMask(k)
  }

  /** The other bits stay. */
  lemma BitPut(b: bv8, k: nat, value: bool, j: nat)
    requires k < 8 && j < 8
    ensures HasBit(WithBit(b, k, value), j) == if j == k then value else HasBit(b, j)
  {
    if value {
      BitOr(b, k, j);
    } else {
      BitAndNot(b, k, j);
    }
  }

  lemma BitOr(b: bv8, k: nat, j: nat)
    requires k < 8 && j < 8
    ensures HasBit(b | BitMask(k), j) <==> j == k || HasBit(b, j)
  {
  }

  lemma BitAndNot(b: bv8, k: nat, j: nat)
    requires k < 8 && j < 8
    ensures HasBit(b & !BitMask(k), j) <==> j != k && HasBit(b, j)
  {
  }

  lemma AllBits(k: nat)
    requires k < 8
    ensures HasBit(0xFF, k) && !HasBit(0, k)
  {
  }

  /** Flag `s` of a sequence of bytes. */
  predicate FlagOf(bytes: seq<bv8>, s: nat)
    requires s < 8 * |bytes|
  {
    HasBit(bytes[s / 8], s % 8)
  }

  function FlagsOf(bytes: seq<bv8>): (r: seq<bool>)
    ensures |r| == 8 * |bytes|
  {
    seq(8 * |bytes|, s requires 0 <= s < 8 * |bytes| => FlagOf(bytes, s))
  }

  lemma FlagPut(bytes: seq<bv8>, s: nat, value: bool, t: nat)
    requires s < 8 * |bytes| && t < 8 * |bytes|
    ensures FlagOf(bytes[s / 8 := WithBit(bytes[s / 8], s % 8, value)], t) == if t == s then value else FlagOf(bytes, t)
  {
    hide HasBit, WithBit;
    if t / 8 == s / 8 {
      BitPut(bytes[s / 8], s % 8, value, t % 8);
    }
  }

  /** What one byte write does to all the flags. */
  lemma FlagsPut(bytes: seq<bv8>, s: nat, value: bool)
    requires s < 8 * |bytes|
    ensures FlagsOf(bytes[s / 8 := WithBit(bytes[s / 8], s % 8, value)]) == FlagsOf(bytes)[s := value]
  {
    hide WithBit, FlagOf;
    var after, expected := FlagsOf(bytes[s / 8 := WithBit(bytes[s / 8], s % 8, value)]), FlagsOf(bytes)[s := value];
    forall t: nat | t < 8 * |bytes| ensures after[t] == expected[t] {
      FlagPut(bytes, s, value, t);
    }
  }
}
