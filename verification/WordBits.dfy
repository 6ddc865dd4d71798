/**
 Single bits of 64-bit words, and pairs of words that hold a number from 0 to 3 at each of
 their 64 bit positions (the layout of src/bloom.cpp's rolling filter).
 */
module WordBits {
  predicate Has(p: bv64, b: bv64)
    requires b < 64
  {
    (p >> b) & 1 == 1
  }

  function Shifted(g: bv64, b: bv64): bv64
    requires b < 64
  {
    g << b
  }

  function Inverted(p: bv64): bv64 {
    !p
  }

  function Differing(p: bv64, q: bv64): bv64 {
    p ^ q
  }

  function Either(p: bv64, q: bv64): bv64 {
    p | q
  }

  function Masked(p: bv64, mask: bv64): bv64 {
    p & mask
  }

  lemma HasInverted(p: bv64, c: bv64)
    requires c < 64
    ensures Has(Inverted(p), c) <==> !Has(p, c)
  {
  }

  lemma HasEither(p: bv64, q: bv64, c: bv64)
    requires c < 64
    ensures Has(Either(p, q), c) <==> Has(p, c) || Has(q, c)
  {
    hide Has, Either, Masked;
    if c < 32 {
      HasEitherLow(p, q, c);
    } else {
      HasEitherHigh(p, q, c);
    }
  }

  lemma HasEitherLow(p: bv64, q: bv64, c: bv64)
    requires c < 32
    ensures Has(Either(p, q), c) <==> Has(p, c) || Has(q, c)
  {
  }

  lemma HasEitherHigh(p: bv64, q: bv64, c: bv64)
    requires 32 <= c < 64
    ensures Has(Either(p, q), c) <==> Has(p, c) || Has(q, c)
  {
  }

  lemma HasMasked(p: bv64, mask: bv64, c: bv64)
    requires c < 64
    ensures Has(Masked(p, mask), c) <==> Has(p, c) && Has(mask, c)
  {
    hide Has, Either, Masked;
    if c < 32 {
      HasMaskedLow(p, mask, c);
    } else {
      HasMaskedHigh(p, mask, c);
    }
  }

  lemma HasMaskedLow(p: bv64, mask: bv64, c: bv64)
    requires c < 32
    ensures Has(Masked(p, mask), c) <==> Has(p, c) && Has(mask, c)
  {
  }

  lemma HasMaskedHigh(p: bv64, mask: bv64, c: bv64)
    requires 32 <= c < 64
    ensures Has(Masked(p, mask), c) <==> Has(p, c) && Has(mask, c)
  {
  }

  lemma DifferingIs(p: bv64, q: bv64)
    ensures Differing(p, q) == Either(Masked(p, Inverted(q)), Masked(Inverted(p), q))
  {
  }

  lemma HasDiffering(p: bv64, q: bv64, c: bv64)
    requires c < 64
    ensures Has(Differing(p, q), c) <==> Has(p, c) != Has(q, c)
  {
    hide Has, Inverted, Either, Masked, Differing;
    DifferingIs(p, q);
    HasInverted(p, c);
    HasInverted(q, c);
    HasMasked(p, Inverted(q), c);
    HasMasked(Inverted(p), q, c);
    HasEither(Masked(p, Inverted(q)), Masked(Inverted(p), q), c);
  }

  /** `p` with the bits of `m` cleared and those of `q` set. */
  function Replaced(p: bv64, m: bv64, q: bv64): bv64 {
    Either(Masked(p, Inverted(m)), q)
  }

  lemma HasShifted(g: bv64, b: bv64, c: bv64)
    requires b < 64 && c < 64 && (g == 0 || g == 1)
    ensures Has(Shifted(g, b), c) <==> g == 1 && b == c
  {
    if g == 1 {
      HasOne(b, c);
    } else {
      ShiftedZero(b);
      HasZero(c);
    }
  }

  lemma ShiftedZero(b: bv64)
    requires b < 64
    ensures Shifted(0, b) == 0
  {
  }

  lemma HasOne(b: bv64, c: bv64)
    requires b < 64 && c < 64
    ensures Has(Shifted(1, b), c) <==> b == c
  {
  }

  lemma HasZero(c: bv64)
    requires c < 64
    ensures !Has(0, c)
  {
  }

  lemma HasReplaced(p: bv64, m: bv64, q: bv64, c: bv64)
    requires c < 64
    ensures Has(Replaced(p, m, q), c) <==> (Has(p, c) && !Has(m, c)) || Has(q, c)
  {
    hide Has, Inverted, Either, Masked;
    HasInverted(m, c);
    HasMasked(p, Inverted(m), c);
    HasEither(Masked(p, Inverted(m)), q, c);
  }

  /** One bit of a word is set to `g`. */
  function Put(p: bv64, b: bv64, g: bv64): bv64
    requires b < 64
  {
    Replaced(p, Shifted(1, b), Shifted(g, b))
  }

  lemma HasPut(p: bv64, b: bv64, g: bv64, c: bv64)
    requires b < 64 && c < 64 && (g == 0 || g == 1)
    ensures Has(Put(p, b, g), c) <==> if c == b then g == 1 else Has(p, c)
  {
    hide Has, Shifted, Replaced;
    HasReplaced(p, Shifted(1, b), Shifted(g, b), c);
    HasShifted(1, b, c);
    HasShifted(g, b, c);
  }

  /** All bits equal to `g`. */
  function Spread(g: bv64): bv64 {
    0 - g
  }

  /** Zero where the pair of words holds the number whose two bits are spread over `m1` and `m2`. */
  function WipeMask(p1: bv64, p2: bv64, m1: bv64, m2: bv64): bv64 {
    Either(Differing(p1, m1), Differing(p2, m2))
  }

  lemma HasSpread(g: bv64, c: bv64)
    requires c < 64 && (g == 0 || g == 1)
    ensures Has(Spread(g), c) <==> g == 1
  {
  }

  lemma HasWiped(p: bv64, p1: bv64, p2: bv64, g1: bv64, g2: bv64, c: bv64)
    requires c < 64 && (g1 == 0 || g1 == 1) && (g2 == 0 || g2 == 1)
    ensures Has(Masked(p, WipeMask(p1, p2, Spread(g1), Spread(g2))), c)
      <==> Has(p, c) && !(Has(p1, c) == (g1 == 1) && Has(p2, c) == (g2 == 1))
  {
    hide Has, Spread, Differing, Either, Masked;
    HasSpread(g1, c);
    HasSpread(g2, c);
    HasDiffering(p1, Spread(g1), c);
    HasDiffering(p2, Spread(g2), c);
    HasEither(Differing(p1, Spread(g1)), Differing(p2, Spread(g2)), c);
    HasMasked(p, WipeMask(p1, p2, Spread(g1), Spread(g2)), c);
  }

  // ---------------------------------------------------------------- numbers in pairs of words

  /** The low and high bit of a generation number. */
  function Low(g: nat): (r: bv64)
    ensures r == 0 || r == 1
  {
    if g % 2 == 1 then 1 else 0
  }

  function High(g: nat): (r: bv64)
    ensures r == 0 || r == 1
  {
    if g / 2 == 1 then 1 else 0
  }

  function Tag(p1: bv64, p2: bv64, b: bv64): (r: nat)
    requires b < 64
    ensures r <= 3
  {
    (if Has(p1, b) then 1 else 0) + if Has(p2, b) then 2 else 0
  }

  lemma TagPut(p1: bv64, p2: bv64, b: bv64, g: nat, c: bv64)
    requires b < 64 && c < 64 && 1 <= g <= 3
    ensures Tag(Put(p1, b, Low(g)), Put(p2, b, High(g)), c) == if c == b then g else Tag(p1, p2, c)
  {
    hide Has, Put;
    HasPut(p1, b, Low(g), c);
    HasPut(p2, b, High(g), c);
  }

  lemma TagWiped(p1: bv64, p2: bv64, g: nat, c: bv64)
    requires c < 64 && 1 <= g <= 3
    ensures var mask := WipeMask(p1, p2, Spread(Low(g)), Spread(High(g)));
      Tag(Masked(p1, mask), Masked(p2, mask), c) == if Tag(p1, p2, c) == g then 0 else Tag(p1, p2, c)
  {
    hide Has, WipeMask, Masked, Spread;
    HasWiped(p1, p1, p2, Low(g), High(g), c);
    HasWiped(p2, p1, p2, Low(g), High(g), c);
  }

  lemma TagEither(p1: bv64, p2: bv64, c: bv64)
    requires c < 64
    ensures Has(Either(p1, p2), c) <==> Tag(p1, p2, c) != 0
  {
    hide Has, Either;
    HasEither(p1, p2, c);
  }

  lemma TagZero(c: bv64)
    requires c < 64
    ensures Tag(0, 0, c) == 0
  {
    HasZero(c);
  }
}
