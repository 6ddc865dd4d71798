/**
 Difficulty rules (src/pow.cpp): which target the next block must meet, given the chain below
 it, and what that means over a whole chain.
 */
module Pow {
  import opened Arithmetic
  import opened Chain
  import opened Compact

  /** From this height on the minimum-difficulty exception is gone. */
  const NO_MIN_DIFFICULTY_HEIGHT: nat := 60500
  /** Above this height retargeting looks past minimum-difficulty blocks. */
  const RETARGET_FIX_HEIGHT: nat := 51840

  datatype Params = Params(powLimit: nat, spacing: nat, timespan: nat, allowMinDifficulty: bool, noRetargeting: bool)
  {
    predicate Valid() {
      0 < spacing <= timespan && powLimit < TWO_256
    }

    function Interval(): (n: nat)
      requires Valid()
      ensures n >= 1
    {
      DivBelow(timespan, spacing, 1);
      timespan / spacing
    }

    /** A height at which the target changes. */
    predicate Boundary(height: nat): (r: bool)
      requires Valid()
      ensures height == 0 ==> r
    {
      height % Interval() == 0
    }

    /** The boundary at or below a height. */
    function StartOf(height: nat): (s: nat)
      requires Valid()
      ensures s <= height && (Boundary(height) <==> s == height)
      ensures height > 0 && !Boundary(height) ==> s == StartOf(height - 1)
    {
      RemainderFits(height, Interval());
      height - height % Interval()
    }

    /** The compact form of the proof-of-work limit. */
    function Limit(): (bits: nat)
      requires Valid()
      ensures bits < 0x1_0000_0000
    {
      GetCompact(powLimit)
    }
  }

  // ---------------------------------------------------------------- the rules

  /** The bits of the last block at or below `b` that is not a minimum-difficulty block, or of
      the first block of its interval. */
  ghost function LastRegular(p: Params, b: BlockIndex): (bits: nat)
    requires p.Valid() && b.Linked()
    ensures bits < 0x1_0000_0000
    decreases b.nHeight
  {
    if b.pprev != null && !p.Boundary(b.nHeight) && b.nBits == p.Limit() then LastRegular(p, b.pprev) else b.nBits
  }

  function Clamp(x: int, lo: int, hi: int): int {
    if x < lo then lo else if x > hi then hi else x
  }

  /** A target scaled by the time an interval took, within a factor of four, up to the limit. */
  function Scaled(p: Params, bits: nat, span: int): (t: nat)
    requires p.Valid() && bits < 0x1_0000_0000
    ensures t <= p.powLimit
  {
    var clamped := Clamp(span, p.timespan / 4, p.timespan * 4);
    var target := Stretched(SetCompact(bits).target, clamped, p.timespan);
    if target > p.powLimit then p.powLimit else target
  }

  function Stretched(target: nat, span: nat, timespan: nat): nat
    requires timespan > 0
  {
    target * span / timespan
  }

  ghost function Retarget(p: Params, last: BlockIndex, firstTime: int): (bits: nat)
    requires p.Valid() && last.Linked()
    ensures bits < 0x1_0000_0000
  {
    if p.noRetargeting then last.nBits else
      var from := if last.nHeight > RETARGET_FIX_HEIGHT then LastRegular(p, last) else last.nBits;
      GetCompact(Scaled(p, from, last.nTime - firstTime))
  }

  /** The first block of the interval that ends with `last`. */
  ghost function IntervalStart(p: Params, last: BlockIndex): BlockIndex
    requires p.Valid() && last.Linked() && p.Boundary(last.nHeight + 1)
  {
    WholeInterval(last.nHeight + 1, p.Interval());
    last.Ancestor(last.nHeight - (p.Interval() - 1))
  }

  lemma WholeInterval(n: nat, g: nat)
    requires n > 0 && g >= 1 && n % g == 0
    ensures n >= g
  {
  }

  /** What the bits of a block on top of `last` must be. */
  ghost function NextWork(p: Params, last: BlockIndex, time: int): (bits: nat)
    requires p.Valid() && last.Linked()
    ensures bits < 0x1_0000_0000
  {
    if !p.Boundary(last.nHeight + 1) then
      if last.nHeight < NO_MIN_DIFFICULTY_HEIGHT then
        if p.allowMinDifficulty then
          if time > last.nTime + p.spacing * 2 then p.Limit() else LastRegular(p, last)
        else last.nBits
      else LastRegular(p, last)
    else Retarget(p, last, IntervalStart(p, last).nTime)
  }

  // ---------------------------------------------------------------- the code

  /** The loop that steps back over minimum-difficulty blocks. */
  method StepBack(p: Params, last: BlockIndex) returns (bits: nat)
    requires p.Valid() && last.Linked()
    ensures bits == LastRegular(p, last)
  {
    hide Params.Limit;
    var pindex: BlockIndex := last;
    while pindex.pprev != null && !p.Boundary(pindex.nHeight) && pindex.nBits == p.Limit()
      invariant pindex.Linked() && LastRegular(p, pindex) == LastRegular(p, last)
      decreases pindex.nHeight
    {
      pindex := pindex.pprev;
    }
    return pindex.nBits;
  }

  method GetNextWorkRequired(p: Params, last: BlockIndex, time: int) returns (bits: nat)
    requires p.Valid() && last.Linked() && last.Skips()
    ensures bits == NextWork(p, last, time)
  {
    if !p.Boundary(last.nHeight + 1) {
      var nProofOfWorkLimit := GetCompact(p.powLimit);
      if last.nHeight < NO_MIN_DIFFICULTY_HEIGHT {
        if p.allowMinDifficulty {
          if time > last.nTime + p.spacing * 2 {
            return nProofOfWorkLimit;
          } else {
            bits := StepBack(p, last);
            return;
          }
        }
        return last.nBits;
      } else {
        bits := StepBack(p, last);
        return;
      }
    }
    WholeInterval(last.nHeight + 1, p.Interval());
    var nHeightFirst := last.nHeight - (p.Interval() - 1);
    assert nHeightFirst >= 0;
    var first := last.GetAncestor(nHeightFirst);
    assert first != null;
    bits := CalculateNextWorkRequired(p, last, first.nTime);
  }

  method CalculateNextWorkRequired(p: Params, last: BlockIndex, nFirstBlockTime: int) returns (bits: nat)
    requires p.Valid() && last.Linked()
    ensures bits == Retarget(p, last, nFirstBlockTime)
  {
    hide Stretched, SetCompact, GetCompact, LastRegular;
    if p.noRetargeting {
      return last.nBits;
    }
    var nActualTimespan := last.nTime - nFirstBlockTime;
    if nActualTimespan < p.timespan / 4 {
      nActualTimespan := p.timespan / 4;
    }
    if nActualTimespan > p.timespan * 4 {
      nActualTimespan := p.timespan * 4;
    }
    var from := last.nBits;
    if last.nHeight > RETARGET_FIX_HEIGHT {
      from := StepBack(p, last);
    }
    var bnNew := Stretched(SetCompact(from).target, nActualTimespan, p.timespan);
    if bnNew > p.powLimit {
      bnNew := p.powLimit;
    }
    return GetCompact(bnNew);
  }

  /** The range check and the check of the hash itself. */
  method CheckProofOfWork(p: Params, hash: nat, bits: nat) returns (ok: bool)
    requires p.Valid() && bits < 0x1_0000_0000
    ensures ok <==> InRange(p, bits) && SetCompact(bits).target > 0 && hash <= SetCompact(bits).target
  {
    var d := SetCompact(bits);
    if d.negative || d.target == 0 || d.overflow || d.target > p.powLimit {
      return false;
    }
    if hash > d.target {
      return false;
    }
    return true;
  }

  // ---------------------------------------------------------------- whole chains

  /** Decodes without a flag to at most the limit. */
  predicate InRange(p: Params, bits: nat)
    requires bits < 0x1_0000_0000
  {
    var d := SetCompact(bits);
    !d.negative && !d.overflow && d.target <= p.powLimit
  }

  /** Every block of the line has the bits the rules gave for it. */
  ghost predicate Obeys(p: Params, b: BlockIndex)
    requires p.Valid() && b.Linked()
    decreases b.nHeight
  {
    b.pprev != null ==> b.nBits == NextWork(p, b.pprev, b.nTime) && Obeys(p, b.pprev)
  }

  /** The first block of the interval `b` is in. */
  ghost function First(p: Params, b: BlockIndex): (r: BlockIndex)
    requires p.Valid() && b.Linked()
    ensures r.nHeight == p.StartOf(b.nHeight)
  {
    b.Ancestor(p.StartOf(b.nHeight))
  }

  lemma RemainderFits(n: nat, g: nat)
    requires g >= 1
    ensures n % g <= n && (n > 0 && n % g != 0 ==> (n - 1) - (n - 1) % g == n - n % g)
  {
    DivParts(n, g);
    if n % g != 0 {
      DivIs(n - 1, g, n / g);
    }
  }

  /** Within an interval there are only the first block's bits and the limit, and stepping back
      always finds the first block's. */
  lemma {:induction false} IntervalBits(p: Params, b: BlockIndex)
    requires p.Valid() && b.Linked() && Obeys(p, b)
    ensures b.nBits == First(p, b).nBits || b.nBits == p.Limit()
    ensures LastRegular(p, b) == First(p, b).nBits
    decreases b.nHeight
  {
    hide Params.Boundary, Params.StartOf, Params.Limit, Retarget;
    if !p.Boundary(b.nHeight) {
      IntervalBits(p, b.pprev);
      assert First(p, b.pprev) == First(p, b);
    }
  }

  lemma {:induction false} OffStart(p: Params, b: BlockIndex)
    requires p.Valid() && b.Linked() && Obeys(p, b) && !p.Boundary(b.nHeight)
    ensures b.pprev != null
    ensures b.nBits == if p.allowMinDifficulty && b.nHeight <= 60500 && b.nTime - b.pprev.nTime > 2 * p.spacing
                       then p.Limit() else First(p, b).nBits
    decreases b.nHeight
  {
    hide Params.Boundary, Params.StartOf, Params.Limit, Retarget, LastRegular;
    IntervalBits(p, b.pprev);
    assert First(p, b.pprev) == First(p, b);
    if !p.allowMinDifficulty && b.nHeight <= 60500 && !p.Boundary(b.pprev.nHeight) {
      OffStart(p, b.pprev);
    }
  }

  /** Off the interval boundaries a block has the limit for bits if it may and comes more than two spacings
      after its parent, below the height switch, and otherwise those of the first block of its interval. */
  lemma OffBoundary(p: Params, b: BlockIndex)
    requires p.Valid() && b.Linked() && Obeys(p, b)
    requires p.timespan / p.spacing >= 1 && b.nHeight % (p.timespan / p.spacing) != 0
    ensures b.pprev != null && b.nHeight % (p.timespan / p.spacing) <= b.nHeight
    ensures b.nBits == if p.allowMinDifficulty && b.nHeight <= 60500 && b.nTime - b.pprev.nTime > 2 * p.spacing
                       then GetCompact(p.powLimit) else b.Ancestor(b.nHeight - b.nHeight % (p.timespan / p.spacing)).nBits
  {
    hide Obeys, GetCompact;
    assert !p.Boundary(b.nHeight);
    OffStart(p, b);
    RemainderFits(b.nHeight, p.timespan / p.spacing);
  }

  /** On a boundary it is the retarget of its parent, from the time of the block that comes one less than an
      interval before the parent. */
  lemma OnBoundary(p: Params, b: BlockIndex)
    requires p.Valid() && b.Linked() && Obeys(p, b) && b.pprev != null
    requires p.timespan / p.spacing >= 1 && b.nHeight % (p.timespan / p.spacing) == 0
    ensures b.nHeight >= p.timespan / p.spacing
    ensures b.nBits == Retarget(p, b.pprev, b.Ancestor(b.nHeight - p.timespan / p.spacing).nTime)
  {
    hide Retarget;
    WholeInterval(b.nHeight, p.timespan / p.spacing);
    assert p.Interval() == p.timespan / p.spacing && p.Boundary(b.nHeight);
  }

  /** Off the interval boundaries, above the height switch, there is no other value at all. */
  lemma LateBlocksAgree(p: Params, b: BlockIndex)
    requires p.Valid() && b.Linked() && Obeys(p, b)
    requires !p.Boundary(b.nHeight) && b.nHeight - 1 >= NO_MIN_DIFFICULTY_HEIGHT
    ensures b.nBits == First(p, b).nBits
  {
    hide Params.Boundary, Params.StartOf, Params.Limit, Retarget, LastRegular;
    IntervalBits(p, b.pprev);
  }

  /** A retarget above the other switch starts from the interval's first block, whatever
      minimum-difficulty blocks came in between. */
  lemma RetargetFromFirst(p: Params, last: BlockIndex, time: int)
    requires p.Valid() && last.Linked() && Obeys(p, last)
    requires !p.noRetargeting && last.nHeight > RETARGET_FIX_HEIGHT && p.Boundary(last.nHeight + 1)
    ensures First(p, last) == IntervalStart(p, last)
    ensures NextWork(p, last, time) == GetCompact(Scaled(p, First(p, last).nBits, last.nTime - First(p, last).nTime))
  {
    hide Scaled, GetCompact;
    IntervalBits(p, last);
    LastOfInterval(last.nHeight, p.Interval());
  }

  lemma LastOfInterval(n: nat, g: nat)
    requires g >= 1 && (n + 1) % g == 0
    ensures n % g == g - 1
  {
    DivParts(n + 1, g);
    var q := (n + 1) / g;
    WholeInterval(n + 1, g);
    DivBelow(n + 1, g, 1);
    assert g * (q - 1) == g * q - g;
    DivIs(n, g, q - 1);
  }

  /** The new target is the old one times the time taken, over the time meant, rounded down and no more
      than the limit; less than a quarter or more than four times the time meant do not count. */
  lemma RetargetIs(p: Params, last: BlockIndex, firstTime: int) returns (from: nat, t: nat)
    requires p.Valid() && last.Linked() && !p.noRetargeting
    ensures from == (if last.nHeight > 51840 then LastRegular(p, last) else last.nBits) < 0x1_0000_0000
    ensures var span := last.nTime - firstTime;
      var c := if 4 * span < p.timespan then p.timespan / 4 else if span > 4 * p.timespan then 4 * p.timespan else span;
      t * p.timespan <= SetCompact(from).target * c < (t + 1) * p.timespan
    ensures Retarget(p, last, firstTime) == GetCompact(if t < p.powLimit then t else p.powLimit)
  {
    hide SetCompact, GetCompact, LastRegular;
    from := if last.nHeight > RETARGET_FIX_HEIGHT then LastRegular(p, last) else last.nBits;
    var c := Clamp(last.nTime - firstTime, p.timespan / 4, p.timespan * 4);
    var product := SetCompact(from).target * c;
    t := Stretched(SetCompact(from).target, c, p.timespan);
    DivParts(product, p.timespan);
    Exchange(t, p.timespan);
    assert (t + 1) * p.timespan == p.timespan * t + p.timespan;
  }

  /** Taking longer never makes the target smaller. */
  lemma RetargetMonotone(p: Params, last: BlockIndex, firstTime: int, earlier: int)
    requires p.Valid() && last.Linked() && earlier <= firstTime
    ensures Retarget(p, last, firstTime) <= Retarget(p, last, earlier)
  {
    hide SetCompact, GetCompact, LastRegular;
    if !p.noRetargeting {
      var from := if last.nHeight > RETARGET_FIX_HEIGHT then LastRegular(p, last) else last.nBits;
      var was := SetCompact(from).target;
      var c := Clamp(last.nTime - firstTime, p.timespan / 4, p.timespan * 4);
      var d := Clamp(last.nTime - earlier, p.timespan / 4, p.timespan * 4);
      MulMonotone(was, c, d);
      DivMonotone(was * c, was * d, p.timespan);
      EncodeMonotone(Scaled(p, from, last.nTime - firstTime), Scaled(p, from, last.nTime - earlier));
    }
  }

  /** Beyond a factor of four the time does not matter any more. */
  lemma RetargetClamped(p: Params, last: BlockIndex, firstTime: int)
    requires p.Valid() && last.Linked()
    ensures last.nTime - firstTime < p.timespan / 4 ==> Retarget(p, last, firstTime) == Retarget(p, last, last.nTime - p.timespan / 4)
    ensures last.nTime - firstTime > 4 * p.timespan ==> Retarget(p, last, firstTime) == Retarget(p, last, last.nTime - 4 * p.timespan)
  {
    hide SetCompact, GetCompact, LastRegular, Stretched;
  }

  /** An interval that took just the time meant leaves a target in range as it is. */
  lemma RetargetOnTime(p: Params, last: BlockIndex)
    requires p.Valid() && last.Linked() && !p.noRetargeting
    ensures var from := if last.nHeight > 51840 then LastRegular(p, last) else last.nBits;
      InRange(p, from) ==> SetCompact(Retarget(p, last, last.nTime - p.timespan)).target == SetCompact(from).target
  {
    var from := if last.nHeight > RETARGET_FIX_HEIGHT then LastRegular(p, last) else last.nBits;
    if InRange(p, from) {
      var was := SetCompact(from).target;
      hide SetCompact, GetCompact, LastRegular, InRange;
      DivBelow(p.timespan, 4, p.timespan + 1);
      assert Clamp(p.timespan, p.timespan / 4, p.timespan * 4) == p.timespan;
      Exchange(p.timespan, was);
      DivExact(p.timespan, was);
      DecodedIsFixed(from);
    }
  }

  /** A computed retarget is the scaled target cut to the compact form's precision: no flag,
      and never above the limit. */
  lemma RetargetInRange(p: Params, bits: nat, span: int)
    requires p.Valid() && bits < 0x1_0000_0000
    ensures var t := Scaled(p, bits, span);
      InRange(p, GetCompact(t)) && SetCompact(GetCompact(t)).target == Unit(t) * (t / Unit(t))
  {
    hide Scaled, SetCompact, GetCompact, Unit;
    DecodeEncode(Scaled(p, bits, span));
  }

  lemma LimitInRange(p: Params)
    requires p.Valid()
    ensures InRange(p, p.Limit())
  {
    hide SetCompact, GetCompact, Unit;
    DecodeEncode(p.powLimit);
  }

  /** If the first block's bits are in range, those of the whole chain are. */
  lemma {:induction false} ChainInRange(p: Params, b: BlockIndex)
    requires p.Valid() && b.Linked() && Obeys(p, b) && InRange(p, b.Ancestor(0).nBits)
    ensures InRange(p, b.nBits) && InRange(p, LastRegular(p, b))
    decreases b.nHeight
  {
    hide Scaled, InRange, IntervalStart, Params.Boundary, GetCompact;
    LimitInRange(p);
    if b.pprev != null {
      ChainInRange(p, b.pprev);
      if p.Boundary(b.nHeight) {
        var last := b.pprev;
        var from := if last.nHeight > RETARGET_FIX_HEIGHT then LastRegular(p, last) else last.nBits;
        RetargetInRange(p, from, last.nTime - IntervalStart(p, last).nTime);
      }
    }
  }
}
