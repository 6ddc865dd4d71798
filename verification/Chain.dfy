/**
 The block index with its skip list, and the active chain (src/chain.h, src/chain.cpp).
 */
module Chain {
  import opened Helpers

  /** `n & (n - 1)`: the lowest 1 bit of `n` turned into a 0. */
  function InvertLowestOne(n: nat): (r: nat)
    ensures r <= n && (n > 0 ==> r < n)
  {
    if n == 0 then 0 else if n % 2 == 1 then n - 1 else 2 * InvertLowestOne(n / 2)
  }

  /** The lowest power of two in a sum of them is what is taken away. */
  lemma {:induction false} LowestOneIs(n: nat) returns (k: nat, q: nat)
    requires n > 0
    ensures n == InvertLowestOne(n) + Pow2(k) && InvertLowestOne(n) == 2 * q * Pow2(k)
    decreases n
  {
    if n % 2 == 1 {
      k, q := 0, n / 2;
    } else {
      k, q := LowestOneIs(n / 2);
      assert 2 * (2 * q * Pow2(k)) == 2 * q * (2 * Pow2(k));
      k := k + 1;
    }
  }

  /** The height a block's skip pointer jumps back to. */
  function GetSkipHeight(height: nat): (r: nat)
    ensures height > 0 ==> r < height
  {
    if height < 2 then 0
    else if height % 2 == 1 then InvertLowestOne(InvertLowestOne(height - 1)) + 1
    else InvertLowestOne(height)
  }

  // ---------------------------------------------------------------- the block index

  class BlockIndex {
    const pprev: BlockIndex?
    const nHeight: nat
    const nTime: int
    const nBits: nat
    var pskip: BlockIndex?

    /** This block and all below it. */
    ghost const line: set<BlockIndex>

    /** Heights go down one at a time to the first block. */
    ghost predicate Linked()
      decreases nHeight
    {
      nBits < 0x1_0000_0000 &&
      if pprev == null then nHeight == 0 && line == {this}
      else pprev.nHeight + 1 == nHeight && this !in pprev.line && line == pprev.line + {this} && pprev.Linked()
    }

    /** The block reached by following `pprev` down to a height. */
    ghost function Ancestor(height: nat): (r: BlockIndex)
      requires Linked() && height <= nHeight
      ensures r.Linked() && r.nHeight == height
      decreases nHeight
    {
      if height == nHeight then this else pprev.Ancestor(height)
    }

    /** Every skip pointer of the line that is set leads to the right ancestor. */
    ghost predicate Skips()
      requires Linked()
      reads line
      decreases nHeight
    {
      && (pskip != null ==> pskip == Ancestor(GetSkipHeight(nHeight)))
      && (pprev != null ==> pprev.Skips())
    }

    constructor (prev: BlockIndex?, time: int, bits: nat)
      requires bits < 0x1_0000_0000
      requires prev == null || (prev.Linked() && prev.Skips())
      ensures Linked() && Skips() && pprev == prev && nTime == time && nBits == bits && fresh(this)
      ensures nHeight == if prev == null then 0 else prev.nHeight + 1
      ensures pskip == if prev == null then null else Ancestor(GetSkipHeight(nHeight))
    {
      pprev, nTime, nBits := prev, time, bits;
      nHeight := if prev == null then 0 else prev.nHeight + 1;
      pskip := null;
      line := {this} + if prev == null then {} else prev.line;
      new;
      BuildSkip();
    }

    method BuildSkip()
      requires Linked() && Skips()
      modifies this`pskip
      ensures Skips()
      ensures pskip == if pprev == null then old(pskip) else Ancestor(GetSkipHeight(nHeight))
    {
      if pprev != null {
        var skip := pprev.GetAncestor(GetSkipHeight(nHeight));
        pskip := skip;
      }
    }

    /** Walks to an ancestor by skip pointers where that is better: the same block as walking
        `pprev` all the way. */
    method GetAncestor(height: int) returns (r: BlockIndex?)
      requires Linked() && Skips()
      ensures height > nHeight || height < 0 ==> r == null
      ensures 0 <= height <= nHeight ==> r == Ancestor(height)
    {
      if height > nHeight || height < 0 {
        return null;
      }
      var pindexWalk: BlockIndex := this;
      var heightWalk := nHeight;
      while heightWalk > height
        invariant height <= heightWalk == pindexWalk.nHeight
        invariant pindexWalk.Linked() && pindexWalk.Skips() && pindexWalk.Ancestor(height) == Ancestor(height)
      {
        var heightSkip := GetSkipHeight(heightWalk);
        var heightSkipPrev := GetSkipHeight(heightWalk - 1);
        if pindexWalk.pskip != null
           && (heightSkip == height
               || (heightSkip > height && !(heightSkipPrev < heightSkip - 2 && heightSkipPrev >= height)))
        {
          AncestorSkips(pindexWalk, heightSkip);
          AncestorTwice(pindexWalk, heightSkip, height);
          pindexWalk := pindexWalk.pskip;
          heightWalk := heightSkip;
        } else {
          assert pindexWalk.pprev != null;
          pindexWalk := pindexWalk.pprev;
          heightWalk := heightWalk - 1;
        }
      }
      return pindexWalk;
    }
  }

  /** An ancestor of an ancestor is an ancestor. */
  lemma {:induction false} AncestorTwice(b: BlockIndex, mid: nat, low: nat)
    requires b.Linked() && low <= mid <= b.nHeight
    ensures b.Ancestor(mid).Ancestor(low) == b.Ancestor(low)
    decreases b.nHeight
  {
    if mid < b.nHeight {
      AncestorTwice(b.pprev, mid, low);
    }
  }

  lemma {:induction false} AncestorSkips(b: BlockIndex, height: nat)
    requires b.Linked() && b.Skips() && height <= b.nHeight
    ensures b.Ancestor(height).Skips()
    decreases b.nHeight
  {
    if height < b.nHeight {
      AncestorSkips(b.pprev, height);
    }
  }

  ghost predicate IsAncestor(a: BlockIndex, b: BlockIndex)
    requires b.Linked()
  {
    a.nHeight <= b.nHeight && b.Ancestor(a.nHeight) == a
  }

  /** The highest block that is below both. */
  ghost predicate IsLastCommon(r: BlockIndex, a: BlockIndex, b: BlockIndex)
    requires a.Linked() && b.Linked()
  {
    && IsAncestor(r, a) && IsAncestor(r, b)
    && forall c <- a.line * b.line :: c.nHeight <= r.nHeight
  }

  /** The line of a block is its ancestors. */
  lemma {:induction false} LineIs(c: BlockIndex, b: BlockIndex)
    requires b.Linked()
    ensures c in b.line <==> IsAncestor(c, b)
    decreases b.nHeight
  {
    if b.pprev != null {
      LineIs(c, b.pprev);
    }
  }

  /** `LastCommonAncestor`: null only when the lines have nothing in common. */
  method LastCommonAncestor(a: BlockIndex, b: BlockIndex) returns (r: BlockIndex?)
    requires a.Linked() && a.Skips() && b.Linked() && b.Skips()
    ensures r != null ==> IsLastCommon(r, a, b)
    ensures r == null ==> a.line * b.line == {}
  {
    hide BlockIndex.Linked, BlockIndex.Skips;
    var pa: BlockIndex?, pb: BlockIndex? := a, b;
    if a.nHeight > b.nHeight {
      pa := a.GetAncestor(b.nHeight);
    } else if b.nHeight > a.nHeight {
      pb := b.GetAncestor(a.nHeight);
    }
    CommonBelow(a, b);
    while pa != pb && pa != null && pb != null
      invariant pa != null <==> pb != null
      invariant pa != null ==> pa.nHeight == pb.nHeight && IsAncestor(pa, a) && IsAncestor(pb, b)
      invariant forall c <- a.line * b.line :: pa != null && c.nHeight <= pa.nHeight
      decreases if pa == null then -1 else pa.nHeight as int
    {
      StepDown(a, b, pa, pb);
      pa := pa.pprev;
      pb := pb.pprev;
    }
    assert pa == pb;
    assert pa == null ==> a.line * b.line == {};
    return pa;
  }

  lemma CommonBelow(a: BlockIndex, b: BlockIndex)
    requires a.Linked() && b.Linked()
    ensures forall c <- a.line * b.line :: IsAncestor(c, a) && IsAncestor(c, b)
  {
    forall c | c in a.line * b.line ensures IsAncestor(c, a) && IsAncestor(c, b) {
      LineIs(c, a);
      LineIs(c, b);
    }
  }

  /** Two different blocks of one height: what is common lies below both. */
  lemma StepDown(a: BlockIndex, b: BlockIndex, pa: BlockIndex, pb: BlockIndex)
    requires a.Linked() && b.Linked() && IsAncestor(pa, a) && IsAncestor(pb, b) && pa.nHeight == pb.nHeight && pa != pb
    requires forall c <- a.line * b.line :: c.nHeight <= pa.nHeight
    ensures pa.pprev != null <==> pb.pprev != null
    ensures pa.pprev != null ==> pa.pprev.nHeight == pb.pprev.nHeight < pa.nHeight && IsAncestor(pa.pprev, a) && IsAncestor(pb.pprev, b)
    ensures forall c <- a.line * b.line :: pa.pprev != null && c.nHeight <= pa.pprev.nHeight
  {
    if pa.pprev != null {
      AncestorTwice(a, pa.nHeight, pa.nHeight - 1);
      AncestorTwice(b, pb.nHeight, pb.nHeight - 1);
    }
    CommonBelow(a, b);
  }

  // ---------------------------------------------------------------- the active chain

  class ActiveChain {
    var vChain: seq<BlockIndex?>

    /** From the first block up, each on top of the one before. */
    ghost predicate Valid()
      reads this
    {
      forall i | 0 <= i < |vChain| :: InPlace(i)
    }

    ghost predicate InPlace(i: nat)
      requires i < |vChain|
      reads this
    {
      vChain[i] != null && vChain[i].Linked() && vChain[i].nHeight == i && (i > 0 ==> vChain[i].pprev == vChain[i - 1])
    }

    constructor ()
      ensures Valid() && vChain == []
    {
      vChain := [];
    }

    /** So each place holds the tip's ancestor of that height. */
    lemma {:induction false} HoldsAncestors(i: nat, j: nat)
      requires Valid() && i <= j < |vChain|
      ensures vChain[j] != null && vChain[j].Linked() && vChain[j].nHeight == j && vChain[j].Ancestor(i) == vChain[i]
      decreases j - i
    {
      assert InPlace(j);
      if i < j {
        HoldsAncestors(i, j - 1);
      }
    }

    function At(height: int): BlockIndex?
      reads this
    {
      if height < 0 || height >= |vChain| then null else vChain[height]
    }

    function Tip(): BlockIndex?
      reads this
    {
      if |vChain| > 0 then vChain[|vChain| - 1] else null
    }

    predicate Contains(pindex: BlockIndex)
      reads this
    {
      At(pindex.nHeight) == pindex
    }

    function Height(): int
      reads this
    {
      |vChain| - 1
    }

    /** The successor of a block of the chain. */
    function Next(pindex: BlockIndex): (r: BlockIndex?)
      requires Valid()
      reads this
      ensures r != null ==> r.pprev == pindex && Contains(r)
      ensures r == null ==> pindex == Tip() || !Contains(pindex)
    {
      if Contains(pindex) then
        assert pindex.nHeight + 1 < |vChain| ==> InPlace(pindex.nHeight + 1);
        At(pindex.nHeight + 1)
      else null
    }

    /** The tip and everything below it take their places; walking stops at the first block
        that is there already. */
    method SetTip(tip: BlockIndex?)
      requires Valid() && (tip != null ==> tip.Linked())
      modifies this
      ensures Valid() && Tip() == tip
      ensures tip == null ==> vChain == []
      ensures tip != null ==> |vChain| == tip.nHeight + 1 && forall i | 0 <= i < |vChain| :: vChain[i] == tip.Ancestor(i)
    {
      if tip == null {
        vChain := [];
        return;
      }
      ghost var was := vChain;
      forall i, j | 0 <= i <= j < |was| ensures was[j] != null && was[j].Linked() && was[j].nHeight == j && was[j].Ancestor(i) == was[i] {
        HoldsAncestors(i, j);
      }
      vChain := Resized(vChain, tip.nHeight + 1);
      var pindex: BlockIndex? := tip;
      while pindex != null && vChain[pindex.nHeight] != pindex
        invariant |vChain| == tip.nHeight + 1
        invariant pindex != null ==> IsAncestor(pindex, tip)
        invariant forall i | 0 <= i < |vChain| && (pindex == null || i > pindex.nHeight) :: vChain[i] == tip.Ancestor(i)
        invariant forall i | 0 <= i < |vChain| && pindex != null && i <= pindex.nHeight :: vChain[i] == if i < |was| then was[i] else null
        decreases if pindex == null then -1 else pindex.nHeight as int
      {
        if pindex.pprev != null {
          AncestorTwice(tip, pindex.nHeight, pindex.nHeight - 1);
        }
        vChain := vChain[pindex.nHeight := pindex];
        pindex := pindex.pprev;
      }
      forall i | 0 <= i < |vChain| ensures vChain[i] == tip.Ancestor(i) && InPlace(i) {
        if pindex != null && i <= pindex.nHeight {
          AncestorTwice(tip, pindex.nHeight, i);
        }
        if i > 0 {
          AncestorTwice(tip, i, i - 1);
        }
      }
    }

    /** The highest block of the chain that a block stands on. */
    method FindFork(block: BlockIndex?) returns (r: BlockIndex?)
      requires Valid() && (block != null ==> block.Linked() && block.Skips())
      ensures block == null ==> r == null
      ensures block != null && r != null ==>
        && IsAncestor(r, block) && Contains(r)
        && forall c <- block.line :: Contains(c) ==> c.nHeight <= r.nHeight
      ensures block != null && r == null ==> forall c <- block.line :: !Contains(c)
    {
      if block == null {
        return null;
      }
      forall c | c in block.line ensures IsAncestor(c, block) {
        LineIs(c, block);
      }
      var pindex: BlockIndex? := block;
      if pindex.nHeight > Height() {
        pindex := pindex.GetAncestor(Height());
      }
      while pindex != null && !Contains(pindex)
        invariant pindex != null ==> IsAncestor(pindex, block)
        invariant forall c <- block.line :: Contains(c) ==> pindex != null && c.nHeight <= pindex.nHeight
        decreases if pindex == null then -1 else pindex.nHeight as int
      {
        if pindex.pprev != null {
          AncestorTwice(block, pindex.nHeight, pindex.nHeight - 1);
        }
        pindex := pindex.pprev;
      }
      return pindex;
    }

    /** By the chain's own index if possible, otherwise by the skip list. */
    method StepBack(block: BlockIndex, nHeight: nat) returns (pindex: BlockIndex)
      requires Valid() && block.Linked() && block.Skips() && nHeight <= block.nHeight
      ensures pindex == block.Ancestor(nHeight)
    {
      if Contains(block) {
        HoldsAncestors(nHeight, block.nHeight);
        pindex := At(nHeight);
      } else {
        pindex := block.GetAncestor(nHeight);
      }
    }

    /** Blocks to find a common point with a peer: dense at first, then in steps that double,
        down to the first block. */
    method GetLocator(block: BlockIndex?) returns (vHave: seq<BlockIndex>)
      requires Valid() && (block != null ==> block.Linked() && block.Skips())
      requires |vChain| > 0 ==> InPlace(|vChain| - 1) && vChain[|vChain| - 1].Skips()
      ensures block == null && vChain == [] ==> vHave == []
      ensures block != null ==> IsLocator(vHave, block)
      ensures block == null && vChain != [] ==> InPlace(|vChain| - 1) && IsLocator(vHave, Tip())
    {
      var nStep: nat := 1;
      vHave := [];
      var pindex: BlockIndex? := block;
      if pindex == null {
        pindex := Tip();
      }
      if pindex == null {
        return;
      }
      hide SoFar, IsLocator, BlockIndex.Ancestor, BlockIndex.Linked, BlockIndex.Skips;
      ghost var start: BlockIndex := pindex;
      SoFarStarts(start);
      while pindex != null
        invariant pindex != null && SoFar(vHave, start, pindex, nStep)
        decreases pindex.nHeight
      {
        SoFarAt(vHave, start, pindex, nStep);
        ghost var before := vHave;
        vHave := vHave + [pindex];
        if pindex.nHeight == 0 {
          SoFarEnds(before, start, pindex, nStep);
          break;
        }
        var nHeight := if pindex.nHeight - nStep > 0 then pindex.nHeight - nStep else 0;
        AncestorSkips(start, pindex.nHeight);
        SoFarStep(before, start, pindex, nStep);
        pindex := StepBack(pindex, nHeight);
        if |vHave| > 10 {
          nStep := nStep * 2;
        }
      }
    }
  }

  /** At the distances of a locator. */
  ghost predicate Spaced(have: seq<BlockIndex>, top: nat) {
    forall i | 0 <= i < |have| :: have[i].nHeight == top - Depth(i)
  }

  lemma SpacedStep(have: seq<BlockIndex>, top: nat, at: BlockIndex)
    requires Spaced(have, top) && at.nHeight == top - Depth(|have|)
    ensures Spaced(have + [at], top)
  {
  }

  /** The height reached after `k` blocks, and the step from there. */
  predicate Stepped(k: nat, top: nat, height: nat, nStep: nat) {
    && nStep == (if k <= 10 then 1 else Pow2(k - 10))
    && (height > 0 ==> height == top - Depth(k))
    && (height == 0 && k > 0 ==> Depth(k - 1) < top)
  }

  lemma SteppedNext(k: nat, top: nat, height: nat, nStep: nat)
    requires Stepped(k, top, height, nStep) && height > 0
    ensures nStep >= 1 && height == top - Depth(k)
    ensures Stepped(k + 1, top, if height - nStep > 0 then height - nStep else 0, if k + 1 > 10 then nStep * 2 else nStep)
  {
    assert Depth(k + 1) == Depth(k) + nStep;
  }

  /** A locator on its way: `at` comes next, after `have`. */
  ghost predicate SoFar(have: seq<BlockIndex>, start: BlockIndex, at: BlockIndex, nStep: nat)
    requires start.Linked()
  {
    && IsAncestor(at, start)
    && (if have == [] then at == start else have[0] == start)
    && (forall i | 0 <= i < |have| :: IsAncestor(have[i], start) && have[i].nHeight > at.nHeight)
    && Spaced(have, start.nHeight)
    && (forall i, j | 0 <= i < j < |have| :: have[i].nHeight > have[j].nHeight)
    && Stepped(|have|, start.nHeight, at.nHeight, nStep)
  }

  lemma SoFarStarts(start: BlockIndex)
    requires start.Linked()
    ensures SoFar([], start, start, 1)
  {
  }

  lemma SoFarAt(have: seq<BlockIndex>, start: BlockIndex, at: BlockIndex, nStep: nat)
    requires start.Linked() && SoFar(have, start, at, nStep)
    ensures IsAncestor(at, start) && at.Linked() && nStep >= 1
  {
  }

  lemma SoFarStep(have: seq<BlockIndex>, start: BlockIndex, at: BlockIndex, nStep: nat)
    requires start.Linked() && SoFar(have, start, at, nStep) && at.Linked() && at.nHeight > 0
    ensures var down: nat := if at.nHeight - nStep > 0 then at.nHeight - nStep else 0;
      && down < at.nHeight
      && SoFar(have + [at], start, at.Ancestor(down), if |have| + 1 > 10 then nStep * 2 else nStep)
  {
    hide BlockIndex.Linked, Spaced, Stepped, Depth, Pow2;
    SteppedNext(|have|, start.nHeight, at.nHeight, nStep);
    SpacedStep(have, start.nHeight, at);
    var down: nat := if at.nHeight - nStep > 0 then at.nHeight - nStep else 0;
    AncestorTwice(start, at.nHeight, down);
    hide BlockIndex.Ancestor;
  }

  lemma SoFarEnds(have: seq<BlockIndex>, start: BlockIndex, at: BlockIndex, nStep: nat)
    requires start.Linked() && SoFar(have, start, at, nStep) && at.nHeight == 0
    ensures IsLocator(have + [at], start)
  {
    hide Spaced;
    assert (have + [at])[..|have|] == have;
    if |have| > 11 {
      DepthIs(|have| - 1);
    }
  }

  /** Strictly descending ancestors from a block to the first one, not many more than the
      binary logarithm of its height. */
  ghost predicate IsLocator(have: seq<BlockIndex>, start: BlockIndex)
    requires start.Linked()
  {
    && have != [] && have[0] == start && have[|have| - 1].nHeight == 0
    && (forall i | 0 <= i < |have| :: IsAncestor(have[i], start))
    && (forall i, j | 0 <= i < j < |have| :: have[i].nHeight > have[j].nHeight)
    && Spaced(have[..|have| - 1], start.nHeight)
    && (|have| > 12 ==> Pow2(|have| - 12) < start.nHeight - 9)
  }

  function Resized(v: seq<BlockIndex?>, n: nat): (r: seq<BlockIndex?>)
    ensures |r| == n && forall i | 0 <= i < n :: r[i] == if i < |v| then v[i] else null
  {
    if n <= |v| then v[..n] else v + seq(n - |v|, _ => null)
  }

  /** How far below the start the locator is after `k` blocks. */
  function Depth(k: nat): nat {
    if k == 0 then 0 else Depth(k - 1) + if k <= 11 then 1 else Pow2(k - 11)
  }

  lemma {:induction false} DepthIs(k: nat)
    ensures k <= 11 ==> Depth(k) == k
    ensures k > 11 ==> Depth(k) == 9 + Pow2(k - 10)
  {
    if k > 0 {
      DepthIs(k - 1);
    }
  }
}
