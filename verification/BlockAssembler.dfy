/**
 `BlockAssembler` (src/miner.cpp): the block under construction, its running totals, and the
 greedy loop that fills it package by package.
 */
module BlockAssembly {
  import opened Helpers
  import opened Mempool
  import opened Miner

  function SeqSum(s: seq<int>): int {
    if s == [] then 0 else s[0] + SeqSum(s[1..])
  }

  lemma {:induction false} SeqSumAppend(s: seq<int>, x: int)
    ensures SeqSum(s + [x]) == SeqSum(s) + x
  {
    if s != [] {
      assert (s + [x])[1..] == s[1..] + [x];
      SeqSumAppend(s[1..], x);
    }
  }

  // ---------------------------------------------------------------- what is kept

  /** The transaction-level tests. */
  predicate Includable(e: Entry, includeWitness: bool) {
    e.final && (includeWitness || !e.hasWitness)
  }

  ghost predicate AllIncludable(p: Pool, includeWitness: bool, s: set<TxId>)
    requires s <= p.txs.Keys
  {
    forall t <- s :: Includable(p.txs[t], includeWitness)
  }

  /** The running totals are those of the transactions in the block and the coinbase. */
  ghost predicate Tallied(p: Pool, inBlock: set<TxId>, weight: int, sigOps: int, fees: int, count: int) {
    && inBlock <= p.txs.Keys
    && weight == COINBASE_WEIGHT + Sum(p.Weights(), inBlock)
    && sigOps == COINBASE_SIGOPS + Sum(p.SigOps(), inBlock)
    && fees == Sum(p.Fees(), inBlock)
    && count == |inBlock|
  }

  /** The template's columns run parallel to the transactions, after the coinbase's place. */
  ghost predicate Listed(p: Pool, vtx: seq<TxId>, vTxFees: seq<int>, vTxSigOpsCost: seq<int>, fees: int) {
    && |vTxFees| == |vTxSigOpsCost| == |vtx| + 1
    && SeqSum(vTxFees[1..]) == fees
    && forall i | 0 <= i < |vtx| ::
         vtx[i] in p.txs && vTxFees[i + 1] == p.txs[vtx[i]].fee && vTxSigOpsCost[i + 1] == p.txs[vtx[i]].sigOpCost
  }

  /** With `s` in the block what is missing of the package of `t` is too much, or holds a
      transaction that may not go in. */
  ghost predicate FailsAt(p: Pool, maxWeight: int, includeWitness: bool, s: set<TxId>, t: TxId)
    requires p.Acyclic() && t in p.txs && s <= p.txs.Keys
  {
    && t !in s
    && (|| COINBASE_WEIGHT + Sum(p.Weights(), s) + WITNESS_SCALE_FACTOR * Sum(p.Sizes(), Missing(p, s, t)) >= maxWeight
        || COINBASE_SIGOPS + Sum(p.SigOps(), s) + Sum(p.SigOps(), Missing(p, s, t)) >= MAX_BLOCK_SIGOPS_COST
        || !AllIncludable(p, includeWitness, Missing(p, s, t)))
  }

  /** That was so at some time while the block was filled. */
  ghost predicate WasRefused(p: Pool, maxWeight: int, includeWitness: bool, vtx: seq<TxId>, t: TxId)
    requires p.Acyclic() && t in p.txs
  {
    exists k | 0 <= k <= |vtx| :: Elements(vtx[..k]) <= p.txs.Keys && FailsAt(p, maxWeight, includeWitness, Elements(vtx[..k]), t)
  }

  lemma StillRefused(p: Pool, maxWeight: int, includeWitness: bool, vtx: seq<TxId>, vtx': seq<TxId>, t: TxId)
    requires p.Acyclic() && t in p.txs && WasRefused(p, maxWeight, includeWitness, vtx, t) && vtx <= vtx'
    ensures WasRefused(p, maxWeight, includeWitness, vtx', t)
  {
    hide FailsAt, Elements;
    var k :| 0 <= k <= |vtx| && Elements(vtx[..k]) <= p.txs.Keys && FailsAt(p, maxWeight, includeWitness, Elements(vtx[..k]), t);
    assert vtx'[..k] == vtx[..k];
  }

  /** Every transaction is in the block, still to be looked at, or was refused. */
  ghost predicate Covered(p: Pool, maxWeight: int, includeWitness: bool, vtx: seq<TxId>,
                          inBlock: set<TxId>, ahead: seq<TxId>, m: ModifiedSet, failed: set<TxId>)
    requires p.Acyclic()
  {
    && (forall t <- p.txs | t !in inBlock && t !in ahead && t !in m :: WasRefused(p, maxWeight, includeWitness, vtx, t))
    && (forall t <- failed :: t in p.txs && WasRefused(p, maxWeight, includeWitness, vtx, t))
  }

  /** Blocks only fill up: what was covered stays covered. */
  lemma CoveredLater(p: Pool, maxWeight: int, includeWitness: bool, vtx: seq<TxId>, vtx': seq<TxId>,
                     inBlock: set<TxId>, inBlock': set<TxId>, ahead: seq<TxId>, m: ModifiedSet, m': ModifiedSet, failed: set<TxId>)
    requires p.Acyclic() && Covered(p, maxWeight, includeWitness, vtx, inBlock, ahead, m, failed)
    requires vtx <= vtx' && inBlock <= inBlock'
    requires forall t <- m :: t in m' || t in inBlock'
    ensures Covered(p, maxWeight, includeWitness, vtx', inBlock', ahead, m', failed)
  {
    hide WasRefused;
    forall t | t in p.txs && WasRefused(p, maxWeight, includeWitness, vtx, t) ensures WasRefused(p, maxWeight, includeWitness, vtx', t) {
      StillRefused(p, maxWeight, includeWitness, vtx, vtx', t);
    }
  }

  /** A candidate that fails a test on its exact totals is refused now. */
  lemma FailedIsRefused(p: Pool, maxWeight: int, includeWitness: bool, inBlock: set<TxId>, vtx: seq<TxId>,
                        weight: int, sigOps: int, fees: int, count: int, t: TxId, e: Modified)
    requires p.Acyclic() && IsExact(p, inBlock, t, e) && Ordered(p, inBlock, vtx) && Tallied(p, inBlock, weight, sigOps, fees, count)
    requires
      || weight + WITNESS_SCALE_FACTOR * e.size >= maxWeight
      || sigOps + e.sigOpCost >= MAX_BLOCK_SIGOPS_COST
      || !AllIncludable(p, includeWitness, Missing(p, inBlock, t))
    ensures WasRefused(p, maxWeight, includeWitness, vtx, t)
  {
    hide Missing, Sum, AllIncludable;
    assert vtx[..|vtx|] == vtx && Elements(vtx) == inBlock;
    assert FailsAt(p, maxWeight, includeWitness, Elements(vtx[..|vtx|]), t);
  }

  lemma CoveredAdvance(p: Pool, maxWeight: int, includeWitness: bool, vtx: seq<TxId>,
                       inBlock: set<TxId>, order: seq<TxId>, mi: nat, m: ModifiedSet, failed: set<TxId>)
    requires p.Acyclic() && mi < |order| && order[mi] in p.txs
    requires Covered(p, maxWeight, includeWitness, vtx, inBlock, order[mi..], m, failed)
    requires
      || order[mi] in inBlock || order[mi] in m || order[mi] in failed
      || WasRefused(p, maxWeight, includeWitness, vtx, order[mi])
    ensures Covered(p, maxWeight, includeWitness, vtx, inBlock, order[mi + 1..], m, failed)
  {
    hide WasRefused;
    forall t | t in order[mi..] && t != order[mi] ensures t in order[mi + 1..] {
      var i :| 0 <= i < |order[mi..]| && order[mi..][i] == t;
      assert order[mi + 1..][i - 1] == t;
    }
  }

  lemma CoveredErase(p: Pool, maxWeight: int, includeWitness: bool, vtx: seq<TxId>,
                     inBlock: set<TxId>, ahead: seq<TxId>, m: ModifiedSet, failed: set<TxId>, t: TxId)
    requires p.Acyclic() && t in p.txs && Covered(p, maxWeight, includeWitness, vtx, inBlock, ahead, m, failed)
    requires WasRefused(p, maxWeight, includeWitness, vtx, t)
    ensures Covered(p, maxWeight, includeWitness, vtx, inBlock, ahead, m - {t}, failed + {t})
  {
    hide WasRefused;
  }

  lemma ExactErase(p: Pool, inBlock: set<TxId>, m: ModifiedSet, failed: set<TxId>, t: TxId)
    requires p.Acyclic() && ExactButFailed(p, inBlock, m, failed)
    ensures ExactButFailed(p, inBlock, m - {t}, failed + {t})
  {
    hide IsExact;
  }

  /** One more transaction in the totals. */
  lemma TalliedPut(p: Pool, inBlock: set<TxId>, weight: int, sigOps: int, fees: int, count: int, t: TxId)
    requires Tallied(p, inBlock, weight, sigOps, fees, count) && t in p.txs && t !in inBlock
    ensures Tallied(p, inBlock + {t}, weight + p.txs[t].weight, sigOps + p.txs[t].sigOpCost, fees + p.txs[t].fee, count + 1)
  {
    SumPut(p.Weights(), inBlock, t);
    SumPut(p.SigOps(), inBlock, t);
    SumPut(p.Fees(), inBlock, t);
  }

  lemma IncludablePut(p: Pool, includeWitness: bool, s: set<TxId>, t: TxId)
    requires s <= p.txs.Keys && t in p.txs && AllIncludable(p, includeWitness, s) && Includable(p.txs[t], includeWitness)
    ensures AllIncludable(p, includeWitness, s + {t})
  {
  }

  lemma ListedPut(p: Pool, vtx: seq<TxId>, vTxFees: seq<int>, vTxSigOpsCost: seq<int>, fees: int, t: TxId)
    requires Listed(p, vtx, vTxFees, vTxSigOpsCost, fees) && t in p.txs
    ensures Listed(p, vtx + [t], vTxFees + [p.txs[t].fee], vTxSigOpsCost + [p.txs[t].sigOpCost], fees + p.txs[t].fee)
  {
    SeqSumAppend(vTxFees[1..], p.txs[t].fee);
    assert (vTxFees + [p.txs[t].fee])[1..] == vTxFees[1..] + [p.txs[t].fee];
  }

  /** Everything a partly filled template keeps. */
  ghost predicate Template(p: Pool, includeWitness: bool, inBlock: set<TxId>, vtx: seq<TxId>, vTxFees: seq<int>,
                           vTxSigOpsCost: seq<int>, weight: int, sigOps: int, fees: int, count: int) {
    && p.Valid()
    && inBlock <= p.txs.Keys
    && Ordered(p, inBlock, vtx)
    && Tallied(p, inBlock, weight, sigOps, fees, count)
    && Listed(p, vtx, vTxFees, vTxSigOpsCost, fees)
    && AllIncludable(p, includeWitness, inBlock)
  }

  lemma EmptyTemplate(p: Pool, includeWitness: bool)
    requires p.Valid()
    ensures Template(p, includeWitness, {}, [], [-1], [-1], COINBASE_WEIGHT, COINBASE_SIGOPS, 0, 0)
  {
  }

  lemma TemplateFacts(p: Pool, includeWitness: bool, inBlock: set<TxId>, vtx: seq<TxId>, vTxFees: seq<int>,
                      vTxSigOpsCost: seq<int>, weight: int, sigOps: int, fees: int, count: int)
    requires Template(p, includeWitness, inBlock, vtx, vTxFees, vTxSigOpsCost, weight, sigOps, fees, count)
    ensures p.Valid() && p.Acyclic() && p.ancestors.Keys == p.txs.Keys
    ensures inBlock <= p.txs.Keys && p.Closed(inBlock) && Tallied(p, inBlock, weight, sigOps, fees, count)
    ensures Ordered(p, inBlock, vtx) && AllIncludable(p, includeWitness, inBlock)
  {
    OrderedIsClosed(p, inBlock, vtx);
  }

  lemma TemplatePut(p: Pool, includeWitness: bool, inBlock: set<TxId>, vtx: seq<TxId>, vTxFees: seq<int>,
                    vTxSigOpsCost: seq<int>, weight: int, sigOps: int, fees: int, count: int, t: TxId)
    requires Template(p, includeWitness, inBlock, vtx, vTxFees, vTxSigOpsCost, weight, sigOps, fees, count)
    requires t in p.txs && t in p.ancestors && t !in inBlock && p.ancestors[t] <= inBlock && Includable(p.txs[t], includeWitness)
    ensures Template(p, includeWitness, inBlock + {t}, vtx + [t], vTxFees + [p.txs[t].fee], vTxSigOpsCost + [p.txs[t].sigOpCost],
                     weight + p.txs[t].weight, sigOps + p.txs[t].sigOpCost, fees + p.txs[t].fee, count + 1)
  {
    hide Tallied, Ordered, Listed, AllIncludable, Includable, p.Valid;
    TalliedPut(p, inBlock, weight, sigOps, fees, count, t);
    OrderedAppend(p, inBlock, vtx, t);
    ListedPut(p, vtx, vTxFees, vTxSigOpsCost, fees, t);
    IncludablePut(p, includeWitness, inBlock, t);
  }

  /** A whole package weighs at most four times its size, whatever order it is added in. */
  lemma PackageFits(p: Pool, inBlock: set<TxId>, added: set<TxId>, weight: int, sigOps: int, fees: int, count: int,
                    weight': int, sigOps': int, fees': int, count': int)
    requires Tallied(p, inBlock, weight, sigOps, fees, count)
    requires added !! inBlock && Tallied(p, inBlock + added, weight', sigOps', fees', count')
    ensures weight <= weight' <= weight + WITNESS_SCALE_FACTOR * Sum(p.Sizes(), added)
    ensures sigOps <= sigOps' == sigOps + Sum(p.SigOps(), added)
  {
    assert added <= p.txs.Keys by { assert added <= inBlock + added; }
    SumJoin(p.Weights(), inBlock, added);
    SumJoin(p.SigOps(), inBlock, added);
    WeightBySize(p, added);
    SumNonNegative(p.Weights(), added);
    SumNonNegative(p.SigOps(), added);
  }

  lemma MissingIs(p: Pool, inBlock: set<TxId>, t: TxId, e: Modified)
    requires p.Acyclic() && p.Closed(inBlock) && t in p.txs && Bounds(p, inBlock, t, e)
    ensures Missing(p, inBlock, t) == p.ancestors[t] - inBlock + {t} && Missing(p, inBlock, t) !! inBlock
    ensures p.Closed(inBlock + Missing(p, inBlock, t))
    ensures e.size >= Sum(p.Sizes(), Missing(p, inBlock, t)) && e.sigOpCost >= Sum(p.SigOps(), Missing(p, inBlock, t))
  {
  }

  lemma MissingHas(p: Pool, inBlock: set<TxId>, t: TxId)
    requires p.Acyclic() && t in p.txs && t !in inBlock
    ensures t in Missing(p, inBlock, t)
  {
  }

  lemma ModifiedKeys(p: Pool, inBlock: set<TxId>, m: ModifiedSet)
    requires p.Acyclic() && ModifiedInv(p, inBlock, m)
    ensures m.Keys <= p.txs.Keys
  {
  }

  lemma KeysKept(p: Pool, before: ModifiedSet, m: ModifiedSet, added: set<TxId>)
    requires p.ancestors.Keys == p.txs.Keys && added <= p.txs.Keys && before.Keys <= p.txs.Keys
    requires AllAccounted(p, before, m, added, added)
    ensures forall t <- before :: t in m || t in added
  {
    forall t | t in before ensures t in m || t in added {
      assert Accounted(p, before, m, added, added, t);
    }
  }

  lemma NoneModified(p: Pool, m: ModifiedSet)
    requires p.Acyclic() && AllAccounted(p, map[], m, {}, {})
    ensures m == map[] && ModifiedInv(p, {}, m) && ExactButFailed(p, {}, m, {})
  {
    forall t | t in p.txs ensures t !in m {
      assert Accounted(p, map[], m, {}, {}, t);
      assert p.ancestors[t] * {} == {};
    }
    assert m.Keys == {};
  }

  lemma AllAhead(p: Pool, maxWeight: int, includeWitness: bool, vtx: seq<TxId>, inBlock: set<TxId>, order: seq<TxId>, m: ModifiedSet)
    requires p.Acyclic() && forall t <- p.txs :: t in order
    ensures Covered(p, maxWeight, includeWitness, vtx, inBlock, order[0..], m, {})
  {
    hide WasRefused;
    assert order[0..] == order;
  }

  lemma CandidateBounds(p: Pool, inBlock: set<TxId>, m: ModifiedSet, t: TxId, modified: bool)
    requires p.Valid() && ModifiedInv(p, inBlock, m)
    requires if modified then t in m else t in p.txs && t !in inBlock
    ensures t in p.txs && t !in inBlock
    ensures Bounds(p, inBlock, t, if modified then m[t] else FullTotals(p, t))
  {
    if !modified {
      PoolTotals(p, inBlock, t);
    }
  }

  /** Looked at for the first time, a candidate has exact totals. */
  lemma CandidateExact(p: Pool, inBlock: set<TxId>, m: ModifiedSet, failed: set<TxId>, t: TxId, modified: bool)
    requires p.Valid() && p.Acyclic() && ExactButFailed(p, inBlock, m, failed) && t !in failed
    requires if modified then t in m else t in p.txs && t !in inBlock && t !in m
    ensures IsExact(p, inBlock, t, if modified then m[t] else FullTotals(p, t))
  {
    if !modified {
      FullIsExact(p, inBlock, t);
    }
  }

  lemma HasEntry(m: ModifiedSet)
    requires m != map[]
    ensures exists t :: t in m
  {
    assert m.Keys == {} ==> m == map[];
  }

  lemma OneFewer(m: ModifiedSet, t: TxId)
    requires t in m
    ensures |m - {t}| < |m| && (m - {t}).Keys <= m.Keys
  {
    assert (m - {t}).Keys == m.Keys - {t};
  }

  /** The number of transactions not in the block. */
  ghost function Outside(p: Pool, inBlock: set<TxId>): nat {
    |p.txs.Keys - inBlock|
  }

  /** Every package that goes in leaves fewer transactions outside. */
  lemma FewerOutside(p: Pool, before: set<TxId>, after: set<TxId>, t: TxId)
    requires before <= after && t in p.txs && t !in before && t in after
    ensures Outside(p, after) < Outside(p, before)
  {
    var all := p.txs.Keys;
    assert t in all - before && t !in all - after && all - after <= all - before - {t};
    SmallerSet(all - after, all - before - {t});
  }

  /** A package that was looked at, by its last transaction, with the totals that were cached for it. */
  datatype Candidate = Candidate(t: TxId, package: Modified)

  /** Its totals are exact, unless it had been refused before. */
  ghost predicate Counted(p: Pool, maxWeight: int, includeWitness: bool, vtx: seq<TxId>, inBlock: set<TxId>, c: Candidate)
    requires p.Acyclic()
  {
    && c.t in p.txs && c.t !in inBlock && Bounds(p, inBlock, c.t, c.package)
    && (IsExact(p, inBlock, c.t, c.package) || WasRefused(p, maxWeight, includeWitness, vtx, c.t))
  }

  /** Different candidates, each of them too large for what is left of the block. */
  ghost predicate AllTooLarge(p: Pool, maxWeight: int, weight: int, sigOps: int, includeWitness: bool,
                              vtx: seq<TxId>, inBlock: set<TxId>, run: seq<Candidate>)
    requires p.Acyclic()
  {
    && (forall i, j | 0 <= i < j < |run| :: run[i].t != run[j].t)
    && (forall i | 0 <= i < |run| :: Counted(p, maxWeight, includeWitness, vtx, inBlock, run[i]))
    && (forall i | 0 <= i < |run| :: weight + 4 * run[i].package.size >= maxWeight || sigOps + run[i].package.sigOpCost >= 80000)
  }

  /** Why the selection ended. */
  datatype Stop =
    | Exhausted
    | LowFee(candidate: Candidate)
    | NearlyFull

  /** `run` are the candidates that were too large since the last package went in. If there are more than a
      thousand and the block is nearly full, the selection gives up. Else it is out of candidates, and everything
      left out was refused, or a candidate's fees were below the minimum. */
  ghost predicate Justified(p: Pool, maxWeight: int, weight: int, sigOps: int, includeWitness: bool, minFee: int -> int,
                            vtx: seq<TxId>, inBlock: set<TxId>, run: seq<Candidate>, why: Stop)
    requires p.Acyclic()
  {
    && AllTooLarge(p, maxWeight, weight, sigOps, includeWitness, vtx, inBlock, run)
    && (why.NearlyFull? <==> |run| > 1000 && weight > maxWeight - 4000)
    && match why
    case Exhausted => forall t <- p.txs | t !in inBlock :: WasRefused(p, maxWeight, includeWitness, vtx, t)
    case LowFee(c) => Counted(p, maxWeight, includeWitness, vtx, inBlock, c) && c.package.modFees < minFee(c.package.size)
    case NearlyFull => true
  }

  /** A package that went in when the block was `vtx[..start]`. */
  datatype Choice = Choice(start: nat, candidate: Candidate)

  /** The block has grown from `was` to `vtx` by just what was missing of the candidate's package, whose fees
      were not below the minimum. */
  ghost predicate Paid(p: Pool, maxWeight: int, includeWitness: bool, minFee: int -> int, was: seq<TxId>, vtx: seq<TxId>, c: Candidate)
    requires p.Acyclic()
  {
    && was <= vtx && Elements(was) <= p.txs.Keys
    && Counted(p, maxWeight, includeWitness, was, Elements(was), c)
    && Elements(vtx) == Elements(was) + Missing(p, Elements(was), c.t)
    && c.package.modFees >= minFee(c.package.size)
  }

  /** The block is these packages, one after the other. */
  ghost predicate Built(p: Pool, maxWeight: int, includeWitness: bool, minFee: int -> int, vtx: seq<TxId>, chosen: seq<Choice>)
    requires p.Acyclic()
    decreases |chosen|
  {
    if chosen == [] then vtx == [] else
      var n := |chosen| - 1;
      && chosen[n].start <= |vtx|
      && Paid(p, maxWeight, includeWitness, minFee, vtx[..chosen[n].start], vtx, chosen[n].candidate)
      && Built(p, maxWeight, includeWitness, minFee, vtx[..chosen[n].start], chosen[..n])
  }

  lemma BuiltOn(p: Pool, maxWeight: int, includeWitness: bool, minFee: int -> int, was: seq<TxId>, vtx: seq<TxId>,
                chosen: seq<Choice>, c: Candidate)
    requires p.Acyclic() && Built(p, maxWeight, includeWitness, minFee, was, chosen)
    requires Paid(p, maxWeight, includeWitness, minFee, was, vtx, c)
    ensures Built(p, maxWeight, includeWitness, minFee, vtx, chosen + [Choice(|was|, c)])
  {
    hide Paid;
    assert was <= vtx by { PaidGrows(p, maxWeight, includeWitness, minFee, was, vtx, c); }
    assert vtx[..|was|] == was && (chosen + [Choice(|was|, c)])[..|chosen|] == chosen;
  }

  lemma PaidGrows(p: Pool, maxWeight: int, includeWitness: bool, minFee: int -> int, was: seq<TxId>, vtx: seq<TxId>, c: Candidate)
    requires p.Acyclic() && Paid(p, maxWeight, includeWitness, minFee, was, vtx, c)
    ensures was <= vtx
  {
  }

  /** The failures since the last package went in are gone from the modified set, and will not be seen again. */
  ghost predicate Behind(order: seq<TxId>, mi: nat, m: ModifiedSet, failed: set<TxId>, run: seq<Candidate>) {
    mi <= |order| && forall i | 0 <= i < |run| :: run[i].t !in m && (run[i].t in failed || run[i].t in order[..mi])
  }

  /** One more of them. */
  lemma OneMoreFailed(p: Pool, maxWeight: int, weight: int, sigOps: int, includeWitness: bool,
                      vtx: seq<TxId>, inBlock: set<TxId>, run: seq<Candidate>, c: Candidate)
    requires p.Acyclic() && AllTooLarge(p, maxWeight, weight, sigOps, includeWitness, vtx, inBlock, run)
    requires Counted(p, maxWeight, includeWitness, vtx, inBlock, c)
    requires weight + 4 * c.package.size >= maxWeight || sigOps + c.package.sigOpCost >= 80000
    requires forall i | 0 <= i < |run| :: run[i].t != c.t
    ensures AllTooLarge(p, maxWeight, weight, sigOps, includeWitness, vtx, inBlock, run + [c])
  {
    hide Counted;
  }

  /** What is looked at next has not failed in this run, and is left behind if it fails now. */
  lemma LeftBehind(order: seq<TxId>, mi: nat, m: ModifiedSet, failed: set<TxId>, run: seq<Candidate>,
                   c: Candidate, fUsingModified: bool, next: nat, m': ModifiedSet, failed': set<TxId>)
    requires Behind(order, mi, m, failed, run) && forall i, j | 0 <= i < j < |order| :: order[i] != order[j]
    requires if fUsingModified then c.t in m && next == mi && m' == m - {c.t} && failed' == failed + {c.t}
             else mi < |order| && c.t == order[mi] && c.t !in m && c.t !in failed && next == mi + 1 && m' == m && failed' == failed
    ensures (forall i | 0 <= i < |run| :: run[i].t != c.t) && Behind(order, next, m', failed', run)
    ensures Behind(order, next, m', failed', run + [c])
  {
    if !fUsingModified {
      assert order[..next] == order[..mi] + [c.t];
    }
  }

  lemma CoveredEnd(p: Pool, maxWeight: int, weight: int, sigOps: int, includeWitness: bool, minFee: int -> int, vtx: seq<TxId>, inBlock: set<TxId>,
                   ahead: seq<TxId>, m: ModifiedSet, failed: set<TxId>, run: seq<Candidate>)
    requires p.Acyclic() && Covered(p, maxWeight, includeWitness, vtx, inBlock, ahead, m, failed) && ahead == [] && m == map[]
    requires AllTooLarge(p, maxWeight, weight, sigOps, includeWitness, vtx, inBlock, run) && !(|run| > 1000 && weight > maxWeight - 4000)
    ensures Justified(p, maxWeight, weight, sigOps, includeWitness, minFee, vtx, inBlock, run, Exhausted)
  {
    hide WasRefused;
  }

  /** Each transaction of the pool once. */
  ghost predicate ListsPool(p: Pool, order: seq<TxId>) {
    && (forall t :: t in order <==> t in p.txs)
    && (forall i, j | 0 <= i < j < |order| :: order[i] != order[j])
  }

  function Elements(s: seq<TxId>): set<TxId> {
    set t | t in s
  }

  lemma SomeElement(s: seq<TxId>)
    ensures s != [] ==> Elements(s) != {}
  {
    if s != [] {
      assert s[0] in Elements(s);
    }
  }

  lemma SortedElements(p: Pool, package: set<TxId>, sorted: seq<TxId>)
    requires package <= p.ancestors.Keys && Sorted(p, package, sorted)
    ensures Elements(sorted) == package
  {
  }

  /** The next entry of a sorted package has all its ancestors in the block already. */
  lemma NextInPackage(p: Pool, inBlock: set<TxId>, package: set<TxId>, sorted: seq<TxId>, i: nat)
    requires p.Acyclic() && package <= p.txs.Keys && package !! inBlock && Sorted(p, package, sorted) && i < |sorted|
    requires p.Closed(inBlock + package)
    ensures sorted[i] in package && sorted[i] !in inBlock + Elements(sorted[..i])
    ensures p.ancestors[sorted[i]] <= inBlock + Elements(sorted[..i])
    ensures Elements(sorted[..i + 1]) == Elements(sorted[..i]) + {sorted[i]}
  {
    SortedIsTopological(p, package, sorted, i);
    var t := sorted[i];
    assert t in sorted;
    forall a | a in p.ancestors[t] ensures a in inBlock + Elements(sorted[..i]) {
      if a in package {
        assert a in p.ancestors[t] * package;
      }
    }
  }

  // ---------------------------------------------------------------- the assembler

  class BlockAssembler {
    const pool: Pool
    const nBlockMaxWeight: int
    /** `blockMinFeeRate.GetFee`. */
    const minFee: int -> int

    var fIncludeWitness: bool
    var inBlock: set<TxId>
    var vtx: seq<TxId>
    var vTxFees: seq<int>
    var vTxSigOpsCost: seq<int>
    var nBlockWeight: int
    var nBlockTx: int
    var nBlockSigOpsCost: int
    var nFees: int

    ghost predicate Valid()
      reads this
    {
      && COINBASE_WEIGHT <= nBlockMaxWeight <= MAX_BLOCK_WEIGHT - COINBASE_WEIGHT
      && Template(pool, fIncludeWitness, inBlock, vtx, vTxFees, vTxSigOpsCost, nBlockWeight, nBlockSigOpsCost, nFees, nBlockTx)
    }

    ghost predicate WithinLimits()
      reads this
    {
      nBlockWeight <= nBlockMaxWeight && nBlockSigOpsCost < MAX_BLOCK_SIGOPS_COST
    }

    constructor (p: Pool, maxWeight: nat, rate: int -> int)
      requires p.Valid()
      ensures Valid() && pool == p && minFee == rate && inBlock == {} && WithinLimits()
      ensures nBlockMaxWeight == if maxWeight < 4000 then 4000 else if maxWeight > 31996000 then 31996000 else maxWeight
    {
      pool, minFee := p, rate;
      nBlockMaxWeight := Max(COINBASE_WEIGHT, if maxWeight < MAX_BLOCK_WEIGHT - 4000 then maxWeight else MAX_BLOCK_WEIGHT - 4000);
      fIncludeWitness, inBlock, vtx, vTxFees, vTxSigOpsCost := false, {}, [], [-1], [-1];
      nBlockWeight, nBlockTx, nBlockSigOpsCost, nFees := COINBASE_WEIGHT, 0, COINBASE_SIGOPS, 0;
    }

    method ResetBlock()
      requires Valid()
      modifies this
      ensures Valid() && WithinLimits() && inBlock == {} && !fIncludeWitness
    {
      hide Template;
      Facts();
      EmptyTemplate(pool, false);
      inBlock := {};
      nBlockWeight, nBlockSigOpsCost, fIncludeWitness := COINBASE_WEIGHT, COINBASE_SIGOPS, false;
      nBlockTx, nFees := 0, 0;
      // The fresh template: a place for the coinbase in each column.
      vtx, vTxFees, vTxSigOpsCost := [], [-1], [-1];
    }

    /** Drops what is already in the block. */
    method OnlyUnconfirmed(testSet: set<TxId>) returns (r: set<TxId>)
      ensures r == testSet - inBlock
    {
      r := testSet;
      var todo := testSet;
      while todo != {}
        invariant todo <= testSet && r == testSet - (inBlock - todo)
        decreases |todo|
      {
        var t :| t in todo;
        if t in inBlock {
          r := r - {t};
        }
        todo := todo - {t};
      }
    }

    method TestPackage(packageSize: int, packageSigOpsCost: int) returns (ok: bool)
      ensures ok <==> nBlockWeight + WITNESS_SCALE_FACTOR * packageSize < nBlockMaxWeight
                      && nBlockSigOpsCost + packageSigOpsCost < MAX_BLOCK_SIGOPS_COST
    {
      if nBlockWeight + WITNESS_SCALE_FACTOR * packageSize >= nBlockMaxWeight {
        return false;
      }
      if nBlockSigOpsCost + packageSigOpsCost >= MAX_BLOCK_SIGOPS_COST {
        return false;
      }
      return true;
    }

    method TestPackageTransactions(package: set<TxId>) returns (ok: bool)
      requires package <= pool.txs.Keys
      ensures ok <==> AllIncludable(pool, fIncludeWitness, package)
    {
      var todo := package;
      while todo != {}
        invariant todo <= package && AllIncludable(pool, fIncludeWitness, package - todo)
        decreases |todo|
      {
        var it :| it in todo;
        if !pool.txs[it].final {
          return false;
        }
        if !fIncludeWitness && pool.txs[it].hasWitness {
          return false;
        }
        todo := todo - {it};
      }
      assert package - todo == package;
      return true;
    }

    lemma Facts()
      requires Valid()
      ensures pool.Valid() && pool.Acyclic() && pool.ancestors.Keys == pool.txs.Keys
      ensures inBlock <= pool.txs.Keys && pool.Closed(inBlock)
      ensures Tallied(pool, inBlock, nBlockWeight, nBlockSigOpsCost, nFees, nBlockTx)
    {
      hide Template;
      TemplateFacts(pool, fIncludeWitness, inBlock, vtx, vTxFees, vTxSigOpsCost, nBlockWeight, nBlockSigOpsCost, nFees, nBlockTx);
    }

    method AddToBlock(iter: TxId)
      requires Valid() && iter in pool.txs && iter in pool.ancestors && iter !in inBlock && pool.ancestors[iter] <= inBlock
      requires Includable(pool.txs[iter], fIncludeWitness)
      modifies this
      ensures Valid() && inBlock == old(inBlock) + {iter} && vtx == old(vtx) + [iter] && fIncludeWitness == old(fIncludeWitness)
    {
      hide Template, Includable;
      TemplatePut(pool, fIncludeWitness, inBlock, vtx, vTxFees, vTxSigOpsCost, nBlockWeight, nBlockSigOpsCost, nFees, nBlockTx, iter);
      vtx := vtx + [iter];
      vTxFees := vTxFees + [pool.txs[iter].fee];
      vTxSigOpsCost := vTxSigOpsCost + [pool.txs[iter].sigOpCost];
      nBlockWeight := nBlockWeight + pool.txs[iter].weight;
      nBlockTx := nBlockTx + 1;
      nBlockSigOpsCost := nBlockSigOpsCost + pool.txs[iter].sigOpCost;
      nFees := nFees + pool.txs[iter].fee;
      inBlock := inBlock + {iter};
    }

    /** Adds a sorted package and takes its transactions out of the modified set. */
    method AddSorted(sortedEntries: seq<TxId>, package: set<TxId>, mapModifiedTx: ModifiedSet) returns (m: ModifiedSet)
      requires Valid() && package <= pool.txs.Keys && package !! inBlock
      requires pool.Acyclic() && Sorted(pool, package, sortedEntries)
      requires pool.Closed(inBlock + package) && AllIncludable(pool, fIncludeWitness, package)
      modifies this
      ensures Valid() && inBlock == old(inBlock) + package && fIncludeWitness == old(fIncludeWitness)
      ensures vtx == old(vtx) + sortedEntries && m == mapModifiedTx - package
    {
      hide Valid, Sorted;
      m := mapModifiedTx;
      var i := 0;
      assert sortedEntries[..0] == [];
      while i < |sortedEntries|
        invariant i <= |sortedEntries| && Valid() && fIncludeWitness == old(fIncludeWitness)
        invariant inBlock == old(inBlock) + Elements(sortedEntries[..i])
        invariant vtx == old(vtx) + sortedEntries[..i]
        invariant m == mapModifiedTx - Elements(sortedEntries[..i])
      {
        var t := sortedEntries[i];
        NextInPackage(pool, old(inBlock), package, sortedEntries, i);
        assert sortedEntries[..i + 1] == sortedEntries[..i] + [t];
        AddToBlock(t);
        m := m - {t};
        i := i + 1;
      }
      assert sortedEntries[..i] == sortedEntries;
      SortedElements(pool, package, sortedEntries);
    }

    /** The rest of the loop body for a package that passed the limits: its transactions are
        tested one by one, and if all may go in, they do. */
    method AddPackage(iter: TxId, ghost e: Modified, mapModifiedTx: ModifiedSet, ghost failed: set<TxId>)
      returns (added: bool, m: ModifiedSet)
      requires Valid() && WithinLimits() && pool.Acyclic() && iter in pool.txs && Bounds(pool, inBlock, iter, e)
      requires ModifiedInv(pool, inBlock, mapModifiedTx) && ExactButFailed(pool, inBlock, mapModifiedTx, failed)
      requires nBlockWeight + WITNESS_SCALE_FACTOR * e.size < nBlockMaxWeight
      requires nBlockSigOpsCost + e.sigOpCost < MAX_BLOCK_SIGOPS_COST
      modifies this
      ensures Valid() && WithinLimits() && fIncludeWitness == old(fIncludeWitness)
      ensures added == AllIncludable(pool, fIncludeWitness, old(Missing(pool, inBlock, iter)))
      ensures inBlock == if added then old(inBlock) + old(Missing(pool, inBlock, iter)) else old(inBlock)
      ensures old(vtx) <= vtx && (!added ==> m == mapModifiedTx && vtx == old(vtx) && nBlockWeight == old(nBlockWeight)
                                             && nBlockSigOpsCost == old(nBlockSigOpsCost))
      ensures ModifiedInv(pool, inBlock, m) && ExactButFailed(pool, inBlock, m, failed) && forall t <- mapModifiedTx :: t in m || t in inBlock
    {
      hide Valid, Sorted, ModifiedInv, ExactButFailed, Tallied, pool.Valid, pool.Acyclic, pool.Closed, AllIncludable;
      Facts();
      ModifiedKeys(pool, inBlock, mapModifiedTx);
      var ancestors := OnlyUnconfirmed(pool.ancestors[iter]);
      ancestors := ancestors + {iter};
      MissingIs(pool, inBlock, iter, e);
      assert ancestors == Missing(pool, inBlock, iter);
      added := TestPackageTransactions(ancestors);
      m := mapModifiedTx;
      if added {
        var sortedEntries := SortForBlock(pool, ancestors);
        m := AddSorted(sortedEntries, ancestors, m);
        Facts();
        PackageFits(pool, old(inBlock), ancestors, old(nBlockWeight), old(nBlockSigOpsCost), old(nFees), old(nBlockTx),
                    nBlockWeight, nBlockSigOpsCost, nFees, nBlockTx);
        FewerModified(pool, old(inBlock), mapModifiedTx, ancestors);
        ghost var before := m;
        ModifiedKeys(pool, old(inBlock), m);
        m := UpdatePackagesForAdded(pool, ancestors, m);
        BoundsRepaired(pool, old(inBlock), ancestors, before, m);
        ExactRepaired(pool, old(inBlock), ancestors, mapModifiedTx, m, failed);
        KeysKept(pool, before, m, ancestors);
      }
    }

    /** What the greedy loop keeps; candidates before `mi` have been dealt with. */
    ghost predicate Going(order: seq<TxId>, mi: nat, m: ModifiedSet, failed: set<TxId>)
      reads this
    {
      && Valid() && WithinLimits() && pool.Acyclic() && inBlock <= pool.txs.Keys
      && mi <= |order| && ListsPool(pool, order)
      && ModifiedInv(pool, inBlock, m) && ExactButFailed(pool, inBlock, m, failed)
      && Covered(pool, nBlockMaxWeight, fIncludeWitness, vtx, inBlock, order[mi..], m, failed)
    }

    lemma SkipStale(order: seq<TxId>, mi: nat, m: ModifiedSet, failed: set<TxId>)
      requires Going(order, mi, m, failed) && mi < |order| && (order[mi] in m || order[mi] in inBlock || order[mi] in failed)
      ensures Going(order, mi + 1, m, failed)
    {
      hide Valid, WithinLimits, Covered, ModifiedInv, ExactButFailed, pool.Acyclic;
      CoveredAdvance(pool, nBlockMaxWeight, fIncludeWitness, vtx, inBlock, order, mi, m, failed);
    }

    /** Which package to look at next: the pool's next entry or one of the modified set. */
    method Choose(order: seq<TxId>, mi: nat, m: ModifiedSet, ghost failed: set<TxId>)
      returns (iter: TxId, fUsingModified: bool, package: Modified, next: nat)
      requires Going(order, mi, m, failed) && (mi < |order| || m != map[])
      requires mi < |order| ==> order[mi] !in m && order[mi] !in inBlock && order[mi] !in failed
      ensures iter !in failed ==> IsExact(pool, inBlock, iter, package)
      ensures iter in pool.txs && iter !in inBlock && pool.Acyclic() && Bounds(pool, inBlock, iter, package)
      ensures if fUsingModified then iter in m && package == m[iter] && next == mi
              else mi < |order| && iter == order[mi] && package == FullTotals(pool, iter) && next == mi + 1
    {
      hide Valid, WithinLimits, Covered, ModifiedInv, ExactButFailed, Bounds, IsExact, pool.Valid, pool.Acyclic, pool.Closed, Tallied;
      Facts();
      if m != map[] {
        HasEntry(m);
      }
      fUsingModified, next := false, mi;
      if mi == |order| {
        iter :| iter in m;
        fUsingModified := true;
      } else {
        iter := order[mi];
        var modifiedIsBetter: bool := *;
        if m != map[] && modifiedIsBetter {
          iter :| iter in m;
          fUsingModified := true;
        } else {
          next := mi + 1;
        }
      }
      CandidateBounds(pool, inBlock, m, iter, fUsingModified);
      assert iter !in inBlock;
      if iter !in failed {
        CandidateExact(pool, inBlock, m, failed, iter, fUsingModified);
      }
      package := if fUsingModified then m[iter] else FullTotals(pool, iter);
    }

    /** One candidate: its package goes in, or it is refused and, if it came from the modified
        set, moved from there to the failed ones. */
    method Consider(iter: TxId, package: Modified, fUsingModified: bool, mapModifiedTx: ModifiedSet, failedTx: set<TxId>,
                    ghost order: seq<TxId>, ghost mi: nat, ghost next: nat)
      returns (fits: bool, added: bool, m: ModifiedSet, failed: set<TxId>)
      requires Going(order, mi, mapModifiedTx, failedTx) && pool.Acyclic()
      requires iter in pool.txs && iter !in inBlock && Bounds(pool, inBlock, iter, package)
      requires iter !in failedTx ==> IsExact(pool, inBlock, iter, package)
      requires if fUsingModified then iter in mapModifiedTx && next == mi
               else mi < |order| && iter == order[mi] && next == mi + 1
      modifies this
      ensures fIncludeWitness == old(fIncludeWitness)
      ensures Going(order, next, m, failed)
      ensures added ==> Outside(pool, inBlock) < Outside(pool, old(inBlock))
      ensures !added ==> inBlock == old(inBlock) && vtx == old(vtx) && nBlockWeight == old(nBlockWeight) && nBlockSigOpsCost == old(nBlockSigOpsCost)
      ensures !added ==> if fUsingModified then |m| < |mapModifiedTx| else m == mapModifiedTx
      ensures !added ==> if fUsingModified then m == mapModifiedTx - {iter} && failed == failedTx + {iter} else failed == failedTx
      ensures fits <==> old(nBlockWeight) + 4 * package.size < nBlockMaxWeight && old(nBlockSigOpsCost) + package.sigOpCost < 80000
      ensures added ==> fits && old(vtx) <= vtx && inBlock == old(inBlock) + old(Missing(pool, inBlock, iter))
    {
      hide Valid, WithinLimits, ModifiedInv, ExactButFailed, IsExact, Bounds, Covered, WasRefused, pool.Valid, pool.Acyclic, pool.Closed, Tallied, Sum;
      fits := TestPackage(package.size, package.sigOpCost);
      added, m, failed := false, mapModifiedTx, failedTx;
      if fits {
        MissingHas(pool, inBlock, iter);
        added, m := AddPackage(iter, package, mapModifiedTx, failedTx);
      }
      if added {
        Facts();
        CoveredLater(pool, nBlockMaxWeight, fIncludeWitness, old(vtx), vtx, old(inBlock), inBlock, order[mi..], mapModifiedTx, m, failedTx);
        FewerOutside(pool, old(inBlock), inBlock, iter);
      } else {
        RefusedNow(order, mi, m, failedTx, iter, package);
        if fUsingModified {
          CoveredErase(pool, nBlockMaxWeight, fIncludeWitness, vtx, inBlock, order[mi..], m, failedTx, iter);
          Facts();
          FewerModified(pool, inBlock, m, {iter});
          ExactErase(pool, inBlock, m, failedTx, iter);
          OneFewer(m, iter);
          m := m - {iter};
          failed := failedTx + {iter};
        }
      }
      if !fUsingModified {
        CoveredAdvance(pool, nBlockMaxWeight, fIncludeWitness, vtx, inBlock, order, mi, m, failed);
      }
    }

    /** A candidate that is not added is refused now, or has been before. */
    lemma RefusedNow(order: seq<TxId>, mi: nat, m: ModifiedSet, failed: set<TxId>, t: TxId, e: Modified)
      requires Going(order, mi, m, failed) && t in pool.txs && (t !in failed ==> IsExact(pool, inBlock, t, e))
      requires
        || nBlockWeight + WITNESS_SCALE_FACTOR * e.size >= nBlockMaxWeight
        || nBlockSigOpsCost + e.sigOpCost >= MAX_BLOCK_SIGOPS_COST
        || !AllIncludable(pool, fIncludeWitness, Missing(pool, inBlock, t))
      ensures pool.Acyclic() && WasRefused(pool, nBlockMaxWeight, fIncludeWitness, vtx, t)
    {
      hide ModifiedInv, ExactButFailed, IsExact, WasRefused, pool.Valid, pool.Acyclic, pool.Closed, Tallied, Ordered, Sum, AllIncludable, Missing, Listed;
      if t !in failed {
        FailedIsRefused(pool, nBlockMaxWeight, fIncludeWitness, inBlock, vtx, nBlockWeight, nBlockSigOpsCost, nFees, nBlockTx, t, e);
      }
    }

    /** Takes account of what is in the block already. */
    method Start(order: seq<TxId>) returns (m: ModifiedSet)
      requires Valid() && WithinLimits() && inBlock == {} && ListsPool(pool, order)
      ensures Going(order, 0, m, {})
    {
      hide Valid, WithinLimits, Covered, ModifiedInv, ExactButFailed, AllAccounted, pool.Valid, pool.Acyclic, pool.Closed, Tallied;
      Facts();
      m := UpdatePackagesForAdded(pool, inBlock, map[]);
      NoneModified(pool, m);
      AllAhead(pool, nBlockMaxWeight, fIncludeWitness, vtx, inBlock, order, m);
    }

    /** The block so far, and the failures since the last package went in. */
    ghost predicate Recorded(order: seq<TxId>, mi: nat, m: ModifiedSet, failed: set<TxId>, chosen: seq<Choice>, run: seq<Candidate>)
      requires pool.Acyclic()
      reads this
    {
      && Built(pool, nBlockMaxWeight, fIncludeWitness, minFee, vtx, chosen)
      && AllTooLarge(pool, nBlockMaxWeight, nBlockWeight, nBlockSigOpsCost, fIncludeWitness, vtx, inBlock, run)
      && Behind(order, mi, m, failed, run)
    }

    lemma Skipped(order: seq<TxId>, mi: nat, m: ModifiedSet, failed: set<TxId>, chosen: seq<Choice>, run: seq<Candidate>)
      requires pool.Acyclic() && Recorded(order, mi, m, failed, chosen, run) && mi < |order|
      ensures Recorded(order, mi + 1, m, failed, chosen, run)
    {
      hide Built, AllTooLarge;
      assert order[..mi + 1] == order[..mi] + [order[mi]];
    }

    /** One round with a candidate whose fees are not too low. */
    method Try(iter: TxId, package: Modified, fUsingModified: bool, mapModifiedTx: ModifiedSet, failedTx: set<TxId>,
               ghost order: seq<TxId>, ghost mi: nat, ghost next: nat, ghost chosen: seq<Choice>, ghost run: seq<Candidate>)
      returns (fits: bool, added: bool, m: ModifiedSet, failed: set<TxId>, ghost chosen': seq<Choice>, ghost run': seq<Candidate>)
      requires Going(order, mi, mapModifiedTx, failedTx) && pool.Acyclic() && Recorded(order, mi, mapModifiedTx, failedTx, chosen, run)
      requires iter in pool.txs && iter !in inBlock && Bounds(pool, inBlock, iter, package)
      requires iter !in failedTx ==> IsExact(pool, inBlock, iter, package)
      requires if fUsingModified then iter in mapModifiedTx && next == mi
               else mi < |order| && iter == order[mi] && iter !in mapModifiedTx && iter !in failedTx && next == mi + 1
      requires package.modFees >= minFee(package.size)
      modifies this
      ensures fIncludeWitness == old(fIncludeWitness) && pool.Acyclic()
      ensures Going(order, next, m, failed) && Recorded(order, next, m, failed, chosen', run')
      ensures added ==> fits && Outside(pool, inBlock) < Outside(pool, old(inBlock))
      ensures !added ==> inBlock == old(inBlock)
      ensures !added ==> if fUsingModified then |m| < |mapModifiedTx| else m == mapModifiedTx
      ensures |chosen'| == |chosen| + (if added then 1 else 0)
      ensures |run'| == if added then 0 else if fits then |run| else |run| + 1
      ensures !added ==> nBlockWeight == old(nBlockWeight)
    {
      hide Valid, WithinLimits, ListsPool, Outside, Going, Bounds, IsExact, WasRefused, pool.Acyclic, Counted, Built, AllTooLarge, Behind, Missing;
      ghost var c, was := Candidate(iter, package), vtx;
      CountedNow(order, mi, mapModifiedTx, failedTx, c);
      fits, added, m, failed := Consider(iter, package, fUsingModified, mapModifiedTx, failedTx, order, mi, next);
      if added {
        AddedRecord(order, next, was, m, failed, chosen, c);
        chosen', run' := chosen + [Choice(|was|, c)], [];
      } else {
        FailedRecord(order, mi, mapModifiedTx, failedTx, chosen, run, c, fUsingModified, next, m, failed, fits);
        chosen', run' := chosen, if fits then run else run + [c];
      }
    }

    /** The greedy loop. `order` is the pool in ancestor-score order; which of two candidates
        scores higher is left open. */
    method AddPackageTxs(order: seq<TxId>) returns (nPackagesSelected: nat, ghost chosen: seq<Choice>, ghost run: seq<Candidate>, ghost why: Stop)
      requires Valid() && WithinLimits() && inBlock == {}
      requires ListsPool(pool, order)
      modifies this
      ensures Valid() && WithinLimits() && fIncludeWitness == old(fIncludeWitness) && pool.Acyclic()
      ensures Justified(pool, nBlockMaxWeight, nBlockWeight, nBlockSigOpsCost, fIncludeWitness, minFee, vtx, inBlock, run, why)
      ensures |chosen| == nPackagesSelected && Built(pool, nBlockMaxWeight, fIncludeWitness, minFee, vtx, chosen)
    {
      hide Valid, WithinLimits, ListsPool, Outside, Going, Bounds, IsExact, WasRefused, FullTotals, pool.Acyclic, Justified, Counted, Built, Recorded;
      var mapModifiedTx: ModifiedSet := Start(order);
      var failedTx: set<TxId> := {};
      var mi: nat := 0;
      var nConsecutiveFailed := 0;
      nPackagesSelected, chosen, run := 0, [], [];
      StartRecord(order, mapModifiedTx);

      while mi < |order| || mapModifiedTx != map[]
        invariant mi <= |order| && Going(order, mi, mapModifiedTx, failedTx) && fIncludeWitness == old(fIncludeWitness)
        invariant pool.Acyclic() && Recorded(order, mi, mapModifiedTx, failedTx, chosen, run)
        invariant |chosen| == nPackagesSelected && |run| == nConsecutiveFailed
        invariant |run| > 1000 ==> nBlockWeight <= nBlockMaxWeight - 4000
        decreases Outside(pool, inBlock), |order| - mi + |mapModifiedTx|
      {
        if mi < |order| && (order[mi] in mapModifiedTx || order[mi] in inBlock || order[mi] in failedTx) {
          SkipStale(order, mi, mapModifiedTx, failedTx);
          Skipped(order, mi, mapModifiedTx, failedTx, chosen, run);
          mi := mi + 1;
          continue;
        }

        var iter, fUsingModified, package, next := Choose(order, mi, mapModifiedTx, failedTx);
        if package.modFees < minFee(package.size) {
          why := LowFee(Candidate(iter, package));
          CountedNow(order, mi, mapModifiedTx, failedTx, why.candidate);
          StoppedEarly(order, mi, mapModifiedTx, failedTx, chosen, run, why);
          return;
        }

        var fits, added;
        fits, added, mapModifiedTx, failedTx, chosen, run :=
          Try(iter, package, fUsingModified, mapModifiedTx, failedTx, order, mi, next, chosen, run);
        mi := next;
        if added {
          nConsecutiveFailed, nPackagesSelected := 0, nPackagesSelected + 1;
        } else if !fits {
          nConsecutiveFailed := nConsecutiveFailed + 1;
          if nConsecutiveFailed > MAX_CONSECUTIVE_FAILURES && nBlockWeight > nBlockMaxWeight - 4000 {
            why := NearlyFull;
            StoppedEarly(order, mi, mapModifiedTx, failedTx, chosen, run, why);
            return;
          }
        }
      }
      why := Exhausted;
      Stopped(order, mi, mapModifiedTx, failedTx, chosen, run);
    }

    lemma StoppedEarly(order: seq<TxId>, mi: nat, m: ModifiedSet, failed: set<TxId>, chosen: seq<Choice>, run: seq<Candidate>, why: Stop)
      requires Going(order, mi, m, failed) && pool.Acyclic() && Recorded(order, mi, m, failed, chosen, run) && !why.Exhausted?
      requires why.NearlyFull? <==> |run| > 1000 && nBlockWeight > nBlockMaxWeight - 4000
      requires why.LowFee? ==>
        && Counted(pool, nBlockMaxWeight, fIncludeWitness, vtx, inBlock, why.candidate)
        && why.candidate.package.modFees < minFee(why.candidate.package.size)
      ensures Valid() && WithinLimits() && pool.Acyclic()
      ensures Justified(pool, nBlockMaxWeight, nBlockWeight, nBlockSigOpsCost, fIncludeWitness, minFee, vtx, inBlock, run, why)
      ensures Built(pool, nBlockMaxWeight, fIncludeWitness, minFee, vtx, chosen)
    {
      hide Valid, WithinLimits, ModifiedInv, ExactButFailed, IsExact, Bounds, WasRefused, pool.Acyclic, Counted, Built, AllTooLarge, Behind;
    }

    lemma StartRecord(order: seq<TxId>, m: ModifiedSet)
      requires Going(order, 0, m, {}) && inBlock == {}
      ensures pool.Acyclic() && Recorded(order, 0, m, {}, [], [])
    {
      hide WithinLimits, ListsPool, ModifiedInv, ExactButFailed, Covered, pool.Acyclic, pool.Valid, Tallied, Listed, AllIncludable;
      BlockElements();
      SomeElement(vtx);
    }

    lemma BlockElements()
      requires Valid()
      ensures Elements(vtx) == inBlock
    {
      hide pool.Valid, Tallied, Listed, AllIncludable;
    }

    lemma CountedNow(order: seq<TxId>, mi: nat, m: ModifiedSet, failed: set<TxId>, c: Candidate)
      requires Going(order, mi, m, failed) && c.t in pool.txs && c.t !in inBlock && pool.Acyclic()
      requires Bounds(pool, inBlock, c.t, c.package) && (c.t !in failed ==> IsExact(pool, inBlock, c.t, c.package))
      ensures Counted(pool, nBlockMaxWeight, fIncludeWitness, vtx, inBlock, c)
      ensures Elements(vtx) == inBlock <= pool.txs.Keys && ListsPool(pool, order)
    {
      hide Valid, WithinLimits, ModifiedInv, ExactButFailed, IsExact, Bounds, WasRefused, pool.Acyclic;
      BlockElements();
    }

    lemma AddedRecord(order: seq<TxId>, next: nat, was: seq<TxId>, m: ModifiedSet, failed: set<TxId>, chosen: seq<Choice>, c: Candidate)
      requires pool.Acyclic() && Going(order, next, m, failed)
      requires Built(pool, nBlockMaxWeight, fIncludeWitness, minFee, was, chosen)
      requires Elements(was) <= pool.txs.Keys && Counted(pool, nBlockMaxWeight, fIncludeWitness, was, Elements(was), c)
      requires was <= vtx && inBlock == Elements(was) + Missing(pool, Elements(was), c.t) && c.package.modFees >= minFee(c.package.size)
      ensures Recorded(order, next, m, failed, chosen + [Choice(|was|, c)], [])
    {
      hide Valid, WithinLimits, ListsPool, ModifiedInv, ExactButFailed, Covered, pool.Acyclic, Counted, Built, Missing;
      BlockElements();
      BuiltOn(pool, nBlockMaxWeight, fIncludeWitness, minFee, was, vtx, chosen, c);
    }

    lemma FailedRecord(order: seq<TxId>, mi: nat, before: ModifiedSet, gone: set<TxId>, chosen: seq<Choice>, run: seq<Candidate>,
                       c: Candidate, fUsingModified: bool, next: nat, m: ModifiedSet, failed: set<TxId>, fits: bool)
      requires pool.Acyclic() && Recorded(order, mi, before, gone, chosen, run) && ListsPool(pool, order)
      requires Counted(pool, nBlockMaxWeight, fIncludeWitness, vtx, inBlock, c)
      requires fits || nBlockWeight + 4 * c.package.size >= nBlockMaxWeight || nBlockSigOpsCost + c.package.sigOpCost >= 80000
      requires if fUsingModified then c.t in before && next == mi && m == before - {c.t} && failed == gone + {c.t}
               else mi < |order| && c.t == order[mi] && c.t !in before && c.t !in gone && next == mi + 1 && m == before && failed == gone
      ensures Recorded(order, next, m, failed, chosen, if fits then run else run + [c])
    {
      hide Behind, Built, AllTooLarge, Counted, pool.Acyclic;
      LeftBehind(order, mi, before, gone, run, c, fUsingModified, next, m, failed);
      if !fits {
        OneMoreFailed(pool, nBlockMaxWeight, nBlockWeight, nBlockSigOpsCost, fIncludeWitness, vtx, inBlock, run, c);
      }
    }

    lemma Stopped(order: seq<TxId>, mi: nat, m: ModifiedSet, failed: set<TxId>, chosen: seq<Choice>, run: seq<Candidate>)
      requires Going(order, mi, m, failed) && mi == |order| && m == map[]
      requires pool.Acyclic() && Recorded(order, mi, m, failed, chosen, run)
      requires !(|run| > 1000 && nBlockWeight > nBlockMaxWeight - 4000)
      ensures Valid() && WithinLimits() && pool.Acyclic()
      ensures Justified(pool, nBlockMaxWeight, nBlockWeight, nBlockSigOpsCost, fIncludeWitness, minFee, vtx, inBlock, run, Exhausted)
      ensures Built(pool, nBlockMaxWeight, fIncludeWitness, minFee, vtx, chosen)
    {
      hide Valid, WithinLimits, Covered, ModifiedInv, ExactButFailed, pool.Acyclic, Justified, Built, AllTooLarge, Behind;
      CoveredEnd(pool, nBlockMaxWeight, nBlockWeight, nBlockSigOpsCost, fIncludeWitness, minFee, vtx, inBlock, order[mi..], m, failed, run);
    }

    /** The selection part of `CreateNewBlock`: a fresh template is filled, and the coinbase's
        place in the fee column takes the negated total. */
    method CreateNewBlock(order: seq<TxId>, includeWitness: bool) returns (nPackagesSelected: nat, ghost chosen: seq<Choice>, ghost run: seq<Candidate>, ghost why: Stop)
      requires Valid() && ListsPool(pool, order)
      modifies this
      ensures Valid() && pool.Acyclic() && fIncludeWitness == includeWitness
      ensures Ordered(pool, inBlock, vtx) && inBlock <= pool.txs.Keys && AllIncludable(pool, includeWitness, inBlock)
      ensures 4000 + Sum(pool.Weights(), inBlock) <= nBlockMaxWeight <= 32000000
      ensures 400 + Sum(pool.SigOps(), inBlock) < 80000
      ensures forall t <- inBlock :: t in pool.txs && pool.txs[t].final && (includeWitness || !pool.txs[t].hasWitness)
      ensures nFees == Sum(pool.Fees(), inBlock) && SeqSum(vTxFees) == 0
      ensures Justified(pool, nBlockMaxWeight, nBlockWeight, nBlockSigOpsCost, fIncludeWitness, minFee, vtx, inBlock, run, why)
      ensures |chosen| == nPackagesSelected && Built(pool, nBlockMaxWeight, fIncludeWitness, minFee, vtx, chosen)
    {
      hide Template, Tallied, Justified, Built, ListsPool, Ordered, Listed, SeqSum, AllIncludable, pool.Valid, pool.Acyclic, pool.Closed;
      ResetBlock();
      Facts();
      EitherWitness(includeWitness);
      fIncludeWitness := includeWitness;
      nPackagesSelected, chosen, run, why := AddPackageTxs(order);
      AllMayGoIn();
      Finished();
      vTxFees := vTxFees[0 := -nFees];
    }

    lemma AllMayGoIn()
      requires Valid()
      ensures forall t <- inBlock :: t in pool.txs && pool.txs[t].final && (fIncludeWitness || !pool.txs[t].hasWitness)
    {
      hide Ordered, Listed, Tallied, pool.Valid;
    }

    /** What the totals say about the transactions themselves. */
    lemma Finished()
      requires Valid() && WithinLimits()
      ensures pool.Acyclic() && Ordered(pool, inBlock, vtx) && inBlock <= pool.txs.Keys && AllIncludable(pool, fIncludeWitness, inBlock)
      ensures COINBASE_WEIGHT + Sum(pool.Weights(), inBlock) <= nBlockMaxWeight
      ensures COINBASE_SIGOPS + Sum(pool.SigOps(), inBlock) < MAX_BLOCK_SIGOPS_COST
      ensures nFees == Sum(pool.Fees(), inBlock) && |vTxFees| > 0 && SeqSum(vTxFees[0 := -nFees]) == 0
      ensures Template(pool, fIncludeWitness, inBlock, vtx, vTxFees[0 := -nFees], vTxSigOpsCost, nBlockWeight, nBlockSigOpsCost, nFees, nBlockTx)
    {
      hide Template, Ordered, Listed, AllIncludable, SeqSum, pool.Valid, pool.Acyclic;
      TemplateFacts(pool, fIncludeWitness, inBlock, vtx, vTxFees, vTxSigOpsCost, nBlockWeight, nBlockSigOpsCost, nFees, nBlockTx);
      CoinbaseFee(-nFees);
    }

    lemma EitherWitness(includeWitness: bool)
      requires Valid() && inBlock == {}
      ensures Template(pool, includeWitness, inBlock, vtx, vTxFees, vTxSigOpsCost, nBlockWeight, nBlockSigOpsCost, nFees, nBlockTx)
    {
      hide Ordered, Tallied, Listed, pool.Valid;
    }

    /** The coinbase's place in the fee column is free for any value. */
    lemma CoinbaseFee(x: int)
      requires Valid()
      ensures |vTxFees| > 0 && SeqSum(vTxFees[0 := x]) == x + nFees
      ensures Template(pool, fIncludeWitness, inBlock, vtx, vTxFees[0 := x], vTxSigOpsCost, nBlockWeight, nBlockSigOpsCost, nFees, nBlockTx)
    {
      hide Ordered, Tallied, AllIncludable, pool.Valid;
      assert vTxFees[0 := x][1..] == vTxFees[1..];
    }
  }
}
