/**
 Block package selection (src/miner.cpp): a greedy choice of transaction packages whose
 cached totals are repaired lazily as ancestors enter the block.
 */
module Miner {
  import opened Mempool

  const MAX_BLOCK_WEIGHT: int := 32000000
  const MAX_BLOCK_SIGOPS_COST: int := 80000
  const COINBASE_WEIGHT: int := 4000
  const COINBASE_SIGOPS: int := 400
  const MAX_CONSECUTIVE_FAILURES: int := 1000

  /** `CTxMemPoolModifiedEntry`: totals of a transaction and its ancestors outside the block. */
  datatype Modified = Modified(size: int, modFees: int, sigOpCost: int)

  type ModifiedSet = map<TxId, Modified>

  // ---------------------------------------------------------------- what is kept

  /** The block lists each transaction once, and after everything it depends on. */
  ghost predicate Ordered(p: Pool, inBlock: set<TxId>, vtx: seq<TxId>) {
    && inBlock <= p.ancestors.Keys
    && (forall t :: t in vtx <==> t in inBlock)
    && (forall i, j | 0 <= i < j < |vtx| :: vtx[i] != vtx[j])
    && (forall i, a | 0 <= i < |vtx| && a in p.ancestors[vtx[i]] :: a in vtx[..i])
  }

  /** What a transaction's package still lacks in the block. */
  ghost function Missing(p: Pool, inBlock: set<TxId>, t: TxId): (r: set<TxId>)
    requires p.Acyclic() && t in p.txs
    ensures r <= p.txs.Keys
  {
    p.Package(t) - inBlock
  }

  /** A cached entry is for a transaction outside the block, and its size and signature
      operations lie between those of what is missing and those of the whole package. */
  ghost predicate Bounds(p: Pool, inBlock: set<TxId>, t: TxId, e: Modified)
    requires p.Acyclic()
  {
    && t in p.txs && t !in inBlock
    && Sum(p.Sizes(), Missing(p, inBlock, t)) <= e.size <= p.txs[t].sizeWithAncestors
    && Sum(p.SigOps(), Missing(p, inBlock, t)) <= e.sigOpCost <= p.txs[t].sigOpCostWithAncestors
  }

  ghost predicate ModifiedInv(p: Pool, inBlock: set<TxId>, m: ModifiedSet)
    requires p.Acyclic()
  {
    forall t <- m :: Bounds(p, inBlock, t, m[t])
  }

  // ---------------------------------------------------------------- UpdatePackagesForAdded

  /** `CTxMemPoolModifiedEntry(iter)`. */
  function FullTotals(p: Pool, t: TxId): Modified
    requires t in p.txs
  {
    Modified(p.txs[t].sizeWithAncestors, p.txs[t].modFeesWithAncestors, p.txs[t].sigOpCostWithAncestors)
  }

  /** The entry for `d` once the transactions of `done`, out of those just added, have been
      accounted for: it exists if it did before or if one of them is an ancestor, and its
      size and signature operations have come down by exactly theirs. Its fees come down by
      their base fees, but for the one that made the entry, which is charged at its modified fee. */
  ghost predicate Accounted(p: Pool, before: ModifiedSet, m: ModifiedSet, added: set<TxId>, done: set<TxId>, d: TxId)
    requires d in p.txs && d in p.ancestors && done <= p.txs.Keys
  {
    if d in added then d !in m
    else
      && (d in m <==> d in before || p.ancestors[d] * done != {})
      && (d in m ==>
            var base := if d in before then before[d] else FullTotals(p, d);
            && m[d].size == base.size - Sum(p.Sizes(), p.ancestors[d] * done)
            && m[d].sigOpCost == base.sigOpCost - Sum(p.SigOps(), p.ancestors[d] * done)
            && FeesLowered(p, d in before, base.modFees, p.ancestors[d] * done, m[d].modFees))
  }

  /** The fees left when `gone` has been taken out of an entry that was there, or of a new one. */
  ghost predicate FeesLowered(p: Pool, there: bool, base: int, gone: set<TxId>, fees: int)
    requires gone <= p.txs.Keys
  {
    if there then fees == base - Sum(p.Fees(), gone)
    else exists first <- gone :: fees == base - p.txs[first].modFee - Sum(p.Fees(), gone - {first})
  }

  /** Without prioritisation there is only one fee. */
  lemma OneFee(p: Pool, there: bool, base: int, gone: set<TxId>, fees: int)
    requires gone <= p.txs.Keys && FeesLowered(p, there, base, gone, fees) && p.Fees() == p.ModFees()
    ensures fees == base - Sum(p.ModFees(), gone)
  {
    if !there {
      var first: TxId :| first in gone && fees == base - p.txs[first].modFee - Sum(p.Fees(), gone - {first});
      SumTake(p.Fees(), gone, first);
      assert p.ModFees()[first] == p.Fees()[first];
    }
  }

  lemma FeesStep(p: Pool, there: bool, base: int, gone: set<TxId>, fees: int, it: TxId)
    requires gone <= p.txs.Keys && it in p.txs && it !in gone
    requires if gone == {} && !there then fees == base - p.txs[it].modFee
             else FeesLowered(p, there, base, gone, fees + p.txs[it].fee)
    ensures FeesLowered(p, there, base, gone + {it}, fees)
  {
    SumPut(p.Fees(), gone, it);
    if !there {
      if gone == {} {
        assert gone + {it} - {it} == {};
      } else {
        var first: TxId :| first in gone && fees + p.txs[it].fee == base - p.txs[first].modFee - Sum(p.Fees(), gone - {first});
        assert gone + {it} - {first} == gone - {first} + {it};
        SumPut(p.Fees(), gone - {first}, it);
      }
    }
  }

  /** `e` is `base` with `it` taken out: at its modified fee from a new entry, else at its base fee. */
  predicate Lowered(p: Pool, isNew: bool, base: Modified, it: TxId, e: Modified)
    requires it in p.txs
  {
    && e.size == base.size - p.Size(it) && e.sigOpCost == base.sigOpCost - p.txs[it].sigOpCost
    && e.modFees == base.modFees - if isNew then p.txs[it].modFee else p.txs[it].fee
  }

  lemma AccountStep(p: Pool, before: ModifiedSet, m: ModifiedSet, added: set<TxId>, done: set<TxId>, it: TxId, d: TxId, e: Modified)
    requires d in p.txs && d in p.ancestors && done <= p.txs.Keys && it in p.txs && it !in done
    requires Accounted(p, before, m, added, done, d) && d !in added && it in p.ancestors[d]
    requires Lowered(p, d !in m, if d in m then m[d] else FullTotals(p, d), it, e)
    ensures Accounted(p, before, m[d := e], added, done + {it}, d)
  {
    var was := p.ancestors[d] * done;
    assert p.ancestors[d] * (done + {it}) == was + {it};
    SumPut(p.Sizes(), was, it);
    SumPut(p.SigOps(), was, it);
    if d !in m {
      assert was == {};
    }
    var base := if d in before then before[d] else FullTotals(p, d);
    hide FeesLowered, Sum;
    FeesStep(p, d in before, base.modFees, was, e.modFees, it);
  }

  lemma AccountOther(p: Pool, before: ModifiedSet, m: ModifiedSet, added: set<TxId>, done: set<TxId>, it: TxId, d: TxId)
    requires d in p.txs && d in p.ancestors && done <= p.txs.Keys && it in p.txs
    requires Accounted(p, before, m, added, done, d)
    requires it !in p.ancestors[d] || d in added
    ensures Accounted(p, before, m, added, done + {it}, d)
  {
    if it !in p.ancestors[d] {
      assert p.ancestors[d] * (done + {it}) == p.ancestors[d] * done;
    }
  }

  lemma AccountElsewhere(p: Pool, before: ModifiedSet, m: ModifiedSet, desc: TxId, e: Modified, added: set<TxId>, done: set<TxId>, d: TxId)
    requires d in p.txs && d in p.ancestors && done <= p.txs.Keys && d != desc
    requires Accounted(p, before, m, added, done, d)
    ensures Accounted(p, before, m[desc := e], added, done, d)
  {
  }

  ghost predicate AllAccounted(p: Pool, before: ModifiedSet, m: ModifiedSet, added: set<TxId>, done: set<TxId>)
    requires p.ancestors.Keys == p.txs.Keys && done <= p.txs.Keys
  {
    m.Keys <= p.txs.Keys && forall d <- p.txs :: Accounted(p, before, m, added, done, d)
  }

  /** In the middle of the inner loop: the descendants in `todo` are still to come. */
  ghost predicate PartlyAccounted(p: Pool, before: ModifiedSet, m: ModifiedSet, added: set<TxId>, done: set<TxId>, it: TxId, todo: set<TxId>)
    requires p.ancestors.Keys == p.txs.Keys && done <= p.txs.Keys && it in p.txs
  {
    && m.Keys <= p.txs.Keys
    && (forall d <- p.txs | d in todo :: Accounted(p, before, m, added, done, d))
    && (forall d <- p.txs | d !in todo :: Accounted(p, before, m, added, done + {it}, d))
  }

  lemma InnerStart(p: Pool, before: ModifiedSet, m: ModifiedSet, added: set<TxId>, done: set<TxId>, it: TxId)
    requires p.ancestors.Keys == p.txs.Keys && done <= p.txs.Keys && it in p.txs && it in added
    requires AllAccounted(p, before, m, added, done)
    ensures PartlyAccounted(p, before, m, added, done, it, p.Descendants(it))
  {
    hide Accounted;
    forall d | d in p.txs && d !in p.Descendants(it) ensures Accounted(p, before, m, added, done + {it}, d) {
      AccountOther(p, before, m, added, done, it, d);
    }
  }

  lemma InnerStep(p: Pool, before: ModifiedSet, m: ModifiedSet, added: set<TxId>, done: set<TxId>, it: TxId, todo: set<TxId>,
                  desc: TxId, e: Modified)
    requires p.ancestors.Keys == p.txs.Keys && done <= p.txs.Keys && it in p.txs && it !in done && it in added
    requires PartlyAccounted(p, before, m, added, done, it, todo) && desc in todo && desc in p.Descendants(it)
    ensures desc in added ==> PartlyAccounted(p, before, m, added, done, it, todo - {desc})
    ensures desc !in added && Lowered(p, desc !in m, if desc in m then m[desc] else FullTotals(p, desc), it, e) ==>
      PartlyAccounted(p, before, m[desc := e], added, done, it, todo - {desc})
  {
    hide Accounted;
    if desc in added {
      AccountOther(p, before, m, added, done, it, desc);
    } else {
      if Lowered(p, desc !in m, if desc in m then m[desc] else FullTotals(p, desc), it, e) {
        AccountStep(p, before, m, added, done, it, desc, e);
        forall d | d in p.txs && d != desc
          ensures d in todo ==> Accounted(p, before, m[desc := e], added, done, d)
          ensures d !in todo ==> Accounted(p, before, m[desc := e], added, done + {it}, d)
        {
          if d in todo {
            AccountElsewhere(p, before, m, desc, e, added, done, d);
          } else {
            AccountElsewhere(p, before, m, desc, e, added, done + {it}, d);
          }
        }
      }
    }
  }

  /** After a package has been added, its descendants' cached totals are brought up to date. */
  method UpdatePackagesForAdded(p: Pool, alreadyAdded: set<TxId>, mapModifiedTx: ModifiedSet) returns (m: ModifiedSet)
    requires p.ancestors.Keys == p.txs.Keys && alreadyAdded <= p.txs.Keys
    requires mapModifiedTx.Keys <= p.txs.Keys && mapModifiedTx.Keys !! alreadyAdded
    ensures AllAccounted(p, mapModifiedTx, m, alreadyAdded, alreadyAdded)
  {
    hide AllAccounted;
    m := mapModifiedTx;
    NothingAccounted(p, m, alreadyAdded);
    var todo := alreadyAdded;
    while todo != {}
      invariant todo <= alreadyAdded && AllAccounted(p, mapModifiedTx, m, alreadyAdded, alreadyAdded - todo)
      decreases |todo|
    {
      var it :| it in todo;
      m := AccountFor(p, it, alreadyAdded, alreadyAdded - todo, mapModifiedTx, m);
      assert alreadyAdded - todo + {it} == alreadyAdded - (todo - {it});
      todo := todo - {it};
    }
    assert alreadyAdded - todo == alreadyAdded;
  }

  lemma NothingAccounted(p: Pool, m: ModifiedSet, added: set<TxId>)
    requires p.ancestors.Keys == p.txs.Keys && m.Keys <= p.txs.Keys && m.Keys !! added
    ensures added - added <= p.txs.Keys && AllAccounted(p, m, m, added, added - added)
  {
    forall d | d in p.txs ensures Accounted(p, m, m, added, added - added, d) {
      assert p.ancestors[d] * (added - added) == {};
    }
  }

  /** The inner loop: all descendants of one added transaction. */
  method AccountFor(p: Pool, it: TxId, alreadyAdded: set<TxId>, ghost done: set<TxId>, ghost before: ModifiedSet, m: ModifiedSet)
    returns (m': ModifiedSet)
    requires p.ancestors.Keys == p.txs.Keys && alreadyAdded <= p.txs.Keys && done <= alreadyAdded
    requires it in alreadyAdded && it !in done && AllAccounted(p, before, m, alreadyAdded, done)
    ensures AllAccounted(p, before, m', alreadyAdded, done + {it})
  {
    hide PartlyAccounted, AllAccounted;
    m' := m;
    InnerStart(p, before, m, alreadyAdded, done, it);
    var todo := p.Descendants(it);
    while todo != {}
      invariant todo <= p.Descendants(it) && PartlyAccounted(p, before, m', alreadyAdded, done, it, todo)
      decreases |todo|
    {
      var desc :| desc in todo;
      if desc in alreadyAdded {
        InnerStep(p, before, m', alreadyAdded, done, it, todo, desc, FullTotals(p, desc));
      } else {
        var e;
        if desc !in m' {
          e := FullTotals(p, desc);
          e := Modified(e.size - p.Size(it), e.modFees - p.txs[it].modFee, e.sigOpCost - p.txs[it].sigOpCost);
        } else {
          e := m'[desc];
          e := Modified(e.size - p.Size(it), e.modFees - p.txs[it].fee, e.sigOpCost - p.txs[it].sigOpCost);
        }
        InnerStep(p, before, m', alreadyAdded, done, it, todo, desc, e);
        m' := m'[desc := e];
      }
      todo := todo - {desc};
    }
    InnerEnd(p, before, m', alreadyAdded, done, it);
  }

  lemma InnerEnd(p: Pool, before: ModifiedSet, m: ModifiedSet, added: set<TxId>, done: set<TxId>, it: TxId)
    requires p.ancestors.Keys == p.txs.Keys && done <= p.txs.Keys && it in p.txs
    requires PartlyAccounted(p, before, m, added, done, it, {})
    ensures AllAccounted(p, before, m, added, done + {it})
  {
  }

  // ---------------------------------------------------------------- the invariants

  lemma PoolTotals(p: Pool, inBlock: set<TxId>, t: TxId)
    requires p.Valid() && t in p.txs
    ensures p.txs[t].sizeWithAncestors >= Sum(p.Sizes(), Missing(p, inBlock, t))
    ensures p.txs[t].sigOpCostWithAncestors >= Sum(p.SigOps(), Missing(p, inBlock, t))
  {
    var all, there := p.Package(t), p.Package(t) * inBlock;
    assert Missing(p, inBlock, t) == all - there;
    SumMinus(p.Sizes(), all, there);
    SumMinus(p.SigOps(), all, there);
    SumNonNegative(p.Sizes(), there);
    SumNonNegative(p.SigOps(), there);
  }

  /** Adding a package that is disjoint from the block keeps every cached total an upper
      bound, and no cached entry is for a transaction that is now in the block. */
  lemma BoundsRepaired(p: Pool, inBlock: set<TxId>, added: set<TxId>, before: ModifiedSet, m: ModifiedSet)
    requires p.Valid() && p.Closed(inBlock) && added <= p.txs.Keys && added !! inBlock
    requires ModifiedInv(p, inBlock, before)
    requires AllAccounted(p, before, m, added, added)
    ensures ModifiedInv(p, inBlock + added, m)
  {
    hide Accounted, Bounds;
    assert p.Acyclic();
    forall d | d in m ensures Bounds(p, inBlock + added, d, m[d]) {
      assert Accounted(p, before, m, added, added, d);
      EntryRepaired(p, inBlock, added, before, m, d);
    }
  }

  lemma EntryRepaired(p: Pool, inBlock: set<TxId>, added: set<TxId>, before: ModifiedSet, m: ModifiedSet, d: TxId)
    requires p.Valid() && p.Closed(inBlock) && added <= p.txs.Keys && added !! inBlock
    requires d in p.txs && d in m && Accounted(p, before, m, added, added, d)
    requires d in before ==> Bounds(p, inBlock, d, before[d])
    ensures Bounds(p, inBlock + added, d, m[d])
  {
    assert p.Acyclic();
    if d !in before {
      StillOutside(p, inBlock, added, before, m, d);
      PoolTotals(p, inBlock, d);
    }
    hide Accounted;
    BoundRepaired(p, inBlock, added, before, m, d);
  }

  lemma StillOutside(p: Pool, inBlock: set<TxId>, added: set<TxId>, before: ModifiedSet, m: ModifiedSet, d: TxId)
    requires p.Acyclic() && p.Closed(inBlock) && added <= p.txs.Keys && added !! inBlock
    requires d in m && d in p.txs && Accounted(p, before, m, added, added, d) && d !in before
    ensures d !in inBlock
  {
    var a :| a in p.ancestors[d] * added;
    assert a in p.ancestors[d];
  }

  lemma BoundRepaired(p: Pool, inBlock: set<TxId>, added: set<TxId>, before: ModifiedSet, m: ModifiedSet, d: TxId)
    requires p.Acyclic() && added <= p.txs.Keys && added !! inBlock
    requires d in m && d in p.txs && Accounted(p, before, m, added, added, d) && d !in inBlock
    requires Bounds(p, inBlock, d, if d in before then before[d] else FullTotals(p, d))
    ensures Bounds(p, inBlock + added, d, m[d])
  {
    var gone, missing := p.ancestors[d] * added, Missing(p, inBlock, d);
    assert gone <= missing;
    assert Missing(p, inBlock + added, d) == missing - gone;
    hide Missing;
    SumMinus(p.Sizes(), missing, gone);
    SumMinus(p.SigOps(), missing, gone);
    SumNonNegative(p.Sizes(), gone);
    SumNonNegative(p.SigOps(), gone);
  }

  // ---------------------------------------------------------------- exact totals

  /** The totals are those of what is missing; so are the fees, where none has been prioritised. */
  ghost predicate IsExact(p: Pool, inBlock: set<TxId>, t: TxId, e: Modified)
    requires p.Acyclic()
  {
    && t in p.txs && t !in inBlock
    && e.size == Sum(p.Sizes(), Missing(p, inBlock, t)) && e.sigOpCost == Sum(p.SigOps(), Missing(p, inBlock, t))
    && (p.Fees() == p.ModFees() ==> e.modFees == Sum(p.ModFees(), Missing(p, inBlock, t)))
  }

  /** Only an entry that failed before and was put back can be more than what is missing: any other
      is exact, and a transaction without an entry has no ancestor in the block. */
  ghost predicate ExactButFailed(p: Pool, inBlock: set<TxId>, m: ModifiedSet, failed: set<TxId>)
    requires p.Acyclic()
  {
    && (forall t <- m | t !in failed :: IsExact(p, inBlock, t, m[t]))
    && (forall t <- p.txs | t !in inBlock && t !in m && t !in failed :: p.ancestors[t] !! inBlock)
  }

  lemma FullIsExact(p: Pool, inBlock: set<TxId>, t: TxId)
    requires p.Valid() && t in p.txs && t !in inBlock && p.ancestors[t] !! inBlock
    ensures IsExact(p, inBlock, t, FullTotals(p, t))
  {
    assert Missing(p, inBlock, t) == p.Package(t);
  }

  lemma ExactStep(p: Pool, inBlock: set<TxId>, added: set<TxId>, before: ModifiedSet, m: ModifiedSet, d: TxId)
    requires p.Acyclic() && added <= p.txs.Keys && added !! inBlock
    requires d in m && d in p.txs && Accounted(p, before, m, added, added, d) && d !in inBlock
    requires IsExact(p, inBlock, d, if d in before then before[d] else FullTotals(p, d))
    ensures IsExact(p, inBlock + added, d, m[d])
  {
    var gone, missing := p.ancestors[d] * added, Missing(p, inBlock, d);
    assert gone <= missing && Missing(p, inBlock + added, d) == missing - gone;
    SumMinus(p.Sizes(), missing, gone);
    SumMinus(p.SigOps(), missing, gone);
    SumMinus(p.ModFees(), missing, gone);
    hide Missing, FeesLowered, Sum;
    if p.Fees() == p.ModFees() {
      OneFee(p, d in before, (if d in before then before[d] else FullTotals(p, d)).modFees, gone, m[d].modFees);
    }
  }

  /** Adding a package keeps exact entries exact, and makes an entry for every transaction outside
      the block that gets an ancestor in it. */
  lemma ExactRepaired(p: Pool, inBlock: set<TxId>, added: set<TxId>, was: ModifiedSet, m: ModifiedSet, failed: set<TxId>)
    requires p.Valid() && p.Closed(inBlock) && added <= p.txs.Keys && added !! inBlock && was.Keys <= p.txs.Keys
    requires ExactButFailed(p, inBlock, was, failed) && AllAccounted(p, was - added, m, added, added)
    ensures ExactButFailed(p, inBlock + added, m, failed)
  {
    hide Accounted, IsExact, FullTotals;
    var before := was - added;
    forall d | d in m && d !in failed ensures IsExact(p, inBlock + added, d, m[d]) {
      assert Accounted(p, before, m, added, added, d);
      NotAdded(p, before, m, added, d);
      if d !in before {
        StillOutside(p, inBlock, added, before, m, d);
        FullIsExact(p, inBlock, d);
      } else {
        ExactOutside(p, inBlock, d, before[d]);
      }
      ExactStep(p, inBlock, added, before, m, d);
    }
    forall t | t in p.txs && t !in inBlock + added && t !in m && t !in failed ensures p.ancestors[t] !! inBlock + added {
      assert Accounted(p, before, m, added, added, t);
      NotAdded(p, before, m, added, t);
    }
  }

  lemma NotAdded(p: Pool, before: ModifiedSet, m: ModifiedSet, added: set<TxId>, d: TxId)
    requires d in p.txs && d in p.ancestors && added <= p.txs.Keys && Accounted(p, before, m, added, added, d)
    ensures d in m ==> d !in added
    ensures d !in added && d !in m ==> d !in before && p.ancestors[d] * added == {}
  {
  }

  lemma ExactOutside(p: Pool, inBlock: set<TxId>, t: TxId, e: Modified)
    requires p.Acyclic() && IsExact(p, inBlock, t, e)
    ensures t in p.txs && t !in inBlock
  {
  }

  // ---------------------------------------------------------------- cached fees

  ghost predicate FeesAreTrue(p: Pool, inBlock: set<TxId>, t: TxId, e: Modified)
    requires p.Acyclic() && t in p.txs
  {
    e.modFees == Sum(p.ModFees(), Missing(p, inBlock, t))
  }

  /** What was taken off at the base fee: all, but for the one that made the entry. */
  lemma TakenOff(p: Pool, there: bool, base: int, gone: set<TxId>, fees: int) returns (byBase: set<TxId>)
    requires gone <= p.txs.Keys && FeesLowered(p, there, base, gone, fees)
    ensures if there then byBase == gone else exists first <- gone :: byBase == gone - {first}
    ensures byBase <= p.txs.Keys
    ensures fees == base - Sum(p.ModFees(), gone) <==> Sum(p.Fees(), byBase) == Sum(p.ModFees(), byBase)
  {
    byBase := gone;
    if !there {
      var first: TxId :| first in gone && fees == base - p.txs[first].modFee - Sum(p.Fees(), gone - {first});
      SumTake(p.ModFees(), gone, first);
      byBase := gone - {first};
    }
  }

  /** True fees stay true if and only if those just added have in sum the same base fees as
      modified fees, without the one that made the entry. */
  lemma FeesStayTrue(p: Pool, inBlock: set<TxId>, added: set<TxId>, before: ModifiedSet, m: ModifiedSet, d: TxId) returns (byBase: set<TxId>)
    requires p.Acyclic() && added <= p.txs.Keys && added !! inBlock
    requires d in m && d in p.txs && Accounted(p, before, m, added, added, d) && d !in inBlock
    requires FeesAreTrue(p, inBlock, d, if d in before then before[d] else FullTotals(p, d))
    ensures var gone := p.ancestors[d] * added;
      if d in before then byBase == gone else exists first <- gone :: byBase == gone - {first}
    ensures byBase <= p.txs.Keys
    ensures FeesAreTrue(p, inBlock + added, d, m[d]) <==> Sum(p.Fees(), byBase) == Sum(p.ModFees(), byBase)
  {
    var gone, missing := p.ancestors[d] * added, Missing(p, inBlock, d);
    assert gone <= missing && Missing(p, inBlock + added, d) == missing - gone;
    hide Sum, FeesLowered, Missing;
    SumMinus(p.ModFees(), missing, gone);
    byBase := TakenOff(p, d in before, (if d in before then before[d] else FullTotals(p, d)).modFees, gone, m[d].modFees);
  }

  /** Two parents, 1 prioritised, and a child. */
  function Family(): Pool {
    var one := Entry(4, 0, 1, 1, true, false, 1, 1, 0);
    var txs := map[0 := one, 1 := one.(modFee := 2, modFeesWithAncestors := 2), 2 := one.(sizeWithAncestors := 3, modFeesWithAncestors := 4)];
    Pool(txs, map[0 := {}, 1 := {}, 2 := {0, 1}], 0)
  }

  ghost predicate TotalsAreRight(p: Pool, t: TxId)
    requires t in p.txs
  {
    && t in p.ancestors && p.Package(t) <= p.txs.Keys
    && FullTotals(p, t) == Modified(Sum(p.Sizes(), p.Package(t)), Sum(p.ModFees(), p.Package(t)), Sum(p.SigOps(), p.Package(t)))
  }

  lemma FamilyMembers()
    ensures var p := Family(); p.txs.Keys == {0, 1, 2} == p.ancestors.Keys && p.ancestors[0] == p.ancestors[1] == {} && p.ancestors[2] == {0, 1}
    ensures var p := Family(); p.txs[0].fee == p.txs[1].fee == p.txs[0].modFee == p.txs[2].modFee == 1 && p.txs[1].modFee == 2
    ensures var p := Family(); forall t <- p.txs :: p.Size(t) == 1 && p.txs[t].sigOpCost == 0
  {
  }

  lemma FamilyIsAcyclic()
    ensures Family().Acyclic()
  {
    hide Family;
    FamilyMembers();
  }

  lemma FamilyTotals(t: TxId)
    requires t in Family().txs
    ensures TotalsAreRight(Family(), t)
  {
    hide Sum;
    var p := Family();
    assert p.Package(t) == if t == 2 then {0, 1, 2} else {t};
    SumsOf(p.Sizes());
    SumsOf(p.ModFees());
    SumsOf(p.SigOps());
  }

  lemma FamilyIsValid()
    ensures Family().Valid()
  {
    hide Family, Sum;
    FamilyIsAcyclic();
    forall t <- Family().txs ensures TotalsAreRight(Family(), t) {
      FamilyTotals(t);
    }
  }

  /** With parent 0 in the block and parent 1 added, the fees cached for the child become wrong. */
  lemma PrioritisedParent(m: ModifiedSet) returns (before: ModifiedSet)
    ensures Family().Valid() && 2 in before && FeesAreTrue(Family(), {0}, 2, before[2])
    ensures AllAccounted(Family(), before, m, {1}, {1}) ==> 2 in m && !FeesAreTrue(Family(), {0} + {1}, 2, m[2])
  {
    hide Sum, Family;
    var p := Family();
    FamilyIsValid();
    FamilyMembers();
    before := map[2 := Modified(2, 3, 0)];
    assert Missing(p, {0}, 2) == {1, 2};
    SumsOf(p.ModFees());
    SumsOf(p.Fees());
    if AllAccounted(p, before, m, {1}, {1}) {
      ChildIsWrong(before, m);
    }
  }

  lemma ChildIsWrong(before: ModifiedSet, m: ModifiedSet)
    requires Family().Valid() && AllAccounted(Family(), before, m, {1}, {1})
    requires 2 in before && FeesAreTrue(Family(), {0}, 2, before[2])
    ensures 2 in m && !FeesAreTrue(Family(), {0} + {1}, 2, m[2])
  {
    hide Sum, Family, FeesAreTrue, FeesLowered;
    var p := Family();
    FamilyMembers();
    assert Accounted(p, before, m, {1}, {1}, 2) && p.ancestors[2] * {1} == {1};
    SumsOf(p.ModFees());
    SumsOf(p.Fees());
    var byBase := FeesStayTrue(p, {0}, {1}, before, m, 2);
  }

  lemma SumsOf(col: map<TxId, int>)
    requires col.Keys == {0, 1, 2}
    ensures Sum(col, {0}) == col[0] && Sum(col, {1}) == col[1] && Sum(col, {1, 2}) == col[1] + col[2]
    ensures Sum(col, {0, 1, 2}) == col[0] + col[1] + col[2]
  {
    hide Sum;
    SumOne(col, 0);
    SumOne(col, 1);
    SumPut(col, {1}, 2);
    SumPut(col, {1} + {2}, 0);
    assert {1} + {2} == {1, 2} && {1} + {2} + {0} == {0, 1, 2};
  }

  lemma SumOne(col: map<TxId, int>, x: TxId)
    requires x in col
    ensures Sum(col, {x}) == col[x]
  {
    SumTake(col, {x}, x);
    assert {x} - {x} == {};
  }

  // ---------------------------------------------------------------- order

  lemma FewerModified(p: Pool, inBlock: set<TxId>, m: ModifiedSet, gone: set<TxId>)
    requires p.Valid() && ModifiedInv(p, inBlock, m)
    ensures ModifiedInv(p, inBlock, m - gone)
  {
  }

  lemma OrderedIsClosed(p: Pool, inBlock: set<TxId>, vtx: seq<TxId>)
    requires Ordered(p, inBlock, vtx)
    ensures p.Closed(inBlock)
  {
    forall t, a | t in inBlock && a in p.ancestors[t] ensures a in inBlock {
      var i :| 0 <= i < |vtx| && vtx[i] == t;
      assert a in vtx[..i];
      assert a in vtx;
    }
  }

  lemma OrderedAppend(p: Pool, inBlock: set<TxId>, vtx: seq<TxId>, t: TxId)
    requires Ordered(p, inBlock, vtx) && t in p.ancestors && t !in inBlock && p.ancestors[t] <= inBlock
    ensures Ordered(p, inBlock + {t}, vtx + [t])
  {
    var v := vtx + [t];
    forall i, a | 0 <= i < |v| && a in p.ancestors[v[i]] ensures a in v[..i] {
      if i < |vtx| {
        assert v[..i] == vtx[..i];
      } else {
        assert v[..i] == vtx;
      }
    }
  }

  // ---------------------------------------------------------------- SortForBlock

  /** `CompareTxIterByAncestorCount`. */
  predicate Before(p: Pool, a: TxId, b: TxId)
    requires a in p.ancestors && b in p.ancestors
  {
    if p.CountWithAncestors(a) != p.CountWithAncestors(b)
    then p.CountWithAncestors(a) < p.CountWithAncestors(b)
    else a < b
  }

  ghost predicate Sorted(p: Pool, package: set<TxId>, r: seq<TxId>)
    requires package <= p.ancestors.Keys
  {
    && (forall t :: t in r <==> t in package)
    && (forall i, j | 0 <= i < j < |r| :: r[i] in package && r[j] in package && Before(p, r[i], r[j]))
  }

  /** What `std::sort` leaves: the package in the comparator's order. */
  method SortForBlock(p: Pool, package: set<TxId>) returns (sortedEntries: seq<TxId>)
    requires package <= p.ancestors.Keys
    ensures Sorted(p, package, sortedEntries)
  {
    sortedEntries := [];
    var todo := package;
    while todo != {}
      invariant todo <= package && Sorted(p, package - todo, sortedEntries)
      invariant AllBefore(p, package - todo, todo)
      decreases |todo|
    {
      ghost var first := HasFirst(p, todo);
      var x :| x in todo && IsFirst(p, todo, x);
      SortedAppend(p, package - todo, sortedEntries, x);
      FirstMoves(p, package - todo, todo, x);
      assert package - todo + {x} == package - (todo - {x});
      sortedEntries := sortedEntries + [x];
      todo := todo - {x};
    }
    assert package - {} == package;
  }

  ghost predicate AllBefore(p: Pool, s: set<TxId>, todo: set<TxId>)
    requires s <= p.ancestors.Keys && todo <= p.ancestors.Keys
  {
    forall x, y | x in s && y in todo :: Before(p, x, y)
  }

  lemma FirstMoves(p: Pool, s: set<TxId>, todo: set<TxId>, x: TxId)
    requires s <= p.ancestors.Keys && todo <= p.ancestors.Keys && AllBefore(p, s, todo) && IsFirst(p, todo, x)
    ensures AllBefore(p, s + {x}, todo - {x})
  {
    hide Before;
  }

  lemma SortedAppend(p: Pool, s: set<TxId>, r: seq<TxId>, x: TxId)
    requires s <= p.ancestors.Keys && Sorted(p, s, r) && x in p.ancestors && x !in s
    requires forall y <- s :: Before(p, y, x)
    ensures Sorted(p, s + {x}, r + [x])
  {
    var q := r + [x];
    forall i, j | 0 <= i < j < |q| ensures q[i] in s + {x} && q[j] in s + {x} && Before(p, q[i], q[j]) {
      assert q[i] == r[i] && q[i] in r;
      if j < |r| { assert q[j] == r[j] && q[j] in r; }
    }
  }

  lemma BeforeOrders(p: Pool, x: TxId, y: TxId, z: TxId)
    requires x in p.ancestors && y in p.ancestors && z in p.ancestors
    ensures x != z ==> Before(p, x, z) || Before(p, z, x)
    ensures Before(p, x, z) && Before(p, z, y) ==> Before(p, x, y)
  {
  }

  predicate IsFirst(p: Pool, s: set<TxId>, x: TxId)
    requires s <= p.ancestors.Keys
  {
    x in s && forall y <- s | y != x :: Before(p, x, y)
  }

  lemma FirstWith(p: Pool, s: set<TxId>, x: TxId, z: TxId)
    requires s <= p.ancestors.Keys && x in s && IsFirst(p, s - {x}, z)
    ensures IsFirst(p, s, if Before(p, x, z) then x else z)
  {
    hide Before;
    forall y | y in s && y != x ensures y in s - {x} {}
    BeforeOrders(p, x, z, z);
    forall y | y in s - {x} ensures Before(p, x, z) ==> Before(p, x, y) {
      BeforeOrders(p, x, y, z);
    }
  }

  lemma {:induction false} HasFirst(p: Pool, s: set<TxId>) returns (first: TxId)
    requires s <= p.ancestors.Keys && s != {}
    ensures IsFirst(p, s, first)
    decreases |s|
  {
    hide Before;
    var x :| x in s;
    if s == {x} {
      first := x;
    } else {
      var z := HasFirst(p, s - {x});
      hide IsFirst;
      FirstWith(p, s, x, z);
      first := if Before(p, x, z) then x else z;
    }
  }

  /** In the sorted order every transaction of the package comes after its ancestors, so the
      sorted order is fit for a block that has all the others. */
  lemma SortedIsTopological(p: Pool, package: set<TxId>, r: seq<TxId>, i: nat)
    requires p.Acyclic() && package <= p.txs.Keys && Sorted(p, package, r) && i < |r|
    ensures p.ancestors[r[i]] * package <= (set t | t in r[..i])
  {
    forall a | a in p.ancestors[r[i]] && a in package ensures a in r[..i] {
      var j :| 0 <= j < |r| && r[j] == a;
      assert r[i] in r;
      CountGrows(p, r[i], a);
      assert j < i;
      assert r[..i][j] == a;
    }
  }
}
