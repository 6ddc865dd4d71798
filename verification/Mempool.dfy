/**
 The memory pool as the miner sees it: a finite set of transactions with their in-pool
 ancestors, and totals over sets of transactions.
 */
module Mempool {
  const WITNESS_SCALE_FACTOR: int := 4

  /** `id` order stands for the order of transaction hashes. */
  type TxId = nat

  /** `modFee` is the fee after prioritisation; `final` and `hasWitness` are what the
      transaction-level tests look at; the last three fields are the totals the pool caches
      for a transaction together with its ancestors. */
  datatype Entry = Entry(
    weight: nat, sigOpCost: nat, fee: int, modFee: int, final: bool, hasWitness: bool,
    sizeWithAncestors: int, modFeesWithAncestors: int, sigOpCostWithAncestors: int)

  function Max(a: int, b: int): int {
    if a < b then b else a
  }

  /** `ancestors[t]` is every transaction `t` depends on, directly or not. */
  datatype Pool = Pool(txs: map<TxId, Entry>, ancestors: map<TxId, set<TxId>>, bytesPerSigOp: nat)
  {
    /** The ancestor relation of an acyclic graph over the pool. */
    ghost predicate Acyclic() {
      && ancestors.Keys == txs.Keys
      && (forall t <- txs :: ancestors[t] <= txs.Keys && t !in ancestors[t])
      && (forall t, a | t in txs && a in ancestors[t] :: ancestors[a] <= ancestors[t])
    }

    /** The graph is acyclic and the cached totals are right. */
    ghost predicate Valid() {
      && Acyclic()
      && forall t <- txs ::
           && txs[t].sizeWithAncestors == Sum(Sizes(), Package(t))
           && txs[t].modFeesWithAncestors == Sum(ModFees(), Package(t))
           && txs[t].sigOpCostWithAncestors == Sum(SigOps(), Package(t))
    }

    /** Virtual size: weight, or the signature operations' share if that is more, in units of 4. */
    function Size(t: TxId): nat
      requires t in txs
    {
      (Max(txs[t].weight, txs[t].sigOpCost * bytesPerSigOp) + WITNESS_SCALE_FACTOR - 1) / WITNESS_SCALE_FACTOR
    }

    /** A transaction with everything it depends on. */
    function Package(t: TxId): set<TxId>
      requires t in ancestors
    {
      ancestors[t] + {t}
    }

    /** `CalculateDescendants`: everything that depends on `t`, and `t`. */
    function Descendants(t: TxId): set<TxId> {
      set d | d in ancestors && (d == t || t in ancestors[d])
    }

    function CountWithAncestors(t: TxId): nat
      requires t in ancestors
    {
      |ancestors[t]| + 1
    }

    function Sizes(): map<TxId, int> { map t | t in txs :: Size(t) }
    function Weights(): map<TxId, int> { map t | t in txs :: txs[t].weight }
    function SigOps(): map<TxId, int> { map t | t in txs :: txs[t].sigOpCost }
    function Fees(): map<TxId, int> { map t | t in txs :: txs[t].fee }
    function ModFees(): map<TxId, int> { map t | t in txs :: txs[t].modFee }

    /** Nothing in `s` depends on anything outside it. */
    ghost predicate Closed(s: set<TxId>) {
      s <= ancestors.Keys && forall t, a | t in s && a in ancestors[t] :: a in s
    }
  }

  // ---------------------------------------------------------------- totals

  ghost function Sum(col: map<TxId, int>, s: set<TxId>): int
    requires s <= col.Keys
  {
    if s == {} then 0 else var x :| x in s; col[x] + Sum(col, s - {x})
  }

  lemma {:induction false} SumTake(col: map<TxId, int>, s: set<TxId>, x: TxId)
    requires s <= col.Keys && x in s
    ensures Sum(col, s) == col[x] + Sum(col, s - {x})
    decreases |s|
  {
    var y :| y in s && Sum(col, s) == col[y] + Sum(col, s - {y});
    if y != x {
      SumTake(col, s - {y}, x);
      SumTake(col, s - {x}, y);
      assert s - {y} - {x} == s - {x} - {y};
    }
  }

  lemma SumPut(col: map<TxId, int>, s: set<TxId>, x: TxId)
    requires s <= col.Keys && x in col && x !in s
    ensures Sum(col, s + {x}) == Sum(col, s) + col[x]
  {
    SumTake(col, s + {x}, x);
    assert s + {x} - {x} == s;
  }

  lemma {:induction false} SumJoin(col: map<TxId, int>, s: set<TxId>, r: set<TxId>)
    requires s <= col.Keys && r <= col.Keys && s !! r
    ensures Sum(col, s + r) == Sum(col, s) + Sum(col, r)
    decreases |r|
  {
    if r == {} {
      assert s + r == s;
    } else {
      var x :| x in r;
      assert s + r == s + {x} + (r - {x});
      SumTake(col, r, x);
      SumPut(col, s, x);
      SumJoin(col, s + {x}, r - {x});
    }
  }

  lemma SumMinus(col: map<TxId, int>, s: set<TxId>, r: set<TxId>)
    requires s <= col.Keys && r <= s
    ensures Sum(col, s - r) == Sum(col, s) - Sum(col, r)
  {
    SumJoin(col, s - r, r);
    assert s - r + r == s;
  }

  lemma {:induction false} SumAtMost(a: map<TxId, int>, b: map<TxId, int>, s: set<TxId>)
    requires s <= a.Keys && s <= b.Keys && forall x <- s :: a[x] <= WITNESS_SCALE_FACTOR * b[x]
    ensures Sum(a, s) <= WITNESS_SCALE_FACTOR * Sum(b, s)
    decreases |s|
  {
    if s != {} {
      var x :| x in s;
      SumTake(a, s, x);
      SumTake(b, s, x);
      SumAtMost(a, b, s - {x});
    }
  }

  lemma {:induction false} SumNonNegative(col: map<TxId, int>, s: set<TxId>)
    requires s <= col.Keys && forall x <- s :: col[x] >= 0
    ensures Sum(col, s) >= 0
    decreases |s|
  {
    if s != {} {
      var x :| x in s;
      SumTake(col, s, x);
      SumNonNegative(col, s - {x});
    }
  }

  /** A set of transactions weighs at most four times its virtual size. */
  lemma WeightBySize(p: Pool, s: set<TxId>)
    requires s <= p.txs.Keys
    ensures Sum(p.Weights(), s) <= WITNESS_SCALE_FACTOR * Sum(p.Sizes(), s)
  {
    forall x | x in s ensures p.txs[x].weight <= 4 * p.Size(x) {
      RoundUp(Max(p.txs[x].weight, p.txs[x].sigOpCost * p.bytesPerSigOp));
    }
    SumAtMost(p.Weights(), p.Sizes(), s);
  }

  lemma RoundUp(x: int)
    ensures x <= 4 * ((x + WITNESS_SCALE_FACTOR - 1) / WITNESS_SCALE_FACTOR)
  {
  }

  /** An ancestor has fewer ancestors. */
  lemma CountGrows(p: Pool, t: TxId, a: TxId)
    requires p.Acyclic() && t in p.txs && a in p.ancestors[t]
    ensures p.CountWithAncestors(a) < p.CountWithAncestors(t)
  {
    var small, large := p.ancestors[a], p.ancestors[t];
    assert a in large && a !in small && small <= large;
    assert large == small + {a} + (large - small - {a});
  }
}
