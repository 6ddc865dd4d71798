/**
 Stacks of unspent-output caches (src/coins.cpp): each cache answers from its own entries or
 from the view below, which it fills from as it reads; a database lies at the bottom.
 */
module Coins {
  import opened CoinsState
  import opened Helpers

  const MAX_OUTPUTS_PER_BLOCK: nat := 888888

  datatype TxOut = TxOut(value: int, script: seq<int>)

  /** `txid` is the transaction's hash; a coinbase has no real inputs. */
  datatype Transaction = Transaction(txid: nat, isCoinBase: bool, inputs: seq<OutPoint>, outputs: seq<TxOut>)

  // ---------------------------------------------------------------- one flat map

  datatype Op =
    | Get(p: OutPoint)
    | Have(p: OutPoint)
    | Access(p: OutPoint)
    | Add(p: OutPoint, coin: Coin, possibleOverwrite: bool)
    | Spend(p: OutPoint)
    | Drop(p: OutPoint)
    | Sync

  datatype Answer = Silent | Held(have: bool) | Found(coin: Option<Coin>)

  /** Additions are of spendable values, and say so when they may overwrite. */
  predicate LegalOp(view: Flat, op: Op) {
    op.Add? ==> !op.coin.IsSpent() && (op.possibleOverwrite || op.p !in view || op.coin.IsUnspendable())
  }

  function FlatStep(view: Flat, op: Op): Flat {
    match op
    case Add(p, c, _) => if c.IsUnspendable() then view else view[p := c]
    case Spend(p) => view - {p}
    case _ => view
  }

  function FlatAnswer(view: Flat, op: Op): Answer {
    match op
    case Get(p) => Found(if p in view then Some(view[p]) else None)
    case Have(p) => Held(p in view)
    case Access(p) => Found(if p in view then Some(view[p]) else None)
    case Spend(p) => Found(if p in view then Some(view[p]) else None)
    case _ => Silent
  }

  predicate Legal(view: Flat, ops: seq<Op>)
    decreases |ops|
  {
    ops == [] || (LegalOp(view, ops[0]) && Legal(FlatStep(view, ops[0]), ops[1..]))
  }

  function FlatRun(view: Flat, ops: seq<Op>): Flat
    decreases |ops|
  {
    if ops == [] then view else FlatRun(FlatStep(view, ops[0]), ops[1..])
  }

  function FlatAnswers(view: Flat, ops: seq<Op>): seq<Answer>
    decreases |ops|
  {
    if ops == [] then [] else [FlatAnswer(view, ops[0])] + FlatAnswers(FlatStep(view, ops[0]), ops[1..])
  }

  function ValueIn(view: Flat, inputs: seq<OutPoint>): int {
    if inputs == [] then 0 else
      var last := inputs[|inputs| - 1];
      ValueIn(view, inputs[..|inputs| - 1]) + (if last in view then view[last].value else -1)
  }

  /** The values of the inputs that are there, less one for each that is not. */
  lemma {:induction false} ValueInIs(view: Flat, a: seq<OutPoint>, b: seq<OutPoint>, p: OutPoint)
    ensures ValueIn(view, [p]) == if p in view then view[p].value else -1
    ensures ValueIn(view, a + b) == ValueIn(view, a) + ValueIn(view, b)
    decreases |b|
  {
    assert [p][..0] == [];
    if b == [] {
      assert a + b == a;
    } else {
      var n := |b| - 1;
      assert (a + b)[..|a| + n] == a + b[..n];
      ValueInIs(view, a, b[..n], p);
    }
  }

  function OutputCoin(tx: Transaction, height: nat, i: nat): Coin
    requires i < |tx.outputs|
  {
    Coin(tx.outputs[i].value, tx.outputs[i].script, height, tx.isCoinBase)
  }

  /** The first `n` outputs, unless unspendable, added to a flat map. */
  function FlatAddCoins(view: Flat, tx: Transaction, height: nat, n: nat): Flat
    requires n <= |tx.outputs|
  {
    if n == 0 then view else
      FlatStep(FlatAddCoins(view, tx, height, n - 1), Add(OutPoint(tx.txid, n - 1), OutputCoin(tx, height, n - 1), true))
  }

  /** A script that starts with the byte 0x6a or is longer than 10000 bytes can never be spent. */
  predicate Spendable(o: TxOut) {
    (|o.script| == 0 || o.script[0] != 0x6a) && |o.script| <= 10000
  }

  /** The first `n` outputs have come in with their value and script, this height and the kind of the
      transaction, unless they can never be spent; everything else is as it was. */
  ghost predicate Gained(view: Flat, view': Flat, tx: Transaction, height: nat, n: nat)
    requires n <= |tx.outputs|
  {
    && (forall i: nat | i < n && Spendable(tx.outputs[i]) ::
          && OutPoint(tx.txid, i) in view'
          && view'[OutPoint(tx.txid, i)] == Coin(tx.outputs[i].value, tx.outputs[i].script, height, tx.isCoinBase))
    && (forall p: OutPoint | p.hash != tx.txid || p.n >= n || !Spendable(tx.outputs[p.n]) ::
          (p in view' <==> p in view) && (p in view ==> view'[p] == view[p]))
  }

  lemma {:induction false} AddsOutputs(view: Flat, tx: Transaction, height: nat, n: nat)
    requires n <= |tx.outputs|
    ensures Gained(view, FlatAddCoins(view, tx, height, n), tx, height, n)
  {
    if n > 0 {
      AddsOutputs(view, tx, height, n - 1);
    }
  }

  /** Each output is added at its own place. */
  lemma {:induction false} NotYetAdded(view: Flat, tx: Transaction, height: nat, n: nat)
    requires n <= |tx.outputs|
    ensures forall p | p !in view && (p.hash != tx.txid || p.n >= n) :: p !in FlatAddCoins(view, tx, height, n)
  {
    if n > 0 {
      NotYetAdded(view, tx, height, n - 1);
    }
  }

  ghost predicate FirstUnspent(view: Flat, txid: nat, n: nat, c: Coin) {
    && OutPoint(txid, n) in view && view[OutPoint(txid, n)] == c
    && forall k: nat | k < n :: OutPoint(txid, k) !in view
  }

  // ---------------------------------------------------------------- the views

  class CoinsViewDB {
    var stored: map<OutPoint, Coin>

    constructor (coins: map<OutPoint, Coin>)
      ensures stored == coins
    {
      stored := coins;
    }

    ghost function View(): Flat
      reads this
    {
      Unspent(stored)
    }

    method GetCoin(p: OutPoint) returns (found: bool, c: Coin)
      ensures found == (p in stored) && (found ==> c == stored[p])
    {
      found, c := p in stored, COIN_EMPTY;
      if found {
        c := stored[p];
      }
    }

    /** Dirty entries are written or, when spent, erased. */
    method BatchWrite(mapCoins: CoinsMap)
      requires Faithful(mapCoins, View())
      modifies this
      ensures View() == Overlay(mapCoins, old(View()))
    {
      hide Faithful, PartlyWritten, Unspent, Written, Overlay, EntryFaithful;
      var todo := mapCoins.Keys;
      WriteStarts(mapCoins, View());
      while todo != {}
        invariant todo <= mapCoins.Keys && PartlyWritten(mapCoins, old(View()), todo, View())
        decreases |todo|
      {
        var p :| p in todo;
        var e := mapCoins[p];
        WriteStep(mapCoins, old(View()), todo, View(), p);
        StoreShows(stored, p, e);
        if e.isDirty {
          if e.coin.IsSpent() {
            stored := stored - {p};
          } else {
            stored := stored[p := e.coin];
          }
        }
        todo := todo - {p};
      }
      WriteEnds(mapCoins, old(View()), View());
    }
  }

  class CoinsViewCache {
    /** The view below: another cache, or the database if there is none. */
    const base: CoinsViewCache?
    const db: CoinsViewDB
    ghost const below: nat
    /** This cache and every cache below it. */
    ghost const Caches: set<object>

    var cacheCoins: CoinsMap
    var cachedCoinsUsage: int

    ghost predicate Linked()
      decreases below
    {
      && this in Caches && db !in Caches
      && if base == null then Caches == {this}
         else base.below < below && base.db == db && this !in base.Caches && Caches == base.Caches + {this} && base.Linked()
    }

    /** What the view below shows. */
    ghost function Backing(): Flat
      requires Linked()
      reads Caches, db
      decreases below, 0
    {
      if base == null then db.View() else base.View()
    }

    /** What this cache shows. */
    ghost function View(): Flat
      requires Linked()
      reads Caches, db
      decreases below, 1
    {
      Overlay(cacheCoins, Backing())
    }

    ghost predicate Valid()
      reads Caches, db
      decreases below
    {
      && Linked()
      && (base != null ==> base.Valid())
      && Faithful(cacheCoins, Backing())
      && cachedCoinsUsage == Usage(cacheCoins)
    }

    constructor (store: CoinsViewDB)
      ensures Valid() && View() == store.View() && fresh(Caches) && db == store && base == null
    {
      base, db, below, Caches := null, store, 0, {this};
      cacheCoins, cachedCoinsUsage := map[], 0;
      new;
      NothingCached(db.View());
    }

    constructor OnTop(lower: CoinsViewCache)
      requires lower.Valid()
      ensures Valid() && View() == lower.View() && fresh(Caches - lower.Caches) && db == lower.db && base == lower
    {
      base, db, below, Caches := lower, lower.db, lower.below + 1, lower.Caches + {this};
      cacheCoins, cachedCoinsUsage := map[], 0;
      new;
      NothingCached(lower.View());
    }

    /** Finds the entry for `p`, reading it up from below if need be. */
    method FetchCoin(p: OutPoint) returns (found: bool)
      requires Valid()
      modifies Caches
      ensures Valid() && View() == old(View()) && Backing() == old(Backing())
      ensures found == (p in cacheCoins) && (p in View() ==> found)
      ensures cacheCoins == old(cacheCoins) || (p !in old(cacheCoins) && found && cacheCoins == old(cacheCoins)[p := cacheCoins[p]])
      decreases below, 1
    {
      hide Faithful, Overlay, Usage, EntryFaithful, Unspent;
      if p in cacheCoins {
        InView(cacheCoins, Backing(), p);
        return true;
      }
      InView(cacheCoins, Backing(), p);
      var tmp;
      found, tmp := ReadBelow(p);
      if !found {
        return false;
      }
      FetchKeeps(cacheCoins, Backing(), p, tmp);
      UsagePut(cacheCoins, p, Fetched(tmp));
      var entry := CacheEntry(tmp, false, false);
      if tmp.IsSpent() {
        // The view below only has an empty entry: this one can be considered fresh.
        entry := CacheEntry(tmp, false, true);
      }
      cacheCoins := cacheCoins[p := entry];
      cachedCoinsUsage := cachedCoinsUsage + tmp.DynamicMemoryUsage();
    }

    /** Asks the view below. */
    method ReadBelow(p: OutPoint) returns (found: bool, c: Coin)
      requires Valid()
      modifies Caches - {this}
      ensures Valid() && Backing() == old(Backing())
      ensures if p in Backing() then found && c == Backing()[p] else found ==> c.IsSpent()
      decreases below, 0
    {
      hide Faithful, Overlay, Usage, EntryFaithful;
      if base == null {
        found, c := db.GetCoin(p);
      } else {
        found, c := base.GetCoin(p);
      }
    }

    method GetCoin(p: OutPoint) returns (found: bool, c: Coin)
      requires Valid()
      modifies Caches
      ensures Valid() && View() == old(View())
      ensures found == (p in View()) && (found ==> c == View()[p])
      decreases below, 2
    {
      c := COIN_EMPTY;
      found := FetchCoin(p);
      if found {
        c := cacheCoins[p].coin;
        found := !c.IsSpent();
      }
    }

    method AccessCoin(p: OutPoint) returns (c: Coin)
      requires Valid()
      modifies Caches
      ensures Valid() && View() == old(View())
      ensures p in View() ==> c == View()[p]
      ensures p !in View() ==> c.IsSpent()
    {
      var found := FetchCoin(p);
      if !found {
        return COIN_EMPTY;
      }
      return cacheCoins[p].coin;
    }

    method HaveCoin(p: OutPoint) returns (have: bool)
      requires Valid()
      modifies Caches
      ensures Valid() && View() == old(View()) && have == (p in View())
    {
      var found := FetchCoin(p);
      have := found && !cacheCoins[p].coin.IsSpent();
    }

    /** Answers from this cache alone: a yes can be trusted. */
    method HaveCoinInCache(p: OutPoint) returns (have: bool)
      requires Valid()
      ensures have ==> p in View()
      ensures p in cacheCoins ==> have == (p in View())
    {
      have := p in cacheCoins && !cacheCoins[p].coin.IsSpent();
    }

    /** `thrown` stands for the logic error. The cache stays right exactly when the caller may
        overwrite or there is nothing to overwrite. */
    method AddCoin(p: OutPoint, coin: Coin, possibleOverwrite: bool) returns (thrown: bool)
      requires Valid() && !coin.IsSpent()
      modifies this
      ensures Linked() && Backing() == old(Backing())
      ensures coin.IsUnspendable() ==> !thrown && Valid() && View() == old(View())
      ensures !coin.IsUnspendable() ==> thrown == CannotAdd(old(cacheCoins), p, possibleOverwrite)
      ensures thrown ==> cacheCoins == old(cacheCoins) && cachedCoinsUsage == old(cachedCoinsUsage - UsageAt(cacheCoins, p))
      ensures !coin.IsUnspendable() && !thrown ==>
        cacheCoins == Added(old(cacheCoins), p, coin, possibleOverwrite) && View() == old(View())[p := coin]
      ensures !coin.IsUnspendable() ==> (!thrown && Valid() <==> possibleOverwrite || p !in old(View()))
    {
      hide Faithful, Overlay, Usage, EntryFaithful;
      if coin.IsUnspendable() {
        return false;
      }
      AddKeepsIff(cacheCoins, Backing(), p, coin, possibleOverwrite);
      AddShows(cacheCoins, Backing(), p, coin, possibleOverwrite);
      var inserted := p !in cacheCoins;
      var entry := if inserted then CacheEntry(COIN_EMPTY, false, false) else cacheCoins[p];
      UsagePut(cacheCoins, p, CacheEntry(coin, true, entry.isFresh || (!possibleOverwrite && !entry.isDirty)));
      var isFresh := false;
      if !inserted {
        cachedCoinsUsage := cachedCoinsUsage - entry.coin.DynamicMemoryUsage();
      }
      if !possibleOverwrite {
        if !entry.coin.IsSpent() {
          return true;
        }
        isFresh := !entry.isDirty;
      }
      cacheCoins := cacheCoins[p := CacheEntry(coin, true, entry.isFresh || isFresh)];
      cachedCoinsUsage := cachedCoinsUsage + coin.DynamicMemoryUsage();
      return false;
    }

    /** `moveout` is the coin taken out. `found` alone does not say there was an unspent one. */
    method SpendCoin(p: OutPoint) returns (found: bool, moveout: Coin)
      requires Valid()
      modifies Caches
      ensures Valid() && View() == old(View()) - {p} && p !in View()
      ensures p in old(View()) <==> found && !moveout.IsSpent()
      ensures p in old(View()) ==> moveout == old(View())[p]
    {
      hide Faithful, Usage, EntryFaithful;
      moveout := COIN_EMPTY;
      found := FetchCoin(p);
      if !found {
        return;
      }
      SpendShows(cacheCoins, Backing(), p);
      UsageErase(cacheCoins, p);
      UsagePut(cacheCoins, p, CacheEntry(COIN_EMPTY, true, false));
      cachedCoinsUsage := cachedCoinsUsage - cacheCoins[p].coin.DynamicMemoryUsage();
      moveout := cacheCoins[p].coin;
      if cacheCoins[p].isFresh {
        cacheCoins := cacheCoins - {p};
      } else {
        cacheCoins := cacheCoins[p := CacheEntry(COIN_EMPTY, true, cacheCoins[p].isFresh)];
      }
    }

    method Uncache(p: OutPoint)
      requires Valid()
      modifies this
      ensures Valid() && View() == old(View()) && cacheCoins == Uncached(old(cacheCoins), p)
    {
      hide Faithful, Overlay, Usage, EntryFaithful;
      UncacheKeeps(cacheCoins, Backing(), p);
      UsageErase(cacheCoins, p);
      if p in cacheCoins && !cacheCoins[p].isDirty && !cacheCoins[p].isFresh {
        cachedCoinsUsage := cachedCoinsUsage - cacheCoins[p].coin.DynamicMemoryUsage();
        cacheCoins := cacheCoins - {p};
      }
    }

    /** A child's entries are written to this cache, which then shows what the child showed.
        With a faithful child the misapplied-flag error cannot arise. */
    method BatchWrite(mapCoins: CoinsMap)
      requires Valid() && Faithful(mapCoins, View())
      modifies this
      ensures Valid() && View() == Overlay(mapCoins, old(View())) && Backing() == old(Backing())
    {
      hide Faithful, PartlyWritten, Written, Overlay, Usage, EntryFaithful;
      var todo := mapCoins.Keys;
      WriteStarts(mapCoins, View());
      while todo != {}
        invariant todo <= mapCoins.Keys && Valid() && Backing() == old(Backing())
        invariant PartlyWritten(mapCoins, old(View()), todo, View())
        decreases |todo|
      {
        var p :| p in todo;
        WriteStep(mapCoins, old(View()), todo, View(), p);
        WriteEntry(p, mapCoins[p]);
        todo := todo - {p};
      }
      WriteEnds(mapCoins, old(View()), View());
    }

    /** The body of the loop: one child entry. */
    method WriteEntry(p: OutPoint, e: CacheEntry)
      requires Valid() && EntryFaithful(e, View(), p)
      modifies this
      ensures Valid() && View() == Written(old(View()), p, e) && Backing() == old(Backing())
      ensures cacheCoins == Merged(old(cacheCoins), p, e)
    {
      hide Faithful, Overlay, Usage, EntryFaithful, Written;
      MergeShows(cacheCoins, Backing(), p, e);
      UsagePut(cacheCoins, p, e);
      UsageErase(cacheCoins, p);
      if !e.isDirty {
        return;
      }
      if p !in cacheCoins {
        if !(e.isFresh && e.coin.IsSpent()) {
          UsagePut(cacheCoins, p, CacheEntry(e.coin, true, e.isFresh));
          cacheCoins := cacheCoins[p := CacheEntry(e.coin, true, e.isFresh)];
          cachedCoinsUsage := cachedCoinsUsage + e.coin.DynamicMemoryUsage();
        }
      } else {
        if e.isFresh && !cacheCoins[p].coin.IsSpent() {
          // The logic error: FRESH misapplied over spendable outputs.
          assert false;
        }
        var us := cacheCoins[p];
        UsagePut(cacheCoins, p, CacheEntry(e.coin, true, us.isFresh));
        cachedCoinsUsage := cachedCoinsUsage - us.coin.DynamicMemoryUsage();
        if us.isFresh && e.coin.IsSpent() {
          cacheCoins := cacheCoins - {p};
        } else {
          cacheCoins := cacheCoins[p := CacheEntry(e.coin, true, us.isFresh)];
          cachedCoinsUsage := cachedCoinsUsage + e.coin.DynamicMemoryUsage();
        }
      }
    }

    /** Everything goes to the view below; afterwards both show what this cache showed. */
    method Flush()
      requires Valid()
      modifies Caches, db
      ensures Valid() && View() == old(View()) && Backing() == old(View()) && cacheCoins == map[]
    {
      hide Faithful, Overlay, Usage, EntryFaithful, Unspent;
      if base == null {
        db.BatchWrite(cacheCoins);
      } else {
        base.BatchWrite(cacheCoins);
      }
      ShowsUnspent(old(cacheCoins), old(Backing()));
      cacheCoins := map[];
      cachedCoinsUsage := 0;
      StartsEmpty(Backing());
    }

    /** Whether every input of a transaction is there to be spent. */
    method HaveInputs(tx: Transaction) returns (have: bool)
      requires Valid()
      modifies Caches
      ensures Valid() && View() == old(View())
      ensures have <==> tx.isCoinBase || forall i | 0 <= i < |tx.inputs| :: tx.inputs[i] in View()
    {
      if !tx.isCoinBase {
        for i := 0 to |tx.inputs|
          invariant Valid() && View() == old(View())
          invariant forall j | 0 <= j < i :: tx.inputs[j] in View()
        {
          have := HaveCoin(tx.inputs[i]);
          if !have {
            return false;
          }
        }
      }
      return true;
    }

    /** The sum of the inputs' values; an input that is not there counts as -1. */
    method GetValueIn(tx: Transaction) returns (nResult: int)
      requires Valid()
      modifies Caches
      ensures Valid() && View() == old(View())
      ensures nResult == if tx.isCoinBase then 0 else ValueIn(View(), tx.inputs)
    {
      if tx.isCoinBase {
        return 0;
      }
      nResult := 0;
      assert tx.inputs[..0] == [];
      for i := 0 to |tx.inputs|
        invariant Valid() && View() == old(View()) && nResult == ValueIn(View(), tx.inputs[..i])
      {
        var c := AccessCoin(tx.inputs[i]);
        assert tx.inputs[..i + 1][..i] == tx.inputs[..i];
        nResult := nResult + c.value;
      }
      assert tx.inputs[..|tx.inputs|] == tx.inputs;
    }

    /** Adds a transaction's outputs; with `check`, overwrites are looked for first. */
    method AddCoins(tx: Transaction, height: nat, check: bool)
      requires Valid() && forall i | 0 <= i < |tx.outputs| :: tx.outputs[i].value != -1
      requires check || tx.isCoinBase || forall i | 0 <= i < |tx.outputs| :: OutPoint(tx.txid, i) !in View()
      modifies Caches
      ensures Valid() && View() == FlatAddCoins(old(View()), tx, height, |tx.outputs|)
      ensures Gained(old(View()), View(), tx, height, |tx.outputs|)
    {
      hide CannotAdd, Added, Overlay, Usage;
      for i := 0 to |tx.outputs|
        invariant Valid() && View() == FlatAddCoins(old(View()), tx, height, i)
      {
        var p := OutPoint(tx.txid, i);
        var overwrite := tx.isCoinBase;
        if check {
          overwrite := HaveCoin(p);
        } else {
          NotYetAdded(old(View()), tx, height, i);
        }
        var thrown := AddCoin(p, Coin(tx.outputs[i].value, tx.outputs[i].script, height, tx.isCoinBase), overwrite);
      }
      AddsOutputs(old(View()), tx, height, |tx.outputs|);
    }

    /** The first unspent output of a transaction, or the empty coin. */
    method AccessByTxid(txid: nat) returns (c: Coin)
      requires Valid()
      modifies Caches
      ensures Valid() && View() == old(View())
      ensures c.IsSpent() ==> c == COIN_EMPTY && forall n: nat | n < 888888 :: OutPoint(txid, n) !in View()
      ensures !c.IsSpent() ==> exists n: nat :: n < 888888 && FirstUnspent(View(), txid, n, c)
    {
      var n: nat := 0;
      while n < MAX_OUTPUTS_PER_BLOCK
        invariant Valid() && View() == old(View()) && n <= MAX_OUTPUTS_PER_BLOCK
        invariant forall k: nat | k < n :: OutPoint(txid, k) !in View()
      {
        var alternate := AccessCoin(OutPoint(txid, n));
        ShowsUnspent(cacheCoins, Backing());
        if !alternate.IsSpent() {
          assert FirstUnspent(View(), txid, n, alternate);
          return alternate;
        }
        n := n + 1;
      }
      return COIN_EMPTY;
    }

    // -------------------------------------------------------------- whole runs

    /** Any run of operations on the top of a stack answers and ends like the same run on one
        flat map, however many caches lie below and whenever they are flushed. */
    method Run(ops: seq<Op>) returns (answers: seq<Answer>)
      requires Valid() && Legal(View(), ops)
      modifies Caches, db
      ensures Valid() && View() == FlatRun(old(View()), ops) && answers == FlatAnswers(old(View()), ops)
    {
      answers := [];
      var i := 0;
      assert ops[0..] == ops;
      while i < |ops|
        invariant 0 <= i <= |ops| && Valid() && Legal(View(), ops[i..])
        invariant FlatRun(old(View()), ops) == FlatRun(View(), ops[i..])
        invariant FlatAnswers(old(View()), ops) == answers + FlatAnswers(View(), ops[i..])
      {
        assert ops[i..][0] == ops[i] && ops[i..][1..] == ops[i + 1..];
        var answer := Perform(ops[i]);
        answers := answers + [answer];
        i := i + 1;
      }
    }

    method Perform(op: Op) returns (answer: Answer)
      requires Valid() && LegalOp(View(), op)
      modifies Caches, db
      ensures Valid() && View() == FlatStep(old(View()), op) && answer == FlatAnswer(old(View()), op)
    {
      hide CannotAdd, Added, Overlay, Usage, Uncached;
      answer := Silent;
      match op
      case Get(p) =>
        var found, c := GetCoin(p);
        answer := Found(if found then Some(c) else None);
      case Have(p) =>
        var have := HaveCoin(p);
        answer := Held(have);
      case Access(p) =>
        ShowsUnspent(cacheCoins, Backing());
        var c := AccessCoin(p);
        answer := Found(if c.IsSpent() then None else Some(c));
      case Add(p, c, overwrite) =>
        var thrown := AddCoin(p, c, overwrite);
      case Spend(p) =>
        var found, c := SpendCoin(p);
        answer := Found(if found && !c.IsSpent() then Some(c) else None);
      case Drop(p) =>
        Uncache(p);
      case Sync =>
        Flush();
    }
  }
}
