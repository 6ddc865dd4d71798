/**
 The unspent-output cache (src/coins.h, src/coins.cpp) on values: coins, cache entries with
 their DIRTY and FRESH flags, what a cache shows over its backing view, and what each
 operation does to the entries.
 */
module CoinsState {
  const OP_RETURN: int := 0x6a
  const MAX_SCRIPT_SIZE: int := 10000
  const DIRECT_SCRIPT_SIZE: int := 28

  datatype OutPoint = OutPoint(hash: nat, n: nat)

  datatype Coin = Coin(value: int, script: seq<int>, height: nat, coinBase: bool)
  {
    predicate IsSpent() { value == -1 }

    predicate IsUnspendable() {
      (|script| > 0 && script[0] == OP_RETURN) || |script| > MAX_SCRIPT_SIZE
    }

    /** Heap memory of the script: none while it fits in place, else rounded up by the allocator. */
    function DynamicMemoryUsage(): nat {
      if |script| <= DIRECT_SCRIPT_SIZE then 0 else (|script| + 31) / 16 * 16
    }
  }

  /** A cleared coin, and what is handed out when there is none. */
  const COIN_EMPTY := Coin(-1, [], 0, false)

  datatype CacheEntry = CacheEntry(coin: Coin, isDirty: bool, isFresh: bool)

  type CoinsMap = map<OutPoint, CacheEntry>

  /** A flat set of unspent outputs. */
  type Flat = map<OutPoint, Coin>

  // ---------------------------------------------------------------- what a cache shows

  function Overlay(entries: CoinsMap, backing: Flat): Flat {
    map p | p in entries.Keys + backing.Keys && (p in entries ==> !entries[p].coin.IsSpent()) ::
      if p in entries then entries[p].coin else backing[p]
  }

  lemma InView(entries: CoinsMap, backing: Flat, p: OutPoint)
    ensures p in entries ==> (p in Overlay(entries, backing) <==> !entries[p].coin.IsSpent())
    ensures p !in entries ==> (p in Overlay(entries, backing) <==> p in backing)
    ensures p in Overlay(entries, backing) ==> Overlay(entries, backing)[p] == if p in entries then entries[p].coin else backing[p]
  {
  }

  /** FRESH: the backing view has no unspent coin. Not DIRTY: the entry agrees with it. */
  ghost predicate EntryFaithful(e: CacheEntry, backing: Flat, p: OutPoint) {
    && (e.isFresh ==> p !in backing)
    && (!e.isDirty ==> if p in backing then e.coin == backing[p] else e.coin.IsSpent())
  }

  ghost predicate Faithful(entries: CoinsMap, backing: Flat) {
    && (forall p <- backing :: !backing[p].IsSpent())
    && (forall p <- entries :: EntryFaithful(entries[p], backing, p))
  }

  ghost function Usage(entries: CoinsMap): nat {
    if entries == map[] then 0 else
      assert exists p :: p in entries by { assert entries.Keys != {}; }
      var p :| p in entries; entries[p].coin.DynamicMemoryUsage() + Usage(entries - {p})
  }

  lemma {:induction false} UsageTake(entries: CoinsMap, p: OutPoint)
    requires p in entries
    ensures Usage(entries) == entries[p].coin.DynamicMemoryUsage() + Usage(entries - {p})
    decreases |entries|
  {
    var q :| q in entries && Usage(entries) == entries[q].coin.DynamicMemoryUsage() + Usage(entries - {q});
    if q != p {
      assert (entries - {q}).Keys == entries.Keys - {q} && (entries - {p}).Keys == entries.Keys - {p};
      UsageTake(entries - {q}, p);
      UsageTake(entries - {p}, q);
      assert entries - {q} - {p} == entries - {p} - {q};
    }
  }

  /** Memory used by whatever is cached for `p`. */
  ghost function UsageAt(entries: CoinsMap, p: OutPoint): nat {
    if p in entries then entries[p].coin.DynamicMemoryUsage() else 0
  }

  lemma UsagePut(entries: CoinsMap, p: OutPoint, e: CacheEntry)
    ensures Usage(entries[p := e]) == Usage(entries) - UsageAt(entries, p) + e.coin.DynamicMemoryUsage()
  {
    UsageTake(entries[p := e], p);
    assert entries[p := e] - {p} == entries - {p};
    UsageErase(entries, p);
  }

  lemma UsageErase(entries: CoinsMap, p: OutPoint)
    ensures Usage(entries - {p}) == Usage(entries) - UsageAt(entries, p)
  {
    if p in entries {
      UsageTake(entries, p);
    } else {
      assert entries - {p} == entries;
    }
  }

  // ---------------------------------------------------------------- FetchCoin

  /** The entry a cache makes for a coin read from its backing view. */
  function Fetched(c: Coin): CacheEntry {
    CacheEntry(c, false, c.IsSpent())
  }

  /** Reading an entry up changes nothing that can be seen. */
  lemma FetchKeeps(entries: CoinsMap, backing: Flat, p: OutPoint, c: Coin)
    requires Faithful(entries, backing) && p !in entries
    requires if p in backing then c == backing[p] else c.IsSpent()
    ensures Faithful(entries[p := Fetched(c)], backing)
    ensures Overlay(entries[p := Fetched(c)], backing) == Overlay(entries, backing)
  {
  }

  // ---------------------------------------------------------------- AddCoin

  predicate CannotAdd(entries: CoinsMap, p: OutPoint, overwrite: bool) {
    !overwrite && p in entries && !entries[p].coin.IsSpent()
  }

  function Added(entries: CoinsMap, p: OutPoint, c: Coin, overwrite: bool): CoinsMap {
    var was := if p in entries then entries[p] else CacheEntry(COIN_EMPTY, false, false);
    entries[p := CacheEntry(c, true, was.isFresh || (!overwrite && !was.isDirty))]
  }

  /** Adding a coin keeps the cache faithful, without an error, exactly when the caller may
      overwrite or there is nothing to overwrite. */
  lemma AddKeepsIff(entries: CoinsMap, backing: Flat, p: OutPoint, c: Coin, overwrite: bool)
    requires Faithful(entries, backing) && !c.IsSpent()
    ensures
      !CannotAdd(entries, p, overwrite) && Faithful(Added(entries, p, c, overwrite), backing)
      <==> overwrite || p !in Overlay(entries, backing)
  {
    var added := Added(entries, p, c, overwrite);
    if overwrite || p !in Overlay(entries, backing) {
      forall q | q in added ensures EntryFaithful(added[q], backing, q) {
        if q == p && q in entries {
          assert EntryFaithful(entries[p], backing, p);
        }
      }
    } else if !CannotAdd(entries, p, overwrite) {
      assert p !in entries && p in backing;
      assert !EntryFaithful(added[p], backing, p);
    }
  }

  lemma AddShows(entries: CoinsMap, backing: Flat, p: OutPoint, c: Coin, overwrite: bool)
    requires !c.IsSpent()
    ensures Overlay(Added(entries, p, c, overwrite), backing) == Overlay(entries, backing)[p := c]
  {
  }

  /** The harm a wrong `possible_overwrite` does: the added coin shows, but spending it brings
      the backing view's coin back. */
  lemma MisuseResurrects(entries: CoinsMap, backing: Flat, p: OutPoint, c: Coin)
    requires Faithful(entries, backing) && !c.IsSpent() && p !in entries && p in backing
    ensures Overlay(Added(entries, p, c, false), backing) == Overlay(entries, backing)[p := c]
    ensures Overlay(Spent(Added(entries, p, c, false), p), backing) == Overlay(entries, backing)
    ensures p in Overlay(entries, backing)
  {
    assert Added(entries, p, c, false) - {p} == entries;
    AddShows(entries, backing, p, c, false);
  }

  // ---------------------------------------------------------------- SpendCoin, Uncache

  function Spent(entries: CoinsMap, p: OutPoint): CoinsMap
    requires p in entries
  {
    if entries[p].isFresh then entries - {p} else entries[p := CacheEntry(COIN_EMPTY, true, false)]
  }

  lemma SpendShows(entries: CoinsMap, backing: Flat, p: OutPoint)
    requires Faithful(entries, backing) && p in entries
    ensures Faithful(Spent(entries, p), backing)
    ensures Overlay(Spent(entries, p), backing) == Overlay(entries, backing) - {p}
  {
    assert EntryFaithful(entries[p], backing, p);
  }

  function Uncached(entries: CoinsMap, p: OutPoint): CoinsMap {
    if p in entries && !entries[p].isDirty && !entries[p].isFresh then entries - {p} else entries
  }

  lemma UncacheKeeps(entries: CoinsMap, backing: Flat, p: OutPoint)
    requires Faithful(entries, backing)
    ensures Faithful(Uncached(entries, p), backing)
    ensures Overlay(Uncached(entries, p), backing) == Overlay(entries, backing)
  {
    if p in entries {
      assert EntryFaithful(entries[p], backing, p);
    }
  }

  // ---------------------------------------------------------------- BatchWrite

  /** What a view shows after a child's entry has been written to it. */
  function Written(view: Flat, p: OutPoint, e: CacheEntry): Flat {
    if !e.isDirty then view else if e.coin.IsSpent() then view - {p} else view[p := e.coin]
  }

  predicate Misapplied(entries: CoinsMap, p: OutPoint, e: CacheEntry) {
    e.isDirty && e.isFresh && p in entries && !entries[p].coin.IsSpent()
  }

  /** One child entry merged into a cache's own entries. */
  function Merged(entries: CoinsMap, p: OutPoint, e: CacheEntry): CoinsMap {
    if !e.isDirty then entries
    else if p !in entries then
      if e.isFresh && e.coin.IsSpent() then entries else entries[p := CacheEntry(e.coin, true, e.isFresh)]
    else if entries[p].isFresh && e.coin.IsSpent() then entries - {p}
    else entries[p := CacheEntry(e.coin, true, entries[p].isFresh)]
  }

  lemma MergeShows(entries: CoinsMap, backing: Flat, p: OutPoint, e: CacheEntry)
    requires Faithful(entries, backing) && EntryFaithful(e, Overlay(entries, backing), p)
    ensures !Misapplied(entries, p, e)
    ensures Faithful(Merged(entries, p, e), backing)
    ensures Overlay(Merged(entries, p, e), backing) == Written(Overlay(entries, backing), p, e)
  {
    hide Faithful;
    EntryOf(entries, backing, p);
    MergedEntry(entries, backing, p, e);
    MergeFaithful(entries, backing, p, e);
    hide Merged;
    MergeAtP(entries, backing, p, e);
    MergeElsewhere(entries, backing, p, e);
  }

  lemma EntryOf(entries: CoinsMap, backing: Flat, p: OutPoint)
    requires Faithful(entries, backing)
    ensures p in entries ==> EntryFaithful(entries[p], backing, p)
  {
  }

  lemma MergedEntry(entries: CoinsMap, backing: Flat, p: OutPoint, e: CacheEntry)
    requires p in entries ==> EntryFaithful(entries[p], backing, p)
    requires EntryFaithful(e, Overlay(entries, backing), p)
    ensures p in Merged(entries, p, e) ==> EntryFaithful(Merged(entries, p, e)[p], backing, p)
  {
  }

  lemma MergeFaithful(entries: CoinsMap, backing: Flat, p: OutPoint, e: CacheEntry)
    requires Faithful(entries, backing)
    requires p in Merged(entries, p, e) ==> EntryFaithful(Merged(entries, p, e)[p], backing, p)
    ensures Faithful(Merged(entries, p, e), backing)
  {
    hide EntryFaithful;
  }

  lemma MergeAtP(entries: CoinsMap, backing: Flat, p: OutPoint, e: CacheEntry)
    requires p in entries ==> EntryFaithful(entries[p], backing, p)
    requires EntryFaithful(e, Overlay(entries, backing), p)
    ensures var after, written := Overlay(Merged(entries, p, e), backing), Written(Overlay(entries, backing), p, e);
      (p in after <==> p in written) && (p in after ==> after[p] == written[p])
  {
  }

  lemma MergeElsewhere(entries: CoinsMap, backing: Flat, p: OutPoint, e: CacheEntry)
    ensures var after, written := Overlay(Merged(entries, p, e), backing), Written(Overlay(entries, backing), p, e);
      forall q | q != p :: (q in after <==> q in written) && (q in after ==> after[q] == written[q])
  {
    var merged := Merged(entries, p, e);
    assert forall q | q != p :: q in merged <==> q in entries;
    assert forall q | q != p && q in entries :: merged[q] == entries[q];
    hide Merged;
  }

  /** Half-way through a batch: the view shows the child's coins for what has been written. */
  ghost predicate PartlyWritten(child: CoinsMap, before: Flat, todo: set<OutPoint>, view: Flat) {
    && todo <= child.Keys
    && (forall p <- todo :: (p in view <==> p in before) && (p in view ==> view[p] == before[p]))
    && (forall p | p !in todo :: (p in view <==> p in Overlay(child, before)) && (p in view ==> view[p] == Overlay(child, before)[p]))
  }

  lemma WriteStarts(child: CoinsMap, before: Flat)
    ensures PartlyWritten(child, before, child.Keys, before)
  {
  }

  lemma WriteStep(child: CoinsMap, before: Flat, todo: set<OutPoint>, view: Flat, p: OutPoint)
    requires Faithful(child, before) && PartlyWritten(child, before, todo, view) && p in todo
    ensures EntryFaithful(child[p], view, p)
    ensures PartlyWritten(child, before, todo - {p}, Written(view, p, child[p]))
  {
    assert EntryFaithful(child[p], before, p);
  }

  lemma WriteEnds(child: CoinsMap, before: Flat, view: Flat)
    requires PartlyWritten(child, before, {}, view)
    ensures view == Overlay(child, before)
  {
  }

  lemma NothingCached(backing: Flat)
    ensures Overlay(map[], backing) == backing
  {
  }

  lemma ShowsUnspent(entries: CoinsMap, backing: Flat)
    requires Faithful(entries, backing)
    ensures forall p <- Overlay(entries, backing) :: !Overlay(entries, backing)[p].IsSpent()
  {
  }

  lemma StartsEmpty(backing: Flat)
    requires forall p <- backing :: !backing[p].IsSpent()
    ensures Overlay(map[], backing) == backing && Faithful(map[], backing) && Usage(map[]) == 0
  {
  }

  /** What a store holding possibly spent coins shows. */
  function Unspent(stored: map<OutPoint, Coin>): Flat {
    map p | p in stored && !stored[p].IsSpent() :: stored[p]
  }

  function Stored(stored: map<OutPoint, Coin>, p: OutPoint, e: CacheEntry): map<OutPoint, Coin> {
    if !e.isDirty then stored else if e.coin.IsSpent() then stored - {p} else stored[p := e.coin]
  }

  lemma StoreShows(stored: map<OutPoint, Coin>, p: OutPoint, e: CacheEntry)
    ensures Unspent(Stored(stored, p, e)) == Written(Unspent(stored), p, e)
  {
  }
}
