/**
 Saving and restoring the address manager (src/addrman.h).  Records and integers are taken
 as already encoded; the framing by counts, the renumbering of ids and the rebuilding of
 all tables are modelled.
 */
module AddrManSaved {
  import opened AddrManCheck
  import opened AddrManOps
  import opened AddrManState
  import opened Helpers

  /** What `CAddrInfo` writes of itself. */
  datatype Record = Record(addr: Address, source: NetAddr, lastSuccess: int, attempts: int)

  datatype Saved = Saved(
    version: int, keySize: int, key: Env, nNew: nat, nTried: nat, nUBuckets: nat,
    entries: seq<Record>, buckets: seq<seq<int>>)

  datatype Error = IncorrectKeySize | NewExceedsLimit | TriedExceedsLimit | EndOfData

  datatype Result<T> = Ok(value: T) | Err(error: Error)

  function ToRecord(e: Info): Record {
    Record(e.ToAddress(), e.source, e.lastSuccess, e.attempts)
  }

  function FromRecord(r: Record): Info {
    Info(r.addr.service, r.addr.time, r.addr.services, r.source, 0, 0, r.lastSuccess, r.attempts, 0, false)
  }

  /** `x XOR 2^30`. */
  function FlipBit30(x: nat): nat {
    if x / 0x4000_0000 % 2 == 1 then x - 0x4000_0000 else x + 0x4000_0000
  }

  // ---------------------------------------------------------------- Serialize

  /** The order in which a map with integer keys is walked. */
  ghost function Ascending(s: set<int>): (r: seq<int>)
    ensures |r| == |s|
    ensures forall x :: x in s <==> x in r
    ensures forall i, j | 0 <= i < j < |r| :: r[i] < r[j]
    decreases |s|
  {
    if s == {} then [] else [Least(s)] + Ascending(s - {Least(s)})
  }

  /** New entries first, then tried ones. */
  ghost function SaveOrder(info: map<int, Info>): seq<int> {
    Ascending(NewIds(info)) + Ascending(TriedIds(info))
  }

  /** The position an id gets in the file, and its id after loading. */
  ghost function Rank(order: seq<int>): map<int, int> {
    map i | 0 <= i < |order| && (forall j | 0 <= j < i :: order[j] != order[i]) :: order[i] := i
  }

  /** The indexes of a bucket's entries, from place `i` on. */
  ghost function BucketList(table: map<Slot, int>, rank: map<int, int>, b: int, i: int): seq<int>
    requires forall s <- table :: table[s] in rank
    decreases BUCKET_SIZE - i
  {
    if i >= BUCKET_SIZE then []
    else if Slot(b, i) in table then [rank[table[Slot(b, i)]]] + BucketList(table, rank, b, i + 1)
    else BucketList(table, rank, b, i + 1)
  }

  lemma RankInverts(order: seq<int>)
    requires forall i, j | 0 <= i < j < |order| :: order[i] != order[j]
    ensures Rank(order).Keys == set x | x in order
    ensures forall i | 0 <= i < |order| :: Rank(order)[order[i]] == i
    ensures forall x <- Rank(order) :: 0 <= Rank(order)[x] < |order| && order[Rank(order)[x]] == x
  {
    forall i | 0 <= i < |order| ensures order[i] in Rank(order) && Rank(order)[order[i]] == i {
      assert forall j | 0 <= j < i :: order[j] != order[i];
    }
  }

  /** `order` lists the new entries, then the tried ones, and `rank` is its inverse. */
  ghost predicate Numbering(info: map<int, Info>, order: seq<int>, rank: map<int, int>) {
    && |order| == |NewIds(info)| + |TriedIds(info)|
    && (forall i | 0 <= i < |order| :: order[i] in info && (info[order[i]].inTried <==> i >= |NewIds(info)|))
    && rank.Keys == info.Keys
    && (forall i | 0 <= i < |order| :: order[i] in rank && rank[order[i]] == i)
    && (forall x <- rank :: 0 <= rank[x] < |order| && order[rank[x]] == x)
  }

  lemma OrderIs(info: map<int, Info>)
    ensures |SaveOrder(info)| == |NewIds(info)| + |TriedIds(info)|
    ensures var order := SaveOrder(info);
      forall i | 0 <= i < |order| :: order[i] in info && (info[order[i]].inTried <==> i >= |NewIds(info)|)
  {
    var order, new_ids, tried_ids := SaveOrder(info), Ascending(NewIds(info)), Ascending(TriedIds(info));
    forall i | 0 <= i < |order| ensures order[i] in info && (info[order[i]].inTried <==> i >= |new_ids|) {
      if i < |new_ids| { assert new_ids[i] in NewIds(info); } else { assert tried_ids[i - |new_ids|] in TriedIds(info); }
    }
  }

  lemma OrderHasAll(info: map<int, Info>, x: int)
    requires x in info
    ensures x in SaveOrder(info)
  {
    assert x in NewIds(info) || x in TriedIds(info);
    assert x in Ascending(NewIds(info)) || x in Ascending(TriedIds(info));
  }

  lemma OrderDistinct(info: map<int, Info>)
    ensures var order := SaveOrder(info); forall i, j | 0 <= i < j < |order| :: order[i] != order[j]
  {
    OrderIs(info);
  }

  lemma OrderNumbers(info: map<int, Info>)
    ensures Numbering(info, SaveOrder(info), Rank(SaveOrder(info)))
  {
    hide SaveOrder, Rank;
    OrderIs(info);
    OrderDistinct(info);
    RankInverts(SaveOrder(info));
    forall x | x in info ensures x in SaveOrder(info) {
      OrderHasAll(info, x);
    }
  }

  ghost function Records(info: map<int, Info>, order: seq<int>): (r: seq<Record>)
    requires forall i | 0 <= i < |order| :: order[i] in info
    ensures |r| == |order| && forall i | 0 <= i < |r| :: r[i] == ToRecord(info[order[i]])
  {
    seq(|order|, i requires 0 <= i < |order| => ToRecord(info[order[i]]))
  }

  ghost function BucketLists(table: map<Slot, int>, rank: map<int, int>): (r: seq<seq<int>>)
    requires forall s <- table :: table[s] in rank
    ensures |r| == NEW_BUCKET_COUNT && forall b | 0 <= b < |r| :: r[b] == BucketList(table, rank, b, 0)
  {
    seq(NEW_BUCKET_COUNT, b requires 0 <= b => BucketList(table, rank, b, 0))
  }

  ghost function Save(m: State): Saved
    requires NewInv(m.env, m.info, m.newTable) && m.nNew >= 0 && m.nTried >= 0
  {
    OrderNumbers(m.info);
    var order, rank := SaveOrder(m.info), Rank(SaveOrder(m.info));
    Saved(1, 32, m.env, m.nNew, m.nTried, FlipBit30(NEW_BUCKET_COUNT),
          Records(m.info, order), BucketLists(m.newTable, rank))
  }

  // ---------------------------------------------------------------- Unserialize

  /** The ids in use are 0, 1, 2, ... and the random vector is in order. */
  ghost predicate IdRange(m: State, n: nat) {
    (forall i :: i in m.info <==> 0 <= i < n) && OrderInv(m.info.Keys, m.random, m.pos)
  }

  function Enter(m: State, id: int, e: Info): State {
    m.(info := m.info[id := e], byAddr := m.byAddr[e.addr.net := id],
       random := m.random + [id], pos := m.pos[id := |m.random|])
  }

  /** If the saved buckets cannot be used, an entry gets its primary slot at once. */
  function LoadNewOne(m: State, r: Record, n: int, primary: bool): State {
    var m1 := Enter(m, n, FromRecord(r));
    var u := NewSlot(m.env, r.addr.service, r.source);
    if primary && u !in m1.newTable then PutNew(m1, n, u) else m1
  }

  ghost function LoadNew(m: State, entries: seq<Record>, n: nat, upto: nat, primary: bool): (r: State)
    requires n <= upto <= |entries| && IdRange(m, n)
    ensures IdRange(r, upto) && r.nNew == m.nNew && r.env == m.env
    decreases upto - n
  {
    if n == upto then m else
      AddToOrder(m.info.Keys, m.random, m.pos, n);
      assert LoadNewOne(m, entries[n], n, primary).info.Keys == m.info.Keys + {n};
      LoadNew(LoadNewOne(m, entries[n], n, primary), entries, n + 1, upto, primary)
  }

  function LoadTriedOne(m: State, r: Record): State {
    var e := FromRecord(r).(inTried := true);
    var s := TriedSlot(m.env, e.addr);
    if s in m.triedTable then m.(nTried := m.nTried - 1)
    else
      var m1 := Enter(m, m.idCount, e);
      m1.(triedTable := m1.triedTable[s := m.idCount], idCount := m.idCount + 1)
  }

  ghost function LoadTried(m: State, entries: seq<Record>, n: nat, upto: nat): (r: State)
    requires n <= upto <= |entries| && m.idCount >= 0 && IdRange(m, m.idCount)
    ensures r.idCount >= m.idCount && IdRange(r, r.idCount) && r.nNew == m.nNew && r.env == m.env
    decreases upto - n
  {
    if n == upto then m else
      AddToOrder(m.info.Keys, m.random, m.pos, m.idCount);
      var m1 := LoadTriedOne(m, entries[n]);
      assert m1 != m.(nTried := m.nTried - 1) ==> m1.info.Keys == m.info.Keys + {m.idCount};
      LoadTried(m1, entries, n + 1, upto)
  }

  /** One saved position: `usable` says that the saved buckets are of the present shape. */
  function FillOne(m: State, b: int, index: int, usable: bool): (r: State)
    ensures r == m.(info := r.info, newTable := r.newTable) && r.info.Keys == m.info.Keys
  {
    if 0 <= index < m.nNew && index in m.info then
      var s := NewSlotIn(m.env, m.info[index].addr, b);
      if usable && s !in m.newTable && m.info[index].refCount < NEW_BUCKETS_PER_ADDRESS then PutNew(m, index, s) else m
    else m
  }

  function FillBucket(m: State, b: int, list: seq<int>, usable: bool): (r: State)
    ensures r == m.(info := r.info, newTable := r.newTable) && r.info.Keys == m.info.Keys
    decreases |list|
  {
    if list == [] then m else FillBucket(FillOne(m, b, list[0], usable), b, list[1..], usable)
  }

  function FillBuckets(m: State, buckets: seq<seq<int>>, b: nat, upto: nat, usable: bool): (r: State)
    requires b <= upto <= |buckets|
    ensures r == m.(info := r.info, newTable := r.newTable) && r.info.Keys == m.info.Keys
    decreases upto - b
  {
    if b == upto then m else FillBuckets(FillBucket(m, b, buckets[b], usable), buckets, b + 1, upto, usable)
  }

  /** New entries that got no place are dropped. */
  ghost function Prune(m: State, todo: set<int>): State
    requires OrderInv(m.info.Keys, m.random, m.pos)
    decreases |todo|
  {
    if todo == {} then m else
      var id := Least(todo);
      if id in m.info && !m.info[id].inTried && m.info[id].refCount == 0 then
        DeleteOrder(m, id);
        assert Delete(m, id).info.Keys == m.info.Keys - {id};
        Prune(Delete(m, id), todo - {id})
      else Prune(m, todo - {id})
  }

  /** The loops of `Unserialize`, once the header has been accepted. */
  ghost function Rebuild(m: State, entries: seq<Record>, buckets: seq<seq<int>>, nNew: nat, nTried: nat,
                         nUBuckets: nat, usable: bool): State
    requires nNew + nTried <= |entries| && nUBuckets <= |buckets| && IdRange(m, 0)
  {
    var m1 := LoadNew(m, entries, 0, nNew, !usable).(idCount := nNew);
    var m2 := LoadTried(m1, entries, nNew, nNew + nTried);
    var m3 := FillBuckets(m2, buckets, 0, nUBuckets, usable);
    Prune(m3, m3.info.Keys)
  }

  /** `Clear`, and the counters from the file; the collision queue survives. */
  function Cleared(key: Env, nNew: nat, nTried: nat, collisions: set<int>): State {
    Empty(key).(nNew := nNew, nTried := nTried, collisions := collisions)
  }

  /** Restoring into an object whose collision queue is `collisions`. */
  ghost function Restore(s: Saved, collisions: set<int>): Result<State> {
    var nUBuckets := if s.version != 0 then FlipBit30(s.nUBuckets) else s.nUBuckets;
    if s.keySize != 32 then Err(IncorrectKeySize)
    else if s.nNew > NEW_BUCKET_COUNT * BUCKET_SIZE then Err(NewExceedsLimit)
    else if s.nTried > TRIED_BUCKET_COUNT * BUCKET_SIZE then Err(TriedExceedsLimit)
    else if |s.entries| < s.nNew + s.nTried || |s.buckets| < nUBuckets then Err(EndOfData)
    else Ok(Rebuild(Cleared(s.key, s.nNew, s.nTried, collisions), s.entries, s.buckets, s.nNew, s.nTried,
                    nUBuckets, s.version == 1 && nUBuckets == NEW_BUCKET_COUNT))
  }

  // ---------------------------------------------------------------- the round trip

  /** What a saved and loaded entry has kept. */
  function Loaded(e: Info): Info {
    e.(lastTry := 0, lastCountAttempt := 0, refCount := 0)
  }

  ghost function LoadedInfos(info: map<int, Info>, order: seq<int>, k: nat): map<int, Info>
    requires k <= |order| && forall i | 0 <= i < |order| :: order[i] in info
  {
    map i | 0 <= i < k :: Loaded(info[order[i]])
  }

  /** The part of an index whose ids are numbered below `k`, renumbered. */
  ghost function Renumbered<K(!new)>(index: map<K, int>, rank: map<int, int>, k: int): map<K, int>
    requires forall x <- index :: index[x] in rank
  {
    map x | x in index && rank[index[x]] < k :: rank[index[x]]
  }

  ghost function Identity(k: nat): (r: map<int, int>)
    ensures forall i :: i in r <==> 0 <= i < k
    ensures forall i <- r :: r[i] == i
  {
    if k == 0 then map[] else Identity(k - 1)[k - 1 := k - 1]
  }

  ghost function UpTo(k: nat): (r: seq<int>)
    ensures |r| == k && forall i | 0 <= i < k :: r[i] == i
  {
    seq(k, i => i)
  }

  ghost predicate Numbered(m: State, order: seq<int>, rank: map<int, int>) {
    && Numbering(m.info, order, rank)
    && m.nNew == |NewIds(m.info)| && m.nTried == |TriedIds(m.info)|
    && AddrInv(m.info, m.byAddr)
    && NewInv(m.env, m.info, m.newTable)
    && TriedInv(m.env, m.info, m.triedTable)
  }

  /** The state after the first `k` saved entries have been loaded. */
  ghost function LoadedState(m: State, order: seq<int>, rank: map<int, int>, k: nat, idCount: int, c: set<int>): State
    requires Numbered(m, order, rank) && k <= |order|
  {
    State(m.env, idCount, LoadedInfos(m.info, order, k), Renumbered(m.byAddr, rank, k), UpTo(k), Identity(k),
          m.nTried, Renumbered(m.triedTable, rank, k), m.nNew, map[], 1, c)
  }

  lemma RenumberNext<K(!new)>(index: map<K, int>, order: seq<int>, rank: map<int, int>, k: nat, x: K)
    requires forall y <- index :: index[y] in rank
    requires forall z <- rank :: 0 <= rank[z] < |order| && order[rank[z]] == z
    requires k < |order| && order[k] in rank && rank[order[k]] == k
    requires x in index && index[x] == order[k]
    requires forall y | y in index && index[y] == order[k] :: y == x
    ensures Renumbered(index, rank, k + 1) == Renumbered(index, rank, k)[x := k]
    ensures x !in Renumbered(index, rank, k)
  {
    var a, b := Renumbered(index, rank, k + 1), Renumbered(index, rank, k);
    forall y | y in index ensures rank[index[y]] == k <==> y == x {
    }
  }

  lemma RenumberSame<K(!new)>(index: map<K, int>, order: seq<int>, rank: map<int, int>, k: nat)
    requires forall y <- index :: index[y] in rank
    requires forall z <- rank :: 0 <= rank[z] < |order| && order[rank[z]] == z
    requires k < |order| && forall y | y in index :: index[y] != order[k]
    ensures Renumbered(index, rank, k + 1) == Renumbered(index, rank, k)
  {
  }

  lemma LoadedNext(info: map<int, Info>, order: seq<int>, k: nat)
    requires k < |order| && forall i | 0 <= i < |order| :: order[i] in info
    ensures LoadedInfos(info, order, k + 1) == LoadedInfos(info, order, k)[k := Loaded(info[order[k]])]
    ensures Identity(k + 1) == Identity(k)[k := k] && UpTo(k + 1) == UpTo(k) + [k]
  {
  }

  lemma AddrNext(m: State, order: seq<int>, rank: map<int, int>, k: nat)
    requires Numbered(m, order, rank) && k < |order|
    ensures Renumbered(m.byAddr, rank, k + 1) == Renumbered(m.byAddr, rank, k)[m.info[order[k]].addr.net := k]
  {
    RenumberNext(m.byAddr, order, rank, k, m.info[order[k]].addr.net);
  }

  lemma LoadNewStep(m: State, order: seq<int>, rank: map<int, int>, k: nat, c: set<int>)
    requires Numbered(m, order, rank) && k < m.nNew
    ensures LoadNewOne(LoadedState(m, order, rank, k, 0, c), ToRecord(m.info[order[k]]), k, false)
         == LoadedState(m, order, rank, k + 1, 0, c)
  {
    LoadedNext(m.info, order, k);
    AddrNext(m, order, rank, k);
    RenumberSame(m.triedTable, order, rank, k);
    assert FromRecord(ToRecord(m.info[order[k]])) == Loaded(m.info[order[k]]);
  }

  lemma LoadTriedStep(m: State, order: seq<int>, rank: map<int, int>, k: nat, c: set<int>)
    requires Numbered(m, order, rank) && m.nNew <= k < |order|
    ensures LoadTriedOne(LoadedState(m, order, rank, k, k, c), ToRecord(m.info[order[k]]))
         == LoadedState(m, order, rank, k + 1, k + 1, c)
  {
    var e := m.info[order[k]];
    LoadedNext(m.info, order, k);
    AddrNext(m, order, rank, k);
    RenumberNext(m.triedTable, order, rank, k, TriedSlot(m.env, e.addr));
    assert FromRecord(ToRecord(e)).(inTried := true) == Loaded(e);
  }

  lemma LoadedRange(m: State, order: seq<int>, rank: map<int, int>, k: nat, idCount: int, c: set<int>)
    requires Numbered(m, order, rank) && k <= |order|
    ensures IdRange(LoadedState(m, order, rank, k, idCount, c), k)
    ensures LoadedState(m, order, rank, k, idCount, c).idCount == idCount
  {
  }

  lemma {:induction false} LoadNewAll(m: State, order: seq<int>, rank: map<int, int>, k: nat, c: set<int>)
    requires Numbered(m, order, rank) && k <= m.nNew
    ensures IdRange(LoadedState(m, order, rank, k, 0, c), k)
    ensures LoadNew(LoadedState(m, order, rank, k, 0, c), Records(m.info, order), k, m.nNew, false)
         == LoadedState(m, order, rank, m.nNew, 0, c)
    decreases m.nNew - k
  {
    hide LoadedState;
    LoadedRange(m, order, rank, k, 0, c);
    if k < m.nNew {
      LoadNewStep(m, order, rank, k, c);
      LoadNewAll(m, order, rank, k + 1, c);
    }
  }

  lemma {:induction false} LoadTriedAll(m: State, order: seq<int>, rank: map<int, int>, k: nat, c: set<int>)
    requires Numbered(m, order, rank) && m.nNew <= k <= |order|
    ensures LoadedState(m, order, rank, k, k, c).idCount == k && IdRange(LoadedState(m, order, rank, k, k, c), k)
    ensures LoadTried(LoadedState(m, order, rank, k, k, c), Records(m.info, order), k, |order|)
         == LoadedState(m, order, rank, |order|, |order|, c)
    decreases |order| - k
  {
    hide LoadedState, LoadTriedOne, Numbered;
    LoadedRange(m, order, rank, k, k, c);
    if k < |order| {
      LoadTriedStep(m, order, rank, k, c);
      LoadTriedAll(m, order, rank, k + 1, c);
    }
  }

  ghost function FilledInfos(info: map<int, Info>, order: seq<int>, covered: map<Slot, int>): map<int, Info>
    requires forall i | 0 <= i < |order| :: order[i] in info
  {
    map i | 0 <= i < |order| :: Loaded(info[order[i]]).(refCount := |Refs(covered, order[i])|)
  }

  ghost function RenumberedAll<K(!new)>(index: map<K, int>, rank: map<int, int>): map<K, int>
    requires forall x <- index :: index[x] in rank
  {
    map x | x in index :: rank[index[x]]
  }

  /** All entries are loaded, and the references of `covered` are back in the new table. */
  ghost function FilledState(m: State, order: seq<int>, rank: map<int, int>, covered: map<Slot, int>, c: set<int>): State
    requires Numbered(m, order, rank) && forall s <- covered :: covered[s] in rank
  {
    LoadedState(m, order, rank, |order|, |order|, c).(
      info := FilledInfos(m.info, order, covered),
      newTable := RenumberedAll(covered, rank))
  }

  lemma FilledNext(info: map<int, Info>, order: seq<int>, covered: map<Slot, int>, s: Slot, k: nat)
    requires forall i | 0 <= i < |order| :: order[i] in info
    requires s !in covered && k < |order|
    requires forall i | 0 <= i < |order| && i != k :: order[i] != order[k]
    ensures var a, b := FilledInfos(info, order, covered), FilledInfos(info, order, covered[s := order[k]]);
      b == a[k := a[k].(refCount := a[k].refCount + 1)]
  {
    RefsAdd(covered, s, order[k]);
  }

  lemma FillStep(m: State, order: seq<int>, rank: map<int, int>, covered: map<Slot, int>, s: Slot, c: set<int>)
    requires Numbered(m, order, rank) && forall x <- covered :: covered[x] in rank
    requires s in m.newTable && s !in covered
    requires |Refs(covered, m.newTable[s])| < NEW_BUCKETS_PER_ADDRESS
    ensures m.newTable[s] in rank
    ensures FillOne(FilledState(m, order, rank, covered, c), s.bucket, rank[m.newTable[s]], true)
         == FilledState(m, order, rank, covered[s := m.newTable[s]], c)
  {
    FillFacts(m, order, rank, s);
    hide Numbered, Numbering, NewInv, TriedInv, AddrInv;
    var id := m.newTable[s];
    var k := rank[id];
    FilledNext(m.info, order, covered, s, k);
    RenumberedPut(covered, rank, s, id);
    FilledEntry(m.info, order, covered, k);
    hide FilledInfos, RenumberedAll, LoadedInfos, Renumbered, UpTo, Identity, Refs;
  }

  lemma RenumberedPut(covered: map<Slot, int>, rank: map<int, int>, s: Slot, id: int)
    requires id in rank && s !in covered && forall x <- covered :: covered[x] in rank
    ensures RenumberedAll(covered[s := id], rank) == RenumberedAll(covered, rank)[s := rank[id]]
    ensures s !in RenumberedAll(covered, rank)
  {
  }

  lemma FilledEntry(info: map<int, Info>, order: seq<int>, covered: map<Slot, int>, k: nat)
    requires k < |order| && forall i | 0 <= i < |order| :: order[i] in info
    ensures var a := FilledInfos(info, order, covered);
      k in a && a[k].addr == info[order[k]].addr && a[k].refCount == |Refs(covered, order[k])|
  {
  }

  lemma FillFacts(m: State, order: seq<int>, rank: map<int, int>, s: Slot)
    requires Numbered(m, order, rank) && s in m.newTable
    ensures m.newTable[s] in rank && m.newTable[s] in m.info
    ensures 0 <= m.nNew <= |order| && forall i | 0 <= i < |order| :: order[i] in m.info
    ensures var id := m.newTable[s]; var k := rank[id];
      && 0 <= k < m.nNew && order[k] == id && s == NewSlotIn(m.env, m.info[id].addr, s.bucket)
      && forall i | 0 <= i < |order| && i != k :: order[i] != id
  {
    hide AddrInv, TriedInv;
  }

  lemma FewerRefs(m: State, n: int, i: int)
    requires Inv(m) && Slot(n, i) in m.newTable
    ensures |Refs(Covered(m.newTable, n, i), m.newTable[Slot(n, i)])| < NEW_BUCKETS_PER_ADDRESS
  {
    var id, s := m.newTable[Slot(n, i)], Slot(n, i);
    var some, all := Refs(Covered(m.newTable, n, i), id), Refs(m.newTable, id);
    assert s in all && s !in some && some <= all - {s};
    SmallerSet(some, all - {s});
  }

  ghost predicate ListsRanked(m: State, rank: map<int, int>) {
    forall s <- m.newTable :: m.newTable[s] in rank
  }

  lemma {:induction false} FillBucketAll(m: State, order: seq<int>, rank: map<int, int>, b: int, i: int, c: set<int>)
    requires Inv(m) && Numbered(m, order, rank) && ListsRanked(m, rank) && 0 <= i <= BUCKET_SIZE
    ensures FillBucket(FilledState(m, order, rank, Covered(m.newTable, b, i), c), b, BucketList(m.newTable, rank, b, i), true)
         == FilledState(m, order, rank, Covered(m.newTable, b, BUCKET_SIZE), c)
    decreases BUCKET_SIZE - i
  {
    hide Inv, Numbered, FilledState, FillOne;
    if i < BUCKET_SIZE {
      CoverNext(m.newTable, b, i);
      if Slot(b, i) in m.newTable {
        FewerRefs(m, b, i);
        FillStep(m, order, rank, Covered(m.newTable, b, i), Slot(b, i), c);
        var list := BucketList(m.newTable, rank, b, i);
        assert list[1..] == BucketList(m.newTable, rank, b, i + 1);
      }
      FillBucketAll(m, order, rank, b, i + 1, c);
    }
  }

  lemma {:induction false} FillBucketsAll(m: State, order: seq<int>, rank: map<int, int>, b: nat, c: set<int>)
    requires Inv(m) && Numbered(m, order, rank) && ListsRanked(m, rank) && b <= NEW_BUCKET_COUNT
    requires forall s <- m.newTable :: 0 <= s.pos < BUCKET_SIZE
    ensures FillBuckets(FilledState(m, order, rank, Covered(m.newTable, b, 0), c),
                        BucketLists(m.newTable, rank), b, NEW_BUCKET_COUNT, true)
         == FilledState(m, order, rank, Covered(m.newTable, NEW_BUCKET_COUNT, 0), c)
    decreases NEW_BUCKET_COUNT - b
  {
    hide Inv, Numbered, FilledState, FillBucket, Covered, ListsRanked;
    if b < NEW_BUCKET_COUNT {
      FillBucketAll(m, order, rank, b, 0, c);
      CoverRow(m.newTable, b, BUCKET_SIZE);
      FillBucketsAll(m, order, rank, b + 1, c);
    }
  }

  lemma {:induction false} NothingToPrune(m: State, todo: set<int>)
    requires OrderInv(m.info.Keys, m.random, m.pos)
    requires forall id <- m.info :: m.info[id].inTried || m.info[id].refCount != 0
    ensures Prune(m, todo) == m
    decreases |todo|
  {
    if todo != {} {
      NothingToPrune(m, todo - {Least(todo)});
    }
  }

  // ---------------------------------------------------------------- the size limits

  ghost function Row(b: int, width: nat): set<Slot> {
    if width == 0 then {} else Row(b, width - 1) + {Slot(b, width - 1)}
  }

  ghost function Grid(height: nat, width: nat): set<Slot> {
    if height == 0 then {} else Grid(height - 1, width) + Row(height - 1, width)
  }

  lemma {:induction false} RowSize(b: int, width: nat)
    ensures |Row(b, width)| == width
    ensures forall s :: s in Row(b, width) <==> s.bucket == b && 0 <= s.pos < width
  {
    if width > 0 { RowSize(b, width - 1); }
  }

  lemma {:induction false} GridContents(height: nat, width: nat)
    ensures forall s :: s in Grid(height, width) <==> 0 <= s.bucket < height && 0 <= s.pos < width
  {
    hide Row;
    if height > 0 {
      GridContents(height - 1, width);
      RowSize(height - 1, width);
    }
  }

  lemma DisjointSize<T>(a: set<T>, b: set<T>)
    requires a !! b
    ensures |a + b| == |a| + |b|
  {
  }

  lemma GridRow(height: nat)
    ensures |Grid(height, BUCKET_SIZE) + Row(height, BUCKET_SIZE)| == |Grid(height, BUCKET_SIZE)| + |Row(height, BUCKET_SIZE)|
  {
    hide Row, Grid;
    GridContents(height, BUCKET_SIZE);
    RowSize(height, BUCKET_SIZE);
    DisjointSize(Grid(height, BUCKET_SIZE), Row(height, BUCKET_SIZE));
  }

  lemma {:induction false} GridSize(height: nat)
    ensures |Grid(height, BUCKET_SIZE)| == height * BUCKET_SIZE
  {
    hide Row;
    if height > 0 {
      GridRow(height - 1);
      RowSize(height - 1, BUCKET_SIZE);
      GridSize(height - 1);
    }
  }

  /** Ids that all have a slot are no more than the filled slots. */
  lemma {:induction false} IdsFit(t: map<Slot, int>, ids: set<int>)
    requires forall id <- ids :: Refs(t, id) != {}
    ensures |ids| <= |t|
    decreases |ids|
  {
    if ids != {} {
      Inhabited(ids);
      var id :| id in ids;
      var t' := t - Refs(t, id);
      assert t'.Keys == t.Keys - Refs(t, id);
      forall x | x in ids - {id} ensures Refs(t', x) != {} {
        var s :| s in Refs(t, x);
        assert s in Refs(t', x);
      }
      IdsFit(t', ids - {id});
      assert |t'.Keys| < |t.Keys| by {
        var s :| s in Refs(t, id);
        assert t'.Keys <= t.Keys - {s};
        SmallerSet(t'.Keys, t.Keys - {s});
      }
    }
  }

  lemma TableFits(t: map<Slot, int>, height: nat)
    requires forall s <- t :: 0 <= s.bucket < height && 0 <= s.pos < BUCKET_SIZE
    ensures |t| <= height * BUCKET_SIZE
  {
    GridContents(height, BUCKET_SIZE);
    GridSize(height);
    SmallerSet(t.Keys, Grid(height, BUCKET_SIZE));
  }

  lemma TablesInRange(m: State)
    requires Inv(m)
    ensures forall s <- m.newTable :: 0 <= s.bucket < NEW_BUCKET_COUNT && 0 <= s.pos < BUCKET_SIZE
    ensures forall s <- m.triedTable :: 0 <= s.bucket < TRIED_BUCKET_COUNT && 0 <= s.pos < BUCKET_SIZE
  {
  }

  /** The size-limit exceptions of `Unserialize` cannot fire on a saved manager. */
  lemma WithinLimits(m: State)
    requires Inv(m)
    ensures m.nNew <= NEW_BUCKET_COUNT * BUCKET_SIZE && m.nTried <= TRIED_BUCKET_COUNT * BUCKET_SIZE
  {
    TablesInRange(m);
    TableFits(m.newTable, NEW_BUCKET_COUNT);
    TableFits(m.triedTable, TRIED_BUCKET_COUNT);
    NewIdsHaveSlots(m);
    IdsFit(m.newTable, NewIds(m.info));
    IdsFit(m.triedTable, TriedIds(m.info));
  }

  lemma NewIdsHaveSlots(m: State)
    requires Inv(m)
    ensures forall id <- NewIds(m.info) :: Refs(m.newTable, id) != {}
    ensures forall id <- TriedIds(m.info) :: Refs(m.triedTable, id) != {}
  {
    forall id | id in TriedIds(m.info) ensures Refs(m.triedTable, id) != {} {
      assert TriedSlot(m.env, m.info[id].addr) in Refs(m.triedTable, id);
    }
  }

  // ---------------------------------------------------------------- the main result

  /** `m'` is `m` with ids renamed by the bijection `rank`; only the three fields marked
      "memory only" and the order of the random vector differ. */
  ghost predicate Renamed(m: State, m': State, rank: map<int, int>) {
    && RenamedInfos(m.info, m'.info, rank)
    && RenamedIndex(m.byAddr, m'.byAddr, rank)
    && RenamedIndex(m.newTable, m'.newTable, rank)
    && RenamedIndex(m.triedTable, m'.triedTable, rank)
    && m'.env == m.env && m'.nNew == m.nNew && m'.nTried == m.nTried
    && m'.idCount == |m.info| && m'.lastGood == 1
  }

  ghost predicate RenamedInfos(info: map<int, Info>, info': map<int, Info>, rank: map<int, int>) {
    && rank.Keys == info.Keys
    && (forall x, y | x in rank && y in rank && rank[x] == rank[y] :: x == y)
    && (forall x <- rank :: 0 <= rank[x] < |info|)
    && info'.Keys == (set x | x in rank :: rank[x])
    && (forall x <- rank :: rank[x] in info' && info'[rank[x]] == info[x].(lastTry := 0, lastCountAttempt := 0))
  }

  ghost predicate RenamedIndex<K(!new)>(index: map<K, int>, index': map<K, int>, rank: map<int, int>) {
    && index'.Keys == index.Keys
    && (forall k <- index :: index[k] in rank && index'[k] == rank[index[k]])
  }

  lemma FilledInfosRenamed(info: map<int, Info>, order: seq<int>, rank: map<int, int>, table: map<Slot, int>)
    requires Numbering(info, order, rank) && RefInv(info, table)
    ensures RenamedInfos(info, FilledInfos(info, order, table), rank)
    ensures |info| == |order|
  {
    var info' := FilledInfos(info, order, table);
    assert info.Keys == NewIds(info) + TriedIds(info);
    forall i | i in info' ensures exists x :: x in rank && rank[x] == i {
      assert rank[order[i]] == i;
    }
  }

  lemma RankedAll<K(!new)>(index: map<K, int>, rank: map<int, int>, n: int)
    requires forall k <- index :: index[k] in rank
    requires forall x <- rank :: rank[x] < n
    ensures RenamedIndex(index, Renumbered(index, rank, n), rank)
    ensures RenamedIndex(index, RenumberedAll(index, rank), rank)
  {
    var some, all := Renumbered(index, rank, n), RenumberedAll(index, rank);
    forall k | k in index ensures k in some && k in all {
      var id := index[k];
      assert rank[id] < n;
    }
  }

  lemma FilledIsRenamed(m: State, order: seq<int>, rank: map<int, int>, c: set<int>)
    requires RefInv(m.info, m.newTable) && Numbered(m, order, rank) && ListsRanked(m, rank)
    ensures Renamed(m, FilledState(m, order, rank, m.newTable, c), rank)
  {
    FilledInfosRenamed(m.info, order, rank, m.newTable);
    RankedAll(m.byAddr, rank, |order|);
    RankedAll(m.newTable, rank, |order|);
    RankedAll(m.triedTable, rank, |order|);
    hide RenamedInfos, RenamedIndex, Numbering, RefInv, ListsRanked, AddrInv, NewInv, TriedInv;
  }

  /** Nothing saved gets lost, and nothing else appears: a saved manager that is loaded again
      is the same manager up to a renaming of ids, and no exception is thrown. */
  lemma RoundTrip(m: State, c: set<int>) returns (m': State, rank: map<int, int>)
    requires Inv(m)
    ensures Restore(Save(m), c) == Ok(m') && Renamed(m, m', rank) && m'.collisions == c
    ensures OrderInv(m'.info.Keys, m'.random, m'.pos) && rank == Rank(SaveOrder(m.info))
  {
    var order := SaveOrder(m.info);
    rank := Rank(order);
    OrderNumbers(m.info);
    WithinLimits(m);
    TablesInRange(m);
    RankedIds(m, rank);
    assert Numbered(m, order, rank);
    assert RefInv(m.info, m.newTable);
    RestoreSaved(m, order, rank, c);
    m' := FilledState(m, order, rank, m.newTable, c);
    FilledIsRenamed(m, order, rank, c);
    FilledSound(m, order, rank, c);
  }

  lemma RankedIds(m: State, rank: map<int, int>)
    requires Inv(m) && rank.Keys == m.info.Keys
    ensures ListsRanked(m, rank)
  {
  }

  lemma FilledSound(m: State, order: seq<int>, rank: map<int, int>, c: set<int>)
    requires Inv(m) && Numbered(m, order, rank) && ListsRanked(m, rank)
    ensures var m' := FilledState(m, order, rank, m.newTable, c);
      && OrderInv(m'.info.Keys, m'.random, m'.pos)
      && (forall id <- m'.info :: m'.info[id].inTried || m'.info[id].refCount != 0)
      && m'.collisions == c
  {
    LoadedRange(m, order, rank, |order|, |order|, c);
    var m' := FilledState(m, order, rank, m.newTable, c);
    assert m'.info.Keys == LoadedState(m, order, rank, |order|, |order|, c).info.Keys;
    forall id | id in m'.info ensures m'.info[id].inTried || m'.info[id].refCount != 0 {
      assert m'.info[id].refCount == m.info[order[id]].refCount;
    }
  }

  lemma RestoreSaved(m: State, order: seq<int>, rank: map<int, int>, c: set<int>)
    requires Inv(m) && Numbered(m, order, rank) && ListsRanked(m, rank)
    requires order == SaveOrder(m.info) && rank == Rank(order)
    requires m.nNew <= NEW_BUCKET_COUNT * BUCKET_SIZE && m.nTried <= TRIED_BUCKET_COUNT * BUCKET_SIZE
    ensures Restore(Save(m), c) == Ok(FilledState(m, order, rank, m.newTable, c))
  {
    hide Inv, Numbered, FilledState, Save, SaveOrder, Rank, Rebuild, Cleared;
    CountsSplit(m, order, rank);
    SavedShape(m);
    assert FlipBit30(NEW_BUCKET_COUNT + 0x4000_0000) == NEW_BUCKET_COUNT;
    RebuildSaved(m, order, rank, c);
  }

  lemma CountsSplit(m: State, order: seq<int>, rank: map<int, int>)
    requires Numbered(m, order, rank)
    ensures 0 <= m.nNew <= m.nNew + m.nTried == |order|
  {
  }

  /** The loops of `Unserialize` on a saved manager. */
  lemma RebuildSaved(m: State, order: seq<int>, rank: map<int, int>, c: set<int>)
    requires Inv(m) && Numbered(m, order, rank) && ListsRanked(m, rank)
    requires 0 <= m.nNew <= m.nNew + m.nTried == |order|
    ensures Rebuild(Cleared(m.env, m.nNew, m.nTried, c), Records(m.info, order), BucketLists(m.newTable, rank),
                    m.nNew, m.nTried, NEW_BUCKET_COUNT, true)
         == FilledState(m, order, rank, m.newTable, c)
  {
    hide Inv, Numbered, LoadedState, FilledState, Covered, LoadNew, LoadTried, FillBuckets, Records, BucketLists,
      OrderInv, Prune, Cleared;
    TablesInRange(m);
    CoverStart(m.newTable);
    CoverAll(m.newTable, NEW_BUCKET_COUNT);
    LoadedFirst(m, order, rank, c);
    LoadNewAll(m, order, rank, 0, c);
    LoadTriedAll(m, order, rank, m.nNew, c);
    FilledFirst(m, order, rank, c);
    FillBucketsAll(m, order, rank, 0, c);
    FilledSound(m, order, rank, c);
    NothingToPrune(FilledState(m, order, rank, m.newTable, c), FilledState(m, order, rank, m.newTable, c).info.Keys);
  }

  lemma SavedShape(m: State)
    requires Inv(m)
    ensures ListsRanked(m, Rank(SaveOrder(m.info)))
    ensures forall i | 0 <= i < |SaveOrder(m.info)| :: SaveOrder(m.info)[i] in m.info
    ensures |SaveOrder(m.info)| == m.nNew + m.nTried
    ensures Save(m) == Saved(1, 32, m.env, m.nNew, m.nTried, NEW_BUCKET_COUNT + 0x4000_0000,
      Records(m.info, SaveOrder(m.info)), BucketLists(m.newTable, Rank(SaveOrder(m.info))))
  {
    hide Ascending;
    OrderNumbers(m.info);
    RankedIds(m, Rank(SaveOrder(m.info)));
  }

  lemma RenumberNone<K(!new)>(index: map<K, int>, rank: map<int, int>)
    requires forall x <- index :: index[x] in rank
    requires forall z <- rank :: rank[z] >= 0
    ensures Renumbered(index, rank, 0) == map[]
  {
    forall x | x in index ensures rank[index[x]] >= 0 {
      var id := index[x];
      assert rank[id] >= 0;
    }
  }

  lemma LoadedFirst(m: State, order: seq<int>, rank: map<int, int>, c: set<int>)
    requires Numbered(m, order, rank)
    ensures LoadedState(m, order, rank, 0, 0, c) == Cleared(m.env, m.nNew, m.nTried, c)
    ensures LoadedState(m, order, rank, m.nNew, m.nNew, c) == LoadedState(m, order, rank, m.nNew, 0, c).(idCount := m.nNew)
  {
    assert LoadedInfos(m.info, order, 0) == map[];
    RenumberNone(m.byAddr, rank);
    RenumberNone(m.triedTable, rank);
  }

  lemma FilledFirst(m: State, order: seq<int>, rank: map<int, int>, c: set<int>)
    requires Numbered(m, order, rank)
    ensures FilledState(m, order, rank, map[], c) == LoadedState(m, order, rank, |order|, |order|, c)
  {
    forall id ensures Refs(map[], id) == {} {
    }
    assert FilledInfos(m.info, order, map[]) == LoadedInfos(m.info, order, |order|);
  }

  lemma {:induction false} ImageSize(a: set<int>, b: set<int>, rank: map<int, int>)
    requires a <= rank.Keys && b == set x | x in a :: rank[x]
    requires forall x, y | x in rank && y in rank && rank[x] == rank[y] :: x == y
    ensures |a| == |b|
    decreases |a|
  {
    if a != {} {
      Inhabited(a);
      var x :| x in a;
      assert b - {rank[x]} == set y | y in a - {x} :: rank[y];
      ImageSize(a - {x}, b - {rank[x]}, rank);
    }
  }

  lemma RenamedRefs(t: map<Slot, int>, t': map<Slot, int>, rank: map<int, int>, x: int)
    requires RenamedIndex(t, t', rank) && x in rank
    requires forall x, y | x in rank && y in rank && rank[x] == rank[y] :: x == y
    ensures Refs(t', rank[x]) == Refs(t, x)
  {
  }

  lemma RenamedCounts(info: map<int, Info>, info': map<int, Info>, rank: map<int, int>)
    requires RenamedInfos(info, info', rank)
    ensures |NewIds(info')| == |NewIds(info)| && |TriedIds(info')| == |TriedIds(info)|
  {
    ImageSize(NewIds(info), NewIds(info'), rank);
    ImageSize(TriedIds(info), TriedIds(info'), rank);
  }

  lemma RenamedPlaced(m: State, m': State, rank: map<int, int>)
    requires Placed(m, {}, 0) && Renamed(m, m', rank)
    ensures Placed(m', {}, 0)
  {
    RenamedCounts(m.info, m'.info, rank);
    forall id | id in m'.info
      ensures m'.info[id].refCount == |Refs(m'.newTable, id)|
      ensures !m'.info[id].inTried ==> 1 <= m'.info[id].refCount <= NEW_BUCKETS_PER_ADDRESS
      ensures m'.info[id].inTried ==>
        var s := TriedSlot(m'.env, m'.info[id].addr); s in m'.triedTable && m'.triedTable[s] == id
    {
      var x :| x in rank && rank[x] == id;
      RenamedRefs(m.newTable, m'.newTable, rank, x);
      assert x in m.info;
    }
    RenamedSlots(m, m', rank);
  }

  lemma RenamedSlots(m: State, m': State, rank: map<int, int>)
    requires NewInv(m.env, m.info, m.newTable) && TriedInv(m.env, m.info, m.triedTable) && Renamed(m, m', rank)
    ensures NewInv(m'.env, m'.info, m'.newTable)
    ensures forall s <- m'.triedTable ::
      && m'.triedTable[s] in m'.info && m'.info[m'.triedTable[s]].inTried
      && s == TriedSlot(m'.env, m'.info[m'.triedTable[s]].addr)
  {
    forall s | s in m'.newTable
      ensures m'.newTable[s] in m'.info && !m'.info[m'.newTable[s]].inTried
      ensures 0 <= s.bucket < NEW_BUCKET_COUNT && s == NewSlotIn(m'.env, m'.info[m'.newTable[s]].addr, s.bucket)
    {
      assert s in m.newTable;
      RenamedEntry(m.info, m'.info, rank, m.newTable[s]);
    }
    forall s | s in m'.triedTable
      ensures m'.triedTable[s] in m'.info && m'.info[m'.triedTable[s]].inTried
      ensures s == TriedSlot(m'.env, m'.info[m'.triedTable[s]].addr)
    {
      assert s in m.triedTable;
      RenamedEntry(m.info, m'.info, rank, m.triedTable[s]);
    }
  }

  lemma RenamedEntry(info: map<int, Info>, info': map<int, Info>, rank: map<int, int>, x: int)
    requires RenamedInfos(info, info', rank) && x in info
    ensures x in rank && rank[x] in info'
    ensures info'[rank[x]].addr == info[x].addr && info'[rank[x]].inTried == info[x].inTried
  {
    assert x in rank;
  }

  lemma RenamedIndexed(m: State, m': State, rank: map<int, int>)
    requires Indexed(m) && Renamed(m, m', rank) && OrderInv(m'.info.Keys, m'.random, m'.pos)
    ensures Indexed(m')
  {
    forall id | id in m'.info
      ensures m'.info[id].addr.net in m'.byAddr && m'.byAddr[m'.info[id].addr.net] == id
      ensures 0 <= id < m'.idCount && m'.info[id].lastTry == 0 && m'.info[id].lastSuccess >= 0
      ensures m'.info[id].inTried ==> m'.info[id].lastSuccess != 0
    {
      var x :| x in rank && rank[x] == id;
      assert x in m.info;
    }
    forall a | a in m'.byAddr
      ensures m'.byAddr[a] in m'.info && m'.info[m'.byAddr[a]].addr.net == a
    {
      assert a in m.byAddr;
      RenamedEntry(m.info, m'.info, rank, m.byAddr[a]);
    }
  }

  // ---------------------------------------------------------------- the queue that survives

  /** Loading a saved manager gives all that `Check_` tests, whatever was queued before. */
  lemma RestoredCore(m: State, c: set<int>) returns (m': State, rank: map<int, int>)
    requires Inv(m)
    ensures Restore(Save(m), c) == Ok(m') && Core(m', {}, 0) && m'.collisions == c
    ensures Renamed(m, m', rank) && rank == Rank(SaveOrder(m.info))
  {
    m', rank := RoundTrip(m, c);
    hide Renamed, Restore, Save, Indexed, Placed;
    RenamedIndexed(m, m', rank);
    RenamedPlaced(m, m', rank);
  }

  /** What has to be so before the loading: the ids queued in the object are the numbers that entries
      get from the file, and the tried slots of those entries are filled. */
  ghost predicate QueueFits(m: State, c: set<int>) {
    && |c| <= SET_TRIED_COLLISION_SIZE
    && forall i <- c ::
         && 0 <= i < |SaveOrder(m.info)| && SaveOrder(m.info)[i] in m.info
         && TriedSlot(m.env, m.info[SaveOrder(m.info)[i]].addr) in m.triedTable
  }

  ghost predicate QueueFound(m': State, c: set<int>) {
    && |c| <= SET_TRIED_COLLISION_SIZE
    && forall id <- c :: id in m'.info && TriedSlot(m'.env, m'.info[id].addr) in m'.triedTable
  }

  /** The whole invariant holds after loading exactly if the ids left in the queue happen to fit. */
  lemma RestoredInv(m: State, c: set<int>)
    requires Inv(m)
    ensures Restore(Save(m), c).Ok?
    ensures Inv(Restore(Save(m), c).value) <==> QueueFound(Restore(Save(m), c).value, c)
    ensures Inv(Restore(Save(m), c).value) <==> QueueFits(m, c)
  {
    hide Inv, Restore, Save, Renamed, Rank, SaveOrder, QueueFound, QueueFits, Numbering;
    var m', rank := RestoredCore(m, c);
    OrderNumbers(m.info);
    NumbersFilled(m, m', SaveOrder(m.info), rank);
    CollisionsAre(m', c);
    FitsIsFound(m, m', SaveOrder(m.info), rank, c);
  }

  /** The ids after loading are 0, 1, 2, ..., in the order of the file. */
  lemma NumbersFilled(m: State, m': State, order: seq<int>, rank: map<int, int>)
    requires Renamed(m, m', rank) && Numbering(m.info, order, rank)
    ensures m'.idCount == |order| && forall i :: i in m'.info <==> 0 <= i < |order|
  {
    assert m.info.Keys == NewIds(m.info) + TriedIds(m.info);
    forall i | i in m'.info ensures 0 <= i < |order| {
      var x :| x in rank && rank[x] == i;
    }
    forall i | 0 <= i < |order| ensures i in m'.info {
      var x := order[i];
      assert x in rank && rank[x] == i;
      assert rank[x] in m'.info;
    }
  }

  lemma SameTried(m: State, m': State, rank: map<int, int>)
    requires Renamed(m, m', rank)
    ensures m'.triedTable.Keys == m.triedTable.Keys
  {
  }

  lemma CollisionsAre(m': State, c: set<int>)
    requires Core(m', {}, 0) && m'.collisions == c && forall i :: i in m'.info <==> 0 <= i < m'.idCount
    ensures Inv(m') <==> QueueFound(m', c)
  {
    hide Core;
  }

  lemma FitsIsFound(m: State, m': State, order: seq<int>, rank: map<int, int>, c: set<int>)
    requires Renamed(m, m', rank) && Numbering(m.info, order, rank) && order == SaveOrder(m.info)
    requires m'.idCount == |order| && forall i :: i in m'.info <==> 0 <= i < |order|
    ensures QueueFits(m, c) <==> QueueFound(m', c)
  {
    hide SaveOrder;
    forall i | i in c && 0 <= i < |order|
      ensures order[i] in m.info
      ensures TriedSlot(m.env, m.info[order[i]].addr) in m.triedTable <==> TriedSlot(m'.env, m'.info[i].addr) in m'.triedTable
    {
      assert rank[order[i]] == i;
      RenamedEntry(m.info, m'.info, rank, order[i]);
    }
  }

  /** It is not always so: one new entry, loaded into an object that has its number queued, is a
      queued entry whose tried slot is empty. */
  lemma QueuedBeforeLoading(env: Env, a: Address, source: NetAddr, now: int) returns (m: State, m': State)
    requires env.routable(a.service.net)
    ensures Inv(m) && m.info.Keys == {0}
    ensures Restore(Save(m), {0}) == Ok(m') && m'.collisions == {0} && 0 in m'.info
    ensures TriedSlot(m'.env, m'.info[0].addr) !in m'.triedTable && !Inv(m')
  {
    m := OneNewEntry(env, a, source, now);
    var rank;
    m', rank := RestoredCore(m, {0});
    hide Inv, Restore, Save, Rank, Core, Renamed, SaveOrder, Numbering;
    OrderNumbers(m.info);
    NumbersFilled(m, m', SaveOrder(m.info), rank);
    SameTried(m, m', rank);
    HasNumber(m.info, SaveOrder(m.info), rank, 0);
    NotFound(m');
  }

  lemma HasNumber(info: map<int, Info>, order: seq<int>, rank: map<int, int>, x: int)
    requires Numbering(info, order, rank) && x in info
    ensures |order| > 0
  {
    assert x in rank;
  }

  lemma NotFound(m': State)
    requires 0 in m'.collisions && 0 in m'.info && TriedSlot(m'.env, m'.info[0].addr) !in m'.triedTable
    ensures !Inv(m')
  {
    hide Core;
  }

  lemma OneNewEntry(env: Env, a: Address, source: NetAddr, now: int) returns (m: State)
    requires env.routable(a.service.net)
    ensures Inv(m) && m.info.Keys == {0} && m.triedTable == map[]
  {
    var empty := Empty(env);
    EmptyInv(env);
    m := Add(empty, a, source, 0, now, 0);
    AddInv(empty, a, source, 0, now, 0);
    var m1 := Admitted(empty, a, source, Penalty(a, source, 0));
    AdmittedCore(empty, a, source, Penalty(a, source, 0));
    assert m1.info.Keys == {0} && m1.newTable == map[];
    hide Inv;
    assert m == Register(m1, 0, source, now);
  }

  /** `Clear` leaves the queue as well; only an empty one fits an empty manager. */
  lemma ClearedInv(env: Env, c: set<int>)
    ensures Inv(Empty(env).(collisions := c)) <==> c == {}
  {
    EmptyInv(env);
    var m := Empty(env).(collisions := c);
    if c == {} {
      assert m == Empty(env);
    } else {
      Inhabited(c);
    }
  }
}
