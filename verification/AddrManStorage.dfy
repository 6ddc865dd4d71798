/**
 `Serialize` and `Unserialize` of src/addrman.h, loop by loop, proved against
 AddrManSaved.
 */
module AddrManStorage {
  import opened AddrMan
  import opened AddrManOps
  import opened AddrManSaved
  import opened AddrManState
  import opened Helpers

  // ---------------------------------------------------------------- Serialize

  ghost predicate Strictly(a: seq<int>) {
    forall i, j | 0 <= i < j < |a| :: a[i] < a[j]
  }

  lemma StartIn(s: seq<int>)
    ensures s == [] || s[0] in s
  {
  }

  /** A set has only one listing in ascending order. */
  lemma {:induction false} OneAscent(a: seq<int>, b: seq<int>)
    requires Strictly(a) && Strictly(b) && forall x :: x in a <==> x in b
    ensures a == b
    decreases |a|
  {
    StartIn(a);
    StartIn(b);
    if a != [] {
      assert a[0] in b && b != [] && b[0] in a;
      assert a[0] == b[0];
      forall x ensures x in a[1..] <==> x in b[1..] {
        assert x in a[1..] <==> x in a && x != a[0];
        assert x in b[1..] <==> x in b && x != b[0];
      }
      OneAscent(a[1..], b[1..]);
    }
  }

  /** The entries already walked that belong to one of the two groups, in order. */
  ghost predicate Walked(info: map<int, Info>, todo: set<int>, tried: bool, order: seq<int>) {
    && todo <= info.Keys
    && Strictly(order)
    && (forall x :: x in order <==> x in info && x !in todo && info[x].inTried == tried)
    && (forall x, y | x in info && x !in todo && y in todo :: x < y)
  }

  lemma WalkStep(info: map<int, Info>, todo: set<int>, tried: bool, order: seq<int>, x: int)
    requires Walked(info, todo, tried, order) && x in todo && forall y <- todo :: x <= y
    ensures Walked(info, todo - {x}, tried, if info[x].inTried == tried then order + [x] else order)
    ensures info[x].inTried == tried ==>
      x in (if tried then TriedIds(info) else NewIds(info)) && |order| < |if tried then TriedIds(info) else NewIds(info)|
  {
    var group := if tried then TriedIds(info) else NewIds(info);
    forall z, y | z in info && z !in todo - {x} && y in todo - {x} ensures z < y {
      assert z == x || z !in todo;
    }
    if info[x].inTried == tried {
      forall i | 0 <= i < |order| ensures order[i] < x {
        assert order[i] in order;
      }
      assert forall z :: z in order + [x] <==> z in order || z == x;
      var done := set y | y in order;
      assert done <= group - {x};
      SmallerSet(done, group - {x});
      AscentSize(order);
    }
  }

  lemma {:induction false} AscentSize(a: seq<int>)
    requires Strictly(a)
    ensures |set y | y in a| == |a|
  {
    if a != [] {
      AscentSize(a[1..]);
      assert (set y | y in a) == (set y | y in a[1..]) + {a[0]};
    }
  }

  lemma WalkEnd(info: map<int, Info>, tried: bool, order: seq<int>)
    requires Walked(info, {}, tried, order)
    ensures order == Ascending(if tried then TriedIds(info) else NewIds(info))
  {
    OneAscent(order, Ascending(if tried then TriedIds(info) else NewIds(info)));
  }

  /** The part of the walk's state that the records and numbers depend on. */
  ghost predicate Written(info: map<int, Info>, order: seq<int>, entries: seq<Record>, mapUnkIds: map<int, int>, todo: set<int>) {
    && |entries| == |order|
    && (forall i | 0 <= i < |order| :: order[i] in info && entries[i] == ToRecord(info[order[i]]))
    && (forall i | 0 <= i < |order| :: order[i] in mapUnkIds && mapUnkIds[order[i]] == i && order[i] !in todo)
  }

  lemma WrittenNumber(info: map<int, Info>, order: seq<int>, entries: seq<Record>, ids: map<int, int>, todo: set<int>, x: int, n: int)
    requires Written(info, order, entries, ids, todo) && x in todo && x in info
    ensures Written(info, order, entries, ids[x := n], todo - {x})
    ensures n == |order| ==>
      Written(info, order + [x], entries + [ToRecord(info[x])], ids[x := n], todo - {x})
  {
  }

  /** One of the two walks over `mapInfo`.  `mapUnkIds` numbers every entry by the number of
      records written before it. */
  method WriteEntries(a: AddrManager, tried: bool) returns (entries: seq<Record>, mapUnkIds: map<int, int>)
    requires a.Valid()
    ensures var order := Ascending(if tried then TriedIds(a.View().info) else NewIds(a.View().info));
      && (forall i | 0 <= i < |order| :: order[i] in a.View().info)
      && entries == Records(a.View().info, order)
      && (forall i | 0 <= i < |order| :: order[i] in mapUnkIds && mapUnkIds[order[i]] == i)
  {
    hide Inv, Walked, Written, Table, Ascending;
    ghost var info := a.View().info;
    CountsExact(a.View());
    ghost var order: seq<int> := [];
    entries, mapUnkIds := [], map[];
    var nIds := 0;
    var todo := a.mapInfo.Keys;
    assert todo == info.Keys;
    WalkStart(info, tried);
    while todo != {}
      invariant todo <= a.mapInfo.Keys && Walked(info, todo, tried, order)
      invariant nIds == |order| && Written(info, order, entries, mapUnkIds, todo)
      decreases |todo|
    {
      HasLeast(todo);
      var id :| id in todo && forall y <- todo :: id <= y;
      var e := a.mapInfo[id].info;
      assert id in info && e == info[id];
      WalkStep(info, todo, tried, order, id);
      WrittenNumber(info, order, entries, mapUnkIds, todo, id, nIds);
      mapUnkIds := mapUnkIds[id := nIds];
      if (if tried then e.inTried else e.refCount != 0) {
        assert nIds != if tried then a.nTried else a.nNew;
        entries := entries + [ToRecord(e)];
        nIds := nIds + 1;
        order := order + [id];
      }
      todo := todo - {id};
    }
    WalkEnd(info, tried, order);
    WrittenRecords(info, order, entries, mapUnkIds);
  }

  lemma WrittenRecords(info: map<int, Info>, order: seq<int>, entries: seq<Record>, ids: map<int, int>)
    requires Written(info, order, entries, ids, {})
    ensures forall i | 0 <= i < |order| :: order[i] in info && order[i] in ids && ids[order[i]] == i
    ensures entries == Records(info, order)
  {
  }

  lemma WalkStart(info: map<int, Info>, tried: bool)
    ensures Walked(info, info.Keys, tried, []) && Written(info, [], [], map[], info.Keys)
  {
  }

  lemma CountsExact(m: State)
    requires Inv(m)
    ensures m.nNew == |NewIds(m.info)| && m.nTried == |TriedIds(m.info)|
    ensures forall id <- m.info :: m.info[id].refCount != 0 <==> !m.info[id].inTried
  {
    forall id | id in m.info && m.info[id].inTried ensures m.info[id].refCount == 0 {
      assert Refs(m.newTable, id) == {};
    }
  }

  /** The buckets: how many entries, then the number of each. */
  method WriteBuckets(a: AddrManager, mapUnkIds: map<int, int>, ghost rank: map<int, int>) returns (buckets: seq<seq<int>>)
    requires a.Shape()
    requires forall s <- a.View().newTable :: var id := a.View().newTable[s]; id in rank && id in mapUnkIds && mapUnkIds[id] == rank[id]
    ensures buckets == BucketLists(a.View().newTable, rank)
  {
    hide Table, BucketList, a.Shape;
    ghost var t := a.View().newTable;
    buckets := [];
    while |buckets| < NEW_BUCKET_COUNT
      invariant |buckets| <= NEW_BUCKET_COUNT
      invariant forall b | 0 <= b < |buckets| :: buckets[b] == BucketList(t, rank, b, 0)
    {
      var list := WriteBucket(a, |buckets|, mapUnkIds, rank);
      buckets := buckets + [list];
    }
  }

  method WriteBucket(a: AddrManager, bucket: int, mapUnkIds: map<int, int>, ghost rank: map<int, int>) returns (list: seq<int>)
    requires a.Shape() && 0 <= bucket < NEW_BUCKET_COUNT
    requires forall s <- a.View().newTable :: var id := a.View().newTable[s]; id in rank && id in mapUnkIds && mapUnkIds[id] == rank[id]
    ensures list == BucketList(a.View().newTable, rank, bucket, 0)
  {
    hide Table;
    ghost var t := a.View().newTable;
    list := [];
    var i := 0;
    while i < BUCKET_SIZE
      invariant 0 <= i <= BUCKET_SIZE
      invariant BucketList(t, rank, bucket, 0) == list + BucketList(t, rank, bucket, i)
    {
      a.ReadNew(Slot(bucket, i));
      if a.vvNew[bucket, i] != -1 {
        var nIndex := mapUnkIds[a.vvNew[bucket, i]];
        assert list + ([nIndex] + BucketList(t, rank, bucket, i + 1)) == list + [nIndex] + BucketList(t, rank, bucket, i + 1);
        list := list + [nIndex];
      }
      i := i + 1;
    }
  }

  /** Writing the manager changes nothing and writes what AddrManSaved says; neither assertion
      about wrong counters can fail. */
  method Serialize(a: AddrManager) returns (s: Saved)
    requires a.Valid()
    ensures NewInv(a.View().env, a.View().info, a.View().newTable) && a.nNew >= 0 && a.nTried >= 0
    ensures s == Save(a.View())
  {
    var newEntries, mapUnkIds := WriteEntries(a, false);
    var triedEntries, _ := WriteEntries(a, true);
    SavedParts(a.View());
    NumbersAgree(a.View().info, a.View().newTable, mapUnkIds);
    RecordsSplit(a.View().info);
    hide Inv, NewInv, Rank, SaveOrder, Ascending, Table;
    var buckets := WriteBuckets(a, mapUnkIds, Rank(SaveOrder(a.View().info)));
    s := Saved(1, 32, a.env, a.nNew, a.nTried, FlipBit30(NEW_BUCKET_COUNT), newEntries + triedEntries, buckets);
  }

  lemma NumbersAgree(info: map<int, Info>, table: map<Slot, int>, ids: map<int, int>)
    requires forall s <- table :: table[s] in NewIds(info)
    requires forall i | 0 <= i < |Ascending(NewIds(info))| ::
      Ascending(NewIds(info))[i] in ids && ids[Ascending(NewIds(info))[i]] == i
    ensures var rank := Rank(SaveOrder(info));
      forall s <- table :: var id := table[s]; id in rank && id in ids && ids[id] == rank[id]
  {
    hide Rank, Ascending;
    OrderNumbers(info);
    var order, rank := Ascending(NewIds(info)), Rank(SaveOrder(info));
    forall s | s in table
      ensures var id := table[s]; id in rank && id in ids && ids[id] == rank[id]
    {
      assert table[s] in order;
      var i :| 0 <= i < |order| && order[i] == table[s];
      assert order[i] in ids && ids[order[i]] == i;
      assert SaveOrder(info)[i] == order[i];
    }
  }

  lemma SavedParts(m: State)
    requires Inv(m)
    ensures m.nNew >= 0 && m.nTried >= 0 && NewInv(m.env, m.info, m.newTable)
    ensures forall s <- m.newTable :: m.newTable[s] in NewIds(m.info)
  {
  }

  lemma RecordsSplit(info: map<int, Info>)
    ensures var n, t, order := Ascending(NewIds(info)), Ascending(TriedIds(info)), SaveOrder(info);
      && (forall i | 0 <= i < |n| :: n[i] in info) && (forall i | 0 <= i < |t| :: t[i] in info)
      && (forall i | 0 <= i < |order| :: order[i] in info)
      && Records(info, order) == Records(info, n) + Records(info, t)
  {
    hide Ascending;
    var n, t := Ascending(NewIds(info)), Ascending(TriedIds(info));
    forall i | 0 <= i < |n| ensures n[i] in info { assert n[i] in NewIds(info); }
    forall i | 0 <= i < |t| ensures t[i] in info { assert t[i] in TriedIds(info); }
    assert SaveOrder(info) == n + t;
  }

  // ---------------------------------------------------------------- Unserialize

  method EnterEntry(a: AddrManager, n: int, e: Info)
    requires a.Shape()
    modifies a`mapInfo, a`mapAddr, a`vRandom
    ensures a.View() == Enter(old(a.View()), n, e)
    ensures n in a.mapInfo
  {
    EntryWritten(a.mapInfo, n, Entry(e, |a.vRandom|));
    a.mapInfo := a.mapInfo[n := Entry(e, |a.vRandom|)];
    a.mapAddr := a.mapAddr[e.addr.net := n];
    a.vRandom := a.vRandom + [n];
  }

  method ReadNewEntry(a: AddrManager, r: Record, n: nat, primary: bool)
    requires a.Shape()
    modifies a`mapInfo, a`mapAddr, a`vRandom, a.vvNew
    ensures a.View() == LoadNewOne(old(a.View()), r, n, primary)
  {
    EnterEntry(a, n, FromRecord(r));
    if primary {
      var u := NewSlot(a.env, r.addr.service, r.source);
      a.ReadNew(u);
      if a.vvNew[u.bucket, u.pos] == -1 {
        a.Refer(u, n);
      }
    }
  }

  method ReadTriedEntry(a: AddrManager, r: Record) returns (lost: nat)
    requires a.Shape() && a.nIdCount >= 0
    modifies a`mapInfo, a`mapAddr, a`vRandom, a`nIdCount, a.vvTried
    ensures a.View().(nTried := a.nTried - lost) == LoadTriedOne(old(a.View()), r)
    ensures a.nIdCount >= 0
  {
    var e := FromRecord(r);
    var s := TriedSlot(a.env, e.addr);
    a.ReadTried(s);
    if a.vvTried[s.bucket, s.pos] == -1 {
      e := e.(inTried := true);
      EnterEntry(a, a.nIdCount, e);
      a.SetTried(s, a.nIdCount);
      a.nIdCount := a.nIdCount + 1;
      lost := 0;
    } else {
      lost := 1;
    }
  }

  method ReadPosition(a: AddrManager, bucket: int, nIndex: int, usable: bool)
    requires a.Shape() && 0 <= bucket && (usable ==> bucket < NEW_BUCKET_COUNT)
    requires forall i | 0 <= i < a.nNew :: i in a.mapInfo
    modifies a`mapInfo, a.vvNew
    ensures a.View() == FillOne(old(a.View()), bucket, nIndex, usable)
    ensures a.mapInfo.Keys == old(a.mapInfo.Keys)
  {
    if nIndex >= 0 && nIndex < a.nNew {
      var s := NewSlotIn(a.env, a.mapInfo[nIndex].info.addr, bucket);
      assert nIndex in a.View().info && a.View().info[nIndex] == a.mapInfo[nIndex].info;
      if usable {
        a.ReadNew(s);
        if a.vvNew[s.bucket, s.pos] == -1 && a.mapInfo[nIndex].info.refCount < NEW_BUCKETS_PER_ADDRESS {
          a.Refer(s, nIndex);
          assert a.mapInfo.Keys == a.View().info.Keys;
        }
      }
    }
  }

  /** Entries of the new table, numbered in the order in which they come. */
  method ReadNewEntries(a: AddrManager, entries: seq<Record>, nNew: nat, primary: bool)
    requires a.Shape() && nNew <= |entries| && IdRange(a.View(), 0)
    modifies a`mapInfo, a`mapAddr, a`vRandom, a.vvNew
    ensures a.View() == LoadNew(old(a.View()), entries, 0, nNew, primary)
  {
    hide LoadNewOne, IdRange;
    var n := 0;
    while n < nNew
      invariant 0 <= n <= nNew && IdRange(a.View(), n)
      invariant LoadNew(a.View(), entries, n, nNew, primary) == LoadNew(old(a.View()), entries, 0, nNew, primary)
    {
      LoadNewRange(a.View(), entries[n], n, primary);
      ReadNewEntry(a, entries[n], n, primary);
      n := n + 1;
    }
  }

  lemma LoadNewRange(m: State, r: Record, n: nat, primary: bool)
    requires IdRange(m, n)
    ensures IdRange(LoadNewOne(m, r, n, primary), n + 1)
  {
    AddToOrder(m.info.Keys, m.random, m.pos, n);
    assert LoadNewOne(m, r, n, primary).info.Keys == m.info.Keys + {n};
  }

  lemma LoadTriedRange(m: State, r: Record)
    requires m.idCount >= 0 && IdRange(m, m.idCount)
    ensures IdRange(LoadTriedOne(m, r), LoadTriedOne(m, r).idCount)
  {
    if TriedSlot(m.env, r.addr.service) !in m.triedTable {
      AddToOrder(m.info.Keys, m.random, m.pos, m.idCount);
      assert LoadTriedOne(m, r).info.Keys == m.info.Keys + {m.idCount};
    }
  }

  ghost function Minus(m: State, lost: int): State {
    m.(nTried := m.nTried - lost)
  }

  /** The counter of tried entries is corrected once, after the loop. */
  lemma MinusLoads(m: State, r: Record, lost: int)
    ensures Minus(LoadTriedOne(m, r), lost) == LoadTriedOne(Minus(m, lost), r)
    ensures forall k :: Minus(Minus(m, lost), k) == Minus(m, lost + k)
  {
  }

  method ReadTriedEntries(a: AddrManager, entries: seq<Record>, nNew: nat, upto: nat)
    requires a.Shape() && nNew <= upto <= |entries| && a.nIdCount >= 0 && IdRange(a.View(), a.nIdCount)
    modifies a`mapInfo, a`mapAddr, a`vRandom, a`nIdCount, a`nTried, a.vvTried
    ensures a.View() == LoadTried(old(a.View()), entries, nNew, upto)
  {
    hide LoadTriedOne, IdRange, Minus;
    var nLost := 0;
    var n := nNew;
    ghost var m := a.View();
    MinusNothing(m);
    while n < upto
      invariant nNew <= n <= upto && a.nIdCount >= 0
      invariant Minus(a.View(), nLost).idCount == a.nIdCount && IdRange(Minus(a.View(), nLost), a.nIdCount)
      invariant LoadTried(Minus(a.View(), nLost), entries, n, upto) == LoadTried(m, entries, nNew, upto)
    {
      LoadTriedRange(Minus(a.View(), nLost), entries[n]);
      MinusLoads(a.View(), entries[n], nLost);
      var lost := ReadOneTried(a, entries[n], nLost);
      nLost := nLost + lost;
      n := n + 1;
    }
    MinusIs(a.View(), nLost);
    a.nTried := a.nTried - nLost;
  }

  lemma MinusNothing(m: State)
    ensures Minus(m, 0) == m
  {
  }

  lemma MinusIs(m: State, lost: int)
    ensures Minus(m, lost) == m.(nTried := m.nTried - lost)
  {
  }

  method ReadOneTried(a: AddrManager, r: Record, ghost nLost: int) returns (lost: nat)
    requires a.Shape() && a.nIdCount >= 0
    modifies a`mapInfo, a`mapAddr, a`vRandom, a`nIdCount, a.vvTried
    ensures Minus(a.View(), nLost + lost) == LoadTriedOne(Minus(old(a.View()), nLost), r)
    ensures a.nIdCount >= 0 && Minus(a.View(), nLost + lost).idCount == a.nIdCount
  {
    MinusLoads(a.View(), r, nLost);
    lost := ReadTriedEntry(a, r);
    hide LoadTriedOne;
  }

  /** Positions in the new table. */
  method ReadBucket(a: AddrManager, bucket: int, list: seq<int>, usable: bool)
    requires a.Shape() && 0 <= bucket && (usable ==> bucket < NEW_BUCKET_COUNT)
    requires forall i | 0 <= i < a.nNew :: i in a.mapInfo
    modifies a`mapInfo, a.vvNew
    ensures a.View() == FillBucket(old(a.View()), bucket, list, usable)
    ensures a.mapInfo.Keys == old(a.mapInfo.Keys)
  {
    hide FillOne;
    var n := 0;
    assert list[0..] == list;
    while n < |list|
      invariant 0 <= n <= |list| && a.mapInfo.Keys == old(a.mapInfo.Keys)
      invariant FillBucket(a.View(), bucket, list[n..], usable) == FillBucket(old(a.View()), bucket, list, usable)
    {
      assert list[n..][1..] == list[n + 1..];
      ReadPosition(a, bucket, list[n], usable);
      n := n + 1;
    }
  }

  method ReadBuckets(a: AddrManager, buckets: seq<seq<int>>, nUBuckets: nat, usable: bool)
    requires a.Shape() && nUBuckets <= |buckets| && (usable ==> nUBuckets == NEW_BUCKET_COUNT)
    requires forall i | 0 <= i < a.nNew :: i in a.mapInfo
    modifies a`mapInfo, a.vvNew
    ensures a.View() == FillBuckets(old(a.View()), buckets, 0, nUBuckets, usable)
    ensures a.mapInfo.Keys == old(a.mapInfo.Keys)
  {
    hide FillBucket;
    var bucket := 0;
    while bucket < nUBuckets
      invariant 0 <= bucket <= nUBuckets && a.mapInfo.Keys == old(a.mapInfo.Keys)
      invariant FillBuckets(a.View(), buckets, bucket, nUBuckets, usable)
             == FillBuckets(old(a.View()), buckets, 0, nUBuckets, usable)
    {
      ReadBucket(a, bucket, buckets[bucket], usable);
      bucket := bucket + 1;
    }
  }

  /** Prunes new entries without a place. */
  method PruneEntries(a: AddrManager)
    requires a.Shape() && OrderInv(a.View().info.Keys, a.vRandom, a.View().pos)
    modifies a
    ensures a.View() == Prune(old(a.View()), old(a.View()).info.Keys)
  {
    hide OrderInv;
    var todo := a.mapInfo.Keys;
    assert todo == a.View().info.Keys;
    while todo != {}
      invariant OrderInv(a.View().info.Keys, a.vRandom, a.View().pos) && todo <= a.mapInfo.Keys
      invariant Prune(a.View(), todo) == Prune(old(a.View()), old(a.View()).info.Keys)
      decreases |todo|
    {
      HasLeast(todo);
      var id :| id in todo && forall y <- todo :: id <= y;
      assert id == Least(todo);
      assert id in a.View().info && a.View().info[id] == a.mapInfo[id].info;
      if !a.mapInfo[id].info.inTried && a.mapInfo[id].info.refCount == 0 {
        ghost var m := a.View();
        PruneDeletes(m, id);
        a.Delete(id);
        assert a.mapInfo.Keys == a.View().info.Keys;
      }
      todo := todo - {id};
    }
  }

  lemma PruneDeletes(m: State, id: int)
    requires OrderInv(m.info.Keys, m.random, m.pos) && id in m.info
    ensures Delete(m, id).info.Keys == m.info.Keys - {id}
    ensures OrderInv(Delete(m, id).info.Keys, Delete(m, id).random, Delete(m, id).pos)
  {
    DeleteOrder(m, id);
    assert Delete(m, id).info.Keys == m.info.Keys - {id};
  }

  /** Reading back; on an exception the state is unspecified, as in the source. */
  method Unserialize(a: AddrManager, s: Saved) returns (err: Result<()>)
    requires a.Shape()
    modifies a, a.vvNew, a.vvTried
    ensures var r := Restore(s, old(a.triedCollisions));
      && (r.Ok? <==> err.Ok?)
      && (r.Ok? ==> a.View() == r.value)
      && (r.Err? ==> err == Err(r.error))
  {
    hide Prune, FillBuckets, LoadTried, LoadNew, Table;
    a.Clear(s.key);
    var nUBuckets := s.nUBuckets;
    if s.version != 0 {
      nUBuckets := FlipBit30(nUBuckets);
    }
    if s.keySize != 32 {
      return Err(IncorrectKeySize);
    }
    a.nNew := s.nNew;
    a.nTried := s.nTried;
    if s.nNew > NEW_BUCKET_COUNT * BUCKET_SIZE {
      return Err(NewExceedsLimit);
    }
    if s.nTried > TRIED_BUCKET_COUNT * BUCKET_SIZE {
      return Err(TriedExceedsLimit);
    }
    if |s.entries| < s.nNew + s.nTried || |s.buckets| < nUBuckets {
      return Err(EndOfData);
    }
    RebuildFrom(a, s, nUBuckets);
    return Ok(());
  }

  method RebuildFrom(a: AddrManager, s: Saved, nUBuckets: nat)
    requires a.Shape() && s.nNew + s.nTried <= |s.entries| && nUBuckets <= |s.buckets|
    requires IdRange(a.View(), 0) && a.nNew == s.nNew
    modifies a, a.vvNew, a.vvTried
    ensures a.View() == Rebuild(old(a.View()), s.entries, s.buckets, s.nNew, s.nTried, nUBuckets,
                                s.version == 1 && nUBuckets == NEW_BUCKET_COUNT)
  {
    hide Prune, FillBuckets, LoadTried, LoadNew, Table, OrderInv;
    var usable := s.version == 1 && nUBuckets == NEW_BUCKET_COUNT;
    ReadNewEntries(a, s.entries, s.nNew, !usable);
    a.nIdCount := s.nNew;
    assert IdRange(a.View(), s.nNew);
    ReadTriedEntries(a, s.entries, s.nNew, s.nNew + s.nTried);
    assert a.mapInfo.Keys == a.View().info.Keys;
    ReadBuckets(a, s.buckets, nUBuckets, usable);
    PruneEntries(a);
  }
}
