/**
 Loading a file of the address manager whose buckets are of another shape (src/addrman.h): which new
 entries get a place then, and that the other ones are dropped.
 */
module AddrManForeign {
  import opened AddrManOps
  import opened AddrManSaved
  import opened AddrManState
  import opened Helpers

  /** The slot that the source of the `i`-th entry gives it. */
  function PrimarySlot(key: Env, entries: seq<Record>, i: nat): Slot
    requires i < |entries|
  {
    NewSlot(key, entries[i].addr.service, entries[i].source)
  }

  /** No entry before it is given the same. */
  ghost predicate ComesFirst(key: Env, entries: seq<Record>, i: nat)
    requires i < |entries|
  {
    forall j: nat | j < i :: PrimarySlot(key, entries, j) != PrimarySlot(key, entries, i)
  }

  /** An entry as it was written, in `refCount` buckets. */
  function AsNew(r: Record, refCount: int): Info {
    Info(r.addr.service, r.addr.time, r.addr.services, r.source, 0, 0, r.lastSuccess, r.attempts, refCount, false)
  }

  /** Of the first `n` entries those that come first have their slots, and no other slot is filled. */
  ghost predicate FirstPlaced(m: State, entries: seq<Record>, n: nat)
    requires n <= |entries|
  {
    FirstEntered(m.env, m.info, entries, n) && FirstHold(m.env, m.newTable, entries, n)
  }

  ghost predicate FirstEntered(key: Env, info: map<int, Info>, entries: seq<Record>, n: nat)
    requires n <= |entries|
  {
    forall i: nat | i < n :: i in info && info[i] == AsNew(entries[i], if ComesFirst(key, entries, i) then 1 else 0)
  }

  ghost predicate FirstHold(key: Env, table: map<Slot, int>, entries: seq<Record>, n: nat)
    requires n <= |entries|
  {
    && (forall i: nat | i < n && ComesFirst(key, entries, i) ::
          PrimarySlot(key, entries, i) in table && table[PrimarySlot(key, entries, i)] == i)
    && (forall s <- table :: 0 <= table[s] < n && PrimarySlot(key, entries, table[s]) == s)
  }

  /** The first that is given a slot. */
  lemma {:induction false} SomeComesFirst(key: Env, entries: seq<Record>, i: nat) returns (j: nat)
    requires i < |entries|
    ensures j <= i && PrimarySlot(key, entries, j) == PrimarySlot(key, entries, i) && ComesFirst(key, entries, j)
  {
    if ComesFirst(key, entries, i) {
      j := i;
    } else {
      var k: nat :| k < i && PrimarySlot(key, entries, k) == PrimarySlot(key, entries, i);
      j := SomeComesFirst(key, entries, k);
    }
  }

  lemma LoadNewOnePlaces(m: State, entries: seq<Record>, n: nat)
    requires n < |entries| && FirstPlaced(m, entries, n)
    ensures FirstPlaced(LoadNewOne(m, entries[n], n, true), entries, n + 1)
    ensures LoadNewOne(m, entries[n], n, true).env == m.env
  {
    hide LoadNewOne, PrimarySlot, ComesFirst, FirstEntered, FirstHold;
    FirstIfFree(m.env, m.newTable, entries, n);
    LoadNewOneIs(m, entries, n);
    EnteredNext(m.env, m.info, entries, n);
    HoldNext(m.env, m.newTable, entries, n);
  }

  lemma EnteredNext(key: Env, info: map<int, Info>, entries: seq<Record>, n: nat)
    requires n < |entries| && FirstEntered(key, info, entries, n)
    ensures FirstEntered(key, info[n := AsNew(entries[n], if ComesFirst(key, entries, n) then 1 else 0)], entries, n + 1)
  {
    hide ComesFirst;
  }

  lemma HoldNext(key: Env, table: map<Slot, int>, entries: seq<Record>, n: nat)
    requires n < |entries| && FirstHold(key, table, entries, n)
    requires ComesFirst(key, entries, n) <==> PrimarySlot(key, entries, n) !in table
    ensures FirstHold(key, if PrimarySlot(key, entries, n) in table then table else table[PrimarySlot(key, entries, n) := n], entries, n + 1)
  {
    hide ComesFirst, PrimarySlot;
  }

  lemma FirstIfFree(key: Env, table: map<Slot, int>, entries: seq<Record>, n: nat)
    requires n < |entries| && FirstHold(key, table, entries, n)
    ensures ComesFirst(key, entries, n) <==> PrimarySlot(key, entries, n) !in table
  {
    hide PrimarySlot;
    var j := SomeComesFirst(key, entries, n);
  }

  lemma LoadNewOneIs(m: State, entries: seq<Record>, n: nat)
    requires n < |entries|
    ensures var m', u := LoadNewOne(m, entries[n], n, true), PrimarySlot(m.env, entries, n);
      && m'.env == m.env
      && m'.info == m.info[n := AsNew(entries[n], if u !in m.newTable then 1 else 0)]
      && m'.newTable == if u !in m.newTable then m.newTable[u := n] else m.newTable
  {
  }

  lemma {:induction false} LoadNewPlaces(m: State, entries: seq<Record>, n: nat, upto: nat)
    requires n <= upto <= |entries| && IdRange(m, n) && FirstPlaced(m, entries, n)
    ensures FirstPlaced(LoadNew(m, entries, n, upto, true), entries, upto)
    decreases upto - n
  {
    hide LoadNewOne, FirstPlaced;
    if n < upto {
      LoadNewOnePlaces(m, entries, n);
      LoadNewOneRange(m, entries, n);
      LoadNewPlaces(LoadNewOne(m, entries[n], n, true), entries, n + 1, upto);
    }
  }

  lemma LoadNewOneRange(m: State, entries: seq<Record>, n: nat)
    requires n < |entries| && IdRange(m, n)
    ensures IdRange(LoadNewOne(m, entries[n], n, true), n + 1)
  {
    AddToOrder(m.info.Keys, m.random, m.pos, n);
    assert LoadNewOne(m, entries[n], n, true).info.Keys == m.info.Keys + {n};
  }

  /** Loading tried entries changes no id in use and no new slot. */
  lemma {:induction false} LoadTriedKeeps(m: State, entries: seq<Record>, n: nat, upto: nat)
    requires n <= upto <= |entries| && m.idCount >= 0 && IdRange(m, m.idCount)
    ensures var r := LoadTried(m, entries, n, upto);
      && r.newTable == m.newTable
      && (forall i <- m.info :: i in r.info && r.info[i] == m.info[i])
      && (forall i <- r.info | i !in m.info :: r.info[i].inTried)
    decreases upto - n
  {
    if n < upto {
      AddToOrder(m.info.Keys, m.random, m.pos, m.idCount);
      var m1 := LoadTriedOne(m, entries[n]);
      assert m1 != m.(nTried := m.nTried - 1) ==> m1.info.Keys == m.info.Keys + {m.idCount};
      hide IdRange, LoadTriedOne, Enter;
      LoadTriedKeeps(m1, entries, n + 1, upto);
    }
  }

  lemma {:induction false} FillBucketKeeps(m: State, b: int, list: seq<int>)
    ensures FillBucket(m, b, list, false) == m
    decreases |list|
  {
    if list != [] {
      FillBucketKeeps(m, b, list[1..]);
    }
  }

  lemma {:induction false} FillBucketsKeep(m: State, buckets: seq<seq<int>>, b: nat, upto: nat)
    requires b <= upto <= |buckets|
    ensures FillBuckets(m, buckets, b, upto, false) == m
    decreases upto - b
  {
    if b < upto {
      FillBucketKeeps(m, b, buckets[b]);
      FillBucketsKeep(m, buckets, b + 1, upto);
    }
  }

  /** Pruning drops just the new entries without a bucket. */
  lemma {:induction false} PruneIs(m: State, todo: set<int>)
    requires OrderInv(m.info.Keys, m.random, m.pos)
    ensures var r := Prune(m, todo);
      && r.newTable == m.newTable && r.triedTable == m.triedTable
      && (forall i :: i in r.info <==> i in m.info && !(i in todo && !m.info[i].inTried && m.info[i].refCount == 0))
      && (forall i <- r.info :: r.info[i] == m.info[i])
    decreases |todo|
  {
    if todo != {} {
      var id := Least(todo);
      if id in m.info && !m.info[id].inTried && m.info[id].refCount == 0 {
        DeleteOrder(m, id);
        assert Delete(m, id).info.Keys == m.info.Keys - {id};
        PruneIs(Delete(m, id), todo - {id});
      } else {
        PruneIs(m, todo - {id});
      }
    }
  }

  /** A file of another version, or with another number of buckets: a new entry is kept exactly if no entry
      before it in the file has the same slot from its source, and it then has that slot and no other. */
  lemma OtherShapeIs(s: Saved, c: set<int>)
    requires Restore(s, c).Ok? && !(s.version == 1 && s.nUBuckets == 0x4000_0400)
    ensures var m' := Restore(s, c).value;
      && s.nNew <= |s.entries|
      && (forall i: nat | i < s.nNew :: i in m'.info <==> ComesFirst(s.key, s.entries, i))
      && (forall i: nat | i < s.nNew && i in m'.info :: m'.info[i] == AsNew(s.entries[i], 1))
      && (forall i <- m'.info | i >= s.nNew :: m'.info[i].inTried)
      && (forall u: Slot, i: nat | i < s.nNew :: u in m'.newTable && m'.newTable[u] == i <==>
            ComesFirst(s.key, s.entries, i) && u == PrimarySlot(s.key, s.entries, i))
  {
    hide Restore, Prune, FirstPlaced, LoadNew, LoadTried, ComesFirst, PrimarySlot, IdRange;
    var m2 := BeforePruning(s, c);
    PruneIs(m2, m2.info.Keys);
    AfterPruning(s, m2, Restore(s, c).value);
  }

  /** All that has been loaded, before the last loop. */
  lemma BeforePruning(s: Saved, c: set<int>) returns (m2: State)
    requires Restore(s, c).Ok? && !(s.version == 1 && s.nUBuckets == 0x4000_0400)
    ensures s.nNew <= |s.entries| && m2.env == s.key && OrderInv(m2.info.Keys, m2.random, m2.pos)
    ensures FirstPlaced(m2, s.entries, s.nNew) && forall i <- m2.info | i < 0 || i >= s.nNew :: m2.info[i].inTried
    ensures Restore(s, c).value == Prune(m2, m2.info.Keys)
  {
    hide FirstPlaced, LoadNew, LoadTried, Prune, Restore, FillBuckets, OrderInv, IdRange;
    var m := Cleared(s.key, s.nNew, s.nTried, c);
    var nUBuckets := RestoreSteps(s, c);
    NothingPlaced(m, s.entries);
    LoadNewPlaces(m, s.entries, 0, s.nNew);
    var m1 := LoadNew(m, s.entries, 0, s.nNew, true).(idCount := s.nNew);
    LoadTriedKeeps(m1, s.entries, s.nNew, s.nNew + s.nTried);
    m2 := LoadTried(m1, s.entries, s.nNew, s.nNew + s.nTried);
    FillBucketsKeep(m2, s.buckets, 0, nUBuckets);
    StillPlaced(LoadNew(m, s.entries, 0, s.nNew, true), m2, s.entries, s.nNew);
    RangeFacts(m1, s.nNew);
    RangeFacts(m2, m2.idCount);
  }

  lemma RangeFacts(m: State, n: nat)
    requires IdRange(m, n)
    ensures OrderInv(m.info.Keys, m.random, m.pos) && forall i :: i in m.info <==> 0 <= i < n
  {
  }

  lemma RestoreSteps(s: Saved, c: set<int>) returns (nUBuckets: nat)
    requires Restore(s, c).Ok? && !(s.version == 1 && s.nUBuckets == 0x4000_0400)
    ensures s.nNew + s.nTried <= |s.entries| && nUBuckets <= |s.buckets| && IdRange(Cleared(s.key, s.nNew, s.nTried, c), 0)
    ensures var m1 := LoadNew(Cleared(s.key, s.nNew, s.nTried, c), s.entries, 0, s.nNew, true).(idCount := s.nNew);
      && IdRange(m1, s.nNew)
      && var m3 := FillBuckets(LoadTried(m1, s.entries, s.nNew, s.nNew + s.nTried), s.buckets, 0, nUBuckets, false);
      && OrderInv(m3.info.Keys, m3.random, m3.pos)
      && Restore(s, c).value == Prune(m3, m3.info.Keys)
  {
    hide LoadNew, LoadTried, Prune, FillBuckets;
    nUBuckets := if s.version != 0 then FlipBit30(s.nUBuckets) else s.nUBuckets;
    assert !(s.version == 1 && nUBuckets == NEW_BUCKET_COUNT);
  }

  lemma NothingPlaced(m: State, entries: seq<Record>)
    requires m.newTable == map[]
    ensures FirstPlaced(m, entries, 0)
  {
  }

  lemma StillPlaced(m: State, m': State, entries: seq<Record>, n: nat)
    requires n <= |entries| && FirstPlaced(m, entries, n) && m'.env == m.env && m'.newTable == m.newTable
    requires forall i <- m.info :: i in m'.info && m'.info[i] == m.info[i]
    ensures FirstPlaced(m', entries, n)
  {
    hide ComesFirst, PrimarySlot;
  }

  lemma AfterPruning(s: Saved, m2: State, m': State)
    requires s.nNew <= |s.entries| && m2.env == s.key && FirstPlaced(m2, s.entries, s.nNew)
    requires forall i <- m2.info | i < 0 || i >= s.nNew :: m2.info[i].inTried
    requires forall i :: i in m'.info <==> i in m2.info && !(!m2.info[i].inTried && m2.info[i].refCount == 0)
    requires m'.newTable == m2.newTable && forall i <- m'.info :: i in m2.info && m'.info[i] == m2.info[i]
    ensures forall i: nat | i < s.nNew :: i in m'.info <==> ComesFirst(s.key, s.entries, i)
    ensures forall i: nat | i < s.nNew && i in m'.info :: m'.info[i] == AsNew(s.entries[i], 1)
    ensures forall i <- m'.info | i >= s.nNew :: m'.info[i].inTried
    ensures forall u: Slot, i: nat | i < s.nNew :: u in m'.newTable && m'.newTable[u] == i <==>
      ComesFirst(s.key, s.entries, i) && u == PrimarySlot(s.key, s.entries, i)
  {
    hide PrimarySlot;
    forall u: Slot, i: nat | i < s.nNew ensures u in m'.newTable && m'.newTable[u] == i <==>
      ComesFirst(s.key, s.entries, i) && u == PrimarySlot(s.key, s.entries, i) {
      var j := SomeComesFirst(s.key, s.entries, i);
    }
  }

  /** What is written in front of the entries: version 1, 32 bytes of key, the counters, and the number of
      buckets with bit 30 flipped. */
  lemma SavedIs(m: State)
    requires Inv(m)
    ensures var s := Save(m);
      && s.version == 1 && s.keySize == 32 && s.key == m.env && s.nNew == m.nNew && s.nTried == m.nTried
      && s.nUBuckets == 0x4000_0400 && |s.entries| == m.nNew + m.nTried && |s.buckets| == 1024
  {
    OrderNumbers(m.info);
    hide SaveOrder, Rank;
  }
}
