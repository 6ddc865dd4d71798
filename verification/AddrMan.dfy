/**
 The address manager itself: fields and tables updated in place, as in
 src/addrman.cpp.  Every method is proved against the function of the same meaning in
 AddrManOps; every `assert` of the source is an `assert` here.
 */
module AddrMan {
  import opened AddrManOps
  import opened AddrManState
  import opened Helpers

  /** An entry of `mapInfo`, with its position in `vRandom`. */
  datatype Entry = Entry(info: Info, nRandomPos: int)

  /** The table an array stands for: its filled slots. */
  ghost function Table(a: array2<int>): map<Slot, int>
    reads a
  {
    map b: int, p: int | 0 <= b < a.Length0 && 0 <= p < a.Length1 && a[b, p] != -1 :: Slot(b, p) := a[b, p]
  }

  ghost function Infos(m: map<int, Entry>): map<int, Info> {
    map id | id in m :: m[id].info
  }

  ghost function Positions(m: map<int, Entry>): map<int, int> {
    map id | id in m :: m[id].nRandomPos
  }

  lemma EntryWritten(m: map<int, Entry>, id: int, e: Entry)
    ensures Infos(m[id := e]) == Infos(m)[id := e.info]
    ensures Positions(m[id := e]) == Positions(m)[id := e.nRandomPos]
  {
  }

  lemma EntryErased(m: map<int, Entry>, id: int)
    ensures Infos(m - {id}) == Infos(m) - {id}
    ensures Positions(m - {id}) == Positions(m) - {id}
  {
  }

  lemma SameValue<K, V>(m: map<K, V>, k: K)
    requires k in m
    ensures m[k := m[k]] == m
  {
  }

  lemma WrittenTwice<K, V>(m: map<K, V>, k: K, v: V, w: V)
    ensures m[k := v][k := w] == m[k := w]
  {
  }

  /** What `ClearNew` asserts, for every slot. */
  ghost predicate OccupantsCounted(m: State) {
    forall u <- m.newTable ::
      m.newTable[u] in m.info && m.info[m.newTable[u]].refCount > 0 && !m.info[m.newTable[u]].inTried
  }

  lemma OccupantsAreCounted(m: State, pending: set<int>, owed: int)
    requires Core(m, pending, owed)
    ensures OccupantsCounted(m)
  {
    forall u | u in m.newTable ensures m.info[m.newTable[u]].refCount > 0 {
      assert u in Refs(m.newTable, m.newTable[u]);
    }
  }

  lemma ReadyToMakeSpace(m: State, id: int)
    requires Core(m, {}, 0) && id in m.info && !m.info[id].inTried
    ensures CanMove(m, id) && OccupantsCounted(Unlink(m, id))
    ensures NewInv(m.env, m.info, m.newTable) && RefInv(m.info, m.newTable) && id >= 0
  {
    CanMoveIt(m, id);
    UnlinkCore(m, id);
    OccupantsAreCounted(Unlink(m, id), {id}, 1);
  }

  lemma FoundByAddr(m: State, a: NetAddr)
    requires Inv(m)
    ensures a in m.byAddr ==> m.byAddr[a] in m.info
  {
  }

  lemma GoodIsReady(m: State, id: int, t: int)
    requires Inv(m) && t > 0 && id in m.info
    ensures id >= 0
    ensures !m.info[id].inTried ==>
      var m1 := Refresh(m, id, t);
      && CanMove(m1, id) && OccupantsCounted(Unlink(m1, id))
      && NewInv(m1.env, m1.info, m1.newTable) && RefInv(m1.info, m1.newTable)
      && SomeBucket(m1, id)
  {
    GoodMoves(m, id, t);
    if !m.info[id].inTried {
      ReadyToMakeSpace(Refresh(m, id, t), id);
      SomeBucketHolds(Refresh(m, id, t), id);
    }
  }

  lemma RefCounts(m: State, id: int)
    requires Inv(m) && id in m.info
    ensures id >= 0 && 0 <= m.info[id].refCount <= NEW_BUCKETS_PER_ADDRESS
  {
    if m.info[id].inTried {
      assert Refs(m.newTable, id) == {};
    }
  }

  lemma RegistersFine(m: State, id: int, pending: set<int>)
    requires Core(m, pending, 0) && id in m.info
    ensures id >= 0 && OrderInv(m.info.Keys, m.random, m.pos) && NewInv(m.env, m.info, m.newTable)
    ensures OccupantsCounted(m)
  {
    OccupantsAreCounted(m, pending, 0);
  }

  lemma Ordered(m: State)
    requires Inv(m)
    ensures OrderInv(m.info.Keys, m.random, m.pos)
    ensures forall i | 0 <= i < |m.random| :: m.random[i] in m.info
  {
  }

  /** The addresses gathered so far belong to the ids chosen so far. */
  ghost predicate ShuffledTo(m: State, s: Shuffle, vAddr: seq<Address>) {
    && OrderInv(m.info.Keys, s.random, s.pos)
    && (forall i | 0 <= i < |s.random| :: s.random[i] in m.info)
    && |vAddr| == |s.chosen|
    && forall i | 0 <= i < |vAddr| :: s.chosen[i] in m.info && vAddr[i] == m.info[s.chosen[i]].ToAddress()
  }

  lemma ShuffleStepOrder(info: map<int, Info>, s: Shuffle, n: nat, draw: nat, now: int)
    requires n < |s.random| && OrderInv(info.Keys, s.random, s.pos)
    requires forall i | 0 <= i < |s.random| :: s.random[i] in info
    ensures var s' := ShuffleStep(info, s, n, draw, now);
      && |s'.random| == |s.random| && OrderInv(info.Keys, s'.random, s'.pos)
      && forall i | 0 <= i < |s'.random| :: s'.random[i] in info
  {
    hide DrawFrom;
    var j := DrawFrom(n, |s.random|, draw);
    if n != j {
      SwapOrder(info.Keys, s.random, s.pos, n, j);
    }
  }

  lemma GatherStep(info: map<int, Info>, s: Shuffle, n: nat, limit: int, rnd: nat -> nat, now: int)
    requires n < |s.random| && |s.chosen| < limit && forall i | 0 <= i < |s.random| :: s.random[i] in info
    requires var s' := ShuffleStep(info, s, n, rnd(n), now);
      |s'.random| == |s.random| && forall i | 0 <= i < |s'.random| :: s'.random[i] in info
    ensures Gather(info, s, n, limit, rnd, now) ==
      Gather(info, ShuffleStep(info, s, n, rnd(n), now), n + 1, limit, rnd, now)
  {
    hide DrawFrom;
  }

  lemma GatherDone(info: map<int, Info>, s: Shuffle, n: nat, limit: int, rnd: nat -> nat, now: int)
    requires n <= |s.random| && forall i | 0 <= i < |s.random| :: s.random[i] in info
    requires n == |s.random| || |s.chosen| >= limit
    ensures Gather(info, s, n, limit, rnd, now) == s
  {
  }

  lemma CollisionFacts(m: State, id: int)
    requires Inv(m) && (m.collisions != {} ==> id in m.collisions)
    ensures m.collisions != {} && id in m.info ==>
      var s := TriedSlot(m.env, m.info[id].addr);
      s in m.triedTable && m.triedTable[s] in m.info
  {
  }

  class AddrManager {
    var env: Env
    var nIdCount: int
    var mapInfo: map<int, Entry>
    var mapAddr: map<NetAddr, int>
    var vRandom: seq<int>
    var nTried: int
    const vvTried: array2<int>
    var nNew: int
    const vvNew: array2<int>
    var nLastGood: int
    var triedCollisions: set<int>

    predicate Shape() {
      && vvTried.Length0 == TRIED_BUCKET_COUNT && vvTried.Length1 == BUCKET_SIZE
      && vvNew.Length0 == NEW_BUCKET_COUNT && vvNew.Length1 == BUCKET_SIZE
      && vvTried != vvNew
    }

    /** The abstract state. */
    ghost function View(): State
      reads this, vvTried, vvNew
    {
      State(env, nIdCount, Infos(mapInfo), mapAddr, vRandom, Positions(mapInfo),
            nTried, Table(vvTried), nNew, Table(vvNew), nLastGood, triedCollisions)
    }

    ghost predicate Valid()
      reads this, vvTried, vvNew
    {
      Shape() && Inv(View())
    }

    // ------------------------------------------------------------ single writes

    predicate NewSlotInRange(s: Slot) {
      0 <= s.bucket < NEW_BUCKET_COUNT && 0 <= s.pos < BUCKET_SIZE
    }

    predicate TriedSlotInRange(s: Slot) {
      0 <= s.bucket < TRIED_BUCKET_COUNT && 0 <= s.pos < BUCKET_SIZE
    }

    method SetNew(s: Slot, id: int)
      requires Shape() && NewSlotInRange(s)
      modifies vvNew
      ensures View() == old(View()).(newTable :=
        if id == -1 then old(View()).newTable - {s} else old(View()).newTable[s := id])
    {
      vvNew[s.bucket, s.pos] := id;
      assert Table(vvNew) == if id == -1 then old(Table(vvNew)) - {s} else old(Table(vvNew))[s := id];
    }

    method SetTried(s: Slot, id: int)
      requires Shape() && TriedSlotInRange(s)
      modifies vvTried
      ensures View() == old(View()).(triedTable :=
        if id == -1 then old(View()).triedTable - {s} else old(View()).triedTable[s := id])
    {
      vvTried[s.bucket, s.pos] := id;
      assert Table(vvTried) == if id == -1 then old(Table(vvTried)) - {s} else old(Table(vvTried))[s := id];
    }

    method SetInfo(id: int, e: Info)
      requires id in mapInfo
      modifies this`mapInfo
      ensures View() == old(View()).(info := old(View()).info[id := e])
      ensures mapInfo.Keys == old(mapInfo).Keys
    {
      EntryWritten(mapInfo, id, Entry(e, mapInfo[id].nRandomPos));
      SameValue(Positions(mapInfo), id);
      mapInfo := mapInfo[id := Entry(e, mapInfo[id].nRandomPos)];
    }

    /** Reading a slot of an array tells what the table holds there. */
    lemma ReadNew(s: Slot)
      requires Shape() && NewSlotInRange(s)
      ensures vvNew[s.bucket, s.pos] != -1 <==> s in View().newTable
      ensures s in View().newTable ==> View().newTable[s] == vvNew[s.bucket, s.pos]
    {
    }

    lemma ReadTried(s: Slot)
      requires Shape() && TriedSlotInRange(s)
      ensures vvTried[s.bucket, s.pos] != -1 <==> s in View().triedTable
      ensures s in View().triedTable ==> View().triedTable[s] == vvTried[s.bucket, s.pos]
    {
    }

    // ------------------------------------------------------------ internal operations

    method Find(a: NetAddr) returns (r: Option<int>)
      ensures r == if a in mapAddr && mapAddr[a] in mapInfo then Some(mapAddr[a]) else None
    {
      r := if a in mapAddr && mapAddr[a] in mapInfo then Some(mapAddr[a]) else None;
    }

    method Create(a: Address, source: NetAddr) returns (nId: int)
      modifies this
      ensures nId == old(nIdCount) && View() == AddrManState.Create(old(View()), a, source)
    {
      nId := nIdCount;
      nIdCount := nIdCount + 1;
      var e := Info(a.service, a.time, a.services, source, 0, 0, 0, 0, 0, false);
      WrittenTwice(mapInfo, nId, Entry(e, -1), Entry(e, |vRandom|));
      EntryWritten(mapInfo, nId, Entry(e, |vRandom|));
      mapInfo := mapInfo[nId := Entry(e, -1)];
      mapAddr := mapAddr[a.service.net := nId];
      mapInfo := mapInfo[nId := mapInfo[nId].(nRandomPos := |vRandom|)];
      vRandom := vRandom + [nId];
    }

    method SwapRandom(nRndPos1: int, nRndPos2: int)
      requires 0 <= nRndPos1 < |vRandom| && 0 <= nRndPos2 < |vRandom|
      requires OrderInv(View().info.Keys, vRandom, View().pos)
      modifies this`mapInfo, this`vRandom
      ensures View() == AddrManState.SwapRandom(old(View()), nRndPos1, nRndPos2)
      ensures |vRandom| == |old(vRandom)|
    {
      if nRndPos1 == nRndPos2 {
        return;
      }
      assert nRndPos1 < |vRandom| && nRndPos2 < |vRandom|;
      var nId1 := vRandom[nRndPos1];
      var nId2 := vRandom[nRndPos2];
      assert nId1 in mapInfo;
      assert nId2 in mapInfo;
      EntryWritten(mapInfo, nId1, mapInfo[nId1].(nRandomPos := nRndPos2));
      SameValue(Infos(mapInfo), nId1);
      mapInfo := mapInfo[nId1 := mapInfo[nId1].(nRandomPos := nRndPos2)];
      EntryWritten(mapInfo, nId2, mapInfo[nId2].(nRandomPos := nRndPos1));
      SameValue(Infos(mapInfo), nId2);
      mapInfo := mapInfo[nId2 := mapInfo[nId2].(nRandomPos := nRndPos1)];
      vRandom := vRandom[nRndPos1 := nId2];
      vRandom := vRandom[nRndPos2 := nId1];
    }

    method Delete(nId: int)
      requires OrderInv(View().info.Keys, vRandom, View().pos)
      requires nId in mapInfo && !mapInfo[nId].info.inTried && mapInfo[nId].info.refCount == 0
      modifies this
      ensures View() == AddrManState.Delete(old(View()), nId)
    {
      assert nId in View().info;
      assert nId in mapInfo;
      assert !mapInfo[nId].info.inTried;
      assert mapInfo[nId].info.refCount == 0;
      var net, pos := mapInfo[nId].info.addr.net, mapInfo[nId].nRandomPos;
      assert pos == View().pos[nId] && 0 <= pos < |vRandom|;
      SwapRandom(pos, |vRandom| - 1);
      EraseLast(nId, net);
    }

    /** The three erasures at the end of `Delete`. */
    method EraseLast(nId: int, net: NetAddr)
      requires |vRandom| > 0
      modifies this
      ensures View() == old(View()).(
        random := old(vRandom)[..|old(vRandom)| - 1],
        byAddr := old(mapAddr) - {net},
        info := old(View()).info - {nId},
        pos := old(View()).pos - {nId},
        nNew := old(nNew) - 1)
    {
      EntryErased(mapInfo, nId);
      vRandom := vRandom[..|vRandom| - 1];
      mapAddr := mapAddr - {net};
      mapInfo := mapInfo - {nId};
      nNew := nNew - 1;
    }

    method ClearNew(nUBucket: int, nUBucketPos: int)
      requires Shape() && NewSlotInRange(Slot(nUBucket, nUBucketPos))
      requires OrderInv(View().info.Keys, vRandom, View().pos)
      requires var s := Slot(nUBucket, nUBucketPos);
        s in View().newTable ==>
          && View().newTable[s] in View().info
          && View().info[View().newTable[s]].refCount > 0
          && !View().info[View().newTable[s]].inTried
      modifies this, vvNew
      ensures View() == AddrManState.ClearNew(old(View()), Slot(nUBucket, nUBucketPos))
      ensures vvNew[nUBucket, nUBucketPos] == -1
    {
      ghost var s := Slot(nUBucket, nUBucketPos);
      ReadNew(s);
      if vvNew[nUBucket, nUBucketPos] != -1 {
        var nIdDelete := vvNew[nUBucket, nUBucketPos];
        assert nIdDelete in View().info;
        var infoDelete := mapInfo[nIdDelete].info;
        assert infoDelete.refCount > 0;
        infoDelete := infoDelete.(refCount := infoDelete.refCount - 1);
        SetInfo(nIdDelete, infoDelete);
        SetNew(Slot(nUBucket, nUBucketPos), -1);
        assert View() == DropRef(old(View()), s);
        if infoDelete.refCount == 0 {
          Delete(nIdDelete);
        }
      }
      ReadNew(s);
    }

    method MakeTried(nId: int)
      requires Shape() && nId in mapInfo && nId >= 0 && CanMove(View(), nId)
      requires NewInv(env, View().info, View().newTable) && RefInv(View().info, View().newTable)
      requires OccupantsCounted(Unlink(View(), nId))
      modifies this, vvNew, vvTried
      ensures View() == AddrManOps.MakeTried(old(View()), nId)
    {
      ghost var m1 := Unlink(View(), nId);
      var s := TriedSlot(env, mapInfo[nId].info.addr);
      LeaveBuckets(nId);
      nNew := nNew - 1;
      assert View() == m1;
      assert nId in m1.info && m1.info[nId].refCount == 0;
      MakeRoomFrame(m1, s);
      MakeSpace(s);
      assert vvTried[s.bucket, s.pos] == -1;
      assert nId in View().info;
      EnterTried(s, nId);
    }

    method EnterTried(s: Slot, nId: int)
      requires Shape() && TriedSlotInRange(s) && nId in mapInfo && nId != -1
      requires s == TriedSlot(env, mapInfo[nId].info.addr)
      modifies this`mapInfo, this`nTried, vvTried
      ensures View() == PlaceTried(old(View()), nId)
    {
      SetTried(s, nId);
      nTried := nTried + 1;
      SetInfo(nId, mapInfo[nId].info.(inTried := true));
    }

    /** Removes the entry from all new buckets. */
    method LeaveBuckets(nId: int)
      requires Shape() && nId in mapInfo && nId != -1
      requires NewInv(env, View().info, View().newTable) && RefInv(View().info, View().newTable)
      modifies this`mapInfo, vvNew
      ensures View().(nNew := old(nNew) - 1) == Unlink(old(View()), nId)
    {
      hide NewInv, RefInv, Unlink, Unlinking, Table;
      ghost var m := View();
      var addr := mapInfo[nId].info.addr;
      var bucket := 0;
      UnlinkingStart(m, nId);
      while bucket < NEW_BUCKET_COUNT
        invariant 0 <= bucket <= NEW_BUCKET_COUNT
        invariant nId in mapInfo && View() == Unlinking(m, nId, bucket)
      {
        UnlinkingStep(m, nId, bucket);
        LeaveBucket(nId, NewSlotIn(env, addr, bucket));
        bucket := bucket + 1;
      }
      UnlinkingEnd(m, nId);
    }

    method LeaveBucket(nId: int, s: Slot)
      requires Shape() && NewSlotInRange(s) && nId in mapInfo && nId != -1
      modifies this`mapInfo, vvNew
      ensures nId in mapInfo
      ensures var m := old(View());
        View() == if s in m.newTable && m.newTable[s] == nId
                  then m.(info := m.info[nId := m.info[nId].(refCount := m.info[nId].refCount - 1)],
                          newTable := m.newTable - {s})
                  else m
    {
      ReadNew(s);
      if vvNew[s.bucket, s.pos] == nId {
        SetNew(s, -1);
        SetInfo(nId, mapInfo[nId].info.(refCount := mapInfo[nId].info.refCount - 1));
      }
    }

    /** Empties a tried slot: its occupant is moved to new, deleting whatever is there. */
    method MakeSpace(s: Slot)
      requires Shape() && TriedSlotInRange(s) && (s in View().triedTable ==> CanEvict(View(), s))
      requires OccupantsCounted(View())
      modifies this, vvNew, vvTried
      ensures View() == MakeRoom(old(View()), s) && vvTried[s.bucket, s.pos] == -1
    {
      ghost var m := View();
      ReadTried(s);
      if vvTried[s.bucket, s.pos] != -1 {
        var nIdEvict := vvTried[s.bucket, s.pos];
        assert nIdEvict in View().info;
        assert nIdEvict in mapInfo;
        var infoOld := mapInfo[nIdEvict].info;
        TakeFromTried(s, nIdEvict);
        ClearNewFrame(View(), NewSlot(env, infoOld.addr, infoOld.source));
        var u := NewSlot(env, infoOld.addr, infoOld.source);
        ClearNew(u.bucket, u.pos);
        assert vvNew[u.bucket, u.pos] == -1;
        assert nIdEvict in View().info;
        EnterNew(u, nIdEvict);
      }
      MakeRoomFrame(m, s);
      ReadTried(s);
    }

    method TakeFromTried(s: Slot, nIdEvict: int)
      requires Shape() && TriedSlotInRange(s) && nIdEvict in mapInfo
      requires s in View().triedTable && View().triedTable[s] == nIdEvict
      modifies this`mapInfo, this`nTried, vvTried
      ensures View() == Release(old(View()), s)
    {
      SetInfo(nIdEvict, mapInfo[nIdEvict].info.(inTried := false));
      SetTried(s, -1);
      nTried := nTried - 1;
    }

    method EnterNew(u: Slot, nIdEvict: int)
      requires Shape() && NewSlotInRange(u) && nIdEvict in mapInfo && nIdEvict != -1
      modifies this`mapInfo, this`nNew, vvNew
      ensures View() == Readd(old(View()), nIdEvict, u)
    {
      SetInfo(nIdEvict, mapInfo[nIdEvict].info.(refCount := 1));
      SetNew(u, nIdEvict);
      nNew := nNew + 1;
    }

    // ------------------------------------------------------------ public operations

    /** A new bucket that holds the entry, scanning from a random one; -1 if there is none. */
    method FindBucket(nId: int, nRnd: int) returns (nUBucket: int)
      requires Shape() && nId in mapInfo && 0 <= nRnd < NEW_BUCKET_COUNT
      ensures -1 <= nUBucket < NEW_BUCKET_COUNT
      ensures nUBucket == -1 ==> forall b | 0 <= b < NEW_BUCKET_COUNT ::
        vvNew[b, NewSlotIn(env, mapInfo[nId].info.addr, b).pos] != nId
      ensures nUBucket != -1 ==> vvNew[nUBucket, NewSlotIn(env, mapInfo[nId].info.addr, nUBucket).pos] == nId
    {
      nUBucket := -1;
      var n := 0;
      while n < NEW_BUCKET_COUNT
        invariant 0 <= n <= NEW_BUCKET_COUNT
        invariant forall b | 0 <= b < NEW_BUCKET_COUNT && (nRnd <= b < nRnd + n || b < nRnd + n - NEW_BUCKET_COUNT) ::
          vvNew[b, NewSlotIn(env, mapInfo[nId].info.addr, b).pos] != nId
      {
        var nB := (n + nRnd) % NEW_BUCKET_COUNT;
        var nBpos := NewSlotIn(env, mapInfo[nId].info.addr, nB).pos;
        if vvNew[nB, nBpos] == nId {
          return nB;
        }
        n := n + 1;
      }
    }

    method Good(addr: Service, testBeforeEvict: bool, nTime: int, nRnd: int)
      requires Valid() && nTime > 0 && 0 <= nRnd < NEW_BUCKET_COUNT
      modifies this, vvNew, vvTried
      ensures Valid() && View() == AddrManOps.Good(old(View()), addr, testBeforeEvict, nTime)
    {
      GoodInv(View(), addr, testBeforeEvict, nTime);
      MarkGood(addr, testBeforeEvict, nTime, nRnd);
    }

    method MarkGood(addr: Service, testBeforeEvict: bool, nTime: int, nRnd: int)
      requires Valid() && nTime > 0 && 0 <= nRnd < NEW_BUCKET_COUNT
      modifies this, vvNew, vvTried
      ensures View() == AddrManOps.Good(old(View()), addr, testBeforeEvict, nTime)
    {
      hide Inv, CanMove, RefInv, NewInv, OccupantsCounted, Core, SomeBucket, Promote;
      ghost var m := View();
      FoundByAddr(m, addr.net);
      if addr.net in m.byAddr {
        GoodIsReady(m, m.byAddr[addr.net], nTime);
      }
      nLastGood := nTime;
      var found := Find(addr.net);
      if found == None {
        return;
      }
      var nId := found.value;
      assert nId in m.info && mapInfo[nId].info == m.info[nId];
      if mapInfo[nId].info.addr != addr {
        return;
      }
      SetInfo(nId, Refreshed(mapInfo[nId].info, nTime));
      assert View() == Refresh(m, nId, nTime);
      assert mapInfo[nId].info == View().info[nId];
      if mapInfo[nId].info.inTried {
        return;
      }
      PromoteOrQueue(nId, testBeforeEvict, nRnd);
    }

    /** The second half of `Good_`, for an entry that is not tried yet. */
    method PromoteOrQueue(nId: int, testBeforeEvict: bool, nRnd: int)
      requires Shape() && 0 <= nRnd < NEW_BUCKET_COUNT
      requires nId in mapInfo && nId >= 0 && CanMove(View(), nId)
      requires NewInv(env, View().info, View().newTable) && RefInv(View().info, View().newTable)
      requires OccupantsCounted(Unlink(View(), nId))
      requires SomeBucket(View(), nId)
      modifies this, vvNew, vvTried
      ensures View() == Promote(old(View()), nId, testBeforeEvict)
    {
      hide CanMove, RefInv, OccupantsCounted, NewInv;
      var nUBucket := FindBucket(nId, nRnd);
      // The source bails out here if no bucket was found; that never happens.
      assert nUBucket != -1 by {
        forall b | 0 <= b < NEW_BUCKET_COUNT { ReadNew(NewSlotIn(env, mapInfo[nId].info.addr, b)); }
      }
      assert mapInfo[nId].info == View().info[nId];
      var s := TriedSlot(env, mapInfo[nId].info.addr);
      ReadTried(s);
      if testBeforeEvict && vvTried[s.bucket, s.pos] != -1 {
        if |triedCollisions| < SET_TRIED_COLLISION_SIZE {
          triedCollisions := triedCollisions + {nId};
        }
      } else {
        MakeTried(nId);
      }
    }

    method Attempt(addr: Service, fCountFailure: bool, nTime: int)
      requires Valid() && nTime >= 0
      modifies this`mapInfo
      ensures Valid() && View() == AddrManOps.Attempt(old(View()), addr, fCountFailure, nTime)
    {
      hide Inv;
      ghost var m := View();
      FoundByAddr(m, addr.net);
      AttemptInv(m, addr, fCountFailure, nTime);
      var found := Find(addr.net);
      if found == None {
        return;
      }
      var info := mapInfo[found.value].info;
      assert found.value in m.info && info == m.info[found.value];
      if info.addr != addr {
        return;
      }
      info := info.(lastTry := nTime);
      if fCountFailure && info.lastCountAttempt < nLastGood {
        info := info.(lastCountAttempt := nTime);
        info := info.(attempts := info.attempts + 1);
      }
      assert info == Attempted(m.info[found.value], fCountFailure, nTime, m.lastGood);
      SetInfo(found.value, info);
    }

    method Connected(addr: Service, nTime: int)
      requires Valid()
      modifies this`mapInfo
      ensures Valid() && View() == AddrManOps.Connected(old(View()), addr, nTime)
    {
      hide Inv;
      ghost var m := View();
      FoundByAddr(m, addr.net);
      ConnectedInv(m, addr, nTime);
      var found := Find(addr.net);
      if found == None {
        return;
      }
      var info := mapInfo[found.value].info;
      assert found.value in m.info && info == m.info[found.value];
      if info.addr != addr {
        return;
      }
      var nUpdateInterval := 20 * 60;
      if nTime - info.time > nUpdateInterval {
        info := info.(time := U32(nTime));
      }
      assert info == ConnectedInfo(m.info[found.value], nTime);
      SetInfo(found.value, info);
    }

    method SetServices(addr: Service, nServices: set<nat>)
      requires Valid()
      modifies this`mapInfo
      ensures Valid() && View() == AddrManOps.SetServices(old(View()), addr, nServices)
    {
      hide Inv;
      ghost var m := View();
      FoundByAddr(m, addr.net);
      SetServicesInv(m, addr, nServices);
      var found := Find(addr.net);
      if found == None {
        return;
      }
      var info := mapInfo[found.value].info;
      assert found.value in m.info && info == m.info[found.value];
      if info.addr != addr {
        return;
      }
      SetInfo(found.value, info.(services := nServices));
    }

    method Add(addr: Address, source: NetAddr, nTimePenalty: int, now: int, rnd: nat) returns (fNew: bool)
      requires Valid()
      modifies this, vvNew
      ensures Valid() && View() == AddrManOps.Add(old(View()), addr, source, nTimePenalty, now, rnd)
      ensures fNew <==> old(env).routable(addr.service.net) && addr.service.net !in old(mapAddr)
    {
      hide Inv, AddrManOps.Add;
      AddInv(View(), addr, source, nTimePenalty, now, rnd);
      fNew := Learn(addr, source, nTimePenalty, now, rnd);
    }

    method Learn(addr: Address, source: NetAddr, nTimePenalty: int, now: int, rnd: nat) returns (fNew: bool)
      requires Valid()
      modifies this, vvNew
      ensures View() == AddrManOps.Add(old(View()), addr, source, nTimePenalty, now, rnd)
      ensures fNew <==> old(env).routable(addr.service.net) && addr.service.net !in old(mapAddr)
    {
      hide Inv, AddKnown, AddNew;
      ghost var m := View();
      FoundByAddr(m, addr.service.net);
      if !env.routable(addr.service.net) {
        return false;
      }
      var penalty := nTimePenalty;
      if addr.service.net == source {
        penalty := 0;
      }
      var found := Find(addr.service.net);
      if found != None {
        LearnKnown(found.value, addr, source, penalty, now, rnd);
        return false;
      } else {
        LearnNew(addr, source, penalty, now);
        return true;
      }
    }

    /** A known address: its entry is brought up to date, and perhaps put into one more bucket. */
    method LearnKnown(nId: int, addr: Address, source: NetAddr, penalty: int, now: int, rnd: nat)
      requires Valid() && nId in View().info
      modifies this, vvNew
      ensures View() == AddKnown(old(View()), nId, addr, source, penalty, now, rnd)
    {
      hide Inv, Core, OrderInv, NewInv, OccupantsCounted, Register, Heard;
      ghost var m := View();
      assert mapInfo[nId].info == m.info[nId];
      var pinfo := Update(nId, addr, penalty, now);
      HeardInv(m, nId, addr, penalty, now);
      RefCounts(View(), nId);
      RegistersFine(View(), nId, {});
      // no new information, already in the "tried" table, or max reference count reached
      if addr.time == 0 || (pinfo.time != 0 && addr.time <= pinfo.time) {
        return;
      }
      if pinfo.inTried {
        return;
      }
      if pinfo.refCount == NEW_BUCKETS_PER_ADDRESS {
        return;
      }
      var nFactor := Factor(pinfo.refCount);
      if nFactor > 1 && rnd % nFactor != 0 {
        return;
      }
      RegisterAt(nId, source, now);
    }

    method LearnNew(addr: Address, source: NetAddr, penalty: int, now: int)
      requires Valid() && addr.service.net !in View().byAddr
      modifies this, vvNew
      ensures View() == AddNew(old(View()), addr, source, penalty, now)
    {
      hide Inv, Core, OrderInv, NewInv, OccupantsCounted, Register;
      ghost var m := View();
      var nId := Create(addr, source);
      assert nId in View().info && mapInfo[nId].info == View().info[nId];
      SetInfo(nId, mapInfo[nId].info.(time := U32(Max(0, mapInfo[nId].info.time - penalty))));
      nNew := nNew + 1;
      assert View() == Admitted(m, addr, source, penalty);
      AdmittedCore(m, addr, source, penalty);
      RegistersFine(View(), nId, {nId});
      RegisterAt(nId, source, now);
    }

    /** Stochastic test: with `n` references it is 2^n times harder to get another one. */
    method Factor(refCount: nat) returns (nFactor: nat)
      ensures nFactor == Pow2(refCount)
    {
      nFactor := 1;
      for n := 0 to refCount
        invariant nFactor == Pow2(n)
      {
        nFactor := nFactor * 2;
      }
    }

    /** Periodically updates the time, and adds services. */
    method Update(nId: int, addr: Address, penalty: int, now: int) returns (pinfo: Info)
      requires nId in mapInfo
      modifies this`mapInfo
      ensures pinfo == Heard(old(mapInfo)[nId].info, addr, penalty, now)
      ensures View() == old(View()).(info := old(View()).info[nId := pinfo])
    {
      pinfo := mapInfo[nId].info;
      var fCurrentlyOnline := now - addr.time < DAY;
      var nUpdateInterval := if fCurrentlyOnline then 60 * 60 else DAY;
      if addr.time != 0 && (pinfo.time == 0 || pinfo.time < addr.time - nUpdateInterval - penalty) {
        pinfo := pinfo.(time := U32(Max(0, addr.time - penalty)));
      }
      pinfo := pinfo.(services := pinfo.services + addr.services);
      SetInfo(nId, pinfo);
    }

    method Overwrite(s: Slot, nId: int)
      requires Shape() && NewSlotInRange(s) && nId in mapInfo && nId >= 0
      requires OrderInv(View().info.Keys, vRandom, View().pos) && OccupantsCounted(View())
      requires s in View().newTable ==> View().newTable[s] != nId
      modifies this, vvNew
      ensures nId in AddrManState.ClearNew(old(View()), s).info
      ensures View() == PutNew(AddrManState.ClearNew(old(View()), s), nId, s)
    {
      hide PutNew;
      assert nId in View().info;
      ClearNewFrame(View(), s);
      ClearNew(s.bucket, s.pos);
      hide OrderInv, OccupantsCounted, AddrManState.ClearNew;
      assert nId in View().info;
      Refer(s, nId);
    }

    /** Fills a slot and counts the reference. */
    method Refer(s: Slot, nId: int)
      requires Shape() && NewSlotInRange(s) && nId in mapInfo && nId != -1
      modifies this`mapInfo, vvNew
      ensures View() == PutNew(old(View()), nId, s)
    {
      assert mapInfo[nId].info == View().info[nId];
      SetInfo(nId, mapInfo[nId].info.(refCount := mapInfo[nId].info.refCount + 1));
      SetNew(s, nId);
    }

    /** The second half of `Add_`: find a place in the new table. */
    method RegisterAt(nId: int, source: NetAddr, now: int)
      requires Shape() && nId in mapInfo && nId >= 0 && !mapInfo[nId].info.inTried
      requires OrderInv(View().info.Keys, vRandom, View().pos) && NewInv(env, View().info, View().newTable)
      requires OccupantsCounted(View())
      modifies this, vvNew
      ensures View() == Register(old(View()), nId, source, now)
    {
      hide OrderInv, NewInv, DropRef;
      ghost var m := View();
      assert nId in m.info && mapInfo[nId].info == m.info[nId];
      var s := NewSlot(env, mapInfo[nId].info.addr, source);
      ReadNew(s);
      if vvNew[s.bucket, s.pos] != nId {
        var fInsert := vvNew[s.bucket, s.pos] == -1;
        if !fInsert {
          assert m.newTable[s] in m.info;
          var infoExisting := mapInfo[vvNew[s.bucket, s.pos]].info;
          assert infoExisting == m.info[m.newTable[s]];
          if infoExisting.IsTerrible(now) || (infoExisting.refCount > 1 && mapInfo[nId].info.refCount == 0) {
            fInsert := true;
          }
        }
        if fInsert {
          Overwrite(s, nId);
        } else {
          if mapInfo[nId].info.refCount == 0 {
            Delete(nId);
          }
        }
      }
    }

    method GetAddr(rnd: nat -> nat, now: int) returns (vAddr: seq<Address>)
      requires Valid()
      modifies this`mapInfo, this`vRandom
      ensures Valid() && View() == Shuffled(old(View()), AddrManOps.GetAddr(old(View()), rnd, now))
      ensures var m, chosen := old(View()), AddrManOps.GetAddr(old(View()), rnd, now).chosen;
        |vAddr| == |chosen| && forall i | 0 <= i < |vAddr| ::
          chosen[i] in m.info && vAddr[i] == m.info[chosen[i]].ToAddress()
    {
      hide Inv, Gather, ShuffleStep, OrderInv, DrawFrom;
      ghost var m := View();
      GetAddrInv(m, rnd, now);
      Ordered(m);
      var nNodes := GETADDR_MAX_PCT * |vRandom| / 100;
      if nNodes > GETADDR_MAX {
        nNodes := GETADDR_MAX;
      }
      vAddr := [];
      ghost var s := Shuffle(m.random, m.pos, []);
      var n := 0;
      while n < |vRandom| && |vAddr| < nNodes
        invariant 0 <= n <= |vRandom| == |s.random|
        invariant ShuffledTo(m, s, vAddr) && View() == Shuffled(m, s)
        invariant AddrManOps.GetAddr(m, rnd, now) == Gather(m.info, s, n, nNodes, rnd, now)
      {
        vAddr := PickNext(n, rnd(n), now, vAddr, m, s);
        GatherStep(m.info, s, n, nNodes, rnd, now);
        s := ShuffleStep(m.info, s, n, rnd(n), now);
        n := n + 1;
      }
      GatherDone(m.info, s, n, nNodes, rnd, now);
    }

    /** Swaps a random later entry to position `n` and takes it unless it is terrible. */
    method PickNext(n: nat, draw: nat, now: int, vAddr: seq<Address>, ghost m: State, ghost s: Shuffle)
      returns (vAddr': seq<Address>)
      requires n < |vRandom| && ShuffledTo(m, s, vAddr) && View() == Shuffled(m, s)
      modifies this`mapInfo, this`vRandom
      ensures var s' := ShuffleStep(m.info, s, n, draw, now);
        ShuffledTo(m, s', vAddr') && View() == Shuffled(m, s')
      ensures |vRandom| == |old(vRandom)|
    {
      hide DrawFrom, OrderInv;
      ShuffleStepOrder(m.info, s, n, draw, now);
      var nRndPos := DrawFrom(n, |vRandom|, draw);
      SwapRandom(n, nRndPos);
      assert vRandom[n] in View().info;
      assert vRandom[n] in mapInfo;
      var ai := mapInfo[vRandom[n]].info;
      assert ai == m.info[vRandom[n]];
      vAddr' := vAddr;
      if !ai.IsTerrible(now) {
        vAddr' := vAddr' + [ai.ToAddress()];
      }
    }

    method ResolveCollisions(now: int, rnd: nat -> nat)
      requires Valid() && now > 0
      modifies this, vvNew, vvTried
      ensures Valid() && View() == Resolve(old(View()), now)
    {
      hide Inv, ResolveOne;
      var todo := triedCollisions;
      var n := 0;
      while todo != {}
        invariant Valid() && todo <= triedCollisions
        invariant ResolveAll(View(), todo, now) == Resolve(old(View()), now)
        decreases |todo|
      {
        var id_new :| id_new in todo && forall x <- todo :: id_new <= x;
        assert id_new == Least(todo);
        ResolveOneInv(View(), id_new, now);
        ResolveCollision(id_new, now, rnd(n) % NEW_BUCKET_COUNT);
        todo := todo - {id_new};
        n := n + 1;
      }
    }

    /** One turn of the loop. */
    method ResolveCollision(id_new: int, now: int, nRnd: int)
      requires Valid() && now > 0 && id_new in triedCollisions && 0 <= nRnd < NEW_BUCKET_COUNT
      modifies this, vvNew, vvTried
      ensures View() == ResolveOne(old(View()), id_new, now)
    {
      hide Inv, AddrManOps.Good, Table;
      ghost var m := View();
      CollisionFacts(m, id_new);
      var eraseCollision := false;
      if id_new !in mapInfo {
        eraseCollision := true;
      } else {
        var info_new := mapInfo[id_new].info;
        assert id_new in m.info && info_new == m.info[id_new];
        var s := TriedSlot(env, info_new.addr);
        ReadTried(s);
        // The slot is never empty, so a collision never stops being one.
        assert vvTried[s.bucket, s.pos] != -1;
        if !env.valid(info_new.addr.net) {
          eraseCollision := true;
        } else {
          var id_old := vvTried[s.bucket, s.pos];
          assert id_old in m.info;
          var info_old := mapInfo[id_old].info;
          if now - info_old.lastSuccess < REPLACEMENT_HOURS * 60 * 60 {
            eraseCollision := true;
          } else if now - info_old.lastTry < REPLACEMENT_HOURS * 60 * 60 {
            if now - info_old.lastTry > 60 {
              Good(info_new.addr, false, now, nRnd);
              eraseCollision := true;
            }
          }
        }
      }
      if eraseCollision {
        triedCollisions := triedCollisions - {id_new};
      }
    }

    /** `id_new` is the element at a random position of the ordered set. */
    method SelectTriedCollision(draw: nat, id_new: int) returns (r: Option<Info>)
      requires Valid()
      requires triedCollisions != {} ==> id_new == Nth(triedCollisions, draw % |triedCollisions|)
      modifies this`triedCollisions
      ensures Valid() && (View(), r) == AddrManOps.SelectTriedCollision(old(View()), draw)
    {
      ghost var m := View();
      SelectTriedCollisionInv(m, draw);
      if triedCollisions != {} {
        CollisionFacts(m, id_new);
      }
      hide Inv, Nth;
      if triedCollisions == {} {
        return None;
      }
      if id_new !in mapInfo {
        triedCollisions := triedCollisions - {id_new};
        return None;
      }
      assert id_new in m.info && mapInfo[id_new].info == m.info[id_new];
      var s := TriedSlot(env, mapInfo[id_new].info.addr);
      ReadTried(s);
      var id_old := vvTried[s.bucket, s.pos];
      assert id_old != -1;
      assert id_old in m.info;
      return Some(mapInfo[id_old].info);
    }

    constructor (env: Env)
      ensures Valid() && View() == Empty(env)
      ensures fresh(this) && fresh(vvNew) && fresh(vvTried)
    {
      this.env := env;
      nIdCount, nTried, nNew, nLastGood := 0, 0, 0, 1;
      mapInfo, mapAddr, vRandom, triedCollisions := map[], map[], [], {};
      vvNew := new int[NEW_BUCKET_COUNT, BUCKET_SIZE]((_, _) => -1);
      vvTried := new int[TRIED_BUCKET_COUNT, BUCKET_SIZE]((_, _) => -1);
      new;
      assert Table(vvNew) == map[] && Table(vvTried) == map[];
      EmptyInv(env);
    }

    /** Everything but the collision queue. */
    method Clear(nKey: Env)
      requires Shape()
      modifies this, vvNew, vvTried
      ensures View() == Empty(nKey).(collisions := old(triedCollisions))
    {
      vRandom := [];
      env := nKey;
      Wipe(vvNew);
      Wipe(vvTried);
      nIdCount := 0;
      nTried := 0;
      nNew := 0;
      nLastGood := 1;
      mapInfo := map[];
      mapAddr := map[];
    }
  }

  method Wipe(a: array2<int>)
    modifies a
    ensures Table(a) == map[]
  {
    var bucket := 0;
    while bucket < a.Length0
      invariant 0 <= bucket <= a.Length0
      invariant forall b, p | 0 <= b < bucket && 0 <= p < a.Length1 :: a[b, p] == -1
    {
      var entry := 0;
      while entry < a.Length1
        invariant 0 <= entry <= a.Length1
        invariant forall b, p | 0 <= b < bucket && 0 <= p < a.Length1 :: a[b, p] == -1
        invariant forall p | 0 <= p < entry :: a[bucket, p] == -1
      {
        a[bucket, entry] := -1;
        entry := entry + 1;
      }
      bucket := bucket + 1;
    }
  }
}
