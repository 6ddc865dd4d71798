/**
 What each operation of the address manager does to the entries and tables: which entry comes into
 which slot, which one leaves it, and what stays as it was.
 */
module AddrManEffects {
  import opened AddrManOps
  import opened AddrManState
  import opened Helpers

  /** `id` has come into the new slot `s`.  Whatever held it is in one bucket less, and is gone if that
      was its only one; every other entry is as before. */
  ghost predicate Entered(m: State, m': State, s: Slot, id: int) {
    && m'.newTable == m.newTable[s := id] && m'.triedTable == m.triedTable
    && m'.info.Keys <= m.info.Keys + {id}
    && forall x <- m.info | x != id ::
         if s in m.newTable && m.newTable[s] == x then
           if m.info[x].refCount == 1 then x !in m'.info
           else x in m'.info && m'.info[x] == m.info[x].(refCount := m.info[x].refCount - 1)
         else x in m'.info && m'.info[x] == m.info[x]
  }

  /** A free new slot is to be had, and one whose occupant is terrible.  An occupant that is in another
      bucket too makes room for an entry that is in none. */
  predicate GivesWay(m: State, s: Slot, refs: int, now: int)
    requires s in m.newTable ==> m.newTable[s] in m.info
  {
    s in m.newTable ==>
      var o := m.info[m.newTable[s]];
      o.IsTerrible(now) || (o.refCount > 1 && refs == 0)
  }

  // ---------------------------------------------------------------- Add_

  lemma ClearNewIs(m: State, s: Slot)
    requires OrderInv(m.info.Keys, m.random, m.pos) && NewInv(m.env, m.info, m.newTable)
    ensures ClearNew(m, s).newTable == m.newTable - {s} && ClearNew(m, s).triedTable == m.triedTable
    ensures ClearNew(m, s).info.Keys <= m.info.Keys
    ensures forall x <- m.info ::
      if s in m.newTable && m.newTable[s] == x then
        if m.info[x].refCount == 1 then x !in ClearNew(m, s).info
        else x in ClearNew(m, s).info && ClearNew(m, s).info[x] == m.info[x].(refCount := m.info[x].refCount - 1)
      else x in ClearNew(m, s).info && ClearNew(m, s).info[x] == m.info[x]
  {
    if s in m.newTable {
      if m.info[m.newTable[s]].refCount == 1 {
        LastRefGone(m, s);
      } else {
        assert ClearNew(m, s) == DropRef(m, s);
      }
    }
  }

  lemma LastRefGone(m: State, s: Slot)
    requires OrderInv(m.info.Keys, m.random, m.pos) && s in m.newTable && m.newTable[s] in m.info
    requires m.info[m.newTable[s]].refCount == 1
    ensures var m' := ClearNew(m, s);
      m'.info == m.info - {m.newTable[s]} && m'.newTable == m.newTable - {s} && m'.triedTable == m.triedTable
  {
    var m1 := DropRef(m, s);
    assert m1.info - {m.newTable[s]} == m.info - {m.newTable[s]};
    assert ClearNew(m, s) == Delete(m1, m.newTable[s]);
  }

  lemma PutNewEnters(m: State, s: Slot, id: int)
    requires OrderInv(m.info.Keys, m.random, m.pos) && NewInv(m.env, m.info, m.newTable)
    requires id in m.info && (s in m.newTable ==> m.newTable[s] != id)
    ensures id in ClearNew(m, s).info
    ensures var m' := PutNew(ClearNew(m, s), id, s);
      Entered(m, m', s, id) && id in m'.info && m'.info[id] == m.info[id].(refCount := m.info[id].refCount + 1)
  {
    ClearNewIs(m, s);
    hide OrderInv, NewInv, ClearNew;
    PutBack(m.newTable, s, id);
  }

  lemma RegisterIs(m: State, id: int, source: NetAddr, now: int)
    requires OrderInv(m.info.Keys, m.random, m.pos) && NewInv(m.env, m.info, m.newTable)
    requires id in m.info
    ensures var s, m' := NewSlot(m.env, m.info[id].addr, source), Register(m, id, source, now);
      if s in m.newTable && m.newTable[s] == id then m' == m
      else if GivesWay(m, s, m.info[id].refCount, now) then
        Entered(m, m', s, id) && id in m'.info && m'.info[id] == m.info[id].(refCount := m.info[id].refCount + 1)
      else if m.info[id].refCount == 0 then m' == Delete(m, id)
      else m' == m
  {
    var s := NewSlot(m.env, m.info[id].addr, source);
    if !(s in m.newTable && m.newTable[s] == id) && GivesWay(m, s, m.info[id].refCount, now) {
      PutNewEnters(m, s, id);
      ClearNewFrame(m, s);
      hide Entered, ClearNew, PutNew;
      assert Register(m, id, source, now) == PutNew(ClearNew(m, s), id, s);
    }
  }

  /** A routable address not known before is entered in the slot that its source gives it, exactly if
      that is free or its occupant is terrible or in another bucket too.  Otherwise nothing changes. */
  lemma AddNewIs(m: State, a: Address, source: NetAddr, penalty: int, now: int, rnd: nat)
    requires Inv(m) && a.service.net !in m.byAddr
    ensures var m', s, id := Add(m, a, source, penalty, now, rnd), NewSlot(m.env, a.service, source), m.idCount;
      && id !in m.info
      && (s in m.newTable ==> m.newTable[s] in m.info)
      && (id in m'.info <==> m.env.routable(a.service.net) && GivesWay(m, s, 0, now))
      && if id in m'.info then
           var time := if a.service.net == source then a.time else a.time - penalty;
           && Entered(m, m', s, id)
           && m'.info[id] == Info(a.service, (if time > 0 then time else 0) % 0x1_0000_0000, a.services, source, 0, 0, 0, 0, 1, false)
         else m'.info == m.info && m'.newTable == m.newTable && m'.triedTable == m.triedTable && m'.byAddr == m.byAddr
  {
    hide Inv, Core, Admitted, Register, NewSlot, Delete, Entered, Add;
    var p := Penalty(a, source, penalty);
    var m1, id, s := Admitted(m, a, source, p), m.idCount, NewSlot(m.env, a.service, source);
    FreshId(m);
    Occupied(m, s);
    AddNewSteps(m, a, source, penalty, now, rnd);
    if m.env.routable(a.service.net) {
      AdmittedIs(m, a, source, p);
      RegisterIs(m1, id, source, now);
      if GivesWay(m1, s, 0, now) {
        EnteredFresh(m, m1, Register(m1, id, source, now), s, id);
      } else {
        AdmittedGone(m, a, source, p);
      }
    }
  }

  lemma AddNewSteps(m: State, a: Address, source: NetAddr, penalty: int, now: int, rnd: nat)
    requires Inv(m) && a.service.net !in m.byAddr
    ensures var m1 := Admitted(m, a, source, Penalty(a, source, penalty));
      && OrderInv(m1.info.Keys, m1.random, m1.pos) && NewInv(m1.env, m1.info, m1.newTable) && m.idCount in m1.info
      && Add(m, a, source, penalty, now, rnd) == if m.env.routable(a.service.net) then Register(m1, m.idCount, source, now) else m
  {
    hide Admitted, Register;
    AdmittedCore(m, a, source, Penalty(a, source, penalty));
    AdmittedIs(m, a, source, Penalty(a, source, penalty));
  }

  lemma AdmittedIs(m: State, a: Address, source: NetAddr, p: int)
    ensures var m1 := Admitted(m, a, source, p);
      && m1.env == m.env && m1.newTable == m.newTable && m1.triedTable == m.triedTable
      && m1.info == m.info[m.idCount := Info(a.service, U32(Max(0, a.time - p)), a.services, source, 0, 0, 0, 0, 0, false)]
  {
  }

  /** What was admitted and found no place leaves nothing behind. */
  lemma AdmittedGone(m: State, a: Address, source: NetAddr, p: int)
    requires Inv(m) && a.service.net !in m.byAddr && m.idCount !in m.info
    requires OrderInv(Admitted(m, a, source, p).info.Keys, Admitted(m, a, source, p).random, Admitted(m, a, source, p).pos)
    ensures var m1 := Delete(Admitted(m, a, source, p), m.idCount);
      m1.info == m.info && m1.newTable == m.newTable && m1.triedTable == m.triedTable && m1.byAddr == m.byAddr
  {
    hide Inv;
  }

  lemma Occupied(m: State, s: Slot)
    requires Inv(m)
    ensures s in m.newTable ==> m.newTable[s] in m.info
  {
  }

  lemma EnteredFresh(m: State, m1: State, m': State, s: Slot, id: int)
    requires Entered(m1, m', s, id) && id !in m.info && m1.info.Keys == m.info.Keys + {id}
    requires m1.newTable == m.newTable && m1.triedTable == m.triedTable && forall x <- m.info :: m1.info[x] == m.info[x]
    ensures Entered(m, m', s, id)
  {
  }

  /** When an address is heard of again its time comes forward, if the news is fresh enough, and services
      are added.  It comes into one more bucket exactly if there is news, it is not in tried, it is in
      fewer than eight, the draw is 0, and the slot is free or its occupant terrible. */
  lemma AddKnownIs(m: State, a: Address, source: NetAddr, penalty: int, now: int, rnd: nat)
    requires Inv(m) && m.env.routable(a.service.net) && a.service.net in m.byAddr
    ensures var m', id := Add(m, a, source, penalty, now, rnd), m.byAddr[a.service.net];
      var e, p := m.info[id], if a.service.net == source then 0 else penalty;
      var s, interval := NewSlot(m.env, e.addr, source), if now - a.time < 86400 then 3600 else 86400;
      var time := if a.time != 0 && (e.time == 0 || e.time < a.time - interval - p)
                  then (if a.time > p then a.time - p else 0) % 0x1_0000_0000 else e.time;
      var heard := e.(time := time, services := e.services + a.services);
      if !(s in m.newTable && m.newTable[s] == id)
         && a.time != 0 && (time == 0 || a.time > time) && !e.inTried && e.refCount < 8 && rnd % Pow2(e.refCount) == 0
         && GivesWay(m, s, e.refCount, now)
      then Entered(m, m', s, id) && id in m'.info && m'.info[id] == heard.(refCount := e.refCount + 1)
      else m' == m.(info := m.info[id := heard])
  {
    hide Inv, NewSlot, Entered, Register, Add;
    KnownId(m, a.service.net);
    var id, p := m.byAddr[a.service.net], Penalty(a, source, penalty);
    var e := Heard(m.info[id], a, p, now);
    var m1, s := m.(info := m.info[id := e]), NewSlot(m.env, e.addr, source);
    KnownRefs(m, id);
    Occupied(m, s);
    AddKnownSteps(m, a, source, penalty, now, rnd);
    if !(NoMoreBuckets(e, a) || Unlucky(e.refCount, rnd)) {
      RegisterIs(m1, id, source, now);
      if Register(m1, id, source, now) != m1 {
        EnteredHeard(m, id, e, Register(m1, id, source, now), s);
      }
    }
  }

  lemma KnownId(m: State, a: NetAddr)
    requires Inv(m)
    ensures a in m.byAddr ==> m.byAddr[a] in m.info
  {
  }

  lemma AddKnownSteps(m: State, a: Address, source: NetAddr, penalty: int, now: int, rnd: nat)
    requires Inv(m) && m.env.routable(a.service.net) && a.service.net in m.byAddr
    ensures var id := m.byAddr[a.service.net];
      && id in m.info
      && var e := Heard(m.info[id], a, Penalty(a, source, penalty), now);
      && var m1 := m.(info := m.info[id := e]);
      && OrderInv(m1.info.Keys, m1.random, m1.pos) && NewInv(m1.env, m1.info, m1.newTable)
      && Add(m, a, source, penalty, now, rnd) == if NoMoreBuckets(e, a) || Unlucky(e.refCount, rnd) then m1 else Register(m1, id, source, now)
  {
    hide Register, Heard;
    KnownId(m, a.service.net);
    HeardInv(m, m.byAddr[a.service.net], a, Penalty(a, source, penalty), now);
  }

  lemma KnownRefs(m: State, id: int)
    requires Inv(m) && id in m.info
    ensures m.info[id].refCount <= 8 && (!m.info[id].inTried ==> m.info[id].refCount >= 1)
    ensures m.info[id].refCount == 0 ==> Pow2(0) == 1
  {
  }

  lemma EnteredHeard(m: State, id: int, e: Info, m': State, s: Slot)
    requires id in m.info && Entered(m.(info := m.info[id := e]), m', s, id)
    ensures Entered(m, m', s, id)
  {
  }

  // ---------------------------------------------------------------- Good_

  /** `id` has left the new table for its tried slot.  Whatever held that has gone to the new slot that its
      source gives it, and whatever held that one is in one bucket less or gone.  Every other entry is as
      before. */
  ghost predicate Promoted(m: State, m': State, id: int)
    requires id in m.info
  {
    var s := TriedSlot(m.env, m.info[id].addr);
    && m'.env == m.env && m'.triedTable == m.triedTable[s := id]
    && id in m'.info && m'.info[id] == m.info[id].(refCount := 0, inTried := true)
    && m'.info.Keys <= m.info.Keys
    && var left := map u | u in m.newTable && m.newTable[u] != id :: m.newTable[u];
    if s !in m.triedTable then
      m'.newTable == left && forall x <- m.info | x != id :: x in m'.info && m'.info[x] == m.info[x]
    else
      && m.triedTable[s] in m.info
      && var ev := m.triedTable[s];
      && var u := NewSlot(m.env, m.info[ev].addr, m.info[ev].source);
      && m'.newTable == left[u := ev]
      && ev in m'.info && m'.info[ev] == m.info[ev].(refCount := 1, inTried := false)
      && forall x <- m.info | x != id && x != ev ::
           if u in m.newTable && m.newTable[u] == x then
             if m.info[x].refCount == 1 then x !in m'.info
             else x in m'.info && m'.info[x] == m.info[x].(refCount := m.info[x].refCount - 1)
           else x in m'.info && m'.info[x] == m.info[x]
  }

  ghost predicate Evicted(m: State, m': State, s: Slot)
    requires s in m.triedTable && m.triedTable[s] in m.info
  {
    var ev := m.triedTable[s];
    var u := NewSlot(m.env, m.info[ev].addr, m.info[ev].source);
    && m'.newTable == m.newTable[u := ev] && m'.triedTable == m.triedTable - {s} && m'.env == m.env
    && ev in m'.info && m'.info[ev] == m.info[ev].(refCount := 1, inTried := false)
    && m'.info.Keys <= m.info.Keys
    && forall x <- m.info | x != ev ::
         if u in m.newTable && m.newTable[u] == x then
           if m.info[x].refCount == 1 then x !in m'.info
           else x in m'.info && m'.info[x] == m.info[x].(refCount := m.info[x].refCount - 1)
         else x in m'.info && m'.info[x] == m.info[x]
  }

  lemma EvictIs(m: State, s: Slot)
    requires CanEvict(m, s) && NewInv(m.env, m.info, m.newTable) && m.info[m.triedTable[s]].refCount == 0
    ensures Evicted(m, EvictTried(m, s), s)
  {
    hide ClearNew, NewInv, OrderInv, NewSlot, Release;
    var m1, u := Release(m, s), ReturnSlot(m, s);
    ReleasedNew(m, s);
    ClearNewIs(m1, u);
    ClearNewFrame(m1, u);
    PutBack(m1.newTable, u, m.triedTable[s]);
    ReleaseIs(m, s);
    EvictSteps(m, s);
  }

  lemma ReleasedNew(m: State, s: Slot)
    requires CanEvict(m, s) && NewInv(m.env, m.info, m.newTable)
    ensures var m1 := Release(m, s); OrderInv(m1.info.Keys, m1.random, m1.pos) && NewInv(m1.env, m1.info, m1.newTable)
    ensures forall u <- m.newTable :: m.newTable[u] != m.triedTable[s]
  {
    assert Release(m, s).info.Keys == m.info.Keys;
  }

  lemma ReleaseIs(m: State, s: Slot)
    requires s in m.triedTable && m.triedTable[s] in m.info
    ensures var m1, ev := Release(m, s), m.triedTable[s];
      && m1.info == m.info[ev := m.info[ev].(inTried := false)] && m1.newTable == m.newTable
      && m1.triedTable == m.triedTable - {s} && m1.env == m.env
  {
  }

  lemma EvictSteps(m: State, s: Slot)
    requires CanEvict(m, s)
    ensures var m1, u := Release(m, s), ReturnSlot(m, s);
      && OrderInv(m1.info.Keys, m1.random, m1.pos) && (u in m1.newTable ==> m1.newTable[u] in m1.info)
      && m.triedTable[s] in ClearNew(m1, u).info
      && EvictTried(m, s) == Readd(ClearNew(m1, u), m.triedTable[s], u)
  {
    hide ClearNew;
    assert Release(m, s).info.Keys == m.info.Keys;
    ClearNewFrame(Release(m, s), ReturnSlot(m, s));
  }

  lemma PlacedAfter(m: State, m2: State, id: int)
    requires id in m.info && !m.info[id].inTried && Evictable(m, id)
    requires Evicted(Unlink(m, id), m2, TriedSlot(m.env, m.info[id].addr)) && id in m2.info && m2.info[id] == Unlink(m, id).info[id]
    ensures Promoted(m, PlaceTried(m2, id), id)
  {
    hide NewSlot, TriedSlot;
    PutBack(m.triedTable, TriedSlot(m.env, m.info[id].addr), id);
  }

  ghost predicate Evictable(m: State, id: int)
    requires id in m.info
  {
    var s := TriedSlot(m.env, m.info[id].addr);
    s in m.triedTable && m.triedTable[s] in m.info && m.triedTable[s] != id
  }

  lemma MakeTriedIs(m: State, id: int)
    requires Core(m, {}, 0) && id in m.info && !m.info[id].inTried
    ensures CanMove(m, id) && Promoted(m, MakeTried(m, id), id)
  {
    CanMoveIt(m, id);
    UnlinkCore(m, id);
    var m1, s := Unlink(m, id), TriedSlot(m.env, m.info[id].addr);
    MakeRoomFrame(m1, s);
    if s in m1.triedTable {
      CanEvictIt(m1, s, {id}, 1);
      CoreNew(m1, {id}, 1);
      hide Core, Evicted, EvictTried, Promoted, Unlink, TriedSlot, ReturnSlot, NewInv;
      EvictIs(m1, s);
      PlacedAfter(m, EvictTried(m1, s), id);
      assert MakeTried(m, id) == PlaceTried(EvictTried(m1, s), id);
    } else {
      PlacedFree(m, id);
    }
  }

  lemma CoreNew(m: State, pending: set<int>, owed: int)
    requires Core(m, pending, owed)
    ensures NewInv(m.env, m.info, m.newTable)
  {
  }

  lemma PlacedFree(m: State, id: int)
    requires id in m.info && TriedSlot(m.env, m.info[id].addr) !in m.triedTable
    ensures Promoted(m, PlaceTried(Unlink(m, id), id), id)
  {
    hide TriedSlot;
  }

  /** `id` has been reached just now. */
  function Reached(m: State, id: int, t: int): State
    requires id in m.info
  {
    m.(lastGood := t, info := m.info[id := m.info[id].(lastSuccess := t, lastTry := t, attempts := 0)])
  }

  /** An entry known under exactly this port is marked as reached.  If it is not in tried, it goes there,
      unless its slot is taken and evictions are to be tested: then it is queued if there is room. */
  lemma GoodIs(m: State, a: Service, testBeforeEvict: bool, t: int)
    requires Inv(m) && t > 0
    ensures var m' := Good(m, a, testBeforeEvict, t);
      if a.net !in m.byAddr || m.info[m.byAddr[a.net]].addr != a then m' == m.(lastGood := t)
      else
        var id := m.byAddr[a.net];
        var m1 := Reached(m, id, t);
        if m.info[id].inTried then m' == m1
        else if testBeforeEvict && TriedSlot(m.env, a) in m.triedTable then
          m' == m1.(collisions := if |m.collisions| < 10 then m.collisions + {id} else m.collisions)
        else Promoted(m1, m', id) && m'.collisions == m.collisions
  {
    if a.net in m.byAddr && m.info[m.byAddr[a.net]].addr == a {
      var id := m.byAddr[a.net];
      GoodMoves(m, id, t);
      if !m.info[id].inTried && !(testBeforeEvict && TriedSlot(m.env, a) in m.triedTable) {
        MakeTriedIs(Reached(m, id, t), id);
        MakeTriedFrame(Reached(m, id, t), id);
      }
    }
  }

  // ---------------------------------------------------------------- ResolveCollisions_

  /** The entry in the tried slot that a queued one is waiting for. */
  ghost predicate Waits(m: State, id: int) {
    && id in m.info && m.env.valid(m.info[id].addr.net)
    && TriedSlot(m.env, m.info[id].addr) in m.triedTable
    && m.triedTable[TriedSlot(m.env, m.info[id].addr)] in m.info
  }

  ghost function Holder(m: State, id: int): int
    requires Waits(m, id)
  {
    m.triedTable[TriedSlot(m.env, m.info[id].addr)]
  }

  /** It was reached within four hours. */
  predicate Alive(e: Info, now: int) {
    now - e.lastSuccess < 14400
  }

  /** It was not, and was tried within four hours but not within the last minute. */
  predicate Failed(e: Info, now: int) {
    !Alive(e, now) && 60 < now - e.lastTry < 14400
  }

  lemma QueuedWaits(m: State, id: int)
    requires Inv(m) && id in m.collisions && id in m.info && m.env.valid(m.info[id].addr.net)
    ensures Waits(m, id) && m.info[Holder(m, id)].inTried
    ensures m.info[id].inTried <==> Holder(m, id) == id
    ensures m.info[id].addr.net in m.byAddr && m.byAddr[m.info[id].addr.net] == id
  {
  }

  /** A holder that is alive stays and the queued entry leaves the queue.  One that failed gives its slot to
      it and is a new entry again; if it is the queued entry itself, it is marked as reached.  Otherwise
      everything is left as it is. */
  lemma ResolveOneIs(m: State, id: int, now: int)
    requires Inv(m) && now > 0 && id in m.collisions
    ensures id in m.info && m.env.valid(m.info[id].addr.net) ==> Waits(m, id)
    ensures var m' := ResolveOne(m, id, now);
      if !Waits(m, id) || Alive(m.info[Holder(m, id)], now) then m' == m.(collisions := m.collisions - {id})
      else if !Failed(m.info[Holder(m, id)], now) then m' == m
      else if Holder(m, id) == id then m' == Reached(m, id, now).(collisions := m.collisions - {id})
      else !m.info[id].inTried && Promoted(Reached(m, id, now), m', id) && m'.collisions == m.collisions - {id}
  {
    hide Inv, Promoted, Good, ResolveOne, TriedSlot;
    ResolveSteps(m, id, now);
    if id in m.info && m.env.valid(m.info[id].addr.net) {
      QueuedWaits(m, id);
      GoodIs(m, m.info[id].addr, false, now);
      PromotedDropped(Reached(m, id, now), Good(m, m.info[id].addr, false, now), id);
    }
  }

  lemma ResolveSteps(m: State, id: int, now: int)
    requires Inv(m) && now > 0 && id in m.collisions
    ensures id in m.info && m.env.valid(m.info[id].addr.net) ==> Waits(m, id)
    ensures ResolveOne(m, id, now) ==
      if !Waits(m, id) || Alive(m.info[Holder(m, id)], now) then m.(collisions := m.collisions - {id})
      else if Failed(m.info[Holder(m, id)], now) then
        var g := Good(m, m.info[id].addr, false, now);
        g.(collisions := g.collisions - {id})
      else m
  {
    hide Good;
    if id in m.info && m.env.valid(m.info[id].addr.net) {
      QueuedWaits(m, id);
    }
  }

  lemma PromotedDropped(m: State, m': State, id: int)
    requires id in m.info
    ensures Promoted(m, m', id) ==> Promoted(m, m'.(collisions := m'.collisions - {id}), id)
  {
  }

  /** The tried slot `s` holds what it held, and that is as it was. */
  ghost predicate Kept(m: State, m': State, s: Slot)
    requires s in m.triedTable
  {
    && m.triedTable[s] in m.info && s in m'.triedTable && m'.triedTable[s] == m.triedTable[s]
    && m.triedTable[s] in m'.info && m'.info[m.triedTable[s]] == m.info[m.triedTable[s]]
  }

  /** What held it had failed, and one of `done` that was waiting for it holds it, as reached now. */
  ghost predicate TakenOver(m: State, m': State, s: Slot, done: set<int>, now: int)
    requires s in m.triedTable
  {
    && m.triedTable[s] in m.info && Failed(m.info[m.triedTable[s]], now)
    && s in m'.triedTable && m'.triedTable[s] in done
    && var x := m'.triedTable[s];
    && x in m.info && TriedSlot(m.env, m.info[x].addr) == s
    && x in m'.info && m'.info[x].lastSuccess == now
  }

  /** What becomes of one that was queued. */
  ghost predicate Settled(m: State, m': State, id: int, done: set<int>, now: int) {
    if !Waits(m, id) || Alive(m.info[Holder(m, id)], now) then id !in m'.collisions
    else if Failed(m.info[Holder(m, id)], now) then
      id !in m'.collisions && (id in m'.info ==> TakenOver(m, m', TriedSlot(m.env, m.info[id].addr), done, now))
    else id in m'.info ==> id in m'.collisions
  }

  ghost predicate Resolved(m: State, m': State, done: set<int>, now: int) {
    && m'.env == m.env && m'.info.Keys <= m.info.Keys && (forall x <- m'.info :: m'.info[x].addr == m.info[x].addr)
    && m'.triedTable.Keys == m.triedTable.Keys
    && (forall s <- m.triedTable :: Kept(m, m', s) || TakenOver(m, m', s, done, now))
    && (forall id <- done :: Settled(m, m', id, done, now))
    && m.collisions - done <= m'.collisions <= m.collisions
  }

  lemma PromotedKeeps(m: State, m': State, id: int)
    requires Core(m, {}, 0) && id in m.info && !m.info[id].inTried && Promoted(m, m', id)
    ensures forall s <- m.triedTable | s != TriedSlot(m.env, m.info[id].addr) :: Kept(m, m', s)
  {
    hide Indexed, RefInv, RefRange, CountInv, NewSlotIn, NewSlot, TriedSlot;
    forall s <- m.triedTable | s != TriedSlot(m.env, m.info[id].addr) ensures Kept(m, m', s) {
      var x := m.triedTable[s];
      assert x in m.info && m.info[x].inTried && forall u <- m.newTable :: m.newTable[u] != x;
    }
  }

  /** One queued entry, seen from all tried slots. */
  ghost predicate OneResolved(m: State, m': State, id: int, now: int) {
    && m'.env == m.env && m'.info.Keys <= m.info.Keys && (forall x <- m'.info :: m'.info[x].addr == m.info[x].addr)
    && m'.triedTable.Keys == m.triedTable.Keys
    && (forall s <- m.triedTable | Waits(m, id) && Failed(m.info[Holder(m, id)], now) ==> s != TriedSlot(m.env, m.info[id].addr) :: Kept(m, m', s))
    && (Waits(m, id) && Failed(m.info[Holder(m, id)], now) ==>
          m'.triedTable[TriedSlot(m.env, m.info[id].addr)] == id && id in m'.info && m'.info[id].lastSuccess == now)
    && (id in m'.collisions <==> Waits(m, id) && !Alive(m.info[Holder(m, id)], now) && !Failed(m.info[Holder(m, id)], now))
    && m.collisions - {id} <= m'.collisions <= m.collisions
  }

  lemma AllKept(m: State, m': State)
    requires Core(m, {}, 0)
    ensures m'.triedTable == m.triedTable && m'.info == m.info ==> forall s <- m.triedTable :: Kept(m, m', s)
  {
  }

  lemma ReachedKeeps(m: State, id: int, t: int)
    requires Core(m, {}, 0) && id in m.info
    ensures forall s <- m.triedTable | s != TriedSlot(m.env, m.info[id].addr) :: Kept(m, Reached(m, id, t), s)
  {
    hide TriedSlot, Indexed, NewInv, RefInv, RefRange, CountInv;
  }

  lemma KeptTwice(m: State, m1: State, m2: State, s: Slot)
    requires s in m.triedTable && Kept(m, m1, s) && Kept(m1, m2, s)
    ensures Kept(m, m2, s)
  {
  }

  lemma ResolveOneSlots(m: State, id: int, now: int)
    requires Inv(m) && now > 0 && id in m.collisions
    ensures OneResolved(m, ResolveOne(m, id, now), id, now)
  {
    var m' := ResolveOne(m, id, now);
    ResolveOneIs(m, id, now);
    InvIsCore(m);
    AllKept(m, m');
    hide ResolveOne, Inv, Core, Promoted, Kept;
    if Waits(m, id) && Failed(m.info[Holder(m, id)], now) {
      if Holder(m, id) == id {
        ReachedSlots(m, id, now);
      } else {
        PromotedSlots(m, m', id, now);
      }
    } else {
      assert m'.triedTable == m.triedTable && m'.info == m.info;
    }
  }

  lemma ReachedSlots(m: State, id: int, now: int)
    requires Inv(m) && now > 0 && id in m.collisions && Waits(m, id) && Holder(m, id) == id && Failed(m.info[id], now)
    ensures OneResolved(m, Reached(m, id, now).(collisions := m.collisions - {id}), id, now)
  {
    InvIsCore(m);
    ReachedKeeps(m, id, now);
    hide Inv, Core, Kept;
    AlsoKept(m, Reached(m, id, now), Reached(m, id, now).(collisions := m.collisions - {id}), TriedSlot(m.env, m.info[id].addr));
  }

  lemma AlsoKept(m: State, m1: State, m2: State, t: Slot)
    requires forall s <- m.triedTable | s != t :: Kept(m, m1, s)
    requires m2.triedTable == m1.triedTable && m2.info == m1.info
    ensures forall s <- m.triedTable | s != t :: Kept(m, m2, s)
  {
  }

  lemma PromotedSlots(m: State, m': State, id: int, now: int)
    requires Inv(m) && now > 0 && Waits(m, id) && !m.info[id].inTried && Promoted(Reached(m, id, now), m', id)
    requires Failed(m.info[Holder(m, id)], now) && m'.collisions == m.collisions - {id}
    ensures OneResolved(m, m', id, now)
  {
    var m1 := Reached(m, id, now);
    InvIsCore(m);
    ReachedKeeps(m, id, now);
    GoodMoves(m, id, now);
    PromotedKeeps(m1, m', id);
    PromotedFrame(m1, m', id);
    hide Inv, Core, Promoted, TriedSlot;
    forall s <- m.triedTable | s != TriedSlot(m.env, m.info[id].addr) ensures Kept(m, m', s) {
      KeptTwice(m, m1, m', s);
    }
  }

  lemma InvIsCore(m: State)
    requires Inv(m)
    ensures Core(m, {}, 0)
  {
  }

  lemma PromotedFrame(m: State, m': State, id: int)
    requires Core(m, {}, 0) && id in m.info && Promoted(m, m', id)
    ensures m'.triedTable == m.triedTable[TriedSlot(m.env, m.info[id].addr) := id]
    ensures id in m'.info && m'.info[id].lastSuccess == m.info[id].lastSuccess
    ensures m'.info.Keys <= m.info.Keys && forall x <- m'.info :: m'.info[x].addr == m.info[x].addr
  {
  }

  lemma SlotStep(m: State, m1: State, m2: State, done: set<int>, id: int, now: int, s: Slot)
    requires Resolved(m, m1, done, now) && OneResolved(m1, m2, id, now) && s in m.triedTable
    requires id in m.info ==> Waits(m, id) || !m.env.valid(m.info[id].addr.net)
    ensures Kept(m, m2, s) || TakenOver(m, m2, s, done + {id}, now)
    ensures TakenOver(m, m1, s, done, now) ==> TakenOver(m, m2, s, done + {id}, now)
  {
    hide TriedSlot;
  }

  lemma ResolvedStep(m: State, m1: State, m2: State, done: set<int>, id: int, now: int)
    requires Resolved(m, m1, done, now) && OneResolved(m1, m2, id, now) && id in m.collisions - done
    requires id in m.info ==> Waits(m, id) || !m.env.valid(m.info[id].addr.net)
    ensures Resolved(m, m2, done + {id}, now)
  {
    forall s <- m.triedTable ensures Kept(m, m2, s) || TakenOver(m, m2, s, done + {id}, now) {
      SlotStep(m, m1, m2, done, id, now, s);
    }
  }

  lemma StartResolved(m: State, now: int)
    requires Inv(m)
    ensures Resolved(m, m, {}, now)
  {
    InvIsCore(m);
    AllKept(m, m);
    hide Inv, Core, Kept;
  }

  lemma QueuedFacts(m: State, m1: State, done: set<int>, id: int, now: int)
    requires Inv(m) && Resolved(m, m1, done, now) && id in m.collisions
    ensures id in m.info ==> Waits(m, id) || !m.env.valid(m.info[id].addr.net)
  {
    if id in m.info && m.env.valid(m.info[id].addr.net) {
      QueuedWaits(m, id);
    }
  }

  lemma {:induction false} ResolveRest(m: State, m1: State, todo: set<int>, done: set<int>, now: int)
    requires Inv(m) && Inv(m1) && now > 0 && Resolved(m, m1, done, now)
    requires todo <= m1.collisions && todo <= m.collisions && done + todo == m.collisions && done !! todo
    ensures Resolved(m, ResolveAll(m1, todo, now), m.collisions, now)
    decreases |todo|
  {
    hide Inv, Resolved, OneResolved, ResolveOne;
    if todo == {} {
      assert done == m.collisions;
    } else {
      var id := Least(todo);
      ResolveOneInv(m1, id, now);
      ResolveOneSlots(m1, id, now);
      QueuedFacts(m, m1, done, id, now);
      ResolvedStep(m, m1, ResolveOne(m1, id, now), done, id, now);
      assert done + {id} + (todo - {id}) == m.collisions;
      ResolveRest(m, ResolveOne(m1, id, now), todo - {id}, done + {id}, now);
    }
  }

  /** The whole queue.  Every tried slot keeps its holder as it was, or its holder had failed and one that
      waited for it, or itself, holds it as reached now.  Queued entries leave the queue if they are gone or
      no longer valid or their holder was alive or had failed; and where it had failed the slot has been taken over,
      if the queued entry is still there.  Where it was neither, they stay in the queue if they are still there. */
  lemma ResolveAllIs(m: State, now: int)
    requires Inv(m) && now > 0
    ensures Resolved(m, Resolve(m, now), m.collisions, now)
  {
    StartResolved(m, now);
    hide Inv, Resolved;
    ResolveRest(m, m, m.collisions, {}, now);
  }

  // ---------------------------------------------------------------- SelectTriedCollision_

  lemma {:induction false} NthHasBelow(s: set<int>, k: nat)
    requires k < |s|
    ensures |set y | y in s && y < Nth(s, k)| == k
    decreases k
  {
    var x := Least(s);
    if k == 0 {
      assert (set y | y in s && y < Nth(s, k)) == {};
    } else {
      NthHasBelow(s - {x}, k - 1);
      var n := Nth(s, k);
      assert n in s - {x} && x < n;
      assert (set y | y in s && y < n) == (set y | y in s - {x} && y < n) + {x};
    }
  }

  ghost predicate Slotted(m: State, id: int)
    requires id in m.info
  {
    TriedSlot(m.env, m.info[id].addr) in m.triedTable && m.triedTable[TriedSlot(m.env, m.info[id].addr)] in m.info
  }

  /** What is given is the holder of the slot that the drawn queued entry waits for, the drawn one having
      as many others below it as the draw says.  One that is gone leaves the queue and gives nothing. */
  lemma SelectTriedCollisionIs(m: State, k: nat)
    requires Inv(m)
    ensures var (m', r) := SelectTriedCollision(m, k);
      if m.collisions == {} then m' == m && r == None
      else exists id <- m.collisions ::
        && |set y | y in m.collisions && y < id| == k % |m.collisions|
        && if id !in m.info then m' == m.(collisions := m.collisions - {id}) && r == None
           else
             && Slotted(m, id) && m' == m
             && r == Some(m.info[m.triedTable[TriedSlot(m.env, m.info[id].addr)]])
  {
    if m.collisions != {} {
      assert |m.collisions| > 0;
      NthHasBelow(m.collisions, k % |m.collisions|);
      var id := Nth(m.collisions, k % |m.collisions|);
      hide Nth;
      assert id in m.collisions;
    }
  }

  // ---------------------------------------------------------------- bookkeeping operations

  /** Nothing changes but the entry known under exactly this port, and that not in its address, its
      place or its references. */
  ghost predicate OnlyTouches(m: State, m': State, a: Service)
    requires AddrInv(m.info, m.byAddr)
  {
    if Knows(m, a) then
      var id := m.byAddr[a.net];
      && m' == m.(info := m'.info) && m'.info.Keys == m.info.Keys
      && (forall x <- m.info | x != id :: m'.info[x] == m.info[x])
      && m'.info[id].addr == m.info[id].addr && m'.info[id].source == m.info[id].source
      && m'.info[id].inTried == m.info[id].inTried && m'.info[id].refCount == m.info[id].refCount
      && m'.info[id].lastSuccess == m.info[id].lastSuccess
    else m' == m
  }

  /** A failure is counted if none has been counted since an address was last reached; a second one
      before the next success is then not counted any more. */
  lemma AttemptIs(m: State, a: Service, countFailure: bool, t: int, t2: int)
    requires Inv(m) && t >= 0
    ensures Inv(Attempt(m, a, countFailure, t)) && OnlyTouches(m, Attempt(m, a, countFailure, t), a)
    ensures Knows(m, a) ==>
      var e, e' := m.info[m.byAddr[a.net]], Attempt(m, a, countFailure, t).info[m.byAddr[a.net]];
      && e'.lastTry == t && e'.time == e.time && e'.services == e.services
      && (e'.attempts == e.attempts + 1 && e'.lastCountAttempt == t <==> countFailure && e.lastCountAttempt < m.lastGood)
      && (e'.attempts == e.attempts && e'.lastCountAttempt == e.lastCountAttempt <==> !(countFailure && e.lastCountAttempt < m.lastGood))
    ensures Knows(m, a) && countFailure && t >= m.lastGood ==>
      Attempt(Attempt(m, a, true, t), a, true, t2).info[m.byAddr[a.net]].attempts == Attempt(m, a, true, t).info[m.byAddr[a.net]].attempts
  {
    AttemptInv(m, a, countFailure, t);
  }

  /** The time comes forward if it is more than twenty minutes old. */
  lemma ConnectedIs(m: State, a: Service, t: int)
    requires Inv(m)
    ensures OnlyTouches(m, Connected(m, a, t), a)
    ensures Knows(m, a) ==>
      var e, e' := m.info[m.byAddr[a.net]], Connected(m, a, t).info[m.byAddr[a.net]];
      && e' == e.(time := e'.time)
      && e'.time == (if e.time < t - 1200 then t % 0x1_0000_0000 else e.time)
  {
  }

  lemma SetServicesIs(m: State, a: Service, services: set<nat>)
    requires Inv(m)
    ensures OnlyTouches(m, SetServices(m, a, services), a)
    ensures Knows(m, a) ==>
      SetServices(m, a, services).info[m.byAddr[a.net]] == m.info[m.byAddr[a.net]].(services := services)
  {
  }

  /** An entry is not worth keeping if it was not tried in the last minute and its time is unknown, more than
      ten minutes ahead or 30 days old, or if it failed three times and was never reached, or ten times and
      not in the last week. */
  lemma TerribleIs(e: Info, now: int)
    ensures e.IsTerrible(now) <==>
      && (e.lastTry == 0 || now - e.lastTry > 60)
      && (|| e.time == 0 || e.time - now > 600 || now - e.time > 2592000
          || (e.lastSuccess == 0 && e.attempts >= 3) || (now - e.lastSuccess > 604800 && e.attempts >= 10))
  {
  }
}
