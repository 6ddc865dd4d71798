/**
 The public operations of the address manager as functions on its state, with the
 proofs that each one keeps the consistency condition and what each one can lose.
 */
module AddrManOps {
  import opened AddrManState
  import opened Helpers

  function Max(a: int, b: int): int {
    if a < b then b else a
  }

  function Min(a: int, b: int): int {
    if a < b then a else b
  }

  /** Conversion to the unsigned 32-bit field `nTime`. */
  function U32(x: int): int {
    x % 0x1_0000_0000
  }

  // ---------------------------------------------------------------- moving to tried

  lemma CanEvictIt(m: State, s: Slot, pending: set<int>, owed: int)
    requires Core(m, pending, owed) && s in m.triedTable
    ensures CanEvict(m, s) && m.info[m.triedTable[s]].inTried && m.info[m.triedTable[s]].refCount == 0
  {
    ReleaseCore(m, s, pending, owed);
  }

  /** No entry is new and none has changed its address. */
  ghost predicate Shrinks(m: State, m': State) {
    && m'.env == m.env && m'.idCount == m.idCount && m'.collisions == m.collisions
    && m'.info.Keys <= m.info.Keys
    && forall x <- m'.info :: x in m.info && m'.info[x].addr == m.info[x].addr
  }

  lemma EvictFrame(m: State, s: Slot)
    requires CanEvict(m, s)
    ensures Shrinks(m, EvictTried(m, s))
    ensures EvictTried(m, s).triedTable == m.triedTable - {s}
    ensures m.triedTable[s] in EvictTried(m, s).info && !EvictTried(m, s).info[m.triedTable[s]].inTried
  {
    ClearNewFrame(Release(m, s), ReturnSlot(m, s));
  }

  /** An eviction can lose only the occupant of the slot the evicted entry returns to. */
  lemma EvictLoses(m: State, s: Slot)
    requires CanEvict(m, s)
    ensures EvictTried(m, s).newTable == m.newTable[ReturnSlot(m, s) := m.triedTable[s]]
    ensures forall x | x in m.info && x != m.triedTable[s] ::
      (ReturnSlot(m, s) in m.newTable ==> x != m.newTable[ReturnSlot(m, s)]) ==>
      x in EvictTried(m, s).info && EvictTried(m, s).info[x] == m.info[x]
  {
    ClearNewFrame(Release(m, s), ReturnSlot(m, s));
  }

  lemma EvictCore(m: State, s: Slot, pending: set<int>, owed: int)
    requires Core(m, pending, owed) && s in m.triedTable && m.triedTable[s] !in pending
    requires forall u <- m.newTable :: m.newTable[u] !in pending
    ensures CanEvict(m, s) && Core(EvictTried(m, s), pending, owed)
  {
    var ev, u := m.triedTable[s], ReturnSlot(m, s);
    var m1 := Release(m, s);
    CanEvictIt(m, s, pending, owed);
    ReleaseCore(m, s, pending, owed);
    ClearNewFrame(m1, u);
    ClearNewCore(m1, u, pending + {ev}, owed + 1);
    ReaddCore(ClearNew(m1, u), ev, u, pending + {ev}, owed + 1);
    DropAdded(pending, ev);
  }

  /** First make space in the tried table. */
  ghost function MakeRoom(m: State, s: Slot): State
    requires s in m.triedTable ==> CanEvict(m, s)
  {
    if s in m.triedTable then EvictTried(m, s) else m
  }

  lemma MakeRoomFrame(m: State, s: Slot)
    requires s in m.triedTable ==> CanEvict(m, s)
    ensures Shrinks(m, MakeRoom(m, s))
    ensures MakeRoom(m, s).triedTable == m.triedTable - {s}
    ensures forall x | x in m.info && (s in m.triedTable ==> x != m.triedTable[s]) ::
      (s in m.triedTable && ReturnSlot(m, s) in m.newTable ==> x != m.newTable[ReturnSlot(m, s)]) ==>
      x in MakeRoom(m, s).info && MakeRoom(m, s).info[x] == m.info[x]
    ensures s in m.triedTable ==> m.triedTable[s] in MakeRoom(m, s).info
  {
    if s in m.triedTable {
      EvictFrame(m, s);
      EvictLoses(m, s);
    }
  }

  ghost predicate CanMove(m: State, id: int) {
    && id in m.info
    && var m1, s := Unlink(m, id), TriedSlot(m.env, m.info[id].addr);
       && (s in m1.triedTable ==> CanEvict(m1, s) && m1.triedTable[s] != id)
       && forall u <- m1.newTable :: m1.newTable[u] != id
  }

  ghost function MakeTried(m: State, id: int): State
    requires CanMove(m, id)
  {
    var m1, s := Unlink(m, id), TriedSlot(m.env, m.info[id].addr);
    MakeRoomFrame(m1, s);
    PlaceTried(MakeRoom(m1, s), id)
  }

  lemma CanMoveIt(m: State, id: int)
    requires Core(m, {}, 0) && id in m.info && !m.info[id].inTried
    ensures CanMove(m, id)
  {
    UnlinkCore(m, id);
    var m1, s := Unlink(m, id), TriedSlot(m.env, m.info[id].addr);
    if s in m1.triedTable {
      CanEvictIt(m1, s, {id}, 1);
    }
  }

  /** Moving an entry to tried keeps the manager consistent. */
  lemma MakeTriedCore(m: State, id: int)
    requires Core(m, {}, 0) && id in m.info && !m.info[id].inTried && m.info[id].lastSuccess != 0
    ensures CanMove(m, id) && Core(MakeTried(m, id), {}, 0)
  {
    CanMoveIt(m, id);
    UnlinkCore(m, id);
    MakeRoomCore(Unlink(m, id), TriedSlot(m.env, m.info[id].addr), id);
    PlaceTriedCore(MakeRoom(Unlink(m, id), TriedSlot(m.env, m.info[id].addr)), id);
  }

  lemma MakeRoomCore(m: State, s: Slot, id: int)
    requires Core(m, {id}, 1) && id in m.info && (s in m.triedTable ==> m.triedTable[s] != id)
    requires forall u <- m.newTable :: m.newTable[u] != id
    ensures s in m.triedTable ==> CanEvict(m, s)
    ensures Core(MakeRoom(m, s), {id}, 1)
    ensures id in MakeRoom(m, s).info && MakeRoom(m, s).info[id] == m.info[id]
    ensures s !in MakeRoom(m, s).triedTable && MakeRoom(m, s).env == m.env
  {
    if s in m.triedTable {
      EvictCore(m, s, {id}, 1);
    }
    MakeRoomFrame(m, s);
  }

  lemma MakeTriedFrame(m: State, id: int)
    requires CanMove(m, id)
    ensures Shrinks(m, MakeTried(m, id))
    ensures id in MakeTried(m, id).info && MakeTried(m, id).info[id].inTried
    ensures MakeTried(m, id).triedTable == m.triedTable[TriedSlot(m.env, m.info[id].addr) := id]
  {
    var m1, s := Unlink(m, id), TriedSlot(m.env, m.info[id].addr);
    MakeRoomFrame(m1, s);
    PutBack(m1.triedTable, s, id);
  }

  /** Ids are not handed out twice and filled tried slots stay filled. */
  ghost predicate Grows(m: State, m': State) {
    m.idCount <= m'.idCount && m.triedTable.Keys <= m'.triedTable.Keys
  }

  /** Collisions stay answerable as long as no filled tried slot empties. */
  lemma KeepCollisions(m: State, m': State)
    requires CollisionInv(m) && Shrinks(m, m') && m.triedTable.Keys <= m'.triedTable.Keys
    ensures CollisionInv(m')
  {
  }

  // ---------------------------------------------------------------- Good_

  function Refreshed(e: Info, t: int): Info {
    e.(lastSuccess := t, lastTry := t, attempts := 0)
  }

  function Refresh(m: State, id: int, t: int): State
    requires id in m.info
  {
    m.(lastGood := t, info := m.info[id := Refreshed(m.info[id], t)])
  }

  /** Move to tried, or, when evictions are to be tested first and one would be needed,
      queue up for that. */
  ghost function Promote(m: State, id: int, testBeforeEvict: bool): State
    requires CanMove(m, id)
  {
    if testBeforeEvict && TriedSlot(m.env, m.info[id].addr) in m.triedTable then
      if |m.collisions| < SET_TRIED_COLLISION_SIZE then m.(collisions := m.collisions + {id}) else m
    else MakeTried(m, id)
  }

  ghost function Good(m: State, a: Service, testBeforeEvict: bool, t: int): State
    requires Inv(m) && t > 0
  {
    if a.net !in m.byAddr || m.info[m.byAddr[a.net]].addr != a then m.(lastGood := t) else
      var id := m.byAddr[a.net];
      if m.info[id].inTried then Refresh(m, id, t) else
        GoodMoves(m, id, t);
        Promote(Refresh(m, id, t), id, testBeforeEvict)
  }

  lemma GoodMoves(m: State, id: int, t: int)
    requires Core(m, {}, 0) && t > 0 && id in m.info
    ensures var m1 := Refresh(m, id, t);
      Core(m1, {}, 0) && (!m.info[id].inTried ==> CanMove(m1, id)) && Shrinks(m, m1)
  {
    var m0 := m.(lastGood := t);
    TouchCore(m0, id, Refreshed(m.info[id], t), {}, 0);
    var m1 := m0.(info := m.info[id := Refreshed(m.info[id], t)]);
    assert m1 == Refresh(m, id, t);
    if !m.info[id].inTried {
      CanMoveIt(m1, id);
    }
  }

  lemma MakeTriedInv(m: State, id: int)
    requires Inv(m) && id in m.info && !m.info[id].inTried && m.info[id].lastSuccess != 0
    ensures CanMove(m, id) && Inv(MakeTried(m, id)) && Grows(m, MakeTried(m, id))
  {
    MakeTriedCore(m, id);
    MakeTriedFrame(m, id);
    KeepCollisions(m, MakeTried(m, id));
  }

  lemma GoodRefreshes(m: State, id: int, t: int)
    requires Inv(m) && t > 0 && id in m.info
    ensures Inv(Refresh(m, id, t))
  {
    GoodMoves(m, id, t);
    KeepCollisions(m, Refresh(m, id, t));
  }

  lemma QueueCollision(m: State, id: int)
    requires Inv(m) && id in m.info && TriedSlot(m.env, m.info[id].addr) in m.triedTable
    requires |m.collisions| < SET_TRIED_COLLISION_SIZE
    ensures Inv(m.(collisions := m.collisions + {id}))
  {
    assert CollisionInv(m.(collisions := m.collisions + {id}));
  }

  /** Marking an address good keeps the manager consistent, whatever the hashes, and no
      filled tried slot becomes empty. */
  lemma GoodInv(m: State, a: Service, testBeforeEvict: bool, t: int)
    requires Inv(m) && t > 0
    ensures Inv(Good(m, a, testBeforeEvict, t)) && Grows(m, Good(m, a, testBeforeEvict, t))
  {
    if a.net !in m.byAddr || m.info[m.byAddr[a.net]].addr != a {
      KeepCollisions(m, m.(lastGood := t));
    } else {
      var id := m.byAddr[a.net];
      GoodRefreshes(m, id, t);
      var m1 := Refresh(m, id, t);
      if m.info[id].inTried {
      } else if testBeforeEvict && TriedSlot(m.env, a) in m.triedTable {
        if |m.collisions| < SET_TRIED_COLLISION_SIZE {
          QueueCollision(m1, id);
        }
      } else {
        MakeTriedInv(m1, id);
      }
    }
  }

  /** An address that is known under exactly this port is in the tried table afterwards,
      unless its slot is taken and evictions are to be tested first. */
  lemma GoodMovesToTried(m: State, a: Service, testBeforeEvict: bool, t: int)
    requires Inv(m) && t > 0
    requires a.net in m.byAddr && m.info[m.byAddr[a.net]].addr == a
    ensures var m', id := Good(m, a, testBeforeEvict, t), m.byAddr[a.net];
      && id in m'.info
      && (m'.info[id].inTried <==>
            m.info[id].inTried || !testBeforeEvict || TriedSlot(m.env, a) !in m.triedTable)
  {
    var id := m.byAddr[a.net];
    GoodMoves(m, id, t);
    if !m.info[id].inTried && !(testBeforeEvict && TriedSlot(m.env, a) in m.triedTable) {
      MakeTriedFrame(Refresh(m, id, t), id);
    }
  }

  /** Some bucket holds the entry at that bucket's one place for it. */
  ghost predicate SomeBucket(m: State, id: int)
    requires id in m.info
  {
    exists b | 0 <= b < NEW_BUCKET_COUNT ::
      NewSlotIn(m.env, m.info[id].addr, b) in m.newTable && m.newTable[NewSlotIn(m.env, m.info[id].addr, b)] == id
  }

  /** The bucket scan of `Good_` cannot come back empty-handed. */
  lemma SomeBucketHolds(m: State, id: int)
    requires Core(m, {}, 0) && id in m.info && !m.info[id].inTried
    ensures SomeBucket(m, id)
  {
    assert |Refs(m.newTable, id)| >= 1;
    var s :| s in Refs(m.newTable, id);
    assert s == NewSlotIn(m.env, m.info[id].addr, s.bucket);
  }

  // ---------------------------------------------------------------- Add_

  predicate MayOverwrite(occupant: Info, incoming: Info, now: int) {
    occupant.IsTerrible(now) || (occupant.refCount > 1 && incoming.refCount == 0)
  }

  /** The place in the new table that `source` gives `id`, if it is to be had. */
  function Register(m: State, id: int, source: NetAddr, now: int): State
    requires OrderInv(m.info.Keys, m.random, m.pos) && NewInv(m.env, m.info, m.newTable)
    requires id in m.info
  {
    var s := NewSlot(m.env, m.info[id].addr, source);
    if s in m.newTable && m.newTable[s] == id then m
    else if s !in m.newTable || MayOverwrite(m.info[m.newTable[s]], m.info[id], now) then
      ClearNewFrame(m, s);
      PutNew(ClearNew(m, s), id, s)
    else if m.info[id].refCount == 0 then Delete(m, id)
    else m
  }

  lemma RegisterCore(m: State, id: int, source: NetAddr, now: int)
    requires Core(m, {id}, 0) && id in m.info && !m.info[id].inTried
    requires m.info[id].refCount < NEW_BUCKETS_PER_ADDRESS
    ensures Core(Register(m, id, source, now), {}, 0)
  {
    hide AddrInv, TriedInv;
    var s := NewSlot(m.env, m.info[id].addr, source);
    if s in m.newTable && m.newTable[s] == id {
      assert s in Refs(m.newTable, id);
      SettledCore(m, id);
    } else if s !in m.newTable || MayOverwrite(m.info[m.newTable[s]], m.info[id], now) {
      ClearNewFrame(m, s);
      EnteredCore(m, id, s);
    } else if m.info[id].refCount == 0 {
      UnplacedCore(m, id);
    } else {
      SettledCore(m, id);
    }
  }

  lemma EnteredCore(m: State, id: int, s: Slot)
    requires Core(m, {id}, 0) && id in m.info && !m.info[id].inTried && m.info[id].refCount < NEW_BUCKETS_PER_ADDRESS
    requires 0 <= s.bucket < NEW_BUCKET_COUNT && s == NewSlotIn(m.env, m.info[id].addr, s.bucket)
    requires s in m.newTable ==> m.newTable[s] != id
    ensures var m1 := ClearNew(m, s); id in m1.info && Core(PutNew(m1, id, s), {}, 0)
  {
    ClearNewFrame(m, s);
    ClearNewCore(m, s, {id}, 0);
    PutNewCore(ClearNew(m, s), id, s, {id}, 0);
    DropAdded({}, id);
    assert {} + {id} == {id};
  }

  lemma UnplacedCore(m: State, id: int)
    requires Core(m, {id}, 0) && id in m.info && !m.info[id].inTried && m.info[id].refCount == 0
    ensures OrderInv(m.info.Keys, m.random, m.pos)
    ensures Core(Delete(m, id), {}, 0)
  {
    DeleteCore(m, id, {id}, 0);
    assert RefRange(Delete(m, id).info, {});
  }

  lemma SettledCore(m: State, id: int)
    requires Core(m, {id}, 0) && id in m.info && m.info[id].refCount != 0
    requires m.info[id].refCount <= NEW_BUCKETS_PER_ADDRESS
    ensures Core(m, {}, 0)
  {
    assert m.info[id].refCount == |Refs(m.newTable, id)|;
  }

  lemma RegisterFrame(m: State, id: int, source: NetAddr, now: int)
    requires OrderInv(m.info.Keys, m.random, m.pos) && NewInv(m.env, m.info, m.newTable)
    requires id in m.info
    ensures Shrinks(m, Register(m, id, source, now))
    ensures Register(m, id, source, now).triedTable == m.triedTable
  {
    var s := NewSlot(m.env, m.info[id].addr, source);
    if s !in m.newTable || m.newTable[s] != id {
      if s !in m.newTable || MayOverwrite(m.info[m.newTable[s]], m.info[id], now) {
        ClearNewKeeps(m, s, id);
        ClearNewShrinks(m, s);
        PutNewShrinks(ClearNew(m, s), id, s);
      } else {
        DeleteShrinks(m, id);
      }
    }
  }

  lemma PutNewShrinks(m: State, id: int, s: Slot)
    requires id in m.info
    ensures Shrinks(m, PutNew(m, id, s)) && PutNew(m, id, s).triedTable == m.triedTable
  {
  }

  lemma DeleteShrinks(m: State, id: int)
    requires OrderInv(m.info.Keys, m.random, m.pos) && id in m.info
    ensures Shrinks(m, Delete(m, id)) && Delete(m, id).triedTable == m.triedTable
  {
  }

  lemma ClearNewKeeps(m: State, s: Slot, id: int)
    requires OrderInv(m.info.Keys, m.random, m.pos)
    requires s in m.newTable ==> m.newTable[s] in m.info && m.newTable[s] != id
    requires id in m.info
    ensures id in ClearNew(m, s).info && ClearNew(m, s).info[id] == m.info[id]
  {
  }

  lemma ClearNewShrinks(m: State, s: Slot)
    requires OrderInv(m.info.Keys, m.random, m.pos)
    requires s in m.newTable ==> m.newTable[s] in m.info
    ensures Shrinks(m, ClearNew(m, s)) && ClearNew(m, s).triedTable == m.triedTable
  {
  }

  /** Refreshing a known address. */
  function Heard(e: Info, a: Address, penalty: int, now: int): Info {
    var online := now - a.time < DAY;
    var interval := if online then 60 * 60 else DAY;
    var e1 := if a.time != 0 && (e.time == 0 || e.time < a.time - interval - penalty)
              then e.(time := U32(Max(0, a.time - penalty))) else e;
    e1.(services := e1.services + a.services)
  }

  /** No further bucket for a known entry: nothing new, already tried, or enough buckets. */
  predicate NoMoreBuckets(e: Info, a: Address) {
    a.time == 0 || (e.time != 0 && a.time <= e.time) || e.inTried || e.refCount == NEW_BUCKETS_PER_ADDRESS
  }

  /** `RandomInt(2^refCount)` is drawn as `rnd % 2^refCount`. */
  predicate Unlucky(refCount: int, rnd: nat) {
    refCount > 0 && rnd % Pow2(refCount) != 0
  }

  function Admit(m: State, id: int, time: int): State
    requires id in m.info
  {
    m.(info := m.info[id := m.info[id].(time := time)], nNew := m.nNew + 1)
  }

  function Admitted(m: State, a: Address, source: NetAddr, penalty: int): State {
    Admit(Create(m, a, source), m.idCount, U32(Max(0, a.time - penalty)))
  }

  function Penalty(a: Address, source: NetAddr, penalty: int): int {
    if a.service.net == source then 0 else penalty
  }

  function Add(m: State, a: Address, source: NetAddr, penalty: int, now: int, rnd: nat): State
    requires Inv(m)
  {
    var p := Penalty(a, source, penalty);
    if !m.env.routable(a.service.net) then m
    else if a.service.net in m.byAddr then AddKnown(m, m.byAddr[a.service.net], a, source, p, now, rnd)
    else AddNew(m, a, source, p, now)
  }

  /** An address that is known already may get a further bucket. */
  function AddKnown(m: State, id: int, a: Address, source: NetAddr, p: int, now: int, rnd: nat): State
    requires Inv(m) && id in m.info
  {
    var e := Heard(m.info[id], a, p, now);
    HeardInv(m, id, a, p, now);
    var m1 := m.(info := m.info[id := e]);
    if NoMoreBuckets(e, a) || Unlucky(e.refCount, rnd) then m1 else Register(m1, id, source, now)
  }

  function AddNew(m: State, a: Address, source: NetAddr, p: int, now: int): State
    requires Inv(m) && a.service.net !in m.byAddr
  {
    AdmittedCore(m, a, source, p);
    Register(Admitted(m, a, source, p), m.idCount, source, now)
  }

  lemma HeardInv(m: State, id: int, a: Address, penalty: int, now: int)
    requires Inv(m) && id in m.info
    ensures var m1 := m.(info := m.info[id := Heard(m.info[id], a, penalty, now)]);
      Inv(m1) && Shrinks(m, m1)
  {
    var m1 := m.(info := m.info[id := Heard(m.info[id], a, penalty, now)]);
    TouchCore(m, id, m1.info[id], {}, 0);
    KeepCollisions(m, m1);
  }

  lemma FreshId(m: State)
    requires Inv(m)
    ensures Core(m, {}, 0) && m.idCount !in m.info
  {
  }

  lemma AdmittedCore(m: State, a: Address, source: NetAddr, penalty: int)
    requires Inv(m) && a.service.net !in m.byAddr
    ensures Core(Admitted(m, a, source, penalty), {m.idCount}, 0)
  {
    hide Core, OrderInv, NewInv, TriedInv, RefInv, CountInv;
    FreshId(m);
    CreateCore(m, a, source);
    AdmitCore(Create(m, a, source), m.idCount, U32(Max(0, a.time - penalty)));
  }

  lemma AdmitCore(m: State, id: int, time: int)
    requires Core(m, {id}, 1) && id in m.info
    ensures Core(Admit(m, id, time), {id}, 0)
  {
    TouchCore(m, id, m.info[id].(time := time), {id}, 1);
    CountOne(m.(info := m.info[id := m.info[id].(time := time)]), {id});
  }

  lemma CountOne(m: State, pending: set<int>)
    requires Core(m, pending, 1)
    ensures Core(m.(nNew := m.nNew + 1), pending, 0)
  {
  }

  lemma AdmittedCollisions(m: State, a: Address, source: NetAddr, penalty: int)
    requires CollisionInv(m)
    ensures CollisionInv(Admitted(m, a, source, penalty))
  {
  }

  /** Learning an address keeps the manager consistent, whatever the hashes, the clock and
      the random draw. */
  lemma AddInv(m: State, a: Address, source: NetAddr, penalty: int, now: int, rnd: nat)
    requires Inv(m)
    ensures Inv(Add(m, a, source, penalty, now, rnd)) && Grows(m, Add(m, a, source, penalty, now, rnd))
  {
    var p := Penalty(a, source, penalty);
    if m.env.routable(a.service.net) {
      if a.service.net in m.byAddr {
        var id := m.byAddr[a.service.net];
        var e := Heard(m.info[id], a, p, now);
        HeardInv(m, id, a, p, now);
        var m1 := m.(info := m.info[id := e]);
        if !(NoMoreBuckets(e, a) || Unlucky(e.refCount, rnd)) {
          RegisterInv(m1, id, source, now);
        }
      } else {
        AdmittedCore(m, a, source, p);
        AdmittedCollisions(m, a, source, p);
        RegisterInv(Admitted(m, a, source, p), m.idCount, source, now);
      }
    }
  }

  lemma RegisterInv(m: State, id: int, source: NetAddr, now: int)
    requires Core(m, {id}, 0) && CollisionInv(m) && id in m.info && !m.info[id].inTried
    requires m.info[id].refCount < NEW_BUCKETS_PER_ADDRESS
    ensures Inv(Register(m, id, source, now))
    ensures Register(m, id, source, now).triedTable == m.triedTable
    ensures Register(m, id, source, now).idCount == m.idCount
  {
    RegisterCore(m, id, source, now);
    RegisterFrame(m, id, source, now);
    KeepCollisions(m, Register(m, id, source, now));
  }

  /** The service whose slot `Add` uses: a known address keeps the port it is known under. */
  function Target(m: State, a: Service): Service
    requires a.net in m.byAddr ==> m.byAddr[a.net] in m.info
  {
    if a.net in m.byAddr then m.info[m.byAddr[a.net]].addr else a
  }

  lemma RegisterLoses(m: State, id: int, source: NetAddr, now: int)
    requires OrderInv(m.info.Keys, m.random, m.pos) && NewInv(m.env, m.info, m.newTable)
    requires id in m.info
    ensures var m', s := Register(m, id, source, now), NewSlot(m.env, m.info[id].addr, source);
      forall x | x in m.info && x !in m'.info && (x != id || m.info[id].refCount != 0) ::
        && s in m.newTable && m.newTable[s] == x
        && m.info[x].refCount == 1 && m.info[x].IsTerrible(now)
        && s in m'.newTable && m'.newTable[s] == id
  {
    var s := NewSlot(m.env, m.info[id].addr, source);
    if s !in m.newTable || m.newTable[s] != id {
      if s !in m.newTable || MayOverwrite(m.info[m.newTable[s]], m.info[id], now) {
        ClearNewFrame(m, s);
        if s in m.newTable && m.info[m.newTable[s]].refCount != 1 {
          ClearNewSpares(m, s);
        }
      }
    }
  }

  lemma ClearNewSpares(m: State, s: Slot)
    requires OrderInv(m.info.Keys, m.random, m.pos)
    requires s in m.newTable && m.newTable[s] in m.info && m.info[m.newTable[s]].refCount != 1
    ensures ClearNew(m, s).info.Keys == m.info.Keys
  {
  }

  /** Learning an address can only ever forget one entry: a terrible one, that was in no
      other bucket, and whose place the new address takes. */
  lemma AddLoses(m: State, a: Address, source: NetAddr, penalty: int, now: int, rnd: nat)
    requires Inv(m)
    ensures var m', s := Add(m, a, source, penalty, now, rnd), NewSlot(m.env, Target(m, a.service), source);
      forall x | x in m.info && x !in m'.info ::
        && s in m.newTable && m.newTable[s] == x
        && m.info[x].refCount == 1 && m.info[x].IsTerrible(now)
        && s in m'.newTable && m'.newTable[s] != x
  {
    var p := Penalty(a, source, penalty);
    if m.env.routable(a.service.net) {
      if a.service.net in m.byAddr {
        var id := m.byAddr[a.service.net];
        HeardInv(m, id, a, p, now);
        var m1 := m.(info := m.info[id := Heard(m.info[id], a, p, now)]);
        if !(NoMoreBuckets(m1.info[id], a) || Unlucky(m1.info[id].refCount, rnd)) {
          RegisterLoses(m1, id, source, now);
        }
      } else {
        AdmittedCore(m, a, source, p);
        RegisterLoses(Admitted(m, a, source, p), m.idCount, source, now);
      }
    }
  }

  // ---------------------------------------------------------------- bookkeeping operations

  /** The entry known under exactly this address and port, if any. */
  predicate Knows(m: State, a: Service)
    requires a.net in m.byAddr ==> m.byAddr[a.net] in m.info
  {
    a.net in m.byAddr && m.info[m.byAddr[a.net]].addr == a
  }

  function Attempted(e: Info, countFailure: bool, t: int, lastGood: int): Info {
    if countFailure && e.lastCountAttempt < lastGood
    then e.(lastTry := t, lastCountAttempt := t, attempts := e.attempts + 1)
    else e.(lastTry := t)
  }

  function Attempt(m: State, a: Service, countFailure: bool, t: int): State
    requires Inv(m)
  {
    if !Knows(m, a) then m else
      var id := m.byAddr[a.net];
      m.(info := m.info[id := Attempted(m.info[id], countFailure, t, m.lastGood)])
  }

  function ConnectedInfo(e: Info, t: int): Info {
    if t - e.time > 20 * 60 then e.(time := U32(t)) else e
  }

  function Connected(m: State, a: Service, t: int): State
    requires Inv(m)
  {
    if !Knows(m, a) then m else
      var id := m.byAddr[a.net];
      m.(info := m.info[id := ConnectedInfo(m.info[id], t)])
  }

  function SetServices(m: State, a: Service, services: set<nat>): State
    requires Inv(m)
  {
    if !Knows(m, a) then m else
      var id := m.byAddr[a.net];
      m.(info := m.info[id := m.info[id].(services := services)])
  }

  lemma TouchInv(m: State, id: int, e: Info)
    requires Inv(m) && id in m.info
    requires e.addr == m.info[id].addr && e.refCount == m.info[id].refCount && e.inTried == m.info[id].inTried
    requires e.lastTry >= 0 && e.lastSuccess == m.info[id].lastSuccess
    ensures Inv(m.(info := m.info[id := e]))
  {
    TouchCore(m, id, e, {}, 0);
    KeepCollisions(m, m.(info := m.info[id := e]));
  }

  lemma AttemptInv(m: State, a: Service, countFailure: bool, t: int)
    requires Inv(m) && t >= 0
    ensures Inv(Attempt(m, a, countFailure, t)) && Grows(m, Attempt(m, a, countFailure, t))
  {
    if Knows(m, a) {
      TouchInv(m, m.byAddr[a.net], Attempted(m.info[m.byAddr[a.net]], countFailure, t, m.lastGood));
    }
  }

  lemma ConnectedInv(m: State, a: Service, t: int)
    requires Inv(m)
    ensures Inv(Connected(m, a, t)) && Grows(m, Connected(m, a, t))
  {
    if Knows(m, a) {
      TouchInv(m, m.byAddr[a.net], ConnectedInfo(m.info[m.byAddr[a.net]], t));
    }
  }

  lemma SetServicesInv(m: State, a: Service, services: set<nat>)
    requires Inv(m)
    ensures Inv(SetServices(m, a, services)) && Grows(m, SetServices(m, a, services))
  {
    if Knows(m, a) {
      TouchInv(m, m.byAddr[a.net], m.info[m.byAddr[a.net]].(services := services));
    }
  }

  // ---------------------------------------------------------------- GetAddr_

  function GetAddrLimit(n: nat): int {
    Min(GETADDR_MAX_PCT * n / 100, GETADDR_MAX)
  }

  /** The outcome of a shuffle: the two indexes, and the ids chosen on the way. */
  datatype Shuffle = Shuffle(random: seq<int>, pos: map<int, int>, chosen: seq<int>)

  /** `RandomInt(size - n) + n`. */
  function DrawFrom(n: nat, size: nat, draw: nat): (j: nat)
    requires n < size
    ensures n <= j < size
  {
    draw % (size - n) + n
  }

  /** One step: a random later entry moves to position `n`, and is chosen unless terrible. */
  function ShuffleStep(info: map<int, Info>, s: Shuffle, n: nat, draw: nat, now: int): Shuffle
    requires n < |s.random| && forall i | 0 <= i < |s.random| :: s.random[i] in info
  {
    var j := DrawFrom(n, |s.random|, draw);
    var random := if n == j then s.random else Swapped(s.random, n, j);
    var pos := if n == j then s.pos else SwappedPos(s.random, s.pos, n, j);
    Shuffle(random, pos,
            if info[random[n]].IsTerrible(now) then s.chosen else s.chosen + [random[n]])
  }

  function Gather(info: map<int, Info>, s: Shuffle, n: nat, limit: int, rnd: nat -> nat, now: int): Shuffle
    requires n <= |s.random| && forall i | 0 <= i < |s.random| :: s.random[i] in info
    decreases |s.random| - n
  {
    if n == |s.random| || |s.chosen| >= limit then s
    else Gather(info, ShuffleStep(info, s, n, rnd(n), now), n + 1, limit, rnd, now)
  }

  function GetAddr(m: State, rnd: nat -> nat, now: int): Shuffle
    requires Inv(m)
  {
    Gather(m.info, Shuffle(m.random, m.pos, []), 0, GetAddrLimit(|m.random|), rnd, now)
  }

  /** The state that answering `getaddr` leaves behind. */
  function Shuffled(m: State, s: Shuffle): State {
    m.(random := s.random, pos := s.pos)
  }

  ghost predicate Shareable(info: map<int, Info>, chosen: seq<int>, now: int) {
    && (forall i | 0 <= i < |chosen| :: chosen[i] in info && !info[chosen[i]].IsTerrible(now))
    && (forall i, j | 0 <= i < j < |chosen| :: chosen[i] != chosen[j])
  }

  /** Before position `n` everything has been looked at, from there on nothing. */
  ghost predicate Looked(info: map<int, Info>, s: Shuffle, n: nat, now: int) {
    && OrderInv(info.Keys, s.random, s.pos)
    && n <= |s.random|
    && Shareable(info, s.chosen, now)
    && (forall i | 0 <= i < n :: s.random[i] in s.chosen || info[s.random[i]].IsTerrible(now))
    && (forall i | n <= i < |s.random| :: s.random[i] !in s.chosen)
  }

  lemma ShuffleStepLooks(info: map<int, Info>, s: Shuffle, n: nat, draw: nat, now: int)
    requires Looked(info, s, n, now) && n < |s.random|
    ensures Looked(info, ShuffleStep(info, s, n, draw, now), n + 1, now)
    ensures |ShuffleStep(info, s, n, draw, now).random| == |s.random|
    ensures |ShuffleStep(info, s, n, draw, now).chosen| <= |s.chosen| + 1
  {
    hide DrawFrom;
    var j := DrawFrom(n, |s.random|, draw);
    var s' := ShuffleStep(info, s, n, draw, now);
    if n != j {
      SwapOrder(info.Keys, s.random, s.pos, n, j);
    }
    ChooseNext(s.random, n, j, s.chosen);
  }

  lemma ChooseNext(random: seq<int>, n: nat, j: int, chosen: seq<int>)
    requires n <= j < |random|
    requires forall i | n <= i < |random| :: random[i] !in chosen
    requires forall i, k | 0 <= i < k < |random| :: random[i] != random[k]
    ensures var r := if n == j then random else Swapped(random, n, j);
      && (forall i | 0 <= i < n :: r[i] == random[i])
      && r[n] !in chosen
      && forall i | n < i < |r| :: r[i] !in chosen + [r[n]]
  {
  }

  lemma LookedFacts(info: map<int, Info>, s: Shuffle, n: nat, now: int)
    requires Looked(info, s, n, now)
    ensures OrderInv(info.Keys, s.random, s.pos) && Shareable(info, s.chosen, now) && n <= |s.random|
  {
  }

  lemma AllLooked(info: map<int, Info>, s: Shuffle, now: int)
    requires Looked(info, s, |s.random|, now)
    ensures forall id <- info :: id in s.chosen || info[id].IsTerrible(now)
  {
    forall id | id in info ensures id in s.chosen || info[id].IsTerrible(now) {
      assert s.random[s.pos[id]] == id;
    }
  }

  lemma {:induction false} GatherLooks(info: map<int, Info>, s: Shuffle, n: nat, limit: int, rnd: nat -> nat, now: int)
    requires Looked(info, s, n, now) && |s.chosen| <= limit
    ensures var r := Gather(info, s, n, limit, rnd, now);
      && OrderInv(info.Keys, r.random, r.pos)
      && |r.chosen| <= limit && Shareable(info, r.chosen, now)
      && (|r.chosen| < limit ==> forall id <- info :: id in r.chosen || info[id].IsTerrible(now))
    decreases |s.random| - n
  {
    hide Looked, Shareable, OrderInv, ShuffleStep;
    LookedFacts(info, s, n, now);
    if n == |s.random| || |s.chosen| >= limit {
      if n == |s.random| {
        AllLooked(info, s, now);
      }
    } else {
      ShuffleStepLooks(info, s, n, rnd(n), now);
      GatherLooks(info, ShuffleStep(info, s, n, rnd(n), now), n + 1, limit, rnd, now);
    }
  }

  /** Answering `getaddr` only reorders the random vector.  The answer has no entry twice and
      no terrible one, at most 23% of the entries and at most 2500; if it has fewer, it has
      every entry that is not terrible. */
  lemma GetAddrInv(m: State, rnd: nat -> nat, now: int)
    requires Inv(m)
    ensures var r := GetAddr(m, rnd, now);
      && Inv(Shuffled(m, r))
      && 100 * |r.chosen| <= 23 * |m.info| && |r.chosen| <= 2500
      && Shareable(m.info, r.chosen, now)
      && (100 * (|r.chosen| + 1) <= 23 * |m.info| && |r.chosen| < 2500 ==>
            forall id <- m.info :: id in r.chosen || m.info[id].IsTerrible(now))
  {
    OrderSize(m.info.Keys, m.random, m.pos);
    GatherLooks(m.info, Shuffle(m.random, m.pos, []), 0, GetAddrLimit(|m.random|), rnd, now);
    KeepCollisions(m, Shuffled(m, GetAddr(m, rnd, now)));
  }

  /** Every entry that is not terrible is the first of the answer for some draw, unless the limit is none. */
  lemma AnyFirst(m: State, id: int, now: int) returns (rnd: nat -> nat)
    requires Inv(m) && id in m.info && !m.info[id].IsTerrible(now) && 23 * |m.info| >= 100
    ensures var r := GetAddr(m, rnd, now); |r.chosen| > 0 && r.chosen[0] == id
  {
    OrderSize(m.info.Keys, m.random, m.pos);
    var draw: nat := m.pos[id];
    rnd := _ => draw;
    var s := Shuffle(m.random, m.pos, []);
    FirstStep(m, id, now);
    hide ShuffleStep, Inv;
    GatherGrows(m.info, ShuffleStep(m.info, s, 0, draw, now), 1, GetAddrLimit(|m.random|), rnd, now);
  }

  lemma FirstStep(m: State, id: int, now: int)
    requires Inv(m) && id in m.info && !m.info[id].IsTerrible(now)
    ensures |m.random| > 0 && m.pos[id] >= 0 && forall i | 0 <= i < |m.random| :: m.random[i] in m.info
    ensures var s1 := ShuffleStep(m.info, Shuffle(m.random, m.pos, []), 0, m.pos[id], now);
      s1.chosen == [id] && |s1.random| == |m.random| && forall i | 0 <= i < |s1.random| :: s1.random[i] in m.info
  {
    assert OrderInv(m.info.Keys, m.random, m.pos);
    hide Inv, OrderInv, TimeInv;
    FirstStepOf(m.info, m.random, m.pos, id, now);
  }

  lemma FirstStepOf(info: map<int, Info>, random: seq<int>, pos: map<int, int>, id: int, now: int)
    requires OrderInv(info.Keys, random, pos) && id in info && !info[id].IsTerrible(now)
    ensures |random| > 0 && pos[id] >= 0 && forall i | 0 <= i < |random| :: random[i] in info
    ensures var s1 := ShuffleStep(info, Shuffle(random, pos, []), 0, pos[id], now);
      s1.chosen == [id] && |s1.random| == |random| && forall i | 0 <= i < |s1.random| :: s1.random[i] in info
  {
    var n := pos[id];
    assert 0 <= n < |random| && DrawFrom(0, |random|, n) == n;
  }

  lemma {:induction false} GatherGrows(info: map<int, Info>, s: Shuffle, n: nat, limit: int, rnd: nat -> nat, now: int)
    requires n <= |s.random| && forall i | 0 <= i < |s.random| :: s.random[i] in info
    ensures s.chosen <= Gather(info, s, n, limit, rnd, now).chosen
    decreases |s.random| - n
  {
    if n < |s.random| && |s.chosen| < limit {
      GatherGrows(info, ShuffleStep(info, s, n, rnd(n), now), n + 1, limit, rnd, now);
    }
  }

  lemma {:induction false} OrderSize(ids: set<int>, random: seq<int>, pos: map<int, int>)
    requires OrderInv(ids, random, pos)
    ensures |ids| == |random|
    decreases |random|
  {
    assert forall id <- ids :: random[pos[id]] == id;
    Inhabited(ids);
    if |random| == 0 {
      assert ids == {};
    } else {
      DropLastOfOrder(ids, random, pos);
      OrderSize(ids - {random[|random| - 1]}, random[..|random| - 1], pos - {random[|random| - 1]});
    }
  }

  // ---------------------------------------------------------------- collisions

  ghost function Least(s: set<int>): (x: int)
    requires s != {}
    ensures x in s && forall y <- s :: x <= y
  {
    HasLeast(s);
    var x :| x in s && forall y <- s :: x <= y;
    x
  }

  lemma {:induction false} HasLeast(s: set<int>)
    requires s != {}
    ensures exists x :: x in s && forall y <- s :: x <= y
  {
    Inhabited(s);
    var x :| x in s;
    if s != {x} {
      HasLeast(s - {x});
      var z :| z in s - {x} && forall y <- s - {x} :: z <= y;
      var w := if x <= z then x else z;
      forall y | y in s ensures w <= y {
        assert y == x || y in s - {x};
      }
    } else {
      assert forall y <- s :: y == x;
    }
  }

  /** Elements of an ordered set in ascending order. */
  ghost function Nth(s: set<int>, k: nat): (x: int)
    requires k < |s|
    ensures x in s
  {
    if k == 0 then Least(s) else Nth(s - {Least(s)}, k - 1)
  }

  function Dropped(m: State, id: int): State {
    m.(collisions := m.collisions - {id})
  }

  predicate TestedAlive(e: Info, now: int) {
    now - e.lastSuccess < REPLACEMENT_HOURS * 60 * 60
  }

  predicate TestedDead(e: Info, now: int) {
    now - e.lastTry < REPLACEMENT_HOURS * 60 * 60 && now - e.lastTry > 60
  }

  /** One queued collision.  Because its tried slot is never empty, the source's branch for
      "not actually a collision anymore" cannot be reached. */
  ghost function ResolveOne(m: State, id: int, now: int): State
    requires Inv(m) && now > 0 && id in m.collisions
  {
    if id !in m.info || !m.env.valid(m.info[id].addr.net) then Dropped(m, id) else
      var occupant := m.info[m.triedTable[TriedSlot(m.env, m.info[id].addr)]];
      if TestedAlive(occupant, now) then Dropped(m, id)
      else if TestedDead(occupant, now) then Dropped(Good(m, m.info[id].addr, false, now), id)
      else m
  }

  lemma DroppedInv(m: State, id: int)
    requires Inv(m)
    ensures Inv(Dropped(m, id))
  {
    assert m.collisions - {id} <= m.collisions;
    SmallerSet(m.collisions - {id}, m.collisions);
  }

  lemma ResolveOneInv(m: State, id: int, now: int)
    requires Inv(m) && now > 0 && id in m.collisions
    ensures Inv(ResolveOne(m, id, now)) && Grows(m, ResolveOne(m, id, now))
    ensures ResolveOne(m, id, now).collisions <= m.collisions <= ResolveOne(m, id, now).collisions + {id}
  {
    if id !in m.info || !m.env.valid(m.info[id].addr.net) {
      DroppedInv(m, id);
    } else {
      var occupant := m.info[m.triedTable[TriedSlot(m.env, m.info[id].addr)]];
      if TestedAlive(occupant, now) {
        DroppedInv(m, id);
      } else if TestedDead(occupant, now) {
        GoodInv(m, m.info[id].addr, false, now);
        GoodKeepsQueue(m, m.info[id].addr, now);
        DroppedInv(Good(m, m.info[id].addr, false, now), id);
      }
    }
  }

  lemma GoodKeepsQueue(m: State, a: Service, t: int)
    requires Inv(m) && t > 0
    ensures Good(m, a, false, t).collisions == m.collisions
  {
    if a.net in m.byAddr && m.info[m.byAddr[a.net]].addr == a {
      var id := m.byAddr[a.net];
      GoodMoves(m, id, t);
      if !m.info[id].inTried {
        MakeTriedFrame(Refresh(m, id, t), id);
      }
    }
  }

  ghost function ResolveAll(m: State, todo: set<int>, now: int): State
    requires Inv(m) && now > 0 && todo <= m.collisions
    decreases |todo|
  {
    if todo == {} then m else
      var id := Least(todo);
      ResolveOneInv(m, id, now);
      ResolveAll(ResolveOne(m, id, now), todo - {id}, now)
  }

  ghost function Resolve(m: State, now: int): State
    requires Inv(m) && now > 0
  {
    ResolveAll(m, m.collisions, now)
  }

  lemma {:induction false} ResolveAllInv(m: State, todo: set<int>, now: int)
    requires Inv(m) && now > 0 && todo <= m.collisions
    ensures Inv(ResolveAll(m, todo, now)) && Grows(m, ResolveAll(m, todo, now))
    decreases |todo|
  {
    if todo != {} {
      var id := Least(todo);
      ResolveOneInv(m, id, now);
      ResolveAllInv(ResolveOne(m, id, now), todo - {id}, now);
    }
  }

  /** The tried entry that the `k`-th queued entry would evict; a queued entry that is gone
      leaves the queue instead.  No slot is ever read that holds nothing. */
  ghost function SelectTriedCollision(m: State, k: nat): (State, Option<Info>)
    requires Inv(m)
  {
    if m.collisions == {} then (m, None) else
      assert |m.collisions| > 0;
      var id := Nth(m.collisions, k % |m.collisions|);
      if id !in m.info then (Dropped(m, id), None)
      else (m, Some(m.info[m.triedTable[TriedSlot(m.env, m.info[id].addr)]]))
  }

  lemma SelectTriedCollisionInv(m: State, k: nat)
    requires Inv(m)
    ensures Inv(SelectTriedCollision(m, k).0) && Grows(m, SelectTriedCollision(m, k).0)
    ensures var r := SelectTriedCollision(m, k).1; r.Some? ==> r.value.inTried
  {
    if m.collisions != {} {
      DroppedInv(m, Nth(m.collisions, k % |m.collisions|));
    }
  }

  // ---------------------------------------------------------------- runs

  /** One call, with the clock reading and the random draws it gets. */
  datatype Op =
    | AddOp(a: Address, source: NetAddr, penalty: int, now: int, draw: nat)
    | GoodOp(s: Service, testBeforeEvict: bool, now: int)
    | AttemptOp(s: Service, countFailure: bool, now: int)
    | ConnectedOp(s: Service, now: int)
    | SetServicesOp(s: Service, services: set<nat>)
    | GetAddrOp(rnd: nat -> nat, now: int)
    | ResolveOp(now: int)
    | SelectOp(draw: nat)
  {
    /** The clock is past the epoch. */
    predicate Timely() {
      !SetServicesOp? && !SelectOp? ==> now > 0
    }
  }

  ghost function Step(m: State, op: Op): State
    requires Inv(m) && op.Timely()
  {
    match op
    case AddOp(a, source, penalty, now, draw) => Add(m, a, source, penalty, now, draw)
    case GoodOp(s, test, now) => Good(m, s, test, now)
    case AttemptOp(s, countFailure, now) => Attempt(m, s, countFailure, now)
    case ConnectedOp(s, now) => Connected(m, s, now)
    case SetServicesOp(s, services) => SetServices(m, s, services)
    case GetAddrOp(rnd, now) => Shuffled(m, GetAddr(m, rnd, now))
    case ResolveOp(now) => Resolve(m, now)
    case SelectOp(draw) => SelectTriedCollision(m, draw).0
  }

  lemma StepInv(m: State, op: Op)
    requires Inv(m) && op.Timely()
    ensures Inv(Step(m, op)) && Grows(m, Step(m, op))
  {
    hide Inv;
    match op
    case AddOp(a, source, penalty, now, draw) => AddInv(m, a, source, penalty, now, draw);
    case GoodOp(s, test, now) => GoodInv(m, s, test, now);
    case AttemptOp(s, countFailure, now) => AttemptInv(m, s, countFailure, now);
    case ConnectedOp(s, now) => ConnectedInv(m, s, now);
    case SetServicesOp(s, services) => SetServicesInv(m, s, services);
    case GetAddrOp(rnd, now) => GetAddrInv(m, rnd, now);
    case ResolveOp(now) => ResolveAllInv(m, m.collisions, now);
    case SelectOp(draw) => SelectTriedCollisionInv(m, draw);
  }

  ghost predicate Reaches(m: State, ops: seq<Op>, m': State)
    requires Inv(m)
    decreases |ops|
  {
    if ops == [] then m' == m
    else ops[0].Timely() && (StepInv(m, ops[0]); Reaches(Step(m, ops[0]), ops[1..], m'))
  }

  lemma EmptyInv(env: Env)
    ensures Inv(Empty(env))
  {
  }

  /** Every run from a consistent manager, with any hashes, clock readings and random draws,
      ends in a consistent one; ids are never handed out again and a filled tried slot is
      never empty again. */
  lemma {:induction false} RunInv(m: State, ops: seq<Op>, m': State)
    requires Inv(m) && Reaches(m, ops, m')
    ensures Inv(m') && Grows(m, m')
    decreases |ops|
  {
    if ops != [] {
      StepInv(m, ops[0]);
      RunInv(Step(m, ops[0]), ops[1..], m');
    }
  }

  // ---------------------------------------------------------------- the bucket loop of MakeTried

  /** The entry has been removed from the first `k` new buckets. */
  ghost function Unlinking(m: State, id: int, k: int): State
    requires id in m.info
  {
    var t := map s | s in m.newTable && !(m.newTable[s] == id && s.bucket < k) :: m.newTable[s];
    m.(info := m.info[id := m.info[id].(refCount := |Refs(t, id)|)], newTable := t)
  }

  lemma UnlinkingStart(m: State, id: int)
    requires NewInv(m.env, m.info, m.newTable) && RefInv(m.info, m.newTable) && id in m.info
    ensures Unlinking(m, id, 0) == m
  {
    assert (map s | s in m.newTable && !(m.newTable[s] == id && s.bucket < 0) :: m.newTable[s]) == m.newTable;
  }

  lemma UnlinkingStep(m: State, id: int, k: int)
    requires NewInv(m.env, m.info, m.newTable) && id in m.info
    ensures var s, m1 := NewSlotIn(m.env, m.info[id].addr, k), Unlinking(m, id, k);
      && (s in m1.newTable && m1.newTable[s] == id <==> s in m.newTable && m.newTable[s] == id)
      && Unlinking(m, id, k + 1) ==
           if s in m1.newTable && m1.newTable[s] == id
           then m1.(info := m1.info[id := m1.info[id].(refCount := m1.info[id].refCount - 1)],
                    newTable := m1.newTable - {s})
           else m1
  {
    var s, m1, m2 := NewSlotIn(m.env, m.info[id].addr, k), Unlinking(m, id, k), Unlinking(m, id, k + 1);
    if s in m1.newTable && m1.newTable[s] == id {
      assert m2.newTable == m1.newTable - {s};
      RefsRemove(m1.newTable, s);
    } else {
      assert m2.newTable == m1.newTable;
    }
  }

  lemma UnlinkingEnd(m: State, id: int)
    requires NewInv(m.env, m.info, m.newTable) && id in m.info
    ensures var m1 := Unlinking(m, id, NEW_BUCKET_COUNT);
      m1.info[id].refCount == 0 && m1.(nNew := m.nNew - 1) == Unlink(m, id)
  {
    var m1 := Unlinking(m, id, NEW_BUCKET_COUNT);
    assert m1.newTable == Unlink(m, id).newTable;
    assert Refs(m1.newTable, id) == {};
  }

  // ---------------------------------------------------------------- what Good_ can lose

  lemma MakeTriedLoses(m: State, id: int)
    requires CanMove(m, id)
    ensures var m', s := MakeTried(m, id), TriedSlot(m.env, m.info[id].addr);
      forall x | x in m.info && x !in m'.info ::
        && s in m.triedTable && m.triedTable[s] in m.info
        && var u := ReturnSlot(m, s);
           u in m.newTable && m.newTable[u] == x && m.info[x].refCount == 1
  {
    var m1, s := Unlink(m, id), TriedSlot(m.env, m.info[id].addr);
    MakeRoomFrame(m1, s);
    if s in m1.triedTable {
      assert ReturnSlot(m1, s) == ReturnSlot(m, s);
      var u, r := ReturnSlot(m1, s), Release(m1, s);
      ClearNewFrame(r, u);
      if u in r.newTable && r.info[r.newTable[u]].refCount != 1 {
        ClearNewSpares(r, u);
      }
    }
  }

  /** Marking an address good can only ever forget one entry: the one that was nowhere but
      in the slot to which the evicted tried entry returns. */
  lemma GoodLoses(m: State, a: Service, testBeforeEvict: bool, t: int)
    requires Inv(m) && t > 0
    ensures var m', s := Good(m, a, testBeforeEvict, t), TriedSlot(m.env, a);
      forall x | x in m.info && x !in m'.info ::
        && !testBeforeEvict && s in m.triedTable
        && var u := ReturnSlot(m, s);
           u in m.newTable && m.newTable[u] == x && m.info[x].refCount == 1
  {
    hide NewInv, TriedInv, MakeTried;
    if a.net in m.byAddr && m.info[m.byAddr[a.net]].addr == a {
      var id := m.byAddr[a.net];
      GoodMoves(m, id, t);
      if !m.info[id].inTried && !(testBeforeEvict && TriedSlot(m.env, a) in m.triedTable) {
        MakeTriedLoses(Refresh(m, id, t), id);
      }
    }
  }
}
