/**
 The address manager as a mathematical value: its six coupled structures, the
 effect of every operation on them, and the consistency condition that
 `CAddrMan::Check_` tests.  The class in AddrMan.dfy is proved against this module.
 */
module AddrManState {
  const TRIED_BUCKET_COUNT: int := 256
  const NEW_BUCKET_COUNT: int := 1024
  const BUCKET_SIZE: int := 64
  const NEW_BUCKETS_PER_ADDRESS: int := 8
  const HORIZON_DAYS: int := 30
  const RETRIES: int := 3
  const MAX_FAILURES: int := 10
  const MIN_FAIL_DAYS: int := 7
  const REPLACEMENT_HOURS: int := 4
  const GETADDR_MAX_PCT: int := 23
  const GETADDR_MAX: int := 2500
  const SET_TRIED_COLLISION_SIZE: int := 10
  const DAY: int := 24 * 60 * 60

  datatype NetAddr = NetAddr(ip: nat)

  datatype Service = Service(net: NetAddr, port: nat)

  /** `services` is the set of service bits. */
  datatype Address = Address(service: Service, time: int, services: set<nat>)

  /** What the manager takes from elsewhere: the three keyed hashes (any functions at
      all) and the two address classifications. */
  datatype Env = Env(
    triedHash: Service -> nat,
    newHash: (Service, NetAddr) -> nat,
    posHash: (Service, bool, int) -> nat,
    routable: NetAddr -> bool,
    valid: NetAddr -> bool)

  datatype Slot = Slot(bucket: int, pos: int)

  function TriedSlot(env: Env, s: Service): Slot {
    var b := env.triedHash(s) % TRIED_BUCKET_COUNT;
    Slot(b, env.posHash(s, false, b) % BUCKET_SIZE)
  }

  /** The one place in bucket `b` of the new table where `s` may be. */
  function NewSlotIn(env: Env, s: Service, b: int): Slot {
    Slot(b, env.posHash(s, true, b) % BUCKET_SIZE)
  }

  function NewSlot(env: Env, s: Service, source: NetAddr): Slot {
    NewSlotIn(env, s, env.newHash(s, source) % NEW_BUCKET_COUNT)
  }

  /** 256 buckets for tried entries and 1024 for new ones, of 64 places each. */
  lemma SlotsAre(env: Env, s: Service, source: NetAddr)
    ensures var t := TriedSlot(env, s); t.bucket == env.triedHash(s) % 256 && t.pos == env.posHash(s, false, t.bucket) % 64
    ensures var u := NewSlot(env, s, source); u.bucket == env.newHash(s, source) % 1024 && u.pos == env.posHash(s, true, u.bucket) % 64
  {
  }

  datatype Info = Info(
    addr: Service, time: int, services: set<nat>, source: NetAddr,
    lastTry: int, lastCountAttempt: int, lastSuccess: int, attempts: int,
    refCount: int, inTried: bool)
  {
    predicate IsTerrible(now: int) {
      if lastTry != 0 && lastTry >= now - 60 then false
      else if time > now + 10 * 60 then true
      else if time == 0 || now - time > HORIZON_DAYS * DAY then true
      else if lastSuccess == 0 && attempts >= RETRIES then true
      else now - lastSuccess > MIN_FAIL_DAYS * DAY && attempts >= MAX_FAILURES
    }

    function ToAddress(): Address {
      Address(addr, time, services)
    }
  }

  /** Tables are partial maps: a slot holding -1 in the source is absent here.
      `pos` collects the entries' `nRandomPos` fields. */
  datatype State = State(
    env: Env,
    idCount: int,
    info: map<int, Info>,
    byAddr: map<NetAddr, int>,
    random: seq<int>,
    pos: map<int, int>,
    nTried: int,
    triedTable: map<Slot, int>,
    nNew: int,
    newTable: map<Slot, int>,
    lastGood: int,
    collisions: set<int>)

  function Empty(env: Env): State {
    State(env, 0, map[], map[], [], map[], 0, map[], 0, map[], 1, {})
  }

  // ---------------------------------------------------------------- consistency

  lemma Inhabited(s: set<int>)
    ensures s == {} || exists x :: x in s
  {
    if !exists x: int :: x in s {
      assert s == {};
    }
  }

  /** The slots of `table` that hold `id`. */
  function Refs(table: map<Slot, int>, id: int): set<Slot> {
    set s | s in table && table[s] == id
  }

  function NewIds(info: map<int, Info>): set<int> {
    set id | id in info && !info[id].inTried
  }

  function TriedIds(info: map<int, Info>): set<int> {
    set id | id in info && info[id].inTried
  }

  ghost predicate IdsInv(idCount: int, ids: set<int>) {
    idCount >= 0 && forall id <- ids :: 0 <= id < idCount
  }

  ghost predicate AddrInv(info: map<int, Info>, byAddr: map<NetAddr, int>) {
    && (forall id <- info :: info[id].addr.net in byAddr && byAddr[info[id].addr.net] == id)
    && (forall a <- byAddr :: byAddr[a] in info && info[byAddr[a]].addr.net == a)
  }

  /** `pos` and `random` are inverse bijections between `ids` and the vector's indices. */
  ghost predicate OrderInv(ids: set<int>, random: seq<int>, pos: map<int, int>) {
    && pos.Keys == ids
    && (forall id <- ids :: 0 <= pos[id] < |random| && random[pos[id]] == id)
    && (forall i | 0 <= i < |random| :: random[i] in ids && pos[random[i]] == i)
  }

  ghost predicate NewInv(env: Env, info: map<int, Info>, table: map<Slot, int>) {
    forall s <- table ::
      && table[s] in info
      && !info[table[s]].inTried
      && 0 <= s.bucket < NEW_BUCKET_COUNT
      && s == NewSlotIn(env, info[table[s]].addr, s.bucket)
  }

  ghost predicate TriedInv(env: Env, info: map<int, Info>, table: map<Slot, int>) {
    && (forall s <- table ::
          && table[s] in info
          && info[table[s]].inTried
          && s == TriedSlot(env, info[table[s]].addr))
    && (forall id <- info | info[id].inTried ::
          && TriedSlot(env, info[id].addr) in table
          && table[TriedSlot(env, info[id].addr)] == id)
  }

  ghost predicate RefInv(info: map<int, Info>, newTable: map<Slot, int>) {
    forall id <- info :: info[id].refCount == |Refs(newTable, id)|
  }

  /** Every entry outside `pending` that is not tried sits in 1 to 8 new buckets. */
  ghost predicate RefRange(info: map<int, Info>, pending: set<int>) {
    forall id <- info | !info[id].inTried && id !in pending ::
      1 <= info[id].refCount <= NEW_BUCKETS_PER_ADDRESS
  }

  ghost predicate CountInv(info: map<int, Info>, nTried: int, nNew: int) {
    nTried == |TriedIds(info)| && nNew == |NewIds(info)|
  }

  ghost predicate TimeInv(info: map<int, Info>) {
    forall id <- info ::
      && info[id].lastTry >= 0 && info[id].lastSuccess >= 0
      && (info[id].inTried ==> info[id].lastSuccess != 0)
  }

  /** A queued collision that still names an entry names one whose tried slot is filled. */
  ghost predicate CollisionInv(m: State) {
    && |m.collisions| <= SET_TRIED_COLLISION_SIZE
    && (forall id <- m.collisions :: 0 <= id < m.idCount)
    && (forall id <- m.collisions | id in m.info :: TriedSlot(m.env, m.info[id].addr) in m.triedTable)
  }

  ghost predicate Indexed(m: State) {
    && IdsInv(m.idCount, m.info.Keys)
    && AddrInv(m.info, m.byAddr)
    && OrderInv(m.info.Keys, m.random, m.pos)
    && TimeInv(m.info)
  }

  /** `pending` entries need not sit in a new bucket yet; `owed` new entries are not yet
      counted in `nNew`. */
  ghost predicate Placed(m: State, pending: set<int>, owed: int) {
    && NewInv(m.env, m.info, m.newTable)
    && TriedInv(m.env, m.info, m.triedTable)
    && RefInv(m.info, m.newTable)
    && RefRange(m.info, pending)
    && CountInv(m.info, m.nTried, m.nNew + owed)
  }

  /** What holds even halfway through an operation. */
  ghost predicate Core(m: State, pending: set<int>, owed: int) {
    Indexed(m) && Placed(m, pending, owed)
  }

  ghost predicate Inv(m: State) {
    Core(m, {}, 0) && CollisionInv(m)
  }

  // ---------------------------------------------------------------- primitive steps

  function Create(m: State, a: Address, source: NetAddr): State {
    var id := m.idCount;
    m.(idCount := id + 1,
       info := m.info[id := Info(a.service, a.time, a.services, source, 0, 0, 0, 0, 0, false)],
       byAddr := m.byAddr[a.service.net := id],
       random := m.random + [id],
       pos := m.pos[id := |m.random|])
  }

  function Swapped(random: seq<int>, i: int, j: int): seq<int>
    requires 0 <= i < |random| && 0 <= j < |random|
  {
    random[i := random[j]][j := random[i]]
  }

  function SwappedPos(random: seq<int>, pos: map<int, int>, i: int, j: int): map<int, int>
    requires 0 <= i < |random| && 0 <= j < |random|
  {
    pos[random[i] := j][random[j] := i]
  }

  function SwapRandom(m: State, i: int, j: int): State
    requires 0 <= i < |m.random| && 0 <= j < |m.random|
  {
    if i == j then m else m.(pos := SwappedPos(m.random, m.pos, i, j), random := Swapped(m.random, i, j))
  }

  function Delete(m: State, id: int): State
    requires id in m.info && id in m.pos && 0 <= m.pos[id] < |m.random|
  {
    var last := |m.random| - 1;
    var m1 := SwapRandom(m, m.pos[id], last);
    m1.(random := m1.random[..last],
        pos := m1.pos - {id},
        byAddr := m1.byAddr - {m.info[id].addr.net},
        info := m1.info - {id},
        nNew := m1.nNew - 1)
  }

  /** The first half of `ClearNew`: the slot is emptied and its entry loses a reference. */
  function DropRef(m: State, s: Slot): State
    requires s in m.newTable && m.newTable[s] in m.info
  {
    var id := m.newTable[s];
    m.(info := m.info[id := m.info[id].(refCount := m.info[id].refCount - 1)], newTable := m.newTable - {s})
  }

  function ClearNew(m: State, s: Slot): State
    requires OrderInv(m.info.Keys, m.random, m.pos)
    requires s in m.newTable ==> m.newTable[s] in m.info
  {
    if s !in m.newTable then m else
      var m1 := DropRef(m, s);
      if m1.info[m.newTable[s]].refCount == 0 then Delete(m1, m.newTable[s]) else m1
  }

  function PutNew(m: State, id: int, s: Slot): State
    requires id in m.info
  {
    m.(info := m.info[id := m.info[id].(refCount := m.info[id].refCount + 1)],
       newTable := m.newTable[s := id])
  }

  /** `id` leaves every new bucket. */
  function Unlink(m: State, id: int): State
    requires id in m.info
  {
    m.(info := m.info[id := m.info[id].(refCount := 0)],
       newTable := map s | s in m.newTable && m.newTable[s] != id :: m.newTable[s],
       nNew := m.nNew - 1)
  }

  /** The occupant of a tried slot leaves the tried table. */
  function Release(m: State, s: Slot): State
    requires s in m.triedTable && m.triedTable[s] in m.info
  {
    var ev := m.triedTable[s];
    m.(info := m.info[ev := m.info[ev].(inTried := false)],
       triedTable := m.triedTable - {s},
       nTried := m.nTried - 1)
  }

  /** The slot of the new table an evicted entry returns to. */
  function ReturnSlot(m: State, s: Slot): Slot
    requires s in m.triedTable && m.triedTable[s] in m.info
  {
    NewSlot(m.env, m.info[m.triedTable[s]].addr, m.info[m.triedTable[s]].source)
  }

  /** Enter `id` into the new table again. */
  function Readd(m: State, id: int, u: Slot): State
    requires id in m.info
  {
    m.(info := m.info[id := m.info[id].(refCount := 1)],
       newTable := m.newTable[u := id],
       nNew := m.nNew + 1)
  }

  ghost predicate CanEvict(m: State, s: Slot) {
    && OrderInv(m.info.Keys, m.random, m.pos)
    && s in m.triedTable && m.triedTable[s] in m.info
    && forall u <- m.newTable :: m.newTable[u] in m.info && m.newTable[u] != m.triedTable[s]
  }

  /** The occupant of a tried slot goes back to its primary new slot, whose own occupant
      loses that reference. */
  ghost function EvictTried(m: State, s: Slot): State
    requires CanEvict(m, s)
  {
    assert Release(m, s).info.Keys == m.info.Keys;
    ClearNewFrame(Release(m, s), ReturnSlot(m, s));
    Readd(ClearNew(Release(m, s), ReturnSlot(m, s)), m.triedTable[s], ReturnSlot(m, s))
  }

  function PlaceTried(m: State, id: int): State
    requires id in m.info
  {
    m.(triedTable := m.triedTable[TriedSlot(m.env, m.info[id].addr) := id],
       nTried := m.nTried + 1,
       info := m.info[id := m.info[id].(inTried := true)])
  }

  // ---------------------------------------------------------------- lemmas on them

  lemma PutBack<K, V>(t: map<K, V>, k: K, v: V)
    ensures (t - {k})[k := v] == t[k := v]
  {
  }

  lemma DropAdded<T>(s: set<T>, x: T)
    requires x !in s
    ensures s + {x} - {x} == s
  {
  }

  lemma RefsAdd(t: map<Slot, int>, s: Slot, id: int)
    requires s !in t
    ensures |Refs(t[s := id], id)| == |Refs(t, id)| + 1
    ensures forall x | x != id :: Refs(t[s := id], x) == Refs(t, x)
  {
    assert Refs(t[s := id], id) == Refs(t, id) + {s};
  }

  lemma RefsRemove(t: map<Slot, int>, s: Slot)
    requires s in t
    ensures |Refs(t - {s}, t[s])| == |Refs(t, t[s])| - 1
    ensures forall x | x != t[s] :: Refs(t - {s}, x) == Refs(t, x)
  {
    assert Refs(t - {s}, t[s]) == Refs(t, t[s]) - {s};
  }

  lemma AddToOrder(ids: set<int>, random: seq<int>, pos: map<int, int>, id: int)
    requires OrderInv(ids, random, pos) && id !in ids
    ensures OrderInv(ids + {id}, random + [id], pos[id := |random|])
  {
  }

  lemma SwapOrder(ids: set<int>, random: seq<int>, pos: map<int, int>, i: int, j: int)
    requires OrderInv(ids, random, pos) && 0 <= i < |random| && 0 <= j < |random|
    ensures OrderInv(ids, Swapped(random, i, j), SwappedPos(random, pos, i, j))
  {
  }

  lemma DropLastOfOrder(ids: set<int>, random: seq<int>, pos: map<int, int>)
    requires OrderInv(ids, random, pos) && |random| > 0
    ensures var id := random[|random| - 1];
      OrderInv(ids - {id}, random[..|random| - 1], pos - {id})
  {
  }

  lemma DeleteOrder(m: State, id: int)
    requires OrderInv(m.info.Keys, m.random, m.pos) && id in m.info
    ensures OrderInv(m.info.Keys - {id}, Delete(m, id).random, Delete(m, id).pos)
  {
    var p, last := m.pos[id], |m.random| - 1;
    if p == last {
      DropLastOfOrder(m.info.Keys, m.random, m.pos);
    } else {
      SwapOrder(m.info.Keys, m.random, m.pos, p, last);
      DropLastOfOrder(m.info.Keys, Swapped(m.random, p, last), SwappedPos(m.random, m.pos, p, last));
    }
  }

  lemma AddEntry(env: Env, info: map<int, Info>, newTable: map<Slot, int>, triedTable: map<Slot, int>, id: int, e: Info)
    requires NewInv(env, info, newTable) && TriedInv(env, info, triedTable) && RefInv(info, newTable)
    requires id !in info && !e.inTried && e.refCount == 0
    ensures var info' := info[id := e];
      && NewInv(env, info', newTable) && TriedInv(env, info', triedTable) && RefInv(info', newTable)
      && |NewIds(info')| == |NewIds(info)| + 1 && TriedIds(info') == TriedIds(info)
  {
    assert Refs(newTable, id) == {};
    assert NewIds(info[id := e]) == NewIds(info) + {id};
    AddEntryTables(env, info, newTable, triedTable, id, e);
    hide NewInv, TriedInv;
  }

  lemma AddEntryTables(env: Env, info: map<int, Info>, newTable: map<Slot, int>, triedTable: map<Slot, int>, id: int, e: Info)
    requires NewInv(env, info, newTable) && TriedInv(env, info, triedTable) && id !in info && !e.inTried
    ensures NewInv(env, info[id := e], newTable) && TriedInv(env, info[id := e], triedTable)
  {
  }

  lemma AddAddr(info: map<int, Info>, byAddr: map<NetAddr, int>, id: int, e: Info)
    requires AddrInv(info, byAddr) && id !in info && e.addr.net !in byAddr
    ensures AddrInv(info[id := e], byAddr[e.addr.net := id])
  {
  }

  lemma CreateIndexed(m: State, a: Address, source: NetAddr)
    requires Indexed(m) && a.service.net !in m.byAddr
    ensures Indexed(Create(m, a, source))
  {
    AddToOrder(m.info.Keys, m.random, m.pos, m.idCount);
    AddAddr(m.info, m.byAddr, m.idCount, Create(m, a, source).info[m.idCount]);
    assert Create(m, a, source).info.Keys == m.info.Keys + {m.idCount};
  }

  lemma CreatePlaced(m: State, a: Address, source: NetAddr)
    requires m.idCount !in m.info && Placed(m, {}, 0)
    ensures Placed(Create(m, a, source), {m.idCount}, 1)
  {
    var m' := Create(m, a, source);
    AddEntry(m.env, m.info, m.newTable, m.triedTable, m.idCount, m'.info[m.idCount]);
  }

  lemma CreateCore(m: State, a: Address, source: NetAddr)
    requires Core(m, {}, 0) && a.service.net !in m.byAddr
    ensures Core(Create(m, a, source), {m.idCount}, 1)
  {
    CreateIndexed(m, a, source);
    CreatePlaced(m, a, source);
  }

  lemma SwapCore(m: State, i: int, j: int, pending: set<int>, owed: int)
    requires Core(m, pending, owed) && 0 <= i < |m.random| && 0 <= j < |m.random|
    ensures Core(SwapRandom(m, i, j), pending, owed)
  {
    SwapOrder(m.info.Keys, m.random, m.pos, i, j);
  }

  lemma RemoveEntry(env: Env, info: map<int, Info>, newTable: map<Slot, int>, triedTable: map<Slot, int>, id: int)
    requires NewInv(env, info, newTable) && TriedInv(env, info, triedTable) && RefInv(info, newTable)
    requires id in info && !info[id].inTried && info[id].refCount == 0
    ensures var info' := info - {id};
      && NewInv(env, info', newTable) && TriedInv(env, info', triedTable) && RefInv(info', newTable)
      && |NewIds(info')| == |NewIds(info)| - 1 && TriedIds(info') == TriedIds(info)
  {
    forall s | s in newTable ensures newTable[s] != id {
      assert s in Refs(newTable, newTable[s]);
    }
    assert NewIds(info - {id}) == NewIds(info) - {id};
  }

  lemma RemoveAddr(info: map<int, Info>, byAddr: map<NetAddr, int>, id: int)
    requires AddrInv(info, byAddr) && id in info
    ensures AddrInv(info - {id}, byAddr - {info[id].addr.net})
  {
  }

  lemma DeleteIndexed(m: State, id: int)
    requires Indexed(m) && id in m.info
    ensures Indexed(Delete(m, id))
  {
    DeleteOrder(m, id);
    RemoveAddr(m.info, m.byAddr, id);
    assert Delete(m, id).info.Keys == m.info.Keys - {id};
  }

  lemma DeletePlaced(m: State, id: int, pending: set<int>, owed: int)
    requires OrderInv(m.info.Keys, m.random, m.pos) && Placed(m, pending, owed)
    requires id in m.info && !m.info[id].inTried && m.info[id].refCount == 0
    ensures Placed(Delete(m, id), pending, owed)
  {
    RemoveEntry(m.env, m.info, m.newTable, m.triedTable, id);
  }

  lemma DeleteCore(m: State, id: int, pending: set<int>, owed: int)
    requires Core(m, pending, owed)
    requires id in m.info && !m.info[id].inTried && m.info[id].refCount == 0
    ensures Core(Delete(m, id), pending, owed)
  {
    DeleteIndexed(m, id);
    DeletePlaced(m, id, pending, owed);
  }

  /** Rewriting an entry's bookkeeping fields disturbs nothing. */
  lemma TouchCore(m: State, id: int, e: Info, pending: set<int>, owed: int)
    requires Core(m, pending, owed) && id in m.info
    requires e.addr == m.info[id].addr && e.refCount == m.info[id].refCount && e.inTried == m.info[id].inTried
    requires e.lastTry >= 0 && e.lastSuccess >= 0 && (e.inTried ==> e.lastSuccess != 0)
    ensures Core(m.(info := m.info[id := e]), pending, owed)
  {
    var info' := m.info[id := e];
    TouchPlaced(m, id, e, pending, owed);
    assert info'.Keys == m.info.Keys;
    assert AddrInv(info', m.byAddr);
  }

  lemma TouchPlaced(m: State, id: int, e: Info, pending: set<int>, owed: int)
    requires Placed(m, pending, owed) && id in m.info
    requires e.addr == m.info[id].addr && e.refCount == m.info[id].refCount && e.inTried == m.info[id].inTried
    ensures Placed(m.(info := m.info[id := e]), pending, owed)
  {
    assert NewIds(m.info[id := e]) == NewIds(m.info);
    assert TriedIds(m.info[id := e]) == TriedIds(m.info);
  }

  /** Changing a reference count (and nothing else) leaves the indexes alone. */
  lemma RecountIndexed(m: State, id: int, n: int)
    requires Indexed(m) && id in m.info
    ensures Indexed(m.(info := m.info[id := m.info[id].(refCount := n)]))
  {
    var info' := m.info[id := m.info[id].(refCount := n)];
    assert info'.Keys == m.info.Keys;
    assert AddrInv(info', m.byAddr);
  }

  lemma DropRefPlaced(m: State, s: Slot, pending: set<int>, owed: int)
    requires Placed(m, pending, owed) && s in m.newTable && m.newTable[s] !in pending
    ensures Placed(DropRef(m, s), pending + {m.newTable[s]}, owed)
    ensures DropRef(m, s).info[m.newTable[s]].refCount > 0 ==> Placed(DropRef(m, s), pending, owed)
    ensures DropRef(m, s).info[m.newTable[s]].refCount >= 0
  {
    var m', id := DropRef(m, s), m.newTable[s];
    RefsRemove(m.newTable, s);
    assert RefInv(m'.info, m'.newTable);
    assert NewIds(m'.info) == NewIds(m.info);
    assert TriedIds(m'.info) == TriedIds(m.info);
  }

  lemma ClearNewCore(m: State, s: Slot, pending: set<int>, owed: int)
    requires Core(m, pending, owed)
    requires s in m.newTable ==> m.newTable[s] !in pending
    ensures Core(ClearNew(m, s), pending, owed)
  {
    if s in m.newTable {
      var id, m1 := m.newTable[s], DropRef(m, s);
      RecountIndexed(m, id, m.info[id].refCount - 1);
      DropRefPlaced(m, s, pending, owed);
      assert Indexed(m1);
      if m1.info[id].refCount == 0 {
        DeleteIndexed(m1, id);
        DeletePlaced(m1, id, pending + {id}, owed);
        assert RefRange(Delete(m1, id).info, pending);
      }
    }
  }

  /** `ClearNew` empties the slot and can lose no entry but the slot's occupant. */
  lemma ClearNewFrame(m: State, s: Slot)
    requires OrderInv(m.info.Keys, m.random, m.pos)
    requires s in m.newTable ==> m.newTable[s] in m.info
    ensures var m' := ClearNew(m, s);
      && m'.newTable == m.newTable - {s}
      && m' == m.(info := m'.info, byAddr := m'.byAddr, random := m'.random, pos := m'.pos,
                  nNew := m'.nNew, newTable := m'.newTable)
      && m'.info.Keys <= m.info.Keys
      && forall x | x in m.info && (s in m.newTable ==> x != m.newTable[s]) ::
           x in m'.info && m'.info[x] == m.info[x]
  {
  }

  lemma PutNewCore(m: State, id: int, s: Slot, pending: set<int>, owed: int)
    requires Core(m, pending, owed)
    requires id in m.info && !m.info[id].inTried && m.info[id].refCount < NEW_BUCKETS_PER_ADDRESS
    requires s !in m.newTable && 0 <= s.bucket < NEW_BUCKET_COUNT && s == NewSlotIn(m.env, m.info[id].addr, s.bucket)
    ensures Core(PutNew(m, id, s), pending - {id}, owed)
  {
    RecountIndexed(m, id, m.info[id].refCount + 1);
    PutNewPlaced(m, id, s, pending, owed);
  }

  lemma PutNewPlaced(m: State, id: int, s: Slot, pending: set<int>, owed: int)
    requires Placed(m, pending, owed)
    requires id in m.info && !m.info[id].inTried && m.info[id].refCount < NEW_BUCKETS_PER_ADDRESS
    requires s !in m.newTable && 0 <= s.bucket < NEW_BUCKET_COUNT && s == NewSlotIn(m.env, m.info[id].addr, s.bucket)
    ensures Placed(PutNew(m, id, s), pending - {id}, owed)
  {
    var m' := PutNew(m, id, s);
    RefsAdd(m.newTable, s, id);
    assert RefInv(m'.info, m'.newTable);
    assert NewIds(m'.info) == NewIds(m.info);
    assert TriedIds(m'.info) == TriedIds(m.info);
  }

  lemma UnlinkCore(m: State, id: int)
    requires Core(m, {}, 0) && id in m.info && !m.info[id].inTried
    ensures Core(Unlink(m, id), {id}, 1)
    ensures forall s <- Unlink(m, id).newTable :: Unlink(m, id).newTable[s] != id
  {
    var m' := Unlink(m, id);
    RecountIndexed(m, id, 0);
    UnlinkPlaced(m, id);
  }

  lemma UnlinkPlaced(m: State, id: int)
    requires Placed(m, {}, 0) && id in m.info && !m.info[id].inTried
    ensures Placed(Unlink(m, id), {id}, 1)
  {
    var m' := Unlink(m, id);
    assert Refs(m'.newTable, id) == {};
    forall x | x != id ensures Refs(m'.newTable, x) == Refs(m.newTable, x) {
    }
    assert NewIds(m'.info) == NewIds(m.info);
    assert TriedIds(m'.info) == TriedIds(m.info);
  }

  lemma ReleaseCore(m: State, s: Slot, pending: set<int>, owed: int)
    requires Core(m, pending, owed) && s in m.triedTable
    ensures var ev := m.triedTable[s];
      && Core(Release(m, s), pending + {ev}, owed + 1)
      && m.info[ev].refCount == 0
      && forall u <- m.newTable :: m.newTable[u] != ev
  {
    var ev := m.triedTable[s];
    assert Refs(m.newTable, ev) == {};
    ReleaseIndexed(m, s);
    ReleasePlaced(m, s, pending, owed);
  }

  lemma ReleaseIndexed(m: State, s: Slot)
    requires Indexed(m) && s in m.triedTable && m.triedTable[s] in m.info
    ensures Indexed(Release(m, s))
  {
    var m' := Release(m, s);
    assert m'.info.Keys == m.info.Keys;
    assert AddrInv(m'.info, m.byAddr);
  }

  lemma ReleasePlaced(m: State, s: Slot, pending: set<int>, owed: int)
    requires Placed(m, pending, owed) && s in m.triedTable
    ensures Placed(Release(m, s), pending + {m.triedTable[s]}, owed + 1)
  {
    var m', ev := Release(m, s), m.triedTable[s];
    assert NewIds(m'.info) == NewIds(m.info) + {ev};
    assert TriedIds(m'.info) == TriedIds(m.info) - {ev};
    assert TriedInv(m'.env, m'.info, m'.triedTable);
  }

  lemma PlaceTriedCore(m: State, id: int)
    requires Core(m, {id}, 1) && id in m.info && !m.info[id].inTried && m.info[id].refCount == 0
    requires TriedSlot(m.env, m.info[id].addr) !in m.triedTable && m.info[id].lastSuccess != 0
    ensures Core(PlaceTried(m, id), {}, 0)
  {
    var m' := PlaceTried(m, id);
    assert m'.info.Keys == m.info.Keys;
    assert AddrInv(m'.info, m.byAddr);
    PlaceTriedPlaced(m, id);
  }

  lemma PlaceTriedPlaced(m: State, id: int)
    requires Placed(m, {id}, 1) && id in m.info && !m.info[id].inTried && m.info[id].refCount == 0
    requires TriedSlot(m.env, m.info[id].addr) !in m.triedTable
    ensures Placed(PlaceTried(m, id), {}, 0)
  {
    var m' := PlaceTried(m, id);
    PlaceTriedTables(m, id);
    PlaceTriedCounts(m, id);
    hide NewInv, TriedInv, Refs, CountInv;
    assert m'.newTable == m.newTable;
  }

  lemma PlaceTriedCounts(m: State, id: int)
    requires CountInv(m.info, m.nTried, m.nNew + 1) && id in m.info && !m.info[id].inTried
    ensures var m' := PlaceTried(m, id); CountInv(m'.info, m'.nTried, m'.nNew)
  {
    var m' := PlaceTried(m, id);
    assert NewIds(m'.info) == NewIds(m.info) - {id};
    assert TriedIds(m'.info) == TriedIds(m.info) + {id};
  }

  lemma PlaceTriedTables(m: State, id: int)
    requires NewInv(m.env, m.info, m.newTable) && TriedInv(m.env, m.info, m.triedTable) && RefInv(m.info, m.newTable)
    requires id in m.info && !m.info[id].inTried && m.info[id].refCount == 0
    requires TriedSlot(m.env, m.info[id].addr) !in m.triedTable
    ensures var m' := PlaceTried(m, id); NewInv(m'.env, m'.info, m'.newTable) && TriedInv(m'.env, m'.info, m'.triedTable)
  {
    forall s | s in m.newTable ensures m.newTable[s] != id {
      assert s in Refs(m.newTable, m.newTable[s]);
    }
  }

  lemma ReaddCore(m: State, id: int, u: Slot, pending: set<int>, owed: int)
    requires Core(m, pending, owed)
    requires id in m.info && !m.info[id].inTried && m.info[id].refCount == 0
    requires u !in m.newTable && 0 <= u.bucket < NEW_BUCKET_COUNT && u == NewSlotIn(m.env, m.info[id].addr, u.bucket)
    ensures Core(Readd(m, id, u), pending - {id}, owed - 1)
  {
    PutNewCore(m, id, u, pending, owed);
    var m1 := PutNew(m, id, u);
    assert Readd(m, id, u) == m1.(nNew := m1.nNew + 1);
  }
}
