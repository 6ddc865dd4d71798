/**
 The executable consistency check of src/addrman.cpp, proved to return 0 exactly on the
 states it means to accept, and to accept every consistent state.
 */
module AddrManCheck {
  import opened AddrMan
  import AddrManOps
  import opened AddrManState
  import opened Helpers

  /** `mapAddr[info]` reads 0 for an address that is missing. */
  function LookUp(byAddr: map<NetAddr, int>, a: NetAddr): int {
    if a in byAddr then byAddr[a] else 0
  }

  /** What `Check_` demands of one entry: the first violated demand's code, or 0. */
  function EntryError(m: State, id: int): int
    requires id in m.info && id in m.pos
  {
    var e := m.info[id];
    if e.inTried && e.lastSuccess == 0 then -1
    else if e.inTried && e.refCount != 0 then -2
    else if !e.inTried && (e.refCount < 0 || e.refCount > NEW_BUCKETS_PER_ADDRESS) then -3
    else if !e.inTried && e.refCount == 0 then -4
    else if LookUp(m.byAddr, e.addr.net) != id then -5
    else if m.pos[id] < 0 || m.pos[id] >= |m.random| || m.random[m.pos[id]] != id then -14
    else if e.lastTry < 0 then -6
    else if e.lastSuccess < 0 then -8
    else 0
  }

  ghost predicate EntriesOk(m: State)
    requires m.pos.Keys == m.info.Keys
  {
    forall id <- m.info :: EntryError(m, id) == 0
  }

  ghost predicate TriedSlotOk(m: State, s: Slot)
    requires s in m.triedTable
  {
    var id := m.triedTable[s];
    id in m.info && m.info[id].inTried && s == TriedSlot(m.env, m.info[id].addr)
  }

  /** The tried table lists exactly the tried entries, each in its own slot. */
  ghost predicate TriedTableOk(m: State) {
    && (forall s <- m.triedTable :: TriedSlotOk(m, s))
    && (forall id <- m.info | m.info[id].inTried :: Refs(m.triedTable, id) != {})
  }

  ghost predicate NewSlotOk(m: State, s: Slot)
    requires s in m.newTable
  {
    var id := m.newTable[s];
    id in m.info && !m.info[id].inTried && s == NewSlotIn(m.env, m.info[id].addr, s.bucket)
  }

  /** The new table lists every entry that is not tried as often as it counts. */
  ghost predicate NewTableOk(m: State) {
    && (forall s <- m.newTable :: NewSlotOk(m, s))
    && (forall id <- m.info | !m.info[id].inTried :: |Refs(m.newTable, id)| == m.info[id].refCount)
  }

  ghost predicate Accepted(m: State)
    requires m.pos.Keys == m.info.Keys
  {
    && |m.random| == m.nTried + m.nNew
    && EntriesOk(m)
    && |TriedIds(m.info)| == m.nTried && |NewIds(m.info)| == m.nNew
    && TriedTableOk(m) && NewTableOk(m)
  }

  lemma {:induction false} IndexSet(n: nat) returns (s: set<int>)
    ensures |s| == n && forall i: int :: i in s <==> 0 <= i < n
  {
    s := {};
    if n > 0 {
      s := IndexSet(n - 1);
      s := s + {n - 1};
    }
  }

  lemma SameSize(a: set<int>, b: set<int>)
    requires a <= b && |a| == |b|
    ensures a == b
  {
    assert b == a + (b - a);
  }

  lemma {:induction false} ImageSize(ids: set<int>, pos: map<int, int>)
    requires ids <= pos.Keys && forall x, y | x in ids && y in ids && x != y :: pos[x] != pos[y]
    ensures |set x | x in ids :: pos[x]| == |ids|
    decreases |ids|
  {
    if ids != {} {
      Inhabited(ids);
      var x :| x in ids;
      ImageSize(ids - {x}, pos);
      assert (set y | y in ids :: pos[y]) == (set y | y in ids - {x} :: pos[y]) + {pos[x]};
    }
  }

  /** Places that are right for every id, in a vector of just as many, are right for every index. */
  lemma PlacesFill(ids: set<int>, random: seq<int>, pos: map<int, int>)
    requires pos.Keys == ids && |random| == |ids|
    requires forall id <- ids :: 0 <= pos[id] < |random| && random[pos[id]] == id
    ensures OrderInv(ids, random, pos)
  {
    var all := IndexSet(|random|);
    ImageSize(ids, pos);
    var image := set x | x in ids :: pos[x];
    SameSize(image, all);
    forall i | 0 <= i < |random| ensures random[i] in ids && pos[random[i]] == i {
      assert i in image;
    }
  }

  lemma EntryErrorIs(m: State, id: int)
    requires id in m.info && id in m.pos
    ensures EntryError(m, id) == 0 <==>
      && (if m.info[id].inTried then m.info[id].lastSuccess != 0 && m.info[id].refCount == 0 else 1 <= m.info[id].refCount <= 8)
      && (if m.info[id].addr.net in m.byAddr then m.byAddr[m.info[id].addr.net] == id else id == 0)
      && 0 <= m.pos[id] < |m.random| && m.random[m.pos[id]] == id
      && m.info[id].lastTry >= 0 && m.info[id].lastSuccess >= 0
  {
  }

  lemma CountsSum(info: map<int, Info>)
    ensures |TriedIds(info)| + |NewIds(info)| == |info|
  {
    assert info.Keys == TriedIds(info) + NewIds(info);
  }

  /** What is accepted is consistent in every respect, save that an address missing from the index is not
      noticed for the id 0, nor one in the index that no entry has. */
  lemma AcceptedIff(m: State)
    requires m.pos.Keys == m.info.Keys && forall s <- m.newTable :: 0 <= s.bucket < NEW_BUCKET_COUNT
    ensures Accepted(m) <==>
      && OrderInv(m.info.Keys, m.random, m.pos) && TimeInv(m.info) && Placed(m, {}, 0)
      && forall id <- m.info :: if m.info[id].addr.net in m.byAddr then m.byAddr[m.info[id].addr.net] == id else id == 0
  {
    if Accepted(m) {
      AcceptedConsistent(m);
    }
    if OrderInv(m.info.Keys, m.random, m.pos) && TimeInv(m.info) && Placed(m, {}, 0)
       && forall id <- m.info :: if m.info[id].addr.net in m.byAddr then m.byAddr[m.info[id].addr.net] == id else id == 0 {
      ConsistentAccepted(m);
    }
  }

  lemma AcceptedConsistent(m: State)
    requires m.pos.Keys == m.info.Keys && forall s <- m.newTable :: 0 <= s.bucket < NEW_BUCKET_COUNT
    requires Accepted(m)
    ensures OrderInv(m.info.Keys, m.random, m.pos) && TimeInv(m.info) && Placed(m, {}, 0)
    ensures forall id <- m.info :: if m.info[id].addr.net in m.byAddr then m.byAddr[m.info[id].addr.net] == id else id == 0
  {
    CountsSum(m.info);
    EntriesConsistent(m);
    hide EntriesOk, TriedTableOk, NewTableOk, OrderInv, NewInv, TriedInv, RefInv;
    PlacesFill(m.info.Keys, m.random, m.pos);
    TablesConsistent(m);
  }

  lemma EntriesConsistent(m: State)
    requires m.pos.Keys == m.info.Keys && EntriesOk(m)
    ensures forall id <- m.info :: if m.info[id].inTried then m.info[id].refCount == 0 else 1 <= m.info[id].refCount <= 8
    ensures forall id <- m.info :: if m.info[id].addr.net in m.byAddr then m.byAddr[m.info[id].addr.net] == id else id == 0
    ensures forall id <- m.info :: 0 <= m.pos[id] < |m.random| && m.random[m.pos[id]] == id
    ensures TimeInv(m.info)
  {
    forall id <- m.info ensures EntryError(m, id) == 0 {
    }
    hide EntryError, EntriesOk;
    forall id <- m.info
      ensures (if m.info[id].inTried then m.info[id].lastSuccess != 0 && m.info[id].refCount == 0 else 1 <= m.info[id].refCount <= 8)
      ensures if m.info[id].addr.net in m.byAddr then m.byAddr[m.info[id].addr.net] == id else id == 0
      ensures 0 <= m.pos[id] < |m.random| && m.random[m.pos[id]] == id && m.info[id].lastTry >= 0 && m.info[id].lastSuccess >= 0 {
      EntryErrorIs(m, id);
    }
  }

  lemma TablesConsistent(m: State)
    requires TriedTableOk(m) && NewTableOk(m) && forall s <- m.newTable :: 0 <= s.bucket < NEW_BUCKET_COUNT
    requires forall id <- m.info | m.info[id].inTried :: m.info[id].refCount == 0
    ensures NewInv(m.env, m.info, m.newTable) && TriedInv(m.env, m.info, m.triedTable) && RefInv(m.info, m.newTable)
  {
    forall s <- m.newTable ensures NewSlotOk(m, s) {
    }
    forall id <- m.info | m.info[id].inTried
      ensures TriedSlot(m.env, m.info[id].addr) in m.triedTable && m.triedTable[TriedSlot(m.env, m.info[id].addr)] == id {
      var s :| s in Refs(m.triedTable, id);
      assert TriedSlotOk(m, s);
    }
    forall id <- m.info | m.info[id].inTried ensures Refs(m.newTable, id) == {} {
    }
  }

  lemma ConsistentAccepted(m: State)
    requires m.pos.Keys == m.info.Keys
    requires OrderInv(m.info.Keys, m.random, m.pos) && TimeInv(m.info) && Placed(m, {}, 0)
    requires forall id <- m.info :: if m.info[id].addr.net in m.byAddr then m.byAddr[m.info[id].addr.net] == id else id == 0
    ensures Accepted(m)
  {
    CountsSum(m.info);
    AddrManOps.OrderSize(m.info.Keys, m.random, m.pos);
    forall id <- m.info | m.info[id].inTried ensures Refs(m.triedTable, id) != {} && m.info[id].refCount == 0 {
      assert TriedSlot(m.env, m.info[id].addr) in Refs(m.triedTable, id);
      assert Refs(m.newTable, id) == {};
    }
    forall id <- m.info ensures EntryError(m, id) == 0 {
      EntryErrorIs(m, id);
    }
  }

  /** Every consistent state passes the check. */
  lemma InvAccepted(m: State)
    requires Inv(m)
    ensures Accepted(m)
  {
    ConsistentAccepted(m);
  }

  // ---------------------------------------------------------------- the two table scans

  /** `seen` is the part of a table the scan has covered: all rows above `n`, and row `n`
      up to place `i`. */
  ghost function Covered(t: map<Slot, int>, n: int, i: int): map<Slot, int> {
    map s | s in t && (s.bucket < n || (s.bucket == n && s.pos < i)) :: t[s]
  }

  lemma CoverNext(t: map<Slot, int>, n: int, i: int)
    ensures Covered(t, n, i + 1) ==
      if Slot(n, i) in t then Covered(t, n, i)[Slot(n, i) := t[Slot(n, i)]] else Covered(t, n, i)
    ensures Slot(n, i) !in Covered(t, n, i)
  {
  }

  lemma CoverRow(t: map<Slot, int>, n: int, width: int)
    requires forall s <- t :: 0 <= s.pos < width
    ensures Covered(t, n, width) == Covered(t, n + 1, 0)
  {
  }

  lemma CoverStart(t: map<Slot, int>)
    requires forall s <- t :: 0 <= s.bucket && 0 <= s.pos
    ensures Covered(t, 0, 0) == map[]
  {
  }

  lemma CoverAll(t: map<Slot, int>, height: int)
    requires forall s <- t :: s.bucket < height
    ensures Covered(t, height, 0) == t
  {
  }

  /** The tried ids not yet met. */
  ghost function TriedLeft(m: State, seen: map<Slot, int>): set<int> {
    set id | id in TriedIds(m.info) && Refs(seen, id) == {}
  }

  /** The references not yet met. */
  ghost function NewLeft(m: State, seen: map<Slot, int>): map<int, int> {
    map id | id in NewIds(m.info) && m.info[id].refCount > |Refs(seen, id)| :: m.info[id].refCount - |Refs(seen, id)|
  }

  ghost predicate TriedSeenOk(m: State, seen: map<Slot, int>) {
    forall s <- seen :: s in m.triedTable && seen[s] == m.triedTable[s] && TriedSlotOk(m, s)
  }

  ghost predicate NewSeenOk(m: State, seen: map<Slot, int>) {
    && (forall s <- seen :: s in m.newTable && seen[s] == m.newTable[s] && NewSlotOk(m, s))
    && (forall id <- m.info | !m.info[id].inTried :: |Refs(seen, id)| <= m.info[id].refCount)
  }

  /** A tried slot is in order, given that all earlier ones are, exactly when its id is still
      on the list and belongs here; then it comes off the list. */
  lemma TriedScan(m: State, seen: map<Slot, int>, s: Slot)
    requires TriedSeenOk(m, seen) && s in m.triedTable && s !in seen
    ensures m.triedTable[s] !in TriedLeft(m, seen) ==> !TriedTableOk(m)
    ensures m.triedTable[s] in TriedLeft(m, seen) ==> m.triedTable[s] in m.info
    ensures m.triedTable[s] in TriedLeft(m, seen) && TriedSlotOk(m, s) ==>
      && TriedSeenOk(m, seen[s := m.triedTable[s]])
      && TriedLeft(m, seen[s := m.triedTable[s]]) == TriedLeft(m, seen) - {m.triedTable[s]}
  {
    var id, seen' := m.triedTable[s], seen[s := m.triedTable[s]];
    RefsAdd(seen, s, id);
    if id in TriedLeft(m, seen) {
      assert s in Refs(seen', id);
    }
    if TriedTableOk(m) {
      assert TriedSlotOk(m, s);
      assert forall s' <- seen :: TriedSlotOk(m, s') && seen[s'] == m.triedTable[s'];
      assert Refs(seen, id) <= {s} - {s};
    }
  }

  lemma NothingSeen(m: State)
    ensures TriedSeenOk(m, map[]) && TriedLeft(m, map[]) == TriedIds(m.info)
    ensures EntriesCounted(m) ==> NewSeenOk(m, map[])
  {
    forall id ensures Refs(map[], id) == {} {
    }
  }

  /** No reference count is negative. */
  ghost predicate EntriesCounted(m: State) {
    forall id <- m.info :: m.info[id].refCount >= 0
  }

  lemma BadTriedSlot(m: State, s: Slot)
    requires s in m.triedTable && !TriedSlotOk(m, s)
    ensures !TriedTableOk(m)
  {
  }

  lemma BadNewSlot(m: State, s: Slot)
    requires s in m.newTable && !NewSlotOk(m, s)
    ensures !NewTableOk(m)
  {
  }

  lemma NewScan(m: State, seen: map<Slot, int>, s: Slot)
    requires NewSeenOk(m, seen) && s in m.newTable && s !in seen && seen.Keys <= m.newTable.Keys
    ensures m.newTable[s] !in NewLeft(m, seen) ==> !NewTableOk(m)
    ensures m.newTable[s] in NewLeft(m, seen) ==> m.newTable[s] in m.info
    ensures m.newTable[s] in NewLeft(m, seen) && NewSlotOk(m, s) ==> NewSeenOk(m, seen[s := m.newTable[s]])
  {
    var id, seen' := m.newTable[s], seen[s := m.newTable[s]];
    RefsAdd(seen, s, id);
    if id !in NewLeft(m, seen) && NewTableOk(m) {
      assert NewSlotOk(m, s);
      assert Refs(seen', id) <= Refs(m.newTable, id);
      SmallerSet(Refs(seen', id), Refs(m.newTable, id));
    }
  }

  lemma NewCountDown(m: State, seen: map<Slot, int>, s: Slot, id: int)
    requires s !in seen && id in NewLeft(m, seen)
    ensures var left := NewLeft(m, seen);
      NewLeft(m, seen[s := id]) == (if left[id] - 1 == 0 then left - {id} else left[id := left[id] - 1])
  {
    RefsAdd(seen, s, id);
  }

  lemma TriedScanned(m: State)
    requires TriedSeenOk(m, m.triedTable)
    ensures TriedLeft(m, m.triedTable) == {} <==> TriedTableOk(m)
  {
    if TriedLeft(m, m.triedTable) == {} {
      forall id | id in m.info && m.info[id].inTried ensures Refs(m.triedTable, id) != {} {
        assert id in TriedIds(m.info) && id !in TriedLeft(m, m.triedTable);
      }
    }
  }

  lemma NewScanned(m: State)
    requires NewSeenOk(m, m.newTable)
    ensures NewLeft(m, m.newTable) == map[] <==> NewTableOk(m)
  {
    if NewLeft(m, m.newTable) == map[] {
      forall id | id in m.info && !m.info[id].inTried ensures |Refs(m.newTable, id)| == m.info[id].refCount {
        assert id in NewIds(m.info) && id !in NewLeft(m, m.newTable);
      }
    } else {
      var id :| id in NewLeft(m, m.newTable);
    }
  }

  // ---------------------------------------------------------------- the check

  /** The map and set of the first loop. */
  ghost function Counts(info: map<int, Info>, ids: set<int>): map<int, int> {
    map id | id in ids && id in info && !info[id].inTried :: info[id].refCount
  }

  method CheckEntries(a: AddrManager) returns (err: int, setTried: set<int>, mapNew: map<int, int>)
    requires a.Shape()
    ensures err == 0 <==> EntriesOk(a.View())
    ensures err == 0 ==> setTried == TriedIds(a.View().info) && mapNew == NewLeft(a.View(), map[])
  {
    ghost var m := a.View();
    setTried, mapNew := {}, map[];
    var todo := a.mapInfo.Keys;
    EntriesStart(m);
    hide EntriesWalked, EntryError, EntriesOk, NewLeft, TriedIds;
    while todo != {}
      invariant todo <= m.info.Keys && EntriesWalked(m, todo, setTried, mapNew)
      decreases |todo|
    {
      Inhabited(todo);
      var n :| n in todo;
      err := CheckEntry(a, n);
      EntriesStep(m, todo, setTried, mapNew, n);
      assert m.info[n] == a.mapInfo[n].info;
      if err != 0 {
        return;
      }
      if a.mapInfo[n].info.inTried {
        setTried := setTried + {n};
      } else {
        mapNew := mapNew[n := a.mapInfo[n].info.refCount];
      }
      todo := todo - {n};
    }
    err := 0;
    EntriesEnd(m, setTried, mapNew);
  }

  ghost predicate EntriesWalked(m: State, todo: set<int>, setTried: set<int>, mapNew: map<int, int>)
    requires m.pos.Keys == m.info.Keys
  {
    && (forall id | id in m.info && id !in todo :: EntryError(m, id) == 0)
    && setTried == (set id | id in TriedIds(m.info) && id !in todo)
    && mapNew == Counts(m.info, m.info.Keys - todo)
  }

  lemma EntriesStart(m: State)
    requires m.pos.Keys == m.info.Keys
    ensures EntriesWalked(m, m.info.Keys, {}, map[])
  {
  }

  lemma EntriesStep(m: State, todo: set<int>, setTried: set<int>, mapNew: map<int, int>, n: int)
    requires m.pos.Keys == m.info.Keys && n in todo && n in m.info && EntriesWalked(m, todo, setTried, mapNew)
    ensures EntryError(m, n) != 0 ==> !EntriesOk(m)
    ensures EntryError(m, n) == 0 ==>
      EntriesWalked(m, todo - {n}, if m.info[n].inTried then setTried + {n} else setTried,
                    if m.info[n].inTried then mapNew else mapNew[n := m.info[n].refCount])
  {
    hide EntryError;
  }

  lemma EntriesEnd(m: State, setTried: set<int>, mapNew: map<int, int>)
    requires m.pos.Keys == m.info.Keys && EntriesWalked(m, {}, setTried, mapNew)
    ensures EntriesOk(m) && setTried == TriedIds(m.info) && mapNew == NewLeft(m, map[])
  {
    forall id | id in m.info ensures Refs(map[], id) == {} {
    }
    forall id | id in m.info && !m.info[id].inTried ensures m.info[id].refCount > 0 {
      assert EntryError(m, id) == 0;
    }
  }

  method CheckEntry(a: AddrManager, n: int) returns (err: int)
    requires a.Shape() && n in a.mapInfo
    ensures n in a.View().info && err == EntryError(a.View(), n)
  {
    var info := a.mapInfo[n].info;
    assert n in a.View().info && info == a.View().info[n] && a.mapInfo[n].nRandomPos == a.View().pos[n];
    if info.inTried {
      if info.lastSuccess == 0 { return -1; }
      if info.refCount != 0 { return -2; }
    } else {
      if info.refCount < 0 || info.refCount > NEW_BUCKETS_PER_ADDRESS { return -3; }
      if info.refCount == 0 { return -4; }
    }
    if LookUp(a.mapAddr, info.addr.net) != n { return -5; }
    if a.mapInfo[n].nRandomPos < 0 || a.mapInfo[n].nRandomPos >= |a.vRandom| || a.vRandom[a.mapInfo[n].nRandomPos] != n {
      return -14;
    }
    if info.lastTry < 0 { return -6; }
    if info.lastSuccess < 0 { return -8; }
    return 0;
  }

  method CheckTried(a: AddrManager, setTried: set<int>) returns (err: int, left: set<int>)
    requires a.Shape() && setTried == TriedLeft(a.View(), map[])
    ensures err == 0 ==> TriedSeenOk(a.View(), a.View().triedTable) && left == TriedLeft(a.View(), a.View().triedTable)
    ensures err != 0 ==> !TriedTableOk(a.View())
  {
    hide TriedSeenOk, TriedLeft, TriedTableOk, Covered;
    ghost var m := a.View();
    left := setTried;
    CoverStart(m.triedTable);
    NothingSeen(m);
    var n := 0;
    while n < TRIED_BUCKET_COUNT
      invariant 0 <= n <= TRIED_BUCKET_COUNT
      invariant TriedSeenOk(m, Covered(m.triedTable, n, 0)) && left == TriedLeft(m, Covered(m.triedTable, n, 0))
    {
      var i := 0;
      while i < BUCKET_SIZE
        invariant 0 <= i <= BUCKET_SIZE
        invariant TriedSeenOk(m, Covered(m.triedTable, n, i)) && left == TriedLeft(m, Covered(m.triedTable, n, i))
      {
        err, left := CheckTriedSlot(a, n, i, left);
        if err != 0 {
          return;
        }
        i := i + 1;
      }
      CoverRow(m.triedTable, n, BUCKET_SIZE);
      n := n + 1;
    }
    CoverAll(m.triedTable, TRIED_BUCKET_COUNT);
    return 0, left;
  }

  method CheckTriedSlot(a: AddrManager, n: int, i: int, left: set<int>) returns (err: int, left': set<int>)
    requires a.Shape() && 0 <= n < TRIED_BUCKET_COUNT && 0 <= i < BUCKET_SIZE
    requires var seen := Covered(a.View().triedTable, n, i); TriedSeenOk(a.View(), seen) && left == TriedLeft(a.View(), seen)
    ensures err == 0 ==>
      var seen := Covered(a.View().triedTable, n, i + 1); TriedSeenOk(a.View(), seen) && left' == TriedLeft(a.View(), seen)
    ensures err != 0 ==> !TriedTableOk(a.View())
  {
    hide TriedSeenOk, TriedLeft, TriedTableOk, Covered;
    ghost var m := a.View();
    var s := Slot(n, i);
    left' := left;
    a.ReadTried(s);
    CoverNext(m.triedTable, n, i);
    if a.vvTried[n, i] != -1 {
      var id := a.vvTried[n, i];
      TriedScan(m, Covered(m.triedTable, n, i), s);
      if id !in left { return -11, left; }
      TriedOnList(m, Covered(m.triedTable, n, i), id);
      assert id in m.info && a.mapInfo[id].info == m.info[id];
      var addr := a.mapInfo[id].info.addr;
      if TriedSlot(a.env, addr).bucket != n { BadTriedSlot(m, s); return -17, left; }
      if a.env.posHash(addr, false, n) % BUCKET_SIZE != i { BadTriedSlot(m, s); return -18, left; }
      left' := left - {id};
    }
    err := 0;
  }

  method CheckNew(a: AddrManager, mapNew: map<int, int>) returns (err: int, left: map<int, int>)
    requires a.Shape() && EntriesCounted(a.View()) && mapNew == NewLeft(a.View(), map[])
    ensures err == 0 ==> NewSeenOk(a.View(), a.View().newTable) && left == NewLeft(a.View(), a.View().newTable)
    ensures err != 0 ==> !NewTableOk(a.View())
  {
    hide NewSeenOk, NewLeft, NewTableOk, Covered, EntriesCounted;
    ghost var m := a.View();
    left := mapNew;
    CoverStart(m.newTable);
    NothingSeen(m);
    var n := 0;
    while n < NEW_BUCKET_COUNT
      invariant 0 <= n <= NEW_BUCKET_COUNT
      invariant NewSeenOk(m, Covered(m.newTable, n, 0)) && left == NewLeft(m, Covered(m.newTable, n, 0))
    {
      var i := 0;
      while i < BUCKET_SIZE
        invariant 0 <= i <= BUCKET_SIZE
        invariant NewSeenOk(m, Covered(m.newTable, n, i)) && left == NewLeft(m, Covered(m.newTable, n, i))
      {
        err, left := CheckNewSlot(a, n, i, left);
        if err != 0 {
          return;
        }
        i := i + 1;
      }
      CoverRow(m.newTable, n, BUCKET_SIZE);
      n := n + 1;
    }
    CoverAll(m.newTable, NEW_BUCKET_COUNT);
    return 0, left;
  }

  method CheckNewSlot(a: AddrManager, n: int, i: int, left: map<int, int>) returns (err: int, left': map<int, int>)
    requires a.Shape() && 0 <= n < NEW_BUCKET_COUNT && 0 <= i < BUCKET_SIZE
    requires var seen := Covered(a.View().newTable, n, i); NewSeenOk(a.View(), seen) && left == NewLeft(a.View(), seen)
    ensures err == 0 ==>
      var seen := Covered(a.View().newTable, n, i + 1); NewSeenOk(a.View(), seen) && left' == NewLeft(a.View(), seen)
    ensures err != 0 ==> !NewTableOk(a.View())
  {
    hide NewSeenOk, NewLeft, NewTableOk, Covered;
    ghost var m := a.View();
    var s := Slot(n, i);
    left' := left;
    a.ReadNew(s);
    CoverNext(m.newTable, n, i);
    CoveredKeys(m.newTable, n, i);
    if a.vvNew[n, i] != -1 {
      var id := a.vvNew[n, i];
      NewScan(m, Covered(m.newTable, n, i), s);
      if id !in left { return -12, left; }
      assert id in m.info && a.mapInfo[id].info == m.info[id];
      NotTriedOnList(m, Covered(m.newTable, n, i), id);
      if NewSlotIn(a.env, a.mapInfo[id].info.addr, n).pos != i { BadNewSlot(m, s); return -19, left; }
      NewCountDown(m, Covered(m.newTable, n, i), s, id);
      left' := left[id := left[id] - 1];
      if left'[id] == 0 {
        left' := left' - {id};
        assert left' == left - {id};
      }
    }
    err := 0;
  }

  lemma CoveredKeys(t: map<Slot, int>, n: int, i: int)
    ensures Covered(t, n, i).Keys <= t.Keys
  {
  }

  lemma TriedOnList(m: State, seen: map<Slot, int>, id: int)
    requires id in TriedLeft(m, seen)
    ensures id in m.info && m.info[id].inTried
  {
  }

  lemma NotTriedOnList(m: State, seen: map<Slot, int>, id: int)
    requires id in NewLeft(m, seen)
    ensures id in m.info && !m.info[id].inTried
  {
  }

  /** `Check_` changes nothing and returns 0 on exactly the states it means to accept. */
  method Check(a: AddrManager) returns (err: int)
    requires a.Shape()
    ensures err == 0 <==> Accepted(a.View())
  {
    hide EntriesOk, TriedTableOk, NewTableOk, TriedSeenOk, NewSeenOk, NewLeft, TriedLeft;
    ghost var m := a.View();
    if |a.vRandom| != a.nTried + a.nNew {
      return -7;
    }
    var setTried, mapNew;
    err, setTried, mapNew := CheckEntries(a);
    if err != 0 {
      return;
    }
    CheckedEntriesCount(m);
    NothingSeen(m);
    NewIdsListed(m);
    if |setTried| != a.nTried {
      return -9;
    }
    if |mapNew| != a.nNew {
      return -10;
    }
    err, setTried := CheckTried(a, setTried);
    if err != 0 {
      return;
    }
    err, mapNew := CheckNew(a, mapNew);
    if err != 0 {
      return;
    }
    TriedScanned(m);
    NewScanned(m);
    if |setTried| != 0 {
      return -13;
    }
    if |mapNew| != 0 {
      return -15;
    }
    return 0;
  }

  lemma CheckedEntriesCount(m: State)
    requires m.pos.Keys == m.info.Keys && EntriesOk(m)
    ensures EntriesCounted(m)
  {
    forall id | id in m.info ensures m.info[id].refCount >= 0 {
      assert EntryError(m, id) == 0;
    }
  }

  lemma NewIdsListed(m: State)
    requires m.pos.Keys == m.info.Keys && EntriesOk(m)
    ensures |NewLeft(m, map[])| == |NewIds(m.info)|
  {
    forall id ensures Refs(map[], id) == {} {
    }
    forall id | id in m.info && !m.info[id].inTried ensures m.info[id].refCount > 0 {
      assert EntryError(m, id) == 0;
    }
    assert NewLeft(m, map[]).Keys == NewIds(m.info);
  }
}
