/**
 `CuckooCache::cache` (src/cuckoocache.h): a table with eight places for each element, lazily
 collected slots, and epochs that age what is kept.
 */
module CuckooCaches {
  import opened Arithmetic
  import opened CuckooState
  import opened FlagBits
  import opened Helpers

  /** `bit_packed_atomic_flags`, one flag a bit. */
  class BitPackedFlags {
    const mem: array<bv8>

    ghost function Flags(): seq<bool>
      reads mem
    {
      FlagsOf(mem[..])
    }

    /** Room for `size` flags, all of them set. */
    constructor (size: nat)
      ensures fresh(mem) && |Flags()| >= size && forall s: nat | s < |Flags()| :: Flags()[s]
    {
      mem := new bv8[(size + 7) / 8](_ => 0xFF);
      new;
      forall s: nat | s < |Flags()| ensures Flags()[s] {
        AllBits(s % 8);
      }
    }

    method Store(i: nat, b: bv8)
      requires i < mem.Length
      modifies mem
      ensures mem[..] == old(mem[..])[i := b]
    {
      mem[i] := b;
    }

    method BitSet(s: nat)
      requires s < |Flags()|
      modifies mem
      ensures Flags() == old(Flags())[s := true]
    {
      hide FlagsOf, WithBit;
      FlagsPut(mem[..], s, true);
      Store(s / 8, WithBit(mem[s / 8], s % 8, true));
    }

    method BitUnset(s: nat)
      requires s < |Flags()|
      modifies mem
      ensures Flags() == old(Flags())[s := false]
    {
      hide FlagsOf, WithBit;
      FlagsPut(mem[..], s, false);
      Store(s / 8, WithBit(mem[s / 8], s % 8, false));
    }

    method BitIsSet(s: nat) returns (set_: bool)
      requires s < |Flags()|
      ensures set_ == Flags()[s]
    {
      set_ := HasBit(mem[s / 8], s % 8);
    }
  }

  class Cache {
    const hash: Hash
    const size: nat
    const epochSize: nat
    const depthLimit: nat
    const collectionFlags: BitPackedFlags
    const table: array<Element>
    const epochFlags: array<bool>
    var epochHeuristicCounter: nat

    ghost function Collected(): seq<bool>
      reads collectionFlags.mem
    {
      collectionFlags.Flags()
    }

    ghost predicate Shaped()
      reads collectionFlags.mem
    {
      && size > 0 && table.Length == size && epochFlags.Length == size && |Collected()| >= size
      && table != collectionFlags.mem as object && epochFlags != collectionFlags.mem as object
      && depthLimit >= 1 && epochSize >= 1
    }

    /** The elements that are kept. */
    ghost function Contents(): multiset<Element>
      requires Shaped()
      reads table, collectionFlags.mem
    {
      Kept(table[..], Collected(), size)
    }

    /** Those of them that belong to the current epoch. */
    ghost function CurrentContents(): multiset<Element>
      requires Shaped()
      reads table, epochFlags, collectionFlags.mem
    {
      Kept(table[..], Aged(Collected(), epochFlags[..]), size)
    }

    /** How many of them belong to the current epoch. */
    ghost function EpochCount(): nat
      requires Shaped()
      reads epochFlags, collectionFlags.mem
    {
      Current(epochFlags[..], Collected(), size)
    }

    ghost predicate Valid()
      reads this, table, epochFlags, collectionFlags.mem
    {
      Shaped() && Placed(hash, table[..], Collected()) && EpochBound(EpochCount(), epochHeuristicCounter, epochSize)
    }

    /** `setup`; the depth limit is the binary logarithm of the size there. */
    constructor (newSize: nat, depth: nat, h: Hash)
      requires newSize < TWO_32 && depth >= 1
      ensures Valid() && Contents() == multiset{} && size == (if newSize < 2 then 2 else newSize) && hash == h
      ensures depthLimit == depth && epochSize == (if EpochShare(size) > 1 then EpochShare(size) else 1)
      ensures fresh(table) && fresh(epochFlags) && fresh(collectionFlags.mem)
    {
      hash, depthLimit := h, depth;
      var n := if newSize < 2 then 2 else newSize;
      size := n;
      table := new Element[n](_ => 0);
      collectionFlags := new BitPackedFlags(n);
      epochFlags := new bool[n](_ => false);
      var share := EpochShare(n);
      epochSize := if share > 1 then share else 1;
      epochHeuristicCounter := if share > 1 then share else 1;
      new;
      NoneCurrent(epochFlags[..], Collected(), size);
      NoneKept(table[..], Collected(), size);
    }

    /** Finds whether an element is in the table; with `erase`, its slot is marked for
        collection. What is kept is always found, and erasing it really takes it out. */
    method Contains(e: Element, erase: bool) returns (found: bool)
      requires Valid()
      modifies collectionFlags.mem
      ensures Valid() && table[..] == old(table[..])
      ensures e in old(Contents()) ==> found
      ensures Contents() == if erase && e in old(Contents()) then old(Contents()) - multiset{e} else old(Contents())
      ensures EpochCount() <= old(EpochCount()) && (!erase ==> Collected() == old(Collected()))
    {
      hide Kept, Placed, Current, Location, FlagsOf;
      var locs := Locations(hash, size, e);
      for k := 0 to CHOICES
        invariant unchanged(collectionFlags.mem)
        invariant forall j | 0 <= j < k :: table[locs[j]] != e
      {
        if table[locs[k]] == e {
          FoundFirst(hash, table[..], Collected(), e, k);
          if erase {
            EraseKept(hash, table[..], Collected(), e, k);
            CurrentPut(epochFlags[..], Collected(), size, locs[k], epochFlags[locs[k]], true);
            SelfPut(epochFlags[..], locs[k]);
            Erase(hash, table[..], Collected(), locs[k]);
            collectionFlags.BitSet(locs[k]);
          }
          return true;
        }
      }
      AbsentNotKept(hash, table[..], Collected(), e);
      KeptHas(table[..], Collected(), size, e);
      return false;
    }

    /** Before every insert: count down, or scan and, if the current epoch is full, give up
        the elements of the older one. Leaves room for one more in the bound. */
    method EpochCheck() returns (ghost aged: bool)
      requires Valid()
      modifies this`epochHeuristicCounter, epochFlags, collectionFlags.mem
      ensures Shaped() && Placed(hash, table[..], Collected())
      ensures EpochBound(EpochCount() + 1, epochHeuristicCounter, epochSize)
      ensures !aged ==> Collected() == old(Collected()) && epochFlags[..] == old(epochFlags[..])
      ensures aged ==> |Collected()| == old(|Collected()|) && forall i: nat | i < size ::
        !epochFlags[i] && Collected()[i] == old(Collected()[i] || !epochFlags[i])
      ensures aged == (old(epochHeuristicCounter) == 0 && old(EpochCount()) >= epochSize)
    {
      hide Kept, Placed, Current, Location, FlagsOf;
      aged := false;
      if epochHeuristicCounter != 0 {
        epochHeuristicCounter := epochHeuristicCounter - 1;
        return;
      }
      var epochUnusedCount := CountCurrent();
      if epochUnusedCount >= epochSize {
        aged := true;
        Age();
        NoneCurrent(epochFlags[..], Collected(), size);
        epochHeuristicCounter := epochSize;
      } else {
        var wait := if epochSize / 16 > epochSize - epochUnusedCount then epochSize / 16 else epochSize - epochUnusedCount;
        epochHeuristicCounter := if wait > 1 then wait else 1;
      }
    }

    method CountCurrent() returns (n: nat)
      requires Shaped()
      ensures n == EpochCount()
    {
      hide FlagsOf;
      n := 0;
      for i := 0 to size
        invariant n == Current(epochFlags[..], Collected(), i)
      {
        var collected := collectionFlags.BitIsSet(i);
        n := n + One(epochFlags[i] && !collected);
      }
    }

    method Age()
      requires Shaped() && Placed(hash, table[..], Collected())
      modifies epochFlags, collectionFlags.mem
      ensures Shaped() && Placed(hash, table[..], Collected()) && |Collected()| == old(|Collected()|)
      ensures forall i: nat | i < size :: !epochFlags[i] && Collected()[i] == old(Collected()[i] || !epochFlags[i])
    {
      hide Placed, FlagsOf;
      for i := 0 to size
        invariant Shaped() && Placed(hash, table[..], Collected()) && |Collected()| == old(|Collected()|)
        invariant forall j: nat | j < i :: !epochFlags[j] && Collected()[j] == old(Collected()[j] || !epochFlags[j])
        invariant forall j: nat | i <= j < size :: epochFlags[j] == old(epochFlags[j]) && Collected()[j] == old(Collected()[j])
      {
        if epochFlags[i] {
          epochFlags[i] := false;
        } else {
          Erase(hash, table[..], Collected(), i);
          collectionFlags.BitSet(i);
        }
      }
    }

    /** The first location that holds `e`. */
    method FindHolder(e: Element) returns (found: bool, k: nat)
      requires Shaped()
      ensures found ==> k < CHOICES && HeldFirst(hash, table[..], e, k)
      ensures !found ==> forall j | 0 <= j < CHOICES :: table[Locations(hash, size, e)[j]] != e
    {
      hide FlagsOf, Location;
      var locs := Locations(hash, size, e);
      for i := 0 to CHOICES
        invariant forall j | 0 <= j < i :: table[locs[j]] != e
      {
        if table[locs[i]] == e {
          return true, i;
        }
      }
      return false, 0;
    }

    /** The first location that is marked for collection. */
    method FindOpen(e: Element) returns (found: bool, k: nat)
      requires Shaped()
      ensures found ==> k < CHOICES && OpenFirst(hash, size, Collected(), e, k)
      ensures !found ==> forall j | 0 <= j < CHOICES :: !Collected()[Locations(hash, size, e)[j]]
    {
      hide FlagsOf, Location;
      var locs := Locations(hash, size, e);
      for i := 0 to CHOICES
        invariant forall j | 0 <= j < i :: !Collected()[locs[j]]
      {
        var open := collectionFlags.BitIsSet(locs[i]);
        if open {
          return true, i;
        }
      }
      return false, 0;
    }

    /** The location after `lastLoc`; `std::find` gives 8 when it is not among them, so the
        walk starts at the second location. */
    method NextChoice(e: Element, lastLoc: Option<nat>) returns (k: nat)
      requires size > 0
      ensures k == NextIndex(Locations(hash, size, e), lastLoc)
    {
      hide Location;
      var locs := Locations(hash, size, e);
      var i := 0;
      while i < CHOICES && (lastLoc == None || locs[i] != lastLoc.value)
        invariant i <= CHOICES && IndexFrom(locs, lastLoc, i) == IndexFrom(locs, lastLoc, 0)
      {
        i := i + 1;
      }
      k := (1 + i) % 8;
    }

    /** An element already in the table is kept from being collected. */
    method KeepFound(e: Element, k: nat)
      requires Shaped() && Placed(hash, table[..], Collected()) && k < CHOICES && HeldFirst(hash, table[..], e, k)
      modifies epochFlags, collectionFlags.mem
      ensures Shaped() && Placed(hash, table[..], Collected()) && EpochCount() <= old(EpochCount()) + 1
      ensures Contents() == if e in old(Contents()) then old(Contents()) else old(Contents()) + multiset{e}
      ensures e in CurrentContents() && (CurrentContents() == old(CurrentContents()) || CurrentContents() == old(CurrentContents()) + multiset{e})
    {
      hide Kept, Placed, Current, Location, FlagsOf, Aged;
      var p := Locations(hash, size, e)[k];
      KeepKept(hash, table[..], Collected(), e, k);
      CurrentPut(epochFlags[..], Collected(), size, p, true, false);
      Keep(hash, table[..], Collected(), e, k);
      KeepCurrent(table[..], epochFlags[..], Collected(), size, p, e);
      collectionFlags.BitUnset(p);
      SetEpoch(p, true);
    }

    method SetEpoch(p: nat, epoch: bool)
      requires p < epochFlags.Length
      modifies epochFlags
      ensures epochFlags[..] == old(epochFlags[..])[p := epoch]
    {
      epochFlags[p] := epoch;
    }

    method SetSlot(p: nat, e: Element)
      requires p < table.Length
      modifies table
      ensures table[..] == old(table[..])[p := e]
    {
      table[p] := e;
    }

    /** Writes an element into its first open location. */
    method PutAt(e: Element, k: nat, epoch: bool)
      requires Shaped() && Placed(hash, table[..], Collected()) && NotKept(table[..], Collected(), e)
      requires k < CHOICES && OpenFirst(hash, size, Collected(), e, k)
      modifies table, epochFlags, collectionFlags.mem
      ensures Shaped() && Placed(hash, table[..], Collected())
      ensures Contents() == old(Contents()) + multiset{e}
      ensures EpochCount() == old(EpochCount()) + One(epoch)
      ensures CurrentContents() == old(CurrentContents()) + Slot(e, !epoch)
      ensures exists x :: multiset(table[..]) + multiset{x} == old(multiset(table[..])) + multiset{e}
    {
      hide Kept, Placed, Current, Location, FlagsOf, Aged;
      var p := Locations(hash, size, e)[k];
      CurrentKeptPut(table[..], epochFlags[..], Collected(), size, p, e, epoch);
      PutOpen(hash, table[..], Collected(), e, k);
      KeptPut(table[..], Collected(), size, p, e, false);
      CurrentPut(epochFlags[..], Collected(), size, p, epoch, false);
      TablePut(table[..], p, e);
      SetSlot(p, e);
      collectionFlags.BitUnset(p);
      SetEpoch(p, epoch);
    }

    /** Swaps the carried element with the one at one of its locations, all of them kept. */
    method Displace(e: Element, k: nat, epoch: bool) returns (out_: Element, outEpoch: bool)
      requires Shaped() && Placed(hash, table[..], Collected()) && NotKept(table[..], Collected(), e)
      requires k < CHOICES && forall j | 0 <= j < CHOICES :: !Collected()[Locations(hash, size, e)[j]]
      modifies table, epochFlags
      ensures Shaped() && Placed(hash, table[..], Collected()) && NotKept(table[..], Collected(), out_)
      ensures Contents() + multiset{out_} == old(Contents()) + multiset{e}
      ensures EpochCount() + One(outEpoch) == old(EpochCount()) + One(epoch)
      ensures CurrentContents() + Slot(out_, !outEpoch) == old(CurrentContents()) + Slot(e, !epoch)
      ensures multiset(table[..]) + multiset{out_} == old(multiset(table[..])) + multiset{e}
    {
      hide Kept, Placed, Current, Location, FlagsOf, NotKept, Aged;
      var p := Locations(hash, size, e)[k];
      CurrentKeptPut(table[..], epochFlags[..], Collected(), size, p, e, epoch);
      Swap(hash, table[..], Collected(), e, k);
      KeptPut(table[..], Collected(), size, p, e, false);
      CurrentPut(epochFlags[..], Collected(), size, p, epoch, false);
      SelfPut(Collected(), p);
      TablePut(table[..], p, e);
      out_, outEpoch := table[p], epochFlags[p];
      SetSlot(p, e);
      SetEpoch(p, epoch);
    }

    /** Inserts an element: it is found, or goes in with up to `depthLimit` displacements; the
        element in hand when the depth runs out is dropped. `before` is what was kept after
        the epoch check: everything, or what belongs to the current epoch when that is full. */
    method Insert(e: Element)
      returns (ghost before: multiset<Element>, ghost present: bool, ghost dropped: Option<Element>, ghost recent: bool, ghost moves: nat)
      requires Valid()
      modifies this`epochHeuristicCounter, table, epochFlags, collectionFlags.mem
      ensures Valid() && before <= old(Contents()) && moves <= depthLimit
      ensures before == if old(epochHeuristicCounter) == 0 && old(EpochCount()) >= epochSize then old(CurrentContents()) else old(Contents())
      ensures present ==> table[..] == old(table[..]) && dropped == None
      ensures present ==> Contents() == if e in before then before else before + multiset{e}
      ensures !present ==> e !in before
      ensures !present ==> exists x :: multiset(table[..]) + multiset{x} == old(multiset(table[..])) + multiset{e}
      ensures !present && dropped == None ==> Contents() == before + multiset{e}
      ensures !present && dropped.Some? ==> Contents() + multiset{dropped.value} == before + multiset{e} && moves == depthLimit
      ensures var current :=
          if old(epochHeuristicCounter) == 0 && old(EpochCount()) >= epochSize then multiset{} else old(CurrentContents());
        if present then e in CurrentContents() && (CurrentContents() == current || CurrentContents() == current + multiset{e})
        else CurrentContents() + DroppedFrom(dropped, recent) == current + multiset{e}
    {
      hide Kept, Placed, Current, Location, FlagsOf, NotKept, EpochBound, Aged, DroppedFrom;
      dropped, recent, moves := None, false, 0;
      ghost var recents;
      before, recents := MakeRoom();
      ghost var current := EpochCount();
      var found, k := FindHolder(e);
      present := found;
      if found {
        KeepFound(e, k);
        SmallerBound(EpochCount(), current + 1, epochHeuristicCounter, epochSize);
        return;
      }
      AbsentNotKept(hash, table[..], Collected(), e);
      NotKeptNotIn(table[..], Collected(), e);
      dropped, recent, moves := Place(e);
    }

    /** The epoch check, and what is kept after it. */
    method MakeRoom() returns (ghost before: multiset<Element>, ghost recents: multiset<Element>)
      requires Valid()
      modifies this`epochHeuristicCounter, epochFlags, collectionFlags.mem
      ensures Shaped() && Placed(hash, table[..], Collected()) && EpochBound(EpochCount() + 1, epochHeuristicCounter, epochSize)
      ensures before == Contents() && recents == CurrentContents() && before <= old(Contents())
      ensures before == if old(epochHeuristicCounter) == 0 && old(EpochCount()) >= epochSize then old(CurrentContents()) else old(Contents())
      ensures recents == if old(epochHeuristicCounter) == 0 && old(EpochCount()) >= epochSize then multiset{} else old(CurrentContents())
    {
      hide Kept, Placed, Current, Location, FlagsOf, EpochBound, Aged;
      ghost var aged := EpochCheck();
      AgedKept(table[..], old(Collected()), Collected(), size);
      if aged {
        AgedIs(old(Collected()), old(epochFlags[..]), size);
        AgedKept(table[..], Aged(old(Collected()), old(epochFlags[..])), Collected(), size);
        NoneCurrentKept(table[..], epochFlags[..], Collected(), size);
      }
      before, recents := Contents(), CurrentContents();
    }

    /** The cuckoo walk for an element that is not in the table.  `recent` tells whether the one that is
        dropped belonged to the current epoch, as the new one does. */
    method Place(e: Element) returns (ghost dropped: Option<Element>, ghost recent: bool, ghost moves: nat)
      requires Shaped() && Placed(hash, table[..], Collected()) && NotKept(table[..], Collected(), e)
      requires EpochBound(EpochCount() + 1, epochHeuristicCounter, epochSize)
      modifies table, epochFlags, collectionFlags.mem
      ensures Valid() && moves <= depthLimit
      ensures exists x :: multiset(table[..]) + multiset{x} == old(multiset(table[..])) + multiset{e}
      ensures dropped == None ==> Contents() == old(Contents()) + multiset{e}
      ensures dropped.Some? ==> Contents() + multiset{dropped.value} == old(Contents()) + multiset{e} && moves == depthLimit
      ensures CurrentContents() + DroppedFrom(dropped, recent) == old(CurrentContents()) + multiset{e}
    {
      hide Kept, Placed, Current, Location, FlagsOf, NotKept, EpochBound, Aged, InHand, DroppedFrom, Slot;
      dropped, recent, moves := None, false, 0;
      ghost var current := EpochCount();
      ghost var was, wasCurrent, wasTable := Contents(), CurrentContents(), multiset(table[..]);
      var carried, epoch, lastLoc: Option<nat> := e, true, None;
      HandStart(was, wasCurrent, e);
      for depth := 0 to depthLimit
        invariant Shaped() && Placed(hash, table[..], Collected()) && NotKept(table[..], Collected(), carried)
        invariant InHand(Contents(), CurrentContents(), carried, epoch, was, wasCurrent, e)
        invariant EpochCount() + One(epoch) == current + 1
        invariant multiset(table[..]) + multiset{carried} == wasTable + multiset{e}
        invariant moves == depth
      {
        var open, at := FindOpen(carried);
        ghost var contents, recents := Contents(), CurrentContents();
        if open {
          PutAt(carried, at, epoch);
          HandPut(contents, recents, carried, epoch, Contents(), CurrentContents(), was, wasCurrent, e);
          SmallerBound(EpochCount(), current + 1, epochHeuristicCounter, epochSize);
          return;
        }
        var next := NextChoice(carried, lastLoc);
        lastLoc := Some(Locations(hash, size, carried)[next]);
        ghost var x, ex := carried, epoch;
        carried, epoch := Displace(carried, next, epoch);
        HandChanges(contents, recents, x, ex, Contents(), CurrentContents(), carried, epoch, was, wasCurrent, e);
        moves := moves + 1;
      }
      SmallerBound(EpochCount(), current + 1, epochHeuristicCounter, epochSize);
      HandDrops(Contents(), CurrentContents(), carried, epoch, was, wasCurrent, e);
      dropped, recent := Some(carried), epoch;
    }
  }

  /** What is kept, and of that what belongs to the current epoch, with the element in hand is what it was
      with the new one. */
  ghost predicate InHand(contents: multiset<Element>, current: multiset<Element>, carried: Element, epoch: bool,
                         was: multiset<Element>, wasCurrent: multiset<Element>, e: Element) {
    contents + multiset{carried} == was + multiset{e} && current + Slot(carried, !epoch) == wasCurrent + multiset{e}
  }

  lemma HandStart(contents: multiset<Element>, current: multiset<Element>, e: Element)
    ensures InHand(contents, current, e, true, contents, current, e)
  {
  }

  lemma HandChanges(a: multiset<Element>, b: multiset<Element>, x: Element, ex: bool, a': multiset<Element>, b': multiset<Element>, y: Element, ey: bool,
                    was: multiset<Element>, wasCurrent: multiset<Element>, e: Element)
    requires InHand(a, b, x, ex, was, wasCurrent, e)
    requires a' + multiset{y} == a + multiset{x} && b' + Slot(y, !ey) == b + Slot(x, !ex)
    ensures InHand(a', b', y, ey, was, wasCurrent, e)
  {
  }

  lemma HandPut(a: multiset<Element>, b: multiset<Element>, x: Element, ex: bool, a': multiset<Element>, b': multiset<Element>,
                was: multiset<Element>, wasCurrent: multiset<Element>, e: Element)
    requires InHand(a, b, x, ex, was, wasCurrent, e) && a' == a + multiset{x} && b' == b + Slot(x, !ex)
    ensures a' == was + multiset{e} && b' + DroppedFrom(None, false) == wasCurrent + multiset{e}
  {
  }

  lemma HandDrops(a: multiset<Element>, b: multiset<Element>, x: Element, ex: bool,
                  was: multiset<Element>, wasCurrent: multiset<Element>, e: Element)
    requires InHand(a, b, x, ex, was, wasCurrent, e)
    ensures a + multiset{x} == was + multiset{e} && b + DroppedFrom(Some(x), ex) == wasCurrent + multiset{e}
  {
  }

  lemma KeepCurrent(table: seq<Element>, epoch: seq<bool>, collected: seq<bool>, n: nat, p: nat, e: Element)
    requires p < n <= |table| <= |collected| && n <= |epoch| && table[p] == e
    ensures var was, now := Kept(table, Aged(collected, epoch), n), Kept(table, Aged(collected[p := false], epoch[p := true]), n);
      e in now && (now == was || now == was + multiset{e})
  {
    hide Aged;
    CurrentKeptPut(table, epoch, collected, n, p, e, true);
    SelfPutSlot(table, p);
    var was, now := Kept(table, Aged(collected, epoch), n), Kept(table, Aged(collected[p := false], epoch[p := true]), n);
    Cancel(now, was, multiset{e});
    assert now + multiset{} == now;
    AgedAt(collected[p := false], epoch[p := true], p);
    KeptHas(table, Aged(collected[p := false], epoch[p := true]), n, e);
  }

  lemma Cancel(a: multiset<Element>, b: multiset<Element>, x: multiset<Element>)
    ensures a + x == b + x ==> a == b
  {
    if a + x == b + x {
      assert a + x - x == a && b + x - x == b;
    }
  }

  lemma AgedAt(collected: seq<bool>, epoch: seq<bool>, p: nat)
    requires p < |collected| && p < |epoch|
    ensures Aged(collected, epoch)[p] == (collected[p] || !epoch[p])
  {
  }

  /** 45% of a size, in 32-bit arithmetic, and at least 1. */
  function EpochShare(n: nat): nat {
    Quotient((45 * n) % TWO_32, 100)
  }

  lemma EpochShareIs(n: nat)
    requires n < 95443718
    ensures 100 * EpochShare(n) <= 45 * n < 100 * EpochShare(n) + 100
  {
  }

  /** The dropped element, if there is one and it belonged to the current epoch. */
  function DroppedFrom(dropped: Option<Element>, recent: bool): multiset<Element> {
    if dropped.Some? && recent then multiset{dropped.value} else multiset{}
  }

  lemma SelfPutSlot(table: seq<Element>, p: nat)
    requires p < |table|
    ensures table[p := table[p]] == table
  {
  }

  /** Where `lastLoc` is among the locations from `i` on, or one past the last. */
  function IndexFrom(locs: seq<nat>, lastLoc: Option<nat>, i: nat): (r: nat)
    requires i <= |locs|
    ensures i <= r <= |locs| && (r < |locs| ==> lastLoc == Some(locs[r]))
    ensures lastLoc.Some? && lastLoc.value in locs[i..] ==> r < |locs|
    decreases |locs| - i
  {
    if i == |locs| || lastLoc == Some(locs[i]) then i else IndexFrom(locs, lastLoc, i + 1)
  }

  function NextIndex(locs: seq<nat>, lastLoc: Option<nat>): (k: nat)
    ensures k < CHOICES
  {
    (1 + IndexFrom(locs, lastLoc, 0)) % 8
  }

  /** At first the next location is the second one. */
  lemma FirstIsSecond(locs: seq<nat>)
    requires |locs| == CHOICES
    ensures NextIndex(locs, None) == 1
  {
    NoneIsAt(locs, 0);
  }

  lemma {:induction false} NoneIsAt(locs: seq<nat>, i: nat)
    requires i <= |locs|
    ensures IndexFrom(locs, None, i) == |locs|
    decreases |locs| - i
  {
    if i < |locs| {
      NoneIsAt(locs, i + 1);
    }
  }

  /** Later it is the one after the first place of the last, the first one after the last. */
  lemma NextIsAfter(locs: seq<nat>, k: nat)
    requires k < |locs| == CHOICES && forall j | 0 <= j < k :: locs[j] != locs[k]
    ensures NextIndex(locs, Some(locs[k])) == (k + 1) % CHOICES
  {
    FoundAt(locs, k, 0);
  }

  lemma {:induction false} FoundAt(locs: seq<nat>, k: nat, i: nat)
    requires i <= k < |locs| && forall j | 0 <= j < k :: locs[j] != locs[k]
    ensures IndexFrom(locs, Some(locs[k]), i) == k
    decreases k - i
  {
    if i < k {
      FoundAt(locs, k, i + 1);
    }
  }

  /** The element just put in is not the next to be moved, as long as the locations differ. */
  lemma NextMovesOn(locs: seq<nat>, lastLoc: nat)
    requires |locs| == CHOICES && lastLoc in locs && forall i, j | 0 <= i < j < |locs| :: locs[i] != locs[j]
    ensures locs[NextIndex(locs, Some(lastLoc))] != lastLoc
  {
    assert locs[0..] == locs;
  }

  ghost predicate HeldFirst(hash: Hash, table: seq<Element>, e: Element, k: nat)
    requires |table| > 0 && k < CHOICES
  {
    var locs := Locations(hash, |table|, e);
    table[locs[k]] == e && forall j | 0 <= j < k :: table[locs[j]] != e
  }

  ghost predicate OpenFirst(hash: Hash, size: nat, collected: seq<bool>, e: Element, k: nat)
    requires 0 < size <= |collected| && k < CHOICES
  {
    var locs := Locations(hash, size, e);
    collected[locs[k]] && forall j | 0 <= j < k :: !collected[locs[j]]
  }

  lemma SmallerBound(a: nat, b: nat, counter: nat, epochSize: nat)
    requires a <= b && EpochBound(b, counter, epochSize)
    ensures EpochBound(a, counter, epochSize)
  {
  }

  lemma TablePut(table: seq<Element>, p: nat, e: Element)
    requires p < |table|
    ensures multiset(table[p := e]) + multiset{table[p]} == multiset(table) + multiset{e}
  {
  }

  lemma NotKeptNotIn(table: seq<Element>, collected: seq<bool>, e: Element)
    requires |table| <= |collected| && NotKept(table, collected, e)
    ensures e !in Kept(table, collected, |table|)
  {
    KeptHas(table, collected, |table|, e);
  }

  /** Marking more slots for collection only takes elements away. */
  lemma {:induction false} AgedKept(table: seq<Element>, was: seq<bool>, now: seq<bool>, n: nat)
    requires n <= |table| <= |was| == |now| && forall i: nat | i < n :: was[i] ==> now[i]
    ensures Kept(table, now, n) <= Kept(table, was, n)
    ensures (forall i: nat | i < n :: was[i] == now[i]) ==> Kept(table, now, n) == Kept(table, was, n)
  {
    if n > 0 {
      AgedKept(table, was, now, n - 1);
    }
  }

  lemma KeepKept(hash: Hash, table: seq<Element>, collected: seq<bool>, e: Element, k: nat)
    requires Placed(hash, table, collected) && k < CHOICES && HeldFirst(hash, table, e, k)
    ensures var kept := Kept(table, collected, |table|);
      Kept(table, collected[Locations(hash, |table|, e)[k] := false], |table|) == if e in kept then kept else kept + multiset{e}
  {
    hide Kept, Locations;
    var p := Locations(hash, |table|, e)[k];
    FoundFirst(hash, table, collected, e, k);
    KeptPut(table, collected, |table|, p, e, false);
    SelfPut(table, p);
    SelfPut(collected, p);
    var was, now := Kept(table, collected, |table|), Kept(table, collected[p := false], |table|);
    if e !in was {
      assert now + multiset{} == was + multiset{e};
    }
  }

  lemma SelfPut<T>(s: seq<T>, i: nat)
    requires i < |s|
    ensures s[i := s[i]] == s
  {
  }

  lemma {:induction false} NoneKept(table: seq<Element>, collected: seq<bool>, n: nat)
    requires n <= |table| <= |collected| && forall i: nat | i < n :: collected[i]
    ensures Kept(table, collected, n) == multiset{}
  {
    if n > 0 {
      NoneKept(table, collected, n - 1);
    }
  }

  /** If an element is kept, it is kept in the first slot found to hold it. */
  lemma FoundFirst(hash: Hash, table: seq<Element>, collected: seq<bool>, e: Element, k: nat)
    requires Placed(hash, table, collected) && k < CHOICES
    requires var locs := Locations(hash, |table|, e); table[locs[k]] == e && forall j | 0 <= j < k :: table[locs[j]] != e
    ensures e in Kept(table, collected, |table|) <==> !collected[Locations(hash, |table|, e)[k]]
  {
    KeptHas(table, collected, |table|, e);
    var locs := Locations(hash, |table|, e);
    if i: nat :| i < |table| && !collected[i] && table[i] == e {
      assert FirstHolder(table, locs, e, i);
      var l :| 0 <= l < |locs| && locs[l] == i && forall j | 0 <= j < l :: table[locs[j]] != e;
      assert l == k;
    }
  }

  lemma EraseKept(hash: Hash, table: seq<Element>, collected: seq<bool>, e: Element, k: nat)
    requires Placed(hash, table, collected) && k < CHOICES
    requires var locs := Locations(hash, |table|, e); table[locs[k]] == e && forall j | 0 <= j < k :: table[locs[j]] != e
    ensures var kept := Kept(table, collected, |table|);
      Kept(table, collected[Locations(hash, |table|, e)[k] := true], |table|) == if e in kept then kept - multiset{e} else kept
  {
    hide Kept, Locations;
    var p := Locations(hash, |table|, e)[k];
    FoundFirst(hash, table, collected, e, k);
    KeptPut(table, collected, |table|, p, e, true);
    SelfPut(table, p);
    var was, now := Kept(table, collected, |table|), Kept(table, collected[p := true], |table|);
    if e in was {
      assert now + multiset{e} == was;
    } else {
      assert now + multiset{} == was;
    }
  }
}
