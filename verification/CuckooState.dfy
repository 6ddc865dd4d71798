/**
 The cuckoo cache (src/cuckoocache.h) on values: where an element may be, which elements are
 kept, and what a write does to both.
 */
module CuckooState {
  import opened Arithmetic

  type Element = nat

  const CHOICES: nat := 8
  const TWO_32: nat := 0x1_0000_0000

  /** The `k`-th hash of an element. */
  type Hash = (nat, Element) -> nat

  /** `compute_hashes`: a 32-bit hash taken as a fraction of the table. */
  function Location(hash: Hash, size: nat, e: Element, k: nat): (loc: nat)
    requires size > 0
    ensures loc < size
  {
    FractionBelow(hash(k, e) % TWO_32, size);
    hash(k, e) % TWO_32 * size / TWO_32
  }

  lemma FractionBelow(h: nat, size: nat)
    requires h < TWO_32 && size > 0
    ensures h * size / TWO_32 < size
  {
    MulStep(size, h, TWO_32);
    DivBelow(h * size, TWO_32, size);
  }

  function Locations(hash: Hash, size: nat, e: Element): (locs: seq<nat>)
    requires size > 0
    ensures |locs| == CHOICES && forall k | 0 <= k < CHOICES :: locs[k] < size
  {
    seq(CHOICES, k requires 0 <= k < CHOICES => Location(hash, size, e, k))
  }

  // ---------------------------------------------------------------- where elements are

  /** Slot `i` is the first of `locs` that holds `e`. */
  ghost predicate FirstHolder(table: seq<Element>, locs: seq<nat>, e: Element, i: nat)
    requires forall k | 0 <= k < |locs| :: locs[k] < |table|
  {
    exists k | 0 <= k < |locs| :: locs[k] == i && table[i] == e && forall j | 0 <= j < k :: table[locs[j]] != e
  }

  /** Every slot that is not marked for collection is the first place where its element
      would be looked for and found. */
  ghost predicate Placed(hash: Hash, table: seq<Element>, collected: seq<bool>) {
    && |collected| >= |table| > 0
    && forall i: nat | i < |table| && !collected[i] :: FirstHolder(table, Locations(hash, |table|, table[i]), table[i], i)
  }

  ghost predicate NotKept(table: seq<Element>, collected: seq<bool>, e: Element)
    requires |collected| >= |table|
  {
    forall i: nat | i < |table| && !collected[i] :: table[i] != e
  }

  /** An element that is not at its locations is not kept anywhere. */
  lemma AbsentNotKept(hash: Hash, table: seq<Element>, collected: seq<bool>, e: Element)
    requires Placed(hash, table, collected)
    requires forall k | 0 <= k < CHOICES :: table[Locations(hash, |table|, e)[k]] != e
    ensures NotKept(table, collected, e)
  {
    forall i: nat | i < |table| && !collected[i] ensures table[i] != e {
      assert FirstHolder(table, Locations(hash, |table|, table[i]), table[i], i);
    }
  }

  /** Hence no element is kept twice. */
  lemma KeptOnce(hash: Hash, table: seq<Element>, collected: seq<bool>, i: nat, j: nat)
    requires Placed(hash, table, collected) && i < |table| && j < |table| && !collected[i] && !collected[j]
    requires table[i] == table[j]
    ensures i == j
  {
    var locs := Locations(hash, |table|, table[i]);
    var k :| 0 <= k < |locs| && locs[k] == i && forall h | 0 <= h < k :: table[locs[h]] != table[i];
    var l :| 0 <= l < |locs| && locs[l] == j && forall h | 0 <= h < l :: table[locs[h]] != table[i];
    assert k == l;
  }

  lemma FirstHolderPut(table: seq<Element>, locs: seq<nat>, x: Element, i: nat, p: nat, e: Element)
    requires forall k | 0 <= k < |locs| :: locs[k] < |table|
    requires FirstHolder(table, locs, x, i) && p < |table| && p != i && e != x
    ensures FirstHolder(table[p := e], locs, x, i)
  {
    var k :| 0 <= k < |locs| && locs[k] == i && table[i] == x && forall j | 0 <= j < k :: table[locs[j]] != x;
    assert locs[k] == i;
  }

  /** Writing an element into the first of its locations that is marked for collection. */
  lemma PutOpen(hash: Hash, table: seq<Element>, collected: seq<bool>, e: Element, k: nat)
    requires Placed(hash, table, collected) && NotKept(table, collected, e) && k < CHOICES
    requires var locs := Locations(hash, |table|, e); collected[locs[k]] && forall j | 0 <= j < k :: !collected[locs[j]]
    ensures var p := Locations(hash, |table|, e)[k]; Placed(hash, table[p := e], collected[p := false])
  {
    var locs := Locations(hash, |table|, e);
    var p := locs[k];
    var table' := table[p := e];
    forall i: nat | i < |table| && !collected[p := false][i]
      ensures FirstHolder(table', Locations(hash, |table|, table'[i]), table'[i], i)
    {
      if i == p {
        assert locs[k] == p && forall j | 0 <= j < k :: table'[locs[j]] != e;
      } else {
        FirstHolderPut(table, Locations(hash, |table|, table[i]), table[i], i, p, e);
      }
    }
  }

  /** Swapping it with an element at one of its locations when all of them are kept. */
  lemma Swap(hash: Hash, table: seq<Element>, collected: seq<bool>, e: Element, k: nat)
    requires Placed(hash, table, collected) && NotKept(table, collected, e) && k < CHOICES
    requires forall j | 0 <= j < CHOICES :: !collected[Locations(hash, |table|, e)[j]]
    ensures var p := Locations(hash, |table|, e)[k];
      Placed(hash, table[p := e], collected) && NotKept(table[p := e], collected, table[p])
  {
    var locs := Locations(hash, |table|, e);
    var p := locs[k];
    var table' := table[p := e];
    forall i: nat | i < |table| && !collected[i]
      ensures FirstHolder(table', Locations(hash, |table|, table'[i]), table'[i], i)
      ensures table'[i] != table[p]
    {
      if i == p {
        HolderOfNew(table, locs, e, k);
      } else {
        FirstHolderPut(table, Locations(hash, |table|, table[i]), table[i], i, p, e);
        if table[i] == table[p] {
          KeptOnce(hash, table, collected, i, p);
        }
      }
    }
  }

  lemma HolderOfNew(table: seq<Element>, locs: seq<nat>, e: Element, k: nat)
    requires forall j | 0 <= j < |locs| :: locs[j] < |table| && table[locs[j]] != e
    requires k < |locs|
    ensures FirstHolder(table[locs[k] := e], locs, e, locs[k])
  {
    HolderFrom(table[locs[k] := e], locs, e, locs[k], k);
  }

  /** A slot that is the only holder is the first. */
  lemma {:induction false} HolderFrom(table: seq<Element>, locs: seq<nat>, e: Element, p: nat, k: nat)
    requires forall j | 0 <= j < |locs| :: locs[j] < |table| && (table[locs[j]] == e ==> locs[j] == p)
    requires k < |locs| && locs[k] == p && table[p] == e
    ensures FirstHolder(table, locs, e, p)
  {
    if j :| 0 <= j < k && table[locs[j]] == e {
      HolderFrom(table, locs, e, p, j);
    } else {
      assert locs[k] == p;
    }
  }

  lemma Erase(hash: Hash, table: seq<Element>, collected: seq<bool>, i: nat)
    requires Placed(hash, table, collected) && i < |table|
    ensures Placed(hash, table, collected[i := true])
  {
  }

  /** Keeping the first slot found to hold an element. */
  lemma Keep(hash: Hash, table: seq<Element>, collected: seq<bool>, e: Element, k: nat)
    requires Placed(hash, table, collected) && k < CHOICES
    requires var locs := Locations(hash, |table|, e); table[locs[k]] == e && forall j | 0 <= j < k :: table[locs[j]] != e
    ensures Placed(hash, table, collected[Locations(hash, |table|, e)[k] := false])
  {
    var locs := Locations(hash, |table|, e);
    assert FirstHolder(table, locs, e, locs[k]);
  }

  // ---------------------------------------------------------------- which elements are kept

  /** The elements of the slots before `n` not marked for collection. */
  ghost function Kept(table: seq<Element>, collected: seq<bool>, n: nat): multiset<Element>
    requires n <= |table| <= |collected|
  {
    if n == 0 then multiset{} else
      Kept(table, collected, n - 1) + if collected[n - 1] then multiset{} else multiset{table[n - 1]}
  }

  lemma {:induction false} KeptBefore(table: seq<Element>, collected: seq<bool>, n: nat, i: nat, x: Element, c: bool)
    requires n <= i < |table| <= |collected|
    ensures Kept(table[i := x], collected[i := c], n) == Kept(table, collected, n)
  {
    if n > 0 {
      KeptBefore(table, collected, n - 1, i, x, c);
    }
  }

  function Slot(x: Element, c: bool): multiset<Element> {
    if c then multiset{} else multiset{x}
  }

  lemma {:induction false} KeptPut(table: seq<Element>, collected: seq<bool>, n: nat, i: nat, x: Element, c: bool)
    requires i < n <= |table| <= |collected|
    ensures Kept(table[i := x], collected[i := c], n) + Slot(table[i], collected[i]) == Kept(table, collected, n) + Slot(x, c)
  {
    if n - 1 == i {
      KeptBefore(table, collected, n - 1, i, x, c);
    } else {
      KeptPut(table, collected, n - 1, i, x, c);
      Shift(Kept(table[i := x], collected[i := c], n - 1), Slot(table[i], collected[i]),
            Kept(table, collected, n - 1), Slot(x, c), Slot(table[n - 1], collected[n - 1]));
    }
  }

  lemma Shift(a: multiset<Element>, b: multiset<Element>, c: multiset<Element>, d: multiset<Element>, x: multiset<Element>)
    requires a + b == c + d
    ensures (a + x) + b == (c + x) + d
  {
    assert (a + x) + b == (a + b) + x;
    assert (c + x) + d == (c + d) + x;
  }

  lemma {:induction false} KeptHas(table: seq<Element>, collected: seq<bool>, n: nat, e: Element)
    requires n <= |table| <= |collected|
    ensures e in Kept(table, collected, n) <==> exists i: nat :: i < n && !collected[i] && table[i] == e
  {
    if n > 0 {
      KeptHas(table, collected, n - 1, e);
    }
  }

  /** The collection flags once everything outside the current epoch is given up. */
  function Aged(collected: seq<bool>, epoch: seq<bool>): (r: seq<bool>)
    ensures |r| == |collected|
  {
    seq(|collected|, i requires 0 <= i < |collected| => collected[i] || (i < |epoch| && !epoch[i]))
  }

  lemma AgedIs(collected: seq<bool>, epoch: seq<bool>, n: nat)
    requires n <= |epoch| && n <= |collected|
    ensures forall i: nat | i < n :: Aged(collected, epoch)[i] == (collected[i] || !epoch[i])
  {
  }

  /** What a write to one slot does to those of the current epoch. */
  lemma CurrentKeptPut(table: seq<Element>, epoch: seq<bool>, collected: seq<bool>, n: nat, i: nat, x: Element, b: bool)
    requires i < n <= |table| <= |collected| && n <= |epoch|
    ensures Kept(table[i := x], Aged(collected[i := false], epoch[i := b]), n) + Slot(table[i], collected[i] || !epoch[i])
      == Kept(table, Aged(collected, epoch), n) + Slot(x, !b)
  {
    assert Aged(collected[i := false], epoch[i := b]) == Aged(collected, epoch)[i := !b];
    KeptPut(table, Aged(collected, epoch), n, i, x, !b);
  }

  /** With no epoch flag set nothing belongs to the current epoch. */
  lemma {:induction false} NoneCurrentKept(table: seq<Element>, epoch: seq<bool>, collected: seq<bool>, n: nat)
    requires n <= |table| <= |collected| && n <= |epoch| && forall i | 0 <= i < n :: !epoch[i]
    ensures Kept(table, Aged(collected, epoch), n) == multiset{}
  {
    if n > 0 {
      NoneCurrentKept(table, epoch, collected, n - 1);
    }
  }

  // ---------------------------------------------------------------- the current epoch

  /** Slots before `n` in the current epoch that are not marked for collection. */
  function Current(epoch: seq<bool>, collected: seq<bool>, n: nat): nat
    requires n <= |epoch| <= |collected|
  {
    if n == 0 then 0 else Current(epoch, collected, n - 1) + One(epoch[n - 1] && !collected[n - 1])
  }

  function One(b: bool): nat {
    if b then 1 else 0
  }

  lemma {:induction false} CurrentBefore(epoch: seq<bool>, collected: seq<bool>, n: nat, i: nat, x: bool, c: bool)
    requires n <= i < |epoch| <= |collected|
    ensures Current(epoch[i := x], collected[i := c], n) == Current(epoch, collected, n)
  {
    if n > 0 {
      CurrentBefore(epoch, collected, n - 1, i, x, c);
    }
  }

  lemma {:induction false} CurrentPut(epoch: seq<bool>, collected: seq<bool>, n: nat, i: nat, x: bool, c: bool)
    requires i < n <= |epoch| <= |collected|
    ensures Current(epoch[i := x], collected[i := c], n) ==
      Current(epoch, collected, n) - One(epoch[i] && !collected[i]) + One(x && !c)
  {
    if n - 1 == i {
      CurrentBefore(epoch, collected, n - 1, i, x, c);
    } else {
      CurrentPut(epoch, collected, n - 1, i, x, c);
    }
  }

  lemma {:induction false} NoneCurrent(epoch: seq<bool>, collected: seq<bool>, n: nat)
    requires n <= |epoch| <= |collected| && forall i: nat | i < n :: !epoch[i] || collected[i]
    ensures Current(epoch, collected, n) == 0
  {
    if n > 0 {
      NoneCurrent(epoch, collected, n - 1);
    }
  }

  /** How far the current epoch may have grown, with the inserts still allowed before the
      next scan. */
  predicate EpochBound(current: nat, counter: nat, epochSize: nat) {
    current + counter <= epochSize + if epochSize / 16 > 1 then epochSize / 16 else 1
  }
}
