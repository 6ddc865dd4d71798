/**
 Partial Merkle trees (src/merkleblock.h, src/merkleblock.cpp) on values: the shape of the
 tree, the bits and hashes that stand for a selection of leaves, what reading them back
 yields, and why a proof against the right root cannot lie.
 */
module MerkleTree {
  import opened Arithmetic
  import opened Helpers

  type Digest = nat

  type Combine = (Digest, Digest) -> Digest

  ghost predicate Injective(f: Combine) {
    forall a, b, c, d :: f(a, b) == f(c, d) ==> a == c && b == d
  }

  // ---------------------------------------------------------------- shape

  /** `CalcTreeWidth`. */
  function Width(n: nat, h: nat): nat {
    (n + Pow2(h) - 1) / Pow2(h)
  }

  /** The first leaf below a node. */
  function First(h: nat, pos: nat): nat {
    pos * Pow2(h)
  }

  /** One past the last leaf below a node, in a tree of `n` leaves. */
  function End(n: nat, h: nat, pos: nat): nat {
    var e := First(h, pos + 1);
    if e < n then e else n
  }

  lemma Halves(h: nat, pos: nat)
    requires h > 0
    ensures First(h - 1, 2 * pos) == First(h, pos) && First(h - 1, 2 * pos + 2) == First(h, pos + 1)
    ensures First(h, pos) < First(h - 1, 2 * pos + 1) < First(h, pos + 1)
  {
    var x := Pow2(h - 1);
    assert pos * (2 * x) == (2 * pos) * x;
    assert (pos + 1) * (2 * x) == (2 * pos + 2) * x;
    assert (2 * pos + 1) * x == (2 * pos) * x + x;
    assert (2 * pos + 2) * x == (2 * pos + 1) * x + x;
  }

  /** A position is inside a row exactly when the node has a leaf below it. */
  lemma InsideRow(n: nat, h: nat, pos: nat)
    ensures pos < Width(n, h) <==> First(h, pos) < n
  {
    var x, w := Pow2(h), Width(n, h);
    DivParts(n + x - 1, x);
    MulStep(x, pos, w);
    if w <= pos {
      MulMonotone(x, w, pos);
    }
  }

  /** Two nodes of a row share no leaf and come in order. */
  lemma RowOrder(h: nat, pos: nat)
    ensures First(h, pos) < First(h, pos + 1)
  {
    assert (pos + 1) * Pow2(h) == pos * Pow2(h) + Pow2(h);
  }

  /** The number of levels above the leaves. */
  ghost predicate IsHeight(n: nat, h: nat) {
    Width(n, h) <= 1 && forall k: nat | k < h :: Width(n, k) > 1
  }

  /** The root of a tree of the right height has every leaf below it. */
  lemma RootCovers(n: nat, h: nat)
    requires n > 0 && IsHeight(n, h)
    ensures First(h, 0) == 0 && End(n, h, 0) == n
  {
    InsideRow(n, h, 1);
  }

  // ---------------------------------------------------------------- the full tree

  /** `CalcHash`: a missing right child counts as a copy of the left one. */
  function CalcHash(f: Combine, txids: seq<Digest>, h: nat, pos: nat): Digest
    requires First(h, pos) < |txids|
  {
    if h == 0 then txids[pos] else
      Halves(h, pos);
      var left := CalcHash(f, txids, h - 1, 2 * pos);
      var right := if First(h - 1, 2 * pos + 1) < |txids| then CalcHash(f, txids, h - 1, 2 * pos + 1) else left;
      f(left, right)
  }

  ghost predicate Distinct(txids: seq<Digest>) {
    forall i, j | 0 <= i < j < |txids| :: txids[i] != txids[j]
  }

  /** Equal hashes in one row mean equal first leaves. */
  lemma {:induction false} SameHashSameLeaf(f: Combine, txids: seq<Digest>, h: nat, p: nat, q: nat)
    requires Injective(f) && First(h, p) < |txids| && First(h, q) < |txids|
    requires CalcHash(f, txids, h, p) == CalcHash(f, txids, h, q)
    ensures txids[First(h, p)] == txids[First(h, q)]
  {
    if h > 0 {
      Halves(h, p);
      Halves(h, q);
      SameHashSameLeaf(f, txids, h - 1, 2 * p, 2 * q);
    }
  }

  /** So among distinct leaves two siblings never have the same hash. */
  lemma SiblingsDiffer(f: Combine, txids: seq<Digest>, h: nat, pos: nat)
    requires Injective(f) && Distinct(txids) && First(h, pos + 1) < |txids|
    ensures First(h, pos) < |txids| && CalcHash(f, txids, h, pos) != CalcHash(f, txids, h, pos + 1)
  {
    RowOrder(h, pos);
    if CalcHash(f, txids, h, pos) == CalcHash(f, txids, h, pos + 1) {
      SameHashSameLeaf(f, txids, h, pos, pos + 1);
    }
  }

  // ---------------------------------------------------------------- building

  predicate AnyMatch(mask: seq<bool>, lo: nat, hi: nat)
    requires hi <= |mask|
  {
    exists p | lo <= p < hi :: mask[p]
  }

  /** The flag bits of the part of the tree below a node, depth first. */
  function Bits(mask: seq<bool>, h: nat, pos: nat): seq<bool>
    requires First(h, pos) < |mask|
  {
    var parent := AnyMatch(mask, First(h, pos), End(|mask|, h, pos));
    if h == 0 || !parent then [parent] else
      Halves(h, pos);
      [parent] + Bits(mask, h - 1, 2 * pos) + if First(h - 1, 2 * pos + 1) < |mask| then Bits(mask, h - 1, 2 * pos + 1) else []
  }

  /** The hashes that go with them. */
  function Hashes(f: Combine, txids: seq<Digest>, mask: seq<bool>, h: nat, pos: nat): seq<Digest>
    requires |mask| == |txids| && First(h, pos) < |txids|
  {
    if h == 0 || !AnyMatch(mask, First(h, pos), End(|mask|, h, pos)) then [CalcHash(f, txids, h, pos)] else
      Halves(h, pos);
      Hashes(f, txids, mask, h - 1, 2 * pos)
      + if First(h - 1, 2 * pos + 1) < |mask| then Hashes(f, txids, mask, h - 1, 2 * pos + 1) else []
  }

  /** The selected positions of a range, in order. */
  function Selected(mask: seq<bool>, lo: nat, hi: nat): seq<nat>
    requires lo <= hi <= |mask|
    decreases hi - lo
  {
    if lo == hi then [] else (if mask[lo] then [lo] else []) + Selected(mask, lo + 1, hi)
  }

  lemma {:induction false} SelectedSplit(mask: seq<bool>, lo: nat, mid: nat, hi: nat)
    requires lo <= mid <= hi <= |mask|
    ensures Selected(mask, lo, hi) == Selected(mask, lo, mid) + Selected(mask, mid, hi)
    decreases mid - lo
  {
    if lo < mid {
      SelectedSplit(mask, lo + 1, mid, hi);
    }
  }

  lemma {:induction false} NoneSelected(mask: seq<bool>, lo: nat, hi: nat)
    requires lo <= hi <= |mask|
    ensures Selected(mask, lo, hi) == [] <==> !AnyMatch(mask, lo, hi)
    decreases hi - lo
  {
    if lo < hi {
      NoneSelected(mask, lo + 1, hi);
    }
  }

  lemma {:induction false} SelectedIs(mask: seq<bool>, lo: nat, hi: nat)
    requires lo <= hi <= |mask|
    ensures forall p :: p in Selected(mask, lo, hi) <==> lo <= p < hi && mask[p]
    decreases hi - lo
  {
    if lo < hi {
      SelectedIs(mask, lo + 1, hi);
    }
  }

  lemma {:induction false} SelectedIncreasing(mask: seq<bool>, lo: nat, hi: nat)
    requires lo <= hi <= |mask|
    ensures Increasing(Selected(mask, lo, hi))
    decreases hi - lo
  {
    if lo < hi {
      SelectedIncreasing(mask, lo + 1, hi);
      SelectedIs(mask, lo + 1, hi);
      var rest := Selected(mask, lo + 1, hi);
      LowerFirst(if mask[lo] then [lo] else [], rest);
    }
  }

  lemma LowerFirst(a: seq<nat>, rest: seq<nat>)
    requires Increasing(rest) && |a| <= 1 && (|a| == 1 ==> forall p <- rest :: a[0] < p)
    ensures Increasing(a + rest)
  {
    assert forall i | 0 <= i < |rest| :: rest[i] in rest;
  }

  ghost predicate Increasing(s: seq<nat>) {
    forall i, j | 0 <= i < j < |s| :: s[i] < s[j]
  }

  // ---------------------------------------------------------------- reading back

  /** What `TraverseAndExtract` has at the end of a node: the node's hash, the cursors, the
      matches so far with their positions, and whether anything was wrong. */
  datatype Reading = Reading(hash: Digest, bitsUsed: nat, hashUsed: nat, matches: seq<Digest>, indices: seq<nat>, bad: bool)

  /** `TraverseAndExtract` for a tree said to have `n` leaves. */
  function Extract(f: Combine, n: nat, bits: seq<bool>, hashes: seq<Digest>, h: nat, pos: nat, r: Reading): Reading {
    if r.bitsUsed >= |bits| then r.(hash := 0, bad := true)
    else
      var parent, r1 := bits[r.bitsUsed], r.(bitsUsed := r.bitsUsed + 1);
      if h == 0 || !parent then
        if r1.hashUsed >= |hashes| then r1.(hash := 0, bad := true)
        else
          var x, r2 := hashes[r1.hashUsed], r1.(hashUsed := r1.hashUsed + 1);
          if h == 0 && parent then r2.(hash := x, matches := r2.matches + [x], indices := r2.indices + [pos])
          else r2.(hash := x)
      else
        var left := Extract(f, n, bits, hashes, h - 1, 2 * pos, r1);
        if 2 * pos + 1 < Width(n, h - 1) then
          var right := Extract(f, n, bits, hashes, h - 1, 2 * pos + 1, left);
          right.(hash := f(left.hash, right.hash), bad := right.bad || right.hash == left.hash)
        else left.(hash := f(left.hash, left.hash))
  }

  /** A node read from a set bit puts its children together. */
  lemma Descended(f: Combine, n: nat, bits: seq<bool>, hashes: seq<Digest>, h: nat, pos: nat, r: Reading)
    requires r.bitsUsed < |bits| && h > 0 && bits[r.bitsUsed]
    ensures var left := Extract(f, n, bits, hashes, h - 1, 2 * pos, r.(bitsUsed := r.bitsUsed + 1));
      var right := Extract(f, n, bits, hashes, h - 1, 2 * pos + 1, left);
      Extract(f, n, bits, hashes, h, pos, r) ==
        if 2 * pos + 1 < Width(n, h - 1)
        then right.(hash := f(left.hash, right.hash), bad := right.bad || right.hash == left.hash)
        else left.(hash := f(left.hash, left.hash))
  {
  }

  /** A node whose hash is stored, or for which the bits or hashes have run out. */
  lemma NotDescended(f: Combine, n: nat, bits: seq<bool>, hashes: seq<Digest>, h: nat, pos: nat, r: Reading)
    ensures r.bitsUsed >= |bits| ==> Extract(f, n, bits, hashes, h, pos, r) == r.(hash := 0, bad := true)
    ensures r.bitsUsed < |bits| && (h == 0 || !bits[r.bitsUsed]) ==>
      var parent, r1 := bits[r.bitsUsed], r.(bitsUsed := r.bitsUsed + 1);
      Extract(f, n, bits, hashes, h, pos, r) ==
        if r.hashUsed >= |hashes| then r1.(hash := 0, bad := true)
        else if h == 0 && parent then
          r1.(hash := hashes[r.hashUsed], hashUsed := r.hashUsed + 1, matches := r.matches + [hashes[r.hashUsed]], indices := r.indices + [pos])
        else r1.(hash := hashes[r.hashUsed], hashUsed := r.hashUsed + 1)
  {
  }

  /** The hash of whatever came before plays no part. */
  lemma {:induction false} HashIgnored(f: Combine, n: nat, bits: seq<bool>, hashes: seq<Digest>, h: nat, pos: nat, r: Reading, x: Digest)
    ensures Extract(f, n, bits, hashes, h, pos, r.(hash := x)) == Extract(f, n, bits, hashes, h, pos, r)
  {
    hide Extract, Width;
    NotDescended(f, n, bits, hashes, h, pos, r);
    NotDescended(f, n, bits, hashes, h, pos, r.(hash := x));
    if r.bitsUsed < |bits| && h > 0 && bits[r.bitsUsed] {
      Descended(f, n, bits, hashes, h, pos, r);
      Descended(f, n, bits, hashes, h, pos, r.(hash := x));
      HashIgnored(f, n, bits, hashes, h - 1, 2 * pos, r.(bitsUsed := r.bitsUsed + 1), x);
    }
  }

  lemma HashInside(f: Combine, txids: seq<Digest>, h: nat, pos: nat)
    requires h > 0 && First(h, pos) < |txids|
    ensures First(h - 1, 2 * pos) < |txids|
    ensures CalcHash(f, txids, h, pos) ==
      if First(h - 1, 2 * pos + 1) < |txids|
      then f(CalcHash(f, txids, h - 1, 2 * pos), CalcHash(f, txids, h - 1, 2 * pos + 1))
      else f(CalcHash(f, txids, h - 1, 2 * pos), CalcHash(f, txids, h - 1, 2 * pos))
  {
    Halves(h, pos);
  }

  // ---------------------------------------------------------------- soundness

  /** `e` comes after `r`: nothing reported is taken back and an error is never forgotten. */
  ghost predicate After(r: Reading, e: Reading) {
    && |e.matches| == |e.indices| >= |r.indices| == |r.matches|
    && e.matches[..|r.matches|] == r.matches && e.indices[..|r.indices|] == r.indices
    && (r.bad ==> e.bad)
  }

  lemma AfterAfter(r: Reading, m: Reading, e: Reading)
    requires After(r, m) && After(m, e)
    ensures After(r, e)
  {
    assert e.matches[..|r.matches|] == e.matches[..|m.matches|][..|r.matches|];
    assert e.indices[..|r.indices|] == e.indices[..|m.indices|][..|r.indices|];
  }

  lemma {:induction false} ExtractAfter(f: Combine, n: nat, bits: seq<bool>, hashes: seq<Digest>, h: nat, pos: nat, r: Reading)
    requires |r.matches| == |r.indices|
    ensures After(r, Extract(f, n, bits, hashes, h, pos, r))
  {
    if r.bitsUsed < |bits| && h > 0 && bits[r.bitsUsed] {
      var r1 := r.(bitsUsed := r.bitsUsed + 1);
      ExtractAfter(f, n, bits, hashes, h - 1, 2 * pos, r1);
      var left := Extract(f, n, bits, hashes, h - 1, 2 * pos, r1);
      if 2 * pos + 1 < Width(n, h - 1) {
        ExtractAfter(f, n, bits, hashes, h - 1, 2 * pos + 1, left);
        AfterAfter(r1, left, Extract(f, n, bits, hashes, h - 1, 2 * pos + 1, left));
      }
    }
  }

  /** The reported pairs from `from` on are true and lie in `[lo, hi)` in increasing order. */
  ghost predicate Honest(txids: seq<Digest>, e: Reading, from: nat, lo: nat, hi: nat) {
    && |e.matches| == |e.indices|
    && (forall k | from <= k < |e.indices| ::
          lo <= e.indices[k] < hi && e.indices[k] < |txids| && txids[e.indices[k]] == e.matches[k])
    && (forall j, k | from <= j < k < |e.indices| :: e.indices[j] < e.indices[k])
  }

  lemma HonestJoin(txids: seq<Digest>, m: Reading, e: Reading, from: nat, lo: nat, mid: nat, hi: nat)
    requires After(m, e) && from <= |m.indices| && lo <= mid <= hi
    requires Honest(txids, m, from, lo, mid) && Honest(txids, e, |m.indices|, mid, hi)
    ensures Honest(txids, e, from, lo, hi)
  {
    assert forall k | 0 <= k < |m.indices| :: e.indices[k] == m.indices[k] && e.matches[k] == m.matches[k];
  }

  /** A node read back with the right hash reports only what is in the tree. */
  lemma {:induction false} NodeSound(f: Combine, txids: seq<Digest>, bits: seq<bool>, hashes: seq<Digest>, h: nat, pos: nat, r: Reading)
    requires Injective(f) && First(h, pos) < |txids| && |r.matches| == |r.indices|
    requires var e := Extract(f, |txids|, bits, hashes, h, pos, r); !e.bad && e.hash == CalcHash(f, txids, h, pos)
    ensures Honest(txids, Extract(f, |txids|, bits, hashes, h, pos, r), |r.indices|, First(h, pos), First(h, pos + 1))
  {
    hide Honest, After, Pow2, First, Width, Extract, CalcHash;
    if r.bitsUsed < |bits| && h > 0 && bits[r.bitsUsed] {
      Halves(h, pos);
      var n, r1 := |txids|, r.(bitsUsed := r.bitsUsed + 1);
      InsideRow(n, h - 1, 2 * pos + 1);
      var left := Extract(f, n, bits, hashes, h - 1, 2 * pos, r1);
      ExtractAfter(f, n, bits, hashes, h - 1, 2 * pos, r1);
      NotBadBefore(r1, left);
      var e := Extract(f, n, bits, hashes, h, pos, r);
      Descended(f, n, bits, hashes, h, pos, r);
      HashInside(f, txids, h, pos);
      if 2 * pos + 1 < Width(n, h - 1) {
        var right := Extract(f, n, bits, hashes, h - 1, 2 * pos + 1, left);
        ExtractAfter(f, n, bits, hashes, h - 1, 2 * pos + 1, left);
        NotBadBefore(left, right);
        NodeSound(f, txids, bits, hashes, h - 1, 2 * pos, r1);
        NodeSound(f, txids, bits, hashes, h - 1, 2 * pos + 1, left);
        HonestJoin(txids, left, right, |r.indices|, First(h, pos), First(h - 1, 2 * pos + 1), First(h, pos + 1));
        SameReport(txids, right, e, |r.indices|, First(h, pos), First(h, pos + 1));
      } else {
        NodeSound(f, txids, bits, hashes, h - 1, 2 * pos, r1);
        WiderReport(txids, left, e, |r.indices|, First(h, pos), First(h - 1, 2 * pos + 1), First(h, pos + 1));
      }
    } else {
      StoredSound(f, txids, bits, hashes, h, pos, r);
    }
  }

  lemma NotBadBefore(r: Reading, e: Reading)
    requires After(r, e)
    ensures r.bad ==> e.bad
    ensures |r.indices| <= |e.indices| && |e.matches| == |e.indices| && |r.matches| == |r.indices|
  {
  }

  /** A node whose hash is stored: nothing is reported, or one leaf. */
  lemma StoredSound(f: Combine, txids: seq<Digest>, bits: seq<bool>, hashes: seq<Digest>, h: nat, pos: nat, r: Reading)
    requires First(h, pos) < |txids| && |r.matches| == |r.indices|
    requires r.bitsUsed >= |bits| || h == 0 || !bits[r.bitsUsed]
    requires var e := Extract(f, |txids|, bits, hashes, h, pos, r); !e.bad && e.hash == CalcHash(f, txids, h, pos)
    ensures Honest(txids, Extract(f, |txids|, bits, hashes, h, pos, r), |r.indices|, First(h, pos), First(h, pos + 1))
  {
    RowOrder(h, pos);
  }

  lemma SameReport(txids: seq<Digest>, a: Reading, b: Reading, from: nat, lo: nat, hi: nat)
    requires Honest(txids, a, from, lo, hi) && a.matches == b.matches && a.indices == b.indices
    ensures Honest(txids, b, from, lo, hi)
  {
  }

  lemma WiderReport(txids: seq<Digest>, a: Reading, b: Reading, from: nat, lo: nat, mid: nat, hi: nat)
    requires Honest(txids, a, from, lo, mid) && a.matches == b.matches && a.indices == b.indices && mid <= hi
    ensures Honest(txids, b, from, lo, hi)
  {
  }

  // ---------------------------------------------------------------- completeness

  ghost predicate Holds<T>(s: seq<T>, at: nat, part: seq<T>) {
    at + |part| <= |s| && s[at..at + |part|] == part
  }

  lemma HoldsSplit<T>(s: seq<T>, at: nat, a: seq<T>, b: seq<T>)
    requires Holds(s, at, a + b)
    ensures Holds(s, at, a) && Holds(s, at + |a|, b)
  {
    var part := s[at..at + |a + b|];
    assert part[..|a|] == a && part[|a|..] == b;
    assert s[at..at + |a|] == part[..|a|];
    assert s[at + |a|..at + |a| + |b|] == part[|a|..];
  }

  /** The positions selected below a node. */
  function Below(mask: seq<bool>, h: nat, pos: nat): seq<nat>
    requires First(h, pos) < |mask|
  {
    RowOrder(h, pos);
    Selected(mask, First(h, pos), End(|mask|, h, pos))
  }

  /** What reading back a node that was built must give. */
  ghost function Expected(f: Combine, txids: seq<Digest>, mask: seq<bool>, h: nat, pos: nat, r: Reading): Reading
    requires |mask| == |txids| && First(h, pos) < |txids|
  {
    Reading(CalcHash(f, txids, h, pos), r.bitsUsed + |Bits(mask, h, pos)|, r.hashUsed + |Hashes(f, txids, mask, h, pos)|,
            r.matches + Picked(txids, Below(mask, h, pos)), r.indices + Below(mask, h, pos), r.bad)
  }

  function Picked(txids: seq<Digest>, places: seq<nat>): seq<Digest> {
    seq(|places|, i requires 0 <= i < |places| => if places[i] < |txids| then txids[places[i]] else 0)
  }

  lemma PickedJoin(txids: seq<Digest>, a: seq<nat>, b: seq<nat>)
    ensures Picked(txids, a + b) == Picked(txids, a) + Picked(txids, b)
  {
  }

  ghost predicate Built(f: Combine, txids: seq<Digest>, mask: seq<bool>, bits: seq<bool>, hashes: seq<Digest>, h: nat, pos: nat, r: Reading)
    requires |mask| == |txids| && First(h, pos) < |txids|
  {
    Holds(bits, r.bitsUsed, Bits(mask, h, pos)) && Holds(hashes, r.hashUsed, Hashes(f, txids, mask, h, pos))
  }

  predicate HasMatch(mask: seq<bool>, h: nat, pos: nat)
    requires First(h, pos) < |mask|
  {
    AnyMatch(mask, First(h, pos), End(|mask|, h, pos))
  }

  lemma StoredExpected(f: Combine, txids: seq<Digest>, mask: seq<bool>, bits: seq<bool>, hashes: seq<Digest>, h: nat, pos: nat, r: Reading)
    requires |mask| == |txids| && First(h, pos) < |txids| && Built(f, txids, mask, bits, hashes, h, pos, r)
    requires h == 0 || !HasMatch(mask, h, pos)
    ensures Extract(f, |txids|, bits, hashes, h, pos, r) == Expected(f, txids, mask, h, pos, r)
  {
    RowOrder(h, pos);
    NoneSelected(mask, First(h, pos), End(|mask|, h, pos));
    assert bits[r.bitsUsed] == bits[r.bitsUsed..r.bitsUsed + 1][0];
    assert hashes[r.hashUsed] == hashes[r.hashUsed..r.hashUsed + 1][0];
  }

  lemma BuiltInside(f: Combine, txids: seq<Digest>, mask: seq<bool>, h: nat, pos: nat)
    requires |mask| == |txids| && First(h, pos) < |txids| && h > 0 && HasMatch(mask, h, pos)
    ensures First(h - 1, 2 * pos) < |txids|
    ensures First(h - 1, 2 * pos + 1) < |txids| ==>
      && Bits(mask, h, pos) == [true] + (Bits(mask, h - 1, 2 * pos) + Bits(mask, h - 1, 2 * pos + 1))
      && Hashes(f, txids, mask, h, pos) == Hashes(f, txids, mask, h - 1, 2 * pos) + Hashes(f, txids, mask, h - 1, 2 * pos + 1)
      && Below(mask, h, pos) == Below(mask, h - 1, 2 * pos) + Below(mask, h - 1, 2 * pos + 1)
    ensures First(h - 1, 2 * pos + 1) >= |txids| ==>
      && Bits(mask, h, pos) == [true] + Bits(mask, h - 1, 2 * pos)
      && Hashes(f, txids, mask, h, pos) == Hashes(f, txids, mask, h - 1, 2 * pos)
      && Below(mask, h, pos) == Below(mask, h - 1, 2 * pos)
  {
    hide Below, AnyMatch, CalcHash, Bits, Hashes, First, Pow2;
    BelowInside(mask, h, pos);
    BitsInside(mask, h, pos);
    HashesInside(f, txids, mask, h, pos);
    if First(h - 1, 2 * pos + 1) < |txids| {
      assert [true] + Bits(mask, h - 1, 2 * pos) + Bits(mask, h - 1, 2 * pos + 1)
          == [true] + (Bits(mask, h - 1, 2 * pos) + Bits(mask, h - 1, 2 * pos + 1));
    }
  }

  lemma BitsInside(mask: seq<bool>, h: nat, pos: nat)
    requires First(h, pos) < |mask| && h > 0 && HasMatch(mask, h, pos)
    ensures First(h - 1, 2 * pos) < |mask|
    ensures Bits(mask, h, pos) == [true] + Bits(mask, h - 1, 2 * pos)
                                  + if First(h - 1, 2 * pos + 1) < |mask| then Bits(mask, h - 1, 2 * pos + 1) else []
  {
    hide AnyMatch, Pow2;
    Halves(h, pos);
  }

  lemma HashesInside(f: Combine, txids: seq<Digest>, mask: seq<bool>, h: nat, pos: nat)
    requires |mask| == |txids| && First(h, pos) < |txids| && h > 0 && HasMatch(mask, h, pos)
    ensures First(h - 1, 2 * pos) < |mask|
    ensures Hashes(f, txids, mask, h, pos) == Hashes(f, txids, mask, h - 1, 2 * pos)
                                              + if First(h - 1, 2 * pos + 1) < |mask| then Hashes(f, txids, mask, h - 1, 2 * pos + 1) else []
  {
    hide AnyMatch, Pow2, CalcHash;
    Halves(h, pos);
  }

  lemma BelowInside(mask: seq<bool>, h: nat, pos: nat)
    requires First(h, pos) < |mask| && h > 0
    ensures First(h - 1, 2 * pos) < |mask|
    ensures Below(mask, h, pos) == Below(mask, h - 1, 2 * pos)
                                   + if First(h - 1, 2 * pos + 1) < |mask| then Below(mask, h - 1, 2 * pos + 1) else []
  {
    hide Pow2, Selected;
    Halves(h, pos);
    RowOrder(h - 1, 2 * pos);
    RowOrder(h - 1, 2 * pos + 1);
    if First(h - 1, 2 * pos + 1) < |mask| {
      SelectedSplit(mask, First(h, pos), First(h - 1, 2 * pos + 1), End(|mask|, h, pos));
    }
  }

  /** Reading back what was built yields the node's hash, consumes exactly the node's bits
      and hashes, and reports exactly the selected leaves in order. */
  lemma {:induction false} NodeComplete(f: Combine, txids: seq<Digest>, mask: seq<bool>, bits: seq<bool>, hashes: seq<Digest>,
                                        h: nat, pos: nat, r: Reading)
    requires Injective(f) && Distinct(txids) && |mask| == |txids| && First(h, pos) < |txids|
    requires Built(f, txids, mask, bits, hashes, h, pos, r)
    ensures Extract(f, |txids|, bits, hashes, h, pos, r) == Expected(f, txids, mask, h, pos, r)
  {
    hide Pow2, First, Width, Extract, CalcHash, Bits, Hashes, Below, HasMatch, Picked, Injective, Distinct;
    if h == 0 || !HasMatch(mask, h, pos) {
      StoredExpected(f, txids, mask, bits, hashes, h, pos, r);
    } else {
      var n, r1 := |txids|, r.(bitsUsed := r.bitsUsed + 1);
      BuiltInside(f, txids, mask, h, pos);
      InsideRow(n, h - 1, 2 * pos + 1);
      StartsWithBit(f, txids, mask, bits, hashes, h, pos, r);
      Descended(f, n, bits, hashes, h, pos, r);
      HashInside(f, txids, h, pos);
      NodeComplete(f, txids, mask, bits, hashes, h - 1, 2 * pos, r1);
      if First(h - 1, 2 * pos + 1) < n {
        var left := Expected(f, txids, mask, h - 1, 2 * pos, r1);
        NodeComplete(f, txids, mask, bits, hashes, h - 1, 2 * pos + 1, left);
        SiblingsDiffer(f, txids, h - 1, 2 * pos);
        PickedJoin(txids, Below(mask, h - 1, 2 * pos), Below(mask, h - 1, 2 * pos + 1));
      }
    }
  }

  lemma StartsWithBit(f: Combine, txids: seq<Digest>, mask: seq<bool>, bits: seq<bool>, hashes: seq<Digest>, h: nat, pos: nat, r: Reading)
    requires |mask| == |txids| && First(h, pos) < |txids| && h > 0 && HasMatch(mask, h, pos)
    requires Built(f, txids, mask, bits, hashes, h, pos, r)
    ensures r.bitsUsed < |bits| && bits[r.bitsUsed] && First(h - 1, 2 * pos) < |txids|
    ensures var r1 := r.(bitsUsed := r.bitsUsed + 1);
      && Built(f, txids, mask, bits, hashes, h - 1, 2 * pos, r1)
      && (First(h - 1, 2 * pos + 1) < |txids| ==>
            Built(f, txids, mask, bits, hashes, h - 1, 2 * pos + 1, Expected(f, txids, mask, h - 1, 2 * pos, r1)))
  {
    hide Pow2, First, Width, CalcHash, Bits, Hashes, Below, HasMatch, Picked;
    BuiltInside(f, txids, mask, h, pos);
    var left := Bits(mask, h - 1, 2 * pos);
    if First(h - 1, 2 * pos + 1) < |txids| {
      var right := Bits(mask, h - 1, 2 * pos + 1);
      HoldsSplit(bits, r.bitsUsed, [true], left + right);
      HoldsSplit(bits, r.bitsUsed + 1, left, right);
      HoldsSplit(hashes, r.hashUsed, Hashes(f, txids, mask, h - 1, 2 * pos), Hashes(f, txids, mask, h - 1, 2 * pos + 1));
    } else {
      HoldsSplit(bits, r.bitsUsed, [true], left);
    }
    assert bits[r.bitsUsed] == bits[r.bitsUsed..r.bitsUsed + 1][0];
  }

  // ---------------------------------------------------------------- how much is stored

  /** Nodes with a match below them that have a single child. */
  function OnlyChildren(mask: seq<bool>, h: nat, pos: nat): nat
    requires First(h, pos) < |mask|
  {
    if h == 0 || !HasMatch(mask, h, pos) then 0 else
      Halves(h, pos);
      OnlyChildren(mask, h - 1, 2 * pos)
      + if First(h - 1, 2 * pos + 1) < |mask| then OnlyChildren(mask, h - 1, 2 * pos + 1) else 1
  }

  /** One bit a node: two less one for every hash, and one more for every only child. */
  lemma {:induction false} BitCount(f: Combine, txids: seq<Digest>, mask: seq<bool>, h: nat, pos: nat)
    requires |mask| == |txids| && First(h, pos) < |txids|
    ensures |Bits(mask, h, pos)| == 2 * |Hashes(f, txids, mask, h, pos)| - 1 + OnlyChildren(mask, h, pos)
    ensures |Hashes(f, txids, mask, h, pos)| >= 1
  {
    hide Pow2, First, CalcHash, Bits, Hashes, Below, HasMatch;
    if h == 0 || !HasMatch(mask, h, pos) {
      StoredCount(f, txids, mask, h, pos);
    } else {
      BuiltInside(f, txids, mask, h, pos);
      BitCount(f, txids, mask, h - 1, 2 * pos);
      if First(h - 1, 2 * pos + 1) < |txids| {
        BitCount(f, txids, mask, h - 1, 2 * pos + 1);
      }
    }
  }

  lemma StoredCount(f: Combine, txids: seq<Digest>, mask: seq<bool>, h: nat, pos: nat)
    requires |mask| == |txids| && First(h, pos) < |txids| && (h == 0 || !HasMatch(mask, h, pos))
    ensures |Bits(mask, h, pos)| == |Hashes(f, txids, mask, h, pos)| == 1
  {
  }

  /** With three leaves and the last one selected there are four bits and two hashes, so the
      bits are not bounded by twice the hashes less one. */
  lemma FourBitsTwoHashes(f: Combine, a: Digest, b: Digest, c: Digest)
    ensures var mask := [false, false, true];
      First(2, 0) < 3 && IsHeight(3, 2) && |Bits(mask, 2, 0)| == 4 && |Hashes(f, [a, b, c], mask, 2, 0)| == 2
  {
    var mask := [false, false, true];
    assert Pow2(1) == 2 && Pow2(2) == 4;
    assert Width(3, 0) == 3 && Width(3, 1) == 2;
    assert mask[2];
    assert !AnyMatch(mask, First(1, 0), End(3, 1, 0));
    assert Hashes(f, [a, b, c], mask, 1, 0) == [CalcHash(f, [a, b, c], 1, 0)];
    assert Hashes(f, [a, b, c], mask, 1, 1) == [c];
    assert Hashes(f, [a, b, c], mask, 2, 0) == Hashes(f, [a, b, c], mask, 1, 0) + Hashes(f, [a, b, c], mask, 1, 1);
    BitCount(f, [a, b, c], mask, 2, 0);
    assert OnlyChildren(mask, 1, 0) == 0 && OnlyChildren(mask, 1, 1) == 1;
  }

  /** Never more hashes than leaves, nor than one and a path for every selected leaf. */
  lemma {:induction false} HashCount(f: Combine, txids: seq<Digest>, mask: seq<bool>, h: nat, pos: nat)
    requires |mask| == |txids| && First(h, pos) < |txids|
    ensures |Hashes(f, txids, mask, h, pos)| <= End(|txids|, h, pos) - First(h, pos)
    ensures |Hashes(f, txids, mask, h, pos)| <= 1 + |Below(mask, h, pos)| * h
  {
    hide Pow2, First, CalcHash, Bits, Hashes, HasMatch, Below;
    RowOrder(h, pos);
    if h == 0 || !HasMatch(mask, h, pos) {
      StoredCount(f, txids, mask, h, pos);
      Product(|Below(mask, h, pos)|, h);
    } else {
      BuiltInside(f, txids, mask, h, pos);
      SomeBelow(mask, h, pos);
      RowOrder(h - 1, 2 * pos);
      Halves(h, pos);
      HashCount(f, txids, mask, h - 1, 2 * pos);
      if First(h - 1, 2 * pos + 1) < |txids| {
        HashCount(f, txids, mask, h - 1, 2 * pos + 1);
        PathsJoin(|Below(mask, h - 1, 2 * pos)|, |Below(mask, h - 1, 2 * pos + 1)|, h);
      } else {
        PathsJoin(|Below(mask, h - 1, 2 * pos)|, 0, h);
      }
    }
  }

  lemma SomeBelow(mask: seq<bool>, h: nat, pos: nat)
    requires First(h, pos) < |mask| && HasMatch(mask, h, pos)
    ensures |Below(mask, h, pos)| > 0
  {
    RowOrder(h, pos);
    NoneSelected(mask, First(h, pos), End(|mask|, h, pos));
  }

  lemma Product(a: nat, b: nat)
    ensures a * b >= 0
  {
  }

  lemma PathsJoin(a: nat, b: nat, h: nat)
    requires h > 0 && a + b > 0
    ensures 1 + a * (h - 1) + 1 + b * (h - 1) <= 1 + (a + b) * h
    ensures b == 0 ==> 1 + a * (h - 1) <= 1 + a * h
  {
    assert a * (h - 1) + b * (h - 1) == (a + b) * (h - 1);
    assert (a + b) * h == (a + b) * (h - 1) + (a + b);
  }
}
