/**
 Which bits and hashes a partial Merkle tree accepts under the true root: those of a tree that has been
 opened down from the root in some places, and of no other.
 */
module MerkleShapes {
  import opened Helpers
  import opened MerkleTree
  import opened PartialMerkle

  /** A part of the tree: a node whose hash is given, as a match if so said, or one that is opened and has a
      single child or two. */
  datatype Shape = Stored(isMatch: bool) | Single(child: Shape) | Double(left: Shape, right: Shape)

  /** Matches are leaves, and the children are those the tree has there. */
  predicate Fits(t: Shape, n: nat, h: nat, pos: nat)
    decreases t
  {
    match t
    case Stored(m) => m ==> h == 0
    case Single(c) => h > 0 && First(h - 1, 2 * pos + 1) >= n && Fits(c, n, h - 1, 2 * pos)
    case Double(l, r) => h > 0 && First(h - 1, 2 * pos + 1) < n && Fits(l, n, h - 1, 2 * pos) && Fits(r, n, h - 1, 2 * pos + 1)
  }

  /** Depth first, a bit for every node: whether it is opened or a match. */
  function ShapeBits(t: Shape): seq<bool> {
    match t
    case Stored(m) => [m]
    case Single(c) => [true] + ShapeBits(c)
    case Double(l, r) => [true] + (ShapeBits(l) + ShapeBits(r))
  }

  /** The hashes of those that are not opened. */
  function ShapeHashes(f: Combine, txids: seq<Digest>, t: Shape, h: nat, pos: nat): seq<Digest>
    requires First(h, pos) < |txids| && Fits(t, |txids|, h, pos)
    decreases t
  {
    match t
    case Stored(_) => [CalcHash(f, txids, h, pos)]
    case Single(c) =>
      Halves(h, pos);
      ShapeHashes(f, txids, c, h - 1, 2 * pos)
    case Double(l, r) =>
      Halves(h, pos);
      ShapeHashes(f, txids, l, h - 1, 2 * pos) + ShapeHashes(f, txids, r, h - 1, 2 * pos + 1)
  }

  /** The places of the matches. */
  function ShapePlaces(t: Shape, pos: nat): seq<nat>
    decreases t
  {
    match t
    case Stored(m) => if m then [pos] else []
    case Single(c) => ShapePlaces(c, 2 * pos)
    case Double(l, r) => ShapePlaces(l, 2 * pos) + ShapePlaces(r, 2 * pos + 1)
  }

  /** The bits and hashes at the cursors of `r` are those of the tree. */
  ghost predicate Shaped(f: Combine, txids: seq<Digest>, t: Shape, bits: seq<bool>, hashes: seq<Digest>, h: nat, pos: nat, r: Reading)
    requires First(h, pos) < |txids|
  {
    Fits(t, |txids|, h, pos) && Holds(bits, r.bitsUsed, ShapeBits(t)) && Holds(hashes, r.hashUsed, ShapeHashes(f, txids, t, h, pos))
  }

  /** What reading them gives. */
  ghost function ShapeRead(f: Combine, txids: seq<Digest>, t: Shape, h: nat, pos: nat, r: Reading): Reading
    requires First(h, pos) < |txids| && Fits(t, |txids|, h, pos)
  {
    Reading(CalcHash(f, txids, h, pos), r.bitsUsed + |ShapeBits(t)|, r.hashUsed + |ShapeHashes(f, txids, t, h, pos)|,
            r.matches + Picked(txids, ShapePlaces(t, pos)), r.indices + ShapePlaces(t, pos), r.bad)
  }

  lemma SingleInside(f: Combine, txids: seq<Digest>, t: Shape, h: nat, pos: nat)
    requires First(h, pos) < |txids| && Fits(t, |txids|, h, pos) && t.Single?
    ensures h > 0 && First(h - 1, 2 * pos) < |txids| <= First(h - 1, 2 * pos + 1) && Fits(t.child, |txids|, h - 1, 2 * pos)
    ensures ShapeHashes(f, txids, t, h, pos) == ShapeHashes(f, txids, t.child, h - 1, 2 * pos)
  {
    Halves(h, pos);
  }

  lemma DoubleInside(f: Combine, txids: seq<Digest>, t: Shape, h: nat, pos: nat)
    requires First(h, pos) < |txids| && Fits(t, |txids|, h, pos) && t.Double?
    ensures h > 0 && First(h - 1, 2 * pos) < |txids| && First(h - 1, 2 * pos + 1) < |txids|
    ensures Fits(t.left, |txids|, h - 1, 2 * pos) && Fits(t.right, |txids|, h - 1, 2 * pos + 1)
    ensures ShapeHashes(f, txids, t, h, pos) == ShapeHashes(f, txids, t.left, h - 1, 2 * pos) + ShapeHashes(f, txids, t.right, h - 1, 2 * pos + 1)
  {
    Halves(h, pos);
  }

  /** A node of the tree is read as it is meant. */
  lemma {:induction false} NodeIsRead(f: Combine, txids: seq<Digest>, t: Shape, bits: seq<bool>, hashes: seq<Digest>,
                                      h: nat, pos: nat, r: Reading)
    requires Injective(f) && Distinct(txids) && First(h, pos) < |txids| && Shaped(f, txids, t, bits, hashes, h, pos, r)
    ensures Extract(f, |txids|, bits, hashes, h, pos, r) == ShapeRead(f, txids, t, h, pos, r)
    decreases t
  {
    hide Pow2, First, Width, Extract, CalcHash, ShapeBits, ShapeHashes, Picked, Injective, Distinct, Holds;
    var n, r1 := |txids|, r.(bitsUsed := r.bitsUsed + 1);
    if t.Stored? {
      StoredIsRead(f, txids, t, bits, hashes, h, pos, r);
    } else {
      if t.Single? {
        SingleInside(f, txids, t, h, pos);
        SingleHolds(f, txids, t, bits, hashes, h, pos, r);
      } else {
        DoubleInside(f, txids, t, h, pos);
        DoubleHolds(f, txids, t, bits, hashes, h, pos, r);
      }
      InsideRow(n, h - 1, 2 * pos + 1);
      Descended(f, n, bits, hashes, h, pos, r);
      HashInside(f, txids, h, pos);
      OpenedBits(t);
      if t.Single? {
        NodeIsRead(f, txids, t.child, bits, hashes, h - 1, 2 * pos, r1);
      } else {
        NodeIsRead(f, txids, t.left, bits, hashes, h - 1, 2 * pos, r1);
        var left := ShapeRead(f, txids, t.left, h - 1, 2 * pos, r1);
        NodeIsRead(f, txids, t.right, bits, hashes, h - 1, 2 * pos + 1, left);
        SiblingsDiffer(f, txids, h - 1, 2 * pos);
        PickedJoin(txids, ShapePlaces(t.left, 2 * pos), ShapePlaces(t.right, 2 * pos + 1));
      }
    }
  }

  lemma StoredIsRead(f: Combine, txids: seq<Digest>, t: Shape, bits: seq<bool>, hashes: seq<Digest>, h: nat, pos: nat, r: Reading)
    requires First(h, pos) < |txids| && t.Stored? && Shaped(f, txids, t, bits, hashes, h, pos, r)
    ensures Extract(f, |txids|, bits, hashes, h, pos, r) == ShapeRead(f, txids, t, h, pos, r)
  {
    assert bits[r.bitsUsed] == bits[r.bitsUsed..r.bitsUsed + 1][0];
    assert hashes[r.hashUsed] == hashes[r.hashUsed..r.hashUsed + 1][0];
  }

  lemma OpenedBits(t: Shape)
    ensures t.Single? ==> |ShapeBits(t)| == 1 + |ShapeBits(t.child)|
    ensures t.Double? ==> |ShapeBits(t)| == 1 + |ShapeBits(t.left)| + |ShapeBits(t.right)|
  {
  }

  lemma SingleHolds(f: Combine, txids: seq<Digest>, t: Shape, bits: seq<bool>, hashes: seq<Digest>, h: nat, pos: nat, r: Reading)
    requires First(h, pos) < |txids| && t.Single? && Shaped(f, txids, t, bits, hashes, h, pos, r)
    requires h > 0 && First(h - 1, 2 * pos) < |txids|
    ensures r.bitsUsed < |bits| && bits[r.bitsUsed]
    ensures Shaped(f, txids, t.child, bits, hashes, h - 1, 2 * pos, r.(bitsUsed := r.bitsUsed + 1))
  {
    hide First, CalcHash, Holds;
    SingleInside(f, txids, t, h, pos);
    HoldsSplit(bits, r.bitsUsed, [true], ShapeBits(t.child));
    FirstHeld(bits, r.bitsUsed);
  }

  lemma DoubleHolds(f: Combine, txids: seq<Digest>, t: Shape, bits: seq<bool>, hashes: seq<Digest>, h: nat, pos: nat, r: Reading)
    requires First(h, pos) < |txids| && t.Double? && Shaped(f, txids, t, bits, hashes, h, pos, r)
    requires h > 0 && First(h - 1, 2 * pos) < |txids| && First(h - 1, 2 * pos + 1) < |txids| && Fits(t.left, |txids|, h - 1, 2 * pos)
    ensures r.bitsUsed < |bits| && bits[r.bitsUsed]
    ensures Shaped(f, txids, t.left, bits, hashes, h - 1, 2 * pos, r.(bitsUsed := r.bitsUsed + 1))
    ensures var left := ShapeRead(f, txids, t.left, h - 1, 2 * pos, r.(bitsUsed := r.bitsUsed + 1));
      Shaped(f, txids, t.right, bits, hashes, h - 1, 2 * pos + 1, left)
  {
    hide First, CalcHash, Holds, Picked, ShapePlaces;
    DoubleInside(f, txids, t, h, pos);
    HoldsSplit(bits, r.bitsUsed, [true], ShapeBits(t.left) + ShapeBits(t.right));
    HoldsSplit(bits, r.bitsUsed + 1, ShapeBits(t.left), ShapeBits(t.right));
    HoldsSplit(hashes, r.hashUsed, ShapeHashes(f, txids, t.left, h - 1, 2 * pos), ShapeHashes(f, txids, t.right, h - 1, 2 * pos + 1));
    FirstHeld(bits, r.bitsUsed);
  }

  lemma FirstHeld(s: seq<bool>, at: nat)
    requires Holds(s, at, [true])
    ensures at < |s| && s[at]
  {
    assert s[at] == s[at..at + 1][0];
  }

  // ---------------------------------------------------------------- and nothing else is accepted

  lemma HoldsJoin<T>(s: seq<T>, at: nat, a: seq<T>, b: seq<T>)
    requires Holds(s, at, a) && Holds(s, at + |a|, b)
    ensures Holds(s, at, a + b)
  {
    assert s[at..at + |a + b|] == s[at..at + |a|] + s[at + |a|..at + |a| + |b|];
  }

  lemma FirstHolds<T>(s: seq<T>, at: nat)
    requires at < |s|
    ensures Holds(s, at, [s[at]])
  {
  }

  lemma StoredHasShape(f: Combine, txids: seq<Digest>, bits: seq<bool>, hashes: seq<Digest>, h: nat, pos: nat, r: Reading) returns (t: Shape)
    requires First(h, pos) < |txids| && (r.bitsUsed < |bits| && h > 0 ==> !bits[r.bitsUsed])
    requires var e := Extract(f, |txids|, bits, hashes, h, pos, r); !e.bad && e.hash == CalcHash(f, txids, h, pos)
    ensures Shaped(f, txids, t, bits, hashes, h, pos, r)
  {
    hide CalcHash, First, Extract;
    NotDescended(f, |txids|, bits, hashes, h, pos, r);
    t := Stored(bits[r.bitsUsed]);
    FirstHolds(bits, r.bitsUsed);
    FirstHolds(hashes, r.hashUsed);
  }

  /** A node that is read without an error and has the true hash was opened in some places. */
  lemma {:induction false} NodeHasShape(f: Combine, txids: seq<Digest>, bits: seq<bool>, hashes: seq<Digest>, h: nat, pos: nat, r: Reading) returns (t: Shape)
    requires Injective(f) && Distinct(txids) && First(h, pos) < |txids| && |r.matches| == |r.indices|
    requires var e := Extract(f, |txids|, bits, hashes, h, pos, r); !e.bad && e.hash == CalcHash(f, txids, h, pos)
    ensures Shaped(f, txids, t, bits, hashes, h, pos, r)
    decreases h
  {
    hide Pow2, First, Width, Extract, CalcHash, Distinct, After, Shaped;
    if r.bitsUsed < |bits| && h > 0 && bits[r.bitsUsed] {
      Halves(h, pos);
      var n, r1 := |txids|, r.(bitsUsed := r.bitsUsed + 1);
      InsideRow(n, h - 1, 2 * pos + 1);
      var left := Extract(f, n, bits, hashes, h - 1, 2 * pos, r1);
      ExtractAfter(f, n, bits, hashes, h - 1, 2 * pos, r1);
      NotBadBefore(r1, left);
      Descended(f, n, bits, hashes, h, pos, r);
      HashInside(f, txids, h, pos);
      if 2 * pos + 1 < Width(n, h - 1) {
        var right := Extract(f, n, bits, hashes, h - 1, 2 * pos + 1, left);
        ExtractAfter(f, n, bits, hashes, h - 1, 2 * pos + 1, left);
        NotBadBefore(left, right);
        var a := NodeHasShape(f, txids, bits, hashes, h - 1, 2 * pos, r1);
        var b := NodeHasShape(f, txids, bits, hashes, h - 1, 2 * pos + 1, left);
        t := DoubleShape(f, txids, a, b, bits, hashes, h, pos, r);
      } else {
        var c := NodeHasShape(f, txids, bits, hashes, h - 1, 2 * pos, r1);
        t := SingleShape(f, txids, c, bits, hashes, h, pos, r);
      }
    } else {
      t := StoredHasShape(f, txids, bits, hashes, h, pos, r);
    }
  }

  lemma SingleShape(f: Combine, txids: seq<Digest>, c: Shape, bits: seq<bool>, hashes: seq<Digest>, h: nat, pos: nat, r: Reading) returns (t: Shape)
    requires h > 0 && First(h, pos) < |txids| && First(h - 1, 2 * pos) < |txids| <= First(h - 1, 2 * pos + 1)
    requires r.bitsUsed < |bits| && bits[r.bitsUsed]
    requires Shaped(f, txids, c, bits, hashes, h - 1, 2 * pos, r.(bitsUsed := r.bitsUsed + 1))
    ensures Shaped(f, txids, t, bits, hashes, h, pos, r)
  {
    hide First, CalcHash, Holds;
    t := Single(c);
    SingleInside(f, txids, t, h, pos);
    FirstHolds(bits, r.bitsUsed);
    HoldsJoin(bits, r.bitsUsed, [true], ShapeBits(c));
  }

  lemma DoubleShape(f: Combine, txids: seq<Digest>, a: Shape, b: Shape, bits: seq<bool>, hashes: seq<Digest>, h: nat, pos: nat, r: Reading) returns (t: Shape)
    requires Injective(f) && Distinct(txids)
    requires h > 0 && First(h, pos) < |txids| && First(h - 1, 2 * pos) < |txids| && First(h - 1, 2 * pos + 1) < |txids|
    requires r.bitsUsed < |bits| && bits[r.bitsUsed]
    requires var r1 := r.(bitsUsed := r.bitsUsed + 1);
      && Shaped(f, txids, a, bits, hashes, h - 1, 2 * pos, r1)
      && Shaped(f, txids, b, bits, hashes, h - 1, 2 * pos + 1, Extract(f, |txids|, bits, hashes, h - 1, 2 * pos, r1))
    ensures Shaped(f, txids, t, bits, hashes, h, pos, r)
  {
    hide First, CalcHash, Holds, Extract, Injective, Distinct, Picked;
    NodeIsRead(f, txids, a, bits, hashes, h - 1, 2 * pos, r.(bitsUsed := r.bitsUsed + 1));
    t := Double(a, b);
    DoubleInside(f, txids, t, h, pos);
    FirstHolds(bits, r.bitsUsed);
    HoldsJoin(bits, r.bitsUsed + 1, ShapeBits(a), ShapeBits(b));
    HoldsJoin(bits, r.bitsUsed, [true], ShapeBits(a) + ShapeBits(b));
    HoldsJoin(hashes, r.hashUsed, ShapeHashes(f, txids, a, h - 1, 2 * pos), ShapeHashes(f, txids, b, h - 1, 2 * pos + 1));
  }

  /** No more hashes than leaves, and no more than bits. */
  lemma {:induction false} ShapeSize(f: Combine, txids: seq<Digest>, t: Shape, h: nat, pos: nat)
    requires First(h, pos) < |txids| && Fits(t, |txids|, h, pos)
    ensures |ShapeHashes(f, txids, t, h, pos)| <= End(|txids|, h, pos) - First(h, pos)
    ensures |ShapeHashes(f, txids, t, h, pos)| <= |ShapeBits(t)|
    decreases t
  {
    hide First, CalcHash;
    RowOrder(h, pos);
    if h > 0 {
      Halves(h, pos);
    }
    OpenedBits(t);
    if t.Single? {
      SingleInside(f, txids, t, h, pos);
      ShapeSize(f, txids, t.child, h - 1, 2 * pos);
    } else if t.Double? {
      DoubleInside(f, txids, t, h, pos);
      ShapeSize(f, txids, t.left, h - 1, 2 * pos);
      ShapeSize(f, txids, t.right, h - 1, 2 * pos + 1);
    }
  }

  /** The bits, but for those that fill the last byte, and the hashes are those of the tree. */
  ghost predicate Spells(f: Combine, txids: seq<Digest>, bits: seq<bool>, hashes: seq<Digest>, t: Shape)
    requires |txids| > 0
  {
    && First(Height(|txids|), 0) == 0 && Fits(t, |txids|, Height(|txids|), 0)
    && ShapeBits(t) <= bits && (|bits| + 7) / 8 == (|ShapeBits(t)| + 7) / 8
    && hashes == ShapeHashes(f, txids, t, Height(|txids|), 0)
  }

  lemma WholeTree(n: nat)
    requires n > 0
    ensures First(Height(n), 0) == 0 && End(n, Height(n), 0) == n
  {
    HeightIs(n, 0);
    RootCovers(n, Height(n));
  }

  lemma HoldsAtFront<T>(s: seq<T>, part: seq<T>)
    ensures Holds(s, 0, part) <==> part <= s
  {
  }

  lemma SpellsIs(f: Combine, txids: seq<Digest>, bits: seq<bool>, hashes: seq<Digest>, t: Shape)
    requires Injective(f) && Distinct(txids) && 0 < |txids| <= MAX_BLOCK_WEIGHT / MIN_TRANSACTION_WEIGHT
    requires First(Height(|txids|), 0) == 0 && Shaped(f, txids, t, bits, hashes, Height(|txids|), 0, Reading(0, 0, 0, [], [], false))
    ensures var e := ReadAll(f, |txids|, bits, hashes, false, []);
      && e == ShapeRead(f, txids, t, Height(|txids|), 0, Reading(0, 0, 0, [], [], false))
      && (UsedUp(bits, hashes, e) <==> Spells(f, txids, bits, hashes, t))
      && (Spells(f, txids, bits, hashes, t) ==> WorthReading(|txids|, bits, hashes))
  {
    hide Injective, Distinct, Height, Extract, CalcHash, First, Picked;
    var h := Height(|txids|);
    NodeIsRead(f, txids, t, bits, hashes, h, 0, Reading(0, 0, 0, [], [], false));
    HoldsAtFront(bits, ShapeBits(t));
    HoldsAtFront(hashes, ShapeHashes(f, txids, t, h, 0));
    ShapeSize(f, txids, t, h, 0);
    WholeTree(|txids|);
  }

  /** Under the true root just these are accepted, for up to 133333 transactions. */
  lemma AcceptedIff(f: Combine, txids: seq<Digest>, bits: seq<bool>, hashes: seq<Digest>)
    requires Injective(f) && Distinct(txids) && |txids| > 0
    ensures Accepts(f, |txids|, bits, hashes, false, []) && ReadAll(f, |txids|, bits, hashes, false, []).hash == Root(f, txids)
      <==> |txids| <= 133333 && exists t :: Spells(f, txids, bits, hashes, t)
  {
    hide Injective, Distinct, Height, Extract, CalcHash, First, Picked, Spells, Shaped, UsedUp, ShapeRead, ReadAll;
    WholeTree(|txids|);
    if Accepts(f, |txids|, bits, hashes, false, []) && ReadAll(f, |txids|, bits, hashes, false, []).hash == Root(f, txids) {
      var t := AcceptedHasShape(f, txids, bits, hashes);
      SpellsIs(f, txids, bits, hashes, t);
    }
    if |txids| <= 133333 {
      forall t | Spells(f, txids, bits, hashes, t)
        ensures Accepts(f, |txids|, bits, hashes, false, []) && ReadAll(f, |txids|, bits, hashes, false, []).hash == Root(f, txids) {
        SpelledIsAccepted(f, txids, bits, hashes, t);
      }
    }
  }

  lemma AcceptedHasShape(f: Combine, txids: seq<Digest>, bits: seq<bool>, hashes: seq<Digest>) returns (t: Shape)
    requires Injective(f) && Distinct(txids) && |txids| > 0 && First(Height(|txids|), 0) == 0
    requires Accepts(f, |txids|, bits, hashes, false, []) && ReadAll(f, |txids|, bits, hashes, false, []).hash == Root(f, txids)
    ensures Shaped(f, txids, t, bits, hashes, Height(|txids|), 0, Reading(0, 0, 0, [], [], false))
  {
    hide Injective, Distinct, Height, Extract, CalcHash, First, Shaped;
    t := NodeHasShape(f, txids, bits, hashes, Height(|txids|), 0, Reading(0, 0, 0, [], [], false));
  }

  /** And it reports its matches with their places. */
  lemma SpelledIsAccepted(f: Combine, txids: seq<Digest>, bits: seq<bool>, hashes: seq<Digest>, t: Shape)
    requires Injective(f) && Distinct(txids) && 0 < |txids| <= MAX_BLOCK_WEIGHT / MIN_TRANSACTION_WEIGHT
    requires Spells(f, txids, bits, hashes, t)
    ensures Accepts(f, |txids|, bits, hashes, false, [])
    ensures var e := ReadAll(f, |txids|, bits, hashes, false, []);
      e.hash == Root(f, txids) && e.indices == ShapePlaces(t, 0) && e.matches == Picked(txids, ShapePlaces(t, 0))
  {
    hide Injective, Distinct, Height, Extract, CalcHash, First, Picked, UsedUp, WorthReading, ReadAll;
    HoldsAtFront(bits, ShapeBits(t));
    HoldsAtFront(hashes, ShapeHashes(f, txids, t, Height(|txids|), 0));
    SpellsIs(f, txids, bits, hashes, t);
  }

  // ---------------------------------------------------------------- selections

  /** Every node that is opened has a match below it. */
  predicate Useful(t: Shape) {
    match t
    case Stored(_) => true
    case Single(c) => HasPlace(c) && Useful(c)
    case Double(l, r) => (HasPlace(l) || HasPlace(r)) && Useful(l) && Useful(r)
  }

  predicate HasPlace(t: Shape) {
    match t
    case Stored(m) => m
    case Single(c) => HasPlace(c)
    case Double(l, r) => HasPlace(l) || HasPlace(r)
  }

  lemma {:induction false} PlacesAre(t: Shape, n: nat, h: nat, pos: nat)
    requires First(h, pos) < n && Fits(t, n, h, pos)
    ensures HasPlace(t) <==> ShapePlaces(t, pos) != []
    ensures forall p <- ShapePlaces(t, pos) :: First(h, pos) <= p < End(n, h, pos)
    decreases t
  {
    RowOrder(h, pos);
    if h > 0 {
      Halves(h, pos);
      hide First, Pow2;
      if t.Single? {
        PlacesAre(t.child, n, h - 1, 2 * pos);
      } else if t.Double? {
        PlacesAre(t.left, n, h - 1, 2 * pos);
        PlacesAre(t.right, n, h - 1, 2 * pos + 1);
      }
    } else {
      assert Pow2(0) == 1;
    }
  }

  /** The mask selects just the places of the tree below this node. */
  ghost predicate Selects(mask: seq<bool>, t: Shape, h: nat, pos: nat) {
    forall p | First(h, pos) <= p < First(h, pos + 1) && p < |mask| :: mask[p] <==> p in ShapePlaces(t, pos)
  }

  lemma SelectsInside(mask: seq<bool>, t: Shape, h: nat, pos: nat)
    requires h > 0 && First(h, pos) < |mask| && Fits(t, |mask|, h, pos) && Selects(mask, t, h, pos) && First(h - 1, 2 * pos) < |mask|
    ensures t.Single? ==> Selects(mask, t.child, h - 1, 2 * pos)
    ensures t.Double? ==> Selects(mask, t.left, h - 1, 2 * pos) && Selects(mask, t.right, h - 1, 2 * pos + 1)
    ensures HasMatch(mask, h, pos) <==> HasPlace(t)
  {
    Halves(h, pos);
    PlacesAre(t, |mask|, h, pos);
    hide First, Fits;
    SomePlace(mask, t, h, pos);
    if t.Double? {
      PlacesApart(mask, t, h, pos);
    }
  }

  lemma SomePlace(mask: seq<bool>, t: Shape, h: nat, pos: nat)
    requires First(h, pos) < |mask| && Selects(mask, t, h, pos) && (HasPlace(t) <==> ShapePlaces(t, pos) != [])
    requires forall p <- ShapePlaces(t, pos) :: First(h, pos) <= p < End(|mask|, h, pos)
    ensures HasMatch(mask, h, pos) <==> HasPlace(t)
  {
    if ShapePlaces(t, pos) != [] {
      assert ShapePlaces(t, pos)[0] in ShapePlaces(t, pos);
    }
  }

  lemma PlacesApart(mask: seq<bool>, t: Shape, h: nat, pos: nat)
    requires h > 0 && t.Double? && First(h, pos) < |mask| && Fits(t, |mask|, h, pos) && Selects(mask, t, h, pos)
    ensures Selects(mask, t.left, h - 1, 2 * pos) && Selects(mask, t.right, h - 1, 2 * pos + 1)
  {
    Halves(h, pos);
    PlacesAre(t.left, |mask|, h - 1, 2 * pos);
    PlacesAre(t.right, |mask|, h - 1, 2 * pos + 1);
    hide First;
  }

  /** A useful tree is what is built for the mask of its matches. */
  lemma {:induction false} UsefulIsBuilt(f: Combine, txids: seq<Digest>, mask: seq<bool>, t: Shape, h: nat, pos: nat)
    requires |mask| == |txids| && First(h, pos) < |txids| && Fits(t, |txids|, h, pos) && Selects(mask, t, h, pos)
    ensures Useful(t) ==> Bits(mask, h, pos) == ShapeBits(t) && Hashes(f, txids, mask, h, pos) == ShapeHashes(f, txids, t, h, pos)
    decreases t
  {
    hide Pow2, First, CalcHash, Bits, Hashes, HasMatch, Selects, Below;
    if t.Stored? {
      StoredIsBuilt(f, txids, mask, t, h, pos);
    } else if Useful(t) {
      Halves(h, pos);
      SelectsInside(mask, t, h, pos);
      BuiltInside(f, txids, mask, h, pos);
      if t.Single? {
        SingleInside(f, txids, t, h, pos);
        UsefulIsBuilt(f, txids, mask, t.child, h - 1, 2 * pos);
      } else {
        DoubleInside(f, txids, t, h, pos);
        UsefulIsBuilt(f, txids, mask, t.left, h - 1, 2 * pos);
        UsefulIsBuilt(f, txids, mask, t.right, h - 1, 2 * pos + 1);
      }
    }
  }

  lemma StoredIsBuilt(f: Combine, txids: seq<Digest>, mask: seq<bool>, t: Shape, h: nat, pos: nat)
    requires |mask| == |txids| && First(h, pos) < |txids| && Fits(t, |txids|, h, pos) && Selects(mask, t, h, pos) && t.Stored?
    ensures Bits(mask, h, pos) == ShapeBits(t) && Hashes(f, txids, mask, h, pos) == ShapeHashes(f, txids, t, h, pos)
  {
    RowOrder(h, pos);
    if h == 0 {
      assert Pow2(0) == 1 && First(0, pos) == pos && First(0, pos + 1) == pos + 1;
      assert mask[pos] <==> t.isMatch;
    } else {
      assert ShapePlaces(t, pos) == [];
    }
  }

  /** What is built for a mask is a useful tree. */
  lemma {:induction false} BuiltHasShape(f: Combine, txids: seq<Digest>, mask: seq<bool>, h: nat, pos: nat) returns (t: Shape)
    requires |mask| == |txids| && First(h, pos) < |txids|
    ensures Fits(t, |txids|, h, pos) && Useful(t) && ShapeBits(t) == Bits(mask, h, pos) && (HasPlace(t) <==> HasMatch(mask, h, pos))
    decreases h
  {
    hide Pow2, First, CalcHash, Bits, Hashes, HasMatch, Below;
    if h == 0 || !HasMatch(mask, h, pos) {
      StoredBits(mask, h, pos);
      t := Stored(HasMatch(mask, h, pos));
    } else {
      Halves(h, pos);
      BuiltInside(f, txids, mask, h, pos);
      MatchInside(mask, h, pos);
      var a := BuiltHasShape(f, txids, mask, h - 1, 2 * pos);
      if First(h - 1, 2 * pos + 1) < |mask| {
        var b := BuiltHasShape(f, txids, mask, h - 1, 2 * pos + 1);
        t := Double(a, b);
      } else {
        t := Single(a);
      }
    }
  }

  lemma StoredBits(mask: seq<bool>, h: nat, pos: nat)
    requires First(h, pos) < |mask|
    ensures h == 0 || !HasMatch(mask, h, pos) ==> Bits(mask, h, pos) == [HasMatch(mask, h, pos)]
  {
  }

  lemma MatchInside(mask: seq<bool>, h: nat, pos: nat)
    requires h > 0 && First(h, pos) < |mask| && HasMatch(mask, h, pos) && First(h - 1, 2 * pos) < |mask|
    ensures HasMatch(mask, h - 1, 2 * pos) || (First(h - 1, 2 * pos + 1) < |mask| && HasMatch(mask, h - 1, 2 * pos + 1))
  {
    Halves(h, pos);
    hide First;
  }

  /** The bits say what tree it is. */
  lemma {:induction false} OneShape(a: Shape, b: Shape, n: nat, h: nat, pos: nat, x: seq<bool>, y: seq<bool>)
    requires Fits(a, n, h, pos) && Fits(b, n, h, pos) && ShapeBits(a) + x == ShapeBits(b) + y
    ensures a == b && x == y
    decreases a
  {
    hide First;
    assert (ShapeBits(a) + x)[0] == ShapeBits(a)[0] && (ShapeBits(b) + y)[0] == ShapeBits(b)[0];
    assert ShapeBits(a) + x == [ShapeBits(a)[0]] + (ShapeBits(a)[1..] + x);
    assert ShapeBits(b) + y == [ShapeBits(b)[0]] + (ShapeBits(b)[1..] + y);
    assert ShapeBits(a)[1..] + x == (ShapeBits(a) + x)[1..] == ShapeBits(b)[1..] + y;
    if a.Single? && b.Single? {
      OneShape(a.child, b.child, n, h - 1, 2 * pos, x, y);
    } else if a.Double? && b.Double? {
      var (l, r, k, q) := (ShapeBits(a.left), ShapeBits(a.right), ShapeBits(b.left), ShapeBits(b.right));
      assert l + (r + x) == (l + r) + x && k + (q + y) == (k + q) + y;
      OneShape(a.left, b.left, n, h - 1, 2 * pos, r + x, q + y);
      OneShape(a.right, b.right, n, h - 1, 2 * pos + 1, x, y);
    }
  }

  /** So what is accepted is what is built for some selection exactly if no node is opened in vain. */
  lemma SelectionIff(f: Combine, txids: seq<Digest>, bits: seq<bool>, hashes: seq<Digest>, t: Shape)
    requires |txids| > 0 && Spells(f, txids, bits, hashes, t)
    ensures Useful(t) <==> exists mask: seq<bool> :: |mask| == |txids| && TreeBits(mask) == ShapeBits(t) && TreeHashes(f, txids, mask) == hashes
  {
    hide Height, First, ShapePlaces, Bits, Hashes, ShapeBits, ShapeHashes, Useful, Fits;
    var n, h := |txids|, Height(|txids|);
    WholeTree(n);
    if Useful(t) {
      var mask := seq(n, p => p in ShapePlaces(t, 0));
      UsefulIsBuilt(f, txids, mask, t, h, 0);
      assert TreeBits(mask) == ShapeBits(t);
    }
    forall mask: seq<bool> | |mask| == n && TreeBits(mask) == ShapeBits(t) && TreeHashes(f, txids, mask) == hashes ensures Useful(t) {
      var u := BuiltHasShape(f, txids, mask, h, 0);
      OneShape(t, u, n, h, 0, [], []);
    }
  }

  /** Two transactions and a tree that is opened and has no match: accepted, and not built for any selection. */
  lemma OpenedInVain(f: Combine, a: Digest, b: Digest)
    requires Injective(f) && a != b
    ensures var bits := [true, false, false];
      && Accepts(f, 2, bits, [a, b], false, []) && ReadAll(f, 2, bits, [a, b], false, []).hash == Root(f, [a, b])
      && ReadAll(f, 2, bits, [a, b], false, []).matches == []
      && forall mask: seq<bool> | |mask| == 2 :: !(TreeBits(mask) <= bits && TreeHashes(f, [a, b], mask) == [a, b])
  {
    var t, txids, bits := Double(Stored(false), Stored(false)), [a, b], [true, false, false];
    HeightOfTwo();
    assert ShapeBits(t) == bits && ShapePlaces(t, 0) == [];
    assert ShapeHashes(f, txids, t, 1, 0) == [a] + [b];
    SpelledIsAccepted(f, txids, bits, [a, b], t);
    hide First, Bits, Hashes, Accepts, ReadAll, Height;
    forall mask: seq<bool> | |mask| == 2 ensures !(TreeBits(mask) <= bits && TreeHashes(f, txids, mask) == [a, b]) {
      if TreeBits(mask) <= bits {
        var u := BuiltHasShape(f, txids, mask, 1, 0);
        OneShape(t, u, 2, 1, 0, [], bits[|TreeBits(mask)|..]);
      }
    }
  }

  lemma HeightOfTwo()
    ensures Height(2) == 1 && First(1, 0) == 0 && First(0, 0) == 0 && First(0, 1) == 1
  {
    assert Pow2(0) == 1 && Pow2(1) == 2;
    assert Width(2, 0) == 2 && Width(2, 1) == 1;
    assert HeightFrom(2, 1) == 1;
  }
}
