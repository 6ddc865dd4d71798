/**
 The Merkle root computed row by row from the leaves up (src/test/merkle_tests.cpp, src/consensus/merkle.cpp),
 and that it is the hash of the root of the partial tree.
 */
module MerkleRows {
  import opened Arithmetic
  import opened Helpers
  import opened MerkleTree
  import opened PartialMerkle

  /** The next row: the hashes of the pairs, an odd last one paired with itself. */
  function NextRow(f: Combine, row: seq<Digest>): (r: seq<Digest>)
    ensures |r| == (|row| + 1) / 2
  {
    seq((|row| + 1) / 2, i requires 0 <= i < (|row| + 1) / 2 => f(row[2 * i], row[if 2 * i + 1 < |row| then 2 * i + 1 else 2 * i]))
  }

  function Row(f: Combine, txids: seq<Digest>, h: nat): seq<Digest> {
    if h == 0 then txids else NextRow(f, Row(f, txids, h - 1))
  }

  function MerkleRoot(f: Combine, row: seq<Digest>): Digest
    requires |row| > 0
    decreases |row|
  {
    if |row| == 1 then row[0] else MerkleRoot(f, NextRow(f, row))
  }

  lemma RowWidth(n: nat, h: nat)
    ensures Width(n, 0) == n && Width(n, h + 1) == (Width(n, h) + 1) / 2
  {
    assert Pow2(0) == 1 && Pow2(h + 1) == 2 * Pow2(h);
    hide Pow2;
    HalfOf(n, Pow2(h));
  }

  lemma HalfOf(n: nat, x: nat)
    requires x >= 1
    ensures (n + 2 * x - 1) / (2 * x) == ((n + x - 1) / x + 1) / 2
  {
    var w := Quotient(n + x - 1, x);
    DivParts(n + x - 1, x);
    HalfWidth(n, x, w, Quotient(w + 1, 2));
  }

  lemma HalfWidth(n: nat, x: nat, w: nat, v: nat)
    requires x >= 1 && x * w <= n + x - 1 < x * w + x && 2 * v <= w + 1 < 2 * v + 2
    ensures (n + 2 * x - 1) / (2 * x) == v
  {
    MulMonotone(x, 2 * v, w + 1);
    MulMonotone(x, w + 1, 2 * v + 1);
    assert x * (w + 1) == x * w + x;
    assert (2 * x) * v == x * (2 * v) && x * (2 * v + 1) == x * (2 * v) + x;
    DivIs(n + 2 * x - 1, 2 * x, v);
  }

  /** Each row holds the hashes of the nodes at that height. */
  lemma {:induction false} RowIs(f: Combine, txids: seq<Digest>, h: nat)
    requires |txids| > 0
    ensures |Row(f, txids, h)| == Width(|txids|, h)
    ensures forall pos: nat | pos < Width(|txids|, h) :: First(h, pos) < |txids| && Row(f, txids, h)[pos] == CalcHash(f, txids, h, pos)
  {
    var n := |txids|;
    hide Width, First, CalcHash, Pow2, NextRow;
    if h == 0 {
      RowWidth(n, 0);
      forall pos: nat | pos < Width(n, 0) ensures First(0, pos) < n && Row(f, txids, 0)[pos] == CalcHash(f, txids, 0, pos) {
        LeafHash(f, txids, pos);
      }
    } else {
      RowIs(f, txids, h - 1);
      RowWidth(n, h - 1);
      forall pos: nat | pos < Width(n, h) ensures First(h, pos) < n && Row(f, txids, h)[pos] == CalcHash(f, txids, h, pos) {
        InsideRow(n, h, pos);
        InsideRow(n, h - 1, 2 * pos + 1);
        HashInside(f, txids, h, pos);
        NextRowAt(f, Row(f, txids, h - 1), pos);
      }
    }
  }

  lemma NextRowAt(f: Combine, row: seq<Digest>, i: nat)
    requires i < (|row| + 1) / 2
    ensures NextRow(f, row)[i] == f(row[2 * i], row[if 2 * i + 1 < |row| then 2 * i + 1 else 2 * i])
  {
  }

  lemma LeafHash(f: Combine, txids: seq<Digest>, pos: nat)
    requires pos < |txids|
    ensures First(0, pos) < |txids| && CalcHash(f, txids, 0, pos) == txids[pos]
  {
    assert Pow2(0) == 1;
  }

  lemma {:induction false} RowsUp(f: Combine, txids: seq<Digest>, h: nat, top: nat)
    requires |txids| > 0 && h <= top && |Row(f, txids, top)| == 1 && forall k: nat | k < top :: |Row(f, txids, k)| > 1
    ensures |Row(f, txids, h)| > 0 && MerkleRoot(f, Row(f, txids, h)) == Row(f, txids, top)[0]
    decreases top - h
  {
    hide NextRow;
    if h < top {
      assert Row(f, txids, h + 1) == NextRow(f, Row(f, txids, h));
      RowsUp(f, txids, h + 1, top);
    }
  }

  /** The two ways from the leaves to the root agree. */
  lemma RootIsMerkleRoot(f: Combine, txids: seq<Digest>)
    requires |txids| > 0
    ensures Root(f, txids) == MerkleRoot(f, txids)
  {
    var n, top := |txids|, Height(|txids|);
    HeightIs(n, 0);
    RootCovers(n, top);
    InsideRow(n, top, 0);
    RowIs(f, txids, top);
    forall k: nat | k < top ensures |Row(f, txids, k)| > 1 {
      RowIs(f, txids, k);
    }
    RowsUp(f, txids, 0, top);
  }
}
