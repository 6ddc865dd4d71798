/**
 `CPartialMerkleTree` (src/merkleblock.h, src/merkleblock.cpp): the object that is built from
 a block's transaction ids, sent as bytes, and read back against a Merkle root.
 */
module PartialMerkle {
  import opened FlagBits
  import opened Helpers
  import opened MerkleTree

  const MAX_BLOCK_WEIGHT: nat := 32000000
  const MIN_TRANSACTION_WEIGHT: nat := 240

  // ---------------------------------------------------------------- flag bytes

  /** `bytes` holds `bits` from the lowest bit up, with zeroes after them. */
  ghost predicate Packed(bits: seq<bool>, bytes: seq<bv8>) {
    && |bytes| == (|bits| + 7) / 8
    && forall p: nat | p < 8 * |bytes| :: FlagOf(bytes, p) <==> p < |bits| && bits[p]
  }

  method PackBits(vBits: seq<bool>) returns (vBytes: seq<bv8>)
    ensures Packed(vBits, vBytes)
  {
    hide HasBit, WithBit, FlagOf;
    vBytes := seq((|vBits| + 7) / 8, _ => 0);
    NoFlags(vBytes);
    for p := 0 to |vBits|
      invariant |vBytes| == (|vBits| + 7) / 8
      invariant forall q: nat | q < 8 * |vBytes| :: FlagOf(vBytes, q) <==> q < p && vBits[q]
    {
      ghost var was := vBytes;
      if vBits[p] {
        vBytes := vBytes[p / 8 := WithBit(vBytes[p / 8], p % 8, true)];
      }
      forall q: nat | q < 8 * |vBytes| ensures FlagOf(vBytes, q) <==> q < p + 1 && vBits[q] {
        FlagPut(was, p, true, q);
        assert FlagOf(was, q) <==> q < p && vBits[q];
      }
    }
  }

  lemma NoFlags(bytes: seq<bv8>)
    requires forall i | 0 <= i < |bytes| :: bytes[i] == 0
    ensures forall q: nat | q < 8 * |bytes| :: !FlagOf(bytes, q)
  {
    forall q: nat | q < 8 * |bytes| ensures !FlagOf(bytes, q) {
      AllBits(q % 8);
    }
  }

  method UnpackBits(vBytes: seq<bv8>) returns (vBits: seq<bool>)
    ensures |vBits| == 8 * |vBytes| && forall p: nat | p < |vBits| :: vBits[p] == FlagOf(vBytes, p)
  {
    vBits := [];
    for p := 0 to 8 * |vBytes|
      invariant |vBits| == p && forall q: nat | q < p :: vBits[q] == FlagOf(vBytes, q)
    {
      vBits := vBits + [HasBit(vBytes[p / 8], p % 8)];
    }
  }

  /** Unpacking gives the packed bits back, padded to whole bytes. */
  lemma UnpackPacked(bits: seq<bool>, bytes: seq<bv8>, back: seq<bool>)
    requires Packed(bits, bytes)
    requires |back| == 8 * |bytes| && forall p: nat | p < |back| :: back[p] == FlagOf(bytes, p)
    ensures Holds(back, 0, bits) && (|back| + 7) / 8 == (|bits| + 7) / 8
  {
    assert back[0..|bits|] == bits;
  }

  // ---------------------------------------------------------------- the whole reading

  function HeightFrom(n: nat, h: nat): nat
    decreases n - h
  {
    if Width(n, h) <= 1 then h else
      WideIsLow(n, h);
      HeightFrom(n, h + 1)
  }

  function Height(n: nat): nat {
    HeightFrom(n, 0)
  }

  lemma WideIsLow(n: nat, h: nat)
    requires Width(n, h) > 1
    ensures h < n
  {
    InsideRow(n, h, 1);
    PowerGrows(h);
  }

  lemma {:induction false} PowerGrows(h: nat)
    ensures h < Pow2(h)
  {
    if h > 0 {
      PowerGrows(h - 1);
    }
  }

  lemma {:induction false} HeightIs(n: nat, h: nat)
    requires forall k: nat | k < h :: Width(n, k) > 1
    ensures IsHeight(n, HeightFrom(n, h))
    decreases n - h
  {
    if Width(n, h) > 1 {
      WideIsLow(n, h);
      HeightIs(n, h + 1);
    }
  }

  /** The Merkle root of a list of transaction ids. */
  ghost function Root(f: Combine, txids: seq<Digest>): Digest
    requires |txids| > 0
  {
    HeightIs(|txids|, 0);
    RootCovers(|txids|, Height(|txids|));
    CalcHash(f, txids, Height(|txids|), 0)
  }

  /** The reading a partial tree gives from its root. */
  function ReadAll(f: Combine, n: nat, bits: seq<bool>, hashes: seq<Digest>, bad: bool, indices: seq<nat>): Reading {
    Extract(f, n, bits, hashes, Height(n), 0, Reading(0, 0, 0, [], indices, bad))
  }

  predicate WorthReading(n: nat, bits: seq<bool>, hashes: seq<Digest>) {
    0 < n <= MAX_BLOCK_WEIGHT / MIN_TRANSACTION_WEIGHT && |hashes| <= n && |bits| >= |hashes|
  }

  /** Nothing went wrong, all whole bytes of bits and all hashes were used. */
  predicate UsedUp(bits: seq<bool>, hashes: seq<Digest>, e: Reading) {
    !e.bad && (e.bitsUsed + 7) / 8 == (|bits| + 7) / 8 && e.hashUsed == |hashes|
  }

  predicate Accepts(f: Combine, n: nat, bits: seq<bool>, hashes: seq<Digest>, bad: bool, indices: seq<nat>) {
    WorthReading(n, bits, hashes) && UsedUp(bits, hashes, ReadAll(f, n, bits, hashes, bad, indices))
  }

  /** Whatever the bits and hashes are: if the reading is accepted and its root is that of a
      list of as many transactions, every reported pair is in that list, at its place, and
      the places go up. */
  lemma Authentic(f: Combine, txids: seq<Digest>, bits: seq<bool>, hashes: seq<Digest>, bad: bool)
    requires Injective(f) && Accepts(f, |txids|, bits, hashes, bad, [])
    requires ReadAll(f, |txids|, bits, hashes, bad, []).hash == Root(f, txids)
    ensures var e := ReadAll(f, |txids|, bits, hashes, bad, []);
      && |e.matches| == |e.indices| && Increasing(e.indices)
      && forall k | 0 <= k < |e.indices| :: e.indices[k] < |txids| && txids[e.indices[k]] == e.matches[k]
  {
    HeightIs(|txids|, 0);
    RootCovers(|txids|, Height(|txids|));
    NodeSound(f, txids, bits, hashes, Height(|txids|), 0, Reading(0, 0, 0, [], [], bad));
  }

  /** The bits and hashes of a selection. */
  ghost function TreeBits(mask: seq<bool>): seq<bool>
    requires |mask| > 0
  {
    HeightIs(|mask|, 0);
    RootCovers(|mask|, Height(|mask|));
    Bits(mask, Height(|mask|), 0)
  }

  ghost function TreeHashes(f: Combine, txids: seq<Digest>, mask: seq<bool>): seq<Digest>
    requires |txids| == |mask| > 0
  {
    HeightIs(|mask|, 0);
    RootCovers(|mask|, Height(|mask|));
    Hashes(f, txids, mask, Height(|mask|), 0)
  }

  /** For distinct ids within the size limit and any mask: what was built and padded to whole
      bytes is accepted, gives the Merkle root, and reports exactly the selected ids and
      their places, in order. */
  lemma Complete(f: Combine, txids: seq<Digest>, mask: seq<bool>, bits: seq<bool>)
    requires Injective(f) && Distinct(txids)
    requires 0 < |txids| == |mask| <= MAX_BLOCK_WEIGHT / MIN_TRANSACTION_WEIGHT
    requires Holds(bits, 0, TreeBits(mask)) && (|bits| + 7) / 8 == (|TreeBits(mask)| + 7) / 8
    ensures Accepts(f, |txids|, bits, TreeHashes(f, txids, mask), false, [])
    ensures var e := ReadAll(f, |txids|, bits, TreeHashes(f, txids, mask), false, []);
      && e.hash == Root(f, txids)
      && e.indices == Selected(mask, 0, |mask|)
      && e.matches == Picked(txids, Selected(mask, 0, |mask|))
  {
    var n, h, hashes := |txids|, Height(|txids|), TreeHashes(f, txids, mask);
    HeightIs(n, 0);
    RootCovers(n, h);
    var r := Reading(0, 0, 0, [], [], false);
    assert hashes[0..|hashes|] == hashes;
    NodeComplete(f, txids, mask, bits, hashes, h, 0, r);
    HashCount(f, txids, mask, h, 0);
    BitCount(f, txids, mask, h, 0);
  }

  /** How large it gets: at most a hash a transaction, and at most one and a path for each
      selected one. */
  lemma Sizes(f: Combine, txids: seq<Digest>, mask: seq<bool>)
    requires |txids| == |mask| > 0
    ensures |TreeHashes(f, txids, mask)| <= |txids|
    ensures |TreeHashes(f, txids, mask)| <= 1 + |Selected(mask, 0, |mask|)| * Height(|txids|)
    ensures |TreeBits(mask)| >= 2 * |TreeHashes(f, txids, mask)| - 1
  {
    HeightIs(|mask|, 0);
    RootCovers(|mask|, Height(|mask|));
    HashCount(f, txids, mask, Height(|mask|), 0);
    BitCount(f, txids, mask, Height(|mask|), 0);
  }

  /** The bits are at most twice the hashes less one exactly if no inner node that is entered
      has a single child. */
  lemma BitsBounded(f: Combine, txids: seq<Digest>, mask: seq<bool>)
    requires |txids| == |mask| > 0
    ensures First(Height(|mask|), 0) == 0
    ensures |TreeBits(mask)| <= 2 * |TreeHashes(f, txids, mask)| - 1 <==> OnlyChildren(mask, Height(|mask|), 0) == 0
  {
    HeightIs(|mask|, 0);
    RootCovers(|mask|, Height(|mask|));
    BitCount(f, txids, mask, Height(|mask|), 0);
  }

  // ---------------------------------------------------------------- the object

  class PartialMerkleTree {
    const combine: Combine
    var nTransactions: nat
    var vBits: seq<bool>
    var vHash: seq<Digest>
    var fBad: bool

    /** An empty tree, marked bad until something is read into it. */
    constructor (f: Combine)
      ensures combine == f && nTransactions == 0 && fBad && vBits == [] && vHash == []
    {
      combine, nTransactions, vBits, vHash, fBad := f, 0, [], [], true;
    }

    /** Builds the tree for the transactions the mask selects. */
    constructor Build(f: Combine, vTxid: seq<Digest>, vMatch: seq<bool>)
      requires 0 < |vTxid| == |vMatch|
      ensures combine == f && nTransactions == |vTxid| && !fBad
      ensures vBits == TreeBits(vMatch) && vHash == TreeHashes(f, vTxid, vMatch)
    {
      combine, nTransactions, vBits, vHash, fBad := f, |vTxid|, [], [], false;
      new;
      var nHeight := CalcHeight();
      HeightIs(nTransactions, 0);
      RootCovers(nTransactions, nHeight);
      TraverseAndBuild(nHeight, 0, vTxid, vMatch);
    }

    method CalcHeight() returns (nHeight: nat)
      ensures nHeight == Height(nTransactions)
    {
      nHeight := 0;
      while Width(nTransactions, nHeight) > 1
        invariant HeightFrom(nTransactions, nHeight) == Height(nTransactions)
        decreases nTransactions - nHeight
      {
        WideIsLow(nTransactions, nHeight);
        nHeight := nHeight + 1;
      }
    }

    method TraverseAndBuild(height: nat, pos: nat, vTxid: seq<Digest>, vMatch: seq<bool>)
      requires nTransactions == |vTxid| == |vMatch| && First(height, pos) < nTransactions
      modifies this`vBits, this`vHash
      ensures vBits == old(vBits) + Bits(vMatch, height, pos)
      ensures vHash == old(vHash) + Hashes(combine, vTxid, vMatch, height, pos)
      decreases height
    {
      hide Bits, Hashes, CalcHash, Pow2;
      RowOrder(height, pos);
      var fParentOfMatch := false;
      var p := First(height, pos);
      while p < First(height, pos + 1) && p < nTransactions
        invariant First(height, pos) <= p <= End(nTransactions, height, pos)
        invariant fParentOfMatch == AnyMatch(vMatch, First(height, pos), p)
      {
        fParentOfMatch := fParentOfMatch || vMatch[p];
        p := p + 1;
      }
      assert fParentOfMatch == HasMatch(vMatch, height, pos);
      vBits := vBits + [fParentOfMatch];
      if height == 0 || !fParentOfMatch {
        StoredIs(combine, vTxid, vMatch, height, pos);
        vHash := vHash + [CalcHash(combine, vTxid, height, pos)];
      } else {
        BuiltInside(combine, vTxid, vMatch, height, pos);
        InsideRow(nTransactions, height - 1, 2 * pos + 1);
        TraverseAndBuild(height - 1, 2 * pos, vTxid, vMatch);
        if 2 * pos + 1 < Width(nTransactions, height - 1) {
          TraverseAndBuild(height - 1, 2 * pos + 1, vTxid, vMatch);
        }
      }
    }

    method TraverseAndExtract(height: nat, pos: nat, nBitsUsed: nat, nHashUsed: nat, vMatch: seq<Digest>, vnIndex: seq<nat>)
      returns (hash: Digest, nBitsUsed': nat, nHashUsed': nat, vMatch': seq<Digest>, vnIndex': seq<nat>)
      modifies this`fBad
      ensures Reading(hash, nBitsUsed', nHashUsed', vMatch', vnIndex', fBad) ==
        Extract(combine, nTransactions, vBits, vHash, height, pos, Reading(0, nBitsUsed, nHashUsed, vMatch, vnIndex, old(fBad)))
      decreases height
    {
      hide Extract, Width;
      ghost var r := Reading(0, nBitsUsed, nHashUsed, vMatch, vnIndex, fBad);
      NotDescended(combine, nTransactions, vBits, vHash, height, pos, r);
      hash, nBitsUsed', nHashUsed', vMatch', vnIndex' := 0, nBitsUsed, nHashUsed, vMatch, vnIndex;
      if nBitsUsed >= |vBits| {
        fBad := true;
        return;
      }
      var fParentOfMatch := vBits[nBitsUsed];
      nBitsUsed' := nBitsUsed + 1;
      if height == 0 || !fParentOfMatch {
        if nHashUsed >= |vHash| {
          fBad := true;
          return;
        }
        hash := vHash[nHashUsed];
        nHashUsed' := nHashUsed + 1;
        if height == 0 && fParentOfMatch {
          vMatch' := vMatch + [hash];
          vnIndex' := vnIndex + [pos];
        }
      } else {
        Descended(combine, nTransactions, vBits, vHash, height, pos, r);
        var left, right;
        left, nBitsUsed', nHashUsed', vMatch', vnIndex' :=
          TraverseAndExtract(height - 1, 2 * pos, nBitsUsed', nHashUsed', vMatch', vnIndex');
        ghost var l := Reading(left, nBitsUsed', nHashUsed', vMatch', vnIndex', fBad);
        HashIgnored(combine, nTransactions, vBits, vHash, height - 1, 2 * pos + 1, l, 0);
        if 2 * pos + 1 < Width(nTransactions, height - 1) {
          right, nBitsUsed', nHashUsed', vMatch', vnIndex' :=
            TraverseAndExtract(height - 1, 2 * pos + 1, nBitsUsed', nHashUsed', vMatch', vnIndex');
          if right == left {
            fBad := true;
          }
        } else {
          right := left;
        }
        hash := combine(left, right);
      }
    }

    /** `reached` says that the final return was reached; every failure returns zero. */
    method ExtractMatches(vnIndexIn: seq<nat>) returns (root: Digest, vMatch: seq<Digest>, vnIndex: seq<nat>, ghost reached: bool)
      modifies this`fBad
      ensures reached == Accepts(combine, nTransactions, vBits, vHash, old(fBad), vnIndexIn)
      ensures !reached ==> root == 0
      ensures reached ==> root == ReadAll(combine, nTransactions, vBits, vHash, old(fBad), vnIndexIn).hash
      ensures WorthReading(nTransactions, vBits, vHash) ==>
        var e := ReadAll(combine, nTransactions, vBits, vHash, old(fBad), vnIndexIn);
        vMatch == e.matches && vnIndex == e.indices && fBad == e.bad
      ensures !WorthReading(nTransactions, vBits, vHash) ==> vMatch == [] && vnIndex == vnIndexIn && fBad == old(fBad)
    {
      hide Extract, Width;
      root, vMatch, vnIndex, reached := 0, [], vnIndexIn, false;
      if nTransactions == 0 {
        return;
      }
      if nTransactions > MAX_BLOCK_WEIGHT / MIN_TRANSACTION_WEIGHT {
        return;
      }
      if |vHash| > nTransactions {
        return;
      }
      if |vBits| < |vHash| {
        return;
      }
      var nHeight := CalcHeight();
      var hashMerkleRoot, nBitsUsed, nHashUsed;
      hashMerkleRoot, nBitsUsed, nHashUsed, vMatch, vnIndex := TraverseAndExtract(nHeight, 0, 0, 0, vMatch, vnIndex);
      if fBad {
        return;
      }
      if (nBitsUsed + 7) / 8 != (|vBits| + 7) / 8 {
        return;
      }
      if nHashUsed != |vHash| {
        return;
      }
      return hashMerkleRoot, vMatch, vnIndex, true;
    }

    method Serialize() returns (n: nat, hashes: seq<Digest>, vBytes: seq<bv8>)
      ensures n == nTransactions && hashes == vHash && Packed(vBits, vBytes)
    {
      n, hashes := nTransactions, vHash;
      vBytes := PackBits(vBits);
    }

    method Unserialize(n: nat, hashes: seq<Digest>, vBytes: seq<bv8>)
      modifies this
      ensures nTransactions == n && vHash == hashes && !fBad
      ensures |vBits| == 8 * |vBytes| && forall p: nat | p < |vBits| :: vBits[p] == FlagOf(vBytes, p)
    {
      nTransactions, vHash := n, hashes;
      vBits := UnpackBits(vBytes);
      fBad := false;
    }
  }

  lemma StoredIs(f: Combine, txids: seq<Digest>, mask: seq<bool>, h: nat, pos: nat)
    requires |mask| == |txids| && First(h, pos) < |txids| && (h == 0 || !HasMatch(mask, h, pos))
    ensures Bits(mask, h, pos) == [HasMatch(mask, h, pos)]
    ensures Hashes(f, txids, mask, h, pos) == [CalcHash(f, txids, h, pos)]
  {
  }

  /** Build, send, receive, extract: the root comes out, with exactly the selected ids and
      their places in order. */
  method BuildSendExtract(f: Combine, vTxid: seq<Digest>, mask: seq<bool>)
    returns (root: Digest, vMatch: seq<Digest>, vnIndex: seq<nat>)
    requires Injective(f) && Distinct(vTxid)
    requires 0 < |vTxid| == |mask| <= MAX_BLOCK_WEIGHT / MIN_TRANSACTION_WEIGHT
    ensures root == Root(f, vTxid)
    ensures vnIndex == Selected(mask, 0, |mask|) && vMatch == Picked(vTxid, vnIndex)
  {
    var sender := new PartialMerkleTree.Build(f, vTxid, mask);
    var n, hashes, vBytes := sender.Serialize();
    var receiver := new PartialMerkleTree(f);
    receiver.Unserialize(n, hashes, vBytes);
    UnpackPacked(sender.vBits, vBytes, receiver.vBits);
    Complete(f, vTxid, mask, receiver.vBits);
    ghost var reached;
    root, vMatch, vnIndex, reached := receiver.ExtractMatches([]);
  }
}
