/**
 `CRollingBloomFilter` (src/bloom.h, src/bloom.cpp): three generations of keys share one bit
 array; starting a generation wipes what is left of the oldest.
 */
module RollingBloom {
  import opened Arithmetic
  import opened WordBits

  type Key = seq<int>

  /** The seeded hash of a key, once the tweak has been chosen. */
  type Hash = (nat, Key) -> bv32

  /** A position of the filter: a pair of words and a bit in both of them. */
  datatype Place = Place(pair: nat, bit: bv64)

  function Bit(h: bv32): (b: bv64)
    ensures b < 64
  {
    (h & 0x3F) as bv64
  }

  /** The word a hash picks, before its lowest bit is dropped. */
  function Word(h: bv32, size: nat): (w: nat)
    requires size > 0
    ensures w < size
  {
    ((h >> 6) as nat) % size
  }

  function PlaceOf(h: bv32, size: nat): (p: Place)
    requires size > 0
    ensures p.bit < 64 && 2 * p.pair <= Word(h, size) <= 2 * p.pair + 1
  {
    Place(Word(h, size) / 2, Bit(h))
  }

  /** One of the first `n` hashes of the key is at this place. */
  ghost predicate Touches(hash: Hash, size: nat, key: Key, n: nat, p: Place)
    requires size > 0
  {
    exists k: nat | k < n :: PlaceOf(hash(k, key), size) == p
  }

  // ---------------------------------------------------------------- what the filter holds

  /** The number of the generation the last of `n` keys belongs to, counted from 0. */
  function Era(n: nat, perGeneration: nat): nat
    requires perGeneration > 0
  {
    if n == 0 then 0 else (n - 1) / perGeneration
  }

  /** The era of the last key put at a place, or -1. */
  ghost function LastEra(hash: Hash, size: nat, nHashFuncs: nat, perGeneration: nat, keys: seq<Key>, p: Place): (e: int)
    requires size > 0 && perGeneration > 0
    ensures -1 <= e <= Era(|keys|, perGeneration)
  {
    if keys == [] then -1
    else if Touches(hash, size, keys[|keys| - 1], nHashFuncs, p) then Era(|keys|, perGeneration)
    else EraGrows(|keys|, perGeneration); LastEra(hash, size, nHashFuncs, perGeneration, keys[..|keys| - 1], p)
  }

  /** What stands for an era: its generation number, or nothing once it is too old. */
  function Mark(era: int, now: nat): nat {
    if era < 0 || era < now - 2 then 0 else era % 3 + 1
  }

  /** Each place holds the mark of the last key put there. */
  ghost predicate Marked(hash: Hash, size: nat, nHashFuncs: nat, perGeneration: nat, keys: seq<Key>, data: seq<bv64>, now: nat)
    requires size == |data| > 0 && perGeneration > 0
  {
    forall i: nat, b: bv64 | 2 * i + 1 < |data| && b < 64 ::
      TagAt(data, i, b) == Mark(LastEra(hash, size, nHashFuncs, perGeneration, keys, Place(i, b)), now)
  }

  function TagAt(data: seq<bv64>, i: nat, b: bv64): nat
    requires 2 * i + 1 < |data| && b < 64
  {
    Tag(data[2 * i], data[2 * i + 1], b)
  }

  lemma EraGrows(n: nat, g: nat)
    requires n > 0 && g > 0
    ensures Era(n - 1, g) <= Era(n, g)
  {
    if n > 1 {
      DivMonotone(n - 2, n - 1, g);
    }
  }

  /** Wiping a generation number takes away exactly the marks that become too old. */
  lemma MarkAges(era: int, now: nat)
    requires era <= now
    ensures Mark(era, now + 1) == if Mark(era, now) == (now + 1) % 3 + 1 then 0 else Mark(era, now)
  {
  }

  /** Every key among the last two generations and the current one is at places whose last
      key is no older. */
  lemma {:induction false} RecentEra(hash: Hash, size: nat, nHashFuncs: nat, g: nat, keys: seq<Key>, i: nat, p: Place)
    requires size > 0 && g > 0 && i < |keys| && Touches(hash, size, keys[i], nHashFuncs, p)
    ensures LastEra(hash, size, nHashFuncs, g, keys, p) >= Era(i + 1, g)
  {
    var last := |keys| - 1;
    if i < last {
      if Touches(hash, size, keys[last], nHashFuncs, p) {
        DivMonotone(i, last, g);
      } else {
        RecentEra(hash, size, nHashFuncs, g, keys[..last], i, p);
      }
    }
  }

  /** A place is marked as long as its last key is no older than two generations. */
  lemma MarkedWhile(era: int, now: nat)
    requires era <= now
    ensures Mark(era, now) != 0 <==> era >= 0 && era >= now - 2
  {
  }

  // ---------------------------------------------------------------- the filter

  class RollingBloomFilter {
    const nEntriesPerGeneration: nat
    const nHashFuncs: nat
    const data: array<bv64>
    var hash: Hash
    var nEntriesThisGeneration: nat
    var nGeneration: nat
    /** The keys inserted since the last reset. */
    ghost var keys: seq<Key>

    ghost function Now(): nat
      requires nEntriesPerGeneration > 0
      reads this
    {
      Era(|keys|, nEntriesPerGeneration)
    }

    ghost predicate Counted()
      reads this
    {
      && nEntriesPerGeneration > 0 && data.Length > 0 && data.Length % 2 == 0
      && nGeneration == Now() % 3 + 1
      && |keys| == nEntriesPerGeneration * Now() + nEntriesThisGeneration
      && nEntriesThisGeneration <= nEntriesPerGeneration
    }

    ghost predicate Valid()
      reads this, data
    {
      Counted() && Marked(hash, data.Length, nHashFuncs, nEntriesPerGeneration, keys, data[..], Now())
    }

    /** The number of bits comes out of floating-point arithmetic on the wanted error rate. */
    constructor (nElements: nat, nFilterBits: nat, hashFuncs: nat, h: Hash)
      requires nElements >= 1 && nFilterBits >= 1
      ensures Valid() && keys == [] && nElements <= 2 * nEntriesPerGeneration <= nElements + 1 && fresh(data)
    {
      nEntriesPerGeneration := (nElements + 1) / 2;
      nHashFuncs := hashFuncs;
      data := new bv64[(nFilterBits + 63) / 64 * 2](_ => 0);
      hash, nEntriesThisGeneration, nGeneration, keys := h, 0, 1, [];
      new;
      NothingMarked(hash, data.Length, nHashFuncs, nEntriesPerGeneration, data[..]);
    }

    /** Forgets everything and takes a new tweak, that is, new hash functions. */
    method Reset(h: Hash)
      requires Valid()
      modifies this, data
      ensures Valid() && keys == [] && hash == h
    {
      hide Marked;
      hash := h;
      nEntriesThisGeneration := 0;
      nGeneration := 1;
      for i := 0 to data.Length
        invariant forall j | 0 <= j < i :: data[j] == 0
        invariant hash == h && nEntriesThisGeneration == 0 && nGeneration == 1
      {
        data[i] := 0;
      }
      keys := [];
      NothingMarked(hash, data.Length, nHashFuncs, nEntriesPerGeneration, data[..]);
    }

    method WipePair(p: nat, ghost was: seq<bv64>, ghost w: nat)
      requires p == 2 * w && p + 1 < data.Length == |was| && 1 <= nGeneration <= 3
      requires data[p] == was[p] && data[p + 1] == was[p + 1] && Wiped(was, data[..], w, nGeneration)
      modifies data
      ensures forall j | p + 2 <= j < data.Length :: data[j] == old(data[j])
      ensures Wiped(was, data[..], w + 1, nGeneration)
    {
      hide Wiped, Tag, WipeMask, Masked, Spread;
      var p1, p2 := data[p], data[p + 1];
      var mask := WipeMask(p1, p2, Spread(Low(nGeneration)), Spread(High(nGeneration)));
      data[p] := Masked(p1, mask);
      data[p + 1] := Masked(p2, mask);
      PairWiped(was, old(data[..]), data[..], w, nGeneration);
    }

    /** Starts a generation: whatever is left of the oldest one is wiped, two words at a time. */
    method NextGeneration()
      requires Valid() && nEntriesThisGeneration == nEntriesPerGeneration
      modifies this`nEntriesThisGeneration, this`nGeneration, data
      ensures nEntriesThisGeneration == 0 && nGeneration == (old(Now()) + 1) % 3 + 1
      ensures Marked(hash, data.Length, nHashFuncs, nEntriesPerGeneration, keys, data[..], old(Now()) + 1)
    {
      nEntriesThisGeneration := 0;
      nGeneration := nGeneration + 1;
      if nGeneration == 4 {
        nGeneration := 1;
      }
      hide Marked, TagAt, Era, Wiped;
      ghost var was, generation := data[..], nGeneration;
      assert 1 <= generation <= 3 && generation == (old(Now()) + 1) % 3 + 1;
      WipeGeneration(data.Length / 2);
      AllWiped(hash, nHashFuncs, nEntriesPerGeneration, keys, was, data[..], old(Now()), generation, data.Length / 2);
    }

    method WipeGeneration(ghost half: nat)
      requires data.Length == 2 * half && 1 <= nGeneration <= 3
      modifies data
      ensures Wiped(old(data[..]), data[..], half, nGeneration)
    {
      hide Wiped;
      ghost var was, pairs := data[..], 0;
      NoneWiped(was, nGeneration);
      var p := 0;
      while p < data.Length
        invariant 0 <= p == 2 * pairs <= data.Length
        invariant forall j | p <= j < data.Length :: data[j] == was[j]
        invariant Wiped(was, data[..], pairs, nGeneration)
        decreases data.Length - p
      {
        WipePair(p, was, pairs);
        p, pairs := p + 2, pairs + 1;
      }
    }

    /** Adds a key to the current generation, starting a new one if it is full. */
    method Insert(key: Key)
      requires Valid()
      modifies this, data
      ensures Valid() && keys == old(keys) + [key] && hash == old(hash)
    {
      hide Marked, Era;
      ghost var now := Now();
      EraNext(|keys|, nEntriesPerGeneration, now, nEntriesThisGeneration);
      if nEntriesThisGeneration == nEntriesPerGeneration {
        NextGeneration();
        now := now + 1;
      }
      nEntriesThisGeneration := nEntriesThisGeneration + 1;
      ghost var was := data[..];
      MarkKey(key);
      keys := keys + [key];
      KeyMarked(hash, nHashFuncs, nEntriesPerGeneration, old(keys), key, was, data[..], now, nGeneration);
    }

    /** Sets every place of a key to the current generation. */
    method MarkKey(key: Key)
      requires data.Length > 0 && data.Length % 2 == 0 && 1 <= nGeneration <= 3
      modifies data
      ensures Touched(hash, key, nHashFuncs, old(data[..]), data[..], nGeneration)
    {
      hide TagAt, Tag, Put, Touched, Bit, Word;
      NoneTouched(hash, key, data[..], nGeneration);
      for n := 0 to nHashFuncs
        invariant Touched(hash, key, n, old(data[..]), data[..], nGeneration)
      {
        var h := hash(n, key);
        var pos := Word(h, data.Length);
        var p := PlaceOf(h, data.Length);
        LastPair(pos, data.Length);
        OneTouched(hash, key, n, old(data[..]), data[..], nGeneration);
        SetPlace(2 * p.pair, p.bit);
      }
    }

    method SetPlace(w: nat, bit: bv64)
      requires w + 1 < data.Length && bit < 64
      modifies data
      ensures data[..] == old(data[..])[w := Put(old(data[w]), bit, Low(nGeneration))][w + 1 := Put(old(data[w + 1]), bit, High(nGeneration))]
    {
      hide Put;
      data[w] := Put(data[w], bit, Low(nGeneration));
      data[w + 1] := Put(data[w + 1], bit, High(nGeneration));
    }

    /** Whether every place of the key is marked. That is so exactly when each was last used by
        a key no older than two generations; in particular for every key among the last two
        full generations and the current one, hence among the last `nElements`. */
    method Contains(key: Key) returns (found: bool)
      requires Valid()
      ensures found <==> forall n: nat | n < nHashFuncs :: Recent(key, n)
      ensures (exists i: nat :: i < |keys| && |keys| - i <= 2 * nEntriesPerGeneration + nEntriesThisGeneration && keys[i] == key) ==> found
    {
      hide TagAt, Tag, Either, Has, Marked, Bit, Word, LastEra, Era;
      RecentFound(key);
      for n := 0 to nHashFuncs
        invariant forall k: nat | k < n :: Recent(key, k)
      {
        var h := hash(n, key);
        var p := PlaceOf(h, data.Length);
        LastPair(Word(h, data.Length), data.Length);
        RecentIs(key, n, p);
        if !Has(Either(data[2 * p.pair], data[2 * p.pair + 1]), p.bit) {
          return false;
        }
      }
      return true;
    }

    /** The place of the key's `n`-th hash was last used in one of the last three eras. */
    ghost predicate Recent(key: Key, n: nat)
      requires Counted()
      reads this
    {
      var era := LastEra(hash, data.Length, nHashFuncs, nEntriesPerGeneration, keys, PlaceOf(hash(n, key), data.Length));
      era >= 0 && era >= Now() - 2
    }

    lemma RecentIs(key: Key, n: nat, p: Place)
      requires Valid() && p == PlaceOf(hash(n, key), data.Length) && 2 * p.pair + 1 < data.Length
      ensures Recent(key, n) <==> Has(Either(data[2 * p.pair], data[2 * p.pair + 1]), p.bit)
    {
      hide LastEra, Either, Has, PlaceOf, Era, Tag;
      var era := LastEra(hash, data.Length, nHashFuncs, nEntriesPerGeneration, keys, p);
      BitBelow(hash(n, key), data.Length);
      TagEither(data[2 * p.pair], data[2 * p.pair + 1], p.bit);
      MarkedWhile(era, Now());
      assert TagAt(data[..], p.pair, p.bit) == Mark(era, Now());
    }

    /** The window: no key of the last two generations and the current one is forgotten. */
    lemma RecentFound(key: Key)
      requires Valid()
      ensures (exists i: nat :: i < |keys| && |keys| - i <= 2 * nEntriesPerGeneration + nEntriesThisGeneration && keys[i] == key) ==>
        forall n: nat | n < nHashFuncs :: Recent(key, n)
    {
      hide LastEra, PlaceOf, Marked;
      if i: nat :| i < |keys| && |keys| - i <= 2 * nEntriesPerGeneration + nEntriesThisGeneration && keys[i] == key {
        WindowEra(|keys|, nEntriesPerGeneration, Now(), nEntriesThisGeneration, i);
        forall n: nat | n < nHashFuncs ensures Recent(key, n) {
          var p := PlaceOf(hash(n, key), data.Length);
          assert Touches(hash, data.Length, key, nHashFuncs, p);
          RecentEra(hash, data.Length, nHashFuncs, nEntriesPerGeneration, keys, i, p);
        }
      }
    }
  }

  lemma BitBelow(h: bv32, size: nat)
    requires size > 0
    ensures PlaceOf(h, size).bit < 64
  {
  }

  lemma LastPair(pos: nat, size: nat)
    requires pos < size && size % 2 == 0
    ensures 2 * (pos / 2) + 1 < size
  {
  }

  /** The next key belongs to the same era until its generation is full. */
  lemma EraNext(n: nat, g: nat, now: nat, used: nat)
    requires g > 0 && n == g * now + used && used <= g
    ensures Era(n + 1, g) == if used == g then now + 1 else now
    ensures n + 1 == g * Era(n + 1, g) + (if used == g then 0 else used) + 1
  {
    if used == g {
      assert g * (now + 1) == g * now + g;
      DivIs(n, g, now + 1);
    } else {
      DivIs(n, g, now);
    }
  }

  lemma WindowEra(n: nat, g: nat, now: nat, used: nat, i: nat)
    requires g > 0 && n == g * now + used && i < n && n - i <= 2 * g + used
    ensures Era(i + 1, g) >= now - 2
  {
    if now >= 2 {
      assert g * now == g * (now - 2) + 2 * g;
      DivIs(g * (now - 2), g, now - 2);
      DivMonotone(g * (now - 2), i, g);
    }
  }

  /** The first `n` places of the key hold generation `g`, the others what they held. */
  ghost predicate Touched(hash: Hash, key: Key, n: nat, was: seq<bv64>, data: seq<bv64>, g: nat)
  {
    && |was| == |data| > 0
    && forall i: nat, b: bv64 | 2 * i + 1 < |data| && b < 64 ::
         TagAt(data, i, b) == if Touches(hash, |data|, key, n, Place(i, b)) then g else TagAt(was, i, b)
  }

  lemma NoneTouched(hash: Hash, key: Key, data: seq<bv64>, g: nat)
    requires |data| > 0
    ensures Touched(hash, key, 0, data, data, g)
  {
  }

  lemma OneTouched(hash: Hash, key: Key, n: nat, was: seq<bv64>, data: seq<bv64>, g: nat)
    requires Touched(hash, key, n, was, data, g) && 1 <= g <= 3
    requires 2 * PlaceOf(hash(n, key), |data|).pair + 1 < |data|
    ensures var p := PlaceOf(hash(n, key), |data|);
      var after := data[2 * p.pair := Put(data[2 * p.pair], p.bit, Low(g))][2 * p.pair + 1 := Put(data[2 * p.pair + 1], p.bit, High(g))];
      Touched(hash, key, n + 1, was, after, g)
  {
    hide TagAt, Put, Low, High, PlaceOf, Touches;
    var p := PlaceOf(hash(n, key), |data|);
    BitBelow(hash(n, key), |data|);
    var w := 2 * p.pair;
    var after := data[w := Put(data[w], p.bit, Low(g))][w + 1 := Put(data[w + 1], p.bit, High(g))];
    forall i: nat, b: bv64 | 2 * i + 1 < |data| && b < 64
      ensures TagAt(after, i, b) == if Touches(hash, |data|, key, n + 1, Place(i, b)) then g else TagAt(was, i, b)
    {
      TouchesNext(hash, |data|, key, n, Place(i, b));
      TagAfter(data, p.pair, p.bit, g, i, b);
    }
  }

  lemma TagAfter(data: seq<bv64>, pair: nat, bit: bv64, g: nat, i: nat, b: bv64)
    requires 2 * pair + 1 < |data| && 2 * i + 1 < |data| && bit < 64 && b < 64 && 1 <= g <= 3
    ensures var w := 2 * pair;
      TagAt(data[w := Put(data[w], bit, Low(g))][w + 1 := Put(data[w + 1], bit, High(g))], i, b)
        == if i == pair && b == bit then g else TagAt(data, i, b)
  {
    hide Tag, Put, Low, High;
    TagPut(data[2 * pair], data[2 * pair + 1], bit, g, b);
  }

  lemma TouchesNext(hash: Hash, size: nat, key: Key, n: nat, p: Place)
    requires size > 0
    ensures Touches(hash, size, key, n + 1, p) <==> Touches(hash, size, key, n, p) || PlaceOf(hash(n, key), size) == p
  {
    if PlaceOf(hash(n, key), size) == p {
      assert n < n + 1;
    }
  }

  lemma KeyMarked(hash: Hash, nHashFuncs: nat, g: nat, keys: seq<Key>, key: Key, was: seq<bv64>, data: seq<bv64>, now: nat, generation: nat)
    requires |was| == |data| > 0 && g > 0 && now == Era(|keys| + 1, g) && generation == now % 3 + 1
    requires Marked(hash, |data|, nHashFuncs, g, keys, was, now)
    requires Touched(hash, key, nHashFuncs, was, data, generation)
    ensures Marked(hash, |data|, nHashFuncs, g, keys + [key], data, now)
  {
    hide TagAt, Era;
    var all := keys + [key];
    assert all[..|all| - 1] == keys;
    forall i: nat, b: bv64 | 2 * i + 1 < |data| && b < 64
      ensures TagAt(data, i, b) == Mark(LastEra(hash, |data|, nHashFuncs, g, all, Place(i, b)), now)
    {
    }
  }

  /** The first `pairs` pairs of words have lost generation `g`. */
  ghost predicate Wiped(was: seq<bv64>, data: seq<bv64>, pairs: nat, g: nat)
    requires |was| == |data|
  {
    forall i: nat, b: bv64 | i < pairs && 2 * i + 1 < |data| && b < 64 ::
      TagAt(data, i, b) == if TagAt(was, i, b) == g then 0 else TagAt(was, i, b)
  }

  lemma NoneWiped(data: seq<bv64>, g: nat)
    ensures Wiped(data, data, 0, g)
  {
  }

  lemma NothingMarked(hash: Hash, size: nat, nHashFuncs: nat, g: nat, data: seq<bv64>)
    requires size == |data| > 0 && g > 0 && forall i | 0 <= i < size :: data[i] == 0
    ensures Marked(hash, size, nHashFuncs, g, [], data, 0)
  {
    forall i: nat, b: bv64 | 2 * i + 1 < |data| && b < 64
      ensures TagAt(data, i, b) == Mark(LastEra(hash, size, nHashFuncs, g, [], Place(i, b)), 0)
    {
      TagZero(b);
    }
  }

  /** One pair of words wiped. */
  lemma PairWiped(was: seq<bv64>, before: seq<bv64>, after: seq<bv64>, w: nat, g: nat)
    requires |was| == |before| == |after| && 2 * w + 1 < |was| && 1 <= g <= 3
    requires before[2 * w] == was[2 * w] && before[2 * w + 1] == was[2 * w + 1]
    requires var mask := WipeMask(was[2 * w], was[2 * w + 1], Spread(Low(g)), Spread(High(g)));
      after == before[2 * w := Masked(was[2 * w], mask)][2 * w + 1 := Masked(was[2 * w + 1], mask)]
    requires Wiped(was, before, w, g)
    ensures Wiped(was, after, w + 1, g)
  {
    hide Tag, WipeMask, Masked, Spread, Low, High;
    forall i: nat, b: bv64 | i < w + 1 && 2 * i + 1 < |after| && b < 64
      ensures TagAt(after, i, b) == if TagAt(was, i, b) == g then 0 else TagAt(was, i, b)
    {
      if i == w {
        TagWiped(was[2 * w], was[2 * w + 1], g, b);
      } else {
        assert after[2 * i] == before[2 * i] && after[2 * i + 1] == before[2 * i + 1];
        assert TagAt(after, i, b) == TagAt(before, i, b);
      }
    }
  }

  lemma AllWiped(hash: Hash, nHashFuncs: nat, g: nat, keys: seq<Key>, was: seq<bv64>, data: seq<bv64>, now: nat, generation: nat, pairs: nat)
    requires |was| == |data| > 0 && g > 0 && now == Era(|keys|, g) && generation == (now + 1) % 3 + 1
    requires Marked(hash, |data|, nHashFuncs, g, keys, was, now)
    requires Wiped(was, data, pairs, generation) && 2 * pairs >= |data|
    ensures Marked(hash, |data|, nHashFuncs, g, keys, data, now + 1)
  {
    hide TagAt, LastEra, Mark;
    forall i: nat, b: bv64 | 2 * i + 1 < |data| && b < 64
      ensures TagAt(data, i, b) == Mark(LastEra(hash, |data|, nHashFuncs, g, keys, Place(i, b)), now + 1)
    {
      var era := LastEra(hash, |data|, nHashFuncs, g, keys, Place(i, b));
      MarkAges(era, now);
      assert TagAt(was, i, b) == Mark(era, now);
    }
  }
}
