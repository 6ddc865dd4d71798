/**
 The loops of src/base58.cpp over a buffer of digits, against what they are meant to compute.
 */
module Base58Codec {
  import opened Arithmetic
  import opened Base58
  import opened Digits
  import opened Helpers

  // ---------------------------------------------------------------- the buffers are large enough

  /** 138/100 is at least log(256)/log(58). */
  function EncodeSize(n: nat): nat {
    n * 138 / 100 + 1
  }

  /** 733/1000 is at least log(58)/log(256). */
  function DecodeSize(n: nat): nat {
    n * 733 / 1000 + 1
  }

  lemma EncodeRoom(n: nat)
    ensures Pow(256, n) <= Pow(BASE, EncodeSize(n))
  {
    hide Pow;
    Eight();
    Room(256, BASE, 11, 8, n, EncodeSize(n));
  }

  lemma DecodeRoom(n: nat)
    ensures Pow(BASE, n) <= Pow(256, DecodeSize(n))
  {
    hide Pow;
    SeventyOne();
    Room(BASE, 256, 52, 71, n, DecodeSize(n));
  }

  lemma Eight()
    ensures Pow(256, 8) <= Pow(BASE, 11)
  {
    assert Pow(58, 11) == 24986644000165537792;
  }

  lemma SeventyOne()
    ensures Pow(BASE, 71) <= Pow(256, 52)
  {
    Powers58();
    Powers256();
    PowAdd(58, 36, 35);
    PowAdd(256, 26, 26);
  }

  lemma Powers58()
    ensures Pow(58, 35) == 52478302028992644968172978478148648556151605660894866578604032 && Pow(58, 36) == 3043741517681573408154032751732621616256793128331902261559033856
  {
    PowAdd(58, 9, 8);
    PowAdd(58, 18, 17);
    assert Pow(58, 8) == 128063081718016;
    assert Pow(58, 17) == 951208868148684143308060622848;
  }

  lemma Powers256()
    ensures Pow(256, 26) == 411376139330301510538742295639337626245683966408394965837152256
  {
    PowAdd(256, 13, 13);
    assert Pow(256, 13) == 20282409603651670423947251286016;
  }

  // ---------------------------------------------------------------- one step of the conversion

  /** A number in a buffer: digits, of which only the last `length` may be nonzero. */
  ghost predicate Holds(base: nat, buffer: seq<nat>, length: nat) {
    AreDigits(base, buffer) && length <= |buffer| && forall k | 0 <= k < |buffer| - length :: buffer[k] == 0
  }

  /** After the last `i` digits. */
  ghost predicate Carried(base: nat, was: seq<nat>, now: seq<nat>, i: nat, times: nat, add: nat, carry: nat) {
    && |was| == |now| && i <= |now| && AreDigits(base, now) && now[..|now| - i] == was[..|now| - i]
    && TailDone(base, was[|was| - i..], now[|now| - i..], times, add, carry)
  }

  lemma CarryStart(base: nat, was: seq<nat>, times: nat, add: nat)
    requires AreDigits(base, was)
    ensures Carried(base, was, was, 0, times, add, add)
  {
    assert was[|was|..] == [];
    TailStart(base, times, add);
  }

  lemma CarryStep(base: nat, was: seq<nat>, now: seq<nat>, i: nat, times: nat, add: nat, carry: nat)
    requires base >= 1 && Carried(base, was, now, i, times, add, carry) && i < |now|
    ensures var k := |now| - 1 - i; var n := carry + times * now[k];
      n % base >= 0 && n / base >= 0 && Carried(base, was, now[k := n % base], i + 1, times, add, n / base)
  {
    hide TailDone;
    var k := |now| - 1 - i;
    var n := carry + times * now[k];
    assert was[k] == was[..k + 1][k] == now[..k + 1][k] == now[k];
    TailStep(base, was[k], was[k + 1..], now[k + 1..], times, add, carry);
    DivParts(n, base);
    var next := now[k := n % base];
    assert [was[k]] + was[k + 1..] == was[k..];
    assert [n % base] + now[k + 1..] == next[k..];
    assert next[..k] == now[..k + 1][..k] == was[..k + 1][..k] == was[..k];
  }

  /** When the carry loop stops there is no carry left, if the product fits. */
  lemma CarryEnd(base: nat, was: seq<nat>, now: seq<nat>, length: nat, i: nat, times: nat, add: nat, carry: nat)
    requires base >= 1 && Holds(base, was, length) && Carried(base, was, now, i, times, add, carry)
    requires i == |now| || (carry == 0 && i >= length)
    requires times * Value(base, was) + add < Pow(base, |was|)
    ensures carry == 0 && Holds(base, now, i) && Value(base, now) == times * Value(base, was) + add
  {
    hide Pow, Value;
    var k := |now| - i;
    TailEnd(base, was, now, k, times, add, carry);
    if carry > 0 {
      assert k == 0;
      MulMonotone(Pow(base, |was|), 1, carry);
    }
    forall j | 0 <= j < k ensures now[j] == 0 {
      assert now[j] == now[..k][j] == was[..k][j] == was[j];
    }
  }

  lemma TailEnd(base: nat, was: seq<nat>, now: seq<nat>, k: nat, times: nat, add: nat, carry: nat)
    requires k <= |was| == |now| && was[..k] == now[..k] && forall j | 0 <= j < k :: was[j] == 0
    requires TailDone(base, was[k..], now[k..], times, add, carry)
    ensures Value(base, now) + Pow(base, |was| - k) * carry == times * Value(base, was) + add
  {
    hide Pow, Value;
    ValueSplit(base, was, k);
    ValueSplit(base, now, k);
    ZeroesValue(base, was[..k]);
  }

  /** The inner loop of both directions: `buffer = buffer * times + add`, from the last digit. */
  method MultiplyAdd(buffer: array<nat>, length: nat, base: nat, times: nat, add: nat) returns (used: nat)
    requires base >= 1 && Holds(base, buffer[..], length)
    requires times * Value(base, buffer[..]) + add < Pow(base, buffer.Length)
    modifies buffer
    ensures Holds(base, buffer[..], used)
    ensures Value(base, buffer[..]) == times * old(Value(base, buffer[..])) + add
  {
    hide Holds, Carried, Value, Pow;
    ghost var was := buffer[..];
    var carry, i := add, 0;
    CarryAtStart(base, was, length, times, add);
    while (carry != 0 || i < length) && i < buffer.Length
      invariant i <= buffer.Length && length <= buffer.Length && carry >= 0
      invariant Carried(base, was, buffer[..], i, times, add, carry)
      decreases buffer.Length - i
    {
      var k := buffer.Length - 1 - i;
      CarryStep(base, was, buffer[..], i, times, add, carry);
      carry := carry + times * buffer[k];
      ghost var next := buffer[..][k := carry % base];
      buffer[k] := carry % base;
      assert buffer[..] == next;
      carry := carry / base;
      i := i + 1;
    }
    CarryEnd(base, was, buffer[..], length, i, times, add, carry);
    assert carry == 0;
    used := i;
  }

  lemma CarryAtStart(base: nat, was: seq<nat>, length: nat, times: nat, add: nat)
    requires Holds(base, was, length)
    ensures length <= |was| && Carried(base, was, was, 0, times, add, add)
  {
    CarryStart(base, was, times, add);
  }

  /** Skips the zeroes of the result, which then is the shortest way to write the number. */
  method SkipZeroes(buffer: array<nat>, length: nat, base: nat) returns (it: nat)
    requires base >= 2 && Holds(base, buffer[..], length)
    ensures it <= buffer.Length && buffer[it..] == Written(base, Value(base, buffer[..]))
  {
    hide Value, Written;
    it := buffer.Length - length;
    while it < buffer.Length && buffer[it] == 0
      invariant it <= buffer.Length && forall k | 0 <= k < it :: buffer[k] == 0
    {
      it := it + 1;
    }
    WrittenFrom(base, buffer[..], it);
    assert buffer[..][it..] == buffer[it..];
  }

  lemma WrittenFrom(base: nat, s: seq<nat>, k: nat)
    requires base >= 2 && AreDigits(base, s) && k <= |s|
    requires (forall i | 0 <= i < k :: s[i] == 0) && (k < |s| ==> s[k] != 0)
    ensures s[k..] == Written(base, Value(base, s))
  {
    hide Value, Written;
    StripFrom(s, k);
    StripValue(base, s);
    OneWay(base, StripZeroes(s));
  }

  lemma {:induction false} StripFrom(s: seq<nat>, k: nat)
    requires k <= |s| && (forall i | 0 <= i < k :: s[i] == 0) && (k < |s| ==> s[k] != 0)
    ensures StripZeroes(s) == s[k..] && CountZeroes(s) == k
  {
    if k > 0 {
      StripFrom(s[1..], k - 1);
      assert s[1..][k - 1..] == s[k..];
    }
  }

  // ---------------------------------------------------------------- encoding

  /** The buffer holds the number written as `s` in another base, with room for `total` digits. */
  ghost predicate Converted(from: nat, to: nat, s: seq<nat>, total: nat, buffer: seq<nat>, length: nat) {
    && from >= 1 && AreDigits(from, s) && |s| <= total && Pow(from, total) <= Pow(to, |buffer|)
    && Holds(to, buffer, length) && Value(to, buffer) == Value(from, s)
  }

  lemma ConvertedStart(from: nat, to: nat, total: nat, buffer: seq<nat>)
    requires from >= 1 && to >= 1 && Pow(from, total) <= Pow(to, |buffer|)
    requires forall i | 0 <= i < |buffer| :: buffer[i] == 0
    ensures Converted(from, to, [], total, buffer, 0)
  {
    hide Pow;
    ZeroesValue(to, buffer);
  }

  /** The product for the next digit fits in the buffer. */
  lemma ConvertedNext(from: nat, to: nat, s: seq<nat>, total: nat, buffer: seq<nat>, length: nat, d: nat)
    requires Converted(from, to, s, total, buffer, length) && |s| < total && d < from
    ensures Holds(to, buffer, length) && from * Value(to, buffer) + d < Pow(to, |buffer|)
  {
    hide Pow, Holds;
    assert (s + [d])[..|s|] == s;
    ValueBound(from, s + [d]);
    PowMonotone(from, |s| + 1, total);
  }

  lemma ConvertedStep(from: nat, to: nat, s: seq<nat>, total: nat, buffer: seq<nat>, length: nat, d: nat, next: seq<nat>, used: nat)
    requires Converted(from, to, s, total, buffer, length) && |s| < total && d < from && |next| == |buffer|
    requires Holds(to, next, used) && Value(to, next) == from * Value(to, buffer) + d
    ensures Converted(from, to, s + [d], total, next, used)
  {
    hide Pow, Holds;
    assert (s + [d])[..|s|] == s;
  }

  method EncodeBase58(v: seq<nat>) returns (str: string)
    requires AreDigits(256, v)
    ensures str == Encoded(v)
  {
    hide Symbol, Value, Written, Holds, Pow, Encoded, Text, Converted, EncodeSize;
    var zeroes := 0;
    while zeroes < |v| && v[zeroes] == 0
      invariant zeroes <= |v| && forall i | 0 <= i < zeroes :: v[i] == 0
    {
      zeroes := zeroes + 1;
    }
    var size := EncodeSize(|v| - zeroes);
    var b58 := new nat[size](_ => 0);
    var length, p := 0, zeroes;
    EncodeRoom(|v| - zeroes);
    ConvertedStart(256, BASE, |v| - zeroes, b58[..]);
    assert v[zeroes..p] == [];
    while p < |v|
      invariant zeroes <= p <= |v|
      invariant Converted(256, BASE, v[zeroes..p], |v| - zeroes, b58[..], length)
    {
      ghost var was, used := b58[..], length;
      ConvertedNext(256, BASE, v[zeroes..p], |v| - zeroes, was, used, v[p]);
      length := MultiplyAdd(b58, length, BASE, 256, v[p]);
      ConvertedStep(256, BASE, v[zeroes..p], |v| - zeroes, was, used, v[p], b58[..], length);
      assert v[zeroes..p + 1] == v[zeroes..p] + [v[p]];
      p := p + 1;
    }
    assert v[zeroes..p] == v[zeroes..];
    ConvertedEnd(256, BASE, v[zeroes..], |v| - zeroes, b58[..], length);
    var it := SkipZeroes(b58, length, BASE);
    EncodedIs(v, zeroes);
    str := TextFrom(b58, it);
    str := Repeat('1', zeroes) + str;
  }

  lemma ConvertedEnd(from: nat, to: nat, s: seq<nat>, total: nat, buffer: seq<nat>, length: nat)
    requires Converted(from, to, s, total, buffer, length)
    ensures Holds(to, buffer, length) && Value(to, buffer) == Value(from, s)
  {
  }

  /** What the two parts of the result have to be. */
  lemma EncodedIs(v: seq<nat>, zeroes: nat)
    requires AreDigits(256, v) && zeroes <= |v| && (forall i | 0 <= i < zeroes :: v[i] == 0) && (zeroes < |v| ==> v[zeroes] != 0)
    ensures var w := Written(BASE, Value(256, v[zeroes..]));
      AreDigits(BASE, w) && Encoded(v) == Repeat('1', zeroes) + Text(w)
  {
    hide Value, Written, Symbol, Text;
    StripFrom(v, zeroes);
    StripValue(256, v);
    WrittenIs(BASE, Value(256, v));
  }

  /** The symbols of the digits from a place on. */
  method TextFrom(buffer: array<nat>, from: nat) returns (str: string)
    requires from <= buffer.Length && AreDigits(BASE, buffer[from..])
    ensures str == Text(buffer[from..])
  {
    hide Symbol;
    str := "";
    var it := from;
    while it < buffer.Length
      invariant from <= it <= buffer.Length && str == Text(buffer[from..it])
    {
      assert buffer[it] == buffer[from..][it - from];
      assert buffer[from..it + 1] == buffer[from..it] + [buffer[it]];
      str := str + [Symbol(buffer[it])];
      it := it + 1;
    }
  }

  // ---------------------------------------------------------------- decoding

  /** A C string ends at the first zero character. */
  function CString(s: string): (r: string)
    ensures '\0' !in r && r <= s && (r == s || s[|r|] == '\0')
  {
    if s == [] || s[0] == '\0' then [] else [s[0]] + CString(s[1..])
  }

  method DecodeBase58(s: string) returns (r: Option<seq<nat>>)
    ensures r.Some? <==> Decodable(CString(s))
    ensures r.Some? ==> r.value == Decoded(CString(s))
  {
    r := DecodeText(CString(s));
  }

  lemma Slices<T>(s: seq<T>, a: nat, w: nat)
    requires a + w <= |s|
    ensures s[a..][..w] == s[a..a + w] && s[a..][w..] == s[a + w..]
  {
  }

  /** Past some characters of a kind the rest of them is counted from there. */
  lemma {:induction false} SpacesFrom(s: string, k: nat)
    requires k <= |s| && (forall i | 0 <= i < k :: IsSpace(s[i])) && (k < |s| ==> !IsSpace(s[k]))
    ensures SpacesIn(s) == k
  {
    if k > 0 {
      SpacesFrom(s[1..], k - 1);
    }
  }

  lemma {:induction false} WordFrom(s: string, k: nat)
    requires k <= |s| && (forall i | 0 <= i < k :: !IsSpace(s[i])) && (k < |s| ==> IsSpace(s[k]))
    ensures WordIn(s) == k
  {
    if k > 0 {
      WordFrom(s[1..], k - 1);
    }
  }

  lemma {:induction false} OnesFrom(s: string, k: nat)
    requires k <= |s| && (forall i | 0 <= i < k :: s[i] == '1') && (k < |s| ==> s[k] != '1')
    ensures OnesIn(s) == k
  {
    if k > 0 {
      OnesFrom(s[1..], k - 1);
    }
  }

  /** Where white space that starts at `from` ends. */
  method SkipSpaces(s: string, from: nat) returns (p: nat)
    requires from <= |s|
    ensures p == from + SpacesIn(s[from..])
  {
    p := from;
    while p < |s| && IsSpace(s[p])
      invariant from <= p <= |s| && forall i | from <= i < p :: IsSpace(s[i])
    {
      p := p + 1;
    }
    SpacesFrom(s[from..], p - from);
  }

  method SkipOnes(s: string, from: nat) returns (p: nat)
    requires from <= |s|
    ensures p == from + OnesIn(s[from..])
  {
    p := from;
    while p < |s| && s[p] == '1'
      invariant from <= p <= |s| && forall i | from <= i < p :: s[i] == '1'
    {
      p := p + 1;
    }
    OnesFrom(s[from..], p - from);
  }

  /** After the white space and the ones, the word goes on. */
  lemma WordAfterOnes(s: string, a: nat, z: nat)
    requires a == SpacesIn(s) && z == OnesIn(s[a..])
    ensures z <= WordIn(s[a..]) && OnesIn(Core(s)) == z
  {
    var t := s[a..];
    var w := WordIn(t);
    assert w < |t| ==> IsSpace(t[w]);
    OnesFrom(t[..w], z);
  }

  /** The value of a text does not depend on its leading ones. */
  lemma DigitsAfterOnes(c: string, z: nat)
    requires InAlphabet(c) && z == OnesIn(c)
    ensures InAlphabet(c[z..]) && Value(BASE, DigitsOf(c[z..])) == Value(BASE, DigitsOf(c))
  {
    hide Value, Symbol;
    var d := DigitsOf(c);
    ValueSplit(BASE, d, z);
    forall i | 0 <= i < z ensures d[..z][i] == 0 {
      PositionIs(d[i]);
    }
    ZeroesValue(BASE, d[..z]);
    assert DigitsOf(c[z..]) == d[z..];
  }

  lemma FirstSymbol()
    ensures Symbol(0) == '1'
  {
  }

  /** A word of ones and other symbols is all in the alphabet. */
  lemma AlphabetAfterOnes(c: string, z: nat)
    requires z == OnesIn(c) && InAlphabet(c[z..])
    ensures InAlphabet(c)
  {
    hide Symbol, Position;
    PositionIs(0);
    FirstSymbol();
    forall i | 0 <= i < |c| ensures Position(c[i]).Some? {
      if i >= z {
        assert c[i] == c[z..][i - z];
      }
    }
  }

  lemma DigitsNext(s: string, c: char)
    requires InAlphabet(s) && Position(c).Some?
    ensures InAlphabet(s + [c]) && DigitsOf(s + [c]) == DigitsOf(s) + [Position(c).value]
  {
    hide Symbol, Position;
  }

  /** A place in the word of a text, past its ones. */
  ghost predicate InWord(s: string, a: nat, b: nat, p: nat) {
    a == SpacesIn(s) && b == a + OnesIn(s[a..]) && b <= p <= a + WordIn(s[a..])
  }

  lemma WordStart(s: string, a: nat, b: nat)
    requires a == SpacesIn(s) && b == a + OnesIn(s[a..])
    ensures b <= |s| && InWord(s, a, b, b)
  {
    hide SpacesIn, WordIn, OnesIn, Core;
    WordAfterOnes(s, a, b - a);
  }

  lemma WordGoesOn(s: string, a: nat, b: nat, p: nat)
    requires InWord(s, a, b, p) && p < |s| && !IsSpace(s[p])
    ensures InWord(s, a, b, p + 1)
  {
    hide SpacesIn, WordIn, OnesIn, IsSpace;
    assert s[p] == s[a..][p - a];
  }

  lemma WordEnds(s: string, a: nat, b: nat, p: nat)
    requires InWord(s, a, b, p) && p <= |s| && (p < |s| ==> IsSpace(s[p]))
    ensures Core(s) == s[a..p] && AfterCore(s) == s[p..] && OnesIn(s[a..p]) == b - a && b <= p
  {
    hide SpacesIn, WordIn, OnesIn, IsSpace;
    assert p < |s| ==> s[p] == s[a..][p - a];
    Slices(s, a, p - a);
    WordAfterOnes(s, a, b - a);
  }

  lemma StrangeSymbol(s: string, a: nat, b: nat, p: nat)
    requires InWord(s, a, b, p) && p < |s| && !IsSpace(s[p]) && Position(s[p]).None?
    ensures !Decodable(s)
  {
    hide SpacesIn, WordIn, OnesIn, IsSpace, Position;
    WordGoesOn(s, a, b, p);
    var t := s[a..];
    assert t[..WordIn(t)][p - a] == s[p];
  }

  /** What the word of a text says about the whole. */
  lemma DecodedIs(s: string, a: nat, b: nat, p: nat)
    requires InWord(s, a, b, p) && p <= |s| && (p < |s| ==> IsSpace(s[p])) && InAlphabet(s[b..p])
    ensures Decodable(s) <==> p + SpacesIn(s[p..]) == |s|
    ensures Decodable(s) ==> Decoded(s) == Repeat(0, b - a) + Written(256, Value(BASE, DigitsOf(s[b..p])))
  {
    hide SpacesIn, WordIn, OnesIn, IsSpace, Position, Value, Written, Symbol, DigitsOf, InAlphabet, Core, AfterCore, InWord;
    WordEnds(s, a, b, p);
    var c := s[a..p];
    assert c[b - a..] == s[b..p];
    AlphabetAfterOnes(c, b - a);
    DigitsAfterOnes(c, b - a);
  }

  method DecodeText(psz: string) returns (r: Option<seq<nat>>)
    ensures r.Some? <==> Decodable(psz)
    ensures r.Some? ==> r.value == Decoded(psz)
  {
    hide Symbol, Value, Written, Holds, Pow, Converted, DecodeSize, Position, IsSpace, SpacesIn, OnesIn, InWord, Decodable, Decoded;
    hide DigitsOf, InAlphabet;
    var a := SkipSpaces(psz, 0);
    assert psz[0..] == psz;
    var b := SkipOnes(psz, a);
    WordStart(psz, a, b);
    var size := DecodeSize(|psz| - b);
    var b256 := new nat[size](_ => 0);
    var length, p := 0, b;
    DecodeRoom(|psz| - b);
    ConvertedStart(BASE, 256, |psz| - b, b256[..]);
    NoDigits(psz, b);
    while p < |psz| && !IsSpace(psz[p])
      invariant b <= p <= |psz| && InWord(psz, a, b, p) && InAlphabet(psz[b..p])
      invariant Converted(BASE, 256, DigitsOf(psz[b..p]), |psz| - b, b256[..], length)
    {
      var d := Position(psz[p]);
      if d.None? {
        StrangeSymbol(psz, a, b, p);
        return None;
      }
      ghost var was, used, s := b256[..], length, DigitsOf(psz[b..p]);
      ConvertedNext(BASE, 256, s, |psz| - b, was, used, d.value);
      length := MultiplyAdd(b256, length, 256, BASE, d.value);
      ConvertedStep(BASE, 256, s, |psz| - b, was, used, d.value, b256[..], length);
      DigitsNext(psz[b..p], psz[p]);
      assert psz[b..p + 1] == psz[b..p] + [psz[p]];
      WordGoesOn(psz, a, b, p);
      p := p + 1;
    }
    DecodedIs(psz, a, b, p);
    var q := SkipSpaces(psz, p);
    if q != |psz| {
      return None;
    }
    ConvertedEnd(BASE, 256, DigitsOf(psz[b..p]), |psz| - b, b256[..], length);
    var it := SkipZeroes(b256, length, 256);
    r := Some(Repeat(0, b - a) + b256[it..]);
  }

  lemma NoDigits(s: string, b: nat)
    requires b <= |s|
    ensures InAlphabet(s[b..b]) && DigitsOf(s[b..b]) == []
  {
  }
}
