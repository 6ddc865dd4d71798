/**
 Base58 (src/base58.cpp): byte strings as text, with leading zero bytes as leading '1's.
 */
module Base58 {
  import opened Arithmetic
  import opened Digits
  import opened Helpers

  const BASE: nat := 58

  /** The alphabet: digits but 0, capitals but I and O, small letters but l. */
  function Symbol(d: nat): char
    requires d < BASE
  {
    if d < 9 then ('1' as int + d) as char
    else if d < 17 then ('A' as int + d - 9) as char
    else if d < 22 then ('J' as int + d - 17) as char
    else if d < 33 then ('P' as int + d - 22) as char
    else if d < 44 then ('a' as int + d - 33) as char
    else ('m' as int + d - 44) as char
  }

  predicate IsSpace(c: char) {
    c == ' ' || ('\t' <= c && c <= '\r')
  }

  /** `strchr` in the alphabet. */
  function PositionFrom(c: char, k: nat): (p: Option<nat>)
    requires k <= BASE
    ensures p.Some? ==> k <= p.value < BASE && Symbol(p.value) == c
    decreases BASE - k
  {
    if k == BASE then None else if Symbol(k) == c then Some(k) else PositionFrom(c, k + 1)
  }

  function Position(c: char): (p: Option<nat>)
    ensures p.Some? ==> p.value < BASE && Symbol(p.value) == c
  {
    PositionFrom(c, 0)
  }

  /** Space, tab, line feed, vertical tab, form feed, carriage return. */
  lemma SpaceIs(c: char)
    ensures IsSpace(c) <==> c as int == 32 || 9 <= c as int <= 13
  {
  }

  lemma SymbolIs(d: nat)
    requires d < 58
    ensures Symbol(d) == ("123456789" + "ABCDEFGHJKLMN" + "PQRSTUVWXYZ" + "abcdefghijk" + "mnopqrstuvwxyz")[d]
  {
    if d < 9 {
      assert Symbol(d) == "123456789"[d];
    } else if d < 22 {
      assert Symbol(d) == "ABCDEFGHJKLMN"[d - 9];
    } else if d < 33 {
      assert Symbol(d) == "PQRSTUVWXYZ"[d - 22];
    } else if d < 44 {
      assert Symbol(d) == "abcdefghijk"[d - 33];
    } else {
      assert Symbol(d) == "mnopqrstuvwxyz"[d - 44];
    }
  }

  /** The alphabet goes up, so every character stands for one digit. */
  lemma {:induction false} AlphabetOrder(i: nat, j: nat)
    requires i < j < BASE
    ensures Symbol(i) < Symbol(j)
    decreases j
  {
    if i < j - 1 {
      AlphabetOrder(i, j - 1);
    }
  }

  lemma {:induction false} PositionFromIs(d: nat, k: nat)
    requires k <= d < BASE
    ensures PositionFrom(Symbol(d), k) == Some(d)
    decreases d - k
  {
    hide Symbol;
    if k < d {
      AlphabetOrder(k, d);
      PositionFromIs(d, k + 1);
    }
  }

  lemma PositionIs(d: nat)
    requires d < BASE
    ensures Position(Symbol(d)) == Some(d) && !IsSpace(Symbol(d)) && (Symbol(d) == '1' <==> d == 0)
  {
    PositionFromIs(d, 0);
  }

  // ---------------------------------------------------------------- what is meant

  function Text(digits: seq<nat>): (s: string)
    requires AreDigits(BASE, digits)
    ensures |s| == |digits|
  {
    seq(|digits|, i requires 0 <= i < |digits| => Symbol(digits[i]))
  }

  function Repeat<T>(x: T, n: nat): (s: seq<T>)
    ensures |s| == n && forall i | 0 <= i < n :: s[i] == x
  {
    seq(n, _ => x)
  }

  /** Zero bytes as '1's, and the rest as a number. */
  function Encoded(v: seq<nat>): string {
    WrittenIs(BASE, Value(256, v));
    Repeat('1', CountZeroes(v)) + Text(Written(BASE, Value(256, v)))
  }

  function SpacesIn(s: string): (n: nat)
    ensures n <= |s| && (forall i | 0 <= i < n :: IsSpace(s[i])) && (n < |s| ==> !IsSpace(s[n]))
  {
    if s == [] || !IsSpace(s[0]) then 0 else SpacesIn(s[1..]) + 1
  }

  function WordIn(s: string): (n: nat)
    ensures n <= |s| && (forall i | 0 <= i < n :: !IsSpace(s[i])) && (n < |s| ==> IsSpace(s[n]))
  {
    if s == [] || IsSpace(s[0]) then 0 else WordIn(s[1..]) + 1
  }

  function OnesIn(s: string): (n: nat)
    ensures n <= |s| && (forall i | 0 <= i < n :: s[i] == '1') && (n < |s| ==> s[n] != '1')
  {
    if s == [] || s[0] != '1' then 0 else OnesIn(s[1..]) + 1
  }

  /** The text without the white space before and after it. */
  function Core(s: string): string {
    var t := s[SpacesIn(s)..];
    t[..WordIn(t)]
  }

  function AfterCore(s: string): string {
    var t := s[SpacesIn(s)..];
    t[WordIn(t)..]
  }

  predicate InAlphabet(s: string) {
    forall i | 0 <= i < |s| :: Position(s[i]).Some?
  }

  function DigitsOf(s: string): (d: seq<nat>)
    requires InAlphabet(s)
    ensures AreDigits(BASE, d) && |d| == |s| && forall i | 0 <= i < |s| :: s[i] == Symbol(d[i])
  {
    seq(|s|, i requires 0 <= i < |s| => Position(s[i]).value)
  }

  /** One word of the alphabet, with white space around it at most. */
  predicate Decodable(s: string) {
    InAlphabet(Core(s)) && SpacesIn(AfterCore(s)) == |AfterCore(s)|
  }

  function Decoded(s: string): seq<nat>
    requires Decodable(s)
  {
    var c := Core(s);
    Repeat(0, OnesIn(c)) + Written(256, Value(BASE, DigitsOf(c)))
  }

  // ---------------------------------------------------------------- there and back

  lemma TextOf(digits: seq<nat>)
    requires AreDigits(BASE, digits)
    ensures InAlphabet(Text(digits)) && DigitsOf(Text(digits)) == digits
    ensures forall i | 0 <= i < |digits| :: !IsSpace(Text(digits)[i])
  {
    hide Symbol, Position;
    forall i | 0 <= i < |digits| ensures Position(Text(digits)[i]) == Some(digits[i]) && !IsSpace(Text(digits)[i]) {
      PositionIs(digits[i]);
    }
  }

  lemma TextJoin(a: seq<nat>, b: seq<nat>)
    requires AreDigits(BASE, a) && AreDigits(BASE, b)
    ensures AreDigits(BASE, a + b) && Text(a + b) == Text(a) + Text(b)
  {
    hide Symbol;
  }

  lemma OnesAreZeroes(n: nat)
    ensures AreDigits(BASE, Repeat(0, n)) && Text(Repeat(0, n)) == Repeat('1', n)
  {
  }

  /** A word without white space is its own core. */
  lemma PlainCore(s: string)
    requires forall i | 0 <= i < |s| :: !IsSpace(s[i])
    ensures Core(s) == s && AfterCore(s) == []
  {
    assert SpacesIn(s) == 0;
    assert s[0..] == s;
    assert WordIn(s) == |s|;
  }

  lemma {:induction false} CountRepeat(n: nat, rest: seq<nat>)
    requires rest != [] ==> rest[0] != 0
    ensures CountZeroes(Repeat(0, n) + rest) == n
  {
    if n > 0 {
      assert (Repeat(0, n) + rest)[1..] == Repeat(0, n - 1) + rest;
      CountRepeat(n - 1, rest);
    }
  }

  /** Zeroes put in front are counted and do not change the value. */
  lemma {:induction false} ZeroesInFront(b: nat, n: nat, w: seq<nat>)
    requires w != [] ==> w[0] != 0
    ensures CountZeroes(Repeat(0, n) + w) == n && Value(b, Repeat(0, n) + w) == Value(b, w)
  {
    hide Value;
    CountRepeat(n, w);
    var d := Repeat(0, n) + w;
    ValueSplit(b, d, n);
    assert d[..n] == Repeat(0, n) && d[n..] == w;
    ZeroesValue(b, d[..n]);
  }

  lemma ZeroesAndRest(d: seq<nat>)
    ensures d == Repeat(0, CountZeroes(d)) + StripZeroes(d)
  {
    hide CountZeroes, StripZeroes;
  }

  /** Digits are their leading zeroes and the value of the rest, written. */
  lemma Restored(b: nat, d: seq<nat>)
    requires b >= 2 && AreDigits(b, d)
    ensures Repeat(0, CountZeroes(d)) + Written(b, Value(b, d)) == d
  {
    hide Value, Written, CountZeroes, StripZeroes, Repeat;
    ZeroesAndRest(d);
    StripValue(b, d);
    assert AreDigits(b, StripZeroes(d)) by { assert StripZeroes(d) == d[CountZeroes(d)..]; }
    OneWay(b, StripZeroes(d));
  }

  /** The digits of an encoding. */
  lemma EncodedDigits(v: seq<nat>)
    requires AreDigits(256, v)
    ensures var d := Repeat(0, CountZeroes(v)) + Written(BASE, Value(256, v));
      && AreDigits(BASE, d) && CountZeroes(d) == CountZeroes(v) && Value(BASE, d) == Value(256, v) && Encoded(v) == Text(d)
  {
    hide Symbol, Value, Written, Text;
    var w, n := Written(BASE, Value(256, v)), CountZeroes(v);
    WrittenIs(BASE, Value(256, v));
    TextJoin(Repeat(0, n), w);
    OnesAreZeroes(n);
    ZeroesInFront(BASE, n, w);
  }

  /** As many '1's in front as zero digits. */
  lemma {:induction false} OnesOf(d: seq<nat>)
    requires AreDigits(BASE, d)
    ensures OnesIn(Text(d)) == CountZeroes(d)
  {
    hide Symbol;
    if d != [] {
      PositionIs(d[0]);
      assert Text(d)[1..] == Text(d[1..]);
      OnesOf(d[1..]);
    }
  }

  lemma TextOfDigits(s: string)
    requires InAlphabet(s)
    ensures Text(DigitsOf(s)) == s
  {
  }

  /** A text of digits is decoded to their value, written in bytes. */
  lemma DecodedText(d: seq<nat>)
    requires AreDigits(BASE, d)
    ensures Decodable(Text(d)) && Core(Text(d)) == Text(d)
    ensures Decoded(Text(d)) == Repeat(0, CountZeroes(d)) + Written(256, Value(BASE, d))
  {
    hide Symbol, Value, Written, Text, Position;
    TextOf(d);
    PlainCore(Text(d));
    OnesOf(d);
  }

  /** Decoding undoes encoding, for every byte string. */
  lemma DecodeEncode(v: seq<nat>)
    requires AreDigits(256, v)
    ensures Decodable(Encoded(v)) && Decoded(Encoded(v)) == v
  {
    hide Symbol, Value, Written, Text, Decoded, Encoded, Decodable;
    EncodedDigits(v);
    DecodedText(Repeat(0, CountZeroes(v)) + Written(BASE, Value(256, v)));
    Restored(256, v);
  }

  /** Bytes are encoded as the text of their value in digits, with their zeroes in front. */
  lemma EncodedBytes(n: nat, x: nat)
    ensures AreDigits(BASE, Written(BASE, x))
    ensures Encoded(Repeat(0, n) + Written(256, x)) == Repeat('1', n) + Text(Written(BASE, x))
  {
    hide Symbol, Value, Written, Text;
    WrittenIs(256, x);
    WrittenIs(BASE, x);
    ZeroesInFront(256, n, Written(256, x));
  }

  /** Encoding what was decoded gives the text back, without the white space around it. */
  lemma EncodeDecode(s: string)
    requires Decodable(s)
    ensures Encoded(Decoded(s)) == Core(s)
  {
    hide Symbol, Value, Written, Text, Position, Core, AfterCore, Encoded;
    var c := Core(s);
    var d := DigitsOf(c);
    TextOfDigits(c);
    OnesOf(d);
    var n := OnesIn(c);
    EncodedBytes(n, Value(BASE, d));
    Restored(BASE, d);
    TextJoin(Repeat(0, n), Written(BASE, Value(BASE, d)));
    OnesAreZeroes(n);
  }
}
