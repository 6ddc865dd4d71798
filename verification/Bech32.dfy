/**
 Bech32 strings (src/bech32.cpp; BIP 173, section "Bech32").
 */
module Bech32 {
  import opened Bech32Checksum
  import opened Bech32Detection
  import opened Bech32Roots
  import opened Helpers

  // ---------------------------------------------------------------- characters

  /** The alphabet of the data part. */
  function Char(n: nat): char
    requires n < 32
  {
    match n
    case 0 => 'q' case 1 => 'p' case 2 => 'z' case 3 => 'r' case 4 => 'y' case 5 => '9' case 6 => 'x' case 7 => '8'
    case 8 => 'g' case 9 => 'f' case 10 => '2' case 11 => 't' case 12 => 'v' case 13 => 'd' case 14 => 'w' case 15 => '0'
    case 16 => 's' case 17 => '3' case 18 => 'j' case 19 => 'n' case 20 => '5' case 21 => '4' case 22 => 'k' case 23 => 'h'
    case 24 => 'c' case 25 => 'e' case 26 => '6' case 27 => 'm' case 28 => 'u' case 29 => 'a' case 30 => '7' case _ => 'l'
  }

  /** The place of a character in the alphabet, whatever its case. */
  function Index(c: char): (p: Option<nat>)
    ensures p.Some? ==> p.value < 32
  {
    match c
    case 'q' | 'Q' => Some(0) case 'p' | 'P' => Some(1) case 'z' | 'Z' => Some(2) case 'r' | 'R' => Some(3)
    case 'y' | 'Y' => Some(4) case '9' => Some(5) case 'x' | 'X' => Some(6) case '8' => Some(7)
    case 'g' | 'G' => Some(8) case 'f' | 'F' => Some(9) case '2' => Some(10) case 't' | 'T' => Some(11)
    case 'v' | 'V' => Some(12) case 'd' | 'D' => Some(13) case 'w' | 'W' => Some(14) case '0' => Some(15)
    case 's' | 'S' => Some(16) case '3' => Some(17) case 'j' | 'J' => Some(18) case 'n' | 'N' => Some(19)
    case '5' => Some(20) case '4' => Some(21) case 'k' | 'K' => Some(22) case 'h' | 'H' => Some(23)
    case 'c' | 'C' => Some(24) case 'e' | 'E' => Some(25) case '6' => Some(26) case 'm' | 'M' => Some(27)
    case 'u' | 'U' => Some(28) case 'a' | 'A' => Some(29) case '7' => Some(30) case 'l' | 'L' => Some(31)
    case _ => None
  }

  function LowerCase(c: char): char {
    if 'A' <= c <= 'Z' then (c as int - 'A' as int + 'a' as int) as char else c
  }

  lemma CharIs(n: nat)
    requires n < 32
    ensures Char(n) == "qpzry9x8gf2tvdw0s3jn54khce6mua7l"[n]
  {
  }

  lemma IndexOfChar(n: nat)
    requires n < 32
    ensures Index(Char(n)) == Some(n)
  {
  }

  lemma CharOfIndex(c: char)
    requires Index(c).Some?
    ensures Char(Index(c).value) == LowerCase(c)
  {
  }

  lemma IndexLower(c: char)
    ensures Index(LowerCase(c)) == Index(c)
  {
    if LowerCase(c) != c {
      LetterLower(c);
    }
  }

  lemma LetterLower(c: char)
    requires LowerCase(c) != c
    ensures Index(LowerCase(c)) == Index(c)
  {
  }

  lemma LowerTwice(c: char)
    ensures LowerCase(LowerCase(c)) == LowerCase(c) && (LowerCase(c) == '1' <==> c == '1')
  {
  }

  /** The two tables are inverse to each other, for letters of either case. */
  lemma IndexIs(c: char, n: nat)
    requires n < 32
    ensures Index(c) == Some(n) <==> LowerCase(c) == Char(n)
  {
    hide Index, Char, LowerCase;
    if LowerCase(c) == Char(n) {
      IndexOfChar(n);
      IndexLower(c);
    }
    if Index(c) == Some(n) {
      CharOfIndex(c);
    }
  }

  lemma ByteOf(n: nat)
    requires n < 32
    ensures (n as bv8) < 32 && (n as bv8) as nat == n
  {
  }

  lemma NumberOf(v: bv8)
    ensures (v as nat) < 256 && (v as nat) as bv8 == v
  {
  }

  lemma NumberBelow(v: bv8)
    ensures v < 32 <==> v as nat < 32
  {
  }

  function Symbol(v: bv8): char
    requires v < 32
  {
    NumberBelow(v);
    Char(v as nat)
  }

  function Position(c: char): (p: Option<bv8>)
    ensures p.Some? ==> p.value < 32
  {
    match Index(c)
    case None => None
    case Some(n) =>
      ByteOf(n);
      Some(n as bv8)
  }

  lemma PositionIs(c: char, v: bv8)
    requires v < 32
    ensures Position(c) == Some(v) <==> LowerCase(c) == Symbol(v)
  {
    hide Index, Char, LowerCase;
    NumberOf(v);
    NumberBelow(v);
    IndexIs(c, v as nat);
    if Index(c).Some? {
      ByteOf(Index(c).value);
    }
  }

  lemma SymbolIs(v: bv8)
    requires v < 32
    ensures Symbol(v) != '1' && LowerCase(Symbol(v)) == Symbol(v)
  {
    hide Index, Char, LowerCase;
    NumberBelow(v);
    CharsAreLower(v as nat);
  }

  lemma CharsAreLower(n: nat)
    requires n < 32
    ensures Char(n) != '1' && LowerCase(Char(n)) == Char(n)
  {
  }

  // ---------------------------------------------------------------- strings

  function Code(c: char): (n: nat)
    ensures n < 256
  {
    c as int % 256
  }

  function Byte(n: nat): bv8
    requires n < 32
  {
    n as bv8
  }

  function HighBits(c: char): bv8 {
    Byte(Code(c) / 32)
  }

  function LowBits(c: char): bv8 {
    Byte(Code(c) % 32)
  }

  function Highs(s: string): (v: seq<bv8>)
    ensures |v| == |s|
  {
    seq(|s|, i requires 0 <= i < |s| => HighBits(s[i]))
  }

  function Lows(s: string): (v: seq<bv8>)
    ensures |v| == |s|
  {
    seq(|s|, i requires 0 <= i < |s| => LowBits(s[i]))
  }

  /** The prefix as values: high bits, a zero, low bits. */
  function Expanded(hrp: string): (v: seq<bv8>)
    ensures |v| == 2 * |hrp| + 1
  {
    Highs(hrp) + [0] + Lows(hrp)
  }

  function Lower(s: string): (r: string)
    ensures |r| == |s|
  {
    seq(|s|, i requires 0 <= i < |s| => LowerCase(s[i]))
  }

  function Symbols(v: seq<bv8>): (s: string)
    requires FiveBits(v)
    ensures |s| == |v|
  {
    seq(|v|, i requires 0 <= i < |v| => Symbol(v[i]))
  }

  /** The values of a string and its checksum. */
  function Body(hrp: string, values: seq<bv8>): (v: seq<bv8>)
    requires FiveBits(values)
    ensures FiveBits(v) && |v| == |values| + 6
  {
    values + Checksum(Expanded(hrp) + values)
  }

  function Encoded(hrp: string, values: seq<bv8>): (s: string)
    requires FiveBits(values)
    ensures |s| == |hrp| + 1 + |values| + 6
  {
    hrp + "1" + Symbols(Body(hrp, values))
  }

  predicate Printable(s: string) {
    forall i | 0 <= i < |s| :: 33 <= s[i] as int <= 126
  }

  predicate HasLower(s: string) {
    exists i | 0 <= i < |s| :: 'a' <= s[i] <= 'z'
  }

  predicate HasUpper(s: string) {
    exists i | 0 <= i < |s| :: 'A' <= s[i] <= 'Z'
  }

  /** A string, in lower case or in capitals, that says `hrp` and `values`. */
  ghost predicate IsEncoding(str: string, hrp: string, values: seq<bv8>) {
    && Printable(str) && !(HasLower(str) && HasUpper(str)) && |str| <= 90
    && hrp != "" && FiveBits(values) && Lower(str) == Encoded(hrp, values)
  }

  // ---------------------------------------------------------------- encoding

  lemma BitsAre(c: char)
    ensures HighBits(c) as int == c as int % 256 / 32 && LowBits(c) as int == c as int % 32
  {
    var n := Code(c);
    assert n % 32 == c as int % 32;
    ByteOf(n / 32);
    ByteOf(n % 32);
  }

  method ExpandHRP(hrp: string) returns (r: seq<bv8>)
    ensures r == Expanded(hrp)
    ensures |r| == 2 * |hrp| + 1 && r[|hrp|] == 0
    ensures forall i | 0 <= i < |hrp| :: r[i] as int == hrp[i] as int % 256 / 32 && r[|hrp| + 1 + i] as int == hrp[i] as int % 32
  {
    hide HighBits, LowBits;
    var n := |hrp|;
    var ret := new bv8[2 * n + 1](_ => 0);
    for i := 0 to n
      invariant forall k | 0 <= k < i :: ret[k] == HighBits(hrp[k]) && ret[k + n + 1] == LowBits(hrp[k])
      invariant ret[n] == 0
    {
      ret[i] := HighBits(hrp[i]);
      ret[i + n + 1] := LowBits(hrp[i]);
    }
    ret[n] := 0;
    r := ret[..];
    assert forall k | n < k < 2 * n + 1 :: r[k] == ret[k - n - 1 + n + 1];
    forall i | 0 <= i < n ensures r[i] as int == hrp[i] as int % 256 / 32 && r[n + 1 + i] as int == hrp[i] as int % 32 {
      BitsAre(hrp[i]);
    }
  }

  method VerifyChecksum(hrp: string, values: seq<bv8>) returns (ok: bool)
    ensures ok <==> PolyMod(Expanded(hrp) + values) == 1
  {
    var enc := ExpandHRP(hrp);
    var c := ComputePolyMod(enc + values);
    ok := c == 1;
  }

  lemma GroupsAt(p: bv32, i: nat)
    requires i < 6
    ensures Groups(p)[i] == Group(p, i)
  {
    hide Group;
  }

  method CreateChecksum(hrp: string, values: seq<bv8>) returns (ret: seq<bv8>)
    ensures ret == Checksum(Expanded(hrp) + values)
  {
    hide Xor, PolyMod, Group, Groups, Expanded;
    var enc := ExpandHRP(hrp);
    enc := enc + values;
    var mod := ComputePolyMod(enc + [0, 0, 0, 0, 0, 0]);
    XorIs(mod, 1);
    mod := mod ^ 1;
    ret := [];
    for i := 0 to 6
      invariant ret == Groups(mod)[..i]
    {
      GroupsAt(mod, i);
      assert Groups(mod)[..i + 1] == Groups(mod)[..i] + [Groups(mod)[i]];
      ret := ret + [Group(mod, i)];
    }
  }

  method Encode(hrp: string, values: seq<bv8>) returns (ret: string)
    requires FiveBits(values)
    ensures ret == Encoded(hrp, values)
  {
    hide Symbol, Checksum;
    var checksum := CreateChecksum(hrp, values);
    var combined := values + checksum;
    ret := hrp + "1";
    for i := 0 to |combined|
      invariant ret == hrp + "1" + Symbols(combined[..i])
    {
      ret := ret + [Symbol(combined[i])];
      assert combined[..i + 1] == combined[..i] + [combined[i]];
      SymbolsNext(combined[..i], combined[i]);
    }
    assert combined[..|combined|] == combined;
  }

  lemma SymbolsNext(v: seq<bv8>, x: bv8)
    requires FiveBits(v) && x < 32
    ensures FiveBits(v + [x]) && Symbols(v + [x]) == Symbols(v) + [Symbol(x)]
  {
    hide Symbol;
  }

  // ---------------------------------------------------------------- decoding

  predicate IsLastOne(s: string, p: nat) {
    p < |s| && s[p] == '1' && forall k | p < k < |s| :: s[k] != '1'
  }

  /** `rfind('1')` */
  method FindLastOne(s: string) returns (pos: Option<nat>)
    ensures pos.None? ==> '1' !in s
    ensures pos.Some? ==> IsLastOne(s, pos.value)
  {
    var i := |s|;
    while i > 0
      invariant 0 <= i <= |s| && forall k | i <= k < |s| :: s[k] != '1'
    {
      i := i - 1;
      if s[i] == '1' {
        return Some(i);
      }
    }
    pos := None;
  }

  /** What the checks on the characters find. */
  method ScanCase(str: string) returns (bad: bool, lower: bool, upper: bool)
    ensures bad <==> !Printable(str)
    ensures !bad ==> (lower <==> HasLower(str)) && (upper <==> HasUpper(str))
  {
    bad, lower, upper := false, false, false;
    for i := 0 to |str|
      invariant forall k | 0 <= k < i :: 33 <= str[k] as int <= 126
      invariant lower <==> exists k | 0 <= k < i :: 'a' <= str[k] <= 'z'
      invariant upper <==> exists k | 0 <= k < i :: 'A' <= str[k] <= 'Z'
    {
      var c := str[i];
      if c as int < 33 || c as int > 126 {
        return true, lower, upper;
      }
      if 'a' <= c <= 'z' { lower := true; }
      if 'A' <= c <= 'Z' { upper := true; }
    }
  }

  predicate HasStrange(s: string) {
    exists k | 0 <= k < |s| :: Position(s[k]).None?
  }

  /** The values of the characters after the separator. */
  method ReadValues(s: string) returns (r: Option<seq<bv8>>)
    ensures r.Some? ==> FiveBits(r.value) && Symbols(r.value) == Lower(s)
    ensures r.None? ==> HasStrange(s)
  {
    hide Position, Symbol, LowerCase;
    var values: seq<bv8> := [];
    for i := 0 to |s|
      invariant |values| == i && FiveBits(values) && Symbols(values) == Lower(s[..i])
    {
      var rev := Position(s[i]);
      if rev.None? {
        return None;
      }
      PositionIs(s[i], rev.value);
      SymbolsNext(values, rev.value);
      values := values + [rev.value];
      assert s[..i + 1] == s[..i] + [s[i]];
    }
    assert s[..|s|] == s;
    r := Some(values);
  }

  method Decode(str: string) returns (hrp: string, data: seq<bv8>)
    ensures hrp == "" ==> data == [] && forall h, v :: !IsEncoding(str, h, v)
    ensures hrp != "" ==> IsEncoding(str, hrp, data) && forall h, v :: IsEncoding(str, h, v) ==> h == hrp && v == data
  {
    hide Position, Symbol, LowerCase, Expanded, PolyMod, Checksum, Printable, HasLower, HasUpper, IsEncoding, Encoded;
    hrp, data := "", [];
    var bad, lower, upper := ScanCase(str);
    if bad || (lower && upper) {
      NotEncodingCase(str);
      return;
    }
    var pos := FindLastOne(str);
    if |str| > 90 || pos.None? || pos.value == 0 || pos.value + 7 > |str| {
      NotEncodingShape(str, pos);
      return;
    }
    var p := pos.value;
    var values := ReadValues(str[p + 1..]);
    if values.None? {
      NotEncodingSymbols(str, p);
      return;
    }
    var h := Lower(str[..p]);
    var ok := VerifyChecksum(h, values.value);
    var n := |values.value| - 6;
    DecodedIs(str, p, values.value);
    if ok {
      hrp, data := h, values.value[..n];
    }
  }

  lemma NotEncodingCase(str: string)
    requires !Printable(str) || (HasLower(str) && HasUpper(str))
    ensures forall h, v :: !IsEncoding(str, h, v)
  {
  }

  /** Where the separator of an encoding is. */
  lemma SeparatorIs(str: string, h: string, v: seq<bv8>)
    requires IsEncoding(str, h, v)
    ensures |h| + 7 <= |str| == |h| + 1 + |v| + 6 && str[|h|] == '1' && Lower(str[..|h|]) == h
    ensures Lower(str[|h| + 1..]) == Symbols(Body(h, v))
    ensures forall k | |h| < k < |str| :: str[k] != '1' && Position(str[k]) == Some(Body(h, v)[k - |h| - 1])
  {
    hide Position, Symbol, LowerCase, Body, Printable, HasLower, HasUpper;
    var e, b := Encoded(h, v), Body(h, v);
    LowerTwice(str[|h|]);
    assert Lower(str)[|h|] == e[|h|] == '1';
    assert Lower(str[..|h|]) == Lower(str)[..|h|] == e[..|h|] == h;
    assert Lower(str[|h| + 1..]) == Lower(str)[|h| + 1..] == e[|h| + 1..] == Symbols(b);
    forall k | |h| < k < |str| ensures str[k] != '1' && Position(str[k]) == Some(b[k - |h| - 1]) {
      var x := b[k - |h| - 1];
      assert LowerCase(str[k]) == Lower(str)[k] == e[k] == Symbol(x);
      PositionIs(str[k], x);
      SymbolIs(x);
      LowerTwice(str[k]);
    }
  }

  /** The separator is the last '1' there is. */
  lemma SeparatorIf(str: string, p: nat, h: string, v: seq<bv8>)
    requires IsLastOne(str, p)
    ensures IsEncoding(str, h, v) ==> |h| == p > 0 && p + 7 <= |str| <= 90 && !HasStrange(str[p + 1..])
  {
    hide Position, Symbol, LowerCase, Body, Printable, HasLower, HasUpper, Encoded;
    if IsEncoding(str, h, v) {
      SeparatorIs(str, h, v);
    }
  }

  lemma NotEncodingShape(str: string, pos: Option<nat>)
    requires pos.None? ==> '1' !in str
    requires pos.Some? ==> IsLastOne(str, pos.value)
    requires |str| > 90 || pos.None? || pos.value == 0 || pos.value + 7 > |str|
    ensures forall h, v :: !IsEncoding(str, h, v)
  {
    hide Position, Symbol, LowerCase, Body, Printable, HasLower, HasUpper, Encoded, IsEncoding;
    forall h, v ensures !IsEncoding(str, h, v) {
      if pos.Some? {
        SeparatorIf(str, pos.value, h, v);
      } else {
        NeedsSeparator(str, h, v);
      }
    }
  }

  lemma NeedsSeparator(str: string, h: string, v: seq<bv8>)
    ensures IsEncoding(str, h, v) ==> '1' in str
  {
    hide Position, Symbol, LowerCase, Body, Printable, HasLower, HasUpper, Encoded, IsEncoding;
    if IsEncoding(str, h, v) {
      SeparatorIs(str, h, v);
    }
  }

  lemma NotEncodingSymbols(str: string, p: nat)
    requires IsLastOne(str, p) && HasStrange(str[p + 1..])
    ensures forall h, v :: !IsEncoding(str, h, v)
  {
    hide Position, Symbol, LowerCase, Body, Printable, HasLower, HasUpper, Encoded, IsEncoding, HasStrange;
    forall h, v ensures !IsEncoding(str, h, v) {
      SeparatorIf(str, p, h, v);
    }
  }

  lemma {:induction false} SymbolsInjective(v: seq<bv8>, w: seq<bv8>)
    requires FiveBits(v) && FiveBits(w) && Symbols(v) == Symbols(w)
    ensures v == w
  {
    hide Symbol, Position;
    assert |v| == |w|;
    forall i | 0 <= i < |v| ensures v[i] == w[i] {
      assert Symbols(v)[i] == Symbols(w)[i];
      SymbolIs(v[i]);
      PositionIs(Symbol(v[i]), v[i]);
      PositionIs(Symbol(v[i]), w[i]);
    }
  }

  lemma EncodingBody(str: string, h: string, v: seq<bv8>)
    requires IsEncoding(str, h, v)
    ensures FiveBits(v) && Body(h, v)[..|v|] == v
  {
    hide Checksum;
  }

  /** The checksum decides, and there is only one reading. */
  lemma DecodedIs(str: string, p: nat, values: seq<bv8>)
    requires Printable(str) && !(HasLower(str) && HasUpper(str)) && |str| <= 90
    requires 0 < p && p + 7 <= |str| && IsLastOne(str, p)
    requires FiveBits(values) && Symbols(values) == Lower(str[p + 1..])
    ensures var h, n := Lower(str[..p]), |values| - 6;
      && n >= 0 && (PolyMod(Expanded(h) + values) == 1 <==> IsEncoding(str, h, values[..n]))
      && (forall g, v :: IsEncoding(str, g, v) ==> g == h && v == values[..n])
  {
    hide Position, Symbol, LowerCase, Printable, HasLower, HasUpper, Expanded, PolyMod, Checksum, IsEncoding, Encoded, Body;
    var h, n := Lower(str[..p]), |values| - 6;
    assert |values| == |str| - p - 1;
    forall g, v | IsEncoding(str, g, v) ensures g == h && v == values[..n] {
      SeparatorIs(str, g, v);
      EncodingBody(str, g, v);
      SymbolsInjective(values, Body(g, v));
    }
    ValidIs(str, p, values);
  }

  lemma ValidIs(str: string, p: nat, values: seq<bv8>)
    requires Printable(str) && !(HasLower(str) && HasUpper(str)) && |str| <= 90
    requires 0 < p && p + 7 <= |str| && str[p] == '1'
    requires FiveBits(values) && Symbols(values) == Lower(str[p + 1..])
    ensures var h, n := Lower(str[..p]), |values| - 6;
      n >= 0 && (PolyMod(Expanded(h) + values) == 1 <==> IsEncoding(str, h, values[..n]))
  {
    hide Position, Symbol, LowerCase, Printable, HasLower, HasUpper, Expanded, PolyMod, Checksum;
    var h, n := Lower(str[..p]), |values| - 6;
    var v, c := values[..n], values[n..];
    ChecksumIsUnique(Expanded(h) + v, c);
    assert Expanded(h) + v + c == Expanded(h) + values;
    assert Lower(str) == h + "1" + Symbols(values) by { LowerParts(str, p); }
    if Lower(str) == Encoded(h, v) {
      assert Symbols(values) == Lower(str)[p + 1..] == Symbols(Body(h, v));
      SymbolsInjective(values, Body(h, v));
      assert c == Body(h, v)[n..];
    }
    if c == Checksum(Expanded(h) + v) {
      assert values == Body(h, v);
    }
  }

  lemma LowerOne()
    ensures LowerCase('1') == '1'
  {
  }

  lemma LowerParts(str: string, p: nat)
    requires p < |str| && str[p] == '1'
    ensures Lower(str) == Lower(str[..p]) + "1" + Lower(str[p + 1..])
  {
    hide LowerCase;
    LowerOne();
  }

  // ---------------------------------------------------------------- what follows

  /** What was encoded is decoded to itself. */
  lemma EncodedIsEncoding(hrp: string, values: seq<bv8>)
    requires hrp != "" && Printable(hrp) && !HasUpper(hrp) && FiveBits(values) && |hrp| + 7 + |values| <= 90
    ensures IsEncoding(Encoded(hrp, values), hrp, values)
  {
    hide Symbol, LowerCase, Body;
    var e, b := Encoded(hrp, values), Body(hrp, values);
    forall i | 0 <= i < |e| ensures 33 <= e[i] as int <= 126 && !('A' <= e[i] <= 'Z') && LowerCase(e[i]) == e[i] {
      if i <= |hrp| {
        assert i < |hrp| ==> e[i] == hrp[i];
        NotUpper(e[i]);
      } else {
        assert e[i] == Symbols(b)[i - |hrp| - 1];
        SymbolIs(b[i - |hrp| - 1]);
        SymbolPrintable(b[i - |hrp| - 1]);
      }
    }
    assert Lower(e) == e;
  }

  lemma NotUpper(c: char)
    ensures !('A' <= c <= 'Z') ==> LowerCase(c) == c
  {
  }

  lemma SymbolPrintable(v: bv8)
    requires v < 32
    ensures 33 <= Symbol(v) as int <= 126 && !('A' <= Symbol(v) <= 'Z')
  {
    hide Char;
    NumberBelow(v);
    CharPrintable(v as nat);
  }

  lemma CharPrintable(n: nat)
    requires n < 32
    ensures 33 <= Char(n) as int <= 126 && !('A' <= Char(n) <= 'Z')
  {
  }

  /** Two encodings under the same prefix that agree but for three places are the same. */
  lemma CodewordsApart(hrp: string, v: seq<bv8>, w: seq<bv8>, i: nat, j: nat, k: nat)
    requires FiveBits(v) && FiveBits(w) && |v| == |w| && |v| + 6 <= 1023 && i <= j <= k < |v| + 6
    requires forall l | 0 <= l < |v| + 6 && l != i && l != j && l != k :: Body(hrp, v)[l] == Body(hrp, w)[l]
    ensures v == w
  {
    hide Expanded, Checksum, PolyMod;
    var e, s, t := Expanded(hrp), Body(hrp, v), Body(hrp, w);
    ChecksumFits(e + v);
    ChecksumFits(e + w);
    assert e + s == e + v + Checksum(e + v) && e + t == e + w + Checksum(e + w);
    if s != t {
      Apart(e, s, t);
      ChangesDetected(e + s, e + t, |e| + i, |e| + j, |e| + k);
    }
    assert v == s[..|v|] && w == t[..|v|];
  }

  lemma Apart(e: seq<bv8>, s: seq<bv8>, t: seq<bv8>)
    requires s != t
    ensures e + s != e + t
  {
    assert (e + s)[|e|..] == s && (e + t)[|e|..] == t;
  }

  /** As are two that agree but for six places in a row. */
  lemma CodewordsDiffer(hrp: string, v: seq<bv8>, w: seq<bv8>, i: nat)
    requires FiveBits(v) && FiveBits(w) && |v| == |w| && i <= |v|
    requires Body(hrp, v)[..i] == Body(hrp, w)[..i] && Body(hrp, v)[i + WINDOW..] == Body(hrp, w)[i + WINDOW..]
    ensures v == w
  {
    hide Expanded, Checksum, PolyMod;
    var e, s, t := Expanded(hrp), Body(hrp, v), Body(hrp, w);
    ChecksumFits(e + v);
    ChecksumFits(e + w);
    assert e + s == e + v + Checksum(e + v) && e + t == e + w + Checksum(e + w);
    var x, y := s[i..i + WINDOW], t[i..i + WINDOW];
    var a, b := e + s[..i], s[i + WINDOW..];
    assert s == s[..i] + x + b && t == s[..i] + y + b;
    assert e + s == a + x + b && e + t == a + y + b;
    if x != y {
      BurstDetected(a, x, y, b);
    }
    assert s == t;
    assert v == s[..|v|] && w == t[..|v|];
  }

  lemma ByteInjective(m: nat, n: nat)
    requires m < 32 && n < 32 && Byte(m) == Byte(n)
    ensures m == n
  {
    ByteOf(m);
    ByteOf(n);
  }

  lemma CodeIs(c: char, d: char)
    requires c as int < 256 && d as int < 256 && HighBits(c) == HighBits(d) && LowBits(c) == LowBits(d)
    ensures c == d
  {
    hide Byte;
    ByteInjective(Code(c) / 32, Code(d) / 32);
    ByteInjective(Code(c) % 32, Code(d) % 32);
  }

  /** Nor do the same data and checksum fit after another prefix that differs in one character. */
  lemma PrefixApart(g: string, h: string, v: seq<bv8>, p: nat)
    requires FiveBits(v) && |g| == |h| && |h| + 1 < 1023 && p < |h| && g[p] != h[p] && g[p] as int < 256 && h[p] as int < 256
    requires g == h[p := g[p]]
    ensures PolyMod(Expanded(g) + Body(h, v)) != 1
  {
    hide PolyMod, Checksum, HighBits, LowBits;
    var b, n := Body(h, v), |h|;
    ChecksumFits(Expanded(h) + v);
    assert Expanded(h) + v + Checksum(Expanded(h) + v) == Expanded(h) + b;
    var s, t := Expanded(g) + b, Expanded(h) + b;
    if HighBits(g[p]) == HighBits(h[p]) && LowBits(g[p]) == LowBits(h[p]) {
      CodeIs(g[p], h[p]);
    }
    BitsSmall(g[p]);
    BitsSmall(h[p]);
    ChangesDetected(s, t, p, p, p + n + 1);
  }

  lemma BitsSmall(c: char)
    ensures HighBits(c) < 32 && LowBits(c) < 32
  {
    ByteOf(Code(c) / 32);
    ByteOf(Code(c) % 32);
  }

  // ---------------------------------------------------------------- an example

  lemma StepTo(c: bv32, v: seq<bv8>, d: bv32)
    requires v != [] && Step(c, v[0]) == d
    ensures Absorb(c, v) == Absorb(d, v[1..])
  {
    hide Step;
  }

  lemma ShortestPolyMod(z: seq<bv8>)
    requires z == [3, 0, 1, 0, 0, 0, 0, 0, 0]
    ensures PolyMod(z) == 0x15ccfe9e
  {
    hide Absorb;
    StepTo(1, z, 0x23);
    StepTo(0x23, z[1..], 0x460);
    StepTo(0x460, z[1..][1..], 0x8c01);
    StepTo(0x8c01, z[3..], 0x118020);
    StepTo(0x118020, z[4..], 0x2300400);
    StepTo(0x2300400, z[5..], 0x3d6ad7b2);
    StepTo(0x3d6ad7b2, z[6..], 0x2fd30b9);
    StepTo(0x2fd30b9, z[7..], 0x24cc4092);
    StepTo(0x24cc4092, z[8..], 0x15ccfe9e);
    AbsorbsNothing(0x15ccfe9e);
  }

  lemma AbsorbsNothing(c: bv32)
    ensures Absorb(c, []) == c
  {
  }

  /** The shortest valid text of BIP 173: the prefix a and no data. */
  lemma ShortestText()
    ensures Encoded("a", []) == "a12uel5l"
  {
    hide PolyMod, Char;
    var z: seq<bv8> := [3, 0, 1, 0, 0, 0, 0, 0, 0];
    ShortestPolyMod(z);
    BitsAre('a');
    assert Expanded("a") == [3, 0, 1];
    assert Expanded("a") + [] + [0, 0, 0, 0, 0, 0] == z;
    assert Checksum(Expanded("a") + []) == [10, 28, 25, 31, 20, 31];
    CharIs(10);
    CharIs(28);
    CharIs(25);
    CharIs(31);
    CharIs(20);
  }
}
