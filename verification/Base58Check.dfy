/**
 Base58 with the first four bytes of a hash behind the data (src/base58.cpp).
 */
module Base58Check {
  import opened Base58
  import opened Base58Codec
  import opened Digits
  import opened Helpers

  /** A hash of 32 bytes, of which nothing more is known. */
  ghost predicate IsHash(hash: seq<nat> -> seq<nat>) {
    forall v :: |hash(v)| == 32 && AreDigits(256, hash(v))
  }

  ghost function WithCheck(hash: seq<nat> -> seq<nat>, v: seq<nat>): (r: seq<nat>)
    requires IsHash(hash)
    ensures |r| == |v| + 4 && r[..|v|] == v && r[|v|..] == hash(v)[..4]
    ensures AreDigits(256, r) <==> AreDigits(256, v)
  {
    var r := v + hash(v)[..4];
    assert r[..|v|] == v && r[|v|..] == hash(v)[..4];
    assert AreDigits(256, hash(v)[..4]);
    assert forall i | 0 <= i < |v| :: r[i] == v[i];
    r
  }

  method EncodeBase58Check(hash: seq<nat> -> seq<nat>, v: seq<nat>) returns (str: string)
    requires IsHash(hash) && AreDigits(256, v)
    ensures str == Encoded(WithCheck(hash, v))
  {
    hide Encoded;
    str := EncodeBase58(v + hash(v)[..4]);
  }

  /** What was encoded comes back, and nothing else is accepted. */
  method DecodeBase58Check(hash: seq<nat> -> seq<nat>, s: string) returns (r: Option<seq<nat>>)
    requires IsHash(hash)
    ensures r.Some? <==> exists v :: IsCheckOf(hash, CString(s), v)
    ensures r.Some? ==> IsCheckOf(hash, CString(s), r.value)
  {
    hide Encoded, Decodable, Decoded, CString, Core;
    var d := DecodeBase58(s);
    r := None;
    if d.Some? && |d.value| >= 4 {
      var n := |d.value| - 4;
      if hash(d.value[..n])[..4] == d.value[n..] {
        r := Some(d.value[..n]);
      }
    }
    forall v ensures IsCheckOf(hash, CString(s), v) <==> r == Some(v) {
      OnlyItsCheck(hash, CString(s), v);
    }
  }

  /** A text, but for white space around it, is the encoding of data with its check. */
  ghost predicate IsCheckOf(hash: seq<nat> -> seq<nat>, s: string, v: seq<nat>)
    requires IsHash(hash)
  {
    AreDigits(256, v) && SpacesIn(AfterCore(s)) == |AfterCore(s)| && Core(s) == Encoded(WithCheck(hash, v))
  }

  lemma OnlyItsCheck(hash: seq<nat> -> seq<nat>, s: string, v: seq<nat>)
    requires IsHash(hash)
    ensures IsCheckOf(hash, s, v) <==> Decodable(s) && Decoded(s) == WithCheck(hash, v)
  {
    hide WithCheck, Encoded, Core, AfterCore;
    if IsCheckOf(hash, s, v) {
      EncodingIs(s, WithCheck(hash, v));
    }
    if Decodable(s) && Decoded(s) == WithCheck(hash, v) {
      DecodedAreBytes(s);
      EncodeDecode(s);
    }
  }

  lemma EncodingIs(s: string, v: seq<nat>)
    requires AreDigits(256, v) && SpacesIn(AfterCore(s)) == |AfterCore(s)| && Core(s) == Encoded(v)
    ensures Decodable(s) && Decoded(s) == v
  {
    hide Encoded, Core, AfterCore;
    DecodeEncode(v);
    EncodedIsPlain(v);
    PlainCore(Core(s));
  }

  lemma EncodedIsPlain(v: seq<nat>)
    requires AreDigits(256, v)
    ensures forall i | 0 <= i < |Encoded(v)| :: !IsSpace(Encoded(v)[i])
  {
    hide Encoded, Text, Written, Value, Symbol;
    EncodedDigits(v);
    TextOf(Repeat(0, CountZeroes(v)) + Written(BASE, Value(256, v)));
  }

  lemma DecodedAreBytes(s: string)
    requires Decodable(s)
    ensures AreDigits(256, Decoded(s))
  {
    hide Written, Value, Symbol;
    WrittenIs(256, Value(BASE, DigitsOf(Core(s))));
  }
}
