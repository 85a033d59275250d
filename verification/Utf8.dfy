/**
 What the reader's check of names accepts: exactly the strings of bytes that encode Unicode scalar
 values, section 3 of RFC 3629.
 */
module Utf8 {
  import opened Wrappers
  import opened Ext2

  /** A code point that is no surrogate. */
  predicate IsScalar(c: nat) {
    c < 0xD800 || 0xE000 <= c < 0x11_0000
  }

  function Low(c: nat): Byte {
    0x80 + c % 64
  }

  function Encode(c: nat): seq<Byte>
    requires IsScalar(c)
  {
    if c < 0x80 then [c]
    else if c < 0x800 then [0xC0 + c / 64, Low(c)]
    else if c < 0x1_0000 then [0xE0 + c / 4096, Low(c / 64), Low(c)]
    else [0xF0 + c / 0x4_0000, Low(c / 4096), Low(c / 64), Low(c)]
  }

  predicate AllScalars(cs: seq<nat>) {
    forall i :: 0 <= i < |cs| ==> IsScalar(cs[i])
  }

  function EncodeAll(cs: seq<nat>): seq<Byte>
    requires AllScalars(cs)
  {
    if |cs| == 0 then [] else Encode(cs[0]) + EncodeAll(cs[1..])
  }

  /** One encoded character in front neither helps nor harms. */
  lemma EncodedInFront(c: nat, s: seq<Byte>)
    requires IsScalar(c)
    ensures ValidUtf8(Encode(c) + s) <==> ValidUtf8(s)
  {
    var t := Encode(c) + s;
    assert t[|Encode(c)|..] == s;
    if c >= 0x800 {
      LeadBytes(c);
    }
  }

  lemma LeadBytes(c: nat)
    requires IsScalar(c) && c >= 0x800
    ensures c < 0x1_0000 ==> (c / 4096 == 0 ==> c / 64 % 64 >= 0x20) && (c / 4096 == 13 ==> c / 64 % 64 < 0x20)
    ensures c >= 0x1_0000 ==> (c / 0x4_0000 == 0 ==> c / 4096 % 64 >= 0x10) && (c / 0x4_0000 == 4 ==> c / 4096 % 64 < 0x10)
  {
  }

  lemma {:induction false} EncodedIsValid(cs: seq<nat>)
    requires AllScalars(cs)
    ensures ValidUtf8(EncodeAll(cs))
  {
    if |cs| > 0 {
      EncodedIsValid(cs[1..]);
      EncodedInFront(cs[0], EncodeAll(cs[1..]));
    }
  }

  lemma SixBits(q: nat, r: nat)
    requires r < 64
    ensures (q * 64 + r) / 64 == q && (q * 64 + r) % 64 == r
  {
  }

  lemma TwoBytes(a: Byte, b: Byte) returns (c: nat)
    requires 0xC2 <= a < 0xE0 && IsTail(b)
    ensures IsScalar(c) && Encode(c) == [a, b]
  {
    c := (a as int - 0xC0) * 64 + (b as int - 0x80);
    SixBits(a as int - 0xC0, b as int - 0x80);
  }

  lemma ThreeBytes(a: Byte, b: Byte, d: Byte) returns (c: nat)
    requires 0xE0 <= a < 0xF0 && IsTail(b) && IsTail(d) && (a == 0xE0 ==> b >= 0xA0) && (a == 0xED ==> b < 0xA0)
    ensures IsScalar(c) && Encode(c) == [a, b, d]
  {
    var q := (a as int - 0xE0) * 64 + (b as int - 0x80);
    c := q * 64 + (d as int - 0x80);
    SixBits(a as int - 0xE0, b as int - 0x80);
    SixBits(q, d as int - 0x80);
    assert c / 4096 == c / 64 / 64;
  }

  lemma FourBytes(a: Byte, b: Byte, d: Byte, e: Byte) returns (c: nat)
    requires 0xF0 <= a < 0xF5 && IsTail(b) && IsTail(d) && IsTail(e) && (a == 0xF0 ==> b >= 0x90) && (a == 0xF4 ==> b < 0x90)
    ensures IsScalar(c) && Encode(c) == [a, b, d, e]
  {
    var p := (a as int - 0xF0) * 64 + (b as int - 0x80);
    var q := p * 64 + (d as int - 0x80);
    c := q * 64 + (e as int - 0x80);
    SixBits(a as int - 0xF0, b as int - 0x80);
    SixBits(p, d as int - 0x80);
    SixBits(q, e as int - 0x80);
    assert c / 4096 == c / 64 / 64 && c / 0x4_0000 == c / 64 / 64 / 64;
  }

  /** The character a valid string starts with. */
  lemma FirstScalar(s: seq<Byte>) returns (c: nat)
    requires ValidUtf8(s) && |s| > 0
    ensures IsScalar(c) && Encode(c) <= s && ValidUtf8(s[|Encode(c)|..])
  {
    if s[0] < 0x80 {
      c := s[0];
    } else {
      hide Encode, IsScalar;
      if s[0] < 0xE0 {
        c := TwoBytes(s[0], s[1]);
      } else if s[0] < 0xF0 {
        c := ThreeBytes(s[0], s[1], s[2]);
      } else {
        c := FourBytes(s[0], s[1], s[2], s[3]);
      }
    }
  }

  lemma {:induction false} ValidIsEncoded(s: seq<Byte>) returns (cs: seq<nat>)
    requires ValidUtf8(s)
    ensures AllScalars(cs) && EncodeAll(cs) == s
    decreases |s|
  {
    if |s| == 0 {
      cs := [];
    } else {
      var c := FirstScalar(s);
      var rest := ValidIsEncoded(s[|Encode(c)|..]);
      cs := [c] + rest;
      assert s == Encode(c) + s[|Encode(c)|..];
      assert cs[1..] == rest;
    }
  }

  /** A name is kept exactly when its bytes are the encoding of some scalar values. */
  lemma ValidIff(s: seq<Byte>)
    ensures ValidUtf8(s) <==> exists cs :: AllScalars(cs) && EncodeAll(cs) == s
  {
    if ValidUtf8(s) {
      var cs := ValidIsEncoded(s);
    }
    if cs :| AllScalars(cs) && EncodeAll(cs) == s {
      EncodedIsValid(cs);
    }
  }
}
