/** UTF-8, as section 3 of RFC 3629 encodes it and `String::from_utf8` checks it. */
module Utf8 {
  import opened Bytes

  predicate Continuation(b: byte) { 0x80 <= b <= 0xBF }

  /** The check, byte by byte, by the ranges of section 4 of RFC 3629. */
  predicate ValidUtf8(s: bytes)
    decreases |s|
  {
    if s == [] then true
    else if s[0] < 0x80 then ValidUtf8(s[1..])
    else if 0xC2 <= s[0] <= 0xDF then |s| >= 2 && Continuation(s[1]) && ValidUtf8(s[2..])
    else if 0xE0 <= s[0] <= 0xEF then
      && |s| >= 3 && Continuation(s[1]) && Continuation(s[2])
      && (s[0] == 0xE0 ==> s[1] >= 0xA0) && (s[0] == 0xED ==> s[1] <= 0x9F)
      && ValidUtf8(s[3..])
    else if 0xF0 <= s[0] <= 0xF4 then
      && |s| >= 4 && Continuation(s[1]) && Continuation(s[2]) && Continuation(s[3])
      && (s[0] == 0xF0 ==> s[1] >= 0x90) && (s[0] == 0xF4 ==> s[1] <= 0x8F)
      && ValidUtf8(s[4..])
    else false
  }

  /** The code points that may be encoded: all but the surrogates. */
  type Scalar = c: int | 0 <= c < 0xD800 || 0xE000 <= c < 0x11_0000

  function OfScalar(c: Scalar): bytes {
    if c < 0x80 then [c]
    else if c < 0x800 then [0xC0 + c / 0x40, 0x80 + c % 0x40]
    else if c < 0x1_0000 then [0xE0 + c / 0x1000, 0x80 + c / 0x40 % 0x40, 0x80 + c % 0x40]
    else [0xF0 + c / 0x4_0000, 0x80 + c / 0x1000 % 0x40, 0x80 + c / 0x40 % 0x40, 0x80 + c % 0x40]
  }

  function OfScalars(cs: seq<Scalar>): bytes {
    if cs == [] then [] else OfScalar(cs[0]) + OfScalars(cs[1..])
  }

  /** The digits to base 64 of a code point. */
  lemma Digits(high: nat, x: nat, y: nat, z: nat)
    requires x < 0x40 && y < 0x40 && z < 0x40
    ensures (high * 0x40 + z) / 0x40 == high && (high * 0x40 + z) % 0x40 == z
    ensures var c := high * 0x1000 + y * 0x40 + z; c / 0x1000 == high && c / 0x40 % 0x40 == y && c % 0x40 == z
    ensures var c := high * 0x4_0000 + x * 0x1000 + y * 0x40 + z;
            c / 0x4_0000 == high && c / 0x1000 % 0x40 == x && c / 0x40 % 0x40 == y && c % 0x40 == z
  {
    Divided(high * 0x40 + z, 0x40, high, z);
    Divided(high * 0x1000 + y * 0x40 + z, 0x40, high * 0x40 + y, z);
    Divided(high * 0x1000 + y * 0x40 + z, 0x1000, high, y * 0x40 + z);
    Divided(high * 0x40 + y, 0x40, high, y);
    var c := high * 0x4_0000 + x * 0x1000 + y * 0x40 + z;
    Divided(c, 0x40, high * 0x1000 + x * 0x40 + y, z);
    Divided(c, 0x1000, high * 0x40 + x, y * 0x40 + z);
    Divided(c, 0x4_0000, high, x * 0x1000 + y * 0x40 + z);
    Divided(high * 0x40 + x, 0x40, high, x);
    Divided(high * 0x1000 + x * 0x40 + y, 0x40, high * 0x40 + x, y);
  }

  lemma Divided(c: nat, d: nat, q: nat, r: nat)
    requires d in {0x40, 0x1000, 0x4_0000} && r < d && c == q * d + r
    ensures c / d == q && c % d == r
  {
  }

  /** The character at the front of a non-empty valid string, and what follows it. */
  lemma FirstOf(s: bytes) returns (c: Scalar)
    requires s != [] && ValidUtf8(s)
    ensures OfScalar(c) <= s && ValidUtf8(s[|OfScalar(c)|..])
  {
    FirstIs(s);
    hide ValidUtf8;
    var n := Width(s[0]);
    if n == 1 {
      c := s[0];
      assert OfScalar(c) == s[..1];
    } else if n == 2 {
      c := TwoFrom(s[0], s[1]);
      assert OfScalar(c) == s[..2];
    } else if n == 3 {
      c := ThreeFrom(s[0], s[1], s[2]);
      assert OfScalar(c) == s[..3];
    } else {
      c := FourFrom(s[0], s[1], s[2], s[3]);
      assert OfScalar(c) == s[..4];
    }
  }

  lemma TwoFrom(a: byte, b: byte) returns (c: Scalar)
    requires 0xC2 <= a <= 0xDF && Continuation(b)
    ensures OfScalar(c) == [a, b]
  {
    Digits(a as int - 0xC0, 0, 0, b as int - 0x80);
    c := (a as int - 0xC0) * 0x40 + (b as int - 0x80);
  }

  lemma ThreeFrom(a: byte, b: byte, d: byte) returns (c: Scalar)
    requires 0xE0 <= a <= 0xEF && Continuation(b) && Continuation(d)
    requires (a == 0xE0 ==> b >= 0xA0) && (a == 0xED ==> b <= 0x9F)
    ensures OfScalar(c) == [a, b, d]
  {
    Digits(a as int - 0xE0, 0, b as int - 0x80, d as int - 0x80);
    c := (a as int - 0xE0) * 0x1000 + (b as int - 0x80) * 0x40 + (d as int - 0x80);
  }

  lemma FourFrom(a: byte, b: byte, d: byte, e: byte) returns (c: Scalar)
    requires 0xF0 <= a <= 0xF4 && Continuation(b) && Continuation(d) && Continuation(e)
    requires (a == 0xF0 ==> b >= 0x90) && (a == 0xF4 ==> b <= 0x8F)
    ensures OfScalar(c) == [a, b, d, e]
  {
    Digits(a as int - 0xF0, b as int - 0x80, d as int - 0x80, e as int - 0x80);
    c := (a as int - 0xF0) * 0x4_0000 + (b as int - 0x80) * 0x1000 + (d as int - 0x80) * 0x40 + (e as int - 0x80);
  }

  /** How long the first character of a string is, if the string is valid. */
  lemma FirstIs(s: bytes)
    requires s != []
    ensures ValidUtf8(s) ==>
              && |s| >= Width(s[0]) > 0 && ValidUtf8(s[Width(s[0])..])
              && (forall i :: 1 <= i < Width(s[0]) ==> Continuation(s[i]))
              && (s[0] == 0xE0 ==> s[1] >= 0xA0) && (s[0] == 0xED ==> s[1] <= 0x9F)
              && (s[0] == 0xF0 ==> s[1] >= 0x90) && (s[0] == 0xF4 ==> s[1] <= 0x8F)
  {
  }

  function Width(b: byte): nat {
    if b < 0x80 then 1 else if 0xC2 <= b <= 0xDF then 2 else if 0xE0 <= b <= 0xEF then 3 else if 0xF0 <= b <= 0xF4 then 4 else 0
  }

  lemma EncodedFirst(c: Scalar, s: bytes)
    requires ValidUtf8(s)
    ensures ValidUtf8(OfScalar(c) + s)
  {
    assert (OfScalar(c) + s)[|OfScalar(c)|..] == s;
  }

  lemma {:induction false} EncodedIsValid(cs: seq<Scalar>)
    ensures ValidUtf8(OfScalars(cs))
  {
    if cs != [] {
      EncodedIsValid(cs[1..]);
      EncodedFirst(cs[0], OfScalars(cs[1..]));
    }
  }

  lemma {:induction false} Decoded(s: bytes) returns (cs: seq<Scalar>)
    requires ValidUtf8(s)
    ensures OfScalars(cs) == s
    decreases |s|
  {
    hide ValidUtf8;
    cs := [];
    if s != [] {
      var c := FirstOf(s);
      var others := Decoded(s[|OfScalar(c)|..]);
      cs := [c] + others;
      assert cs[1..] == others && s == s[..|OfScalar(c)|] + s[|OfScalar(c)|..];
    }
  }

  /** The check accepts exactly the encodings of strings of code points. */
  lemma ValidIff(s: bytes)
    ensures ValidUtf8(s) <==> exists cs :: OfScalars(cs) == s
  {
    if ValidUtf8(s) {
      var cs := Decoded(s);
    }
    if exists cs :: OfScalars(cs) == s {
      var cs :| OfScalars(cs) == s;
      EncodedIsValid(cs);
    }
  }
}
