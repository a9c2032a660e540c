/**
  UTF-8, the encoding `Buffer.from(string)` and `encodeURIComponent` apply to a
  string before they look at its bytes. Strings here are sequences of Unicode
  scalar values, so every character has exactly one encoding of one to four
  bytes, and the encoding of a string is injective: equal byte sequences come
  from equal strings.
*/
module Utf8 {

  newtype byte = x: int | 0 <= x < 256

  /** The continuation byte `10xxxxxx` carrying the low six bits of `x`. */
  function Continuation(x: nat): byte {
    (0x80 + x % 64) as byte
  }

  /** The UTF-8 encoding of one scalar value. */
  function EncodeChar(c: char): (r: seq<byte>)
    ensures 1 <= |r| <= 4
    ensures |r| == SequenceLength(r[0])
  {
    var n := c as int;
    if n < 0x80 then
      [n as byte]
    else if n < 0x800 then
      [(0xC0 + n / 64) as byte, Continuation(n)]
    else if n < 0x1_0000 then
      [(0xE0 + n / 4096) as byte, Continuation(n / 64), Continuation(n)]
    else
      [(0xF0 + n / 262144) as byte, Continuation(n / 4096), Continuation(n / 64), Continuation(n)]
  }

  /** The length of an encoded character, read off its lead byte. */
  function SequenceLength(lead: byte): nat {
    if lead < 0x80 then 1
    else if lead < 0xE0 then 2
    else if lead < 0xF0 then 3
    else 4
  }

  /** `Buffer.from(s)`: the UTF-8 bytes of a whole string. */
  function Encode(s: string): (r: seq<byte>)
    ensures |r| >= |s|
    ensures s == [] <==> r == []
  {
    if s == [] then [] else EncodeChar(s[0]) + Encode(s[1..])
  }

  // ---------------------------------------------------------------------------
  // Injectivity

  lemma SplitBase64(a: nat)
    ensures a == 64 * (a / 64) + a % 64
    ensures a / 4096 == (a / 64) / 64
    ensures a / 262144 == (a / 4096) / 64
  {
    var q, r := a / 64, a % 64;
    var q2, r2 := q / 64, q % 64;
    assert a == 4096 * q2 + (64 * r2 + r);
    assert 0 <= 64 * r2 + r < 4096;
    var q3, r3 := q2 / 64, q2 % 64;
    assert a == 262144 * q3 + (4096 * r3 + 64 * r2 + r);
  }

  lemma SameDigits(a: nat, b: nat)
    requires a / 64 == b / 64 && a % 64 == b % 64
    ensures a == b
  {
    SplitBase64(a);
    SplitBase64(b);
  }

  /** Two scalar values with the same encoding are the same value. */
  lemma {:induction false} EncodeCharInjective(a: char, b: char)
    requires EncodeChar(a) == EncodeChar(b)
    ensures a == b
  {
    var x, y := a as int, b as int;
    SplitBase64(x);
    SplitBase64(y);
    if x < 0x80 {
    } else if x < 0x800 {
      SameDigits(x, y);
    } else if x < 0x1_0000 {
      SameDigits(x / 64, y / 64);
      SameDigits(x, y);
    } else {
      SameDigits(x / 4096, y / 4096);
      SameDigits(x / 64, y / 64);
      SameDigits(x, y);
    }
  }

  /** The encoding of a string determines the string (no two passwords share bytes). */
  lemma {:induction false} EncodeInjective(s: string, t: string)
    requires Encode(s) == Encode(t)
    ensures s == t
  {
    if s != [] {
      var ea, eb := EncodeChar(s[0]), EncodeChar(t[0]);
      var e := Encode(s);
      assert e == ea + Encode(s[1..]) == eb + Encode(t[1..]);
      assert ea[0] == e[0] == eb[0];
      assert ea == e[..|ea|] == eb;
      EncodeCharInjective(s[0], t[0]);
      assert Encode(s[1..]) == e[|ea|..] == Encode(t[1..]);
      EncodeInjective(s[1..], t[1..]);
    }
  }

  lemma EncodeEqualIff(s: string, t: string)
    ensures Encode(s) == Encode(t) <==> s == t
  {
    if Encode(s) == Encode(t) {
      EncodeInjective(s, t);
    }
  }
}
