/**
 * UTF-8 encoding of strings, as Python's `str.encode("utf-8")` produces it.
 * The login handler compares passwords by comparing their encodings
 * (datacat.py:65); the lemma `SameEncodingIffEqual` shows that this is the
 * same as comparing the strings. Dafny's `char` is a Unicode scalar value,
 * so every string has an encoding (Python would raise for a lone surrogate).
 */
module Utf8 {

  newtype byte = x: int | 0 <= x < 256

  /** The number of bytes announced by a leading byte, or 0 for a continuation byte. */
  function SequenceLength(lead: byte): nat
  {
    if lead < 0x80 then 1
    else if lead < 0xC0 then 0
    else if lead < 0xE0 then 2
    else if lead < 0xF0 then 3
    else if lead < 0xF8 then 4
    else 0
  }

  predicate IsContinuation(b: byte)
  {
    0x80 <= b < 0xC0
  }

  /** The encoding of one code point: 1 to 4 bytes, 6 payload bits per continuation byte. */
  function EncodeChar(c: char): (bs: seq<byte>)
    ensures 1 <= |bs| <= 4
    ensures SequenceLength(bs[0]) == |bs|
    ensures forall i :: 1 <= i < |bs| ==> IsContinuation(bs[i])
    ensures Payload(bs) == c as int
    // shortest form: a longer sequence only for a code point the shorter one cannot carry
    ensures |bs| >= 2 ==> Payload(bs) >= [0x80, 0x800, 0x10000][|bs| - 2]
  {
    var n := c as int;
    var q1 := n / 64;
    var q2 := q1 / 64;
    var q3 := q2 / 64;
    if n < 0x80 then
      [n as byte]
    else if n < 0x800 then
      [(0xC0 + q1) as byte, (0x80 + n % 64) as byte]
    else if n < 0x10000 then
      [(0xE0 + q2) as byte, (0x80 + q1 % 64) as byte, (0x80 + n % 64) as byte]
    else
      [(0xF0 + q3) as byte, (0x80 + q2 % 64) as byte, (0x80 + q1 % 64) as byte, (0x80 + n % 64) as byte]
  }

  /** The code point carried by a well-formed 1- to 4-byte sequence. */
  function Payload(bs: seq<byte>): int
    requires 1 <= |bs| <= 4
  {
    if |bs| == 1 then bs[0] as int
    else if |bs| == 2 then (bs[0] as int - 0xC0) * 64 + Low6(bs[1])
    else if |bs| == 3 then ((bs[0] as int - 0xE0) * 64 + Low6(bs[1])) * 64 + Low6(bs[2])
    else (((bs[0] as int - 0xF0) * 64 + Low6(bs[1])) * 64 + Low6(bs[2])) * 64 + Low6(bs[3])
  }

  /** The payload bits of a continuation byte. */
  function Low6(b: byte): int
  {
    b as int - 0x80
  }

  function Encode(s: string): (bs: seq<byte>)
    ensures s == [] <==> bs == []
  {
    if s == [] then [] else EncodeChar(s[0]) + Encode(s[1..])
  }

  /** Two encodings that begin a byte string in the same place encode the same code point. */
  lemma EncodeCharPrefix(a: char, b: char, x: seq<byte>, y: seq<byte>)
    requires EncodeChar(a) + x == EncodeChar(b) + y
    ensures a == b && x == y
  {
    var ea, eb := EncodeChar(a), EncodeChar(b);
    assert ea[0] == (ea + x)[0] == (eb + y)[0] == eb[0];
    assert |ea| == |eb|;
    assert ea == (ea + x)[..|ea|] == (eb + y)[..|eb|] == eb;
    assert x == (ea + x)[|ea|..] == (eb + y)[|eb|..] == y;
    assert a as int == Payload(ea) == Payload(eb) == b as int;
  }

  /** Encoding is injective: different strings have different encodings. */
  lemma {:induction false} EncodeInjective(a: string, b: string)
    requires Encode(a) == Encode(b)
    ensures a == b
  {
    if a != [] && b != [] {
      EncodeCharPrefix(a[0], b[0], Encode(a[1..]), Encode(b[1..]));
      EncodeInjective(a[1..], b[1..]);
      assert a == [a[0]] + a[1..];
      assert b == [b[0]] + b[1..];
    }
  }

  /** Comparing the UTF-8 encodings of two strings is the same as comparing the strings. */
  lemma SameEncodingIffEqual(a: string, b: string)
    ensures Encode(a) == Encode(b) <==> a == b
  {
    if Encode(a) == Encode(b) {
      EncodeInjective(a, b);
    }
  }
}
