/** Well-formed UTF-8, as `core::str::from_utf8` accepts it: no overlong forms, no surrogates. */
module Utf8 {
  import opened Prelude

  predicate IsTail(b: byte) { 0x80 <= b <= 0xBF }

  /** The length of the well-formed sequence a byte string starts with, or 0. */
  function LeadingLength(t: seq<byte>): (n: nat)
    requires t != []
    ensures n <= 4 && n <= |t|
  {
    var b0 := t[0];
    if b0 <= 0x7F then 1
    else if 0xC2 <= b0 <= 0xDF then
      if |t| >= 2 && IsTail(t[1]) then 2 else 0
    else if 0xE0 <= b0 <= 0xEF then
      if |t| >= 3 && SecondOf3(b0, t[1]) && IsTail(t[2]) then 3 else 0
    else if 0xF0 <= b0 <= 0xF4 then
      if |t| >= 4 && SecondOf4(b0, t[1]) && IsTail(t[2]) && IsTail(t[3]) then 4 else 0
    else 0
  }

  predicate SecondOf3(b0: byte, b1: byte) {
    if b0 == 0xE0 then 0xA0 <= b1 <= 0xBF
    else if b0 == 0xED then 0x80 <= b1 <= 0x9F
    else IsTail(b1)
  }

  predicate SecondOf4(b0: byte, b1: byte) {
    if b0 == 0xF0 then 0x90 <= b1 <= 0xBF
    else if b0 == 0xF4 then 0x80 <= b1 <= 0x8F
    else IsTail(b1)
  }

  predicate IsUtf8(t: seq<byte>)
    decreases |t|
  {
    t == [] || (LeadingLength(t) != 0 && IsUtf8(t[LeadingLength(t)..]))
  }

  // ---------------------------------------------------------------------------
  // Exactly the encodings of Unicode scalar values
  // ---------------------------------------------------------------------------

  /** A Unicode scalar value: a code point that is not a surrogate. */
  type Scalar = c: int | 0 <= c <= 0xD7FF || 0xE000 <= c <= 0x10FFFF

  /** The number as the byte it fits in. */
  function Octet(x: int): byte
    requires 0 <= x < 256
  {
    x
  }

  /** The encoding of one scalar value, table 3-6 of the Unicode standard. */
  function EncodeScalar(c: Scalar): (t: seq<byte>)
    ensures 1 <= |t| <= 4
  {
    if c < 0x80 then [Octet(c)]
    else if c < 0x800 then [Octet(0xC0 + c / 64), Octet(0x80 + c % 64)]
    else if c < 0x1_0000 then [Octet(0xE0 + c / 4096), Octet(0x80 + c / 64 % 64), Octet(0x80 + c % 64)]
    else [Octet(0xF0 + c / 262144), Octet(0x80 + c / 4096 % 64), Octet(0x80 + c / 64 % 64), Octet(0x80 + c % 64)]
  }

  function EncodeText(text: seq<Scalar>): seq<byte> {
    if text == [] then [] else EncodeScalar(text[0]) + EncodeText(text[1..])
  }

  /** One scalar value is recognized whole, whatever follows it. */
  lemma LeadingScalar(c: Scalar, rest: seq<byte>)
    ensures LeadingLength(EncodeScalar(c) + rest) == |EncodeScalar(c)|
  {}

  /** The scalar value that the leading sequence spells. */
  lemma ScalarOf(t: seq<byte>) returns (c: Scalar)
    requires t != [] && LeadingLength(t) > 0
    ensures EncodeScalar(c) == t[..LeadingLength(t)]
  {
    var n := LeadingLength(t);
    if n == 1 {
      c := t[0];
    } else if n == 2 {
      c := Joined2(t[0], t[1]);
    } else if n == 3 {
      c := Joined3(t[0], t[1], t[2]);
    } else {
      c := Joined4(t[0], t[1], t[2], t[3]);
    }
  }

  lemma Joined2(a: byte, b: byte) returns (c: Scalar)
    requires 0xC2 <= a <= 0xDF && IsTail(b)
    ensures EncodeScalar(c) == [a, b]
  {
    var x: int, y: int := a - 0xC0, b - 0x80;
    c := x * 64 + y;
    assert c / 64 == x && c % 64 == y;
  }

  lemma Joined3(a: byte, b: byte, d: byte) returns (c: Scalar)
    requires 0xE0 <= a <= 0xEF && SecondOf3(a, b) && IsTail(d)
    ensures EncodeScalar(c) == [a, b, d]
  {
    var x: int, y: int, z: int := a - 0xE0, b - 0x80, d - 0x80;
    c := x * 4096 + y * 64 + z;
    assert c / 64 == x * 64 + y && c % 64 == z;
    assert c / 4096 == x && c / 64 % 64 == y;
  }

  lemma Joined4(a: byte, b: byte, d: byte, e: byte) returns (c: Scalar)
    requires 0xF0 <= a <= 0xF4 && SecondOf4(a, b) && IsTail(d) && IsTail(e)
    ensures EncodeScalar(c) == [a, b, d, e]
  {
    var w: int, x: int, y: int, z: int := a - 0xF0, b - 0x80, d - 0x80, e - 0x80;
    c := w * 262144 + x * 4096 + y * 64 + z;
    assert c / 64 == w * 4096 + x * 64 + y && c % 64 == z;
    assert c / 4096 == w * 64 + x && c / 64 % 64 == y;
    assert c / 262144 == w && c / 4096 % 64 == x;
  }

  lemma {:induction false} EncodedTextIsUtf8(text: seq<Scalar>)
    ensures IsUtf8(EncodeText(text))
  {
    if text != [] {
      var first, rest := EncodeScalar(text[0]), EncodeText(text[1..]);
      LeadingScalar(text[0], rest);
      EncodedTextIsUtf8(text[1..]);
      assert (first + rest)[|first|..] == rest;
    }
  }

  lemma {:induction false} Utf8IsEncoded(t: seq<byte>) returns (text: seq<Scalar>)
    requires IsUtf8(t)
    ensures t == EncodeText(text)
    decreases |t|
  {
    hide EncodeScalar, LeadingLength;
    text := [];
    if t != [] {
      var n := LeadingLength(t);
      var c := ScalarOf(t);
      var rest := Utf8IsEncoded(t[n..]);
      text := [c] + rest;
      assert text[1..] == rest;
      assert t == t[..n] + t[n..];
    }
  }

  /** A byte string is UTF-8 exactly when it encodes some sequence of scalar values. */
  lemma Utf8Exactly(t: seq<byte>)
    ensures IsUtf8(t) <==> exists text :: t == EncodeText(text)
  {
    if IsUtf8(t) {
      var text := Utf8IsEncoded(t);
    }
    if text :| t == EncodeText(text) {
      EncodedTextIsUtf8(text);
    }
  }

  /** A text, by its UTF-8 bytes. */
  type Str = t: seq<byte> | IsUtf8(t) witness []
}
