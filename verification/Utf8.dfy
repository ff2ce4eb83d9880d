/** Well-formed UTF-8, as in section 4 of RFC 3629; a proto3 `string` must be. */
module Utf8 {
  import opened Bytes

  predicate Continuation(b: byte) { 0x80 <= b < 0xC0 }

  predicate IsUtf8(s: Bytes) {
    if |s| == 0 then true
    else if s[0] < 0x80 then IsUtf8(s[1..])
    else if 0xC2 <= s[0] < 0xE0 then
      |s| >= 2 && Continuation(s[1]) && IsUtf8(s[2..])
    else if 0xE0 <= s[0] < 0xF0 then
      && |s| >= 3 && Continuation(s[1]) && Continuation(s[2])
      && (s[0] == 0xE0 ==> s[1] >= 0xA0) && (s[0] == 0xED ==> s[1] < 0xA0)
      && IsUtf8(s[3..])
    else if 0xF0 <= s[0] < 0xF5 then
      && |s| >= 4 && Continuation(s[1]) && Continuation(s[2]) && Continuation(s[3])
      && (s[0] == 0xF0 ==> s[1] >= 0x90) && (s[0] == 0xF4 ==> s[1] < 0x90)
      && IsUtf8(s[4..])
    else false
  }

  // ----- The bytes of characters

  /** A Unicode code point that is not a surrogate. */
  type Scalar = c: int | 0 <= c < 0x11_0000 && !(0xD800 <= c < 0xE000)

  function EncodeScalar(c: Scalar): (b: Bytes)
    ensures 1 <= |b| <= 4
  {
    if c < 0x80 then [c]
    else if c < 0x800 then [0xC0 + c / 0x40, 0x80 + c % 0x40]
    else if c < 0x1_0000 then [0xE0 + c / 0x1000, 0x80 + c / 0x40 % 0x40, 0x80 + c % 0x40]
    else [0xF0 + c / 0x4_0000, 0x80 + c / 0x1000 % 0x40, 0x80 + c / 0x40 % 0x40, 0x80 + c % 0x40]
  }

  function EncodeUtf8(text: seq<Scalar>): Bytes {
    if |text| == 0 then [] else EncodeScalar(text[0]) + EncodeUtf8(text[1..])
  }

  /** What the first bytes of well-formed UTF-8 stand for. */
  function FirstScalar(s: Bytes): Scalar
    requires |s| > 0 && IsUtf8(s)
  {
    if s[0] < 0x80 then s[0]
    else if s[0] < 0xE0 then Two(s[0], s[1])
    else if s[0] < 0xF0 then Three(s[0], s[1], s[2])
    else Four(s[0], s[1], s[2], s[3])
  }

  function Two(a: int, b: int): int { 0x40 * (a - 0xC0) + (b - 0x80) }

  function Three(a: int, b: int, c: int): int { 0x1000 * (a - 0xE0) + 0x40 * (b - 0x80) + (c - 0x80) }

  function Four(a: int, b: int, c: int, d: int): int {
    0x4_0000 * (a - 0xF0) + 0x1000 * (b - 0x80) + 0x40 * (c - 0x80) + (d - 0x80)
  }

  lemma OneByte(a: byte)
    requires a < 0x80
    ensures EncodeScalar(a) == [a]
  {
  }

  lemma TwoBytes(a: byte, b: byte)
    requires 0xC2 <= a < 0xE0 && Continuation(b)
    ensures 0x80 <= Two(a, b) < 0x800 && EncodeScalar(Two(a, b)) == [a, b]
  {
  }

  lemma ThreeBytes(a: byte, b: byte, c: byte)
    requires 0xE0 <= a < 0xF0 && Continuation(b) && Continuation(c)
    requires (a == 0xE0 ==> b >= 0xA0) && (a == 0xED ==> b < 0xA0)
    ensures 0x800 <= Three(a, b, c) < 0x1_0000 && !(0xD800 <= Three(a, b, c) < 0xE000)
    ensures EncodeScalar(Three(a, b, c)) == [a, b, c]
  {
    var v := Three(a, b, c);
    assert v / 0x40 == 0x40 * (a - 0xE0) + (b - 0x80);
    assert v / 0x1000 == a - 0xE0;
    assert v / 0x40 % 0x40 == b - 0x80 && v % 0x40 == c - 0x80;
  }

  lemma FourBytes(a: byte, b: byte, c: byte, d: byte)
    requires 0xF0 <= a < 0xF5 && Continuation(b) && Continuation(c) && Continuation(d)
    requires (a == 0xF0 ==> b >= 0x90) && (a == 0xF4 ==> b < 0x90)
    ensures 0x1_0000 <= Four(a, b, c, d) < 0x11_0000
    ensures EncodeScalar(Four(a, b, c, d)) == [a, b, c, d]
  {
    var v := Four(a, b, c, d);
    assert v / 0x40 == 0x1000 * (a - 0xF0) + 0x40 * (b - 0x80) + (c - 0x80);
    assert v / 0x1000 == 0x40 * (a - 0xF0) + (b - 0x80);
  }

  lemma ScalarIsUtf8(c: Scalar, rest: Bytes)
    ensures IsUtf8(EncodeScalar(c) + rest) <==> IsUtf8(rest)
  {
    var b := EncodeScalar(c);
    assert (b + rest)[|b|..] == rest;
  }

  lemma FirstScalarIsFirst(s: Bytes)
    requires |s| > 0 && IsUtf8(s)
    ensures var b := EncodeScalar(FirstScalar(s)); |b| <= |s| && s == b + s[|b|..] && IsUtf8(s[|b|..])
  {
    hide EncodeScalar, Two, Three, Four;
    if 0xC0 <= s[0] < 0xE0 {
      TwoBytes(s[0], s[1]);
    } else if 0xE0 <= s[0] < 0xF0 {
      ThreeBytes(s[0], s[1], s[2]);
    } else if 0xF0 <= s[0] {
      FourBytes(s[0], s[1], s[2], s[3]);
    } else {
      OneByte(s[0]);
    }
  }

  lemma {:induction false} EncodedIsUtf8(text: seq<Scalar>)
    ensures IsUtf8(EncodeUtf8(text))
  {
    if |text| > 0 {
      EncodedIsUtf8(text[1..]);
      ScalarIsUtf8(text[0], EncodeUtf8(text[1..]));
    }
  }

  lemma {:induction false} Utf8IsEncoded(s: Bytes) returns (text: seq<Scalar>)
    requires IsUtf8(s)
    ensures s == EncodeUtf8(text)
    decreases |s|
  {
    if |s| == 0 {
      return [];
    }
    var c := FirstScalar(s);
    FirstScalarIsFirst(s);
    var tail := Utf8IsEncoded(s[|EncodeScalar(c)|..]);
    text := [c] + tail;
    assert text[1..] == tail;
  }

  /** Exactly the encodings of texts are well-formed: no overlong form, no surrogate, nothing cut short. */
  lemma Utf8Exactly(s: Bytes)
    ensures IsUtf8(s) <==> exists text :: s == EncodeUtf8(text)
  {
    hide IsUtf8;
    if IsUtf8(s) {
      var text := Utf8IsEncoded(s);
    }
    if text :| s == EncodeUtf8(text) {
      EncodedIsUtf8(text);
    }
  }

  /** So every ASCII string is. */
  lemma {:induction false} AsciiIsUtf8(s: Bytes)
    requires forall i :: 0 <= i < |s| ==> s[i] < 0x80
    ensures IsUtf8(s)
  {
    if |s| > 0 {
      AsciiIsUtf8(s[1..]);
    }
  }
}
