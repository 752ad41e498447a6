/** Unicode scalar values and their UTF-8 form (section 3 of RFC 3629), as the meaning of byte strings. */
module Unicode {
  import opened Bytes
  import opened Utf8

  predicate Scalar(c: nat) {
    c <= 0xD7FF || 0xE000 <= c <= 0x10FFFF
  }

  function EncodeScalar(c: nat): (r: bytes)
    requires Scalar(c)
    ensures 1 <= |r| <= 4
  {
    if c <= 0x7F then [c as byte]
    else if c <= 0x7FF then [0xC0 + (c / 64) as byte, 0x80 + (c % 64) as byte]
    else if c <= 0xFFFF then [0xE0 + (c / 4_096) as byte, 0x80 + (c / 64 % 64) as byte, 0x80 + (c % 64) as byte]
    else [0xF0 + (c / 262_144) as byte, 0x80 + (c / 4_096 % 64) as byte, 0x80 + (c / 64 % 64) as byte, 0x80 + (c % 64) as byte]
  }

  ghost predicate AllScalar(text: seq<nat>) {
    forall i :: 0 <= i < |text| ==> Scalar(text[i])
  }

  ghost function EncodeText(text: seq<nat>): bytes
    requires AllScalar(text)
  {
    if text == [] then [] else EncodeScalar(text[0]) + EncodeText(text[1..])
  }

  /** The scalar value of the character at the front of `s`. */
  function FirstScalar(s: bytes): (c: nat)
    requires s != [] && CharLength(s) > 0
  {
    var n, b := CharLength(s), s[0] as nat;
    if n == 1 then b
    else if n == 2 then 64 * (b - 0xC0) + (s[1] as nat - 0x80)
    else if n == 3 then 4_096 * (b - 0xE0) + 64 * (s[1] as nat - 0x80) + (s[2] as nat - 0x80)
    else 262_144 * (b - 0xF0) + 4_096 * (s[1] as nat - 0x80) + 64 * (s[2] as nat - 0x80) + (s[3] as nat - 0x80)
  }

  lemma TwoDigits(a: nat, b: nat)
    requires b < 64
    ensures (64 * a + b) / 64 == a && (64 * a + b) % 64 == b
  {
  }

  lemma ThreeDigits(a: nat, b: nat, d: nat)
    requires b < 64 && d < 64
    ensures var c := 4_096 * a + 64 * b + d; c / 4_096 == a && c / 64 % 64 == b && c % 64 == d
  {
    TwoDigits(64 * a + b, d);
    TwoDigits(a, b);
  }

  lemma FourDigits(a: nat, b: nat, d: nat, e: nat)
    requires b < 64 && d < 64 && e < 64
    ensures var c := 262_144 * a + 4_096 * b + 64 * d + e;
            c / 262_144 == a && c / 4_096 % 64 == b && c / 64 % 64 == d && c % 64 == e
  {
    ThreeDigits(64 * a + b, d, e);
    TwoDigits(a, b);
  }

  /** A character that is recognized is the encoding of its scalar value. */
  lemma FirstIsScalar(s: bytes)
    requires s != [] && CharLength(s) > 0
    ensures Scalar(FirstScalar(s)) && EncodeScalar(FirstScalar(s)) == s[..CharLength(s)]
  {
    var n := CharLength(s);
    if n == 2 {
      TwoDigits(s[0] as nat - 0xC0, s[1] as nat - 0x80);
    } else if n == 3 {
      ThreeFirst(s);
    } else if n == 4 {
      FourFirst(s);
    }
  }

  lemma ThreeFirst(s: bytes)
    requires s != [] && CharLength(s) == 3
    ensures Scalar(FirstScalar(s)) && EncodeScalar(FirstScalar(s)) == s[..3]
  {
    var a, b, d := s[0] as nat - 0xE0, s[1] as nat - 0x80, s[2] as nat - 0x80;
    ThreeDigits(a, b, d);
    var c := FirstScalar(s);
    assert c == 4_096 * a + 64 * b + d;
    assert 0x800 <= c <= 0xFFFF && Scalar(c);
    hide CharLength, FirstScalar;
    assert EncodeScalar(c) == [s[0], s[1], s[2]];
  }

  lemma FourFirst(s: bytes)
    requires s != [] && CharLength(s) == 4
    ensures Scalar(FirstScalar(s)) && EncodeScalar(FirstScalar(s)) == s[..4]
  {
    var a, b, d, e := s[0] as nat - 0xF0, s[1] as nat - 0x80, s[2] as nat - 0x80, s[3] as nat - 0x80;
    FourDigits(a, b, d, e);
    var c := FirstScalar(s);
    assert c == 262_144 * a + 4_096 * b + 64 * d + e;
    assert 0x1_0000 <= c <= 0x10_FFFF;
    hide CharLength, FirstScalar;
    assert EncodeScalar(c) == [s[0], s[1], s[2], s[3]];
  }

  /** Every encoded scalar value is recognized. */
  lemma ScalarIsFirst(c: nat, rest: bytes)
    requires Scalar(c)
    ensures CharLength(EncodeScalar(c) + rest) == |EncodeScalar(c)|
  {
    var e := EncodeScalar(c);
    var s := e + rest;
    assert s[0] == e[0] && (|e| > 1 ==> s[1] == e[1]) && (|e| > 2 ==> s[2] == e[2]) && (|e| > 3 ==> s[3] == e[3]);
    if c <= 0x7FF {
      ShortIsFirst(c, s);
    } else if c <= 0xFFFF {
      ThreeIsFirst(c, s);
    } else {
      FourIsFirst(c, s);
    }
  }

  lemma ShortIsFirst(c: nat, s: bytes)
    requires c <= 0x7FF && |s| >= |EncodeScalar(c)| && s[0] == EncodeScalar(c)[0]
    requires c > 0x7F ==> s[1] == EncodeScalar(c)[1]
    ensures CharLength(s) == |EncodeScalar(c)|
  {
  }

  lemma ThreeIsFirst(c: nat, s: bytes)
    requires 0x800 <= c <= 0xFFFF && Scalar(c) && |s| >= 3
    requires s[0] == EncodeScalar(c)[0] && s[1] == EncodeScalar(c)[1] && s[2] == EncodeScalar(c)[2]
    ensures CharLength(s) == 3
  {
    var a, b, d := c / 4_096, c / 64 % 64, c % 64;
    assert s[0] as nat == 0xE0 + a && s[1] as nat == 0x80 + b && s[2] as nat == 0x80 + d;
    hide EncodeScalar;
    assert c == 4_096 * a + 64 * b + d;
  }

  lemma FourIsFirst(c: nat, s: bytes)
    requires 0x1_0000 <= c && Scalar(c) && |s| >= 4
    requires s[0] == EncodeScalar(c)[0] && s[1] == EncodeScalar(c)[1] && s[2] == EncodeScalar(c)[2] && s[3] == EncodeScalar(c)[3]
    ensures CharLength(s) == 4
  {
    var a, b, d, e := c / 262_144, c / 4_096 % 64, c / 64 % 64, c % 64;
    FourBounds(c);
    assert s[0] as nat == 0xF0 + a && s[1] as nat == 0x80 + b && s[2] as nat == 0x80 + d && s[3] as nat == 0x80 + e;
    hide EncodeScalar;
  }

  lemma FourBounds(c: nat)
    requires 0x1_0000 <= c <= 0x10_FFFF
    ensures c / 262_144 <= 4 && c / 4_096 % 64 < 64 && c / 64 % 64 < 64 && c % 64 < 64
    ensures c / 262_144 == 0 ==> c / 4_096 % 64 >= 16
    ensures c / 262_144 == 4 ==> c / 4_096 % 64 <= 15
  {
    assert c / 262_144 == c / 4_096 / 64;
    assert c / 4_096 == 64 * (c / 4_096 / 64) + c / 4_096 % 64;
  }

  /** The scalar values of a well-formed byte string. */
  ghost function TextOf(s: bytes): (text: seq<nat>)
    requires ValidUtf8(s)
    ensures AllScalar(text) && EncodeText(text) == s
  {
    if s == [] then []
    else
      FirstIsScalar(s);
      var n := CharLength(s);
      assert s == s[..n] + s[n..];
      var rest := TextOf(s[n..]);
      var text := [FirstScalar(s)] + rest;
      assert text[1..] == rest;
      text
  }

  lemma {:induction false} EncodedIsValid(text: seq<nat>)
    requires AllScalar(text)
    ensures ValidUtf8(EncodeText(text))
  {
    hide CharLength, EncodeScalar;
    if text != [] {
      EncodedIsValid(text[1..]);
      var first, rest := EncodeScalar(text[0]), EncodeText(text[1..]);
      ScalarIsFirst(text[0], rest);
      assert (first + rest)[|first|..] == rest;
    }
  }

  /** A byte string is well formed exactly when it encodes some sequence of scalar values. */
  lemma Utf8Iff(s: bytes)
    ensures ValidUtf8(s) <==> exists text: seq<nat> :: AllScalar(text) && EncodeText(text) == s
  {
    hide ValidUtf8, EncodeText;
    if ValidUtf8(s) {
      var text := TextOf(s);
    }
    if text: seq<nat> :| AllScalar(text) && EncodeText(text) == s {
      EncodedIsValid(text);
    }
  }

  /** The characters with the property White_Space. */
  predicate WhiteSpace(c: nat) {
    || 9 <= c <= 13 || c == 32 || c == 0x85 || c == 0xA0 || c == 0x1680 || 0x2000 <= c <= 0x200A
    || c == 0x2028 || c == 0x2029 || c == 0x202F || c == 0x205F || c == 0x3000
  }

  /** The front of a well-formed string is recognized as white space exactly when its first character is. */
  lemma WhitespaceIff(s: bytes)
    requires s != [] && CharLength(s) > 0
    ensures WhitespaceLength(s) == if WhiteSpace(FirstScalar(s)) then CharLength(s) else 0
  {
  }
}
