/** Well-formed UTF-8 byte strings (section 4 of RFC 3629). */
module Utf8 {
  import opened Bytes

  predicate Continuation(b: byte) {
    0x80 <= b <= 0xBF
  }

  /** Length of the well-formed character at the front of `s`; 0 when there is none. */
  function CharLength(s: bytes): (n: nat)
    requires s != []
    ensures n <= |s|
  {
    var b := s[0];
    if b < 0x80 then 1
    else if |s| < 2 || !Continuation(s[1]) then 0
    else if 0xC2 <= b <= 0xDF then 2
    else if |s| < 3 || !Continuation(s[2]) then 0
    else if b == 0xE0 then (if s[1] >= 0xA0 then 3 else 0)
    else if b == 0xED then (if s[1] <= 0x9F then 3 else 0)
    else if 0xE1 <= b <= 0xEF then 3
    else if |s| < 4 || !Continuation(s[3]) then 0
    else if b == 0xF0 then (if s[1] >= 0x90 then 4 else 0)
    else if b == 0xF4 then (if s[1] <= 0x8F then 4 else 0)
    else if 0xF1 <= b <= 0xF3 then 4
    else 0
  }

  predicate ValidUtf8(s: bytes) {
    s == [] || (var n := CharLength(s); n > 0 && ValidUtf8(s[n..]))
  }

  predicate IsAscii(s: bytes) {
    forall i :: 0 <= i < |s| ==> s[i] < 0x80
  }

  lemma {:induction false} AsciiIsUtf8(s: bytes)
    requires IsAscii(s)
    ensures ValidUtf8(s)
  {
    if s != [] {
      AsciiIsUtf8(s[1..]);
    }
  }

  /** Rust's `String` and `&str`. */
  type Text = s: bytes | ValidUtf8(s) witness []

  /** Bytes of the Unicode white-space character at the front of `s`; 0 when there is none. */
  function WhitespaceLength(s: bytes): (n: nat)
    requires s != []
    ensures n <= |s|
  {
    if 9 <= s[0] <= 13 || s[0] == 32 then 1
    else if |s| >= 2 && s[0] == 0xC2 && (s[1] == 0x85 || s[1] == 0xA0) then 2
    else if |s| >= 3 && (
        || (s[0] == 0xE1 && s[1] == 0x9A && s[2] == 0x80)
        || (s[0] == 0xE2 && s[1] == 0x80 && (0x80 <= s[2] <= 0x8A || s[2] == 0xA8 || s[2] == 0xA9 || s[2] == 0xAF))
        || (s[0] == 0xE2 && s[1] == 0x81 && s[2] == 0x9F)
        || (s[0] == 0xE3 && s[1] == 0x80 && s[2] == 0x80)) then 3
    else 0
  }
}
