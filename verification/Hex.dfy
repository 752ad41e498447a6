/** Lowercase hexadecimal text of byte strings and its strict reader. */
module Hex {
  import opened Bytes
  import opened Utf8

  function HexDigit(nibble: byte): byte
    requires nibble < 16
  {
    if nibble <= 9 then 48 + nibble else 97 + (nibble - 10)
  }

  function HexValue(digit: byte): Option<byte> {
    if 48 <= digit <= 57 then Some(digit - 48)
    else if 97 <= digit <= 102 then Some(digit - 97 + 10)
    else None
  }

  lemma HexDigitInverse(nibble: byte)
    requires nibble < 16
    ensures HexValue(HexDigit(nibble)) == Some(nibble)
    ensures HexDigit(nibble) < 0x80 && HexDigit(nibble) != 0
  {
  }

  lemma HexValueInverse(digit: byte)
    requires HexValue(digit).Some?
    ensures HexValue(digit).value < 16 && HexDigit(HexValue(digit).value) == digit
  {
  }

  function ToHex(b: bytes): (r: bytes)
    ensures |r| == 2 * |b|
  {
    if b == [] then [] else [HexDigit(b[0] / 16), HexDigit(b[0] % 16)] + ToHex(b[1..])
  }

  /** Reads pairs of lowercase digits; an odd length or any other character is refused. */
  function FromHex(s: bytes): (r: Option<bytes>)
    ensures r.Some? ==> 2 * |r.value| == |s|
  {
    if s == [] then Some([])
    else if |s| == 1 then None
    else
      var hi, lo := HexValue(s[0]), HexValue(s[1]);
      if hi.None? || lo.None? then None else
      HexValueInverse(s[0]);
      HexValueInverse(s[1]);
      match FromHex(s[2..])
      case None => None
      case Some(b) => Some([16 * hi.value + lo.value] + b)
  }

  /** The reader's loop over pairs. */
  method DecodeHex(s: bytes) returns (r: Option<bytes>)
    ensures r == FromHex(s)
  {
    if |s| % 2 != 0 {
      OddRefused(s);
      return None;
    }
    var out: bytes, i := [], 0;
    assert s[0..] == s;
    assert FromHex(s).Some? ==> [] + FromHex(s).value == FromHex(s).value;
    while i < |s|
      invariant 0 <= i <= |s| && i % 2 == 0
      invariant match FromHex(s[i..])
                case None => FromHex(s) == None
                case Some(b) => FromHex(s) == Some(out + b)
    {
      var hi, lo := HexValue(s[i]), HexValue(s[i + 1]);
      if hi.None? || lo.None? {
        return None;
      }
      HexValueInverse(s[i]);
      HexValueInverse(s[i + 1]);
      assert s[i..][2..] == s[i + 2..];
      if FromHex(s[i + 2..]).Some? {
        Associative(out, [16 * hi.value + lo.value], FromHex(s[i + 2..]).value);
      }
      out, i := out + [16 * hi.value + lo.value], i + 2;
    }
    assert out + [] == out;
    return Some(out);
  }

  lemma {:induction false} OddRefused(s: bytes)
    requires |s| % 2 != 0
    ensures FromHex(s) == None
  {
    if |s| > 1 {
      OddRefused(s[2..]);
    }
  }

  lemma {:induction false} ToFromHex(b: bytes)
    ensures FromHex(ToHex(b)) == Some(b)
  {
    if b != [] {
      var s := ToHex(b);
      HexDigitInverse(b[0] / 16);
      HexDigitInverse(b[0] % 16);
      ToFromHex(b[1..]);
      assert s[2..] == ToHex(b[1..]);
      assert b == [b[0]] + b[1..];
    }
  }

  lemma {:induction false} FromToHex(s: bytes)
    requires FromHex(s).Some?
    ensures ToHex(FromHex(s).value) == s
  {
    if s != [] {
      HexValueInverse(s[0]);
      HexValueInverse(s[1]);
      FromToHex(s[2..]);
      var b := FromHex(s).value;
      assert b[0] / 16 == HexValue(s[0]).value && b[0] % 16 == HexValue(s[1]).value;
      assert b[1..] == FromHex(s[2..]).value;
      assert s == [s[0], s[1]] + s[2..];
    }
  }

  /** The reader accepts exactly pairs of lowercase hexadecimal digits. */
  lemma {:induction false} HexAccepts(s: bytes)
    ensures FromHex(s).Some? <==> |s| % 2 == 0 && forall i :: 0 <= i < |s| ==> s[i] in Ascii("0123456789abcdef")
  {
    hide HexValue, Ascii;
    if |s| > 1 {
      HexAccepts(s[2..]);
      DigitRead(s[0]);
      DigitRead(s[1]);
      assert forall i :: 0 <= i < |s| - 2 ==> s[2..][i] == s[i + 2];
    }
  }

  lemma DigitRead(digit: byte)
    ensures HexValue(digit).Some? <==> digit in Ascii("0123456789abcdef")
  {
    var digits := Ascii("0123456789abcdef");
    if HexValue(digit).Some? {
      HexValueInverse(digit);
      HexAlphabet(HexValue(digit).value);
    }
  }

  lemma {:induction false} HexIsAscii(b: bytes)
    ensures IsAscii(ToHex(b)) && 0 !in ToHex(b)
  {
    if b != [] {
      HexDigitInverse(b[0] / 16);
      HexDigitInverse(b[0] % 16);
      HexIsAscii(b[1..]);
    }
  }

  lemma HexInjective(a: bytes, b: bytes)
    requires ToHex(a) == ToHex(b)
    ensures a == b
  {
    ToFromHex(a);
    ToFromHex(b);
  }

  /** The digits are those of the lowercase alphabet, high half first. */
  lemma {:induction false} HexAt(b: bytes, i: nat)
    requires i < |b|
    ensures ToHex(b)[2 * i] == Ascii("0123456789abcdef")[b[i] / 16]
    ensures ToHex(b)[2 * i + 1] == Ascii("0123456789abcdef")[b[i] % 16]
  {
    if i == 0 {
      HexAlphabet(b[0] / 16);
      HexAlphabet(b[0] % 16);
    } else {
      hide HexDigit;
      HexAt(b[1..], i - 1);
    }
  }

  lemma HexAlphabet(nibble: byte)
    requires nibble < 16
    ensures HexDigit(nibble) == Ascii("0123456789abcdef")[nibble]
  {
  }
}
