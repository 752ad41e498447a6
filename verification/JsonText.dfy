/**
 * Canonical JSON text: string escapes (section 7 of RFC 8259), unsigned integers
 * (section 6 of RFC 8259), and the strict readers of both.
 */
module JsonText {
  import opened Bytes
  import opened Utf8
  import opened Hex
  import opened Decimals

  /** The validation codes the payload codec reports. */
  datatype Code = InvalidData | InvalidCbor | UnsupportedProtocolVersion | ProtocolLimitExceeded

  type Parsed<T> = Result<(T, bytes), Code>

  const QUOTE: byte := 34
  const BACKSLASH: byte := 92
  const U64_LIMIT := 0x1_0000_0000_0000_0000

  // ---------------------------------------------------------------------
  // Writing
  // ---------------------------------------------------------------------

  /** Control characters with a two-character escape. */
  function ShortEscape(b: byte): Option<byte> {
    match b
    case 10 => Some(110)
    case 13 => Some(114)
    case 9 => Some(116)
    case 8 => Some(98)
    case 12 => Some(102)
    case _ => None
  }

  function EscapeByte(b: byte): (r: bytes)
    ensures r != []
  {
    if b == QUOTE then [BACKSLASH, QUOTE]
    else if b == BACKSLASH then [BACKSLASH, BACKSLASH]
    else if ShortEscape(b).Some? then [BACKSLASH, ShortEscape(b).value]
    else if b < 0x20 then [BACKSLASH, 117, 48, 48, HexDigit(b / 16), HexDigit(b % 16)]
    else [b]
  }

  function Escape(s: bytes): bytes {
    if s == [] then [] else EscapeByte(s[0]) + Escape(s[1..])
  }

  function Quoted(s: bytes): bytes {
    [QUOTE] + Escape(s) + [QUOTE]
  }

  /** Text that needs no escape. */
  predicate Plain(s: bytes) {
    forall i :: 0 <= i < |s| ==> 0x20 <= s[i] && s[i] != QUOTE && s[i] != BACKSLASH
  }

  lemma {:induction false} PlainEscape(s: bytes)
    requires Plain(s)
    ensures Escape(s) == s
  {
    if s != [] {
      PlainEscape(s[1..]);
      assert s == [s[0]] + s[1..];
    }
  }

  /** The escapes, spelled out. */
  lemma EscapeTable(b: byte)
    ensures b == 34 ==> EscapeByte(b) == Ascii("\\\"")
    ensures b == 92 ==> EscapeByte(b) == Ascii("\\\\")
    ensures b == 8 ==> EscapeByte(b) == Ascii("\\b")
    ensures b == 9 ==> EscapeByte(b) == Ascii("\\t")
    ensures b == 10 ==> EscapeByte(b) == Ascii("\\n")
    ensures b == 12 ==> EscapeByte(b) == Ascii("\\f")
    ensures b == 13 ==> EscapeByte(b) == Ascii("\\r")
    ensures b < 0x20 && b !in [8, 9, 10, 12, 13] ==> EscapeByte(b) == Ascii("\\u00") + ToHex([b])
    ensures b >= 0x20 && b != 34 && b != 92 ==> EscapeByte(b) == [b]
  {
    assert [b][1..] == [] && ToHex([]) == [];
    assert ToHex([b]) == [HexDigit(b / 16), HexDigit(b % 16)];
  }

  /** A text is escaped byte by byte. */
  lemma {:induction false} EscapeAppend(a: bytes, b: bytes)
    ensures Escape(a + b) == Escape(a) + Escape(b)
    ensures |a| == 1 ==> Escape(a) == EscapeByte(a[0])
  {
    hide EscapeByte;
    if a == [] {
      assert a + b == b;
    } else {
      assert (a + b)[1..] == a[1..] + b;
      EscapeAppend(a[1..], b);
      Associative(EscapeByte(a[0]), Escape(a[1..]), Escape(b));
    }
  }

  // ---------------------------------------------------------------------
  // Reading
  // ---------------------------------------------------------------------

  function TakeByte(b: byte, s: bytes): (r: Result<bytes, Code>)
    ensures r.Ok? ==> |r.value| < |s|
  {
    if s == [] || s[0] != b then Err(InvalidCbor) else Ok(s[1..])
  }

  /** The character named by the escape whose backslash has been read. */
  function ReadEscape(s: bytes): (r: Parsed<byte>)
    ensures r.Ok? ==> |r.value.1| < |s|
  {
    if s == [] then Err(InvalidCbor)
    else match s[0]
      case 34 => Ok((34, s[1..]))
      case 92 => Ok((92, s[1..]))
      case 110 => Ok((10, s[1..]))
      case 114 => Ok((13, s[1..]))
      case 116 => Ok((9, s[1..]))
      case 98 => Ok((8, s[1..]))
      case 102 => Ok((12, s[1..]))
      case 117 =>
        if |s| < 5 || s[1] != 48 || s[2] != 48 then Err(InvalidCbor)
        else
          var hi, lo := HexValue(s[3]), HexValue(s[4]);
          if hi.None? || lo.None? || hi.value >= 2 then Err(InvalidCbor)
          else HexValueInverse(s[4]); Ok((16 * hi.value + lo.value, s[5..]))
      case _ => Err(InvalidCbor)
  }

  /** One character of a string body. */
  function ReadCharacter(s: bytes): (r: Parsed<byte>)
    ensures r.Ok? ==> |r.value.1| < |s|
  {
    if s == [] || s[0] == QUOTE || s[0] < 0x20 then Err(InvalidCbor)
    else if s[0] == BACKSLASH then ReadEscape(s[1..])
    else Ok((s[0], s[1..]))
  }

  /** Characters up to and including the closing quote. */
  function ReadBody(s: bytes): (r: Parsed<bytes>)
    ensures r.Ok? ==> |r.value.1| < |s|
  {
    if s != [] && s[0] == QUOTE then Ok(([], s[1..]))
    else
      var (b, rest) :- ReadCharacter(s);
      var (out, end) :- ReadBody(rest);
      Ok(([b] + out, end))
  }

  function ReadString(s: bytes): (r: Parsed<bytes>)
    ensures r.Ok? ==> |r.value.1| < |s|
  {
    var body :- TakeByte(QUOTE, s);
    var (out, rest) :- ReadBody(body);
    if ValidUtf8(out) then Ok((out, rest)) else Err(InvalidCbor)
  }

  function DigitSpan(s: bytes): (n: nat)
    ensures n <= |s| && AllDigits(s[..n])
  {
    if s == [] || !IsDigit(s[0]) then 0 else 1 + DigitSpan(s[1..])
  }

  function ReadNumber(s: bytes): (r: Parsed<nat>)
    ensures r.Ok? ==> |r.value.1| < |s|
  {
    var text := s[..DigitSpan(s)];
    if text == [] then Err(InvalidCbor)
    else if |text| > 1 && text[0] == 48 then Err(InvalidCbor)
    else if DigitsValue(text) >= U64_LIMIT then Err(InvalidCbor)
    else Ok((DigitsValue(text), s[|text|..]))
  }

  /** A quoted key, spelled exactly, and its colon. */
  function ExpectKey(key: bytes, s: bytes): (r: Result<bytes, Code>)
    ensures r.Ok? ==> |r.value| < |s|
  {
    var inside :- TakeByte(QUOTE, s);
    if |key| + 1 > |inside| || inside[..|key|] != key || inside[|key|] != QUOTE then Err(InvalidCbor)
    else TakeByte(58, inside[|key| + 1..])
  }

  // ---------------------------------------------------------------------
  // Reading what was written
  // ---------------------------------------------------------------------

  lemma ReadEscapedByte(b: byte, rest: bytes)
    ensures ReadCharacter(EscapeByte(b) + rest) == Ok((b, rest))
    ensures (EscapeByte(b) + rest)[0] != QUOTE
  {
    var s := EscapeByte(b) + rest;
    assert s[|EscapeByte(b)|..] == rest;
    if b < 0x20 {
      HexDigitInverse(b / 16);
      HexDigitInverse(b % 16);
    }
    assert |EscapeByte(b)| == 1 ==> s[1..] == rest;
    assert |EscapeByte(b)| > 1 ==> s[1..][1..] == s[2..];
    assert |EscapeByte(b)| == 6 ==> s[1..][5..] == s[6..];
  }

  lemma {:induction false} ReadEscaped(v: bytes, rest: bytes)
    ensures ReadBody(Escape(v) + ([QUOTE] + rest)) == Ok((v, rest))
  {
    hide EscapeByte, ReadCharacter;
    var s := Escape(v) + ([QUOTE] + rest);
    if v == [] {
      assert s == [QUOTE] + rest;
    } else {
      var tail := Escape(v[1..]) + ([QUOTE] + rest);
      Associative(EscapeByte(v[0]), Escape(v[1..]), [QUOTE] + rest);
      ReadEscaped(v[1..], rest);
      ReadEscapedByte(v[0], tail);
      assert v == [v[0]] + v[1..];
    }
  }

  lemma ReadQuoted(v: bytes, rest: bytes)
    requires ValidUtf8(v)
    ensures ReadString(Quoted(v) + rest) == Ok((v, rest))
  {
    hide ReadBody, Escape, ValidUtf8;
    ReadEscaped(v, rest);
    assert (Quoted(v) + rest)[1..] == Escape(v) + ([QUOTE] + rest);
  }

  lemma {:induction false} DigitSpanOf(digits: bytes, rest: bytes)
    requires AllDigits(digits) && (rest == [] || !IsDigit(rest[0]))
    ensures DigitSpan(digits + rest) == |digits|
  {
    if digits == [] {
      assert digits + rest == rest;
    } else {
      assert (digits + rest)[1..] == digits[1..] + rest;
      DigitSpanOf(digits[1..], rest);
    }
  }

  lemma ReadDecimal(n: nat, rest: bytes)
    requires n < U64_LIMIT && (rest == [] || !IsDigit(rest[0]))
    ensures ReadNumber(Decimal(n) + rest) == Ok((n, rest))
  {
    hide DigitSpan, Decimal, DigitsValue;
    DigitSpanOf(Decimal(n), rest);
    DecimalValue(n);
    assert (Decimal(n) + rest)[..|Decimal(n)|] == Decimal(n);
  }

  lemma KeyIsRead(key: bytes, rest: bytes)
    ensures ExpectKey(key, [QUOTE] + key + [QUOTE, 58] + rest) == Ok(rest)
  {
    var inside := key + [QUOTE, 58] + rest;
    assert [QUOTE] + key + [QUOTE, 58] + rest == [QUOTE] + inside;
    assert inside[..|key|] == key;
    assert inside[|key| + 1..] == [58] + rest;
  }

  lemma ReadKeyIs(key: bytes, s: bytes, rest: bytes)
    requires ExpectKey(key, s) == Ok(rest)
    ensures s == [QUOTE] + key + [QUOTE, 58] + rest
  {
    var inside := s[1..];
    var colon := inside[|key| + 1..];
    assert s == [QUOTE] + inside;
    assert colon == [58] + rest;
    assert inside == key + [QUOTE] + colon;
  }

  lemma KeyIff(key: bytes, s: bytes, rest: bytes)
    ensures ExpectKey(key, s) == Ok(rest) <==> s == [QUOTE] + key + [QUOTE, 58] + rest
  {
    hide ExpectKey;
    KeyIsRead(key, rest);
    if ExpectKey(key, s) == Ok(rest) {
      ReadKeyIs(key, s, rest);
    }
  }

  // ---------------------------------------------------------------------
  // What else is read
  // ---------------------------------------------------------------------

  /** The long spelling of a control character that has a short one. */
  predicate LongSpelling(s: bytes) {
    |s| >= 6 && s[..5] == [BACKSLASH, 117, 48, 48, 48] && s[5] in [48 + 8, 48 + 9, 97, 99, 100]
  }

  /**
   * Scans a text, passing over two characters at each backslash: does it spell backspace,
   * tab, newline, form feed or return as a `\u00XX` escape?
   */
  predicate SpellsShortFormLong(s: bytes) {
    if s == [] then false
    else if s[0] == BACKSLASH && |s| >= 2 then LongSpelling(s) || SpellsShortFormLong(s[2..])
    else SpellsShortFormLong(s[1..])
  }

  lemma {:induction false} ScanPlain(a: bytes, rest: bytes)
    requires BACKSLASH !in a
    ensures SpellsShortFormLong(a + rest) == SpellsShortFormLong(rest)
  {
    if a == [] {
      assert a + rest == rest;
    } else {
      assert (a + rest)[1..] == a[1..] + rest;
      ScanPlain(a[1..], rest);
    }
  }

  lemma ScanEscape(s: bytes, rest: bytes)
    requires s != [] && s[0] == BACKSLASH && ReadEscape(s[1..]).Ok? && ReadEscape(s[1..]).value.1 == rest
    ensures SpellsShortFormLong(s) == (LongSpelling(s) || SpellsShortFormLong(rest))
  {
    if s[1] == 117 {
      assert rest == s[6..];
      HexValueInverse(s[4]);
      assert s[2..] == [s[2], s[3], s[4], s[5]] + rest;
      ScanPlain([s[2], s[3], s[4], s[5]], rest);
    } else {
      assert rest == s[2..];
    }
  }

  /** A `\u00XX` escape is long exactly when the character has a short one. */
  lemma UnicodeSpelling(hi: byte, lo: byte)
    requires HexValue(hi).Some? && HexValue(hi).value < 2 && HexValue(lo).Some?
    ensures HexValue(lo).value < 16
    ensures var b := 16 * HexValue(hi).value + HexValue(lo).value;
            && b < 0x20
            && (hi == 48 && lo in [48 + 8, 48 + 9, 97, 99, 100] <==> ShortEscape(b).Some?)
            && (ShortEscape(b).None? ==> EscapeByte(b) == [BACKSLASH, 117, 48, 48, hi, lo])
            && (ShortEscape(b).Some? ==> |EscapeByte(b)| == 2 && EscapeByte(b)[1] != 117)
  {
    HexValueInverse(hi);
    HexValueInverse(lo);
    var b := 16 * HexValue(hi).value + HexValue(lo).value;
    assert b / 16 == HexValue(hi).value && b % 16 == HexValue(lo).value;
  }

  lemma UnicodeCharacter(s: bytes, b: byte, rest: bytes)
    requires |s| >= 2 && s[0] == BACKSLASH && s[1] == 117 && ReadCharacter(s) == Ok((b, rest))
    ensures |rest| + 6 == |s| && s[6..] == rest
    ensures !LongSpelling(s) ==> EscapeByte(b) == s[..6]
    ensures LongSpelling(s) ==> |EscapeByte(b)| == 2 && EscapeByte(b)[1] != s[1]
  {
    UnicodeSpelling(s[4], s[5]);
    hide EscapeByte, ShortEscape, HexValue;
    assert s[..6] == [s[0], s[1], s[2], s[3], s[4], s[5]];
    assert s[..5] == [s[0], s[1], s[2], s[3], s[4]];
  }

  lemma SimpleCharacter(s: bytes, b: byte, rest: bytes)
    requires ReadCharacter(s) == Ok((b, rest)) && !(s[0] == BACKSLASH && s[1] == 117)
    ensures !LongSpelling(s) && EscapeByte(b) == s[..|s| - |rest|] && s == EscapeByte(b) + rest
  {
    if s[0] == BACKSLASH {
      assert s == [s[0], s[1]] + rest;
    } else {
      assert s == [s[0]] + rest;
    }
  }

  /** One character: its canonical spelling is the one read, unless that was a long spelling. */
  lemma CharacterSpelling(s: bytes, b: byte, rest: bytes)
    requires ReadCharacter(s) == Ok((b, rest))
    ensures s == s[..|s| - |rest|] + rest
    ensures |EscapeByte(b)| <= |s| - |rest|
    ensures !LongSpelling(s) ==> EscapeByte(b) == s[..|s| - |rest|]
    ensures LongSpelling(s) ==> |EscapeByte(b)| == 2 < |s| - |rest| && EscapeByte(b)[1] != s[1]
    ensures SpellsShortFormLong(s) == (LongSpelling(s) || SpellsShortFormLong(rest))
  {
    hide EscapeByte, LongSpelling, ReadEscape;
    if s[0] == BACKSLASH {
      ScanEscape(s, rest);
    } else {
      SimpleCharacter(s, b, rest);
    }
    hide SpellsShortFormLong;
    if s[0] == BACKSLASH && s[1] == 117 {
      UnicodeCharacter(s, b, rest);
      assert s == s[..6] + s[6..];
    } else {
      SimpleCharacter(s, b, rest);
    }
  }

  /**
   * A string body that reads as `v`: the canonical spelling of `v` is no longer than what was
   * read, and it is what was read unless a long spelling occurs in it.
   */
  lemma {:induction false} BodySpelling(s: bytes, v: bytes, rest: bytes)
    requires ReadBody(s) == Ok((v, rest))
    ensures |Escape(v)| + 1 + |rest| <= |s|
    ensures exists raw :: s == raw + rest && CanonicalUnlessLong(raw, Escape(v) + [QUOTE], rest)
  {
    hide EscapeByte, ReadCharacter;
    if s[0] == QUOTE {
      assert s == [QUOTE] + rest && Escape(v) + [QUOTE] == [QUOTE];
      ScanPlain([QUOTE], rest);
      assert CanonicalUnlessLong([QUOTE], Escape(v) + [QUOTE], rest);
    } else {
      var (b, next) := ReadCharacter(s).value;
      CharacterSpelling(s, b, next);
      assert v[0] == b && v[1..] == ReadBody(next).value.0;
      BodySpelling(next, v[1..], rest);
      var raw :| next == raw + rest && CanonicalUnlessLong(raw, Escape(v[1..]) + [QUOTE], rest);
      var unit := s[..|s| - |next|];
      Associative(unit, raw, rest);
      Associative(EscapeByte(b), Escape(v[1..]), [QUOTE]);
      hide SpellsShortFormLong, Escape;
      UnitThenRest(s, unit, raw, rest, EscapeByte(b), Escape(v[1..]) + [QUOTE]);
    }
  }

  /** `raw` is the canonical text exactly when the scan finds nothing before `rest`. */
  ghost predicate CanonicalUnlessLong(raw: bytes, canonical: bytes, rest: bytes) {
    && |canonical| <= |raw|
    && (SpellsShortFormLong(raw + rest) <==> raw != canonical || SpellsShortFormLong(rest))
  }

  lemma UnitThenRest(s: bytes, unit: bytes, raw: bytes, rest: bytes, escape: bytes, canonical: bytes)
    requires s == unit + raw + rest && unit + (raw + rest) == s && CanonicalUnlessLong(raw, canonical, rest)
    requires |escape| <= |unit|
    requires !LongSpelling(s) ==> escape == unit
    requires LongSpelling(s) ==> |escape| == 2 < |unit| && escape[1] != s[1]
    requires SpellsShortFormLong(s) == (LongSpelling(s) || SpellsShortFormLong(raw + rest))
    ensures CanonicalUnlessLong(unit + raw, escape + canonical, rest)
  {
    hide SpellsShortFormLong;
    var a, c := unit + raw, escape + canonical;
    if LongSpelling(s) {
      assert a[1] == s[1] && c[1] == escape[1];
    } else {
      assert a[|unit|..] == raw && c[|unit|..] == canonical;
    }
  }

  lemma StringSpelling(s: bytes, v: bytes, rest: bytes)
    requires ReadString(s) == Ok((v, rest))
    ensures ValidUtf8(v)
    ensures exists raw :: s == raw + rest && CanonicalUnlessLong(raw, Quoted(v), rest)
  {
    hide ReadBody, Escape, ValidUtf8;
    var body := s[1..];
    BodySpelling(body, v, rest);
    var raw :| body == raw + rest && CanonicalUnlessLong(raw, Escape(v) + [QUOTE], rest);
    hide SpellsShortFormLong;
    Associative([QUOTE], raw, rest);
    Associative([QUOTE], Escape(v), [QUOTE]);
    ScanPlain([QUOTE], raw + rest);
    assert ([QUOTE] + raw)[1..] == raw && Quoted(v)[1..] == Escape(v) + [QUOTE];
    assert s == [QUOTE] + raw + rest;
    assert CanonicalUnlessLong([QUOTE] + raw, Quoted(v), rest);
  }

  /** A number that reads is spelled as it is printed. */
  lemma NumberSpelling(s: bytes, n: nat, rest: bytes)
    requires ReadNumber(s) == Ok((n, rest))
    ensures n < U64_LIMIT && s == Decimal(n) + rest && BACKSLASH !in Decimal(n)
  {
    hide DigitSpan, Decimal, DigitsValue;
    var text := s[..DigitSpan(s)];
    ValueDecimal(text);
    assert s == text + rest;
  }
}