/** The strict parser: a position in the input, advanced by loops that read strings, numbers and rows. */
module PayloadParser {
  import opened Bytes
  import opened Utf8
  import opened Hex
  import opened Decimals
  import opened JsonText
  import opened JsonWriter
  import opened JsonFields
  import opened PublicPayload
  import opened PayloadCodec
  import opened PayloadWriter

  class CanonicalJsonParser {
    const input: bytes
    var pos: nat

    ghost predicate Valid()
      reads this
    {
      pos <= |input|
    }

    ghost function Rest(): bytes
      requires Valid()
      reads this
    {
      input[pos..]
    }

    /** The outcome `r` of a method is the one specified by `spec`, and so is the unread text. */
    ghost predicate Agrees<T>(spec: Parsed<T>, r: Result<T, Code>)
      reads this
    {
      && Valid()
      && match spec
         case Ok(pair) => r == Ok(pair.0) && Rest() == pair.1
         case Err(e) => r == Err(e)
    }

    constructor (bytes: bytes)
      ensures Valid() && Rest() == bytes
    {
      input, pos := bytes, 0;
    }

    method ConsumeByte(expected: byte) returns (r: Result<(), Code>)
      requires Valid()
      modifies this
      ensures Valid()
      ensures match TakeByte(expected, old(Rest()))
              case Ok(rest) => r.Ok? && Rest() == rest
              case Err(e) => r == Err(e)
    {
      if pos == |input| || input[pos] != expected {
        return Err(InvalidCbor);
      }
      pos := pos + 1;
      return Ok(());
    }

    method ExpectKeyText(key: bytes) returns (r: Result<(), Code>)
      requires Valid()
      modifies this
      ensures Valid()
      ensures match ExpectKey(key, old(Rest()))
              case Ok(rest) => r.Ok? && Rest() == rest
              case Err(e) => r == Err(e)
    {
      var quote := ConsumeByte(QUOTE);
      if quote.Err? {
        return quote;
      }
      ghost var inside := Rest();
      if pos + |key| + 1 > |input| {
        return Err(InvalidCbor);
      }
      assert inside[..|key|] == input[pos..pos + |key|];
      assert inside[|key| + 1..] == input[pos + |key| + 1..];
      if input[pos..pos + |key|] != key || input[pos + |key|] != QUOTE {
        return Err(InvalidCbor);
      }
      pos := pos + |key| + 1;
      r := ConsumeByte(58);
    }

    /** The escape after a backslash. */
    method ReadEscapeSequence() returns (r: Result<byte, Code>)
      requires Valid()
      modifies this
      ensures Agrees(ReadEscape(old(Rest())), r)
      ensures r.Ok? ==> pos > old(pos)
    {
      if pos == |input| {
        return Err(InvalidCbor);
      }
      ghost var s := Rest();
      var escaped := input[pos];
      pos := pos + 1;
      match escaped
      case 34 => return Ok(34);
      case 92 => return Ok(92);
      case 110 => return Ok(10);
      case 114 => return Ok(13);
      case 116 => return Ok(9);
      case 98 => return Ok(8);
      case 102 => return Ok(12);
      case 117 =>
        if pos + 4 > |input| {
          return Err(InvalidCbor);
        }
        assert s[1..5] == input[pos..pos + 4];
        var hi, lo := HexValue(input[pos + 2]), HexValue(input[pos + 3]);
        if input[pos] != 48 || input[pos + 1] != 48 || hi.None? || lo.None? {
          return Err(InvalidCbor);
        }
        HexValueInverse(input[pos + 2]);
        HexValueInverse(input[pos + 3]);
        if 16 * hi.value + lo.value >= 0x20 {
          return Err(InvalidCbor);
        }
        pos := pos + 4;
        return Ok(16 * hi.value + lo.value);
      case _ => return Err(InvalidCbor);
    }

    method ReadJsonString() returns (r: Result<bytes, Code>)
      requires Valid()
      modifies this
      ensures Agrees(ReadString(old(Rest())), r)
    {
      hide ReadEscape, ValidUtf8;
      var quote := ConsumeByte(QUOTE);
      if quote.Err? {
        return Err(quote.error);
      }
      ghost var body := Rest();
      var out: bytes := [];
      ContinuesStart(body);
      while true
        invariant Valid() && Continues(body, out, Rest())
        decreases |input| - pos
      {
        if pos == |input| {
          return Err(InvalidCbor);
        }
        ghost var s := Rest();
        var b := input[pos];
        pos := pos + 1;
        assert s[0] == b && s[1..] == Rest();
        if b == QUOTE {
          break;
        } else if b == BACKSLASH {
          var escaped := ReadEscapeSequence();
          if escaped.Err? {
            return Err(escaped.error);
          }
          ContinueOne(body, out, s, escaped.value, Rest());
          out := out + [escaped.value];
        } else if b < 0x20 {
          return Err(InvalidCbor);
        } else {
          ContinueOne(body, out, s, b, Rest());
          out := out + [b];
        }
      }
      assert out + [] == out;
      if !ValidUtf8(out) {
        return Err(InvalidCbor);
      }
      return Ok(out);
    }

    method ReadJsonU64() returns (r: Result<nat, Code>)
      requires Valid()
      modifies this
      ensures Agrees(ReadNumber(old(Rest())), r)
    {
      hide DigitsValue;
      var start := pos;
      ghost var s := Rest();
      while pos < |input| && IsDigit(input[pos])
        invariant start <= pos <= |input| && DigitSpan(s) == pos - start + DigitSpan(Rest())
        decreases |input| - pos
      {
        assert Rest()[1..] == input[pos + 1..];
        pos := pos + 1;
      }
      var text := input[start..pos];
      assert text == s[..DigitSpan(s)];
      if text == [] {
        return Err(InvalidCbor);
      }
      if |text| > 1 && text[0] == 48 {
        return Err(InvalidCbor);
      }
      if DigitsValue(text) >= U64_LIMIT {
        return Err(InvalidCbor);
      }
      assert s[|text|..] == Rest();
      return Ok(DigitsValue(text));
    }

    /** Skips `word` if it comes next. */
    method SkipWord(word: bytes) returns (found: bool)
      requires Valid()
      modifies this
      ensures Valid() && found == StartsWith(old(Rest()), word)
      ensures Rest() == if found then old(Rest())[|word|..] else old(Rest())
    {
      if pos + |word| <= |input| {
        assert input[pos..pos + |word|] == Rest()[..|word|];
        if input[pos..pos + |word|] == word {
          pos := pos + |word|;
          return true;
        }
      }
      return false;
    }

    method ReadHexString() returns (r: Result<bytes, Code>)
      requires Valid()
      modifies this
      ensures Agrees(ReadHex(old(Rest())), r)
    {
      hide ReadString, FromHex;
      var text := ReadJsonString();
      if text.Err? {
        return Err(text.error);
      }
      var octets := DecodeHex(text.value);
      return if octets.None? then Err(InvalidCbor) else Ok(octets.value);
    }

    method ReadResultRow() returns (r: Result<Row, Code>)
      requires Valid()
      modifies this
      ensures Agrees(ReadRow(old(Rest())), r)
    {
      hide TakeByte, ExpectKey, ReadString, ReadHex, ReadNumber;
      var quote := ConsumeByte(123);
      if quote.Err? {
        return Err(quote.error);
      }
      var row := ReadRowMembers();
      if row.Err? {
        return row;
      }
      var closed := ConsumeByte(125);
      if closed.Err? {
        return Err(closed.error);
      }
      return row;
    }

    method ReadRowMembers() returns (r: Result<Row, Code>)
      requires Valid()
      modifies this
      ensures Agrees(ReadRowFields(old(Rest())), r)
    {
      hide TakeByte, ExpectKey, ReadString, ReadHex, ReadNumber, LabelKey, MachineKey, VotesKey;
      var key := ExpectKeyText(LabelKey());
      if key.Err? {
        return Err(key.error);
      }
      var text := ReadJsonString();
      if text.Err? {
        return Err(text.error);
      }
      var comma := ConsumeByte(COMMA);
      if comma.Err? {
        return Err(comma.error);
      }
      key := ExpectKeyText(MachineKey());
      if key.Err? {
        return Err(key.error);
      }
      var machine := ReadHexString();
      if machine.Err? {
        return Err(machine.error);
      }
      comma := ConsumeByte(COMMA);
      if comma.Err? {
        return Err(comma.error);
      }
      key := ExpectKeyText(VotesKey());
      if key.Err? {
        return Err(key.error);
      }
      var votes := ReadJsonU64();
      if votes.Err? {
        return Err(votes.error);
      }
      return Ok(Row(text.value, machine.value, votes.value));
    }

    /** The loop over rows up to the closing bracket. */
    method ReadTally() returns (r: Result<seq<Row>, Code>)
      requires Valid()
      modifies this
      ensures Agrees(ReadRows(old(Rest()), 0), r)
    {
      hide ReadRow;
      ghost var start := Rest();
      var tally: seq<Row> := [];
      RowsStart(start);
      while true
        invariant Valid() && RowsContinue(start, tally, Rest())
        decreases |input| - pos
      {
        if pos == |input| {
          return Err(InvalidCbor);
        }
        ghost var s := Rest();
        if input[pos] == 93 {
          break;
        }
        if tally != [] {
          var comma := ConsumeByte(COMMA);
          if comma.Err? {
            return Err(comma.error);
          }
        }
        var row := ReadResultRow();
        if row.Err? {
          return Err(row.error);
        }
        if |tally| + 1 > MAX_TALLY_ENTRIES {
          return Err(InvalidCbor);
        }
        RowsContinueOne(start, tally, s, row.value, Rest());
        tally := tally + [row.value];
      }
      assert Rest()[1..] == input[pos + 1..];
      assert tally + [] == tally;
      pos := pos + 1;
      return Ok(tally);
    }

    /** The value of one field, by the kind of field the table announces. */
    method ReadFieldValue(kind: Kind) returns (r: Result<Value, Code>)
      requires Valid()
      modifies this
      ensures Agrees(ReadValue(kind, old(Rest())), r)
    {
      hide ReadString, ReadNumber, ReadRows, TypeId, TakeByte, ReadHex;
      match kind
      case SchemaId =>
        var text := ReadJsonString();
        return if text.Err? then Err(text.error)
               else if text.value == TypeId() then Ok(TextValue(text.value))
               else Err(UnsupportedProtocolVersion);
      case Version =>
        var n := ReadJsonU64();
        return if n.Err? then Err(n.error)
               else if n.value == 2 then Ok(CountValue(2))
               else Err(UnsupportedProtocolVersion);
      case Network =>
        var text := ReadJsonString();
        return if text.Err? then Err(text.error)
               else if NetworkRefusal(text.value).Some? then Err(NetworkRefusal(text.value).value)
               else Ok(TextValue(text.value));
      case FreeText =>
        var text := ReadJsonString();
        return if text.Err? then Err(text.error) else Ok(TextValue(text.value));
      case Count =>
        var n := ReadJsonU64();
        return if n.Err? then Err(n.error) else Ok(CountValue(n.value));
      case Results =>
        var bracket := ConsumeByte(91);
        if bracket.Err? {
          return Err(bracket.error);
        }
        var rows := ReadTally();
        return if rows.Err? then Err(rows.error) else Ok(RowsValue(rows.value));
      case Digest =>
        var octets := ReadHexString();
        return if octets.Err? then Err(octets.error)
               else if |octets.value| == 32 then Ok(OctetsValue(octets.value))
               else Err(InvalidCbor);
      case Flag =>
        var yes := SkipWord(Print(Bool(true)));
        if yes {
          return Ok(FlagValue(true));
        }
        var no := SkipWord(Print(Bool(false)));
        return if no then Ok(FlagValue(false)) else Err(InvalidCbor);
      case MaybeCount =>
        var absent := SkipWord(Print(Null));
        if absent {
          return Ok(OptionalCount(None));
        }
        var n := ReadJsonU64();
        return if n.Err? then Err(n.error) else Ok(OptionalCount(Some(n.value)));
    }

    method ExpectField(field: Field) returns (r: Result<Value, Code>)
      requires Valid()
      modifies this
      ensures Agrees(ReadField(field, old(Rest())), r)
    {
      hide ReadValue, ExpectKey;
      var key := ExpectKeyText(field.key);
      if key.Err? {
        return Err(key.error);
      }
      r := ReadFieldValue(field.kind);
    }

    /** The fields of the table, one after another. */
    method ExpectFields(fields: seq<Field>) returns (r: Result<seq<Value>, Code>)
      requires Valid()
      modifies this
      ensures Agrees(ReadFields(fields, old(Rest()), true), r)
    {
      hide ReadField;
      ghost var start := Rest();
      var values: seq<Value> := [];
      FieldsStart(fields, start);
      for i := 0 to |fields|
        invariant Valid() && |values| == i && FieldsContinue(fields, start, values, Rest())
      {
        ghost var s := Rest();
        if i > 0 {
          var comma := ConsumeByte(COMMA);
          if comma.Err? {
            return Err(comma.error);
          }
        }
        var value := ExpectField(fields[i]);
        if value.Err? {
          return Err(value.error);
        }
        FieldsContinueOne(fields, start, values, s, value.value, Rest());
        values := values + [value.value];
      }
      assert fields[|fields|..] == [];
      assert values + [] == values;
      return Ok(values);
    }
  }

  /** A string body read so far as `out`, with `rest` to come. */
  ghost predicate Continues(body: bytes, out: bytes, rest: bytes) {
    match ReadBody(rest)
    case Ok(pair) => ReadBody(body) == Ok((out + pair.0, pair.1))
    case Err(e) => ReadBody(body) == Err(e)
  }

  lemma ContinuesStart(body: bytes)
    ensures Continues(body, [], body)
  {
    hide ReadBody;
    if ReadBody(body).Ok? {
      assert [] + ReadBody(body).value.0 == ReadBody(body).value.0;
    }
  }

  lemma ContinueOne(body: bytes, out: bytes, s: bytes, b: byte, rest: bytes)
    requires Continues(body, out, s) && (s == [] || s[0] != QUOTE) && ReadCharacter(s) == Ok((b, rest))
    ensures Continues(body, out + [b], rest)
  {
    hide ReadCharacter;
    if ReadBody(rest).Ok? {
      Associative(out, [b], ReadBody(rest).value.0);
    }
  }

  /** The rows read so far, with `rest` to come. */
  ghost predicate RowsContinue(start: bytes, tally: seq<Row>, rest: bytes) {
    match ReadRows(rest, |tally|)
    case Ok(pair) => ReadRows(start, 0) == Ok((tally + pair.0, pair.1))
    case Err(e) => ReadRows(start, 0) == Err(e)
  }

  lemma RowsStart(start: bytes)
    ensures RowsContinue(start, [], start)
  {
    hide ReadRows;
    if ReadRows(start, 0).Ok? {
      assert [] + ReadRows(start, 0).value.0 == ReadRows(start, 0).value.0;
    }
  }

  lemma RowsContinueOne(start: bytes, tally: seq<Row>, s: bytes, row: Row, rest: bytes)
    requires RowsContinue(start, tally, s) && s != [] && s[0] != 93
    requires tally != [] ==> TakeByte(COMMA, s).Ok?
    requires ReadRow(if tally == [] then s else TakeByte(COMMA, s).value) == Ok((row, rest))
    requires |tally| + 1 <= MAX_TALLY_ENTRIES
    ensures RowsContinue(start, tally + [row], rest)
  {
    hide ReadRow;
    if ReadRows(rest, |tally| + 1).Ok? {
      var more := ReadRows(rest, |tally| + 1).value.0;
      assert tally + ([row] + more) == tally + [row] + more;
    }
  }

  /** The fields read so far, with `rest` to come. */
  ghost predicate FieldsContinue(fields: seq<Field>, start: bytes, values: seq<Value>, rest: bytes) {
    |values| <= |fields| &&
    match ReadFields(fields[|values|..], rest, values == [])
    case Ok(pair) => ReadFields(fields, start, true) == Ok((values + pair.0, pair.1))
    case Err(e) => ReadFields(fields, start, true) == Err(e)
  }

  lemma FieldsStart(fields: seq<Field>, start: bytes)
    ensures FieldsContinue(fields, start, [], start)
  {
    hide ReadFields;
    assert fields[0..] == fields;
    if ReadFields(fields, start, true).Ok? {
      assert [] + ReadFields(fields, start, true).value.0 == ReadFields(fields, start, true).value.0;
    }
  }

  lemma FieldsContinueOne(fields: seq<Field>, start: bytes, values: seq<Value>, s: bytes, value: Value, rest: bytes)
    requires FieldsContinue(fields, start, values, s) && |values| < |fields|
    requires values != [] ==> TakeByte(COMMA, s).Ok?
    requires ReadField(fields[|values|], if values == [] then s else TakeByte(COMMA, s).value) == Ok((value, rest))
    ensures FieldsContinue(fields, start, values + [value], rest)
  {
    hide ReadField;
    var left := fields[|values|..];
    assert left[0] == fields[|values|] && left[1..] == fields[|values| + 1..];
    if ReadFields(left[1..], rest, false).Ok? {
      var more := ReadFields(left[1..], rest, false).value.0;
      assert values + ([value] + more) == values + [value] + more;
    }
  }

  /** `parse_canonical_json_bytes`. */
  method ParseCanonicalJsonBytes(encoded: bytes) returns (r: Result<Payload, Code>)
    ensures r == Parse(encoded)
  {
    hide ReadFields, Table, FromValues, TakeByte;
    var parser := new CanonicalJsonParser(encoded);
    var brace := parser.ConsumeByte(123);
    if brace.Err? {
      return Err(brace.error);
    }
    ghost var inside := parser.Rest();
    var values := parser.ExpectFields(Table());
    if values.Err? {
      return Err(values.error);
    }
    ReadFieldsLength(Table(), inside, true);
    brace := parser.ConsumeByte(125);
    if brace.Err? {
      return Err(brace.error);
    }
    if parser.pos != |parser.input| {
      return Err(InvalidCbor);
    }
    return Ok(FromValues(values.value));
  }

  /** `from_canonical_json_bytes`. */
  method FromCanonicalJsonBytes(encoded: bytes) returns (r: Result<Payload, Code>)
    ensures r == Decode(encoded)
  {
    hide Parse, Validates, Encode;
    if |encoded| > MAX_PAYLOAD_BYTES {
      return Err(ProtocolLimitExceeded);
    }
    var payload := ParseCanonicalJsonBytes(encoded);
    if payload.Err? {
      return payload;
    }
    if !Validates(payload.value) {
      return Err(InvalidData);
    }
    var again := ToCanonicalJsonBytes(payload.value);
    if again.Err? {
      return Err(again.error);
    }
    if again.value != encoded {
      return Err(InvalidCbor);
    }
    return payload;
  }
}
