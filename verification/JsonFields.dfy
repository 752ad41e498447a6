/** Typed fields of the public payload: how each kind is read, and that reading inverts printing. */
module JsonFields {
  import opened Bytes
  import opened Utf8
  import opened Hex
  import opened Decimals
  import opened AnchorIds
  import opened JsonText
  import opened JsonWriter

  /** One entry of the results list. */
  datatype Row = Row(displayLabel: bytes, machineId: bytes, votes: nat)

  datatype Value =
    | TextValue(text: bytes)
    | CountValue(n: nat)
    | OptionalCount(value: Option<nat>)
    | FlagValue(v: bool)
    | OctetsValue(octets: bytes)
    | RowsValue(rows: seq<Row>)

  datatype Kind = SchemaId | Version | Network | FreeText | Count | Results | Digest | Flag | MaybeCount

  datatype Field = Field(key: bytes, kind: Kind)

  const MAX_TALLY_ENTRIES := 65_536

  function TypeId(): bytes {
    Ascii("TARI_CC_PRIVATE_BALLOT_OOTLE_ANCHOR_PUBLIC_V2")
  }

  function LabelKey(): bytes {
    Ascii("label")
  }

  function MachineKey(): bytes {
    Ascii("machine_id")
  }

  function VotesKey(): bytes {
    Ascii("votes")
  }

  // ---------------------------------------------------------------------
  // Trees
  // ---------------------------------------------------------------------

  function RowTree(r: Row): Json {
    Obj([Member(LabelKey(), Str(r.displayLabel)), Member(MachineKey(), HexStr(r.machineId)), Member(VotesKey(), Num(r.votes))])
  }

  function RowTrees(rows: seq<Row>): seq<Json> {
    if rows == [] then [] else [RowTree(rows[0])] + RowTrees(rows[1..])
  }

  function Tree(v: Value): Json {
    match v
    case TextValue(t) => Str(t)
    case CountValue(n) => Num(n)
    case OptionalCount(n) => OptNum(n)
    case FlagValue(b) => Bool(b)
    case OctetsValue(b) => HexStr(b)
    case RowsValue(rows) => Arr(RowTrees(rows))
  }

  predicate ValidRow(r: Row) {
    ValidUtf8(r.displayLabel) && r.votes < U64_LIMIT
  }

  predicate WellTyped(kind: Kind, v: Value) {
    match kind
    case SchemaId => v == TextValue(TypeId())
    case Version => v == CountValue(2)
    case Network => v.TextValue? && ValidNetwork(v.text)
    case FreeText => v.TextValue? && ValidUtf8(v.text)
    case Count => v.CountValue? && v.n < U64_LIMIT
    case Results => v.RowsValue? && |v.rows| <= MAX_TALLY_ENTRIES && forall i :: 0 <= i < |v.rows| ==> ValidRow(v.rows[i])
    case Digest => v.OctetsValue? && |v.octets| == 32
    case Flag => v.FlagValue?
    case MaybeCount => v.OptionalCount? && (v.value.Some? ==> v.value.value < U64_LIMIT)
  }

  // ---------------------------------------------------------------------
  // Readers
  // ---------------------------------------------------------------------

  function ReadHex(s: bytes): (r: Parsed<bytes>)
    ensures r.Ok? ==> |r.value.1| < |s|
  {
    var (t, rest) :- ReadString(s);
    if FromHex(t).None? then Err(InvalidCbor) else Ok((FromHex(t).value, rest))
  }

  function ReadBool(s: bytes): Parsed<bool> {
    if StartsWith(s, Print(Bool(true))) then Ok((true, s[4..]))
    else if StartsWith(s, Print(Bool(false))) then Ok((false, s[5..]))
    else Err(InvalidCbor)
  }

  function ReadOptional(s: bytes): Parsed<Option<nat>> {
    if StartsWith(s, Print(Null)) then Ok((None, s[4..]))
    else
      var (n, rest) :- ReadNumber(s);
      Ok((Some(n), rest))
  }

  /** `OotleNetworkIdV1::new`: what is wrong with a network identifier. */
  function NetworkRefusal(t: bytes): Option<Code> {
    if t == [] then Some(InvalidData)
    else if |t| > 32 then Some(ProtocolLimitExceeded)
    else if ValidNetwork(t) then None
    else Some(InvalidData)
  }

  function ReadKeyed(key: bytes, s: bytes): (r: Parsed<bytes>)
    ensures r.Ok? ==> |r.value.1| < |s|
  {
    var after :- ExpectKey(key, s);
    ReadString(after)
  }

  /** The members of one row, without its brackets. */
  function ReadRowFields(s: bytes): (r: Parsed<Row>)
    ensures r.Ok? ==> |r.value.1| < |s|
  {
    var (text, s1) :- ReadKeyed(LabelKey(), s);
    var s2 :- TakeByte(COMMA, s1);
    var after :- ExpectKey(MachineKey(), s2);
    var (machine, s3) :- ReadHex(after);
    var s4 :- TakeByte(COMMA, s3);
    var s5 :- ExpectKey(VotesKey(), s4);
    var (votes, s6) :- ReadNumber(s5);
    Ok((Row(text, machine, votes), s6))
  }

  function ReadRow(s: bytes): (r: Parsed<Row>)
    ensures r.Ok? ==> |r.value.1| < |s|
  {
    var s1 :- TakeByte(123, s);
    var (row, s2) :- ReadRowFields(s1);
    var rest :- TakeByte(125, s2);
    Ok((row, rest))
  }

  /** The rows up to the closing bracket; `count` rows have been read already. */
  function ReadRows(s: bytes, count: nat): Parsed<seq<Row>>
    decreases |s|
  {
    if s == [] then Err(InvalidCbor)
    else if s[0] == 93 then Ok(([], s[1..]))
    else
      var start :- if count == 0 then Ok(s) else TakeByte(COMMA, s);
      var (row, next) :- ReadRow(start);
      if count + 1 > MAX_TALLY_ENTRIES then Err(InvalidCbor)
      else
        var (more, end) :- ReadRows(next, count + 1);
        Ok(([row] + more, end))
  }

  function ReadValue(kind: Kind, s: bytes): Parsed<Value> {
    match kind
    case SchemaId =>
      var (t, rest) :- ReadString(s);
      if t == TypeId() then Ok((TextValue(t), rest)) else Err(UnsupportedProtocolVersion)
    case Version =>
      var (n, rest) :- ReadNumber(s);
      if n == 2 then Ok((CountValue(n), rest)) else Err(UnsupportedProtocolVersion)
    case Network =>
      var (t, rest) :- ReadString(s);
      if NetworkRefusal(t).Some? then Err(NetworkRefusal(t).value) else Ok((TextValue(t), rest))
    case FreeText =>
      var (t, rest) :- ReadString(s);
      Ok((TextValue(t), rest))
    case Count =>
      var (n, rest) :- ReadNumber(s);
      Ok((CountValue(n), rest))
    case Results =>
      var inside :- TakeByte(91, s);
      var (rows, rest) :- ReadRows(inside, 0);
      Ok((RowsValue(rows), rest))
    case Digest =>
      var (b, rest) :- ReadHex(s);
      if |b| == 32 then Ok((OctetsValue(b), rest)) else Err(InvalidCbor)
    case Flag =>
      var (v, rest) :- ReadBool(s);
      Ok((FlagValue(v), rest))
    case MaybeCount =>
      var (n, rest) :- ReadOptional(s);
      Ok((OptionalCount(n), rest))
  }

  function ReadField(field: Field, s: bytes): Parsed<Value> {
    var after :- ExpectKey(field.key, s);
    ReadValue(field.kind, after)
  }

  function ReadFields(fields: seq<Field>, s: bytes, first: bool): Parsed<seq<Value>> {
    if fields == [] then Ok(([], s))
    else
      var start :- if first then Ok(s) else TakeByte(COMMA, s);
      var (v, next) :- ReadField(fields[0], start);
      var (more, end) :- ReadFields(fields[1..], next, false);
      Ok(([v] + more, end))
  }

  predicate AllTyped(fields: seq<Field>, values: seq<Value>) {
    |values| == |fields| && forall i :: 0 <= i < |fields| ==> WellTyped(fields[i].kind, values[i])
  }

  function Members(fields: seq<Field>, values: seq<Value>): seq<Member>
    requires |values| == |fields|
  {
    if fields == [] then [] else [Member(fields[0].key, Tree(values[0]))] + Members(fields[1..], values[1..])
  }

  // ---------------------------------------------------------------------
  // Reading what was printed
  // ---------------------------------------------------------------------

  /** What may follow a value. */
  predicate Delimited(rest: bytes) {
    rest != [] && (rest[0] == COMMA || rest[0] == 93 || rest[0] == 125)
  }

  lemma KeyReads(key: bytes, rest: bytes)
    requires Plain(key)
    ensures ExpectKey(key, Quoted(key) + [58] + rest) == Ok(rest)
  {
    hide ExpectKey;
    PlainEscape(key);
    KeyIff(key, Quoted(key) + [58] + rest, rest);
    assert Quoted(key) + [58] == [QUOTE] + key + [QUOTE, 58];
  }

  lemma HexReads(b: bytes, rest: bytes)
    ensures ReadHex(Print(HexStr(b)) + rest) == Ok((b, rest))
  {
    hide ReadString, Quoted;
    var t := ToHex(b);
    HexTextPlain(b);
    AsciiIsUtf8(t);
    ReadQuoted(t, rest);
    ToFromHex(b);
  }

  /** Hex digits need no escape. */
  lemma HexTextPlain(b: bytes)
    ensures IsAscii(ToHex(b)) && Print(HexStr(b)) == Quoted(ToHex(b))
  {
    HexIsAscii(b);
    HexPlain(b);
    hide ToHex, Escape;
    PlainEscape(ToHex(b));
  }

  lemma {:induction false} HexPlain(b: bytes)
    ensures Plain(ToHex(b))
  {
    if b != [] {
      HexPlain(b[1..]);
    }
  }

  lemma BoolReads(v: bool, rest: bytes)
    ensures ReadBool(Print(Bool(v)) + rest) == Ok((v, rest))
  {
    var t := Print(Bool(v));
    assert (t + rest)[..|t|] == t && (t + rest)[|t|..] == rest;
    if !v {
      assert (t + rest)[0] != Print(Bool(true))[0];
    }
  }

  lemma OptionalReads(n: Option<nat>, rest: bytes)
    requires (n.Some? ==> n.value < U64_LIMIT) && Delimited(rest)
    ensures ReadOptional(Print(OptNum(n)) + rest) == Ok((n, rest))
  {
    hide ReadNumber, Decimal;
    var t := Print(OptNum(n));
    match n
    case None => assert (t + rest)[..4] == t && (t + rest)[4..] == rest;
    case Some(k) =>
      ReadDecimal(k, rest);
      assert (t + rest)[0] == Decimal(k)[0] && IsDigit(Decimal(k)[0]);
      assert Print(Null)[0] == 110;
  }

  lemma MemberReads(key: bytes, j: Json, rest: bytes)
    requires Plain(key)
    ensures ExpectKey(key, PrintMember(Member(key, j)) + rest) == Ok(Print(j) + rest)
  {
    hide ExpectKey, Quoted, Print;
    KeyReads(key, Print(j) + rest);
    Associative(Quoted(key) + [58], Print(j), rest);
  }

  lemma RowKeysPlain()
    ensures Plain(LabelKey()) && Plain(MachineKey()) && Plain(VotesKey())
  {
  }

  lemma CommaReads(rest: bytes)
    ensures TakeByte(COMMA, [COMMA] + rest) == Ok(rest)
  {
  }

  /** The members of a row, each followed by the rest of the text. */
  function RowText(r: Row, rest: bytes): bytes {
    var votes := PrintMember(Member(VotesKey(), Num(r.votes))) + rest;
    var machine := PrintMember(Member(MachineKey(), HexStr(r.machineId))) + ([COMMA] + votes);
    PrintMember(Member(LabelKey(), Str(r.displayLabel))) + ([COMMA] + machine)
  }

  lemma RowFieldsRead(r: Row, rest: bytes)
    requires ValidRow(r) && Delimited(rest)
    ensures ReadRowFields(RowText(r, rest)) == Ok((r, rest))
  {
    RowKeysPlain();
    hide PrintMember, Print, ExpectKey, ReadString, ReadHex, ReadNumber, TakeByte, Plain, Quoted, ValidUtf8;
    hide LabelKey, MachineKey, VotesKey;
    var votes := PrintMember(Member(VotesKey(), Num(r.votes))) + rest;
    var machine := PrintMember(Member(MachineKey(), HexStr(r.machineId))) + ([COMMA] + votes);
    MemberReads(LabelKey(), Str(r.displayLabel), [COMMA] + machine);
    PrintedString(r.displayLabel);
    ReadQuoted(r.displayLabel, [COMMA] + machine);
    CommaReads(machine);
    MemberReads(MachineKey(), HexStr(r.machineId), [COMMA] + votes);
    HexReads(r.machineId, [COMMA] + votes);
    CommaReads(votes);
    MemberReads(VotesKey(), Num(r.votes), rest);
    PrintedNumber(r.votes);
    ReadDecimal(r.votes, rest);
  }

  lemma PrintedString(t: bytes)
    ensures Print(Str(t)) == Quoted(t)
  {
  }

  lemma PrintedNumber(n: nat)
    ensures Print(Num(n)) == Decimal(n)
  {
  }

  lemma RowTextIs(r: Row, rest: bytes)
    ensures Print(RowTree(r)) + rest == [123] + RowText(r, [125] + rest)
  {
    hide PrintMember, LabelKey, MachineKey, VotesKey;
    var m0, m1, m2 := Member(LabelKey(), Str(r.displayLabel)), Member(MachineKey(), HexStr(r.machineId)),
                      Member(VotesKey(), Num(r.votes));
    var a, b, c := PrintMember(m0), PrintMember(m1), PrintMember(m2);
    ThreeMembers(m0, m1, m2);
    assert Print(RowTree(r)) == [123] + (a + ([COMMA] + b + ([COMMA] + c))) + [125];
    hide Print;
    assert [123] + (a + ([COMMA] + b + ([COMMA] + c))) + [125] + rest ==
           [123] + (a + ([COMMA] + (b + ([COMMA] + (c + ([125] + rest))))));
  }

  lemma ThreeMembers(m0: Member, m1: Member, m2: Member)
    ensures PrintMembers([m0, m1, m2], true) ==
            PrintMember(m0) + ([COMMA] + PrintMember(m1) + ([COMMA] + PrintMember(m2)))
  {
    hide PrintMember;
    var all := [m0, m1, m2];
    assert all[1..] == [m1, m2] && all[1..][1..] == [m2] && all[1..][1..][1..] == [];
    assert PrintMembers([m2], false) == [COMMA] + PrintMember(m2) + [] == [COMMA] + PrintMember(m2);
    assert PrintMembers([m1, m2], false) == [COMMA] + PrintMember(m1) + PrintMembers([m2], false);
    assert [] + PrintMember(m0) == PrintMember(m0);
  }

  lemma RowReads(r: Row, rest: bytes)
    requires ValidRow(r)
    ensures ReadRow(Print(RowTree(r)) + rest) == Ok((r, rest))
    ensures (Print(RowTree(r)) + rest)[0] == 123
  {
    hide ReadRowFields, RowText, RowTree, Print;
    RowTextIs(r, rest);
    RowFieldsRead(r, [125] + rest);
  }

  lemma {:induction false} RowsRead(rows: seq<Row>, count: nat, rest: bytes)
    requires forall i :: 0 <= i < |rows| ==> ValidRow(rows[i])
    requires count + |rows| <= MAX_TALLY_ENTRIES
    ensures ReadRows(PrintItems(RowTrees(rows), count == 0) + ([93] + rest), count) == Ok((rows, rest))
    decreases |rows|
  {
    hide ReadRow, RowTree, Print, ValidRow;
    var s := PrintItems(RowTrees(rows), count == 0) + ([93] + rest);
    if rows == [] {
      assert s == [93] + rest;
    } else {
      var first, others := Print(RowTree(rows[0])), PrintItems(RowTrees(rows[1..]), false) + ([93] + rest);
      assert RowTrees(rows)[1..] == RowTrees(rows[1..]);
      var start := first + others;
      Associative(Separator(count == 0) + first, PrintItems(RowTrees(rows[1..]), false), [93] + rest);
      Associative(Separator(count == 0), first, others);
      assert s == Separator(count == 0) + start;
      RowReads(rows[0], others);
      assert count == 0 ==> s == start;
      assert count > 0 ==> s[1..] == start;
      RowsRead(rows[1..], count + 1, rest);
      assert rows == [rows[0]] + rows[1..];
    }
  }

  lemma ResultsRead(rows: seq<Row>, rest: bytes)
    requires WellTyped(Results, RowsValue(rows))
    ensures ReadValue(Results, Print(Tree(RowsValue(rows))) + rest) == Ok((RowsValue(rows), rest))
  {
    hide PrintItems, RowTrees, ReadRows, ReadString, ReadNumber, ReadHex, ReadBool, ReadOptional;
    var s := Print(Tree(RowsValue(rows))) + rest;
    var inside := PrintItems(RowTrees(rows), true) + ([93] + rest);
    assert s == [91] + inside;
    RowsRead(rows, 0, rest);
  }

  lemma ScalarReads(kind: Kind, v: Value, rest: bytes)
    requires WellTyped(kind, v) && Delimited(rest) && !kind.Results?
    ensures ReadValue(kind, Print(Tree(v)) + rest) == Ok((v, rest))
  {
    if v.TextValue? {
      TextIsUtf8(kind, v);
      ReadQuoted(v.text, rest);
      PrintedString(v.text);
    }
    hide ReadString, ReadNumber, ReadHex, ReadBool, ReadOptional, Quoted, Print, TypeId, OptNum;
    match v
    case TextValue(t) =>
    case CountValue(n) =>
      ReadDecimal(n, rest);
      PrintedNumber(n);
    case OptionalCount(n) => OptionalReads(n, rest);
    case FlagValue(b) => BoolReads(b, rest);
    case OctetsValue(b) => HexReads(b, rest);
  }

  lemma TextIsUtf8(kind: Kind, v: Value)
    requires WellTyped(kind, v) && v.TextValue?
    ensures ValidUtf8(v.text)
  {
    if !kind.FreeText? {
      AsciiIsUtf8(v.text);
    }
  }

  lemma ValueReads(kind: Kind, v: Value, rest: bytes)
    requires WellTyped(kind, v) && Delimited(rest)
    ensures ReadValue(kind, Print(Tree(v)) + rest) == Ok((v, rest))
  {
    hide ReadValue, Print, Tree;
    if kind.Results? {
      ResultsRead(v.rows, rest);
    } else {
      ScalarReads(kind, v, rest);
    }
  }

  predicate PlainKeys(fields: seq<Field>) {
    forall i :: 0 <= i < |fields| ==> Plain(fields[i].key)
  }

  /** Printed fields read back as the values that were printed. */
  lemma {:induction false} FieldsRead(fields: seq<Field>, values: seq<Value>, first: bool, rest: bytes)
    requires PlainKeys(fields) && AllTyped(fields, values) && Delimited(rest)
    ensures ReadFields(fields, PrintMembers(Members(fields, values), first) + rest, first) == Ok((values, rest))
    decreases |fields|
  {
    hide WellTyped, Plain, Print, Tree, ReadValue, ExpectKey, PrintMember;
    var s := PrintMembers(Members(fields, values), first) + rest;
    if fields == [] {
      assert s == rest;
    } else {
      var m, tail := Member(fields[0].key, Tree(values[0])), Members(fields[1..], values[1..]);
      assert Members(fields, values)[1..] == tail;
      var next := PrintMembers(tail, false) + rest;
      var start := PrintMember(m) + next;
      Associative(Separator(first) + PrintMember(m), PrintMembers(tail, false), rest);
      Associative(Separator(first), PrintMember(m), next);
      assert s == Separator(first) + start;
      assert first ==> s == start;
      assert !first ==> s[1..] == start;
      assert Delimited(next);
      MemberReads(m.key, m.value, next);
      ValueReads(fields[0].kind, values[0], next);
      FieldsRead(fields[1..], values[1..], false, rest);
      assert values == [values[0]] + values[1..];
    }
  }

  /** The first field that does not read decides the error. */
  lemma {:induction false} FieldsFail(fields: seq<Field>, values: seq<Value>, first: bool, bad: bytes, code: Code)
    requires PlainKeys(fields) && |values| < |fields| && AllTyped(fields[..|values|], values)
    requires ReadValue(fields[|values|].kind, bad) == Err(code)
    ensures var k := |values|;
            var text := PrintMembers(Members(fields[..k], values), first)
                        + (Separator(first && k == 0) + (Quoted(fields[k].key) + [58] + bad));
            ReadFields(fields, text, first) == Err(code)
    decreases |values|
  {
    hide WellTyped, Plain, Print, Tree, ReadValue, ExpectKey, PrintMember;
    var k := |values|;
    var failing := Quoted(fields[k].key) + [58] + bad;
    var tail := Separator(first && k == 0) + failing;
    var text := PrintMembers(Members(fields[..k], values), first) + tail;
    if k == 0 {
      assert text == Separator(first) + failing;
      KeyReads(fields[0].key, bad);
      assert first ==> text == failing;
      assert !first ==> text[1..] == failing;
    } else {
      var m, others := Member(fields[0].key, Tree(values[0])), Members(fields[1..][..k - 1], values[1..]);
      assert fields[..k][1..] == fields[1..][..k - 1];
      assert Members(fields[..k], values)[1..] == others;
      var next := PrintMembers(others, false) + tail;
      var start := PrintMember(m) + next;
      Associative(Separator(first) + PrintMember(m), PrintMembers(others, false), tail);
      Associative(Separator(first), PrintMember(m), next);
      assert text == Separator(first) + start;
      assert first ==> text == start;
      assert !first ==> text[1..] == start;
      assert Delimited(next);
      MemberReads(m.key, m.value, next);
      ValueReads(fields[0].kind, values[0], next);
      FieldsFail(fields[1..], values[1..], false, bad, code);
    }
  }

  /** Which refusals are not plain syntax: another schema, another version, a bad network name. */
  lemma ValueRefusals(t: bytes, n: nat, rest: bytes)
    requires ValidUtf8(t) && n < U64_LIMIT && Delimited(rest)
    ensures t != Ascii("TARI_CC_PRIVATE_BALLOT_OOTLE_ANCHOR_PUBLIC_V2") ==>
              ReadValue(SchemaId, Quoted(t) + rest) == Err(UnsupportedProtocolVersion)
    ensures n != 2 ==> ReadValue(Version, Decimal(n) + rest) == Err(UnsupportedProtocolVersion)
    ensures |t| > 32 ==> ReadValue(Network, Quoted(t) + rest) == Err(ProtocolLimitExceeded)
    ensures |t| <= 32 && !ValidNetwork(t) ==> ReadValue(Network, Quoted(t) + rest) == Err(InvalidData)
  {
    hide ReadString, ReadNumber, Quoted, Decimal, ValidUtf8, Ascii;
    ReadQuoted(t, rest);
    ReadDecimal(n, rest);
  }
}
