/** Whatever the strict reader accepts is canonical text, up to long spellings of short escapes. */
module JsonSound {
  import opened Bytes
  import opened Utf8
  import opened Hex
  import opened Decimals
  import opened JsonText
  import opened JsonWriter
  import opened JsonFields

  /** What precedes `rest` in `s` is `canonical` unless it contains a long spelling. */
  ghost predicate Spelled(s: bytes, canonical: bytes, rest: bytes) {
    exists raw :: s == raw + rest && CanonicalUnlessLong(raw, canonical, rest)
  }

  lemma SpelledThen(s: bytes, c1: bytes, middle: bytes, c2: bytes, rest: bytes)
    requires Spelled(s, c1, middle) && Spelled(middle, c2, rest)
    ensures Spelled(s, c1 + c2, rest)
  {
    hide SpellsShortFormLong;
    var raw1 :| s == raw1 + middle && CanonicalUnlessLong(raw1, c1, middle);
    var raw2 :| middle == raw2 + rest && CanonicalUnlessLong(raw2, c2, rest);
    Associative(raw1, raw2, rest);
    SplitEqual(raw1, raw2, c1, c2);
    assert CanonicalUnlessLong(raw1 + raw2, c1 + c2, rest);
  }

  lemma SplitEqual(a: bytes, b: bytes, c: bytes, d: bytes)
    requires |c| <= |a| && |d| <= |b|
    ensures a + b == c + d <==> a == c && b == d
  {
    if a + b == c + d {
      assert |a| == |c|;
      assert a == (a + b)[..|a|] && b == (a + b)[|a|..];
      assert c == (c + d)[..|c|] && d == (c + d)[|c|..];
    }
  }

  lemma SpelledExactly(c: bytes, rest: bytes)
    requires BACKSLASH !in c
    ensures Spelled(c + rest, c, rest)
  {
    ScanPlain(c, rest);
    hide SpellsShortFormLong;
    assert CanonicalUnlessLong(c, c, rest);
  }

  lemma SpelledNothing(s: bytes)
    ensures Spelled(s, [], s)
  {
    SpelledExactly([], s);
    assert [] + s == s;
  }

  lemma ByteSpelled(b: byte, s: bytes)
    requires b != BACKSLASH && TakeByte(b, s).Ok?
    ensures Spelled(s, [b], TakeByte(b, s).value)
  {
    hide Spelled;
    SpelledExactly([b], s[1..]);
    assert s == [b] + s[1..];
  }

  lemma KeySpelled(key: bytes, s: bytes)
    requires Plain(key) && ExpectKey(key, s).Ok?
    ensures Spelled(s, Quoted(key) + [58], ExpectKey(key, s).value)
  {
    hide ExpectKey, Spelled;
    var rest := ExpectKey(key, s).value;
    KeyIff(key, s, rest);
    PlainEscape(key);
    assert Quoted(key) + [58] == [QUOTE] + key + [QUOTE, 58];
    SpelledExactly(Quoted(key) + [58], rest);
  }

  lemma StringSpelled(s: bytes)
    requires ReadString(s).Ok?
    ensures var (t, rest) := ReadString(s).value; ValidUtf8(t) && Spelled(s, Print(Str(t)), rest)
  {
    hide ReadString, Quoted, SpellsShortFormLong, ValidUtf8;
    StringSpelling(s, ReadString(s).value.0, ReadString(s).value.1);
  }

  lemma NumberSpelled(s: bytes)
    requires ReadNumber(s).Ok?
    ensures var (n, rest) := ReadNumber(s).value; n < U64_LIMIT && Spelled(s, Print(Num(n)), rest)
  {
    hide ReadNumber, Decimal, Spelled;
    var (n, rest) := ReadNumber(s).value;
    NumberSpelling(s, n, rest);
    SpelledExactly(Decimal(n), rest);
  }

  lemma HexSpelled(s: bytes)
    requires ReadHex(s).Ok?
    ensures var (b, rest) := ReadHex(s).value; Spelled(s, Print(HexStr(b)), rest)
  {
    StringSpelled(s);
    hide ReadString, Spelled, Quoted;
    var (t, rest) := ReadString(s).value;
    FromToHex(t);
    HexTextPlain(FromHex(t).value);
  }

  lemma BoolSpelled(s: bytes)
    requires ReadBool(s).Ok?
    ensures var (v, rest) := ReadBool(s).value; Spelled(s, Print(Bool(v)), rest)
  {
    hide Spelled;
    var (v, rest) := ReadBool(s).value;
    assert s == Print(Bool(v)) + rest;
    SpelledExactly(Print(Bool(v)), rest);
  }

  lemma OptionalSpelled(s: bytes)
    requires ReadOptional(s).Ok?
    ensures var (n, rest) := ReadOptional(s).value;
            (n.Some? ==> n.value < U64_LIMIT) && Spelled(s, Print(OptNum(n)), rest)
  {
    hide Spelled, ReadNumber;
    if StartsWith(s, Print(Null)) {
      assert s == Print(Null) + s[4..];
      SpelledExactly(Print(Null), s[4..]);
    } else {
      NumberSpelled(s);
    }
  }

  lemma MemberSpelled(s: bytes, key: bytes, j: Json, rest: bytes)
    requires Plain(key) && ExpectKey(key, s).Ok? && Spelled(ExpectKey(key, s).value, Print(j), rest)
    ensures Spelled(s, PrintMember(Member(key, j)), rest)
  {
    hide ExpectKey, Spelled, Print, Quoted;
    KeySpelled(key, s);
    SpelledThen(s, Quoted(key) + [58], ExpectKey(key, s).value, Print(j), rest);
  }

  lemma CommaSpelled(s: bytes, c: bytes, middle: bytes, c2: bytes, rest: bytes)
    requires Spelled(s, c, middle) && TakeByte(COMMA, middle).Ok? && Spelled(TakeByte(COMMA, middle).value, c2, rest)
    ensures Spelled(s, c + ([COMMA] + c2), rest)
  {
    hide Spelled, TakeByte;
    ByteSpelled(COMMA, middle);
    SpelledThen(middle, [COMMA], TakeByte(COMMA, middle).value, c2, rest);
    SpelledThen(s, c, middle, [COMMA] + c2, rest);
  }

  lemma RowFieldsSpelled(s: bytes)
    requires ReadRowFields(s).Ok?
    ensures var (r, rest) := ReadRowFields(s).value;
            && ValidRow(r)
            && Spelled(s, PrintMember(Member(LabelKey(), Str(r.displayLabel))) + ([COMMA]
                 + (PrintMember(Member(MachineKey(), HexStr(r.machineId))) + ([COMMA]
                 + PrintMember(Member(VotesKey(), Num(r.votes)))))), rest)
  {
    RowKeysPlain();
    hide Spelled, TakeByte, ExpectKey, ReadString, ReadHex, ReadNumber, Plain, PrintMember, ValidUtf8, LabelKey, MachineKey, VotesKey;
    var (text, s1) := ReadKeyed(LabelKey(), s).value;
    var s2 := TakeByte(COMMA, s1).value;
    var (machine, s3) := ReadHex(ExpectKey(MachineKey(), s2).value).value;
    var s4 := TakeByte(COMMA, s3).value;
    var (votes, rest) := ReadNumber(ExpectKey(VotesKey(), s4).value).value;
    var m0, m1, m2 := Member(LabelKey(), Str(text)), Member(MachineKey(), HexStr(machine)), Member(VotesKey(), Num(votes));
    StringSpelled(ExpectKey(LabelKey(), s).value);
    MemberSpelled(s, LabelKey(), Str(text), s1);
    HexSpelled(ExpectKey(MachineKey(), s2).value);
    MemberSpelled(s2, MachineKey(), HexStr(machine), s3);
    NumberSpelled(ExpectKey(VotesKey(), s4).value);
    MemberSpelled(s4, VotesKey(), Num(votes), rest);
    CommaSpelled(s2, PrintMember(m1), s3, PrintMember(m2), rest);
    CommaSpelled(s, PrintMember(m0), s1, PrintMember(m1) + ([COMMA] + PrintMember(m2)), rest);
  }

  lemma RowSpelled(s: bytes)
    requires ReadRow(s).Ok?
    ensures var (r, rest) := ReadRow(s).value; ValidRow(r) && Spelled(s, Print(RowTree(r)), rest)
  {
    hide Spelled, ReadRowFields, TakeByte, PrintMember, LabelKey, MachineKey, VotesKey;
    var s1 := TakeByte(123, s).value;
    var (r, s2) := ReadRowFields(s1).value;
    var rest := TakeByte(125, s2).value;
    var m0, m1, m2 := Member(LabelKey(), Str(r.displayLabel)), Member(MachineKey(), HexStr(r.machineId)),
                      Member(VotesKey(), Num(r.votes));
    var body := PrintMember(m0) + ([COMMA] + (PrintMember(m1) + ([COMMA] + PrintMember(m2))));
    ByteSpelled(123, s);
    RowFieldsSpelled(s1);
    ByteSpelled(125, s2);
    SpelledThen(s1, body, s2, [125], rest);
    SpelledThen(s, [123], s1, body + [125], rest);
    Associative([123], body, [125]);
    ThreeMembers(m0, m1, m2);
    Associative([COMMA], PrintMember(m1), [COMMA] + PrintMember(m2));
    assert Print(RowTree(r)) == [123] + body + [125];
  }

  lemma {:induction false} RowsSpelled(s: bytes, count: nat)
    requires ReadRows(s, count).Ok? && count <= MAX_TALLY_ENTRIES
    ensures var (rows, rest) := ReadRows(s, count).value;
            && (forall i :: 0 <= i < |rows| ==> ValidRow(rows[i]))
            && count + |rows| <= MAX_TALLY_ENTRIES
            && Spelled(s, PrintItems(RowTrees(rows), count == 0) + [93], rest)
    decreases |s|
  {
    hide Spelled, ReadRow, ValidRow, RowTree, Print;
    var (rows, rest) := ReadRows(s, count).value;
    if s[0] == 93 {
      ByteSpelled(93, s);
      assert PrintItems(RowTrees(rows), count == 0) + [93] == [93];
    } else {
      var start := if count == 0 then s else TakeByte(COMMA, s).value;
      var (row, next) := ReadRow(start).value;
      RowsSpelled(next, count + 1);
      RowSpelled(start);
      SeparatorSpelled(s, count == 0, start);
      assert rows[0] == row && rows[1..] == ReadRows(next, count + 1).value.0;
      assert RowTrees(rows)[1..] == RowTrees(rows[1..]);
      var first, others := Print(RowTree(row)), PrintItems(RowTrees(rows[1..]), false);
      SpelledThen(s, Separator(count == 0), start, first, next);
      SpelledThen(s, Separator(count == 0) + first, next, others + [93], rest);
      Associative(Separator(count == 0) + first, others, [93]);
    }
  }

  lemma SeparatorSpelled(s: bytes, first: bool, start: bytes)
    requires if first then start == s else TakeByte(COMMA, s) == Ok(start)
    ensures Spelled(s, Separator(first), start)
  {
    hide Spelled;
    if first {
      SpelledNothing(s);
    } else {
      ByteSpelled(COMMA, s);
    }
  }

  lemma ResultsSpelled(s: bytes)
    requires ReadValue(Results, s).Ok?
    ensures var (v, rest) := ReadValue(Results, s).value; WellTyped(Results, v) && Spelled(s, Print(Tree(v)), rest)
  {
    hide Spelled, ReadRows, TakeByte, ValidRow, PrintItems, ReadString, ReadNumber, ReadHex, ReadBool, ReadOptional;
    var inside := TakeByte(91, s).value;
    var (rows, rest) := ReadRows(inside, 0).value;
    ByteSpelled(91, s);
    RowsSpelled(inside, 0);
    SpelledThen(s, [91], inside, PrintItems(RowTrees(rows), true) + [93], rest);
    Associative([91], PrintItems(RowTrees(rows), true), [93]);
  }

  lemma ScalarSpelled(kind: Kind, s: bytes)
    requires ReadValue(kind, s).Ok? && !kind.Results?
    ensures var (v, rest) := ReadValue(kind, s).value; WellTyped(kind, v) && Spelled(s, Print(Tree(v)), rest)
  {
    hide Spelled, ReadString, ReadNumber, ReadHex, ReadBool, ReadOptional, Print, TypeId, ValidUtf8;
    match kind
    case SchemaId => StringSpelled(s);
    case Network => StringSpelled(s);
    case FreeText => StringSpelled(s);
    case Version => NumberSpelled(s);
    case Count => NumberSpelled(s);
    case Digest => HexSpelled(s);
    case Flag => BoolSpelled(s);
    case MaybeCount => OptionalSpelled(s);
  }

  lemma {:induction false} FieldsSpelled(fields: seq<Field>, s: bytes, first: bool)
    requires PlainKeys(fields) && ReadFields(fields, s, first).Ok?
    ensures var (values, rest) := ReadFields(fields, s, first).value;
            && AllTyped(fields, values)
            && Spelled(s, PrintMembers(Members(fields, values), first), rest)
    decreases |fields|
  {
    hide Spelled, ReadValue, ExpectKey, WellTyped, Plain, Tree, PrintMember;
    var (values, rest) := ReadFields(fields, s, first).value;
    if fields == [] {
      SpelledNothing(s);
    } else {
      var field := fields[0];
      var start := if first then s else TakeByte(COMMA, s).value;
      var after := ExpectKey(field.key, start).value;
      var (v, next) := ReadValue(field.kind, after).value;
      FieldsSpelled(fields[1..], next, false);
      if field.kind.Results? {
        ResultsSpelled(after);
      } else {
        ScalarSpelled(field.kind, after);
      }
      MemberSpelled(start, field.key, Tree(v), next);
      SeparatorSpelled(s, first, start);
      assert values[0] == v && values[1..] == ReadFields(fields[1..], next, false).value.0;
      var m, tail := Member(field.key, Tree(v)), Members(fields[1..], values[1..]);
      assert Members(fields, values)[1..] == tail;
      SpelledThen(s, Separator(first), start, PrintMember(m), next);
      SpelledThen(s, Separator(first) + PrintMember(m), next, PrintMembers(tail, false), rest);
    }
  }
}
