/** Canonical encoding and strict decoding of the public payload. */
module PayloadCodec {
  import opened Bytes
  import opened Utf8
  import opened AnchorIds
  import opened JsonText
  import opened JsonWriter
  import opened JsonFields
  import opened JsonSound
  import opened PublicPayload

  /** What the field types guarantee of every payload. */
  predicate Typed(p: Payload) {
    && ValidNetwork(p.network)
    && ValidUtf8(p.question) && ValidUtf8(p.ballotKind) && ValidUtf8(p.confidentiality) && ValidUtf8(p.proofSuite)
    && |p.manifestHash| == 32 && |p.archiveHash| == 32 && |p.registry| == 32 && |p.optionSet| == 32
    && p.eligible < U64_LIMIT && p.accepted < U64_LIMIT && p.rejected < U64_LIMIT
    && (forall i :: 0 <= i < |p.tally| ==> ValidRow(p.tally[i]))
    && (p.timestamp.Some? ==> p.timestamp.value < U64_LIMIT)
    && ValidUtf8(p.template.address) && ValidUtf8(p.template.moduleName) && ValidUtf8(p.template.functionName)
    && ValidUtf8(p.template.topic) && |p.template.artifact| == 32
  }

  predicate Bounded(s: bytes, limit: nat) {
    0 < |s| <= limit
  }

  predicate RowInBounds(r: Row) {
    |r.displayLabel| <= 1024 && Bounded(r.machineId, 64)
  }

  /** `validate`: every bound the payload enforces. */
  predicate Validates(p: Payload) {
    && Bounded(p.electionId, 128) && ValidUtf8(p.electionId)
    && (forall i :: 0 <= i < |p.electionId| ==> 0x20 <= p.electionId[i])
    && |p.question| <= 8 * 1024
    && Bounded(p.ballotKind, 64) && Bounded(p.confidentiality, 64) && Bounded(p.proofSuite, 64)
    && |p.tally| <= MAX_TALLY_ENTRIES && (forall i :: 0 <= i < |p.tally| ==> RowInBounds(p.tally[i]))
    && Bounded(p.template.address, 512) && Bounded(p.template.moduleName, 512)
    && Bounded(p.template.functionName, 512) && Bounded(p.template.topic, 512)
  }

  function PayloadTree(p: Payload): Json {
    Obj(Members(Table(), ToValues(p)))
  }

  function Encode(p: Payload): Result<bytes, Code> {
    if !Validates(p) then Err(InvalidData)
    else
      var encoded := Print(PayloadTree(p));
      if |encoded| > MAX_PAYLOAD_BYTES then Err(ProtocolLimitExceeded) else Ok(encoded)
  }

  function ParseValues(s: bytes): Result<seq<Value>, Code> {
    var inside :- TakeByte(123, s);
    var (values, end) :- ReadFields(Table(), inside, true);
    var rest :- TakeByte(125, end);
    if rest == [] then Ok(values) else Err(InvalidCbor)
  }

  lemma {:induction false} ReadFieldsLength(fields: seq<Field>, s: bytes, first: bool)
    requires ReadFields(fields, s, first).Ok?
    ensures |ReadFields(fields, s, first).value.0| == |fields|
    decreases |fields|
  {
    hide ReadField;
    if fields != [] {
      var start := if first then s else TakeByte(COMMA, s).value;
      ReadFieldsLength(fields[1..], ReadField(fields[0], start).value.1, false);
    }
  }

  lemma ParsedLength(s: bytes)
    requires ParseValues(s).Ok?
    ensures |ParseValues(s).value| == 23
  {
    hide ReadFields;
    ReadFieldsLength(Table(), TakeByte(123, s).value, true);
  }

  function Parse(s: bytes): Result<Payload, Code> {
    var values :- ParseValues(s);
    ParsedLength(s);
    Ok(FromValues(values))
  }

  /** Parses, validates, and requires the re-encoding to be the input. */
  function Decode(s: bytes): Result<Payload, Code> {
    if |s| > MAX_PAYLOAD_BYTES then Err(ProtocolLimitExceeded)
    else
      var p :- Parse(s);
      if !Validates(p) then Err(InvalidData)
      else
        var again :- Encode(p);
        if again != s then Err(InvalidCbor) else Ok(p)
  }

  /** The frame that is hashed. */
  function DomainInput(canonical: bytes): bytes {
    Ascii("TARI_CC_PRIVATE_BALLOT_OOTLE_ANCHOR_PUBLIC_FRAME_V2") + [0]
    + Ascii("tari-cc-private-ballot/ootle-anchor-public-payload/v2") + [0] + canonical
  }

  // ---------------------------------------------------------------------
  // Types and tables
  // ---------------------------------------------------------------------

  lemma TypedValue(p: Payload, n: Name)
    requires Typed(p) && Validates(p)
    ensures WellTyped(KindOf(n), ValueOf(p, n))
  {
    hide TypeId, ValidUtf8, ValidNetwork, ValidRow;
  }

  lemma TypedValues(p: Payload)
    requires Typed(p) && Validates(p)
    ensures AllTyped(Table(), ToValues(p))
  {
    hide Typed, Validates, WellTyped, KindOf, ValueOf, Names, Key;
    forall i | 0 <= i < 23
      ensures WellTyped(Table()[i].kind, ToValues(p)[i])
    {
      TypedValue(p, Names()[i]);
    }
  }

  lemma ValueTyped(v: seq<Value>, n: Name)
    requires AllTyped(Table(), v)
    ensures WellTyped(KindOf(n), v[Position(n)])
  {
    hide WellTyped, KindOf, Names, Position, Key;
    NameAt(n);
    assert Table()[Position(n)].kind == KindOf(n);
  }

  lemma FromValuesTyped(v: seq<Value>)
    requires AllTyped(Table(), v)
    ensures Typed(FromValues(v))
  {
    hide WellTyped, KindOf, Names, Position, Key, TypeId, ValidUtf8, ValidNetwork, ValidRow, AllTyped;
    TypedTexts(v);
    TypedTemplate(v);
    TypedOctets(v);
    TypedCounts(v);
    TypedOthers(v);
    hide TextAt, OctetsAt, CountAt, RowsAt, MomentAt;
  }

  lemma TypedTexts(v: seq<Value>)
    requires AllTyped(Table(), v)
    ensures ValidNetwork(TextAt(v, NetworkKey)) && ValidUtf8(TextAt(v, QuestionKey)) && ValidUtf8(TextAt(v, BallotKindKey))
    ensures ValidUtf8(TextAt(v, ConfidentialityModeKey)) && ValidUtf8(TextAt(v, ProofSuiteKey))
  {
    hide Names, Position, Key, TypeId, ValidUtf8, ValidNetwork, ValidRow, AllTyped;
    ValueTyped(v, NetworkKey);
    ValueTyped(v, QuestionKey);
    ValueTyped(v, BallotKindKey);
    ValueTyped(v, ConfidentialityModeKey);
    ValueTyped(v, ProofSuiteKey);
  }

  lemma TypedTemplate(v: seq<Value>)
    requires AllTyped(Table(), v)
    ensures ValidUtf8(TextAt(v, TemplateAddressKey)) && ValidUtf8(TextAt(v, TemplateModuleKey))
    ensures ValidUtf8(TextAt(v, TemplateFunctionKey)) && ValidUtf8(TextAt(v, TemplateEventTopicKey))
  {
    hide Names, Position, Key, TypeId, ValidUtf8, ValidNetwork, ValidRow, AllTyped;
    ValueTyped(v, TemplateAddressKey);
    ValueTyped(v, TemplateModuleKey);
    ValueTyped(v, TemplateFunctionKey);
    ValueTyped(v, TemplateEventTopicKey);
  }

  lemma TypedOctets(v: seq<Value>)
    requires AllTyped(Table(), v)
    ensures |OctetsAt(v, ManifestHashKey)| == 32 && |OctetsAt(v, ArchiveHashKey)| == 32
    ensures |OctetsAt(v, VoterRegistryCommitmentKey)| == 32 && |OctetsAt(v, BallotOptionCommitmentKey)| == 32
    ensures |OctetsAt(v, TemplateArtifactDigestKey)| == 32
  {
    hide Names, Position, Key, TypeId, ValidUtf8, ValidNetwork, ValidRow, AllTyped;
    ValueTyped(v, ManifestHashKey);
    ValueTyped(v, ArchiveHashKey);
    ValueTyped(v, VoterRegistryCommitmentKey);
    ValueTyped(v, BallotOptionCommitmentKey);
    ValueTyped(v, TemplateArtifactDigestKey);
  }

  lemma TypedCounts(v: seq<Value>)
    requires AllTyped(Table(), v)
    ensures CountAt(v, EligibleVotersKey) < U64_LIMIT && CountAt(v, AcceptedBallotsKey) < U64_LIMIT
    ensures CountAt(v, RejectedBallotsKey) < U64_LIMIT
  {
    hide Names, Position, Key, TypeId, ValidUtf8, ValidNetwork, ValidRow, AllTyped;
    ValueTyped(v, EligibleVotersKey);
    ValueTyped(v, AcceptedBallotsKey);
    ValueTyped(v, RejectedBallotsKey);
  }

  lemma TypedOthers(v: seq<Value>)
    requires AllTyped(Table(), v)
    ensures forall i :: 0 <= i < |RowsAt(v)| ==> ValidRow(RowsAt(v)[i])
    ensures MomentAt(v).Some? ==> MomentAt(v).value < U64_LIMIT
  {
    hide Names, Position, Key, TypeId, ValidUtf8, ValidNetwork, ValidRow, AllTyped;
    ValueTyped(v, ResultsKey);
    ValueTyped(v, FinalizedTimestampUnixSecsKey);
  }

  // ---------------------------------------------------------------------
  // Theorems
  // ---------------------------------------------------------------------

  /** The printed tree parses back to the payload. */
  lemma ParsePrinted(p: Payload)
    requires Typed(p) && Validates(p)
    ensures Parse(Print(PayloadTree(p))) == Ok(p)
  {
    hide Typed, Validates, ReadFields, PrintMembers, Members, Table, ToValues, FromValues, AllTyped, PlainKeys;
    var values := ToValues(p);
    var body := PrintMembers(Members(Table(), values), true);
    TypedValues(p);
    TableKeysPlain();
    FieldsRead(Table(), values, true, [125]);
    var s := Print(PayloadTree(p));
    assert s == [123] + body + [125];
    assert s[1..] == body + [125];
    assert ParseValues(s) == Ok(values);
    ToThenFrom(p);
  }

  /** What parses is the printed tree of its payload, up to long spellings. */
  lemma ParsedSpelling(s: bytes)
    requires Parse(s).Ok?
    ensures Typed(Parse(s).value)
    ensures |Print(PayloadTree(Parse(s).value))| <= |s|
    ensures Print(PayloadTree(Parse(s).value)) == s <==> !SpellsShortFormLong(s)
  {
    hide Typed, ReadFields, PrintMembers, Members, Table, ToValues, FromValues, AllTyped, PlainKeys, TakeByte, Spelled;
    var inside := TakeByte(123, s).value;
    var (values, end) := ReadFields(Table(), inside, true).value;
    ReadFieldsLength(Table(), inside, true);
    var body := PrintMembers(Members(Table(), values), true);
    TableKeysPlain();
    FieldsSpelled(Table(), inside, true);
    FromValuesTyped(values);
    FromThenTo(values);
    ByteSpelled(123, s);
    ByteSpelled(125, end);
    SpelledThen(s, [123], inside, body, end);
    SpelledThen(s, [123] + body, end, [125], []);
    WholeText(s, [123] + body + [125]);
  }

  lemma WholeText(s: bytes, canonical: bytes)
    requires Spelled(s, canonical, [])
    ensures |canonical| <= |s| && (canonical == s <==> !SpellsShortFormLong(s))
  {
    var raw :| s == raw + [] && CanonicalUnlessLong(raw, canonical, []);
    assert raw == s;
  }

  /** Decoding inverts encoding. */
  lemma EncodeThenDecode(p: Payload)
    requires Typed(p) && Encode(p).Ok?
    ensures Decode(Encode(p).value) == Ok(p)
  {
    hide Typed, Validates, Parse, Print, PayloadTree;
    ParsePrinted(p);
  }

  /** The decoder accepts nothing but encodings. */
  lemma DecodeThenEncode(s: bytes)
    requires Decode(s).Ok?
    ensures Typed(Decode(s).value) && Encode(Decode(s).value) == Ok(s)
  {
    hide Typed, Validates, Parse, Print, PayloadTree;
    ParsedSpelling(s);
  }

  /** The accepted texts are exactly the encodings of typed payloads. */
  lemma AcceptsExactlyEncodings(s: bytes, p: Payload)
    ensures Decode(s) == Ok(p) <==> Typed(p) && Encode(p) == Ok(s)
  {
    hide Typed, Encode, Decode;
    if Decode(s) == Ok(p) {
      DecodeThenEncode(s);
    }
    if Typed(p) && Encode(p) == Ok(s) {
      EncodeThenDecode(p);
    }
  }

  /**
   * Among texts within the size limit that parse and validate, the comparison with the
   * re-encoding rejects precisely those that spell backspace, tab, newline, form feed or
   * return as a `\u00XX` escape.
   */
  lemma ComparisonRejectsExactlyLongSpellings(s: bytes)
    requires |s| <= MAX_PAYLOAD_BYTES && Parse(s).Ok? && Validates(Parse(s).value)
    ensures Decode(s) == if SpellsShortFormLong(s) then Err(InvalidCbor) else Parse(s)
  {
    hide Typed, Validates, Parse, Print, PayloadTree, SpellsShortFormLong;
    ParsedSpelling(s);
  }

  /** Encoding, with or without the domain frame, is injective. */
  lemma EncodingInjective(p: Payload, q: Payload)
    requires Typed(p) && Typed(q) && Encode(p).Ok? && Encode(q).Ok?
    requires Encode(p) == Encode(q) || DomainInput(Encode(p).value) == DomainInput(Encode(q).value)
    ensures p == q
  {
    hide Typed, Encode, Decode, Ascii;
    var a, b := Encode(p).value, Encode(q).value;
    if a != b {
      FrameInjective(a, b);
    }
    EncodeThenDecode(p);
    EncodeThenDecode(q);
  }

  lemma FrameInjective(a: bytes, b: bytes)
    ensures DomainInput(a) == DomainInput(b) ==> a == b
  {
    hide Ascii;
    var frame := DomainInput([]);
    assert DomainInput(a)[|frame|..] == a && DomainInput(b)[|frame|..] == b;
  }
}
