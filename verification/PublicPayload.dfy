/** The V2 public payload: its canonical JSON encoding, strict decoding, and domain frame. */
module PublicPayload {
  import opened Bytes
  import opened Utf8
  import opened AnchorIds
  import opened JsonText
  import opened JsonFields

  datatype Template = Template(
    address: bytes, moduleName: bytes, functionName: bytes, topic: bytes, artifact: bytes)

  datatype Payload = Payload(
    network: bytes, electionId: bytes, question: bytes, ballotKind: bytes, confidentiality: bytes, proofSuite: bytes,
    manifestHash: bytes, archiveHash: bytes, registry: bytes, optionSet: bytes,
    eligible: nat, accepted: nat, rejected: nat, tally: seq<Row>, finalized: bool, timestamp: Option<nat>,
    template: Template)

  const MAX_PAYLOAD_BYTES := 256 * 1024

  // ---------------------------------------------------------------------
  // Field table
  // ---------------------------------------------------------------------

  /** The top-level keys. */
  datatype Name =
    | SchemaKey | VersionKey | NetworkKey | ElectionIdKey | QuestionKey
    | EligibleVotersKey | AcceptedBallotsKey | RejectedBallotsKey | ResultsKey
    | BallotKindKey | ConfidentialityModeKey | ProofSuiteKey
    | ManifestHashKey | ArchiveHashKey | VoterRegistryCommitmentKey | BallotOptionCommitmentKey
    | ArchiveFinalizedKey | FinalizedTimestampUnixSecsKey
    | TemplateAddressKey | TemplateModuleKey | TemplateFunctionKey | TemplateEventTopicKey | TemplateArtifactDigestKey

  /** Lowercase letters and underscores only. */
  predicate KeyText(s: string) {
    forall c :: c in s ==> 'a' <= c <= 'z' || c == '_'
  }

  /** The text of a key. */
  function Spelling(n: Name): (s: string)
    ensures KeyText(s)
  {
    match n
    case SchemaKey => "schema"
    case VersionKey => "version"
    case NetworkKey => "network"
    case ElectionIdKey => "election_id"
    case QuestionKey => "question"
    case EligibleVotersKey => "eligible_voters"
    case AcceptedBallotsKey => "accepted_ballots"
    case RejectedBallotsKey => "rejected_ballots"
    case ResultsKey => "results"
    case _ => CommitmentSpelling(n)
  }

  /** From the ballot kind to the commitments. */
  function CommitmentSpelling(n: Name): (s: string)
    ensures KeyText(s)
  {
    match n
    case BallotKindKey => "ballot_kind"
    case ConfidentialityModeKey => "confidentiality_mode"
    case ProofSuiteKey => "proof_suite"
    case ManifestHashKey => "manifest_hash"
    case ArchiveHashKey => "archive_hash"
    case VoterRegistryCommitmentKey => "voter_registry_commitment"
    case BallotOptionCommitmentKey => "ballot_option_commitment"
    case _ => ClosingSpelling(n)
  }

  /** Finalization and template. */
  function ClosingSpelling(n: Name): (s: string)
    ensures KeyText(s)
  {
    match n
    case ArchiveFinalizedKey => "archive_finalized"
    case FinalizedTimestampUnixSecsKey => "finalized_timestamp_unix_secs"
    case TemplateAddressKey => "template_address"
    case TemplateModuleKey => "template_module"
    case TemplateFunctionKey => "template_function"
    case TemplateEventTopicKey => "template_event_topic"
    case TemplateArtifactDigestKey => "template_artifact_digest"
    case _ => ""
  }

  lemma KeyTextPlain(s: string)
    requires KeyText(s)
    ensures Plain(Ascii(s))
  {
    assert forall i :: 0 <= i < |s| ==> s[i] in s;
  }

  function Key(n: Name): bytes {
    Ascii(Spelling(n))
  }

  function KindOf(n: Name): Kind {
    match n
    case SchemaKey => SchemaId
    case VersionKey => Version
    case NetworkKey => Network
    case ResultsKey => Results
    case EligibleVotersKey | AcceptedBallotsKey | RejectedBallotsKey => Count
    case ManifestHashKey | ArchiveHashKey | VoterRegistryCommitmentKey | BallotOptionCommitmentKey
      | TemplateArtifactDigestKey => Digest
    case ArchiveFinalizedKey => Flag
    case FinalizedTimestampUnixSecsKey => MaybeCount
    case _ => FreeText
  }

  /** The order in which the fields are written and read. */
  function NameOf(i: nat): Name
    requires i < 23
  {
    match i
    case 0 => SchemaKey
    case 1 => VersionKey
    case 2 => NetworkKey
    case 3 => ElectionIdKey
    case 4 => QuestionKey
    case 5 => EligibleVotersKey
    case 6 => AcceptedBallotsKey
    case 7 => RejectedBallotsKey
    case 8 => ResultsKey
    case 9 => BallotKindKey
    case 10 => ConfidentialityModeKey
    case 11 => ProofSuiteKey
    case 12 => ManifestHashKey
    case 13 => ArchiveHashKey
    case 14 => VoterRegistryCommitmentKey
    case 15 => BallotOptionCommitmentKey
    case 16 => ArchiveFinalizedKey
    case 17 => FinalizedTimestampUnixSecsKey
    case 18 => TemplateAddressKey
    case 19 => TemplateModuleKey
    case 20 => TemplateFunctionKey
    case 21 => TemplateEventTopicKey
    case _ => TemplateArtifactDigestKey
  }

  function Names(): (r: seq<Name>)
    ensures |r| == 23
  {
    seq(23, i requires 0 <= i < 23 => NameOf(i))
  }

  function Table(): (r: seq<Field>)
    ensures |r| == 23
    ensures forall i :: 0 <= i < 23 ==> r[i] == Field(Key(Names()[i]), KindOf(Names()[i]))
  {
    seq(23, i requires 0 <= i < 23 => Field(Key(Names()[i]), KindOf(Names()[i])))
  }

  lemma TableKeysPlain()
    ensures PlainKeys(Table())
  {
    hide Plain, Names, Spelling, KeyText;
    forall i | 0 <= i < 23
      ensures Plain(Table()[i].key)
    {
      KeyTextPlain(Spelling(Names()[i]));
    }
  }

  // ---------------------------------------------------------------------
  // Payloads and their values
  // ---------------------------------------------------------------------

  /** The value of one field. */
  function ValueOf(p: Payload, n: Name): Value {
    match n
    case SchemaKey => TextValue(TypeId())
    case VersionKey => CountValue(2)
    case NetworkKey => TextValue(p.network)
    case ElectionIdKey => TextValue(p.electionId)
    case QuestionKey => TextValue(p.question)
    case EligibleVotersKey => CountValue(p.eligible)
    case AcceptedBallotsKey => CountValue(p.accepted)
    case RejectedBallotsKey => CountValue(p.rejected)
    case ResultsKey => RowsValue(p.tally)
    case BallotKindKey => TextValue(p.ballotKind)
    case ConfidentialityModeKey => TextValue(p.confidentiality)
    case ProofSuiteKey => TextValue(p.proofSuite)
    case ManifestHashKey => OctetsValue(p.manifestHash)
    case ArchiveHashKey => OctetsValue(p.archiveHash)
    case VoterRegistryCommitmentKey => OctetsValue(p.registry)
    case BallotOptionCommitmentKey => OctetsValue(p.optionSet)
    case ArchiveFinalizedKey => FlagValue(p.finalized)
    case FinalizedTimestampUnixSecsKey => OptionalCount(p.timestamp)
    case TemplateAddressKey => TextValue(p.template.address)
    case TemplateModuleKey => TextValue(p.template.moduleName)
    case TemplateFunctionKey => TextValue(p.template.functionName)
    case TemplateEventTopicKey => TextValue(p.template.topic)
    case TemplateArtifactDigestKey => OctetsValue(p.template.artifact)
  }

  function ToValues(p: Payload): (r: seq<Value>)
    ensures |r| == 23
  {
    seq(23, i requires 0 <= i < 23 => ValueOf(p, Names()[i]))
  }

  /** Where a field stands in the table. */
  function Position(n: Name): (i: nat)
    ensures i < 23
  {
    match n
    case SchemaKey => 0
    case VersionKey => 1
    case NetworkKey => 2
    case ElectionIdKey => 3
    case QuestionKey => 4
    case EligibleVotersKey => 5
    case AcceptedBallotsKey => 6
    case RejectedBallotsKey => 7
    case ResultsKey => 8
    case BallotKindKey => 9
    case ConfidentialityModeKey => 10
    case ProofSuiteKey => 11
    case ManifestHashKey => 12
    case ArchiveHashKey => 13
    case VoterRegistryCommitmentKey => 14
    case BallotOptionCommitmentKey => 15
    case ArchiveFinalizedKey => 16
    case FinalizedTimestampUnixSecsKey => 17
    case TemplateAddressKey => 18
    case TemplateModuleKey => 19
    case TemplateFunctionKey => 20
    case TemplateEventTopicKey => 21
    case TemplateArtifactDigestKey => 22
  }

  lemma PositionOf(i: nat)
    requires i < 23
    ensures Position(Names()[i]) == i
  {
  }

  function TextOf(v: Value): bytes {
    if v.TextValue? then v.text else []
  }

  function CountOf(v: Value): nat {
    if v.CountValue? then v.n else 0
  }

  function OctetsOf(v: Value): bytes {
    if v.OctetsValue? then v.octets else []
  }

  function TextAt(v: seq<Value>, n: Name): bytes
    requires |v| == 23
  {
    TextOf(v[Position(n)])
  }

  function CountAt(v: seq<Value>, n: Name): nat
    requires |v| == 23
  {
    CountOf(v[Position(n)])
  }

  function OctetsAt(v: seq<Value>, n: Name): bytes
    requires |v| == 23
  {
    OctetsOf(v[Position(n)])
  }

  function RowsAt(v: seq<Value>): seq<Row>
    requires |v| == 23
  {
    var r := v[Position(ResultsKey)];
    if r.RowsValue? then r.rows else []
  }

  function FlagAt(v: seq<Value>): bool
    requires |v| == 23
  {
    v[Position(ArchiveFinalizedKey)] == FlagValue(true)
  }

  function MomentAt(v: seq<Value>): Option<nat>
    requires |v| == 23
  {
    var m := v[Position(FinalizedTimestampUnixSecsKey)];
    if m.OptionalCount? then m.value else None
  }

  /** The payload whose fields were read. */
  function FromValues(v: seq<Value>): Payload
    requires |v| == 23
  {
    Payload(
      TextAt(v, NetworkKey), TextAt(v, ElectionIdKey), TextAt(v, QuestionKey), TextAt(v, BallotKindKey),
      TextAt(v, ConfidentialityModeKey), TextAt(v, ProofSuiteKey), OctetsAt(v, ManifestHashKey),
      OctetsAt(v, ArchiveHashKey), OctetsAt(v, VoterRegistryCommitmentKey), OctetsAt(v, BallotOptionCommitmentKey),
      CountAt(v, EligibleVotersKey), CountAt(v, AcceptedBallotsKey), CountAt(v, RejectedBallotsKey),
      RowsAt(v), FlagAt(v), MomentAt(v),
      Template(TextAt(v, TemplateAddressKey), TextAt(v, TemplateModuleKey), TextAt(v, TemplateFunctionKey),
               TextAt(v, TemplateEventTopicKey), OctetsAt(v, TemplateArtifactDigestKey)))
  }

  lemma ValueAt(v: seq<Value>, n: Name)
    requires |v| == 23 && WellTyped(KindOf(n), v[Position(n)])
    ensures ValueOf(FromValues(v), n) == v[Position(n)]
  {
    hide TypeId, ValidUtf8, ValidNetwork, Position;
  }

  /** Typed values and payloads determine each other. */
  lemma FromThenTo(v: seq<Value>)
    requires AllTyped(Table(), v)
    ensures ToValues(FromValues(v)) == v
  {
    hide FromValues, ValueOf, Position, Names, KindOf, Key, WellTyped;
    forall i | 0 <= i < 23
      ensures ToValues(FromValues(v))[i] == v[i]
    {
      PositionOf(i);
      assert Table()[i].kind == KindOf(Names()[i]);
      ValueAt(v, Names()[i]);
    }
  }

  lemma NameAt(n: Name)
    ensures Names()[Position(n)] == n
  {
  }

  lemma ValuesAt(p: Payload, n: Name)
    ensures ToValues(p)[Position(n)] == ValueOf(p, n)
  {
    hide ValueOf, Names, Position;
    NameAt(n);
  }

  lemma ElectionTexts(p: Payload)
    ensures TextAt(ToValues(p), NetworkKey) == p.network
    ensures TextAt(ToValues(p), ElectionIdKey) == p.electionId
    ensures TextAt(ToValues(p), QuestionKey) == p.question
    ensures TextAt(ToValues(p), BallotKindKey) == p.ballotKind
    ensures TextAt(ToValues(p), ConfidentialityModeKey) == p.confidentiality
    ensures TextAt(ToValues(p), ProofSuiteKey) == p.proofSuite
  {
    hide Position, ToValues, TypeId;
    ValuesAt(p, NetworkKey);
    ValuesAt(p, ElectionIdKey);
    ValuesAt(p, QuestionKey);
    ValuesAt(p, BallotKindKey);
    ValuesAt(p, ConfidentialityModeKey);
    ValuesAt(p, ProofSuiteKey);
  }

  lemma TemplateTexts(p: Payload)
    ensures TextAt(ToValues(p), TemplateAddressKey) == p.template.address
    ensures TextAt(ToValues(p), TemplateModuleKey) == p.template.moduleName
    ensures TextAt(ToValues(p), TemplateFunctionKey) == p.template.functionName
    ensures TextAt(ToValues(p), TemplateEventTopicKey) == p.template.topic
  {
    hide Position, ToValues, TypeId;
    ValuesAt(p, TemplateAddressKey);
    ValuesAt(p, TemplateModuleKey);
    ValuesAt(p, TemplateFunctionKey);
    ValuesAt(p, TemplateEventTopicKey);
  }

  lemma Digests(p: Payload)
    ensures OctetsAt(ToValues(p), ManifestHashKey) == p.manifestHash
    ensures OctetsAt(ToValues(p), ArchiveHashKey) == p.archiveHash
    ensures OctetsAt(ToValues(p), VoterRegistryCommitmentKey) == p.registry
    ensures OctetsAt(ToValues(p), BallotOptionCommitmentKey) == p.optionSet
    ensures OctetsAt(ToValues(p), TemplateArtifactDigestKey) == p.template.artifact
  {
    hide Position, ToValues, TypeId;
    ValuesAt(p, ManifestHashKey);
    ValuesAt(p, ArchiveHashKey);
    ValuesAt(p, VoterRegistryCommitmentKey);
    ValuesAt(p, BallotOptionCommitmentKey);
    ValuesAt(p, TemplateArtifactDigestKey);
  }

  lemma Counts(p: Payload)
    ensures CountAt(ToValues(p), EligibleVotersKey) == p.eligible
    ensures CountAt(ToValues(p), AcceptedBallotsKey) == p.accepted
    ensures CountAt(ToValues(p), RejectedBallotsKey) == p.rejected
  {
    hide Position, ToValues, TypeId;
    ValuesAt(p, EligibleVotersKey);
    ValuesAt(p, AcceptedBallotsKey);
    ValuesAt(p, RejectedBallotsKey);
  }

  lemma OtherFields(p: Payload)
    ensures RowsAt(ToValues(p)) == p.tally && FlagAt(ToValues(p)) == p.finalized && MomentAt(ToValues(p)) == p.timestamp
  {
    hide Position, ToValues, TypeId;
    ValuesAt(p, ResultsKey);
    ValuesAt(p, ArchiveFinalizedKey);
    ValuesAt(p, FinalizedTimestampUnixSecsKey);
  }

  lemma ToThenFrom(p: Payload)
    ensures FromValues(ToValues(p)) == p
  {
    hide TextAt, OctetsAt, CountAt, RowsAt, FlagAt, MomentAt, ToValues;
    ElectionTexts(p);
    TemplateTexts(p);
    Digests(p);
    Counts(p);
    OtherFields(p);
  }
}
