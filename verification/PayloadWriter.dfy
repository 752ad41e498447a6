/** The payload encoder: the sequence of writer calls prints the payload's tree. */
module PayloadWriter {
  import opened Bytes
  import opened JsonText
  import opened JsonWriter
  import opened JsonFields
  import opened PublicPayload
  import opened PayloadCodec

  function MemberOf(p: Payload, n: Name): Member {
    Member(Key(n), Tree(ValueOf(p, n)))
  }

  /** The first `k` members of the payload's tree. */
  function FirstMembers(p: Payload, k: nat): seq<Member>
    requires k <= 23
  {
    seq(k, i requires 0 <= i < k => MemberOf(p, Names()[i]))
  }

  lemma {:induction false} MembersAt(fields: seq<Field>, values: seq<Value>)
    requires |fields| == |values|
    ensures |Members(fields, values)| == |fields|
    ensures forall i :: 0 <= i < |fields| ==> Members(fields, values)[i] == Member(fields[i].key, Tree(values[i]))
    decreases |fields|
  {
    hide Tree;
    if fields != [] {
      MembersAt(fields[1..], values[1..]);
    }
  }

  lemma AllMembers(p: Payload)
    ensures Obj(FirstMembers(p, 23)) == PayloadTree(p)
  {
    hide Names, Key, ValueOf, KindOf, Tree;
    MembersAt(Table(), ToValues(p));
    assert FirstMembers(p, 23) == Members(Table(), ToValues(p));
  }

  /** The writer has the payload's object open with its first `k` members written. */
  ghost predicate Wrote(w: CanonicalJsonWriter, p: Payload, k: nat)
    reads w
  {
    k <= 23 && w.Valid() && w.frames == [Roots([]), OpenObject(FirstMembers(p, k))]
  }

  /** Writing the next field of the table. */
  lemma NextMember(p: Payload, k: nat, n: Name)
    requires k < 23 && Names()[k] == n
    ensures FirstMembers(p, k + 1) == FirstMembers(p, k) + [MemberOf(p, n)]
  {
    hide MemberOf;
  }

  lemma WroteNext(w: CanonicalJsonWriter, p: Payload, k: nat, n: Name)
    requires k < 23 && Position(n) == k && w.Valid()
    requires w.frames == [Roots([]), OpenObject(FirstMembers(p, k) + [MemberOf(p, n)])]
    ensures Wrote(w, p, k + 1)
  {
    hide MemberOf, FirstMembers, Names, Position;
    NameAt(n);
    NextMember(p, k, n);
  }

  method WriteText(w: CanonicalJsonWriter, ghost p: Payload, n: Name, t: bytes)
    requires Wrote(w, p, Position(n)) && ValueOf(p, n) == TextValue(t)
    modifies w
    ensures Wrote(w, p, Position(n) + 1)
  {
    hide FirstMembers, Names, Position, ValueOf, Key, Rendered;
    w.FieldString(Key(n), t);
    WroteNext(w, p, Position(n), n);
  }

  method WriteCount(w: CanonicalJsonWriter, ghost p: Payload, n: Name, count: nat)
    requires Wrote(w, p, Position(n)) && ValueOf(p, n) == CountValue(count)
    modifies w
    ensures Wrote(w, p, Position(n) + 1)
  {
    hide FirstMembers, Names, Position, ValueOf, Key, Rendered;
    w.FieldU64(Key(n), count);
    WroteNext(w, p, Position(n), n);
  }

  method WriteHex(w: CanonicalJsonWriter, ghost p: Payload, n: Name, octets: bytes)
    requires Wrote(w, p, Position(n)) && ValueOf(p, n) == OctetsValue(octets)
    modifies w
    ensures Wrote(w, p, Position(n) + 1)
  {
    hide FirstMembers, Names, Position, ValueOf, Key, Rendered;
    w.FieldLowerHex(Key(n), octets);
    WroteNext(w, p, Position(n), n);
  }

  lemma {:induction false} RowTreesAppend(rows: seq<Row>, r: Row)
    ensures RowTrees(rows + [r]) == RowTrees(rows) + [RowTree(r)]
    decreases |rows|
  {
    hide RowTree;
    if rows == [] {
      assert (rows + [r])[1..] == [];
    } else {
      assert (rows + [r])[1..] == rows[1..] + [r];
      RowTreesAppend(rows[1..], r);
    }
  }

  /** One object per row, as elements of the array that is open. */
  method WriteRows(w: CanonicalJsonWriter, rows: seq<Row>)
    requires w.Valid() && |w.frames| == 3 && w.Innermost().OpenArray? && w.Innermost().items == []
    modifies w
    ensures w.Valid() && w.frames == old(w.frames)[2 := OpenArray(old(w.Innermost()).key, RowTrees(rows))]
  {
    hide Rendered, RowTree, RowTrees, Nested;
    ghost var start, key := w.frames, w.Innermost().key;
    NoRows(rows[..0]);
    for i := 0 to |rows|
      invariant w.Valid() && w.frames == start[2 := OpenArray(key, RowTrees(rows[..i]))]
    {
      WriteRow(w, rows[i]);
      assert rows[..i + 1] == rows[..i] + [rows[i]];
      RowTreesAppend(rows[..i], rows[i]);
    }
    assert rows[..|rows|] == rows;
  }

  /** The results array. */
  method WriteResults(w: CanonicalJsonWriter, p: Payload)
    requires Wrote(w, p, Position(ResultsKey))
    modifies w
    ensures Wrote(w, p, Position(ResultsKey) + 1)
  {
    hide FirstMembers, Names, Position, ValueOf, Key, Rendered, RowTree, RowTrees, MemberOf, Nested;
    ResultsMember(p);
    w.BeginArrayField(Key(ResultsKey));
    WriteRows(w, p.tally);
    w.EndArray();
    WroteNext(w, p, Position(ResultsKey), ResultsKey);
  }

  lemma ResultsMember(p: Payload)
    ensures MemberOf(p, ResultsKey) == Member(Key(ResultsKey), Arr(RowTrees(p.tally)))
  {
    hide Key, RowTrees;
  }

  lemma NoRows(rows: seq<Row>)
    requires rows == []
    ensures RowTrees(rows) == []
  {
  }

  /** One row is written as an element of the array that is open. */
  method WriteRow(w: CanonicalJsonWriter, r: Row)
    requires w.Valid() && |w.frames| == 3 && w.Innermost().OpenArray?
    modifies w
    ensures w.Valid() && w.frames == old(w.frames)[2 := AddItem(old(w.Innermost()), RowTree(r))]
  {
    hide Rendered, LabelKey, MachineKey, VotesKey, Nested;
    w.BeginObject();
    w.FieldString(LabelKey(), r.displayLabel);
    w.FieldLowerHex(MachineKey(), r.machineId);
    w.FieldU64(VotesKey(), r.votes);
    ghost var inner := w.frames;
    assert inner[3] == OpenObject([] + [Member(LabelKey(), Str(r.displayLabel))] + [Member(MachineKey(), HexStr(r.machineId))]
                                  + [Member(VotesKey(), Num(r.votes))]);
    assert Obj(inner[3].members) == RowTree(r);
    w.EndObject();
  }

  method WriteElection(w: CanonicalJsonWriter, p: Payload)
    requires Wrote(w, p, 0)
    modifies w
    ensures Wrote(w, p, 8)
  {
    hide Wrote;
    WriteText(w, p, SchemaKey, TypeId());
    WriteCount(w, p, VersionKey, 2);
    WriteText(w, p, NetworkKey, p.network);
    WriteText(w, p, ElectionIdKey, p.electionId);
    WriteText(w, p, QuestionKey, p.question);
    WriteCount(w, p, EligibleVotersKey, p.eligible);
    WriteCount(w, p, AcceptedBallotsKey, p.accepted);
    WriteCount(w, p, RejectedBallotsKey, p.rejected);
  }

  method WriteCommitments(w: CanonicalJsonWriter, p: Payload)
    requires Wrote(w, p, 9)
    modifies w
    ensures Wrote(w, p, 16)
  {
    hide Wrote;
    WriteText(w, p, BallotKindKey, p.ballotKind);
    WriteText(w, p, ConfidentialityModeKey, p.confidentiality);
    WriteText(w, p, ProofSuiteKey, p.proofSuite);
    WriteHex(w, p, ManifestHashKey, p.manifestHash);
    WriteHex(w, p, ArchiveHashKey, p.archiveHash);
    WriteHex(w, p, VoterRegistryCommitmentKey, p.registry);
    WriteHex(w, p, BallotOptionCommitmentKey, p.optionSet);
  }

  method WriteFinalization(w: CanonicalJsonWriter, p: Payload)
    requires Wrote(w, p, 16)
    modifies w
    ensures Wrote(w, p, 18)
  {
    assert Position(ArchiveFinalizedKey) == 16 && Position(FinalizedTimestampUnixSecsKey) == 17;
    assert MemberOf(p, ArchiveFinalizedKey) == Member(Key(ArchiveFinalizedKey), Bool(p.finalized));
    assert MemberOf(p, FinalizedTimestampUnixSecsKey) == Member(Key(FinalizedTimestampUnixSecsKey), OptNum(p.timestamp));
    hide FirstMembers, Names, Position, ValueOf, Key, Rendered, MemberOf;
    w.FieldBool(Key(ArchiveFinalizedKey), p.finalized);
    WroteNext(w, p, 16, ArchiveFinalizedKey);
    w.FieldOptU64(Key(FinalizedTimestampUnixSecsKey), p.timestamp);
    WroteNext(w, p, 17, FinalizedTimestampUnixSecsKey);
  }

  method WriteTemplate(w: CanonicalJsonWriter, p: Payload)
    requires Wrote(w, p, 18)
    modifies w
    ensures Wrote(w, p, 23)
  {
    hide Wrote;
    WriteText(w, p, TemplateAddressKey, p.template.address);
    WriteText(w, p, TemplateModuleKey, p.template.moduleName);
    WriteText(w, p, TemplateFunctionKey, p.template.functionName);
    WriteText(w, p, TemplateEventTopicKey, p.template.topic);
    WriteHex(w, p, TemplateArtifactDigestKey, p.template.artifact);
  }

  /** Closing the object leaves the printed tree. */
  method CloseObject(w: CanonicalJsonWriter, ghost p: Payload)
    requires Wrote(w, p, 23)
    modifies w
    ensures w.text == Print(PayloadTree(p))
  {
    hide FirstMembers, Print, PayloadTree, Rendered;
    w.EndObject();
    AllMembers(p);
    assert [] + [PayloadTree(p)] == [PayloadTree(p)];
    assert w.frames == [Roots([PayloadTree(p)])];
    AllClosed(PayloadTree(p));
  }

  method OpenObjectFor(ghost p: Payload) returns (w: CanonicalJsonWriter)
    ensures fresh(w) && Wrote(w, p, 0)
  {
    hide Rendered, Names;
    w := new CanonicalJsonWriter();
    w.BeginObject();
    assert FirstMembers(p, 0) == [];
  }

  /** The encoder: validate, write, and bound the size. */
  method ToCanonicalJsonBytes(p: Payload) returns (r: Result<bytes, Code>)
    ensures r == Encode(p)
  {
    hide Validates, PayloadTree, Print, Wrote;
    if !Validates(p) {
      return Err(InvalidData);
    }
    var w := OpenObjectFor(p);
    WriteElection(w, p);
    WriteResults(w, p);
    WriteCommitments(w, p);
    WriteFinalization(w, p);
    WriteTemplate(w, p);
    CloseObject(w, p);
    if |w.text| > MAX_PAYLOAD_BYTES {
      return Err(ProtocolLimitExceeded);
    }
    return Ok(w.text);
  }
}
