/** The text of a public payload, written out. */
module PayloadText {
  import opened Bytes
  import opened Utf8
  import opened Hex
  import opened Decimals
  import opened JsonText
  import opened JsonWriter
  import opened JsonFields
  import opened PublicPayload
  import opened PayloadCodec
  import opened PayloadWriter

  /** A quoted key, its colon and its value. */
  function Keyed(key: string, value: bytes): bytes {
    [34] + Ascii(key) + [34, 58] + value
  }

  function HexText(b: bytes): bytes {
    [34] + ToHex(b) + [34]
  }

  /** Texts with commas between them. */
  function Commas(texts: seq<bytes>): bytes {
    if texts == [] then []
    else if |texts| == 1 then texts[0]
    else Commas(texts[..|texts| - 1]) + [44] + texts[|texts| - 1]
  }

  function RowText(r: Row): bytes {
    [123] + Commas([Keyed("label", Quoted(r.displayLabel)), Keyed("machine_id", HexText(r.machineId)),
                    Keyed("votes", Decimal(r.votes))]) + [125]
  }

  function RowTexts(rows: seq<Row>): (r: seq<bytes>)
    ensures |r| == |rows| && forall i :: 0 <= i < |rows| ==> r[i] == RowText(rows[i])
  {
    seq(|rows|, i requires 0 <= i < |rows| => RowText(rows[i]))
  }

  function ElectionTexts(p: Payload): (r: seq<bytes>)
    ensures |r| == 9
  {
    [Keyed("schema", Quoted(Ascii("TARI_CC_PRIVATE_BALLOT_OOTLE_ANCHOR_PUBLIC_V2"))),
     Keyed("version", Decimal(2)),
     Keyed("network", Quoted(p.network)),
     Keyed("election_id", Quoted(p.electionId)),
     Keyed("question", Quoted(p.question)),
     Keyed("eligible_voters", Decimal(p.eligible)),
     Keyed("accepted_ballots", Decimal(p.accepted)),
     Keyed("rejected_ballots", Decimal(p.rejected)),
     Keyed("results", [91] + Commas(RowTexts(p.tally)) + [93])]
  }

  function CommitmentTexts(p: Payload): (r: seq<bytes>)
    ensures |r| == 7
  {
    [Keyed("ballot_kind", Quoted(p.ballotKind)),
     Keyed("confidentiality_mode", Quoted(p.confidentiality)),
     Keyed("proof_suite", Quoted(p.proofSuite)),
     Keyed("manifest_hash", HexText(p.manifestHash)),
     Keyed("archive_hash", HexText(p.archiveHash)),
     Keyed("voter_registry_commitment", HexText(p.registry)),
     Keyed("ballot_option_commitment", HexText(p.optionSet))]
  }

  function FinalityTexts(p: Payload): (r: seq<bytes>)
    ensures |r| == 2
  {
    [Keyed("archive_finalized", Ascii(if p.finalized then "true" else "false")),
     Keyed("finalized_timestamp_unix_secs", if p.timestamp.Some? then Decimal(p.timestamp.value) else Ascii("null"))]
  }

  function BindingTexts(p: Payload): (r: seq<bytes>)
    ensures |r| == 5
  {
    [Keyed("template_address", Quoted(p.template.address)),
     Keyed("template_module", Quoted(p.template.moduleName)),
     Keyed("template_function", Quoted(p.template.functionName)),
     Keyed("template_event_topic", Quoted(p.template.topic)),
     Keyed("template_artifact_digest", HexText(p.template.artifact))]
  }

  /** The 23 fields in their order, in braces, and nothing else. */
  function PayloadText(p: Payload): bytes {
    [123] + Commas(ElectionTexts(p) + CommitmentTexts(p) + FinalityTexts(p) + BindingTexts(p)) + [125]
  }

  // ---------------------------------------------------------------------
  // The printed tree is that text
  // ---------------------------------------------------------------------

  lemma {:induction false} MembersText(members: seq<Member>, texts: seq<bytes>)
    requires |members| == |texts| && forall i :: 0 <= i < |texts| ==> PrintMember(members[i]) == texts[i]
    ensures PrintMembers(members, true) == Commas(texts)
    decreases |texts|
  {
    hide PrintMember;
    if texts != [] {
      var n := |texts| - 1;
      MembersText(members[..n], texts[..n]);
      assert members == members[..n] + [members[n]];
      MembersAppend(members[..n], true, members[n]);
      assert [] + texts[n] == texts[n];
    }
  }

  lemma {:induction false} ItemsText(items: seq<Json>, texts: seq<bytes>)
    requires |items| == |texts| && forall i :: 0 <= i < |texts| ==> Print(items[i]) == texts[i]
    ensures PrintItems(items, true) == Commas(texts)
    decreases |texts|
  {
    hide Print;
    if texts != [] {
      var n := |texts| - 1;
      ItemsText(items[..n], texts[..n]);
      assert items == items[..n] + [items[n]];
      ItemsAppend(items[..n], true, items[n]);
      assert [] + texts[n] == texts[n];
    }
  }

  lemma KeyedIs(key: string, j: Json)
    requires Plain(Ascii(key))
    ensures PrintMember(Member(Ascii(key), j)) == Keyed(key, Print(j))
  {
    hide Ascii, Print;
    PlainEscape(Ascii(key));
    assert Quoted(Ascii(key)) + [58] == [34] + Ascii(key) + [34, 58];
  }

  lemma RowKeysAre()
    ensures LabelKey() == Ascii("label") && MachineKey() == Ascii("machine_id") && VotesKey() == Ascii("votes")
  {
    hide Ascii;
  }

  lemma RowIs(r: Row)
    ensures Print(RowTree(r)) == RowText(r)
  {
    RowKeysPlain();
    RowKeysAre();
    hide LabelKey, MachineKey, VotesKey, Ascii, Plain, PrintMember, Keyed, Quoted, ToHex, Decimal;
    KeyedIs("label", Str(r.displayLabel));
    KeyedIs("machine_id", HexStr(r.machineId));
    KeyedIs("votes", Num(r.votes));
    var members := RowTree(r).members;
    var texts := [Keyed("label", Quoted(r.displayLabel)), Keyed("machine_id", HexText(r.machineId)), Keyed("votes", Decimal(r.votes))];
    assert PrintMember(members[0]) == texts[0] && PrintMember(members[1]) == texts[1] && PrintMember(members[2]) == texts[2];
    MembersText(members, texts);
  }

  lemma {:induction false} RowTreesAt(rows: seq<Row>)
    ensures |RowTrees(rows)| == |rows| && forall i :: 0 <= i < |rows| ==> RowTrees(rows)[i] == RowTree(rows[i])
  {
    hide RowTree;
    if rows != [] {
      RowTreesAt(rows[1..]);
    }
  }

  lemma ResultsIs(rows: seq<Row>)
    ensures Print(Arr(RowTrees(rows))) == [91] + Commas(RowTexts(rows)) + [93]
  {
    hide RowTree, RowText;
    RowTreesAt(rows);
    forall i | 0 <= i < |rows|
      ensures Print(RowTrees(rows)[i]) == RowTexts(rows)[i]
    {
      RowIs(rows[i]);
    }
    hide RowTexts, RowTrees;
    ItemsText(RowTrees(rows), RowTexts(rows));
  }

  lemma MemberIs(p: Payload, n: Name)
    ensures PrintMember(MemberOf(p, n)) == Keyed(Spelling(n), Print(Tree(ValueOf(p, n))))
  {
    hide Print, Spelling, ValueOf, KeyText, Plain, Keyed, PrintMember;
    KeyTextPlain(Spelling(n));
    KeyedIs(Spelling(n), Tree(ValueOf(p, n)));
  }

  lemma BoolIs(v: bool)
    ensures Print(Bool(v)) == Ascii(if v then "true" else "false")
    ensures Print(Null) == Ascii("null")
  {
  }

  lemma ElectionIs(p: Payload, i: nat)
    requires i < 9
    ensures PrintMember(MemberOf(p, NameOf(i))) == ElectionTexts(p)[i]
  {
    hide Ascii, Quoted, Keyed, MemberOf, PrintMember, RowTexts, RowTrees, Commas, Decimal;
    ResultsIs(p.tally);
    MemberIs(p, NameOf(i));
  }

  lemma CommitmentIs(p: Payload, i: nat)
    requires i < 7
    ensures PrintMember(MemberOf(p, NameOf(9 + i))) == CommitmentTexts(p)[i]
  {
    hide Ascii, Quoted, Keyed, MemberOf, PrintMember, ToHex;
    MemberIs(p, NameOf(9 + i));
  }

  lemma FinalityIs(p: Payload)
    ensures PrintMember(MemberOf(p, NameOf(16))) == FinalityTexts(p)[0]
    ensures PrintMember(MemberOf(p, NameOf(17))) == FinalityTexts(p)[1]
  {
    BoolIs(p.finalized);
    hide Ascii, Keyed, MemberOf, PrintMember, Decimal;
    MemberIs(p, ArchiveFinalizedKey);
    MemberIs(p, FinalizedTimestampUnixSecsKey);
  }

  lemma BindingIs(p: Payload, i: nat)
    requires i < 5
    ensures PrintMember(MemberOf(p, NameOf(18 + i))) == BindingTexts(p)[i]
  {
    hide Ascii, Quoted, Keyed, MemberOf, PrintMember, ToHex;
    MemberIs(p, NameOf(18 + i));
  }

  /** The printed tree of a payload is its text as written out above. */
  lemma TreeText(p: Payload)
    ensures Print(PayloadTree(p)) == PayloadText(p)
  {
    hide ElectionTexts, CommitmentTexts, FinalityTexts, BindingTexts, MemberOf, PrintMember, NameOf, Commas, PayloadTree;
    AllMembers(p);
    var members, texts := FirstMembers(p, 23), ElectionTexts(p) + CommitmentTexts(p) + FinalityTexts(p) + BindingTexts(p);
    forall i | 0 <= i < 23
      ensures PrintMember(members[i]) == texts[i]
    {
      if i < 9 {
        ElectionIs(p, i);
      } else if i < 16 {
        CommitmentIs(p, i - 9);
      } else if i < 18 {
        FinalityIs(p);
      } else {
        BindingIs(p, i - 18);
      }
    }
    MembersText(members, texts);
  }

  /**
   * What the encoder answers for every payload: the text above, or the error for a field out of
   * bounds, or the error for a text of more than 256 KiB.
   */
  lemma EncodeIs(p: Payload)
    ensures Encode(p) == Err(InvalidData) <==>
            || |p.electionId| == 0 || |p.electionId| > 128 || !ValidUtf8(p.electionId)
            || (exists i :: 0 <= i < |p.electionId| && p.electionId[i] < 32)
            || |p.question| > 8_192
            || |p.ballotKind| == 0 || |p.ballotKind| > 64
            || |p.confidentiality| == 0 || |p.confidentiality| > 64
            || |p.proofSuite| == 0 || |p.proofSuite| > 64
            || |p.tally| > 65_536
            || (exists i :: 0 <= i < |p.tally| &&
                  (|p.tally[i].displayLabel| > 1_024 || |p.tally[i].machineId| == 0 || |p.tally[i].machineId| > 64))
            || |p.template.address| == 0 || |p.template.address| > 512
            || |p.template.moduleName| == 0 || |p.template.moduleName| > 512
            || |p.template.functionName| == 0 || |p.template.functionName| > 512
            || |p.template.topic| == 0 || |p.template.topic| > 512
    ensures Encode(p) != Err(InvalidData) ==>
              Encode(p) == if |PayloadText(p)| <= 262_144 then Ok(PayloadText(p)) else Err(ProtocolLimitExceeded)
  {
    TreeText(p);
    hide Print, PayloadTree, PayloadText, ValidUtf8;
  }
}
