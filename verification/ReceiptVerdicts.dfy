/** What receipt verification answers to every receipt, spelled out on the bytes of its logs and events. */
module ReceiptVerdicts {
  import opened Bytes
  import opened Hex
  import opened AnchorReceipts
  import opened AnchorEvents

  // ---------------------------------------------------------------------
  // Where the marked entries stand
  // ---------------------------------------------------------------------

  ghost predicate Alone<T(!new)>(s: seq<T>, p: T -> bool, i: int) {
    0 <= i < |s| && p(s[i]) && forall j :: 0 <= j < |s| && j != i ==> !p(s[j])
  }

  ghost predicate Absent<T(!new)>(s: seq<T>, p: T -> bool) {
    forall i :: 0 <= i < |s| ==> !p(s[i])
  }

  /** The positions of the entries satisfying `p`, in order. */
  ghost function Positions<T>(s: seq<T>, p: T -> bool): (at: seq<nat>)
    ensures forall k :: 0 <= k < |at| ==> at[k] < |s| && p(s[at[k]])
    ensures forall k, l :: 0 <= k < l < |at| ==> at[k] < at[l]
    ensures forall i: nat :: i < |s| && p(s[i]) ==> i in at
  {
    if s == [] then []
    else
      var n := |s| - 1;
      var before := Positions(s[..n], p);
      if p(s[n]) then before + [n] else before
  }

  lemma PositionsNone<T(!new)>(s: seq<T>, p: T -> bool)
    ensures Absent(s, p) <==> Positions(s, p) == []
  {
    var at := Positions(s, p);
    if at != [] {
      assert p(s[at[0]]);
    } else {
      assert forall i: nat :: i < |s| && p(s[i]) ==> i in at;
    }
  }

  lemma PositionsAlone<T(!new)>(s: seq<T>, p: T -> bool, i: nat)
    ensures Alone(s, p, i) <==> Positions(s, p) == [i]
  {
    var at := Positions(s, p);
    assert forall j: nat :: j < |s| && p(s[j]) ==> j in at;
    if |at| > 1 {
      assert at[0] < at[1] && p(s[at[0]]) && p(s[at[1]]);
    } else if |at| == 1 {
      assert at == [at[0]] && p(s[at[0]]);
    }
  }

  lemma PositionsMany<T>(s: seq<T>, p: T -> bool, i: nat, j: nat)
    requires i < j < |s| && p(s[i]) && p(s[j])
    ensures |Positions(s, p)| > 1
  {
    var at := Positions(s, p);
    var k :| 0 <= k < |at| && at[k] == i;
    var l :| 0 <= l < |at| && at[l] == j;
  }

  // ---------------------------------------------------------------------
  // Logs
  // ---------------------------------------------------------------------

  predicate Claims(e: LogEntry) {
    StartsWith(e.message, Ascii("TARI_CC_PRIVATE_BALLOT_OOTLE_ANCHOR_V1:"))
  }

  predicate Spells(e: LogEntry, digest: bytes) {
    |digest| == 32 && e.message == Ascii("TARI_CC_PRIVATE_BALLOT_OOTLE_ANCHOR_V1:") + ToHex(digest)
  }

  ghost predicate Malformed(e: LogEntry) {
    Claims(e) && forall digest :: !Spells(e, digest)
  }

  lemma ClaimsIs(e: LogEntry, digest: bytes)
    ensures IsProjectLog(e) == Claims(e)
    ensures ParsePayload(e.message) == Ok(digest) <==> Spells(e, digest)
    ensures Spells(e, digest) ==> Claims(e)
  {
    hide ParsePayload, Prefix, Ascii, ToHex;
    PrefixIs();
    ParseIffEncoded(e.message, digest);
  }

  /** The answer of the strict parser to every text. */
  lemma PayloadVerdict(s: bytes)
    ensures match ParsePayload(s)
            case Ok(digest) => |digest| == 32 && s == Ascii("TARI_CC_PRIVATE_BALLOT_OOTLE_ANCHOR_V1:") + ToHex(digest)
            case Err(error) =>
              error ==
              if s == [] then EmptyPayload
              else if !StartsWith(s, Ascii("TARI_CC_PRIVATE_BALLOT_OOTLE_ANCHOR_V1")) then WrongPrefix
              else if !StartsWith(s, Ascii("TARI_CC_PRIVATE_BALLOT_OOTLE_ANCHOR_V1:")) then MissingSeparator
              else if |s| != 103 then DigestLength
              else NonLowercaseHexDigit
  {
    var p := Prefix();
    assert p == Ascii("TARI_CC_PRIVATE_BALLOT_OOTLE_ANCHOR_V1");
    PrefixIs();
    hide FromHex, ToHex, Ascii, Prefix;
    if ParsePayload(s).Ok? {
      ParseIffEncoded(s, ParsePayload(s).value);
    } else if StartsWith(s, p) {
      assert s == p + s[|p|..];
      assert StartsWith(s, p + [COLON]) <==> s[|p|..] != [] && s[|p|] == COLON;
    }
  }

  /** The parsed logs are those of the claiming entries, in order; one malformed entry spoils all. */
  lemma {:induction false} LogsParsed(logs: seq<LogEntry>)
    ensures SomeMalformed(logs) <==> ProjectLogs(logs) == Err(MalformedAnchorLog)
    ensures match ProjectLogs(logs)
            case Err(error) => error == MalformedAnchorLog
            case Ok(parsed) => Parses(logs, parsed)
  {
    hide Claims, Spells, ParsePayload, IsProjectLog, Parses, Malformed;
    if logs == [] {
      assert Parses([], []) by { NothingParsed(); }
    } else {
      var n := |logs| - 1;
      LogsParsed(logs[..n]);
      EntryParsed(logs[n]);
      SomeAppended(logs);
      hide SomeMalformed;
      if ProjectLogs(logs).Ok? {
        MoreParsed(logs, ProjectLogs(logs[..n]).value, ProjectLogs(logs).value);
      }
    }
  }

  lemma EntryParsed(e: LogEntry)
    ensures IsProjectLog(e) == Claims(e)
    ensures Malformed(e) <==> IsProjectLog(e) && ParsePayload(e.message).Err?
    ensures IsProjectLog(e) && ParsePayload(e.message).Ok? ==> Spells(e, ParsePayload(e.message).value)
  {
    hide Claims, Spells, ParsePayload, IsProjectLog;
    forall digest
      ensures ParsePayload(e.message) == Ok(digest) <==> Spells(e, digest)
      ensures Spells(e, digest) ==> Claims(e)
    {
      ClaimsIs(e, digest);
    }
    ClaimsIs(e, []);
  }

  lemma NothingParsed()
    ensures Parses([], [])
  {
  }

  lemma MoreParsed(logs: seq<LogEntry>, before: seq<bytes>, parsed: seq<bytes>)
    requires logs != [] && Parses(logs[..|logs| - 1], before)
    requires var e := logs[|logs| - 1];
             if Claims(e) then |parsed| == |before| + 1 && parsed[..|before|] == before && Spells(e, parsed[|before|])
             else parsed == before
    ensures Parses(logs, parsed)
  {
    hide Claims, Spells;
    var n := |logs| - 1;
    var at := Positions(logs[..n], Claims);
    forall k | 0 <= k < |at| ensures logs[..n][at[k]] == logs[at[k]] && (Claims(logs[n]) ==> parsed[k] == before[k]) {
    }
  }

  lemma SomeAppended(logs: seq<LogEntry>)
    requires logs != []
    ensures var n := |logs| - 1;
            SomeMalformed(logs) <==> SomeMalformed(logs[..n]) || Malformed(logs[n])
  {
    hide Malformed;
    var n := |logs| - 1;
    assert forall i :: 0 <= i < n ==> logs[..n][i] == logs[i];
    if i :| 0 <= i < n && Malformed(logs[..n][i]) {
      assert Malformed(logs[i]);
    }
  }

  /** The answer to a receipt whose header is wrong. */
  lemma HeaderVerdict(transaction: bytes, network: bytes, expected: bytes, template: bytes, payload: EventPayload, r: Receipt)
    ensures var v, w := VerifyReceipt(transaction, network, expected, r), VerifyEvent(transaction, network, template, payload, r);
            && (r.transaction != transaction ==> v == w == Err(WrongTransaction))
            && (r.transaction == transaction && r.network != network ==> v == w == Err(WrongNetwork))
            && (r.transaction == transaction && r.network == network && r.status == FeeOnlyStatus ==>
                  v == w == Err(FeeOnlyAcceptance))
            && (r.transaction == transaction && r.network == network && r.status == RejectedStatus ==>
                  v == w == Err(RejectedTransaction))
  {
    hide ProjectLogs, Candidates;
  }

  ghost predicate Headed(transaction: bytes, network: bytes, r: Receipt) {
    r.transaction == transaction && r.network == network && r.status == AcceptedStatus
  }

  /** All claiming entries carry the same message. */
  ghost predicate Unanimous(logs: seq<LogEntry>) {
    forall i, j :: 0 <= i < j < |logs| && Claims(logs[i]) && Claims(logs[j]) ==> logs[i].message == logs[j].message
  }

  ghost predicate SomeMalformed(logs: seq<LogEntry>) {
    exists i :: 0 <= i < |logs| && Malformed(logs[i])
  }

  /** The answer to every receipt with a right header, by its logs. */
  lemma LogVerdict(transaction: bytes, network: bytes, expected: bytes, r: Receipt)
    requires Headed(transaction, network, r)
    ensures var v := VerifyReceipt(transaction, network, expected, r);
            if SomeMalformed(r.logs) then v == Err(MalformedAnchorLog)
            else
              && (Absent(r.logs, Claims) ==> v == Err(MissingAnchorLog))
              && (forall i :: Alone(r.logs, Claims, i) ==>
                    v == if Spells(r.logs[i], expected) then Ok(Evidence(transaction, network, expected, r.ledger, r.source))
                         else Err(WrongAnchorDigest))
              && (forall i, j :: 0 <= i < j < |r.logs| && Claims(r.logs[i]) && Claims(r.logs[j]) ==>
                    v == Err(if Unanimous(r.logs) then DuplicateAnchorLogs else ConflictingAnchorLogs))
  {
    hide Claims, Spells, Malformed, ProjectLogs, Unanimous, OnlyDigest, Positions;
    LogsParsed(r.logs);
    if ProjectLogs(r.logs).Ok? {
      var parsed := ProjectLogs(r.logs).value;
      if Absent(r.logs, Claims) {
        PositionsNone(r.logs, Claims);
        assert OnlyDigest([], expected) == Err(MissingAnchorLog) by { NoDigest(expected); }
      }
      forall i | Alone(r.logs, Claims, i)
        ensures OnlyDigest(parsed, expected) == if Spells(r.logs[i], expected) then Ok(expected) else Err(WrongAnchorDigest)
      {
        AloneDigest(r.logs, parsed, expected, i);
      }
      forall i, j | 0 <= i < j < |r.logs| && Claims(r.logs[i]) && Claims(r.logs[j])
        ensures OnlyDigest(parsed, expected) == Err(if Unanimous(r.logs) then DuplicateAnchorLogs else ConflictingAnchorLogs)
      {
        ManyDigests(r.logs, parsed, expected, i, j);
      }
    }
  }

  ghost predicate Parses(logs: seq<LogEntry>, parsed: seq<bytes>) {
    var at := Positions(logs, Claims);
    |at| == |parsed| && forall k :: 0 <= k < |at| ==> Spells(logs[at[k]], parsed[k])
  }

  lemma NoDigest(expected: bytes)
    ensures OnlyDigest([], expected) == Err(MissingAnchorLog)
  {
  }

  lemma AloneDigest(logs: seq<LogEntry>, parsed: seq<bytes>, expected: bytes, i: nat)
    requires Parses(logs, parsed) && Alone(logs, Claims, i)
    ensures OnlyDigest(parsed, expected) == if Spells(logs[i], expected) then Ok(expected) else Err(WrongAnchorDigest)
  {
    hide Claims, Spells, AllEqual, Positions;
    PositionsAlone(logs, Claims, i);
    SpellsOnce(logs[i], parsed[0], expected);
  }

  lemma ManyDigests(logs: seq<LogEntry>, parsed: seq<bytes>, expected: bytes, i: nat, j: nat)
    requires Parses(logs, parsed) && i < j < |logs| && Claims(logs[i]) && Claims(logs[j])
    ensures OnlyDigest(parsed, expected) == Err(if Unanimous(logs) then DuplicateAnchorLogs else ConflictingAnchorLogs)
  {
    hide Claims, Spells, Unanimous, AllEqual, Positions;
    PositionsMany(logs, Claims, i, j);
    SameMessages(logs, parsed);
  }

  lemma SpellsOnce(e: LogEntry, d: bytes, digest: bytes)
    requires Spells(e, d)
    ensures Spells(e, digest) <==> d == digest
  {
    hide Spells;
    ClaimsIs(e, d);
    ClaimsIs(e, digest);
  }

  lemma SameMessages(logs: seq<LogEntry>, parsed: seq<bytes>)
    requires Parses(logs, parsed) && parsed != []
    ensures Unanimous(logs) <==> AllEqual(parsed)
  {
    hide Claims, Spells;
    var at := Positions(logs, Claims);
    if Unanimous(logs) {
      forall k | 0 <= k < |parsed| ensures parsed[k] == parsed[0] {
        assert k > 0 ==> at[0] < at[k];
        assert logs[at[k]].message == logs[at[0]].message;
        SpelledMessage(logs[at[k]], logs[at[0]], parsed[k], parsed[0]);
      }
    }
    if AllEqual(parsed) {
      forall i, j | 0 <= i < j < |logs| && Claims(logs[i]) && Claims(logs[j])
        ensures logs[i].message == logs[j].message
      {
        var k :| 0 <= k < |at| && at[k] == i;
        var l :| 0 <= l < |at| && at[l] == j;
        SpelledMessage(logs[i], logs[j], parsed[k], parsed[l]);
      }
    }
  }

  lemma SpelledMessage(a: LogEntry, b: LogEntry, d: bytes, d': bytes)
    requires Spells(a, d) && Spells(b, d')
    ensures a.message == b.message <==> d == d'
  {
    if a.message == b.message {
      assert Spells(b, d);
      SpellsOnce(b, d, d');
    }
  }

  // ---------------------------------------------------------------------
  // Events
  // ---------------------------------------------------------------------

  predicate OnTopic(e: Event) {
    e.topic == Ascii("TariPrivateBallotAnchorV2.TARI_CC_PRIVATE_BALLOT_OOTLE_ANCHOR_V2")
  }

  predicate IsDigestPair(p: Pair) {
    p.0 == Ascii("anchor_digest_v2")
  }

  /** The event is on the topic or has metadata under the digest key. */
  predicate Marked(e: Event) {
    OnTopic(e) || exists i :: 0 <= i < |e.metadata| && IsDigestPair(e.metadata[i])
  }

  /** Exactly one of template and topic is the pinned one. */
  predicate Offends(template: bytes, e: Event) {
    (e.template == template) != OnTopic(e)
  }

  ghost predicate FirstOffender(template: bytes, events: seq<Event>, i: nat) {
    i < |events| && Offends(template, events[i]) && forall j :: 0 <= j < i ==> !Offends(template, events[j])
  }

  lemma LiteralEvent(template: bytes, e: Event)
    ensures EventRefusal(template, e) ==
            if !Offends(template, e) then None else Some(if e.template == template then WrongEventTopic else WrongEventTemplate)
    ensures IsCandidate(e) == Marked(e)
    ensures OnTopic(e) == (e.topic == Topic())
  {
    hide Ascii;
  }

  /** Without offenders the candidates are the marked events, in order. */
  lemma {:induction false} MarkedKept(template: bytes, events: seq<Event>)
    requires Absent(events, e => Offends(template, e))
    ensures var c, at := Candidates(template, events), Positions(events, Marked);
            c.Ok? && |at| == |c.value| && forall k :: 0 <= k < |at| ==> c.value[k] == events[at[k]]
  {
    hide EventRefusal, IsCandidate, Offends, Marked;
    if events != [] {
      var n := |events| - 1;
      assert forall i :: 0 <= i < n ==> events[..n][i] == events[i];
      MarkedKept(template, events[..n]);
      assert !Offends(template, events[n]);
      LiteralEvent(template, events[n]);
    }
  }

  lemma FirstRefusal(template: bytes, events: seq<Event>, i: nat)
    requires FirstOffender(template, events, i)
    ensures Candidates(template, events) ==
            Err(if events[i].template == template then WrongEventTopic else WrongEventTemplate)
  {
    hide EventRefusal, IsCandidate, Offends, Marked;
    var before := events[..i];
    assert forall j :: 0 <= j < i ==> before[j] == events[j];
    MarkedKept(template, before);
    LiteralEvent(template, events[i]);
    assert events[..i + 1][..i] == before;
    RefusalStays(template, events, i + 1);
  }

  /** The four pairs an anchoring event must carry. */
  function AnchorPairs(p: EventPayload): seq<Pair> {
    [(Ascii("anchor_digest_v2"), ToHex(p.digest)), (Ascii("network"), p.network),
     (Ascii("election_id"), p.electionId), (Ascii("public_summary"), p.summary)]
  }

  /** The digest key occurs once, with another value. */
  ghost predicate OtherDigest(metadata: seq<Pair>, p: EventPayload) {
    exists i :: Alone(metadata, IsDigestPair, i) && metadata[i].1 != ToHex(p.digest)
  }

  /** The answer to the only marked event. */
  ghost function SoleVerdict(payload: EventPayload, e: Event): Option<VerificationError> {
    if !OnTopic(e) then Some(WrongEventTemplate)
    else if |e.metadata| != 4 then Some(UnexpectedEventMetadata)
    else if multiset(e.metadata) == multiset(AnchorPairs(payload)) then None
    else Some(if OtherDigest(e.metadata, payload) then WrongAnchorDigest else MalformedAnchorEvent)
  }

  lemma PairsAre(payload: EventPayload)
    ensures ExpectedPairs(payload) == AnchorPairs(payload)
  {
  }

  lemma {:induction false} DigestCount(metadata: seq<Pair>)
    ensures CountKey(metadata, DigestKey()) == |Positions(metadata, IsDigestPair)|
  {
    if metadata != [] {
      DigestCount(metadata[..|metadata| - 1]);
      assert DigestKey() == Ascii("anchor_digest_v2");
      hide DigestKey, Ascii;
    }
  }

  lemma DigestRefusal(metadata: seq<Pair>, payload: EventPayload)
    ensures var pair := (DigestKey(), ToHex(payload.digest));
            && (PairRefusal(metadata, pair) == Some(WrongAnchorDigest) <==> OtherDigest(metadata, payload))
            && (PairRefusal(metadata, pair) in {None, Some(WrongAnchorDigest), Some(MalformedAnchorEvent)})
  {
    assert DigestKey() == Ascii("anchor_digest_v2");
    hide DigestKey, Ascii, ToHex, CountKey, Positions;
    var key, value := DigestKey(), ToHex(payload.digest);
    DigestCount(metadata);
    var at := Positions(metadata, IsDigestPair);
    if OtherDigest(metadata, payload) {
      var i :| Alone(metadata, IsDigestPair, i) && metadata[i].1 != value;
      PositionsAlone(metadata, IsDigestPair, i);
      forall j | 0 <= j < |metadata| ensures metadata[j] != (key, value) {
        assert j != i ==> !IsDigestPair(metadata[j]);
      }
    }
    if |at| == 1 && (key, value) !in metadata {
      PositionsAlone(metadata, IsDigestPair, at[0]);
      assert at == [at[0]];
      assert metadata[at[0]] == (key, metadata[at[0]].1);
    }
  }

  lemma PairsErrors(metadata: seq<Pair>, payload: EventPayload)
    ensures var r := PairsRefusal(metadata, ExpectedPairs(payload));
            r == None || r == Some(if OtherDigest(metadata, payload) then WrongAnchorDigest else MalformedAnchorEvent)
  {
    hide OtherDigest, ToHex, CountKey, DigestKey;
    DigestRefusal(metadata, payload);
    var e := ExpectedPairs(payload);
    var one := [e[0]];
    assert e[0] == (DigestKey(), ToHex(payload.digest));
    assert one[..0] == [];
    assert PairsRefusal(metadata, one) == PairRefusal(metadata, e[0]);
    LaterErrors(metadata, payload, 4);
    assert e[..4] == e;
    hide PairRefusal, ExpectedPairs;
    if PairRefusal(metadata, e[0]).Some? {
      assert e[..1] == one;
      PairRefusalStays(metadata, e, 1);
    }
  }

  lemma {:induction false} LaterErrors(metadata: seq<Pair>, payload: EventPayload, n: nat)
    requires 1 <= n <= 4
    ensures var e := ExpectedPairs(payload);
            PairRefusal(metadata, e[0]) == None ==> PairsRefusal(metadata, e[..n]) in {None, Some(MalformedAnchorEvent)}
  {
    hide ToHex, CountKey, DigestKey;
    var e := ExpectedPairs(payload);
    assert |e[n - 1].0| == 16 <==> n == 1;
    hide ExpectedPairs;
    assert e[..n][..n - 1] == e[..n - 1];
    if n > 1 {
      LaterErrors(metadata, payload, n - 1);
    } else {
      assert e[..0] == [];
    }
  }

  lemma SoleIs(template: bytes, payload: EventPayload, e: Event)
    requires !Offends(template, e)
    ensures MetadataRefusal(template, payload, e) == SoleVerdict(payload, e)
  {
    hide OtherDigest, PairsRefusal, Ascii, ExpectedPairs, AnchorPairs;
    LiteralEvent(template, e);
    PairsAre(payload);
    PairsErrors(e.metadata, payload);
    MetadataAccepted(template, payload, e);
  }

  /** The answer to a right header and an offending event: the first of them decides. */
  lemma OffenderVerdict(transaction: bytes, network: bytes, template: bytes, payload: EventPayload, r: Receipt, i: nat)
    requires Headed(transaction, network, r) && FirstOffender(template, r.events, i)
    ensures VerifyEvent(transaction, network, template, payload, r) ==
            Err(if r.events[i].template == template then WrongEventTopic else WrongEventTemplate)
  {
    hide Candidates, MetadataRefusal, FirstOffender;
    FirstRefusal(template, r.events, i);
  }

  /** The answer to every other receipt with a right header, by its marked events. */
  lemma EventVerdict(transaction: bytes, network: bytes, template: bytes, payload: EventPayload, r: Receipt)
    requires Headed(transaction, network, r) && Absent(r.events, e => Offends(template, e))
    ensures var v := VerifyEvent(transaction, network, template, payload, r);
            && (Absent(r.events, Marked) ==> v == Err(MissingAnchorEvent))
            && (forall i, j :: 0 <= i < j < |r.events| && Marked(r.events[i]) && Marked(r.events[j]) ==>
                  v == Err(DuplicateAnchorEvents))
            && (forall i :: Alone(r.events, Marked, i) ==>
                  v == match SoleVerdict(payload, r.events[i])
                       case None => Ok(Evidence(transaction, network, payload.digest, r.ledger, r.source))
                       case Some(error) => Err(error))
  {
    hide Candidates, MetadataRefusal, SoleVerdict, Offends, Marked, Positions;
    var events := r.events;
    MarkedKept(template, events);
    if Absent(events, Marked) {
      PositionsNone(events, Marked);
    }
    forall i, j | 0 <= i < j < |events| && Marked(events[i]) && Marked(events[j])
      ensures |Candidates(template, events).value| > 1
    {
      PositionsMany(events, Marked, i, j);
    }
    forall i | Alone(events, Marked, i)
      ensures Candidates(template, events).value == [events[i]]
      ensures MetadataRefusal(template, payload, events[i]) == SoleVerdict(payload, events[i])
    {
      PositionsAlone(events, Marked, i);
      SoleIs(template, payload, events[i]);
    }
  }
}
