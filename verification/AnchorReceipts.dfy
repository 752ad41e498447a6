/** Anchor log payloads, receipts and their verification. */
module AnchorReceipts {
  import opened Bytes
  import opened Hex
  import opened AnchorStore

  // ---------------------------------------------------------------------
  // Log payload
  // ---------------------------------------------------------------------

  datatype PayloadError = EmptyPayload | WrongPrefix | MissingSeparator | DigestLength | NonLowercaseHexDigit

  const COLON: byte := 58

  function Prefix(): (r: bytes)
    ensures |r| == 38 && r[0] == 84
  {
    Ascii("TARI_CC_PRIVATE_BALLOT_OOTLE_ANCHOR_V1")
  }

  lemma PrefixIs()
    ensures Prefix() + [COLON] == Ascii("TARI_CC_PRIVATE_BALLOT_OOTLE_ANCHOR_V1:")
  {
  }

  function EncodePayload(digest: bytes): bytes {
    Prefix() + [COLON] + ToHex(digest)
  }

  function ParsePayload(s: bytes): Result<bytes, PayloadError> {
    if s == [] then Err(EmptyPayload)
    else if !StartsWith(s, Prefix()) then Err(WrongPrefix)
    else
      var rest := s[|Prefix()|..];
      if rest == [] || rest[0] != COLON then Err(MissingSeparator)
      else if |rest[1..]| != 64 then Err(DigestLength)
      else match FromHex(rest[1..])
        case None => Err(NonLowercaseHexDigit)
        case Some(d) => Ok(d)
  }

  /** The strict parser accepts the encoding of 32-byte digests and nothing else. */
  lemma ParseIffEncoded(s: bytes, digest: bytes)
    ensures ParsePayload(s) == Ok(digest) <==> |digest| == 32 && s == EncodePayload(digest)
  {
    hide Prefix, FromHex, ToHex;
    var p := Prefix();
    if ParsePayload(s) == Ok(digest) {
      var hex := s[|p|..][1..];
      FromToHex(hex);
      assert s == p + [COLON] + hex;
    }
    if |digest| == 32 && s == EncodePayload(digest) {
      ToFromHex(digest);
      assert s[..|p|] == p && s[|p|..] == [COLON] + ToHex(digest);
      assert s[|p|..][1..] == ToHex(digest);
    }
  }

  // ---------------------------------------------------------------------
  // Receipts
  // ---------------------------------------------------------------------

  datatype LogLevel = ErrorLevel | Warn | Info | Debug
  datatype LogEntry = LogEntry(level: LogLevel, message: bytes)
  datatype FinalStatus = AcceptedStatus | FeeOnlyStatus | RejectedStatus

  datatype Event = Event(
    template: bytes, topic: bytes, metadata: seq<(bytes, bytes)>, index: nat, epoch: nat, commitment: bytes)

  datatype Receipt = Receipt(
    transaction: bytes, network: bytes, status: FinalStatus, logs: seq<LogEntry>,
    reason: Option<bytes>, ledger: Option<nat>, source: SourceKind, events: seq<Event>)

  datatype QueryOutcome = NotFound | StillOpen | Finalized(receipt: Receipt) | UnknownOutcome
  datatype QueryError = Unavailable

  datatype VerificationError =
    | WrongTransaction | WrongNetwork | NotFinal | FeeOnlyAcceptance | RejectedTransaction
    | MissingAnchorLog | MalformedAnchorLog | WrongAnchorDigest | DuplicateAnchorLogs | ConflictingAnchorLogs
    | MissingAnchorEvent | WrongEventTemplate | WrongEventTopic | MalformedAnchorEvent
    | UnexpectedEventMetadata | DuplicateAnchorEvents

  datatype Evidence = Evidence(
    transaction: bytes, network: bytes, digest: bytes, ledger: Option<nat>, source: SourceKind)

  // ---------------------------------------------------------------------
  // Log verification
  // ---------------------------------------------------------------------

  predicate IsProjectLog(e: LogEntry) {
    StartsWith(e.message, Prefix() + [COLON])
  }

  function ProjectLogs(logs: seq<LogEntry>): Result<seq<bytes>, VerificationError> {
    if logs == [] then Ok([])
    else
      var n := |logs| - 1;
      var before :- ProjectLogs(logs[..n]);
      if !IsProjectLog(logs[n]) then Ok(before)
      else match ParsePayload(logs[n].message)
        case Err(_) => Err(MalformedAnchorLog)
        case Ok(d) => Ok(before + [d])
  }

  method ParseProjectLogs(logs: seq<LogEntry>) returns (r: Result<seq<bytes>, VerificationError>)
    ensures r == ProjectLogs(logs)
  {
    hide ParsePayload, IsProjectLog;
    var parsed: seq<bytes> := [];
    for i := 0 to |logs|
      invariant ProjectLogs(logs[..i]) == Ok(parsed)
    {
      assert logs[..i + 1][..i] == logs[..i];
      if IsProjectLog(logs[i]) {
        var payload := ParsePayload(logs[i].message);
        if payload.Err? {
          ErrorStays(logs, i + 1);
          return Err(MalformedAnchorLog);
        }
        parsed := parsed + [payload.value];
      }
    }
    assert logs[..|logs|] == logs;
    return Ok(parsed);
  }

  lemma {:induction false} ErrorStays(logs: seq<LogEntry>, n: nat)
    requires n <= |logs| && ProjectLogs(logs[..n]).Err?
    ensures ProjectLogs(logs) == ProjectLogs(logs[..n])
    decreases |logs|
  {
    hide ParsePayload, IsProjectLog;
    if n < |logs| {
      var m := |logs| - 1;
      assert logs[..m][..n] == logs[..n];
      ErrorStays(logs[..m], n);
    } else {
      assert logs[..n] == logs;
    }
  }

  predicate AllEqual(s: seq<bytes>)
    requires s != []
  {
    forall i :: 0 <= i < |s| ==> s[i] == s[0]
  }

  /** The digest of the only project log. */
  function OnlyDigest(parsed: seq<bytes>, expected: bytes): Result<bytes, VerificationError> {
    if parsed == [] then Err(MissingAnchorLog)
    else if |parsed| == 1 then (if parsed[0] != expected then Err(WrongAnchorDigest) else Ok(parsed[0]))
    else if AllEqual(parsed) then Err(DuplicateAnchorLogs)
    else Err(ConflictingAnchorLogs)
  }

  /** The checks shared by log and event verification. */
  function HeaderRefusal(transaction: bytes, network: bytes, r: Receipt): Option<VerificationError> {
    if r.transaction != transaction then Some(WrongTransaction)
    else if r.network != network then Some(WrongNetwork)
    else match r.status
      case AcceptedStatus => None
      case FeeOnlyStatus => Some(FeeOnlyAcceptance)
      case RejectedStatus => Some(RejectedTransaction)
  }

  function VerifyReceipt(transaction: bytes, network: bytes, expected: bytes, r: Receipt)
    : Result<Evidence, VerificationError>
  {
    var refusal := HeaderRefusal(transaction, network, r);
    if refusal.Some? then Err(refusal.value)
    else
      var parsed :- ProjectLogs(r.logs);
      var digest :- OnlyDigest(parsed, expected);
      Ok(Evidence(r.transaction, r.network, digest, r.ledger, r.source))
  }

  function VerifyOutcome(transaction: bytes, network: bytes, expected: bytes, o: QueryOutcome)
    : Result<Evidence, VerificationError>
  {
    match o
    case Finalized(r) => VerifyReceipt(transaction, network, expected, r)
    case _ => Err(NotFinal)
  }

  /** The bag of project digests; `None` when some project log is malformed. */
  function LogBag(logs: seq<LogEntry>): Option<multiset<bytes>> {
    if logs == [] then Some(multiset{}) else Joined(LogBag(logs[..|logs| - 1]), EntryBag(logs[|logs| - 1]))
  }

  function EntryBag(e: LogEntry): Option<multiset<bytes>> {
    if !IsProjectLog(e) then Some(multiset{})
    else match ParsePayload(e.message)
      case Err(_) => None
      case Ok(d) => Some(multiset{d})
  }

  function Joined(a: Option<multiset<bytes>>, b: Option<multiset<bytes>>): Option<multiset<bytes>> {
    if a.Some? && b.Some? then Some(a.value + b.value) else None
  }

  lemma {:induction false} ProjectLogsBag(logs: seq<LogEntry>)
    ensures LogBag(logs) == match ProjectLogs(logs) case Ok(p) => Some(multiset(p)) case Err(_) => None
    ensures ProjectLogs(logs).Err? ==> ProjectLogs(logs).error == MalformedAnchorLog
  {
    hide ParsePayload, IsProjectLog;
    if logs != [] {
      var n := |logs| - 1;
      ProjectLogsBag(logs[..n]);
      if ProjectLogs(logs[..n]).Ok? {
        var before := ProjectLogs(logs[..n]).value;
        assert multiset(before) + multiset{} == multiset(before);
        assert forall d :: multiset(before + [d]) == multiset(before) + multiset{d};
      }
    }
  }

  lemma {:induction false} LogBagAppend(a: seq<LogEntry>, b: seq<LogEntry>)
    ensures LogBag(a + b) == Joined(LogBag(a), LogBag(b))
    decreases |b|
  {
    hide EntryBag;
    if b == [] {
      assert a + b == a;
      JoinedLaws(LogBag(a), None, None);
    } else {
      var n := |b| - 1;
      assert (a + b)[..|a + b| - 1] == a + b[..n];
      LogBagAppend(a, b[..n]);
      JoinedLaws(LogBag(a), LogBag(b[..n]), EntryBag(b[n]));
    }
  }

  lemma {:induction false} LogBagPermutes(a: seq<LogEntry>, b: seq<LogEntry>)
    requires multiset(a) == multiset(b)
    ensures LogBag(a) == LogBag(b)
    decreases |a|
  {
    hide EntryBag;
    if a == [] {
      assert |multiset(b)| == 0;
    } else {
      var n := |a| - 1;
      var x := a[n];
      assert x in multiset(b);
      var i :| 0 <= i < |b| && b[i] == x;
      var rest := b[..i] + b[i + 1..];
      RemovedLast(a, b, i);
      LogBagPermutes(a[..n], rest);
      LogBagTakeOut(b, i);
    }
  }

  /** Any entry may be counted last. */
  lemma LogBagTakeOut(b: seq<LogEntry>, i: nat)
    requires i < |b|
    ensures LogBag(b) == Joined(LogBag(b[..i] + b[i + 1..]), EntryBag(b[i]))
  {
    hide EntryBag;
    var front, back := b[..i + 1], b[i + 1..];
    assert b == front + back && front[..i] == b[..i] && front[i] == b[i];
    LogBagAppend(front, back);
    LogBagAppend(b[..i], back);
    JoinedLaws(LogBag(b[..i]), LogBag(back), EntryBag(b[i]));
    assert LogBag(front) == Joined(LogBag(b[..i]), EntryBag(b[i]));
  }

  lemma JoinedLaws(a: Option<multiset<bytes>>, b: Option<multiset<bytes>>, c: Option<multiset<bytes>>)
    ensures Joined(a, Some(multiset{})) == a
    ensures Joined(a, Joined(b, c)) == Joined(Joined(a, b), c)
    ensures Joined(Joined(a, c), b) == Joined(Joined(a, b), c)
  {
    if a.Some? {
      assert a.value + multiset{} == a.value;
      if b.Some? && c.Some? {
        assert a.value + (b.value + c.value) == a.value + b.value + c.value == a.value + c.value + b.value;
      }
    }
  }

  lemma OnlyDigestPermutes(p: seq<bytes>, q: seq<bytes>, expected: bytes)
    requires multiset(p) == multiset(q)
    ensures OnlyDigest(p, expected) == OnlyDigest(q, expected)
  {
    assert |multiset(p)| == |p| && |multiset(q)| == |q|;
    if p != [] {
      assert forall i :: 0 <= i < |q| ==> q[i] in multiset(p);
      assert forall i :: 0 <= i < |p| ==> p[i] in multiset(q);
      assert forall i :: 0 <= i < |q| ==> q[i] in p;
      assert forall i :: 0 <= i < |p| ==> p[i] in q;
    }
  }

  /** Log order affects neither the verdict nor the error nor the evidence. */
  lemma LogOrderIsIrrelevant(transaction: bytes, network: bytes, expected: bytes, r: Receipt, logs: seq<LogEntry>)
    requires multiset(logs) == multiset(r.logs)
    ensures VerifyReceipt(transaction, network, expected, r.(logs := logs)) ==
            VerifyReceipt(transaction, network, expected, r)
  {
    hide ProjectLogs, LogBag, OnlyDigest;
    ProjectLogsBag(logs);
    ProjectLogsBag(r.logs);
    LogBagPermutes(logs, r.logs);
    if ProjectLogs(logs).Ok? {
      OnlyDigestPermutes(ProjectLogs(logs).value, ProjectLogs(r.logs).value, expected);
    }
  }

  /** A verified receipt carries exactly one project log, and it spells the expected digest. */
  lemma VerifiedIff(transaction: bytes, network: bytes, expected: bytes, r: Receipt)
    ensures VerifyReceipt(transaction, network, expected, r).Ok? <==>
            && r.transaction == transaction && r.network == network && r.status.AcceptedStatus?
            && LogBag(r.logs) == Some(multiset{expected})
    ensures var v := VerifyReceipt(transaction, network, expected, r);
            v.Ok? ==> v.value == Evidence(transaction, network, expected, r.ledger, r.source)
  {
    hide ProjectLogs, LogBag;
    ProjectLogsBag(r.logs);
    if ProjectLogs(r.logs).Ok? {
      var p := ProjectLogs(r.logs).value;
      assert |multiset(p)| == |p|;
      if multiset(p) == multiset{expected} {
        assert p[0] in multiset(p);
      }
      if |p| == 1 {
        assert p == [p[0]];
      }
    }
  }
}
