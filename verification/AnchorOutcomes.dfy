/** What receipt verification and snapshots say, in terms of the calls made on the store. */
module AnchorOutcomes {
  import opened Bytes
  import opened Hex
  import opened AnchorIds
  import opened AnchorStore
  import opened AnchorReuse
  import opened AnchorRuns
  import opened AnchorVerdicts
  import opened AnchorReceipts
  import opened AnchorRestart

  /** A sealed request: its record and the index entry of its transaction. */
  lemma SealedRecord(h: Hash, source: SourceKind, steps: seq<Step>, id: bytes, b: Binding)
    requires Injective(h) && Admissible(h, Start(source), steps)
    requires WasCreated(h, source, steps, id, b) && WasSealed(h, source, steps, id)
    ensures var s := Run(h, Start(source), steps).store;
            var t := TransactionId(h, id, b.digest);
            && id in s.records && s.records[id].binding == b && s.records[id].submitted
            && s.records[id].transaction == Some(t)
            && t in s.byTransaction && s.byTransaction[t] == id
            && s.records[id].finality == LastFinality(h, source, steps, id)
            && |b.digest| == 32
  {
    hide Run, WasCreated, WasSealed, LastFinality, WellTyped, TransactionsSound, TransactionId;
    var e := Run(h, Start(source), steps);
    StoredMeans(h, source, steps, id, b);
    SubmittedIs(h, source, steps, id);
    FinalityIs(h, source, steps, id);
    assert Reachable(h, e);
    hide Reachable;
    AllConsistent(h, e, id);
    StoreTransactionsSound(h, e);
    SealedRequest(h, e.store, id);
    SealedId(h, e.store, id);
    DigestWidth(h, e, id);
  }

  lemma SealedId(h: Hash, s: Store, id: bytes)
    requires TransactionsSound(h, s) && id in s.records && s.records[id].transaction.Some?
    ensures s.records[id].transaction == Some(TransactionId(h, id, s.records[id].binding.digest))
  {
    hide TransactionId;
    assert TransactionSound(h, s, id, s.records[id]);
  }

  /** What the source reports for the transaction of a sealed request, by its last scripted finality. */
  lemma QueryAnswers(h: Hash, source: SourceKind, steps: seq<Step>, id: bytes, b: Binding)
    requires Injective(h) && Admissible(h, Start(source), steps) && !SwitchedOff(steps)
    requires WasCreated(h, source, steps, id, b) && WasSealed(h, source, steps, id)
    ensures var t := TransactionId(h, id, b.digest);
            QueryReceipt(Run(h, Start(source), steps).store, t) ==
            Ok(match LastFinality(h, source, steps, id)
               case NotFinalized => StillOpen
               case Unknown => UnknownOutcome
               case Accepted =>
                 var anchor := Ascii("TARI_CC_PRIVATE_BALLOT_OOTLE_ANCHOR_V1:") + ToHex(b.digest);
                 Finalized(Receipt(t, b.network, AcceptedStatus, [LogEntry(Info, Ascii("transaction executed")), LogEntry(Info, anchor)],
                                   None, Some(1), source, []))
               case FeeOnly =>
                 Finalized(Receipt(t, b.network, FeeOnlyStatus, [LogEntry(Warn, Ascii("fee intent committed; main intent rejected"))],
                                   Some(Ascii("main intent rejected after fee")), Some(1), source, []))
               case Refused =>
                 Finalized(Receipt(t, b.network, RejectedStatus, [], Some(Ascii("execution failure")), None, source, [])))
  {
    hide Run, WasCreated, WasSealed, LastFinality, WellTyped, TransactionId, SwitchedOff, Prefix, ToHex, Ascii;
    SealedRecord(h, source, steps, id, b);
    SwitchesAre(h, source, steps);
    PrefixIs();
  }

  /** Verifying what the source reports for the transaction of a sealed request, by its last scripted finality. */
  lemma OutcomeAnswers(h: Hash, source: SourceKind, steps: seq<Step>, id: bytes, b: Binding, network: bytes, digest: bytes)
    requires Injective(h) && Admissible(h, Start(source), steps) && !SwitchedOff(steps)
    requires WasCreated(h, source, steps, id, b) && WasSealed(h, source, steps, id)
    ensures var t := TransactionId(h, id, b.digest);
            var answer := QueryReceipt(Run(h, Start(source), steps).store, t);
            && answer.Ok?
            && VerifyOutcome(t, network, digest, answer.value) ==
               match LastFinality(h, source, steps, id)
               case NotFinalized => Err(NotFinal)
               case Unknown => Err(NotFinal)
               case Accepted =>
                 if network != b.network then Err(WrongNetwork)
                 else if digest != b.digest then Err(WrongAnchorDigest)
                 else Ok(Evidence(t, network, digest, Some(1), source))
               case FeeOnly => Err(if network != b.network then WrongNetwork else FeeOnlyAcceptance)
               case Refused => Err(if network != b.network then WrongNetwork else RejectedTransaction)
  {
    hide Run, WasCreated, WasSealed, LastFinality, WellTyped, TransactionId, SwitchedOff, VerifyReceipt, AcceptedReceipt;
    var s := Run(h, Start(source), steps).store;
    var t := TransactionId(h, id, b.digest);
    SealedRecord(h, source, steps, id, b);
    SwitchesAre(h, source, steps);
    AcceptedAnswers(s.records[id], t, source, network, digest);
    RefusedAnswers(s.records[id], t, source, network, digest);
  }

  lemma AcceptedAnswers(r: Record, t: bytes, source: SourceKind, network: bytes, digest: bytes)
    requires |r.binding.digest| == 32
    ensures VerifyReceipt(t, network, digest, AcceptedReceipt(r, t, source)) ==
            if network != r.binding.network then Err(WrongNetwork)
            else if digest != r.binding.digest then Err(WrongAnchorDigest)
            else Ok(Evidence(t, network, digest, Some(1), source))
  {
    hide Prefix, EncodePayload, ParsePayload, IsProjectLog;
    var receipt := AcceptedReceipt(r, t, source);
    AcceptedLogs(r, t, source);
  }

  /** The accepted receipt has one project log, the request's digest. */
  lemma AcceptedLogs(r: Record, t: bytes, source: SourceKind)
    requires |r.binding.digest| == 32
    ensures ProjectLogs(AcceptedReceipt(r, t, source).logs) == Ok([r.binding.digest])
  {
    hide Prefix;
    var logs := AcceptedReceipt(r, t, source).logs;
    PlainLogIgnored(logs[0]);
    assert IsProjectLog(logs[1]);
    ParseIffEncoded(logs[1].message, r.binding.digest);
    hide IsProjectLog, ParsePayload, EncodePayload;
    assert logs[..1] == [logs[0]] && logs[..1][..0] == [];
    assert ProjectLogs(logs[..1]) == Ok([]);
    assert [] + [r.binding.digest] == [r.binding.digest];
  }

  lemma RefusedAnswers(r: Record, t: bytes, source: SourceKind, network: bytes, digest: bytes)
    ensures VerifyReceipt(t, network, digest, FeeOnlyReceipt(r, t, source)) ==
            Err(if network != r.binding.network then WrongNetwork else FeeOnlyAcceptance)
    ensures VerifyReceipt(t, network, digest, RejectedReceipt(r, t, source)) ==
            Err(if network != r.binding.network then WrongNetwork else RejectedTransaction)
  {
    hide ProjectLogs;
  }

  /** A transaction that is no sealed request's is reported as not found, and verifies as not final. */
  lemma UnknownTransaction(h: Hash, source: SourceKind, steps: seq<Step>, t: bytes, network: bytes, digest: bytes)
    requires Injective(h) && Admissible(h, Start(source), steps) && !SwitchedOff(steps)
    requires forall id, b :: WasCreated(h, source, steps, id, b) && WasSealed(h, source, steps, id) ==> t != TransactionId(h, id, b.digest)
    ensures QueryReceipt(Run(h, Start(source), steps).store, t) == Ok(NotFound)
    ensures VerifyOutcome(t, network, digest, NotFound) == Err(NotFinal)
  {
    hide Run, WasCreated, WasSealed, WellTyped, TransactionsSound, TransactionId, SwitchedOff;
    var e := Run(h, Start(source), steps);
    SwitchesAre(h, source, steps);
    assert Reachable(h, e);
    hide Reachable;
    StoreTransactionsSound(h, e);
    if t in e.store.byTransaction {
      var id := e.store.byTransaction[t];
      IndexedRequest(h, e.store, t);
      AllConsistent(h, e, id);
      SealedId(h, e.store, id);
      StoredMeans(h, source, steps, id, e.store.records[id].binding);
      SubmittedIs(h, source, steps, id);
    }
  }

  /** A switched-off source answers nothing but that. */
  lemma UnavailableSource(h: Hash, source: SourceKind, steps: seq<Step>, t: bytes)
    requires SwitchedOff(steps)
    ensures QueryReceipt(Run(h, Start(source), steps).store, t) == Err(Unavailable)
  {
    hide Run, SwitchedOff;
    SwitchesAre(h, source, steps);
  }

  /** A snapshot, read off the calls. */
  lemma SnapshotIs(h: Hash, source: SourceKind, steps: seq<Step>, id: bytes, b: Binding)
    requires Injective(h) && Admissible(h, Start(source), steps) && WasCreated(h, source, steps, id, b)
    ensures var s := Run(h, Start(source), steps).store;
            var sealed, finality := WasSealed(h, source, steps, id), LastFinality(h, source, steps, id);
            && id in s.records
            && SnapshotOf(id, s.records[id]) == Snapshot(
                 id, b,
                 if WasExpired(h, source, steps, id) then UnknownState
                 else if WasApproved(h, source, steps, id) then
                   (if !sealed then ApprovedState
                    else match finality
                      case NotFinalized => SubmittedState
                      case Unknown => UnknownState
                      case Accepted => FinalizedAccept
                      case FeeOnly => FinalizedFeeOnly
                      case Refused => FinalizedReject)
                 else if WasRejected(h, source, steps, id) then RejectedByApprover
                 else PreparedState,
                 if sealed then Some(TransactionId(h, id, b.digest)) else None,
                 if sealed && finality == Accepted then Some(AcceptedStatus)
                 else if sealed && finality == FeeOnly then Some(FeeOnlyStatus)
                 else if sealed && finality == Refused then Some(RejectedStatus)
                 else None)
  {
    hide Run, WasCreated, WasSealed, WasExpired, WasApproved, WasRejected, LastFinality, WellTyped, TransactionsSound, TransactionId;
    var e := Run(h, Start(source), steps);
    StoredMeans(h, source, steps, id, b);
    SubmittedIs(h, source, steps, id);
    FinalityIs(h, source, steps, id);
    DecisionIs(h, source, steps, id);
    assert Reachable(h, e);
    hide Reachable;
    AllConsistent(h, e, id);
    StoreTransactionsSound(h, e);
    if e.store.records[id].submitted {
      SealedId(h, e.store, id);
    }
  }
}
