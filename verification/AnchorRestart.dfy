/** Receipt queries and recovery snapshots of the anchor store. */
module AnchorRestart {
  import opened Bytes
  import opened AnchorIds
  import opened AnchorStore
  import opened AnchorReuse
  import opened AnchorRuns
  import opened AnchorReceipts

  // ---------------------------------------------------------------------
  // Receipt queries
  // ---------------------------------------------------------------------

  function AcceptedReceipt(r: Record, t: bytes, source: SourceKind): Receipt {
    var logs := [LogEntry(Info, Ascii("transaction executed")), LogEntry(Info, EncodePayload(r.binding.digest))];
    Receipt(t, r.binding.network, AcceptedStatus, logs, None, Some(1), source, [])
  }

  function FeeOnlyReceipt(r: Record, t: bytes, source: SourceKind): Receipt {
    var logs := [LogEntry(Warn, Ascii("fee intent committed; main intent rejected"))];
    Receipt(t, r.binding.network, FeeOnlyStatus, logs, Some(Ascii("main intent rejected after fee")), Some(1), source, [])
  }

  function RejectedReceipt(r: Record, t: bytes, source: SourceKind): Receipt {
    Receipt(t, r.binding.network, RejectedStatus, [], Some(Ascii("execution failure")), None, source, [])
  }

  function Outcome(r: Record, t: bytes, source: SourceKind): QueryOutcome {
    if !r.submitted then NotFound
    else match r.finality
      case NotFinalized => StillOpen
      case Unknown => UnknownOutcome
      case Accepted => Finalized(AcceptedReceipt(r, t, source))
      case FeeOnly => Finalized(FeeOnlyReceipt(r, t, source))
      case Refused => Finalized(RejectedReceipt(r, t, source))
  }

  function QueryReceipt(s: Store, t: bytes): Result<QueryOutcome, QueryError> {
    if s.unavailable then Err(Unavailable)
    else if t !in s.byTransaction || s.byTransaction[t] !in s.records then Ok(NotFound)
    else Ok(Outcome(s.records[s.byTransaction[t]], t, s.source))
  }

  /** The receipt of an accepted request verifies for exactly its own network and digest. */
  lemma AcceptedReceiptVerifies(r: Record, t: bytes, source: SourceKind, network: bytes, digest: bytes)
    requires |r.binding.digest| == 32
    ensures VerifyReceipt(t, network, digest, AcceptedReceipt(r, t, source)).Ok? <==>
            network == r.binding.network && digest == r.binding.digest
    ensures var v := VerifyReceipt(t, network, digest, AcceptedReceipt(r, t, source));
            v.Ok? ==> v.value == Evidence(t, network, digest, Some(1), source)
  {
    hide Prefix;
    var receipt := AcceptedReceipt(r, t, source);
    var d := r.binding.digest;
    var first, second := receipt.logs[0], receipt.logs[1];
    PlainLogIgnored(first);
    assert IsProjectLog(second);
    ParseIffEncoded(second.message, d);
    hide IsProjectLog, ParsePayload, EncodePayload;
    assert receipt.logs[..1] == [first] && receipt.logs[..1][..0] == [];
    assert LogBag([first]) == Joined(Some(multiset{}), Some(multiset{}));
    assert multiset{} + multiset{} + multiset{d} == multiset{d};
    assert LogBag(receipt.logs) == Joined(LogBag([first]), Some(multiset{d}));
    VerifiedIff(t, network, digest, receipt);
    assert multiset{d} == multiset{digest} <==> d in multiset{digest};
  }

  lemma PlainLogIgnored(e: LogEntry)
    requires e.message != [] && e.message[0] == 116
    ensures !IsProjectLog(e)
  {
  }

  /**
   * With a reachable source, verification of the queried outcome succeeds exactly for a
   * request submitted under that transaction, finally accepted, and bound to the expected
   * network and digest.
   */
  lemma VerifiedIffAccepted(h: Hash, e: Execution, t: bytes, network: bytes, digest: bytes)
    requires Injective(h) && Reachable(h, e) && !e.store.unavailable
    ensures VerifyOutcome(t, network, digest, QueryReceipt(e.store, t).value).Ok? <==>
            exists id :: id in e.store.records && AcceptedUnder(e.store.records[id], t, network, digest)
    ensures var v := VerifyOutcome(t, network, digest, QueryReceipt(e.store, t).value);
            v.Ok? ==> v.value == Evidence(t, network, digest, Some(1), e.store.source)
  {
    hide Reachable, TransactionsSound, VerifyReceipt, AcceptedReceipt, FeeOnlyReceipt, RejectedReceipt;
    var s := e.store;
    StoreTransactionsSound(h, e);
    if t in s.byTransaction {
      var id := s.byTransaction[t];
      IndexedRequest(h, s, t);
      AllConsistent(h, e, id);
      DigestWidth(h, e, id);
      AcceptedReceiptVerifies(s.records[id], t, s.source, network, digest);
      NeverVerifies(t, network, digest, s.records[id], s.source);
    }
    if other :| other in s.records && AcceptedUnder(s.records[other], t, network, digest) {
      SealedRequest(h, s, other);
    }
  }

  predicate AcceptedUnder(r: Record, t: bytes, network: bytes, digest: bytes) {
    && r.transaction == Some(t) && r.submitted && r.finality.Accepted?
    && r.binding.network == network && r.binding.digest == digest
  }

  lemma DigestWidth(h: Hash, e: Execution, id: bytes)
    requires Injective(h) && Reachable(h, e) && id in e.store.records
    ensures |e.store.records[id].binding.digest| == 32
  {
    hide Reachable, KeysSound, OriginsSound, DecisionsSound, TransactionsSound, IdOf;
    ReachableInvariant(h, e);
    var o := StoredBinding(h, e.store, e.past, id);
  }

  lemma NeverVerifies(t: bytes, network: bytes, digest: bytes, r: Record, source: SourceKind)
    ensures VerifyReceipt(t, network, digest, FeeOnlyReceipt(r, t, source)).Err?
    ensures VerifyReceipt(t, network, digest, RejectedReceipt(r, t, source)).Err?
  {
    hide ProjectLogs;
  }

  // ---------------------------------------------------------------------
  // Snapshots
  // ---------------------------------------------------------------------

  datatype LifecycleState =
    | PreparedState | ApprovedState | RejectedByApprover | SubmittedState
    | FinalizedAccept | FinalizedFeeOnly | FinalizedReject | UnknownState

  datatype Snapshot = Snapshot(
    id: bytes, binding: Binding, state: LifecycleState, transaction: Option<bytes>, status: Option<FinalStatus>)

  function Lifecycle(r: Record): LifecycleState {
    match r.decision
    case Rejected => RejectedByApprover
    case Expired => UnknownState
    case Pending => PreparedState
    case Approved =>
      if !r.submitted then ApprovedState
      else match r.finality
        case NotFinalized => SubmittedState
        case Unknown => UnknownState
        case Accepted => FinalizedAccept
        case FeeOnly => FinalizedFeeOnly
        case Refused => FinalizedReject
  }

  function LastStatus(r: Record): Option<FinalStatus> {
    if !r.submitted then None
    else match r.finality
      case Accepted => Some(AcceptedStatus)
      case FeeOnly => Some(FeeOnlyStatus)
      case Refused => Some(RejectedStatus)
      case _ => None
  }

  function SnapshotOf(id: bytes, r: Record): Snapshot {
    Snapshot(id, r.binding, Lifecycle(r), r.transaction, LastStatus(r))
  }

  function Reconstruct(state: LifecycleState, sealed: bool): (Decision, bool, Finality) {
    match state
    case PreparedState => (Pending, false, NotFinalized)
    case ApprovedState => (Approved, false, NotFinalized)
    case RejectedByApprover => (Rejected, false, NotFinalized)
    case SubmittedState => (Approved, true, NotFinalized)
    case FinalizedAccept => (Approved, true, Accepted)
    case FinalizedFeeOnly => (Approved, true, FeeOnly)
    case FinalizedReject => (Approved, true, Refused)
    case UnknownState => if sealed then (Approved, true, Unknown) else (Expired, false, NotFinalized)
  }

  function Rebuilt(snap: Snapshot): Record {
    var (decision, submitted, finality) := Reconstruct(snap.state, snap.transaction.Some?);
    Record(snap.binding, 0, decision, snap.transaction, submitted, finality)
  }

  function Insert(s: Store, snap: Snapshot): Store {
    var index := if snap.transaction.Some? then s.byTransaction[snap.transaction.value := snap.id] else s.byTransaction;
    Put(s, snap.id, Rebuilt(snap)).(byTransaction := index)
  }

  function Restore(source: SourceKind, snaps: seq<Snapshot>): Store {
    if snaps == [] then Empty(source)
    else Insert(Restore(source, snaps[..|snaps| - 1]), snaps[|snaps| - 1])
  }

  ghost predicate InOrder(snaps: seq<Snapshot>) {
    forall i, j :: 0 <= i < j < |snaps| ==> LexLess(snaps[i].id, snaps[j].id)
  }

  /** `snaps` is the store's snapshot list: one snapshot per request, in request order. */
  ghost predicate Lists(s: Store, snaps: seq<Snapshot>) {
    && InOrder(snaps)
    && (forall i :: 0 <= i < |snaps| ==> snaps[i].id in s.records && snaps[i] == SnapshotOf(snaps[i].id, s.records[snaps[i].id]))
    && (forall id :: id in s.records ==> exists i :: 0 <= i < |snaps| && snaps[i].id == id)
  }

  // ---------------------------------------------------------------------
  // Restart
  // ---------------------------------------------------------------------

  lemma {:induction false} RestoredRecord(source: SourceKind, snaps: seq<Snapshot>, i: nat)
    requires InOrder(snaps) && i < |snaps|
    ensures snaps[i].id in Restore(source, snaps).records
    ensures Restore(source, snaps).records[snaps[i].id] == Rebuilt(snaps[i])
  {
    hide Rebuilt;
    var n := |snaps| - 1;
    if i < n {
      RestoredRecord(source, snaps[..n], i);
      assert snaps[..n][i] == snaps[i];
      LexIrreflexive(snaps[i].id);
    }
  }

  lemma {:induction false} RestoredKeys(source: SourceKind, snaps: seq<Snapshot>, id: bytes)
    requires id in Restore(source, snaps).records
    ensures exists i :: 0 <= i < |snaps| && snaps[i].id == id
  {
    hide Rebuilt;
    var n := |snaps| - 1;
    if n >= 0 && snaps[n].id != id {
      RestoredKeys(source, snaps[..n], id);
      var i :| 0 <= i < |snaps[..n]| && snaps[..n][i].id == id;
      assert snaps[i].id == id;
    }
  }

  lemma {:induction false} RestoredTransaction(source: SourceKind, snaps: seq<Snapshot>, t: bytes)
    ensures t in Restore(source, snaps).byTransaction <==> exists i :: 0 <= i < |snaps| && snaps[i].transaction == Some(t)
    ensures t in Restore(source, snaps).byTransaction ==>
              exists i :: 0 <= i < |snaps| && snaps[i].transaction == Some(t) &&
                          Restore(source, snaps).byTransaction[t] == snaps[i].id
    decreases |snaps|
  {
    hide Rebuilt;
    var n := |snaps| - 1;
    if n >= 0 {
      var front := snaps[..n];
      RestoredTransaction(source, front, t);
      assert forall i :: 0 <= i < n ==> front[i] == snaps[i];
      assert snaps[n].transaction == Some(t) ==> t in Restore(source, snaps).byTransaction;
    }
  }

  lemma {:induction false} RestoredSettings(source: SourceKind, snaps: seq<Snapshot>)
    ensures Restore(source, snaps).source == source && !Restore(source, snaps).unavailable
  {
    hide Rebuilt;
    if snaps != [] {
      RestoredSettings(source, snaps[..|snaps| - 1]);
    }
  }

  /** An expired request that had already been submitted, unless its outcome was unknown anyway. */
  predicate ForgetsOutcome(r: Record) {
    r.submitted && r.decision.Expired? && !r.finality.Unknown?
  }

  /** What the run guarantees about one record's fields. */
  predicate Consistent(r: Record) {
    && r.submitted == r.transaction.Some?
    && (r.transaction.Some? ==> r.decision.Approved? || r.decision.Expired?)
  }

  /** One record survives the round trip through its snapshot exactly when nothing is forgotten. */
  lemma RecordRestart(id: bytes, r: Record, t: bytes, source: SourceKind)
    requires Consistent(r)
    ensures var r' := Rebuilt(SnapshotOf(id, r));
            && r'.transaction == r.transaction && r'.submitted == r.submitted
            && (SnapshotOf(id, r') == SnapshotOf(id, r) && Outcome(r', t, source) == Outcome(r, t, source)
                <==> !ForgetsOutcome(r))
  {
    hide EncodePayload;
  }

  lemma RestartedQuery(h: Hash, s: Store, snaps: seq<Snapshot>, t: bytes)
    requires Lists(s, snaps) && TransactionsSound(h, s)
    ensures var s' := Restore(s.source, snaps);
            && (t in s'.byTransaction <==> t in s.byTransaction)
            && (t in s.byTransaction ==>
                  var id := s.byTransaction[t];
                  s'.byTransaction[t] == id && id in s'.records && s'.records[id] == Rebuilt(SnapshotOf(id, s.records[id])))
  {
    hide Rebuilt, SnapshotOf, Restore, TransactionId;
    var s' := Restore(s.source, snaps);
    RestoredTransaction(s.source, snaps, t);
    forall i | 0 <= i < |snaps|
      ensures snaps[i].transaction == s.records[snaps[i].id].transaction
    {
      SnapshotTransaction(snaps[i].id, s.records[snaps[i].id]);
    }
    if t in s'.byTransaction {
      var i :| 0 <= i < |snaps| && snaps[i].transaction == Some(t) && s'.byTransaction[t] == snaps[i].id;
      assert TransactionSound(h, s, snaps[i].id, s.records[snaps[i].id]);
      RestoredRecord(s.source, snaps, i);
    }
    if t in s.byTransaction {
      var i :| 0 <= i < |snaps| && snaps[i].id == s.byTransaction[t];
      assert snaps[i].transaction == Some(t);
    }
  }

  lemma SnapshotTransaction(id: bytes, r: Record)
    ensures SnapshotOf(id, r).transaction == r.transaction && SnapshotOf(id, r).id == id
  {
  }

  /** The restarted store lists the same snapshots and answers every query the same. */
  ghost predicate Observes(s: Store, s': Store, snaps: seq<Snapshot>) {
    Lists(s', snaps) && forall t :: QueryReceipt(s', t) == QueryReceipt(s.(unavailable := false), t)
  }

  lemma AllConsistent(h: Hash, e: Execution, id: bytes)
    requires Injective(h) && Reachable(h, e) && id in e.store.records
    ensures Consistent(e.store.records[id]) && TransactionsSound(h, e.store)
  {
    hide Reachable;
    ReachableInvariant(h, e);
    hide IdsSound, TransactionSound;
    assert DecisionSound(e.past, id, e.store.records[id]);
  }

  lemma RestartLists(s: Store, snaps: seq<Snapshot>, s': Store)
    requires Lists(s, snaps) && s' == Restore(s.source, snaps)
    requires forall id :: id in s.records ==> SnapshotOf(id, Rebuilt(SnapshotOf(id, s.records[id]))) == SnapshotOf(id, s.records[id])
    ensures Lists(s', snaps)
  {
    hide Rebuilt, SnapshotOf, Restore;
    forall i | 0 <= i < |snaps|
      ensures snaps[i].id in s'.records && snaps[i] == SnapshotOf(snaps[i].id, s'.records[snaps[i].id])
    {
      RestoredRecord(s.source, snaps, i);
    }
    forall id | id in s'.records
      ensures exists i :: 0 <= i < |snaps| && snaps[i].id == id
    {
      RestoredKeys(s.source, snaps, id);
    }
  }

  /** Restart preserves every observation exactly when no submitted request's outcome is forgotten. */
  lemma RestartPreserves(h: Hash, e: Execution, snaps: seq<Snapshot>)
    requires Injective(h) && Reachable(h, e) && Lists(e.store, snaps)
    ensures Observes(e.store, Restore(e.store.source, snaps), snaps) <==>
            forall id :: id in e.store.records ==> !ForgetsOutcome(e.store.records[id])
  {
    hide Reachable, TransactionsSound, Restore, Rebuilt, SnapshotOf, Lists, ForgetsOutcome, Consistent;
    var s, s' := e.store, Restore(e.store.source, snaps);
    if forall id :: id in s.records ==> !ForgetsOutcome(s.records[id]) {
      RestartObserves(h, e, snaps);
    }
    if id :| id in s.records && ForgetsOutcome(s.records[id]) {
      ForgottenOutcomeShows(h, e, snaps, id);
    }
  }

  lemma RestartObserves(h: Hash, e: Execution, snaps: seq<Snapshot>)
    requires Injective(h) && Reachable(h, e) && Lists(e.store, snaps)
    requires forall id :: id in e.store.records ==> !ForgetsOutcome(e.store.records[id])
    ensures Observes(e.store, Restore(e.store.source, snaps), snaps)
  {
    hide Reachable, TransactionsSound, Restore, Rebuilt, SnapshotOf, Lists, ForgetsOutcome, Consistent, Outcome;
    var s, s' := e.store, Restore(e.store.source, snaps);
    forall id | id in s.records
      ensures SnapshotOf(id, Rebuilt(SnapshotOf(id, s.records[id]))) == SnapshotOf(id, s.records[id])
    {
      AllConsistent(h, e, id);
      RecordRestart(id, s.records[id], [], s.source);
    }
    RestartLists(s, snaps, s');
    RestoredSettings(s.source, snaps);
    StoreTransactionsSound(h, e);
    forall t
      ensures QueryReceipt(s', t) == QueryReceipt(s.(unavailable := false), t)
    {
      RestartedQuery(h, s, snaps, t);
      if t in s.byTransaction {
        IndexedRequest(h, s, t);
        AllConsistent(h, e, s.byTransaction[t]);
        RecordRestart(s.byTransaction[t], s.records[s.byTransaction[t]], t, s.source);
      }
    }
  }

  lemma StoreTransactionsSound(h: Hash, e: Execution)
    requires Injective(h) && Reachable(h, e)
    ensures TransactionsSound(h, e.store)
  {
    hide Reachable, TransactionsSound, IdsSound, DecisionsSound;
    ReachableInvariant(h, e);
  }

  lemma IndexedRequest(h: Hash, s: Store, t: bytes)
    requires TransactionsSound(h, s) && t in s.byTransaction
    ensures s.byTransaction[t] in s.records && s.records[s.byTransaction[t]].transaction == Some(t)
  {
    hide TransactionSound;
  }

  lemma SealedRequest(h: Hash, s: Store, id: bytes)
    requires TransactionsSound(h, s) && id in s.records && s.records[id].transaction.Some?
    ensures s.records[id].transaction.value in s.byTransaction
    ensures s.byTransaction[s.records[id].transaction.value] == id
  {
    hide TransactionId;
    assert TransactionSound(h, s, id, s.records[id]);
  }

  lemma ForgottenOutcomeShows(h: Hash, e: Execution, snaps: seq<Snapshot>, id: bytes)
    requires Injective(h) && Reachable(h, e) && Lists(e.store, snaps)
    requires id in e.store.records && ForgetsOutcome(e.store.records[id])
    ensures !Observes(e.store, Restore(e.store.source, snaps), snaps)
  {
    hide Reachable, TransactionsSound, Restore, Rebuilt, SnapshotOf, Outcome;
    var s, s' := e.store, Restore(e.store.source, snaps);
    AllConsistent(h, e, id);
    var t := s.records[id].transaction.value;
    SealedRequest(h, s, id);
    RecordRestart(id, s.records[id], t, s.source);
    RestoredSettings(s.source, snaps);
    RestartedQuery(h, s, snaps, t);
    var i :| 0 <= i < |snaps| && snaps[i].id == id;
    RestoredRecord(s.source, snaps, i);
    var r' := Rebuilt(SnapshotOf(id, s.records[id]));
    assert QueryReceipt(s', t) == Ok(Outcome(r', t, s.source));
    assert QueryReceipt(s.(unavailable := false), t) == Ok(Outcome(s.records[id], t, s.source));
  }

  /** Such a run exists for every binding and client reference: submit, observe acceptance, then expire. */
  lemma ForgettingRun(h: Hash, b: Binding, reference: bytes, source: SourceKind)
    requires ValidBinding(b) && ValidIdentifier(reference)
    ensures var id := RequestId(h, b, reference);
            var steps := ClientSteps(h, b, reference) + [FinalityStep(id, Accepted)] + [ExpireStep(id)];
            var e := Run(h, Start(source), steps);
            && Admissible(h, Start(source), steps) && Reachable(h, e)
            && id in e.store.records && ForgetsOutcome(e.store.records[id])
  {
    hide RequestId, TransactionId, CounterBytes, ValidBinding, ValidIdentifier, Run;
    var id := RequestId(h, b, reference);
    var submit := ClientSteps(h, b, reference);
    ClientRun(h, source, b, reference);
    RunThen(h, Start(source), submit, FinalityStep(id, Accepted));
    RunThen(h, Start(source), submit + [FinalityStep(id, Accepted)], ExpireStep(id));
    var steps := submit + [FinalityStep(id, Accepted)] + [ExpireStep(id)];
    assert Admissible(h, Start(source), steps);
  }

  /** The snapshot list of a store is unique. */
  lemma ListUnique(s: Store, a: seq<Snapshot>, b: seq<Snapshot>)
    requires Lists(s, a) && Lists(s, b)
    ensures a == b
  {
    hide SnapshotOf;
    OrderedUnique(a, b);
  }

  ghost predicate Within(a: seq<Snapshot>, b: seq<Snapshot>) {
    forall x :: x in a ==> x in b
  }

  lemma {:induction false} OrderedUnique(a: seq<Snapshot>, b: seq<Snapshot>)
    requires InOrder(a) && InOrder(b) && Within(a, b) && Within(b, a)
    ensures a == b
    decreases |a|
  {
    assert a != [] ==> a[0] in b;
    assert b != [] ==> b[0] in a;
    if a != [] {
      var m, n := |a| - 1, |b| - 1;
      SameLast(a, b);
      FrontIn(a, b);
      FrontIn(b, a);
      hide Within, LexLess;
      OrderedUnique(a[..m], b[..n]);
      assert a == a[..m] + [a[m]] && b == b[..n] + [b[n]];
    }
  }

  lemma FrontIn(a: seq<Snapshot>, b: seq<Snapshot>)
    requires InOrder(a) && a != [] && b != [] && a[|a| - 1] == b[|b| - 1] && Within(a, b)
    ensures Within(a[..|a| - 1], b[..|b| - 1])
  {
    hide LexLess;
    var m, n := |a| - 1, |b| - 1;
    LexIrreflexive(b[n].id);
    forall x | x in a[..m] ensures x in b[..n] {
      var i :| 0 <= i < m && a[i] == x;
      assert x in b;
      var j :| 0 <= j < |b| && b[j] == x;
      assert b[..n][j] == x;
    }
  }

  lemma SameLast(a: seq<Snapshot>, b: seq<Snapshot>)
    requires InOrder(a) && InOrder(b) && a != [] && b != []
    requires a[|a| - 1] in b && b[|b| - 1] in a
    ensures a[|a| - 1] == b[|b| - 1]
  {
    hide LexLess;
    var i :| 0 <= i < |a| && a[i] == b[|b| - 1];
    var j :| 0 <= j < |b| && b[j] == a[|a| - 1];
    LexTrichotomy(a[|a| - 1].id, b[|b| - 1].id);
  }

  // ---------------------------------------------------------------------
  // Submitting after a restart
  // ---------------------------------------------------------------------

  /** A submitted request that was expired comes back as approved. */
  predicate Revives(r: Record) {
    r.submitted && r.decision.Expired?
  }

  lemma RestoredDecision(id: bytes, r: Record)
    requires Consistent(r)
    ensures var r' := Rebuilt(SnapshotOf(id, r));
            && r'.binding == r.binding
            && r'.decision == if Revives(r) then Approved else r.decision
  {
  }

  /** Every submission is refused, or not, for the same reason. */
  ghost predicate SameSubmissions(s: Store, s': Store) {
    forall id, b, digest :: SubmitRefusal(s', id, b, digest) == SubmitRefusal(s, id, b, digest)
  }

  /** What the restored store holds under each identifier. */
  lemma RestoredStore(s: Store, snaps: seq<Snapshot>, kind: SourceKind, id: bytes)
    requires Lists(s, snaps)
    ensures id in Restore(kind, snaps).records <==> id in s.records
    ensures id in s.records ==> Restore(kind, snaps).records[id] == Rebuilt(SnapshotOf(id, s.records[id]))
  {
    hide Restore, Rebuilt, SnapshotOf;
    if id in Restore(kind, snaps).records {
      RestoredKeys(kind, snaps, id);
    }
    if id in s.records {
      var i :| 0 <= i < |snaps| && snaps[i].id == id;
      RestoredRecord(kind, snaps, i);
    }
  }

  /** Restart changes the refusal of some submission exactly when a submitted request was expired. */
  lemma RestartSubmissionsIff(h: Hash, e: Execution, snaps: seq<Snapshot>, kind: SourceKind)
    requires Injective(h) && Reachable(h, e) && Lists(e.store, snaps)
    ensures SameSubmissions(e.store, Restore(kind, snaps)) <==>
            forall id :: id in e.store.records ==> !Revives(e.store.records[id])
  {
    hide Reachable, Restore, Rebuilt, SnapshotOf, Lists, TransactionsSound, Consistent;
    var s, s' := e.store, Restore(kind, snaps);
    forall id | id in s.records
      ensures && id in s'.records && s'.records[id].binding == s.records[id].binding
              && s'.records[id].decision == if Revives(s.records[id]) then Approved else s.records[id].decision
    {
      AllConsistent(h, e, id);
      RestoredStore(s, snaps, kind, id);
      RestoredDecision(id, s.records[id]);
    }
    if forall id :: id in s.records ==> !Revives(s.records[id]) {
      forall id, b, digest
        ensures SubmitRefusal(s', id, b, digest) == SubmitRefusal(s, id, b, digest)
      {
        RestoredStore(s, snaps, kind, id);
      }
    }
    if id :| id in s.records && Revives(s.records[id]) {
      var b := s.records[id].binding;
      assert SubmitRefusal(s, id, b, b.digest) == Some(SubmissionExpired);
      assert SubmitRefusal(s', id, b, b.digest) == None;
    }
  }

  // ---------------------------------------------------------------------
  // Creating after a restart
  // ---------------------------------------------------------------------

  /** A restored store has the same identifiers under the same bindings. */
  lemma RestoredKeysSound(h: Hash, s: Store, past: History, kind: SourceKind, snaps: seq<Snapshot>)
    requires KeysSound(h, s, past) && Lists(s, snaps)
    ensures KeysSound(h, Restore(kind, snaps), past)
  {
    hide Restore, IdOf, ValidBinding;
    var s' := Restore(kind, snaps);
    forall i | 0 <= i < |snaps|
      ensures snaps[i].id in s'.records && s'.records[snaps[i].id].binding == s.records[snaps[i].id].binding
    {
      RestoredRecord(kind, snaps, i);
    }
    hide Rebuilt, SnapshotOf;
    forall id | id in s'.records
      ensures MadeBy(h, past, id, s'.records[id].binding)
    {
      RestoredKeys(kind, snaps, id);
      assert MadeBy(h, past, id, s.records[id].binding);
    }
  }

  lemma ReplacesIffReuses(h: Hash, e: Execution, b: Binding, fee: nat, reference: Option<bytes>)
    requires Injective(h) && KeysSound(h, e.store, e.past) && WellTyped(CreateStep(b, fee, reference))
    requires Creates(e.store, CreateStep(b, fee, reference))
    ensures var id := RequestId(h, b, Disambiguator(e.store, reference));
            && (id in e.store.records <==> Reuses(e.past, b, Disambiguator(e.store, reference)))
            && Create(h, e.store, b, fee, reference).0.records == e.store.records[id := NewRecord(b, fee)]
  {
    hide KeysSound, RequestId, Reuses, Create, Disambiguator, Creates, ValidBinding, ValidIdentifier;
    TakenIff(h, e.store, e.past, b, Disambiguator(e.store, reference));
    CreateStores(h, e.store, b, fee, reference);
  }

  /**
   * After a restart, and any calls since, a creation that misses the client index replaces a
   * stored request exactly when its binding was used with the same disambiguator, before the
   * restart or after it. Index and counter start afresh, so old disambiguators do come back.
   */
  lemma RestartReplacesIff(
    h: Hash, source: SourceKind, before: seq<Step>, kind: SourceKind, snaps: seq<Snapshot>, after: seq<Step>,
    b: Binding, fee: nat, reference: Option<bytes>)
    requires Injective(h) && AllWellTyped(before) && AllWellTyped(after) && WellTyped(CreateStep(b, fee, reference))
    requires Lists(Run(h, Start(source), before).store, snaps)
    requires var restored := Execution(Restore(kind, snaps), Run(h, Start(source), before).past);
             Creates(Run(h, restored, after).store, CreateStep(b, fee, reference))
    ensures var restored := Execution(Restore(kind, snaps), Run(h, Start(source), before).past);
            var e := Run(h, restored, after);
            var id := RequestId(h, b, Disambiguator(e.store, reference));
            && (id in e.store.records <==> Reuses(e.past, b, Disambiguator(e.store, reference)))
            && Create(h, e.store, b, fee, reference).0.records == e.store.records[id := NewRecord(b, fee)]
  {
    hide Run, Restore, Lists, KeysSound, OriginsSound, RequestId, Reuses, Create, Disambiguator, Creates, WellTyped;
    var e0 := Run(h, Start(source), before);
    RunIdsSound(h, source, before);
    RestoredKeysSound(h, e0.store, e0.past, kind, snaps);
    var restored := Execution(Restore(kind, snaps), e0.past);
    RunKeepsKeys(h, restored, after);
    ReplacesIffReuses(h, Run(h, restored, after), b, fee, reference);
  }

  lemma {:induction false} RestoredFresh(kind: SourceKind, snaps: seq<Snapshot>)
    ensures var s := Restore(kind, snaps); s.clientIndex == map[] && s.counter == 0 && s.createFailure.None?
  {
    hide Rebuilt;
    if snaps != [] {
      RestoredFresh(kind, snaps[..|snaps| - 1]);
    }
  }

  /** A client that repeats its creation after a restart loses its submitted request. */
  lemma RestartLosesSubmission(
    h: Hash, source: SourceKind, b: Binding, reference: bytes, kind: SourceKind, snaps: seq<Snapshot>, fee: nat)
    requires Injective(h) && ValidBinding(b) && ValidIdentifier(reference)
    requires Lists(Run(h, Start(source), ClientSteps(h, b, reference)).store, snaps)
    ensures var id := RequestId(h, b, reference);
            var s := Restore(kind, snaps);
            && id in s.records && s.records[id].submitted
            && s.records[id].transaction == Some(TransactionId(h, id, b.digest))
            && Create(h, s, b, fee, Some(reference)).0.records == s.records[id := NewRecord(b, fee)]
  {
    hide Run, RequestId, TransactionId, ValidBinding, ValidIdentifier, Restore;
    var e := Run(h, Start(source), ClientSteps(h, b, reference));
    var id := RequestId(h, b, reference);
    ClientRun(h, source, b, reference);
    var i :| 0 <= i < |snaps| && snaps[i].id == id;
    RestoredRecord(kind, snaps, i);
    RestoredFresh(kind, snaps);
    CreateStores(h, Restore(kind, snaps), b, fee, Some(reference));
  }
}
