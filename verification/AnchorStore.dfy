/**
 * The anchor request store: create, approve, reject, submit, expire and scripted finality.
 * The operations are state functions; `DeterministicAnchorFake` performs them in place.
 */
module AnchorStore {
  import opened Bytes
  import opened Hex
  import opened AnchorIds

  datatype Decision = Pending | Approved | Rejected | Expired
  datatype Finality = NotFinalized | Accepted | FeeOnly | Refused | Unknown
  datatype SourceKind = Walletd | IndependentIndexer

  datatype PreparationError = InjectedFailure | ClientReferenceConflict
  datatype ApprovalError =
    | ApprovalNotFound | AlreadyApproved | AlreadyRejected | ApprovalExpired
    | ApprovalPayload | ApprovalNetwork | ApprovalAccount | ApprovalInjected
  datatype SubmissionError =
    | SubmissionNotFound | NotApproved | SubmissionRejected | SubmissionExpired
    | SubmissionPayload | SubmissionNetwork | SubmissionAccount | Timeout

  datatype Record = Record(
    binding: Binding, maxFee: nat, decision: Decision,
    transaction: Option<bytes>, submitted: bool, finality: Finality)

  datatype Store = Store(
    records: map<bytes, Record>,
    clientIndex: map<bytes, bytes>,
    byTransaction: map<bytes, bytes>,
    counter: nat,
    source: SourceKind,
    createFailure: Option<PreparationError>,
    approveFailure: Option<ApprovalError>,
    submitTimeout: bool,
    unavailable: bool)

  datatype Prepared = Prepared(id: bytes, binding: Binding, maxFee: nat)
  datatype ApprovedTransaction = ApprovedTransaction(id: bytes, binding: Binding)
  datatype Submitted = Submitted(id: bytes, transaction: bytes, binding: Binding)

  const COUNTER_MODULUS := 0x1_0000_0000_0000_0000

  type Hash = bytes -> bytes

  ghost predicate Injective(h: Hash) {
    forall x, y :: h(x) == h(y) ==> x == y
  }

  function RequestId(h: Hash, b: Binding, disambiguator: bytes): bytes {
    ToHex(h(RequestFrame(b, disambiguator)))
  }

  function TransactionId(h: Hash, id: bytes, digest: bytes): bytes {
    ToHex(h(TransactionFrame(id, digest)))
  }

  lemma RequestIdInjective(h: Hash, a: Binding, x: bytes, b: Binding, y: bytes)
    requires Injective(h) && ValidBinding(a) && ValidBinding(b)
    requires RequestId(h, a, x) == RequestId(h, b, y)
    ensures a == b && x == y
  {
    HexInjective(h(RequestFrame(a, x)), h(RequestFrame(b, y)));
    RequestFrameInjective(a, x, b, y);
  }

  lemma RequestIdHasNoNul(h: Hash, b: Binding, disambiguator: bytes)
    ensures 0 !in RequestId(h, b, disambiguator)
  {
    HexIsAscii(h(RequestFrame(b, disambiguator)));
  }

  lemma TransactionIdInjective(h: Hash, a: bytes, d: bytes, b: bytes, e: bytes)
    requires Injective(h) && 0 !in a && 0 !in b && TransactionId(h, a, d) == TransactionId(h, b, e)
    ensures a == b && d == e
  {
    HexInjective(h(TransactionFrame(a, d)), h(TransactionFrame(b, e)));
    TransactionFrameInjective(a, d, b, e);
  }

  // ---------------------------------------------------------------------
  // Operations
  // ---------------------------------------------------------------------

  function Empty(source: SourceKind): Store {
    Store(map[], map[], map[], 0, source, None, None, false, false)
  }

  function Put(s: Store, id: bytes, r: Record): Store {
    s.(records := s.records[id := r])
  }

  /** What tells two creations under one binding apart. */
  function Disambiguator(s: Store, reference: Option<bytes>): bytes {
    match reference
    case Some(c) => c
    case None => CounterBytes(s.counter)
  }

  function Create(h: Hash, s: Store, b: Binding, maxFee: nat, reference: Option<bytes>)
    : (Store, Result<Prepared, PreparationError>)
  {
    if s.createFailure.Some? then (s.(createFailure := None), Err(s.createFailure.value))
    else if reference.Some? && reference.value in s.clientIndex then
      var id := s.clientIndex[reference.value];
      if id !in s.records || s.records[id].binding != b then (s, Err(ClientReferenceConflict))
      else (s, Ok(Prepared(id, b, s.records[id].maxFee)))
    else
      var id := RequestId(h, b, Disambiguator(s, reference));
      var counted := if reference.None? then s.(counter := (s.counter + 1) % COUNTER_MODULUS)
                     else s.(clientIndex := s.clientIndex[reference.value := id]);
      (Put(counted, id, Record(b, maxFee, Pending, None, false, NotFinalized)), Ok(Prepared(id, b, maxFee)))
  }

  function Approve(s: Store, id: bytes, b: Binding): (Store, Result<ApprovedTransaction, ApprovalError>) {
    if s.approveFailure.Some? then (s.(approveFailure := None), Err(s.approveFailure.value))
    else if id !in s.records then (s, Err(ApprovalNotFound))
    else
      var r := s.records[id];
      if b.network != r.binding.network then (s, Err(ApprovalNetwork))
      else if b.account != r.binding.account then (s, Err(ApprovalAccount))
      else if b.digest != r.binding.digest then (s, Err(ApprovalPayload))
      else match r.decision
        case Approved => (s, Err(AlreadyApproved))
        case Rejected => (s, Err(AlreadyRejected))
        case Expired => (s, Err(ApprovalExpired))
        case Pending => (Put(s, id, r.(decision := Approved)), Ok(ApprovedTransaction(id, r.binding)))
  }

  function Reject(s: Store, id: bytes): (Store, Result<(), ApprovalError>) {
    if id !in s.records then (s, Err(ApprovalNotFound))
    else match s.records[id].decision
      case Pending => (Put(s, id, s.records[id].(decision := Rejected)), Ok(()))
      case Rejected => (s, Ok(()))
      case Approved => (s, Err(AlreadyApproved))
      case Expired => (s, Err(ApprovalExpired))
  }

  /** Why a submission is refused before anything is sealed. */
  function SubmitRefusal(s: Store, id: bytes, b: Binding, digest: bytes): Option<SubmissionError> {
    if id !in s.records then Some(SubmissionNotFound)
    else
      var r := s.records[id];
      if b.network != r.binding.network then Some(SubmissionNetwork)
      else if b.account != r.binding.account then Some(SubmissionAccount)
      else if b.digest != r.binding.digest then Some(SubmissionPayload)
      else if digest != r.binding.digest then Some(SubmissionPayload)
      else match r.decision
        case Pending => Some(NotApproved)
        case Rejected => Some(SubmissionRejected)
        case Expired => Some(SubmissionExpired)
        case Approved => None
  }

  /** Seals the request; an armed timeout loses the response but not the transaction. */
  function Submit(h: Hash, s: Store, id: bytes, b: Binding, digest: bytes)
    : (Store, Result<Submitted, SubmissionError>)
  {
    var refusal := SubmitRefusal(s, id, b, digest);
    if refusal.Some? then (s, Err(refusal.value))
    else
      var r := s.records[id];
      var t := TransactionId(h, id, r.binding.digest);
      var sealed := r.(transaction := Some(t), submitted := true,
                       finality := if s.submitTimeout then Unknown else r.finality);
      var index := if t in s.byTransaction then s.byTransaction else s.byTransaction[t := id];
      (Put(s, id, sealed).(byTransaction := index, submitTimeout := false),
       if s.submitTimeout then Err(Timeout) else Ok(Submitted(id, t, r.binding)))
  }

  function SetFinality(s: Store, id: bytes, f: Finality): Store {
    if id in s.records then Put(s, id, s.records[id].(finality := f)) else s
  }

  function Expire(s: Store, id: bytes): Store {
    if id in s.records then Put(s, id, s.records[id].(decision := Expired)) else s
  }

  // ---------------------------------------------------------------------
  // Runs
  // ---------------------------------------------------------------------

  datatype Step =
    | CreateStep(binding: Binding, maxFee: nat, reference: Option<bytes>)
    | ApproveStep(id: bytes, binding: Binding)
    | RejectStep(id: bytes)
    | SubmitStep(id: bytes, binding: Binding, digest: bytes)
    | FinalityStep(id: bytes, finality: Finality)
    | ExpireStep(id: bytes)
    | FailNextCreate(preparation: PreparationError)
    | FailNextApprove(approval: ApprovalError)
    | ArmTimeout
    | SetUnavailable(unavailable: bool)

  /** What the types of the arguments guarantee. */
  predicate WellTyped(step: Step) {
    step.CreateStep? ==>
      && ValidBinding(step.binding)
      && (step.reference.Some? ==> ValidIdentifier(step.reference.value))
  }

  function Next(h: Hash, s: Store, step: Step): Store {
    match step
    case CreateStep(b, fee, c) => Create(h, s, b, fee, c).0
    case ApproveStep(id, b) => Approve(s, id, b).0
    case RejectStep(id) => Reject(s, id).0
    case SubmitStep(id, b, d) => Submit(h, s, id, b, d).0
    case FinalityStep(id, f) => SetFinality(s, id, f)
    case ExpireStep(id) => Expire(s, id)
    case FailNextCreate(e) => s.(createFailure := Some(e))
    case FailNextApprove(e) => s.(approveFailure := Some(e))
    case ArmTimeout => s.(submitTimeout := true)
    case SetUnavailable(u) => s.(unavailable := u)
  }

  /** What told a created request apart: its client reference, or the counter of an anonymous creation. */
  datatype Origin = Client(reference: bytes) | Anonymous(counter: nat)

  function Spelled(o: Origin): bytes {
    match o
    case Client(c) => c
    case Anonymous(k) => CounterBytes(k)
  }

  function OriginOf(s: Store, reference: Option<bytes>): Origin {
    match reference
    case Some(c) => Client(c)
    case None => Anonymous(s.counter)
  }

  /** A creation that stores a record: no failure is armed and the client index has no entry. */
  predicate Creates(s: Store, step: Step) {
    step.CreateStep? && s.createFailure.None? && !(step.reference.Some? && step.reference.value in s.clientIndex)
  }

  /**
   * What a run has done: the pairs its approvals named, the requests it rejected and expired, the
   * binding and origin of every creation that stored a record, and how many of those were anonymous.
   */
  datatype History = History(
    approved: set<(bytes, Binding)>, rejected: set<bytes>, expired: set<bytes>, used: set<(Binding, Origin)>, made: nat)

  function Recorded(s: Store, past: History, step: Step): History {
    match step
    case CreateStep(b, fee, c) =>
      if !Creates(s, step) then past
      else past.(used := past.used + {(b, OriginOf(s, c))}, made := if c.None? then past.made + 1 else past.made)
    case ApproveStep(id, b) =>
      if Approve(s, id, b).1.Ok? then past.(approved := past.approved + {(id, b)}) else past
    case RejectStep(id) =>
      if Reject(s, id).1.Ok? then past.(rejected := past.rejected + {id}) else past
    case ExpireStep(id) =>
      if id in s.records then past.(expired := past.expired + {id}) else past
    case _ => past
  }

  datatype Execution = Execution(store: Store, past: History)

  function Start(source: SourceKind): Execution {
    Execution(Empty(source), History({}, {}, {}, {}, 0))
  }

  function Advance(h: Hash, e: Execution, step: Step): Execution {
    Execution(Next(h, e.store, step), Recorded(e.store, e.past, step))
  }

  function Run(h: Hash, e: Execution, steps: seq<Step>): Execution
    decreases |steps|
  {
    if steps == [] then e
    else Advance(h, Run(h, e, steps[..|steps| - 1]), steps[|steps| - 1])
  }

  predicate AllWellTyped(steps: seq<Step>) {
    forall i :: 0 <= i < |steps| ==> WellTyped(steps[i])
  }

  /** Well-typed calls that keep the creations without a client reference within 2^56. */
  ghost predicate Admissible(h: Hash, e: Execution, steps: seq<Step>) {
    AllWellTyped(steps) && Run(h, e, steps).past.made <= COUNTER_BOUND
  }

  ghost predicate Reachable(h: Hash, e: Execution) {
    exists source, steps: seq<Step> :: Admissible(h, Start(source), steps) && e == Run(h, Start(source), steps)
  }

  // ---------------------------------------------------------------------
  // What every step keeps
  // ---------------------------------------------------------------------

  function IdOf(h: Hash, u: (Binding, Origin)): bytes {
    RequestId(h, u.0, Spelled(u.1))
  }

  ghost predicate MadeBy(h: Hash, past: History, id: bytes, b: Binding) {
    exists o :: (b, o) in past.used && id == IdOf(h, (b, o))
  }

  /** The stored identifiers are exactly those of the creations that stored a record, each under its binding. */
  ghost predicate KeysSound(h: Hash, s: Store, past: History) {
    && (forall u :: u in past.used ==> ValidBinding(u.0) && IdOf(h, u) in s.records)
    && (forall id :: id in s.records ==> MadeBy(h, past, id, s.records[id].binding))
  }

  ghost predicate OriginSound(s: Store, past: History, o: Origin) {
    match o
    case Client(c) => ValidIdentifier(c) && c in s.clientIndex
    case Anonymous(k) => k < past.made && k < COUNTER_MODULUS
  }

  /** The counter has counted the anonymous creations, wrapping; client references stay indexed. */
  ghost predicate OriginsSound(s: Store, past: History) {
    && s.counter == past.made % COUNTER_MODULUS
    && (forall u :: u in past.used ==> OriginSound(s, past, u.1))
    && (forall c :: c in s.clientIndex ==> s.clientIndex[c] in s.records)
  }

  ghost predicate IdsSound(h: Hash, s: Store, past: History) {
    KeysSound(h, s, past) && OriginsSound(s, past)
  }

  ghost predicate DecisionSound(past: History, id: bytes, r: Record) {
    && (r.decision.Approved? ==> (id, r.binding) in past.approved)
    && (r.decision.Rejected? ==> id in past.rejected)
    && (id in past.rejected ==> (r.decision.Rejected? || r.decision.Expired?) && r.transaction.None?)
    && r.submitted == r.transaction.Some?
    && (r.transaction.Some? ==>
          (r.decision.Approved? || r.decision.Expired?) && (id, r.binding) in past.approved)
  }

  /** Decisions agree with what the run approved and rejected. */
  ghost predicate DecisionsSound(s: Store, past: History) {
    && (forall id :: id in s.records ==> DecisionSound(past, id, s.records[id]))
    && (forall id :: id in past.rejected ==> id in s.records)
  }

  ghost predicate TransactionSound(h: Hash, s: Store, id: bytes, r: Record) {
    r.transaction.Some? ==>
      && r.transaction.value == TransactionId(h, id, r.binding.digest)
      && r.transaction.value in s.byTransaction && s.byTransaction[r.transaction.value] == id
  }

  /** The transaction index and the records' transactions are inverse to each other. */
  ghost predicate TransactionsSound(h: Hash, s: Store) {
    && (forall id :: id in s.records ==> TransactionSound(h, s, id, s.records[id]))
    && (forall t :: t in s.byTransaction ==>
          s.byTransaction[t] in s.records && s.records[s.byTransaction[t]].transaction == Some(t))
  }

  ghost predicate Invariant(h: Hash, e: Execution) {
    IdsSound(h, e.store, e.past) && DecisionsSound(e.store, e.past) && TransactionsSound(h, e.store)
  }

  lemma UsedBinding(h: Hash, s: Store, past: History, u: (Binding, Origin))
    requires KeysSound(h, s, past) && u in past.used
    ensures ValidBinding(u.0) && IdOf(h, u) in s.records
  {
    hide ValidBinding, IdOf, MadeBy;
  }

  lemma StoredBinding(h: Hash, s: Store, past: History, id: bytes) returns (o: Origin)
    requires KeysSound(h, s, past) && id in s.records
    ensures (s.records[id].binding, o) in past.used && id == IdOf(h, (s.records[id].binding, o))
    ensures ValidBinding(s.records[id].binding)
  {
    hide ValidBinding, IdOf;
    var b := s.records[id].binding;
    o :| (b, o) in past.used && id == IdOf(h, (b, o));
    UsedBinding(h, s, past, (b, o));
  }

  /** Some earlier creation under `b` stored a record and was told apart by `d`. */
  ghost predicate Reuses(past: History, b: Binding, d: bytes) {
    exists o :: (b, o) in past.used && Spelled(o) == d
  }

  /** An identifier is taken exactly when its binding and disambiguator have been used together. */
  lemma TakenIff(h: Hash, s: Store, past: History, b: Binding, d: bytes)
    requires Injective(h) && KeysSound(h, s, past) && ValidBinding(b)
    ensures RequestId(h, b, d) in s.records <==> Reuses(past, b, d)
    ensures RequestId(h, b, d) in s.records ==> s.records[RequestId(h, b, d)].binding == b
  {
    hide ValidBinding, RequestId, Spelled, KeysSound;
    var id := RequestId(h, b, d);
    if id in s.records {
      var stored := s.records[id].binding;
      var o := StoredBinding(h, s, past, id);
      RequestIdInjective(h, b, d, stored, Spelled(o));
    }
    if Reuses(past, b, d) {
      var o :| (b, o) in past.used && Spelled(o) == d;
      UsedBinding(h, s, past, (b, o));
    }
  }

  /** With at most 2^56 anonymous creations, a creation that misses the client index reuses nothing. */
  lemma NewRequestReusesNothing(s: Store, past: History, b: Binding, reference: Option<bytes>)
    requires OriginsSound(s, past)
    requires past.made <= COUNTER_BOUND && (reference.None? ==> past.made < COUNTER_BOUND)
    requires reference.Some? ==> ValidIdentifier(reference.value) && reference.value !in s.clientIndex
    ensures !Reuses(past, b, Disambiguator(s, reference))
  {
    hide ValidIdentifier, CounterBytes;
    var d := Disambiguator(s, reference);
    if Reuses(past, b, d) {
      var o :| (b, o) in past.used && Spelled(o) == d;
      assert OriginSound(s, past, (b, o).1);
      match o
      case Client(c) =>
        if reference.None? {
          CounterIsNoIdentifier(s.counter, c);
        }
      case Anonymous(k) =>
        if reference.Some? {
          CounterIsNoIdentifier(k, reference.value);
        } else {
          CountersDiffer(k, s.counter);
        }
    }
  }

  /** A creation that misses the client index gets an identifier no stored request has. */
  lemma NewRequestIsNew(h: Hash, s: Store, past: History, b: Binding, reference: Option<bytes>)
    requires Injective(h) && IdsSound(h, s, past) && ValidBinding(b)
    requires past.made <= COUNTER_BOUND && (reference.None? ==> past.made < COUNTER_BOUND)
    requires reference.Some? ==> ValidIdentifier(reference.value) && reference.value !in s.clientIndex
    ensures RequestId(h, b, Disambiguator(s, reference)) !in s.records
  {
    hide ValidIdentifier, ValidBinding, RequestId, CounterBytes, KeysSound, OriginsSound, Reuses;
    TakenIff(h, s, past, b, Disambiguator(s, reference));
    NewRequestReusesNothing(s, past, b, reference);
  }

  lemma CountersDiffer(j: nat, k: nat)
    requires j < COUNTER_MODULUS && k < COUNTER_MODULUS && j != k
    ensures CounterBytes(j) != CounterBytes(k)
  {
    CounterBound();
    if CounterBytes(j) == CounterBytes(k) {
      LittleEndianInjective(j, k, 8);
    }
  }

  /** The stored requests, apart from decision, finality and transaction, are the same. */
  ghost predicate SameRequests(s: Store, s': Store) {
    && s'.records.Keys == s.records.Keys
    && s'.clientIndex == s.clientIndex && s'.counter == s.counter
    && forall id :: id in s.records ==> s'.records[id].binding == s.records[id].binding
  }

  ghost predicate SameUses(past: History, past': History) {
    past'.used == past.used && past'.made == past.made
  }

  /** The history only grows, and its rejections only by `id`. */
  ghost predicate Extends(past: History, past': History, id: bytes) {
    && SameUses(past, past')
    && past.approved <= past'.approved && past.rejected <= past'.rejected <= past.rejected + {id}
  }

  lemma KeysAfterChange(h: Hash, s: Store, past: History, s': Store, past': History)
    requires KeysSound(h, s, past) && SameRequests(s, s') && SameUses(past, past')
    ensures KeysSound(h, s', past')
  {
    hide IdOf, ValidBinding;
    forall id | id in s'.records
      ensures MadeBy(h, past', id, s'.records[id].binding)
    {
      assert MadeBy(h, past, id, s.records[id].binding);
    }
  }

  lemma OriginsAfterChange(s: Store, past: History, s': Store, past': History)
    requires OriginsSound(s, past) && SameRequests(s, s') && SameUses(past, past')
    ensures OriginsSound(s', past')
  {
    hide ValidIdentifier;
    forall u | u in past'.used
      ensures OriginSound(s', past', u.1)
    {
      assert OriginSound(s, past, u.1);
    }
  }

  lemma IdsAfterChange(h: Hash, s: Store, past: History, s': Store, past': History)
    requires IdsSound(h, s, past) && SameRequests(s, s') && SameUses(past, past')
    ensures IdsSound(h, s', past')
  {
    hide KeysSound, OriginsSound, SameRequests, SameUses;
    KeysAfterChange(h, s, past, s', past');
    OriginsAfterChange(s, past, s', past');
  }

  lemma DecisionsAfterChange(s: Store, past: History, s': Store, past': History, id: bytes)
    requires DecisionsSound(s, past) && id in s'.records
    requires s'.records == s.records[id := s'.records[id]] && DecisionSound(past', id, s'.records[id])
    requires past.approved <= past'.approved && past.rejected <= past'.rejected <= past.rejected + {id}
    ensures DecisionsSound(s', past')
  {
    forall i | i in s'.records
      ensures DecisionSound(past', i, s'.records[i])
    {
      if i != id {
        assert DecisionSound(past, i, s.records[i]);
      }
    }
  }

  lemma TransactionsAfterChange(h: Hash, s: Store, s': Store)
    requires TransactionsSound(h, s) && SameRequests(s, s') && s'.byTransaction == s.byTransaction
    requires forall id :: id in s.records ==> s'.records[id].transaction == s.records[id].transaction
    ensures TransactionsSound(h, s')
  {
    hide TransactionId;
    forall id | id in s'.records
      ensures TransactionSound(h, s', id, s'.records[id])
    {
      assert TransactionSound(h, s, id, s.records[id]);
    }
  }

  /** A step that changes the decision or finality of one record. */
  lemma ChangeKeeps(h: Hash, s: Store, past: History, s': Store, past': History, id: bytes, r: Record)
    requires Invariant(h, Execution(s, past)) && id in s.records && Extends(past, past', id)
    requires s' == Put(s, id, r).(createFailure := s'.createFailure, approveFailure := s'.approveFailure)
    requires r.binding == s.records[id].binding && r.transaction == s.records[id].transaction
    requires DecisionSound(past', id, r)
    ensures Invariant(h, Execution(s', past'))
  {
    hide IdsSound, DecisionsSound, TransactionsSound, DecisionSound;
    IdsAfterChange(h, s, past, s', past');
    DecisionsAfterChange(s, past, s', past', id);
    TransactionsAfterChange(h, s, s');
  }

  /** A step that leaves the records and both indexes alone. */
  lemma NoChangeKeeps(h: Hash, s: Store, past: History, s': Store, past': History)
    requires Invariant(h, Execution(s, past))
    requires s'.records == s.records && s'.clientIndex == s.clientIndex && s'.byTransaction == s.byTransaction
    requires s'.counter == s.counter && past' == past
    ensures Invariant(h, Execution(s', past'))
  {
    hide IdsSound, TransactionsSound, DecisionSound;
    IdsAfterChange(h, s, past, s', past');
    TransactionsAfterChange(h, s, s');
  }

  lemma ApproveKeeps(h: Hash, s: Store, past: History, id: bytes, b: Binding)
    requires Invariant(h, Execution(s, past))
    ensures Invariant(h, Execution(Next(h, s, ApproveStep(id, b)), Recorded(s, past, ApproveStep(id, b))))
  {
    hide IdsSound, TransactionsSound;
    var s', past' := Next(h, s, ApproveStep(id, b)), Recorded(s, past, ApproveStep(id, b));
    if Approve(s, id, b).1.Ok? {
      assert DecisionSound(past, id, s.records[id]);
      ChangeKeeps(h, s, past, s', past', id, s.records[id].(decision := Approved));
    } else {
      NoChangeKeeps(h, s, past, s', past');
    }
  }

  lemma RejectKeeps(h: Hash, s: Store, past: History, id: bytes)
    requires Invariant(h, Execution(s, past))
    ensures Invariant(h, Execution(Next(h, s, RejectStep(id)), Recorded(s, past, RejectStep(id))))
  {
    hide IdsSound, TransactionsSound;
    var s', past' := Next(h, s, RejectStep(id)), Recorded(s, past, RejectStep(id));
    if Reject(s, id).1.Ok? {
      assert DecisionSound(past, id, s.records[id]);
      ChangeKeeps(h, s, past, s', past', id, s.records[id].(decision := Rejected));
    } else {
      NoChangeKeeps(h, s, past, s', past');
    }
  }

  lemma FinalityKeeps(h: Hash, s: Store, past: History, id: bytes, f: Finality)
    requires Invariant(h, Execution(s, past))
    ensures Invariant(h, Execution(SetFinality(s, id, f), past))
    ensures Invariant(h, Execution(Expire(s, id), past))
  {
    hide IdsSound, TransactionsSound;
    if id in s.records {
      assert DecisionSound(past, id, s.records[id]);
      ChangeKeeps(h, s, past, SetFinality(s, id, f), past, id, s.records[id].(finality := f));
      ChangeKeeps(h, s, past, Expire(s, id), past, id, s.records[id].(decision := Expired));
    }
  }

  lemma SameButExpired(h: Hash, s: Store, past: History, expired: set<bytes>)
    requires Invariant(h, Execution(s, past))
    ensures Invariant(h, Execution(s, past.(expired := expired)))
  {
    hide DecisionsSound, TransactionsSound, OriginSound, IdOf, ValidBinding;
    var past' := past.(expired := expired);
    IdsAfterChange(h, s, past, s, past');
    DecisionsWithout(s, past, past');
  }

  lemma DecisionsWithout(s: Store, past: History, past': History)
    requires DecisionsSound(s, past) && past'.approved == past.approved && past'.rejected == past.rejected
    ensures DecisionsSound(s, past')
  {
    forall id | id in s.records
      ensures DecisionSound(past', id, s.records[id])
    {
      assert DecisionSound(past, id, s.records[id]);
    }
  }

  /** What creating a request changes. */
  lemma CreateEffect(h: Hash, s: Store, past: History, step: Step)
    requires Creates(s, step)
    ensures var s', past' := Next(h, s, step), Recorded(s, past, step);
            var u := (step.binding, OriginOf(s, step.reference));
            && IdOf(h, u) == RequestId(h, step.binding, Disambiguator(s, step.reference))
            && past'.used == past.used + {u} && past'.made == past.made + (if step.reference.None? then 1 else 0)
            && past'.approved == past.approved && past'.rejected == past.rejected && past'.expired == past.expired
            && s'.records == s.records[IdOf(h, u) := Record(step.binding, step.maxFee, Pending, None, false, NotFinalized)]
            && s'.byTransaction == s.byTransaction && s'.createFailure == None
            && s'.counter == (if step.reference.None? then (s.counter + 1) % COUNTER_MODULUS else s.counter)
            && s'.clientIndex == (if step.reference.None? then s.clientIndex
                                  else s.clientIndex[step.reference.value := IdOf(h, u)])
  {
    hide RequestId, CounterBytes, ValidBinding, ValidIdentifier;
  }

  lemma CreateKeepsKeys(h: Hash, s: Store, past: History, step: Step)
    requires Injective(h) && KeysSound(h, s, past) && Creates(s, step) && WellTyped(step)
    ensures KeysSound(h, Next(h, s, step), Recorded(s, past, step))
  {
    CreateEffect(h, s, past, step);
    hide ValidBinding, ValidIdentifier, Next, Recorded, IdOf, RequestId, Disambiguator;
    var b, o := step.binding, OriginOf(s, step.reference);
    var s', past' := Next(h, s, step), Recorded(s, past, step);
    TakenIff(h, s, past, b, Disambiguator(s, step.reference));
    forall id | id in s'.records
      ensures MadeBy(h, past', id, s'.records[id].binding)
    {
      if id == IdOf(h, (b, o)) {
        assert (b, o) in past'.used;
      } else {
        assert MadeBy(h, past, id, s.records[id].binding);
        var o' :| (s.records[id].binding, o') in past.used && id == IdOf(h, (s.records[id].binding, o'));
        assert (s.records[id].binding, o') in past'.used;
      }
    }
  }

  lemma CreateKeepsOrigins(h: Hash, s: Store, past: History, step: Step)
    requires OriginsSound(s, past) && Creates(s, step) && WellTyped(step)
    ensures OriginsSound(Next(h, s, step), Recorded(s, past, step))
  {
    CreateEffect(h, s, past, step);
    hide ValidBinding, ValidIdentifier, Next, Recorded, IdOf, RequestId, Disambiguator;
    var s', past' := Next(h, s, step), Recorded(s, past, step);
    NextModulo(past.made);
    forall u | u in past'.used
      ensures OriginSound(s', past', u.1)
    {
      if u in past.used {
        assert OriginSound(s, past, u.1);
      }
    }
  }

  lemma NextModulo(made: nat)
    ensures (made % COUNTER_MODULUS + 1) % COUNTER_MODULUS == (made + 1) % COUNTER_MODULUS
    ensures made % COUNTER_MODULUS <= made
  {
  }

  lemma CreateKeeps(h: Hash, s: Store, past: History, step: Step)
    requires Injective(h) && Invariant(h, Execution(s, past)) && Creates(s, step) && WellTyped(step)
    requires Recorded(s, past, step).made <= COUNTER_BOUND
    ensures Invariant(h, Execution(Next(h, s, step), Recorded(s, past, step)))
    ensures RequestId(h, step.binding, Disambiguator(s, step.reference)) !in s.records
  {
    CreateEffect(h, s, past, step);
    hide RequestId, TransactionId, CounterBytes, ValidBinding, ValidIdentifier, Next, Disambiguator, Recorded;
    hide KeysSound, OriginsSound, IdOf;
    NewRequestIsNew(h, s, past, step.binding, step.reference);
    CreateKeepsKeys(h, s, past, step);
    CreateKeepsOrigins(h, s, past, step);
    hide WellTyped;
    var id := RequestId(h, step.binding, Disambiguator(s, step.reference));
    var s', past' := Next(h, s, step), Recorded(s, past, step);
    DecisionsAfterChange(s, past, s', past', id);
    CreateKeepsTransactions(h, s, s', id);
  }

  lemma CreateKeepsTransactions(h: Hash, s: Store, s': Store, id: bytes)
    requires TransactionsSound(h, s) && id !in s.records && id in s'.records && s'.byTransaction == s.byTransaction
    requires s'.records == s.records[id := s'.records[id]] && s'.records[id].transaction.None?
    ensures TransactionsSound(h, s')
  {
    hide TransactionId;
    forall i | i in s'.records
      ensures TransactionSound(h, s', i, s'.records[i])
    {
      if i in s.records {
        assert TransactionSound(h, s, i, s.records[i]);
      }
    }
  }

  lemma SealKeeps(h: Hash, s: Store, past: History, step: Step)
    requires Injective(h) && Invariant(h, Execution(s, past))
    requires step.SubmitStep? && SubmitRefusal(s, step.id, step.binding, step.digest).None?
    ensures Invariant(h, Execution(Next(h, s, step), past))
  {
    hide RequestId, TransactionId, CounterBytes, KeysSound, OriginsSound;
    var s', id := Next(h, s, step), step.id;
    var t := TransactionId(h, id, s.records[id].binding.digest);
    if t in s.byTransaction {
      SameTransactionSameRequest(h, s, past, id, s.byTransaction[t]);
    }
    assert DecisionSound(past, id, s.records[id]);
    DecisionsAfterChange(s, past, s', past, id);
    IdsAfterChange(h, s, past, s', past);
    hide IdsSound, DecisionSound;
    SealKeepsTransactions(h, s, s', id, t);
  }

  lemma SealKeepsTransactions(h: Hash, s: Store, s': Store, id: bytes, t: bytes)
    requires TransactionsSound(h, s) && id in s.records && id in s'.records
    requires t == TransactionId(h, id, s.records[id].binding.digest)
    requires t in s.byTransaction ==> s.byTransaction[t] == id
    requires s'.byTransaction == s.byTransaction[t := id]
    requires s'.records == s.records[id := s'.records[id]]
    requires s'.records[id].transaction == Some(t) && s'.records[id].binding == s.records[id].binding
    ensures TransactionsSound(h, s')
  {
    hide TransactionId;
    forall i | i in s'.records
      ensures TransactionSound(h, s', i, s'.records[i])
    {
      assert TransactionSound(h, s, i, s.records[i]);
    }
    assert TransactionSound(h, s, id, s.records[id]);
  }

  /** A transaction identifier determines its request. */
  lemma SameTransactionSameRequest(h: Hash, s: Store, past: History, a: bytes, b: bytes)
    requires Injective(h) && IdsSound(h, s, past) && TransactionsSound(h, s) && a in s.records && b in s.records
    requires s.records[b].transaction == Some(TransactionId(h, a, s.records[a].binding.digest))
    ensures a == b
  {
    hide RequestId, TransactionId, CounterBytes, ValidBinding, ValidIdentifier;
    IdsHaveNoNul(h, s, past, a);
    IdsHaveNoNul(h, s, past, b);
    assert TransactionSound(h, s, b, s.records[b]);
    TransactionIdInjective(h, a, s.records[a].binding.digest, b, s.records[b].binding.digest);
  }

  lemma IdsHaveNoNul(h: Hash, s: Store, past: History, id: bytes)
    requires IdsSound(h, s, past) && id in s.records
    ensures 0 !in id
  {
    hide ValidIdentifier, ValidBinding, RequestId, KeysSound, OriginsSound;
    var o := StoredBinding(h, s, past, id);
    RequestIdHasNoNul(h, s.records[id].binding, Spelled(o));
  }

  lemma StepKeeps(h: Hash, e: Execution, step: Step)
    requires Injective(h) && Invariant(h, e) && WellTyped(step)
    requires Advance(h, e, step).past.made <= COUNTER_BOUND
    ensures Invariant(h, Advance(h, e, step))
    ensures Creates(e.store, step) ==>
              RequestId(h, step.binding, Disambiguator(e.store, step.reference)) !in e.store.records
  {
    hide Invariant, RequestId, TransactionId, CounterBytes, ValidBinding, ValidIdentifier;
    var s, past := e.store, e.past;
    var s', past' := Next(h, s, step), Recorded(s, past, step);
    if Creates(s, step) {
      CreateKeeps(h, s, past, step);
    } else {
      match step
      case ApproveStep(id, b) => ApproveKeeps(h, s, past, id, b);
      case RejectStep(id) => RejectKeeps(h, s, past, id);
      case FinalityStep(id, f) => FinalityKeeps(h, s, past, id, f);
      case ExpireStep(id) =>
        FinalityKeeps(h, s, past, id, Unknown);
        SameButExpired(h, s', past, past'.expired);
      case SubmitStep(id, b, d) =>
        if SubmitRefusal(s, id, b, d).None? {
          SealKeeps(h, s, past, step);
        } else {
          NoChangeKeeps(h, s, past, s', past');
        }
      case _ => NoChangeKeeps(h, s, past, s', past');
    }
  }
}
