/** What each operation of the anchor store answers, in terms of the calls made before it. */
module AnchorVerdicts {
  import opened Bytes
  import opened AnchorIds
  import opened AnchorStore
  import opened AnchorReuse
  import opened AnchorRuns

  // ---------------------------------------------------------------------
  // Decisions follow from the history
  // ---------------------------------------------------------------------

  /** Expiry is final, then approval, then rejection; without any of them a request is pending. */
  function Verdict(past: History, id: bytes, b: Binding): Decision {
    if id in past.expired then Expired
    else if (id, b) in past.approved then Approved
    else if id in past.rejected then Rejected
    else Pending
  }

  ghost predicate VerdictsSound(e: Execution) {
    && (forall id :: id in e.store.records ==>
          e.store.records[id].decision == Verdict(e.past, id, e.store.records[id].binding))
    && (forall id :: id in e.past.expired ==> id in e.store.records)
    && (forall id :: id in e.past.rejected ==> id in e.store.records)
    && (forall p :: p in e.past.approved ==> p.0 in e.store.records && p.1 == e.store.records[p.0].binding)
  }

  lemma VerdictsSame(e: Execution, e': Execution)
    requires VerdictsSound(e) && e'.past.approved == e.past.approved && e'.past.rejected == e.past.rejected
    requires e'.past.expired == e.past.expired && e'.store.records.Keys == e.store.records.Keys
    requires forall id :: id in e.store.records ==>
               && e'.store.records[id].decision == e.store.records[id].decision
               && e'.store.records[id].binding == e.store.records[id].binding
    ensures VerdictsSound(e')
  {
  }

  /** One record is decided anew, and the history says so. */
  lemma VerdictsDecide(e: Execution, e': Execution, id: bytes)
    requires VerdictsSound(e) && id in e.store.records && id in e'.store.records
    requires e'.store.records == e.store.records[id := e.store.records[id].(decision := e'.store.records[id].decision)]
    requires e.past.approved <= e'.past.approved <= e.past.approved + {(id, e.store.records[id].binding)}
    requires e.past.rejected <= e'.past.rejected <= e.past.rejected + {id}
    requires e.past.expired <= e'.past.expired <= e.past.expired + {id}
    requires e'.store.records[id].decision == Verdict(e'.past, id, e.store.records[id].binding)
    ensures VerdictsSound(e')
  {
  }

  lemma ApproveVerdicts(h: Hash, e: Execution, id: bytes, b: Binding)
    requires VerdictsSound(e)
    ensures VerdictsSound(Advance(h, e, ApproveStep(id, b)))
  {
    hide VerdictsSound;
    var e' := Advance(h, e, ApproveStep(id, b));
    if Approve(e.store, id, b).1.Ok? {
      assert b == e.store.records[id].binding;
      assert e.store.records[id].decision == Pending;
      PendingMeans(e, id);
      VerdictsDecide(e, e', id);
    } else {
      VerdictsSame(e, e');
    }
  }

  lemma PendingMeans(e: Execution, id: bytes)
    requires VerdictsSound(e) && id in e.store.records
    ensures e.store.records[id].decision == Verdict(e.past, id, e.store.records[id].binding)
  {
  }

  lemma RejectVerdicts(h: Hash, e: Execution, id: bytes)
    requires VerdictsSound(e)
    ensures VerdictsSound(Advance(h, e, RejectStep(id)))
  {
    hide VerdictsSound;
    var e' := Advance(h, e, RejectStep(id));
    if Reject(e.store, id).1.Ok? {
      PendingMeans(e, id);
      VerdictsDecide(e, e', id);
    } else {
      VerdictsSame(e, e');
    }
  }

  lemma ExpireVerdicts(h: Hash, e: Execution, id: bytes)
    requires VerdictsSound(e)
    ensures VerdictsSound(Advance(h, e, ExpireStep(id)))
  {
    hide VerdictsSound;
    var e' := Advance(h, e, ExpireStep(id));
    if id in e.store.records {
      VerdictsDecide(e, e', id);
    } else {
      VerdictsSame(e, e');
    }
  }

  lemma CreateVerdicts(h: Hash, e: Execution, step: Step)
    requires VerdictsSound(e) && Creates(e.store, step)
    requires RequestId(h, step.binding, Disambiguator(e.store, step.reference)) !in e.store.records
    ensures VerdictsSound(Advance(h, e, step))
  {
    CreateEffect(h, e.store, e.past, step);
    hide Next, Recorded, RequestId, IdOf, Disambiguator;
  }

  lemma OtherVerdicts(h: Hash, e: Execution, step: Step)
    requires VerdictsSound(e) && !Creates(e.store, step)
    requires !step.ApproveStep? && !step.RejectStep? && !step.ExpireStep?
    ensures VerdictsSound(Advance(h, e, step))
  {
    hide VerdictsSound, TransactionId, RequestId, CounterBytes;
    VerdictsSame(e, Advance(h, e, step));
  }

  lemma StepVerdicts(h: Hash, e: Execution, step: Step)
    requires Injective(h) && Invariant(h, e) && WellTyped(step) && VerdictsSound(e)
    requires Advance(h, e, step).past.made <= COUNTER_BOUND
    ensures VerdictsSound(Advance(h, e, step))
  {
    hide Invariant, WellTyped, VerdictsSound, RequestId;
    StepKeeps(h, e, step);
    hide Advance;
    if Creates(e.store, step) {
      CreateVerdicts(h, e, step);
    } else {
      match step
      case ApproveStep(id, b) => ApproveVerdicts(h, e, id, b);
      case RejectStep(id) => RejectVerdicts(h, e, id);
      case ExpireStep(id) => ExpireVerdicts(h, e, id);
      case _ => OtherVerdicts(h, e, step);
    }
  }

  lemma {:induction false} RunVerdicts(h: Hash, source: SourceKind, steps: seq<Step>)
    requires Injective(h) && Admissible(h, Start(source), steps)
    ensures VerdictsSound(Run(h, Start(source), steps)) && Invariant(h, Run(h, Start(source), steps))
    decreases |steps|
  {
    hide Invariant, Advance, WellTyped, VerdictsSound;
    if steps == [] {
      StartSound(h, source);
    } else {
      var n := |steps| - 1;
      MadeGrows(h, Run(h, Start(source), steps[..n]), steps[n]);
      RunVerdicts(h, source, steps[..n]);
      StepVerdicts(h, Run(h, Start(source), steps[..n]), steps[n]);
      StepKeeps(h, Run(h, Start(source), steps[..n]), steps[n]);
    }
  }

  lemma StartSound(h: Hash, source: SourceKind)
    ensures VerdictsSound(Start(source)) && Invariant(h, Start(source))
  {
  }

  // ---------------------------------------------------------------------
  // The history follows from the calls
  // ---------------------------------------------------------------------

  ghost predicate RejectsAt(h: Hash, source: SourceKind, steps: seq<Step>, i: nat, id: bytes)
    requires i < |steps|
  {
    steps[i] == RejectStep(id) && Reject(Run(h, Start(source), steps[..i]).store, id).1.Ok?
  }

  ghost predicate ExpiresAt(h: Hash, source: SourceKind, steps: seq<Step>, i: nat, id: bytes)
    requires i < |steps|
  {
    steps[i] == ExpireStep(id) && id in Run(h, Start(source), steps[..i]).store.records
  }

  lemma {:induction false} RejectedMeans(h: Hash, source: SourceKind, steps: seq<Step>, id: bytes)
    ensures id in Run(h, Start(source), steps).past.rejected <==>
            exists i :: 0 <= i < |steps| && RejectsAt(h, source, steps, i, id)
    decreases |steps|
  {
    hide Next, Approve, Reject;
    if steps != [] {
      var n := |steps| - 1;
      var before := steps[..n];
      RejectedMeans(h, source, before, id);
      forall i | 0 <= i < n
        ensures RejectsAt(h, source, before, i, id) == RejectsAt(h, source, steps, i, id)
      {
        assert before[..i] == steps[..i];
      }
      assert id in Run(h, Start(source), steps).past.rejected <==>
             id in Run(h, Start(source), before).past.rejected || RejectsAt(h, source, steps, n, id);
      if i :| 0 <= i < n && RejectsAt(h, source, before, i, id) {
        assert RejectsAt(h, source, steps, i, id);
      }
    }
  }

  lemma {:induction false} ExpiredMeans(h: Hash, source: SourceKind, steps: seq<Step>, id: bytes)
    ensures id in Run(h, Start(source), steps).past.expired <==>
            exists i :: 0 <= i < |steps| && ExpiresAt(h, source, steps, i, id)
    decreases |steps|
  {
    hide Next, Approve, Reject;
    if steps != [] {
      var n := |steps| - 1;
      var before := steps[..n];
      ExpiredMeans(h, source, before, id);
      forall i | 0 <= i < n
        ensures ExpiresAt(h, source, before, i, id) == ExpiresAt(h, source, steps, i, id)
      {
        assert before[..i] == steps[..i];
      }
      assert id in Run(h, Start(source), steps).past.expired <==>
             id in Run(h, Start(source), before).past.expired || ExpiresAt(h, source, steps, n, id);
      if i :| 0 <= i < n && ExpiresAt(h, source, before, i, id) {
        assert ExpiresAt(h, source, steps, i, id);
      }
    }
  }

  /** Some call created the request under `b`. */
  ghost predicate WasCreated(h: Hash, source: SourceKind, steps: seq<Step>, id: bytes, b: Binding) {
    exists i, o :: 0 <= i < |steps| && MadeAt(h, source, steps, i, b, o) && id == IdOf(h, (b, o))
  }

  ghost predicate WasApproved(h: Hash, source: SourceKind, steps: seq<Step>, id: bytes) {
    exists i, b :: 0 <= i < |steps| && ApprovesAt(h, source, steps, i, id, b)
  }

  ghost predicate WasRejected(h: Hash, source: SourceKind, steps: seq<Step>, id: bytes) {
    exists i :: 0 <= i < |steps| && RejectsAt(h, source, steps, i, id)
  }

  ghost predicate WasExpired(h: Hash, source: SourceKind, steps: seq<Step>, id: bytes) {
    exists i :: 0 <= i < |steps| && ExpiresAt(h, source, steps, i, id)
  }

  /** A request is stored, under a binding, exactly when some call created it under that binding. */
  lemma StoredMeans(h: Hash, source: SourceKind, steps: seq<Step>, id: bytes, b: Binding)
    requires Injective(h) && AllWellTyped(steps)
    ensures var s := Run(h, Start(source), steps).store;
            id in s.records && s.records[id].binding == b <==> WasCreated(h, source, steps, id, b)
  {
    hide Run, MadeAt, IdOf, WellTyped, OriginsSound, KeysSound, RequestId, ValidBinding;
    RunIdsSound(h, source, steps);
    var e := Run(h, Start(source), steps);
    if id in e.store.records && e.store.records[id].binding == b {
      var o := StoredBinding(h, e.store, e.past, id);
      UsedMeans(h, source, steps, b, o);
    }
    if WasCreated(h, source, steps, id, b) {
      var i, o :| 0 <= i < |steps| && MadeAt(h, source, steps, i, b, o) && id == IdOf(h, (b, o));
      UsedMeans(h, source, steps, b, o);
      UsedBinding(h, e.store, e.past, (b, o));
      IdTellsBinding(h, e, b, o);
    }
  }

  lemma IdTellsBinding(h: Hash, e: Execution, b: Binding, o: Origin)
    requires Injective(h) && KeysSound(h, e.store, e.past) && (b, o) in e.past.used && IdOf(h, (b, o)) in e.store.records
    ensures e.store.records[IdOf(h, (b, o))].binding == b
  {
    hide KeysSound, RequestId, ValidBinding;
    UsedBinding(h, e.store, e.past, (b, o));
    TakenIff(h, e.store, e.past, b, Spelled(o));
  }

  /** Every stored decision is the one its calls imply. */
  lemma DecisionIs(h: Hash, source: SourceKind, steps: seq<Step>, id: bytes)
    requires Injective(h) && Admissible(h, Start(source), steps)
    requires id in Run(h, Start(source), steps).store.records
    ensures Run(h, Start(source), steps).store.records[id].decision ==
            if WasExpired(h, source, steps, id) then Expired
            else if WasApproved(h, source, steps, id) then Approved
            else if WasRejected(h, source, steps, id) then Rejected
            else Pending
  {
    hide Run, ApprovesAt, RejectsAt, ExpiresAt, Invariant, WellTyped;
    RunVerdicts(h, source, steps);
    var e := Run(h, Start(source), steps);
    ExpiredMeans(h, source, steps, id);
    RejectedMeans(h, source, steps, id);
    forall b
      ensures (id, b) in e.past.approved <==> exists i :: 0 <= i < |steps| && ApprovesAt(h, source, steps, i, id, b)
    {
      ApprovedMeans(h, source, steps, id, b);
    }
    if WasApproved(h, source, steps, id) {
      var i, b :| 0 <= i < |steps| && ApprovesAt(h, source, steps, i, id, b);
      assert (id, b) in e.past.approved;
      assert (id, b).1 == e.store.records[id].binding;
    }
  }

  // ---------------------------------------------------------------------
  // Armed failures and switches
  // ---------------------------------------------------------------------

  /** The failure armed for the next creation: set since the last creation call. */
  function ArmedCreation(steps: seq<Step>): Option<PreparationError>
    decreases |steps|
  {
    if steps == [] then None
    else match steps[|steps| - 1]
      case FailNextCreate(error) => Some(error)
      case CreateStep(_, _, _) => None
      case _ => ArmedCreation(steps[..|steps| - 1])
  }

  /** The failure armed for the next approval: set since the last approval call. */
  function ArmedApproval(steps: seq<Step>): Option<ApprovalError>
    decreases |steps|
  {
    if steps == [] then None
    else match steps[|steps| - 1]
      case FailNextApprove(error) => Some(error)
      case ApproveStep(_, _) => None
      case _ => ArmedApproval(steps[..|steps| - 1])
  }

  /** The source was last switched off. */
  function SwitchedOff(steps: seq<Step>): bool
    decreases |steps|
  {
    steps != [] &&
    match steps[|steps| - 1]
    case SetUnavailable(off) => off
    case _ => SwitchedOff(steps[..|steps| - 1])
  }

  /** The submission at `steps[i]` sealed its request. */
  ghost predicate SealsAt(h: Hash, source: SourceKind, steps: seq<Step>, i: nat)
    requires i < |steps|
  {
    && steps[i].SubmitStep?
    && SubmitRefusal(Run(h, Start(source), steps[..i]).store, steps[i].id, steps[i].binding, steps[i].digest).None?
  }

  /** A timeout is armed: since the last submission that sealed anything. */
  ghost function ArmedTimeout(h: Hash, source: SourceKind, steps: seq<Step>): bool
    decreases |steps|
  {
    if steps == [] then false
    else
      var n := |steps| - 1;
      if steps[n].ArmTimeout? then true
      else if SealsAt(h, source, steps, n) then false
      else ArmedTimeout(h, source, steps[..n])
  }

  lemma CreateSwitches(h: Hash, s: Store, b: Binding, fee: nat, c: Option<bytes>)
    ensures Create(h, s, b, fee, c).0 ==
            var s' := Create(h, s, b, fee, c).0;
            s.(records := s'.records, clientIndex := s'.clientIndex, counter := s'.counter, createFailure := None)
  {
    hide RequestId, CounterBytes;
  }

  lemma ApproveSwitches(s: Store, id: bytes, b: Binding)
    ensures Approve(s, id, b).0 == s.(records := Approve(s, id, b).0.records, approveFailure := None)
  {
  }

  lemma SubmitSwitches(h: Hash, s: Store, id: bytes, b: Binding, digest: bytes)
    ensures var s' := Submit(h, s, id, b, digest).0;
            s' == s.(records := s'.records, byTransaction := s'.byTransaction,
                     submitTimeout := if SubmitRefusal(s, id, b, digest).None? then false else s.submitTimeout)
  {
    hide TransactionId;
  }

  lemma DecideSwitches(s: Store, id: bytes, f: Finality)
    ensures Reject(s, id).0 == s.(records := Reject(s, id).0.records)
    ensures SetFinality(s, id, f) == s.(records := SetFinality(s, id, f).records)
    ensures Expire(s, id) == s.(records := Expire(s, id).records)
  {
  }

  lemma StepSwitches(h: Hash, s: Store, step: Step)
    ensures var s' := Next(h, s, step);
            && s'.source == s.source
            && s'.createFailure == (if step.FailNextCreate? then Some(step.preparation)
                                    else if step.CreateStep? then None else s.createFailure)
            && s'.approveFailure == (if step.FailNextApprove? then Some(step.approval)
                                     else if step.ApproveStep? then None else s.approveFailure)
            && s'.unavailable == (if step.SetUnavailable? then step.unavailable else s.unavailable)
            && s'.submitTimeout == (if step.ArmTimeout? then true
                                    else if step.SubmitStep? && SubmitRefusal(s, step.id, step.binding, step.digest).None? then false
                                    else s.submitTimeout)
  {
    hide Create, Approve, Reject, Submit, SetFinality, Expire, SubmitRefusal;
    match step
    case CreateStep(b, fee, c) => CreateSwitches(h, s, b, fee, c);
    case ApproveStep(id, b) => ApproveSwitches(s, id, b);
    case SubmitStep(id, b, d) => SubmitSwitches(h, s, id, b, d);
    case RejectStep(id) => DecideSwitches(s, id, Unknown);
    case FinalityStep(id, f) => DecideSwitches(s, id, f);
    case ExpireStep(id) => DecideSwitches(s, id, Unknown);
    case _ =>
  }

  /** Switches and armed failures are those of the last calls that set them. */
  lemma {:induction false} SwitchesAre(h: Hash, source: SourceKind, steps: seq<Step>)
    ensures var s := Run(h, Start(source), steps).store;
            && s.source == source && s.unavailable == SwitchedOff(steps)
            && s.createFailure == ArmedCreation(steps) && s.approveFailure == ArmedApproval(steps)
            && s.submitTimeout == ArmedTimeout(h, source, steps)
    decreases |steps|
  {
    hide Next, SubmitRefusal, Recorded;
    if steps != [] {
      var n := |steps| - 1;
      SwitchesAre(h, source, steps[..n]);
      StepSwitches(h, Run(h, Start(source), steps[..n]).store, steps[n]);
    }
  }

  // ---------------------------------------------------------------------
  // Answers
  // ---------------------------------------------------------------------

  /** Nobody created the request. */
  ghost predicate NeverCreated(h: Hash, source: SourceKind, steps: seq<Step>, id: bytes) {
    forall b :: !WasCreated(h, source, steps, id, b)
  }

  lemma Stored(h: Hash, source: SourceKind, steps: seq<Step>, id: bytes)
    requires Injective(h) && AllWellTyped(steps)
    ensures id in Run(h, Start(source), steps).store.records <==> !NeverCreated(h, source, steps, id)
  {
    hide Run, WasCreated, WellTyped;
    var s := Run(h, Start(source), steps).store;
    if id in s.records {
      StoredMeans(h, source, steps, id, s.records[id].binding);
    }
    if b :| WasCreated(h, source, steps, id, b) {
      StoredMeans(h, source, steps, id, b);
    }
  }

  /** What a rejection answers: it succeeds exactly for a created request that was neither approved nor expired. */
  lemma RejectAnswers(h: Hash, source: SourceKind, steps: seq<Step>, id: bytes)
    requires Injective(h) && Admissible(h, Start(source), steps)
    ensures Reject(Run(h, Start(source), steps).store, id).1 ==
            if NeverCreated(h, source, steps, id) then Err(ApprovalNotFound)
            else if WasExpired(h, source, steps, id) then Err(ApprovalExpired)
            else if WasApproved(h, source, steps, id) then Err(AlreadyApproved)
            else Ok(())
  {
    hide Run, NeverCreated, WasExpired, WasApproved, WasRejected, WellTyped;
    Stored(h, source, steps, id);
    if id in Run(h, Start(source), steps).store.records {
      DecisionIs(h, source, steps, id);
    }
  }

  /**
   * What an approval under the request's own binding answers: the armed failure, or success exactly
   * for a created request that was not yet approved, rejected or expired, or the reason.
   */
  lemma ApproveAnswers(h: Hash, source: SourceKind, steps: seq<Step>, id: bytes, b: Binding)
    requires Injective(h) && Admissible(h, Start(source), steps) && WasCreated(h, source, steps, id, b)
    ensures Approve(Run(h, Start(source), steps).store, id, b).1 ==
            if ArmedApproval(steps).Some? then Err(ArmedApproval(steps).value)
            else if WasExpired(h, source, steps, id) then Err(ApprovalExpired)
            else if WasApproved(h, source, steps, id) then Err(AlreadyApproved)
            else if WasRejected(h, source, steps, id) then Err(AlreadyRejected)
            else Ok(ApprovedTransaction(id, b))
  {
    hide Run, WasCreated, WasExpired, WasApproved, WasRejected, WellTyped, ArmedApproval;
    SwitchesAre(h, source, steps);
    StoredMeans(h, source, steps, id, b);
    DecisionIs(h, source, steps, id);
  }

  /** An approval under any other binding is refused for the first part that differs. */
  lemma ApproveMismatch(h: Hash, source: SourceKind, steps: seq<Step>, id: bytes, b: Binding, other: Binding)
    requires Injective(h) && Admissible(h, Start(source), steps) && ArmedApproval(steps).None?
    ensures NeverCreated(h, source, steps, id) ==>
              Approve(Run(h, Start(source), steps).store, id, other).1 == Err(ApprovalNotFound)
    ensures WasCreated(h, source, steps, id, b) && other != b ==>
              Approve(Run(h, Start(source), steps).store, id, other).1 ==
              Err(if other.network != b.network then ApprovalNetwork
                  else if other.account != b.account then ApprovalAccount else ApprovalPayload)
  {
    hide Run, WasCreated, WellTyped, ArmedApproval, NeverCreated;
    SwitchesAre(h, source, steps);
    Stored(h, source, steps, id);
    StoredMeans(h, source, steps, id, b);
  }

  /**
   * What a submission under the request's own binding and digest answers: it seals exactly a
   * created request that was approved and has not expired, and then answers unless a timeout is armed.
   */
  lemma SubmitAnswers(h: Hash, source: SourceKind, steps: seq<Step>, id: bytes, b: Binding)
    requires Injective(h) && Admissible(h, Start(source), steps) && WasCreated(h, source, steps, id, b)
    ensures Submit(h, Run(h, Start(source), steps).store, id, b, b.digest).1 ==
            if WasExpired(h, source, steps, id) then Err(SubmissionExpired)
            else if WasApproved(h, source, steps, id) then
              (if ArmedTimeout(h, source, steps) then Err(Timeout) else Ok(Submitted(id, TransactionId(h, id, b.digest), b)))
            else if WasRejected(h, source, steps, id) then Err(SubmissionRejected)
            else Err(NotApproved)
  {
    hide Run, WasCreated, WasExpired, WasApproved, WasRejected, WellTyped, ArmedTimeout, TransactionId;
    SwitchesAre(h, source, steps);
    StoredMeans(h, source, steps, id, b);
    DecisionIs(h, source, steps, id);
  }

  /** A submission under any other binding or digest is refused for the first part that differs. */
  lemma SubmitMismatch(h: Hash, source: SourceKind, steps: seq<Step>, id: bytes, b: Binding, other: Binding, digest: bytes)
    requires Injective(h) && AllWellTyped(steps)
    ensures NeverCreated(h, source, steps, id) ==>
              SubmitRefusal(Run(h, Start(source), steps).store, id, other, digest) == Some(SubmissionNotFound)
    ensures WasCreated(h, source, steps, id, b) && (other != b || digest != b.digest) ==>
              SubmitRefusal(Run(h, Start(source), steps).store, id, other, digest) ==
              Some(if other.network != b.network then SubmissionNetwork
                   else if other.account != b.account then SubmissionAccount else SubmissionPayload)
  {
    hide Run, WasCreated, WellTyped, NeverCreated;
    Stored(h, source, steps, id);
    StoredMeans(h, source, steps, id, b);
  }

  // ---------------------------------------------------------------------
  // Finality
  // ---------------------------------------------------------------------

  /** The finality last scripted for the request, or unknown if a later submission lost its response. */
  ghost function LastFinality(h: Hash, source: SourceKind, steps: seq<Step>, id: bytes): Finality
    decreases |steps|
  {
    if steps == [] then NotFinalized
    else
      var n := |steps| - 1;
      match steps[n]
      case FinalityStep(other, f) =>
        if other == id && id in Run(h, Start(source), steps[..n]).store.records then f
        else LastFinality(h, source, steps[..n], id)
      case SubmitStep(other, _, _) =>
        if other == id && SealsAt(h, source, steps, n) && ArmedTimeout(h, source, steps[..n]) then Unknown
        else LastFinality(h, source, steps[..n], id)
      case _ => LastFinality(h, source, steps[..n], id)
  }

  lemma ApproveFinality(s: Store, id: bytes, other: bytes, b: Binding)
    requires id in s.records
    ensures var s' := Approve(s, other, b).0;
            id in s'.records && s'.records[id] == s.records[id].(decision := s'.records[id].decision)
  {
  }

  lemma RejectFinality(s: Store, id: bytes, other: bytes)
    requires id in s.records
    ensures var s' := Reject(s, other).0;
            id in s'.records && s'.records[id] == s.records[id].(decision := s'.records[id].decision)
  {
  }

  lemma ExpireFinality(s: Store, id: bytes, other: bytes)
    requires id in s.records
    ensures var s' := Expire(s, other);
            id in s'.records && s'.records[id] == s.records[id].(decision := s'.records[id].decision)
  {
  }

  lemma ScriptFinality(s: Store, id: bytes, other: bytes, f: Finality)
    requires id in s.records
    ensures var s' := SetFinality(s, other, f);
            id in s'.records && s'.records[id] == s.records[id].(finality := if other == id then f else s.records[id].finality)
  {
  }

  lemma SubmitFinality(h: Hash, s: Store, id: bytes, other: bytes, b: Binding, digest: bytes)
    requires id in s.records
    ensures var s' := Submit(h, s, other, b, digest).0;
            && id in s'.records
            && s'.records[id].finality ==
               (if other == id && SubmitRefusal(s, id, b, digest).None? && s.submitTimeout then Unknown else s.records[id].finality)
            && s'.records[id].submitted == (s.records[id].submitted || (other == id && SubmitRefusal(s, id, b, digest).None?))
  {
    hide TransactionId;
  }

  lemma StepFinality(h: Hash, s: Store, step: Step, id: bytes)
    requires id in s.records && !Creates(s, step)
    ensures id in Next(h, s, step).records
    ensures Next(h, s, step).records[id].finality ==
            if step.FinalityStep? && step.id == id then step.finality
            else if step.SubmitStep? && step.id == id && SubmitRefusal(s, id, step.binding, step.digest).None? && s.submitTimeout then Unknown
            else s.records[id].finality
    ensures Next(h, s, step).records[id].submitted ==
            (s.records[id].submitted ||
             (step.SubmitStep? && step.id == id && SubmitRefusal(s, id, step.binding, step.digest).None?))
  {
    hide Approve, Reject, Submit, SetFinality, Expire, SubmitRefusal;
    match step
    case ApproveStep(other, b) => ApproveFinality(s, id, other, b);
    case SubmitStep(other, b, d) => SubmitFinality(h, s, id, other, b, d);
    case RejectStep(other) => RejectFinality(s, id, other);
    case FinalityStep(other, f) => ScriptFinality(s, id, other, f);
    case ExpireStep(other) => ExpireFinality(s, id, other);
    case _ =>
  }

  /** Nothing is scripted for a request that is not stored. */
  lemma {:induction false} NoFinalityBefore(h: Hash, source: SourceKind, steps: seq<Step>, id: bytes)
    requires Injective(h) && AllWellTyped(steps) && id !in Run(h, Start(source), steps).store.records
    ensures LastFinality(h, source, steps, id) == NotFinalized
    decreases |steps|
  {
    hide WellTyped, Advance, KeysSound, OriginsSound, ArmedTimeout;
    if steps != [] {
      var n := |steps| - 1;
      var e := Run(h, Start(source), steps[..n]);
      RunIdsSound(h, source, steps[..n]);
      if id in e.store.records {
        StepKeepsBinding(h, e, steps[n], id);
      }
      NoFinalityBefore(h, source, steps[..n], id);
      hide Run;
    }
  }

  lemma CreatedFinality(h: Hash, e: Execution, step: Step, id: bytes)
    requires Injective(h) && Invariant(h, e) && WellTyped(step) && Creates(e.store, step)
    requires Advance(h, e, step).past.made <= COUNTER_BOUND && id in Advance(h, e, step).store.records
    ensures Advance(h, e, step).store.records[id].finality ==
            if id in e.store.records then e.store.records[id].finality else NotFinalized
    ensures Advance(h, e, step).store.records[id].submitted == (id in e.store.records && e.store.records[id].submitted)
  {
    hide Invariant, WellTyped, RequestId, IdOf, Disambiguator;
    StepKeeps(h, e, step);
    CreateEffect(h, e.store, e.past, step);
    hide Next, Recorded;
  }

  /** One call more: given the finality before it. */
  lemma FinalityStepped(h: Hash, source: SourceKind, steps: seq<Step>, id: bytes)
    requires Injective(h) && AllWellTyped(steps) && steps != []
    requires var n := |steps| - 1;
             var e := Run(h, Start(source), steps[..n]);
             && Invariant(h, e) && Advance(h, e, steps[n]).past.made <= COUNTER_BOUND
             && id in Advance(h, e, steps[n]).store.records
             && (id in e.store.records ==> e.store.records[id].finality == LastFinality(h, source, steps[..n], id))
             && (id !in e.store.records ==> LastFinality(h, source, steps[..n], id) == NotFinalized)
    ensures var n := |steps| - 1;
            Advance(h, Run(h, Start(source), steps[..n]), steps[n]).store.records[id].finality == LastFinality(h, source, steps, id)
  {
    hide Run, WellTyped, Invariant, ArmedTimeout;
    var n := |steps| - 1;
    var e := Run(h, Start(source), steps[..n]);
    if Creates(e.store, steps[n]) {
      CreatedFinality(h, e, steps[n], id);
      hide Advance;
    } else {
      OtherStepsSame(h, e.store, e.past, steps[n]);
      hide Next, Recorded;
      StepFinality(h, e.store, steps[n], id);
      SwitchesAre(h, source, steps[..n]);
    }
  }

  /** Every stored finality is the one last scripted, or unknown after a lost response. */
  lemma {:induction false} FinalityIs(h: Hash, source: SourceKind, steps: seq<Step>, id: bytes)
    requires Injective(h) && Admissible(h, Start(source), steps) && id in Run(h, Start(source), steps).store.records
    ensures Run(h, Start(source), steps).store.records[id].finality == LastFinality(h, source, steps, id)
    decreases |steps|
  {
    hide WellTyped, Advance, Invariant, VerdictsSound, LastFinality;
    if steps != [] {
      var n := |steps| - 1;
      var e := Run(h, Start(source), steps[..n]);
      MadeGrows(h, e, steps[n]);
      RunVerdicts(h, source, steps[..n]);
      if id in e.store.records {
        FinalityIs(h, source, steps[..n], id);
      } else {
        NoFinalityBefore(h, source, steps[..n], id);
      }
      FinalityStepped(h, source, steps, id);
    }
  }

  // ---------------------------------------------------------------------
  // Submission
  // ---------------------------------------------------------------------

  /** Some submission sealed the request. */
  ghost predicate WasSealed(h: Hash, source: SourceKind, steps: seq<Step>, id: bytes) {
    exists i :: 0 <= i < |steps| && SealsAt(h, source, steps, i) && steps[i].id == id
  }

  lemma SealedPrefix(h: Hash, source: SourceKind, steps: seq<Step>, id: bytes)
    requires steps != []
    ensures var n := |steps| - 1;
            WasSealed(h, source, steps, id) <==>
            WasSealed(h, source, steps[..n], id) || (SealsAt(h, source, steps, n) && steps[n].id == id)
  {
    hide Run, SubmitRefusal;
    var n := |steps| - 1;
    var before := steps[..n];
    forall i | 0 <= i < n
      ensures SealsAt(h, source, before, i) == SealsAt(h, source, steps, i) && before[i] == steps[i]
    {
      assert before[..i] == steps[..i];
    }
    if WasSealed(h, source, before, id) {
      var i :| 0 <= i < |before| && SealsAt(h, source, before, i) && before[i].id == id;
      assert SealsAt(h, source, steps, i);
    }
  }

  lemma {:induction false} NotSealedBefore(h: Hash, source: SourceKind, steps: seq<Step>, id: bytes)
    requires Injective(h) && AllWellTyped(steps) && id !in Run(h, Start(source), steps).store.records
    ensures !WasSealed(h, source, steps, id)
    decreases |steps|
  {
    hide WellTyped, Advance, KeysSound, OriginsSound, WasSealed;
    if steps == [] {
      assert !WasSealed(h, source, [], id) by { NothingSealed(h, source, id); }
    } else {
      var n := |steps| - 1;
      var e := Run(h, Start(source), steps[..n]);
      RunIdsSound(h, source, steps[..n]);
      if id in e.store.records {
        StepKeepsBinding(h, e, steps[n], id);
      }
      NotSealedBefore(h, source, steps[..n], id);
      SealedPrefix(h, source, steps, id);
      hide Run;
    }
  }

  lemma NothingSealed(h: Hash, source: SourceKind, id: bytes)
    ensures !WasSealed(h, source, [], id)
  {
  }

  lemma SubmittedStepped(h: Hash, source: SourceKind, steps: seq<Step>, id: bytes)
    requires Injective(h) && AllWellTyped(steps) && steps != []
    requires var n := |steps| - 1;
             var e := Run(h, Start(source), steps[..n]);
             && Invariant(h, e) && Advance(h, e, steps[n]).past.made <= COUNTER_BOUND
             && id in Advance(h, e, steps[n]).store.records
             && (id in e.store.records ==> (e.store.records[id].submitted <==> WasSealed(h, source, steps[..n], id)))
             && (id !in e.store.records ==> !WasSealed(h, source, steps[..n], id))
    ensures var n := |steps| - 1;
            Advance(h, Run(h, Start(source), steps[..n]), steps[n]).store.records[id].submitted <==> WasSealed(h, source, steps, id)
  {
    hide Run, WellTyped, Invariant, WasSealed;
    var n := |steps| - 1;
    var e := Run(h, Start(source), steps[..n]);
    SealedPrefix(h, source, steps, id);
    if Creates(e.store, steps[n]) {
      CreatedFinality(h, e, steps[n], id);
      hide Advance;
    } else {
      OtherStepsSame(h, e.store, e.past, steps[n]);
      hide Next, Recorded;
      StepFinality(h, e.store, steps[n], id);
    }
  }

  /** A stored request counts as submitted exactly when some submission sealed it. */
  lemma {:induction false} SubmittedIs(h: Hash, source: SourceKind, steps: seq<Step>, id: bytes)
    requires Injective(h) && Admissible(h, Start(source), steps) && id in Run(h, Start(source), steps).store.records
    ensures Run(h, Start(source), steps).store.records[id].submitted <==> WasSealed(h, source, steps, id)
    decreases |steps|
  {
    hide WellTyped, Advance, Invariant, VerdictsSound, WasSealed;
    if steps != [] {
      var n := |steps| - 1;
      var e := Run(h, Start(source), steps[..n]);
      MadeGrows(h, e, steps[n]);
      RunVerdicts(h, source, steps[..n]);
      if id in e.store.records {
        SubmittedIs(h, source, steps[..n], id);
      } else {
        NotSealedBefore(h, source, steps[..n], id);
      }
      SubmittedStepped(h, source, steps, id);
    }
  }
}
