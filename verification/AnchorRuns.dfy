/** What every run of the anchor store guarantees, and the store that performs the steps in place. */
module AnchorRuns {
  import opened Bytes
  import opened AnchorIds
  import opened AnchorStore
  import opened AnchorReuse

  /** Requests stay, their bindings and transactions never change, the history only grows. */
  ghost predicate Grows(e: Execution, e': Execution) {
    && (forall id :: id in e.store.records ==>
          && id in e'.store.records
          && e'.store.records[id].binding == e.store.records[id].binding
          && e'.store.records[id].maxFee == e.store.records[id].maxFee
          && (e.store.records[id].transaction.Some? ==>
                e'.store.records[id].transaction == e.store.records[id].transaction))
    && (forall c :: c in e.store.clientIndex ==>
          c in e'.store.clientIndex && e'.store.clientIndex[c] == e.store.clientIndex[c])
    && e.past.approved <= e'.past.approved && e.past.rejected <= e'.past.rejected
  }

  lemma CreateGrows(h: Hash, e: Execution, step: Step)
    requires Injective(h) && Invariant(h, e) && WellTyped(step)
    requires Advance(h, e, step).past.made <= COUNTER_BOUND && step.CreateStep?
    ensures Grows(e, Advance(h, e, step))
    ensures forall id :: id in e.store.records ==> Advance(h, e, step).store.records[id] == e.store.records[id]
  {
    hide RequestId, TransactionId, CounterBytes, ValidBinding, ValidIdentifier, Invariant, WellTyped;
    StepKeeps(h, e, step);
  }

  lemma GrowsByOne(e: Execution, e': Execution, id: bytes, r: Record)
    requires id in e.store.records && e'.store.records == e.store.records[id := r]
    requires var was := e.store.records[id];
             && r.binding == was.binding && r.maxFee == was.maxFee
             && (was.transaction.Some? ==> r.transaction == was.transaction)
    requires e'.store.clientIndex == e.store.clientIndex
    requires e.past.approved <= e'.past.approved && e.past.rejected <= e'.past.rejected
    ensures Grows(e, e')
  {
  }

  lemma SubmitGrows(h: Hash, e: Execution, step: Step)
    requires TransactionsSound(h, e.store) && step.SubmitStep?
    ensures Grows(e, Advance(h, e, step))
  {
    hide TransactionId;
    var e' := Advance(h, e, step);
    if SubmitRefusal(e.store, step.id, step.binding, step.digest).None? {
      assert TransactionSound(h, e.store, step.id, e.store.records[step.id]);
      hide Grows, TransactionSound;
      GrowsByOne(e, e', step.id, e'.store.records[step.id]);
    }
  }

  lemma DecideGrows(h: Hash, e: Execution, step: Step)
    requires step.ApproveStep? || step.RejectStep?
    ensures Grows(e, Advance(h, e, step))
  {
    hide Grows;
    var e' := Advance(h, e, step);
    if e'.store.records == e.store.records {
      SameGrows(e, e');
    } else {
      GrowsByOne(e, e', step.id, e'.store.records[step.id]);
    }
  }

  lemma ScriptGrows(h: Hash, e: Execution, step: Step)
    requires step.FinalityStep? || step.ExpireStep?
    ensures Grows(e, Advance(h, e, step))
  {
    hide Grows;
    var e' := Advance(h, e, step);
    if step.id in e.store.records {
      GrowsByOne(e, e', step.id, e'.store.records[step.id]);
    } else {
      SameGrows(e, e');
    }
  }

  lemma ChangeGrows(h: Hash, e: Execution, step: Step)
    requires !step.CreateStep? && !step.SubmitStep?
    ensures Grows(e, Advance(h, e, step))
  {
    hide Grows;
    if step.ApproveStep? || step.RejectStep? {
      hide Advance;
      DecideGrows(h, e, step);
    } else if step.FinalityStep? || step.ExpireStep? {
      hide Advance;
      ScriptGrows(h, e, step);
    } else {
      SameGrows(e, Advance(h, e, step));
    }
  }

  lemma SameGrows(e: Execution, e': Execution)
    requires e'.store.records == e.store.records && e'.store.clientIndex == e.store.clientIndex
    requires e.past.approved <= e'.past.approved && e.past.rejected <= e'.past.rejected
    ensures Grows(e, e')
  {
  }

  lemma StepGrows(h: Hash, e: Execution, step: Step)
    requires Injective(h) && Invariant(h, e) && WellTyped(step)
    requires Advance(h, e, step).past.made <= COUNTER_BOUND
    ensures Invariant(h, Advance(h, e, step)) && Grows(e, Advance(h, e, step))
  {
    StepKeeps(h, e, step);
    hide Grows, Advance, WellTyped, IdsSound, DecisionsSound, TransactionsSound;
    if step.CreateStep? {
      CreateGrows(h, e, step);
    } else if step.SubmitStep? {
      SubmitGrows(h, e, step);
    } else {
      ChangeGrows(h, e, step);
    }
  }

  lemma MadeGrows(h: Hash, e: Execution, step: Step)
    ensures e.past.made <= Advance(h, e, step).past.made
  {
    hide RequestId, CounterBytes, Next, Approve, Reject;
  }

  lemma {:induction false} RunKeeps(h: Hash, e: Execution, steps: seq<Step>)
    requires Injective(h) && Invariant(h, e) && Admissible(h, e, steps)
    ensures Invariant(h, Run(h, e, steps)) && Grows(e, Run(h, e, steps))
    decreases |steps|
  {
    hide Invariant, Advance, WellTyped;
    if steps != [] {
      var n := |steps| - 1;
      MadeGrows(h, Run(h, e, steps[..n]), steps[n]);
      RunKeeps(h, e, steps[..n]);
      StepGrows(h, Run(h, e, steps[..n]), steps[n]);
    }
  }

  lemma ReachableInvariant(h: Hash, e: Execution)
    requires Injective(h) && Reachable(h, e)
    ensures Invariant(h, e) && e.past.made <= COUNTER_BOUND
  {
    hide ValidBinding, ValidIdentifier, CounterBytes, RequestId, TransactionId;
    var source, steps :| Admissible(h, Start(source), steps) && e == Run(h, Start(source), steps);
    RunKeeps(h, Start(source), steps);
  }

  // ---------------------------------------------------------------------
  // Theorems
  // ---------------------------------------------------------------------

  /** Whatever follows, a stored request keeps its binding, its fee ceiling and its transaction. */
  lemma BindingFixed(h: Hash, e: Execution, steps: seq<Step>, id: bytes)
    requires Injective(h) && Reachable(h, e) && Admissible(h, e, steps) && id in e.store.records
    ensures id in Run(h, e, steps).store.records
    ensures var r, r' := e.store.records[id], Run(h, e, steps).store.records[id];
            && r'.binding == r.binding && r'.maxFee == r.maxFee
            && (r.transaction.Some? ==> r'.transaction == r.transaction)
  {
    hide Run, Invariant, Reachable, WellTyped;
    ReachableInvariant(h, e);
    RunKeeps(h, e, steps);
  }

  /** A creation changes no stored request; what it returns is bound as asked. */
  lemma CreateNeverOverwrites(h: Hash, e: Execution, b: Binding, fee: nat, reference: Option<bytes>)
    requires Injective(h) && Reachable(h, e) && Admissible(h, e, [CreateStep(b, fee, reference)])
    ensures var (s', reply) := Create(h, e.store, b, fee, reference);
            && (forall id :: id in e.store.records ==> id in s'.records && s'.records[id] == e.store.records[id])
            && (reply.Ok? ==> reply.value.id in s'.records && s'.records[reply.value.id].binding == b)
            && (reply.Ok? && reference.None? ==> reply.value.id !in e.store.records)
  {
    hide CounterBytes, ValidBinding, ValidIdentifier, RequestId, Run, KeysSound, OriginsSound, Replaces, Reuses;
    var step := CreateStep(b, fee, reference);
    RunOne(h, e, step);
    assert [step][0] == step;
    var source, steps :| Admissible(h, Start(source), steps) && e == Run(h, Start(source), steps);
    if Creates(e.store, step) {
      CreateEffect(h, e.store, e.past, step);
      CreateReplacesIff(h, source, steps, b, fee, reference);
      RunIdsSound(h, source, steps);
      NewRequestReusesNothing(e.store, e.past, b, reference);
      ReplacesIsReuse(e.store, e.past, b, fee, reference);
    }
  }

  /** Once a client reference is used, its request is returned for ever, and only for its binding. */
  lemma CreateIsIdempotent(
    h: Hash, e: Execution, steps: seq<Step>, b: Binding, fee: nat, reference: bytes, other: Binding, otherFee: nat)
    requires Injective(h) && Reachable(h, e) && Create(h, e.store, b, fee, Some(reference)).1.Ok?
    requires Admissible(h, e, [CreateStep(b, fee, Some(reference))])
    requires Admissible(h, Advance(h, e, CreateStep(b, fee, Some(reference))), steps)
    ensures var id := Create(h, e.store, b, fee, Some(reference)).1.value.id;
            var later := Run(h, Advance(h, e, CreateStep(b, fee, Some(reference))), steps).store;
            later.createFailure.None? ==>
              && id in later.records
              && Create(h, later, other, otherFee, Some(reference)) ==
                 (later, if other == b then Ok(Prepared(id, b, later.records[id].maxFee))
                         else Err(ClientReferenceConflict))
  {
    hide CounterBytes, ValidBinding, ValidIdentifier, RequestId, TransactionId, Invariant, Reachable, WellTyped;
    hide Advance, Create, Grows;
    var step := CreateStep(b, fee, Some(reference));
    RunOne(h, e, step);
    assert [step][0] == step;
    ReachableInvariant(h, e);
    StepKeeps(h, e, step);
    var e1 := Advance(h, e, step);
    CreateRemembers(h, e, b, fee, reference);
    hide Run;
    RunKeeps(h, e1, steps);
    var later := Run(h, e1, steps).store;
    var id := Create(h, e.store, b, fee, Some(reference)).1.value.id;
    GrownClient(e1, Run(h, e1, steps), reference, id);
    if later.createFailure.None? {
      CreateAgain(h, later, id, b, reference, other, otherFee);
    }
  }

  lemma GrownClient(e: Execution, e': Execution, reference: bytes, id: bytes)
    requires Grows(e, e') && reference in e.store.clientIndex && e.store.clientIndex[reference] == id
    requires id in e.store.records
    ensures reference in e'.store.clientIndex && e'.store.clientIndex[reference] == id
    ensures id in e'.store.records && e'.store.records[id].binding == e.store.records[id].binding
  {
  }

  /** A successful creation is remembered under its client reference. */
  lemma CreateRemembers(h: Hash, e: Execution, b: Binding, fee: nat, reference: bytes)
    requires Create(h, e.store, b, fee, Some(reference)).1.Ok?
    ensures var s' := Advance(h, e, CreateStep(b, fee, Some(reference))).store;
            var id := Create(h, e.store, b, fee, Some(reference)).1.value.id;
            && reference in s'.clientIndex && s'.clientIndex[reference] == id
            && id in s'.records && s'.records[id].binding == b
  {
    hide RequestId, CounterBytes, Recorded;
  }

  lemma CreateAgain(h: Hash, s: Store, id: bytes, b: Binding, reference: bytes, other: Binding, fee: nat)
    requires reference in s.clientIndex && s.clientIndex[reference] == id
    requires id in s.records && s.records[id].binding == b && s.createFailure.None?
    ensures Create(h, s, other, fee, Some(reference)) ==
            (s, if other == b then Ok(Prepared(id, b, s.records[id].maxFee)) else Err(ClientReferenceConflict))
  {
    hide RequestId, Put, CounterBytes;
  }

  /** The approvals of a history are exactly the approving calls of its run that succeeded. */
  lemma {:induction false} ApprovedMeans(h: Hash, source: SourceKind, steps: seq<Step>, id: bytes, b: Binding)
    ensures (id, b) in Run(h, Start(source), steps).past.approved <==>
            exists i :: 0 <= i < |steps| && ApprovesAt(h, source, steps, i, id, b)
    decreases |steps|
  {
    hide Approve, Next, RequestId, CounterBytes, Reject;
    if steps != [] {
      var n := |steps| - 1;
      var before := steps[..n];
      ApprovedMeans(h, source, before, id, b);
      forall i | 0 <= i < n
        ensures ApprovesAt(h, source, before, i, id, b) == ApprovesAt(h, source, steps, i, id, b)
      {
        assert before[..i] == steps[..i];
      }
      assert (id, b) in Run(h, Start(source), steps).past.approved <==>
             (id, b) in Run(h, Start(source), before).past.approved || ApprovesAt(h, source, steps, n, id, b);
      if i :| 0 <= i < n && ApprovesAt(h, source, before, i, id, b) {
        assert ApprovesAt(h, source, steps, i, id, b);
      }
    }
  }

  ghost predicate ApprovesAt(h: Hash, source: SourceKind, steps: seq<Step>, i: nat, id: bytes, b: Binding)
    requires i < |steps|
  {
    && steps[i] == ApproveStep(id, b)
    && Approve(Run(h, Start(source), steps[..i]).store, id, b).1.Ok?
  }

  /** A transaction exists only after a successful approval naming that request's exact binding. */
  lemma TransactionNeedsApproval(h: Hash, source: SourceKind, steps: seq<Step>, t: bytes)
    requires Injective(h) && Admissible(h, Start(source), steps)
    requires t in Run(h, Start(source), steps).store.byTransaction
    ensures var s := Run(h, Start(source), steps).store;
            var id := s.byTransaction[t];
            && id in s.records && s.records[id].transaction == Some(t)
            && t == TransactionId(h, id, s.records[id].binding.digest)
            && exists i :: 0 <= i < |steps| && ApprovesAt(h, source, steps, i, id, s.records[id].binding)
  {
    var e := Run(h, Start(source), steps);
    hide Run, RequestId, TransactionId, ApprovesAt;
    assert Reachable(h, e);
    ReachableInvariant(h, e);
    hide Reachable, IdsSound;
    var id := e.store.byTransaction[t];
    assert TransactionSound(h, e.store, id, e.store.records[id]);
    assert DecisionSound(e.past, id, e.store.records[id]);
    ApprovedMeans(h, source, steps, id, e.store.records[id].binding);
  }

  /** Only stored requests have transactions, and each transaction leads back to its request. */
  lemma RequestsHaveOwnTransactions(h: Hash, e: Execution, a: bytes, b: bytes)
    requires Injective(h) && Reachable(h, e) && a in e.store.records && b in e.store.records
    requires e.store.records[a].transaction.Some? && e.store.records[a].transaction == e.store.records[b].transaction
    ensures e.store.records[a].transaction.value in e.store.byTransaction
    ensures a == b == e.store.byTransaction[e.store.records[a].transaction.value]
  {
    hide TransactionId, Reachable;
    ReachableInvariant(h, e);
    hide IdsSound, DecisionsSound;
    assert TransactionSound(h, e.store, a, e.store.records[a]);
    assert TransactionSound(h, e.store, b, e.store.records[b]);
  }

  /** After a successful rejection no run ever gives the request a transaction. */
  lemma RejectedNeverSubmitted(h: Hash, e: Execution, id: bytes, steps: seq<Step>)
    requires Injective(h) && Reachable(h, e) && Reject(e.store, id).1.Ok?
    requires Admissible(h, Advance(h, e, RejectStep(id)), steps)
    ensures var s := Run(h, Advance(h, e, RejectStep(id)), steps).store;
            && id in s.records && s.records[id].transaction.None?
            && (forall t :: t in s.byTransaction ==> s.byTransaction[t] != id)
            && forall b, d :: SubmitRefusal(s, id, b, d).Some?
  {
    hide Run, Reachable, Reject, Invariant, WellTyped, SubmitRefusal;
    var e1 := Advance(h, e, RejectStep(id));
    ReachableInvariant(h, e);
    RejectKeeps(h, e.store, e.past, id);
    RunKeeps(h, e1, steps);
    RejectedStays(h, Run(h, e1, steps), id);
  }

  lemma RejectedStays(h: Hash, e: Execution, id: bytes)
    requires Invariant(h, e) && id in e.past.rejected
    ensures id in e.store.records && e.store.records[id].transaction.None?
    ensures forall t :: t in e.store.byTransaction ==> e.store.byTransaction[t] != id
    ensures forall b, d :: SubmitRefusal(e.store, id, b, d).Some?
  {
    hide IdsSound, TransactionSound;
    assert DecisionSound(e.past, id, e.store.records[id]);
  }

  /** Resubmitting a request that is still approved yields the transaction it already has. */
  lemma ResubmitSameTransaction(h: Hash, e: Execution, id: bytes, t: bytes, steps: seq<Step>)
    requires Injective(h) && Reachable(h, e) && Admissible(h, e, steps)
    requires id in e.store.records && e.store.records[id].transaction == Some(t)
    ensures var s := Run(h, e, steps).store;
            var b := e.store.records[id].binding;
            var (s', reply) := Submit(h, s, id, b, b.digest);
            && id in s.records
            && (s.records[id].decision.Approved? ==>
                  && reply == (if s.submitTimeout then Err(Timeout) else Ok(Submitted(id, t, b)))
                  && s'.records[id].transaction == Some(t) && s'.byTransaction == s.byTransaction)
  {
    hide Run, Reachable, IdsSound, DecisionSound, WellTyped, TransactionId;
    ReachableInvariant(h, e);
    RunKeeps(h, e, steps);
    var s := Run(h, e, steps).store;
    assert TransactionSound(h, s, id, s.records[id]);
  }
}
