/**
 * When a creation replaces a stored request. Runs here are unbounded: the creation counter may
 * spell a client reference, and it may wrap.
 */
module AnchorReuse {
  import opened Bytes
  import opened AnchorIds
  import opened AnchorStore

  // ---------------------------------------------------------------------
  // What every well-typed run keeps
  // ---------------------------------------------------------------------

  lemma PutSame(s: Store, s': Store, id: bytes)
    requires id in s.records && id in s'.records && s'.records == s.records[id := s'.records[id]]
    requires s'.records[id].binding == s.records[id].binding
    requires s'.clientIndex == s.clientIndex && s'.counter == s.counter
    ensures SameRequests(s, s')
  {
  }

  lemma SubmitSame(h: Hash, s: Store, past: History, step: Step)
    requires step.SubmitStep?
    ensures SameRequests(s, Next(h, s, step))
  {
    hide TransactionId;
    var s' := Next(h, s, step);
    if SubmitRefusal(s, step.id, step.binding, step.digest).None? {
      hide SameRequests;
      PutSame(s, s', step.id);
    }
  }

  lemma ApproveSame(s: Store, id: bytes, b: Binding)
    ensures SameRequests(s, Approve(s, id, b).0)
  {
    var s' := Approve(s, id, b).0;
    if s'.records != s.records {
      hide SameRequests;
      PutSame(s, s', id);
    }
  }

  lemma RejectSame(s: Store, id: bytes)
    ensures SameRequests(s, Reject(s, id).0)
  {
    var s' := Reject(s, id).0;
    if s'.records != s.records {
      hide SameRequests;
      PutSame(s, s', id);
    }
  }

  lemma ScriptSame(s: Store, id: bytes, f: Finality)
    ensures SameRequests(s, SetFinality(s, id, f)) && SameRequests(s, Expire(s, id))
  {
    if id in s.records {
      hide SameRequests;
      PutSame(s, SetFinality(s, id, f), id);
      PutSame(s, Expire(s, id), id);
    }
  }

  /** Only a creation that stores a record touches identifiers, bindings, the index or the counter. */
  lemma OtherStepsSame(h: Hash, s: Store, past: History, step: Step)
    requires !Creates(s, step)
    ensures SameRequests(s, Next(h, s, step)) && SameUses(past, Recorded(s, past, step))
  {
    hide RequestId, TransactionId, CounterBytes, Approve, Reject, Submit, SetFinality, Expire;
    match step
    case SubmitStep(_, _, _) => SubmitSame(h, s, past, step);
    case ApproveStep(id, b) => ApproveSame(s, id, b);
    case RejectStep(id) => RejectSame(s, id);
    case FinalityStep(id, f) => ScriptSame(s, id, f);
    case ExpireStep(id) => ScriptSame(s, id, Unknown);
    case _ =>
  }

  lemma StepKeepsKeys(h: Hash, e: Execution, step: Step)
    requires Injective(h) && KeysSound(h, e.store, e.past) && WellTyped(step)
    ensures KeysSound(h, Advance(h, e, step).store, Advance(h, e, step).past)
  {
    hide KeysSound, Next, Recorded, WellTyped;
    if Creates(e.store, step) {
      CreateKeepsKeys(h, e.store, e.past, step);
    } else {
      OtherStepsSame(h, e.store, e.past, step);
      KeysAfterChange(h, e.store, e.past, Next(h, e.store, step), Recorded(e.store, e.past, step));
    }
  }

  lemma StepKeepsOrigins(h: Hash, e: Execution, step: Step)
    requires OriginsSound(e.store, e.past) && WellTyped(step)
    ensures OriginsSound(Advance(h, e, step).store, Advance(h, e, step).past)
  {
    hide OriginsSound, Next, Recorded, WellTyped;
    if Creates(e.store, step) {
      CreateKeepsOrigins(h, e.store, e.past, step);
    } else {
      OtherStepsSame(h, e.store, e.past, step);
      OriginsAfterChange(e.store, e.past, Next(h, e.store, step), Recorded(e.store, e.past, step));
    }
  }

  lemma {:induction false} RunKeepsKeys(h: Hash, e: Execution, steps: seq<Step>)
    requires Injective(h) && KeysSound(h, e.store, e.past) && AllWellTyped(steps)
    ensures KeysSound(h, Run(h, e, steps).store, Run(h, e, steps).past)
    decreases |steps|
  {
    hide KeysSound, Advance, WellTyped;
    if steps != [] {
      var n := |steps| - 1;
      RunKeepsKeys(h, e, steps[..n]);
      StepKeepsKeys(h, Run(h, e, steps[..n]), steps[n]);
    }
  }

  lemma {:induction false} RunKeepsOrigins(h: Hash, e: Execution, steps: seq<Step>)
    requires OriginsSound(e.store, e.past) && AllWellTyped(steps)
    ensures OriginsSound(Run(h, e, steps).store, Run(h, e, steps).past)
    decreases |steps|
  {
    hide OriginsSound, Advance, WellTyped;
    if steps != [] {
      var n := |steps| - 1;
      RunKeepsOrigins(h, e, steps[..n]);
      StepKeepsOrigins(h, Run(h, e, steps[..n]), steps[n]);
    }
  }

  /** Every well-typed run, however long, has sound identifiers. */
  lemma RunIdsSound(h: Hash, source: SourceKind, steps: seq<Step>)
    requires Injective(h) && AllWellTyped(steps)
    ensures var e := Run(h, Start(source), steps); KeysSound(h, e.store, e.past) && OriginsSound(e.store, e.past)
  {
    hide Run, WellTyped;
    RunKeepsKeys(h, Start(source), steps);
    RunKeepsOrigins(h, Start(source), steps);
  }

  lemma StepKeepsBinding(h: Hash, e: Execution, step: Step, id: bytes)
    requires Injective(h) && KeysSound(h, e.store, e.past) && WellTyped(step) && id in e.store.records
    ensures var s' := Advance(h, e, step).store;
            id in s'.records && s'.records[id].binding == e.store.records[id].binding
  {
    hide KeysSound, RequestId, IdOf, ValidBinding, ValidIdentifier;
    if Creates(e.store, step) {
      CreateEffect(h, e.store, e.past, step);
      hide Next, Recorded;
      TakenIff(h, e.store, e.past, step.binding, Disambiguator(e.store, step.reference));
    } else {
      OtherStepsSame(h, e.store, e.past, step);
      hide Next, Recorded;
    }
  }

  lemma {:induction false} RunKeepsBinding(h: Hash, e: Execution, steps: seq<Step>, id: bytes)
    requires Injective(h) && KeysSound(h, e.store, e.past) && AllWellTyped(steps) && id in e.store.records
    ensures var s' := Run(h, e, steps).store;
            id in s'.records && s'.records[id].binding == e.store.records[id].binding
    decreases |steps|
  {
    hide KeysSound, Advance, WellTyped;
    if steps != [] {
      var n := |steps| - 1;
      RunKeepsBinding(h, e, steps[..n], id);
      RunKeepsKeys(h, e, steps[..n]);
      StepKeepsBinding(h, Run(h, e, steps[..n]), steps[n], id);
    }
  }

  /** A request never leaves the store and never changes its binding, however long the run. */
  lemma BindingNeverChanges(h: Hash, source: SourceKind, steps: seq<Step>, more: seq<Step>, id: bytes)
    requires Injective(h) && AllWellTyped(steps) && AllWellTyped(more)
    requires id in Run(h, Start(source), steps).store.records
    ensures var s, s' := Run(h, Start(source), steps).store, Run(h, Run(h, Start(source), steps), more).store;
            id in s'.records && s'.records[id].binding == s.records[id].binding
  {
    hide Run, KeysSound, OriginsSound, WellTyped;
    RunIdsSound(h, source, steps);
    RunKeepsBinding(h, Run(h, Start(source), steps), more, id);
  }

  // ---------------------------------------------------------------------
  // Replacement
  // ---------------------------------------------------------------------

  /**
   * The binding has been used with the same disambiguator. Without a client reference: by a
   * client whose reference spells the counter, or by an earlier creation at the same counter.
   * With one: by an anonymous creation whose counter spells the reference.
   */
  ghost predicate Replaces(s: Store, past: History, b: Binding, reference: Option<bytes>) {
    match reference
    case None => (b, Client(CounterBytes(s.counter))) in past.used || (b, Anonymous(s.counter)) in past.used
    case Some(c) => exists k :: (b, Anonymous(k)) in past.used && CounterBytes(k) == c
  }

  lemma ReplacesIsReuse(s: Store, past: History, b: Binding, fee: nat, reference: Option<bytes>)
    requires OriginsSound(s, past) && Creates(s, CreateStep(b, fee, reference))
    ensures Reuses(past, b, Disambiguator(s, reference)) <==> Replaces(s, past, b, reference)
  {
    hide CounterBytes, ValidIdentifier;
    var d := Disambiguator(s, reference);
    if Reuses(past, b, d) {
      var o :| (b, o) in past.used && Spelled(o) == d;
      assert OriginSound(s, past, (b, o).1);
      if o.Anonymous? && reference.None? && o.counter != s.counter {
        CountersDiffer(o.counter, s.counter);
      }
    }
    if Replaces(s, past, b, reference) {
      match reference
      case None =>
        var o := if (b, Anonymous(s.counter)) in past.used then Anonymous(s.counter) else Client(CounterBytes(s.counter));
        assert (b, o) in past.used && Spelled(o) == d;
      case Some(c) =>
        var k :| (b, Anonymous(k)) in past.used && CounterBytes(k) == c;
        assert Spelled(Anonymous(k)) == d;
    }
  }

  function NewRecord(b: Binding, fee: nat): Record {
    Record(b, fee, Pending, None, false, NotFinalized)
  }

  lemma CreateStores(h: Hash, s: Store, b: Binding, fee: nat, reference: Option<bytes>)
    requires Creates(s, CreateStep(b, fee, reference))
    ensures Create(h, s, b, fee, reference).0.records ==
            s.records[RequestId(h, b, Disambiguator(s, reference)) := NewRecord(b, fee)]
  {
    hide RequestId, CounterBytes;
  }

  /**
   * In every well-typed run, with any number of creations: a creation that misses the client
   * index writes its fresh record over a stored request exactly when its binding has been used
   * with the same disambiguator; every other stored request is left alone.
   */
  lemma CreateReplacesIff(h: Hash, source: SourceKind, steps: seq<Step>, b: Binding, fee: nat, reference: Option<bytes>)
    requires Injective(h) && AllWellTyped(steps) && WellTyped(CreateStep(b, fee, reference))
    requires Creates(Run(h, Start(source), steps).store, CreateStep(b, fee, reference))
    ensures var e := Run(h, Start(source), steps);
            var id := RequestId(h, b, Disambiguator(e.store, reference));
            && (id in e.store.records <==> Replaces(e.store, e.past, b, reference))
            && (id in e.store.records ==> e.store.records[id].binding == b)
            && Create(h, e.store, b, fee, reference).0.records == e.store.records[id := NewRecord(b, fee)]
  {
    hide Run, RequestId, KeysSound, OriginsSound, Replaces, Reuses, ValidBinding, ValidIdentifier, Create, Disambiguator, Creates;
    var e := Run(h, Start(source), steps);
    RunIdsSound(h, source, steps);
    TakenIff(h, e.store, e.past, b, Disambiguator(e.store, reference));
    ReplacesIsReuse(e.store, e.past, b, fee, reference);
    CreateStores(h, e.store, b, fee, reference);
  }

  /** The stored identifiers are exactly those of the recorded uses. */
  lemma StoredKeys(h: Hash, source: SourceKind, steps: seq<Step>)
    requires Injective(h) && AllWellTyped(steps)
    ensures var e := Run(h, Start(source), steps);
            e.store.records.Keys == set u | u in e.past.used :: IdOf(h, u)
  {
    hide Run, IdOf, ValidBinding, OriginsSound;
    RunIdsSound(h, source, steps);
    var e := Run(h, Start(source), steps);
    forall id | id in e.store.records
      ensures exists u :: u in e.past.used && id == IdOf(h, u)
    {
      var o := StoredBinding(h, e.store, e.past, id);
    }
  }

  /** A counter repeats only after it has wrapped. */
  lemma RepeatNeedsWrap(h: Hash, source: SourceKind, steps: seq<Step>, b: Binding)
    requires Injective(h) && AllWellTyped(steps)
    requires var e := Run(h, Start(source), steps); (b, Anonymous(e.store.counter)) in e.past.used
    ensures Run(h, Start(source), steps).past.made >= COUNTER_MODULUS
  {
    hide Run, KeysSound, ValidIdentifier;
    RunIdsSound(h, source, steps);
    var e := Run(h, Start(source), steps);
    assert OriginSound(e.store, e.past, (b, Anonymous(e.store.counter)).1);
  }

  ghost predicate MadeAt(h: Hash, source: SourceKind, steps: seq<Step>, i: nat, b: Binding, o: Origin)
    requires i < |steps|
  {
    var s := Run(h, Start(source), steps[..i]).store;
    Creates(s, steps[i]) && steps[i].binding == b && OriginOf(s, steps[i].reference) == o
  }

  /** The recorded uses are exactly the creations of the run that stored a record. */
  lemma {:induction false} UsedMeans(h: Hash, source: SourceKind, steps: seq<Step>, b: Binding, o: Origin)
    ensures (b, o) in Run(h, Start(source), steps).past.used <==>
            exists i :: 0 <= i < |steps| && MadeAt(h, source, steps, i, b, o)
    decreases |steps|
  {
    hide Next, Approve, Reject, OriginOf;
    if steps != [] {
      var n := |steps| - 1;
      var before := steps[..n];
      UsedMeans(h, source, before, b, o);
      forall i | 0 <= i < n
        ensures MadeAt(h, source, before, i, b, o) == MadeAt(h, source, steps, i, b, o)
      {
        assert before[..i] == steps[..i];
      }
      assert (b, o) in Run(h, Start(source), steps).past.used <==>
             (b, o) in Run(h, Start(source), before).past.used || MadeAt(h, source, steps, n, b, o);
      if i :| 0 <= i < n && MadeAt(h, source, before, i, b, o) {
        assert MadeAt(h, source, steps, i, b, o);
      }
    }
  }

  // ---------------------------------------------------------------------
  // Runs that replace a request
  // ---------------------------------------------------------------------

  function AnonymousSteps(b: Binding, n: nat): seq<Step> {
    seq(n, _ => CreateStep(b, 0, None))
  }

  function CounterAfter(e: Execution, k: nat): nat {
    (e.store.counter + k) % COUNTER_MODULUS
  }

  lemma AnonymousCreate(h: Hash, e: Execution, b: Binding)
    requires e.store.createFailure.None?
    ensures var e' := Advance(h, e, CreateStep(b, 0, None));
            && e'.store.createFailure.None? && e'.store.counter == (e.store.counter + 1) % COUNTER_MODULUS
            && e'.past.used == e.past.used + {(b, Anonymous(e.store.counter))}
            && e'.store.records == e.store.records[RequestId(h, b, CounterBytes(e.store.counter)) := NewRecord(b, 0)]
  {
    hide RequestId, CounterBytes;
  }

  /** `n` anonymous creations advance the counter by `n` and use every counter on the way. */
  lemma {:induction false} AnonymousRun(h: Hash, e: Execution, b: Binding, n: nat)
    requires e.store.createFailure.None? && e.store.counter < COUNTER_MODULUS
    ensures var e' := Run(h, e, AnonymousSteps(b, n));
            && e'.store.createFailure.None? && e'.store.counter == CounterAfter(e, n)
            && e.past.used <= e'.past.used
            && forall k :: 0 <= k < n ==> (b, Anonymous(CounterAfter(e, k))) in e'.past.used
  {
    hide Advance, CounterAfter;
    CounterStep(e, n);
    if n > 0 {
      AnonymousRun(h, e, b, n - 1);
      var before := Run(h, e, AnonymousSteps(b, n - 1));
      AnonymousRunStep(h, e, b, n);
      AnonymousCreate(h, before, b);
    }
  }

  lemma AnonymousRunStep(h: Hash, e: Execution, b: Binding, n: nat)
    ensures n > 0 ==> Run(h, e, AnonymousSteps(b, n)) == Advance(h, Run(h, e, AnonymousSteps(b, n - 1)), CreateStep(b, 0, None))
    ensures n == 0 ==> Run(h, e, AnonymousSteps(b, n)) == e
  {
    hide Advance;
    if n > 0 {
      assert AnonymousSteps(b, n)[..n - 1] == AnonymousSteps(b, n - 1);
    }
  }

  lemma CounterStep(e: Execution, n: nat)
    requires e.store.counter < COUNTER_MODULUS
    ensures n > 0 ==> (CounterAfter(e, n - 1) + 1) % COUNTER_MODULUS == CounterAfter(e, n)
    ensures CounterAfter(e, 0) == e.store.counter
  {
    if n > 0 {
      NextModulo(e.store.counter + n - 1);
    }
  }

  /** They leave a request alone that none of their counters spells. */
  lemma {:induction false} AnonymousRunKeeps(h: Hash, e: Execution, b: Binding, n: nat, d: bytes)
    requires Injective(h) && ValidBinding(b) && e.store.createFailure.None? && e.store.counter < COUNTER_MODULUS
    requires RequestId(h, b, d) in e.store.records
    requires forall k :: 0 <= k < n ==> CounterBytes(CounterAfter(e, k)) != d
    ensures var e' := Run(h, e, AnonymousSteps(b, n));
            RequestId(h, b, d) in e'.store.records && e'.store.records[RequestId(h, b, d)] == e.store.records[RequestId(h, b, d)]
  {
    hide Advance, RequestId, CounterBytes, ValidBinding;
    if n == 0 {
      assert Run(h, e, AnonymousSteps(b, 0)) == e;
    } else {
      AnonymousRun(h, e, b, n - 1);
      AnonymousRunKeeps(h, e, b, n - 1, d);
      var before := Run(h, e, AnonymousSteps(b, n - 1));
      assert AnonymousSteps(b, n)[..n - 1] == AnonymousSteps(b, n - 1);
      AnonymousCreate(h, before, b);
      var other := CounterBytes(before.store.counter);
      if RequestId(h, b, d) == RequestId(h, b, other) {
        RequestIdInjective(h, b, d, b, other);
      }
    }
  }

  /** 2^64 anonymous creations return the counter to 0, and the next one replaces the first. */
  lemma WrapOverwrites(h: Hash, source: SourceKind, b: Binding, fee: nat)
    requires Injective(h) && ValidBinding(b)
    ensures var steps := AnonymousSteps(b, COUNTER_MODULUS);
            var e := Run(h, Start(source), steps);
            var id := RequestId(h, b, CounterBytes(0));
            && AllWellTyped(steps) && e.store.counter == 0 && id in e.store.records
            && Replaces(e.store, e.past, b, None)
            && Create(h, e.store, b, fee, None).0.records == e.store.records[id := NewRecord(b, fee)]
  {
    hide Run, RequestId, CounterBytes, ValidBinding, Create;
    var steps := AnonymousSteps(b, COUNTER_MODULUS);
    var e := Run(h, Start(source), steps);
    AnonymousRun(h, Start(source), b, COUNTER_MODULUS);
    assert CounterAfter(Start(source), 0) == 0 && CounterAfter(Start(source), COUNTER_MODULUS) == 0;
    assert (b, Anonymous(0)) in e.past.used;
    CreateReplacesIff(h, source, steps, b, fee, None);
  }

  /** A client creates a request, which is approved and submitted. */
  function ClientSteps(h: Hash, b: Binding, reference: bytes): seq<Step> {
    var id := RequestId(h, b, reference);
    [CreateStep(b, 0, Some(reference)), ApproveStep(id, b), SubmitStep(id, b, b.digest)]
  }

  lemma ClientRun(h: Hash, source: SourceKind, b: Binding, reference: bytes)
    ensures var e := Run(h, Start(source), ClientSteps(h, b, reference));
            var id := RequestId(h, b, reference);
            && e.store.createFailure.None? && e.store.counter == 0 && (b, Client(reference)) in e.past.used
            && e.past.made == 0 && id in e.store.records
            && e.store.records[id] == Record(b, 0, Approved, Some(TransactionId(h, id, b.digest)), true, NotFinalized)
  {
    hide RequestId, TransactionId, CounterBytes;
    var id := RequestId(h, b, reference);
    var s1, s2, s3 := CreateStep(b, 0, Some(reference)), ApproveStep(id, b), SubmitStep(id, b, b.digest);
    var e0 := Start(source);
    var e1 := Advance(h, e0, s1);
    var e2 := Advance(h, e1, s2);
    var e3 := Advance(h, e2, s3);
    assert e3.store.records[id] == Record(b, 0, Approved, Some(TransactionId(h, id, b.digest)), true, NotFinalized);
    assert e3.store.createFailure.None? && e3.store.counter == 0 && (b, Client(reference)) in e3.past.used && e3.past.made == 0;
    hide Advance;
    hide Run;
    RunOne(h, e0, s1);
    RunThen(h, e0, [s1], s2);
    RunThen(h, e0, [s1, s2], s3);
    assert [s1] + [s2] == [s1, s2] && [s1, s2] + [s3] == [s1, s2, s3];
  }

  lemma RunOne(h: Hash, e: Execution, step: Step)
    ensures Run(h, e, [step]) == Advance(h, e, step)
  {
    hide Advance;
    assert [step][..0] == [];
  }

  lemma RunThen(h: Hash, e: Execution, steps: seq<Step>, step: Step)
    ensures Run(h, e, steps + [step]) == Advance(h, Run(h, e, steps), step)
  {
    hide Advance;
    assert (steps + [step])[..|steps|] == steps;
  }

  lemma {:induction false} RunAppend(h: Hash, e: Execution, first: seq<Step>, rest: seq<Step>)
    ensures Run(h, e, first + rest) == Run(h, Run(h, e, first), rest)
    decreases |rest|
  {
    hide Advance;
    var all := first + rest;
    if rest == [] {
      assert all == first;
    } else {
      var n := |rest| - 1;
      assert all[..|all| - 1] == first + rest[..n];
      RunAppend(h, e, first, rest[..n]);
    }
  }

  const SPELLING_COUNTER := 0x4141_4141_4141_4141

  /**
   * A client request "AAAAAAAA" is submitted; after 0x4141414141414141 anonymous creations under
   * its binding the counter spells its reference, and the next one replaces it, transaction and all.
   */
  lemma LargeCounterOverwrites(h: Hash, source: SourceKind, b: Binding, fee: nat)
    requires Injective(h) && ValidBinding(b)
    ensures var reference := Ascii("AAAAAAAA");
            var steps := ClientSteps(h, b, reference) + AnonymousSteps(b, SPELLING_COUNTER);
            var e := Run(h, Start(source), steps);
            var id := RequestId(h, b, reference);
            && AllWellTyped(steps) && e.store.counter == SPELLING_COUNTER && id in e.store.records
            && e.store.records[id].transaction == Some(TransactionId(h, id, b.digest)) && e.store.records[id].submitted
            && Replaces(e.store, e.past, b, None)
            && Create(h, e.store, b, fee, None).0.records == e.store.records[id := NewRecord(b, fee)]
  {
    LargeCounterIsIdentifier();
    hide RequestId, TransactionId, CounterBytes, ValidBinding, ValidIdentifier, Ascii, Run, Create;
    var reference := Ascii("AAAAAAAA");
    var steps := ClientSteps(h, b, reference) + AnonymousSteps(b, SPELLING_COUNTER);
    var e1 := Run(h, Start(source), ClientSteps(h, b, reference));
    ClientRun(h, source, b, reference);
    RunAppend(h, Start(source), ClientSteps(h, b, reference), AnonymousSteps(b, SPELLING_COUNTER));
    AnonymousRun(h, e1, b, SPELLING_COUNTER);
    forall k | 0 <= k < SPELLING_COUNTER
      ensures CounterBytes(CounterAfter(e1, k)) != reference
    {
      assert CounterAfter(e1, k) == k;
      CountersDiffer(k, SPELLING_COUNTER);
    }
    AnonymousRunKeeps(h, e1, b, SPELLING_COUNTER, reference);
    assert CounterAfter(e1, SPELLING_COUNTER) == SPELLING_COUNTER;
    CreateReplacesIff(h, source, steps, b, fee, None);
  }
}
