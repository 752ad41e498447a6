/** What creating a request answers, and the bytes its identifiers are the digest of. */
module AnchorCreation {
  import opened Bytes
  import opened Hex
  import opened Arithmetic
  import opened AnchorIds
  import opened AnchorStore
  import opened AnchorReuse
  import opened AnchorRuns
  import opened AnchorVerdicts

  // ---------------------------------------------------------------------
  // The calls that count
  // ---------------------------------------------------------------------

  /** The call at the end of `steps` is a creation that no armed failure stopped. */
  predicate CreatesLast(steps: seq<Step>)
    requires steps != []
  {
    steps[|steps| - 1].CreateStep? && ArmedCreation(steps[..|steps| - 1]).None?
  }

  /** The first creation under a client reference. */
  function FirstUse(steps: seq<Step>, reference: bytes): (r: Option<Step>)
    ensures r.Some? ==> r.value.CreateStep?
    decreases |steps|
  {
    if steps == [] then None
    else
      var before := FirstUse(steps[..|steps| - 1], reference);
      if before.None? && CreatesLast(steps) && steps[|steps| - 1].reference == Some(reference) then Some(steps[|steps| - 1])
      else before
  }

  /** How many creations had no client reference. */
  function AnonymousIn(steps: seq<Step>): nat
    decreases |steps|
  {
    if steps == [] then 0
    else AnonymousIn(steps[..|steps| - 1]) + if CreatesLast(steps) && steps[|steps| - 1].reference.None? then 1 else 0
  }

  lemma {:induction false} MadeIs(h: Hash, source: SourceKind, steps: seq<Step>)
    ensures Run(h, Start(source), steps).past.made == AnonymousIn(steps)
    decreases |steps|
  {
    hide Next, Approve, Reject, ArmedCreation;
    if steps != [] {
      var n := |steps| - 1;
      MadeIs(h, source, steps[..n]);
      SwitchesAre(h, source, steps[..n]);
    }
  }

  /** The store indexes a reference for its first use, and keeps what that call asked for. */
  ghost predicate Indexed(h: Hash, s: Store, reference: bytes, first: Option<Step>) {
    match first
    case None => reference !in s.clientIndex
    case Some(step) =>
      && step.CreateStep? && reference in s.clientIndex
      && var id := RequestId(h, step.binding, reference);
         && s.clientIndex[reference] == id && id in s.records
         && s.records[id].binding == step.binding && s.records[id].maxFee == step.maxFee
  }

  lemma IndexedGrows(h: Hash, e: Execution, e': Execution, reference: bytes, first: Option<Step>)
    requires Indexed(h, e.store, reference, first) && Grows(e, e') && first.Some?
    ensures Indexed(h, e'.store, reference, first)
  {
    hide RequestId;
  }

  lemma IndexedStep(h: Hash, e: Execution, step: Step, reference: bytes)
    requires reference !in e.store.clientIndex
    ensures Indexed(h, Next(h, e.store, step), reference,
                    if step.CreateStep? && e.store.createFailure.None? && step.reference == Some(reference) then Some(step) else None)
  {
    hide RequestId, IdOf;
    if Creates(e.store, step) {
      CreateEffect(h, e.store, e.past, step);
      hide Next, Recorded;
    } else {
      OtherStepsSame(h, e.store, e.past, step);
      hide Next, Recorded;
    }
  }

  lemma {:induction false} ClientsAre(h: Hash, source: SourceKind, steps: seq<Step>, reference: bytes)
    requires Injective(h) && Admissible(h, Start(source), steps)
    ensures Indexed(h, Run(h, Start(source), steps).store, reference, FirstUse(steps, reference))
    decreases |steps|
  {
    hide Next, Recorded, ArmedCreation, WellTyped, Invariant, Indexed, Grows, VerdictsSound;
    if steps == [] {
      assert Indexed(h, Start(source).store, reference, None) by { NothingIndexed(h, source, reference); }
    } else {
      var n := |steps| - 1;
      var e := Run(h, Start(source), steps[..n]);
      MadeGrows(h, e, steps[n]);
      RunVerdicts(h, source, steps[..n]);
      ClientsAre(h, source, steps[..n], reference);
      StepGrows(h, e, steps[n]);
      SwitchesAre(h, source, steps[..n]);
      hide Run;
      if FirstUse(steps[..n], reference).Some? {
        IndexedGrows(h, e, Advance(h, e, steps[n]), reference, FirstUse(steps[..n], reference));
      } else {
        Unindexed(h, e.store, reference);
        IndexedStep(h, e, steps[n], reference);
      }
    }
  }

  lemma NothingIndexed(h: Hash, source: SourceKind, reference: bytes)
    ensures Indexed(h, Start(source).store, reference, None)
  {
  }

  lemma Unindexed(h: Hash, s: Store, reference: bytes)
    requires Indexed(h, s, reference, None)
    ensures reference !in s.clientIndex
  {
  }

  // ---------------------------------------------------------------------
  // Answers
  // ---------------------------------------------------------------------

  /** The digest of a binding and a disambiguator, separated by NUL. */
  function RequestDigest(h: Hash, b: Binding, disambiguator: bytes): bytes {
    h(Ascii("tari-cc-private-ballot/anchor-transport-fake/request-id/v1") + [0] + b.network + [0] + b.account + [0]
      + b.digest + [0] + disambiguator)
  }

  /** Both identifiers are the lowercase hex of a digest over their parts. */
  lemma IdentifiersAre(h: Hash, b: Binding, disambiguator: bytes, id: bytes, digest: bytes)
    ensures RequestId(h, b, disambiguator) == ToHex(RequestDigest(h, b, disambiguator))
    ensures TransactionId(h, id, digest) ==
            ToHex(h(Ascii("tari-cc-private-ballot/anchor-transport-fake/transaction-id/v1") + [0] + id + [0] + digest))
  {
    var domain := Ascii("tari-cc-private-ballot/anchor-transport-fake/request-id/v1") + [0];
    assert RequestFrame(b, disambiguator) ==
           domain + b.network + [0] + b.account + [0] + b.digest + [0] + disambiguator;
    assert TransactionFrame(id, digest) ==
           Ascii("tari-cc-private-ballot/anchor-transport-fake/transaction-id/v1") + [0] + id + [0] + digest;
  }

  /** `text` is the number `n` in eight bytes, least significant first. */
  ghost predicate SpellsCounter(text: bytes, n: nat) {
    |text| == 8 && forall i :: 0 <= i < 8 ==> text[i] as int == Digit(n, i)
  }

  lemma CounterSpelled(n: nat)
    ensures SpellsCounter(CounterBytes(n), n)
  {
    forall i: nat | i < 8 ensures CounterBytes(n)[i] as int == Digit(n, i) {
      LittleEndianAt(n, 8, i);
    }
  }

  /** Creating without a client reference: the armed failure, or a request told apart by the number of such creations. */
  lemma CreateAnonymousAnswers(h: Hash, source: SourceKind, steps: seq<Step>, b: Binding, fee: nat)
    requires Injective(h) && AllWellTyped(steps)
    ensures var s := Run(h, Start(source), steps).store;
            match ArmedCreation(steps)
            case Some(error) => Create(h, s, b, fee, None).1 == Err(error)
            case None =>
              exists text ::
                && SpellsCounter(text, AnonymousIn(steps) % 0x1_0000_0000_0000_0000)
                && Create(h, s, b, fee, None).1 == Ok(Prepared(ToHex(RequestDigest(h, b, text)), b, fee))
  {
    hide Run, ArmedCreation, RequestId, RequestDigest, KeysSound, WellTyped, SpellsCounter, CounterBytes;
    var e := Run(h, Start(source), steps);
    SwitchesAre(h, source, steps);
    MadeIs(h, source, steps);
    RunIdsSound(h, source, steps);
    CounterSpelled(e.store.counter);
    IdentifiersAre(h, b, CounterBytes(e.store.counter), [], []);
  }

  /** Creating under a client reference: the armed failure, a new request, or the request of the first use. */
  lemma CreateAnswers(h: Hash, source: SourceKind, steps: seq<Step>, b: Binding, fee: nat, reference: bytes)
    requires Injective(h) && Admissible(h, Start(source), steps)
    ensures Create(h, Run(h, Start(source), steps).store, b, fee, Some(reference)).1 ==
            if ArmedCreation(steps).Some? then Err(ArmedCreation(steps).value)
            else match FirstUse(steps, reference)
              case None => Ok(Prepared(ToHex(RequestDigest(h, b, reference)), b, fee))
              case Some(first) =>
                if first.binding != b then Err(ClientReferenceConflict)
                else Ok(Prepared(ToHex(RequestDigest(h, b, reference)), b, first.maxFee))
  {
    hide Run, ArmedCreation, RequestId, RequestDigest, WellTyped, FirstUse;
    SwitchesAre(h, source, steps);
    ClientsAre(h, source, steps, reference);
    IdentifiersAre(h, b, reference, [], []);
  }
}
