/**
 The memo shared by any number of callers, as a transition system. One step is
 one critical section, the owner's unlocked computation, the announcement of a
 flight's outcome, or the waking of a waiter.
 */
module MemoSystem {
  import opened Bytes
  import opened MemoTable
  import ArchiveIdentity

  type Identity = ArchiveIdentity.Identity

  /** The hash provider and `finish_verification`, a pure function of the identity. */
  datatype World = World(provider: ArchiveIdentity.Provider, finish: Identity -> Outcome)

  /** How a caller came by its result. */
  datatype Source = FromCache | FromFlight(flight: nat)

  datatype Caller =
    | Refused(outcome: Outcome)
    | Looking(key: Key, identity: Identity)
    | Computing(key: Key, identity: Identity, flight: nat)
    | Publishing(key: Key, identity: Identity, flight: nat, result: Outcome)
    | Announcing(key: Key, identity: Identity, flight: nat, result: Outcome)
    | Waiting(key: Key, identity: Identity, flight: nat)
    | Returned(key: Key, identity: Identity, result: Outcome, source: Source)

  /** A flight: its key, the caller that owns it, and the outcome once announced. */
  datatype Flight = Flight(key: Key, owner: nat, outcome: Option<Outcome>)

  /** `uses` logs every use of a cached key, for stating the recency order. */
  datatype System = System(
    capacity: nat,
    table: Table,
    flights: seq<Flight>,
    callers: seq<Caller>,
    uses: seq<Key>)

  datatype Step =
    | ArriveRefused(outcome: Outcome)
    | Arrive(directory: bytes, identity: Identity)
    | LookUp(caller: nat)
    | Compute(caller: nat)
    | PublishResult(caller: nat)
    | Announce(caller: nat)
    | Wake(caller: nat)

  /** An empty memo; a requested capacity of 0 counts as 1. */
  function Initial(requested: nat): System {
    System(if requested < 1 then 1 else requested, EMPTY, [], [], [])
  }

  ghost predicate Enabled(w: World, s: System, step: Step) {
    match step
    case ArriveRefused(_) => true
    case Arrive(_, identity) => ArchiveIdentity.Intact(w.provider, identity)
    case LookUp(c) => c < |s.callers| && s.callers[c].Looking?
    case Compute(c) => c < |s.callers| && s.callers[c].Computing?
    case PublishResult(c) => c < |s.callers| && s.callers[c].Publishing?
    case Announce(c) => c < |s.callers| && s.callers[c].Announcing? && s.callers[c].flight < |s.flights|
    case Wake(c) =>
      && c < |s.callers| && s.callers[c].Waiting? && s.callers[c].flight < |s.flights|
      && s.flights[s.callers[c].flight].outcome.Some?
  }

  function AfterLookup(s: System, c: nat): System
    requires c < |s.callers| && s.callers[c].Looking?
  {
    var Looking(key, id) := s.callers[c];
    var (table, found) := Lookup(s.table, key, |s.flights|);
    var s' := s.(table := table, uses := s.uses + LookupUses(s.table, key));
    match found
    case Hit(report) => s'.(callers := s.callers[c := Returned(key, id, Ok(report), FromCache)])
    case Wait(f) => s'.(callers := s.callers[c := Waiting(key, id, f)])
    case Own(f) =>
      s'.(callers := s.callers[c := Computing(key, id, f)], flights := s.flights + [Flight(key, c, None)])
  }

  ghost function Next(w: World, s: System, step: Step): System
    requires Enabled(w, s, step)
  {
    match step
    case ArriveRefused(outcome) => s.(callers := s.callers + [Refused(outcome)])
    case Arrive(directory, id) => s.(callers := s.callers + [Looking(Key(directory, id.archiveHash), id)])
    case LookUp(c) => AfterLookup(s, c)
    case Compute(c) =>
      var Computing(key, id, f) := s.callers[c];
      s.(callers := s.callers[c := Publishing(key, id, f, w.finish(id))])
    case PublishResult(c) =>
      var Publishing(key, id, f, result) := s.callers[c];
      s.(callers := s.callers[c := Announcing(key, id, f, result)],
         table := Publish(s.table, key, result, s.capacity),
         uses := s.uses + PublishUses(key, result))
    case Announce(c) =>
      var Announcing(key, id, f, result) := s.callers[c];
      s.(callers := s.callers[c := Returned(key, id, result, FromFlight(f))],
         flights := s.flights[f := s.flights[f].(outcome := Some(result))])
    case Wake(c) =>
      var Waiting(key, id, f) := s.callers[c];
      s.(callers := s.callers[c := Returned(key, id, s.flights[f].outcome.value, FromFlight(f))])
  }

  // ---------------------------------------------------------------------
  // The invariant
  // ---------------------------------------------------------------------

  /** The identities the callers established. */
  ghost function Identities(callers: seq<Caller>): set<Identity> {
    set c | 0 <= c < |callers| && !callers[c].Refused? :: callers[c].identity
  }

  /** `outcome` is what verification yields for one of the identities `ids`, with this archive hash. */
  ghost predicate Justified(w: World, ids: set<Identity>, archiveHash: bytes, outcome: Outcome) {
    exists id :: id in ids && ArchiveIdentity.Intact(w.provider, id) && id.archiveHash == archiveHash && w.finish(id) == outcome
  }

  lemma SameIdentities(callers: seq<Caller>, c: nat, caller: Caller)
    requires c < |callers| && !callers[c].Refused? && !caller.Refused? && caller.identity == callers[c].identity
    ensures Identities(callers[c := caller]) == Identities(callers)
  {
    var after := callers[c := caller];
    forall id | id in Identities(callers)
      ensures id in Identities(after)
    {
      var d :| 0 <= d < |callers| && !callers[d].Refused? && callers[d].identity == id;
      assert after[d].identity == id;
    }
    forall id | id in Identities(after)
      ensures id in Identities(callers)
    {
      var d :| 0 <= d < |after| && !after[d].Refused? && after[d].identity == id;
      assert callers[d].identity == id;
    }
  }

  lemma MoreIdentities(callers: seq<Caller>, newcomer: Caller)
    ensures Identities(callers) <= Identities(callers + [newcomer])
  {
    forall id | id in Identities(callers)
      ensures id in Identities(callers + [newcomer])
    {
      var d :| 0 <= d < |callers| && !callers[d].Refused? && callers[d].identity == id;
      assert (callers + [newcomer])[d].identity == id;
    }
  }

  lemma JustifiedByOwn(w: World, callers: seq<Caller>, c: nat, outcome: Outcome)
    requires c < |callers| && !callers[c].Refused? && ArchiveIdentity.Intact(w.provider, callers[c].identity)
    requires outcome == w.finish(callers[c].identity)
    ensures Justified(w, Identities(callers), callers[c].identity.archiveHash, outcome)
  {
    hide ArchiveIdentity.Intact;
    assert callers[c].identity in Identities(callers);
  }

  predicate Owns(c: Caller, f: nat) {
    (c.Computing? || c.Publishing? || c.Announcing?) && c.flight == f
  }

  ghost predicate ValidFlight(w: World, s: System, f: nat)
    requires f < |s.flights|
  {
    var flight := s.flights[f];
    && (flight.outcome.Some? ==> Justified(w, Identities(s.callers), flight.key.archiveHash, flight.outcome.value))
    && (flight.outcome.None? ==> flight.owner < |s.callers| && Owns(s.callers[flight.owner], f))
  }

  /** The caller at `c` is the live owner of the flight it names. */
  predicate OwnsLiveFlight(s: System, c: nat, key: Key, f: nat) {
    f < |s.flights| && s.flights[f] == Flight(key, c, None)
  }

  ghost predicate ValidCaller(w: World, s: System, c: nat)
    requires c < |s.callers|
  {
    match s.callers[c]
    case Refused(_) => true
    case Looking(key, id) => ArchiveIdentity.Intact(w.provider, id) && key.archiveHash == id.archiveHash
    case Computing(key, id, f) =>
      && ArchiveIdentity.Intact(w.provider, id) && key.archiveHash == id.archiveHash && OwnsLiveFlight(s, c, key, f)
      && key in s.table.inFlight && s.table.inFlight[key] == f
    case Publishing(key, id, f, result) =>
      && ArchiveIdentity.Intact(w.provider, id) && key.archiveHash == id.archiveHash && OwnsLiveFlight(s, c, key, f)
      && key in s.table.inFlight && s.table.inFlight[key] == f && result == w.finish(id)
    case Announcing(key, id, f, result) =>
      && ArchiveIdentity.Intact(w.provider, id) && key.archiveHash == id.archiveHash && OwnsLiveFlight(s, c, key, f)
      && (key in s.table.inFlight ==> s.table.inFlight[key] != f) && result == w.finish(id)
    case Waiting(key, id, f) =>
      && ArchiveIdentity.Intact(w.provider, id) && key.archiveHash == id.archiveHash
      && f < |s.flights| && s.flights[f].key == key
    case Returned(key, id, result, source) =>
      && ArchiveIdentity.Intact(w.provider, id) && key.archiveHash == id.archiveHash
      && Justified(w, Identities(s.callers), id.archiveHash, result)
      && (source.FromFlight? ==>
            source.flight < |s.flights| && s.flights[source.flight].key == key
            && s.flights[source.flight].outcome == Some(result))
  }

  ghost predicate ValidEntries(w: World, ids: set<Identity>, t: Table) {
    forall k :: k in t.entries ==> t.entries[k].verified && Justified(w, ids, k.archiveHash, Ok(t.entries[k]))
  }

  /** A key in flight has a flight that is still to be published. */
  predicate ValidInFlight(s: System) {
    forall k :: k in s.table.inFlight ==>
      && s.table.inFlight[k] < |s.flights|
      && s.flights[s.table.inFlight[k]].key == k
      && s.flights[s.table.inFlight[k]].outcome.None?
      && s.flights[s.table.inFlight[k]].owner < |s.callers|
      && !s.callers[s.flights[s.table.inFlight[k]].owner].Announcing?
  }

  ghost predicate Invariant(w: World, s: System) {
    && s.capacity >= 1
    && ValidTable(s.table, s.capacity, s.uses)
    && ValidEntries(w, Identities(s.callers), s.table)
    && ValidInFlight(s)
    && (forall f :: 0 <= f < |s.flights| ==> ValidFlight(w, s, f))
    && (forall c :: 0 <= c < |s.callers| ==> ValidCaller(w, s, c))
  }

  lemma InitialInvariant(w: World, requested: nat)
    ensures Invariant(w, Initial(requested))
  {
  }

  // ---------------------------------------------------------------------
  // Every step keeps it
  // ---------------------------------------------------------------------

  lemma ArrivalKeeps(w: World, s: System, newcomer: Caller)
    requires Invariant(w, s)
    requires newcomer.Refused? || (newcomer.Looking? && ArchiveIdentity.Intact(w.provider, newcomer.identity)
                                   && newcomer.key.archiveHash == newcomer.identity.archiveHash)
    ensures Invariant(w, s.(callers := s.callers + [newcomer]))
  {
    hide ArchiveIdentity.Intact, ValidTable, Identities;
    var s' := s.(callers := s.callers + [newcomer]);
    MoreIdentities(s.callers, newcomer);
    forall f | 0 <= f < |s'.flights|
      ensures ValidFlight(w, s', f)
    {
      assert ValidFlight(w, s, f);
    }
    forall c | 0 <= c < |s'.callers|
      ensures ValidCaller(w, s', c)
    {
      if c < |s.callers| {
        assert ValidCaller(w, s, c);
      }
    }
  }

  /** What a lookup does to the table, by what it found. */
  lemma LookupEffect(t: Table, key: Key, newFlight: nat)
    ensures var (t', found) := Lookup(t, key, newFlight);
            && (forall k :: k in t'.entries ==> k in t.entries && t'.entries[k] == t.entries[k])
            && (found.Hit? ==> key in t.entries && found.report == t.entries[key])
            && (found.Wait? ==> key in t.inFlight && found.flight == t.inFlight[key])
            && (found.Own? ==> key !in t.inFlight && found.flight == newFlight)
            && t'.inFlight == if found.Own? then t.inFlight[key := newFlight] else t.inFlight
  {
  }

  /** Replacing a caller that owns nothing, and dropping cached entries, disturbs nobody else. */
  lemma ReplaceCaller(w: World, s: System, c: nat, caller: Caller, table: Table, uses: seq<Key>)
    requires Invariant(w, s) && c < |s.callers| && (s.callers[c].Looking? || s.callers[c].Waiting?)
    requires ValidTable(table, s.capacity, uses) && table.inFlight == s.table.inFlight
    requires forall k :: k in table.entries ==> k in s.table.entries && table.entries[k] == s.table.entries[k]
    requires !caller.Refused? && caller.identity == s.callers[c].identity
    requires var s' := s.(callers := s.callers[c := caller], table := table, uses := uses); ValidCaller(w, s', c)
    ensures Invariant(w, s.(callers := s.callers[c := caller], table := table, uses := uses))
  {
    hide ArchiveIdentity.Intact, ValidTable, Justified, Identities;
    var s' := s.(callers := s.callers[c := caller], table := table, uses := uses);
    SameIdentities(s.callers, c, caller);
    forall f | 0 <= f < |s'.flights|
      ensures ValidFlight(w, s', f)
    {
      assert ValidFlight(w, s, f);
    }
    forall d | 0 <= d < |s'.callers|
      ensures ValidCaller(w, s', d)
    {
      assert ValidCaller(w, s, d);
    }
    forall k | k in s'.table.inFlight
      ensures s'.flights[s'.table.inFlight[k]].owner != c
    {
      assert ValidFlight(w, s, s.table.inFlight[k]);
    }
  }

  /** Creating a flight for a key that has none. */
  lemma NewFlightKeeps(w: World, s: System, c: nat, table: Table)
    requires Invariant(w, s) && c < |s.callers| && s.callers[c].Looking?
    requires var key := s.callers[c].key;
             && ValidTable(table, s.capacity, s.uses)
             && key !in s.table.inFlight && table.inFlight == s.table.inFlight[key := |s.flights|]
             && forall k :: k in table.entries ==> k in s.table.entries && table.entries[k] == s.table.entries[k]
    ensures var Looking(key, id) := s.callers[c];
            Invariant(w, s.(callers := s.callers[c := Computing(key, id, |s.flights|)], table := table,
                            flights := s.flights + [Flight(key, c, None)]))
  {
    hide ArchiveIdentity.Intact, ValidTable, Justified, Identities;
    var Looking(key, id) := s.callers[c];
    assert ValidCaller(w, s, c);
    var s' := s.(callers := s.callers[c := Computing(key, id, |s.flights|)], table := table,
                 flights := s.flights + [Flight(key, c, None)]);
    SameIdentities(s.callers, c, s'.callers[c]);
    forall f | 0 <= f < |s'.flights|
      ensures ValidFlight(w, s', f)
    {
      if f < |s.flights| {
        assert ValidFlight(w, s, f);
      }
    }
    forall d | 0 <= d < |s'.callers|
      ensures ValidCaller(w, s', d)
    {
      assert ValidCaller(w, s, d);
    }
    forall k | k in s'.table.inFlight && k != key
      ensures s'.flights[s'.table.inFlight[k]].owner != c
    {
      assert ValidFlight(w, s, s.table.inFlight[k]);
    }
  }

  /** The caller left behind by a hit or by joining a flight. */
  lemma LookupLeaves(w: World, s: System, c: nat)
    requires Invariant(w, s) && Enabled(w, s, LookUp(c)) && !Lookup(s.table, s.callers[c].key, |s.flights|).1.Own?
    ensures ValidCaller(w, AfterLookup(s, c), c)
  {
    hide Lookup, ValidTable, ArchiveIdentity.Intact, Justified, ValidFlight, Identities;
    assert ValidCaller(w, s, c);
    LookupEffect(s.table, s.callers[c].key, |s.flights|);
    SameIdentities(s.callers, c, AfterLookup(s, c).callers[c]);
  }

  lemma LookupKeeps(w: World, s: System, c: nat)
    requires Invariant(w, s) && Enabled(w, s, LookUp(c))
    ensures Invariant(w, Next(w, s, LookUp(c)))
  {
    hide Lookup, ValidTable, ValidFlight, ValidCaller, ValidInFlight, ValidEntries, Identities;
    var Looking(key, id) := s.callers[c];
    LookupKeepsTable(s.table, key, |s.flights|, s.capacity, s.uses);
    LookupEffect(s.table, key, |s.flights|);
    var (table, found) := Lookup(s.table, key, |s.flights|);
    var uses := s.uses + LookupUses(s.table, key);
    if found.Own? {
      LookupOwnMisses(s.table, key, |s.flights|);
      assert uses == s.uses;
      NewFlightKeeps(w, s, c, table);
    } else {
      LookupLeaves(w, s, c);
      ReplaceCaller(w, s, c, AfterLookup(s, c).callers[c], table, uses);
    }
  }

  lemma LookupOwnMisses(t: Table, key: Key, newFlight: nat)
    ensures !Lookup(t, key, newFlight).1.Hit? ==> key !in t.entries
  {
  }

  lemma ComputeKeeps(w: World, s: System, c: nat)
    requires Invariant(w, s) && Enabled(w, s, Compute(c))
    ensures Invariant(w, Next(w, s, Compute(c)))
  {
    hide ArchiveIdentity.Intact, ValidTable, Justified, Identities;
    assert ValidCaller(w, s, c);
    var s' := Next(w, s, Compute(c));
    SameIdentities(s.callers, c, s'.callers[c]);
    forall f | 0 <= f < |s'.flights|
      ensures ValidFlight(w, s', f)
    {
      assert ValidFlight(w, s, f);
    }
    forall d | 0 <= d < |s'.callers|
      ensures ValidCaller(w, s', d)
    {
      assert ValidCaller(w, s, d);
    }
  }

  lemma PublishedEntries(t: Table, key: Key, result: Outcome, capacity: nat, uses: seq<Key>)
    requires ValidTable(t, capacity, uses) && capacity >= 1 && key !in t.entries
    ensures var t' := Publish(t, key, result, capacity);
            && t'.inFlight == t.inFlight - {key}
            && forall k :: k in t'.entries ==>
                 if k == key then result == Ok(t'.entries[k]) && t'.entries[k].verified
                 else k in t.entries && t'.entries[k] == t.entries[k]
  {
    PublishLands(t, key, result, capacity);
    if result.Ok? && result.value.verified {
      PublishEvictsOldest(t, key, result.value, capacity, uses);
    }
  }

  lemma PublishKeepsCallers(w: World, s: System, c: nat)
    requires Invariant(w, s) && Enabled(w, s, PublishResult(c))
    ensures var s' := Next(w, s, PublishResult(c));
            && ValidInFlight(s')
            && (forall f :: 0 <= f < |s'.flights| ==> ValidFlight(w, s', f))
            && (forall d :: 0 <= d < |s'.callers| ==> ValidCaller(w, s', d))
  {
    hide ArchiveIdentity.Intact, ValidTable, Publish, Justified, Identities;
    var Publishing(key, id, f0, result) := s.callers[c];
    assert ValidCaller(w, s, c);
    PublishLands(s.table, key, result, s.capacity);
    var s' := Next(w, s, PublishResult(c));
    SameIdentities(s.callers, c, s'.callers[c]);
    forall f | 0 <= f < |s'.flights|
      ensures ValidFlight(w, s', f)
    {
      assert ValidFlight(w, s, f);
    }
    forall d | 0 <= d < |s'.callers|
      ensures ValidCaller(w, s', d)
    {
      assert ValidCaller(w, s, d);
    }
    forall k | k in s'.table.inFlight
      ensures s'.flights[s'.table.inFlight[k]].owner != c
    {
      assert ValidFlight(w, s, s.table.inFlight[k]);
    }
  }

  lemma PublishKeeps(w: World, s: System, c: nat)
    requires Invariant(w, s) && Enabled(w, s, PublishResult(c))
    ensures Invariant(w, Next(w, s, PublishResult(c)))
  {
    hide ValidFlight, ValidInFlight, ArchiveIdentity.Intact, Publish, Justified, Identities;
    var Publishing(key, id, f0, result) := s.callers[c];
    assert ValidCaller(w, s, c);
    assert key !in s.table.entries;
    PublishKeepsTable(s.table, key, result, s.capacity, s.uses);
    PublishedEntries(s.table, key, result, s.capacity, s.uses);
    PublishKeepsCallers(w, s, c);
    JustifiedByOwn(w, s.callers, c, result);
    SameIdentities(s.callers, c, Announcing(key, id, f0, result));
    hide ValidTable, ValidCaller;
    assert ValidEntries(w, Identities(s.callers), Publish(s.table, key, result, s.capacity));
  }

  lemma AnnounceKeeps(w: World, s: System, c: nat)
    requires Invariant(w, s) && Enabled(w, s, Announce(c))
    ensures Invariant(w, Next(w, s, Announce(c)))
  {
    hide ArchiveIdentity.Intact, ValidTable, Justified, Identities;
    var Announcing(key, id, f0, result) := s.callers[c];
    assert ValidCaller(w, s, c);
    JustifiedByOwn(w, s.callers, c, result);
    var s' := Next(w, s, Announce(c));
    SameIdentities(s.callers, c, s'.callers[c]);
    forall f | 0 <= f < |s'.flights|
      ensures ValidFlight(w, s', f)
    {
      assert ValidFlight(w, s, f);
    }
    forall d | 0 <= d < |s'.callers|
      ensures ValidCaller(w, s', d)
    {
      assert ValidCaller(w, s, d);
    }
  }

  lemma WakeKeeps(w: World, s: System, c: nat)
    requires Invariant(w, s) && Enabled(w, s, Wake(c))
    ensures Invariant(w, Next(w, s, Wake(c)))
  {
    hide ArchiveIdentity.Intact, ValidTable, Justified, Identities;
    assert ValidCaller(w, s, c);
    assert ValidFlight(w, s, s.callers[c].flight);
    var s' := Next(w, s, Wake(c));
    SameIdentities(s.callers, c, s'.callers[c]);
    forall f | 0 <= f < |s'.flights|
      ensures ValidFlight(w, s', f)
    {
      assert ValidFlight(w, s, f);
    }
    forall d | 0 <= d < |s'.callers|
      ensures ValidCaller(w, s', d)
    {
      assert ValidCaller(w, s, d);
    }
  }

  lemma StepKeeps(w: World, s: System, step: Step)
    requires Invariant(w, s) && Enabled(w, s, step)
    ensures Invariant(w, Next(w, s, step))
  {
    match step
    case ArriveRefused(outcome) => ArrivalKeeps(w, s, Refused(outcome));
    case Arrive(directory, id) => ArrivalKeeps(w, s, Looking(Key(directory, id.archiveHash), id));
    case LookUp(c) => LookupKeeps(w, s, c);
    case Compute(c) => ComputeKeeps(w, s, c);
    case PublishResult(c) => PublishKeeps(w, s, c);
    case Announce(c) => AnnounceKeeps(w, s, c);
    case Wake(c) => WakeKeeps(w, s, c);
  }
}
