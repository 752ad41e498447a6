/** What holds of the memo in every run, whatever the interleaving of its callers. */
module MemoTheorems {
  import opened Bytes
  import opened MemoTable
  import opened MemoSystem
  import ArchiveIdentity

  /** `steps` can be taken from `s`, one after the other. */
  ghost predicate Runs(w: World, s: System, steps: seq<Step>)
    decreases |steps|
  {
    steps == [] || (Enabled(w, s, steps[0]) && Runs(w, Next(w, s, steps[0]), steps[1..]))
  }

  ghost function After(w: World, s: System, steps: seq<Step>): System
    requires Runs(w, s, steps)
    decreases |steps|
  {
    if steps == [] then s else After(w, Next(w, s, steps[0]), steps[1..])
  }

  lemma {:induction false} RunKeeps(w: World, s: System, steps: seq<Step>)
    requires Invariant(w, s) && Runs(w, s, steps)
    ensures Invariant(w, After(w, s, steps))
    decreases |steps|
  {
    hide Invariant, Enabled, Next;
    if steps != [] {
      StepKeeps(w, s, steps[0]);
      RunKeeps(w, Next(w, s, steps[0]), steps[1..]);
    }
  }

  ghost predicate Reachable(w: World, s: System) {
    exists requested, steps :: Runs(w, Initial(requested), steps) && s == After(w, Initial(requested), steps)
  }

  lemma ReachableInvariant(w: World, s: System)
    requires Reachable(w, s)
    ensures Invariant(w, s)
  {
    hide Invariant, Enabled, Next, Runs, After;
    var requested, steps :| Runs(w, Initial(requested), steps) && s == After(w, Initial(requested), steps);
    InitialInvariant(w, requested);
    RunKeeps(w, Initial(requested), steps);
  }

  // ---------------------------------------------------------------------
  // Agreement with the plain verifier
  // ---------------------------------------------------------------------

  lemma ReturnedJustified(w: World, s: System, c: nat)
    requires Reachable(w, s) && c < |s.callers| && s.callers[c].Returned?
    ensures ArchiveIdentity.Intact(w.provider, s.callers[c].identity)
    ensures Justified(w, Identities(s.callers), s.callers[c].identity.archiveHash, s.callers[c].result)
  {
    hide ArchiveIdentity.Intact, ValidTable, ValidFlight, ValidInFlight, Justified, Identities, Reachable;
    ReachableInvariant(w, s);
    assert ValidCaller(w, s, c);
  }

  /** The identity of caller `c` collides with the identity of caller `d`. */
  ghost predicate CollidesWith(w: World, s: System, c: nat, d: nat) {
    && c < |s.callers| && d < |s.callers| && !s.callers[c].Refused? && !s.callers[d].Refused?
    && ArchiveIdentity.Collide(w.provider, s.callers[c].identity, s.callers[d].identity)
  }

  /**
   Whatever a caller gets, by hit, as owner or as waiter, is what verifying its own identity
   yields, unless that identity collides with the one some caller of this run established.
   */
  lemma MemoAgrees(w: World, s: System, c: nat)
    requires Reachable(w, s) && c < |s.callers| && s.callers[c].Returned?
    ensures || s.callers[c].result == w.finish(s.callers[c].identity)
            || exists d :: CollidesWith(w, s, c, d)
  {
    hide ArchiveIdentity.Intact, Reachable, ArchiveIdentity.Collide, Justified, Identities;
    ReturnedJustified(w, s, c);
    var id := s.callers[c].identity;
    var d := JustifyingCaller(w, s, id.archiveHash, s.callers[c].result);
    ArchiveIdentity.SameHashSameIdentity(w.provider, id, s.callers[d].identity);
    if id != s.callers[d].identity {
      assert CollidesWith(w, s, c, d);
    }
  }

  lemma JustifyingCaller(w: World, s: System, archiveHash: bytes, outcome: Outcome) returns (d: nat)
    requires Justified(w, Identities(s.callers), archiveHash, outcome)
    ensures d < |s.callers| && !s.callers[d].Refused?
    ensures var id := s.callers[d].identity;
            ArchiveIdentity.Intact(w.provider, id) && id.archiveHash == archiveHash && w.finish(id) == outcome
  {
    hide ArchiveIdentity.Intact;
    var id :| id in Identities(s.callers) && ArchiveIdentity.Intact(w.provider, id)
              && id.archiveHash == archiveHash && w.finish(id) == outcome;
    d :| 0 <= d < |s.callers| && !s.callers[d].Refused? && s.callers[d].identity == id;
  }

  /** Only verified reports are cached, each one the verifier's answer for an identity some caller established. */
  lemma CachedReportsVerified(w: World, s: System, k: Key)
    requires Reachable(w, s) && k in s.table.entries
    ensures s.table.entries[k].verified && Justified(w, Identities(s.callers), k.archiveHash, Ok(s.table.entries[k]))
  {
    ReachableInvariant(w, s);
  }

  // ---------------------------------------------------------------------
  // Single flight
  // ---------------------------------------------------------------------

  /** At most one caller computes or is about to publish a given key. */
  lemma SingleFlight(w: World, s: System, c: nat, d: nat)
    requires Reachable(w, s) && c < |s.callers| && d < |s.callers|
    requires s.callers[c].Computing? || s.callers[c].Publishing?
    requires s.callers[d].Computing? || s.callers[d].Publishing?
    requires s.callers[c].key == s.callers[d].key
    ensures c == d
  {
    hide ArchiveIdentity.Intact, ValidTable, ValidFlight, ValidInFlight, Justified, Reachable;
    ReachableInvariant(w, s);
    assert ValidCaller(w, s, c) && ValidCaller(w, s, d);
  }

  lemma OutcomeKept(w: World, s: System, step: Step, f: nat)
    requires Invariant(w, s) && Enabled(w, s, step) && f < |s.flights| && s.flights[f].outcome.Some?
    ensures f < |Next(w, s, step).flights| && Next(w, s, step).flights[f] == s.flights[f]
  {
    hide ArchiveIdentity.Intact, ValidTable, Justified, ValidFlight, ValidInFlight;
    if step.Announce? {
      assert ValidCaller(w, s, step.caller);
    }
  }

  /** An announced outcome never changes. */
  lemma {:induction false} OutcomeSetOnce(w: World, s: System, steps: seq<Step>, f: nat)
    requires Invariant(w, s) && Runs(w, s, steps) && f < |s.flights| && s.flights[f].outcome.Some?
    ensures f < |After(w, s, steps).flights| && After(w, s, steps).flights[f] == s.flights[f]
    decreases |steps|
  {
    hide Invariant, Enabled, Next;
    if steps != [] {
      OutcomeKept(w, s, steps[0], f);
      StepKeeps(w, s, steps[0]);
      OutcomeSetOnce(w, Next(w, s, steps[0]), steps[1..], f);
    }
  }

  /** Owner and waiters of one flight all return the one announced outcome. */
  lemma SharedOutcome(w: World, s: System, c: nat)
    requires Reachable(w, s) && c < |s.callers| && s.callers[c].Returned? && s.callers[c].source.FromFlight?
    ensures var f := s.callers[c].source.flight;
            f < |s.flights| && s.flights[f].key == s.callers[c].key && s.flights[f].outcome == Some(s.callers[c].result)
  {
    ReachableInvariant(w, s);
    assert ValidCaller(w, s, c);
  }

  // ---------------------------------------------------------------------
  // No caller is stuck
  // ---------------------------------------------------------------------

  predicate Settled(c: Caller) {
    c.Refused? || c.Returned?
  }

  predicate Arrival(step: Step) {
    step.Arrive? || step.ArriveRefused?
  }

  /** A caller that has not returned can step, or waits for a flight whose live owner can. */
  lemma Progress(w: World, s: System, c: nat) returns (step: Step)
    requires Reachable(w, s) && c < |s.callers| && !Settled(s.callers[c])
    ensures Enabled(w, s, step) && !Arrival(step)
    ensures step.caller == c || (s.callers[c].Waiting? && Owns(s.callers[step.caller], s.callers[c].flight))
  {
    hide ArchiveIdentity.Intact, ValidTable, ValidInFlight, Justified, Reachable;
    ReachableInvariant(w, s);
    assert ValidCaller(w, s, c);
    var live := c;
    if s.callers[c].Waiting? {
      var f := s.callers[c].flight;
      assert ValidFlight(w, s, f);
      if s.flights[f].outcome.Some? {
        return Wake(c);
      }
      live := s.flights[f].owner;
      assert ValidCaller(w, s, live);
    }
    match s.callers[live]
    case Looking(_, _) => step := LookUp(live);
    case Computing(_, _, _) => step := Compute(live);
    case Publishing(_, _, _, _) => step := PublishResult(live);
    case Announcing(_, _, _, _) => step := Announce(live);
  }

  /** Steps a caller may still have to take. */
  function Rank(c: Caller): nat {
    match c
    case Looking(_, _) => 4
    case Computing(_, _, _) => 3
    case Publishing(_, _, _, _) => 2
    case Announcing(_, _, _, _) => 1
    case Waiting(_, _, _) => 1
    case _ => 0
  }

  function TotalRank(callers: seq<Caller>): nat {
    if callers == [] then 0 else Rank(callers[0]) + TotalRank(callers[1..])
  }

  lemma {:induction false} TotalRankUpdate(callers: seq<Caller>, c: nat, caller: Caller)
    requires c < |callers|
    ensures TotalRank(callers[c := caller]) == TotalRank(callers) - Rank(callers[c]) + Rank(caller)
  {
    if c == 0 {
      assert callers[c := caller][1..] == callers[1..];
    } else {
      assert callers[c := caller][1..] == callers[1..][c - 1 := caller];
      TotalRankUpdate(callers[1..], c - 1, caller);
    }
  }

  lemma StepLowersRank(w: World, s: System, step: Step)
    requires Enabled(w, s, step) && !Arrival(step)
    ensures TotalRank(Next(w, s, step).callers) < TotalRank(s.callers)
  {
    hide TotalRank, Lookup;
    var s' := Next(w, s, step);
    var c := step.caller;
    assert s'.callers == s.callers[c := s'.callers[c]];
    TotalRankUpdate(s.callers, c, s'.callers[c]);
  }

  /** Without new arrivals a run has at most as many steps as the callers have left, four each. */
  lemma {:induction false} RunBound(w: World, s: System, steps: seq<Step>)
    requires Runs(w, s, steps) && forall i :: 0 <= i < |steps| ==> !Arrival(steps[i])
    ensures |steps| + TotalRank(After(w, s, steps).callers) <= TotalRank(s.callers)
    decreases |steps|
  {
    hide Enabled, Next, TotalRank;
    if steps != [] {
      StepLowersRank(w, s, steps[0]);
      RunBound(w, Next(w, s, steps[0]), steps[1..]);
    }
  }

  // ---------------------------------------------------------------------
  // The table in every reachable state
  // ---------------------------------------------------------------------

  /** The recency list holds exactly the cached keys, once each, oldest use first; size within capacity. */
  lemma TableShape(w: World, s: System)
    requires Reachable(w, s)
    ensures NoDuplicates(s.table.recency) && ByLastUse(s.table.recency, s.uses)
    ensures forall k :: k in s.table.recency <==> k in s.table.entries
    ensures s.table.entries.Keys !! s.table.inFlight.Keys
    ensures 1 <= s.capacity && |s.table.entries| <= s.capacity
  {
    ReachableInvariant(w, s);
    ByLastUseNoDuplicates(s.table.recency, s.uses);
  }

  lemma PublishingUncached(w: World, s: System, c: nat)
    requires Reachable(w, s) && Enabled(w, s, PublishResult(c))
    ensures s.callers[c].key !in s.table.entries && ValidTable(s.table, s.capacity, s.uses) && s.capacity >= 1
  {
    hide ArchiveIdentity.Intact, ValidFlight, ValidInFlight, Justified, Reachable, ByLastUse;
    ReachableInvariant(w, s);
    assert ValidCaller(w, s, c);
  }

  lemma TableSize(t: Table, capacity: nat, uses: seq<Key>)
    requires ValidTable(t, capacity, uses)
    ensures |t.entries| <= capacity
  {
  }

  /** The keys other than its own that survive a verified publish. */
  ghost function SurvivingKeys(s: System): set<Key> {
    if |s.table.entries| < s.capacity || s.table.recency == [] then s.table.entries.Keys
    else s.table.entries.Keys - {s.table.recency[0]}
  }

  /** A publish adds at most its own key and evicts at most one, the least recently used. */
  lemma PublishEvictsAtMostOne(w: World, s: System, c: nat)
    requires Reachable(w, s) && Enabled(w, s, PublishResult(c))
    ensures var Publishing(key, _, _, result) := s.callers[c];
            var after := Next(w, s, PublishResult(c)).table.entries.Keys;
            var before := s.table.entries.Keys;
            if result.Ok? && result.value.verified
            then key !in before && after == SurvivingKeys(s) + {key}
                 && (|before| == s.capacity ==> s.table.recency != [])
            else after == before
  {
    hide Reachable, ArchiveIdentity.Intact, ValidTable, ByLastUse, Lookup;
    PublishingUncached(w, s, c);
    var Publishing(key, _, _, result) := s.callers[c];
    if result.Ok? && result.value.verified {
      PublishEvictsOldest(s.table, key, result.value, s.capacity, s.uses);
      TableSize(s.table, s.capacity, s.uses);
      hide Publish;
      assert |s.table.entries.Keys| == |s.table.entries|;
    }
  }

  // ---------------------------------------------------------------------
  // Several archive hashes of one directory
  // ---------------------------------------------------------------------

  /** A hit changes no entry; a miss drops exactly the entries of the same directory. */
  lemma MissDropsDrift(w: World, s: System, c: nat)
    requires Enabled(w, s, LookUp(c))
    ensures var key, before, after := s.callers[c].key, s.table.entries, Next(w, s, LookUp(c)).table.entries;
            && (key in before ==> after == before)
            && (key !in before ==>
                  forall k :: k in after <==> k in before && k.directory != key.directory)
            && forall k :: k in after ==> after[k] == before[k]
  {
    hide Touch, WithoutDirectory, Publish;
    LookupEffect(s.table, s.callers[c].key, |s.flights|);
  }

  /** Only publishing a key makes it cached. */
  lemma NewEntryIsPublished(w: World, s: System, step: Step, k: Key)
    requires Invariant(w, s) && Enabled(w, s, step) && k in Next(w, s, step).table.entries && k !in s.table.entries
    ensures step.PublishResult? && s.callers[step.caller].key == k
  {
    hide ArchiveIdentity.Intact, ValidFlight, ValidInFlight, Justified, Identities, ByLastUse, Publish, Lookup;
    if step.LookUp? {
      LookupEffect(s.table, s.callers[step.caller].key, |s.flights|);
    }
    if step.PublishResult? {
      assert ValidCaller(w, s, step.caller);
      var Publishing(key, _, _, result) := s.callers[step.caller];
      PublishedEntries(s.table, key, result, s.capacity, s.uses);
    }
  }

  /** Some step of the run publishes `k`. */
  ghost predicate Publishes(w: World, s: System, steps: seq<Step>, k: Key)
    requires Runs(w, s, steps)
    decreases |steps|
  {
    steps != [] &&
    ((steps[0].PublishResult? && s.callers[steps[0].caller].key == k) || Publishes(w, Next(w, s, steps[0]), steps[1..], k))
  }

  lemma {:induction false} EntriesArePublished(w: World, s: System, steps: seq<Step>, k: Key)
    requires Invariant(w, s) && Runs(w, s, steps) && k in After(w, s, steps).table.entries
    ensures k in s.table.entries || Publishes(w, s, steps, k)
    decreases |steps|
  {
    hide Invariant, Enabled, Next;
    if steps != [] {
      StepKeeps(w, s, steps[0]);
      EntriesArePublished(w, Next(w, s, steps[0]), steps[1..], k);
      if k !in s.table.entries && k in Next(w, s, steps[0]).table.entries {
        NewEntryIsPublished(w, s, steps[0], k);
      }
    }
  }

  /**
   After a miss, a directory has a stale entry only if that key is published later: whatever runs,
   every cached key of the directory was published since the miss.
   */
  lemma StaleOnlyByLaterPublish(w: World, s: System, c: nat, steps: seq<Step>, k: Key)
    requires Reachable(w, s) && Enabled(w, s, LookUp(c)) && s.callers[c].key !in s.table.entries
    requires Runs(w, Next(w, s, LookUp(c)), steps)
    requires k in After(w, Next(w, s, LookUp(c)), steps).table.entries && k.directory == s.callers[c].key.directory
    ensures Publishes(w, Next(w, s, LookUp(c)), steps, k)
  {
    hide Invariant, Reachable, Runs, After, Publishes;
    ReachableInvariant(w, s);
    StepKeeps(w, s, LookUp(c));
    MissDropsDrift(w, s, c);
    hide Next, Enabled;
    EntriesArePublished(w, Next(w, s, LookUp(c)), steps, k);
  }

  ghost predicate OneHashPerDirectory(keys: set<Key>) {
    forall k, l :: k in keys && l in keys && k.directory == l.directory ==> k == l
  }

  ghost predicate HasDirectory(keys: set<Key>, directory: bytes) {
    exists k :: k in keys && k.directory == directory
  }

  lemma OneHashInsert(keys: set<Key>, surviving: set<Key>, key: Key)
    requires OneHashPerDirectory(keys) && surviving <= keys && key !in keys
    ensures OneHashPerDirectory(surviving + {key}) <==> !HasDirectory(surviving, key.directory)
  {
    if HasDirectory(surviving, key.directory) {
      var k :| k in surviving && k.directory == key.directory;
      assert k in surviving + {key} && key in surviving + {key};
    }
  }

  /** A late publish: a verified report lands while another hash of its directory stays cached. */
  ghost predicate LatePublish(s: System, step: Step) {
    && step.PublishResult? && step.caller < |s.callers| && s.callers[step.caller].Publishing?
    && s.callers[step.caller].result.Ok? && s.callers[step.caller].result.value.verified
    && HasDirectory(SurvivingKeys(s), s.callers[step.caller].key.directory)
  }

  lemma OneHashAfterPublish(w: World, s: System, c: nat)
    requires Reachable(w, s) && Enabled(w, s, PublishResult(c)) && OneHashPerDirectory(s.table.entries.Keys)
    ensures OneHashPerDirectory(Next(w, s, PublishResult(c)).table.entries.Keys) <==> !LatePublish(s, PublishResult(c))
  {
    hide Reachable, Publish, ArchiveIdentity.Intact, OneHashPerDirectory, HasDirectory;
    PublishEvictsAtMostOne(w, s, c);
    var Publishing(key, _, _, result) := s.callers[c];
    if result.Ok? && result.value.verified {
      OneHashInsert(s.table.entries.Keys, SurvivingKeys(s), key);
    }
  }

  /** "At most one cached hash per directory" survives a step exactly when the step is not a late publish. */
  lemma OneHashUnlessLate(w: World, s: System, step: Step)
    requires Reachable(w, s) && Enabled(w, s, step) && OneHashPerDirectory(s.table.entries.Keys)
    ensures OneHashPerDirectory(Next(w, s, step).table.entries.Keys) <==> !LatePublish(s, step)
  {
    if step.PublishResult? {
      OneHashAfterPublish(w, s, step.caller);
    } else {
      hide Reachable, Lookup;
      if step.LookUp? {
        LookupEffect(s.table, s.callers[step.caller].key, |s.flights|);
      }
    }
  }

  lemma {:induction false} RunsAppend(w: World, s: System, steps: seq<Step>, step: Step)
    requires Runs(w, s, steps) && Enabled(w, After(w, s, steps), step)
    ensures Runs(w, s, steps + [step])
    ensures After(w, s, steps + [step]) == Next(w, After(w, s, steps), step)
    decreases |steps|
  {
    hide Enabled, Next;
    if steps == [] {
      assert steps + [step] == [step] && [step][1..] == [];
    } else {
      RunsAppend(w, Next(w, s, steps[0]), steps[1..], step);
      assert (steps + [step])[1..] == steps[1..] + [step];
    }
  }

  lemma ReachableStep(w: World, s: System, step: Step)
    requires Reachable(w, s) && Enabled(w, s, step)
    ensures Reachable(w, Next(w, s, step))
  {
    hide Enabled, Next, Runs, After;
    var requested, steps :| Runs(w, Initial(requested), steps) && s == After(w, Initial(requested), steps);
    RunsAppend(w, Initial(requested), steps, step);
  }

  /** Two callers find nothing cached and nothing in flight for their two keys: both own a flight. */
  lemma BothOwn(w: World, a: Key, b: Key, old': Identity, new': Identity, capacity: nat) returns (s: System)
    requires ArchiveIdentity.Intact(w.provider, old') && ArchiveIdentity.Intact(w.provider, new')
    requires a == Key(a.directory, old'.archiveHash) && b == Key(a.directory, new'.archiveHash) && a != b
    requires capacity >= 1
    ensures Reachable(w, s) && s.capacity == capacity && s.table.entries == map[] && s.table.recency == []
    ensures s.callers == [Publishing(a, old', 0, w.finish(old')), Publishing(b, new', 1, w.finish(new'))]
  {
    hide ArchiveIdentity.Intact, Reachable;
    s := Initial(capacity);
    assert Reachable(w, s) by { InitialReachable(w, capacity); }
    ReachableStep(w, s, Arrive(a.directory, old'));
    s := Next(w, s, Arrive(a.directory, old'));
    ReachableStep(w, s, Arrive(a.directory, new'));
    s := Next(w, s, Arrive(a.directory, new'));
    ReachableStep(w, s, LookUp(0));
    s := Next(w, s, LookUp(0));
    assert s.callers == [Computing(a, old', 0), Looking(b, new')] && s.table == Table(map[], [], map[a := 0]);
    ReachableStep(w, s, LookUp(1));
    s := Next(w, s, LookUp(1));
    assert s.callers == [Computing(a, old', 0), Computing(b, new', 1)] && s.table.entries == map[];
    ReachableStep(w, s, Compute(0));
    s := Next(w, s, Compute(0));
    ReachableStep(w, s, Compute(1));
    s := Next(w, s, Compute(1));
  }

  lemma InitialReachable(w: World, requested: nat)
    ensures Reachable(w, Initial(requested))
  {
    assert Runs(w, Initial(requested), []) && After(w, Initial(requested), []) == Initial(requested);
  }

  /** A run after which two archive hashes of one directory are both cached. */
  lemma TwoHashesCoexist(w: World, directory: bytes, old': Identity, new': Identity, capacity: nat) returns (s: System)
    requires ArchiveIdentity.Intact(w.provider, old') && ArchiveIdentity.Intact(w.provider, new')
    requires old'.archiveHash != new'.archiveHash && capacity >= 2
    requires w.finish(old').Ok? && w.finish(old').value.verified
    requires w.finish(new').Ok? && w.finish(new').value.verified
    ensures Reachable(w, s)
    ensures Key(directory, old'.archiveHash) in s.table.entries && Key(directory, new'.archiveHash) in s.table.entries
  {
    hide ArchiveIdentity.Intact, Reachable, Publish;
    var a, b := Key(directory, old'.archiveHash), Key(directory, new'.archiveHash);
    s := BothOwn(w, a, b, old', new', capacity);
    PublishEvictsAtMostOne(w, s, 0);
    ReachableStep(w, s, PublishResult(0));
    s := Next(w, s, PublishResult(0));
    assert s.table.entries.Keys == {a};
    assert |s.table.entries| == |s.table.entries.Keys| == 1;
    PublishEvictsAtMostOne(w, s, 1);
    ReachableStep(w, s, PublishResult(1));
    s := Next(w, s, PublishResult(1));
    assert s.table.entries.Keys == {a, b};
  }
}
