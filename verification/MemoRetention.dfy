/** What a lookup is answered, and how long a published report stays available. */
module MemoRetention {
  import opened Bytes
  import opened MemoTable
  import opened MemoSystem
  import opened MemoTheorems
  import ArchiveIdentity

  // ---------------------------------------------------------------------
  // Answers to a lookup
  // ---------------------------------------------------------------------

  /** Caller `d` is verifying `key` and has not yet published. */
  predicate Working(s: System, d: int, key: Key) {
    0 <= d < |s.callers| && (s.callers[d].Computing? || s.callers[d].Publishing?) && s.callers[d].key == key
  }

  lemma InFlightIff(w: World, s: System, key: Key)
    requires Invariant(w, s)
    ensures key in s.table.inFlight <==> exists d :: Working(s, d, key)
    ensures forall d :: Working(s, d, key) ==> key in s.table.inFlight && s.table.inFlight[key] == s.callers[d].flight
  {
    hide ArchiveIdentity.Intact, ValidTable, Justified, Identities, ValidEntries;
    if key in s.table.inFlight {
      var f := s.table.inFlight[key];
      var d := s.flights[f].owner;
      assert ValidFlight(w, s, f);
      assert ValidCaller(w, s, d);
      assert Working(s, d, key);
    }
    forall d | Working(s, d, key)
      ensures key in s.table.inFlight && s.table.inFlight[key] == s.callers[d].flight
    {
      assert ValidCaller(w, s, d);
    }
  }

  /** A cached report is returned; without one the caller joins whoever verifies the key, or verifies it itself. */
  lemma LookupAnswers(w: World, s: System, c: nat)
    requires Reachable(w, s) && Enabled(w, s, LookUp(c))
    ensures var Looking(key, id) := s.callers[c];
            var after := Next(w, s, LookUp(c)).callers[c];
            if key in s.table.entries then after == Returned(key, id, Ok(s.table.entries[key]), FromCache)
            else if exists d :: Working(s, d, key)
            then forall d :: Working(s, d, key) ==> after == Waiting(key, id, s.callers[d].flight)
            else after == Computing(key, id, |s.flights|)
  {
    hide Reachable, Invariant, ArchiveIdentity.Intact, Touch, OtherDirectories, WithoutDirectory;
    ReachableInvariant(w, s);
    InFlightIff(w, s, s.callers[c].key);
    hide Working;
  }

  // ---------------------------------------------------------------------
  // Leaving the table
  // ---------------------------------------------------------------------

  /** The step looks up another archive hash of the directory, in vain. */
  ghost predicate Misses(s: System, step: Step, directory: bytes) {
    && step.LookUp? && step.caller < |s.callers| && s.callers[step.caller].Looking?
    && s.callers[step.caller].key.directory == directory && s.callers[step.caller].key !in s.table.entries
  }

  ghost predicate PublishesVerified(s: System, step: Step) {
    && step.PublishResult? && step.caller < |s.callers| && s.callers[step.caller].Publishing?
    && s.callers[step.caller].result.Ok? && s.callers[step.caller].result.value.verified
  }

  /** Every other cached key was used after `k`. */
  ghost predicate LeastRecent(s: System, k: Key) {
    forall other :: other in s.table.entries && other != k ==> LastUse(s.uses, k) < LastUse(s.uses, other)
  }

  lemma OldestIff(t: Table, capacity: nat, uses: seq<Key>, k: Key)
    requires ValidTable(t, capacity, uses) && k in t.entries
    ensures t.recency != []
    ensures k == t.recency[0] <==> forall other :: other in t.entries && other != k ==> LastUse(uses, k) < LastUse(uses, other)
  {
    hide LastUse;
    assert k in t.recency;
    assert t.recency[0] in t.recency;
    if k == t.recency[0] {
      forall other | other in t.entries && other != k ensures LastUse(uses, k) < LastUse(uses, other) {
        assert other in t.recency;
      }
    } else {
      var i :| 0 <= i < |t.recency| && t.recency[i] == k;
      assert LastUse(uses, t.recency[0]) < LastUse(uses, k);
    }
  }

  /**
   * A cached report leaves the table exactly when another archive hash of its directory is looked
   * up in vain, or a verified report is published into a full table in which it is least recent;
   * while it stays it does not change.
   */
  lemma LeavesIff(w: World, s: System, step: Step, k: Key)
    requires Reachable(w, s) && Enabled(w, s, step) && k in s.table.entries
    ensures k !in Next(w, s, step).table.entries <==>
            || Misses(s, step, k.directory)
            || (PublishesVerified(s, step) && |s.table.entries| == s.capacity && LeastRecent(s, k))
    ensures k in Next(w, s, step).table.entries ==> Next(w, s, step).table.entries[k] == s.table.entries[k]
  {
    hide Reachable, Invariant, ArchiveIdentity.Intact, Lookup, Publish, ValidTable, LastUse;
    if step.LookUp? {
      MissDropsDrift(w, s, step.caller);
    } else if step.PublishResult? {
      PublishingUncached(w, s, step.caller);
      PublishLeaves(s, step.caller, k);
    }
  }

  lemma PublishLeaves(s: System, c: nat, k: Key)
    requires c < |s.callers| && s.callers[c].Publishing? && s.callers[c].key !in s.table.entries
    requires ValidTable(s.table, s.capacity, s.uses) && s.capacity >= 1 && k in s.table.entries
    ensures var after := Publish(s.table, s.callers[c].key, s.callers[c].result, s.capacity).entries;
            && (k !in after <==> PublishesVerified(s, PublishResult(c)) && |s.table.entries| == s.capacity && LeastRecent(s, k))
            && (k in after ==> after[k] == s.table.entries[k])
  {
    hide LastUse, ByLastUse, Publish;
    var Publishing(key, _, _, result) := s.callers[c];
    OldestIff(s.table, s.capacity, s.uses, k);
    hide LeastRecent;
    assert LeastRecent(s, k) <==> k == s.table.recency[0] by { LeastIs(s, k); }
    if PublishesVerified(s, PublishResult(c)) {
      PublishEvictsOldest(s.table, key, result.value, s.capacity, s.uses);
    } else {
      PublishRefused(s.table, key, result, s.capacity);
    }
  }

  lemma LeastIs(s: System, k: Key)
    requires ValidTable(s.table, s.capacity, s.uses) && k in s.table.entries
    ensures s.table.recency != [] && (LeastRecent(s, k) <==> k == s.table.recency[0])
  {
    hide LastUse, ValidTable;
    OldestIff(s.table, s.capacity, s.uses, k);
  }

  // ---------------------------------------------------------------------
  // Staying in the table
  // ---------------------------------------------------------------------

  /** Some step of the run looks up another archive hash of the directory in vain. */
  ghost predicate MissedIn(w: World, s: System, steps: seq<Step>, directory: bytes)
    requires Runs(w, s, steps)
    decreases |steps|
  {
    steps != [] && (Misses(s, steps[0], directory) || MissedIn(w, Next(w, s, steps[0]), steps[1..], directory))
  }

  lemma {:induction false} LastUseSpread(s: seq<Key>, uses: seq<Key>, i: nat)
    requires ByLastUse(s, uses) && i < |s|
    ensures LastUse(uses, s[i]) >= LastUse(uses, s[0]) + i
  {
    if i > 0 {
      LastUseSpread(s, uses, i - 1);
    }
  }

  lemma {:induction false} DistinctSize(s: seq<Key>, keys: set<Key>)
    requires NoDuplicates(s) && forall k :: k in s <==> k in keys
    ensures |s| == |keys|
  {
    if s == [] {
      assert keys == {};
    } else {
      var n := |s| - 1;
      assert s[n] in s;
      forall k ensures k in s[..n] <==> k in keys - {s[n]} {
        if k in keys && k != s[n] {
          var i :| 0 <= i < |s| && s[i] == k;
          assert s[..n][i] == k;
        }
        if k in s[..n] {
          var i :| 0 <= i < n && s[..n][i] == k;
          assert s[i] == k;
        }
      }
      DistinctSize(s[..n], keys - {s[n]});
    }
  }

  /** In a full table the least recent key has been followed by a use of every other key. */
  lemma FullSpread(t: Table, capacity: nat, uses: seq<Key>, k: Key)
    requires ValidTable(t, capacity, uses) && |t.entries| == capacity && t.recency != [] && t.recency[0] == k
    ensures LastUse(uses, k) + capacity <= |uses|
  {
    hide LastUse;
    ByLastUseNoDuplicates(t.recency, uses);
    DistinctSize(t.recency, t.entries.Keys);
    assert |t.entries.Keys| == |t.entries|;
    LastUseSpread(t.recency, uses, |t.recency| - 1);
    LastUseBound(uses, t.recency[|t.recency| - 1]);
  }

  lemma UsesStep(w: World, s: System, step: Step, k: Key)
    requires Enabled(w, s, step)
    ensures |s.uses| + (if PublishesVerified(s, step) then 1 else 0) <= |Next(w, s, step).uses|
    ensures Next(w, s, step).capacity == s.capacity
    ensures LastUse(s.uses, k) <= LastUse(Next(w, s, step).uses, k)
  {
    hide ArchiveIdentity.Intact, Lookup, Publish, LastUse;
    LastUseBound(s.uses, k);
    assert s.uses + [] == s.uses;
    if step.LookUp? {
      LastUseAppend(s.uses, s.callers[step.caller].key, k);
    } else if step.PublishResult? {
      LastUseAppend(s.uses, s.callers[step.caller].key, k);
    }
  }

  lemma {:induction false} UsesGrow(w: World, s: System, steps: seq<Step>)
    requires Runs(w, s, steps)
    ensures |s.uses| <= |After(w, s, steps).uses|
    decreases |steps|
  {
    hide Enabled, Next;
    if steps != [] {
      UsesStep(w, s, steps[0], Key([], []));
      UsesGrow(w, Next(w, s, steps[0]), steps[1..]);
    }
  }

  /**
   * A cached report stays available, unchanged, as long as no other archive hash of its directory
   * is looked up in vain and cached keys are used fewer than `capacity` times after its own last use.
   */
  lemma {:induction false} StaysCached(w: World, s: System, steps: seq<Step>, k: Key)
    requires Reachable(w, s) && Runs(w, s, steps) && k in s.table.entries
    requires !MissedIn(w, s, steps, k.directory)
    requires |After(w, s, steps).uses| <= LastUse(s.uses, k) + s.capacity
    ensures var after := After(w, s, steps).table.entries; k in after && after[k] == s.table.entries[k]
    decreases |steps|
  {
    hide Enabled, Next, Reachable, Misses, PublishesVerified, LastUse, Invariant;
    if steps != [] {
      var s' := Next(w, s, steps[0]);
      UsesStep(w, s, steps[0], k);
      UsesGrow(w, s', steps[1..]);
      LeavesIff(w, s, steps[0], k);
      if LeastRecent(s, k) && |s.table.entries| == s.capacity {
        CrowdedOut(w, s, k);
      }
      ReachableStep(w, s, steps[0]);
      StaysCached(w, s', steps[1..], k);
    }
  }

  lemma CrowdedOut(w: World, s: System, k: Key)
    requires Reachable(w, s) && k in s.table.entries && LeastRecent(s, k) && |s.table.entries| == s.capacity
    ensures LastUse(s.uses, k) + s.capacity <= |s.uses|
  {
    hide Reachable, LeastRecent, LastUse, ValidEntries, ValidInFlight, ValidFlight, ValidCaller;
    ReachableInvariant(w, s);
    LeastIs(s, k);
    FullSpread(s.table, s.capacity, s.uses, k);
  }

  /** A report just published is returned by every lookup of its key, under the same conditions. */
  lemma PublishedIsReturned(w: World, s: System, c: nat, steps: seq<Step>, d: nat)
    requires Reachable(w, s) && Enabled(w, s, PublishResult(c)) && PublishesVerified(s, PublishResult(c))
    requires Runs(w, Next(w, s, PublishResult(c)), steps)
    requires !MissedIn(w, Next(w, s, PublishResult(c)), steps, s.callers[c].key.directory)
    requires |After(w, Next(w, s, PublishResult(c)), steps).uses| < |Next(w, s, PublishResult(c)).uses| + s.capacity
    requires var later := After(w, Next(w, s, PublishResult(c)), steps);
             Enabled(w, later, LookUp(d)) && later.callers[d].key == s.callers[c].key
    ensures var later := After(w, Next(w, s, PublishResult(c)), steps);
            Next(w, later, LookUp(d)).callers[d] ==
            Returned(s.callers[c].key, later.callers[d].identity, s.callers[c].result, FromCache)
  {
    hide Reachable, MissedIn, Runs, After, LastUse, Lookup, ArchiveIdentity.Intact;
    var s1 := Next(w, s, PublishResult(c));
    var k := s.callers[c].key;
    PublishingUncached(w, s, c);
    PublishEvictsOldest(s.table, k, s.callers[c].result.value, s.capacity, s.uses);
    TableSize(s.table, s.capacity, s.uses);
    hide Publish, ValidTable;
    LastUseAppend(s.uses, k, k);
    ReachableStep(w, s, PublishResult(c));
    hide Next, Enabled;
    StaysCached(w, s1, steps, k);
    ReachableRun(w, s1, steps);
    LookupAnswers(w, After(w, s1, steps), d);
  }

  lemma {:induction false} ReachableRun(w: World, s: System, steps: seq<Step>)
    requires Reachable(w, s) && Runs(w, s, steps)
    ensures Reachable(w, After(w, s, steps))
    decreases |steps|
  {
    hide Enabled, Next, Reachable;
    if steps != [] {
      ReachableStep(w, s, steps[0]);
      ReachableRun(w, Next(w, s, steps[0]), steps[1..]);
    }
  }
}
