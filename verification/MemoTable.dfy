/**
 The memo's table: cached verified reports, their recency list, and the keys
 whose verification is in flight. `Lookup` and `Publish` are its two critical
 sections.
 */
module MemoTable {
  import opened Bytes

  datatype Key = Key(directory: bytes, archiveHash: bytes)

  /** A verification report; `details` stands for every field but the verdict. */
  datatype Report = Report(verified: bool, details: bytes)
  datatype VerifierError = FileNotFound | IoFailure | LimitExceeded
  type Outcome = Result<Report, VerifierError>

  datatype Table = Table(entries: map<Key, Report>, recency: seq<Key>, inFlight: map<Key, nat>)

  datatype Found = Hit(report: Report) | Wait(flight: nat) | Own(flight: nat)

  const EMPTY := Table(map[], [], map[])

  function Without(s: seq<Key>, key: Key): (r: seq<Key>)
    ensures forall k :: k in r <==> k in s && k != key
  {
    if s == [] then [] else (if s[0] == key then [] else [s[0]]) + Without(s[1..], key)
  }

  function WithoutDirectory(s: seq<Key>, directory: bytes): (r: seq<Key>)
    ensures forall k :: k in r <==> k in s && k.directory != directory
  {
    if s == [] then []
    else (if s[0].directory == directory then [] else [s[0]]) + WithoutDirectory(s[1..], directory)
  }

  function Touch(recency: seq<Key>, key: Key): seq<Key> {
    Without(recency, key) + [key]
  }

  function OtherDirectories(entries: map<Key, Report>, directory: bytes): map<Key, Report> {
    map k | k in entries && k.directory != directory :: entries[k]
  }

  /** A miss drops every cached report of the key's directory. */
  function DropDrifted(t: Table, directory: bytes): Table {
    if exists k :: k in t.entries && k.directory == directory
    then t.(entries := OtherDirectories(t.entries, directory), recency := WithoutDirectory(t.recency, directory))
    else t
  }

  /** The lookup critical section; `newFlight` names the flight to create. */
  function Lookup(t: Table, key: Key, newFlight: nat): (Table, Found) {
    if key in t.entries then (t.(recency := Touch(t.recency, key)), Hit(t.entries[key]))
    else
      var kept := DropDrifted(t, key.directory);
      if key in kept.inFlight then (kept, Wait(kept.inFlight[key]))
      else (kept.(inFlight := kept.inFlight[key := newFlight]), Own(newFlight))
  }

  /** The eviction loop: oldest keys go until the reports fit. */
  function Evict(entries: map<Key, Report>, recency: seq<Key>, capacity: nat): (map<Key, Report>, seq<Key>)
    decreases |recency|
  {
    if |entries| <= capacity || recency == [] then (entries, recency)
    else Evict(entries - {recency[0]}, recency[1..], capacity)
  }

  /** The publish critical section: only a verified report is cached. */
  function Publish(t: Table, key: Key, result: Outcome, capacity: nat): Table {
    var landed := t.(inFlight := t.inFlight - {key});
    if result.Ok? && result.value.verified then
      var (entries, recency) := Evict(t.entries[key := result.value], Touch(t.recency, key), capacity);
      landed.(entries := entries, recency := recency)
    else landed
  }

  // ---------------------------------------------------------------------
  // The table invariant
  // ---------------------------------------------------------------------

  /** Position of the last use of `k` in the log of uses; -1 when it was never used. */
  function LastUse(uses: seq<Key>, k: Key): int {
    if uses == [] then -1 else if uses[|uses| - 1] == k then |uses| - 1 else LastUse(uses[..|uses| - 1], k)
  }

  /** Keys in order of their last use. */
  predicate ByLastUse(s: seq<Key>, uses: seq<Key>) {
    && (forall i :: 0 <= i < |s| ==> LastUse(uses, s[i]) >= 0)
    && (forall i, j :: 0 <= i < j < |s| ==> LastUse(uses, s[i]) < LastUse(uses, s[j]))
  }

  /** The recency list names exactly the cached keys. */
  ghost predicate Lists(recency: seq<Key>, entries: map<Key, Report>) {
    forall k :: k in recency <==> k in entries
  }

  ghost predicate ValidTable(t: Table, capacity: nat, uses: seq<Key>) {
    && Lists(t.recency, t.entries)
    && ByLastUse(t.recency, uses)
    && t.entries.Keys !! t.inFlight.Keys
    && |t.entries| <= capacity
  }

  predicate NoDuplicates(s: seq<Key>) {
    forall i, j :: 0 <= i < j < |s| ==> s[i] != s[j]
  }

  lemma ByLastUseNoDuplicates(s: seq<Key>, uses: seq<Key>)
    requires ByLastUse(s, uses)
    ensures NoDuplicates(s)
  {
  }

  lemma {:induction false} LastUseBound(uses: seq<Key>, k: Key)
    ensures LastUse(uses, k) < |uses|
  {
    if uses != [] {
      LastUseBound(uses[..|uses| - 1], k);
    }
  }

  lemma LastUseAppend(uses: seq<Key>, key: Key, k: Key)
    ensures LastUse(uses + [key], k) == if k == key then |uses| else LastUse(uses, k)
  {
    assert (uses + [key])[..|uses|] == uses;
  }

  lemma {:induction false} WithoutOrdered(s: seq<Key>, key: Key, uses: seq<Key>)
    requires ByLastUse(s, uses)
    ensures ByLastUse(Without(s, key), uses)
  {
    if s != [] {
      WithoutOrdered(s[1..], key, uses);
      var rest := Without(s[1..], key);
      forall i | 0 <= i < |rest|
        ensures LastUse(uses, s[0]) < LastUse(uses, rest[i])
      {
        assert rest[i] in s[1..];
      }
    }
  }

  lemma {:induction false} WithoutDirectoryOrdered(s: seq<Key>, directory: bytes, uses: seq<Key>)
    requires ByLastUse(s, uses)
    ensures ByLastUse(WithoutDirectory(s, directory), uses)
  {
    hide LastUse;
    if s != [] {
      WithoutDirectoryOrdered(s[1..], directory, uses);
      var rest := WithoutDirectory(s[1..], directory);
      forall i | 0 <= i < |rest|
        ensures LastUse(uses, s[0]) < LastUse(uses, rest[i])
      {
        assert rest[i] in s[1..];
      }
    }
  }

  lemma TouchOrdered(s: seq<Key>, key: Key, uses: seq<Key>)
    requires ByLastUse(s, uses)
    ensures ByLastUse(Touch(s, key), uses + [key])
  {
    WithoutOrdered(s, key, uses);
    var kept := Without(s, key);
    forall k
      ensures LastUse(uses + [key], k) == (if k == key then |uses| else LastUse(uses, k)) && LastUse(uses, k) < |uses|
    {
      LastUseAppend(uses, key, k);
      LastUseBound(uses, k);
    }
    forall i | 0 <= i < |kept|
      ensures kept[i] != key
    {
      assert kept[i] in kept;
    }
  }

  /** The uses a lookup adds to the log. */
  function LookupUses(t: Table, key: Key): seq<Key> {
    if key in t.entries then [key] else []
  }

  function PublishUses(key: Key, result: Outcome): seq<Key> {
    if result.Ok? && result.value.verified then [key] else []
  }

  lemma SmallerMap(a: map<Key, Report>, b: map<Key, Report>)
    requires a.Keys <= b.Keys
    ensures |a| <= |b|
  {
    SmallerSet(a.Keys, b.Keys);
    assert |a| == |a.Keys| && |b| == |b.Keys|;
  }

  lemma {:induction false} SmallerSet(a: set<Key>, b: set<Key>)
    requires a <= b
    ensures |a| <= |b|
  {
    if a != {} {
      var x :| x in a;
      SmallerSet(a - {x}, b - {x});
    }
  }

  lemma LookupKeepsTable(t: Table, key: Key, newFlight: nat, capacity: nat, uses: seq<Key>)
    requires ValidTable(t, capacity, uses)
    ensures ValidTable(Lookup(t, key, newFlight).0, capacity, uses + LookupUses(t, key))
  {
    if key in t.entries {
      TouchOrdered(t.recency, key, uses);
    } else {
      assert uses + [] == uses;
      var kept := DropDrifted(t, key.directory);
      WithoutDirectoryOrdered(t.recency, key.directory, uses);
      SmallerMap(kept.entries, t.entries);
    }
  }

  lemma GrownSize(entries: map<Key, Report>, key: Key, report: Report)
    requires key !in entries
    ensures |entries[key := report]| == |entries| + 1
  {
    assert entries[key := report].Keys == entries.Keys + {key};
  }

  lemma ShrunkSize(entries: map<Key, Report>, key: Key)
    requires key in entries
    ensures |entries - {key}| == |entries| - 1
  {
    assert (entries - {key}).Keys == entries.Keys - {key};
  }

  /** One key over the capacity, the loop runs exactly once. */
  lemma EvictOnce(entries: map<Key, Report>, recency: seq<Key>, capacity: nat)
    requires |entries| == capacity + 1 && recency != [] && recency[0] in entries
    ensures Evict(entries, recency, capacity) == (entries - {recency[0]}, recency[1..])
  {
    ShrunkSize(entries, recency[0]);
  }

  /** With the table consistent, a verified publish evicts the oldest key when full and nothing otherwise. */
  lemma PublishEvictsOldest(t: Table, key: Key, report: Report, capacity: nat, uses: seq<Key>)
    requires ValidTable(t, capacity, uses) && capacity >= 1 && key !in t.entries && report.verified
    ensures var t' := Publish(t, key, Ok(report), capacity);
            && (|t.entries| < capacity ==>
                  t'.entries == t.entries[key := report] && t'.recency == t.recency + [key])
            && (|t.entries| == capacity ==>
                  && t.recency != []
                  && t'.entries == (t.entries - {t.recency[0]})[key := report]
                  && t'.recency == t.recency[1..] + [key])
  {
    hide LastUse, ByLastUse, Without;
    WithoutAbsent(t.recency, key);
    GrownSize(t.entries, key, report);
    if |t.entries| == capacity {
      var some :| some in t.entries;
      assert some in t.recency;
      var oldest := t.recency[0];
      assert oldest in t.recency;
      EvictOnce(t.entries[key := report], t.recency + [key], capacity);
      assert t.entries[key := report] - {oldest} == (t.entries - {oldest})[key := report];
      assert (t.recency + [key])[1..] == t.recency[1..] + [key];
    }
  }

  lemma {:induction false} WithoutAbsent(s: seq<Key>, key: Key)
    requires key !in s
    ensures Without(s, key) == s
  {
    if s != [] {
      WithoutAbsent(s[1..], key);
    }
  }

  lemma PublishKeepsTable(t: Table, key: Key, result: Outcome, capacity: nat, uses: seq<Key>)
    requires ValidTable(t, capacity, uses) && capacity >= 1 && key !in t.entries
    ensures ValidTable(Publish(t, key, result, capacity), capacity, uses + PublishUses(key, result))
  {
    hide Publish, ByLastUse;
    if result.Ok? && result.value.verified {
      hide ValidTable;
      PublishKeepsVerified(t, key, result.value, capacity, uses);
    } else {
      assert uses + [] == uses;
      PublishRefused(t, key, result, capacity);
    }
  }

  lemma PublishKeepsVerified(t: Table, key: Key, report: Report, capacity: nat, uses: seq<Key>)
    requires ValidTable(t, capacity, uses) && capacity >= 1 && key !in t.entries && report.verified
    ensures ValidTable(Publish(t, key, Ok(report), capacity), capacity, uses + [key])
  {
    hide Publish, Touch, Without, LastUse, ByLastUse, Lists;
    PublishEvictsOldest(t, key, report, capacity, uses);
    TouchOrdered(t.recency, key, uses);
    RoomyTable(t, key, report);
    TouchAbsent(t.recency, key);
    PublishLands(t, key, Ok(report), capacity);
    if |t.entries| == capacity {
      ByLastUseNoDuplicates(t.recency, uses);
      FullTable(t, key, report, capacity, uses);
      assert (t.entries - {t.recency[0]})[key := report].Keys <= t.entries.Keys + {key};
    } else {
      assert t.entries[key := report].Keys <= t.entries.Keys + {key};
    }
  }

  lemma RoomyTable(t: Table, key: Key, report: Report)
    requires key !in t.entries && Lists(t.recency, t.entries)
    ensures Lists(t.recency + [key], t.entries[key := report]) && key !in t.recency
    ensures |t.entries[key := report]| == |t.entries| + 1
  {
    GrownSize(t.entries, key, report);
  }

  /** A failed or unverified outcome only lands the flight. */
  lemma PublishRefused(t: Table, key: Key, result: Outcome, capacity: nat)
    requires result.Err? || !result.value.verified
    ensures Publish(t, key, result, capacity) == t.(inFlight := t.inFlight - {key})
  {
  }

  lemma TouchAbsent(s: seq<Key>, key: Key)
    requires key !in s
    ensures Touch(s, key) == s + [key]
  {
    WithoutAbsent(s, key);
  }

  lemma PublishLands(t: Table, key: Key, result: Outcome, capacity: nat)
    ensures Publish(t, key, result, capacity).inFlight == t.inFlight - {key}
  {
  }

  /** The keys and their order after the oldest one made room. */
  lemma FullTable(t: Table, key: Key, report: Report, capacity: nat, uses: seq<Key>)
    requires t.recency != [] && NoDuplicates(t.recency) && key !in t.entries && |t.entries| == capacity
    requires Lists(t.recency, t.entries) && ByLastUse(t.recency + [key], uses + [key])
    ensures var entries := (t.entries - {t.recency[0]})[key := report];
            var recency := t.recency[1..] + [key];
            Lists(recency, entries) && ByLastUse(recency, uses + [key]) && |entries| <= capacity
  {
    TailOrdered(t.recency + [key], uses + [key]);
    assert (t.recency + [key])[1..] == t.recency[1..] + [key];
    hide LastUse, ByLastUse;
    forall k
      ensures k in t.recency[1..] <==> k in t.recency && k != t.recency[0]
    {
      TailMembers(t.recency, k);
    }
    assert t.recency[0] in t.recency;
    ShrunkSize(t.entries, t.recency[0]);
    GrownSize(t.entries - {t.recency[0]}, key, report);
  }

  lemma TailOrdered(s: seq<Key>, uses: seq<Key>)
    requires ByLastUse(s, uses) && s != []
    ensures ByLastUse(s[1..], uses)
  {
  }

  lemma TailMembers(s: seq<Key>, k: Key)
    requires NoDuplicates(s) && s != []
    ensures k in s[1..] <==> k in s && k != s[0]
  {
    if k in s && k != s[0] {
      var i :| 0 <= i < |s| && s[i] == k;
      assert s[1..][i - 1] == k;
    }
    if k in s[1..] {
      var i :| 0 <= i < |s| - 1 && s[1..][i] == k;
      assert s[i + 1] == k;
    }
  }

  // ---------------------------------------------------------------------
  // The table object
  // ---------------------------------------------------------------------

  class MemoState {
    var entries: map<Key, Report>
    var recency: seq<Key>
    var inFlight: map<Key, nat>

    ghost function Contents(): Table
      reads this
    {
      Table(entries, recency, inFlight)
    }

    constructor ()
      ensures Contents() == EMPTY
    {
      entries, recency, inFlight := map[], [], map[];
    }

    method TouchKey(key: Key)
      modifies this`recency
      ensures Contents() == old(Contents()).(recency := Touch(old(recency), key))
    {
      recency := Without(recency, key) + [key];
    }

    /** Under the lock: a cached report, an existing flight to wait for, or a new flight to own. */
    method LookupOrJoin(key: Key, newFlight: nat) returns (found: Found)
      modifies this
      ensures (Contents(), found) == Lookup(old(Contents()), key, newFlight)
    {
      if key in entries {
        TouchKey(key);
        return Hit(entries[key]);
      }
      if exists k :: k in entries && k.directory == key.directory {
        entries := OtherDirectories(entries, key.directory);
        recency := WithoutDirectory(recency, key.directory);
      }
      if key in inFlight {
        return Wait(inFlight[key]);
      }
      inFlight := inFlight[key := newFlight];
      return Own(newFlight);
    }

    /** Under the lock: land the flight, cache a verified report, evict down to the capacity. */
    method PublishCompletion(key: Key, result: Outcome, capacity: nat)
      modifies this
      ensures Contents() == Publish(old(Contents()), key, result, capacity)
    {
      inFlight := inFlight - {key};
      if result.Ok? && result.value.verified {
        entries := entries[key := result.value];
        TouchKey(key);
        ghost var wanted := Evict(entries, recency, capacity);
        while |entries| > capacity
          invariant Evict(entries, recency, capacity) == wanted
          invariant inFlight == old(inFlight) - {key}
          decreases |recency|
        {
          if recency == [] {
            break;
          }
          var evicted := recency[0];
          recency := recency[1..];
          entries := entries - {evicted};
        }
      }
    }
  }
}
