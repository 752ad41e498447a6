/** The anchor store as the object whose methods update it in place. */
module AnchorFake {
  import opened Bytes
  import opened AnchorIds
  import opened AnchorStore
  import opened AnchorRestart

  class DeterministicAnchorFake {
    const hash: Hash
    var records: map<bytes, Record>
    var clientIndex: map<bytes, bytes>
    var byTransaction: map<bytes, bytes>
    var counter: nat
    var source: SourceKind
    var createFailure: Option<PreparationError>
    var approveFailure: Option<ApprovalError>
    var submitTimeout: bool
    var unavailable: bool

    ghost function View(): Store
      reads this
    {
      Store(records, clientIndex, byTransaction, counter, source, createFailure, approveFailure, submitTimeout, unavailable)
    }

    constructor (h: Hash, kind: SourceKind)
      ensures hash == h && View() == Empty(kind)
    {
      hash, source := h, kind;
      records, clientIndex, byTransaction, counter := map[], map[], map[], 0;
      createFailure, approveFailure, submitTimeout, unavailable := None, None, false, false;
    }

    constructor FromSnapshots(h: Hash, kind: SourceKind, snaps: seq<Snapshot>)
      ensures hash == h && View() == Restore(kind, snaps)
    {
      hash, source := h, kind;
      records, clientIndex, byTransaction, counter := map[], map[], map[], 0;
      createFailure, approveFailure, submitTimeout, unavailable := None, None, false, false;
      new;
      for i := 0 to |snaps|
        invariant hash == h && View() == Restore(kind, snaps[..i])
      {
        assert snaps[..i + 1][..i] == snaps[..i];
        var snap := snaps[i];
        if snap.transaction.Some? {
          byTransaction := byTransaction[snap.transaction.value := snap.id];
        }
        records := records[snap.id := Rebuilt(snap)];
      }
      assert snaps[..|snaps|] == snaps;
    }

    method CreateRequest(b: Binding, maxFee: nat, reference: Option<bytes>)
      returns (r: Result<Prepared, PreparationError>)
      modifies this
      ensures (View(), r) == Create(hash, old(View()), b, maxFee, reference)
    {
      hide RequestId, CounterBytes;
      if createFailure.Some? {
        r := Err(createFailure.value);
        createFailure := None;
        return;
      }
      if reference.Some? && reference.value in clientIndex {
        var existing := clientIndex[reference.value];
        if existing !in records || records[existing].binding != b {
          return Err(ClientReferenceConflict);
        }
        return Ok(Prepared(existing, b, records[existing].maxFee));
      }
      var disambiguator: bytes;
      if reference.Some? {
        disambiguator := reference.value;
      } else {
        disambiguator := CounterBytes(counter);
        counter := (counter + 1) % COUNTER_MODULUS;
      }
      var id := RequestId(hash, b, disambiguator);
      if reference.Some? {
        clientIndex := clientIndex[reference.value := id];
      }
      records := records[id := Record(b, maxFee, Pending, None, false, NotFinalized)];
      return Ok(Prepared(id, b, maxFee));
    }

    method ApproveRequest(id: bytes, b: Binding) returns (r: Result<ApprovedTransaction, ApprovalError>)
      modifies this
      ensures (View(), r) == Approve(old(View()), id, b)
    {
      if approveFailure.Some? {
        r := Err(approveFailure.value);
        approveFailure := None;
        return;
      }
      if id !in records {
        return Err(ApprovalNotFound);
      }
      var record := records[id];
      if b.network != record.binding.network {
        return Err(ApprovalNetwork);
      }
      if b.account != record.binding.account {
        return Err(ApprovalAccount);
      }
      if b.digest != record.binding.digest {
        return Err(ApprovalPayload);
      }
      match record.decision
      case Approved => return Err(AlreadyApproved);
      case Rejected => return Err(AlreadyRejected);
      case Expired => return Err(ApprovalExpired);
      case Pending =>
        records := records[id := record.(decision := Approved)];
        return Ok(ApprovedTransaction(id, record.binding));
    }

    method RejectRequest(id: bytes) returns (r: Result<(), ApprovalError>)
      modifies this
      ensures (View(), r) == Reject(old(View()), id)
    {
      if id !in records {
        return Err(ApprovalNotFound);
      }
      match records[id].decision
      case Pending =>
        records := records[id := records[id].(decision := Rejected)];
        return Ok(());
      case Rejected => return Ok(());
      case Approved => return Err(AlreadyApproved);
      case Expired => return Err(ApprovalExpired);
    }

    method SubmitRequest(id: bytes, b: Binding, digest: bytes) returns (r: Result<Submitted, SubmissionError>)
      modifies this
      ensures (View(), r) == Submit(hash, old(View()), id, b, digest)
    {
      hide TransactionId;
      var armed := submitTimeout;
      if id !in records {
        return Err(SubmissionNotFound);
      }
      var record := records[id];
      if b.network != record.binding.network {
        return Err(SubmissionNetwork);
      }
      if b.account != record.binding.account {
        return Err(SubmissionAccount);
      }
      if b.digest != record.binding.digest || digest != record.binding.digest {
        return Err(SubmissionPayload);
      }
      match record.decision
      case Pending => return Err(NotApproved);
      case Rejected => return Err(SubmissionRejected);
      case Expired => return Err(SubmissionExpired);
      case Approved =>
        var t := TransactionId(hash, id, record.binding.digest);
        record := record.(transaction := Some(t), submitted := true);
        if armed {
          record := record.(finality := Unknown);
        }
        records := records[id := record];
        if t !in byTransaction {
          byTransaction := byTransaction[t := id];
        }
        if armed {
          submitTimeout := false;
          return Err(Timeout);
        }
        return Ok(Submitted(id, t, record.binding));
    }

    method SetRequestFinality(id: bytes, f: Finality)
      modifies this
      ensures View() == SetFinality(old(View()), id, f)
    {
      if id in records {
        records := records[id := records[id].(finality := f)];
      }
    }

    method InjectExpire(id: bytes)
      modifies this
      ensures View() == Expire(old(View()), id)
    {
      if id in records {
        records := records[id := records[id].(decision := Expired)];
      }
    }

    /** The list of all snapshots in request order. */
    method Snapshots() returns (snaps: seq<Snapshot>)
      ensures Lists(View(), snaps)
    {
      hide SnapshotOf, LexLess;
      snaps := [];
      var left := records.Keys;
      while left != {}
        invariant left <= records.Keys
        invariant Listed(snaps, records, left)
        decreases |left|
      {
        SmallestExists(left);
        ghost var least :| Smallest(least, left);
        var id :| id in left && forall other :: other in left && other != id ==> LexLess(id, other);
        AppendSmallest(snaps, records, left, id);
        snaps, left := snaps + [SnapshotOf(id, records[id])], left - {id};
      }
    }
  }

  /** `snaps` lists the requests outside `left`, in order and before all of `left`. */
  ghost predicate Listed(snaps: seq<Snapshot>, records: map<bytes, Record>, left: set<bytes>) {
    && InOrder(snaps)
    && (forall i :: 0 <= i < |snaps| ==>
          && snaps[i].id in records && snaps[i] == SnapshotOf(snaps[i].id, records[snaps[i].id])
          && forall id :: id in left ==> LexLess(snaps[i].id, id))
    && (forall id :: id in records && id !in left ==> exists i :: 0 <= i < |snaps| && snaps[i].id == id)
  }

  lemma AppendSmallest(snaps: seq<Snapshot>, records: map<bytes, Record>, left: set<bytes>, id: bytes)
    requires Listed(snaps, records, left) && left <= records.Keys && id in left
    requires forall other :: other in left && other != id ==> LexLess(id, other)
    ensures Listed(snaps + [SnapshotOf(id, records[id])], records, left - {id})
  {
    hide SnapshotOf, LexLess;
    var last := SnapshotOf(id, records[id]);
    SnapshotTransaction(id, records[id]);
    AppendInOrder(snaps, last);
    AppendCovers(snaps, records, left, last);
    var more := snaps + [last];
    forall i | 0 <= i < |more|
      ensures more[i].id in records && more[i] == SnapshotOf(more[i].id, records[more[i].id])
      ensures forall other :: other in left - {id} ==> LexLess(more[i].id, other)
    {
      assert i < |snaps| ==> more[i] == snaps[i];
    }
  }

  lemma AppendCovers(snaps: seq<Snapshot>, records: map<bytes, Record>, left: set<bytes>, last: Snapshot)
    requires forall id :: id in records && id !in left ==> exists i :: 0 <= i < |snaps| && snaps[i].id == id
    ensures var more := snaps + [last];
            forall id :: id in records && id !in left - {last.id} ==> exists i :: 0 <= i < |more| && more[i].id == id
  {
    var more := snaps + [last];
    assert more[|snaps|].id == last.id;
    forall id | id in records && id !in left - {last.id}
      ensures exists i :: 0 <= i < |more| && more[i].id == id
    {
      if id != last.id {
        var i :| 0 <= i < |snaps| && snaps[i].id == id;
        assert more[i].id == id;
      }
    }
  }

  lemma AppendInOrder(snaps: seq<Snapshot>, last: Snapshot)
    requires InOrder(snaps) && forall i :: 0 <= i < |snaps| ==> LexLess(snaps[i].id, last.id)
    ensures InOrder(snaps + [last])
  {
    hide LexLess;
  }

  ghost predicate Smallest(id: bytes, keys: set<bytes>) {
    id in keys && forall other :: other in keys && other != id ==> LexLess(id, other)
  }

  lemma {:induction false} SmallestExists(keys: set<bytes>)
    requires keys != {}
    ensures exists id :: Smallest(id, keys)
    decreases |keys|
  {
    hide LexLess;
    var k :| k in keys;
    var rest := keys - {k};
    assert forall other :: other in keys ==> other == k || other in rest;
    if rest == {} {
      assert Smallest(k, keys);
    } else {
      SmallestExists(rest);
      var m :| Smallest(m, rest);
      LexTrichotomy(k, m);
      if LexLess(k, m) {
        SmallerStill(k, m, rest);
        assert Smallest(k, keys);
      } else {
        assert Smallest(m, keys);
      }
    }
  }

  lemma SmallerStill(k: bytes, m: bytes, rest: set<bytes>)
    requires Smallest(m, rest) && LexLess(k, m)
    ensures forall other :: other in rest ==> LexLess(k, other)
  {
    hide LexLess;
    forall other | other in rest ensures LexLess(k, other) {
      if other != m {
        LexTransitive(k, m, other);
      }
    }
  }
}
