/** Verification of the V2 template event in a receipt. */
module AnchorEvents {
  import opened Bytes
  import opened Hex
  import opened AnchorReceipts

  /** The four values the template emits (`AnchorEventPayloadV3`). */
  datatype EventPayload = EventPayload(digest: bytes, network: bytes, electionId: bytes, summary: bytes)

  function Topic(): bytes {
    Ascii("TariPrivateBallotAnchorV2.TARI_CC_PRIVATE_BALLOT_OOTLE_ANCHOR_V2")
  }

  function DigestKey(): (k: bytes)
    ensures |k| == 16
  {
    Ascii("anchor_digest_v2")
  }

  type Pair = (bytes, bytes)

  function ExpectedPairs(p: EventPayload): (r: seq<Pair>)
    ensures |r| == 4 && r[0].0 == DigestKey()
    ensures |r[0].0| == 16 && |r[1].0| == 7 && |r[2].0| == 11 && |r[3].0| == 14
  {
    [(DigestKey(), ToHex(p.digest)), (Ascii("network"), p.network),
     (Ascii("election_id"), p.electionId), (Ascii("public_summary"), p.summary)]
  }

  predicate HasDigestKey(e: Event) {
    exists i :: 0 <= i < |e.metadata| && e.metadata[i].0 == DigestKey()
  }

  // ---------------------------------------------------------------------
  // Candidate events
  // ---------------------------------------------------------------------

  function EventRefusal(template: bytes, e: Event): Option<VerificationError> {
    if e.template == template && e.topic != Topic() then Some(WrongEventTopic)
    else if e.topic == Topic() && e.template != template then Some(WrongEventTemplate)
    else None
  }

  predicate IsCandidate(e: Event) {
    e.topic == Topic() || HasDigestKey(e)
  }

  function Candidates(template: bytes, events: seq<Event>): Result<seq<Event>, VerificationError> {
    if events == [] then Ok([])
    else
      var n := |events| - 1;
      var before :- Candidates(template, events[..n]);
      var refusal := EventRefusal(template, events[n]);
      if refusal.Some? then Err(refusal.value)
      else if IsCandidate(events[n]) then Ok(before + [events[n]])
      else Ok(before)
  }

  function OnlyEvent(candidates: seq<Event>): Result<Event, VerificationError> {
    if candidates == [] then Err(MissingAnchorEvent)
    else if |candidates| > 1 then Err(DuplicateAnchorEvents)
    else Ok(candidates[0])
  }

  function CountKey(metadata: seq<Pair>, key: bytes): nat {
    if metadata == [] then 0
    else CountKey(metadata[..|metadata| - 1], key) + if metadata[|metadata| - 1].0 == key then 1 else 0
  }

  function PairRefusal(metadata: seq<Pair>, expected: Pair): Option<VerificationError> {
    if CountKey(metadata, expected.0) != 1 then Some(MalformedAnchorEvent)
    else if expected !in metadata then
      Some(if expected.0 == DigestKey() then WrongAnchorDigest else MalformedAnchorEvent)
    else None
  }

  /** The first refusal among the expected pairs. */
  function PairsRefusal(metadata: seq<Pair>, expected: seq<Pair>): Option<VerificationError> {
    if expected == [] then None
    else
      var n := |expected| - 1;
      var before := PairsRefusal(metadata, expected[..n]);
      if before.Some? then before else PairRefusal(metadata, expected[n])
  }

  function MetadataRefusal(template: bytes, payload: EventPayload, e: Event): Option<VerificationError> {
    if e.template != template then Some(WrongEventTemplate)
    else if e.topic != Topic() then Some(WrongEventTopic)
    else if |e.metadata| != 4 then Some(UnexpectedEventMetadata)
    else PairsRefusal(e.metadata, ExpectedPairs(payload))
  }

  function VerifyEvent(transaction: bytes, network: bytes, template: bytes, payload: EventPayload, r: Receipt)
    : Result<Evidence, VerificationError>
  {
    var refusal := HeaderRefusal(transaction, network, r);
    if refusal.Some? then Err(refusal.value)
    else
      var candidates :- Candidates(template, r.events);
      var event :- OnlyEvent(candidates);
      var metadata := MetadataRefusal(template, payload, event);
      if metadata.Some? then Err(metadata.value)
      else Ok(Evidence(r.transaction, r.network, payload.digest, r.ledger, r.source))
  }

  method VerifyV2EventReceipt(transaction: bytes, network: bytes, template: bytes, payload: EventPayload, r: Receipt)
    returns (verdict: Result<Evidence, VerificationError>)
    ensures verdict == VerifyEvent(transaction, network, template, payload, r)
  {
    hide Candidates, MetadataRefusal, EventRefusal, IsCandidate;
    var refusal := HeaderRefusal(transaction, network, r);
    if refusal.Some? {
      return Err(refusal.value);
    }
    var found := CollectCandidates(template, r.events);
    if found.Err? {
      return Err(found.error);
    }
    var candidates := found.value;
    if candidates == [] {
      return Err(MissingAnchorEvent);
    }
    if |candidates| != 1 {
      return Err(DuplicateAnchorEvents);
    }
    var metadata := CheckMetadata(template, payload, candidates[0]);
    if metadata.Some? {
      return Err(metadata.value);
    }
    return Ok(Evidence(r.transaction, r.network, payload.digest, r.ledger, r.source));
  }

  method CollectCandidates(template: bytes, events: seq<Event>) returns (r: Result<seq<Event>, VerificationError>)
    ensures r == Candidates(template, events)
  {
    hide HasDigestKey;
    var candidates: seq<Event> := [];
    for i := 0 to |events|
      invariant Candidates(template, events[..i]) == Ok(candidates)
    {
      var event := events[i];
      assert events[..i + 1][..i] == events[..i];
      var hasDigest := HasDigestKey(event);
      if event.template == template && event.topic != Topic() {
        RefusalStays(template, events, i + 1);
        return Err(WrongEventTopic);
      }
      if event.topic == Topic() && event.template != template {
        RefusalStays(template, events, i + 1);
        return Err(WrongEventTemplate);
      }
      if event.topic == Topic() || hasDigest {
        candidates := candidates + [event];
      }
    }
    assert events[..|events|] == events;
    return Ok(candidates);
  }

  method CheckMetadata(template: bytes, payload: EventPayload, event: Event) returns (r: Option<VerificationError>)
    ensures r == MetadataRefusal(template, payload, event)
  {
    hide DigestKey;
    if event.template != template {
      return Some(WrongEventTemplate);
    }
    if event.topic != Topic() {
      return Some(WrongEventTopic);
    }
    if |event.metadata| != 4 {
      return Some(UnexpectedEventMetadata);
    }
    var expected := ExpectedPairs(payload);
    hide ExpectedPairs;
    for i := 0 to 4
      invariant PairsRefusal(event.metadata, expected[..i]) == None
    {
      assert expected[..i + 1][..i] == expected[..i];
      var refusal := PairRefusal(event.metadata, expected[i]);
      if refusal.Some? {
        PairRefusalStays(event.metadata, expected, i + 1);
        return refusal;
      }
    }
    assert expected[..4] == expected;
    return None;
  }

  lemma {:induction false} RefusalStays(template: bytes, events: seq<Event>, n: nat)
    requires n <= |events| && Candidates(template, events[..n]).Err?
    ensures Candidates(template, events) == Candidates(template, events[..n])
    decreases |events|
  {
    hide EventRefusal, IsCandidate;
    if n < |events| {
      var m := |events| - 1;
      assert events[..m][..n] == events[..n];
      RefusalStays(template, events[..m], n);
    } else {
      assert events[..n] == events;
    }
  }

  lemma {:induction false} PairRefusalStays(metadata: seq<Pair>, expected: seq<Pair>, n: nat)
    requires n <= |expected| && PairsRefusal(metadata, expected[..n]).Some?
    ensures PairsRefusal(metadata, expected) == PairsRefusal(metadata, expected[..n])
    decreases |expected|
  {
    hide PairRefusal;
    if n < |expected| {
      var m := |expected| - 1;
      assert expected[..m][..n] == expected[..n];
      PairRefusalStays(metadata, expected[..m], n);
    } else {
      assert expected[..n] == expected;
    }
  }

  // ---------------------------------------------------------------------
  // What is accepted
  // ---------------------------------------------------------------------

  predicate Touches(template: bytes, e: Event) {
    e.template == template || e.topic == Topic() || HasDigestKey(e)
  }

  /** `x` occurs once and is the only element of `s` satisfying `p`. */
  ghost predicate Sole<T(!new)>(s: seq<T>, p: T -> bool, x: T) {
    p(x) && multiset(s)[x] == 1 && forall y :: y in multiset(s) && p(y) ==> y == x
  }

  ghost predicate Nowhere<T(!new)>(s: seq<T>, p: T -> bool) {
    forall y :: y in multiset(s) ==> !p(y)
  }

  lemma SoleStep<T(!new)>(s: seq<T>, p: T -> bool, x: T)
    requires s != []
    ensures var front, last := s[..|s| - 1], s[|s| - 1];
            && Nowhere(s, p) == (Nowhere(front, p) && !p(last))
            && Sole(s, p, x) == if p(last) then Nowhere(front, p) && last == x else Sole(front, p, x)
  {
    var front, last := s[..|s| - 1], s[|s| - 1];
    assert s == front + [last];
    assert multiset(s) == multiset(front) + multiset{last};
  }

  lemma {:induction false} SoleCandidate(template: bytes, events: seq<Event>, e: Event)
    ensures var p := x => Touches(template, x);
            && (Candidates(template, events) == Ok([]) <==> Nowhere(events, p))
            && (Candidates(template, events) == Ok([e]) && e.template == template && e.topic == Topic()
                <==> Sole(events, p, e) && e.template == template && e.topic == Topic())
  {
    hide Topic, HasDigestKey;
    var p := x => Touches(template, x);
    if events == [] {
      assert multiset(events)[e] == 0;
    } else {
      var n := |events| - 1;
      SoleCandidate(template, events[..n], e);
      SoleStep(events, p, e);
      if Candidates(template, events[..n]).Ok? {
        AppendIsOne(Candidates(template, events[..n]).value, events[n], e);
      }
    }
  }

  lemma AppendIsOne(before: seq<Event>, last: Event, e: Event)
    ensures before + [last] == [e] <==> before == [] && last == e
  {
    assert (before + [last])[|before|] == last;
  }

  lemma {:induction false} SolePair(metadata: seq<Pair>, key: bytes, value: bytes)
    ensures var p := (x: Pair) => x.0 == key;
            && (CountKey(metadata, key) == 0 <==> Nowhere(metadata, p))
            && (CountKey(metadata, key) == 1 && (key, value) in metadata <==> Sole(metadata, p, (key, value)))
  {
    var p := (x: Pair) => x.0 == key;
    if metadata != [] {
      var n := |metadata| - 1;
      SolePair(metadata[..n], key, value);
      SoleStep(metadata, p, (key, value));
      assert metadata == metadata[..n] + [metadata[n]];
      assert (key, value) in metadata[..n] ==> !Nowhere(metadata[..n], p) by {
        if (key, value) in metadata[..n] {
          assert (key, value) in multiset(metadata[..n]) && p((key, value));
        }
      }
    }
  }

  ghost predicate SoleKeys(metadata: seq<Pair>, expected: seq<Pair>) {
    forall k :: 0 <= k < |expected| ==> Sole(metadata, (x: Pair) => x.0 == expected[k].0, expected[k])
  }

  lemma {:induction false} PairsAccepted(metadata: seq<Pair>, expected: seq<Pair>)
    ensures PairsRefusal(metadata, expected) == None <==> SoleKeys(metadata, expected)
    decreases |expected|
  {
    hide DigestKey;
    if expected != [] {
      var n := |expected| - 1;
      var front := expected[..n];
      PairsAccepted(metadata, front);
      SolePair(metadata, expected[n].0, expected[n].1);
      assert (expected[n].0, expected[n].1) == expected[n];
      hide Sole;
      assert forall k :: 0 <= k < n ==> front[k] == expected[k];
      assert SoleKeys(metadata, expected) <==>
             SoleKeys(metadata, front) && Sole(metadata, (x: Pair) => x.0 == expected[n].0, expected[n]);
    }
  }

  ghost predicate DistinctKeys(pairs: seq<Pair>) {
    forall i, j :: 0 <= i < j < |pairs| ==> pairs[i].0 != pairs[j].0
  }

  lemma {:induction false} DistinctOccurOnce(pairs: seq<Pair>, x: Pair)
    requires DistinctKeys(pairs)
    ensures multiset(pairs)[x] == if x in pairs then 1 else 0
  {
    if pairs != [] {
      var n := |pairs| - 1;
      DistinctOccurOnce(pairs[..n], x);
      assert pairs == pairs[..n] + [pairs[n]];
      assert multiset(pairs) == multiset(pairs[..n]) + multiset{pairs[n]};
    }
  }

  lemma SubsetSameSize(a: multiset<Pair>, b: multiset<Pair>)
    requires a <= b && |a| == |b|
    ensures a == b
  {
    assert b == a + (b - a);
    assert |b - a| == 0;
  }

  /** With as many entries as distinct expected keys, the checks say exactly "a permutation". */
  lemma PermutationIffSoleKeys(metadata: seq<Pair>, expected: seq<Pair>)
    requires DistinctKeys(expected)
    ensures |metadata| == |expected| && SoleKeys(metadata, expected) <==> multiset(metadata) == multiset(expected)
  {
    forall x
      ensures multiset(expected)[x] == if x in expected then 1 else 0
    {
      DistinctOccurOnce(expected, x);
    }
    assert |multiset(metadata)| == |metadata| && |multiset(expected)| == |expected|;
    if |metadata| == |expected| && SoleKeys(metadata, expected) {
      assert forall k :: 0 <= k < |expected| ==> multiset(metadata)[expected[k]] == 1;
      SubsetSameSize(multiset(expected), multiset(metadata));
    }
    if multiset(metadata) == multiset(expected) {
      forall k | 0 <= k < |expected|
        ensures Sole(metadata, (x: Pair) => x.0 == expected[k].0, expected[k])
      {
        assert forall y :: y in multiset(metadata) ==> y in expected;
      }
    }
  }

  /**
   * Acceptance: transaction, network and full acceptance match; exactly one event touches the
   * pinned template, the topic or the digest key; it has both template and topic, and its
   * metadata is a permutation of the four expected pairs.
   */
  ghost predicate Anchors(template: bytes, payload: EventPayload, events: seq<Event>, e: Event) {
    && Sole(events, x => Touches(template, x), e)
    && e.template == template && e.topic == Topic()
    && multiset(e.metadata) == multiset(ExpectedPairs(payload))
  }

  lemma MetadataAccepted(template: bytes, payload: EventPayload, e: Event)
    ensures MetadataRefusal(template, payload, e) == None <==>
            e.template == template && e.topic == Topic() && multiset(e.metadata) == multiset(ExpectedPairs(payload))
  {
    hide Topic, PairsRefusal, SoleKeys;
    var expected := ExpectedPairs(payload);
    PairsAccepted(e.metadata, expected);
    assert DistinctKeys(expected);
    PermutationIffSoleKeys(e.metadata, expected);
    assert |multiset(e.metadata)| == |e.metadata| && |multiset(expected)| == 4;
  }

  lemma AcceptedIff(transaction: bytes, network: bytes, template: bytes, payload: EventPayload, r: Receipt)
    ensures VerifyEvent(transaction, network, template, payload, r).Ok? <==>
            && r.transaction == transaction && r.network == network && r.status.AcceptedStatus?
            && exists e :: Anchors(template, payload, r.events, e)
    ensures var v := VerifyEvent(transaction, network, template, payload, r);
            v.Ok? ==> v.value == Evidence(transaction, network, payload.digest, r.ledger, r.source)
  {
    hide Candidates, MetadataRefusal, Sole, Topic, ExpectedPairs, Touches;
    var found := Candidates(template, r.events);
    if found.Ok? && |found.value| == 1 {
      var e := found.value[0];
      assert found.value == [e];
      SoleCandidate(template, r.events, e);
      MetadataAccepted(template, payload, e);
      assert MetadataRefusal(template, payload, e) == None ==> Anchors(template, payload, r.events, e);
    }
    if e :| Anchors(template, payload, r.events, e) {
      SoleCandidate(template, r.events, e);
      MetadataAccepted(template, payload, e);
    }
  }

  /** The order of the events does not affect acceptance or the evidence. */
  lemma EventOrderIsIrrelevant(
    transaction: bytes, network: bytes, template: bytes, payload: EventPayload, r: Receipt, events: seq<Event>)
    requires multiset(events) == multiset(r.events)
    ensures var v, w := VerifyEvent(transaction, network, template, payload, r),
                        VerifyEvent(transaction, network, template, payload, r.(events := events));
            v.Ok? == w.Ok? && (v.Ok? ==> v == w)
  {
    hide VerifyEvent, Topic, ExpectedPairs, Touches;
    AcceptedIff(transaction, network, template, payload, r);
    AcceptedIff(transaction, network, template, payload, r.(events := events));
    assert forall e :: Anchors(template, payload, events, e) <==> Anchors(template, payload, r.events, e);
  }

  lemma SameKeysTouch(e: Event, metadata: seq<Pair>)
    requires multiset(metadata) == multiset(e.metadata)
    ensures HasDigestKey(e.(metadata := metadata)) == HasDigestKey(e)
  {
    hide DigestKey;
    if HasDigestKey(e) {
      var i :| 0 <= i < |e.metadata| && e.metadata[i].0 == DigestKey();
      assert e.metadata[i] in multiset(metadata);
      var j :| 0 <= j < |metadata| && metadata[j] == e.metadata[i];
    }
    if HasDigestKey(e.(metadata := metadata)) {
      var i :| 0 <= i < |metadata| && metadata[i].0 == DigestKey();
      assert metadata[i] in multiset(e.metadata);
      var j :| 0 <= j < |e.metadata| && e.metadata[j] == metadata[i];
    }
  }

  /** The same events, each with its metadata possibly reordered. */
  ghost predicate Reordered(a: seq<Event>, b: seq<Event>) {
    && |a| == |b|
    && forall i :: 0 <= i < |a| ==> b[i] == a[i].(metadata := b[i].metadata) && multiset(b[i].metadata) == multiset(a[i].metadata)
  }

  /** Counting a key is additive, so it does not depend on the order. */
  lemma {:induction false} CountAppend(a: seq<Pair>, b: seq<Pair>, key: bytes)
    ensures CountKey(a + b, key) == CountKey(a, key) + CountKey(b, key)
    decreases |b|
  {
    if b == [] {
      assert a + b == a;
    } else {
      var n := |b| - 1;
      assert (a + b)[..|a + b| - 1] == a + b[..n];
      CountAppend(a, b[..n], key);
    }
  }

  lemma CountTakeOut(b: seq<Pair>, i: nat, key: bytes)
    requires i < |b|
    ensures CountKey(b, key) == CountKey(b[..i] + b[i + 1..], key) + if b[i].0 == key then 1 else 0
  {
    var front, back := b[..i + 1], b[i + 1..];
    assert b == front + back && front[..i] == b[..i] && front[i] == b[i];
    CountAppend(front, back, key);
    CountAppend(b[..i], back, key);
  }

  lemma {:induction false} CountPermutes(a: seq<Pair>, b: seq<Pair>, key: bytes)
    requires multiset(a) == multiset(b)
    ensures CountKey(a, key) == CountKey(b, key)
    decreases |a|
  {
    if a == [] {
      assert |multiset(b)| == 0;
    } else {
      var n := |a| - 1;
      assert a[n] in multiset(b);
      var i :| 0 <= i < |b| && b[i] == a[n];
      RemovedLast(a, b, i);
      CountPermutes(a[..n], b[..i] + b[i + 1..], key);
      CountTakeOut(b, i, key);
    }
  }

  lemma PairPermutes(a: seq<Pair>, b: seq<Pair>, expected: Pair)
    requires multiset(a) == multiset(b)
    ensures PairRefusal(a, expected) == PairRefusal(b, expected)
  {
    hide DigestKey, CountKey;
    CountPermutes(a, b, expected.0);
    assert expected in a <==> expected in multiset(a);
    assert expected in b <==> expected in multiset(b);
  }

  lemma {:induction false} PairsPermute(a: seq<Pair>, b: seq<Pair>, expected: seq<Pair>)
    requires multiset(a) == multiset(b)
    ensures PairsRefusal(a, expected) == PairsRefusal(b, expected)
    decreases |expected|
  {
    hide PairRefusal;
    if expected != [] {
      var n := |expected| - 1;
      PairsPermute(a, b, expected[..n]);
      PairPermutes(a, b, expected[n]);
    }
  }

  lemma MetadataPermutes(template: bytes, payload: EventPayload, e: Event, metadata: seq<Pair>)
    requires multiset(metadata) == multiset(e.metadata)
    ensures MetadataRefusal(template, payload, e.(metadata := metadata)) == MetadataRefusal(template, payload, e)
  {
    hide Topic, PairsRefusal;
    var expected := ExpectedPairs(payload);
    hide ExpectedPairs;
    PairsPermute(metadata, e.metadata, expected);
    assert |multiset(metadata)| == |metadata| && |multiset(e.metadata)| == |e.metadata|;
  }

  /** Reordered events give reordered candidates or the same error. */
  lemma {:induction false} CandidatesReordered(template: bytes, a: seq<Event>, b: seq<Event>)
    requires Reordered(a, b)
    ensures match Candidates(template, a)
            case Ok(c) => Candidates(template, b).Ok? && Reordered(c, Candidates(template, b).value)
            case Err(e) => Candidates(template, b) == Err(e)
  {
    hide Topic, HasDigestKey;
    if a != [] {
      var n := |a| - 1;
      CandidatesReordered(template, a[..n], b[..n]);
      SameKeysTouch(a[n], b[n].metadata);
    }
  }

  /** The order of the metadata within any event affects neither the evidence nor the error. */
  lemma MetadataOrderIsIrrelevant(
    transaction: bytes, network: bytes, template: bytes, payload: EventPayload, r: Receipt, events: seq<Event>)
    requires Reordered(r.events, events)
    ensures VerifyEvent(transaction, network, template, payload, r.(events := events)) ==
            VerifyEvent(transaction, network, template, payload, r)
  {
    hide Candidates, MetadataRefusal;
    CandidatesReordered(template, r.events, events);
    var found := Candidates(template, r.events);
    if found.Ok? && |found.value| == 1 {
      var e, e' := found.value[0], Candidates(template, events).value[0];
      assert e' == e.(metadata := e'.metadata);
      MetadataPermutes(template, payload, e, e'.metadata);
    }
  }

  // ---------------------------------------------------------------------
  // When the error depends on the order of the events
  // ---------------------------------------------------------------------

  predicate WrongTopic(template: bytes, e: Event) {
    e.template == template && e.topic != Topic()
  }

  predicate WrongTemplate(template: bytes, e: Event) {
    e.topic == Topic() && e.template != template
  }

  /** The candidate stage: its error is that of some event, and otherwise it keeps every candidate. */
  lemma {:induction false} CandidateStage(template: bytes, events: seq<Event>)
    ensures match Candidates(template, events)
            case Err(error) =>
              exists i :: 0 <= i < |events| && EventRefusal(template, events[i]) == Some(error)
            case Ok(c) =>
              && (forall i :: 0 <= i < |events| ==> EventRefusal(template, events[i]) == None)
              && Keeps(c, events)
  {
    hide EventRefusal, IsCandidate, Keeps;
    if events == [] {
      assert Keeps([], events) by { NothingKept(); }
    } else {
      var n := |events| - 1;
      CandidateStage(template, events[..n]);
      if Candidates(template, events[..n]).Err? {
        var i :| 0 <= i < n && EventRefusal(template, events[..n][i]) == Some(Candidates(template, events[..n]).error);
        assert EventRefusal(template, events[i]) == Some(Candidates(template, events).error);
      } else {
        KeptCandidates(Candidates(template, events[..n]).value, events);
        assert forall i :: 0 <= i < n ==> events[..n][i] == events[i];
      }
    }
  }

  /** `c` holds exactly the candidates among `events`, with their multiplicities. */
  ghost predicate Keeps(c: seq<Event>, events: seq<Event>) {
    forall x :: multiset(c)[x] == if IsCandidate(x) then multiset(events)[x] else 0
  }

  lemma NothingKept()
    ensures Keeps([], [])
  {
  }

  lemma KeptCandidates(before: seq<Event>, events: seq<Event>)
    requires events != [] && Keeps(before, events[..|events| - 1])
    ensures var last := events[|events| - 1]; Keeps(if IsCandidate(last) then before + [last] else before, events)
  {
    hide IsCandidate;
    var n := |events| - 1;
    assert events == events[..n] + [events[n]];
    assert multiset(events) == multiset(events[..n]) + multiset{events[n]};
    assert multiset(before + [events[n]]) == multiset(before) + multiset{events[n]};
  }

  lemma OnlyEventPermutes(a: seq<Event>, b: seq<Event>)
    requires multiset(a) == multiset(b)
    ensures OnlyEvent(a) == OnlyEvent(b)
  {
    assert |multiset(a)| == |a| && |multiset(b)| == |b|;
    if |a| == 1 {
      assert a[0] in multiset(b);
    }
  }

  /** Some event of `events` satisfies `p`. */
  ghost predicate Somewhere(events: seq<Event>, p: Event -> bool) {
    exists i :: 0 <= i < |events| && p(events[i])
  }

  lemma SomewherePermutes(a: seq<Event>, b: seq<Event>, p: Event -> bool)
    requires multiset(a) == multiset(b)
    ensures Somewhere(a, p) ==> Somewhere(b, p)
  {
    if Somewhere(a, p) {
      var i :| 0 <= i < |a| && p(a[i]);
      assert a[i] in multiset(b);
      var j :| 0 <= j < |b| && b[j] == a[i];
      assert p(b[j]);
    }
  }

  /** With only one kind of offending event, the candidate stage and the single event are order-free. */
  lemma CandidatesPermute(template: bytes, a: seq<Event>, b: seq<Event>)
    requires multiset(a) == multiset(b)
    requires !Somewhere(a, x => WrongTopic(template, x)) || !Somewhere(a, x => WrongTemplate(template, x))
    ensures Candidates(template, a).Ok? == Candidates(template, b).Ok?
    ensures Candidates(template, a).Err? ==> Candidates(template, a) == Candidates(template, b)
    ensures Candidates(template, a).Ok? ==> OnlyEvent(Candidates(template, a).value) == OnlyEvent(Candidates(template, b).value)
  {
    hide Topic, IsCandidate, Candidates, OnlyEvent;
    CandidateStage(template, a);
    CandidateStage(template, b);
    SomewherePermutes(a, b, x => WrongTopic(template, x));
    SomewherePermutes(b, a, x => WrongTopic(template, x));
    SomewherePermutes(a, b, x => WrongTemplate(template, x));
    SomewherePermutes(b, a, x => WrongTemplate(template, x));
    RefusedSomewhere(template, a);
    RefusedSomewhere(template, b);
    if Candidates(template, a).Ok? && Candidates(template, b).Ok? {
      var c, d := Candidates(template, a).value, Candidates(template, b).value;
      assert forall x :: multiset(c)[x] == multiset(d)[x];
      OnlyEventPermutes(c, d);
    }
  }

  /** The candidate stage fails exactly on an offending event, with the error of one of them. */
  lemma RefusedSomewhere(template: bytes, events: seq<Event>)
    ensures Candidates(template, events).Err? <==>
            Somewhere(events, x => WrongTopic(template, x)) || Somewhere(events, x => WrongTemplate(template, x))
    ensures Candidates(template, events) == Err(WrongEventTopic) ==> Somewhere(events, x => WrongTopic(template, x))
    ensures Candidates(template, events) == Err(WrongEventTemplate) ==> Somewhere(events, x => WrongTemplate(template, x))
    ensures var c := Candidates(template, events);
            c.Err? ==> c.error == WrongEventTopic || c.error == WrongEventTemplate
  {
    hide Topic, IsCandidate, Candidates;
    CandidateStage(template, events);
  }

  /** The events with the one at `i` moved to the front. */
  function ToFront(events: seq<Event>, i: nat): (r: seq<Event>)
    requires i < |events|
    ensures multiset(r) == multiset(events) && r[0] == events[i]
  {
    assert events == events[..i] + [events[i]] + events[i + 1..];
    [events[i]] + (events[..i] + events[i + 1..])
  }

  lemma FrontRefuses(template: bytes, events: seq<Event>)
    requires events != [] && EventRefusal(template, events[0]).Some?
    ensures Candidates(template, events) == Err(EventRefusal(template, events[0]).value)
  {
    hide EventRefusal, IsCandidate;
    assert events[..1][..0] == [] && events[..1][0] == events[0];
    assert Candidates(template, events[..1]) == Err(EventRefusal(template, events[0]).value);
    RefusalStays(template, events, 1);
  }

  /** Any order of the receipt's events gives the same evidence or the same error. */
  ghost predicate OrderFree(transaction: bytes, network: bytes, template: bytes, payload: EventPayload, r: Receipt) {
    forall events: seq<Event> :: multiset(events) == multiset(r.events) ==>
      VerifyEvent(transaction, network, template, payload, r.(events := events)) ==
      VerifyEvent(transaction, network, template, payload, r)
  }

  /** Two offending events of different kinds report different errors, depending on which comes first. */
  lemma ErrorKindDependsOnOrder(
    transaction: bytes, network: bytes, template: bytes, payload: EventPayload, r: Receipt, i: nat, j: nat)
    requires HeaderRefusal(transaction, network, r).None? && i < |r.events| && j < |r.events|
    requires WrongTopic(template, r.events[i]) && WrongTemplate(template, r.events[j])
    ensures VerifyEvent(transaction, network, template, payload, r.(events := ToFront(r.events, i))) == Err(WrongEventTopic)
    ensures VerifyEvent(transaction, network, template, payload, r.(events := ToFront(r.events, j))) == Err(WrongEventTemplate)
  {
    hide Topic, Candidates, OnlyEvent, MetadataRefusal;
    FrontRefuses(template, ToFront(r.events, i));
    FrontRefuses(template, ToFront(r.events, j));
  }

  /**
   * The error is independent of the order of the events exactly when the header is refused, or
   * no event has the pinned template with another topic, or none has the topic under another template.
   */
  lemma OrderFreeIff(transaction: bytes, network: bytes, template: bytes, payload: EventPayload, r: Receipt)
    ensures OrderFree(transaction, network, template, payload, r) <==>
            || HeaderRefusal(transaction, network, r).Some?
            || !Somewhere(r.events, x => WrongTopic(template, x))
            || !Somewhere(r.events, x => WrongTemplate(template, x))
  {
    hide Topic, Candidates, OnlyEvent, MetadataRefusal;
    if HeaderRefusal(transaction, network, r).None? {
      if Somewhere(r.events, x => WrongTopic(template, x)) && Somewhere(r.events, x => WrongTemplate(template, x)) {
        var i :| 0 <= i < |r.events| && WrongTopic(template, r.events[i]);
        var j :| 0 <= j < |r.events| && WrongTemplate(template, r.events[j]);
        ErrorKindDependsOnOrder(transaction, network, template, payload, r, i, j);
      } else {
        forall events: seq<Event> | multiset(events) == multiset(r.events)
          ensures VerifyEvent(transaction, network, template, payload, r.(events := events)) ==
                  VerifyEvent(transaction, network, template, payload, r)
        {
          CandidatesPermute(template, r.events, events);
        }
      }
    }
  }
}
